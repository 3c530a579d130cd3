/**
 The receiver and its batch guard as the program runs them, on the two ends of the rings. Each method is
 proved to be the corresponding steps of frame recycling with no step of the kernel in between.
 */
module Receiver {
  import opened FrameRecycling
  import opened Modular
  import opened Ring
  import opened RingSides
  import opened Wrappers

  ghost predicate Shows(fr: Producer<nat>, rx: Consumer<nat>, w: World)
    reads fr, fr.memory, fr.memory.slots, rx, rx.memory, rx.memory.slots
  {
    fr.memory != rx.memory && fr.memory.slots != rx.memory.slots && fr.Shows(w.fill) && rx.Shows(w.rx)
  }

  /** The fill ring with the first `n` of its addresses written. */
  ghost predicate Filling(s: State<nat>, start: nat, frameSize: nat, n: nat)
  {
    && Ring.Inv(s) && s.log == [] && s.reserved == s.Size() && s.peeked == 0 && n <= s.Size()
    && s.slots[..n] == Addresses(start, n, frameSize)
  }

  lemma FillOne(s: State<nat>, start: nat, frameSize: nat, n: nat)
    requires Filling(s, start, frameSize, n) && n < s.Size()
    ensures Filling(Ring.Write(s, n, (start + n) * frameSize), start, frameSize, n + 1)
  {
    WriteKeepsInv(s, n, (start + n) * frameSize);
    SlotIsRemainder(s.Size(), n);
    RemainderUnique(n, 0, n, s.Size());
    var s' := Ring.Write(s, n, (start + n) * frameSize);
    assert s'.slots[..n + 1] == s.slots[..n] + [(start + n) * frameSize];
    assert Addresses(start, n + 1, frameSize) == Addresses(start, n, frameSize) + [(start + n) * frameSize];
  }

  lemma FillDone(s: State<nat>, start: nat, frameSize: nat)
    requires Filling(s, start, frameSize, s.Size())
    ensures var s' := Ring.Submit(s, s.Size());
      && Ring.Inv(s') && s'.log == Addresses(start, s.Size(), frameSize) && s'.Size() == s.Size()
      && s'.reserved == |s'.log| && s'.peeked == 0
  {
    Ring.SubmitKeepsInv(s, s.Size());
    var stretch := Stretch(s.slots, 0, s.Size());
    forall k | 0 <= k < s.Size() ensures stretch[k] == s.slots[k] {
      SlotIsRemainder(s.Size(), k);
      RemainderUnique(k, 0, k, s.Size());
    }
    assert stretch == s.slots;
    assert s.slots[..s.Size()] == s.slots;
  }

  /** The ring after the first `n` addresses are written. */
  function FilledTo(s: State<nat>, start: nat, frameSize: nat, n: nat): (s': State<nat>)
    requires s.Size() > 0
    ensures s'.Size() == s.Size()
  {
    if n == 0 then s
    else Ring.Write(FilledTo(s, start, frameSize, n - 1), n - 1, (start + (n - 1)) * frameSize)
  }

  function FillSpec(s: State<nat>, start: nat, frameSize: nat): State<nat>
    requires 0 < s.Size() < TWO_32
  {
    Ring.Submit(FilledTo(Ring.Reserve(s, s.Size()), start, frameSize, s.Size()), s.Size())
  }

  lemma {:induction false} FilledToIsFilling(s: State<nat>, start: nat, frameSize: nat, n: nat)
    requires Filling(s, start, frameSize, 0) && n <= s.Size()
    ensures Filling(FilledTo(s, start, frameSize, n), start, frameSize, n)
  {
    if n > 0 {
      FilledToIsFilling(s, start, frameSize, n - 1);
      FillOne(FilledTo(s, start, frameSize, n - 1), start, frameSize, n - 1);
    }
  }

  /** Reserving, writing and submitting the whole ring leaves exactly the receiver's addresses in it. */
  lemma FillSpecStarts(s: State<nat>, start: nat, frameSize: nat)
    requires Init(s)
    ensures var s' := FillSpec(s, start, frameSize);
      && Ring.Inv(s') && s'.log == Addresses(start, s.Size(), frameSize) && s'.Size() == s.Size()
      && s'.reserved == |s'.log| && s'.peeked == 0
  {
    ReserveIffRoom(s, s.Size());
    var r := Ring.Reserve(s, s.Size());
    FilledToIsFilling(r, start, frameSize, s.Size());
    FillDone(FilledTo(r, start, frameSize, s.Size()), start, frameSize);
  }

  /** The world of a new receiver. */
  ghost function FirstWorld(fill0: State<nat>, rx0: State<nat>, start: nat, frameSize: nat): World
    requires Init(fill0)
  {
    var fill := FillSpec(fill0, start, frameSize);
    World(frameSize, fill, rx0, multiset{}, Idle, FrameRange(start, fill.Size()))
  }

  lemma FirstWorldIsStart(fill0: State<nat>, rx0: State<nat>, start: nat, frameSize: nat)
    requires Init(fill0) && Init(rx0) && frameSize > 0 && EndOf(start, fill0.Size(), frameSize) <= TWO_32
    ensures Start(FirstWorld(fill0, rx0, start, frameSize), start)
  {
    FillSpecStarts(fill0, start, frameSize);
  }

  method WriteAddresses(fr: Producer<nat>, index: Word, start: nat, frameSize: nat, ghost r: State<nat>)
    requires fr.Shows(r) && r.Size() > 0 && index == 0
    modifies fr.memory.slots
    ensures fr.Shows(FilledTo(r, start, frameSize, r.Size()))
  {
    var size, i := fr.memory.slots.Length, 0;
    while i < size
      invariant i <= size == r.Size()
      invariant fr.Shows(FilledTo(r, start, frameSize, i))
    {
      fr.Write(Wrap(index + i), (start + i) * frameSize, i, FilledTo(r, start, frameSize, i));
      i := i + 1;
    }
  }

  /** Puts every frame into the fill ring. */
  method Fill(fr: Producer<nat>, start: nat, frameSize: nat, ghost s: State<nat>) returns (ok: bool)
    requires fr.Shows(s) && Init(s)
    modifies fr, fr.memory, fr.memory.slots
    ensures ok && fr.Shows(FillSpec(s, start, frameSize))
  {
    var size := fr.memory.slots.Length;
    var index := fr.Reserve(size, s);
    assert index == Some(0) by { ReserveIffRoom(s, size); }
    if index.None? {
      return false;
    }
    ghost var r := Ring.Reserve(s, size);
    WriteAddresses(fr, index.value, start, frameSize, r);
    fr.Submit(size, FilledTo(r, start, frameSize, size));
    ok := true;
  }

  datatype Outcome = Nothing | Failed | Got(guard: Guard)

  class Receiver {
    const fr: Producer<nat>
    const rx: Consumer<nat>
    const batchSize: Word

    constructor (fr: Producer<nat>, rx: Consumer<nat>, start: nat, frameSize: nat, batchSize: Word,
                 ghost fill0: State<nat>, ghost rx0: State<nat>)
      requires fr.memory != rx.memory && fr.memory.slots != rx.memory.slots
      requires fr.Shows(fill0) && Init(fill0) && rx.Shows(rx0) && Init(rx0)
      requires frameSize > 0 && EndOf(start, fill0.Size(), frameSize) <= TWO_32
      modifies fr, fr.memory, fr.memory.slots
      ensures this.fr == fr && this.rx == rx && this.batchSize == batchSize
      ensures exists w :: Start(w, start) && Shows(fr, rx, w)
    {
      this.fr, this.rx, this.batchSize := fr, rx, batchSize;
      new;
      var ok := Fill(fr, start, frameSize, fill0);
      FirstWorldIsStart(fill0, rx0, start, frameSize);
      assert Shows(fr, rx, FirstWorld(fill0, rx0, start, frameSize));
    }

    /** Peeks a batch and reserves as many fill slots; whatever fails, the peek is undone. */
    method Receive(kickFails: bool, ghost w: World) returns (r: Outcome)
      requires Shows(fr, rx, w) && w.phase.Idle?
      modifies fr, rx
      ensures Shows(fr, rx, ReceiveSpec(w, batchSize, kickFails))
      ensures r.Got? <==> ReceiveSpec(w, batchSize, kickFails).phase.Batch?
      ensures r.Got? ==> ReceiveSpec(w, batchSize, kickFails).phase.guard == r.guard
      ensures r.Nothing? <==> PeekRxSpec(w, batchSize).phase.Idle?
    {
      var window := rx.Peek(batchSize, w.rx);
      if window.None? {
        return Nothing;
      }
      ghost var p := PeekRxSpec(w, batchSize);
      if kickFails {
        rx.Unpeek(window.value.entries, p.rx);
        return Failed;
      }
      var fillStart := fr.Reserve(window.value.entries, p.fill);
      if fillStart.None? {
        rx.Unpeek(window.value.entries, p.rx);
        return Failed;
      }
      r := Got(Guard(window.value.index, fillStart.value, window.value.entries, 0));
    }
  }

  /** Where in the frames area the packet of a descriptor starts. */
  function PacketStart(addr: nat): nat
  {
    addr / TWO_48 + Base(addr)
  }

  /** The offset bits are added to the address: that is where the packet starts ... */
  lemma PacketStartsAtOffset(base: nat, offset: nat)
    requires base < TWO_48
    ensures PacketStart(offset * TWO_48 + base) == base + offset
  {
    RemainderUnique(offset * TWO_48 + base, offset, base, TWO_48);
  }

  /** ... and it lies in the descriptor's frame exactly if the offset stays inside the frame. */
  lemma PacketIsInItsFrame(frameSize: nat, addr: nat)
    requires frameSize > 0
    ensures PacketStart(addr) / frameSize == Frame(frameSize, addr) <==> Base(addr) % frameSize + addr / TWO_48 < frameSize
  {
    InSameBlock(Base(addr), addr / TWO_48, frameSize);
  }

  lemma InSameBlock(a: nat, o: nat, n: nat)
    requires n > 0
    ensures (a + o) / n == a / n <==> a % n + o < n
  {
    var q, r := a / n, a % n;
    assert a == q * n + r;
    if r + o < n {
      RemainderUnique(a + o, q, r + o, n);
    }
  }

  /** Copying descriptor `i` is one read and one write. */
  lemma CopyOneIsWrite(w: World, g: Guard, i: Word, addr: nat)
    requires w.rx.Size() > 0 && w.fill.Size() > 0 && i < g.count && addr == w.rx.slots[SlotOf(w.rx.Size(), g.rxStart + i)]
    ensures var v := w.(phase := Batch(g.(cursor := i)));
      && addr == Upcoming(v)
      && CopyOneSpec(v).fill == Ring.Write(w.fill, g.fillStart + i, Base(addr)) && CopyOneSpec(v).rx == w.rx
  {
  }

  class BatchGuard {
    const fr: Producer<nat>
    const rx: Consumer<nat>
    var guard: Guard
    var filled: nat

    constructor (fr: Producer<nat>, rx: Consumer<nat>, guard: Guard, filled: nat)
      ensures this.fr == fr && this.rx == rx && this.guard == guard && this.filled == filled
    {
      this.fr, this.rx, this.guard, this.filled := fr, rx, guard, filled;
    }

    /** The guard stands for the batch of `w`. */
    ghost predicate Guards(w: World)
      reads this, fr, fr.memory, fr.memory.slots, rx, rx.memory, rx.memory.slots
    {
      Shows(fr, rx, w) && w.phase == Batch(guard) && w.rx.Size() > 0 && w.fill.Size() > 0
    }

    method ReadDescriptor(index: Word, ghost at: nat, ghost w: World) returns (addr: nat)
      requires Shows(fr, rx, w) && w.rx.Size() > 0 && index == Wrap(at)
      ensures addr == w.rx.slots[SlotOf(w.rx.Size(), at)]
    {
      addr := rx.Read(index, at, w.rx);
    }

    /** Writes one fill slot; the RX ring is not touched. */
    method Refill(index: Word, x: nat, ghost at: nat, ghost w: World, ghost fill: State<nat>)
      requires Shows(fr, rx, w) && w.fill.Size() > 0 && index == Wrap(at) && fill == Ring.Write(w.fill, at, x)
      modifies fr.memory.slots
      ensures fr.memory != rx.memory && fr.memory.slots != rx.memory.slots && fr.Shows(fill) && rx.Shows(w.rx)
    {
      fr.Write(index, x, at, w.fill);
    }

    /** The address in descriptor `i` of the batch goes into fill slot `i`. */
    method Recycle(i: Word, ghost w: World) returns (addr: nat)
      requires Guards(w) && i < guard.count
      modifies fr.memory.slots
      ensures addr == Upcoming(w.(phase := Batch(guard.(cursor := i))))
      ensures Shows(fr, rx, CopyOneSpec(w.(phase := Batch(guard.(cursor := i)))))
    {
      ghost var v := w.(phase := Batch(guard.(cursor := i)));
      addr := ReadDescriptor(Wrap(guard.rxStart + i), guard.rxStart + i, w);
      CopyOneIsWrite(w, guard, i, addr);
      Refill(Wrap(guard.fillStart + i), Base(addr), guard.fillStart + i, w, CopyOneSpec(v).fill);
    }

    method Next(ghost w: World) returns (packet: Option<nat>)
      requires Guards(w)
      modifies this`guard, fr.memory.slots
      ensures packet == if w.phase.guard.cursor < w.phase.guard.count then Some(PacketStart(Upcoming(w))) else None
      ensures Guards(if packet.Some? then CopyOneSpec(w) else w)
    {
      if guard.cursor >= guard.count {
        return None;
      }
      var addr := Recycle(guard.cursor, w);
      guard := guard.(cursor := guard.cursor + 1);
      packet := Some(PacketStart(addr));
    }

    /** Copies what iteration has not. */
    method CopyBack(ghost w: World)
      requires Guards(w)
      modifies fr.memory.slots
      ensures Shows(fr, rx, CopyRest(w))
    {
      ghost var v := w;
      var i := guard.cursor;
      while i < guard.count
        invariant i < TWO_32 && v.phase == Batch(guard.(cursor := i))
        invariant v.rx.Size() == w.rx.Size() && v.fill.Size() == w.fill.Size()
        invariant CopyRest(v) == CopyRest(w)
        invariant Shows(fr, rx, v)
      {
        var _ := Recycle(i, v.(phase := Batch(guard)));
        v := CopyOneSpec(v);
        i := i + 1;
      }
    }

    /** Copies the rest, releases the descriptors and submits the frames. */
    method Drop(ghost w: World)
      requires Guards(w)
      modifies this`filled, fr.memory.slots, fr.memory, rx.memory
      ensures Shows(fr, rx, DropSpec(w)) && filled == old(filled) + guard.cursor
    {
      CopyBack(w);
      ghost var v := CopyRest(w);
      rx.Release(guard.count, v.rx);
      fr.Submit(guard.count, v.fill);
      filled := filled + guard.cursor;
    }
  }
}
