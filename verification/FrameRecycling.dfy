/**
 Recycling of receive frames: the fill ring hands frames to the kernel, the RX ring hands them back
 filled, and a batch guard returns them to the fill ring. The kernel is the other party of both rings;
 it may publish what it has taken from the fill ring as late as it likes. A descriptor is given by its
 address: where in the frame the packet starts is kept in the bits above the 48th.
 */
module FrameRecycling {
  import opened Modular
  import opened Ring
  import opened Wrappers

  const TWO_48: nat := 0x1_0000_0000_0000

  /** The address without the offset bits. */
  function Base(addr: nat): (base: nat)
  {
    addr % TWO_48
  }

  /** The frame an address lies in. */
  function Frame(frameSize: nat, addr: nat): nat
    requires frameSize > 0
  {
    Base(addr) / frameSize
  }

  datatype Guard = Guard(rxStart: Word, fillStart: Word, count: Word, cursor: Word)

  /** How far a call of `receive` and the life of its batch have come. */
  datatype Phase = Idle | Peeked(window: Window) | Batch(guard: Guard) | Released(guard: Guard)

  datatype World = World(
    frameSize: nat,
    fill: State<nat>,
    rx: State<nat>,
    held: multiset<nat>,   // frames in the kernel
    phase: Phase,
    frames: set<nat>)      // all frames of this receiver

  datatype Step =
    | PeekRx(batch: Word) | KickFails | ReserveFill | CopyOne | ReleaseRx | SubmitFill
    | KernelTakes(batch: Word) | KernelPublishes(n: Word) | KernelDelivers(addr: nat)

  // ---------------------------------------------------------------- steps

  function PeekRxSpec(w: World, batch: Word): World
  {
    var window := PeekSpec(w.rx.c, w.rx.prod, batch).1;
    w.(rx := Peek(w.rx, batch), phase := if window.Some? then Peeked(window.value) else Idle)
  }

  function GiveUp(w: World): World
    requires w.phase.Peeked? && w.phase.window.entries <= w.rx.peeked
  {
    w.(rx := Unpeek(w.rx, w.phase.window.entries), phase := Idle)
  }

  function ReserveFillSpec(w: World): World
    requires w.phase.Peeked? && w.phase.window.entries <= w.rx.peeked && w.fill.Size() < TWO_32
  {
    var window := w.phase.window;
    var w' := w.(fill := Reserve(w.fill, window.entries));
    match ReserveSpec(w.fill.p, w.fill.cons, w.fill.Size(), window.entries).1
    case None => GiveUp(w')
    case Some(index) => w'.(phase := Batch(Guard(window.index, index, window.entries, 0)))
  }

  /** The descriptor at the cursor, as it is read from its slot. */
  function Upcoming(w: World): nat
    requires w.phase.Batch? && w.rx.Size() > 0
  {
    w.rx.slots[SlotOf(w.rx.Size(), w.phase.guard.rxStart + w.phase.guard.cursor)]
  }

  /** One descriptor's frame goes into the next fill slot; iterating and dropping both do this. */
  function CopyOneSpec(w: World): World
    requires w.phase.Batch? && w.rx.Size() > 0 && w.fill.Size() > 0 && w.phase.guard.cursor < w.phase.guard.count
  {
    var g := w.phase.guard;
    w.(fill := Write(w.fill, g.fillStart + g.cursor, Base(Upcoming(w))), phase := Batch(g.(cursor := g.cursor + 1)))
  }

  function AfterRelease(w: World): World
    requires w.phase.Batch? && w.rx.Size() > 0
  {
    w.(rx := Release(w.rx, w.phase.guard.count), phase := Released(w.phase.guard))
  }

  function AfterSubmit(w: World): World
    requires w.phase.Released? && w.fill.Size() > 0
  {
    w.(fill := Submit(w.fill, w.phase.guard.count), phase := Idle)
  }

  ghost predicate Enabled(w: World, step: Step)
  {
    match step
    case PeekRx(_) => w.phase.Idle?
    case KickFails => w.phase.Peeked? && w.phase.window.entries <= w.rx.peeked
    case ReserveFill => w.phase.Peeked? && w.phase.window.entries <= w.rx.peeked && w.fill.Size() < TWO_32
    case CopyOne =>
      w.phase.Batch? && w.rx.Size() > 0 && w.fill.Size() > 0 && w.phase.guard.cursor < w.phase.guard.count
    case ReleaseRx => w.phase.Batch? && w.phase.guard.cursor == w.phase.guard.count && w.rx.Size() > 0
    case SubmitFill => w.phase.Released? && w.fill.Size() > 0
    case KernelTakes(_) => w.fill.peeked <= |w.fill.log|
    case KernelPublishes(n) => w.fill.released + n <= w.fill.peeked && w.fill.Size() > 0
    case KernelDelivers(addr) =>
      && w.frameSize > 0 && Sized(w.rx.Size()) && Frame(w.frameSize, addr) in w.held
      && ReserveSpec(w.rx.p, w.rx.cons, w.rx.Size(), 1).1.Some?
  }

  /** The kernel's side of a delivery: a slot reserved, written and submitted. */
  function Deliver(rx: State<nat>, addr: nat): State<nat>
    requires 0 < rx.Size() < TWO_32
  {
    Submit(Write(Reserve(rx, 1), rx.reserved, addr), 1)
  }

  ghost function Apply(w: World, step: Step): World
    requires w.frameSize > 0 && Enabled(w, step)
  {
    match step
    case PeekRx(batch) => PeekRxSpec(w, batch)
    case KickFails => GiveUp(w)
    case ReserveFill => ReserveFillSpec(w)
    case CopyOne => CopyOneSpec(w)
    case ReleaseRx => AfterRelease(w)
    case SubmitFill => AfterSubmit(w)
    case KernelTakes(batch) =>
      var fill := Peek(w.fill, batch);
      w.(fill := fill, held := w.held + Frames(w.frameSize, Taken(w.fill, fill)))
    case KernelPublishes(n) => w.(fill := Release(w.fill, n))
    case KernelDelivers(addr) =>
      w.(rx := Deliver(w.rx, addr), held := w.held - multiset{Frame(w.frameSize, addr)})
  }

  /** What a consumer that went from `a` to `b` has peeked. */
  ghost function Taken(a: State<nat>, b: State<nat>): seq<nat>
  {
    if a.peeked <= b.peeked <= |a.log| then a.log[a.peeked..b.peeked] else []
  }

  // ---------------------------------------------------------------- where the frames are

  ghost function FrameSeq(frameSize: nat, addrs: seq<nat>): (frames: seq<nat>)
    requires frameSize > 0
    ensures |frames| == |addrs|
  {
    seq(|addrs|, i requires 0 <= i < |addrs| => Frame(frameSize, addrs[i]))
  }

  ghost function Frames(frameSize: nat, addrs: seq<nat>): (frames: multiset<nat>)
    requires frameSize > 0
    ensures |frames| == |addrs|
  {
    multiset(FrameSeq(frameSize, addrs))
  }

  lemma FramesConcat(frameSize: nat, a: seq<nat>, b: seq<nat>)
    requires frameSize > 0
    ensures Frames(frameSize, a + b) == Frames(frameSize, a) + Frames(frameSize, b)
  {
    assert FrameSeq(frameSize, a + b) == FrameSeq(frameSize, a) + FrameSeq(frameSize, b);
  }

  /** A stretch of addresses cut in two. */
  lemma FramesSplit(frameSize: nat, s: seq<nat>, i: nat, j: nat, k: nat)
    requires frameSize > 0 && i <= j <= k <= |s|
    ensures Frames(frameSize, s[i..k]) == Frames(frameSize, s[i..j]) + Frames(frameSize, s[j..k])
  {
    assert s[i..k] == s[i..j] + s[j..k];
    FramesConcat(frameSize, s[i..j], s[j..k]);
  }

  ghost predicate InBounds(w: World)
  {
    && w.frameSize > 0 && w.fill.Size() > 0
    && w.fill.peeked <= |w.fill.log|
    && w.rx.released <= w.rx.peeked <= |w.rx.log|
  }

  ghost function InFillRing(w: World): multiset<nat>
    requires InBounds(w)
  {
    Frames(w.frameSize, w.fill.log[w.fill.peeked..|w.fill.log|])
  }

  ghost function InRxRing(w: World): multiset<nat>
    requires InBounds(w)
  {
    Frames(w.frameSize, w.rx.log[w.rx.peeked..|w.rx.log|])
  }

  /** Peeked descriptors; once they are released, what has been written for the fill ring. */
  ghost function InGuard(w: World): multiset<nat>
    requires InBounds(w)
  {
    if w.phase.Released? then Frames(w.frameSize, Stretch(w.fill.slots, |w.fill.log|, w.phase.guard.count))
    else Frames(w.frameSize, w.rx.log[w.rx.released..w.rx.peeked])
  }

  /** Every frame is in exactly one place. */
  ghost predicate Conserved(w: World)
    requires InBounds(w)
  {
    InFillRing(w) + w.held + InRxRing(w) + InGuard(w) == multiset(w.frames)
  }

  /** The `k`-th fill slot from `to` on holds the frame of the `k`-th descriptor from `from` on. */
  ghost predicate SameFrame(frameSize: nat, slots: seq<nat>, to: nat, log: seq<nat>, from: nat, k: nat)
    requires frameSize > 0 && |slots| > 0
  {
    from + k < |log| && Frame(frameSize, slots[SlotOf(|slots|, to + k)]) == Frame(frameSize, log[from + k])
  }

  /** The fill slots written so far hold the frames of the descriptors they were written for. */
  ghost predicate Copied(frameSize: nat, slots: seq<nat>, to: nat, log: seq<nat>, from: nat, n: nat)
    requires frameSize > 0 && |slots| > 0
  {
    forall k :: 0 <= k < n ==> SameFrame(frameSize, slots, to, log, from, k)
  }

  ghost predicate PhaseOk(w: World)
    requires InBounds(w)
  {
    match w.phase
    case Idle => w.fill.reserved == |w.fill.log| && w.rx.released == w.rx.peeked
    case Peeked(window) =>
      && w.fill.reserved == |w.fill.log|
      && window.index == Wrap(w.rx.released) && w.rx.peeked == w.rx.released + window.entries && window.entries > 0
    case Batch(g) =>
      && g.rxStart == Wrap(w.rx.released) && g.fillStart == Wrap(|w.fill.log|) && g.cursor <= g.count
      && w.rx.peeked == w.rx.released + g.count && w.fill.reserved == |w.fill.log| + g.count
      && Copied(w.frameSize, w.fill.slots, |w.fill.log|, w.rx.log, w.rx.released, g.cursor)
    case Released(g) => w.fill.reserved == |w.fill.log| + g.count && w.rx.released == w.rx.peeked
  }

  ghost predicate Inv(w: World)
  {
    && w.frameSize > 0 && Ring.Inv(w.fill) && Ring.Inv(w.rx) && |w.frames| == w.fill.Size()
    && |w.rx.log| == w.rx.reserved
    && PhaseOk(w) && Conserved(w)
  }

  // ---------------------------------------------------------------- every step keeps them there

  lemma PeekKeepsInv(w: World, batch: Word)
    requires Inv(w) && w.phase.Idle?
    ensures Inv(PeekRxSpec(w, batch))
  {
    PeekTakesWhatIsThere(w.rx, batch);
    var w' := PeekRxSpec(w, batch);
    FramesSplit(w.frameSize, w.rx.log, w.rx.peeked, w'.rx.peeked, |w.rx.log|);
    assert InGuard(w) == multiset{};
    assert InRxRing(w) == InGuard(w') + InRxRing(w');
  }

  lemma GiveUpKeepsInv(w: World)
    requires Inv(w) && w.phase.Peeked?
    ensures Inv(GiveUp(w))
  {
    UnpeekKeepsInv(w.rx, w.phase.window.entries);
    var w' := GiveUp(w);
    FramesSplit(w.frameSize, w.rx.log, w.rx.released, w.rx.peeked, |w.rx.log|);
    assert InGuard(w') == multiset{};
    assert InRxRing(w') == InGuard(w) + InRxRing(w);
  }

  lemma ReserveKeepsInv(w: World)
    requires Inv(w) && w.phase.Peeked?
    ensures Inv(ReserveFillSpec(w))
  {
    ReserveIffRoom(w.fill, w.phase.window.entries);
    var reserved := w.(fill := Reserve(w.fill, w.phase.window.entries));
    if ReserveSpec(w.fill.p, w.fill.cons, w.fill.Size(), w.phase.window.entries).1.None? {
      GiveUpKeepsInv(reserved);
    }
  }

  /** A slot found from a wrapped start. */
  lemma SlotFrom(size: nat, start: nat, k: nat)
    requires size > 0
    ensures SlotOf(size, Wrap(start) + k) == SlotOf(size, start + k)
  {
    WrapSum(start, k);
  }

  /** Reading the `k`-th peeked slot gives the `k`-th peeked descriptor. */
  lemma ReadsPeeked(rx: State<nat>, k: nat)
    requires Ring.Inv(rx) && rx.released + k < rx.peeked
    ensures rx.slots[SlotOf(rx.Size(), rx.released + k)] == rx.log[rx.released + k]
  {
  }

  lemma ReadsFrom(rx: State<nat>, start: Word, k: nat)
    requires Ring.Inv(rx) && rx.released + k < rx.peeked && start == Wrap(rx.released)
    ensures rx.slots[SlotOf(rx.Size(), start + k)] == rx.log[rx.released + k]
  {
    ReadsPeeked(rx, k);
    SlotFrom(rx.Size(), rx.released, k);
  }

  /** Iteration hands out the peeked descriptors in the order in which the kernel submitted them. */
  lemma UpcomingIsNext(w: World)
    requires Inv(w) && w.phase.Batch? && w.phase.guard.cursor < w.phase.guard.count
    ensures Upcoming(w) == w.rx.log[w.rx.released + w.phase.guard.cursor]
  {
    ReadsFrom(w.rx, w.phase.guard.rxStart, w.phase.guard.cursor);
  }

  lemma SlotIs(size: nat, start: Word, count: nat, k: nat)
    requires size > 0 && start == Wrap(count)
    ensures SlotOf(size, start + k) == SlotOf(size, count + k)
  {
    SlotFrom(size, count, k);
  }

  lemma SameWrite(s: State<nat>, start: Word, count: nat, k: nat, x: nat)
    requires s.Size() > 0 && start == Wrap(count)
    ensures Write(s, start + k, x) == Write(s, count + k, x)
  {
    SlotIs(s.Size(), start, count, k);
  }

  /** The copied address goes into the right slot. */
  lemma CopyIsWrite(w: World, x: nat)
    requires w.rx.Size() > 0 && w.fill.Size() > 0 && w.phase.Batch? && w.phase.guard.cursor < w.phase.guard.count
    requires w.phase.guard.fillStart == Wrap(|w.fill.log|) && Upcoming(w) == x
    ensures CopyOneSpec(w).fill == Write(w.fill, |w.fill.log| + w.phase.guard.cursor, Base(x))
  {
    SameWrite(w.fill, w.phase.guard.fillStart, |w.fill.log|, w.phase.guard.cursor, Base(x));
  }

  /** One more slot written leaves the earlier ones alone. */
  lemma OneMoreCopied(frameSize: nat, slots: seq<nat>, to: nat, log: seq<nat>, from: nat, n: nat)
    requires frameSize > 0 && Sized(|slots|) && n < |slots| && from + n < |log|
    requires Copied(frameSize, slots, to, log, from, n)
    ensures Copied(frameSize, slots[SlotOf(|slots|, to + n) := Base(log[from + n])], to, log, from, n + 1)
  {
    var slots' := slots[SlotOf(|slots|, to + n) := Base(log[from + n])];
    forall k | 0 <= k < n + 1 ensures SameFrame(frameSize, slots', to, log, from, k) {
      if k < n {
        assert SameFrame(frameSize, slots, to, log, from, k);
        SlotsDiffer(|slots|, to + k, to + n);
      }
    }
  }

  lemma CopyKeepsPhase(w: World)
    requires InBounds(w) && PhaseOk(w) && w.phase.Batch? && w.phase.guard.cursor < w.phase.guard.count
    requires Sized(w.fill.Size()) && w.phase.guard.count <= w.fill.Size() && w.rx.Size() > 0
    requires CopyOneSpec(w).fill
          == Write(w.fill, |w.fill.log| + w.phase.guard.cursor, Base(w.rx.log[w.rx.released + w.phase.guard.cursor]))
    ensures PhaseOk(CopyOneSpec(w))
  {
    OneMoreCopied(w.frameSize, w.fill.slots, |w.fill.log|, w.rx.log, w.rx.released, w.phase.guard.cursor);
  }

  /** Writing ahead of the log moves no frame. */
  lemma SamePlaces(w: World, w': World)
    requires InBounds(w) && Conserved(w) && w.phase.Batch? && w'.phase.Batch? && w'.fill.Size() > 0
    requires w' == w.(fill := w'.fill, phase := w'.phase) && w'.fill.log == w.fill.log && w'.fill.peeked == w.fill.peeked
    ensures InBounds(w') && Conserved(w')
  {
    assert InFillRing(w') == InFillRing(w) && InGuard(w') == InGuard(w) && InRxRing(w') == InRxRing(w);
  }

  lemma CopyFillIs(w: World)
    requires Inv(w) && w.phase.Batch? && w.phase.guard.cursor < w.phase.guard.count
    ensures w.rx.released + w.phase.guard.cursor < |w.rx.log|
    ensures CopyOneSpec(w).fill
         == Write(w.fill, |w.fill.log| + w.phase.guard.cursor, Base(w.rx.log[w.rx.released + w.phase.guard.cursor]))
  {
    UpcomingIsNext(w);
    CopyIsWrite(w, w.rx.log[w.rx.released + w.phase.guard.cursor]);
  }

  lemma WrittenRing(s: State<nat>, i: nat, x: nat, s': State<nat>)
    requires Ring.Inv(s) && |s.log| <= i < s.reserved && s' == Write(s, i, x)
    ensures Ring.Inv(s') && s'.Size() == s.Size() && s'.log == s.log && s'.peeked == s.peeked
  {
    WriteKeepsInv(s, i, x);
  }

  lemma CopyKeepsFill(w: World)
    requires Inv(w) && w.phase.Batch? && w.phase.guard.cursor < w.phase.guard.count
    ensures var fill := CopyOneSpec(w).fill;
      Ring.Inv(fill) && fill.Size() == w.fill.Size() && fill.log == w.fill.log && fill.peeked == w.fill.peeked
  {
    CopyFillIs(w);
    var n := w.phase.guard.cursor;
    WrittenRing(w.fill, |w.fill.log| + n, Base(w.rx.log[w.rx.released + n]), CopyOneSpec(w).fill);
  }

  lemma CopyKeepsInv(w: World)
    requires Inv(w) && w.phase.Batch? && w.phase.guard.cursor < w.phase.guard.count
    ensures Inv(CopyOneSpec(w))
  {
    CopyFillIs(w);
    CopyKeepsPhase(w);
    CopyKeepsFill(w);
    SamePlaces(w, CopyOneSpec(w));
  }

  /** What is written for the fill ring has the frames of what was peeked. */
  lemma CopiedFrames(frameSize: nat, slots: seq<nat>, to: nat, log: seq<nat>, from: nat, n: nat)
    requires frameSize > 0 && |slots| > 0 && from + n <= |log|
    requires Copied(frameSize, slots, to, log, from, n)
    ensures Frames(frameSize, Stretch(slots, to, n)) == Frames(frameSize, log[from..from + n])
  {
    var written, peeked := Stretch(slots, to, n), log[from..from + n];
    forall k | 0 <= k < n ensures Frame(frameSize, written[k]) == Frame(frameSize, peeked[k]) {
      assert SameFrame(frameSize, slots, to, log, from, k);
    }
    assert FrameSeq(frameSize, written) == FrameSeq(frameSize, peeked);
  }

  lemma ReleaseKeepsFrames(w: World)
    requires InBounds(w) && PhaseOk(w) && w.phase.Batch? && w.phase.guard.cursor == w.phase.guard.count
    ensures Frames(w.frameSize, Stretch(w.fill.slots, |w.fill.log|, w.phase.guard.count)) == InGuard(w)
  {
    CopiedFrames(w.frameSize, w.fill.slots, |w.fill.log|, w.rx.log, w.rx.released, w.phase.guard.count);
  }

  lemma ReleaseKeepsInv(w: World)
    requires Inv(w) && w.phase.Batch? && w.phase.guard.cursor == w.phase.guard.count
    ensures Inv(AfterRelease(w))
    ensures InGuard(AfterRelease(w)) == InGuard(w)
  {
    ReleaseKeepsFrames(w);
    Ring.ReleaseKeepsInv(w.rx, w.phase.guard.count);
    assert InGuard(AfterRelease(w)) == InGuard(w);
  }

  lemma FramesAppended(frameSize: nat, log: seq<nat>, more: seq<nat>, from: nat)
    requires frameSize > 0 && from <= |log|
    ensures Frames(frameSize, (log + more)[from..|log + more|]) == Frames(frameSize, log[from..|log|]) + Frames(frameSize, more)
  {
    var log' := log + more;
    FramesSplit(frameSize, log', from, |log|, |log'|);
    assert log'[from..|log|] == log[from..|log|] && log'[|log|..|log'|] == more;
  }

  lemma SubmitKeepsInv(w: World)
    requires Inv(w) && w.phase.Released?
    ensures Inv(AfterSubmit(w))
    ensures InFillRing(AfterSubmit(w)) == InFillRing(w) + InGuard(w)
  {
    var n := w.phase.guard.count;
    Ring.SubmitKeepsInv(w.fill, n);
    var w' := AfterSubmit(w);
    FramesAppended(w.frameSize, w.fill.log, Stretch(w.fill.slots, |w.fill.log|, n), w.fill.peeked);
    assert InGuard(w') == multiset{};
    assert InFillRing(w') == InFillRing(w) + InGuard(w);
  }

  lemma TakeKeepsInv(w: World, batch: Word)
    requires Inv(w)
    ensures Inv(Apply(w, KernelTakes(batch)))
  {
    PeekTakesWhatIsThere(w.fill, batch);
    var w' := Apply(w, KernelTakes(batch));
    FramesSplit(w.frameSize, w.fill.log, w.fill.peeked, w'.fill.peeked, |w.fill.log|);
    assert InFillRing(w) + w.held == InFillRing(w') + w'.held;
  }

  lemma PublishKeepsInv(w: World, n: Word)
    requires Inv(w) && w.fill.released + n <= w.fill.peeked
    ensures Inv(Apply(w, KernelPublishes(n)))
  {
    Ring.ReleaseKeepsInv(w.fill, n);
    var w' := Apply(w, KernelPublishes(n));
    assert InFillRing(w') == InFillRing(w) && InGuard(w') == InGuard(w);
  }

  lemma DeliverAppends(rx: State<nat>, addr: nat)
    requires Ring.Inv(rx) && |rx.log| == rx.reserved && ReserveSpec(rx.p, rx.cons, rx.Size(), 1).1.Some?
    ensures var rx' := Deliver(rx, addr);
      && Ring.Inv(rx') && rx'.log == rx.log + [addr] && |rx'.log| == rx'.reserved
      && rx'.peeked == rx.peeked && rx'.released == rx.released
  {
    ReserveIffRoom(rx, 1);
    var a := Reserve(rx, 1);
    WriteKeepsInv(a, rx.reserved, addr);
    var b := Write(a, rx.reserved, addr);
    Ring.SubmitKeepsInv(b, 1);
    assert Stretch(b.slots, |b.log|, 1) == [addr];
  }

  lemma CopiedInMore(frameSize: nat, slots: seq<nat>, to: nat, log: seq<nat>, from: nat, addr: nat)
    requires frameSize > 0 && |slots| > 0
    ensures forall n :: Copied(frameSize, slots, to, log, from, n) ==> Copied(frameSize, slots, to, log + [addr], from, n)
  {
    assert forall k :: SameFrame(frameSize, slots, to, log, from, k) ==> SameFrame(frameSize, slots, to, log + [addr], from, k);
  }

  lemma OneMoreFrame(frameSize: nat, log: seq<nat>, from: nat, addr: nat)
    requires frameSize > 0 && from <= |log|
    ensures Frames(frameSize, (log + [addr])[from..|log| + 1])
         == Frames(frameSize, log[from..|log|]) + multiset{Frame(frameSize, addr)}
  {
    assert (log + [addr])[from..|log| + 1] == log[from..|log|] + [addr];
    FramesConcat(frameSize, log[from..|log|], [addr]);
    assert FrameSeq(frameSize, [addr]) == [Frame(frameSize, addr)];
  }

  lemma FrameMoves(fill: multiset<nat>, held: multiset<nat>, rx: multiset<nat>, guard: multiset<nat>, frame: nat)
    requires frame in held
    ensures fill + (held - multiset{frame}) + (rx + multiset{frame}) + guard == fill + held + rx + guard
  {
  }

  lemma DeliverKeepsPhase(w: World, addr: nat)
    requires Inv(w) && Enabled(w, KernelDelivers(addr))
    ensures Ring.Inv(Deliver(w.rx, addr)) && PhaseOk(Apply(w, KernelDelivers(addr)))
    ensures InGuard(Apply(w, KernelDelivers(addr))) == InGuard(w)
  {
    DeliverAppends(w.rx, addr);
    CopiedInMore(w.frameSize, w.fill.slots, |w.fill.log|, w.rx.log, w.rx.released, addr);
    assert (w.rx.log + [addr])[w.rx.released..w.rx.peeked] == w.rx.log[w.rx.released..w.rx.peeked];
  }

  lemma DeliverConserves(w: World, w': World, addr: nat)
    requires InBounds(w) && InBounds(w') && Conserved(w) && Frame(w.frameSize, addr) in w.held
    requires w' == w.(rx := w'.rx, held := w.held - multiset{Frame(w.frameSize, addr)})
    requires w'.rx.log == w.rx.log + [addr] && w'.rx.peeked == w.rx.peeked && InGuard(w') == InGuard(w)
    ensures Conserved(w')
  {
    OneMoreFrame(w.frameSize, w.rx.log, w.rx.peeked, addr);
    FrameMoves(InFillRing(w), w.held, InRxRing(w), InGuard(w), Frame(w.frameSize, addr));
  }

  lemma DeliverKeepsInv(w: World, addr: nat)
    requires Inv(w) && Enabled(w, KernelDelivers(addr))
    ensures Inv(Apply(w, KernelDelivers(addr)))
  {
    DeliverKeepsPhase(w, addr);
    DeliverAppends(w.rx, addr);
    DeliverConserves(w, Apply(w, KernelDelivers(addr)), addr);
  }

  lemma StepKeepsInv(w: World, step: Step)
    requires Inv(w) && Enabled(w, step)
    ensures Inv(Apply(w, step))
  {
    match step
    case PeekRx(batch) => PeekKeepsInv(w, batch);
    case KickFails => GiveUpKeepsInv(w);
    case ReserveFill => ReserveKeepsInv(w);
    case CopyOne => CopyKeepsInv(w);
    case ReleaseRx => ReleaseKeepsInv(w);
    case SubmitFill => SubmitKeepsInv(w);
    case KernelTakes(batch) => TakeKeepsInv(w, batch);
    case KernelPublishes(n) => PublishKeepsInv(w, n);
    case KernelDelivers(addr) => DeliverKeepsInv(w, addr);
  }

  // ---------------------------------------------------------------- runs

  /** The addresses a new receiver puts into the fill ring. */
  function Addresses(start: nat, size: nat, frameSize: nat): (addrs: seq<nat>)
    ensures |addrs| == size
  {
    seq(size, i => (start + i) * frameSize)
  }

  /** The frames `start..start + size`. */
  ghost function FrameRange(start: nat, size: nat): (frames: set<nat>)
    ensures |frames| == size && forall f :: f in frames <==> start <= f < start + size
  {
    if size == 0 then {} else FrameRange(start, size - 1) + {start + size - 1}
  }

  /** The first address behind `size` frames from frame `start` on. */
  function EndOf(start: nat, size: nat, frameSize: nat): nat
  {
    (start + size) * frameSize
  }

  /** A new receiver: all its frames are in the fill ring, and they lie within the 32 bits their addresses are computed in. */
  ghost predicate Start(w: World, start: nat)
  {
    && w.frameSize > 0 && EndOf(start, w.fill.Size(), w.frameSize) <= TWO_32
    && Ring.Inv(w.fill) && w.fill.log == Addresses(start, w.fill.Size(), w.frameSize)
    && w.fill.reserved == |w.fill.log| && w.fill.peeked == 0
    && Init(w.rx) && w.held == multiset{} && w.phase.Idle? && w.frames == FrameRange(start, w.fill.Size())
  }

  ghost function Numbers(start: nat, n: nat): (numbers: seq<nat>)
    ensures |numbers| == n
  {
    seq(n, i => start + i)
  }

  lemma OneMoreNumber(start: nat, n: nat, f: nat)
    requires f == start + n
    ensures multiset(Numbers(start, n + 1)) == multiset(Numbers(start, n)) + multiset{f}
  {
    assert Numbers(start, n + 1) == Numbers(start, n) + [f];
  }

  lemma OneMoreInRange(start: nat, n: nat, f: nat)
    requires f == start + n
    ensures multiset(FrameRange(start, n + 1)) == multiset(FrameRange(start, n)) + multiset{f}
  {
    assert FrameRange(start, n + 1) == FrameRange(start, n) + {f};
  }

  lemma {:induction false} RangeOnce(start: nat, n: nat)
    ensures multiset(Numbers(start, n)) == multiset(FrameRange(start, n))
  {
    if n > 0 {
      RangeOnce(start, n - 1);
      OneMoreNumber(start, n - 1, start + (n - 1));
      OneMoreInRange(start, n - 1, start + (n - 1));
    }
  }

  lemma FrameOfAddress(f: nat, frameSize: nat)
    requires frameSize > 0 && f * frameSize < TWO_48
    ensures Frame(frameSize, f * frameSize) == f
  {
    RemainderUnique(f * frameSize, f, 0, frameSize);
  }

  lemma InRange(f: nat, end: nat, frameSize: nat)
    requires f < end && end * frameSize <= TWO_32
    ensures f * frameSize < TWO_48
  {
    assert f * frameSize <= end * frameSize;
  }

  /** A new receiver's addresses are one of each of its frames. */
  lemma AddressesAreFrames(start: nat, size: nat, frameSize: nat)
    requires frameSize > 0 && EndOf(start, size, frameSize) <= TWO_32
    ensures Frames(frameSize, Addresses(start, size, frameSize)) == multiset(FrameRange(start, size))
  {
    var addrs := Addresses(start, size, frameSize);
    forall i | 0 <= i < size ensures Frame(frameSize, addrs[i]) == start + i {
      InRange(start + i, start + size, frameSize);
      FrameOfAddress(start + i, frameSize);
    }
    assert FrameSeq(frameSize, addrs) == Numbers(start, size);
    RangeOnce(start, size);
  }

  lemma NoFrames(frameSize: nat, addrs: seq<nat>)
    requires frameSize > 0 && addrs == []
    ensures Frames(frameSize, addrs) == multiset{}
  {
  }

  lemma StartFrames(w: World, start: nat)
    requires Start(w, start) && InBounds(w)
    ensures InFillRing(w) == multiset(w.frames) && InRxRing(w) == multiset{} && InGuard(w) == multiset{}
  {
    var addrs := w.fill.log;
    AddressesAreFrames(start, w.fill.Size(), w.frameSize);
    assert addrs[0..|addrs|] == addrs;
    NoFrames(w.frameSize, w.rx.log[w.rx.released..w.rx.peeked]);
    NoFrames(w.frameSize, w.rx.log[w.rx.peeked..|w.rx.log|]);
  }

  lemma OnlyThese(a: multiset<nat>)
    ensures a + multiset{} + multiset{} + multiset{} == a
  {
  }

  lemma StartConserves(w: World, start: nat)
    requires Start(w, start) && InBounds(w)
    ensures Conserved(w)
  {
    StartFrames(w, start);
    OnlyThese(multiset(w.frames));
  }

  lemma FreshRingIsInv(s: State<nat>)
    requires Init(s)
    ensures Ring.Inv(s) && |s.log| == s.reserved && s.released == s.peeked
  {
  }

  lemma StartIsInv(w: World, start: nat)
    requires Start(w, start)
    ensures Inv(w)
  {
    FreshRingIsInv(w.rx);
    StartConserves(w, start);
  }

  ghost predicate IsStep(w: World, step: Step, w': World)
  {
    w.frameSize > 0 && Enabled(w, step) && w' == Apply(w, step)
  }

  ghost predicate IsRun(worlds: seq<World>, steps: seq<Step>, start: nat)
  {
    && |worlds| == |steps| + 1 && Start(worlds[0], start)
    && forall i :: 0 <= i < |steps| ==> IsStep(worlds[i], steps[i], worlds[i + 1])
  }

  /** Three linked steps, whatever a step is. */
  lemma Linked<W, S>(link: (W, S, W) -> bool, w: W, w1: W, w2: W, w3: W, a: S, b: S, c: S)
    requires link(w, a, w1) && link(w1, b, w2) && link(w2, c, w3)
    ensures var ws, ss := [w, w1, w2, w3], [a, b, c];
      forall i :: 0 <= i < 3 ==> link(ws[i], ss[i], ws[i + 1])
  {
  }

  lemma ThreeSteps(w: World, w1: World, w2: World, w3: World, a: Step, b: Step, c: Step, start: nat)
    requires Start(w, start) && IsStep(w, a, w1) && IsStep(w1, b, w2) && IsStep(w2, c, w3)
    ensures IsRun([w, w1, w2, w3], [a, b, c], start)
  {
    Linked(IsStep, w, w1, w2, w3, a, b, c);
  }

  lemma StepKeeps(w: World, step: Step, w': World)
    requires Inv(w) && IsStep(w, step, w')
    ensures Inv(w') && w'.frames == w.frames && w'.fill.Size() == w.fill.Size()
  {
    StepKeepsInv(w, step);
    StepKeepsSize(w, step);
  }

  lemma StepKeepsSize(w: World, step: Step)
    requires w.frameSize > 0 && Enabled(w, step)
    ensures Apply(w, step).frames == w.frames && Apply(w, step).fill.Size() == w.fill.Size()
  {
  }

  lemma {:induction false} RunKeepsInv(worlds: seq<World>, steps: seq<Step>, start: nat, n: nat)
    requires IsRun(worlds, steps, start) && n < |worlds|
    ensures Inv(worlds[n]) && worlds[n].frames == worlds[0].frames && worlds[n].fill.Size() == worlds[0].fill.Size()
  {
    if n == 0 {
      StartIsInv(worlds[0], start);
    } else {
      RunKeepsInv(worlds, steps, start, n - 1);
      assert IsStep(worlds[n - 1], steps[n - 1], worlds[n]);
      StepKeeps(worlds[n - 1], steps[n - 1], worlds[n]);
    }
  }

  /**
   In every reachable state, whatever the kernel does and whichever calls fail: every frame is in exactly one of the
   fill ring, the kernel, the RX ring and the batch guard, and there is nothing else in any of them.
   */
  lemma EveryFrameIsInOnePlace(worlds: seq<World>, steps: seq<Step>, start: nat, n: nat, f: nat)
    requires IsRun(worlds, steps, start) && n < |worlds|
    ensures InBounds(worlds[n])
    ensures InFillRing(worlds[n])[f] + worlds[n].held[f] + InRxRing(worlds[n])[f] + InGuard(worlds[n])[f]
         == if start <= f < start + worlds[0].fill.Size() then 1 else 0
  {
    RunKeepsInv(worlds, steps, start, n);
    var w := worlds[n];
    assert (InFillRing(w) + w.held + InRxRing(w) + InGuard(w))[f] == multiset(w.frames)[f];
  }

  // ---------------------------------------------------------------- the fill ring has room

  /** What the kernel has taken from the fill ring and not yet said so. */
  function Lag(w: World): int
  {
    w.fill.peeked - w.fill.released
  }

  /** The frames the receiver can neither give back nor find in the fill ring: those in the kernel and in the RX ring. */
  function Elsewhere(w: World): int
  {
    |w.held| + |w.rx.log| - w.rx.peeked
  }

  /** "Reserving fill ring" fails exactly when the kernel hides more of what it took than it still has or has just delivered. */
  lemma ReservingFailsIffKernelLags(w: World)
    requires Inv(w) && w.phase.Peeked?
    ensures ReserveSpec(w.fill.p, w.fill.cons, w.fill.Size(), w.phase.window.entries).1.None? <==> Lag(w) > Elsewhere(w)
  {
    ReserveIffRoom(w.fill, w.phase.window.entries);
    assert |InFillRing(w) + w.held + InRxRing(w) + InGuard(w)| == |multiset(w.frames)| == w.fill.Size();
  }

  /** Each delivery happens while the kernel still holds a frame that it has said it took. */
  ghost predicate Publishes(worlds: seq<World>, steps: seq<Step>)
    requires |steps| < |worlds|
  {
    forall i :: 0 <= i < |steps| && steps[i].KernelDelivers? ==> Lag(worlds[i]) < |worlds[i].held|
  }

  lemma TakenIsHeld(w: World, batch: Word)
    requires w.frameSize > 0 && Ring.Inv(w.fill)
    ensures var w' := Apply(w, KernelTakes(batch)); Lag(w') - Lag(w) == |w'.held| - |w.held|
  {
    PeekTakesWhatIsThere(w.fill, batch);
  }

  /** What the kernel has not said it took, it still holds. */
  lemma LagStaysHeld(w: World, step: Step, w': World)
    requires Ring.Inv(w.fill) && IsStep(w, step, w') && Lag(w) <= |w.held|
    requires step.KernelDelivers? ==> Lag(w) < |w.held|
    ensures Lag(w') <= |w'.held|
  {
    if step.KernelTakes? {
      TakenIsHeld(w, step.batch);
    }
  }

  lemma NoLagAtStart(w: World, start: nat)
    requires Start(w, start)
    ensures Lag(w) <= |w.held|
  {
  }

  lemma RunKeepsFillInv(worlds: seq<World>, steps: seq<Step>, start: nat, n: nat)
    requires IsRun(worlds, steps, start) && n < |worlds|
    ensures Ring.Inv(worlds[n].fill)
  {
    RunKeepsInv(worlds, steps, start, n);
  }

  lemma {:induction false} RunKeepsLagHeld(worlds: seq<World>, steps: seq<Step>, start: nat, n: nat)
    requires IsRun(worlds, steps, start) && Publishes(worlds, steps) && n < |worlds|
    ensures Lag(worlds[n]) <= |worlds[n].held|
  {
    if n == 0 {
      NoLagAtStart(worlds[0], start);
    } else {
      var w, step := worlds[n - 1], steps[n - 1];
      RunKeepsLagHeld(worlds, steps, start, n - 1);
      RunKeepsFillInv(worlds, steps, start, n - 1);
      assert IsStep(w, step, worlds[n]);
      LagStaysHeld(w, step, worlds[n]);
    }
  }

  /**
   In every run with a kernel that says what it took before it delivers it, and whatever else it does, every reservation
   in the fill ring succeeds.
   */
  lemma PublishingKernelLeavesRoom(worlds: seq<World>, steps: seq<Step>, start: nat, n: nat)
    requires IsRun(worlds, steps, start) && Publishes(worlds, steps) && n < |steps| && steps[n].ReserveFill?
    ensures worlds[n + 1].phase.Batch?
  {
    RunKeepsInv(worlds, steps, start, n);
    RunKeepsLagHeld(worlds, steps, start, n);
    assert IsStep(worlds[n], steps[n], worlds[n + 1]);
    ReservingFailsIffKernelLags(worlds[n]);
    assert worlds[n].rx.peeked <= |worlds[n].rx.log|;
  }

  lemma FirstFrame(frameSize: nat, log: seq<nat>)
    requires frameSize > 0 && log != []
    ensures multiset{} + Frames(frameSize, log[0..1]) == multiset{Frame(frameSize, log[0])}
  {
    assert log[0..1] == [log[0]];
    assert FrameSeq(frameSize, [log[0]]) == [Frame(frameSize, log[0])];
  }

  lemma TakeOne(w: World, start: nat)
    requires Start(w, start)
    ensures var w' := Apply(w, KernelTakes(1));
      && Inv(w') && w' == w.(fill := w'.fill, held := multiset{Frame(w.frameSize, w.fill.log[0])})
      && Lag(w') == 1
  {
    StartIsInv(w, start);
    StepKeepsInv(w, KernelTakes(1));
    PeekTakesWhatIsThere(w.fill, 1);
    FirstFrame(w.frameSize, w.fill.log);
  }

  lemma DeliverOne(w: World, addr: nat)
    requires Inv(w) && Init(w.rx) && w.held == multiset{Frame(w.frameSize, addr)}
    ensures Enabled(w, KernelDelivers(addr))
    ensures var w' := Apply(w, KernelDelivers(addr));
      Inv(w') && w' == w.(rx := w'.rx, held := multiset{}) && w'.rx.log == [addr] && w'.rx.peeked == 0
  {
    ReserveIffRoom(w.rx, 1);
    StepKeepsInv(w, KernelDelivers(addr));
    DeliverAppends(w.rx, addr);
    assert w.held - multiset{Frame(w.frameSize, addr)} == multiset{};
  }

  lemma PeekOne(w: World)
    requires Inv(w) && w.phase.Idle? && |w.rx.log| == 1 && w.rx.peeked == 0 && w.held == multiset{} && Lag(w) == 1
    ensures var w' := Apply(w, PeekRx(1));
      && Inv(w') && w'.phase.Peeked? && w'.phase.window.entries == 1
      && ReserveSpec(w'.fill.p, w'.fill.cons, w'.fill.Size(), 1).1.None?
  {
    PeekTakesWhatIsThere(w.rx, 1);
    StepKeepsInv(w, PeekRx(1));
    ReservingFailsIffKernelLags(Apply(w, PeekRx(1)));
  }

  /**
   Such a state is reachable from every start: the kernel takes one frame, delivers it, and has not said that it took
   it when the receiver peeks.
   */
  lemma LaggingKernelFailsReserve(w0: World, start: nat) returns (worlds: seq<World>, steps: seq<Step>)
    requires Start(w0, start)
    ensures IsRun(worlds, steps, start) && worlds[0] == w0 && |steps| == 3
    ensures var w := worlds[3];
      && Inv(w) && w.phase.Peeked? && w.phase.window.entries == 1
      && ReserveSpec(w.fill.p, w.fill.cons, w.fill.Size(), 1).1.None?
  {
    var addr := w0.fill.log[0];
    TakeOne(w0, start);
    var w1 := Apply(w0, KernelTakes(1));
    DeliverOne(w1, addr);
    var w2 := Apply(w1, KernelDelivers(addr));
    PeekOne(w2);
    var w3 := Apply(w2, PeekRx(1));
    worlds, steps := [w0, w1, w2, w3], [KernelTakes(1), KernelDelivers(addr), PeekRx(1)];
    ThreeSteps(w0, w1, w2, w3, KernelTakes(1), KernelDelivers(addr), PeekRx(1), start);
  }

  // ---------------------------------------------------------------- whole calls

  /** A call of `receive` with nothing in between. */
  function ReceiveSpec(w: World, batch: Word, kickFails: bool): World
    requires w.fill.Size() < TWO_32
  {
    var p := PeekRxSpec(w, batch);
    if p.phase.Idle? then p else if kickFails then GiveUp(p) else ReserveFillSpec(p)
  }

  lemma GiveUpUndoesPeek(w: World, batch: Word)
    requires Inv(w) && w.phase.Idle? && PeekRxSpec(w, batch).phase.Peeked?
    ensures Inv(GiveUp(PeekRxSpec(w, batch))) && GiveUp(PeekRxSpec(w, batch)).rx.peeked == w.rx.peeked
  {
    PeekTakesWhatIsThere(w.rx, batch);
    PeekKeepsInv(w, batch);
    GiveUpKeepsInv(PeekRxSpec(w, batch));
  }

  /** Whatever fails, the peek is undone; otherwise the batch is as large as the RX ring and the batch size allow. */
  lemma ReceiveKeepsInv(w: World, batch: Word, kickFails: bool)
    requires Inv(w) && w.phase.Idle?
    ensures var w' := ReceiveSpec(w, batch, kickFails);
      && Inv(w')
      && (w'.phase.Idle? ==> w'.rx.peeked == w.rx.peeked)
      && (w'.phase.Batch? ==>
            w'.phase.guard.count == (if |w.rx.log| - w.rx.peeked < batch then |w.rx.log| - w.rx.peeked else batch) > 0)
  {
    PeekTakesWhatIsThere(w.rx, batch);
    PeekKeepsInv(w, batch);
    if PeekRxSpec(w, batch).phase.Peeked? {
      GiveUpUndoesPeek(w, batch);
      ReserveKeepsInv(PeekRxSpec(w, batch));
    }
  }

  /** The frames not yet copied back are copied when the guard is dropped. */
  function CopyRest(w: World): (w': World)
    requires w.phase.Batch? && w.rx.Size() > 0 && w.fill.Size() > 0
    ensures w'.phase.Batch? && w'.rx == w.rx && w'.fill.Size() == w.fill.Size()
    ensures w'.phase.guard.count == w.phase.guard.count
    decreases w.phase.guard.count - w.phase.guard.cursor
  {
    if w.phase.guard.cursor < w.phase.guard.count then CopyRest(CopyOneSpec(w)) else w
  }

  lemma {:induction false} CopyRestKeepsInv(w: World)
    requires Inv(w) && w.phase.Batch?
    ensures Inv(CopyRest(w)) && CopyRest(w).phase == Batch(w.phase.guard.(cursor := w.phase.guard.count))
    ensures CopyRest(w) == w.(fill := CopyRest(w).fill, phase := CopyRest(w).phase)
    ensures CopyRest(w).fill.log == w.fill.log
    ensures InGuard(CopyRest(w)) == InGuard(w) && InFillRing(CopyRest(w)) == InFillRing(w)
    decreases w.phase.guard.count - w.phase.guard.cursor
  {
    if w.phase.guard.cursor < w.phase.guard.count {
      CopyKeepsInv(w);
      CopyRestKeepsInv(CopyOneSpec(w));
    }
  }

  /** A dropped guard, however early, gives all its frames back to the fill ring. */
  lemma DropReturnsBatch(w: World)
    requires Inv(w) && w.phase.Batch?
    ensures Inv(DropSpec(w)) && DropSpec(w).phase.Idle?
    ensures InFillRing(DropSpec(w)) == InFillRing(w) + InGuard(w)
  {
    CopyRestKeepsInv(w);
    var copied := CopyRest(w);
    ReleaseKeepsInv(copied);
    SubmitKeepsInv(AfterRelease(copied));
    assert InFillRing(AfterRelease(copied)) == InFillRing(copied);
  }

  function DropSpec(w: World): World
    requires w.phase.Batch? && w.rx.Size() > 0 && w.fill.Size() > 0
  {
    AfterSubmit(AfterRelease(CopyRest(w)))
  }
}
