/**
 A ring shared by one producer and one consumer: free-running 32-bit counters that wrap, and on each
 side a cached copy of both that may be stale. Every call reads or changes one shared counter at most,
 so the interleavings of the two sides are the interleavings of whole calls and slot accesses.
 */
module Ring {
  import opened Modular
  import opened Wrappers

  // ---------------------------------------------------------------- one side

  /** The counters one side keeps for itself. */
  datatype Side = Side(prod: Word, cons: Word)

  datatype Window = Window(index: Word, entries: Word)

  /** The producer's side after `free`: the consumer's counter is read again only if the cached room is too small. */
  function Refreshed(p: Side, cons: Word, size: Word, batch: Word): Side
  {
    if Wrap(p.cons - p.prod) >= batch then p else p.(cons := Wrap(cons + size))
  }

  function ReserveSpec(p: Side, cons: Word, size: Word, batch: Word): (Side, Option<Word>)
  {
    var q := Refreshed(p, cons, size, batch);
    if Wrap(q.cons - q.prod) < batch then (q, None) else (q.(prod := Wrap(q.prod + batch)), Some(q.prod))
  }

  /** The consumer's side after `available`. */
  function Looked(c: Side, prod: Word, batch: Word): Side
  {
    if Wrap(c.prod - c.cons) < batch then c.(prod := prod) else c
  }

  function PeekSpec(c: Side, prod: Word, batch: Word): (Side, Option<Window>)
  {
    var d := Looked(c, prod, batch);
    var there := Wrap(d.prod - d.cons);
    var entries := if there < batch then there else batch;
    if entries == 0 then (d, None) else (d.(cons := Wrap(d.cons + entries)), Some(Window(d.cons, entries)))
  }

  // ---------------------------------------------------------------- both sides and the memory between them

  /**
   The shared memory and the two sides, with history that no program looks at: `log` is everything submitted, `taken`
   everything released, as read from the slots, and the numbers count without wrapping.
   */
  datatype State<T> = State(
    slots: seq<T>,
    prod: Word,
    cons: Word,
    p: Side,
    c: Side,
    log: seq<T>,
    taken: seq<T>,
    reserved: nat,
    peeked: nat,
    released: nat,
    seenCons: nat,   // what the producer last read of the consumer
    seenProd: nat)   // what the consumer last read of the producer
  {
    function Size(): nat { |slots| }
  }

  /** Sizes for which a counter that wraps still finds its slot. */
  predicate Sized(size: nat)
  {
    0 < size < TWO_32 && TWO_32 % size == 0
  }

  /** The slot of a counter value, as the program finds it: from the wrapped counter. */
  function SlotOf(size: nat, i: nat): (slot: nat)
    requires size > 0
    ensures slot < size
  {
    Wrap(i) % size
  }

  function Reserve<T>(s: State<T>, batch: Word): State<T>
    requires s.Size() < TWO_32
  {
    var (p, index) := ReserveSpec(s.p, s.cons, s.Size(), batch);
    s.(p := p, reserved := if index.Some? then s.reserved + batch else s.reserved,
       seenCons := if Wrap(s.p.cons - s.p.prod) >= batch then s.seenCons else s.released)
  }

  function Write<T>(s: State<T>, i: nat, x: T): State<T>
    requires s.Size() > 0
  {
    s.(slots := s.slots[SlotOf(s.Size(), i) := x])
  }

  /** What the slots hold for `n` counter values from `start` on. */
  function Stretch<T>(slots: seq<T>, start: nat, n: nat): (entries: seq<T>)
    requires |slots| > 0
    ensures |entries| == n
  {
    seq(n, k requires 0 <= k < n => slots[SlotOf(|slots|, start + k)])
  }

  function Submit<T>(s: State<T>, n: Word): State<T>
    requires s.Size() > 0
  {
    s.(prod := Wrap(s.prod + n), log := s.log + Stretch(s.slots, |s.log|, n))
  }

  function Peek<T>(s: State<T>, batch: Word): State<T>
  {
    var (c, window) := PeekSpec(s.c, s.prod, batch);
    s.(c := c, peeked := if window.Some? then s.peeked + window.value.entries else s.peeked,
       seenProd := if Wrap(s.c.prod - s.c.cons) < batch then |s.log| else s.seenProd)
  }

  function Unpeek<T>(s: State<T>, n: Word): State<T>
    requires n <= s.peeked
  {
    s.(c := s.c.(cons := Wrap(s.c.cons - n)), peeked := s.peeked - n)
  }

  function Release<T>(s: State<T>, n: Word): State<T>
    requires s.Size() > 0
  {
    s.(cons := Wrap(s.cons + n), released := s.released + n, taken := s.taken + Stretch(s.slots, s.released, n))
  }

  datatype Step<T> =
    | DoReserve(batch: Word) | DoWrite(i: nat, x: T) | DoSubmit(n: Word)
    | DoPeek(batch: Word) | DoUnpeek(n: Word) | DoRelease(n: Word)

  /** The producer writes what it has reserved and submits no more; the consumer gives back no more than it peeked. */
  predicate Enabled<T>(s: State<T>, step: Step<T>)
  {
    match step
    case DoWrite(i, _) => |s.log| <= i < s.reserved
    case DoSubmit(n) => |s.log| + n <= s.reserved
    case DoUnpeek(n) => s.released + n <= s.peeked
    case DoRelease(n) => s.released + n <= s.peeked
    case _ => true
  }

  function Apply<T>(s: State<T>, step: Step<T>): State<T>
    requires Sized(s.Size()) && Enabled(s, step)
  {
    match step
    case DoReserve(batch) => Reserve(s, batch)
    case DoWrite(i, x) => Write(s, i, x)
    case DoSubmit(n) => Submit(s, n)
    case DoPeek(batch) => Peek(s, batch)
    case DoUnpeek(n) => Unpeek(s, n)
    case DoRelease(n) => Release(s, n)
  }

  /** A fresh ring: the producer starts with all slots free. */
  ghost predicate Init<T>(s: State<T>)
  {
    Sized(s.Size()) &&
    s == State(s.slots, 0, 0, Side(0, s.Size()), Side(0, 0), [], [], 0, 0, 0, 0, 0)
  }

  /** Every word is its counter, wrapped. */
  ghost predicate Words<T>(s: State<T>)
  {
    && s.prod == Wrap(|s.log|) && s.cons == Wrap(s.released)
    && s.p == Side(Wrap(s.reserved), Wrap(s.seenCons + s.Size()))
    && s.c == Side(Wrap(s.seenProd), Wrap(s.peeked))
  }

  /** Stale copies are behind, never ahead, and nothing is reserved beyond the consumer's reach. */
  ghost predicate Ordered<T>(s: State<T>)
  {
    s.seenCons <= s.released <= s.peeked <= s.seenProd <= |s.log| <= s.reserved <= s.seenCons + s.Size()
  }

  /** What is submitted and not yet released is in its slot. */
  ghost predicate Holds<T>(s: State<T>)
    requires s.Size() > 0
  {
    forall i {:trigger SlotOf(s.Size(), i)} :: s.released <= i < |s.log| ==> s.slots[SlotOf(s.Size(), i)] == s.log[i]
  }

  ghost predicate Inv<T>(s: State<T>)
  {
    Sized(s.Size()) && Words(s) && Ordered(s) && Holds(s) && s.taken == s.log[..s.released]
  }

  // ---------------------------------------------------------------- arithmetic

  /** The wrapped difference of two counters less than 2^32 apart is their difference. */
  lemma WrapDifference(a: nat, b: nat)
    requires b <= a < b + TWO_32
    ensures Wrap(Wrap(a) - Wrap(b)) == a - b
  {
  }

  lemma WrapSum(a: nat, n: nat)
    ensures Wrap(Wrap(a) + n) == Wrap(a + n)
  {
  }

  lemma WrapMinus(a: nat, n: nat)
    requires n <= a
    ensures Wrap(Wrap(a) - n) == Wrap(a - n)
  {
  }

  lemma SlotIsRemainder(size: nat, i: nat)
    requires Sized(size)
    ensures SlotOf(size, i) == i % size
  {
    var t := TWO_32 / size;
    assert t * size == TWO_32;
    NestedRemainder(i, t, size);
  }

  /** The wrapped counter finds the right slot for every count exactly when the size divides 2^32. */
  lemma WrappingIsHarmlessIffSizeDivides(size: nat)
    requires 0 < size < TWO_32
    ensures (forall i: nat :: SlotOf(size, i) == i % size) <==> TWO_32 % size == 0
  {
    if TWO_32 % size == 0 {
      forall i: nat ensures SlotOf(size, i) == i % size {
        SlotIsRemainder(size, i);
      }
    } else {
      assert SlotOf(size, TWO_32) == 0 % size == 0;
    }
  }

  /** Counters less than the size apart have different slots, wrapping or not. */
  lemma SlotsDiffer(size: nat, i: nat, j: nat)
    requires Sized(size) && i < j < i + size
    ensures SlotOf(size, i) != SlotOf(size, j)
  {
    SlotIsRemainder(size, i);
    SlotIsRemainder(size, j);
    RemainderInjective(i, j, size);
  }

  // ---------------------------------------------------------------- what the calls come to

  /** Reserving, with the words replaced by what they count. */
  lemma ReserveCounts(size: Word, seen: nat, released: nat, reserved: nat, batch: Word)
    requires seen <= released <= reserved <= seen + size
    ensures var p := Side(Wrap(reserved), Wrap(seen + size));
      var seen' := if seen + size - reserved >= batch then seen else released;
      && Wrap(p.cons - p.prod) == seen + size - reserved
      && ReserveSpec(p, Wrap(released), size, batch)
         == if reserved + batch <= released + size
            then (Side(Wrap(reserved + batch), Wrap(seen' + size)), Some(Wrap(reserved)))
            else (Side(Wrap(reserved), Wrap(seen' + size)), None)
  {
    WrapDifference(seen + size, reserved);
    WrapSum(released, size);
    WrapDifference(released + size, reserved);
    WrapSum(reserved, batch);
  }

  /** After `free` the cached room is never more than there is, and enough for the batch whenever there is enough. */
  lemma FreeIsRoom<T>(s: State<T>, batch: Word)
    requires Inv(s)
    ensures var q := Refreshed(s.p, s.cons, s.Size(), batch);
      var room := Wrap(q.cons - q.prod);
      && s.reserved + room <= s.released + s.Size()
      && (room >= batch <==> s.reserved + batch <= s.released + s.Size())
  {
    WrapDifference(s.seenCons + s.Size(), s.reserved);
    WrapSum(s.released, s.Size());
    WrapDifference(s.released + s.Size(), s.reserved);
  }

  /** A reservation succeeds exactly when there is room behind what the consumer has released, however stale the cache. */
  lemma ReserveIffRoom<T>(s: State<T>, batch: Word)
    requires Inv(s)
    ensures var index := ReserveSpec(s.p, s.cons, s.Size(), batch).1;
      && (index.Some? <==> s.reserved + batch <= s.released + s.Size())
      && (index.Some? ==> index.value == Wrap(s.reserved) && Reserve(s, batch).reserved == s.reserved + batch)
      && (index.None? ==> Reserve(s, batch).reserved == s.reserved)
    ensures Inv(Reserve(s, batch))
  {
    ReserveCounts(s.Size(), s.seenCons, s.released, s.reserved, batch);
  }

  /** Peeking, with the words replaced by what they count. */
  lemma PeekCounts(peeked: nat, seen: nat, submitted: nat, batch: Word)
    requires peeked <= seen <= submitted < peeked + TWO_32
    ensures var c := Side(Wrap(seen), Wrap(peeked));
      var seen' := if seen - peeked < batch then submitted else seen;
      var entries := if submitted - peeked < batch then submitted - peeked else batch;
      && Wrap(c.prod - c.cons) == seen - peeked
      && PeekSpec(c, Wrap(submitted), batch)
         == if entries == 0 then (Side(Wrap(seen'), Wrap(peeked)), None)
            else (Side(Wrap(seen'), Wrap(peeked + entries)), Some(Window(Wrap(peeked), entries)))
  {
    WrapDifference(seen, peeked);
    WrapDifference(submitted, peeked);
    WrapSum(peeked, if submitted - peeked < batch then submitted - peeked else batch);
  }

  /** A peek covers exactly what is submitted, up to the batch size, however stale the cache. */
  lemma PeekTakesWhatIsThere<T>(s: State<T>, batch: Word)
    requires Inv(s)
    ensures var window, there := PeekSpec(s.c, s.prod, batch).1, |s.log| - s.peeked;
      var entries := if there < batch then there else batch;
      && (window.None? <==> entries == 0)
      && (window.Some? ==> window.value == Window(Wrap(s.peeked), entries))
      && Peek(s, batch).peeked == s.peeked + entries
    ensures Inv(Peek(s, batch))
  {
    PeekCounts(s.peeked, s.seenProd, |s.log|, batch);
  }

  /** No reserved slot is one the consumer still owns. */
  lemma ReservedIsNotOwned<T>(s: State<T>, i: nat, j: nat)
    requires Inv(s) && s.released <= j < |s.log| <= i < s.reserved
    ensures SlotOf(s.Size(), i) != SlotOf(s.Size(), j)
  {
    SlotsDiffer(s.Size(), j, i);
  }

  lemma WriteKeepsInv<T>(s: State<T>, i: nat, x: T)
    requires Inv(s) && |s.log| <= i < s.reserved
    ensures Inv(Write(s, i, x))
  {
    forall j | s.released <= j < |s.log| ensures Write(s, i, x).slots[SlotOf(s.Size(), j)] == s.log[j] {
      ReservedIsNotOwned(s, i, j);
    }
  }

  lemma SubmitHolds<T>(s: State<T>, n: Word, i: nat)
    requires s.Size() > 0 && Holds(s) && s.released <= i < |s.log| + n
    ensures s.slots[SlotOf(s.Size(), i)] == Submit(s, n).log[i]
  {
    if i >= |s.log| {
      assert Submit(s, n).log[i] == Stretch(s.slots, |s.log|, n)[i - |s.log|];
    }
  }

  lemma SubmitKeepsInv<T>(s: State<T>, n: Word)
    requires Inv(s) && |s.log| + n <= s.reserved
    ensures Inv(Submit(s, n))
  {
    WrapSum(|s.log|, n);
    var s' := Submit(s, n);
    assert s'.log[..s.released] == s.log[..s.released];
    forall i | s'.released <= i < |s'.log| ensures s'.slots[SlotOf(s'.Size(), i)] == s'.log[i] {
      SubmitHolds(s, n, i);
    }
  }

  lemma ReleaseKeepsInv<T>(s: State<T>, n: Word)
    requires Inv(s) && s.released + n <= s.peeked
    ensures Inv(Release(s, n))
    ensures Release(s, n).taken == s.taken + s.log[s.released..s.released + n]
  {
    WrapSum(s.released, n);
    var stretch := Stretch(s.slots, s.released, n);
    forall k | 0 <= k < n ensures stretch[k] == s.log[s.released + k] {
      assert s.slots[SlotOf(s.Size(), s.released + k)] == s.log[s.released + k];
    }
    assert stretch == s.log[s.released..s.released + n];
    assert s.log[..s.released] + s.log[s.released..s.released + n] == s.log[..s.released + n];
  }

  lemma UnpeekKeepsInv<T>(s: State<T>, n: Word)
    requires Inv(s) && s.released + n <= s.peeked
    ensures Inv(Unpeek(s, n))
  {
    WrapMinus(s.peeked, n);
  }

  lemma StepKeepsInv<T>(s: State<T>, step: Step<T>)
    requires Inv(s) && Enabled(s, step)
    ensures Inv(Apply(s, step))
  {
    match step
    case DoReserve(batch) => ReserveIffRoom(s, batch);
    case DoWrite(i, x) => WriteKeepsInv(s, i, x);
    case DoSubmit(n) => SubmitKeepsInv(s, n);
    case DoPeek(batch) => PeekTakesWhatIsThere(s, batch);
    case DoUnpeek(n) => UnpeekKeepsInv(s, n);
    case DoRelease(n) => ReleaseKeepsInv(s, n);
  }

  /** The states of a run, one per step. */
  ghost predicate IsRun<T>(states: seq<State<T>>, steps: seq<Step<T>>)
  {
    && |states| == |steps| + 1 && Init(states[0])
    && forall i :: 0 <= i < |steps| ==>
         Sized(states[i].Size()) && Enabled(states[i], steps[i]) && states[i + 1] == Apply(states[i], steps[i])
  }

  /**
   In every interleaving, with caches as stale as they may be and counters wrapping: what the consumer has taken is
   what was submitted, in order, and every slot it owns still holds its entry.
   */
  lemma {:induction false} TakenIsSubmitted<T>(states: seq<State<T>>, steps: seq<Step<T>>, n: nat)
    requires IsRun(states, steps) && n < |states|
    ensures Inv(states[n]) && states[n].taken <= states[n].log
  {
    if n > 0 {
      TakenIsSubmitted(states, steps, n - 1);
      StepKeepsInv(states[n - 1], steps[n - 1]);
      assert states[n] == Apply(states[n - 1], steps[n - 1]);
    }
  }
}
