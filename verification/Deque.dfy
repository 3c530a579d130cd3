/**
 The deque as an interleaving of atomic steps: one pusher, any number of stealers, sequentially
 consistent memory, buffers that are never reused. A batch is written and stolen one slot at a time,
 so a stealer can observe a half-written batch or a buffer that has been replaced meanwhile. The copy
 into a larger buffer is one step: only the pusher writes buffers, so the old one cannot change during
 the copy, and nobody else sees the new one before the pointer is swapped.
 */
module Deque {
  import opened DequeBuffer

  const MIN_CAP: nat := 64

  /** Where the pusher is inside `push`. */
  datatype Pusher<T> =
    | Resting
    | Refreshing(task: seq<T>)                     // the cached counter says full
    | Growing(task: seq<T>)                        // the fresh counter says full as well
    | Publishing(task: seq<T>, copiedFrom: nat)    // the larger copy exists, the pointer is not swapped
    | Writing(task: seq<T>, written: set<nat>)     // copying the batch into the ring

  /** `steal` takes one item, `steal_batch` about half of what it sees, up to its destination's capacity. */
  datatype Mode = One | Half(capacity: nat)

  /** Where a stealer is inside `steal` or `steal_batch`. */
  datatype Stealer<T> =
    | SawFront(mode: Mode, front: nat)
    | SawRange(front: nat, count: nat)
    | Copying(front: nat, count: nat, buffer: nat, dest: map<nat, T>)
    | Checked(front: nat, count: nat, dest: map<nat, T>)

  datatype State<T> = State(
    consumed: nat,
    produced: nat,
    buffers: seq<seq<T>>,             // every buffer ever allocated; the index is its identity
    current: nat,                     // the published buffer
    cachedCons: nat,
    pusher: Pusher<T>,
    stealers: map<nat, Stealer<T>>,   // the stealers inside a call
    pushed: seq<T>,                   // log: every item whose push has completed
    steals: seq<(nat, seq<T>)>)       // log: successful steals in the order of their exchanges
  {
    ghost predicate WellFormed() {
      current < |buffers| && forall b :: 0 <= b < |buffers| ==> |buffers[b]| > 0
    }

    function Ring(): (slots: seq<T>)
      requires WellFormed()
      ensures |slots| > 0
    {
      buffers[current]
    }
  }

  datatype Step<T> =
    | BeginPush(task: seq<T>)
    | LoadConsumed
    | CopyRing(larger: seq<T>)
    | SwapBuffer
    | WriteItem(k: nat)
    | StoreProduced
    | LoadFront(tid: nat, mode: Mode)
    | LoadProduced(tid: nat)
    | LoadBuffer(tid: nat)
    | CopyItem(tid: nat, j: nat, stray: T)   // `stray`: what lies past the end of the buffer
    | RecheckBuffer(tid: nat)
    | CompareExchange(tid: nat)

  /** How many items a stealer that sees `len` items goes for. */
  function Wanted(mode: Mode, len: nat): (count: nat)
    ensures count <= len
  {
    match mode
    case One => if len == 0 then 0 else 1
    case Half(capacity) => var half := (len + 1) / 2; if half <= capacity then half else capacity
  }

  predicate AllCopied<T>(count: nat, dest: map<nat, T>)
  {
    forall j :: 0 <= j < count ==> j in dest
  }

  function Items<T>(count: nat, dest: map<nat, T>): (items: seq<T>)
    requires AllCopied(count, dest)
    ensures |items| == count && forall j :: 0 <= j < count ==> items[j] == dest[j]
  {
    seq(count, j requires 0 <= j < count => dest[j])
  }

  ghost predicate Enabled<T>(s: State<T>, step: Step<T>)
    requires s.WellFormed()
  {
    match step
    case BeginPush(_) => s.pusher.Resting?
    case LoadConsumed => s.pusher.Refreshing?
    case CopyRing(larger) =>
      s.pusher.Growing? && |larger| == 2 * |s.Ring()| && Carries(s.Ring(), larger, s.consumed, s.produced)
    case SwapBuffer => s.pusher.Publishing?
    case WriteItem(k) => s.pusher.Writing? && k < |s.pusher.task| <= |s.Ring()|
    case StoreProduced =>
      s.pusher.Writing? && forall k :: 0 <= k < |s.pusher.task| ==> k in s.pusher.written
    case LoadFront(tid, _) => tid !in s.stealers
    case LoadProduced(tid) => tid in s.stealers && s.stealers[tid].SawFront?
    case LoadBuffer(tid) => tid in s.stealers && s.stealers[tid].SawRange?
    case CopyItem(tid, j, _) =>
      tid in s.stealers && s.stealers[tid].Copying? && s.stealers[tid].buffer < |s.buffers| && j < s.stealers[tid].count
    case RecheckBuffer(tid) =>
      tid in s.stealers && s.stealers[tid].Copying? && AllCopied(s.stealers[tid].count, s.stealers[tid].dest)
    case CompareExchange(tid) =>
      tid in s.stealers && s.stealers[tid].Checked? && AllCopied(s.stealers[tid].count, s.stealers[tid].dest)
  }

  /** The steps of the pusher; all others are a stealer's. */
  ghost predicate IsPush<T>(step: Step<T>)
  {
    step.BeginPush? || step.LoadConsumed? || step.CopyRing? || step.SwapBuffer? || step.WriteItem? || step.StoreProduced?
  }

  /** The pusher's turn. */
  ghost function ApplyPush<T>(s: State<T>, step: Step<T>): State<T>
    requires s.WellFormed() && Enabled(s, step)
    requires IsPush(step)
  {
    var cap := |s.Ring()|;
    match step
    case BeginPush(task) =>
      s.(pusher := if s.produced - s.cachedCons >= cap then Refreshing(task) else Writing(task, {}))
    case LoadConsumed =>
      s.(cachedCons := s.consumed,
         pusher := if s.produced - s.consumed >= cap then Growing(s.pusher.task) else Writing(s.pusher.task, {}))
    case CopyRing(larger) =>
      s.(buffers := s.buffers + [larger], pusher := Publishing(s.pusher.task, s.consumed))
    case SwapBuffer =>
      s.(current := |s.buffers| - 1, pusher := Writing(s.pusher.task, {}))
    case WriteItem(k) =>
      var slots := s.Ring()[At(cap, s.produced + k) := s.pusher.task[k]];
      s.(buffers := s.buffers[s.current := slots], pusher := Writing(s.pusher.task, s.pusher.written + {k}))
    case StoreProduced =>
      s.(produced := s.produced + |s.pusher.task|, pushed := s.pushed + s.pusher.task, pusher := Resting)
  }

  /** A stealer's turn. */
  ghost function ApplySteal<T>(s: State<T>, step: Step<T>): State<T>
    requires s.WellFormed() && Enabled(s, step)
    requires !IsPush(step)
  {
    match step
    case LoadFront(tid, mode) =>
      s.(stealers := s.stealers[tid := SawFront(mode, s.consumed)])
    case LoadProduced(tid) =>
      var front := s.stealers[tid].front;
      var count := Wanted(s.stealers[tid].mode, if s.produced > front then s.produced - front else 0);
      s.(stealers := if count == 0 then s.stealers - {tid} else s.stealers[tid := SawRange(front, count)])
    case LoadBuffer(tid) =>
      var me := s.stealers[tid];
      s.(stealers := s.stealers[tid := Copying(me.front, me.count, s.current, map[])])
    case CopyItem(tid, j, stray) =>
      var me := s.stealers[tid];
      var slots := s.buffers[me.buffer];
      var offset := StealOffset(|slots|, me.front, me.count, j);
      var item := if offset < |slots| then slots[offset] else stray;
      s.(stealers := s.stealers[tid := Copying(me.front, me.count, me.buffer, me.dest[j := item])])
    case RecheckBuffer(tid) =>
      var me := s.stealers[tid];
      s.(stealers := if me.buffer == s.current then s.stealers[tid := Checked(me.front, me.count, me.dest)]
                     else s.stealers - {tid})
    case CompareExchange(tid) =>
      var me := s.stealers[tid];
      var left := s.(stealers := s.stealers - {tid});
      if s.consumed == me.front then
        left.(consumed := me.front + me.count, steals := s.steals + [(tid, Items(me.count, me.dest))])
      else left
  }

  ghost function Apply<T>(s: State<T>, step: Step<T>): State<T>
    requires s.WellFormed() && Enabled(s, step)
  {
    if IsPush(step) then ApplyPush(s, step) else ApplySteal(s, step)
  }

  /** A batch being copied fits beside what is still unconsumed. */
  ghost predicate Fits<T>(s: State<T>)
    requires s.WellFormed()
  {
    s.pusher.Writing? ==> s.produced - s.consumed + |s.pusher.task| <= |s.Ring()|
  }

  ghost predicate Init<T>(s: State<T>)
  {
    && |s.buffers| == 1 && |s.buffers[0]| == MIN_CAP && s.current == 0
    && s.consumed == s.produced == s.cachedCons == 0
    && s.pusher.Resting? && s.stealers == map[] && s.pushed == [] && s.steals == []
  }

  /** `states` are what the deque goes through when the threads take `steps` in turn. */
  ghost predicate IsPath<T>(states: seq<State<T>>, steps: seq<Step<T>>)
  {
    && |states| == |steps| + 1
    && forall i :: 0 <= i < |steps| ==>
         states[i].WellFormed() && Enabled(states[i], steps[i]) && states[i + 1] == Apply(states[i], steps[i])
  }

  ghost predicate IsRun<T>(states: seq<State<T>>, steps: seq<Step<T>>)
  {
    IsPath(states, steps) && Init(states[0])
  }

  /** Every batch of the run fits when it is copied. */
  ghost predicate AllFit<T>(states: seq<State<T>>)
  {
    forall i :: 0 <= i < |states| ==> states[i].WellFormed() && Fits(states[i])
  }

  // ---------------------------------------------------------------- the invariant

  /** The slots of `slots` hold the pushed items of `from..to`. */
  ghost predicate Holds<T>(slots: seq<T>, pushed: seq<T>, from: nat, to: nat)
    requires |slots| > 0
  {
    to <= |pushed| && forall i :: from <= i < to ==> slots[At(|slots|, i)] == pushed[i]
  }

  ghost predicate PusherInv<T>(s: State<T>)
    requires s.WellFormed() && |s.pushed| == s.produced
  {
    match s.pusher
    case Publishing(_, from) =>
      from <= s.consumed && s.current < |s.buffers| - 1
      && |s.buffers[|s.buffers| - 1]| == 2 * |s.Ring()|
      && Holds(s.buffers[|s.buffers| - 1], s.pushed, from, s.produced)
    case Writing(task, written) =>
      forall k :: k in written && k < |task| <= |s.Ring()| ==> s.Ring()[At(|s.Ring()|, s.produced + k)] == task[k]
    case _ => true
  }

  /** As long as a stealer's front is current, what it copied is what was pushed there. */
  ghost predicate StealerInv<T>(s: State<T>, me: Stealer<T>)
    requires s.WellFormed() && |s.pushed| == s.produced
  {
    && me.front <= s.consumed
    && (!me.SawFront? ==> 0 < me.count && me.front + me.count <= s.produced)
    && (me.Copying? ==>
          me.buffer <= s.current
          && (me.front == s.consumed ==>
                me.count <= |s.buffers[me.buffer]|
                && Holds(s.buffers[me.buffer], s.pushed, me.front, me.front + me.count)))
    && ((me.Copying? || me.Checked?) && me.front == s.consumed ==>
          forall j :: j in me.dest && j < me.count ==> me.dest[j] == s.pushed[me.front + j])
  }

  /** The items of the logged steals, in order. */
  ghost function Stolen<T>(steals: seq<(nat, seq<T>)>): seq<T>
  {
    if steals == [] then [] else Stolen(steals[..|steals| - 1]) + steals[|steals| - 1].1
  }

  ghost predicate Inv<T>(s: State<T>)
  {
    && s.WellFormed()
    && s.cachedCons <= s.consumed <= s.produced == |s.pushed|
    && s.produced - s.consumed <= |s.Ring()|
    && Holds(s.Ring(), s.pushed, s.consumed, s.produced)
    && PusherInv(s)
    && (forall tid :: tid in s.stealers ==> StealerInv(s, s.stealers[tid]))
    && Stolen(s.steals) == s.pushed[..s.consumed]
  }

  /** Writing one logical index leaves every other index within a ring's length of `from` alone. */
  lemma WriteSparesOthers<T>(slots: seq<T>, from: nat, to: nat, at: nat, x: T)
    requires 0 < |slots| && from <= at < to <= from + |slots|
    ensures forall i :: from <= i < to && i != at ==>
      slots[At(|slots|, at) := x][At(|slots|, i)] == slots[At(|slots|, i)]
  {
    forall i | from <= i < to && i != at ensures At(|slots|, i) != At(|slots|, at) {
      if i < at {
        AtInjective(|slots|, i, at);
      } else {
        AtInjective(|slots|, at, i);
      }
    }
  }

  lemma WriteItemKeepsInv<T>(s: State<T>, k: nat)
    requires Inv(s) && Fits(s) && Enabled(s, WriteItem(k))
    ensures Inv(Apply(s, WriteItem(k)))
  {
    var t := ApplyPush(s, WriteItem(k));
    var task := s.pusher.task;
    WriteSparesOthers(s.Ring(), s.consumed, s.produced + |task|, s.produced + k, task[k]);
    assert Holds(t.Ring(), t.pushed, t.consumed, t.produced);
    forall j | j in t.pusher.written && j < |task| <= |t.Ring()|
      ensures t.Ring()[At(|t.Ring()|, t.produced + j)] == task[j]
    {
      assert j != k ==> j in s.pusher.written;
    }
    forall tid | tid in t.stealers ensures StealerInv(t, t.stealers[tid]) {
      assert StealerInv(s, s.stealers[tid]);
    }
  }

  lemma StoreKeepsInv<T>(s: State<T>)
    requires Inv(s) && Fits(s) && Enabled(s, StoreProduced)
    ensures Inv(Apply(s, StoreProduced))
  {
    var t := Apply(s, StoreProduced);
    assert t.pushed[..t.consumed] == s.pushed[..s.consumed];
    forall i | t.consumed <= i < t.produced ensures t.Ring()[At(|t.Ring()|, i)] == t.pushed[i] {
      if i >= s.produced {
        assert i - s.produced in s.pusher.written;
        assert i == s.produced + (i - s.produced);
      }
    }
    forall tid | tid in t.stealers ensures StealerInv(t, t.stealers[tid]) {
      assert StealerInv(s, s.stealers[tid]);
    }
  }

  /** Adding or publishing a buffer disturbs no stealer: none of the buffers they read changes. */
  lemma GrowthKeepsInv<T>(s: State<T>, step: Step<T>)
    requires Inv(s) && Enabled(s, step) && (step.CopyRing? || step.SwapBuffer?)
    ensures Inv(Apply(s, step))
  {
    var t := ApplyPush(s, step);
    assert Holds(t.Ring(), t.pushed, t.consumed, t.produced);
    assert PusherInv(t);
    forall tid | tid in t.stealers ensures StealerInv(t, t.stealers[tid]) {
      assert StealerInv(s, s.stealers[tid]);
    }
  }

  lemma PushStepKeepsInv<T>(s: State<T>, step: Step<T>)
    requires Inv(s) && Fits(s) && Enabled(s, step) && IsPush(step)
    ensures Inv(Apply(s, step))
  {
    if step.WriteItem? {
      WriteItemKeepsInv(s, step.k);
    } else if step.StoreProduced? {
      StoreKeepsInv(s);
    } else if step.CopyRing? || step.SwapBuffer? {
      GrowthKeepsInv(s, step);
    } else {
      var t := ApplyPush(s, step);
      forall tid | tid in t.stealers ensures StealerInv(t, t.stealers[tid]) {
        assert StealerInv(s, s.stealers[tid]);
      }
    }
  }

  /** A step that only moves stealers keeps the invariant if it leaves each of them justified. */
  lemma OnlyStealersMove<T>(s: State<T>, t: State<T>)
    requires Inv(s) && t == s.(stealers := t.stealers)
    requires forall tid :: tid in t.stealers ==> StealerInv(s, t.stealers[tid])
    ensures Inv(t)
  {
    forall tid | tid in t.stealers ensures StealerInv(t, t.stealers[tid]) {
      assert StealerInv(s, t.stealers[tid]);
    }
  }

  lemma CopyItemKeepsInv<T>(s: State<T>, tid: nat, j: nat, stray: T)
    requires Inv(s) && Enabled(s, CopyItem(tid, j, stray))
    ensures Inv(Apply(s, CopyItem(tid, j, stray)))
  {
    var t := Apply(s, CopyItem(tid, j, stray));
    var me := s.stealers[tid];
    assert StealerInv(s, me);
    if me.front == s.consumed {
      StealOffsetIsSlot(|s.buffers[me.buffer]|, me.front, me.count, j);
    }
    assert StealerInv(s, t.stealers[tid]);
    OnlyStealersMove(s, t);
  }

  lemma LoadStepKeepsInv<T>(s: State<T>, step: Step<T>)
    requires Inv(s) && Enabled(s, step)
    requires step.LoadFront? || step.LoadProduced? || step.LoadBuffer? || step.RecheckBuffer?
    ensures Inv(Apply(s, step))
  {
    var t := ApplySteal(s, step);
    if step.tid in s.stealers {
      assert StealerInv(s, s.stealers[step.tid]);
    }
    if step.tid in t.stealers {
      assert StealerInv(s, t.stealers[step.tid]);
    }
    OnlyStealersMove(s, t);
  }

  /** A stealer about to exchange a current front has copied exactly the oldest unconsumed items. */
  lemma ExchangeTakesOldest<T>(s: State<T>, tid: nat)
    requires Inv(s) && Enabled(s, CompareExchange(tid)) && s.consumed == s.stealers[tid].front
    ensures var me := s.stealers[tid];
      && 0 < me.count && s.consumed + me.count <= |s.pushed|
      && Items(me.count, me.dest) == s.pushed[s.consumed..s.consumed + me.count]
  {
    assert StealerInv(s, s.stealers[tid]);
  }

  /** One more steal of the next items. */
  lemma StolenMore<T>(steals: seq<(nat, seq<T>)>, tid: nat, items: seq<T>, pushed: seq<T>, from: nat, to: nat)
    requires from <= to <= |pushed| && Stolen(steals) == pushed[..from] && items == pushed[from..to]
    ensures Stolen(steals + [(tid, items)]) == pushed[..to]
  {
    assert (steals + [(tid, items)])[..|steals|] == steals;
  }

  lemma SuccessfulExchangeKeepsInv<T>(s: State<T>, tid: nat)
    requires Inv(s) && Enabled(s, CompareExchange(tid)) && s.consumed == s.stealers[tid].front
    ensures Inv(Apply(s, CompareExchange(tid)))
  {
    var t := ApplySteal(s, CompareExchange(tid));
    ExchangeTakesOldest(s, tid);
    StolenMore(s.steals, tid, Items(s.stealers[tid].count, s.stealers[tid].dest), s.pushed, s.consumed, t.consumed);
    forall other | other in t.stealers ensures StealerInv(t, t.stealers[other]) {
      assert StealerInv(s, s.stealers[other]);
      assert t.stealers[other].front < t.consumed;
    }
  }

  lemma StealStepKeepsInv<T>(s: State<T>, step: Step<T>)
    requires Inv(s) && Enabled(s, step) && !IsPush(step)
    ensures Inv(Apply(s, step))
  {
    if step.CopyItem? {
      CopyItemKeepsInv(s, step.tid, step.j, step.stray);
      return;
    }
    if step.CompareExchange? {
      if s.consumed == s.stealers[step.tid].front {
        SuccessfulExchangeKeepsInv(s, step.tid);
      } else {
        OnlyStealersMove(s, ApplySteal(s, step));
      }
      return;
    }
    LoadStepKeepsInv(s, step);
  }

  /** Every step of the pusher and of every stealer keeps the invariant. */
  lemma StepKeepsInv<T>(s: State<T>, step: Step<T>)
    requires Inv(s) && Fits(s) && Enabled(s, step)
    ensures Inv(Apply(s, step))
  {
    if IsPush(step) {
      PushStepKeepsInv(s, step);
    } else {
      StealStepKeepsInv(s, step);
    }
  }

  lemma {:induction false} RunKeepsInv<T>(states: seq<State<T>>, steps: seq<Step<T>>, n: nat)
    requires IsRun(states, steps) && AllFit(states) && n <= |steps|
    ensures Inv(states[n])
  {
    if n > 0 {
      RunKeepsInv(states, steps, n - 1);
      StepKeepsInv(states[n - 1], steps[n - 1]);
    }
  }

  // ---------------------------------------------------------------- main results

  /** The items of the batches whose push completed within `n` steps, in order, and the batch last begun. */
  ghost function Completed<T>(steps: seq<Step<T>>, n: nat): (seq<T>, seq<T>)
    requires n <= |steps|
  {
    if n == 0 then ([], [])
    else
      var (done, task) := Completed(steps, n - 1);
      match steps[n - 1]
      case BeginPush(next) => (done, next)
      case StoreProduced => (done + task, task)
      case _ => (done, task)
  }

  /** The log of pushed items is the concatenation of the completed batches. */
  lemma {:induction false} PushedIsCompleted<T>(states: seq<State<T>>, steps: seq<Step<T>>, n: nat)
    requires IsRun(states, steps) && n <= |steps|
    ensures states[n].pushed == Completed(steps, n).0
    ensures states[n].pusher.Resting? || states[n].pusher.task == Completed(steps, n).1
  {
    if n > 0 {
      PushedIsCompleted(states, steps, n - 1);
      var s, step := states[n - 1], steps[n - 1];
      if IsPush(step) {
        assert states[n] == ApplyPush(s, step);
      } else {
        assert states[n].pushed == s.pushed && states[n].pusher == s.pusher;
      }
    }
  }

  /**
   In every interleaving, at every moment, the successful steals in the order of their exchanges
   concatenate to exactly the first `consumed` items of the batches pushed so far: none lost,
   duplicated, torn or reordered. The items not yet stolen are all in the published ring.
   */
  lemma StealsAreThePushedPrefix<T>(states: seq<State<T>>, steps: seq<Step<T>>, n: nat)
    requires IsRun(states, steps) && AllFit(states) && n <= |steps|
    ensures var s, pushed := states[n], Completed(steps, n).0;
      && s.consumed <= s.produced == |pushed|
      && Stolen(s.steals) == pushed[..s.consumed]
      && Contents(s.Ring(), s.consumed, s.produced) == pushed[s.consumed..]
  {
    RunKeepsInv(states, steps, n);
    PushedIsCompleted(states, steps, n);
    var s, pushed := states[n], Completed(steps, n).0;
    assert Holds(s.Ring(), pushed, s.consumed, s.produced);
    assert Contents(s.Ring(), s.consumed, s.produced) == pushed[s.consumed..];
  }

  /** What a client sees: the items pushed and not yet stolen. */
  ghost function Queue<T>(s: State<T>): seq<T>
    requires s.consumed <= |s.pushed|
  {
    s.pushed[s.consumed..]
  }

  /**
   What a stealer takes of the `len` items it sees: `steal` one; `steal_batch` no more than its destination holds, and
   unless that is full, the share taken and the share left differ by at most one, the larger being taken.
   */
  ghost predicate FairShare(mode: Mode, count: nat, len: nat)
  {
    match mode
    case One => count == 1 <= len
    case Half(capacity) =>
      count <= capacity && count <= len && count <= (len - count) + 1 && (count == capacity || len - count <= count)
  }

  /**
   What a step may do to the queue: a completed push appends its batch, a successful exchange hands
   out a nonempty prefix, anything else leaves the queue alone; `steal`, and `steal_batch` with room in its
   destination, report empty only on an empty queue, and go for their fair share of what they see otherwise.
   */
  ghost predicate QueueStep<T>(s: State<T>, step: Step<T>, t: State<T>)
    requires s.WellFormed() && Enabled(s, step)
    requires s.consumed <= |s.pushed| && t.consumed <= |t.pushed|
  {
    match step
    case StoreProduced => Queue(t) == Queue(s) + s.pusher.task && t.steals == s.steals
    case CompareExchange(tid) =>
      if s.stealers[tid].front == s.consumed then
        var items := Items(s.stealers[tid].count, s.stealers[tid].dest);
        items != [] && Queue(s) == items + Queue(t) && t.steals == s.steals + [(tid, items)]
      else
        Queue(t) == Queue(s) && t.steals == s.steals
    case LoadProduced(tid) =>
      && Queue(t) == Queue(s) && t.steals == s.steals
      && (s.stealers[tid].mode != Half(0) && tid !in t.stealers ==> Queue(s) == [])
      && (tid in t.stealers ==>
            && t.stealers[tid].SawRange? && t.stealers[tid].front == s.stealers[tid].front <= s.produced
            && FairShare(s.stealers[tid].mode, t.stealers[tid].count, s.produced - t.stealers[tid].front))
    case _ => Queue(t) == Queue(s) && t.steals == s.steals
  }

  lemma PushOnQueue<T>(s: State<T>, step: Step<T>)
    requires s.WellFormed() && Enabled(s, step) && IsPush(step)
    requires s.consumed <= |s.pushed| && Apply(s, step).consumed <= |Apply(s, step).pushed|
    ensures QueueStep(s, step, Apply(s, step))
  {
    assert Apply(s, step) == ApplyPush(s, step);
  }

  lemma LoadOnQueue<T>(s: State<T>, tid: nat)
    requires Inv(s) && Enabled(s, LoadProduced(tid))
    requires Apply(s, LoadProduced(tid)).consumed <= |Apply(s, LoadProduced(tid)).pushed|
    ensures QueueStep(s, LoadProduced(tid), Apply(s, LoadProduced(tid)))
  {
    assert Apply(s, LoadProduced(tid)) == ApplySteal(s, LoadProduced(tid));
    assert StealerInv(s, s.stealers[tid]);
  }

  lemma ExchangeOnQueue<T>(s: State<T>, tid: nat)
    requires Inv(s) && Enabled(s, CompareExchange(tid))
    requires Apply(s, CompareExchange(tid)).consumed <= |Apply(s, CompareExchange(tid)).pushed|
    ensures QueueStep(s, CompareExchange(tid), Apply(s, CompareExchange(tid)))
  {
    assert Apply(s, CompareExchange(tid)) == ApplySteal(s, CompareExchange(tid));
    if s.consumed == s.stealers[tid].front {
      ExchangeTakesOldest(s, tid);
    }
  }

  lemma OtherOnQueue<T>(s: State<T>, step: Step<T>)
    requires s.WellFormed() && Enabled(s, step) && !IsPush(step) && !step.LoadProduced? && !step.CompareExchange?
    requires s.consumed <= |s.pushed| && Apply(s, step).consumed <= |Apply(s, step).pushed|
    ensures QueueStep(s, step, Apply(s, step))
  {
    assert Apply(s, step) == ApplySteal(s, step);
  }

  /** The deque refines an atomic FIFO queue, step by step. */
  lemma StepRefinesQueue<T>(s: State<T>, step: Step<T>)
    requires Inv(s) && Fits(s) && Enabled(s, step)
    ensures Inv(Apply(s, step)) && QueueStep(s, step, Apply(s, step))
  {
    StepKeepsInv(s, step);
    if IsPush(step) {
      PushOnQueue(s, step);
    } else {
      match step
      case LoadProduced(tid) => LoadOnQueue(s, tid);
      case CompareExchange(tid) => ExchangeOnQueue(s, tid);
      case _ => OtherOnQueue(s, step);
    }
  }

  lemma SingleItemStepFits<T>(s: State<T>, step: Step<T>)
    requires Inv(s) && Fits(s) && Enabled(s, step) && Apply(s, step).WellFormed()
    requires s.pusher.Resting? || |s.pusher.task| <= 1
    requires step.BeginPush? ==> |step.task| <= 1
    ensures Fits(Apply(s, step))
    ensures Apply(s, step).pusher.Resting? || |Apply(s, step).pusher.task| <= 1
  {
    if IsPush(step) {
      assert Apply(s, step) == ApplyPush(s, step);
    } else if step.CompareExchange? {
      assert StealerInv(s, s.stealers[step.tid]);
    }
  }

  /** Pushing one item at a time always fits, so for such producers the hypothesis above is free. */
  lemma {:induction false} SingleItemPushesFit<T>(states: seq<State<T>>, steps: seq<Step<T>>, n: nat)
    requires IsRun(states, steps) && n <= |steps|
    requires forall i :: 0 <= i < |steps| && steps[i].BeginPush? ==> |steps[i].task| <= 1
    ensures AllFit(states[..n + 1])
    ensures Inv(states[n])
    ensures states[n].pusher.Resting? || |states[n].pusher.task| <= 1
  {
    if n > 0 {
      SingleItemPushesFit(states, steps, n - 1);
      var s, step, t := states[n - 1], steps[n - 1], states[n];
      assert s == states[..n][n - 1];
      StepKeepsInv(s, step);
      SingleItemStepFits(s, step);
      assert states[..n + 1] == states[..n] + [t];
    }
  }

  // ---------------------------------------------------------------- pushes that do not fit

  /** From `s`, copying the first `n` items of the batch leads to a ring with those items written. */
  lemma {:induction false} WritesComplete<T>(s: State<T>, n: nat)
    returns (states: seq<State<T>>, steps: seq<Step<T>>)
    requires s.WellFormed() && s.pusher.Writing? && s.pusher.written == {}
    requires n <= |s.pusher.task| <= |s.Ring()|
    ensures IsPath(states, steps) && states[0] == s
    ensures var t := states[|steps|];
      t.pusher.Writing? && t.pusher.task == s.pusher.task
      && (forall k :: 0 <= k < n ==> k in t.pusher.written)
      && t == s.(pusher := t.pusher, buffers := s.buffers[s.current := Written(s.Ring(), s.produced, s.pusher.task[..n])])
  {
    if n == 0 {
      states, steps := [s], [];
      assert s.buffers[s.current := s.Ring()] == s.buffers;
    } else {
      states, steps := WritesComplete(s, n - 1);
      var mid := states[|steps|];
      assert s.pusher.task[..n][..n - 1] == s.pusher.task[..n - 1];
      var t := ApplyPush(mid, WriteItem(n - 1));
      ExtendPath(states, steps, WriteItem(n - 1), t);
      states, steps := states + [t], steps + [WriteItem(n - 1)];
    }
  }

  lemma ExtendPath<T>(states: seq<State<T>>, steps: seq<Step<T>>, step: Step<T>, t: State<T>)
    requires IsPath(states, steps) && states[|steps|].WellFormed() && Enabled(states[|steps|], step)
    requires t == Apply(states[|steps|], step)
    ensures IsPath(states + [t], steps + [step])
  {
  }

  /** A stealer that starts now and meets no interference gets as far as the front slot of the ring. */
  lemma UndisturbedLoads<T>(s: State<T>, tid: nat)
    returns (states: seq<State<T>>, steps: seq<Step<T>>)
    requires s.WellFormed() && s.consumed < s.produced && tid !in s.stealers
    ensures IsPath(states, steps) && states[0] == s
    ensures states[|steps|] == s.(stealers := s.stealers[tid := Copying(s.consumed, 1, s.current, map[])])
  {
    var s1 := ApplySteal(s, LoadFront(tid, One));
    var s2 := ApplySteal(s1, LoadProduced(tid));
    var s3 := ApplySteal(s2, LoadBuffer(tid));
    states := [s, s1, s2, s3];
    steps := [LoadFront(tid, One), LoadProduced(tid), LoadBuffer(tid)];
    assert s3.stealers == s.stealers[tid := Copying(s.consumed, 1, s.current, map[])];
  }

  /** It then holds a copy of whatever that slot holds. */
  lemma UndisturbedCopy<T>(s: State<T>, tid: nat)
    returns (states: seq<State<T>>, steps: seq<Step<T>>)
    requires s.WellFormed() && s.consumed < s.produced && tid !in s.stealers
    ensures IsPath(states, steps) && states[0] == s
    ensures var x := s.Ring()[At(|s.Ring()|, s.consumed)];
      states[|steps|] == s.(stealers := s.stealers[tid := Checked(s.consumed, 1, map[0 := x])])
  {
    states, steps := UndisturbedLoads(s, tid);
    var x := s.Ring()[At(|s.Ring()|, s.consumed)];
    StealOffsetIsSlot(|s.Ring()|, s.consumed, 1, 0);
    var s3 := states[|steps|];
    var s4 := ApplySteal(s3, CopyItem(tid, 0, x));
    ExtendPath(states, steps, CopyItem(tid, 0, x), s4);
    states, steps := states + [s4], steps + [CopyItem(tid, 0, x)];
    var s5 := ApplySteal(s4, RecheckBuffer(tid));
    ExtendPath(states, steps, RecheckBuffer(tid), s5);
    states, steps := states + [s5], steps + [RecheckBuffer(tid)];
    assert s5.stealers == s.stealers[tid := Checked(s.consumed, 1, map[0 := x])];
  }

  /** Its exchange then succeeds and hands that item out. */
  lemma UndisturbedSteal<T>(s: State<T>, tid: nat)
    returns (states: seq<State<T>>, steps: seq<Step<T>>)
    requires s.WellFormed() && s.consumed < s.produced && tid !in s.stealers
    ensures IsPath(states, steps) && states[0] == s
    ensures states[|steps|].consumed == s.consumed + 1 && states[|steps|].pushed == s.pushed
    ensures states[|steps|].steals == s.steals + [(tid, [s.Ring()[At(|s.Ring()|, s.consumed)]])]
  {
    states, steps := UndisturbedCopy(s, tid);
    var last := states[|steps|];
    var t := ApplySteal(last, CompareExchange(tid));
    assert Items(1, last.stealers[tid].dest) == [s.Ring()[At(|s.Ring()|, s.consumed)]];
    ExtendPath(states, steps, CompareExchange(tid), t);
    states, steps := states + [t], steps + [CompareExchange(tid)];
  }

  /** Completing an overfull batch of new items leaves a ring whose front slot is wrong. */
  lemma OverfullPushOverwritesFront<T>(s: State<T>)
    returns (states: seq<State<T>>, steps: seq<Step<T>>)
    requires Inv(s) && s.pusher.Writing? && s.pusher.written == {} && |s.pusher.task| <= |s.Ring()|
    requires !Fits(s)
    requires forall i :: s.consumed <= i < s.produced ==> s.pushed[i] !in s.pusher.task
    ensures IsPath(states, steps) && states[0] == s
    ensures var t := states[|steps|];
      && t.WellFormed() && t.consumed == s.consumed < t.produced == |t.pushed|
      && t.stealers == s.stealers && t.steals == s.steals
      && s.pushed <= t.pushed
      && t.Ring()[At(|t.Ring()|, t.consumed)] != t.pushed[t.consumed]
  {
    var n := |s.pusher.task|;
    states, steps := WritesComplete(s, n);
    var mid := states[|steps|];
    assert s.pusher.task[..n] == s.pusher.task;
    OverfullBatchLosesOldest(s.Ring(), s.consumed, s.produced, s.pusher.task);
    var t := ApplyPush(mid, StoreProduced);
    ExtendPath(states, steps, StoreProduced, t);
    states, steps := states + [t], steps + [StoreProduced];
  }

  lemma JoinPaths<T>(states1: seq<State<T>>, steps1: seq<Step<T>>, states2: seq<State<T>>, steps2: seq<Step<T>>)
    requires IsPath(states1, steps1) && IsPath(states2, steps2) && states1[|steps1|] == states2[0]
    ensures IsPath(states1 + states2[1..], steps1 + steps2)
  {
    var states, steps := states1 + states2[1..], steps1 + steps2;
    forall i | 0 <= i < |steps|
      ensures states[i].WellFormed() && Enabled(states[i], steps[i]) && states[i + 1] == Apply(states[i], steps[i])
    {
      if i >= |steps1| {
        assert states[i] == states2[i - |steps1|] && steps[i] == steps2[i - |steps1|];
      }
    }
  }

  /**
   The hypothesis cannot be dropped: wherever the pusher starts to copy a batch of new items that
   does not fit, some continuation hands out an item that was not the next one pushed.
   */
  lemma OverfullPushHandsOutWrongItem<T>(s: State<T>, tid: nat)
    returns (states: seq<State<T>>, steps: seq<Step<T>>)
    requires Inv(s) && s.pusher.Writing? && s.pusher.written == {} && |s.pusher.task| <= |s.Ring()|
    requires !Fits(s) && tid !in s.stealers
    requires forall i :: s.consumed <= i < s.produced ==> s.pushed[i] !in s.pusher.task
    ensures IsPath(states, steps) && states[0] == s
    ensures var t := states[|steps|];
      t.consumed == s.consumed + 1 <= |t.pushed| && Stolen(t.steals) != t.pushed[..t.consumed]
  {
    var states1, steps1 := OverfullPushOverwritesFront(s);
    var t := states1[|steps1|];
    var states2, steps2 := UndisturbedSteal(t, tid);
    JoinPaths(states1, steps1, states2, steps2);
    states, steps := states1 + states2[1..], steps1 + steps2;
    var x := t.Ring()[At(|t.Ring()|, t.consumed)];
    assert (t.steals + [(tid, [x])])[..|t.steals|] == t.steals;
    assert Stolen(t.steals + [(tid, [x])])[t.consumed] == x;
  }

  /** A new deque on the given slots. */
  function Fresh<T>(slots: seq<T>): State<T>
  {
    State(0, 0, [slots], 0, 0, Resting, map[], [], [])
  }

  lemma FreshIsValid<T>(slots: seq<T>)
    requires |slots| == MIN_CAP
    ensures Init(Fresh(slots)) && Inv(Fresh(slots))
  {
  }

  /** The push of a single item onto a new deque. */
  lemma OneItemPushed<T>(slots: seq<T>, x: T) returns (states: seq<State<T>>, steps: seq<Step<T>>)
    requires |slots| == MIN_CAP
    ensures IsPath(states, steps) && states[0] == Fresh(slots)
    ensures var s := states[|steps|];
      && Inv(s) && s.pusher.Resting? && |s.Ring()| == MIN_CAP
      && s.consumed == s.cachedCons == 0 && s.stealers == map[] && s.pushed == [x]
  {
    var s0 := Fresh(slots);
    FreshIsValid(slots);
    var s1 := s0.(pusher := Writing([x], {}));
    assert s1 == ApplyPush(s0, BeginPush([x]));
    StepKeepsInv(s0, BeginPush([x]));
    ExtendPath([s0], [], BeginPush([x]), s1);
    var s2 := ApplyPush(s1, WriteItem(0));
    StepKeepsInv(s1, WriteItem(0));
    ExtendPath([s0] + [s1], [] + [BeginPush([x])], WriteItem(0), s2);
    var s3 := ApplyPush(s2, StoreProduced);
    StepKeepsInv(s2, StoreProduced);
    ExtendPath([s0] + [s1] + [s2], [] + [BeginPush([x])] + [WriteItem(0)], StoreProduced, s3);
    states, steps := [s0] + [s1] + [s2] + [s3], [] + [BeginPush([x])] + [WriteItem(0)] + [StoreProduced];
  }

  /** A run to a batch that does not fit: one item, then as many others as the ring has slots. */
  lemma OverfullPushIsReachable<T>(slots: seq<T>, x: T, y: T) returns (states: seq<State<T>>, steps: seq<Step<T>>)
    requires |slots| == MIN_CAP && x != y
    ensures IsPath(states, steps) && states[0] == Fresh(slots)
    ensures var s := states[|steps|];
      && Inv(s) && s.pusher.Writing? && s.pusher.written == {} && |s.pusher.task| <= |s.Ring()|
      && !Fits(s) && s.stealers == map[] && s.pushed == [x] && x !in s.pusher.task
  {
    var batch := seq(MIN_CAP, _ => y);
    states, steps := OneItemPushed(slots, x);
    var s := states[|steps|];
    var t := s.(pusher := Writing(batch, {}));
    assert t == ApplyPush(s, BeginPush(batch));
    StepKeepsInv(s, BeginPush(batch));
    ExtendPath(states, steps, BeginPush(batch), t);
    states, steps := states + [t], steps + [BeginPush(batch)];
  }

  /** So there is a run of a new deque whose steals are not the items pushed first. */
  lemma SomeRunHandsOutWrongItem<T>(slots: seq<T>, x: T, y: T) returns (states: seq<State<T>>, steps: seq<Step<T>>)
    requires |slots| == MIN_CAP && x != y
    ensures IsRun(states, steps)
    ensures var s, pushed := states[|steps|], Completed(steps, |steps|).0;
      s.consumed <= |pushed| && Stolen(s.steals) != pushed[..s.consumed]
  {
    var states1, steps1 := OverfullPushIsReachable(slots, x, y);
    var states2, steps2 := OverfullPushHandsOutWrongItem(states1[|steps1|], 0);
    JoinPaths(states1, steps1, states2, steps2);
    FreshIsValid(slots);
    states, steps := states1 + states2[1..], steps1 + steps2;
    assert states[|steps|] == states2[|steps2|];
    PushedIsCompleted(states, steps, |steps|);
  }
}
