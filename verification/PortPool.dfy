/**
 The recycled pool of per-address states: a bounded queue of free states, the map of states in use,
 and the states in the hands of a thread between two accesses to the shared structures. Threads
 interleave at every access, so a state can be replaced or removed while another thread acts on it.
 */
module PortPool {
  type Addr = nat
  type Tid = nat
  type Id = nat   // the identity of one boxed state

  datatype Pool = Pool(
    capacity: nat,            // max_in_flight
    free: seq<Id>,            // allocated_states
    mapped: map<Addr, Id>,    // states
    hands: map<Tid, Id>,      // owned by a thread: a guard's state, or one on its way back
    failed: bool)             // some push(...).unwrap() met a full queue

  datatype Step =
    | Take(tid: Tid)                   // guard: pop a free state
    | Abandon(tid: Tid)                // a guard dropped before generating
    | Insert(tid: Tid, addr: Addr)     // generate: map the state, taking out the one it replaces
    | Remove(tid: Tid, addr: Addr)     // remove_state and expire: take the state out of the map
    | GiveBack(tid: Tid)               // push the state in hand, if any, back onto the queue

  predicate Enabled(s: Pool, step: Step)
  {
    match step
    case Take(tid) => tid !in s.hands
    case Remove(tid, _) => tid !in s.hands
    case _ => step.tid in s.hands
  }

  function Apply(s: Pool, step: Step): Pool
    requires Enabled(s, step)
  {
    match step
    case Take(tid) =>
      if s.free == [] then s else s.(free := s.free[1..], hands := s.hands[tid := s.free[0]])
    case Abandon(tid) => s.(hands := s.hands - {tid})
    case Insert(tid, addr) =>
      s.(mapped := s.mapped[addr := s.hands[tid]],
         hands := if addr in s.mapped then s.hands[tid := s.mapped[addr]] else s.hands - {tid})
    case Remove(tid, addr) =>
      if addr in s.mapped then s.(mapped := s.mapped - {addr}, hands := s.hands[tid := s.mapped[addr]]) else s
    case GiveBack(tid) =>
      if |s.free| < s.capacity then s.(free := s.free + [s.hands[tid]], hands := s.hands - {tid})
      else s.(failed := true, hands := s.hands - {tid})
  }

  ghost predicate Init(s: Pool)
  {
    s.mapped == map[] && s.hands == map[] && !s.failed && s.free == seq(s.capacity, i => i)
  }

  ghost predicate IsRun(states: seq<Pool>, steps: seq<Step>)
  {
    && |states| == |steps| + 1 && Init(states[0])
    && forall i :: 0 <= i < |steps| ==> Enabled(states[i], steps[i]) && states[i + 1] == Apply(states[i], steps[i])
  }

  /** Where a state may be. */
  datatype Place = Free(i: nat) | Mapped(addr: Addr) | Held(tid: Tid)

  predicate At(s: Pool, place: Place, id: Id)
  {
    match place
    case Free(i) => i < |s.free| && s.free[i] == id
    case Mapped(addr) => addr in s.mapped && s.mapped[addr] == id
    case Held(tid) => tid in s.hands && s.hands[tid] == id
  }

  /** How many states there are. */
  function Total(s: Pool): nat
  {
    |s.free| + |s.mapped| + |s.hands|
  }

  /** Every state is in one place only, and together they are no more than were allocated. */
  ghost predicate Inv(s: Pool)
  {
    !s.failed && Total(s) <= s.capacity && Apart(s)
  }

  ghost predicate Apart(s: Pool)
  {
    forall p, q, id :: At(s, p, id) && At(s, q, id) ==> p == q
  }

  lemma SizeAfterInsert<K, V>(m: map<K, V>, k: K, v: V)
    ensures |m[k := v]| == |m| + if k in m then 0 else 1
  {
    assert m[k := v].Keys == m.Keys + {k};
  }

  lemma SizeAfterRemove<K, V>(m: map<K, V>, k: K)
    requires k in m
    ensures |m - {k}| == |m| - 1
  {
    assert (m - {k}).Keys == m.Keys - {k};
  }

  /** Where a place of the new state was before the step. */
  ghost function Before(s: Pool, step: Step, place: Place): Place
    requires Enabled(s, step)
  {
    match step
    case Take(tid) =>
      if s.free == [] then place
      else if place.Free? then Free(place.i + 1) else if place == Held(tid) then Free(0) else place
    case Abandon(_) => place
    case Insert(tid, addr) =>
      if place == Mapped(addr) then Held(tid) else if place == Held(tid) then Mapped(addr) else place
    case Remove(tid, addr) => if place == Held(tid) then Mapped(addr) else place
    case GiveBack(tid) => if place == Free(|s.free|) then Held(tid) else place
  }

  lemma StepMovesStates(s: Pool, step: Step, place: Place, id: Id)
    requires Enabled(s, step) && At(Apply(s, step), place, id)
    ensures At(s, Before(s, step, place), id)
  {
  }

  lemma NoTwoMoveToOne(s: Pool, step: Step, p: Place, q: Place, id: Id)
    requires Enabled(s, step) && At(Apply(s, step), p, id) && At(Apply(s, step), q, id)
    ensures Before(s, step, p) == Before(s, step, q) ==> p == q
  {
  }

  lemma StepKeepsApart(s: Pool, step: Step)
    requires Apart(s) && Enabled(s, step)
    ensures Apart(Apply(s, step))
  {
    var t := Apply(s, step);
    forall p, q, id | At(t, p, id) && At(t, q, id) ensures p == q {
      StepMovesStates(s, step, p, id);
      StepMovesStates(s, step, q, id);
      NoTwoMoveToOne(s, step, p, q, id);
    }
  }

  lemma TakeKeepsInv(s: Pool, tid: Tid)
    requires Inv(s) && Enabled(s, Take(tid))
    ensures Inv(Apply(s, Take(tid))) && Total(Apply(s, Take(tid))) == Total(s)
  {
    StepKeepsApart(s, Take(tid));
    if s.free != [] {
      SizeAfterInsert(s.hands, tid, s.free[0]);
    }
  }

  lemma AbandonKeepsInv(s: Pool, tid: Tid)
    requires Inv(s) && Enabled(s, Abandon(tid))
    ensures Inv(Apply(s, Abandon(tid))) && Total(Apply(s, Abandon(tid))) == Total(s) - 1
  {
    StepKeepsApart(s, Abandon(tid));
    SizeAfterRemove(s.hands, tid);
  }

  lemma InsertKeepsInv(s: Pool, tid: Tid, addr: Addr)
    requires Inv(s) && Enabled(s, Insert(tid, addr))
    ensures Inv(Apply(s, Insert(tid, addr))) && Total(Apply(s, Insert(tid, addr))) == Total(s)
  {
    StepKeepsApart(s, Insert(tid, addr));
    SizeAfterInsert(s.mapped, addr, s.hands[tid]);
    if addr in s.mapped {
      SizeAfterInsert(s.hands, tid, s.mapped[addr]);
    } else {
      SizeAfterRemove(s.hands, tid);
    }
  }

  lemma RemoveKeepsInv(s: Pool, tid: Tid, addr: Addr)
    requires Inv(s) && Enabled(s, Remove(tid, addr))
    ensures Inv(Apply(s, Remove(tid, addr))) && Total(Apply(s, Remove(tid, addr))) == Total(s)
  {
    StepKeepsApart(s, Remove(tid, addr));
    if addr in s.mapped {
      SizeAfterRemove(s.mapped, addr);
      SizeAfterInsert(s.hands, tid, s.mapped[addr]);
    }
  }

  lemma GiveBackKeepsInv(s: Pool, tid: Tid)
    requires Inv(s) && Enabled(s, GiveBack(tid))
    ensures Inv(Apply(s, GiveBack(tid))) && Total(Apply(s, GiveBack(tid))) == Total(s)
  {
    StepKeepsApart(s, GiveBack(tid));
    SizeAfterRemove(s.hands, tid);
  }

  lemma StepKeepsInv(s: Pool, step: Step)
    requires Inv(s) && Enabled(s, step)
    ensures Inv(Apply(s, step)) && Apply(s, step).capacity == s.capacity
    ensures Total(Apply(s, step)) == Total(s) - if step.Abandon? then 1 else 0
  {
    match step
    case Take(tid) => TakeKeepsInv(s, tid);
    case Abandon(tid) => AbandonKeepsInv(s, tid);
    case Insert(tid, addr) => InsertKeepsInv(s, tid, addr);
    case Remove(tid, addr) => RemoveKeepsInv(s, tid, addr);
    case GiveBack(tid) => GiveBackKeepsInv(s, tid);
  }

  /** Where each access puts the states it moves. */
  lemma StepDelivers(s: Pool, step: Step)
    requires Inv(s) && Enabled(s, step)
    ensures var t := Apply(s, step);
      match step
      case Take(tid) => s.free != [] ==> At(t, Held(tid), s.free[0]) && t.free == s.free[1..]
      case Abandon(tid) => tid !in t.hands
      case Insert(tid, addr) =>
        At(t, Mapped(addr), s.hands[tid]) && (if addr in s.mapped then At(t, Held(tid), s.mapped[addr]) else tid !in t.hands)
      case Remove(tid, addr) => addr !in t.mapped && (addr in s.mapped ==> At(t, Held(tid), s.mapped[addr]))
      case GiveBack(tid) => At(t, Free(|s.free|), s.hands[tid]) && tid !in t.hands
  {
    if step.GiveBack? {
      SizeAfterRemove(s.hands, step.tid);
    }
  }

  /**
   In every interleaving free, mapped and held states never exceed `max_in_flight` and no state is in
   two places, so returning a state to the queue never fails.
   */
  lemma {:induction false} GivingBackNeverFails(states: seq<Pool>, steps: seq<Step>, n: nat)
    requires IsRun(states, steps) && n <= |steps|
    ensures Inv(states[n]) && states[n].capacity == states[0].capacity
  {
    if n > 0 {
      GivingBackNeverFails(states, steps, n - 1);
      StepKeepsInv(states[n - 1], steps[n - 1]);
    }
  }

  /** How many guards were dropped before generating. */
  function Abandoned(steps: seq<Step>): nat
  {
    if steps == [] then 0 else Abandoned(steps[..|steps| - 1]) + if steps[|steps| - 1].Abandon? then 1 else 0
  }

  /** No state is lost but with a guard that is dropped before generating, one with each. */
  lemma {:induction false} OnlyAbandonedStatesAreLost(states: seq<Pool>, steps: seq<Step>, n: nat)
    requires IsRun(states, steps) && n <= |steps|
    ensures Total(states[n]) + Abandoned(steps[..n]) == states[0].capacity
  {
    if n > 0 {
      OnlyAbandonedStatesAreLost(states, steps, n - 1);
      GivingBackNeverFails(states, steps, n - 1);
      StepKeepsInv(states[n - 1], steps[n - 1]);
      assert steps[..n][..n - 1] == steps[..n - 1];
    }
  }
}
