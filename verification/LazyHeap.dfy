/**
 The lazy-deletion max-heap: an update leaves the outdated entry in `current` and remembers it in
 `stale`; outdated entries are cancelled when they reach the top.

 A binary heap is taken as a multiset with a maximum, ordered by value and then by key.
 */
module LazyHeap {
  import opened Wrappers

  datatype Entry = Entry(value: real, key: nat)

  predicate Below(a: Entry, b: Entry)
  {
    a.value < b.value || (a.value == b.value && a.key <= b.key)
  }

  ghost predicate IsMaximum(top: Entry, heap: multiset<Entry>)
  {
    top in heap && forall e :: e in heap ==> Below(e, top)
  }

  /** What peeking at a binary heap yields. */
  ghost predicate Tops(top: Option<Entry>, heap: multiset<Entry>)
  {
    match top
    case None => heap == multiset{}
    case Some(e) => IsMaximum(e, heap)
  }

  /** The largest entry of a binary heap. */
  method Peek(heap: multiset<Entry>) returns (top: Option<Entry>)
    ensures Tops(top, heap)
  {
    if heap == multiset{} {
      return None;
    }
    var best :| best in heap;
    var rest := heap - multiset{best};
    while rest != multiset{}
      invariant best in heap
      invariant forall e :: e in rest ==> e in heap
      invariant forall e :: e in heap ==> e in rest || Below(e, best)
      decreases |rest|
    {
      var next :| next in rest;
      rest := rest - multiset{next};
      if !Below(next, best) {
        assert forall e :: Below(e, best) ==> Below(e, next);
        best := next;
      }
    }
    top := Some(best);
  }

  /** The entries that count: one per key, with its current value. */
  ghost function Live(values: map<nat, real>): multiset<Entry>
  {
    multiset(set k | k in values :: Entry(values[k], k))
  }

  lemma LiveMultiplicity(values: map<nat, real>, e: Entry)
    ensures Live(values)[e] == if e.key in values && values[e.key] == e.value then 1 else 0
  {
  }

  /** `key` is the answer of a plain scan of the map: the largest value, then the largest key. */
  ghost predicate IsArgMax(values: map<nat, real>, key: nat)
  {
    key in values && forall k :: k in values ==> Below(Entry(values[k], k), Entry(values[key], key))
  }

  lemma ArgMaxUnique(values: map<nat, real>, a: nat, b: nat)
    requires IsArgMax(values, a) && IsArgMax(values, b)
    ensures a == b
  {
  }

  lemma UpdateKeepsBalance(values: map<nat, real>, current: multiset<Entry>, stale: multiset<Entry>, key: nat, value: real)
    requires current == stale + Live(values)
    ensures var outdated := if key in values then multiset{Entry(values[key], key)} else multiset{};
      current + multiset{Entry(value, key)} == stale + outdated + Live(values[key := value])
  {
    var outdated := if key in values then multiset{Entry(values[key], key)} else multiset{};
    forall e
      ensures (current + multiset{Entry(value, key)})[e] == (stale + outdated + Live(values[key := value]))[e]
    {
      LiveMultiplicity(values, e);
      LiveMultiplicity(values[key := value], e);
    }
  }

  lemma RemovalKeepsBalance(values: map<nat, real>, current: multiset<Entry>, stale: multiset<Entry>, key: nat)
    requires current == stale + Live(values) && key in values
    ensures current - multiset{Entry(values[key], key)} == stale + Live(values - {key})
  {
    forall e
      ensures (current - multiset{Entry(values[key], key)})[e] == (stale + Live(values - {key}))[e]
    {
      LiveMultiplicity(values, e);
      LiveMultiplicity(values - {key}, e);
    }
  }

  lemma CancelKeepsBalance(live: multiset<Entry>, current: multiset<Entry>, stale: multiset<Entry>, e: Entry)
    requires current == stale + live && e in stale
    ensures current - multiset{e} == stale - multiset{e} + live
    ensures |current - multiset{e}| < |current|
  {
  }

  /** Drops equal tops from both heaps until they differ; what they hold beyond each other stays. */
  method Cancel(current: multiset<Entry>, stale: multiset<Entry>, ghost live: multiset<Entry>)
    returns (current': multiset<Entry>, stale': multiset<Entry>, top: Option<Entry>, outdated: Option<Entry>)
    requires current == stale + live
    ensures current' == stale' + live
    ensures Tops(top, current') && Tops(outdated, stale')
    ensures top.None? || top != outdated
  {
    current', stale' := current, stale;
    top := Peek(current');
    outdated := Peek(stale');
    while top.Some? && outdated.Some? && top.value == outdated.value
      invariant current' == stale' + live
      invariant Tops(top, current') && Tops(outdated, stale')
      decreases |current'|
    {
      CancelKeepsBalance(live, current', stale', top.value);
      current' := current' - multiset{top.value};
      stale' := stale' - multiset{top.value};
      top := Peek(current');
      outdated := Peek(stale');
    }
  }

  /** Once the two tops differ, the top of `current` is live and is the maximum of the map. */
  lemma SettledTopIsArgMax(values: map<nat, real>, current: multiset<Entry>, stale: multiset<Entry>,
                           top: Option<Entry>, outdated: Option<Entry>)
    requires current == stale + Live(values)
    requires Tops(top, current) && Tops(outdated, stale)
    requires top.None? || top != outdated
    ensures top.None? <==> values == map[]
    ensures top.Some? ==> IsArgMax(values, top.value.key) && values[top.value.key] == top.value.value
  {
    forall k | k in values ensures top.Some? && Below(Entry(values[k], k), top.value) {
      LiveMultiplicity(values, Entry(values[k], k));
      assert Entry(values[k], k) in current;
    }
    if top.Some? {
      assert outdated.Some? ==> outdated.value in current;
      LiveMultiplicity(values, top.value);
    }
  }

  class Heap {
    var values: map<nat, real>
    var current: multiset<Entry>
    var stale: multiset<Entry>

    /** Every entry of `current` is either outdated or the live entry of its key. */
    ghost predicate Valid()
      reads this
    {
      current == stale + Live(values)
    }

    constructor ()
      ensures Valid() && values == map[]
    {
      values, current, stale := map[], multiset{}, multiset{};
    }

    /** Cancels outdated entries off the top, leaving the map alone. */
    method Settle() returns (top: Option<Entry>)
      requires Valid()
      modifies this`current, this`stale
      ensures Valid()
      ensures top.None? <==> values == map[]
      ensures Tops(top, current)
      ensures top.Some? ==> IsArgMax(values, top.value.key) && values[top.value.key] == top.value.value
    {
      var outdated;
      current, stale, top, outdated := Cancel(current, stale, Live(values));
      SettledTopIsArgMax(values, current, stale, top, outdated);
    }

    /** The key a scan of the map would pick. */
    method Top() returns (key: Option<nat>)
      requires Valid()
      modifies this`current, this`stale
      ensures Valid()
      ensures key.None? <==> values == map[]
      ensures key.Some? ==> IsArgMax(values, key.value)
    {
      var top := Settle();
      key := if top.Some? then Some(top.value.key) else None;
    }

    /** Removes exactly the key `Top` would return. */
    method Pop() returns (ghost key: nat)
      requires Valid()
      modifies this
      ensures Valid()
      ensures old(values) == map[] ==> values == map[]
      ensures old(values) != map[] ==> IsArgMax(old(values), key) && values == old(values) - {key}
    {
      key := 0;
      var top := Settle();
      if top.Some? {
        key := top.value.key;
        RemovalKeepsBalance(values, current, stale, key);
        current := current - multiset{top.value};
        values := values - {top.value.key};
      }
    }

    method Query(key: nat) returns (value: Option<real>)
      ensures value == if key in values then Some(values[key]) else None
    {
      value := if key in values then Some(values[key]) else None;
    }

    method Update(key: nat, value: real)
      requires Valid()
      modifies this
      ensures Valid() && values == old(values)[key := value]
    {
      UpdateKeepsBalance(values, current, stale, key, value);
      if key in values {
        stale := stale + multiset{Entry(values[key], key)};
      }
      values := values[key := value];
      current := current + multiset{Entry(value, key)};
    }

    method Clear()
      modifies this
      ensures Valid() && values == map[]
    {
      stale, current, values := multiset{}, multiset{}, map[];
    }
  }
}
