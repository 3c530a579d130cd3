/**
 Address generation: a permuted sweep over the compiled ranges and an exploit path that draws from
 the hottest /24, sharing one bitmap per /24.
 */
module IpAdapter {
  import opened Wrappers
  import opened Sets
  import opened Prefix
  import Ranges
  import LazyHeap

  type Address = nat   // a 32-bit address as a number

  /** The /24 of an address, and its place in it. */
  function PrefixOf(a: Address): nat { a / 256 }
  function OffsetOf(a: Address): (o: nat) ensures o < 256 { a % 256 }

  function Join(prefix: nat, offset: nat): (a: Address)
    requires offset < 256
    ensures PrefixOf(a) == prefix && OffsetOf(a) == offset
  {
    prefix * 256 + offset
  }

  // ---------------------------------------------------------------- scope and bookkeeping

  ghost predicate InScope(ranges: seq<Ranges.Range>, a: Address)
  {
    a < 0x1_0000_0000 && Ranges.Covers(ranges, a as Ranges.u32)
  }

  /** Some address of the /24 is in scope. */
  ghost predicate Touches(ranges: seq<Ranges.Range>, prefix: nat)
  {
    exists a: Address :: InScope(ranges, a) && PrefixOf(a) == prefix
  }

  /** The bitmap of a /24, created on first use. */
  function Lookup(actives: map<nat, PrefixState>, prefix: nat): PrefixState
  {
    if prefix in actives then actives[prefix] else New()
  }

  ghost predicate Marked(actives: map<nat, PrefixState>, a: Address)
  {
    var s := Lookup(actives, PrefixOf(a));
    Valid(s) && !IsUnscanned(s, OffsetOf(a))
  }

  /** No address was returned twice, and the bitmaps mark exactly the returned addresses. */
  ghost predicate Faithful(actives: map<nat, PrefixState>, returned: seq<Address>)
  {
    && (forall p :: p in actives ==> Valid(actives[p]))
    && Distinct(returned)
    && (forall a: Address :: a in returned <==> Marked(actives, a))
  }

  /** Every /24 with an unscanned address is on offer to the exploit path. */
  ghost predicate Offered(actives: map<nat, PrefixState>, values: map<nat, real>)
  {
    forall p :: p in actives && actives[p].remaining > 0 ==> p in values
  }

  /** Every /24 in use has an address in scope. */
  ghost predicate Aimed(ranges: seq<Ranges.Range>, actives: map<nat, PrefixState>, values: map<nat, real>)
  {
    forall p :: p in actives || p in values ==> Touches(ranges, p)
  }

  /** The address the sweep visits at step `i`. */
  ghost function SweepAt(ranges: seq<Ranges.Range>, permutation: seq<nat>, i: nat): Address
    requires Ranges.SortedDisjoint(ranges) && i < |permutation| == Ranges.Offset(ranges, |ranges|) && IsPermutation(permutation)
  {
    Ranges.Nth(ranges, |ranges|, permutation[i]) as nat
  }

  /** The sweep has passed its first `index` steps, so their addresses were returned. */
  ghost predicate SweptTo(ranges: seq<Ranges.Range>, permutation: seq<nat>, returned: seq<Address>, index: nat)
  {
    && Ranges.SortedDisjoint(ranges) && IsPermutation(permutation) && |permutation| == Ranges.Offset(ranges, |ranges|)
    && index <= |permutation|
    && forall i :: 0 <= i < index ==> SweepAt(ranges, permutation, i) in returned
  }

  /** Marking an address hands it out at most once and keeps the books. */
  lemma MarkIsFaithful(actives: map<nat, PrefixState>, returned: seq<Address>, a: Address)
    requires Faithful(actives, returned)
    ensures Valid(Lookup(actives, PrefixOf(a)))
    ensures var (t, already) := MarkScanned(Lookup(actives, PrefixOf(a)), OffsetOf(a));
      && (already <==> a in returned)
      && Faithful(actives[PrefixOf(a) := t], if already then returned else returned + [a])
  {
    NewIsEmpty();
    var p, o := PrefixOf(a), OffsetOf(a);
    var s := Lookup(actives, p);
    MarkSetsOneBit(s, o);
    var (t, already) := MarkScanned(s, o);
    assert already <==> Marked(actives, a);
    forall b: Address ensures Marked(actives[p := t], b) <==> Marked(actives, b) || b == a {
      assert PrefixOf(b) == p && OffsetOf(b) == o ==> b == a;
    }
  }

  /** Marking an unscanned address of a /24 hands out that address. */
  lemma PickIsFaithful(actives: map<nat, PrefixState>, returned: seq<Address>, p: nat, offset: nat)
    requires Faithful(actives, returned) && offset < 256 && Join.requires(p, offset)
    requires Valid(Lookup(actives, p)) && IsUnscanned(Lookup(actives, p), offset)
    ensures PrefixOf(Join(p, offset)) == p
    ensures Faithful(actives[p := MarkScanned(Lookup(actives, p), offset).0], returned + [Join(p, offset)])
  {
    MarkIsFaithful(actives, returned, Join(p, offset));
    MarkSetsOneBit(Lookup(actives, p), offset);
  }

  lemma SweepAdvances(ranges: seq<Ranges.Range>, permutation: seq<nat>, returned: seq<Address>, more: seq<Address>, index: nat)
    requires SweptTo(ranges, permutation, returned, index) && index < |permutation|
    requires forall a :: a in returned ==> a in more
    requires SweepAt(ranges, permutation, index) in more
    ensures SweptTo(ranges, permutation, more, index + 1)
  {
  }

  lemma SweepKept(ranges: seq<Ranges.Range>, permutation: seq<nat>, returned: seq<Address>, a: Address, index: nat)
    requires SweptTo(ranges, permutation, returned, index)
    ensures SweptTo(ranges, permutation, returned + [a], index)
  {
  }

  /** Of the /24s on offer with addresses left, none scores higher than `p`. */
  ghost predicate Hottest(actives: map<nat, PrefixState>, values: map<nat, real>, p: nat)
  {
    && Available(actives, values, p)
    && forall q :: Available(actives, values, q) ==> values[q] <= values[p]
  }

  ghost predicate Available(actives: map<nat, PrefixState>, values: map<nat, real>, p: nat)
  {
    p in values && Lookup(actives, p).remaining > 0
  }

  /** The heap has lost exhausted /24s only. */
  ghost predicate Trimmed(actives: map<nat, PrefixState>, before: map<nat, real>, values: map<nat, real>)
  {
    && (forall p :: p in values ==> p in before && values[p] == before[p])
    && (forall p :: Available(actives, before, p) ==> p in values)
  }

  lemma TopIsHottest(actives: map<nat, PrefixState>, before: map<nat, real>, values: map<nat, real>, p: nat)
    requires Trimmed(actives, before, values) && LazyHeap.IsArgMax(values, p) && Lookup(actives, p).remaining > 0
    ensures Hottest(actives, before, p)
  {
  }

  /** The sweep goes on at its first address that was not handed out before. */
  ghost predicate FirstUnreturned(ranges: seq<Ranges.Range>, permutation: seq<nat>, returned: seq<Address>,
                                  index: nat, k: nat)
    requires Ranges.SortedDisjoint(ranges) && |permutation| == Ranges.Offset(ranges, |ranges|) && IsPermutation(permutation)
  {
    && index <= k < |permutation| && !Given(ranges, permutation, returned, k)
    && SkippedTo(ranges, permutation, returned, index, k)
  }

  ghost predicate SkippedTo(ranges: seq<Ranges.Range>, permutation: seq<nat>, returned: seq<Address>, index: nat, k: nat)
    requires Ranges.SortedDisjoint(ranges) && |permutation| == Ranges.Offset(ranges, |ranges|) && IsPermutation(permutation)
  {
    forall j :: index <= j < k ==> Given(ranges, permutation, returned, j)
  }

  ghost predicate Given(ranges: seq<Ranges.Range>, permutation: seq<nat>, returned: seq<Address>, j: nat)
    requires Ranges.SortedDisjoint(ranges) && |permutation| == Ranges.Offset(ranges, |ranges|) && IsPermutation(permutation)
  {
    j < |permutation| ==> SweepAt(ranges, permutation, j) in returned
  }

  /** What the sweep gives from `index` on: its first address not handed out before, or nothing if all were. */
  ghost predicate SweepGives(ranges: seq<Ranges.Range>, permutation: seq<nat>, returned: seq<Address>, index: nat,
                             address: Option<Address>, index': nat)
    requires Ranges.SortedDisjoint(ranges) && |permutation| == Ranges.Offset(ranges, |ranges|) && IsPermutation(permutation)
  {
    match address
    case Some(a) =>
      index < index' && FirstUnreturned(ranges, permutation, returned, index, index' - 1)
      && a == SweepAt(ranges, permutation, index' - 1)
    case None => SkippedTo(ranges, permutation, returned, index, |permutation|)
  }

  lemma SweepAtInjective(ranges: seq<Ranges.Range>, permutation: seq<nat>, i: nat, j: nat)
    requires Ranges.SortedDisjoint(ranges) && |permutation| == Ranges.Offset(ranges, |ranges|) && IsPermutation(permutation)
    requires i < j < |permutation|
    ensures SweepAt(ranges, permutation, i) != SweepAt(ranges, permutation, j)
  {
    var k, l := permutation[i], permutation[j];
    if k < l {
      Ranges.NthIncreases(ranges, k, l);
    } else {
      Ranges.NthIncreases(ranges, l, k);
    }
  }

  /** Step `i` of the sweep is address `a`. */
  ghost predicate Reached(ranges: seq<Ranges.Range>, permutation: seq<nat>, i: nat, a: Address)
  {
    && Ranges.SortedDisjoint(ranges) && i < |permutation| == Ranges.Offset(ranges, |ranges|) && IsPermutation(permutation)
    && a == SweepAt(ranges, permutation, i)
  }

  /** Where a sweep stops at its first new address, everything before was handed out before. */
  lemma SweepStops(ranges: seq<Ranges.Range>, permutation: seq<nat>, before: seq<Address>, returned: seq<Address>, index: nat,
                   address: Option<Address>, index': nat, last: nat)
    requires SweptTo(ranges, permutation, returned, index') && Distinct(returned)
    requires match address
      case Some(a) => returned == before + [a] && index <= last && index' == last + 1 && Reached(ranges, permutation, last, a)
      case None => returned == before && index' == |permutation|
    ensures SweepGives(ranges, permutation, before, index, address, index')
  {
    if address.Some? {
      assert returned[|before|] == address.value;
      assert forall i :: 0 <= i < |before| ==> before[i] == returned[i];
      assert address.value !in before;
      forall j | index <= j < index' - 1 ensures Given(ranges, permutation, before, j) {
        SweepAtInjective(ranges, permutation, j, index' - 1);
        assert SweepAt(ranges, permutation, j) in returned;
      }
    }
  }

  /** A sweep that gives nothing has no address left to give. */
  ghost predicate SweepIsDone(ranges: seq<Ranges.Range>, permutation: seq<nat>, returned: seq<Address>, index: nat)
    requires Ranges.SortedDisjoint(ranges) && |permutation| == Ranges.Offset(ranges, |ranges|) && IsPermutation(permutation)
  {
    SkippedTo(ranges, permutation, returned, index, |permutation|)
  }

  ghost function Hits(since: seq<nat>, p: nat): nat
  {
    if since == [] then 0 else Hits(since[..|since| - 1], p) + if since[|since| - 1] == p then 1 else 0
  }

  lemma OneMoreHit(since: seq<nat>, p: nat, q: nat)
    ensures Hits(since + [p], q) == Hits(since, q) + if p == q then 1 else 0
  {
    assert (since + [p])[..|since|] == since;
  }

  /** The score of a /24: its historical hits, and one for each hit since. */
  ghost function Due(historicalHits: map<nat, nat>, since: seq<nat>, p: nat): real
  {
    (Hits(since, p) + if p in historicalHits then historicalHits[p] else 0) as real
  }

  /** Every score on offer is due, and a /24 with hits since is on offer unless it is exhausted. */
  ghost predicate Credited(historicalHits: map<nat, nat>, since: seq<nat>, actives: map<nat, PrefixState>,
                           values: map<nat, real>)
  {
    forall p :: CreditedAt(historicalHits, since, actives, values, p)
  }

  ghost predicate CreditedAt(historicalHits: map<nat, nat>, since: seq<nat>, actives: map<nat, PrefixState>,
                             values: map<nat, real>, p: nat)
  {
    && (p in values ==> values[p] == Due(historicalHits, since, p))
    && (Hits(since, p) > 0 && Lookup(actives, p).remaining > 0 ==> p in values)
  }

  /** Marking takes a /24 no nearer to having addresses left. */
  lemma MarkedIsCredited(historicalHits: map<nat, nat>, since: seq<nat>, actives: map<nat, PrefixState>,
                         values: map<nat, real>, p: nat, t: PrefixState)
    requires Credited(historicalHits, since, actives, values) && t.remaining <= Lookup(actives, p).remaining
    ensures Credited(historicalHits, since, actives[p := t], values)
  {
    var actives' := actives[p := t];
    forall q ensures CreditedAt(historicalHits, since, actives', values, q) {
      assert CreditedAt(historicalHits, since, actives, values, q);
    }
  }

  /** A /24 that is put on offer comes with the score it is due. */
  ghost function WithOffer(values: map<nat, real>, p: nat, score: nat): map<nat, real>
  {
    if p in values then values else values[p := score as real]
  }

  lemma OfferIsCredited(historicalHits: map<nat, nat>, since: seq<nat>, actives: map<nat, PrefixState>,
                        values: map<nat, real>, p: nat)
    requires Credited(historicalHits, since, actives, values) && Lookup(actives, p).remaining > 0
    ensures Credited(historicalHits, since, actives,
                     WithOffer(values, p, if p in historicalHits then historicalHits[p] else 0))
  {
    var values' := WithOffer(values, p, if p in historicalHits then historicalHits[p] else 0);
    forall q ensures CreditedAt(historicalHits, since, actives, values', q) {
      assert CreditedAt(historicalHits, since, actives, values, q);
    }
  }

  lemma DropIsCredited(historicalHits: map<nat, nat>, since: seq<nat>, actives: map<nat, PrefixState>,
                       values: map<nat, real>, p: nat)
    requires Credited(historicalHits, since, actives, values) && Lookup(actives, p).remaining == 0
    ensures Credited(historicalHits, since, actives, values - {p})
  {
    var values' := values - {p};
    forall q ensures CreditedAt(historicalHits, since, actives, values', q) {
      assert CreditedAt(historicalHits, since, actives, values, q);
    }
  }

  /** A hit adds one to the score of its /24, on offer or not. */
  lemma HitIsCredited(historicalHits: map<nat, nat>, since: seq<nat>, actives: map<nat, PrefixState>,
                      values: map<nat, real>, p: nat)
    requires Credited(historicalHits, since, actives, values) && Lookup(actives, p).remaining > 0
    ensures var score := (if p in values then values[p] else (if p in historicalHits then historicalHits[p] else 0) as real) + 1.0;
      Credited(historicalHits, since + [p], actives, values[p := score])
  {
    var score := (if p in values then values[p] else (if p in historicalHits then historicalHits[p] else 0) as real) + 1.0;
    var since', values' := since + [p], values[p := score];
    forall q ensures CreditedAt(historicalHits, since', actives, values', q) {
      OneMoreHit(since, p, q);
      assert CreditedAt(historicalHits, since, actives, values, q);
    }
  }

  /** All of `Offered` but for `p`. */
  ghost predicate OfferedBut(actives: map<nat, PrefixState>, values: map<nat, real>, p: nat)
  {
    forall q :: q in actives && q != p && actives[q].remaining > 0 ==> q in values
  }

  /** The books: the bitmaps mark what was returned, and the heap offers what is left at the scores due. */
  ghost predicate Booked(historicalHits: map<nat, nat>, since: seq<nat>, actives: map<nat, PrefixState>,
                         returned: seq<Address>, values: map<nat, real>)
  {
    Faithful(actives, returned) && Offered(actives, values) && Credited(historicalHits, since, actives, values)
  }

  /** What marking address `a` leaves of the books. */
  lemma MarkKeepsBooks(historicalHits: map<nat, nat>, since: seq<nat>, actives: map<nat, PrefixState>,
                       returned: seq<Address>, values: map<nat, real>, a: Address)
    requires Faithful(actives, returned) && Offered(actives, values) && Credited(historicalHits, since, actives, values)
    ensures Valid(Lookup(actives, PrefixOf(a)))
    ensures var p := PrefixOf(a);
      var (t, already) := MarkScanned(Lookup(actives, p), OffsetOf(a));
      && (already <==> a in returned)
      && Faithful(actives[p := t], if already then returned else returned + [a])
      && OfferedBut(actives[p := t], values, p) && Credited(historicalHits, since, actives[p := t], values)
      && (already ==> Offered(actives[p := t], values))
  {
    MarkIsFaithful(actives, returned, a);
    NewIsEmpty();
    var p := PrefixOf(a);
    var (t, already) := MarkScanned(Lookup(actives, p), OffsetOf(a));
    MarkedIsCredited(historicalHits, since, actives, values, p, t);
    if already {
      assert Marked(actives, a);
    }
  }

  /** What handing out an unscanned offset of a /24 on offer leaves of the books. */
  lemma PickKeepsBooks(historicalHits: map<nat, nat>, since: seq<nat>, actives: map<nat, PrefixState>,
                       returned: seq<Address>, values: map<nat, real>, p: nat, offset: nat)
    requires Booked(historicalHits, since, actives, returned, values) && p in values
    requires offset < 256 && Join.requires(p, offset)
    requires Valid(Lookup(actives, p)) && IsUnscanned(Lookup(actives, p), offset)
    ensures PrefixOf(Join(p, offset)) == p
    ensures var t := MarkScanned(Lookup(actives, p), offset).0;
      Booked(historicalHits, since, actives[p := t], returned + [Join(p, offset)], values)
  {
    PickIsFaithful(actives, returned, p, offset);
    MarkedIsCredited(historicalHits, since, actives, values, p, MarkScanned(Lookup(actives, p), offset).0);
  }

  lemma AimedMore(ranges: seq<Ranges.Range>, actives: map<nat, PrefixState>, values: map<nat, real>, p: nat, t: PrefixState,
                  score: nat)
    requires Touches(ranges, p)
    ensures Aimed(ranges, actives, values) ==>
      Aimed(ranges, actives[p := t], values) && Aimed(ranges, actives[p := t], WithOffer(values, p, score))
  {
  }

  class Adapter {
    const ranges: Ranges.Compiled
    const permutation: seq<nat>           // the perfect shuffle of 0..count, any bijection
    const historicalHits: map<nat, nat>   // by /24
    const heap: LazyHeap.Heap
    var actives: map<nat, PrefixState>

    ghost const scope: seq<Ranges.Range>
    ghost var returned: seq<Address>      // every address handed out, in order
    ghost var since: seq<nat>        // the /24s of the hits credited, in order

    ghost predicate Valid(index: nat)
      reads this, heap
    {
      && heap.Valid() && Ranges.Compiles(scope, ranges)
      && SweptTo(scope, permutation, returned, index)
      && Booked(historicalHits, since, actives, returned, heap.values)
    }

    constructor (scope: seq<Ranges.Range>, ranges: Ranges.Compiled, permutation: seq<nat>, historicalHits: map<nat, nat>)
      requires Ranges.SortedDisjoint(scope) && Ranges.Compiles(scope, ranges)
      requires IsPermutation(permutation) && |permutation| == ranges.count
      ensures Valid(0) && fresh(heap)
      ensures this.scope == scope && returned == [] && since == [] && Aimed(scope, actives, heap.values)
    {
      this.scope, this.ranges, this.permutation, this.historicalHits := scope, ranges, permutation, historicalHits;
      heap := new LazyHeap.Heap();
      actives, returned, since := map[], [], [];
    }

    function HistoricalScore(prefix: nat): nat
    {
      if prefix in historicalHits then historicalHits[prefix] else 0
    }

    /** The address the sweep visits next. */
    method AddressAt(index: nat) returns (addr: Address)
      requires Valid(index) && index < ranges.count
      ensures InScope(scope, addr) && addr == SweepAt(scope, permutation, index)
    {
      var found := Ranges.Index(ranges, permutation[index], scope);
      Ranges.NthIsCovered(scope, permutation[index]);
      addr := found.value as nat;
    }

    /** One step of the sweep: hands out the address unless it was handed out before. */
    method Visit(index: nat) returns (address: Option<Address>)
      requires Valid(index) && index < ranges.count
      modifies this, heap
      ensures Valid(index + 1)
      ensures address.Some? ==> InScope(scope, address.value) && returned == old(returned) + [address.value]
      ensures address.None? ==> returned == old(returned)
      ensures address.Some? ==> Reached(scope, permutation, index, address.value)
      ensures since == old(since)
      ensures old(Aimed(scope, actives, heap.values)) ==> Aimed(scope, actives, heap.values)
    {
      var addr := AddressAt(index);
      var p := PrefixOf(addr);
      MarkKeepsBooks(historicalHits, since, actives, returned, heap.values, addr);
      var (state, already) := MarkScanned(Lookup(actives, p), OffsetOf(addr));
      ghost var before := returned;
      returned := if already then returned else returned + [addr];
      SweepAdvances(scope, permutation, before, returned, index);
      AimedMore(scope, actives, heap.values, p, state, HistoricalScore(p));
      actives := actives[p := state];
      if already {
        return None;
      }
      if state.remaining > 0 {
        OfferIsCredited(historicalHits, since, actives, heap.values, p);
        Offer(p);
      }
      address := Some(addr);
    }

    /** Puts a /24 on the heap unless it is there. */
    method Offer(p: nat)
      requires heap.Valid()
      modifies heap
      ensures heap.Valid() && heap.values == WithOffer(old(heap.values), p, HistoricalScore(p))
    {
      var score := heap.Query(p);
      if score.None? {
        heap.Update(p, HistoricalScore(p) as real);
      }
    }

    /** Takes an exhausted /24, the top of the heap, off the heap. */
    method DropExhausted(p: nat)
      requires heap.Valid() && LazyHeap.IsArgMax(heap.values, p) && p in actives && actives[p].remaining == 0
      requires forall q :: q in actives && q != p && actives[q].remaining > 0 ==> q in heap.values
      modifies heap
      ensures heap.Valid() && heap.values == old(heap.values) - {p} && |heap.values| < |old(heap.values)|
      ensures Offered(actives, heap.values)
    {
      ghost var values := heap.values;
      ghost var key := heap.Pop();
      LazyHeap.ArgMaxUnique(values, key, p);
      assert heap.values.Keys == values.Keys - {p};
    }

    /** Walks on until an address is new. */
    method Walk(index: nat) returns (address: Option<Address>, index': nat, ghost last: nat)
      requires Valid(index)
      modifies this, heap
      ensures Valid(index') && index <= index' && since == old(since)
      ensures address.Some? ==> InScope(scope, address.value) && returned == old(returned) + [address.value]
      ensures address.Some? ==> index <= last && index' == last + 1 && Reached(scope, permutation, last, address.value)
      ensures address.None? ==> returned == old(returned) && index' == ranges.count
      ensures old(Aimed(scope, actives, heap.values)) ==> Aimed(scope, actives, heap.values)
    {
      index', last := index, index;
      while index' < ranges.count
        invariant Valid(index') && index <= index' && returned == old(returned) && since == old(since)
        invariant old(Aimed(scope, actives, heap.values)) ==> Aimed(scope, actives, heap.values)
      {
        last := index';
        address := Visit(index');
        index' := index' + 1;
        if address.Some? {
          return;
        }
      }
      address := None;
    }

    /** The sweep: skips what was handed out before. */
    method Next(index: nat) returns (address: Option<Address>, index': nat)
      requires Valid(index)
      modifies this, heap
      ensures Valid(index') && index <= index'
      ensures address.Some? ==> InScope(scope, address.value) && returned == old(returned) + [address.value]
      ensures address.None? ==> returned == old(returned) && index' == ranges.count
      ensures SweepGives(scope, permutation, old(returned), index, address, index') && since == old(since)
      ensures old(Aimed(scope, actives, heap.values)) ==> Aimed(scope, actives, heap.values)
    {
      ghost var last;
      address, index', last := Walk(index);
      SweepStops(scope, permutation, old(returned), returned, index, address, index', last);
    }

    /** Hands out an unscanned address of the hottest /24. */
    method PickFrom(p: nat, ghost index: nat, draws: seq<nat>) returns (a: Address)
      requires Valid(index) && forall i :: 0 <= i < |draws| ==> draws[i] < 256
      requires LazyHeap.IsArgMax(heap.values, p) && Lookup(actives, p).remaining > 0
      modifies this, heap
      ensures Valid(index)
      ensures returned == old(returned) + [a] && PrefixOf(a) == p && since == old(since)
      ensures old(Aimed(scope, actives, heap.values)) ==> Aimed(scope, actives, heap.values)
    {
      NewIsEmpty();
      var state := Lookup(actives, p);
      var offset := FetchUnscanned(state, draws);
      a := Join(p, offset.value);
      PickKeepsBooks(historicalHits, since, actives, returned, heap.values, p, offset.value);
      SweepKept(scope, permutation, returned, a, index);
      var (after, already) := MarkScanned(state, offset.value);
      actives, returned := actives[p := after], returned + [a];
      if after.remaining == 0 {
        DropIsCredited(historicalHits, since, actives, heap.values, p);
        DropExhausted(p);
      }
    }

    /** The exploit path: draws from the hottest /24, dropping exhausted ones on the way. */
    method TryPick(ghost index: nat, draws: seq<nat>) returns (address: Option<Address>)
      requires Valid(index) && forall i :: 0 <= i < |draws| ==> draws[i] < 256
      modifies this, heap
      ensures Valid(index)
      ensures address.Some? ==> returned == old(returned) + [address.value]
      ensures address.None? ==> returned == old(returned) && heap.values == map[]
      ensures address.Some? ==> Hottest(old(actives), old(heap.values), PrefixOf(address.value))
      ensures address.None? ==> forall p :: !Available(old(actives), old(heap.values), p)
      ensures since == old(since)
      ensures old(Aimed(scope, actives, heap.values)) ==>
        Aimed(scope, actives, heap.values) && (address.Some? ==> Touches(scope, PrefixOf(address.value)))
    {
      while true
        invariant Valid(index) && returned == old(returned) && actives == old(actives) && since == old(since)
        invariant Trimmed(actives, old(heap.values), heap.values)
        invariant old(Aimed(scope, actives, heap.values)) ==> Aimed(scope, actives, heap.values)
        decreases |heap.values|
      {
        var top := heap.Top();
        if top.None? {
          return None;
        }
        var p := top.value;
        if Lookup(actives, p).remaining == 0 {
          DropIsCredited(historicalHits, since, actives, heap.values, p);
          DropExhausted(p);
        } else {
          TopIsHottest(actives, old(heap.values), heap.values, p);
          var a := PickFrom(p, index, draws);
          return Some(a);
        }
      }
    }

    /** The sweep, and where that has nothing left the exploit path. */
    method SweepOrPick(index: nat, draws: seq<nat>) returns (address: Option<Address>, index': nat)
      requires Valid(index) && forall i :: 0 <= i < |draws| ==> draws[i] < 256
      modifies this, heap
      ensures Valid(index') && index <= index' && since == old(since)
      ensures address.Some? ==> returned == old(returned) + [address.value]
      ensures address.None? ==> returned == old(returned) && index' == ranges.count && heap.values == map[]
      ensures !SweepIsDone(scope, permutation, old(returned), index) ==>
        address.Some? && SweepGives(scope, permutation, old(returned), index, address, index')
      ensures old(Aimed(scope, actives, heap.values)) ==>
        Aimed(scope, actives, heap.values) && (address.Some? ==> Touches(scope, PrefixOf(address.value)))
    {
      address, index' := Next(index);
      if address.None? {
        address := TryPick(index', draws);
      }
    }

    /** An address to probe: from the exploit path if the coin says so and it has one, else from the sweep, else from either. */
    method NextAddress(index: nat, exploit: bool, draws: seq<nat>) returns (address: Option<Address>, index': nat)
      requires Valid(index) && forall i :: 0 <= i < |draws| ==> draws[i] < 256
      modifies this, heap
      ensures Valid(index') && index <= index'
      ensures address.Some? ==> returned == old(returned) + [address.value]
      ensures address.None? ==> returned == old(returned) && index' == ranges.count && heap.values == map[]
      ensures exploit && (exists p :: Available(old(actives), old(heap.values), p)) ==>
        address.Some? && Hottest(old(actives), old(heap.values), PrefixOf(address.value)) && index' == index
      ensures !exploit && !SweepIsDone(scope, permutation, old(returned), index) ==>
        address.Some? && SweepGives(scope, permutation, old(returned), index, address, index')
      ensures since == old(since)
      ensures old(Aimed(scope, actives, heap.values)) ==>
        Aimed(scope, actives, heap.values) && (address.Some? ==> Touches(scope, PrefixOf(address.value)))
    {
      index' := index;
      if exploit {
        address := TryPick(index, draws);
        if address.Some? {
          return;
        }
      }
      address, index' := SweepOrPick(index, draws);
    }

    /** A hit raises the score of its /24, unless that is exhausted. */
    method OnResult(addr: Address, ghost index: nat)
      requires Valid(index)
      modifies heap, this`since
      ensures Valid(index)
      ensures since == if Lookup(actives, PrefixOf(addr)).remaining > 0 then old(since) + [PrefixOf(addr)] else old(since)
      ensures forall p :: p != PrefixOf(addr) ==> (p in heap.values <==> p in old(heap.values))
      ensures forall p :: p != PrefixOf(addr) && p in heap.values ==> heap.values[p] == old(heap.values)[p]
      ensures Lookup(actives, PrefixOf(addr)).remaining > 0 ==>
        && PrefixOf(addr) in heap.values
        && heap.values[PrefixOf(addr)]
           == 1.0 + if PrefixOf(addr) in old(heap.values) then old(heap.values)[PrefixOf(addr)]
                    else HistoricalScore(PrefixOf(addr)) as real
      ensures Lookup(actives, PrefixOf(addr)).remaining == 0 ==> heap.values == old(heap.values)
      ensures old(Aimed(scope, actives, heap.values)) && Touches(scope, PrefixOf(addr)) ==> Aimed(scope, actives, heap.values)
    {
      var p := PrefixOf(addr);
      if p !in actives || actives[p].remaining > 0 {
        HitIsCredited(historicalHits, since, actives, heap.values, p);
        var score := heap.Query(p);
        heap.Update(p, (if score.Some? then score.value else HistoricalScore(p) as real) + 1.0);
        since := since + [p];
      }
    }
  }

  // ---------------------------------------------------------------- coverage

  /** Once the sweep is through, every address in scope was returned, and by `Faithful` exactly once. */
  lemma SweepCoversScope(ranges: seq<Ranges.Range>, permutation: seq<nat>, returned: seq<Address>, a: Address)
    requires SweptTo(ranges, permutation, returned, |permutation|) && InScope(ranges, a)
    ensures a in returned
  {
    var k := Ranges.NthReaches(ranges, a as Ranges.u32);
    PermutationReaches(permutation, k);
    var i :| 0 <= i < |permutation| && permutation[i] == k;
    assert SweepAt(ranges, permutation, i) == a;
  }

  /** A /24 is settled when all its addresses were returned. */
  lemma ExhaustedPrefixIsReturned(actives: map<nat, PrefixState>, returned: seq<Address>, a: Address)
    requires Faithful(actives, returned) && PrefixOf(a) in actives && actives[PrefixOf(a)].remaining == 0
    ensures a in returned
  {
    NoneRemaining(actives[PrefixOf(a)]);
    assert Marked(actives, a);
  }

  /**
   What a session returns in the end. When no address is left to hand out, the returned addresses
   are exactly the /24s that touch the scope, each address once: the exploit path does not stop at
   the boundary of the scope.
   */
  lemma ExhaustionReturnsTouchedPrefixes(ranges: seq<Ranges.Range>, permutation: seq<nat>, returned: seq<Address>,
                                         actives: map<nat, PrefixState>, values: map<nat, real>, a: Address)
    requires Faithful(actives, returned) && Offered(actives, values) && Aimed(ranges, actives, values)
    requires SweptTo(ranges, permutation, returned, |permutation|) && values == map[]
    ensures a in returned <==> Touches(ranges, PrefixOf(a))
  {
    if a in returned {
      assert Marked(actives, a);
      NewIsEmpty();
    }
    if Touches(ranges, PrefixOf(a)) {
      var b: Address :| InScope(ranges, b) && PrefixOf(b) == PrefixOf(a);
      SweepCoversScope(ranges, permutation, returned, b);
      assert Marked(actives, b);
      NewIsEmpty();
      ExhaustedPrefixIsReturned(actives, returned, a);
    }
  }

  /** Every /24 is either wholly in scope or wholly outside. */
  ghost predicate WholePrefixes(ranges: seq<Ranges.Range>)
  {
    forall a: Address :: Touches(ranges, PrefixOf(a)) ==> InScope(ranges, a)
  }

  /** So a session that runs to the end stays in scope exactly when the scope consists of whole /24s. */
  lemma ExhaustionStaysInScopeIffWhole(ranges: seq<Ranges.Range>, permutation: seq<nat>, returned: seq<Address>,
                                       actives: map<nat, PrefixState>, values: map<nat, real>)
    requires Faithful(actives, returned) && Offered(actives, values) && Aimed(ranges, actives, values)
    requires SweptTo(ranges, permutation, returned, |permutation|) && values == map[]
    ensures (forall a :: a in returned ==> InScope(ranges, a)) <==> WholePrefixes(ranges)
  {
    forall a: Address ensures a in returned <==> Touches(ranges, PrefixOf(a)) {
      ExhaustionReturnsTouchedPrefixes(ranges, permutation, returned, actives, values, a);
    }
  }

  // ---------------------------------------------------------------- sessions end

  lemma ReturnedTouches(ranges: seq<Ranges.Range>, returned: seq<Address>, actives: map<nat, PrefixState>,
                        values: map<nat, real>, a: Address)
    requires Faithful(actives, returned) && Aimed(ranges, actives, values) && a in returned
    ensures Touches(ranges, PrefixOf(a)) && a < 0x1_0000_0000
  {
    assert Marked(actives, a);
    NewIsEmpty();
    var b: Address :| InScope(ranges, b) && PrefixOf(b) == PrefixOf(a);
  }

  /** However it is used, an adapter hands out at most the 2^32 addresses there are. */
  lemma SessionIsBounded(ranges: seq<Ranges.Range>, returned: seq<Address>, actives: map<nat, PrefixState>,
                         values: map<nat, real>)
    requires Faithful(actives, returned) && Aimed(ranges, actives, values)
    ensures |returned| <= 0x1_0000_0000
  {
    var n: nat := 0x1_0000_0000;
    forall a | a in returned ensures a < n {
      ReturnedTouches(ranges, returned, actives, values, a);
    }
    DistinctSize(returned);
    SubsetSize(ToSet(returned), Below(n));
  }

  /**
   Asking for addresses until there are none, with any coins and draws: it ends, and then exactly the /24s that touch
   the scope have been handed out.
   */
  method Drain(adapter: Adapter, start: nat, coins: nat -> bool, draws: nat -> seq<nat>) returns (calls: nat)
    requires adapter.Valid(start) && Aimed(adapter.scope, adapter.actives, adapter.heap.values)
    requires forall n :: (forall i :: 0 <= i < |draws(n)| ==> draws(n)[i] < 256)
    modifies adapter, adapter.heap
    ensures forall a: Address :: a in adapter.returned <==> Touches(adapter.scope, PrefixOf(a))
    ensures Distinct(adapter.returned) && |adapter.returned| == |old(adapter.returned)| + calls
  {
    calls := 0;
    var index := start;
    while true
      invariant adapter.Valid(index) && Aimed(adapter.scope, adapter.actives, adapter.heap.values)
      invariant |adapter.returned| == |old(adapter.returned)| + calls
      decreases 0x1_0000_0000 - |adapter.returned|
    {
      SessionIsBounded(adapter.scope, adapter.returned, adapter.actives, adapter.heap.values);
      var address;
      address, index := adapter.NextAddress(index, coins(calls), draws(calls));
      if address.None? {
        break;
      }
      SessionIsBounded(adapter.scope, adapter.returned, adapter.actives, adapter.heap.values);
      calls := calls + 1;
    }
    forall a: Address ensures a in adapter.returned <==> Touches(adapter.scope, PrefixOf(a)) {
      ExhaustionReturnsTouchedPrefixes(adapter.scope, adapter.permutation, adapter.returned, adapter.actives,
                                       adapter.heap.values, a);
    }
  }
}
