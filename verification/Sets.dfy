/** Sizes of sets and sequences without repetition. */
module Sets {
  ghost predicate Distinct<X>(s: seq<X>)
  {
    forall i, j :: 0 <= i < j < |s| ==> s[i] != s[j]
  }

  ghost function ToSet<X>(s: seq<X>): set<X> { set x | x in s }

  lemma {:induction false} SubsetSize<X>(a: set<X>, b: set<X>)
    requires a <= b
    ensures |a| <= |b|
    ensures |a| == |b| ==> a == b
  {
    if a != {} {
      var x :| x in a;
      SubsetSize(a - {x}, b - {x});
    }
  }

  lemma {:induction false} DistinctSize<X>(s: seq<X>)
    requires Distinct(s)
    ensures |ToSet(s)| == |s|
  {
    if s != [] {
      var n := |s| - 1;
      DistinctSize(s[..n]);
      assert ToSet(s) == ToSet(s[..n]) + {s[n]};
    }
  }

  /** The numbers below `n`. */
  ghost function Below(n: nat): (s: set<nat>)
    ensures |s| == n && forall k :: k in s <==> 0 <= k < n
  {
    var numbers := seq(n, i => i);
    assert |ToSet(numbers)| == n && forall k :: k in ToSet(numbers) <==> 0 <= k < n by {
      DistinctSize(numbers);
      forall k | 0 <= k < n ensures k in ToSet(numbers) { assert numbers[k] == k; }
    }
    ToSet(numbers)
  }

  /** `s` lists the numbers below its length in some order. */
  ghost predicate IsPermutation(s: seq<nat>)
  {
    Distinct(s) && forall i :: 0 <= i < |s| ==> s[i] < |s|
  }

  lemma PermutationReaches(s: seq<nat>, k: nat)
    requires IsPermutation(s) && k < |s|
    ensures k in s
  {
    DistinctSize(s);
    assert ToSet(s) <= Below(|s|);
    SubsetSize(ToSet(s), Below(|s|));
    assert k in ToSet(s);
  }
}
