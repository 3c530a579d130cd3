/**
 IPv4 ranges: removal of the excluded ranges, and the prefix-sum index over what is left.
 Addresses are 32-bit; the verifier checks that no bound underflows or overflows.
 */
module Ranges {
  import opened Wrappers

  newtype u32 = x: int | 0 <= x < 0x1_0000_0000

  /** An inclusive range. */
  datatype Range = Range(start: u32, last: u32)

  predicate In(a: u32, r: Range) { r.start <= a <= r.last }

  ghost predicate Covers(ranges: seq<Range>, a: u32)
  {
    exists i :: 0 <= i < |ranges| && In(a, ranges[i])
  }

  ghost predicate NonEmpty(ranges: seq<Range>)
  {
    forall i :: 0 <= i < |ranges| ==> ranges[i].start <= ranges[i].last
  }

  /** Nonempty, in order, and apart. */
  ghost predicate SortedDisjoint(ranges: seq<Range>)
  {
    NonEmpty(ranges) && forall i, j :: 0 <= i < j < |ranges| ==> ranges[i].last < ranges[j].start
  }

  /** Nonempty and in order of their starts; they may overlap or contain each other. */
  ghost predicate SortedByStart(ranges: seq<Range>)
  {
    NonEmpty(ranges) && forall i, j :: 0 <= i < j < |ranges| ==> ranges[i].start <= ranges[j].start
  }

  /** The addresses of `scan` outside `exclude`. */
  ghost predicate Wanted(scan: seq<Range>, exclude: seq<Range>, a: u32)
  {
    Covers(scan, a) && !Covers(exclude, a)
  }

  // ---------------------------------------------------------------- subtraction

  /** The subtraction, one comparison of the two front ranges at a time. */
  function Subtract(scan: seq<Range>, exclude: seq<Range>): (kept: seq<Range>)
    requires NonEmpty(scan) && NonEmpty(exclude)
    decreases |scan|, |exclude|, if scan == [] then 0 else scan[0].last as int - scan[0].start as int
  {
    if scan == [] || exclude == [] then scan
    else
      var now, out := scan[0], exclude[0];
      if now.last < out.start then [now] + Subtract(scan[1..], exclude)
      else if now.start > out.last then Subtract(scan, exclude[1..])
      else if now.start < out.start && now.last > out.last then
        [Range(now.start, out.start - 1)] + Subtract([Range(out.last + 1, now.last)] + scan[1..], exclude)
      else if now.start < out.start then [Range(now.start, out.start - 1)] + Subtract(scan[1..], exclude)
      else if now.last > out.last then Subtract([Range(out.last + 1, now.last)] + scan[1..], exclude)
      else Subtract(scan[1..], exclude)
  }

  lemma CoversFront(ranges: seq<Range>, a: u32)
    requires ranges != []
    ensures Covers(ranges, a) <==> In(a, ranges[0]) || Covers(ranges[1..], a)
  {
    if Covers(ranges, a) {
      var i :| 0 <= i < |ranges| && In(a, ranges[i]);
      assert i > 0 ==> ranges[1..][i - 1] == ranges[i];
    }
    if Covers(ranges[1..], a) {
      var i :| 0 <= i < |ranges[1..]| && In(a, ranges[1..][i]);
      assert ranges[i + 1] == ranges[1..][i];
    }
  }

  /** Replacing the front range by its upper part. */
  function Cut(scan: seq<Range>, start: u32): seq<Range>
    requires scan != []
  {
    [Range(start, scan[0].last)] + scan[1..]
  }

  /** `ranges` are in order and apart, and none starts before `floor`. */
  ghost predicate SortedFrom(floor: u32, ranges: seq<Range>)
  {
    SortedDisjoint(ranges) && forall i :: 0 <= i < |ranges| ==> floor <= ranges[i].start
  }

  lemma Prepend(floor: u32, r: Range, ranges: seq<Range>)
    requires floor <= r.start <= r.last
    requires SortedFrom(floor, ranges) && forall i :: 0 <= i < |ranges| ==> r.last < ranges[i].start
    ensures SortedFrom(floor, [r] + ranges)
  {
  }

  lemma CutIsSorted(scan: seq<Range>, start: u32, floor: u32)
    requires scan != [] && SortedFrom(floor, scan) && start <= scan[0].last
    ensures SortedFrom(start, Cut(scan, start))
  {
  }

  lemma TailIsSorted(scan: seq<Range>, floor: u32)
    requires |scan| > 1 && SortedFrom(floor, scan)
    ensures SortedFrom(scan[1].start, scan[1..])
  {
  }

  /** A range from the front one, put before what is left of the others. */
  lemma FrontStays(scan: seq<Range>, first: Range, kept: seq<Range>, floor: u32)
    requires |scan| > 1 && SortedFrom(floor, scan) && SortedFrom(scan[1].start, kept)
    requires scan[0].start <= first.start <= first.last <= scan[0].last
    ensures SortedFrom(floor, [first] + kept) && SortedFrom(floor, kept)
  {
    Prepend(floor, first, kept);
  }

  /** What is left of the front range and of the others, with the part below the exclusion before it. */
  lemma BelowStays(now: Range, out: Range, kept: seq<Range>, floor: u32)
    requires floor <= now.start < out.start <= out.last && out.last < 0xFFFF_FFFF && SortedFrom(out.last + 1, kept)
    ensures SortedFrom(floor, [Range(now.start, out.start - 1)] + kept)
  {
    Prepend(floor, Range(now.start, out.start - 1), kept);
  }

  /** The front range reaches beyond the exclusion. */
  lemma CutCase(scan: seq<Range>, exclude: seq<Range>, floor: u32)
    requires scan != [] && exclude != [] && SortedFrom(floor, scan) && NonEmpty(exclude)
    requires scan[0].start <= exclude[0].last < scan[0].last
    requires var above := exclude[0].last + 1;
      NonEmpty(Cut(scan, above)) && SortedFrom(above, Subtract(Cut(scan, above), exclude))
    ensures SortedFrom(floor, Subtract(scan, exclude))
  {
    if scan[0].start < exclude[0].start {
      BelowStays(scan[0], exclude[0], Subtract(Cut(scan, exclude[0].last + 1), exclude), floor);
    }
  }

  /** The front range is done with, and others follow. */
  lemma FrontCase(scan: seq<Range>, exclude: seq<Range>, floor: u32)
    requires |scan| > 1 && exclude != [] && SortedFrom(floor, scan) && NonEmpty(exclude)
    requires scan[0].last < exclude[0].start || (scan[0].start <= exclude[0].last && scan[0].last <= exclude[0].last)
    requires SortedFrom(scan[1].start, Subtract(scan[1..], exclude))
    ensures SortedFrom(floor, Subtract(scan, exclude))
  {
    var now, out := scan[0], exclude[0];
    var last := if now.last < out.start then now.last else if now.start < out.start then out.start - 1 else now.last;
    FrontStays(scan, Range(now.start, last), Subtract(scan[1..], exclude), floor);
  }

  /** Whatever is left starts no earlier than the scan did, in order and apart. */
  lemma {:induction false} SubtractIsSorted(scan: seq<Range>, exclude: seq<Range>, floor: u32)
    requires SortedFrom(floor, scan) && SortedByStart(exclude)
    ensures SortedFrom(floor, Subtract(scan, exclude))
    decreases |scan|, |exclude|, if scan == [] then 0 else scan[0].last as int - scan[0].start as int
  {
    if scan != [] && exclude != [] {
      var now, out := scan[0], exclude[0];
      if now.start > out.last && now.last >= out.start {
        SubtractIsSorted(scan, exclude[1..], floor);
      } else if now.last > out.last && now.last >= out.start {
        CutIsSorted(scan, out.last + 1, floor);
        SubtractIsSorted(Cut(scan, out.last + 1), exclude, out.last + 1);
        CutCase(scan, exclude, floor);
      } else if |scan| > 1 {
        TailIsSorted(scan, floor);
        SubtractIsSorted(scan[1..], exclude, scan[1].start);
        FrontCase(scan, exclude, floor);
      } else {
        assert Subtract(scan[1..], exclude) == [];
      }
    }
  }

  /** Exactly the set difference is left. */
  lemma {:induction false} SubtractIsDifference(scan: seq<Range>, exclude: seq<Range>, a: u32)
    requires SortedDisjoint(scan) && SortedByStart(exclude)
    ensures Covers(Subtract(scan, exclude), a) <==> Wanted(scan, exclude, a)
    decreases |scan|, |exclude|, if scan == [] then 0 else scan[0].last as int - scan[0].start as int
  {
    if scan != [] && exclude != [] {
      var now, out := scan[0], exclude[0];
      CoversFront(scan, a);
      CoversFront(exclude, a);
      var kept := Subtract(scan, exclude);
      if kept != [] {
        CoversFront(kept, a);
      }
      if now.start > out.last {
        SubtractIsDifference(scan, exclude[1..], a);
      } else if now.last > out.last {
        var rest := Cut(scan, out.last + 1);
        assert rest[1..] == scan[1..];
        CoversFront(rest, a);
        SubtractIsDifference(rest, exclude, a);
        assert now.start < out.start ==> kept[1..] == Subtract(rest, exclude);
      } else {
        SubtractIsDifference(scan[1..], exclude, a);
        assert now.start < out.start ==> kept[1..] == Subtract(scan[1..], exclude);
      }
    }
  }

  lemma SubtractStep(now: Range, more: seq<Range>, exclude: seq<Range>)
    requires now.start <= now.last && NonEmpty(more) && NonEmpty(exclude) && exclude != []
    ensures var out := exclude[0];
      Subtract([now] + more, exclude)
      == if now.last < out.start then [now] + Subtract(more, exclude)
         else if now.start > out.last then Subtract([now] + more, exclude[1..])
         else if now.start < out.start && now.last > out.last then
           [Range(now.start, out.start - 1)] + Subtract([Range(out.last + 1, now.last)] + more, exclude)
         else if now.start < out.start then [Range(now.start, out.start - 1)] + Subtract(more, exclude)
         else if now.last > out.last then Subtract([Range(out.last + 1, now.last)] + more, exclude)
         else Subtract(more, exclude)
  {
    assert ([now] + more)[1..] == more;
  }

  /** What `exclude` still has to produce: `kept` so far, then the subtraction for the rest. */
  ghost predicate Owes(kept: seq<Range>, scan: seq<Range>, exclude: seq<Range>, all: seq<Range>)
  {
    NonEmpty(scan) && NonEmpty(exclude) && kept + Subtract(scan, exclude) == all
  }

  lemma Moved(kept: seq<Range>, r: Range, rest: seq<Range>, all: seq<Range>)
    requires kept + ([r] + rest) == all
    ensures (kept + [r]) + rest == all
  {
  }

  /** One comparison of the two front ranges: what is emitted, and what the current range becomes, if anything. */
  method Compare(now: Range, out: Range, ghost kept: seq<Range>, ghost more: seq<Range>,
                 ghost exclude: seq<Range>, ghost all: seq<Range>)
    returns (emit: seq<Range>, rest: Option<Range>)
    requires now.start <= now.last && NonEmpty(more) && exclude != [] && exclude[0] == out
    requires Owes(kept, [now] + more, exclude, all)
    requires !(now.last >= out.start && now.start > out.last)
    ensures match rest
      case Some(r) =>
        r.start <= r.last == now.last && now.start < r.start && Owes(kept + emit, [r] + more, exclude, all)
      case None => Owes(kept + emit, more, exclude, all)
  {
    SubtractStep(now, more, exclude);
    emit, rest := [], None;
    if now.last < out.start {
      emit := [now];
      Moved(kept, now, Subtract(more, exclude), all);
    } else if now.start < out.start && now.last > out.last {
      emit := [Range(now.start, out.start - 1)];
      rest := Some(Range(out.last + 1, now.last));
      Moved(kept, emit[0], Subtract([rest.value] + more, exclude), all);
    } else if now.start < out.start {
      emit := [Range(now.start, out.start - 1)];
      Moved(kept, emit[0], Subtract(more, exclude), all);
    } else if now.last > out.last {
      rest := Some(Range(out.last + 1, now.last));
      assert kept + [] == kept;
    } else {
      assert kept + [] == kept;
    }
  }

  lemma SkipExcluded(kept: seq<Range>, now: Range, more: seq<Range>, exclude: seq<Range>, all: seq<Range>)
    requires exclude != [] && Owes(kept, [now] + more, exclude, all)
    requires now.last >= exclude[0].start && now.start > exclude[0].last && now.start <= now.last && NonEmpty(more)
    ensures Owes(kept, [now] + more, exclude[1..], all)
    ensures |exclude| == 1 ==> kept + [now] + more == all
  {
    SubtractStep(now, more, exclude);
  }

  lemma FrontAndRest<X>(s: seq<X>, i: nat)
    requires i < |s|
    ensures [s[i]] + s[i + 1..] == s[i..] && s[i..][1..] == s[i + 1..]
  {
  }

  /** Between two comparisons: `now` is what is left of scan range `i`, and `exclude[j]` is next to be compared with it. */
  ghost predicate Running(scan: seq<Range>, exclude: seq<Range>, kept: seq<Range>, i: nat, j: nat, now: Range, all: seq<Range>)
  {
    && NonEmpty(scan) && i < |scan| && j < |exclude| && scan[i].start <= now.start <= now.last == scan[i].last
    && Owes(kept, [now] + scan[i + 1..], exclude[j..], all)
  }

  /** No more exclusions: the rest stays. */
  method SkipExclusion(scan: seq<Range>, exclude: seq<Range>, kept: seq<Range>, i: nat, j: nat, now: Range, ghost all: seq<Range>)
    returns (done: bool)
    requires Running(scan, exclude, kept, i, j, now, all)
    requires now.last >= exclude[j].start && now.start > exclude[j].last
    ensures done ==> kept + [now] + scan[i + 1..] == all
    ensures !done ==> Running(scan, exclude, kept, i, j + 1, now, all)
  {
    SkipExcluded(kept, now, scan[i + 1..], exclude[j..], all);
    FrontAndRest(exclude, j);
    done := j + 1 == |exclude|;
  }

  /** One comparison that uses up, cuts or keeps the current range. */
  method Advance(scan: seq<Range>, exclude: seq<Range>, kept: seq<Range>, i: nat, j: nat, now: Range, ghost all: seq<Range>)
    returns (kept': seq<Range>, i': nat, now': Range)
    requires Running(scan, exclude, kept, i, j, now, all)
    requires !(now.last >= exclude[j].start && now.start > exclude[j].last)
    ensures i' == |scan| ==> kept' == all
    ensures i' != |scan| ==> Running(scan, exclude, kept', i', j, now', all)
    ensures i < i' <= |scan| || (i' == i && now'.last == now.last && now.start < now'.start)
  {
    var emit, rest := Compare(now, exclude[j], kept, scan[i + 1..], exclude[j..], all);
    kept' := kept + emit;
    match rest
    case Some(r) =>
      i', now' := i, r;
    case None =>
      i', now' := i + 1, now;
      if i' < |scan| {
        now' := scan[i'];
        FrontAndRest(scan, i');
      }
  }

  /** The loop of `exclude`: it computes the subtraction. */
  method TwoPointer(scan: seq<Range>, exclude: seq<Range>) returns (kept: seq<Range>)
    requires NonEmpty(scan) && NonEmpty(exclude) && scan != [] && exclude != []
    ensures kept == Subtract(scan, exclude)
  {
    ghost var all := Subtract(scan, exclude);
    kept := [];
    var i, j := 0, 0;
    var now := scan[0];
    FrontAndRest(scan, 0);
    while i < |scan|
      invariant i <= |scan|
      invariant i < |scan| ==> Running(scan, exclude, kept, i, j, now, all)
      invariant i == |scan| ==> kept == all
      decreases |scan| - i, |exclude| - j, now.last as int - now.start as int
    {
      if now.last >= exclude[j].start && now.start > exclude[j].last {
        var done := SkipExclusion(scan, exclude, kept, i, j, now, all);
        if done {
          return kept + [now] + scan[i + 1..];
        }
        j := j + 1;
      } else {
        kept, i, now := Advance(scan, exclude, kept, i, j, now, all);
      }
    }
  }

  /** Removes exactly the excluded addresses and keeps the ranges in order and apart. */
  method Exclude(scan: seq<Range>, exclude: seq<Range>) returns (kept: seq<Range>)
    requires SortedDisjoint(scan) && SortedByStart(exclude)
    ensures SortedDisjoint(kept)
    ensures forall a: u32 :: Covers(kept, a) <==> Wanted(scan, exclude, a)
  {
    SubtractIsSorted(scan, exclude, 0);
    forall a: u32 ensures Covers(Subtract(scan, exclude), a) <==> Wanted(scan, exclude, a) {
      SubtractIsDifference(scan, exclude, a);
    }
    if exclude == [] {
      return scan;
    }
    if scan == [] {
      return [];
    }
    kept := TwoPointer(scan, exclude);
  }

  // ---------------------------------------------------------------- indexing

  function Size(r: Range): (size: nat)
    requires r.start <= r.last
    ensures size > 0
  {
    r.last as int - r.start as int + 1
  }

  /** How many addresses the first `n` ranges hold. */
  function Offset(ranges: seq<Range>, n: nat): nat
    requires NonEmpty(ranges) && n <= |ranges|
  {
    if n == 0 then 0 else Offset(ranges, n - 1) + Size(ranges[n - 1])
  }

  /** The k-th address when the first `n` ranges are listed one after the other. */
  function Nth(ranges: seq<Range>, n: nat, k: nat): (a: u32)
    requires NonEmpty(ranges) && n <= |ranges| && k < Offset(ranges, n)
  {
    var before := Offset(ranges, n - 1);
    if k < before then Nth(ranges, n - 1, k) else ranges[n - 1].start + (k - before) as u32
  }

  lemma {:induction false} OffsetGrows(ranges: seq<Range>, m: nat, n: nat)
    requires NonEmpty(ranges) && m <= n <= |ranges|
    ensures Offset(ranges, m) + (n - m) <= Offset(ranges, n)
  {
    if m < n {
      OffsetGrows(ranges, m, n - 1);
    }
  }

  /** An index between two consecutive offsets falls into the range between them. */
  lemma {:induction false} NthInRange(ranges: seq<Range>, n: nat, m: nat, k: nat)
    requires NonEmpty(ranges) && m < n <= |ranges|
    requires Offset(ranges, m) <= k < Offset(ranges, m + 1)
    ensures k < Offset(ranges, n)
    ensures Nth(ranges, n, k) == ranges[m].start + (k - Offset(ranges, m)) as u32
    ensures In(Nth(ranges, n, k), ranges[m])
  {
    OffsetGrows(ranges, m + 1, n);
    if m + 1 < n {
      OffsetGrows(ranges, m + 1, n - 1);
      NthInRange(ranges, n - 1, m, k);
    }
  }

  /** The range an index falls into. */
  lemma {:induction false} RangeOf(ranges: seq<Range>, n: nat, k: nat) returns (m: nat)
    requires NonEmpty(ranges) && n <= |ranges| && k < Offset(ranges, n)
    ensures m < n && Offset(ranges, m) <= k < Offset(ranges, m + 1)
  {
    if k >= Offset(ranges, n - 1) {
      m := n - 1;
    } else {
      m := RangeOf(ranges, n - 1, k);
    }
  }

  /** Indexing is strictly increasing, hence one-to-one ... */
  lemma NthIncreases(ranges: seq<Range>, i: nat, j: nat)
    requires SortedDisjoint(ranges) && i < j < Offset(ranges, |ranges|)
    ensures Nth(ranges, |ranges|, i) < Nth(ranges, |ranges|, j)
  {
    var m := RangeOf(ranges, |ranges|, i);
    var n := RangeOf(ranges, |ranges|, j);
    NthInRange(ranges, |ranges|, m, i);
    NthInRange(ranges, |ranges|, n, j);
    if n < m {
      OffsetGrows(ranges, n + 1, m);
    }
  }

  /** ... it lists only covered addresses ... */
  lemma NthIsCovered(ranges: seq<Range>, k: nat)
    requires NonEmpty(ranges) && k < Offset(ranges, |ranges|)
    ensures Covers(ranges, Nth(ranges, |ranges|, k))
  {
    var m := RangeOf(ranges, |ranges|, k);
    NthInRange(ranges, |ranges|, m, k);
  }

  /** ... and it lists all of them. */
  lemma NthReaches(ranges: seq<Range>, a: u32) returns (k: nat)
    requires NonEmpty(ranges) && Covers(ranges, a)
    ensures k < Offset(ranges, |ranges|) && Nth(ranges, |ranges|, k) == a
  {
    var m :| 0 <= m < |ranges| && In(a, ranges[m]);
    k := Offset(ranges, m) + (a as int - ranges[m].start as int);
    NthInRange(ranges, |ranges|, m, k);
  }

  /** A range with the number of addresses before it and in it. */
  datatype Entry = Entry(range: Range, index: nat, count: nat)

  datatype Compiled = Compiled(inner: seq<Entry>, count: nat)

  ghost predicate Compiles(ranges: seq<Range>, c: Compiled)
  {
    && NonEmpty(ranges) && |c.inner| == |ranges| && c.count == Offset(ranges, |ranges|)
    && forall i {:trigger c.inner[i]} :: 0 <= i < |ranges| ==> c.inner[i] == Entry(ranges[i], Offset(ranges, i), Size(ranges[i]))
  }

  method Compile(ranges: seq<Range>) returns (c: Compiled)
    requires NonEmpty(ranges)
    ensures Compiles(ranges, c)
  {
    var inner, index := [], 0;
    for i := 0 to |ranges|
      invariant |inner| == i && index == Offset(ranges, i)
      invariant forall k {:trigger inner[k]} :: 0 <= k < i ==> inner[k] == Entry(ranges[k], Offset(ranges, k), Size(ranges[k]))
    {
      var count := Size(ranges[i]);
      inner := inner + [Entry(ranges[i], index, count)];
      index := index + count;
    }
    c := Compiled(inner, index);
  }

  /** The binary search of `index`; where the original panics the result is `None`. */
  method Index(c: Compiled, k: nat, ghost ranges: seq<Range>) returns (address: Option<u32>)
    requires Compiles(ranges, c)
    ensures address == if k < c.count then Some(Nth(ranges, |ranges|, k)) else None
  {
    var start, end := 0, |c.inner|;
    while start < end
      invariant 0 <= start <= end <= |c.inner|
      invariant Offset(ranges, start) <= k
      invariant end < |c.inner| ==> k < Offset(ranges, end)
    {
      var mid := (start + end) / 2;
      var entry := c.inner[mid];
      if entry.index + entry.count <= k {
        start := mid + 1;
      } else if entry.index > k {
        end := mid;
      } else {
        NthInRange(ranges, |ranges|, mid, k);
        return Some(entry.range.start + (k - entry.index) as u32);
      }
    }
    address := None;
  }
}
