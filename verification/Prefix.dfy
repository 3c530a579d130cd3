/** The scanned bitmap of one /24: 32 bytes, one bit per address, and the number of addresses left. */
module Prefix {
  import opened Wrappers
  import opened Sets

  datatype PrefixState = PrefixState(bitmap: seq<bv8>, remaining: nat)

  function New(): (s: PrefixState)
  {
    PrefixState(seq(32, _ => 0), 256)
  }

  predicate IsUnscanned(s: PrefixState, offset: nat)
    requires |s.bitmap| == 32 && offset < 256
  {
    (s.bitmap[offset / 8] >> (offset % 8)) & 1 != 1
  }

  /** The offsets whose bit is set. */
  ghost function Scanned(s: PrefixState): (r: set<nat>)
    requires |s.bitmap| == 32
  {
    set o | o in Below(256) && !IsUnscanned(s, o)
  }

  ghost predicate Valid(s: PrefixState)
  {
    |s.bitmap| == 32 && s.remaining + |Scanned(s)| == 256
  }

  /** Marks an offset and says whether it was marked before. */
  function MarkScanned(s: PrefixState, offset: nat): (r: (PrefixState, bool))
    requires Valid(s) && offset < 256
    ensures |r.0.bitmap| == 32
  {
    var byte := s.bitmap[offset / 8];
    var bit: bv8 := 1 << (offset % 8);
    if byte & bit != 0 then (s, true)
    else
      assert s.remaining > 0 by { BitTest(byte, offset % 8); UnscannedMeansRemaining(s, offset); }
      (PrefixState(s.bitmap[offset / 8 := byte | bit], s.remaining - 1), false)
  }

  lemma BitTest(b: bv8, i: nat)
    requires i < 8
    ensures (b >> i) & 1 == 1 <==> b & (1 << i) != 0
  {
  }

  lemma BitSet(b: bv8, i: nat, j: nat)
    requires i < 8 && j < 8
    ensures ((b | (1 << i)) >> j) & 1 == 1 <==> i == j || (b >> j) & 1 == 1
  {
  }

  lemma UnscannedMeansRemaining(s: PrefixState, offset: nat)
    requires Valid(s) && offset < 256
    ensures IsUnscanned(s, offset) ==> s.remaining > 0
  {
    SubsetSize(Scanned(s), Below(256));
    assert offset in Below(256);
  }

  /** `remaining` is zero exactly when every bit is set. */
  lemma NoneRemaining(s: PrefixState)
    requires Valid(s)
    ensures s.remaining == 0 <==> forall o :: 0 <= o < 256 ==> !IsUnscanned(s, o)
  {
    SubsetSize(Scanned(s), Below(256));
    if forall o :: 0 <= o < 256 ==> !IsUnscanned(s, o) {
      assert Scanned(s) == Below(256);
    }
    if s.remaining == 0 {
      forall o | 0 <= o < 256 ensures !IsUnscanned(s, o) {
        assert o in Scanned(s);
      }
    }
  }

  lemma NewIsEmpty()
    ensures Valid(New()) && forall o :: 0 <= o < 256 ==> IsUnscanned(New(), o)
  {
    assert Scanned(New()) == {};
  }

  /** Marking an unset bit sets that bit and no other. */
  lemma MarkSetsBit(s: PrefixState, offset: nat, o: nat)
    requires Valid(s) && offset < 256 && o < 256 && !MarkScanned(s, offset).1
    ensures IsUnscanned(MarkScanned(s, offset).0, o) <==> IsUnscanned(s, o) && o != offset
  {
    var t := MarkScanned(s, offset).0;
    if o / 8 == offset / 8 {
      BitSet(s.bitmap[o / 8], offset % 8, o % 8);
      assert o % 8 == offset % 8 ==> o == offset;
    } else {
      assert t.bitmap[o / 8] == s.bitmap[o / 8];
    }
  }

  /** Marking sets exactly the one bit, counts it once, and reports whether it was set. */
  lemma MarkSetsOneBit(s: PrefixState, offset: nat)
    requires Valid(s) && offset < 256
    ensures var (t, already) := MarkScanned(s, offset);
      && Valid(t)
      && (already <==> !IsUnscanned(s, offset))
      && (forall o :: 0 <= o < 256 ==> (IsUnscanned(t, o) <==> IsUnscanned(s, o) && o != offset))
  {
    var (t, already) := MarkScanned(s, offset);
    BitTest(s.bitmap[offset / 8], offset % 8);
    if !already {
      forall o | 0 <= o < 256 ensures IsUnscanned(t, o) <==> IsUnscanned(s, o) && o != offset {
        MarkSetsBit(s, offset, o);
      }
      assert Scanned(t) == Scanned(s) + {offset};
    }
  }

  /** `offset` is draw `i`, and no draw before it was unscanned. */
  ghost predicate FirstDraw(s: PrefixState, draws: seq<nat>, i: nat, offset: nat)
    requires Valid(s) && forall j :: 0 <= j < |draws| ==> draws[j] < 256
  {
    i < |draws| && draws[i] == offset && forall j :: 0 <= j < i ==> !IsUnscanned(s, draws[j])
  }

  /** No draw was unscanned, and `offset` is the least unscanned one. */
  ghost predicate FirstInOrder(s: PrefixState, draws: seq<nat>, offset: nat)
    requires Valid(s) && offset <= 256 && forall j :: 0 <= j < |draws| ==> draws[j] < 256
  {
    && (forall j :: 0 <= j < |draws| ==> !IsUnscanned(s, draws[j]))
    && (forall o :: 0 <= o < offset ==> !IsUnscanned(s, o))
  }

  /** Fifty random draws, then the first unscanned offset in order. */
  method FetchUnscanned(s: PrefixState, draws: seq<nat>) returns (offset: Option<nat>)
    requires Valid(s) && forall i :: 0 <= i < |draws| ==> draws[i] < 256
    ensures offset.None? <==> s.remaining == 0
    ensures offset.Some? ==> offset.value < 256 && IsUnscanned(s, offset.value)
    ensures offset.Some? ==> (exists i :: FirstDraw(s, draws, i, offset.value)) || FirstInOrder(s, draws, offset.value)
  {
    NoneRemaining(s);
    if s.remaining == 0 {
      return None;
    }
    for i := 0 to |draws|
      invariant forall j :: 0 <= j < i ==> !IsUnscanned(s, draws[j])
    {
      if IsUnscanned(s, draws[i]) {
        assert FirstDraw(s, draws, i, draws[i]);
        return Some(draws[i]);
      }
    }
    for o := 0 to 256
      invariant forall p :: 0 <= p < o ==> !IsUnscanned(s, p)
    {
      if IsUnscanned(s, o) {
        return Some(o);
      }
    }
    assert false;
  }
}
