/**
 What a FIN may do whose data is appended without a look at its sequence number: exactly when it
 records a banner the stream does not have, and exactly when it records what the stream has.
 */
module FinOrder {
  import opened Minecraft
  import opened Modular
  import opened Scanner
  import opened Wrappers

  function Banner(verdict: Verdict): Option<Bytes>
  {
    if verdict.Ok? then Some(verdict.body) else None
  }

  /** The banner of a stream. */
  function BannerOf(bytes: Bytes, json: Json): Option<Bytes>
  {
    Banner(ParseSpec(bytes, json))
  }

  /** What a FIN with `payload` records for a connection that holds `data`. */
  function Recorded(data: Bytes, payload: Bytes, json: Json): Option<Bytes>
  {
    if payload == [] then None else BannerOf(data + payload, json)
  }

  /** The parser has not decided on `data`, whatever counts as valid JSON. */
  predicate Undecided(data: Bytes)
  {
    ParseSpec(data, Anything).Incomplete?
  }

  lemma BannerScans(data: Bytes, more: Bytes, json: Json)
    ensures BannerOf(data + more, json) == Banner(Judge(ScanFrom(Scanned(data), more), json))
  {
    ScannerIsParser(data + more, json);
    ScanConcat(Begin(), data, more);
  }

  /** An undecided state: within the header, or short of a body of positive length. */
  ghost predicate Open(st: Scan)
  {
    st.Body? ==> st.id == 0 && 0 < Signed(st.length) && |st.got| < st.length
  }

  lemma UndecidedIsOpen(data: Bytes)
    requires Undecided(data)
    ensures Open(Scanned(data))
  {
    ScannerIsParser(data, Anything);
  }

  // ---------------------------------------------------------------- moving through the header

  /** Reading on either completes a varint or stays in the same one, and never changes a packet number read before. */
  lemma {:induction false} Progress(st: Scan, u: Bytes)
    requires Sane(st) && st.Header?
    ensures var st' := ScanFrom(st, u);
      && (st'.Header? ==>
            || st'.index > st.index
            || (st'.index == st.index && st'.count == st.count + |u| && st'.low >= st.low && st'.id == st.id))
      && (st.index == 2 ==> st'.id == st.id)
      && (st'.Body? ==> |st'.got| < |u|)
  {
    if u != [] {
      Progress(st, u[..|u| - 1]);
    }
  }

  lemma {:induction false} Continued(st: Scan, m: nat)
    requires Sane(st) && st.Header? && st.count + m <= 4
    ensures ScanFrom(st, Repeat(128, m)) == Header(st.index, st.count + m, st.low, st.id)
    ensures Sane(Header(st.index, st.count + m, st.low, st.id))
  {
    if m > 0 {
      Continued(st, m - 1);
      assert Repeat(128, m)[..m - 1] == Repeat(128, m - 1);
      SmallWorth(st.count + (m - 1), st.low);
    }
  }

  lemma FifthByte(index: nat, low: nat, id: Word)
    requires index <= 2 && low < Weight(4)
    ensures Step(Header(index, 4, low, id), 128) == Next(index, id, low)
  {
    SmallWorth(4, low);
  }

  /** The fifth byte completes a varint whatever it is. */
  lemma Exhausted(st: Scan)
    requires Sane(st) && st.Header?
    ensures st.low < TWO_32 && ScanFrom(st, Repeat(128, 5 - st.count)) == Next(st.index, st.id, st.low)
  {
    var m := 4 - st.count;
    Continued(st, m);
    assert Repeat(128, m + 1) == Repeat(128, m) + [128];
    ScanConcat(st, Repeat(128, m), [128]);
    ScanOne(Header(st.index, 4, st.low, st.id), 128);
    FifthByte(st.index, st.low, st.id);
  }

  /** A packet number that gets a one is not zero. */
  lemma OneKillsId(st: Scan, rest: Bytes)
    requires Sane(st) && st.Header? && st.index == 1
    ensures Dead(ScanFrom(st, [1] + rest))
  {
    LastByte(st, 1, rest);
    SmallNext(1, st.count, st.low, st.id, 1);
    SmallWorth(st.count, st.low);
    DeadIsSilent(Next(1, st.id, Worth(st.count, st.low, 1)), rest, Anything);
  }

  lemma OneAfterLengthKills(st: Scan, b: Byte, rest: Bytes)
    requires Sane(st) && st.Header? && st.index == 0 && b < 128
    ensures Dead(ScanFrom(st, [b] + ([1] + rest)))
  {
    LastByte(st, b, [1] + rest);
    OneKillsId(Header(1, 0, 0, 0), rest);
  }

  // ---------------------------------------------------------------- a FIN that repeats data

  /** Two states told apart: `z` is a banner from `b`, and not the same one from `a`. */
  ghost predicate Splits(a: Scan, b: Scan, z: Bytes)
    requires Sane(a) && Sane(b)
  {
    var x, y := Judge(ScanFrom(a, z), Anything), Judge(ScanFrom(b, z), Anything);
    y.Ok? && x != y
  }

  lemma SplitInBody(st: Scan, u: Bytes) returns (z: Bytes)
    requires Sane(st) && Open(st) && u != [] && ScanFrom(st, u).Body? && !Dead(ScanFrom(st, u))
    ensures Splits(st, ScanFrom(st, u), z) && |z| < 0x8000_0000 && (st.Body? ==> |z| <= Needed(st))
  {
    var b := ScanFrom(st, u);
    z := Repeat(0, Needed(b));
    BodyGrows(b.id, b.length, b.got, z);
    if st.Body? {
      BodyGrows(st.id, st.length, st.got, u);
      BodyGrows(st.id, st.length, st.got, z);
    } else {
      Progress(st, z);
    }
  }

  lemma SplitInLength(st: Scan, u: Bytes) returns (z: Bytes)
    requires Sane(st) && st.Header? && u != []
    requires ScanFrom(st, u).Header? && ScanFrom(st, u).index == 2 && !Dead(ScanFrom(st, u))
    ensures Splits(st, ScanFrom(st, u), z) && |z| < 0x8000_0000
  {
    var b := ScanFrom(st, u);
    Progress(st, u);
    SmallWorth(b.count, b.low);
    SmallWorth(st.count, st.low);
    var length := Worth(b.count, b.low, 1);
    var body := Repeat(1, length);
    z := [1] + body;
    LengthAndBody(b, 1, body);
    assert body[..length] == body;
    if st.index == 2 {
      LengthAndBody(st, 1, body);
      HeavierLater(st.count, b.count);
    } else if st.index == 1 {
      OneKillsId(st, body);
    } else {
      assert body == [1] + Repeat(1, length - 1);
      OneAfterLengthKills(st, 1, Repeat(1, length - 1));
    }
  }

  lemma HeavierLater(i: nat, j: nat)
    requires i < j <= 4
    ensures Weight(i) < Weight(j)
  {
  }

  /** A zero packet number padded to its fifth byte, a length of one, and one byte. */
  lemma PaddedIdIsBanner(st: Scan)
    requires Sane(st) && st.Header? && st.index == 1 && st.low == 0
    ensures Judge(ScanFrom(st, Repeat(128, 5 - st.count) + ([1] + Repeat(0, 1))), Anything).Ok?
  {
    ScanConcat(st, Repeat(128, 5 - st.count), [1] + Repeat(0, 1));
    Exhausted(st);
    SmallWorth(0, 0);
    LengthAndBody(Header(2, 0, 0, 0), 1, Repeat(0, 1));
  }

  /** Padding that leaves the packet number open, and a one. */
  lemma PaddedIdDies(st: Scan, m: nat, rest: Bytes)
    requires Sane(st) && st.Header? && st.index == 1 && st.count + m <= 4
    ensures Dead(ScanFrom(st, Repeat(128, m) + ([1] + rest)))
  {
    ScanConcat(st, Repeat(128, m), [1] + rest);
    Continued(st, m);
    OneKillsId(Header(1, st.count + m, st.low, st.id), rest);
  }

  /** Both are inside the packet number, one of them further on. */
  lemma SplitWithinId(a: Scan, b: Scan) returns (z: Bytes)
    requires Sane(a) && Sane(b) && a.Header? && b.Header? && a.index == b.index == 1
    requires a.count < b.count && b.low == 0
    ensures Splits(a, b, z) && |z| < 0x8000_0000
  {
    z := Repeat(128, 5 - b.count) + ([1] + Repeat(0, 1));
    PaddedIdIsBanner(b);
    PaddedIdDies(a, 5 - b.count, Repeat(0, 1));
  }

  lemma SplitInId(st: Scan, u: Bytes) returns (z: Bytes)
    requires Sane(st) && st.Header? && u != []
    requires ScanFrom(st, u).Header? && ScanFrom(st, u).index == 1 && !Dead(ScanFrom(st, u))
    ensures Splits(st, ScanFrom(st, u), z) && |z| < 0x8000_0000
  {
    var b := ScanFrom(st, u);
    Progress(st, u);
    if st.index == 1 {
      z := SplitWithinId(st, b);
    } else {
      z := [0] + ([1] + Repeat(0, 1));
      IdAndBody(b, Repeat(0, 1));
      OneAfterLengthKills(st, 0, Repeat(0, 1));
    }
  }

  /** A packet length padded to its fifth byte, a zero packet number, a length of one, and one byte. */
  lemma PaddedFirstIsBanner(st: Scan)
    requires Sane(st) && st.Header? && st.index == 0
    ensures Judge(ScanFrom(st, Repeat(128, 5 - st.count) + ([0] + ([1] + Repeat(0, 1)))), Anything).Ok?
  {
    ScanConcat(st, Repeat(128, 5 - st.count), [0] + ([1] + Repeat(0, 1)));
    Exhausted(st);
    IdAndBody(Header(1, 0, 0, 0), Repeat(0, 1));
  }

  /** Padding that leaves the packet length open, a zero that ends it, and a one as packet number. */
  lemma PaddedFirstDies(st: Scan, m: nat, rest: Bytes)
    requires Sane(st) && st.Header? && st.index == 0 && st.count + m <= 4
    ensures Dead(ScanFrom(st, Repeat(128, m) + ([0] + ([1] + rest))))
  {
    ScanConcat(st, Repeat(128, m), [0] + ([1] + rest));
    Continued(st, m);
    OneAfterLengthKills(Header(0, st.count + m, st.low, st.id), 0, rest);
  }

  lemma SplitInFirst(st: Scan, u: Bytes) returns (z: Bytes)
    requires Sane(st) && st.Header? && u != []
    requires ScanFrom(st, u).Header? && ScanFrom(st, u).index == 0
    ensures Splits(st, ScanFrom(st, u), z) && |z| < 0x8000_0000
  {
    var b := ScanFrom(st, u);
    Progress(st, u);
    z := Repeat(128, 5 - b.count) + ([0] + ([1] + Repeat(0, 1)));
    PaddedFirstIsBanner(b);
    PaddedFirstDies(st, 5 - b.count, Repeat(0, 1));
  }

  /** Repeating data that may still lead to a banner always can be told from not repeating it. */
  lemma RepetitionSplits(st: Scan, u: Bytes) returns (z: Bytes)
    requires Sane(st) && Open(st) && u != [] && !Dead(ScanFrom(st, u))
    ensures Splits(st, ScanFrom(st, u), z) && |z| < 0x8000_0000 && (st.Body? ==> |z| <= Needed(st))
  {
    var b := ScanFrom(st, u);
    if b.Body? {
      z := SplitInBody(st, u);
    } else {
      if st.Body? { BodyGrows(st.id, st.length, st.got, u); }
      if b.index == 2 {
        z := SplitInLength(st, u);
      } else if b.index == 1 {
        z := SplitInId(st, u);
      } else {
        z := SplitInFirst(st, u);
      }
    }
  }

  // ---------------------------------------------------------------- a FIN that leaves a gap

  /** The bytes of a gap that make the rest mean something else. */
  function GapByte(st: Scan): Byte
  {
    if st.Header? && st.index == 2 && st.low == 0 then 2 else 1
  }

  lemma GapInBody(st: Scan, g: nat)
    requires st.Body? && Open(st) && g >= 1
    ensures Judge(ScanFrom(st, Repeat(1, g) + Finish(st)), Anything) != Judge(ScanFrom(st, Finish(st)), Anything)
  {
    BodyGrows(st.id, st.length, st.got, Finish(st));
    BodyGrows(st.id, st.length, st.got, Repeat(1, g) + Finish(st));
    var a, b := (st.got + (Repeat(1, g) + Finish(st)))[..st.length], (st.got + Finish(st))[..st.length];
    assert a[|st.got|] == 1 && b[|st.got|] == 0;
  }

  /** Bodies of different lengths are different banners, if one is a banner at all. */
  lemma LengthsDiffer(id: Word, m: Word, n: Word, u: Bytes, v: Bytes)
    requires m != n && Judge(Body(id, n, v), Anything).Ok?
    ensures Judge(Body(id, m, u), Anything) != Judge(Body(id, n, v), Anything)
  {
  }

  lemma GapInLength(st: Scan, g: nat)
    requires Sane(st) && st.Header? && st.index == 2 && !Dead(st) && g >= 1
    ensures Judge(ScanFrom(st, Repeat(GapByte(st), g) + Finish(st)), Anything) != Judge(ScanFrom(st, Finish(st)), Anything)
  {
    var y, x := GapByte(st), if st.low > 0 then 0 else 1;
    var rest := Repeat(y, g - 1) + Finish(st);
    SmallWorth(st.count, st.low);
    LengthAndBody(st, y, rest);
    assert Repeat(y, g) + Finish(st) == [y] + rest;
    LengthAndBody(st, x, Repeat(0, LeastLength(st.count, st.low)));
    FinishIsBanner(st);
    LengthsDiffer(st.id, Worth(st.count, st.low, y), Worth(st.count, st.low, x), rest, Repeat(0, LeastLength(st.count, st.low)));
  }

  lemma GapInFirst(st: Scan, g: nat)
    requires Sane(st) && st.Header? && st.index == 0 && g >= 1
    ensures Dead(ScanFrom(st, Repeat(1, g) + Finish(st)))
  {
    var z := Repeat(1, g) + Finish(st);
    assert z == [1] + ([1] + z[2..]);
    OneAfterLengthKills(st, 1, z[2..]);
  }

  /** With a gap before it, the shortest way to a banner leads to another verdict. */
  lemma GapSplits(st: Scan, g: nat)
    requires Sane(st) && Open(st) && !Dead(st) && g >= 1
    ensures Judge(ScanFrom(st, Repeat(GapByte(st), g) + Finish(st)), Anything) != Judge(ScanFrom(st, Finish(st)), Anything)
  {
    FinishIsBanner(st);
    if st.Body? {
      GapInBody(st, g);
    } else if st.index == 2 {
      GapInLength(st, g);
    } else if st.index == 1 {
      assert Repeat(1, g) + Finish(st) == [1] + (Repeat(1, g - 1) + Finish(st));
      OneKillsId(st, Repeat(1, g - 1) + Finish(st));
    } else {
      GapInFirst(st, g);
    }
  }

  // ---------------------------------------------------------------- main results

  /** `payload` is the part at `offset` of a stream that starts with `data`. */
  ghost predicate Carries(data: Bytes, bytes: Bytes, offset: nat, payload: Bytes)
  {
    && |bytes| < TWO_32 && data <= bytes
    && offset + |payload| <= |bytes| && payload == bytes[offset..offset + |payload|]
  }

  /** A FIN with `payload` records nothing, or what the stream has. */
  ghost predicate NotFalse(data: Bytes, bytes: Bytes, payload: Bytes, json: Json)
  {
    Recorded(data, payload, json).None? || Recorded(data, payload, json) == BannerOf(bytes, json)
  }

  /** Whatever the stream, a FIN at `offset` records no banner that the stream does not have. */
  ghost predicate NeverFalse(data: Bytes, offset: nat)
  {
    forall bytes: Bytes, payload: Bytes, json: Json :: Carries(data, bytes, offset, payload) ==> NotFalse(data, bytes, payload, json)
  }

  /** Whatever the stream, a FIN that carries its end from `offset` on records exactly what the stream has. */
  ghost predicate AlwaysRight(data: Bytes, offset: nat)
  {
    forall bytes: Bytes, payload: Bytes, json: Json :: Carries(data, bytes, offset, payload) && offset + |payload| == |bytes| ==>
      Recorded(data, payload, json) == BannerOf(bytes, json)
  }

  /**
   In order; or with a gap, where no banner is possible any more or none fits before the end of the sequence space; or
   repeating data, where the repetition leaves no banner possible.
   */
  predicate Honest(data: Bytes, offset: nat)
  {
    || offset == |data|
    || (offset > |data| && (Dead(Scanned(data)) || offset + Needed(Scanned(data)) >= TWO_32))
    || (offset < |data| && Dead(Scanned(data + data[offset..])))
  }

  lemma RoomForBanner(data: Bytes)
    requires Undecided(data)
    ensures |data| + Needed(Scanned(data)) < TWO_32 && (Scanned(data).Header? ==> |data| < 15)
    ensures Needed(Scanned(data)) > 0
  {
    ScannedReached(data);
    UndecidedIsOpen(data);
    if Scanned(data).Header? {
      SmallWorth(Scanned(data).count, Scanned(data).low);
    }
  }

  lemma InOrderIsRight(data: Bytes, bytes: Bytes, payload: Bytes, json: Json)
    requires Undecided(data) && Carries(data, bytes, |data|, payload)
    ensures Recorded(data, payload, json).None? || Recorded(data, payload, json) == BannerOf(bytes, json)
    ensures |data| + |payload| == |bytes| ==> Recorded(data, payload, json) == BannerOf(bytes, json)
  {
    var read := data + payload;
    assert read + bytes[|read|..] == bytes;
    if ParseSpec(read, json).Ok? {
      VerdictIsFinal(read, bytes[|read|..], json);
    }
    if |read| == |bytes| {
      assert read == bytes;
      if payload == [] {
        UndecidedIsOpen(data);
        ScannerIsParser(data, json);
        assert bytes == data;
      }
    }
  }

  lemma DeadNeverRecords(data: Bytes, more: Bytes, json: Json)
    requires Dead(Scanned(data))
    ensures BannerOf(data + more, json).None?
  {
    BannerScans(data, more, json);
    DeadIsSilent(Scanned(data), more, json);
  }

  lemma HonestIsNeverFalse(data: Bytes, offset: nat, bytes: Bytes, payload: Bytes, json: Json)
    requires Undecided(data) && Honest(data, offset) && Carries(data, bytes, offset, payload)
    ensures NotFalse(data, bytes, payload, json)
  {
    if offset == |data| {
      InOrderIsRight(data, bytes, payload, json);
    } else if offset > |data| {
      BannerScans(data, payload, json);
      if Recorded(data, payload, json).Some? {
        NeededIsLeast(Scanned(data), payload, json);
      }
    } else {
      var u := data[offset..];
      if |payload| <= |u| {
        assert data + payload + u[|payload|..] == data + u;
        DeadNeverRecords(data + u, [], json);
        assert data + u + [] == data + u;
        if ParseSpec(data + payload, json).Ok? {
          VerdictIsFinal(data + payload, u[|payload|..], json);
        }
      } else {
        assert data + payload == data + u + payload[|u|..];
        DeadNeverRecords(data + u, payload[|u|..], json);
      }
    }
  }

  lemma SplitIsFalse(data: Bytes, u: Bytes, z: Bytes)
    requires Splits(Scanned(data), ScanFrom(Scanned(data), u), z)
    ensures !NotFalse(data, data + z, u + z, Anything)
  {
    BannerScans(data, z, Anything);
    BannerScans(data, u + z, Anything);
    ScanConcat(Scanned(data), u, z);
  }

  /** A stream on which a FIN that repeats data records a banner that is not the stream's. */
  lemma RepeatedIsFalse(data: Bytes, offset: nat) returns (bytes: Bytes)
    requires Undecided(data) && offset < |data| && !Dead(Scanned(data + data[offset..]))
    ensures offset <= |bytes| && Carries(data, bytes, offset, bytes[offset..])
    ensures !NotFalse(data, bytes, bytes[offset..], Anything)
  {
    var u, st := data[offset..], Scanned(data);
    UndecidedIsOpen(data);
    RoomForBanner(data);
    ScanConcat(Begin(), data, u);
    var z := RepetitionSplits(st, u);
    bytes := data + z;
    assert bytes[offset..] == u + z;
    SplitIsFalse(data, u, z);
  }

  lemma TailCarries(data: Bytes, gap: Bytes, tail: Bytes)
    requires |data| + |gap| + |tail| < TWO_32
    ensures var bytes := data + (gap + tail);
      bytes[|data| + |gap|..] == tail && Carries(data, bytes, |data| + |gap|, tail)
  {
  }

  lemma GapTellsFalse(data: Bytes, gap: Bytes, tail: Bytes)
    requires tail != [] && Judge(ScanFrom(Scanned(data), tail), Anything).Ok?
    requires Judge(ScanFrom(Scanned(data), gap + tail), Anything) != Judge(ScanFrom(Scanned(data), tail), Anything)
    ensures !NotFalse(data, data + (gap + tail), tail, Anything)
  {
    BannerScans(data, tail, Anything);
    BannerScans(data, gap + tail, Anything);
  }

  lemma GapLies(data: Bytes, g: nat)
    requires Undecided(data) && !Dead(Scanned(data)) && g >= 1
    ensures var gap, tail := Repeat(GapByte(Scanned(data)), g), Finish(Scanned(data));
      !NotFalse(data, data + (gap + tail), tail, Anything)
  {
    UndecidedIsOpen(data);
    RoomForBanner(data);
    FinishIsBanner(Scanned(data));
    GapSplits(Scanned(data), g);
    GapTellsFalse(data, Repeat(GapByte(Scanned(data)), g), Finish(Scanned(data)));
  }

  lemma GapIsFalse(data: Bytes, offset: nat) returns (bytes: Bytes)
    requires Undecided(data) && offset > |data| && !Dead(Scanned(data)) && offset + Needed(Scanned(data)) < TWO_32
    ensures offset <= |bytes| && Carries(data, bytes, offset, bytes[offset..])
    ensures !NotFalse(data, bytes, bytes[offset..], Anything)
  {
    var gap, tail := Repeat(GapByte(Scanned(data)), offset - |data|), Finish(Scanned(data));
    bytes := data + (gap + tail);
    TailCarries(data, gap, tail);
    GapLies(data, offset - |data|);
  }

  /** A stream on which a FIN that is not honest records a banner that is not the stream's. */
  lemma DishonestIsFalse(data: Bytes, offset: nat) returns (bytes: Bytes)
    requires Undecided(data) && !Honest(data, offset)
    ensures offset <= |bytes| && Carries(data, bytes, offset, bytes[offset..])
    ensures !NotFalse(data, bytes, bytes[offset..], Anything)
  {
    if offset < |data| {
      bytes := RepeatedIsFalse(data, offset);
    } else {
      bytes := GapIsFalse(data, offset);
    }
  }

  /** Exactly when a FIN cannot record a false banner: for every undecided connection and every offset. */
  lemma NeverFalseIffHonest(data: Bytes, offset: nat)
    requires Undecided(data)
    ensures NeverFalse(data, offset) <==> Honest(data, offset)
  {
    if Honest(data, offset) {
      forall bytes: Bytes, payload: Bytes, json: Json | Carries(data, bytes, offset, payload)
        ensures NotFalse(data, bytes, payload, json)
      {
        HonestIsNeverFalse(data, offset, bytes, payload, json);
      }
    } else {
      var bytes := DishonestIsFalse(data, offset);
    }
  }

  /** A stream whose banner a FIN behind a gap misses. */
  lemma GapMissesBanner(data: Bytes, offset: nat) returns (bytes: Bytes)
    requires Undecided(data) && |data| < offset < TWO_32 && !Dead(Scanned(data))
    ensures offset <= |bytes| && Carries(data, bytes, offset, bytes[offset..])
    ensures BannerOf(bytes, Anything).Some? && Recorded(data, bytes[offset..], Anything).None?
  {
    var st, g := Scanned(data), offset - |data|;
    RoomForBanner(data);
    FinishIsBanner(st);
    var tail := Finish(st);
    BannerScans(data, tail, Anything);
    if g >= |tail| {
      bytes := data + tail + Repeat(0, g - |tail|);
      VerdictIsFinal(data + tail, Repeat(0, g - |tail|), Anything);
    } else {
      bytes := data + tail;
      assert bytes[offset..] == tail[g..];
      BannerScans(data, tail[g..], Anything);
      if Recorded(data, tail[g..], Anything).Some? {
        NeededIsLeast(st, tail[g..], Anything);
      }
    }
  }

  /** A stream of which a FIN that repeats data records something else. */
  lemma RepeatedIsWrong(data: Bytes, offset: nat) returns (bytes: Bytes)
    requires Undecided(data) && offset < |data| && !Dead(Scanned(data))
    ensures offset <= |bytes| && Carries(data, bytes, offset, bytes[offset..])
    ensures Recorded(data, bytes[offset..], Anything) != BannerOf(bytes, Anything)
  {
    var u := data[offset..];
    if Dead(Scanned(data + u)) {
      RoomForBanner(data);
      FinishIsBanner(Scanned(data));
      var tail := Finish(Scanned(data));
      bytes := data + tail;
      BannerScans(data, tail, Anything);
      assert data + bytes[offset..] == data + u + tail;
      DeadNeverRecords(data + u, tail, Anything);
    } else {
      bytes := RepeatedIsFalse(data, offset);
    }
  }

  /** Exactly when a FIN that ends the stream records what the stream has: in order, or where no banner is possible any more. */
  lemma AlwaysRightIff(data: Bytes, offset: nat)
    requires Undecided(data) && offset < TWO_32
    ensures AlwaysRight(data, offset) <==> offset == |data| || Dead(Scanned(data))
  {
    if offset == |data| || Dead(Scanned(data)) {
      forall bytes: Bytes, payload: Bytes, json: Json | Carries(data, bytes, offset, payload) && offset + |payload| == |bytes|
        ensures Recorded(data, payload, json) == BannerOf(bytes, json)
      {
        if offset == |data| {
          InOrderIsRight(data, bytes, payload, json);
        } else {
          DeadNeverRecords(data, payload, json);
          DeadNeverRecords(data, bytes[|data|..], json);
          assert data + bytes[|data|..] == bytes;
        }
      }
    } else if offset < |data| {
      var bytes := RepeatedIsWrong(data, offset);
    } else {
      var bytes := GapMissesBanner(data, offset);
    }
  }
}
