/**
 The parser as an automaton that reads one byte at a time. It is an independent account of the same
 verdicts, and the one that says what a stream can still become: whether it can end in a banner at
 all, and how many bytes that takes at least.
 */
module Scanner {
  import opened Minecraft
  import opened Modular

  /** Inside varint number `index`, after `count` bytes of it worth `low`; or behind the three varints. */
  datatype Scan =
    | Header(index: nat, count: nat, low: nat, id: Word)
    | Body(id: Word, length: Word, got: Bytes)

  predicate Sane(st: Scan)
  {
    st.Header? ==> st.index <= 2 && st.count <= 4 && st.low < Weight(st.count)
  }

  function Begin(): (st: Scan)
    ensures Sane(st)
  {
    Header(0, 0, 0, 0)
  }

  /** Behind a complete varint. */
  function Next(index: nat, id: Word, value: Word): (st: Scan)
    requires index <= 2
    ensures Sane(st)
  {
    if index == 0 then Header(1, 0, 0, 0) else if index == 1 then Header(2, 0, 0, value) else Body(id, value, [])
  }

  /** What a partial varint is worth with one more byte. */
  function Worth(count: nat, low: nat, b: Byte): nat
    requires count <= 4
  {
    var x := b % 128;
    if count == 0 then low + x
    else if count == 1 then low + 0x80 * x
    else if count == 2 then low + 0x4000 * x
    else if count == 3 then low + 0x20_0000 * x
    else low + 0x1000_0000 * x
  }

  lemma SmallWorth(count: nat, low: nat)
    requires count <= 4 && low < Weight(count)
    ensures Worth(count, low, 0) == low && Worth(count, low, 128) == low
    ensures Worth(count, low, 1) == low + Weight(count) && Worth(count, low, 2) == low + 2 * Weight(count)
    ensures 0 < low + Weight(count) && low + 2 * Weight(count) < 0x4000_0000
  {
  }

  function Step(st: Scan, b: Byte): (st': Scan)
    requires Sane(st)
    ensures Sane(st')
  {
    match st
    case Body(id, length, got) => Body(id, length, got + [b])
    case Header(index, count, low, id) =>
      var low' := Worth(count, low, b);
      if b >= 128 && count < 4 then Header(index, count + 1, low', id) else Next(index, id, low' % TWO_32)
  }

  function ScanFrom(st: Scan, data: Bytes): (st': Scan)
    requires Sane(st)
    ensures Sane(st')
  {
    if data == [] then st else Step(ScanFrom(st, data[..|data| - 1]), data[|data| - 1])
  }

  function Scanned(data: Bytes): (st: Scan)
    ensures Sane(st)
  {
    ScanFrom(Begin(), data)
  }

  /** The most generous notion of valid JSON. */
  predicate Anything(body: Bytes)
  {
    true
  }

  /** The verdict on what has been read. */
  function Judge(st: Scan, json: Json): Verdict
  {
    match st
    case Header(_, _, _, _) => Incomplete
    case Body(id, length, got) =>
      if id != 0 || Signed(length) <= 0 then Invalid
      else if |got| < length then Incomplete
      else if json(got[..length]) then Ok(got[..length]) else Invalid
  }

  lemma {:induction false} ScanConcat(st: Scan, a: Bytes, b: Bytes)
    requires Sane(st)
    ensures ScanFrom(st, a + b) == ScanFrom(ScanFrom(st, a), b)
  {
    if b == [] {
      assert a + b == a;
    } else {
      var n := |b| - 1;
      ScanConcat(st, a, b[..n]);
      assert (a + b)[..|a + b| - 1] == a + b[..n];
    }
  }

  lemma ScanOne(st: Scan, b: Byte)
    requires Sane(st)
    ensures ScanFrom(st, [b]) == Step(st, b)
  {
    assert [b][..0] == [];
  }

  lemma ScanFront(st: Scan, data: Bytes)
    requires Sane(st) && data != []
    ensures ScanFrom(st, data) == ScanFrom(Step(st, data[0]), data[1..])
  {
    assert data == [data[0]] + data[1..];
    ScanConcat(st, [data[0]], data[1..]);
    ScanOne(st, data[0]);
  }

  // ---------------------------------------------------------------- the automaton is the parser

  function LowBits(s: Bytes): (digits: seq<nat>)
    ensures |digits| == |s|
  {
    seq(|s|, i requires 0 <= i < |s| => s[i] % 128)
  }

  ghost predicate AllContinue(data: Bytes, pos: nat)
  {
    forall i :: pos <= i < |data| ==> data[i] >= 128
  }

  lemma {:induction false} ContinuedIsMissing(data: Bytes, pos: nat, end: nat)
    requires pos <= |data| < end && AllContinue(data, pos)
    ensures GroupsAt(data, pos, end).NoGroups?
    decreases end - pos
  {
    if pos < |data| {
      ContinuedIsMissing(data, pos + 1, end);
    }
  }

  lemma {:induction false} LastByteCompletes(data: Bytes, b: Byte, pos: nat, end: nat)
    requires pos <= |data| < end && AllContinue(data, pos) && (b < 128 || |data| + 1 == end)
    ensures GroupsAt(data + [b], pos, end) == Groups(LowBits(data[pos..]) + [b % 128], |data| + 1)
    decreases end - pos
  {
    if pos < |data| {
      LastByteCompletes(data, b, pos + 1, end);
      assert LowBits(data[pos..]) == [data[pos] % 128] + LowBits(data[pos + 1..]);
    } else {
      assert LowBits(data[pos..]) == [];
      assert b >= 128 ==> GroupsAt(data + [b], pos + 1, end) == Groups([], end);
    }
  }

  /** The varint that starts at `pos` has `count` bytes so far, worth `low`. */
  ghost predicate Partial(data: Bytes, pos: nat, count: nat, low: nat)
  {
    pos + count == |data| && count <= 4 && AllContinue(data, pos) && low == Decode(LowBits(data[pos..]))
  }

  lemma PartialIsMissing(data: Bytes, pos: nat, count: nat, low: nat)
    requires Partial(data, pos, count, low)
    ensures ReadAt(data, pos).Missing?
  {
    ContinuedIsMissing(data, pos, pos + 5);
  }

  lemma WorthIsDecode(data: Bytes, pos: nat, count: nat, low: nat, b: Byte)
    requires Partial(data, pos, count, low)
    ensures Worth(count, low, b) == Decode(LowBits(data[pos..]) + [b % 128])
    ensures LowBits((data + [b])[pos..]) == LowBits(data[pos..]) + [b % 128]
  {
    DecodeAppend(LowBits(data[pos..]), b % 128);
    assert (data + [b])[pos..] == data[pos..] + [b];
  }

  lemma PartialStep(data: Bytes, pos: nat, count: nat, low: nat, b: Byte)
    requires Partial(data, pos, count, low)
    ensures var low' := Worth(count, low, b);
      if b >= 128 && count < 4 then Partial(data + [b], pos, count + 1, low')
      else ReadAt(data + [b], pos) == Varint(low' % TWO_32, |data| + 1)
  {
    WorthIsDecode(data, pos, count, low, b);
    if !(b >= 128 && count < 4) {
      LastByteCompletes(data, b, pos, pos + 5);
    }
  }

  lemma NothingYet(data: Bytes)
    ensures Partial(data, |data|, 0, 0)
  {
    assert LowBits(data[|data|..]) == [];
  }

  /** `st` is what the parser knows after `data`. */
  ghost predicate Matches(data: Bytes, st: Scan)
  {
    var a := ReadAt(data, 0);
    match st
    case Header(index, count, low, id) =>
      if index == 0 then Partial(data, 0, count, low)
      else if a.Missing? then false
      else if index == 1 then Partial(data, a.next, count, low)
      else var b := ReadAt(data, a.next); b.Varint? && b.value == id && Partial(data, b.next, count, low)
    case Body(id, length, got) =>
      if a.Missing? then false else
      var b := ReadAt(data, a.next);
      if b.Missing? then false else
      var c := ReadAt(data, b.next);
      c.Varint? && b.value == id && c.value == length && c.next <= |data| && got == data[c.next..]
  }

  lemma MatchesHeaderStep(data: Bytes, st: Scan, b: Byte)
    requires Sane(st) && st.Header? && Matches(data, st)
    ensures Matches(data + [b], Step(st, b))
  {
    var x := ReadAt(data, 0);
    NothingYet(data + [b]);
    if st.index == 0 {
      PartialStep(data, 0, st.count, st.low, b);
    } else {
      VarintExtend(data, [b], 0);
      if st.index == 1 {
        PartialStep(data, x.next, st.count, st.low, b);
      } else {
        var y := ReadAt(data, x.next);
        VarintExtend(data, [b], x.next);
        PartialStep(data, y.next, st.count, st.low, b);
      }
    }
  }

  lemma MatchesBodyStep(data: Bytes, st: Scan, b: Byte)
    requires st.Body? && Matches(data, st)
    ensures Matches(data + [b], Step(st, b))
  {
    var x := ReadAt(data, 0);
    var y := ReadAt(data, x.next);
    VarintExtend(data, [b], 0);
    VarintExtend(data, [b], x.next);
    VarintExtend(data, [b], y.next);
    var z := ReadAt(data, y.next);
    assert (data + [b])[z.next..] == data[z.next..] + [b];
  }

  lemma {:induction false} ScannedMatches(data: Bytes)
    ensures Matches(data, Scanned(data))
  {
    if data == [] {
      NothingYet(data);
    } else {
      var n := |data| - 1;
      ScannedMatches(data[..n]);
      assert data == data[..n] + [data[n]];
      if Scanned(data[..n]).Header? {
        MatchesHeaderStep(data[..n], Scanned(data[..n]), data[n]);
      } else {
        MatchesBodyStep(data[..n], Scanned(data[..n]), data[n]);
      }
    }
  }

  /** Byte by byte or all at once: the verdict is the same, for every input. */
  lemma ScannerIsParser(data: Bytes, json: Json)
    ensures ParseSpec(data, json) == Judge(Scanned(data), json)
  {
    ScannedMatches(data);
    var st := Scanned(data);
    var a := ReadAt(data, 0);
    if st.Header? {
      if st.index == 0 {
        PartialIsMissing(data, 0, st.count, st.low);
      } else if st.index == 1 {
        PartialIsMissing(data, a.next, st.count, st.low);
      } else {
        PartialIsMissing(data, ReadAt(data, a.next).next, st.count, st.low);
      }
    } else {
      var c := ReadAt(data, ReadAt(data, a.next).next);
      if 0 <= Signed(c.value) && c.value <= |st.got| {
        assert data[c.next..c.next + c.value] == st.got[..c.value];
      }
    }
  }

  // ---------------------------------------------------------------- what can still come of it

  /** No continuation is a banner: the packet number is not zero, or the length is not positive. */
  predicate Dead(st: Scan)
  {
    match st
    case Header(index, _, low, id) => (index == 1 && low != 0) || (index == 2 && id != 0)
    case Body(id, length, _) => id != 0 || Signed(length) <= 0
  }

  /** A group put at its place leaves the groups below it, so a number that is not zero stays so, on 32 bits too. */
  lemma WorthStaysPositive(count: nat, low: nat, b: Byte)
    requires count <= 4 && 0 < low < Weight(count)
    ensures Worth(count, low, b) >= low && Worth(count, low, b) % TWO_32 != 0
  {
    if count == 4 {
      TopGroup(low, b % 128);
    }
  }

  lemma TopGroup(low: nat, x: nat)
    requires low < 0x1000_0000 && x < 128
    ensures (low + 0x1000_0000 * x) % TWO_32 == low + 0x1000_0000 * (x % 16)
  {
    var q, r := x / 16, x % 16;
    assert low + 0x1000_0000 * x == q * TWO_32 + (low + 0x1000_0000 * r);
    RemainderUnique(low + 0x1000_0000 * x, q, low + 0x1000_0000 * r, TWO_32);
  }

  lemma DeadStays(st: Scan, b: Byte)
    requires Sane(st) && Dead(st)
    ensures Dead(Step(st, b))
  {
    if st.Header? && st.index == 1 {
      WorthStaysPositive(st.count, st.low, b);
    }
  }

  lemma {:induction false} DeadIsSilent(st: Scan, data: Bytes, json: Json)
    requires Sane(st) && Dead(st)
    ensures Dead(ScanFrom(st, data)) && !Judge(ScanFrom(st, data), json).Ok?
  {
    if data != [] {
      var n := |data| - 1;
      DeadIsSilent(st, data[..n], json);
      DeadStays(ScanFrom(st, data[..n]), data[n]);
    }
  }

  /** The least positive length a partial length varint can still become. */
  function LeastLength(count: nat, low: nat): (n: nat)
    requires count <= 4
    ensures n > 0
  {
    if low > 0 then low else Weight(count)
  }

  /** The least number of bytes to a banner. */
  function Needed(st: Scan): nat
    requires Sane(st)
  {
    match st
    case Header(index, count, low, _) => if index == 0 then 4 else if index == 1 then 3 else 1 + LeastLength(count, low)
    case Body(_, length, got) => if |got| >= length then 0 else length - |got|
  }

  /** One more group takes a length no lower than the least that was possible. */
  lemma LengthGrows(count: nat, low: nat, b: Byte)
    requires count <= 4 && low < Weight(count)
    ensures Worth(count, low, b) > 0 ==> LeastLength(count, low) <= Worth(count, low, b)
    ensures Worth(count, low, b) % TWO_32 > 0 ==> LeastLength(count, low) <= Worth(count, low, b) % TWO_32
  {
    if count == 4 {
      TopGroup(low, b % 128);
    }
  }

  lemma NeededStep(st: Scan, b: Byte)
    requires Sane(st) && !Dead(Step(st, b))
    ensures !Dead(st) && Needed(st) <= 1 + Needed(Step(st, b))
  {
    if Dead(st) {
      DeadStays(st, b);
    } else if st.Header? && st.index == 2 {
      LengthGrows(st.count, st.low, b);
    }
  }

  /** No shorter continuation is one. */
  lemma {:induction false} NeededIsLeast(st: Scan, data: Bytes, json: Json)
    requires Sane(st) && Judge(ScanFrom(st, data), json).Ok?
    ensures !Dead(st) && Needed(st) <= |data|
    decreases |data|
  {
    if data != [] {
      ScanFront(st, data);
      NeededIsLeast(Step(st, data[0]), data[1..], json);
      NeededStep(st, data[0]);
    }
  }

  function Repeat(b: Byte, n: nat): (s: Bytes)
    ensures |s| == n && forall i :: 0 <= i < n ==> s[i] == b
  {
    seq(n, _ => b)
  }

  lemma {:induction false} BodyGrows(id: Word, length: Word, got: Bytes, data: Bytes)
    ensures ScanFrom(Body(id, length, got), data) == Body(id, length, got + data)
  {
    if data == [] {
      assert got + data == got;
    } else {
      var n := |data| - 1;
      BodyGrows(id, length, got, data[..n]);
      assert got + data[..n] + [data[n]] == got + data;
    }
  }

  /** One byte below 128 completes a varint. */
  lemma LastByte(st: Scan, b: Byte, rest: Bytes)
    requires Sane(st) && st.Header? && b < 128
    ensures ScanFrom(st, [b] + rest) == ScanFrom(Next(st.index, st.id, Worth(st.count, st.low, b) % TWO_32), rest)
  {
    ScanFront(st, [b] + rest);
    assert ([b] + rest)[1..] == rest;
  }

  lemma SmallNext(index: nat, count: nat, low: nat, id: Word, b: Byte)
    requires index <= 2 && count <= 4 && low < Weight(count) && b <= 2
    ensures Worth(count, low, b) < TWO_32
    ensures Next(index, id, Worth(count, low, b) % TWO_32) == Next(index, id, Worth(count, low, b))
  {
    SmallWorth(count, low);
    assert b == 0 || b == 1 || b == 2;
  }

  /** A length varint completed by a small byte, and what follows. */
  lemma LengthAndBody(st: Scan, b: Byte, body: Bytes)
    requires Sane(st) && st.Header? && st.index == 2 && b <= 2
    ensures Worth(st.count, st.low, b) < TWO_32
    ensures ScanFrom(st, [b] + body) == Body(st.id, Worth(st.count, st.low, b), body)
  {
    SmallNext(st.index, st.count, st.low, st.id, b);
    LastByte(st, b, body);
    BodyGrows(st.id, Worth(st.count, st.low, b), [], body);
    assert [] + body == body;
  }

  /** A zero packet number completed by a 0, a length of one, and what follows. */
  lemma IdAndBody(st: Scan, body: Bytes)
    requires Sane(st) && st.Header? && st.index == 1 && st.low == 0
    ensures ScanFrom(st, [0] + ([1] + body)) == Body(0, 1, body)
  {
    SmallNext(1, st.count, 0, st.id, 0);
    SmallWorth(st.count, 0);
    LastByte(st, 0, [1] + body);
    SmallWorth(0, 0);
    LengthAndBody(Header(2, 0, 0, 0), 1, body);
  }

  lemma AllAndBody(st: Scan, body: Bytes)
    requires Sane(st) && st.Header? && st.index == 0
    ensures ScanFrom(st, [1] + ([0] + ([1] + body))) == Body(0, 1, body)
  {
    LastByte(st, 1, [0] + ([1] + body));
    IdAndBody(Header(1, 0, 0, 0), body);
  }

  /** The shortest way to a banner. */
  function Finish(st: Scan): (tail: Bytes)
    requires Sane(st)
    ensures |tail| == Needed(st)
  {
    match st
    case Header(index, count, low, _) =>
      if index == 0 then [1] + ([0] + ([1] + Repeat(0, 1)))
      else if index == 1 then [0] + ([1] + Repeat(0, 1))
      else [if low > 0 then 0 else 1] + Repeat(0, LeastLength(count, low))
    case Body(_, length, got) => Repeat(0, Needed(st))
  }

  /** It is one, from wherever a banner is possible. */
  lemma FinishIsBanner(st: Scan)
    requires Sane(st) && !Dead(st)
    ensures Judge(ScanFrom(st, Finish(st)), Anything).Ok?
  {
    if st.Body? {
      BodyGrows(st.id, st.length, st.got, Repeat(0, Needed(st)));
    } else if st.index == 0 {
      AllAndBody(st, Repeat(0, 1));
    } else if st.index == 1 {
      IdAndBody(st, Repeat(0, 1));
    } else {
      SmallWorth(st.count, st.low);
      LengthAndBody(st, if st.low > 0 then 0 else 1, Repeat(0, LeastLength(st.count, st.low)));
    }
  }

  /** How long the data is that leads to a state. */
  ghost predicate Reached(data: Bytes, st: Scan)
  {
    match st
    case Header(index, count, _, _) => |data| <= 5 * index + count
    case Body(_, _, got) => |data| <= 15 + |got|
  }

  lemma {:induction false} ScannedReached(data: Bytes)
    ensures Reached(data, Scanned(data))
  {
    if data != [] {
      ScannedReached(data[..|data| - 1]);
    }
  }

  /** No continuation of `data` is a banner. */
  ghost predicate Hopeless(data: Bytes)
  {
    forall more: Bytes :: !ParseSpec(data + more, Anything).Ok?
  }

  lemma ScannedHope(data: Bytes, more: Bytes)
    ensures ParseSpec(data + more, Anything) == Judge(ScanFrom(Scanned(data), more), Anything)
  {
    ScannerIsParser(data + more, Anything);
    ScanConcat(Begin(), data, more);
  }

  /** The dead states are those behind which no banner is possible any more. */
  lemma HopelessIffDead(data: Bytes)
    ensures Hopeless(data) <==> Dead(Scanned(data))
  {
    if Dead(Scanned(data)) {
      forall more: Bytes ensures !ParseSpec(data + more, Anything).Ok? {
        ScannedHope(data, more);
        DeadIsSilent(Scanned(data), more, Anything);
      }
    } else {
      ScannedHope(data, Finish(Scanned(data)));
      FinishIsBanner(Scanned(data));
    }
  }

  /**
   Once the three header varints are read, data is invalid exactly if no continuation is a banner, whatever counts as
   valid JSON: the parser neither gives up early nor waits in vain.
   */
  lemma InvalidIffHopeless(data: Bytes)
    requires Scanned(data).Body?
    ensures ParseSpec(data, Anything).Invalid? <==> Hopeless(data)
  {
    HopelessIffDead(data);
    ScannerIsParser(data, Anything);
  }
}
