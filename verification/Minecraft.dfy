/**
 The server-list-ping parser: variable-length integers over bytes and the response frame.
 A 32-bit integer is given by its bit pattern, a number below 2^32; the bits that `|` and `<<`
 put together never overlap, so they are added. Whether a body is valid JSON is a parameter.
 */
module Minecraft {
  import opened Modular
  import opened Wrappers

  type Json = Bytes -> bool

  // ---------------------------------------------------------------- varints

  datatype Varint = Missing | Varint(value: Word, next: nat)

  /** The seven-bit groups of a varint that ends at position `end` at the latest, low group first. */
  datatype Groups = NoGroups | Groups(digits: seq<nat>, next: nat)

  function GroupsAt(data: Bytes, pos: nat, end: nat): (r: Groups)
    requires pos <= end
    ensures r.Groups? ==> r.next == pos + |r.digits| <= end && (pos <= |data| ==> r.next <= |data|)
    decreases end - pos
  {
    if pos == end then Groups([], pos)
    else if pos >= |data| then NoGroups
    else if data[pos] < 128 then Groups([data[pos] % 128], pos + 1)
    else
      var rest := GroupsAt(data, pos + 1, end);
      if rest.NoGroups? then NoGroups else Groups([data[pos] % 128] + rest.digits, rest.next)
  }

  /** The number the groups stand for. */
  function Decode(digits: seq<nat>): nat
  {
    if digits == [] then 0 else digits[0] + 128 * Decode(digits[1..])
  }

  /** The varint at a position: up to five bytes, kept to 32 bits. */
  function ReadAt(data: Bytes, pos: nat): Varint
  {
    match GroupsAt(data, pos, pos + 5)
    case NoGroups => Missing
    case Groups(digits, next) => Varint(Decode(digits) % TWO_32, next)
  }

  /** 2^(7 i), the weight of group `i`. */
  function Weight(i: nat): nat
    requires i < 5
  {
    if i == 0 then 1
    else if i == 1 then 0x80
    else if i == 2 then 0x4000
    else if i == 3 then 0x20_0000
    else 0x1000_0000
  }

  lemma {:induction false} DecodeAppend(digits: seq<nat>, x: nat)
    requires |digits| < 5
    ensures Decode(digits + [x]) == Decode(digits) + x * Weight(|digits|)
  {
    if digits != [] {
      DecodeAppend(digits[1..], x);
      assert (digits + [x])[1..] == digits[1..] + [x];
    }
  }

  ghost function Prepend(digits: seq<nat>, r: Groups): Groups
  {
    if r.NoGroups? then NoGroups else Groups(digits + r.digits, r.next)
  }

  lemma PrependStep(digits: seq<nat>, data: Bytes, at: nat, end: nat)
    requires at < |data| && at < end
    ensures Prepend(digits, GroupsAt(data, at, end))
         == if data[at] < 128 then Groups(digits + [data[at] % 128], at + 1)
            else Prepend(digits + [data[at] % 128], GroupsAt(data, at + 1, end))
  {
    var rest := GroupsAt(data, at + 1, end);
    if rest.Groups? {
      assert digits + ([data[at] % 128] + rest.digits) == (digits + [data[at] % 128]) + rest.digits;
    }
  }

  /** Adding a group at its place, on 32 bits. */
  lemma AccumulateStep(digits: seq<nat>, x: nat, ans: int)
    requires |digits| < 5 && ans == Decode(digits) % TWO_32
    ensures (ans + x * Weight(|digits|)) % TWO_32 == Decode(digits + [x]) % TWO_32
  {
    DecodeAppend(digits, x);
    AddModulo(Decode(digits), x * Weight(|digits|));
  }

  /** `i` groups have been read, and what is still to come completes them. */
  ghost predicate Reading(data: Bytes, pos: nat, digits: seq<nat>, ans: int)
  {
    && |digits| <= 5 && ans == Decode(digits) % TWO_32
    && GroupsAt(data, pos, pos + 5) == Prepend(digits, GroupsAt(data, pos + |digits|, pos + 5))
  }

  lemma ReadingEnds(data: Bytes, pos: nat, digits: seq<nat>, ans: int)
    requires Reading(data, pos, digits, ans)
    ensures |digits| == 5 ==> ReadAt(data, pos) == Varint(ans, pos + 5)
    ensures |digits| < 5 && pos + |digits| >= |data| ==> ReadAt(data, pos).Missing?
  {
    if |digits| == 5 {
      assert GroupsAt(data, pos + |digits|, pos + 5) == Groups([], pos + 5);
      assert digits + [] == digits;
    }
  }

  lemma ReadingStep(data: Bytes, pos: nat, digits: seq<nat>, ans: int)
    requires Reading(data, pos, digits, ans) && |digits| < 5 && pos + |digits| < |data|
    ensures var byte := data[pos + |digits|];
      var more := (ans + (byte % 128) * Weight(|digits|)) % TWO_32;
      && (byte < 128 ==> ReadAt(data, pos) == Varint(more, pos + |digits| + 1))
      && (byte >= 128 ==> Reading(data, pos, digits + [byte % 128], more))
  {
    var byte := data[pos + |digits|];
    PrependStep(digits, data, pos + |digits|, pos + 5);
    AccumulateStep(digits, byte % 128, ans);
  }

  /** The loop of `read_varint`: each byte's low seven bits are put at their place. */
  method ReadVarint(data: Bytes, pos: nat) returns (r: Varint)
    ensures r == ReadAt(data, pos)
  {
    var ans := 0;
    ghost var digits: seq<nat> := [];
    StartReading(data, pos);
    for i := 0 to 5
      invariant |digits| == i && Reading(data, pos, digits, ans)
    {
      ReadingEnds(data, pos, digits, ans);
      if pos + i >= |data| {
        return Missing;
      }
      var byte := data[pos + i];
      ReadingStep(data, pos, digits, ans);
      ans := (ans + (byte % 128) * Weight(i)) % TWO_32;
      if byte < 128 {
        return Varint(ans, pos + i + 1);
      }
      digits := digits + [byte % 128];
    }
    ReadingEnds(data, pos, digits, ans);
    r := Varint(ans, pos + 5);
  }

  lemma StartReading(data: Bytes, pos: nat)
    ensures Reading(data, pos, [], 0)
  {
    var all := GroupsAt(data, pos, pos + 5);
    if all.Groups? {
      assert [] + all.digits == all.digits;
    }
  }

  /** The bytes of a value, low seven bits first; the original's masked arithmetic shift is the quotient. */
  function WriteLoop(value: Word): (bytes: Bytes)
  {
    if value == 0 then []
    else [value % 128 + if value / 128 != 0 then 128 else 0] + WriteLoop(value / 128)
  }

  function Written(value: Word): (bytes: Bytes)
  {
    if value == 0 then [0] else WriteLoop(value)
  }

  /** The loop of `write_varint`. */
  method WriteVarint(writer: Bytes, value: Word) returns (writer': Bytes)
    ensures writer' == writer + Written(value)
  {
    if value == 0 {
      return writer + [0];
    }
    writer' := writer;
    var left := value;
    while left != 0
      invariant writer' + WriteLoop(left) == writer + WriteLoop(value)
      decreases left
    {
      var byte := left % 128;
      if left / 128 != 0 {
        byte := byte + 128;
      }
      assert writer' + WriteLoop(left) == (writer' + [byte]) + WriteLoop(left / 128);
      left := left / 128;
      writer' := writer' + [byte];
    }
  }

  /** A varint is read the same from any prefix that holds all of it, and is missing from any shorter one. */
  lemma {:induction false} GroupsCut(data: Bytes, pos: nat, end: nat, k: nat)
    requires pos <= end && pos <= k <= |data| && GroupsAt(data, pos, end).Groups?
    ensures var r := GroupsAt(data, pos, end);
      GroupsAt(data[..k], pos, end) == if r.next <= k then r else NoGroups
    decreases end - pos
  {
    if pos < end && pos < k && data[pos] >= 128 {
      GroupsCut(data, pos + 1, end, k);
    }
  }

  lemma VarintCut(data: Bytes, pos: nat, k: nat)
    requires pos <= k <= |data| && ReadAt(data, pos).Varint?
    ensures ReadAt(data[..k], pos) == if ReadAt(data, pos).next <= k then ReadAt(data, pos) else Missing
  {
    GroupsCut(data, pos, pos + 5, k);
  }

  /** Bytes beyond a varint do not change it. */
  lemma {:induction false} GroupsExtend(data: Bytes, more: Bytes, pos: nat, end: nat)
    requires pos <= end && pos <= |data| && GroupsAt(data, pos, end).Groups?
    ensures GroupsAt(data + more, pos, end) == GroupsAt(data, pos, end)
    decreases end - pos
  {
    if pos < end && data[pos] >= 128 {
      GroupsExtend(data, more, pos + 1, end);
    }
  }

  lemma VarintExtend(data: Bytes, more: Bytes, pos: nat)
    requires pos <= |data| && ReadAt(data, pos).Varint?
    ensures ReadAt(data + more, pos) == ReadAt(data, pos)
  {
    GroupsExtend(data, more, pos, pos + 5);
  }

  /** The base-128 digits of a value. */
  function Digits(value: nat): (digits: seq<nat>)
    ensures Decode(digits) == value
  {
    if value == 0 then [] else [value % 128] + Digits(value / 128)
  }

  /** The number of digits is bounded by the size of the value. */
  lemma DigitCount(value: Word)
    ensures |Digits(value)| <= 5
  {
    var v1 := value / 128;
    var v2 := v1 / 128;
    var v3 := v2 / 128;
    var v4 := v3 / 128;
    assert v4 < 16;
    assert |Digits(v4)| <= 1;
    assert |Digits(v3)| <= 2;
    assert |Digits(v2)| <= 3;
    assert |Digits(v1)| <= 4;
  }

  /** The bytes of `value` stand at a position of the stream. */
  ghost predicate WrittenAt(data: Bytes, at: nat, value: Word)
  {
    at + |WriteLoop(value)| <= |data| && data[at..at + |WriteLoop(value)|] == WriteLoop(value)
  }

  lemma WrittenAtRest(data: Bytes, at: nat, value: Word)
    requires value != 0 && WrittenAt(data, at, value)
    ensures at < |data| && data[at] == value % 128 + if value / 128 != 0 then 128 else 0
    ensures WrittenAt(data, at + 1, value / 128) && |WriteLoop(value)| == 1 + |WriteLoop(value / 128)|
  {
    assert data[at..at + |WriteLoop(value)|][0] == data[at];
    assert data[at + 1..at + |WriteLoop(value)|] == WriteLoop(value)[1..];
  }

  /** The groups of what was written are the digits of the value, wherever it stands in the stream. */
  lemma {:induction false} WrittenGroups(data: Bytes, at: nat, value: Word, end: nat)
    requires value != 0 && WrittenAt(data, at, value) && at + |Digits(value)| <= end
    ensures |WriteLoop(value)| == |Digits(value)| >= 1
    ensures GroupsAt(data, at, end) == Groups(Digits(value), at + |WriteLoop(value)|)
    decreases value
  {
    WrittenAtRest(data, at, value);
    if value / 128 != 0 {
      WrittenGroups(data, at + 1, value / 128, end);
    } else {
      assert Digits(value) == [value];
    }
  }

  lemma StandsBetween(before: Bytes, value: Word, after: Bytes)
    requires value != 0
    ensures WrittenAt(before + Written(value) + after, |before|, value)
  {
  }

  lemma ZeroAt(data: Bytes, at: nat)
    requires at < |data| && data[at] == 0
    ensures ReadAt(data, at) == Varint(0, at + 1)
  {
    assert GroupsAt(data, at, at + 5) == Groups([0], at + 1);
  }

  lemma WrittenReads(data: Bytes, at: nat, value: Word)
    requires value != 0 && WrittenAt(data, at, value)
    ensures ReadAt(data, at) == Varint(value, at + |WriteLoop(value)|) && 1 <= |WriteLoop(value)| <= 5
  {
    DigitCount(value);
    WrittenGroups(data, at, value, at + 5);
  }

  /** Reading undoes writing, consumes exactly the one to five bytes written, and ignores what surrounds them. */
  lemma VarintRoundTrip(before: Bytes, value: Word, after: Bytes)
    ensures 1 <= |Written(value)| <= 5
    ensures ReadAt(before + Written(value) + after, |before|) == Varint(value, |before| + |Written(value)|)
  {
    if value == 0 {
      ZeroAt(before + Written(value) + after, |before|);
    } else {
      StandsBetween(before, value, after);
      WrittenReads(before + Written(value) + after, |before|, value);
    }
  }

  // ---------------------------------------------------------------- the response frame

  datatype Verdict = Ok(body: Bytes) | Invalid | Incomplete

  /** The 32-bit pattern read as a signed number. */
  function Signed(w: Word): int
  {
    if w < 0x8000_0000 then w else w - TWO_32
  }

  /** What follows the three header varints. */
  function ParseBody(data: Bytes, id: Word, length: Word, pos: nat, json: Json): Verdict
    requires pos <= |data|
  {
    if id != 0 || Signed(length) <= 0 then Invalid
    else if |data| - pos < length then Incomplete
    else
      var body := data[pos..pos + length];
      if json(body) then Ok(body) else Invalid
  }

  function ParseSpec(data: Bytes, json: Json): Verdict
  {
    var a := ReadAt(data, 0);
    if a.Missing? then Incomplete else
    var b := ReadAt(data, a.next);
    if b.Missing? then Incomplete else
    var c := ReadAt(data, b.next);
    if c.Missing? then Incomplete else
    ParseBody(data, b.value, c.value, c.next, json)
  }

  method Parse(data: Bytes, json: Json) returns (verdict: Verdict)
    ensures verdict == ParseSpec(data, json)
  {
    var position := 0;
    var length := ReadVarint(data, position);
    if length.Missing? {
      return Incomplete;
    }
    var id := ReadVarint(data, length.next);
    if id.Missing? {
      return Incomplete;
    }
    var responseLength := ReadVarint(data, id.next);
    if responseLength.Missing? {
      return Incomplete;
    }
    if id.value != 0 || Signed(responseLength.value) <= 0 {
      return Invalid;
    }
    var buffer := data[responseLength.next..];
    if |buffer| < responseLength.value {
      return Incomplete;
    }
    var body := buffer[..responseLength.value];
    assert body == data[responseLength.next..responseLength.next + responseLength.value];
    verdict := if json(body) then Ok(body) else Invalid;
  }

  /** A verdict other than Incomplete is final: more bytes do not change it. */
  lemma VerdictIsFinal(data: Bytes, more: Bytes, json: Json)
    requires !ParseSpec(data, json).Incomplete?
    ensures ParseSpec(data + more, json) == ParseSpec(data, json)
  {
    var a := ReadAt(data, 0);
    var b := ReadAt(data, a.next);
    var c := ReadAt(data, b.next);
    VarintExtend(data, more, 0);
    VarintExtend(data, more, a.next);
    VarintExtend(data, more, b.next);
    if |data| - c.next >= c.value {
      assert (data + more)[c.next..c.next + c.value] == data[c.next..c.next + c.value];
    }
  }

  lemma PrefixVerdict(data: Bytes, j: nat, k: nat, json: Json)
    requires j <= k <= |data| && !ParseSpec(data[..j], json).Incomplete?
    ensures ParseSpec(data[..k], json) == ParseSpec(data[..j], json)
  {
    VerdictIsFinal(data[..j], data[j..k], json);
    assert data[..j] + data[j..k] == data[..k];
  }

  /** A decided stream has a decision point: every shorter prefix is Incomplete, every longer one has the verdict. */
  lemma {:induction false} DecisionPoint(data: Bytes, k: nat, json: Json) returns (d: nat)
    requires k <= |data| && !ParseSpec(data[..k], json).Incomplete?
    ensures d <= k
    ensures forall j :: 0 <= j < d ==> ParseSpec(data[..j], json).Incomplete?
    ensures forall j :: d <= j <= |data| ==> ParseSpec(data[..j], json) == ParseSpec(data, json)
  {
    if j :| 0 <= j < k && !ParseSpec(data[..j], json).Incomplete? {
      d := DecisionPoint(data, j, json);
    } else {
      d := k;
      assert data[..|data|] == data;
      forall j | k <= j <= |data| ensures ParseSpec(data[..j], json) == ParseSpec(data, json) {
        PrefixVerdict(data, k, j, json);
        PrefixVerdict(data, k, |data|, json);
      }
    }
  }

  /** A response as a server writes it. */
  function Response(packetLength: Word, body: Bytes): Bytes
    requires |body| < TWO_32
  {
    Written(packetLength) + Written(0) + Written(|body|) + body
  }

  lemma Regrouped(a: Bytes, b: Bytes, c: Bytes, d: Bytes)
    ensures [] + a + (b + c + d) == a + b + c + d == a + b + (c + d)
  {
  }

  /** Three varints in a row are read back one after the other. */
  lemma ThreeVarints(x: Word, y: Word, z: Word, tail: Bytes)
    ensures var data := Written(x) + Written(y) + Written(z) + tail;
      var a, b := |Written(x)|, |Written(x)| + |Written(y)|;
      ReadAt(data, 0) == Varint(x, a) && ReadAt(data, a) == Varint(y, b) && ReadAt(data, b) == Varint(z, b + |Written(z)|)
  {
    var wx, wy, wz := Written(x), Written(y), Written(z);
    Regrouped(wx, wy, wz, tail);
    VarintRoundTrip([], x, wy + wz + tail);
    VarintRoundTrip(wx, y, wz + tail);
    VarintRoundTrip(wx + wy, z, tail);
  }

  /** The header of a response is read back. */
  lemma ResponseHeader(packetLength: Word, body: Bytes, after: Bytes)
    requires |body| < TWO_32
    ensures var data := Response(packetLength, body) + after;
      var a := ReadAt(data, 0);
      && a == Varint(packetLength, |Written(packetLength)|)
      && ReadAt(data, a.next) == Varint(0, a.next + 1)
      && ReadAt(data, a.next + 1) == Varint(|body|, a.next + 1 + |Written(|body|)|)
  {
    ThreeVarints(packetLength, 0, |body|, body + after);
    assert Response(packetLength, body) + after
        == Written(packetLength) + Written(0) + Written(|body|) + (body + after);
  }

  /** Every well-formed response parses to its body, whatever follows it ... */
  lemma ResponseRoundTrip(packetLength: Word, body: Bytes, after: Bytes, json: Json)
    requires 0 < |body| < 0x8000_0000 && json(body)
    ensures ParseSpec(Response(packetLength, body) + after, json) == Ok(body)
  {
    ResponseHeader(packetLength, body, after);
    var data := Response(packetLength, body) + after;
    var pos := |Written(packetLength)| + 1 + |Written(|body|)|;
    assert data[pos..pos + |body|] == body;
  }

  /** ... and no strict prefix of it is decided. */
  lemma StrictPrefixIsIncomplete(packetLength: Word, body: Bytes, k: nat, json: Json)
    requires 0 < |body| < 0x8000_0000 && k < |Response(packetLength, body)|
    ensures ParseSpec(Response(packetLength, body)[..k], json).Incomplete?
  {
    var data := Response(packetLength, body);
    assert data + [] == data;
    ResponseHeader(packetLength, body, []);
    var n := |Written(packetLength)|;
    VarintCut(data, 0, k);
    if n <= k {
      VarintCut(data, n, k);
      if n + 1 <= k {
        VarintCut(data, n + 1, k);
      }
    }
  }
}
