/**
 Completeness of reassembly: a stream that fits the reorder limits is put together from its chunks in
 whatever order they arrive, so the verdict on it is always reached.
 */
module Segmentation {
  import opened Minecraft
  import opened Modular
  import opened Reassembly

  /** A stream cut into nonempty chunks: `cuts` from 0 to its length, `keys` the sequence numbers at the cuts. */
  datatype Plan = Plan(stream: Bytes, first: Word, cuts: seq<nat>, keys: seq<Word>)
  {
    ghost predicate Valid()
    {
      && |stream| < TWO_32
      && 1 <= |cuts| == |keys| && cuts[0] == 0 && cuts[|cuts| - 1] == |stream|
      && (forall i :: 0 <= i < |cuts| - 1 ==> Ascends(i))
      && (forall i {:trigger keys[i]} :: 0 <= i < |cuts| ==> keys[i] == Wrap(first + cuts[i]))
    }

    ghost predicate Ascends(i: nat)
      requires i + 1 < |cuts|
    {
      cuts[i] < cuts[i + 1]
    }

    /** The number of chunks. */
    function Count(): nat
      requires |cuts| >= 1
    {
      |cuts| - 1
    }

    ghost function Chunk(i: nat): (chunk: Bytes)
      requires Valid() && i < Count()
      ensures chunk != [] && cuts[i] + |chunk| == cuts[i + 1] <= |stream|
    {
      InStream(i);
      stream[cuts[i]..cuts[i + 1]]
    }

    /** Chunk `i` as a segment. */
    ghost function At(i: nat, ack: Word): Segment
      requires Valid() && i < Count()
    {
      Segment(keys[i], ack, Chunk(i))
    }

    lemma {:induction false} CutsIncrease(i: nat, j: nat)
      requires Valid() && i <= j < |cuts|
      ensures cuts[i] + (j - i) <= cuts[j]
    {
      if i < j {
        CutsIncrease(i, j - 1);
        assert Ascends(j - 1);
      }
    }

    lemma InStream(i: nat)
      requires Valid() && i < |cuts|
      ensures cuts[i] <= |stream| && (i + 1 < |cuts| ==> cuts[i] < cuts[i + 1] <= |stream|)
    {
      CutsIncrease(i, |cuts| - 1);
      if i + 1 < |cuts| {
        assert Ascends(i);
        CutsIncrease(i + 1, |cuts| - 1);
      }
    }

    /** A key names one position. */
    lemma KeyAt(i: nat, n: nat)
      requires Valid() && i < |cuts| && n <= |stream|
      ensures keys[i] == Wrap(first + n) <==> cuts[i] == n
    {
      InStream(i);
      IntoWrap(first, cuts[i]);
      IntoWrap(first, n);
    }

    /** Two chunks at one position are one chunk. */
    lemma CutAt(i: nat, j: nat)
      requires Valid() && i < |cuts| && j < |cuts|
      ensures cuts[i] == cuts[j] ==> i == j
      ensures cuts[i] < cuts[j] ==> i < j
      ensures i < j ==> cuts[i + 1] <= cuts[j]
    {
      if i < j {
        CutsIncrease(i + 1, j);
        CutsIncrease(i, j);
      } else if j < i {
        CutsIncrease(j, i);
      }
    }
  }

  /** Chunk `i` is in the data or in the buffer. */
  ghost predicate Has(c: Connection, p: Plan, i: nat)
    requires p.Valid() && i < p.Count()
  {
    p.cuts[i + 1] <= |c.data| || p.keys[i] in c.reorder
  }

  /** No chunk of `c` is missing from `d`. */
  ghost predicate Keeps(c: Connection, d: Connection, p: Plan)
    requires p.Valid()
  {
    forall i :: 0 <= i < p.Count() && Has(c, p, i) ==> Has(d, p, i)
  }

  lemma KeepsTransitive(c: Connection, d: Connection, e: Connection, p: Plan)
    requires p.Valid() && Keeps(c, d, p) && Keeps(d, e, p)
    ensures Keeps(c, e, p)
  {
  }

  /** What is buffered under the key of chunk `i` is that chunk, and it lies ahead. */
  ghost predicate BufferedChunk(c: Connection, p: Plan, i: nat)
    requires p.Valid() && i < p.Count()
  {
    p.keys[i] in c.reorder ==>
      |c.data| <= p.cuts[i] && c.reorder[p.keys[i]] == p.Chunk(i)
  }

  /** The data ends at cut `b`, and the buffer holds chunks from there on. */
  ghost predicate Aligned(c: Connection, p: Plan, b: nat)
  {
    && p.Valid() && Follows(c, p.stream, p.first)
    && b < |p.cuts| && p.cuts[b] == |c.data|
    && (forall k :: k in c.reorder ==> k in p.keys[..p.Count()])
    && (forall i :: 0 <= i < p.Count() ==> BufferedChunk(c, p, i))
  }

  /** Appending the chunk at the end of the data keeps the alignment and loses no chunk. */
  lemma AppendChunk(c: Connection, p: Plan, b: nat, d: Connection)
    requires Aligned(c, p, b) && b < p.Count()
    requires d.data == c.data + p.Chunk(b) && Follows(d, p.stream, p.first)
    requires d.reorder == c.reorder - {c.nextSeq}
    ensures Aligned(d, p, b + 1) && Has(d, p, b)
    ensures Keeps(c, d, p)
  {
    p.KeyAt(b, |c.data|);
    forall i | 0 <= i < p.Count()
      ensures BufferedChunk(d, p, i) && (Has(c, p, i) ==> Has(d, p, i))
    {
      assert BufferedChunk(c, p, i);
      p.KeyAt(i, |c.data|);
      p.CutAt(b, i);
    }
  }

  /** What is buffered under the next sequence number is the chunk at the end of the data. */
  lemma NextIsChunk(c: Connection, p: Plan, b: nat)
    requires Aligned(c, p, b) && c.nextSeq in c.reorder
    ensures b < p.Count() && c.reorder[c.nextSeq] == p.Chunk(b)
  {
    var i :| 0 <= i < p.Count() && p.keys[i] == c.nextSeq;
    p.KeyAt(i, |c.data|);
    p.CutAt(i, b);
    assert BufferedChunk(c, p, i);
  }

  /** One buffered segment stitched on. */
  lemma StitchStep(c: Connection, p: Plan, b: nat)
    requires Aligned(c, p, b) && c.nextSeq in c.reorder
    ensures Aligned(OneStitched(c), p, b + 1)
    ensures Keeps(c, OneStitched(c), p)
  {
    NextIsChunk(c, p, b);
    PieceExtends(c, p.stream, p.first, c.reorder[c.nextSeq], c.reorder - {c.nextSeq});
    AppendChunk(c, p, b, OneStitched(c));
  }

  lemma {:induction false} StitchedAligned(c: Connection, p: Plan, b: nat) returns (b': nat)
    requires Aligned(c, p, b)
    ensures Aligned(Stitched(c), p, b') && Keeps(c, Stitched(c), p)
    decreases |c.reorder.Keys|
  {
    b' := b;
    if c.nextSeq in c.reorder {
      StitchStep(c, p, b);
      FewerBuffered(c.reorder, c.nextSeq);
      b' := StitchedAligned(OneStitched(c), p, b + 1);
      KeepsTransitive(c, OneStitched(c), Stitched(OneStitched(c)), p);
    }
  }

  /** Every entry is a chunk among the first `n`, by its key and its length. */
  ghost predicate ChunkSized(m: map<Word, Bytes>, keys: seq<Word>, cuts: seq<nat>, n: nat)
    requires n < |keys| == |cuts|
  {
    && (forall k :: k in m ==> k in keys[..n])
    && (forall i {:trigger keys[i]} :: 0 <= i < n && keys[i] in m ==> cuts[i] + |m[keys[i]]| == cuts[i + 1])
  }

  ghost predicate UpTo(cuts: seq<nat>, i: nat)
    requires i + 1 < |cuts|
  {
    cuts[i] <= cuts[i + 1]
  }

  lemma ChunkSizedRest(m: map<Word, Bytes>, keys: seq<Word>, cuts: seq<nat>, n: nat)
    requires 0 < n < |keys| == |cuts| && ChunkSized(m, keys, cuts, n)
    ensures ChunkSized(m - {keys[n - 1]}, keys, cuts, n - 1)
    ensures keys[n - 1] in m ==> cuts[n - 1] + |m[keys[n - 1]]| == cuts[n]
  {
    var rest := m - {keys[n - 1]};
    forall k | k in rest ensures k in keys[..n - 1] {
      var i :| 0 <= i < n && keys[i] == k;
      assert keys[..n - 1][i] == k;
    }
  }

  /** Removing a key takes its bytes out of the count, if it was there at all. */
  lemma WithoutKey(m: map<Word, Bytes>, k: Word)
    ensures Buffered(m) == Buffered(m - {k}) + if k in m then |m[k]| else 0
    ensures |m| == |m - {k}| + if k in m then 1 else 0
  {
    if k in m {
      BufferedRemove(m, k);
      assert (m - {k}).Keys == m.Keys - {k};
    } else {
      assert m - {k} == m;
    }
  }

  lemma NoChunks(m: map<Word, Bytes>, keys: seq<Word>, cuts: seq<nat>)
    requires 0 < |keys| == |cuts| && ChunkSized(m, keys, cuts, 0)
    ensures |m| == 0 && Buffered(m) == 0
  {
    assert m == map[];
  }

  /** Buffered chunks are no more than there are ... */
  lemma {:induction false} ChunksCount(m: map<Word, Bytes>, keys: seq<Word>, cuts: seq<nat>, n: nat)
    requires n < |keys| == |cuts| && ChunkSized(m, keys, cuts, n)
    ensures |m| <= n
    decreases n
  {
    if n == 0 {
      NoChunks(m, keys, cuts);
    } else {
      ChunkSizedRest(m, keys, cuts, n);
      ChunksCount(m - {keys[n - 1]}, keys, cuts, n - 1);
      WithoutKey(m, keys[n - 1]);
    }
  }

  /** ... and weigh no more than the stream up to the last of them. */
  lemma {:induction false} ChunksWeigh(m: map<Word, Bytes>, keys: seq<Word>, cuts: seq<nat>, n: nat)
    requires n < |keys| == |cuts| && ChunkSized(m, keys, cuts, n)
    requires forall i :: 0 <= i < n ==> UpTo(cuts, i)
    ensures Buffered(m) <= cuts[n]
    decreases n
  {
    if n > 0 {
      ChunkSizedRest(m, keys, cuts, n);
      var rest := m - {keys[n - 1]};
      ChunksWeigh(rest, keys, cuts, n - 1);
      WithoutKey(m, keys[n - 1]);
      assert UpTo(cuts, n - 1);
      assert Buffered(m) <= cuts[n];
    } else {
      NoChunks(m, keys, cuts);
    }
  }

  /** The limits leave room for the whole stream, and the stream fits the reorder window. */
  ghost predicate Roomy(p: Plan, limits: Limits)
    requires |p.cuts| >= 1
  {
    |p.stream| <= 65535 && p.Count() <= limits.segments && |p.stream| <= limits.bytes
  }

  /** How far one position is from another in sequence numbers: directly ahead, or wrapped around from behind. */
  lemma Distance(first: Word, from: nat, to: nat)
    requires from < TWO_32 && to < TWO_32
    ensures Wrap(Wrap(first + to) - Wrap(first + from)) == if to >= from then to - from else TWO_32 + to - from
  {
  }

  lemma WithOneMoreIsChunkSized(c: Connection, p: Plan, b: nat, i: nat)
    requires Aligned(c, p, b) && i < p.Count()
    ensures ChunkSized(c.reorder[p.keys[i] := p.Chunk(i)], p.keys, p.cuts, p.Count())
  {
    var full := c.reorder[p.keys[i] := p.Chunk(i)];
    assert p.keys[i] in p.keys[..p.Count()];
    forall j {:trigger p.keys[j]} | 0 <= j < p.Count() && p.keys[j] in full
      ensures p.cuts[j] + |full[p.keys[j]]| == p.cuts[j + 1]
    {
      assert BufferedChunk(c, p, j);
      p.KeyAt(j, p.cuts[i]);
      p.CutAt(j, i);
    }
  }

  lemma ChunksFit(m: map<Word, Bytes>, p: Plan)
    requires p.Valid() && ChunkSized(m, p.keys, p.cuts, p.Count())
    ensures |m| <= p.Count() && Buffered(m) <= p.cuts[p.Count()]
  {
    forall j | 0 <= j < p.Count() ensures UpTo(p.cuts, j) { assert p.Ascends(j); }
    ChunksCount(m, p.keys, p.cuts, p.Count());
    ChunksWeigh(m, p.keys, p.cuts, p.Count());
  }

  lemma RoomWithout(m: map<Word, Bytes>, k: Word, v: Bytes, count: nat, total: nat)
    requires k !in m && |m[k := v]| <= count && Buffered(m[k := v]) <= total
    ensures |m| < count && Buffered(m) + |v| <= total
  {
    NewEntry(m, k, v);
  }

  lemma RoomForOneMore(m: map<Word, Bytes>, k: Word, v: Bytes, p: Plan)
    requires p.Valid() && k !in m
    requires ChunkSized(m[k := v], p.keys, p.cuts, p.Count())
    ensures |m| < p.Count() && Buffered(m) + |v| <= |p.stream|
  {
    ChunksFit(m[k := v], p);
    RoomWithout(m, k, v, p.Count(), |p.stream|);
  }

  lemma AheadIsInWindow(first: Word, from: nat, to: nat)
    requires from < to < 65535
    ensures 0 < Wrap(Wrap(first + to) - Wrap(first + from)) < 65535
  {
    Distance(first, from, to);
  }

  /** With room for the whole stream, a chunk ahead of the data that is not buffered yet can be. */
  lemma ChunkIsBufferable(c: Connection, p: Plan, b: nat, i: nat, limits: Limits)
    requires Aligned(c, p, b) && Roomy(p, limits) && i < p.Count()
    requires p.cuts[i] > |c.data| && p.keys[i] !in c.reorder
    ensures Bufferable(c, p.At(i, c.nextAck), limits)
  {
    WithOneMoreIsChunkSized(c, p, b, i);
    RoomForOneMore(c.reorder, p.keys[i], p.Chunk(i), p);
    p.InStream(i);
    AheadIsInWindow(p.first, |c.data|, p.cuts[i]);
  }

  /** `d` is aligned and holds chunk `i` besides everything `c` holds. */
  ghost predicate Gains(c: Connection, d: Connection, p: Plan, b: nat, i: nat)
    requires p.Valid() && i < p.Count()
  {
    Aligned(d, p, b) && Has(d, p, i) && Keeps(c, d, p)
  }

  lemma BufferedBeside(c: Connection, d: Connection, p: Plan, i: nat, j: nat)
    requires p.Valid() && i < p.Count() && j < p.Count() && BufferedChunk(c, p, j)
    requires d.data == c.data && |c.data| <= p.cuts[i] && d.reorder == c.reorder[p.keys[i] := p.Chunk(i)]
    ensures BufferedChunk(d, p, j)
  {
    p.InStream(i);
    p.KeyAt(j, p.cuts[i]);
    p.CutAt(j, i);
  }

  lemma ChunkIsPiece(p: Plan, i: nat)
    requires p.Valid() && i < p.Count()
    ensures Piece(p.stream, p.first, p.keys[i], p.Chunk(i))
  {
    p.InStream(i);
    IntoWrap(p.first, p.cuts[i]);
  }

  /** Buffering a chunk that lies ahead keeps the alignment and every chunk. */
  lemma BufferChunk(c: Connection, p: Plan, b: nat, i: nat)
    requires Aligned(c, p, b) && i < p.Count() && p.cuts[i] > |c.data|
    ensures Gains(c, c.(reorder := c.reorder[p.keys[i] := p.Chunk(i)]), p, b, i)
  {
    var d := c.(reorder := c.reorder[p.keys[i] := p.Chunk(i)]);
    ChunkIsPiece(p, i);
    OneMorePiece(p.stream, p.first, c.reorder, p.keys[i], p.Chunk(i));
    assert p.keys[i] in p.keys[..p.Count()];
    forall j | 0 <= j < p.Count() ensures BufferedChunk(d, p, j) {
      BufferedBeside(c, d, p, i, j);
    }
  }

  /** The chunk at the end of the data is appended ... */
  lemma NextChunkAppends(c: Connection, p: Plan, b: nat, d: Connection)
    requires Aligned(c, p, b) && c.nextSeq !in c.reorder && b < p.Count()
    requires d == c.(data := c.data + p.Chunk(b), nextSeq := Wrap(c.nextSeq + |p.Chunk(b)|))
    ensures Aligned(d, p, b + 1) && Has(d, p, b) && Keeps(c, d, p)
    ensures p.keys[b] == c.nextSeq
  {
    IntoWrap(p.first, |c.data|);
    p.KeyAt(b, |c.data|);
    PieceExtends(c, p.stream, p.first, p.Chunk(b), c.reorder);
    assert c.reorder - {c.nextSeq} == c.reorder;
    AppendChunk(c, p, b, d);
  }

  /** ... with whatever was waiting for it. */
  lemma NextChunk(c: Connection, p: Plan, b: nat, limits: Limits) returns (b': nat)
    requires Aligned(c, p, b) && c.nextSeq !in c.reorder && b < p.Count()
    ensures Gains(c, Received(c, p.At(b, c.nextAck), limits), p, b', b)
  {
    var d := c.(data := c.data + p.Chunk(b), nextSeq := Wrap(c.nextSeq + |p.Chunk(b)|));
    NextChunkAppends(c, p, b, d);
    b' := StitchedAligned(d, p, b + 1);
    KeepsTransitive(c, d, Stitched(d), p);
    assert Received(c, p.At(b, c.nextAck), limits) == Stitched(d);
  }

  /** A segment far behind is not taken. */
  lemma FarBehindIsIgnored(c: Connection, s: Segment, limits: Limits)
    requires s.seq' != c.nextSeq && Wrap(s.seq' - c.nextSeq) >= 65535
    ensures Received(c, s, limits) == c
  {
  }

  /** A chunk behind the data is not taken again: the data has it. */
  lemma PastChunk(c: Connection, p: Plan, b: nat, i: nat, limits: Limits)
    requires Aligned(c, p, b) && Roomy(p, limits) && i < b
    ensures p.cuts[i + 1] <= |c.data| && Received(c, p.At(i, c.nextAck), limits) == c
  {
    p.InStream(i);
    p.CutAt(i, b);
    Distance(p.first, |c.data|, p.cuts[i]);
    FarBehindIsIgnored(c, p.At(i, c.nextAck), limits);
  }

  /** A chunk ahead of the data is buffered, or was before. */
  lemma FutureChunk(c: Connection, p: Plan, b: nat, i: nat, limits: Limits)
    requires Aligned(c, p, b) && Roomy(p, limits)
    requires b < i < p.Count()
    ensures Gains(c, Received(c, p.At(i, c.nextAck), limits), p, b, i)
  {
    var s := p.At(i, c.nextAck);
    p.CutsIncrease(b, i);
    p.KeyAt(i, |c.data|);
    if p.keys[i] in c.reorder {
      assert BufferedChunk(c, p, i);
      assert c.reorder[p.keys[i] := p.Chunk(i)] == c.reorder;
      assert Received(c, s, limits) == c;
    } else {
      ChunkIsBufferable(c, p, b, i, limits);
      BufferChunk(c, p, b, i);
      assert Received(c, s, limits) == c.(reorder := c.reorder[p.keys[i] := p.Chunk(i)]);
    }
  }

  /** Whatever chunk arrives next, it is there afterwards, and so is every chunk that was there before. */
  lemma ReceivedHas(c: Connection, p: Plan, b: nat, i: nat, limits: Limits) returns (b': nat)
    requires Aligned(c, p, b) && c.nextSeq !in c.reorder && Roomy(p, limits)
    requires i < p.Count()
    ensures Gains(c, Received(c, p.At(i, c.nextAck), limits), p, b', i)
  {
    b' := b;
    if i == b {
      b' := NextChunk(c, p, b, limits);
    } else if i < b {
      PastChunk(c, p, b, i, limits);
    } else {
      FutureChunk(c, p, b, i, limits);
    }
  }

  // ---------------------------------------------------------------- all arrivals

  ghost predicate Indices(p: Plan, order: seq<nat>)
    requires p.Valid()
  {
    forall j :: 0 <= j < |order| ==> order[j] < p.Count()
  }

  /** The chunks as segments, in the order in which they arrive. */
  ghost function Arrivals(p: Plan, ack: Word, order: seq<nat>): (segments: seq<Segment>)
    requires p.Valid() && Indices(p, order)
    ensures |segments| == |order|
    ensures forall j :: 0 <= j < |order| ==> segments[j] == p.At(order[j], ack)
  {
    seq(|order|, j requires 0 <= j < |order| => p.At(order[j], ack))
  }

  /** Still open after the arrivals: aligned, waiting, and holding every chunk that arrived. */
  ghost predicate Holding(d: Connection, p: Plan, b: nat, order: seq<nat>, json: Json)
    requires p.Valid() && Indices(p, order)
  {
    && Aligned(d, p, b) && Waits(d, p.stream, p.first, json)
    && forall j :: 0 <= j < |order| ==> Has(d, p, order[j])
  }

  /** One more arrival. */
  lemma ArrivalStep(d: Connection, p: Plan, b: nat, order: seq<nat>, i: nat, limits: Limits, json: Json) returns (b': nat)
    requires p.Valid() && Roomy(p, limits) && Indices(p, order) && i < p.Count() && Holding(d, p, b, order, json)
    ensures match Handled(d, p.At(i, d.nextAck), limits, json)
      case Open(e) => e.nextAck == d.nextAck && Holding(e, p, b', order + [i], json)
      case Closed(verdict) => verdict == ParseSpec(p.stream, json)
  {
    ChunkIsPiece(p, i);
    HandledAgrees(d, p.At(i, d.nextAck), limits, json, p.stream, p.first);
    b' := ReceivedHas(d, p, b, i, limits);
    var e := Received(d, p.At(i, d.nextAck), limits);
    forall j | 0 <= j < |order + [i]| ensures Has(e, p, (order + [i])[j]) {
      assert j < |order| ==> Has(d, p, order[j]);
    }
  }

  lemma DeliveredOneMore(c: Connection, segments: seq<Segment>, s: Segment, limits: Limits, json: Json)
    ensures Delivered(c, segments + [s], limits, json)
         == match Delivered(c, segments, limits, json)
            case Closed(verdict) => Closed(verdict)
            case Open(d) => Handled(d, s, limits, json)
  {
    assert (segments + [s])[..|segments|] == segments;
  }

  /** What may have become of a connection after the arrivals `order`. */
  ghost predicate Kept(end: Progress, ack: Word, p: Plan, b: nat, order: seq<nat>, json: Json)
    requires p.Valid() && Indices(p, order)
  {
    match end
    case Open(d) => d.nextAck == ack && Holding(d, p, b, order, json)
    case Closed(verdict) => verdict == ParseSpec(p.stream, json)
  }

  lemma KeptStep(c: Connection, p: Plan, b: nat, order: seq<nat>, i: nat, limits: Limits, json: Json) returns (b': nat)
    requires p.Valid() && Roomy(p, limits) && Indices(p, order) && i < p.Count() && Indices(p, order + [i])
    requires Kept(Delivered(c, Arrivals(p, c.nextAck, order), limits, json), c.nextAck, p, b, order, json)
    ensures Kept(Delivered(c, Arrivals(p, c.nextAck, order + [i]), limits, json), c.nextAck, p, b', order + [i], json)
  {
    b' := b;
    var segments := Arrivals(p, c.nextAck, order);
    DeliveredOneMore(c, segments, p.At(i, c.nextAck), limits, json);
    assert Arrivals(p, c.nextAck, order + [i]) == segments + [p.At(i, c.nextAck)];
    var before := Delivered(c, segments, limits, json);
    if before.Open? {
      b' := ArrivalStep(before.c, p, b, order, i, limits, json);
    }
  }

  lemma {:induction false} ArrivalsKept(c: Connection, p: Plan, order: seq<nat>, limits: Limits, json: Json) returns (b: nat)
    requires p.Valid() && Roomy(p, limits) && Indices(p, order) && Holding(c, p, 0, [], json)
    ensures Kept(Delivered(c, Arrivals(p, c.nextAck, order), limits, json), c.nextAck, p, b, order, json)
    decreases |order|
  {
    if order == [] {
      b := 0;
      assert Delivered(c, Arrivals(p, c.nextAck, []), limits, json) == Open(c);
    } else {
      var n := |order| - 1;
      assert order[..n] + [order[n]] == order;
      b := ArrivalsKept(c, p, order[..n], limits, json);
      b := KeptStep(c, p, b, order[..n], order[n], limits, json);
    }
  }

  /** The chunk at the end of the data is not there yet. */
  lemma NextIsMissing(d: Connection, p: Plan, b: nat)
    requires Aligned(d, p, b) && d.nextSeq !in d.reorder
    ensures b < p.Count() ==> !Has(d, p, b)
  {
    if b < p.Count() {
      p.InStream(b);
      p.KeyAt(b, |d.data|);
    }
  }

  /** A connection that waits although every chunk has arrived holds the whole stream. */
  lemma HoldingAllIsWhole(d: Connection, p: Plan, b: nat, order: seq<nat>, json: Json)
    requires p.Valid() && Indices(p, order) && Holding(d, p, b, order, json)
    requires forall i :: 0 <= i < p.Count() ==> i in order
    ensures d.data == p.stream
  {
    forall i | 0 <= i < p.Count() ensures Has(d, p, i) {
      assert i in order;
      var j :| 0 <= j < |order| && order[j] == i;
    }
    NextIsMissing(d, p, b);
  }

  /**
   Nothing is missed: if the limits have room for the stream, then whatever the cuts, the order of arrival
   and the repetitions, once every chunk has arrived the responder has acted on the parser's verdict.
   */
  lemma EveryArrivalOrderReachesVerdict(c: Connection, p: Plan, order: seq<nat>, limits: Limits, json: Json)
    requires p.Valid() && Roomy(p, limits) && Indices(p, order)
    requires c.data == [] && c.nextSeq == p.first && c.reorder == map[]
    requires forall i :: 0 <= i < p.Count() ==> i in order
    requires !ParseSpec(p.stream, json).Incomplete?
    ensures Delivered(c, Arrivals(p, c.nextAck, order), limits, json) == Closed(ParseSpec(p.stream, json))
  {
    NewConnectionHolds(c, p, json);
    var b := ArrivalsKept(c, p, order, limits, json);
    var end := Delivered(c, Arrivals(p, c.nextAck, order), limits, json);
    if end.Open? {
      HoldingAllIsWhole(end.c, p, b, order, json);
    }
  }

  lemma NewConnectionHolds(c: Connection, p: Plan, json: Json)
    requires p.Valid() && c.data == [] && c.nextSeq == p.first && c.reorder == map[]
    ensures Holding(c, p, 0, [], json)
  {
    assert ReadAt([], 0).Missing?;
    assert Wrap(p.first + 0) == p.first;
  }
}
