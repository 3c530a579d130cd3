/**
 The reassembly of one connection: in-order data, a bounded reorder buffer keyed by 32-bit sequence
 numbers that wrap, and the parser applied to what is contiguous.
 */
module Reassembly {
  import opened Minecraft
  import opened Modular
  import opened Sets

  datatype Limits = Limits(segments: nat, bytes: nat)

  datatype Connection = Connection(
    data: Bytes,
    nextSeq: Word,
    nextAck: Word,
    reorder: map<Word, Bytes>)

  datatype Segment = Segment(seq': Word, ack: Word, payload: Bytes)

  // ---------------------------------------------------------------- buffered bytes

  /** The number of bytes in the reorder buffer. */
  ghost function Buffered(m: map<Word, Bytes>): nat
    decreases |m.Keys|
  {
    if m == map[] then 0
    else
      var k :| k in m;
      |m[k]| + Buffered(m - {k})
  }

  lemma {:induction false} BufferedRemove(m: map<Word, Bytes>, k: Word)
    requires k in m
    ensures Buffered(m) == |m[k]| + Buffered(m - {k})
    decreases |m.Keys|
  {
    var j :| j in m && Buffered(m) == |m[j]| + Buffered(m - {j});
    if j != k {
      BufferedRemove(m - {j}, k);
      BufferedRemove(m - {k}, j);
      assert m - {j} - {k} == m - {k} - {j};
    }
  }

  lemma BufferedInsert(m: map<Word, Bytes>, k: Word, v: Bytes)
    ensures Buffered(m[k := v]) == |v| + Buffered(m - {k})
    ensures Buffered(m[k := v]) <= |v| + Buffered(m)
  {
    BufferedRemove(m[k := v], k);
    assert m[k := v] - {k} == m - {k};
    if k in m {
      BufferedRemove(m, k);
    } else {
      assert m - {k} == m;
    }
  }

  lemma NewEntry(m: map<Word, Bytes>, k: Word, v: Bytes)
    requires k !in m
    ensures Buffered(m[k := v]) == |v| + Buffered(m) && |m[k := v]| == |m| + 1
  {
    BufferedInsert(m, k, v);
    assert m - {k} == m;
    assert m[k := v].Keys == m.Keys + {k};
  }

  method CountBytes(m: map<Word, Bytes>) returns (n: nat)
    ensures n == Buffered(m)
  {
    n := 0;
    var rest := m;
    while rest != map[]
      invariant n + Buffered(rest) == Buffered(m)
      decreases |rest.Keys|
    {
      var k :| k in rest;
      BufferedRemove(rest, k);
      n := n + |rest[k]|;
      rest := rest - {k};
    }
  }

  // ---------------------------------------------------------------- one segment

  /** The next expected segment taken out of the buffer and appended. */
  function OneStitched(c: Connection): Connection
    requires c.nextSeq in c.reorder
  {
    var piece := c.reorder[c.nextSeq];
    Connection(c.data + piece, Wrap(c.nextSeq + |piece|), c.nextAck, c.reorder - {c.nextSeq})
  }

  lemma FewerBuffered(m: map<Word, Bytes>, k: Word)
    requires k in m
    ensures |(m - {k}).Keys| < |m.Keys|
  {
    assert (m - {k}).Keys == m.Keys - {k};
  }

  /** Appends buffered segments for as long as the next expected one is there. */
  ghost function Stitched(c: Connection): Connection
    decreases |c.reorder.Keys|
  {
    if c.nextSeq in c.reorder then FewerBuffered(c.reorder, c.nextSeq); Stitched(OneStitched(c)) else c
  }

  /** Whether an out-of-order segment goes into the buffer. */
  ghost predicate Bufferable(c: Connection, s: Segment, limits: Limits)
  {
    && s.seq' != c.nextSeq && Wrap(s.seq' - c.nextSeq) < 65535 && s.payload != []
    && |c.reorder| < limits.segments && Buffered(c.reorder) + |s.payload| <= limits.bytes
  }

  /** Whether a segment is the next data in order. */
  predicate InOrder(c: Connection, s: Segment)
  {
    s.ack == c.nextAck && s.seq' == c.nextSeq && s.payload != []
  }

  /** The connection after a segment. */
  ghost function Received(c: Connection, s: Segment, limits: Limits): Connection
  {
    if s.ack != c.nextAck then c
    else if s.seq' != c.nextSeq then
      if Bufferable(c, s, limits) then c.(reorder := c.reorder[s.seq' := s.payload]) else c
    else if s.payload == [] then c
    else Stitched(c.(data := c.data + s.payload, nextSeq := Wrap(c.nextSeq + |s.payload|)))
  }

  method Receive(c: Connection, s: Segment, limits: Limits) returns (c': Connection)
    ensures c' == Received(c, s, limits)
  {
    c' := c;
    if s.ack != c.nextAck {
      return;
    }
    if s.seq' != c.nextSeq {
      if Wrap(s.seq' - c.nextSeq) < 65535 && s.payload != [] && |c.reorder| < limits.segments {
        var buffered := CountBytes(c.reorder);
        if buffered + |s.payload| <= limits.bytes {
          c' := c.(reorder := c.reorder[s.seq' := s.payload]);
        }
      }
      return;
    }
    if s.payload == [] {
      return;
    }
    c' := c.(data := c.data + s.payload, nextSeq := Wrap(c.nextSeq + |s.payload|));
    while c'.nextSeq in c'.reorder
      invariant Stitched(c') == Received(c, s, limits)
      decreases |c'.reorder.Keys|
    {
      FewerBuffered(c'.reorder, c'.nextSeq);
      c' := OneStitched(c');
    }
  }

  // ---------------------------------------------------------------- one stream

  /** How far a sequence number is into the stream that starts at `first`. */
  function Into(first: Word, n: Word): (offset: nat)
  {
    Wrap(n - first)
  }

  /** `payload` at sequence number `at` is part of `stream`. */
  ghost predicate Piece(stream: Bytes, first: Word, at: Word, payload: Bytes)
  {
    var o := Into(first, at);
    o + |payload| <= |stream| && payload == stream[o..o + |payload|]
  }

  ghost predicate Pieces(stream: Bytes, first: Word, reorder: map<Word, Bytes>)
  {
    forall k :: k in reorder ==> Piece(stream, first, k, reorder[k])
  }

  /** The data is a prefix of the stream, and the next expected number is the one after it, wrapping included. */
  ghost predicate Follows(c: Connection, stream: Bytes, first: Word)
  {
    |stream| < TWO_32 && c.data <= stream && c.nextSeq == Wrap(first + |c.data|) && Pieces(stream, first, c.reorder)
  }

  /** ... and nothing that could be appended is left in the buffer. */
  ghost predicate Tracks(c: Connection, stream: Bytes, first: Word)
  {
    Follows(c, stream, first) && c.nextSeq !in c.reorder
  }

  ghost predicate WithinLimits(reorder: map<Word, Bytes>, limits: Limits)
  {
    |reorder| <= limits.segments && Buffered(reorder) <= limits.bytes
  }

  /** A number `n` bytes into the stream is `n` bytes into the stream. */
  lemma IntoWrap(first: Word, n: nat)
    requires n < TWO_32
    ensures Into(first, Wrap(first + n)) == n
  {
  }

  lemma WrapStep(first: Word, n: nat, m: nat)
    ensures Wrap(Wrap(first + n) + m) == Wrap(first + (n + m))
  {
  }

  /** A part of the stream that starts where the data ends extends it. */
  lemma PieceExtends(c: Connection, stream: Bytes, first: Word, payload: Bytes, reorder: map<Word, Bytes>)
    requires Follows(c, stream, first) && Piece(stream, first, c.nextSeq, payload) && Pieces(stream, first, reorder)
    ensures Follows(c.(data := c.data + payload, nextSeq := Wrap(c.nextSeq + |payload|), reorder := reorder), stream, first)
  {
    IntoWrap(first, |c.data|);
    WrapStep(first, |c.data|, |payload|);
    assert stream[..|c.data|] + stream[|c.data|..|c.data| + |payload|] == stream[..|c.data| + |payload|];
  }

  lemma {:induction false} StitchedTracks(c: Connection, stream: Bytes, first: Word)
    requires Follows(c, stream, first)
    ensures Tracks(Stitched(c), stream, first)
    ensures c.data <= Stitched(c).data && Stitched(c).nextAck == c.nextAck
    decreases |c.reorder.Keys|
  {
    if c.nextSeq in c.reorder {
      PieceExtends(c, stream, first, c.reorder[c.nextSeq], c.reorder - {c.nextSeq});
      FewerBuffered(c.reorder, c.nextSeq);
      StitchedTracks(OneStitched(c), stream, first);
    }
  }

  lemma {:induction false} StitchedWithinLimits(c: Connection, limits: Limits)
    requires WithinLimits(c.reorder, limits)
    ensures WithinLimits(Stitched(c).reorder, limits)
    decreases |c.reorder.Keys|
  {
    if c.nextSeq in c.reorder {
      BufferedRemove(c.reorder, c.nextSeq);
      FewerBuffered(c.reorder, c.nextSeq);
      StitchedWithinLimits(OneStitched(c), limits);
    }
  }

  /** No segment, of any origin, takes the buffer over its limits. */
  lemma ReceivedWithinLimits(c: Connection, s: Segment, limits: Limits)
    requires WithinLimits(c.reorder, limits)
    ensures WithinLimits(Received(c, s, limits).reorder, limits)
  {
    if s.ack == c.nextAck {
      if s.seq' != c.nextSeq {
        BufferedInsert(c.reorder, s.seq', s.payload);
        assert c.reorder[s.seq' := s.payload].Keys == c.reorder.Keys + {s.seq'};
      } else if s.payload != [] {
        StitchedWithinLimits(c.(data := c.data + s.payload, nextSeq := Wrap(c.nextSeq + |s.payload|)), limits);
      }
    }
  }

  lemma OneMorePiece(stream: Bytes, first: Word, m: map<Word, Bytes>, k: Word, v: Bytes)
    requires Pieces(stream, first, m) && Piece(stream, first, k, v)
    ensures Pieces(stream, first, m[k := v])
  {
  }

  lemma InOrderTracks(c: Connection, payload: Bytes, stream: Bytes, first: Word)
    requires Tracks(c, stream, first) && Piece(stream, first, c.nextSeq, payload)
    ensures var d := Stitched(c.(data := c.data + payload, nextSeq := Wrap(c.nextSeq + |payload|)));
      Tracks(d, stream, first) && c.data <= d.data && d.nextAck == c.nextAck
  {
    PieceExtends(c, stream, first, payload, c.reorder);
    StitchedTracks(c.(data := c.data + payload, nextSeq := Wrap(c.nextSeq + |payload|)), stream, first);
  }

  lemma BufferedTracks(c: Connection, reorder: map<Word, Bytes>, stream: Bytes, first: Word)
    requires Tracks(c, stream, first) && Pieces(stream, first, reorder) && c.nextSeq !in reorder
    ensures Tracks(c.(reorder := reorder), stream, first)
  {
  }

  /** Every segment of the stream keeps the reassembly invariant; data only grows, and only by segments in order. */
  lemma ReceivedTracks(c: Connection, s: Segment, limits: Limits, stream: Bytes, first: Word)
    requires Tracks(c, stream, first) && Piece(stream, first, s.seq', s.payload)
    ensures Tracks(Received(c, s, limits), stream, first)
    ensures c.data <= Received(c, s, limits).data && Received(c, s, limits).nextAck == c.nextAck
    ensures !InOrder(c, s) ==> Received(c, s, limits).data == c.data
  {
    if InOrder(c, s) {
      InOrderTracks(c, s.payload, stream, first);
    } else if Received(c, s, limits) != c {
      OneMorePiece(stream, first, c.reorder, s.seq', s.payload);
      BufferedTracks(c, c.reorder[s.seq' := s.payload], stream, first);
    }
  }

  /** Whether a segment goes into the data or the buffer. */
  ghost predicate Taken(c: Connection, s: Segment, limits: Limits)
  {
    s.ack == c.nextAck && (InOrder(c, s) || Bufferable(c, s, limits))
  }

  lemma {:induction false} StitchedExtends(c: Connection)
    ensures c.data <= Stitched(c).data
    decreases |c.reorder.Keys|
  {
    if c.nextSeq in c.reorder {
      FewerBuffered(c.reorder, c.nextSeq);
      StitchedExtends(OneStitched(c));
    }
  }

  lemma PrefixHasPart(data: Bytes, payload: Bytes, stream: Bytes)
    ensures data + payload <= stream ==>
      |data| + |payload| <= |stream| && stream[|data|..|data| + |payload|] == payload
  {
    if data + payload <= stream {
      assert stream[..|data| + |payload|] == data + payload;
    }
  }

  lemma StrayDataSpoils(c: Connection, payload: Bytes, stream: Bytes, first: Word)
    requires Tracks(c, stream, first) && !Piece(stream, first, c.nextSeq, payload)
    ensures !(c.data + payload <= stream)
  {
    IntoWrap(first, |c.data|);
    PrefixHasPart(c.data, payload, stream);
  }

  /** A segment that is taken and is not a part of the stream spoils the data or the buffer. */
  lemma StraySpoils(c: Connection, s: Segment, limits: Limits, stream: Bytes, first: Word)
    requires Tracks(c, stream, first) && Taken(c, s, limits) && !Piece(stream, first, s.seq', s.payload)
    ensures !Tracks(Received(c, s, limits), stream, first)
  {
    if InOrder(c, s) {
      StrayDataSpoils(c, s.payload, stream, first);
      StitchedExtends(c.(data := c.data + s.payload, nextSeq := Wrap(c.nextSeq + |s.payload|)));
    } else {
      assert s.seq' in Received(c, s, limits).reorder;
    }
  }

  /** The reassembly invariant is kept by exactly the segments that are not taken or are part of the stream. */
  lemma TracksIff(c: Connection, s: Segment, limits: Limits, stream: Bytes, first: Word)
    requires Tracks(c, stream, first)
    ensures Tracks(Received(c, s, limits), stream, first) <==> (Taken(c, s, limits) ==> Piece(stream, first, s.seq', s.payload))
    ensures !Taken(c, s, limits) ==> Received(c, s, limits) == c
  {
    if Taken(c, s, limits) {
      if Piece(stream, first, s.seq', s.payload) {
        ReceivedTracks(c, s, limits, stream, first);
      } else {
        StraySpoils(c, s, limits, stream, first);
      }
    }
  }

  // ---------------------------------------------------------------- verdicts

  datatype Progress = Open(c: Connection) | Closed(verdict: Verdict)

  /** A segment in order makes the parser look at the data; a verdict closes the connection. */
  ghost function Handled(c: Connection, s: Segment, limits: Limits, json: Json): Progress
  {
    var c' := Received(c, s, limits);
    if InOrder(c, s) && !ParseSpec(c'.data, json).Incomplete? then Closed(ParseSpec(c'.data, json)) else Open(c')
  }

  /** The segments one after the other; once closed, nothing more is looked at. */
  ghost function Delivered(c: Connection, segments: seq<Segment>, limits: Limits, json: Json): Progress
  {
    if segments == [] then Open(c)
    else
      match Delivered(c, segments[..|segments| - 1], limits, json)
      case Closed(verdict) => Closed(verdict)
      case Open(d) => Handled(d, segments[|segments| - 1], limits, json)
  }

  /** The connection follows the stream and has not seen enough of it for a verdict. */
  ghost predicate Waits(c: Connection, stream: Bytes, first: Word, json: Json)
  {
    Tracks(c, stream, first) && ParseSpec(c.data, json).Incomplete?
  }

  lemma HandledAgrees(c: Connection, s: Segment, limits: Limits, json: Json, stream: Bytes, first: Word)
    requires Waits(c, stream, first, json) && Piece(stream, first, s.seq', s.payload)
    ensures match Handled(c, s, limits, json)
      case Open(d) => Waits(d, stream, first, json) && d.nextAck == c.nextAck
      case Closed(verdict) => verdict == ParseSpec(stream, json) && !verdict.Incomplete?
  {
    ReceivedTracks(c, s, limits, stream, first);
    var d := Received(c, s, limits);
    if InOrder(c, s) && !ParseSpec(d.data, json).Incomplete? {
      VerdictIsFinal(d.data, stream[|d.data|..], json);
      assert d.data + stream[|d.data|..] == stream;
    }
  }

  /**
   However a stream is cut into segments, in whatever order they come, repeated or lost: the verdict the
   responder acts on, if it comes to one, is the parser's verdict on the whole stream.
   */
  lemma {:induction false} VerdictIgnoresSegmentation(c: Connection, segments: seq<Segment>, limits: Limits, json: Json,
                                                      stream: Bytes, first: Word)
    requires Waits(c, stream, first, json)
    requires forall i :: 0 <= i < |segments| ==> Piece(stream, first, segments[i].seq', segments[i].payload)
    ensures match Delivered(c, segments, limits, json)
      case Open(d) => Waits(d, stream, first, json) && d.nextAck == c.nextAck
      case Closed(verdict) => verdict == ParseSpec(stream, json) && !verdict.Incomplete?
  {
    if segments != [] {
      var n := |segments| - 1;
      VerdictIgnoresSegmentation(c, segments[..n], limits, json, stream, first);
      match Delivered(c, segments[..n], limits, json)
      case Open(d) => HandledAgrees(d, segments[n], limits, json, stream, first);
      case Closed(_) =>
    }
  }
}
