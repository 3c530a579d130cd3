/**
 What a server's byte stream comes to over a whole run of the responder: every scanling and every
 banner reported for it is the parser's verdict on the whole stream.
 */
module ResponderStreams {
  import opened Wrappers
  import opened FinOrder
  import opened Minecraft
  import opened Modular
  import opened Reassembly
  import opened ResponderSpec
  import opened Scanner

  /** What a server sends on one connection: the bytes, and the sequence number of the first. */
  datatype Stream = Stream(bytes: Bytes, first: Word)

  /** A peer: the stream of each of its connections, counted by its cookie-valid SYN-ACKs. */
  datatype Peer = Peer(key: Key, streams: nat -> Stream)

  ghost predicate IsPeer(peer: Peer)
  {
    forall n :: |peer.streams(n).bytes| < TWO_32
  }

  /** The stream of the connection opened last. */
  ghost function Current(v: Desk, peer: Peer): Stream
  {
    peer.streams(v.history.admitted[peer.key])
  }

  ghost predicate PartOf(stream: Stream, s: Segment)
  {
    Piece(stream.bytes, stream.first, s.seq', s.payload)
  }

  /**
   What the responder takes from the peer is part of its stream. Nothing is asked of segments that are not taken, such
   as late ones of an earlier connection outside the window, and a FIN with data is one that cannot record a false
   banner: its number is never looked at.
   */
  ghost predicate Sends(v: Desk, input: Input, config: Config, peer: Peer)
  {
    input.Packet? && input.key == peer.key && !input.rst ==>
      if input.syn && input.ackFlag && !input.fin then
        Opens(input.segment.seq', input.segment.ack, input.cookie, input.payload, v.history.admitted[input.key], peer)
      else input.key in v.connections ==> SendsData(v.connections[input.key].conn, input, config, Current(v, peer))
  }

  ghost predicate SendsData(c: Connection, input: Input, config: Config, stream: Stream)
    requires input.Packet?
  {
    if input.fin then
      input.segment.payload != [] ==>
        PartOf(stream, input.segment) && Honest(c.data, Into(stream.first, input.segment.seq'))
    else
      input.ackFlag && Taken(c, input.segment, config.limits) ==> PartOf(stream, input.segment)
  }

  /** A SYN-ACK that is accepted as number `n + 1` gives the number before the first byte of that stream. */
  ghost predicate Opens(seq': Word, ack: Word, cookie: Word, payload: Option<Bytes>, n: nat, peer: Peer)
  {
    ack == Wrap(cookie + 1) && payload.Some? ==> Wrap(seq' + 1) == peer.streams(n + 1).first
  }

  /** `body` is the verdict on the whole stream of one of the first `n` connections. */
  ghost predicate Told(peer: Peer, n: nat, body: Bytes, json: Json)
  {
    exists k :: 1 <= k <= n && ParseSpec(peer.streams(k).bytes, json) == Ok(body)
  }

  /** Every scanling and banner of the peer is the verdict on one of its streams. */
  ghost predicate Truthful(v: Desk, n: nat, peer: Peer, json: Json)
  {
    && (forall x :: x in v.scanlings && x.key == peer.key ==> Told(peer, n, x.body, json))
    && (forall r :: r in v.reports && r.key == peer.key && r.banner.Some? ==> Told(peer, n, r.banner.value, json))
  }

  /** ... and while it is tracked its connection holds a prefix of its stream that decides nothing yet. */
  ghost predicate Consistent(v: Desk, peer: Peer, json: Json)
  {
    && Truthful(v, v.history.admitted[peer.key], peer, json)
    && (peer.key in v.connections ==>
          v.history.admitted[peer.key] >= 1
          && Waits(v.connections[peer.key].conn, Current(v, peer).bytes, Current(v, peer).first, json))
  }

  /** A verdict that is a stream's own, or none, keeps the records truthful. */
  lemma JudgedIsTruthful(v: Desk, key: Key, verdict: Verdict, n: nat, peer: Peer, json: Json)
    requires Truthful(v, n, peer, json)
    requires key == peer.key && verdict.Ok? ==> Told(peer, n, verdict.body, json)
    ensures Truthful(Judged(v, key, verdict), n, peer, json)
  {
    var v' := Judged(v, key, verdict);
    forall x | x in v'.scanlings && x.key == peer.key ensures Told(peer, n, x.body, json) {
      assert x in v.scanlings || (verdict.Ok? && x == Scanling(key, verdict.body));
    }
    forall r | r in v'.reports && r.key == peer.key && r.banner.Some? ensures Told(peer, n, r.banner.value, json) {
      assert r in v.reports || r == Report(key, if verdict.Ok? then Some(verdict.body) else None);
    }
  }

  lemma SilentIsTruthful(v: Desk, key: Key, n: nat, peer: Peer, json: Json)
    requires Truthful(v, n, peer, json)
    ensures Truthful(Silent(v, key), n, peer, json)
  {
    forall r | r in Silent(v, key).reports && r.key == peer.key && r.banner.Some? ensures Told(peer, n, r.banner.value, json) {
      assert r in v.reports || r == Report(key, None);
    }
  }

  lemma MoreIsTruthful(v: Desk, n: nat, peer: Peer, json: Json)
    requires Truthful(v, n, peer, json)
    ensures Truthful(v, n + 1, peer, json)
  {
    assert forall body :: Told(peer, n, body, json) ==> Told(peer, n + 1, body, json);
  }

  lemma {:induction false} EmptiesAreSilent(keys: seq<Key>)
    ensures forall r :: r in Empties(keys) ==> r.banner.None?
  {
    if keys != [] {
      EmptiesAreSilent(keys[1..]);
    }
  }

  /** A greeted connection waits at the start of the stream. */
  lemma GreetedWaits(seq': Word, ack: Word, sentBytes: nat, at: Time, bytes: Bytes, json: Json)
    requires |bytes| < TWO_32
    ensures Waits(Greeted(seq', ack, sentBytes, at).conn, bytes, Wrap(seq' + 1), json)
  {
    assert ReadAt([], 0).Missing?;
  }

  /** An honest FIN records nothing, or the banner of the stream. */
  lemma HonestFinTells(c: Connection, s: Segment, json: Json, stream: Stream)
    requires Waits(c, stream.bytes, stream.first, json) && PartOf(stream, s) && s.payload != []
    requires Honest(c.data, Into(stream.first, s.seq'))
    ensures var verdict := ParseSpec(c.data + s.payload, json);
      verdict.Ok? ==> verdict == ParseSpec(stream.bytes, json)
  {
    ScannerIsParser(c.data, json);
    ScannerIsParser(c.data, Anything);
    HonestIsNeverFalse(c.data, Into(stream.first, s.seq'), stream.bytes, s.payload, json);
  }

  lemma FinIsConsistent(v: Desk, key: Key, s: Segment, config: Config, peer: Peer)
    requires Consistent(v, peer, config.json)
    requires key == peer.key && key in v.connections && s.payload != [] ==>
      PartOf(Current(v, peer), s) && Honest(v.connections[key].conn.data, Into(Current(v, peer).first, s.seq'))
    ensures Consistent(FinSpec(v, key, s, config), peer, config.json)
  {
    var v', n, json := Replied(v, Rst(key, s.ack, Wrap(s.seq' + 1 + |s.payload|))), v.history.admitted[peer.key], config.json;
    if key !in v.connections {
      SilentIsTruthful(v', key, n, peer, json);
    } else if s.payload == [] {
      JudgedIsTruthful(v', key, Incomplete, n, peer, json);
    } else {
      var c := v.connections[key].conn;
      if key == peer.key {
        HonestFinTells(c, s, json, Current(v, peer));
      }
      JudgedIsTruthful(v', key, ParseSpec(c.data + s.payload, json), n, peer, json);
    }
  }

  /** Segments of the stream, and segments that are not taken, leave the connection waiting or close it with the verdict. */
  lemma TakenAgrees(c: Connection, s: Segment, limits: Limits, json: Json, stream: Stream)
    requires Waits(c, stream.bytes, stream.first, json) && (Taken(c, s, limits) ==> PartOf(stream, s))
    ensures match Handled(c, s, limits, json)
      case Open(d) => Waits(d, stream.bytes, stream.first, json) && d.nextAck == c.nextAck
      case Closed(verdict) => verdict == ParseSpec(stream.bytes, json) && !verdict.Incomplete?
  {
    if Taken(c, s, limits) {
      HandledAgrees(c, s, limits, json, stream.bytes, stream.first);
    } else {
      TracksIff(c, s, limits, stream.bytes, stream.first);
    }
  }

  lemma AckIsConsistent(v: Desk, key: Key, s: Segment, config: Config, peer: Peer)
    requires Consistent(v, peer, config.json)
    requires key == peer.key && key in v.connections && Taken(v.connections[key].conn, s, config.limits) ==>
      PartOf(Current(v, peer), s)
    ensures Consistent(AckSpec(v, key, s, config), peer, config.json)
  {
    var n, json := v.history.admitted[peer.key], config.json;
    if key !in v.connections {
      SilentIsTruthful(v, key, n, peer, json);
    } else {
      var c := v.connections[key].conn;
      if key == peer.key {
        TakenAgrees(c, s, config.limits, json, Current(v, peer));
      }
      var h := Handled(c, s, config.limits, json);
      if h.Closed? {
        var d := Received(c, s, config.limits);
        JudgedIsTruthful(Replied(v, Rst(key, d.nextAck, d.nextSeq)), key, h.verdict, n, peer, json);
      }
    }
  }

  lemma SynAckIsConsistent(v: Desk, key: Key, seq': Word, ack: Word, cookie: Word, payload: Option<Bytes>, at: Time,
                           peer: Peer, json: Json)
    requires Consistent(v, peer, json) && IsPeer(peer)
    requires key == peer.key ==> Opens(seq', ack, cookie, payload, v.history.admitted[key], peer)
    ensures Consistent(SynAckSpec(v, key, seq', ack, cookie, payload, at), peer, json)
  {
    var n := v.history.admitted[peer.key];
    SilentIsTruthful(v, key, n, peer, json);
    SilentIsTruthful(Replied(v, Rst(key, ack, seq')), key, n, peer, json);
    MoreIsTruthful(v, n, peer, json);
    if payload.Some? {
      GreetedWaits(seq', ack, |payload.value|, at, peer.streams(n + 1).bytes, json);
    }
  }

  lemma TickIsConsistent(v: Desk, now: Time, peer: Peer, json: Json)
    requires Consistent(v, peer, json) && Covered(v.queue, v.connections)
    ensures Consistent(TickSpec(v, now), peer, json)
  {
    ExpireKeepsCover(v.queue, v.connections, now);
    EmptiesAreSilent(ExpireSpec(v.queue, v.connections, now).gone);
  }

  lemma StepIsConsistent(v: Desk, input: Input, config: Config, peer: Peer)
    requires Consistent(v, peer, config.json) && Covered(v.queue, v.connections) && IsPeer(peer)
    requires Sends(v, input, config, peer)
    ensures Consistent(StepSpec(v, input, config), peer, config.json)
  {
    match input
    case Tick(now) => TickIsConsistent(v, now, peer, config.json);
    case Packet(key, rst, fin, syn, ackFlag, s, cookie, payload, now) =>
      if rst {
        SilentIsTruthful(v, key, v.history.admitted[peer.key], peer, config.json);
        JudgedIsTruthful(v, key, Incomplete, v.history.admitted[peer.key], peer, config.json);
      } else if fin {
        FinIsConsistent(v, key, s, config, peer);
      } else if syn && ackFlag {
        SynAckIsConsistent(v, key, s.seq', s.ack, cookie, payload, now + config.timeout, peer, config.json);
      } else if ackFlag {
        AckIsConsistent(v, key, s, config, peer);
      }
  }

  /**
   In every run, however the packets of the peer are cut, ordered, repeated, lost or mixed with those of others,
   and however often its connection is opened again or expires: every scanling and every banner recorded for it is
   the verdict on the whole stream of one of its connections.
   */
  lemma {:induction false} RunIsTruthful(inputs: seq<Input>, config: Config, peer: Peer)
    requires IsPeer(peer)
    requires forall i :: 0 <= i < |inputs| ==> Sends(Run(EMPTY, inputs[..i], config), inputs[i], config, peer)
    ensures Consistent(Run(EMPTY, inputs, config), peer, config.json)
  {
    if inputs != [] {
      var n := |inputs| - 1;
      var earlier := inputs[..n];
      assert forall i :: 0 <= i < n ==> inputs[..i] == earlier[..i];
      RunIsTruthful(earlier, config, peer);
      RunKeepsBooks(earlier, config);
      StepIsConsistent(Run(EMPTY, earlier, config), inputs[n], config, peer);
    }
  }

  // ---------------------------------------------------------------- what is acknowledged

  /** Data is answered unless it acknowledges something else, or is empty and where it is expected. */
  predicate Answers(c: Connection, s: Segment)
  {
    s.ack == c.nextAck && (s.seq' != c.nextSeq || s.payload != [])
  }

  /** One answer: a reset where the data is decided, an acknowledgment anywhere else. */
  ghost predicate AnswersOnce(before: seq<Reply>, sent: seq<Reply>, key: Key, seq': Word, ack: Word, decided: bool)
  {
    sent == before + [if decided then Rst(key, seq', ack) else Ack(key, seq', ack)]
  }

  /** The data in order comes to a verdict with this segment. */
  ghost predicate Decides(c: Connection, s: Segment, config: Config)
  {
    InOrder(c, s) && !ParseSpec(Received(c, s, config.limits).data, config.json).Incomplete?
  }

  /** The answer goes on from what was sent and acknowledges up to the next expected number. */
  lemma AckAnswersOnce(v: Desk, key: Key, s: Segment, config: Config)
    requires key in v.connections
    ensures var c := v.connections[key].conn;
      var d := Received(c, s, config.limits);
      var sent := AckSpec(v, key, s, config).sent;
      if Answers(c, s) then AnswersOnce(v.sent, sent, key, d.nextAck, d.nextSeq, Decides(c, s, config)) else sent == v.sent
  {
  }

  /**
   To a part of the stream the responder answers once, going on from what it has sent and acknowledging exactly the
   bytes it now holds in order, wrapping included: with a reset if they decide, with an acknowledgment if not. It is
   silent exactly to what acknowledges something else and to an empty segment where it is expected.
   */
  lemma AcknowledgesWhatIsHeld(v: Desk, key: Key, s: Segment, config: Config, stream: Stream)
    requires key in v.connections && PartOf(stream, s)
    requires Waits(v.connections[key].conn, stream.bytes, stream.first, config.json)
    ensures var c := v.connections[key].conn;
      var held := |Received(c, s, config.limits).data|;
      var sent := AckSpec(v, key, s, config).sent;
      if Answers(c, s) then AnswersOnce(v.sent, sent, key, c.nextAck, Wrap(stream.first + held), Decides(c, s, config))
      else sent == v.sent
  {
    ReceivedTracks(v.connections[key].conn, s, config.limits, stream.bytes, stream.first);
    AckAnswersOnce(v, key, s, config);
  }

  /**
   An accepted handshake is answered with the payload, numbered as the peer acknowledged and acknowledging its SYN; what
   is tracked expects the byte after that, and the acknowledgment of all that was sent.
   */
  lemma GreetingIsAnswered(v: Desk, key: Key, seq': Word, cookie: Word, payload: Bytes, now: Time, config: Config)
    ensures var v' := StepSpec(v, Greeting(key, seq', cookie, payload, now), config);
      && |v'.sent| == |v.sent| + 1 && v'.sent[..|v.sent|] == v.sent && key in v'.connections
      && var r, c := v'.sent[|v.sent|], v'.connections[key].conn;
         && r.Push? && r.key == key && r.payload == payload && r.seq' == Wrap(cookie + 1) && r.ack == Wrap(seq' + 1)
         && c.nextSeq == r.ack && c.nextAck == Wrap(r.seq' + |payload|) && c.data == [] && c.reorder == map[]
  {
  }

  /** A FIN is answered with a reset that acknowledges its data and the FIN itself, tracked or not. */
  lemma FinIsAnswered(v: Desk, key: Key, s: Segment, config: Config)
    ensures FinSpec(v, key, s, config).sent == v.sent + [Rst(key, s.ack, Wrap(Wrap(s.seq' + |s.payload|) + 1))]
  {
    WrapsOnce(s.seq' + |s.payload|, 1);
  }

  lemma WrapsOnce(n: nat, m: nat)
    ensures Wrap(Wrap(n) + m) == Wrap(n + m)
  {
    AddModulo(n, m);
  }

  // ---------------------------------------------------------------- a FIN out of order

  function Scanlings(key: Key, banner: Option<Bytes>): seq<Scanling>
  {
    if banner.Some? then [Scanling(key, banner.value)] else []
  }

  /** A FIN ends the connection with one report of `banner`, and a scanling if there is one. */
  ghost predicate Tells(v: Desk, key: Key, s: Segment, config: Config, banner: Option<Bytes>)
  {
    var v' := FinSpec(v, key, s, config);
    v'.reports == v.reports + [Report(key, banner)] && v'.scanlings == v.scanlings + Scanlings(key, banner)
  }

  lemma FinTellsRecorded(v: Desk, key: Key, s: Segment, config: Config, banner: Option<Bytes>)
    requires key in v.connections
    ensures Tells(v, key, s, config, banner) <==> banner == Recorded(v.connections[key].conn.data, s.payload, config.json)
  {
    var recorded := Recorded(v.connections[key].conn.data, s.payload, config.json);
    var v' := FinSpec(v, key, s, config);
    assert v'.reports == v.reports + [Report(key, recorded)];
    assert v'.scanlings == v.scanlings + Scanlings(key, recorded);
    if Tells(v, key, s, config, banner) {
      assert v'.reports[|v.reports|] == Report(key, banner);
    }
  }

  /** The responder holds undecided data of the key, the bytes before `nextSeq`, and the first byte has number `first`. */
  ghost predicate Holds(v: Desk, key: Key, first: Word)
  {
    && key in v.connections
    && var c := v.connections[key].conn;
       Undecided(c.data) && |c.data| < TWO_32 && c.nextSeq == Wrap(first + |c.data|)
  }

  lemma InOrderOffset(n: nat, first: Word, next: Word, at: Word)
    requires n < TWO_32 && next == Wrap(first + n)
    ensures at == next <==> Into(first, at) == n
  {
    IntoWrap(first, n);
  }

  lemma RightFinIffOffset(v: Desk, key: Key, first: Word, at: Word, ack: Word)
    requires key in v.connections && Undecided(v.connections[key].conn.data)
    ensures var data := v.connections[key].conn.data;
      RightFin(v, key, first, at, ack) <==> Into(first, at) == |data| || Dead(Scanned(data))
  {
    RightFinIsAlwaysRight(v, key, first, at, ack);
    AlwaysRightIff(v.connections[key].conn.data, Into(first, at));
  }

  /** Whatever the stream, a FIN with this number ends its connection with what the stream has. */
  ghost predicate RightFin(v: Desk, key: Key, first: Word, at: Word, ack: Word)
    requires key in v.connections
  {
    forall bytes: Bytes, payload: Bytes, config: Config ::
      Carries(v.connections[key].conn.data, bytes, Into(first, at), payload) && Into(first, at) + |payload| == |bytes| ==>
        Tells(v, key, Segment(at, ack, payload), config, BannerOf(bytes, config.json))
  }

  /** Whatever the stream, a FIN with this number tells no banner that the stream does not have. */
  ghost predicate HonestFin(v: Desk, key: Key, first: Word, at: Word, ack: Word)
    requires key in v.connections
  {
    forall bytes: Bytes, payload: Bytes, config: Config ::
      Carries(v.connections[key].conn.data, bytes, Into(first, at), payload) ==>
        || Tells(v, key, Segment(at, ack, payload), config, None)
        || Tells(v, key, Segment(at, ack, payload), config, BannerOf(bytes, config.json))
  }

  lemma RightFinIsAlwaysRight(v: Desk, key: Key, first: Word, at: Word, ack: Word)
    requires key in v.connections
    ensures RightFin(v, key, first, at, ack) <==> AlwaysRight(v.connections[key].conn.data, Into(first, at))
  {
    var data, offset := v.connections[key].conn.data, Into(first, at);
    if AlwaysRight(data, offset) {
      forall bytes: Bytes, payload: Bytes, config: Config | Carries(data, bytes, offset, payload) && offset + |payload| == |bytes|
        ensures Tells(v, key, Segment(at, ack, payload), config, BannerOf(bytes, config.json))
      {
        FinTellsRecorded(v, key, Segment(at, ack, payload), config, BannerOf(bytes, config.json));
      }
    }
    if RightFin(v, key, first, at, ack) {
      forall bytes: Bytes, payload: Bytes, json: Json | Carries(data, bytes, offset, payload) && offset + |payload| == |bytes|
        ensures Recorded(data, payload, json) == BannerOf(bytes, json)
      {
        var config := Config(Limits(0, 0), 0, json);
        assert Tells(v, key, Segment(at, ack, payload), config, BannerOf(bytes, config.json));
        FinTellsRecorded(v, key, Segment(at, ack, payload), config, BannerOf(bytes, json));
      }
    }
  }

  lemma HonestFinIsNeverFalse(v: Desk, key: Key, first: Word, at: Word, ack: Word)
    requires key in v.connections
    ensures HonestFin(v, key, first, at, ack) <==> NeverFalse(v.connections[key].conn.data, Into(first, at))
  {
    var data, offset := v.connections[key].conn.data, Into(first, at);
    if NeverFalse(data, offset) {
      forall bytes: Bytes, payload: Bytes, config: Config | Carries(data, bytes, offset, payload)
        ensures || Tells(v, key, Segment(at, ack, payload), config, None)
                || Tells(v, key, Segment(at, ack, payload), config, BannerOf(bytes, config.json))
      {
        assert NotFalse(data, bytes, payload, config.json);
        FinTellsRecorded(v, key, Segment(at, ack, payload), config, None);
        FinTellsRecorded(v, key, Segment(at, ack, payload), config, BannerOf(bytes, config.json));
      }
    }
    if HonestFin(v, key, first, at, ack) {
      forall bytes: Bytes, payload: Bytes, json: Json | Carries(data, bytes, offset, payload)
        ensures NotFalse(data, bytes, payload, json)
      {
        var config := Config(Limits(0, 0), 0, json);
        assert || Tells(v, key, Segment(at, ack, payload), config, None)
               || Tells(v, key, Segment(at, ack, payload), config, BannerOf(bytes, config.json));
        FinTellsRecorded(v, key, Segment(at, ack, payload), config, None);
        FinTellsRecorded(v, key, Segment(at, ack, payload), config, BannerOf(bytes, json));
      }
    }
  }

  /**
   A FIN is judged rightly, for every stream it ends, exactly when it comes in order, or when the data held already
   rules a banner out.
   */
  lemma FinIsRightIffInOrder(v: Desk, key: Key, first: Word, at: Word, ack: Word)
    requires Holds(v, key, first)
    ensures var c := v.connections[key].conn;
      RightFin(v, key, first, at, ack) <==> at == c.nextSeq || Dead(Scanned(c.data))
  {
    RightFinIffOffset(v, key, first, at, ack);
    InOrderOffset(|v.connections[key].conn.data|, first, v.connections[key].conn.nextSeq, at);
  }

  /** A FIN tells no false banner, for every stream it is part of, exactly when it is honest. */
  lemma FinIsHonestIff(v: Desk, key: Key, first: Word, at: Word, ack: Word)
    requires Holds(v, key, first)
    ensures HonestFin(v, key, first, at, ack) <==> Honest(v.connections[key].conn.data, Into(first, at))
  {
    HonestFinIsNeverFalse(v, key, first, at, ack);
    NeverFalseIffHonest(v.connections[key].conn.data, Into(first, at));
  }

  /** A connection opened, and its first data, if any. */
  function Prelude(key: Key, seq': Word, cookie: Word, payload: Bytes, data: Bytes, now: Time): seq<Input>
  {
    var greeting := Greeting(key, seq', cookie, payload, now);
    if data == [] then [greeting] else [greeting, FirstData(key, seq', cookie, payload, data, now)]
  }

  lemma PreludeHolds(key: Key, seq': Word, cookie: Word, payload: Bytes, data: Bytes, now: Time, config: Config)
    requires ParseSpec(data, config.json).Incomplete?
    ensures var v := Run(EMPTY, Prelude(key, seq', cookie, payload, data, now), config);
      key in v.connections && v.connections[key].conn.data == data && v.scanlings == []
  {
    var greeting := Greeting(key, seq', cookie, payload, now);
    RunOneMore([], greeting, config);
    assert [] + [greeting] == [greeting];
    if data != [] {
      AfterFirstData(key, seq', cookie, payload, data, now, config);
      RunOfTwo(greeting, FirstData(key, seq', cookie, payload, data, now), config);
    }
  }

  /** A FIN with data. */
  function Final(key: Key, s: Segment, now: Time): Input
  {
    Packet(key, false, true, false, true, s, 0, None, now)
  }

  lemma FinalTells(v: Desk, key: Key, s: Segment, now: Time, config: Config)
    requires key in v.connections && v.scanlings == []
    ensures StepSpec(v, Final(key, s, now), config).scanlings
         == Scanlings(key, Recorded(v.connections[key].conn.data, s.payload, config.json))
  {
    FinTellsRecorded(v, key, s, config, Recorded(v.connections[key].conn.data, s.payload, config.json));
  }

  /**
   Every FIN that is not honest can lie: for any data held and any such offset there is a stream, and a run of a new
   responder that is sent nothing but parts of that stream, which ends with a scanling that is not the stream's banner.
   */
  lemma DishonestFinLies(key: Key, seq': Word, cookie: Word, payload: Bytes, data: Bytes, offset: Word, now: Time, config: Config)
    returns (bytes: Bytes, s: Segment)
    requires Undecided(data) && !Honest(data, offset) && config.json == Anything
    ensures |bytes| < TWO_32 && data <= bytes && PartOf(Stream(bytes, Wrap(seq' + 1)), s)
    ensures var v := Run(EMPTY, Prelude(key, seq', cookie, payload, data, now) + [Final(key, s, now)], config);
      |v.scanlings| == 1 && v.scanlings[0].key == key && Some(v.scanlings[0].body) != BannerOf(bytes, config.json)
  {
    bytes := DishonestIsFalse(data, offset);
    var first, inputs := Wrap(seq' + 1), Prelude(key, seq', cookie, payload, data, now);
    s := Segment(Wrap(first + offset), 0, bytes[offset..]);
    IntoWrap(first, offset);
    PreludeHolds(key, seq', cookie, payload, data, now, config);
    RunOneMore(inputs, Final(key, s, now), config);
    FinalTells(Run(EMPTY, inputs, config), key, s, now, config);
  }
}
