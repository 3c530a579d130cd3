/**
 What the responder records, over whole runs: its three records agree, every silence and every verdict is
 reported exactly once, and a stream all of whose chunks arrive leaves exactly its verdict.
 */
module ResponderRecords {
  import opened Wrappers
  import opened FinOrder
  import opened Minecraft
  import opened Modular
  import opened Reassembly
  import opened ResponderSpec
  import opened Segmentation

  // ---------------------------------------------------------------- what a verdict leaves

  /** The outcome of one connection: one report, and with a banner one scanling and one hit; the key is forgotten. */
  ghost predicate Records(v: Desk, v': Desk, key: Key, banner: Option<Bytes>)
  {
    && v'.connections == v.connections - {key} && v'.reports == v.reports + [Report(key, banner)]
    && match banner
       case Some(body) => v'.scanlings == v.scanlings + [Scanling(key, body)] && v'.hits == v.hits + [key.ip]
       case None => v'.scanlings == v.scanlings && v'.hits == v.hits
  }

  /** Data in order is acted on at once: a verdict is recorded, and undecided data is kept and nothing recorded. */
  lemma VerdictIsRecorded(v: Desk, key: Key, s: Segment, config: Config)
    requires key in v.connections && InOrder(v.connections[key].conn, s)
    ensures var d := Received(v.connections[key].conn, s, config.limits);
      var v' := AckSpec(v, key, s, config);
      match ParseSpec(d.data, config.json)
      case Ok(body) => Records(v, v', key, Some(body))
      case Invalid => Records(v, v', key, None)
      case Incomplete =>
        && key in v'.connections && v'.connections[key].conn == d
        && v'.reports == v.reports && v'.scanlings == v.scanlings && v'.hits == v.hits
  {
  }

  // ---------------------------------------------------------------- the records agree

  ghost function Ips(scanlings: seq<Scanling>): seq<nat>
  {
    if scanlings == [] then [] else Ips(scanlings[..|scanlings| - 1]) + [scanlings[|scanlings| - 1].key.ip]
  }

  /** The reports with a banner, as scanlings. */
  ghost function Answered(reports: seq<Report>): seq<Scanling>
  {
    if reports == [] then []
    else
      var r := reports[|reports| - 1];
      Answered(reports[..|reports| - 1]) + if r.banner.Some? then [Scanling(r.key, r.banner.value)] else []
  }

  /** Every scanling is one call of the IP strategy and one report of its banner, in the same order. */
  ghost predicate Agree(v: Desk)
  {
    v.hits == Ips(v.scanlings) && Answered(v.reports) == v.scanlings
  }

  lemma OneMoreAnswered(reports: seq<Report>, r: Report)
    ensures Answered(reports + [r]) == Answered(reports) + if r.banner.Some? then [Scanling(r.key, r.banner.value)] else []
  {
    assert (reports + [r])[..|reports|] == reports;
  }

  lemma OneMoreIp(scanlings: seq<Scanling>, x: Scanling)
    ensures Ips(scanlings + [x]) == Ips(scanlings) + [x.key.ip]
  {
    assert (scanlings + [x])[..|scanlings|] == scanlings;
  }

  lemma {:induction false} EmptiesAnswerNothing(reports: seq<Report>, gone: seq<Key>)
    ensures Answered(reports + Empties(gone)) == Answered(reports)
    decreases |gone|
  {
    if gone == [] {
      assert reports + [] == reports;
    } else {
      var r := Report(gone[0], None);
      assert reports + Empties(gone) == (reports + [r]) + Empties(gone[1..]);
      OneMoreAnswered(reports, r);
      EmptiesAnswerNothing(reports + [r], gone[1..]);
    }
  }

  lemma JudgedAgrees(v: Desk, key: Key, verdict: Verdict)
    requires Agree(v)
    ensures Agree(Judged(v, key, verdict))
  {
    OneMoreAnswered(v.reports, Report(key, Banner(verdict)));
    if verdict.Ok? {
      OneMoreIp(v.scanlings, Scanling(key, verdict.body));
    }
  }

  lemma SilentAgrees(v: Desk, key: Key)
    requires Agree(v)
    ensures Agree(Silent(v, key)) && Agree(Leaves(v, key, None))
  {
    OneMoreAnswered(v.reports, Report(key, None));
  }

  lemma AckAgrees(v: Desk, key: Key, s: Segment, config: Config)
    requires Agree(v)
    ensures Agree(AckSpec(v, key, s, config))
  {
    SilentAgrees(v, key);
    if key in v.connections && InOrder(v.connections[key].conn, s) {
      var d := Received(v.connections[key].conn, s, config.limits);
      JudgedAgrees(Replied(v, Rst(key, d.nextAck, d.nextSeq)), key, ParseSpec(d.data, config.json));
    }
  }

  lemma FinAgrees(v: Desk, key: Key, s: Segment, config: Config)
    requires Agree(v)
    ensures Agree(FinSpec(v, key, s, config))
  {
    var v' := Replied(v, Rst(key, s.ack, Wrap(s.seq' + 1 + |s.payload|)));
    SilentAgrees(v', key);
    if key in v.connections {
      JudgedAgrees(v', key, ParseSpec(v.connections[key].conn.data + s.payload, config.json));
    }
  }

  lemma SynAckAgrees(v: Desk, key: Key, seq': Word, ack: Word, cookie: Word, payload: Option<Bytes>, at: Time)
    requires Agree(v)
    ensures Agree(SynAckSpec(v, key, seq', ack, cookie, payload, at))
  {
    SilentAgrees(v, key);
    SilentAgrees(Replied(v, Rst(key, ack, seq')), key);
  }

  lemma StepAgrees(v: Desk, input: Input, config: Config)
    requires Agree(v)
    ensures Agree(StepSpec(v, input, config))
  {
    match input
    case Tick(now) => EmptiesAnswerNothing(v.reports, ExpireSpec(v.queue, v.connections, now).gone);
    case Packet(key, rst, fin, syn, ackFlag, s, cookie, payload, now) =>
      if rst {
        SilentAgrees(v, key);
      } else if fin {
        FinAgrees(v, key, s, config);
      } else if syn && ackFlag {
        SynAckAgrees(v, key, s.seq', s.ack, cookie, payload, now + config.timeout);
      } else if ackFlag {
        AckAgrees(v, key, s, config);
      }
  }

  /** In every run the scanlings, the reports with a banner and the hits are the same events in the same order. */
  lemma {:induction false} RunRecordsAgree(inputs: seq<Input>, config: Config)
    ensures Agree(Run(EMPTY, inputs, config))
  {
    if inputs != [] {
      var n := |inputs| - 1;
      RunRecordsAgree(inputs[..n], config);
      StepAgrees(Run(EMPTY, inputs[..n], config), inputs[n], config);
    }
  }

  // ---------------------------------------------------------------- one key of a run

  /** What was reported for a key, in order. */
  ghost function Banners(reports: seq<Report>, key: Key): seq<Option<Bytes>>
  {
    if reports == [] then []
    else
      var r := reports[|reports| - 1];
      Banners(reports[..|reports| - 1], key) + if r.key == key then [r.banner] else []
  }

  /** The bodies of the scanlings of a key, in order. */
  ghost function Bodies(scanlings: seq<Scanling>, key: Key): seq<Bytes>
  {
    if scanlings == [] then []
    else
      var x := scanlings[|scanlings| - 1];
      Bodies(scanlings[..|scanlings| - 1], key) + if x.key == key then [x.body] else []
  }

  lemma OneMoreBanner(reports: seq<Report>, r: Report, key: Key)
    ensures Banners(reports + [r], key) == Banners(reports, key) + if r.key == key then [r.banner] else []
  {
    assert (reports + [r])[..|reports|] == reports;
  }

  lemma OneMoreBody(scanlings: seq<Scanling>, x: Scanling, key: Key)
    ensures Bodies(scanlings + [x], key) == Bodies(scanlings, key) + if x.key == key then [x.body] else []
  {
    assert (scanlings + [x])[..|scanlings|] == scanlings;
  }

  lemma {:induction false} OthersGone(reports: seq<Report>, gone: seq<Key>, key: Key)
    requires key !in gone
    ensures Banners(reports + Empties(gone), key) == Banners(reports, key)
    decreases |gone|
  {
    if gone == [] {
      assert reports + [] == reports;
    } else {
      var r := Report(gone[0], None);
      assert reports + Empties(gone) == (reports + [r]) + Empties(gone[1..]);
      OneMoreBanner(reports, r, key);
      OthersGone(reports + [r], gone[1..], key);
    }
  }

  lemma {:induction false} BannersCount(reports: seq<Report>, key: Key)
    ensures |Banners(reports, key)| == Reported(reports, key)
  {
    if reports != [] {
      BannersCount(reports[..|reports| - 1], key);
    }
  }

  /** No entry of the key falls due before `due`. */
  ghost predicate NotBefore(queue: seq<Expiry>, key: Key, due: Time)
  {
    forall e :: e in queue && e.key == key ==> due <= e.at
  }

  /** Nothing about the key has changed. */
  ghost predicate Untouched(v: Desk, v': Desk, key: Key)
  {
    && (key in v.connections <==> key in v'.connections)
    && (key in v.connections ==> v'.connections[key] == v.connections[key])
    && Banners(v'.reports, key) == Banners(v.reports, key) && Bodies(v'.scanlings, key) == Bodies(v.scanlings, key)
  }

  lemma NotBeforeMore(queue: seq<Expiry>, e: Expiry, key: Key, due: Time)
    requires e.key == key ==> due <= e.at
    ensures NotBefore(queue, key, due) ==> NotBefore(queue + [e], key, due)
  {
  }

  lemma JudgedElsewhere(v: Desk, k: Key, verdict: Verdict, key: Key)
    requires k != key
    ensures Untouched(v, Judged(v, k, verdict), key) && Judged(v, k, verdict).queue == v.queue
  {
    OneMoreBanner(v.reports, Report(k, Banner(verdict)), key);
    if verdict.Ok? {
      OneMoreBody(v.scanlings, Scanling(k, verdict.body), key);
    }
  }

  lemma SilentElsewhere(v: Desk, k: Key, key: Key)
    requires k != key
    ensures Untouched(v, Silent(v, k), key) && Untouched(v, Leaves(v, k, None), key)
  {
    OneMoreBanner(v.reports, Report(k, None), key);
  }

  lemma AckElsewhere(v: Desk, k: Key, s: Segment, config: Config, key: Key, due: Time)
    requires k != key
    ensures Untouched(v, AckSpec(v, k, s, config), key)
    ensures NotBefore(v.queue, key, due) ==> NotBefore(AckSpec(v, k, s, config).queue, key, due)
  {
    if k !in v.connections {
      SilentElsewhere(v, k, key);
    } else if InOrder(v.connections[k].conn, s) {
      var was := v.connections[k];
      var d := Received(was.conn, s, config.limits);
      NotBeforeMore(v.queue, Expiry(was.expiresAt + config.timeout, k), key, due);
      JudgedElsewhere(Replied(v, Rst(k, d.nextAck, d.nextSeq)), k, ParseSpec(d.data, config.json), key);
    }
  }

  lemma FinElsewhere(v: Desk, k: Key, s: Segment, config: Config, key: Key)
    requires k != key
    ensures Untouched(v, FinSpec(v, k, s, config), key) && FinSpec(v, k, s, config).queue == v.queue
  {
    var v' := Replied(v, Rst(k, s.ack, Wrap(s.seq' + 1 + |s.payload|)));
    SilentElsewhere(v', k, key);
    if k in v.connections {
      JudgedElsewhere(v', k, ParseSpec(v.connections[k].conn.data + s.payload, config.json), key);
    }
  }

  lemma SynAckElsewhere(v: Desk, k: Key, seq': Word, ack: Word, cookie: Word, payload: Option<Bytes>, at: Time,
                        key: Key, due: Time)
    requires k != key
    ensures var v' := SynAckSpec(v, k, seq', ack, cookie, payload, at);
      Untouched(v, v', key) && (NotBefore(v.queue, key, due) ==> NotBefore(v'.queue, key, due))
  {
    SilentElsewhere(v, k, key);
    SilentElsewhere(Replied(v, Rst(k, ack, seq')), k, key);
    NotBeforeMore(v.queue, Expiry(at, k), key, due);
  }

  /** Packets of other keys. */
  lemma PacketElsewhere(v: Desk, input: Input, config: Config, key: Key, due: Time)
    requires input.Packet? && input.key != key
    ensures var v' := StepSpec(v, input, config);
      Untouched(v, v', key) && (NotBefore(v.queue, key, due) ==> NotBefore(v'.queue, key, due))
  {
    var k, s := input.key, input.segment;
    if input.rst {
      SilentElsewhere(v, k, key);
    } else if input.fin {
      FinElsewhere(v, k, s, config, key);
    } else if input.syn && input.ackFlag {
      SynAckElsewhere(v, k, s.seq', s.ack, input.cookie, input.payload, input.now + config.timeout, key, due);
    } else if input.ackFlag {
      AckElsewhere(v, k, s, config, key, due);
    }
  }

  lemma {:induction false} EarlyTickSpares<T>(queue: seq<Expiry>, table: map<Key, T>, now: Time, key: Key, due: Time)
    requires NotBefore(queue, key, due) && now < due
    ensures var r := ExpireSpec(queue, table, now);
      && (key in r.table <==> key in table) && (key in table ==> r.table[key] == table[key])
      && key !in r.gone && NotBefore(r.queue, key, due)
  {
    if queue != [] && (queue[0].key !in table || queue[0].at <= now) {
      assert queue[0] in queue && forall e :: e in queue[1..] ==> e in queue;
      EarlyTickSpares(queue[1..], if queue[0].key in table then table - {queue[0].key} else table, now, key, due);
    }
  }

  /** Ticks before the key's first entry falls due. */
  lemma TickElsewhere(v: Desk, now: Time, key: Key, due: Time)
    requires NotBefore(v.queue, key, due) && now < due
    ensures Untouched(v, TickSpec(v, now), key) && NotBefore(TickSpec(v, now).queue, key, due)
  {
    EarlyTickSpares(v.queue, v.connections, now, key, due);
    OthersGone(v.reports, ExpireSpec(v.queue, v.connections, now).gone, key);
  }

  // ---------------------------------------------------------------- silence

  /** A packet that is no part of a tracked connection, or a handshake that is not accepted. */
  ghost predicate Stray(v: Desk, input: Input, key: Key)
  {
    && input.Packet? && input.key == key
    && if input.rst || input.fin then key !in v.connections
       else if input.syn && input.ackFlag then input.segment.ack != Wrap(input.cookie + 1) || input.payload.None?
       else input.ackFlag && key !in v.connections
  }

  ghost function StrayAt(v: Desk, input: Input, key: Key): nat
  {
    if Stray(v, input, key) then 1 else 0
  }

  /** What a stray packet is answered with: a reset for a FIN, for data and for a handshake without payload. */
  ghost function StrayAnswer(input: Input): seq<Reply>
    requires input.Packet?
  {
    var s := input.segment;
    if input.rst then []
    else if input.fin then [Rst(input.key, s.ack, Wrap(s.seq' + 1 + |s.payload|))]
    else if input.syn then (if s.ack != Wrap(input.cookie + 1) then [] else [Rst(input.key, s.ack, s.seq')])
    else [Rst(input.key, s.ack, Wrap(s.seq' + |s.payload|))]
  }

  /** A stray packet makes one report of silence for its key, and changes neither the table nor any other record. */
  lemma StrayIsSilence(v: Desk, input: Input, config: Config)
    requires input.Packet? && Stray(v, input, input.key)
    ensures var v' := StepSpec(v, input, config);
      && v'.reports == v.reports + [Report(input.key, None)] && v'.connections == v.connections
      && v'.scanlings == v.scanlings && v'.hits == v.hits && v'.queue == v.queue
      && v'.sent == v.sent + StrayAnswer(input)
  {
  }

  /** A reset ends a tracked connection with one report of silence. */
  lemma ResetIsSilence(v: Desk, input: Input, config: Config)
    requires input.Packet? && input.rst && input.key in v.connections
    ensures Records(v, StepSpec(v, input, config), input.key, None)
  {
  }

  ghost function Departed(v: Desk, v': Desk, key: Key): nat
  {
    if key in v.connections && key !in v'.connections then 1 else 0
  }

  /** One step reports a key exactly if it loses its connection or the packet is stray. */
  ghost predicate ReportsExactly(v: Desk, input: Input, v': Desk, key: Key)
  {
    Reported(v'.reports, key) == Reported(v.reports, key) + Departed(v, v', key) + StrayAt(v, input, key)
  }

  lemma OthersAreNotReported(v: Desk, input: Input, config: Config, key: Key)
    requires input.Packet? && input.key != key
    ensures ReportsExactly(v, input, StepSpec(v, input, config), key)
  {
    var v' := StepSpec(v, input, config);
    PacketElsewhere(v, input, config, key, 0);
    BannersCount(v.reports, key);
    BannersCount(v'.reports, key);
  }

  lemma OwnAckIsReported(v: Desk, key: Key, s: Segment, config: Config)
    ensures var v' := AckSpec(v, key, s, config);
      Reported(v'.reports, key) == Reported(v.reports, key) + Departed(v, v', key) + (1 - Here(v.connections, key))
  {
    OneMoreReport(v.reports, Report(key, None), key);
    if key in v.connections && InOrder(v.connections[key].conn, s) {
      var d := Received(v.connections[key].conn, s, config.limits);
      OneMoreReport(v.reports, Report(key, Banner(ParseSpec(d.data, config.json))), key);
    }
  }

  lemma OwnFinIsReported(v: Desk, key: Key, s: Segment, config: Config)
    ensures var v' := FinSpec(v, key, s, config);
      Reported(v'.reports, key) == Reported(v.reports, key) + Departed(v, v', key) + (1 - Here(v.connections, key))
  {
    OneMoreReport(v.reports, Report(key, None), key);
    if key in v.connections {
      OneMoreReport(v.reports, Report(key, Banner(ParseSpec(v.connections[key].conn.data + s.payload, config.json))), key);
    }
  }

  lemma OwnAreReported(v: Desk, input: Input, config: Config)
    requires input.Packet?
    ensures ReportsExactly(v, input, StepSpec(v, input, config), input.key)
  {
    if input.rst || (!input.fin && input.syn && input.ackFlag) {
      OneMoreReport(v.reports, Report(input.key, None), input.key);
    } else if input.fin {
      OwnFinIsReported(v, input.key, input.segment, config);
    } else if input.ackFlag {
      OwnAckIsReported(v, input.key, input.segment, config);
    }
  }

  lemma StepReportsExactly(v: Desk, input: Input, config: Config, key: Key)
    requires Covered(v.queue, v.connections)
    ensures ReportsExactly(v, input, StepSpec(v, input, config), key)
  {
    if input.Tick? {
      var r := ExpireSpec(v.queue, v.connections, input.now);
      ExpireKeepsCover(v.queue, v.connections, input.now);
      ManyMoreReports(v.reports, r.gone, key);
      assert multiset(v.connections.Keys)[key] == multiset(r.table.Keys)[key] + multiset(r.gone)[key];
    } else if input.key != key {
      OthersAreNotReported(v, input, config, key);
    } else {
      OwnAreReported(v, input, config);
    }
  }

  /** How many packets of a run were stray for a key when they came. */
  ghost function Strays(inputs: seq<Input>, config: Config, key: Key): nat
  {
    if inputs == [] then 0
    else
      var n := |inputs| - 1;
      Strays(inputs[..n], config, key) + StrayAt(Run(EMPTY, inputs[..n], config), inputs[n], key)
  }

  /** In every run a key is reported exactly as often as it lost a connection and as its packets were stray. */
  lemma {:induction false} RunReportsExactly(inputs: seq<Input>, config: Config, key: Key)
    ensures var v := Run(EMPTY, inputs, config);
      Reported(v.reports, key) == v.history.departed[key] + Strays(inputs, config, key)
  {
    if inputs != [] {
      var n := |inputs| - 1;
      var v := Run(EMPTY, inputs[..n], config);
      RunReportsExactly(inputs[..n], config, key);
      RunKeepsBooks(inputs[..n], config);
      StepReportsExactly(v, inputs[n], config, key);
      StepAccounts(v, inputs[n], config, key);
    }
  }

  // ---------------------------------------------------------------- a connection within a run

  ghost function Silences(n: nat): (s: seq<Option<Bytes>>)
    ensures |s| == n && forall i :: 0 <= i < n ==> s[i] == None
  {
    seq(n, _ => None)
  }

  /** How many segments come after the one that closes the connection. */
  ghost function Late(c: Connection, segments: seq<Segment>, limits: Limits, json: Json): nat
  {
    if segments == [] || Delivered(c, segments[..|segments| - 1], limits, json).Open? then 0
    else Late(c, segments[..|segments| - 1], limits, json) + 1
  }

  /**
   How a key stands at `v`, compared with `v0`, if its connection has come as far as `progress` and `late` of its
   segments have come since: while open it is tracked and nothing is recorded; once closed it is forgotten, the verdict
   is recorded once, and each segment that comes later is reported as silence.
   */
  ghost predicate Stands(v0: Desk, v: Desk, key: Key, progress: Progress, late: nat, due: Time)
  {
    match progress
    case Open(d) =>
      && key in v.connections && v.connections[key].conn == d && due <= v.connections[key].expiresAt
      && Banners(v.reports, key) == Banners(v0.reports, key) && Bodies(v.scanlings, key) == Bodies(v0.scanlings, key)
    case Closed(verdict) =>
      && key !in v.connections
      && Banners(v.reports, key) == Banners(v0.reports, key) + [Banner(verdict)] + Silences(late)
      && Bodies(v.scanlings, key) == Bodies(v0.scanlings, key) + if verdict.Ok? then [verdict.body] else []
  }

  /** An ACK without other flags. */
  ghost predicate PlainAck(input: Input)
  {
    input.Packet? && !input.rst && !input.fin && !input.syn && input.ackFlag
  }

  /** Of the key only data arrives, and no tick comes before its time is up; anything may happen to other keys. */
  ghost predicate Undisturbed(input: Input, key: Key, due: Time)
  {
    match input
    case Tick(now) => now < due
    case Packet(k, _, _, _, _, _, _, _, _) => k == key ==> PlainAck(input)
  }

  /** The segments of the key, in order. */
  ghost function SegmentsOf(inputs: seq<Input>, key: Key): seq<Segment>
  {
    if inputs == [] then []
    else
      var input := inputs[|inputs| - 1];
      SegmentsOf(inputs[..|inputs| - 1], key) + if input.Packet? && input.key == key then [input.segment] else []
  }

  /** Data for a tracked connection does what the connection alone would do with it, and records the verdict. */
  lemma AckOfTracked(v0: Desk, v: Desk, key: Key, s: Segment, config: Config, d: Connection, due: Time)
    requires Stands(v0, v, key, Open(d), 0, due) && NotBefore(v.queue, key, due)
    ensures var v' := AckSpec(v, key, s, config);
      Stands(v0, v', key, Handled(d, s, config.limits, config.json), 0, due) && NotBefore(v'.queue, key, due)
  {
    if InOrder(d, s) {
      var e := Received(d, s, config.limits);
      var verdict := ParseSpec(e.data, config.json);
      NotBeforeMore(v.queue, Expiry(v.connections[key].expiresAt + config.timeout, key), key, due);
      OneMoreBanner(v.reports, Report(key, Banner(verdict)), key);
      if verdict.Ok? {
        OneMoreBody(v.scanlings, Scanling(key, verdict.body), key);
      }
    }
  }

  /** Data for a connection that is closed is reported as silence. */
  lemma AckOfClosed(v0: Desk, v: Desk, key: Key, s: Segment, config: Config, verdict: Verdict, late: nat, due: Time)
    requires Stands(v0, v, key, Closed(verdict), late, due) && NotBefore(v.queue, key, due)
    ensures var v' := AckSpec(v, key, s, config);
      Stands(v0, v', key, Closed(verdict), late + 1, due) && NotBefore(v'.queue, key, due)
  {
    OneMoreBanner(v.reports, Report(key, None), key);
    assert Silences(late) + [None] == Silences(late + 1);
  }

  /** One more input of a run. */
  lemma OneMoreInput(v0: Desk, v: Desk, key: Key, input: Input, config: Config, due: Time,
                     c: Connection, segments: seq<Segment>, segments': seq<Segment>)
    requires Undisturbed(input, key, due) && NotBefore(v.queue, key, due)
    requires segments' == segments + if input.Packet? && input.key == key then [input.segment] else []
    requires Stands(v0, v, key, Delivered(c, segments, config.limits, config.json),
                    Late(c, segments, config.limits, config.json), due)
    ensures var v' := StepSpec(v, input, config);
      && NotBefore(v'.queue, key, due)
      && Stands(v0, v', key, Delivered(c, segments', config.limits, config.json),
                Late(c, segments', config.limits, config.json), due)
  {
    if input.Packet? && input.key == key {
      var s := input.segment;
      assert segments'[..|segments|] == segments;
      DeliveredOneMore(c, segments, s, config.limits, config.json);
      match Delivered(c, segments, config.limits, config.json)
      case Open(d) => AckOfTracked(v0, v, key, s, config, d, due);
      case Closed(verdict) =>
        AckOfClosed(v0, v, key, s, config, verdict, Late(c, segments, config.limits, config.json), due);
    } else {
      assert segments' == segments;
      if input.Tick? {
        TickElsewhere(v, input.now, key, due);
      } else {
        PacketElsewhere(v, input, config, key, due);
      }
    }
  }

  /**
   Within any run, with anything going on for other keys, the connection of a key comes exactly as far as its own
   segments bring it, and what is recorded for the key is exactly what that comes to.
   */
  lemma {:induction false} RunFollowsConnection(v: Desk, key: Key, inputs: seq<Input>, config: Config, due: Time)
    requires key in v.connections && due <= v.connections[key].expiresAt && NotBefore(v.queue, key, due)
    requires forall i :: 0 <= i < |inputs| ==> Undisturbed(inputs[i], key, due)
    ensures var v', c, segments := Run(v, inputs, config), v.connections[key].conn, SegmentsOf(inputs, key);
      && NotBefore(v'.queue, key, due)
      && Stands(v, v', key, Delivered(c, segments, config.limits, config.json),
                Late(c, segments, config.limits, config.json), due)
  {
    if inputs != [] {
      var n := |inputs| - 1;
      RunFollowsConnection(v, key, inputs[..n], config, due);
      OneMoreInput(v, Run(v, inputs[..n], config), key, inputs[n], config, due, v.connections[key].conn,
                   SegmentsOf(inputs[..n], key), SegmentsOf(inputs, key));
    }
  }

  lemma {:induction false} RunConcat(v: Desk, a: seq<Input>, b: seq<Input>, config: Config)
    ensures Run(v, a + b, config) == Run(Run(v, a, config), b, config)
    decreases |b|
  {
    if b == [] {
      assert a + b == a;
    } else {
      var n := |b| - 1;
      assert (a + b)[..|a| + n] == a + b[..n];
      RunConcat(v, a, b[..n], config);
    }
  }

  /** After an accepted handshake the connection is tracked, empty, and due one timeout later. */
  lemma GreetingOpens(v: Desk, key: Key, seq': Word, cookie: Word, payload: Bytes, now: Time, config: Config)
    requires NotBefore(v.queue, key, now + config.timeout)
    ensures var v' := StepSpec(v, Greeting(key, seq', cookie, payload, now), config);
      && key in v'.connections && v'.connections[key].expiresAt == now + config.timeout
      && v'.connections[key].conn == Connection([], Wrap(seq' + 1), Wrap(Wrap(cookie + 1) + |payload|), map[])
      && NotBefore(v'.queue, key, now + config.timeout)
      && v'.reports == v.reports && v'.scanlings == v.scanlings
  {
    NotBeforeMore(v.queue, Expiry(now + config.timeout, key), key, now + config.timeout);
  }

  /**
   Nothing is missed over whole runs. Whatever came `earlier`, and whatever happens to other keys meanwhile: if a
   handshake is accepted and every chunk of the stream arrives before its time is up, cut, ordered and repeated in any
   way, then the key has gained exactly the verdict on the stream: one report of it, a scanling if it is a banner, and
   nothing else but silence for segments that come after the end.
   */
  lemma EveryBannerIsRecorded(earlier: seq<Input>, later: seq<Input>, key: Key, seq': Word, cookie: Word, payload: Bytes,
                              now: Time, p: Plan, order: seq<nat>, config: Config)
    requires p.Valid() && Roomy(p, config.limits) && Indices(p, order) && p.first == Wrap(seq' + 1)
    requires forall i :: 0 <= i < p.Count() ==> i in order
    requires !ParseSpec(p.stream, config.json).Incomplete?
    requires NotBefore(Run(EMPTY, earlier, config).queue, key, now + config.timeout)
    requires forall i :: 0 <= i < |later| ==> Undisturbed(later[i], key, now + config.timeout)
    requires SegmentsOf(later, key) == Arrivals(p, Wrap(Wrap(cookie + 1) + |payload|), order)
    ensures var v := Run(EMPTY, earlier, config);
      var v' := Run(EMPTY, earlier + [Greeting(key, seq', cookie, payload, now)] + later, config);
      var c, verdict := Connection([], p.first, Wrap(Wrap(cookie + 1) + |payload|), map[]), ParseSpec(p.stream, config.json);
      && key !in v'.connections && Agree(v')
      && Bodies(v'.scanlings, key) == Bodies(v.scanlings, key) + (if verdict.Ok? then [verdict.body] else [])
      && Banners(v'.reports, key) == Banners(v.reports, key) + [Banner(verdict)]
                                     + Silences(Late(c, SegmentsOf(later, key), config.limits, config.json))
  {
    var greeting, due := Greeting(key, seq', cookie, payload, now), now + config.timeout;
    var v := Run(EMPTY, earlier, config);
    var v1 := StepSpec(v, greeting, config);
    RunOneMore(earlier, greeting, config);
    RunConcat(EMPTY, earlier + [greeting], later, config);
    RunRecordsAgree(earlier + [greeting] + later, config);
    GreetingOpens(v, key, seq', cookie, payload, now, config);
    var c := v1.connections[key].conn;
    RunFollowsConnection(v1, key, later, config, due);
    EveryArrivalOrderReachesVerdict(c, p, order, config.limits, config.json);
  }
}
