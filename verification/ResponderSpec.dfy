/**
 The responder: the table of tracked connections, its expiry queue, and the reaction to every kind of
 packet. Sends succeed; what is sent, and every call to the port and IP strategies, is recorded.
 */
module ResponderSpec {
  import opened Wrappers
  import opened Minecraft
  import opened Modular
  import opened Reassembly

  datatype Key = Key(ip: nat, port: nat)
  type Time = int

  datatype Tracked = Tracked(conn: Connection, expiresAt: Time)
  datatype Expiry = Expiry(at: Time, key: Key)

  /** A report to the port strategy: an answer with its banner, or nothing. */
  datatype Report = Report(key: Key, banner: Option<Bytes>)

  datatype Reply =
    | Rst(key: Key, seq': Word, ack: Word)
    | Ack(key: Key, seq': Word, ack: Word)
    | Push(key: Key, seq': Word, ack: Word, payload: Bytes)

  datatype Scanling = Scanling(key: Key, body: Bytes)

  // ---------------------------------------------------------------- the expiry queue

  /** What the expiry loop leaves of queue and table, and whom it removes, in order. */
  datatype Expired<T> = Expired(queue: seq<Expiry>, table: map<Key, T>, gone: seq<Key>)

  function ExpireSpec<T>(queue: seq<Expiry>, table: map<Key, T>, now: Time): Expired<T>
  {
    if queue == [] then Expired([], table, [])
    else if queue[0].key !in table then ExpireSpec(queue[1..], table, now)
    else if queue[0].at > now then Expired(queue, table, [])
    else
      var rest := ExpireSpec(queue[1..], table - {queue[0].key}, now);
      Expired(rest.queue, rest.table, [queue[0].key] + rest.gone)
  }

  /** The keys with an entry in the queue. */
  ghost function Waiting(queue: seq<Expiry>): set<Key>
  {
    set e | e in queue :: e.key
  }

  /** Every tracked connection has an entry in the queue. */
  ghost predicate Covered<T>(queue: seq<Expiry>, table: map<Key, T>)
  {
    table.Keys <= Waiting(queue)
  }

  lemma WaitingTail(queue: seq<Expiry>)
    requires queue != []
    ensures Waiting(queue) == {queue[0].key} + Waiting(queue[1..])
  {
    assert queue == [queue[0]] + queue[1..];
  }

  lemma WaitingMore(queue: seq<Expiry>, e: Expiry)
    ensures Waiting(queue + [e]) == Waiting(queue) + {e.key}
  {
    forall k | k in Waiting(queue) + {e.key} ensures k in Waiting(queue + [e]) {
      if k == e.key {
        assert (queue + [e])[|queue|] == e;
      } else {
        var x :| x in queue && x.key == k;
        assert x in queue + [e];
      }
    }
  }

  /** Some entry of `key` is due. */
  ghost predicate Overdue(queue: seq<Expiry>, key: Key, now: Time)
  {
    exists e :: e in queue && e.key == key && e.at <= now
  }

  lemma OverdueTail(queue: seq<Expiry>, key: Key, now: Time)
    requires queue != [] && Overdue(queue[1..], key, now)
    ensures Overdue(queue, key, now)
  {
    var e :| e in queue[1..] && e.key == key && e.at <= now;
    assert e in queue;
  }

  /** The loop keeps every survivor in the queue, removes each connection once, and only overdue ones. */
  lemma {:induction false} ExpireKeepsCover<T>(queue: seq<Expiry>, table: map<Key, T>, now: Time)
    requires Covered(queue, table)
    ensures var r := ExpireSpec(queue, table, now);
      && Covered(r.queue, r.table)
      && multiset(table.Keys) == multiset(r.table.Keys) + multiset(r.gone)
      && (forall k :: k in r.table ==> k in table && r.table[k] == table[k])
      && (forall k :: k in r.gone ==> Overdue(queue, k, now))
      && (r.queue != [] ==> r.queue[0].key in r.table && r.queue[0].at > now)
  {
    if queue != [] {
      var k0 := queue[0].key;
      WaitingTail(queue);
      if k0 !in table {
        ExpireKeepsCover(queue[1..], table, now);
        forall k | k in ExpireSpec(queue, table, now).gone ensures Overdue(queue, k, now) {
          OverdueTail(queue, k, now);
        }
      } else if queue[0].at <= now {
        var rest := table - {k0};
        assert rest.Keys == table.Keys - {k0};
        assert multiset(table.Keys) == multiset{k0} + multiset(rest.Keys);
        ExpireKeepsCover(queue[1..], rest, now);
        var tail := ExpireSpec(queue[1..], rest, now);
        assert multiset([k0] + tail.gone) == multiset{k0} + multiset(tail.gone);
        forall k | k in ExpireSpec(queue, table, now).gone ensures Overdue(queue, k, now) {
          if k != k0 {
            OverdueTail(queue, k, now);
          } else {
            assert queue[0] in queue;
          }
        }
      }
    }
  }

  /** Entry `j` is the first of its key. */
  ghost predicate IsFirst(queue: seq<Expiry>, j: nat)
    requires j < |queue|
  {
    forall i :: 0 <= i < j ==> queue[i].key != queue[j].key
  }

  /** Entry `j` does not stop the loop: its key is not tracked, or has an earlier entry, or it is due. */
  ghost predicate Passes<T>(queue: seq<Expiry>, table: map<Key, T>, now: Time, j: nat)
    requires j < |queue|
  {
    queue[j].key in table && IsFirst(queue, j) ==> queue[j].at <= now
  }

  /** The loop gets past entry `i`, which is one of `key`. */
  ghost predicate Reaches<T>(queue: seq<Expiry>, table: map<Key, T>, now: Time, key: Key, i: nat)
  {
    i < |queue| && queue[i].key == key && forall j :: 0 <= j <= i ==> Passes(queue, table, now, j)
  }

  /** With its first entry taken off, and its key too if it was due, the queue lets the same entries pass. */
  lemma PassesTail<T>(queue: seq<Expiry>, table: map<Key, T>, now: Time, j: nat)
    requires queue != [] && j < |queue| - 1
    ensures Passes(queue[1..], table - {queue[0].key}, now, j) <==> Passes(queue, table, now, j + 1)
  {
    var rest := queue[1..];
    if rest[j].key != queue[0].key {
      assert forall i :: 0 <= i < j ==> rest[i] == queue[i + 1];
      assert IsFirst(rest, j) <==> IsFirst(queue, j + 1) by {
        if IsFirst(rest, j) {
          forall i | 0 <= i < j + 1 ensures queue[i].key != queue[j + 1].key {
            if i > 0 { assert rest[i - 1].key != rest[j].key; }
          }
        }
      }
    } else {
      assert !IsFirst(queue, j + 1);
    }
  }

  lemma ReachesTail<T>(queue: seq<Expiry>, table: map<Key, T>, now: Time, key: Key, i: nat)
    requires queue != [] && Passes(queue, table, now, 0)
    ensures Reaches(queue[1..], table - {queue[0].key}, now, key, i) <==> Reaches(queue, table, now, key, i + 1)
  {
    var rest, table' := queue[1..], table - {queue[0].key};
    forall j | 0 <= j < |rest| ensures Passes(rest, table', now, j) <==> Passes(queue, table, now, j + 1) {
      PassesTail(queue, table, now, j);
    }
    if Reaches(rest, table', now, key, i) {
      forall j | 0 <= j <= i + 1 ensures Passes(queue, table, now, j) {
        if j > 0 { assert Passes(rest, table', now, j - 1); }
      }
    }
    if Reaches(queue, table, now, key, i + 1) {
      forall j | 0 <= j <= i ensures Passes(rest, table', now, j) {
        assert Passes(queue, table, now, j + 1);
      }
    }
  }

  /** Some entry of the key is reached. */
  ghost predicate Expires<T>(queue: seq<Expiry>, table: map<Key, T>, now: Time, key: Key)
  {
    key in table && exists i :: Reaches(queue, table, now, key, i)
  }

  lemma ExpiresTail<T>(queue: seq<Expiry>, table: map<Key, T>, now: Time, key: Key)
    requires queue != [] && Passes(queue, table, now, 0) && key != queue[0].key
    ensures Expires(queue[1..], table - {queue[0].key}, now, key) <==> Expires(queue, table, now, key)
  {
    var rest, table' := queue[1..], table - {queue[0].key};
    if i: nat :| Reaches(rest, table', now, key, i) {
      ReachesTail(queue, table, now, key, i);
    }
    if i: nat :| Reaches(queue, table, now, key, i) {
      assert i > 0;
      ReachesTail(queue, table, now, key, i - 1);
    }
  }

  /**
   Exactly which connections a tick removes: those with an entry that only due or outdated entries precede. What counts
   is the first entry of each key; the time a connection was promised since, and any later entry, play no part.
   */
  lemma {:induction false} ExpiredIff<T>(queue: seq<Expiry>, table: map<Key, T>, now: Time, key: Key)
    ensures key in ExpireSpec(queue, table, now).gone <==> Expires(queue, table, now, key)
  {
    if queue != [] {
      var k0 := queue[0].key;
      if k0 !in table {
        assert table - {k0} == table;
        ExpiredIff(queue[1..], table, now, key);
        if key != k0 { ExpiresTail(queue, table, now, key); } else { StaysOut(queue[1..], table, now, key); }
      } else if queue[0].at <= now {
        ExpiredIff(queue[1..], table - {k0}, now, key);
        if key != k0 { ExpiresTail(queue, table, now, key); } else { assert Reaches(queue, table, now, key, 0); }
      } else {
        assert IsFirst(queue, 0) && !Passes(queue, table, now, 0);
      }
    }
  }

  lemma {:induction false} StaysOut<T>(queue: seq<Expiry>, table: map<Key, T>, now: Time, key: Key)
    requires key !in table
    ensures key !in ExpireSpec(queue, table, now).gone
  {
    if queue != [] && (queue[0].key !in table || queue[0].at <= now) {
      StaysOut(queue[1..], if queue[0].key in table then table - {queue[0].key} else table, now, key);
    }
  }

  // ---------------------------------------------------------------- what every packet does

  /** How often each key was opened by a cookie-valid SYN-ACK, replaced by a second one, and removed from the table. */
  datatype History = History(admitted: multiset<Key>, replaced: multiset<Key>, departed: multiset<Key>)

  function Opened(h: History, key: Key, tracked: bool): History
  {
    History(h.admitted + multiset{key}, if tracked then h.replaced + multiset{key} else h.replaced, h.departed)
  }

  function Left(h: History, keys: multiset<Key>): History
  {
    h.(departed := h.departed + keys)
  }

  /** The responder's state: the table, the expiry queue, and everything handed out so far. */
  datatype Desk = Desk(
    connections: map<Key, Tracked>,
    queue: seq<Expiry>,
    scanlings: seq<Scanling>,
    reports: seq<Report>,      // calls of the port strategy
    hits: seq<nat>,            // calls of the IP strategy
    sent: seq<Reply>,
    history: History)

  datatype Config = Config(limits: Limits, timeout: nat, json: Json)

  function Silent(v: Desk, key: Key): Desk
  {
    v.(reports := v.reports + [Report(key, None)])
  }

  function Replied(v: Desk, r: Reply): Desk
  {
    v.(sent := v.sent + [r])
  }

  /** A tracked connection leaves the table with one report. */
  function Leaves(v: Desk, key: Key, banner: Option<Bytes>): Desk
  {
    v.(connections := v.connections - {key}, history := Left(v.history, multiset{key}), reports := v.reports + [Report(key, banner)])
  }

  /** What a verdict on a departing connection does: a banner is reported and kept, anything else is silence. */
  function Judged(v: Desk, key: Key, verdict: Verdict): Desk
  {
    match verdict
    case Ok(body) =>
      Leaves(v, key, Some(body)).(scanlings := v.scanlings + [Scanling(key, body)], hits := v.hits + [key.ip])
    case _ => Leaves(v, key, None)
  }

  function RstSpec(v: Desk, key: Key): Desk
  {
    if key in v.connections then Leaves(v, key, None) else Silent(v, key)
  }

  /** A connection right after the handshake: it expects the byte after the SYN. */
  function Greeted(seq': Word, ack: Word, sentBytes: nat, expiresAt: Time): Tracked
  {
    Tracked(Connection([], Wrap(seq' + 1), Wrap(ack + sentBytes), map[]), expiresAt)
  }

  /** Only a valid cookie, and a payload to send, gets a connection tracked. */
  function SynAckSpec(v: Desk, key: Key, seq': Word, ack: Word, cookie: Word, payload: Option<Bytes>, expiresAt: Time): Desk
  {
    if ack != Wrap(cookie + 1) then Silent(v, key)
    else
      match payload
      case None => Silent(Replied(v, Rst(key, ack, seq')), key)
      case Some(bytes) =>
        Replied(v, Push(key, ack, Wrap(seq' + 1), bytes)).(
          connections := v.connections[key := Greeted(seq', ack, |bytes|, expiresAt)],
          queue := v.queue + [Expiry(expiresAt, key)],
          history := Opened(v.history, key, key in v.connections))
  }

  /** Data in order is parsed and judged; anything else is buffered or ignored. */
  ghost function AckSpec(v: Desk, key: Key, s: Segment, config: Config): Desk
  {
    if key !in v.connections then Replied(Silent(v, key), Rst(key, s.ack, Wrap(s.seq' + |s.payload|)))
    else
      var was := v.connections[key];
      var d := Received(was.conn, s, config.limits);
      if InOrder(was.conn, s) then
        match Handled(was.conn, s, config.limits, config.json)
        case Closed(verdict) => Judged(Replied(v, Rst(key, d.nextAck, d.nextSeq)), key, verdict)
        case Open(_) =>
          var later := was.expiresAt + config.timeout;
          Replied(v, Ack(key, d.nextAck, d.nextSeq)).(
            connections := v.connections[key := Tracked(d, later)], queue := v.queue + [Expiry(later, key)])
      else if s.ack == was.conn.nextAck && s.seq' != was.conn.nextSeq then
        Replied(v, Ack(key, was.conn.nextAck, was.conn.nextSeq)).(connections := v.connections[key := was.(conn := d)])
      else v
  }

  /** A FIN ends a connection; its data is appended as it comes. */
  function FinSpec(v: Desk, key: Key, s: Segment, config: Config): Desk
  {
    var v' := Replied(v, Rst(key, s.ack, Wrap(s.seq' + 1 + |s.payload|)));
    if key !in v.connections then Silent(v', key)
    else if s.payload == [] then Leaves(v', key, None)
    else Judged(v', key, ParseSpec(v.connections[key].conn.data + s.payload, config.json))
  }

  /** Reports of silence, one per key. */
  function Empties(keys: seq<Key>): (reports: seq<Report>)
  {
    if keys == [] then [] else [Report(keys[0], None)] + Empties(keys[1..])
  }

  function TickSpec(v: Desk, now: Time): Desk
  {
    var r := ExpireSpec(v.queue, v.connections, now);
    v.(connections := r.table, queue := r.queue, history := Left(v.history, multiset(r.gone)), reports := v.reports + Empties(r.gone))
  }

  /** The queue as a sequence: the entry set aside, then the deque. */
  function Queue(pending: Option<Expiry>, expiries: seq<Expiry>): seq<Expiry>
  {
    match pending
    case None => expiries
    case Some(e) => [e] + expiries
  }

  lemma QueueMore(pending: Option<Expiry>, expiries: seq<Expiry>, e: Expiry)
    ensures Queue(pending, expiries + [e]) == Queue(pending, expiries) + [e]
  {
  }

  /** The state after the loop has dealt with the first entry of the queue. */
  ghost function FirstDealtWith(v: Desk): Desk
    requires v.queue != []
  {
    var key := v.queue[0].key;
    var v' := v.(queue := v.queue[1..]);
    if key in v.connections then Leaves(v', key, None) else v'
  }

  lemma OneGone(h: History, reports: seq<Report>, key: Key, gone: seq<Key>)
    ensures Left(h, multiset([key] + gone)) == Left(Left(h, multiset{key}), multiset(gone))
    ensures reports + Empties([key] + gone) == reports + [Report(key, None)] + Empties(gone)
  {
    assert ([key] + gone)[1..] == gone;
  }

  /** Dealing with the first entry and then with the rest is dealing with all of them. */
  lemma FirstThenRest(v: Desk, now: Time)
    requires v.queue != [] && (v.queue[0].key in v.connections ==> v.queue[0].at <= now)
    ensures TickSpec(v, now) == TickSpec(FirstDealtWith(v), now)
  {
    var key := v.queue[0].key;
    if key in v.connections {
      var rest := ExpireSpec(v.queue[1..], v.connections - {key}, now);
      assert ExpireSpec(v.queue, v.connections, now) == Expired(rest.queue, rest.table, [key] + rest.gone);
      OneGone(v.history, v.reports, key, rest.gone);
    }
  }

  /** An empty queue, or a live entry at its front that is not due: the loop changes nothing. */
  lemma NothingToExpire(v: Desk, now: Time)
    requires v.queue == [] || (v.queue[0].key in v.connections && v.queue[0].at > now)
    ensures TickSpec(v, now) == v
  {
  }

  /** A packet, with the cookie and payload the responder computes for it, or the end of a batch. */
  datatype Input =
    | Packet(key: Key, rst: bool, fin: bool, syn: bool, ackFlag: bool, segment: Segment,
             cookie: Word, payload: Option<Bytes>, now: Time)
    | Tick(now: Time)

  /** Resets before FINs before SYN-ACKs before ACKs. */
  ghost function StepSpec(v: Desk, input: Input, config: Config): Desk
  {
    match input
    case Tick(now) => TickSpec(v, now)
    case Packet(key, rst, fin, syn, ackFlag, s, cookie, payload, now) =>
      if rst then RstSpec(v, key)
      else if fin then FinSpec(v, key, s, config)
      else if syn && ackFlag then SynAckSpec(v, key, s.seq', s.ack, cookie, payload, now + config.timeout)
      else if ackFlag then AckSpec(v, key, s, config)
      else v
  }

  // ---------------------------------------------------------------- the ledger

  /** How often a key has been reported. */
  ghost function Reported(reports: seq<Report>, key: Key): nat
  {
    if reports == [] then 0
    else Reported(reports[..|reports| - 1], key) + if reports[|reports| - 1].key == key then 1 else 0
  }

  /** How many scanlings a key has. */
  ghost function Captured(scanlings: seq<Scanling>, key: Key): nat
  {
    if scanlings == [] then 0
    else Captured(scanlings[..|scanlings| - 1], key) + if scanlings[|scanlings| - 1].key == key then 1 else 0
  }

  lemma OneMoreReport(reports: seq<Report>, r: Report, key: Key)
    ensures Reported(reports + [r], key) == Reported(reports, key) + if r.key == key then 1 else 0
  {
    assert (reports + [r])[..|reports|] == reports;
  }

  lemma OneMoreScanling(scanlings: seq<Scanling>, x: Scanling, key: Key)
    ensures Captured(scanlings + [x], key) == Captured(scanlings, key) + if x.key == key then 1 else 0
  {
    assert (scanlings + [x])[..|scanlings|] == scanlings;
  }

  lemma {:induction false} ManyMoreReports(reports: seq<Report>, gone: seq<Key>, key: Key)
    ensures Reported(reports + Empties(gone), key) == Reported(reports, key) + multiset(gone)[key]
    decreases |gone|
  {
    if gone != [] {
      var first, rest := Report(gone[0], None), gone[1..];
      assert reports + Empties(gone) == (reports + [first]) + Empties(rest);
      OneMoreReport(reports, first, key);
      ManyMoreReports(reports + [first], rest, key);
      assert gone == [gone[0]] + rest;
      assert multiset(gone)[key] == multiset(rest)[key] + if gone[0] == key then 1 else 0;
    } else {
      assert reports + Empties(gone) == reports;
    }
  }

  function Here(table: map<Key, Tracked>, key: Key): nat
  {
    if key in table then 1 else 0
  }

  /** The books of one key: every connection opened has departed, was replaced or is still tracked; every departure has
      been reported, and scanlings come from departures only. */
  ghost predicate Balanced(v: Desk, key: Key)
  {
    var h := v.history;
    && h.admitted[key] == h.departed[key] + h.replaced[key] + Here(v.connections, key)
    && Captured(v.scanlings, key) <= h.departed[key] <= Reported(v.reports, key)
  }

  /** The books balance for every key, and every tracked connection has an entry in the expiry queue. */
  ghost predicate Inv(v: Desk)
  {
    Covered(v.queue, v.connections) && forall key :: Balanced(v, key)
  }

  /** What one step may do for one key: a departure makes exactly one report and at most one scanling; a SYN-ACK opens
      one connection, replaces the one tracked, if any, and reports nothing. */
  ghost predicate Accounted(v: Desk, v': Desk, key: Key)
  {
    var gone := if key in v.connections && key !in v'.connections then 1 else 0;
    var h, h' := v.history, v'.history;
    var newly: int := h'.admitted[key] as int - h.admitted[key] as int;
    && h'.departed[key] == h.departed[key] + gone
    && (gone == 1 ==> Reported(v'.reports, key) == Reported(v.reports, key) + 1)
    && Reported(v.reports, key) <= Reported(v'.reports, key)
    && Captured(v.scanlings, key) <= Captured(v'.scanlings, key) <= Captured(v.scanlings, key) + gone
    && 0 <= newly <= 1
    && (newly == 1 ==> key in v'.connections && Reported(v'.reports, key) == Reported(v.reports, key))
    && (key !in v.connections && key in v'.connections ==> newly == 1)
    && h'.replaced[key] == h.replaced[key] + if key in v.connections then newly else 0
  }

  /** Accounted steps keep the books balanced. */
  lemma AccountedKeepsBalance(v: Desk, v': Desk, key: Key)
    requires Balanced(v, key) && Accounted(v, v', key)
    ensures Balanced(v', key)
  {
  }

  lemma LeavesAccounts(v: Desk, key: Key, banner: Option<Bytes>, k: Key)
    requires key in v.connections
    ensures Accounted(v, Leaves(v, key, banner), k)
  {
    OneMoreReport(v.reports, Report(key, banner), k);
  }

  lemma JudgedAccounts(v: Desk, key: Key, verdict: Verdict, k: Key)
    requires key in v.connections
    ensures Accounted(v, Judged(v, key, verdict), k)
  {
    if verdict.Ok? {
      LeavesAccounts(v, key, Some(verdict.body), k);
      OneMoreScanling(v.scanlings, Scanling(key, verdict.body), k);
    } else {
      LeavesAccounts(v, key, None, k);
    }
  }

  lemma SilentAccounts(v: Desk, key: Key, k: Key)
    ensures Accounted(v, Silent(v, key), k)
  {
    OneMoreReport(v.reports, Report(key, None), k);
  }

  /** A reply changes no account. */
  lemma ReplyAccounts(v: Desk, r: Reply, v': Desk, k: Key)
    requires Accounted(Replied(v, r), v', k)
    ensures Accounted(v, v', k)
  {
  }

  lemma FinAccounts(v: Desk, key: Key, s: Segment, config: Config, k: Key)
    ensures Accounted(v, FinSpec(v, key, s, config), k)
  {
    var v' := Replied(v, Rst(key, s.ack, Wrap(s.seq' + 1 + |s.payload|)));
    if key !in v.connections {
      SilentAccounts(v', key, k);
    } else if s.payload == [] {
      JudgedAccounts(v', key, Invalid, k);
    } else {
      JudgedAccounts(v', key, ParseSpec(v.connections[key].conn.data + s.payload, config.json), k);
    }
    ReplyAccounts(v, Rst(key, s.ack, Wrap(s.seq' + 1 + |s.payload|)), FinSpec(v, key, s, config), k);
  }

  lemma SynAckAccounts(v: Desk, key: Key, seq': Word, ack: Word, cookie: Word, payload: Option<Bytes>, expiresAt: Time, k: Key)
    ensures Accounted(v, SynAckSpec(v, key, seq', ack, cookie, payload, expiresAt), k)
  {
    SilentAccounts(v, key, k);
    SilentAccounts(Replied(v, Rst(key, ack, seq')), key, k);
  }

  lemma AckAccounts(v: Desk, key: Key, s: Segment, config: Config, k: Key)
    ensures Accounted(v, AckSpec(v, key, s, config), k)
  {
    if key !in v.connections {
      SilentAccounts(v, key, k);
    } else {
      var was := v.connections[key];
      var d := Received(was.conn, s, config.limits);
      var h := Handled(was.conn, s, config.limits, config.json);
      if InOrder(was.conn, s) && h.Closed? {
        JudgedAccounts(Replied(v, Rst(key, d.nextAck, d.nextSeq)), key, h.verdict, k);
        ReplyAccounts(v, Rst(key, d.nextAck, d.nextSeq), AckSpec(v, key, s, config), k);
      }
    }
  }

  /** The expiry loop departs each connection it removes once, with one report and no scanling. */
  lemma TickAccounts(v: Desk, now: Time, k: Key)
    requires Covered(v.queue, v.connections)
    ensures Accounted(v, TickSpec(v, now), k)
  {
    var r := ExpireSpec(v.queue, v.connections, now);
    ExpireKeepsCover(v.queue, v.connections, now);
    ManyMoreReports(v.reports, r.gone, k);
    assert multiset(v.connections.Keys)[k] == Here(v.connections, k);
    assert multiset(r.table.Keys)[k] == Here(r.table, k);
    assert multiset(v.connections.Keys)[k] == multiset(r.table.Keys)[k] + multiset(r.gone)[k];
  }

  /** Whatever arrives: for every key, a departure makes exactly one report and at most one scanling. */
  lemma StepAccounts(v: Desk, input: Input, config: Config, k: Key)
    requires Covered(v.queue, v.connections)
    ensures Accounted(v, StepSpec(v, input, config), k)
  {
    match input
    case Tick(now) => TickAccounts(v, now, k);
    case Packet(key, rst, fin, syn, ackFlag, s, cookie, payload, now) =>
      SilentAccounts(v, key, k);
      if key in v.connections { JudgedAccounts(v, key, Invalid, k); }
      FinAccounts(v, key, s, config, k);
      SynAckAccounts(v, key, s.seq', s.ack, cookie, payload, now + config.timeout, k);
      AckAccounts(v, key, s, config, k);
  }

  /** Whatever arrives: every tracked connection keeps an entry in the queue. */
  lemma StepKeepsCover(v: Desk, input: Input, config: Config)
    requires Covered(v.queue, v.connections)
    ensures Covered(StepSpec(v, input, config).queue, StepSpec(v, input, config).connections)
  {
    match input
    case Tick(now) => ExpireKeepsCover(v.queue, v.connections, now);
    case Packet(key, rst, fin, syn, ackFlag, s, cookie, payload, now) =>
      WaitingMore(v.queue, Expiry(now + config.timeout, key));
      if key in v.connections {
        WaitingMore(v.queue, Expiry(v.connections[key].expiresAt + config.timeout, key));
      }
  }

  /** Every step keeps the invariant. */
  lemma StepKeepsInv(v: Desk, input: Input, config: Config)
    requires Inv(v)
    ensures Inv(StepSpec(v, input, config))
  {
    StepKeepsCover(v, input, config);
    forall key ensures Balanced(StepSpec(v, input, config), key) {
      assert Balanced(v, key);
      StepAccounts(v, input, config, key);
      AccountedKeepsBalance(v, StepSpec(v, input, config), key);
    }
  }

  /** The responder after a sequence of inputs. */
  ghost function Run(v: Desk, inputs: seq<Input>, config: Config): Desk
  {
    if inputs == [] then v else StepSpec(Run(v, inputs[..|inputs| - 1], config), inputs[|inputs| - 1], config)
  }

  const EMPTY := Desk(map[], [], [], [], [], [], History(multiset{}, multiset{}, multiset{}))

  /**
   In every run and for every key: the connections opened by cookie-valid SYN-ACKs are those that departed, those that
   were replaced and the one still tracked; scanlings never outnumber departures, nor departures reports; and no tracked
   connection can be forgotten by the expiry loop.
   */
  lemma {:induction false} RunKeepsBooks(inputs: seq<Input>, config: Config)
    ensures Inv(Run(EMPTY, inputs, config))
  {
    if inputs == [] {
      assert forall key :: Balanced(EMPTY, key);
    } else {
      var n := |inputs| - 1;
      RunKeepsBooks(inputs[..n], config);
      StepKeepsInv(Run(EMPTY, inputs[..n], config), inputs[n], config);
    }
  }

  /** At every point of every run and for every key: one departure, one report, at most one scanling. */
  lemma EveryDepartureIsReportedOnce(inputs: seq<Input>, config: Config, n: nat, key: Key)
    requires n < |inputs|
    ensures Accounted(Run(EMPTY, inputs[..n], config), Run(EMPTY, inputs[..n + 1], config), key)
  {
    var v := Run(EMPTY, inputs[..n], config);
    RunKeepsBooks(inputs[..n], config);
    StepAccounts(v, inputs[n], config, key);
    assert inputs[..n + 1][..n] == inputs[..n];
  }

  // ---------------------------------------------------------------- a promise that is not kept

  /** A SYN-ACK that is accepted, with the payload that answers it. */
  function Greeting(key: Key, seq': Word, cookie: Word, payload: Bytes, now: Time): Input
  {
    Packet(key, false, false, true, true, Segment(seq', Wrap(cookie + 1), []), cookie, Some(payload), now)
  }

  lemma RunOneMore(inputs: seq<Input>, input: Input, config: Config)
    ensures Run(EMPTY, inputs + [input], config) == StepSpec(Run(EMPTY, inputs, config), input, config)
  {
    assert (inputs + [input])[..|inputs|] == inputs;
  }

  lemma RunOfTwo(a: Input, b: Input, config: Config)
    ensures Run(EMPTY, [a, b], config) == StepSpec(StepSpec(EMPTY, a, config), b, config)
  {
    RunOneMore([], a, config);
    RunOneMore([a], b, config);
    assert [] + [a] == [a] && [a] + [b] == [a, b];
  }

  /** The first data of the peer, in order. */
  function FirstData(key: Key, seq': Word, cookie: Word, payload: Bytes, data: Bytes, now: Time): Input
  {
    var s := Segment(Wrap(seq' + 1), Wrap(Wrap(cookie + 1) + |payload|), data);
    Packet(key, false, false, false, true, s, cookie, None, now)
  }

  /** The table after a greeting and data that decides nothing. */
  lemma AfterFirstData(key: Key, seq': Word, cookie: Word, payload: Bytes, data: Bytes, now: Time, config: Config)
    requires data != [] && ParseSpec(data, config.json).Incomplete?
    ensures var v1 := StepSpec(EMPTY, Greeting(key, seq', cookie, payload, now), config);
      var v := StepSpec(v1, FirstData(key, seq', cookie, payload, data, now), config);
      var c := Connection(data, Wrap(Wrap(seq' + 1) + |data|), Wrap(Wrap(cookie + 1) + |payload|), map[]);
      var soon, late := now + config.timeout, now + config.timeout + config.timeout;
      && v.connections == map[key := Tracked(c, late)] && v.queue == [Expiry(soon, key), Expiry(late, key)]
      && v.scanlings == [] && v.reports == []
  {
    var v1 := StepSpec(EMPTY, Greeting(key, seq', cookie, payload, now), config);
    var t := Greeted(seq', Wrap(cookie + 1), |payload|, now + config.timeout);
    assert v1.connections == map[key := t] && v1.queue == [Expiry(now + config.timeout, key)];
    var s := FirstData(key, seq', cookie, payload, data, now).segment;
    assert InOrder(t.conn, s);
    assert Received(t.conn, s, config.limits) == Connection(data, Wrap(Wrap(seq' + 1) + |data|), t.conn.nextAck, map[]) by {
      assert [] + data == data;
    }
  }

  /**
   The time promised for incomplete data is not given. In the run of a greeting, any data that decides nothing, and a
   tick one timeout after the greeting, the connection is removed although it was promised twice that time.
   */
  lemma PromiseIsNotKept(key: Key, seq': Word, cookie: Word, payload: Bytes, data: Bytes, now: Time, config: Config)
    requires data != [] && ParseSpec(data, config.json).Incomplete? && config.timeout > 0
    ensures var inputs := [Greeting(key, seq', cookie, payload, now), FirstData(key, seq', cookie, payload, data, now)];
      var v := Run(EMPTY, inputs, config);
      var due := now + config.timeout;
      && key in v.connections && v.connections[key].expiresAt > due
      && key !in Run(EMPTY, inputs + [Tick(due)], config).connections
  {
    var a, b := Greeting(key, seq', cookie, payload, now), FirstData(key, seq', cookie, payload, data, now);
    var due := now + config.timeout;
    AfterFirstData(key, seq', cookie, payload, data, now, config);
    RunOfTwo(a, b, config);
    var v := Run(EMPTY, [a, b], config);
    RunOneMore([a, b], Tick(due), config);
    TickRemovesFirst(v, due, key);
  }

  lemma TickRemovesFirst(v: Desk, now: Time, key: Key)
    requires v.queue != [] && v.queue[0].key == key && key in v.connections && v.queue[0].at <= now
    ensures key !in TickSpec(v, now).connections
  {
    assert Reaches(v.queue, v.connections, now, key, 0);
    ExpiredIff(v.queue, v.connections, now, key);
    GoneIsGone(v.queue, v.connections, now, key);
  }

  lemma {:induction false} GoneIsGone<T>(queue: seq<Expiry>, table: map<Key, T>, now: Time, key: Key)
    ensures var r := ExpireSpec(queue, table, now); r.table.Keys <= table.Keys && (key in r.gone ==> key !in r.table)
  {
    if queue != [] && (queue[0].key !in table || queue[0].at <= now) {
      GoneIsGone(queue[1..], if queue[0].key in table then table - {queue[0].key} else table, now, key);
    }
  }
}
