/**
 The responder as the program runs it: a table updated in place, an expiry deque with one entry set
 aside, and a handler per kind of packet. Every handler is proved against its function of the state.
 */
module Responder {
  import opened Wrappers
  import opened Minecraft
  import opened Modular
  import opened Reassembly
  import opened ResponderSpec

  class Responder {
    const config: Config
    var connections: map<Key, Tracked>
    var expiries: seq<Expiry>
    var pendingExpiry: Option<Expiry>
    var scanlings: seq<Scanling>
    var reports: seq<Report>
    var hits: seq<nat>
    var sent: seq<Reply>
    ghost var history: History

    constructor (config: Config)
      ensures View() == EMPTY && this.config == config
    {
      this.config := config;
      connections, expiries, pendingExpiry := map[], [], None;
      scanlings, reports, hits, sent := [], [], [], [];
      history := EMPTY.history;
    }

    /** The entry set aside stands before the rest of the queue. */
    ghost function View(): (v: Desk)
      reads this
    {
      Desk(connections, Queue(pendingExpiry, expiries), scanlings, reports, hits, sent, history)
    }

    method Record(key: Key, banner: Option<Bytes>)
      modifies this`reports
      ensures reports == old(reports) + [Report(key, banner)]
    {
      reports := reports + [Report(key, banner)];
    }

    method Send(reply: Reply)
      modifies this`sent
      ensures sent == old(sent) + [reply]
    {
      sent := sent + [reply];
    }

    method ProcessRst(key: Key)
      modifies this
      ensures View() == RstSpec(old(View()), key)
    {
      Record(key, None);
      if key in connections {
        history := Left(history, multiset{key});
      }
      connections := connections - {key};
      assert key !in old(connections) ==> connections == old(connections);
    }

    method ProcessSynAck(key: Key, seq': Word, ack: Word, cookie: Word, payload: Option<Bytes>, now: Time)
      modifies this
      ensures View() == SynAckSpec(old(View()), key, seq', ack, cookie, payload, now + config.timeout)
    {
      if ack != Wrap(cookie + 1) {
        Record(key, None);
        return;
      }
      if payload.None? {
        Send(Rst(key, ack, seq'));
        Record(key, None);
        return;
      }
      var expected := Wrap(seq' + 1);
      Send(Push(key, ack, expected, payload.value));
      var expiresAt := now + config.timeout;
      expiries := expiries + [Expiry(expiresAt, key)];
      QueueMore(pendingExpiry, old(expiries), Expiry(expiresAt, key));
      history := Opened(history, key, key in connections);
      var c := Connection([], expected, Wrap(ack + |payload.value|), map[]);
      connections := connections[key := Tracked(c, expiresAt)];
    }

    /** Takes the connection out of the table and acts on the verdict. */
    method Conclude(key: Key, verdict: Verdict)
      requires key in connections
      modifies this
      ensures View() == Judged(old(View()), key, verdict)
    {
      connections := connections - {key};
      history := Left(history, multiset{key});
      if verdict.Ok? {
        hits := hits + [key.ip];
        Record(key, Some(verdict.body));
        scanlings := scanlings + [Scanling(key, verdict.body)];
      } else {
        Record(key, None);
      }
    }

    method ProcessAck(key: Key, s: Segment)
      modifies this
      ensures View() == AckSpec(old(View()), key, s, config)
    {
      if key !in connections {
        Record(key, None);
        Send(Rst(key, s.ack, Wrap(s.seq' + |s.payload|)));
        return;
      }
      var was := connections[key];
      if s.ack != was.conn.nextAck {
        return;
      }
      var d := Receive(was.conn, s, config.limits);
      if s.seq' != was.conn.nextSeq {
        connections := connections[key := was.(conn := d)];
        Send(Ack(key, was.conn.nextAck, was.conn.nextSeq));
        return;
      }
      if s.payload == [] {
        return;
      }
      var verdict := Parse(d.data, config.json);
      if verdict.Incomplete? {
        var later := was.expiresAt + config.timeout;
        connections := connections[key := Tracked(d, later)];
        expiries := expiries + [Expiry(later, key)];
        QueueMore(pendingExpiry, old(expiries), Expiry(later, key));
        Send(Ack(key, d.nextAck, d.nextSeq));
      } else {
        Send(Rst(key, d.nextAck, d.nextSeq));
        assert View() == Replied(old(View()), Rst(key, d.nextAck, d.nextSeq));
        Conclude(key, verdict);
      }
    }

    method ProcessFin(key: Key, s: Segment)
      modifies this
      ensures View() == FinSpec(old(View()), key, s, config)
    {
      Send(Rst(key, s.ack, Wrap(s.seq' + 1 + |s.payload|)));
      assert View() == Replied(old(View()), Rst(key, s.ack, Wrap(s.seq' + 1 + |s.payload|)));
      if key !in connections {
        Record(key, None);
        return;
      }
      if s.payload == [] {
        Conclude(key, Incomplete);
        return;
      }
      var verdict := Parse(connections[key].conn.data + s.payload, config.json);
      Conclude(key, verdict);
    }

    method ProcessPacket(p: Input)
      requires p.Packet?
      modifies this
      ensures View() == StepSpec(old(View()), p, config)
    {
      if p.rst {
        ProcessRst(p.key);
      } else if p.fin {
        ProcessFin(p.key, p.segment);
      } else if p.syn && p.ackFlag {
        ProcessSynAck(p.key, p.segment.seq', p.segment.ack, p.cookie, p.payload, p.now);
      } else if p.ackFlag {
        ProcessAck(p.key, p.segment);
      }
    }

    /** The next entry: the one set aside, or the front of the deque. */
    method NextEntry() returns (e: Option<Expiry>)
      modifies this
      ensures e.None? ==> old(View()).queue == [] && View() == old(View())
      ensures e.Some? ==> old(View()).queue == [e.value] + View().queue && pendingExpiry.None?
                          && View() == old(View()).(queue := View().queue)
    {
      e := pendingExpiry;
      pendingExpiry := None;
      if e.None? && expiries != [] {
        e := Some(expiries[0]);
        expiries := expiries[1..];
      }
    }

    /** The loop at the end of a tick: it stops at the first live entry that is not due, and sets it aside. */
    method Expire(now: Time)
      modifies this
      ensures View() == TickSpec(old(View()), now)
    {
      while true
        invariant TickSpec(View(), now) == TickSpec(old(View()), now)
        decreases |View().queue|
      {
        ghost var before := View();
        var e := NextEntry();
        if e.None? {
          assert TickSpec(before, now) == before by { NothingToExpire(before, now); }
          break;
        }
        if e.value.key in connections {
          if e.value.at > now {
            pendingExpiry := e;
            assert View() == before;
            NothingToExpire(before, now);
            break;
          }
          Conclude(e.value.key, Incomplete);
        }
        assert View() == FirstDealtWith(before);
        FirstThenRest(before, now);
      }
    }
  }
}
