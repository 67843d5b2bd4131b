/**
 Three runs of the time daemon of packages/qcom-time-daemon/src/qcom-time-daemon.c, put together from the daemon's own
 steps in the order in which its code takes them: one in which two waiting transactions get the same id, one in which
 the uptime log ends with the daemon unsynchronised, and one whose two readings are taken apart.
 */
module TimeDaemonRuns {
  import opened Words
  import opened AtsRecordText
  import opened AtsClock
  import opened AtsStore
  import opened TimeDaemon

  const NODE: u32 := 1
  const PORT: u32 := 7

  const ANNOUNCEMENT := NewServer(QMI_TIME_SERVICE_ID, NODE, PORT)

  function Announcements(k: nat): (inbox: seq<Arrival>)
    ensures |inbox| == k && forall i :: 0 <= i < k ==> inbox[i] == Arrival(0, Pkt(ANNOUNCEMENT))
  {
    if k == 0 then [] else [Arrival(0, Pkt(ANNOUNCEMENT))] + Announcements(k - 1)
  }

  lemma {:induction false} AnnouncementsAreOrderly(live: Option<Address>, k: nat)
    requires live == None || live == Some((NODE, PORT))
    ensures Orderly(live, Announcements(k)) && Announced(Packets(Announcements(k))) == k
    decreases k
  {
    if k > 0 {
      assert Announcements(k)[1..] == Announcements(k - 1);
      AnnouncementsAreOrderly(Some((NODE, PORT)), k - 1);
      assert Packets(Announcements(k)) == [ANNOUNCEMENT] + Packets(Announcements(k - 1));
      assert Packets(Announcements(k))[1..] == Packets(Announcements(k - 1));
    }
  }

  /** A transaction without a reply: the request cannot be sent, or nobody answers. */
  method Unanswered(d: Daemon, request: RequestMsg)
    requires d.Valid() && d.Room(1)
    modifies d
    ensures d.Valid() && d.inbox == old(d.inbox) && d.trace.txnCount == old(d.trace.txnCount) + 1 && d.Link() == old(d.Link())
    ensures d.trace.pending == old(d.trace.pending) && (d.trace.pending != [] ==> d.trace.ahead == old(d.trace.ahead))
    ensures d.trace.log == old(d.trace.log) && d.trace.answered == old(d.trace.answered) && d.trace.sent == old(d.trace.sent)
    ensures d.trace.honest == old(d.trace.honest) && d.now == old(d.now)
  {
    hide TraceOk, Extends, Store.Valid, Store.Saved, Store.Live, Announced, Packets, RoomIn;
    var _ := d.Begin(d.modemNode, d.modemPort, request);
    ExtendsItself(d.setup, d.trace);
    d.Finish(d.trace);
  }

  /** The two queries of a handshake, without a reply. */
  method UnansweredQueries(d: Daemon)
    requires d.Valid() && d.Room(3)
    modifies d
    ensures d.Valid() && d.Room(1) && d.inbox == old(d.inbox) && d.trace.txnCount == old(d.trace.txnCount) + 2
    ensures d.Link() == old(d.Link())
    ensures d.trace.pending == old(d.trace.pending) && (d.trace.pending != [] ==> d.trace.ahead == old(d.trace.ahead))
    ensures d.trace.log == old(d.trace.log) && d.trace.answered == old(d.trace.answered) && d.trace.sent == old(d.trace.sent)
    ensures d.trace.honest == old(d.trace.honest) && d.now == old(d.now)
  {
    hide TraceOk, Extends, Store.Valid, Store.Saved, Store.Live, Announced, Packets;
    Unanswered(d, GetOffset(ATS_TOD));
    Unanswered(d, GetOffset(ATS_RTC));
  }

  /** A server is announced while a transaction waits, and the requests of its handshake stay unanswered. */
  method FailingHandshake(d: Daemon, last: bool)
    requires d.Valid() && d.Unclaimed() && d.inbox[0].input == Pkt(ANNOUNCEMENT) && d.trace.pending != []
    modifies d
    ensures d.Valid() && d.inbox == old(d.inbox)[1..] && d.trace.txnCount == old(d.trace.txnCount) + 3
    ensures d.trace.pending == old(d.trace.pending)
              + if last then [Pending(old(d.trace.txnCount) + 2, NODE, PORT, GENOFF_SET)] else []
    ensures d.trace.ahead == old(d.trace.ahead) && d.Link() == Some((NODE, PORT))
    ensures d.trace.log == old(d.trace.log) + [old(d.Passed())] && old(d.Passed()).packet == ANNOUNCEMENT
    ensures d.trace.answered == old(d.trace.answered) && d.trace.honest == old(d.trace.honest) && d.now == old(d.now)
  {
    hide TraceOk, Extends, Store.Valid, Store.Saved, Store.Live, Announced, Packets, RoomIn;
    d.Connect();
    UnansweredQueries(d);
    if last {
      var _ := d.Begin(d.modemNode, d.modemPort, SetOffset(ATS_USER, 0));
    } else {
      Unanswered(d, SetOffset(ATS_USER, 0));
      assert d.trace.pending == old(d.trace.pending) + [];
    }
  }

  method NewDaemon(inbox: seq<Arrival>, start: nat, ghost orderly: bool) returns (d: Daemon)
    requires orderly ==> Orderly(None, inbox)
    ensures fresh(d) && fresh(d.store) && d.Valid() && d.setup.orderly == orderly && d.inbox == inbox && d.store.Saved() == None
    ensures d.trace.log == [] && d.trace.txnCount == 0 && d.trace.pending == [] && d.trace.answered == {} && d.trace.sent == []
    ensures d.trace.honest && d.now == start
  {
    var store := new Store(false, 0, None);
    d := new Daemon(store, inbox, 0, 0, false, start, orderly, false, [], Reading(0, 0), map[]);
  }

  /** The SET request of the first handshake waits. */
  method FirstSet() returns (d: Daemon)
    ensures fresh(d) && fresh(d.store) && d.Valid() && d.setup.orderly && d.inbox == Announcements(ENOUGH)
    ensures d.trace.txnCount == 3 && d.trace.ahead == ENOUGH && d.trace.pending == [Pending(2, NODE, PORT, GENOFF_SET)]
  {
    hide TraceOk, Extends, Store.Valid, Store.Saved, Store.Live, Announced, Packets, Orderly;
    AnnouncementsAreOrderly(None, ENOUGH + 1);
    d := NewDaemon(Announcements(ENOUGH + 1), 0, true);
    d.Connect();
    UnansweredQueries(d);
    AnnouncementsAreOrderly(None, ENOUGH);
    assert d.inbox == Announcements(ENOUGH);
    var _ := d.Begin(d.modemNode, d.modemPort, SetOffset(ATS_USER, 0));
  }

  /**
   One announcement more than the bound allows: while the SET request of the first handshake waits, 21845 further
   announcements are taken, and the SET request of the last one gets its id.  A reply to either answers both.
   */
  method IdsCollide() returns (d: Daemon)
    ensures fresh(d) && d.Valid() && d.setup.orderly
    ensures |d.trace.pending| == 2 && d.trace.ahead - Announced(Packets(d.inbox)) == ENOUGH
    ensures forall p :: Answers(p, d.trace.pending[0]) <==> Answers(p, d.trace.pending[1])
  {
    hide TraceOk, Extends, Store.Valid, Store.Saved, Store.Live, Announced, Packets, Orderly;
    d := FirstSet();
    for k := 0 to ENOUGH
      invariant fresh(d) && fresh(d.store) && d.Valid() && d.setup.orderly && d.inbox == Announcements(ENOUGH - k)
      invariant d.trace.txnCount == 3 + 3 * k && d.trace.ahead == ENOUGH
      invariant d.trace.pending == [Pending(2, NODE, PORT, GENOFF_SET)]
                                   + if k < ENOUGH then [] else [Pending(3 * k + 2, NODE, PORT, GENOFF_SET)]
    {
      FailingHandshake(d, k == ENOUGH - 1);
      assert d.inbox == Announcements(ENOUGH - (k + 1));
    }
    AnnouncementsAreOrderly(None, 0);
    TxnIdsDiffer(2, 3 * ENOUGH + 2);
  }

  // ----- the server leaves while the uptime is logged -----

  lemma NotAnswered(p: Packet, t: Pending)
    requires p.DelServer?
    ensures !Answers(p, t)
  {
  }

  /**
   The first reading of `log_modem_uptime`, taken by a synchronised daemon whose server is withdrawn before it answers:
   synchronisation is revoked, although asking was all it meant to do.
   */
  method UptimeLogDisconnects(d: Daemon)
    requires d.Valid() && d.Settled() && d.state.Synchronized? && d.connected && d.trace.pending == []
    requires d.inbox != [] && d.inbox[0].input == Pkt(DelServer(d.modemNode, d.modemPort))
    modifies d, d.store
    ensures d.Valid() && d.Settled() && d.trace.pending == [] && d.state == Discovering && !d.connected && !d.marker
    ensures |d.trace.log| > |old(d.trace.log)| && d.trace.log[|old(d.trace.log)|].packet == old(d.inbox[0].input.packet)
  {
    hide TraceOk, Extends, HeadOk, Calm, Answers, LiveAfter, LastAfter, TxnId, Since, Daemon.Cost, Daemon.Now, Store.Valid, Store.Saved,
      Store.Live, Announced, Packets;
    var _ := d.Begin(d.modemNode, d.modemPort, GetOffset(ATS_RTC));
    NotAnswered(d.inbox[0].input.packet, d.Innermost());
    d.now := Max(d.now, d.inbox[0].at);
    d.Handle();
    ExtendsItself(d.setup, d.trace);
    d.Finish(d.trace);
  }

  // ----- two readings taken apart -----

  function Reading0021(txn: nat, base: nat, value: u64, taken: int): Packet {
    Data(NODE, PORT, Some(Qmi(Response, txn, GENOFF_GET, true, true, base, value, 0, taken)))
  }

  /** TOD read at 1010 ms, the server announced again, RTC read at 1210 ms. */
  const TOD_REPLY := Reading0021(1, ATS_TOD, 1000000, 1010)
  const RTC_REPLY := Reading0021(2, ATS_RTC, 5200, 1210)
  const SCRIPT := [Arrival(1000, Pkt(ANNOUNCEMENT)), Arrival(1010, Pkt(TOD_REPLY)), Arrival(1020, Pkt(ANNOUNCEMENT)),
                   Arrival(1210, Pkt(RTC_REPLY))]

  lemma OrderlyBehind(live: Option<Address>, a: Arrival, rest: seq<Arrival>)
    requires a.input.Pkt? && AllowedWhen(live, a.input.packet) && Orderly(LiveAfter(live, a.input.packet), rest)
    ensures Orderly(live, [a] + rest)
  {
    assert ([a] + rest)[1..] == rest;
  }

  lemma ScriptIsOrderly()
    ensures Orderly(None, SCRIPT)
  {
    var live: Option<Address> := Some((NODE, PORT));
    hide Orderly;
    OrderlyNothing(live);
    OrderlyBehind(live, SCRIPT[3], []);
    OrderlyBehind(live, SCRIPT[2], [SCRIPT[3]] + []);
    OrderlyBehind(live, SCRIPT[1], [SCRIPT[2]] + ([SCRIPT[3]] + []));
    OrderlyBehind(None, SCRIPT[0], [SCRIPT[1]] + ([SCRIPT[2]] + ([SCRIPT[3]] + [])));
    assert SCRIPT == [SCRIPT[0]] + ([SCRIPT[1]] + ([SCRIPT[2]] + ([SCRIPT[3]] + [])));
  }

  lemma OrderlyNothing(live: Option<Address>)
    ensures Orderly(live, [])
  {
  }

  lemma FewerBegun(s: Setup, t: Trace, n: nat)
    requires n <= t.txnCount
    ensures Extends(s, t.(txnCount := n), t)
  {
  }

  /** The innermost transaction, whose request went out at asked, takes the reading at the head of the socket and ends. */
  method Answered(d: Daemon, ghost base: int, ghost asked: int) returns (r: TxnResult)
    requires d.Valid() && d.inbox != [] && d.inbox[0].input.Pkt? && d.trace.pending != []
    requires var me := d.Innermost();
             && Answers(d.inbox[0].input.packet, me) && me.number < d.trace.txnCount && me.number !in d.trace.answered
             && d.inbox[0].input.packet.qmi.value.decodes
    modifies d
    ensures d.Valid() && d.inbox == old(d.inbox)[1..] && d.trace.pending == old(d.trace.pending)[..|old(d.trace.pending)| - 1]
    ensures r == Reply(old(d.inbox[0].input.packet.qmi.value)) && d.trace.txnCount == old(d.trace.txnCount) && d.Link() == old(d.Link())
    ensures d.trace.answered == old(d.trace.answered) + {old(d.Innermost()).number}
    ensures d.trace.log == old(d.trace.log) + [old(d.Taken())]
    ensures d.store.Saved() == old(d.store.Saved()) && d.now == Max(old(d.now), old(d.inbox)[0].at)
    ensures d.trace.honest == (old(d.trace.honest) && KeepsToRequest(r.qmi, base, asked, d.now))
  {
    hide TraceOk, Extends, Store.Valid, Store.Saved, Store.Live, Announced, Packets, Outcome, KeepsToRequest;
    d.now := Max(d.now, d.inbox[0].at);
    ghost var me := d.Innermost();
    ghost var start := d.trace.(txnCount := me.number);
    FewerBegun(d.setup, d.trace, me.number);
    r := d.Accept(base, asked, start);
    d.Finish(start);
  }

  ghost predicate IsHandled(d: Disposition, p: Packet, waiting: seq<Pending>) {
    d.Handled? && d.packet == p && d.waiting == waiting
  }

  ghost predicate IsAccepted(d: Disposition, p: Packet, waiting: seq<Pending>) {
    d.Accepted? && d.packet == p && Waiting(d) == waiting
  }

  /** TOD is read, a second announcement is dealt with while the request for RTC waits, and RTC is read. */
  ghost predicate ReadsApart(log: seq<Disposition>) {
    && |log| == 4
    && IsHandled(log[0], ANNOUNCEMENT, [])
    && IsAccepted(log[1], TOD_REPLY, [Pending(0, NODE, PORT, GENOFF_GET)])
    && IsHandled(log[2], ANNOUNCEMENT, [Pending(1, NODE, PORT, GENOFF_GET)])
    && IsAccepted(log[3], RTC_REPLY, [Pending(1, NODE, PORT, GENOFF_GET)])
  }

  /**
   An orderly run in which every reply keeps to its request.  The modem takes the second reading 200 ms after the first,
   with a handshake that comes to nothing in between; the offset sent is TOD less RTC, as the code computes it, and the
   modem's counter plus that offset lags 200 ms behind TOD for good.
   */
  method ReadingsApart() returns (d: Daemon, ghost x: Sent)
    ensures fresh(d) && d.Valid() && d.setup.orderly && d.trace.honest && ReadsApart(d.trace.log)
    ensures x in d.trace.sent && x.source == Network && x.at.wall == d.now == 1210
    ensures AlwaysAhead(x.rtc.value, x.at.rtc, x.offset, x.tod.value, x.at.tod, -200)
  {
    hide TraceOk, Extends, Store.Valid, Store.Saved, Store.Live, Announced, Packets, ReadsApart;
    var tod, rtc;
    d, tod, rtc := TwoReadings();
    x := Sent(Network, 994800, Some(tod.qmi.offset), ATS_TOD, Some(rtc.qmi.offset), 0, d.store.Saved(),
              Instants(tod.qmi.taken, rtc.qmi.taken, d.now));
    ExtendsItself(d.setup, d.trace);
    d.NoteSent(x, d.trace);
  }

  /** The handshake of the first announcement, up to its second reading. */
  method TwoReadings() returns (d: Daemon, tod: TxnResult, rtc: TxnResult)
    ensures fresh(d) && fresh(d.store) && d.Valid() && d.setup.orderly && d.store.Saved() == None
    ensures tod == Reply(TOD_REPLY.qmi.value) && rtc == Reply(RTC_REPLY.qmi.value)
    ensures d.trace.honest && d.now == 1210 && ReadsApart(d.trace.log)
  {
    hide TraceOk, Store.Valid, Store.Saved, FirstRead, Interrupted, ReadsApart;
    d, tod := FirstReading();
    Interruption(d);
    rtc := LastReading(d);
  }

  /** After TOD has been read. */
  ghost predicate FirstRead(d: Daemon)
    reads d, d.store
  {
    && d.Valid() && d.setup.orderly && d.store.Saved() == None && d.trace.honest && d.Link() == Some((NODE, PORT))
    && d.inbox == SCRIPT[2..] && d.trace.txnCount == 1 && d.trace.answered == {0} && d.now == 1010 && d.trace.pending == []
    && |d.trace.log| == 2 && IsHandled(d.trace.log[0], ANNOUNCEMENT, [])
    && IsAccepted(d.trace.log[1], TOD_REPLY, [Pending(0, NODE, PORT, GENOFF_GET)])
  }

  /** The request for RTC waits, and the second announcement has been dealt with. */
  ghost predicate Interrupted(d: Daemon)
    reads d, d.store
  {
    && d.Valid() && d.setup.orderly && d.store.Saved() == None && d.trace.honest && d.now == 1020
    && d.inbox == SCRIPT[3..] && d.trace.txnCount == 5 && d.trace.answered == {0}
    && d.trace.pending == [Pending(1, NODE, PORT, GENOFF_GET)]
    && |d.trace.log| == 3 && IsHandled(d.trace.log[0], ANNOUNCEMENT, [])
    && IsAccepted(d.trace.log[1], TOD_REPLY, [Pending(0, NODE, PORT, GENOFF_GET)])
    && IsHandled(d.trace.log[2], ANNOUNCEMENT, [Pending(1, NODE, PORT, GENOFF_GET)])
  }

  method Interruption(d: Daemon)
    requires FirstRead(d)
    modifies d
    ensures Interrupted(d)
  {
    hide TraceOk, Extends, Store.Valid, Store.Saved, Store.Live, Announced, Packets, Since, TOD_REPLY, RTC_REPLY;
    var _ := d.Begin(d.modemNode, d.modemPort, GetOffset(ATS_RTC));
    assert d.trace.pending == [Pending(1, NODE, PORT, GENOFF_GET)];
    d.now := Max(d.now, d.inbox[0].at);
    FailingHandshake(d, false);
    assert d.trace.pending == [Pending(1, NODE, PORT, GENOFF_GET)];
  }

  method LastReading(d: Daemon) returns (rtc: TxnResult)
    requires Interrupted(d)
    modifies d
    ensures d.Valid() && d.setup.orderly && d.store.Saved() == None && rtc == Reply(RTC_REPLY.qmi.value)
    ensures d.trace.honest && d.now == 1210 && ReadsApart(d.trace.log)
  {
    hide TraceOk, Extends, Store.Valid, Store.Saved, Store.Live, Announced, Packets, Since, TOD_REPLY;
    rtc := Answered(d, ATS_RTC, 1010);
  }

  method FirstReading() returns (d: Daemon, tod: TxnResult)
    ensures fresh(d) && fresh(d.store) && FirstRead(d) && tod == Reply(TOD_REPLY.qmi.value)
  {
    hide TraceOk, Extends, Store.Valid, Store.Saved, Store.Live, Announced, Packets, AcceptedBy, Since, Orderly;
    d := FirstRequest();
    tod := Answered(d, ATS_TOD, 1000);
  }

  method FirstRequest() returns (d: Daemon)
    ensures fresh(d) && fresh(d.store) && d.Valid() && d.setup.orderly && d.store.Saved() == None && d.trace.honest
    ensures d.inbox == SCRIPT[1..] && d.Link() == Some((NODE, PORT)) && d.trace.txnCount == 1 && d.trace.answered == {}
    ensures d.now == 1000 && d.trace.pending == [Pending(0, NODE, PORT, GENOFF_GET)]
    ensures |d.trace.log| == 1 && IsHandled(d.trace.log[0], ANNOUNCEMENT, [])
  {
    hide TraceOk, Extends, Store.Valid, Store.Saved, Store.Live, Announced, Packets, AcceptedBy, Since, Orderly, TOD_REPLY, RTC_REPLY;
    ScriptIsOrderly();
    d := NewDaemon(SCRIPT, 0, true);
    d.now := Max(d.now, d.inbox[0].at);
    d.Connect();
    var _ := d.Begin(d.modemNode, d.modemPort, GetOffset(ATS_TOD));
  }
}
