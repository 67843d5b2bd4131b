/**
 The event loop of packages/qcom-time-daemon/src/qcom-time-daemon.c: transactions that dispatch
 every packet they do not want to the handler, a handler that can start another handshake in the
 middle of one, the synchronisation marker, and the main loop around them.

 The socket is a finite script of timed arrivals.  Time is a millisecond clock that advances to
 the arrival taken or to the deadline waited for.  Results of sends, file operations and the wall
 clock are arbitrary.
 */
module TimeDaemon {
  import opened Words
  import opened AtsRecordText
  import opened AtsClock
  import opened AtsStore

  const QMI_TIME_SERVICE_ID := 22
  const GENOFF_SET := 0x0020
  const GENOFF_GET := 0x0021
  const ATS_RTC := 0
  const ATS_TOD := 1
  const HANDSHAKE_RETRY_INTERVAL_SEC := 5
  const QUERY_TIMEOUT_MS := 3000
  const SYNC_TIMEOUT_MS := 5000

  datatype QmiType = Request | Response | Indication | Unassigned

  /**
   A QMI message as received.  decodes, success, base and offset are what decoding its body gives;
   boot numbers the modem boot that produced it, and taken is the instant at which the modem took the value, in
   milliseconds of the AP's clock; both are known to the environment only.
   */
  datatype Qmi = Qmi(kind: QmiType, txn: nat, msg: nat, decodes: bool, success: bool, base: nat, offset: u64, boot: nat, taken: int)

  /** A decoded QRTR packet; a data packet shorter than a QMI header carries no message. */
  datatype Packet =
    | NewServer(service: nat, node: u32, port: u32)
    | DelServer(node: u32, port: u32)
    | Data(node: u32, port: u32, qmi: Option<Qmi>)
    | Control

  datatype Input =
    | Pkt(packet: Packet)
    | Undecodable          // nothing received, or qrtr_decode failed
    | Interrupted          // poll returned EINTR
    | Terminate            // a signal cleared `running` and interrupted poll
    | PollError

  datatype Arrival = Arrival(at: nat, input: Input)

  datatype DaemonState = Discovering | RegisteringInd | Syncing | Synchronized | Failed

  datatype RequestMsg = GetOffset(base: int) | SetOffset(base: int, offset: u64)

  function MessageId(request: RequestMsg): nat {
    if request.GetOffset? then GENOFF_GET else GENOFF_SET
  }

  datatype TxnResult = NoReply | Reply(qmi: Qmi)

  // ----- the environment -----

  type Address = (u32, u32)

  /** The server the modem has announced and not withdrawn. */
  function LiveAfter(live: Option<Address>, p: Packet): Option<Address> {
    match p
    case NewServer(service, node, port) => if service == QMI_TIME_SERVICE_ID then Some((node, port)) else live
    case DelServer(node, port) => if live == Some((node, port)) then None else live
    case _ => live
  }

  /** One TIME server at a time, on a nonzero port, and no reply from any other port. */
  predicate AllowedWhen(live: Option<Address>, p: Packet) {
    match p
    case NewServer(service, node, port) =>
      service == QMI_TIME_SERVICE_ID ==> port != 0 && (live == None || live == Some((node, port)))
    case Data(node, port, qmi) => qmi.Some? && qmi.value.kind.Response? ==> live == Some((node, port))
    case _ => true
  }

  predicate Orderly(live: Option<Address>, inbox: seq<Arrival>)
    decreases |inbox|
  {
    if inbox == [] then true
    else if inbox[0].input.Pkt? then
      AllowedWhen(live, inbox[0].input.packet) && Orderly(LiveAfter(live, inbox[0].input.packet), inbox[1..])
    else Orderly(live, inbox[1..])
  }

  /** Does the packet carry a successful reading of the modem's uptime counter? */
  predicate IsRtcReading(p: Packet) {
    && p.Data? && p.qmi.Some? && p.qmi.value.kind.Response? && p.qmi.value.msg == GENOFF_GET
    && p.qmi.value.decodes && p.qmi.value.success && p.qmi.value.base == ATS_RTC
  }

  function LastAfter(last: Reading, p: Packet): Reading {
    if IsRtcReading(p) then Reading(p.qmi.value.boot, p.qmi.value.offset) else last
  }

  /** Readings arrive in the order they were taken, and the counter only grows within a modem boot. */
  predicate Steady(last: Reading, inbox: seq<Arrival>)
    decreases |inbox|
  {
    if inbox == [] then true
    else if inbox[0].input.Pkt? then
      && NotAfter(last, LastAfter(last, inbox[0].input.packet))
      && Steady(LastAfter(last, inbox[0].input.packet), inbox[1..])
    else Steady(last, inbox[1..])
  }

  predicate IsAnnouncement(p: Packet) {
    p.NewServer? && p.service == QMI_TIME_SERVICE_ID
  }

  function Announced(packets: seq<Packet>): nat {
    if packets == [] then 0 else (if IsAnnouncement(packets[0]) then 1 else 0) + Announced(packets[1..])
  }

  lemma {:induction false} AnnouncedConcat(a: seq<Packet>, b: seq<Packet>)
    ensures Announced(a + b) == Announced(a) + Announced(b)
  {
    if a == [] {
      assert a + b == b;
    } else {
      assert (a + b)[1..] == a[1..] + b;
      AnnouncedConcat(a[1..], b);
    }
  }

  function Packets(inbox: seq<Arrival>): seq<Packet> {
    if inbox == [] then []
    else if inbox[0].input.Pkt? then [inbox[0].input.packet] + Packets(inbox[1..])
    else Packets(inbox[1..])
  }

  // ----- what is recorded about a run -----

  /** A transaction waiting for its reply; number counts the transactions of the run from 0. */
  datatype Pending = Pending(number: nat, node: u32, port: u32, msg: nat)

  /**
   What became of a packet taken off the socket, which transactions were waiting then, the outermost first, and how many
   announcements had been taken since the outermost began.
   */
  datatype Disposition =
    | Accepted(packet: Packet, taker: Pending, others: seq<Pending>, since: nat)
    | Handled(packet: Packet, waiting: seq<Pending>, since: nat)

  function Waiting(d: Disposition): seq<Pending> {
    if d.Accepted? then d.others + [d.taker] else d.waiting
  }

  /**
   An offset put on the wire, with what it was derived from and when that was read; todBase is the base the TOD value
   was a reading of.
   */
  datatype Sent = Sent(source: Source, offset: u64, tod: Option<u64>, todBase: int, rtc: Option<u64>, wall: u64,
                       saved: Option<Record>, at: Instants)

  datatype BootReport = BootReport(verdict: Verdict, before: Reading, current: Reading)

  /** The daemon as seen at the head of its main loop. */
  datatype Head = Head(state: DaemonState, marker: bool, connected: bool, port: u32, fails: int, stray: bool, markerFault: bool)

  /** What the daemon has decided so far: everything but its clock, its socket and its transactions. */
  datatype View = View(base: Base, marker: bool, verdictLogged: bool, saved: Option<Record>, versions: set<Record>,
                       sent: seq<Sent>, reports: seq<BootReport>, reading: Reading)

  /** The part of it that a handshake or a refresh does not touch by itself, the state and the timers of a handshake excepted. */
  datatype Base = Base(state: DaemonState, node: u32, port: u32, connected: bool, fails: nat,
                       lastHandshake: u64, lastUserRefresh: u64, lastKeepalive: u64, lastLookup: u64)

  /** No TIME server was announced and the one in use was not withdrawn. */
  predicate Quiet(log: seq<Disposition>, node: u32, port: u32) {
    forall i :: 0 <= i < |log| ==> !IsAnnouncement(log[i].packet) && log[i].packet != DelServer(node, port)
  }

  /** From a to b nothing has been decided, unless the packets taken meanwhile, from the n-th on, disturbed the daemon. */
  ghost predicate Calm(a: View, b: View, log: seq<Disposition>, n: nat) {
    n <= |log| && (Quiet(log[n..], a.base.node, a.base.port) ==> b == a)
  }

  lemma CalmThen(a: View, b: View, c: View, log: seq<Disposition>, later: seq<Disposition>, n: nat)
    requires Calm(a, b, log, n) && Calm(b, c, later, |log|) && log <= later
    ensures Calm(a, c, later, n)
  {
    if Quiet(later[n..], a.base.node, a.base.port) {
      assert forall i :: 0 <= i < |log[n..]| ==> log[n..][i] == later[n..][i];
      assert forall i :: 0 <= i < |later[|log|..]| ==> later[|log|..][i] == later[n..][i + (|log| - n)];
    }
  }

  lemma CalmLonger(a: View, b: View, log: seq<Disposition>, d: Disposition, n: nat)
    requires Calm(a, b, log, n)
    ensures Calm(a, b, log + [d], n)
  {
    if Quiet((log + [d])[n..], a.base.node, a.base.port) {
      assert forall i :: 0 <= i < |log[n..]| ==> log[n..][i] == (log + [d])[n..][i];
    }
  }

  lemma CalmItself(a: View, log: seq<Disposition>, n: nat)
    requires n <= |log|
    ensures Calm(a, a, log, n)
  {
  }

  lemma DisturbedAt(a: View, b: View, log: seq<Disposition>, n: nat)
    requires n < |log| && (IsAnnouncement(log[n].packet) || log[n].packet == DelServer(a.base.node, a.base.port))
    ensures Calm(a, b, log, n)
  {
    assert log[n..][0] == log[n];
  }

  function TxnId(number: nat): (id: nat)
    ensures 1 <= id <= 0xffff
  {
    1 + number % 0xffff
  }

  /** Identifiers repeat exactly at distances that are multiples of 65535. */
  lemma TxnIdsDiffer(a: nat, b: nat)
    requires a <= b
    ensures TxnId(a) == TxnId(b) <==> (b - a) % 0xffff == 0
    ensures 0 < b - a < 0xffff ==> TxnId(a) != TxnId(b)
  {
    var n := 0xffff;
    assert b == n * (b / n) + b % n && a == n * (a / n) + a % n;
    if a % n == b % n {
      assert b - a == n * (b / n - a / n);
    }
    if (b - a) % n == 0 {
      assert b - a == n * ((b - a) / n);
      assert b == n * (a / n + (b - a) / n) + a % n;
    }
  }

  /** A reading of the base asked for, taken meanwhile; one of the uptime counter is the latest there is. */
  ghost predicate IsReadingOf(q: Qmi, base: int, last: Reading, from: int, to: int) {
    q.base == base && from <= q.taken <= to && (base == ATS_RTC ==> last == Reading(q.boot, q.offset))
  }

  /** The reply keeps to what was asked: a reading is of that base, and was taken meanwhile. */
  predicate KeepsToRequest(q: Qmi, base: int, from: int, to: int) {
    q.decodes && q.msg == GENOFF_GET && q.success ==> q.base == base && from <= q.taken <= to
  }

  /** A response from this port with this transaction and message id. */
  predicate AnswersTo(p: Packet, node: u32, port: u32, txn: nat, msg: nat) {
    && p.Data? && p.node == node && p.port == port && p.qmi.Some?
    && p.qmi.value.kind.Response? && p.qmi.value.txn == txn && p.qmi.value.msg == msg
  }

  predicate Answers(p: Packet, t: Pending) {
    AnswersTo(p, t.node, t.port, TxnId(t.number), t.msg)
  }

  /** A response that decodes, with the message and the identifier of the request. */
  predicate IsReply(q: Qmi, me: Pending) {
    q.kind == Response && q.decodes && q.msg == me.msg && q.txn == 1 + me.number % 65535
  }

  /** A transaction's result is the reply it took last; without one it took none, or one that did not decode. */
  ghost predicate Outcome(log: seq<Disposition>, answered: set<nat>, me: Pending, r: TxnResult) {
    if r.Reply? then log != [] && TookAs(log[|log| - 1], me) && log[|log| - 1].packet.qmi == Some(r.qmi) && IsReply(r.qmi, me)
    else me.number !in answered || (log != [] && TookAs(log[|log| - 1], me) && !log[|log| - 1].packet.qmi.value.decodes)
  }

  /** The same, once other packets have been taken. */
  ghost predicate ResultOf(log: seq<Disposition>, answered: set<nat>, me: Pending, r: TxnResult) {
    if r.Reply? then
      IsReply(r.qmi, me) && exists k :: 0 <= k < |log| && TookAs(log[k], me) && log[k].packet.qmi == Some(r.qmi)
    else
      me.number in answered ==> exists k :: 0 <= k < |log| && TookAs(log[k], me) && !log[k].packet.qmi.value.decodes
  }

  lemma OutcomeIsResult(log: seq<Disposition>, answered: set<nat>, me: Pending, r: TxnResult)
    requires Outcome(log, answered, me, r)
    ensures ResultOf(log, answered, me, r)
  {
  }

  lemma ResultStays(s: Setup, a: Trace, b: Trace, me: Pending, r: TxnResult)
    requires ResultOf(a.log, a.answered, me, r) && Extends(s, a, b) && me.number < a.txnCount
    ensures ResultOf(b.log, b.answered, me, r)
  {
    hide NotAfter;
    if r.Reply? {
      var k :| 0 <= k < |a.log| && TookAs(a.log[k], me) && a.log[k].packet.qmi == Some(r.qmi);
      assert b.log[k] == a.log[k];
    } else if me.number in b.answered {
      assert me.number in a.answered;
      var k :| 0 <= k < |a.log| && TookAs(a.log[k], me) && !a.log[k].packet.qmi.value.decodes;
      assert b.log[k] == a.log[k];
    }
  }

  lemma NoOutcome(log: seq<Disposition>, answered: set<nat>, me: Pending)
    ensures me.number !in answered ==> Outcome(log, answered, me, NoReply)
  {
  }

  predicate TookAs(d: Disposition, me: Pending) {
    d.Accepted? && d.taker == me && d.packet.Data? && d.packet.qmi.Some?
  }

  /** The reply taken last is the modem's consent to a SET request. */
  ghost predicate Consented(log: seq<Disposition>) {
    && log != [] && log[|log| - 1].Accepted? && log[|log| - 1].taker.msg == GENOFF_SET
    && log[|log| - 1].packet.Data? && log[|log| - 1].packet.qmi.Some? && log[|log| - 1].packet.qmi.value.success
  }

  function ValueOf(r: TxnResult): Option<u64> {
    if r.Reply? && r.qmi.success then Some(r.qmi.offset) else None
  }

  /** The two readings of a handshake: the replies, and the transaction of the second. */
  datatype Readings = Readings(tod: TxnResult, rtcTxn: Pending, rtc: TxnResult)

  /** Both bases were asked for, TOD by the transaction first and RTC by a later one, and these are the results. */
  ghost predicate ReadAs(t: Trace, first: Pending, rd: Readings) {
    && first.number < rd.rtcTxn.number < |t.asked| && rd.rtcTxn.number < t.txnCount
    && t.asked[first.number] == GetOffset(ATS_TOD) && t.asked[rd.rtcTxn.number] == GetOffset(ATS_RTC)
    && ResultOf(t.log, t.answered, first, rd.tod) && ResultOf(t.log, t.answered, rd.rtcTxn, rd.rtc)
  }

  lemma ReadAsStays(s: Setup, a: Trace, b: Trace, first: Pending, rd: Readings)
    requires ReadAs(a, first, rd) && Extends(s, a, b)
    ensures ReadAs(b, first, rd)
  {
    ResultStays(s, a, b, first, rd.tod);
    ResultStays(s, a, b, rd.rtcTxn, rd.rtc);
    ExtendsMeans(s, a, b);
    hide Extends, ResultOf;
  }

  /** An attempt to set the offset: what was read, what was sent, and what came of it. */
  datatype Attempt = Attempt(rd: Readings, wall: u64, saved: Option<Record>, sent: Option<Sent>, setTxn: Pending, reply: TxnResult)

  /** The offset sent is the one that follows from what was read; none is sent only if none does. */
  ghost predicate SentRightly(t: Trace, a: Attempt) {
    var tod, rtc := ValueOf(a.rd.tod), ValueOf(a.rd.rtc);
    && (a.sent.None? <==> forall source :: !IsChosen(source, tod, rtc, a.wall, a.saved))
    && (a.sent.Some? ==>
          var x := a.sent.value;
          && x in t.sent && SentOk(x) && x.tod == tod && x.rtc == rtc && x.wall == a.wall && x.saved == a.saved
          && a.rd.rtcTxn.number < a.setTxn.number < |t.asked| && a.setTxn.number < t.txnCount
          && t.asked[a.setTxn.number] == SetOffset(ATS_USER, x.offset)
          && ResultOf(t.log, t.answered, a.setTxn, a.reply))
  }

  ghost predicate AttemptOk(t: Trace, first: Pending, a: Attempt) {
    ReadAs(t, first, a.rd) && SentRightly(t, a)
  }

  /** The modem has confirmed the offset. */
  predicate Confirms(a: Attempt) {
    a.sent.Some? && a.reply.Reply? && a.reply.qmi.success
  }

  lemma AttemptStays(s: Setup, t: Trace, t': Trace, first: Pending, a: Attempt)
    requires AttemptOk(t, first, a) && Extends(s, t, t')
    ensures AttemptOk(t', first, a)
  {
    ReadAsStays(s, t, t', first, a.rd);
    ExtendsMeans(s, t, t');
    if a.sent.Some? {
      ResultStays(s, t, t', a.setTxn, a.reply);
    }
    hide Extends, ReadAs, ResultOf, SentOk, IsChosen;
  }

  /** The daemon after a reading of the uptime counter: the verdict is reported once, and only with something to compare. */
  function Judged(v: View, rtcNow: u64, current: Reading): View {
    if v.verdictLogged then v
    else if v.saved.None? || v.saved.value.rtc == 0 then v.(verdictLogged := true)
    else
      var before := v.saved.value.rtc;
      var verdict := if rtcNow < before then Restarted(before - rtcNow) else Survived(rtcNow - before);
      v.(verdictLogged := true, reports := v.reports + [BootReport(verdict, v.reading, current)])
  }

  lemma CalmJudged(a: View, b: View, log: seq<Disposition>, n: nat, rtcNow: u64, current: Reading)
    requires Calm(a, b, log, n)
    ensures Calm(Judged(a, rtcNow, current), Judged(b, rtcNow, current), log, n)
  {
  }

  lemma JudgedBase(a: View, b: View, log: seq<Disposition>, n: nat, rtc: Option<u64>, current: Reading)
    requires Calm(if rtc.Some? then Judged(a, rtc.value, current) else a, b, log, n)
    ensures CalmBase(a.base, b.base, log, n)
  {
  }

  lemma BaseMeans(a: Base, b: Base, log: seq<Disposition>, n: nat)
    requires CalmBase(a, b, log, n)
    ensures n <= |log| && (Quiet(log[n..], a.node, a.port) ==> a == b)
  {
  }

  lemma BaseWithState(a: Base, b: Base, log: seq<Disposition>, n: nat, keep: bool)
    requires CalmBase(a, b, log, n)
    ensures forall state :: CalmBase(a.(state := state), b.(state := state), log, n)
    ensures CalmBase(a.(state := if keep then a.state else b.state), b, log, n)
  {
  }

  lemma BaseBehind(a: Base, b: Base, c: Base, log: seq<Disposition>, later: seq<Disposition>, n: nat, keep: bool)
    requires CalmBase(a, b, log, n) && log <= later
    requires CalmBase(b.(state := if keep then b.state else c.state), c, later, |log|)
    ensures CalmBase(a.(state := if keep then a.state else c.state), c, later, n)
  {
    BaseWithState(a, b, log, n, keep);
    var state := if keep then b.state else c.state;
    CalmBaseThen(a.(state := state), b.(state := state), c, log, later, n);
    if Quiet(later[n..], a.node, a.port) {
      assert forall i :: 0 <= i < |log[n..]| ==> log[n..][i] == later[n..][i];
    }
  }

  /** From a to b and from there to c nothing was moved, unless a disturbance came. */
  lemma BaseStays(a: Base, b: Base, c: Base, log: seq<Disposition>, later: seq<Disposition>, n: nat, keep: bool)
    requires CalmBase(a, b, log, n) && log <= later
    requires CalmBase(b.(state := if keep then b.state else c.state), c, later, |log|)
    ensures n <= |later| && (Quiet(later[n..], a.node, a.port) ==> c == a.(state := if keep then a.state else c.state))
  {
    BaseBehind(a, b, c, log, later, n, keep);
    BaseMeans(a.(state := if keep then a.state else c.state), c, later, n);
  }

  lemma AttemptAsks(t: Trace, first: Pending, a: Attempt)
    requires AttemptOk(t, first, a)
    ensures first.number < |t.asked| && t.asked[first.number] == GetOffset(ATS_TOD) && first.number < t.txnCount
  {
  }

  lemma NothingSent(t: Trace, a: Attempt)
    requires a.sent.None? && forall source :: !IsChosen(source, ValueOf(a.rd.tod), ValueOf(a.rd.rtc), a.wall, a.saved)
    ensures SentRightly(t, a)
  {
  }

  lemma SentIsRight(t: Trace, a: Attempt)
    requires a.sent.Some? && a.rd.rtcTxn.number < a.setTxn.number < |t.asked| && a.setTxn.number < t.txnCount
    requires var x := a.sent.value;
             && x in t.sent && SentOk(x) && x.tod == ValueOf(a.rd.tod) && x.rtc == ValueOf(a.rd.rtc)
             && x.wall == a.wall && x.saved == a.saved
             && t.asked[a.setTxn.number] == SetOffset(ATS_USER, x.offset)
    requires ResultOf(t.log, t.answered, a.setTxn, a.reply)
    ensures SentRightly(t, a)
  {
    hide ResultOf;
  }

  lemma ReadAsIsNamed(t: Trace, first: Pending, rd: Readings)
    requires ReadAs(t, first, rd)
    ensures first.number < rd.rtcTxn.number < t.txnCount
  {
  }

  lemma NothingAttempted(t: Trace, first: Pending, a: Attempt)
    requires ReadAs(t, first, a.rd)
    requires a.sent.None? && forall source :: !IsChosen(source, ValueOf(a.rd.tod), ValueOf(a.rd.rtc), a.wall, a.saved)
    ensures AttemptOk(t, first, a)
  {
    hide ReadAs, SentRightly;
    NothingSent(t, a);
  }

  /** An attempt whose readings were there at one time, and whose request was sent later. */
  lemma AttemptMade(s: Setup, start: Trace, read: Trace, t: Trace, first: Pending, a: Attempt)
    requires Extends(s, start, read) && Extends(s, read, t) && ReadAs(read, first, a.rd)
    requires a.sent.Some? && read.txnCount <= a.setTxn.number < |t.asked| && a.setTxn.number < t.txnCount
    requires var x := a.sent.value;
             && x in t.sent && SentOk(x) && x.tod == ValueOf(a.rd.tod) && x.rtc == ValueOf(a.rd.rtc)
             && x.wall == a.wall && x.saved == a.saved
             && t.asked[a.setTxn.number] == SetOffset(ATS_USER, x.offset)
    requires ResultOf(t.log, t.answered, a.setTxn, a.reply)
    ensures Extends(s, start, t) && AttemptOk(t, first, a)
  {
    ReadAsIsNamed(read, first, a.rd);
    ExtendsTransitive(s, start, read, t);
    ReadAsStays(s, read, t, first, a.rd);
    hide ReadAs, SentRightly, ResultOf, SentOk, Extends;
    SentIsRight(t, a);
  }

  /** Calm, as far as the base is concerned. */
  ghost predicate CalmBase(a: Base, b: Base, log: seq<Disposition>, n: nat) {
    n <= |log| && (Quiet(log[n..], a.node, a.port) ==> b == a)
  }

  lemma CalmBaseOf(a: View, b: View, log: seq<Disposition>, n: nat)
    requires Calm(a, b, log, n)
    ensures CalmBase(a.base, b.base, log, n)
  {
  }

  lemma CalmBaseThen(a: Base, b: Base, c: Base, log: seq<Disposition>, later: seq<Disposition>, n: nat)
    requires CalmBase(a, b, log, n) && CalmBase(b, c, later, |log|) && log <= later
    ensures CalmBase(a, c, later, n)
  {
    if Quiet(later[n..], a.node, a.port) {
      assert forall i :: 0 <= i < |log[n..]| ==> log[n..][i] == later[n..][i];
      assert forall i :: 0 <= i < |later[|log|..]| ==> later[|log|..][i] == later[n..][i + (|log| - n)];
    }
  }

  function PacketsOf(log: seq<Disposition>): seq<Packet> {
    seq(|log|, i requires 0 <= i < |log| => log[i].packet)
  }

  ghost predicate DispositionOk(d: Disposition) {
    match d
    case Accepted(p, taker, _, _) => Answers(p, taker)
    case Handled(p, waiting, _) => waiting != [] ==> !Answers(p, waiting[|waiting| - 1])
  }

  /** The innermost of the waiting transactions takes the packet. */
  function AcceptedBy(p: Packet, pending: seq<Pending>, since: nat): (d: Disposition)
    requires pending != []
    ensures Waiting(d) == pending && d.since == since
  {
    Accepted(p, pending[|pending| - 1], pending[..|pending| - 1], since)
  }

  /** No two of these transactions have the same id. */
  predicate DistinctIds(waiting: seq<Pending>) {
    forall i, j :: 0 <= i < j < |waiting| ==> TxnId(waiting[i].number) != TxnId(waiting[j].number)
  }

  /** A handshake makes three transactions; so many announcements during one wait exhaust the 65535 ids. */
  const ENOUGH := 21845

  ghost predicate SentOk(s: Sent) {
    IsSound(s.source, s.offset, s.tod, s.rtc, s.wall, s.saved, s.at) && IsChosen(s.source, s.tod, s.rtc, s.wall, s.saved)
  }

  ghost predicate HeadOk(h: Head, orderly: bool) {
    && !h.state.Syncing?
    && (h.state.Synchronized? ==> h.fails < 3 && (h.marker || h.markerFault) && (orderly ==> h.connected && h.port != 0))
    && h.stray == (h.marker && !h.state.Synchronized?)
  }

  ghost predicate VerdictOk(v: BootReport) {
    && NotAfter(v.before, v.current)
    && (v.verdict.Restarted? ==> v.before.boot < v.current.boot)
    && (v.before.boot == v.current.boot ==>
          v.verdict.Survived? && v.verdict.elapsed == v.current.uptime - v.before.uptime)
    && (v.current.uptime < v.before.uptime ==> v.verdict.Restarted? && v.verdict.lost + v.current.uptime == v.before.uptime)
  }

  /** The main loop's timers compare unsigned differences of seconds. */
  predicate Due(t: u64, last: u64, interval: nat) {
    Sub64(t, last) >= interval
  }

  /**
   A timer is due when its interval has passed, and also when it was set after t, unless it was set so much later that
   the difference does not wrap far enough; below 2^63 seconds that is always.
   */
  lemma DueMeans(t: u64, last: u64, interval: nat)
    ensures Due(t, last, interval) <==> if t >= last then t - last >= interval else last - t <= TWO_64 - interval
    ensures t < TWO_63 && last < TWO_63 && interval <= TWO_63 ==>
              (Due(t, last, interval) <==> t < last || t - last >= interval)
  {
    if t >= last {
      assert Sub64(t, last) == t - last;
    } else {
      assert Sub64(t, last) == t - last + TWO_64;
    }
  }

  // ----- the record of a run, and what is always true of it -----

  /** What the environment is assumed to keep to, and the configuration the record depends on. */
  datatype Setup = Setup(
    orderly: bool,             // the script keeps to AllowedWhen
    steady: bool,              // the script keeps to Steady
    refreshing: bool,          // the periodic refresh is switched on
    script: seq<Packet>,       // every packet of this run
    future: seq<Arrival>)      // what arrives in later runs

  datatype Trace = Trace(
    honest: bool,              // every accepted reading was of the base asked for, taken after it was asked for
    markerFault: bool,         // the marker could not be written at some time
    stray: bool,               // a refresh wrote the marker while not synchronised
    live: Option<Address>,
    last: Reading,             // the latest uptime reading taken off the socket
    log: seq<Disposition>,
    asked: seq<RequestMsg>,    // the request of every transaction begun
    txnCount: nat,
    pending: seq<Pending>,     // the transactions waiting now, the outermost first
    ahead: nat,                // announcements still on the socket when the outermost began
    answered: set<nat>,        // transactions that have taken a reply
    sent: seq<Sent>,
    trusted: set<u64>,         // offsets loaded at boot or confirmed by the modem in this run
    reports: seq<BootReport>,
    stateReading: Reading,     // the reading behind the record in memory
    origin: map<Record, Reading>)    // the readings behind the records flash may hold

  /** Every packet so far was disposed of once, in order of arrival, and the others are still to come. */
  ghost predicate Accounted(script: seq<Packet>, log: seq<Disposition>, inbox: seq<Arrival>) {
    PacketsOf(log) + Packets(inbox) == script
  }

  /** Every disposition was the right one, and a transaction takes one reply at most. */
  ghost predicate LogOk(log: seq<Disposition>, txnCount: nat, answered: set<nat>) {
    && (forall i :: 0 <= i < |log| ==> DispositionOk(log[i]) && (log[i].Accepted? ==> log[i].taker.number in answered))
    && (forall i, j :: 0 <= i < j < |log| && log[i].Accepted? && log[j].Accepted? ==>
          log[i].taker.number != log[j].taker.number)
    && (forall k :: k in answered ==> k < txnCount)
  }

  /** Since the outermost transaction began, no more than three have begun for each announcement taken. */
  ghost predicate PendingOk(pending: seq<Pending>, txnCount: nat, ahead: nat, left: nat) {
    && (forall i :: 0 <= i < |pending| ==> pending[i].number < txnCount)
    && (forall i, j :: 0 <= i < j < |pending| ==> pending[i].number < pending[j].number)
    && (pending != [] ==> left <= ahead && txnCount + 3 * left <= pending[0].number + 1 + 3 * ahead)
  }

  /** The transactions waiting when this packet was taken had different ids, unless their wait had seen too many announcements. */
  ghost predicate DistinctWhen(d: Disposition, announcements: nat) {
    d.since <= announcements && (d.since < ENOUGH ==> DistinctIds(Waiting(d)))
  }

  ghost predicate IdsOk(script: seq<Packet>, log: seq<Disposition>, pending: seq<Pending>, ahead: nat) {
    && (pending != [] ==> ahead <= Announced(script))
    && (forall i :: 0 <= i < |log| ==> DistinctWhen(log[i], Announced(script)))
  }

  /** Announcements taken since the outermost of the waiting transactions began. */
  function Since(pending: seq<Pending>, ahead: nat, left: nat): nat {
    if pending == [] || ahead < left then 0 else ahead - left
  }

  ghost predicate LinkOk(live: Option<Address>, inbox: seq<Arrival>, link: Option<Address>) {
    Orderly(live, inbox) && live == link && (link.Some? ==> link.value.1 != 0)
  }

  /** Every record flash may hold comes from a reading that is not later than the last one. */
  ghost predicate OriginOk(origin: map<Record, Reading>, versions: set<Record>, last: Reading) {
    forall r :: r in versions ==>
      r in origin && NotAfter(origin[r], last) && (r.rtc != 0 ==> origin[r].uptime == r.rtc)
  }

  ghost predicate ReadingsOk(t: Trace, saved: Option<Record>, versions: set<Record>) {
    && NotAfter(t.stateReading, t.last) && OriginOk(t.origin, versions, t.last)
    && (saved.Some? && saved.value.rtc != 0 ==> t.stateReading.uptime == saved.value.rtc)
    && (forall r :: r in t.reports ==> VerdictOk(r))
  }

  ghost predicate OffsetsOk(saved: Option<Record>, trusted: set<u64>, sent: seq<Sent>, honest: bool) {
    && (saved.Some? ==> saved.value.base == ATS_USER && saved.value.offset in trusted)
    && (forall s :: s in sent ==>
          && SentOk(s)
          && (s.source.Restored? ==> s.offset in trusted)
          && (honest ==> InOrder(s)))
  }

  /** The values behind the offset were read in the order in which the code asks for them. */
  predicate InOrder(s: Sent) {
    && (s.source.Network? ==> s.todBase == ATS_TOD && s.at.tod <= s.at.rtc)
    && (s.rtc.Some? ==> s.at.rtc <= s.at.wall)
  }

  /** link is the server the program believes it talks to, saved is the record in memory, versions are those flash may hold. */
  ghost predicate TraceOk(s: Setup, t: Trace, inbox: seq<Arrival>, link: Option<Address>,
                          saved: Option<Record>, versions: set<Record>)
  {
    && (s.orderly ==> LinkOk(t.live, inbox, link))
    && Accounted(s.script, t.log, inbox)
    && LogOk(t.log, t.txnCount, t.answered)
    && PendingOk(t.pending, t.txnCount, t.ahead, Announced(Packets(inbox)))
    && IdsOk(s.script, t.log, t.pending, t.ahead)
    && (s.steady ==> Steady(t.last, inbox + s.future))
    && (s.steady && t.honest ==> ReadingsOk(t, saved, versions))
    && OffsetsOk(saved, t.trusted, t.sent, t.honest)
    && (!s.refreshing ==> !t.stray)
    && |t.asked| == t.txnCount
  }

  /** How a trace grows. */
  ghost predicate Extends(s: Setup, a: Trace, b: Trace) {
    && (b.honest ==> a.honest) && (a.markerFault ==> b.markerFault)
    && (s.steady ==> NotAfter(a.last, b.last))
    && a.txnCount <= b.txnCount && a.trusted <= b.trusted && a.answered <= b.answered && a.sent <= b.sent
    && a.log <= b.log && a.reports <= b.reports && a.asked <= b.asked
    && (forall k :: k in b.answered ==> k in a.answered || k >= a.txnCount)
  }

  lemma ExtendsTransitive(s: Setup, a: Trace, b: Trace, c: Trace)
    requires Extends(s, a, b) && Extends(s, b, c)
    ensures Extends(s, a, c)
  {
  }

  /** The trace after a packet has left the socket. */
  function Took(t: Trace, d: Disposition): Trace {
    t.(live := LiveAfter(t.live, d.packet), last := LastAfter(t.last, d.packet), log := t.log + [d],
       answered := if d.Accepted? then t.answered + {d.taker.number} else t.answered)
  }

  lemma LogTook(log: seq<Disposition>, txnCount: nat, answered: set<nat>, d: Disposition)
    requires LogOk(log, txnCount, answered) && DispositionOk(d)
    requires d.Accepted? ==> d.taker.number < txnCount && d.taker.number !in answered
    ensures LogOk(log + [d], txnCount, if d.Accepted? then answered + {d.taker.number} else answered)
  {
    hide DispositionOk;
  }

  lemma OneMoreAccounted(script: seq<Packet>, log: seq<Disposition>, inbox: seq<Arrival>, d: Disposition)
    requires Accounted(script, log, inbox) && inbox != [] && inbox[0].input == Pkt(d.packet)
    ensures Accounted(script, log + [d], inbox[1..])
  {
    assert PacketsOf(log + [d]) == PacketsOf(log) + [d.packet];
    assert PacketsOf(log + [d]) + Packets(inbox[1..]) == PacketsOf(log) + Packets(inbox);
  }

  /** Transactions waiting at one time have different ids unless 21845 announcements have been taken meanwhile. */
  lemma WaitingDiffer(pending: seq<Pending>, txnCount: nat, ahead: nat, left: nat)
    requires PendingOk(pending, txnCount, ahead, left) && ahead - left < ENOUGH
    ensures DistinctIds(pending)
  {
    forall i, j | 0 <= i < j < |pending| ensures TxnId(pending[i].number) != TxnId(pending[j].number) {
      assert pending[0].number <= pending[i].number;
      TxnIdsDiffer(pending[i].number, pending[j].number);
    }
  }

  /** A reply is for at most one of several transactions whose ids differ. */
  lemma AnswersOnlyOne(p: Packet, waiting: seq<Pending>, i: nat, j: nat)
    requires DistinctIds(waiting) && i < |waiting| && j < |waiting| && Answers(p, waiting[i]) && Answers(p, waiting[j])
    ensures i == j
  {
  }

  /**
   A reply that comes while its transaction is not the innermost goes to the handler, which ignores replies.  The
   transaction then ends without a result, unless the modem answers it once more.
   */
  lemma OuterReplyIsLost(log: seq<Disposition>, answered: set<nat>, k: nat, i: nat, r: TxnResult)
    requires k < |log| && forall j :: 0 <= j < |log| ==> DispositionOk(log[j])
    requires var waiting := Waiting(log[k]);
             && DistinctIds(waiting) && i < |waiting| - 1 && Answers(log[k].packet, waiting[i])
             && Outcome(log, answered, waiting[i], r)
    ensures log[k].Handled?
    ensures r.Reply? ==> k < |log| - 1 && Answers(log[|log| - 1].packet, Waiting(log[k])[i])
    ensures (forall j :: k < j < |log| ==> !Answers(log[j].packet, Waiting(log[k])[i])) ==> r == NoReply
  {
    hide Answers, DistinctIds;
    var waiting := Waiting(log[k]);
    if log[k].Accepted? {
      AnswersOnlyOne(log[k].packet, waiting, i, |waiting| - 1);
    }
    if r.Reply? {
      assert DispositionOk(log[|log| - 1]);
    }
  }

  lemma IdsTook(script: seq<Packet>, log: seq<Disposition>, pending: seq<Pending>, txnCount: nat, ahead: nat, left: nat, d: Disposition)
    requires IdsOk(script, log, pending, ahead) && PendingOk(pending, txnCount, ahead, left) && Waiting(d) == pending
    requires d.since == Since(pending, ahead, left)
    ensures IdsOk(script, log + [d], pending, ahead)
  {
    if d.since < ENOUGH && pending != [] {
      WaitingDiffer(pending, txnCount, ahead, left);
    }
    assert DistinctWhen(d, Announced(script)) by {
      hide Announced;
    }
    hide DistinctWhen;
  }

  lemma OneLessAnnounced(inbox: seq<Arrival>)
    requires inbox != []
    ensures Announced(Packets(inbox))
            == Announced(Packets(inbox[1..])) + if inbox[0].input.Pkt? && IsAnnouncement(inbox[0].input.packet) then 1 else 0
  {
    if inbox[0].input.Pkt? {
      assert Packets(inbox)[1..] == Packets(inbox[1..]);
    }
  }

  lemma TookIsOk(s: Setup, t: Trace, d: Disposition, inbox: seq<Arrival>, link: Option<Address>, link': Option<Address>,
                 saved: Option<Record>, versions: set<Record>)
    requires TraceOk(s, t, inbox, link, saved, versions)
    requires inbox != [] && inbox[0].input == Pkt(d.packet) && DispositionOk(d) && Waiting(d) == t.pending
    requires d.since == Since(t.pending, t.ahead, Announced(Packets(inbox)))
    requires d.Accepted? ==> d.taker.number < t.txnCount && d.taker.number !in t.answered
    requires s.orderly && AllowedWhen(t.live, d.packet) && t.live == link ==>
               LiveAfter(t.live, d.packet) == link' && (link'.Some? && link'.value.1 == 0 ==> link' == link)
    ensures TraceOk(s, Took(t, d), inbox[1..], link', saved, versions)
    ensures s.orderly ==> AllowedWhen(t.live, d.packet)
    ensures s.steady ==> NotAfter(t.last, Took(t, d).last)
    ensures Announced(Packets(inbox)) == Announced(Packets(inbox[1..])) + if IsAnnouncement(d.packet) then 1 else 0
  {
    hide LogOk, Accounted, DispositionOk, LinkOk, IdsOk, PendingOk, ReadingsOk, OffsetsOk, Steady, Announced, Packets, Waiting,
      LastAfter, LiveAfter, AllowedWhen, NotAfter;
    LogTook(t.log, t.txnCount, t.answered, d);
    OneMoreAccounted(s.script, t.log, inbox, d);
    OneLessAnnounced(inbox);
    IdsTook(s.script, t.log, t.pending, t.txnCount, t.ahead, Announced(Packets(inbox)), d);
    PendingTook(t.pending, t.txnCount, t.ahead, Announced(Packets(inbox)), Announced(Packets(inbox[1..])));
    if s.orderly {
      LinkTook(t.live, d.packet, inbox, link, link');
    }
    SteadyTook(s, t, d, inbox);
    LastOnlyGrows(t, Took(t, d), saved, versions);
  }

  lemma PendingTook(pending: seq<Pending>, txnCount: nat, ahead: nat, left: nat, left': nat)
    requires PendingOk(pending, txnCount, ahead, left) && left' <= left
    ensures PendingOk(pending, txnCount, ahead, left')
  {
  }

  lemma LinkTook(live: Option<Address>, p: Packet, inbox: seq<Arrival>, link: Option<Address>, link': Option<Address>)
    requires LinkOk(live, inbox, link) && inbox != [] && inbox[0].input == Pkt(p)
    requires AllowedWhen(live, p) && live == link ==>
               LiveAfter(live, p) == link' && (link'.Some? && link'.value.1 == 0 ==> link' == link)
    ensures AllowedWhen(live, p) && LinkOk(LiveAfter(live, p), inbox[1..], link')
  {
    hide AllowedWhen, LiveAfter;
  }

  lemma ReplyKeepsServer(live: Option<Address>, p: Packet)
    requires p.Data? && p.qmi.Some? && p.qmi.value.kind.Response?
    ensures LiveAfter(live, p) == live && (AllowedWhen(live, p) ==> live == Some((p.node, p.port)))
  {
  }

  lemma SteadyTook(s: Setup, t: Trace, d: Disposition, inbox: seq<Arrival>)
    requires s.steady ==> Steady(t.last, inbox + s.future)
    requires inbox != [] && inbox[0].input == Pkt(d.packet)
    ensures s.steady ==> Steady(Took(t, d).last, inbox[1..] + s.future) && NotAfter(t.last, Took(t, d).last)
  {
    assert (inbox + s.future)[1..] == inbox[1..] + s.future;
    hide LastAfter, LiveAfter;
  }

  lemma LastOnlyGrows(t: Trace, t': Trace, saved: Option<Record>, versions: set<Record>)
    requires t'.stateReading == t.stateReading && t'.origin == t.origin && t'.reports == t.reports
    ensures ReadingsOk(t, saved, versions) && NotAfter(t.last, t'.last) ==> ReadingsOk(t', saved, versions)
  {
    hide VerdictOk;
  }

  lemma HandledExtends(s: Setup, t: Trace, d: Disposition)
    requires d.Handled? && (s.steady ==> NotAfter(t.last, Took(t, d).last))
    ensures Extends(s, t, Took(t, d))
  {
    hide LiveAfter, LastAfter;
  }

  lemma AcceptedExtends(s: Setup, a: Trace, t: Trace, d: Disposition)
    requires Extends(s, a, t) && d.Accepted? && a.txnCount <= d.taker.number
    requires s.steady ==> NotAfter(t.last, Took(t, d).last)
    ensures Extends(s, a, Took(t, d))
  {
    hide LiveAfter, LastAfter;
  }

  /** Anything on the socket that is not a packet leaves no trace. */
  lemma SkipIsOk(s: Setup, t: Trace, inbox: seq<Arrival>, link: Option<Address>, saved: Option<Record>, versions: set<Record>)
    requires TraceOk(s, t, inbox, link, saved, versions) && inbox != [] && !inbox[0].input.Pkt?
    ensures TraceOk(s, t, inbox[1..], link, saved, versions)
    ensures Announced(Packets(inbox)) == Announced(Packets(inbox[1..]))
  {
    hide Accounted, LogOk, LinkOk, ReadingsOk, OffsetsOk, IdsOk, PendingOk, Steady, Announced, Packets;
    SkipAccounted(s.script, t.log, inbox);
    OneLessAnnounced(inbox);
    SkipReadings(s, t.last, t.live, inbox, link);
  }

  lemma SkipReadings(s: Setup, last: Reading, live: Option<Address>, inbox: seq<Arrival>, link: Option<Address>)
    requires inbox != [] && !inbox[0].input.Pkt?
    ensures LinkOk(live, inbox, link) ==> LinkOk(live, inbox[1..], link)
    ensures Steady(last, inbox + s.future) ==> Steady(last, inbox[1..] + s.future)
  {
    assert (inbox + s.future)[1..] == inbox[1..] + s.future;
  }

  lemma SkipAccounted(script: seq<Packet>, log: seq<Disposition>, inbox: seq<Arrival>)
    requires Accounted(script, log, inbox) && inbox != [] && !inbox[0].input.Pkt?
    ensures Accounted(script, log, inbox[1..])
  {
  }

  /** The trace when a transaction begins and waits, and when it ends. */
  function Began(t: Trace, node: u32, port: u32, request: RequestMsg, left: nat): Trace {
    t.(txnCount := t.txnCount + 1, asked := t.asked + [request],
       pending := t.pending + [Pending(t.txnCount, node, port, MessageId(request))],
       ahead := if t.pending == [] then left else t.ahead)
  }

  function Ended(t: Trace): Trace {
    if t.pending == [] then t else t.(pending := t.pending[..|t.pending| - 1])
  }

  /** There is room for k more transactions: the announcements taken account for them. */
  ghost predicate RoomIn(pending: seq<Pending>, txnCount: nat, ahead: nat, left: nat, k: nat) {
    pending != [] ==> txnCount + k + 3 * left <= pending[0].number + 1 + 3 * ahead
  }

  lemma BegunIsOk(s: Setup, t: Trace, inbox: seq<Arrival>, link: Option<Address>, saved: Option<Record>, versions: set<Record>,
                  node: u32, port: u32, request: RequestMsg)
    requires TraceOk(s, t, inbox, link, saved, versions)
    requires RoomIn(t.pending, t.txnCount, t.ahead, Announced(Packets(inbox)), 1)
    ensures var t' := Began(t, node, port, request, Announced(Packets(inbox)));
            TraceOk(s, t', inbox, link, saved, versions) && Extends(s, t, t') && t.txnCount !in t.answered && |t.asked| == t.txnCount
  {
    AnnouncedConcat(PacketsOf(t.log), Packets(inbox));
    hide LinkOk, Steady, OffsetsOk, Announced, Packets, PacketsOf, DistinctIds, Waiting, DispositionOk, VerdictOk;
  }

  lemma EndedIsOk(s: Setup, a: Trace, t: Trace, inbox: seq<Arrival>, link: Option<Address>, saved: Option<Record>,
                  versions: set<Record>)
    requires TraceOk(s, t, inbox, link, saved, versions) && Extends(s, a, t)
    ensures TraceOk(s, Ended(t), inbox, link, saved, versions) && Extends(s, a, Ended(t))
  {
    hide LinkOk, Steady, OffsetsOk, Announced, Packets, Accounted, LogOk, DistinctIds, Waiting, VerdictOk;
  }

  /** The program's idea of its server is the modem's, and a server's port is never zero. */
  lemma LinkIsLive(s: Setup, t: Trace, inbox: seq<Arrival>, link: Option<Address>, saved: Option<Record>, versions: set<Record>)
    requires TraceOk(s, t, inbox, link, saved, versions) && s.orderly
    ensures t.live == link && (link.Some? ==> link.value.1 != 0)
  {
  }

  lemma ExtendsItself(s: Setup, t: Trace)
    ensures Extends(s, t, t)
  {
  }

  lemma LessHonest(s: Setup, a: Trace, t: Trace, inbox: seq<Arrival>, link: Option<Address>, saved: Option<Record>,
                   versions: set<Record>, honest: bool)
    requires TraceOk(s, t, inbox, link, saved, versions) && Extends(s, a, t) && (honest ==> t.honest)
    ensures TraceOk(s, t.(honest := honest), inbox, link, saved, versions) && Extends(s, a, t.(honest := honest))
  {
    hide LinkOk, LogOk, Accounted, Steady, VerdictOk, SentOk;
  }

  lemma NotStray(s: Setup, a: Trace, t: Trace, inbox: seq<Arrival>, link: Option<Address>, saved: Option<Record>,
                 versions: set<Record>)
    requires TraceOk(s, t, inbox, link, saved, versions) && Extends(s, a, t)
    ensures TraceOk(s, t.(stray := false), inbox, link, saved, versions) && Extends(s, a, t.(stray := false))
  {
    hide LinkOk, LogOk, Accounted, Steady, VerdictOk, OffsetsOk;
  }

  lemma RoomMeans(s: Setup, t: Trace, inbox: seq<Arrival>, link: Option<Address>, saved: Option<Record>, versions: set<Record>)
    requires TraceOk(s, t, inbox, link, saved, versions)
    ensures RoomIn(t.pending, t.txnCount, t.ahead, Announced(Packets(inbox)), 0)
  {
  }

  lemma ExtendsMeans(s: Setup, a: Trace, b: Trace)
    requires Extends(s, a, b)
    ensures (s.steady ==> NotAfter(a.last, b.last)) && (b.honest ==> a.honest) && a.txnCount <= b.txnCount
    ensures forall k :: k in b.answered ==> k in a.answered || k >= a.txnCount
    ensures a.sent <= b.sent && a.log <= b.log && a.asked <= b.asked && a.reports <= b.reports
  {
  }

  /** What is known when the SET transaction has ended. */
  lemma SetIsOver(s: Setup, start: Trace, noted: Trace, t: Trace, me: Pending, r: TxnResult)
    requires Extends(s, start, noted) && Extends(s, noted, t) && Outcome(t.log, t.answered, me, r) && me.msg == GENOFF_SET
    ensures Extends(s, start, t) && noted.sent <= t.sent && (t.honest ==> noted.honest)
    ensures s.steady ==> NotAfter(noted.last, t.last)
    ensures r.Reply? && r.qmi.success ==> Consented(t.log)
  {
    ExtendsTransitive(s, start, noted, t);
    ExtendsMeans(s, noted, t);
  }

  /** The trace after the modem has confirmed an offset, and perhaps a record of it has been kept. */
  function Confirmed(t: Trace, offset: u64, reading: Reading, kept: Option<Record>): (t': Trace)
    ensures t'.live == t.live && t'.stray == t.stray && t'.markerFault == t.markerFault && t'.txnCount == t.txnCount
    ensures t'.pending == t.pending && t'.ahead == t.ahead && t'.log == t.log && t'.answered == t.answered && offset in t'.trusted
    ensures t'.sent == t.sent && t'.asked == t.asked
  {
    t.(trusted := t.trusted + {offset},
       stateReading := if kept.Some? then reading else t.stateReading,
       origin := if kept.Some? then t.origin[kept.value := reading] else t.origin)
  }

  lemma ConfirmedIsOk(s: Setup, a: Trace, t: Trace, inbox: seq<Arrival>, link: Option<Address>,
                      saved: Option<Record>, versions: set<Record>, saved': Option<Record>, versions': set<Record>,
                      offset: u64, rtc: u64, reading: Reading, kept: Option<Record>)
    requires TraceOk(s, t, inbox, link, saved, versions) && Extends(s, a, t)
    requires if kept.Some? then saved' == kept && versions' == versions + {kept.value} && kept.value.base == ATS_USER
                                && kept.value.offset == offset && kept.value.rtc == rtc
             else saved' == saved && versions' == versions
    requires s.steady && t.honest ==> NotAfter(reading, t.last) && (rtc != 0 ==> reading.uptime == rtc)
    ensures var t' := Confirmed(t, offset, reading, kept);
            TraceOk(s, t', inbox, link, saved', versions') && Extends(s, a, t')
  {
    hide LinkOk, LogOk, Accounted, Steady, VerdictOk, SentOk, PendingOk, IdsOk;
  }

  lemma MarkedIsOk(s: Setup, a: Trace, t: Trace, inbox: seq<Arrival>, link: Option<Address>, saved: Option<Record>,
                   versions: set<Record>, stray: bool, fault: bool)
    requires TraceOk(s, t, inbox, link, saved, versions) && Extends(s, a, t) && (stray ==> t.stray || s.refreshing)
    ensures var t' := t.(stray := stray, markerFault := t.markerFault || fault);
            TraceOk(s, t', inbox, link, saved, versions) && Extends(s, a, t')
  {
    hide LinkOk, LogOk, Accounted, Steady, VerdictOk, OffsetsOk;
  }

  /**
   With the readings in the order in which the code asks for them, the error has a sign: the counter plus a network offset
   is never ahead of TOD, and plus an offset from the AP clock never behind GPS time.
   */
  ghost predicate HasSign(x: Sent) {
    && (x.source.Network? ==>
          x.tod.Some? && x.rtc.Some? && x.todBase == ATS_TOD && NeverAhead(x.rtc.value, x.at.rtc, x.offset, x.tod.value, x.at.tod))
    && (x.source.ApClock? && x.rtc.Some? && x.rtc.value <= x.wall - 315_964_800_000 ==>
          NeverBehind(x.rtc.value, x.at.rtc, x.offset, x.wall - 315_964_800_000, x.at.wall))
  }

  lemma SignOfError(x: Sent)
    requires SentOk(x) && InOrder(x)
    ensures HasSign(x)
  {
    if x.source.Network? {
      ErrorKeeps(x.rtc.value, x.at.rtc, x.offset, x.tod.value, x.at.tod, x.at.tod - x.at.rtc);
    } else if x.source.ApClock? && x.rtc.Some? && x.rtc.value <= x.wall - 315_964_800_000 {
      ErrorKeeps(x.rtc.value, x.at.rtc, x.offset, x.wall - 315_964_800_000, x.at.wall, x.at.wall - x.at.rtc);
    }
  }

  lemma NoStrayWithoutRefresh(s: Setup, t: Trace, inbox: seq<Arrival>, link: Option<Address>, saved: Option<Record>,
                              versions: set<Record>)
    requires TraceOk(s, t, inbox, link, saved, versions) && !s.refreshing
    ensures !t.stray
  {
  }

  /** What is always true of a run, in the words of its log and of what it sent. */
  lemma TraceMeans(s: Setup, t: Trace, inbox: seq<Arrival>, link: Option<Address>, saved: Option<Record>, versions: set<Record>)
    requires TraceOk(s, t, inbox, link, saved, versions)
    ensures forall d :: d in t.log ==> DispositionOk(d) && DistinctWhen(d, Announced(s.script))
    ensures forall x :: x in t.sent ==>
              SentOk(x) && (x.source.Restored? ==> x.offset in t.trusted) && (t.honest ==> HasSign(x))
  {
    hide LinkOk, Accounted, Steady, PendingOk, SentOk, DistinctWhen, DispositionOk, HasSign, Announced, ReadingsOk;
    forall x | x in t.sent && t.honest ensures HasSign(x) {
      SignOfError(x);
    }
  }

  /** A record that was just loaded is one that an earlier run wrote. */
  lemma StartIsOk(s: Setup, t: Trace, inbox: seq<Arrival>, link: Option<Address>, state: Record, versions: set<Record>)
    requires TraceOk(s, t, inbox, link, None, versions) && state.base == ATS_USER
    requires s.steady ==> state in versions
    ensures TraceOk(s, Started(t, state), inbox, link, Some(state), versions)
  {
    hide LinkOk, LogOk, Accounted, Steady, VerdictOk, SentOk, PendingOk, IdsOk;
  }

  function Started(t: Trace, state: Record): Trace {
    t.(trusted := t.trusted + {state.offset},
       stateReading := if state in t.origin then t.origin[state] else t.stateReading)
  }

  lemma AskedAll(s: Setup, t: Trace, inbox: seq<Arrival>, link: Option<Address>, saved: Option<Record>, versions: set<Record>)
    requires TraceOk(s, t, inbox, link, saved, versions)
    ensures |t.asked| == t.txnCount && forall x :: x in t.sent ==> SentOk(x)
  {
  }

  lemma ReportIsOk(s: Setup, t: Trace, inbox: seq<Arrival>, link: Option<Address>, saved: Option<Record>, versions: set<Record>,
                   rtcNow: u64, boot: nat)
    requires TraceOk(s, t, inbox, link, saved, versions)
    requires t.honest ==> t.last == Reading(boot, rtcNow)
    requires !BootVerdict(saved, rtcNow).Unknown?
    ensures var t' := t.(reports := t.reports + [BootReport(BootVerdict(saved, rtcNow), t.stateReading, Reading(boot, rtcNow))]);
            TraceOk(s, t', inbox, link, saved, versions) && Extends(s, t, t')
  {
    if s.steady && t.honest {
      VerdictIsRight(saved.value, t.stateReading, Reading(boot, rtcNow));
    }
  }

  lemma SentIsOk(s: Setup, t: Trace, inbox: seq<Arrival>, link: Option<Address>, saved: Option<Record>, versions: set<Record>,
                 x: Sent)
    requires TraceOk(s, t, inbox, link, saved, versions) && x.saved == saved
    requires DeriveOffset(x.tod, x.rtc, x.wall, x.saved) == Some((x.source, x.offset))
    requires x.tod.Some? && t.honest ==> x.todBase == ATS_TOD && (x.rtc.Some? ==> x.at.tod <= x.at.rtc)
    requires x.rtc.Some? && t.honest ==> x.at.rtc <= x.at.wall
    ensures var t' := t.(sent := t.sent + [x]);
            TraceOk(s, t', inbox, link, saved, versions) && Extends(s, t, t')
  {
    DerivedOffsetIsSound(x.tod, x.rtc, x.wall, x.saved, x.at);
    SourceIsChosen(x.tod, x.rtc, x.wall, x.saved);
    assert IsChosen(x.source, x.tod, x.rtc, x.wall, x.saved);
    hide DeriveOffset, IsChosen, LinkOk, LogOk, Accounted, Steady, PendingOk, IdsOk, ReadingsOk;
  }

  // ----- the daemon -----

  class Daemon {
    // configuration
    const refreshInterval: int
    const pollInterval: nat
    const periodicGet: bool
    const store: Store
    ghost const setup: Setup

    // the program's variables
    var running: bool
    var modemNode: u32
    var modemPort: u32
    var connected: bool
    var state: DaemonState
    var nextTxnId: nat
    var fails: nat
    var verdictLogged: bool
    var lastHandshake: u64
    var lastUserRefresh: u64
    var lastKeepalive: u64
    var lastLookup: u64

    // the world: the marker file, the clock, the socket
    var marker: bool
    var now: nat
    var inbox: seq<Arrival>

    ghost var trace: Trace

    // sends and polls that failed, and lookups of the TIME service sent
    ghost var failures: nat
    ghost var lookups: nat

    /** System calls so far whose failure the program notices. */
    ghost function Faults(): nat
      reads this`failures, store`faults
    {
      failures + store.faults
    }

    function Link(): Option<Address>
      reads this`connected, this`modemNode, this`modemPort
    {
      if connected then Some((modemNode, modemPort)) else None
    }

    ghost predicate Valid()
      reads this`trace, this`inbox, this`connected, this`modemNode, this`modemPort, this`nextTxnId, store
    {
      && store.Valid()
      && TraceOk(setup, trace, inbox, Link(), store.Saved(), store.versions)
      && nextTxnId == TxnId(trace.txnCount)
      && setup.refreshing == (refreshInterval > 0)
    }

    lemma AskedSoFar()
      requires Valid()
      ensures |trace.asked| == trace.txnCount && forall x :: x in trace.sent ==> SentOk(x)
    {
      AskedAll(setup, trace, inbox, Link(), store.Saved(), store.versions);
    }

    /** What holds whenever no handshake is under way. */
    ghost predicate Settled()
      reads this`state, this`marker, this`connected, this`modemPort, this`fails, this`trace
    {
      HeadOk(Here(), setup.orderly)
    }

    ghost function Here(): Head
      reads this`state, this`marker, this`connected, this`modemPort, this`fails, this`trace
    {
      Head(state, marker, connected, modemPort, fails, trace.stray, trace.markerFault)
    }

    ghost function Now(): (v: View)
      reads this`state, this`marker, this`modemNode, this`modemPort, this`connected, this`fails, this`verdictLogged, this`lastHandshake,
        this`lastUserRefresh, this`lastKeepalive, this`lastLookup, this`trace, store
      ensures v.base.state == state && v.base.node == modemNode && v.base.port == modemPort
    {
      View(Base(state, modemNode, modemPort, connected, fails, lastHandshake, lastUserRefresh, lastKeepalive, lastLookup),
           marker, verdictLogged, store.Saved(), store.versions, trace.sent, trace.reports, trace.stateReading)
    }

    /** The transactions waiting are the same. */
    twostate predicate Kept()
      reads this`trace
    {
      trace.pending == old(trace.pending) && (trace.pending != [] ==> trace.ahead == old(trace.ahead))
    }

    twostate predicate SameLog()
      reads this`trace
    {
      && trace.log == old(trace.log) && trace.answered == old(trace.answered)
      && trace.sent == old(trace.sent) && trace.asked == old(trace.asked)
    }

    /**
     The record in memory, and with it the one in the file, is the old one or the one of this handshake; a refresh with the
     offset already on record leaves the old one.
     */
    twostate predicate KeptRecord(rtc: u64, wall: u64, offset: u64, isRefresh: bool)
      reads store
    {
      && ((store.Saved() == old(store.Saved()) && store.Live() == old(store.Live()) && store.versions == old(store.versions))
          || (store.Saved().Some? && store.Live() == Some(Format(store.Saved().value))
              && store.versions == old(store.versions) + {store.Saved().value}
              && store.Saved().value.(syncedAt := 0) == Record(ATS_USER, offset, rtc, wall, AsSigned64(Sub64(wall, rtc)), 0)))
      && (isRefresh && old(store.Saved()).Some? && old(store.Saved()).value.offset == offset ==>
            store.Saved() == old(store.Saved()) && store.Live() == old(store.Live()))
      && (Recorded(offset, rtc, wall, isRefresh) || store.faults > old(store.faults)) && old(store.faults) <= store.faults
    }

    twostate predicate Later()
      reads this, store`faults
    {
      && lookups == old(lookups) && old(Faults()) <= Faults() && Extends(setup, old(trace), trace)
      && |inbox| <= old(|inbox|) && old(now) <= now && (running ==> old(running))
      && Kept()
    }

    /** Transactions begun, and those that announcements still to come may begin. */
    ghost function Cost(): nat
      reads this`trace, this`inbox
    {
      trace.txnCount + 3 * Announced(Packets(inbox))
    }

    ghost predicate Room(k: nat)
      reads this`trace, this`inbox
    {
      RoomIn(trace.pending, trace.txnCount, trace.ahead, Announced(Packets(inbox)), k)
    }

    /** The packet at the head of the socket is not what the innermost transaction waits for. */
    ghost predicate Unclaimed()
      reads this`trace, this`inbox
    {
      && inbox != [] && inbox[0].input.Pkt?
      && (trace.pending != [] ==> !Answers(inbox[0].input.packet, trace.pending[|trace.pending| - 1]))
    }

    /** The transaction that waits for its reply now. */
    ghost function Innermost(): Pending
      requires trace.pending != []
      reads this`trace
    {
      trace.pending[|trace.pending| - 1]
    }

    ghost function AnnouncedSince(): nat
      reads this`trace, this`inbox
    {
      Since(trace.pending, trace.ahead, Announced(Packets(inbox)))
    }

    /** The packet at the head of the socket as the reply of the innermost transaction, or as something for the handler. */
    ghost function Taken(): (d: Disposition)
      requires inbox != [] && inbox[0].input.Pkt? && trace.pending != []
      reads this`trace, this`inbox
      ensures d.Accepted? && d.packet == inbox[0].input.packet && Waiting(d) == trace.pending && d.since == AnnouncedSince()
    {
      AcceptedBy(inbox[0].input.packet, trace.pending, AnnouncedSince())
    }

    ghost function Passed(): Disposition
      requires inbox != [] && inbox[0].input.Pkt?
      reads this`trace, this`inbox
    {
      Handled(inbox[0].input.packet, trace.pending, AnnouncedSince())
    }

    function Seconds(): u64
      reads this`now
    {
      (now / 1000) % TWO_64
    }

    /** A daemon about to start: the record on flash, if there is one, was written by an earlier run. */
    constructor (store: Store, inbox: seq<Arrival>, refreshInterval: int, pollInterval: nat, periodicGet: bool,
                 start: nat, ghost orderly: bool, ghost steady: bool, ghost future: seq<Arrival>,
                 ghost last: Reading, ghost origin: map<Record, Reading>)
      requires store.Valid() && !store.loaded
      requires orderly ==> Orderly(None, inbox)
      requires steady ==> Steady(last, inbox + future) && OriginOk(origin, store.versions, last)
      ensures Valid() && this.store == store && this.inbox == inbox && running && state == Discovering && !connected
      ensures setup == Setup(orderly, steady, refreshInterval > 0, Packets(inbox), future)
      ensures this.refreshInterval == refreshInterval && now == start
      ensures trace == Trace(true, false, false, None, last, [], [], 0, [], 0, {}, [], {}, [], last, origin)
    {
      this.store, this.inbox := store, inbox;
      this.refreshInterval, this.pollInterval, this.periodicGet := refreshInterval, pollInterval, periodicGet;
      running, modemNode, modemPort, connected, state := true, 0, 0, false, Discovering;
      nextTxnId, fails, verdictLogged := 1, 0, false;
      lastHandshake, lastUserRefresh, lastKeepalive, lastLookup := 0, 0, 0, 0;
      marker, now := *, start;
      failures, lookups := 0, 0;
      setup := Setup(orderly, steady, refreshInterval > 0, Packets(inbox), future);
      trace := Trace(true, false, false, None, last, [], [], 0, [], 0, {}, [], {}, [], last, origin);
      assert PacketsOf([]) + Packets(inbox) == Packets(inbox);
    }

    // ----- transactions -----

    /**
     `qmi_send_sync_transaction`.  Every packet taken while it waits is either its reply or handed
     to the handler; the reply, if there is one, comes from the port that was asked.
     */
    method Transact(node: u32, port: u32, request: RequestMsg, timeout: nat) returns (r: TxnResult)
      requires Valid() && Room(1)
      requires request.SetOffset? ==>
                 request.base == ATS_USER && trace.sent != [] && trace.sent[|trace.sent| - 1].offset == request.offset
      modifies this, store
      ensures Valid() && Later() && (old(Settled()) ==> Settled()) && Cost() <= old(Cost()) + 1
      ensures Outcome(trace.log, trace.answered, Pending(old(trace.txnCount), node, port, MessageId(request)), r)
      ensures r.Reply? && setup.orderly ==> trace.live == Some((node, port))
      ensures r.Reply? && trace.honest && request.GetOffset? && r.qmi.success ==>
                IsReadingOf(r.qmi, request.base, trace.last, old(now), now)
      ensures trace.txnCount > old(trace.txnCount) && Calm(old(Now()), Now(), trace.log, |old(trace.log)|)
      ensures old(trace.txnCount) < |trace.asked| && trace.asked[old(trace.txnCount)] == request
      ensures r.NoReply? ==> old(trace.txnCount) in trace.answered || now >= old(now) + timeout || !running || Faults() > old(Faults())
      decreases |inbox|, 3, 1
    {
      hide TraceOk, Extends, HeadOk, Settled, Cost, Now, Faults, IsReadingOf, Calm, Outcome, Store.Valid, Store.Saved, Store.Live,
        Announced, Packets, RoomIn;
      var msg := MessageId(request);
      var txnId := Begin(node, port, request);
      var sendOk := Send();
      r := NoReply;
      NoOutcome(trace.log, trace.answered, Innermost());
      CalmItself(Now(), trace.log, |trace.log|);
      if sendOk {
        r := Await(node, port, txnId, msg, now + timeout, request.base, old(now), old(trace));
      }
      Finish(old(trace));
    }

    /** qrtr_sendto */
    method Send() returns (ok: bool)
      modifies this`failures
      ensures Faults() == old(Faults()) + if ok then 0 else 1
    {
      ok := *;
      failures := failures + if ok then 0 else 1;
    }

    /** The waiting of `qmi_send_sync_transaction`, for the innermost transaction. */
    method Await(node: u32, port: u32, txnId: nat, msg: nat, deadline: nat, ghost base: int, ghost asked: int, ghost start: Trace)
      returns (r: TxnResult)
      requires Valid() && IsMine(node, port, txnId, msg) && Innermost().number !in trace.answered
      requires Extends(setup, start, trace) && start.txnCount <= Innermost().number < trace.txnCount
      modifies this, store
      ensures Valid() && Extends(setup, start, trace) && Kept() && (old(Settled()) ==> Settled()) && Cost() <= old(Cost())
      ensures |inbox| <= old(|inbox|) && old(now) <= now && (running ==> old(running)) && old(trace.txnCount) <= trace.txnCount
      ensures Calm(old(Now()), Now(), trace.log, |old(trace.log)|) && old(trace.asked) <= trace.asked && old(Faults()) <= Faults()
      ensures lookups == old(lookups)
      ensures r.NoReply? ==> old(Innermost()).number in trace.answered || now >= deadline || !running || Faults() > old(Faults())
      ensures Outcome(trace.log, trace.answered, old(Innermost()), r)
      ensures r.Reply? && setup.orderly ==> trace.live == Some((node, port))
      ensures r.Reply? && trace.honest && msg == GENOFF_GET && r.qmi.success ==>
                IsReadingOf(r.qmi, base, trace.last, asked, now)
      decreases |inbox|, 3, 0
    {
      hide TraceOk, Extends, HeadOk, Settled, Cost, Now, Faults, IsReadingOf, Outcome, Calm, Store.Valid, Store.Saved, Store.Live,
        Announced, Packets, AnswersTo;
      ghost var me := Innermost();
      CalmItself(Now(), trace.log, |trace.log|);
      r := NoReply;
      var waiting := true;
      while waiting && running
        invariant Valid() && (old(Settled()) ==> Settled()) && Kept() && Cost() <= old(Cost())
        invariant Extends(setup, start, trace) && |inbox| <= old(|inbox|) && old(now) <= now && (running ==> old(running))
        invariant Calm(old(Now()), Now(), trace.log, |old(trace.log)|) && old(trace.asked) <= trace.asked
        invariant lookups == old(lookups) && old(Faults()) <= Faults() && (waiting || Faults() > old(Faults()))
        invariant me.number < trace.txnCount && me.number !in trace.answered && old(trace.txnCount) <= trace.txnCount
        decreases |inbox|
      {
        if inbox == [] || inbox[0].at >= deadline || now >= deadline {
          now := Max(now, deadline);
          break;
        }
        now := Max(now, inbox[0].at);
        var input := inbox[0].input;
        if input.Pkt? {
          if AnswersTo(input.packet, node, port, txnId, msg) {
            r := TakeReply(base, asked, start, old(Now()), |old(trace.log)|);
            return;
          }
          HandOver(start, old(Now()), |old(trace.log)|);
        } else {
          Skip();
          waiting := !input.PollError?;
        }
      }
      NoOutcome(trace.log, trace.answered, me);
    }

    /** The reply is taken, and the wait is over. */
    method TakeReply(ghost base: int, ghost asked: int, ghost start: Trace, ghost first: View, ghost n: nat) returns (r: TxnResult)
      requires Valid() && inbox != [] && inbox[0].input.Pkt? && trace.pending != []
      requires Answers(inbox[0].input.packet, Innermost())
      requires start.txnCount <= Innermost().number < trace.txnCount && Innermost().number !in trace.answered
      requires Extends(setup, start, trace) && Calm(first, Now(), trace.log, n)
      modifies this`inbox, this`trace
      ensures Valid() && |inbox| < old(|inbox|) && (old(Settled()) ==> Settled()) && Kept() && Cost() <= old(Cost())
      ensures Extends(setup, start, trace) && Calm(first, Now(), trace.log, n) && trace.txnCount == old(trace.txnCount)
      ensures trace.asked == old(trace.asked) && Faults() == old(Faults())
      ensures r.NoReply? ==> old(Innermost()).number in trace.answered
      ensures Outcome(trace.log, trace.answered, old(Innermost()), r)
      ensures setup.orderly ==> trace.live == Some((old(Innermost()).node, old(Innermost()).port))
      ensures r.Reply? && trace.honest && old(Innermost()).msg == GENOFF_GET && r.qmi.success ==>
                IsReadingOf(r.qmi, base, trace.last, asked, now)
    {
      hide TraceOk, Extends, HeadOk, IsReadingOf, Outcome, Calm, Store.Valid, Store.Saved, Store.Live, Announced, Packets, AnswersTo,
        LiveAfter, LastAfter;
      CalmLonger(first, Now(), trace.log, Taken(), n);
      r := Accept(base, asked, start);
    }

    /** What is not the reply goes to the handler. */
    method HandOver(ghost start: Trace, ghost first: View, ghost n: nat)
      requires Valid() && Unclaimed() && Extends(setup, start, trace) && Calm(first, Now(), trace.log, n)
      modifies this, store
      ensures Valid() && |inbox| < old(|inbox|) && (old(Settled()) ==> Settled()) && Kept() && Cost() <= old(Cost())
      ensures Extends(setup, start, trace) && old(now) <= now && (running ==> old(running))
      ensures Calm(first, Now(), trace.log, n) && old(trace.txnCount) <= trace.txnCount
      ensures old(trace.asked) <= trace.asked && old(Faults()) <= Faults() && lookups == old(lookups)
      ensures forall k :: k in trace.answered ==> k in old(trace.answered) || k >= old(trace.txnCount)
      decreases |inbox|, 2
    {
      hide TraceOk, Extends, HeadOk, Calm, Store.Valid, Store.Saved, Store.Live, Announced, Packets, Answers;
      ghost var before, view := trace, Now();
      Handle();
      ExtendsTransitive(setup, start, before, trace);
      ExtendsMeans(setup, before, trace);
      CalmThen(first, view, Now(), before.log, trace.log, n);
    }

    ghost predicate IsMine(node: u32, port: u32, txnId: nat, msg: nat)
      reads this`trace
    {
      trace.pending != []
      && var me := Innermost();
         me.node == node && me.port == port && me.msg == msg && txnId == TxnId(me.number)
    }

    /** Something on the socket that is no packet. */
    method Skip()
      requires Valid() && inbox != [] && !inbox[0].input.Pkt?
      modifies this`inbox, this`running, this`failures
      ensures Faults() == old(Faults()) + if old(inbox[0].input.PollError?) then 1 else 0
      ensures Valid() && inbox == old(inbox)[1..] && running == (old(running) && !old(inbox)[0].input.Terminate?)
      ensures Cost() == old(Cost())
    {
      hide TraceOk, Store.Valid, Store.Saved, Store.Live;
      SkipIsOk(setup, trace, inbox, Link(), store.Saved(), store.versions);
      running := running && !inbox[0].input.Terminate?;
      failures := failures + if inbox[0].input.PollError? then 1 else 0;
      inbox := inbox[1..];
    }

    /** A fresh transaction id, and one more transaction waiting. */
    method Begin(node: u32, port: u32, request: RequestMsg) returns (txnId: nat)
      requires Valid() && Room(1)
      modifies this`nextTxnId, this`trace
      ensures Valid() && txnId == TxnId(old(trace.txnCount)) && Cost() == old(Cost()) + 1
      ensures Extends(setup, old(trace), trace) && old(trace.txnCount) !in trace.answered
      ensures Now() == old(Now()) && Settled() == old(Settled())
      ensures trace == Began(old(trace), node, port, request, Announced(Packets(inbox))) && old(|trace.asked|) == old(trace.txnCount)
    {
      hide TraceOk, Extends, Store.Valid, Store.Saved, Store.Live, Announced, Packets, RoomIn;
      BegunIsOk(setup, trace, inbox, Link(), store.Saved(), store.versions, node, port, request);
      txnId := nextTxnId;
      nextTxnId := (nextTxnId + 1) % 0x1_0000;
      if nextTxnId == 0 {
        nextTxnId := 1;
      }
      trace := Began(trace, node, port, request, Announced(Packets(inbox)));
    }

    /** The innermost transaction is over. */
    method Finish(ghost start: Trace)
      requires Valid() && Extends(setup, start, trace)
      modifies this`trace
      ensures Valid() && Extends(setup, start, trace) && trace == Ended(old(trace)) && Cost() == old(Cost())
      ensures Now() == old(Now()) && Settled() == old(Settled())
    {
      hide TraceOk, Extends, Store.Valid, Store.Saved, Store.Live, Announced, Packets;
      EndedIsOk(setup, start, trace, inbox, Link(), store.Saved(), store.versions);
      trace := Ended(trace);
    }

    /** The reply is taken; one that does not decode ends the transaction without a result. */
    method Accept(ghost base: int, ghost asked: int, ghost start: Trace) returns (r: TxnResult)
      requires Valid() && inbox != [] && inbox[0].input.Pkt? && trace.pending != []
      requires var me := Innermost();
               && Answers(inbox[0].input.packet, me) && start.txnCount <= me.number < trace.txnCount && me.number !in trace.answered
      requires Extends(setup, start, trace)
      modifies this`inbox, this`trace
      ensures Valid() && |inbox| <= old(|inbox|) && Extends(setup, start, trace) && Kept() && Cost() <= old(Cost())
      ensures trace.stray == old(trace.stray) && trace.markerFault == old(trace.markerFault) && trace.txnCount == old(trace.txnCount)
      ensures inbox == old(inbox)[1..] && Now() == old(Now())
      ensures var q := old(inbox[0].input.packet).qmi.value;
              && r == (if q.decodes then Reply(q) else NoReply)
              && trace.honest == (old(trace.honest) && KeepsToRequest(q, base, asked, now))
      ensures trace == Took(old(trace), old(Taken())).(honest := trace.honest)
      ensures var me := old(Innermost());
              && (setup.orderly ==> trace.live == Some((me.node, me.port)))
              && Outcome(trace.log, trace.answered, me, r)
              && (r.Reply? && trace.honest && me.msg == GENOFF_GET && r.qmi.success ==>
                    IsReadingOf(r.qmi, base, trace.last, asked, now))
    {
      hide TraceOk, Extends, Store.Valid, Store.Saved, Store.Live, Announced, Packets;
      var q := inbox[0].input.packet.qmi.value;
      Claim(start);
      r := NoReply;
      if q.decodes {
        ghost var honest := trace.honest && KeepsToRequest(q, base, asked, now);
        LessHonest(setup, start, trace, inbox, Link(), store.Saved(), store.versions, honest);
        trace := trace.(honest := honest);
        r := Reply(q);
      }
    }

    /** The packet leaves the socket for the innermost transaction. */
    method Claim(ghost start: Trace)
      requires Valid() && inbox != [] && inbox[0].input.Pkt? && trace.pending != []
      requires var me := Innermost();
               && Answers(inbox[0].input.packet, me) && start.txnCount <= me.number < trace.txnCount && me.number !in trace.answered
      requires Extends(setup, start, trace)
      modifies this`inbox, this`trace
      ensures Valid() && inbox == old(inbox)[1..] && Extends(setup, start, trace) && Cost() <= old(Cost())
      ensures trace == Took(old(trace), old(Taken()))
      ensures setup.orderly ==>
                trace.live == Some((old(Innermost()).node, old(Innermost()).port))
    {
      hide TraceOk, Extends, Store.Valid, Store.Saved, Store.Live, Announced, Packets, LiveAfter, LastAfter, AllowedWhen;
      ghost var d := Taken();
      ReplyKeepsServer(trace.live, d.packet);
      TookIsOk(setup, trace, d, inbox, Link(), Link(), store.Saved(), store.versions);
      AcceptedExtends(setup, start, trace, d);
      trace := Took(trace, d);
      inbox := inbox[1..];
    }

    /** `query_modem_ats_base`, with the reply behind the value */
    method Query(base: nat) returns (value: Option<u64>, ghost r: TxnResult)
      requires Valid() && Room(1)
      modifies this, store
      ensures Valid() && Later() && (old(Settled()) ==> Settled()) && Cost() <= old(Cost()) + 1
      ensures trace.txnCount > old(trace.txnCount)
      ensures old(trace.txnCount) < |trace.asked| && trace.asked[old(trace.txnCount)] == GetOffset(base)
      ensures Outcome(trace.log, trace.answered, Pending(old(trace.txnCount), old(modemNode), old(modemPort), GENOFF_GET), r)
      ensures r.NoReply? ==> old(trace.txnCount) in trace.answered || now >= old(now) + 3000 || !running || Faults() > old(Faults())
      ensures value == if r.Reply? && r.qmi.success then Some(r.qmi.offset) else None
      ensures value.Some? && trace.honest ==> IsReadingOf(r.qmi, base, trace.last, old(now), now)
      ensures Calm(old(Now()), Now(), trace.log, |old(trace.log)|)
      decreases |inbox|, 4
    {
      hide Valid, TraceOk, Extends, HeadOk, IsReadingOf, Calm, Outcome, Store.Valid, Store.Saved, Store.Live;
      var reply := Transact(modemNode, modemPort, GetOffset(base), QUERY_TIMEOUT_MS);
      r := reply;
      value := if reply.Reply? && reply.qmi.success then Some(reply.qmi.offset) else None;
    }

    // ----- the handshake -----

    /** `ats_state_log_boot_verdict`, with what stands behind the two readings. */
    method LogBootVerdict(rtcNow: u64, ghost boot: nat)
      requires Valid()
      requires trace.honest ==> trace.last == Reading(boot, rtcNow)
      modifies this`verdictLogged, this`trace
      ensures Valid() && Extends(setup, old(trace), trace)
      ensures Kept() && Cost() == old(Cost())
      ensures trace == old(trace).(reports := trace.reports)
      ensures Now() == Judged(old(Now()), rtcNow, Reading(boot, rtcNow))
    {
      hide TraceOk, Extends, BootVerdict, Store.Valid, Store.Saved, Store.Live;
      ExtendsItself(setup, trace);
      if !verdictLogged {
        verdictLogged := true;
        var verdict := BootVerdict(store.Saved(), rtcNow);
        VerdictIs(store.Saved(), rtcNow);
        if !verdict.Unknown? {
          ReportIsOk(setup, trace, inbox, Link(), store.Saved(), store.versions, rtcNow, boot);
          trace := trace.(reports := trace.reports + [BootReport(verdict, trace.stateReading, Reading(boot, rtcNow))]);
        }
      }
    }

    /** The two readings a handshake starts with. */
    method ReadBoth() returns (tod: Option<u64>, rtc: Option<u64>, ghost rd: Readings)
      requires Valid() && Room(2)
      modifies this, store
      ensures Valid() && Later() && (old(Settled()) ==> Settled()) && Cost() <= old(Cost()) + 2
      ensures ReadAs(trace, Pending(old(trace.txnCount), old(modemNode), old(modemPort), GENOFF_GET), rd)
      ensures tod == ValueOf(rd.tod) && rtc == ValueOf(rd.rtc)
      ensures tod.Some? && trace.honest ==> rd.tod.qmi.base == ATS_TOD && (rtc.Some? ==> rd.tod.qmi.taken <= rd.rtc.qmi.taken)
      ensures rtc.Some? && trace.honest ==> rd.rtc.qmi.taken <= now && trace.last == Reading(rd.rtc.qmi.boot, rtc.value)
      ensures Calm(old(Now()), Now(), trace.log, |old(trace.log)|)
      decreases |inbox|, 5
    {
      hide Valid, TraceOk, Extends, HeadOk, Outcome, ResultOf, Calm, Announced, Packets, Store.Valid, Store.Saved, Store.Live;
      ghost var first := Pending(trace.txnCount, modemNode, modemPort, GENOFF_GET);
      ghost var todReply, rtcReply;
      tod, todReply := Query(ATS_TOD);
      OutcomeIsResult(trace.log, trace.answered, first, todReply);
      ghost var middle, view, second := trace, Now(), Pending(trace.txnCount, modemNode, modemPort, GENOFF_GET);
      rtc, rtcReply := Query(ATS_RTC);
      OutcomeIsResult(trace.log, trace.answered, second, rtcReply);
      ResultStays(setup, middle, trace, first, todReply);
      ExtendsTransitive(setup, old(trace), middle, trace);
      ExtendsMeans(setup, middle, trace);
      CalmThen(old(Now()), view, Now(), middle.log, trace.log, |old(trace.log)|);
      rd := Readings(todReply, second, rtcReply);
    }

    /** When the values were taken; what was not read counts as taken now. */
    ghost function TakenAt(rd: Readings): Instants
      reads this`now
    {
      Instants(if ValueOf(rd.tod).Some? then rd.tod.qmi.taken else now, if ValueOf(rd.rtc).Some? then rd.rtc.qmi.taken else now, now)
    }

    /** The two readings, and the verdict they allow. */
    method ReadModem() returns (tod: Option<u64>, rtc: Option<u64>, ghost rd: Readings, ghost reading: Reading)
      requires Valid() && Room(2)
      modifies this, store
      ensures Valid() && Later() && (old(Settled()) ==> Settled()) && Cost() <= old(Cost()) + 2
      ensures ReadAs(trace, Pending(old(trace.txnCount), old(modemNode), old(modemPort), GENOFF_GET), rd)
      ensures tod == ValueOf(rd.tod) && rtc == ValueOf(rd.rtc)
      ensures trace.honest ==> InTurn(rd)
      ensures rtc.Some? ==> reading == Reading(rd.rtc.qmi.boot, rtc.value)
      ensures trace.honest ==> reading == trace.last
      ensures Calm(if rtc.Some? then Judged(old(Now()), rtc.value, reading) else old(Now()), Now(), trace.log, |old(trace.log)|)
      decreases |inbox|, 6
    {
      hide TraceOk, Extends, HeadOk, ReadAs, Calm, Judged, Announced, Packets, Store.Valid, Store.Saved, Store.Live;
      ghost var first := Pending(trace.txnCount, modemNode, modemPort, GENOFF_GET);
      tod, rtc, rd := ReadBoth();
      reading := trace.last;
      if rtc.Some? {
        ghost var before, view := trace, Now();
        reading := Reading(rd.rtc.qmi.boot, rtc.value);
        LogBootVerdict(rtc.value, rd.rtc.qmi.boot);
        ExtendsTransitive(setup, old(trace), before, trace);
        ReadAsStays(setup, before, trace, first, rd);
        CalmJudged(old(Now()), view, trace.log, |old(trace.log)|, rtc.value, reading);
      }
    }

    /** A TOD reading is one, and the values were taken in the order in which the code asks for them. */
    ghost predicate InTurn(rd: Readings)
      reads this`now
    {
      && (ValueOf(rd.tod).Some? ==> rd.tod.qmi.base == ATS_TOD && (ValueOf(rd.rtc).Some? ==> rd.tod.qmi.taken <= rd.rtc.qmi.taken))
      && (ValueOf(rd.rtc).Some? ==> rd.rtc.qmi.taken <= now)
    }

    /** `send_ats_user_transaction` */
    method SendAtsUser(isRefresh: bool) returns (ok: bool, ghost a: Option<Attempt>)
      requires Valid() && (isRefresh ==> refreshInterval > 0 && Settled()) && Room(3)
      modifies this, store
      ensures Valid() && Later() && (isRefresh ==> Settled()) && Cost() <= old(Cost()) + 3
      ensures a.Some? <==> old(connected) && old(modemPort) != 0
      ensures a.Some? ==> AttemptOk(trace, Pending(old(trace.txnCount), old(modemNode), old(modemPort), GENOFF_GET), a.value)
      ensures ok == (a.Some? && Confirms(a.value))
      ensures ok ==> (marker || trace.markerFault) && (RecordedFor(a.value, isRefresh) || Faults() > old(Faults()))
      ensures a.None? ==> trace == old(trace) && inbox == old(inbox) && Now() == old(Now())
      ensures Quiet(trace.log[|old(trace.log)|..], old(modemNode), old(modemPort)) ==> Unmoved(isRefresh)
      ensures ok && !isRefresh ==> setup.orderly ==> connected && modemPort != 0
      decreases |inbox|, 8
    {
      hide Valid, TraceOk, Extends, HeadOk, ReadAs, AttemptOk, ResultOf, SentOk, IsChosen, Quiet, Calm, CalmBase, Judged, DeriveOffset, Recorded,
        Faults, Store.Valid, Store.Saved, Store.Live;
      ExtendsItself(setup, trace);
      a := None;
      if !connected || modemPort == 0 {
        return false, a;
      }
      ghost var first := Pending(trace.txnCount, modemNode, modemPort, GENOFF_GET);
      var tod, rtc, rd, reading := ReadModem();
      JudgedBase(old(Now()), Now(), trace.log, |old(trace.log)|, rtc, reading);
      ghost var read, view := trace, Now();
      var wall: u64 := *;
      var derived := DeriveOffset(tod, rtc, wall, store.Saved());
      SourceIsChosen(tod, rtc, wall, store.Saved());
      if derived.None? {
        a := Some(Attempt(rd, wall, store.Saved(), None, rd.rtcTxn, NoReply));
        NothingAttempted(trace, first, a.value);
        BaseMeans(old(Now()).base, Now().base, trace.log, |old(trace.log)|);
        return false, a;
      }
      ghost var saved, x, r := store.Saved(), SentNow(derived.value.0, derived.value.1, tod, TodBase(rd), rtc, wall, TakenAt(rd)),
        NoReply;
      ghost var me := Pending(trace.txnCount, modemNode, modemPort, GENOFF_SET);
      ok, r := SetAndPersist(derived.value.0, derived.value.1, tod, rtc, wall, isRefresh, TodBase(rd), reading, TakenAt(rd));
      a := Some(Attempt(rd, wall, saved, Some(x), me, r));
      AttemptMade(setup, old(trace), read, trace, first, a.value);
      ExtendsMeans(setup, read, trace);
      BaseStays(old(Now()).base, view.base, Now().base, read.log, trace.log, |old(trace.log)|, isRefresh);
    }

    /** Server, failures and timers are as they were, and in a refresh the state. */
    twostate predicate Unmoved(isRefresh: bool)
      reads this
    {
      && Link() == old(Link()) && fails == old(fails) && lastHandshake == old(lastHandshake) && lastUserRefresh == old(lastUserRefresh)
      && lastKeepalive == old(lastKeepalive) && (isRefresh ==> state == old(state))
    }

    ghost function TodBase(rd: Readings): int {
      if rd.tod.Reply? then rd.tod.qmi.base else ATS_TOD
    }

    /**
     The offset is on record, after a handshake with the readings of that handshake, unless the record is switched off or its
     path is too long.
     */
    ghost predicate Recorded(offset: u64, rtc: u64, wall: u64, isRefresh: bool)
      reads store
    {
      || !store.enabled || store.pathLength + 5 > 288
      || (store.Saved().Some?
          && var r := store.Saved().value; r.offset == offset && (isRefresh || (r.base == 2 && r.rtc == rtc && r.wall == wall)))
    }

    /** What this attempt sent is on record; a reading that failed is recorded as 0. */
    ghost predicate RecordedFor(a: Attempt, isRefresh: bool)
      requires a.sent.Some?
      reads store
    {
      Recorded(a.sent.value.offset, if ValueOf(a.rd.rtc).Some? then ValueOf(a.rd.rtc).value else 0, a.wall, isRefresh)
    }

    /** The SET request, and what its success is written down in. */
    method SetAndPersist(source: Source, offset: u64, tod: Option<u64>, rtc: Option<u64>, wall: u64, isRefresh: bool,
                         ghost todBase: int, ghost reading: Reading, ghost at: Instants)
      returns (ok: bool, ghost r: TxnResult)
      requires Valid() && (isRefresh ==> refreshInterval > 0 && Settled()) && Room(1)
      requires DeriveOffset(tod, rtc, wall, store.Saved()) == Some((source, offset))
      requires (rtc.Some? ==> reading.uptime == rtc.value) && (trace.honest ==> reading == trace.last)
      requires tod.Some? && trace.honest ==> todBase == ATS_TOD && (rtc.Some? ==> at.tod <= at.rtc)
      requires rtc.Some? && trace.honest ==> at.rtc <= at.wall
      modifies this, store
      ensures Valid() && (isRefresh ==> Settled()) && Later() && Cost() <= old(Cost()) + 1
      ensures var x := old(SentNow(source, offset, tod, todBase, rtc, wall, at)); x in trace.sent && SentOk(x)
      ensures old(trace.txnCount) < |trace.asked| && trace.asked[old(trace.txnCount)] == SetOffset(ATS_USER, offset)
      ensures old(trace.txnCount) < trace.txnCount
      ensures ResultOf(trace.log, trace.answered, Pending(old(trace.txnCount), old(modemNode), old(modemPort), GENOFF_SET), r)
      ensures ok == (r.Reply? && r.qmi.success) && (ok ==> offset in trace.trusted)
      ensures ok ==> (marker || trace.markerFault)
                     && (Recorded(offset, if rtc.Some? then rtc.value else 0, wall, isRefresh) || Faults() > old(Faults()))
      ensures !ok && !isRefresh ==> state.Failed? && !marker
      ensures r.NoReply? ==> old(trace.txnCount) in trace.answered || now >= old(now) + 5000 || !running || Faults() > old(Faults())
      ensures !ok && isRefresh ==>
                Calm(old(Now()).(sent := old(trace.sent) + [old(SentNow(source, offset, tod, todBase, rtc, wall, at))]),
                     Now(), trace.log, |old(trace.log)|)
      ensures CalmBase(old(Now()).base.(state := if isRefresh then old(state) else state), Now().base, trace.log, |old(trace.log)|)
      ensures ok && !isRefresh ==> setup.orderly ==> connected && modemPort != 0
      decreases |inbox|, 7
    {
      hide Valid, TraceOk, Extends, HeadOk, Settled, Cost, Now, Faults, DeriveOffset, ResultOf, SentOk, Calm, CalmBase,
        Recorded, Consented,
        NotAfter, Store.Valid, Store.Saved, Store.Live, Announced, Packets, RoomIn;
      ghost var start, view := trace, Now();
      ghost var x := SentNow(source, offset, tod, todBase, rtc, wall, at);
      var reply := AskToSet(offset, x);
      r := reply;
      ghost var replied, now1, i := trace, Now(), IndexOf(trace.sent, x);
      ok := Resolve(reply, if rtc.Some? then rtc.value else 0, wall, offset, isRefresh, i, reading, start);
      ResultsSame(replied, trace, Pending(start.txnCount, old(modemNode), old(modemPort), GENOFF_SET), r);
      CalmBaseOf(view.(sent := start.sent + [x]), now1, trace.log, |start.log|);
      BaseWithState(view.base, now1.base, trace.log, |start.log|, isRefresh);
    }

    ghost function IndexOf(sent: seq<Sent>, x: Sent): (i: nat)
      requires x in sent
      ensures i < |sent| && sent[i] == x
    {
      var i :| 0 <= i < |sent| && sent[i] == x;
      i
    }

    lemma ResultsSame(a: Trace, b: Trace, me: Pending, r: TxnResult)
      requires ResultOf(a.log, a.answered, me, r) && b.log == a.log && b.answered == a.answered
      ensures ResultOf(b.log, b.answered, me, r)
    {
    }

    /** The SET request goes out, and its reply is waited for. */
    method AskToSet(offset: u64, ghost x: Sent) returns (r: TxnResult)
      requires Valid() && Room(1) && x.saved == store.Saved() && x.offset == offset
      requires DeriveOffset(x.tod, x.rtc, x.wall, x.saved) == Some((x.source, x.offset))
      requires x.tod.Some? && trace.honest ==> x.todBase == ATS_TOD && (x.rtc.Some? ==> x.at.tod <= x.at.rtc)
      requires x.rtc.Some? && trace.honest ==> x.at.rtc <= x.at.wall
      modifies this, store
      ensures Valid() && (old(Settled()) ==> Settled()) && Later() && Cost() <= old(Cost()) + 1
      ensures x in trace.sent && SentOk(x)
      ensures old(trace.txnCount) < |trace.asked| && trace.asked[old(trace.txnCount)] == SetOffset(ATS_USER, offset)
      ensures old(trace.txnCount) < trace.txnCount
      ensures ResultOf(trace.log, trace.answered, Pending(old(trace.txnCount), old(modemNode), old(modemPort), GENOFF_SET), r)
      ensures r.NoReply? ==> old(trace.txnCount) in trace.answered || now >= old(now) + 5000 || !running || Faults() > old(Faults())
      ensures r.Reply? && r.qmi.success ==> Consented(trace.log) && (setup.orderly ==> trace.live.Some?)
      ensures (setup.steady ==> NotAfter(old(trace.last), trace.last)) && (trace.honest ==> old(trace.honest))
      ensures Calm(old(Now()).(sent := old(trace.sent) + [x]), Now(), trace.log, |old(trace.log)|)
      decreases |inbox|, 6
    {
      hide Valid, TraceOk, Extends, HeadOk, Settled, Cost, Now, Faults, DeriveOffset, Outcome, ResultOf, SentOk, Calm,
        Consented, Store.Valid,
        Store.Saved, Store.Live, Announced, Packets, RoomIn;
      ExtendsItself(setup, trace);
      NoteSent(x, trace);
      ghost var noted, me := trace, Pending(trace.txnCount, modemNode, modemPort, GENOFF_SET);
      r := Transact(modemNode, modemPort, SetOffset(ATS_USER, offset), SYNC_TIMEOUT_MS);
      OutcomeIsResult(trace.log, trace.answered, me, r);
      SetIsOver(setup, old(trace), noted, trace, me, r);
      AskedSoFar();
      assert x == noted.sent[|noted.sent| - 1];
    }

    ghost function SentNow(source: Source, offset: u64, tod: Option<u64>, todBase: int, rtc: Option<u64>, wall: u64, at: Instants): Sent
      reads store
    {
      Sent(source, offset, tod, todBase, rtc, wall, store.Saved(), at)
    }

    /** The offset goes on the wire. */
    ghost method NoteSent(x: Sent, start: Trace)
      requires Valid() && Extends(setup, start, trace) && x.saved == store.Saved()
      requires DeriveOffset(x.tod, x.rtc, x.wall, x.saved) == Some((x.source, x.offset))
      requires x.tod.Some? && trace.honest ==> x.todBase == ATS_TOD && (x.rtc.Some? ==> x.at.tod <= x.at.rtc)
      requires x.rtc.Some? && trace.honest ==> x.at.rtc <= x.at.wall
      modifies this`trace
      ensures Valid() && Extends(setup, start, trace) && trace == old(trace).(sent := old(trace.sent) + [x])
      ensures Now() == old(Now()).(sent := old(trace.sent) + [x]) && Settled() == old(Settled()) && Cost() == old(Cost())
    {
      hide TraceOk, Extends, Store.Valid, Store.Saved, Store.Live;
      SentIsOk(setup, trace, inbox, Link(), store.Saved(), store.versions, x);
      ExtendsTransitive(setup, start, trace, trace.(sent := trace.sent + [x]));
      trace := trace.(sent := trace.sent + [x]);
    }

    /** What the reply to the SET request means: consent, or the end of synchronisation unless this is a refresh. */
    method Resolve(r: TxnResult, rtc: u64, wall: u64, offset: u64, isRefresh: bool, ghost i: nat, ghost reading: Reading,
                   ghost start: Trace) returns (ok: bool)
      requires Valid() && (isRefresh ==> refreshInterval > 0 && Settled()) && Extends(setup, start, trace)
      requires i < |trace.sent| && trace.sent[i].offset == offset
      requires r.Reply? && r.qmi.success ==> Consented(trace.log) && (setup.orderly ==> trace.live.Some?)
      requires setup.steady && trace.honest ==> NotAfter(reading, trace.last) && (rtc != 0 ==> reading.uptime == rtc)
      modifies store, this`marker, this`trace, this`state
      ensures ok == (r.Reply? && r.qmi.success) && (ok ==> offset in trace.trusted) && SameLog()
      ensures !ok && isRefresh ==> Now() == old(Now())
      ensures old(Faults()) <= Faults() && Now().base == old(Now()).base.(state := if isRefresh then old(state) else state)
      ensures Cost() == old(Cost())
      ensures Valid() && (isRefresh ==> Settled()) && Extends(setup, start, trace) && Kept() && trace.txnCount == old(trace.txnCount)
      ensures ok ==> (marker || trace.markerFault) && (Recorded(offset, rtc, wall, isRefresh) || Faults() > old(Faults()))
      ensures ok && !isRefresh ==> setup.orderly ==> connected && modemPort != 0
      ensures !ok && !isRefresh ==> state.Failed? && !marker && Settled()
    {
      hide TraceOk, Extends, HeadOk, Consented, NotAfter, Store.Valid, Store.Saved, Store.Live;
      ok := r.Reply? && r.qmi.success;
      if ok {
        Conclude(rtc, wall, offset, isRefresh, reading, start);
      } else if !isRefresh {
        Fail(start);
      }
    }

    /** What a confirmed offset leaves behind: the marker and the record. */
    method Conclude(rtc: u64, wall: u64, offset: u64, isRefresh: bool, ghost reading: Reading, ghost start: Trace)
      requires Valid() && (isRefresh ==> refreshInterval > 0 && Settled()) && Extends(setup, start, trace)
      requires setup.steady && trace.honest ==> NotAfter(reading, trace.last) && (rtc != 0 ==> reading.uptime == rtc)
      requires Consented(trace.log) && exists i :: 0 <= i < |trace.sent| && trace.sent[i].offset == offset
      modifies store, this`marker, this`trace
      ensures Valid() && (isRefresh ==> Settled()) && Extends(setup, start, trace) && (marker || trace.markerFault)
      ensures Kept() && trace.txnCount == old(trace.txnCount) && SameLog() && offset in trace.trusted
      ensures KeptRecord(rtc, wall, offset, isRefresh)
      ensures setup.orderly && old(trace.live).Some? ==> connected && modemPort != 0
    {
      hide TraceOk, Extends, HeadOk, Store.Valid, Store.Saved, Store.Live;
      if setup.orderly {
        LinkIsLive(setup, trace, inbox, Link(), store.Saved(), store.versions);
      }
      WriteMarker(isRefresh, start);
      Persist(rtc, wall, offset, isRefresh, reading, start);
    }

    /** The marker file is opened and written; where that fails it stays as it was. */
    method WriteMarker(isRefresh: bool, ghost start: Trace)
      requires Valid() && (isRefresh ==> refreshInterval > 0 && Settled()) && Extends(setup, start, trace)
      modifies this`marker, this`trace
      ensures Valid() && (isRefresh ==> Settled()) && Extends(setup, start, trace)
      ensures marker || trace.markerFault
      ensures trace == old(trace).(stray := trace.stray, markerFault := trace.markerFault)
      ensures !isRefresh ==> trace.stray == old(trace.stray)
    {
      hide TraceOk, Extends, Store.Valid, Store.Saved, Store.Live;
      var openOk: bool := *;
      ghost var stray := if openOk && isRefresh then !state.Synchronized? else trace.stray;
      MarkedIsOk(setup, start, trace, inbox, Link(), store.Saved(), store.versions, stray, !openOk);
      marker := marker || openOk;
      trace := trace.(stray := stray, markerFault := trace.markerFault || !openOk);
    }

    /** The record is kept for an offset that was sent and that the modem has confirmed. */
    method Persist(rtc: u64, wall: u64, offset: u64, isRefresh: bool, ghost reading: Reading, ghost start: Trace)
      requires Valid() && Extends(setup, start, trace)
      requires setup.steady && trace.honest ==> NotAfter(reading, trace.last) && (rtc != 0 ==> reading.uptime == rtc)
      requires Consented(trace.log) && exists i :: 0 <= i < |trace.sent| && trace.sent[i].offset == offset
      modifies store, this`trace
      ensures Valid() && Extends(setup, start, trace)
      ensures trace.live == old(trace.live) && trace.stray == old(trace.stray) && trace.markerFault == old(trace.markerFault)
      ensures Kept() && trace.txnCount == old(trace.txnCount) && SameLog() && offset in trace.trusted
      ensures KeptRecord(rtc, wall, offset, isRefresh)
    {
      hide TraceOk, Extends, Confirmed, Store.Valid, Store.Live;
      ghost var before, savedBefore, versionsBefore := trace, store.Saved(), store.versions;
      var saved := store.NoteHandshake(rtc, wall, offset, isRefresh);
      ghost var kept := if saved then Some(store.state) else None;
      trace := Confirmed(trace, offset, reading, kept);
      ConfirmedIsOk(setup, start, before, inbox, Link(), savedBefore, versionsBefore, store.Saved(), store.versions,
                    offset, rtc, reading, kept);
    }

    /** unlink(SYNC_MARKER_FILE) */
    method RemoveMarker(ghost start: Trace)
      requires Valid() && Extends(setup, start, trace)
      modifies this`marker, this`trace
      ensures Valid() && Extends(setup, start, trace) && !marker && trace == old(trace).(stray := false) && Cost() == old(Cost())
    {
      hide TraceOk, Extends, Store.Valid, Store.Saved, Store.Live;
      NotStray(setup, start, trace, inbox, Link(), store.Saved(), store.versions);
      marker := false;
      trace := trace.(stray := false);
    }

    /**
     `run_handshake_state_machine`: whatever happened in between, it leaves a settled daemon, synchronised exactly if the modem
     has confirmed the offset that follows from what it was asked.
     */
    method Handshake() returns (ok: bool, ghost a: Option<Attempt>)
      requires Valid() && Room(3)
      modifies this, store
      ensures Valid() && Later() && Settled() && Cost() <= old(Cost()) + 3
      ensures a.Some? <==> old(connected) && old(modemPort) != 0
      ensures a.Some? ==> AttemptOk(trace, Pending(old(trace.txnCount), old(modemNode), old(modemPort), GENOFF_GET), a.value)
      ensures ok == (a.Some? && Confirms(a.value))
      ensures ok ==> RecordedFor(a.value, false) || Faults() > old(Faults())
      ensures if ok then state.Synchronized? && fails == 0 && lastUserRefresh == lastKeepalive == Seconds()
              else state.Failed? && !marker
      ensures Quiet(trace.log[|old(trace.log)|..], old(modemNode), old(modemPort)) ==>
                lastHandshake == old(Seconds()) && Link() == old(Link()) && (!ok ==> fails == old(fails))
      decreases |inbox|, 9
    {
      hide Valid, TraceOk, Extends, HeadOk, Settled, Cost, Now, Faults, AttemptOk, RecordedFor, Confirms, Quiet,
        Store.Valid, Store.Saved, Store.Live;
      state := Syncing;
      lastHandshake := Seconds();
      ok, a := SendAtsUser(false);
      EndHandshake(ok, Pending(old(trace.txnCount), old(modemNode), old(modemPort), GENOFF_GET), a, old(trace));
    }

    /** The state that follows from an attempt. */
    method EndHandshake(ok: bool, ghost first: Pending, ghost a: Option<Attempt>, ghost start: Trace)
      requires Valid() && Extends(setup, start, trace) && (a.Some? ==> AttemptOk(trace, first, a.value))
      requires ok ==> (marker || trace.markerFault) && (setup.orderly ==> connected && modemPort != 0)
      modifies this`state, this`marker, this`fails, this`lastUserRefresh, this`lastKeepalive, this`trace
      ensures Valid() && Extends(setup, start, trace) && Settled() && Kept() && SameLog() && Cost() == old(Cost())
      ensures a.Some? ==> AttemptOk(trace, first, a.value)
      ensures if ok then state.Synchronized? && fails == 0 && lastUserRefresh == lastKeepalive == Seconds()
              else state.Failed? && !marker && fails == old(fails)
    {
      hide TraceOk, Extends, HeadOk, Cost, AttemptOk, Store.Valid, Store.Saved, Store.Live;
      ghost var before := trace;
      ExtendsItself(setup, trace);
      if ok {
        Synchronize(before);
      } else {
        Fail(before);
      }
      ExtendsTransitive(setup, start, before, trace);
      if a.Some? {
        AttemptStays(setup, before, trace, first, a.value);
      }
    }

    /** A confirmed handshake ends. */
    method Synchronize(ghost start: Trace)
      requires Valid() && Extends(setup, start, trace)
      requires (marker || trace.markerFault) && (setup.orderly ==> connected && modemPort != 0)
      modifies this`state, this`fails, this`lastUserRefresh, this`lastKeepalive, this`trace
      ensures Valid() && Extends(setup, start, trace) && Settled() && state.Synchronized? && fails == 0
      ensures lastUserRefresh == lastKeepalive == Seconds()
      ensures Kept() && trace.txnCount == old(trace.txnCount) && SameLog() && Cost() == old(Cost())
    {
      hide TraceOk, Extends, Store.Valid, Store.Saved, Store.Live;
      NotStray(setup, start, trace, inbox, Link(), store.Saved(), store.versions);
      state, fails, trace := Synchronized, 0, trace.(stray := false);
      lastUserRefresh, lastKeepalive := Seconds(), Seconds();
    }

    /** Synchronisation is revoked. */
    method Fail(ghost start: Trace)
      requires Valid() && Extends(setup, start, trace)
      modifies this`state, this`marker, this`trace
      ensures Valid() && Extends(setup, start, trace) && Settled() && state.Failed? && !marker
      ensures Kept() && trace.txnCount == old(trace.txnCount) && SameLog() && Cost() == old(Cost())
    {
      hide TraceOk, Extends, Store.Valid, Store.Saved, Store.Live;
      state := Failed;
      RemoveMarker(start);
    }

    // ----- the handler -----

    /** An offset has been derived for the server from what transaction n and a later one read, sent, and confirmed or not. */
    ghost predicate Attempted(n: nat, node: u32, port: u32, confirmed: bool)
      reads this`trace
    {
      exists a :: AttemptOk(trace, Pending(n, node, port, GENOFF_GET), a) && confirmed == Confirms(a)
    }

    /** What an announcement leads to: a handshake with the server announced, and the state that follows from it. */
    ghost predicate Greeted(n: nat, node: u32, port: u32)
      reads this`trace, this`state, this`marker
    {
      && (state.Synchronized? || (state.Failed? && !marker))
      && (if port != 0 then Attempted(n, node, port, state.Synchronized?) else state.Failed?)
    }

    /** `handle_qrtr_packet` on the packet at the head of the socket. */
    method Handle()
      requires Valid() && Unclaimed()
      modifies this, store
      ensures Valid() && Later() && |inbox| < old(|inbox|) && (old(Settled()) ==> Settled()) && Cost() <= old(Cost())
      ensures |trace.log| > |old(trace.log)| && trace.log[|old(trace.log)|] == old(Passed())
      ensures var p := old(inbox[0].input.packet);
              && (old(Withdraws(p)) ==> Withdrawn())
              && (IsAnnouncement(p) && !old(SaidAgain(p)) ==> Settled() && Greeted(old(trace.txnCount), p.node, p.port))
              && ((!IsAnnouncement(p) && !old(Withdraws(p))) || old(SaidAgain(p)) ==>
                    Now() == old(Now()) && trace == Took(old(trace), old(Passed())) && inbox == old(inbox)[1..])
      ensures Calm(old(Now()), Now(), trace.log, |old(trace.log)|)
      decreases |inbox|, 1
    {
      hide TraceOk, Calm, Extends, Greeted, Store.Valid, Store.Saved, Store.Live, Announced, Packets, Answers;
      var p := inbox[0].input.packet;
      ghost var n := |trace.log|;
      if IsAnnouncement(p) {
        HandleNewServer();
        DisturbedAt(old(Now()), Now(), trace.log, n);
      } else if Withdraws(p) {
        HandleDelServer();
        DisturbedAt(old(Now()), Now(), trace.log, n);
      } else {
        // other services and servers, indications (logged only), stale responses, control packets
        if setup.orderly {
          LinkIsLive(setup, trace, inbox, Link(), store.Saved(), store.versions);
        }
        TakePacket();
        CalmItself(Now(), trace.log, n);
      }
    }

    /** Nothing is left of the server that was in use. */
    ghost predicate Withdrawn()
      reads this
    {
      && state == Discovering && !connected && modemPort == 0 && !marker && !verdictLogged && Settled()
      && lastHandshake == 0 && lastLookup == 0
    }

    /** The server in use is announced again, in words of its own: within three seconds of the last handshake. */
    predicate SaidAgain(p: Packet)
      reads this`state, this`connected, this`modemNode, this`modemPort, this`now, this`lastHandshake
    {
      && p.NewServer? && p.service == 22 && state == Synchronized && Link() == Some((p.node, p.port))
      && Sub64((now / 1000) % TWO_64, lastHandshake) < 3
    }

    predicate Withdraws(p: Packet)
      reads this`modemNode, this`modemPort
    {
      p.DelServer? && p.node == modemNode && p.port == modemPort
    }

    /** The server in use, announced again within three seconds of the last handshake. */
    predicate Repeats(p: Packet)
      reads this`state, this`connected, this`modemNode, this`modemPort, this`now, this`lastHandshake
    {
      && IsAnnouncement(p) && connected && state.Synchronized? && modemNode == p.node && modemPort == p.port
      && Sub64(Seconds(), lastHandshake) < 3
    }

    /** A new TIME server: the handshake runs, unless this is a repetition within three seconds of the last one. */
    method HandleNewServer()
      requires Valid() && Unclaimed() && IsAnnouncement(inbox[0].input.packet)
      modifies this, store
      ensures Valid() && Later() && |inbox| < old(|inbox|) && (old(Settled()) ==> Settled()) && Cost() <= old(Cost())
      ensures |trace.log| > |old(trace.log)| && trace.log[|old(trace.log)|] == old(Passed())
      ensures if old(SaidAgain(inbox[0].input.packet))
              then Now() == old(Now()) && trace == Took(old(trace), old(Passed())) && inbox == old(inbox)[1..]
              else Settled() && Greeted(old(trace.txnCount), old(inbox[0].input.packet.node), old(inbox[0].input.packet.port))
      decreases |inbox|, 0
    {
      hide TraceOk, Extends, HeadOk, AttemptOk, Confirms, RecordedFor, Quiet, Store.Valid, Store.Saved, Store.Live,
        Announced, Packets, Answers, RoomIn;
      var p := inbox[0].input.packet;
      if Repeats(p) {
        TakePacket();
      } else {
        ghost var before := trace;
        Connect();
        ghost var taken := trace;
        ghost var a;
        var ok;
        ok, a := Handshake();
        assert a.Some? ==> Attempted(taken.txnCount, p.node, p.port, ok);
        ExtendsTransitive(setup, before, taken, trace);
        ExtendsMeans(setup, taken, trace);
      }
    }

    /** The packet leaves the socket for the handler and changes nothing else. */
    method TakePacket()
      requires Valid() && Unclaimed()
      requires setup.orderly && AllowedWhen(Link(), inbox[0].input.packet) ==> LiveAfter(Link(), inbox[0].input.packet) == Link()
      modifies this`inbox, this`trace
      ensures Valid() && Later() && inbox == old(inbox)[1..] && Cost() <= old(Cost())
      ensures trace == Took(old(trace), old(Passed()))
    {
      hide TraceOk, Extends, DirectoryOk, VersionsOk, LiveAfter, AllowedWhen, Announced, Packets, Answers;
      ghost var d := Passed();
      TookIsOk(setup, trace, d, inbox, Link(), Link(), store.Saved(), store.versions);
      HandledExtends(setup, trace, d);
      trace := Took(trace, d);
      inbox := inbox[1..];
    }

    /** The announced server becomes the one to talk to; its handshake may begin three transactions. */
    method Connect()
      requires Valid() && Unclaimed() && IsAnnouncement(inbox[0].input.packet)
      modifies this`inbox, this`trace, this`modemNode, this`modemPort, this`connected
      ensures Valid() && Later() && inbox == old(inbox)[1..] && Cost() + 3 == old(Cost()) && Room(3)
      ensures Link() == Some((old(inbox[0].input.packet.node), old(inbox[0].input.packet.port)))
      ensures trace == Took(old(trace), old(Passed()))
    {
      hide TraceOk, Extends, Store.Valid, Store.Saved, Store.Live, Announced, Packets, Answers;
      var p := inbox[0].input.packet;
      ghost var d := Passed();
      RoomMeans(setup, trace, inbox, Link(), store.Saved(), store.versions);
      TookIsOk(setup, trace, d, inbox, Link(), Some((p.node, p.port)), store.Saved(), store.versions);
      HandledExtends(setup, trace, d);
      trace := Took(trace, d);
      inbox := inbox[1..];
      modemNode, modemPort, connected := p.node, p.port, true;
    }

    /** The server is gone: the state machine starts over, and the next handshake may report a restart again. */
    method HandleDelServer()
      requires Valid() && Unclaimed() && inbox[0].input == Pkt(DelServer(modemNode, modemPort))
      modifies this
      ensures Valid() && Later() && |inbox| < old(|inbox|) && Settled() && Cost() <= old(Cost())
      ensures Withdrawn() && inbox == old(inbox)[1..]
      ensures trace == Took(old(trace), old(Passed())).(stray := false)
    {
      hide Valid, TraceOk, Extends, Faults, Took, Passed, Cost, Store.Valid, Store.Saved, Store.Live, Announced, Packets, Answers;
      Disconnect();
      state := Discovering;
      lastHandshake, lastLookup, verdictLogged := 0, 0, false;
      RemoveMarker(old(trace));
    }

    method Disconnect()
      requires Valid() && Unclaimed() && inbox[0].input == Pkt(DelServer(modemNode, modemPort))
      modifies this`inbox, this`trace, this`modemPort, this`connected
      ensures Valid() && Extends(setup, old(trace), trace) && inbox == old(inbox)[1..] && !connected && modemPort == 0
      ensures Kept() && Cost() <= old(Cost()) && trace == Took(old(trace), old(Passed()))
    {
      hide TraceOk, Extends, Store.Valid, Store.Saved, Store.Live, Announced, Packets, Answers;
      ghost var d := Passed();
      TookIsOk(setup, trace, d, inbox, Link(), None, store.Saved(), store.versions);
      HandledExtends(setup, trace, d);
      trace := Took(trace, d);
      inbox := inbox[1..];
      connected, modemPort := false, 0;
    }

    // ----- the main loop -----

    /** `validate_periodic_time_get` */
    method Validate() returns (ok: bool, ghost r: TxnResult)
      requires Valid() && Settled() && trace.pending == []
      modifies this, store
      ensures Valid() && Later() && Settled()
      ensures if old(connected && modemPort != 0 && state.Synchronized?)
              then && old(trace.txnCount) < |trace.asked| && trace.asked[old(trace.txnCount)] == GetOffset(ATS_TOD)
                   && ok == (r.Reply? && r.qmi.success) && trace.txnCount > old(trace.txnCount)
                   && ResultOf(trace.log, trace.answered, Pending(old(trace.txnCount), old(modemNode), old(modemPort), GENOFF_GET), r)
                   && (ok ==> fails == 0)
                   && (!ok ==> fails > 0 && (fails >= 3 ==> state.Failed? && !marker))
                   && (Quiet(trace.log[|old(trace.log)|..], old(modemNode), old(modemPort)) ==>
                         && fails == (if ok then 0 else old(fails) + 1)
                         && (if fails >= 3 then state.Failed? else state.Synchronized? && marker == old(marker))
                         && Link() == old(Link()))
              else !ok && trace == old(trace) && inbox == old(inbox) && Now() == old(Now())
    {
      hide Valid, TraceOk, Extends, Outcome, ResultOf, Quiet, Cost, Faults, IsReadingOf, Store.Valid, Store.Saved, Store.Live;
      ExtendsItself(setup, trace);
      ok, r := false, NoReply;
      if connected && modemPort != 0 && state.Synchronized? {
        var reply := Transact(modemNode, modemPort, GetOffset(ATS_TOD), QUERY_TIMEOUT_MS);
        r := reply;
        OutcomeIsResult(trace.log, trace.answered, Pending(old(trace.txnCount), old(modemNode), old(modemPort), GENOFF_GET), r);
        ok := reply.Reply? && reply.qmi.success;
        fails := if ok then 0 else fails + 1;
        if !ok && fails >= 3 {
          Fail(old(trace));
        }
      }
    }

    /**
     `log_modem_uptime`: two readings that change nothing themselves.  What the daemon has decided stays as it is unless a
     TIME server is announced, or the one in use withdrawn, while it waits.
     */
    method LogModemUptime()
      requires Valid() && Settled() && trace.pending == []
      modifies this, store
      ensures Valid() && Later() && Settled() && trace.txnCount >= old(trace.txnCount) + 2
      ensures Calm(old(Now()), Now(), trace.log, |old(trace.log)|)
      ensures |trace.asked| > old(trace.txnCount) && trace.asked[old(trace.txnCount)] == GetOffset(ATS_RTC)
      ensures exists n :: old(trace.txnCount) < n < |trace.asked| && trace.asked[n] == GetOffset(ATS_TOD)
    {
      hide Valid, TraceOk, Extends, HeadOk, Calm, Store.Valid, Store.Saved, Store.Live;
      var rtc, rtcReply := Query(ATS_RTC);
      ghost var middle, view := trace, Now();
      var tod, todReply := Query(ATS_TOD);
      ExtendsTransitive(setup, old(trace), middle, trace);
      ExtendsMeans(setup, middle, trace);
      CalmThen(old(Now()), view, Now(), middle.log, trace.log, |old(trace.log)|);
      assert trace.asked[middle.txnCount] == GetOffset(ATS_TOD);
    }

    predicate RetryDue(t: u64)
      reads this`connected, this`state, this`lastHandshake
    {
      connected && !state.Synchronized? && Due(t, lastHandshake, HANDSHAKE_RETRY_INTERVAL_SEC)
    }

    predicate RefreshDue(t: u64)
      reads this`connected, this`state, this`lastUserRefresh
    {
      refreshInterval > 0 && connected && state.Synchronized? && Due(t, lastUserRefresh, refreshInterval)
    }

    predicate TelemetryDue(t: u64)
      reads this`connected, this`state, this`lastKeepalive
    {
      periodicGet && connected && state.Synchronized? && Due(t, lastKeepalive, pollInterval)
    }

    /** A handshake failed, or was never made, and five seconds have passed since the last. */
    predicate MustRetry()
      reads this
    {
      connected && modemPort != 0 && state != Synchronized && Sub64(Seconds(), lastHandshake) >= 5
    }

    predicate MustRefresh()
      reads this
    {
      && refreshInterval > 0 && connected && modemPort != 0 && state == Synchronized
      && Sub64(Seconds(), lastUserRefresh) >= refreshInterval
    }

    predicate MustValidate()
      reads this
    {
      periodicGet && connected && modemPort != 0 && state == Synchronized && Sub64(Seconds(), lastKeepalive) >= pollInterval
    }

    /** What the main loop does before it polls; all timers are compared with the time at its start. */
    method Housekeeping()
      requires Valid() && Settled() && trace.pending == []
      modifies this, store
      ensures Valid() && Extends(setup, old(trace), trace) && old(now) <= now && |inbox| <= old(|inbox|) && (running ==> old(running))
      ensures Kept() && Settled()
      ensures old(MustRetry()) || old(MustRefresh()) ==> Tried(old(trace.txnCount), old(modemNode), old(modemPort))
      ensures old(MustValidate()) && !old(MustRefresh()) ==>
                trace.txnCount >= old(trace.txnCount) + 3 && lastKeepalive == old(Seconds())
      ensures old(MustRetry()) || old(MustRefresh()) || old(MustValidate()) ==>
                old(trace.txnCount) < |trace.asked| && trace.asked[old(trace.txnCount)] == GetOffset(ATS_TOD)
      ensures lookups == old(lookups) + if old(state).Discovering? && Sub64(old(Seconds()), old(lastLookup)) >= 5 then 1 else 0
      ensures !old(RetryDue(Seconds())) && !old(RefreshDue(Seconds())) && !old(TelemetryDue(Seconds())) ==>
                trace == old(trace) && inbox == old(inbox) && state == old(state) && marker == old(marker)
    {
      hide Valid, TraceOk, Extends, HeadOk, Settled, Cost, Faults, AttemptOk, Store.Valid, Store.Saved, Store.Live;
      var t := Seconds();
      if state.Discovering? && Sub64(t, lastLookup) >= 5 {
        Lookup(t);
      }
      Align(t);
      ghost var third := trace;
      if TelemetryDue(t) {
        Telemetry();
        lastKeepalive := t;
        Onwards(old(trace), third);
      }
    }

    /** The retry, and the refresh. */
    method Align(t: u64)
      requires Valid() && Settled() && trace.pending == [] && t == Seconds()
      modifies this, store
      ensures Valid() && Later() && Settled()
      ensures old(MustRetry()) || old(MustRefresh()) ==> Tried(old(trace.txnCount), old(modemNode), old(modemPort))
                                                          && StartsWithTod(old(trace.txnCount))
      ensures !old(RetryDue(t)) && !old(RefreshDue(t)) ==>
                trace == old(trace) && inbox == old(inbox) && Now() == old(Now()) && now == old(now)
    {
      hide Valid, TraceOk, Extends, HeadOk, Settled, Cost, Faults, AttemptOk, Store.Valid, Store.Saved, Store.Live;
      RetryHandshake(t);
      ghost var second := trace;
      Refresh(t);
      Onwards(old(trace), second);
    }

    /** qrtr_new_lookup, once more while no server is known. */
    method Lookup(t: u64)
      modifies this`lastLookup, this`lookups
      ensures lastLookup == t && lookups == old(lookups) + 1
    {
      lastLookup := t;
      lookups := lookups + 1;
    }

    /** An offset has been derived from what transaction n and a later one read, whatever came of it. */
    ghost predicate Tried(n: nat, node: u32, port: u32)
      reads this`trace
    {
      exists a :: AttemptOk(trace, Pending(n, node, port, GENOFF_GET), a)
    }

    /** What was true of the run at an earlier time is true of it now. */
    lemma Onwards(start: Trace, middle: Trace)
      requires Extends(setup, start, middle) && Extends(setup, middle, trace)
      ensures Extends(setup, start, trace) && middle.asked <= trace.asked && middle.txnCount <= trace.txnCount
      ensures forall first, a :: AttemptOk(middle, first, a) ==> AttemptOk(trace, first, a)
    {
      hide AttemptOk;
      ExtendsTransitive(setup, start, middle, trace);
      ExtendsMeans(setup, middle, trace);
      forall first, a | AttemptOk(middle, first, a) ensures AttemptOk(trace, first, a) {
        AttemptStays(setup, middle, trace, first, a);
      }
    }

    /** A retry that succeeds sets the other timers to the time at its end, which may be later than t. */
    method RetryHandshake(t: u64)
      requires Valid() && Settled() && trace.pending == []
      modifies this, store
      ensures Valid() && Later() && Settled() && lookups == old(lookups)
      ensures old(RetryDue(t)) && old(modemPort) != 0 ==> StartsWithTod(old(trace.txnCount))
                                                          && Tried(old(trace.txnCount), old(modemNode), old(modemPort))
      ensures if old(RetryDue(t))
              then (state.Synchronized? && lastUserRefresh == lastKeepalive == Seconds()) || (state.Failed? && !marker)
              else trace == old(trace) && inbox == old(inbox) && Now() == old(Now()) && now == old(now)
    {
      hide Valid, TraceOk, Extends, HeadOk, Due, AttemptOk, Quiet, Store.Valid, Store.Saved, Store.Live;
      ExtendsItself(setup, trace);
      if RetryDue(t) {
        lastHandshake := t;
        ghost var first := Pending(trace.txnCount, modemNode, modemPort, GENOFF_GET);
        ghost var a;
        var ok;
        ok, a := Handshake();
        if a.Some? {
          AttemptAsks(trace, first, a.value);
        }
      }
    }

    ghost predicate StartsWithTod(n: nat)
      reads this`trace
    {
      n < |trace.asked| && trace.asked[n] == GetOffset(ATS_TOD) && n < trace.txnCount
    }

    /** The refresh runs exactly when its timer is due at t; that it was set after t makes it due as well. */
    method Refresh(t: u64)
      requires Valid() && Settled() && trace.pending == []
      modifies this, store
      ensures Valid() && Later() && Settled() && lookups == old(lookups)
      ensures old(RefreshDue(t)) && old(modemPort) != 0 ==> StartsWithTod(old(trace.txnCount))
                                                            && Tried(old(trace.txnCount), old(modemNode), old(modemPort))
      ensures old(RefreshDue(t)) ==> Quiet(trace.log[|old(trace.log)|..], old(modemNode), old(modemPort)) ==> lastUserRefresh == t
      ensures !old(RefreshDue(t)) ==> trace == old(trace) && inbox == old(inbox) && Now() == old(Now()) && now == old(now)
    {
      hide Valid, TraceOk, Extends, HeadOk, Due, AttemptOk, Quiet, Store.Valid, Store.Saved, Store.Live;
      ExtendsItself(setup, trace);
      if RefreshDue(t) {
        lastUserRefresh := t;
        ghost var first := Pending(trace.txnCount, modemNode, modemPort, GENOFF_GET);
        ghost var a;
        var ok;
        ok, a := SendAtsUser(true);
        if a.Some? {
          AttemptAsks(trace, first, a.value);
        }
      }
    }

    method Telemetry()
      requires Valid() && Settled() && trace.pending == []
      modifies this, store
      ensures Valid() && Later() && Settled() && lookups == old(lookups)
      ensures old(connected && modemPort != 0 && state.Synchronized?) ==>
                trace.txnCount >= old(trace.txnCount) + 3 && StartsWithTod(old(trace.txnCount))
    {
      hide Valid, TraceOk, Extends, HeadOk, Calm, ResultOf, Quiet, Store.Valid, Store.Saved, Store.Live;
      var ok;
      ghost var r;
      ok, r := Validate();
      ghost var middle := trace;
      LogModemUptime();
      ExtendsTransitive(setup, old(trace), middle, trace);
      ExtendsMeans(setup, middle, trace);
    }

    predicate NothingComes()
      reads this`now, this`inbox
    {
      inbox == [] || inbox[0].at > now + 1000
    }

    /** One poll of a second; false when poll failed for good. */
    method Poll() returns (goOn: bool)
      requires Valid() && Settled() && trace.pending == []
      modifies this, store
      ensures Valid() && Later() && Settled()
      ensures old(now) < now || |inbox| < old(|inbox|)
      ensures old(NothingComes()) ==>
                goOn && now == old(now) + 1000 && trace == old(trace) && inbox == old(inbox) && state == old(state)
      ensures !old(NothingComes()) && old(inbox[0].input.Pkt?) ==>
                var p := old(inbox[0].input.packet);
                && goOn && |trace.log| > |old(trace.log)| && trace.log[|old(trace.log)|] == old(Passed())
                && (old(Withdraws(p)) ==> Withdrawn())
                && (IsAnnouncement(p) && !(old(connected) && old(state).Synchronized?) ==> Greeted(old(trace.txnCount), p.node, p.port))
      ensures !old(NothingComes()) && !old(inbox[0].input.Pkt?) ==>
                && goOn == !old(inbox[0].input.PollError?) && inbox == old(inbox)[1..] && trace == old(trace)
                && now == Max(old(now), old(inbox[0].at)) && running == (old(running) && !old(inbox[0].input.Terminate?))
    {
      hide Greeted, TraceOk, Extends, HeadOk, Store.Valid, Store.Saved, Store.Live, Announced, Packets;
      ExtendsItself(setup, trace);
      goOn := true;
      if inbox == [] || inbox[0].at > now + 1000 {
        now := now + 1000;
      } else {
        now := Max(now, inbox[0].at);
        var input := inbox[0].input;
        if input.Pkt? {
          Handle();
        } else {
          Skip();
          goOn := !input.PollError?;
        }
      }
    }

    /** A marker left behind is removed, and the timers start. */
    method Start()
      requires Valid() && state == Discovering && !store.loaded && trace.pending == []
      requires setup.steady ==> !store.foreign
      modifies this`marker, this`trace, this`lastKeepalive, this`lastHandshake, this`lastUserRefresh, store`loaded, store`state,
        store`faults
      ensures !store.loaded && store.enabled && store.Live().Some? && LoadFile(store.Live().value).Some? ==> Faults() > old(Faults())
      ensures Valid() && Settled() && !marker && trace.honest == old(trace.honest) && trace.last == old(trace.last)
      ensures trace.pending == old(trace.pending) && lastKeepalive == lastHandshake == lastUserRefresh == Seconds()
    {
      hide Valid, TraceOk, Extends, LoadFile, Faults, Store.Valid, Store.Saved, Store.Live;
      LoadRecord();
      RemoveMarker(trace);
      lastKeepalive, lastHandshake, lastUserRefresh := Seconds(), Seconds(), Seconds();
    }

    /** The record of an earlier run is loaded. */
    method LoadRecord()
      requires Valid() && state == Discovering && !store.loaded && trace.pending == []
      requires setup.steady ==> !store.foreign
      modifies this`trace, store`loaded, store`state, store`faults
      ensures !store.loaded && store.enabled && store.Live().Some? && LoadFile(store.Live().value).Some? ==> Faults() > old(Faults())
      ensures Valid() && Extends(setup, trace, trace) && trace.honest == old(trace.honest) && trace.last == old(trace.last)
      ensures trace.pending == old(trace.pending)
      ensures store.loaded && setup.steady ==> store.state in store.versions
      ensures trace.trusted == if store.loaded then old(trace.trusted) + {store.state.offset} else old(trace.trusted)
    {
      hide TraceOk, DirectoryOk, VersionsOk, LoadFile, Format;
      var r := store.Load();
      if r == 0 {
        StartIsOk(setup, trace, inbox, Link(), store.state, store.versions);
        trace := Started(trace, store.state);
      }
    }

    /** What must be done in the round that begins now: a handshake, a refresh, or asking whether the modem is still there. */
    predicate MustAct()
      reads this
    {
      MustRetry() || MustRefresh() || MustValidate()
    }

    /**
     The first rounds of the main loop, as many as the budget allows.  At the head of every round
     the marker exists exactly while the daemon is synchronised, which it is only with a server on
     a nonzero port and fewer than three failed readings, and no handshake is under way; when the
     loop ends the marker is gone.  In a round that must act the modem is asked for its TOD before the poll.
     */
    method Run(budget: nat) returns (ended: bool, ghost rounds: seq<Round>)
      requires Valid() && state == Discovering && !store.loaded && trace.pending == []
      requires setup.steady ==> !store.foreign
      modifies this, store
      ensures Valid() && (!ended ==> |rounds| == budget)
      ensures forall r :: r in rounds ==> HeadOk(r.head, setup.orderly) && (refreshInterval <= 0 ==> !r.head.stray)
      ensures RoundsOk(rounds, trace.asked, now, |inbox|)
      ensures ended ==> !marker
      ensures forall d :: d in trace.log ==> DispositionOk(d) && DistinctWhen(d, Announced(setup.script))
      ensures forall x :: x in trace.sent ==>
                SentOk(x) && (x.source.Restored? ==> x.offset in trace.trusted) && (trace.honest ==> HasSign(x))
    {
      hide TraceOk, Extends, HeadOk, RoundsOk, AttemptOk, Store.Valid, Store.Saved, Store.Live;
      rounds := [];
      Start();
      NoRounds(trace.asked, now, |inbox|);
      var left, goOn := budget, true;
      while running && goOn && left > 0
        invariant Valid() && Settled() && trace.pending == [] && 0 <= left && left + |rounds| == budget
        invariant forall r :: r in rounds ==> HeadOk(r.head, setup.orderly) && (refreshInterval <= 0 ==> !r.head.stray)
        invariant RoundsOk(rounds, trace.asked, now, |inbox|)
        decreases left
      {
        if refreshInterval <= 0 {
          NoStrayWithoutRefresh(setup, trace, inbox, Link(), store.Saved(), store.versions);
        }
        left := left - 1;
        rounds, goOn := OneRound(rounds);
      }
      ended := !running || !goOn;
      if ended {
        ExtendsItself(setup, trace);
        RemoveMarker(trace);
      }
      TraceMeans(setup, trace, inbox, Link(), store.Saved(), store.versions);
    }

    /** One round of the loop, and a line about it. */
    method OneRound(ghost rounds: seq<Round>) returns (ghost more: seq<Round>, goOn: bool)
      requires Valid() && Settled() && trace.pending == [] && RoundsOk(rounds, trace.asked, now, |inbox|)
      modifies this, store
      ensures Valid() && Settled() && trace.pending == []
      ensures |more| == |rounds| + 1 && more[..|rounds|] == rounds && RoundsOk(more, trace.asked, now, |inbox|)
      ensures more[|rounds|].head == old(Here()) && more[|rounds|].mustAct == old(MustAct())
    {
      hide Valid, TraceOk, Extends, HeadOk, RoundsOk, AttemptOk, Store.Valid, Store.Saved, Store.Live;
      AskedSoFar();
      ghost var before, head, at, coming, must, begun := trace, Here(), now, |inbox|, MustAct(), trace.txnCount;
      Housekeeping();
      AskedSoFar();
      ghost var after := trace;
      ExtendsMeans(setup, before, after);
      goOn := Poll();
      ExtendsMeans(setup, after, trace);
      ghost var round := Round(head, at, coming, must, begun, after.txnCount);
      OneMoreRound(rounds, before.asked, after.asked, trace.asked, round, now, |inbox|);
      more := rounds + [round];
    }
  }

  /**
   A round of the main loop: the daemon at its head, the time and the length of what is to come, whether it had to act, and
   how many requests there were at the head and before the poll.
   */
  datatype Round = Round(head: Head, at: nat, coming: nat, mustAct: bool, begun: nat, before: nat)

  /** In every round time passes or something leaves the socket. */
  predicate MovesOn(r: Round, at: nat, coming: nat) {
    r.at <= at && coming <= r.coming && (r.at < at || coming < r.coming)
  }

  /** Rounds follow one another, each moves on, and one that has to act asks for TOD. */
  ghost predicate RoundsOk(rounds: seq<Round>, asked: seq<RequestMsg>, at: nat, coming: nat) {
    && (forall i :: 0 < i < |rounds| ==> MovesOn(rounds[i - 1], rounds[i].at, rounds[i].coming))
    && (rounds != [] ==> MovesOn(rounds[|rounds| - 1], at, coming))
    && (forall i :: 0 <= i < |rounds| ==> rounds[i].begun <= rounds[i].before <= |asked|)
    && (forall i :: 0 < i < |rounds| ==> rounds[i - 1].before <= rounds[i].begun)
    && (forall i :: 0 <= i < |rounds| && rounds[i].mustAct ==>
          rounds[i].begun < rounds[i].before && asked[rounds[i].begun] == GetOffset(ATS_TOD))
  }

  lemma NoRounds(asked: seq<RequestMsg>, at: nat, coming: nat)
    ensures RoundsOk([], asked, at, coming)
  {
  }

  lemma OneMoreRound(rounds: seq<Round>, first: seq<RequestMsg>, second: seq<RequestMsg>, last: seq<RequestMsg>, round: Round, at: nat,
                     coming: nat)
    requires RoundsOk(rounds, first, round.at, round.coming) && MovesOn(round, at, coming)
    requires first <= second <= last && round.begun == |first| && round.before == |second|
    requires round.mustAct ==> |first| < |second| && second[|first|] == GetOffset(ATS_TOD)
    ensures RoundsOk(rounds + [round], last, at, coming)
  {
  }

  // ----- several boots -----

  /** One boot of the AP: what arrives while the daemon runs, how it is configured, and whether the power failed before. */
  datatype Boot = Boot(inbox: seq<Arrival>, refreshInterval: int, pollInterval: nat, periodicGet: bool, rounds: nat, powerLoss: bool)

  function Arrivals(boots: seq<Boot>): seq<Arrival> {
    if boots == [] then [] else boots[0].inbox + Arrivals(boots[1..])
  }

  /** What a run did not get to see does not disturb the order of what comes later. */
  lemma {:induction false} SteadyLater(last: Reading, unseen: seq<Arrival>, rest: seq<Arrival>)
    requires Steady(last, unseen + rest)
    ensures Steady(last, rest)
    decreases |unseen|
  {
    if unseen == [] {
      assert unseen + rest == rest;
    } else {
      assert (unseen + rest)[1..] == unseen[1..] + rest;
      if unseen[0].input.Pkt? {
        var next := LastAfter(last, unseen[0].input.packet);
        SteadyLater(next, unseen[1..], rest);
        SteadyEarlier(last, next, rest);
      } else {
        SteadyLater(last, unseen[1..], rest);
      }
    }
  }

  lemma {:induction false} SteadyEarlier(a: Reading, b: Reading, inbox: seq<Arrival>)
    requires NotAfter(a, b) && Steady(b, inbox)
    ensures Steady(a, inbox)
    decreases |inbox|
  {
    if inbox != [] && !(inbox[0].input.Pkt? && IsRtcReading(inbox[0].input.packet)) {
      SteadyEarlier(a, b, inbox[1..]);
    }
  }

  lemma ReadingsAfterRun(s: Setup, t: Trace, inbox: seq<Arrival>, link: Option<Address>, saved: Option<Record>,
                         versions: set<Record>)
    requires TraceOk(s, t, inbox, link, saved, versions) && s.steady && t.honest
    ensures Steady(t.last, s.future) && OriginOk(t.origin, versions, t.last)
    ensures forall r :: r in t.reports ==> VerdictOk(r)
  {
    SteadyLater(t.last, inbox, s.future);
  }

  lemma OriginOfNothing(last: Reading)
    ensures OriginOk(map[], {}, last)
  {
  }

  /**
   A device over any number of AP boots, modem restarts, server changes and power losses, at any system call of a save
   or between them, starting without a record: as long as readings arrive in the order they were taken and answer what
   was asked, and no synchronisation of data failed before a power loss, no boot reports a restart that did not happen
   after the stored reading was taken, and without one the reported survival time is exactly the modem time that passed.
   */
  method Reboots(first: Store, boots: seq<Boot>, ghost steady: bool, ghost start: Reading)
    returns (last: Store, ghost traces: seq<Trace>)
    requires first.Valid() && !first.foreign && first.versions == {}
    requires steady ==> Steady(start, Arrivals(boots))
    modifies first
    ensures last.Valid() && |traces| == |boots|
    ensures steady && !last.foreign && (forall t :: t in traces ==> t.honest) ==>
              forall t, r :: t in traces && r in t.reports ==> VerdictOk(r)
  {
    hide OriginOk, Steady, VerdictOk, Store.Valid, Store.AfterPowerLoss, Store.Live;
    traces := [];
    last := first;
    ghost var latest, origin: map<Record, Reading>, good := start, map[], steady;
    OriginOfNothing(start);
    for i := 0 to |boots|
      invariant |traces| == i && last.Valid() && (last == first || fresh(last))
      invariant good == (steady && forall t :: t in traces ==> t.honest)
      invariant good && !last.foreign ==> Steady(latest, Arrivals(boots[i..])) && OriginOk(origin, last.versions, latest)
      invariant good && !last.foreign ==> forall t, r :: t in traces && r in t.reports ==> VerdictOk(r)
    {
      if last.dead || boots[i].powerLoss {
        last := new Store.AfterLoss(last);
      } else {
        last.PowerCycle();
      }
      assert boots[i..][1..] == boots[i + 1..];
      ghost var trace := OneBoot(last, boots[i], good && !last.foreign, Arrivals(boots[i + 1..]), latest, origin);
      latest, origin, good := trace.last, trace.origin, good && trace.honest;
      traces := traces + [trace];
    }
  }

  /** One boot, and what it leaves for the next. */
  method OneBoot(store: Store, boot: Boot, ghost good: bool, ghost future: seq<Arrival>, ghost latest: Reading,
                 ghost origin: map<Record, Reading>) returns (ghost trace: Trace)
    requires store.Valid() && !store.loaded && (good ==> !store.foreign)
    requires good ==> Steady(latest, boot.inbox + future) && OriginOk(origin, store.versions, latest)
    modifies store
    ensures store.Valid()
    ensures good && trace.honest ==>
              && Steady(trace.last, future) && OriginOk(trace.origin, store.versions, trace.last)
              && forall r :: r in trace.reports ==> VerdictOk(r)
  {
    hide TraceOk, OriginOk, Steady, VerdictOk, HeadOk, Store.Live, Store.AfterPowerLoss;
    var start: nat := *;
    var d := new Daemon(store, boot.inbox, boot.refreshInterval, boot.pollInterval, boot.periodicGet,
                        start, false, good, future, latest, origin);
    var ended, rounds := d.Run(boot.rounds);
    trace := d.trace;
    if good && trace.honest {
      ReadingsAfterRun(d.setup, trace, d.inbox, d.Link(), store.Saved(), store.versions);
    }
  }
}
