/**
 * The ICMP session controller as a state machine over values: what every locked region of the
 * controller does to the list of live sessions, to the listener and to the workers.
 */
module Sessions {
  import opened Bytes
  import opened Echo

  const ENETUNREACH: int := 101

  datatype Response = Invalid | EchoReply | DestinationUnreachable | TimeExceeded | Timeout | NetworkUnreachable

  /** The client of a session. Only the controller sets its busy flag. */
  class Worker {
    const timeout: nat
    const interval: nat
    var busy: bool

    constructor (timeout: nat := 5, interval: nat := 1)
      ensures !busy && this.timeout == timeout && this.interval == interval
    {
      this.timeout, this.interval, busy := timeout, interval, false;
    }
  }

  /** What sendto made of a packet. */
  datatype Outcome = Delivered | Failed(errno: int)

  /**
   * What the system answers while one session is being attended: the clock when its deadline is
   * examined or set, the clock and the payload's time stamp when a packet is prepared, the family
   * of the worker's address at that moment, and the outcome of sendto. Answers to questions the
   * code does not ask are ignored.
   */
  datatype Visit = Visit(now: int, sentAt: int, stamp: u64, family: int, outcome: Outcome)

  /**
   * A session in the list. The last three fields are history: the number of the insert that opened it,
   * the clock its deadline was computed from, and the number of packets prepared, which the 16-bit
   * field packets only knows modulo 65536.
   */
  datatype Session = Session(worker: Worker, id: u16, timeout: int, next: int, packets: u16,
                             serial: nat, started: int, sent: nat)

  datatype How = Expired | NoRoute | Answered(icmpType: byte) | Cancelled

  datatype Ending = Ending(session: Session, how: How)

  datatype Call = Call(worker: Worker, response: Response)

  /**
   * A packet handed to sendto: the number and the payload that, with the process, determine its bytes
   * (PacketInjective).
   */
  datatype Request = Request(number: u16, payload: Payload)

  /** Everything the list's loops change besides the list. The log is history; calls are the callbacks made. */
  datatype Ledger = Ledger(busy: set<Worker>, log: seq<Ending>, calls: seq<Call>, wire: seq<Request>, seqno: u16)

  datatype Listener = Listener(fd: int, timer: bool, handler: bool)

  const DOWN := Listener(-1, false, false)

  ghost predicate Up(l: Listener) {
    l.fd > 0 && l.timer && l.handler
  }

  datatype State = State(hosts: seq<Session>, ledger: Ledger, listener: Listener,
                         nextId: u16, inserts: nat, proc: Process)

  function Initial(proc: Process): State {
    State([], Ledger({}, [], [], [], 0), DOWN, 0, 0, proc)
  }

  // ---------- endings and callbacks ----------

  /** The callback an ending owes its worker: one, or none when cancelled or answered with an unexpected type. */
  function Owed(how: How): Option<Response> {
    match how
    case Expired => Some(Timeout)
    case NoRoute => Some(NetworkUnreachable)
    case Cancelled => None
    case Answered(t) =>
      if t == ECHO_REPLY then Some(EchoReply)
      else if t == DEST_UNREACH then Some(DestinationUnreachable)
      else if t == TIME_EXCEEDED then Some(TimeExceeded)
      else None
  }

  function CallFor(w: Worker, r: Option<Response>): seq<Call> {
    if r.Some? then [Call(w, r.value)] else []
  }

  function Close(l: Ledger, e: Ending): Ledger {
    l.(busy := l.busy - {e.session.worker},
       log := l.log + [e],
       calls := l.calls + CallFor(e.session.worker, Owed(e.how)))
  }

  // ---------- remove_if with the closures of remove, handle_event and send ----------

  datatype Closure =
    | OnError(code: int, id: u16)
    | OnResponse(icmpType: byte, id: u16)
    | OwnedBy(worker: Worker)

  /** How a closure ends the session with this id and worker, if it does. */
  function Verdict(c: Closure, id: u16, w: Worker): Option<How> {
    match c
    case OnError(code, i) => if i == id && code == ENETUNREACH then Some(NoRoute) else None
    case OnResponse(t, i) => if i == id && t != ECHO_REQUEST then Some(Answered(t)) else None
    case OwnedBy(x) => if x == w then Some(Cancelled) else None
  }

  /** The sessions a closure leaves among the first k. */
  function Kept(c: Closure, hs: seq<Session>, k: nat): seq<Session>
    requires k <= |hs|
  {
    if k == 0 then []
    else
      var h := hs[k - 1];
      if Verdict(c, h.id, h.worker).None? then Kept(c, hs, k - 1) + [h] else Kept(c, hs, k - 1)
  }

  lemma {:induction false} KeptAtMost(c: Closure, hs: seq<Session>, k: nat)
    requires k <= |hs|
    ensures |Kept(c, hs, k)| <= k
  {
    if k > 0 {
      KeptAtMost(c, hs, k - 1);
    }
  }

  /** The ledger after a closure has seen the first k sessions. */
  function Dropped(c: Closure, hs: seq<Session>, k: nat, l: Ledger): Ledger
    requires k <= |hs|
  {
    if k == 0 then l
    else
      var h := hs[k - 1];
      var before := Dropped(c, hs, k - 1, l);
      match Verdict(c, h.id, h.worker)
      case None => before
      case Some(how) => Close(before, Ending(h, how))
  }

  function RemoveIf(s: State, c: Closure): State {
    s.(hosts := Kept(c, s.hosts, |s.hosts|), ledger := Dropped(c, s.hosts, |s.hosts|, s.ledger))
  }

  // ---------- sending ----------

  /** The session after Host::send has prepared one more packet. */
  function Probed(h: Session, v: Visit): Session {
    h.(next := v.sentAt + h.worker.interval, packets := (h.packets + 1) % 0x1_0000, sent := h.sent + 1)
  }

  /** The payload of that packet. */
  function PayloadFor(h: Session, v: Visit): Payload {
    Payload(h.id, (h.packets + 1) % 0x1_0000, v.stamp)
  }

  /**
   * A packet reaches sendto when the socket is open and the address is IPv4; otherwise send throws and
   * Host::send swallows it.
   */
  predicate Transmits(v: Visit, fd: int) {
    fd >= 0 && v.family == AF_INET
  }

  function Transmit(l: Ledger, p: Payload): Ledger {
    var n := (l.seqno + 1) % 0x1_0000;
    l.(seqno := n, wire := l.wire + [Request(n, p)])
  }

  /**
   * The sessions Controller::send leaves: on failure its remove_if asks every linked session whether the
   * packet was its own.
   */
  function LeftAfterSend(hs: seq<Session>, id: u16, v: Visit, fd: int): seq<Session> {
    if Transmits(v, fd) && v.outcome.Failed? then Kept(OnError(v.outcome.errno, id), hs, |hs|) else hs
  }

  function BooksAfterSend(l: Ledger, hs: seq<Session>, p: Payload, v: Visit, fd: int): Ledger {
    if !Transmits(v, fd) then l
    else if v.outcome.Failed? then Dropped(OnError(v.outcome.errno, p.id), hs, |hs|, Transmit(l, p))
    else Transmit(l, p)
  }

  // ---------- the timer sweep ----------

  datatype Fate = Ends | Waits | Probes(transmitted: bool) | Unreachable

  function FateOf(h: Session, v: Visit, fd: int): Fate {
    if v.now > h.timeout then Ends
    else if v.now < h.next then Waits
    else if Transmits(v, fd) && v.outcome == Failed(ENETUNREACH) then Unreachable
    else Probes(Transmits(v, fd))
  }

  predicate Survives(f: Fate) {
    f.Waits? || f.Probes?
  }

  function Attended(h: Session, v: Visit, f: Fate): Session {
    if f.Waits? || f.Ends? then h else Probed(h, v)
  }

  /**
   * A sweep under way: the sessions attended that are still linked, those still linked and to be
   * attended, the books, and how many sessions have been attended.
   */
  datatype March = March(past: seq<Session>, todo: seq<Session>, ledger: Ledger, visits: nat)

  /** The list as it stands. */
  function Linked(m: March): seq<Session> {
    m.past + m.todo
  }

  /**
   * The next session attended. A send refused as unreachable ends every linked session with the
   * sender's id, attended before or still to come, the sender among them.
   */
  function Visited(m: March, v: Visit, fd: int): (n: March)
    requires m.todo != []
    ensures |n.todo| < |m.todo|
  {
    var h, rest := m.todo[0], m.todo[1..];
    match FateOf(h, v, fd)
    case Ends => March(m.past, rest, Close(m.ledger, Ending(h, Expired)), m.visits + 1)
    case Waits => March(m.past + [h], rest, m.ledger, m.visits + 1)
    case Probes(transmitted) =>
      var books := if transmitted then Transmit(m.ledger, PayloadFor(h, v)) else m.ledger;
      March(m.past + [Probed(h, v)], rest, books, m.visits + 1)
    case Unreachable =>
      var c := OnError(ENETUNREACH, h.id);
      KeptAtMost(c, rest, |rest|);
      var linked := m.past + [Probed(h, v)] + rest;
      March(Kept(c, m.past, |m.past|), Kept(c, rest, |rest|),
            Dropped(c, linked, |linked|, Transmit(m.ledger, PayloadFor(h, v))), m.visits + 1)
  }

  /** The sweep to its end, the k-th session attended with the answers env(k). */
  function Marched(m: March, env: nat -> Visit, fd: int): (n: March)
    ensures n.todo == [] && m.visits <= n.visits <= m.visits + |m.todo|
    decreases |m.todo|
  {
    if m.todo == [] then m else Marched(Visited(m, env(m.visits), fd), env, fd)
  }

  /**
   * At this visit the sweep loses the node it has captured: it is unlinked and destroyed with the sender.
   * What happens after that the language does not define.
   */
  predicate LosesNow(m: March, v: Visit, fd: int)
    requires m.todo != []
  {
    FateOf(m.todo[0], v, fd).Unreachable? && |m.todo| > 1 && m.todo[1].id == m.todo[0].id
  }

  predicate Loses(m: March, env: nat -> Visit, fd: int)
    decreases |m.todo|
  {
    m.todo != [] && (LosesNow(m, env(m.visits), fd) || Loses(Visited(m, env(m.visits), fd), env, fd))
  }

  /** A sweep about to begin. */
  function Departure(s: State): March {
    March([], s.hosts, s.ledger, 0)
  }

  /** One queued sweep: every session attended, then the listener stopped if none is left. */
  function Sweep(s: State, env: nat -> Visit): State {
    var m := Marched(Departure(s), env, s.listener.fd);
    StopIfIdle(s.(hosts := m.past, ledger := m.ledger))
  }

  function StopIfIdle(s: State): State {
    if s.hosts == [] then s.(listener := DOWN) else s
  }

  // ---------- insert, remove, handle_event ----------

  type Descriptor = x: int | x > 0 witness 1

  /** What start() meets when it has to open the socket; socket() is taken to return a positive descriptor. */
  datatype SocketResult = Opened(fd: Descriptor) | Refused

  function Start(l: Listener, sock: SocketResult): Option<Listener> {
    if l.fd > 0 then Some(Listener(l.fd, true, true))
    else match sock
      case Opened(fd) => Some(Listener(fd, true, true))
      case Refused => None
  }

  datatype InsertResult = Inserted | Busy | StartFailed

  /** The session the Host constructor makes, before its first packet. */
  function Fresh(w: Worker, id: u16, serial: nat, v: Visit): Session {
    Session(w, id, v.now + w.interval, 0, 0, serial, v.now, 0)
  }

  function Insert(s: State, w: Worker, v: Visit, sock: SocketResult): (State, InsertResult) {
    if w in s.ledger.busy then (s, Busy)
    else match Start(s.listener, sock)
      case None => (s.(listener := DOWN), StartFailed)
      case Some(l) =>
        var h := Fresh(w, s.nextId, s.inserts, v);
        var busy := s.ledger.(busy := s.ledger.busy + {w});
        // the new Host sends its first packet before it is linked
        var left := LeftAfterSend(s.hosts, h.id, v, l.fd);
        (State(left + [Probed(h, v)], BooksAfterSend(busy, s.hosts, PayloadFor(h, v), v, l.fd), l,
               (s.nextId + 1) % 0x1_0000, s.inserts + 1, s.proc),
         Inserted)
  }

  function Remove(s: State, w: Worker): State {
    StopIfIdle(RemoveIf(s, OwnedBy(w)))
  }

  datatype Receipt = NotReceived(errno: int) | Received(datagram: seq<byte>)

  function Receive(s: State, r: Receipt): State {
    if r.NotReceived? then s
    else match Accept(s.proc, r.datagram)
      case None => s
      case Some((icmpType, payload)) => RemoveIf(s, OnResponse(icmpType, payload.id))
  }

  // ---------- runs ----------

  /** The locked regions, in whatever order the threads enter them; a queued sweep may run at any later time. */
  datatype Event =
    | EvInsert(worker: Worker, visit: Visit, sock: SocketResult)
    | EvRemove(worker: Worker)
    | EvSweep(env: nat -> Visit)
    | EvReceive(receipt: Receipt)

  function Step(s: State, e: Event): State {
    match e
    case EvInsert(w, v, sock) => Insert(s, w, v, sock).0
    case EvRemove(w) => Remove(s, w)
    case EvSweep(env) => Sweep(s, env)
    case EvReceive(r) => Receive(s, r)
  }

  function Run(proc: Process, es: seq<Event>): State {
    if es == [] then Initial(proc) else Step(Run(proc, es[..|es| - 1]), es[|es| - 1])
  }

  // ---------- distinct ids ----------

  /** No id occurs twice in the list. */
  ghost predicate DistinctIds(hs: seq<Session>) {
    hs == [] ||
    (DistinctIds(hs[..|hs| - 1]) && forall h :: h in hs[..|hs| - 1] ==> h.id != hs[|hs| - 1].id)
  }

  lemma {:induction false} IdsDiffer(hs: seq<Session>, i: nat, j: nat)
    requires DistinctIds(hs) && i < j < |hs|
    ensures hs[i].id != hs[j].id
  {
    var last := |hs| - 1;
    if j == last {
      assert hs[..last][i] in hs[..last];
    } else {
      IdsDiffer(hs[..last], i, j);
    }
  }

  lemma {:induction false} IdsAllDiffer(hs: seq<Session>)
    requires forall i, j :: 0 <= i < j < |hs| ==> hs[i].id != hs[j].id
    ensures DistinctIds(hs)
  {
    if hs != [] {
      IdsAllDiffer(hs[..|hs| - 1]);
    }
  }

  /** A closure that can match no session but the i-th ends that one or none. */
  lemma {:induction false} MatchesOnly(c: Closure, hs: seq<Session>, i: nat, k: nat, l: Ledger)
    requires i < |hs| && k <= |hs|
    requires forall j :: 0 <= j < |hs| && j != i ==> Verdict(c, hs[j].id, hs[j].worker).None?
    ensures var m := Verdict(c, hs[i].id, hs[i].worker);
      && Kept(c, hs, k) == (if k <= i || m.None? then hs[..k] else hs[..i] + hs[i + 1..k])
      && Dropped(c, hs, k, l) == (if k <= i || m.None? then l else Close(l, Ending(hs[i], m.value)))
  {
    hide *;
    KeptNone(c, hs);
    DroppedNone(c, hs, l);
    if k > 0 {
      MatchesOnly(c, hs, i, k - 1, l);
      KeptMore(c, hs, k - 1);
      DroppedMore(c, hs, k - 1, l);
      assert hs[..k] == hs[..k - 1] + [hs[k - 1]];
      if k - 1 > i {
        assert hs[i + 1..k] == hs[i + 1..k - 1] + [hs[k - 1]];
        assert hs[..i] + hs[i + 1..k] == hs[..i] + hs[i + 1..k - 1] + [hs[k - 1]];
      } else if k - 1 == i {
        assert hs[..i] + hs[i + 1..k] == hs[..i];
      }
    }
  }

  lemma DroppedNone(c: Closure, hs: seq<Session>, l: Ledger)
    ensures Dropped(c, hs, 0, l) == l
  {
  }

  lemma DroppedMore(c: Closure, hs: seq<Session>, k: nat, l: Ledger)
    requires k < |hs|
    ensures var m := Verdict(c, hs[k].id, hs[k].worker);
      Dropped(c, hs, k + 1, l) ==
        if m.None? then Dropped(c, hs, k, l) else Close(Dropped(c, hs, k, l), Ending(hs[k], m.value))
  {
  }

  /** A closure that matches no session changes nothing. */
  lemma {:induction false} MatchesNone(c: Closure, hs: seq<Session>, k: nat, l: Ledger)
    requires k <= |hs|
    requires forall j :: 0 <= j < |hs| ==> Verdict(c, hs[j].id, hs[j].worker).None?
    ensures Kept(c, hs, k) == hs[..k] && Dropped(c, hs, k, l) == l
  {
    if k > 0 {
      MatchesNone(c, hs, k - 1, l);
      assert hs[..k] == hs[..k - 1] + [hs[k - 1]];
    }
  }

  // ---------- lists in two parts ----------

  lemma {:induction false} KeptOfFirst(c: Closure, a: seq<Session>, b: seq<Session>, k: nat)
    requires k <= |a|
    ensures Kept(c, a + b, k) == Kept(c, a, k)
  {
    if k > 0 {
      KeptOfFirst(c, a, b, k - 1);
    }
  }

  lemma {:induction false} KeptOfSecond(c: Closure, a: seq<Session>, b: seq<Session>, k: nat)
    requires k <= |b|
    ensures Kept(c, a + b, |a| + k) == Kept(c, a, |a|) + Kept(c, b, k)
  {
    hide *;
    if k == 0 {
      KeptOfFirst(c, a, b, |a|);
      KeptNone(c, b);
    } else {
      KeptOfSecond(c, a, b, k - 1);
      KeptMore(c, a + b, |a| + k - 1);
      KeptMore(c, b, k - 1);
    }
  }

  lemma KeptNone(c: Closure, hs: seq<Session>)
    ensures Kept(c, hs, 0) == []
  {
  }

  lemma KeptMore(c: Closure, hs: seq<Session>, k: nat)
    requires k < |hs|
    ensures Kept(c, hs, k + 1) ==
      if Verdict(c, hs[k].id, hs[k].worker).None? then Kept(c, hs, k) + [hs[k]] else Kept(c, hs, k)
  {
  }

  /** A closure leaves of a list what it leaves of its parts. */
  lemma KeptSplit(c: Closure, a: seq<Session>, b: seq<Session>)
    ensures Kept(c, a + b, |a + b|) == Kept(c, a, |a|) + Kept(c, b, |b|)
  {
    KeptOfSecond(c, a, b, |b|);
  }

  /** What one visit makes of the whole list, seen from the position of the session attended. */
  lemma VisitParts(m: March, v: Visit, fd: int)
    requires m.todo != []
    ensures var l, i := Linked(m), |m.past|;
      var n, f := Visited(m, v, fd), FateOf(m.todo[0], v, fd);
      && i < |l| && l[i] == m.todo[0]
      && (f.Ends? ==> Linked(n) == l[..i] + l[i + 1..])
      && (f.Waits? ==> Linked(n) == l)
      && (f.Probes? ==> Linked(n) == l[i := Probed(l[i], v)])
      && (f.Unreachable? ==>
            var c, w := OnError(ENETUNREACH, l[i].id), l[i := Probed(l[i], v)];
            && Linked(n) == Kept(c, w, |w|)
            && n.ledger == Dropped(c, w, |w|, Transmit(m.ledger, PayloadFor(l[i], v))))
  {
    hide *;
    var l, i, h, rest := Linked(m), |m.past|, m.todo[0], m.todo[1..];
    VisitUnfold(m, v, fd);
    Around(m.past, h, rest);
    Around(m.past, Probed(h, v), rest);
    assert m.todo == [h] + rest && m.past + ([h] + rest) == m.past + [h] + rest;
    assert (m.past + [h] + rest)[i := Probed(h, v)] == m.past + [Probed(h, v)] + rest;
    RefusalParts(m.past, h, v, rest);
  }

  lemma RefusalParts(past: seq<Session>, h: Session, v: Visit, rest: seq<Session>)
    ensures var c, w := OnError(ENETUNREACH, h.id), past + [Probed(h, v)] + rest;
      Kept(c, w, |w|) == Kept(c, past, |past|) + Kept(c, rest, |rest|)
  {
    hide *;
    var c := OnError(ENETUNREACH, h.id);
    KeptSplit(c, past + [Probed(h, v)], rest);
    KeptSplit(c, past, [Probed(h, v)]);
    SenderEnds(h, v);
    assert Kept(c, past, |past|) + [] == Kept(c, past, |past|);
  }

  lemma Around(a: seq<Session>, h: Session, b: seq<Session>)
    ensures var l := a + [h] + b;
      |l| == |a| + 1 + |b| && l[|a|] == h && l[..|a|] == a && l[|a| + 1..] == b
  {
  }

  /** The four fates, part by part. */
  lemma VisitUnfold(m: March, v: Visit, fd: int)
    requires m.todo != []
    ensures var h, rest, n, f := m.todo[0], m.todo[1..], Visited(m, v, fd), FateOf(m.todo[0], v, fd);
      && Linked(m) == m.past + m.todo && Linked(n) == n.past + n.todo
      && (f.Ends? ==> n.past == m.past && n.todo == rest)
      && (f.Waits? ==> n.past == m.past + [h] && n.todo == rest)
      && (f.Probes? ==> n.past == m.past + [Probed(h, v)] && n.todo == rest)
      && (f.Unreachable? ==>
            var c := OnError(ENETUNREACH, h.id);
            var w := m.past + [Probed(h, v)] + rest;
            && n.past == Kept(c, m.past, |m.past|) && n.todo == Kept(c, rest, |rest|)
            && n.ledger == Dropped(c, w, |w|, Transmit(m.ledger, PayloadFor(h, v))))
  {
    hide Kept, Dropped, Transmit, FateOf, Probed, PayloadFor;
  }

  /** What a visit does to the books, where its send is not refused as unreachable. */
  lemma VisitBooks(m: March, v: Visit, fd: int)
    requires m.todo != []
    ensures var h, n, f := m.todo[0], Visited(m, v, fd), FateOf(m.todo[0], v, fd);
      && n.visits == m.visits + 1 && f.Ends? == (v.now > h.timeout)
      && (f.Ends? ==> n.ledger == Close(m.ledger, Ending(h, Expired)))
      && (f.Waits? ==> n.ledger == m.ledger)
      && (f.Probes? ==>
            n.ledger == if f.transmitted then Transmit(m.ledger, PayloadFor(h, v)) else m.ledger)
  {
    hide Kept, Dropped, Transmit, Close;
  }

  lemma SenderEnds(h: Session, v: Visit)
    ensures Kept(OnError(ENETUNREACH, h.id), [Probed(h, v)], 1) == []
    ensures Probed(h, v).id == h.id
  {
    KeptNone(OnError(ENETUNREACH, h.id), [Probed(h, v)]);
  }
}
