/**
 * What the workers are told and what goes on the wire, step by step and over every run, in terms of
 * response codes, numbers and clock readings alone.
 */
module SessionCalls {
  import opened Bytes
  import opened Echo
  import opened Sessions
  import opened SessionRuns
  import opened SessionLaws
  import SessionIds

  // ---------- callbacks over a run ----------

  /** The response that tells of an ending, by the type numbers of RFC 792. */
  ghost predicate Tells(r: Response, how: How) {
    match r
    case Timeout => how == Expired
    case NetworkUnreachable => how == NoRoute
    case EchoReply => how == Answered(0)
    case DestinationUnreachable => how == Answered(3)
    case TimeExceeded => how == Answered(11)
    case Invalid => false
  }

  ghost function CallsOf(calls: seq<Call>, w: Worker, r: Response): nat {
    if calls == [] then 0
    else CallsOf(calls[..|calls| - 1], w, r) + if calls[|calls| - 1] == Call(w, r) then 1 else 0
  }

  ghost function EndingsTold(log: seq<Ending>, w: Worker, r: Response): nat {
    if log == [] then 0
    else
      var e := log[|log| - 1];
      EndingsTold(log[..|log| - 1], w, r) + if e.session.worker == w && Tells(r, e.how) then 1 else 0
  }

  lemma CallsSnoc(calls: seq<Call>, c: Call, w: Worker, r: Response)
    ensures CallsOf(calls + [c], w, r) == CallsOf(calls, w, r) + if c == Call(w, r) then 1 else 0
  {
    assert (calls + [c])[..|calls|] == calls;
  }

  lemma OwedTells(how: How, w: Worker, x: Worker, r: Response)
    ensures CallFor(w, Owed(how)) == [] ==> !Tells(r, how)
    ensures CallFor(w, Owed(how)) != [] ==>
      && |CallFor(w, Owed(how))| == 1
      && (CallFor(w, Owed(how))[0] == Call(x, r) <==> w == x && Tells(r, how))
  {
  }

  lemma {:induction false} OwedCount(log: seq<Ending>, w: Worker, r: Response)
    ensures CallsOf(CallsOwed(log), w, r) == EndingsTold(log, w, r)
  {
    if log != [] {
      var before, e := log[..|log| - 1], log[|log| - 1];
      OwedCount(before, w, r);
      var calls, more := CallsOwed(before), CallFor(e.session.worker, Owed(e.how));
      OwedTells(e.how, e.session.worker, w, r);
      if more == [] {
        assert calls + more == calls;
      } else {
        assert more == [more[0]];
        CallsSnoc(calls, more[0], w, r);
      }
    }
  }

  /**
   * Over every run each worker gets each response exactly as often as its sessions ended in the way that
   * response tells of: an expiry a timeout, a missing route an unreachable network, and an answer of type
   * 0, 3 or 11 an echo reply, an unreachable destination or an exceeded time.
   */
  lemma CallbacksByKind(proc: Process, es: seq<Event>, w: Worker, r: Response)
    ensures var l := Run(proc, es).ledger; CallsOf(l.calls, w, r) == EndingsTold(l.log, w, r)
  {
    CallbacksExact(proc, es);
    OwedCount(Run(proc, es).ledger.log, w, r);
  }

  // ---------- callbacks of a step ----------

  /**
   * A reply that carries a packet of a live session back tells its worker what its type says, and nobody
   * else anything.
   */
  lemma ReplyCalls(s: State, i: nat, number: u16, p: Payload, icmpType: byte, datagram: seq<byte>)
    requires DistinctIds(s.hosts) && i < |s.hosts| && p.id == s.hosts[i].id
    requires Echoes(datagram, Packet(s.proc, number, p), icmpType)
    ensures Receive(s, Received(datagram)).ledger.calls ==
      s.ledger.calls + (if icmpType == 0 then [Call(s.hosts[i].worker, EchoReply)]
                        else if icmpType == 3 then [Call(s.hosts[i].worker, DestinationUnreachable)]
                        else if icmpType == 11 then [Call(s.hosts[i].worker, TimeExceeded)]
                        else [])
  {
    ReplyEndsItsSession(s, i, number, p, icmpType, datagram);
    hide Receive, Packet, Echoes, DistinctIds;
  }

  /** The same over every run, for a request on the wire and the session that sent it. */
  lemma ReplyCallsItsSender(proc: Process, es: seq<Event>, q: Request, i: nat, icmpType: byte, datagram: seq<byte>)
    requires q in Run(proc, es).ledger.wire && Echoes(datagram, Packet(proc, q.number, q.payload), icmpType)
    requires DistinctIds(Run(proc, es).hosts) && i < |Run(proc, es).hosts|
    requires Sent(proc, es, Run(proc, es).hosts[i].serial, q.payload)
    ensures var s := Run(proc, es);
      Receive(s, Received(datagram)).ledger.calls ==
        s.ledger.calls + (if icmpType == 0 then [Call(s.hosts[i].worker, EchoReply)]
                          else if icmpType == 3 then [Call(s.hosts[i].worker, DestinationUnreachable)]
                          else if icmpType == 11 then [Call(s.hosts[i].worker, TimeExceeded)]
                          else [])
  {
    hide *;
    var s := Run(proc, es);
    SentId(proc, es, s.hosts[i].serial, q.payload);
    LiveId(proc, es, i);
    RunProcess(proc, es);
    ReplyCalls(s, i, q.number, q.payload, icmpType, datagram);
  }

  lemma LiveId(proc: Process, es: seq<Event>, i: nat)
    requires i < |Run(proc, es).hosts|
    ensures var h := Run(proc, es).hosts[i]; h.id == h.serial % 0x1_0000
  {
    RunNumbers(proc, es);
    assert Run(proc, es).hosts[i] in Run(proc, es).hosts;
  }

  /** One NetworkUnreachable for each session with this id, in order. */
  function Unreached(hs: seq<Session>, id: u16): seq<Call> {
    if hs == [] then []
    else
      var h := hs[|hs| - 1];
      if h.id == id then Unreached(hs[..|hs| - 1], id) + [Call(h.worker, NetworkUnreachable)]
      else Unreached(hs[..|hs| - 1], id)
  }

  lemma {:induction false} DroppedCalls(hs: seq<Session>, id: u16, k: nat, l: Ledger)
    requires k <= |hs|
    ensures Dropped(OnError(ENETUNREACH, id), hs, k, l).calls == l.calls + Unreached(hs[..k], id)
  {
    if k > 0 {
      DroppedCalls(hs, id, k - 1, l);
      assert hs[..k][..k - 1] == hs[..k - 1];
    }
  }

  lemma {:induction false} UnreachedSame(hs: seq<Session>, gs: seq<Session>, id: u16)
    requires |hs| == |gs| && forall j :: 0 <= j < |hs| ==> hs[j].id == gs[j].id && hs[j].worker == gs[j].worker
    ensures Unreached(hs, id) == Unreached(gs, id)
  {
    if hs != [] {
      UnreachedSame(hs[..|hs| - 1], gs[..|gs| - 1], id);
    }
  }

  /**
   * The callbacks of one visit of a sweep: a timeout for a session past its deadline; when its send is
   * refused as unreachable, that for every linked session with its id; otherwise none.
   */
  lemma VisitCalls(m: March, v: Visit, fd: int)
    requires m.todo != []
    ensures var h, n := m.todo[0], Visited(m, v, fd);
      var refused := h.next <= v.now && fd >= 0 && v.family == AF_INET && v.outcome == Failed(ENETUNREACH);
      n.ledger.calls == m.ledger.calls +
        (if v.now > h.timeout then [Call(h.worker, Timeout)]
         else if refused then Unreached(Linked(m), h.id)
         else [])
  {
    hide *;
    VisitParts(m, v, fd);
    var h, l, i := m.todo[0], Linked(m), |m.past|;
    var p, w := PayloadFor(h, v), l[i := Probed(h, v)];
    VisitBooks(m, v, fd);
    FourFates(h, v, fd);
    SessionIds.RefusedWhen(h, v, fd);
    SendKeeps(h, v, m.ledger, p);
    DroppedCalls(w, h.id, |w|, Transmit(m.ledger, p));
    assert w[..|w|] == w;
    UnreachedSame(w, l, h.id);
    ExpiryCalls(m.ledger, h);
  }

  lemma ExpiryCalls(l: Ledger, h: Session)
    ensures Close(l, Ending(h, Expired)).calls == l.calls + [Call(h.worker, Timeout)]
    ensures l.calls + [] == l.calls
  {
  }

  /** The callbacks of an insert: none, or what its refused first send brings those who have the id it takes. */
  lemma InsertCalls(s: State, w: Worker, v: Visit, sock: SocketResult)
    requires Insert(s, w, v, sock).1 == Inserted
    ensures Insert(s, w, v, sock).0.ledger.calls ==
      s.ledger.calls +
        (if v.family == AF_INET && v.outcome == Failed(ENETUNREACH) then Unreached(s.hosts, s.nextId) else [])
  {
    var t := Insert(s, w, v, sock).0;
    var h := Fresh(w, s.nextId, s.inserts, v);
    if Transmits(v, t.listener.fd) && v.outcome.Failed? {
      var l := Transmit(s.ledger.(busy := s.ledger.busy + {w}), PayloadFor(h, v));
      assert s.hosts[..|s.hosts|] == s.hosts;
      if v.outcome.errno == ENETUNREACH {
        DroppedCalls(s.hosts, s.nextId, |s.hosts|, l);
      } else {
        MatchesNone(OnError(v.outcome.errno, s.nextId), s.hosts, |s.hosts|, l);
      }
    }
  }

  // ---------- inserts and the listener ----------

  /**
   * An insert over every run: refused or failed it changes nothing at all; it fails exactly when the
   * listener is down and the socket cannot be had; and it opens a socket only when there is none.
   */
  lemma InsertListens(proc: Process, es: seq<Event>, w: Worker, v: Visit, sock: SocketResult)
    ensures var s, t, r := Run(proc, es), Insert(Run(proc, es), w, v, sock).0, Insert(Run(proc, es), w, v, sock).1;
      && (r != Inserted ==> t == s)
      && (r == StartFailed <==> w !in s.ledger.busy && s.listener == DOWN && sock.Refused?)
      && (r == Inserted ==>
            t.listener == if s.listener == DOWN then Listener(sock.fd, true, true) else s.listener)
  {
    RunListens(proc, es);
    hide Run, LeftAfterSend, BooksAfterSend;
  }

  // ---------- datagrams ----------

  /** A datagram this process takes for an answer to the session with this id. */
  ghost predicate Answers(proc: Process, r: Receipt, id: u16) {
    && r.Received? && |r.datagram| == 60
    && r.datagram[24] as int * 0x100 + r.datagram[25] as int == proc.pid % 0x1_0000
    && r.datagram[20] != 8
    && Load16(proc.order, r.datagram[48..50]) == id
  }

  lemma AcceptedId(proc: Process, d: seq<byte>)
    requires |d| == 60
    ensures Accept(proc, d).Some? ==>
      Accept(proc, d).value.0 == d[20] && Accept(proc, d).value.1.id == Load16(proc.order, d[48..50])
  {
    hide Load16;
    assert d[20..][28..][..2] == d[48..50];
  }

  /** A datagram leaves everything as it is exactly when it answers no live session. */
  lemma ReceiveExactly(s: State, r: Receipt)
    ensures Receive(s, r) == s <==> forall j :: 0 <= j < |s.hosts| ==> !Answers(s.proc, r, s.hosts[j].id)
  {
    if r.Received? {
      AcceptExactly(s.proc, r.datagram);
      if Accept(s.proc, r.datagram).Some? {
        AcceptedId(s.proc, r.datagram);
        var (t, p) := Accept(s.proc, r.datagram).value;
        var c := OnResponse(t, p.id);
        SessionIds.DroppedLogs(c, s.hosts, |s.hosts|, s.ledger);
        hide Accept, Load16, Dropped, Kept;
        if forall j :: 0 <= j < |s.hosts| ==> Verdict(c, s.hosts[j].id, s.hosts[j].worker).None? {
          MatchesNone(c, s.hosts, |s.hosts|, s.ledger);
          assert s.hosts[..|s.hosts|] == s.hosts;
        }
      }
    }
  }

  // ---------- the wire ----------

  /** The requests are numbered from one on, modulo 65536. */
  ghost predicate Consecutive(l: Ledger) {
    && l.seqno == |l.wire| % 0x1_0000
    && forall k :: 0 <= k < |l.wire| ==> l.wire[k].number == (k + 1) % 0x1_0000
  }

  lemma TransmitConsecutive(l: Ledger, p: Payload)
    requires Consecutive(l)
    ensures Consecutive(Transmit(l, p))
  {
  }

  /** What does not transmit leaves wire and number alone. */
  lemma {:induction false} DroppedWire(c: Closure, hs: seq<Session>, k: nat, l: Ledger)
    requires k <= |hs|
    ensures var d := Dropped(c, hs, k, l); d.wire == l.wire && d.seqno == l.seqno
  {
    if k > 0 {
      DroppedWire(c, hs, k - 1, l);
    }
  }

  lemma CloseWire(l: Ledger, e: Ending)
    ensures Close(l, e).wire == l.wire && Close(l, e).seqno == l.seqno
  {
  }

  lemma SameWire(l: Ledger, m: Ledger)
    requires l.wire == m.wire && l.seqno == m.seqno && Consecutive(l)
    ensures Consecutive(m)
  {
  }

  lemma {:induction false} SweepConsecutive(m: March, env: nat -> Visit, fd: int)
    requires Consecutive(m.ledger)
    ensures Consecutive(Marched(m, env, fd).ledger)
    decreases |m.todo|
  {
    hide *;
    MarchStep(m, env, fd);
    if m.todo != [] {
      var v, h, n := env(m.visits), m.todo[0], Visited(m, env(m.visits), fd);
      VisitParts(m, v, fd);
      var p, w := PayloadFor(h, v), Linked(m)[|m.past| := Probed(h, v)];
      VisitBooks(m, v, fd);
      FourFates(h, v, fd);
      TransmitConsecutive(m.ledger, p);
      CloseWire(m.ledger, Ending(h, Expired));
      DroppedWire(OnError(ENETUNREACH, h.id), w, |w|, Transmit(m.ledger, p));
      if FateOf(h, v, fd).Ends? {
        SameWire(m.ledger, n.ledger);
      } else if FateOf(h, v, fd).Unreachable? {
        SameWire(Transmit(m.ledger, p), n.ledger);
      }
      SweepConsecutive(n, env, fd);
    }
  }

  lemma StepConsecutive(s: State, e: Event)
    requires Consecutive(s.ledger)
    ensures Consecutive(Step(s, e).ledger)
  {
    match e
    case EvInsert(w, v, sock) =>
      var (t, r) := Insert(s, w, v, sock);
      if r == Inserted {
        var h := Fresh(w, s.nextId, s.inserts, v);
        var l := s.ledger.(busy := s.ledger.busy + {w});
        TransmitConsecutive(l, PayloadFor(h, v));
        if v.outcome.Failed? {
          DroppedWire(OnError(v.outcome.errno, h.id), s.hosts, |s.hosts|, Transmit(l, PayloadFor(h, v)));
        }
      }
    case EvRemove(w) => DroppedWire(OwnedBy(w), s.hosts, |s.hosts|, s.ledger);
    case EvSweep(env) =>
      SweepOf(s, env);
      SweepConsecutive(Departure(s), env, s.listener.fd);
    case EvReceive(r) =>
      if r.Received? && Accept(s.proc, r.datagram).Some? {
        var (t, p) := Accept(s.proc, r.datagram).value;
        DroppedWire(OnResponse(t, p.id), s.hosts, |s.hosts|, s.ledger);
      }
  }

  /** Over every run the requests on the wire are numbered 1, 2, 3 and so on, modulo 65536. */
  lemma {:induction false} WireNumbered(proc: Process, es: seq<Event>)
    ensures Consecutive(Run(proc, es).ledger)
  {
    if es != [] {
      WireNumbered(proc, es[..|es| - 1]);
      StepConsecutive(Run(proc, es[..|es| - 1]), es[|es| - 1]);
    }
  }

  // ---------- payloads ----------

  /** Who is still to be attended in a sweep is as it was when the sweep began. */
  lemma TodoShrinks(m: March, v: Visit, fd: int)
    requires m.todo != []
    ensures forall h :: h in Visited(m, v, fd).todo ==> h in m.todo
  {
    hide *;
    var rest := m.todo[1..];
    VisitUnfold(m, v, fd);
    FourFates(m.todo[0], v, fd);
    KeptSubset(OnError(ENETUNREACH, m.todo[0].id), rest, |rest|);
  }

  lemma {:induction false} AttemptFrom(m: March, env: nat -> Visit, fd: int, serial: nat, p: Payload, v: Visit)
    requires AttemptsOn(m, env, fd, serial, p, v)
    ensures exists h :: h in m.todo && h.serial == serial && p == PayloadFor(h, v)
    decreases |m.todo|
  {
    var now := env(m.visits);
    if !AttemptsIn(m.todo[0], now, serial, p, v) {
      AttemptFrom(Visited(m, now, fd), env, fd, serial, p, v);
      TodoShrinks(m, now, fd);
    } else {
      assert m.todo[0] in m.todo;
    }
  }

  /**
   * Over every run the payload a session hands to send bears its id, the time stamp read for it, and the
   * number of packets it has prepared with this one: one at its opening.
   */
  lemma PayloadsOf(proc: Process, es: seq<Event>, e: Event, serial: nat, p: Payload, v: Visit)
    requires Attempts(Run(proc, es), e, serial, p, v)
    ensures p.id == serial % 0x1_0000 && p.time == v.stamp
    ensures e.EvInsert? ==> p.seqno == 1
    ensures e.EvSweep? ==>
      exists h :: h in Run(proc, es).hosts && h.serial == serial && p.seqno == (h.sent + 1) % 0x1_0000
  {
    hide *;
    var s := Run(proc, es);
    RunNumbers(proc, es);
    AttemptMeans(s, e, serial, p, v);
    if e.EvSweep? {
      SweepOf(s, e.env);
      AttemptFrom(Departure(s), e.env, s.listener.fd, serial, p, v);
      var h :| h in s.hosts && h.serial == serial && p == PayloadFor(h, v);
      NumberedAll(s);
      PayloadNumbers(h, v);
    }
  }

  lemma AttemptMeans(s: State, e: Event, serial: nat, p: Payload, v: Visit)
    requires Attempts(s, e, serial, p, v) && Numbered(s)
    ensures e.EvInsert? || e.EvSweep?
    ensures e.EvInsert? ==> p.id == serial % 0x1_0000 && p.time == v.stamp && p.seqno == 1
    ensures e.EvSweep? ==> AttemptsOn(Departure(s), e.env, s.listener.fd, serial, p, v)
  {
    hide Insert, AttemptsOn;
  }

  lemma PayloadNumbers(h: Session, v: Visit)
    requires WellNumbered(h)
    ensures PayloadFor(h, v) == Payload(h.serial % 0x1_0000, (h.sent + 1) % 0x1_0000, v.stamp)
  {
  }

  /** After a send a session that is in time waits exactly until an interval after the clock read for that send. */
  lemma DueAgainExactly(h: Session, v: Visit, later: Visit, fd: int)
    ensures FateOf(Probed(h, v), later, fd).Waits? <==>
      later.now <= h.timeout && later.now < v.sentAt + h.worker.interval
  {
  }
}
