/** What single steps do in the states a run can reach, and how long and how often a session probes. */
module SessionLaws {
  import opened Bytes
  import opened Arithmetic
  import opened Echo
  import opened Sessions
  import opened SessionRuns

  // ---------- ids ----------

  /** What every session keeps from its opening on: the wrapped fields are the history modulo 65536. */
  ghost predicate WellNumbered(h: Session) {
    && h.id == h.serial % 0x1_0000
    && h.packets == h.sent % 0x1_0000
    && h.sent >= 1
    && h.timeout == h.started + h.worker.interval
  }

  ghost predicate Numbered(s: State) {
    && s.nextId == s.inserts % 0x1_0000
    && (forall h :: h in s.hosts ==> WellNumbered(h))
  }

  lemma {:induction false} KeptSubset(c: Closure, hs: seq<Session>, k: nat)
    requires k <= |hs|
    ensures forall h :: h in Kept(c, hs, k) ==> h in hs && Verdict(c, h.id, h.worker).None?
  {
    if k > 0 {
      KeptSubset(c, hs, k - 1);
    }
  }

  /** Who is linked after a visit was linked before it, or is the session attended with one more packet prepared. */
  lemma VisitFrom(m: March, v: Visit, fd: int, g: Session)
    requires m.todo != [] && g in Linked(Visited(m, v, fd))
    ensures g in Linked(m) || (FateOf(m.todo[0], v, fd).Probes? && g == Probed(m.todo[0], v))
  {
    hide *;
    VisitParts(m, v, fd);
    FourFates(m.todo[0], v, fd);
    var l, i := Linked(m), |m.past|;
    var w := l[i := Probed(l[i], v)];
    var c := OnError(ENETUNREACH, l[i].id);
    if FateOf(m.todo[0], v, fd).Unreachable? {
      KeptSubset(c, w, |w|);
      RefusesItself(l[i], v);
    }
  }

  lemma RefusesItself(h: Session, v: Visit)
    ensures var g := Probed(h, v); Verdict(OnError(ENETUNREACH, h.id), g.id, g.worker).Some?
  {
  }

  /** A property of sessions that every visit of a sweep keeps holds of all the sweep leaves. */
  lemma {:induction false} SweepKeeps(m: March, env: nat -> Visit, fd: int, keeps: Session -> bool)
    requires forall h :: h in Linked(m) ==> keeps(h)
    requires forall h, k: nat :: keeps(h) && FateOf(h, env(k), fd).Probes? ==> keeps(Probed(h, env(k)))
    ensures forall g :: g in Marched(m, env, fd).past ==> keeps(g)
    decreases |m.todo|
  {
    hide *;
    MarchStep(m, env, fd);
    if m.todo != [] {
      var v := env(m.visits);
      InLinked(m);
      forall g | g in Linked(Visited(m, v, fd)) ensures keeps(g) {
        VisitFrom(m, v, fd, g);
      }
      SweepKeeps(Visited(m, v, fd), env, fd, keeps);
    }
  }

  lemma InLinked(m: March)
    requires m.todo != []
    ensures m.todo[0] in Linked(m)
  {
    assert Linked(m)[|m.past|] == m.todo[0];
  }

  lemma ProbedNumbered(h: Session, v: Visit)
    requires WellNumbered(h)
    ensures WellNumbered(Probed(h, v))
  {
  }

  lemma StepNumbers(s: State, e: Event)
    requires Numbered(s)
    ensures Numbered(Step(s, e))
  {
    hide FateOf, Marched, Sweep, Departure;
    match e
    case EvInsert(w, v, sock) =>
      var (t, r) := Insert(s, w, v, sock);
      if r == Inserted && Transmits(v, t.listener.fd) && v.outcome.Failed? {
        KeptSubset(OnError(v.outcome.errno, s.nextId), s.hosts, |s.hosts|);
      }
    case EvRemove(w) => KeptSubset(OwnedBy(w), s.hosts, |s.hosts|);
    case EvSweep(env) =>
      SweepOf(s, env);
      forall h, k: nat | WellNumbered(h) && FateOf(h, env(k), s.listener.fd).Probes?
        ensures WellNumbered(Probed(h, env(k)))
      {
        ProbedNumbered(h, env(k));
      }
      SweepKeeps(Departure(s), env, s.listener.fd, h => WellNumbered(h));
    case EvReceive(r) =>
      if r.Received? && Accept(s.proc, r.datagram).Some? {
        var (t, p) := Accept(s.proc, r.datagram).value;
        KeptSubset(OnResponse(t, p.id), s.hosts, |s.hosts|);
      }
  }

  lemma {:induction false} RunNumbers(proc: Process, es: seq<Event>)
    ensures Numbered(Run(proc, es))
  {
    if es != [] {
      RunNumbers(proc, es[..|es| - 1]);
      StepNumbers(Run(proc, es[..|es| - 1]), es[|es| - 1]);
    }
  }

  /** Two serial numbers whose ids are different. */
  predicate Apart(a: nat, b: nat) {
    (a - b) % 0x1_0000 != 0
  }

  lemma ApartExactly(a: nat, b: nat)
    ensures a % 0x1_0000 != b % 0x1_0000 <==> Apart(a, b)
  {
    var p, q := a / 0x1_0000, b / 0x1_0000;
    assert a - b == 0x1_0000 * (p - q) + (a % 0x1_0000 - b % 0x1_0000);
  }

  lemma NearbyApart(a: nat, b: nat)
    requires a != b && -0x1_0000 < a - b < 0x1_0000
    ensures Apart(a, b)
  {
  }

  lemma {:induction false} DistinctExactly(hs: seq<Session>)
    requires forall h :: h in hs ==> WellNumbered(h)
    ensures DistinctIds(hs) <==> forall i, j :: 0 <= i < j < |hs| ==> Apart(hs[i].serial, hs[j].serial)
  {
    hide Apart, WellNumbered;
    forall i, j | 0 <= i < j < |hs| ensures hs[i].id != hs[j].id <==> Apart(hs[i].serial, hs[j].serial) {
      NumbersApart(hs[i], hs[j]);
    }
    if DistinctIds(hs) {
      forall i, j | 0 <= i < j < |hs| ensures Apart(hs[i].serial, hs[j].serial) {
        IdsDiffer(hs, i, j);
      }
    }
    if forall i, j :: 0 <= i < j < |hs| ==> Apart(hs[i].serial, hs[j].serial) {
      IdsAllDiffer(hs);
    }
  }

  lemma NumbersApart(g: Session, h: Session)
    requires WellNumbered(g) && WellNumbered(h)
    ensures g.id != h.id <==> Apart(g.serial, h.serial)
  {
    ApartExactly(g.serial, h.serial);
  }

  /**
   * In a reachable state the 16-bit ids of the live sessions are distinct exactly when no two were
   * opened a multiple of 65536 inserts apart.
   */
  lemma IdsDistinctExactly(proc: Process, es: seq<Event>)
    ensures var hs := Run(proc, es).hosts;
      DistinctIds(hs) <==> forall i, j :: 0 <= i < j < |hs| ==> Apart(hs[i].serial, hs[j].serial)
  {
    RunNumbers(proc, es);
    DistinctExactly(Run(proc, es).hosts);
  }

  /** Every live session is among the last n inserts. */
  ghost predicate Recent(s: State, n: nat) {
    forall h :: h in s.hosts ==> s.inserts - h.serial <= n
  }

  /** While every live session is among the last 65536 inserts, live ids are pairwise distinct. */
  lemma RecentIdsDistinct(proc: Process, es: seq<Event>)
    requires Recent(Run(proc, es), 0x1_0000)
    ensures DistinctIds(Run(proc, es).hosts)
  {
    var s := Run(proc, es);
    hide Apart;
    forall i, j | 0 <= i < j < |s.hosts| ensures Apart(s.hosts[i].serial, s.hosts[j].serial) {
      LiveSerialsDistinct(proc, es, i, j);
      Conservation(proc, es, s.hosts[j].serial);
      LiveAt(s.hosts, j);
      NearbyApart(s.hosts[i].serial, s.hosts[j].serial);
    }
    IdsDistinctExactly(proc, es);
  }

  /** What a datagram does to a list with distinct ids: it ends the session it names, or nothing. */
  lemma DatagramEndsAtMostOne(s: State, r: Receipt)
    requires DistinctIds(s.hosts)
    ensures var t := Receive(s, r);
      t == s ||
      exists i, how ::
        && 0 <= i < |s.hosts|
        && t == s.(hosts := s.hosts[..i] + s.hosts[i + 1..], ledger := Close(s.ledger, Ending(s.hosts[i], how)))
  {
    if r.Received? && Accept(s.proc, r.datagram).Some? {
      var (ty, p) := Accept(s.proc, r.datagram).value;
      var c := OnResponse(ty, p.id);
      if i :| 0 <= i < |s.hosts| && s.hosts[i].id == p.id {
        NamedOnly(s, c, i, p.id);
      } else {
        MatchesNone(c, s.hosts, |s.hosts|, s.ledger);
        assert s.hosts[..|s.hosts|] == s.hosts;
      }
    }
  }

  /** A closure about an id, when the i-th session is the one that has it. */
  lemma NamedOnly(s: State, c: Closure, i: nat, id: u16)
    requires DistinctIds(s.hosts) && i < |s.hosts| && s.hosts[i].id == id
    requires (c.OnError? && c.id == id) || (c.OnResponse? && c.id == id)
    ensures var m := Verdict(c, id, s.hosts[i].worker);
      RemoveIf(s, c) == if m.None? then s
        else s.(hosts := s.hosts[..i] + s.hosts[i + 1..], ledger := Close(s.ledger, Ending(s.hosts[i], m.value)))
  {
    forall j | 0 <= j < |s.hosts| && j != i ensures s.hosts[j].id != id {
      if j < i {
        IdsDiffer(s.hosts, j, i);
      } else {
        IdsDiffer(s.hosts, i, j);
      }
    }
    MatchesOnly(c, s.hosts, i, |s.hosts|, s.ledger);
    assert s.hosts[..|s.hosts|] == s.hosts;
    assert s.hosts[i + 1..|s.hosts|] == s.hosts[i + 1..];
  }

  lemma {:induction false} KeptExactly(c: Closure, hs: seq<Session>, k: nat, h: Session)
    requires k <= |hs|
    ensures h in Kept(c, hs, k) <==> h in hs[..k] && Verdict(c, h.id, h.worker).None?
  {
    if k > 0 {
      KeptExactly(c, hs, k - 1, h);
      assert hs[..k] == hs[..k - 1] + [hs[k - 1]];
    }
  }

  // ---------- cancellation ----------

  /**
   * Over every run a cancellation calls nobody; it leaves list and books alone when the worker is idle,
   * and otherwise takes out the one session the worker has, freeing it, and leaves the others in order.
   */
  lemma RemoveExactly(proc: Process, es: seq<Event>, w: Worker)
    ensures var s, t := Run(proc, es), Remove(Run(proc, es), w);
      && t.ledger.calls == s.ledger.calls
      && (w !in s.ledger.busy ==> t.hosts == s.hosts && t.ledger == s.ledger)
      && (w in s.ledger.busy ==>
            exists i ::
              && 0 <= i < |s.hosts| && s.hosts[i].worker == w
              && t.hosts == s.hosts[..i] + s.hosts[i + 1..]
              && t.ledger == Close(s.ledger, Ending(s.hosts[i], Cancelled)))
      && t.listener == if t.hosts == [] then DOWN else s.listener
  {
    hide *;
    var s := Run(proc, es);
    BusyExactlyWhenLive(proc, es, w);
    RemoveMeans(s, w);
    if w in s.ledger.busy {
      var i :| 0 <= i < |s.hosts| && s.hosts[i].worker == w;
      forall j | 0 <= j < |s.hosts| && j != i ensures s.hosts[j].worker != w {
        assert if j < i then s.hosts[j].worker != s.hosts[i].worker else s.hosts[i].worker != s.hosts[j].worker;
      }
      CancelsOne(s, w, i);
    } else {
      CancelsNone(s, w);
    }
  }

  lemma RemoveMeans(s: State, w: Worker)
    ensures var t, u := Remove(s, w), RemoveIf(s, OwnedBy(w));
      && t.hosts == u.hosts && t.ledger == u.ledger
      && t.listener == if t.hosts == [] then DOWN else s.listener
  {
  }

  lemma CancelsOne(s: State, w: Worker, i: nat)
    requires i < |s.hosts| && s.hosts[i].worker == w
    requires forall j :: 0 <= j < |s.hosts| && j != i ==> s.hosts[j].worker != w
    ensures var t := RemoveIf(s, OwnedBy(w));
      && t.hosts == s.hosts[..i] + s.hosts[i + 1..]
      && t.ledger == Close(s.ledger, Ending(s.hosts[i], Cancelled)) && t.ledger.calls == s.ledger.calls
  {
    MatchesOnly(OwnedBy(w), s.hosts, i, |s.hosts|, s.ledger);
    hide Kept, Dropped;
    assert s.hosts[i + 1..|s.hosts|] == s.hosts[i + 1..];
  }

  lemma CancelsNone(s: State, w: Worker)
    requires forall j :: 0 <= j < |s.hosts| ==> s.hosts[j].worker != w
    ensures RemoveIf(s, OwnedBy(w)).hosts == s.hosts && RemoveIf(s, OwnedBy(w)).ledger == s.ledger
  {
    MatchesNone(OwnedBy(w), s.hosts, |s.hosts|, s.ledger);
    hide Kept, Dropped;
    assert s.hosts[..|s.hosts|] == s.hosts;
  }

  // ---------- replies ----------

  /**
   * A reply that carries a packet of a live session back, changed only in type and checksum, ends that
   * session and no other, with the callback an echo reply owes; the request itself looped back changes
   * nothing; and any other type ends it with what that type owes.
   */
  lemma ReplyEndsItsSession(s: State, i: nat, number: u16, p: Payload, icmpType: byte, datagram: seq<byte>)
    requires DistinctIds(s.hosts) && i < |s.hosts| && p.id == s.hosts[i].id
    requires Echoes(datagram, Packet(s.proc, number, p), icmpType)
    ensures Receive(s, Received(datagram)) ==
      if icmpType == ECHO_REQUEST then s
      else s.(hosts := s.hosts[..i] + s.hosts[i + 1..],
              ledger := Close(s.ledger, Ending(s.hosts[i], Answered(icmpType))))
  {
    EchoRoundTrip(s.proc, number, p, datagram, icmpType);
    NamedOnly(s, OnResponse(icmpType, p.id), i, p.id);
  }

  /** In this step the session with this serial number has this payload put on the wire. */
  ghost predicate Sends(s: State, e: Event, serial: nat, p: Payload) {
    match e
    case EvInsert(w, v, sock) =>
      var (t, r) := Insert(s, w, v, sock);
      r == Inserted && Transmits(v, t.listener.fd) && serial == s.inserts
      && p == PayloadFor(Fresh(w, s.nextId, s.inserts, v), v)
    case EvSweep(env) => SendsOn(Departure(s), env, s.listener.fd, serial, p)
    case EvRemove(_) => false
    case EvReceive(_) => false
  }

  ghost predicate SendsIn(h: Session, v: Visit, fd: int, serial: nat, p: Payload) {
    Asks(FateOf(h, v, fd)) && h.serial == serial && p == PayloadFor(h, v)
  }

  /** In the rest of a sweep. */
  ghost predicate SendsOn(m: March, env: nat -> Visit, fd: int, serial: nat, p: Payload)
    decreases |m.todo|
  {
    m.todo != [] &&
    (SendsIn(m.todo[0], env(m.visits), fd, serial, p) || SendsOn(Visited(m, env(m.visits), fd), env, fd, serial, p))
  }

  lemma VisitSends(m: March, v: Visit, fd: int, q: Request)
    requires m.todo != [] && q in Visited(m, v, fd).ledger.wire && q !in m.ledger.wire
    ensures SendsIn(m.todo[0], v, fd, m.todo[0].serial, q.payload)
  {
    var h, l, i := m.todo[0], Linked(m), |m.past|;
    var w := l[i := Probed(l[i], v)];
    VisitParts(m, v, fd);
    VisitBooks(m, v, fd);
    hide Kept, Dropped, Visited, Linked;
    if FateOf(h, v, fd).Unreachable? {
      DroppedSendsNothing(OnError(ENETUNREACH, h.id), w, |w|, Transmit(m.ledger, PayloadFor(h, v)));
    }
  }

  /** What a sweep adds to the wire was sent by sessions it attended. */
  lemma {:induction false} SweepSends(m: March, env: nat -> Visit, fd: int, q: Request)
    requires q in Marched(m, env, fd).ledger.wire && q !in m.ledger.wire
    ensures exists serial :: SendsOn(m, env, fd, serial, q.payload)
    decreases |m.todo|
  {
    MarchStep(m, env, fd);
    hide Marched, Visited, FateOf, SendsIn;
    var n := Visited(m, env(m.visits), fd);
    if q in n.ledger.wire {
      VisitSends(m, env(m.visits), fd, q);
      assert SendsOn(m, env, fd, m.todo[0].serial, q.payload);
    } else {
      SweepSends(n, env, fd, q);
      var serial :| SendsOn(n, env, fd, serial, q.payload);
      assert SendsOn(m, env, fd, serial, q.payload);
    }
  }

  /** A payload sent in a sweep bears the id of its sender. */
  lemma {:induction false} SendsOnId(m: March, env: nat -> Visit, fd: int, serial: nat, p: Payload)
    requires SendsOn(m, env, fd, serial, p) && forall h :: h in Linked(m) ==> WellNumbered(h)
    ensures p.id == serial % 0x1_0000
    decreases |m.todo|
  {
    InLinked(m);
    var v := env(m.visits);
    if !SendsIn(m.todo[0], v, fd, serial, p) {
      forall g | g in Linked(Visited(m, v, fd)) ensures WellNumbered(g) {
        VisitFrom(m, v, fd, g);
        ProbedNumbered(m.todo[0], v);
      }
      SendsOnId(Visited(m, v, fd), env, fd, serial, p);
    }
  }

  lemma {:induction false} DroppedSendsNothing(c: Closure, hs: seq<Session>, k: nat, l: Ledger)
    requires k <= |hs|
    ensures Dropped(c, hs, k, l).wire == l.wire
  {
    if k > 0 {
      DroppedSendsNothing(c, hs, k - 1, l);
    }
  }

  lemma StepSends(s: State, e: Event, q: Request)
    requires q in Step(s, e).ledger.wire && q !in s.ledger.wire
    ensures exists serial :: Sends(s, e, serial, q.payload)
  {
    match e
    case EvInsert(w, v, sock) =>
      var (t, r) := Insert(s, w, v, sock);
      if r == Inserted && Transmits(v, t.listener.fd) {
        var h := Fresh(w, s.nextId, s.inserts, v);
        var l := Transmit(s.ledger.(busy := s.ledger.busy + {w}), PayloadFor(h, v));
        if v.outcome.Failed? {
          DroppedSendsNothing(OnError(v.outcome.errno, h.id), s.hosts, |s.hosts|, l);
        }
        assert Sends(s, e, s.inserts, q.payload);
      }
    case EvRemove(w) => DroppedSendsNothing(OwnedBy(w), s.hosts, |s.hosts|, s.ledger);
    case EvSweep(env) =>
      SweepOf(s, env);
      SweepSends(Departure(s), env, s.listener.fd, q);
      var serial :| SendsOn(Departure(s), env, s.listener.fd, serial, q.payload);
      assert Sends(s, e, serial, q.payload);
    case EvReceive(r) =>
      if r.Received? && Accept(s.proc, r.datagram).Some? {
        var (t, p) := Accept(s.proc, r.datagram).value;
        DroppedSendsNothing(OnResponse(t, p.id), s.hosts, |s.hosts|, s.ledger);
      }
  }

  /** In this step the session with this serial number prepares this payload and calls send, with these answers. */
  ghost predicate Attempts(s: State, e: Event, serial: nat, p: Payload, v: Visit) {
    match e
    case EvInsert(w, visit, sock) =>
      Insert(s, w, visit, sock).1 == Inserted && v == visit && serial == s.inserts
      && p == PayloadFor(Fresh(w, s.nextId, s.inserts, v), v)
    case EvSweep(env) => AttemptsOn(Departure(s), env, s.listener.fd, serial, p, v)
    case EvRemove(_) => false
    case EvReceive(_) => false
  }

  /** In the rest of a sweep: a session attended not before its next packet is due, and not past its deadline. */
  ghost predicate AttemptsOn(m: March, env: nat -> Visit, fd: int, serial: nat, p: Payload, v: Visit)
    decreases |m.todo|
  {
    m.todo != [] &&
    (AttemptsIn(m.todo[0], env(m.visits), serial, p, v)
     || AttemptsOn(Visited(m, env(m.visits), fd), env, fd, serial, p, v))
  }

  predicate AttemptsIn(h: Session, now: Visit, serial: nat, p: Payload, v: Visit) {
    v == now && h.serial == serial && h.next <= now.now <= h.timeout && p == PayloadFor(h, now)
  }

  lemma SendsInExactly(h: Session, now: Visit, fd: int, serial: nat, p: Payload)
    requires fd >= 0
    ensures SendsIn(h, now, fd, serial, p) <==> AttemptsIn(h, now, serial, p, now) && now.family == AF_INET
  {
  }

  lemma {:induction false} SendsOnExactly(m: March, env: nat -> Visit, fd: int, serial: nat, p: Payload)
    requires fd >= 0
    ensures SendsOn(m, env, fd, serial, p) <==>
      exists v: Visit :: AttemptsOn(m, env, fd, serial, p, v) && v.family == AF_INET
    decreases |m.todo|
  {
    if m.todo != [] {
      var now := env(m.visits);
      var n := Visited(m, now, fd);
      SendsInExactly(m.todo[0], now, fd, serial, p);
      SendsOnExactly(n, env, fd, serial, p);
      hide Visited, SendsIn;
      if SendsIn(m.todo[0], now, fd, serial, p) {
        assert AttemptsOn(m, env, fd, serial, p, now);
      } else if SendsOn(n, env, fd, serial, p) {
        var v: Visit :| AttemptsOn(n, env, fd, serial, p, v) && v.family == AF_INET;
        assert AttemptsOn(m, env, fd, serial, p, v);
      }
      if v: Visit :| AttemptsOn(m, env, fd, serial, p, v) && v.family == AF_INET {
        assert AttemptsIn(m.todo[0], now, serial, p, v) || AttemptsOn(n, env, fd, serial, p, v);
      }
    }
  }

  /**
   * In every run no call of send finds the controller not available: each payload prepared in a step is
   * put on the wire exactly when the worker's address is an IPv4 one.
   */
  lemma SendsExactly(proc: Process, es: seq<Event>, e: Event, serial: nat, p: Payload)
    ensures var s := Run(proc, es);
      Sends(s, e, serial, p) <==> exists v: Visit :: Attempts(s, e, serial, p, v) && v.family == AF_INET
  {
    var s := Run(proc, es);
    RunListens(proc, es);
    hide Run;
    match e
    case EvInsert(w, v, sock) =>
      if Sends(s, e, serial, p) {
        assert Attempts(s, e, serial, p, v);
      }
    case EvSweep(env) =>
      if s.hosts != [] {
        SendsOnExactly(Departure(s), env, s.listener.fd, serial, p);
        hide SendsOn, AttemptsOn;
        if Sends(s, e, serial, p) {
          var v: Visit :| AttemptsOn(Departure(s), env, s.listener.fd, serial, p, v) && v.family == AF_INET;
          assert Attempts(s, e, serial, p, v);
        }
      }
    case EvRemove(_) =>
    case EvReceive(_) =>
  }

  /** The session with this serial number put this payload on the wire at some step of the run. */
  ghost predicate Sent(proc: Process, es: seq<Event>, serial: nat, p: Payload) {
    exists k :: 0 <= k < |es| && Sends(Run(proc, es[..k]), es[k], serial, p)
  }

  /** Every request on the wire of a run was sent by one of its sessions. */
  lemma {:induction false} WireIsSent(proc: Process, es: seq<Event>, q: Request)
    requires q in Run(proc, es).ledger.wire
    ensures exists serial :: Sent(proc, es, serial, q.payload)
  {
    var before, e := es[..|es| - 1], es[|es| - 1];
    if q in Run(proc, before).ledger.wire {
      WireIsSent(proc, before, q);
      var serial :| Sent(proc, before, serial, q.payload);
      var k :| 0 <= k < |before| && Sends(Run(proc, before[..k]), before[k], serial, q.payload);
      assert before[..k] == es[..k] && before[k] == es[k];
      assert Sent(proc, es, serial, q.payload);
    } else {
      StepSends(Run(proc, before), e, q);
      var serial :| Sends(Run(proc, before), e, serial, q.payload);
      assert es[..|es| - 1] == before;
      assert Sent(proc, es, serial, q.payload);
    }
  }

  /** A payload bears the id of the session that sent it. */
  lemma SentId(proc: Process, es: seq<Event>, serial: nat, p: Payload)
    requires Sent(proc, es, serial, p)
    ensures p.id == serial % 0x1_0000
  {
    var k :| 0 <= k < |es| && Sends(Run(proc, es[..k]), es[k], serial, p);
    RunNumbers(proc, es[..k]);
    var s := Run(proc, es[..k]);
    match es[k]
    case EvInsert(_, _, _) =>
    case EvRemove(_) =>
    case EvSweep(env) =>
      SweepOf(s, env);
      SendsOnId(Departure(s), env, s.listener.fd, serial, p);
    case EvReceive(_) =>
  }

  /**
   * Over every run: each request on the wire was sent by a session of the run, and while ids are
   * distinct, a reply that carries it back to a session still live that sent it ends that session
   * and no other.
   */
  lemma ReplyEndsItsSender(proc: Process, es: seq<Event>, q: Request, serial: nat, i: nat, datagram: seq<byte>)
    requires q in Run(proc, es).ledger.wire && Echoes(datagram, Packet(proc, q.number, q.payload), ECHO_REPLY)
    requires DistinctIds(Run(proc, es).hosts)
    ensures exists n :: Sent(proc, es, n, q.payload)
    ensures var s := Run(proc, es);
      Sent(proc, es, serial, q.payload) && i < |s.hosts| && s.hosts[i].serial == serial ==>
        Receive(s, Received(datagram)) ==
          s.(hosts := s.hosts[..i] + s.hosts[i + 1..],
             ledger := Close(s.ledger, Ending(s.hosts[i], Answered(ECHO_REPLY))))
  {
    var s := Run(proc, es);
    WireIsSent(proc, es, q);
    RunNumbers(proc, es);
    RunProcess(proc, es);
    if Sent(proc, es, serial, q.payload) && i < |s.hosts| && s.hosts[i].serial == serial {
      SentId(proc, es, serial, q.payload);
      assert s.hosts[i] in s.hosts;
      ReplyEndsItsSession(s, i, q.number, q.payload, ECHO_REPLY, datagram);
    }
  }

  lemma {:induction false} RunProcess(proc: Process, es: seq<Event>)
    ensures Run(proc, es).proc == proc
  {
    if es != [] {
      RunProcess(proc, es[..|es| - 1]);
    }
  }

  // ---------- the sweep ----------

  /** How many of the requests carry this session id. */
  ghost function Requests(wire: seq<Request>, id: u16): nat {
    if wire == [] then 0
    else Requests(wire[..|wire| - 1], id) + if wire[|wire| - 1].payload.id == id then 1 else 0
  }

  predicate Asks(f: Fate) {
    f == Probes(true) || f.Unreachable?
  }

  // ---------- a sweep over distinct ids ----------

  /** What a sweep over distinct ids leaves of the first k sessions: the i-th is attended with the answers env(i). */
  function Survivors(hs: seq<Session>, env: nat -> Visit, fd: int, k: nat): seq<Session>
    requires k <= |hs|
  {
    if k == 0 then []
    else
      var f := FateOf(hs[k - 1], env(k - 1), fd);
      if Survives(f) then Survivors(hs, env, fd, k - 1) + [Attended(hs[k - 1], env(k - 1), f)]
      else Survivors(hs, env, fd, k - 1)
  }

  /** What one session's fate does to the books when nobody else has its id. */
  function Settle(l: Ledger, h: Session, v: Visit, f: Fate): Ledger {
    match f
    case Ends => Close(l, Ending(h, Expired))
    case Waits => l
    case Probes(transmitted) => if transmitted then Transmit(l, PayloadFor(h, v)) else l
    case Unreachable => Close(Transmit(l, PayloadFor(h, v)), Ending(Probed(h, v), NoRoute))
  }

  function Settled(l: Ledger, hs: seq<Session>, env: nat -> Visit, fd: int, k: nat): Ledger
    requires k <= |hs|
  {
    if k == 0 then l
    else
      Settle(Settled(l, hs, env, fd, k - 1), hs[k - 1], env(k - 1), FateOf(hs[k - 1], env(k - 1), fd))
  }

  /** The sweep over these sessions when the first k have been attended. */
  function Midway(hs: seq<Session>, l: Ledger, env: nat -> Visit, fd: int, k: nat): March
    requires k <= |hs|
  {
    March(Survivors(hs, env, fd, k), hs[k..], Settled(l, hs, env, fd, k), k)
  }

  lemma {:induction false} SurvivorIds(hs: seq<Session>, env: nat -> Visit, fd: int, k: nat, j: nat)
    requires k < |hs| && DistinctIds(hs) && j < |Survivors(hs, env, fd, k)|
    ensures Survivors(hs, env, fd, k)[j].id != hs[k].id
  {
    SurvivorIdsFrom(hs, env, fd, k, j);
    var i :| 0 <= i < k && Survivors(hs, env, fd, k)[j].id == hs[i].id;
    IdsDiffer(hs, i, k);
  }

  lemma {:induction false} SurvivorIdsFrom(hs: seq<Session>, env: nat -> Visit, fd: int, k: nat, j: nat)
    requires k <= |hs| && j < |Survivors(hs, env, fd, k)|
    ensures exists i :: 0 <= i < k && Survivors(hs, env, fd, k)[j].id == hs[i].id
  {
    hide FateOf;
    if j < |Survivors(hs, env, fd, k - 1)| {
      SurvivorIdsFrom(hs, env, fd, k - 1, j);
    } else {
      assert Survivors(hs, env, fd, k)[j].id == hs[k - 1].id;
    }
  }

  /** A send refused when nobody else has the sender's id. */
  lemma RefusedAlone(past: seq<Session>, h: Session, v: Visit, rest: seq<Session>, l: Ledger)
    requires forall j :: 0 <= j < |past| ==> past[j].id != h.id
    requires forall j :: 0 <= j < |rest| ==> rest[j].id != h.id
    ensures var c, w := OnError(ENETUNREACH, h.id), past + [Probed(h, v)] + rest;
      && Kept(c, past, |past|) == past && Kept(c, rest, |rest|) == rest
      && Dropped(c, w, |w|, l) == Close(l, Ending(Probed(h, v), NoRoute))
  {
    var c, w := OnError(ENETUNREACH, h.id), past + [Probed(h, v)] + rest;
    MatchesNone(c, past, |past|, l);
    MatchesNone(c, rest, |rest|, l);
    MatchesOnly(c, w, |past|, |w|, l);
    assert past[..|past|] == past && rest[..|rest|] == rest;
  }

  /** A visit when nobody else linked has the id of the session attended. */
  lemma VisitAlone(m: March, v: Visit, fd: int)
    requires m.todo != []
    requires forall j :: 0 <= j < |m.past| ==> m.past[j].id != m.todo[0].id
    requires forall j :: 0 <= j < |m.todo| - 1 ==> m.todo[1..][j].id != m.todo[0].id
    ensures var h, f := m.todo[0], FateOf(m.todo[0], v, fd);
      Visited(m, v, fd) == March(if Survives(f) then m.past + [Attended(h, v, f)] else m.past,
                                 m.todo[1..], Settle(m.ledger, h, v, f), m.visits + 1)
    ensures !LosesNow(m, v, fd)
  {
    hide *;
    var h, rest := m.todo[0], m.todo[1..];
    RefusedAlone(m.past, h, v, rest, Transmit(m.ledger, PayloadFor(h, v)));
    VisitUnfold(m, v, fd);
    VisitBooks(m, v, fd);
    LosesSameId(m, v, fd);
    assert |m.todo| > 1 ==> m.todo[1] == rest[0];
    FourFates(h, v, fd);
    SettleCases(m.ledger, h, v, FateOf(h, v, fd));
  }

  lemma VisitDistinct(hs: seq<Session>, l: Ledger, env: nat -> Visit, fd: int, k: nat)
    requires k < |hs| && DistinctIds(hs)
    ensures var m := Midway(hs, l, env, fd, k);
      && m.todo != [] && m.visits == k && !LosesNow(m, env(k), fd)
      && Visited(m, env(k), fd) == Midway(hs, l, env, fd, k + 1)
  {
    hide *;
    var m := Midway(hs, l, env, fd, k);
    MidwayParts(hs, l, env, fd, k);
    MidwayParts(hs, l, env, fd, k + 1);
    MidwayStep(hs, l, env, fd, k);
    assert m.todo[0] == hs[k] && m.todo[1..] == hs[k + 1..];
    forall j | 0 <= j < |m.past| ensures m.past[j].id != hs[k].id {
      SurvivorIds(hs, env, fd, k, j);
    }
    forall j | 0 <= j < |m.todo| - 1 ensures m.todo[1..][j].id != hs[k].id {
      IdsDiffer(hs, k, k + 1 + j);
    }
    VisitAlone(m, env(k), fd);
  }

  lemma MidwayParts(hs: seq<Session>, l: Ledger, env: nat -> Visit, fd: int, k: nat)
    requires k <= |hs|
    ensures var m := Midway(hs, l, env, fd, k);
      && m.past == Survivors(hs, env, fd, k) && m.todo == hs[k..] && m.visits == k
      && m.ledger == Settled(l, hs, env, fd, k)
  {
  }

  lemma MidwayStep(hs: seq<Session>, l: Ledger, env: nat -> Visit, fd: int, k: nat)
    requires k < |hs|
    ensures var h, v, f := hs[k], env(k), FateOf(hs[k], env(k), fd);
      && Settled(l, hs, env, fd, k + 1) == Settle(Settled(l, hs, env, fd, k), h, v, f)
      && Survivors(hs, env, fd, k + 1) ==
        (if Survives(f) then Survivors(hs, env, fd, k) + [Attended(h, v, f)] else Survivors(hs, env, fd, k))
  {
    hide FateOf, Settle;
  }

  lemma LosesSameId(m: March, v: Visit, fd: int)
    requires m.todo != []
    ensures LosesNow(m, v, fd) <==>
      FateOf(m.todo[0], v, fd).Unreachable? && |m.todo| > 1 && m.todo[1].id == m.todo[0].id
  {
  }

  lemma SettleCases(l: Ledger, h: Session, v: Visit, f: Fate)
    ensures f.Ends? ==> Settle(l, h, v, f) == Close(l, Ending(h, Expired)) && !Survives(f)
    ensures f.Waits? ==> Settle(l, h, v, f) == l && Survives(f) && Attended(h, v, f) == h
    ensures f.Probes? ==>
      && Settle(l, h, v, f) == (if f.transmitted then Transmit(l, PayloadFor(h, v)) else l)
      && Survives(f) && Attended(h, v, f) == Probed(h, v)
    ensures f.Unreachable? ==>
      Settle(l, h, v, f) == Close(Transmit(l, PayloadFor(h, v)), Ending(Probed(h, v), NoRoute)) && !Survives(f)
  {
  }

  /** With distinct ids the sweep attends each session once, by its own fate, and never loses its captured node. */
  lemma {:induction false} SweepDistinct(hs: seq<Session>, l: Ledger, env: nat -> Visit, fd: int, k: nat)
    requires k <= |hs| && DistinctIds(hs)
    ensures Marched(Midway(hs, l, env, fd, k), env, fd) == Midway(hs, l, env, fd, |hs|)
    ensures !Loses(Midway(hs, l, env, fd, k), env, fd)
    decreases |hs| - k
  {
    if k < |hs| {
      VisitDistinct(hs, l, env, fd, k);
      SweepDistinct(hs, l, env, fd, k + 1);
      hide Midway, Visited, LosesNow;
    }
  }

  lemma DistinctSweep(s: State, env: nat -> Visit)
    requires DistinctIds(s.hosts)
    ensures var n, fd, m := |s.hosts|, s.listener.fd, Marched(Departure(s), env, s.listener.fd);
      && Sweep(s, env).hosts == Survivors(s.hosts, env, fd, n)
      && Sweep(s, env).ledger == Settled(s.ledger, s.hosts, env, fd, n)
      && m.visits == n && !Loses(Departure(s), env, fd)
  {
    SweepOf(s, env);
    SweepDistinct(s.hosts, s.ledger, env, s.listener.fd, 0);
    assert s.hosts[0..] == s.hosts;
    assert Departure(s) == Midway(s.hosts, s.ledger, env, s.listener.fd, 0);
    hide Marched, Loses, Sweep;
  }

  /** How the sweep ends a session it does not let live. */
  function SweepEnding(f: Fate): How {
    if f.Ends? then Expired else NoRoute
  }

  lemma SettleLog(l: Ledger, h: Session, v: Visit, f: Fate)
    ensures Settle(l, h, v, f).log ==
      if Survives(f) then l.log else l.log + [Ending(Attended(h, v, f), SweepEnding(f))]
  {
  }

  lemma {:induction false} RequestsUnchanged(hs: seq<Session>, env: nat -> Visit, fd: int, k: nat, l: Ledger, id: u16)
    requires k <= |hs| && forall j :: 0 <= j < k ==> hs[j].id != id
    ensures Requests(Settled(l, hs, env, fd, k).wire, id) == Requests(l.wire, id)
  {
    if k > 0 {
      RequestsUnchanged(hs, env, fd, k - 1, l, id);
      SettleWire(Settled(l, hs, env, fd, k - 1), hs[k - 1], env(k - 1), FateOf(hs[k - 1], env(k - 1), fd), id);
    }
  }

  lemma SettleWire(l: Ledger, h: Session, v: Visit, f: Fate, id: u16)
    ensures Requests(Settle(l, h, v, f).wire, id) == Requests(l.wire, id) + if Asks(f) && h.id == id then 1 else 0
  {
    var r := Request((l.seqno + 1) % 0x1_0000, PayloadFor(h, v));
    assert (l.wire + [r])[..|l.wire|] == l.wire;
  }

  lemma {:induction false} RequestsOnce(hs: seq<Session>, env: nat -> Visit, fd: int, k: nat, i: nat, l: Ledger)
    requires i < k <= |hs| && DistinctIds(hs)
    ensures Requests(Settled(l, hs, env, fd, k).wire, hs[i].id) ==
      Requests(l.wire, hs[i].id) + if Asks(FateOf(hs[i], env(i), fd)) then 1 else 0
  {
    hide FateOf, Settle, Requests, Asks;
    SettleWire(Settled(l, hs, env, fd, k - 1), hs[k - 1], env(k - 1), FateOf(hs[k - 1], env(k - 1), fd), hs[i].id);
    if k - 1 == i {
      forall j | 0 <= j < i ensures hs[j].id != hs[i].id {
        IdsDiffer(hs, j, i);
      }
      RequestsUnchanged(hs, env, fd, i, l, hs[i].id);
    } else {
      IdsDiffer(hs, i, k - 1);
      RequestsOnce(hs, env, fd, k - 1, i, l);
    }
  }

  /**
   * In a sweep with distinct ids every session due, and no other, puts exactly one packet on the wire,
   * whether or not its own send ends it.
   */
  lemma SweepAsksOnce(s: State, env: nat -> Visit, i: nat)
    requires DistinctIds(s.hosts) && i < |s.hosts| && s.listener.fd >= 0
    ensures var h, v := s.hosts[i], env(i);
      Requests(Sweep(s, env).ledger.wire, h.id) == Requests(s.ledger.wire, h.id) +
        if h.next <= v.now <= h.timeout && v.family == AF_INET then 1 else 0
  {
    hide *;
    DistinctSweep(s, env);
    RequestsOnce(s.hosts, env, s.listener.fd, |s.hosts|, i, s.ledger);
    AsksWhen(s.hosts[i], env(i), s.listener.fd);
  }

  lemma AsksWhen(h: Session, v: Visit, fd: int)
    ensures fd >= 0 ==> (Asks(FateOf(h, v, fd)) <==> h.next <= v.now <= h.timeout && v.family == AF_INET)
  {
  }

  /** How many of the first k sessions have a fate they survive: the place the k-th takes if it survives too. */
  ghost function Rank(hs: seq<Session>, env: nat -> Visit, fd: int, k: nat): nat
    requires k <= |hs|
  {
    if k == 0 then 0
    else Rank(hs, env, fd, k - 1) + if Survives(FateOf(hs[k - 1], env(k - 1), fd)) then 1 else 0
  }

  lemma {:induction false} RankCounts(hs: seq<Session>, env: nat -> Visit, fd: int, k: nat)
    requires k <= |hs|
    ensures |Survivors(hs, env, fd, k)| == Rank(hs, env, fd, k)
  {
    if k > 0 {
      RankCounts(hs, env, fd, k - 1);
    }
  }

  lemma {:induction false} SurvivorAt(hs: seq<Session>, env: nat -> Visit, fd: int, k: nat, i: nat)
    requires i < k <= |hs|
    ensures Rank(hs, env, fd, i) <= Rank(hs, env, fd, i + 1) <= Rank(hs, env, fd, k) == |Survivors(hs, env, fd, k)|
    ensures var f := FateOf(hs[i], env(i), fd);
      Survives(f) ==>
        (Rank(hs, env, fd, i) < Rank(hs, env, fd, k)
         && Survivors(hs, env, fd, k)[Rank(hs, env, fd, i)] == Attended(hs[i], env(i), f))
  {
    RankCounts(hs, env, fd, k - 1);
    if k - 1 > i {
      SurvivorAt(hs, env, fd, k - 1, i);
    }
  }

  /**
   * What a sweep over distinct ids leaves, exactly and in order: a session stays, at its place among those that stay,
   * just when it is neither past its deadline nor due with a send the network refuses as unreachable;
   * a due one that stays has prepared one more packet, the others that stay are untouched. Whoever goes
   * is logged as ended in that way.
   */
  lemma SweepLeavesExactly(s: State, env: nat -> Visit, i: nat)
    requires DistinctIds(s.hosts) && i < |s.hosts| && s.listener.fd >= 0
    ensures var h, v := s.hosts[i], env(i);
      var rank, left := Rank(s.hosts, env, s.listener.fd, i), Sweep(s, env).hosts;
      var refused := h.next <= v.now && v.family == AF_INET && v.outcome == Failed(ENETUNREACH);
      if v.now <= h.timeout && !refused
      then rank < |left| && left[rank] == (if v.now < h.next then h else Probed(h, v))
      else Ending(if v.now > h.timeout then h else Probed(h, v), if v.now > h.timeout then Expired else NoRoute)
           in Sweep(s, env).ledger.log
    ensures |Sweep(s, env).hosts| == Rank(s.hosts, env, s.listener.fd, |s.hosts|)
  {
    var fd := s.listener.fd;
    DistinctSweep(s, env);
    RankCounts(s.hosts, env, fd, |s.hosts|);
    hide Sweep;
    SurvivorAt(s.hosts, env, fd, |s.hosts|, i);
    if !Survives(FateOf(s.hosts[i], env(i), fd)) {
      LoggedAt(s.hosts, env, fd, |s.hosts|, i, s.ledger);
    }
  }

  /**
   * Whatever the ids, one visit takes out of the list exactly the session attended if its deadline has
   * passed, and if its send is refused as unreachable every session with its id.
   */
  lemma VisitEndsExactly(m: March, v: Visit, fd: int, g: Session)
    requires m.todo != [] && g in Linked(m)
    requires forall i, j :: 0 <= i < j < |Linked(m)| ==> Linked(m)[i].serial != Linked(m)[j].serial
    ensures var h, n, f := m.todo[0], Visited(m, v, fd), FateOf(m.todo[0], v, fd);
      var after := if g == h && f.Probes? then Probed(h, v) else g;
      (after in Linked(n) <==> !(f.Ends? && g == h) && !(f.Unreachable? && g.id == h.id))
  {
    hide *;
    var l, i := Linked(m), |m.past|;
    var h := m.todo[0];
    VisitParts(m, v, fd);
    FourFates(h, v, fd);
    var w, x := l[i := Probed(h, v)], l[..i] + l[i + 1..];
    var c := OnError(ENETUNREACH, h.id);
    var k :| 0 <= k < |l| && l[k] == g;
    assert g == h <==> k == i;
    SendKeeps(h, v, m.ledger, PayloadFor(h, v));
    Elsewhere(l, i, k, Probed(h, v));
    if FateOf(h, v, fd).Unreachable? {
      KeptExactly(c, w, |w|, g);
      VerdictBySenderId(c, h.id, g);
      assert w[..|w|] == w;
    }
  }

  lemma VerdictBySenderId(c: Closure, id: u16, g: Session)
    requires c == OnError(ENETUNREACH, id)
    ensures Verdict(c, g.id, g.worker).None? <==> g.id != id
  {
  }

  /** Where the k-th of a list stands once the i-th is taken out or replaced. */
  lemma Elsewhere(l: seq<Session>, i: nat, k: nat, x: Session)
    requires i < |l| && k < |l| && forall a, b :: 0 <= a < b < |l| ==> l[a].serial != l[b].serial
    ensures l[k] in l[..i] + l[i + 1..] <==> k != i
    ensures k != i ==> l[k] in l[i := x]
    ensures x in l[i := x]
  {
    var rest := l[..i] + l[i + 1..];
    assert l[i := x][i] == x;
    if k != i {
      assert l[i := x][k] == l[k];
      assert if k < i then rest[k] == l[k] else rest[k - 1] == l[k];
    } else if j :| 0 <= j < |rest| && rest[j] == l[i] {
      assert if j < i then l[j].serial != l[i].serial else l[i].serial != l[j + 1].serial;
    }
  }

  /** In the rest of a sweep the session with this serial number is attended past its deadline. */
  ghost predicate ExpiresIn(m: March, env: nat -> Visit, fd: int, serial: nat)
    decreases |m.todo|
  {
    m.todo != [] &&
    ((m.todo[0].serial == serial && FateOf(m.todo[0], env(m.visits), fd).Ends?)
     || ExpiresIn(Visited(m, env(m.visits), fd), env, fd, serial))
  }

  /** In the rest of a sweep a send with this id is refused as unreachable. */
  ghost predicate RefusedIn(m: March, env: nat -> Visit, fd: int, id: u16)
    decreases |m.todo|
  {
    m.todo != [] &&
    ((m.todo[0].id == id && FateOf(m.todo[0], env(m.visits), fd).Unreachable?)
     || RefusedIn(Visited(m, env(m.visits), fd), env, fd, id))
  }

  lemma FateSteps(m: March, env: nat -> Visit, fd: int, serial: nat, id: u16)
    ensures m.todo == [] ==> !ExpiresIn(m, env, fd, serial) && !RefusedIn(m, env, fd, id)
    ensures m.todo != [] ==>
      var h, f, n := m.todo[0], FateOf(m.todo[0], env(m.visits), fd), Visited(m, env(m.visits), fd);
      && (ExpiresIn(m, env, fd, serial) <==> (h.serial == serial && f.Ends?) || ExpiresIn(n, env, fd, serial))
      && (RefusedIn(m, env, fd, id) <==> (h.id == id && f.Unreachable?) || RefusedIn(n, env, fd, id))
  {
  }

  /** No serial number occurs twice. */
  ghost predicate Once(hs: seq<Session>) {
    forall serial: nat {:trigger Live(hs, serial)} :: Live(hs, serial) <= 1
  }

  lemma OnceMeans(hs: seq<Session>)
    requires Once(hs)
    ensures forall i, j :: 0 <= i < j < |hs| ==> hs[i].serial != hs[j].serial
  {
    forall i, j | 0 <= i < j < |hs| ensures hs[i].serial != hs[j].serial {
      if hs[i].serial == hs[j].serial {
        LiveTwice(hs, i, j);
      }
    }
  }

  lemma {:induction false} LiveKept(c: Closure, hs: seq<Session>, k: nat, serial: nat)
    requires k <= |hs|
    ensures Live(Kept(c, hs, k), serial) <= Live(hs[..k], serial)
  {
    KeptNone(c, hs);
    if k > 0 {
      LiveKept(c, hs, k - 1, serial);
      KeptMore(c, hs, k - 1);
      assert hs[..k] == hs[..k - 1] + [hs[k - 1]];
      LiveSnoc(hs[..k - 1], hs[k - 1], serial);
      LiveSnoc(Kept(c, hs, k - 1), hs[k - 1], serial);
      hide Kept, Live;
    }
  }

  /** A visit makes no session live that was not. */
  lemma VisitLive(m: March, v: Visit, fd: int, serial: nat)
    requires m.todo != []
    ensures Live(Linked(Visited(m, v, fd)), serial) <= Live(Linked(m), serial)
  {
    hide *;
    var l, i := Linked(m), |m.past|;
    VisitParts(m, v, fd);
    FourFates(m.todo[0], v, fd);
    var w := l[i := Probed(l[i], v)];
    SendKeeps(l[i], v, m.ledger, PayloadFor(l[i], v));
    LiveWithout(l, i, Probed(l[i], v), serial);
    LiveKept(OnError(ENETUNREACH, l[i].id), w, |w|, serial);
    assert w[..|w|] == w;
  }

  lemma VisitOnce(m: March, v: Visit, fd: int)
    requires m.todo != [] && Once(Linked(m))
    ensures Once(Linked(Visited(m, v, fd)))
  {
    hide Visited, Linked, Live;
    forall serial: nat ensures Live(Linked(Visited(m, v, fd)), serial) <= 1 {
      VisitLive(m, v, fd, serial);
    }
  }

  /** The session of this serial number is still in the list. */
  ghost predicate Stays(hs: seq<Session>, serial: nat) {
    exists h :: h in hs && h.serial == serial
  }

  /** A visit leaves the session with its serial number and id, or leaves none with its serial number. */
  lemma VisitStays(m: March, v: Visit, fd: int, g: Session) returns (after: Session)
    requires m.todo != [] && g in Linked(m) && Once(Linked(m))
    ensures var f := FateOf(m.todo[0], v, fd);
      var leaves := (f.Ends? && g.serial == m.todo[0].serial) || (f.Unreachable? && g.id == m.todo[0].id);
      && (leaves ==> !Stays(Linked(Visited(m, v, fd)), g.serial))
      && (!leaves ==> after in Linked(Visited(m, v, fd)) && after.serial == g.serial && after.id == g.id)
  {
    hide *;
    var h, f, n := m.todo[0], FateOf(m.todo[0], v, fd), Visited(m, v, fd);
    OnceMeans(Linked(m));
    InLinked(m);
    VisitEndsExactly(m, v, fd, g);
    SendKeeps(h, v, m.ledger, PayloadFor(h, v));
    after := if g == h && f.Probes? then Probed(h, v) else g;
    SameBySerial(Linked(m), g, h);
    FourFates(h, v, fd);
    forall y | y in Linked(n) && y.serial == g.serial ensures y in Linked(m) ==> y == g {
      if y in Linked(m) {
        SameBySerial(Linked(m), g, y);
      }
    }
    forall y | y in Linked(n) ensures y in Linked(m) || (f.Probes? && y == Probed(h, v)) {
      VisitFrom(m, v, fd, y);
    }
    NoneStays(Linked(n), g.serial);
  }

  lemma NoneStays(hs: seq<Session>, serial: nat)
    ensures Stays(hs, serial) <==> exists h :: h in hs && h.serial == serial
  {
  }

  lemma SameBySerial(hs: seq<Session>, g: Session, h: Session)
    requires g in hs && h in hs && forall i, j :: 0 <= i < j < |hs| ==> hs[i].serial != hs[j].serial
    ensures g.serial == h.serial <==> g == h
  {
    var i :| 0 <= i < |hs| && hs[i] == g;
    var j :| 0 <= j < |hs| && hs[j] == h;
    if g.serial == h.serial && i != j {
      assert if i < j then hs[i].serial != hs[j].serial else hs[j].serial != hs[i].serial;
    }
  }

  lemma {:induction false} MarchStays(m: March, env: nat -> Visit, fd: int, g: Session)
    requires g in Linked(m) && Once(Linked(m))
    ensures Stays(Marched(m, env, fd).past, g.serial) <==>
      !ExpiresIn(m, env, fd, g.serial) && !RefusedIn(m, env, fd, g.id)
    decreases |m.todo|
  {
    hide *;
    MarchStep(m, env, fd);
    FateSteps(m, env, fd, g.serial, g.id);
    if m.todo == [] {
      NoneStays(m.past, g.serial);
    } else {
      var v := env(m.visits);
      var after := VisitStays(m, v, fd, g);
      VisitOnce(m, v, fd);
      var n := Visited(m, v, fd);
      NoneStays(Linked(n), g.serial);
      if Stays(Linked(n), g.serial) {
        MarchStays(n, env, fd, after);
      } else {
        NeverBack(n, env, fd, g.serial);
      }
    }
  }

  /** Who is gone stays gone. */
  lemma NeverBack(m: March, env: nat -> Visit, fd: int, serial: nat)
    requires !Stays(Linked(m), serial)
    ensures !Stays(Marched(m, env, fd).past, serial)
  {
    hide Marched, Visited, FateOf, Linked;
    SweepKeeps(m, env, fd, (h: Session) => h.serial != serial);
  }

  /**
   * What a whole sweep leaves in every run, whatever the ids: a session stays exactly when it was not
   * past its deadline at its visit and no send with its id was refused as unreachable. Who goes is logged
   * once, who stays is not.
   */
  lemma SweepStaysExactly(proc: Process, es: seq<Event>, env: nat -> Visit, g: Session)
    requires g in Run(proc, es).hosts
    ensures var s, fd := Run(proc, es), Run(proc, es).listener.fd;
      var t, stays := Sweep(s, env), Stays(Sweep(s, env).hosts, g.serial);
      && (stays <==> !ExpiresIn(Departure(s), env, fd, g.serial) && !RefusedIn(Departure(s), env, fd, g.id))
      && Ended(t.ledger.log, g.serial) == (if stays then 0 else 1)
  {
    hide *;
    var s := Run(proc, es);
    var m, e := Departure(s), EvSweep(env);
    SweepOf(s, env);
    forall serial: nat ensures Live(s.hosts, serial) <= 1 {
      AccountedOnce(proc, es, serial);
    }
    AllOnce(s.hosts);
    MarchStays(m, env, s.listener.fd, g);
    assert (es + [e])[..|es|] == es && (es + [e])[|es|] == e;
    SweptRun(proc, es, env);
    AccountedOnce(proc, es + [e], g.serial);
    AccountedOpen(proc, es, g);
    SweptInserts(s, env);
    StaysLive(Sweep(s, env).hosts, g.serial);
  }

  lemma AccountedOnce(proc: Process, es: seq<Event>, serial: nat)
    ensures var s := Run(proc, es);
      && Live(s.hosts, serial) <= 1
      && Live(s.hosts, serial) + Ended(s.ledger.log, serial) == (if serial < s.inserts then 1 else 0)
  {
    Conservation(proc, es, serial);
  }

  lemma AccountedOpen(proc: Process, es: seq<Event>, g: Session)
    requires g in Run(proc, es).hosts
    ensures g.serial < Run(proc, es).inserts
  {
    var s := Run(proc, es);
    var i :| 0 <= i < |s.hosts| && s.hosts[i] == g;
    Conservation(proc, es, g.serial);
    LiveAt(s.hosts, i);
  }

  lemma AllOnce(hs: seq<Session>)
    requires forall serial: nat :: Live(hs, serial) <= 1
    ensures Once(hs)
  {
  }

  lemma SweptRun(proc: Process, es: seq<Event>, env: nat -> Visit)
    ensures Run(proc, es + [EvSweep(env)]) == Sweep(Run(proc, es), env)
  {
    assert (es + [EvSweep(env)])[..|es|] == es;
  }

  lemma SweptInserts(s: State, env: nat -> Visit)
    ensures Sweep(s, env).inserts == s.inserts
  {
    SweepOf(s, env);
  }

  lemma {:induction false} StaysLive(hs: seq<Session>, serial: nat)
    ensures Stays(hs, serial) <==> Live(hs, serial) >= 1
  {
    if hs != [] {
      var front, last := hs[..|hs| - 1], hs[|hs| - 1];
      StaysLive(front, serial);
      assert hs == front + [last];
      assert Stays(hs, serial) <==> Stays(front, serial) || last.serial == serial;
    }
  }

  lemma {:induction false} LoggedAt(hs: seq<Session>, env: nat -> Visit, fd: int, k: nat, i: nat, l: Ledger)
    requires i < k <= |hs| && !Survives(FateOf(hs[i], env(i), fd))
    ensures var f := FateOf(hs[i], env(i), fd);
      Ending(Attended(hs[i], env(i), f), SweepEnding(f)) in Settled(l, hs, env, fd, k).log
  {
    SettleLog(Settled(l, hs, env, fd, k - 1), hs[k - 1], env(k - 1), FateOf(hs[k - 1], env(k - 1), fd));
    if k - 1 > i {
      LoggedAt(hs, env, fd, k - 1, i, l);
    }
  }

  // ---------- draining ----------

  /** The session attended at the k-th visit of a sweep, if it gets there. */
  function AttendedAt(m: March, env: nat -> Visit, fd: int, k: nat): (h: Option<Session>)
    ensures h.Some? ==> m.visits <= k < m.visits + |m.todo|
    decreases |m.todo|
  {
    if m.todo == [] then None
    else if k == m.visits then Some(m.todo[0])
    else
      VisitBooks(m, env(m.visits), fd);
      AttendedAt(Visited(m, env(m.visits), fd), env, fd, k)
  }

  /** The same session, but for what sending changes. */
  predicate Same(g: Session, h: Session) {
    g.serial == h.serial && g.timeout == h.timeout && g.worker == h.worker
  }

  /** One of these sessions, but for what sending changes. */
  ghost predicate Stems(g: Session, hs: seq<Session>) {
    exists h :: h in hs && Same(g, h)
  }

  /** The session was attended in the rest of a sweep, by a clock not past its deadline. */
  ghost predicate InTime(g: Session, m: March, env: nat -> Visit, fd: int) {
    exists k: nat ::
      var h := AttendedAt(m, env, fd, k);
      h.Some? && Same(g, h.value) && env(k).now <= g.timeout
  }

  /** Who has just been attended and is still linked was attended in time. */
  lemma VisitInTime(m: March, env: nat -> Visit, fd: int, g: Session)
    requires m.todo != [] && g in Visited(m, env(m.visits), fd).past && g !in m.past
    ensures InTime(g, m, env, fd)
  {
    var v := env(m.visits);
    KeptSubset(OnError(ENETUNREACH, m.todo[0].id), m.past, |m.past|);
    assert v.now <= g.timeout && Same(g, m.todo[0]);
    assert AttendedAt(m, env, fd, m.visits) == Some(m.todo[0]);
  }

  lemma LaterInTime(m: March, env: nat -> Visit, fd: int, g: Session)
    requires m.todo != [] && InTime(g, Visited(m, env(m.visits), fd), env, fd)
    ensures InTime(g, m, env, fd)
  {
    var n := Visited(m, env(m.visits), fd);
    VisitBooks(m, env(m.visits), fd);
    hide Visited, Same;
    var k: nat :| var h := AttendedAt(n, env, fd, k); h.Some? && Same(g, h.value) && env(k).now <= g.timeout;
    assert AttendedAt(m, env, fd, k) == AttendedAt(n, env, fd, k);
  }

  lemma {:induction false} SweepInTime(m: March, env: nat -> Visit, fd: int, g: Session)
    requires g in Marched(m, env, fd).past && g !in m.past
    ensures InTime(g, m, env, fd)
    decreases |m.todo|
  {
    hide *;
    MarchStep(m, env, fd);
    var n := Visited(m, env(m.visits), fd);
    if g in n.past {
      VisitInTime(m, env, fd, g);
    } else {
      SweepInTime(n, env, fd, g);
      LaterInTime(m, env, fd, g);
    }
  }

  /**
   * Whoever survives a sweep was live before it with the same deadline, and that is not before the clock
   * read at the visit that attended it.
   */
  lemma SurvivorsInTime(s: State, env: nat -> Visit, g: Session)
    requires g in Sweep(s, env).hosts
    ensures Stems(g, s.hosts) && InTime(g, Departure(s), env, s.listener.fd)
  {
    hide *;
    SweepOf(s, env);
    SweepStems(s, env, g);
    SweepInTime(Departure(s), env, s.listener.fd, g);
  }

  lemma SweepStems(s: State, env: nat -> Visit, g: Session)
    requires g in Sweep(s, env).hosts
    ensures Stems(g, s.hosts)
  {
    SweepOf(s, env);
    hide Marched, Sweep, Departure, FateOf, Visited;
    SweepKeeps(Departure(s), env, s.listener.fd, h => Stems(h, s.hosts));
  }

  /**
   * In a reachable state, a sweep later than every deadline leaves nothing live, nobody busy, and the
   * listener down.
   */
  lemma LateSweepDrains(proc: Process, es: seq<Event>, env: nat -> Visit)
    requires forall k, h :: 0 <= k < |Run(proc, es).hosts| && h in Run(proc, es).hosts ==> env(k).now > h.timeout
    ensures Sweep(Run(proc, es), env).hosts == [] && Sweep(Run(proc, es), env).listener == DOWN
    ensures Sweep(Run(proc, es), env).ledger.busy == {}
  {
    var s := Run(proc, es);
    var t := Sweep(s, env);
    if t.hosts != [] {
      SurvivorsInTime(s, env, t.hosts[0]);
    }
    var es' := es + [EvSweep(env)];
    assert es'[..|es|] == es && Run(proc, es') == t;
    if w :| w in t.ledger.busy {
      BusyCountsSessions(proc, es', w);
    }
  }

  /**
   * No session outlives the first sweep after its deadline, in any run: after a sweep whose clock never
   * read less than t, and whatever follows it, a live session has its deadline at t or later, or was
   * opened after that sweep.
   */
  lemma {:induction false} NoneOutlives(proc: Process, before: seq<Event>, env: nat -> Visit, after: seq<Event>, t: int)
    requires forall i :: 0 <= i < |Run(proc, before).hosts| ==> env(i).now >= t
    ensures forall h :: h in Run(proc, before + [EvSweep(env)] + after).hosts ==>
      h.timeout >= t || h.serial >= Run(proc, before).inserts
  {
    var sweep := before + [EvSweep(env)];
    if after == [] {
      assert sweep + after == sweep && sweep[..|before|] == before;
      var s := Run(proc, before);
      forall h | h in Run(proc, sweep).hosts ensures h.timeout >= t {
        SurvivorsInTime(s, env, h);
      }
    } else {
      var shorter, e := sweep + after[..|after| - 1], after[|after| - 1];
      NoneOutlives(proc, before, env, after[..|after| - 1], t);
      assert sweep + after == shorter + [e] && (shorter + [e])[..|shorter|] == shorter;
      InsertsGrow(proc, before, [EvSweep(env)] + after[..|after| - 1]);
      assert before + ([EvSweep(env)] + after[..|after| - 1]) == shorter;
      StepKeepsDeadlines(Run(proc, shorter), e);
    }
  }

  lemma {:induction false} InsertsGrow(proc: Process, before: seq<Event>, after: seq<Event>)
    ensures Run(proc, before + after).inserts >= Run(proc, before).inserts
  {
    if after == [] {
      assert before + after == before;
    } else {
      var shorter, e := before + after[..|after| - 1], after[|after| - 1];
      InsertsGrow(proc, before, after[..|after| - 1]);
      assert before + after == shorter + [e] && (shorter + [e])[..|shorter|] == shorter;
    }
  }

  /** A step moves no deadline: who is live after it was live with the same deadline, or is the session it opened. */
  lemma StepKeepsDeadlines(s: State, e: Event)
    ensures forall g :: g in Step(s, e).hosts ==>
      g.serial == s.inserts || exists h :: h in s.hosts && h.serial == g.serial && h.timeout == g.timeout
  {
    match e
    case EvInsert(w, v, sock) =>
      var (t, r) := Insert(s, w, v, sock);
      if r == Inserted && Transmits(v, t.listener.fd) && v.outcome.Failed? {
        KeptSubset(OnError(v.outcome.errno, s.nextId), s.hosts, |s.hosts|);
      }
    case EvRemove(w) => KeptSubset(OwnedBy(w), s.hosts, |s.hosts|);
    case EvSweep(env) =>
      forall g | g in Step(s, e).hosts
        ensures exists h :: h in s.hosts && h.serial == g.serial && h.timeout == g.timeout
      {
        SweepStems(s, env, g);
      }
    case EvReceive(r) =>
      if r.Received? && Accept(s.proc, r.datagram).Some? {
        var (t, p) := Accept(s.proc, r.datagram).value;
        KeptSubset(OnResponse(t, p.id), s.hosts, |s.hosts|);
      }
  }

  // ---------- how often a session probes ----------

  /** The clock does not go back between the two readings of one visit. */
  predicate Honest(v: Visit) {
    v.now <= v.sentAt
  }

  /** The packets sent so far fit before the deadline, and the next is due no earlier than its turn. */
  ghost predicate Paced(h: Session) {
    && h.started + h.sent * h.worker.interval <= h.next
    && h.sent >= 1
    && (h.sent - 1) * h.worker.interval <= h.timeout - h.started
  }

  /** Attending a session keeps it paced, whatever its deadline. */
  lemma AttendedPaced(h: Session, v: Visit, fd: int)
    requires Honest(v) && Paced(h) && Survives(FateOf(h, v, fd))
    ensures Paced(Attended(h, v, FateOf(h, v, fd)))
  {
    assert (h.sent + 1) * h.worker.interval == h.sent * h.worker.interval + h.worker.interval;
  }

  lemma FreshPaced(w: Worker, id: u16, serial: nat, v: Visit)
    requires Honest(v)
    ensures Paced(Probed(Fresh(w, id, serial, v), v))
  {
    assert 1 * w.interval == w.interval && 0 * w.interval == 0;
  }

  /** A session attended with the answers vs, one sweep after another, until it ends or they run out. */
  function Life(h: Session, fd: int, vs: seq<Visit>): Session
    decreases |vs|
  {
    if vs == [] then h
    else
      var f := FateOf(h, vs[0], fd);
      if Survives(f) then Life(Attended(h, vs[0], f), fd, vs[1..]) else Attended(h, vs[0], f)
  }

  /**
   * Probe bound, for any deadline and under any schedule of sweeps: with an interval of at least one a
   * session that lives D past its start sends at most D / interval + 1 packets.
   */
  lemma {:induction false} ProbeBound(h: Session, fd: int, vs: seq<Visit>)
    requires Paced(h) && h.worker.interval >= 1
    requires forall i :: 0 <= i < |vs| ==> Honest(vs[i])
    ensures Life(h, fd, vs).sent <= (h.timeout - h.started) / h.worker.interval + 1
    decreases |vs|
  {
    PacedBound(h);
    if vs != [] {
      var f := FateOf(h, vs[0], fd);
      var g := Attended(h, vs[0], f);
      if Survives(f) {
        AttendedPaced(h, vs[0], fd);
        ProbeBound(g, fd, vs[1..]);
      } else if f.Unreachable? {
        assert (h.sent + 1) * h.worker.interval == h.sent * h.worker.interval + h.worker.interval;
        PacedBound(g);
      }
    }
  }

  /**
   * A session opened with a deadline D past its start is paced, so the bound is D / interval + 1 from its
   * opening on.
   */
  lemma ProbeBoundFromOpening(w: Worker, id: u16, serial: nat, v: Visit, d: nat, fd: int, vs: seq<Visit>)
    requires Honest(v) && w.interval >= 1
    requires forall i :: 0 <= i < |vs| ==> Honest(vs[i])
    ensures var h := Probed(Fresh(w, id, serial, v).(timeout := v.now + d), v);
      Paced(h) && Life(h, fd, vs).sent <= d / w.interval + 1
  {
    var h := Probed(Fresh(w, id, serial, v).(timeout := v.now + d), v);
    assert 1 * w.interval == w.interval && 0 * w.interval == 0;
    ProbeBound(h, fd, vs);
  }

  lemma PacedBound(h: Session)
    requires Paced(h) && h.worker.interval >= 1
    ensures h.sent <= (h.timeout - h.started) / h.worker.interval + 1
  {
    QuotientBound(h.sent - 1, h.worker.interval, h.timeout - h.started);
  }

  /** The events of a run whose visits are honest. */
  ghost predicate HonestRun(es: seq<Event>) {
    forall e :: e in es ==>
      && (e.EvInsert? ==> Honest(e.visit))
      && (e.EvSweep? ==> forall i: nat :: Honest(e.env(i)))
  }

  lemma StepPaces(s: State, e: Event)
    requires HonestRun([e]) && forall h :: h in s.hosts ==> Paced(h)
    ensures forall h :: h in Step(s, e).hosts ==> Paced(h)
  {
    assert e in [e];
    match e
    case EvInsert(w, v, sock) =>
      var (t, r) := Insert(s, w, v, sock);
      if r == Inserted {
        FreshPaced(w, s.nextId, s.inserts, v);
        if Transmits(v, t.listener.fd) && v.outcome.Failed? {
          KeptSubset(OnError(v.outcome.errno, s.nextId), s.hosts, |s.hosts|);
        }
      }
    case EvRemove(w) => KeptSubset(OwnedBy(w), s.hosts, |s.hosts|);
    case EvSweep(env) =>
      SweepOf(s, env);
      forall h, k: nat | Paced(h) && FateOf(h, env(k), s.listener.fd).Probes? ensures Paced(Probed(h, env(k))) {
        AttendedPaced(h, env(k), s.listener.fd);
      }
      hide Paced, FateOf, Marched, Sweep, Departure, Visited, HonestRun;
      SweepKeeps(Departure(s), env, s.listener.fd, h => Paced(h));
    case EvReceive(r) =>
      if r.Received? && Accept(s.proc, r.datagram).Some? {
        var (t, p) := Accept(s.proc, r.datagram).value;
        KeptSubset(OnResponse(t, p.id), s.hosts, |s.hosts|);
      }
  }

  lemma {:induction false} RunPaces(proc: Process, es: seq<Event>)
    requires HonestRun(es)
    ensures forall h :: h in Run(proc, es).hosts ==> Paced(h)
  {
    if es != [] {
      var before, e := es[..|es| - 1], es[|es| - 1];
      assert forall x :: x in before ==> x in es;
      assert forall x :: x in [e] ==> x in es;
      RunPaces(proc, before);
      StepPaces(Run(proc, before), e);
    }
  }

  /** What remains of pacing once a session has ended. */
  ghost predicate Spent(h: Session) {
    WellNumbered(h) && (h.sent - 1) * h.worker.interval <= h.timeout - h.started
  }

  ghost predicate AllSpent(log: seq<Ending>) {
    forall e :: e in log ==> Spent(e.session)
  }

  lemma {:induction false} DroppedSpent(c: Closure, hs: seq<Session>, k: nat, l: Ledger)
    requires k <= |hs| && AllSpent(l.log) && forall h :: h in hs ==> Spent(h)
    ensures AllSpent(Dropped(c, hs, k, l).log)
  {
    if k > 0 {
      DroppedSpent(c, hs, k - 1, l);
      assert hs[k - 1] in hs;
    }
  }

  /** The sessions of a sweep under way are paced and well numbered, and all that ended were spent. */
  ghost predicate Orderly(m: March) {
    && AllSpent(m.ledger.log)
    && forall h :: h in Linked(m) ==> Paced(h) && WellNumbered(h)
  }

  lemma VisitSpends(m: March, v: Visit, fd: int)
    requires m.todo != [] && Orderly(m) && Honest(v)
    ensures Orderly(Visited(m, v, fd))
  {
    var n, h, l, i := Visited(m, v, fd), m.todo[0], Linked(m), |m.past|;
    InLinked(m);
    VisitParts(m, v, fd);
    VisitBooks(m, v, fd);
    FourFates(h, v, fd);
    forall g | g in Linked(n) ensures Paced(g) && WellNumbered(g) {
      VisitFrom(m, v, fd, g);
      if g !in l {
        AttendedPaced(h, v, fd);
        ProbedNumbered(h, v);
      }
    }
    RefusedSpent(h, v);
    SendKeeps(h, v, m.ledger, PayloadFor(h, v));
    CloseLogs(m.ledger, Ending(h, Expired));
    if FateOf(h, v, fd).Unreachable? {
      var w := l[i := Probed(h, v)];
      forall g | g in w ensures Spent(g) {
        if g in l {
          RefusedSpent(g, v);
        }
      }
      DroppedSpent(OnError(ENETUNREACH, h.id), w, |w|, Transmit(m.ledger, PayloadFor(h, v)));
    }
  }

  lemma {:induction false} SweepSpends(m: March, env: nat -> Visit, fd: int)
    requires Orderly(m) && forall k: nat :: Honest(env(k))
    ensures AllSpent(Marched(m, env, fd).ledger.log)
    decreases |m.todo|
  {
    MarchStep(m, env, fd);
    hide Marched, Visited, Honest;
    if m.todo != [] {
      VisitSpends(m, env(m.visits), fd);
      SweepSpends(Visited(m, env(m.visits), fd), env, fd);
    }
  }

  lemma RefusedSpent(h: Session, v: Visit)
    requires Paced(h) && WellNumbered(h)
    ensures Spent(h) && (h.next <= v.now <= h.timeout ==> Spent(Probed(h, v)))
  {
  }

  lemma StepSpends(s: State, e: Event)
    requires HonestRun([e]) && AllSpent(s.ledger.log) && Numbered(s) && forall h :: h in s.hosts ==> Paced(h)
    ensures AllSpent(Step(s, e).ledger.log)
  {
    assert e in [e];
    forall h | h in s.hosts ensures Spent(h) {
      RefusedSpent(h, Visit(0, 0, 0, 0, Delivered));
    }
    match e
    case EvInsert(w, v, sock) =>
      var (t, r) := Insert(s, w, v, sock);
      if r == Inserted && Transmits(v, t.listener.fd) && v.outcome.Failed? {
        var h := Fresh(w, s.nextId, s.inserts, v);
        DroppedSpent(OnError(v.outcome.errno, h.id), s.hosts, |s.hosts|,
                     Transmit(s.ledger.(busy := s.ledger.busy + {w}), PayloadFor(h, v)));
      }
    case EvRemove(w) => DroppedSpent(OwnedBy(w), s.hosts, |s.hosts|, s.ledger);
    case EvSweep(env) =>
      SweepOf(s, env);
      SweepSpends(Departure(s), env, s.listener.fd);
    case EvReceive(r) =>
      if r.Received? && Accept(s.proc, r.datagram).Some? {
        var (t, p) := Accept(s.proc, r.datagram).value;
        DroppedSpent(OnResponse(t, p.id), s.hosts, |s.hosts|, s.ledger);
      }
  }

  lemma {:induction false} RunSpends(proc: Process, es: seq<Event>)
    requires HonestRun(es)
    ensures AllSpent(Run(proc, es).ledger.log)
  {
    if es != [] {
      var before, e := es[..|es| - 1], es[|es| - 1];
      assert forall x :: x in before ==> x in es;
      assert forall x :: x in [e] ==> x in es;
      RunSpends(proc, before);
      RunPaces(proc, before);
      RunNumbers(proc, before);
      StepSpends(Run(proc, before), e);
    }
  }

  /** What a session has sent fits its deadline. */
  lemma SpentBound(h: Session)
    requires Spent(h) && h.worker.interval >= 1
    ensures h.sent <= (h.timeout - h.started) / h.worker.interval + 1
  {
    QuotientBound(h.sent - 1, h.worker.interval, h.timeout - h.started);
  }

  /**
   * The code takes the deadline from interval(), not from timeout(): so in every run a session with an
   * interval of at least one sends one packet or two while it lives, and its 16-bit counter never wraps.
   */
  lemma AtMostTwoProbes(proc: Process, es: seq<Event>, h: Session)
    requires HonestRun(es) && h in Run(proc, es).hosts && h.worker.interval >= 1
    ensures 1 <= h.sent <= 2 && h.packets == h.sent
  {
    hide *;
    RunPaces(proc, es);
    RunNumbers(proc, es);
    NumberedAll(Run(proc, es));
    PacedBound(h);
    OneIntervalOnly(h);
  }

  lemma NumberedAll(s: State)
    requires Numbered(s)
    ensures forall h :: h in s.hosts ==> WellNumbered(h)
  {
  }

  /** A deadline one interval past the start leaves room for two packets. */
  lemma OneIntervalOnly(h: Session)
    requires WellNumbered(h) && h.worker.interval >= 1
    ensures (h.timeout - h.started) / h.worker.interval == 1 && h.sent >= 1
    ensures h.sent <= 2 ==> h.packets == h.sent
  {
    assert h.worker.interval / h.worker.interval == 1;
  }

  lemma SpentAll(proc: Process, es: seq<Event>, e: Ending)
    requires HonestRun(es) && e in Run(proc, es).ledger.log
    ensures Spent(e.session) && WellNumbered(e.session)
  {
    RunSpends(proc, es);
  }

  /** And in every run no ended session had sent more than its deadline allowed, which is two. */
  lemma EndedWithinBound(proc: Process, es: seq<Event>, e: Ending)
    requires HonestRun(es) && e in Run(proc, es).ledger.log && e.session.worker.interval >= 1
    ensures 1 <= e.session.sent <= (e.session.timeout - e.session.started) / e.session.worker.interval + 1 == 2
  {
    hide *;
    SpentAll(proc, es, e);
    SpentBound(e.session);
    OneIntervalOnly(e.session);
  }

  /**
   * The bound of two is met: opened and swept exactly one interval later, within the same clock tick as its
   * deadline.
   */
  lemma TwoProbesHappen(proc: Process, w: Worker, opening: Visit, env: nat -> Visit, fd: Descriptor)
    requires opening == Visit(0, 0, 0, AF_INET, Delivered)
    requires env(0) == Visit(w.interval, w.interval, 0, AF_INET, Delivered)
    ensures var s := Run(proc, [EvInsert(w, opening, Opened(fd)), EvSweep(env)]);
      |s.hosts| == 1 && s.hosts[0].sent == 2 && |s.ledger.wire| == 2
  {
    var first, sweep := EvInsert(w, opening, Opened(fd)), EvSweep(env);
    assert [first, sweep][..1] == [first] && [first][..0] == [];
    var h := Probed(Fresh(w, 0, 0, opening), opening);
    var s := Run(proc, [first]);
    assert Run(proc, []) == Initial(proc) && s == Step(Initial(proc), first);
    assert s.hosts == [h];
    assert FateOf(h, env(0), fd) == Probes(true);
    var m := Departure(s);
    assert m.todo[0] == h && m.todo[1..] == [];
    assert Marched(m, env, fd) == Visited(m, env(0), fd);
  }

  /** The deadline is the one the worker's timeout asks for exactly when its interval equals it. */
  lemma DeadlineIgnoresTimeout(proc: Process, es: seq<Event>, h: Session)
    requires h in Run(proc, es).hosts
    ensures h.timeout == h.started + h.worker.timeout <==> h.worker.timeout == h.worker.interval
  {
    RunNumbers(proc, es);
  }
}
