/**
 * What every run of the session controller keeps: conservation of sessions, busy flags, ids, callbacks and
 * the listener.
 */
module SessionRuns {
  import opened Bytes
  import opened Echo
  import opened Sessions

  // ---------- conservation ----------

  /** How many sessions of a list have this serial number. */
  ghost function Live(hs: seq<Session>, serial: nat): nat {
    if hs == [] then 0
    else Live(hs[..|hs| - 1], serial) + if hs[|hs| - 1].serial == serial then 1 else 0
  }

  /** How many of the endings ended a session with this serial number. */
  ghost function Ended(log: seq<Ending>, serial: nat): nat {
    if log == [] then 0
    else Ended(log[..|log| - 1], serial) + if log[|log| - 1].session.serial == serial then 1 else 0
  }

  /** The session opened by this insert is live or ended, once; and inserts, live and ended sessions balance. */
  ghost predicate Accounted(s: State, serial: nat) {
    && Live(s.hosts, serial) + Ended(s.ledger.log, serial) == (if serial < s.inserts then 1 else 0)
    && |s.hosts| + |s.ledger.log| == s.inserts
  }

  lemma LiveSnoc(hs: seq<Session>, h: Session, serial: nat)
    ensures Live(hs + [h], serial) == Live(hs, serial) + if h.serial == serial then 1 else 0
  {
    assert (hs + [h])[..|hs|] == hs;
  }

  lemma EndedSnoc(log: seq<Ending>, e: Ending, serial: nat)
    ensures Ended(log + [e], serial) == Ended(log, serial) + if e.session.serial == serial then 1 else 0
  {
    assert (log + [e])[..|log|] == log;
  }

  lemma {:induction false} KeptConserves(c: Closure, hs: seq<Session>, k: nat, l: Ledger, serial: nat)
    requires k <= |hs|
    ensures Live(Kept(c, hs, k), serial) + Ended(Dropped(c, hs, k, l).log, serial)
         == Live(hs[..k], serial) + Ended(l.log, serial)
    ensures |Kept(c, hs, k)| + |Dropped(c, hs, k, l).log| == k + |l.log|
  {
    hide *;
    KeptNone(c, hs);
    DroppedNone(c, hs, l);
    if k == 0 {
      assert hs[..k] == [];
    } else {
      KeptConserves(c, hs, k - 1, l, serial);
      var h := hs[k - 1];
      assert hs[..k] == hs[..k - 1] + [h];
      LiveSnoc(hs[..k - 1], h, serial);
      KeptMore(c, hs, k - 1);
      DroppedMore(c, hs, k - 1, l);
      var before, m := Dropped(c, hs, k - 1, l), Verdict(c, h.id, h.worker);
      if m.None? {
        LiveSnoc(Kept(c, hs, k - 1), h, serial);
      } else {
        CloseLogs(before, Ending(h, m.value));
        EndedSnoc(before.log, Ending(h, m.value), serial);
      }
    }
  }

  lemma {:induction false} LiveSplit(a: seq<Session>, b: seq<Session>, serial: nat)
    ensures Live(a + b, serial) == Live(a, serial) + Live(b, serial)
  {
    if b == [] {
      assert a + b == a;
    } else {
      LiveSplit(a, b[..|b| - 1], serial);
      assert (a + b)[..|a + b| - 1] == a + b[..|b| - 1];
    }
  }

  /** One session of a list taken out, or replaced. */
  lemma LiveWithout(hs: seq<Session>, i: nat, g: Session, serial: nat)
    requires i < |hs| && g.serial == hs[i].serial
    ensures Live(hs, serial) == Live(hs[..i] + hs[i + 1..], serial) + (if g.serial == serial then 1 else 0)
    ensures Live(hs[i := g], serial) == Live(hs, serial)
  {
    assert hs == hs[..i] + [hs[i]] + hs[i + 1..];
    assert hs[i := g] == hs[..i] + [g] + hs[i + 1..];
    LiveSplit(hs[..i] + [hs[i]], hs[i + 1..], serial);
    LiveSplit(hs[..i] + [g], hs[i + 1..], serial);
    LiveSplit(hs[..i], hs[i + 1..], serial);
    LiveSnoc(hs[..i], hs[i], serial);
    LiveSnoc(hs[..i], g, serial);
  }

  /** The fields of a session and of the books that a send leaves alone. */
  lemma SendKeeps(h: Session, v: Visit, l: Ledger, p: Payload)
    ensures var g := Probed(h, v);
      g.serial == h.serial && g.worker == h.worker && g.id == h.id && g.timeout == h.timeout && g.started == h.started
    ensures var t := Transmit(l, p); t.log == l.log && t.busy == l.busy && t.calls == l.calls
  {
  }

  lemma VisitConserves(m: March, v: Visit, fd: int, serial: nat)
    requires m.todo != []
    ensures var n := Visited(m, v, fd);
      && Live(Linked(n), serial) + Ended(n.ledger.log, serial) == Live(Linked(m), serial) + Ended(m.ledger.log, serial)
      && |Linked(n)| + |n.ledger.log| == |Linked(m)| + |m.ledger.log|
  {
    hide *;
    VisitParts(m, v, fd);
    VisitBooks(m, v, fd);
    var l, i := Linked(m), |m.past|;
    var p := PayloadFor(l[i], v);
    SendKeeps(l[i], v, m.ledger, p);
    LiveWithout(l, i, l[i], serial);
    LiveWithout(l, i, Probed(l[i], v), serial);
    var w := l[i := Probed(l[i], v)];
    KeptConserves(OnError(ENETUNREACH, l[i].id), w, |w|, Transmit(m.ledger, p), serial);
    assert w[..|w|] == w;
    EndedSnoc(m.ledger.log, Ending(l[i], Expired), serial);
    CloseLogs(m.ledger, Ending(l[i], Expired));
    FourFates(l[i], v, fd);
  }

  lemma CloseLogs(l: Ledger, e: Ending)
    ensures Close(l, e).log == l.log + [e]
  {
  }

  lemma FourFates(h: Session, v: Visit, fd: int)
    ensures var f := FateOf(h, v, fd); f.Ends? || f.Waits? || f.Probes? || f.Unreachable?
  {
  }

  lemma MarchStep(m: March, env: nat -> Visit, fd: int)
    ensures m.todo == [] ==> Marched(m, env, fd) == m && Linked(m) == m.past
    ensures m.todo != [] ==> Marched(m, env, fd) == Marched(Visited(m, env(m.visits), fd), env, fd)
  {
  }

  /** A sweep moves sessions from live to ended, and loses or doubles none. */
  lemma {:induction false} SweepConserves(m: March, env: nat -> Visit, fd: int, serial: nat)
    ensures var n := Marched(m, env, fd);
      && Live(n.past, serial) + Ended(n.ledger.log, serial) == Live(Linked(m), serial) + Ended(m.ledger.log, serial)
      && |n.past| + |n.ledger.log| == |Linked(m)| + |m.ledger.log|
    decreases |m.todo|
  {
    hide *;
    MarchStep(m, env, fd);
    if m.todo != [] {
      VisitConserves(m, env(m.visits), fd, serial);
      SweepConserves(Visited(m, env(m.visits), fd), env, fd, serial);
    }
  }

  /** A sweep of a state, from its departure. */
  lemma SweepOf(s: State, env: nat -> Visit)
    ensures var m, t := Marched(Departure(s), env, s.listener.fd), Sweep(s, env);
      && t.hosts == m.past && t.ledger == m.ledger && t.inserts == s.inserts && t.nextId == s.nextId && t.proc == s.proc
      && t.listener == (if m.past == [] then DOWN else s.listener)
      && Linked(Departure(s)) == s.hosts && Departure(s).ledger == s.ledger
      && Departure(s).todo == s.hosts && Departure(s).past == [] && Departure(s).visits == 0
  {
    assert [] + s.hosts == s.hosts;
  }

  lemma RemoveIfConserves(s: State, c: Closure, serial: nat)
    requires Accounted(s, serial)
    ensures Accounted(RemoveIf(s, c), serial)
  {
    KeptConserves(c, s.hosts, |s.hosts|, s.ledger, serial);
    assert s.hosts[..|s.hosts|] == s.hosts;
  }

  lemma InsertConserves(s: State, w: Worker, v: Visit, sock: SocketResult, serial: nat)
    requires Accounted(s, serial) && Live(s.hosts, s.inserts) + Ended(s.ledger.log, s.inserts) == 0
    ensures Accounted(Insert(s, w, v, sock).0, serial)
  {
    var (t, r) := Insert(s, w, v, sock);
    if r == Inserted {
      var h := Fresh(w, s.nextId, s.inserts, v);
      var fd := t.listener.fd;
      if Transmits(v, fd) && v.outcome.Failed? {
        var l := Transmit(s.ledger.(busy := s.ledger.busy + {w}), PayloadFor(h, v));
        KeptConserves(OnError(v.outcome.errno, h.id), s.hosts, |s.hosts|, l, serial);
        assert s.hosts[..|s.hosts|] == s.hosts;
      }
      LiveSnoc(LeftAfterSend(s.hosts, h.id, v, fd), Probed(h, v), serial);
    }
  }

  lemma StepConserves(s: State, e: Event, serial: nat)
    requires Accounted(s, serial) && Accounted(s, s.inserts)
    ensures Accounted(Step(s, e), serial)
  {
    match e
    case EvInsert(w, v, sock) => InsertConserves(s, w, v, sock, serial);
    case EvRemove(w) => RemoveIfConserves(s, OwnedBy(w), serial);
    case EvSweep(env) =>
      SweepOf(s, env);
      SweepConserves(Departure(s), env, s.listener.fd, serial);
    case EvReceive(r) =>
      if r.Received? && Accept(s.proc, r.datagram).Some? {
        var (t, p) := Accept(s.proc, r.datagram).value;
        RemoveIfConserves(s, OnResponse(t, p.id), serial);
      }
  }

  /**
   * Conservation, over every run: each session opened is either live, once, or ended, once, and so the
   * sessions opened number the live and the ended together.
   */
  lemma {:induction false} Conservation(proc: Process, es: seq<Event>, serial: nat)
    ensures Accounted(Run(proc, es), serial)
    decreases |es|
  {
    if es != [] {
      var before := es[..|es| - 1];
      Conservation(proc, before, serial);
      Conservation(proc, before, Run(proc, before).inserts);
      StepConserves(Run(proc, before), es[|es| - 1], serial);
    }
  }

  lemma {:induction false} LiveAt(hs: seq<Session>, i: nat)
    requires i < |hs|
    ensures Live(hs, hs[i].serial) >= 1
  {
    var last := |hs| - 1;
    if i < last {
      LiveAt(hs[..last], i);
    }
  }

  lemma {:induction false} LiveTwice(hs: seq<Session>, i: nat, j: nat)
    requires i < j < |hs| && hs[i].serial == hs[j].serial
    ensures Live(hs, hs[i].serial) >= 2
  {
    var last := |hs| - 1;
    if j < last {
      LiveTwice(hs[..last], i, j);
    } else {
      LiveAt(hs[..last], i);
    }
  }

  /** In every reachable state the live sessions stem from different inserts. */
  lemma LiveSerialsDistinct(proc: Process, es: seq<Event>, i: nat, j: nat)
    requires i < j < |Run(proc, es).hosts|
    ensures var s := Run(proc, es); s.hosts[i].serial != s.hosts[j].serial && s.hosts[i].serial < s.inserts
  {
    var s := Run(proc, es);
    Conservation(proc, es, s.hosts[i].serial);
    LiveAt(s.hosts, i);
    if s.hosts[i].serial == s.hosts[j].serial {
      LiveTwice(s.hosts, i, j);
    }
  }

  // ---------- callbacks ----------

  /** The callbacks the endings owe, in the order the sessions ended. */
  function CallsOwed(log: seq<Ending>): seq<Call> {
    if log == [] then []
    else
      var e := log[|log| - 1];
      CallsOwed(log[..|log| - 1]) + CallFor(e.session.worker, Owed(e.how))
  }

  ghost predicate CallsPaid(l: Ledger) {
    l.calls == CallsOwed(l.log)
  }

  lemma ClosePays(l: Ledger, e: Ending)
    requires CallsPaid(l)
    ensures CallsPaid(Close(l, e))
  {
    assert (l.log + [e])[..|l.log|] == l.log;
  }

  lemma {:induction false} DroppedPays(c: Closure, hs: seq<Session>, k: nat, l: Ledger)
    requires k <= |hs| && CallsPaid(l)
    ensures CallsPaid(Dropped(c, hs, k, l))
  {
    if k > 0 {
      DroppedPays(c, hs, k - 1, l);
      var h := hs[k - 1];
      var m := Verdict(c, h.id, h.worker);
      if m.Some? {
        ClosePays(Dropped(c, hs, k - 1, l), Ending(h, m.value));
      }
    }
  }

  lemma {:induction false} SweepPays(m: March, env: nat -> Visit, fd: int)
    requires CallsPaid(m.ledger)
    ensures CallsPaid(Marched(m, env, fd).ledger)
    decreases |m.todo|
  {
    hide *;
    MarchStep(m, env, fd);
    if m.todo != [] {
      var v := env(m.visits);
      VisitParts(m, v, fd);
      VisitBooks(m, v, fd);
      FourFates(m.todo[0], v, fd);
      var l, i := Linked(m), |m.past|;
      var p, w := PayloadFor(l[i], v), l[i := Probed(l[i], v)];
      ClosePays(m.ledger, Ending(l[i], Expired));
      TransmitPays(m.ledger, p);
      DroppedPays(OnError(ENETUNREACH, l[i].id), w, |w|, Transmit(m.ledger, p));
      SweepPays(Visited(m, v, fd), env, fd);
    }
  }

  lemma TransmitPays(l: Ledger, p: Payload)
    requires CallsPaid(l)
    ensures CallsPaid(Transmit(l, p))
  {
  }

  lemma StepPays(s: State, e: Event)
    requires CallsPaid(s.ledger)
    ensures CallsPaid(Step(s, e).ledger)
  {
    match e
    case EvInsert(w, v, sock) =>
      var (t, r) := Insert(s, w, v, sock);
      if r == Inserted && Transmits(v, t.listener.fd) && v.outcome.Failed? {
        var h := Fresh(w, s.nextId, s.inserts, v);
        var l := Transmit(s.ledger.(busy := s.ledger.busy + {w}), PayloadFor(h, v));
        DroppedPays(OnError(v.outcome.errno, h.id), s.hosts, |s.hosts|, l);
      }
    case EvRemove(w) => DroppedPays(OwnedBy(w), s.hosts, |s.hosts|, s.ledger);
    case EvSweep(env) =>
      SweepOf(s, env);
      SweepPays(Departure(s), env, s.listener.fd);
    case EvReceive(r) =>
      if r.Received? && Accept(s.proc, r.datagram).Some? {
        var (t, p) := Accept(s.proc, r.datagram).value;
        DroppedPays(OnResponse(t, p.id), s.hosts, |s.hosts|, s.ledger);
      }
  }

  /**
   * Over every run the callbacks made are exactly those owed by the ended sessions, in the order they
   * ended: one for an expiry, an unreachable network, an echo reply, a destination unreachable or a
   * time exceeded, none for a cancellation or an unexpected type, and none for a live session.
   */
  lemma {:induction false} CallbacksExact(proc: Process, es: seq<Event>)
    ensures CallsPaid(Run(proc, es).ledger)
  {
    if es != [] {
      CallbacksExact(proc, es[..|es| - 1]);
      StepPays(Run(proc, es[..|es| - 1]), es[|es| - 1]);
    }
  }

  // ---------- busy workers ----------

  /** How many sessions of a list a worker owns. */
  ghost function Owned(hs: seq<Session>, w: Worker): nat {
    if hs == [] then 0
    else Owned(hs[..|hs| - 1], w) + if hs[|hs| - 1].worker == w then 1 else 0
  }

  ghost function Flag(busy: set<Worker>, w: Worker): nat {
    if w in busy then 1 else 0
  }

  lemma OwnedSnoc(hs: seq<Session>, h: Session, w: Worker)
    ensures Owned(hs + [h], w) == Owned(hs, w) + if h.worker == w then 1 else 0
  {
    assert (hs + [h])[..|hs|] == hs;
  }

  lemma {:induction false} OwnedPrefix(hs: seq<Session>, k: nat, w: Worker)
    requires k <= |hs|
    ensures Owned(hs[..k], w) <= Owned(hs, w)
  {
    if k < |hs| {
      OwnedPrefix(hs[..|hs| - 1], k, w);
      assert hs[..|hs| - 1][..k] == hs[..k];
    } else {
      assert hs[..k] == hs;
    }
  }

  /** What a closure does at the last of the first k sessions to the list and to the flag of a worker. */
  lemma DropUnfold(c: Closure, hs: seq<Session>, k: nat, l: Ledger, w: Worker)
    requires 0 < k <= |hs|
    ensures var h := hs[k - 1];
      var ends := Verdict(c, h.id, h.worker).Some?;
      && Kept(c, hs, k) == (if ends then Kept(c, hs, k - 1) else Kept(c, hs, k - 1) + [h])
      && Flag(Dropped(c, hs, k, l).busy, w)
      == (if ends && h.worker == w then 0 else Flag(Dropped(c, hs, k - 1, l).busy, w))
      && Flag(Dropped(c, hs, k - 1, l).busy, w) <= 1
  {
    hide Verdict;
  }

  /**
   * Freeing the owners of the sessions a closure ends keeps flags and ownership in step. The worker may
   * have further sessions not in the list: the one being opened.
   */
  lemma {:induction false} DroppedFrees(c: Closure, hs: seq<Session>, k: nat, l: Ledger, w: Worker, further: nat)
    requires k <= |hs| && Flag(l.busy, w) == Owned(hs, w) + further
    ensures Flag(Dropped(c, hs, k, l).busy, w)
         == Owned(Kept(c, hs, k), w) + (Owned(hs, w) - Owned(hs[..k], w)) + further
  {
    if k > 0 {
      DroppedFrees(c, hs, k - 1, l, w, further);
      var h := hs[k - 1];
      assert hs[..k] == hs[..k - 1] + [h];
      OwnedSnoc(hs[..k - 1], h, w);
      OwnedPrefix(hs, k, w);
      OwnedSnoc(Kept(c, hs, k - 1), h, w);
      DropUnfold(c, hs, k, l, w);
      hide *;
    }
  }

  lemma {:induction false} OwnedSplit(a: seq<Session>, b: seq<Session>, w: Worker)
    ensures Owned(a + b, w) == Owned(a, w) + Owned(b, w)
  {
    if b == [] {
      assert a + b == a;
    } else {
      OwnedSplit(a, b[..|b| - 1], w);
      assert (a + b)[..|a + b| - 1] == a + b[..|b| - 1];
    }
  }

  lemma OwnedWithout(hs: seq<Session>, i: nat, g: Session, w: Worker)
    requires i < |hs| && g.worker == hs[i].worker
    ensures Owned(hs, w) == Owned(hs[..i] + hs[i + 1..], w) + (if g.worker == w then 1 else 0)
    ensures Owned(hs[i := g], w) == Owned(hs, w)
  {
    assert hs == hs[..i] + [hs[i]] + hs[i + 1..];
    assert hs[i := g] == hs[..i] + [g] + hs[i + 1..];
    OwnedSplit(hs[..i] + [hs[i]], hs[i + 1..], w);
    OwnedSplit(hs[..i] + [g], hs[i + 1..], w);
    OwnedSplit(hs[..i], hs[i + 1..], w);
    OwnedSnoc(hs[..i], hs[i], w);
    OwnedSnoc(hs[..i], g, w);
  }

  lemma CloseFlag(l: Ledger, e: Ending, w: Worker)
    ensures Flag(Close(l, e).busy, w) == (if e.session.worker == w then 0 else Flag(l.busy, w))
    ensures Flag(l.busy, w) <= 1
  {
  }

  /** A visit keeps flags and ownership in step, whoever it ends. */
  lemma VisitFrees(m: March, v: Visit, fd: int, w: Worker)
    requires m.todo != [] && Flag(m.ledger.busy, w) == Owned(Linked(m), w)
    ensures var n := Visited(m, v, fd); Flag(n.ledger.busy, w) == Owned(Linked(n), w)
  {
    hide *;
    VisitParts(m, v, fd);
    VisitBooks(m, v, fd);
    FourFates(m.todo[0], v, fd);
    var l, i := Linked(m), |m.past|;
    var p, x := PayloadFor(l[i], v), l[i := Probed(l[i], v)];
    SendKeeps(l[i], v, m.ledger, p);
    OwnedWithout(l, i, l[i], w);
    OwnedWithout(l, i, Probed(l[i], v), w);
    CloseFlag(m.ledger, Ending(l[i], Expired), w);
    DroppedFrees(OnError(ENETUNREACH, l[i].id), x, |x|, Transmit(m.ledger, p), w, 0);
    assert x[..|x|] == x;
  }

  lemma {:induction false} SweepFrees(m: March, env: nat -> Visit, fd: int, w: Worker)
    requires Flag(m.ledger.busy, w) == Owned(Linked(m), w)
    ensures var n := Marched(m, env, fd); Flag(n.ledger.busy, w) == Owned(n.past, w)
    decreases |m.todo|
  {
    hide *;
    MarchStep(m, env, fd);
    if m.todo != [] {
      VisitFrees(m, env(m.visits), fd, w);
      SweepFrees(Visited(m, env(m.visits), fd), env, fd, w);
    }
  }

  lemma InsertOwns(s: State, w: Worker, v: Visit, sock: SocketResult, x: Worker)
    requires Flag(s.ledger.busy, x) == Owned(s.hosts, x)
    ensures var t := Insert(s, w, v, sock).0; Flag(t.ledger.busy, x) == Owned(t.hosts, x)
  {
    var (t, r) := Insert(s, w, v, sock);
    if r == Inserted {
      var h := Fresh(w, s.nextId, s.inserts, v);
      var fd := t.listener.fd;
      OwnedSnoc(LeftAfterSend(s.hosts, h.id, v, fd), Probed(h, v), x);
      if Transmits(v, fd) && v.outcome.Failed? {
        var l := Transmit(s.ledger.(busy := s.ledger.busy + {w}), PayloadFor(h, v));
        DroppedFrees(OnError(v.outcome.errno, h.id), s.hosts, |s.hosts|, l, x, if x == w then 1 else 0);
        assert s.hosts[..|s.hosts|] == s.hosts;
      }
    }
  }

  lemma RemoveIfOwns(s: State, c: Closure, x: Worker)
    requires Flag(s.ledger.busy, x) == Owned(s.hosts, x)
    ensures var t := RemoveIf(s, c); Flag(t.ledger.busy, x) == Owned(t.hosts, x)
  {
    DroppedFrees(c, s.hosts, |s.hosts|, s.ledger, x, 0);
    assert s.hosts[..|s.hosts|] == s.hosts;
  }

  lemma StepOwns(s: State, e: Event, x: Worker)
    requires Flag(s.ledger.busy, x) == Owned(s.hosts, x)
    ensures var t := Step(s, e); Flag(t.ledger.busy, x) == Owned(t.hosts, x)
  {
    match e
    case EvInsert(w, v, sock) => InsertOwns(s, w, v, sock, x);
    case EvRemove(w) => RemoveIfOwns(s, OwnedBy(w), x);
    case EvSweep(env) =>
      SweepOf(s, env);
      SweepFrees(Departure(s), env, s.listener.fd, x);
    case EvReceive(r) =>
      if r.Received? && Accept(s.proc, r.datagram).Some? {
        var (t, p) := Accept(s.proc, r.datagram).value;
        RemoveIfOwns(s, OnResponse(t, p.id), x);
      }
  }

  /** In every reachable state the busy flag of a worker counts its live sessions: one or none. */
  lemma {:induction false} BusyCountsSessions(proc: Process, es: seq<Event>, w: Worker)
    ensures var s := Run(proc, es); Owned(s.hosts, w) == if w in s.ledger.busy then 1 else 0
  {
    if es != [] {
      BusyCountsSessions(proc, es[..|es| - 1], w);
      StepOwns(Run(proc, es[..|es| - 1]), es[|es| - 1], w);
    }
  }

  lemma {:induction false} OwnedAt(hs: seq<Session>, w: Worker)
    ensures Owned(hs, w) > 0 <==> exists i :: 0 <= i < |hs| && hs[i].worker == w
  {
    if hs != [] {
      var last := |hs| - 1;
      OwnedAt(hs[..last], w);
      if i :| 0 <= i < last && hs[..last][i].worker == w {
        assert hs[i].worker == w;
      }
      if i :| 0 <= i < last && hs[i].worker == w {
        assert hs[..last][i].worker == w;
      }
    }
  }

  lemma {:induction false} OwnedTwice(hs: seq<Session>, i: nat, j: nat)
    requires i < j < |hs| && hs[i].worker == hs[j].worker
    ensures Owned(hs, hs[i].worker) >= 2
  {
    var last := |hs| - 1;
    if j < last {
      OwnedTwice(hs[..last], i, j);
    } else {
      OwnedAt(hs[..last], hs[i].worker);
      assert hs[..last][i].worker == hs[i].worker;
    }
  }

  /**
   * In every reachable state a worker is busy exactly when it has a live session, and no two live sessions
   * share a worker.
   */
  lemma BusyExactlyWhenLive(proc: Process, es: seq<Event>, w: Worker)
    ensures var s := Run(proc, es);
      && (w in s.ledger.busy <==> exists i :: 0 <= i < |s.hosts| && s.hosts[i].worker == w)
      && forall i, j :: 0 <= i < j < |s.hosts| ==> s.hosts[i].worker != s.hosts[j].worker
  {
    var s := Run(proc, es);
    BusyCountsSessions(proc, es, w);
    OwnedAt(s.hosts, w);
    forall i, j | 0 <= i < j < |s.hosts| ensures s.hosts[i].worker != s.hosts[j].worker {
      if s.hosts[i].worker == s.hosts[j].worker {
        BusyCountsSessions(proc, es, s.hosts[i].worker);
        OwnedTwice(s.hosts, i, j);
      }
    }
  }

  /** So an insert is refused as busy exactly when the worker has a live session. */
  lemma RefusedExactlyWhenLive(proc: Process, es: seq<Event>, w: Worker, v: Visit, sock: SocketResult)
    ensures var s := Run(proc, es);
      Insert(s, w, v, sock).1 == Busy <==> exists i :: 0 <= i < |s.hosts| && s.hosts[i].worker == w
  {
    BusyExactlyWhenLive(proc, es, w);
  }

  // ---------- the listener ----------

  /** The listener is entirely up or entirely down, and up whenever a session is live. */
  ghost predicate Listening(s: State) {
    && (Up(s.listener) || s.listener == DOWN)
    && (s.hosts != [] ==> Up(s.listener))
  }

  lemma NothingToSweep(s: State, env: nat -> Visit)
    requires s.hosts == []
    ensures Sweep(s, env).hosts == []
  {
  }

  lemma StepListens(s: State, e: Event)
    requires Listening(s)
    ensures Listening(Step(s, e))
  {
    match e
    case EvInsert(w, v, sock) =>
    case EvRemove(w) => KeptAtMost(OwnedBy(w), s.hosts, |s.hosts|);
    case EvSweep(env) =>
      SweepOf(s, env);
      if s.hosts == [] {
        NothingToSweep(s, env);
      }
    case EvReceive(r) =>
      if r.Received? && Accept(s.proc, r.datagram).Some? {
        var (t, p) := Accept(s.proc, r.datagram).value;
        KeptAtMost(OnResponse(t, p.id), s.hosts, |s.hosts|);
      }
  }

  /**
   * In every reachable state, failed starts and late sweeps included, live sessions find the socket
   * open, the timer and the handler on; so Controller::send never reports itself not available,
   * and an insert can only fail to start when nothing is live.
   */
  lemma {:induction false} RunListens(proc: Process, es: seq<Event>)
    ensures var s := Run(proc, es);
      && Listening(s)
      && (s.hosts != [] ==> s.listener.fd > 0 && forall w, v, sock :: Insert(s, w, v, sock).1 != StartFailed)
  {
    if es != [] {
      RunListens(proc, es[..|es| - 1]);
      StepListens(Run(proc, es[..|es| - 1]), es[|es| - 1]);
    }
  }
}
