/**
 * What happens once the 16-bit session ids come round again: which steps stay as intended, and exactly which
 * do not.
 */
module SessionIds {
  import opened Bytes
  import opened Echo
  import opened Sessions
  import opened SessionRuns
  import opened SessionLaws

  // ---------- an insert whose first send fails ----------

  /** The new session's first send is refused as unreachable. */
  predicate FirstSendRefused(v: Visit) {
    v.family == AF_INET && v.outcome == Failed(ENETUNREACH)
  }

  lemma {:induction false} DroppedLogs(c: Closure, hs: seq<Session>, k: nat, l: Ledger)
    requires k <= |hs|
    ensures |Dropped(c, hs, k, l).log| >= |l.log|
    ensures |Dropped(c, hs, k, l).log| == |l.log| <==>
      forall j :: 0 <= j < k ==> Verdict(c, hs[j].id, hs[j].worker).None?
  {
    if k > 0 {
      DroppedLogs(c, hs, k - 1, l);
    }
  }

  /** A worker that owns none of the sessions a closure ends stays busy. */
  lemma {:induction false} DroppedKeepsBusy(c: Closure, hs: seq<Session>, k: nat, l: Ledger, w: Worker)
    requires k <= |hs| && w in l.busy && forall i :: 0 <= i < |hs| ==> hs[i].worker != w
    ensures w in Dropped(c, hs, k, l).busy
  {
    if k > 0 {
      DroppedKeepsBusy(c, hs, k - 1, l, w);
    }
  }

  /** What an insert leaves of a list none of whose sessions is the new one, by their ids. */
  lemma InsertLeaves(s: State, w: Worker, v: Visit, sock: SocketResult)
    requires Insert(s, w, v, sock).1 == Inserted
    requires forall j :: 0 <= j < |s.hosts| ==> s.hosts[j].serial != s.inserts && s.hosts[j].worker != w
    ensures var t := Insert(s, w, v, sock).0;
      && (t.ledger.log == s.ledger.log <==>
          !FirstSendRefused(v) || forall j :: 0 <= j < |s.hosts| ==> s.hosts[j].id != s.nextId)
      && (forall j :: 0 <= j < |s.hosts| ==>
            (s.hosts[j] in t.hosts <==> !FirstSendRefused(v) || s.hosts[j].id != s.nextId))
      && t.hosts != [] && t.hosts[|t.hosts| - 1] == Probed(Fresh(w, s.nextId, s.inserts, v), v) && w in t.ledger.busy
  {
    var t := Insert(s, w, v, sock).0;
    var h := Fresh(w, s.nextId, s.inserts, v);
    if Transmits(v, t.listener.fd) && v.outcome.Failed? {
      var c := OnError(v.outcome.errno, h.id);
      var l := Transmit(s.ledger.(busy := s.ledger.busy + {w}), PayloadFor(h, v));
      DroppedLogs(c, s.hosts, |s.hosts|, l);
      DroppedKeepsBusy(c, s.hosts, |s.hosts|, l, w);
      KeptByVerdict(c, s.hosts);
      if forall j :: 0 <= j < |s.hosts| ==> Verdict(c, s.hosts[j].id, s.hosts[j].worker).None? {
        MatchesNone(c, s.hosts, |s.hosts|, l);
      }
      hide Kept, Dropped;
    }
  }

  lemma KeptByVerdict(c: Closure, hs: seq<Session>)
    ensures forall j :: 0 <= j < |hs| ==>
      (hs[j] in Kept(c, hs, |hs|) <==> Verdict(c, hs[j].id, hs[j].worker).None?)
  {
    assert hs[..|hs|] == hs;
    forall j | 0 <= j < |hs| ensures hs[j] in Kept(c, hs, |hs|) <==> Verdict(c, hs[j].id, hs[j].worker).None? {
      KeptExactly(c, hs, |hs|, hs[j]);
    }
  }

  /** In a run the next id is that of a live session exactly when it was opened a multiple of 65536 inserts before. */
  lemma NextIdTaken(proc: Process, es: seq<Event>, j: nat)
    requires j < |Run(proc, es).hosts|
    ensures var s := Run(proc, es);
      s.hosts[j].serial < s.inserts && (s.hosts[j].id != s.nextId <==> Apart(s.inserts, s.hosts[j].serial))
  {
    var s := Run(proc, es);
    RunNumbers(proc, es);
    Conservation(proc, es, s.hosts[j].serial);
    LiveAt(s.hosts, j);
    ApartExactly(s.inserts, s.hosts[j].serial);
    assert s.hosts[j] in s.hosts;
    hide Run, Apart;
  }

  lemma NotBusy(s: State, w: Worker, v: Visit, sock: SocketResult)
    requires Insert(s, w, v, sock).1 == Inserted
    ensures w !in s.ledger.busy
  {
  }

  /**
   * An insert ends exactly those live sessions opened a multiple of 65536 inserts before, and these only
   * when its first send is refused as unreachable; the new session itself, which is not linked yet, stays
   * live and busy whatever its send came to.
   */
  lemma InsertEndsExactly(proc: Process, es: seq<Event>, w: Worker, v: Visit, sock: SocketResult)
    requires Insert(Run(proc, es), w, v, sock).1 == Inserted
    ensures var s := Run(proc, es);
      var t := Insert(s, w, v, sock).0;
      && (t.ledger.log == s.ledger.log <==>
          !FirstSendRefused(v) || forall j :: 0 <= j < |s.hosts| ==> Apart(s.inserts, s.hosts[j].serial))
      && (forall j :: 0 <= j < |s.hosts| ==>
            (s.hosts[j] in t.hosts <==> !FirstSendRefused(v) || Apart(s.inserts, s.hosts[j].serial)))
      && t.hosts != [] && t.hosts[|t.hosts| - 1] == Probed(Fresh(w, s.nextId, s.inserts, v), v) && w in t.ledger.busy
  {
    hide *;
    var s := Run(proc, es);
    NotBusy(s, w, v, sock);
    BusyExactlyWhenLive(proc, es, w);
    forall j | 0 <= j < |s.hosts|
      ensures s.hosts[j].serial < s.inserts && (s.hosts[j].id != s.nextId <==> Apart(s.inserts, s.hosts[j].serial))
    {
      NextIdTaken(proc, es, j);
    }
    InsertLeaves(s, w, v, sock);
  }

  /**
   * So while every live session is among the last 65535 inserts an insert ends none, even when its first
   * send fails, and calls nobody. One insert more is too many: WrappedInsertEndsAnother.
   */
  lemma InsertEndsNone(proc: Process, es: seq<Event>, w: Worker, v: Visit, sock: SocketResult)
    requires Recent(Run(proc, es), 0xFFFF)
    requires Insert(Run(proc, es), w, v, sock).1 == Inserted
    ensures var s := Run(proc, es);
      var t := Insert(s, w, v, sock).0;
      && t.hosts == s.hosts + [Probed(Fresh(w, s.nextId, s.inserts, v), v)]
      && t.ledger.log == s.ledger.log && t.ledger.calls == s.ledger.calls
      && t.ledger.busy == s.ledger.busy + {w}
  {
    var s := Run(proc, es);
    var t := Insert(s, w, v, sock).0;
    RunNumbers(proc, es);
    if Transmits(v, t.listener.fd) && v.outcome.Failed? {
      forall j | 0 <= j < |s.hosts| ensures s.hosts[j].id != s.nextId {
        assert s.hosts[j] in s.hosts;
        Conservation(proc, es, s.hosts[j].serial);
        LiveAt(s.hosts, j);
        NearbyApart(s.inserts, s.hosts[j].serial);
        ApartExactly(s.inserts, s.hosts[j].serial);
      }
      var h := Fresh(w, s.nextId, s.inserts, v);
      MatchesNone(OnError(v.outcome.errno, h.id), s.hosts, |s.hosts|,
                  Transmit(s.ledger.(busy := s.ledger.busy + {w}), PayloadFor(h, v)));
      assert s.hosts[..|s.hosts|] == s.hosts;
    }
  }

  // ---------- a run in which an id comes round ----------

  const DELIVERED := Visit(0, 0, 0, AF_INET, Delivered)
  const UNREACHED := Visit(0, 0, 0, AF_INET, Failed(ENETUNREACH))

  /** One session opened, and n more of another worker opened and cancelled while it waits. */
  function Churn(w: Worker, x: Worker, n: nat): seq<Event> {
    if n == 0 then [EvInsert(w, DELIVERED, Opened(3))]
    else Churn(w, x, n - 1) + [EvInsert(x, DELIVERED, Opened(3))] + [EvRemove(x)]
  }

  lemma RunMore(proc: Process, es: seq<Event>, e: Event)
    ensures Run(proc, es + [e]) == Step(Run(proc, es), e)
  {
    assert (es + [e])[..|es|] == es;
  }

  lemma {:induction false} AfterChurn(proc: Process, w: Worker, x: Worker, n: nat)
    requires w != x
    ensures var s := Run(proc, Churn(w, x, n));
      && s.hosts == [Probed(Fresh(w, 0, 0, DELIVERED), DELIVERED)] && s.ledger.busy == {w}
      && Up(s.listener) && s.inserts == n + 1 && s.nextId == (n + 1) % 0x1_0000
  {
    hide *;
    ChurnMore(w, x, n);
    if n == 0 {
      RunMore(proc, [], EvInsert(w, DELIVERED, Opened(3)));
      assert [] + [EvInsert(w, DELIVERED, Opened(3))] == [EvInsert(w, DELIVERED, Opened(3))];
      FirstInsert(proc, w);
    } else {
      AfterChurn(proc, w, x, n - 1);
      var es := Churn(w, x, n - 1);
      var open := es + [EvInsert(x, DELIVERED, Opened(3))];
      RunMore(proc, es, EvInsert(x, DELIVERED, Opened(3)));
      RunMore(proc, open, EvRemove(x));
      OpenedAndCancelled(Run(proc, es), x);
    }
  }

  lemma ChurnMore(w: Worker, x: Worker, n: nat)
    ensures n == 0 ==> Churn(w, x, n) == [EvInsert(w, DELIVERED, Opened(3))]
    ensures n > 0 ==> Churn(w, x, n) == Churn(w, x, n - 1) + [EvInsert(x, DELIVERED, Opened(3))] + [EvRemove(x)]
    ensures Probed(Fresh(w, 0, 0, DELIVERED), DELIVERED).worker == w
  {
  }

  lemma FirstInsert(proc: Process, w: Worker)
    ensures var s := Step(Run(proc, []), EvInsert(w, DELIVERED, Opened(3)));
      && s.hosts == [Probed(Fresh(w, 0, 0, DELIVERED), DELIVERED)] && s.ledger.busy == {w}
      && Up(s.listener) && s.inserts == 1 && s.nextId == 1
  {
  }

  lemma OpenedAndCancelled(s: State, x: Worker)
    requires |s.hosts| == 1 && s.hosts[0].worker != x && x !in s.ledger.busy && Up(s.listener)
    ensures var t := Step(Step(s, EvInsert(x, DELIVERED, Opened(3))), EvRemove(x));
      && t.hosts == s.hosts && t.ledger.busy == s.ledger.busy && Up(t.listener)
      && t.inserts == s.inserts + 1 && t.nextId == (s.nextId + 1) % 0x1_0000
  {
    var u := Insert(s, x, DELIVERED, Opened(3)).0;
    var c := OwnedBy(x);
    assert u.hosts == [s.hosts[0], u.hosts[1]] && u.hosts[1].worker == x;
    assert Kept(c, u.hosts, 0) == [] && Dropped(c, u.hosts, 0, u.ledger) == u.ledger;
    assert Kept(c, u.hosts, 1) == [s.hosts[0]] && Dropped(c, u.hosts, 1, u.ledger) == u.ledger;
    assert Kept(c, u.hosts, 2) == [s.hosts[0]];
    assert Dropped(c, u.hosts, 2, u.ledger) == Close(u.ledger, Ending(u.hosts[1], Cancelled));
    assert u.ledger.busy - {x} == s.ledger.busy;
  }

  /**
   * The failing run: after 65535 further inserts all live ids are distinct and the one live session is
   * among the last 65536 inserts, but the next insert's refused send ends it, and tells its worker so.
   */
  lemma WrappedInsertEndsAnother(proc: Process, w: Worker, x: Worker, y: Worker)
    requires w != x && y != w
    ensures var s := Run(proc, Churn(w, x, 0xFFFF));
      var (t, r) := Insert(s, y, UNREACHED, Opened(3));
      && DistinctIds(s.hosts) && Recent(s, 0x1_0000) && |s.hosts| == 1 && s.hosts[0].worker == w
      && r == Inserted && t.hosts == [Probed(Fresh(y, 0, 0x1_0000, UNREACHED), UNREACHED)]
      && t.ledger.log == s.ledger.log + [Ending(s.hosts[0], NoRoute)]
      && t.ledger.calls == s.ledger.calls + [Call(w, NetworkUnreachable)]
  {
    hide *;
    AfterChurn(proc, w, x, 0xFFFF);
    var s := Run(proc, Churn(w, x, 0xFFFF));
    OneSession(s);
    EndsTheOne(s, y);
  }

  lemma OneSession(s: State)
    requires |s.hosts| == 1 && s.inserts == 0x1_0000
    ensures DistinctIds(s.hosts) && (s.hosts[0].serial == 0 ==> Recent(s, 0x1_0000))
    ensures forall w: Worker :: s.hosts == [Probed(Fresh(w, 0, 0, DELIVERED), DELIVERED)] ==>
      s.hosts[0].worker == w && s.hosts[0].id == 0 && s.hosts[0].serial == 0
  {
    assert s.hosts[..0] == [];
  }

  lemma EndsTheOne(s: State, y: Worker)
    requires |s.hosts| == 1 && s.hosts[0].id == s.nextId && s.hosts[0].worker != y
    requires y !in s.ledger.busy && Up(s.listener)
    ensures var (t, r) := Insert(s, y, UNREACHED, Opened(3));
      && r == Inserted && t.hosts == [Probed(Fresh(y, s.nextId, s.inserts, UNREACHED), UNREACHED)]
      && t.ledger.log == s.ledger.log + [Ending(s.hosts[0], NoRoute)]
      && t.ledger.calls == s.ledger.calls + [Call(s.hosts[0].worker, NetworkUnreachable)]
  {
    var c := OnError(ENETUNREACH, s.nextId);
    var p := PayloadFor(Fresh(y, s.nextId, s.inserts, UNREACHED), UNREACHED);
    var l := Transmit(s.ledger.(busy := s.ledger.busy + {y}), p);
    assert Kept(c, s.hosts, 0) == [] && Dropped(c, s.hosts, 0, l) == l;
    assert Kept(c, s.hosts, 1) == [];
  }

  /** The same insert with its packet delivered: two live sessions share an id. */
  lemma WrappedIdsShared(proc: Process, w: Worker, x: Worker, y: Worker)
    requires w != x && y != w
    ensures var hs := Run(proc, Churn(w, x, 0xFFFF) + [EvInsert(y, DELIVERED, Opened(3))]).hosts;
      && |hs| == 2 && hs[0].id == hs[1].id && !DistinctIds(hs)
      && hs[0].next <= hs[0].timeout && hs[1].next <= hs[1].timeout
  {
    AfterChurn(proc, w, x, 0xFFFF);
    RunMore(proc, Churn(w, x, 0xFFFF), EvInsert(y, DELIVERED, Opened(3)));
    hide Run, Churn, DistinctIds;
    var hs := Step(Run(proc, Churn(w, x, 0xFFFF)), EvInsert(y, DELIVERED, Opened(3))).hosts;
    if DistinctIds(hs) {
      IdsDiffer(hs, 0, 1);
    }
  }

  // ---------- a sweep over shared ids ----------

  /** The sessions from position k on that are still linked when those with these ids are gone. */
  function Remaining(hs: seq<Session>, gone: set<u16>, k: nat): seq<Session>
    requires k <= |hs|
    decreases |hs| - k
  {
    if k == |hs| then []
    else if hs[k].id in gone then Remaining(hs, gone, k + 1)
    else [hs[k]] + Remaining(hs, gone, k + 1)
  }

  /** The nested remove_if takes the sessions with the sender's id out of those still to be attended. */
  lemma {:induction false} RefusalRemoves(hs: seq<Session>, gone: set<u16>, id: u16, k: nat)
    requires k <= |hs|
    ensures var todo := Remaining(hs, gone, k);
      Kept(OnError(ENETUNREACH, id), todo, |todo|) == Remaining(hs, gone + {id}, k)
    decreases |hs| - k
  {
    if k < |hs| {
      RefusalRemoves(hs, gone, id, k + 1);
      KeptSplit(OnError(ENETUNREACH, id), [hs[k]], Remaining(hs, gone, k + 1));
      KeptOne(OnError(ENETUNREACH, id), hs[k]);
    }
  }

  lemma KeptOne(c: Closure, h: Session)
    ensures Kept(c, [h], 1) == if Verdict(c, h.id, h.worker).None? then [h] else []
  {
    KeptNone(c, [h]);
    KeptMore(c, [h], 0);
  }

  /** The captured node stays linked exactly when it has another id than the session refused. */
  lemma CapturedNodeStays(h: Session, todo: seq<Session>)
    requires todo != []
    ensures todo[0] in Kept(OnError(ENETUNREACH, h.id), todo, |todo|) <==> todo[0].id != h.id
  {
    KeptExactly(OnError(ENETUNREACH, h.id), todo, |todo|, todo[0]);
    assert todo[..|todo|] == todo;
  }

  /** The next linked node is the first whose id is not gone. */
  lemma {:induction false} FirstRemaining(hs: seq<Session>, gone: set<u16>, k: nat) returns (j: nat)
    requires k <= |hs|
    ensures k <= j <= |hs| && forall m :: k <= m < j ==> hs[m].id in gone
    ensures j == |hs| <==> Remaining(hs, gone, k) == []
    ensures j < |hs| ==> hs[j].id !in gone && Remaining(hs, gone, k)[0] == hs[j]
    decreases |hs| - k
  {
    j := k;
    if k < |hs| && hs[k].id in gone {
      j := FirstRemaining(hs, gone, k + 1);
    }
  }

  /**
   * These sessions can all be refused in one sweep: each while its packet is due and its deadline not
   * past, and, where the clock is not to go back, at times in the order of the list.
   */
  ghost predicate Timely(hs: seq<Session>, ps: set<nat>, steady: bool) {
    && (forall p :: p in ps ==> p < |hs| && hs[p].next <= hs[p].timeout)
    && (steady ==> forall p, q :: p in ps && q in ps && p < q ==> hs[p].next <= hs[q].timeout)
  }

  /** One of these sessions has this id. */
  ghost predicate Clears(hs: seq<Session>, ps: set<nat>, id: u16) {
    exists p :: p in ps && p < |hs| && hs[p].id == id
  }

  /**
   * Two sessions share an id, and sessions before them that can be refused in one sweep with the first
   * of the two bear the ids of all that stand between them.
   */
  ghost predicate Collide(hs: seq<Session>, i: nat, j: nat, ps: set<nat>, steady: bool) {
    && i < j < |hs| && hs[i].id == hs[j].id
    && (forall p :: p in ps ==> p < i) && Timely(hs, ps + {i}, steady)
    && forall m :: i < m < j ==> Clears(hs, ps, hs[m].id)
  }

  /** The clock does not go back, neither between the visits of a sweep nor between the readings of one visit. */
  ghost predicate Steady(env: nat -> Visit) {
    forall n: nat :: env(n).now <= env(n).sentAt <= env(n + 1).now
  }

  /** In a sweep under way the session at position k is the next to be attended, if it is still linked. */
  lemma AtPosition(hs: seq<Session>, gone: set<u16>, k: nat, m: March, v: Visit, fd: int)
    requires k < |hs| && m.todo == Remaining(hs, gone, k)
    ensures hs[k].id in gone ==> m.todo == Remaining(hs, gone, k + 1)
    ensures hs[k].id !in gone ==>
      && m.todo != [] && m.todo[0] == hs[k] && m.todo[1..] == Remaining(hs, gone, k + 1)
      && Visited(m, v, fd).visits == m.visits + 1
      && var refused := FateOf(hs[k], v, fd).Unreachable?;
        Visited(m, v, fd).todo == Remaining(hs, if refused then gone + {hs[k].id} else gone, k + 1)
  {
    hide *;
    RemainingStep(hs, gone, k);
    if hs[k].id !in gone {
      assert ([hs[k]] + Remaining(hs, gone, k + 1))[1..] == Remaining(hs, gone, k + 1);
      VisitUnfold(m, v, fd);
      VisitBooks(m, v, fd);
      FourFates(hs[k], v, fd);
      RefusalRemoves(hs, gone, hs[k].id, k + 1);
    }
  }

  lemma RemainingStep(hs: seq<Session>, gone: set<u16>, k: nat)
    requires k < |hs|
    ensures Remaining(hs, gone, k) ==
      if hs[k].id in gone then Remaining(hs, gone, k + 1) else [hs[k]] + Remaining(hs, gone, k + 1)
  {
  }

  lemma NothingRemains(hs: seq<Session>, gone: set<u16>)
    ensures Remaining(hs, gone, |hs|) == []
  {
  }

  lemma LosesStep(m: March, env: nat -> Visit, fd: int)
    ensures Loses(m, env, fd) <==>
      m.todo != [] && (LosesNow(m, env(m.visits), fd) || Loses(Visited(m, env(m.visits), fd), env, fd))
  {
  }

  lemma RefusedWhen(h: Session, v: Visit, fd: int)
    ensures FateOf(h, v, fd).Unreachable? <==>
      fd >= 0 && h.next <= v.now <= h.timeout && v.family == AF_INET && v.outcome == Failed(ENETUNREACH)
  {
  }

  lemma TimelyMore(hs: seq<Session>, ps: set<nat>, k: nat, now: int, steady: bool)
    requires Timely(hs, ps, steady) && k < |hs| && hs[k].next <= now <= hs[k].timeout
    requires forall p :: p in ps ==> p < k
    requires steady ==> forall p :: p in ps ==> p < |hs| && hs[p].next <= now
    ensures Timely(hs, ps + {k}, steady)
  {
  }

  lemma ClearsMore(hs: seq<Session>, ps: set<nat>, k: nat)
    requires k < |hs|
    ensures Clears(hs, ps + {k}, hs[k].id)
    ensures forall id :: Clears(hs, ps, id) ==> Clears(hs, ps + {k}, id)
  {
    assert k in ps + {k};
    forall id | Clears(hs, ps, id) ensures Clears(hs, ps + {k}, id) {
      var p :| p in ps && p < |hs| && hs[p].id == id;
      assert p in ps + {k};
    }
  }

  /** A sweep that loses its captured node has met two sessions that collide; ps are those refused so far. */
  lemma {:induction false} LossCollides(hs: seq<Session>, gone: set<u16>, ps: set<nat>, m: March, env: nat -> Visit,
                                        fd: int, k: nat, steady: bool)
    requires k <= |hs| && m.todo == Remaining(hs, gone, k) && Loses(m, env, fd)
    requires (steady ==> Steady(env)) && Timely(hs, ps, steady) && forall p :: p in ps ==> p < k
    requires steady ==> forall p :: p in ps ==> p < |hs| && hs[p].next <= env(m.visits).now
    requires forall id :: id in gone ==> Clears(hs, ps, id)
    ensures exists i: nat, j: nat, qs: set<nat> :: Collide(hs, i, j, qs, steady)
    decreases |hs| - k
  {
    hide Loses, LosesNow, Visited, FateOf, Remaining, Timely, Clears;
    LosesStep(m, env, fd);
    if k == |hs| {
      NothingRemains(hs, gone);
    } else {
      var v := env(m.visits);
      AtPosition(hs, gone, k, m, v, fd);
      if hs[k].id in gone {
        LossCollides(hs, gone, ps, m, env, fd, k + 1, steady);
      } else {
        assert steady ==> v.now <= env(m.visits + 1).now;
        LosesSameId(m, v, fd);
        RefusedWhen(hs[k], v, fd);
        ClearsMore(hs, ps, k);
        if !FateOf(hs[k], v, fd).Unreachable? {
          LossCollides(hs, gone, ps, Visited(m, v, fd), env, fd, k + 1, steady);
        } else {
          TimelyMore(hs, ps, k, v.now, steady);
          var j := FirstRemaining(hs, gone, k + 1);
          if LosesNow(m, v, fd) {
            assert m.todo[1] == m.todo[1..][0];
            assert Collide(hs, k, j, ps, steady);
          } else {
            LossCollides(hs, gone + {hs[k].id}, ps + {k}, Visited(m, v, fd), env, fd, k + 1, steady);
          }
        }
      }
    }
  }

  /** No deadline is earlier. */
  function Earliest(hs: seq<Session>, k: nat): int
    requires k <= |hs|
  {
    if k == 0 then 0
    else if k == 1 || hs[k - 1].timeout < Earliest(hs, k - 1) then hs[k - 1].timeout
    else Earliest(hs, k - 1)
  }

  lemma {:induction false} EarliestBound(hs: seq<Session>, k: nat, n: nat)
    requires n < k <= |hs|
    ensures Earliest(hs, k) <= hs[n].timeout
  {
    if n < k - 1 {
      EarliestBound(hs, k - 1, n);
    }
  }

  /** A clock by position that does not go back and is late enough for each of these sessions. */
  ghost function Clock(hs: seq<Session>, qs: set<nat>, n: nat): int
    requires n < |hs|
  {
    var before := if n == 0 then Earliest(hs, |hs|) else Clock(hs, qs, n - 1);
    if n in qs && before < hs[n].next then hs[n].next else before
  }

  lemma {:induction false} ClockBound(hs: seq<Session>, qs: set<nat>, n: nat, t: int)
    requires n < |hs| && Earliest(hs, |hs|) <= t && forall p :: p in qs && p <= n ==> hs[p].next <= t
    ensures Clock(hs, qs, n) <= t
  {
    if n > 0 {
      ClockBound(hs, qs, n - 1, t);
    }
  }

  /** The answers to the session at position n: those to be refused are, unless they share the id of the i-th. */
  ghost function Answer(hs: seq<Session>, qs: set<nat>, i: nat, n: nat, steady: bool): Visit
    requires i < |hs| && n < |hs|
  {
    var now := if steady then Clock(hs, qs, n) else hs[n].next;
    if n in qs && (n == i || hs[n].id != hs[i].id) then Visit(now, now, 0, AF_INET, Failed(ENETUNREACH))
    else Visit(now, now, 0, 0, Delivered)
  }

  lemma AnswerRefuses(hs: seq<Session>, qs: set<nat>, i: nat, n: nat, steady: bool, fd: int)
    requires i < |hs| && n < |hs| && Timely(hs, qs, steady) && fd >= 0
    ensures FateOf(hs[n], Answer(hs, qs, i, n, steady), fd).Unreachable? <==>
      n in qs && (n == i || hs[n].id != hs[i].id)
    ensures Answer(hs, qs, i, n, steady).sentAt == Answer(hs, qs, i, n, steady).now
    ensures steady ==> Answer(hs, qs, i, n, steady).now == Clock(hs, qs, n)
    ensures steady && n > 0 ==> Clock(hs, qs, n - 1) <= Clock(hs, qs, n)
  {
    EarliestBound(hs, |hs|, n);
    if n in qs && steady {
      ClockBound(hs, qs, n, hs[n].timeout);
    }
  }

  /** The course of a sweep is decided by the answers to come. */
  lemma {:induction false} LosesFrame(m: March, env: nat -> Visit, other: nat -> Visit, fd: int)
    requires Loses(m, env, fd) && forall n :: n >= m.visits ==> env(n) == other(n)
    ensures Loses(m, other, fd)
    decreases |m.todo|
  {
    hide Visited, LosesNow;
    var v := env(m.visits);
    VisitBooks(m, v, fd);
    if !LosesNow(m, v, fd) {
      LosesFrame(Visited(m, v, fd), env, other, fd);
    }
  }

  /** The clock of a course of events that goes on from here. */
  ghost predicate NoEarlier(hs: seq<Session>, qs: set<nat>, env: nat -> Visit, k: nat, steady: bool)
    requires k < |hs|
  {
    steady ==> Steady(env) && forall n: nat :: env(n).now >= Clock(hs, qs, k)
  }

  /** Where two sessions collide, a course of events leads the sweep from position k to the loss. */
  lemma {:induction false} CollisionLoses(hs: seq<Session>, i: nat, j: nat, ps: set<nat>, steady: bool, m: March,
                                          gone: set<u16>, fd: int, k: nat) returns (env: nat -> Visit)
    requires k <= i && Collide(hs, i, j, ps, steady) && fd >= 0 && hs[i].id !in gone
    requires m.todo == Remaining(hs, gone, k)
    requires forall n :: i < n < j ==> hs[n].id != hs[i].id
    requires forall p :: p in ps && p < k && hs[p].id != hs[i].id ==> hs[p].id in gone
    ensures Loses(m, env, fd) && NoEarlier(hs, ps + {i}, env, k, steady)
    decreases i - k
  {
    hide Loses, LosesNow, Visited, FateOf, Remaining, Timely, Clears, Clock, Answer;
    var v := Answer(hs, ps + {i}, i, k, steady);
    AtPosition(hs, gone, k, m, v, fd);
    AnswerRefuses(hs, ps + {i}, i, k, steady, fd);
    if k < i {
      AnswerRefuses(hs, ps + {i}, i, k + 1, steady, fd);
      if hs[k].id in gone {
        env := CollisionLoses(hs, i, j, ps, steady, m, gone, fd, k + 1);
      } else {
        var n := Visited(m, v, fd);
        var now := if FateOf(hs[k], v, fd).Unreachable? then gone + {hs[k].id} else gone;
        var rest := CollisionLoses(hs, i, j, ps, steady, n, now, fd, k + 1);
        env := (x: nat) => if x <= m.visits then v else rest(x);
        LosesFrame(n, rest, env, fd);
        LosesStep(m, env, fd);
      }
    } else {
      env := (x: nat) => v;
      LosesSameId(m, v, fd);
      LosesStep(m, env, fd);
      CapturedNext(hs, i, j, ps, gone, steady);
      assert |m.todo| > 1 && m.todo[1] == m.todo[1..][0];
    }
  }

  /** The node captured at the first of the two is the second. */
  lemma CapturedNext(hs: seq<Session>, i: nat, j: nat, ps: set<nat>, gone: set<u16>, steady: bool)
    requires Collide(hs, i, j, ps, steady) && hs[i].id !in gone
    requires forall n :: i < n < j ==> hs[n].id != hs[i].id
    requires forall p :: p in ps && p < i && hs[p].id != hs[i].id ==> hs[p].id in gone
    ensures Remaining(hs, gone, i + 1) != [] && Remaining(hs, gone, i + 1)[0] == hs[j]
  {
    var next := FirstRemaining(hs, gone, i + 1);
    forall n | i < n < j ensures hs[n].id in gone {
      assert Clears(hs, ps, hs[n].id);
    }
  }

  /** The first session after the i-th with its id. */
  lemma {:induction false} NextWithId(hs: seq<Session>, i: nat, j: nat) returns (n: nat)
    requires i < j < |hs| && hs[i].id == hs[j].id
    ensures i < n <= j && hs[n].id == hs[i].id && forall m :: i < m < n ==> hs[m].id != hs[i].id
    decreases j
  {
    if m :| i < m < j && hs[m].id == hs[i].id {
      n := NextWithId(hs, i, m);
    } else {
      n := j;
    }
  }

  /**
   * Some course of events, with a clock that does not go back if so wished, makes a sweep of these sessions
   * lose its captured node.
   */
  ghost predicate CanLose(hs: seq<Session>, l: Ledger, fd: int, steady: bool) {
    exists env: nat -> Visit :: (steady ==> Steady(env)) && Loses(March([], hs, l, 0), env, fd)
  }

  lemma {:induction false} AllRemain(hs: seq<Session>, k: nat)
    requires k <= |hs|
    ensures Remaining(hs, {}, k) == hs[k..]
    decreases |hs| - k
  {
    if k < |hs| {
      AllRemain(hs, k + 1);
    }
  }

  /**
   * A sweep of these sessions can lose its captured node if and only if two of them collide: shared ids
   * alone are not enough. This holds for clocks that may go back between visits, and for those that do
   * not, each with its own condition on the times.
   */
  lemma LosesExactly(hs: seq<Session>, l: Ledger, fd: int, steady: bool)
    requires fd >= 0
    ensures CanLose(hs, l, fd, steady) <==> exists i: nat, j: nat, ps: set<nat> :: Collide(hs, i, j, ps, steady)
  {
    hide Loses, Remaining, Collide;
    var m := March([], hs, l, 0);
    AllRemain(hs, 0);
    assert hs[0..] == hs;
    if CanLose(hs, l, fd, steady) {
      var env: nat -> Visit :| (steady ==> Steady(env)) && Loses(m, env, fd);
      LossCollides(hs, {}, {}, m, env, fd, 0, steady);
    }
    if i: nat, j: nat, ps: set<nat> :| Collide(hs, i, j, ps, steady) {
      var n := Nearest(hs, i, j, ps, steady);
      var env := CollisionLoses(hs, i, n, ps, steady, m, {}, fd, 0);
    }
  }

  lemma Nearest(hs: seq<Session>, i: nat, j: nat, ps: set<nat>, steady: bool) returns (n: nat)
    requires Collide(hs, i, j, ps, steady)
    ensures Collide(hs, i, n, ps, steady) && i < n < |hs|
    ensures forall k :: i < k < n ==> hs[k].id != hs[i].id
  {
    n := NextWithId(hs, i, j);
  }

  /** With distinct ids no course of events does. */
  lemma DistinctNeverLoses(hs: seq<Session>, l: Ledger, fd: int)
    requires DistinctIds(hs)
    ensures !CanLose(hs, l, fd, false)
  {
    hide Loses, Survivors, Settled;
    forall env: nat -> Visit ensures !Loses(March([], hs, l, 0), env, fd) {
      SweepDistinct(hs, l, env, fd, 0);
      DepartureIsMidway(hs, l, env, fd);
    }
  }

  lemma DepartureIsMidway(hs: seq<Session>, l: Ledger, env: nat -> Visit, fd: int)
    ensures Midway(hs, l, env, fd, 0) == March([], hs, l, 0)
  {
    assert hs[0..] == hs;
  }

  /** A run can reach a state in which it happens, with no clock going back. */
  lemma LossIsReachable(proc: Process, w: Worker, x: Worker, y: Worker)
    requires w != x && y != w
    ensures var s := Run(proc, Churn(w, x, 0xFFFF) + [EvInsert(y, DELIVERED, Opened(3))]);
      s.listener.fd >= 0 && CanLose(s.hosts, s.ledger, s.listener.fd, true)
  {
    var es := Churn(w, x, 0xFFFF) + [EvInsert(y, DELIVERED, Opened(3))];
    WrappedIdsShared(proc, w, x, y);
    RunListens(proc, es);
    hide Run, Churn;
    var s := Run(proc, es);
    assert Collide(s.hosts, 0, 1, {}, true);
    LosesExactly(s.hosts, s.ledger, s.listener.fd, true);
  }

  // ---------- a sweep over shared ids that loses nothing ----------

  /** The first session refused at its deadline, the next not due. */
  function FirstRefused(a: Session, b: Session): nat -> Visit {
    (k: nat) =>
      if k == 0 then Visit(a.timeout, 0, 0, AF_INET, Failed(ENETUNREACH)) else Visit(b.next - 1, 0, 0, 0, Delivered)
  }

  /** Of three sessions the first and the last share an id: the refused send of the first ends the last as well. */
  lemma TakesAlong(s: State, a: Session, b: Session, c: Session)
    requires s.hosts == [a, b, c] && a.id == c.id && b.id != a.id && s.listener.fd >= 0
    requires a.next <= a.timeout && b.next <= b.timeout
    ensures var env := FirstRefused(a, b);
      var t, g := Sweep(s, env), Probed(a, env(0));
      && !Loses(Departure(s), env, s.listener.fd)
      && t.hosts == [b] && t.ledger.busy == s.ledger.busy - {a.worker, c.worker}
      && t.ledger.log == s.ledger.log + [Ending(g, NoRoute), Ending(c, NoRoute)]
      && t.ledger.calls == s.ledger.calls + [Call(a.worker, NetworkUnreachable), Call(c.worker, NetworkUnreachable)]
  {
    var env, fd := FirstRefused(a, b), s.listener.fd;
    var m := Departure(s);
    var g, cl := Probed(a, env(0)), OnError(ENETUNREACH, a.id);
    var l := Transmit(s.ledger, PayloadFor(a, env(0)));
    assert m.todo[1..] == [b, c] && [] + [g] + [b, c] == [g, b, c];
    ThreeKept(cl, g, b, c, l);
    var n := Visited(m, env(0), fd);
    assert n.past == [] && n.todo == [b] && n.visits == 1;
    var o := Visited(n, env(1), fd);
    assert n.todo[1..] == [] && [] + [b] == [b];
    assert o.past == [b] && o.todo == [] && o.ledger == n.ledger;
    MarchStep(o, env, fd);
    MarchStep(n, env, fd);
    MarchStep(m, env, fd);
    LosesStep(o, env, fd);
    LosesStep(n, env, fd);
    LosesStep(m, env, fd);
    LosesSameId(m, env(0), fd);
    LosesSameId(n, env(1), fd);
  }

  lemma ThreeKept(cl: Closure, g: Session, b: Session, c: Session, l: Ledger)
    requires cl == OnError(ENETUNREACH, g.id) && c.id == g.id && b.id != g.id
    ensures Kept(cl, [], 0) == [] && Kept(cl, [b, c], 2) == [b]
    ensures var n := Dropped(cl, [g, b, c], 3, l);
      n == Close(Close(l, Ending(g, NoRoute)), Ending(c, NoRoute))
  {
    assert Kept(cl, [b, c], 1) == [b] by {
      KeptNone(cl, [b, c]);
    }
    assert Dropped(cl, [g, b, c], 0, l) == l;
    assert Dropped(cl, [g, b, c], 1, l) == Close(l, Ending(g, NoRoute));
    assert Dropped(cl, [g, b, c], 2, l) == Close(l, Ending(g, NoRoute));
  }

  /**
   * A run in which a sweep that is well defined ends a session that is neither due nor past its deadline:
   * the ids are 0, 65535 and 0.
   */
  lemma SharedSweepTakesAlong(proc: Process, w: Worker, x: Worker, y: Worker, z: Worker)
    requires w != x && w != y && w != z && y != z
    ensures var two := [EvInsert(y, DELIVERED, Opened(3))] + [EvInsert(z, DELIVERED, Opened(3))];
      var s := Run(proc, Churn(w, x, 0xFFFE) + two);
      |s.hosts| == 3 &&
      var env := FirstRefused(s.hosts[0], s.hosts[1]);
      && !Loses(Departure(s), env, s.listener.fd)
      && Sweep(s, env).hosts == [s.hosts[1]] && s.hosts[2].worker == z && z in s.ledger.busy
      && z !in Sweep(s, env).ledger.busy && Call(z, NetworkUnreachable) in Sweep(s, env).ledger.calls
  {
    hide *;
    var es := Churn(w, x, 0xFFFE);
    AfterChurn(proc, w, x, 0xFFFE);
    RunMore(proc, es, EvInsert(y, DELIVERED, Opened(3)));
    RunMore(proc, es + [EvInsert(y, DELIVERED, Opened(3))], EvInsert(z, DELIVERED, Opened(3)));
    var r := Run(proc, es);
    var s := Step(Step(r, EvInsert(y, DELIVERED, Opened(3))), EvInsert(z, DELIVERED, Opened(3)));
    assert es + ([EvInsert(y, DELIVERED, Opened(3))] + [EvInsert(z, DELIVERED, Opened(3))])
        == es + [EvInsert(y, DELIVERED, Opened(3))] + [EvInsert(z, DELIVERED, Opened(3))];
    TwoOpened(r, w, y, z);
    TakesAlong(s, s.hosts[0], s.hosts[1], s.hosts[2]);
  }

  lemma TwoOpened(r: State, w: Worker, y: Worker, z: Worker)
    requires r.hosts == [Probed(Fresh(w, 0, 0, DELIVERED), DELIVERED)] && r.ledger.busy == {w}
    requires Up(r.listener) && r.nextId == 0xFFFF && w != y && w != z && y != z
    ensures var s := Step(Step(r, EvInsert(y, DELIVERED, Opened(3))), EvInsert(z, DELIVERED, Opened(3)));
      && |s.hosts| == 3 && s.hosts == [s.hosts[0], s.hosts[1], s.hosts[2]] && s.listener.fd >= 0
      && s.hosts[0].id == s.hosts[2].id == 0 && s.hosts[1].id == 0xFFFF
      && s.hosts[0].next <= s.hosts[0].timeout && s.hosts[1].next <= s.hosts[1].timeout
      && s.hosts[0].worker == w && s.hosts[2].worker == z && z in s.ledger.busy
  {
  }
}
