/**
 * The controller and its hosts as the mutable objects they are. The list is a sequence of host
 * objects, so that an iterator is a host (or null past the end); remove_if captures the iterator
 * of the next node before it calls its closure, and unlinks the current node afterwards.
 */
module IcmpController {
  import opened Bytes
  import opened Echo
  import opened Sessions

  /** The list with the node at position i unlinked. */
  ghost function Unlinked(hs: seq<Host>, i: nat): seq<Host>
    requires i < |hs|
  {
    hs[..i] + hs[i + 1..]
  }

  ghost function Values(hs: seq<Host>): (vs: seq<Session>)
    reads hs
    ensures |vs| == |hs|
    ensures forall i {:trigger vs[i]} :: 0 <= i < |hs| ==> vs[i] == hs[i].Value()
  {
    seq(|hs|, i requires 0 <= i < |hs| reads hs => hs[i].Value())
  }

  lemma ValuesSplit(a: seq<Host>, b: seq<Host>)
    ensures Values(a + b) == Values(a) + Values(b)
  {
  }

  ghost function BusyAmong(ws: set<Worker>): set<Worker>
    reads ws
  {
    set w | w in ws && w.busy
  }

  /** No node is linked twice. */
  ghost predicate NoRepeats(hs: seq<Host>) {
    hs == [] || (NoRepeats(hs[..|hs| - 1]) && hs[|hs| - 1] !in hs[..|hs| - 1])
  }

  lemma {:induction false} NodesDiffer(hs: seq<Host>, i: nat, j: nat)
    requires NoRepeats(hs) && i < |hs| && j < |hs| && i != j
    ensures hs[i] != hs[j]
  {
    var last := |hs| - 1;
    if i == last {
      assert hs[j] in hs[..last];
    } else if j == last {
      assert hs[i] in hs[..last];
    } else {
      NodesDiffer(hs[..last], i, j);
    }
  }

  lemma {:induction false} StillNoRepeats(hs: seq<Host>, i: nat)
    requires NoRepeats(hs) && i < |hs|
    ensures NoRepeats(Unlinked(hs, i))
  {
    var last := |hs| - 1;
    var shorter := Unlinked(hs, i);
    if i == last {
      assert shorter == hs[..last];
    } else {
      StillNoRepeats(hs[..last], i);
      assert shorter[..|shorter| - 1] == Unlinked(hs[..last], i);
      assert shorter[|shorter| - 1] == hs[last];
      forall h | h in Unlinked(hs[..last], i) ensures h in hs[..last] {
      }
    }
  }

  lemma StillLinked(hs: seq<Host>, i: nat)
    requires i < |hs|
    ensures i + 1 < |hs| ==> hs[i + 1] in Unlinked(hs, i)
    ensures forall h :: h in Unlinked(hs, i) ==> h in hs
  {
    assert i + 1 < |hs| ==> Unlinked(hs, i)[i] == hs[i + 1];
  }

  /** The hosts a closure leaves among the first k. */
  ghost function KeptHosts(c: Closure, hs: seq<Host>, k: nat): seq<Host>
    requires k <= |hs|
  {
    if k == 0 then []
    else
      var h := hs[k - 1];
      if Verdict(c, h.id, h.worker).None? then KeptHosts(c, hs, k - 1) + [h] else KeptHosts(c, hs, k - 1)
  }

  lemma {:induction false} KeptValues(c: Closure, hs: seq<Host>, k: nat)
    requires k <= |hs|
    ensures Values(KeptHosts(c, hs, k)) == Kept(c, Values(hs), k)
  {
    if k > 0 {
      KeptValues(c, hs, k - 1);
      var h := hs[k - 1];
      var before := KeptHosts(c, hs, k - 1);
      assert (before + [h])[..|before|] == before;
    }
  }

  /** The hosts from position k on. */
  ghost function From(hs: seq<Host>, k: nat): seq<Host>
    requires k <= |hs|
    decreases |hs| - k
  {
    if k == |hs| then [] else [hs[k]] + From(hs, k + 1)
  }

  lemma {:induction false} FromIsSuffix(hs: seq<Host>, k: nat)
    requires k <= |hs|
    ensures From(hs, k) == hs[k..]
    decreases |hs| - k
  {
    if k < |hs| {
      FromIsSuffix(hs, k + 1);
    }
  }

  /** The list while a loop stands at the k-th of the hosts it started with: those kept so far, then those to come. */
  ghost predicate Partial(kept: seq<Host>, all: seq<Host>, k: nat, list: seq<Host>) {
    k <= |all| && list == kept + From(all, k) && NoRepeats(list)
  }

  /** Where a loop starts. */
  lemma AtStart(all: seq<Host>)
    requires NoRepeats(all)
    ensures Partial([], all, 0, all)
  {
    FromIsSuffix(all, 0);
    assert [] + From(all, 0) == all;
  }

  /** Where a loop ends. */
  lemma AtEnd(kept: seq<Host>, all: seq<Host>, list: seq<Host>)
    requires Partial(kept, all, |all|, list)
    ensures list == kept && NoRepeats(list)
  {
    assert kept + [] == kept;
  }

  /** The node under the cursor, what follows it, and the list once it is kept or unlinked. */
  lemma AtCursor(kept: seq<Host>, all: seq<Host>, k: nat, list: seq<Host>)
    requires k < |all| && Partial(kept, all, k, list)
    ensures NoRepeats(list)
    ensures |kept| < |list| && list[|kept|] == all[k]
    ensures |kept| + 1 < |list| <==> k + 1 < |all|
    ensures k + 1 < |all| ==> list[|kept| + 1] == all[k + 1]
    ensures Partial(kept + [all[k]], all, k + 1, list)
    ensures Partial(kept, all, k + 1, Unlinked(list, |kept|))
  {
    FromIsSuffix(all, k);
    FromIsSuffix(all, k + 1);
    assert list == kept + [all[k]] + all[k + 1..];
    assert Unlinked(list, |kept|) == kept + all[k + 1..];
    assert list == (kept + [all[k]]) + all[k + 1..];
    StillNoRepeats(list, |kept|);
  }

  lemma KeptTurn(c: Closure, hs: seq<Host>, k: nat)
    requires k < |hs|
    ensures KeptHosts(c, hs, k + 1) ==
      if Verdict(c, hs[k].id, hs[k].worker).None? then KeptHosts(c, hs, k) + [hs[k]] else KeptHosts(c, hs, k)
  {
  }

  lemma CloseFields(l: Ledger, e: Ending)
    ensures Close(l, e) ==
      l.(busy := l.busy - {e.session.worker}, log := l.log + [e],
         calls := l.calls + CallFor(e.session.worker, Owed(e.how)))
  {
  }

  lemma {:induction false} KeptHostsOfFirst(c: Closure, a: seq<Host>, b: seq<Host>, k: nat)
    requires k <= |a|
    ensures KeptHosts(c, a + b, k) == KeptHosts(c, a, k)
  {
    if k > 0 {
      KeptHostsOfFirst(c, a, b, k - 1);
    }
  }

  lemma {:induction false} KeptHostsOfSecond(c: Closure, a: seq<Host>, b: seq<Host>, k: nat)
    requires k <= |b|
    ensures KeptHosts(c, a + b, |a| + k) == KeptHosts(c, a, |a|) + KeptHosts(c, b, k)
  {
    if k == 0 {
      KeptHostsOfFirst(c, a, b, |a|);
    } else {
      KeptHostsOfSecond(c, a, b, k - 1);
      KeptTurn(c, a + b, |a| + k - 1);
      KeptTurn(c, b, k - 1);
      hide KeptHosts, Verdict;
      assert (a + b)[|a| + k - 1] == b[k - 1];
    }
  }

  /** What a refused send leaves of the list around its sender. */
  lemma RefusalAround(past: seq<Host>, cur: Host, rest: seq<Host>, v: Visit)
    ensures var c, all := OnError(ENETUNREACH, cur.id), past + [cur] + rest;
      KeptHosts(c, all, |all|) == KeptHosts(c, past, |past|) + KeptHosts(c, rest, |rest|)
  {
    var c := OnError(ENETUNREACH, cur.id);
    KeptHostsOfSecond(c, past + [cur], rest, |rest|);
    KeptHostsOfSecond(c, past, [cur], 1);
    assert KeptHosts(c, [cur], 1) == [];
    hide KeptHosts;
    assert KeptHosts(c, past, |past|) + [] == KeptHosts(c, past, |past|);
  }

  /** The first of the rest is kept when its id is another. */
  lemma KeptHead(c: Closure, hs: seq<Host>)
    requires hs != [] && Verdict(c, hs[0].id, hs[0].worker).None?
    ensures KeptHosts(c, hs, |hs|) != [] && KeptHosts(c, hs, |hs|)[0] == hs[0]
  {
    assert hs == [hs[0]] + hs[1..];
    KeptHostsOfSecond(c, [hs[0]], hs[1..], |hs| - 1);
    assert KeptHosts(c, [hs[0]], 0) == [];
    assert KeptHosts(c, [hs[0]], 1) == [hs[0]];
  }

  /** The hosts attended and still linked after one more has met its fate. */
  ghost function PastAfter(past: seq<Host>, cur: Host, f: Fate): seq<Host> {
    if f.Ends? then past
    else if f.Unreachable? then KeptHosts(OnError(ENETUNREACH, cur.id), past, |past|)
    else past + [cur]
  }

  /** And those still to be attended. */
  ghost function TodoAfter(rest: seq<Host>, cur: Host, f: Fate): seq<Host> {
    if f.Unreachable? then KeptHosts(OnError(ENETUNREACH, cur.id), rest, |rest|) else rest
  }

  /** Nobody else in the list is the host between these parts. */
  lemma NodeAlone(past: seq<Host>, cur: Host, rest: seq<Host>)
    requires NoRepeats(past + [cur] + rest)
    ensures cur !in past && cur !in rest
  {
    var all := past + [cur] + rest;
    forall i | 0 <= i < |past| ensures past[i] != cur {
      NodesDiffer(all, i, |past|);
    }
    forall i | 0 <= i < |rest| ensures rest[i] != cur {
      NodesDiffer(all, |past|, |past| + 1 + i);
    }
  }

  lemma {:induction false} KeptFrom(c: Closure, hs: seq<Host>, k: nat)
    requires k <= |hs|
    ensures forall h :: h in KeptHosts(c, hs, k) ==> h in hs
  {
    if k > 0 {
      KeptFrom(c, hs, k - 1);
    }
  }

  class Host {
    const worker: Worker
    const id: u16
    const timeout: int
    var packets: u16
    var next: int
    ghost const serial: nat
    ghost const started: int
    ghost var sent: nat

    ghost function Value(): Session
      reads this
    {
      Session(worker, id, timeout, next, packets, serial, started, sent)
    }

    /** Takes the next id and sends the first packet, before the controller links the new node. */
    constructor (c: Controller, worker: Worker, v: Visit)
      requires c.Valid() && worker in c.workers
      modifies c`hosts, c`log, c`calls, c`wire, c`seqno, c`nextId, c`inserts, c.workers`busy
      ensures c.Valid() && this !in c.hosts
      ensures this.worker == worker && Value() == Probed(Fresh(worker, old(c.nextId), old(c.inserts), v), v)
      ensures Values(c.hosts) == LeftAfterSend(old(Values(c.hosts)), id, v, c.fd)
      ensures var p := PayloadFor(Fresh(worker, old(c.nextId), old(c.inserts), v), v);
        c.Books() == BooksAfterSend(old(c.Books()), old(Values(c.hosts)), p, v, c.fd)
      ensures c.nextId == (old(c.nextId) + 1) % 0x1_0000 && c.inserts == old(c.inserts) + 1
    {
      this.worker, id := worker, c.nextId;
      timeout := v.now + worker.interval;
      packets, next := 0, 0;
      serial, started, sent := c.inserts, v.now, 0;
      new;
      c.CountInsert();
      Send(c, v);
      SentFrom(old(c.hosts), id, v, c.fd);
    }

    /** Host::send, which swallows whatever Controller::send throws. */
    method Send(c: Controller, v: Visit)
      requires c.Valid()
      modifies this`packets, this`next, this`sent
      modifies c`hosts, c`log, c`calls, c`wire, c`seqno, c.workers`busy
      ensures c.Valid()
      ensures Value() == Probed(old(Value()), v)
      ensures c.hosts == HostsAfterSend(old(c.hosts), id, v, c.fd)
      ensures Values(c.hosts) == LeftAfterSend(Values(old(c.hosts)), id, v, c.fd)
      ensures c.Books() == BooksAfterSend(old(c.Books()), Values(old(c.hosts)), PayloadFor(old(Value()), v), v, c.fd)
    {
      next := v.sentAt + worker.interval;
      packets := (packets + 1) % 0x1_0000;
      sent := sent + 1;
      ghost var vs := Values(c.hosts);
      var threw := c.Send(v, Payload(id, packets, v.stamp));
      assert Values(old(c.hosts)) == vs;
    }

    /**
     * False when the session is over. A send refused as unreachable unlinks every host with this id, this
     * very one among them, and true is returned all the same.
     */
    method OnTimer(c: Controller, v: Visit) returns (alive: bool)
      requires c.Valid()
      modifies this`packets, this`next, this`sent
      modifies c`hosts, c`log, c`calls, c`wire, c`seqno, c.workers`busy
      ensures c.Valid()
      ensures var f := FateOf(old(Value()), v, c.fd);
        && alive == !f.Ends?
        && Value() == Attended(old(Value()), v, f)
        && c.hosts == (if f.Unreachable? then KeptHosts(Closure.OnError(ENETUNREACH, id), old(c.hosts), |old(c.hosts)|)
                       else old(c.hosts))
        && c.Books() == TimerBooks(old(c.Books()), Values(old(c.hosts)), old(Value()), v, f)
    {
      if v.now > timeout {
        c.calls := c.calls + [Call(worker, Timeout)];
        return false;
      }
      if v.now >= next {
        Send(c, v);
        SendByFate(old(c.hosts), Values(old(c.hosts)), old(c.Books()), old(Value()), v, c.fd);
      }
      return true;
    }

    method OnError(c: Controller, code: int, failed: u16) returns (ends: bool)
      modifies c`calls
      ensures ends == Verdict(Closure.OnError(code, failed), id, worker).Some?
      ensures c.calls == old(c.calls) + if ends then [Call(worker, NetworkUnreachable)] else []
    {
      ends := false;
      if failed == id {
        if code == ENETUNREACH {
          c.calls := c.calls + [Call(worker, NetworkUnreachable)];
          ends := true;
        }
      }
    }

    method OnResponse(c: Controller, icmpType: byte, answered: u16) returns (ends: bool)
      modifies c`calls
      ensures ends == Verdict(Closure.OnResponse(icmpType, answered), id, worker).Some?
      ensures c.calls == old(c.calls) + if ends then CallFor(worker, Owed(Answered(icmpType))) else []
    {
      if answered != id {
        return false;
      }
      if icmpType == ECHO_REQUEST {
        return false;
      } else if icmpType == ECHO_REPLY {
        c.calls := c.calls + [Call(worker, EchoReply)];
      } else if icmpType == DEST_UNREACH {
        c.calls := c.calls + [Call(worker, DestinationUnreachable)];
      } else if icmpType == TIME_EXCEEDED {
        c.calls := c.calls + [Call(worker, TimeExceeded)];
      }
      return true;
    }
  }

  /** What Controller::send leaves of the list and of the ledger, sender linked or not. */
  ghost function HostsAfterSend(hs: seq<Host>, id: u16, v: Visit, fd: int): seq<Host> {
    if Transmits(v, fd) && v.outcome.Failed? then KeptHosts(OnError(v.outcome.errno, id), hs, |hs|) else hs
  }

  lemma SentFrom(hs: seq<Host>, id: u16, v: Visit, fd: int)
    ensures forall h :: h in HostsAfterSend(hs, id, v, fd) ==> h in hs
  {
    if Transmits(v, fd) && v.outcome.Failed? {
      KeptFrom(OnError(v.outcome.errno, id), hs, |hs|);
    }
  }

  /** The books after OnTimer, before the closure around it frees the worker of a session past its deadline. */
  ghost function TimerBooks(l: Ledger, hs: seq<Session>, h: Session, v: Visit, f: Fate): Ledger {
    match f
    case Ends => l.(calls := l.calls + [Call(h.worker, Timeout)])
    case Waits => l
    case Probes(transmitted) => if transmitted then Transmit(l, PayloadFor(h, v)) else l
    case Unreachable => Dropped(OnError(ENETUNREACH, h.id), hs, |hs|, Transmit(l, PayloadFor(h, v)))
  }

  /**
   * The error path of send ends every linked host with the sender's id if the network is unreachable, and
   * nobody on any other error.
   */
  lemma SendByFate(hs: seq<Host>, vs: seq<Session>, l: Ledger, h: Session, v: Visit, fd: int)
    requires |hs| == |vs| && h.next <= v.now <= h.timeout
    ensures var f := FateOf(h, v, fd);
      && (f.Probes? || f.Unreachable?)
      && HostsAfterSend(hs, h.id, v, fd) ==
        (if f.Unreachable? then KeptHosts(OnError(ENETUNREACH, h.id), hs, |hs|) else hs)
      && BooksAfterSend(l, vs, PayloadFor(h, v), v, fd) == TimerBooks(l, vs, h, v, f)
  {
    if Transmits(v, fd) && v.outcome.Failed? && v.outcome.errno != ENETUNREACH {
      var c := OnError(v.outcome.errno, h.id);
      MatchesNone(c, vs, |vs|, Transmit(l, PayloadFor(h, v)));
      KeptAll(c, hs, |hs|);
    }
  }

  lemma {:induction false} KeptAll(c: Closure, hs: seq<Host>, k: nat)
    requires k <= |hs| && forall h :: h in hs ==> Verdict(c, h.id, h.worker).None?
    ensures KeptHosts(c, hs, k) == hs[..k]
  {
    if k > 0 {
      KeptAll(c, hs, k - 1);
      assert hs[..k] == hs[..k - 1] + [hs[k - 1]];
    }
  }

  class Controller {
    const proc: Process
    var hosts: seq<Host>
    var fd: int
    var timer: bool
    var handler: bool
    var nextId: u16   // the counter inside the Host constructor
    var seqno: u16    // the counter inside send
    var calls: seq<Call>    // the callbacks made, in order
    var wire: seq<Request>  // the packets handed to sendto, in order
    ghost var log: seq<Ending>
    ghost var inserts: nat
    ghost var workers: set<Worker> // every worker ever inserted

    ghost predicate Valid()
      reads this
    {
      NoRepeats(hosts) && forall h :: h in hosts ==> h.worker in workers
    }

    ghost function Books(): Ledger
      reads this, workers
    {
      Ledger(BusyAmong(workers), log, calls, wire, seqno)
    }

    ghost function Abs(): State
      reads this, hosts, workers
    {
      State(Values(hosts), Books(), Listener(fd, timer, handler), nextId, inserts, proc)
    }

    constructor (proc: Process)
      ensures Valid() && Abs() == Initial(proc) && workers == {}
    {
      this.proc := proc;
      hosts, fd, timer, handler, nextId, seqno, calls, wire := [], -1, false, false, 0, 0, [], [];
      log, inserts, workers := [], 0, {};
    }

    method CountInsert()
      modifies this`nextId, this`inserts
      ensures nextId == (old(nextId) + 1) % 0x1_0000 && inserts == old(inserts) + 1
      ensures Books() == old(Books())
    {
      nextId := (nextId + 1) % 0x1_0000;
      inserts := inserts + 1;
    }

    method Stop()
      modifies this`fd, this`timer, this`handler
      ensures Listener(fd, timer, handler) == DOWN
    {
      handler := false;
      timer := false;
      fd := -1;
    }

    method Start(sock: SocketResult) returns (ok: bool)
      modifies this`fd, this`timer, this`handler
      ensures match Sessions.Start(Listener(old(fd), old(timer), old(handler)), sock)
        case Some(l) => ok && Listener(fd, timer, handler) == l
        case None => !ok && Listener(fd, timer, handler) == DOWN
    {
      if fd <= 0 {
        match sock {
          case Opened(d) => fd := d;
          case Refused =>
            Stop();
            return false;
        }
      }
      timer := true;
      handler := true;
      return true;
    }

    /** The position of a node of the list. */
    method Position(h: Host) returns (i: nat)
      requires h in hosts
      ensures i < |hosts| && hosts[i] == h
    {
      i := 0;
      while hosts[i] != h
        invariant i < |hosts| && h !in hosts[..i]
        decreases |hosts| - i
      {
        i := i + 1;
      }
    }

    /** The iterator after a node, null at the end of the list. */
    method After(h: Host, ghost at: nat) returns (next: Host?)
      requires NoRepeats(hosts) && at < |hosts| && hosts[at] == h
      ensures next == if at + 1 < |hosts| then hosts[at + 1] else null
    {
      var i := Position(h);
      if i != at {
        NodesDiffer(hosts, i, at);
      }
      next := if i + 1 < |hosts| then hosts[i + 1] else null;
    }

    method Unlink(h: Host, ghost at: nat)
      requires NoRepeats(hosts) && at < |hosts| && hosts[at] == h
      modifies this`hosts
      ensures hosts == Unlinked(old(hosts), at)
    {
      var i := Position(h);
      if i != at {
        NodesDiffer(hosts, i, at);
      }
      hosts := hosts[..i] + hosts[i + 1..];
    }

    /** list::remove_if with one of the closures that do not send. */
    method RemoveIf(closure: Closure)
      requires Valid()
      modifies this`hosts, this`log, this`calls, workers`busy
      ensures Valid()
      ensures hosts == KeptHosts(closure, old(hosts), |old(hosts)|)
      ensures Values(hosts) == Kept(closure, old(Values(hosts)), |old(hosts)|)
      ensures Books() == Dropped(closure, old(Values(hosts)), |old(hosts)|, old(Books()))
    {
      VisitAll(closure);
      KeptValues(closure, old(hosts), |old(hosts)|);
    }

    /** Each turn reads the next node before the closure runs, and unlinks the node the closure ended. */
    method VisitAll(closure: Closure)
      requires Valid()
      modifies this`hosts, this`log, this`calls, workers`busy
      ensures Valid()
      ensures hosts == KeptHosts(closure, old(hosts), |old(hosts)|)
      ensures Books() == Dropped(closure, old(Values(hosts)), |old(hosts)|, old(Books()))
    {
      hide *;
      ghost var all, vs := hosts, Values(hosts);
      ghost var k := 0;
      BeforeVisits(closure);
      var cur := if hosts == [] then null else hosts[0];
      while cur != null
        invariant 0 <= k <= |all|
        invariant cur == if k < |all| then all[k] else null
        invariant Partial(KeptHosts(closure, all, k), all, k, hosts)
        invariant Books() == Dropped(closure, vs, k, old(Books()))
        decreases |all| - k
      {
        assert cur in all && cur.Value() == vs[k];
        cur := Turn(closure, cur, all, vs, k, old(Books()));
        k := k + 1;
      }
      AtEnd(KeptHosts(closure, all, k), all, hosts);
      KeptFrom(closure, all, |all|);
      StillValid(all);
    }

    lemma BeforeVisits(closure: Closure)
      requires Valid()
      ensures Partial(KeptHosts(closure, hosts, 0), hosts, 0, hosts)
      ensures Books() == Dropped(closure, Values(hosts), 0, Books())
      ensures forall h :: h in hosts ==> h.worker in workers
      ensures |Values(hosts)| == |hosts| && forall k :: 0 <= k < |hosts| ==> Values(hosts)[k] == hosts[k].Value()
    {
      AtStart(hosts);
    }

    lemma StillValid(all: seq<Host>)
      requires NoRepeats(hosts) && forall h :: h in hosts ==> h in all
      requires forall h :: h in all ==> h.worker in workers
      ensures Valid()
    {
    }

    /** One turn of remove_if, at the k-th of the hosts the loop started with. */
    method Turn(closure: Closure, cur: Host,
                ghost all: seq<Host>, ghost vs: seq<Session>, ghost k: nat, ghost l: Ledger)
      returns (next: Host?)
      requires k < |all| == |vs| && all[k] == cur && cur.Value() == vs[k] && cur.worker in workers
      requires Partial(KeptHosts(closure, all, k), all, k, hosts)
      requires Books() == Dropped(closure, vs, k, l)
      modifies this`hosts, this`log, this`calls, workers`busy
      ensures next == if k + 1 < |all| then all[k + 1] else null
      ensures Partial(KeptHosts(closure, all, k + 1), all, k + 1, hosts)
      ensures Books() == Dropped(closure, vs, k + 1, l)
    {
      ghost var at := |KeptHosts(closure, all, k)|;
      AtCursor(KeptHosts(closure, all, k), all, k, hosts);
      KeptTurn(closure, all, k);
      DroppedMore(closure, vs, k, l);
      if Verdict(closure, cur.id, cur.worker).Some? {
        CloseFields(Dropped(closure, vs, k, l), Ending(vs[k], Verdict(closure, cur.id, cur.worker).value));
      }
      assert cur.Value() == vs[k] && cur.id == vs[k].id && cur.worker == vs[k].worker;
      hide *;
      next := After(cur, at);
      Judge(cur, closure, at);
    }

    /** The closure on one host, and its unlinking when the closure ends it. */
    method Judge(h: Host, closure: Closure, ghost at: nat)
      requires NoRepeats(hosts) && at < |hosts| && hosts[at] == h && h.worker in workers
      modifies this`hosts, this`log, this`calls, workers`busy
      ensures var m, l := Verdict(closure, h.id, h.worker), old(Books());
        && hosts == (if m.None? then old(hosts) else Unlinked(old(hosts), at))
        && Books() == if m.None? then l else
             l.(busy := l.busy - {h.worker}, log := l.log + [Ending(h.Value(), m.value)],
                calls := l.calls + CallFor(h.worker, Owed(m.value)))
    {
      hide Verdict, NoRepeats, Unlinked, Owed, CallFor;
      ghost var l := Books();
      var ends := Closes(h, closure);
      if ends {
        Release(h, Verdict(closure, h.id, h.worker).value);
        Unlink(h, at);
      } else {
        assert l.calls + [] == l.calls;
      }
    }

    /** What every closure does to the host it ends: its worker is free again. */
    method Release(h: Host, ghost how: How)
      requires h.worker in workers
      modifies this`log, workers`busy
      ensures Books() == old(Books()).(busy := old(Books()).busy - {h.worker},
                                       log := old(log) + [Ending(h.Value(), how)])
    {
      h.worker.busy := false;
      assert BusyAmong(workers) == old(BusyAmong(workers)) - {h.worker};
      log := log + [Ending(h.Value(), how)];
    }

    /** Frees the worker of a linked host and unlinks it. */
    method End(h: Host, ghost how: How, ghost at: nat)
      requires Valid() && at < |hosts| && hosts[at] == h
      modifies this`hosts, this`log, workers`busy
      ensures Valid() && hosts == Unlinked(old(hosts), at)
      ensures Books() == old(Books()).(busy := old(Books()).busy - {h.worker},
                                       log := old(log) + [Ending(h.Value(), how)])
    {
      StillLinked(hosts, at);
      StillNoRepeats(hosts, at);
      hide NoRepeats, Unlinked;
      Release(h, how);
      Unlink(h, at);
    }

    /** Calls the closure on a host. */
    method Closes(h: Host, closure: Closure) returns (ends: bool)
      modifies this`calls
      ensures ends == Verdict(closure, h.id, h.worker).Some?
      ensures var called := if ends then CallFor(h.worker, Owed(Verdict(closure, h.id, h.worker).value)) else [];
        calls == old(calls) + called && Books() == old(Books()).(calls := old(Books()).calls + called)
    {
      match closure
      case OnError(code, id) => ends := h.OnError(this, code, id);
      case OnResponse(icmpType, id) => ends := h.OnResponse(this, icmpType, id);
      case OwnedBy(w) => ends := h.worker == w;
    }

    /** The packet as sendto gets it. */
    method NextPacket(p: Payload) returns (packet: seq<byte>)
      modifies this`wire, this`seqno
      ensures packet == Packet(proc, seqno, p)
      ensures Books() == Transmit(old(Books()), p)
    {
      seqno := (seqno + 1) % 0x1_0000;
      packet := BuildPacket(proc, seqno, p);
      wire := wire + [Request(seqno, p)];
    }

    /** Hands the packet to sendto; on failure asks every linked host whether the packet was its own. */
    method Send(v: Visit, p: Payload) returns (threw: bool)
      requires Valid()
      modifies this`hosts, this`log, this`calls, this`wire, this`seqno, workers`busy
      ensures Valid()
      ensures threw == !Transmits(v, fd)
      ensures hosts == HostsAfterSend(old(hosts), p.id, v, fd)
      ensures Values(hosts) == LeftAfterSend(old(Values(hosts)), p.id, v, fd)
      ensures Books() == BooksAfterSend(old(Books()), Values(old(hosts)), p, v, fd)
    {
      if fd < 0 || v.family != AF_INET {
        return true;
      }
      var packet := NextPacket(p);
      match v.outcome {
        case Delivered =>
        case Failed(code) => RemoveIf(OnError(code, p.id));
      }
      return false;
    }

    /**
     * The task a timer tick queues: its remove_if runs OnTimer, which may run another remove_if over
     * the same list. As long as that does not unlink the node captured, the sweep does what the sweep of
     * values does, whoever shares an id.
     */
    method Sweep(env: nat -> Visit) returns (visits: nat)
      requires Valid() && !Loses(Departure(Abs()), env, fd)
      modifies this, hosts, workers`busy
      ensures Valid() && workers == old(workers)
      ensures visits == Marched(Departure(old(Abs())), env, old(fd)).visits
      ensures Abs() == Sessions.Sweep(old(Abs()), env)
    {
      hide Marched, Values, NoRepeats;
      visits := AttendAll(env);
      if hosts == [] {
        Stop();
      }
    }

    method AttendAll(env: nat -> Visit) returns (visits: nat)
      requires Valid() && !Loses(Departure(Abs()), env, fd)
      modifies this`hosts, this`log, this`calls, this`wire, this`seqno, workers`busy, hosts
      ensures Valid()
      ensures var m := Marched(Departure(old(Abs())), env, fd);
        visits == m.visits && Values(hosts) == m.past && Books() == m.ledger
    {
      hide *;
      ghost var past, todo, m := [], hosts, Departure(Abs());
      AboutToSweep();
      visits := 0;
      var cur := if hosts == [] then null else hosts[0];
      while cur != null
        invariant cur == if todo == [] then null else todo[0]
        invariant m.visits == visits && !Loses(m, env, fd)
        invariant Marched(m, env, fd) == Marched(Departure(old(Abs())), env, fd)
        invariant Valid() && Underway(past, todo, m)
        invariant forall h :: h in todo ==> h in old(hosts)
        decreases |m.todo|
      {
        TodoValues(past, todo, m);
        MarchOn(m, env, fd);
        RestFrom(todo, m, env(visits), fd);
        assert cur == todo[0] && cur in todo;
        cur := TimerTurn(cur, env(visits), past, todo, m);
        ghost var f := FateOf(m.todo[0], env(visits), fd);
        past, todo, m := PastAfter(past, todo[0], f), TodoAfter(todo[1..], todo[0], f), Visited(m, env(visits), fd);
        visits := visits + 1;
      }
      SweptAll(past, todo, m, env);
    }

    /** The controller in the middle of a sweep. */
    ghost predicate Underway(past: seq<Host>, todo: seq<Host>, m: March)
      reads this, workers, past, todo
    {
      hosts == past + todo && Values(past) == m.past && Values(todo) == m.todo && Books() == m.ledger
    }

    /** At the start of a sweep. */
    lemma AboutToSweep()
      ensures Underway([], hosts, Departure(Abs())) && Departure(Abs()).visits == 0
    {
      assert [] + hosts == hosts;
    }

    lemma TodoValues(past: seq<Host>, todo: seq<Host>, m: March)
      requires Underway(past, todo, m) && todo != []
      ensures |m.todo| == |todo| && m.todo[0] == todo[0].Value()
    {
    }

    lemma MarchOn(m: March, env: nat -> Visit, fd: int)
      requires m.todo != [] && !Loses(m, env, fd)
      ensures var n := Visited(m, env(m.visits), fd);
        && Marched(n, env, fd) == Marched(m, env, fd) && !Loses(n, env, fd) && n.visits == m.visits + 1
        && !LosesNow(m, env(m.visits), fd)
    {
      hide FateOf, Kept, Dropped, LosesNow;
    }

    /** Who is still to be attended was so before. */
    lemma RestFrom(todo: seq<Host>, m: March, v: Visit, fd: int)
      requires m.todo != [] && todo != []
      ensures forall h :: h in TodoAfter(todo[1..], todo[0], FateOf(m.todo[0], v, fd)) ==> h in todo
    {
      KeptFrom(OnError(ENETUNREACH, todo[0].id), todo[1..], |todo| - 1);
    }

    /** At the end of a sweep. */
    lemma SweptAll(past: seq<Host>, todo: seq<Host>, m: March, env: nat -> Visit)
      requires todo == [] && Underway(past, todo, m)
      ensures Marched(m, env, fd) == m && Values(hosts) == m.past && Books() == m.ledger
    {
      assert past + [] == past;
    }

    /** One turn of the sweep's remove_if: the node captured is the next to be attended. */
    method TimerTurn(cur: Host, v: Visit, ghost past: seq<Host>, ghost todo: seq<Host>, ghost m: March)
      returns (next: Host?)
      requires Valid() && Underway(past, todo, m) && todo != [] && todo[0] == cur
      requires m.todo != [] && !LosesNow(m, v, fd)
      modifies this`hosts, this`log, this`calls, this`wire, this`seqno, workers`busy, cur`packets, cur`next, cur`sent
      ensures Valid()
      ensures var f := FateOf(m.todo[0], v, fd);
        var todo' := TodoAfter(todo[1..], cur, f);
        && Underway(PastAfter(past, cur, f), todo', Visited(m, v, fd))
        && next == (if todo' == [] then null else todo'[0])
    {
      Captured(past, todo, m, v);
      hide *;
      next := After(cur, |past|);
      Attend(cur, v, past, todo[1..], m);
    }

    /**
     * Under the cursor of a sweep: the node after it, and the first still to be attended once it has met its
     * fate.
     */
    lemma Captured(past: seq<Host>, todo: seq<Host>, m: March, v: Visit)
      requires Valid() && Underway(past, todo, m) && todo != [] && m.todo != [] && !LosesNow(m, v, fd)
      ensures NoRepeats(hosts) && |past| < |hosts| && hosts[|past|] == todo[0]
      ensures hosts == past + [todo[0]] + todo[1..]
      ensures Values(past) == m.past && Values(todo[1..]) == m.todo[1..] && todo[0].Value() == m.todo[0]
      ensures Books() == m.ledger
      ensures var todo' := TodoAfter(todo[1..], todo[0], FateOf(m.todo[0], v, fd));
        && (todo' == [] <==> |past| + 1 == |hosts|)
        && (todo' != [] ==> todo'[0] == hosts[|past| + 1])
    {
      assert todo == [todo[0]] + todo[1..];
      ValuesSplit([todo[0]], todo[1..]);
      if |todo| > 1 {
        assert m.todo[1] == todo[1].Value();
        if FateOf(m.todo[0], v, fd).Unreachable? {
          KeptHead(OnError(ENETUNREACH, todo[0].id), todo[1..]);
        }
      }
    }

    lemma Between(past: seq<Host>, cur: Host, rest: seq<Host>)
      requires Valid() && hosts == past + [cur] + rest
      ensures cur !in past && cur !in rest
      ensures |past| < |hosts| && hosts[|past|] == cur && Unlinked(hosts, |past|) == past + rest
    {
      NodeAlone(past, cur, rest);
    }

    /** After a visit the controller is where the sweep of values is. */
    lemma Arrived(past: seq<Host>, cur: Host, rest: seq<Host>, m: March, v: Visit)
      requires m.todo != [] && cur.id == m.todo[0].id
      requires Values(past) == m.past && Values(rest) == m.todo[1..]
      requires var h, f, all := m.todo[0], FateOf(m.todo[0], v, fd), past + [cur] + rest;
        && cur.Value() == Attended(h, v, f)
        && hosts == (if f.Ends? then past + rest
                     else if f.Unreachable? then KeptHosts(OnError(ENETUNREACH, cur.id), all, |all|) else all)
        && Books() == (if f.Ends? then Close(m.ledger, Ending(h, Expired))
                       else TimerBooks(m.ledger, Values(all), h, v, f))
      ensures var f := FateOf(m.todo[0], v, fd);
        Underway(PastAfter(past, cur, f), TodoAfter(rest, cur, f), Visited(m, v, fd))
    {
      var c := OnError(ENETUNREACH, cur.id);
      ValuesSplit(past + [cur], rest);
      ValuesSplit(past, [cur]);
      assert Values([cur]) == [cur.Value()];
      KeptValues(c, past, |past|);
      KeptValues(c, rest, |rest|);
      RefusalAround(past, cur, rest, v);
      VisitUnfold(m, v, fd);
      VisitBooks(m, v, fd);
      hide FateOf, KeptHosts, Kept, Dropped, Visited, Transmit, Probed, Close, Values;
    }

    /** The closure of the sweep, and the unlinking of the node it ended. */
    method Attend(cur: Host, v: Visit, ghost past: seq<Host>, ghost rest: seq<Host>, ghost m: March)
      requires Valid() && hosts == past + [cur] + rest && Books() == m.ledger
      requires m.todo != [] && cur.Value() == m.todo[0]
      requires Values(past) == m.past && Values(rest) == m.todo[1..]
      modifies this`hosts, this`log, this`calls, this`wire, this`seqno, workers`busy, cur`packets, cur`next, cur`sent
      ensures Valid()
      ensures var f := FateOf(m.todo[0], v, fd);
        Underway(PastAfter(past, cur, f), TodoAfter(rest, cur, f), Visited(m, v, fd))
    {
      Between(past, cur, rest);
      hide *;
      var alive := cur.OnTimer(this, v);
      assert Values(past) == m.past && Values(rest) == m.todo[1..];
      if !alive {
        End(cur, Expired, |past|);
      }
      Arrived(past, cur, rest, m, v);
    }

    method Insert(worker: Worker, v: Visit, sock: SocketResult) returns (r: InsertResult)
      requires Valid() && (worker in workers || !worker.busy)
      modifies this, worker`busy, workers`busy
      ensures Valid()
      ensures (Abs(), r) == Sessions.Insert(old(Abs()), worker, v, sock)
      ensures workers == old(workers) + if r == Inserted then {worker} else {}
    {
      hide LeftAfterSend, BooksAfterSend, NoRepeats, PayloadFor;
      if worker.busy {
        return Busy;
      }
      var ok := Start(sock);
      if !ok {
        return StartFailed;
      }
      Open(worker, v);
      return Inserted;
    }

    /** Marks the worker busy, makes its host, which sends before it is linked, and links it. */
    method Open(worker: Worker, v: Visit)
      requires Valid()
      modifies this`hosts, this`log, this`calls, this`wire, this`seqno, this`nextId, this`inserts, this`workers
      modifies worker`busy, workers`busy
      ensures Valid() && workers == old(workers) + {worker}
      ensures var h := Fresh(worker, old(nextId), old(inserts), v);
        && Values(hosts) == LeftAfterSend(old(Values(hosts)), old(nextId), v, fd) + [Probed(h, v)]
        && Books() == BooksAfterSend(old(Books()).(busy := old(Books()).busy + {worker}), old(Values(hosts)),
                                     PayloadFor(h, v), v, fd)
      ensures nextId == (old(nextId) + 1) % 0x1_0000 && inserts == old(inserts) + 1
    {
      ghost var vs := Values(hosts);
      Claim(worker);
      assert Values(hosts) == vs;
      hide LeftAfterSend, BooksAfterSend, PayloadFor, NoRepeats;
      var h := new Host(this, worker, v);
      Link(h);
    }

    method Claim(worker: Worker)
      requires Valid()
      modifies this`workers, worker`busy
      ensures Valid() && workers == old(workers) + {worker}
      ensures Books() == old(Books()).(busy := old(Books()).busy + {worker})
    {
      worker.busy := true;
      workers := workers + {worker};
    }

    method Link(h: Host)
      requires Valid() && h !in hosts && h.worker in workers
      modifies this`hosts
      ensures Valid()
      ensures Values(hosts) == old(Values(hosts)) + [h.Value()] && Books() == old(Books())
    {
      hosts := hosts + [h];
      assert hosts[..|hosts| - 1] == old(hosts);
    }

    method Remove(worker: Worker)
      requires Valid()
      modifies this, workers`busy
      ensures Valid() && workers == old(workers)
      ensures Abs() == Sessions.Remove(old(Abs()), worker)
    {
      RemoveIf(OwnedBy(worker));
      if hosts == [] {
        Stop();
      }
    }

    /** One input event: recvfrom into a structure of exactly DATAGRAM bytes, two filters, then the list. */
    method HandleEvent(r: Receipt)
      requires Valid()
      modifies this, workers`busy
      ensures Valid() && workers == old(workers)
      ensures Abs() == Receive(old(Abs()), r)
    {
      if r.NotReceived? {
        return;
      }
      var accepted := Recognise(proc, r.datagram);
      if accepted == None {
        return;
      }
      var closure := OnResponse(accepted.value.0, accepted.value.1.id);
      RemoveIf(closure);
    }
  }
}
