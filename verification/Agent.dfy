/** The agent of one address: the client that starts sessions and shows what they answer. */
module IpAgent {
  import opened Bytes
  import opened Prefix
  import opened Interfaces
  import Sessions
  import SessionRuns
  import SessionIds
  import Echo
  import IcmpController

  type Response = Sessions.Response
  type Worker = Sessions.Worker

  /** A state shown for a response, from the configuration or from the predefined table. */
  datatype IcmpState = IcmpState(id: Response, level: int, configured: bool)

  /** What the agent remembers of its sessions; updates counts the calls of updated(true). */
  datatype Shown = Shown(response: Response, state: Option<IcmpState>, updates: nat)

  const SILENT := Shown(Sessions.Invalid, None, 0)

  /** The configured state of a response, the first one if there are several, else the predefined one. */
  function StateFor(states: seq<IcmpState>, k: nat, table: Response -> int, r: Response): IcmpState
    requires k <= |states|
    decreases |states| - k
  {
    if k == |states| then IcmpState(r, table(r), false)
    else if states[k].id == r then states[k]
    else StateFor(states, k + 1, table, r)
  }

  /** set: nothing when the response equals the remembered one, which nothing ever changes. */
  function Set(d: Shown, states: seq<IcmpState>, table: Response -> int, r: Response): Shown {
    if r == d.response then d
    else d.(state := Some(StateFor(states, 0, table, r)), updates := d.updates + 1)
  }

  lemma {:induction false} StateForShows(states: seq<IcmpState>, k: nat, table: Response -> int, r: Response)
    requires k <= |states|
    ensures StateFor(states, k, table, r).id == r
    ensures (forall j :: k <= j < |states| ==> states[j].id != r) ==>
      StateFor(states, k, table, r) == IcmpState(r, table(r), false)
    ensures forall j :: (k <= j < |states| && states[j].id == r && (forall i :: k <= i < j ==> states[i].id != r)
                         ==> StateFor(states, k, table, r) == states[j])
    decreases |states| - k
  {
    if k < |states| && states[k].id != r {
      StateForShows(states, k + 1, table, r);
    }
  }

  // ---------- a sequence of callbacks ----------

  function SetAll(states: seq<IcmpState>, table: Response -> int, rs: seq<Response>): Shown {
    if rs == [] then SILENT
    else Set(SetAll(states, table, rs[..|rs| - 1]), states, table, rs[|rs| - 1])
  }

  /** How many of the responses are not Invalid. */
  function Valids(rs: seq<Response>): nat {
    if rs == [] then 0
    else if rs[|rs| - 1] == Sessions.Invalid then Valids(rs[..|rs| - 1])
    else Valids(rs[..|rs| - 1]) + 1
  }

  /**
   * After any sequence of callbacks the agent shows the last response that is not Invalid, if any, and
   * has reported one update for each such response, repeated ones included.
   */
  lemma {:induction false} ShowsTheLastResponse(states: seq<IcmpState>, table: Response -> int, rs: seq<Response>)
    ensures var d := SetAll(states, table, rs);
      && d.response == Sessions.Invalid
      && d.updates == Valids(rs)
      && (d.state.None? <==> forall j :: 0 <= j < |rs| ==> rs[j] == Sessions.Invalid)
      && (forall j :: (0 <= j < |rs| && rs[j] != Sessions.Invalid
                       && (forall i :: j < i < |rs| ==> rs[i] == Sessions.Invalid)
                       ==> d.state == Some(StateFor(states, 0, table, rs[j]))))
  {
    if rs != [] {
      var before := rs[..|rs| - 1];
      ShowsTheLastResponse(states, table, before);
      assert forall j :: 0 <= j < |before| ==> before[j] == rs[j];
    }
  }

  /**
   * A callback is an update exactly when it is not Invalid; so a repeated response is one although the agent
   * compares responses to avoid that.
   */
  lemma UpdatesExactly(states: seq<IcmpState>, table: Response -> int, rs: seq<Response>, r: Response)
    ensures SetAll(states, table, rs + [r]).updates == SetAll(states, table, rs).updates + 1 <==> r != Sessions.Invalid
    ensures r == Sessions.Invalid ==> SetAll(states, table, rs + [r]) == SetAll(states, table, rs)
  {
    assert (rs + [r])[..|rs|] == rs;
    ShowsTheLastResponse(states, table, rs);
  }

  lemma RepeatedResponseUpdates(states: seq<IcmpState>, table: Response -> int)
    ensures SetAll(states, table, [Sessions.EchoReply, Sessions.EchoReply]).updates == 2
  {
    var r := Sessions.EchoReply;
    UpdatesExactly(states, table, [], r);
    UpdatesExactly(states, table, [r], r);
    assert [] + [r] == [r] && [r] + [r] == [r, r];
  }

  /** The responses among the callbacks that are addressed to a worker, in order. */
  function ResponsesFor(calls: seq<Sessions.Call>, w: Worker): seq<Response> {
    if calls == [] then []
    else
      var c := calls[|calls| - 1];
      if c.worker == w then ResponsesFor(calls[..|calls| - 1], w) + [c.response]
      else ResponsesFor(calls[..|calls| - 1], w)
  }

  /** How many ended sessions of a worker owed it a callback. */
  ghost function OwedTo(log: seq<Sessions.Ending>, w: Worker): nat {
    if log == [] then 0
    else
      var e := log[|log| - 1];
      OwedTo(log[..|log| - 1], w) + if e.session.worker == w && Sessions.Owed(e.how).Some? then 1 else 0
  }

  /** What the last ended session of a worker that owed it a callback owed. */
  ghost function LatestAnswer(log: seq<Sessions.Ending>, w: Worker): Option<Response> {
    if log == [] then None
    else
      var e := log[|log| - 1];
      var r := Sessions.Owed(e.how);
      if e.session.worker == w && r.Some? then r else LatestAnswer(log[..|log| - 1], w)
  }

  lemma CallSnoc(calls: seq<Sessions.Call>, c: Sessions.Call, w: Worker)
    ensures ResponsesFor(calls + [c], w) ==
      if c.worker == w then ResponsesFor(calls, w) + [c.response] else ResponsesFor(calls, w)
  {
    assert (calls + [c])[..|calls|] == calls;
  }

  lemma ValidSnoc(rs: seq<Response>, r: Response)
    ensures Valids(rs + [r]) == Valids(rs) + if r == Sessions.Invalid then 0 else 1
  {
    assert (rs + [r])[..|rs|] == rs;
  }

  /** What one more ending owes, and never an Invalid. */
  lemma EndingTurn(log: seq<Sessions.Ending>, w: Worker)
    requires log != []
    ensures var (before, e) := (log[..|log| - 1], log[|log| - 1]);
      var r := Sessions.Owed(e.how);
      && SessionRuns.CallsOwed(log) ==
        (if r.None? then SessionRuns.CallsOwed(before)
         else SessionRuns.CallsOwed(before) + [Sessions.Call(e.session.worker, r.value)])
      && r != Some(Sessions.Invalid)
      && OwedTo(log, w) == OwedTo(before, w) + (if e.session.worker == w && r.Some? then 1 else 0)
      && LatestAnswer(log, w) == (if e.session.worker == w && r.Some? then r else LatestAnswer(before, w))
  {
    var before := log[..|log| - 1];
    assert SessionRuns.CallsOwed(before) + [] == SessionRuns.CallsOwed(before);
  }

  lemma {:induction false} ResponsesOwed(log: seq<Sessions.Ending>, w: Worker)
    ensures var rs := ResponsesFor(SessionRuns.CallsOwed(log), w);
      && |rs| == OwedTo(log, w) && Valids(rs) == |rs| && Sessions.Invalid !in rs
      && LatestAnswer(log, w) == if rs == [] then None else Some(rs[|rs| - 1])
  {
    if log != [] {
      hide *;
      var before, e := log[..|log| - 1], log[|log| - 1];
      var calls := SessionRuns.CallsOwed(before);
      ResponsesOwed(before, w);
      EndingTurn(log, w);
      var r := Sessions.Owed(e.how);
      if r.Some? {
        CallSnoc(calls, Sessions.Call(e.session.worker, r.value), w);
        ValidSnoc(ResponsesFor(calls, w), r.value);
      }
    }
  }

  /**
   * Over every run of the controller the agent reports exactly one update for each of its sessions that
   * ended with an answer, and shows the answer of the latest of them.
   */
  lemma ShowsTheLatestSession(proc: Echo.Process, es: seq<Sessions.Event>, w: Worker,
                                     states: seq<IcmpState>, table: Response -> int)
    ensures var l := Sessions.Run(proc, es).ledger;
      var d := SetAll(states, table, ResponsesFor(l.calls, w));
      && d.updates == OwedTo(l.log, w)
      && d.state == if LatestAnswer(l.log, w).None? then None
                    else Some(StateFor(states, 0, table, LatestAnswer(l.log, w).value))
  {
    var l := Sessions.Run(proc, es).ledger;
    SessionRuns.CallbacksExact(proc, es);
    ResponsesOwed(l.log, w);
    ShowsTheLastResponse(states, table, ResponsesFor(l.calls, w));
  }

  // ---------- refresh ----------

  /** What refresh does to the controller: an insert when the check is on and no session is under way. */
  function RefreshSession(s: Sessions.State, w: Worker, empty: bool, check: bool,
                          v: Sessions.Visit, sock: Sessions.SocketResult)
    : (Sessions.State, Option<Sessions.InsertResult>)
  {
    if empty || !check || w in s.ledger.busy then (s, None)
    else
      var (t, r) := Sessions.Insert(s, w, v, sock);
      (t, Some(r))
  }

  /**
   * In every reachable state of the controller, refresh is never refused as busy; it opens a session
   * exactly when there is an address, the check is on, the worker has no live session and the listener
   * is up or starts; and it opens one.
   */
  lemma RefreshOpensExactly(proc: Echo.Process, es: seq<Sessions.Event>, w: Worker, empty: bool, check: bool,
                            v: Sessions.Visit, sock: Sessions.SocketResult)
    ensures var s := Sessions.Run(proc, es);
      var (t, r) := RefreshSession(s, w, empty, check, v, sock);
      && r != Some(Sessions.Busy)
      && (r == Some(Sessions.Inserted) <==>
          && !empty && check && (forall i :: 0 <= i < |s.hosts| ==> s.hosts[i].worker != w)
          && (Sessions.Up(s.listener) || sock.Opened?))
      && (r == Some(Sessions.Inserted) ==> SessionRuns.Owned(t.hosts, w) == 1)
      && (r.None? ==> t == s)
  {
    var s := Sessions.Run(proc, es);
    SessionRuns.RunListens(proc, es);
    SessionRuns.BusyExactlyWhenLive(proc, es, w);
    if !empty && check && w !in s.ledger.busy {
      var e := Sessions.EvInsert(w, v, sock);
      assert (es + [e])[..|es|] == es;
      SessionRuns.BusyCountsSessions(proc, es + [e], w);
      if Sessions.Insert(s, w, v, sock).1 == Sessions.Inserted {
        StaysBusy(s, w, v, sock);
      }
    }
  }

  /**
   * An insert leaves its worker busy: the error path of the first send can end no session of the worker,
   * which had none.
   */
  lemma StaysBusy(s: Sessions.State, w: Worker, v: Sessions.Visit, sock: Sessions.SocketResult)
    requires forall i :: 0 <= i < |s.hosts| ==> s.hosts[i].worker != w
    requires Sessions.Insert(s, w, v, sock).1 == Sessions.Inserted
    ensures w in Sessions.Insert(s, w, v, sock).0.ledger.busy
  {
    var t := Sessions.Insert(s, w, v, sock).0;
    if Sessions.Transmits(v, t.listener.fd) && v.outcome.Failed? {
      var h := Sessions.Fresh(w, s.nextId, s.inserts, v);
      var l := Sessions.Transmit(s.ledger.(busy := s.ledger.busy + {w}), Sessions.PayloadFor(h, v));
      SessionIds.DroppedKeepsBusy(Sessions.OnError(v.outcome.errno, h.id), s.hosts, |s.hosts|, l, w);
    }
  }

  // ---------- the state shown ----------

  /**
   * The outcome of asking the configured IP states in order: nobody, the first that answers true, or one
   * that throws first.
   */
  datatype Pick = Nobody | Picked(i: nat) | Failing(i: nat)

  function PickFrom(answers: seq<Comparison>, k: nat): Pick
    requires k <= |answers|
    decreases |answers| - k
  {
    if k == |answers| then Nobody
    else match answers[k]
      case Throws => Failing(k)
      case Answer(yes) => if yes then Picked(k) else PickFrom(answers, k + 1)
  }

  /** All the answers before the i-th are no. */
  ghost predicate NoBefore(answers: seq<Comparison>, k: nat, i: nat) {
    i <= |answers| && forall j :: k <= j < i ==> answers[j] == Answer(false)
  }

  lemma {:induction false} PickExactly(answers: seq<Comparison>, k: nat)
    requires k <= |answers|
    ensures var p := PickFrom(answers, k);
      && (p == Nobody <==> NoBefore(answers, k, |answers|))
      && (p.Picked? ==> k <= p.i < |answers| && answers[p.i] == Answer(true) && NoBefore(answers, k, p.i))
      && (p.Failing? ==> k <= p.i < |answers| && answers[p.i] == Throws && NoBefore(answers, k, p.i))
    decreases |answers| - k
  {
    if k < |answers| && answers[k] == Answer(false) {
      PickExactly(answers, k + 1);
    }
  }

  /** Whose state is shown. */
  datatype Source = FromBase | FromAddress | FromSession

  /** The highest level of those there are, and whose it is: among equals the agent's own, then the address's. */
  ghost predicate Chosen(base: int, ip: Option<int>, icmp: Option<int>, source: Source, level: int) {
    && level >= base && (ip.Some? ==> level >= ip.value) && (icmp.Some? ==> level >= icmp.value)
    && match source
       case FromBase => level == base
       case FromAddress => ip.Some? && level == ip.value && level > base
       case FromSession => icmp.Some? && level == icmp.value && level > base && (ip.Some? ==> level > ip.value)
  }

  datatype Computed = Computed(source: Source, level: int) | Threw

  class Agent {
    const worker: Worker
    const check: bool
    const icmpStates: seq<IcmpState>
    const ipStates: seq<IpState>
    var address: Address
    var response: Response
    var icmpState: Option<IcmpState>
    var ipState: IpState?
    ghost var updates: nat

    ghost predicate Valid() {
      forall i, j :: 0 <= i < j < |ipStates| ==> ipStates[i] != ipStates[j]
    }

    ghost function Display(): Shown
      reads this
    {
      Shown(response, icmpState, updates)
    }

    /** What the i-th configured IP state would answer now. */
    ghost function AnswerOf(i: nat, env: nat -> Listing): (Comparison, SubNet)
      requires i < |ipStates|
      reads this, ipStates
    {
      Compared(ipStates[i].order, ipStates[i].kind, ipStates[i].subnet, address, env(i))
    }

    ghost function Answers(env: nat -> Listing): (vs: seq<Comparison>)
      reads this, ipStates
      ensures |vs| == |ipStates| && forall i :: 0 <= i < |vs| ==> vs[i] == AnswerOf(i, env).0
    {
      seq(|ipStates|, i requires 0 <= i < |ipStates| reads this, ipStates => AnswerOf(i, env).0)
    }

    constructor (worker: Worker, check: bool, address: Address, icmpStates: seq<IcmpState>, ipStates: seq<IpState>)
      ensures this.worker == worker && this.check == check && this.address == address
      ensures this.icmpStates == icmpStates && this.ipStates == ipStates
      ensures Display() == SILENT && ipState == null
    {
      this.worker, this.check, this.address := worker, check, address;
      this.icmpStates, this.ipStates := icmpStates, ipStates;
      response, icmpState, ipState, updates := Sessions.Invalid, None, null, 0;
    }

    /** The response of a session. */
    method SetResponse(r: Response, table: Response -> int)
      modifies this`icmpState, this`updates
      ensures Display() == Set(old(Display()), icmpStates, table, r)
    {
      if r == response {
        return;
      }
      for k := 0 to |icmpStates|
        invariant StateFor(icmpStates, k, table, r) == StateFor(icmpStates, 0, table, r)
        invariant Display() == old(Display())
      {
        if icmpStates[k].id == r {
          icmpState := Some(icmpStates[k]);
          updates := updates + 1;
          return;
        }
      }
      icmpState := Some(IcmpState(r, table(r), false));
      updates := updates + 1;
    }

    /** Throws only what the start of the listener throws. */
    method Refresh(c: IcmpController.Controller, v: Sessions.Visit, sock: Sessions.SocketResult, table: Response -> int)
      returns (threw: bool)
      requires c.Valid() && (worker in c.workers || !worker.busy)
      modifies this`icmpState, this`updates, this`ipState, c, worker`busy, c.workers`busy
      ensures c.Valid()
      ensures var (s, r) := RefreshSession(old(c.Abs()), worker, address.family == 0, check, v, sock);
        c.Abs() == s && threw == (r == Some(Sessions.StartFailed)) && r != Some(Sessions.Busy)
      ensures ipState == if address.family == 0 then null else old(ipState)
      ensures Display() ==
        if address.family == 0 && old(ipState) != null then Set(old(Display()), icmpStates, table, Sessions.Invalid)
        else old(Display())
    {
      if address.family == 0 {
        if ipState != null {
          ipState := null;
          SetResponse(Sessions.Invalid, table);
        }
        return false;
      }
      if check && !worker.busy {
        var r := c.Insert(worker, v, sock);
        return r == Sessions.StartFailed;
      }
      return false;
    }

    /** Asks the IP states in order until one matches or throws; the others are not asked, so their subnets stay. */
    method FindState(env: nat -> Listing) returns (threw: bool)
      requires Valid()
      modifies this`ipState, ipStates
      ensures var pick := PickFrom(old(Answers(env)), 0);
        && threw == pick.Failing?
        && (pick.Picked? ==> pick.i < |ipStates|)
        && ipState == (if pick.Picked? then ipStates[pick.i] else null)
        && forall k :: 0 <= k < |ipStates| ==>
             ipStates[k].subnet ==
               if pick != Nobody && k > pick.i then old(ipStates[k].subnet) else old(AnswerOf(k, env).1)
    {
      ghost var answers := Answers(env);
      ipState := null;
      threw := false;
      for k := 0 to |ipStates|
        invariant ipState == null && !threw
        invariant PickFrom(answers, k) == PickFrom(answers, 0)
        invariant forall i :: 0 <= i < k ==> ipStates[i].subnet == old(AnswerOf(i, env).1)
        invariant forall i :: k <= i < |ipStates| ==> ipStates[i].subnet == old(ipStates[i].subnet)
      {
        var state := ipStates[k];
        var verdict := state.Compare(address, env(k));
        assert verdict == answers[k] && state.subnet == old(AnswerOf(k, env).1);
        match verdict {
          case Throws =>
            threw := true;
            return;
          case Answer(yes) =>
            if yes {
              ipState := state;
              return;
            }
        }
      }
    }

    /** The state shown: the agent's own, unless the matching IP state, or else the ICMP state, has a higher level. */
    method ComputeState(base: int, env: nat -> Listing) returns (r: Computed)
      requires Valid()
      modifies this`ipState, ipStates
      ensures var pick := PickFrom(old(Answers(env)), 0);
        && (pick.Picked? ==> pick.i < |ipStates|)
        && ipState == (if pick.Picked? then ipStates[pick.i] else null)
        && (r == Threw <==> pick.Failing?)
        && (r.Computed? ==>
              var ip := if pick.Picked? then Some(ipStates[pick.i].level) else None;
              var icmp := if icmpState.Some? then Some(icmpState.value.level) else None;
              Chosen(base, ip, icmp, r.source, r.level))
    {
      var threw := FindState(env);
      if threw {
        return Threw;
      }
      var source, level := FromBase, base;
      if ipState != null && ipState.level > level {
        source, level := FromAddress, ipState.level;
      }
      if icmpState.Some? && icmpState.value.level > level {
        source, level := FromSession, icmpState.value.level;
      }
      return Computed(source, level);
    }
  }

  /**
   * When its address is lost the agent drops the IP state, but what it shows of its sessions goes back to
   * nothing only if it was nothing: Invalid equals the remembered response, so set ignores it.
   */
  lemma LostAddressForgetsExactly(states: seq<IcmpState>, table: Response -> int, rs: seq<Response>)
    ensures var d := SetAll(states, table, rs);
      var e := Set(d, states, table, Sessions.Invalid);
      && (e.state.None? || e.state.value.id == Sessions.Invalid <==>
          forall j :: 0 <= j < |rs| ==> rs[j] == Sessions.Invalid)
      && e == d
  {
    ShowsTheLastResponse(states, table, rs);
    if i :| 0 <= i < |rs| && rs[i] != Sessions.Invalid {
      var j := LastValid(rs, i);
      StateForShows(states, 0, table, rs[j]);
    }
  }

  lemma {:induction false} LastValid(rs: seq<Response>, i: nat) returns (j: nat)
    requires i < |rs| && rs[i] != Sessions.Invalid
    ensures j < |rs| && rs[j] != Sessions.Invalid && forall k :: j < k < |rs| ==> rs[k] == Sessions.Invalid
    decreases |rs| - i
  {
    if k :| i < k < |rs| && rs[k] != Sessions.Invalid {
      j := LastValid(rs, k);
    } else {
      j := i;
    }
  }

  /** A host that answered and then lost its address is still shown as it answered. */
  lemma AnsweredThenLost(table: Response -> int)
    ensures Set(SetAll([], table, [Sessions.EchoReply]), [], table, Sessions.Invalid).state
      == Some(IcmpState(Sessions.EchoReply, table(Sessions.EchoReply), false))
  {
    ShowsTheLastResponse([], table, [Sessions.EchoReply]);
  }
}
