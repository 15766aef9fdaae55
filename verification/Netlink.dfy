/**
 * The netlink message walk, its dispatch to listeners, and the listener registry. The NLMSG_ macros are
 * written out from linux/netlink.h.
 */
module Netlink {
  import opened Bytes

  const HEADER: nat := 16  // sizeof(struct nlmsghdr)
  const MSG_ERROR: u16 := 2
  const MSG_DONE: u16 := 3

  /** NLMSG_ALIGN and RTA_ALIGN: the next multiple of four. */
  function Align4(n: nat): (r: nat)
    ensures n <= r < n + 4 && r % 4 == 0
  {
    (n + 3) / 4 * 4
  }

  datatype Msg = Msg(kind: u16, flags: u16, seqno: u32, pid: u32, data: seq<byte>)

  /** The header at the start of b. */
  function LengthOf(o: Order, b: seq<byte>): u32
    requires HEADER <= |b|
  {
    Load32(o, b[..4])
  }

  function KindOf(o: Order, b: seq<byte>): u16
    requires HEADER <= |b|
  {
    Load16(o, b[4..6])
  }

  function MsgOf(o: Order, b: seq<byte>): Msg
    requires HEADER <= |b| && HEADER <= LengthOf(o, b) <= |b|
  {
    Msg(KindOf(o, b), Load16(o, b[6..8]), Load32(o, b[8..12]), Load32(o, b[12..16]), b[HEADER..LengthOf(o, b)])
  }

  /** NLMSG_OK with the whole of b as the remaining length. */
  predicate Ok(o: Order, b: seq<byte>) {
    HEADER <= |b| && HEADER <= LengthOf(o, b) <= |b|
  }

  lemma OkFits(o: Order, b: seq<byte>)
    requires Ok(o, b)
    ensures HEADER <= |b| && HEADER <= LengthOf(o, b) <= |b|
    ensures Stops(KindOf(o, b)) <==> KindOf(o, b) == MSG_DONE || KindOf(o, b) == MSG_ERROR
  {
  }

  predicate Stops(kind: u16) {
    kind == MSG_DONE || kind == MSG_ERROR
  }

  /** The messages of a batch up to the first DONE or ERROR, or the first that does not fit. */
  function Messages(o: Order, b: seq<byte>): seq<Msg>
    decreases |b|
  {
    if !Ok(o, b) || Stops(KindOf(o, b)) then []
    else
      var step := Align4(LengthOf(o, b));
      [MsgOf(o, b)] + if step <= |b| then Messages(o, b[step..]) else []
  }

  /**
   * The walk takes a step past the end of what was received: the remaining length goes negative and is read
   * as unsigned.
   */
  predicate Overruns(o: Order, b: seq<byte>)
    decreases |b|
  {
    Ok(o, b) && !Stops(KindOf(o, b)) &&
    (Align4(LengthOf(o, b)) > |b| || Overruns(o, b[Align4(LengthOf(o, b))..]))
  }

  lemma {:induction false} AlignedNeverOverruns(o: Order, b: seq<byte>)
    requires |b| % 4 == 0
    ensures !Overruns(o, b)
    decreases |b|
  {
    if Ok(o, b) && !Stops(KindOf(o, b)) {
      AlignedNeverOverruns(o, b[Align4(LengthOf(o, b))..]);
    }
  }

  /**
   * The lengths of batch for which the walk is certain to stay inside what was received: the multiples
   * of four, and those too short for a header. Any other length admits a batch that it overruns.
   */
  lemma SafeLengthsExactly(o: Order, n: nat)
    requires n < 0x1_0000_0000
    ensures (forall b: seq<byte> :: |b| == n ==> !Overruns(o, b)) <==> n % 4 == 0 || n < HEADER
  {
    if n % 4 == 0 {
      forall b: seq<byte> | |b| == n ensures !Overruns(o, b) {
        AlignedNeverOverruns(o, b);
      }
    } else if n >= HEADER {
      var m := Msg(0, 0, 0, 0, seq(n - HEADER, _ => 0));
      HeaderReadBack(o, m, []);
      var b := HeaderBytes(o, m) + m.data;
      assert b == HeaderBytes(o, m) + m.data + [];
      assert |b| == n && Overruns(o, b);
    }
  }

  // ---------- encoding ----------

  predicate Fits(m: Msg) {
    HEADER + |m.data| < 0x1_0000_0000
  }

  function HeaderBytes(o: Order, m: Msg): (b: seq<byte>)
    ensures |b| == HEADER
  {
    Store(o, HEADER + |m.data|, 4) + Store(o, m.kind, 2) + Store(o, m.flags, 2)
    + Store(o, m.seqno, 4) + Store(o, m.pid, 4)
  }

  function Padding(n: nat): (b: seq<byte>)
    ensures |b| == Align4(n) - n
  {
    seq(Align4(n) - n, _ => 0)
  }

  /** Messages laid end to end, each padded to a multiple of four. */
  function Encode(o: Order, ms: seq<Msg>): (b: seq<byte>)
    ensures |b| % 4 == 0
  {
    if ms == [] then []
    else HeaderBytes(o, ms[0]) + ms[0].data + Padding(|ms[0].data|) + Encode(o, ms[1..])
  }

  lemma HeaderReadBack(o: Order, m: Msg, rest: seq<byte>)
    requires Fits(m)
    ensures var b := HeaderBytes(o, m) + m.data + rest;
      Ok(o, b) && LengthOf(o, b) == HEADER + |m.data| && KindOf(o, b) == m.kind && MsgOf(o, b) == m
  {
    hide Load, Store, Capacity;
    var h := HeaderBytes(o, m);
    var b := h + m.data + rest;
    Capacities();
    LoadStore(o, HEADER + |m.data|, 4);
    LoadStore(o, m.kind, 2);
    LoadStore(o, m.flags, 2);
    LoadStore(o, m.seqno, 4);
    LoadStore(o, m.pid, 4);
    assert b[..4] == Store(o, HEADER + |m.data|, 4);
    assert b[4..6] == Store(o, m.kind, 2);
    assert b[6..8] == Store(o, m.flags, 2);
    assert b[8..12] == Store(o, m.seqno, 4);
    assert b[12..16] == Store(o, m.pid, 4);
    assert b[HEADER..HEADER + |m.data|] == m.data;
  }

  lemma MessagesStep(o: Order, b: seq<byte>)
    requires Ok(o, b) && !Stops(KindOf(o, b))
    ensures var step := Align4(LengthOf(o, b));
      Messages(o, b) == [MsgOf(o, b)] + if step <= |b| then Messages(o, b[step..]) else []
  {
  }

  lemma OneMessage(o: Order, m: Msg, tail: seq<byte>)
    requires Fits(m) && m.kind != MSG_DONE && m.kind != MSG_ERROR
    ensures Messages(o, HeaderBytes(o, m) + m.data + (Padding(|m.data|) + tail)) == [m] + Messages(o, tail)
  {
    hide *;
    var pad := Padding(|m.data|);
    var b := HeaderBytes(o, m) + m.data + (pad + tail);
    HeaderReadBack(o, m, pad + tail);
    OkFits(o, b);
    MessagesStep(o, b);
    PaddingAligns(|m.data|);
    assert b[HEADER + |m.data| + |pad|..] == tail;
  }

  lemma PaddingAligns(n: nat)
    ensures HEADER + n + |Padding(n)| == Align4(HEADER + n)
  {
  }

  lemma EncodeStep(o: Order, ms: seq<Msg>, rest: seq<byte>)
    ensures Encode(o, ms) + rest ==
      if ms == [] then rest
      else HeaderBytes(o, ms[0]) + ms[0].data + (Padding(|ms[0].data|) + (Encode(o, ms[1..]) + rest))
  {
    hide HeaderBytes, Padding;
  }

  /** Round trip: the walk over encoded messages yields them, and then whatever follows them. */
  lemma {:induction false} MessagesOfEncoding(o: Order, ms: seq<Msg>, rest: seq<byte>)
    requires forall m :: m in ms ==> Fits(m) && m.kind != MSG_DONE && m.kind != MSG_ERROR
    ensures Messages(o, Encode(o, ms) + rest) == ms + Messages(o, rest)
  {
    hide *;
    EncodeStep(o, ms, rest);
    if ms != [] {
      OneMessage(o, ms[0], Encode(o, ms[1..]) + rest);
      MessagesOfEncoding(o, ms[1..], rest);
      assert ms + Messages(o, rest) == [ms[0]] + (ms[1..] + Messages(o, rest));
    }
  }

  /** An encoded batch is walked inside its bounds, and gives back the messages it was made of. */
  lemma EncodedBatch(o: Order, ms: seq<Msg>)
    requires forall m :: m in ms ==> Fits(m) && m.kind != MSG_DONE && m.kind != MSG_ERROR
    ensures !Overruns(o, Encode(o, ms)) && Messages(o, Encode(o, ms)) == ms
  {
    hide Encode, Overruns;
    AlignedNeverOverruns(o, Encode(o, ms));
    MessagesOfEncoding(o, ms, []);
    assert Encode(o, ms) + [] == Encode(o, ms);
    assert ms + Messages(o, []) == ms;
  }

  /** Nothing after a DONE or an ERROR is looked at. */
  lemma MessagesUntilStop(o: Order, ms: seq<Msg>, stop: Msg, rest: seq<byte>)
    requires forall m :: m in ms ==> Fits(m) && m.kind != MSG_DONE && m.kind != MSG_ERROR
    requires Fits(stop) && (stop.kind == MSG_DONE || stop.kind == MSG_ERROR)
    ensures Messages(o, Encode(o, ms) + (HeaderBytes(o, stop) + stop.data + rest)) == ms
  {
    HeaderReadBack(o, stop, rest);
    MessagesOfEncoding(o, ms, HeaderBytes(o, stop) + stop.data + rest);
  }

  // ---------- dispatch ----------

  /** A registered callback: the message type it is for, who registered it, and which callback it is. */
  datatype Listener = Listener(message: u16, owner: nat, callback: nat)

  /** A callback made, with the message bytes behind the pointer it gets. */
  datatype Delivery = Delivery(listener: Listener, data: seq<byte>)

  function Deliver(ls: seq<Listener>, m: Msg): seq<Delivery> {
    if ls == [] then []
    else if ls[0].message == m.kind then [Delivery(ls[0], m.data)] + Deliver(ls[1..], m)
    else Deliver(ls[1..], m)
  }

  function Dispatch(ls: seq<Listener>, ms: seq<Msg>): seq<Delivery> {
    if ms == [] then [] else Deliver(ls, ms[0]) + Dispatch(ls, ms[1..])
  }

  lemma NothingLeft(o: Order, b: seq<byte>, ls: seq<Listener>)
    requires !Ok(o, b) || Stops(KindOf(o, b))
    ensures Dispatch(ls, Messages(o, b)) == []
  {
  }

  /** One turn of the walk: the message at h dispatched, then the rest of the batch. */
  lemma DispatchStep(o: Order, buf: seq<byte>, h: nat, ls: seq<Listener>)
    requires h <= |buf| && Ok(o, buf[h..]) && !Stops(KindOf(o, buf[h..])) && !Overruns(o, buf[h..])
    ensures var step := Align4(LengthOf(o, buf[h..]));
      && 0 < step <= |buf| - h
      && Dispatch(ls, Messages(o, buf[h..]))
      == Deliver(ls, MsgOf(o, buf[h..])) + Dispatch(ls, Messages(o, buf[h + step..]))
      && !Overruns(o, buf[h + step..])
  {
    var b := buf[h..];
    var step := Align4(LengthOf(o, b));
    assert buf[h + step..] == b[step..];
    MessagesStep(o, b);
    assert Messages(o, b)[1..] == Messages(o, b[step..]);
  }

  /** The listeners left when an owner's are removed. */
  function Without(ls: seq<Listener>, owner: nat): seq<Listener> {
    if ls == [] then []
    else if ls[0].owner == owner then Without(ls[1..], owner)
    else [ls[0]] + Without(ls[1..], owner)
  }

  /** The deliveries made to others than an owner. */
  function ToOthers(ds: seq<Delivery>, owner: nat): seq<Delivery> {
    if ds == [] then []
    else if ds[0].listener.owner == owner then ToOthers(ds[1..], owner)
    else [ds[0]] + ToOthers(ds[1..], owner)
  }

  lemma {:induction false} ToOthersSplit(a: seq<Delivery>, b: seq<Delivery>, owner: nat)
    ensures ToOthers(a + b, owner) == ToOthers(a, owner) + ToOthers(b, owner)
  {
    if a == [] {
      assert a + b == b;
    } else {
      assert (a + b)[1..] == a[1..] + b;
      ToOthersSplit(a[1..], b, owner);
    }
  }

  lemma {:induction false} DeliverWithout(ls: seq<Listener>, m: Msg, owner: nat)
    ensures Deliver(Without(ls, owner), m) == ToOthers(Deliver(ls, m), owner)
  {
    if ls != [] {
      DeliverWithout(ls[1..], m, owner);
      if ls[0].owner != owner {
        assert Without(ls, owner)[1..] == Without(ls[1..], owner);
      }
      if ls[0].message == m.kind {
        assert Deliver(ls, m)[1..] == Deliver(ls[1..], m);
      }
    }
  }

  /**
   * Removing an owner takes exactly its own callbacks out of every later dispatch, and leaves the others in
   * order.
   */
  lemma {:induction false} RemovalSilencesOnly(ls: seq<Listener>, ms: seq<Msg>, owner: nat)
    ensures Dispatch(Without(ls, owner), ms) == ToOthers(Dispatch(ls, ms), owner)
  {
    if ms != [] {
      DeliverWithout(ls, ms[0], owner);
      RemovalSilencesOnly(ls, ms[1..], owner);
      ToOthersSplit(Deliver(ls, ms[0]), Dispatch(ls, ms[1..]), owner);
    }
  }

  // ---------- who is called with what ----------

  /** How many of the first i listeners are for this message type. */
  function CountFor(ls: seq<Listener>, kind: u16, i: nat): nat
    requires i <= |ls|
  {
    if i == 0 then 0 else CountFor(ls, kind, i - 1) + if ls[i - 1].message == kind then 1 else 0
  }

  lemma {:induction false} CountFront(ls: seq<Listener>, kind: u16, i: nat)
    requires 0 < i <= |ls|
    ensures CountFor(ls, kind, i) == CountFor(ls[1..], kind, i - 1) + if ls[0].message == kind then 1 else 0
  {
    if i > 1 {
      CountFront(ls, kind, i - 1);
    }
  }

  /**
   * A message calls each listener of its type once, with the message's data, each after those of its type
   * registered before it; and calls nobody else.
   */
  lemma {:induction false} DeliverExactly(ls: seq<Listener>, m: Msg, i: nat)
    requires i <= |ls|
    ensures |Deliver(ls, m)| == CountFor(ls, m.kind, |ls|)
    ensures i < |ls| && ls[i].message == m.kind ==>
      CountFor(ls, m.kind, i) < |Deliver(ls, m)| && Deliver(ls, m)[CountFor(ls, m.kind, i)] == Delivery(ls[i], m.data)
  {
    if ls != [] {
      DeliverExactly(ls[1..], m, if i == 0 then 0 else i - 1);
      CountFront(ls, m.kind, |ls|);
      if i > 0 {
        CountFront(ls, m.kind, i);
      }
    }
  }

  /** How many calls the first j messages make. */
  function CallsBefore(ls: seq<Listener>, ms: seq<Msg>, j: nat): nat
    requires j <= |ms|
  {
    if j == 0 then 0 else CallsBefore(ls, ms, j - 1) + CountFor(ls, ms[j - 1].kind, |ls|)
  }

  lemma {:induction false} CallsFront(ls: seq<Listener>, ms: seq<Msg>, j: nat)
    requires 0 < j <= |ms|
    ensures CallsBefore(ls, ms, j) == CountFor(ls, ms[0].kind, |ls|) + CallsBefore(ls, ms[1..], j - 1)
  {
    if j > 1 {
      CallsFront(ls, ms, j - 1);
    }
  }

  /**
   * The dispatch of a batch, call by call: the i-th listener, if it is for the type of the j-th message, is
   * called with that message's data after all the calls of the messages before it and those of the listeners
   * for that type before it; and these are all the calls.
   */
  lemma {:induction false} DispatchExactly(ls: seq<Listener>, ms: seq<Msg>, j: nat, i: nat)
    requires j <= |ms| && i <= |ls|
    ensures |Dispatch(ls, ms)| == CallsBefore(ls, ms, |ms|)
    ensures j < |ms| && i < |ls| && ls[i].message == ms[j].kind ==>
      var at := CallsBefore(ls, ms, j) + CountFor(ls, ms[j].kind, i);
      at < |Dispatch(ls, ms)| && Dispatch(ls, ms)[at] == Delivery(ls[i], ms[j].data)
  {
    if ms != [] {
      DispatchExactly(ls, ms[1..], if j == 0 then 0 else j - 1, i);
      DeliverExactly(ls, ms[0], i);
      CallsFront(ls, ms, |ms|);
      if j > 0 {
        CallsFront(ls, ms, j);
      }
      hide CountFor, CallsBefore, Deliver;
    }
  }

  /** How a callback comes back. Every way, the walk goes on. */
  datatype Outcome = Returns | ThrowsException | ThrowsOther

  datatype Receipt = Batch(bytes: seq<byte>) | WouldBlock | Failed(errno: int)

  datatype Result = Done | Thrown(errno: int)

  datatype Opening = Opened(fd: nat) | Refused(errno: int)

  // ---------- the registry ----------

  datatype Registry = Registry(listeners: seq<Listener>, fd: int, watching: bool)

  /** push_back: the listener is registered first, and stays registered when opening or binding the socket fails. */
  function Pushed(r: Registry, l: Listener, sock: Opening, bound: Option<int>): (Registry, Result) {
    var s := r.(listeners := r.listeners + [l]);
    if s.fd != -1 then (s, Done)
    else match sock
      case Refused(errno) => (s, Thrown(errno))
      case Opened(fd) =>
        if bound.Some? then (s.(fd := fd), Thrown(bound.value)) else (s.(fd := fd, watching := true), Done)
  }

  function Removed(r: Registry, owner: nat): Registry {
    var left := Without(r.listeners, owner);
    if left == [] then Registry([], -1, false) else r.(listeners := left)
  }

  datatype Change =
    | Push(listener: Listener, sock: Opening, bound: Option<int>)
    | Drop(owner: nat)

  function Changed(r: Registry, c: Change): Registry {
    match c
    case Push(l, sock, bound) => Pushed(r, l, sock, bound).0
    case Drop(owner) => Removed(r, owner)
  }

  function Registrations(cs: seq<Change>): Registry {
    if cs == [] then Registry([], -1, false) else Changed(Registrations(cs[..|cs| - 1]), cs[|cs| - 1])
  }

  // ---------- the listeners of a history ----------

  /** The listeners pushed and not dropped with their owner since, in the order they were pushed. */
  ghost function Outstanding(cs: seq<Change>): seq<Listener> {
    if cs == [] then []
    else if cs[0].Push? && Drop(cs[0].listener.owner) !in cs[1..] then [cs[0].listener] + Outstanding(cs[1..])
    else Outstanding(cs[1..])
  }

  lemma {:induction false} OutstandingPush(cs: seq<Change>, l: Listener, sock: Opening, bound: Option<int>)
    ensures Outstanding(cs + [Push(l, sock, bound)]) == Outstanding(cs) + [l]
  {
    var c := Push(l, sock, bound);
    if cs == [] {
      assert [] + [c] == [c] && [c][1..] == [];
      assert Outstanding([]) == [] && [l] + [] == [] + [l];
    } else {
      assert (cs + [c])[1..] == cs[1..] + [c];
      OutstandingPush(cs[1..], l, sock, bound);
    }
  }

  lemma WithoutFront(l: Listener, ls: seq<Listener>, owner: nat)
    ensures Without([l] + ls, owner) == if l.owner == owner then Without(ls, owner) else [l] + Without(ls, owner)
  {
    assert ([l] + ls)[1..] == ls;
  }

  lemma {:induction false} OutstandingDrop(cs: seq<Change>, owner: nat)
    ensures Outstanding(cs + [Drop(owner)]) == Without(Outstanding(cs), owner)
  {
    var c := Drop(owner);
    if cs == [] {
      assert [] + [c] == [c] && [c][1..] == [];
    } else {
      assert (cs + [c])[1..] == cs[1..] + [c];
      OutstandingDrop(cs[1..], owner);
      if cs[0].Push? {
        WithoutFront(cs[0].listener, Outstanding(cs[1..]), owner);
      }
    }
  }

  /**
   * Over every history the listeners are exactly those pushed and not dropped with their owner since, in
   * the order they were pushed; whatever became of the socket.
   */
  lemma {:induction false} ListenersExactly(cs: seq<Change>)
    ensures Registrations(cs).listeners == Outstanding(cs)
  {
    if cs != [] {
      var before, c := cs[..|cs| - 1], cs[|cs| - 1];
      ListenersExactly(before);
      assert cs == before + [c];
      match c
      case Push(l, sock, bound) => OutstandingPush(before, l, sock, bound);
      case Drop(owner) => OutstandingDrop(before, owner);
    }
  }

  /** After a removal each later dispatch makes the calls it would have made to others, in order, and no other. */
  lemma RemovedDispatch(r: Registry, owner: nat, ms: seq<Msg>)
    ensures Dispatch(Removed(r, owner).listeners, ms) == ToOthers(Dispatch(r.listeners, ms), owner)
    ensures forall d :: d in Dispatch(Removed(r, owner).listeners, ms) <==>
      d in Dispatch(r.listeners, ms) && d.listener.owner != owner
  {
    RemovalSilencesOnly(r.listeners, ms, owner);
    ToOthersExactly(Dispatch(r.listeners, ms), owner);
    hide Dispatch, ToOthers, Without;
  }

  lemma {:induction false} ToOthersExactly(ds: seq<Delivery>, owner: nat)
    ensures forall d :: d in ToOthers(ds, owner) <==> d in ds && d.listener.owner != owner
  {
    if ds != [] {
      ToOthersExactly(ds[1..], owner);
      assert ds == [ds[0]] + ds[1..];
    }
  }

  /**
   * A registration returns normally exactly when there is a socket already, or one is made and bound; it
   * throws what the failing call says, and keeps its listener all the same.
   */
  lemma PushedExactly(r: Registry, l: Listener, sock: Opening, bound: Option<int>)
    ensures var (t, result) := Pushed(r, l, sock, bound);
      && (result == Done <==> r.fd != -1 || (sock.Opened? && bound.None?))
      && (result.Thrown? ==> sock == Refused(result.errno) || (sock.Opened? && bound == Some(result.errno)))
      && t.listeners == r.listeners + [l]
      && (r.fd != -1 || sock.Refused? ==> t.fd == r.fd && t.watching == r.watching)
      && (r.fd == -1 && sock.Opened? ==> t.fd == sock.fd && (t.watching <==> r.watching || bound.None?))
  {
  }

  /** A socket that was made but never watched, because its bind failed. */
  predicate Stuck(r: Registry) {
    r.fd != -1 && !r.watching
  }

  lemma {:induction false} WatchingNeedsSocket(cs: seq<Change>)
    ensures var r := Registrations(cs); (r.fd == -1 ==> !r.watching) && (r.listeners == [] ==> r.fd == -1)
  {
    if cs != [] {
      WatchingNeedsSocket(cs[..|cs| - 1]);
    }
  }

  /** A stuck registry stays stuck, whatever the next sockets would do, until its last listener is removed. */
  lemma {:induction false} StuckUntilEmptied(cs: seq<Change>, more: seq<Change>)
    requires Stuck(Registrations(cs))
    requires forall k :: 0 <= k <= |more| ==> Registrations(cs + more[..k]).listeners != []
    ensures Stuck(Registrations(cs + more))
  {
    if more == [] {
      assert cs + more == cs;
    } else {
      var shorter, c := more[..|more| - 1], more[|more| - 1];
      forall k | 0 <= k <= |shorter| ensures Registrations(cs + shorter[..k]).listeners != [] {
        assert shorter[..k] == more[..k];
      }
      StuckUntilEmptied(cs, shorter);
      assert more[..|more|] == more;
      assert cs + more == (cs + shorter) + [c] && ((cs + shorter) + [c])[..|cs + shorter|] == cs + shorter;
    }
  }

  /** The change that opened the socket now open: the last that found none. */
  function Opener(cs: seq<Change>): Option<nat> {
    if cs == [] || Registrations(cs).fd == -1 then None
    else if Registrations(cs[..|cs| - 1]).fd == -1 then Some(|cs| - 1)
    else Opener(cs[..|cs| - 1])
  }

  /** It found no socket, and since then there has been one. */
  lemma {:induction false} OpenedSince(cs: seq<Change>, k: nat, j: nat)
    requires Opener(cs) == Some(k) && j <= |cs|
    ensures k < |cs| && (j == k ==> Registrations(cs[..j]).fd == -1) && (j > k ==> Registrations(cs[..j]).fd != -1)
  {
    hide Registrations;
    if j == |cs| {
      assert cs[..j] == cs;
    }
    if Registrations(cs[..|cs| - 1]).fd != -1 {
      if j < |cs| {
        OpenedSince(cs[..|cs| - 1], k, j);
        assert cs[..|cs| - 1][..j] == cs[..j];
      } else {
        OpenedSince(cs[..|cs| - 1], k, |cs| - 1);
      }
    }
  }

  /**
   * An open socket goes back to one change, a registration that found none and was given one, and has
   * been open since; and it is unwatched exactly when that registration failed to bind it.
   */
  lemma {:induction false} StuckExactly(cs: seq<Change>)
    ensures Opener(cs).Some? <==> Registrations(cs).fd != -1
    ensures Opener(cs).Some? ==>
      && Opener(cs).value < |cs| && cs[Opener(cs).value].Push? && cs[Opener(cs).value].sock.Opened?
      && (Stuck(Registrations(cs)) <==> cs[Opener(cs).value].bound.Some?)
      && Registrations(cs[..Opener(cs).value]).fd == -1
      && forall j :: Opener(cs).value < j <= |cs| ==> Registrations(cs[..j]).fd != -1
  {
    if Opener(cs).Some? {
      var k := Opener(cs).value;
      OpenedSince(cs, k, |cs|);
      OpenedSince(cs, k, k);
      forall j | k < j <= |cs| ensures Registrations(cs[..j]).fd != -1 {
        OpenedSince(cs, k, j);
      }
    }
    if cs != [] {
      var before, c := cs[..|cs| - 1], cs[|cs| - 1];
      StuckExactly(before);
      WatchingNeedsSocket(before);
      if Registrations(before).fd != -1 && Registrations(cs).fd != -1 {
        StillOpen(Registrations(before), c);
      }
    }
  }

  /** A change that leaves an open socket open leaves it watched or unwatched as it was. */
  lemma StillOpen(r: Registry, c: Change)
    requires r.fd != -1 && Changed(r, c).fd != -1
    ensures Changed(r, c).watching == r.watching
  {
  }

  /** While no bind fails the socket is open exactly when it is watched, so nothing is ever stuck. */
  lemma {:induction false} NeverStuckWithoutBindFailure(cs: seq<Change>)
    requires forall c :: c in cs ==> c.Push? ==> c.bound.None?
    ensures !Stuck(Registrations(cs))
  {
    StuckExactly(cs);
    assert Opener(cs).Some? ==> cs[Opener(cs).value] in cs;
  }

  /**
   * One registration whose bind fails, with any errno, is enough; and the next one returns normally and is
   * not watched.
   */
  lemma BindFailureSticks(l: Listener, fd: nat, errno: int, next: Listener, sock: Opening, bound: Option<int>)
    ensures var r := Registrations([Push(l, Opened(fd), Some(errno))]);
      && Stuck(r) && r.listeners == [l]
      && Pushed(r, next, sock, bound) == (Registry([l, next], fd, false), Done)
  {
    assert [Push(l, Opened(fd), Some(errno))][..0] == [];
    assert [] + [l] == [l] && [l] + [next] == [l, next];
  }

  class Controller {
    const order: Order
    var listeners: seq<Listener>
    var fd: int
    var watching: bool
    var deliveries: seq<Delivery>  // the callbacks made, in order

    constructor (order: Order)
      ensures this.order == order && listeners == [] && fd == -1 && !watching && deliveries == []
    {
      this.order := order;
      listeners, fd, watching, deliveries := [], -1, false, [];
    }

    /**
     * One input event. For each message before the first DONE or ERROR every listener of its type is
     * called once, in registration order, however the callbacks come back.
     */
    method HandleEvent(r: Receipt, outcome: nat -> Outcome) returns (result: Result)
      requires r.Batch? ==> !Overruns(order, r.bytes)
      modifies this`deliveries
      ensures result == if r.Failed? then Thrown(r.errno) else Done
      ensures deliveries == old(deliveries) + if r.Batch? then Dispatch(listeners, Messages(order, r.bytes)) else []
    {
      if r.WouldBlock? {
        return Done;
      }
      if r.Failed? {
        return Thrown(r.errno);
      }
      Walk(r.bytes, outcome);
      return Done;
    }

    method Walk(buf: seq<byte>, outcome: nat -> Outcome)
      requires !Overruns(order, buf)
      modifies this`deliveries
      ensures deliveries == old(deliveries) + Dispatch(listeners, Messages(order, buf))
    {
      hide *;
      var h, status := 0, |buf|;
      ghost var pending := Dispatch(listeners, Messages(order, buf));
      assert buf[0..] == buf;
      while Ok(order, buf[h..])
        invariant 0 <= h && 0 <= status && h + status == |buf|
        invariant !Overruns(order, buf[h..])
        invariant pending == Dispatch(listeners, Messages(order, buf[h..]))
        invariant deliveries + pending == old(deliveries) + Dispatch(listeners, Messages(order, buf))
        decreases status
      {
        OkFits(order, buf[h..]);
        var kind := KindOf(order, buf[h..]);
        if kind == MSG_DONE || kind == MSG_ERROR {
          break;
        }
        var step := Align4(LengthOf(order, buf[h..]));
        DispatchStep(order, buf, h, listeners);
        DeliverMessage(MsgOf(order, buf[h..]), outcome);
        h, status := h + step, status - step;
        pending := Dispatch(listeners, Messages(order, buf[h..]));
      }
      NothingLeft(order, buf[h..], listeners);
    }

    /** The loop over the listeners, for one message. */
    method DeliverMessage(m: Msg, outcome: nat -> Outcome)
      modifies this`deliveries
      ensures deliveries == old(deliveries) + Deliver(listeners, m)
    {
      for i := 0 to |listeners|
        invariant deliveries + Deliver(listeners[i..], m) == old(deliveries) + Deliver(listeners, m)
      {
        assert listeners[i..][1..] == listeners[i + 1..];
        if listeners[i].message == m.kind {
          deliveries := deliveries + [Delivery(listeners[i], m.data)];
          match outcome(|deliveries|) {
            case Returns =>
            case ThrowsException => // caught and logged
            case ThrowsOther =>     // caught and logged
          }
        }
      }
    }

    ghost function Registered(): Registry
      reads this
    {
      Registry(listeners, fd, watching)
    }

    /** Registers a listener, and starts the watcher if there is no socket. */
    method PushBack(owner: nat, message: u16, callback: nat, sock: Opening, bound: Option<int>) returns (result: Result)
      modifies this`listeners, this`fd, this`watching
      ensures (Registered(), result) == Pushed(old(Registered()), Listener(message, owner, callback), sock, bound)
    {
      listeners := listeners + [Listener(message, owner, callback)];
      if fd != -1 {
        return Done;
      }
      match sock {
        case Refused(errno) =>
          return Thrown(errno);
        case Opened(s) =>
          fd := s;
      }
      if bound.Some? {
        return Thrown(bound.value);
      }
      watching := true;
      return Done;
    }

    method Remove(owner: nat)
      modifies this`listeners, this`fd, this`watching
      ensures Registered() == Removed(old(Registered()), owner)
    {
      var left: seq<Listener> := [];
      for i := 0 to |listeners|
        invariant left + Without(listeners[i..], owner) == Without(listeners, owner)
      {
        assert listeners[i..][1..] == listeners[i + 1..];
        if listeners[i].owner != owner {
          left := left + [listeners[i]];
        }
      }
      listeners := left;
      if listeners != [] {
        return;
      }
      watching := false;
      fd := -1;
    }
  }
}
