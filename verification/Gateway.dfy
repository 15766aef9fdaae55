/**
 * Detection of the default gateway: the nested walk over a dump of the routing table. The RTM_ and RTA_
 * macros are written out from linux/rtnetlink.h.
 */
module Gateway {
  import opened Bytes
  import opened Netlink

  const ROUTE: nat := 12          // sizeof(struct rtmsg)
  const SOCKADDR_IN: nat := 16    // sizeof(struct sockaddr_in)
  const RT_TABLE_MAIN: byte := 254
  const RTA_OIF: u16 := 4
  const RTA_GATEWAY: u16 := 5

  /**
   * What the walk sees of an attribute: its type, the attribute bytes left from it on, and, of the two
   * types it uses, the first four bytes of the data.
   */
  datatype Attr = Attr(kind: u16, left: int, word: seq<byte>)

  predicate Used(kind: u16) {
    kind == RTA_OIF || kind == RTA_GATEWAY
  }

  /** The four bytes read of an attribute at position a; the buffer was zeroed before it was filled. */
  function WordAt(b: seq<byte>, a: nat, kind: u16): seq<byte> {
    if !Used(kind) then [] else if a + 8 <= |b| then b[a + 4..a + 8] else [0, 0, 0, 0]
  }

  function TableAt(b: seq<byte>, at: nat): byte {
    if at + 20 < |b| then b[at + 20] else 0
  }

  /** RTA_OK for the attribute at a with len bytes left. */
  predicate AttrOk(o: Order, b: seq<byte>, a: nat, len: int)
    requires a + len <= |b|
  {
    4 <= len && 4 <= Load16(o, b[a..a + 2]) <= len
  }

  /** The attributes from position a on, len bytes of them. */
  function Attrs(o: Order, b: seq<byte>, a: nat, len: int): seq<Attr>
    requires a + len <= |b|
    decreases len
  {
    if !AttrOk(o, b, a, len) then []
    else
      var step := Align4(Load16(o, b[a..a + 2]));
      var kind := Load16(o, b[a + 2..a + 4]);
      [Attr(kind, len, WordAt(b, a, kind))] + Attrs(o, b, a + step, len - step)
  }

  /** NLMSG_OK for the message at position at with a signed remaining length. */
  predicate MessageOk(o: Order, b: seq<byte>, at: nat, rem: int)
    requires at + rem <= |b|
  {
    HEADER <= rem && HEADER <= Load32(o, b[at..at + 4]) <= rem
  }

  /** The attributes of one message, if it is a route of the main table. */
  function RouteAttrs(o: Order, b: seq<byte>, at: nat, length: nat): seq<Attr>
    requires at + length <= |b|
  {
    if TableAt(b, at) != RT_TABLE_MAIN then []
    else Attrs(o, b, at + HEADER + ROUTE, length - HEADER - ROUTE)
  }

  /** The attributes of all the main table's routes, in buffer order. */
  function MainAttrs(o: Order, b: seq<byte>, at: nat, rem: int): seq<Attr>
    requires at + rem <= |b|
    decreases rem
  {
    if !MessageOk(o, b, at, rem) then []
    else
      var length := Load32(o, b[at..at + 4]);
      RouteAttrs(o, b, at, length) + MainAttrs(o, b, at + Align4(length), rem - Align4(length))
  }

  /** The reads the walk makes past what a well-formed dump guarantees: all of them inside the buffer. */
  predicate AttrsInBounds(o: Order, b: seq<byte>, a: nat, len: int)
    requires a + len <= |b|
    decreases len
  {
    AttrOk(o, b, a, len) ==>
      && (Used(Load16(o, b[a + 2..a + 4])) ==> a + 8 <= |b|)
      && var step := Align4(Load16(o, b[a..a + 2])); AttrsInBounds(o, b, a + step, len - step)
  }

  predicate InBounds(o: Order, b: seq<byte>, at: nat, rem: int)
    requires at + rem <= |b|
    decreases rem
  {
    MessageOk(o, b, at, rem) ==>
      var length := Load32(o, b[at..at + 4]);
      && at + 20 < |b|
      && (TableAt(b, at) == RT_TABLE_MAIN ==> AttrsInBounds(o, b, at + HEADER + ROUTE, length - HEADER - ROUTE))
      && InBounds(o, b, at + Align4(length), rem - Align4(length))
  }

  lemma {:induction false} AttrsWithSlack(o: Order, b: seq<byte>, a: nat, len: int)
    requires a + len + 4 <= |b|
    ensures AttrsInBounds(o, b, a, len)
    decreases len
  {
    if AttrOk(o, b, a, len) {
      var step := Align4(Load16(o, b[a..a + 2]));
      AttrsWithSlack(o, b, a + step, len - step);
    }
  }

  /** Five bytes behind what was received are all the walk can touch, whatever was received. */
  lemma {:induction false} SlackSuffices(o: Order, b: seq<byte>, at: nat, rem: int)
    requires at + rem + 5 <= |b|
    ensures InBounds(o, b, at, rem)
    decreases rem
  {
    if MessageOk(o, b, at, rem) {
      var length := Load32(o, b[at..at + 4]);
      AttrsWithSlack(o, b, at + HEADER + ROUTE, length - HEADER - ROUTE);
      SlackSuffices(o, b, at + Align4(length), rem - Align4(length));
    }
  }

  lemma AttrsStep(o: Order, b: seq<byte>, a: nat, len: int)
    requires a + len <= |b| && AttrOk(o, b, a, len) && AttrsInBounds(o, b, a, len)
    ensures var kind, step := Load16(o, b[a + 2..a + 4]), Align4(Load16(o, b[a..a + 2]));
      && (kind == RTA_OIF || kind == RTA_GATEWAY ==> a + 8 <= |b| && WordAt(b, a, kind) == b[a + 4..a + 8])
      && step >= 4 && AttrsInBounds(o, b, a + step, len - step)
      && Attrs(o, b, a, len) == [Attr(kind, len, WordAt(b, a, kind))] + Attrs(o, b, a + step, len - step)
  {
  }

  lemma MainStep(o: Order, b: seq<byte>, at: nat, rem: int)
    requires at + rem <= |b| && MessageOk(o, b, at, rem) && InBounds(o, b, at, rem)
    ensures var length := Load32(o, b[at..at + 4]);
      && HEADER <= length <= rem && 0 < Align4(length) && 0 < rem
      && at + 20 < |b| && TableAt(b, at) == b[at + 20]
      && (b[at + 20] == RT_TABLE_MAIN ==> AttrsInBounds(o, b, at + HEADER + ROUTE, length - HEADER - ROUTE))
      && InBounds(o, b, at + Align4(length), rem - Align4(length))
      && MainAttrs(o, b, at, rem)
      == RouteAttrs(o, b, at, length) + MainAttrs(o, b, at + Align4(length), rem - Align4(length))
  {
    hide Attrs, AttrsInBounds, RouteAttrs, Load32, AttrOk;
    MainUnfold(o, b, at, rem);
    hide MainAttrs, InBounds;
  }

  // ---------- the outcome ----------

  /** What the walk has found: the gateway address, the index of the interface, and whether it threw. */
  datatype Scan = Scan(gateway: Option<seq<byte>>, index: Option<seq<byte>>, threw: bool)

  /** The check of the attribute's size looks at the bytes left in the message, not at the attribute. */
  predicate Oversized(a: Attr) {
    a.kind == RTA_GATEWAY && a.left > SOCKADDR_IN
  }

  function Take(s: Scan, a: Attr): Scan {
    if a.kind == RTA_OIF then s.(index := Some(a.word))
    else if Oversized(a) then s.(threw := true)
    else if a.kind == RTA_GATEWAY then s.(gateway := Some(a.word))
    else s
  }

  /** Attributes taken in order until the walk throws. */
  function TakeAll(s: Scan, attrs: seq<Attr>): Scan
    decreases |attrs|
  {
    if s.threw || attrs == [] then s else TakeAll(Take(s, attrs[0]), attrs[1..])
  }

  lemma TakeStep(s: Scan, a: Attr, rest: seq<Attr>)
    ensures TakeAll(s, []) == s
    ensures TakeAll(s, [a] + rest) == if s.threw then s else TakeAll(Take(s, a), rest)
  {
    assert ([a] + rest)[1..] == rest;
  }

  lemma {:induction false} TakeSplit(s: Scan, a: seq<Attr>, b: seq<Attr>)
    ensures TakeAll(s, a + b) == TakeAll(TakeAll(s, a), b)
    decreases |a|
  {
    if a == [] {
      assert a + b == b;
    } else if !s.threw {
      assert (a + b)[1..] == a[1..] + b;
      TakeSplit(Take(s, a[0]), a[1..], b);
    }
  }

  /** The word of the last attribute of a type, if any. */
  function LastOf(attrs: seq<Attr>, kind: u16): Option<seq<byte>> {
    if attrs == [] then None
    else
      var last := attrs[|attrs| - 1];
      if last.kind == kind then Some(last.word) else LastOf(attrs[..|attrs| - 1], kind)
  }

  /** Where an earlier value stays unless a later one replaces it. */
  function OrElse(a: Option<seq<byte>>, b: Option<seq<byte>>): Option<seq<byte>> {
    if a.Some? then a else b
  }

  /**
   * By position: where an attribute of a type stands with none of that type after it, its word is the last;
   * where there is none at all the earlier value stays.
   */
  lemma {:induction false} LastOfExactly(attrs: seq<Attr>, kind: u16, earlier: Option<seq<byte>>, i: nat)
    ensures i < |attrs| && attrs[i].kind == kind && (forall j :: i < j < |attrs| ==> attrs[j].kind != kind) ==>
      LastOf(attrs, kind) == Some(attrs[i].word) == OrElse(LastOf(attrs, kind), earlier)
    ensures (forall j :: 0 <= j < |attrs| ==> attrs[j].kind != kind) ==>
      LastOf(attrs, kind) == None && OrElse(LastOf(attrs, kind), earlier) == earlier
  {
    if attrs != [] {
      LastOfExactly(attrs[..|attrs| - 1], kind, earlier, i);
    }
  }

  /** The first attribute the size check refuses. */
  ghost predicate FirstOversized(attrs: seq<Attr>, i: nat) {
    i < |attrs| && Oversized(attrs[i]) && forall j :: 0 <= j < i ==> !Oversized(attrs[j])
  }

  ghost predicate NoneOversized(attrs: seq<Attr>) {
    forall j :: 0 <= j < |attrs| ==> !Oversized(attrs[j])
  }

  /** The last gateway and the last interface of these attributes, the interface known beforehand if none. */
  ghost function LastScan(attrs: seq<Attr>, index: Option<seq<byte>>, threw: bool): Scan {
    Scan(LastOf(attrs, RTA_GATEWAY), OrElse(LastOf(attrs, RTA_OIF), index), threw)
  }

  /**
   * The walk throws exactly when some gateway attribute has more than sixteen attribute bytes left in
   * its message, and then it has taken the attributes before the first such one and no other; otherwise
   * it yields the last gateway and the last interface of all the attributes.
   */
  lemma {:induction false} TakeAllExactly(index: Option<seq<byte>>, attrs: seq<Attr>)
    ensures var s := TakeAll(Scan(None, index, false), attrs);
      && (s.threw <==> !NoneOversized(attrs))
      && (NoneOversized(attrs) ==> s == LastScan(attrs, index, false))
      && (forall i: nat :: i < |attrs| && FirstOversized(attrs, i) ==> s == LastScan(attrs[..i], index, true))
      && (s.threw ==> exists i: nat :: i < |attrs| && FirstOversized(attrs, i))
  {
    hide *;
    if attrs == [] {
      NothingTaken(index);
    } else {
      var front, last := attrs[..|attrs| - 1], attrs[|attrs| - 1];
      TakeAllExactly(index, front);
      assert attrs == front + [last];
      TakeSplit(Scan(None, index, false), front, [last]);
      TakeOne(TakeAll(Scan(None, index, false), front), last);
      OneMore(front, last, index);
      forall i: nat | i < |attrs| && FirstOversized(attrs, i)
        ensures TakeAll(Scan(None, index, false), attrs) == LastScan(attrs[..i], index, true)
      {
        FirstOfMore(front, last, i);
        assert i < |front| ==> attrs[..i] == front[..i];
        assert i == |front| ==> attrs[..i] == front;
      }
      if !NoneOversized(front) {
        var i: nat :| i < |front| && FirstOversized(front, i);
        FirstOfMore(front, last, i);
        assert i < |attrs|;
      } else {
        FirstOfMore(front, last, |front|);
      }
    }
  }

  lemma NothingTaken(index: Option<seq<byte>>)
    ensures NoneOversized([]) && forall i: nat :: !FirstOversized([], i)
    ensures TakeAll(Scan(None, index, false), []) == Scan(None, index, false) == LastScan([], index, false)
  {
  }

  /** The first refused attribute once one more follows. */
  lemma FirstOfMore(front: seq<Attr>, last: Attr, i: nat)
    ensures FirstOversized(front + [last], i) <==>
      FirstOversized(front, i) || (i == |front| && NoneOversized(front) && Oversized(last))
    ensures FirstOversized(front, i) ==> i < |front| && !NoneOversized(front)
  {
    hide Oversized;
    var attrs := front + [last];
    assert forall j :: 0 <= j < |front| ==> attrs[j] == front[j];
  }

  lemma TakeOne(s: Scan, a: Attr)
    ensures TakeAll(s, [a]) == if s.threw then s else Take(s, a)
    ensures Take(s, a).threw == (s.threw || Oversized(a))
  {
    TakeStep(s, a, []);
    TakeStep(Take(s, a), a, []);
    assert [a] + [] == [a];
  }

  lemma OneMore(front: seq<Attr>, last: Attr, index: Option<seq<byte>>)
    ensures NoneOversized(front + [last]) <==> NoneOversized(front) && !Oversized(last)
    ensures !Oversized(last) ==>
      Take(LastScan(front, index, false), last) == LastScan(front + [last], index, false)
    ensures Oversized(last) ==> Take(LastScan(front, index, false), last) == LastScan(front, index, true)
  {
    var attrs := front + [last];
    assert attrs[..|front|] == front && attrs[|front|] == last;
    assert forall j :: 0 <= j < |front| ==> attrs[j] == front[j];
  }

  datatype Detection = Unchanged | Changed | Threw

  /**
   * What detection reports and leaves in the agent. The interface is stored as the walk meets it, and
   * stays when the walk throws; the address is updated only when the walk completes.
   */
  function Detected(address: Option<seq<byte>>, index: Option<seq<byte>>, attrs: seq<Attr>)
    : (Detection, Option<seq<byte>>, Option<seq<byte>>)
  {
    var s := TakeAll(Scan(None, index, false), attrs);
    if s.threw then (Threw, address, s.index)
    else if s.gateway != address then (Changed, s.gateway, s.index)
    else (Unchanged, address, s.index)
  }

  /** The agent's own fields. The address is None while its family is zero; the interface is known by its index. */
  class Agent {
    const order: Order
    var address: Option<seq<byte>>
    var interface: Option<seq<byte>>

    constructor (order: Order)
      ensures this.order == order && address == None && interface == None
    {
      this.order, address, interface := order, None, None;
    }

    /**
     * Detection from a buffer that holds so many received bytes. Where the walk reads past the buffer
     * it finds the bytes that happen to lie behind it, at most five of them (SlackSuffices).
     */
    method Detect(buffer: seq<byte>, received: nat, behind: seq<byte>) returns (result: Detection)
      requires received <= |buffer| && |behind| >= 5
      modifies this`address, this`interface
      ensures (result, address, interface)
           == Detected(old(address), old(interface), MainAttrs(order, buffer + behind, 0, received))
    {
      var found, threw := Walk(buffer + behind, received);
      if threw {
        return Threw;
      }
      var changed := found != address;
      if changed {
        address := found;
        return Changed;
      }
      return Unchanged;
    }

    /** The loop over the messages, in a memory that reaches five bytes past what was received. */
    method Walk(memory: seq<byte>, received: nat) returns (gateway: Option<seq<byte>>, threw: bool)
      requires received + 5 <= |memory|
      modifies this`interface
      ensures Scan(gateway, interface, threw) ==
        TakeAll(Scan(None, old(interface), false), MainAttrs(order, memory, 0, received))
    {
      hide *;
      SlackSuffices(order, memory, 0, received);
      var at: nat, rem: int := 0, received;
      gateway, threw := None, false;
      while !threw && MessageOk(order, memory, at, rem)
        invariant at + rem <= |memory| && InBounds(order, memory, at, rem)
        invariant TakeAll(Scan(None, old(interface), false), MainAttrs(order, memory, 0, received))
               == TakeAll(Scan(gateway, interface, threw), MainAttrs(order, memory, at, rem))
        decreases rem
      {
        MainStep(order, memory, at, rem);
        var length := Load32(order, memory[at..at + 4]);
        var step := Align4(length);
        TakeSplit(Scan(gateway, interface, threw),
                  RouteAttrs(order, memory, at, length), MainAttrs(order, memory, at + step, rem - step));
        RouteAttrsOf(order, memory, at, length);
        TakeNone(Scan(gateway, interface, threw));
        if memory[at + 20] == RT_TABLE_MAIN {
          gateway, threw := WalkAttributes(memory, at + HEADER + ROUTE, length - HEADER - ROUTE, gateway);
        }
        at, rem := at + step, rem - step;
      }
      NoMore(order, memory, at, rem, Scan(gateway, interface, threw));
    }

    /** The loop over the attributes of one route. */
    method WalkAttributes(buffer: seq<byte>, first: nat, length: int, known: Option<seq<byte>>)
      returns (gateway: Option<seq<byte>>, threw: bool)
      requires first + length <= |buffer| && AttrsInBounds(order, buffer, first, length)
      modifies this`interface
      ensures Scan(gateway, interface, threw)
           == TakeAll(Scan(known, old(interface), false), Attrs(order, buffer, first, length))
    {
      hide *;
      var a: nat, len := first, length;
      gateway, threw := known, false;
      while AttrOk(order, buffer, a, len)
        invariant a + len <= |buffer| && AttrsInBounds(order, buffer, a, len)
        invariant !threw
        invariant TakeAll(Scan(known, old(interface), false), Attrs(order, buffer, first, length))
               == TakeAll(Scan(gateway, interface, false), Attrs(order, buffer, a, len))
        decreases len
      {
        AttrsStep(order, buffer, a, len);
        AttrFits(order, buffer, a, len);
        var kind := Load16(order, buffer[a + 2..a + 4]);
        var step := Align4(Load16(order, buffer[a..a + 2]));
        var s := Scan(gateway, interface, false);
        var attr := Attr(kind, len, WordAt(buffer, a, kind));
        TakeStep(s, attr, Attrs(order, buffer, a + step, len - step));
        TakeCases(s, attr);
        if kind == RTA_OIF {
          interface := Some(buffer[a + 4..a + 8]);
        } else if kind == RTA_GATEWAY {
          if len > SOCKADDR_IN {
            TakeStep(Scan(gateway, interface, true), attr, []);
            TakeThrown(Scan(gateway, interface, true), Attrs(order, buffer, a + step, len - step));
            threw := true;
            return;
          }
          gateway := Some(buffer[a + 4..a + 8]);
        }
        a, len := a + step, len - step;
      }
      NoMoreAttributes(order, buffer, a, len, Scan(gateway, interface, false));
    }
  }

  lemma AttrFits(o: Order, b: seq<byte>, a: nat, len: int)
    requires a + len <= |b| && AttrOk(o, b, a, len)
    ensures a + 4 <= |b| && len >= 4
  {
  }

  lemma TakeCases(s: Scan, a: Attr)
    ensures a.kind == RTA_OIF ==> Take(s, a) == s.(index := Some(a.word))
    ensures a.kind == RTA_GATEWAY ==>
      Take(s, a) == if a.left > SOCKADDR_IN then s.(threw := true) else s.(gateway := Some(a.word))
    ensures a.kind != RTA_OIF && a.kind != RTA_GATEWAY ==> Take(s, a) == s
  {
  }

  lemma TakeThrown(s: Scan, attrs: seq<Attr>)
    requires s.threw
    ensures TakeAll(s, attrs) == s
  {
  }

  lemma TakeNone(s: Scan)
    ensures TakeAll(s, []) == s
  {
  }

  lemma NoMoreAttributes(o: Order, b: seq<byte>, a: nat, len: int, s: Scan)
    requires a + len <= |b| && !AttrOk(o, b, a, len)
    ensures TakeAll(s, Attrs(o, b, a, len)) == s
  {
  }

  lemma NoMore(o: Order, b: seq<byte>, at: nat, rem: int, s: Scan)
    requires at + rem <= |b| && (s.threw || !MessageOk(o, b, at, rem))
    ensures TakeAll(s, MainAttrs(o, b, at, rem)) == s
  {
  }

  lemma RouteAttrsOf(o: Order, b: seq<byte>, at: nat, length: nat)
    requires at + length <= |b|
    ensures RouteAttrs(o, b, at, length) ==
      if TableAt(b, at) != RT_TABLE_MAIN then [] else Attrs(o, b, at + HEADER + ROUTE, length - HEADER - ROUTE)
  {
  }

  // ---------- the bytes behind the buffer ----------

  /** What is read of an attribute, when it lies inside the buffer. */
  lemma AttrBehind(o: Order, b: seq<byte>, a: nat, len: int, behind: seq<byte>)
    requires a + len <= |b|
    ensures AttrOk(o, b + behind, a, len) <==> AttrOk(o, b, a, len)
    ensures AttrOk(o, b, a, len) ==>
      && len >= 4
      && Load16(o, (b + behind)[a..a + 2]) == Load16(o, b[a..a + 2])
      && Load16(o, (b + behind)[a + 2..a + 4]) == Load16(o, b[a + 2..a + 4])
    ensures !AttrOk(o, b, a, len) ==> Attrs(o, b, a, len) == []
    ensures !AttrOk(o, b + behind, a, len) ==> Attrs(o, b + behind, a, len) == []
    ensures forall kind :: (Used(kind) ==> a + 8 <= |b|) ==> WordAt(b + behind, a, kind) == WordAt(b, a, kind)
  {
    hide Load16;
    if 4 <= len {
      assert (b + behind)[a..a + 2] == b[a..a + 2] && (b + behind)[a + 2..a + 4] == b[a + 2..a + 4];
    }
    if a + 8 <= |b| {
      assert (b + behind)[a + 4..a + 8] == b[a + 4..a + 8];
    }
  }

  lemma {:induction false} AttrsBehind(o: Order, b: seq<byte>, a: nat, len: int, behind: seq<byte>)
    requires a + len <= |b| && AttrsInBounds(o, b, a, len)
    ensures Attrs(o, b + behind, a, len) == Attrs(o, b, a, len)
    decreases len
  {
    hide *;
    AttrBehind(o, b, a, len, behind);
    if AttrOk(o, b, a, len) {
      var step := Align4(Load16(o, b[a..a + 2]));
      AttrsStep(o, b, a, len);
      AttrsUnfold(o, b, a, len);
      AttrsUnfold(o, b + behind, a, len);
      AttrsBehind(o, b, a + step, len - step, behind);
    }
  }

  lemma MessageBehind(o: Order, b: seq<byte>, at: nat, rem: int, behind: seq<byte>)
    requires at + rem <= |b|
    ensures MessageOk(o, b + behind, at, rem) <==> MessageOk(o, b, at, rem)
    ensures MessageOk(o, b, at, rem) ==>
      && rem >= 4
      && Load32(o, (b + behind)[at..at + 4]) == Load32(o, b[at..at + 4])
    ensures !MessageOk(o, b, at, rem) ==> MainAttrs(o, b, at, rem) == []
    ensures !MessageOk(o, b + behind, at, rem) ==> MainAttrs(o, b + behind, at, rem) == []
    ensures at + 20 < |b| ==> TableAt(b + behind, at) == TableAt(b, at)
  {
    hide Load32;
    if HEADER <= rem {
      assert (b + behind)[at..at + 4] == b[at..at + 4];
    }
  }

  /** A walk whose reads all lie inside the buffer does not depend on the bytes behind it. */
  lemma {:induction false} InBoundsIgnoresBehind(o: Order, b: seq<byte>, at: nat, rem: int, behind: seq<byte>)
    requires at + rem <= |b| && InBounds(o, b, at, rem)
    ensures MainAttrs(o, b + behind, at, rem) == MainAttrs(o, b, at, rem)
    decreases rem
  {
    hide *;
    MessageBehind(o, b, at, rem, behind);
    if MessageOk(o, b, at, rem) {
      var length := Load32(o, b[at..at + 4]);
      MainStep(o, b, at, rem);
      MainUnfold(o, b, at, rem);
      MainUnfold(o, b + behind, at, rem);
      RouteAttrsOf(o, b, at, length);
      RouteAttrsOf(o, b + behind, at, length);
      if TableAt(b, at) == RT_TABLE_MAIN {
        AttrsBehind(o, b, at + HEADER + ROUTE, length - HEADER - ROUTE, behind);
      }
      InBoundsIgnoresBehind(o, b, at + Align4(length), rem - Align4(length), behind);
    }
  }

  // ---------- detecting again ----------

  /** The interface known beforehand matters to nothing but the interface itself. */
  lemma {:induction false} EarlierInterface(g: Option<seq<byte>>, i: Option<seq<byte>>, j: Option<seq<byte>>,
                                            attrs: seq<Attr>)
    ensures var s, t := TakeAll(Scan(g, i, false), attrs), TakeAll(Scan(g, j, false), attrs);
      s.gateway == t.gateway && s.threw == t.threw && (s.index == t.index || (s.index == i && t.index == j))
    decreases |attrs|
  {
    if attrs != [] && !Oversized(attrs[0]) {
      var s := Take(Scan(g, i, false), attrs[0]);
      var t := Take(Scan(g, j, false), attrs[0]);
      EarlierInterface(s.gateway, s.index, t.index, attrs[1..]);
    } else if attrs != [] {
      TakeThrown(Take(Scan(g, i, false), attrs[0]), attrs[1..]);
      TakeThrown(Take(Scan(g, j, false), attrs[0]), attrs[1..]);
    }
  }

  /**
   * Detecting again on the same dump reports no change, or throws again if it threw, and leaves the
   * agent's address and interface as they were after the first time.
   */
  lemma DetectAgain(address: Option<seq<byte>>, index: Option<seq<byte>>, attrs: seq<Attr>)
    ensures var (first, a, i) := Detected(address, index, attrs);
      Detected(a, i, attrs) == (if first == Threw then Threw else Unchanged, a, i)
  {
    EarlierInterface(None, index, TakeAll(Scan(None, index, false), attrs).index, attrs);
  }

  // ---------- dumps by their content ----------

  datatype RouteAttr = RouteAttr(kind: u16, data: seq<byte>)

  /** The fields of a message header that the walk does not read. */
  datatype Head = Head(kind: u16, flags: u16, seqno: u32, pid: u32)

  /**
   * A message of a dump: a route, given by the bytes around its table and its attributes, or one too short
   * for any attribute.
   */
  datatype Entry =
    | Route(head: Head, before: seq<byte>, table: byte, after: seq<byte>, attrs: seq<RouteAttr>)
    | Short(head: Head, data: seq<byte>)

  const RTM_NEWROUTE: u16 := 24
  const NLM_F_MULTI: u16 := 2

  predicate AttrFitting(a: RouteAttr) {
    4 + |a.data| < 0x1_0000 && (Used(a.kind) ==> |a.data| >= 4)
  }

  function AttrBytes(o: Order, a: RouteAttr): (b: seq<byte>)
    requires AttrFitting(a)
    ensures |b| == Align4(4 + |a.data|)
  {
    PaddingAligns4(|a.data|);
    Store(o, 4 + |a.data|, 2) + Store(o, a.kind, 2) + a.data + Padding(|a.data|)
  }

  lemma PaddingAligns4(n: nat)
    ensures 4 + n + |Padding(n)| == Align4(4 + n)
  {
  }

  predicate AttrsFitting(attrs: seq<RouteAttr>) {
    forall a :: a in attrs ==> AttrFitting(a)
  }

  function AttrsBytes(o: Order, attrs: seq<RouteAttr>): seq<byte>
    requires AttrsFitting(attrs)
  {
    if attrs == [] then [] else AttrBytes(o, attrs[0]) + AttrsBytes(o, attrs[1..])
  }

  /** The attributes as the walk is to see them, each with the bytes from it to the end of its message. */
  function Seen(o: Order, attrs: seq<RouteAttr>): seq<Attr>
    requires AttrsFitting(attrs)
  {
    if attrs == [] then []
    else
      var a := attrs[0];
      assert AttrFitting(a);
      [Attr(a.kind, |AttrsBytes(o, attrs)|, if Used(a.kind) then a.data[..4] else [])] + Seen(o, attrs[1..])
  }

  lemma AttrReadBack(o: Order, b: seq<byte>, at: nat, a: RouteAttr, len: nat)
    requires AttrFitting(a) && |AttrBytes(o, a)| <= len && at + len <= |b|
    requires b[at..at + |AttrBytes(o, a)|] == AttrBytes(o, a)
    ensures AttrOk(o, b, at, len)
    ensures Load16(o, b[at..at + 2]) == 4 + |a.data| && Load16(o, b[at + 2..at + 4]) == a.kind
    ensures WordAt(b, at, a.kind) == (if Used(a.kind) then a.data[..4] else [])
  {
    hide Load, Store, Capacity;
    Capacities();
    LoadStore(o, 4 + |a.data|, 2);
    LoadStore(o, a.kind, 2);
    var x := AttrBytes(o, a);
    SubSlice(b, at, x, 0, 2);
    SubSlice(b, at, x, 2, 4);
    assert x[0..2] == Store(o, 4 + |a.data|, 2);
    assert x[2..4] == Store(o, a.kind, 2);
    if Used(a.kind) {
      SubSlice(b, at, x, 4, 8);
      assert x[4..8] == a.data[..4];
    }
  }

  /** A part of a part of the buffer. */
  lemma SubSlice(b: seq<byte>, at: nat, x: seq<byte>, i: nat, j: nat)
    requires at + |x| <= |b| && b[at..at + |x|] == x && i <= j <= |x|
    ensures b[at + i..at + j] == x[i..j]
  {
    var y := b[at + i..at + j];
    forall k | 0 <= k < |y| ensures y[k] == x[i..j][k] {
      assert y[k] == b[at..at + |x|][i + k];
    }
  }

  lemma AttrsUnfold(o: Order, b: seq<byte>, a: nat, len: int)
    requires a + len <= |b| && AttrOk(o, b, a, len)
    ensures var kind, step := Load16(o, b[a + 2..a + 4]), Align4(Load16(o, b[a..a + 2]));
      && Attrs(o, b, a, len) == [Attr(kind, len, WordAt(b, a, kind))] + Attrs(o, b, a + step, len - step)
      && (AttrsInBounds(o, b, a, len) <==> (Used(kind) ==> a + 8 <= |b|) && AttrsInBounds(o, b, a + step, len - step))
  {
  }

  /** Encoded attributes and what is to be seen of them, first and rest. */
  lemma SeenUnfold(o: Order, attrs: seq<RouteAttr>)
    requires AttrsFitting(attrs) && attrs != []
    ensures AttrFitting(attrs[0]) && AttrsFitting(attrs[1..]) && (Used(attrs[0].kind) ==> |attrs[0].data| >= 4)
    ensures AttrsBytes(o, attrs) == AttrBytes(o, attrs[0]) + AttrsBytes(o, attrs[1..])
    ensures |AttrBytes(o, attrs[0])| == Align4(4 + |attrs[0].data|)
    ensures Used(attrs[0].kind) ==> |AttrBytes(o, attrs[0])| >= 8
    ensures var a := attrs[0];
      Seen(o, attrs)
      == [Attr(a.kind, |AttrsBytes(o, attrs)|, if Used(a.kind) then a.data[..4] else [])] + Seen(o, attrs[1..])
  {
    hide Store, Padding;
  }

  lemma NothingSeen(o: Order, b: seq<byte>, at: nat, attrs: seq<RouteAttr>)
    requires at <= |b| && attrs == []
    ensures AttrsBytes(o, attrs) == [] && Seen(o, attrs) == [] && Attrs(o, b, at, 0) == [] && AttrsInBounds(o, b, at, 0)
  {
  }

  /** Round trip: the walk over encoded attributes sees each of them, in order, and reads inside the buffer. */
  lemma {:induction false} AttrsReadBack(o: Order, b: seq<byte>, at: nat, attrs: seq<RouteAttr>)
    requires AttrsFitting(attrs) && at + |AttrsBytes(o, attrs)| <= |b|
    requires b[at..at + |AttrsBytes(o, attrs)|] == AttrsBytes(o, attrs)
    ensures Attrs(o, b, at, |AttrsBytes(o, attrs)|) == Seen(o, attrs)
    ensures AttrsInBounds(o, b, at, |AttrsBytes(o, attrs)|)
    decreases |attrs|
  {
    hide *;
    if attrs == [] {
      NothingSeen(o, b, at, attrs);
    } else {
      SeenUnfold(o, attrs);
      var x, rest := AttrBytes(o, attrs[0]), AttrsBytes(o, attrs[1..]);
      var len := |x| + |rest|;
      SubSlice(b, at, x + rest, 0, |x|);
      SubSlice(b, at, x + rest, |x|, len);
      assert (x + rest)[0..|x|] == x && (x + rest)[|x|..len] == rest;
      AttrReadBack(o, b, at, attrs[0], len);
      AttrsUnfold(o, b, at, len);
      AttrsReadBack(o, b, at + |x|, attrs[1..]);
    }
  }

  // ---------- whole dumps ----------

  predicate EntryFitting(o: Order, e: Entry) {
    match e
    case Route(_, before, _, after, attrs) =>
      |before| == 4 && |after| == 7 && AttrsFitting(attrs) && HEADER + ROUTE + |AttrsBytes(o, attrs)| < 0x1_0000_0000
    case Short(_, data) => |data| < ROUTE + 4
  }

  function WithHead(h: Head, data: seq<byte>): Msg {
    Msg(h.kind, h.flags, h.seqno, h.pid, data)
  }

  function MsgFor(o: Order, e: Entry): Msg
    requires EntryFitting(o, e)
  {
    match e
    case Route(head, before, table, after, attrs) =>
      WithHead(head, before + [table] + after + AttrsBytes(o, attrs))
    case Short(head, data) => WithHead(head, data)
  }

  predicate DumpFitting(o: Order, es: seq<Entry>) {
    forall e :: e in es ==> EntryFitting(o, e)
  }

  function MsgsFor(o: Order, es: seq<Entry>): seq<Msg>
    requires DumpFitting(o, es)
  {
    if es == [] then []
    else
      assert EntryFitting(o, es[0]);
      [MsgFor(o, es[0])] + MsgsFor(o, es[1..])
  }

  /** The attributes of the main table's routes, in order. */
  function SeenInDump(o: Order, es: seq<Entry>): seq<Attr>
    requires DumpFitting(o, es)
  {
    if es == [] then []
    else
      assert EntryFitting(o, es[0]);
      (if es[0].Route? && es[0].table == RT_TABLE_MAIN then Seen(o, es[0].attrs) else []) + SeenInDump(o, es[1..])
  }

  lemma DumpUnfold(o: Order, es: seq<Entry>)
    requires DumpFitting(o, es) && es != []
    ensures EntryFitting(o, es[0]) && DumpFitting(o, es[1..])
    ensures MsgsFor(o, es) == [MsgFor(o, es[0])] + MsgsFor(o, es[1..])
    ensures Fits(MsgFor(o, es[0]))
    ensures Encode(o, MsgsFor(o, es)) ==
      EntryBytes(o, es[0]) + Encode(o, MsgsFor(o, es[1..]))
    ensures SeenInDump(o, es) ==
      (if es[0].Route? && es[0].table == RT_TABLE_MAIN then Seen(o, es[0].attrs) else []) + SeenInDump(o, es[1..])
  {
    hide HeaderBytes, Padding, AttrsBytes, Seen;
    assert MsgsFor(o, es)[1..] == MsgsFor(o, es[1..]);
  }

  function EntryBytes(o: Order, e: Entry): seq<byte>
    requires EntryFitting(o, e)
  {
    var m := MsgFor(o, e);
    HeaderBytes(o, m) + m.data + Padding(|m.data|)
  }

  /** The header of an entry at its place in the buffer. */
  lemma EntryHeader(o: Order, b: seq<byte>, at: nat, e: Entry, rem: nat)
    requires EntryFitting(o, e) && |EntryBytes(o, e)| <= rem && at + rem <= |b|
    requires b[at..at + |EntryBytes(o, e)|] == EntryBytes(o, e)
    ensures var n := HEADER + |MsgFor(o, e).data|;
      && MessageOk(o, b, at, rem) && Load32(o, b[at..at + 4]) == n && Align4(n) == |EntryBytes(o, e)|
      && b[at + HEADER..at + n] == MsgFor(o, e).data
  {
    hide MsgFor, HeaderBytes, Padding, Load, Store;
    var m, x := MsgFor(o, e), EntryBytes(o, e);
    var n := HEADER + |m.data|;
    MsgForFits(o, e);
    HeaderReadBack(o, m, Padding(|m.data|));
    PaddingAligns(|m.data|);
    SubSlice(b, at, x, 0, 4);
    SubSlice(b, at, x, HEADER, n);
    assert x[HEADER..n] == m.data;
  }

  lemma MsgForFits(o: Order, e: Entry)
    requires EntryFitting(o, e)
    ensures Fits(MsgFor(o, e)) && |EntryBytes(o, e)| >= HEADER + |MsgFor(o, e).data|
    ensures e.Route? ==>
      |MsgFor(o, e).data| == ROUTE + |AttrsBytes(o, e.attrs)|
    ensures e.Route? ==> MsgFor(o, e).data[4] == e.table && MsgFor(o, e).data[ROUTE..] == AttrsBytes(o, e.attrs)
    ensures e.Short? ==> |MsgFor(o, e).data| < ROUTE + 4
  {
    hide HeaderBytes, Padding, AttrsBytes;
  }

  lemma RouteParts(b: seq<byte>, at: nat, d: seq<byte>)
    requires ROUTE <= |d| && at + |d| <= |b| && b[at..at + |d|] == d
    ensures b[at + 4] == d[4] && b[at + ROUTE..at + |d|] == d[ROUTE..]
  {
    assert b[at + 4] == b[at..at + |d|][4];
    SubSlice(b, at, d, ROUTE, |d|);
    assert d[ROUTE..|d|] == d[ROUTE..];
  }

  /** One entry at its place in the buffer, as the walk meets it. */
  lemma EntryReadBack(o: Order, b: seq<byte>, at: nat, e: Entry, rem: nat)
    requires EntryFitting(o, e) && |EntryBytes(o, e)| <= rem && at + rem <= |b|
    requires b[at..at + |EntryBytes(o, e)|] == EntryBytes(o, e)
    ensures var n := HEADER + |MsgFor(o, e).data|;
      && MessageOk(o, b, at, rem) && Load32(o, b[at..at + 4]) == n && Align4(n) == |EntryBytes(o, e)|
      && at + n <= |b|
      && RouteAttrs(o, b, at, n) == (if e.Route? && e.table == RT_TABLE_MAIN then Seen(o, e.attrs) else [])
      && (e.Route? ==> at + 20 < |b|)
      && AttrsInBounds(o, b, at + HEADER + ROUTE, n - HEADER - ROUTE)
  {
    hide *;
    EntryHeader(o, b, at, e, rem);
    MsgForFits(o, e);
    var d := MsgFor(o, e).data;
    var n := HEADER + |d|;
    Sizes(n);
    RouteAttrsOf(o, b, at, n);
    if e.Route? {
      RouteParts(b, at + HEADER, d);
      TableOf(o, b, at, e);
      AttrsReadBack(o, b, at + HEADER + ROUTE, e.attrs);
    } else {
      TooShort(o, b, at + HEADER + ROUTE, n - HEADER - ROUTE);
    }
  }

  lemma Sizes(n: nat)
    ensures HEADER == 16 && ROUTE == 12 && n <= Align4(n)
  {
  }

  lemma TableOf(o: Order, b: seq<byte>, at: nat, e: Entry)
    requires at + 20 < |b| && e.Route? && EntryFitting(o, e)
    ensures TableAt(b, at) == b[at + 20] && AttrsFitting(e.attrs)
  {
  }

  lemma MainUnfold(o: Order, b: seq<byte>, at: nat, rem: int)
    requires at + rem <= |b| && MessageOk(o, b, at, rem)
    ensures var n := Load32(o, b[at..at + 4]);
      && MainAttrs(o, b, at, rem) == RouteAttrs(o, b, at, n) + MainAttrs(o, b, at + Align4(n), rem - Align4(n))
      && (InBounds(o, b, at, rem) <==>
          && at + 20 < |b|
          && (TableAt(b, at) == RT_TABLE_MAIN ==> AttrsInBounds(o, b, at + HEADER + ROUTE, n - HEADER - ROUTE))
          && InBounds(o, b, at + Align4(n), rem - Align4(n)))
  {
    hide Attrs, AttrsInBounds, RouteAttrs, Load32, AttrOk, TableAt;
  }

  lemma EndOfDump(o: Order, b: seq<byte>, at: nat, es: seq<Entry>)
    requires at <= |b| && es == []
    ensures Encode(o, MsgsFor(o, es)) == [] && SeenInDump(o, es) == []
    ensures MainAttrs(o, b, at, 0) == [] && InBounds(o, b, at, 0)
    ensures LastTableInside(o, es, at, |b|)
  {
  }

  /** Where the last entry of a dump starts. */
  function LastStart(o: Order, es: seq<Entry>): nat
    requires DumpFitting(o, es) && es != []
  {
    assert EntryFitting(o, es[0]);
    if |es| == 1 then 0 else |EntryBytes(o, es[0])| + LastStart(o, es[1..])
  }

  /**
   * The last message of the dump is a route, or the byte that would be its table is inside the buffer all
   * the same.
   */
  predicate LastTableInside(o: Order, es: seq<Entry>, at: nat, size: nat)
    requires DumpFitting(o, es)
  {
    es == [] || es[|es| - 1].Route? || at + LastStart(o, es) + 20 < size
  }

  /** The condition, for a dump of one entry and for a longer one. */
  lemma LastUnfold(o: Order, es: seq<Entry>, at: nat, size: nat)
    requires DumpFitting(o, es) && es != []
    ensures EntryFitting(o, es[0]) && DumpFitting(o, es[1..]) && |EntryBytes(o, es[0])| >= HEADER == 16
    ensures es[1..] == [] ==> (LastTableInside(o, es, at, size) <==> es[0].Route? || at + 20 < size)
    ensures es[1..] != [] ==>
      && |Encode(o, MsgsFor(o, es[1..]))| >= HEADER
      && (LastTableInside(o, es, at, size) <==> LastTableInside(o, es[1..], at + |EntryBytes(o, es[0])|, size))
  {
    hide EntryBytes, MsgFor, Encode, MsgsFor, EntryFitting, AttrsBytes;
    assert EntryFitting(o, es[0]) && DumpFitting(o, es[1..]);
    MsgForFits(o, es[0]);
    if es[1..] != [] {
      DumpUnfold(o, es[1..]);
      MsgForFits(o, es[1]);
      EntryParts(o, es[1]);
      assert es[1..][|es| - 2] == es[|es| - 1];
    }
  }

  lemma EntryParts(o: Order, e: Entry)
    requires EntryFitting(o, e)
    ensures |EntryBytes(o, e)| >= HEADER
  {
    hide HeaderBytes, Padding, MsgFor;
  }


  /**
   * Round trip: the walk over a dump sees exactly the attributes of the main table's routes, in order,
   * whatever follows the dump. And it reads inside the buffer exactly when the last message is a route or
   * leaves room for a table byte: a shorter message at the very end of a full buffer is asked for its
   * table all the same.
   */
  lemma {:induction false} DumpReadBack(o: Order, b: seq<byte>, at: nat, es: seq<Entry>)
    requires DumpFitting(o, es)
    requires at + |Encode(o, MsgsFor(o, es))| <= |b|
    requires b[at..at + |Encode(o, MsgsFor(o, es))|] == Encode(o, MsgsFor(o, es))
    ensures MainAttrs(o, b, at, |Encode(o, MsgsFor(o, es))|) == SeenInDump(o, es)
    ensures InBounds(o, b, at, |Encode(o, MsgsFor(o, es))|) <==> LastTableInside(o, es, at, |b|)
    decreases |es|
  {
    hide *;
    if es == [] {
      EndOfDump(o, b, at, es);
    } else {
      DumpUnfold(o, es);
      LastUnfold(o, es, at, |b|);
      var x, rest := EntryBytes(o, es[0]), Encode(o, MsgsFor(o, es[1..]));
      var len := |x| + |rest|;
      SubSlice(b, at, x + rest, 0, |x|);
      SubSlice(b, at, x + rest, |x|, len);
      assert (x + rest)[0..|x|] == x && (x + rest)[|x|..len] == rest;
      EntryReadBack(o, b, at, es[0], len);
      MainUnfold(o, b, at, len);
      DumpReadBack(o, b, at + |x|, es[1..]);
      if es[1..] == [] {
        EndOfDump(o, b, at + |x|, es[1..]);
      }
    }
  }

  /** A full buffer whose last message has less than 21 bytes: the walk reads behind it. */
  lemma ShortEndReadsBehind(o: Order, b: seq<byte>, es: seq<Entry>)
    requires DumpFitting(o, es) && es != [] && b == Encode(o, MsgsFor(o, es))
    requires var last := es[|es| - 1]; last.Short? && |last.data| <= 4
    ensures !InBounds(o, b, 0, |b|)
  {
    hide InBounds, EntryBytes, Encode, MsgsFor, EntryFitting;
    assert b[0..0 + |b|] == b;
    DumpReadBack(o, b, 0, es);
    LastLength(o, es);
    MsgOfShort(o, es[|es| - 1]);
  }

  /** The last entry ends where the dump ends. */
  lemma {:induction false} LastLength(o: Order, es: seq<Entry>)
    requires DumpFitting(o, es) && es != []
    ensures EntryFitting(o, es[|es| - 1])
    ensures |Encode(o, MsgsFor(o, es))| == LastStart(o, es) + |EntryBytes(o, es[|es| - 1])|
  {
    DumpUnfold(o, es);
    hide EntryBytes, Encode, MsgsFor, EntryFitting;
    if |es| > 1 {
      LastLength(o, es[1..]);
      assert es[1..][|es| - 2] == es[|es| - 1];
    } else {
      assert es[1..] == [];
      EndOfDump(o, [], 0, es[1..]);
    }
  }

  lemma MsgOfShort(o: Order, e: Entry)
    requires EntryFitting(o, e) && e.Short?
    ensures |EntryBytes(o, e)| == HEADER + Align4(|e.data|)
    ensures |e.data| <= 4 ==> |EntryBytes(o, e)| <= 20
  {
    hide HeaderBytes, Padding;
  }

  /** A main-table route of 4076 bytes, with one long attribute, in an answer to process 4711. */
  const LONG_ROUTE := Route(Head(RTM_NEWROUTE, NLM_F_MULTI, 0, 4711), [0, 0, 0, 0], RT_TABLE_MAIN,
                            [0, 0, 0, 0, 0, 0, 0], [RouteAttr(6, seq(4044, _ => 0))])

  const DONE := Short(Head(MSG_DONE, NLM_F_MULTI, 0, 4711), [0, 0, 0, 0])

  /** Such a dump, of 4096 bytes: that route, and a DONE of 20 bytes. */
  lemma FullBufferReadsBehind(o: Order)
    ensures var es := [LONG_ROUTE, DONE];
      && DumpFitting(o, es) && |Encode(o, MsgsFor(o, es))| == 4096
      && !InBounds(o, Encode(o, MsgsFor(o, es)), 0, 4096)
  {
    hide *;
    var es := [LONG_ROUTE, DONE];
    Lengths(o);
    TwoFitting(o, LONG_ROUTE, DONE);
    LastLength(o, es);
    LastOfTwo(o, es);
    ShortEndReadsBehind(o, Encode(o, MsgsFor(o, es)), es);
  }

  lemma Lengths(o: Order)
    ensures EntryFitting(o, LONG_ROUTE) && |EntryBytes(o, LONG_ROUTE)| == 4076
    ensures EntryFitting(o, DONE) && |EntryBytes(o, DONE)| == 20 && DONE.Short? && |DONE.data| == 4
  {
    RouteOf4076(o, LONG_ROUTE);
    MsgOfShort(o, DONE);
  }

  lemma TwoFitting(o: Order, e: Entry, f: Entry)
    requires EntryFitting(o, e) && EntryFitting(o, f)
    ensures DumpFitting(o, [e, f])
  {
  }

  lemma LastOfTwo(o: Order, es: seq<Entry>)
    requires DumpFitting(o, es) && |es| == 2
    ensures EntryFitting(o, es[0]) && LastStart(o, es) == |EntryBytes(o, es[0])|
  {
  }

  lemma RouteOf4076(o: Order, e: Entry)
    requires e.Route? && |e.before| == 4 && |e.after| == 7 && |e.attrs| == 1
    requires e.attrs[0].kind == 6 && |e.attrs[0].data| == 4044
    ensures EntryFitting(o, e) && |EntryBytes(o, e)| == 4076
  {
    hide HeaderBytes, Padding, Store;
    assert e.attrs[1..] == [] && AttrsFitting(e.attrs);
    assert AttrsBytes(o, e.attrs) == AttrBytes(o, e.attrs[0]) + [];
  }

  /**
   * What detection makes of a dump, whatever lies behind it: it throws exactly when some gateway
   * attribute of a main-table route has more than sixteen attribute bytes from it to the end of its
   * message, having stored the last interface before the first such one; otherwise it finds the last
   * gateway of the main table's routes, or none, and the last interface.
   */
  lemma DetectionOfDump(o: Order, b: seq<byte>, es: seq<Entry>, address: Option<seq<byte>>, index: Option<seq<byte>>)
    requires DumpFitting(o, es)
    requires Encode(o, MsgsFor(o, es)) <= b
    ensures var seen := SeenInDump(o, es);
      var (result, a, i) := Detected(address, index, MainAttrs(o, b, 0, |Encode(o, MsgsFor(o, es))|));
      && (result == Threw <==> !NoneOversized(seen))
      && (NoneOversized(seen) ==>
            && result == (if LastOf(seen, RTA_GATEWAY) == address then Unchanged else Changed)
            && a == LastOf(seen, RTA_GATEWAY) && i == OrElse(LastOf(seen, RTA_OIF), index))
      && (forall k: nat :: k < |seen| && FirstOversized(seen, k) ==>
            a == address && i == OrElse(LastOf(seen[..k], RTA_OIF), index))
  {
    DumpReadBack(o, b, 0, es);
    TakeAllExactly(index, SeenInDump(o, es));
    hide NoneOversized, FirstOversized, SeenInDump, MainAttrs, Encode, MsgsFor, DumpFitting;
  }

  // ---------- the size check on well-formed routes ----------

  /** The i-th attribute as the walk sees it. */
  lemma {:induction false} SeenAt(o: Order, attrs: seq<RouteAttr>, i: nat)
    requires AttrsFitting(attrs) && i < |attrs|
    ensures AttrsFitting(attrs[i..]) && AttrFitting(attrs[i]) && |Seen(o, attrs)| == |attrs|
    ensures Used(attrs[i].kind) ==> |attrs[i].data| >= 4
    ensures var a := attrs[i];
      Seen(o, attrs)[i] == Attr(a.kind, |AttrsBytes(o, attrs[i..])|, if Used(a.kind) then a.data[..4] else [])
  {
    hide *;
    SeenLength(o, attrs);
    SeenUnfold(o, attrs);
    if i == 0 {
      assert attrs[0..] == attrs;
    } else {
      SeenAt(o, attrs[1..], i - 1);
      assert attrs[1..][i - 1..] == attrs[i..];
    }
  }

  lemma {:induction false} SeenLength(o: Order, attrs: seq<RouteAttr>)
    requires AttrsFitting(attrs)
    ensures |Seen(o, attrs)| == |attrs|
  {
    if attrs != [] {
      SeenUnfold(o, attrs);
      SeenLength(o, attrs[1..]);
    }
  }

  /**
   * The check is meant for gateways that do not fit an address. A gateway attribute of exactly the four
   * bytes of an IPv4 address is refused all the same if and only if more than eight bytes of attributes
   * follow it in its route.
   */
  lemma PlainGatewayRefusedExactly(o: Order, attrs: seq<RouteAttr>, i: nat)
    requires AttrsFitting(attrs) && i < |attrs| && attrs[i].kind == RTA_GATEWAY && |attrs[i].data| == 4
    ensures AttrsFitting(attrs[i + 1..]) && |Seen(o, attrs)| == |attrs|
    ensures Oversized(Seen(o, attrs)[i]) <==> |AttrsBytes(o, attrs[i + 1..])| > 8
  {
    SeenAt(o, attrs, i);
    SeenUnfold(o, attrs[i..]);
    assert attrs[i..][1..] == attrs[i + 1..];
  }

  const PLAIN_ROUTE := [
    RouteAttr(RTA_GATEWAY, [10, 0, 0, 1]),
    RouteAttr(RTA_OIF, [2, 0, 0, 0]),
    RouteAttr(6, [100, 0, 0, 0])
  ]

  /** So a route that carries its gateway, its interface and a priority makes detection throw. */
  lemma PlainGatewayThrows(o: Order, index: Option<seq<byte>>)
    ensures AttrsFitting(PLAIN_ROUTE) && TakeAll(Scan(None, index, false), Seen(o, PLAIN_ROUTE)).threw
  {
    var attrs := PLAIN_ROUTE;
    assert AttrsFitting(attrs);
    PlainGatewayRefusedExactly(o, attrs, 0);
    SeenUnfold(o, attrs[1..]);
    SeenUnfold(o, attrs[1..][1..]);
    TakeAllExactly(index, Seen(o, attrs));
  }

  lemma TooShort(o: Order, b: seq<byte>, a: nat, len: int)
    requires a + len <= |b| && len < 4
    ensures Attrs(o, b, a, len) == [] && AttrsInBounds(o, b, a, len)
  {
  }
}
