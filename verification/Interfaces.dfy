/**
 * The host's own networks: counting the bits of an interface's netmask, and the search of the
 * interface list behind the "local" and "remote" states.
 */
module Interfaces {
  import opened Bytes
  import opened Arithmetic
  import opened Prefix

  // ---------- netmasks ----------

  /** How many bits are set. */
  function Popcount(m: nat): nat {
    if m == 0 then 0 else m % 2 + Popcount(m / 2)
  }

  predicate Bit(m: nat, i: nat) {
    m / Pow2(i) % 2 == 1
  }

  /** Among the low n bits no zero stands above a one. */
  ghost predicate OnesOnTop(m: nat, n: nat) {
    forall i {:trigger Bit(m, i)} :: 0 <= i && i + 1 < n && Bit(m, i) ==> Bit(m, i + 1)
  }

  /** A netmask as section 3.1 of RFC 4632 wants it: ones, then zeros. */
  ghost predicate Contiguous(m: u32) {
    OnesOnTop(m, 32)
  }

  lemma HalfBits(m: nat, i: nat)
    ensures Bit(m, i + 1) <==> Bit(m / 2, i)
    ensures Bit(m, 0) <==> m % 2 == 1
  {
    Halving(m, Pow2(i));
    assert m / 1 == m;
  }

  lemma OnesOnTopHalved(m: nat, n: nat)
    requires n >= 1
    ensures OnesOnTop(m, n) <==> OnesOnTop(m / 2, n - 1) && (n >= 2 && m % 2 == 1 ==> m / 2 % 2 == 1)
  {
    hide Bit;
    HalfBits(m, 0);
    HalfBits(m / 2, 0);
    if OnesOnTop(m, n) {
      assert n >= 2 && Bit(m, 0) ==> Bit(m, 0 + 1);
      forall i | 0 <= i && i + 1 < n - 1 && Bit(m / 2, i) ensures Bit(m / 2, i + 1) {
        HalfBits(m, i);
        HalfBits(m, i + 1);
      }
    }
    if OnesOnTop(m / 2, n - 1) && (n >= 2 && m % 2 == 1 ==> m / 2 % 2 == 1) {
      forall i | 0 <= i && i + 1 < n && Bit(m, i) ensures Bit(m, i + 1) {
        if i > 0 {
          HalfBits(m, i - 1);
          HalfBits(m, i);
        }
      }
    }
  }

  lemma {:induction false} PopcountBound(m: nat, n: nat)
    requires m < Pow2(n)
    ensures Popcount(m) <= n
  {
    if m > 0 {
      PopcountBound(m / 2, n - 1);
    }
  }

  /** Ones on top are the only value of their width with that many ones that the count rebuilds. */
  lemma {:induction false} RebuiltExactly(m: nat, n: nat)
    requires m < Pow2(n)
    ensures Popcount(m) <= n
    ensures OnesOnTop(m, n) <==> m == Pow2(n) - Pow2(n - Popcount(m))
    decreases n
  {
    hide *;
    PopcountBound(m, n);
    if n == 0 {
      NoBits(m);
    } else {
      var h := m / 2;
      Half(m, n, 0);
      RebuiltExactly(h, n - 1);
      OnesOnTopHalved(m, n);
      LowBit(h, m % 2);
      RebuiltTurn(m, n, n - Popcount(m));
    }
  }

  lemma NoBits(m: nat)
    requires m < Pow2(0)
    ensures m == 0 && Popcount(m) == 0 && OnesOnTop(m, 0)
  {
  }

  lemma RebuiltTurn(m: nat, n: nat, z: nat)
    requires n > 0 && m < Pow2(n)
    requires Popcount(m) <= n && z == n - Popcount(m)
    ensures Popcount(m / 2) <= n - 1 && (m % 2 == 0 ==> z >= 1)
    ensures m == Pow2(n) - Pow2(z) <==>
      && (if m % 2 == 0 then m / 2 == Pow2(n - 1) - Pow2(z - 1) else m / 2 == Pow2(n - 1) - Pow2(z))
      && (n >= 2 && m % 2 == 1 ==> m / 2 % 2 == 1)
  {
    PopcountBound(m / 2, n - 1);
  }

  /** s_addr & 0x80000000, and s_addr <<= 1, of an unsigned long. */
  function Bit31(s: u64): (b: nat)
    ensures b < 2
  {
    s / 0x8000_0000 % 2
  }

  function Shifted(s: u64): u64 {
    s * 2 % 0x1_0000_0000_0000_0000
  }

  /** The loop shifts left and counts bit 31 until all 64 bits are out. */
  method CountBits(m: u32) returns (bits: nat, turns: nat)
    ensures bits == Popcount(m) && bits <= 32
    ensures turns <= 64
  {
    hide *;
    var s: u64 := m;
    bits, turns := 0, 0;
    ghost var q := m;
    CountStart(m);
    while s != 0
      invariant turns <= 64 && s == q * Pow2(turns) && q < Pow2(64 - turns)
      invariant bits + Popcount(s % 0x1_0000_0000) == Popcount(m)
      decreases 64 - turns
    {
      CountTurn(s);
      q := ShiftTurn(s, q, turns);
      if Bit31(s) != 0 {
        bits := bits + 1;
      }
      s := Shifted(s);
      turns := turns + 1;
    }
    CountStart(0);
  }

  lemma CountStart(m: u32)
    ensures m == m * Pow2(0) && m < Pow2(64 - 0) && m % 0x1_0000_0000 == m
    ensures Popcount(0) == 0 && Popcount(m) <= 32
  {
    PowersOfTwo();
    LongIs64();
    PopcountBound(m, 32);
    assert Popcount(0) == 0 && Pow2(0) == 1;
    hide *;
    assert m * 1 == m;
  }

  lemma LongIs64()
    ensures Pow2(64) == 0x1_0000_0000_0000_0000
  {
    PowersOfTwo();
    PowerSum(32, 32);
  }

  lemma {:induction false} PowerSum(a: nat, b: nat)
    ensures Pow2(a + b) == Pow2(a) * Pow2(b)
  {
    if a > 0 {
      PowerSum(a - 1, b);
    }
  }

  /** Shifting one place left takes bit 31 out of the low word. */
  lemma CountTurn(s: u64)
    ensures Popcount(s % 0x1_0000_0000) == Bit31(s) + Popcount(Shifted(s) % 0x1_0000_0000)
  {
    hide *;
    LowWord(s);
    PowersOfTwo();
    var rest := s % 0x8000_0000;
    TopBit(rest, Bit31(s), 31);
    LowBit(rest, 0);
  }

  lemma LowBit(a: nat, b: nat)
    requires b < 2
    ensures Popcount(2 * a + b) == Popcount(a) + b
  {
  }

  lemma LowWord(s: u64)
    ensures s % 0x1_0000_0000 == s % 0x8000_0000 + Bit31(s) * 0x8000_0000
    ensures Shifted(s) % 0x1_0000_0000 == 2 * (s % 0x8000_0000)
  {
    LowPart(s);
    LowOfShifted(s);
  }

  lemma LowPart(s: nat)
    ensures s % 0x1_0000_0000 == s % 0x8000_0000 + s / 0x8000_0000 % 2 * 0x8000_0000
  {
    var t, rest := s / 0x8000_0000, s % 0x8000_0000;
    var hi, b := t / 2, t % 2;
    assert s == hi * 0x1_0000_0000 + (rest + b * 0x8000_0000);
    Quotient(s, 0x1_0000_0000, hi, rest + b * 0x8000_0000);
  }

  lemma LowOfShifted(s: nat)
    ensures s * 2 % 0x1_0000_0000_0000_0000 % 0x1_0000_0000 == 2 * (s % 0x8000_0000)
  {
    var t, rest := s / 0x8000_0000, s % 0x8000_0000;
    var q, r := t / 0x1_0000_0000, t % 0x1_0000_0000;
    assert s * 2 == q * 0x1_0000_0000_0000_0000 + (r * 0x1_0000_0000 + 2 * rest);
    Quotient(s * 2, 0x1_0000_0000_0000_0000, q, r * 0x1_0000_0000 + 2 * rest);
    Quotient(r * 0x1_0000_0000 + 2 * rest, 0x1_0000_0000, r, 2 * rest);
  }

  lemma {:induction false} TopBit(rest: nat, top: nat, n: nat)
    requires rest < Pow2(n) && top < 2
    ensures Popcount(rest + top * Pow2(n)) == Popcount(rest) + top
  {
    hide *;
    if n == 0 {
      OneBit(rest, top);
    } else {
      var h, b, p := rest / 2, rest % 2, Pow2(n - 1);
      Half(rest, n, 0);
      TopBit(h, top, n - 1);
      Scaled(Pow2(n), p, top);
      LowBit(h, b);
      LowBit(h + top * p, b);
    }
  }

  lemma OneBit(rest: nat, top: nat)
    requires rest < Pow2(0) && top < 2
    ensures Popcount(rest + top * Pow2(0)) == Popcount(rest) + top
  {
  }

  /** What is left of the value, as a multiple of the shift so far. */
  lemma ShiftTurn(s: u64, q: nat, turns: nat) returns (r: nat)
    requires s != 0 && turns <= 64 && s == q * Pow2(turns) && q < Pow2(64 - turns)
    ensures turns < 64 && r < Pow2(63 - turns)
    ensures Shifted(s) == r * Pow2(turns + 1)
  {
    hide *;
    NothingAfter64(s, q, turns);
    ghost var p, w := Pow2(63 - turns), Pow2(turns + 1);
    ShiftParts(turns);
    r := if q < p then q else q - p;
    Scaled(w, Pow2(turns), q);
    ShiftCarry(s, q, p, w);
  }

  lemma NothingAfter64(s: u64, q: nat, turns: nat)
    requires turns <= 64 && s == q * Pow2(turns) && q < Pow2(64 - turns)
    ensures turns == 64 ==> s == 0
  {
  }

  lemma ShiftParts(turns: nat)
    requires turns < 64
    ensures Pow2(63 - turns) * Pow2(turns + 1) == 0x1_0000_0000_0000_0000
    ensures Pow2(64 - turns) == 2 * Pow2(63 - turns) && Pow2(turns + 1) == 2 * Pow2(turns)
  {
    LongIs64();
    PowerSum(63 - turns, turns + 1);
  }

  lemma ShiftCarry(s: u64, q: nat, p: nat, w: nat)
    requires s * 2 == q * w && p * w == 0x1_0000_0000_0000_0000 && q < 2 * p
    ensures Shifted(s) == (if q < p then q else q - p) * w
  {
    assert (q - p) * w == q * w - p * w;
    FactorOrder(p, q, w);
    FactorOrder(q, 2 * p, w);
    if q < p {
      FactorOrder(q + 1, p, w);
    }
  }

  // ---------- the count against the netmask ----------

  /** The count gives the netmask back exactly when the netmask is contiguous. */
  lemma ContiguousExactly(m: u32)
    ensures Contiguous(m) <==> MaskOf(Popcount(m)) == m
  {
    hide *;
    PowersOfTwo();
    ContiguousMeans(m);
    RebuiltExactly(m, 32);
    MaskOfCount(Popcount(m));
  }

  lemma ContiguousMeans(m: u32)
    ensures Contiguous(m) <==> OnesOnTop(m, 32)
  {
  }

  lemma MaskOfCount(bits: nat)
    requires bits <= 32
    ensures MaskOf(bits) == Pow2(32) - Pow2(32 - bits)
  {
  }

  lemma {:induction false} AndBit(i: nat, m: nat)
    ensures And(Pow2(i), m) == if Bit(m, i) then Pow2(i) else 0
  {
    if i > 0 {
      AndBit(i - 1, m / 2);
      HalfBits(m, i - 1);
      AndEven(m, Pow2(i - 1));
      AndCommutes(m, Pow2(i));
      AndCommutes(m / 2, Pow2(i - 1));
    }
  }

  lemma {:induction false} AndCommutes(a: nat, b: nat)
    ensures And(a, b) == And(b, a)
  {
    if a > 0 && b > 0 {
      AndCommutes(a / 2, b / 2);
    }
  }

  lemma {:induction false} DifferingBit(a: nat, b: nat, n: nat) returns (i: nat)
    requires a != b && a < Pow2(n) && b < Pow2(n)
    ensures i < n && Bit(a, i) != Bit(b, i)
  {
    if a % 2 != b % 2 {
      i := 0;
      HalfBits(a, 0);
      HalfBits(b, 0);
    } else {
      var j := DifferingBit(a / 2, b / 2, n - 1);
      i := j + 1;
      HalfBits(a, j);
      HalfBits(b, j);
    }
  }

  /**
   * So the prefix of the counted length is the direct test against the netmask, for all addresses, exactly
   * when the netmask is contiguous.
   */
  lemma DirectTestExactly(m: u32)
    ensures Contiguous(m) <==>
      forall net: u32, x: u32 :: InPrefix(net, Popcount(m), x) <==> And(net, m) == And(x, m)
  {
    hide *;
    ContiguousExactly(m);
    if Contiguous(m) {
      forall net: u32, x: u32 ensures InPrefix(net, Popcount(m), x) <==> And(net, m) == And(x, m) {
        MaskedEqualExactly(net, Popcount(m), x);
      }
    } else {
      var i, x := ToldApart(m);
    }
  }

  /** A netmask with a hole disagrees with the prefix of the same count on some address. */
  lemma ToldApart(m: u32) returns (i: nat, x: u32)
    requires MaskOf(Popcount(m)) != m
    ensures InPrefix(0, Popcount(m), x) != (And(0, m) == And(x, m))
  {
    PowersOfTwo();
    var mask := MaskOf(Popcount(m));
    i := DifferingBit(mask, m, 32);
    PowerOrder(i, 31);
    x := Pow2(i);
    AndBit(i, m);
    AndBit(i, mask);
    MaskedEqualExactly(0, Popcount(m), x);
  }

  // ---------- interfaces ----------

  /** An entry of getifaddrs: the address and the netmask it has, if any; the netmask in network order. */
  datatype Interface = Interface(address: Option<Address>, netmask: Option<u32>)

  datatype Listing = Interfaces(list: seq<Interface>) | Failed(errno: int)

  /** Only interfaces with an IPv4 address and a netmask take part. */
  predicate Usable(i: Interface) {
    i.address.Some? && i.netmask.Some? && i.address.value.family == AF_INET
  }

  function NetworkOf(o: Order, i: Interface): SubNet
    requires Usable(i)
  {
    PowersOfTwo();
    PopcountBound(Htonl(o, i.netmask.value), 32);
    SubNet(i.address.value, Popcount(Htonl(o, i.netmask.value)))
  }

  predicate Covers(o: Order, i: Interface, a: Address) {
    Usable(i) && Holds(o, NetworkOf(o, i), a)
  }

  /** The network of the first interface, from the k-th on, that covers the address. */
  function Search(o: Order, list: seq<Interface>, a: Address, k: nat): Option<SubNet>
    requires k <= |list|
    decreases |list| - k
  {
    if k == |list| then None
    else if Covers(o, list[k], a) then Some(NetworkOf(o, list[k]))
    else Search(o, list, a, k + 1)
  }

  predicate AnyUsable(list: seq<Interface>) {
    exists k :: 0 <= k < |list| && Usable(list[k])
  }

  // ---------- states ----------

  /** A state of the configuration: a fixed range, or the addresses of this host's networks, possibly negated. */
  datatype Kind = Range | Internal(revert: bool)

  const NOWHERE := SubNet(Address(0, 0), 0)

  /** What a state answers about an address, and the subnet it holds afterwards. */
  function Compared(o: Order, kind: Kind, s: SubNet, a: Address, listing: Listing): (Comparison, SubNet) {
    if a.family == 0 then (Answer(s.address.family == 0), s)
    else if kind.Range? then (if a.family == AF_INET then Answer(Holds(o, s, a)) else Throws, s)
    else if (a.family != AF_INET && a.family != AF_INET6) || listing.Failed? then (Throws, s)
    else if a.family == AF_INET6 then (if AnyUsable(listing.list) then Throws else Answer(kind.revert), s)
    else match Search(o, listing.list, a, 0)
      case Some(found) => (Answer(!kind.revert), found)
      case None => (Answer(kind.revert), s)
  }

  class IpState {
    const order: Order
    const kind: Kind
    const level: int
    var subnet: SubNet

    /** A range comes with its subnet; an internal state has none yet. */
    constructor (order: Order, kind: Kind, level: int, subnet: SubNet)
      ensures this.order == order && this.kind == kind && this.level == level
      ensures this.subnet == if kind.Range? then subnet else NOWHERE
    {
      this.order, this.kind, this.level := order, kind, level;
      this.subnet := if kind.Range? then subnet else NOWHERE;
    }

    /** for_each with the closure of an internal state's IPv4 comparison. */
    method FindNetwork(list: seq<Interface>, a: Address) returns (found: bool)
      modifies this
      ensures found == Search(order, list, a, 0).Some?
      ensures subnet == if found then Search(order, list, a, 0).value else old(subnet)
    {
      for k := 0 to |list|
        invariant Search(order, list, a, k) == Search(order, list, a, 0)
        invariant subnet == old(subnet)
      {
        if !Usable(list[k]) {
          continue;
        }
        var netmask := Htonl(order, list[k].netmask.value);
        var bits, _ := CountBits(netmask);
        var network := SubNet(list[k].address.value, bits);
        var inside := ContainsV4(order, network, a);
        if inside {
          subnet := network;
          return true;
        }
      }
      return false;
    }

    /** for_each with the closure of an internal state's IPv6 comparison, which throws when it is called at all. */
    method FindNetworkV6(list: seq<Interface>) returns (threw: bool)
      ensures threw == AnyUsable(list)
    {
      for k := 0 to |list|
        invariant forall j :: 0 <= j < k ==> !Usable(list[j])
      {
        if Usable(list[k]) {
          return true;
        }
      }
      return false;
    }

    method CompareV4(a: Address, listing: Listing) returns (v: Comparison)
      requires a.family == AF_INET
      modifies this
      ensures (v, subnet) == Compared(order, kind, old(subnet), a, listing)
    {
      match kind
      case Range =>
        var r := ContainsV4(order, subnet, a);
        return Answer(r);
      case Internal(revert) =>
        if listing.Failed? {
          return Throws;
        }
        var found := FindNetwork(listing.list, a);
        return Answer(if revert then !found else found);
    }

    method CompareV6(a: Address, listing: Listing) returns (v: Comparison)
      requires a.family == AF_INET6
      ensures (v, subnet) == Compared(order, kind, subnet, a, listing)
    {
      match kind
      case Range => return Throws;
      case Internal(revert) =>
        if listing.Failed? {
          return Throws;
        }
        var threw := FindNetworkV6(listing.list);
        return if threw then Throws else Answer(revert);
    }

    /** The comparison by address family. */
    method Compare(a: Address, listing: Listing) returns (v: Comparison)
      modifies this
      ensures (v, subnet) == Compared(order, kind, old(subnet), a, listing)
    {
      if a.family == AF_INET {
        v := CompareV4(a, listing);
      } else if a.family == AF_INET6 {
        v := CompareV6(a, listing);
      } else if a.family == 0 {
        v := Answer(subnet.address.family == 0);
      } else {
        v := Throws;
      }
    }
  }

  // ---------- what local and remote mean ----------

  /** The search finds the network of the first covering interface, and finds none exactly when none covers. */
  lemma {:induction false} SearchExactly(o: Order, list: seq<Interface>, a: Address, k: nat)
    requires k <= |list|
    ensures Search(o, list, a, k).None? <==> forall j :: k <= j < |list| ==> !Covers(o, list[j], a)
    ensures Search(o, list, a, k).Some? ==>
      exists j :: k <= j < |list| && Covers(o, list[j], a) && Search(o, list, a, k).value == NetworkOf(o, list[j])
                  && forall i :: k <= i < j ==> !Covers(o, list[i], a)
    decreases |list| - k
  {
    hide Holds, NetworkOf;
    if k < |list| && !Covers(o, list[k], a) {
      SearchExactly(o, list, a, k + 1);
    }
  }

  /**
   * An IPv4 address is local exactly when some usable interface's network contains it; the state then holds
   * the first such network.
   */
  lemma LocalExactly(o: Order, s: SubNet, a: Address, list: seq<Interface>)
    requires a.family == AF_INET
    ensures var (v, t) := Compared(o, Internal(false), s, a, Interfaces(list));
      && (v == Answer(true) <==> exists j :: 0 <= j < |list| && Covers(o, list[j], a))
      && (v == Answer(false) <==> forall j :: 0 <= j < |list| ==> !Covers(o, list[j], a))
      && (if v == Answer(true) then Search(o, list, a, 0) == Some(t) else t == s)
  {
    SearchExactly(o, list, a, 0);
  }

  /**
   * A fixed range answers by itself, whatever the interfaces: an IPv4 address by the direct test under the
   * mask of the range's length, an empty one by whether the range is empty; any other throws.
   */
  lemma RangeExactly(o: Order, s: SubNet, a: Address, listing: Listing)
    ensures var mask := Htonl(o, MaskOf(s.bits));
      Compared(o, Range, s, a, listing) ==
        (if a.family == AF_INET
         then Answer(s.address.family == AF_INET && And(s.address.sAddr, mask) == And(a.sAddr, mask))
         else if a.family == 0 then Answer(s.address.family == 0)
         else Throws, s)
  {
    HoldsExactly(o, s, a);
    hide Holds, And, MaskOf, Swap32;
  }

  /** An interface that getifaddrs lists with an IPv4 address and a netmask. */
  predicate Listed(i: Interface, x: Address, netmask: u32) {
    i.address == Some(x) && i.netmask == Some(netmask) && x.family == AF_INET
  }

  /**
   * An address is covered by an interface exactly when it agrees with the interface's own under the mask of
   * as many ones as its netmask has.
   */
  lemma CoversExactly(o: Order, i: Interface, a: Address)
    ensures Covers(o, i, a) <==>
      exists x, netmask :: Listed(i, x, netmask) &&
        var mask := Htonl(o, MaskOf(Popcount(Htonl(o, netmask)))); And(x.sAddr, mask) == And(a.sAddr, mask)
    ensures Usable(i) <==> exists x, netmask :: Listed(i, x, netmask)
  {
    if Usable(i) {
      var x, netmask := i.address.value, i.netmask.value;
      assert Listed(i, x, netmask);
      HoldsExactly(o, NetworkOf(o, i), a);
      hide Holds, And, MaskOf, Swap32, Popcount, Htonl;
    }
  }

  /**
   * What an internal state answers to addresses that are not IPv4: an IPv6 one is found nowhere while no
   * interface takes part, and otherwise throws; an empty one is compared with what the state holds; any
   * other throws. Its subnet stays.
   */
  lemma OtherFamiliesExactly(o: Order, revert: bool, s: SubNet, a: Address, listing: Listing)
    requires a.family != AF_INET
    ensures Compared(o, Internal(revert), s, a, listing) ==
      (if a.family == 0 then Answer(s.address.family == 0)
       else if a.family == AF_INET6 && listing.Interfaces?
               && forall j, x, netmask :: 0 <= j < |listing.list| ==> !Listed(listing.list[j], x, netmask)
       then Answer(revert)
       else Throws, s)
  {
    if listing.Interfaces? {
      forall j | 0 <= j < |listing.list|
        ensures Usable(listing.list[j]) <==> exists x, netmask :: Listed(listing.list[j], x, netmask)
      {
        CoversExactly(o, listing.list[j], a);
      }
    }
  }

  function Complement(v: Comparison): Comparison {
    if v.Throws? then Throws else Answer(!v.value)
  }

  /** Remote answers the complement of local, for every list and address, exactly when the address is not empty. */
  lemma ComplementExactly(o: Order, s: SubNet, a: Address, listing: Listing)
    ensures var near, far := Compared(o, Internal(false), s, a, listing), Compared(o, Internal(true), s, a, listing);
      && (far.0 == Complement(near.0) <==> a.family != 0)
      && far.1 == near.1
  {
  }

  /**
   * With contiguous netmasks, local means: some usable interface has the address on its own network, by its
   * own netmask, on the wire.
   */
  lemma LocalByNetmask(o: Order, s: SubNet, a: Address, list: seq<Interface>)
    requires a.family == AF_INET
    requires forall j :: 0 <= j < |list| && Usable(list[j]) ==> Contiguous(Htonl(o, list[j].netmask.value))
    ensures Compared(o, Internal(false), s, a, Interfaces(list)).0 ==
      Answer(exists j :: 0 <= j < |list| && OnNetwork(list[j], a))
  {
    hide *;
    LocalExactly(o, s, a, list);
    UsableWhere(o, list, a);
    forall j | 0 <= j < |list| ensures Covers(o, list[j], a) <==> OnNetwork(list[j], a) {
      if Usable(list[j]) {
        DirectTest(o, list[j], a);
      }
    }
  }

  lemma UsableWhere(o: Order, list: seq<Interface>, a: Address)
    ensures forall j :: 0 <= j < |list| && !Usable(list[j]) ==> !Covers(o, list[j], a) && !OnNetwork(list[j], a)
  {
  }

  /** The direct test of an address against an interface. */
  predicate OnNetwork(i: Interface, a: Address) {
    Usable(i) && And(i.address.value.sAddr, i.netmask.value) == And(a.sAddr, i.netmask.value)
  }

  lemma DirectTest(o: Order, i: Interface, a: Address)
    requires Usable(i) && Contiguous(Htonl(o, i.netmask.value))
    ensures Covers(o, i, a) <==> OnNetwork(i, a)
  {
    var m := Htonl(o, i.netmask.value);
    assert NetworkOf(o, i).bits == Popcount(m);
    hide And, InPrefix, MaskOf, Swap32, Contiguous, Popcount;
    ContiguousExactly(m);
    SwapTwice(i.netmask.value);
    MaskedInNetworkOrder(o, i.address.value.sAddr, NetworkOf(o, i).bits, a.sAddr);
  }

  /** Whatever its netmask, a usable interface's own address is local. */
  lemma OwnAddressIsLocal(o: Order, s: SubNet, list: seq<Interface>, j: nat, a: Address)
    requires j < |list| && Usable(list[j]) && a == list[j].address.value
    ensures Compared(o, Internal(false), s, a, Interfaces(list)).0 == Answer(true)
  {
    LocalExactly(o, s, a, list);
    assert Covers(o, list[j], a);
  }

  // ---------- the subnet an internal state holds over its life ----------

  datatype Query = Query(address: Address, listing: Listing)

  /** The subnet after a sequence of comparisons. */
  function HeldAfter(o: Order, revert: bool, qs: seq<Query>): SubNet {
    if qs == [] then NOWHERE
    else
      var q := qs[|qs| - 1];
      Compared(o, Internal(revert), HeldAfter(o, revert, qs[..|qs| - 1]), q.address, q.listing).1
  }

  /** The comparison found a network of this host. */
  predicate Matched(o: Order, q: Query) {
    q.address.family == AF_INET && q.listing.Interfaces? && Search(o, q.listing.list, q.address, 0).Some?
  }

  ghost predicate LastMatch(o: Order, qs: seq<Query>, k: nat) {
    k < |qs| && Matched(o, qs[k]) && forall j :: k < j < |qs| ==> !Matched(o, qs[j])
  }

  /** It is the network the latest successful search found, an IPv4 one, or nothing while none has succeeded. */
  lemma {:induction false} HeldIsLatest(o: Order, revert: bool, qs: seq<Query>)
    ensures (forall j :: 0 <= j < |qs| ==> !Matched(o, qs[j])) ==> HeldAfter(o, revert, qs) == NOWHERE
    ensures forall k: nat {:trigger LastMatch(o, qs, k)} :: LastMatch(o, qs, k) ==>
      HeldAfter(o, revert, qs) == Search(o, qs[k].listing.list, qs[k].address, 0).value
    ensures HeldAfter(o, revert, qs).address.family == 0 <==> forall j :: 0 <= j < |qs| ==> !Matched(o, qs[j])
  {
    if qs != [] {
      var last := |qs| - 1;
      var q := qs[last];
      HeldIsLatest(o, revert, qs[..last]);
      HeldTurn(o, revert, HeldAfter(o, revert, qs[..last]), q);
      assert forall j :: 0 <= j < last ==> qs[..last][j] == qs[j];
      hide Matched, Compared;
      if Matched(o, q) {
        forall k: nat | LastMatch(o, qs, k) ensures k == last {
        }
      } else {
        forall k: nat | LastMatch(o, qs, k) ensures LastMatch(o, qs[..last], k) {
        }
      }
    }
  }

  lemma HeldTurn(o: Order, revert: bool, s: SubNet, q: Query)
    ensures var t := Compared(o, Internal(revert), s, q.address, q.listing).1;
      if Matched(o, q) then t == Search(o, q.listing.list, q.address, 0).value && t.address.family == AF_INET
      else t == s
  {
    if Matched(o, q) {
      SearchExactly(o, q.listing.list, q.address, 0);
    }
  }

  /** So an empty address compares as true, for local and remote alike, exactly until the first successful search. */
  lemma EmptyUntilMatched(o: Order, revert: bool, qs: seq<Query>, a: Address, listing: Listing)
    requires a.family == 0
    ensures Compared(o, Internal(revert), HeldAfter(o, revert, qs), a, listing).0 ==
      Answer(forall j :: 0 <= j < |qs| ==> !Matched(o, qs[j]))
  {
    HeldIsLatest(o, revert, qs);
  }
}
