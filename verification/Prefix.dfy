/** IPv4 prefixes: the netmask built from a bit count, and membership of an address. */
module Prefix {
  import opened Bytes
  import opened Arithmetic

  function Pow2(n: nat): (p: nat)
    ensures p >= 1
  {
    if n == 0 then 1 else 2 * Pow2(n - 1)
  }

  /** Bitwise and, or. */
  function And(a: nat, b: nat): nat {
    if a == 0 || b == 0 then 0
    else (if a % 2 == 1 && b % 2 == 1 then 1 else 0) + 2 * And(a / 2, b / 2)
  }

  function Or(a: nat, b: nat): nat
    decreases a + b
  {
    if a == 0 && b == 0 then 0
    else (if a % 2 == 1 || b % 2 == 1 then 1 else 0) + 2 * Or(a / 2, b / 2)
  }

  function Min32(bits: nat): (k: nat)
    ensures k <= 32 && k <= bits
  {
    if bits < 32 then bits else 32
  }

  lemma PowersOfTwo()
    ensures Pow2(8) == 0x100 && Pow2(31) == 0x8000_0000 && Pow2(32) == 0x1_0000_0000
  {
    assert Pow2(4) == 16;
    assert Pow2(12) == 0x1000;
    assert Pow2(16) == 0x1_0000;
    assert Pow2(20) == 0x10_0000;
    assert Pow2(24) == 0x100_0000;
    assert Pow2(28) == 0x1000_0000;
  }

  lemma {:induction false} PowerOrder(m: nat, n: nat)
    requires m <= n
    ensures Pow2(m) <= Pow2(n)
    decreases n
  {
    if m < n {
      PowerOrder(m, n - 1);
    }
  }

  /** The netmask of a bit count: that many ones, at most 32, from the top. */
  function MaskOf(bits: nat): (m: u32) {
    PowersOfTwo();
    PowerOrder(32 - Min32(bits), 32);
    Pow2(32) - Pow2(32 - Min32(bits))
  }

  /** mask |= 0x80000000 */
  function WithTopBit(mask: u32): u32 {
    if mask < 0x8000_0000 then mask + 0x8000_0000 else mask
  }

  lemma MaskStep(bits: nat)
    ensures MaskOf(bits + 1) == WithTopBit(MaskOf(bits) / 2)
  {
    PowersOfTwo();
    if bits < 32 {
      assert Pow2(32 - bits) == 2 * Pow2(31 - bits);
      assert MaskOf(bits) == 2 * (Pow2(31) - Pow2(31 - bits));
    }
  }

  lemma MaskOfNone()
    ensures MaskOf(0) == 0
  {
  }

  /** The loop of contains: one bit shifted in from the top per turn, however many turns. */
  method BuildMask(bits: u32) returns (mask: u32)
    ensures mask == MaskOf(bits)
  {
    hide *;
    mask := 0;
    MaskOfNone();
    for ix := 0 to bits
      invariant mask == MaskOf(ix)
    {
      MaskStep(ix);
      mask := WithTopBit(mask / 2);
    }
  }

  // ---------- masking ----------

  lemma {:induction false} AndOnes(a: nat, n: nat)
    requires a < Pow2(n)
    ensures And(a, Pow2(n) - 1) == a
    decreases n
  {
    if n > 0 {
      AndOnes(a / 2, n - 1);
      AndTurn(a / 2, a % 2, Pow2(n - 1) - 1, 1);
      hide And;
      assert Pow2(n) - 1 == 2 * (Pow2(n - 1) - 1) + 1;
    }
  }

  /** Masking with the top n - k of n ones clears the k bits below them. */
  lemma {:induction false} AndHigh(a: nat, n: nat, k: nat)
    requires a < Pow2(n) && k <= n
    ensures Pow2(k) <= Pow2(n)
    ensures And(a, Pow2(n) - Pow2(k)) == a / Pow2(k) * Pow2(k)
    decreases k
  {
    hide *;
    PowerOrder(k, n);
    Half(a, n, k);
    if k == 0 {
      AndOnes(a, n);
    } else {
      AndHigh(a / 2, n - 1, k - 1);
      AndHighTurn(a, Pow2(k - 1), Pow2(n - 1));
    }
  }

  lemma Half(a: nat, n: nat, k: nat)
    requires a < Pow2(n)
    ensures n > 0 ==> Pow2(n) == 2 * Pow2(n - 1) && a / 2 < Pow2(n - 1)
    ensures if k == 0 then Pow2(k) == 1 && a / Pow2(k) * Pow2(k) == a else Pow2(k) == 2 * Pow2(k - 1)
  {
  }

  lemma AndHighTurn(a: nat, p: nat, r: nat)
    requires 1 <= p <= r && And(a / 2, r - p) == a / 2 / p * p
    ensures And(a, 2 * r - 2 * p) == a / (2 * p) * (2 * p)
  {
    hide *;
    AndEven(a, r - p);
    Halving(a, p);
    Scaled(2 * p, p, a / (2 * p));
    assert 2 * (r - p) == 2 * r - 2 * p;
  }

  lemma AndEven(a: nat, m: nat)
    ensures And(a, 2 * m) == 2 * And(a / 2, m)
  {
  }

  /** The address lies in the prefix: their top bits agree. */
  predicate InPrefix(net: u32, bits: nat, x: u32) {
    net / Pow2(32 - Min32(bits)) == x / Pow2(32 - Min32(bits))
  }

  lemma MaskedEqualExactly(net: u32, bits: nat, x: u32)
    ensures And(net, MaskOf(bits)) == And(x, MaskOf(bits)) <==> InPrefix(net, bits, x)
  {
    PowersOfTwo();
    var k := 32 - Min32(bits);
    AndHigh(net, 32, k);
    AndHigh(x, 32, k);
    Cancel(net / Pow2(k), x / Pow2(k), Pow2(k));
  }

  // ---------- byte order ----------

  /** A value from its bytes, least significant first. */
  function Word(b0: nat, b1: nat, b2: nat, b3: nat): nat {
    b0 + 0x100 * (b1 + 0x100 * (b2 + 0x100 * b3))
  }

  /** The four bytes of a 32-bit value reversed. */
  function Swap32(x: u32): u32 {
    var y := x / 0x100;
    var z := y / 0x100;
    Word(z / 0x100, z % 0x100, y % 0x100, x % 0x100)
  }

  lemma SwapWord(b0: nat, b1: nat, b2: nat, b3: nat)
    requires b0 < 0x100 && b1 < 0x100 && b2 < 0x100 && b3 < 0x100
    ensures Word(b0, b1, b2, b3) < 0x1_0000_0000
    ensures Swap32(Word(b0, b1, b2, b3)) == Word(b3, b2, b1, b0)
  {
    var z := b2 + 0x100 * b3;
    var y := b1 + 0x100 * z;
    var x := b0 + 0x100 * y;
    assert x / 0x100 == y && x % 0x100 == b0;
    assert y / 0x100 == z && y % 0x100 == b1;
    assert z / 0x100 == b3 && z % 0x100 == b2;
  }

  /** Every 32-bit value is the word of its bytes. */
  lemma BytesOf(x: u32) returns (b0: nat, b1: nat, b2: nat, b3: nat)
    ensures b0 < 0x100 && b1 < 0x100 && b2 < 0x100 && b3 < 0x100 && x == Word(b0, b1, b2, b3)
  {
    var y := x / 0x100;
    var z := y / 0x100;
    b0, b1, b2, b3 := x % 0x100, y % 0x100, z % 0x100, z / 0x100;
  }

  /** htonl and ntohl. */
  function Htonl(o: Order, x: u32): u32 {
    if o.Little? then Swap32(x) else x
  }

  /** htonl puts the most significant byte first in memory, whatever the host. */
  lemma StoreHtonl(o: Order, b0: nat, b1: nat, b2: nat, b3: nat)
    requires b0 < 0x100 && b1 < 0x100 && b2 < 0x100 && b3 < 0x100
    ensures Word(b0, b1, b2, b3) < 0x1_0000_0000
    ensures Store(o, Htonl(o, Word(b0, b1, b2, b3)), 4) == [b3, b2, b1, b0]
  {
    SwapWord(b0, b1, b2, b3);
    hide Swap32;
    if o.Little? {
      StoreWord(b3, b2, b1, b0);
    } else {
      StoreWord(b0, b1, b2, b3);
      assert Reverse([b0, b1, b2, b3]) == [b3, b2, b1, b0];
    }
  }

  lemma StoreWord(b0: nat, b1: nat, b2: nat, b3: nat)
    requires b0 < 0x100 && b1 < 0x100 && b2 < 0x100 && b3 < 0x100
    ensures StoreLittle(Word(b0, b1, b2, b3), 4) == [b0, b1, b2, b3]
  {
    hide StoreLittle;
    var z := b2 + 0x100 * b3;
    var y := b1 + 0x100 * z;
    StoreFirst(b0, y, 4);
    StoreFirst(b1, z, 3);
    StoreFirst(b2, b3, 2);
    StoreFirst(b3, 0, 1);
  }

  lemma StoreFirst(b: nat, v: nat, n: nat)
    requires b < 0x100 && n > 0
    ensures StoreLittle(b + 0x100 * v, n) == [b] + StoreLittle(v, n - 1) && StoreLittle(v, 0) == []
  {
  }

  lemma SwapTwice(x: u32)
    ensures Swap32(Swap32(x)) == x
  {
    hide *;
    var b0, b1, b2, b3 := BytesOf(x);
    SwapWord(b0, b1, b2, b3);
    SwapWord(b3, b2, b1, b0);
  }

  lemma AndTurn(a: nat, i: nat, b: nat, j: nat)
    requires i < 2 && j < 2
    ensures And(2 * a + i, 2 * b + j) == 2 * And(a, b) + if i == 1 && j == 1 then 1 else 0
  {
  }

  /** One more low bit under a split that And respects. */
  lemma AndSplitTurn(a: nat, y: nat, b: nat, v: nat, w: nat)
    requires And(y / 2 + a, v / 2 + b) == And(y / 2, v / 2) + w
    ensures And(y + 2 * a, v + 2 * b) == And(y, v) + 2 * w
  {
    AndTurn(a + y / 2, y % 2, b + v / 2, v % 2);
    AndTurn(y / 2, y % 2, v / 2, v % 2);
  }

  lemma {:induction false} AndBound(a: nat, b: nat)
    ensures And(a, b) <= a
  {
    if a > 0 && b > 0 {
      AndBound(a / 2, b / 2);
    }
  }

  /** And works on the low n bits and the rest separately. */
  lemma {:induction false} AndSplit(n: nat, y: nat, x: nat, v: nat, u: nat)
    requires y < Pow2(n) && v < Pow2(n)
    ensures And(y + Pow2(n) * x, v + Pow2(n) * u) == And(y, v) + Pow2(n) * And(x, u)
  {
    hide And;
    if n == 0 {
      AndZero();
    } else {
      var p := Pow2(n - 1);
      AndSplit(n - 1, y / 2, x, v / 2, u);
      AndSplitTurn(p * x, y, p * u, v, p * And(x, u));
      Scaled(Pow2(n), p, x);
      Scaled(Pow2(n), p, u);
      Scaled(Pow2(n), p, And(x, u));
    }
  }

  lemma AndZero()
    ensures And(0, 0) == 0
  {
  }

  lemma AndByte(y: nat, x: nat, v: nat, u: nat)
    requires y < 0x100 && v < 0x100
    ensures And(y + 0x100 * x, v + 0x100 * u) == And(y, v) + 0x100 * And(x, u)
    ensures And(y, v) < 0x100
  {
    PowersOfTwo();
    AndBound(y, v);
    AndSplit(8, y, x, v, u);
  }

  /** Masking commutes with reversing the bytes, so it may be done in network order. */
  lemma AndSwapped(a: u32, m: u32)
    ensures And(a, m) < 0x1_0000_0000
    ensures And(Swap32(a), Swap32(m)) == Swap32(And(a, m))
  {
    hide *;
    var a0, a1, a2, a3 := BytesOf(a);
    var m0, m1, m2, m3 := BytesOf(m);
    AndWord(a0, a1, a2, a3, m0, m1, m2, m3);
    AndWord(a3, a2, a1, a0, m3, m2, m1, m0);
    SwapWord(a0, a1, a2, a3);
    SwapWord(m0, m1, m2, m3);
    SwapWord(And(a0, m0), And(a1, m1), And(a2, m2), And(a3, m3));
  }

  lemma WordMeans(b0: nat, b1: nat, b2: nat, b3: nat)
    ensures Word(b0, b1, b2, b3) == b0 + 0x100 * (b1 + 0x100 * (b2 + 0x100 * b3))
  {
  }

  lemma AndWord(a0: nat, a1: nat, a2: nat, a3: nat, m0: nat, m1: nat, m2: nat, m3: nat)
    requires a0 < 0x100 && a1 < 0x100 && a2 < 0x100 && a3 < 0x100
    requires m0 < 0x100 && m1 < 0x100 && m2 < 0x100 && m3 < 0x100
    ensures And(a0, m0) < 0x100 && And(a1, m1) < 0x100 && And(a2, m2) < 0x100 && And(a3, m3) < 0x100
    ensures And(Word(a0, a1, a2, a3), Word(m0, m1, m2, m3)) == Word(And(a0, m0), And(a1, m1), And(a2, m2), And(a3, m3))
  {
    hide *;
    var x2, y2 := a2 + 0x100 * a3, m2 + 0x100 * m3;
    var x1, y1 := a1 + 0x100 * x2, m1 + 0x100 * y2;
    AndLow(a3, 0, m3, 0, a3, m3);
    AndLow(a2, a3, m2, m3, x2, y2);
    AndLow(a1, x2, m1, y2, x1, y1);
    WordMeans(a0, a1, a2, a3);
    WordMeans(m0, m1, m2, m3);
    AndLow(a0, x1, m0, y1, Word(a0, a1, a2, a3), Word(m0, m1, m2, m3));
    WordMeans(And(a0, m0), And(a1, m1), And(a2, m2), And(a3, m3));
  }

  lemma AndLow(b: nat, x: nat, c: nat, y: nat, bx: nat, cy: nat)
    requires b < 0x100 && c < 0x100 && bx == b + 0x100 * x && cy == c + 0x100 * y
    ensures And(b, c) < 0x100 && And(bx, cy) == And(b, c) + 0x100 * And(x, y)
  {
    hide *;
    AndByte(b, x, c, y);
  }

  lemma {:induction false} OrSelf(a: nat)
    ensures Or(a, a) == a
  {
    if a > 0 {
      OrSelf(a / 2);
    }
  }

  // ---------- subnets ----------

  /** An address as stored in a sockaddr: family zero when empty, the IPv4 address in network order. */
  datatype Address = Address(family: int, sAddr: u32)

  datatype SubNet = SubNet(address: Address, bits: u32)

  datatype Comparison = Answer(value: bool) | Throws

  function HostOrder(o: Order, a: Address): u32 {
    Htonl(o, a.sAddr)
  }

  /** What contains means: an IPv4 subnet, and the top bits of the two addresses agree. */
  predicate Holds(o: Order, s: SubNet, a: Address) {
    s.address.family == AF_INET && InPrefix(HostOrder(o, s.address), s.bits, HostOrder(o, a))
  }

  /** contains for an IPv4 address, computed in network order with the mask through htonl. */
  method ContainsV4(o: Order, s: SubNet, a: Address) returns (r: bool)
    ensures r == Holds(o, s, a)
  {
    if s.address.family != AF_INET {
      return false;
    }
    var mask := BuildMask(s.bits);
    var netmask := Htonl(o, mask);
    var net := And(a.sAddr, netmask);
    var base := And(s.address.sAddr, netmask);
    OrSelf(net);
    MaskedInNetworkOrder(o, s.address.sAddr, s.bits, a.sAddr);
    return base == net && Or(base, net) == net;
  }

  lemma MaskedInNetworkOrder(o: Order, net: u32, bits: u32, x: u32)
    ensures var netmask := Htonl(o, MaskOf(bits));
      And(net, netmask) == And(x, netmask) <==> InPrefix(Htonl(o, net), bits, Htonl(o, x))
  {
    hide And, InPrefix, MaskOf, Swap32;
    MaskedEqualExactly(Htonl(o, net), bits, Htonl(o, x));
    if o.Little? {
      var m := MaskOf(bits);
      var p, q := Swap32(net), Swap32(x);
      SwapTwice(net);
      SwapTwice(x);
      AndSwapped(p, m);
      AndSwapped(q, m);
      if Swap32(And(p, m)) == Swap32(And(q, m)) {
        SwapTwice(And(p, m));
        SwapTwice(And(q, m));
      }
    }
  }

  /** contains for any address: by family. */
  method Contains(o: Order, s: SubNet, a: Address) returns (v: Comparison)
    ensures v ==
      if a.family == 0 then Answer(s.address.family == 0)
      else if a.family == AF_INET then Answer(Holds(o, s, a))
      else Throws
  {
    if a.family == 0 {
      return Answer(s.address.family == 0);
    } else if a.family == AF_INET {
      var r := ContainsV4(o, s, a);
      return Answer(r);
    } else {
      return Throws;
    }
  }

  /** In plain terms: the subnet is an IPv4 one, and the addresses agree under the mask of its length, on the wire. */
  lemma HoldsExactly(o: Order, s: SubNet, a: Address)
    ensures var netmask := Htonl(o, MaskOf(s.bits));
      Holds(o, s, a) <==> s.address.family == AF_INET && And(s.address.sAddr, netmask) == And(a.sAddr, netmask)
  {
    hide And, InPrefix, MaskOf, Swap32;
    MaskedInNetworkOrder(o, s.address.sAddr, s.bits, a.sAddr);
  }

  /** Membership does not depend on the host's byte order: the same addresses on the wire give the same answer. */
  lemma ByteOrderFree(net: u32, bits: u32, x: u32)
    ensures Holds(Little, SubNet(Address(AF_INET, Swap32(net)), bits), Address(AF_INET, Swap32(x)))
       <==> Holds(Big, SubNet(Address(AF_INET, net), bits), Address(AF_INET, x))
  {
    SwapTwice(net);
    SwapTwice(x);
  }

  /**
   * Two prefixes are nested or disjoint (section 3.1 of RFC 4632): if any address is in both, then
   * every address of the longer one is in the shorter.
   */
  lemma NestedOrDisjoint(n: u32, short: nat, m: u32, long: nat, shared: u32, x: u32)
    requires short <= long
    requires InPrefix(n, short, shared) && InPrefix(m, long, shared)
    requires InPrefix(m, long, x)
    ensures InPrefix(n, short, x)
  {
    var j, k := 32 - Min32(long), 32 - Min32(short);
    Coarser(shared, x, j, k);
  }

  /** Addresses that agree above bit j agree above any higher bit k. */
  lemma {:induction false} Coarser(x: u32, y: u32, j: nat, k: nat)
    requires j <= k && x / Pow2(j) == y / Pow2(j)
    ensures x / Pow2(k) == y / Pow2(k)
    decreases k - j
  {
    if j < k {
      HalfAgain(x, j);
      HalfAgain(y, j);
      Coarser(x, y, j + 1, k);
    }
  }

  lemma HalfAgain(x: nat, j: nat)
    ensures x / Pow2(j + 1) == x / Pow2(j) / 2
  {
    Doubling(x, Pow2(j));
  }

}
