/**
 * Fixed-width unsigned integers and the two byte orders a host may use to lay them out in memory; address
 * families.
 */
module Bytes {

  type byte = x: int | 0 <= x < 0x100
  type u16 = x: int | 0 <= x < 0x1_0000
  type u32 = x: int | 0 <= x < 0x1_0000_0000
  type u64 = x: int | 0 <= x < 0x1_0000_0000_0000_0000

  // Address families.
  const AF_INET: int := 2
  const AF_INET6: int := 10

  datatype Option<+T> = None | Some(value: T)

  /** The byte order of the machine the program runs on. */
  datatype Order = Little | Big

  /** 256 to the power n: the number of values n bytes can hold. */
  function Capacity(n: nat): nat {
    if n == 0 then 1 else 256 * Capacity(n - 1)
  }

  /** The value of bytes stored least significant first. */
  function LoadLittle(b: seq<byte>): nat {
    if b == [] then 0 else b[0] + 256 * LoadLittle(b[1..])
  }

  function StoreLittle(v: nat, n: nat): (b: seq<byte>)
    ensures |b| == n
  {
    if n == 0 then [] else [v % 256] + StoreLittle(v / 256, n - 1)
  }

  function Reverse(b: seq<byte>): (r: seq<byte>)
    ensures |r| == |b|
    ensures forall i :: 0 <= i < |b| ==> r[i] == b[|b| - 1 - i]
  {
    if b == [] then [] else Reverse(b[1..]) + [b[0]]
  }

  /** What a host of the given order reads from these bytes. */
  function Load(o: Order, b: seq<byte>): nat {
    if o.Little? then LoadLittle(b) else LoadLittle(Reverse(b))
  }

  /** The bytes a host of the given order writes for v. */
  function Store(o: Order, v: nat, n: nat): (b: seq<byte>)
    ensures |b| == n
  {
    if o.Little? then StoreLittle(v, n) else Reverse(StoreLittle(v, n))
  }

  lemma {:induction false} LoadLittleStore(v: nat, n: nat)
    requires v < Capacity(n)
    ensures LoadLittle(StoreLittle(v, n)) == v
  {
    if n > 0 {
      LoadLittleStore(v / 256, n - 1);
      assert StoreLittle(v, n)[1..] == StoreLittle(v / 256, n - 1);
    }
  }

  lemma {:induction false} LoadLittleBound(b: seq<byte>)
    ensures LoadLittle(b) < Capacity(|b|)
  {
    if b != [] {
      LoadLittleBound(b[1..]);
    }
  }

  lemma {:induction false} StoreLittleLoad(b: seq<byte>)
    ensures StoreLittle(LoadLittle(b), |b|) == b
  {
    if b != [] {
      StoreLittleLoad(b[1..]);
      assert LoadLittle(b) % 256 == b[0] && LoadLittle(b) / 256 == LoadLittle(b[1..]);
    }
  }

  /** Whatever the host order, a stored value that fits is read back unchanged. */
  lemma LoadStore(o: Order, v: nat, n: nat)
    requires v < Capacity(n)
    ensures Load(o, Store(o, v, n)) == v
  {
    LoadLittleStore(v, n);
    var b := StoreLittle(v, n);
    assert Reverse(Reverse(b)) == b;
  }

  /** Bytes read as a value and written again are the same bytes. */
  lemma StoreLoad(o: Order, b: seq<byte>)
    ensures Store(o, Load(o, b), |b|) == b
  {
    StoreLittleLoad(b);
    StoreLittleLoad(Reverse(b));
    assert Reverse(Reverse(b)) == b;
  }

  lemma LoadBound(o: Order, b: seq<byte>)
    ensures Load(o, b) < Capacity(|b|)
  {
    LoadLittleBound(b);
    LoadLittleBound(Reverse(b));
  }

  /** The capacities of the widths used by the protocols. */
  lemma Capacities()
    ensures Capacity(1) == 0x100
    ensures Capacity(2) == 0x1_0000
    ensures Capacity(4) == 0x1_0000_0000
    ensures Capacity(8) == 0x1_0000_0000_0000_0000
  {
    assert Capacity(3) == 0x100_0000;
    assert Capacity(5) == 0x100_0000_0000;
    assert Capacity(6) == 0x1_0000_0000_0000;
    assert Capacity(7) == 0x100_0000_0000_0000;
  }

  function Load16(o: Order, b: seq<byte>): (v: u16)
    requires |b| == 2
  {
    LoadBound(o, b);
    Capacities();
    Load(o, b)
  }

  function Load32(o: Order, b: seq<byte>): (v: u32)
    requires |b| == 4
  {
    LoadBound(o, b);
    Capacities();
    Load(o, b)
  }

  function Load64(o: Order, b: seq<byte>): (v: u64)
    requires |b| == 8
  {
    LoadBound(o, b);
    Capacities();
    Load(o, b)
  }

  /** The two bytes of a 16-bit value exchanged. */
  function Swap16(x: u16): u16 {
    x % 0x100 * 0x100 + x / 0x100
  }

  /** htons and ntohs: a value whose memory image on this host is big-endian. */
  function Htons(o: Order, x: u16): u16 {
    if o.Little? then Swap16(x) else x
  }

  lemma LoadTwo(b: seq<byte>)
    requires |b| == 2
    ensures Load(Little, b) == b[0] as int + 0x100 * b[1] as int
    ensures Load(Big, b) == b[1] as int + 0x100 * b[0] as int
  {
    LoadLittlePair(b);
    assert Reverse(b) == [b[1], b[0]];
    LoadLittlePair(Reverse(b));
  }

  lemma LoadLittlePair(b: seq<byte>)
    requires |b| == 2
    ensures LoadLittle(b) == b[0] as int + 0x100 * b[1] as int
  {
    var t := b[1..];
    assert t[0] == b[1] && t[1..] == [];
    assert LoadLittle(t) == b[1] as int + 256 * LoadLittle(t[1..]);
  }

  /** Two hosts of different order read byte-swapped words from the same memory. */
  lemma LoadSwapped(b: seq<byte>)
    requires |b| == 2
    ensures Load16(Big, b) == Swap16(Load16(Little, b))
  {
    LoadTwo(b);
  }

  /** htons puts the most significant byte first in memory, whatever the host. */
  lemma StoreHtons(o: Order, x: u16)
    ensures Store(o, Htons(o, x), 2) == [x / 0x100, x % 0x100]
  {
    var y := Htons(o, x);
    assert StoreLittle(y / 256, 1) == [y / 256 % 256] + StoreLittle(y / 256 / 256, 0);
    assert StoreLittle(y, 2) == [y % 256, y / 256];
  }
}
