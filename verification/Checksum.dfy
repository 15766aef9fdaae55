/** The internet checksum of in_chksum, and what section 2 of RFC 1071 says of it. */
module Checksum {
  import opened Bytes

  /** The C int the sum is accumulated in; going outside it would be undefined behaviour. */
  type int32 = x: int | -0x8000_0000 <= x < 0x8000_0000

  const INT_MAX: nat := 0x7FFF_FFFF

  /** The 16-bit word the odd last byte contributes: the byte at the lower address, zero at the other. */
  function Tail(o: Order, b: byte): (w: u16) {
    if o.Little? then b else b * 0x100
  }

  /** The plain sum of the buffer's 16-bit words as the host loads them. */
  function Total(o: Order, b: seq<byte>): nat {
    if |b| == 0 then 0
    else if |b| == 1 then Tail(o, b[0])
    else Load16(o, b[..2]) + Total(o, b[2..])
  }

  /** One's complement sum: the representative of t modulo 65535, where only 0 itself is represented by 0. */
  function Ones(t: nat): u16 {
    if t == 0 then 0 else (t - 1) % 0xFFFF + 1
  }

  /** The checksum of section 1 of RFC 1071: the complement of the one's complement sum. */
  function Chksum(o: Order, b: seq<byte>): u16 {
    0xFFFF - Ones(Total(o, b))
  }

  /** Every carry folded back in until none is left: the loop of section 4.1 of RFC 1071. */
  function FoldUntilNoCarry(sum: nat): (r: u16)
    decreases sum
  {
    if sum < 0x1_0000 then sum else FoldUntilNoCarry(sum % 0x1_0000 + sum / 0x1_0000)
  }

  /** The code's two fixed folds, cut to 16 bits by the assignment to an unsigned short. */
  function TwoFolds(sum: nat): u16 {
    var once := sum / 0x1_0000 + sum % 0x1_0000;
    (once + once / 0x1_0000) % 0x1_0000
  }

  lemma OnesFold(sum: nat)
    ensures Ones(sum % 0x1_0000 + sum / 0x1_0000) == Ones(sum)
  {
    var folded := sum % 0x1_0000 + sum / 0x1_0000;
    assert sum == folded + 0xFFFF * (sum / 0x1_0000);
    if sum > 0 {
      SameResidue(folded, sum, sum / 0x1_0000);
    }
  }

  lemma SameResidue(a: nat, b: nat, k: int)
    requires b == a + 0xFFFF * k
    requires a > 0 && b > 0
    ensures Ones(a) == Ones(b)
  {
    assert (a - 1) % 0xFFFF == (b - 1) % 0xFFFF;
  }

  lemma {:induction false} FoldUntilNoCarryIsOnes(sum: nat)
    ensures FoldUntilNoCarry(sum) == Ones(sum)
    decreases sum
  {
    if sum >= 0x1_0000 {
      OnesFold(sum);
      FoldUntilNoCarryIsOnes(sum % 0x1_0000 + sum / 0x1_0000);
    }
  }

  /** The second fold of a sum whose first fold left at most one carry. */
  lemma SecondFold(once: nat)
    requires once <= 0x1_FFFE
    ensures (once + once / 0x1_0000) % 0x1_0000 == Ones(once)
  {
    if once >= 0x1_0000 {
      assert once / 0x1_0000 == 1;
      assert (once - 1) % 0xFFFF == once - 1 - 0xFFFF;
    }
  }

  /**
   * Two folds are enough for any 32-bit sum: they agree with the loop of RFC 1071, and both are the sum
   * modulo 65535.
   */
  lemma TwoFoldsSuffice(sum: u32)
    ensures TwoFolds(sum) == FoldUntilNoCarry(sum) == Ones(sum)
  {
    FoldUntilNoCarryIsOnes(sum);
    OnesFold(sum);
    hide Ones, FoldUntilNoCarry;
    SecondFold(sum / 0x1_0000 + sum % 0x1_0000);
  }

  lemma ComplementOf(x: nat)
    ensures (-1 - x) % 0x1_0000 == 0xFFFF - x % 0x1_0000
  {
    assert -1 - x == 0x1_0000 * (-1 - x / 0x1_0000) + (0xFFFF - x % 0x1_0000);
  }

  /** What the last three assignments of the code leave in the unsigned short. */
  lemma ComplementOfFolds(sum: nat)
    requires sum <= INT_MAX
    ensures
      var once := sum / 0x1_0000 + sum % 0x1_0000;
      once + once / 0x1_0000 <= INT_MAX && (-1 - (once + once / 0x1_0000)) % 0x1_0000 == 0xFFFF - Ones(sum)
  {
    TwoFoldsSuffice(sum);
    hide Ones, FoldUntilNoCarry;
    var once := sum / 0x1_0000 + sum % 0x1_0000;
    ComplementOf(once + once / 0x1_0000);
  }

  /**
   * The longest buffer whose sum is certain to fit a C int: the odd last byte counts for less on a little-
   * endian host.
   */
  function Limit(o: Order): nat {
    if o.Little? then 65537 else 65536
  }

  lemma {:induction false} TotalBound(o: Order, b: seq<byte>)
    ensures Total(o, b) <= |b| / 2 * 0xFFFF + (if |b| % 2 == 0 then 0 else if o.Little? then 0xFF else 0xFF00)
  {
    if |b| >= 2 {
      TotalBound(o, b[2..]);
    }
  }

  lemma {:induction false} TotalOfFullBytes(o: Order, b: seq<byte>)
    requires forall i :: 0 <= i < |b| ==> b[i] == 0xFF
    ensures Total(o, b) == |b| / 2 * 0xFFFF + (if |b| % 2 == 0 then 0 else if o.Little? then 0xFF else 0xFF00)
  {
    if |b| >= 2 {
      LoadTwo(b[..2]);
      TotalOfFullBytes(o, b[2..]);
    }
  }

  /**
   * An odd last byte counts as if a zero byte followed it, as section 4.1 of RFC 1071 wants it, on hosts of
   * either order.
   */
  lemma {:induction false} OddTailPadded(o: Order, b: seq<byte>)
    requires |b| % 2 == 1
    ensures Total(o, b) == Total(o, b + [0])
  {
    if |b| == 1 {
      LoadTwo(b + [0]);
      assert (b + [0])[..2] == b + [0] && (b + [0])[2..] == [];
    } else {
      OddTailPadded(o, b[2..]);
      assert (b + [0])[..2] == b[..2] && (b + [0])[2..] == b[2..] + [0];
    }
  }

  /** The accumulator can overflow at some length exactly when that length exceeds the limit. */
  lemma OverflowBound(o: Order, n: nat)
    ensures n <= Limit(o) <==> (forall b: seq<byte> :: |b| == n ==> Total(o, b) <= INT_MAX)
  {
    if n <= Limit(o) {
      forall b: seq<byte> | |b| == n ensures Total(o, b) <= INT_MAX {
        TotalBound(o, b);
      }
    } else {
      var b: seq<byte> := seq(n, i => 0xFF);
      TotalOfFullBytes(o, b);
      assert |b| == n && Total(o, b) > INT_MAX;
    }
  }

  /** Sums split at any even position. */
  lemma {:induction false} TotalSplit(o: Order, a: seq<byte>, b: seq<byte>)
    requires |a| % 2 == 0
    ensures Total(o, a + b) == Total(o, a) + Total(o, b)
  {
    if a == [] {
      assert a + b == b;
    } else {
      TotalSplit(o, a[2..], b);
      assert (a + b)[..2] == a[..2];
      assert (a + b)[2..] == a[2..] + b;
    }
  }

  /**
   * One more word of the prefix; the prefix sums stay below the whole, so the accumulator never overflows on
   * the way.
   */
  lemma TotalStep(o: Order, b: seq<byte>, w: nat)
    requires w % 2 == 0 && w + 2 <= |b|
    ensures Total(o, b[..w + 2]) == Total(o, b[..w]) + Load16(o, b[w..w + 2]) <= Total(o, b)
  {
    var word := b[w..w + 2];
    assert b[..w + 2] == b[..w] + word && word[..2] == word && word[2..] == [];
    TotalSplit(o, b[..w], word);
    assert b[..w + 2] + b[w + 2..] == b;
    TotalSplit(o, b[..w + 2], b[w + 2..]);
  }

  /** The loop's remainder: nothing, or the odd last byte. */
  lemma TotalRemainder(o: Order, b: seq<byte>, w: nat)
    requires w % 2 == 0 && |b| - 1 <= w <= |b|
    ensures Total(o, b) == Total(o, b[..w]) + if w < |b| then Tail(o, b[w]) else 0
  {
    assert b[..w] + b[w..] == b;
    TotalSplit(o, b[..w], b[w..]);
  }

  /**
   * in_chksum itself. The precondition is the absence of signed overflow; every buffer up to Limit(o)
   * bytes meets it (OverflowBound).
   */
  method InChksum(o: Order, buf: seq<byte>) returns (ans: u16)
    requires Total(o, buf) <= INT_MAX
    ensures ans == Chksum(o, buf)
  {
    hide *;
    var nleft := |buf|;
    var sum: int32 := 0;
    var w := 0;
    NothingSummed(o, buf);
    while nleft > 1
      invariant w % 2 == 0 && 0 <= nleft && w + nleft == |buf|
      invariant sum == Total(o, buf[..w])
      decreases nleft
    {
      TotalStep(o, buf, w);
      sum := sum + Load16(o, buf[w..w + 2]);
      w := w + 2;
      nleft := nleft - 2;
    }
    TotalRemainder(o, buf, w);
    if nleft == 1 {
      sum := sum + Tail(o, buf[w]);
    }
    ComplementOfFolds(sum);
    sum := sum / 0x1_0000 + sum % 0x1_0000;
    sum := sum + sum / 0x1_0000;
    ans := (-1 - sum) % 0x1_0000;
  }

  lemma NothingSummed(o: Order, b: seq<byte>)
    requires Total(o, b) <= INT_MAX
    ensures Total(o, b[..0]) == 0 && INT_MAX < 0x8000_0000
    ensures Chksum(o, b) == 0xFFFF - Ones(Total(o, b))
  {
  }

  lemma Swap16Residue(w: u16)
    ensures Swap16(w) == 0x100 * w - 0xFFFF * (w / 0x100)
  {
  }

  /** Reading the words byte-swapped multiplies their sum by 256 modulo 65535, and keeps zero at zero. */
  lemma {:induction false} TotalSwapped(b: seq<byte>) returns (k: int)
    ensures Total(Big, b) == 0x100 * Total(Little, b) - 0xFFFF * k
    ensures Total(Big, b) == 0 <==> Total(Little, b) == 0
  {
    if |b| == 0 {
      k := 0;
    } else if |b| == 1 {
      k := 0;
    } else {
      k := TotalSwapped(b[2..]);
      LoadSwapped(b[..2]);
      var w := Load16(Little, b[..2]);
      Swap16Residue(w);
      k := k + w / 0x100;
    }
  }

  /** Byte order independence, section 2(B) of RFC 1071, for every buffer, odd lengths included. */
  lemma ByteOrderIndependence(b: seq<byte>)
    ensures Chksum(Big, b) == Swap16(Chksum(Little, b))
  {
    var k := TotalSwapped(b);
    var t, u := Total(Little, b), Total(Big, b);
    OnesSwapped(t, u, k);
    hide Ones, Total, Swap16;
    SwapComplement(Ones(t));
  }

  lemma SwapComplement(x: u16)
    ensures Swap16(0xFFFF - x) == 0xFFFF - Swap16(x)
  {
    assert (0xFFFF - x) % 0x100 == 0xFF - x % 0x100;
    assert (0xFFFF - x) / 0x100 == 0xFF - x / 0x100;
  }

  lemma OnesSwapped(t: nat, u: nat, k: int)
    requires u == 0x100 * t - 0xFFFF * k
    requires u == 0 <==> t == 0
    ensures Ones(u) == Swap16(Ones(t))
  {
    if t > 0 {
      var x := Ones(t);
      Swap16Residue(x);
      var q := (t - 1) / 0xFFFF;
      assert t == x + 0xFFFF * q;
      var y := Swap16(x);
      assert u == y + 0xFFFF * (x / 0x100 + 0x100 * q - k);
      SameResidue(y, u, x / 0x100 + 0x100 * q - k);
      assert Ones(y) == y;
    }
  }

  lemma StoredSwapped(x: u16)
    ensures Store(Little, x, 2) == Store(Big, Swap16(x), 2)
  {
    hide Store;
    var y := Swap16(x);
    assert Swap16(y) == x;
    StoreHtons(Little, y);
    StoreHtons(Big, y);
  }

  /** So the checksum stored without htons has the same bytes in the packet on every host. */
  lemma StoredChecksumIsOrderFree(b: seq<byte>)
    ensures Store(Little, Chksum(Little, b), 2) == Store(Big, Chksum(Big, b), 2)
  {
    ByteOrderIndependence(b);
    hide *;
    StoredSwapped(Chksum(Little, b));
  }

  /** The buffer with the 16-bit field at an even offset replaced by v, written in the host's order. */
  function WithWord(o: Order, b: seq<byte>, at: nat, v: u16): (r: seq<byte>)
    requires at + 2 <= |b|
    ensures |r| == |b|
  {
    b[..at] + Store(o, v, 2) + b[at + 2..]
  }

  lemma TotalWithWord(o: Order, b: seq<byte>, at: nat, v: u16)
    requires at + 2 <= |b| && at % 2 == 0
    ensures Total(o, WithWord(o, b, at, v)) == Total(o, b[..at]) + v + Total(o, b[at + 2..])
  {
    var word := Store(o, v, 2);
    Capacities();
    LoadStore(o, v, 2);
    TotalSplit(o, b[..at] + word, b[at + 2..]);
    TotalSplit(o, b[..at], word);
    assert word[..2] == word && word[2..] == [];
  }

  /** Storing the checksum of a buffer into its zeroed field makes the checksum of the whole buffer zero. */
  lemma SealedSumsToZero(o: Order, b: seq<byte>, at: nat)
    requires at + 2 <= |b| && at % 2 == 0
    ensures Chksum(o, WithWord(o, b, at, Chksum(o, WithWord(o, b, at, 0)))) == 0
  {
    var zeroed := WithWord(o, b, at, 0);
    var c := Chksum(o, zeroed);
    TotalWithWord(o, b, at, 0);
    TotalWithWord(o, b, at, c);
    var rest := Total(o, b[..at]) + Total(o, b[at + 2..]);
    var t := rest + c;
    assert c == 0xFFFF - Ones(rest);
    if rest == 0 {
      assert t == 0xFFFF;
    } else {
      var q := (rest - 1) / 0xFFFF;
      assert t == 0xFFFF + 0xFFFF * q;
      SameResidue(0xFFFF, t, q);
    }
    assert Ones(t) == 0xFFFF;
  }

  /** One of two words is all zeros, the other all ones. */
  predicate ZeroForOnes(v: u16, w: u16) {
    (v == 0 && w == 0xFFFF) || (v == 0xFFFF && w == 0)
  }

  /**
   * A changed word goes unnoticed exactly when the change swaps 0x0000 and 0xFFFF in a buffer
   * that has some other non-zero byte.
   */
  lemma SingleWordChange(o: Order, b: seq<byte>, at: nat, v: u16, w: u16)
    requires at + 2 <= |b| && at % 2 == 0
    requires v != w
    ensures Chksum(o, WithWord(o, b, at, v)) == Chksum(o, WithWord(o, b, at, w))
       <==> ZeroForOnes(v, w) && Total(o, b[..at]) + Total(o, b[at + 2..]) > 0
  {
    TotalWithWord(o, b, at, v);
    TotalWithWord(o, b, at, w);
    OnesCollision(Total(o, b[..at]) + Total(o, b[at + 2..]), v, w);
  }

  lemma OnesCollision(rest: nat, v: u16, w: u16)
    requires v != w
    ensures Ones(rest + v) == Ones(rest + w) <==> ZeroForOnes(v, w) && rest > 0
  {
    var a, b := rest + v, rest + w;
    if a > 0 && b > 0 && Ones(a) == Ones(b) {
      var i, j := (a - 1) / 0xFFFF, (b - 1) / 0xFFFF;
      assert a - b == 0xFFFF * (i - j);
    }
    if rest > 0 {
      SameResidue(rest, rest + 0xFFFF, 1);
    }
  }
}
