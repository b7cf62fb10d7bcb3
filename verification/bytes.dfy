/** Bytes as the driver handles them, and the few bit operations it uses on
    them, written arithmetically: bit `i` of a byte is its `i`-th binary
    digit. */
module Bytes {
  newtype byte = x: int | 0 <= x < 256

  /** The value of a 16-bit little-endian field. */
  function Le16(lo: byte, hi: byte): (w: nat)
    ensures w < 0x1_0000
    ensures w % 256 == lo as int && w / 256 == hi as int
  {
    lo as int + 256 * hi as int
  }

  /** The two bytes a C store of an `int` into two `u8` cells (low byte, then
      `>> 8`) produces: the value modulo 2^16, low byte first. */
  function Le16Bytes(w: int): (b: seq<byte>)
    ensures |b| == 2
    ensures Le16(b[0], b[1]) == w % 0x1_0000
  {
    Le16Split(w);
    [(w % 256) as byte, ((w / 256) % 256) as byte]
  }

  lemma Le16Split(w: int)
    ensures w % 0x1_0000 == w % 256 + 256 * ((w / 256) % 256)
  {
    var q := w / 0x1_0000;
    var r := w % 0x1_0000;
    assert w == 0x1_0000 * q + r;
    assert w / 256 == 256 * q + r / 256;
    assert (w / 256) % 256 == r / 256;
    assert w % 256 == r % 256;
  }

  /** Storing a field and reading it back gives its two bytes again. */
  lemma Le16RoundTrip(lo: byte, hi: byte)
    ensures Le16Bytes(Le16(lo, hi)) == [lo, hi]
  {
    var w := Le16(lo, hi);
    assert w % 256 == lo as int && (w / 256) % 256 == hi as int;
  }

  /** C's conversion of an integer to `u8`: the value modulo 256. */
  function U8(x: int): (b: byte)
    ensures b as int == x % 256
  {
    (x % 256) as byte
  }

  function Pow2(n: nat): (p: nat)
    ensures p > 0
  {
    if n == 0 then 1 else 2 * Pow2(n - 1)
  }

  /** Bit `i` (0 = least significant) of a natural number. */
  predicate BitN(x: nat, i: nat) {
    if i == 0 then x % 2 == 1 else BitN(x / 2, i - 1)
  }

  /** Bit `i` of a byte. */
  predicate Bit(x: byte, i: nat) {
    BitN(x as nat, i)
  }

  /** `x | (1 << i)` on natural numbers. */
  function SetBitN(x: nat, i: nat): nat {
    if i == 0 then (if x % 2 == 1 then x else x + 1)
    else x % 2 + 2 * SetBitN(x / 2, i - 1)
  }

  /** Setting bit `i` sets that bit and no other. */
  lemma {:induction false} SetBitNBits(x: nat, i: nat, j: nat)
    ensures BitN(SetBitN(x, i), j) <==> BitN(x, j) || j == i
  {
    if i > 0 && j > 0 {
      SetBitNBits(x / 2, i - 1, j - 1);
    }
  }

  /** Setting a bit below `w` keeps a `w`-bit number within `w` bits. */
  lemma {:induction false} SetBitNBound(x: nat, i: nat, w: nat)
    requires x < Pow2(w) && i < w
    ensures SetBitN(x, i) < Pow2(w)
  {
    var half := Pow2(w - 1);
    assert Pow2(w) == 2 * half;
    if i == 0 {
      assert x % 2 == 0 ==> x + 1 < 2 * half;
    } else {
      assert x / 2 < half;
      SetBitNBound(x / 2, i - 1, w - 1);
      assert SetBitN(x, i) == x % 2 + 2 * SetBitN(x / 2, i - 1);
    }
  }

  /** C's `x | (1 << i)` on a byte. */
  function SetBit(x: byte, i: nat): (y: byte)
    requires i < 8
    ensures Bit(y, i)
    ensures forall j: nat :: j != i ==> (Bit(y, j) <==> Bit(x, j))
  {
    SetBitNBound(x as nat, i, 8);
    var y := SetBitN(x as nat, i) as byte;
    forall j: nat
      ensures Bit(y, j) <==> Bit(x, j) || j == i
    {
      SetBitNBits(x as nat, i, j);
    }
    y
  }

  /** C's `x & mask != 0`: some bit is set in both. */
  predicate AnySet(x: byte, mask: byte) {
    exists i: nat :: i < 8 && Bit(mask, i) && Bit(x, i)
  }

  /** `x & y` on natural numbers, one binary digit at a time. */
  function AndN(x: nat, y: nat): nat {
    if x == 0 || y == 0 then 0
    else (if x % 2 == 1 && y % 2 == 1 then 1 else 0) + 2 * AndN(x / 2, y / 2)
  }

  /** A bit of `x & y` is set exactly when it is set in both. */
  lemma {:induction false} AndNBits(x: nat, y: nat, i: nat)
    ensures BitN(AndN(x, y), i) <==> BitN(x, i) && BitN(y, i)
  {
    if x == 0 || y == 0 {
      ZeroBits(i);
    } else if i > 0 {
      assert AndN(x, y) / 2 == AndN(x / 2, y / 2);
      AndNBits(x / 2, y / 2, i - 1);
    }
  }

  /** `x & y` is at most `x`. */
  lemma {:induction false} AndNBound(x: nat, y: nat)
    ensures AndN(x, y) <= x
  {
    if x != 0 && y != 0 {
      AndNBound(x / 2, y / 2);
    }
  }

  /** A nonzero `w`-bit number has one of its `w` bits set. */
  lemma {:induction false} SomeBit(v: nat, w: nat)
    requires 0 < v < Pow2(w)
    ensures exists i: nat :: i < w && BitN(v, i)
  {
    if v % 2 == 1 {
      assert BitN(v, 0);
    } else {
      assert w > 0 && v / 2 < Pow2(w - 1);
      SomeBit(v / 2, w - 1);
      var i: nat :| i < w - 1 && BitN(v / 2, i);
      assert BitN(v, i + 1);
    }
  }

  /** C's `x & mask` is nonzero exactly when some bit is set in both, the
      property `AnySet` names. */
  lemma AndIsAnySet(x: byte, mask: byte)
    ensures AndN(x as nat, mask as nat) != 0 <==> AnySet(x, mask)
  {
    var v := AndN(x as nat, mask as nat);
    if v != 0 {
      AndNBound(x as nat, mask as nat);
      assert Pow2(8) == 256;
      SomeBit(v, 8);
      var i: nat :| i < 8 && BitN(v, i);
      AndNBits(x as nat, mask as nat, i);
      assert Bit(mask, i) && Bit(x, i);
    } else if AnySet(x, mask) {
      var i: nat :| i < 8 && Bit(mask, i) && Bit(x, i);
      AndNBits(x as nat, mask as nat, i);
      ZeroBits(i);
      assert false;
    }
  }

  /** `x & mask != 0`, bit by bit. */
  lemma AnySetBits(x: byte, mask: byte)
    ensures AnySet(x, mask) <==>
      || (Bit(mask, 0) && Bit(x, 0)) || (Bit(mask, 1) && Bit(x, 1))
      || (Bit(mask, 2) && Bit(x, 2)) || (Bit(mask, 3) && Bit(x, 3))
      || (Bit(mask, 4) && Bit(x, 4)) || (Bit(mask, 5) && Bit(x, 5))
      || (Bit(mask, 6) && Bit(x, 6)) || (Bit(mask, 7) && Bit(x, 7))
  {
    if AnySet(x, mask) {
      var i: nat :| i < 8 && Bit(mask, i) && Bit(x, i);
      assert i == 0 || i == 1 || i == 2 || i == 3 || i == 4 || i == 5 || i == 6 || i == 7;
    }
  }

  /** Zero has no bit set. */
  lemma {:induction false} ZeroBits(i: nat)
    ensures !BitN(0, i)
  {
    if i > 0 {
      ZeroBits(i - 1);
    }
  }

  /** No bit of zero is set, whatever the mask. */
  lemma ZeroNoneSet(mask: byte)
    ensures !AnySet(0, mask)
  {
    forall i: nat | i < 8
      ensures !Bit(0, i)
    {
      ZeroBits(i);
    }
  }

  /** A number is determined by its bits. */
  lemma {:induction false} SameBitsN(x: nat, y: nat, w: nat)
    requires x < Pow2(w) && y < Pow2(w)
    requires forall i: nat :: i < w ==> (BitN(x, i) <==> BitN(y, i))
    ensures x == y
  {
    if w > 0 {
      assert BitN(x, 0) <==> BitN(y, 0);
      forall i: nat | i < w - 1
        ensures BitN(x / 2, i) <==> BitN(y / 2, i)
      {
        assert BitN(x, i + 1) <==> BitN(y, i + 1);
      }
      SameBitsN(x / 2, y / 2, w - 1);
    }
  }

  /** Two bytes with the same bits are equal. */
  lemma SameBits(x: byte, y: byte)
    requires forall i: nat :: i < 8 ==> (Bit(x, i) <==> Bit(y, i))
    ensures x == y
  {
    assert Pow2(8) == 256;
    var a: nat, b: nat := x as nat, y as nat;
    forall i: nat | i < 8
      ensures BitN(a, i) <==> BitN(b, i)
    {
      assert Bit(x, i) <==> Bit(y, i);
    }
    SameBitsN(a, b, 8);
  }

  /** `n` zero bytes, as `memset(p, 0, n)` leaves them. */
  function Zeros(n: nat): (z: seq<byte>)
    ensures |z| == n && forall i :: 0 <= i < n ==> z[i] == 0
  {
    seq(n, _ => 0)
  }
}
