/** Unsigned machine numbers as bounded naturals, and the bitwise operators of C on them. */
module Bytes {

  type Byte = b: int | 0 <= b < 0x100
  type Word = w: int | 0 <= w < 0x1_0000

  /** `x ^ y`, low bit first. */
  function BitXor(x: nat, y: nat): (r: nat)
    decreases x + y
  {
    if x == 0 && y == 0 then 0
    else 2 * BitXor(x / 2, y / 2) + (if x % 2 == y % 2 then 0 else 1)
  }

  /** `x | y`, low bit first. */
  function BitOr(x: nat, y: nat): (r: nat)
    decreases x + y
  {
    if x == 0 && y == 0 then 0
    else 2 * BitOr(x / 2, y / 2) + (if x % 2 == 0 && y % 2 == 0 then 0 else 1)
  }

  /** The n low bits of x, least significant first. */
  function LowBits(x: nat, n: nat): (bits: seq<bool>)
    ensures |bits| == n
    decreases n, x
  {
    if n == 0 then [] else [x % 2 == 1] + LowBits(x / 2, n - 1)
  }

  function Pow2(n: nat): nat {
    if n == 0 then 1 else 2 * Pow2(n - 1)
  }

  /** `x << n` */
  function Shl(x: nat, n: nat): nat
    decreases n, x
  {
    if n == 0 then x else 2 * Shl(x, n - 1)
  }

  lemma {:induction false} BitXorBound(x: nat, y: nat, n: nat)
    requires x < Pow2(n) && y < Pow2(n)
    ensures BitXor(x, y) < Pow2(n)
    decreases n
  {
    if n > 0 && !(x == 0 && y == 0) {
      BitXorBound(x / 2, y / 2, n - 1);
    }
  }

  lemma {:induction false} LowBitsInjective(x: nat, y: nat, n: nat)
    requires x < Pow2(n) && y < Pow2(n)
    requires LowBits(x, n) == LowBits(y, n)
    ensures x == y
    decreases n
  {
    if n > 0 {
      var p, q := LowBits(x, n), LowBits(y, n);
      assert p[0] == q[0] && p[1..] == q[1..];
      LowBitsInjective(x / 2, y / 2, n - 1);
    }
  }

  lemma {:induction false} LowBitsOfXor(x: nat, y: nat, n: nat)
    ensures forall i :: 0 <= i < n ==> LowBits(BitXor(x, y), n)[i] == (LowBits(x, n)[i] != LowBits(y, n)[i])
    decreases n
  {
    if n > 0 {
      LowBitsOfXor(x / 2, y / 2, n - 1);
      assert BitXor(x, y) / 2 == BitXor(x / 2, y / 2);
      assert BitXor(x, y) % 2 == (if x % 2 == y % 2 then 0 else 1);
    }
  }

  /** Halving drops the low bit and brings in a zero at the top. */
  lemma {:induction false} LowBitsOfHalf(x: nat, n: nat)
    requires n > 0 && x < Pow2(n)
    ensures LowBits(x / 2, n) == LowBits(x, n)[1..] + [false]
    decreases n
  {
    if n > 1 {
      LowBitsOfHalf(x / 2, n - 1);
    } else {
      assert LowBits(x / 2, 1)[0] == false;
    }
  }

  lemma {:induction false} LowBitsOfAllOnes(x: nat, n: nat)
    requires x + 1 == Pow2(n)
    ensures LowBits(x, n) == seq(n, i => true)
    decreases n
  {
    if n > 0 {
      LowBitsOfAllOnes(x / 2, n - 1);
      assert seq(n, i => true) == [true] + seq(n - 1, i => true);
    }
  }

  lemma {:induction false} LowBitsOfShl(x: nat, n: nat, k: nat)
    ensures LowBits(Shl(x, k), k + n) == seq(k, i => false) + LowBits(x, n)
    decreases k
  {
    if k > 0 {
      LowBitsOfShl(x, n, k - 1);
      assert seq(k, i => false) == [false] + seq(k - 1, i => false);
    }
  }

  lemma {:induction false} BitOrZero(x: nat)
    ensures BitOr(x, 0) == x
  {
    if x > 0 {
      BitOrZero(x / 2);
    }
  }

  lemma BitOrDouble(x: nat, low: nat)
    ensures BitOr(2 * x, low) == 2 * BitOr(x, low / 2) + low % 2
  {
  }

  lemma {:induction false} BitOrAbove(x: nat, low: nat, n: nat)
    requires low < Pow2(n)
    ensures BitOr(Shl(x, n), low) == Shl(x, n) + low
    decreases n
  {
    if n == 0 {
      BitOrZero(x);
    } else {
      BitOrDouble(Shl(x, n - 1), low);
      BitOrAbove(x, low / 2, n - 1);
    }
  }

  lemma ShlByWidth(x: nat)
    ensures Pow2(4) == 0x10 && Shl(x, 4) == 0x10 * x
    ensures Pow2(8) == 0x100 && Shl(x, 8) == 0x100 * x
  {
    assert Shl(x, 1) == 2 * x && Shl(x, 2) == 4 * x;
    assert Shl(x, 3) == 8 * x && Shl(x, 4) == 0x10 * x;
    assert Shl(x, 5) == 0x20 * x && Shl(x, 6) == 0x40 * x;
    assert Shl(x, 7) == 0x80 * x;
  }

  /** Combining two hexadecimal digits. */
  lemma BitOrNibbles(h: nat, l: nat)
    requires l < 0x10
    ensures BitOr(0x10 * h, l) == 0x10 * h + l
  {
    ShlByWidth(h);
    BitOrAbove(h, l, 4);
  }

  lemma {:induction false} BitXorCommutes(x: nat, y: nat)
    ensures BitXor(x, y) == BitXor(y, x)
    decreases x + y
  {
    if x > 0 || y > 0 {
      BitXorCommutes(x / 2, y / 2);
    }
  }

  lemma {:induction false} BitXorInjective(x: nat, y: nat, z: nat)
    requires BitXor(x, y) == BitXor(x, z)
    ensures y == z
    decreases x + y + z
  {
    if x > 0 || y > 0 || z > 0 {
      assert BitXor(x, y) == 2 * BitXor(x / 2, y / 2) + (if x % 2 == y % 2 then 0 else 1) by {
        if x == 0 && y == 0 {
          assert BitXor(0, 0) == 0;
        }
      }
      assert BitXor(x, z) == 2 * BitXor(x / 2, z / 2) + (if x % 2 == z % 2 then 0 else 1) by {
        if x == 0 && z == 0 {
          assert BitXor(0, 0) == 0;
        }
      }
      BitXorInjective(x / 2, y / 2, z / 2);
    }
  }

  lemma BitXorByte(x: Byte, y: Byte)
    ensures BitXor(x, y) < 0x100
  {
    ShlByWidth(0);
    BitXorBound(x, y, 8);
  }

  lemma {:induction false} BitOrBound(x: nat, y: nat, n: nat)
    requires x < Pow2(n) && y < Pow2(n)
    ensures BitOr(x, y) < Pow2(n)
    decreases n
  {
    if n > 0 && !(x == 0 && y == 0) {
      BitOrBound(x / 2, y / 2, n - 1);
    }
  }

  lemma BitOrByte(x: Byte, y: Byte)
    ensures BitOr(x, y) < 0x100
  {
    ShlByWidth(0);
    BitOrBound(x, y, 8);
  }
}
