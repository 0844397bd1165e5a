/** Bitwise operations on natural numbers, defined bit by bit. */
module Bits {
  import opened Bytes

  /** Exclusive or. */
  function Xor(a: nat, b: nat): (r: nat)
    ensures a == b <==> r == 0
    decreases a + b
  {
    if a == 0 && b == 0 then 0
    else 2 * Xor(a / 2, b / 2) + (if a % 2 == b % 2 then 0 else 1)
  }

  /** Inclusive or. */
  function Or(a: nat, b: nat): (r: nat)
    decreases a + b
  {
    if a == 0 && b == 0 then 0
    else 2 * Or(a / 2, b / 2) + (if a % 2 == 0 && b % 2 == 0 then 0 else 1)
  }

  /** The number of low zero bits (the compiler's `ctz`). */
  function CountTrailingZeros(x: nat): nat
    requires x > 0
  {
    if x % 2 == 1 then 0 else 1 + CountTrailingZeros(x / 2)
  }

  /** Exclusive or works separately on the low `k` bits and on the rest. */
  lemma {:induction false} XorSplit(k: nat, a: nat, x: nat, b: nat, y: nat)
    requires x < Pow2(k) && y < Pow2(k)
    ensures Xor(a * Pow2(k) + x, b * Pow2(k) + y) == Xor(a, b) * Pow2(k) + Xor(x, y)
    ensures Xor(x, y) < Pow2(k)
  {
    hide Xor;
    if k == 0 {
      assert x == y == 0;
    } else {
      var p := Pow2(k - 1);
      XorSplit(k - 1, a, x / 2, b, y / 2);
      XorDoubled(a * p, x, b * p, y);
      DoubleProduct(a, p);
      DoubleProduct(b, p);
      DoubleProduct(Xor(a, b), p);
    }
  }

  /** One more low bit. */
  lemma XorDoubled(u: nat, x: nat, v: nat, y: nat)
    ensures Xor(2 * u + x, 2 * v + y) - Xor(x, y) == 2 * (Xor(u + x / 2, v + y / 2) - Xor(x / 2, y / 2))
    ensures Xor(x, y) <= 2 * Xor(x / 2, y / 2) + 1
  {
    hide Xor;
    XorStep(2 * u + x, 2 * v + y);
    XorStep(x, y);
  }

  lemma XorStep(x: nat, y: nat)
    ensures Xor(x, y) == 2 * Xor(x / 2, y / 2) + if x % 2 == y % 2 then 0 else 1
  {
  }

  lemma Halve(a: nat, p: nat, x: nat)
    ensures (a * (2 * p) + x) / 2 == a * p + x / 2
    ensures (a * (2 * p) + x) % 2 == x % 2
  {
    DoubleProduct(a, p);
  }

  lemma DoubleProduct(a: nat, p: nat)
    ensures a * (2 * p) == 2 * (a * p)
  {
  }

  /** Trailing zeros of a number given as a high part and `k` low bits. */
  lemma {:induction false} TrailingZerosSplit(k: nat, z: nat, w: nat)
    requires w < Pow2(k) && z * Pow2(k) + w > 0
    ensures CountTrailingZeros(z * Pow2(k) + w) ==
            if w > 0 then CountTrailingZeros(w) else if z > 0 then k + CountTrailingZeros(z) else 0
    ensures w > 0 ==> CountTrailingZeros(w) < k
  {
    if k > 0 {
      var p := Pow2(k - 1);
      Halve(z, p, w);
      if w % 2 == 0 {
        TrailingZerosSplit(k - 1, z, w / 2);
      }
    }
  }

  /** The length of the longest common prefix. */
  function CommonPrefix(a: seq<byte>, b: seq<byte>): (n: nat)
    ensures n <= |a| && n <= |b| && a[..n] == b[..n]
    ensures n < |a| && n < |b| ==> a[n] != b[n]
  {
    if a == [] || b == [] || a[0] != b[0] then 0
    else
      var n := CommonPrefix(a[1..], b[1..]);
      assert a[..n + 1] == [a[0]] + a[1..][..n] && b[..n + 1] == [b[0]] + b[1..][..n];
      1 + n
  }

  lemma PowerOfByte()
    ensures Pow2(8) == 256
  {
    assert Pow2(4) == 16;
  }

  /** The first differing bit of two little-endian words lies in their first differing byte. */
  lemma {:induction false} FirstDifference(a: seq<byte>, b: seq<byte>)
    requires |a| == |b| && a != b
    ensures Xor(LittleEndian(a), LittleEndian(b)) > 0
    ensures CountTrailingZeros(Xor(LittleEndian(a), LittleEndian(b))) / 8 == CommonPrefix(a, b)
  {
    PowerOfByte();
    var ra, rb := LittleEndian(a[1..]), LittleEndian(b[1..]);
    XorSplit(8, ra, a[0], rb, b[0]);
    var z, w := Xor(ra, rb), Xor(a[0], b[0]);
    assert Xor(LittleEndian(a), LittleEndian(b)) == z * 256 + w;
    if a[0] == b[0] {
      assert a == [a[0]] + a[1..] && b == [b[0]] + b[1..];
      FirstDifference(a[1..], b[1..]);
    }
    TrailingZerosSplit(8, z, w);
  }

  /** Different words have different numbers. */
  lemma {:induction false} LittleEndianInjective(a: seq<byte>, b: seq<byte>)
    requires |a| == |b|
    ensures LittleEndian(a) == LittleEndian(b) <==> a == b
  {
    if a != b {
      FirstDifference(a, b);
    }
  }

  // ---------- single bits ----------

  /** Bit `k` of `x`. */
  function Bit(x: nat, k: nat): (b: nat)
    ensures b <= 1
    decreases k
  {
    if k == 0 then x % 2 else Bit(x / 2, k - 1)
  }

  /** `a & ~b`. */
  function AndNot(a: nat, b: nat): (r: nat)
    decreases a
  {
    if a == 0 then 0
    else 2 * AndNot(a / 2, b / 2) + (if a % 2 == 1 && b % 2 == 0 then 1 else 0)
  }

  lemma {:induction false} BitOfZero(k: nat)
    ensures Bit(0, k) == 0
  {
    if k > 0 {
      BitOfZero(k - 1);
    }
  }

  lemma {:induction false} BitOr(a: nat, b: nat, k: nat)
    ensures Bit(Or(a, b), k) == if Bit(a, k) == 1 || Bit(b, k) == 1 then 1 else 0
    decreases k
  {
    if a == 0 && b == 0 {
      BitOfZero(k);
    } else if k > 0 {
      BitOr(a / 2, b / 2, k - 1);
    }
  }

  lemma {:induction false} BitXor(a: nat, b: nat, k: nat)
    ensures Bit(Xor(a, b), k) == if Bit(a, k) == Bit(b, k) then 0 else 1
    decreases k
  {
    if a == 0 && b == 0 {
      BitOfZero(k);
    } else if k > 0 {
      BitXor(a / 2, b / 2, k - 1);
    }
  }

  lemma {:induction false} BitAndNot(a: nat, b: nat, k: nat)
    ensures Bit(AndNot(a, b), k) == if Bit(a, k) == 1 && Bit(b, k) == 0 then 1 else 0
    decreases k
  {
    if a == 0 {
      BitOfZero(k);
    } else if k > 0 {
      BitAndNot(a / 2, b / 2, k - 1);
    }
  }

  /** A number below 2^w is determined by its low `w` bits. */
  lemma {:induction false} BitsDetermine(w: nat, a: nat, b: nat)
    requires a < Pow2(w) && b < Pow2(w)
    requires forall k :: 0 <= k < w ==> Bit(a, k) == Bit(b, k)
    ensures a == b
  {
    if w > 0 {
      assert Bit(a, 0) == Bit(b, 0);
      forall k | 0 <= k < w - 1
        ensures Bit(a / 2, k) == Bit(b / 2, k)
      {
        assert Bit(a, k + 1) == Bit(b, k + 1);
      }
      BitsDetermine(w - 1, a / 2, b / 2);
    }
  }

  /** The first difference from the top decides which number is smaller. */
  lemma {:induction false} BitsCompare(w: nat, a: nat, b: nat, k: nat)
    requires a < Pow2(w) && b < Pow2(w) && k < w
    requires forall j :: k < j < w ==> Bit(a, j) == Bit(b, j)
    requires Bit(a, k) == 0 && Bit(b, k) == 1
    ensures a < b
    decreases k
  {
    forall j | k <= j < w - 1
      ensures k < j + 1 ==> Bit(a / 2, j) == Bit(b / 2, j)
    {
      assert k < j + 1 ==> Bit(a, j + 1) == Bit(b, j + 1);
    }
    if k == 0 {
      BitsDetermine(w - 1, a / 2, b / 2);
    } else {
      BitsCompare(w - 1, a / 2, b / 2, k - 1);
    }
  }

  /** A power of two has a single bit. */
  lemma {:induction false} BitOfPower(h: nat, k: nat)
    ensures Bit(Pow2(h), k) == if k == h then 1 else 0
    decreases k
  {
    if k > 0 {
      if h == 0 {
        BitOfZero(k - 1);
      } else {
        BitOfPower(h - 1, k - 1);
      }
    }
  }

  /** The position of the highest set bit. */
  function Log2Floor(n: nat): (k: nat)
    requires n > 0
    ensures Pow2(k) <= n < 2 * Pow2(k)
  {
    if n == 1 then 0 else 1 + Log2Floor(n / 2)
  }

  lemma {:induction false} BitsAboveTop(x: nat, k: nat)
    requires x > 0 && k >= Log2Floor(x)
    ensures Bit(x, k) == if k == Log2Floor(x) then 1 else 0
    decreases x
  {
    if x == 1 {
      if k > 0 { BitOfZero(k - 1); }
    } else {
      BitsAboveTop(x / 2, k - 1);
    }
  }
}
