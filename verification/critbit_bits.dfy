/** Strings as the crit-bit tree sees them: sequences of bits, most significant bit of the first
    byte first, followed by the zero bits of the terminating NUL. */
module CritBitBits {
  import opened Bits
  import opened Bytes

  ghost predicate NulFree(s: seq<byte>) {
    forall i :: 0 <= i < |s| ==> s[i] != 0
  }

  /** A C string without its terminator. */
  type cstring = s: seq<byte> | NulFree(s) witness []

  /** The byte at `i`, or the NUL where the string has ended. */
  function ByteAt(s: seq<byte>, i: nat): byte {
    if i < |s| then s[i] else 0
  }

  /** Bit position `p` of a string: bit 7 - p % 8 of byte p / 8. */
  function BitAt(s: seq<byte>, p: nat): nat {
    Bit(ByteAt(s, p / 8), 7 - p % 8)
  }

  /** The `otherbits` label of a critical bit: all bits of the byte but that one. */
  function OtherBits(p: nat): (m: nat)
    ensures m < 255
  {
    PowerBelow(7 - p % 8);
    255 - Pow2(7 - p % 8)
  }

  lemma PowerBelow(k: nat)
    requires k < 8
    ensures Pow2(k) <= 128
    ensures k < 7 ==> 2 * Pow2(k) == Pow2(k + 1)
  {
    assert Pow2(2) == 4;
    assert Pow2(4) == 16;
    assert Pow2(6) == 64;
  }

  /** Which child to follow: carries out of the byte exactly when the masked-in byte is full. */
  function Direction(otherbits: nat, c: byte): nat {
    (1 + Or(otherbits, c)) / 256
  }

  /** A mask of ones absorbs anything narrower. */
  lemma {:induction false} OrFull(w: nat, c: nat)
    requires c < Pow2(w)
    ensures Or(Pow2(w) - 1, c) == Pow2(w) - 1
  {
    if w > 0 {
      OrFull(w - 1, c / 2);
    }
  }

  /** A mask with one hole is filled exactly when that bit is set. */
  lemma {:induction false} OrHole(w: nat, k: nat, c: nat)
    requires c < Pow2(w) && k < w
    ensures Pow2(k) <= Pow2(w) - 1 || w == 1
    ensures Pow2(k) < Pow2(w)
    ensures Or(Pow2(w) - 1 - Pow2(k), c) == if Bit(c, k) == 1 then Pow2(w) - 1 else Pow2(w) - 1 - Pow2(k)
    decreases w
  {
    if k == 0 {
      OrFull(w - 1, c / 2);
    } else {
      OrHole(w - 1, k - 1, c / 2);
    }
  }

  /** The direction taken at a node is the string's bit at the node's position. */
  lemma DirectionIsBit(s: seq<byte>, p: nat)
    ensures Direction(OtherBits(p), ByteAt(s, p / 8)) == BitAt(s, p)
  {
    PowerOfByte();
    OrHole(8, 7 - p % 8, ByteAt(s, p / 8));
    PowerBelow(7 - p % 8);
  }

  /** Labels order positions: by byte, then by descending mask bit. */
  lemma LabelsOrder(p: nat, q: nat)
    ensures q > p <==> q / 8 > p / 8 || (q / 8 == p / 8 && OtherBits(q) > OtherBits(p))
  {
    Powers(7 - p % 8, 7 - q % 8);
  }

  lemma {:induction false} Powers(i: nat, j: nat)
    ensures i < j ==> Pow2(i) < Pow2(j)
    ensures j < i ==> Pow2(j) < Pow2(i)
    decreases i
  {
    if i > 0 && j > 0 {
      Powers(i - 1, j - 1);
    }
  }

  // ---------- the label of the first difference ----------

  /** Smears the highest set bit of a byte downwards, isolates it, and inverts: the label of
      the critical bit of two bytes whose exclusive or is `x`. */
  function IsolateOthers(x: nat): nat {
    var x1 := Or(x, x / 2);
    var x2 := Or(x1, x1 / 4);
    var x3 := Or(x2, x2 / 16);
    Xor(AndNot(x3, x3 / 2), 255)
  }

  lemma SmearOne(x: nat, k: nat)
    ensures Bit(Or(x, x / 2), k) == if Bit(x, k) == 1 || Bit(x, k + 1) == 1 then 1 else 0
  {
    BitOr(x, x / 2, k);
  }

  lemma SmearTwo(x: nat, k: nat)
    ensures var x1 := Or(x, x / 2);
            Bit(Or(x1, x1 / 4), k) ==
            if Bit(x, k) == 1 || Bit(x, k + 1) == 1 || Bit(x, k + 2) == 1 || Bit(x, k + 3) == 1 then 1 else 0
  {
    var x1 := Or(x, x / 2);
    BitOr(x1, x1 / 4, k);
    ShiftedBit(x1, k);
    SmearOne(x, k);
    SmearOne(x, k + 2);
  }

  /** After the three steps a bit is set exactly when it is not above the highest set bit. */
  lemma SmearedBit(x: nat, k: nat)
    requires 0 < x < 256
    ensures var x1 := Or(x, x / 2); var x2 := Or(x1, x1 / 4); var x3 := Or(x2, x2 / 16);
            Bit(x3, k) == if k <= Log2Floor(x) then 1 else 0
  {
    var h := Log2Floor(x);
    LogOfByte(x);
    var x1 := Or(x, x / 2);
    var x2 := Or(x1, x1 / 4);
    BitOr(x2, x2 / 16, k);
    ShiftedBit(x2, k);
    SmearTwo(x, k);
    SmearTwo(x, k + 4);
    if k <= h {
      BitsAboveTop(x, h);
      assert h == k || h == k + 1 || h == k + 2 || h == k + 3
          || h == k + 4 || h == k + 5 || h == k + 6 || h == k + 7;
    } else {
      AllZeroAbove(x, k);
      assert Bit(x, k) == 0 && Bit(x, k + 1) == 0 && Bit(x, k + 2) == 0 && Bit(x, k + 3) == 0;
    }
  }

  lemma AllZeroAbove(x: nat, k: nat)
    requires x > 0 && k > Log2Floor(x)
    ensures forall j: nat :: j >= k ==> Bit(x, j) == 0
  {
    forall j: nat | j >= k
      ensures Bit(x, j) == 0
    {
      BitsAboveTop(x, j);
    }
  }

  lemma ShiftedBit(x: nat, k: nat)
    ensures Bit(x / 4, k) == Bit(x, k + 2)
    ensures Bit(x / 16, k) == Bit(x, k + 4)
  {
    assert x / 4 == x / 2 / 2;
    assert x / 16 == x / 2 / 2 / 2 / 2;
    assert Bit(x, k + 4) == Bit(x / 2, k + 3) == Bit(x / 2 / 2, k + 2);
    assert Bit(x / 2 / 2, k + 2) == Bit(x / 2 / 2 / 2, k + 1) == Bit(x / 2 / 2 / 2 / 2, k);
  }

  lemma LogOfByte(x: nat)
    requires 0 < x < 256
    ensures Log2Floor(x) < 8
  {
    if Log2Floor(x) >= 8 {
      PowerOfByte();
      Powers(8, Log2Floor(x));
    }
  }

  /** The computed label is that of the highest set bit. */
  lemma IsolateIsLabel(x: nat)
    requires 0 < x < 256
    ensures Log2Floor(x) < 8 && Pow2(Log2Floor(x)) <= 128
    ensures IsolateOthers(x) == 255 - Pow2(Log2Floor(x))
  {
    var h := Log2Floor(x);
    LogOfByte(x);
    PowerBelow(h);
    var x1 := Or(x, x / 2);
    var x2 := Or(x1, x1 / 4);
    var x3 := Or(x2, x2 / 16);
    var m := AndNot(x3, x3 / 2);
    forall k: nat
      ensures Bit(m, k) == Bit(Pow2(h), k)
    {
      SmearedBit(x, k);
      SmearedBit(x, k + 1);
      BitAndNot(x3, x3 / 2, k);
      BitOfPower(h, k);
    }
    var w := m + Pow2(h);
    NumberBelowPower(w);
    BitsDetermine(w, m, Pow2(h));
    PowerOfByte();
    XorFull(8, m);
  }

  lemma {:induction false} NumberBelowPower(n: nat)
    ensures n < Pow2(n)
  {
    if n > 0 {
      NumberBelowPower(n - 1);
    }
  }

  /** Exclusive or with a mask of ones is subtraction from it. */
  lemma {:induction false} XorFull(w: nat, m: nat)
    requires m < Pow2(w)
    ensures Xor(m, Pow2(w) - 1) == Pow2(w) - 1 - m
  {
    if w > 0 {
      XorFull(w - 1, m / 2);
    }
  }
}
