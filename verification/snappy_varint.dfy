/** Writing and parsing the 32-bit varint of the length preamble. */
module SnappyVarint {
  import Arith
  import opened Bytes
  import opened SnappyFormat

  const MAX_VARINT_BYTES: int := 5

  /** The base-128 representation, least significant group first. */
  function Varint(v: nat): (s: seq<byte>)
    ensures |s| > 0
  {
    if v < 128 then [v] else [128 + v % 128] + Varint(v / 128)
  }

  /** Straight-line encoder: one branch per length. */
  method VarintEncode32(sptr: array<byte>, v: nat) returns (n: nat)
    requires sptr.Length >= MAX_VARINT_BYTES && v < TWO_32
    modifies sptr
    ensures n <= MAX_VARINT_BYTES && sptr[..n] == Varint(v)
  {
    if v < 0x80 {
      sptr[0] := v;
      n := 1;
    } else if v < 0x4000 {
      sptr[0] := v % 128 + 128;
      sptr[1] := v / 0x80;
      n := 2;
    } else if v < 0x20_0000 {
      sptr[0] := v % 128 + 128;
      sptr[1] := v / 0x80 % 128 + 128;
      sptr[2] := v / 0x4000;
      n := 3;
    } else if v < 0x1000_0000 {
      sptr[0] := v % 128 + 128;
      sptr[1] := v / 0x80 % 128 + 128;
      sptr[2] := v / 0x4000 % 128 + 128;
      sptr[3] := v / 0x20_0000;
      n := 4;
    } else {
      sptr[0] := v % 128 + 128;
      sptr[1] := v / 0x80 % 128 + 128;
      sptr[2] := v / 0x4000 % 128 + 128;
      sptr[3] := v / 0x20_0000 % 128 + 128;
      sptr[4] := v / 0x1000_0000;
      n := 5;
    }
    QuotientsBy128(v, 0x80);
    QuotientsBy128(v, 0x4000);
    QuotientsBy128(v, 0x20_0000);
    VarintGroups(v, v / 0x80, v / 0x4000, v / 0x20_0000, v / 0x1000_0000);
  }

  lemma QuotientsBy128(v: nat, p: nat)
    requires p > 0
    ensures v / p / 128 == v / (128 * p)
    ensures v < 128 * p <==> v / p < 128
  {
    var q := v / p;
    assert v == q * p + v % p;
    assert q == q / 128 * 128 + q % 128;
    Nest(q / 128, q % 128, p, v % p);
    Arith.DivModUnique(v, 128 * p, q / 128, q % 128 * p + v % p);
  }

  lemma Nest(a: nat, b: nat, p: nat, c: nat)
    requires b < 128 && c < p
    ensures (a * 128 + b) * p + c == a * (128 * p) + (b * p + c)
    ensures b * p + c < 128 * p
    ensures a > 0 ==> a * (128 * p) >= 128 * p
  {
    assert b * p <= 127 * p;
  }

  /** A 32-bit number takes at most five groups, and the fifth has at most four bits. */
  lemma VarintSize(v: nat)
    requires v < TWO_32
    ensures |Varint(v)| <= MAX_VARINT_BYTES
    ensures |Varint(v)| == 5 ==> Varint(v)[4] < 16
  {
    var v1 := v / 128;
    assert v1 < 0x200_0000;
    var v2 := v1 / 128;
    assert v2 < 0x4_0000;
    var v3 := v2 / 128;
    assert v3 < 0x800;
    var v4 := v3 / 128;
    VarintGroups(v, v1, v2, v3, v4);
  }

  lemma VarintGroups(v: nat, v1: nat, v2: nat, v3: nat, v4: nat)
    requires v1 == v / 128 && v2 == v1 / 128 && v3 == v2 / 128 && v4 == v3 / 128 && v4 < 128
    ensures v < 128 ==> Varint(v) == [v]
    ensures v >= 128 > v1 ==> Varint(v) == [v % 128 + 128, v1]
    ensures v1 >= 128 > v2 ==> Varint(v) == [v % 128 + 128, v1 % 128 + 128, v2]
    ensures v2 >= 128 > v3 ==> Varint(v) == [v % 128 + 128, v1 % 128 + 128, v2 % 128 + 128, v3]
    ensures v3 >= 128 ==> Varint(v) == [v % 128 + 128, v1 % 128 + 128, v2 % 128 + 128, v3 % 128 + 128, v4]
  {
    VarintStep(v);
    VarintStep(v1);
    VarintStep(v2);
    VarintStep(v3);
    VarintStep(v4);
  }

  lemma VarintStep(v: nat)
    ensures Varint(v) == if v < 128 then [v] else [v % 128 + 128] + Varint(v / 128)
  {
  }

  /** Parser used by the public length query: five unrolled steps that never read at or beyond
      the end and refuse a fifth byte with more than four significant bits. */
  function VarintParse32(s: seq<byte>): Option<Preamble> {
    if |s| == 0 then None
    else
      var r0 := s[0] % 128;
      if s[0] < 128 then Some(Preamble(r0, 1))
      else if |s| == 1 then None
      else
        var r1 := r0 + s[1] as int % 128 * 0x80;
        if s[1] < 128 then Some(Preamble(r1, 2))
        else if |s| == 2 then None
        else
          var r2 := r1 + s[2] as int % 128 * 0x4000;
          if s[2] < 128 then Some(Preamble(r2, 3))
          else if |s| == 3 then None
          else
            var r3 := r2 + s[3] as int % 128 * 0x20_0000;
            if s[3] < 128 then Some(Preamble(r3, 4))
            else if |s| == 4 then None
            else
              var r4 := r3 + s[4] as int % 128 * 0x1000_0000;
              if s[4] < 16 then Some(Preamble(r4, 5)) else None
  }

  lemma PowersOf128(n: nat)
    ensures Pow2(n + 7) == 128 * Pow2(n)
    ensures Pow2(0) == 1 && Pow2(7) == 0x80 && Pow2(14) == 0x4000 && Pow2(21) == 0x20_0000 && Pow2(28) == 0x1000_0000
  {
    assert Pow2(n + 7) == 2 * Pow2(n + 6);
    assert Pow2(n + 5) == 2 * Pow2(n + 4);
    assert Pow2(n + 3) == 2 * Pow2(n + 2);
    assert Pow2(n + 1) == 2 * Pow2(n);
    assert Pow2(7) == 0x80;
    assert Pow2(14) == 0x4000;
    assert Pow2(21) == 0x20_0000;
    assert Pow2(28) == 0x1000_0000;
  }

  /** The two readers of the preamble agree except on a five-byte preamble whose last byte has
      more than four significant bits: the parser refuses it, the decompressor truncates it. */
  lemma ReadersAgree(s: seq<byte>)
    ensures var p := ReadPreamble(s, 0);
            VarintParse32(s) == if p.Some? && p.value.size == 5 && s[4] >= 16 then None else p
  {
    PowersOf128(0);
    if |s| > 0 {
      GroupAt(s, 0, 1);
      var s1 := s[1..];
      if |s1| > 0 {
        GroupAt(s1, 7, 0x80);
        var s2 := s1[1..];
        if |s2| > 0 {
          GroupAt(s2, 14, 0x4000);
          var s3 := s2[1..];
          if |s3| > 0 {
            GroupAt(s3, 21, 0x20_0000);
            var s4 := s3[1..];
            if |s4| > 0 {
              GroupAt(s4, 28, 0x1000_0000);
              assert s1[0] == s[1] && s2[0] == s[2] && s3[0] == s[3] && s4[0] == s[4];
            }
          }
        }
      }
    }
  }

  lemma GroupAt(s: seq<byte>, shift: nat, p: nat)
    requires s != [] && shift < 32 && p == Pow2(shift)
    ensures ReadPreamble(s, shift) ==
            if s[0] < 128 then Some(Preamble(s[0] as int % 128 * p, 1))
            else match ReadPreamble(s[1..], shift + 7)
              case None => None
              case Some(q) => Some(Preamble(s[0] as int % 128 * p + q.number, q.size + 1))
  {
  }

  /** Reading back what was written, wherever in the number the reader is. */
  lemma {:induction false} VarintReads(v: nat, shift: nat, rest: seq<byte>)
    requires shift + 7 * (|Varint(v)| - 1) < 32
    ensures ReadPreamble(Varint(v) + rest, shift) == Some(Preamble(v * Pow2(shift), |Varint(v)|))
    decreases v
  {
    if v >= 128 {
      VarintReads(v / 128, shift + 7, rest);
      assert (Varint(v) + rest)[1..] == Varint(v / 128) + rest;
      PowersOf128(shift);
      Regroup128(v, Pow2(shift));
    }
  }

  lemma Regroup128(v: nat, p: nat)
    ensures v % 128 * p + v / 128 * (128 * p) == v * p
  {
    assert v == v % 128 + v / 128 * 128;
  }

  /** Both readers recover a 32-bit number from its varint, whatever follows it. */
  lemma VarintRoundTrip(v: nat, rest: seq<byte>)
    requires v < TWO_32
    ensures |Varint(v)| <= MAX_VARINT_BYTES
    ensures ReadPreamble(Varint(v) + rest, 0) == Some(Preamble(v, |Varint(v)|))
    ensures VarintParse32(Varint(v) + rest) == Some(Preamble(v, |Varint(v)|))
  {
    VarintSize(v);
    VarintReads(v, 0, rest);
    ReadersAgree(Varint(v) + rest);
    assert |Varint(v)| == 5 ==> (Varint(v) + rest)[4] == Varint(v)[4];
  }
}
