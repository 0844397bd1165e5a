/** Decimal numbers as they are printed. */
module Decimal {
  import opened Bytes

  function Digits(n: nat): (s: seq<byte>)
    ensures |s| > 0 && forall i :: 0 <= i < |s| ==> 48 <= s[i] < 58
  {
    if n < 10 then [48 + n] else Digits(n / 10) + [48 + n % 10]
  }

  /** The decimal representation of a revision number. */
  function Itoa(n: int): seq<byte> {
    if n < 0 then [45] + Digits(-n) else Digits(n)
  }

  /** Decimal digits, the most significant first, behind a minus sign for a negative number. */
  lemma DecimalExact(n: nat, d: nat)
    requires d < 10
    ensures Itoa(d) == [48 + d] && Itoa(10 * (n + 1) + d) == Itoa(n + 1) + [48 + d]
    ensures Itoa(0 - n - 1) == [45] + Itoa(n + 1)
  {
  }

  lemma {:induction false} DigitsInjective(a: nat, b: nat)
    requires Digits(a) == Digits(b)
    ensures a == b
  {
    var da, db := Digits(a), Digits(b);
    assert da[|da| - 1] == 48 + a % 10 && db[|db| - 1] == 48 + b % 10;
    if a >= 10 && b >= 10 {
      assert da[..|da| - 1] == Digits(a / 10) && db[..|db| - 1] == Digits(b / 10);
      DigitsInjective(a / 10, b / 10);
    }
  }

  /** Different revisions have different keys. */
  lemma ItoaInjective(a: int, b: int)
    ensures Itoa(a) == Itoa(b) <==> a == b
  {
    assert Itoa(a)[0] == 45 <==> a < 0;
    assert Itoa(b)[0] == 45 <==> b < 0;
    if Itoa(a) == Itoa(b) {
      if a < 0 && b < 0 {
        assert Itoa(a)[1..] == Digits(-a) && Itoa(b)[1..] == Digits(-b);
        DigitsInjective(-a, -b);
      } else if a >= 0 && b >= 0 {
        DigitsInjective(a, b);
      }
    }
  }
}
