/** Word-wise match finding of the compressor. */
module SnappyMatch {
  import opened Bits
  import opened Bytes

  function Load32(input: seq<byte>, p: nat): nat
    requires p + 4 <= |input|
  {
    LittleEndian(input[p..p + 4])
  }

  function Load64(input: seq<byte>, p: nat): nat
    requires p + 8 <= |input|
  {
    LittleEndian(input[p..p + 8])
  }

  /** Compares a word at a time, then locates the first difference within a word by counting
      trailing zero bits, or finishes byte by byte near the limit. The result is the length of
      the longest match that stays below the limit. */
  method FindMatchLength(input: seq<byte>, s1: nat, s2: nat, s2Limit: nat) returns (matched: nat)
    requires s1 < s2 <= s2Limit <= |input|
    ensures matched == CommonPrefix(input[s1..s1 + (s2Limit - s2)], input[s2..s2Limit])
  {
    ghost var a, b := input[s1..s1 + (s2Limit - s2)], input[s2..s2Limit];
    matched := 0;
    var q := s2;
    while q + 8 <= s2Limit
      invariant q == s2 + matched && q <= s2Limit
      invariant a[..matched] == b[..matched]
    {
      SubSlice(input, s1, s1 + (s2Limit - s2), matched, matched + 8);
      SubSlice(input, s2, s2Limit, matched, matched + 8);
      if Load64(input, q) == Load64(input, s1 + matched) {
        WordMatch(a, b, matched);
        q := q + 8;
        matched := matched + 8;
      } else {
        WordMismatch(a, b, matched);
        var x := Xor(Load64(input, q), Load64(input, s1 + matched));
        var matchingBits := CountTrailingZeros(x);
        matched := matched + matchingBits / 8;
        return;
      }
    }
    while q < s2Limit
      invariant q == s2 + matched && q <= s2Limit
      invariant a[..matched] == b[..matched]
    {
      assert input[s1 + matched] == a[matched] && input[q] == b[matched];
      if input[s1 + matched] == input[q] {
        q := q + 1;
        matched := matched + 1;
      } else {
        LongestPrefix(a, b, matched);
        return;
      }
    }
    LongestPrefix(a, b, matched);
  }

  /** Equal words extend a match by eight bytes. */
  lemma WordMatch(a: seq<byte>, b: seq<byte>, n: nat)
    requires n + 8 <= |a| == |b| && a[..n] == b[..n]
    requires LittleEndian(a[n..n + 8]) == LittleEndian(b[n..n + 8])
    ensures a[..n + 8] == b[..n + 8]
  {
    LittleEndianInjective(a[n..n + 8], b[n..n + 8]);
    PrefixExtend(a, n, n + 8);
    PrefixExtend(b, n, n + 8);
  }

  /** Different words end a match at their first differing byte. */
  lemma WordMismatch(a: seq<byte>, b: seq<byte>, n: nat)
    requires n + 8 <= |a| == |b| && a[..n] == b[..n]
    requires LittleEndian(a[n..n + 8]) != LittleEndian(b[n..n + 8])
    ensures var x := Xor(LittleEndian(b[n..n + 8]), LittleEndian(a[n..n + 8]));
            x > 0 && CommonPrefix(a, b) == n + CountTrailingZeros(x) / 8
  {
    hide LittleEndian, Xor, CountTrailingZeros, CommonPrefix;
    var w1, w2 := a[n..n + 8], b[n..n + 8];
    FirstDifference(w2, w1);
    var k := CommonPrefix(w2, w1);
    assert w1[..8] == w1 && w2[..8] == w2;
    SliceExtend(a, 0, n, n + 8, k);
    SliceExtend(b, 0, n, n + 8, k);
    assert a[n + k] == w1[k] && b[n + k] == w2[k];
    LongestPrefix(a, b, n + k);
  }

  /** A common prefix that cannot be extended is the longest one. */
  lemma LongestPrefix(a: seq<byte>, b: seq<byte>, n: nat)
    requires n <= |a| == |b| && a[..n] == b[..n] && (n < |a| ==> a[n] != b[n])
    ensures CommonPrefix(a, b) == n
  {
    var m := CommonPrefix(a, b);
    forall i | 0 <= i < m
      ensures a[i] == b[i]
    {
      assert a[..m][i] == b[..m][i];
    }
    forall i | 0 <= i < n
      ensures a[i] == b[i]
    {
      assert a[..n][i] == b[..n][i];
    }
  }
}
