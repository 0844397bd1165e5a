/** Bytes, little-endian words and a plain option type, shared by every component. */
module Bytes {
  datatype Option<+T> = None | Some(value: T)

  type byte = x: int | 0 <= x < 256

  const TWO_32: int := 0x1_0000_0000
  const TWO_31: int := 0x8000_0000

  const SLASH: byte := 47

  function Min(a: int, b: int): int {
    if a < b then a else b
  }

  /** The number whose little-endian representation is `s`. */
  function LittleEndian(s: seq<byte>): (v: nat) {
    if |s| == 0 then 0 else s[0] + 256 * LittleEndian(s[1..])
  }

  function Pow2(n: nat): (p: nat)
    ensures p > 0
  {
    if n == 0 then 1 else 2 * Pow2(n - 1)
  }

  function Pow256(n: nat): (p: nat)
    ensures p > 0
  {
    if n == 0 then 1 else 256 * Pow256(n - 1)
  }

  /** The first `n` bytes are the low part of a little-endian number. */
  lemma {:induction false} LittleEndianSplit(s: seq<byte>, n: nat)
    requires n <= |s|
    ensures LittleEndian(s) == LittleEndian(s[n..]) * Pow256(n) + LittleEndian(s[..n])
    ensures LittleEndian(s[..n]) < Pow256(n)
  {
    if n > 0 {
      LittleEndianSplit(s[1..], n - 1);
      assert s[..n][1..] == s[1..][..n - 1];
      assert s[1..][n - 1..] == s[n..];
      Regroup(s[0], LittleEndian(s[n..]), Pow256(n - 1), LittleEndian(s[1..][..n - 1]));
    } else {
      assert s[0..] == s;
    }
  }

  lemma Regroup(low: int, high: int, p: int, mid: int)
    ensures low + 256 * (high * p + mid) == high * (256 * p) + (low + 256 * mid)
  {
  }

  lemma SplitAt<T>(s: seq<T>, a: nat, b: nat)
    requires a <= b <= |s|
    ensures s[a..b] + s[b..] == s[a..]
  {
  }

  lemma PrefixExtend<T>(s: seq<T>, a: nat, b: nat)
    requires a <= b <= |s|
    ensures s[..a] + s[a..b] == s[..b]
  {
  }

  /** A slice of a slice, element by element. */
  lemma SubSlice<T>(s: seq<T>, from: nat, to: nat, i: nat, j: nat)
    requires from <= to <= |s| && i <= j && from + j <= to
    ensures s[from..to][i..j] == s[from + i..from + j]
  {
    var x, y := s[from..to][i..j], s[from + i..from + j];
    forall k | 0 <= k < |x|
      ensures x[k] == y[k]
    {
      assert s[from..to][i + k] == s[from + (i + k)];
    }
  }

  /** Two adjacent slices are one slice. */
  lemma SliceJoin<T>(s: seq<T>, from: nat, mid: nat, to: nat)
    requires from <= mid <= to <= |s|
    ensures s[from..mid] + s[mid..to] == s[from..to]
  {
    var x, y := s[from..mid] + s[mid..to], s[from..to];
    forall k | 0 <= k < |x|
      ensures x[k] == y[k]
    {
      assert y[k] == s[from + k];
    }
  }

  lemma SliceExtend<T>(s: seq<T>, from: nat, mid: nat, to: nat, n: nat)
    requires from <= mid && mid + n <= to <= |s|
    ensures s[from..mid + n] == s[from..mid] + s[mid..to][..n]
  {
    SubSlice(s, mid, to, 0, n);
    SliceJoin(s, from, mid, mid + n);
  }

  /** Taking from and dropping from a concatenation, within its first part. */
  lemma ConcatSlices<T>(a: seq<T>, b: seq<T>, n: nat)
    requires n <= |a|
    ensures (a + b)[..n] == a[..n] && (a + b)[n..] == a[n..] + b
  {
  }
}
