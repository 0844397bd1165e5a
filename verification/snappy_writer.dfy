/** The decompressor's output side: overlapping copies and the bounded writer. */
module SnappyWriter {
  import Arith
  import opened Bytes
  import opened SnappyFormat

  const MAX_INCREMENT_COPY_OVERFLOW: int := 10

  /** An unaligned 64-bit load followed by a 64-bit store. */
  method MoveWord(a: array<byte>, to: nat, from: nat)
    requires to + 8 <= a.Length && from + 8 <= a.Length
    modifies a
    ensures forall j :: to <= j < to + 8 ==> a[j] == old(a[..])[from + (j - to)]
    ensures forall j :: 0 <= j < a.Length && !(to <= j < to + 8) ==> a[j] == old(a[j])
  {
    var word := a[from..from + 8];
    forall i | 0 <= i < 8 {
      a[to + i] := word[i];
    }
  }

  /** Where byte `j` of a pattern of `offset` bytes starting at `src` comes from. */
  function PatternIndex(src: nat, offset: nat, j: nat): (k: nat)
    requires offset > 0 && src <= j
    ensures src <= k < src + offset
  {
    src + (j - src) % offset
  }

  /** The bytes from `src` up to `op` repeat with period `offset`. */
  ghost predicate Periodic(s: seq<byte>, src: nat, op: nat, offset: nat)
    requires offset > 0 && src + offset <= |s|
  {
    op <= |s| &&
    forall j {:trigger PatternIndex(src, offset, j)} :: src <= j < op ==> s[j] == s[PatternIndex(src, offset, j)]
  }

  /** A periodic run of bytes is exactly what a back-reference decodes to. */
  lemma PeriodicIsCopyBack(out: seq<byte>, s: seq<byte>, offset: nat, len: nat)
    requires 1 <= offset <= |out| && |out| + len <= |s| && s[..|out|] == out
    requires Periodic(s, |out| - offset, |out| + len, offset)
    ensures s[..|out| + len] == CopyBack(out, offset, len)
  {
    var src := |out| - offset;
    var r := CopyBack(out, offset, len);
    forall j | 0 <= j < |out| + len
      ensures s[j] == r[j]
    {
      if j < |out| {
        assert r[j] == r[..|out|][j] && s[j] == s[..|out|][j];
      } else {
        var k := j - |out|;
        CopyBackPeriodic(out, offset, len, k);
        Arith.ModShift(k, offset, offset);
        assert PatternIndex(src, offset, j) == src + k % offset;
        assert out[src + k % offset] == s[..|out|][src + k % offset];
      }
    }
  }

  /** Bytes copied a multiple of the period ahead extend the periodic run. */
  lemma PeriodicStep(s: seq<byte>, t: seq<byte>, src0: nat, src: nat, op: nat, n: nat, offset: nat)
    requires offset > 0 && src0 + offset <= op && |s| == |t|
    requires src0 <= src && src + n <= op && op + n <= |s| && (op - src) % offset == 0
    requires Periodic(s, src0, op, offset)
    requires forall j :: 0 <= j < op ==> t[j] == s[j]
    requires forall j :: op <= j < op + n ==> t[j] == s[src + (j - op)]
    ensures Periodic(t, src0, op + n, offset)
  {
    forall j | src0 <= j < op + n
      ensures t[j] == t[PatternIndex(src0, offset, j)]
    {
      var b := PatternIndex(src0, offset, j);
      assert t[b] == s[b];
      if j < op {
        assert t[j] == s[j];
      } else {
        var i := j - op;
        assert s[src + i] == s[PatternIndex(src0, offset, src + i)];
        Arith.ModShift(src + i - src0, op - src, offset);
        assert src + i - src0 + (op - src) == j - src0;
      }
    }
  }

  /** One more byte of a back-reference, at the end. */
  lemma CopyBackSnoc(out: seq<byte>, offset: nat, n: nat)
    requires 1 <= offset <= |out|
    ensures var r := CopyBack(out, offset, n); CopyBack(out, offset, n + 1) == r + [r[|r| - offset]]
  {
    CopyBackSplit(out, offset, n, 1);
    var r := CopyBack(out, offset, n);
    assert CopyBack(r, offset, 1) == CopyBack(r + [r[|r| - offset]], offset, 0);
  }

  /** Byte-at-a-time overlapping copy. */
  method IncrementalCopy(a: array<byte>, src: nat, op: nat, len: nat)
    requires src < op && 0 < len && op + len <= a.Length
    modifies a
    ensures a[..op + len] == CopyBack(old(a[..op]), op - src, len)
    ensures forall j :: op + len <= j < a.Length ==> a[j] == old(a[j])
  {
    ghost var out, offset := a[..op], op - src;
    var s, d, n := src, op, len;
    while true
      invariant 0 < n <= len && d == op + (len - n) && d - s == offset
      invariant a[..d] == CopyBack(out, offset, len - n)
      invariant forall j :: op + len <= j < a.Length ==> a[j] == old(a[j])
      decreases n
    {
      ghost var before := a[..d];
      a[d] := a[s];
      assert a[..d + 1] == before + [before[|before| - offset]];
      CopyBackSnoc(out, offset, len - n);
      s, d, n := s + 1, d + 1, n - 1;
      if n == 0 { break; }
    }
  }

  /** A word moved a multiple of the period ahead; only the first `n` bytes of it count. */
  method CopyPatternWord(a: array<byte>, ghost out: seq<byte>, ghost offset: nat, from: nat, to: nat, ghost n: nat)
    requires 1 <= offset <= |out| <= to && to + 8 <= a.Length && n <= 8
    requires |out| - offset <= from && from + n <= to && (to - from) % offset == 0
    requires a[..|out|] == out && Periodic(a[..], |out| - offset, to, offset)
    modifies a
    ensures a[..|out|] == out && Periodic(a[..], |out| - offset, to + n, offset)
    ensures forall j :: to + 8 <= j < a.Length ==> a[j] == old(a[j])
  {
    ghost var before := a[..];
    MoveWord(a, to, from);
    assert a[..|out|] == before[..|out|];
    PeriodicStep(before, a[..], |out| - offset, from, to, n, offset);
  }

  /** First loop of the fast path: doubles the distance until a whole word fits. */
  method DoublePattern(a: array<byte>, src: nat, op: nat, len: nat) returns (d: nat, n: int)
    requires src < op && 0 < len && op + len + MAX_INCREMENT_COPY_OVERFLOW <= a.Length
    modifies a
    ensures op <= d && n == len - (d - op) && d - src >= 8 && (d - src) % (op - src) == 0
    ensures d <= op + len + MAX_INCREMENT_COPY_OVERFLOW && (n > 0 ==> d < op + len)
    ensures a[..op] == old(a[..op]) && Periodic(a[..], src, d, op - src)
    ensures forall j :: op + len + MAX_INCREMENT_COPY_OVERFLOW <= j < a.Length ==> a[j] == old(a[j])
  {
    ghost var out, offset := a[..op], op - src;
    ghost var q := 1;
    d, n := op, len;
    BaseIsPeriodic(a[..], src, op);
    while d - src < 8
      invariant n == len - (d - op) && op <= d <= op + len + MAX_INCREMENT_COPY_OVERFLOW
      invariant (q == 1 || q == 2 || q == 4 || q == 8) && d - src == q * offset
      invariant a[..op] == out && Periodic(a[..], src, d, offset)
      invariant forall j :: op + len + MAX_INCREMENT_COPY_OVERFLOW <= j < a.Length ==> a[j] == old(a[j])
      decreases 8 - (d - src)
    {
      Arith.DivModUnique(d - src, offset, q, 0);
      CopyPatternWord(a, out, offset, src, d, d - src);
      n := n - (d - src);
      d := d + (d - src);
      q := 2 * q;
    }
    Arith.DivModUnique(d - src, offset, q, 0);
  }

  /** Before anything is copied the pattern is the last `op - src` bytes themselves. */
  lemma BaseIsPeriodic(s: seq<byte>, src: nat, op: nat)
    requires src < op <= |s|
    ensures Periodic(s, src, op, op - src)
  {
    forall j | src <= j < op
      ensures s[j] == s[PatternIndex(src, op - src, j)]
    {
      Arith.DivModUnique(j - src, op - src, 0, j - src);
    }
  }

  /** The word-at-a-time copy: while source and destination are less than a word apart the
      pattern is doubled in place, then whole words are copied. It may write up to ten bytes
      past the end, and the first `len` bytes are those of the byte-at-a-time copy. */
  method IncrementalCopyFastPath(a: array<byte>, src: nat, op: nat, len: nat)
    requires src < op && 0 < len && op + len + MAX_INCREMENT_COPY_OVERFLOW <= a.Length
    modifies a
    ensures a[..op + len] == CopyBack(old(a[..op]), op - src, len)
    ensures forall j :: op + len + MAX_INCREMENT_COPY_OVERFLOW <= j < a.Length ==> a[j] == old(a[j])
  {
    ghost var out, offset := a[..op], op - src;
    var s := src;
    var d, n := DoublePattern(a, src, op, len);
    while n > 0
      invariant n == len - (d - op) && op <= d && src <= s && 8 <= d - s && (d - s) % offset == 0
      invariant d <= op + len + MAX_INCREMENT_COPY_OVERFLOW && (n > 0 ==> d < op + len)
      invariant a[..op] == out && Periodic(a[..], src, d, offset)
      invariant forall j :: op + len + MAX_INCREMENT_COPY_OVERFLOW <= j < a.Length ==> a[j] == old(a[j])
    {
      CopyPatternWord(a, out, offset, s, d, 8);
      s, d, n := s + 8, d + 8, n - 8;
    }
    PeriodicIsCopyBack(out, a[..], offset, len);
    assert a[..op + len] == a[..][..op + len];
  }

  /** Two word moves copy up to sixteen bytes correctly as soon as the offset is at least a
      word, even when the second load reads what the first store wrote. */
  method CopyTwoWords(a: array<byte>, op: nat, offset: nat, len: nat)
    requires 8 <= offset <= op && len <= 16 && op + 16 <= a.Length
    modifies a
    ensures a[..op + len] == CopyBack(old(a[..op]), offset, len)
    ensures forall j :: op + 16 <= j < a.Length ==> a[j] == old(a[j])
  {
    ghost var out := a[..op];
    BaseIsPeriodic(a[..], op - offset, op);
    Arith.DivModUnique(offset, offset, 1, 0);
    CopyPatternWord(a, out, offset, op - offset, op, 8);
    CopyPatternWord(a, out, offset, op - offset + 8, op + 8, 8);
    PeriodicIsCopyBack(out, a[..], offset, len);
    assert a[..op + len] == a[..][..op + len];
  }

  /** Output of the decompressor: everything below `op` is decoded; bytes between `op` and
      `opLimit` are scratch space that overshooting writes may use. */
  class Writer {
    const base: array<byte>
    var op: nat
    var opLimit: nat

    ghost predicate Valid()
      reads this
    {
      op <= opLimit <= base.Length && opLimit < TWO_31
    }

    ghost function Output(): seq<byte>
      requires Valid()
      reads this, base
    {
      base[..op]
    }

    constructor (out: array<byte>)
      ensures base == out && op == 0 && opLimit == 0
    {
      base, op, opLimit := out, 0, 0;
    }

    method SetExpectedLength(len: nat)
      requires Valid() && op + len <= base.Length && op + len < TWO_31
      modifies `opLimit
      ensures Valid() && opLimit == op + len && Output() == old(Output())
    {
      opLimit := op + len;
    }

    predicate CheckLength()
      reads this
    {
      op == opLimit
    }

    /** Appends a copy of `len` bytes starting `offset` bytes back; fails exactly when the offset
        does not point into the output or the copy does not fit. */
    method AppendFromSelf(offset: nat, len: nat) returns (ok: bool)
      requires Valid() && 0 < len <= 64 && offset < TWO_32
      modifies `op, base
      ensures Valid()
      ensures ok == (1 <= offset <= |old(Output())| && old(op) + len <= opLimit)
      ensures Output() == if ok then CopyBack(old(Output()), offset, len) else old(Output())
      ensures forall j :: opLimit <= j < base.Length ==> base[j] == old(base[j])
    {
      hide CopyBack;
      var spaceLeft := opLimit - op;
      // `offset - 1` wraps around in a 32-bit word, so offset 0 fails too
      if op <= (offset - 1) % TWO_32 {
        return false;
      }
      if len <= 16 && offset >= 8 && spaceLeft >= 16 {
        CopyTwoWords(base, op, offset, len);
      } else if spaceLeft >= len + MAX_INCREMENT_COPY_OVERFLOW {
        IncrementalCopyFastPath(base, op - offset, op, len);
      } else {
        if spaceLeft < len {
          return false;
        }
        IncrementalCopy(base, op - offset, op, len);
      }
      op := op + len;
      return true;
    }

    /** Appends the first `len` of the bytes at `src`; fails exactly when they do not fit. */
    method Append(src: seq<byte>, len: nat) returns (ok: bool)
      requires Valid() && len <= |src|
      modifies `op, base
      ensures Valid()
      ensures ok == (old(op) + len <= opLimit)
      ensures Output() == if ok then old(Output()) + src[..len] else old(Output())
      ensures forall j :: opLimit <= j < base.Length ==> base[j] == old(base[j])
    {
      var spaceLeft := opLimit - op;
      if spaceLeft < len {
        return false;
      }
      forall i | 0 <= i < len {
        base[op + i] := src[i];
      }
      op := op + len;
      return true;
    }

    /** Copies sixteen bytes when both sides have room for them, whatever `len` is. */
    method TryFastAppend(src: seq<byte>, available: nat, len: nat) returns (ok: bool)
      requires Valid() && available <= |src| && 0 < len
      modifies `op, base
      ensures Valid()
      ensures ok == (len <= 16 && available >= 16 && opLimit - old(op) >= 16)
      ensures Output() == if ok then old(Output()) + src[..len] else old(Output())
      ensures forall j :: opLimit <= j < base.Length ==> base[j] == old(base[j])
    {
      var spaceLeft := opLimit - op;
      if len <= 16 && available >= 16 && spaceLeft >= 16 {
        forall i | 0 <= i < 16 {
          base[op + i] := src[i];
        }
        op := op + len;
        return true;
      }
      return false;
    }
  }
}
