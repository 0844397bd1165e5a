/** The software-pipelined word-wise memory comparison. */
module MemoryCompare {
  import Arith
  import opened Bits
  import opened Bytes

  const OP_T_THRES: int := 16
  const WORD: int := 0x1_0000_0000_0000_0000

  // ---------- meaning ----------

  /** Byte-by-byte comparison: the difference of the first differing bytes, or 0. */
  function ByteCompare(a: seq<byte>, b: seq<byte>): int
    requires |a| == |b|
  {
    if a == [] then 0
    else if a[0] != b[0] then a[0] as int - b[0] as int
    else ByteCompare(a[1..], b[1..])
  }

  /** `a` comes before `b` in the lexicographic order of unsigned bytes. */
  ghost predicate LexLess(a: seq<byte>, b: seq<byte>)
    requires |a| == |b|
  {
    exists k :: 0 <= k < |a| && a[k] < b[k] && a[..k] == b[..k]
  }

  /** The sign of the comparison is that of the lexicographic order. */
  lemma {:induction false} CompareIsLexicographic(a: seq<byte>, b: seq<byte>)
    requires |a| == |b|
    ensures ByteCompare(a, b) < 0 <==> LexLess(a, b)
    ensures ByteCompare(a, b) > 0 <==> LexLess(b, a)
    ensures ByteCompare(a, b) == 0 <==> a == b
  {
    if a != [] {
      var x, y := a[1..], b[1..];
      CompareIsLexicographic(x, y);
      assert a == [a[0]] + x && b == [b[0]] + y;
      LexTail(a, b);
      LexTail(b, a);
    }
  }

  /** What is returned for different strings: the difference of the first bytes that differ. */
  lemma {:induction false} FirstDifferenceIsReturned(a: seq<byte>, b: seq<byte>, k: nat)
    requires |a| == |b| && k < |a| && a[..k] == b[..k] && a[k] != b[k]
    ensures ByteCompare(a, b) == a[k] as int - b[k] as int
  {
    if k > 0 {
      assert a[..k][0] == b[..k][0];
      assert a[1..][..k - 1] == a[..k][1..] && b[1..][..k - 1] == b[..k][1..];
      FirstDifferenceIsReturned(a[1..], b[1..], k - 1);
    }
  }

  lemma LexTail(a: seq<byte>, b: seq<byte>)
    requires |a| == |b| > 0
    ensures LexLess(a, b) <==> a[0] < b[0] || (a[0] == b[0] && LexLess(a[1..], b[1..]))
  {
    var x, y := a[1..], b[1..];
    if LexLess(a, b) {
      var k :| 0 <= k < |a| && a[k] < b[k] && a[..k] == b[..k];
      if k > 0 {
        assert a[..k][0] == b[..k][0];
        assert x[..k - 1] == a[..k][1..] && y[..k - 1] == b[..k][1..];
        assert x[k - 1] < y[k - 1];
      }
    }
    if a[0] < b[0] {
      assert a[..0] == b[..0];
    }
    if a[0] == b[0] && LexLess(x, y) {
      var k :| 0 <= k < |x| && x[k] < y[k] && x[..k] == y[..k];
      assert a[..k + 1] == [a[0]] + x[..k] && b[..k + 1] == [b[0]] + y[..k];
      assert a[k + 1] < b[k + 1];
    }
  }

  /** Comparison goes on behind equal beginnings. */
  lemma {:induction false} CompareConcat(a: seq<byte>, b: seq<byte>, c: seq<byte>, d: seq<byte>)
    requires |a| == |b| && |c| == |d|
    ensures ByteCompare(a + c, b + d) == if a == b then ByteCompare(c, d) else ByteCompare(a, b)
    ensures ByteCompare(a, b) == 0 <==> a == b
  {
    if a == [] {
      assert a + c == c && b + d == d;
    } else {
      CompareConcat(a[1..], b[1..], c, d);
      assert (a + c)[1..] == a[1..] + c && (b + d)[1..] == b[1..] + d;
      assert a == [a[0]] + a[1..] && b == [b[0]] + b[1..];
    }
  }

  // ---------- words ----------

  function Load(mem: seq<byte>, p: int): nat
    requires 0 <= p && p + 8 <= |mem|
  {
    LittleEndian(mem[p..p + 8])
  }

  /** Combines two aligned words into the unaligned word between them. */
  function Merge(w0: nat, sh1: nat, w1: nat, sh2: nat): nat {
    Arith.DivNonNegative(w0, Pow2(sh1));
    Or(w0 / Pow2(sh1), w1 * Pow2(sh2) % WORD)
  }

  lemma {:induction false} Pow2Bytes(k: nat)
    ensures Pow2(8 * k) == Pow256(k)
  {
    if k > 0 {
      Pow2Bytes(k - 1);
      var n := 8 * (k - 1);
      assert Pow2(n + 8) == 2 * Pow2(n + 7);
      assert Pow2(n + 6) == 2 * Pow2(n + 5);
      assert Pow2(n + 4) == 2 * Pow2(n + 3);
      assert Pow2(n + 2) == 2 * Pow2(n + 1);
    }
  }

  lemma {:induction false} Pow256Add(a: nat, b: nat)
    ensures Pow256(a) * Pow256(b) == Pow256(a + b)
  {
    if a > 0 {
      Pow256Add(a - 1, b);
      assert 256 * Pow256(a - 1) * Pow256(b) == 256 * (Pow256(a - 1) * Pow256(b));
    }
  }

  lemma {:induction false} LittleEndianConcat(a: seq<byte>, b: seq<byte>)
    ensures LittleEndian(a + b) == LittleEndian(a) + LittleEndian(b) * Pow256(|a|)
  {
    LittleEndianSplit(a + b, |a|);
    assert (a + b)[|a|..] == b && (a + b)[..|a|] == a;
  }

  /** Or-ing numbers whose bits do not overlap adds them. */
  lemma {:induction false} OrDisjoint(m: nat, x: nat, y: nat)
    requires x < Pow2(m)
    ensures Or(x, y * Pow2(m)) == x + y * Pow2(m)
  {
    if m == 0 {
      OrWithZero(y);
    } else {
      OrDisjoint(m - 1, x / 2, y);
      DoubleProduct(y, Pow2(m - 1));
      if x == 0 && y * Pow2(m) == 0 {
      } else {
        assert Or(x, y * Pow2(m)) == 2 * Or(x / 2, y * Pow2(m) / 2) + x % 2;
      }
    }
  }

  lemma {:induction false} OrWithZero(y: nat)
    ensures Or(0, y) == y
    decreases y
  {
    if y > 0 {
      OrWithZero(y / 2);
    }
  }

  /** Merging two adjacent aligned words gives the word `off` bytes into them. */
  lemma MergeIsLoad(mem: seq<byte>, p: int, off: nat)
    requires 0 <= p && p + 16 <= |mem| && 0 < off < 8
    ensures Merge(Load(mem, p), 8 * off, Load(mem, p + 8), 64 - 8 * off) == Load(mem, p + off)
  {
    var a, b := mem[p..p + 8], mem[p + 8..p + 16];
    var hi, lo := a[off..], b[..off];
    var x := LittleEndian(hi);
    Pow2Bytes(off);
    Pow2Bytes(8 - off);
    LittleEndianSplit(a, off);
    Arith.DivModUnique(LittleEndian(a), Pow256(off), x, LittleEndian(a[..off]));
    ShiftedUp(b, off);
    LittleEndianSplit(hi, 8 - off);
    assert hi[..8 - off] == hi;
    OrDisjoint(64 - 8 * off, x, LittleEndian(lo));
    LittleEndianConcat(hi, lo);
    SubSlice(mem, p, p + 8, off, 8);
    SubSlice(mem, p + 8, p + 16, 0, off);
    SliceJoin(mem, p + off, p + 8, p + off + 8);
    assert hi + lo == mem[p + off..p + off + 8];
  }

  /** Shifting a word up keeps its low bytes. */
  lemma ShiftedUp(b: seq<byte>, off: nat)
    requires |b| == 8 && 0 < off < 8
    ensures LittleEndian(b) * Pow256(8 - off) % WORD == LittleEndian(b[..off]) * Pow256(8 - off)
  {
    var lo, hi, p, q := LittleEndian(b[..off]), LittleEndian(b[off..]), Pow256(off), Pow256(8 - off);
    LittleEndianSplit(b, off);
    Pow256Add(off, 8 - off);
    assert Pow256(8) == WORD by { assert Pow256(4) == 0x1_0000_0000; Pow256Add(4, 4); }
    ScaledRemainder(hi, lo, p, q);
  }

  lemma ScaledRemainder(hi: nat, lo: nat, p: nat, q: nat)
    requires lo < p && p * q == WORD
    ensures (lo + hi * p) * q % WORD == (hi * p + lo) * q % WORD == lo * q
  {
    assert (lo + hi * p) * q == hi * WORD + lo * q by {
      assert (lo + hi * p) * q == lo * q + (hi * p) * q;
      assert (hi * p) * q == hi * (p * q);
    }
    assert 0 <= lo * q < WORD by {
      assert q > 0;
      Arith.MulSign(p - lo, q);
      Arith.MulSign(lo, q);
      assert (p - lo) * q == p * q - lo * q;
    }
    Arith.DivModUnique((lo + hi * p) * q, WORD, hi, lo * q);
  }

  /** An unsigned word returned as a 32-bit `int`. */
  function AsInt(word: int): int {
    var low := word % TWO_32;
    if low < TWO_31 then low else low - TWO_32
  }

  /** A signed result kept as an unsigned word. */
  function AsWord(d: int): int {
    d % WORD
  }

  /** The unsigned difference of two bytes survives the conversion to `int`. */
  lemma ByteDifference(a: int, b: int)
    requires 0 <= a < 256 && 0 <= b < 256
    ensures AsInt(AsWord(a - b)) == a - b
    ensures AsWord(a - b) == 0 <==> a == b
  {
    var d := if a >= b then a - b else a - b + WORD;
    Arith.DivModUnique(a - b, WORD, if a >= b then 0 else -1, d);
    assert d % TWO_32 == if a >= b then a - b else a - b + TWO_32;
  }

  /** Compares two different words in memory order, lowest byte first. */
  method MemcmpBytes(a: nat, b: nat, ghost x: seq<byte>, ghost y: seq<byte>) returns (r: int)
    requires |x| == |y| == 8 && a == LittleEndian(x) && b == LittleEndian(y) && a != b
    ensures r == ByteCompare(x, y) && r != 0
  {
    var aw: nat, bw: nat := a, b;
    var a0: int, b0: int := 0, 0;
    ghost var k: nat := 0;
    while true
      invariant k < 8 && aw == LittleEndian(x[k..]) && bw == LittleEndian(y[k..]) && aw != bw
      invariant ByteCompare(x, y) == ByteCompare(x[k..], y[k..])
      decreases 8 - k
    {
      // the byte at the bottom of each word, then the word shifted past it
      ghost var xs, ys := x[k..], y[k..];
      a0, b0 := aw % 256, bw % 256;
      LowByte(xs);
      LowByte(ys);
      assert xs[1..] == x[k + 1..] && ys[1..] == y[k + 1..];
      if a0 != b0 {
        break;
      }
      aw, bw := aw / 256, bw / 256;
      k := k + 1;
      assert x[8..] == y[8..];
    }
    ByteDifference(a0, b0);
    r := AsInt(AsWord(a0 - b0));
  }

  lemma LowByte(x: seq<byte>)
    requires x != []
    ensures LittleEndian(x) % 256 == x[0] as int && LittleEndian(x) / 256 == LittleEndian(x[1..])
  {
    Arith.DivModUnique(LittleEndian(x), 256, LittleEndian(x[1..]), x[0] as int);
  }

  // ---------- whole words ----------

  /** The blocks of `n` words at `p` and `q` lie inside `mem`, and their first `k` words agree. */
  ghost predicate Agree(mem: seq<byte>, p: int, q: int, n: int, k: int) {
    0 <= k <= n && 0 <= p && 0 <= q && p + 8 * n <= |mem| && q + 8 * n <= |mem| &&
    mem[p..p + 8 * k] == mem[q..q + 8 * k]
  }

  /** Comparison of the blocks of `n` words at `p` and `q`. */
  ghost function Compared(mem: seq<byte>, p: int, q: int, n: int): int
    requires 0 <= n && 0 <= p && 0 <= q && p + 8 * n <= |mem| && q + 8 * n <= |mem|
  {
    ByteCompare(mem[p..p + 8 * n], mem[q..q + 8 * n])
  }

  lemma AgreeOnMore(mem: seq<byte>, p: int, q: int, n: int, k: int, a: nat)
    requires Agree(mem, p, q, n, k) && k < n && IsWord(mem, p, k, a) && IsWord(mem, q, k, a)
    ensures Agree(mem, p, q, n, k + 1)
  {
    LittleEndianInjective(mem[p + 8 * k..p + 8 * k + 8], mem[q + 8 * k..q + 8 * k + 8]);
    SliceJoin(mem, p, p + 8 * k, p + 8 * k + 8);
    SliceJoin(mem, q, q + 8 * k, q + 8 * k + 8);
  }

  lemma AgreeOnAll(mem: seq<byte>, p: int, q: int, n: int)
    requires Agree(mem, p, q, n, n)
    ensures Compared(mem, p, q, n) == 0
  {
    CompareConcat(mem[p..p + 8 * n], mem[q..q + 8 * n], [], []);
  }

  /** `w` is word `k` of the block at `base`. */
  ghost predicate IsWord(mem: seq<byte>, base: int, k: int, w: nat) {
    0 <= base + 8 * k && base + 8 * k + 8 <= |mem| && w == Load(mem, base + 8 * k)
  }

  lemma NothingCompared(mem: seq<byte>, p: int, q: int)
    requires 0 <= p <= |mem| && 0 <= q <= |mem|
    ensures Compared(mem, p, q, 0) == 0
  {
    AgreeOnAll(mem, p, q, 0);
  }

  /** The first pair of different words decides. */
  method DifferAt(ghost mem: seq<byte>, ghost p: int, ghost q: int, ghost n: int, ghost k: int,
                  a: nat, b: nat) returns (r: int)
    requires Agree(mem, p, q, n, k) && k < n
    requires IsWord(mem, p, k, a) && IsWord(mem, q, k, b)
    requires a != b
    ensures r == Compared(mem, p, q, n) && r != 0
  {
    ghost var x, y := mem[p + 8 * k..p + 8 * k + 8], mem[q + 8 * k..q + 8 * k + 8];
    r := MemcmpBytes(a, b, x, y);
    ghost var x', y' := mem[p + 8 * k + 8..p + 8 * n], mem[q + 8 * k + 8..q + 8 * n];
    SliceJoin(mem, p, p + 8 * k, p + 8 * n);
    SliceJoin(mem, q, q + 8 * k, q + 8 * n);
    SliceJoin(mem, p + 8 * k, p + 8 * k + 8, p + 8 * n);
    SliceJoin(mem, q + 8 * k, q + 8 * k + 8, q + 8 * n);
    CompareConcat(mem[p..p + 8 * k], mem[q..q + 8 * k], x + x', y + y');
    CompareConcat(x, y, x', y');
  }

  /** The first `k` words agree, and word `k` of both blocks has been loaded but not compared. */
  ghost predicate Pending(mem: seq<byte>, p: int, q: int, n: int, k: int, a: nat, b: nat) {
    Agree(mem, p, q, n, k) && k < n && IsWord(mem, p, k, a) && IsWord(mem, q, k, b)
  }

  /** A step of the loop: loads word `i` behind both pointers, then compares the words loaded before. */
  method Step(mem: seq<byte>, srcp1: int, srcp2: int, i: int, a: nat, b: nat,
              ghost p: int, ghost q: int, ghost n: int, ghost k: int)
    returns (r: int, a': nat, b': nat)
    requires Pending(mem, p, q, n, k, a, b) && k + 1 < n
    requires srcp1 == p + 8 * (k + 1 - i) && srcp2 == q + 8 * (k + 1 - i)
    ensures r != 0 ==> r == Compared(mem, p, q, n)
    ensures r == 0 ==> Pending(mem, p, q, n, k + 1, a', b')
  {
    a', b' := Load(mem, srcp1 + 8 * i), Load(mem, srcp2 + 8 * i);
    if a != b {
      r := DifferAt(mem, p, q, n, k, a, b);
      return;
    }
    AgreeOnMore(mem, p, q, n, k, a);
    r := 0;
  }

  /** The comparison behind the loop, of the last words loaded. */
  method LastStep(ghost mem: seq<byte>, a: nat, b: nat, ghost p: int, ghost q: int, ghost n: int) returns (r: int)
    requires Pending(mem, p, q, n, n - 1, a, b)
    ensures r == Compared(mem, p, q, n)
  {
    if a != b {
      r := DifferAt(mem, p, q, n, n - 1, a, b);
      return;
    }
    AgreeOnMore(mem, p, q, n, n - 1, a);
    AgreeOnAll(mem, p, q, n);
    r := 0;
  }

  /** Loads the first word of both blocks. */
  method FirstPair(mem: seq<byte>, p: int, q: int, ghost n: int) returns (a: nat, b: nat)
    requires 0 < n && 0 <= p && 0 <= q && p + 8 * n <= |mem| && q + 8 * n <= |mem|
    ensures Pending(mem, p, q, n, 0, a, b)
  {
    a, b := Load(mem, p), Load(mem, q);
  }

  /**
   * The switch before the loop: loads the first words and chooses the label at which the loop is
   * entered, with the pointers set back to where a whole round would have begun.
   */
  method Enter(mem: seq<byte>, p: int, q: int, n: int)
    returns (srcp1: int, srcp2: int, len: int, entry: int, a0: nat, a1: nat, b0: nat, b1: nat)
    requires 0 < n && 0 <= p && 0 <= q && p + 8 * n <= |mem| && q + 8 * n <= |mem|
    ensures 0 <= entry <= 3 && 0 <= len && len % 4 == 0 && (entry != 0 ==> len != 0)
    ensures srcp1 == p + 8 * (n - len) && srcp2 == q + 8 * (n - len)
    ensures entry == 0 ==> Pending(mem, p, q, n, n - len - 1, a1, b1)
    ensures entry == 3 ==> Pending(mem, p, q, n, n - len, a0, b0)
    ensures entry == 2 ==> Pending(mem, p, q, n, n - len + 1, a1, b1)
    ensures entry == 1 ==> Pending(mem, p, q, n, n - len + 2, a0, b0)
  {
    hide Pending;
    srcp1, srcp2, len, entry := p, q, n, 0;
    a0, a1, b0, b1 := 0, 0, 0, 0;
    match len % 4 {
      case 3 =>
        a1, b1 := FirstPair(mem, srcp1, srcp2, n);
        srcp1, srcp2, len := srcp1 - 8, srcp2 - 8, len + 1;
        entry := 2;
      case 0 =>
        a0, b0 := FirstPair(mem, srcp1, srcp2, n);
        entry := 3;
      case 1 =>
        a1, b1 := FirstPair(mem, srcp1, srcp2, n);
        srcp1, srcp2, len := srcp1 + 8, srcp2 + 8, len - 1;
      case _ =>
        a0, b0 := FirstPair(mem, srcp1, srcp2, n);
        srcp1, srcp2, len := srcp1 - 16, srcp2 - 16, len + 2;
        entry := 1;
    }
  }

  /**
   * Compares `n` words at the aligned addresses `p` and `q`. Each word is loaded one step before
   * it is compared. The loop body has four steps and is entered at the one that leaves a whole
   * number of rounds; `entry` names that label (0 stands for the top).
   */
  method MemcmpCommonAlignment(mem: seq<byte>, p: int, q: int, n: nat) returns (r: int)
    requires 0 <= p && 0 <= q && p + 8 * n <= |mem| && q + 8 * n <= |mem|
    ensures r == Compared(mem, p, q, n)
  {
    hide Compared, Pending;
    if OP_T_THRES <= 24 && n == 0 {
      NothingCompared(mem, p, q);
      return 0;
    }
    var srcp1, srcp2, len, entry, a0, a1, b0, b1 := Enter(mem, p, q, n);
    ghost var j := n - len;  // the word the pointers are at
    ghost var m := len / 4;  // the rounds left
    while len != 0
      invariant 0 <= m && 0 <= entry <= 3 && (entry != 0 ==> m != 0)
      invariant srcp1 == p + 8 * j && srcp2 == q + 8 * j && len == n - j == 4 * m
      invariant entry == 0 ==> Pending(mem, p, q, n, j - 1, a1, b1)
      invariant entry == 3 ==> Pending(mem, p, q, n, j, a0, b0)
      invariant entry == 2 ==> Pending(mem, p, q, n, j + 1, a1, b1)
      invariant entry == 1 ==> Pending(mem, p, q, n, j + 2, a0, b0)
      decreases m
    {
      if entry == 0 {
        r, a0, b0 := Step(mem, srcp1, srcp2, 0, a1, b1, p, q, n, j - 1);
        if r != 0 {
          return;
        }
      }
      if entry == 0 || entry == 3 {
        r, a1, b1 := Step(mem, srcp1, srcp2, 1, a0, b0, p, q, n, j);
        if r != 0 {
          return;
        }
      }
      if entry != 1 {
        r, a0, b0 := Step(mem, srcp1, srcp2, 2, a1, b1, p, q, n, j + 1);
        if r != 0 {
          return;
        }
      }
      r, a1, b1 := Step(mem, srcp1, srcp2, 3, a0, b0, p, q, n, j + 2);
      if r != 0 {
        return;
      }
      srcp1, srcp2, len := srcp1 + 32, srcp2 + 32, len - 4;
      j, m := j + 4, m - 1;
      entry := 0;
    }
    r := LastStep(mem, a1, b1, p, q, n);
  }

  /**
   * As `Pending`, for an unaligned first block inside the aligned words at `al`: its word `k` is
   * spread over the two aligned words `w0` and `w1`.
   */
  ghost predicate PendingMerge(mem: seq<byte>, al: int, off: int, q: int, n: int, k: int, w0: nat, w1: nat, b: nat) {
    0 < off < 8 && 0 <= al && al + 8 * (n + 1) <= |mem| && Agree(mem, al + off, q, n, k) && k < n &&
    IsWord(mem, al, k, w0) && IsWord(mem, al, k + 1, w1) && IsWord(mem, q, k, b)
  }

  /** A step of the second loop: loads a word behind each pointer, then compares the words loaded before. */
  method StepMerge(mem: seq<byte>, srcp1: int, srcp2: int, i: int, off: int, w0: nat, w1: nat, b: nat,
                   ghost al: int, ghost q: int, ghost n: int, ghost k: int)
    returns (r: int, a': nat, b': nat)
    requires PendingMerge(mem, al, off, q, n, k, w0, w1, b) && k + 1 < n
    requires srcp1 == al + 8 * (k + 2 - i) && srcp2 == q + 8 * (k + 1 - i)
    ensures r != 0 ==> r == Compared(mem, al + off, q, n)
    ensures r == 0 ==> PendingMerge(mem, al, off, q, n, k + 1, w1, a', b')
  {
    a', b' := Load(mem, srcp1 + 8 * i), Load(mem, srcp2 + 8 * i);
    var x := Merge(w0, 8 * off, w1, 64 - 8 * off);
    MergeIsLoad(mem, al + 8 * k, off);
    if x != b {
      r := DifferAt(mem, al + off, q, n, k, x, b);
      return;
    }
    AgreeOnMore(mem, al + off, q, n, k, x);
    r := 0;
  }

  method LastMerge(ghost mem: seq<byte>, off: int, w0: nat, w1: nat, b: nat,
                   ghost al: int, ghost q: int, ghost n: int) returns (r: int)
    requires PendingMerge(mem, al, off, q, n, n - 1, w0, w1, b)
    ensures r == Compared(mem, al + off, q, n)
  {
    var x := Merge(w0, 8 * off, w1, 64 - 8 * off);
    MergeIsLoad(mem, al + 8 * (n - 1), off);
    r := LastStep(mem, x, b, al + off, q, n);
  }

  method FirstWords(mem: seq<byte>, al: int, q: int, ghost off: int, ghost n: int) returns (w0: nat, w1: nat, b: nat)
    requires 0 < n && 0 < off < 8 && 0 <= al && 0 <= q && al + 8 * (n + 1) <= |mem| && q + 8 * n <= |mem|
    ensures PendingMerge(mem, al, off, q, n, 0, w0, w1, b)
  {
    w0, w1, b := Load(mem, al), Load(mem, al + 8), Load(mem, q);
  }

  /**
   * The switch before the second loop: loads the first words and chooses the label at which the
   * loop is entered, with the pointers set back to where a whole round would have begun.
   */
  method EnterMerge(mem: seq<byte>, al: int, q: int, n: int, off: int)
    returns (srcp1: int, srcp2: int, len: int, entry: int,
             a0: nat, a1: nat, a2: nat, a3: nat, b0: nat, b1: nat, b2: nat, b3: nat)
    requires 0 < n && 0 < off < 8 && 0 <= al && 0 <= q && al + 8 * (n + 1) <= |mem| && q + 8 * n <= |mem|
    ensures 0 <= entry <= 3 && 0 <= len && len % 4 == 0 && (entry != 0 ==> len != 0)
    ensures srcp1 == al + 8 * (n - len + 1) && srcp2 == q + 8 * (n - len)
    ensures entry == 0 ==> PendingMerge(mem, al, off, q, n, n - len - 1, a2, a3, b3)
    ensures entry == 3 ==> PendingMerge(mem, al, off, q, n, n - len, a3, a0, b0)
    ensures entry == 2 ==> PendingMerge(mem, al, off, q, n, n - len + 1, a0, a1, b1)
    ensures entry == 1 ==> PendingMerge(mem, al, off, q, n, n - len + 2, a1, a2, b2)
  {
    hide PendingMerge;
    srcp1, srcp2, len, entry := al, q, n, 0;
    a0, a1, a2, a3, b0, b1, b2, b3 := 0, 0, 0, 0, 0, 0, 0, 0;
    match len % 4 {
      case 3 =>
        a0, a1, b1 := FirstWords(mem, srcp1, srcp2, off, n);
        srcp2, len := srcp2 - 8, len + 1;
        entry := 2;
      case 0 =>
        a3, a0, b0 := FirstWords(mem, srcp1, srcp2, off, n);
        srcp1 := srcp1 + 8;
        entry := 3;
      case 1 =>
        a2, a3, b3 := FirstWords(mem, srcp1, srcp2, off, n);
        srcp1, srcp2, len := srcp1 + 16, srcp2 + 8, len - 1;
      case _ =>
        a1, a2, b2 := FirstWords(mem, srcp1, srcp2, off, n);
        srcp1, srcp2, len := srcp1 - 8, srcp2 - 16, len + 2;
        entry := 1;
    }
  }

  /**
   * Compares `n` words at the unaligned address `p` and the aligned address `q`. The words of the
   * first block are put together from the aligned words around them, two of which are kept in
   * registers; the loop is entered as in the routine above.
   */
  method MemcmpNotCommonAlignment(mem: seq<byte>, p: int, q: int, n: nat) returns (r: int)
    requires 0 <= p && 0 <= q && p + 8 * n <= |mem| && q + 8 * n <= |mem|
    requires |mem| % 8 == 0 && p % 8 != 0
    ensures r == Compared(mem, p, q, n)
  {
    hide Compared, PendingMerge;
    var off := p % 8;
    var al := p - off;
    RoundedDown(p, n, |mem|);
    if OP_T_THRES <= 24 && n == 0 {
      NothingCompared(mem, p, q);
      return 0;
    }
    var srcp1, srcp2, len, entry, a0, a1, a2, a3, b0, b1, b2, b3 := EnterMerge(mem, al, q, n, off);
    ghost var j := n - len;  // the word the second pointer is at
    ghost var m := len / 4;  // the rounds left
    while len != 0
      invariant 0 <= m && 0 <= entry <= 3 && (entry != 0 ==> m != 0)
      invariant srcp1 == al + 8 * (j + 1) && srcp2 == q + 8 * j && len == n - j == 4 * m
      invariant entry == 0 ==> PendingMerge(mem, al, off, q, n, j - 1, a2, a3, b3)
      invariant entry == 3 ==> PendingMerge(mem, al, off, q, n, j, a3, a0, b0)
      invariant entry == 2 ==> PendingMerge(mem, al, off, q, n, j + 1, a0, a1, b1)
      invariant entry == 1 ==> PendingMerge(mem, al, off, q, n, j + 2, a1, a2, b2)
      decreases m
    {
      if entry == 0 {
        r, a0, b0 := StepMerge(mem, srcp1, srcp2, 0, off, a2, a3, b3, al, q, n, j - 1);
        if r != 0 {
          return;
        }
      }
      if entry == 0 || entry == 3 {
        r, a1, b1 := StepMerge(mem, srcp1, srcp2, 1, off, a3, a0, b0, al, q, n, j);
        if r != 0 {
          return;
        }
      }
      if entry != 1 {
        r, a2, b2 := StepMerge(mem, srcp1, srcp2, 2, off, a0, a1, b1, al, q, n, j + 1);
        if r != 0 {
          return;
        }
      }
      r, a3, b3 := StepMerge(mem, srcp1, srcp2, 3, off, a1, a2, b2, al, q, n, j + 2);
      if r != 0 {
        return;
      }
      srcp1, srcp2, len := srcp1 + 32, srcp2 + 32, len - 4;
      j, m := j + 4, m - 1;
      entry := 0;
    }
    r := LastMerge(mem, off, a2, a3, b3, al, q, n);
  }

  /** The aligned word holding the last byte of an unaligned block lies inside the memory. */
  lemma RoundedDown(p: int, n: int, size: int)
    requires 0 <= p && p + 8 * n <= size && size % 8 == 0 && p % 8 != 0
    ensures 0 <= p - p % 8 && p - p % 8 + 8 * n + 8 <= size
  {
    assert p == 8 * (p / 8) + p % 8 && size == 8 * (size / 8);
  }

  /** Compares words at the aligned address `q`, in the way the alignment of `p` asks for. */
  method CompareWords(mem: seq<byte>, p: int, q: int, n: nat) returns (r: int)
    requires 0 <= p && 0 <= q && p + 8 * n <= |mem| && q + 8 * n <= |mem| && |mem| % 8 == 0
    ensures r == Compared(mem, p, q, n)
  {
    if p % 8 == 0 {
      r := MemcmpCommonAlignment(mem, p, q, n);
    } else {
      r := MemcmpNotCommonAlignment(mem, p, q, n);
    }
  }

  /** The first `k` bytes at the two addresses agree. */
  ghost predicate SameBytes(mem: seq<byte>, s1: nat, s2: nat, k: int) {
    0 <= k && s1 + k <= |mem| && s2 + k <= |mem| && mem[s1..s1 + k] == mem[s2..s2 + k]
  }

  /** The first loop: bytes until the second address is aligned. `len` are left when they agree. */
  method CompareToAligned(mem: seq<byte>, s1: nat, s2: nat, n: nat) returns (res: int, len: int)
    requires s1 + n <= |mem| && s2 + n <= |mem| && OP_T_THRES <= n
    ensures res != 0 ==> AsInt(res) == ByteCompare(mem[s1..s1 + n], mem[s2..s2 + n])
    ensures res == 0 ==> 0 <= len <= n && (s2 + n - len) % 8 == 0 && SameBytes(mem, s1, s2, n - len)
  {
    hide ByteCompare, AsInt, AsWord, SameBytes;
    var srcp1, srcp2 := s1, s2;
    len, res := n, 0;
    NoBytes(mem, s1, s2);
    ghost var up := s2 + 8 - s2 % 8;  // the next aligned address
    while srcp2 % 8 != 0
      invariant 0 <= srcp1 - s1 == srcp2 - s2 == n - len && srcp2 <= up <= s2 + 8 && up % 8 == 0
      invariant SameBytes(mem, s1, s2, n - len) && res == 0
      decreases len
    {
      res := AsWord(mem[srcp1] as int - mem[srcp2] as int);
      ByteDecides(mem, s1, s2, n, srcp1 - s1);
      srcp1, srcp2 := srcp1 + 1, srcp2 + 1;
      if res != 0 {
        return;
      }
      len := len - 1;
    }
  }

  /** The last loop: the `len` bytes left behind equal ones. */
  method CompareRest(mem: seq<byte>, ghost s1: nat, ghost s2: nat, ghost n: nat, p: int, q: int, len: int)
    returns (r: int)
    requires s1 + n <= |mem| && s2 + n <= |mem| && 0 <= len <= n
    requires p - s1 == q - s2 == n - len && SameBytes(mem, s1, s2, n - len)
    ensures r == ByteCompare(mem[s1..s1 + n], mem[s2..s2 + n])
  {
    hide ByteCompare, AsInt, AsWord, SameBytes;
    var srcp1, srcp2, len := p, q, len;
    while len != 0
      invariant 0 <= len && srcp1 - s1 == srcp2 - s2 == n - len && SameBytes(mem, s1, s2, n - len)
      decreases len
    {
      var res := AsWord(mem[srcp1] as int - mem[srcp2] as int);
      ByteDecides(mem, s1, s2, n, srcp1 - s1);
      srcp1, srcp2 := srcp1 + 1, srcp2 + 1;
      if res != 0 {
        return AsInt(res);
      }
      len := len - 1;
    }
    NothingDiffers(mem, s1, s2, n);
    return 0;
  }

  /**
   * Compares `n` bytes at `s1` and `s2`: bytes until the second address is aligned, then whole
   * words, then the few bytes left. A difference is kept as an unsigned word in between.
   */
  method Memcmp(mem: seq<byte>, s1: nat, s2: nat, n: nat) returns (r: int)
    requires s1 + n <= |mem| && s2 + n <= |mem| && |mem| % 8 == 0
    ensures r == ByteCompare(mem[s1..s1 + n], mem[s2..s2 + n])
  {
    hide Compared, ByteCompare, AsInt, AsWord, SameBytes;
    var len: int := n;
    NoBytes(mem, s1, s2);
    if len >= OP_T_THRES {
      var res;
      res, len := CompareToAligned(mem, s1, s2, n);
      if res != 0 {
        return AsInt(res);
      }
      var srcp1, srcp2 := s1 + n - len, s2 + n - len;
      WordsFit(len);
      r := CompareWords(mem, srcp1, srcp2, len / 8);
      res := AsWord(r);
      WordsDecide(mem, s1, s2, n, n - len, len / 8, r);
      if res != 0 {
        return AsInt(res);
      }
      len := len % 8;
    }
    r := CompareRest(mem, s1, s2, n, s1 + n - len, s2 + n - len, len);
  }

  lemma WordsFit(len: int)
    requires 0 <= len
    ensures 0 <= len / 8 && 8 * (len / 8) + len % 8 == len && 0 <= len % 8
  {
  }

  /** Behind `k` equal bytes, the comparison of the next `m` bytes decides if it is not 0. */
  lemma MiddleDecides(mem: seq<byte>, s1: nat, s2: nat, n: nat, k: nat, m: nat)
    requires s1 + n <= |mem| && s2 + n <= |mem| && k + m <= n
    requires mem[s1..s1 + k] == mem[s2..s2 + k]
    ensures var c := ByteCompare(mem[s1 + k..s1 + k + m], mem[s2 + k..s2 + k + m]);
            if c == 0 then mem[s1..s1 + k + m] == mem[s2..s2 + k + m]
            else c == ByteCompare(mem[s1..s1 + n], mem[s2..s2 + n])
  {
    hide ByteCompare;
    var x, y := mem[s1 + k..s1 + k + m], mem[s2 + k..s2 + k + m];
    var x', y' := mem[s1 + k + m..s1 + n], mem[s2 + k + m..s2 + n];
    SliceJoin(mem, s1, s1 + k, s1 + n);
    SliceJoin(mem, s2, s2 + k, s2 + n);
    SliceJoin(mem, s1 + k, s1 + k + m, s1 + n);
    SliceJoin(mem, s2 + k, s2 + k + m, s2 + n);
    SliceJoin(mem, s1, s1 + k, s1 + k + m);
    SliceJoin(mem, s2, s2 + k, s2 + k + m);
    CompareConcat(mem[s1..s1 + k], mem[s2..s2 + k], x + x', y + y');
    CompareConcat(x, y, x', y');
  }

  lemma NoBytes(mem: seq<byte>, s1: nat, s2: nat)
    requires s1 <= |mem| && s2 <= |mem|
    ensures SameBytes(mem, s1, s2, 0)
  {
  }

  lemma NothingDiffers(mem: seq<byte>, s1: nat, s2: nat, n: nat)
    requires SameBytes(mem, s1, s2, n)
    ensures ByteCompare(mem[s1..s1 + n], mem[s2..s2 + n]) == 0
  {
    CompareConcat(mem[s1..s1 + n], mem[s2..s2 + n], [], []);
  }

  /** A comparison of bytes is small enough to survive as an unsigned word. */
  lemma {:induction false} CompareFitsInt(a: seq<byte>, b: seq<byte>)
    requires |a| == |b|
    ensures -256 < ByteCompare(a, b) < 256
    ensures AsInt(AsWord(ByteCompare(a, b))) == ByteCompare(a, b)
    ensures AsWord(ByteCompare(a, b)) == 0 <==> ByteCompare(a, b) == 0
  {
    if a == [] {
    } else if a[0] != b[0] {
      ByteDifference(a[0] as int, b[0] as int);
    } else {
      CompareFitsInt(a[1..], b[1..]);
    }
  }

  lemma WordsDecide(mem: seq<byte>, s1: nat, s2: nat, n: nat, k: nat, m: nat, r: int)
    requires s1 + n <= |mem| && s2 + n <= |mem| && k + 8 * m <= n
    requires SameBytes(mem, s1, s2, k)
    requires r == Compared(mem, s1 + k, s2 + k, m)
    ensures if AsWord(r) == 0 then SameBytes(mem, s1, s2, k + 8 * m)
            else AsInt(AsWord(r)) == ByteCompare(mem[s1..s1 + n], mem[s2..s2 + n])
  {
    MiddleDecides(mem, s1, s2, n, k, 8 * m);
    CompareFitsInt(mem[s1 + k..s1 + k + 8 * m], mem[s2 + k..s2 + k + 8 * m]);
  }

  lemma ByteDecides(mem: seq<byte>, s1: nat, s2: nat, n: nat, k: nat)
    requires s1 + n <= |mem| && s2 + n <= |mem| && k < n
    requires SameBytes(mem, s1, s2, k)
    ensures var d := AsWord(mem[s1 + k] as int - mem[s2 + k] as int);
            if d == 0 then SameBytes(mem, s1, s2, k + 1)
            else AsInt(d) == ByteCompare(mem[s1..s1 + n], mem[s2..s2 + n])
  {
    ByteDifference(mem[s1 + k] as int, mem[s2 + k] as int);
    MiddleDecides(mem, s1, s2, n, k, 1);
  }
}
