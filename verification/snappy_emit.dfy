/** Writing literal and copy elements into the output buffer. */
module SnappyEmit {
  import opened Bytes
  import opened SnappyFormat

  /** The bytes of `n`, least significant first, without leading zeros. */
  function LittleEndianBytes(n: nat): (s: seq<byte>) {
    if n == 0 then [] else [n % 256] + LittleEndianBytes(n / 256)
  }

  lemma {:induction false} LittleEndianBytesValue(n: nat, k: nat)
    requires n < Pow256(k)
    ensures LittleEndian(LittleEndianBytes(n)) == n && |LittleEndianBytes(n)| <= k
  {
    if n > 0 {
      LittleEndianBytesValue(n / 256, k - 1);
      assert LittleEndianBytes(n)[1..] == LittleEndianBytes(n / 256);
    }
  }

  /** Tag byte and length bytes of a literal (section 2.1). */
  function LiteralHeader(len: nat): (s: seq<byte>)
    requires 0 < len < TWO_31
    ensures |s| > 0
  {
    assert Pow256(4) == TWO_32;
    LittleEndianBytesValue(len - 1, 4);
    if len <= 60 then [(len - 1) * 4] else [(59 + |LittleEndianBytes(len - 1)|) * 4] + LittleEndianBytes(len - 1)
  }

  /** A literal written this way decodes to its bytes. */
  lemma LiteralDecodes(len: nat, bytes: seq<byte>, out: seq<byte>)
    requires 0 < len == |bytes| < TWO_31
    ensures DecodeBody(LiteralHeader(len) + bytes, out) == Some(out + bytes)
  {
    var h := LiteralHeader(len);
    var s := h + bytes;
    assert Pow256(4) == TWO_32;
    LittleEndianBytesValue(len - 1, 4);
    assert 1 + ExtraBytes(s[0]) == |h|;
    assert s[1..|h|] == h[1..] && s[|h|..] == bytes;
    assert len > 60 ==> h[1..] == LittleEndianBytes(len - 1);
    assert LiteralLength(s[0], s[1..|h|]) == len;
    assert bytes[len..] == [] && bytes[..len] == bytes;
    assert DecodeElement(s, out) == Some(Progress([], out + bytes));
  }

  /** A literal costs one to three bytes more than it carries, and a second or third extra
      byte only when it is long. */
  lemma LiteralCost(len: nat)
    requires 0 < len <= 0x1_0000
    ensures 60 * |LiteralHeader(len)| <= len + 60
    ensures len <= 60 ==> |LiteralHeader(len)| == 1
  {
    if len > 256 {
      assert Pow256(2) == 0x1_0000;
      LittleEndianBytesValue(len - 1, 2);
    } else if len > 60 {
      assert Pow256(1) == 256;
      LittleEndianBytesValue(len - 1, 1);
    }
  }

  /** Stores bytes at the end of what is written so far. */
  method Put(a: array<byte>, op: nat, bytes: seq<byte>)
    requires op + |bytes| <= a.Length
    modifies a
    ensures a[..op + |bytes|] == old(a[..op]) + bytes
  {
    forall i | 0 <= i < |bytes| {
      a[op + i] := bytes[i];
    }
  }

  /** Emits a literal. The fast path stores two words whatever the length is; only the
      first `len` bytes of them belong to the element. */
  method EmitLiteral(a: array<byte>, op: nat, input: seq<byte>, literal: nat, len: nat, allowFastPath: bool)
    returns (end: nat)
    requires 0 < len < TWO_31 && literal + len <= |input|
    requires op + |LiteralHeader(len)| + len <= a.Length
    requires allowFastPath && len <= 16 ==> literal + 16 <= |input| && op + 17 <= a.Length
    modifies a
    ensures end == op + |LiteralHeader(len)| + len
    ensures a[..end] == old(a[..op]) + LiteralHeader(len) + input[literal..literal + len]
  {
    var n := len - 1;
    var p;
    if n < 60 {
      Put(a, op, [n * 4]);
      p := op + 1;
      if allowFastPath && len <= 16 {
        ghost var written := a[..p];
        Put(a, p, input[literal..literal + 8]);
        Put(a, p + 8, input[literal + 8..literal + 16]);
        FirstOfTwoWords(a[..p + 16], written, input, literal, len);
        assert a[..p + 16][..p + len] == a[..p + len];
        return p + len;
      }
    } else {
      p := EmitLength(a, op, n);
    }
    Put(a, p, input[literal..literal + len]);
    return p + len;
  }

  lemma FirstOfTwoWords(s: seq<byte>, written: seq<byte>, input: seq<byte>, literal: nat, len: nat)
    requires len <= 16 && literal + 16 <= |input|
    requires s == written + input[literal..literal + 8] + input[literal + 8..literal + 16]
    ensures s[..|written| + len] == written + input[literal..literal + len]
  {
  }

  /** Emits the length bytes of a long literal, then the tag byte in front of them. */
  method EmitLength(a: array<byte>, base: nat, length: nat) returns (op: nat)
    requires 60 <= length < TWO_31 - 1
    requires base + |LiteralHeader(length + 1)| <= a.Length
    modifies a
    ensures op == base + |LiteralHeader(length + 1)|
    ensures a[..op] == old(a[..base]) + LiteralHeader(length + 1)
  {
    assert Pow256(4) == TWO_32;
    LittleEndianBytesValue(length, 4);
    var count;
    op, count := EmitDigits(a, base + 1, length);
    ghost var s := a[..op];
    a[base] := (59 + count) * 4;
    assert a[..op] == s[base := a[base]];
  }

  method EmitDigits(a: array<byte>, base: nat, length: nat) returns (op: nat, count: nat)
    requires base + |LittleEndianBytes(length)| <= a.Length
    modifies a
    ensures count == |LittleEndianBytes(length)| && op == base + count
    ensures a[..op] == old(a[..base]) + LittleEndianBytes(length)
  {
    ghost var all := a[..base] + LittleEndianBytes(length);
    var n := length;
    op, count := base, 0;
    while n > 0
      invariant op == base + count && op + |LittleEndianBytes(n)| == |all|
      invariant a[..op] + LittleEndianBytes(n) == all
    {
      Put(a, op, [n % 256]);
      op := op + 1;
      n := n / 256;
      count := count + 1;
    }
  }

  /** Tag and offset bytes of a copy of 4 to 64 bytes (sections 2.2.1 and 2.2.2). */
  function CopyTag(offset: nat, len: nat): (s: seq<byte>)
    requires 4 <= len <= 64 && offset < 65536
    ensures 2 <= |s| <= 3
  {
    if len < 12 && offset < 2048 then
      [1 + (len - 4) * 4 + offset / 256 * 32, offset % 256]
    else
      [2 + (len - 1) * 4, offset % 256, offset / 256]
  }

  lemma CopyTagDecodes(offset: nat, len: nat, out: seq<byte>)
    requires 4 <= len <= 64 && 1 <= offset < 65536 && offset <= |out|
    ensures DecodeBody(CopyTag(offset, len), out) == Some(CopyBack(out, offset, len))
  {
    var s := CopyTag(offset, len);
    assert 1 + ExtraBytes(s[0]) == |s|;
    assert s[|s|..] == [];
    CopyTagFields(offset, len);
    assert DecodeElement(s, out) == Some(Progress([], CopyBack(out, offset, len)));
  }

  /** Three bit fields packed into one byte can be read back. */
  lemma PackedTag(low: nat, high: nat)
    requires low < 8 && high < 8
    ensures var tag := 1 + low * 4 + high * 32;
            tag < 256 && tag % 4 == 1 && tag / 4 % 8 == low && tag / 32 == high
  {
  }

  lemma CopyTagFields(offset: nat, len: nat)
    requires 4 <= len <= 64 && offset < 65536
    ensures var s := CopyTag(offset, len);
            CopyOffset(s[0], s[1..|s|]) == offset && CopyLength(s[0]) == len
  {
    var s := CopyTag(offset, len);
    if |s| == 2 {
      PackedTag(len - 4, offset / 256);
      assert s[1..2] == [offset % 256];
      assert LittleEndian([offset % 256]) == offset % 256;
    } else {
      var low, high := offset % 256, offset / 256;
      assert s[1..3] == [low, high];
      assert [low, high][1..] == [high];
      assert LittleEndian([high]) == high;
      assert LittleEndian([low, high]) == low + 256 * high == offset;
      assert s[0] % 4 == 2 && s[0] / 4 == len - 1;
    }
  }

  method EmitCopyLessThan64(a: array<byte>, op: nat, offset: nat, len: nat) returns (end: nat)
    requires 4 <= len <= 64 && offset < 65536 && op + |CopyTag(offset, len)| <= a.Length
    modifies a
    ensures end == op + |CopyTag(offset, len)| && a[..end] == old(a[..op]) + CopyTag(offset, len)
  {
    if len < 12 && offset < 2048 {
      // the fields occupy different bits, so or-ing them is adding them
      a[op] := 1 + (len - 4) * 4 + offset / 256 * 32;
      a[op + 1] := offset % 256;
      end := op + 2;
    } else {
      a[op] := 2 + (len - 1) * 4;
      a[op + 1] := offset % 256;
      a[op + 2] := offset / 256;
      end := op + 3;
    }
  }

  /** A match of any length is emitted as copies of at most 64 bytes, none shorter than four. */
  function CopyTags(offset: nat, len: nat): (s: seq<byte>)
    requires len >= 4 && offset < 65536
    ensures |s| < len
  {
    if len >= 68 then CopyTag(offset, 64) + CopyTags(offset, len - 64)
    else if len > 64 then CopyTag(offset, 60) + CopyTag(offset, len - 60)
    else CopyTag(offset, len)
  }

  lemma {:induction false} CopyTagsDecode(offset: nat, len: nat, out: seq<byte>)
    requires len >= 4 && 1 <= offset < 65536 && offset <= |out|
    ensures DecodeBody(CopyTags(offset, len), out) == Some(CopyBack(out, offset, len))
  {
    hide DecodeBody, CopyBack, CopyTag;
    if len > 64 {
      var first := if len >= 68 then 64 else 60;
      var rest := CopyTags(offset, len - first);
      CopyTagDecodes(offset, first, out);
      CopyTagsDecode(offset, len - first, CopyBack(out, offset, first));
      DecodeConcat(CopyTag(offset, first), rest, out);
      CopyBackSplit(out, offset, first, len - first);
    } else {
      CopyTagDecodes(offset, len, out);
    }
  }

  method EmitCopy(a: array<byte>, op: nat, offset: nat, len: nat) returns (end: nat)
    requires len >= 4 && offset < 65536 && op + |CopyTags(offset, len)| <= a.Length
    modifies a
    ensures end == op + |CopyTags(offset, len)| && a[..end] == old(a[..op]) + CopyTags(offset, len)
  {
    hide CopyTag;
    ghost var all := a[..op] + CopyTags(offset, len);
    end := op;
    var n := len;
    while n >= 68
      invariant n >= 4 && end + |CopyTags(offset, n)| == |all| <= a.Length
      invariant a[..end] + CopyTags(offset, n) == all
    {
      end := EmitCopyLessThan64(a, end, offset, 64);
      n := n - 64;
    }
    if n > 64 {
      end := EmitCopyLessThan64(a, end, offset, 60);
      n := n - 60;
    }
    end := EmitCopyLessThan64(a, end, offset, n);
  }

  /** Copying from where the same bytes occurred reproduces them. */
  lemma {:induction false} CopyReproduces(out: seq<byte>, offset: nat, next: seq<byte>)
    requires 1 <= offset <= |out|
    requires (out + next)[|out| - offset..][..|next|] == next
    ensures CopyBack(out, offset, |next|) == out + next
    decreases |next|
  {
    if next == [] {
      assert out + next == out;
    } else {
      var all := out + next;
      assert all[|out| - offset..][..|next|][0] == all[|out| - offset] == out[|out| - offset];
      var out' := out + [next[0]];
      assert out' + next[1..] == all;
      assert all[|out'| - offset..][..|next| - 1] == all[|out| - offset..][..|next|][1..];
      CopyReproduces(out', offset, next[1..]);
    }
  }
}
