/**
 The Snappy format (format description, sections 1 and 2) as a simple recursive
 decoder that looks at one element at a time. It is the reference both
 the compressor and the table-driven decompressor are proved against.
 */
module SnappyFormat {
  import Arith
  import opened Bytes

  /** The header bytes that follow tag byte `tag` (sections 2.1 and 2.2). */
  function ExtraBytes(tag: byte): (n: nat)
    ensures n <= 4
  {
    if tag % 4 == 0 then (if tag / 4 < 60 then 0 else tag / 4 - 59)
    else if tag % 4 == 1 then 1
    else if tag % 4 == 2 then 2
    else 4
  }

  /** Length of a literal; the arithmetic is that of 32-bit words. */
  function LiteralLength(tag: byte, extra: seq<byte>): nat {
    if tag / 4 < 60 then tag / 4 + 1 else (LittleEndian(extra) + 1) % TWO_32
  }

  function CopyLength(tag: byte): nat {
    if tag % 4 == 1 then 4 + (tag / 4) % 8 else tag / 4 + 1
  }

  function CopyOffset(tag: byte, extra: seq<byte>): nat {
    if tag % 4 == 1 then (tag / 32) * 256 + LittleEndian(extra) else LittleEndian(extra)
  }

  /** A back-reference copies one byte at a time, so it may read what it has just written. */
  function CopyBack(out: seq<byte>, offset: nat, len: nat): (r: seq<byte>)
    requires 1 <= offset <= |out|
    ensures |r| == |out| + len && r[..|out|] == out
    decreases len
  {
    if len == 0 then out else CopyBack(out + [out[|out| - offset]], offset, len - 1)
  }

  /** What is left to decode and what is decoded so far. */
  datatype Progress = Progress(rest: seq<byte>, out: seq<byte>)

  /** Decodes the first element of `s`: a literal, or a copy of what is already decoded. */
  function DecodeElement(s: seq<byte>, out: seq<byte>): (r: Option<Progress>)
    requires s != []
    ensures r.Some? ==> |r.value.rest| < |s| && out <= r.value.out
  {
    var n := 1 + ExtraBytes(s[0]);
    if |s| < n then None
    else if s[0] % 4 == 0 then TakeLiteral(s[n..], LiteralLength(s[0], s[1..n]), out)
    else
      var offset := CopyOffset(s[0], s[1..n]);
      if 1 <= offset <= |out| then Some(Progress(s[n..], CopyBack(out, offset, CopyLength(s[0]))))
      else None
  }

  /** Appends the next `len` bytes of `s`. */
  function TakeLiteral(s: seq<byte>, len: nat, out: seq<byte>): (r: Option<Progress>) {
    if |s| < len then None else Some(Progress(s[len..], out + s[..len]))
  }

  /** Decodes the elements in `s`, appending to what is already decoded. */
  function DecodeBody(s: seq<byte>, out: seq<byte>): (r: Option<seq<byte>>)
    ensures r.Some? ==> out <= r.value
    decreases |s|
  {
    if s == [] then Some(out)
    else
      match DecodeElement(s, out)
      case None => None
      case Some(p) => DecodeBody(p.rest, p.out)
  }

  /** A length preamble: the number it spells and the bytes it takes. */
  datatype Preamble = Preamble(number: nat, size: nat) {
    /** The number as it is kept in a 32-bit word. */
    function Value(): nat { number % TWO_32 }
  }

  /** The length preamble (section 1): base 128, least significant group first, at most five
      groups. `shift` counts the bits already read. */
  function ReadPreamble(s: seq<byte>, shift: nat): (r: Option<Preamble>)
    ensures r.Some? ==> 1 <= r.value.size <= |s|
    decreases |s|
  {
    if shift >= 32 || s == [] then None
    else
      var group := s[0] % 128 * Pow2(shift);
      if s[0] < 128 then Some(Preamble(group, 1))
      else
        match ReadPreamble(s[1..], shift + 7)
        case None => None
        case Some(p) => Some(Preamble(group + p.number, p.size + 1))
  }

  /** The whole stream: the elements must produce exactly the declared number of bytes. */
  function Decode(s: seq<byte>): (r: Option<seq<byte>>) {
    match ReadPreamble(s, 0)
    case None => None
    case Some(p) =>
      match DecodeBody(s[p.size..], [])
      case None => None
      case Some(out) => if |out| == p.Value() then Some(out) else None
  }

  // ---------- the elements, byte by byte ----------

  /** A literal of up to 60 bytes has its length in the tag (section 2.1). */
  lemma ShortLiteralExact(data: seq<byte>, rest: seq<byte>, out: seq<byte>)
    requires 1 <= |data| <= 60
    ensures DecodeElement([4 * (|data| - 1)] + data + rest, out) == Some(Progress(rest, out + data))
  {
    var s := [4 * (|data| - 1)] + data + rest;
    assert s[1..] == data + rest && s[1..1] == [];
    assert (data + rest)[..|data|] == data && (data + rest)[|data|..] == rest;
  }

  /** A longer one has it, less one, in one to four bytes behind the tag, in a 32-bit word. */
  lemma LongLiteralExact(extra: seq<byte>, data: seq<byte>, rest: seq<byte>, out: seq<byte>)
    requires 1 <= |extra| <= 4 && |data| == (LittleEndian(extra) + 1) % 4294967296
    ensures DecodeElement([4 * (59 + |extra|)] + extra + data + rest, out) == Some(Progress(rest, out + data))
  {
    hide LittleEndian, DecodeElement;
    var tag: byte := 4 * (59 + |extra|);
    TagFields(0, 59 + |extra|);
    ElementInParts(tag, extra, data + rest, out);
    assert [tag] + extra + data + rest == [tag] + extra + (data + rest);
    assert (data + rest)[..|data|] == data && (data + rest)[|data|..] == rest;
  }

  lemma TagFields(low: nat, high: nat)
    requires low < 4 && high < 64
    ensures (low + 4 * high) % 4 == low && (low + 4 * high) / 4 == high && low + 4 * high < 256
  {
  }

  lemma ElementInParts(tag: byte, extra: seq<byte>, rest: seq<byte>, out: seq<byte>)
    requires |extra| == ExtraBytes(tag)
    ensures DecodeElement([tag] + extra + rest, out) ==
            if tag % 4 == 0 then TakeLiteral(rest, LiteralLength(tag, extra), out)
            else if 1 <= CopyOffset(tag, extra) <= |out|
            then Some(Progress(rest, CopyBack(out, CopyOffset(tag, extra), CopyLength(tag))))
            else None
  {
    hide ExtraBytes, TakeLiteral, LiteralLength, CopyOffset, CopyLength, CopyBack;
    var s := [tag] + extra + rest;
    assert s[1..1 + |extra|] == extra && s[1 + |extra|..] == rest;
  }

  /** What a copy element does: nothing can be copied from outside the output (section 2.2). */
  ghost predicate Copies(s: seq<byte>, rest: seq<byte>, out: seq<byte>, offset: nat, len: nat) {
    s != [] && DecodeElement(s, out) ==
               if 1 <= offset <= |out| then Some(Progress(rest, CopyBack(out, offset, len))) else None
  }

  /** A copy with one extra byte: lengths from 4 to 11 and offsets of eleven bits. */
  lemma OneByteCopyExact(offset: nat, len: nat, rest: seq<byte>, out: seq<byte>)
    requires offset < 2048 && 4 <= len <= 11
    ensures Copies([1 + 4 * (len - 4) + 32 * (offset / 256)] + [offset % 256] + rest, rest, out, offset, len)
  {
    hide CopyBack, DecodeElement;
    var tag: byte := 1 + 4 * (len - 4) + 32 * (offset / 256);
    TagFields(1, len - 4 + 8 * (offset / 256));
    assert tag / 32 == offset / 256 && tag / 4 % 8 == len - 4;
    ElementInParts(tag, [offset % 256], rest, out);
    assert LittleEndian([offset % 256]) == offset % 256 by { assert [offset % 256][1..] == []; }
    assert CopyOffset(tag, [offset % 256]) == offset;
  }

  /** A copy with two or four extra bytes: lengths up to 64, and a little-endian offset. */
  lemma LongCopyExact(low: nat, extra: seq<byte>, len: nat, rest: seq<byte>, out: seq<byte>)
    requires 1 <= len <= 64 && ((low == 2 && |extra| == 2) || (low == 3 && |extra| == 4))
    ensures Copies([low + 4 * (len - 1)] + extra + rest, rest, out, LittleEndian(extra), len)
  {
    hide CopyBack, LittleEndian, DecodeElement, ExtraBytes, CopyOffset, CopyLength, TakeLiteral, LiteralLength;
    var tag: byte := low + 4 * (len - 1);
    LongCopyTag(tag, low, extra, len);
    ElementInParts(tag, extra, rest, out);
  }

  lemma LongCopyTag(tag: byte, low: nat, extra: seq<byte>, len: nat)
    requires 1 <= len <= 64 && ((low == 2 && |extra| == 2) || (low == 3 && |extra| == 4))
    requires tag == low + 4 * (len - 1)
    ensures tag % 4 != 0 && ExtraBytes(tag) == |extra|
    ensures CopyOffset(tag, extra) == LittleEndian(extra) && CopyLength(tag) == len
  {
    hide LittleEndian;
    TagFields(low, len - 1);
  }

  // ---------- properties of the reference decoder ----------

  /** The first element does not depend on what follows it. */
  lemma DecodeElementConcat(a: seq<byte>, b: seq<byte>, out: seq<byte>)
    requires a != [] && DecodeElement(a, out).Some?
    ensures var p := DecodeElement(a, out).value;
            DecodeElement(a + b, out) == Some(Progress(p.rest + b, p.out))
  {
    var n := 1 + ExtraBytes(a[0]);
    var rest := a[n..];
    assert (a + b)[n..] == rest + b;
    assert (a + b)[1..n] == a[1..n];
    if a[0] % 4 == 0 {
      var len := LiteralLength(a[0], a[1..n]);
      assert (rest + b)[len..] == rest[len..] + b;
      assert (rest + b)[..len] == rest[..len];
    }
  }

  /** Streams compose: what follows a decodable stream is decoded on top of its result. */
  lemma {:induction false} DecodeConcat(a: seq<byte>, b: seq<byte>, out: seq<byte>)
    requires DecodeBody(a, out).Some?
    ensures DecodeBody(a + b, out) == DecodeBody(b, DecodeBody(a, out).value)
    decreases |a|
  {
    if a == [] {
      assert a + b == b;
    } else {
      DecodeElementConcat(a, b, out);
      var p := DecodeElement(a, out).value;
      DecodeConcat(p.rest, b, p.out);
    }
  }

  /** In closed form, a back-reference repeats the last `offset` bytes. */
  lemma {:induction false} CopyBackPeriodic(out: seq<byte>, offset: nat, len: nat, k: nat)
    requires 1 <= offset <= |out| && k < len
    ensures CopyBack(out, offset, len)[|out| + k] == out[|out| - offset + k % offset]
    decreases len
  {
    var out' := out + [out[|out| - offset]];
    if k == 0 {
      assert CopyBack(out', offset, len - 1)[..|out'|] == out';
    } else {
      CopyBackPeriodic(out', offset, len - 1, k - 1);
      Arith.ModPredecessor(k, offset);
    }
  }

  /** A back-reference can be emitted in pieces. */
  lemma {:induction false} CopyBackSplit(out: seq<byte>, offset: nat, a: nat, b: nat)
    requires 1 <= offset <= |out|
    ensures CopyBack(CopyBack(out, offset, a), offset, b) == CopyBack(out, offset, a + b)
    decreases a
  {
    if a > 0 {
      CopyBackSplit(out + [out[|out| - offset]], offset, a - 1, b);
    }
  }
}
