/** The table-driven decompressor. */
module SnappyDecompress {
  import Arith
  import opened Bytes
  import opened SnappyFormat
  import opened SnappyTable
  import opened SnappyWriter

  /** A byte source that hands out its data in fragments. */
  class Source {
    const data: seq<byte>
    var pos: nat

    ghost predicate Valid()
      reads this
    {
      pos <= |data| < TWO_32
    }

    constructor (input: seq<byte>)
      requires |input| < TWO_32
      ensures Valid() && data == input && pos == 0
    {
      data, pos := input, 0;
    }

    function Available(): nat
      requires Valid()
      reads this
    {
      |data| - pos
    }

    /** The number of bytes readable at the current position. The flat reader answers with all
        that is left, the scatter-gather one with what is left of a segment; all the callers
        rely on is that it is zero only at the end. */
    method Peek() returns (n: nat)
      requires Valid()
      ensures n <= |data| - pos && (n == 0 <==> pos == |data|)
    {
      if pos == |data| {
        n := 0;
      } else {
        n :| 0 < n <= |data| - pos;
      }
    }

    method Skip(n: nat)
      requires Valid() && n <= |data| - pos
      modifies this
      ensures Valid() && pos == old(pos) + n
    {
      pos := pos + n;
    }
  }

  /** Reads the length preamble byte by byte; `None` is the error return. */
  method ReadUncompressedLength(reader: Source) returns (result: Option<nat>)
    requires reader.Valid()
    modifies reader
    ensures reader.Valid()
    ensures match ReadPreamble(old(reader.data[reader.pos..]), 0)
            case None => result == None
            case Some(p) => result == Some(p.Value()) && reader.pos == old(reader.pos) + p.size
  {
    hide ReadPreamble, Reading;
    ghost var s, start := reader.data[reader.pos..], reader.pos;
    ghost var number: nat := 0;
    var value: nat, shift: nat := 0, 0;
    ReadingStarts(s);
    while true
      invariant reader.Valid() && start <= reader.pos && shift == 7 * (reader.pos - start)
      invariant value == number % TWO_32
      invariant Reading(s, reader.data[reader.pos..], shift, number, reader.pos - start)
      decreases |reader.data| - reader.pos
    {
      ghost var rest := reader.data[reader.pos..];
      ReadGroup(s, rest, shift, number, reader.pos - start);
      if shift >= 32 {
        return None;
      }
      var n := reader.Peek();
      if n == 0 {
        return None;
      }
      var c := reader.data[reader.pos];
      assert rest[0] == c && rest[1..] == reader.data[reader.pos + 1..];
      reader.Skip(1);
      // the new group is or-ed into bits that are still zero, in a 32-bit word
      Arith.ModAdd(number, c % 128 * Pow2(shift), TWO_32);
      value := (value + c % 128 * Pow2(shift)) % TWO_32;
      number := number + c % 128 * Pow2(shift);
      if c < 128 {
        break;
      }
      shift := shift + 7;
    }
    return Some(value);
  }

  /** Of the preamble `s`, `used` bytes spelling `number` are read, and `rest` is to be read. */
  ghost predicate Reading(s: seq<byte>, rest: seq<byte>, shift: nat, number: nat, used: nat) {
    ReadPreamble(s, 0) ==
      match ReadPreamble(rest, shift)
      case None => None
      case Some(p) => Some(Preamble(number + p.number, used + p.size))
  }

  lemma ReadingStarts(s: seq<byte>)
    ensures Reading(s, s, 0, 0, 0)
  {
  }

  lemma ReadGroup(s: seq<byte>, rest: seq<byte>, shift: nat, number: nat, used: nat)
    requires Reading(s, rest, shift, number, used)
    ensures shift >= 32 || rest == [] ==> ReadPreamble(s, 0) == None
    ensures shift < 32 && rest != [] ==>
              var n := number + rest[0] % 128 * Pow2(shift);
              if rest[0] < 128 then ReadPreamble(s, 0) == Some(Preamble(n, used + 1))
              else Reading(s, rest[1..], shift + 7, n, used + 1)
  {
  }

  /** A tag and its extra bytes as they lie in a buffer, of which `tail` is the continuation. */
  lemma TagInBuffer(buffer: seq<byte>, ip: nat, ipLimit: nat, tail: seq<byte>, n: nat)
    requires n <= 4 && ip + 5 <= |buffer| && ip + 1 + n <= ipLimit <= |buffer|
    ensures var s := buffer[ip..ipLimit] + tail;
            s[0] == buffer[ip] && 1 + n <= |s| && s[1 + n..] == buffer[ip + 1 + n..ipLimit] + tail
            && LittleEndian(buffer[ip + 1..ip + 5]) % (WordMask(n) + 1) == LittleEndian(s[1..1 + n])
  {
    var s := buffer[ip..ipLimit] + tail;
    var word, extra := buffer[ip + 1..ip + 5], s[1..1 + n];
    forall i | 0 <= i < n
      ensures word[..n][i] == extra[i]
    {
      assert s[1 + i] == buffer[ip..ipLimit][1 + i];
    }
    assert word[..n] == extra;
    MaskedLoad(buffer[ip + 1..ip + 5], n);
  }

  /** The first `n` bytes are buffered ones. */
  lemma SplitBuffered(buffer: seq<byte>, ip: nat, ipLimit: nat, unread: seq<byte>, n: nat)
    requires ip + n <= ipLimit <= |buffer|
    ensures var all := buffer[ip..ipLimit] + unread;
            n <= |all| && all[n..] == buffer[ip + n..ipLimit] + unread && all[..n] == buffer[ip..ip + n]
  {
    ConcatSlices(buffer[ip..ipLimit], unread, n);
    SubSlice(buffer, ip, ipLimit, 0, n);
    SubSlice(buffer, ip, ipLimit, n, ipLimit - ip);
  }

  /** What a literal decodes to, with its length in the tag or in the extra bytes. */
  lemma LiteralElement(s: seq<byte>, out: seq<byte>)
    requires s != [] && s[0] % 4 == 0
    ensures s[0] / 4 < 60 ==> DecodeElement(s, out) == TakeLiteral(s[1..], s[0] / 4 + 1, out)
    ensures var n := 1 + ExtraBytes(s[0]);
            s[0] / 4 >= 60 && n <= |s| ==>
              DecodeElement(s, out) == TakeLiteral(s[n..], LiteralLength(s[0], s[1..n]), out)
  {
    hide TakeLiteral;
  }

  /** What the table says of the tag of a copy. */
  lemma CopyFields(tag: byte)
    requires tag % 4 != 0
    ensures var entry := CharTable(tag);
            entry / 2048 == ExtraBytes(tag) && entry % 256 == CopyLength(tag)
  {
    hide CharTable, ExtraBytes, CopyLength;
  }

  lemma CopyOffsetIs(tag: byte, extra: seq<byte>)
    requires tag % 4 != 0
    ensures CopyOffset(tag, extra) == CharTable(tag) / 256 % 8 * 256 + LittleEndian(extra)
  {
    hide CharTable, LittleEndian;
  }

  /** A literal can be appended in pieces. */
  lemma LiteralPiece(s: seq<byte>, len: nat, out: seq<byte>, n: nat)
    requires n <= len && n <= |s|
    ensures TakeLiteral(s[n..], len - n, out + s[..n]) == TakeLiteral(s, len, out)
  {
    if |s| >= len {
      assert s[n..][len - n..] == s[len..];
      assert out + s[..n] + s[n..][..len - n] == out + s[..len];
    }
  }

  /** The element cannot be decoded, or its output is more than `limit` bytes. */
  ghost predicate Overflows(r: Option<Progress>, limit: nat) {
    r == None || |r.value.out| > limit
  }

  /** The input ends within the header of its first element. */
  ghost predicate Truncated(s: seq<byte>) {
    s != [] && |s| < 1 + ExtraBytes(s[0])
  }

  lemma TruncatedFails(s: seq<byte>, out: seq<byte>)
    ensures Truncated(s) ==> DecodeBody(s, out) == None
  {
  }

  class Decompressor {
    const reader: Source
    const scratch: array<byte>
    var inScratch: bool   // whether `ip` and `ipLimit` point into `scratch` or into the reader's bytes
    var ip: nat
    var ipLimit: nat
    var peeked: nat
    var eof: bool

    constructor (source: Source)
      requires source.Valid()
      ensures Valid() && reader == source && !eof && fresh(scratch)
      ensures Remaining() == reader.data[reader.pos..]
    {
      reader := source;
      scratch := new byte[5];
      inScratch, ip, ipLimit, peeked, eof := false, 0, 0, 0, false;
    }

    ghost predicate Valid()
      reads this, reader, scratch
    {
      && reader.Valid() && scratch.Length == 5
      && ip <= ipLimit <= |Buffer()|
      && reader.pos + peeked <= |reader.data|
      && (inScratch ==> peeked == 0)
    }

    function Buffer(): seq<byte>
      reads this, scratch
    {
      if inScratch then scratch[..] else reader.data
    }

    /** The compressed bytes not yet consumed: the buffered ones, then those not yet peeked. */
    ghost function Remaining(): seq<byte>
      requires Valid()
      reads this, reader, scratch
    {
      Buffer()[ip..ipLimit] + reader.data[reader.pos + peeked..]
    }

    /** The tag at `ip` is buffered with all its extra bytes, and four bytes can be loaded after it. */
    ghost predicate HeaderBuffered()
      requires Valid()
      reads this, reader, scratch
    {
      ip + 5 <= |Buffer()| && ip < ipLimit && ip + 1 + ExtraBytes(Buffer()[ip]) <= ipLimit
    }

    /** Copies the buffered bytes to the start of the scratch area and lets go of the fragment. */
    method MoveToScratch()
      requires Valid() && !eof && ipLimit - ip <= 5
      modifies this, reader, scratch
      ensures Valid() && !eof && inScratch && ip == 0 && ipLimit == old(ipLimit - ip)
      ensures Remaining() == old(Remaining())
    {
      ghost var all := Remaining();
      var bytes := Buffer()[ip..ipLimit];
      forall i | 0 <= i < |bytes| {
        scratch[i] := bytes[i];
      }
      assert scratch[..|bytes|] == bytes;
      reader.Skip(peeked);
      inScratch, ip, ipLimit, peeked := true, 0, |bytes|, 0;
      assert scratch[..][0..|bytes|] == scratch[..|bytes|];
    }

    /** Lets go of the current fragment and fetches a new one; fails at the end of the input. */
    method NextFragment() returns (ok: bool)
      requires Valid() && !eof && ip == ipLimit
      modifies this, reader
      ensures Valid() && Remaining() == old(Remaining())
      ensures !eof && (if ok then ip < ipLimit else Remaining() == [])
    {
      ghost var all := Remaining();
      assert all == reader.data[reader.pos + peeked..];
      reader.Skip(peeked);
      var n := reader.Peek();
      peeked := n;
      inScratch := false;
      ip := reader.pos;
      ipLimit := reader.pos + n;
      SplitAt(reader.data, ip, ipLimit);
      return n != 0;
    }

    /** Appends `n` bytes of the reader to the `nbuf` bytes in the scratch area. */
    method TakeIntoScratch(n: nat)
      requires Valid() && inScratch && ip == 0 && ipLimit + n <= 5 && n <= |reader.data| - reader.pos
      modifies this, reader, scratch
      ensures Valid() && inScratch && ip == 0 && ipLimit == old(ipLimit) + n && eof == old(eof)
      ensures Remaining() == old(Remaining())
    {
      ghost var all := Remaining();
      var nbuf := ipLimit;
      ghost var before := scratch[..nbuf];
      forall i | 0 <= i < n {
        scratch[nbuf + i] := reader.data[reader.pos + i];
      }
      assert scratch[..nbuf + n] == before + reader.data[reader.pos..reader.pos + n];
      reader.Skip(n);
      ipLimit := nbuf + n;
      assert scratch[..][0..nbuf + n] == scratch[..nbuf + n];
      assert Remaining() == all;
    }

    /** Collects the `needed` bytes of a tag from as many fragments as it takes. */
    method Stitch(needed: nat) returns (ok: bool)
      requires Valid() && !eof && ip < ipLimit && ipLimit - ip < needed <= 5
      modifies this, reader, scratch
      ensures Valid() && !eof && Remaining() == old(Remaining())
      ensures if ok then inScratch && ip == 0 && ipLimit == needed else |Remaining()| < needed
    {
      MoveToScratch();
      while ipLimit < needed
        invariant Valid() && !eof && inScratch && ip == 0 && ipLimit <= needed
        invariant Remaining() == old(Remaining())
      {
        var length := reader.Peek();
        if length == 0 {
          return false;
        }
        TakeIntoScratch(Min(needed - ipLimit, length));
      }
      return true;
    }

    /** Makes a whole tag available, stitching it together in `scratch` if it straddles
        fragments or sits too close to the end of one. Fails only at the end of the input
        (`eof`) or when the input ends within the tag. */
    method RefillTag() returns (ok: bool)
      requires Valid() && !eof
      modifies this, reader, scratch
      ensures Valid() && Remaining() == old(Remaining())
      ensures if ok then !eof && HeaderBuffered() else if eof then Remaining() == [] else Truncated(Remaining())
    {
      if ip == ipLimit {
        ok := NextFragment();
        if !ok {
          eof := true;
          return;
        }
      }
      var c := Buffer()[ip];
      assert c == Remaining()[0];
      var entry := CharTable(c);
      var needed := entry / 2048 + 1;
      var nbuf := ipLimit - ip;
      if nbuf < needed {
        ok := Stitch(needed);
      } else if nbuf < 5 {
        MoveToScratch();
        ok := true;
      } else {
        ok := true;
      }
      assert ip < ipLimit ==> Buffer()[ip] == Remaining()[0];
    }

    method MaybeRefill() returns (ok: bool)
      requires Valid() && !eof
      modifies this, reader, scratch
      ensures Valid() && Remaining() == old(Remaining())
      ensures if ok then !eof && HeaderBuffered() else if eof then Remaining() == [] else Truncated(Remaining())
    {
      if ipLimit - ip < 5 {
        ok := RefillTag();
      } else {
        ok := true;
      }
    }

    /** The number in the `n` extra bytes after the tag, from a masked 32-bit load at `p`. */
    function MaskedExtra(p: nat, n: nat): nat
      requires n <= 4 && p + 4 <= |Buffer()|
      reads this, scratch
    {
      LittleEndian(Buffer()[p..p + 4]) % (WordMask(n) + 1)
    }

    /** Reads the tag byte and the length of a long literal. */
    method LiteralHeader() returns (len: nat)
      requires Valid() && HeaderBuffered() && Remaining()[0] % 4 == 0 && Remaining()[0] / 4 >= 60
      modifies `ip
      ensures Valid()
      ensures var s := old(Remaining()); var n := 1 + ExtraBytes(s[0]);
              n <= |s| && Remaining() == s[n..] && len == LiteralLength(s[0], s[1..n])
    {
      var c := Buffer()[ip];
      var literalLl := c / 4 + 1 - 60;
      TagInBuffer(Buffer(), ip, ipLimit, reader.data[reader.pos + peeked..], literalLl);
      len := (MaskedExtra(ip + 1, literalLl) + 1) % TWO_32;
      ip := ip + 1 + literalLl;
    }

    /** Consumes `n` buffered bytes. */
    method Advance(n: nat)
      requires Valid() && ip + n <= ipLimit
      modifies `ip
      ensures Valid() && ip == old(ip) + n
      ensures n <= |old(Remaining())| && Remaining() == old(Remaining())[n..]
      ensures old(Buffer()[ip..ip + n]) == old(Remaining())[..n]
    {
      SplitBuffered(Buffer(), ip, ipLimit, reader.data[reader.pos + peeked..], n);
      ip := ip + n;
    }

    /** Processes the literal at `ip`; a failure means the stream cannot produce the announced
        number of bytes. */
    method DecompressLiteral(writer: Writer) returns (ok: bool)
      requires Valid() && !eof && writer.Valid() && writer.base != scratch
      requires HeaderBuffered() && Remaining()[0] % 4 == 0
      modifies this, reader, writer`op, writer.base
      ensures Valid() && !eof && writer.Valid()
      ensures var r := old(DecodeElement(Remaining(), writer.Output()));
              if ok then r == Some(Progress(Remaining(), writer.Output()))
              else Overflows(r, writer.opLimit)
    {
      hide DecodeElement, TakeLiteral, LiteralLength, ExtraBytes, Overflows;
      var c := Buffer()[ip];
      assert c == Remaining()[0];
      LiteralElement(Remaining(), writer.Output());
      var literalLength := c / 4 + 1;
      ok := FastLiteral(writer, literalLength);
      if ok {
        return;
      }
      ok := SlowLiteral(writer, literalLength);
    }

    /** Reads the rest of the header of the literal at `ip`, if it has one, and appends the literal. */
    method SlowLiteral(writer: Writer, length: nat) returns (ok: bool)
      requires Valid() && !eof && writer.Valid() && writer.base != scratch
      requires HeaderBuffered() && Remaining()[0] % 4 == 0 && length == Remaining()[0] / 4 + 1
      modifies this, reader, writer`op, writer.base
      ensures Valid() && !eof && writer.Valid()
      ensures var r := old(DecodeElement(Remaining(), writer.Output()));
              if ok then r == Some(Progress(Remaining(), writer.Output()))
              else Overflows(r, writer.opLimit)
    {
      hide DecodeElement, TakeLiteral, LiteralLength, ExtraBytes, Overflows;
      LiteralElement(Remaining(), writer.Output());
      var literalLength := length;
      if literalLength >= 61 {
        literalLength := LiteralHeader();
      } else {
        Advance(1);
      }
      ok := AppendLiteral(writer, literalLength);
    }

    /** Tries the sixteen-byte append on a literal whose length is in its tag. */
    method FastLiteral(writer: Writer, len: nat) returns (ok: bool)
      requires Valid() && !eof && writer.Valid() && writer.base != scratch && ip < ipLimit && len > 0
      modifies `ip, writer`op, writer.base
      ensures Valid() && !eof && writer.Valid()
      ensures var r := old(TakeLiteral(Remaining()[1..], len, writer.Output()));
              ok ==> len <= 16 && r == Some(Progress(Remaining(), writer.Output()))
      ensures !ok ==> ip == old(ip) && writer.Output() == old(writer.Output())
    {
      var bytes := Buffer()[ip + 1..ipLimit];
      ghost var rest := reader.data[reader.pos + peeked..];
      ConcatSlices(Buffer()[ip..ipLimit], rest, 1);
      SubSlice(Buffer(), ip, ipLimit, 1, ipLimit - ip);
      ok := writer.TryFastAppend(bytes, ipLimit - (ip + 1), len);
      if ok {
        ConcatSlices(bytes, rest, len);
        SubSlice(Buffer(), ip + 1, ipLimit, len, ipLimit - (ip + 1));
        ip := ip + 1 + len;
      }
    }

    /** Appends what is buffered of a literal and fetches the next fragment. */
    method AppendFragment(writer: Writer, len: nat) returns (ok: bool)
      requires Valid() && !eof && writer.Valid() && writer.base != scratch && ipLimit - ip < len
      modifies this, reader, writer`op, writer.base
      ensures Valid() && !eof && writer.Valid()
      ensures var s, out, n := old(Remaining()), old(writer.Output()), old(ipLimit - ip);
              if ok then
                n <= |s| && ip < ipLimit && Remaining() == s[n..] && writer.Output() == out + s[..n]
              else
                Min(len, |s|) + |out| > writer.opLimit || |s| < len
    {
      var avail := ipLimit - ip;
      assert Remaining()[..avail] == Buffer()[ip..ipLimit];
      ok := writer.Append(Buffer()[ip..ipLimit], avail);
      if ok {
        Advance(avail);
        ok := NextFragment();
      }
    }

    /** Appends a literal that may extend over several fragments. */
    method AppendLiteral(writer: Writer, length: nat) returns (ok: bool)
      requires Valid() && !eof && writer.Valid() && writer.base != scratch
      modifies this, reader, writer`op, writer.base
      ensures Valid() && !eof && writer.Valid()
      ensures var r := TakeLiteral(old(Remaining()), length, old(writer.Output()));
              if ok then r == Some(Progress(Remaining(), writer.Output()))
              else Overflows(r, writer.opLimit)
    {
      ghost var s0, out0 := Remaining(), writer.Output();
      var len: nat := length;
      while ipLimit - ip < len
        invariant Valid() && !eof && writer.Valid()
        invariant TakeLiteral(Remaining(), len, writer.Output()) == TakeLiteral(s0, length, out0)
        decreases len, ipLimit == ip
      {
        ghost var s, out := Remaining(), writer.Output();
        var avail := ipLimit - ip;
        ok := AppendFragment(writer, len);
        if !ok {
          return;
        }
        LiteralPiece(s, len, out, avail);
        len := len - avail;
      }
      ok := FinishLiteral(writer, len);
    }

    /** Appends the end of a literal, all of which is buffered. */
    method FinishLiteral(writer: Writer, len: nat) returns (ok: bool)
      requires Valid() && !eof && writer.Valid() && writer.base != scratch && len <= ipLimit - ip
      modifies this, writer`op, writer.base
      ensures Valid() && !eof && writer.Valid()
      ensures var r := TakeLiteral(old(Remaining()), len, old(writer.Output()));
              if ok then r == Some(Progress(Remaining(), writer.Output()))
              else Overflows(r, writer.opLimit)
    {
      ghost var s, out := Remaining(), writer.Output();
      assert s[..len] == Buffer()[ip..ipLimit][..len];
      ok := writer.Append(Buffer()[ip..ipLimit], len);
      if !ok {
        return;
      }
      Advance(len);
    }

    /** Reads the tag byte of a copy and its extra bytes. */
    method CopyHeader() returns (offset: nat, length: nat)
      requires Valid() && HeaderBuffered() && Remaining()[0] % 4 != 0
      modifies `ip
      ensures Valid()
      ensures var s := old(Remaining()); var n := 1 + ExtraBytes(s[0]);
              n <= |s| && Remaining() == s[n..]
              && offset == CopyOffset(s[0], s[1..n]) && length == CopyLength(s[0])
    {
      hide CharTable, EntryMeets, CopyOffset, CopyLength, ExtraBytes, LittleEndian, WordMask;
      ghost var s := Remaining();
      var c := Buffer()[ip];
      var entry := CharTable(c);
      var extra := entry / 2048;
      CopyFields(c);
      TagInBuffer(Buffer(), ip, ipLimit, reader.data[reader.pos + peeked..], extra);
      var trailer := MaskedExtra(ip + 1, extra);
      CopyOffsetIs(c, s[1..1 + extra]);
      // bits 8..10 of the entry are the offset divided by 256
      offset, length := entry / 256 % 8 * 256 + trailer, entry % 256;
      ip := ip + 1 + extra;
    }

    /** Processes the copy at `ip`. */
    method DecompressCopy(writer: Writer) returns (ok: bool)
      requires Valid() && !eof && writer.Valid() && writer.base != scratch
      requires HeaderBuffered() && Remaining()[0] % 4 != 0
      modifies `ip, writer`op, writer.base
      ensures Valid() && !eof && writer.Valid()
      ensures var r := old(DecodeElement(Remaining(), writer.Output()));
              if ok then r == Some(Progress(Remaining(), writer.Output()))
              else Overflows(r, writer.opLimit)
    {
      ghost var s := Remaining();
      var copyOffset, length := CopyHeader();
      TrailerBound(s[0], s[1..1 + ExtraBytes(s[0])]);
      ok := writer.AppendFromSelf(copyOffset, length);
    }

    /** Decodes element after element until the input ends or an element cannot be decoded. The
        run counts as successful exactly when the reference decoder produces an output of the
        announced length, and then the output is that of the reference decoder. */
    method DecompressAllTags(writer: Writer)
      requires Valid() && !eof && writer.Valid() && writer.base != scratch
      modifies this, reader, scratch, writer`op, writer.base
      ensures Valid() && writer.Valid()
      ensures var r := old(DecodeBody(Remaining(), writer.Output()));
              if eof && writer.CheckLength() then r == Some(writer.Output())
              else r == None || |r.value| != writer.opLimit
    {
      hide DecodeElement;
      ghost var result := DecodeBody(Remaining(), writer.Output());
      var ok := MaybeRefill();
      if !ok {
        TruncatedFails(Remaining(), writer.Output());
        return;
      }
      while true
        invariant Valid() && !eof && writer.Valid() && writer.opLimit == old(writer.opLimit)
        invariant DecodeBody(Remaining(), writer.Output()) == result
        decreases |Remaining()|
      {
        ok := MaybeRefill();
        if !ok {
          TruncatedFails(Remaining(), writer.Output());
          return;
        }
        assert Buffer()[ip] == Remaining()[0];
        if Buffer()[ip] % 4 == 0 {
          ok := DecompressLiteral(writer);
        } else {
          ok := DecompressCopy(writer);
        }
        if !ok {
          return;
        }
        ok := MaybeRefill();
        if !ok {
          TruncatedFails(Remaining(), writer.Output());
          return;
        }
      }
    }
  }

  /** The offset in a tag fits a 32-bit word. */
  lemma TrailerBound(tag: byte, extra: seq<byte>)
    requires tag % 4 != 0 && |extra| == ExtraBytes(tag)
    ensures CopyOffset(tag, extra) < TWO_32 && 0 < CopyLength(tag) <= 64
  {
    LittleEndianSplit(extra, |extra|);
    assert extra[..|extra|] == extra;
    assert Pow256(1) == 256 && Pow256(2) == 65536 && Pow256(4) == TWO_32;
  }

  /** Reads the preamble, then decodes everything; 0 is success, a negative number an error. */
  method InternalUncompress(reader: Source, writer: Writer) returns (err: int)
    requires reader.Valid() && reader.pos == 0 && writer.Valid() && writer.op == 0
    requires var p := ReadPreamble(reader.data, 0);
             p.Some? ==> p.value.Value() < TWO_31 && p.value.Value() <= writer.base.Length
    modifies reader, writer, writer.base
    ensures writer.Valid()
    ensures match Decode(reader.data)
            case None => err < 0
            case Some(out) => err == 0 && writer.Output() == out
  {
    var decompressor: Decompressor;
    assert reader.data[0..] == reader.data;
    var uncompressedLen := ReadUncompressedLength(reader);
    if uncompressedLen == None {
      return -5;
    }
    writer.SetExpectedLength(uncompressedLen.value);
    decompressor := new Decompressor(reader);
    decompressor.DecompressAllTags(writer);
    reader.Skip(decompressor.peeked);
    err := if decompressor.eof && writer.CheckLength() then 0 else -5;
  }

  /** Uncompresses a buffer. As the source demands, the output buffer must hold the announced
      number of bytes; that number must be below 2^31. */
  method Uncompress(compressed: seq<byte>, uncompressed: array<byte>) returns (err: int)
    requires |compressed| < TWO_32
    requires var p := ReadPreamble(compressed, 0);
             p.Some? ==> p.value.Value() < TWO_31 && p.value.Value() <= uncompressed.Length
    modifies uncompressed
    ensures match Decode(compressed)
            case None => err < 0
            case Some(out) => err == 0 && |out| <= uncompressed.Length && uncompressed[..|out|] == out
  {
    var reader := new Source(compressed);
    var output := new Writer(uncompressed);
    err := InternalUncompress(reader, output);
  }
}
