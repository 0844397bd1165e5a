/** The record format of dump files: header lines, then a block of properties and a text whose
    lengths the headers announce. The readers go by these lengths alone. */
module DumpFormat {
  import opened Bytes
  import opened Decimal

  const NEWLINE: byte := 10
  const COLON: byte := 58
  const SPACE: byte := 32

  const PROPS_END: seq<byte> := Ascii("PROPS-END")
  const SET_TAG: seq<byte> := Ascii("K ")
  const VALUE_TAG: seq<byte> := Ascii("V ")
  const DELETE_TAG: seq<byte> := Ascii("D ")

  /** A literal as the bytes that are printed. */
  function Ascii(s: string): (r: seq<byte>)
    ensures |r| == |s| && forall i :: 0 <= i < |r| ==> r[i] == (s[i] as int) % 256
  {
    seq(|s|, i requires 0 <= i < |s| => (s[i] as int) % 256)
  }

  datatype Line = Line(name: seq<byte>, value: seq<byte>)

  datatype Entry =
    | Set(key: seq<byte>, value: seq<byte>)
    | Del(key: seq<byte>)

  // ---------- writing ----------

  function LineText(l: Line): seq<byte> {
    l.name + [COLON, SPACE] + l.value + [NEWLINE]
  }

  function LinesText(lines: seq<Line>): seq<byte> {
    if lines == [] then [] else LineText(lines[0]) + LinesText(lines[1..])
  }

  /** A length and the bytes it announces, each on a line. */
  function Sized(tag: seq<byte>, s: seq<byte>): seq<byte> {
    tag + Digits(|s|) + [NEWLINE] + s + [NEWLINE]
  }

  function EntryText(e: Entry): seq<byte> {
    match e
    case Set(key, value) => Sized(SET_TAG, key) + Sized(VALUE_TAG, value)
    case Del(key) => Sized(DELETE_TAG, key)
  }

  function EntriesText(es: seq<Entry>): seq<byte> {
    if es == [] then [] else EntryText(es[0]) + EntriesText(es[1..])
  }

  function Block(es: seq<Entry>): seq<byte> {
    EntriesText(es) + PROPS_END + [NEWLINE]
  }

  /** Header lines and entries, byte by byte. */
  lemma PrintedExactly(name: seq<byte>, value: seq<byte>)
    ensures LineText(Line(name, value)) == name + Ascii(": ") + value + [10]
    ensures EntryText(Set(name, value)) ==
            Ascii("K ") + Digits(|name|) + [10] + name + [10] + Ascii("V ") + Digits(|value|) + [10] + value + [10]
    ensures EntryText(Del(name)) == Ascii("D ") + Digits(|name|) + [10] + name + [10]
  {
    assert Ascii(": ") == [58, 32];
  }

  /** A block is its entries, one after the other, and the last line. */
  lemma BlockExact(es: seq<Entry>, e: Entry)
    ensures Block(es) == EntriesText(es) + Ascii("PROPS-END") + [10]
    ensures EntriesText([]) == [] && EntriesText([e] + es) == EntryText(e) + EntriesText(es)
  {
    assert ([e] + es)[1..] == es;
  }

  // ---------- reading ----------

  /** The first line of the input, and what follows it. */
  function ReadLine(s: seq<byte>): (r: Option<(seq<byte>, seq<byte>)>)
    ensures r.Some? ==> |r.value.0| + |r.value.1| + 1 == |s|
  {
    if s == [] then None
    else if s[0] == NEWLINE then Some(([], s[1..]))
    else
      match ReadLine(s[1..])
      case None => None
      case Some(p) => Some(([s[0]] + p.0, p.1))
  }

  function ReadNumber(s: seq<byte>): Option<nat> {
    if s == [] then None
    else
      var d := s[|s| - 1] as int - 48;
      if d < 0 || d > 9 then None
      else if |s| == 1 then Some(d)
      else
        match ReadNumber(s[..|s| - 1])
        case None => None
        case Some(n) => Some(10 * n + d)
  }

  /** The number on the first line of the input, after a tag. */
  function ReadTagged(tag: seq<byte>, line: seq<byte>): Option<nat> {
    if tag <= line then ReadNumber(line[|tag|..]) else None
  }

  /** So many bytes and the end of the line. */
  function ReadBytes(s: seq<byte>, n: nat): (r: Option<(seq<byte>, seq<byte>)>)
    ensures r.Some? ==> |r.value.1| < |s|
  {
    if n < |s| && s[n] == NEWLINE then Some((s[..n], s[n + 1..])) else None
  }

  /** A line with a tag and a length, and as many bytes on the next. */
  function ReadSized(tag: seq<byte>, s: seq<byte>): (r: Option<(seq<byte>, seq<byte>)>)
    ensures r.Some? ==> |r.value.1| < |s|
  {
    match ReadLine(s)
    case None => None
    case Some(p) =>
      match ReadTagged(tag, p.0)
      case None => None
      case Some(n) => ReadBytes(p.1, n)
  }

  function ReadEntry(s: seq<byte>): (r: Option<(Entry, seq<byte>)>)
    ensures r.Some? ==> |r.value.1| < |s|
  {
    match ReadSized(SET_TAG, s)
    case Some(k) =>
      (match ReadSized(VALUE_TAG, k.1)
       case Some(v) => Some((Set(k.0, v.0), v.1))
       case None => None)
    case None =>
      (match ReadSized(DELETE_TAG, s)
       case Some(k) => Some((Del(k.0), k.1))
       case None => None)
  }

  /** Entries up to the line that ends the block. */
  function ReadBlock(s: seq<byte>): Option<(seq<Entry>, seq<byte>)>
    decreases |s|
  {
    match ReadLine(s)
    case None => None
    case Some(p) =>
      if p.0 == PROPS_END then Some(([], p.1))
      else
        match ReadEntry(s)
        case None => None
        case Some(e) =>
          match ReadBlock(e.1)
          case None => None
          case Some(r) => Some(([e.0] + r.0, r.1))
  }

  /** A header line, cut at its first colon. */
  function ReadHeader(line: seq<byte>): Option<Line> {
    if |line| < 2 then None
    else if line[0] == COLON then (if line[1] == SPACE then Some(Line([], line[2..])) else None)
    else
      match ReadHeader(line[1..])
      case None => None
      case Some(l) => Some(Line([line[0]] + l.name, l.value))
  }

  /** Header lines up to the empty line. */
  function ReadHeaders(s: seq<byte>): Option<(seq<Line>, seq<byte>)>
    decreases |s|
  {
    match ReadLine(s)
    case None => None
    case Some(p) =>
      if p.0 == [] then Some(([], p.1))
      else
        match ReadHeader(p.0)
        case None => None
        case Some(l) =>
          match ReadHeaders(p.1)
          case None => None
          case Some(r) => Some(([l] + r.0, r.1))
  }

  /** The length in a header, 0 if there is no such header. */
  function LengthIn(lines: seq<Line>, name: seq<byte>): Option<nat> {
    if lines == [] then Some(0)
    else if lines[0].name == name then ReadNumber(lines[0].value)
    else LengthIn(lines[1..], name)
  }

  datatype Record = Record(lines: seq<Line>, entries: seq<Entry>, text: seq<byte>)

  const PROP_LENGTH: seq<byte> := Ascii("Prop-content-length")
  const TEXT_LENGTH: seq<byte> := Ascii("Text-content-length")
  const CONTENT_LENGTH: seq<byte> := Ascii("Content-length")

  /** A whole record, and what follows: the lengths must add up and the block fill its length. */
  function ReadRecord(s: seq<byte>): Option<(Record, seq<byte>)> {
    match ReadHeaders(s)
    case None => None
    case Some(h) =>
      var lines, body := h.0, h.1;
      match (LengthIn(lines, PROP_LENGTH), LengthIn(lines, TEXT_LENGTH), LengthIn(lines, CONTENT_LENGTH))
      case (Some(p), Some(t), Some(c)) =>
        if c != p + t || |body| < c then None
        else if p == 0 then Some((Record(lines, [], body[..c]), body[c..]))
        else (match ReadBlock(body[..p])
              case None => None
              case Some(b) => if b.1 == [] then Some((Record(lines, b.0, body[p..c]), body[c..])) else None)
      case _ => None
  }

  // ---------- reading what was written ----------

  ghost predicate OneLine(s: seq<byte>) {
    NEWLINE !in s
  }

  lemma {:induction false} ReadLineBack(line: seq<byte>, rest: seq<byte>)
    requires OneLine(line)
    ensures ReadLine(line + [NEWLINE] + rest) == Some((line, rest))
  {
    var s := line + [NEWLINE] + rest;
    if line == [] {
      assert s[1..] == rest;
    } else {
      ReadLineBack(line[1..], rest);
      assert s[1..] == line[1..] + [NEWLINE] + rest;
      assert s[0] == line[0] != NEWLINE;
      assert [line[0]] + line[1..] == line;
    }
  }

  lemma {:induction false} ReadNumberBack(n: nat)
    ensures ReadNumber(Digits(n)) == Some(n) && OneLine(Digits(n))
  {
    var s := Digits(n);
    if n >= 10 {
      ReadNumberBack(n / 10);
      assert s[..|s| - 1] == Digits(n / 10);
    }
  }

  lemma ReadSizedBack(tag: seq<byte>, s: seq<byte>, rest: seq<byte>)
    requires OneLine(tag)
    ensures ReadSized(tag, Sized(tag, s) + rest) == Some((s, rest))
    ensures ReadLine(Sized(tag, s) + rest) == Some((tag + Digits(|s|), s + [NEWLINE] + rest))
  {
    var line, after := tag + Digits(|s|), s + [NEWLINE] + rest;
    ReadNumberBack(|s|);
    ReadLineBack(line, after);
    assert Sized(tag, s) + rest == line + [NEWLINE] + after;
    assert line[|tag|..] == Digits(|s|);
    assert after[..|s|] == s && after[|s| + 1..] == rest;
  }

  /** Literals of a few letters. */
  lemma Tags()
    ensures SET_TAG == [75, 32] && VALUE_TAG == [86, 32] && DELETE_TAG == [68, 32]
    ensures PROPS_END == [80, 82, 79, 80, 83, 45, 69, 78, 68]
  {
  }

  /** A line that begins differently is not taken for a tagged one. */
  lemma OtherTag(tag: seq<byte>, other: seq<byte>, line: seq<byte>, s: seq<byte>, rest: seq<byte>)
    requires tag != [] && other != [] && tag[0] != other[0] && other <= line && ReadLine(s) == Some((line, rest))
    ensures ReadSized(tag, s) == None
  {
    assert line[0] == other[0];
  }

  lemma ReadEntryBack(e: Entry, rest: seq<byte>)
    ensures ReadEntry(EntryText(e) + rest) == Some((e, rest))
    ensures exists line, after :: line != PROPS_END && ReadLine(EntryText(e) + rest) == Some((line, after))
  {
    hide ReadSized, Sized;
    Tags();
    match e {
      case Set(key, value) =>
        var tail := Sized(VALUE_TAG, value) + rest;
        ReadSizedBack(SET_TAG, key, tail);
        ReadSizedBack(VALUE_TAG, value, rest);
        assert EntryText(e) + rest == Sized(SET_TAG, key) + tail;
        assert (SET_TAG + Digits(|key|))[0] == 75;
      case Del(key) =>
        ReadSizedBack(DELETE_TAG, key, rest);
        var line := DELETE_TAG + Digits(|key|);
        OtherTag(SET_TAG, DELETE_TAG, line, EntryText(e) + rest, key + [NEWLINE] + rest);
        assert line[0] == 68;
    }
  }

  /** A block is read back whatever the values hold. */
  lemma {:induction false} ReadBlockBack(es: seq<Entry>, rest: seq<byte>)
    ensures ReadBlock(Block(es) + rest) == Some((es, rest))
  {
    hide EntryText, ReadEntry, ReadLine;
    var s := Block(es) + rest;
    if es == [] {
      PropsEndLine();
      ReadLineBack(PROPS_END, rest);
      assert s == PROPS_END + [NEWLINE] + rest;
    } else {
      var tail := Block(es[1..]) + rest;
      assert s == EntryText(es[0]) + tail;
      ReadEntryBack(es[0], tail);
      ReadBlockBack(es[1..], rest);
      assert [es[0]] + es[1..] == es;
    }
  }

  lemma PropsEndLine()
    ensures OneLine(PROPS_END)
  {
    Tags();
  }

  /** A header line that reads back. */
  ghost predicate WellFormed(l: Line) {
    l.name != [] && OneLine(l.name) && COLON !in l.name && OneLine(l.value)
  }

  ghost predicate AllWellFormed(lines: seq<Line>) {
    forall i :: 0 <= i < |lines| ==> WellFormed(lines[i])
  }

  lemma {:induction false} ReadHeaderBack(name: seq<byte>, value: seq<byte>)
    requires COLON !in name
    ensures ReadHeader(name + [COLON, SPACE] + value) == Some(Line(name, value))
  {
    var s := name + [COLON, SPACE] + value;
    if name == [] {
      assert s[2..] == value;
    } else {
      ReadHeaderBack(name[1..], value);
      assert s[1..] == name[1..] + [COLON, SPACE] + value;
      assert s[0] == name[0];
      assert [name[0]] + name[1..] == name;
    }
  }

  lemma {:induction false} ReadHeadersBack(lines: seq<Line>, rest: seq<byte>)
    requires AllWellFormed(lines)
    ensures ReadHeaders(LinesText(lines) + [NEWLINE] + rest) == Some((lines, rest))
  {
    var s := LinesText(lines) + [NEWLINE] + rest;
    if lines == [] {
      ReadLineBack([], rest);
      assert s == [] + [NEWLINE] + rest;
    } else {
      var l, tail := lines[0], LinesText(lines[1..]) + [NEWLINE] + rest;
      var line := l.name + [COLON, SPACE] + l.value;
      assert s == line + [NEWLINE] + tail;
      ReadLineBack(line, tail);
      ReadHeaderBack(l.name, l.value);
      ReadHeadersBack(lines[1..], rest);
      assert [l] + lines[1..] == lines;
    }
  }

  /** The headers announce lengths. */
  ghost predicate Announces(lines: seq<Line>, p: nat, t: nat) {
    && LengthIn(lines, PROP_LENGTH) == Some(p) && LengthIn(lines, TEXT_LENGTH) == Some(t)
    && LengthIn(lines, CONTENT_LENGTH) == Some(p + t)
  }

  /** A record whose headers announce the lengths of its parts is read back, and nothing more. */
  lemma ReadRecordBack(lines: seq<Line>, block: seq<byte>, es: seq<Entry>, text: seq<byte>, rest: seq<byte>)
    requires AllWellFormed(lines) && Announces(lines, |block|, |text|)
    requires if block == [] then es == [] else block == Block(es)
    ensures ReadRecord(LinesText(lines) + [NEWLINE] + block + text + rest) == Some((Record(lines, es, text), rest))
  {
    hide ReadHeaders, ReadBlock, LengthIn, LinesText, Block;
    var body := block + text + rest;
    var s := LinesText(lines) + [NEWLINE] + block + text + rest;
    assert s == LinesText(lines) + [NEWLINE] + body;
    ReadHeadersBack(lines, body);
    var p, c := |block|, |block| + |text|;
    assert body[..p] == block && body[p..c] == text && body[c..] == rest && body[..c] == block + text;
    if block != [] {
      ReadBlockBack(es, []);
      assert Block(es) + [] == block;
    } else {
      assert block + text == text;
    }
  }
}
