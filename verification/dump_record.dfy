/** Printing the records of a dump: properties, node contents and revision headers. */
module DumpRecord {
  import opened Bytes
  import opened CritBitBits
  import opened DumpFormat
  import opened Decimal
  import opened PropertyEncoding

  /** The standard output. */
  class Stdout {
    var text: seq<byte>

    constructor ()
      ensures text == []
    {
      text := [];
    }

    method Print(s: seq<byte>)
      modifies this
      ensures text == old(text) + s
    {
      text := text + s;
    }

    /** Prints a header line. */
    method PrintLine(l: Line)
      modifies this
      ensures text == old(text) + LineText(l)
    {
      text := text + l.name + [COLON, SPACE] + l.value + [NEWLINE];
      assert text == old(text) + LineText(l);
    }
  }

  // ---------- properties ----------

  /** What a formatted print shows of a value: nothing if there is none, otherwise what is before its
      first NUL. */
  function Shown(value: Option<seq<byte>>): cstring {
    if value.None? then [] else UntilNul(value.value)
  }

  /** Nothing is lost exactly when the value has no NUL. */
  lemma {:induction false} ShownExactly(v: seq<byte>)
    ensures UntilNul(v) == v <==> NulFree(v)
  {
    if NulFree(v) {
      UntilNulOfString(v);
    }
  }

  /** The length of a printed property. */
  method PropertyStrlen(key: cstring, value: Option<seq<byte>>) returns (len: nat)
    ensures len == |EntryText(Set(key, Shown(value)))| > 0
  {
    if value == None {
      NoValueText();
      var s := SET_TAG + Digits(|key|) + [NEWLINE] + key + [NEWLINE] + VALUE_TAG + [48, NEWLINE, NEWLINE];
      assert EntryText(Set(key, [])) == s;
      len := |s|;
    } else {
      var v := Shown(value);
      var s := SET_TAG + Digits(|key|) + [NEWLINE] + key + [NEWLINE]
               + VALUE_TAG + Digits(|v|) + [NEWLINE] + v + [NEWLINE];
      len := |s|;
    }
  }

  lemma NoValueText()
    ensures Sized(VALUE_TAG, []) == VALUE_TAG + [48, NEWLINE, NEWLINE]
  {
    assert Digits(0) == [48];
  }

  method PropertyDelStrlen(key: cstring) returns (len: nat)
    ensures len == |EntryText(Del(key))| > 0
  {
    var s := DELETE_TAG + Digits(|key|) + [NEWLINE] + key + [NEWLINE];
    len := |s|;
  }

  /** Prints a length and the bytes it announces, each on a line. */
  method PrintSized(out: Stdout, tag: seq<byte>, s: seq<byte>)
    modifies out
    ensures out.text == old(out.text) + Sized(tag, s)
  {
    out.Print(tag + Digits(|s|) + [NEWLINE]);
    out.Print(s + [NEWLINE]);
    Associate(old(out.text), tag + Digits(|s|) + [NEWLINE], s + [NEWLINE]);
    assert tag + Digits(|s|) + [NEWLINE] + (s + [NEWLINE]) == Sized(tag, s);
  }

  lemma Associate(a: seq<byte>, b: seq<byte>, c: seq<byte>)
    ensures a + b + c == a + (b + c)
  {
  }

  method PropertyDump(out: Stdout, key: cstring, value: Option<seq<byte>>)
    modifies out
    ensures out.text == old(out.text) + EntryText(Set(key, Shown(value)))
  {
    hide Sized, UntilNul;
    PrintSized(out, SET_TAG, key);
    if value != None {
      PrintSized(out, VALUE_TAG, Shown(value));
    } else {
      NoValueText();
      out.Print(VALUE_TAG + [48, NEWLINE, NEWLINE]);
    }
    Associate(old(out.text), Sized(SET_TAG, key), Sized(VALUE_TAG, Shown(value)));
  }

  method PropertyDelDump(out: Stdout, key: cstring)
    modifies out
    ensures out.text == old(out.text) + EntryText(Del(key))
  {
    PrintSized(out, DELETE_TAG, key);
  }

  // ---------- the contents of a node ----------

  /** The properties that are not deleted, as entries. */
  function Kept(properties: seq<Property>, deleted: seq<cstring>): seq<Entry> {
    if properties == [] then [] else
      var p := properties[|properties| - 1];
      Kept(properties[..|properties| - 1], deleted) + if p.key in deleted then [] else [Set(p.key, UntilNul(p.value))]
  }

  /** The deletions, as entries. */
  function Deletions(deleted: seq<cstring>): (es: seq<Entry>)
    ensures |es| == |deleted| && forall i :: 0 <= i < |es| ==> es[i] == Del(deleted[i])
  {
    seq(|deleted|, i requires 0 <= i < |deleted| => Del(deleted[i]))
  }

  /** What the property block of a node lists; deletions only in format 3. */
  function Entries(properties: seq<Property>, deleted: seq<cstring>, dumpFormat: int): seq<Entry> {
    Kept(properties, deleted) + if dumpFormat == 3 then Deletions(deleted) else []
  }

  lemma {:induction false} EntriesTextConcat(a: seq<Entry>, b: seq<Entry>)
    ensures EntriesText(a + b) == EntriesText(a) + EntriesText(b)
  {
    if a == [] {
      assert a + b == b;
    } else {
      assert (a + b)[0] == a[0] && (a + b)[1..] == a[1..] + b;
      EntriesTextConcat(a[1..], b);
    }
  }

  lemma EntriesTextSnoc(es: seq<Entry>, e: Entry)
    ensures EntriesText(es + [e]) == EntriesText(es) + EntryText(e)
  {
    EntriesTextConcat(es, [e]);
    assert [e][1..] == [];
    assert EntriesText([e]) == EntryText(e) + [];
  }

  lemma DeletionsSnoc(deleted: seq<cstring>, i: nat)
    requires i < |deleted|
    ensures Deletions(deleted[..i + 1]) == Deletions(deleted[..i]) + [Del(deleted[i])]
  {
  }

  /** The length of all entries, computed before anything is printed. */
  method EntriesLength(properties: seq<Property>, deleted: seq<cstring>, dumpFormat: int) returns (propLen: nat)
    ensures propLen == |EntriesText(Entries(properties, deleted, dumpFormat))|
    ensures propLen > 0 <==> Entries(properties, deleted, dumpFormat) != []
  {
    hide EntryText, Entries, Kept, UntilNul, EntriesText, Deletions;
    NothingKept(properties, deleted);
    propLen := 0;
    for i := 0 to |properties|
      invariant propLen == |EntriesText(Kept(properties[..i], deleted))|
      invariant propLen > 0 <==> Kept(properties[..i], deleted) != []
    {
      KeptSnoc(properties, deleted, i);
      var p := properties[i];
      if p.key in deleted {
        continue;
      }
      EntriesTextSnoc(Kept(properties[..i], deleted), Set(p.key, UntilNul(p.value)));
      var n := PropertyStrlen(p.key, Some(p.value));
      propLen := propLen + n;
    }
    assert properties[..|properties|] == properties;
    EntriesOf(properties, deleted, dumpFormat);
    if dumpFormat == 3 {
      ghost var kept := Kept(properties, deleted);
      assert kept + [] == kept;
      for i := 0 to |deleted|
        invariant propLen == |EntriesText(kept + Deletions(deleted[..i]))|
        invariant propLen > 0 <==> kept + Deletions(deleted[..i]) != []
      {
        DeletionsSnoc(deleted, i);
        assert kept + Deletions(deleted[..i + 1]) == kept + Deletions(deleted[..i]) + [Del(deleted[i])];
        EntriesTextSnoc(kept + Deletions(deleted[..i]), Del(deleted[i]));
        var n := PropertyDelStrlen(deleted[i]);
        propLen := propLen + n;
      }
      assert deleted[..|deleted|] == deleted;
    }
  }

  lemma KeptSnoc(properties: seq<Property>, deleted: seq<cstring>, i: nat)
    requires i < |properties|
    ensures var p := properties[i];
            Kept(properties[..i + 1], deleted) ==
            if p.key in deleted then Kept(properties[..i], deleted)
            else Kept(properties[..i], deleted) + [Set(p.key, UntilNul(p.value))]
  {
    assert properties[..i + 1][..i] == properties[..i];
  }

  lemma EntriesOf(properties: seq<Property>, deleted: seq<cstring>, dumpFormat: int)
    ensures Entries(properties, deleted, dumpFormat) ==
            if dumpFormat == 3 then Kept(properties, deleted) + Deletions(deleted) else Kept(properties, deleted)
  {
    assert Kept(properties, deleted) + [] == Kept(properties, deleted);
  }

  lemma NothingKept(properties: seq<Property>, deleted: seq<cstring>)
    ensures Kept(properties[..0], deleted) == [] && EntriesText([]) == [] && Deletions(deleted[..0]) == []
  {
  }

  /** Prints all entries. */
  method DumpEntries(out: Stdout, properties: seq<Property>, deleted: seq<cstring>, dumpFormat: int)
    modifies out
    ensures out.text == old(out.text) + EntriesText(Entries(properties, deleted, dumpFormat))
  {
    hide EntryText, Entries, Kept, UntilNul, EntriesText, Deletions;
    ghost var start, kept := out.text, Kept(properties, deleted);
    NothingKept(properties, deleted);
    for i := 0 to |properties|
      invariant out.text == start + EntriesText(Kept(properties[..i], deleted))
    {
      KeptSnoc(properties, deleted, i);
      var p := properties[i];
      if p.key in deleted {
        continue;
      }
      DumpOne(out, p, start, Kept(properties[..i], deleted));
    }
    assert properties[..|properties|] == properties;
    EntriesOf(properties, deleted, dumpFormat);
    if dumpFormat == 3 {
      assert kept + [] == kept;
      for i := 0 to |deleted|
        invariant out.text == start + EntriesText(kept + Deletions(deleted[..i]))
      {
        DumpDeletion(out, deleted, i, start, kept);
      }
      assert deleted[..|deleted|] == deleted;
    }
  }

  method DumpOne(out: Stdout, p: Property, ghost start: seq<byte>, ghost es: seq<Entry>)
    requires out.text == start + EntriesText(es)
    modifies out
    ensures out.text == start + EntriesText(es + [Set(p.key, UntilNul(p.value))])
  {
    hide EntryText, UntilNul, EntriesText;
    EntriesTextSnoc(es, Set(p.key, UntilNul(p.value)));
    PropertyDump(out, p.key, Some(p.value));
    Associate(start, EntriesText(es), EntryText(Set(p.key, UntilNul(p.value))));
  }

  method DumpDeletion(out: Stdout, deleted: seq<cstring>, i: nat, ghost start: seq<byte>, ghost es: seq<Entry>)
    requires i < |deleted| && out.text == start + EntriesText(es + Deletions(deleted[..i]))
    modifies out
    ensures out.text == start + EntriesText(es + Deletions(deleted[..i + 1]))
  {
    hide EntryText, EntriesText, Deletions;
    ghost var e, before := Del(deleted[i]), es + Deletions(deleted[..i]);
    DeletionsSnoc(deleted, i);
    assert es + Deletions(deleted[..i + 1]) == before + [e];
    EntriesTextSnoc(before, e);
    PropertyDelDump(out, deleted[i]);
    Associate(start, EntriesText(before), EntryText(e));
  }

  // ---------- node records ----------

  /** The text of a node, as it stands in the dump. */
  datatype Content = Content(text: seq<byte>, isDelta: bool, md5: Option<seq<byte>>)

  const PROP_DELTA: seq<byte> := Ascii("Prop-delta")
  const TEXT_DELTA: seq<byte> := Ascii("Text-delta")
  const TEXT_MD5: seq<byte> := Ascii("Text-content-md5")
  const TRUE: seq<byte> := Ascii("true")

  /** The header lines about properties. */
  function PropLines(length: nat, dumpFormat: int): seq<Line> {
    (if dumpFormat == 3 then [Line(PROP_DELTA, TRUE)] else []) + [Line(PROP_LENGTH, Digits(length))]
  }

  /** The header lines about the text. */
  function TextLines(content: Option<Content>): seq<Line> {
    if content == None then []
    else
      var c := content.value;
      (if c.isDelta then [Line(TEXT_DELTA, TRUE)] else []) + [Line(TEXT_LENGTH, Digits(|c.text|))]
      + if c.md5 == None then [] else [Line(TEXT_MD5, c.md5.value)]
  }

  function TextOf(content: Option<Content>): seq<byte> {
    if content == None then [] else content.value.text
  }

  /** The property block of a node; there is one if there is anything to put in it, or if it was
      asked for. */
  function BlockOf(es: seq<Entry>, dumpProps: bool): seq<byte> {
    if dumpProps || es != [] then Block(es) else []
  }

  /** The last header lines of a node. */
  function NodeLines(es: seq<Entry>, dumpProps: bool, dumpFormat: int, content: Option<Content>): seq<Line> {
    var block := BlockOf(es, dumpProps);
    (if block == [] then [] else PropLines(|block|, dumpFormat)) + TextLines(content)
    + [Line(CONTENT_LENGTH, Digits(|block| + |TextOf(content)|))]
  }

  /** The last header lines, with their names and values: the format and the content decide which are
      there. */
  lemma LinesExact(es: seq<Entry>, dumpProps: bool, dumpFormat: int, content: Option<Content>, l: Line)
    ensures var p := if dumpProps || es != [] then |EntriesText(es)| + 10 else 0;
            var t := if content.Some? then |content.value.text| else 0;
            l in NodeLines(es, dumpProps, dumpFormat, content) <==>
              || ((dumpProps || es != []) && dumpFormat == 3 && l == Line(Ascii("Prop-delta"), Ascii("true")))
              || ((dumpProps || es != []) && l == Line(Ascii("Prop-content-length"), Digits(p)))
              || (content.Some? && content.value.isDelta && l == Line(Ascii("Text-delta"), Ascii("true")))
              || (content.Some? && l == Line(Ascii("Text-content-length"), Digits(t)))
              || (content.Some? && content.value.md5.Some?
                  && l == Line(Ascii("Text-content-md5"), content.value.md5.value))
              || l == Line(Ascii("Content-length"), Digits(p + t))
  {
    hide Digits, EntriesText, Ascii, Block;
    BlockLength(es);
    var a := if BlockOf(es, dumpProps) == [] then [] else PropLines(|BlockOf(es, dumpProps)|, dumpFormat);
    var b, c := TextLines(content), [Line(CONTENT_LENGTH, Digits(|BlockOf(es, dumpProps)| + |TextOf(content)|))];
    assert NodeLines(es, dumpProps, dumpFormat, content) == a + b + c;
    assert l in a + b + c <==> l in a || l in b || l in c;
  }

  /** How many there are, and in which order. */
  lemma LinesInOrder(es: seq<Entry>, dumpProps: bool, dumpFormat: int, content: Option<Content>)
    ensures var lines := NodeLines(es, dumpProps, dumpFormat, content);
            var p := if dumpProps || es != [] then (if dumpFormat == 3 then 2 else 1) else 0;
            var d := if content.Some? && content.value.isDelta then 1 else 0;
            var t := if content.Some? then d + 1 + (if content.value.md5.Some? then 1 else 0) else 0;
            && |lines| == p + t + 1
            && (p > 0 ==> lines[p - 1].name == Ascii("Prop-content-length"))
            && (content.Some? ==> lines[p + d].name == Ascii("Text-content-length"))
            && lines[p + t].name == Ascii("Content-length")
  {
    hide Digits, EntriesText, Ascii, Block;
    BlockLength(es);
  }

  lemma PartsExact(es: seq<Entry>, dumpProps: bool, content: Option<Content>)
    ensures BlockOf(es, dumpProps) == if dumpProps || es != [] then EntriesText(es) + Ascii("PROPS-END") + [10] else []
    ensures TextOf(content) == if content.Some? then content.value.text else []
  {
    hide EntriesText, Ascii, Block;
    BlockExact(es, Del([]));
  }

  lemma {:induction false} LinesTextConcat(a: seq<Line>, b: seq<Line>)
    ensures LinesText(a + b) == LinesText(a) + LinesText(b)
  {
    if a == [] {
      assert a + b == b;
    } else {
      assert (a + b)[0] == a[0] && (a + b)[1..] == a[1..] + b;
      LinesTextConcat(a[1..], b);
    }
  }

  /** Prints one more header line. */
  method PrintHeader(out: Stdout, l: Line, ghost before: seq<byte>, ghost lines: seq<Line>)
    requires out.text == before + LinesText(lines)
    modifies out
    ensures out.text == before + LinesText(lines + [l])
  {
    out.PrintLine(l);
    LinesTextConcat(lines, [l]);
    assert [l][1..] == [];
    assert LinesText([l]) == LineText(l) + [];
    Associate(before, LinesText(lines), LineText(l));
  }

  lemma BlockLength(es: seq<Entry>)
    ensures |Block(es)| == |EntriesText(es)| + 10
    ensures Block(es) == EntriesText(es) + (PROPS_END + [NEWLINE])
  {
  }

  /** Prints the lengths of a node's properties and text, then the properties and the text. */
  method DumpNodeContent(out: Stdout, properties: seq<Property>, deleted: seq<cstring>, dumpFormat: int,
                         dumpProps: bool, content: Option<Content>)
    modifies out
    ensures var es := Entries(properties, deleted, dumpFormat);
            out.text == old(out.text) + LinesText(NodeLines(es, dumpProps, dumpFormat, content)) + [NEWLINE]
                        + BlockOf(es, dumpProps) + TextOf(content)
  {
    hide Block, Entries, LinesText, EntriesText, Digits;
    ghost var es, before := Entries(properties, deleted, dumpFormat), out.text;
    BlockLength(es);
    NoLines();
    ghost var lines: seq<Line> := [];
    var propLen := EntriesLength(properties, deleted, dumpFormat);
    var withProps := dumpProps || propLen > 0;
    if withProps {
      if dumpFormat == 3 {
        PrintHeader(out, Line(PROP_DELTA, TRUE), before, lines);
        lines := lines + [Line(PROP_DELTA, TRUE)];
      }
      propLen := propLen + 10;
      PrintHeader(out, Line(PROP_LENGTH, Digits(propLen)), before, lines);
      lines := lines + [Line(PROP_LENGTH, Digits(propLen))];
    }
    assert lines == if BlockOf(es, dumpProps) == [] then [] else PropLines(propLen, dumpFormat);
    assert propLen == |BlockOf(es, dumpProps)|;
    ghost var more := PrintTextLines(out, content, before, lines);
    var contentLen := if content == None then 0 else |content.value.text|;
    PrintHeader(out, Line(CONTENT_LENGTH, Digits(propLen + contentLen)), before, more);
    assert more + [Line(CONTENT_LENGTH, Digits(propLen + contentLen))] == NodeLines(es, dumpProps, dumpFormat, content);
    out.Print([NEWLINE]);
    ghost var headers := out.text;
    if withProps {
      DumpEntries(out, properties, deleted, dumpFormat);
      out.Print(PROPS_END + [NEWLINE]);
      Associate(headers, EntriesText(es), PROPS_END + [NEWLINE]);
    }
    if content != None {
      out.Print(content.value.text);
    }
  }

  lemma NoLines()
    ensures LinesText([]) == []
  {
  }

  method PrintTextLines(out: Stdout, content: Option<Content>, ghost before: seq<byte>, ghost lines: seq<Line>)
    returns (ghost all: seq<Line>)
    requires out.text == before + LinesText(lines)
    modifies out
    ensures all == lines + TextLines(content) && out.text == before + LinesText(all)
  {
    all := lines;
    if content != None {
      var c := content.value;
      if c.isDelta {
        PrintHeader(out, Line(TEXT_DELTA, TRUE), before, all);
        all := all + [Line(TEXT_DELTA, TRUE)];
      }
      PrintHeader(out, Line(TEXT_LENGTH, Digits(|c.text|)), before, all);
      all := all + [Line(TEXT_LENGTH, Digits(|c.text|))];
      if c.md5 != None {
        PrintHeader(out, Line(TEXT_MD5, c.md5.value), before, all);
        all := all + [Line(TEXT_MD5, c.md5.value)];
      }
    }
  }

  // ---------- reading back ----------

  ghost predicate Mentions(lines: seq<Line>, name: seq<byte>) {
    exists i :: 0 <= i < |lines| && lines[i].name == name
  }

  lemma {:induction false} LengthConcat(a: seq<Line>, b: seq<Line>, name: seq<byte>)
    ensures LengthIn(a + b, name) == if Mentions(a, name) then LengthIn(a, name) else LengthIn(b, name)
  {
    if a == [] {
      assert a + b == b;
    } else {
      assert (a + b)[0] == a[0] && (a + b)[1..] == a[1..] + b;
      LengthConcat(a[1..], b, name);
      assert forall i :: 0 < i < |a| ==> a[i] == a[1..][i - 1];
      if i :| 0 <= i < |a[1..]| && a[1..][i].name == name {
        assert a[i + 1].name == name;
      }
    }
  }

  /** Header names are one-line words without colons, and different. */
  lemma Names()
    ensures WellFormed(Line(PROP_LENGTH, [])) && WellFormed(Line(TEXT_LENGTH, []))
    ensures WellFormed(Line(CONTENT_LENGTH, []))
    ensures WellFormed(Line(PROP_DELTA, TRUE)) && WellFormed(Line(TEXT_DELTA, TRUE)) && WellFormed(Line(TEXT_MD5, []))
    ensures |PROP_LENGTH| == 19 && |TEXT_LENGTH| == 19 && |CONTENT_LENGTH| == 14
    ensures |PROP_DELTA| == 10 && |TEXT_DELTA| == 10 && |TEXT_MD5| == 16
    ensures PROP_LENGTH != TEXT_LENGTH
  {
    hide *;
    PropNames();
    TextNames();
    ContentName();
    DifferentNames();
  }

  lemma PropNames()
    ensures WellFormed(Line(PROP_LENGTH, [])) && WellFormed(Line(PROP_DELTA, TRUE))
    ensures |PROP_LENGTH| == 19 && |PROP_DELTA| == 10
  {
  }

  lemma TextNames()
    ensures WellFormed(Line(TEXT_LENGTH, [])) && WellFormed(Line(TEXT_DELTA, TRUE)) && WellFormed(Line(TEXT_MD5, []))
    ensures |TEXT_LENGTH| == 19 && |TEXT_DELTA| == 10 && |TEXT_MD5| == 16
  {
  }

  lemma ContentName()
    ensures WellFormed(Line(CONTENT_LENGTH, [])) && |CONTENT_LENGTH| == 14
  {
  }

  lemma DifferentNames()
    ensures PROP_LENGTH != TEXT_LENGTH
  {
    assert PROP_LENGTH[0] == 80 && TEXT_LENGTH[0] == 84;
  }

  /** A number is a well-formed header value. */
  lemma LengthLine(name: seq<byte>, n: nat)
    requires WellFormed(Line(name, []))
    ensures WellFormed(Line(name, Digits(n))) && ReadNumber(Digits(n)) == Some(n)
  {
    ReadNumberBack(n);
  }

  lemma LengthInOne(l: Line, name: seq<byte>)
    ensures LengthIn([l], name) == if l.name == name then ReadNumber(l.value) else Some(0)
    ensures Mentions([l], name) <==> l.name == name
  {
    assert [l][1..] == [];
    assert [l][0] == l;
  }

  /** The lines about properties announce their length and no other. */
  lemma PropLinesAnnounce(n: nat, dumpFormat: int)
    ensures var lines := PropLines(n, dumpFormat);
            && AllWellFormed(lines) && LengthIn(lines, PROP_LENGTH) == Some(n)
            && Mentions(lines, PROP_LENGTH) && !Mentions(lines, TEXT_LENGTH) && !Mentions(lines, CONTENT_LENGTH)
  {
    hide PROP_LENGTH, TEXT_LENGTH, CONTENT_LENGTH, PROP_DELTA, TRUE;
    Names();
    LengthLine(PROP_LENGTH, n);
    var l := Line(PROP_LENGTH, Digits(n));
    LengthInOne(l, PROP_LENGTH);
    LengthConcat([Line(PROP_DELTA, TRUE)], [l], PROP_LENGTH);
    var lines := PropLines(n, dumpFormat);
    assert [] + [l] == [l];
    assert lines[|lines| - 1] == l;
  }

  lemma TextLinesAnnounce(content: Option<Content>)
    requires content.Some? && content.value.md5.Some? ==> OneLine(content.value.md5.value)
    ensures var lines := TextLines(content);
            && AllWellFormed(lines) && LengthIn(lines, TEXT_LENGTH) == Some(|TextOf(content)|)
            && !Mentions(lines, PROP_LENGTH) && !Mentions(lines, CONTENT_LENGTH)
            && (content.Some? ==> Mentions(lines, TEXT_LENGTH))
  {
    hide PROP_LENGTH, TEXT_LENGTH, CONTENT_LENGTH, TEXT_DELTA, TRUE, TEXT_MD5;
    Names();
    if content.Some? {
      var c := content.value;
      LengthLine(TEXT_LENGTH, |c.text|);
      var l := Line(TEXT_LENGTH, Digits(|c.text|));
      var delta := if c.isDelta then [Line(TEXT_DELTA, TRUE)] else [];
      var md5 := if c.md5 == None then [] else [Line(TEXT_MD5, c.md5.value)];
      LengthInOne(l, TEXT_LENGTH);
      LengthConcat(delta, [l], TEXT_LENGTH);
      LengthConcat(delta + [l], md5, TEXT_LENGTH);
      assert (delta + [l])[|delta|] == l;
      assert TextLines(content) == delta + [l] + md5;
      assert TextLines(content)[|delta|] == l;
    }
  }

  /** The last lines of a node announce the lengths of its parts, behind any other lines. */
  lemma NodeLinesAnnounce(head: seq<Line>, es: seq<Entry>, dumpProps: bool, dumpFormat: int, content: Option<Content>)
    requires AllWellFormed(head)
    requires !Mentions(head, PROP_LENGTH) && !Mentions(head, TEXT_LENGTH) && !Mentions(head, CONTENT_LENGTH)
    requires content.Some? && content.value.md5.Some? ==> OneLine(content.value.md5.value)
    ensures var lines := head + NodeLines(es, dumpProps, dumpFormat, content);
            AllWellFormed(lines) && Announces(lines, |BlockOf(es, dumpProps)|, |TextOf(content)|)
  {
    hide PROP_LENGTH, TEXT_LENGTH, CONTENT_LENGTH, PropLines, TextLines, BlockOf, TextOf, LengthIn, WellFormed;
    Names();
    var p, t := |BlockOf(es, dumpProps)|, |TextOf(content)|;
    var a, b := (if BlockOf(es, dumpProps) == [] then [] else PropLines(p, dumpFormat)), TextLines(content);
    var l := Line(CONTENT_LENGTH, Digits(p + t));
    PropLinesAnnounce(p, dumpFormat);
    TextLinesAnnounce(content);
    LengthLine(CONTENT_LENGTH, p + t);
    var lines := head + NodeLines(es, dumpProps, dumpFormat, content);
    assert lines == head + (a + (b + [l]));
    LengthInParts(head, a, b, l, PROP_LENGTH);
    LengthInParts(head, a, b, l, TEXT_LENGTH);
    LengthInParts(head, a, b, l, CONTENT_LENGTH);
    NoText(content);
    NotMentioned(b, TEXT_LENGTH);
  }

  /** A length is in the first part of a list of lines that mentions it. */
  lemma LengthInParts(head: seq<Line>, a: seq<Line>, b: seq<Line>, l: Line, name: seq<byte>)
    requires !Mentions(head, name)
    ensures LengthIn(head + (a + (b + [l])), name) ==
            if Mentions(a, name) then LengthIn(a, name)
            else if Mentions(b, name) then LengthIn(b, name)
            else if l.name == name then ReadNumber(l.value) else Some(0)
  {
    hide LengthIn, Mentions;
    LengthConcat(head, a + (b + [l]), name);
    LengthConcat(a, b + [l], name);
    LengthConcat(b, [l], name);
    LengthInOne(l, name);
  }

  lemma NoText(content: Option<Content>)
    ensures content.None? ==> |TextOf(content)| == 0
  {
  }

  lemma {:induction false} NotMentioned(lines: seq<Line>, name: seq<byte>)
    ensures !Mentions(lines, name) ==> LengthIn(lines, name) == Some(0)
  {
    if lines != [] && !Mentions(lines, name) {
      assert lines[0].name != name;
      assert forall i :: 0 <= i < |lines[1..]| ==> lines[1..][i] == lines[i + 1];
      NotMentioned(lines[1..], name);
    }
  }

  /**
   * A reader that goes by the announced lengths gets back exactly the properties, the deletions
   * and the text of a node, whatever the values contain, and what follows is untouched.
   */
  lemma NodeReadBack(head: seq<Line>, es: seq<Entry>, dumpProps: bool, dumpFormat: int, content: Option<Content>,
                     rest: seq<byte>)
    requires AllWellFormed(head)
    requires !Mentions(head, PROP_LENGTH) && !Mentions(head, TEXT_LENGTH) && !Mentions(head, CONTENT_LENGTH)
    requires content.Some? && content.value.md5.Some? ==> OneLine(content.value.md5.value)
    ensures var lines := NodeLines(es, dumpProps, dumpFormat, content);
            ReadRecord(LinesText(head)
                       + (LinesText(lines) + [NEWLINE] + BlockOf(es, dumpProps) + TextOf(content) + rest))
            == Some((Record(head + lines, es, TextOf(content)), rest))
  {
    hide NodeLines, LinesText, ReadRecord, Announces, TextOf, Block;
    var lines, block, text := NodeLines(es, dumpProps, dumpFormat, content), BlockOf(es, dumpProps), TextOf(content);
    NodeLinesAnnounce(head, es, dumpProps, dumpFormat, content);
    BlockNotEmpty(es);
    ReadRecordBack(head + lines, block, es, text, rest);
    LinesTextConcat(head, lines);
    assert LinesText(head) + (LinesText(lines) + [NEWLINE] + block + text + rest)
        == LinesText(head) + LinesText(lines) + [NEWLINE] + block + text + rest;
  }

  lemma BlockNotEmpty(es: seq<Entry>)
    ensures Block(es) != []
  {
    BlockLength(es);
  }

  /** The entries in order, property by property; deletions follow in format 3 only. */
  lemma {:induction false} EntriesExact(a: seq<Property>, b: seq<Property>, deleted: seq<cstring>, dumpFormat: int)
    ensures Kept(a + b, deleted) == Kept(a, deleted) + Kept(b, deleted)
    ensures |a| == 1 ==> Kept(a, deleted) == if a[0].key in deleted then [] else [Set(a[0].key, UntilNul(a[0].value))]
    ensures Entries(a, deleted, dumpFormat) ==
            Kept(a, deleted)
            + if dumpFormat == 3 then seq(|deleted|, i requires 0 <= i < |deleted| => Del(deleted[i])) else []
    decreases |b|
  {
    if |a| == 1 {
      assert a[..0] == [];
    }
    if b == [] {
      assert a + b == a;
    } else {
      var front := b[..|b| - 1];
      EntriesExact(a, front, deleted, dumpFormat);
      assert (a + b)[..|a + b| - 1] == a + front;
    }
  }

  /** The entries of a node are its properties that are not deleted, with what is shown of their
      values; no value is changed exactly when none has a NUL. */
  lemma {:induction false} KeptLists(properties: seq<Property>, deleted: seq<cstring>)
    ensures forall e :: e in Kept(properties, deleted) <==>
              exists i :: 0 <= i < |properties| && properties[i].key !in deleted
                && e == Set(properties[i].key, UntilNul(properties[i].value))
  {
    if properties != [] {
      var before, n := properties[..|properties| - 1], |properties| - 1;
      KeptLists(before, deleted);
      forall e
        ensures e in Kept(properties, deleted) <==>
                  exists i :: 0 <= i < |properties| && properties[i].key !in deleted
                    && e == Set(properties[i].key, UntilNul(properties[i].value))
      {
        if i :| 0 <= i < |properties| && properties[i].key !in deleted
                && e == Set(properties[i].key, UntilNul(properties[i].value)) {
          assert i < n ==> before[i] == properties[i];
        }
      }
    }
  }

  // ---------- revision records ----------

  const REVISION_NUMBER: seq<byte> := Ascii("Revision-number")

  function LogKey(): cstring {
    Ascii("svn:log")
  }

  function AuthorKey(): cstring {
    Ascii("svn:author")
  }

  function DateKey(): cstring {
    Ascii("svn:date")
  }

  function OneEntry(key: cstring, value: Option<cstring>): seq<Entry> {
    if value == None then [] else [Set(key, value.value)]
  }

  /** The properties of a revision. */
  function RevisionEntries(message: Option<cstring>, author: Option<cstring>, date: Option<cstring>): seq<Entry> {
    OneEntry(LogKey(), message) + OneEntry(AuthorKey(), author) + OneEntry(DateKey(), date)
  }

  function RevisionLines(rev: int, length: nat): seq<Line> {
    [Line(REVISION_NUMBER, Itoa(rev)), Line(PROP_LENGTH, Digits(length)), Line(CONTENT_LENGTH, Digits(length))]
  }

  method OptionalStrlen(key: cstring, value: Option<cstring>, ghost before: seq<Entry>, sum: nat) returns (len: nat)
    requires sum == |EntriesText(before)| && (sum > 0 <==> before != [])
    ensures len == |EntriesText(before + OneEntry(key, value))| && (len > 0 <==> before + OneEntry(key, value) != [])
  {
    len := sum;
    if value != None {
      UntilNulOfString(value.value);
      EntriesTextSnoc(before, Set(key, value.value));
      var n := PropertyStrlen(key, value);
      len := len + n;
    } else {
      assert before + [] == before;
    }
  }

  method OptionalDump(out: Stdout, key: cstring, value: Option<cstring>,
                      ghost start: seq<byte>, ghost before: seq<Entry>)
    requires out.text == start + EntriesText(before)
    modifies out
    ensures out.text == start + EntriesText(before + OneEntry(key, value))
  {
    if value != None {
      UntilNulOfString(value.value);
      EntriesTextSnoc(before, Set(key, value.value));
      PropertyDump(out, key, value);
      Associate(start, EntriesText(before), EntryText(Set(key, value.value)));
    } else {
      assert before + [] == before;
    }
  }

  /** Prints the header of a revision with its properties. */
  method DumpRevisionHeader(out: Stdout, rev: int,
                            message: Option<cstring>, author: Option<cstring>, date: Option<cstring>)
    modifies out
    ensures var es := RevisionEntries(message, author, date);
            out.text == old(out.text) + LinesText(RevisionLines(rev, |BlockOf(es, false)|)) + [NEWLINE]
                        + BlockOf(es, false) + if es == [] then [] else [NEWLINE]
    ensures var es := (if message == None then [] else [Set(Ascii("svn:log"), message.value)])
                      + (if author == None then [] else [Set(Ascii("svn:author"), author.value)])
                      + (if date == None then [] else [Set(Ascii("svn:date"), date.value)]);
            var n := if es == [] then 0 else |EntriesText(es)| + 10;
            var lines := [Line(Ascii("Revision-number"), Itoa(rev)), Line(Ascii("Prop-content-length"), Digits(n)),
                          Line(Ascii("Content-length"), Digits(n))];
            && old(out.text) <= out.text
            && ReadRecord(out.text[|old(out.text)|..]) ==
               Some((Record(lines, es, []), if es == [] then [] else [10]))
  {
    hide ReadRecord, Block, LinesText, EntriesText, Digits, EntryText, OneEntry, LogKey, AuthorKey, DateKey;
    ghost var es, start := RevisionEntries(message, author, date), out.text;
    ghost var one, two := OneEntry(LogKey(), message), OneEntry(LogKey(), message) + OneEntry(AuthorKey(), author);
    NoEntries();
    assert [] + one == one && two + OneEntry(DateKey(), date) == es;
    BlockLength(es);
    var propsLength := OptionalStrlen(LogKey(), message, [], 0);
    propsLength := OptionalStrlen(AuthorKey(), author, one, propsLength);
    propsLength := OptionalStrlen(DateKey(), date, two, propsLength);
    if propsLength > 0 {
      propsLength := propsLength + 10;
    }
    assert propsLength == |BlockOf(es, false)|;
    NoLines();
    ghost var lines := RevisionLines(rev, propsLength);
    assert [lines[0], lines[1]] + [lines[2]] == lines && [] + [lines[0]] == [lines[0]];
    assert [lines[0]] + [lines[1]] == [lines[0], lines[1]];
    PrintHeader(out, Line(REVISION_NUMBER, Itoa(rev)), start, []);
    PrintHeader(out, Line(PROP_LENGTH, Digits(propsLength)), start, [lines[0]]);
    PrintHeader(out, Line(CONTENT_LENGTH, Digits(propsLength)), start, [lines[0], lines[1]]);
    out.Print([NEWLINE]);
    ghost var headers := out.text;
    if propsLength > 0 {
      assert headers == headers + [];
      OptionalDump(out, LogKey(), message, headers, []);
      OptionalDump(out, AuthorKey(), author, headers, one);
      OptionalDump(out, DateKey(), date, headers, two);
      out.Print(PROPS_END + [NEWLINE] + [NEWLINE]);
      Associate(headers, EntriesText(es), PROPS_END + [NEWLINE]);
      Associate(headers + EntriesText(es), PROPS_END + [NEWLINE], [NEWLINE]);
    }
    RevisionExact(rev, message, author, date);
    PrintedReadBack(start, out.text, rev, es);
  }

  /** The entries and lines of a revision, with their keys and names. */
  lemma RevisionExact(rev: int, message: Option<cstring>, author: Option<cstring>, date: Option<cstring>)
    ensures var es := RevisionEntries(message, author, date);
            && es == (if message == None then [] else [Set(Ascii("svn:log"), message.value)])
                     + (if author == None then [] else [Set(Ascii("svn:author"), author.value)])
                     + (if date == None then [] else [Set(Ascii("svn:date"), date.value)])
            && |BlockOf(es, false)| == (if es == [] then 0 else |EntriesText(es)| + 10)
    ensures forall n: nat :: RevisionLines(rev, n) ==
              [Line(Ascii("Revision-number"), Itoa(rev)), Line(Ascii("Prop-content-length"), Digits(n)),
               Line(Ascii("Content-length"), Digits(n))]
  {
    hide Ascii, Block, EntriesText, Digits, Itoa;
    BlockLength(RevisionEntries(message, author, date));
  }

  lemma PrintedReadBack(start: seq<byte>, text: seq<byte>, rev: int, es: seq<Entry>)
    requires text == start + LinesText(RevisionLines(rev, |BlockOf(es, false)|)) + [NEWLINE] + BlockOf(es, false)
                     + if es == [] then [] else [NEWLINE]
    ensures start <= text
    ensures ReadRecord(text[|start|..]) ==
            Some((Record(RevisionLines(rev, |BlockOf(es, false)|), es, []), if es == [] then [] else [10]))
  {
    hide ReadRecord, LinesText, RevisionLines, BlockOf;
    var rest := if es == [] then [] else [NEWLINE];
    RevisionReadBack(rev, es, rest);
    var record := LinesText(RevisionLines(rev, |BlockOf(es, false)|)) + [NEWLINE] + BlockOf(es, false) + rest;
    assert text == start + record;
    assert text[|start|..] == record;
  }

  lemma NoEntries()
    ensures EntriesText([]) == []
  {
  }

  /** Reading the header of a revision gives back its properties; the empty line behind them is not
      part of the record. */
  lemma RevisionReadBack(rev: int, es: seq<Entry>, rest: seq<byte>)
    ensures var lines := RevisionLines(rev, |BlockOf(es, false)|);
            ReadRecord(LinesText(lines) + [NEWLINE] + BlockOf(es, false) + rest) == Some((Record(lines, es, []), rest))
  {
    hide LinesText, ReadRecord, Block;
    var block := BlockOf(es, false);
    var lines := RevisionLines(rev, |block|);
    RevisionLinesAnnounce(rev, |block|);
    BlockNotEmpty(es);
    ReadRecordBack(lines, block, es, [], rest);
    assert LinesText(lines) + [NEWLINE] + block + [] + rest == LinesText(lines) + [NEWLINE] + block + rest;
  }

  lemma RevisionLinesAnnounce(rev: int, n: nat)
    ensures AllWellFormed(RevisionLines(rev, n)) && Announces(RevisionLines(rev, n), n, 0)
  {
    hide PROP_LENGTH, TEXT_LENGTH, CONTENT_LENGTH, REVISION_NUMBER;
    Names();
    RevisionName();
    LengthLine(PROP_LENGTH, n);
    LengthLine(CONTENT_LENGTH, n);
    ReadNumberBack(if rev < 0 then -rev else rev);
    var a, p, c := Line(REVISION_NUMBER, Itoa(rev)), Line(PROP_LENGTH, Digits(n)), Line(CONTENT_LENGTH, Digits(n));
    assert RevisionLines(rev, n) == [a] + ([p] + [c]);
    forall name
      ensures LengthIn(RevisionLines(rev, n), name) ==
              if a.name == name then ReadNumber(a.value) else if p.name == name then ReadNumber(p.value)
              else if c.name == name then ReadNumber(c.value) else Some(0)
    {
      LengthConcat([a], [p] + [c], name);
      LengthConcat([p], [c], name);
      LengthInOne(a, name);
      LengthInOne(p, name);
      LengthInOne(c, name);
    }
  }

  lemma RevisionName()
    ensures WellFormed(Line(REVISION_NUMBER, [])) && |REVISION_NUMBER| == 15
  {
  }
}
