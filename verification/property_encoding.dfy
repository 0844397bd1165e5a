/** Property maps and their serialized form: two lengths and two strings per property, then a zero. */
module PropertyEncoding {
  import opened Bytes
  import opened CritBitBits

  datatype Property = Property(key: cstring, value: seq<byte>)

  type PropMap = map<cstring, seq<byte>>

  /** Setting the listed properties one after the other. */
  function Put(m: PropMap, ps: seq<Property>): PropMap
    decreases ps
  {
    if ps == [] then m else Put(m[ps[0].key := ps[0].value], ps[1..])
  }

  /** A hash is given as the list of its properties, in the order in which it is iterated. */
  ghost predicate Distinct(ps: seq<Property>) {
    forall i, j :: 0 <= i < j < |ps| ==> ps[i].key != ps[j].key
  }

  /** The lengths fit the `int` they are written as. */
  ghost predicate Fit(ps: seq<Property>) {
    forall i :: 0 <= i < |ps| ==> |ps[i].key| < TWO_31 && |ps[i].value| < TWO_31
  }

  ghost predicate KeysNonEmpty(ps: seq<Property>) {
    forall i :: 0 <= i < |ps| ==> ps[i].key != []
  }

  /** A 32-bit integer as it lies in memory. */
  function Word(n: int): (s: seq<byte>)
    ensures |s| == 4
  {
    var w := n % TWO_32;
    [w % 256, w / 256 % 256, w / 65536 % 256, w / 16777216 % 256]
  }

  lemma WordValue(n: nat)
    requires n < TWO_32
    ensures LittleEndian(Word(n)) == n
  {
    FourBytes(Word(n));
    var a, b, c := n / 256, n / 65536, n / 16777216;
    assert b == a / 256 && c == b / 256 && c < 256;
  }

  lemma FourBytes(s: seq<byte>)
    requires |s| == 4
    ensures var a: int, b: int, c: int, d: int := s[0], s[1], s[2], s[3];
            LittleEndian(s) == a + 256 * (b + 256 * (c + 256 * d))
  {
    var b: int, c: int, d: int := s[1], s[2], s[3];
    assert s[3..][1..] == [] && s[2..][1..] == s[3..] && s[1..][1..] == s[2..];
    assert LittleEndian(s[3..]) == d;
    assert LittleEndian(s[2..]) == c + 256 * d;
    assert LittleEndian(s[1..]) == b + 256 * (c + 256 * d);
  }

  function Record(p: Property): seq<byte> {
    Word(|p.key|) + p.key + Word(|p.value|) + p.value
  }

  function Records(ps: seq<Property>): seq<byte> {
    if ps == [] then [] else Record(ps[0]) + Records(ps[1..])
  }

  function Serialized(ps: seq<Property>): seq<byte> {
    Records(ps) + Word(0)
  }

  /** One property in memory: little-endian lengths in front of name and value, and a last length of 0. */
  lemma OnePropertyInMemory(key: cstring, value: seq<byte>)
    requires |key| < 256 && |value| < 256
    ensures Serialized([Property(key, value)]) == [|key|, 0, 0, 0] + key + [|value|, 0, 0, 0] + value + [0, 0, 0, 0]
  {
    var p := Property(key, value);
    assert [p][1..] == [];
    assert Records([p]) == Record(p) + [];
    assert Word(0) == [0, 0, 0, 0] && Word(|key|) == [|key|, 0, 0, 0] && Word(|value|) == [|value|, 0, 0, 0];
  }

  lemma {:induction false} RecordsConcat(a: seq<Property>, b: seq<Property>)
    ensures Records(a + b) == Records(a) + Records(b)
  {
    if a == [] {
      assert a + b == b;
    } else {
      assert (a + b)[0] == a[0] && (a + b)[1..] == a[1..] + b;
      RecordsConcat(a[1..], b);
    }
  }

  lemma RecordsSnoc(ps: seq<Property>, i: nat)
    requires i < |ps|
    ensures Records(ps[..i + 1]) == Records(ps[..i]) + Record(ps[i])
  {
    assert ps[..i + 1] == ps[..i] + [ps[i]];
    RecordsConcat(ps[..i], [ps[i]]);
    assert [ps[i]][1..] == [];
    assert Records([ps[i]]) == Record(ps[i]) + [];
  }

  // ---------- reading ----------

  /** What a C string holds of the bytes copied into it. */
  function UntilNul(s: seq<byte>): cstring {
    if s == [] || s[0] == 0 then [] else [s[0]] + UntilNul(s[1..])
  }

  /** That is what is before the first NUL. */
  lemma {:induction false} UntilNulExact(s: seq<byte>)
    ensures var r := UntilNul(s); r <= s && (r == s || s[|r|] == 0)
  {
    if s != [] && s[0] != 0 {
      UntilNulExact(s[1..]);
      assert s == [s[0]] + s[1..];
    }
  }

  lemma {:induction false} UntilNulOfString(s: cstring)
    ensures UntilNul(s) == s
  {
    if s != [] {
      UntilNulOfString(s[1..]);
    }
  }

  /** The properties in serialized data; `None` if it announces more than there is. */
  function Parse(s: seq<byte>): Option<seq<Property>> {
    if |s| < 4 then None
    else
      var k := LittleEndian(s[..4]);
      if k == 0 then Some([])
      else if k >= TWO_31 || |s| < 8 + k then None
      else
        var v := LittleEndian(s[4 + k..8 + k]);
        if v >= TWO_31 || |s| < 8 + k + v then None
        else
          match Parse(s[8 + k + v..])
          case None => None
          case Some(rest) => Some([Property(UntilNul(s[4..4 + k]), s[8 + k..8 + k + v])] + rest)
  }

  /** The properties before the first one with an empty key, which reads like the final zero. */
  function Readable(ps: seq<Property>): (r: seq<Property>)
    ensures r <= ps && KeysNonEmpty(r)
  {
    if ps == [] || ps[0].key == [] then [] else
      assert [ps[0]] + ps[1..] == ps;
      [ps[0]] + Readable(ps[1..])
  }

  /** Reading back gives the properties before the first empty key. */
  lemma {:induction false} ParseSerialized(ps: seq<Property>)
    requires Fit(ps)
    ensures Parse(Serialized(ps)) == Some(Readable(ps))
  {
    hide LittleEndian, UntilNul, Word;
    var s := Serialized(ps);
    WordValue(0);
    if ps == [] {
      assert s == Word(0) && s[..4] == s;
    } else {
      var p, rest := ps[0], Serialized(ps[1..]);
      var k, v := |p.key|, |p.value|;
      assert s == Word(k) + p.key + Word(v) + p.value + rest;
      WordValue(k);
      WordValue(v);
      assert s[..4] == Word(k);
      if k > 0 {
        assert s[4..4 + k] == p.key && s[4 + k..8 + k] == Word(v);
        assert s[8 + k..8 + k + v] == p.value && s[8 + k + v..] == rest;
        UntilNulOfString(p.key);
        ParseSerialized(ps[1..]);
      }
    }
  }

  /** The map survives exactly when no key is empty. */
  lemma RoundTrip(ps: seq<Property>)
    requires Fit(ps) && Distinct(ps)
    ensures Parse(Serialized(ps)).Some?
    ensures Put(map[], Parse(Serialized(ps)).value) == Put(map[], ps) <==> KeysNonEmpty(ps)
  {
    ParseSerialized(ps);
    var r := Readable(ps);
    if KeysNonEmpty(ps) {
      AllReadable(ps);
    } else {
      var i :| 0 <= i < |ps| && ps[i].key == [];
      PutKeys(map[], ps);
      PutKeys(map[], r);
      assert ps[i].key in Put(map[], ps);
      assert [] !in Put(map[], r);
    }
  }

  lemma {:induction false} AllReadable(ps: seq<Property>)
    requires KeysNonEmpty(ps)
    ensures Readable(ps) == ps
  {
    if ps != [] {
      AllReadable(ps[1..]);
    }
  }

  lemma {:induction false} PutKeys(m: PropMap, ps: seq<Property>)
    ensures forall k :: k in Put(m, ps) <==> k in m || exists i :: 0 <= i < |ps| && ps[i].key == k
    decreases ps
  {
    if ps != [] {
      var m', rest := m[ps[0].key := ps[0].value], ps[1..];
      PutKeys(m', rest);
      forall k
        ensures k in Put(m, ps) <==> k in m || exists i :: 0 <= i < |ps| && ps[i].key == k
      {
        if i :| 0 <= i < |rest| && rest[i].key == k {
          assert ps[i + 1].key == k;
        }
        if i :| 0 <= i < |ps| && ps[i].key == k {
          assert i > 0 ==> rest[i - 1].key == k;
        }
      }
    }
  }

  /** A hash maps each of its keys to the value listed with it. */
  lemma {:induction false} PutLooksUp(m: PropMap, ps: seq<Property>, i: nat)
    requires Distinct(ps) && i < |ps|
    ensures ps[i].key in Put(m, ps) && Put(m, ps)[ps[i].key] == ps[i].value
    decreases ps
  {
    if i > 0 {
      PutLooksUp(m[ps[0].key := ps[0].value], ps[1..], i - 1);
    } else {
      PutSpares(m[ps[0].key := ps[0].value], ps[1..], ps[0].key);
    }
  }

  lemma {:induction false} PutSpares(m: PropMap, ps: seq<Property>, k: cstring)
    requires k in m && forall i :: 0 <= i < |ps| ==> ps[i].key != k
    ensures k in Put(m, ps) && Put(m, ps)[k] == m[k]
    decreases ps
  {
    if ps != [] {
      PutSpares(m[ps[0].key := ps[0].value], ps[1..], k);
    }
  }

  lemma PutFirst(m: PropMap, p: Property, ps: seq<Property>)
    ensures Put(m, [p] + ps) == Put(m[p.key := p.value], ps)
  {
    assert ([p] + ps)[1..] == ps;
  }

  /** The next record, where the reader looks for it. */
  lemma ParseStep(data: seq<byte>, i: nat)
    requires i + 4 <= |data| && Parse(data[i..]).Some? && LittleEndian(data[i..i + 4]) != 0
    ensures var k := LittleEndian(data[i..i + 4]);
            && i + 8 + k <= |data|
            && var v := LittleEndian(data[i + 4 + k..i + 8 + k]);
            && i + 12 + k + v <= |data| && Parse(data[i + 8 + k + v..]).Some?
            && var p := Property(UntilNul(data[i + 4..i + 4 + k]), data[i + 8 + k..i + 8 + k + v]);
            && Parse(data[i..]) == Some([p] + Parse(data[i + 8 + k + v..]).value)
  {
    hide LittleEndian, UntilNul;
    var s := data[i..];
    assert s[..4] == data[i..i + 4];
    var k := LittleEndian(s[..4]);
    assert s[4..4 + k] == data[i + 4..i + 4 + k] && s[4 + k..8 + k] == data[i + 4 + k..i + 8 + k];
    var v := LittleEndian(s[4 + k..8 + k]);
    assert s[8 + k..8 + k + v] == data[i + 8 + k..i + 8 + k + v] && s[8 + k + v..] == data[i + 8 + k + v..];
  }

  lemma ParsesWord(s: seq<byte>)
    ensures Parse(s).Some? ==> |s| >= 4
  {
  }

  lemma ParseEnd(data: seq<byte>, i: nat)
    requires i + 4 <= |data| && LittleEndian(data[i..i + 4]) == 0
    ensures Parse(data[i..]) == Some([])
  {
    assert data[i..][..4] == data[i..i + 4];
  }

  /** Reads the properties into a hash, until a key length of zero. */
  method Reconstruct(props: PropMap, data: seq<byte>) returns (r: PropMap)
    requires Parse(data).Some?
    ensures r == Put(props, Parse(data).value)
  {
    ParsesWord(data);
    assert data[0..] == data;
    assert forall m :: Put(m, []) == m;
    hide LittleEndian, Put, UntilNul, Parse;
    r := props;
    var bptr: nat := 0;
    ghost var rest := Parse(data).value;
    while LittleEndian(data[bptr..bptr + 4]) != 0
      invariant bptr + 4 <= |data| && Parse(data[bptr..]) == Some(rest)
      invariant Put(r, rest) == Put(props, Parse(data).value)
      decreases |data| - bptr
    {
      ParseStep(data, bptr);
      var len := LittleEndian(data[bptr..bptr + 4]);
      var key := UntilNul(data[bptr + 4..bptr + 4 + len]);
      bptr := bptr + 4 + len;
      len := LittleEndian(data[bptr..bptr + 4]);
      var value := data[bptr + 4..bptr + 4 + len];
      bptr := bptr + 4 + len;
      ParsesWord(data[bptr..]);
      rest := Parse(data[bptr..]).value;
      PutFirst(r, Property(key, value), rest);
      r := r[key := value];
    }
    ParseEnd(data, bptr);
  }

  // ---------- writing ----------

  method PutWord(data: array<byte>, i: nat, n: int)
    requires i + 4 <= data.Length
    modifies data
    ensures data[..i + 4] == old(data[..i]) + Word(n)
  {
    var w := Word(n);
    data[i], data[i + 1], data[i + 2], data[i + 3] := w[0], w[1], w[2], w[3];
  }

  method PutBytes(data: array<byte>, i: nat, s: seq<byte>)
    requires i + |s| <= data.Length
    modifies data
    ensures data[..i + |s|] == old(data[..i]) + s
  {
    forall j | 0 <= j < |s| {
      data[i + j] := s[j];
    }
  }

  /** Copies a string with its terminating NUL. */
  method PutString(data: array<byte>, i: nat, s: cstring)
    requires i + |s| + 1 <= data.Length
    modifies data
    ensures data[..i + |s|] == old(data[..i]) + s && data[i + |s|] == 0
  {
    forall j | 0 <= j < |s| {
      data[i + j] := s[j];
    }
    data[i + |s|] := 0;
  }

  /**
   * Serializes a hash: its length is determined first, then the records are written. Each key
   * is written with a terminator, on top of which the next length goes.
   */
  method Serialize(ps: seq<Property>) returns (data: array<byte>)
    ensures fresh(data) && data[..] == Serialized(ps)
  {
    var len: nat := 0;
    for i := 0 to |ps|
      invariant len == |Records(ps[..i])|
    {
      RecordsSnoc(ps, i);
      len := len + 8 + |ps[i].key| + |ps[i].value|;
    }
    len := len + 4;
    assert ps[..|ps|] == ps;
    data := new byte[len];
    var bptr: nat := 0;
    for i := 0 to |ps|
      invariant bptr == |Records(ps[..i])| && bptr + |Records(ps[i..])| + 4 == data.Length
      invariant data[..bptr] == Records(ps[..i])
    {
      RecordsSnoc(ps, i);
      assert ps[i..][0] == ps[i] && ps[i..][1..] == ps[i + 1..];
      bptr := PutRecord(data, bptr, ps[i]);
    }
    PutWord(data, bptr, 0);
    assert data[..] == data[..bptr + 4];
  }

  /** Writes one record behind what is written so far. */
  method PutRecord(data: array<byte>, bptr: nat, p: Property) returns (end: nat)
    requires bptr + |Record(p)| <= data.Length
    modifies data
    ensures end == bptr + |Record(p)| && data[..end] == old(data[..bptr]) + Record(p)
  {
    var i := bptr;
    PutWord(data, i, |p.key|);
    PutString(data, i + 4, p.key);
    i := i + 4 + |p.key|;
    PutWord(data, i, |p.value|);
    PutBytes(data, i + 4, p.value);
    end := i + 4 + |p.value|;
  }
}
