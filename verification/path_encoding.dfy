/** Serialized deltas, and listing the paths of a tree. */
module PathEncoding {
  import opened Bytes
  import opened CritBit
  import opened CritBitBits
  import opened CritBitOrder
  import opened CritBitTrie
  import opened PathDelta

  const PLUS: byte := 43
  const MINUS: byte := 45

  /** An edit: its action character, the path, and the terminating NUL. */
  function EncodeEdit(e: Edit): (s: seq<byte>)
    ensures |s| == |e.path| + 2
  {
    [if e.Add? then PLUS else MINUS] + e.path + [0]
  }

  function Encode(edits: seq<Edit>): seq<byte> {
    if edits == [] then [] else EncodeEdit(edits[0]) + Encode(edits[1..])
  }

  lemma {:induction false} EncodeConcat(a: seq<Edit>, b: seq<Edit>)
    ensures Encode(a + b) == Encode(a) + Encode(b)
  {
    if a == [] {
      assert a + b == b;
    } else {
      assert (a + b)[0] == a[0] && (a + b)[1..] == a[1..] + b;
      EncodeConcat(a[1..], b);
    }
  }

  /** An addition is a plus sign, a removal a minus sign; the path and its NUL follow. */
  lemma EncodedEdits(path: cstring)
    ensures Encode([Add(path)]) == [43] + path + [0] && Encode([Remove(path)]) == [45] + path + [0]
  {
    var a, r := Edit.Add(path), Edit.Remove(path);
    assert [a][1..] == [] && [r][1..] == [];
    assert Encode([a]) == EncodeEdit(a) + [] && Encode([r]) == EncodeEdit(r) + [];
  }

  lemma EncodeSnoc(a: seq<Edit>, e: Edit)
    ensures Encode(a + [e]) == Encode(a) + EncodeEdit(e)
  {
    EncodeConcat(a, [e]);
    assert [e][1..] == [];
    assert Encode([e]) == EncodeEdit(e) + [];
  }

  // ---------- reading ----------

  /** The C string at `i`: up to, and not including, the NUL. */
  method StringAt(data: seq<byte>, i: nat, ghost path: cstring) returns (s: cstring)
    requires i + |path| < |data| && data[i..i + |path|] == path && data[i + |path|] == 0
    ensures s == path
  {
    forall j | 0 <= j < |path|
      ensures path[j] == data[i + j] != 0
    {
      assert data[i..i + |path|][j] == data[i + j];
    }
    var n: nat := 0;
    while data[i + n] != 0
      invariant n <= |path| && (n < |path| ==> path[n] != 0)
      decreases |path| - n
    {
      n := n + 1;
    }
    s := data[i..i + n];
  }

  /** Applies a serialized delta to a tree. */
  method DeltaApply(tree: CbTree, data: seq<byte>, ghost edits: seq<Edit>)
    requires tree.Valid() && data == Encode(edits)
    modifies tree.Repr
    ensures tree.Valid() && fresh(tree.Repr - old(tree.Repr))
    ensures tree.Contents() == Applied(old(tree.Contents()), edits)
  {
    hide Encode, Applied, CbTree.Valid, CbTree.Contents;
    var dptr: nat := 0;
    ghost var k: nat := 0;
    AppliedNone(tree.Contents(), edits);
    while dptr < |data|
      invariant k <= |edits| && dptr <= |data| && data[dptr..] == Encode(edits[k..])
      invariant tree.Valid() && fresh(tree.Repr - old(tree.Repr))
      invariant tree.Contents() == Applied(old(tree.Contents()), edits[..k])
    {
      EditInData(data, dptr, edits, k);
      ghost var e := edits[k];
      var path := StringAt(data, dptr + 1, e.path);
      var code;
      if data[dptr] == PLUS {
        code := tree.Insert(path);
      } else {
        code := tree.Delete(path);
      }
      AppliedNext(old(tree.Contents()), edits, k);
      dptr := dptr + 2 + |path|;
      k := k + 1;
    }
    EncodeNothing(edits[k..]);
    assert edits[..|edits|] == edits;
  }

  lemma AppliedNone(s: set<cstring>, edits: seq<Edit>)
    ensures edits[..0] == [] && edits[0..] == edits && Applied(s, edits[..0]) == s
  {
  }

  lemma AppliedNext(s: set<cstring>, edits: seq<Edit>, k: nat)
    requires k < |edits|
    ensures var before, e := Applied(s, edits[..k]), edits[k];
            Applied(s, edits[..k + 1]) == if e.Add? then before + {e.path} else before - {e.path}
  {
    assert edits[..k + 1][..k] == edits[..k];
  }

  lemma EncodeNothing(edits: seq<Edit>)
    ensures Encode(edits) == [] ==> edits == []
  {
  }

  /** Where the parts of the next edit are. */
  lemma EditInData(data: seq<byte>, i: nat, edits: seq<Edit>, k: nat)
    requires i < |data| && k <= |edits| && data[i..] == Encode(edits[k..])
    ensures k < |edits|
    ensures var e := edits[k];
            i + 1 + |e.path| < |data| && data[i] == (if e.Add? then PLUS else MINUS)
            && data[i + 1..i + 1 + |e.path|] == e.path && data[i + 1 + |e.path|] == 0
            && data[i + 2 + |e.path|..] == Encode(edits[k + 1..])
  {
    var rest := data[i..];
    var e := edits[k];
    assert edits[k..][0] == e && edits[k..][1..] == edits[k + 1..];
    var head, tail := EncodeEdit(e), Encode(edits[k + 1..]);
    assert rest == head + tail;
    assert rest[0] == head[0] && rest[1 + |e.path|] == head[1 + |e.path|];
    assert head[1..1 + |e.path|] == e.path;
    assert rest[1..1 + |e.path|] == head[1..1 + |e.path|];
    assert rest[2 + |e.path|..] == tail;
    SubSlice(data, i, |data|, 1, 1 + |e.path|);
    assert data[i..|data|] == data[i..];
    assert data[i + 2 + |e.path|..] == rest[2 + |e.path|..];
  }

  // ---------- writing ----------

  /** Writes one edit behind what is written so far. */
  method PutEdit(data: array<byte>, dptr: nat, e: Edit) returns (end: nat)
    requires dptr + |e.path| + 2 <= data.Length
    modifies data
    ensures end == dptr + |e.path| + 2 && data[..end] == old(data[..dptr]) + EncodeEdit(e)
  {
    data[dptr] := if e.Add? then PLUS else MINUS;
    forall i | 0 <= i < |e.path| {
      data[dptr + 1 + i] := e.path[i];
    }
    data[dptr + 1 + |e.path|] := 0;
    end := dptr + |e.path| + 2;
  }

  /** Serializes a delta of known length. */
  method EncodeDelta(edits: seq<Edit>, len: nat) returns (s: seq<byte>)
    requires len == |Encode(edits)|
    ensures s == Encode(edits)
  {
    var data := new byte[len];
    var dptr: nat := 0;
    for i := 0 to |edits|
      invariant dptr <= len && data[..dptr] + Encode(edits[i..]) == Encode(edits)
    {
      assert edits[i..][0] == edits[i] && edits[i..][1..] == edits[i + 1..];
      ghost var written := data[..dptr];
      assert |written + Encode(edits[i..])| == len;
      dptr := PutEdit(data, dptr, edits[i]);
      assert written + (EncodeEdit(edits[i]) + Encode(edits[i + 1..])) ==
             written + EncodeEdit(edits[i]) + Encode(edits[i + 1..]);
    }
    assert edits[|edits|..] == [];
    s := data[..];
    assert s == data[..dptr];
  }

  // ---------- listing ----------

  /** `s` is the path itself or lies below it; everything lies below the empty path. */
  predicate Under(path: cstring, s: cstring) {
    path <= s && (path == [] || |s| == |path| || s[|path|] == SLASH)
  }

  /** The path and all its descendants, and nothing else. */
  ghost function Subtree(ss: set<cstring>, path: cstring): set<cstring> {
    set s | s in ss && Under(path, s)
  }

  /** Levels are separated by slashes, byte 47: besides the path itself exactly what goes on with one
      behind it is in the subtree. */
  lemma SubtreeExact(ss: set<cstring>, path: cstring, s: cstring)
    ensures s in Subtree(ss, path) <==>
            s in ss && path <= s && (path == [] || |s| == |path| || s[|path|] == 47)
  {
  }

  /** Some stored string has the path as a prefix, or nothing is stored: the condition under
      which a prefix walk visits only strings with the prefix. */
  ghost predicate Walkable(ss: set<cstring>, path: cstring) {
    ss == {} || exists s :: s in ss && path <= s
  }

  /** What the callback of the walk looks for: nothing or a slash behind as many bytes as the path
      has. It does not look at these bytes themselves. */
  predicate Ends(path: cstring, s: cstring) {
    path == [] || (|s| >= |path| && (|s| == |path| || s[|path|] == SLASH))
  }

  /** What can be picked from a tree: of the strings visited those that the callback looks for. Of a
      visited string that is shorter than the path it reads what lies behind it in memory. */
  ghost predicate Picked(v: Option<Trie>, path: cstring, picked: set<cstring>) {
    match v
    case None => picked == {}
    case Some(t) =>
      && picked <= Strings(PrefixTop(t, path))
      && forall s :: s in Strings(PrefixTop(t, path)) && |s| >= |path| ==> (s in picked <==> Ends(path, s))
  }

  /** Paths of a tree at and below a path, in ascending order; exactly those if some stored string
      begins with the path. */
  method TreeToArray(tree: CbTree, path: cstring) returns (arr: seq<cstring>)
    requires tree.Valid()
    ensures Ascending(arr) && Picked(tree.Value(), path, set s | s in arr)
    ensures Walkable(tree.Contents(), path) ==> forall s :: s in arr <==> s in tree.Contents() && Under(path, s)
    ensures path == [] ==> arr == match tree.Value() case None => [] case Some(t) => Listing(t)
  {
    hide Listing, PrefixTop, Ascending, Picked, Walkable;
    var ret, visited := tree.WalkPrefixed(path, s => 0);
    WalkVisits(tree, path, visited);
    arr := [];
    NothingTaken(visited, path);
    for i := 0 to |visited|
      invariant Taken(visited[..i], path, arr)
    {
      var elem := visited[i];
      // of an element shorter than the path, something behind its terminator
      var c: byte := *;
      if |path| <= |elem| {
        c := ByteAt(elem, |path|);
      }
      TakeOne(visited, i, path, arr, c);
      if |path| == 0 || c == 0 || c == SLASH {
        arr := arr + [elem];
      }
    }
    assert visited[..|visited|] == visited;
    TakenIsPicked(tree, path, visited, arr);
  }

  /** What is taken from a list: a part of it in the same order. */
  ghost predicate Taken(visited: seq<cstring>, path: cstring, arr: seq<cstring>) {
    && Ascending(arr) && (forall s :: s in arr ==> s in visited) && (path == [] ==> arr == visited)
    && (forall s :: s in visited && |s| >= |path| ==> (s in arr <==> Ends(path, s)))
  }

  lemma NothingTaken(visited: seq<cstring>, path: cstring)
    ensures Taken(visited[..0], path, [])
  {
  }

  lemma TakeOne(visited: seq<cstring>, i: nat, path: cstring, arr: seq<cstring>, c: byte)
    requires Ascending(visited) && i < |visited| && Taken(visited[..i], path, arr)
    requires |path| <= |visited[i]| ==> c == ByteAt(visited[i], |path|)
    ensures Taken(visited[..i + 1], path, if |path| == 0 || c == 0 || c == SLASH then arr + [visited[i]] else arr)
  {
    var before, now, elem := visited[..i], visited[..i + 1], visited[i];
    assert now == before + [elem];
    forall s | s in before
      ensures Less(s, elem) && s != elem
    {
      var k :| 0 <= k < i && before[k] == s;
      assert Less(visited[k], visited[i]);
      LessIsStrict(visited[k], visited[i]);
    }
    assert elem !in arr;
    assert forall s :: s in now <==> s in before || s == elem;
  }

  /** What the prefix walk visits. */
  lemma WalkVisits(tree: CbTree, path: cstring, visited: seq<cstring>)
    requires tree.Valid()
    requires visited ==
             VisitAll(match tree.Value() case None => [] case Some(t) => Listing(PrefixTop(t, path)), s => 0).visited
    ensures Ascending(visited)
    ensures visited == match tree.Value() case None => [] case Some(t) => Listing(PrefixTop(t, path))
  {
    if tree.Value().Some? {
      var t := tree.Value().value;
      VisitsAll(Listing(PrefixTop(t, path)), s => 0);
      PrefixTopWithin(t, path);
      ListingAscends(PrefixTop(t, path));
    }
  }

  lemma TakenIsPicked(tree: CbTree, path: cstring, visited: seq<cstring>, arr: seq<cstring>)
    requires tree.Valid() && Taken(visited, path, arr)
    requires visited == match tree.Value() case None => [] case Some(t) => Listing(PrefixTop(t, path))
    ensures Picked(tree.Value(), path, set s | s in arr)
    ensures Walkable(tree.Contents(), path) ==> forall s :: s in arr <==> s in tree.Contents() && Under(path, s)
    ensures path == [] ==> arr == match tree.Value() case None => [] case Some(t) => Listing(t)
  {
    if tree.Value().Some? {
      var t := tree.Value().value;
      ListingMembers(PrefixTop(t, path));
      if Walkable(tree.Contents(), path) {
        var s :| s in Strings(t) && path <= s;
        PrefixTopExact(t, path, s);
      }
    }
  }

  // ---------- when picking is right ----------

  /** The walk finds the strings that begin with the path, or nothing that looks like them. */
  ghost predicate Harmless(t: Trie, path: cstring) {
    || (exists s :: s in Strings(t) && path <= s)
    || (forall s :: s in Strings(PrefixTop(t, path)) ==> |s| > |path| && s[|path|] != SLASH)
  }

  /** The same of a set of paths, which has only one good trie. */
  ghost predicate PicksRight(ss: set<cstring>, path: cstring) {
    forall t: Trie :: Good(t) && Strings(t) == ss ==> Harmless(t, path)
  }

  /** Whatever lies behind the strings in memory, exactly the path and what is below it is picked if
      and only if some stored string begins with the path, or the strangers that are visited are
      longer and have no slash in its place. */
  lemma PickedExact(t: Trie, path: cstring)
    requires Good(t)
    ensures (forall picked :: Picked(Some(t), path, picked) ==> picked == Subtree(Strings(t), path)) <==>
            Harmless(t, path)
  {
    var visited := Strings(PrefixTop(t, path));
    PrefixTopWithin(t, path);
    if Harmless(t, path) {
      forall picked | Picked(Some(t), path, picked)
        ensures picked == Subtree(Strings(t), path)
      {
        PickedRight(t, path, picked);
      }
    } else {
      var s :| s in visited && !(|s| > |path| && s[|path|] != SLASH);
      var picked := set x | x in visited && (|x| < |path| || Ends(path, x));
      assert Picked(Some(t), path, picked) && s in picked;
      assert !(path <= s);
    }
  }

  lemma PickedRight(t: Trie, path: cstring, picked: set<cstring>)
    requires Good(t) && Harmless(t, path) && Picked(Some(t), path, picked)
    ensures picked == Subtree(Strings(t), path)
  {
    if s :| s in Strings(t) && path <= s {
      PrefixTopExact(t, path, s);
    } else {
      PrefixTopWithin(t, path);
      assert path != [] by {
        var s :| s in Strings(PrefixTop(t, path));
        assert [] <= s;
      }
    }
  }

  /** What is picked from a tree is right when it is right for its set of paths. */
  lemma PickedFromTree(tree: CbTree, path: cstring, picked: set<cstring>)
    requires tree.Valid() && Picked(tree.Value(), path, picked)
    ensures PicksRight(tree.Contents(), path) ==> picked == Subtree(tree.Contents(), path)
  {
    if tree.Value().Some? && PicksRight(tree.Contents(), path) {
      PickedRight(tree.Value().value, path, picked);
    }
  }

  lemma WalkableIsRight(ss: set<cstring>, path: cstring)
    requires Walkable(ss, path)
    ensures PicksRight(ss, path)
  {
    forall t: Trie | Good(t) && Strings(t) == ss
      ensures Harmless(t, path)
    {
      PrefixTopWithin(t, path);
      var s :| s in Strings(PrefixTop(t, path));
    }
  }

  /** The failing case: with only "a" stored, "b" picks "a". */
  lemma StrangerPicked(picked: set<cstring>)
    requires Picked(Some(Leaf([97])), [98], picked)
    ensures picked == {[97]} && Subtree({[97]}, [98]) == {}
  {
    var a: cstring, b: cstring := [97], [98];
    assert a in Strings(PrefixTop(Leaf(a), b));
    assert b[0] != a[0];
  }

  // ---------- sizes ----------

  /** The number of bytes of a snapshot of a set of paths. */
  ghost function SizeOf(ss: set<cstring>): nat
    decreases |ss|
  {
    if ss == {} then 0
    else var s :| s in ss; |s| + 2 + SizeOf(ss - {s})
  }

  lemma {:induction false} SizeOfRemove(ss: set<cstring>, s: cstring)
    requires s in ss
    ensures SizeOf(ss) == |s| + 2 + SizeOf(ss - {s})
    decreases |ss|
  {
    var x :| x in ss && SizeOf(ss) == |x| + 2 + SizeOf(ss - {x});
    if x != s {
      SizeOfRemove(ss - {x}, s);
      SizeOfRemove(ss - {s}, x);
      assert ss - {x} - {s} == ss - {s} - {x};
    }
  }

  /** The order in which paths are listed does not change the size. */
  lemma {:induction false} SizeOfListing(paths: seq<cstring>, ss: set<cstring>)
    requires forall i, j :: 0 <= i < j < |paths| ==> paths[i] != paths[j]
    requires forall s :: s in paths <==> s in ss
    ensures |Encode(Adds(paths))| == SizeOf(ss)
    decreases |paths|
  {
    if paths != [] {
      var p := paths[0];
      assert p in ss;
      SizeOfRemove(ss, p);
      forall s | s in paths[1..]
        ensures s in ss - {p}
      {
        var i :| 0 <= i < |paths[1..]| && paths[1..][i] == s;
        assert paths[i + 1] == s;
      }
      forall s | s in ss - {p}
        ensures s in paths[1..]
      {
        var i :| 0 <= i < |paths| && paths[i] == s;
        assert paths[1..][i - 1] == s;
      }
      SizeOfListing(paths[1..], ss - {p});
      assert Adds(paths)[1..] == Adds(paths[1..]);
    } else {
      assert ss == {};
    }
  }
}
