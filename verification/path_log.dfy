/** What a log entry does to the path tree: deletions, additions and copies. */
module PathLog {
  import opened Bytes
  import opened CritBit
  import opened CritBitBits
  import opened CritBitOrder
  import opened DeltaCopyfrom
  import opened PathDelta
  import opened PathEncoding
  import opened PathRepository

  /** Where a path was copied from, in terms of the original repository. */
  datatype CopySource = CopySource(path: cstring, rev: int)

  /** One changed path of a log entry; the action is 'A', 'D', 'R' or 'M'. */
  datatype Change = Change(path: cstring, action: char, copyfrom: Option<CopySource>)

  /** The session: its prefix, its way of numbering revisions, and what the server lists below a
      path that was copied from outside. */
  datatype Session = Session(prefix: cstring, keepRevnums: bool, logs: seq<int>, fetch: cstring -> seq<cstring>)

  // ---------- meaning ----------

  predicate Deletes(c: Change) { c.action == 'D' || c.action == 'R' }

  predicate Creates(c: Change) { c.action == 'A' || c.action == 'R' }

  /** A path below `from`, moved to the same place below `to`. */
  function Moved(from: cstring, to: cstring, s: cstring): (r: cstring)
    requires from <= s
  {
    var r := to + s[|from|..];
    assert forall i :: 0 <= i < |r| ==> r[i] == if i < |to| then to[i] else s[|from| + (i - |to|)];
    r
  }

  /** The subtree below `from`, re-rooted at `to`. */
  ghost function Rerooted(ss: set<cstring>, from: cstring, to: cstring): set<cstring> {
    set s | s in Subtree(ss, from) :: Moved(from, to, s)
  }

  /** What a copy adds: each path below the source with its beginning replaced, but a single path
      becomes the target itself. */
  ghost function Copied(ss: set<cstring>, from: cstring, to: cstring): set<cstring> {
    if |Subtree(ss, from)| == 1 then {to} else Rerooted(ss, from, to)
  }

  /** The place below `to` that a path has below `from`. */
  function Placed(from: cstring, to: cstring, s: cstring): (r: cstring)
    requires Under(from, s) && s != from
  {
    var r := to + [SLASH] + if from == [] then s else s[|from| + 1..];
    assert forall i :: 0 <= i < |r| ==>
        r[i] == if i < |to| then to[i] else if i == |to| then SLASH else s[|s| - (|r| - i)];
    r
  }

  /** What a copy means: the target, and below it whatever is below the source. */
  ghost function CopyMeant(ss: set<cstring>, from: cstring, to: cstring): set<cstring> {
    {to} + set s | s in Subtree(ss, from) && s != from :: Placed(from, to, s)
  }

  /** The source of a copy is there: a path, or the root of a tree that is not empty. */
  ghost predicate SourceExists(ss: set<cstring>, from: cstring) {
    if from == [] then ss != {} else from in ss
  }

  /** The local path of a copy source inside the prefix. */
  function LocalPath(x: Session, path: cstring): (local: cstring)
    requires x.prefix <= path
  {
    var local := SkipSlashes(path[|x.prefix|..]);
    assert forall i :: 0 <= i < |local| ==> local[i] == path[|path| - |local| + i];
    local
  }

  lemma LocalIsString(x: Session, path: cstring)
    ensures x.prefix <= path ==> SkipSlashes(path[|x.prefix|..]) == LocalPath(x, path)
  {
  }

  function LocalRev(x: Session, rev: int): int {
    if x.keepRevnums then rev
    else if x.logs == [] then -2 else GreatestNotAfter(x.logs, rev, |x.logs| - 1)
  }

  /** What a creating change adds. */
  ghost function Created(x: Session, h: History, c: Change): set<cstring> {
    match c.copyfrom
    case None => {c.path}
    case Some(src) =>
      if x.prefix <= src.path then Copied(Live(h, LocalRev(x, src.rev)), LocalPath(x, src.path), c.path)
      else set s | s in x.fetch(c.path)
  }

  /** The effect of a change on the set of paths. */
  ghost function Edited(x: Session, h: History, ss: set<cstring>, c: Change): set<cstring> {
    var kept := if Deletes(c) then ss - Subtree(ss, c.path) else ss;
    if Creates(c) then kept + Created(x, h, c) else kept
  }

  ghost function EditedAll(x: Session, h: History, ss: set<cstring>, cs: seq<Change>): set<cstring>
    decreases |cs|
  {
    if cs == [] then ss else Edited(x, h, EditedAll(x, h, ss, cs[..|cs| - 1]), cs[|cs| - 1])
  }

  // ---------- the meaning, path by path ----------

  /** What one change leaves: 'D' and 'R' take away the path and what goes on with a slash, byte 47,
      behind it; 'A' and 'R' add the path, or what is copied to it; nothing else changes anything. */
  lemma EditedExact(x: Session, h: History, ss: set<cstring>, c: Change, p: cstring)
    ensures var taken := (c.action == 'D' || c.action == 'R') && c.path <= p
                         && (c.path == [] || |p| == |c.path| || p[|c.path|] == 47);
            var added := (c.action == 'A' || c.action == 'R')
                         && match c.copyfrom
                            case None => p == c.path
                            case Some(src) =>
                              if x.prefix <= src.path
                              then p in Copied(Live(h, LocalRev(x, src.rev)), LocalPath(x, src.path), c.path)
                              else p in x.fetch(c.path);
            p in Edited(x, h, ss, c) <==> (p in ss && !taken) || added
  {
    hide Copied, Live, LocalRev, LocalPath;
    SubtreeExact(ss, c.path, p);
  }

  /** The changes take effect one after the other. */
  lemma EditedInOrder(x: Session, h: History, ss: set<cstring>, cs: seq<Change>, c: Change)
    ensures EditedAll(x, h, ss, []) == ss
    ensures EditedAll(x, h, ss, cs + [c]) == Edited(x, h, EditedAll(x, h, ss, cs), c)
  {
    hide Edited;
    assert (cs + [c])[..|cs|] == cs;
  }

  /** Where a copy comes from: the prefix and the slashes behind it are left out, and the revision is
      kept or replaced by the index of the last earlier entry of the list that is not after it. */
  lemma CopySourceExact(x: Session, src: CopySource, gap: seq<byte>, from: cstring)
    requires src.path == x.prefix + gap + from && (forall i :: 0 <= i < |gap| ==> gap[i] == 47)
    requires from == [] || from[0] != 47
    ensures x.prefix <= src.path && LocalPath(x, src.path) == from
    ensures var r := LocalRev(x, src.rev);
            if x.keepRevnums then r == src.rev
            else x.logs != [] ==>
              && -1 <= r < |x.logs| - 1 && (r >= 0 ==> x.logs[r] <= src.rev)
              && forall i :: r < i < |x.logs| - 1 ==> x.logs[i] > src.rev
  {
    assert src.path[|x.prefix|..] == gap + from;
    SlashesSkipped(gap, from);
  }

  /** What is copied from a path that is there: the target, and below it all that is below the path. */
  lemma CopiedExact(ss: set<cstring>, from: cstring, to: cstring, p: cstring)
    requires from in ss && from != []
    ensures p in Copied(ss, from, to) <==>
            p == to || exists s :: s in ss && from + [47] <= s && p == to + s[|from|..]
  {
    hide Copied;
    CopyFromPath(ss, from, to);
    forall s | s in ss && from + [47] <= s
      ensures s in Subtree(ss, from) && s != from && Placed(from, to, s) == to + s[|from|..]
    {
      PlacedBelow(from, to, s);
    }
    forall s | s in Subtree(ss, from) && s != from
      ensures from + [47] <= s && Placed(from, to, s) == to + s[|from|..]
    {
      assert s[|from|..] == [s[|from|]] + s[|from| + 1..];
      assert s == from + s[|from|..];
      PlacedBelow(from, to, s);
    }
    if p in CopyMeant(ss, from, to) && p != to {
      var s :| s in Subtree(ss, from) && s != from && p == Placed(from, to, s);
      assert s in ss && from + [47] <= s;
    }
  }

  lemma PlacedBelow(from: cstring, to: cstring, s: cstring)
    requires from + [47] <= s && from != []
    ensures Under(from, s) && s != from && Placed(from, to, s) == to + s[|from|..]
  {
    assert s[|from|] == (from + [47])[|from|] == 47 && s[..|from|] == (from + [47])[..|from|];
    assert s[|from|..] == [47] + s[|from| + 1..];
  }

  // ---------- what changes need ----------

  /** What a copy from within the prefix needs: a source that exists at a committed revision that can
      be reconstructed. */
  ghost predicate CopyOk(x: Session, h: History, last: int, c: Change) {
    c.copyfrom.Some? && x.prefix <= c.copyfrom.value.path ==>
      var from, rev := LocalPath(x, c.copyfrom.value.path), LocalRev(x, c.copyfrom.value.rev);
      0 <= rev <= last && Reconstructible(h, rev) && SourceExists(Live(h, rev), from)
  }

  /** What a change needs: a deletion for which the right paths are picked, and a good copy source. */
  ghost predicate ChangeOk(x: Session, h: History, last: int, ss: set<cstring>, c: Change) {
    (Deletes(c) ==> PicksRight(ss, c.path)) && (Creates(c) ==> CopyOk(x, h, last, c))
  }

  ghost predicate ChangesOk(x: Session, h: History, last: int, ss: set<cstring>, cs: seq<Change>) {
    forall i :: 0 <= i < |cs| ==> ChangeOk(x, h, last, EditedAll(x, h, ss, cs[..i]), cs[i])
  }

  ghost function CreatedSize(x: Session, h: History, c: Change): nat {
    if c.copyfrom.Some? && !(x.prefix <= c.copyfrom.value.path) then |Encode(Adds(x.fetch(c.path)))|
    else SizeOf(Created(x, h, c))
  }

  /** The bytes a change adds to the delta. */
  ghost function Growth(x: Session, h: History, ss: set<cstring>, c: Change): nat {
    (if Deletes(c) then SizeOf(Subtree(ss, c.path)) else 0) + (if Creates(c) then CreatedSize(x, h, c) else 0)
  }

  ghost function GrowthAll(x: Session, h: History, ss: set<cstring>, cs: seq<Change>): nat
    decreases |cs|
  {
    if cs == [] then 0
    else GrowthAll(x, h, ss, cs[..|cs| - 1]) + Growth(x, h, EditedAll(x, h, ss, cs[..|cs| - 1]), cs[|cs| - 1])
  }

  // ---------- properties of the meaning ----------

  /** Deleting removes exactly the path and its descendants: "foobar" survives deleting "foo". */
  lemma DeleteSparesSiblings(path: cstring, c: byte, rest: cstring)
    requires path != [] && c != 47 && c != 0
    ensures NulFree(path + [c] + rest) && path <= path + [c] + rest && !Under(path, path + [c] + rest)
  {
    var s := path + [c] + rest;
    forall i | 0 <= i < |s|
      ensures s[i] != 0
    {
      assert s[i] == if i < |path| then path[i] else if i == |path| then c else rest[i - |path| - 1];
    }
    assert s[|path|] == c;
  }

  /** Every directory on the way to a path is there too. */
  ghost predicate ParentClosed(ss: set<cstring>) {
    forall s :: s in ss ==> AncestorsIn(ss, s)
  }

  ghost predicate AncestorsIn(ss: set<cstring>, s: cstring) {
    forall i :: 0 < i < |s| && s[i] == SLASH ==> Prefix(s, i) in ss
  }

  function Prefix(s: cstring, n: nat): cstring
    requires n <= |s|
  {
    assert forall i :: 0 <= i < n ==> s[..n][i] == s[i];
    s[..n]
  }

  /** Removing a subtree leaves no orphans. */
  lemma DeletionKeepsParents(ss: set<cstring>, path: cstring)
    requires ParentClosed(ss)
    ensures ParentClosed(ss - Subtree(ss, path))
  {
    var kept := ss - Subtree(ss, path);
    forall s, i | s in kept && 0 < i < |s| && s[i] == SLASH
      ensures Prefix(s, i) in kept
    {
      assert AncestorsIn(ss, s);
      var a := Prefix(s, i);
      if Under(path, a) {
        UnderExtends(path, a, s, i);
      }
    }
  }

  lemma UnderExtends(path: cstring, a: cstring, s: cstring, i: nat)
    requires 0 < i < |s| && s[i] == SLASH && a == s[..i] && Under(path, a)
    ensures Under(path, s)
  {
    assert forall k :: 0 <= k < |path| ==> path[k] == a[k] == s[k];
    if |path| < |a| {
      assert a[|path|] == s[|path|];
    }
  }

  ghost predicate NoLeadingSlash(ss: set<cstring>) {
    forall s :: s in ss && s != [] ==> s[0] != SLASH
  }

  /** What is copied has its parents as soon as the target has, even from the root. */
  lemma CopyKeepsParents(kept: set<cstring>, source: set<cstring>, from: cstring, to: cstring)
    requires ParentClosed(kept) && ParentClosed(source) && SourceExists(source, from)
    requires AncestorsIn(kept, to) && (from == [] ==> NoLeadingSlash(source))
    ensures ParentClosed(kept + Copied(source, from, to))
  {
    var added := Copied(source, from, to);
    forall s | s in kept + added
      ensures AncestorsIn(kept + added, s)
    {
      if s in kept {
        assert AncestorsIn(kept, s);
      } else if |Subtree(source, from)| != 1 {
        var o :| o in Subtree(source, from) && s == Moved(from, to, o);
        MovedHasParents(kept, source, from, to, o);
      }
    }
  }

  lemma MovedHasParents(kept: set<cstring>, source: set<cstring>, from: cstring, to: cstring, o: cstring)
    requires ParentClosed(source) && AncestorsIn(kept, to) && (from == [] ==> NoLeadingSlash(source))
    requires o in Subtree(source, from) && SourceExists(source, from)
    ensures AncestorsIn(kept + Rerooted(source, from, to), Moved(from, to, o))
  {
    var s := Moved(from, to, o);
    forall i | 0 < i < |s| && s[i] == SLASH
      ensures Prefix(s, i) in kept + Rerooted(source, from, to)
    {
      if i < |to| {
        assert Prefix(s, i) == Prefix(to, i);
      } else {
        var j := i - |to| + |from|;
        assert o[j] == s[i];
        assert j > 0;
        var a := Prefix(o, j);
        assert AncestorsIn(source, o);
        assert a in source && from <= a;
        assert |from| < |a| ==> a[|from|] == o[|from|];
        assert Moved(from, to, a) == Prefix(s, i);
      }
    }
  }

  // ---------- when a copy is right ----------

  /** A copy adds what it means if and only if its source is not the root, or the root is all there is
      in the source tree. */
  lemma CopyExact(ss: set<cstring>, from: cstring, to: cstring)
    requires SourceExists(ss, from)
    ensures Copied(ss, from, to) == CopyMeant(ss, from, to) <==> from != [] || ss == {[]}
  {
    if from != [] {
      CopyFromPath(ss, from, to);
    } else {
      assert Subtree(ss, []) == ss;
      if ss == {[]} {
        assert CopyMeant(ss, [], to) == {to};
      } else {
        CopyFromRoot(ss, to);
      }
    }
  }

  lemma CopyFromPath(ss: set<cstring>, from: cstring, to: cstring)
    requires from in ss && from != []
    ensures Copied(ss, from, to) == Rerooted(ss, from, to) == CopyMeant(ss, from, to)
  {
    var sub := Subtree(ss, from);
    assert from in sub && Moved(from, to, from) == to;
    forall s | s in sub && s != from
      ensures Moved(from, to, s) == Placed(from, to, s)
    {
      assert s[|from|..] == [SLASH] + s[|from| + 1..];
    }
    forall s
      ensures s in Rerooted(ss, from, to) <==> s in CopyMeant(ss, from, to)
    {
    }
    if |sub| == 1 {
      OnlyOne(sub, from);
      assert Rerooted(ss, from, to) == {to};
    }
  }

  lemma OnlyOne<T>(ss: set<T>, x: T)
    requires |ss| == 1 && x in ss
    ensures ss == {x}
  {
    assert |ss - {x}| == 0;
  }

  /** The longest path of a nonempty set. */
  lemma {:induction false} Longest(ss: set<cstring>) returns (l: cstring)
    requires ss != {}
    ensures l in ss && forall s :: s in ss ==> |s| <= |l|
    decreases |ss|
  {
    l :| l in ss;
    if ss != {l} {
      var rest := Longest(ss - {l});
      l := if |rest| > |l| then rest else l;
    }
  }

  /** From the root, the longest path should end up longer than anything that is added. */
  lemma CopyFromRoot(ss: set<cstring>, to: cstring)
    requires ss != {} && ss != {[]}
    ensures Copied(ss, [], to) != CopyMeant(ss, [], to)
  {
    var l := Longest(ss);
    assert (forall s :: s in ss ==> s == []) ==> ss == {[]};
    assert l in Subtree(ss, []) && Placed([], to, l) in CopyMeant(ss, [], to);
    assert |Placed([], to, l)| == |to| + 1 + |l|;
    forall s | s in Copied(ss, [], to)
      ensures |s| <= |to| + |l|
    {
    }
  }

  /** What is added has its parents, and comes from a parent-closed tree if it is copied. */
  ghost predicate HasParents(x: Session, h: History, ss: set<cstring>, c: Change) {
    Creates(c) ==>
      && AncestorsIn(if Deletes(c) then ss - Subtree(ss, c.path) else ss, c.path)
      && (c.copyfrom.Some? ==>
            var source := Live(h, LocalRev(x, c.copyfrom.value.rev));
            && x.prefix <= c.copyfrom.value.path && ParentClosed(source)
            && (LocalPath(x, c.copyfrom.value.path) == [] ==> NoLeadingSlash(source)))
  }

  /** A change whose additions have parents keeps a parent-closed tree parent-closed. */
  lemma EditKeepsParents(x: Session, h: History, last: int, ss: set<cstring>, c: Change)
    requires ParentClosed(ss) && ChangeOk(x, h, last, ss, c) && HasParents(x, h, ss, c)
    ensures ParentClosed(Edited(x, h, ss, c))
  {
    var kept := if Deletes(c) then ss - Subtree(ss, c.path) else ss;
    DeletionKeepsParents(ss, c.path);
    if Creates(c) {
      match c.copyfrom
      case None =>
        forall s | s in kept + {c.path}
          ensures AncestorsIn(kept + {c.path}, s)
        {
          assert AncestorsIn(kept, s);
        }
      case Some(src) =>
        CopyKeepsParents(kept, Live(h, LocalRev(x, src.rev)), LocalPath(x, src.path), c.path);
    }
  }

  /** So does a whole log entry. */
  lemma {:induction false} EntryKeepsParents(x: Session, h: History, last: int, ss: set<cstring>, cs: seq<Change>)
    requires ParentClosed(ss) && ChangesOk(x, h, last, ss, cs)
    requires forall i :: 0 <= i < |cs| ==> HasParents(x, h, EditedAll(x, h, ss, cs[..i]), cs[i])
    ensures ParentClosed(EditedAll(x, h, ss, cs))
    decreases |cs|
  {
    hide Edited, ParentClosed, ChangeOk, HasParents;
    if cs != [] {
      var before, n := cs[..|cs| - 1], |cs| - 1;
      forall i | 0 <= i < n
        ensures before[..i] == cs[..i] && before[i] == cs[i]
      {
      }
      EntryKeepsParents(x, h, last, ss, before);
      EditKeepsParents(x, h, last, EditedAll(x, h, ss, before), cs[n]);
    }
  }

  /** The failing cases: copying from the root to "a" adds only "a" when the source tree has the one
      path "b", and without "a" itself "ab" and "ac" when it has "b" and "c". */
  lemma RootCopyGluesNames()
    ensures Copied({[98]}, [], [97]) == {[97]} && CopyMeant({[98]}, [], [97]) == {[97], [97, 47, 98]}
    ensures Copied({[98], [99]}, [], [97]) == {[97, 98], [97, 99]}
    ensures CopyMeant({[98], [99]}, [], [97]) == {[97], [97, 47, 98], [97, 47, 99]}
  {
    var a: cstring, b: cstring, c: cstring := [97], [98], [99];
    assert Subtree({b}, []) == {b} && Subtree({b, c}, []) == {b, c};
    assert Moved([], a, b) == [97, 98] && Moved([], a, c) == [97, 99];
    assert Placed([], a, b) == [97, SLASH, 98] && Placed([], a, c) == [97, SLASH, 99];
    assert b[0] != c[0];
    assert |{b, c}| == 2;
  }

  // ---------- the log entry applied to the repository ----------

  /** Schedules the listed paths for addition, in order. */
  method AddAll(repo: PathRepo, paths: seq<cstring>)
    requires repo.Valid()
    modifies repo`delta, repo`deltaLen, repo`TreeRepr, repo.tree.Repr
    ensures repo.Valid() && fresh(repo.TreeRepr - old(repo.TreeRepr)) && fresh(repo.tree.Repr - old(repo.tree.Repr))
    ensures repo.deltaLen == old(repo.deltaLen) + |Encode(Adds(paths))|
    ensures repo.tree.Contents() == old(repo.tree.Contents()) + (set s | s in paths)
  {
    hide PathRepo.Valid, Encode;
    SomethingToEncode([]);
    assert Adds(paths[..0]) == [];
    for j := 0 to |paths|
      invariant repo.Valid() && fresh(repo.TreeRepr - old(repo.TreeRepr)) && fresh(repo.tree.Repr - old(repo.tree.Repr))
      invariant repo.deltaLen == old(repo.deltaLen) + |Encode(Adds(paths[..j]))|
      invariant repo.tree.Contents() == old(repo.tree.Contents()) + (set s | s in paths[..j])
    {
      var code := repo.Add(paths[j]);
      AddsSnoc(paths, j);
      assert paths[..j + 1] == paths[..j] + [paths[j]];
    }
    assert paths[..|paths|] == paths;
  }

  /** As above, for a repository that is settled and stays so. */
  method AddSettled(repo: PathRepo, paths: seq<cstring>)
    requires repo.Valid() && repo.Settled()
    modifies repo`delta, repo`deltaLen, repo`cacheRevs, repo`cacheIndex, repo`marks, repo`TreeRepr, repo.TreeRepr
    ensures repo.Valid() && repo.Settled() && fresh(repo.TreeRepr - old(repo.TreeRepr))
    ensures repo.history == old(repo.history) && repo.last == old(repo.last)
    ensures repo.deltaLen == old(repo.deltaLen) + |Encode(Adds(paths))|
    ensures repo.tree.Contents() == old(repo.tree.Contents()) + (set s | s in paths)
  {
    hide Encode, Live, Applied, Consistent, RecordsHold;
    AddAll(repo, paths);
  }

  /** Adds a copy of a subtree of an earlier revision. */
  method CopyInto(repo: PathRepo, from: cstring, rev: int, to: cstring)
    requires repo.Valid() && repo.Settled()
    requires 0 <= rev <= repo.last && Reconstructible(repo.history, rev) && SourceExists(Live(repo.history, rev), from)
    modifies repo`delta, repo`deltaLen, repo`cacheRevs, repo`cacheIndex, repo`marks, repo`TreeRepr, repo.TreeRepr
    ensures repo.Valid() && repo.Settled() && fresh(repo.TreeRepr - old(repo.TreeRepr))
    ensures repo.history == old(repo.history) && repo.last == old(repo.last)
    ensures repo.deltaLen == old(repo.deltaLen) + SizeOf(Copied(Live(repo.history, rev), from, to))
    ensures repo.tree.Contents() == old(repo.tree.Contents()) + Copied(Live(repo.history, rev), from, to)
  {
    hide PathRepo.Valid, PathRepo.Settled, Live, Reconstructible, Subtree, Copied, Encode, SizeOf, MovedAll;
    var cpaths := SourcePaths(repo, from, rev);
    ghost var source := Live(repo.history, rev);
    MovedListing(cpaths, source, from, to);
    if |cpaths| == 1 {
      SizeOfSingle(to);
      AddSettled(repo, [to]);
    } else {
      AddSettled(repo, MovedAll(cpaths, from, to));
    }
  }

  /** The paths of the copied subtree, in ascending order. */
  method SourcePaths(repo: PathRepo, from: cstring, rev: int) returns (cpaths: seq<cstring>)
    requires repo.Valid() && repo.Settled()
    requires 0 <= rev <= repo.last && Reconstructible(repo.history, rev) && SourceExists(Live(repo.history, rev), from)
    modifies repo`cacheRevs, repo`cacheIndex, repo`marks, repo`TreeRepr, repo.TreeRepr
    ensures repo.Valid() && repo.Settled() && fresh(repo.TreeRepr - old(repo.TreeRepr))
    ensures repo.history == old(repo.history) && repo.last == old(repo.last)
    ensures repo.tree.Contents() == old(repo.tree.Contents()) && repo.deltaLen == old(repo.deltaLen)
    ensures Ascending(cpaths) && forall s :: s in cpaths <==> s in Subtree(Live(repo.history, rev), from)
  {
    hide PathRepo.Valid, PathRepo.CacheRepr, Recon, Until, Base, Live, Reconstructible, Ascending, SourceExists;
    repo.Parts();
    SourceWalkable(Live(repo.history, rev), from);
    var t;
    ghost var slot;
    t, slot := repo.Tree(rev);
    repo.CachedTree(slot);
    cpaths := TreeToArray(t, from);
  }

  lemma SourceWalkable(ss: set<cstring>, from: cstring)
    requires SourceExists(ss, from)
    ensures Walkable(ss, from)
  {
  }

  /** Every source path, re-rooted. */
  function MovedAll(paths: seq<cstring>, from: cstring, to: cstring): (r: seq<cstring>)
    requires forall i :: 0 <= i < |paths| ==> from <= paths[i]
    ensures |r| == |paths| && forall i :: 0 <= i < |r| ==> r[i] == Moved(from, to, paths[i])
  {
    seq(|paths|, i requires 0 <= i < |paths| => Moved(from, to, paths[i]))
  }

  /** A listing of a subtree with replaced beginnings, or the target alone, lists what a copy adds. */
  lemma MovedListing(paths: seq<cstring>, ss: set<cstring>, from: cstring, to: cstring)
    requires Ascending(paths) && forall s :: s in paths <==> s in Subtree(ss, from)
    ensures forall i :: 0 <= i < |paths| ==> from <= paths[i]
    ensures if |paths| == 1 then Copied(ss, from, to) == {to}
            else (set s | s in MovedAll(paths, from, to)) == Copied(ss, from, to)
                 && |Encode(Adds(MovedAll(paths, from, to)))| == SizeOf(Copied(ss, from, to))
  {
    forall i | 0 <= i < |paths|
      ensures from <= paths[i]
    {
      assert paths[i] in Subtree(ss, from);
    }
    AscendingDistinct(paths);
    ListedSize(paths, Subtree(ss, from));
    if |paths| != 1 {
      RerootedListing(paths, ss, from, to);
    }
  }

  lemma {:induction false} ListedSize(paths: seq<cstring>, ss: set<cstring>)
    requires forall i, j :: 0 <= i < j < |paths| ==> paths[i] != paths[j]
    requires forall s :: s in paths <==> s in ss
    ensures |ss| == |paths|
    decreases |paths|
  {
    if paths == [] {
      assert ss == {};
    } else {
      var front, last := paths[..|paths| - 1], paths[|paths| - 1];
      assert paths == front + [last];
      assert last !in front;
      ListedSize(front, ss - {last});
    }
  }

  lemma RerootedListing(paths: seq<cstring>, ss: set<cstring>, from: cstring, to: cstring)
    requires Ascending(paths) && (forall s :: s in paths <==> s in Subtree(ss, from))
    requires forall i :: 0 <= i < |paths| ==> from <= paths[i]
    ensures (set s | s in MovedAll(paths, from, to)) == Rerooted(ss, from, to)
    ensures |Encode(Adds(MovedAll(paths, from, to)))| == SizeOf(Rerooted(ss, from, to))
  {
    var moved := MovedAll(paths, from, to);
    forall s
      ensures s in moved <==> s in Rerooted(ss, from, to)
    {
      if s in moved {
        var i :| 0 <= i < |moved| && moved[i] == s;
        assert paths[i] in paths;
      }
      if s in Rerooted(ss, from, to) {
        var o :| o in Subtree(ss, from) && s == Moved(from, to, o);
        assert o in paths;
        var i :| 0 <= i < |paths| && paths[i] == o;
        assert moved[i] == s;
      }
    }
    AscendingDistinct(paths);
    forall i, j | 0 <= i < j < |moved|
      ensures moved[i] != moved[j]
    {
      assert paths[i] in paths && paths[j] in paths;
      assert paths[i] == from + paths[i][|from|..] && paths[j] == from + paths[j][|from|..];
      assert moved[i][|to|..] == paths[i][|from|..] && moved[j][|to|..] == paths[j][|from|..];
    }
    SizeOfListing(moved, Rerooted(ss, from, to));
  }

  /** Applies one changed path: deletion first, then addition or copy. */
  method ApplyChange(repo: PathRepo, x: Session, c: Change)
    requires repo.Valid() && repo.Settled() && ChangeOk(x, repo.history, repo.last, repo.tree.Contents(), c)
    modifies repo`delta, repo`deltaLen, repo`cacheRevs, repo`cacheIndex, repo`marks, repo`TreeRepr, repo.TreeRepr
    ensures repo.Valid() && repo.Settled() && fresh(repo.TreeRepr - old(repo.TreeRepr))
    ensures repo.history == old(repo.history) && repo.last == old(repo.last)
    ensures repo.tree.Contents() == Edited(x, repo.history, old(repo.tree.Contents()), c)
    ensures repo.deltaLen == old(repo.deltaLen) + Growth(x, repo.history, old(repo.tree.Contents()), c)
  {
    hide Live, Reconstructible, Subtree;
    if Deletes(c) {
      ghost var picked;
      picked := repo.Delete(c.path);
    }
    if Creates(c) {
      Create(repo, x, c);
    }
  }

  /** The creating half of a change. */
  method Create(repo: PathRepo, x: Session, c: Change)
    requires repo.Valid() && repo.Settled() && Creates(c) && CopyOk(x, repo.history, repo.last, c)
    modifies repo`delta, repo`deltaLen, repo`cacheRevs, repo`cacheIndex, repo`marks, repo`TreeRepr, repo.TreeRepr
    ensures repo.Valid() && repo.Settled() && fresh(repo.TreeRepr - old(repo.TreeRepr))
    ensures repo.history == old(repo.history) && repo.last == old(repo.last)
    ensures repo.tree.Contents() == old(repo.tree.Contents()) + Created(x, repo.history, c)
    ensures repo.deltaLen == old(repo.deltaLen) + CreatedSize(x, repo.history, c)
  {
    hide Live, Reconstructible, PathRepo.Valid, PathRepo.Settled, Subtree, Copied, Encode, SizeOf;
    hide LocalPath, SkipSlashes, GreatestNotAfter, SourceExists;
    if c.copyfrom == None {
      AddSettled(repo, [c.path]);
      SizeOfSingle(c.path);
    } else {
      var src := c.copyfrom.value;
      LocalIsString(x, src.path);
      var local := LocalCopyfromPath(x.prefix, src.path);
      if local == None {
        AddSettled(repo, x.fetch(c.path));
      } else {
        var rev := LocalCopyfromRev(src.rev, x.keepRevnums, x.logs);
        CopyInto(repo, local.value, rev, c.path);
      }
    }
  }

  lemma SizeOfSingle(path: cstring)
    ensures |Encode(Adds([path]))| == SizeOf({path}) && (set s | s in [path]) == {path}
  {
    assert forall s :: s in [path] <==> s == path;
    SizeOfListing([path], {path});
  }

  /** Commits a log entry: all its changes in order, then the commit itself. The committed set is
      the edited one. An entry without changed paths commits whatever is scheduled. */
  method CommitLog(repo: PathRepo, x: Session, changes: Option<seq<Change>>, revision: int)
    requires repo.Valid() && repo.Settled() && revision > repo.last && revision >= 0
    requires var cs := if changes == None then [] else changes.value;
             && ChangesOk(x, repo.history, repo.last, repo.tree.Contents(), cs)
             && repo.deltaLen + GrowthAll(x, repo.history, repo.tree.Contents(), cs) < TWO_31
             && (IsSnapshot(revision) ==> SizeOf(EditedAll(x, repo.history, repo.tree.Contents(), cs)) < TWO_31)
    modifies repo, repo.db, repo.env.hashTable, repo.env.scratch, repo.TreeRepr
    ensures repo.Valid() && repo.Settled() && repo.last == revision && repo.delta == []
    ensures var cs := if changes == None then [] else changes.value;
            Live(repo.history, revision) == EditedAll(x, old(repo.history), old(repo.tree.Contents()), cs)
    ensures forall r :: r < revision ==> Live(repo.history, r) == Live(old(repo.history), r)
  {
    hide Live, Edited, Growth, ChangeOk;
    if changes != None {
      var cs := changes.value;
      ApplyChanges(repo, x, cs);
    }
    repo.CommitDelta(revision);
    HistoryExtended(old(repo.history), repo.history, revision);
  }

  lemma HistoryExtended(h: History, h': History, revision: int)
    requires revision in h' && h' == h[revision := h'[revision]]
    ensures forall r :: r < revision ==> Live(h', r) == Live(h, r)
  {
    forall r | r < revision
      ensures Live(h', r) == Live(h, r)
    {
      LiveStable(h', h, r);
    }
  }

  /** The loop over the changed paths. */
  method ApplyChanges(repo: PathRepo, x: Session, cs: seq<Change>)
    requires repo.Valid() && repo.Settled()
    requires ChangesOk(x, repo.history, repo.last, repo.tree.Contents(), cs)
    modifies repo`delta, repo`deltaLen, repo`cacheRevs, repo`cacheIndex, repo`marks, repo`TreeRepr, repo.TreeRepr
    ensures repo.Valid() && repo.Settled() && fresh(repo.TreeRepr - old(repo.TreeRepr))
    ensures repo.history == old(repo.history) && repo.last == old(repo.last)
    ensures repo.tree.Contents() == EditedAll(x, repo.history, old(repo.tree.Contents()), cs)
    ensures repo.deltaLen == old(repo.deltaLen) + GrowthAll(x, repo.history, old(repo.tree.Contents()), cs)
  {
    hide PathRepo.Valid, PathRepo.Settled, Edited, Growth, ChangeOk;
    ghost var ss := repo.tree.Contents();
    for i := 0 to |cs|
      invariant repo.Valid() && repo.Settled() && fresh(repo.TreeRepr - old(repo.TreeRepr))
      invariant repo.history == old(repo.history) && repo.last == old(repo.last)
      invariant repo.tree.Contents() == EditedAll(x, repo.history, ss, cs[..i])
      invariant repo.deltaLen == old(repo.deltaLen) + GrowthAll(x, repo.history, ss, cs[..i])
    {
      assert cs[..i + 1][..i] == cs[..i];
      ApplyChange(repo, x, cs[i]);
    }
    assert cs[..|cs|] == cs;
  }
}
