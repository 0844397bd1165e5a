/** Propagating copies from a node to its children, level by level. */
module DeltaCopy {
  import opened Bytes
  import opened CritBitBits
  import opened DeltaCopyfrom
  import opened PathDelta
  import opened PathLog
  import opened PathRepository

  datatype CpInfo = CpiNone | CpiCopy | CpiFailed | CpiFailedOutside

  class DeltaNode {
    const path: cstring
    const parent: DeltaNode?
    var copyfromPath: Option<cstring>
    var copyfromRevision: int
    var cpInfo: CpInfo
    ghost const line: set<DeltaNode>  // this node and those above it

    /** A node without a parent, as the root node "/". */
    constructor Root(path: cstring)
      ensures Grounded(this) && this.path == path && parent == null && line == {this}
      ensures cpInfo == CpiNone && copyfromPath == None
    {
      this.path, parent, line := path, null, {this};
      copyfromPath, copyfromRevision, cpInfo := None, 0, CpiNone;
    }

    /** A node below another one; it starts with the copy information of its parent. */
    constructor Child(path: cstring, parent: DeltaNode)
      requires Grounded(parent) && (parent.parent != null ==> parent.path <= path)
      ensures Grounded(this) && this.path == path && this.parent == parent && line == parent.line + {this}
      ensures cpInfo == parent.cpInfo && copyfromPath == None
    {
      this.path, this.parent, line := path, parent, parent.line + {this};
      copyfromPath, copyfromRevision, cpInfo := None, 0, parent.cpInfo;
    }
  }

  /** The parents of a node end with the root, and the path of a node lies below those of its parents,
      except for that of the root: the root node is "/", and all other paths are relative to it. */
  ghost predicate Grounded(node: DeltaNode)
    decreases node.line
  {
    if node.parent == null then node.line == {node}
    else
      && node !in node.parent.line && node.line == node.parent.line + {node} && Grounded(node.parent)
      && (node.parent.parent != null ==> node.parent.path <= node.path)
  }

  /** The root itself is never copied from anywhere. */
  ghost predicate RootNotCopied(node: DeltaNode)
    reads node.line
  {
    forall n :: n in node.line && n.parent == null ==> n.copyfromPath == None
  }

  /** The nearest node, going up, that was itself copied from somewhere. */
  ghost function CopiedNode(node: DeltaNode): (r: DeltaNode?)
    requires Grounded(node)
    reads node.line
    ensures r != null ==> r in node.line && r.copyfromPath.Some?
    ensures r != null && r.parent != null ==> r.path <= node.path
    decreases node.line
  {
    if node.copyfromPath.Some? then node
    else if node.parent == null then null
    else CopiedNode(node.parent)
  }

  method FindCopied(node: DeltaNode) returns (copied: DeltaNode?)
    requires Grounded(node)
    ensures copied == CopiedNode(node)
    ensures copied == null <==> forall n :: n in node.line ==> n.copyfromPath == None
    ensures copied != null ==> forall n :: n in node.line && copied.line < n.line ==> n.copyfromPath == None
  {
    NearestCopied(node);
    copied := node;
    while copied != null && copied.copyfromPath == None
      invariant copied != null ==> Grounded(copied) && CopiedNode(copied) == CopiedNode(node)
      invariant copied == null ==> CopiedNode(node) == null
      decreases if copied == null then {} else copied.line
    {
      copied := copied.parent;
    }
  }

  /** Of two nodes on the way up one is above the other. */
  lemma {:induction false} OneAbove(node: DeltaNode, m: DeltaNode, n: DeltaNode)
    requires Grounded(node) && m in node.line && n in node.line
    ensures m.line <= node.line && n.line <= node.line
    ensures m == n || m.line < n.line || n.line < m.line
    ensures m.line < node.line <==> m != node
    decreases node.line
  {
    if node.parent != null {
      var p := node.parent;
      OneAbove(p, if m == node then p else m, if n == node then p else n);
    }
  }

  /** No node on the way to the copied one was itself copied. */
  lemma {:induction false} NearestCopied(node: DeltaNode)
    requires Grounded(node)
    ensures var r := CopiedNode(node);
            && (r == null <==> forall n :: n in node.line ==> n.copyfromPath == None)
            && (r != null ==> forall n :: n in node.line && r.line < n.line ==> n.copyfromPath == None)
    decreases node.line
  {
    OneAbove(node, node, node);
    if node.copyfromPath.Some? {
      forall n | n in node.line && node.line < n.line
        ensures false
      {
        OneAbove(node, n, node);
      }
    } else if node.parent != null {
      NearestCopied(node.parent);
    }
  }

  /** That makes it the only one. */
  lemma NearestIs(node: DeltaNode, n: DeltaNode)
    requires Grounded(node) && n in node.line && n.copyfromPath.Some?
    requires forall m :: m in node.line && n.line < m.line ==> m.copyfromPath == None
    ensures CopiedNode(node) == n
  {
    NearestCopied(node);
    OneAbove(node, CopiedNode(node), n);
  }

  // ---------- the level-by-level check ----------

  /** `t` ends a directory level of `s`, from the second one on. */
  ghost predicate Level(s: cstring, t: nat) {
    t <= |s| && (t == |s| || s[t] == SLASH) && HasSlash(s, 0, t)
  }

  ghost predicate HasSlash(s: cstring, from: nat, to: nat) {
    exists j :: from <= j < to <= |s| && s[j] == SLASH
  }

  /** In a tree closed under parents, all levels exist exactly when the whole path does. */
  lemma LevelsExact(s: cstring, live: set<cstring>)
    requires ParentClosed(live) && HasSlash(s, 0, |s|)
    ensures (forall t :: Level(s, t) ==> Prefix(s, t) in live) <==> s in live
  {
    assert Level(s, |s|) && Prefix(s, |s|) == s;
    if s in live {
      assert AncestorsIn(live, s);
      forall t: nat | Level(s, t)
        ensures Prefix(s, t) in live
      {
        if t < |s| {
          assert 0 < t && s[t] == SLASH;
        }
      }
    }
  }

  /** The next slash of the C string in `a`, or its end. */
  method NextSlash(a: array<byte>, from: nat, ghost end: nat) returns (i: nat)
    requires from <= end < a.Length && a[end] == 0 && forall j :: from <= j < end ==> a[j] != 0
    ensures from <= i <= end && (i == end || a[i] == SLASH)
    ensures forall j :: from <= j < i ==> a[j] != SLASH
  {
    i := from;
    while a[i] != 0 && a[i] != SLASH
      invariant from <= i <= end && forall j :: from <= j < i ==> a[j] != SLASH
      decreases end - i
    {
      i := i + 1;
    }
  }

  /** The C string in `a` that ends at the next NUL. */
  method StringIn(a: array<byte>, from: nat, ghost end: nat) returns (s: cstring)
    requires from <= end < a.Length && a[end] == 0 && forall j :: from <= j < end ==> a[j] != 0
    ensures s == a[from..end]
  {
    var i: nat := from;
    while a[i] != 0
      invariant from <= i <= end
      decreases end - i
    {
      i := i + 1;
    }
    s := a[from..i];
  }

  /** What a look-up in the repository writes to. */
  lemma CacheInRepr(repo: PathRepo)
    requires repo.Valid()
    ensures repo.CacheRepr() <= repo.TreeRepr && repo !in repo.TreeRepr
  {
  }

  /** Cuts the buffer at two places, looks the level between them up, and mends the buffer. */
  method CheckLevel(repo: PathRepo, checkPath: array<byte>, p: nat, q: nat, ghost s: cstring, revision: int)
    returns (check: int)
    requires repo.Valid() && repo.Settled() && checkPath !in repo.TreeRepr
    requires revision <= repo.last && (revision >= 0 ==> Reconstructible(repo.history, revision))
    requires IsBuffer(checkPath, s) && p < q <= |s| && s[p] == SLASH && checkPath[q] in {0, SLASH}
    modifies checkPath, repo`cacheRevs, repo`cacheIndex, repo`marks, repo`TreeRepr, repo.CacheRepr()
    ensures repo.Valid() && repo.Settled() && fresh(repo.TreeRepr - old(repo.TreeRepr)) && checkPath !in repo.TreeRepr
    ensures repo.history == old(repo.history) && repo.last == old(repo.last)
    ensures check == 1 <==> revision >= 0 && Prefix(s, q) in Live(repo.history, revision)
    ensures check == 1 ==> IsBuffer(checkPath, s)
  {
    hide PathRepo.Valid, PathRepo.Settled, PathRepo.CacheRepr, Live, Reconstructible;
    CacheInRepr(repo);
    checkPath[p] := 0;
    var end := checkPath.Length - 1;
    checkPath[q] := 0;
    var dir := StringIn(checkPath, 0, p);
    var name := StringIn(checkPath, p + 1, q);
    JoinedAt(s, p, q, dir, name);
    check := repo.CheckParent(dir, name, revision);
    if check == 1 {
      checkPath[p] := SLASH;
      if q < end {
        checkPath[q] := SLASH;
      }
    }
  }

  /** The buffer holds the string with its terminator. */
  ghost predicate IsBuffer(a: array<byte>, s: cstring)
    reads a
  {
    a.Length == |s| + 1 && a[|s|] == 0 && forall i :: 0 <= i < |s| ==> a[i] == s[i]
  }

  lemma JoinedAt(s: cstring, p: nat, q: nat, dir: cstring, name: cstring)
    requires p < q <= |s| && s[p] == SLASH && dir == s[..p] && name == s[p + 1..q]
    ensures dir + [SLASH] + name == Prefix(s, q)
  {
  }

  /** All levels of `s` that end before the first slash at or after `base` exist. */
  ghost predicate CheckedBefore(s: cstring, base: nat, live: set<cstring>) {
    forall t: nat :: Level(s, t) && !HasSlash(s, base, t) ==> Prefix(s, t) in live
  }

  lemma AllChecked(s: cstring, base: nat, live: set<cstring>)
    requires CheckedBefore(s, base, live) && !HasSlash(s, base, |s|) && HasSlash(s, 0, |s|)
    ensures base > 0 && forall t: nat :: Level(s, t) ==> Prefix(s, t) in live
  {
    forall t: nat | Level(s, t)
      ensures !HasSlash(s, base, t)
    {
    }
  }

  /** The level between two neighbouring slashes was looked up. */
  lemma OneMoreChecked(s: cstring, base: nat, p: nat, q: nat, live: set<cstring>)
    requires CheckedBefore(s, base, live) && base <= p < q <= |s| && s[p] == SLASH && Prefix(s, q) in live
    requires forall j :: base <= j < q && j != p ==> s[j] != SLASH
    requires q == |s| || s[q] == SLASH
    ensures CheckedBefore(s, p + 1, live)
  {
    assert q < |s| ==> s[q] == SLASH;
    forall t: nat | Level(s, t) && !HasSlash(s, p + 1, t)
      ensures Prefix(s, t) in live
    {
      if t <= p {
        assert !HasSlash(s, base, t);
      }
    }
  }

  /** Walks through the levels of a path in place; stops at the first that does not exist. */
  method CheckLevels(repo: PathRepo, checkPath: array<byte>, ghost s: cstring, revision: int) returns (copied: bool)
    requires repo.Valid() && repo.Settled() && checkPath !in repo.TreeRepr && IsBuffer(checkPath, s)
    requires revision <= repo.last && (revision >= 0 ==> Reconstructible(repo.history, revision))
    requires HasSlash(s, 0, |s|)
    modifies checkPath, repo`cacheRevs, repo`cacheIndex, repo`marks, repo`TreeRepr, repo.TreeRepr
    ensures repo.Valid() && repo.Settled() && fresh(repo.TreeRepr - old(repo.TreeRepr))
    ensures repo.history == old(repo.history)
    ensures copied <==> revision >= 0 &&
                        forall t: nat :: Level(s, t) ==> Prefix(s, t) in Live(repo.history, revision)
  {
    hide PathRepo.Valid, PathRepo.Settled, PathRepo.CacheRepr, Live, Reconstructible;
    ghost var live := Live(repo.history, revision);
    CacheInRepr(repo);
    var base: nat := 0;
    while true
      invariant repo.Valid() && repo.Settled() && fresh(repo.TreeRepr - old(repo.TreeRepr))
      invariant repo.history == old(repo.history) && repo.last == old(repo.last)
      invariant checkPath !in repo.TreeRepr && IsBuffer(checkPath, s) && base <= |s|
      invariant CheckedBefore(s, base, live) && (base > 0 ==> revision >= 0)
      decreases |s| - base
    {
      var p := NextSlash(checkPath, base, |s|);
      if checkPath[p] == 0 {
        AllChecked(s, base, live);
        return true;
      }
      CacheInRepr(repo);
      ghost var start := base;
      base := p + 1;
      var q := NextSlash(checkPath, base, |s|);
      var check := CheckLevel(repo, checkPath, p, q, s, revision);
      if check != 1 {
        assert HasSlash(s, 0, q) by { assert s[p] == SLASH; }
        assert Level(s, q);
        return false;
      }
      OneMoreChecked(s, start, p, q, live);
    }
  }

  // ---------- propagation ----------

  /** The place a path below a copied node has below the copy source. */
  ghost function SourcePath(x: Session, copied: DeltaNode, path: cstring): cstring
    requires copied.path <= path && copied.copyfromPath.Some? && x.prefix <= copied.copyfromPath.value
    reads copied
  {
    Joined(LocalPath(x, copied.copyfromPath.value), Below(path, |copied.path|))
  }

  /** The rest of a path, without leading slashes. */
  function Below(path: cstring, n: nat): cstring
    requires n <= |path|
  {
    var r := SkipSlashes(path[n..]);
    assert forall i :: 0 <= i < |r| ==> r[i] == path[|path| - |r| + i];
    r
  }

  function Joined(dir: cstring, name: cstring): cstring {
    dir + [SLASH] + name
  }

  /** What a path is marked as below a node that was copied: a copy if and only if the copied tree
      has something at the same place. */
  ghost function CopiedAlong(x: Session, h: History, copied: DeltaNode, path: cstring): CpInfo
    requires copied.path <= path && copied.copyfromPath.Some?
    reads copied
  {
    if !(x.prefix <= copied.copyfromPath.value) then CpiNone
    else
      var rev := LocalRev(x, copied.copyfromRevision);
      if rev >= 0 && SourcePath(x, copied, path) in Live(h, rev) then CpiCopy else CpiNone
  }

  /** What a child is marked as below a parent. */
  ghost function Propagated(x: Session, h: History, parent: DeltaNode, child: DeltaNode): CpInfo
    requires Grounded(parent) && RootNotCopied(parent)
    reads parent.line, child`cpInfo
  {
    if parent.cpInfo != CpiCopy then parent.cpInfo
    else if !(parent.path <= child.path) then child.cpInfo
    else
      var copied := CopiedNode(parent);
      if copied == null then CpiCopy else CopiedAlong(x, h, copied, child.path)
  }

  /** What a child of a copied parent is marked as, path by path. Below the nearest node that was copied
      itself, from `src` inside the prefix, a child at `rel` is a copy if and only if the source
      revision has `src`, a slash and `rel`. */
  lemma PropagatedExact(x: Session, h: History, parent: DeltaNode, child: DeltaNode, n: DeltaNode,
                        gap: seq<byte>, src: cstring, between: seq<byte>, rel: cstring)
    requires Grounded(parent) && RootNotCopied(parent) && parent.cpInfo == CpiCopy && parent.path <= child.path
    requires n in parent.line && forall m :: m in parent.line && n.line < m.line ==> m.copyfromPath == None
    requires n.copyfromPath.Some? && n.copyfromPath.value == x.prefix + gap + src
    requires (forall i :: 0 <= i < |gap| ==> gap[i] == 47) && (src == [] || src[0] != 47)
    requires child.path == n.path + between + rel
    requires (forall i :: 0 <= i < |between| ==> between[i] == 47) && (rel == [] || rel[0] != 47)
    ensures var rev := LocalRev(x, n.copyfromRevision);
            Propagated(x, h, parent, child) ==
            if rev >= 0 && src + [47] + rel in Live(h, rev) then CpiCopy else CpiNone
  {
    hide Live, LocalRev, LocalPath, Below, SkipSlashes;
    NearestIs(parent, n);
    CopySourceExact(x, CopySource(n.copyfromPath.value, n.copyfromRevision), gap, src);
    BelowExact(child.path, n.path, between, rel);
  }

  lemma BelowExact(path: cstring, above: cstring, between: seq<byte>, rel: cstring)
    requires path == above + between + rel
    requires (forall i :: 0 <= i < |between| ==> between[i] == 47) && (rel == [] || rel[0] != 47)
    ensures above <= path && Below(path, |above|) == rel
  {
    assert path[|above|..] == between + rel;
    SlashesSkipped(between, rel);
  }

  /** Otherwise a child is marked as its parent is, stays as it is if it does not lie below it, and is no
      copy if the source of the copy lies outside the prefix. */
  lemma PropagatedOtherwise(x: Session, h: History, parent: DeltaNode, child: DeltaNode)
    requires Grounded(parent) && RootNotCopied(parent)
    ensures parent.cpInfo != CpiCopy ==> Propagated(x, h, parent, child) == parent.cpInfo
    ensures parent.cpInfo == CpiCopy && !(parent.path <= child.path) ==>
              Propagated(x, h, parent, child) == child.cpInfo
    ensures parent.cpInfo == CpiCopy && (forall n :: n in parent.line ==> n.copyfromPath == None) ==>
              Propagated(x, h, parent, child) == if parent.path <= child.path then CpiCopy else child.cpInfo
    ensures parent.cpInfo == CpiCopy && parent.path <= child.path ==>
              forall n :: n in parent.line && n.copyfromPath.Some? && !(x.prefix <= n.copyfromPath.value) ==>
                (forall m :: m in parent.line && n.line < m.line ==> m.copyfromPath == None) ==>
                  Propagated(x, h, parent, child) == CpiNone
  {
    NearestCopied(parent);
    forall n | n in parent.line && n.copyfromPath.Some?
               && (forall m :: m in parent.line && n.line < m.line ==> m.copyfromPath == None)
      ensures CopiedNode(parent) == n
    {
      NearestIs(parent, n);
    }
  }

  /** The copy source can be looked up: its revision is committed and reconstructible, and its
      tree is closed under parents. */
  ghost predicate SourceKnown(x: Session, h: History, last: int, copied: DeltaNode)
    requires copied.copyfromPath.Some?
    reads copied
  {
    x.prefix <= copied.copyfromPath.value ==>
      var rev := LocalRev(x, copied.copyfromRevision);
      rev <= last && (rev >= 0 ==> Reconstructible(h, rev) && ParentClosed(Live(h, rev)))
  }

  /** Marks a child as its parent is marked; below a copy, as copied if the source has it in the same
      place, and as not copied otherwise. */
  method PropagateCopy(repo: PathRepo, x: Session, parent: DeltaNode, child: DeltaNode)
    requires repo.Valid() && repo.Settled() && child !in repo.TreeRepr
    requires Grounded(parent) && RootNotCopied(parent) && child !in parent.line && parent.line !! repo.TreeRepr
    requires CopiedNode(parent) != null ==> SourceKnown(x, repo.history, repo.last, CopiedNode(parent))
    modifies child`cpInfo, repo`cacheRevs, repo`cacheIndex, repo`marks, repo`TreeRepr, repo.TreeRepr
    ensures repo.Valid() && repo.Settled() && fresh(repo.TreeRepr - old(repo.TreeRepr))
    ensures child.cpInfo == old(Propagated(x, repo.history, parent, child))
  {
    hide PathRepo.Valid, PathRepo.Settled, SourceKnown, CopiedAlong;
    if parent.cpInfo != CpiCopy {
      child.cpInfo := parent.cpInfo;
      return;
    }
    if !(parent.path <= child.path) {
      return;
    }
    var copied := FindCopied(parent);
    if copied == null {
      child.cpInfo := parent.cpInfo;
      return;
    }
    CompareWithSource(repo, x, copied, child);
  }

  /** Marks a child below a copied node by looking up, level by level, its place in the source. */
  method CompareWithSource(repo: PathRepo, x: Session, copied: DeltaNode, child: DeltaNode)
    requires repo.Valid() && repo.Settled() && {copied, child} !! repo.TreeRepr && copied != child
    requires copied.path <= child.path && copied.copyfromPath.Some?
    requires SourceKnown(x, repo.history, repo.last, copied)
    modifies child`cpInfo, repo`cacheRevs, repo`cacheIndex, repo`marks, repo`TreeRepr, repo.TreeRepr
    ensures repo.Valid() && repo.Settled() && fresh(repo.TreeRepr - old(repo.TreeRepr))
    ensures child.cpInfo == old(CopiedAlong(x, repo.history, copied, child.path))
  {
    hide PathRepo.Valid, PathRepo.Settled, Live, Reconstructible, ParentClosed, LocalPath, Below, Joined;
    hide HasSlash, IsBuffer, SkipSlashes, GreatestNotAfter, Level;
    LocalIsString(x, copied.copyfromPath.value);
    var path := LocalCopyfromPath(x.prefix, copied.copyfromPath.value);
    if path == None {
      child.cpInfo := CpiNone;
      return;
    }
    var revision := LocalCopyfromRev(copied.copyfromRevision, x.keepRevnums, x.logs);
    ghost var s := SourcePath(x, copied, child.path);
    var checkPath := Buffer(path.value, Below(child.path, |copied.path|));
    ghost var live := Live(repo.history, revision);
    var ok := CheckLevels(repo, checkPath, s, revision);
    if revision >= 0 {
      LevelsExact(s, live);
    }
    child.cpInfo := if ok then CpiCopy else CpiNone;
  }

  /** Formats "dir/name" into a fresh buffer. */
  method Buffer(dir: cstring, name: cstring) returns (a: array<byte>)
    ensures fresh(a) && IsBuffer(a, Joined(dir, name)) && HasSlash(Joined(dir, name), 0, |Joined(dir, name)|)
  {
    var s := Joined(dir, name);
    assert s[|dir|] == SLASH;
    a := new byte[|s| + 1];
    forall i | 0 <= i < |s| {
      a[i] := s[i];
    }
    a[|s|] := 0;
  }

  /** Nodes as the editor makes them, relative paths below the root "/", meet what propagation needs. */
  method EditorNodes(dir: cstring, name: cstring, source: cstring, revision: int)
    returns (parent: DeltaNode, child: DeltaNode)
    ensures fresh(parent) && fresh(child) && child.parent == parent && parent.parent != null
    ensures parent.parent.path == [47] && parent.path == dir && child.path == dir + [47] + name
    ensures Grounded(parent) && RootNotCopied(parent) && child !in parent.line && fresh(parent.line)
    ensures CopiedNode(parent) == parent && parent.copyfromPath == Some(source) && parent.copyfromRevision == revision
  {
    var root := new DeltaNode.Root([SLASH]);
    parent := new DeltaNode.Child(dir, root);
    parent.copyfromPath, parent.copyfromRevision := Some(source), revision;
    child := new DeltaNode.Child(Joined(dir, name), parent);
  }

  /** Copying from the root: the place looked up starts with a slash, so nothing below such a copy
      is marked, and that is wrong for exactly the paths that the copied tree has. */
  lemma RootSourceCondition(live: set<cstring>, dir: cstring, name: cstring)
    requires forall s :: s in live ==> s != [] && s[0] != 47
    ensures Joined(dir, name) == dir + [47] + name
    ensures (Joined(dir, name) in live <==> (if dir == [] then name else Joined(dir, name)) in live)
            <==> dir != [] || name !in live
  {
    if dir == [] {
      assert Joined(dir, name)[0] == SLASH;
    }
  }
}
