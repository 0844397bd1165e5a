/** Histories of path sets: the plain map from revisions to sets, the records stored for them,
    and when replaying the records gives the set back. */
module PathDelta {
  import opened Bytes
  import opened CritBit
  import opened CritBitBits

  const SNAPSHOT_INTERVAL: int := 1024

  // ---------- edits ----------

  lemma {:induction false} AppliedConcat(ss: set<cstring>, a: seq<Edit>, b: seq<Edit>)
    ensures Applied(ss, a + b) == Applied(Applied(ss, a), b)
    decreases |b|
  {
    if b == [] {
      assert a + b == a;
    } else {
      assert (a + b)[..|a + b| - 1] == a + b[..|b| - 1];
      AppliedConcat(ss, a, b[..|b| - 1]);
    }
  }

  ghost function PathsOf(edits: seq<Edit>): set<cstring> {
    set e | e in edits :: e.path
  }

  /** The final state of a path is decided by the last edit that mentions it. */
  lemma {:induction false} AppliedSplits(ss: set<cstring>, edits: seq<Edit>, p: cstring)
    ensures p in Applied(ss, edits) <==> p in Applied({}, edits) || (p in ss && p !in PathsOf(edits))
    decreases |edits|
  {
    if edits != [] {
      var front, last := edits[..|edits| - 1], edits[|edits| - 1];
      AppliedSplits(ss, front, p);
      assert edits == front + [last];
      assert forall e :: e in edits <==> e in front || e == last;
      assert PathsOf(edits) == PathsOf(front) + {last.path};
    }
  }

  /** Adding a list of paths. */
  function Adds(paths: seq<cstring>): (edits: seq<Edit>)
    ensures |edits| == |paths| && forall i :: 0 <= i < |paths| ==> edits[i] == Add(paths[i])
  {
    seq(|paths|, i requires 0 <= i < |paths| => Add(paths[i]))
  }

  lemma {:induction false} AppliedAdds(ss: set<cstring>, paths: seq<cstring>)
    ensures Applied(ss, Adds(paths)) == ss + (set p | p in paths)
    decreases |paths|
  {
    if paths != [] {
      var front, last := paths[..|paths| - 1], paths[|paths| - 1];
      AppliedAdds(ss, front);
      assert Adds(paths)[..|paths| - 1] == Adds(front);
      assert forall p :: p in paths <==> p in front || p == last;
    }
  }

  // ---------- histories ----------

  /** A committed revision: its edits, and the edits in its stored record if there is one. */
  datatype Commit = Commit(edits: seq<Edit>, record: Option<seq<Edit>>)

  type History = map<int, Commit>

  function EditsAt(h: History, r: int): seq<Edit> {
    if r in h then h[r].edits else []
  }

  function RecordAt(h: History, r: int): seq<Edit> {
    if r in h && h[r].record.Some? then h[r].record.value else []
  }

  /** The live path set as of revision `r`. */
  ghost function Live(h: History, r: int): set<cstring>
    decreases r + 1
  {
    if r < 0 then {} else Applied(Live(h, r - 1), EditsAt(h, r))
  }

  /** Replaying the stored records of the revisions `lo` to `hi` onto the empty set. */
  ghost function Recon(h: History, lo: int, hi: int): set<cstring>
    decreases hi - lo + 1
  {
    if hi < lo then {} else Applied(Recon(h, lo, hi - 1), RecordAt(h, hi))
  }

  predicate IsSnapshot(r: int) {
    r > 0 && r % SNAPSHOT_INTERVAL == 0
  }

  /** Where reconstruction starts: `r` with its low ten bits cleared. */
  function Base(r: int): int {
    r - r % SNAPSHOT_INTERVAL
  }

  lemma BaseBelow(r: int)
    ensures Base(r) % SNAPSHOT_INTERVAL == 0 && Base(r) <= r < Base(r) + SNAPSHOT_INTERVAL
    ensures r >= 0 ==> Base(r) >= 0
  {
    var q := r / SNAPSHOT_INTERVAL;
    assert Base(r) == q * SNAPSHOT_INTERVAL;
  }

  /** Blocks have 1024 revisions, and every one but the first starts with a snapshot. */
  lemma BlocksExact(r: int)
    ensures IsSnapshot(r) <==> r > 0 && r % 1024 == 0
    ensures Base(r) == 1024 * (r / 1024)
  {
  }

  /** A snapshot record rebuilds the whole set; any other record holds the edits, and there is
      none if there are no edits. */
  ghost predicate GoodCommit(h: History, r: int)
    requires r in h
  {
    && r >= 0
    && if IsSnapshot(r) then h[r].record.Some? && Applied({}, h[r].record.value) == Live(h, r)
       else h[r].record == if h[r].edits == [] then None else Some(h[r].edits)
  }

  ghost predicate Consistent(h: History) {
    forall r :: r in h ==> GoodCommit(h, r)
  }

  // ---------- reconstruction ----------

  /** The edits of the revisions `lo` to `hi`, applied to a set. */
  ghost function Replay(ss: set<cstring>, h: History, lo: int, hi: int): set<cstring>
    decreases hi - lo + 1
  {
    if hi < lo then ss else Applied(Replay(ss, h, lo, hi - 1), EditsAt(h, hi))
  }

  /** The paths that some revision from `lo` to `hi` mentions. */
  ghost function Mentioned(h: History, lo: int, hi: int): set<cstring>
    decreases hi - lo + 1
  {
    if hi < lo then {} else Mentioned(h, lo, hi - 1) + PathsOf(EditsAt(h, hi))
  }

  lemma {:induction false} LiveReplays(h: History, b: int, r: int)
    requires -1 <= b <= r
    ensures Live(h, r) == Replay(Live(h, b), h, b + 1, r)
    decreases r - b
  {
    if b < r {
      LiveReplays(h, b, r - 1);
    }
  }

  /** After its first revision a block is replayed edit by edit. */
  lemma {:induction false} ReconReplays(h: History, b: int, r: int)
    requires Consistent(h) && b % SNAPSHOT_INTERVAL == 0 && b <= r < b + SNAPSHOT_INTERVAL
    ensures Recon(h, b, r) == Replay(Recon(h, b, b), h, b + 1, r)
    decreases r - b
  {
    if b < r {
      ReconReplays(h, b, r - 1);
      NotSnapshot(b, r);
      assert r in h ==> GoodCommit(h, r);
    }
  }

  lemma NotSnapshot(b: int, r: int)
    requires b % SNAPSHOT_INTERVAL == 0 && b < r < b + SNAPSHOT_INTERVAL
    ensures !IsSnapshot(r)
  {
  }

  lemma {:induction false} ReplaySplits(ss: set<cstring>, h: History, lo: int, hi: int, p: cstring)
    ensures p in Replay(ss, h, lo, hi) <==> p in Replay({}, h, lo, hi) || (p in ss && p !in Mentioned(h, lo, hi))
    decreases hi - lo + 1
  {
    if lo <= hi {
      ReplaySplits(ss, h, lo, hi - 1, p);
      AppliedSplits(Replay(ss, h, lo, hi - 1), EditsAt(h, hi), p);
      AppliedSplits(Replay({}, h, lo, hi - 1), EditsAt(h, hi), p);
    }
  }

  lemma {:induction false} ReplayMentions(h: History, lo: int, hi: int)
    ensures Replay({}, h, lo, hi) <= Mentioned(h, lo, hi)
    decreases hi - lo + 1
  {
    if lo <= hi {
      ReplayMentions(h, lo, hi - 1);
      forall p | p in Replay({}, h, lo, hi)
        ensures p in Mentioned(h, lo, hi)
      {
        AppliedMentions(Replay({}, h, lo, hi - 1), EditsAt(h, hi), p);
      }
    }
  }

  lemma {:induction false} AppliedMentions(ss: set<cstring>, edits: seq<Edit>, p: cstring)
    requires p in Applied(ss, edits)
    ensures p in ss || p in PathsOf(edits)
    decreases |edits|
  {
    if edits != [] {
      var front, last := edits[..|edits| - 1], edits[|edits| - 1];
      assert last in edits && forall e :: e in front ==> e in edits;
      if p in Applied(ss, front) {
        AppliedMentions(ss, front, p);
      }
    }
  }

  /** When reconstruction can be trusted: its block starts at revision 0, or with a committed
      snapshot, or no path that was live before the block goes unmentioned in it. */
  ghost predicate Reconstructible(h: History, r: int) {
    Base(r) == 0 || Base(r) in h || Live(h, Base(r)) <= Mentioned(h, Base(r) + 1, r)
  }

  /** Reconstruction gives the live set exactly when it can be trusted. */
  lemma ReconstructionExact(h: History, r: int)
    requires Consistent(h) && r >= 0
    ensures Recon(h, Base(r), r) == Live(h, r) <==> Reconstructible(h, r)
  {
    hide Live, Recon, Replay, Mentioned, Consistent;
    var b := Base(r);
    BaseBelow(r);
    LiveReplays(h, b, r);
    ReconReplays(h, b, r);
    ReconStart(h, b);
    ReplayFromEmpty(Live(h, b), h, b + 1, r);
  }

  /** Starting from nothing gives the same result exactly when all that was there is mentioned. */
  lemma ReplayFromEmpty(ss: set<cstring>, h: History, lo: int, hi: int)
    ensures Replay({}, h, lo, hi) == Replay(ss, h, lo, hi) <==> ss <= Mentioned(h, lo, hi)
  {
    ReplayMentions(h, lo, hi);
    var x, y, m := Replay({}, h, lo, hi), Replay(ss, h, lo, hi), Mentioned(h, lo, hi);
    forall p
      ensures p in y <==> p in x || (p in ss && p !in m)
    {
      ReplaySplits(ss, h, lo, hi, p);
    }
    assert x <= m;
    if ss <= m {
      assert x == y;
    } else {
      var p :| p in ss && p !in m;
      assert p in y && p !in x;
    }
  }

  lemma ReconStart(h: History, b: int)
    requires Consistent(h) && b >= 0 && b % SNAPSHOT_INTERVAL == 0
    ensures Recon(h, b, b) == if b == 0 || b in h then Live(h, b) else {}
  {
    assert Recon(h, b, b - 1) == {};
    if b == 0 {
      assert Live(h, -1) == {};
      assert b in h ==> GoodCommit(h, b);
    } else if b in h {
      assert GoodCommit(h, b);
    }
  }

  /** The failing case: revision 1 adds "a", revision 1024 is never committed, revision 1025 adds
      "b"; reconstructing revision 1025 loses "a". */
  lemma SkippedSnapshotLosesPaths()
    ensures var h: History := map[1 := Commit([Add([97])], Some([Add([97])])),
                                  1025 := Commit([Add([98])], Some([Add([98])]))];
            Consistent(h) && [97] in Live(h, 1025) && [97] !in Recon(h, Base(1025), 1025)
  {
    var h: History := map[1 := Commit([Add([97])], Some([Add([97])])), 1025 := Commit([Add([98])], Some([Add([98])]))];
    assert Consistent(h);
    EmptyReplay(h, 2, 1024, Live(h, 1));
    LiveReplays(h, 1, 1024);
    assert Live(h, 0) == {} by { assert Live(h, -1) == {}; }
    assert [97] in Live(h, 1);
    assert [97] in Live(h, 1024);
    var a: cstring, b: cstring := [97], [98];
    assert a[0] != b[0];
    assert Mentioned(h, 1025, 1024) == {};
    assert Mentioned(h, 1025, 1025) == {b};
    assert Base(1025) == 1024;
    ReconReplays(h, 1024, 1025);
    ReconStart(h, 1024);
    AppliedSplits({}, [Add(b)], a);
    assert [Add(b)][..0] == [];
    assert Recon(h, 1024, 1025) == {b};
    AppliedSplits(Live(h, 1024), [Add(b)], a);
    assert PathsOf([Add(b)]) == {b};
  }

  lemma {:induction false} EmptyReplay(h: History, lo: int, hi: int, ss: set<cstring>)
    requires forall r :: lo <= r <= hi ==> r !in h
    ensures Replay(ss, h, lo, hi) == ss
    decreases hi - lo + 1
  {
    if lo <= hi {
      EmptyReplay(h, lo, hi - 1, ss);
    }
  }

  // ---------- later commits ----------

  /** The history as it was when `m` was the last committed revision. */
  ghost function Until(h: History, m: int): History {
    map r | r in h && r <= m :: h[r]
  }

  /** What is reconstructed for a revision does not depend on later commits. */
  lemma {:induction false} ReconStable(h: History, m: int, lo: int, hi: int)
    requires hi <= m
    ensures Recon(Until(h, m), lo, hi) == Recon(h, lo, hi)
    decreases hi - lo + 1
  {
    if lo <= hi {
      ReconStable(h, m, lo, hi - 1);
    }
  }

  lemma {:induction false} LiveStable(h: History, h': History, r: int)
    requires forall k :: k <= r ==> (k in h <==> k in h') && (k in h ==> h[k] == h'[k])
    ensures Live(h, r) == Live(h', r)
    decreases r + 1
  {
    if r >= 0 {
      LiveStable(h, h', r - 1);
    }
  }

  /** Revisions below zero hold nothing. */
  lemma {:induction false} NothingBelowZero(h: History, lo: int, hi: int)
    requires Consistent(h) && hi < 0
    ensures Recon(h, lo, hi) == {}
    decreases hi - lo + 1
  {
    if lo <= hi {
      NothingBelowZero(h, lo, hi - 1);
      assert hi in h ==> GoodCommit(h, hi);
    }
  }

  /** Committing a revision after the last one keeps the history consistent. */
  lemma CommitKeepsConsistent(h: History, last: int, r: int, c: Commit)
    requires Consistent(h) && (forall k :: k in h ==> k <= last) && r > last >= -1
    requires if IsSnapshot(r) then c.record.Some? && Applied({}, c.record.value) == Applied(Live(h, last), c.edits)
             else c.record == if c.edits == [] then None else Some(c.edits)
    ensures Consistent(h[r := c]) && Live(h[r := c], r) == Applied(Live(h, last), c.edits)
  {
    var h' := h[r := c];
    LiveStable(h, h', r - 1);
    LiveUnchanged(h, last, r - 1);
    forall k | k in h'
      ensures GoodCommit(h', k)
    {
      if k != r {
        assert GoodCommit(h, k);
        LiveStable(h, h', k);
      }
    }
  }

  /** Revisions that were not committed do not change the set. */
  lemma {:induction false} LiveUnchanged(h: History, last: int, r: int)
    requires (forall k :: k in h ==> k <= last) && -1 <= last <= r
    ensures Live(h, r) == Live(h, last)
    decreases r
  {
    if last < r {
      LiveUnchanged(h, last, r - 1);
    }
  }

  // ---------- trusting what was reconstructed early ----------

  /** A history that goes on after `m`. */
  ghost predicate Continues(h: History, m: int, h': History) {
    Consistent(h') && forall k :: k <= m ==> (k in h <==> k in h') && (k in h ==> h'[k] == h[k])
  }

  lemma {:induction false} LongerThanAll(ss: set<cstring>) returns (n: nat)
    ensures forall s :: s in ss ==> |s| < n
    decreases |ss|
  {
    if ss == {} {
      n := 0;
    } else {
      var s :| s in ss;
      n := LongerThanAll(ss - {s});
      n := if n > |s| then n else |s| + 1;
    }
  }

  lemma NewPath(ss: set<cstring>) returns (p: cstring)
    ensures p !in ss
  {
    var n := LongerThanAll(ss);
    p := seq(n, _ => 97);
  }

  lemma {:induction false} ListOf(ss: set<cstring>) returns (paths: seq<cstring>)
    ensures forall s :: s in paths <==> s in ss
    decreases |ss|
  {
    if ss == {} {
      paths := [];
    } else {
      var s :| s in ss;
      paths := ListOf(ss - {s});
      paths := paths + [s];
    }
  }

  /** A commit of one more path under any later revision. */
  lemma CommitOnePath(h: History, m: int, r: int, p: cstring) returns (h': History)
    requires Consistent(h) && (forall k :: k in h ==> k <= m) && r > m >= -1
    ensures Continues(h, m, h') && p in Recon(h', Base(r), r)
  {
    var edits := [Add(p)];
    assert edits[..0] == [];
    var now := Applied(Live(h, m), edits);
    var record := edits;
    if IsSnapshot(r) {
      var paths := ListOf(now);
      record := Adds(paths);
      AppliedAdds({}, paths);
      assert (set s | s in paths) == now;
    }
    h' := h[r := Commit(edits, Some(record))];
    CommitKeepsConsistent(h, m, r, h'[r]);
    BaseBelow(r);
    AddedLast(h', r, p);
  }

  lemma AddedLast(h: History, r: int, p: cstring)
    requires r in h && h[r].record.Some? && Base(r) <= r
    requires h[r].record.value == [Add(p)] || (Base(r) == r && p in Applied({}, h[r].record.value))
    ensures p in Recon(h, Base(r), r)
  {
    if Base(r) == r {
      assert Recon(h, r, r - 1) == {};
    }
    assert [Add(p)][..0] == [];
  }

  /** What is reconstructed for a revision is the same in every consistent continuation of the history
      if and only if the revision is not after the last one committed. */
  lemma TrustedWhenCommitted(h: History, m: int, r: int)
    requires Consistent(h) && (forall k :: k in h ==> k <= m) && m >= -1 && r >= 0
    ensures (forall h' :: Continues(h, m, h') ==> Recon(h, Base(r), r) == Recon(h', Base(r), r)) <==> r <= m
  {
    hide Recon, Base, Consistent;
    if r <= m {
      forall h' | Continues(h, m, h')
        ensures Recon(h, Base(r), r) == Recon(h', Base(r), r)
      {
        assert Until(h', m) == Until(h, m);
        ReconStable(h', m, Base(r), r);
        ReconStable(h, m, Base(r), r);
      }
    } else {
      var p := NewPath(Recon(h, Base(r), r));
      var h' := CommitOnePath(h, m, r, p);
    }
  }
}
