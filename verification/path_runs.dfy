/** Whole runs of the path repository against the plain map from revisions to sets of paths. */
module PathRuns {
  import opened Bytes
  import opened CritBitBits
  import opened PathDelta
  import opened PathEncoding
  import opened PathRepository

  datatype Op =
    | AddPath(path: cstring)
    | DeletePath(path: cstring)
    | CommitRevision(revision: int)
    | Discard
    | LookUp(path: cstring, revision: int)

  datatype Saved = Saved(revision: int, paths: set<cstring>)

  /** The working set, the size of the edits since the last commit, and the committed sets. */
  datatype State = State(working: set<cstring>, pending: nat, commits: seq<Saved>)

  const EMPTY: State := State({}, 0, [])

  ghost function Last(commits: seq<Saved>): int {
    if commits == [] then -1 else commits[|commits| - 1].revision
  }

  ghost function Revisions(commits: seq<Saved>): set<int> {
    set c | c in commits :: c.revision
  }

  /** The set of paths as of a revision: that of the last commit not after it. */
  ghost function AsOf(commits: seq<Saved>, r: int): set<cstring> {
    if commits == [] then {}
    else if commits[|commits| - 1].revision <= r then commits[|commits| - 1].paths
    else AsOf(commits[..|commits| - 1], r)
  }

  /** What the callers must keep to: deletions pick the right paths, revisions are committed in order
      without passing over a snapshot, sizes fit 32 bits, and look-ups are of committed revisions. */
  ghost predicate Legal(st: State, op: Op) {
    match op
    case AddPath(_) => true
    case DeletePath(path) => PicksRight(st.working, path)
    case CommitRevision(revision) =>
      && revision > Last(st.commits) && st.pending < TWO_31
      && (forall m :: Last(st.commits) < m < revision ==> !IsSnapshot(m))
      && (IsSnapshot(revision) ==> SizeOf(st.working) < TWO_31)
    case Discard => true
    case LookUp(_, revision) => revision <= Last(st.commits)
  }

  ghost function Next(st: State, op: Op): State {
    match op
    case AddPath(path) => st.(working := st.working + {path}, pending := st.pending + 2 + |path|)
    case DeletePath(path) =>
      st.(working := st.working - Subtree(st.working, path), pending := st.pending + SizeOf(Subtree(st.working, path)))
    case CommitRevision(revision) => st.(pending := 0, commits := st.commits + [Saved(revision, st.working)])
    case Discard => st.(working := AsOf(st.commits, Last(st.commits)), pending := 0)
    case LookUp(_, _) => st
  }

  /** Whether a looked-up path was there as of the revision. */
  ghost function Answer(st: State, op: Op): seq<bool> {
    if op.LookUp? then [op.revision >= 0 && op.path in AsOf(st.commits, op.revision)] else []
  }

  ghost function After(ops: seq<Op>): State {
    if ops == [] then EMPTY else Next(After(ops[..|ops| - 1]), ops[|ops| - 1])
  }

  ghost function Answers(ops: seq<Op>): seq<bool> {
    if ops == [] then [] else
      var before, op := ops[..|ops| - 1], ops[|ops| - 1];
      Answers(before) + Answer(After(before), op)
  }

  ghost predicate AllLegal(ops: seq<Op>) {
    forall i :: 0 <= i < |ops| ==> Legal(After(ops[..i]), ops[i])
  }

  /** Every block up to the last revision starts with 0 or with a committed snapshot. */
  ghost predicate NoBaseSkipped(h: History, last: int) {
    forall r :: 0 <= r <= last ==> Base(r) == 0 || Base(r) in h
  }

  ghost predicate SetsAgree(h: History, commits: seq<Saved>) {
    forall r :: r <= Last(commits) ==> Live(h, r) == AsOf(commits, r)
  }

  ghost predicate Represents(repo: PathRepo, st: State)
    reads repo, repo.db, repo.TreeRepr
  {
    && repo.Valid() && repo.Settled() && repo.tree.Contents() == st.working && repo.deltaLen == st.pending
    && repo.last == Last(st.commits) && repo.history.Keys == Revisions(st.commits)
    && NoBaseSkipped(repo.history, repo.last) && SetsAgree(repo.history, st.commits)
  }

  lemma BaseOfBase(r: int)
    requires r >= 0
    ensures Base(Base(r)) == Base(r) && 0 <= Base(r) <= r
    ensures Base(r) == 0 || IsSnapshot(Base(r))
  {
    BaseBelow(r);
    BaseBelow(Base(r));
  }

  /** A commit that passes over no snapshot leaves every block with its base. */
  lemma BasesKept(h: History, last: int, revision: int)
    requires NoBaseSkipped(h, last) && revision > last >= -1 && revision >= 0
    requires forall m :: last < m < revision ==> !IsSnapshot(m)
    ensures forall r :: 0 <= r <= revision ==> Base(r) == 0 || Base(r) in h || Base(r) == revision
  {
    forall r | 0 <= r <= revision
      ensures Base(r) == 0 || Base(r) in h || Base(r) == revision
    {
      BaseOfBase(r);
      var b := Base(r);
      if 0 < b <= last {
        assert Base(b) == b;
      }
    }
  }

  /** The committed sets after one more commit. */
  lemma SetsExtended(h: History, h': History, last: int, st: State, revision: int)
    requires SetsAgree(h, st.commits) && last == Last(st.commits) && revision > last >= -1 && revision >= 0
    requires (forall k :: k in h ==> k <= last) && revision in h' && h' == h[revision := h'[revision]]
    requires Live(h', revision) == st.working
    ensures SetsAgree(h', Next(st, CommitRevision(revision)).commits)
  {
    var st' := Next(st, CommitRevision(revision));
    assert st'.commits[..|st'.commits| - 1] == st.commits;
    forall r | r <= revision
      ensures Live(h', r) == AsOf(st'.commits, r)
    {
      if r < revision {
        LiveStable(h', h, r);
        assert AsOf(st'.commits, r) == AsOf(st.commits, r);
        if r > last {
          LiveUnchanged(h, last, r);
          AsOfLast(st.commits, r);
          assert Live(h, last) == AsOf(st.commits, last);
        }
      }
    }
  }

  lemma RevisionsSnoc(commits: seq<Saved>, c: Saved)
    ensures Revisions(commits + [c]) == Revisions(commits) + {c.revision}
  {
    assert forall x :: x in commits + [c] <==> x in commits || x == c;
    assert c in commits + [c];
  }

  /** Past the last commit nothing changes. */
  lemma AsOfLast(commits: seq<Saved>, r: int)
    requires r >= Last(commits)
    ensures AsOf(commits, r) == AsOf(commits, Last(commits))
  {
  }

  // ---------- the repository keeps up ----------

  method DoAdd(repo: PathRepo, path: cstring, ghost st: State)
    requires Represents(repo, st)
    modifies repo`delta, repo`deltaLen, repo`TreeRepr, repo.tree.Repr
    ensures Represents(repo, Next(st, AddPath(path))) && fresh(repo.TreeRepr - old(repo.TreeRepr))
  {
    hide NoBaseSkipped, SetsAgree, PathRepo.Valid;
    repo.Parts();
    var code := repo.Add(path);
  }

  method DoDelete(repo: PathRepo, path: cstring, ghost st: State)
    requires Represents(repo, st) && Legal(st, DeletePath(path))
    modifies repo`delta, repo`deltaLen, repo`TreeRepr, repo.tree.Repr
    ensures Represents(repo, Next(st, DeletePath(path))) && fresh(repo.TreeRepr - old(repo.TreeRepr))
  {
    hide NoBaseSkipped, SetsAgree, PathRepo.Valid, PicksRight, Picked, Subtree, SizeOf;
    repo.Parts();
    ghost var picked;
    picked := repo.Delete(path);
  }

  lemma NothingPending(repo: PathRepo)
    requires repo.Valid() && repo.delta == []
    ensures repo.deltaLen == 0
  {
    SomethingToEncode([]);
  }

  method DoCommit(repo: PathRepo, revision: int, ghost st: State)
    requires Represents(repo, st) && Legal(st, CommitRevision(revision))
    modifies repo`delta, repo`deltaLen, repo`head, repo`history, repo`last
    modifies repo.db, repo.env.hashTable, repo.env.scratch
    ensures Represents(repo, Next(st, CommitRevision(revision)))
  {
    hide SetsAgree, PathRepo.Valid, IsSnapshot, SizeOf, Live, Encode, AsOf;
    ghost var h, last, tree := repo.history, repo.last, repo.tree;
    repo.Parts();
    BasesKept(h, last, revision);
    repo.CommitDelta(revision);
    NothingPending(repo);
    SetsExtended(h, repo.history, last, st, revision);
    RevisionsSnoc(st.commits, Saved(revision, st.working));
  }

  method DoDiscard(repo: PathRepo, ghost st: State)
    requires Represents(repo, st)
    modifies repo`delta, repo`deltaLen, repo`TreeRepr, repo.tree.Repr
    ensures Represents(repo, Next(st, Discard)) && fresh(repo.TreeRepr - old(repo.TreeRepr))
  {
    hide SetsAgree, Live, AsOf, Recon, Encode;
    hide PathRepo.Valid, PathRepo.TreesOk, PathRepo.StoreValid, PathRepo.CacheValid;
    repo.Parts();
    SetAt(repo.history, st.commits, repo.last);
    assert Reconstructible(repo.history, repo.head);
    var code := repo.Discard();
    NothingPending(repo);
  }

  lemma SetAt(h: History, commits: seq<Saved>, r: int)
    requires SetsAgree(h, commits) && r <= Last(commits)
    ensures Live(h, r) == AsOf(commits, r)
  {
  }

  method DoLookUp(repo: PathRepo, path: cstring, revision: int, ghost st: State) returns (found: bool)
    requires Represents(repo, st) && Legal(st, LookUp(path, revision))
    modifies repo`cacheRevs, repo`cacheIndex, repo`marks, repo`TreeRepr, repo.CacheRepr()
    ensures Represents(repo, st) && fresh(repo.TreeRepr - old(repo.TreeRepr))
    ensures [found] == Answer(st, LookUp(path, revision))
  {
    hide SetsAgree, PathRepo.Valid, PathRepo.Settled, Live, AsOf, Encode;
    repo.Parts();
    SetAt(repo.history, st.commits, revision);
    var code := repo.Exists(path, revision);
    found := code == 1;
  }

  lemma IsValid(repo: PathRepo, st: State)
    requires Represents(repo, st)
    ensures repo.Valid()
  {
  }

  /** One operation. */
  method Do(repo: PathRepo, op: Op, ghost st: State) returns (answer: seq<bool>)
    requires Represents(repo, st) && Legal(st, op)
    modifies repo, repo.db, repo.env.hashTable, repo.env.scratch, repo.TreeRepr
    ensures Represents(repo, Next(st, op)) && fresh(repo.TreeRepr - old(repo.TreeRepr))
    ensures answer == Answer(st, op)
  {
    hide Represents, Legal;
    IsValid(repo, st);
    repo.Parts();
    answer := [];
    match op {
      case AddPath(path) => DoAdd(repo, path, st);
      case DeletePath(path) => DoDelete(repo, path, st);
      case CommitRevision(revision) => DoCommit(repo, revision, st);
      case Discard => DoDiscard(repo, st);
      case LookUp(path, revision) =>
        var found := DoLookUp(repo, path, revision, st);
        answer := [found];
    }
  }

  /**
   * Any legal run from an empty repository: every look-up, cached or not, before or after evictions
   * and later commits, answers for the set that was committed, and the live tree is as expected.
   */
  method Perform(ops: seq<Op>) returns (repo: PathRepo, answers: seq<bool>)
    requires AllLegal(ops)
    ensures repo.Valid() && repo.Settled()
    ensures repo.tree.Contents() == After(ops).working && repo.deltaLen == After(ops).pending
    ensures repo.last == Last(After(ops).commits) && repo.history.Keys == Revisions(After(ops).commits)
    ensures answers == Answers(ops)
    ensures forall r :: 0 <= r <= repo.last ==>
              Recon(repo.history, Base(r), r) == AsOf(After(ops).commits, r)
  {
    hide Represents, Legal, Next, PathRepo.Valid, Recon, AsOf;
    repo := new PathRepo();
    Initially(repo);
    answers := [];
    for i := 0 to |ops|
      invariant fresh(repo) && fresh(repo.db) && fresh(repo.env.hashTable) && fresh(repo.env.scratch)
      invariant fresh(repo.TreeRepr)
      invariant Represents(repo, After(ops[..i])) && answers == Answers(ops[..i])
    {
      assert ops[..i + 1][..i] == ops[..i];
      var answer := Do(repo, ops[i], After(ops[..i]));
      answers := answers + answer;
    }
    assert ops[..|ops|] == ops;
    Finally(repo, After(ops));
  }

  lemma Initially(repo: PathRepo)
    requires repo.Valid() && repo.Settled() && repo.history == map[] && repo.last == -1 && repo.delta == []
    requires repo.tree.Contents() == {}
    ensures Represents(repo, EMPTY)
  {
    NothingPending(repo);
  }

  /** Reconstruction from the stored records gives the committed sets. */
  lemma Finally(repo: PathRepo, st: State)
    requires Represents(repo, st)
    ensures repo.Valid() && repo.Settled() && repo.tree.Contents() == st.working && repo.deltaLen == st.pending
    ensures repo.last == Last(st.commits) && repo.history.Keys == Revisions(st.commits)
    ensures forall r :: 0 <= r <= repo.last ==> Recon(repo.history, Base(r), r) == AsOf(st.commits, r)
  {
    hide Recon, Live, AsOf, Consistent;
    forall r | 0 <= r <= repo.last
      ensures Recon(repo.history, Base(r), r) == AsOf(st.commits, r)
    {
      ReconstructionExact(repo.history, r);
    }
  }
}
