/** The versioned path repository. */
module PathRepository {
  import opened Bytes
  import opened CritBit
  import opened CritBitBits
  import opened CritBitOrder
  import opened CritBitShape
  import opened CritBitTrie
  import opened Decimal
  import opened KeyValueStore
  import opened PackedStore
  import opened PathDelta
  import opened PathEncoding
  import opened Snappy
  import opened SnappyFormat
  import opened SnappyVarint

  const CACHE_SIZE: int := 4

  /** The records are exactly those of the history. */
  ghost predicate RecordsHold(records: map<Key, seq<byte>>, h: History) {
    && (forall r :: r in h && h[r].record.Some? ==>
          Itoa(r) in records && Stored(records[Itoa(r)], Encode(h[r].record.value)))
    && (forall r: int {:trigger Itoa(r)} :: Itoa(r) in records ==> r in h && h[r].record.Some?)
  }

  lemma RecordsExtend(records: map<Key, seq<byte>>, h: History, revision: int, val: seq<byte>, c: Commit)
    requires RecordsHold(records, h) && c.record.Some? && Stored(val, Encode(c.record.value))
    ensures RecordsHold(records[Itoa(revision) := val], h[revision := c])
  {
    hide Encode, Stored, Itoa;
    forall r: int
      ensures Itoa(r) == Itoa(revision) <==> r == revision
    {
      ItoaInjective(r, revision);
    }
  }

  lemma RecordsSkip(records: map<Key, seq<byte>>, h: History, revision: int, c: Commit)
    requires RecordsHold(records, h) && revision !in h && c.record == None
    ensures RecordsHold(records, h[revision := c])
  {
    hide Encode, Stored, Itoa;
  }

  class PathRepo {
    const db: Mukv
    const env: SnappyEnv
    const tree: CbTree
    const cacheTrees: seq<CbTree>
    var delta: seq<Edit>
    var deltaLen: nat
    var head: int
    var cacheRevs: seq<int>
    var cacheIndex: nat
    ghost var history: History  // all committed revisions
    ghost var last: int         // the last of them, or -1
    ghost var marks: seq<int>   // for each cached tree, the last revision when it was built
    ghost var TreeRepr: set<object>  // all parts of all trees

    /** The trees are valid and share nothing with each other or with the rest. */
    ghost predicate TreesOk()
      reads `TreeRepr, TreeRepr
    {
      && {this, db, env.hashTable, env.scratch} !! TreeRepr
      && |cacheTrees| == CACHE_SIZE
      && tree in TreeRepr && tree in tree.Repr && tree.Repr <= TreeRepr && tree.Valid()
      && (forall i :: 0 <= i < CACHE_SIZE ==> cacheTrees[i] in TreeRepr)
      && (forall i :: 0 <= i < CACHE_SIZE ==>
            cacheTrees[i] in cacheTrees[i].Repr && cacheTrees[i].Repr <= TreeRepr
            && tree.Repr !! cacheTrees[i].Repr && cacheTrees[i].Valid())
      && (forall i, j :: 0 <= i < j < CACHE_SIZE ==> cacheTrees[i].Repr !! cacheTrees[j].Repr)
    }

    /** The database holds exactly the records of the history. */
    ghost predicate StoreValid()
      reads `history, `last, db
    {
      && db.Valid() && Consistent(history) && last >= -1
      && (forall r :: r in history ==> 0 <= r <= last)
      && RecordsHold(db.Records(), history)
    }

    /** Every cached tree is what reconstruction gave when it was built. */
    ghost predicate CacheValid()
      reads `history, `last, `marks, `cacheRevs, `cacheIndex, cacheTrees
    {
      && |cacheTrees| == CACHE_SIZE && |cacheRevs| == |marks| == CACHE_SIZE && 0 <= cacheIndex < CACHE_SIZE
      && forall i :: 0 <= i < CACHE_SIZE ==>
           marks[i] <= last
           && cacheTrees[i].Contents() == Recon(Until(history, marks[i]), Base(cacheRevs[i]), cacheRevs[i])
    }

    ghost predicate Valid()
      reads this, db, TreeRepr
    {
      && TreesOk() && env.Valid() && StoreValid() && CacheValid()
      && deltaLen == |Encode(delta)|
      && head == (if last < 0 then 0 else last)
      && tree.Contents() == Applied(Live(history, last), delta)
    }

    constructor ()
      ensures Valid() && Settled() && fresh(TreeRepr) && fresh(db) && fresh(env.hashTable) && fresh(env.scratch)
      ensures history == map[] && last == -1 && delta == [] && cacheRevs == [-1, -1, -1, -1]
      ensures tree.Contents() == {}
    {
      hide Encode, Applied, Live, Recon, Until, Base, Consistent, RecordsHold, TreesOk, CbTree.Valid, Mukv.Valid;
      var database := new Mukv();
      var environment := new SnappyEnv();
      var t := new CbTree();
      var trees := InitCache();
      db, env, tree, cacheTrees := database, environment, t, trees;
      delta, deltaLen, head := [], 0, 0;
      cacheRevs, cacheIndex := [-1, -1, -1, -1], 0;
      history, last, marks := map[], -1, [-1, -1, -1, -1];
      TreeRepr := {t} + (set c | c in trees);
      new;
      NothingCommitted();
      FreshTrees();
    }

    /** New trees share nothing. */
    lemma FreshTrees()
      requires {this, db, env.hashTable, env.scratch} !! TreeRepr && |cacheTrees| == CACHE_SIZE
      requires TreeRepr == {tree} + (set c | c in cacheTrees) && tree !in cacheTrees
      requires tree.Valid() && tree.Repr == {tree}
      requires forall i :: 0 <= i < CACHE_SIZE ==> cacheTrees[i].Valid() && cacheTrees[i].Repr == {cacheTrees[i]}
      requires forall i, j :: 0 <= i < j < CACHE_SIZE ==> cacheTrees[i] != cacheTrees[j]
      ensures TreesOk()
    {
      hide CbTree.Valid;
    }

    static lemma NothingCommitted()
      ensures Consistent(map[]) && RecordsHold(map[], map[]) && |Encode([])| == 0
      ensures Applied(Live(map[], -1), []) == {} && Recon(Until(map[], -1), Base(-1), -1) == {}
    {
      NothingBelowZero(Until(map[], -1), Base(-1), -1);
    }

    static method InitCache() returns (trees: seq<CbTree>)
      ensures |trees| == CACHE_SIZE
      ensures forall i :: 0 <= i < CACHE_SIZE ==>
                fresh(trees[i]) && trees[i].Valid() && trees[i].Contents() == {} && trees[i].Repr == {trees[i]}
      ensures forall i, j :: 0 <= i < j < CACHE_SIZE ==> trees[i] != trees[j]
    {
      var c0 := new CbTree();
      var c1 := new CbTree();
      var c2 := new CbTree();
      var c3 := new CbTree();
      trees := [c0, c1, c2, c3];
    }

    /** Schedules a path for addition; -1 if it is there already (the edit is recorded anyway). */
    method Add(path: cstring) returns (code: int)
      requires Valid()
      modifies `delta, `deltaLen, `TreeRepr, tree.Repr
      ensures Valid() && fresh(TreeRepr - old(TreeRepr)) && fresh(tree.Repr - old(tree.Repr))
      ensures delta == old(delta) + [Edit.Add(path)]
      ensures tree.Contents() == old(tree.Contents()) + {path}
      ensures deltaLen == old(deltaLen) + 2 + |path|
      ensures code == if path in old(tree.Contents()) then -1 else 0
    {
      hide TreesOk, StoreValid, CacheValid, Live, Applied, Encode, CbTree.Valid;
      TreesApart();
      delta := delta + [Edit.Add(path)];
      deltaLen := deltaLen + 2 + |path|;
      var r := tree.Insert(path);
      TreeRepr := TreeRepr + tree.Repr;
      LiveTreeChanged();
      EncodeSnoc(old(delta), Edit.Add(path));
      AppliedConcat(Live(history, last), old(delta), [Edit.Add(path)]);
      AppliedOne(old(tree.Contents()), Edit.Add(path));
      code := if r != 0 then -1 else 0;
    }

    /** What all trees need after an operation on the live one. */
    twostate lemma LiveTreeChanged()
      requires old(TreesOk() && CacheValid()) && TreeRepr == old(TreeRepr) + tree.Repr
      requires tree.Valid() && fresh(tree.Repr - old(tree.Repr))
      requires forall o :: o in old(TreeRepr) && o !in old(tree.Repr) ==> unchanged(o)
      requires unchanged(`history) && unchanged(`last) && unchanged(`marks)
      requires unchanged(`cacheRevs) && unchanged(`cacheIndex)
      ensures TreesOk() && CacheValid()
    {
      hide Recon, Until, Base;
      forall i | 0 <= i < CACHE_SIZE
        ensures cacheTrees[i].Valid() && cacheTrees[i].Repr == old(cacheTrees[i].Repr)
        ensures cacheTrees[i].Contents() == old(cacheTrees[i].Contents()) && tree.Repr !! cacheTrees[i].Repr
      {
        assert forall o :: o in old(cacheTrees[i].Repr) ==> unchanged(o);
      }
      hide CbTree.Valid;
    }

    /** Schedules what is picked at and under a path for deletion: exactly the path and what is under
        it, unless the walk is led to strangers. */
    method Delete(path: cstring) returns (ghost picked: set<cstring>)
      requires Valid()
      modifies `delta, `deltaLen, `TreeRepr, tree.Repr
      ensures Valid() && fresh(TreeRepr - old(TreeRepr)) && fresh(tree.Repr - old(tree.Repr))
      ensures Picked(old(tree.Value()), path, picked) && tree.Contents() == old(tree.Contents()) - picked
      ensures deltaLen == old(deltaLen) + SizeOf(picked)
      ensures PicksRight(old(tree.Contents()), path) ==> picked == Subtree(old(tree.Contents()), path)
      ensures (exists s :: s in old(tree.Contents()) && path <= s) ==>
                forall s :: s in tree.Contents() <==>
                  s in old(tree.Contents()) && !(path <= s && (path == [] || |s| == |path| || s[|path|] == 47))
    {
      hide StoreValid, CacheValid, TreesOk, Live, Applied, Encode, Picked, PicksRight, Subtree;
      TreesApart();
      PrefixPicksRight(tree.Contents(), path);
      var paths := TreeToArray(tree, path);
      picked := set s | s in paths;
      PickedFromTree(tree, path, picked);
      RemovesSize(paths, picked);
      EncodeConcat(delta, Removes(paths));
      DeleteAll(paths);
    }

    /** What callers may know about a valid repository. */
    lemma Parts()
      requires Valid()
      ensures {this, db, env.hashTable, env.scratch} !! TreeRepr && CacheRepr() <= TreeRepr
      ensures tree in TreeRepr && tree.Repr <= TreeRepr && tree !in CacheRepr()
      ensures last >= -1 && Consistent(history) && forall k :: k in history ==> 0 <= k <= last
      ensures deltaLen == |Encode(delta)| && head == (if last < 0 then 0 else last)
      ensures |cacheRevs| == |marks| == CACHE_SIZE
    {
      hide Encode, Live, Applied, Consistent, RecordsHold, Recon, CbTree.Valid;
    }

    lemma TreesApart()
      requires TreesOk()
      ensures tree.Valid() && tree in TreeRepr && {this, db, env.hashTable, env.scratch} !! TreeRepr
      ensures tree in tree.Repr && tree.Repr <= TreeRepr
      ensures |cacheTrees| == CACHE_SIZE && forall i :: 0 <= i < CACHE_SIZE ==> cacheTrees[i] in TreeRepr
    {
    }

    /** Schedules the listed paths for deletion, in order. */
    method DeleteAll(paths: seq<cstring>)
      requires Valid()
      modifies `delta, `deltaLen, `TreeRepr, tree.Repr
      ensures Valid() && fresh(TreeRepr - old(TreeRepr)) && fresh(tree.Repr - old(tree.Repr))
      ensures delta == old(delta) + Removes(paths)
      ensures tree.Contents() == old(tree.Contents()) - (set s | s in paths)
    {
      hide Valid;
      for i := 0 to |paths|
        invariant Valid() && fresh(TreeRepr - old(TreeRepr)) && fresh(tree.Repr - old(tree.Repr))
        invariant delta == old(delta) + Removes(paths[..i])
        invariant tree.Contents() == old(tree.Contents()) - (set s | s in paths[..i])
      {
        RemovesSnoc(paths, i);
        DeleteOne(paths[i]);
        assert paths[..i + 1] == paths[..i] + [paths[i]];
        assert old(delta) + Removes(paths[..i]) + [Remove(paths[i])] == old(delta) + Removes(paths[..i + 1]);
      }
      assert paths[..|paths|] == paths;
    }

    /** One step of `Delete`. */
    method DeleteOne(p: cstring)
      requires Valid()
      modifies `delta, `deltaLen, `TreeRepr, tree.Repr
      ensures Valid() && fresh(TreeRepr - old(TreeRepr)) && fresh(tree.Repr - old(tree.Repr))
      ensures delta == old(delta) + [Remove(p)]
      ensures tree.Contents() == old(tree.Contents()) - {p}
    {
      hide TreesOk, StoreValid, CacheValid, Live, Applied, Encode, CbTree.Valid;
      TreesApart();
      delta := delta + [Remove(p)];
      deltaLen := deltaLen + 2 + |p|;
      var r := tree.Delete(p);
      TreeRepr := TreeRepr + tree.Repr;
      LiveTreeChanged();
      EncodeSnoc(old(delta), Remove(p));
      AppliedConcat(Live(history, last), old(delta), [Remove(p)]);
      AppliedOne(old(tree.Contents()), Remove(p));
    }

    /** What a commit of the current delta needs to fit 32-bit sizes. */
    ghost predicate SizesFit(revision: int)
      reads this, tree
    {
      |Encode(delta)| < TWO_31 && (IsSnapshot(revision) ==> SizeOf(tree.Contents()) < TWO_31)
    }

    /** Commits all scheduled edits under a revision number above all earlier ones. A snapshot is
        stored when one is due, otherwise the delta, and nothing if there is none. */
    method CommitDelta(revision: int)
      requires Valid() && revision > last && revision >= 0 && SizesFit(revision)
      modifies `delta, `deltaLen, `head, `history, `last, db, env.hashTable, env.scratch
      ensures Valid() && last == head == revision && delta == []
      ensures revision in history && history == old(history)[revision := history[revision]]
      ensures history[revision].edits == old(delta)
      ensures Live(history, revision) == old(tree.Contents())
      ensures if revision > 0 && revision % 1024 == 0
              then history[revision].record.Some? && Applied({}, history[revision].record.value) == old(tree.Contents())
              else history[revision].record == if old(delta) == [] then None else Some(old(delta))
    {
      var snapshot := IsSnapshot(revision);
      SomethingToEncode(delta);
      if deltaLen <= 0 && !snapshot {
        CommitNothing(revision);
      } else {
        CommitRecord(revision, snapshot);
      }
    }

    /** A revision without edits leaves no record. */
    method CommitNothing(revision: int)
      requires Valid() && revision > last && !IsSnapshot(revision) && delta == []
      modifies `head, `history, `last
      ensures Valid() && last == head == revision && history == old(history)[revision := Commit([], None)]
      ensures Live(history, revision) == tree.Contents()
    {
      AppliedNothing(tree.Contents());
      hide Encode, Applied, Live, Stored, Itoa, Consistent;
      RecordsSkip(db.Records(), history, revision, Commit(delta, None));
      head := revision;
      Remember(revision, Commit(delta, None));
    }

    /** Stores a record, then starts with an empty delta. */
    method CommitRecord(revision: int, snapshot: bool)
      requires Valid() && revision > last && SizesFit(revision) && snapshot == IsSnapshot(revision)
      requires snapshot || delta != []
      modifies `delta, `deltaLen, `head, `history, `last, db, env.hashTable, env.scratch
      ensures Valid() && last == head == revision && delta == []
      ensures revision in history && history == old(history)[revision := history[revision]]
      ensures history[revision].edits == old(delta)
      ensures Live(history, revision) == old(tree.Contents())
      ensures if snapshot
              then history[revision].record.Some? && Applied({}, history[revision].record.value) == old(tree.Contents())
              else history[revision].record == if old(delta) == [] then None else Some(old(delta))
    {
      TreesApart();
      hide Encode, Applied, Live, Stored, Itoa, Consistent, CbTree.Valid, TreesOk, CacheValid, RecordsHold;
      var val;
      ghost var record;
      val, record := Serialize(snapshot);
      StoreCommit(revision, val, Commit(delta, Some(record)));
      StartAfter(revision, Commit(delta, Some(record)));
    }

    /** Starts an empty delta behind a commit. */
    method StartAfter(revision: int, ghost c: Commit)
      requires TreesOk() && CacheValid() && env.Valid() && revision > last >= -1 && Consistent(history)
      requires (forall r :: r in history ==> 0 <= r <= last) && revision >= 0
      requires c.edits == delta && tree.Contents() == Applied(Live(history, last), c.edits)
      requires if IsSnapshot(revision) then c.record.Some? && Applied({}, c.record.value) == tree.Contents()
               else c.record == if c.edits == [] then None else Some(c.edits)
      requires db.Valid() && RecordsHold(db.Records(), history[revision := c])
      modifies `delta, `deltaLen, `head, `history, `last
      ensures Valid() && last == head == revision && delta == []
      ensures history == old(history)[revision := c] && Live(history, revision) == tree.Contents()
    {
      hide Encode, Applied, Live, Stored, Itoa, Consistent, TreesOk, CacheValid, RecordsHold, Mukv.Records, Mukv.Valid;
      TreesApart();
      AppliedNothing(tree.Contents());
      SomethingToEncode([]);
      head := revision;
      deltaLen := 0;
      delta := [];
      Remember(revision, c);
    }

    /** Stores the record of a new revision. */
    method StoreCommit(revision: int, val: seq<byte>, ghost c: Commit)
      requires StoreValid() && env.Valid() && |val| < TWO_31 && c.record.Some? && val == Encode(c.record.value)
      modifies db, env.hashTable, env.scratch
      ensures db.Valid() && RecordsHold(db.Records(), history[revision := c])
    {
      hide Encode, Stored, Itoa, Consistent, RecordsHold;
      ghost var records := db.Records();
      Pack(db, env, Itoa(revision), val);
      RecordsExtend(records, history, revision, db.Records()[Itoa(revision)], c);
    }

    /** The value to store: the whole tree for a snapshot, otherwise the delta. */
    method Serialize(snapshot: bool) returns (val: seq<byte>, ghost record: seq<Edit>)
      requires tree.Valid() && deltaLen == |Encode(delta)| < TWO_31
      requires snapshot ==> SizeOf(tree.Contents()) < TWO_31
      ensures val == Encode(record) && |val| < TWO_31
      ensures if snapshot then Applied({}, record) == tree.Contents() else record == delta
    {
      if !snapshot {
        val := EncodeDelta(delta, deltaLen);
        record := delta;
      } else {
        val, record := EncodeTree(tree);
      }
    }

    /** Records the commit in the history (proof only). */
    ghost method Remember(revision: int, c: Commit)
      requires TreesOk() && CacheValid() && revision > last >= -1 && Consistent(history)
      requires forall r :: r in history ==> 0 <= r <= last
      requires tree.Contents() == Applied(Live(history, last), c.edits)
      requires if IsSnapshot(revision) then c.record.Some? && Applied({}, c.record.value) == tree.Contents()
               else c.record == if c.edits == [] then None else Some(c.edits)
      requires db.Valid() && RecordsHold(db.Records(), history[revision := c])
      modifies `history, `last
      ensures StoreValid() && CacheValid() && history == old(history)[revision := c] && last == revision
      ensures Live(history, last) == tree.Contents()
    {
      CommitKeepsConsistent(history, last, revision, c);
      forall i | 0 <= i < CACHE_SIZE
        ensures Until(history, marks[i]) == Until(history[revision := c], marks[i])
      {
      }
      history := history[revision := c];
      last := revision;
    }

    /** Serializes the whole tree as a list of additions. */
    static method EncodeTree(tree: CbTree) returns (val: seq<byte>, ghost record: seq<Edit>)
      requires tree.Valid()
      ensures val == Encode(record) && Applied({}, record) == tree.Contents()
      ensures |val| == SizeOf(tree.Contents())
    {
      var arr := TreeToArray(tree, []);
      SnapshotRecord(arr, tree.Contents());
      var len := EncodedLength(arr);
      record := Adds(arr);
      val := EncodeDelta(Adds(arr), len);
    }

    static method EncodedLength(arr: seq<cstring>) returns (len: nat)
      ensures len == |Encode(Adds(arr))|
    {
      SomethingToEncode([]);
      assert Adds(arr[..0]) == [];
      hide Encode;
      len := 0;
      for i := 0 to |arr|
        invariant len == |Encode(Adds(arr[..i]))|
      {
        AddsSnoc(arr, i);
        len := len + 2 + |arr[i]|;
      }
      assert arr[..|arr|] == arr;
    }

    /** Replays the stored records of a block onto an empty tree. */
    method Reconstruct(t: CbTree, revision: int) returns (code: int)
      requires StoreValid() && t.Valid() && t.Contents() == {} && {this, db} !! t.Repr
      modifies t.Repr
      ensures t.Valid() && fresh(t.Repr - old(t.Repr))
      ensures code == 0 && t.Contents() == Recon(history, Base(revision), revision)
    {
      hide StoreValid, RecordAt;
      code := 0;
      var r := Base(revision);
      BaseBelow(revision);
      assert Recon(history, r, r - 1) == {};
      while r <= revision && code == 0
        invariant StoreValid() && t.Valid() && fresh(t.Repr - old(t.Repr)) && {this, db} !! t.Repr
        invariant Base(revision) <= r <= revision + 1 && code == 0
        invariant t.Contents() == Recon(history, Base(revision), r - 1)
        decreases revision - r
      {
        code := ApplyRecord(t, r);
        r := r + 1;
      }
    }

    /** Applies the record of one revision, if there is one. */
    method ApplyRecord(t: CbTree, r: int) returns (code: int)
      requires StoreValid() && t.Valid() && {this, db} !! t.Repr
      modifies t.Repr
      ensures t.Valid() && fresh(t.Repr - old(t.Repr)) && code == 0
      ensures t.Contents() == Applied(old(t.Contents()), RecordAt(history, r))
    {
      AppliedNothing(t.Contents());
      hide Applied, Decode, Encode, Itoa, Consistent, VarintParse32, ReadPreamble;
      var found := db.Exists(Itoa(r));
      code := 0;
      if found {
        var val := db.Fetch(Itoa(r));
        ghost var record := history[r].record.value;
        var data;
        code, data := Unpack(val.value, Encode(record));
        if code == 0 {
          DeltaApply(t, data, record);
        }
      }
    }

    /** All parts of the cached trees. */
    ghost function CacheRepr(): set<object>
      requires |cacheTrees| == CACHE_SIZE
      reads cacheTrees
    {
      cacheTrees[0].Repr + cacheTrees[1].Repr + cacheTrees[2].Repr + cacheTrees[3].Repr
    }

    /** No cached tree was built before its revision was committed. */
    ghost predicate Settled()
      reads `marks, `cacheRevs
    {
      |cacheRevs| == |marks| == CACHE_SIZE && forall i :: 0 <= i < CACHE_SIZE ==> cacheRevs[i] <= marks[i]
    }

    /** The tree for a revision, from the cache or built in the next slot of the cache. */
    method Tree(revision: int) returns (t: CbTree, ghost slot: nat)
      requires Valid()
      modifies `cacheRevs, `cacheIndex, `marks, `TreeRepr, CacheRepr()
      ensures Valid() && fresh(TreeRepr - old(TreeRepr))
      ensures slot < CACHE_SIZE && t == cacheTrees[slot] && cacheRevs[slot] == revision && marks[slot] <= last
      ensures t.Contents() == Recon(Until(history, marks[slot]), Base(revision), revision)
      ensures if revision in old(cacheRevs)
              then marks == old(marks) && cacheRevs == old(cacheRevs) && cacheIndex == old(cacheIndex)
              else slot == old(cacheIndex) && cacheIndex == (slot + 1) % CACHE_SIZE
                   && marks == old(marks)[slot := last] && cacheRevs == old(cacheRevs)[slot := revision]
    {
      hide TreesOk, StoreValid, Recon, Until, Base, Live, Applied, Encode;
      TreesApart();
      slot := 0;
      var i := 0;
      while i < CACHE_SIZE
        invariant 0 <= i <= CACHE_SIZE && revision !in cacheRevs[..i]
      {
        if cacheRevs[i] == revision {
          return cacheTrees[i], i;
        }
        i := i + 1;
      }
      assert cacheRevs[..CACHE_SIZE] == cacheRevs;
      slot := cacheIndex;
      t := cacheTrees[cacheIndex];
      CachedTreeApart(slot);
      Rebuild(cacheIndex, revision);
      cacheIndex := cacheIndex + 1;
      if cacheIndex >= CACHE_SIZE {
        cacheIndex := 0;
      }
    }

    /** Replaces a cached tree and relabels its slot. */
    method Rebuild(slot: nat, revision: int)
      requires Valid() && slot < CACHE_SIZE
      modifies `cacheRevs, `marks, `TreeRepr, CacheRepr()
      ensures Valid() && fresh(TreeRepr - old(TreeRepr))
      ensures marks == old(marks)[slot := last] && cacheRevs == old(cacheRevs)[slot := revision]
    {
      hide Recon, StoreValid, TreesOk, Base, Until, Applied, Live, Encode;
      ReconNow(revision);
      CachedTreeApart(slot);
      RebuildTree(slot, revision);
      cacheRevs := cacheRevs[slot := revision];
      marks := marks[slot := last];
    }

    /** Replaces a cached tree by the one for another revision. */
    method RebuildTree(slot: nat, revision: int)
      requires TreesOk() && StoreValid() && slot < CACHE_SIZE
      modifies `TreeRepr, CacheRepr()
      ensures TreesOk() && StoreValid() && fresh(TreeRepr - old(TreeRepr))
      ensures tree.Contents() == old(tree.Contents())
      ensures cacheTrees[slot].Contents() == Recon(history, Base(revision), revision)
      ensures forall i :: 0 <= i < CACHE_SIZE && i != slot ==> cacheTrees[i].Contents() == old(cacheTrees[i].Contents())
    {
      hide Recon, StoreValid, TreesOk, Base, CbTree.Valid;
      CachedTreeApart(slot);
      var code := ClearAndReconstruct(cacheTrees[slot], revision);
      TreeRepr := TreeRepr + cacheTrees[slot].Repr;
      CachedTreeChanged(slot);
    }

    lemma CachedTreeApart(slot: nat)
      requires TreesOk() && slot < CACHE_SIZE
      ensures |cacheTrees| == CACHE_SIZE
      ensures var t := cacheTrees[slot];
              t.Valid() && t in t.Repr && t.Repr <= CacheRepr() <= TreeRepr && {this, db} !! TreeRepr
    {
      hide CbTree.Valid;
    }

    /** Nothing else is touched by what happens to one cached tree. */
    twostate lemma CachedTreeChanged(slot: nat)
      requires old(TreesOk()) && slot < CACHE_SIZE && TreeRepr == old(TreeRepr) + cacheTrees[slot].Repr
      requires var t := cacheTrees[slot]; t.Valid() && fresh(t.Repr - old(t.Repr))
      requires forall o :: o in old(TreeRepr) && o !in old(cacheTrees[slot].Repr) ==> unchanged(o)
      ensures TreesOk() && tree.Contents() == old(tree.Contents())
      ensures forall i :: 0 <= i < CACHE_SIZE && i != slot ==> cacheTrees[i].Contents() == old(cacheTrees[i].Contents())
    {
      OthersKept(slot);
      hide CbTree.Valid;
    }

    twostate lemma OthersKept(slot: nat)
      requires old(TreesOk()) && slot < CACHE_SIZE && fresh(cacheTrees[slot].Repr - old(cacheTrees[slot].Repr))
      requires forall o :: o in old(TreeRepr) && o !in old(cacheTrees[slot].Repr) ==> unchanged(o)
      ensures tree.Valid() && tree.Repr == old(tree.Repr) && tree.Contents() == old(tree.Contents())
      ensures tree.Repr !! cacheTrees[slot].Repr
      ensures forall i :: 0 <= i < CACHE_SIZE && i != slot ==>
                cacheTrees[i].Valid() && cacheTrees[i].Repr == old(cacheTrees[i].Repr)
                && cacheTrees[i].Contents() == old(cacheTrees[i].Contents())
                && cacheTrees[i].Repr !! cacheTrees[slot].Repr
    {
      forall i | 0 <= i < CACHE_SIZE && i != slot
        ensures cacheTrees[i].Repr == old(cacheTrees[i].Repr) && old(cacheTrees[i].Repr) !! old(cacheTrees[slot].Repr)
        ensures cacheTrees[i].Valid() && cacheTrees[i].Contents() == old(cacheTrees[i].Contents())
      {
      }
    }

    method ClearAndReconstruct(t: CbTree, revision: int) returns (code: int)
      requires StoreValid() && t.Valid() && t in t.Repr && {this, db} !! t.Repr
      modifies t.Repr
      ensures t.Valid() && t in t.Repr && fresh(t.Repr - old(t.Repr))
      ensures code == 0 && t.Contents() == Recon(history, Base(revision), revision)
    {
      if t.root != Ptr.Null {
        t.Clear();
      }
      code := Reconstruct(t, revision);
    }

    /** Reconstructing now is reconstructing from all that is committed so far. */
    lemma ReconNow(revision: int)
      requires StoreValid()
      ensures Until(history, last) == history
    {
    }

    /** Throws away the scheduled edits and goes back to what is reconstructed for the last
        committed revision. That is the last committed tree, node for node, exactly when the
        revision can be reconstructed. */
    method Discard() returns (code: int)
      requires Valid()
      modifies `delta, `deltaLen, `TreeRepr, tree.Repr
      ensures code == 0 && delta == [] && fresh(TreeRepr - old(TreeRepr)) && fresh(tree.Repr - old(tree.Repr))
      ensures TreesOk() && StoreValid() && CacheValid()
      ensures tree.Contents() == Recon(history, Base(head), head)
      ensures Valid() <==> Reconstructible(history, head)
      ensures Valid() ==> tree.Contents() == Live(history, last)
      ensures Valid() ==> forall t: Trie :: Good(t) && Strings(t) == Live(history, last) ==> tree.Value() == Some(t)
    {
      hide Recon, StoreValid, TreesOk, CacheValid, Base, Until, Applied, Live, Encode, Reconstructible, Strings, Good;
      hide CbTree.Valid;
      TreesApart();
      deltaLen := 0;
      delta := [];
      tree.Clear();
      code := Reconstruct(tree, head);
      TreeRepr := TreeRepr + tree.Repr;
      LiveTreeChanged();
      SomethingToEncode([]);
      HeadIsLast();
      UniqueTree(tree);
    }

    /** The head is the last committed revision as far as the live set is concerned. */
    lemma HeadIsLast()
      requires StoreValid() && head == (if last < 0 then 0 else last)
      ensures Live(history, head) == Live(history, last)
      ensures Recon(history, Base(head), head) == Live(history, last) <==> Reconstructible(history, head)
      ensures Applied(Live(history, last), []) == Live(history, last)
    {
      ReconstructionExact(history, head);
      LiveUnchanged(history, last, head);
    }

    /** Whether a path exists at a revision: 1 or 0. Nothing exists below revision 0. The answer is
        that of the live set if the revision is committed and can be reconstructed, and the cache
        holds no tree built ahead of its revision. */
    method Exists(path: cstring, revision: int) returns (found: int)
      requires Valid()
      modifies `cacheRevs, `cacheIndex, `marks, `TreeRepr, CacheRepr()
      ensures Valid() && fresh(TreeRepr - old(TreeRepr))
      ensures found == 0 || found == 1
      ensures revision < 0 ==> found == 0
      ensures old(Settled()) && revision <= last ==> Settled()
      ensures old(Settled()) && 0 <= revision <= last && Reconstructible(history, revision) ==>
                (found == 1 <==> path in Live(history, revision))
    {
      hide Valid, CacheRepr, Recon, Until, Base, Live, Reconstructible;
      if revision < 0 {
        return 0;
      }
      var t;
      ghost var slot;
      t, slot := Tree(revision);
      found := LookUp(t, slot, path, revision);
    }

    /** Whether a child of a parent exists at a revision. */
    method CheckParent(parent: cstring, child: cstring, revision: int) returns (found: int)
      requires Valid()
      modifies `cacheRevs, `cacheIndex, `marks, `TreeRepr, CacheRepr()
      ensures Valid() && fresh(TreeRepr - old(TreeRepr))
      ensures found == 0 || found == 1
      ensures revision < 0 ==> found == 0
      ensures old(Settled()) && revision <= last ==> Settled()
      ensures old(Settled()) && 0 <= revision <= last && Reconstructible(history, revision) ==>
                (found == 1 <==> parent + [47] + child in Live(history, revision))
    {
      hide Valid, CacheRepr, Recon, Until, Base, Live, Reconstructible;
      if revision < 0 {
        return 0;
      }
      var t;
      ghost var slot;
      t, slot := Tree(revision);
      found := LookUp(t, slot, parent + [SLASH] + child, revision);
    }

    /** Looks a path up in the tree just obtained for a revision. */
    method LookUp(t: CbTree, ghost slot: nat, path: cstring, revision: int) returns (found: int)
      requires Valid() && slot < CACHE_SIZE && t == cacheTrees[slot] && cacheRevs[slot] == revision >= 0
      ensures found == 0 || found == 1
      ensures revision <= marks[slot] && Reconstructible(history, revision) ==>
                (found == 1 <==> path in Live(history, revision))
    {
      var b := t.Contains(path);
      found := if b then 1 else 0;
      if revision <= marks[slot] {
        Coherent(marks[slot], revision);
      }
    }

    /** A tree built when its revision was already committed is still right. */
    lemma Coherent(mark: int, revision: int)
      requires StoreValid() && 0 <= revision <= mark
      ensures Recon(Until(history, mark), Base(revision), revision) == Recon(history, Base(revision), revision)
      ensures Reconstructible(history, revision) ==>
                Recon(history, Base(revision), revision) == Live(history, revision)
    {
      ReconStable(history, mark, Base(revision), revision);
      ReconstructionExact(history, revision);
    }

    /** A cached tree that was built after its revision was committed. */
    lemma CachedTree(slot: nat)
      requires Valid() && slot < CACHE_SIZE && 0 <= cacheRevs[slot] <= marks[slot]
      ensures cacheTrees[slot].Valid()
      ensures Reconstructible(history, cacheRevs[slot]) ==>
                cacheTrees[slot].Contents() == Live(history, cacheRevs[slot])
    {
      hide CbTree.Valid, Recon, Until, Base, Live, Reconstructible, StoreValid;
      Coherent(marks[slot], cacheRevs[slot]);
    }

    /** A tree just built stays right, whatever is committed later, if and only if its revision was
        committed when it was built. */
    lemma RightForGood(slot: nat)
      requires Valid() && slot < CACHE_SIZE && marks[slot] == last && cacheRevs[slot] >= 0
      ensures var r := cacheRevs[slot];
              (forall h' :: Continues(history, last, h') ==> cacheTrees[slot].Contents() == Recon(h', Base(r), r))
              <==> r <= last
    {
      hide TreesOk, Recon, Base, Continues;
      ReconNow(last);
      TrustedWhenCommitted(history, last, cacheRevs[slot]);
    }
  }

  /** Only one good tree has given contents. */
  lemma UniqueTree(tree: CbTree)
    requires tree.Valid()
    ensures forall t: Trie :: Good(t) && Strings(t) == tree.Contents() ==> tree.Value() == Some(t)
  {
    forall t: Trie | Good(t) && Strings(t) == tree.Contents()
      ensures tree.Value() == Some(t)
    {
      Canonical(tree.Value().value, t);
    }
  }

  /** The failing run of the cache, from any state: a revision is looked up before it is committed, a
      path is added, the revision is committed and looked up again. The tree is the one in the cache
      that was built before the commit. */
  method LookUpTooEarly(repo: PathRepo, revision: int, path: cstring) returns (t: CbTree, ghost slot: nat)
    requires repo.Valid() && revision > repo.last && revision >= 0 && revision !in repo.cacheRevs
    requires path !in Recon(repo.history, Base(revision), revision)
    requires repo.deltaLen + 2 + |path| < TWO_31
    requires IsSnapshot(revision) ==> SizeOf(repo.tree.Contents() + {path}) < TWO_31
    modifies repo, repo.db, repo.env.hashTable, repo.env.scratch, repo.TreeRepr
    ensures repo.Valid() && repo.last == revision && revision in repo.history
    ensures repo.history == old(repo.history)[revision := repo.history[revision]]
    ensures repo.history[revision].edits == old(repo.delta) + [Edit.Add(path)]
    ensures slot < CACHE_SIZE && t == repo.cacheTrees[slot] && repo.cacheRevs[slot] == revision
    ensures slot == old(repo.cacheIndex) && repo.marks[slot] == old(repo.last)
    ensures path in Live(repo.history, revision) && path in Recon(repo.history, Base(revision), revision)
    ensures path !in t.Contents()
  {
    hide PathRepo.Valid, PathRepo.CacheRepr, Recon, Until, Base, Live, Encode, SizeOf, IsSnapshot;
    ghost var slot', h, last := 0, repo.history, repo.last;
    repo.Parts();
    t, slot' := repo.Tree(revision);
    repo.Parts();
    var code := repo.Add(path);
    repo.Parts();
    ghost var edits := repo.delta;
    repo.CommitDelta(revision);
    repo.Parts();
    LastAdded(repo.history, revision, path, edits);
    t, slot := repo.Tree(revision);
    assert slot == slot' && repo.marks[slot] == last;
    UntilBefore(h, repo.history, last, revision);
  }

  lemma UntilBefore(h: History, h': History, last: int, revision: int)
    requires (forall k :: k in h ==> k <= last) && revision > last
    requires revision in h' && h' == h[revision := h'[revision]]
    ensures Until(h', last) == h
  {
  }

  /** A path added last is there when the revision is reconstructed. */
  lemma LastAdded(h: History, r: int, path: cstring, edits: seq<Edit>)
    requires Consistent(h) && r in h && h[r].edits == edits && edits != [] && edits[|edits| - 1] == Edit.Add(path)
    ensures path in Live(h, r) && path in Recon(h, Base(r), r)
  {
    assert GoodCommit(h, r);
    BaseBelow(r);
    if IsSnapshot(r) {
      assert Base(r) == r;
      assert Recon(h, r, r - 1) == {};
    }
  }

  /** The failing run from an empty repository: "a" is committed as revision 1, revision 2 is looked
      up, "b" is committed as revision 2 and is not found there. */
  method StaleRun() returns (repo: PathRepo, t: CbTree, ghost slot: nat)
    ensures repo.Valid() && repo.last == 2 && repo.history.Keys == {1, 2}
    ensures repo.history[1].edits == [Edit.Add([97])] && repo.history[2].edits == [Edit.Add([98])]
    ensures slot < CACHE_SIZE && t == repo.cacheTrees[slot] && repo.cacheRevs[slot] == 2 && repo.marks[slot] == 1
    ensures [98] in Live(repo.history, 2) && [98] in Recon(repo.history, 0, 2) && [98] !in t.Contents()
  {
    hide PathRepo.Valid, PathRepo.Settled, PathRepo.CacheRepr;
    hide SizeOf, Live, Recon, Base, IsSnapshot, Consistent, Encode;
    NotSnapshots();
    SomethingToEncode([]);
    repo := new PathRepo();
    repo.Parts();
    var code := repo.Add([97]);
    repo.Parts();
    repo.CommitDelta(1);
    repo.Parts();
    OnlyA(repo.history);
    t, slot := LookUpTooEarly(repo, 2, [98]);
  }

  lemma NotSnapshots()
    ensures !IsSnapshot(1) && !IsSnapshot(2) && Base(2) == 0
  {
  }

  lemma OnlyA(h: History)
    requires Consistent(h) && h.Keys == {1} && h[1].edits == [Edit.Add([97])]
    ensures [98] !in Recon(h, Base(2), 2)
  {
    var a: cstring, b: cstring := [97], [98];
    assert a[0] != b[0];
    assert GoodCommit(h, 1);
    assert [Edit.Add(a)][..0] == [];
    assert Recon(h, 0, -1) == {} && Recon(h, 0, 0) == {};
    assert Recon(h, 0, 1) == {a};
    assert Recon(h, 0, 2) == {a};
  }

  /** Adding the listed paths to nothing gives the set, whatever its size. */
  lemma SnapshotRecord(arr: seq<cstring>, ss: set<cstring>)
    requires Ascending(arr) && forall s :: s in arr <==> s in ss
    ensures Applied({}, Adds(arr)) == ss && |Encode(Adds(arr))| == SizeOf(ss)
  {
    AppliedAdds({}, arr);
    AscendingDistinct(arr);
    SizeOfListing(arr, ss);
    assert (set p | p in arr) == ss;
  }

  lemma AddsSnoc(paths: seq<cstring>, i: nat)
    requires i < |paths|
    ensures |Encode(Adds(paths[..i + 1]))| == |Encode(Adds(paths[..i]))| + 2 + |paths[i]|
  {
    assert Adds(paths[..i + 1]) == Adds(paths[..i]) + [Edit.Add(paths[i])];
    EncodeSnoc(Adds(paths[..i]), Edit.Add(paths[i]));
  }

  /** When some stored path begins with the deleted one, what is picked is what lies below it. */
  lemma PrefixPicksRight(ss: set<cstring>, path: cstring)
    ensures (exists s :: s in ss && path <= s) ==> PicksRight(ss, path)
    ensures forall s :: s in Subtree(ss, path) <==>
              s in ss && path <= s && (path == [] || |s| == |path| || s[|path|] == 47)
  {
    if s :| s in ss && path <= s {
      WalkableIsRight(ss, path);
    }
    forall s: cstring
      ensures s in Subtree(ss, path) <==>
              s in ss && path <= s && (path == [] || |s| == |path| || s[|path|] == 47)
    {
      SubtreeExact(ss, path, s);
    }
  }

  lemma AppliedOne(ss: set<cstring>, e: Edit)
    ensures Applied(ss, [e]) == if e.Add? then ss + {e.path} else ss - {e.path}
  {
    assert [e][..0] == [];
  }

  lemma AppliedNothing(ss: set<cstring>)
    ensures Applied(ss, []) == ss
  {
  }

  lemma SomethingToEncode(edits: seq<Edit>)
    ensures edits == [] <==> |Encode(edits)| == 0
  {
  }

  function Removes(paths: seq<cstring>): (edits: seq<Edit>)
    ensures |edits| == |paths| && forall i :: 0 <= i < |paths| ==> edits[i] == Remove(paths[i])
  {
    seq(|paths|, i requires 0 <= i < |paths| => Remove(paths[i]))
  }

  /** Listing the paths of a set for deletion takes as many bytes as listing them. */
  lemma RemovesSize(paths: seq<cstring>, ss: set<cstring>)
    requires Ascending(paths) && forall s :: s in paths <==> s in ss
    ensures |Encode(Removes(paths))| == SizeOf(ss) && (set s | s in paths) == ss
  {
    AscendingDistinct(paths);
    SizeOfListing(paths, ss);
    SameLength(Removes(paths), Adds(paths));
  }

  lemma {:induction false} SameLength(a: seq<Edit>, b: seq<Edit>)
    requires |a| == |b| && forall i :: 0 <= i < |a| ==> |a[i].path| == |b[i].path|
    ensures |Encode(a)| == |Encode(b)|
  {
    if a != [] {
      SameLength(a[1..], b[1..]);
    }
  }

  lemma RemovesSnoc(paths: seq<cstring>, i: nat)
    requires i < |paths|
    ensures Removes(paths[..i + 1]) == Removes(paths[..i]) + [Remove(paths[i])]
  {
  }

  lemma AscendingDistinct(ss: seq<cstring>)
    requires Ascending(ss)
    ensures forall i, j :: 0 <= i < j < |ss| ==> ss[i] != ss[j]
  {
    forall i, j | 0 <= i < j < |ss|
      ensures ss[i] != ss[j]
    {
      LessIsStrict(ss[i], ss[j]);
    }
  }
}
