/** The property store: shared, reference-counted property lists with deferred cleanup. */
module PropertyStore {
  import opened Bytes
  import opened CritBitBits
  import opened KeyValueStore
  import opened PackedStore
  import opened PropertyEncoding
  import opened Snappy

  /** An MD5 digest. */
  type Digest = s: seq<byte> | |s| == 16 witness seq(16, _ => 0)

  const PREFIX_BYTES: int := 8

  /** As much of a digest as there is in a pointer. */
  function Prefix(id: Digest): seq<byte> {
    id[..PREFIX_BYTES]
  }

  class PropRef {
    const id: Digest
    var count: int

    constructor (digest: Digest)
      ensures id == digest && count == 0
    {
      id, count := digest, 0;
    }
  }

  ghost function Users(entries: map<cstring, PropRef>, ref: PropRef): set<cstring> {
    set p | p in entries && entries[p] == ref
  }

  /** How many paths use a reference. */
  ghost function Uses(entries: map<cstring, PropRef>, ref: PropRef): nat {
    |Users(entries, ref)|
  }

  lemma UsesMore(entries: map<cstring, PropRef>, path: cstring, ref: PropRef, other: PropRef)
    requires path !in entries
    ensures Uses(entries[path := ref], other) == Uses(entries, other) + if other == ref then 1 else 0
  {
    var before, after := Users(entries, other), Users(entries[path := ref], other);
    assert after == if other == ref then before + {path} else before;
  }

  lemma UsesFewer(entries: map<cstring, PropRef>, path: cstring, other: PropRef)
    requires path in entries
    ensures Uses(entries - {path}, other) == Uses(entries, other) - if other == entries[path] then 1 else 0
    ensures Uses(entries, entries[path]) > 0
  {
    var before, after := Users(entries, other), Users(entries - {path}, other);
    assert before == if other == entries[path] then after + {path} else after;
    assert path in Users(entries, entries[path]);
  }

  lemma NoUsers(entries: map<cstring, PropRef>, ref: PropRef)
    requires ref !in entries.Values
    ensures Uses(entries, ref) == 0
  {
    assert Users(entries, ref) == {};
  }

  lemma SomeUser(entries: map<cstring, PropRef>, ref: PropRef)
    ensures Uses(entries, ref) > 0 <==> ref in entries.Values
  {
    if p :| p in Users(entries, ref) {
      assert entries[p] == ref;
    }
    if ref in entries.Values {
      var p :| p in entries && entries[p] == ref;
      assert p in Users(entries, ref);
    }
  }

  /** A path that moves to a reference leaves the one it had. */
  lemma UsesReplaced(entries: map<cstring, PropRef>, path: cstring, ref: PropRef, other: PropRef)
    ensures Uses(entries[path := ref], other) == Uses(entries, other)
              + (if other == ref then 1 else 0) - (if path in entries && entries[path] == other then 1 else 0)
  {
    if path in entries {
      UsesFewer(entries, path, other);
      UsesMore(entries - {path}, path, ref, other);
      assert (entries - {path})[path := ref] == entries[path := ref];
    } else {
      UsesMore(entries, path, ref, other);
    }
  }

  /** What a path's properties are after they were stored and loaded. */
  ghost function Readback(props: seq<Property>): PropMap {
    Put(map[], Readable(props))
  }

  /** Property lists that can be stored: their sizes fit the 32-bit integers used for them. */
  ghost predicate Storable(props: seq<Property>) {
    Fit(props) && |Serialized(props)| < TWO_31
  }

  lemma StorableSize(props: seq<Property>)
    requires Storable(props)
    ensures |Serialized(props)| < TWO_31
  {
  }

  /** Equal serialized forms read back the same. */
  lemma SameReadback(a: seq<Property>, b: seq<Property>)
    requires Storable(a) && Storable(b) && Serialized(a) == Serialized(b)
    ensures Readback(a) == Readback(b)
  {
    ParseSerialized(a);
    ParseSerialized(b);
  }

  ghost function ContentsOf(entries: map<cstring, PropRef>, data: map<Digest, seq<Property>>): map<cstring, PropMap> {
    map p | p in entries && entries[p].id in data :: Readback(data[entries[p].id])
  }

  lemma ContentsWith(entries: map<cstring, PropRef>, data: map<Digest, seq<Property>>,
                     data': map<Digest, seq<Property>>, path: cstring, ref: PropRef)
    requires forall p :: p in entries ==> entries[p].id in data
    requires ref.id in data' && forall id :: id in data ==> id in data' && data'[id] == data[id]
    ensures ContentsOf(entries[path := ref], data') == ContentsOf(entries, data)[path := Readback(data'[ref.id])]
  {
    hide Readback;
  }

  lemma ContentsWithout(entries: map<cstring, PropRef>, data: map<Digest, seq<Property>>, path: cstring)
    ensures ContentsOf(entries - {path}, data) == ContentsOf(entries, data) - {path}
  {
    hide Readback;
  }

  lemma ContentsKept(entries: map<cstring, PropRef>, data: map<Digest, seq<Property>>, id: Digest)
    requires forall p :: p in entries ==> entries[p].id != id
    ensures ContentsOf(entries, data - {id}) == ContentsOf(entries, data)
  {
    hide Readback;
  }

  /** What is left when the doomed digests were thrown away, except those still to be looked at. */
  ghost function Remaining<V>(m: map<Digest, V>, doomed: set<Digest>, todo: set<seq<byte>>): map<Digest, V> {
    map id | id in m && (Prefix(id) in todo || id !in doomed) :: m[id]
  }

  lemma AllRemain<V>(m: map<Digest, V>, doomed: set<Digest>, todo: set<seq<byte>>)
    requires forall id :: id in doomed ==> Prefix(id) in todo
    ensures Remaining(m, doomed, todo) == m
  {
  }

  lemma NoneRemain<V>(m: map<Digest, V>, doomed: set<Digest>)
    ensures forall id :: id in Remaining(m, doomed, {}) <==> id in m && id !in doomed
    ensures forall id :: id in Remaining(m, doomed, {}) ==> Remaining(m, doomed, {})[id] == m[id]
  {
  }

  /** Looking at the one digest marked under some bytes. */
  lemma RemainingWithout<V>(m: map<Digest, V>, doomed: set<Digest>, todo: set<seq<byte>>, id: Digest)
    requires Prefix(id) in todo && id in m
    requires forall i :: i in doomed && Prefix(i) == Prefix(id) ==> i == id
    ensures id in Remaining(m, doomed, todo) && Remaining(m, doomed, todo)[id] == m[id]
    ensures Remaining(m, doomed, todo - {Prefix(id)}) ==
            if id in doomed then Remaining(m, doomed, todo) - {id} else Remaining(m, doomed, todo)
  {
  }

  lemma ContentsAt(entries: map<cstring, PropRef>, data: map<Digest, seq<Property>>, path: cstring)
    requires path in entries ==> entries[path].id in data
    ensures path in ContentsOf(entries, data) <==> path in entries
    ensures path in entries ==> ContentsOf(entries, data)[path] == Readback(data[entries[path].id])
  {
  }

  /** Reading stored data into a hash adds what was stored. */
  lemma ReconstructStored(props: seq<Property>, m: PropMap)
    requires Storable(props)
    ensures Parse(Serialized(props)).Some?
    ensures Put(m, Parse(Serialized(props)).value) == m + Readback(props)
  {
    ParseSerialized(props);
    PutMerge(m, map[], Readable(props));
    assert m + map[] == m;
  }

  lemma {:induction false} PutMerge(m: PropMap, n: PropMap, ps: seq<Property>)
    ensures Put(m + n, ps) == m + Put(n, ps)
    decreases ps
  {
    if ps != [] {
      PutMerge(m, n[ps[0].key := ps[0].value], ps[1..]);
      assert m + n[ps[0].key := ps[0].value] == (m + n)[ps[0].key := ps[0].value];
    }
  }

  class PropStore {
    const md5: seq<byte> -> Digest  // the digest function
    const db: Mukv
    const env: SnappyEnv
    var refs: map<Digest, PropRef>
    var entries: map<cstring, PropRef>
    var gc: map<seq<byte>, PropRef>  // by the first bytes of the digest: a pointer's worth of it
    ghost var data: map<Digest, seq<Property>>  // what is stored under each digest

    ghost predicate Known(ref: PropRef)
      reads `refs
    {
      ref.id in refs && refs[ref.id] == ref
    }

    /** The database holds the data of every digest. */
    ghost predicate DataValid()
      reads `data, db
    {
      && db.Valid() && env.Valid() && data.Keys == db.Records().Keys
      && (forall id :: id in data ==> Storable(data[id]) && md5(Serialized(data[id])) == id)
      && (forall id :: id in data ==> Stored(db.Records()[id], Serialized(data[id])))
    }

    /** By how much a count exceeds the number of paths that use the reference. */
    ghost function Excess(id: Digest): int
      requires id in refs
      reads `refs, `entries, refs.Values
    {
      refs[id].count - Uses(entries, refs[id])
    }

    /** Every reference has data and at least as many counts as users. */
    ghost predicate RefsValid()
      reads `refs, `entries, `data, refs.Values
    {
      && refs.Keys == data.Keys
      && (forall id :: id in refs ==> refs[id].id == id && Excess(id) >= 0)
      && (forall p :: p in entries ==> Known(entries[p]))
    }

    ghost predicate Valid()
      reads this, db, refs.Values
    {
      DataValid() && RefsValid() && MarksValid()
    }

    /** What is marked is a reference, under the bytes its digest begins with. */
    ghost predicate MarksValid()
      reads `refs, `gc
    {
      forall g :: g in gc ==> Known(gc[g]) && Prefix(gc[g].id) == g
    }

    /** The properties each path has. */
    ghost function Contents(): map<cstring, PropMap>
      reads `entries, `data
    {
      ContentsOf(entries, data)
    }

    ghost predicate CountsExact()
      reads `refs, `entries, refs.Values
    {
      forall id :: id in refs ==> Excess(id) == 0
    }

    /** No count is too high, and what is unused waits for cleanup. */
    ghost predicate Exact()
      reads this, refs.Values
    {
      CountsExact() && UnusedMarked()
    }

    ghost predicate UnusedMarked()
      reads `refs, `gc, refs.Values
    {
      forall id :: id in refs && refs[id].count <= 0 ==> Prefix(id) in gc
    }

    /** The digests can be told apart by their first bytes. */
    ghost predicate PrefixesDistinct()
      reads `refs
    {
      forall i, j :: i in refs && j in refs && Prefix(i) == Prefix(j) ==> i == j
    }

    /** Cleanup throws this away. */
    ghost predicate Doomed(id: Digest)
      requires id in refs
      reads this, refs.Values
    {
      Prefix(id) in gc && gc[Prefix(id)] == refs[id] && refs[id].count <= 0
    }

    /** The data does not collide with other data stored. */
    ghost predicate NoCollision(props: seq<Property>)
      reads `data
    {
      var s := Serialized(props);
      md5(s) in data ==> Serialized(data[md5(s)]) == s
    }

    constructor (digest: seq<byte> -> Digest)
      ensures Valid() && Exact() && Contents() == map[] && md5 == digest && data == map[]
      ensures fresh(db) && fresh(env.hashTable) && fresh(env.scratch) && refs == map[]
    {
      md5 := digest;
      db := new Mukv();
      env := new SnappyEnv();
      refs, entries, gc, data := map[], map[], map[], map[];
    }

    /**
     * Saves the properties of a path. An older entry of the path is replaced, or removed when
     * there are no properties; the count of its reference stays as it is in either case.
     */
    method Store(path: cstring, props: seq<Property>) returns (code: int)
      requires Valid() && Storable(props) && NoCollision(props)
      modifies this, db, env.hashTable, env.scratch, refs.Values
      ensures Valid() && code == 0 && fresh(refs.Values - old(refs.Values))
      ensures Contents() == if props == [] then old(Contents()) - {path}
                            else old(Contents())[path := Readback(props)]
      ensures CountsExact() <==> old(CountsExact()) && path !in old(entries)
      ensures old(Exact()) && path !in old(entries) ==> Exact()
      ensures forall id :: id in data ==> (id in old(data) && data[id] == old(data)[id]) || data[id] == props
    {
      hide Storable, Serialized, Stored, DataValid, Uses, Readback, ContentsOf, CountsExact, Excess, UnusedMarked;
      if |props| == 0 {
        ContentsWithout(entries, data, path);
        Detach(path);
        return 0;
      }
      StoreSome(path, props);
      return 0;
    }

    /** Stores a list that is not empty, sharing the data with paths that have the same. */
    method StoreSome(path: cstring, props: seq<Property>)
      requires Valid() && Storable(props) && NoCollision(props)
      modifies this, db, env.hashTable, env.scratch, refs.Values
      ensures Valid() && entries.Keys == old(entries.Keys) + {path} && fresh(refs.Values - old(refs.Values))
      ensures Contents() == old(Contents())[path := Readback(props)]
      ensures CountsExact() <==> old(CountsExact()) && path !in old(entries)
      ensures old(Exact()) && path !in old(entries) ==> Exact()
      ensures forall id :: id in data ==> (id in old(data) && data[id] == old(data)[id]) || data[id] == props
    {
      hide Storable, Serialized, Stored, DataValid, RefsValid, MarksValid, UnusedMarked, Uses, Readback, ContentsOf,
           CountsExact, Excess;
      EntriesHaveData();
      var a := Serialize(props);
      var ref := Acquire(a[..], props);
      ContentsWith(entries, old(data), data, path, ref);
      Attach(path, ref);
      MarksExtended(ref);
    }

    /** What an entry refers to has data. */
    lemma EntriesHaveData()
      requires RefsValid()
      ensures forall p :: p in entries ==> entries[p].id in data
    {
    }

    /** Each reference is listed under its digest and has data. */
    lemma RefsNamed()
      requires RefsValid()
      ensures forall id :: id in refs ==> refs[id].id == id && id in data
    {
    }

    /** A reference that is counted up needs no mark. */
    twostate lemma MarksExtended(new ref: PropRef)
      requires old(MarksValid()) && gc == old(gc) && ref.count > 0
      requires forall id :: id in old(refs) ==>
                 id in refs && refs[id] == old(refs)[id] && (refs[id] != ref ==> refs[id].count == old(refs[id].count))
      requires forall id :: id in refs && id !in old(refs) ==> refs[id] == ref
      ensures MarksValid() && (old(UnusedMarked()) ==> UnusedMarked())
    {
    }

    /** The reference for some data; a new one has no count yet. */
    method Acquire(s: seq<byte>, ghost props: seq<Property>) returns (ref: PropRef)
      requires DataValid() && RefsValid() && Storable(props) && NoCollision(props) && s == Serialized(props)
      modifies `refs, `data, db, env.hashTable, env.scratch
      ensures DataValid() && RefsValid() && Known(ref) && ref.id in data && Readback(data[ref.id]) == Readback(props)
      ensures forall id :: id in data <==> id in refs
      ensures forall id :: id in old(refs) ==> id in refs && refs[id] == old(refs)[id]
      ensures forall id :: id in old(data) ==> id in data && data[id] == old(data)[id]
      ensures forall id :: id in data ==> id in old(data) || data[id] == props
      ensures forall id :: id in refs && id !in old(refs) ==> refs[id] == ref && data[id] == props && fresh(ref)
      ensures CountsExact() <==> old(CountsExact())
    {
      hide Storable, Serialized, DataValid, Uses, Readback, CountsExact, Excess;
      var id := md5(s);
      if id !in refs {
        Register(id, s, props);
      } else {
        SharedData(id, props);
      }
      ref := refs[id];
    }

    lemma SharedData(id: Digest, props: seq<Property>)
      requires DataValid() && id in data && Storable(props) && NoCollision(props) && md5(Serialized(props)) == id
      ensures Readback(data[id]) == Readback(props)
    {
      SameReadback(data[id], props);
    }

    /** Adds a reference that nothing uses yet, and its data. */
    method Register(id: Digest, s: seq<byte>, ghost props: seq<Property>)
      requires DataValid() && RefsValid() && id !in refs && s == Serialized(props) && md5(s) == id && Storable(props)
      modifies `refs, `data, db, env.hashTable, env.scratch
      ensures DataValid() && RefsValid() && id in refs && fresh(refs[id]) && refs[id].count == 0
      ensures refs == old(refs)[id := refs[id]] && data == old(data)[id := props]
      ensures CountsExact() <==> old(CountsExact())
    {
      hide DataValid, Uses;
      var ref := new PropRef(id);
      NoUsers(entries, ref);
      SaveData(id, s, props);
      refs := refs[id := ref];
      forall i | i in old(refs)
        ensures Excess(i) == old(Excess(i))
      {
      }
    }

    method SaveData(id: Digest, s: seq<byte>, ghost props: seq<Property>)
      requires DataValid() && id !in data && s == Serialized(props) && md5(s) == id && Storable(props)
      modifies `data, db, env.hashTable, env.scratch
      ensures DataValid() && data == old(data)[id := props]
    {
      hide Storable, Serialized, Stored;
      StorableSize(props);
      Pack(db, env, id, s);
      data := data[id := props];
    }

    /** Makes a reference that of a path, and counts it. */
    method Attach(path: cstring, ref: PropRef)
      requires RefsValid() && Known(ref)
      modifies `entries, ref`count
      ensures RefsValid() && entries == old(entries)[path := ref] && ref.count == old(ref.count) + 1 > 0
      ensures CountsExact() <==> old(CountsExact()) && path !in old(entries)
    {
      hide Uses;
      entries := entries[path := ref];
      ref.count := ref.count + 1;
      forall id | id in refs
        ensures Excess(id) >= old(Excess(id)) && (path !in old(entries) ==> Excess(id) == old(Excess(id)))
      {
        UsesReplaced(old(entries), path, ref, refs[id]);
      }
      if path in old(entries) {
        UsesReplaced(old(entries), path, ref, old(entries)[path]);
      }
    }

    /** Removes the entry of a path, if it has one. Its reference is not told. */
    method Detach(path: cstring)
      requires RefsValid()
      modifies `entries
      ensures RefsValid() && entries == old(entries) - {path}
      ensures CountsExact() <==> old(CountsExact()) && path !in old(entries)
    {
      hide Uses;
      entries := entries - {path};
      if path in old(entries) {
        forall id | id in refs
          ensures Excess(id) >= old(Excess(id))
        {
          UsesFewer(old(entries), path, refs[id]);
        }
        UsesFewer(old(entries), path, old(entries)[path]);
      } else {
        assert entries == old(entries);
      }
    }

    /** Adds the stored properties of a path to a hash, and releases them. */
    method Load(path: cstring, props: PropMap) returns (code: int, r: PropMap)
      requires Valid()
      modifies `entries, `gc, refs.Values
      ensures Valid() && code == 0 && Contents() == old(Contents()) - {path} && entries == old(entries) - {path}
      ensures r == if path in old(Contents()) then props + old(Contents())[path] else props
      ensures (CountsExact() <==> old(CountsExact())) && (old(Exact()) ==> Exact())
    {
      hide DataValid, Uses, Readback, ContentsOf, CountsExact, Excess;
      ContentsWithout(entries, data, path);
      ContentsAt(entries, data, path);
      if path !in entries {
        assert entries - {path} == entries;
        return 0, props;
      }
      code, r := Read(entries[path], props);
      if code == 0 {
        Release(path);
      }
    }

    /** Reads the data of a reference into a hash. */
    method Read(ref: PropRef, props: PropMap) returns (code: int, r: PropMap)
      requires DataValid() && ref.id in data
      ensures code == 0 && r == props + Readback(data[ref.id])
    {
      hide Storable, Serialized, Stored;
      var val := db.Fetch(ref.id);
      var dptr;
      code, dptr := Unpack(val.value, Serialized(data[ref.id]));
      if code == 0 {
        ReconstructStored(data[ref.id], props);
        r := Reconstruct(props, dptr);
      } else {
        r := props;
      }
    }

    /** Releases the properties of a path. */
    method Delete(path: cstring) returns (code: int)
      requires Valid()
      modifies `entries, `gc, refs.Values
      ensures Valid() && code == 0 && Contents() == old(Contents()) - {path} && entries == old(entries) - {path}
      ensures (CountsExact() <==> old(CountsExact())) && (old(Exact()) ==> Exact())
    {
      hide DataValid, Uses, Readback, ContentsOf, CountsExact, Excess;
      ContentsWithout(entries, data, path);
      code := 0;
      if path !in entries {
        assert entries - {path} == entries;
        return;
      }
      Release(path);
    }

    /**
     * Removes an entry and counts its reference down. What nothing uses is marked for cleanup,
     * unless another reference is marked under the same bytes: the table keeps its first key.
     */
    method Release(path: cstring)
      requires Valid() && path in entries
      modifies `entries, `gc, refs.Values
      ensures Valid() && entries == old(entries) - {path}
      ensures var ref := old(entries)[path];
              && ref.count == old(ref.count) - 1
              && (forall id :: id in refs && refs[id] != ref ==> refs[id].count == old(refs[id].count))
              && gc == if ref.count <= 0 && ref.id[..8] !in old(gc) then old(gc)[ref.id[..8] := ref] else old(gc)
      ensures (CountsExact() <==> old(CountsExact())) && (old(Exact()) ==> Exact())
    {
      hide DataValid, Uses;
      var ref := entries[path];
      entries := entries - {path};
      ref.count := ref.count - 1;
      if ref.count <= 0 && Prefix(ref.id) !in gc {
        gc := gc[Prefix(ref.id) := ref];
      }
      forall id | id in refs
        ensures Excess(id) == old(Excess(id))
      {
        UsesFewer(old(entries), path, refs[id]);
      }
    }

    /** Throws away what is marked and unused. No path loses its properties. */
    method Cleanup() returns (code: int)
      requires Valid()
      modifies `refs, `gc, `data, db
      ensures Valid() && code == 0 && Contents() == old(Contents()) && gc == map[]
      ensures forall id :: id in refs <==> id in old(refs) && !old(Doomed(id))
      ensures forall id :: id in refs ==> refs[id] == old(refs)[id] && data[id] == old(data)[id]
      ensures refs.Values <= old(refs.Values)
      ensures CountsExact() <==> old(CountsExact())
      ensures old(Exact()) && old(PrefixesDistinct()) ==>
                Exact() && forall id :: id in refs ==> refs[id] in entries.Values
    {
      hide DataValid, RefsValid, MarksValid, Uses, Excess, CountsExact, UnusedMarked, ContentsOf, Prefix, Remaining;
      code := 0;
      ghost var doomed := set id | id in refs && Doomed(id);
      var todo := gc.Keys;
      AllDoomedMarked(doomed);
      RefsNamed();
      while todo != {}
        invariant gc == old(gc) && todo <= gc.Keys && DataValid() && RefsValid() && Contents() == old(Contents())
        invariant refs == Remaining(old(refs), doomed, todo) && data == Remaining(old(data), doomed, todo)
      {
        var g :| g in todo;
        var ref := gc[g];
        MarkedStep(doomed, todo, g);
        if ref.count <= 0 {
          Discard(ref);
        }
        todo := todo - {g};
      }
      gc := map[];
      CleanedUp(doomed);
    }

    lemma AllDoomedMarked(doomed: set<Digest>)
      requires forall id :: id in doomed ==> id in refs && Doomed(id)
      ensures Remaining(refs, doomed, gc.Keys) == refs && Remaining(data, doomed, gc.Keys) == data
    {
      hide Prefix, Remaining;
      AllRemain(refs, doomed, gc.Keys);
      AllRemain(data, doomed, gc.Keys);
    }

    /** Looking at one mark: its reference is still there, and goes if it is unused. */
    twostate lemma MarkedStep(new doomed: set<Digest>, new todo: set<seq<byte>>, new g: seq<byte>)
      requires old(MarksValid()) && gc == old(gc) && g in todo && todo <= gc.Keys
      requires forall id :: id in old(refs) ==> old(refs)[id].id == id && id in old(data)
      requires refs == Remaining(old(refs), doomed, todo) && data == Remaining(old(data), doomed, todo)
      requires forall id :: id in doomed <==> id in old(refs) && old(Doomed(id))
      requires forall id :: id in old(refs) ==> old(refs)[id].count == old(refs[id].count)
      ensures Known(gc[g])
      ensures var ref := gc[g];
              && Remaining(old(refs), doomed, todo - {g}) == (if ref.count <= 0 then refs - {ref.id} else refs)
              && Remaining(old(data), doomed, todo - {g}) == (if ref.count <= 0 then data - {ref.id} else data)
    {
      hide Prefix, Remaining, Excess;
      RemainingWithout(old(refs), doomed, todo, gc[g].id);
      RemainingWithout(old(data), doomed, todo, gc[g].id);
    }

    /** What was dropped had no count and no user. */
    twostate lemma CleanedUp(new doomed: set<Digest>)
      requires old(RefsValid() && MarksValid()) && RefsValid() && entries == old(entries) && gc == map[]
      requires refs == Remaining(old(refs), doomed, {}) && data == Remaining(old(data), doomed, {})
      requires forall id :: id in doomed <==> id in old(refs) && old(Doomed(id))
      requires forall id :: id in old(refs) ==> old(refs)[id].count == old(refs[id].count)
      ensures MarksValid() && refs.Values <= old(refs.Values)
      ensures forall id :: id in refs <==> id in old(refs) && !old(Doomed(id))
      ensures forall id :: id in refs ==> refs[id] == old(refs)[id] && data[id] == old(data)[id]
      ensures CountsExact() <==> old(CountsExact())
      ensures old(Exact()) && old(PrefixesDistinct()) ==>
                Exact() && forall id :: id in refs ==> refs[id] in entries.Values
    {
      hide Prefix, Remaining, Uses;
      NoneRemain(old(refs), doomed);
      NoneRemain(old(data), doomed);
      ReferencesUsed();
    }

    /** When counts are exact, everything counted is used. */
    lemma ReferencesUsed()
      ensures CountsExact() ==> forall id :: id in refs && refs[id].count > 0 ==> refs[id] in entries.Values
    {
      forall id | id in refs
        ensures Uses(entries, refs[id]) > 0 <==> refs[id] in entries.Values
      {
        SomeUser(entries, refs[id]);
      }
    }

    /** Drops a reference that nothing uses, and its data. */
    method Discard(ref: PropRef)
      requires DataValid() && RefsValid() && Known(ref) && ref.count <= 0
      modifies `refs, `data, db
      ensures DataValid() && RefsValid() && refs == old(refs) - {ref.id} && data == old(data) - {ref.id}
      ensures Contents() == old(Contents())
    {
      hide DataValid, Uses, ContentsOf;
      SomeUser(entries, ref);
      ContentsKept(entries, data, ref.id);
      refs := refs - {ref.id};
      DropData(ref.id);
    }

    method DropData(id: Digest)
      requires DataValid()
      modifies `data, db
      ensures DataValid() && data == old(data) - {id}
    {
      hide Storable, Serialized, Stored;
      db.Delete(id);
      data := data - {id};
    }
  }
}
