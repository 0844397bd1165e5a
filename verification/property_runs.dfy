/** Whole runs of the property store against the plain map from paths to properties. */
module PropertyRuns {
  import opened Bytes
  import opened CritBitBits
  import opened PropertyEncoding
  import opened PropertyStore

  datatype Op =
    | Store(path: cstring, props: seq<Property>)
    | Load(path: cstring)
    | Delete(path: cstring)
    | Cleanup

  type Model = map<cstring, PropMap>

  /** What an operation does to the map; a load takes the properties out. */
  ghost function Next(m: Model, op: Op): Model {
    match op
    case Store(path, props) => if props == [] then m - {path} else m[path := Readback(props)]
    case Load(path) => m - {path}
    case Delete(path) => m - {path}
    case Cleanup => m
  }

  ghost function After(ops: seq<Op>): Model {
    if ops == [] then map[] else Next(After(ops[..|ops| - 1]), ops[|ops| - 1])
  }

  /** What the loads of a run give, in order: the properties stored last for the path, if any. */
  ghost function Answers(ops: seq<Op>): seq<PropMap> {
    if ops == [] then [] else
      var before, op := ops[..|ops| - 1], ops[|ops| - 1];
      Answers(before) + if op.Load? then [Found(After(before), op.path)] else []
  }

  ghost function Found(m: Model, path: cstring): PropMap {
    if path in m then m[path] else map[]
  }

  /** No path is stored again before it was loaded or deleted. */
  ghost predicate Disciplined(ops: seq<Op>) {
    forall i :: 0 <= i < |ops| && ops[i].Store? ==> ops[i].path !in After(ops[..i])
  }

  ghost function Lists(ops: seq<Op>): set<seq<Property>> {
    set i | 0 <= i < |ops| && ops[i].Store? :: ops[i].props
  }

  /** The digest tells the serialized lists apart. */
  ghost predicate CollisionFree(digest: seq<byte> -> Digest, lists: set<seq<Property>>) {
    forall a, b :: a in lists && b in lists && digest(Serialized(a)) == digest(Serialized(b)) ==>
      Serialized(a) == Serialized(b)
  }

  ghost predicate AllStorable(lists: set<seq<Property>>) {
    forall a :: a in lists ==> Storable(a)
  }

  ghost predicate DataFrom(store: PropStore, lists: set<seq<Property>>)
    reads store`data
  {
    forall id :: id in store.data ==> store.data[id] in lists
  }

  lemma NoCollisionNow(store: PropStore, lists: set<seq<Property>>, props: seq<Property>)
    requires store.Valid() && DataFrom(store, lists) && CollisionFree(store.md5, lists) && props in lists
    ensures store.NoCollision(props)
  {
    hide Storable, Serialized, PropStore.RefsValid;
    var id := store.md5(Serialized(props));
    if id in store.data {
      assert store.md5(Serialized(store.data[id])) == id;
    }
  }

  lemma Listed(lists: set<seq<Property>>, props: seq<Property>)
    requires AllStorable(lists) && props in lists
    ensures Storable(props)
  {
  }

  /** What is stored for a path and loaded is the whole of it if and only if no key is empty. */
  lemma StoredWhole(props: seq<Property>)
    requires Storable(props) && Distinct(props)
    ensures Readback(props) == Put(map[], props) <==> KeysNonEmpty(props)
  {
    ParseSerialized(props);
    RoundTrip(props);
  }

  /** The paths that have an entry are those that have properties. */
  lemma SameKeys(store: PropStore)
    requires store.Valid()
    ensures store.data.Keys == store.refs.Keys
    ensures store.Contents().Keys == store.entries.Keys
  {
  }

  /** One operation. */
  method Do(store: PropStore, op: Op, ghost lists: set<seq<Property>>) returns (answer: seq<PropMap>)
    requires store.Valid() && DataFrom(store, lists) && CollisionFree(store.md5, lists) && AllStorable(lists)
    requires op.Store? ==> op.props in lists
    modifies store, store.db, store.env.hashTable, store.env.scratch, store.refs.Values
    ensures store.Valid() && DataFrom(store, lists) && fresh(store.refs.Values - old(store.refs.Values))
    ensures store.Contents() == Next(old(store.Contents()), op)
    ensures answer == if op.Load? then [Found(old(store.Contents()), op.path)] else []
    ensures store.CountsExact() <==>
            old(store.CountsExact()) && (op.Store? ==> op.path !in old(store.Contents()))
  {
    hide PropStore.Valid, PropStore.Contents, PropStore.CountsExact, PropStore.Exact, PropStore.Doomed;
    hide PropStore.PrefixesDistinct, PropStore.NoCollision, CollisionFree, Storable, Readback;
    SameKeys(store);
    answer := [];
    var code;
    match op {
      case Store(path, props) =>
        NoCollisionNow(store, lists, props);
        Listed(lists, props);
        code := store.Store(path, props);
      case Load(path) =>
        var props;
        code, props := store.Load(path, map[]);
        assert props == Found(old(store.Contents()), path);
        answer := [props];
      case Delete(path) =>
        code := store.Delete(path);
      case Cleanup =>
        code := store.Cleanup();
        SameKeys(store);
    }
  }

  /**
   * Any run from an empty store: every load gives what was stored last, whatever cleanups came in
   * between, and the counts are exact if and only if no path was stored over.
   */
  method Perform(digest: seq<byte> -> Digest, ops: seq<Op>) returns (store: PropStore, answers: seq<PropMap>)
    requires CollisionFree(digest, Lists(ops)) && AllStorable(Lists(ops))
    ensures store.Valid() && store.md5 == digest && DataFrom(store, Lists(ops))
    ensures store.Contents() == After(ops) && answers == Answers(ops)
    ensures store.CountsExact() <==> Disciplined(ops)
  {
    hide PropStore.Valid, PropStore.Contents, PropStore.CountsExact, Next, CollisionFree, AllStorable;
    store := new PropStore(digest);
    answers := [];
    for i := 0 to |ops|
      invariant store.Valid() && DataFrom(store, Lists(ops)) && store.md5 == digest
      invariant fresh(store) && fresh(store.db) && fresh(store.env.hashTable) && fresh(store.env.scratch)
      invariant fresh(store.refs.Values)
      invariant store.Contents() == After(ops[..i]) && answers == Answers(ops[..i])
      invariant store.CountsExact() <==> Disciplined(ops[..i])
    {
      var answer := Do(store, ops[i], Lists(ops));
      answers := answers + answer;
      RunSnoc(ops, i);
    }
    assert ops[..|ops|] == ops;
  }

  lemma RunSnoc(ops: seq<Op>, i: nat)
    requires i < |ops|
    ensures After(ops[..i + 1]) == Next(After(ops[..i]), ops[i])
    ensures Answers(ops[..i + 1]) ==
            Answers(ops[..i]) + if ops[i].Load? then [Found(After(ops[..i]), ops[i].path)] else []
    ensures Disciplined(ops[..i + 1]) <==>
            Disciplined(ops[..i]) && (ops[i].Store? ==> ops[i].path !in After(ops[..i]))
  {
    var now := ops[..i + 1];
    assert now[..i] == ops[..i] && now[i] == ops[i];
    forall j | 0 <= j <= i
      ensures now[..j] == ops[..j] && now[j] == ops[j]
      ensures j < i ==> ops[..i][..j] == ops[..j] && ops[..i][j] == ops[j]
    {
    }
    if Disciplined(now) {
      forall j | 0 <= j < i && ops[..i][j].Store?
        ensures ops[..i][j].path !in After(ops[..i][..j])
      {
        assert now[j].Store?;
      }
    }
  }
}
