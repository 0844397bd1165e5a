/** Append-only value file with an index. */
module KeyValueStore {
  import opened Bytes

  type Key = seq<byte>

  datatype Entry = Entry(off: nat, size: nat)

  class Mukv {
    var file: seq<byte>
    var index: map<Key, Entry>

    ghost predicate Valid()
      reads this
    {
      forall k :: k in index ==> index[k].off + index[k].size <= |file|
    }

    /** The records that can be fetched. */
    ghost function Records(): map<Key, seq<byte>>
      requires Valid()
      reads this
    {
      map k | k in index :: file[index[k].off..index[k].off + index[k].size]
    }

    constructor ()
      ensures Valid() && Records() == map[]
    {
      file, index := [], map[];
    }

    /** Appends the value to the file; the index forgets where an older value was. */
    method Store(key: Key, val: seq<byte>)
      requires Valid()
      modifies this
      ensures Valid() && Records() == old(Records())[key := val]
    {
      ghost var before := file;
      var entry := Entry(|file|, |val|);
      file := file + val;
      index := index[key := entry];
      AppendedSlice(before, val);
      forall k | k in index
        ensures file[index[k].off..index[k].off + index[k].size] == old(Records())[key := val][k]
      {
        if k != key {
          PrefixSlice(before, val, index[k].off, index[k].off + index[k].size);
        }
      }
    }

    method Fetch(key: Key) returns (val: Option<seq<byte>>)
      requires Valid()
      ensures val == if key in Records() then Some(Records()[key]) else None
    {
      if key !in index {
        return None;
      }
      var entry := index[key];
      val := Some(file[entry.off..entry.off + entry.size]);
    }

    /** Forgets a key and no other; the bytes of its value stay where they are. */
    method Delete(key: Key)
      requires Valid()
      modifies this
      ensures Valid() && Records() == old(Records()) - {key}
    {
      index := index - {key};
    }

    method Exists(key: Key) returns (found: bool)
      requires Valid()
      ensures found <==> key in Records()
    {
      found := key in index;
    }
  }

  lemma AppendedSlice<T>(a: seq<T>, b: seq<T>)
    ensures (a + b)[|a|..|a| + |b|] == b
  {
  }

  lemma PrefixSlice<T>(a: seq<T>, b: seq<T>, i: nat, j: nat)
    requires i <= j <= |a|
    ensures (a + b)[i..j] == a[i..j]
  {
  }
}
