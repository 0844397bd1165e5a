/** Compressed records of the key/value store, as the path repository and the property store keep them. */
module PackedStore {
  import opened Bytes
  import opened KeyValueStore
  import opened Snappy
  import opened SnappyCompress
  import opened SnappyDecompress
  import opened SnappyFormat
  import opened SnappyVarint

  /** A stored value from which the codec gets the data back. */
  ghost predicate Stored(val: seq<byte>, data: seq<byte>) {
    && |val| < TWO_32 && |data| < TWO_31
    && Decode(val) == Some(data)
    && VarintParse32(val).Some? && VarintParse32(val).value.Value() == |data|
  }

  /** Compresses the data and stores it under the key. */
  method Pack(db: Mukv, env: SnappyEnv, key: Key, data: seq<byte>)
    requires db.Valid() && env.Valid() && |data| < TWO_31
    modifies db, env.hashTable, env.scratch
    ensures db.Valid() && key in db.Records() && Stored(db.Records()[key], data)
    ensures db.Records() == old(db.Records())[key := db.Records()[key]]
  {
    hide Decode, VarintParse32;
    var dptr := new byte[MaxCompressedLength(|data|)];
    var dsize := Compress(env, data, dptr);
    db.Store(key, dptr[..dsize]);
  }

  /** Uncompresses a stored value. */
  method Unpack(val: seq<byte>, ghost expected: seq<byte>) returns (code: int, data: seq<byte>)
    requires Stored(val, expected)
    ensures code == 0 && data == expected
  {
    ReadersAgree(val);
    hide Decode, VarintParse32, ReadPreamble;
    code, data := -1, [];
    var dsize := UncompressedLength(val);
    if dsize.Some? {
      var dptr := new byte[dsize.value];
      code := Uncompress(val, dptr);
      data := dptr[..];
      assert data == dptr[..dsize.value];
    }
  }
}
