/** The public entry points of the codec, and the law they obey together. */
module Snappy {
  import opened Bytes
  import opened SnappyCompress
  import opened SnappyDecompress
  import opened SnappyFormat
  import opened SnappyVarint

  /** Working memory of the compressor; nothing in it survives a call. */
  class SnappyEnv {
    const hashTable: array<u16>
    const scratch: array<byte>

    constructor ()
      ensures Valid() && fresh(hashTable) && fresh(scratch)
    {
      hashTable := new u16[MAX_HASH_TABLE_SIZE];
      scratch := new byte[BLOCK_SIZE];
    }

    ghost predicate Valid() {
      hashTable.Length == MAX_HASH_TABLE_SIZE && scratch.Length == BLOCK_SIZE
    }
  }

  /** An upper bound on what `n` bytes compress to: the preamble, one byte in sixty for literal
      headers, and one more for each block. */
  ghost predicate WithinBudget(dest: nat, n: nat, blocks: nat) {
    60 * dest <= 61 * n + 60 * blocks + 60 * MAX_VARINT_BYTES
  }

  /** Gets the next block: directly from the reader when the reader has it in one piece,
      otherwise collected piece by piece in the scratch buffer. */
  method NextBlock(env: SnappyEnv, reader: Source, numToRead: nat) returns (fragment: seq<byte>, pendingAdvance: nat)
    requires env.Valid() && reader.Valid() && 0 < numToRead <= BLOCK_SIZE && reader.pos + numToRead <= |reader.data|
    modifies env.scratch, reader
    ensures reader.Valid() && reader.pos + pendingAdvance == old(reader.pos) + numToRead
    ensures fragment == reader.data[old(reader.pos)..old(reader.pos) + numToRead]
  {
    ghost var start := reader.pos;
    var bytesRead := reader.Peek();
    pendingAdvance := 0;
    if bytesRead >= numToRead {
      pendingAdvance := numToRead;
      fragment := reader.data[reader.pos..reader.pos + numToRead];
    } else {
      forall i | 0 <= i < bytesRead {
        env.scratch[i] := reader.data[reader.pos + i];
      }
      reader.Skip(bytesRead);
      while bytesRead < numToRead
        invariant reader.Valid() && bytesRead <= numToRead && reader.pos == start + bytesRead
        invariant forall i :: 0 <= i < bytesRead ==> env.scratch[i] == reader.data[start + i]
      {
        var fragmentSize := reader.Peek();
        var n := Min(fragmentSize, numToRead - bytesRead);
        forall i | 0 <= i < n {
          env.scratch[bytesRead + i] := reader.data[reader.pos + i];
        }
        bytesRead := bytesRead + n;
        reader.Skip(n);
      }
      fragment := env.scratch[..numToRead];
    }
  }

  /** Writes the length preamble. */
  method WritePreamble(a: array<byte>, n: nat) returns (dest: nat)
    requires n < TWO_32 && a.Length >= MAX_VARINT_BYTES
    modifies a
    ensures dest <= MAX_VARINT_BYTES && a[..dest] == Varint(n)
  {
    var ulength := new byte[MAX_VARINT_BYTES];
    dest := VarintEncode32(ulength, n);
    forall i | 0 <= i < dest {
      a[i] := ulength[i];
    }
  }

  function BlockCount(n: nat): nat {
    (n + BLOCK_SIZE - 1) / BLOCK_SIZE
  }

  /** Compresses the next block behind the output of the previous ones. */
  method CompressBlock(env: SnappyEnv, reader: Source, a: array<byte>, origin: nat, numToRead: nat,
                       ghost preamble: seq<byte>)
    returns (dest: nat)
    requires env.Valid() && env.scratch != a && reader.Valid() && |reader.data| < TWO_31
    requires 0 < numToRead <= BLOCK_SIZE && reader.pos + numToRead <= |reader.data|
    requires a.Length >= MaxCompressedLength(|reader.data|) && origin <= a.Length
    requires reader.pos % BLOCK_SIZE == 0 && WithinBudget(origin, reader.pos, BlockCount(reader.pos))
    requires Encodes(a[..origin], preamble, reader.data[..reader.pos])
    modifies env.hashTable, env.scratch, reader, a
    ensures reader.Valid() && reader.pos == old(reader.pos) + numToRead && dest <= a.Length
    ensures numToRead == BLOCK_SIZE ==> reader.pos % BLOCK_SIZE == 0
    ensures WithinBudget(dest, reader.pos, BlockCount(reader.pos))
    ensures Encodes(a[..dest], preamble, reader.data[..reader.pos])
  {
    hide DecodeBody, Encodes, WithinBudget, BlockCount, HasRoom, TableFits, MaxCompressedLength;
    ghost var done := reader.pos;
    var fragment, pendingAdvance := NextBlock(env, reader, numToRead);
    RoomForBlock(a, origin, |reader.data|, done, numToRead);
    dest := CompressNext(env, fragment, a, origin, preamble, reader.data[..done]);
    BudgetStep(origin, dest, done, numToRead);
    EncodesUpTo(a[..dest], preamble, reader.data, done, fragment, reader.pos + pendingAdvance);
    reader.Skip(pendingAdvance);
  }

  /** Compresses a block with a table of its own. */
  method CompressNext(env: SnappyEnv, fragment: seq<byte>, a: array<byte>, origin: nat,
                      ghost preamble: seq<byte>, ghost prior: seq<byte>)
    returns (dest: nat)
    requires env.Valid() && 0 < |fragment| <= BLOCK_SIZE
    requires HasRoom(a, origin, |fragment|) && Encodes(a[..origin], preamble, prior)
    modifies env.hashTable, a
    ensures origin <= dest <= a.Length && 60 * (dest - origin) <= 61 * |fragment| + 60
    ensures Encodes(a[..dest], preamble, prior + fragment)
  {
    hide DecodeBody, Encodes, HasRoom, TableFits;
    var tableSize := GetHashTable(env.hashTable, |fragment|);
    dest := CompressFragment(fragment, a, origin, env.hashTable, tableSize, preamble, prior);
  }

  /** Writes the length, then compresses block after block. */
  method CompressAll(env: SnappyEnv, reader: Source, a: array<byte>) returns (dest: nat)
    requires env.Valid() && env.scratch != a && reader.Valid() && reader.pos == 0 && |reader.data| < TWO_31
    requires a.Length >= MaxCompressedLength(|reader.data|)
    modifies env.hashTable, env.scratch, reader, a
    ensures dest <= a.Length && Decode(a[..dest]) == Some(reader.data)
    ensures VarintParse32(a[..dest]) == Some(Preamble(|reader.data|, |Varint(|reader.data|)|))
    ensures 60 * dest <= 61 * |reader.data| + 60 * ((|reader.data| + 32767) / 32768) + 300
  {
    hide DecodeBody;
    ghost var data := reader.data;
    var n := reader.Available();
    dest := WritePreamble(a, n);
    ghost var preamble := Varint(n);
    EncodesNothing(preamble, data);
    assert reader.pos == 0 && BlockCount(0) == 0;
    while n > 0
      invariant reader.Valid() && reader.pos + n == |data| && dest <= a.Length
      invariant n > 0 ==> reader.pos % BLOCK_SIZE == 0
      invariant WithinBudget(dest, reader.pos, BlockCount(reader.pos))
      invariant Encodes(a[..dest], preamble, data[..reader.pos])
    {
      var numToRead := Min(n, BLOCK_SIZE);
      dest := CompressBlock(env, reader, a, dest, numToRead, preamble);
      n := n - numToRead;
    }
    StreamDecodes(a[..dest], data, reader.pos);
  }

  /** The announced buffer size leaves room for the next block. */
  lemma RoomForBlock(a: array<byte>, dest: nat, total: nat, done: nat, size: nat)
    requires a.Length >= MaxCompressedLength(total)
    requires done + size <= total && done % BLOCK_SIZE == 0 && 0 < size <= BLOCK_SIZE
    requires WithinBudget(dest, done, BlockCount(done))
    ensures HasRoom(a, dest, size)
    ensures BlockCount(done + size) == BlockCount(done) + 1
    ensures size == BLOCK_SIZE ==> (done + size) % BLOCK_SIZE == 0
  {
  }

  lemma BudgetStep(origin: nat, dest: nat, done: nat, size: nat)
    requires WithinBudget(origin, done, BlockCount(done)) && 60 * (dest - origin) <= 61 * size + 60
    requires BlockCount(done + size) == BlockCount(done) + 1
    ensures WithinBudget(dest, done + size, BlockCount(done + size))
  {
  }

  lemma EncodesUpTo(written: seq<byte>, preamble: seq<byte>, data: seq<byte>, done: nat, fragment: seq<byte>, to: nat)
    requires done <= to <= |data| && fragment == data[done..to]
    requires Encodes(written, preamble, data[..done] + fragment)
    ensures Encodes(written, preamble, data[..to])
  {
    PrefixExtend(data, done, to);
  }

  lemma EncodesNothing(preamble: seq<byte>, data: seq<byte>)
    ensures Encodes(preamble, preamble, data[..0])
  {
    assert preamble[|preamble|..] == [];
  }

  /** A preamble with the length, then elements that decode to the data: a valid stream. */
  lemma StreamDecodes(s: seq<byte>, data: seq<byte>, upto: nat)
    requires |data| < TWO_31 && upto == |data| && Encodes(s, Varint(|data|), data[..upto])
    ensures Decode(s) == Some(data)
    ensures VarintParse32(s) == Some(Preamble(|data|, |Varint(|data|)|))
  {
    hide DecodeBody, VarintParse32, ReadPreamble, Varint;
    var v := Varint(|data|);
    assert data[..upto] == data;
    assert s == v + s[|v|..];
    VarintRoundTrip(|data|, s[|v|..]);
  }

  /** Compresses a buffer. As the source demands, the output buffer must hold
      `MaxCompressedLength` bytes; then every store stays within it. */
  method Compress(env: SnappyEnv, input: seq<byte>, compressed: array<byte>) returns (compressedLength: nat)
    requires env.Valid() && env.scratch != compressed && |input| < TWO_31
    requires compressed.Length >= 32 + |input| + |input| / 6
    modifies env.hashTable, env.scratch, compressed
    ensures compressedLength <= 32 + |input| + |input| / 6 && compressedLength <= compressed.Length
    ensures Decode(compressed[..compressedLength]) == Some(input)
    ensures VarintParse32(compressed[..compressedLength]) == Some(Preamble(|input|, |Varint(|input|)|))
  {
    var reader := new Source(input);
    compressedLength := CompressAll(env, reader, compressed);
  }

  /** The announced length of a compressed buffer, or `None` on a malformed preamble. */
  method UncompressedLength(start: seq<byte>) returns (result: Option<nat>)
    ensures result.Some? <==> VarintParse32(start).Some?
    ensures result.Some? ==> result.value == VarintParse32(start).value.Value()
  {
    result := match VarintParse32(start)
      case None => None
      case Some(p) => Some(p.number % TWO_32);
  }

  /** Compressing and uncompressing is the identity, and both length queries give its length. */
  method RoundTrip(env: SnappyEnv, input: seq<byte>) returns (err: int, length: Option<nat>, output: seq<byte>)
    requires env.Valid() && |input| < 0x8000_0000
    modifies env.hashTable, env.scratch
    ensures err == 0 && length == Some(|input|) && output == input
  {
    var compressed := new byte[MaxCompressedLength(|input|)];
    var n := Compress(env, input, compressed);
    length := UncompressedLength(compressed[..n]);
    ReadersAgree(compressed[..n]);
    var uncompressed := new byte[|input|];
    err := Uncompress(compressed[..n], uncompressed);
    output := uncompressed[..];
    assert output == uncompressed[..|input|];
  }
}
