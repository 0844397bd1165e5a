/** The hash-table driven compressor. */
module SnappyCompress {
  import Arith
  import opened Bits
  import opened Bytes
  import opened SnappyEmit
  import opened SnappyFormat
  import opened SnappyMatch

  type u16 = x: int | 0 <= x < 65536

  const BLOCK_SIZE: int := 0x8000
  const MAX_HASH_TABLE_SIZE: int := 0x4000
  const INPUT_MARGIN_BYTES: int := 15

  function MaxCompressedLength(sourceLen: nat): nat {
    32 + sourceLen + sourceLen / 6
  }

  // ---------- hashing ----------

  /** Multiplies in a 32-bit word and keeps the top bits. */
  function HashBytes(bytes: nat, shift: nat): nat {
    Arith.DivNonNegative(bytes * 0x1e35a7bd % TWO_32, Pow2(shift));
    bytes * 0x1e35a7bd % TWO_32 / Pow2(shift)
  }

  function Hash(input: seq<byte>, p: nat, shift: nat): nat
    requires p + 4 <= |input|
  {
    HashBytes(Load32(input, p), shift)
  }

  /** A 64-bit word shifted and truncated to 32 bits. */
  function GetU32AtOffset(v: nat, offset: nat): nat {
    v / Pow256(offset) % TWO_32
  }

  /** ... is the 32-bit word at that byte offset. */
  lemma U32AtOffset(s: seq<byte>, offset: nat)
    requires offset + 4 <= |s|
    ensures GetU32AtOffset(LittleEndian(s), offset) == LittleEndian(s[offset..offset + 4])
  {
    LittleEndianSplit(s, offset);
    Arith.DivModUnique(LittleEndian(s), Pow256(offset), LittleEndian(s[offset..]), LittleEndian(s[..offset]));
    LittleEndianSplit(s[offset..], 4);
    assert Pow256(4) == TWO_32;
    assert s[offset..][..4] == s[offset..offset + 4];
    Arith.DivModUnique(LittleEndian(s[offset..]), TWO_32,
                       LittleEndian(s[offset..][4..]), LittleEndian(s[offset..offset + 4]));
  }

  /** The hash of any word indexes a table whose size is the matching power of two. */
  lemma HashInTable(bytes: nat, tableSize: nat, shift: nat)
    requires tableSize * Pow2(shift) == TWO_32
    ensures HashBytes(bytes, shift) == bytes * 506832829 % 4294967296 / Pow2(shift) < tableSize
  {
    Arith.DivLess(bytes * 0x1e35a7bd % TWO_32, Pow2(shift), tableSize);
  }

  /** Doubles the size until the input fits or the maximum is reached, and clears that much of
      the table. */
  method GetHashTable(hashTable: array<u16>, inputSize: nat) returns (tableSize: nat)
    requires hashTable.Length == MAX_HASH_TABLE_SIZE
    modifies hashTable
    ensures 256 <= tableSize <= MAX_HASH_TABLE_SIZE && TableFits(tableSize, 32 - Log2Floor(tableSize))
    ensures tableSize >= inputSize || tableSize == MAX_HASH_TABLE_SIZE
    ensures tableSize == 256 || tableSize < 2 * inputSize
    ensures forall i :: 0 <= i < tableSize ==> hashTable[i] == 0
  {
    var htsize := 256;
    ghost var k := 8;
    PowersOfTwo();
    while htsize < MAX_HASH_TABLE_SIZE && htsize < inputSize
      invariant 8 <= k <= 14 && htsize == Pow2(k) && (k == 8 || htsize < 2 * inputSize)
      decreases 14 - k
    {
      htsize := htsize * 2;
      k := k + 1;
    }
    TableSizes(k);
    forall i | 0 <= i < htsize {
      hashTable[i] := 0;
    }
    return htsize;
  }

  lemma TableSizes(k: nat)
    requires 8 <= k <= 14
    ensures 256 <= Pow2(k) <= MAX_HASH_TABLE_SIZE && TableFits(Pow2(k), 32 - Log2Floor(Pow2(k)))
  {
    PowersOfTwo();
    Pow2Monotone(8, k);
    Pow2Monotone(k, 14);
    Log2OfPower(k);
    Pow2Add(k, 32 - k);
  }

  lemma {:induction false} Pow2Monotone(a: nat, b: nat)
    requires a <= b
    ensures Pow2(a) <= Pow2(b)
    decreases b
  {
    if a < b {
      Pow2Monotone(a, b - 1);
    }
  }

  ghost predicate TableFits(tableSize: nat, shift: int) {
    shift >= 0 && tableSize * Pow2(shift) == TWO_32
  }

  lemma PowersOfTwo()
    ensures Pow2(8) == 256 && Pow2(14) == MAX_HASH_TABLE_SIZE && Pow2(32) == TWO_32
  {
    assert Pow2(4) == 16;
    assert Pow2(8) == 256;
    assert Pow2(11) == 2048;
    assert Pow2(14) == 16384;
    Pow2Add(14, 14);
    Pow2Add(28, 4);
  }

  lemma {:induction false} Pow2Add(a: nat, b: nat)
    ensures Pow2(a) * Pow2(b) == Pow2(a + b)
  {
    if a > 0 {
      Pow2Add(a - 1, b);
      assert 2 * Pow2(a - 1) * Pow2(b) == 2 * (Pow2(a - 1) * Pow2(b));
    }
  }

  lemma {:induction false} Log2OfPower(k: nat)
    ensures Log2Floor(Pow2(k)) == k
  {
    if k > 0 {
      Log2OfPower(k - 1);
    }
  }

  // ---------- what the output written so far means ----------

  /** What is written is the preamble followed by elements that decode to `plain`. */
  ghost predicate Encodes(written: seq<byte>, preamble: seq<byte>, plain: seq<byte>) {
    preamble <= written && DecodeBody(written[|preamble|..], []) == Some(plain)
  }

  lemma EncodesMore(written: seq<byte>, preamble: seq<byte>, plain: seq<byte>, element: seq<byte>, plain': seq<byte>)
    requires Encodes(written, preamble, plain) && DecodeBody(element, plain) == Some(plain')
    ensures Encodes(written + element, preamble, plain')
  {
    hide DecodeBody;
    ConcatSlices(written, element, |preamble|);
    DecodeConcat(written[|preamble|..], element, []);
  }

  /** A match at `from`, `offset` bytes back in the same block, is reproduced by its copies. */
  lemma EncodesCopy(written: seq<byte>, preamble: seq<byte>, prior: seq<byte>, input: seq<byte>,
                    from: nat, offset: nat, len: nat)
    requires 1 <= offset <= from && offset < 65536 && len >= 4 && from + len <= |input|
    requires Encodes(written, preamble, prior + input[..from])
    requires input[from - offset..from - offset + len] == input[from..from + len]
    ensures Encodes(written + CopyTags(offset, len), preamble, prior + input[..from + len])
  {
    hide DecodeBody;
    var out, next := prior + input[..from], input[from..from + len];
    var block := input[..from + len];
    assert input[..from] + next == block;
    assert out + next == prior + block;
    SliceAfter(prior, block, from - offset, len);
    assert block[from - offset..from - offset + len] == input[from - offset..from - offset + len];
    EncodesRepeat(written, preamble, out, next, offset);
  }

  lemma EncodesRepeat(written: seq<byte>, preamble: seq<byte>, out: seq<byte>, next: seq<byte>, offset: nat)
    requires 1 <= offset <= |out| && offset < 65536 && |next| >= 4
    requires Encodes(written, preamble, out)
    requires (out + next)[|out| - offset..][..|next|] == next
    ensures Encodes(written + CopyTags(offset, |next|), preamble, out + next)
  {
    CopyTagsDecode(offset, |next|, out);
    CopyReproduces(out, offset, next);
    EncodesMore(written, preamble, out, CopyTags(offset, |next|), out + next);
  }

  lemma SliceAfter(prior: seq<byte>, block: seq<byte>, from: nat, len: nat)
    requires from + len <= |block|
    ensures (prior + block)[|prior| + from..][..len] == block[from..from + len]
  {
    assert (prior + block)[|prior| + from..] == block[from..];
  }

  lemma EncodesLiteral(written: seq<byte>, preamble: seq<byte>, prior: seq<byte>, input: seq<byte>, from: nat, len: nat)
    requires 0 < len < TWO_31 && from + len <= |input|
    requires Encodes(written, preamble, prior + input[..from])
    ensures Encodes(written + LiteralHeader(len) + input[from..from + len], preamble, prior + input[..from + len])
  {
    hide DecodeBody;
    var out, bytes := prior + input[..from], input[from..from + len];
    LiteralDecodes(len, bytes, out);
    assert out + bytes == prior + input[..from + len];
    EncodesMore(written, preamble, out, LiteralHeader(len) + bytes, out + bytes);
    assert written + LiteralHeader(len) + bytes == written + (LiteralHeader(len) + bytes);
  }

  // ---------- one block ----------

  /** Every entry in use points before `ip`. */
  ghost predicate EntriesBelow(table: array<u16>, tableSize: nat, ip: nat)
    reads table
  {
    tableSize <= table.Length && forall i :: 0 <= i < tableSize ==> table[i] < ip
  }

  /** Step 1: looks for four bytes that occurred before, at every position first and less and
      less often the longer nothing is found. Gives up close to the end of the block. */
  method ScanForMatch(input: seq<byte>, table: array<u16>, ghost tableSize: nat, shift: nat, start: nat, hash: nat)
    returns (found: bool, ip: nat, candidate: nat)
    requires INPUT_MARGIN_BYTES <= |input| <= BLOCK_SIZE && 0 < start && start + 4 <= |input|
    requires TableFits(tableSize, shift) && EntriesBelow(table, tableSize, start)
    requires hash == Hash(input, start, shift)
    modifies table
    ensures found ==> start <= ip && ip + 16 <= |input| && candidate < ip
    ensures found ==> input[candidate..candidate + 4] == input[ip..ip + 4]
    ensures found ==> EntriesBelow(table, tableSize, ip + 1)
  {
    var ipLimit := |input| - INPUT_MARGIN_BYTES;
    var skip := 32;
    var nextIp, nextHash := start, hash;
    while true
      invariant start <= nextIp && nextIp + 4 <= |input| && skip >= 32
      invariant EntriesBelow(table, tableSize, nextIp) && nextHash == Hash(input, nextIp, shift)
      decreases |input| - nextIp
    {
      ip := nextIp;
      var hval := nextHash;
      var bytesBetweenHashLookups := skip / 32;
      skip := skip + 1;
      nextIp := ip + bytesBetweenHashLookups;
      if nextIp > ipLimit {
        return false, ip, 0;
      }
      nextHash := Hash(input, nextIp, shift);
      HashInTable(Load32(input, ip), tableSize, shift);
      candidate := table[hval];
      table[hval] := ip;
      if Load32(input, ip) == Load32(input, candidate) {
        break;
      }
    }
    LittleEndianInjective(input[ip..ip + 4], input[candidate..candidate + 4]);
    found := true;
  }

  /** Step 3: emits the match at `start` and then every match that begins exactly where the
      previous one ended. Gives up close to the end of the block; otherwise `ip` and `hash` are
      the position and the hash to resume scanning with. */
  method EmitMatches(a: array<byte>, op: nat, input: seq<byte>, table: array<u16>, ghost tableSize: nat, shift: nat,
                     start: nat, from: nat, ghost origin: nat, ghost preamble: seq<byte>, ghost prior: seq<byte>)
    returns (resume: bool, end: nat, nextEmit: nat, ip: nat, hash: nat)
    requires INPUT_MARGIN_BYTES <= |input| <= BLOCK_SIZE
    requires TableFits(tableSize, shift) && EntriesBelow(table, tableSize, start + 1)
    requires from < start && start + 4 <= |input| && input[from..from + 4] == input[start..start + 4]
    requires origin <= op && HasRoom(a, origin, |input|) && 60 * (op - origin) <= 61 * start + 60
    requires Encodes(a[..op], preamble, prior + input[..start])
    modifies a, table
    ensures start < nextEmit <= |input| && origin <= end <= a.Length
    ensures Encodes(a[..end], preamble, prior + input[..nextEmit]) && 60 * (end - origin) <= 61 * nextEmit
    ensures resume ==> ip == nextEmit + 1 && ip + 4 <= |input| && hash == Hash(input, ip, shift)
    ensures resume ==> EntriesBelow(table, tableSize, ip)
  {
    hide DecodeBody;
    var ipLimit := |input| - INPUT_MARGIN_BYTES;
    var candidate: nat := from;
    ip, end := start, op;
    while true
      invariant candidate < ip && start <= ip && ip + 4 <= |input|
      invariant input[candidate..candidate + 4] == input[ip..ip + 4]
      invariant EntriesBelow(table, tableSize, ip + 1)
      invariant origin <= end <= a.Length && 60 * (end - origin) <= 61 * ip + 60
      invariant Encodes(a[..end], preamble, prior + input[..ip])
      decreases |input| - ip
    {
      end, ip := EmitMatch(a, end, input, candidate, ip, origin, preamble, prior);
      nextEmit := ip;
      if ip >= ipLimit {
        return false, end, nextEmit, ip, 0;
      }
      var again;
      again, candidate, hash := LookAfterMatch(input, table, tableSize, shift, ip);
      if !again {
        return true, end, nextEmit, ip + 1, hash;
      }
    }
  }

  /** Enters the positions just before and just after a match into the table and looks whether
      another match starts right there; if not, computes the hash of the position after it. */
  method LookAfterMatch(input: seq<byte>, table: array<u16>, ghost tableSize: nat, shift: nat, ip: nat)
    returns (again: bool, candidate: nat, hash: nat)
    requires 0 < ip && ip + 7 <= |input| <= BLOCK_SIZE
    requires TableFits(tableSize, shift) && EntriesBelow(table, tableSize, ip)
    modifies table
    ensures EntriesBelow(table, tableSize, ip + 1)
    ensures if again then candidate < ip && input[candidate..candidate + 4] == input[ip..ip + 4]
            else hash == Hash(input, ip + 1, shift)
  {
    var inputBytes := Load64(input, ip - 1);
    U32Within(input, ip - 1, 0);
    U32Within(input, ip - 1, 1);
    U32Within(input, ip - 1, 2);
    var prevHash := HashBytes(GetU32AtOffset(inputBytes, 0), shift);
    HashInTable(GetU32AtOffset(inputBytes, 0), tableSize, shift);
    table[prevHash] := ip - 1;
    var curHash := HashBytes(GetU32AtOffset(inputBytes, 1), shift);
    HashInTable(GetU32AtOffset(inputBytes, 1), tableSize, shift);
    candidate := table[curHash];
    var candidateBytes := Load32(input, candidate);
    table[curHash] := ip;
    again := GetU32AtOffset(inputBytes, 1) == candidateBytes;
    hash := HashBytes(GetU32AtOffset(inputBytes, 2), shift);
    LittleEndianInjective(input[ip..ip + 4], input[candidate..candidate + 4]);
  }

  /** The block still fits, with the overhead elements can have, between `origin` and the end of
      the buffer. */
  ghost predicate HasRoom(a: array<byte>, origin: nat, blockSize: nat) {
    origin <= a.Length && 60 * (a.Length - origin) >= 61 * blockSize + 60
  }

  lemma U32Within(input: seq<byte>, p: nat, offset: nat)
    requires p + 8 <= |input| && offset <= 4
    ensures GetU32AtOffset(Load64(input, p), offset) == Load32(input, p + offset)
  {
    U32AtOffset(input[p..p + 8], offset);
    SubSlice(input, p, p + 8, offset, offset + 4);
  }

  /** Extends a four-byte match as far as it goes and emits it. */
  method EmitMatch(a: array<byte>, op: nat, input: seq<byte>, candidate: nat, base: nat,
                   ghost origin: nat, ghost preamble: seq<byte>, ghost prior: seq<byte>)
    returns (end: nat, ip: nat)
    requires candidate < base && base + 4 <= |input| <= BLOCK_SIZE
    requires input[candidate..candidate + 4] == input[base..base + 4]
    requires origin <= op && HasRoom(a, origin, |input|) && 60 * (op - origin) <= 61 * base + 60
    requires Encodes(a[..op], preamble, prior + input[..base])
    modifies a
    ensures base + 4 <= ip <= |input| && origin <= end <= a.Length
    ensures Encodes(a[..end], preamble, prior + input[..ip]) && 60 * (end - origin) <= 61 * ip
  {
    hide DecodeBody;
    ghost var written := a[..op];
    var matched := FindMatchLength(input, candidate + 4, base + 4, |input|);
    MatchedWhole(input, candidate, base, matched);
    matched := 4 + matched;
    ip := base + matched;
    var offset := base - candidate;
    end := EmitCopy(a, op, offset, matched);
    EncodesCopy(written, preamble, prior, input, base, offset, matched);
  }

  lemma MatchedWhole(input: seq<byte>, candidate: nat, base: nat, n: nat)
    requires candidate < base && base + 4 <= |input|
    requires input[candidate..candidate + 4] == input[base..base + 4]
    requires n == CommonPrefix(input[candidate + 4..candidate + 4 + (|input| - (base + 4))], input[base + 4..|input|])
    ensures base + 4 + n <= |input|
    ensures input[candidate..candidate + 4 + n] == input[base..base + 4 + n]
  {
    var x, y := input[candidate + 4..candidate + 4 + (|input| - (base + 4))], input[base + 4..|input|];
    SliceExtend(input, candidate, candidate + 4, candidate + 4 + (|input| - (base + 4)), n);
    SliceExtend(input, base, base + 4, |input|, n);
  }

  /** Compresses one block. Every store stays within `|input| + |input| / 60 + 1` bytes of
      where the block's output begins. */
  method CompressFragment(input: seq<byte>, a: array<byte>, origin: nat, table: array<u16>, tableSize: nat,
                          ghost preamble: seq<byte>, ghost prior: seq<byte>)
    returns (op: nat)
    requires 0 < |input| <= BLOCK_SIZE && tableSize > 0
    requires TableFits(tableSize, 32 - Log2Floor(tableSize)) && EntriesBelow(table, tableSize, 1)
    requires HasRoom(a, origin, |input|)
    requires Encodes(a[..origin], preamble, prior)
    modifies a, table
    ensures origin <= op <= a.Length
    ensures Encodes(a[..op], preamble, prior + input) && 60 * (op - origin) <= 61 * |input| + 60
  {
    hide DecodeBody;
    var shift := 32 - Log2Floor(tableSize);
    var ip, nextEmit := 0, 0;
    op := origin;
    assert prior + input[..0] == prior;
    if |input| >= INPUT_MARGIN_BYTES {
      ip := 1;
      var nextHash := Hash(input, ip, shift);
      while true
        invariant nextEmit < ip && ip + 4 <= |input| && nextHash == Hash(input, ip, shift)
        invariant EntriesBelow(table, tableSize, ip)
        invariant origin <= op <= a.Length && 60 * (op - origin) <= 61 * nextEmit
        invariant Encodes(a[..op], preamble, prior + input[..nextEmit])
        decreases |input| - nextEmit
      {
        var found, candidate, resume;
        found, ip, candidate := ScanForMatch(input, table, tableSize, shift, ip, nextHash);
        if !found {
          break;
        }
        op := EmitBlockLiteral(a, op, input, nextEmit, ip, true, origin, preamble, prior);
        resume, op, nextEmit, ip, nextHash :=
          EmitMatches(a, op, input, table, tableSize, shift, ip, candidate, origin, preamble, prior);
        if !resume {
          break;
        }
      }
    }
    if nextEmit < |input| {
      op := EmitBlockLiteral(a, op, input, nextEmit, |input|, false, origin, preamble, prior);
      nextEmit := |input|;
    }
    EncodesAll(a[..op], preamble, prior, input, nextEmit);
  }

  lemma EncodesAll(written: seq<byte>, preamble: seq<byte>, prior: seq<byte>, input: seq<byte>, upto: nat)
    requires upto == |input| && Encodes(written, preamble, prior + input[..upto])
    ensures Encodes(written, preamble, prior + input)
  {
    assert input[..upto] == input;
  }

  /** Step 2, and the remainder: emits the bytes that matched nothing as a literal. */
  method EmitBlockLiteral(a: array<byte>, op: nat, input: seq<byte>, literal: nat, to: nat, allowFastPath: bool,
                          ghost origin: nat, ghost preamble: seq<byte>, ghost prior: seq<byte>)
    returns (end: nat)
    requires literal < to <= |input| <= BLOCK_SIZE
    requires allowFastPath ==> literal + 16 <= |input|
    requires origin <= op <= a.Length && HasRoom(a, origin, |input|) && 60 * (op - origin) <= 61 * literal
    requires Encodes(a[..op], preamble, prior + input[..literal])
    modifies a
    ensures origin <= end <= a.Length
    ensures Encodes(a[..end], preamble, prior + input[..to])
    ensures 60 * (end - origin) <= 61 * to + 60
  {
    hide DecodeBody;
    ghost var written := a[..op];
    var len := to - literal;
    LiteralCost(len);
    end := EmitLiteral(a, op, input, literal, len, allowFastPath);
    EncodesLiteral(written, preamble, prior, input, literal, len);
    assert literal + len == to;
  }
}
