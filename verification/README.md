# A verified model of rsvndump's cores

rsvndump writes a Subversion dump file from a remote repository. This project models, in Dafny, the parts of it
that compute something hard, in the form the C code has (loops, in-place buffers, spliced pointers, mutable objects),
and proves what they promise:

- the **Snappy codec** (`snappy_*.dfy`, `snappy.dfy`): the format as a simple recursive decoder, the table-driven
  decompressor with its 5-byte refill buffer, 16-byte overshooting stores and pattern-doubling copies as a refinement of
  it, the hash-table compressor against it, and the bound on the size of the output. The format is Google's Snappy format
  description, sections 1 (preamble), 2.1 (literals) and 2.2 (copies);
- the **crit-bit tree** (`critbit_*.dfy`, `critbit.dfy`): the trie as a value with its ordering argument, and the pointer
  structure that insert and delete splice in place, which is always a set and always canonical;
- the **versioned path repository** (`mukv.dfy`, `packed_store.dfy`, `path_*.dfy`): deltas, snapshots, reconstruction, the
  4-entry cache, rollback, log entries, and whole runs against the map from revisions to sets of paths;
- the **property store** (`property_*.dfy`): serialized hashes, shared reference-counted data, deferred cleanup, whole runs;
- the **word-wise `memcmp`** (`memcmp.dfy`), entered at four places in its loops, for all alignments;
- the **dump logic** (`delta_copyfrom.dfy`, `delta_copy.dfy`, `dump_numbering.dfy`, `dump_format.dfy`, `dump_record.dfy`):
  copy sources, copy propagation, revision numbering, and the framing of records, read back by a reader that goes by the
  announced lengths.

`bytes.dfy`, `bits.dfy`, `arith.dfy` and `decimal.dfy` hold what these share. Bytes are integers below 256; bit operations
are defined on natural numbers; 16-, 32- and 64-bit widths are written out where they matter (hashes, table entries,
lengths, masks, words of `memcmp`, the `int` results of comparisons). Modelled is the little-endian 64-bit build without
scatter-gather buffers. Strings are byte sequences without NUL.

Where the code does not do what its design asks for, the model keeps the code, a lemma gives an input that fails, and the
exact condition under which it is right is proved:

- walking a prefix visits exactly the strings with that prefix if and only if there is one
  (`CritBitOrder.PrefixTopCondition`, failing input `CritBitOrder.PrefixWalkVisitsStranger`);
- reconstruction is right if and only if the base of the revision's block is 0 or committed, or no path that was live at it
  goes unmentioned since (`PathDelta.ReconstructionExact`, failing input `PathDelta.SkippedSnapshotLosesPaths`); every revision
  of a dump meets that (`DumpNumbering.DumpKeepsReconstructible`) unless the repository is filled beforehand with kept
  revision numbers; then a revision does if and only if its block begins at 0, with a listed revision or behind the start
  of the dump, or nothing that was live at the start of the block goes unmentioned (`DumpNumbering.PrefilledReconstructible`);
- a tree that was built for the cache stays right, whatever is committed later, if and only if its revision was committed
  when it was looked up (`PathRepository.PathRepo.RightForGood`, over histories `PathDelta.TrustedWhenCommitted`).
  `src/delta.c:1394` looks up the current one; the failing runs are `PathRepository.LookUpTooEarly`, from any state, and
  `PathRepository.StaleRun`, from an empty repository;
- deleting a path, or listing what is below it, picks exactly what it should if and only if some stored path begins with it
  or every stranger the unchecked walk visits is longer and has no slash in its place (`PathEncoding.PickedExact`, failing
  input `PathEncoding.StrangerPicked`);
- a copy source is mapped into the session if and only if a path that begins with the prefix goes on with a slash, or ends,
  or the prefix is empty (`DeltaCopyfrom.PrefixBoundary`, failing input `DeltaCopyfrom.SiblingTakenForChild`); the log
  reader at `src/log.c:93-95` does look at that boundary;
- discarding restores the last committed tree if and only if that revision can be reconstructed
  (`PathRepository.PathRepo.Discard`);
- list indexes are local revisions if and only if the dump starts amid the history, from a subdirectory, or from revision 0
  (`DumpNumbering.IndexesAreLocalRevisions`). The comment at `src/dump.c:338-339` names only the subdirectory; the list
  that is fetched for a start amid the history has the property as well;
- all revisions of the range are dumped, except that a dump amid the history of a subdirectory misses the first revision of
  all if it starts with it: there is none before it that could be run dry (`src/dump.c:396-399`,
  `DumpNumbering.DumpComplete`);
- reference counts are exact after a run if and only if no path was stored over while it had an entry
  (`PropertyRuns.Perform`); cleanup never discards anything needed in either case;
- serialized properties survive if and only if no key is empty (`PropertyEncoding.RoundTrip`, through the store
  `PropertyRuns.StoredWhole`);
- below a copy from the root the level check looks up a path that starts with a slash, and is wrong exactly for what the
  source has (`DeltaCopy.RootSourceCondition`);
- a log entry's copy adds the target and what is below the source if and only if the source is not the root, or is all
  there is in the source tree (`PathLog.CopyExact`); from the root one path is lost, and several are glued to the name of
  the target (`PathLog.RootCopyGluesNames`);
- the two readers of the preamble agree except that only one of them accepts a fifth byte of 16 or more
  (`SnappyVarint.ReadersAgree`);
- printed property values are cut at their first NUL, so they survive if and only if they have none
  (`DumpRecord.ShownExactly`).

## Model

| member | source | states |
|---|---|---|
| SnappyTable.CharTable | lib/snappy-c/snappy.c:972-1005 | each of the 256 table entries packs the element length, the high offset bits and the number of trailing bytes that sections 2.1 and 2.2 of the format give for that tag byte |
| SnappyTable.MaskedLoad | lib/snappy-c/snappy.c:955-957 | masking a 32-bit load with `wordmask[n]` gives the little-endian number in the first n bytes |
| SnappyFormat.DecodeConcat | lib/snappy-c/snappy.c:1072-1163 | the reference decoder works element by element: decoding a concatenation continues where the first part ended |
| SnappyFormat.CopyBackPeriodic | lib/snappy-c/snappy.c:341-360 | a byte-by-byte copy that overlaps itself repeats the last `offset` bytes periodically |
| SnappyFormat.ShortLiteralExact | lib/snappy-c/snappy.c:520-545 | section 2.1: a tag of four times the length less one, and up to 60 bytes |
| SnappyFormat.LongLiteralExact | lib/snappy-c/snappy.c:546-563 | section 2.1: a longer literal has its length less one in one to four little-endian bytes |
| SnappyFormat.OneByteCopyExact | lib/snappy-c/snappy.c:575-580 | section 2.2.1: lengths 4 to 11 and offsets of eleven bits |
| SnappyFormat.LongCopyExact | lib/snappy-c/snappy.c:581-584 | sections 2.2.2 and 2.2.3: lengths 1 to 64 and little-endian offsets of two or four bytes |
| SnappyVarint.VarintEncode32 | lib/snappy-c/snappy.c:175-205 | writes the base-128 representation of any 32-bit number, at most 5 bytes |
| SnappyVarint.VarintRoundTrip | lib/snappy-c/snappy.c:126-203 | both preamble readers read any encoded 32-bit number back, with its size, whatever follows |
| SnappyVarint.ReadersAgree | lib/snappy-c/snappy.c:126-160 | on every input the two readers give the same result, except that the limited one rejects a fifth byte of 16 or more |
| SnappyWriter.IncrementalCopy | lib/snappy-c/snappy.c:354-360 | the overlapping copy computes the specified copy and changes nothing behind it |
| SnappyWriter.IncrementalCopyFastPath | lib/snappy-c/snappy.c:362-411 | pattern doubling with 8-byte moves leaves the same bytes as the byte-by-byte copy for every offset and length, and writes at most 10 bytes past the end |
| SnappyWriter.Writer.AppendFromSelf | lib/snappy-c/snappy.c:413-439 | on all three paths: fails exactly for an offset of 0 or beyond the output, or too little room; otherwise appends the copy; never writes at or behind op_limit |
| SnappyWriter.Writer.Append | lib/snappy-c/snappy.c:441-450 | appends, or fails exactly when there is no room, never writing behind op_limit |
| SnappyWriter.Writer.TryFastAppend | lib/snappy-c/snappy.c:452-466 | the 16-byte store is taken exactly when input and room allow it, and then appends the literal and stays within op_limit |
| SnappyMatch.FindMatchLength | lib/snappy-c/snappy.c:682-725 | the 8-byte-wise comparison with trailing-zero count returns the length of the longest common prefix, reading only inside the input |
| SnappyMatch.WordMismatch | lib/snappy-c/snappy.c:708-713 | the trailing zeros of the exclusive or of two words give the first byte in which they differ |
| SnappyEmit.EmitLiteral | lib/snappy-c/snappy.c:520-563 | writes the literal header and the bytes; the overshooting fast path needs and stays in 16 bytes of room |
| SnappyEmit.LiteralDecodes | lib/snappy-c/snappy.c:520-563 | an emitted literal of any length decodes to its bytes |
| SnappyEmit.LiteralCost | lib/snappy-c/snappy.c:520-563 | a literal header costs at most one byte in sixty, plus one |
| SnappyEmit.EmitCopyLessThan64 | lib/snappy-c/snappy.c:566-585 | writes exactly the one- or two-byte-offset tag for the copy |
| SnappyEmit.CopyTagDecodes | lib/snappy-c/snappy.c:566-585 | the tag decodes to the copy it stands for, for every length from 4 to 64 and every offset below 65536 |
| SnappyEmit.EmitCopy | lib/snappy-c/snappy.c:587-608 | the splitting loop writes the tags of the whole copy |
| SnappyEmit.CopyTagsDecode | lib/snappy-c/snappy.c:587-608 | the split copies decode together to the one long copy |
| SnappyEmit.CopyReproduces | lib/snappy-c/snappy.c:781-946 | a copy of a found match appends exactly the matched input, overlapping or not |
| SnappyCompress.GetHashTable | lib/snappy-c/snappy.c:649-666 | the size is a power of two between 256 and 16384, the smallest from 256 on that holds the input, or the largest; that much of the table is cleared |
| SnappyCompress.HashInTable | lib/snappy-c/snappy.c:474-483 | every hash is an index of the table |
| SnappyCompress.U32AtOffset | lib/snappy-c/snappy.c:761-765 | shifting a 64-bit load by whole bytes gives the 32-bit load at that offset |
| SnappyCompress.ScanForMatch | lib/snappy-c/snappy.c:848-870 | the skipping scan terminates, keeps every table entry before ip, and only reports a candidate before ip with four equal bytes and 16 readable ones |
| SnappyCompress.EmitMatch | lib/snappy-c/snappy.c:893-909 | after a match the tags so far decode to the input up to the new ip, within the budget of 61 bytes for 60 |
| SnappyCompress.LookAfterMatch | lib/snappy-c/snappy.c:910-936 | looking right behind a match keeps the table sound and finds only true matches |
| SnappyCompress.EmitMatches | lib/snappy-c/snappy.c:880-937 | the chain of matches terminates, with the tags decoding to the input up to next_emit and every table entry before ip |
| SnappyCompress.CompressFragment | lib/snappy-c/snappy.c:781-946 | starting from a cleared table, the output decodes to the whole block after what was there, in at most 61/60 of its size plus one byte |
| SnappyDecompress.ReadUncompressedLength | lib/snappy-c/snappy.c:1036-1060 | reads the preamble of section 1 from any fragmentation of the input, or fails exactly when it is malformed |
| SnappyDecompress.Decompressor.Stitch | lib/snappy-c/snappy.c:1198-1221 | collecting a tag from several fragments into the scratch buffer keeps the remaining stream unchanged, or finds it too short |
| SnappyDecompress.Decompressor.RefillTag | lib/snappy-c/snappy.c:1167-1237 | afterwards a whole tag is readable and the remaining stream is the same; it fails exactly at the end or on a truncated tag |
| SnappyDecompress.Decompressor.FastLiteral | lib/snappy-c/snappy.c:1108-1114 | the fast append is one literal step of the reference decoder, or changes nothing |
| SnappyDecompress.Decompressor.DecompressLiteral | lib/snappy-c/snappy.c:1104-1140 | a literal across any fragments is one step of the reference decoder, or fails only if that fails or overflows the output |
| SnappyDecompress.Decompressor.DecompressCopy | lib/snappy-c/snappy.c:1141-1161 | a copy decoded through the tables is one step of the reference decoder, with the same failures |
| SnappyDecompress.Decompressor.DecompressAllTags | lib/snappy-c/snappy.c:1072-1163 | the loop succeeds with the declared length exactly when the reference decoder does, with the same output |
| SnappyDecompress.InternalUncompress | lib/snappy-c/snappy.c:1239-1260 | for every stream that declares less than 2^31 bytes: accepted exactly when the reference decoder accepts it, with its output |
| SnappyDecompress.Uncompress | lib/snappy-c/snappy.c:1511-1523 | the same for a flat buffer |
| Snappy.RoomForBlock | lib/snappy-c/snappy.c:507-510 | within the budget, n + n/6 + 32 bytes leave room for a whole block and the 16-byte overshoot of its literals |
| Snappy.CompressAll | lib/snappy-c/snappy.c:1262-1349 | over all 32 KiB blocks and any fragmentation: the output decodes to the input and every store stays inside the maximal compressed length |
| Snappy.Compress | lib/snappy-c/snappy.c:1479-1495 | the output decodes to the input and its preamble is the input length |
| Snappy.UncompressedLength | lib/snappy-c/snappy.c:620-631 | reports the declared length exactly when the preamble is well formed |
| Snappy.RoundTrip | lib/snappy-c/snappy.c:1479-1523 | for every input below 2^31 bytes: compressing and uncompressing returns 0 and the input, and the reported length is the input's |
| CritBitBits.DirectionIsBit | lib/critbit89/critbit.c:124-127 | `(1 + (otherbits OR c)) >> 8` is the bit of the string at the critical position |
| CritBitBits.LabelsOrder | lib/critbit89/critbit.c:217-222 | (byte, otherbits) pairs are ordered as bit positions are |
| CritBitBits.IsolateIsLabel | lib/critbit89/critbit.c:183-186 | the smearing steps isolate the highest differing bit as an `otherbits` label |
| CritBitTrie.WalkFinds | lib/critbit89/critbit.c:109-132 | following the bits of a string in a good trie ends at that string exactly when it is a member |
| CritBitTrie.InsertCorrect | lib/critbit89/critbit.c:136-235 | inserting at the first difference keeps positions strictly increasing and every split right, and adds the string |
| CritBitTrie.DeleteCorrect | lib/critbit89/critbit.c:238-278 | removing a leaf and its node keeps the trie good and removes the string |
| CritBitTrie.Canonical | lib/critbit89/critbit.c:136-278 | two good tries with the same strings are identical in shape, labels and leaves |
| CritBitOrder.FirstBitDecides | lib/critbit89/critbit.c:75-94 | the first differing bit decides the order of strings as unsigned bytes |
| CritBitOrder.LessExact | lib/critbit89/critbit.c:124-127 | that order: a proper beginning first, otherwise the smaller byte at the first difference |
| CritBitOrder.ListingMembers | lib/critbit89/critbit.c:75-94 | traversal lists exactly the members |
| CritBitOrder.ListingAscends | lib/critbit89/critbit.c:75-94 | traversal lists them in strictly increasing order, hence each once |
| CritBitOrder.PrefixTopCondition | lib/critbit89/critbit.c:290-319 | the subtree that is walked holds exactly the strings with the prefix if and only if there is one |
| CritBitOrder.PrefixWalkVisitsStranger | lib/critbit89/critbit.c:302-318 | in a tree with only "a", walking the prefix "b" visits "a" |
| CritBitShape.DescendInserts | lib/critbit89/critbit.c:208-233 | splicing below the slot reached by the search is insertion into the whole trie |
| CritBitShape.DescendDeletes | lib/critbit89/critbit.c:250-277 | splicing the sibling into the upper slot is deletion from the whole trie |
| CritBit.CriticalBit | lib/critbit89/critbit.c:169-188 | finds the first bit in which the strings differ, as byte and label, or that they are equal |
| CritBit.CbTree.Contains | lib/critbit89/critbit.c:109-132 | membership |
| CritBit.CbTree.Insert | lib/critbit89/critbit.c:136-235 | adds the string to the set; returns 1 and changes nothing if it was there |
| CritBit.CbTree.SpliceOut | lib/critbit89/critbit.c:268-277 | the in-place splice leaves the trie without the leaf and its node |
| CritBit.CbTree.Delete | lib/critbit89/critbit.c:238-278 | removes the string; returns 1 and changes nothing if it was not there |
| CritBit.CbTree.Clear | lib/critbit89/critbit.c:281-287 | empties the tree |
| CritBit.CbTree.Traverse | lib/critbit89/critbit.c:75-94 | calls back in the order of the listing and stops at the first nonzero result |
| CritBit.CbTree.WalkPrefixed | lib/critbit89/critbit.c:290-319 | walks the listing of the subtree reached by the prefix, without comparing it |
| CritBit.VisitsAll | lib/critbit89/critbit.c:75-94 | a callback that returns 0 is called for every string listed |
| CritBit.VisitStops | lib/critbit89/critbit.c:75-94 | a walk stops behind the first string for which the callback returns nonzero, and returns that |
| CritBit.Run | lib/critbit89/critbit.c:136-278 | any run of insertions and deletions leaves the set it describes |
| CritBit.CompareRuns | lib/critbit89/critbit.c:136-278 | two runs from empty trees leave valid trees for the sets they describe, and identical ones if these are the same set |
| KeyValueStore.Mukv.Store | src/mukv.c:75-90 | appends to the file and maps the key to it; other records stay readable |
| KeyValueStore.Mukv.Fetch | src/mukv.c:93-117 | gives the value stored last under the key, or nothing |
| KeyValueStore.Mukv.Delete | src/mukv.c:120-127 | forgets one record and no other |
| Decimal.ItoaInjective | src/path_repo.c:230-234 | different revisions have different keys |
| Decimal.DecimalExact | src/path_repo.c:230-234 | decimal digits, the most significant first, behind a minus sign for a negative number |
| PackedStore.Pack | src/path_repo.c:495-512 | stores a compressed value from which the data can be got back |
| PackedStore.Unpack | src/path_repo.c:234-252 | gets the data back |
| PathDelta.ReconstructionExact | src/path_repo.c:218-269 | replaying the stored records from the block's base gives the live set if and only if the base is 0 or committed or nothing live there goes unmentioned |
| PathDelta.SkippedSnapshotLosesPaths | src/path_repo.c:229-232 | with revisions 1 and 1025 committed but not 1024, reconstructing 1025 loses a path |
| PathDelta.BlocksExact | src/path_repo.c:229 | a snapshot is due for every positive multiple of 1024, and reconstruction starts at the multiple of 1024 at or below the revision |
| PathDelta.ReconStable | src/path_repo.c:218-269 | later commits do not change what is reconstructed for an earlier revision |
| PathDelta.CommitKeepsConsistent | src/path_repo.c:450-523 | a commit of a snapshot, a delta or nothing extends the history consistently |
| PathDelta.TrustedWhenCommitted | src/path_repo.c:218-269 | what is reconstructed for a revision is the same in every consistent continuation of the history if and only if the revision is not after the last one committed |
| PathEncoding.DeltaApply | src/path_repo.c:202-215 | applying an encoded delta performs its edits in order |
| PathEncoding.EncodedEdits | src/path_repo.c:475-482 | an addition is stored as byte 43, a removal as byte 45, each followed by the path and a NUL |
| PathEncoding.TreeToArray | src/path_repo.c:144-169 | lists in order, of what the prefix walk visits, what ends where the path does or has a slash there; that is exactly the path and what is below it if some stored string begins with the path |
| PathEncoding.SubtreeExact | src/path_repo.c:150-155 | below a path is what goes on with the byte 47 behind it, besides the path itself |
| PathEncoding.PickedExact | src/path_repo.c:150-169 | exactly the path and what is below it is picked if and only if some stored string begins with the path, or all strangers visited are longer and have no slash in its place |
| PathEncoding.WalkableIsRight | src/path_repo.c:150-169 | if some stored path begins with the path, the condition holds; so deleting what is there never takes anything else |
| PathEncoding.StrangerPicked | src/path_repo.c:150-155 | with only "a" stored, "b" picks "a" |
| PathRepository.PathRepo.EncodeTree | src/path_repo.c:173-198 | the encoded tree, applied to nothing, gives the tree, in exactly the size computed first |
| PathRepository.PathRepo.Add | src/path_repo.c:414-427 | records the edit and updates tree and size; reports -1 if the path was there |
| PathRepository.PathRepo.Delete | src/path_repo.c:431-446 | removes what is picked and records it; that is exactly the path and what goes on with byte 47 behind it if some stored path begins with it, and in general under the condition of `PickedExact` |
| PathRepository.PathRepo.CommitDelta | src/path_repo.c:450-523 | the live set becomes the set as of the revision, all earlier ones stay, and the invariant of store and cache is kept; the record is the whole tree at positive multiples of 1024, otherwise the edits, and none if there are none |
| PathRepository.PathRepo.Reconstruct | src/path_repo.c:218-269 | replays the stored records onto an empty tree |
| PathRepository.PathRepo.Tree | src/path_repo.c:273-309 | a cached or newly built tree is what reconstruction gave when it was built; a hit changes nothing, a miss replaces the slot whose turn it is and moves on by one, modulo four |
| PathRepository.PathRepo.Coherent | src/path_repo.c:273-309 | a tree built after its revision was committed equals uncached reconstruction now |
| PathRepository.PathRepo.RightForGood | src/path_repo.c:273-309 | a tree just built equals what is reconstructed after any further commits if and only if its revision was committed when it was built |
| PathRepository.PathRepo.Discard | src/path_repo.c:527-536 | leaves the identical tree of the last committed revision exactly when that can be reconstructed |
| PathRepository.PathRepo.Exists | src/path_repo.c:628-643 | answers for the live set of any committed revision |
| PathRepository.PathRepo.CheckParent | src/path_repo.c:647-665 | answers for parent/child in the live set of any committed revision |
| PathRepository.LookUpTooEarly | src/delta.c:1394 | from any state: a revision not committed yet is looked up, a new path is added, the revision is committed, and looking it up again gives the tree that was put in the cache before the commit, without that path |
| PathRepository.StaleRun | src/path_repo.c:273-309 | that run from an empty repository: revision 1 adds "a", revision 2 adds "b", and the cached tree for 2 has no "b" |
| PathRuns.Perform | src/path_repo.c:218-536 | for any legal run of additions, deletions, commits, rollbacks and look-ups, every look-up answers for the set committed then, exactly the revisions of the run are in the repository, and every one up to the last is reconstructed exactly |
| PathRuns.SetsExtended | src/path_repo.c:450-523 | a commit adds one set and leaves the set as of every earlier revision |
| PathRuns.BasesKept | src/path_repo.c:229-232 | committing every multiple of 1024 that is reached keeps every block reconstructible |
| PathLog.DeleteSparesSiblings | src/path_repo.c:150-155 | "foobar" is not below "foo" |
| PathLog.DeletionKeepsParents | src/path_repo.c:431-446 | deleting a subtree keeps a tree closed under parents |
| PathLog.CopyKeepsParents | src/path_repo.c:596-618 | so does adding what a copy adds to an existing parent |
| PathLog.EntryKeepsParents | src/path_repo.c:562-620 | a whole log entry whose additions have parents keeps the tree closed under parents |
| PathLog.CopyExact | src/path_repo.c:596-618 | a copy adds the target and, below it, what is below the source, if and only if the source is not the root or the root is all there is |
| PathLog.RootCopyGluesNames | src/path_repo.c:603-617 | copying from the root to "a" adds only "a" when the source has the one path "b", and only "ab" and "ac" when it has "b" and "c" |
| PathLog.CommitLog | src/path_repo.c:540-624 | committing a log entry makes the live set of its revision the edited set: deletions, additions, and copies, from the root too, of the source at the mapped revision |
| PathLog.EditedExact | src/path_repo.c:572-592 | for every path: 'D' and 'R' take away the changed path and what is below it, 'A' and 'R' add it or what is copied to it, and nothing else changes |
| PathLog.EditedInOrder | src/path_repo.c:561-620 | the changes of an entry take effect one after the other |
| PathLog.CopySourceExact | src/path_repo.c:586-599 | a copy source is what is behind the prefix and its slashes, at its own revision or at the last earlier index of the list that is not after it |
| PathLog.CopiedExact | src/path_repo.c:603-617 | a copy of a path that is there adds the target, and below it, name for name, all that is below the path |
| MemoryCompare.CompareIsLexicographic | lib/memcmp.c:303-358 | the sign of the byte comparison is that of the lexicographic order |
| MemoryCompare.FirstDifferenceIsReturned | lib/memcmp.c:303-358 | the byte comparison is the difference of the first bytes that differ |
| MemoryCompare.MergeIsLoad | lib/memcmp.c:57-61 | merging two aligned words by shifts gives the unaligned word between them |
| MemoryCompare.MemcmpBytes | lib/memcmp.c:93-107 | two different words are compared as their bytes in memory order |
| MemoryCompare.MemcmpCommonAlignment | lib/memcmp.c:118-194 | entered at any of its four labels, the pipelined loop compares as byte by byte |
| MemoryCompare.MemcmpNotCommonAlignment | lib/memcmp.c:203-300 | the same for the loop that merges misaligned words |
| MemoryCompare.Memcmp | lib/memcmp.c:303-358 | for every length and alignment the result is the difference of the first differing bytes, or 0 |
| PropertyEncoding.Serialize | src/property.c:127-166 | the in-place writer fills exactly the computed length with the serialized form |
| PropertyEncoding.Reconstruct | src/property.c:170-189 | adds the properties in the data up to the first empty key |
| PropertyEncoding.ParseSerialized | src/property.c:127-189 | reading serialized properties gives those before the first empty key |
| PropertyEncoding.RoundTrip | src/property.c:127-189 | the hash survives if and only if no key is empty |
| PropertyEncoding.PutLooksUp | src/property.c:186 | a hash of distinct keys maps each to the value listed with it |
| PropertyEncoding.UntilNulExact | src/property.c:208 | a printed or copied string is what is before the first NUL |
| PropertyEncoding.OnePropertyInMemory | src/property.c:141-164 | the bytes of a property: length and name, length and value, and a last length of zero |
| PropertyStore.PropStore.Store | src/property.c:294-375 | the path has the new properties and all others keep theirs; counts stay exact if and only if they were and the path had no entry |
| PropertyStore.PropStore.Load | src/property.c:379-429 | adds what was stored last for the path and releases it; counts stay exact |
| PropertyStore.PropStore.Delete | src/property.c:433-454 | releases one path and no other; counts stay exact |
| PropertyStore.PropStore.Release | src/property.c:417-427 | counts down its reference and no other, and marks it under the first 8 bytes of its digest if the count is used up and nothing is marked there |
| PropertyStore.PropStore.Cleanup | src/property.c:458-499 | discards exactly what is marked and unused; no path loses its properties; with exact counts and distinct digest beginnings exactly what is used remains |
| PropertyRuns.Perform | src/property.c:294-499 | for any run, every load gives what was stored last for the path, up to the first empty key, and counts are exact if and only if no path was stored over |
| PropertyRuns.StoredWhole | src/property.c:294-429 | what is stored for a path and loaded is the whole of it if and only if no key is empty |
| DeltaCopyfrom.LocalCopyfromPath | src/delta.c:1434-1446 | strips the bytes of the prefix and slashes, or reports that the path does not begin with them |
| DeltaCopyfrom.PrefixBoundary | src/delta.c:1434-1446 | the mapping is the right one if and only if a path that begins with the prefix goes on with a slash, or ends, or the prefix is empty |
| DeltaCopyfrom.SiblingTakenForChild | src/delta.c:1438-1445 | with prefix "foo", "foobar/x" is taken for "bar/x" |
| DeltaCopyfrom.LocalCopyfromRev | src/delta.c:1450-1487 | the backward search returns the greatest earlier index whose revision is not after the source, or -1 |
| DeltaCopyfrom.SearchIsExact | src/delta.c:1450-1487 | in a strictly increasing log that index splits the earlier revisions exactly |
| DeltaCopy.LevelsExact | src/delta.c:407-447 | in a tree closed under parents all levels exist exactly when the path does |
| DeltaCopy.CheckLevel | src/delta.c:421-439 | cutting the buffer at two slashes looks up exactly the level between them, and mends the buffer |
| DeltaCopy.CheckLevels | src/delta.c:416-447 | the in-place loop succeeds exactly when every level exists at the revision |
| DeltaCopy.FindCopied | src/delta.c:388-392 | finds the node that was copied itself with no other copied one between, or none if there is none |
| DeltaCopy.PropagateCopy | src/delta.c:356-453 | a child of a copied parent is marked as copied exactly when the source has something at the same place at the mapped revision |
| DeltaCopy.PropagatedExact | src/delta.c:382-446 | below the nearest node that was copied from `src`, a child at `rel` is marked as copied if and only if the mapped revision is there and has `src`, byte 47 and `rel` |
| DeltaCopy.PropagatedOtherwise | src/delta.c:361-404 | in all other cases the child gets the mark of its parent, keeps its own if it is not below it, or none if the source is outside the prefix |
| DeltaCopy.RootSourceCondition | src/delta.c:412 | the place looked up is the right one unless the source is the root and has the path |
| DumpNumbering.Prepare | src/dump.c:305-437 | where the loop starts, in every combination of options, with the repository filled up to there |
| DumpNumbering.Pad | src/dump.c:478-497 | padding headers are consecutive up to the next revision |
| DumpNumbering.Dump | src/dump.c:284-605 | headers are consecutive; with kept numbers each real one equals its source revision, otherwise it is the list index plus a constant; every listed revision from the first one on is dumped once, in order |
| DumpNumbering.PlainDumpExact | src/dump.c:305-595 | header by header, without a start amid the history: numbers count up from 0 if revision 0 of the root is dumped and from 1 otherwise; the entries of the range follow at their places, or with kept numbers at their own with padding between; nothing is committed beforehand |
| DumpNumbering.MidDumpExact | src/dump.c:305-595 | header by header, amid the history: every entry before the start is committed beforehand, the one before the start is run dry, and the headers go on behind it |
| DumpNumbering.DumpComplete | src/dump.c:364-402 | all revisions of the range are dumped if and only if the dump does not start amid the history of a subdirectory with its first revision, which then is only run dry |
| DumpNumbering.IndexesAreLocalRevisions | src/dump.c:338-349 | list indexes are local revisions if and only if the dump starts amid the history, in a subdirectory or at 0 |
| DumpNumbering.CopySourceFound | src/delta.c:1460-1485 | there the backward search gives the greatest earlier local revision whose source is not after the copy source, with a growing and with a complete list |
| DumpNumbering.CommitsIncrease | src/dump.c:375-384 | the path repository is committed to in strictly increasing order, padding and prefilling included |
| DumpNumbering.CommitsDense | src/dump.c:475-564 | without prefilled kept numbers no revision from 2 on is skipped |
| DumpNumbering.PrefillCommitsListed | src/dump.c:375-384 | with them, before the start of the dump, exactly the listed revisions are there, less the first one of the range if that is only run dry |
| DumpNumbering.DumpKeepsReconstructible | src/dump.c:452-595 | without them every revision a dump committed can be reconstructed |
| DumpNumbering.PrefilledReconstructible | src/dump.c:375-595 | with them a revision can be if and only if its block begins at 0, with a listed revision or behind the start of the dump, or nothing live at the start of the block goes unmentioned |
| DumpFormat.ReadBlockBack | doc/svn/dump-load-format.txt:18-39 | a property block is read back whatever its values contain, "PROPS-END" and line ends included |
| DumpFormat.ReadHeadersBack | doc/svn/dump-load-format.txt:82-91 | header lines are read back up to the empty line |
| DumpFormat.ReadRecordBack | doc/svn/dump-load-format.txt:74-99 | a record whose headers announce the lengths of its parts is read back, and nothing more |
| DumpFormat.PrintedExactly | src/property.c:230-255 | header lines and entries byte by byte |
| DumpFormat.BlockExact | src/delta.c:796-820 | a block is its entries and the line "PROPS-END" |
| DumpRecord.PropertyStrlen | src/property.c:198-212 | the length computed is that of the property printed, without a value too |
| DumpRecord.PropertyDump | src/property.c:230-244 | prints name and value with their lengths |
| DumpRecord.PropertyDelDump | src/property.c:248-255 | prints a deletion with its length |
| DumpRecord.EntriesLength | src/delta.c:742-766 | the announced property length is that of the entries printed later, and 0 exactly if there are none |
| DumpRecord.DumpNodeContent | src/delta.c:741-841 | prints the lengths, then exactly the properties that are not deleted, in format 3 the deletions, and the text |
| DumpRecord.LinesExact | src/delta.c:765-792 | which header lines a node has, with names and values: "Prop-delta: true" exactly in format 3 with a block, "Text-delta: true" exactly for a delta, the digest exactly if there is one, and the three lengths |
| DumpRecord.LinesInOrder | src/delta.c:765-792 | how many these are and in which order |
| DumpRecord.PartsExact | src/delta.c:795-840 | the block is there if it was asked for or has an entry, and the text if there is one |
| DumpRecord.EntriesExact | src/delta.c:797-817 | the entries in the order of the properties, followed by the deletions in format 3 |
| DumpRecord.KeptLists | src/delta.c:798-808 | the entries are the properties that are not deleted |
| DumpRecord.ShownExactly | src/property.c:208 | a printed value is the value if and only if it has no NUL |
| DumpRecord.NodeReadBack | src/delta.c:741-841 | reading by announced lengths gives back the entries and the text of a node, and leaves what follows, in formats 2 and 3 |
| DumpRecord.DumpRevisionHeader | src/dump.c:49-84 | prints the header of a revision: reading it back gives its number, the lengths, and exactly those of "svn:log", "svn:author" and "svn:date" that are given, each with its own value |
| DumpRecord.RevisionReadBack | src/dump.c:49-84 | reading it back gives its properties |

## Left out

- The scatter-gather entry points, big-endian branches and kernel parts of Snappy. The input of the codec is still read
  in arbitrary fragments, which covers the flat buffer and more.
- SnappyDecompress.InternalUncompress: requires, as the caller's buffer does, that the declared length is below 2^31 and fits the output; streams that declare more are not modelled.
- SnappyDecompress.Uncompress: inputs are shorter than 2^32 bytes, because the code counts buffered bytes in 32 bits.
- Snappy.Compress: inputs are shorter than 2^31 bytes; longer ones are not modelled.
- CritBit.CbTree.Insert: node labels are unbounded numbers where the code has a 32-bit byte index and an 8-bit mask; memory is always available.
- PathEncoding.TreeToArray: of a visited string that is shorter than the path, the code reads a byte behind its terminator; that byte is arbitrary here.
- PathRepository.PathRepo.CommitDelta: the delta, and the whole tree when a snapshot is due, encode to less than 2^31 bytes.
- PathRepository.PathRepo.RightForGood: is about the latest look-up; for older ones that came after their commit `Coherent` says the same.
- PathLog.CopyKeepsParents: of the paths copied from the root none starts with a slash; `src/log.c:114-120` strips it from what is stored.
- PathLog.CommitLog: the deletions of an entry pick the right paths; what `PathRepo.Delete` does otherwise is `PathEncoding.PickedExact`. Changed paths come in the order in which the code has sorted them; sorting is not modelled. The listing that the server gives for a copy from outside the prefix is a parameter.
- PropertyStore.PropStore.Store: MD5 is a parameter; a stored list must not collide with different data under the same digest. A list is given in the order in which its hash is iterated, and serializes to less than 2^31 bytes. Freed memory is not modelled.
- DumpNumbering.Dump: the log is a strictly increasing list, and the start of a dump that does not start amid the history is not after its last entry. The directories that a user prefix adds are not modelled.
- DumpRecord.DumpNodeContent: begins behind the header lines with path, kind, action and copy source, which enter as any well-formed lines. Names are never NULL, as with all callers. The content of files is an opaque byte string.
- MemoryCompare.Memcmp: memory consists of whole aligned words, so that the word at either end of an unaligned block can be read.
- Failures of memory allocation, files and the network; the error returns they cause.
- Subversion's remote access layer, the delta editor's callbacks, authentication, svndiff and text deltas.
- `delta_check_action` and `delta_check_copy` in `src/delta.c`: case distinctions over the answers modelled here.
- That loading a dump reproduces the repository: this rests on the loader and the server.
- Deleted properties across revisions: the editor stores the unfiltered map.
- Argument parsing, logging, sessions, obfuscation, hash wrappers, build files and test drivers.
