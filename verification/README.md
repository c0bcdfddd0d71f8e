# Models and proofs for a collection of C libraries

Eight self-contained C libraries, each modelled from its source and proved to do what it
is for. The first three are the hard ones.

- **Snappy** (`Snappy*.dfy`): the compressor with its lossy hash table of 16-bit positions,
  skipping search and overshooting stores, and the table-driven decompressor that refills
  across fragments. Both are connected to an independent reading of the format
  (`SnappyFormat`): preamble, literals, copies. `SnappyScript` says, as a function of the text
  and the hash function alone, which bytes the compressor sends, and `SnappyMatches` what these
  are for texts that repeat, and for texts that do not.
- **B-tree on disk** (`BTree*.dfy`, `Allocator*.dfy`, `Disk.dfy`): a copy-on-write B-tree in a
  flat file, with the allocator whose free lists are kept in blocks that come from the same
  allocator. The file is a byte sequence, and every state that it goes through is logged.
  `BTreeStates.Denotes` says which map a file denotes, from its bytes alone, and
  `BTreeStates.Recovers` that it can be opened and worked on as that map.
- **Rax** (`Rax*.dfy`): the path-compressed radix tree on a heap of nodes, with its parent
  links, counters and stack; how many nodes an insertion makes, and when chains stay merged
  (`RaxTight`); the ordered iterator; and the packed bytes of a node.
- **MessagePack** (`Cmp*.dfy`): objects of all 35 types, integers, and the skip loop.
- **tinyexpr** (`Tiny*.dfy`): the recursive-descent parser, proved to accept exactly the phrases
  of a grammar that is stated without it (`TinyGrammar`), evaluation, constant folding, and the
  combinatorial functions.
- **Ring buffer** (`Ringbuf.dfy`), **consistent hashing** (`HashRing.dfy`), and the streaming
  and padding of **MD5 and SHA-1** (`Digests.dfy`).

Code that works by changing things step by step is a class or a method over arrays and
fields here too; what it promises is its contract, in terms of a specification function or
of the map, queue, tree or stream it stands for. Many proofs put `hide` in front of their
first step: the definitions named there play no part in them.

Sources are given relative to the root of the repository. Line numbers are those of the C
files.

## Model

| member | source | states |
|---|---|---|
| Snappy.RoundTrip | benchmarks/andikleen-snappy-c/snappy.c:1277-1378 | for every input shorter than 2^31 bytes, cut into any good fragments, and for every hash function into the table's range, decompressing the compressor's output succeeds with exactly the input |
| Snappy.Compress | benchmarks/andikleen-snappy-c/snappy.c:1302-1378 | the output decodes, by the format, to the input; it is the value of a function of the whole text and the hash function; and it is no longer than the advertised bound, overshooting stores included |
| Snappy.CutsDoNotMatter | benchmarks/andikleen-snappy-c/snappy.c:1302-1378 | two inputs that are the same text cut differently are compressed to the same bytes |
| SnappyMatches.PeriodCode | benchmarks/andikleen-snappy-c/snappy.c:871-994 | a block that repeats its first p bytes, for p up to 32, is sent as these bytes and a single match, if the bytes at its start meet no others on the way to p, in the text or in the table |
| SnappyMatches.EqualBytes | benchmarks/andikleen-snappy-c/snappy.c:871-994 | equal bytes, from 17 on, are sent as a literal of one byte and copies of the byte before, under every hash function |
| SnappyMatches.EqualShrinks | benchmarks/andikleen-snappy-c/snappy.c:1302-1378 | so a text of equal bytes shrinks to a twentieth, and at most 22 bytes more, whatever its length |
| SnappyMatches.CrossedCode | benchmarks/andikleen-snappy-c/snappy.c:943-986 | where a match ends, the next one is taken up at once: of a block a b b a, the second b and the second a are sent as two matches with nothing between them |
| SnappyMatches.DistinctWords | benchmarks/andikleen-snappy-c/snappy.c:905-925 | a block without two equal runs of four bytes is sent as one literal |
| SnappyMatches.Search | benchmarks/andikleen-snappy-c/snappy.c:898-925 | the search looks at 32 places in a row, then at every second one, and so on; it ends at the first place whose four bytes are those of its candidate, the last place looked at with the same hash, unless it comes within 15 bytes of the end before |
| SnappySink.CompressIov | benchmarks/andikleen-snappy-c/snappy.c:1302-1414 | an output spread over any distinct buffers holds the same bytes as a single one would, whether a block is compressed in its place or by way of the scratch buffer, and needs no more room than there are bytes |
| SnappySink.Sink.Append | benchmarks/andikleen-snappy-c/snappy.c:275-293 | bytes appended follow those that are there, across any number of full buffers |
| SnappySink.SinkBlock | benchmarks/andikleen-snappy-c/snappy.c:1354-1369 | a block adds exactly its code to the output, overshooting stores included |
| Snappy.GatherBlock | benchmarks/andikleen-snappy-c/snappy.c:1323-1349 | a block put together from fragments is the next n bytes of the text, and exactly those are consumed |
| Snappy.OwnHashIsGood | benchmarks/andikleen-snappy-c/snappy.c:500-509 | the library's own hash function is one of those that the round trip admits |
| Snappy.GetHashTable | benchmarks/andikleen-snappy-c/snappy.c:684-702 | the table has the least admissible size that holds the input, or the greatest, and is zero throughout |
| Snappy.LengthRoundTrip | benchmarks/andikleen-snappy-c/snappy.c:192-220 | the length preamble is read back from at most five bytes, whatever follows it |
| Snappy.VarintEncode32 | benchmarks/andikleen-snappy-c/snappy.c:192-220 | the branching encoder writes the preamble of the format for every 32-bit length |
| Snappy.ParsersAgree | benchmarks/andikleen-snappy-c/snappy.c:143-185 | the two length parsers of the library agree exactly on preambles whose fifth byte fits; on the others the one accepts what the other rejects |
| Snappy.OverlongPreamble | benchmarks/andikleen-snappy-c/snappy.c:143-185 | the input that shows it: five bytes, the last of them 16 |
| Snappy.LiteralLengthWraps | benchmarks/andikleen-snappy-c/snappy.c:1156-1164 | the length of a literal is one more than its field says if and only if the field is not the largest 32-bit number, which wraps to an empty literal |
| Snappy.WrappedLiteralIsEmpty | benchmarks/andikleen-snappy-c/snappy.c:1156-1164 | the input that shows it: five bytes that decompress to nothing |
| SnappyDecompress.Uncompress | benchmarks/andikleen-snappy-c/snappy.c:1277-1300 | decompression succeeds if and only if the stream decodes by the format within the limit, then yields exactly that, and never writes beyond the announced length |
| SnappyDecompress.FragmentsDoNotMatter | benchmarks/andikleen-snappy-c/snappy.c:1210-1275 | a stream cut into any non-empty fragments gives the same verdict and the same output as cut in any other way |
| SnappyDecompress.Decompressor.RefillTag | benchmarks/andikleen-snappy-c/snappy.c:1210-1275 | after a refill the whole next element's header is contiguous and no byte of the stream is lost, also when it straddles fragments; it fails only at the end or on a truncated header |
| SnappyDecompress.Decompressor.DecompressAllTags | benchmarks/andikleen-snappy-c/snappy.c:1120-1206 | the loop ends at the end of input exactly when the rest of the stream expands, having written the expansion |
| SnappyDecompress.Decompressor.ReadUncompressedLength | benchmarks/andikleen-snappy-c/snappy.c:1087-1114 | reads exactly the preamble of the format, across fragments, and fails exactly where it is missing |
| SnappyWriter.IncrementalCopyFastPath | benchmarks/andikleen-snappy-c/snappy.c:421-435 | for every distance and length from 1 on, the doubling eight-byte copy leaves the same bytes as the copy byte by byte, writes at most ten bytes too many, and ends |
| SnappyWriter.IncrementalCopy | benchmarks/andikleen-snappy-c/snappy.c:378-384 | the copy byte by byte, which repeats its own output when source and target overlap |
| SnappyWriter.CopyBack | benchmarks/andikleen-snappy-c/snappy.c:437-464 | all three ways of copying write what the copy byte by byte writes, within the space that is left, or nothing if it does not fit |
| SnappyWriter.Writer.AppendFromSelf | benchmarks/andikleen-snappy-c/snappy.c:437-464 | a copy is refused exactly when its offset is 0 or too great or its output does not fit |
| SnappyWriter.Writer.TryFastAppend | benchmarks/andikleen-snappy-c/snappy.c:478-491 | a short literal stored as sixteen bytes counts as its own bytes only |
| SnappyFormat.CopyForwardRepeats | benchmarks/andikleen-snappy-c/snappy.c:365-384 | a copy forward repeats the last `offset` bytes of the output periodically |
| SnappyFormat.ExpandConcat | benchmarks/andikleen-snappy-c/snappy.c:1120-1206 | expansion is compositional: a stream behind another one goes on from its output |
| SnappyTable.TableIsFormat | benchmarks/andikleen-snappy-c/snappy.c:1010-1056 | each of the 256 entries of the tag table is what the format says about that tag |
| SnappyTable.TableFields | benchmarks/andikleen-snappy-c/snappy.c:1010-1022 | an entry's bit fields are the size of the trailer, and the length and high offset bits of the copy |
| SnappyCompress.CompressFragment | benchmarks/andikleen-snappy-c/snappy.c:851-997 | the code of a block expands to the block behind whatever came before, is the block's code in the sense of `SnappyScript`, and grows by at most a sixtieth and three bytes |
| SnappyCompress.ScanForMatch | benchmarks/andikleen-snappy-c/snappy.c:905-925 | a match found is a true match at an earlier position, every remembered position stays behind the search, and the outcome is that of the search function |
| SnappyCompress.FindMatchLength | benchmarks/andikleen-snappy-c/snappy.c:717-786 | the match is true and cannot be extended |
| SnappyEmit.EmitLiteral | benchmarks/andikleen-snappy-c/snappy.c:546-589 | header and bytes are written exactly, also where sixteen bytes are stored for fewer |
| SnappyEmit.EmitCopy | benchmarks/andikleen-snappy-c/snappy.c:612-635 | a match of any length is written as copies of 64, perhaps one of 60, and the rest |
| SnappyEmit.LiteralExpands | benchmarks/andikleen-snappy-c/snappy.c:546-589 | by the format, a literal's code appends the literal's bytes |
| SnappyEmit.CopyCodesExpand | benchmarks/andikleen-snappy-c/snappy.c:591-635 | by the format, the copies for a match of any length append what one copy of that length appends |
| SnappyScript.MatchUnique | benchmarks/andikleen-snappy-c/snappy.c:703-786 | there is only one length at which a match is true and cannot be extended |
| BTree.BTree.Add | benchmarks/antirez-otree/btree.c:926-952 | the map gains the entry, or the call fails on a present key without `replace`; every state in the log of writes recovers to the old map up to one write and to the new map from it on, with the allocator in order |
| BTree.BTree.Find | benchmarks/antirez-otree/btree.c:961-988 | an offset is returned exactly for keys of the map, and the bytes last stored for the key lie there with their length |
| BTree.FindOn | benchmarks/antirez-otree/btree.c:961-988 | the same for the bare bytes of any file that denotes a map, so also for every state that a crash may leave, whatever became of the allocator |
| BTree.BTree.AddNonfull | benchmarks/antirez-otree/btree.c:750-840 | descent, splits on the way and the final write together keep the invariant and switch from the old map to the new one in a single write |
| BTree.BTree.SplitChild | benchmarks/antirez-otree/btree.c:848-910 | splitting a full child replaces parent and child by three new nodes, and every state on the way recovers to the same map |
| BTree.BTree.SplitRoot | benchmarks/antirez-otree/btree.c:931-943 | a full root is split under a new one, without a change of the map at any write |
| BTree.BTree.InsertLeaf | benchmarks/antirez-otree/btree.c:793-810 | value and copied leaf are written first and then linked by one write, which makes the new map |
| BTree.BTree.ReplaceValue | benchmarks/antirez-otree/btree.c:771-790 | a new value is written first and then swung in by one write; the old one is freed after it |
| BTree.BTree.WriteNode | benchmarks/antirez-otree/btree.c:403-429 | the node reads back from its chunk, and nothing outside the chunk is touched |
| BTree.ReadNode | benchmarks/antirez-otree/btree.c:434-463 | the node at an offset is returned if there is one, and only if the marks at both ends differ there is none |
| BTree.BTree.constructor | benchmarks/antirez-otree/btree.c:311-349 | a new file denotes the empty map |
| BTree.BTree.Open | benchmarks/antirez-otree/btree.c:228-290 | every file that recovers to a map opens as that map, in full working order: so does whatever a crash leaves after any write |
| BTreeStates.DenotesOne | benchmarks/antirez-otree/btree.c:961-988 | the bytes of a file denote at most one map |
| BTreeStates.RecoverHere | benchmarks/antirez-otree/btree.c:481-708 | a file on which the allocator can go on and the chunks of a tree are in use recovers to the map of that tree: what nothing refers to any more is lost, and that is all |
| BTreeStates.RecoversDenotes | benchmarks/antirez-otree/btree.c:961-988 | a file that recovers to a map denotes it |
| BTreeStates.ApartFromFree | benchmarks/antirez-otree/btree.c:353-387 | in such a file no chunk of the tree is on a free list, is one of its blocks or reaches into the free space, so that a file that is opened again never overwrites what the map needs |
| BTreeStates.SoundSwing | benchmarks/antirez-otree/btree.c:797-810 | the one pointer write that puts a new subtree in the place of an old one keeps the invariant and makes exactly the new map |
| BTreeStates.SoundSwingVal | benchmarks/antirez-otree/btree.c:773-790 | the same for the write that swings a value pointer |
| BTreeDisk.OnDiskUnique | benchmarks/antirez-otree/btree.c:434-463 | at an offset of a file there is at most one tree |
| BTreeSearch.InsertMeans | benchmarks/antirez-otree/btree.c:793-810 | putting an entry where the search ended keeps order, balance and node sizes, and means the map with that entry |
| BTreeSearch.ReplaceMeans | benchmarks/antirez-otree/btree.c:773-790 | another value in its place means the map with that entry changed |
| BTreeSearch.SplitMeans | benchmarks/antirez-otree/btree.c:848-910 | a split keeps order, equal depth and three to seven keys in every node but the root, and the map |
| BTreeSearch.SplitRootMeans | benchmarks/antirez-otree/btree.c:931-943 | a split root is a tree one level higher that means the same map |
| BTreeSearch.FoundEntry | benchmarks/antirez-otree/btree.c:970-980 | an entry met in any node of the tree is an entry of the map |
| BTreeSearch.MissingEntry | benchmarks/antirez-otree/btree.c:980-988 | a key that is not in the leaf the search ends in is not in the map |
| BTreeChange.SplitUses | benchmarks/antirez-otree/btree.c:848-910 | a split uses three new chunks instead of two old ones and all others as before |
| BTreeNode.NodeRoundTrip | benchmarks/antirez-otree/btree.c:403-463 | every node whose cells fit 64 bits reads back from its 252 bytes with all keys, values and children |
| Disk.ByteBE | benchmarks/antirez-otree/btree.c:119-158 | words are stored with the most significant byte first |
| BTreeNode.ReadsUnique | benchmarks/antirez-otree/btree.c:434-463 | the bytes of a node determine it |
| BTreeNode.CompareKeys | benchmarks/antirez-otree/btree.c:757-765 | comparing keys byte by byte is comparing them as numbers, and is 0 for equal keys only |
| AllocatorStates.ChunkAt | benchmarks/antirez-otree/btree.c:481-602 | every byte between the start of the heap and the free space lies in exactly one chunk, whose size is that of the class of the length in its size word, unless a crash has lost the chunk |
| AllocatorStates.Partition | benchmarks/antirez-otree/btree.c:481-708 | a chunk is in use, or lost by a crash, if and only if it is neither an item of a free list nor a block of one, and it is at most one of these four, in one place, in the list of its own size |
| AllocatorStates.BlockSays | benchmarks/antirez-otree/btree.c:627-708 | on disk, the blocks of a free list are linked in order and the last one holds the number of its items |
| Allocator.Store.Alloc | benchmarks/antirez-otree/btree.c:552-602 | the chunk handed out was not in use and now is, in the class of the request and with its size word; it is the newest entry of the free list of its class, or the last block of that list where that has the very size, and the free space is touched only if that list has neither; no other chunk changes its role in use or its bytes; no chunk is lost; after each write a crash leaves the allocator in order with all other chunks in use |
| AllocatorStates.FreshExactly | benchmarks/antirez-otree/btree.c:578-594 | a chunk carved from the free space leaves the file in tune with a layout if and only if it is no larger than the free space after it has been extended by 512K |
| AllocatorStates.LargeOnNew | benchmarks/antirez-otree/btree.c:578-594 | the input that shows it: a chunk of a megabyte on a new file |
| AllocatorStates.FreshSane | benchmarks/antirez-otree/btree.c:580-598 | each of the writes on the way to a fresh chunk leaves a file from which the allocator can go on |
| Allocator.Store.Free | benchmarks/antirez-otree/btree.c:627-708 | exactly the chunk given back is no longer in use: it is the newest entry of the free list of its class, or a block of that list; the free space stays as it is; no other chunk's bytes change; after each write a crash leaves the allocator in order |
| Allocator.Store.AllocFreelist | benchmarks/antirez-otree/btree.c:481-538 | the newest entry of a free list is taken, or, where it has the very size asked for, the list's empty last block; it was not in use and now is; otherwise there is nothing to take and nothing changes; the free space is never touched |
| Allocator.Store.FreeAndAlloc | benchmarks/antirez-otree/btree.c:552-708 | what was given back last is handed out first: a request of the class of a chunk that has just been freed gets that chunk, and what is in use is as before |
| Allocator.AllocRealsize | benchmarks/antirez-otree/btree.c:542-548 | the least power of two that is at least 16 and at least the size and its size word |
| AllocatorModel.ClassIsLeast | benchmarks/antirez-otree/btree.c:542-548 | the class of a request is the least exponent of a chunk it fits in |
| Allocator.Store.ReadMetadata | benchmarks/antirez-otree/btree.c:353-387 | opening a file reads back the free space and all free lists, block by block, as they were |
| Allocator.Store.constructor | benchmarks/antirez-otree/btree.c:311-349 | a new file has nothing in use |
| Rax.Rax.Insert | benchmarks/antirez-rax/rax.c:411-778 | the map gains or changes exactly that key; the return value and the old value tell which; the heap stays tidy, the counters exact, the children in order, and every leaf but the head a key; the number of nodes grows by exactly what the place where the key leaves the tree calls for; and a tree without two single-child nodes in a row that are no keys stays one, for keys that fit a node, if and only if the key does not leave it inside the run of a key above such a node, before the run's last byte |
| Rax.Rax.SizeFits | benchmarks/antirez-rax/rax.c:749-752 | the number of edge bytes of every node fits its field of 29 bits, whatever the lengths of the keys |
| RaxTight.StoppedAt | benchmarks/antirez-rax/rax.c:363-404 | the walk stops exactly where the string leaves the tree |
| RaxTight.FewNodes | benchmarks/antirez-rax/rax.c:586-776 | a key that fits a node costs four nodes at the most, however long it is |
| RaxTight.AwkwardShown | benchmarks/antirez-rax/rax.c:586-677 | a tree and a key that show how an insertion leaves two nodes in a row that would fit one |
| Rax.Rax.Remove | benchmarks/antirez-rax/rax.c:895-1092 | the map loses exactly that key, if it had it, through clean-up and recompression; the same invariant holds; and a tree without two single-child nodes in a row that are no keys stays one if and only if the key removed does not have a run next to such a node |
| Rax.Rax.Recompress | benchmarks/antirez-rax/rax.c:996-1088 | around a node where the tree may have two single-child nodes in a row, it has none afterwards |
| RaxTight.RoughShown | benchmarks/antirez-rax/rax.c:956-992 | the tree and the key that show it: FOO and FOOBAR, the example of the documentation for a removal that merges two nodes, which the code does not merge |
| Rax.Rax.Find | benchmarks/antirez-rax/rax.c:799-808 | the value of a key of the map, and nothing for any other string |
| Rax.Rax.LowWalk | benchmarks/antirez-rax/rax.c:363-404 | the walk stops at the node it claims, with the link to it and the stack of its ancestors, having matched as much as can be matched |
| Rax.Rax.AddChild | benchmarks/antirez-rax/rax.c:216-290 | exactly one node more; the new leaf is linked at the byte's place and the rest of the tree is as before |
| Rax.Rax.CompressNode | benchmarks/antirez-rax/rax.c:312-341 | a leaf becomes a compressed node over a new leaf |
| RaxWalk.StoppedLookup | benchmarks/antirez-rax/rax.c:799-808 | where the walk has stopped tells whether the string is a key, and its value |
| RaxWalk.ApartWhole | benchmarks/antirez-rax/rax.c:586-677 | splitting a compressed node at a differing byte, in the heap, is splitting it in the tree, for every split position |
| RaxWalk.BrokenWhole | benchmarks/antirez-rax/rax.c:678-731 | splitting a compressed node where the key ends, in the heap, is splitting it in the tree |
| RaxWalk.StoreMeans | benchmarks/antirez-rax/rax.c:420-446 | making a node a key changes the map at that node's string only |
| RaxRemoval.UnlinkMeans | benchmarks/antirez-rax/rax.c:911-960 | unlinking a dead branch leaves the map and restores that every leaf is a key |
| RaxRemoval.MergeWhole | benchmarks/antirez-rax/rax.c:1009-1088 | merging a chain of single-child nodes into one compressed node leaves the map and frees exactly the chain |
| RaxRemoval.ChainShort | benchmarks/antirez-rax/rax.c:1030-1045 | what a merge puts into one node is never longer than the longest key |
| RaxRemoval.LoopsMeet | benchmarks/antirez-rax/rax.c:1025-1072 | the first loop over a chain makes room for what the second one copies if and only if the whole chain fits a node |
| RaxRemoval.LoopsDisagree | benchmarks/antirez-rax/rax.c:1025-1072 | a chain that shows it: room for two bytes, and 2^29 + 1 bytes copied |
| RaxRemoval.FoundLink | benchmarks/antirez-rax/rax.c:815-825 | the link found by searching the parent for the child's address is the one it hangs on |
| RaxModel.LookupReplace | benchmarks/antirez-rax/rax.c:363-404 | a subtree replaced changes lookups of the strings through it and of no others |
| RaxIter.Collect | benchmarks/antirez-rax/rax.c:1366-1548 | seeking the first element, or the elements from or behind a string, and stepping on yields every element sought exactly once, in order, and ends |
| RaxIter.CollectBack | benchmarks/antirez-rax/rax.c:1270-1556 | seeking the last element, or the elements before or up to a string, and stepping back yields elements of the map once each, in reverse order, and ends; they are all that are sought if and only if the seek does not pass over one |
| RaxIter.Iterator.Seek | benchmarks/antirez-rax/rax.c:1366-1531 | for all seven operators, the iterator is at the nearest of the elements sought, or at the end if there is none, if and only if it is not a seek `<` or `<=` from a string that ends inside a compressed node that is a key |
| RaxIter.Iterator.SeekBeforeStop | benchmarks/antirez-rax/rax.c:1455-1524 | what a backward seek does from where the walk stopped, for every way in which it can stop: the last key before the string, or, where it ends inside a key, the last key before that one |
| RaxIter.PassesOverF | benchmarks/antirez-rax/rax.c:1511-1524 | the input that shows it: in the tree of `f` and `foobar`, seeking `<` from `foo` |
| RaxOrder.StoppedInside | benchmarks/antirez-rax/rax.c:1511-1524 | the walk along a string has used it up inside a key's run if and only if the string ends inside a key |
| RaxOrder.InsideKey | benchmarks/antirez-rax/rax.c:1511-1524 | a string that ends inside a key goes on from that key, which is a proper prefix of it |
| RaxIter.Iterator.NextStep | benchmarks/antirez-rax/rax.c:1177-1265 | a step forward reaches the next key in order of bytes, or reports that there is none and stays |
| RaxIter.Iterator.PrevStep | benchmarks/antirez-rax/rax.c:1289-1360 | a step back reaches the key before, or reports that there is none and stays |
| RaxIter.Iterator.SeekGreatest | benchmarks/antirez-rax/rax.c:1270-1286 | down the last children lies the greatest key below a node |
| RaxIter.Iterator.LeafIsKey | benchmarks/antirez-rax/rax.c:895-1092 | every leaf of the tree is a key, except the head of an empty one |
| RaxOrder.LessTotal | benchmarks/antirez-rax/rax.c:1617-1640 | strings are ordered totally |
| RaxOrder.LessTransitive | benchmarks/antirez-rax/rax.c:1617-1640 | and transitively, with a prefix before what it is a prefix of |
| RaxPacked.AddChild | benchmarks/antirez-rax/rax.c:216-290 | the memory moves for a new child leave the packed bytes of the node with the pair at its sorted place |
| RaxPacked.RemoveChild | benchmarks/antirez-rax/rax.c:848-891 | the memory moves for a removed child leave the packed bytes of the node without the first pair that has that child |
| RaxPacked.RemoveOnlyChild | benchmarks/antirez-rax/rax.c:831-846 | a compressed node that loses its child becomes a node without edges that has its value in front |
| RaxPacked.AddedPairs | benchmarks/antirez-rax/rax.c:216-290 | one pair more, in order; every other byte leads where it led |
| RaxPacked.RemovedPairs | benchmarks/antirez-rax/rax.c:830-891 | one pair less; every other byte leads where it led |
| RaxPacked.RemoveUndoesAdd | benchmarks/antirez-rax/rax.c:830-891 | removing the child just added gives the node back |
| CmpFormat.ObjectRoundTrip | benchmarks/camgunz-cmp/cmp.c:563-751 | an object of any type that its format can hold is read back, and what follows is left |
| CmpFormat.ReadsBack | benchmarks/camgunz-cmp/cmp.c:2641-2653 | whatever is read is in range, and its encoding is exactly what has been consumed: there is one encoding for each object of a type |
| CmpFormat.RefusedExactly | benchmarks/camgunz-cmp/cmp.c:2641-2653 | a stream is refused if and only if it is empty, starts with the byte 0xC1, or ends before all is there that its marker calls for |
| CmpFormat.NumberOnTheWire | benchmarks/camgunz-cmp/cmp.c:873-880 | the five bytes of a 32-bit number: its marker, and the number with the most significant byte first |
| CmpFormat.SizesOnTheWire | benchmarks/camgunz-cmp/cmp.c:1539-1621 | the same for the sizes of the widest strings, arrays and maps |
| CmpFormat.ExtOnTheWire | benchmarks/camgunz-cmp/cmp.c:1539-1621 | the same for extensions, with the tag behind the size |
| CmpFormat.FloatOnTheWire | benchmarks/camgunz-cmp/cmp.c:904-920 | floating-point numbers are sent with their bytes reversed |
| CmpFormat.SmallOnTheWire | benchmarks/camgunz-cmp/cmp.c:1539-1621 | small numbers and sizes, and truth values, are a single byte |
| CmpFormat.NumbersInRows | benchmarks/camgunz-cmp/cmp.c:267-390 | the numbers of 1, 2, 4 and 8 bytes have their markers in a row |
| CmpFormat.SizesInRows | benchmarks/camgunz-cmp/cmp.c:267-390 | and so have binaries and strings with sizes of 1, 2 and 4 bytes |
| CmpFormat.ExtsInRows | benchmarks/camgunz-cmp/cmp.c:267-390 | and extensions |
| CmpFormat.RoundTripExactly | benchmarks/camgunz-cmp/cmp.c:1539-1621 | for every object that the C types allow, reading gives back what was written if and only if the format can hold it |
| CmpFormat.CutToNothing | benchmarks/camgunz-cmp/cmp.c:1539-1621 | an input that shows it: an array of 256 elements in the shortest format is written as an empty one |
| CmpFormat.MarkerTells | benchmarks/camgunz-cmp/cmp.c:267-390 | every marker that the writers use announces its own type, also where it holds a value |
| Cmp.Context.WriteObject | benchmarks/camgunz-cmp/cmp.c:1539-1621 | the writer sends the header of the object with its sizes cut to their fields, or refuses it |
| Cmp.Context.ReadAnObject | benchmarks/camgunz-cmp/cmp.c:2641-2653 | the reader returns the object the stream starts with, or the error code of the byte that is missing or wrong |
| Cmp.Context.WriteInteger | benchmarks/camgunz-cmp/cmp.c:838-902 | the integer is sent as the object chosen for it |
| Cmp.Context.ReadInteger | benchmarks/camgunz-cmp/cmp.c:1900-1946 | the number of an integer object that fits 64 bits with a sign, else an error |
| Cmp.IntegerRoundTrip | benchmarks/camgunz-cmp/cmp.c:838-902 | every 64-bit integer is read back as it was written, a positive fixnum through the field for signed bytes |
| Cmp.ShortestInteger | benchmarks/camgunz-cmp/cmp.c:838-902 | no format among those for its sign holds the integer in fewer bytes |
| Cmp.Context.SkipObjectNoLimit | benchmarks/camgunz-cmp/cmp.c:2750-2824 | the loop with the element count does what the function `SkipFrom` says, on every stream, errors included |
| CmpSkip.SkipsExactly | benchmarks/camgunz-cmp/cmp.c:2750-2824 | for every nested value, in whatever formats it was written, the loop consumes exactly its encoding, unless it has an extension whose payload is empty or of the greatest size |
| CmpSkip.LeafSkipsExactly | benchmarks/camgunz-cmp/cmp.c:2775-2797 | a value without elements is skipped exactly if and only if it is no such extension |
| CmpSkip.EmptyExtStays | benchmarks/camgunz-cmp/cmp.c:2780-2795 | the input that shows it: behind an empty extension its tag is left |
| CmpSkip.EmptyExtMayResume | benchmarks/camgunz-cmp/cmp.c:2750-2824 | why there is no converse for nested values: an array in which the tag left over is taken for a value, and the skip ends in the right place all the same |
| CmpSkip.LoopIsGrammar | benchmarks/camgunz-cmp/cmp.c:2750-2824 | on every stream, right or wrong, the loop ends like recursive descent if and only if it fails or its count never wraps around |
| CmpSkip.WrapShown | benchmarks/camgunz-cmp/cmp.c:2750-2824 | the input that shows it: 2^31 + 1 nested maps of the largest size and 2^31 - 2 zeros, which the loop takes for a whole value |
| CmpSkip.ShortNeverWraps | benchmarks/camgunz-cmp/cmp.c:2750-2824 | the count cannot wrap on streams shorter than five times 2^31 bytes, less what it starts with |
| TinyPrint.ParseUndoesPrint | benchmarks/codeplea-tinyexpr/tinyexpr.c:300-513 | printing any tree, with parentheses where they are needed and anywhere else besides, and parsing the tokens gives the tree back with no token left |
| TinyPrint.ShownReads | benchmarks/codeplea-tinyexpr/tinyexpr.c:395-513 | the same inside an expression: the phrase is read as the tree, and the rest is left to whatever goes on with it |
| TinyGrammar.CompileExactly | benchmarks/codeplea-tinyexpr/tinyexpr.c:300-513 | the parser returns a tree if and only if the tokens are a phrase for it, in a grammar that says which sequences are phrases for which trees |
| TinyGrammar.OneTree | benchmarks/codeplea-tinyexpr/tinyexpr.c:300-513 | no sequence of tokens is a phrase for two trees |
| TinyGrammar.PhraseReads | benchmarks/codeplea-tinyexpr/tinyexpr.c:300-513 | a phrase is read as its tree in front of anything that does not go on with it |
| TinyGrammar.ChainSound | benchmarks/codeplea-tinyexpr/tinyexpr.c:416-513 | what has been read before an error is a phrase |
| TinyGrammar.SignsRead | benchmarks/codeplea-tinyexpr/tinyexpr.c:395-412 | signs are read up to the first token that is none, and amount to a minus if and only if the minuses among them are odd in number |
| TinyGrammar.SignsCompile | benchmarks/codeplea-tinyexpr/tinyexpr.c:395-412 | any operand behind any signs is compiled to itself or to its negation, accordingly |
| TinyGrammar.Precedence | benchmarks/codeplea-tinyexpr/tinyexpr.c:416-513 | of two operators the one of the higher level binds first, and the left one of equals, powers included; a sign binds more tightly than a power |
| TinyExpr.State.List | benchmarks/codeplea-tinyexpr/tinyexpr.c:502-513 | the parser computes the function of the grammar and ends, on every sequence of tokens |
| TinyExpr.State.Parameters | benchmarks/codeplea-tinyexpr/tinyexpr.c:354-370 | the loop over the parameters of a function reads them up to the last separator it may take |
| TinyExpr.TeCompile | benchmarks/codeplea-tinyexpr/tinyexpr.c:589-610 | nothing unless all tokens have been used, else the folded tree |
| TinyFold.FoldKeepsMeaning | benchmarks/codeplea-tinyexpr/tinyexpr.c:563-586 | folding changes neither the value of a tree nor its effects, under every binding and every state of the world |
| TinyFold.FoldsExactly | benchmarks/codeplea-tinyexpr/tinyexpr.c:563-586 | a tree is folded to a constant if and only if it consists of constants and pure functions |
| TinyFold.EvalInOrder | benchmarks/codeplea-tinyexpr/tinyexpr.c:520-559 | each parameter is evaluated in the state that those before it leave, and handed to the function in its place |
| TinyFold.Optimize | benchmarks/codeplea-tinyexpr/tinyexpr.c:563-586 | the loop over the parameters computes that folding |
| TinyFold.InterpretPrinted | benchmarks/codeplea-tinyexpr/tinyexpr.c:589-622 | a tree printed, compiled, folded and evaluated is worth what the tree is worth |
| TinyMath.Ncr | benchmarks/codeplea-tinyexpr/tinyexpr.c:136-149 | the binomial coefficient of the integer parts, exactly, if and only if the last product of the loop fits a machine word; infinity otherwise |
| TinyMath.ProductStep | benchmarks/codeplea-tinyexpr/tinyexpr.c:142-147 | the division in every round of the loop is exact |
| TinyMath.ProductTooBig | benchmarks/codeplea-tinyexpr/tinyexpr.c:142-147 | an input for which the coefficient fits a word and the last product does not: 3400000 over 3 |
| TinyMath.Fac | benchmarks/codeplea-tinyexpr/tinyexpr.c:122-134 | the factorial of the integer part if it fits a machine word, infinity otherwise |
| Ringbuf.RingBuf.MemcpyInto | benchmarks/dhess-c-ringbuf/ringbuf.c:203-230 | the queue holds the last bytes, as many as it has room for, of what it held and what was written, for every count and wrap |
| Ringbuf.RingBuf.Memset | benchmarks/dhess-c-ringbuf/ringbuf.c:173-201 | the same for a run of equal bytes, which need not be written beyond the size of the buffer |
| Ringbuf.RingBuf.MemcpyFrom | benchmarks/dhess-c-ringbuf/ringbuf.c:260-284 | exactly the front of the queue is taken, or nothing if there is not so much |
| Ringbuf.RingBuf.CopyTo | benchmarks/dhess-c-ringbuf/ringbuf.c:311-347 | one queue loses exactly the front that the other one gains |
| Ringbuf.SelfCopyAsserts | benchmarks/dhess-c-ringbuf/ringbuf.c:338-340 | for a buffer and itself the assertion at the end of the copy holds if and only if nothing is copied |
| Ringbuf.RingBuf.Reset | benchmarks/dhess-c-ringbuf/ringbuf.c:66-70 | the queue is empty |
| Ringbuf.RingBuf.FindChr | benchmarks/dhess-c-ringbuf/ringbuf.c:154-171 | the first place of a byte at or behind an offset, across the wrap, or the end |
| HashRing.HashRing.AddNode | benchmarks/chrismoos-hash-ring/hash_ring.c:225-267 | the ring gains exactly the node's places, also where they fall together with others, and stays sorted, with as many items as nodes times replicas; keys move to the new node only |
| HashRing.HashRing.RemoveNode | benchmarks/chrismoos-hash-ring/hash_ring.c:269-318 | the ring loses exactly the node's places; keys of other nodes stay where they are |
| HashRing.HashRing.FindNextHighestItem | benchmarks/chrismoos-hash-ring/hash_ring.c:337-370 | the binary search finds the cyclic strict successor |
| HashRing.HashRing.FindNode | benchmarks/chrismoos-hash-ring/hash_ring.c:372-385 | a key belongs to the node at the next place behind its hash |
| HashRing.HashRing.FindNodes | benchmarks/chrismoos-hash-ring/hash_ring.c:391-431 | wherever the loop ends, it ends with the nodes of a walk round the ring, each once and in the order in which they are met, as many as are wanted and as there are; the first one is the node that the key belongs to |
| HashRing.VisitWalks | benchmarks/chrismoos-hash-ring/hash_ring.c:406-429 | the items that the loop visits are a walk: each is at the next place behind the one before |
| HashRing.FirstIsMet | benchmarks/chrismoos-hash-ring/hash_ring.c:406-429 | the nodes collected are those of the items visited, each once, and of two of them the first one is met before the second one is |
| HashRing.SearchEnds | benchmarks/chrismoos-hash-ring/hash_ring.c:406-429 | the loop that looks for n nodes comes to its end if and only if n is not 0 and n nodes have a place that is the first one of its number |
| HashRing.NeverMet | benchmarks/chrismoos-hash-ring/hash_ring.c:406-429 | a ring that shows it: two nodes, each with a single place of the same number, of which a search for two nodes meets only one for ever |
| HashRing.HashRing.AllSeen | benchmarks/chrismoos-hash-ring/hash_ring.c:391-431 | if no two places have the same number, all nodes can be met |
| HashRing.HashRing.LongNamesCollide | benchmarks/chrismoos-hash-ring/hash_ring.c:76-82 | two replicas of a node come to the same place if and only if their numbers have equally many digits and do not fit into 255 bytes with the name, as far as the hash function tells apart what is hashed: a name too long has one place left for each number of digits |
| HashRing.HashedAlike | benchmarks/chrismoos-hash-ring/hash_ring.c:173-190 | the same condition for the bytes that are hashed |
| HashRing.LongestName | benchmarks/chrismoos-hash-ring/hash_ring.c:173-190 | the inputs that show it: a name of 255 bytes loses its second replica, one of 254 does not |
| HashRing.Sort | benchmarks/chrismoos-hash-ring/hash_ring.c:209-223 | what is asked of `qsort`: the same elements, by number, with null pointers at the end |
| HashRing.SortedPresent | benchmarks/chrismoos-hash-ring/hash_ring.c:292-303 | after it the items left stand in front, in order |
| Digests.Md5.Append | benchmarks/chrismoos-hash-ring/md5.c:322-358 | whatever pieces a message comes in, the state is that of the whole message |
| Digests.Md5.Finish | benchmarks/chrismoos-hash-ring/md5.c:360-381 | the digest is that of exactly the padded message of sections 3.1 and 3.2 of RFC 1321 |
| Digests.Md5PaddedParts | benchmarks/chrismoos-hash-ring/md5.c:360-378 | a padded message is the message, the byte 0x80, zeros, and in its last eight bytes, the low-order one first, the number of bits |
| Digests.Md5Starts | benchmarks/chrismoos-hash-ring/md5.c:313-320 | the words that the digest starts from are the bytes that section 3.3 of RFC 1321 gives |
| Digests.Sha1.Input | benchmarks/chrismoos-hash-ring/sha1.c:143-185 | the same for SHA-1; the context is spoilt exactly by input behind the end or by 2^64 bits of it |
| Digests.Sha1.Result | benchmarks/chrismoos-hash-ring/sha1.c:104-119 | the digest is that of exactly the padded message of section 4 of FIPS PUB 180-1, also when asked for again |
| Digests.Sha1PaddedParts | benchmarks/chrismoos-hash-ring/sha1.c:326-370 | a padded message is the message, the byte 0x80, zeros, and in its last eight bytes, the high-order one first, the number of bits |
| Digests.Sha1Starts | benchmarks/chrismoos-hash-ring/sha1.c:71-86 | the words that the digest starts from are the four of MD5 and the bytes F0 E1 D2 C3 |
| Digests.FewestZeros | benchmarks/chrismoos-hash-ring/md5.c:375-376 | the padding has as few zeros as can be |

## Findings

Where the code does not do what one would expect of it, the code is followed, and a lemma
gives the input and the exact condition.

- Snappy: a literal whose 32-bit length field is the largest number wraps to length 0
  (`Snappy.LiteralLengthWraps`, `Snappy.WrappedLiteralIsEmpty`). The two parsers of the length
  preamble disagree on a fifth byte above 15 (`Snappy.ParsersAgree`, `Snappy.OverlongPreamble`).
- B-tree: the file is extended by 512K at a time, so that a fresh chunk that is larger than the
  free space by more than that makes the number of free bytes wrap around
  (`AllocatorStates.FreshExactly`, `AllocatorStates.LargeOnNew`). With no block to give up, `btree_alloc_freelist` goes on to free
  a null pointer (btree.c:525), which fails to read at offset -8 and has no effect; it is a no-op here.
- MessagePack: sizes are cut to the width of their field before they are checked or sent, so
  an object out of range may be written as another one (`CmpFormat.RoundTripExactly`,
  `CmpFormat.CutToNothing`). The skip loop leaves the tag of an empty extension behind, and all of an
  extension of 2^32 - 1 bytes (`CmpSkip.LeafSkipsExactly`, `CmpSkip.EmptyExtStays`,
  `CmpSkip.EmptyExtMayResume`). Its count wraps around on streams of ten gigabytes and more, and
  then values are left (`CmpSkip.LoopIsGrammar`, `CmpSkip.WrapShown`, `CmpSkip.ShortNeverWraps`).
- Rax: a backward seek that has used up its string inside a compressed node steps back from
  that node without looking at it (rax.c:1511-1524). If the node is a key, which comes before the
  string, it is passed over (`RaxIter.PassesOverF`); in all other cases the seek is right
  (`RaxIter.Iterator.Seek`). When a chain of nodes is merged, the loop that counts its bytes stops at
  what a node can hold (rax.c:1036), and the loop that copies them does not (rax.c:1059-1067): they
  meet only on chains that fit (`RaxRemoval.LoopsMeet`, `RaxRemoval.LoopsDisagree`), as all do whose keys
  are no longer than that (`RaxRemoval.ChainShort`).
  Nodes in a row that would fit one are not always merged. Removing a key whose node has a run does
  not look at the neighbours (rax.c:956 asks for a single edge byte), although the comment on it
  announces the merge for any key with a single child, with FOO and FOOBAR as its example (rax.c:966-992);
  `Rax.Rax.Remove` says exactly when a removal keeps the tree as it should be, `RaxTight.RoughShown`
  is that example. Taking the run of a key apart may put a new node above one with a single child
  (`Rax.Rax.Insert`, `RaxTight.AwkwardShown`).
- tinyexpr: `ncr` gives infinity although the coefficient fits a word when the product before
  the last division does not (`TinyMath.Ncr`, `TinyMath.ProductTooBig`).
- hash_ring: the length of what is hashed is passed on in one byte, so that for a long name only
  one place is left for each number of digits (`HashRing.HashRing.LongNamesCollide`,
  `HashRing.LongestName`). The loop that looks for several nodes does not end when none is wanted, or
  when places with the same number hide nodes that it needs (`HashRing.SearchEnds`, `HashRing.NeverMet`).

## Left out

- Snappy.Compress: is the call with one buffer, whose length the source takes for granted; for
  several see `SnappySink.CompressIov`.
- SnappyCompress.FindMatchLength: the comparison of eight bytes by exclusive-or and counting zero
  bits is a search for the first differing byte; bit fields that do not overlap are added.
- SnappyCompress.CompressFragment: asks for the room that it needs, which is less than what its
  documentation asks for and than what a linear output gives it behind the preamble.
- Allocator.Store.Alloc: requests are below 2^31 bytes with their size word; a chunk that is on no
  free list must fit the free space, extended once (see `AllocatorStates.FreshExactly`). The size class
  is passed as a ghost; `budget` says how often the file may still grow before offsets leave 63 bits.
  Failing reads and writes and `errno` are not modelled.
- BTree.BTree.Add: values are at most 512K with their size word, for which there is always room;
  whether larger ones have room depends on the free space at the time. Sync barriers are not modelled;
  the log holds one state of the file for each write, in program order. Room for growth is asked for
  as 63 bits of file offsets.
- BTree.BTree.AddNonfull: the same bound on values.
- BTree.BTree.InsertLeaf: the same bound on values.
- BTree.BTree.ReplaceValue: the same bound on values.
- BTree.BTree.Open: like the source, which leaves this for later (btree.c:356), it does not check magic
  string and version. Creating a file is not safe against crashes, nor is it in the source.
  `btree_walk` and the calls of the virtual file system are not modelled.
- Rax.Rax.Insert: a value that is the null pointer is 0. Running out of memory is not modelled.
  `realloc` may move a node or not. Longer keys than a node can hold make chains that cannot be merged,
  so that nothing is said for them about nodes in a row.
- Rax.Rax.Remove: asks for keys that are no longer than a node can hold, since longer ones may lead to
  a chain that is not merged rightly (see `RaxRemoval.LoopsMeet`).
- RaxIter.Iterator.Seek: random walks, `raxCompare`, `raxShow`, freeing a tree, and the growth of the
  iterator's key buffer are left out; the operator is a value, so that a malformed one is not modelled.
- RaxPacked.AddChild: the header word and the allocation are not modelled.
- Cmp.Context.WriteObject: the stream is in memory and writing to it does not fail; floating-point
  numbers are their bytes. The `v4` writers, the typed readers other than the one for integers,
  the queries on objects, and skipping with a depth limit (whose counter counts containers, not
  nesting) are left out.
- CmpSkip.SkipsExactly: is stated for skipping by reading; a skip callback may do something else
  at the end of the stream.
- TinyExpr.TeCompile: starts from tokens; names, numbers and white space are not modelled, nor is
  the offset reported for an error. Trees are values: nodes rewritten in place by `optimize`, and
  freed, are not modelled. Right-to-left powers are a compile-time option and left out.
- TinyFold.Optimize: parameters are evaluated from the first to the last, an order that C leaves
  open. Numbers are an opaque domain; the built-in functions other than `fac` and `ncr` are left out.
- Ringbuf.RingBuf.CopyTo: between distinct buffers (see `Ringbuf.SelfCopyAsserts`); reading from and
  writing to file descriptors is left out.
- HashRing.HashRing.AddNode: the hash function is a parameter, as is the decimal text of a number;
  linked lists are sequences, and a node is its name. Which of several places with the same number
  stands first is left open, as `qsort` leaves it.
- HashRing.HashRing.FindNodes: asks for a search that ends (see `HashRing.SearchEnds`).
- Digests.Md5.Append: what is done to a block is a parameter; the shift of a length that leaves 31 bits
  wraps around.
- The benchmark harness, configurations, statistics, drivers and tests of the repository, and its
  other libraries (neural networks, vector mathematics, string pools, BASIC).
