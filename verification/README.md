# kvstore, modelled and proved in Dafny

kvstore is a C key/value server. Its commands go to four stores: a slot array, a red-black tree, a
chained hash table and a skip list. Packets arrive over TCP through a reassembly buffer, the stores are
saved to and loaded from a snapshot file, and a three-tier memory pool in C++ (thread cache, central
cache, page cache) hands out blocks. This project models these parts and proves what they keep, over
every input and every run. Where the code does not meet what it is for, the project keeps the code as it
is, shows an input, and proves exactly when it does.

`dafny verify dfyconfig.toml` checks everything.

How the files fit together:

- `Text`, `Assoc`, `Wrappers`: C strings and strcmp, lists of pairs as maps, optional values, the page size.
- `RedBlackShape` (trees and contexts as values), `RedBlackMemory` (which links represent them),
  `RedBlackTree` (nodes with parent links and one shared sentinel, changed in place).
- `SkipTowers` (levels as tower heights), `SkipList` (nodes with link arrays, changed in place).
- `HashTable`, `KvsArray`: bucket chains and slots, changed in place, with their contents as maps.
- `Framing` (what a stream and its division into receives come to), `ServerReader` (the 4096-byte buffer).
- `RdbFormat` (records as bytes), `RdbFile` (the save and load loops on a file cursor and the stores).
- `ConfigFormat` (lines as text), `ConfigFile` (the settings, fgets and the trimming loops).
- `Spans` (the page cache as a state machine), `PageCache` (the same on linked spans),
  `FreeLists` (size classes, and the operations on lists and counters), `CacheMemory` (the operations on
  the words of memory, whatever these hold, and what that does to lists), `CacheTier` (thread and central
  cache as objects), `CacheRuns` (whole runs on a size class), `Tiers` (whole runs of all three tiers),
  `PoolTier` (requests and releases through the three kinds of objects).

What the results say, in short:

- Insertion and deletion in the red-black tree, with both fixup loops on the pointer graph, keep every
  rule and change the map by just the one key; a search visits at most twice the logarithm of the size.
  `kvs_rbtree_del` frees the sentinel when the key is absent, on the empty tree too, so it leaves a
  tree in order exactly when the key was there.
- Skip list insertion keeps all levels in rank order under any random level. Removal searches by key in a
  list ordered by score: what it removes is right, and it finds the key under every draw of levels
  exactly when the keys lead to it. The header comment at kvstore.h:251 promises that adding a key again
  updates its score; the code, which the model follows, adds a second node.
- The packets handed to the handler are those of the whole stream exactly when every packet with data
  that is followed by a good header ends at a receive boundary, because the handler's NUL lands on the
  next packet. Two packets that arrive together lose the second.
- A snapshot gives the stores back exactly when keys have 1 to 1024 bytes, values at most 65535, the
  tree at most one pair (only its root is saved) and the records stay below four gigabytes.
- Configuration files are read back as written exactly when the flags are 0 or 1 and the paths are clean
  and fit the line buffer.
- No page is lost or granted twice by the page cache. It runs into a null list head exactly when the
  least sufficient size has an emptied list, and over a run no request can do so exactly when no release
  leaves an emptied list, which two cases of the following block bring about.
- The central cache hands out its list without taking it away. One thread is enough to get a block that
  a caller holds: the third of three requests of 16384 bytes. Where the page cache always has memory and
  no release is under size 0, every request of a class is served well exactly when, counting lists and
  requests alone, none comes after the last block that the code can still reach; for blocks of 128 to
  16384 bytes that means exactly that callers never hold more blocks of the class than one span has, and
  exactly then no block is handed out while a caller holds it.
- Over every run of all three tiers, with one thread, that keeps to this count and in which no release
  of pages leaves an emptied list, failed requests and releases of size 0 included, every request is
  served and no two blocks that callers hold overlap in a byte.

## Model

| member | source | states |
|---|---|---|
| RedBlackTree.RbTree.LeftRotate | kvs_rbtree.c:40-61 | the records that the C rotation writes, and no others |
| RedBlackTree.RbTree.RotateLeftAt | kvs_rbtree.c:40-61 | the links after a left rotation represent the rotated tree in the same place, wherever it hangs |
| RedBlackTree.RbTree.RightRotate | kvs_rbtree.c:63-83 | the mirrored records |
| RedBlackTree.RbTree.RotateRightAt | kvs_rbtree.c:63-83 | the mirror image of RotateLeftAt |
| RedBlackShape.RotateLeftKeeps | kvs_rbtree.c:40-83 | rotations undo each other and keep the in-order pairs |
| RedBlackTree.RbTree.InsertFixup | kvs_rbtree.c:85-131 | from a tree whose only breach may be a red parent above the red z, the loop ends in a legal red-black tree with the same pairs and nodes; grandparents are real nodes |
| RedBlackTree.RbTree.Insert | kvs_rbtree.c:133-179 | the tree stays valid; an absent key is added with its value, and a present one leaves nodes, links and contents untouched |
| RedBlackTree.RbTree.Set | kvs_rbtree.c:476-496 | a present key keeps its old value, and the answer is 0 in both cases |
| RedBlackTree.RbTree.DeleteFixup | kvs_rbtree.c:181-249 | from a tree that is one black node short on the paths through x (possibly the sentinel), the loop ends in a legal tree with the same pairs and nodes |
| RedBlackShape.DueSibling | kvs_rbtree.c:181-249 | the sibling that a round of the deletion fixup follows is never the sentinel |
| RedBlackTree.RbTree.Successor | kvs_rbtree.c:25-38 | the node whose pair comes right after x's in order, or the sentinel when x's is the last |
| RedBlackTree.RbTree.Delete | kvs_rbtree.c:251-299 | the tree stays valid, the contents lose just z's key, and the node returned has left the tree and carries z's key and value, also when the pairs of z and its successor were swapped |
| RedBlackTree.RbTree.Del | kvs_rbtree.c:509-520 | for every valid tree: it ends valid with the contents less the key if and only if the key was there; the node freed is the sentinel if and only if it was not |
| RedBlackTree.SentinelLost | kvs_rbtree.c:509-520 | new tree, one pair, deletion of another key: the call answers 0 and the sentinel of the tree is freed |
| RedBlackTree.SentinelLostAtOnce | kvs_rbtree.c:509-520 | the same at the first deletion from a new tree |
| RedBlackTree.RbTree.Search | kvs_rbtree.c:301-326 | the node under the key, or the sentinel if the map has no such key, after at most 2*log2(n+1) visited nodes |
| RedBlackShape.HeightBound | kvs_rbtree.c:301-326 | a legal red-black tree of n keys is at most 2*log2(n+1) high |
| RedBlackTree.RbTree.Get | kvs_rbtree.c:498-507 | a lookup in the map |
| RedBlackTree.RbTree.Mod | kvs_rbtree.c:522-540 | overwrites the value of a present key and answers 1 for an absent one |
| RedBlackTree.RbTree.Exist | kvs_rbtree.c:542-553 | 0 exactly for the keys of the map |
| SkipList.SkipList.Zadd | kvs_skiptable.c:39-69 | for any random level the list stays well linked and strictly in (score, key) order; the contents, keyed by (score, key), are updated at that one rank, and the length counts the nodes |
| SkipList.SkipList.EntriesInOrder | kvs_skiptable.c:43-44 | the elements of every list stand by score, and with equal scores as strcmp orders the keys |
| SkipList.SkipList.RandomLevel | kvs_skiptable.c:22-27 | a level from 0 to 6 |
| SkipTowers.LevelsNested | kvs_skiptable.c:39-69 | what level l+1 visits, level l visits too |
| SkipList.SkipList.Zrem | kvs_skiptable.c:71-99 | on 0 exactly one node, with the key, has left all of its levels and the levels not needed are given up; on -1 nothing changed; 0 exactly when the search by key meets the key |
| SkipList.ZremFinds | kvs_skiptable.c:71-99 | the search by key meets the key under every draw of levels exactly when after the header and after every smaller key comes a smaller key again or the key |
| SkipList.SkipList.ZremSucceeds | kvs_skiptable.c:71-99 | on a list in memory, whatever its levels, removal of a key that the keys lead to finds it |
| SkipList.ZremFindsInKeyOrder | kvs_skiptable.c:71-99 | where the keys are in key order too, the key is found exactly when it is there |
| SkipList.ZremMisses | kvs_skiptable.c:71-99 | "a" behind a lower-scored "b" is in the list and is not found |
| SkipList.SkipList.ZrangeEntries | kvs_skiptable.c:119-147 | exactly the first maxResults elements with a score in the range, in order: they stand together, scores before are below the range, and behind them the range, the list or the room ends; each slot has its element's score, and its key and value cut to 127 bytes, each in its place |
| HashTable.ComputeHash | kvs_hash.c:23-37 | the signed bytes added up, and C's remainder of the sum |
| HashTable.SumMeans | kvs_hash.c:27-33 | the sum is that of the bytes, less 256 for every byte from 128 up |
| HashTable.RemainderMeans | kvs_hash.c:35 | the remainder is smaller than the divisor, has the sign of the sum, and differs from it by a multiple |
| HashTable.HashableIff | kvs_hash.c:23-37 | the bucket index is in range exactly when the signed sum is not negative or a multiple of 1024 |
| HashTable.AsciiHashable | kvs_hash.c:23-37 | keys of bytes below 128 always have a bucket |
| HashTable.AccentNotHashable | kvs_hash.c:23-37 | the UTF-8 bytes of an accented e index before the table |
| HashTable.InOwnBucket | kvs_hash.c:113-158 | a key is in the table exactly when it is in the chain of its own bucket |
| HashTable.Table.Set | kvs_hash.c:113-136 | for every key: a present key is left alone and answers 1, an absent one is added and counted; the access is outside the bucket array exactly when the index is negative |
| HashTable.Table.Get | kvs_hash.c:139-158 | for every key: a lookup in the map, or an access outside the array |
| HashTable.Table.Mod | kvs_hash.c:161-193 | for every key: an access outside the array for a negative index; else overwrites the value of a present key, answers 1 for an absent one |
| HashTable.Table.Del | kvs_hash.c:199-240 | for every key: an access outside the array for a negative index; else removes just the key, from the head of its chain or behind a predecessor, and counts down; -1 and no change for an absent one |
| HashTable.Table.Count | kvs_hash.c:195-197 | the number of keys of the map |
| KvsArray.SlotArray.Set | kvs_array.c:41-90 | the pair goes into the first hole or on top and the mark moves in both cases; -1 when the mark is at 1024, 1 for a present key; slots wasted so far stay wasted |
| KvsArray.SlotArray.Get | kvs_array.c:93-112 | a lookup in the map, whatever holes there are |
| KvsArray.SlotArray.Mod | kvs_array.c:152-189 | overwrites a present key; for an absent one it answers the mark, or 1024 when the array is empty |
| KvsArray.SlotArray.Del | kvs_array.c:119-145 | removes just the key and wastes its slot unless it was the last; it passes a null key to strcmp exactly when a hole comes before the key |
| KvsArray.AbsentFaultsIff | kvs_array.c:119-145 | deleting a key that is not there hits a null key exactly when some slot has been wasted |
| KvsArray.HoleReached | kvs_array.c:119-145 | set a, set b, delete a, delete c reaches that fault |
| Framing.HeaderBytes | kvstore.c:415-443 | which bytes each number of a header lies in, high byte first, and exactly which bytes lead to which refusal |
| Framing.HeadBytes | ntyco.c:30-49 | in bytes: a buffer starts with a packet of 24 + d bytes, is refused, or has to wait, exactly when its first eight bytes, the length d in bytes 12 to 15 and its size say so |
| Framing.WholeParts | ntyco.c:16-80 | parsing a stream loses no byte: it is the packets, each well formed, and a rest that is refused exactly for a malformed header and holds no packet |
| Framing.ProcessRuns | ntyco.c:31-80 | the inner loop on the buffer agrees with a run on the stream in which a packet's NUL may sit on the next one |
| Framing.FramingIff | ntyco.c:16-80 | packets and point of refusal are those of parsing the whole stream at once if and only if every packet with data followed by a well-formed header ends at a receive boundary |
| Framing.PipeliningFails | kvstore.c:492-494 | any two good packets, the first with data: received apart both are handed on, together the second is refused |
| Framing.PipeliningWithoutData | kvstore.c:492-494 | behind a packet without data the next one may arrive at once |
| ServerReader.Drain | ntyco.c:31-80 | the loop in the 4096-byte buffer computes Framing.Process, fewer than 1048 bytes remain, and each packet gives the command number in its bytes 8 to 11 and the command split from its data |
| ServerReader.ServerReader | ntyco.c:7-82 | for any stream and any receive sizes: the packets and the refusal of Framing.Receive on the chunks received, for each packet its command number and command, and it ends only when refused or when the stream or the receives are used up |
| ServerReader.SplitInPlace | kvstore.c:488-506 | the command's key and value cut out of the buffer by NUL bytes, and nothing written behind the data |
| ServerReader.SplitMeans | kvstore.c:488-506 | with t the data before its first NUL: without a blank in t the key is t and there is no value, else key, blank and value are t, and the key holds no blank |
| ServerReader.SplitRoundTrip | kvstore.c:488-506 | "key value" is split back into key and value exactly when the key holds no blank |
| ServerReader.SplitBounds | kvstore.c:488-506 | key and value hold no NUL, the key no blank, and together they fit the data |
| RdbFormat.RecordBytes | kv_RDB.c:179-190 | the bytes of a record: kind, key length low byte first, key, value length, value |
| RdbFormat.HeaderLayout | kvstore.h:63-71 | the 32 header bytes by offset: magic number, version, flags, size, count, time, padding |
| RdbFormat.FileLayout | kv_RDB.c:141-280 | where each record lies in the file, behind a header with the size of what follows |
| RdbFormat.PrintedMeans | kv_RDB.c:167-204 | array pairs go out under kind 0, the root under 1, table pairs under 2, in this order |
| RdbFormat.ReadRecordMeans | kv_RDB.c:376-431 | for any bytes: a record is read exactly when key length is in 1..1024 and everything is there; it is what the bytes say, texts up to their first NUL |
| RdbFormat.KindsMean | kv_RDB.c:434-455 | which store each kind of record goes to, and what it does there; other kinds do nothing |
| RdbFormat.LoadMeans | kv_RDB.c:334-375 | a file is refused exactly for its length or first eight bytes, and its records end where the number in bytes 12 to 15 says |
| RdbFormat.ReadEncoded | kv_RDB.c:376-431 | a printed record is read back with key and value cut to their lengths modulo 65536, unless that key length is not in 1..1024 |
| RdbFormat.RestoreIff | kv_RDB.c:141-280 | on pair lists and bytes: load after save restores all stores if and only if all pairs are storable, the tree has at most one, and the size is below 2^32 |
| RdbFile.SaveArray | kv_RDB.c:173-192 | the records of exactly the filled slots, in slot order |
| RdbFile.SaveHash | kv_RDB.c:105-135 | the records of all chains, bucket after bucket |
| RdbFile.SaveTree | kv_RDB.c:91-99 | the root's record, or none for an empty tree |
| RdbFile.Save | kv_RDB.c:141-280 | the file is header and records of all stores, the header with their size and the array's count |
| RdbFile.LoadFile | kv_RDB.c:334-464 | with snapshots off nothing happens; else the stores change as the records in the file say, in order, up to the announced end or the first bad record; the run faults exactly at a hash key without a bucket |
| RdbFile.SnapshotIff | kv_RDB.c:141-464 | for stores in memory: what Save writes gives empty stores the old contents of all three if and only if keys have 1 to 1024 bytes, values at most 65535, the tree at most one pair, and the records fewer than 2^32 bytes |
| ConfigFormat.ApplyMeans | kv_RDB.c:490-520 | a line with an equals sign before its end sets what stands before the first one to what stands behind it |
| ConfigFormat.ApplyNothing | kv_RDB.c:491-506 | comments and lines without an equals sign change nothing |
| ConfigFormat.TrimMeans | kv_RDB.c:513-519 | exactly the blanks around a text are taken away |
| ConfigFormat.AssignMeans | kv_RDB.c:522-538 | which field each of the seven names sets, and that other names set none |
| ConfigFormat.FlagMeans | kv_RDB.c:527-537 | "yes" and "1" are read as 1, everything else as 0 |
| ConfigFormat.CapMeans | kv_RDB.c:524-535 | a path is kept up to 511 bytes |
| ConfigFormat.AtoiMeans | kv_RDB.c:522-523 | blanks, sign, digits and a rest are read as the number in the digits with the sign |
| ConfigFormat.ValueMeans | kv_RDB.c:522-523 | a digit counts for as many tens as digits follow it |
| ConfigFormat.LineEndMeans | kv_RDB.c:490 | a line read ends behind the first newline, or else at the end of the file or with a full buffer |
| ConfigFormat.FileLines | kv_RDB.c:547-569 | the 24 lines of the printed file, one by one |
| ConfigFormat.IntRoundTrip | kv_RDB.c:521-559 | every number is read back as printed |
| ConfigFormat.ConfigIff | kv_RDB.c:483-569 | load after save gives back all seven fields, whatever was set before, if and only if the flags are 0 or 1 and both paths have no line end, no blank around them and room in the line |
| ConfigFormat.PathRoom | kv_RDB.c:489-569 | that room is 244 bytes for the file and 242 for the directory |
| ConfigFile.Settings.Save | kv_RDB.c:547-569 | the file is the printed lines |
| ConfigFile.Settings.Load | kv_RDB.c:483-542 | the settings after the fgets loop are those that reading line after line gives |
| Spans.AllocKeeps | mempool/src/PageCache.cpp:10-62 | blocks stay disjoint, their pages are those from the system, lists hold their own size, and live blocks are on record |
| Spans.AllocFits | mempool/src/PageCache.cpp:14-49 | the smallest sufficient free block is granted, and what is not needed of it stays free |
| Spans.FreeKeeps | mempool/src/PageCache.cpp:65-118 | the same invariant; it merges with the following block exactly when that is on record and free, and then drops its record |
| Spans.RecordsAreStarts | mempool/src/PageCache.cpp:65-118 | no recorded address lies inside another block |
| Spans.FaultIff | mempool/src/PageCache.cpp:15-21 | a null list head is dereferenced exactly when the least sufficient size with an entry has an empty list |
| Spans.LeavesEmptyIff | mempool/src/PageCache.cpp:65-118 | a release leaves an empty list exactly when the following block is on record and either is the only free one of its size, or is live, of another size, and its size has no list |
| Spans.NeverRiskyIff | mempool/src/PageCache.cpp:10-118 | over every run, at no point can any request dereference the null head, if and only if no release leaves an empty list |
| Spans.FaultReached | mempool/src/PageCache.cpp:15-112 | three legal operations reach that state |
| Spans.RunKeeps | mempool/src/PageCache.cpp:10-118 | the invariant over every run of requests and releases |
| PageCache.Cache.AllocateSpan | mempool/src/PageCache.cpp:10-62 | on list heads, links and the address map, it does what Spans.Alloc says |
| PageCache.Cache.DeallocateSpan | mempool/src/PageCache.cpp:65-118 | likewise for Spans.Free, with the walk to the predecessor of the following span |
| FreeLists.SizeClassIff | mempool/include/Common.h:21-28 | a class's blocks are large enough, and minimal among the multiples of 8; rounded size and class index agree exactly for sizes other than 0 |
| FreeLists.LastClass | mempool/include/Common.h:8-28 | the last class is for 256 KB, the largest size that the caches serve |
| FreeLists.FreedMeans | mempool/src/ThreadCache.cpp:38-146 | up to a counter of 256, and with fewer blocks than a quarter of it, a release only puts the block in front; else the first quarter of the counter stays and becomes the counter, and of the rest as many blocks as the counter lost, or all, go in front of the central list |
| FreeLists.FreeKeepsIff | mempool/src/ThreadCache.cpp:38-60 | a release keeps every block in the thread's or the central list if and only if it returns none, or size is not 0 and the counter is not below the length |
| FreeLists.SizeZeroLoses | mempool/src/ThreadCache.cpp:97-146 | a release of size 0 past 256 blocks leaves 192 blocks in no list |
| FreeLists.CounterTrueIff | mempool/src/ThreadCache.cpp:38-60 | the counter is the list's length after a release exactly when it was before, or blocks went back |
| FreeLists.AllocatedMeans | mempool/src/ThreadCache.cpp:7-95 | where the block of a request comes from, and what thread and central cache are left with |
| FreeLists.AllocatedCounts | mempool/src/ThreadCache.cpp:7-95 | modulo 2^64 the counter moves by what the thread's list gains or loses, and by one too many when there is no block |
| FreeLists.PagesNeeded | mempool/src/CentralCache.cpp:198-211 | eight pages for blocks below 32 KB, else the least number of pages that hold one |
| FreeLists.AllocCounterIff | mempool/src/ThreadCache.cpp:7-36 | the counter wraps below zero and is the list's length again exactly when the request succeeds |
| FreeLists.AllocOwnersIff | mempool/src/CentralCache.cpp:29-106 | after a request every block has one owner exactly when the thread's list was not empty or the central one was |
| FreeLists.CutFits | mempool/src/CentralCache.cpp:52-55 | the pages cut up are the pages asked for, and the blocks lie inside them |
| CacheMemory.ReturnedHolds | mempool/src/ThreadCache.cpp:97-146 | on any memory in which thread and central list are linked lists without a common block, what the return does to the words makes them the lists that FreeLists.Returned says, and writes no other word |
| CacheMemory.FreedHolds | mempool/src/ThreadCache.cpp:38-60 | the same for a release and FreeLists.Freed |
| CacheMemory.TakenCentral | mempool/src/ThreadCache.cpp:70-95 | a fetched central list becomes the thread's list but for its first block, all are counted, and the central head still leads to that first block |
| CacheMemory.CarvedMem | mempool/src/CentralCache.cpp:57-76 | the first block of a cut span stands alone, the others are the central list in address order, and no other word is written |
| CacheMemory.TakenSpan | mempool/src/CentralCache.cpp:29-106 | a request with both lists empty gets the first block of the span, and lists and counter are those of FreeLists.Allocated |
| CacheTier.CentralCache.WalkBlocks | mempool/src/CentralCache.cpp:117-122 | on any memory, cyclic or not, the block that count steps or the end of the list lead to |
| CacheTier.CentralCache.ReturnRange | mempool/src/CentralCache.cpp:109-125 | as many blocks as the size stands for, at least one, go in front of the central list |
| CacheTier.CentralCache.Carve | mempool/src/CentralCache.cpp:57-66 | each block of a span gets its link in address order, the last one null (CacheMemory.ThreadedHooks says what that makes) |
| CacheTier.CentralCache.FetchRange | mempool/src/CentralCache.cpp:29-106 | for any memory: a list that is not empty is handed out and stays; else one block of a span, with the others as the new list |
| CacheTier.ThreadCache.ReturnToCentral | mempool/src/ThreadCache.cpp:97-146 | for any memory, the class changes as CacheMemory.ReturnedMem says (on linked lists CacheMemory.ReturnedHolds with FreeLists.FreedMeans says what that is), and no other class does |
| CacheTier.ThreadCache.Deallocate | mempool/src/ThreadCache.cpp:38-60 | for any memory and any address but null, the class changes as CacheMemory.FreedMem says (on linked lists CacheMemory.FreedHolds with FreeLists.FreedMeans says what that is), and no other class does |
| CacheTier.ThreadCache.Fetch | mempool/src/ThreadCache.cpp:70-95 | if only the counting walk ends: one fetched block is the result, what it links to the thread's list, and all are counted |
| CacheTier.ThreadCache.Allocate | mempool/src/ThreadCache.cpp:7-36 | if only the counting walk ends, the block and the class are those of CacheMemory.TakenMem; other classes untouched |
| CacheRuns.StepSound | mempool/src/ThreadCache.cpp:7-146 | whatever callers write into their blocks, a request to a thread that is not short is served with a block no caller holds, and every operation leaves thread list, central list and callers without a common block |
| CacheRuns.ShortUnclean | mempool/src/CentralCache.cpp:37-105 | a thread without blocks whose central list has been handed out is served badly: the walk meets a block that a caller holds, or never ends |
| CacheRuns.CleanIff | mempool/src/ThreadCache.cpp:7-146 | over every run with memory and without size 0, all requests are served well if and only if by count none comes after the last block within reach |
| CacheRuns.RunSound | mempool/src/ThreadCache.cpp:7-146 | over every run that keeps to the count, failed requests and size 0 included, all requests are served well and no block is in two places |
| CacheRuns.RunConserves | mempool/src/ThreadCache.cpp:7-146 | as long as all requests of a steady run are served well, every block supplied is in exactly one place and the counter is true |
| CacheRuns.WithinIff | mempool/src/ThreadCache.cpp:7-95 | for 2 to 256 blocks to a span: all requests are served well, and equally no block is handed out twice, if and only if callers never hold more blocks than one span has |
| CacheRuns.TwoTo256 | mempool/src/CentralCache.cpp:52-55 | these are the classes of 128 to 16384 bytes |
| CacheRuns.ThreeRequests | mempool/src/CentralCache.cpp:37-105 | three requests of 16384 bytes by one thread on new caches: the third gets the block that the second holds |
| CacheRuns.DirtySpan | mempool/src/CentralCache.cpp:90-92 | a single-block span that is not zeroed: what is written in it is the next block handed out |
| Tiers.GrantUnused | mempool/src/CentralCache.cpp:37-82 | the blocks of a span just granted are in no list and with no caller, of any class |
| Tiers.StepSound | mempool/src/PageCache.cpp:10-118 | every operation of the three tiers, of callers and of other clients of the page cache keeps pages, cuts and the lists of all classes in order |
| Tiers.RunApart | mempool/src/PageCache.cpp:10-62 | over every run of the three tiers in which no class is asked beyond its count and no release of pages leaves an empty list, all requests are served well and no two blocks that callers hold, of any sizes, overlap |
| Tiers.RunCleanIff | mempool/src/ThreadCache.cpp:7-146 | where the page cache has memory and no release is of size 0, that count is the exact condition for all requests of all classes |
| Tiers.RunWithinIff | mempool/src/ThreadCache.cpp:7-146 | over every run of the three tiers with blocks of 128 to 16384 bytes: all requests are served well if and only if callers never hold more blocks of a class than one span has, and then no two blocks that they hold overlap |
| PoolTier.Allocate | mempool/src/ThreadCache.cpp:7-95 | page cache, central cache and thread cache as objects, run together: the span granted meets all that the caches need, the objects hold the next state of the pool, and the block is one no caller had |
| PoolTier.Release | mempool/src/ThreadCache.cpp:38-146 | likewise for a release |
| Text.LessIff | kvs_skiptable.c:44 | one string comes before another exactly when, behind a common beginning, it ends or goes on with a smaller byte |
| Text.Trichotomy | kvs_rbtree.c:142-156 | the sign of strcmp orders keys totally, as the three-way branch of the descent needs |

## Left out

- Operations are atomic: locks, atomics and threads that interleave inside an operation are not modelled.
- Sockets, coroutines, the command switch, response packets, clients and the auto-save thread.
- Allocation failure, and memory that `kvs_malloc` hands out twice.
- The links of a new node that nobody has set yet, the sentinel's among them (kvs_rbtree.c:446-448), are taken to lead to the node itself; read as anything else, a deletion of an absent key follows unset memory.
- RedBlackTree.RbTree.DeleteSentinel: does not say what unlinking and fixup do to the nodes when the sentinel is deleted, because they follow a parent link that an earlier deletion may have left on a freed node; that the sentinel is freed afterwards holds whatever they do.
- HashTable.Table.Set: does not say what an access in front of the bucket array reads or writes, and neither do get, mod, del and exist; it is undefined in C. The model ends the command there, with the table unchanged.
- Bucket and slot arrays are taken to start out null (kvs_hash.c:77, kvs_array.c:15), which the code does not see to.
- The sum of bytes in `_hash` is a mathematical integer: keys are shorter than a packet, so no int overflows.
- Scores are real numbers: no NaN, no infinities, no rounding; parsing of scores is not modelled.
- The checksum: it is off in the shipped configuration (kvs.conf:18), the branch that writes it reads from a file opened for writing only (kv_RDB.c:154, 229), and nothing is claimed about its table. Backups and their file names.
- RdbFile.LoadFile: the announced record count is not looked at, as in the code; nothing is claimed of files whose checksum would be wrong.
- The skip list is not saved by the code, and so not part of the snapshot.
- The wording of the comment lines in the configuration file is a parameter: any ten lines that begin with a sharp and fit the line buffer. Numbers beyond 32 bits, which atoi leaves undefined, are read as what they say.
- Spans.Alloc: answers of mmap are new memory at addresses other than 0; a request for 0 pages, which nothing makes, is not modelled.
- Tiers.RunApart: a span that becomes a single block is taken to be zeroed, as mmap leaves it; a span reused from the page cache need not be (CacheRuns.DirtySpan).
- CacheTier.CentralCache.ReturnRange: the delayed return that it triggers (CentralCache.cpp:127-131, 140-195) and the span trackers, which count free blocks on top of an earlier count, are not modelled: the central cache never gives a span back.
- CacheRuns.CleanIff: one thread's cache over the central cache; runs in which several threads take turns at one central list are not modelled. One thread is enough for a block to be handed out twice.
- Of a block's content only the first word is modelled, in which free blocks hold their links.
- `kvs_rbtree_destory`, the two older C memory pools, `hash.c` and the unused table of sorted sets.
- Requests above 256 KB go to malloc and free; the models hand them through.
