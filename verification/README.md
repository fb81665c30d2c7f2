# A verified model of the CS744 key-value engine

The server keeps its data in two layers. `KVCache` is a write-back cache of nodes threaded on hash
chains and on one, 32 or 128 LRU stripes; a deleted key stays in it as a tombstone until it is evicted.
`KVStore` is a set of up to 1021 files. Each file is an array of 544-byte records: 8191 bucket heads,
then overflow slots appended at the end of the file. A non-empty bucket is a circular doubly linked list
through the records. `MemoryPool` hands out the cache's nodes. This project models the four parts in
Dafny and proves that together, over any number of clean shutdowns and restarts, they answer every
request sequence as one dictionary does.

## How it is built

| file | part |
|---|---|
| `Server.dfy` | the worker's dispatch and whole lives of the process, down to the bytes on the disk |
| `Dictionary.dfy`, `Strings.dfy` | the reference dictionary, on 256-byte buffers and on C strings |
| `KVCache.dfy`, `CacheLists.dfy`, `MemoryPool.dfy` | the heap: node objects, pointer lists, counters, free list |
| `Engine.dfy`, `Run.dfy` | the same operations as functions on values, and runs of them |
| `Balance.dfy`, `Recency.dfy`, `Inclusion.dfy` | theorems about runs: stripe sizes, LRU order, larger caches |
| `KVStore.dfy`, `Scan.dfy`, `Rings.dfy`, `AssocList.dfy` | files, the linear scan, rings inside the record array, what a ring means |
| `ByteFile.dfy` | bytes and the stream position under the record array |
| `Message.dfy`, `Weights.dfy` | message buffers, the two key hashes, the table of hash2 weights |
| `Types.dfy`, `Lists.dfy`, `Modular.dfy` | shared types, sequence facts, division facts |

The imperative parts (`FStream`, `KVStore`, `KVCache`, `MemoryPool`, `KVMessage`, the server loop) are
classes and methods with the source's branches. Each is proved against a function or a value-level
relation: bytes against records, records against rings, rings against association lists, association
lists against one finite map, pointers against sequences, and the cache against the functions of
`Engine`. The theorems are lemmas about those functions. `Server.RunSessions` puts all layers together.

Modelling choices:

- One request, eviction or drain step at a time; no thread interleaves with it.
- Opening, reading, writing and closing a file succeed, and there is no stream buffer: closing a stream
  makes its content the file's. Words are little-endian. The disk object outlives the store and the cache, and
  carries a ghost log of every write and delete; `KVStore.Led` says that the log since an earlier moment explains
  the bytes: every bucket's list, every file's record count, and that dead slots stayed dead. Each operation of
  store, cache and server promises it.
- The three copies of the ring walk in `KVStore.hpp`, and the three copies of the chain walk in
  `KVCache.hpp`, are one method each (`KVStore.KVStore.FindEntry`, `KVCache.FindInChain`).
- A `KVMessage` buffer is a sequence field that the methods reassign byte by byte, so that copying a message copies it.
- A request with an unknown code is that one byte; its reply is one error byte.
- `uint64_t` products of offsets and hash sums are reduced modulo 2^64 where the source computes them. The
  index counters of the stripes cannot wrap, since the source reduces them after each increment.
- A vector that has to grow picks its own capacity; nothing depends on which.

Where the comments in the source and the code differ, the model follows the code. The comment on `cache_GET_ptr`
says the dirty bit remains unchanged, but a key loaded from the store enters the cache as DIRTY. The flag
ALLGOOD is described but never set. The chain's `tail`, described as unused, is kept up to date.

Three statements one might expect are false as they stand, and are stated with their exact condition:

- A cache can serve insertions from the start if and only if its size is not 0 (`Run.EmptyUsable`).
- After `cache_clean` the cache can insert again if and only if the pool still had a free node before:
  the drain does not give nodes back (`Engine.DrainedUsable`; `Run.DrainedFullCache` is a reachable cache that
  cannot). The source exits the process right after it.
- With strings packed into 256-byte buffers by `set_key` and `set_value`, all runs over a set of keys are answered
  as the dictionary of strings answers them if and only if no two of the keys agree on their first 256 bytes
  (`Strings.MetExactlyWhenToldApart`); `Strings.LongKeysMerge` gives a failing run for any two keys that do.

## Model

| member | source | states |
|---|---|---|
| Server.RunSessions | src/KVServer.cpp:172-244 | for every sequence of server lives with any cache sizes of at least 1 over one disk, the reply bytes to all requests equal those of one dictionary, the disk is left holding that dictionary, and nothing else if it held nothing else before; and the logged store operations of the whole run account for every bucket, every slot and every dead slot of every file |
| Server.RunSession | src/KVServer.cpp:293-297 | one life from opening the disk to the clean shutdown gives the replies and the final store content of the functional run |
| Server.ServeAll | src/KVServer.cpp:172-244 | the worker loop with its one reused message performs the functional run request by request, needs file room for at most one entry per request, and changes the disk only by logged store operations |
| Server.ServeOne | src/KVServer.cpp:184-243 | one dispatch changes cache and store as the functional step does; codes 1, 2, 3 are answered by status byte 200 or 240 and, for a read or an error, 256 bytes that are the value or "Entry not found"; any other code changes nothing and gets the byte 240; and the store is called at most once, namely for an eviction into a full cache or for a delete of a key that is not resident |
| Dictionary.Solutions | src/PythonSolutionsGenerator.py:1-20 | the solutions loop produces the request count and exactly the answers, and ends with the dictionary, that the reference semantics assigns to the request sequence |
| Dictionary.RepliesAreAnswers | src/KVServer.cpp:194-243 | when all codes are known, the wire replies are the answers of the solutions generator, one for one |
| Dictionary.RepliesConcat | src/PythonSolutionsGenerator.py:4-20 | answering two request sequences in a row is answering their concatenation |
| Dictionary.WireTellsApart | src/KVMessage.hpp:11-20 | no two answers have the same bytes, and the first byte is 200 for success and 240 for an error |
| Dictionary.WireBytes | src/KVServer.cpp:194-243 | the reply to each request code, in numbers |
| Dictionary.RequestMeaning | src/PythonSolutionsGenerator.py:4-20 | code 1 reads, 2 stores and 3 removes, and which of them fail on an absent key |
| Dictionary.ErrorText | src/KVMessage.hpp:14 | the error bytes are the text "Entry not found" and NULs |
| Run.StepBytes | src/KVServer.cpp:194-243 | the bytes of a reply follow from the joint view of the key alone |
| Run.SessionsRefine | src/KVCache.hpp:166-441 | whole-run refinement on values: any sessions over a store that represents a dictionary reply as it does and leave a store representing the updated dictionary |
| Run.SessionRefines | src/KVServer.cpp:425-443 | the same for one session, whose final drain makes the store alone represent the dictionary |
| Run.ServeRefines | src/KVCache.hpp:166-393 | from any usable cache-and-store pair that jointly represents a dictionary, serving a request sequence replies as the dictionary and still represents it |
| Run.StepRefines | src/KVServer.cpp:194-243 | the same for a single request |
| Run.StepLooks | src/KVCache.hpp:166-393 | the reply depends only on the joint view of the key, and the view of every triple changes as one dictionary entry would |
| Run.SessionStores | src/KVServer.cpp:425-443 | a session over a store that holds exactly a dictionary leaves exactly the updated dictionary: each key under the triple of its hashes, and no other triple |
| Run.ServeAliens | src/KVCache.hpp:166-393 | an entry stored under hashes that are not those of its key is never touched by any request |
| Run.DrainedFullCache | src/KVCache.hpp:480-493 | a cache of size 1 after one PUT can insert again; after the drain it cannot |
| Run.Coupling | src/KVCache.hpp:229-296 | in every reachable state a resident is DIRTY exactly when the dictionary maps its key to its value, TODELETE exactly when the dictionary lacks the key, and a non-resident key has its dictionary value in the store |
| Run.StepUsable | src/KVCache.hpp:272-288 | every request keeps the cache invariants, so no resident is ever ALLGOOD or NOT_IN_CACHE and there is always a node to hand out |
| Run.FreeNodesFirst | src/KVCache.hpp:222-225 | while the pool has a node, no request drops a resident and only a DELETE changes the store |
| Run.InsertTakesFreeNode | src/KVCache.hpp:218-242 | caching a key while the pool has a node: the whole new cache, and an untouched store |
| Run.InsertEvictsWhenFull | src/KVCache.hpp:222-242 | caching a key while the pool is empty: residents, counters, and a store that differs by the flushed victim only |
| Run.HitChangesOneNode | src/KVCache.hpp:176-206 | a request for a resident key never reaches the store, changes that node only, and moves it to the front of its stripe unless it deletes a tombstone |
| Run.MissLeavesCache | src/KVCache.hpp:204-211 | a request for an absent key that caches nothing leaves the cache alone; a DELETE goes to the store |
| Run.EmptyUsable | src/KVCache.hpp:145-154 | a fresh cache has a node to hand out if and only if its size is at least 1 |
| Engine.EvictInvisible | src/KVCache.hpp:397-441 | an eviction changes the joint cache-then-store view of no triple |
| Engine.RemoveInvisible | src/KVCache.hpp:427-436 | nor would evicting any other resident in its place |
| Engine.InsertLooks | src/KVCache.hpp:218-242 | caching a new entry, with or without an eviction, changes the view of that triple only |
| Engine.GetLooks | src/KVCache.hpp:166-211 | a GET returns the joint view of the key, tombstones included, and changes no view |
| Engine.PutLooks | src/KVCache.hpp:247-314 | a PUT makes the view of the key the new value, also over a tombstone holding an equal old value, and changes no other view |
| Engine.DeleteLooks | src/KVCache.hpp:319-380 | a DELETE succeeds exactly when the view of the key was present, and makes it absent in cache or store |
| Engine.NoVictimIffEmpty | src/KVCache.hpp:402-411 | the bounded scan finds no victim exactly when all stripes are empty, that is when nothing is resident; it then has drawn 16385 times |
| Engine.EvictShape | src/KVCache.hpp:402-440 | an eviction takes the last element of the first non-empty stripe drawn, and nothing else, out of the cache |
| Engine.DrainMovesEverything | src/KVCache.hpp:480-493 | the drain empties the cache and leaves in the store alone what cache and store held together |
| Engine.DrainedUsable | src/KVCache.hpp:480-493 | a drained cache can insert again if and only if the pool had a free node before the drain |
| Balance.RunIsBalanced | src/KVCache.hpp:534-595 | after any run: residents and free nodes add up to the cache size, stripe i holds one node for each t in [evictions, inserts) with t mod S = i, stripe sizes differ by at most one, a full cache finds its victim at the first draw, and no eviction happens before the pool is empty |
| Balance.StepBalanced | src/KVCache.hpp:222-228 | every request keeps that balance |
| Balance.FirstDrawHits | src/KVCache.hpp:402-407 | in a balanced cache with a resident the eviction scan never meets an empty stripe, and the victim is the last node of the stripe the counter names |
| Balance.EvenCounts | src/KVCache.hpp:572-595 | over any interval of draws, two stripes are drawn equally often up to one |
| Recency.VictimIsLeastRecent | src/KVCache.hpp:413-418 | after any run the next victim was last used before every other node of its stripe, and with one stripe before every other resident |
| Recency.StepStamped | src/KVCache.hpp:191-196 | every request keeps each stripe strictly ordered from newest to oldest use, where PUTs, hits, loads and first deletions are uses |
| Inclusion.LargerCacheIncludesSmaller | src/KVCache.hpp:148 | from empty caches of sizes c <= c' below 1024 over the same store, after the same requests, every resident of the smaller cache is resident in the larger |
| Inclusion.SameRelativeOrder | src/KVCache.hpp:598-604 | and any two of them stand in the same recency order in both |
| Inclusion.StepIncludes | src/KVCache.hpp:166-441 | one request keeps the inclusion although tombstones and absent keys send the two caches down different branches |
| Inclusion.EffectsMatch | src/KVCache.hpp:184-210 | exactly how the effects of one request on the two caches can differ |
| KVCache.KVCache.constructor | src/KVCache.hpp:145-154 | a new cache, of any size, has 16384 chains and 128, 32 or 1 stripes by its size, and as many free nodes as its size; it is valid, empty, and owns only new objects |
| KVCache.KVCache.CacheGetPtr | src/KVCache.hpp:166-211 | on the heap: the GET of the specification, returning null exactly for absent keys, with the caller's value untouched, and otherwise the resident node whose value it fills in |
| KVCache.KVCache.CachePut | src/KVCache.hpp:247-314 | on the heap: the PUT of the specification; the NOT_IN_CACHE recovery branch is dead |
| KVCache.KVCache.CacheDelete | src/KVCache.hpp:319-380 | on the heap: the DELETE of the specification, on a hit and on a miss |
| KVCache.KVCache.CachePutNewEntry | src/KVCache.hpp:218-242 | on the heap: the insert of the specification, reusing a victim exactly when the pool is empty; with a free node the disk is untouched and all residents stay, otherwise the victim's flush is the one store call |
| KVCache.KVCache.CacheEviction | src/KVCache.hpp:397-441 | on the heap: the eviction of the specification; null exactly when the cache is empty, otherwise the victim's node, on no list any more, after exactly one store call; the NOT_IN_CACHE branch is dead |
| KVCache.KVCache.CacheClean | src/KVCache.hpp:480-493 | the drain loop terminates with an empty cache and the store of the specification's drain |
| KVCache.KVCache.DrawVictimStripe | src/KVCache.hpp:402-411 | the scan with at most 16384 redraws stops at the stripe the specification names, and leaves the wrapped counter at the number of draws modulo S |
| KVCache.NextIdx | src/KVCache.hpp:549-568 | a draw from a counter that is reduced after each increment is the unreduced count modulo n |
| KVCache.KVCache.FindNode | src/KVCache.hpp:176-182 | the chain walk finds the node of a triple if it is resident and null otherwise |
| KVCache.KVCache.Promote | src/KVCache.hpp:598-604 | moving a node to its stripe's head keeps both list families well-formed and changes the stripe's order only |
| KVCache.KVCache.Unthread | src/KVCache.hpp:427-428 | after unlinking, both list families are well-formed and hold all residents but that one |
| KVCache.KVCache.AddNode | src/KVCache.hpp:227-240 | after linking a filled-in node, it is the head of chain hash1 mod 16384 and of the drawn stripe, and all residents are still on exactly one list of each family |
| KVCache.KVCache.StripeIsList | src/KVCache.hpp:606-637 | in a valid cache, walking a stripe from its head meets its residents in their order, with matching back links and tail |
| KVCache.KVCache.ChainIsList | src/KVCache.hpp:639-672 | the same for a chain, which holds exactly the residents whose hash1 leaves its index modulo 16384 |
| KVCache.UnthreadShape | src/KVCache.hpp:639-655 | removing one position from a chain and one from a stripe leaves the two families listing the same remaining residents, each once |
| KVCache.AddShape | src/KVCache.hpp:658-672 | adding a new triple in front of a chain and a stripe keeps the two families listing the same residents, each once |
| CacheLists.RemoveFromDllLRU | src/KVCache.hpp:606-622 | unlinking the k-th node gives the doubly linked list without that position, head and tail included |
| CacheLists.InsertToHeadLRU | src/KVCache.hpp:625-637 | gives the list with the node in front |
| CacheLists.MoveToHeadLRU | src/KVCache.hpp:598-604 | gives the list with the k-th node moved to the front |
| CacheLists.RemoveFromDllHT | src/KVCache.hpp:639-655 | the same for a hash chain, whose tail is kept as well |
| CacheLists.InsertToHeadHT | src/KVCache.hpp:658-672 | the same for a hash chain |
| MemoryPool.MemoryPool.AcquireInstance | src/MyMemoryPool.hpp:69-77 | hands out the last node of the free list, which was not handed out before, allocates only when empty, and keeps free and handed-out nodes a partition of all nodes |
| MemoryPool.MemoryPool.ReleaseInstance | src/MyMemoryPool.hpp:90-94 | appends a handed-out node to the free list, always within the vector, and keeps the partition |
| MemoryPool.MemoryPool.AllocateOneBlock | src/MyMemoryPool.hpp:97-119 | appends one block of new nodes to the free list; the vector keeps its capacity or doubles the nodes, and either way every push finds a cell |
| MemoryPool.MemoryPool.Init | src/MyMemoryPool.hpp:33-38 | leaves one block, all of it free |
| MemoryPool.PartitionSize | src/MyMemoryPool.hpp:55-63 | free and handed-out nodes add up to the allocated ones |
| KVStore.KVStore.constructor | src/KVStore.hpp:33-55 | start-up marks exactly the files that are on the disk |
| KVStore.KVStore.ReadFromDb | src/KVStore.hpp:63-149 | returns what the store's mapping holds for the triple, which is on the disk in file hash1 mod 1021 behind head slot hash1 mod 8191 |
| KVStore.KVStore.WriteToDb | src/KVStore.hpp:153-315 | the mapping is updated at the triple, its bucket's list is the association-list update, every other ring in every file keeps its slots and entries, the file grows by one slot exactly when a non-empty bucket lacked the triple; files other than hash1 mod 1021 keep their bytes, the entry is found from head slot hash1 mod 8191 along the right links, the slots of its ring are named, and the call is logged |
| KVStore.RunCommands | src/TestingDatabase.cpp:118-141 | any sequence of writes and deletes, each by a new process, keeps all rings well-formed; every bucket's list is what the association-list operations make of it, every file grows by exactly its appends, no dead overflow slot comes back to life, and each delete reports whether its triple was stored |
| KVStore.OnDisk | src/KVStore.hpp:92-145 | every stored triple is in file hash1 mod 1021, on the ring that starts in head slot hash1 mod 8191 |
| KVStore.NotOnDisk | src/KVStore.hpp:341-458 | a triple that is not stored is in no live record of its file |
| KVStore.RingLinks | src/KVStore.hpp:288-312 | around each ring the right link names the next slot and the left link the one before, and every record on it hashes to that file and head |
| KVStore.RanThen | src/KVStore.hpp:153-464 | runs of store operations compose: lists, mapping, slot counts and dead slots of the whole follow from the parts |
| KVStore.RanOne | src/KVStore.hpp:281-293 | one write or delete is a run of length one |
| KVStore.SlotsFromEmpty | src/KVStore.hpp:183-190 | from an empty disk, a file always has 8191 records plus one for each append ever made to it |
| KVStore.BytesDetermineContents | src/KVStore.hpp:33-55 | two descriptions of the same bytes describe the same mapping, so a restarted process finds what its predecessor stored |
| KVStore.KVStore.DeleteFromDb | src/KVStore.hpp:320-464 | succeeds exactly when the triple was stored; removes it from the mapping, its bucket's list and every live record, touches no other ring and no other file, no file grows or is created, and the slots left in its ring are named |
| KVStore.KVStore.CreateFile | src/KVStore.hpp:167-191 | a new file is 8191 blank records, MAX words and NUL buffers, all buckets empty, and changes no list elsewhere |
| KVStore.KVStore.FindEntry | src/KVStore.hpp:232-275 | the ring walk terminates; it stops at the position holding the triple with that node's neighbours, or reports that no position holds it and ends at the last node |
| KVStore.KVStore.WriteEntry | src/KVStore.hpp:204-312 | on the open file: a change confined to the triple's bucket, whose list becomes the association-list update; the ring keeps its slots, starts in the head slot, or gains the end of the file |
| KVStore.KVStore.DeleteEntry | src/KVStore.hpp:341-458 | on the open file: a change confined to the triple's bucket, whose list loses the triple, in all three shapes of deletion: the ring vanishes, loses that slot, or for a head with successors loses the second slot |
| KVStore.KVStore.AppendAt | src/KVStore.hpp:281-312 | the byte writes of an append lay down the new record at the end of the file and link it to its two neighbours, which may be one node |
| KVStore.KVStore.UnlinkAt | src/KVStore.hpp:435-450 | the byte writes blank the record and join its two neighbours, which may be one node |
| KVStore.KVStore.PullUpAt | src/KVStore.hpp:375-410 | the seek back by one entry lands on the second record; it is killed, and its old content replaces the head's but for the left link |
| KVStore.KVStore.ReadDbFile | src/KVStore.hpp:466-510 | the dump lists, in ascending order of their index, exactly the records whose links are not both 2^64 - 1, and reports the number of all records |
| KVStore.DumpIsContents | src/KVStore.hpp:486-506 | the dump meets each stored pair of the file exactly once and nothing else |
| KVStore.RewrittenOK | src/KVStore.hpp:204-312 | rewriting one bucket keeps all files well-formed, every other ring unchanged, and dead overflow slots dead |
| KVStore.PutHolds | src/KVStore.hpp:153-315 | if one list got the association-list update, the lists together hold the updated map |
| KVStore.DeleteHolds | src/KVStore.hpp:320-464 | if one list lost a triple, the lists together hold the map without it |
| Rings.ReplaceRing | src/KVStore.hpp:204-312 | a well-formed change of one bucket leaves the whole file well-formed: rings disjoint, every slot dead or on the ring its own hash names |
| Rings.OtherBucket | src/KVStore.hpp:95-145 | every other bucket keeps its ring and entries although overflow slots are shared |
| Rings.AppendOK | src/KVStore.hpp:288-312 | appending adds one entry at the end of the list and one slot at the end of the ring |
| Rings.UnlinkOK | src/KVStore.hpp:435-450 | unlinking an interior or last node removes exactly that position |
| Rings.PullUpOK | src/KVStore.hpp:375-410 | deleting the head of a longer ring is taking the tail of the list, also with two nodes |
| Rings.SetValueOK | src/KVStore.hpp:235-267 | writing in place changes one value of the list and no link |
| AssocList.GetPut | src/KVStore.hpp:153-315 | after an update the list maps the triple to the value and everything else as before |
| AssocList.GetDelete | src/KVStore.hpp:320-464 | after a removal the list lacks the triple and maps everything else as before |
| AssocList.AtIndex | src/KVStore.hpp:259-267 | at a position holding the triple, update and removal are the in-place change and the removal of that position |
| Scan.LiveIsUnionOfRings | src/KVStore.hpp:497-499 | a slot is not dead exactly when it is on some ring |
| Scan.ScanIsContents | src/KVStore.hpp:486-506 | the linear scan, read as an association list, has no triple twice and agrees with the ring of every triple of the file |
| Scan.ChangeKeepsDead | src/KVStore.hpp:387-393 | no change of a bucket touches a dead overflow slot |
| ByteFile.OverwriteWord | src/KVStore.hpp:300-312 | writing eight bytes at a field's offset changes that field of that record and no other byte's meaning |
| ByteFile.OverwriteBlock | src/KVStore.hpp:409-410 | the same for a 256-byte buffer |
| ByteFile.AppendRecord | src/KVStore.hpp:281-293 | 544 bytes behind the last record become the next record, and the file length stays a multiple of 544 |
| ByteFile.RecordLayout | src/KVStore.hpp:22-25 | record i is bytes 544 i to 544 i + 544: links, hashes, key and value at offsets 0, 8, 16, 24, 32 and 288 |
| ByteFile.WordBytes | src/KVStore.hpp:97-100 | a word on the disk is eight bytes, least significant first |
| ByteFile.RecordRoundTrip | src/KVStore.hpp:22-25 | a record written and read back is the same record |
| ByteFile.DecodeEncode | src/KVStore.hpp:97-100 | a word written little-endian and read back is the same word |
| ByteFile.GetSeekVal | src/KVStore.hpp:515-518 | the wrapping product is the exact byte offset for every index a file can hold |
| ByteFile.FStream.ReadWord | src/KVStore.hpp:97-100 | a read at a field's offset returns that field of that record |
| ByteFile.FStream.AppendEntry | src/KVStore.hpp:288-293 | the six writes at the end of the file append one record |
| Message.KVMessage.CalculateKeyHash | src/KVMessage.hpp:122-126 | the wrapping loop computes both hashes of the key: the bytes as digits in base 33, and the same with weights, modulo 2^64 |
| Message.HashesArePolynomials | src/KVMessage.hpp:123-126 | each hash is the sum of 33^(255-i) times byte times weight, reduced modulo 2^64 once |
| Message.HashesArePlain | src/KVMessage.hpp:122-126 | hash1 is the plain base-33 sum of the key bytes and hash2 the weighted one, each modulo 2^64, and a triple carries them in that order |
| Message.HashTrace | src/KVMessage.hpp:123-126 | both hashes start from 0 and take the source's step at each of the 256 bytes |
| Weights.WeightsFrom0 | src/KVMessage.hpp:95-99 | the weights of positions 0 to 63 are the source's |
| Weights.WeightsFrom64 | src/KVMessage.hpp:99-104 | the weights of positions 64 to 127 |
| Weights.WeightsFrom128 | src/KVMessage.hpp:104-109 | the weights of positions 128 to 191 |
| Weights.WeightsFrom192 | src/KVMessage.hpp:109-113 | the weights of positions 192 to 255 |
| Weights.WeightsArePermutation | src/KVMessage.hpp:88-92 | the table is a shuffle: every number from 0 to 255 is the weight of exactly one position |
| Message.OnePositionHashes | src/KVMessage.hpp:123-126 | keys that differ in exactly one position always differ in hash1, and differ in hash2 unless the weight of that position is 0 |
| Message.BlindPosition | src/KVMessage.hpp:95-113 | the weight is 0 at position 153 only |
| Message.KVMessage.SetKey | src/KVMessage.hpp:32-40 | the key becomes the string up to its NUL, cut to 256 bytes and filled up with NUL: byte i is copied if no NUL comes up to it and 0 otherwise |
| Message.KVMessage.SetValue | src/KVMessage.hpp:47-55 | the same for the value |
| Message.KVMessage.FixKeyNulling | src/KVMessage.hpp:67-73 | the key becomes its own prefix up to the first NUL, filled up with NUL |
| Message.PadCollides | src/KVMessage.hpp:32-40 | two NUL-free strings give the same key exactly when they agree on their first 256 bytes |
| Strings.PackedIs | src/KVMessage.hpp:32-55 | packing keeps the code and, byte by byte, copies each string into its buffer, cut to 256 bytes and filled up with NUL |
| Strings.PackedAnswersAgree | src/PythonSolutionsGenerator.py:4-20 | for all NUL-free strings, packed requests are answered as the dictionary of strings answers them cut to 256 bytes |
| Strings.MetExactlyWhenToldApart | src/PythonSolutionsGenerator.py:4-20 | for any set of NUL-free keys, all runs over them with any values are answered as the plain dictionary of strings answers them if and only if no two of the keys agree on their first 256 bytes |
| Strings.ShortStringsAgree | src/PythonSolutionsGenerator.py:4-20 | with keys of at most 256 bytes the plain dictionary of strings is met exactly |
| Strings.BuffersAnswerAsStrings | src/KVClient.cpp:44-67 | whatever the buffers hold behind their NULs, once `fix_key_nulling` has cleared the keys the answers, read up to their NUL, are those of the dictionary of strings |
| Strings.PackedReplies | src/KVServer.cpp:194-243 | the reply bytes carry the string dictionary's answers |
| Strings.SeenUnder | src/KVMessage.hpp:32-40 | a PUT under one string is seen by a GET of another if and only if they agree on their first 256 bytes |
| Strings.LongKeysMerge | src/KVMessage.hpp:32-40 | for any two different keys that agree on their first 256 bytes, a run that the plain dictionary of strings answers differently |

## Left out

- KVStore.KVStore.WriteToDb: asks for room for one more record below 2^63 bytes, since file offsets are signed 64-bit; the source would fail in the file system there.
- Server.RunSessions: asks for file room for one entry per request, for the same reason.
- Server.RunSession: asks for a cache size of at least 1; with size 0 the source's first insert dereferences a null victim.
- KVStore.KVStore.ReadDbFile: counts records without bound; the source's `int32_t` counter overflows behind 2^31 - 1 of them.
- MemoryPool.MemoryPool.AcquireInstance: with a block size of 0 it asks for a free node; the source's pop would fail there.
- Interleavings of threads inside one cache operation, and the locks: PUT and DELETE release the shared lock before taking the exclusive one, so no guarantee follows there.
- File open, read and write failures, stream buffering, directory creation, and recovery after a crash.
- Sockets, epoll, partial reads, configuration parsing, the thread pool and client assignment, and the client programs.
- A memory pool that calls no constructors, and freeing the blocks in its destructor.
- `cache_eviction_simple`, the code behind the return in `cache_clean`, `acquire_instance_strict_limit`, `is_empty` and `is_not_full`: nothing calls them.
- `set_key_fast` and `set_value_fast` are block assignments; logging and the eviction call count are dropped, and `read_db_file` returns its lines.
- The table of file names: a file is its index.
