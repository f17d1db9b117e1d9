# Routing table, lookup and chunk store: a verified model

A node of this network keeps a Kademlia routing table, finds other nodes by iterative
lookup, and keeps files as chunks in a key store. This project models those three parts and
proves what they promise, for every input, every run and every schedule.

## The routing table

A table is a growing list of k-buckets around the local node. `Update` splits the deepest
bucket while it is full, then inserts; an insert drops the old record of the same node,
appends, sorts by XOR distance to the local node and truncates to k. `Remove` finds its
bucket with a different index function. `ClosestK` gathers all buckets and sorts by distance
to the target.

What comes out is simpler than the machine. The stored contacts are those of a *reference*
that has no buckets at all: one fixed cell for each of the 160 prefix lengths, each keeping
the k contacts closest to the local node (cell 159 keeps k - 1). So the table's contents do
not depend on order, repeats or splits, a self-lookup is exact in spite of eviction, and for
any target the global sort of `ClosestK` is a walk over the buckets.

`Update` releases the table lock before it inserts. `Concurrency.dfy` lets any number of
threads interleave: each locked section, each bucket insertion and each removal is one step.
The table stays well formed under every schedule. The contents promise does not survive
overlapping calls: a completed `Update` can lose its contact to a concurrent split. A
schedule shows it, and `Linearization.dfy` says exactly when it does not happen: the
contents are at every moment those of calls made one after another, in the order in which
they insert and remove, if and only if every insertion, when it comes, does what an offer
would do, which is a condition on the bucket it is bound for. A run that fails this may
still end as its calls would in another order; one such is shown.

| file | contents |
|---|---|
| `Bytes.dfy`, `NodeIds.dfy` | bits, 160-bit identifiers, XOR distance, prefix lengths |
| `KClosest.dfy` | the k closest of a set, and why a stream may forget the rest |
| `Contacts.dfy` | contacts, sorted lists, truncation |
| `Tables.dfy` | buckets and tables as values, their invariant, splitting, update, removal |
| `Reference.dfy`, `Histories.dfy` | the bucketless reference; whole runs |
| `Queries.dfy` | `ClosestK`, the bucket walk, the self-lookup |
| `RoutingTables.dfy` | the `KBucket` and `RoutingTable` objects, proved to compute the above |
| `Concurrency.dfy`, `Linearization.dfy` | interleavings; when they are as good as sequential calls |
| `Limits.dfy` | removing the local node, offers that change nothing, counting buckets |
| `Rankings.dfy`, `Lookups.dfy` | the k smallest distances of a stream; iterative lookup |
| `ChunkSizes.dfy`, `Pieces.dfy` | how a file is cut, and that the pieces tile it |
| `Stores.dfy`, `RoundTrips.dfy` | the key store as a value; store then read back |
| `Disks.dfy`, `Sources.dfy` | a disk that may fail at any operation; a file that may change while it is read |
| `StoreOutcomes.dfy`, `StoreFates.dfy` | how a store can end and what that means; which end comes, and when |
| `StoreRecords.dfy` | what the record of a successful store says, in plain terms |
| `KeyStores.dfy` | the `KeyStore` object |
| `Bootstraps.dfy` | starting up on the disk of an earlier run |
| `StoreRuns.dfy`, `StoreRaces.dfy` | whole lives of a key store; many stores at once |
| `Wrappers.dfy` | Option and Result |

## The lookup

`Lookup` starts from the table's own answer and asks up to alpha peers a round. Replies are
arbitrary: the network is any function from a round and a peer to a reply or a failure.
Replies are appended in any order, and those that miss a round's three seconds come in while
a later round waits, or never. They are not deduplicated and the library sort is not stable,
so which of several equally close records survive is not determined: results are stated on
their distances, and on the records as a part of those received.

## The key store

A file is cut into chunks, each chunk is written under a derived key and read back, the
registry is updated, and the file's record is written last. The disk carries a plan of
faults: any write may fail having left anything behind or silently write other bytes, and
any read, removal, rename or record write may fail. A file streamed from disk may also
change or shrink after it was measured and hashed, and reading it may fail. A store whose
chunks or record cannot be written, or whose bytes do not add up, is rolled back; one whose
source cannot be read is not. Every way a store can end is stated, what each means for the
file and for those stored before it, and, from the faults and the source, exactly when each
comes. Stores also interleave, and a key store lives through crashes and restarts. Hashes are arbitrary functions; where collisions
matter, freedom from them is a hypothesis about the finitely many inputs in play.

## Conventions

Every lemma switches automatic induction off, so each proof shows its own steps. Objects the
program updates in place are classes whose methods are proved against functions on values;
the laws are lemmas about those functions.

## Where the code and its comments part

- `RandomIDInBucket` is documented to differ from the local identifier in bit k
  (`api/kdht_utils.go:163-166`). It flips the bit that was drawn, so it does so exactly when
  the drawn bit equals the local one.
- Eviction is by XOR distance to the local node, not by last contact as in the Kademlia
  paper.
- With k = 1 the node that differs from the local one in the last bit alone is never kept.
- `WriteFileToDisk` keys a chunk by the low byte of its index
  (`storage/key_store/disk_write.go:142`), so from chunk 256 on it overwrites its own chunks.
- When `updateReference` cannot write the record, the entry it made in memory stays
  (`storage/key_store/cache_write.go:40-66`), although the chunks are rolled back.
- When `LoadAndStoreFile` cannot read on, it returns without cleaning up
  (`storage/key_store/disk_read.go:298-305`), and a file that has shrunk below its
  last chunk can make the last read's slice exceed the buffer, which panics.
- `Remove` of the local node takes it out of its bucket. No bucket is ever split again.

## Model

| member | source | states |
|---|---|---|
| NodeIds.XorDistance | api/kdht_utils.go:195-201 | the byte-wise result is, bit by bit, where the identifiers differ, and as a number it is their distance |
| NodeIds.LessDistance | api/kdht_utils.go:206-215 | the byte scan decides the order of the two as 160-bit numbers, both ways |
| NodeIds.CompareXorDistance | api/kdht_utils.go:221-226 | true exactly when a is strictly closer to the target than b |
| NodeIds.DistanceInjective | api/kdht_utils.go:221-226 | for a fixed target, distinct identifiers never tie |
| NodeIds.DistanceSymmetric | api/kdht_utils.go:195-201 | distance is the same both ways |
| NodeIds.DistanceOfBytes | api/kdht_utils.go:195-215 | an identifier is the number of its 20 bytes, most significant first, and the distance of two is the number of the bytes' exclusive or |
| NodeIds.FirstSetBit | api/kdht_utils.go:252-259 | in the first differing byte, the mask scan stops at the prefix length |
| NodeIds.SharedPrefixLength | api/kdht_utils.go:251-264 | counts the leading bits shared: all before agree, the next differs, and 160 exactly for equal identifiers |
| NodeIds.KBucketIndex | api/kdht_utils.go:233-246 | the prefix length, except 159 for the node itself |
| NodeIds.PrefixLengthIsDistanceScale | api/kdht_utils.go:248-264 | prefix length is i exactly when the distance lies in [2^(159-i), 2^(160-i)) |
| NodeIds.FullPrefixIsEquality | api/kdht_utils.go:248-264 | all 160 bits shared, distance zero and equality are one thing |
| NodeIds.LongerPrefixIsCloser | api/kdht_utils.go:248-264 | whoever shares more leading bits with the target is strictly closer |
| NodeIds.PrefixUltrametric | api/kdht_utils.go:251-264 | two of any three prefix lengths are least; equal ones below 160 force a longer third |
| NodeIds.PrefixSymmetric | api/kdht_utils.go:251-264 | prefix length is the same both ways |
| NodeIds.DeepestSiblingUnique | api/kdht_utils.go:251-264 | only one identifier shares exactly 159 bits with a given one |
| NodeIds.SiblingPrefix | api/kdht_utils.go:251-264 | flipping the last bit gives an identifier that shares exactly 159 bits |
| NodeIds.RandomIDInBucket | api/kdht_utils.go:169-190 | fails exactly out of range or when nothing can be drawn; bits before k local, bit k the drawn one flipped, the rest drawn; prefix length >= k, equal exactly when the drawn bit was local's |
| Bytes.MixByte | api/kdht_utils.go:182-187 | the byte after restoring and flipping, bit by bit |
| KClosest.ClosestStreams | network/routing/buckets.go:72-103 | keeping only the k closest and adding one more loses nothing |
| KClosest.OutrankedByClosest | network/routing/buckets.go:96-99 | who has k closer ones in a set has k closer ones among the set's k closest |
| KClosest.ClosestCount | network/routing/buckets.go:96-99 | the k closest of a set number exactly min(k, size) |
| KClosest.Squeeze | network/routing/routing_table.go:138-174 | any set between the k closest and the whole has the same k closest |
| Contacts.SortSlice | network/routing/buckets.go:88-94 | a sort by distance: ordered and a permutation, ties in any order |
| Contacts.StrictOrderUnique | network/routing/buckets.go:88-94 | without ties, every sort gives the same list, stable or not |
| Contacts.TruncateKeepsClosest | network/routing/buckets.go:96-99 | cutting a sorted list at k keeps exactly its k closest |
| Contacts.InsertedSpec | network/routing/buckets.go:72-103 | delete, append, sort, cut: strictly sorted, at most k, never shrinks unless full, and exactly the k closest of the bucket with the contact's record replaced |
| Contacts.WithoutSpec | network/routing/buckets.go:105-118 | deletion keeps the order and takes out that identifier and nothing else |
| Tables.SplitCutsOnce | network/routing/buckets.go:134-148 | the sorted bucket is cut at a single point: right part is its front, left part its back |
| Tables.SplitKeepsBucketInv | network/routing/buckets.go:120-153 | both halves sorted without sorting, placed in their ranges, fullness exact; contacts conserved; the local node goes right |
| Tables.NewInv | network/routing/routing_table.go:24-34 | a new table is in form and stores the local node alone |
| Tables.GrownInv | network/routing/routing_table.go:96-106 | a split keeps the whole table's invariant, adds one bucket, loses and gains no contact |
| Tables.InsertInv | network/routing/routing_table.go:108-111 | inserting another node into the bucket chosen for it keeps the table's invariant |
| Tables.Slot | network/routing/routing_table.go:76-93 | the bucket index of `Update` is always in range |
| Tables.SlotFits | network/routing/routing_table.go:122-132 | the chosen bucket's prefix range admits the node, and the index of `Remove` agrees with that of `Update` |
| Tables.RemoveSlotOfLocal | network/routing/routing_table.go:122-132 | `Remove` of the local node goes to the deepest bucket |
| Tables.StoredInSlot | network/routing/routing_table.go:76-93 | whatever is stored is stored in the bucket both index functions lead to |
| Tables.StoredUnique | network/routing/buckets.go:76-82 | no identifier is stored twice anywhere in the table |
| Tables.UpdateInv | network/routing/routing_table.go:66-113 | `Update` ends, keeps the invariant and never returns the no-split error |
| Tables.RemoveSpec | network/routing/routing_table.go:115-136 | after removal of another node its identifier is in no bucket and every other contact is as it was |
| Reference.DeepestNeverEvicts | network/routing/routing_table.go:94-111 | an insert into the deepest bucket drops nobody exactly when k > 1 |
| Reference.UpdateRefines | network/routing/routing_table.go:66-113 | one `Update`, however often it splits, stores what the bucketless reference stores |
| Reference.InsertRefines | network/routing/routing_table.go:108-111 | one bucket insert does to the whole table what the reference does to one cell |
| Reference.InsertForSplit | network/routing/routing_table.go:93-110 | where `Update` would split, inserting without splitting does what an offer does exactly when the node is in the bucket already, or k = 1 and it is the 159-bit sibling |
| Reference.RemoveRefines | network/routing/routing_table.go:115-136 | one `Remove` forgets in the table exactly what the reference forgets |
| Histories.RunRefinesReference | network/routing/routing_table.go:66-136 | in every run of updates and removals of others: invariant kept, contents those of the reference |
| Histories.RunNeverFails | network/routing/routing_table.go:98-101 | after any such run the next `Update` succeeds |
| Histories.KnownIsLatest | network/routing/buckets.go:76-84 | what a run knows of a node is the record offered last; of the local node, its own |
| Histories.KnownIds | network/routing/routing_table.go:66-113 | the nodes known are the local one and those offered |
| Histories.KnownUnique | network/routing/buckets.go:76-84 | a run knows one record of each node, and its own of the local one |
| Histories.StoredIsTrimmed | network/routing/routing_table.go:66-113 | after any offers, the stored contacts are the latest records of the closest of each prefix length, for every k >= 1 |
| Histories.StoredIsKOfEach | network/routing/routing_table.go:66-113 | they are the k closest of every prefix length exactly when k > 1 or the 159-bit sibling was never offered |
| Histories.SameOffersSameTable | network/routing/routing_table.go:66-113 | order and repeats do not matter: same identifiers offered, same stored; same last records, same contacts |
| Queries.ClosestKSpec | network/routing/routing_table.go:138-174 | `ClosestK` returns, strictly sorted, the min(k, n) closest of the n stored non-local contacts |
| Queries.ClosestKIsWalk | network/routing/routing_table.go:138-174 | for every target: its own bucket first, then all deeper ones merged, then the shallower ones down to 0 |
| Queries.SharedWithTarget | network/routing/routing_table.go:162-167 | what a contact shares with the target, told from its bucket alone |
| Queries.TableIsSorted | network/routing/routing_table.go:66-136 | buckets concatenated deepest first are strictly sorted around the local node, which comes first |
| Queries.SelfLookupExact | network/routing/routing_table.go:138-174 | looking up the local node returns, in order, the k closest ever offered, exactly when k > 1 or the sibling was never offered |
| Queries.SiblingIsLost | network/routing/routing_table.go:138-174 | a run that fails both: k = 1 and one offer of the sibling |
| RoutingTables.KBucket.constructor | network/routing/buckets.go:21-28 | an empty bucket of the given depth |
| RoutingTables.KBucket.UpdateFull | network/routing/buckets.go:51-57 | the full flag says exactly that there are k or more |
| RoutingTables.KBucket.ContainsContact | network/routing/buckets.go:59-66 | found exactly when the identifier is there |
| RoutingTables.KBucket.Insert | network/routing/buckets.go:72-103 | the object ends as the value-level insert says, and reports whether the contact stayed |
| RoutingTables.KBucket.Remove | network/routing/buckets.go:105-118 | the object ends as the value-level removal says, and reports whether there was one |
| RoutingTables.KBucket.Split | network/routing/buckets.go:120-153 | two new buckets as the value-level split says, or the bucket itself and nil without the local node |
| RoutingTables.RoutingTable.constructor | network/routing/routing_table.go:24-34 | the new object is the new table |
| RoutingTables.RoutingTable.SplitDeepest | network/routing/routing_table.go:97-102 | the deepest bucket gives way to its halves, the others stay |
| RoutingTables.RoutingTable.LockedStep | network/routing/routing_table.go:70-108 | one locked section decides, and splits, as the value-level step does |
| RoutingTables.RoutingTable.Update | network/routing/routing_table.go:66-113 | the retry loop ends and computes the value-level update and its outcome |
| RoutingTables.RoutingTable.Remove | network/routing/routing_table.go:115-136 | computes the value-level removal, the bucket objects kept |
| RoutingTables.RoutingTable.ClosestK | network/routing/routing_table.go:138-174 | gathering, deduplicating and an unstable sort compute the value-level query |
| Concurrency.InterleaveInv | network/routing/routing_table.go:93-110 | every interleaving keeps buckets placed, sorted, unique and bounded with local in the deepest; every pending insert fits its bucket object's range, split away or not; no section fails to split |
| Concurrency.UndisturbedUpdate | network/routing/routing_table.go:66-113 | the steps of one thread alone amount to the sequential `Update` |
| Linearization.DeliverIsOffer | network/routing/routing_table.go:108-111 | a pending insertion, early or late, does what an offer made at that moment would do exactly when it is effective: into a live bucket, unless the bucket would now be split and the node is neither in it nor without a place anyway; into one split away, only if the offer would change nothing |
| Linearization.StepIsEffect | network/routing/routing_table.go:66-136 | so for every step of any thread |
| Linearization.RunsLinearize | network/routing/routing_table.go:93-110 | the contents are at every moment those of calls made one after another, in the order in which they insert and remove, exactly when every insertion is effective |
| Linearization.LosingScheduleIsLate | network/routing/routing_table.go:93-110 | the schedule that loses a contact fails the condition |
| Linearization.AnotherOrderExplains | network/routing/routing_table.go:93-136 | a schedule that fails the condition, yet ends as its calls would in another legal order: the removal falls inside the call that offers the node |
| Linearization.TimelyRunsLinearize | network/routing/routing_table.go:93-110 | in particular if each insertion goes where its thread would choose again |
| Concurrency.StaleInsertIsLost | network/routing/routing_table.go:93-110 | an insertion into a bucket that has been split away changes nothing in the table |
| Concurrency.OverlappingUpdateLosesContact | network/routing/routing_table.go:93-110 | three completed calls that leave an offered contact out, though both sequential orders keep it |
| Limits.RemoveLocalBeheads | network/routing/routing_table.go:115-136 | `Remove` of the local node really takes it out |
| Limits.HeadlessStep | network/routing/routing_table.go:96-101 | from then on nothing splits, and `Update` fails exactly when the deepest bucket is full, below 160 and chosen |
| Limits.RemovingLocalFreezesTable | network/routing/routing_table.go:96-136 | the bucket count then never changes, whatever follows |
| Limits.OfferAfterRemovalFails | network/routing/routing_table.go:96-101 | a run that fails: k = 1, the local node removed, one other offered, then any other offered |
| Limits.OfferUnchanged | network/routing/buckets.go:72-103 | an offer changes nothing exactly when the contact is stored as it is, or is not stored and as many members of its cell as the cell has room for are closer |
| Limits.ReofferSplitsButStores | network/routing/routing_table.go:94-106 | a contact offered again changes no contents, yet splits exactly when its bucket is deepest, full and below 160 |
| Limits.UpdateGrows | network/routing/routing_table.go:66-113 | `Update` adds buckets exactly when its first decision is to split |
| Limits.BucketCount | network/routing/routing_table.go:94-106 | how many buckets an `Update` leaves: the least number, no smaller than before, at which the deepest bucket has room, the contact goes elsewhere or 160 are reached |
| Rankings.BestStreams | network/manager.go:389-400 | the k smallest of what is kept and what is new are the k smallest of all |
| Rankings.BestAreSmallest | network/manager.go:389-400 | the k best are k of the numbers, or all, in ascending order, and none left out is smaller |
| Rankings.BestImproves | network/manager.go:389-400 | more candidates never make any place worse |
| Lookups.ZeroDistanceArray | network/manager.go:406-408 | the comparison with the zero array asks whether the distance is zero |
| Lookups.PickUnqueried | network/manager.go:411-419 | at most alpha, none asked before, no address twice, and nobody passed over for someone farther |
| Lookups.Await | network/manager.go:424-462 | in whatever order replies arrive and however many are in time, each is appended whole once, the others stay out, and failures add nothing; short of the race named under "Left out" |
| Lookups.RoundAccounted | network/manager.go:424-462 | over the rounds, what was received and what is still out make up the answers to every call |
| Lookups.PlanRound | network/manager.go:389-422 | the top of the loop: the k best, whether the far end came closer, whom to ask, and why to stop |
| Lookups.OneMoreRound | network/manager.go:385-463 | a round keeps the loop's invariant and asks a fresh address |
| Lookups.Rounds | network/manager.go:385-477 | what `Lookups.Lookup` states, from any shortlist |
| Lookups.Lookup | network/manager.go:370-477 | the contacts returned are whole records of the table's answer and of what was received, each no oftener than there, and their distances are the k smallest of these; no address asked twice, at most alpha a round, closest first; the furthest distance falls until zero; at most N rounds of queries in a world of N addresses; why it stopped; every answer received or still out, and none out unless a wait was cut short |
| Lookups.RoundsSpelledOut | network/manager.go:385-463 | who is asked when, in plain terms: someone on a shortlist of seeds and received contacts, at no address asked before; and who is on it and was never asked had alpha others asked before it, none of them farther |
| Lookups.EndSpelledOut | network/manager.go:402-422 | when it stops, in plain terms: alpha is zero, or the furthest distance, not yet zero, did not fall, or everyone found has been asked |
| Lookups.FollowingRoundIsFull | network/manager.go:402-409 | a round that follows another, the target not reached, has k contacts on its shortlist: with room to spare the far end cannot come closer |
| Lookups.FewContactsOneRound | network/manager.go:402-409 | so a lookup that hears of fewer than k contacts makes one round and asks no one it heard of |
| Lookups.NeverFartherThanSeeds | network/manager.go:370-477 | place by place no farther from the target than the table's own answer |
| ChunkSizes.ChunkSizeIsNearestPower | storage/key_store/config.go:74-96 | the file itself below 65536 bytes; from there on, the power of two log-nearest to size/1000, clamped to 65536 and 4194304 |
| ChunkSizes.ChunkSizeTable | storage/key_store/config.go:20-96 | the chunk size of every file, in numbers |
| ChunkSizes.ChunkSizeBounds | storage/key_store/config.go:74-96 | never zero for a nonempty file; the whole file below 64 KiB; 4 MiB from 5931642000 bytes on |
| ChunkSizes.AtMost1415Chunks | storage/key_store/config.go:74-96 | at most 1415 chunks below 5931642000 bytes |
| ChunkSizes.AtLeast708Chunks | storage/key_store/config.go:74-96 | at least 708 when neither clamp applies |
| ChunkSizes.AtMost256Chunks | storage/key_store/config.go:74-96 | at most 256 chunks exactly up to 16777216 bytes |
| ChunkSizes.CountExact | storage/key_store/cache_write.go:114-115 | the stored count is the true one modulo 2^32, and the true one exactly up to 4294967295 * 4194304 bytes |
| ChunkSizes.CeilDivBounds | storage/key_store/cache_write.go:114-115 | (chunks - 1) * chunkSize < size <= chunks * chunkSize |
| Pieces.PieceLength | storage/key_store/disk_write.go:123-129 | every chunk full size but the last, which is not empty |
| Pieces.PiecesTile | storage/key_store/disk_write.go:123-129 | the chunks in order are the file |
| Pieces.LaidIsFile | storage/key_store/disk_read.go:101-118 | chunks no longer than the originals, copied to their places, give the file and its length exactly when they are the originals |
| Stores.JobForFits | storage/key_store/cache_write.go:100-118 | the chosen cut is sound, and complete exactly when the count fits 32 bits |
| Stores.LittleEndianByte | storage/key_store/key_store.go:85-88 | byte h of an index is its h-th digit to base 256, the lowest first |
| Stores.WithChunksLast | storage/key_store/disk_write.go:141-171 | under every key, registry and disk hold the last chunk written there |
| Stores.WithChunksElsewhere | storage/key_store/disk_write.go:141-171 | other keys and their files are untouched |
| RoundTrips.StoredHolds | storage/key_store/disk_write.go:104-209 | a completed store leaves reference, registry and disk in agreement |
| RoundTrips.ReadsAsExactly | storage/key_store/disk_read.go:65-127 | a file reads back as some bytes exactly when its chunks are all registered, on disk, of the recorded hash and size, each begins within the file, and laid at their places they are those bytes, with the file's size and hash |
| RoundTrips.RoundTrip | storage/key_store/disk_read.go:65-127 | reading back gives the bytes that were cut exactly when they are the bytes that were hashed and no chunk was overwritten by a different later one |
| RoundTrips.OverwrittenIsReported | storage/key_store/disk_read.go:114-124 | otherwise the answer is an error, not other bytes |
| RoundTrips.ChangedIsReported | storage/key_store/disk_read.go:120-124 | a file that changed between being hashed and being cut reads back as a hash error |
| RoundTrips.LoadedRoundTrip | storage/key_store/disk_read.go:232-383 | a file stored by `LoadAndStoreFile` always reads back, at any size |
| RoundTrips.WrittenRoundTrip | storage/key_store/disk_write.go:141-144 | one stored by `WriteFileToDisk` reads back exactly when chunks 256 apart are equal, so always up to 256 chunks |
| RoundTrips.TwoToneIsLost | storage/key_store/disk_write.go:141-144 | a file of 257 chunks that `WriteFileToDisk` stores and that does not read back |
| RoundTrips.SafeUpTo16MiB | storage/key_store/disk_write.go:141-144 | in bytes, for any file whose count fits: 256 chunks or fewer exactly up to 16777216 |
| RoundTrips.StaysReadable | storage/key_store/disk_read.go:65-127 | a held file stays held, and as readable, after any number of other files are stored by either route |
| RoundTrips.KeysDisjoint | storage/key_store/key_store.go:79-91 | files with different hashes never share a chunk key, whichever way each was stored |
| Disks.Disk.WriteFile | storage/key_store/disk_write.go:42-46 | a faulty write may leave the old bytes, any others or none, and may claim success |
| KeyStores.KeyStore.WriteChunkToDisk | storage/key_store/disk_write.go:30-74 | registered exactly when, by the disk's faults, the bytes read back have the length and hash of the data; otherwise the registry is untouched and only that chunk's file may differ |
| KeyStores.KeyStore.DeleteDataFromDisk | storage/key_store/disk_write.go:80-95 | entry and file go together or not at all |
| KeyStores.KeyStore.GetDataFromDisk | storage/key_store/disk_read.go:19-41 | bytes handed out are those of the registered file and have the registered hash, whatever the disk does; without faults some are handed out exactly when there are such; every error case is the stated one |
| KeyStores.KeyStore.ReassembleFileFromDisk | storage/key_store/disk_read.go:65-127 | success, with any faults, means pieces of the registered hashes and recorded sizes, laid at their places, with the total size and the hash of the file; without faults it comes exactly when there are such pieces, and otherwise the stated error |
| KeyStores.KeyStore.DiscardChunks | storage/key_store/disk_write.go:148-153 | with removals working all stored chunks leave registry and disk; in any case nothing else is touched |
| KeyStores.KeyStore.UpdateReference | storage/key_store/cache_write.go:19-69 | completed from the registry, entered in memory, then written; which of these stand after each failure |
| KeyStores.KeyStore.Abandon | storage/key_store/disk_write.go:148-153 | every failing store takes its chunks back: what then differs, and with removals working exactly the rollback |
| KeyStores.KeyStore.FinishStore | storage/key_store/disk_write.go:173-208 | size check, record and the two rollbacks, each with its outcome, the record's value included |
| KeyStores.KeyStore.StoreChunk | storage/key_store/disk_write.go:146-159 | one chunk more, registered and verified on disk, or everything stored so far rolled back |
| KeyStores.KeyStore.WriteFileToDisk | storage/key_store/disk_write.go:104-209 | what each ending leaves, with any faults; which ending comes is the one foretold; on success the record and what stands on disk, as `StoreRecords` spells them out; without faults, success exactly when the count fits, with exactly the stored view |
| KeyStores.KeyStore.SliceNext | storage/key_store/disk_write.go:124-128 | the slice is the chunk |
| KeyStores.KeyStore.ReadNext | storage/key_store/disk_read.go:288-311 | the streaming chunker yields the slicing chunker's chunk exactly when the read works and finds anything; else the error, or the panic of a slice beyond the buffer |
| KeyStores.KeyStore.StoreAllSlices | storage/key_store/disk_write.go:122-171 | the slicing loop: all chunks down, or the ending foretold |
| KeyStores.KeyStore.StoreAllChunks | storage/key_store/disk_read.go:287-344 | the streaming loop: all chunks down, or the ending foretold |
| KeyStores.KeyStore.LoadAndStoreFile | storage/key_store/disk_read.go:232-383 | the same for any source: what each ending leaves, that the one foretold comes, and on success the record with its eight-byte keys; without faults of the disk, success exactly when the source is steady |
| StoreRecords.SlicedRecordOf | storage/key_store/disk_write.go:123-159 | the record of a store from memory: file hash, size and cut; for each entry the slice it describes with its length and hash, the key as SHA-1 of the file hash and the low byte of the index, and, of chunks under one key, the last |
| StoreRecords.StreamedRecordOf | storage/key_store/disk_read.go:257-332 | the record of a streamed store: the same, the key as SHA-1 of 40 bytes, the file hash and the index, least significant byte first |
| StoreRecords.ReportedInPlace | storage/key_store/disk_write.go:48-71 | a store that reports success, whatever faults it met, has its record in memory and on disk, and each chunk of it registered and on disk with its length and hash |
| Sources.AskedBytes | storage/key_store/disk_read.go:288-295 | the last read asks for the last piece even where the chunk count has lost a multiple of 2^32 |
| Sources.JobFromFits | storage/key_store/disk_read.go:232-275 | all of a source can be stored exactly when its count fits and it has not shrunk since it was measured |
| Sources.SteadySource | storage/key_store/disk_read.go:232-311 | a source that stays as measured and hashed is stored as the file it is |
| Sources.StreamedPiece | storage/key_store/disk_read.go:288-311 | reading a buffer at a time and then the rest gives the same chunks as slicing; a read finds nothing exactly when the file has shrunk to there, and only then can it ask for more than the buffer |
| Sources.SteadyIsReadable | storage/key_store/disk_read.go:232-311 | every chunk can be read and all bytes are there exactly when the source opens, has not shrunk, no read fails and the count fits |
| KeyStores.BytesProcessed | storage/key_store/disk_write.go:173-183 | the byte count falls short exactly when the chunk count did not fit or bytes were missing, so otherwise the mismatch branch is dead |
| StoreOutcomes.RollbackRestores | storage/key_store/disk_write.go:146-155 | after a rollback the registry is as before exactly when its keys were fresh, and so are the files, but for the failed chunk's own |
| StoreFates.FateDecided | storage/key_store/disk_write.go:104-209 | for each ending of a store, exactly when it comes, told from the disk's faults, the operation it begins at, the file and the source |
| StoreFates.OverrunsExactly | storage/key_store/disk_read.go:288-298 | the slice panic: the last read only, exactly when the file has shrunk below its last chunk and by more than a buffer |
| StoreFates.WorkingDiskFate | storage/key_store/disk_read.go:232-383 | on a disk whose chunk files work, each ending of the streamed store exactly: unopened, panic, failed read, size mismatch, record, success |
| StoreFates.WorkingDiskFateInMemory | storage/key_store/disk_write.go:104-209 | and of the store from memory: a count that does not fit, the record, success |
| StoreFates.FateKeepsRegistry | storage/key_store/disk_read.go:297-329 | the registry is as before exactly when: for a source that stops, it held those chunks already; for a rollback, none of their keys; told before the store |
| StoreFates.FateKeepsReferences | storage/key_store/cache_write.go:40-66 | the references change exactly when every chunk goes down and makes up the file, record written or not, unless the same record was there |
| StoreFates.ShrunkFilePanics | storage/key_store/disk_read.go:288-298 | a file said to have 196608 bytes, of which 65537 are left, panics at its third chunk |
| StoreFates.ShrunkFileStops | storage/key_store/disk_read.go:297-305 | one of which 65536 are left stops at its second, the first registered |
| StoreFates.RecordStaysBehind | storage/key_store/cache_write.go:40-66 | on a disk that cannot write records any file that fits ends with its record in memory and no chunk registered |
| StoreOutcomes.FailedRecordIsUnreadable | storage/key_store/cache_write.go:40-66 | the record left behind by that failure does not read back |
| StoreOutcomes.ReportedIsHeld | storage/key_store/disk_write.go:48-71 | a store that reports success has every chunk on disk as cut, whatever faults it met |
| StoreOutcomes.ReportedReadsBack | storage/key_store/disk_read.go:65-127 | so it reads back, exactly if nothing was overwritten and the file did not change while stored |
| StoreOutcomes.HoldsThroughStore | storage/key_store/disk_write.go:104-209 | however the store of another file ends, with any faults, a held file stays held |
| StoreOutcomes.HoldsThroughStoringAgain | storage/key_store/disk_write.go:104-209 | when the same bytes are stored again, by either route and under any name, the exact condition of staying held under the first name, for each way it can end |
| StoreOutcomes.ReadsThroughStoringAgain | storage/key_store/disk_read.go:65-127 | and of still reading back: after success, if the new chunks do not overwrite each other; after a rollback, if none had gone down and the first chunk's file is as it was; always when the source stopped; never when the record failed |
| Bootstraps.PutAside | storage/key_store/key_store.go:284-319 | a broken file's chunk files move to its own orphan directory with their bytes, its record to the orphans; its keys and entry go; no other record moves |
| Bootstraps.IdentifyOrphans | storage/key_store/key_store.go:253-325 | in any order of the map, on any disk: no entry or file appears, every broken file goes, every chunk stays in place or with a removed file's orphans; if no chunk is shared, who stays has every chunk file there, who goes lacked one, exactly the keys of those are unregistered, and chunk files and records are moved accordingly |
| Bootstraps.StartedUpMeans | storage/key_store/key_store.go:253-325 | which files go and what becomes of keys, chunk files and records, said chunk by chunk |
| Bootstraps.LoadReferences | storage/key_store/key_store.go:118-148 | in any order of the directory, references are the records on disk and the registry has exactly the keys they list, each as a record lists it |
| Bootstraps.BootstrapKeyStore | storage/key_store/key_store.go:103-156 | loading then sorting out, on any disk; if no chunk is shared, afterwards every chunk of every reference is registered and on disk, every registered key has its file, and every record not loaded lacked a chunk |
| Bootstraps.StartMeans | storage/key_store/key_store.go:103-156 | what a start-up leaves in memory: for every reference all its chunks, for every key its file |
| Bootstraps.SurvivorsComplete | storage/key_store/key_store.go:253-325 | survivors are exactly the intact files and still are; the registry's keys are exactly theirs; every known chunk file is in place or with its orphans, bytes unchanged |
| Bootstraps.RecordsAreSurvivors | storage/key_store/key_store.go:310-319 | when moves work, the metadata files left in place are the survivors' and no others |
| Bootstraps.SecondStartChangesNothing | storage/key_store/key_store.go:103-156 | starting up is idempotent: a second start loads the same references and keys and moves nothing |
| Bootstraps.HeldAcrossRestart | storage/key_store/key_store.go:103-156 | a stored file is held again after a restart, so it reads back |
| Bootstraps.MovedDirectoryLosesFile | storage/key_store/key_store.go:265-282 | once the storage directory has moved, a file counts as intact and is kept, and does not read back |
| StoreRuns.LifeKeepsKeysApart | storage/key_store/key_store.go:118-148 | after any stores, crashes and restarts, also on a disk with records of an earlier life, the records share no chunk key, so the next start-up can sort them out |
| StoreRuns.LifeKeepsFile | storage/key_store/disk_write.go:104-209 | in any such life, with any faults, a file reported stored is held at the end unless it was stored again |
| StoreRuns.LifeReadsBack | storage/key_store/key_store.go:103-156 | and it reads back, exactly if nothing was overwritten and it did not change while stored |
| StoreRaces.WriteStep | storage/key_store/disk_write.go:30-74 | one locked write of a store is one of the steps that interleave |
| StoreRaces.DeleteStep | storage/key_store/disk_write.go:80-95 | so is one locked deletion |
| StoreRaces.RecordStep | storage/key_store/cache_write.go:19-69 | so is completing a record, where every chunk is registered under its own key |
| StoreRaces.RaceKeepsFile | storage/key_store/disk_write.go:104-209 | under any interleaving of stores of different files, whatever becomes of the others, a store that succeeds leaves its file held |
| StoreRaces.RaceForOneFile | storage/key_store/disk_read.go:232-383 | under any interleaving of streamed stores of one file that do not fail, the file is held once one has completed the record, and stays so |

## Left out

- Lookups.Await: a late reply joins the shortlist while some later round waits; one appended while the loop is sorting or choosing is a data race below this model, as is everything about RPC and datagrams. The mutex around an append is made anew each round (`network/manager.go:424-425`), so a late reply and one in time hold different ones and an append can be lost; here none is.
- KeyStores.KeyStore.WriteFileToDisk: the empty file is excluded, since a chunk size of zero divides by zero.
- KeyStores.KeyStore.LoadAndStoreFile: the empty file likewise; a source may change between being measured, hashed and read, but not between the reads of two chunks other than by shrinking.
- Bootstraps.HeldAcrossRestart: the storage directory is the same before and after. A record keeps each chunk's full path as the earlier run built it (`storage/key_store/disk_write.go:68`), while presence is checked under the present directory (`storage/key_store/key_store.go:273`); what a move does is stated separately.
- StoreRaces.RaceForOneFile: stores of one file by both routes, or of which some fail, are stated one after the other, not interleaved; start-up and reading do not interleave with stores.
- Linearization.RunsLinearize: exact for the order of the effects; which runs some other legal order of the calls explains is not decided.
- Bootstraps.SurvivorsComplete: exact only where no two files share a chunk key, as a run of stores guarantees; otherwise which intact files survive depends on the order of the map.
- Lookups.Lookup: termination is stated for a world of finitely many addresses, as a bound in their number; alpha and k are natural numbers and k is at least 1.
- Concurrency.InterleaveInv: a locked section, a bucket insertion and a removal are one step each; unlocked reads of a bucket's list by `ClosestK` and `isFull` by `Update` are data races below this model.
- Identifiers of other than 20 bytes, and k < 1. The table's conversions turn such identifiers into zero; `Lookup` converts its slices directly (`network/manager.go:391-393`), which panics on a short one.
- RoutingTables.RoutingTable.Update: only the calls that can happen once a constructor has run, or its own first call, are allowed; on an empty table any other contact would index past the end.
- Contacts.SortSlice: the library sort is an insertion into any place its comparison allows; only order and permutation are promised.
- Chunk and file records are values. Where the program shares one chunk record between registry and file, `updateReference` writes to it only what it already holds, so the sharing cannot be seen.
- ChunkSizes.ChunkSizeIsNearestPower: logarithms are exact; rounding in float64 is not modelled.
- Bootstraps.BootstrapKeyStore: presence checks, directory listing and the making of directories do not fail; unreadable or misnamed metadata files, which are skipped, are not among the records.
- TOML encoding, permissions, timestamps, time to live, progress output.
- `GetBit`, `SetBit`, `ClearBit`, `FlipBit` and `ConfirmPrefix` number bits from the other end and are not used in routing.
- `StoreKey` and the content-keyed cache, `CopyFileToPath`, `Cleanup`, `LoadAllFileMetadata`: input and output without a property of their own.
- `node/`, `storage/store`, the command line, configuration, logging and generated code.
