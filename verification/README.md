# The Compressed Decoupled ZCache, modelled and proved in Dafny

The cache keeps tags in a skewed array, where every way hashes a block address with its own H3
matrix, and keeps compressed data in a pool of 8-byte segments handed out by a buddy allocator. A miss
walks breadth first over slots that could make room, evicts the best candidate, and shifts blocks along
a cuckoo chain so that the new block lands in a slot its own hashes reach. A fill then compresses the
line, takes a pool region, and forces out blocks chosen by a sampling reservoir while the pool has no
suitable run.

The project models that path with one Dafny class per class of the program, and pure modules for what
the classes are proved against.

| file | content |
|---|---|
| `Bits.dfy` | shifts, masks and bitwise operators on natural numbers, digit by digit |
| `BuddyRuns.dfy` | aligned runs, maximal free runs, and the free lists as exactly the maximal free runs |
| `DecoupledDataStores.dfy` | the buddy allocator and its pool of bytes |
| `BitPlaneCompressor.dfy` | the bit-plane compressor: transpose, plane encoding, reported size |
| `FragReservoirs.dfy` | the best-of-4 reservoir |
| `ZCacheIndex.dfy` | H3 set selection |
| `ReplacementPolicy.dfy` | bucketed LRU |
| `ZCacheWalk.dfy` | the relocation graph, the replacement walk as an infinite tree of candidates in it, and relocation chains |
| `TagState.dfy` | the tag array as a map from keys to data, and as a set of pool holdings |
| `ZCacheTags.dfy` | the tag store: lookup, walk, cuckoo insertion, invalidation, pool metadata |
| `Ownership.dfy` | the agreement between tag metadata and the allocator |
| `Fills.dfy` | what invalidations, forced evictions and fills do to the map and to the regions that keys hold |
| `Runs.dfy` | what one operation answers and changes, and what follows for every run |
| `Cdzcache.dfy` | the cache: the fill protocol, whole misses, and the runs themselves |
| `Options.dfy` | optional values |

## Main results

- **The relocation chain is sound although the walk keeps no visited set.** Candidate `k` of the walk is
  computed directly: its parent is candidate `(k - W) / (W - 1)`. The list that the source builds is a
  prefix of that sequence, so an earlier copy of a slot lists its other slots before a later copy does.
  Hence the chain of the chosen victim repeats no slot, is a relocation path, is as short as any
  relocation path to the victim, and is at most `max(1, walkLevels)` long, for every tag state, key,
  depth and cap (`ChainOfMiss`). When every slot reached is valid the number of candidates is
  `min(R, W * sum of (W - 1)^l)` (`CandidateCount`).
- **The tag array is a partial map.** A whole miss loses exactly the victim's key (none if some candidate
  slot is empty), the keys in slots invalidated between the walk and the insertion, and the keys forced
  out by the fill; it adds the new key and changes nothing else (`Miss`). Over every run of lookups,
  writes, misses, invalidations and reservoir samples, every operation answers and changes exactly what
  `Stepped` says (`Run`): a lookup changes nothing and hits iff its key is in the map, a write hit changes
  one line, an invalidation takes one slot's key. For every run it follows that a lookup that hits returns
  the last line put under its key (`RunAnswers`), that a lookup right after a put hits (`PutThenGet`), that
  a stored key has been there ever since a put of it (`PresentSince`), and which operations can take a key
  away (`LossCause`).
- **Allocation fails only on real fragmentation.** After every call the free lists are exactly the maximal
  free runs, so `Allocate` fails if and only if no aligned run of the size is wholly free, the lists do
  not depend on the order of operations, free and live blocks tile the pool, and releasing everything in
  any order restores the initial lists.
- **No region leaks or is freed twice.** In every reachable state the regions that valid slots own are
  pairwise different, are exactly the allocator's live regions, and still hold the bytes their fills wrote
  (`ZCache.Valid`, kept by every operation). Regions also stay with their keys: a miss changes which key
  holds which region by exactly the keys it loses and the one it adds, through any cuckoo chain (`Miss`).
  Stale and duplicate reservoir entries are harmless: the fill loop ends within 16 draws, never evicts the
  block it fills, evicts nothing when a run exists, evicts only holders of regions smaller than the request
  except possibly the last, and gives up only when there is no run and every candidate large enough has
  been evicted or was stale (`HandleFill`, `ExhaustedFill`). At every point of every run a region has the
  size of, and holds the first bytes of, the line whose put last inserted its key (`RunFilled`).
- **Compression round-trips** for any number of words and any word width (`RoundTrip`), and it compresses as
  promised: every tag is described by the digits of the words (`CompressedEncodes`), so the size of a line
  in the pool follows from its digits and the ratio cap (`LineSizeTable`) and is always one that the
  allocator accepts.
- **Set selection is the H3 hash.** A digit of a set is the parity of the ones that the block number shares
  with the way's own mask (`SetDigit`), the hash is linear (`Linear`), and the relocation graph that the
  walk explores has exactly the edges from a slot to the slots its block hashes to elsewhere
  (`GraphMeaning`).

## Where the code and its comments differ

The model follows the code.

- `glue/frag_reservoir.hh:36-37` promises the coldest candidate at or above the size class;
  `glue/frag_reservoir.cc:85-99` returns the coldest of the first bin that is not empty. `HeaderFails` is a
  run of two samples to a state where the two differ, and `DrawMeetsHeader` says exactly when they agree.
  A candidate stamped with the largest 64-bit tick is never drawn, as in the code.
- `bpc/bpc.hh:49` says a ratio cap of 1 means uncapped; `bpc/bpc.cc:100` tests for a positive cap, and a cap
  of 1 reports every line at its full size. `UncappedExactly` says which caps leave every size alone.

## Model

| member | source | states |
|---|---|---|
| ZCacheWalk.ParentFormula | zcache/zcache_tags.cc:185-210 | every expanded node lists W - 1 children, so candidate k's parent is (k - W) / (W - 1) and it is child (k - W) % (W - 1) |
| ZCacheWalk.FirstParent | zcache/zcache_tags.cc:180-216 | if a candidate is the first with its slot, so is its parent: why no visited set is needed |
| ZCacheWalk.ChainDistinct | zcache/zcache_tags.cc:258-269 | the chain of a first occurrence never repeats a physical slot |
| ZCacheWalk.ChainIsPath | zcache/zcache_tags.cc:258-269 | read from root to victim the chain follows slots where each occupant may live, starting at a slot of the key |
| ZCacheWalk.ChainShortest | zcache/zcache_tags.cc:158-269 | no relocation path to the victim's slot is shorter than the chain |
| ZCacheWalk.ChainBound | zcache/zcache_tags.cc:180-216 | a chain has at most max(1, walkLevels) slots |
| ZCacheWalk.ChainOfMiss | zcache/zcache_tags.cc:138-282 | for every state, key, depth and cap the chosen chain is duplicate-free, a relocation path, bounded and shortest |
| ZCacheWalk.LevelDepth | zcache/zcache_tags.cc:176-216 | a candidate's level is given by its position: level l is a contiguous range of the list |
| ZCacheWalk.LevelSize | zcache/zcache_tags.cc:176-216 | the first l levels have W times the sum of the first l powers of W - 1 candidates |
| ZCacheWalk.CandidateCount | zcache/zcache_tags.cc:166-220 | with every reached slot valid the walk lists min(R, W * sum of (W-1)^l) candidates |
| ZCacheWalk.WalkEnds | zcache/zcache_tags.cc:176-220 | the list ends at the cap, at the last level, or with the first level that has an empty slot; the levels before are listed in full and have none |
| ZCacheWalk.VictimFirst | zcache/zcache_tags.cc:232-256 | the victim's index is the first occurrence of its slot |
| ZCacheWalk.VictimUnique | zcache/zcache_tags.cc:232-256 | empty-slot preference and first-minimum choice determine one victim |
| ZCacheWalk.EmptyRoot | zcache/zcache_tags.cc:147-156 | the fast path for an empty level-1 slot chooses what the full walk would choose |
| ZCacheTags.ListKid | zcache/zcache_tags.cc:190-210 | the j-th alternative location of a node's block is its j-th child, and never the node's own slot: the self-loop skip does not fire |
| ZCacheTags.ZCacheTagsNew.Walk | zcache/zcache_tags.cc:163-220 | the list built by the nested loops is the prefix of the candidate tree that the cap, the depth and the first empty level cut off, so the invalid-fringe break loses nothing; it is never longer than the cap, so the clamp that follows is the identity |
| ZCacheTags.ZCacheTagsNew.ChooseVictim | zcache/zcache_tags.cc:227-256 | the first empty candidate, otherwise the first with the least timestamp; then it was touched fewer than K touches after any candidate |
| ZCacheTags.ZCacheTagsNew.BuildChain | zcache/zcache_tags.cc:258-269 | following parent links yields the candidate's chain, victim first |
| ZCacheTags.ZCacheTagsNew.FindVictim | zcache/zcache_tags.cc:138-282 | the pending chain is the victim's chain and may be executed; the slot to evict is its head, if valid; the result is its root |
| ZCacheTags.ZCacheTagsNew.FindBlock | zcache/zcache_tags.cc:96-107 | W probes find the key exactly when it is stored anywhere in the array, with the data the map gives |
| ZCacheTags.ZCacheTagsNew.AccessBlock | zcache/zcache_tags.cc:113-132 | a lookup that hits stamps exactly that block, as one more touch, and changes no content; a miss leaves the replacement state alone |
| ZCacheTags.ZCacheTagsNew.DoMoveBlock | glue/zcache_tags_new.cc:81-92 | a move keeps contents, placement, pool holdings and which key holds each, clears the source and counts as a touch of the destination |
| ZCacheTags.ZCacheTagsNew.ShiftChain | zcache/zcache_tags.cc:325-343 | every block still on the chain moves one slot towards the victim, the root ends empty, the chain is cleared, other slots and the map are unchanged, and every region stays with its key; every move is one touch, and slots off the chain keep theirs |
| ZCacheTags.ZCacheTagsNew.InsertBlock | zcache/zcache_tags.cc:311-360 | a chain that ends at the slot is run and cleared, any other is left alone; the map gains exactly the new key, the slot holds the block, the chain's blocks move one slot, other slots are unchanged, and every pool region stays with the key that held it; each move and the insertion count as one touch |
| ZCacheTags.ZCacheTagsNew.Invalidate | glue/zcache_tags_new.cc:44-57 | the slot's key and its holding are gone, its timestamp is cleared, nothing else changes |
| ZCacheTags.ZCacheTagsNew.ForceInvalidate | glue/zcache_tags_new.cc:63-75 | a valid slot loses its key and metadata; for an invalid one nothing changes, timestamps included |
| ZCacheTags.ZCacheTagsNew.SetBlockDataPtr | glue/zcache_tags_new.hh:63-68 | the slot's key holds exactly the given region and the others keep theirs |
| ZCacheTags.ZCacheTagsNew.constructor | glue/zcache_tags_new.cc:16-23 | all slots empty, no metadata, one replacement entry per slot, the walk depth and the candidate cap as given |
| TagState.ProbeFinds | zcache/zcache_tags.cc:96-107 | a stored block sits at the slot its key is probed at in that way |
| TagState.GraphMeaning | zcache/zcache_tags.cc:148-210 | the roots are the slots that the address hashes to, and the block of a slot may move to exactly the slots that its own tag hashes to in the other ways |
| TagState.SameKey | zcache/zcache_tags.cc:96-107 | two requests name the same key iff they are for the same block of the same space |
| TagState.ChainReady | zcache/zcache_tags.cc:258-269 | the chain of a first occurrence may be executed: each occupant's next slot is one of its own |
| TagState.EmptiedReady | zcache/zcache_tags.cc:328-335 | invalidating any slots between the walk and the insertion, the victim among them, keeps the chain executable and its head empty |
| TagState.ShiftStep | zcache/zcache_tags.cc:328-335 | one step of the chain, moved or skipped, leaves the next source where it was and the next destination empty |
| TagState.PlacedRelocated | zcache/zcache_tags.cc:325-349 | placing the new block at the chain's root undoes no move of the chain |
| TagState.MoveBlock | zcache/zcache_tags.cc:288-304 | moving a block to one of its slots keeps placement, uniqueness and the map |
| TagState.DropBlock | glue/zcache_tags_new.cc:44-57 | invalidation removes exactly the slot's key |
| TagState.PlaceBlock | zcache/zcache_tags.cc:345-349 | placing an absent key in an empty slot it hashes to adds exactly that key |
| TagState.RootIsHome | zcache/zcache_tags.cc:148-150 | a level-1 slot for an address is a home for its block-aligned tag |
| TagState.MoveMeta | glue/zcache_tags_new.cc:81-91 | moving metadata keeps the set of holdings and the one-owner rule |
| TagState.ClearMeta | glue/zcache_tags_new.cc:53-54 | clearing metadata removes exactly the slot's holding |
| TagState.GrantMeta | glue/zcache_tags_new.hh:63-68 | recording a fresh region adds exactly that holding |
| TagState.MoveHolder | glue/zcache_tags_new.cc:81-91 | after a relocation every key holds the region it held |
| TagState.DropHolder | glue/zcache_tags_new.cc:53-56 | clearing a slot takes the holding of its key and of no other |
| TagState.PlaceHolder | zcache/zcache_tags.cc:345-349 | a block placed in an empty slot holds nothing, whatever was there before |
| TagState.GrantHolder | glue/zcache_tags_new.hh:63-68 | a granted region goes to the key of the slot's block and changes no other key's |
| ZCacheIndex.Linear | zcache/zcache_index.cc:49-67 | the set of a XOR b is the XOR of their sets, in every way |
| ZCacheIndex.SetInRange | zcache/zcache_index.cc:63-67 | every set index is below the number of sets, and the mask changes nothing |
| ZCacheIndex.TagSelectsSameSets | zcache/zcache_index.cc:80-86 | a block's tag selects the sets its address selects, and extracting a tag twice is extracting it once |
| ZCacheIndex.ZCacheIndexingPolicy.ExtractSetOf | zcache/zcache_index.cc:49-67 | digit b of the set is one iff the block number and the way's own mask for b have an odd number of ones in common; the set is below the number of sets |
| ZCacheIndex.ZCacheIndexingPolicy.GetAlternativeLocations | zcache/zcache_index.cc:96-108 | one location per other way, every other way once and in ascending order, each the set that the stored address hashes to in that way |
| ZCacheIndex.ZCacheIndexingPolicy.constructor | zcache/zcache_index.cc:28-47 | the masks of all ways, read way by way, are the successive states of the 64-bit generator from the seed made odd |
| ZCacheIndex.LcgNext | zcache/zcache_index.cc:18-24 | the new state is congruent to 6364136223846793005 * state + 1442695040888963407 modulo 2^64 |
| ZCacheIndex.SetDigit | zcache/zcache_index.cc:49-67 | the digits of a set by counting the ones that the block number shares with each mask of the way |
| ZCacheIndex.SameTag | zcache/zcache_index.cc:80-86 | two addresses have the same tag iff they lie in the same block, and the tag is the address without its offset |
| ReplacementPolicy.WithinBucket | zcache/zcache_rp.cc:35-48 | timestamps in order bound the touches behind them to less than one bucket |
| ReplacementPolicy.BucketLength | zcache/zcache_rp.cc:34-38 | the largest whole number not above fraction * entries, or 1 |
| ReplacementPolicy.ZCacheRP.Touch | zcache/zcache_rp.cc:30-49 | the global timestamp is floor(touches / K) and becomes the entry's stamp; K stays what the first touch made it |
| ReplacementPolicy.ZCacheRP.GetVictim | zcache/zcache_rp.cc:58-76 | the first candidate with the least stamp; it was touched fewer than K touches after any other |
| ReplacementPolicy.ZCacheRP.InstantiateEntry | zcache/zcache_rp.cc:78-83 | a new entry starts untouched and the others are kept; the bucket length follows the number of entries only until the first touch |
| BuddyRuns.BuddyHalves | glue/decoupled_data_store.hh:54-55 | the XOR buddy of an aligned run is the other half of one aligned run of the next order |
| BuddyRuns.BuddyInPool | glue/decoupled_data_store.hh:54-55 | below order 3 that run lies inside the pool |
| BuddyRuns.MaximalTake | glue/decoupled_data_store.cc:50-67 | using one maximal free run removes it from the maximal runs and changes no other |
| BuddyRuns.Climb | glue/decoupled_data_store.cc:54-59 | every free run lies in a maximal free run of at least its order |
| BuddyRuns.TakeStep | glue/decoupled_data_store.cc:64-65 | popping a block and using it keeps the lists exactly the maximal free runs |
| BuddyRuns.SplitStep | glue/decoupled_data_store.cc:37-48 | a split, which leaves two free buddies, is undone as an imbalance by handing out the lower half |
| BuddyRuns.ReleaseStep | glue/decoupled_data_store.cc:83 | pushing a block whose buddy is not listed keeps the lists exactly the maximal free runs |
| BuddyRuns.MergeStep | glue/decoupled_data_store.cc:74-82 | erasing a listed buddy keeps the lists canonical for the doubled run |
| BuddyRuns.ListsUnique | glue/decoupled_data_store.cc:11-84 | the free lists as multisets depend only on which segments are used |
| BuddyRuns.Tiling | glue/decoupled_data_store.cc:11-84 | every unused segment lies in exactly one block of the free lists |
| BuddyRuns.Conservation | glue/decoupled_data_store.cc:11-84 | free and used segments add up to the pool |
| BuddyRuns.Drained | glue/decoupled_data_store.cc:19-22 | with nothing allocated the lists hold every 64-byte block and nothing smaller |
| DecoupledDataStores.DecoupledDataStore.constructor | glue/decoupled_data_store.cc:11-23 | the initial lists are canonical, nothing is live, the pool is zero |
| DecoupledDataStores.DecoupledDataStore.Allocate | glue/decoupled_data_store.cc:50-67 | fails iff no aligned run of the size is wholly free; otherwise hands out the front of the first sufficient list, a best fit |
| DecoupledDataStores.DecoupledDataStore.Deallocate | glue/decoupled_data_store.cc:69-84 | exactly the region stops being live and the lists are canonical again |
| DecoupledDataStores.DecoupledDataStore.Write | glue/decoupled_data_store.cc:86-90 | the bytes at the region are the source's, all others are unchanged |
| DecoupledDataStores.DecoupledDataStore.Read | glue/decoupled_data_store.cc:92-96 | the destination gets the region's bytes |
| DecoupledDataStores.PoolBalance | glue/decoupled_data_store.cc:11-84 | in every valid store free and allocated bytes sum to poolBytes |
| DecoupledDataStores.FreeAll | glue/decoupled_data_store.cc:69-84 | releasing all live regions in any order restores the initial lists |
| BitPlaneCompressor.TransposeTwice | bpc/bpc.cc:16-39 | extracting all planes and reconstructing the words is the identity |
| BitPlaneCompressor.DecodeEncode | bpc/bpc.cc:74-98 | the decoder's cursors follow the encoder's: all planes come back and every raw plane is consumed |
| BitPlaneCompressor.RoundTrip | bpc/bpc.cc:142-167 | decompress(compress(words)) == words for any number of words and bits |
| BitPlaneCompressor.LineRoundTrip | bpc/bpc.cc:58-60 | the same for the bytes of a line |
| BitPlaneCompressor.ReportedTable | bpc/bpc.cc:100-115 | uncapped the size is 16, 32 or 64 bytes by the number of raw planes; capped it is one of the three and respects the cap |
| BitPlaneCompressor.UncappedExactly | bpc/bpc.cc:100-104 | a cap changes no reported size iff it is not positive or at least 4; a cap of 1 reports full size |
| BitPlaneCompressor.BPC.Compress | bpc/bpc.cc:42-127 | every tag says what is true of the digits of the words: all zero, all one, equal or opposite to the bit before, or none of these; the raw planes are those of the untagged bits in order; the size is the least of 64, 128, 256 and 512 bits that holds 3 bits per plane and the raw planes and that the cap allows |
| BitPlaneCompressor.BPC.Decompress | bpc/bpc.cc:130-168 | whatever the tags and raw planes, each digit of each word is what its tag makes of it; the words are those of the specification that inverts compression |
| BitPlaneCompressor.CompressedEncodes | bpc/bpc.cc:74-98 | the tags and raw planes described by the digits of the words, for any number of words and of bits |
| BitPlaneCompressor.DecompressedDecodes | bpc/bpc.cc:142-167 | the words described by the tags and the digits of the raw planes |
| BitPlaneCompressor.RawPlaneCount | bpc/bpc.cc:90-94 | the number of raw planes is the number of bits that are not uniform and neither equal nor opposite to the bit before |
| BitPlaneCompressor.PaddedLeast | bpc/bpc.cc:100-115 | the padded size is the least power of two of bytes, from 8 to 64, that covers the encoding and the cap's floor |
| BitPlaneCompressor.WordDigits | bpc/bpc.cc:58-60 | bit i of word w is bit i % 8 of byte 4 * w + i / 8 of the line |
| BitPlaneCompressor.ExtractPlane | bpc/bpc.cc:17-25 | bit w of the plane is the bit of word w, and there are no other bits |
| BitPlaneCompressor.ReconstructWords | bpc/bpc.cc:28-39 | the words are the transpose of the planes |
| FragReservoirs.AdmitSmallest | glue/frag_reservoir.cc:53-73 | one sample keeps the smallest timestamps seen so far |
| FragReservoirs.BestOfFour | glue/frag_reservoir.cc:41-76 | from an empty bin, after any run of samples with no draw, the bin holds the four smallest timestamps of its class |
| FragReservoirs.DrawMeetsHeader | glue/frag_reservoir.cc:85-99 | the draw comes from the first bin with a candidate to draw, and is the coldest at or above the class iff no higher bin holds a candidate colder than all of that bin |
| FragReservoirs.HeaderFails | glue/frag_reservoir.cc:85-99 | two samples lead from the empty reservoir to a state where the draw is not the coldest at or above the class |
| FragReservoirs.LfsrAlive | glue/frag_reservoir.cc:24-31 | the generator stays in 16 bits and never reaches 0 |
| FragReservoirs.FragReservoir.Offer | glue/frag_reservoir.cc:53-73 | the sample goes to the bin of its size (bin b takes what bin b - 1 does not, up to 8 * 2^b bytes, and the last bin the rest), to the first free slot or in place of the warmest candidate if it is colder; other bins are untouched, and every candidate stays in the bin of its size |
| FragReservoirs.FragReservoir.GetVictim | glue/frag_reservoir.cc:81-102 | the coldest candidate of the first bin, of those whose sizes serve the request, that holds one stamped below the largest tick is returned and cleared; none iff there is no such bin |
| FragReservoirs.OneClass | glue/frag_reservoir.cc:33-39 | every size has one bin; 8, 16, 32 and 64 bytes have the bins 0 to 3, and the bins that serve a size are its own and those above |
| FragReservoirs.NoneBySize | glue/frag_reservoir.cc:81-102 | in a reservoir sampled from this cache there is nothing to draw iff no candidate below the largest tick has at least the requested size |
| FragReservoirs.DrawnBySize | glue/frag_reservoir.cc:85-99 | what is drawn for 16 bytes or more has at least the requested size; no candidate that could be drawn is smaller, and none of the same size is colder |
| FragReservoirs.LfsrDigits | glue/frag_reservoir.cc:24-31 | one step shifts the state and adds the bit shifted out at the taps 16, 14, 13 and 11 |
| Ownership.OwnersDiffer | glue/zcache_tags_new.cc:20-23 | no region is owned by two slots |
| Ownership.RemoveAgrees | glue/zcache_tags_new.cc:50-54 | clearing an owner and freeing its region keeps tags and allocator in agreement |
| Ownership.GrantAgrees | glue/zcache_glue.cc:161-162 | recording the fresh region restores the agreement |
| Ownership.FreshDisjoint | glue/zcache_glue.cc:117-161 | a freshly allocated region shares no byte with any owned one |
| Ownership.WriteHolds | glue/zcache_glue.cc:161 | storing a line leaves the bytes of every other owned region as they were |
| Ownership.ReleaseHelps | glue/zcache_glue.cc:149-152 | after freeing a region of at least the request the next allocation succeeds |
| Ownership.LiveIsHeld | glue/zcache_tags_new.cc:20-23 | the allocator's live regions are exactly those that some key holds |
| Cdzcache.ZCache.Invalidate | glue/zcache_tags_new.cc:44-57 | the slot's region is freed, its metadata cleared and its key dropped from the map and from the holders, with agreement and pool contents kept |
| Cdzcache.ZCache.DeallocatePoolSlot | glue/zcache_glue.cc:169-172 | the region is no longer live |
| Cdzcache.ZCache.ForceEvict | glue/zcache_glue.cc:149-150 | a forced eviction drops one key, frees its region and leaves a run for every request that is not larger |
| Cdzcache.ZCache.FindRoom | glue/zcache_glue.cc:117-153 | it ends with a region, or with no run left and no candidate at or above the class left; it takes a run without evicting exactly when one existed at the start; every evicted key held a region of the recorded size, and all but possibly the last were smaller than the request; at most one eviction per draw; no other key's region changes |
| Cdzcache.ZCache.MakeRoom | glue/zcache_glue.cc:122-154 | with no run at the start the loop, whose measure is the candidates left, allocates only after an eviction and otherwise leaves no candidate at or above the class; the evicted keys held regions smaller than the request, except possibly the last |
| Cdzcache.ZCache.HandleFill | glue/zcache_glue.cc:89-163 | the line is stored and its key holds a region of the compressed size with the line's first bytes, or no run exists and no candidate large enough is left; it is stored with no eviction exactly when a run existed at the start; each evicted key was a reservoir candidate large enough for the line and held a region smaller than the line needs, except possibly the last; at most 16 are evicted, never the filled block; every other surviving key holds what it held; candidates are drawn only from bins that serve the size, and whatever a drawn one names no longer holds a region |
| Cdzcache.ZCache.CompressedSize | glue/zcache_glue.cc:96-107 | the size of a fill is the least of 16, 32 and 64 bytes that the number of raw planes of the line (at most 2, at most 10, more) and the ratio cap allow |
| Fills.LineSizeTable | glue/zcache_glue.cc:79-107 | the size of a line by the digits of its words and the cap, without reference to the compressor |
| Fills.SinceEvict | glue/zcache_glue.cc:139-152 | each forced eviction removes exactly one other block's key, with its region, of the recorded size, and no other |
| Fills.ForcedOthers | glue/zcache_glue.cc:137-145 | the freshly inserted key survives its own fill |
| Fills.ExhaustedFill | glue/zcache_glue.cc:122-154 | if a fill gives up, every candidate that its size could have drawn at the start was stale or has been evicted |
| Fills.OneVictim | zcache/zcache_tags.cc:271-277 | a miss evicts at most one key, none if a candidate slot is empty |
| Cdzcache.ZCache.ClearVictim | zcache/zcache_tags.cc:138-282 | after the walk and the invalidations the chain can be executed, and exactly the victim's key and the keys in the other invalidated slots are gone, with their regions |
| Cdzcache.ZCache.InsertBlock | glue/zcache_tags_new.cc:29-36 | cuckoo insertion then fill: the map gains the key and loses only forced-out keys, which were reservoir candidates and held the recorded regions, and so does the map of holders; a packet with data is stored with no eviction iff a run existed |
| Cdzcache.ZCache.Miss | zcache/zcache_tags.cc:138-360 | a whole miss changes the map, and which key holds which region, by exactly the victim, the slots invalidated in between, the new key and the forced evictions; forced keys were reservoir candidates and held regions smaller than the line needs, except possibly the last; none is forced out exactly when the regions left before the fill leave a run |
| Cdzcache.ZCache.InvalidateAll | zcache/zcache_tags.cc:271-277 | the listed slots end empty, their keys leave the map and the holders, and no other slot or region changes |
| Cdzcache.ZCache.Get | zcache/zcache_tags.cc:113-132 | a hit returns the block's data and counts as one touch of exactly that block; a miss changes nothing |
| Cdzcache.ZCache.Put | zcache/zcache_tags.cc:96-360 | a write hit changes the key's line, counts as one touch of its block and changes nothing else; otherwise a whole miss, with the victim that the walk picks |
| Cdzcache.ZCache.HeldInPool | glue/zcache_glue.cc:161-162 | in every valid state the pool still holds the bytes that each holder's fill wrote |
| Cdzcache.ZCache.ProcessSampleEvent | glue/frag_reservoir.cc:41-76 | the generator steps once, and the slot that its new state picks is offered with its size and stamp if it holds a block; nothing else changes |
| Cdzcache.ZCache.Run | zcache/zcache_tags.cc:96-360 | over every run from the empty cache each operation answers and changes exactly what one step may, every state is valid, hits return the last line put, and every region holds the line whose put last inserted its key |
| Runs.RunLatest | zcache/zcache_tags.cc:96-360 | at every point of a run whatever is stored under a key is the last line put there |
| Runs.RunAnswers | zcache/zcache_tags.cc:96-132 | a lookup that hits returns the last line put under its key |
| Runs.PutThenGet | zcache/zcache_tags.cc:96-360 | a lookup right after a put of the same key hits and returns the line |
| Runs.MissBounds | zcache/zcache_tags.cc:138-360 | a miss loses at most one key to its victim, one to each slot invalidated in between, and 16 to the fill |
| Runs.LossCause | zcache/zcache_tags.cc:138-360 | a stored key leaves exactly when its slot is invalidated or when a miss of another key takes its slot, invalidates it or forces it out |
| Runs.PresentSince | zcache/zcache_tags.cc:311-360 | a key enters only by a put, and a stored key has been there ever since one |
| Runs.RunFilled | glue/zcache_glue.cc:89-163 | at every point of a run every region has the size and the first bytes of the line whose put last inserted its key |

## Left out

- ZCacheTags.ZCacheTagsNew.InsertBlock: models insertion of an absent key only, at a slot the key hashes to, which is empty or will be once the chain that ends there has run; overlapping misses that share one pending chain are serialised by the configuration and not modelled.
- Cdzcache.ZCache.InsertBlock: the same.
- ZCacheTags.ZCacheTagsNew.DoMoveBlock: asks, beyond the two assertions of the source, for a destination that the moved block hashes to; the source leaves that to its only caller, which meets it, and placement would not survive other destinations.
- ZCacheTags.ZCacheTagsNew.SetBlockDataPtr: asks for a fresh region and a valid slot that owns none, which is what the fill calls it with; the setter itself checks nothing.
- Cdzcache.ZCache.Run: models writes and fills as one put of a line; memory below the cache, write-back and the loss of dirty data on a forced eviction are not modelled, so nothing is said about a key once it has left the cache.
- DecoupledDataStores.DecoupledDataStore.Deallocate: does not state the position of the returned block within its list, which the source promises nothing about.
- ReplacementPolicy.ZCacheRP.Touch: models the bucket length with a real fraction, so the rounding of the float product is not captured.
- The derived tag class and its base are one class here: the overridden move and invalidate are the ones that run. C++ vectors are sequence fields of their object, so pointers into them are slot numbers and aliasing between vectors is not captured; the pool is an array.
- Methods that are long in the source are cut into steps (`FindVictim`, `HandleFill`), each with its own contract.
- gem5 base classes, packets, ticks and latencies are not part of this model; what they contribute here is that a move copies the block and clears its source, that invalidation clears, and that the controller invalidates the evicted slot before insertion.
- The decompressor's panic on an unknown tag and the compressor's panic on short input: the types exclude both.
- Statistics, `tagsInUse`, the partition manager and `getPossibleEntries`.
- The full period of the 16-bit generator and the statistical quality of the H3 matrices.
- `bpc/compressed_tags.cc`, configuration scripts and reference numbers.
- Counter wrap-around: touches, ticks and addresses are unbounded; pools are below 2^32 bytes as in the source.
