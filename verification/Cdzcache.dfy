/** The compressed decoupled ZCache: the fill path that ties tags, pool, reservoir and compressor
    together, and whole runs of the cache. */
module Cdzcache {
  import opened Bits
  import opened Options
  import opened BuddyRuns
  import opened DecoupledDataStores
  import opened BitPlaneCompressor
  import opened FragReservoirs
  import opened ZCacheIndex
  import opened ZCacheWalk
  import opened TagState
  import opened ZCacheTags
  import opened Ownership
  import opened Fills
  import opened Runs

  class ZCache {
    const tags: ZCacheTagsNew
    const store: DecoupledDataStore
    const reservoir: FragReservoir
    const compressor: BPC

    constructor (tags: ZCacheTagsNew, store: DecoupledDataStore, reservoir: FragReservoir, compressor: BPC)
      requires tags.Valid() && tags.Owned() == {}
      requires store.Valid() && store.live == {}
      requires reservoir.Valid() && forall b :: 0 <= b < 4 ==> BinEmpty(reservoir.bins[b])
      ensures Valid()
      ensures this.tags == tags && this.store == store && this.reservoir == reservoir && this.compressor == compressor
    {
      this.tags, this.store, this.reservoir, this.compressor := tags, store, reservoir, compressor;
    }

    ghost function Footprint(): set<object> {
      {tags, tags.rp, store, store.pool, reservoir}
    }

    ghost predicate Valid()
      reads this, Footprint()
    {
      && tags.Valid() && store.Valid() && reservoir.Valid()
      && Agrees(tags.Owned(), store.live)
      && PoolHolds(store.pool[..], tags.Owned())
      && EntriesOk(reservoir.bins, |tags.blks|)
    }

    ghost function Cfg(): Config {
      Config(tags.Ix(), tags.walkLevels, tags.numCandidates, compressor.maxCompressionRatio)
    }

    /** The state that the steps of a run are about. */
    ghost function Now(): Snapshot
      requires Valid()
      reads this, Footprint()
    {
      State(tags.blks, tags.Held(), reservoir.bins, tags.rp.lastTouch)
    }

    // -------------------------------------------------------------- eviction

    method DeallocatePoolSlot(ptr: nat, size: nat)
      requires store.Valid() && ValidSize(size) && Region(ptr, SizeToOrder(size)) in store.live
      modifies store
      ensures store.Valid() && store.live == old(store.live) - {Region(ptr, SizeToOrder(size))}
    {
      store.Deallocate(ptr, size);
    }

    /** The normal eviction path: the pool region is freed, then the tag is cleared. */
    method Invalidate(s: nat)
      requires Valid() && s < |tags.blks|
      modifies tags`blks, tags`blkDataPtr, tags`blkAllocSize, tags`filled, tags.rp, store
      ensures Valid() && SlotCleared(old(Now()), Now(), s)
      ensures tags.Metadata() == MetaClear(old(tags.Metadata()), s)
    {
      ReleaseRegion(s);
      tags.Invalidate(s);
    }

    /** Frees the region of a slot, if it owns one; the tag is still to be cleared. */
    method ReleaseRegion(s: nat)
      requires Valid() && s < |tags.blks|
      modifies store
      ensures store.Valid()
      ensures var left := if tags.Metadata().Owns(s) then tags.Owned() - {tags.Metadata().At(s)} else tags.Owned();
              Agrees(left, store.live)
    {
      var ptr, size := tags.blkDataPtr[s], tags.blkAllocSize[s];
      if ptr != ALLOC_FAIL && size > 0 {
        Releasable(s, 8);
        DeallocatePoolSlot(ptr, size);
      }
    }

    // -------------------------------------------------------------- fill

    /** The size of a line in this cache's pool. */
    ghost function FillSize(line: Line): (size: nat)
      ensures size == 16 || size == 32 || size == 64
    {
      LineSize(line, compressor.maxCompressionRatio)
    }

    /** Compresses a line: the size is the least that holds the planes that are neither uniform nor
        equal or opposite to their predecessors, and that the ratio cap allows. */
    method CompressedSize(line: Line) returns (size: nat)
      ensures size == FillSize(line)
      ensures SizeFor(size, |RawBits(WordsOf(line), 32)|, CapBits(compressor.maxCompressionRatio))
    {
      var data, bits := compressor.Compress(WordsOf(line), BITS_PER_WORD);
      PackedSize(line, compressor.maxCompressionRatio, |data.rawPlanes|, bits);
      size := ComputePaddedSize(bits);
    }

    /** There is a wholly free aligned run for a size. */
    ghost predicate Fits(size: nat)
      requires store.Valid() && ValidSize(size)
      reads store
    {
      HasRun(Used(store.live), store.NumSegments(), SizeToOrder(size))
    }

    /** The state between an allocation and the grant of its region. */
    ghost predicate Reserved(ptr: nat, size: nat)
      requires ValidSize(size)
      reads this, Footprint()
    {
      && tags.Valid() && store.Valid() && reservoir.Valid()
      && AllocatedFor(tags.Owned(), store.live, store.NumSegments(), ptr, size)
      && PoolHolds(store.pool[..], tags.Owned())
      && EntriesOk(reservoir.bins, |tags.blks|)
    }

    method Reserve(size: nat) returns (ptr: nat)
      requires Valid() && ValidSize(size)
      modifies store
      ensures Reserved(ptr, size)
      ensures ptr == ALLOC_FAIL <==> !old(Fits(size))
      ensures ptr == ALLOC_FAIL ==> store.live == old(store.live)
    {
      ptr := store.Allocate(size);
      if ptr != ALLOC_FAIL {
        assert store.live - {Region(ptr, SizeToOrder(size))} == old(store.live);
      }
    }

    /** The forced eviction of a block that owns a region: no write-back, the key is dropped. */
    method ForceEvict(victim: nat, ghost request: nat)
      requires Valid() && victim < |tags.blks| && tags.blks[victim].valid && tags.Metadata().Owns(victim)
      requires ValidSize(request)
      modifies tags`blks, tags`blkDataPtr, tags`blkAllocSize, tags`filled, tags.rp, store
      ensures Valid() && tags.blks == Dropped(old(tags.blks), victim)
      ensures tags.Metadata() == MetaClear(old(tags.Metadata()), victim)
      ensures request <= old(tags.blkAllocSize)[victim] ==>
                Fits(request)
    {
      var victimPtr, victimSize := tags.blkDataPtr[victim], tags.blkAllocSize[victim];
      Releasable(victim, request);
      tags.ForceInvalidate(victim);
      DeallocatePoolSlot(victimPtr, victimSize);
    }

    /** The region of an owning slot is live, and giving it back keeps the agreement and leaves a run
        for every request that is not larger. */
    lemma Releasable(s: nat, request: nat)
      requires Valid() && tags.Metadata().Owns(s) && ValidSize(request)
      ensures s < |tags.blks| && ValidSize(tags.blkAllocSize[s])
      ensures var h := tags.Metadata().At(s);
              var r := Region(h.ptr, SizeToOrder(h.size));
              && h in tags.Owned() && r in store.live && Agrees(tags.Owned() - {h}, store.live - {r})
              && (request <= h.size ==>
                    HasRun(Used(store.live - {r}), store.NumSegments(), SizeToOrder(request)))
    {
      var h := tags.Metadata().At(s);
      HoldingAt(tags.Metadata(), s);
      OwnersDiffer(tags.blks, tags.Metadata());
      HeldIsLive(tags.Owned(), store.live, h);
      RemoveAgrees(tags.Owned(), store.live, h);
      if request <= h.size {
        SizeOrder(request, h.size);
        ReleaseHelps(store.live, store.NumSegments(), RegionOf(h), SizeToOrder(request));
      }
    }

    /** One round of the loop on a live victim: evict it and try to allocate again. */
    method EvictAndRetry(victim: nat, size: nat, ghost blk: nat, ghost was: seq<Block>, ghost held: map<Key, Holding>,
                         ghost before: seq<Eviction>)
      returns (ptr: nat, ghost evicted: seq<Eviction>)
      requires Valid() && victim < |tags.blks| && tags.blks[victim].valid && tags.Metadata().Owns(victim)
      requires ValidSize(size)
      requires KeysUnique(was) && Since(was, held, tags.blks, tags.Metadata(), before, blk)
      modifies tags`blks, tags`blkDataPtr, tags`blkAllocSize, tags`filled, tags.rp, store
      ensures Reserved(ptr, size)
      ensures Since(was, held, tags.blks, tags.Metadata(), evicted, blk)
      ensures ptr == ALLOC_FAIL ==> !Fits(size) && old(tags.blkAllocSize)[victim] < size
      ensures tags.Metadata() == MetaClear(old(tags.Metadata()), victim)
      ensures evicted == before + [Eviction(victim, KeyOf(old(tags.blks)[victim]), old(tags.blkAllocSize)[victim])]
    {
      ghost var e := Eviction(victim, KeyOf(tags.blks[victim]), tags.blkAllocSize[victim]);
      SinceEvict(tags.Ix(), was, held, tags.blks, tags.Metadata(), before, blk, e);
      evicted := before + [e];
      ForceEvict(victim, size);
      ptr := Reserve(size);
    }

    /** A draw takes what the reservoir picks for the size, which names a slot of the array. */
    method Draw(size: nat) returns (victim: Option<nat>, ghost b: nat, ghost s: nat)
      requires Valid() && ValidSize(size)
      modifies reservoir`bins
      ensures Valid() && b < 4 && s < 4
      ensures victim.Some? ==> Drawn(old(reservoir.bins), size, b, s) && victim.value < |tags.blks|
      ensures victim.Some? ==> victim.value == old(reservoir.bins)[b][s].entry
      ensures victim.Some? ==> reservoir.bins == Cleared(old(reservoir.bins), b, s)
      ensures victim.Some? ==> Count(reservoir.bins) == Count(old(reservoir.bins)) - 1
      ensures victim.None? ==> reservoir.bins == old(reservoir.bins) && NoneEligible(reservoir.bins, size)
    {
      ghost var held := reservoir.bins;
      victim := reservoir.GetVictim(size);
      b, s := 0, 0;
      if victim.Some? {
        b, s :| Drawn(held, size, b, s) && reservoir.bins == Cleared(held, b, s) && victim.value == held[b][s].entry;
        DrawKeepsEntries(held, b, s, |tags.blks|);
      } else {
        NoneBySize(held, size);
      }
    }

    /** Why a fill ends without storing: there is no run for the size, and the reservoir has no
        candidate left at or above its class. */
    ghost predicate GaveUp(size: nat)
      requires store.Valid() && ValidSize(size)
      reads store, reservoir
    {
      !Fits(size) && NoneEligible(reservoir.bins, size)
    }

    /** Compress, allocate, evict through the reservoir while there is no run, store. */
    method HandleFill(line: Line, blk: nat) returns (stored: bool, ghost evicted: seq<Eviction>)
      requires Valid() && blk < |tags.blks| && tags.blks[blk].valid && !tags.Metadata().Owns(blk)
      modifies tags`blks, tags`blkDataPtr, tags`blkAllocSize, tags`filled, tags.rp, store, store.pool, reservoir`bins
      ensures Valid() && Forced(old(tags.blks), tags.blks, evicted, blk)
      ensures FillResult(old(tags.Map()), old(tags.Held()), old(reservoir.bins), Now(), KeyOf(old(tags.blks)[blk]),
                         line, FillSize(line), evicted, stored)
      ensures !stored ==> GaveUp(FillSize(line))
      ensures old(Fits(FillSize(line))) <==> stored && evicted == []
      ensures |evicted| <= Count(old(reservoir.bins)) - Count(reservoir.bins)
    {
      CountMax(reservoir.bins);
      var paddedSize := CompressedSize(line);
      ghost var was := tags.blks;
      stored, evicted := FillSized(line, blk, paddedSize);
      ForcedOthers(was, evicted, blk);
    }

    method FillSized(line: Line, blk: nat, size: nat) returns (stored: bool, ghost evicted: seq<Eviction>)
      requires Valid() && blk < |tags.blks| && tags.blks[blk].valid && !tags.Metadata().Owns(blk)
      requires size == 16 || size == 32 || size == 64
      modifies tags`blks, tags`blkDataPtr, tags`blkAllocSize, tags`filled, tags.rp, store, store.pool, reservoir`bins
      ensures Valid() && Forced(old(tags.blks), tags.blks, evicted, blk)
      ensures tags.Map() == old(tags.Map()) - KeysOf(evicted)
      ensures Settled(tags.Held(), old(tags.Held()) - KeysOf(evicted), KeyOf(old(tags.blks)[blk]), line, size, stored)
      ensures Freed(old(tags.Held()), evicted) && AllSampled(old(reservoir.bins), size, evicted)
      ensures OnlyDrawn(old(reservoir.bins), reservoir.bins, size)
      ensures AllGone(old(reservoir.bins), reservoir.bins, tags.blks, tags.Held(), KeyOf(old(tags.blks)[blk]))
      ensures SmallFirst(evicted, size, stored) && (!stored ==> GaveUp(size))
      ensures old(Fits(size)) <==> stored && evicted == []
      ensures |evicted| <= Count(old(reservoir.bins)) - Count(reservoir.bins)
    {
      var ptr;
      ptr, evicted := FindRoom(size, blk);
      stored := Store(line, blk, ptr, size, old(reservoir.bins));
    }

    /** The end of a fill: if there is a region, the line goes there and the block's key holds it. */
    method Store(line: Line, blk: nat, ptr: nat, size: nat, ghost bins: seq<seq<Candidate>>) returns (stored: bool)
      requires DrawnGone(bins, reservoir.bins, tags.Metadata())
      requires (size == 16 || size == 32 || size == 64) && Reserved(ptr, size)
      requires blk < |tags.blks| && tags.blks[blk].valid && !tags.Metadata().Owns(blk)
      modifies tags`blkDataPtr, tags`blkAllocSize, tags`filled, store.pool
      ensures Valid() && stored == (ptr != ALLOC_FAIL)
      ensures Settled(tags.Held(), old(tags.Held()), KeyOf(tags.blks[blk]), line, size, stored)
      ensures AllGone(bins, reservoir.bins, tags.blks, tags.Held(), KeyOf(tags.blks[blk]))
    {
      ghost var m := tags.Metadata();
      NotHolder(tags.blks, m, blk);
      stored := ptr != ALLOC_FAIL;
      if stored {
        MinusAdded(tags.Held(), KeyOf(tags.blks[blk]), Holding(ptr, size, line[..size]));
        Grant(line, blk, ptr, size);
      } else {
        MinusAbsent(tags.Held(), KeyOf(tags.blks[blk]));
      }
      GoneHolders(bins, reservoir.bins, tags.blks, m, tags.Held(), KeyOf(tags.blks[blk]));
    }

    /** Room for a fill: a run that is there is taken and nothing is evicted; otherwise the loop makes
        room. */
    method FindRoom(paddedSize: nat, blk: nat) returns (ptr: nat, ghost evicted: seq<Eviction>)
      requires Valid() && ValidSize(paddedSize)
      requires blk < |tags.blks| && tags.blks[blk].valid && !tags.Metadata().Owns(blk)
      modifies tags`blks, tags`blkDataPtr, tags`blkAllocSize, tags`filled, tags.rp, store, reservoir`bins
      ensures Reserved(ptr, paddedSize)
      ensures Since(old(tags.blks), old(tags.Held()), tags.blks, tags.Metadata(), evicted, blk)
      ensures SmallFirst(evicted, paddedSize, ptr != ALLOC_FAIL)
      ensures ptr == ALLOC_FAIL ==> GaveUp(paddedSize)
      ensures old(Fits(paddedSize)) <==> ptr != ALLOC_FAIL && evicted == []
      ensures Draws(old(reservoir.bins), reservoir.bins, tags.Metadata(), paddedSize, evicted)
      ensures |evicted| <= Count(old(reservoir.bins)) - Count(reservoir.bins)
    {
      SinceStart(tags.blks, tags.Metadata(), blk);
      evicted := [];
      ptr := Reserve(paddedSize);
      if ptr == ALLOC_FAIL {
        ptr, evicted := MakeRoom(paddedSize, blk);
      }
    }

    /** The eviction loop: it ends with a region, or with the reservoir out of candidates. */
    method MakeRoom(paddedSize: nat, ghost blk: nat) returns (ptr: nat, ghost evicted: seq<Eviction>)
      requires ValidSize(paddedSize) && Reserved(ALLOC_FAIL, paddedSize) && !Fits(paddedSize)
      requires blk < |tags.blks| && !tags.Metadata().Owns(blk)
      modifies tags`blks, tags`blkDataPtr, tags`blkAllocSize, tags`filled, tags.rp, store, reservoir`bins
      ensures Reserved(ptr, paddedSize)
      ensures Since(old(tags.blks), old(tags.Held()), tags.blks, tags.Metadata(), evicted, blk)
      ensures SmallFirst(evicted, paddedSize, ptr != ALLOC_FAIL)
      ensures ptr == ALLOC_FAIL ==> GaveUp(paddedSize)
      ensures evicted == [] ==> ptr == ALLOC_FAIL
      ensures Draws(old(reservoir.bins), reservoir.bins, tags.Metadata(), paddedSize, evicted)
      ensures |evicted| <= Count(old(reservoir.bins)) - Count(reservoir.bins)
    {
      ghost var was, held, bins := tags.blks, tags.Held(), reservoir.bins;
      SinceStart(was, tags.Metadata(), blk);
      ptr, evicted := ALLOC_FAIL, [];
      while ptr == ALLOC_FAIL
        invariant Reserved(ptr, paddedSize)
        invariant Since(was, held, tags.blks, tags.Metadata(), evicted, blk)
        invariant SmallFirst(evicted, paddedSize, ptr != ALLOC_FAIL)
        invariant ptr == ALLOC_FAIL ==> !Fits(paddedSize)
        invariant evicted == [] ==> ptr == ALLOC_FAIL
        invariant Draws(bins, reservoir.bins, tags.Metadata(), paddedSize, evicted)
        invariant |evicted| <= Count(bins) - Count(reservoir.bins)
        decreases Count(reservoir.bins)
      {
        var more;
        more, ptr, evicted := Attempt(paddedSize, blk, was, held, bins, evicted);
        if !more { return; }
      }
    }

    /** A draw and a round, unless the reservoir has no candidate left for the size. */
    method Attempt(paddedSize: nat, ghost blk: nat, ghost was: seq<Block>, ghost held: map<Key, Holding>,
                   ghost bins: seq<seq<Candidate>>, ghost before: seq<Eviction>)
      returns (more: bool, ptr: nat, ghost evicted: seq<Eviction>)
      requires ValidSize(paddedSize) && Reserved(ALLOC_FAIL, paddedSize)
      requires KeysUnique(was) && Since(was, held, tags.blks, tags.Metadata(), before, blk)
      requires |bins| == 4 && Draws(bins, reservoir.bins, tags.Metadata(), paddedSize, before)
      requires SmallFirst(before, paddedSize, false)
      requires !Fits(paddedSize)
      modifies tags`blks, tags`blkDataPtr, tags`blkAllocSize, tags`filled, tags.rp, store, reservoir`bins
      ensures Reserved(ptr, paddedSize)
      ensures Since(was, held, tags.blks, tags.Metadata(), evicted, blk)
      ensures Draws(bins, reservoir.bins, tags.Metadata(), paddedSize, evicted)
      ensures SmallFirst(evicted, paddedSize, ptr != ALLOC_FAIL)
      ensures ptr == ALLOC_FAIL ==> !Fits(paddedSize)
      ensures more ==> |evicted| <= |before| + 1 && Count(reservoir.bins) == Count(old(reservoir.bins)) - 1
      ensures !more ==> ptr == ALLOC_FAIL && evicted == before && NoneEligible(reservoir.bins, paddedSize)
      ensures !more ==> reservoir.bins == old(reservoir.bins)
      ensures evicted == [] ==> ptr == ALLOC_FAIL
    {
      ghost var now, m := reservoir.bins, tags.Metadata();
      var victimEntry;
      ghost var b, s;
      victimEntry, b, s := Draw(paddedSize);
      more := victimEntry.Some?;
      if more {
        ptr, evicted := Round(paddedSize, victimEntry.value, blk, was, held, before);
        DrawsMore(bins, now, m, tags.Metadata(), paddedSize, b, s, before, evicted);
      } else {
        ptr, evicted := ALLOC_FAIL, before;
      }
    }

    /** One round of the loop: a stale candidate is skipped, a live one is evicted; then the
        allocation is tried again. */
    method Round(paddedSize: nat, victim: nat, ghost blk: nat, ghost was: seq<Block>, ghost held: map<Key, Holding>,
                 ghost before: seq<Eviction>)
      returns (ptr: nat, ghost evicted: seq<Eviction>)
      requires Valid() && ValidSize(paddedSize) && victim < |tags.blks|
      requires KeysUnique(was) && Since(was, held, tags.blks, tags.Metadata(), before, blk)
      requires SmallFirst(before, paddedSize, false) && !Fits(paddedSize)
      modifies tags`blks, tags`blkDataPtr, tags`blkAllocSize, tags`filled, tags.rp, store
      ensures Reserved(ptr, paddedSize)
      ensures Since(was, held, tags.blks, tags.Metadata(), evicted, blk)
      ensures SmallFirst(evicted, paddedSize, ptr != ALLOC_FAIL)
      ensures ptr == ALLOC_FAIL ==> !Fits(paddedSize)
      ensures evicted != before ==> |evicted| == |before| + 1 && evicted[..|before|] == before
      ensures evicted != before ==> evicted[|before|].slot == victim
      ensures evicted == before ==> ptr == ALLOC_FAIL
      ensures !tags.Metadata().Owns(victim)
      ensures tags.Metadata() ==
              if evicted == before then old(tags.Metadata()) else MetaClear(old(tags.Metadata()), victim)
    {
      if !tags.blks[victim].valid || tags.blkDataPtr[victim] == ALLOC_FAIL || tags.blkAllocSize[victim] == 0 {
        evicted := before;
        ptr := Reserve(paddedSize);
      } else {
        ptr, evicted := EvictAndRetry(victim, paddedSize, blk, was, held, before);
        SmallMore(before, evicted[|before|], paddedSize, ptr != ALLOC_FAIL);
      }
    }

    /** Writes the bytes and records the region. */
    method Grant(line: Line, blk: nat, ptr: nat, size: nat)
      requires size == 16 || size == 32 || size == 64
      requires ptr != ALLOC_FAIL && Reserved(ptr, size)
      requires blk < |tags.blks| && tags.blks[blk].valid && !tags.Metadata().Owns(blk)
      modifies tags`blkDataPtr, tags`blkAllocSize, tags`filled, store.pool
      ensures Valid() && tags.Metadata().Owns(blk)
      ensures tags.Held() == old(tags.Held())[KeyOf(tags.blks[blk]) := Holding(ptr, size, line[..size])]
    {
      ghost var h := Holding(ptr, size, line[..size]);
      ghost var before := store.live - {RegionOf(h)};
      GrantAgrees(tags.Owned(), store.live, store.NumSegments(), h);
      store.Write(ptr, line, size);
      WriteHolds(old(store.pool[..]), store.pool[..], tags.Owned(), before, store.NumSegments(), h);
      tags.SetBlockDataPtr(blk, ptr, size, line[..size]);
    }

    // -------------------------------------------------------------- misses

    /** Invalidates a list of slots in order. */
    method InvalidateAll(slots: seq<nat>)
      requires Valid() && forall i :: 0 <= i < |slots| ==> slots[i] < |tags.blks|
      modifies tags`blks, tags`blkDataPtr, tags`blkAllocSize, tags`filled, tags.rp, store
      ensures Valid() && Emptied(old(tags.blks), old(tags.Held()), tags.blks, tags.Metadata(), slots)
    {
      ghost var was, held := tags.blks, tags.Held();
      EmptyStart(was, tags.Metadata());
      ghost var done: seq<nat> := [];
      for i := 0 to |slots|
        invariant done == slots[..i] && |tags.blks| == |was|
        invariant Valid() && Emptied(was, held, tags.blks, tags.Metadata(), done)
      {
        InvalidateNext(slots[i], was, held, done);
        done := done + [slots[i]];
      }
      assert done == slots;
    }

    method InvalidateNext(s: nat, ghost was: seq<Block>, ghost held: map<Key, Holding>, ghost done: seq<nat>)
      requires Valid() && s < |tags.blks|
      requires KeysUnique(was) && Emptied(was, held, tags.blks, tags.Metadata(), done)
      modifies tags`blks, tags`blkDataPtr, tags`blkAllocSize, tags`filled, tags.rp, store
      ensures Valid() && |tags.blks| == old(|tags.blks|)
      ensures Emptied(was, held, tags.blks, tags.Metadata(), done + [s])
    {
      EmptyMore(tags.Ix(), was, held, tags.blks, tags.Metadata(), done, s);
      Invalidate(s);
    }

    /** Cuckoo insertion, then the fill of the inserted block. */
    method InsertBlock(key: Request, line: Line, hasData: bool, blk: nat)
      returns (stored: bool, ghost forced: seq<Eviction>)
      requires Valid() && tags.ReadyFor(key, blk)
      modifies tags, tags.rp, store, store.pool, reservoir`bins
      ensures Valid() && |tags.blks| == old(|tags.blks|)
      ensures tags.blks[blk].valid && KeyOf(tags.blks[blk]) == KeyFor(tags.Ix(), key)
      ensures FillResult(old(tags.Map())[KeyFor(tags.Ix(), key) := line], old(tags.Held()), old(reservoir.bins), Now(),
                         KeyFor(tags.Ix(), key), line, FillSize(line), forced, stored)
      ensures FillEnd(hasData, FillSize(line), old(Fits(FillSize(line))), forced, stored)
    {
      InsertTag(key, line, blk);
      stored, forced := FillInserted(key, line, hasData, blk);
    }

    /** How a fill ends: without data nothing is done; with data the line is stored with no eviction
        exactly when there was a run at the start, and it is not stored only if none can be made. */
    ghost predicate FillEnd(hasData: bool, size: nat, fitted: bool, forced: seq<Eviction>, stored: bool)
      requires store.Valid() && ValidSize(size)
      reads store, reservoir
    {
      if hasData then (fitted <==> stored && forced == []) && (!stored ==> GaveUp(size)) else forced == [] && !stored
    }

    /** The fill of a block that was just inserted, if the packet has data. */
    method FillInserted(key: Request, line: Line, hasData: bool, blk: nat)
      returns (stored: bool, ghost forced: seq<Eviction>)
      requires Valid() && blk < |tags.blks| && tags.blks[blk].valid && !tags.Metadata().Owns(blk)
      requires KeyOf(tags.blks[blk]) == KeyFor(tags.Ix(), key)
      modifies tags`blks, tags`blkDataPtr, tags`blkAllocSize, tags`filled, tags.rp, store, store.pool, reservoir`bins
      ensures Valid() && |tags.blks| == old(|tags.blks|)
      ensures tags.blks[blk].valid && KeyOf(tags.blks[blk]) == KeyFor(tags.Ix(), key)
      ensures FillResult(old(tags.Map()), old(tags.Held()), old(reservoir.bins), Now(), KeyFor(tags.Ix(), key), line,
                         FillSize(line), forced, stored)
      ensures FillEnd(hasData, FillSize(line), old(Fits(FillSize(line))), forced, stored)
    {
      if hasData {
        stored, forced := HandleFill(line, blk);
      } else {
        stored, forced := false, [];
        NothingFilled(line, blk);
      }
    }

    lemma NothingFilled(line: Line, blk: nat)
      requires Valid() && blk < |tags.blks| && tags.blks[blk].valid && !tags.Metadata().Owns(blk)
      ensures FillResult(tags.Map(), tags.Held(), reservoir.bins, Now(), KeyOf(tags.blks[blk]), line, FillSize(line),
                         [], false)
    {
      NotHolder(tags.blks, tags.Metadata(), blk);
      NoFill(Now(), KeyOf(tags.blks[blk]), line, FillSize(line));
    }

    /** Cuckoo insertion moves ownership with the blocks and changes no region. */
    method InsertTag(key: Request, line: Line, blk: nat)
      requires Valid() && tags.ReadyFor(key, blk)
      modifies tags, tags.rp
      ensures Valid() && |tags.blks| == old(|tags.blks|)
      ensures tags.Map() == old(tags.Map())[KeyFor(tags.Ix(), key) := line] && tags.Held() == old(tags.Held())
      ensures tags.HitAt(key, blk) && !tags.Metadata().Owns(blk)
    {
      tags.InsertBlock(key, line, blk);
      ContentsAt(tags.blks, blk);
    }

    /** A whole miss: the walk picks a victim, the controller invalidates it (and, between, any other
        slots), the chain is executed, and the line is filled. Exactly the victim's key, the keys in
        the slots invalidated in between and the keys forced out by the fill are lost; whether a key
        had to be forced out is decided by the regions that are left before the fill. */
    method Miss(key: Request, line: Line, hasData: bool, between: seq<nat>)
      returns (stored: bool, ghost k: nat, ghost forced: seq<Eviction>)
      requires Valid() && KeyFor(tags.Ix(), key) !in tags.Map()
      requires forall i :: 0 <= i < |between| ==> between[i] < |tags.blks|
      modifies tags, tags.rp, store, store.pool, reservoir`bins
      ensures Valid() && |tags.blks| == old(|tags.blks|)
      ensures old(tags.VictimFor(key.address, k) && tags.NearlyOldest(key.address, k))
      ensures var lost := KeysIn(old(tags.blks), [SlotAt(old(tags.G(key.address)), k)] + between);
              && Missed(old(Now()), Now(), KeyFor(tags.Ix(), key), line, FillSize(line), lost, forced, stored)
              && FillEnd(hasData, FillSize(line), RoomFor(old(tags.Held()) - lost, FillSize(line)), forced, stored)
    {
      var root;
      root, k := ClearVictim(key, between);
      FitsHeld(FillSize(line));
      stored, forced := InsertBlock(key, line, hasData, root);
    }

    /** The first half of a miss: the walk, and the invalidations before the insertion. */
    method ClearVictim(key: Request, between: seq<nat>) returns (root: nat, ghost k: nat)
      requires Valid() && KeyFor(tags.Ix(), key) !in tags.Map()
      requires forall i :: 0 <= i < |between| ==> between[i] < |tags.blks|
      modifies tags, tags.rp, store
      ensures Valid() && tags.ReadyFor(key, root) && |tags.blks| == old(|tags.blks|)
      ensures old(tags.VictimFor(key.address, k) && tags.NearlyOldest(key.address, k))
      ensures var lost := KeysIn(old(tags.blks), [SlotAt(old(tags.G(key.address)), k)] + between);
              tags.Map() == old(tags.Map()) - lost && tags.Held() == old(tags.Held()) - lost
    {
      var evictBlks;
      root, evictBlks, k := tags.FindVictim(key);
      ghost var chain, was := tags.pendingSwapChain, tags.blks;
      InvalidateAll(evictBlks + between);
      EmptiedReady(tags.Ix(), was, tags.blks, evictBlks + between, key.address, chain);
      EmptyVictim(was, chain[0], between);
    }

    /** There is a run for a size in a pool where exactly these holdings are live. */
    ghost predicate RoomFor(held: map<Key, Holding>, size: nat)
      requires ValidSize(size)
    {
      HasRun(Used(HeldRegions(held)), store.NumSegments(), SizeToOrder(size))
    }

    lemma FitsHeld(size: nat)
      requires Valid() && ValidSize(size)
      ensures Fits(size) <==> RoomFor(tags.Held(), size)
    {
      LiveIsHeld(tags.blks, tags.Metadata(), store.live);
    }

    // -------------------------------------------------------------- single operations

    /** A hit returns the block's data and touches it; a miss changes nothing. */
    method Get(key: Request) returns (data: Option<seq<byte>>, ghost s: nat)
      requires Valid()
      modifies tags.rp
      ensures Valid() && data == Lookup(tags.Map(), KeyFor(tags.Ix(), key)) && SameBlocks(old(Now()), Now())
      ensures data.None? ==> unchanged(tags.rp)
      ensures data.Some? ==>
                && tags.HitAt(key, s) && tags.rp.accessCount == old(tags.rp.accessCount) + 1
                && Stamped(old(tags.rp.touchedAt), tags.rp.touchedAt, s, tags.rp.accessCount)
    {
      var slot := tags.AccessBlock(key);
      data := if slot.Some? then Some(tags.blks[slot.value].data) else None;
      s := if slot.Some? then slot.value else 0;
    }

    /** A write hit, which touches the block, or a miss that fills the line. */
    method Put(key: Request, line: Line, between: seq<nat>) returns (ghost s: nat)
      requires Valid() && forall i :: 0 <= i < |between| ==> between[i] < |tags.blks|
      modifies tags, tags.rp, store, store.pool, reservoir`bins
      ensures Valid() && |tags.blks| == old(|tags.blks|)
      ensures PutStep(Cfg(), old(Now()), Now(), key, line, between)
      ensures KeyFor(tags.Ix(), key) in old(tags.Map()) ==>
                && old(tags.HitAt(key, s)) && tags.rp.accessCount == old(tags.rp.accessCount) + 1
                && Stamped(old(tags.rp.touchedAt), tags.rp.touchedAt, s, tags.rp.accessCount)
    {
      s := 0;
      var slot := tags.AccessBlock(key);
      if slot.Some? {
        s := slot.value;
        PutHit(key, line, slot.value);
      } else {
        PutMiss(key, line, between);
      }
    }

    method PutHit(key: Request, line: Line, s: nat)
      requires Valid() && tags.HitAt(key, s)
      modifies tags`blks
      ensures Valid() && |tags.blks| == old(|tags.blks|)
      ensures Overwritten(old(Now()), Now(), KeyFor(tags.Ix(), key), line)
    {
      tags.WriteHit(s, line);
    }

    method PutMiss(key: Request, line: Line, between: seq<nat>)
      requires Valid() && KeyFor(tags.Ix(), key) !in tags.Map()
      requires forall i :: 0 <= i < |between| ==> between[i] < |tags.blks|
      modifies tags, tags.rp, store, store.pool, reservoir`bins
      ensures Valid() && |tags.blks| == old(|tags.blks|)
      ensures PutStep(Cfg(), old(Now()), Now(), key, line, between)
    {
      ghost var before := Now();
      var stored;
      ghost var k, forced;
      stored, k, forced := Miss(key, line, true, between);
      assert MissedAt(Cfg(), before, Now(), key, line, between, k, forced, stored);
    }

    /** What a sampling event records of a slot. */
    ghost function SampleOf(idx: nat): Candidate
      requires Valid() && idx < |tags.blks|
      reads this, Footprint()
    {
      Candidate(idx, tags.blkAllocSize[idx], tags.rp.lastTouch[idx], true)
    }

    lemma SizeRecorded(s: nat)
      requires Valid() && s < |tags.blks|
      ensures GranuleOrNone(tags.blkAllocSize[s])
    {
      if tags.Metadata().Owns(s) { HoldingAt(tags.Metadata(), s); }
    }

    /** A reservoir sampling event: the generator steps, and the slot it picks is offered if it holds a
        block. */
    method ProcessSampleEvent()
      requires Valid()
      modifies reservoir
      ensures Valid() && SameBlocks(old(Now()), Now())
      ensures reservoir.lfsrState ==
              if |tags.blks| > 0 then LfsrStep(old(reservoir.lfsrState)) else old(reservoir.lfsrState)
      ensures |tags.blks| > 0 && tags.blks[reservoir.lfsrState % |tags.blks|].valid ==>
                Offered(old(reservoir.bins), SampleOf(reservoir.lfsrState % |tags.blks|), reservoir.bins)
      ensures !(|tags.blks| > 0 && tags.blks[reservoir.lfsrState % |tags.blks|].valid) ==>
                reservoir.bins == old(reservoir.bins)
    {
      if |tags.blks| > 0 {
        var r := reservoir.LfsrNext();
        var idx := r % |tags.blks|;
        if tags.blks[idx].valid {
          OfferSlot(idx);
        }
      }
    }

    method OfferSlot(idx: nat)
      requires Valid() && idx < |tags.blks|
      modifies reservoir`bins
      ensures Valid() && Offered(old(reservoir.bins), SampleOf(idx), reservoir.bins)
    {
      ghost var bins := reservoir.bins;
      SizeRecorded(idx);
      reservoir.Offer(idx, tags.blkAllocSize[idx], tags.rp.lastTouch[idx]);
      OfferKeepsEntries(bins, SampleOf(idx), reservoir.bins, |tags.blks|);
    }

    // -------------------------------------------------------------- whole runs

    /** The pool still holds the bytes of what a key holds. */
    lemma HeldInPool(key: Key)
      requires Valid() && key in tags.Held()
      ensures key in tags.Map() && InPool(store.pool[..], tags.Held()[key])
    {
      var s := HolderSlot(tags.blks, tags.Metadata(), key);
      HolderAt(tags.blks, tags.Metadata(), s);
      ContentsAt(tags.blks, s);
      HoldingAt(tags.Metadata(), s);
    }

    /** Over every run from the empty cache each operation answers and changes exactly what `Stepped`
        says; so a lookup that hits returns the last line put under its key, and every region holds the
        line whose put last inserted its key. */
    method Run(ops: seq<Op>) returns (results: seq<Option<seq<byte>>>, ghost trace: seq<Snapshot>)
      requires Valid() && tags.Map() == map[]
      requires forall i :: 0 <= i < |ops| ==> OpOk(ops[i], |tags.blks|)
      modifies tags, tags.rp, store, store.pool, reservoir
      ensures Valid() && Follows(Cfg(), ops, trace, results)
      ensures trace[0] == old(Now()) && trace[|ops|] == Now()
      ensures forall i :: 0 <= i < |ops| ==> Answered(tags.Ix(), ops, i, results[i])
      ensures HeldFrom(tags.Held(), Inserted(tags.Ix(), ops, trace, |ops|), compressor.maxCompressionRatio)
    {
      forall k | k in tags.Held() ensures k in tags.Map() { HeldInPool(k); }
      ghost var cfg := Cfg();
      results, trace := [], [Now()];
      for i := 0 to |ops|
        invariant Valid() && |tags.blks| == old(|tags.blks|)
        invariant Follows(cfg, ops[..i], trace, results)
        invariant trace[0] == old(Now()) && trace[i] == Now()
      {
        assert OpOk(ops[i], |tags.blks|);
        var result := Step(ops[i]);
        FollowsPush(cfg, ops, i, trace, results, Now(), result);
        trace := trace + [Now()];
        results := results + [result];
      }
      assert ops[..|ops|] == ops;
      forall i | 0 <= i < |ops| ensures Answered(cfg.ix, ops, i, results[i]) {
        RunAnswers(cfg, ops, trace, results, i);
      }
      RunFilled(cfg, ops, trace, results, |ops|);
    }

    method Step(op: Op) returns (result: Option<seq<byte>>)
      requires Valid() && OpOk(op, |tags.blks|)
      modifies tags, tags.rp, store, store.pool, reservoir
      ensures Valid() && |tags.blks| == old(|tags.blks|)
      ensures Stepped(Cfg(), op, old(Now()), Now(), result)
    {
      result := None;
      match op {
        case Get(key) =>
          ghost var s;
          result, s := Get(key);
        case Put(key, line, between) =>
          ghost var s := Put(key, line, between);
        case Drop(slot) => Invalidate(slot);
        case Sample => ProcessSampleEvent();
      }
    }
  }
}
