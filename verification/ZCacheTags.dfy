/** The tag store: skewed lookup, the replacement walk, cuckoo insertion, and the per-slot pool
    metadata that moves with the blocks. */
module ZCacheTags {
  import opened Bits
  import opened Options
  import opened ZCacheIndex
  import opened ZCacheWalk
  import opened ReplacementPolicy
  import opened DecoupledDataStores
  import opened TagState

  datatype WalkInfo = WalkInfo(setIdx: nat, way: nat, parentIdx: int)

  /** Entry k of the candidate list is candidate k of the walk. */
  ghost predicate ListedAt(ix: H3, g: Graph, c: WalkInfo, k: nat)
    requires ix.ways >= 2 && g.Valid() && g.Ways() == ix.ways
  {
    && Slot(ix, c.setIdx, c.way) == SlotAt(g, k)
    && c.way == SlotWay(ix, SlotAt(g, k))
    && c.parentIdx == if k < ix.ways then -1 else Parent(ix.ways, k)
  }

  ghost predicate Listed(ix: H3, g: Graph, candidates: seq<WalkInfo>)
    requires ix.ways >= 2 && g.Valid() && g.Ways() == ix.ways
  {
    forall k: nat :: k < |candidates| ==> ListedAt(ix, g, candidates[k], k)
  }

  lemma ListRoot(ix: H3, blks: seq<Block>, addr: nat, w: nat)
    requires Shape(ix, blks) && w < ix.ways
    ensures ListedAt(ix, GraphOf(ix, blks, addr), WalkInfo(ExtractSet(ix, addr, w), w, -1), w)
  {
    HomeSlotParts(ix, addr, w);
  }

  /** The j-th alternative location of candidate p's block is candidate FirstKid(p) + j. */
  lemma ListKid(ix: H3, blks: seq<Block>, addr: nat, p: nat, j: nat, alt: (nat, nat), k: nat)
    requires Shape(ix, blks) && j < ix.ways - 1 && k == FirstKid(ix.ways, p) + j
    requires alt == Alternative(ix, blks, SlotAt(GraphOf(ix, blks, addr), p), j)
    ensures ListedAt(ix, GraphOf(ix, blks, addr), WalkInfo(alt.0, alt.1, p), k)
    ensures Slot(ix, alt.0, alt.1) != SlotAt(GraphOf(ix, blks, addr), p)
  {
    var g := GraphOf(ix, blks, addr);
    KidOf(ix.ways, p, j);
    KidSlotAt(g, p, j);
    GraphKid(ix, blks, addr, SlotAt(g, p), j);
    AlternativeSlot(ix, blks, SlotAt(g, p), j);
  }

  /** The state of the walk: the list so far, and whether all its slots are valid. */
  ghost predicate Walking(ix: H3, g: Graph, candidates: seq<WalkInfo>, allValid: bool)
    requires ix.ways >= 2 && g.Valid() && g.Ways() == ix.ways
  {
    Listed(ix, g, candidates) && allValid == AllValid(g, |candidates|)
  }

  lemma WalkingPush(ix: H3, g: Graph, candidates: seq<WalkInfo>, allValid: bool, c: WalkInfo)
    requires ix.ways >= 2 && g.Valid() && g.Ways() == ix.ways
    requires Walking(ix, g, candidates, allValid) && ListedAt(ix, g, c, |candidates|)
    ensures Slot(ix, c.setIdx, c.way) < |g.full|
    ensures Walking(ix, g, candidates + [c], allValid && g.full[Slot(ix, c.setIdx, c.way)])
  {
  }

  /** The state within a level: the candidates before fi have been expanded, up to the cap. */
  ghost predicate Frontier(ix: H3, g: Graph, candidates: seq<WalkInfo>, allValid: bool, cap: nat, fi: nat)
    requires ix.ways >= 2 && g.Valid() && g.Ways() == ix.ways
  {
    Walking(ix, g, candidates, allValid) && |candidates| == Min(cap, FirstKid(ix.ways, fi))
  }

  /** A candidate that is about to be expanded is listed, and valid if the level before it is. */
  lemma FringeFull(ix: H3, g: Graph, candidates: seq<WalkInfo>, allValid: bool, cap: nat, fi: nat, n: nat)
    requires ix.ways >= 2 && g.Valid() && g.Ways() == ix.ways && Frontier(ix, g, candidates, allValid, cap, fi)
    requires fi < n && AllValid(g, n) && |candidates| < cap
    ensures fi < |candidates| == FirstKid(ix.ways, fi)
    ensures Slot(ix, candidates[fi].setIdx, candidates[fi].way) < |g.full|
    ensures g.full[Slot(ix, candidates[fi].setIdx, candidates[fi].way)]
  {
    FirstKidMono(ix.ways, 0, fi);
    assert ListedAt(ix, g, candidates[fi], fi);
  }

  lemma ChainStep(ix: H3, g: Graph, candidates: seq<WalkInfo>, k: nat)
    requires ix.ways >= 2 && g.Valid() && g.Ways() == ix.ways && Listed(ix, g, candidates) && k < |candidates|
    ensures var c := candidates[k];
            ChainFrom(g, k) == [Slot(ix, c.setIdx, c.way)] + ChainFrom(g, c.parentIdx)
    ensures candidates[k].parentIdx < k
  {
    assert ListedAt(ix, g, candidates[k], k);
  }

  lemma Reassociate(front: seq<nat>, s: nat, rest: seq<nat>)
    ensures front + ([s] + rest) == (front + [s]) + rest
  {
  }

  class ZCacheTagsNew {
    const indexing: ZCacheIndexingPolicy
    const rp: ZCacheRP
    const walkLevels: nat
    const numCandidates: nat
    var blks: seq<Block>
    var blkDataPtr: seq<nat>
    var blkAllocSize: seq<nat>
    /** [victim, ..., root], between findVictim and insertBlock */
    var pendingSwapChain: seq<nat>
    /** what the last fill of a slot's block wrote to the pool */
    ghost var filled: seq<seq<byte>>

    function Ix(): H3 { indexing.h3 }

    /** The relocation graph seen from an address. */
    ghost function G(addr: nat): Graph
      requires Shape(Ix(), blks)
      reads `blks
    {
      GraphOf(Ix(), blks, addr)
    }

    ghost function Metadata(): Meta
      reads `blkDataPtr, `blkAllocSize, `filled
    {
      Meta(blkDataPtr, blkAllocSize, filled)
    }

    ghost predicate Valid()
      reads `blks, `blkDataPtr, `blkAllocSize, `filled, rp
    {
      && Shape(Ix(), blks) && Placed(Ix(), blks) && KeysUnique(blks)
      && numCandidates >= Ix().ways
      && MetaOk(blks, Metadata())
      && rp.Valid() && rp.entryCount == |blks|
      && TouchedOk(blks, rp.touchedAt)
    }

    ghost function Map(): map<Key, seq<byte>>
      requires KeysUnique(blks)
      reads `blks
    {
      Contents(blks)
    }

    ghost function Owned(): set<Holding>
      requires Metadata().Sized(|blkDataPtr|)
      reads `blkDataPtr, `blkAllocSize, `filled
    {
      Holdings(Metadata())
    }

    /** Which key holds which pool region. */
    ghost function Held(): map<Key, Holding>
      requires KeysUnique(blks) && Metadata().Sized(|blks|)
      reads `blks, `blkDataPtr, `blkAllocSize, `filled
    {
      Holders(blks, Metadata())
    }

    constructor (indexing: ZCacheIndexingPolicy, rp: ZCacheRP, walkLevels: nat, numCandidates: nat)
      requires indexing.h3.Valid() && numCandidates >= indexing.h3.ways
      requires rp.Valid() && rp.entryCount == 0 && rp.accessCount == 0
      modifies rp
      ensures Valid() && this.indexing == indexing && this.rp == rp
      ensures this.walkLevels == walkLevels && this.numCandidates == numCandidates
      ensures Map() == map[] && Owned() == {} && pendingSwapChain == []
    {
      this.indexing, this.rp := indexing, rp;
      this.walkLevels, this.numCandidates := walkLevels, numCandidates;
      var n := indexing.h3.NumBlocks();
      blks := seq(n, _ => Block(false, 0, false, []));
      blkDataPtr := seq(n, _ => ALLOC_FAIL);
      blkAllocSize := seq(n, _ => 0);
      filled := seq(n, _ => []);
      pendingSwapChain := [];
      new;
      for i := 0 to n
        invariant rp.Valid() && rp.entryCount == i && rp.accessCount == 0
        invariant |blks| == n && forall s :: 0 <= s < n ==> !blks[s].valid
        invariant blkDataPtr == seq(n, _ => ALLOC_FAIL) && blkAllocSize == seq(n, _ => 0) && |filled| == n
        invariant pendingSwapChain == []
      {
        rp.InstantiateEntry();
      }
    }

    // -------------------------------------------------------------- lookup

    /** The slot holds the key, and its data is what the map says. */
    ghost predicate HitAt(key: Request, s: nat)
      requires Ix().Valid() && KeysUnique(blks)
      reads `blks
    {
      && s < |blks| && blks[s].valid && KeyOf(blks[s]) == KeyFor(Ix(), key)
      && KeyFor(Ix(), key) in Map() && Map()[KeyFor(Ix(), key)] == blks[s].data
    }

    /** Finds the block exactly when the key is stored anywhere in the array. */
    method FindBlock(key: Request) returns (slot: Option<nat>)
      requires Valid()
      ensures slot.None? <==> KeyFor(Ix(), key) !in Map()
      ensures slot.Some? ==> HitAt(key, slot.value)
    {
      var tag := ExtractTag(Ix(), key.address);
      for w := 0 to Ix().ways
        invariant forall v :: 0 <= v < w ==>
                                var s := HomeSlot(Ix(), key.address, v);
                                s < |blks| && !(blks[s].valid && KeyOf(blks[s]) == KeyFor(Ix(), key))
      {
        var setIdx := indexing.ExtractSetOf(key.address, w);
        var s := Slot(Ix(), setIdx, w);
        HomeSlotParts(Ix(), key.address, w);
        if blks[s].valid && blks[s].tag == tag && blks[s].secure == key.secure {
          ContentsAt(blks, s);
          return Some(s);
        }
      }
      forall s: nat | s < |blks| && blks[s].valid ensures KeyOf(blks[s]) != KeyFor(Ix(), key) {
        if KeyOf(blks[s]) == KeyFor(Ix(), key) { ProbeFinds(Ix(), blks, key, s); }
      }
      if KeyFor(Ix(), key) in Map() {
        var s := ContentsSlot(blks, KeyFor(Ix(), key));
      }
      return None;
    }

    /** A lookup that touches the block it hits. */
    method AccessBlock(key: Request) returns (slot: Option<nat>)
      requires Valid()
      modifies rp
      ensures Valid()
      ensures slot.None? <==> KeyFor(Ix(), key) !in Map()
      ensures slot.Some? ==> HitAt(key, slot.value)
      ensures slot.Some? ==> Stamped(old(rp.touchedAt), rp.touchedAt, slot.value, rp.accessCount)
      ensures slot.Some? ==> rp.accessCount == old(rp.accessCount) + 1
      ensures slot.None? ==> unchanged(rp)
    {
      slot := FindBlock(key);
      if slot.Some? { rp.Touch(slot.value); }
    }

    // -------------------------------------------------------------- the walk

    /** Lists the other slots of candidate fi's block, up to the cap. */
    method Expand(addr: nat, candidates: seq<WalkInfo>, fi: nat, allValid: bool)
      returns (longer: seq<WalkInfo>, stillValid: bool)
      requires Shape(Ix(), blks) && Frontier(Ix(), G(addr), candidates, allValid, numCandidates, fi)
      requires fi < |candidates| < numCandidates
      ensures Frontier(Ix(), G(addr), longer, stillValid, numCandidates, fi + 1)
    {
      longer, stillValid := candidates, allValid;
      var fc := candidates[fi];
      assert ListedAt(Ix(), G(addr), fc, fi);
      var fb := Slot(Ix(), fc.setIdx, fc.way);
      var alts := indexing.GetAlternativeLocations(fc.way, blks[fb].tag);
      for j := 0 to |alts|
        invariant Walking(Ix(), G(addr), longer, stillValid)
        invariant |longer| == Min(numCandidates, |candidates| + j)
      {
        if |longer| < numCandidates {
          var info := WalkInfo(alts[j].0, alts[j].1, fi);
          ListKid(Ix(), blks, addr, fi, j, alts[j], |longer|);
          var altBlk := Slot(Ix(), info.setIdx, info.way);
          if altBlk != fb {
            WalkingPush(Ix(), G(addr), longer, stillValid, info);
            longer := longer + [info];
            if !blks[altBlk].valid { stillValid := false; }
          }
        }
      }
    }

    /** One level of the walk: every candidate between fringeStart and fringeEnd is expanded. */
    method Level(addr: nat, candidates: seq<WalkInfo>, fringeStart: nat, fringeEnd: nat, ghost level: nat)
      returns (longer: seq<WalkInfo>, stillValid: bool)
      requires Shape(Ix(), blks) && level >= 1 && Walking(Ix(), G(addr), candidates, true)
      requires fringeStart == LevelEnd(Ix().ways, level - 1) && fringeEnd == |candidates| == LevelEnd(Ix().ways, level)
      requires |candidates| < numCandidates
      ensures Walking(Ix(), G(addr), longer, stillValid)
      ensures |longer| == Min(numCandidates, LevelEnd(Ix().ways, level + 1))
    {
      ghost var g := G(addr);
      longer, stillValid := candidates, true;
      var fi := fringeStart;
      LevelGrows(Ix().ways, level - 1);
      while fi < fringeEnd && |longer| < numCandidates
        invariant fringeStart <= fi <= fringeEnd
        invariant Frontier(Ix(), g, longer, stillValid, numCandidates, fi)
      {
        FringeFull(Ix(), g, longer, stillValid, numCandidates, fi, fringeEnd);
        if !blks[Slot(Ix(), longer[fi].setIdx, longer[fi].way)].valid { break; }
        longer, stillValid := Expand(addr, longer, fi, stillValid);
        fi := fi + 1;
      }
      LevelStop(Ix().ways, numCandidates, level, fi);
    }

    /** The level-1 candidates. */
    method Seed(addr: nat) returns (candidates: seq<WalkInfo>, allValid: bool)
      requires Shape(Ix(), blks)
      ensures Walking(Ix(), G(addr), candidates, allValid) && |candidates| == Ix().ways
    {
      candidates, allValid := [], true;
      for w := 0 to Ix().ways
        invariant |candidates| == w && Walking(Ix(), G(addr), candidates, allValid)
      {
        var setIdx := indexing.ExtractSetOf(addr, w);
        ListRoot(Ix(), blks, addr, w);
        WalkingPush(Ix(), G(addr), candidates, allValid, WalkInfo(setIdx, w, -1));
        candidates := candidates + [WalkInfo(setIdx, w, -1)];
        if !blks[Slot(Ix(), setIdx, w)].valid { allValid := false; }
      }
    }

    /** The breadth-first walk: the list is the first Walked(addr) candidates. */
    method Walk(addr: nat) returns (candidates: seq<WalkInfo>)
      requires Shape(Ix(), blks) && numCandidates >= Ix().ways
      ensures Listed(Ix(), G(addr), candidates) && |candidates| == Walked(addr) <= numCandidates
    {
      ghost var g := G(addr);
      var allValid;
      candidates, allValid := Seed(addr);
      var fringeStart, fringeEnd, level := 0, Ix().ways, 1;
      assert LevelEnd(Ix().ways, 1) == Ix().ways;
      while |candidates| < numCandidates && allValid && level < walkLevels
        invariant level >= 1 && fringeEnd == |candidates| == Min(numCandidates, LevelEnd(Ix().ways, level))
        invariant fringeStart == LevelEnd(Ix().ways, level - 1)
        invariant Walking(Ix(), g, candidates, allValid)
        invariant Walked(addr) == WalkLength(g, numCandidates, walkLevels, level)
        decreases walkLevels - level
      {
        candidates, allValid := Level(addr, candidates, fringeStart, fringeEnd, level);
        fringeStart := fringeEnd;
        fringeEnd := |candidates|;
        LevelGrows(Ix().ways, level);
        level := level + 1;
        if fringeStart == fringeEnd { break; }
      }
    }

    // -------------------------------------------------------------- the victim

    /** The number of candidates the walk lists. */
    ghost function Walked(addr: nat): nat
      requires Shape(Ix(), blks)
      reads `blks
    {
      Candidates(G(addr), numCandidates, walkLevels)
    }

    /** Candidate k is the victim. */
    ghost predicate VictimFor(addr: nat, k: nat)
      requires Shape(Ix(), blks) && |rp.lastTouch| == |blks|
      reads `blks, rp
    {
      IsVictim(G(addr), rp.lastTouch, Walked(addr), k)
    }

    /** If every candidate is valid, candidate k was last touched fewer than K touches after any. */
    ghost predicate NearlyOldest(addr: nat, k: nat)
      requires Shape(Ix(), blks) && rp.Valid() && rp.entryCount == |blks|
      reads `blks, rp
    {
      AllValid(G(addr), Walked(addr)) ==>
        forall i: nat :: i < Walked(addr) ==>
          rp.touchedAt[SlotAt(G(addr), k)] < rp.touchedAt[SlotAt(G(addr), i)] + rp.K()
    }

    /** An empty candidate if there is one, otherwise what the replacement policy picks; in both cases
        the first candidate with that slot. */
    method ChooseVictim(addr: nat, candidates: seq<WalkInfo>) returns (victimIdx: nat)
      requires Valid() && Listed(Ix(), G(addr), candidates) && 0 < |candidates| == Walked(addr)
      ensures VictimFor(addr, victimIdx) && NearlyOldest(addr, victimIdx)
    {
      for i := 0 to |candidates|
        invariant AllValid(G(addr), i)
      {
        assert ListedAt(Ix(), G(addr), candidates[i], i);
        if !blks[Slot(Ix(), candidates[i].setIdx, candidates[i].way)].valid { return i; }
      }
      var rpCands := SlotsOf(addr, candidates);
      victimIdx := OldestOf(addr, rpCands);
    }

    method SlotsOf(addr: nat, candidates: seq<WalkInfo>) returns (slots: seq<nat>)
      requires Shape(Ix(), blks) && Listed(Ix(), G(addr), candidates)
      ensures |slots| == |candidates| && SlotsInOrder(G(addr), slots)
    {
      ghost var g := G(addr);
      slots := [];
      for i := 0 to |candidates|
        invariant |slots| == i && SlotsInOrder(g, slots)
      {
        assert ListedAt(Ix(), g, candidates[i], i);
        slots := slots + [Slot(Ix(), candidates[i].setIdx, candidates[i].way)];
      }
    }

    /** The replacement policy's choice among valid candidates, as the first index of its slot. */
    method OldestOf(addr: nat, slots: seq<nat>) returns (victimIdx: nat)
      requires Valid() && 0 < |slots| == Walked(addr) && AllValid(G(addr), |slots|)
      requires SlotsInOrder(G(addr), slots)
      ensures VictimFor(addr, victimIdx) && NearlyOldest(addr, victimIdx)
    {
      var victim, at := rp.GetVictim(slots);
      victimIdx := 0;
      while slots[victimIdx] != victim
        invariant victimIdx <= at
        decreases at - victimIdx
      {
        victimIdx := victimIdx + 1;
      }
      PickedIsVictim(G(addr), rp.lastTouch, slots, victimIdx);
      forall i: nat | i < |slots|
        ensures rp.touchedAt[SlotAt(G(addr), victimIdx)] < rp.touchedAt[SlotAt(G(addr), i)] + rp.K()
      {
        assert slots[i] == SlotAt(G(addr), i);
      }
    }

    /** Follows parent links from the victim to its root. */
    method BuildChain(addr: nat, candidates: seq<WalkInfo>, victimIdx: nat)
      requires Valid() && Listed(Ix(), G(addr), candidates) && victimIdx < |candidates|
      modifies this`pendingSwapChain
      ensures pendingSwapChain == ChainOf(G(addr), victimIdx)
    {
      pendingSwapChain := [];
      var idx: int := victimIdx;
      while idx >= 0
        invariant idx < |candidates|
        invariant pendingSwapChain + ChainFrom(G(addr), idx) == ChainOf(G(addr), victimIdx)
      {
        ChainStep(Ix(), G(addr), candidates, idx);
        var s := Slot(Ix(), candidates[idx].setIdx, candidates[idx].way);
        Reassociate(pendingSwapChain, s, ChainFrom(G(addr), candidates[idx].parentIdx));
        pendingSwapChain := pendingSwapChain + [s];
        idx := candidates[idx].parentIdx;
      }
      assert pendingSwapChain + [] == pendingSwapChain;
    }

    /** Picks a victim for the key and records the relocation chain. The second result lists the slot
        to be invalidated before the insertion, if any. */
    method FindVictim(key: Request) returns (root: nat, evictBlks: seq<nat>, ghost k: nat)
      requires Valid()
      modifies this`pendingSwapChain
      ensures Valid()
      ensures VictimFor(key.address, k) && NearlyOldest(key.address, k)
      ensures pendingSwapChain == ChainOf(G(key.address), k)
      ensures Ready(Ix(), blks, key.address, pendingSwapChain)
      ensures root == pendingSwapChain[|pendingSwapChain| - 1]
      ensures evictBlks == if blks[pendingSwapChain[0]].valid then [pendingSwapChain[0]] else []
    {
      pendingSwapChain := [];
      var w := FirstEmptyRoot(key.address);
      if w < Ix().ways {
        k := w;
        TakeEmptyRoot(key.address, w);
      } else {
        k := WalkForVictim(key.address);
      }
      VictimFirst(G(key.address), rp.lastTouch, Walked(key.address), k);
      ChainReady(Ix(), blks, key.address, k);
      evictBlks := if blks[pendingSwapChain[0]].valid then [pendingSwapChain[0]] else [];
      root := pendingSwapChain[|pendingSwapChain| - 1];
    }

    method TakeEmptyRoot(addr: nat, w: nat)
      requires Valid() && w < Ix().ways && AllValid(G(addr), w) && !blks[SlotAt(G(addr), w)].valid
      requires pendingSwapChain == []
      modifies this`pendingSwapChain
      ensures VictimFor(addr, w) && NearlyOldest(addr, w) && pendingSwapChain == ChainOf(G(addr), w)
    {
      var setIdx := indexing.ExtractSetOf(addr, w);
      pendingSwapChain := pendingSwapChain + [Slot(Ix(), setIdx, w)];
      EmptyRoot(G(addr), rp.lastTouch, numCandidates, walkLevels, w);
    }

    method WalkForVictim(addr: nat) returns (victimIdx: nat)
      requires Valid()
      modifies this`pendingSwapChain
      ensures VictimFor(addr, victimIdx) && NearlyOldest(addr, victimIdx)
      ensures pendingSwapChain == ChainOf(G(addr), victimIdx)
    {
      var candidates := Walk(addr);
      AtLeastWays(addr);
      var numCands := Min(|candidates|, numCandidates);
      assert candidates[..numCands] == candidates;
      victimIdx := ChooseVictim(addr, candidates[..numCands]);
      BuildChain(addr, candidates, victimIdx);
    }

    lemma AtLeastWays(addr: nat)
      requires Valid()
      ensures Walked(addr) >= Ix().ways
    {
      WalkLengthLower(G(addr), numCandidates, walkLevels, 1);
    }

    /** The fast path: the first way whose level-1 slot is empty, or the number of ways. */
    method FirstEmptyRoot(addr: nat) returns (w: nat)
      requires Valid()
      ensures w <= Ix().ways && AllValid(G(addr), w)
      ensures w < Ix().ways ==> !blks[SlotAt(G(addr), w)].valid
    {
      w := 0;
      while w < Ix().ways
        invariant w <= Ix().ways && AllValid(G(addr), w)
      {
        var setIdx := indexing.ExtractSetOf(addr, w);
        assert Slot(Ix(), setIdx, w) == SlotAt(G(addr), w);
        if !blks[Slot(Ix(), setIdx, w)].valid { return; }
        w := w + 1;
      }
    }

    // -------------------------------------------------------------- insertion

    /** Moves a block, with its pool region, to one of its other slots. */
    method DoMoveBlock(src: nat, dst: nat)
      requires Valid() && src < |blks| && dst < |blks|
      requires blks[src].valid && !blks[dst].valid && Home(Ix(), blks[src].tag, dst)
      modifies `blks, `blkDataPtr, `blkAllocSize, `filled, rp
      ensures Valid() && blks == Moved(old(blks), src, dst)
      ensures Metadata() == MetaMove(old(Metadata()), src, dst)
      ensures Map() == old(Map()) && Owned() == old(Owned()) && Held() == old(Held())
      ensures rp.touchedAt == old(rp.touchedAt)[src := 0][dst := rp.accessCount]
      ensures rp.accessCount == old(rp.accessCount) + 1
    {
      MoveBlock(Ix(), blks, src, dst);
      MoveMeta(blks, Metadata(), src, dst);
      MoveHolder(blks, Metadata(), src, dst);
      MoveMetadata(src, dst);
      blks := blks[dst := blks[src]];
      blks := blks[src := blks[src].(valid := false)];
      rp.Invalidate(src);
      rp.Reset(dst);
    }

    method MoveMetadata(src: nat, dst: nat)
      requires Metadata().Sized(|blks|) && src < |blks| && dst < |blks|
      modifies `blkDataPtr, `blkAllocSize, `filled
      ensures Metadata() == MetaMove(old(Metadata()), src, dst)
    {
      blkDataPtr := blkDataPtr[dst := blkDataPtr[src]];
      blkAllocSize := blkAllocSize[dst := blkAllocSize[src]];
      filled := filled[dst := filled[src]];
      blkDataPtr := blkDataPtr[src := ALLOC_FAIL];
      blkAllocSize := blkAllocSize[src := 0];
      filled := filled[src := []];
    }

    /** Executes the chain and clears it: every block still on it moves one slot towards the victim, and
        the root ends empty. */
    method ShiftChain(ghost addr: nat)
      requires Valid() && Ready(Ix(), blks, addr, pendingSwapChain) && !blks[pendingSwapChain[0]].valid
      modifies this, rp
      ensures Valid() && Map() == old(Map()) && Owned() == old(Owned()) && Held() == old(Held())
      ensures Shifted(old(blks), blks, old(pendingSwapChain), |old(pendingSwapChain)|) && pendingSwapChain == []
      ensures SameTouches(old(rp.touchedAt), rp.touchedAt, old(pendingSwapChain))
      ensures rp.accessCount == old(rp.accessCount + Moves(blks, pendingSwapChain, |pendingSwapChain|))
    {
      var chain := pendingSwapChain;
      ghost var was, touched, n := blks, rp.touchedAt, rp.accessCount;
      for i := 1 to |chain|
        invariant Valid() && Map() == old(Map()) && Owned() == old(Owned()) && Held() == old(Held())
        invariant Shifted(was, blks, chain, i) && SameTouches(touched, rp.touchedAt, chain)
        invariant rp.accessCount == n + Moves(was, chain, i)
      {
        ShiftOne(chain, i, addr, was, touched);
      }
      pendingSwapChain := [];
    }

    /** One step of the chain: the block at position i moves, if it is still there. */
    method ShiftOne(chain: seq<nat>, i: nat, ghost addr: nat, ghost was: seq<Block>, ghost touched: seq<nat>)
      requires Valid() && 1 <= i < |chain| && Ready(Ix(), was, addr, chain) && Shifted(was, blks, chain, i)
      requires SameTouches(touched, rp.touchedAt, chain)
      modifies `blks, `blkDataPtr, `blkAllocSize, `filled, rp
      ensures Valid() && Map() == old(Map()) && Owned() == old(Owned()) && Held() == old(Held())
      ensures Shifted(was, blks, chain, i + 1) && SameTouches(touched, rp.touchedAt, chain)
      ensures rp.accessCount == old(rp.accessCount) + if was[chain[i]].valid then 1 else 0
    {
      var moveSrc, moveDst := chain[i], chain[i - 1];
      ShiftStep(Ix(), was, blks, addr, chain, i);
      if blks[moveSrc].valid {
        MoveTouches(touched, rp.touchedAt, chain, i, rp.accessCount + 1);
        DoMoveBlock(moveSrc, moveDst);
      }
    }

    /** The pending chain is the one built for blk. */
    predicate Pending(blk: nat)
      reads `pendingSwapChain
    {
      |pendingSwapChain| > 0 && pendingSwapChain[|pendingSwapChain| - 1] == blk
    }

    /** The chain that an insertion at blk executes. */
    ghost function ChainFor(blk: nat): (chain: seq<nat>)
      reads `pendingSwapChain
      ensures |chain| >= 1 && chain[|chain| - 1] == blk
    {
      if Pending(blk) then pendingSwapChain else [blk]
    }

    /** The key is not stored and hashes to blk; if the pending chain ends at blk it may be executed and
        its victim has been invalidated, otherwise blk itself is empty. */
    ghost predicate ReadyFor(key: Request, blk: nat)
      requires Shape(Ix(), blks) && KeysUnique(blks)
      reads `blks, `pendingSwapChain
    {
      && KeyFor(Ix(), key) !in Map() && Root(Ix(), key.address, blk)
      && if Pending(blk) then
           Ready(Ix(), blks, key.address, pendingSwapChain) && !blks[pendingSwapChain[0]].valid
         else
           blk < |blks| && !blks[blk].valid
    }

    /** Runs the pending chain, if it is the one for blk, and puts the new block there. */
    method InsertBlock(key: Request, data: seq<byte>, blk: nat)
      requires Valid() && ReadyFor(key, blk)
      modifies this, rp
      ensures Valid() && pendingSwapChain == if old(Pending(blk)) then [] else old(pendingSwapChain)
      ensures Map() == old(Map())[KeyFor(Ix(), key) := data] && Owned() == old(Owned()) && Held() == old(Held())
      ensures |blks| == old(|blks|) && blks[blk] == Block(true, ExtractTag(Ix(), key.address), key.secure, data)
      ensures !Metadata().Owns(blk) && rp.touchedAt[blk] == rp.accessCount
      ensures SameTouches(old(rp.touchedAt), rp.touchedAt, old(ChainFor(blk)))
      ensures rp.accessCount == old(rp.accessCount + Moves(blks, ChainFor(blk), |ChainFor(blk)|)) + 1
      ensures Relocated(old(blks), blks, old(ChainFor(blk)))
    {
      ghost var was, chain := blks, ChainFor(blk);
      RunChain(key, blk);
      PlacedRelocated(was, blks, chain, Block(true, ExtractTag(Ix(), key.address), key.secure, data));
      PlaceNew(key, data, blk);
    }

    /** Runs the pending chain, if it is the one for blk; either way blk ends empty. */
    method RunChain(key: Request, blk: nat)
      requires Valid() && ReadyFor(key, blk)
      modifies this, rp
      ensures Valid() && pendingSwapChain == if old(Pending(blk)) then [] else old(pendingSwapChain)
      ensures Map() == old(Map()) && Owned() == old(Owned()) && Held() == old(Held())
      ensures blk < |blks| && !blks[blk].valid && ChainRun(old(blks), blks, old(ChainFor(blk)))
      ensures SameTouches(old(rp.touchedAt), rp.touchedAt, old(ChainFor(blk)))
      ensures rp.accessCount == old(rp.accessCount + Moves(blks, ChainFor(blk), |ChainFor(blk)|))
    {
      if Pending(blk) {
        ShiftChain(key.address);
      }
    }

    /** Puts a new block in an empty slot that its key hashes to. */
    method PlaceNew(key: Request, data: seq<byte>, blk: nat)
      requires Valid() && KeyFor(Ix(), key) !in Map() && Root(Ix(), key.address, blk)
      requires blk < |blks| && !blks[blk].valid
      modifies `blks, rp
      ensures Valid()
      ensures blks == old(blks)[blk := Block(true, ExtractTag(Ix(), key.address), key.secure, data)]
      ensures Map() == old(Map())[KeyFor(Ix(), key) := data] && Held() == old(Held())
      ensures !Metadata().Owns(blk) && Stamped(old(rp.touchedAt), rp.touchedAt, blk, rp.accessCount)
      ensures rp.accessCount == old(rp.accessCount) + 1
    {
      RootIsHome(Ix(), key, blk);
      var b := Block(true, ExtractTag(Ix(), key.address), key.secure, data);
      PlaceBlock(Ix(), blks, blk, b);
      PlaceMeta(blks, Metadata(), blk, b);
      PlaceHolder(blks, Metadata(), blk, b);
      blks := blks[blk := b];
      rp.Reset(blk);
    }

    // -------------------------------------------------------------- invalidation and metadata

    /** Clears the slot and its metadata; the pool is the caller's business. */
    method Invalidate(s: nat)
      requires Valid() && s < |blks|
      modifies `blks, `blkDataPtr, `blkAllocSize, `filled, rp
      ensures Valid() && blks == Dropped(old(blks), s)
      ensures Metadata() == MetaClear(old(Metadata()), s)
      ensures Map() == Without(old(Map()), old(blks)[s]) && Held() == Without(old(Held()), old(blks)[s])
      ensures Owned() == if old(Metadata().Owns(s)) then old(Owned()) - {old(Metadata().At(s))} else old(Owned())
      ensures rp.touchedAt == old(rp.touchedAt)[s := 0]
    {
      DropBlock(Ix(), blks, s);
      ClearMeta(blks, Metadata(), s);
      DropHolder(blks, Metadata(), s);
      assert TouchedOk(Dropped(blks, s), rp.touchedAt[s := 0]);
      ClearMetadata(s);
      blks := blks[s := blks[s].(valid := false)];
      rp.Invalidate(s);
    }

    method ClearMetadata(s: nat)
      requires Metadata().Sized(|blks|) && s < |blks|
      modifies `blkDataPtr, `blkAllocSize, `filled
      ensures Metadata() == MetaClear(old(Metadata()), s)
    {
      blkDataPtr := blkDataPtr[s := ALLOC_FAIL];
      blkAllocSize := blkAllocSize[s := 0];
      filled := filled[s := []];
    }

    /** The reservoir's invalidation: an invalid slot is left as it is. */
    method ForceInvalidate(s: nat)
      requires Valid() && s < |blks|
      modifies `blks, `blkDataPtr, `blkAllocSize, `filled, rp
      ensures Valid() && |blks| == old(|blks|)
      ensures !old(blks)[s].valid ==> unchanged(rp, `blks, `blkDataPtr, `blkAllocSize, `filled)
      ensures old(blks)[s].valid ==> blks == Dropped(old(blks), s) && Metadata() == MetaClear(old(Metadata()), s)
      ensures Map() == Without(old(Map()), old(blks)[s])
      ensures Owned() == if old(Metadata().Owns(s)) then old(Owned()) - {old(Metadata().At(s))} else old(Owned())
    {
      if blks[s].valid {
        Invalidate(s);
      }
    }

    /** Records a fresh pool region for a block that has none. */
    method SetBlockDataPtr(s: nat, ptr: nat, size: nat, ghost bytes: seq<byte>)
      requires Valid() && s < |blks| && blks[s].valid && !Metadata().Owns(s)
      requires ptr != ALLOC_FAIL && size > 0 && forall h :: h in Owned() ==> h.ptr != ptr
      modifies `blkDataPtr, `blkAllocSize, `filled
      ensures Valid() && Metadata() == MetaSet(old(Metadata()), s, Holding(ptr, size, bytes))
      ensures Owned() == old(Owned()) + {Holding(ptr, size, bytes)}
      ensures Held() == old(Held())[KeyOf(blks[s]) := Holding(ptr, size, bytes)]
    {
      GrantMeta(blks, Metadata(), s, Holding(ptr, size, bytes));
      GrantHolder(blks, Metadata(), s, Holding(ptr, size, bytes));
      blkDataPtr := blkDataPtr[s := ptr];
      blkAllocSize := blkAllocSize[s := size];
      filled := filled[s := bytes];
    }

    /** A write that hits: the cache changes the data of a stored block. */
    method WriteHit(s: nat, data: seq<byte>)
      requires Valid() && s < |blks| && blks[s].valid
      modifies `blks
      ensures Valid() && Map() == old(Map())[KeyOf(old(blks)[s]) := data]
      ensures blks == old(blks)[s := old(blks)[s].(data := data)] && Held() == old(Held())
    {
      UpdateBlock(Ix(), blks, s, data);
      UpdateHolder(blks, Metadata(), s, data);
      blks := blks[s := blks[s].(data := data)];
    }
  }
}
