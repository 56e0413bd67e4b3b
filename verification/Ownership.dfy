/** The agreement between tag metadata and the data pool. */
module Ownership {
  import opened Bits
  import opened BuddyRuns
  import opened DecoupledDataStores
  import opened TagState

  function RegionOf(h: Holding): Region {
    Region(h.ptr, if ValidSize(h.size) then SizeToOrder(h.size) else 0)
  }

  ghost function Regions(hs: set<Holding>): set<Region> {
    set h | h in hs :: RegionOf(h)
  }

  /** The allocator's live regions are exactly the regions that the tags own. */
  ghost predicate Agrees(hs: set<Holding>, live: set<Region>) {
    && (forall h :: h in hs ==> ValidSize(h.size))
    && live == Regions(hs)
  }

  ghost predicate Injective(hs: set<Holding>) {
    forall h, g :: h in hs && g in hs && h.ptr == g.ptr ==> h == g
  }

  /** Every owned region holds the bytes that its fill wrote. */
  ghost predicate PoolHolds(pool: seq<byte>, hs: set<Holding>) {
    forall h :: h in hs ==> InPool(pool, h)
  }

  ghost predicate InPool(pool: seq<byte>, h: Holding) {
    h.ptr * SEGMENT_SIZE + h.size <= |pool| && pool[h.ptr * SEGMENT_SIZE..h.ptr * SEGMENT_SIZE + h.size] == h.bytes
  }

  ghost predicate SameOutside(a: seq<byte>, b: seq<byte>, lo: nat, hi: nat) {
    |a| == |b| && forall i :: 0 <= i < |a| && !(lo <= i < hi) ==> a[i] == b[i]
  }

  lemma OwnersDiffer(blks: seq<Block>, m: Meta)
    requires MetaOk(blks, m)
    ensures Injective(Holdings(m))
  {
    forall h, g | h in Holdings(m) && g in Holdings(m) && h.ptr == g.ptr ensures h == g {
      var s := HoldingSlot(m, h);
      var t := HoldingSlot(m, g);
      OneOwner(blks, m, s, t);
    }
  }

  lemma OneOwner(blks: seq<Block>, m: Meta, s: nat, t: nat)
    requires MetaOk(blks, m) && m.Owns(s) && m.Owns(t) && m.ptrs[s] == m.ptrs[t]
    ensures s == t
  {
  }

  lemma HeldIsLive(hs: set<Holding>, live: set<Region>, h: Holding)
    requires Agrees(hs, live) && h in hs
    ensures ValidSize(h.size) && Region(h.ptr, SizeToOrder(h.size)) in live
  {
    assert RegionOf(h) in Regions(hs);
  }

  lemma RemoveAgrees(hs: set<Holding>, live: set<Region>, h: Holding)
    requires Agrees(hs, live) && Injective(hs) && h in hs
    ensures Agrees(hs - {h}, live - {RegionOf(h)})
  {
    forall r ensures r in Regions(hs - {h}) <==> r in Regions(hs) && r != RegionOf(h) {
      if r in Regions(hs) && r != RegionOf(h) {
        var g :| g in hs && RegionOf(g) == r;
        assert g in hs - {h};
      }
      if r in Regions(hs - {h}) {
        var g :| g in hs - {h} && RegionOf(g) == r;
        assert g in hs;
      }
    }
  }

  lemma AddAgrees(hs: set<Holding>, live: set<Region>, h: Holding)
    requires Agrees(hs, live) && ValidSize(h.size)
    ensures Agrees(hs + {h}, live + {RegionOf(h)})
  {
    forall r ensures r in Regions(hs + {h}) <==> r in Regions(hs) || r == RegionOf(h) {
      if r in Regions(hs) {
        var g :| g in hs && RegionOf(g) == r;
        assert g in hs + {h};
      }
      if r == RegionOf(h) { assert h in hs + {h}; }
    }
  }

  /** A region that was free before it was allocated shares no byte with any owned region. */
  lemma FreshDisjoint(hs: set<Holding>, live: set<Region>, n: nat, ptr: nat, size: nat, h: Holding)
    requires Agrees(hs, live) && ValidSize(size) && h in hs
    requires FreeRun(Used(live), n, ptr, SizeToOrder(size))
    ensures h.ptr != ptr
    ensures h.ptr * SEGMENT_SIZE + h.size <= ptr * SEGMENT_SIZE || ptr * SEGMENT_SIZE + size <= h.ptr * SEGMENT_SIZE
  {
    HeldIsLive(hs, live, h);
    UsedDisjoint(live, ptr, SizeToOrder(size), RegionOf(h));
  }

  /** Writing the bytes of a fresh region leaves every owned region as it was, and makes the fresh
      one hold its bytes. */
  lemma WriteHolds(pool: seq<byte>, pool': seq<byte>, hs: set<Holding>, live: set<Region>, n: nat, granted: Holding)
    requires Agrees(hs, live) && ValidSize(granted.size) && PoolHolds(pool, hs) && InPool(pool', granted)
    requires FreeRun(Used(live), n, granted.ptr, SizeToOrder(granted.size))
    requires SameOutside(pool, pool', granted.ptr * SEGMENT_SIZE, granted.ptr * SEGMENT_SIZE + granted.size)
    ensures PoolHolds(pool', hs + {granted})
  {
    forall h | h in hs ensures InPool(pool', h) {
      FreshDisjoint(hs, live, n, granted.ptr, granted.size, h);
      assert InPool(pool, h);
    }
  }

  /** Releasing a region of at least the requested size leaves a run for the request. */
  lemma ReleaseHelps(live: set<Region>, n: nat, r: Region, order: nat)
    requires LiveOk(live, n) && r in live && order <= r.order
    ensures HasRun(Used(live - {r}), n, order)
  {
    UsedRemove(live, n, r);
    SubRun(Used(live - {r}), n, r.ptr, r.order, order);
  }

  lemma SizeOrder(a: nat, b: nat)
    requires ValidSize(a) && ValidSize(b)
    ensures a <= b <==> SizeToOrder(a) <= SizeToOrder(b)
  {
  }

  /** After an allocation: if it failed nothing changed hands; otherwise the fresh region is the only
      live one that no tag owns yet. */
  ghost predicate AllocatedFor(hs: set<Holding>, live: set<Region>, n: nat, ptr: nat, size: nat)
    requires ValidSize(size)
  {
    if ptr == ALLOC_FAIL then Agrees(hs, live)
    else
      var r := Region(ptr, SizeToOrder(size));
      r in live && Agrees(hs, live - {r}) && FreeRun(Used(live - {r}), n, ptr, r.order)
  }

  /** Handing the fresh region to a block restores the agreement. */
  lemma GrantAgrees(hs: set<Holding>, live: set<Region>, n: nat, h: Holding)
    requires ValidSize(h.size) && h.ptr != ALLOC_FAIL && AllocatedFor(hs, live, n, h.ptr, h.size)
    ensures Agrees(hs + {h}, live)
    ensures forall g :: g in hs ==> g.ptr != h.ptr
  {
    var r := RegionOf(h);
    AddAgrees(hs, live - {r}, h);
    assert live - {r} + {r} == live;
    forall g | g in hs ensures g.ptr != h.ptr {
      FreshDisjoint(hs, live - {r}, n, h.ptr, h.size, g);
    }
  }

  /** The regions of a map of holders. */
  ghost function HeldRegions(held: map<Key, Holding>): set<Region> {
    set k | k in held :: RegionOf(held[k])
  }

  /** The allocator's live regions are those that the keys hold. */
  lemma LiveIsHeld(blks: seq<Block>, m: Meta, live: set<Region>)
    requires KeysUnique(blks) && MetaOk(blks, m) && Agrees(Holdings(m), live)
    ensures live == HeldRegions(Holders(blks, m))
  {
    forall r ensures r in live <==> r in HeldRegions(Holders(blks, m)) {
      if r in live {
        var h :| h in Holdings(m) && RegionOf(h) == r;
        var s := HoldingSlot(m, h);
        HolderAt(blks, m, s);
      }
      if r in HeldRegions(Holders(blks, m)) {
        var k :| k in Holders(blks, m) && RegionOf(Holders(blks, m)[k]) == r;
        var s := HolderSlot(blks, m, k);
        HolderAt(blks, m, s);
        HoldingAt(m, s);
      }
    }
  }
}
