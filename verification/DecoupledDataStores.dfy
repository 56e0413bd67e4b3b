/** The physical data pool: 8-byte segments handed out by a buddy allocator over four free lists. */
module DecoupledDataStores {
  import opened Bits
  import opened BuddyRuns

  const ALLOC_FAIL: nat := 0xFFFF_FFFF

  predicate ValidSize(s: nat) {
    s == 8 || s == 16 || s == 32 || s == 64
  }

  function SizeToOrder(s: nat): (order: nat)
    requires ValidSize(s)
    ensures order <= MAX_ORDER && SEGMENT_SIZE * Pow2(order) == s
  {
    assert Pow2(1) == 2 && Pow2(2) == 4 && Pow2(3) == 8;
    if s == 8 then 0 else if s == 16 then 1 else if s == 32 then 2 else 3
  }

  /** Some aligned run of the order is wholly free. */
  ghost predicate HasRun(used: set<nat>, n: nat, order: nat) {
    exists q: nat :: FreeRun(used, n, q, order)
  }

  /** p starts a maximal free run of the least order that suffices. */
  ghost predicate BestFit(used: set<nat>, n: nat, p: nat, order: nat) {
    exists k: nat :: order <= k <= MAX_ORDER && Maximal(used, n, p, k) &&
                     forall j: nat, q: nat :: order <= j < k ==> !Maximal(used, n, q, j)
  }

  /** p is the oldest block of the first list, from the order up, that is not empty. */
  ghost predicate TakesFront(lists: seq<seq<nat>>, p: nat, order: nat) {
    exists k: nat :: order <= k < |lists| && lists[k] != [] && p == lists[k][0] &&
                     forall j :: order <= j < k ==> lists[j] == []
  }

  class DecoupledDataStore {
    const poolBytes: nat
    const pool: array<byte>
    var freeLists: seq<seq<nat>>
    ghost var live: set<Region>

    ghost function NumSegments(): nat {
      poolBytes / 8
    }

    ghost predicate Valid()
      reads this
    {
      && 0 < poolBytes < 0x1_0000_0000 && poolBytes % 64 == 0 && pool.Length == poolBytes
      && LiveOk(live, NumSegments())
      && Canonical(freeLists, Used(live), NumSegments())
    }

    constructor (bytes: nat)
      requires 0 < bytes < 0x1_0000_0000 && bytes % 64 == 0
      ensures Valid() && fresh(pool) && poolBytes == bytes && live == {}
      ensures forall i :: 0 <= i < pool.Length ==> pool[i] == 0
    {
      poolBytes := bytes;
      pool := new byte[bytes](_ => 0);
      var blocks: seq<nat> := [];
      for i := 0 to bytes / 64
        invariant |blocks| == i && forall j :: 0 <= j < i ==> blocks[j] == 8 * j
      {
        blocks := blocks + [i * 8];
      }
      freeLists := [[], [], [], blocks];
      live := {};
      AlignedMod(bytes / 8, 3);
      assert Pow2(3) == 8;
      FreshPool([[], [], [], blocks], bytes / 8);
      assert Used({}) == {};
    }

    method SplitOrder(order: nat)
      requires 0 < order <= MAX_ORDER && |freeLists| == 4 && |freeLists[order]| > 0
      modifies this`freeLists
      ensures freeLists == Split(old(freeLists), order)
    {
      var ptr := freeLists[order][0];
      freeLists := freeLists[order := freeLists[order][1..]];
      freeLists := freeLists[order - 1 := freeLists[order - 1] + [ptr]];
      freeLists := freeLists[order - 1 := freeLists[order - 1] + [ptr + Pow2(order - 1)]];
    }

    /** Fails exactly when no aligned run of the size is wholly free; otherwise hands out the start
        of a maximal run of the least sufficient order. */
    method Allocate(sizeBytes: nat) returns (ptr: nat)
      requires Valid() && ValidSize(sizeBytes)
      modifies this
      ensures Valid()
      ensures ptr == ALLOC_FAIL <==> !HasRun(old(Used(live)), NumSegments(), SizeToOrder(sizeBytes))
      ensures ptr == ALLOC_FAIL ==> live == old(live) && freeLists == old(freeLists)
      ensures ptr != ALLOC_FAIL ==>
                var r := Region(ptr, SizeToOrder(sizeBytes));
                && FreeRun(old(Used(live)), NumSegments(), ptr, r.order)
                && r !in old(live) && live == old(live) + {r}
                && BestFit(old(Used(live)), NumSegments(), ptr, r.order)
                && TakesFront(old(freeLists), ptr, r.order)
    {
      var order := SizeToOrder(sizeBytes);
      ghost var used, n := Used(live), NumSegments();
      var avail: int := -1;
      for k := order to MAX_ORDER + 1
        invariant avail == -1
        invariant forall j :: order <= j < k ==> freeLists[j] == []
      {
        if freeLists[k] != [] {
          avail := k;
          break;
        }
      }
      if avail < 0 {
        forall q: nat ensures !FreeRun(used, n, q, order) { NoRun(freeLists, used, n, order, q); }
        return ALLOC_FAIL;
      }
      ghost var f := freeLists[avail][0];
      FrontFits(freeLists, used, n, order, avail);
      assert TakesFront(freeLists, f, order);
      PendingStart(freeLists, used, n, avail);
      while avail > order
        invariant order <= avail <= MAX_ORDER && |freeLists| == 4
        invariant Pending(freeLists, used, n, avail, f)
        invariant forall j :: order <= j < avail ==> freeLists[j] == []
        invariant live == old(live)
      {
        SplitPending(avail, used, n, f);
        avail := avail - 1;
      }
      PendingEnd(freeLists, live, n, order, f);
      ptr := freeLists[order][0];
      freeLists := freeLists[order := freeLists[order][1..]];
      live := live + {Region(ptr, order)};
    }

    /** One split of the block f that is being handed out. */
    method SplitPending(from: nat, ghost used: set<nat>, ghost n: nat, ghost f: nat)
      requires Pending(freeLists, used, n, from, f) && from > 0 && freeLists[from - 1] == []
      modifies this`freeLists
      ensures freeLists == Split(old(freeLists), from) && Pending(freeLists, used, n, from - 1, f)
    {
      SplitStep(freeLists, used, n, from, f);
      SplitOrder(from);
    }

    /** The region must be live; its bytes join the free runs around it. */
    method Deallocate(ptr: nat, sizeBytes: nat)
      requires Valid() && ValidSize(sizeBytes) && Region(ptr, SizeToOrder(sizeBytes)) in live
      modifies this
      ensures Valid()
      ensures live == old(live) - {Region(ptr, SizeToOrder(sizeBytes))}
    {
      var order := SizeToOrder(sizeBytes);
      var p := ptr;
      ghost var n := NumSegments();
      ReleasingStart(freeLists, live, n, Region(ptr, order));
      live := live - {Region(ptr, order)};
      ghost var used := Used(live);
      while order < MAX_ORDER
        invariant order <= MAX_ORDER && |freeLists| == 4 && Releasing(freeLists, used, n, p, order)
        invariant live == old(live) - {Region(ptr, SizeToOrder(sizeBytes))}
        decreases MAX_ORDER - order
      {
        var buddy := Xor(p, Pow2(order));
        var it := Find(freeLists[order], buddy);
        if it == |freeLists[order]| { break; }
        ReleasingMerge(freeLists, used, n, p, order, it);
        freeLists := freeLists[order := freeLists[order][..it] + freeLists[order][it + 1..]];
        p := if p <= buddy then p else buddy;
        order := order + 1;
      }
      ReleasingEnd(freeLists, used, n, p, order);
      freeLists := freeLists[order := freeLists[order] + [p]];
    }

    /** std::find. */
    static method Find(l: seq<nat>, x: nat) returns (i: nat)
      ensures i <= |l| && (i < |l| ==> l[i] == x) && (i == |l| ==> x !in l)
    {
      i := 0;
      while i < |l| && l[i] != x
        invariant i <= |l| && forall j :: 0 <= j < i ==> l[j] != x
      {
        i := i + 1;
      }
    }

    method Write(ptr: nat, src: seq<byte>, len: nat)
      requires Valid() && len <= |src| && ptr * SEGMENT_SIZE + len <= poolBytes
      modifies pool
      ensures pool[ptr * SEGMENT_SIZE..ptr * SEGMENT_SIZE + len] == src[..len]
      ensures forall i :: 0 <= i < pool.Length && !(ptr * SEGMENT_SIZE <= i < ptr * SEGMENT_SIZE + len) ==>
                            pool[i] == old(pool[i])
    {
      var base := ptr * SEGMENT_SIZE;
      for i := 0 to len
        invariant pool[base..base + i] == src[..i]
        invariant forall j :: 0 <= j < pool.Length && !(base <= j < base + i) ==> pool[j] == old(pool[j])
      {
        pool[base + i] := src[i];
        assert pool[base..base + i + 1] == pool[base..base + i] + [src[i]];
      }
    }

    method Read(ptr: nat, dst: array<byte>, len: nat)
      requires Valid() && len <= dst.Length && ptr * SEGMENT_SIZE + len <= poolBytes && dst != pool
      modifies dst
      ensures dst[..len] == pool[ptr * SEGMENT_SIZE..ptr * SEGMENT_SIZE + len]
      ensures dst[len..] == old(dst[len..])
    {
      var base := ptr * SEGMENT_SIZE;
      for i := 0 to len
        invariant forall j :: 0 <= j < i ==> dst[j] == pool[base + j]
        invariant forall j :: len <= j < dst.Length ==> dst[j] == old(dst[j])
      {
        dst[i] := pool[base + i];
      }
    }
  }

  /** The front of the first non-empty list is the best fit. */
  lemma FrontFits(lists: seq<seq<nat>>, used: set<nat>, n: nat, order: nat, avail: nat)
    requires Canonical(lists, used, n) && order <= avail <= MAX_ORDER && lists[avail] != []
    requires forall j :: order <= j < avail ==> lists[j] == []
    ensures BestFit(used, n, lists[avail][0], order)
    ensures HasRun(used, n, order)
  {
    var p := lists[avail][0];
    ListedIsMaximal(lists, used, n, p, avail);
    forall j: nat, q: nat | order <= j < avail ensures !Maximal(used, n, q, j) {
      ListedIsMaximal(lists, used, n, q, j);
    }
    SubRun(used, n, p, avail, order);
  }

  lemma SubRun(used: set<nat>, n: nat, p: nat, k: nat, order: nat)
    requires FreeRun(used, n, p, k) && order <= k
    ensures FreeRun(used, n, p, order)
  {
    AlignedDown(p, k, order);
    Pow2Mono(order, k);
  }

  /** In every valid state free and allocated segments add up to the pool. */
  lemma PoolBalance(store: DecoupledDataStore)
    requires store.Valid()
    ensures SEGMENT_SIZE * (FreeSegments(store.freeLists) + |Used(store.live)|) == store.poolBytes
  {
    var n := store.poolBytes / 8;
    forall s | s in Used(store.live) ensures s < n {
      var r :| r in store.live && s in Segments(r.ptr, r.order);
    }
    Conservation(store.freeLists, Used(store.live), n);
    WholeSegments(store.poolBytes);
  }

  lemma WholeSegments(bytes: nat)
    requires bytes % 64 == 0
    ensures SEGMENT_SIZE * (bytes / 8) == bytes
  {
    var q := bytes / 64;
    assert bytes == 8 * (8 * q);
    QuotientUnique(bytes, 8, 8 * q, 0);
  }

  lemma RegionSize(order: nat)
    requires order <= MAX_ORDER
    ensures ValidSize(SEGMENT_SIZE * Pow2(order)) && SizeToOrder(SEGMENT_SIZE * Pow2(order)) == order
  {
    assert Pow2(1) == 2 && Pow2(2) == 4 && Pow2(3) == 8;
  }

  ghost function Elements<T>(s: seq<T>): set<T> { set r | r in s }

  lemma Rest<T>(s: seq<T>, i: nat)
    requires NoDuplicates(s) && i < |s|
    ensures s[i] in s[i..] && Elements(s[i + 1..]) == Elements(s[i..]) - {s[i]}
  {
    assert s[i..] == [s[i]] + s[i + 1..];
  }

  lemma DrainedPool(lists: seq<seq<nat>>, poolBytes: nat)
    requires poolBytes % 64 == 0 && Canonical(lists, {}, poolBytes / 8)
    ensures lists[0] == lists[1] == lists[2] == []
    ensures forall p: nat :: p in lists[3] <==> p % 8 == 0 && p < poolBytes / 8
    ensures 64 * |lists[3]| == poolBytes
  {
    Drained(lists, poolBytes / 8);
    forall p: nat ensures p in lists[3] <==> p % 8 == 0 && p < poolBytes / 8 {
      AlignedMod(p, 3);
      assert Pow2(3) == 8;
    }
  }

  /** Allocation and release in any order: after the last release the pool is as constructed. */
  method FreeAll(store: DecoupledDataStore, regions: seq<Region>)
    requires store.Valid() && NoDuplicates(regions)
    requires store.live == Elements(regions)
    modifies store
    ensures store.Valid() && store.live == {}
    ensures store.freeLists[0] == store.freeLists[1] == store.freeLists[2] == []
    ensures forall p: nat :: p in store.freeLists[3] <==> p % 8 == 0 && p < store.poolBytes / 8
    ensures 64 * |store.freeLists[3]| == store.poolBytes
  {
    for i := 0 to |regions|
      invariant store.Valid() && store.live == Elements(regions[i..])
    {
      var r := regions[i];
      Rest(regions, i);
      RegionSize(r.order);
      store.Deallocate(r.ptr, SEGMENT_SIZE * Pow2(r.order));
    }
    assert store.live == {};
    assert Used({}) == {};
    DrainedPool(store.freeLists, store.poolBytes);
  }
}
