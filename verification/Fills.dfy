/** What fills and invalidations do to the tag array and to the regions that keys hold. */
module Fills {
  import opened Bits
  import opened BuddyRuns
  import opened DecoupledDataStores
  import opened BitPlaneCompressor
  import opened FragReservoirs
  import opened ZCacheIndex
  import opened ZCacheWalk
  import opened TagState
  import opened Ownership

  type Line = l: seq<byte> | |l| == 64 witness seq(64, _ => 0)

  /** (compressedBits + 7) / 8 */
  function ComputePaddedSize(compressedBits: nat): nat {
    (compressedBits + 7) / 8
  }

  /** The size of a line in the pool under a ratio cap: whatever the line, the allocator accepts it. */
  ghost function LineSize(line: Line, cap: int): (size: nat)
    ensures size == 16 || size == 32 || size == 64
  {
    var raw := |Compressed(WordsOf(line), BITS_PER_WORD).rawPlanes|;
    ReportedTable(raw, cap);
    ComputePaddedSize(ReportedBits(raw, cap))
  }

  /** The bytes that a line with `raw` uncompressed planes needs without a cap. */
  function UncappedSize(raw: nat): nat {
    if raw <= 2 then 16 else if raw <= 10 then 32 else 64
  }

  /** The least of 16, 32 and 64 bytes that holds the line and has at least `floor` bits. */
  ghost predicate SizeFor(size: nat, raw: nat, floor: nat) {
    && size in {16, 32, 64}
    && SizeAllowed(size, raw, floor)
    && (size > 16 ==> !SizeAllowed(16, raw, floor))
    && (size > 32 ==> !SizeAllowed(32, raw, floor))
  }

  ghost predicate SizeAllowed(size: nat, raw: nat, floor: nat) {
    size >= UncappedSize(raw) && 8 * size >= floor
  }

  lemma SizeFromBits(bits: nat, raw: nat, floor: nat)
    requires LeastSize(bits, 96 + 16 * raw, floor) && floor <= 512
    ensures SizeFor(ComputePaddedSize(bits), raw, floor)
  {
    assert bits != 64;
    assert 8 * ComputePaddedSize(bits) == bits;
  }

  /** There is one such size. */
  lemma SizeUnique(size: nat, other: nat, raw: nat, floor: nat)
    requires SizeFor(size, raw, floor) && SizeFor(other, raw, floor)
    ensures size == other
  {
  }

  lemma CapSmall(cap: int)
    ensures CapBits(cap) <= 512
  {
    if cap > 0 { QuotientBound(512, cap, 1); }
  }

  /** The size of a line by the digits of its words: the least of 16, 32 and 64 bytes that the number
      of raw planes and the cap allow. */
  lemma LineSizeTable(line: Line, cap: int)
    ensures SizeFor(LineSize(line, cap), |RawBits(WordsOf(line), 32)|, CapBits(cap))
  {
    var raw := |Compressed(WordsOf(line), BITS_PER_WORD).rawPlanes|;
    RawPlaneCount(WordsOf(line), 32);
    CapSmall(cap);
    PaddedLeast(EncodedBits(BITS_PER_WORD, WORDS_PER_LINE, raw), cap);
    SizeFromBits(ReportedBits(raw, cap), raw, CapBits(cap));
  }

  /** What the compressor reports for a line is the line's size. */
  lemma PackedSize(line: Line, cap: int, raw: nat, bits: nat)
    requires raw == |Compressed(WordsOf(line), BITS_PER_WORD).rawPlanes| && LeastSize(bits, 96 + 16 * raw, CapBits(cap))
    ensures ComputePaddedSize(bits) == LineSize(line, cap)
    ensures SizeFor(ComputePaddedSize(bits), |RawBits(WordsOf(line), 32)|, CapBits(cap))
  {
    RawPlaneCount(WordsOf(line), 32);
    CapSmall(cap);
    SizeFromBits(bits, raw, CapBits(cap));
    LineSizeTable(line, cap);
    SizeUnique(ComputePaddedSize(bits), LineSize(line, cap), raw, CapBits(cap));
  }

  /** A block that a fill forced out, with the size of the region it gave back. */
  datatype Eviction = Eviction(slot: nat, key: Key, size: nat)

  ghost function KeysOf(evictions: seq<Eviction>): set<Key> {
    set e | e in evictions :: e.key
  }

  /** The reservoir may be stale but it names slots of the array, with sizes that regions may have. */
  ghost predicate EntriesOk(bins: seq<seq<Candidate>>, n: nat) {
    forall b, s :: 0 <= b < |bins| && 0 <= s < |bins[b]| && bins[b][s].valid ==>
                     bins[b][s].entry < n && GranuleOrNone(bins[b][s].allocSize)
  }

  /** All but possibly the last eviction gave back less than the request; so did the last, if there
      still is no run. */
  ghost predicate SmallFirst(evictions: seq<Eviction>, size: nat, found: bool) {
    forall i :: 0 <= i < |evictions| && (i < |evictions| - 1 || !found) ==> evictions[i].size < size
  }

  ghost predicate EvictedFrom(was: seq<Block>, evictions: seq<Eviction>, blk: nat) {
    forall e :: e in evictions ==> e.slot < |was| && e.slot != blk && was[e.slot].valid && e.key == KeyOf(was[e.slot])
  }

  /** The size of an eviction is that of the region its key held. */
  ghost predicate Freed(held: map<Key, Holding>, evictions: seq<Eviction>) {
    forall e :: e in evictions ==> e.key in held && held[e.key].size == e.size
  }

  /** Blocks may be gone; those still valid are as they were. */
  ghost predicate OnlyDropped(was: seq<Block>, now: seq<Block>) {
    |now| == |was| && forall s :: 0 <= s < |was| && now[s].valid ==> now[s] == was[s]
  }

  lemma KeysOfPush(evictions: seq<Eviction>, e: Eviction)
    ensures KeysOf(evictions + [e]) == KeysOf(evictions) + {e.key}
  {
    var longer := evictions + [e];
    forall k ensures k in KeysOf(longer) <==> k in KeysOf(evictions) || k == e.key {
      if k in KeysOf(evictions) {
        var f :| f in evictions && f.key == k;
        assert f in longer;
      }
      assert e in longer;
    }
  }

  /** What forced evictions do: each drops a block other than blk, and nothing else changes. */
  ghost predicate Forced(was: seq<Block>, now: seq<Block>, evicted: seq<Eviction>, blk: nat) {
    OnlyDropped(was, now) && blk < |was| && now[blk] == was[blk] && EvictedFrom(was, evicted, blk)
  }

  /** Forced evictions so far, while blk still waits for its region: the evicted keys have lost their
      regions, and every other key holds what it held. */
  ghost predicate Since(was: seq<Block>, held: map<Key, Holding>, now: seq<Block>, m: Meta,
                        evicted: seq<Eviction>, blk: nat)
    requires KeysUnique(was) && KeysUnique(now) && m.Sized(|now|)
  {
    && Forced(was, now, evicted, blk)
    && Contents(now) == Contents(was) - KeysOf(evicted)
    && Holders(now, m) == held - KeysOf(evicted)
    && Freed(held, evicted)
    && !m.Owns(blk)
  }

  lemma SinceEvict(ix: H3, was: seq<Block>, held: map<Key, Holding>, now: seq<Block>, m: Meta,
                   evicted: seq<Eviction>, blk: nat, e: Eviction)
    requires KeysUnique(was) && Shape(ix, now) && Placed(ix, now) && KeysUnique(now) && MetaOk(now, m)
    requires Since(was, held, now, m, evicted, blk)
    requires e.slot < |now| && now[e.slot].valid && m.Owns(e.slot)
    requires e.key == KeyOf(now[e.slot]) && e.size == m.sizes[e.slot]
    ensures KeysUnique(Dropped(now, e.slot))
    ensures Since(was, held, Dropped(now, e.slot), MetaClear(m, e.slot), evicted + [e], blk)
  {
    DropBlock(ix, now, e.slot);
    KeysOfPush(evicted, e);
    EvictMore(was, now, m, evicted, blk, e);
    MinusMore(Contents(was), KeysOf(evicted), e.key);
    EvictHolder(held, now, m, evicted, e);
  }

  lemma EvictHolder(held: map<Key, Holding>, now: seq<Block>, m: Meta, evicted: seq<Eviction>, e: Eviction)
    requires KeysUnique(now) && m.Sized(|now|) && Holders(now, m) == held - KeysOf(evicted) && Freed(held, evicted)
    requires Holder(now, m, e.slot) && e.key == KeyOf(now[e.slot]) && e.size == m.sizes[e.slot]
    requires KeysUnique(Dropped(now, e.slot))
    ensures Holders(Dropped(now, e.slot), MetaClear(m, e.slot)) == held - KeysOf(evicted + [e])
    ensures Freed(held, evicted + [e])
  {
    HolderAt(now, m, e.slot);
    DropHolder(now, m, e.slot);
    KeysOfPush(evicted, e);
    MinusMore(held, KeysOf(evicted), e.key);
  }

  lemma SinceStart(blks: seq<Block>, m: Meta, blk: nat)
    requires KeysUnique(blks) && MetaOk(blks, m) && blk < |blks| && !m.Owns(blk)
    ensures Since(blks, Holders(blks, m), blks, m, [], blk)
  {
    assert KeysOf([]) == {};
  }

  lemma EvictMore(was: seq<Block>, now: seq<Block>, m: Meta, evicted: seq<Eviction>, blk: nat, e: Eviction)
    requires OnlyDropped(was, now) && EvictedFrom(was, evicted, blk) && blk < |was| && now[blk] == was[blk]
    requires MetaOk(now, m) && !m.Owns(blk)
    requires e.slot < |now| && now[e.slot].valid && m.Owns(e.slot) && e.key == KeyOf(now[e.slot])
    ensures OnlyDropped(was, Dropped(now, e.slot)) && EvictedFrom(was, evicted + [e], blk)
    ensures Dropped(now, e.slot)[blk] == was[blk] && !MetaClear(m, e.slot).Owns(blk)
  {
  }

  lemma MinusMore<K, V>(m: map<K, V>, ks: set<K>, k: K)
    ensures (m - ks) - {k} == m - (ks + {k})
  {
  }

  lemma MinusStep<K, V>(m: map<K, V>, ks: set<K>, k: K)
    ensures k in ks ==> m - (ks + {k}) == m - ks
  {
    if k in ks { assert ks + {k} == ks; }
  }

  lemma MinusAbsent<K, V>(m: map<K, V>, k: K)
    requires k !in m
    ensures m - {k} == m
  {
  }

  lemma MinusAdded<K, V>(m: map<K, V>, k: K, v: V)
    requires k !in m
    ensures m[k := v] - {k} == m
  {
  }

  ghost predicate AllSampled(bins: seq<seq<Candidate>>, size: nat, evicted: seq<Eviction>) {
    forall e :: e in evicted ==> Sampled(bins, size, e.slot)
  }

  /** No slot named by a drawn candidate owns a region any more: it was stale, or it was evicted. */
  ghost predicate DrawnGone(bins: seq<seq<Candidate>>, now: seq<seq<Candidate>>, m: Meta) {
    |now| == |bins| && forall b, s :: 0 <= b < |bins| && 0 <= s < |bins[b]| && WasDrawn(bins, now, b, s) ==>
                                        !m.Owns(bins[b][s].entry)
  }

  ghost predicate WasDrawn(bins: seq<seq<Candidate>>, now: seq<seq<Candidate>>, b: nat, s: nat)
    requires b < |bins| && s < |bins[b]|
  {
    bins[b][s].valid && b < |now| && s < |now[b]| && !now[b][s].valid
  }

  /** What draws for a size do: they take candidates only from the bins that serve it, every live one is
      evicted, and every eviction is of one. */
  ghost predicate Draws(bins: seq<seq<Candidate>>, now: seq<seq<Candidate>>, m: Meta, size: nat, evicted: seq<Eviction>)
  {
    OnlyDrawn(bins, now, size) && DrawnGone(bins, now, m) && AllSampled(bins, size, evicted)
  }

  lemma DrawsMore(bins: seq<seq<Candidate>>, now: seq<seq<Candidate>>, m: Meta, m': Meta, size: nat, b: nat, s: nat,
                  before: seq<Eviction>, evicted: seq<Eviction>)
    requires |bins| == 4 && Draws(bins, now, m, size, before) && Drawn(now, size, b, s)
    requires m' == m || (now[b][s].entry < |m.ptrs| && |m.ptrs| == |m.sizes| == |m.filled|
                         && m' == MetaClear(m, now[b][s].entry))
    requires !m'.Owns(now[b][s].entry)
    requires forall e :: e in evicted ==> e in before || e.slot == now[b][s].entry
    ensures Draws(bins, Cleared(now, b, s), m', size, evicted)
  {
    DrawnSampled(bins, now, size, b, s);
    var now' := Cleared(now, b, s);
    forall a, t | 0 <= a < 4 && 0 <= t < |bins[a]| && WasDrawn(bins, now', a, t) ensures !m'.Owns(bins[a][t].entry) {
      if a == b && t == s {
        assert now[b][s] == bins[b][s];
      } else {
        assert WasDrawn(bins, now, a, t);
      }
    }
  }

  lemma SmallMore(evicted: seq<Eviction>, e: Eviction, size: nat, found: bool)
    requires SmallFirst(evicted, size, false) && (!found ==> e.size < size)
    ensures SmallFirst(evicted + [e], size, found)
  {
  }

  /** Drawing a candidate keeps the rest. */
  lemma DrawKeepsEntries(bins: seq<seq<Candidate>>, b: nat, s: nat, n: nat)
    requires Shaped(bins) && EntriesOk(bins, n) && b < 4 && s < 4
    ensures EntriesOk(Cleared(bins, b, s), n)
  {
  }

  /** The keys of the valid blocks in the listed slots. */
  ghost function KeysIn(blks: seq<Block>, slots: seq<nat>): set<Key> {
    set s | s in slots && s < |blks| && blks[s].valid :: KeyOf(blks[s])
  }

  /** The slots listed have been invalidated, and nothing else has changed. */
  ghost predicate Emptied(was: seq<Block>, held: map<Key, Holding>, now: seq<Block>, m: Meta, slots: seq<nat>)
    requires KeysUnique(was) && KeysUnique(now) && m.Sized(|now|)
  {
    && SlotsEmptied(was, now, slots)
    && Contents(now) == Contents(was) - KeysIn(was, slots)
    && Holders(now, m) == held - KeysIn(was, slots)
  }

  lemma EmptyStart(blks: seq<Block>, m: Meta)
    requires KeysUnique(blks) && m.Sized(|blks|)
    ensures Emptied(blks, Holders(blks, m), blks, m, [])
  {
    assert KeysIn(blks, []) == {};
  }

  lemma EmptyMore(ix: H3, was: seq<Block>, held: map<Key, Holding>, now: seq<Block>, m: Meta, slots: seq<nat>, s: nat)
    requires Shape(ix, now) && Placed(ix, now) && KeysUnique(was) && KeysUnique(now) && m.Sized(|now|)
    requires Emptied(was, held, now, m, slots) && s < |now|
    ensures KeysUnique(Dropped(now, s)) && Emptied(was, held, Dropped(now, s), MetaClear(m, s), slots + [s])
  {
    DropBlock(ix, now, s);
    DropHolder(now, m, s);
    EmptySlot(was, now, slots, s);
    EmptyMinus(Contents(was), was, now, slots, s);
    EmptyMinus(held, was, now, slots, s);
  }

  /** Emptying one more slot takes its key, if it still has one. */
  lemma EmptyMinus<V>(m: map<Key, V>, was: seq<Block>, now: seq<Block>, slots: seq<nat>, s: nat)
    requires SlotsEmptied(was, now, slots) && s < |now|
    ensures Without(m - KeysIn(was, slots), now[s]) == m - KeysIn(was, slots + [s])
  {
    EmptySlot(was, now, slots, s);
    KeysInMore(was, slots, s);
    MinusMore(m, KeysIn(was, slots), KeyOf(was[s]));
    MinusStep(m, KeysIn(was, slots), KeyOf(was[s]));
  }

  lemma EmptySlot(was: seq<Block>, now: seq<Block>, slots: seq<nat>, s: nat)
    requires SlotsEmptied(was, now, slots) && s < |now|
    ensures SlotsEmptied(was, Dropped(now, s), slots + [s])
    ensures now[s].valid <==> was[s].valid && s !in slots
    ensures now[s].valid ==> now[s] == was[s]
  {
  }

  /** Forced evictions spare the key in blk. */
  lemma ForcedOthers(blks: seq<Block>, evicted: seq<Eviction>, blk: nat)
    requires KeysUnique(blks) && EvictedFrom(blks, evicted, blk) && blk < |blks| && blks[blk].valid
    ensures KeyOf(blks[blk]) !in KeysOf(evicted)
  {
    forall e | e in evicted ensures e.key != KeyOf(blks[blk]) {
      DifferentKeys(blks, e.slot, blk);
    }
  }

  lemma DifferentKeys(blks: seq<Block>, s: nat, t: nat)
    requires KeysUnique(blks) && s < |blks| && t < |blks| && s != t && blks[s].valid && blks[t].valid
    ensures KeyOf(blks[s]) != KeyOf(blks[t])
  {
  }

  /** A sample names a slot of the array. */
  lemma OfferKeepsEntries(bins: seq<seq<Candidate>>, c: Candidate, bins': seq<seq<Candidate>>, n: nat)
    requires Shaped(bins) && Shaped(bins') && Offered(bins, c, bins') && EntriesOk(bins, n)
    requires c.entry < n && GranuleOrNone(c.allocSize)
    ensures EntriesOk(bins', n)
  {
  }

  lemma KeysInMore(blks: seq<Block>, slots: seq<nat>, s: nat)
    requires s < |blks|
    ensures KeysIn(blks, slots + [s]) ==
            if blks[s].valid then KeysIn(blks, slots) + {KeyOf(blks[s])} else KeysIn(blks, slots)
    ensures s in slots && blks[s].valid ==> KeyOf(blks[s]) in KeysIn(blks, slots)
  {
    var longer := slots + [s];
    forall k ensures k in KeysIn(blks, longer) <==> k in KeysIn(blks, slots) || (blks[s].valid && k == KeyOf(blks[s])) {
      if k in KeysIn(blks, slots) {
        var t :| t in slots && t < |blks| && blks[t].valid && KeyOf(blks[t]) == k;
        assert t in longer;
      }
      assert s in longer;
    }
  }

  /** A miss loses at most one key to its victim, and none if some candidate slot is empty. */
  lemma OneVictim(ix: H3, blks: seq<Block>, lastTouch: seq<nat>, addr: nat, n: nat, k: nat)
    requires Shape(ix, blks) && |lastTouch| == |blks| && IsVictim(GraphOf(ix, blks, addr), lastTouch, n, k)
    ensures KeysIn(blks, [SlotAt(GraphOf(ix, blks, addr), k)]) ==
            if AllValid(GraphOf(ix, blks, addr), n) then {KeyOf(blks[SlotAt(GraphOf(ix, blks, addr), k)])} else {}
  {
    var s := SlotAt(GraphOf(ix, blks, addr), k);
    assert s in [s];
    assert AllValid(GraphOf(ix, blks, addr), n) ==> blks[s].valid;
  }

  /** After a fill of some size: if the line was stored, its key holds a region of that size with the
      line's first bytes; the other keys hold what they held. */
  ghost predicate Settled(after: map<Key, Holding>, held: map<Key, Holding>, key: Key, line: Line, size: nat,
                             stored: bool)
    requires size <= 64
  {
    && after - {key} == held
    && (stored <==> key in after)
    && (stored ==> after[key].size == size && after[key].bytes == line[..size])
  }

  /** An empty victim's slot adds no key. */
  lemma EmptyVictim(blks: seq<Block>, victim: nat, between: seq<nat>)
    requires victim < |blks|
    ensures KeysIn(blks, (if blks[victim].valid then [victim] else []) + between) == KeysIn(blks, [victim] + between)
  {
  }

  // ---------------------------------------------------------------- states before and after

  /** The blocks, who holds which region, the reservoir, and the blocks' timestamps. */
  datatype State = State(blks: seq<Block>, held: map<Key, Holding>, bins: seq<seq<Candidate>>, lastTouch: seq<nat>)

  type Snapshot = s: State | KeysUnique(s.blks) witness State([], map[], [], [])

  /** The map that the blocks of a state stand for. */
  ghost function Data(s: Snapshot): map<Key, seq<byte>> { Contents(s.blks) }

  /** A fill that found the map `data` and the holders `held`: the keys forced out are lost and held
      regions of the recorded sizes, all but possibly the last too small; they were candidates at or
      above the size's class; the filled key survives and holds its line if there was room. */
  ghost predicate FillResult(data: map<Key, seq<byte>>, held: map<Key, Holding>, bins: seq<seq<Candidate>>,
                             after: Snapshot, key: Key, line: Line, size: nat, forced: seq<Eviction>, stored: bool)
    requires size <= 64
  {
    && Data(after) == data - KeysOf(forced) && key !in KeysOf(forced) && |forced| <= 16
    && Settled(after.held, held - KeysOf(forced), key, line, size, stored)
    && Freed(held, forced) && AllSampled(bins, size, forced) && SmallFirst(forced, size, stored)
    && OnlyDrawn(bins, after.bins, size) && AllGone(bins, after.bins, after.blks, after.held, key)
  }

  /** Of the keys in the slots named by drawn candidates, only the filled one may hold a region. */
  ghost predicate AllGone(bins: seq<seq<Candidate>>, now: seq<seq<Candidate>>, blks: seq<Block>,
                          held: map<Key, Holding>, key: Key)
  {
    forall b, s :: 0 <= b < |bins| && 0 <= s < |bins[b]| && WasDrawn(bins, now, b, s) ==>
                     Gone(blks, held, bins[b][s].entry, key)
  }

  ghost predicate Gone(blks: seq<Block>, held: map<Key, Holding>, slot: nat, key: Key) {
    slot < |blks| && blks[slot].valid && KeyOf(blks[slot]) in held ==> KeyOf(blks[slot]) == key
  }

  /** If a fill ends with nothing left to draw, every candidate that its size could draw at the start
      was stale or has been evicted. */
  lemma ExhaustedFill(data: map<Key, seq<byte>>, held: map<Key, Holding>, bins: seq<seq<Candidate>>, after: Snapshot,
                      key: Key, line: Line, size: nat, forced: seq<Eviction>, stored: bool, b: nat, s: nat)
    requires size <= 64 && FillResult(data, held, bins, after, key, line, size, forced, stored)
    requires NoneEligible(after.bins, size)
    requires b < |bins| && s < |bins[b]| && Eligible(bins[b][s], size)
    ensures Gone(after.blks, after.held, bins[b][s].entry, key)
  {
    DrawnOrEligible(bins, after.bins, size, b, s);
  }

  lemma DrawnOrEligible(bins: seq<seq<Candidate>>, now: seq<seq<Candidate>>, size: nat, b: nat, s: nat)
    requires OnlyDrawn(bins, now, size) && b < |bins| && s < |bins[b]| && Eligible(bins[b][s], size)
    ensures WasDrawn(bins, now, b, s) || Eligible(now[b][s], size)
  {
  }

  lemma GoneHolders(bins: seq<seq<Candidate>>, now: seq<seq<Candidate>>, blks: seq<Block>, m: Meta,
                    held: map<Key, Holding>, key: Key)
    requires KeysUnique(blks) && m.Sized(|blks|) && DrawnGone(bins, now, m) && held - {key} == Holders(blks, m)
    ensures AllGone(bins, now, blks, held, key)
  {
    forall b, s | 0 <= b < |bins| && 0 <= s < |bins[b]| && WasDrawn(bins, now, b, s)
      ensures Gone(blks, held, bins[b][s].entry, key)
    {
      var e := bins[b][s].entry;
      if e < |blks| && blks[e].valid && KeyOf(blks[e]) in held && KeyOf(blks[e]) != key {
        assert KeyOf(blks[e]) in held - {key};
        NotHolder(blks, m, e);
      }
    }
  }

  lemma NoFill(s: Snapshot, key: Key, line: Line, size: nat)
    requires size <= 64 && key !in s.held
    ensures FillResult(Data(s), s.held, s.bins, s, key, line, size, [], false)
  {
    assert KeysOf([]) == {};
    MinusAbsent(s.held, key);
  }

  /** A miss: `lost` leaves before the insertion, `forced` during the fill. */
  ghost predicate Missed(before: Snapshot, after: Snapshot, key: Key, line: Line, size: nat, lost: set<Key>,
                         forced: seq<Eviction>, stored: bool)
    requires size <= 64
  {
    && key !in Data(before)
    && FillResult((Data(before) - lost)[key := line], before.held - lost, before.bins, after, key, line, size, forced,
                  stored)
  }

  /** An invalidation or an eviction takes at most one key per slot. */
  lemma {:induction false} LossBounds(blks: seq<Block>, slots: seq<nat>)
    ensures |KeysIn(blks, slots)| <= |slots|
  {
    if |slots| == 0 {
      assert KeysIn(blks, slots) == {};
    } else {
      var n := |slots| - 1;
      LossBounds(blks, slots[..n]);
      assert slots == slots[..n] + [slots[n]];
      if slots[n] < |blks| {
        KeysInMore(blks, slots[..n], slots[n]);
      } else {
        assert KeysIn(blks, slots) == KeysIn(blks, slots[..n]);
      }
    }
  }

  lemma {:induction false} ForcedBounds(evictions: seq<Eviction>)
    ensures |KeysOf(evictions)| <= |evictions|
  {
    if |evictions| == 0 {
      assert KeysOf(evictions) == {};
    } else {
      var n := |evictions| - 1;
      ForcedBounds(evictions[..n]);
      assert evictions == evictions[..n] + [evictions[n]];
      KeysOfPush(evictions[..n], evictions[n]);
    }
  }
}
