/** What the tag array means: a partial map from keys to data, and a set of pool holdings. The lemmas
    say what moving, dropping and placing one block do to both. */
module TagState {
  import opened Bits
  import opened ZCacheIndex
  import opened ZCacheWalk
  import opened DecoupledDataStores

  datatype Block = Block(valid: bool, tag: nat, secure: bool, data: seq<byte>)

  ghost predicate Shape(ix: H3, blks: seq<Block>) {
    ix.Valid() && |blks| == ix.NumBlocks()
  }

  /** A request: an address in a secure or non-secure space. */
  datatype Request = Request(address: nat, secure: bool)

  /** What identifies a stored block. */
  datatype Key = Key(tag: nat, secure: bool)

  function KeyOf(b: Block): Key { Key(b.tag, b.secure) }

  function KeyFor(ix: H3, r: Request): Key { Key(ExtractTag(ix, r.address), r.secure) }

  /** Two requests name the same key exactly when they are for the same block of the same space. */
  lemma SameKey(ix: H3, r: Request, q: Request)
    ensures KeyFor(ix, r) == KeyFor(ix, q) <==>
            r.secure == q.secure && r.address / Pow2(ix.setShift) == q.address / Pow2(ix.setShift)
  {
    SameTag(ix, r.address, q.address);
  }

  /** The j-th slot, in another way, where the block in slot s may live. */
  function KidSlot(ix: H3, blks: seq<Block>, s: nat, j: nat): nat
    requires Shape(ix, blks) && s < |blks| && j < ix.ways - 1
  {
    HomeSlot(ix, blks[s].tag, OtherWay(SlotWay(ix, s), j))
  }

  /** The j-th alternative location of the block in slot s, as a set and a way. */
  function Alternative(ix: H3, blks: seq<Block>, s: nat, j: nat): (nat, nat)
    requires Shape(ix, blks) && s < |blks| && j < ix.ways - 1
  {
    (ExtractSet(ix, blks[s].tag, OtherWay(SlotWay(ix, s), j)), OtherWay(SlotWay(ix, s), j))
  }

  lemma AlternativeSlot(ix: H3, blks: seq<Block>, s: nat, j: nat)
    requires Shape(ix, blks) && s < |blks| && j < ix.ways - 1
    ensures var alt := Alternative(ix, blks, s, j);
            && Slot(ix, alt.0, alt.1) == KidSlot(ix, blks, s, j)
            && SlotWay(ix, KidSlot(ix, blks, s, j)) == alt.1
            && KidSlot(ix, blks, s, j) != s
  {
    HomeSlotParts(ix, blks[s].tag, OtherWay(SlotWay(ix, s), j));
  }

  /** The relocation graph of a tag state, seen from an address. */
  function GraphOf(ix: H3, blks: seq<Block>, addr: nat): (g: Graph)
    requires Shape(ix, blks)
    ensures g.Valid() && g.Ways() == ix.ways && |g.kids| == |blks|
  {
    GraphInRange(ix, blks, addr);
    Graph(seq(ix.ways, w requires 0 <= w < ix.ways => HomeSlot(ix, addr, w)),
          seq(|blks|, s requires 0 <= s < |blks| =>
                seq(ix.ways - 1, j requires 0 <= j < ix.ways - 1 => KidSlot(ix, blks, s, j))),
          seq(|blks|, s requires 0 <= s < |blks| => blks[s].valid))
  }

  /** The relocation graph without reference to how it is listed: the level-1 slots are those the
      address hashes to, and the block of s may move to exactly the slots that its own tag hashes to in
      the other ways. */
  lemma GraphMeaning(ix: H3, blks: seq<Block>, addr: nat, s: nat, d: nat)
    requires Shape(ix, blks) && s < |blks|
    ensures var g := GraphOf(ix, blks, addr);
            && (forall w :: 0 <= w < ix.ways ==> g.roots[w] == ExtractSet(ix, addr, w) * ix.ways + w)
            && g.full[s] == blks[s].valid
            && (Edge(g, s, d) <==>
                  exists w: nat :: w < ix.ways && w != s % ix.ways && InWay(ix, blks[s].tag, w, d))
  {
    var g := GraphOf(ix, blks, addr);
    if Edge(g, s, d) {
      var j :| 0 <= j < g.Ways() - 1 && g.kids[s][j] == d;
      GraphKid(ix, blks, addr, s, j);
      assert InWay(ix, blks[s].tag, OtherWay(SlotWay(ix, s), j), d);
    }
    if w: nat :| w < ix.ways && w != s % ix.ways && InWay(ix, blks[s].tag, w, d) {
      var j := if w < s % ix.ways then w else w - 1;
      GraphKid(ix, blks, addr, s, j);
      assert g.kids[s][j] == d;
    }
  }

  /** Slot d is where an address hashes to in way w. */
  ghost predicate InWay(ix: H3, addr: nat, w: nat, d: nat)
    requires ix.Valid() && w < ix.ways
  {
    d == ExtractSet(ix, addr, w) * ix.ways + w
  }

  lemma GraphKid(ix: H3, blks: seq<Block>, addr: nat, s: nat, j: nat)
    requires Shape(ix, blks) && s < |blks| && j < ix.ways - 1
    ensures GraphOf(ix, blks, addr).kids[s][j] == KidSlot(ix, blks, s, j)
  {
  }

  lemma GraphInRange(ix: H3, blks: seq<Block>, addr: nat)
    requires Shape(ix, blks)
    ensures forall w :: 0 <= w < ix.ways ==> HomeSlot(ix, addr, w) < |blks|
    ensures forall s, j :: 0 <= s < |blks| && 0 <= j < ix.ways - 1 ==> KidSlot(ix, blks, s, j) < |blks|
  {
    forall w | 0 <= w < ix.ways ensures HomeSlot(ix, addr, w) < |blks| { HomeSlotParts(ix, addr, w); }
    forall s, j | 0 <= s < |blks| && 0 <= j < ix.ways - 1 ensures KidSlot(ix, blks, s, j) < |blks| {
      HomeSlotParts(ix, blks[s].tag, OtherWay(SlotWay(ix, s), j));
    }
  }

  /** Slot s is where an address with this tag hashes to in the way of s. */
  ghost predicate Home(ix: H3, tag: nat, s: nat)
    requires ix.Valid()
  {
    s < ix.NumBlocks() && s == HomeSlot(ix, tag, SlotWay(ix, s))
  }

  ghost predicate Placed(ix: H3, blks: seq<Block>)
    requires ix.Valid()
  {
    forall s :: 0 <= s < |blks| && blks[s].valid ==> Home(ix, blks[s].tag, s)
  }

  ghost predicate KeysUnique(blks: seq<Block>) {
    forall s, t :: 0 <= s < t < |blks| && blks[s].valid && blks[t].valid ==> KeyOf(blks[s]) != KeyOf(blks[t])
  }

  ghost function Contents(blks: seq<Block>): map<Key, seq<byte>>
    requires KeysUnique(blks)
  {
    map s | 0 <= s < |blks| && blks[s].valid :: KeyOf(blks[s]) := blks[s].data
  }

  ghost predicate Holds(blks: seq<Block>, k: Key) {
    exists s :: 0 <= s < |blks| && blks[s].valid && KeyOf(blks[s]) == k
  }

  lemma ContentsAt(blks: seq<Block>, s: nat)
    requires KeysUnique(blks) && s < |blks| && blks[s].valid
    ensures KeyOf(blks[s]) in Contents(blks) && Contents(blks)[KeyOf(blks[s])] == blks[s].data
  {
  }

  lemma ContentsSlot(blks: seq<Block>, k: Key) returns (s: nat)
    requires KeysUnique(blks) && k in Contents(blks)
    ensures s < |blks| && blks[s].valid && KeyOf(blks[s]) == k
  {
    s :| s < |blks| && blks[s].valid && KeyOf(blks[s]) == k;
  }

  /** W probes see as much as a scan of the whole array. */
  lemma ProbeFinds(ix: H3, blks: seq<Block>, r: Request, s: nat)
    requires Shape(ix, blks) && Placed(ix, blks)
    requires s < |blks| && blks[s].valid && KeyOf(blks[s]) == KeyFor(ix, r)
    ensures s == HomeSlot(ix, r.address, SlotWay(ix, s))
  {
    assert Home(ix, blks[s].tag, s);
    TagSelectsSameSets(ix, r.address, SlotWay(ix, s));
  }

  // ---------------------------------------------------------------- steps on blocks

  /** The map without the key of a block, if the block is valid. */
  function Without<V>(m: map<Key, V>, b: Block): map<Key, V> {
    if b.valid then m - {KeyOf(b)} else m
  }

  function Dropped(blks: seq<Block>, s: nat): (r: seq<Block>)
    requires s < |blks|
    ensures |r| == |blks|
  {
    blks[s := blks[s].(valid := false)]
  }

  function Moved(blks: seq<Block>, src: nat, dst: nat): (r: seq<Block>)
    requires src < |blks| && dst < |blks|
    ensures |r| == |blks|
  {
    Dropped(blks[dst := blks[src]], src)
  }

  /** A map that agrees with every valid block, and has no other keys, is the contents. */
  lemma ContentsIs(blks: seq<Block>, m: map<Key, seq<byte>>)
    requires KeysUnique(blks)
    requires forall s :: 0 <= s < |blks| && blks[s].valid ==> KeyOf(blks[s]) in m && m[KeyOf(blks[s])] == blks[s].data
    requires forall k :: k in m ==> Holds(blks, k)
    ensures Contents(blks) == m
  {
    forall k ensures k in Contents(blks) <==> k in m {}
    forall k | k in m ensures Contents(blks)[k] == m[k] {
      var s := ContentsSlot(blks, k);
    }
  }

  lemma DropBlock(ix: H3, blks: seq<Block>, s: nat)
    requires Shape(ix, blks) && Placed(ix, blks) && KeysUnique(blks) && s < |blks|
    ensures Placed(ix, Dropped(blks, s)) && KeysUnique(Dropped(blks, s))
    ensures Contents(Dropped(blks, s)) == Without(Contents(blks), blks[s])
  {
    DropUnique(blks, s);
    DropContents(blks, s);
  }

  lemma DropUnique(blks: seq<Block>, s: nat)
    requires KeysUnique(blks) && s < |blks|
    ensures KeysUnique(Dropped(blks, s))
  {
  }

  lemma DropContents(blks: seq<Block>, s: nat)
    requires KeysUnique(blks) && s < |blks| && KeysUnique(Dropped(blks, s))
    ensures Contents(Dropped(blks, s)) == Without(Contents(blks), blks[s])
  {
    var blks' := Dropped(blks, s);
    var m := Without(Contents(blks), blks[s]);
    forall t: nat | t < |blks'| && blks'[t].valid
      ensures KeyOf(blks'[t]) in m && m[KeyOf(blks'[t])] == blks'[t].data
    {
      ContentsAt(blks, t);
    }
    forall k | k in m ensures Holds(blks', k) {
      var t := ContentsSlot(blks, k);
      assert t != s && blks'[t].valid;
    }
    ContentsIs(blks', m);
  }

  lemma MoveBlock(ix: H3, blks: seq<Block>, src: nat, dst: nat)
    requires Shape(ix, blks) && Placed(ix, blks) && KeysUnique(blks) && src < |blks| && dst < |blks|
    requires blks[src].valid && !blks[dst].valid && Home(ix, blks[src].tag, dst)
    ensures Placed(ix, Moved(blks, src, dst)) && KeysUnique(Moved(blks, src, dst))
    ensures Contents(Moved(blks, src, dst)) == Contents(blks)
  {
    MoveUnique(blks, src, dst);
    MoveContents(blks, src, dst);
  }

  lemma MoveUnique(blks: seq<Block>, src: nat, dst: nat)
    requires KeysUnique(blks) && src < |blks| && dst < |blks| && blks[src].valid && !blks[dst].valid
    ensures KeysUnique(Moved(blks, src, dst))
  {
  }

  lemma MoveContents(blks: seq<Block>, src: nat, dst: nat)
    requires KeysUnique(blks) && src < |blks| && dst < |blks| && blks[src].valid && !blks[dst].valid
    requires KeysUnique(Moved(blks, src, dst))
    ensures Contents(Moved(blks, src, dst)) == Contents(blks)
  {
    var blks' := Moved(blks, src, dst);
    forall t: nat | t < |blks'| && blks'[t].valid
      ensures KeyOf(blks'[t]) in Contents(blks) && Contents(blks)[KeyOf(blks'[t])] == blks'[t].data
    {
      ContentsAt(blks, if t == dst then src else t);
    }
    forall k | k in Contents(blks) ensures Holds(blks', k) {
      var t := ContentsSlot(blks, k);
      assert KeyOf(blks'[if t == src then dst else t]) == k;
    }
    ContentsIs(blks', Contents(blks));
  }

  lemma PlaceBlock(ix: H3, blks: seq<Block>, s: nat, b: Block)
    requires Shape(ix, blks) && Placed(ix, blks) && KeysUnique(blks) && s < |blks|
    requires b.valid && !blks[s].valid && Home(ix, b.tag, s) && KeyOf(b) !in Contents(blks)
    ensures Placed(ix, blks[s := b]) && KeysUnique(blks[s := b])
    ensures Contents(blks[s := b]) == Contents(blks)[KeyOf(b) := b.data]
  {
    PlaceUnique(blks, s, b);
    PlaceContents(blks, s, b);
  }

  lemma PlaceUnique(blks: seq<Block>, s: nat, b: Block)
    requires KeysUnique(blks) && s < |blks| && b.valid && !blks[s].valid && KeyOf(b) !in Contents(blks)
    ensures KeysUnique(blks[s := b])
  {
    forall t: nat | t < |blks| && blks[t].valid ensures KeyOf(blks[t]) != KeyOf(b) { ContentsAt(blks, t); }
  }

  lemma PlaceContents(blks: seq<Block>, s: nat, b: Block)
    requires KeysUnique(blks) && s < |blks| && b.valid && !blks[s].valid && KeyOf(b) !in Contents(blks)
    requires KeysUnique(blks[s := b])
    ensures Contents(blks[s := b]) == Contents(blks)[KeyOf(b) := b.data]
  {
    var blks' := blks[s := b];
    var m := Contents(blks)[KeyOf(b) := b.data];
    forall t: nat | t < |blks'| && blks'[t].valid
      ensures KeyOf(blks'[t]) in m && m[KeyOf(blks'[t])] == blks'[t].data
    {
      if t != s { ContentsAt(blks, t); }
    }
    forall k | k in m ensures Holds(blks', k) {
      if k == KeyOf(b) {
        assert KeyOf(blks'[s]) == k;
      } else {
        var t := ContentsSlot(blks, k);
        assert t != s && blks'[t].valid;
      }
    }
    ContentsIs(blks', m);
  }

  lemma UpdateBlock(ix: H3, blks: seq<Block>, s: nat, d: seq<byte>)
    requires Shape(ix, blks) && Placed(ix, blks) && KeysUnique(blks) && s < |blks| && blks[s].valid
    ensures var blks' := blks[s := blks[s].(data := d)];
            Placed(ix, blks') && KeysUnique(blks') && Contents(blks') == Contents(blks)[KeyOf(blks[s]) := d]
  {
    var blks' := blks[s := blks[s].(data := d)];
    UpdateUnique(blks, s, d);
    var m := Contents(blks)[KeyOf(blks[s]) := d];
    forall t: nat | t < |blks'| && blks'[t].valid
      ensures KeyOf(blks'[t]) in m && m[KeyOf(blks'[t])] == blks'[t].data
    {
      ContentsAt(blks, t);
    }
    forall k | k in m ensures Holds(blks', k) {
      ContentsAt(blks, s);
      var t := ContentsSlot(blks, k);
      assert KeyOf(blks'[t]) == k;
    }
    ContentsIs(blks', m);
  }

  lemma UpdateUnique(blks: seq<Block>, s: nat, d: seq<byte>)
    requires KeysUnique(blks) && s < |blks|
    ensures KeysUnique(blks[s := blks[s].(data := d)])
  {
  }

  // ---------------------------------------------------------------- the pending chain

  ghost predicate Root(ix: H3, addr: nat, s: nat)
    requires ix.Valid()
  {
    exists w: nat :: w < ix.ways && s == HomeSlot(ix, addr, w)
  }

  /** The chain may be executed: no slot twice, it ends at a slot for the address, and every block
      still on it may move one slot towards the victim. */
  ghost predicate Ready(ix: H3, blks: seq<Block>, addr: nat, chain: seq<nat>)
    requires ix.Valid()
  {
    && |chain| >= 1
    && Distinct(chain)
    && (forall i :: 0 <= i < |chain| ==> chain[i] < |blks|)
    && Root(ix, addr, chain[|chain| - 1])
    && (forall i :: 1 <= i < |chain| && blks[chain[i]].valid ==> Home(ix, blks[chain[i]].tag, chain[i - 1]))
  }

  lemma KidIsHome(ix: H3, blks: seq<Block>, s: nat, j: nat)
    requires Shape(ix, blks) && s < |blks| && j < ix.ways - 1
    ensures Home(ix, blks[s].tag, KidSlot(ix, blks, s, j))
  {
    HomeSlotParts(ix, blks[s].tag, OtherWay(SlotWay(ix, s), j));
  }

  lemma {:induction false} ChainHomes(ix: H3, blks: seq<Block>, addr: nat, k: nat)
    requires Shape(ix, blks)
    ensures var c := ChainOf(GraphOf(ix, blks, addr), k);
            && Root(ix, addr, c[|c| - 1])
            && (forall i :: 0 <= i < |c| ==> c[i] < |blks|)
            && (forall i :: 1 <= i < |c| ==> Home(ix, blks[c[i]].tag, c[i - 1]))
    decreases k
  {
    if k < ix.ways {
      assert ChainOf(GraphOf(ix, blks, addr), k) == [HomeSlot(ix, addr, k)];
    } else {
      var p := Parent(ix.ways, k);
      ChainHomes(ix, blks, addr, p);
      KidIsHome(ix, blks, SlotAt(GraphOf(ix, blks, addr), p), KidNumber(ix.ways, k));
      var c, up := ChainOf(GraphOf(ix, blks, addr), k), ChainOf(GraphOf(ix, blks, addr), p);
      assert c == [SlotAt(GraphOf(ix, blks, addr), k)] + up;
      forall i | 1 <= i < |c| ensures Home(ix, blks[c[i]].tag, c[i - 1]) {
        if i >= 2 { assert c[i] == up[i - 1] && c[i - 1] == up[i - 2]; }
      }
    }
  }

  lemma ChainReady(ix: H3, blks: seq<Block>, addr: nat, k: nat)
    requires Shape(ix, blks) && First(GraphOf(ix, blks, addr), k)
    ensures Ready(ix, blks, addr, ChainOf(GraphOf(ix, blks, addr), k))
  {
    ChainDistinct(GraphOf(ix, blks, addr), k);
    ChainHomes(ix, blks, addr, k);
  }

  /** The listed slots have been invalidated and the others are as they were. */
  ghost predicate SlotsEmptied(was: seq<Block>, now: seq<Block>, slots: seq<nat>) {
    |now| == |was| && forall s :: 0 <= s < |was| ==> if s in slots then !now[s].valid else now[s] == was[s]
  }

  /** Invalidating slots between findVictim and insertBlock leaves the chain executable. */
  lemma EmptiedReady(ix: H3, was: seq<Block>, now: seq<Block>, slots: seq<nat>, addr: nat, chain: seq<nat>)
    requires ix.Valid() && SlotsEmptied(was, now, slots)
    requires Ready(ix, was, addr, chain) && (!was[chain[0]].valid || chain[0] in slots)
    ensures Ready(ix, now, addr, chain) && !now[chain[0]].valid
  {
  }

  /** The chain executed up to position i: the blocks before i have moved one slot, the slot before i
      is empty, the rest is as it was. */
  ghost predicate Shifted(was: seq<Block>, blks: seq<Block>, chain: seq<nat>, i: nat)
    requires 1 <= i <= |chain| && forall j :: 0 <= j < |chain| ==> chain[j] < |was|
  {
    && |blks| == |was|
    && !blks[chain[i - 1]].valid
    && (forall j :: i <= j < |chain| ==> blks[chain[j]] == was[chain[j]])
    && (forall j :: 1 <= j < i && was[chain[j]].valid ==> blks[chain[j - 1]] == was[chain[j]])
    && (forall s :: 0 <= s < |was| && s !in chain ==> blks[s] == was[s])
  }

  lemma ShiftStep(ix: H3, was: seq<Block>, blks: seq<Block>, addr: nat, chain: seq<nat>, i: nat)
    requires ix.Valid() && Ready(ix, was, addr, chain) && 1 <= i < |chain| && Shifted(was, blks, chain, i)
    ensures blks[chain[i]].valid ==>
              && Home(ix, blks[chain[i]].tag, chain[i - 1])
              && Shifted(was, Moved(blks, chain[i], chain[i - 1]), chain, i + 1)
    ensures !blks[chain[i]].valid ==> Shifted(was, blks, chain, i + 1)
  {
    assert blks[chain[i]] == was[chain[i]] && chain[i] in chain && chain[i - 1] in chain;
  }

  /** What an insertion does to the array, apart from the new block: the chain's blocks move one slot
      towards its head, and the slots off the chain stay as they are. */
  ghost predicate Relocated(was: seq<Block>, blks: seq<Block>, chain: seq<nat>)
    requires forall j :: 0 <= j < |chain| ==> chain[j] < |was|
  {
    && |blks| == |was|
    && (forall j :: 1 <= j < |chain| && was[chain[j]].valid ==> blks[chain[j - 1]] == was[chain[j]])
    && (forall s :: 0 <= s < |was| && s !in chain ==> blks[s] == was[s])
  }

  /** The chain has been executed; a chain of one slot moves nothing. */
  ghost predicate ChainRun(was: seq<Block>, mid: seq<Block>, chain: seq<nat>) {
    && |chain| >= 1 && Distinct(chain) && (forall j :: 0 <= j < |chain| ==> chain[j] < |was|)
    && ((|chain| == 1 && mid == was) || Shifted(was, mid, chain, |chain|))
  }

  lemma PlacedRelocated(was: seq<Block>, mid: seq<Block>, chain: seq<nat>, b: Block)
    requires ChainRun(was, mid, chain)
    ensures Relocated(was, mid[chain[|chain| - 1] := b], chain)
  {
    var root := chain[|chain| - 1];
    forall j | 1 <= j < |chain| && was[chain[j]].valid ensures mid[root := b][chain[j - 1]] == was[chain[j]] {
      assert chain[j - 1] != root;
    }
    assert root in chain;
  }

  lemma RootIsHome(ix: H3, r: Request, s: nat)
    requires ix.Valid() && Root(ix, r.address, s)
    ensures Home(ix, ExtractTag(ix, r.address), s)
  {
    var w: nat :| w < ix.ways && s == HomeSlot(ix, r.address, w);
    HomeSlotParts(ix, r.address, w);
    TagSelectsSameSets(ix, r.address, w);
  }

  // ---------------------------------------------------------------- pool holdings

  /** One slot has been touched, as the n-th touch. */
  ghost predicate Stamped(was: seq<nat>, now: seq<nat>, s: nat, n: nat) {
    s < |was| && now == was[s := n]
  }

  /** The blocks on the chain, before position i, that move. */
  ghost function Moves(blks: seq<Block>, chain: seq<nat>, i: nat): nat
    requires i <= |chain| && forall j :: 0 <= j < |chain| ==> chain[j] < |blks|
  {
    if i <= 1 then 0 else Moves(blks, chain, i - 1) + if blks[chain[i - 1]].valid then 1 else 0
  }

  /** Slots off the chain keep their touches. */
  ghost predicate SameTouches(was: seq<nat>, now: seq<nat>, chain: seq<nat>) {
    |now| == |was| && forall s :: 0 <= s < |was| && s !in chain ==> now[s] == was[s]
  }

  lemma MoveTouches(was: seq<nat>, mid: seq<nat>, chain: seq<nat>, i: nat, n: nat)
    requires SameTouches(was, mid, chain) && 1 <= i < |chain| && chain[i] < |was| && chain[i - 1] < |was|
    ensures SameTouches(was, mid[chain[i] := 0][chain[i - 1] := n], chain)
  {
  }

  /** Every valid block has been touched since it was last invalidated. */
  ghost predicate TouchedOk(blks: seq<Block>, touchedAt: seq<nat>) {
    |touchedAt| == |blks| && forall s :: 0 <= s < |blks| && blks[s].valid ==> touchedAt[s] > 0
  }

  /** A pool region owned by a block, with the bytes it was filled with. */
  datatype Holding = Holding(ptr: nat, size: nat, bytes: seq<byte>)

  /** The per-slot metadata arrays, and the ghost record of what each fill wrote. */
  datatype Meta = Meta(ptrs: seq<nat>, sizes: seq<nat>, filled: seq<seq<byte>>) {
    ghost predicate Sized(n: nat) { |ptrs| == n && |sizes| == n && |filled| == n }

    ghost predicate Owns(s: nat) { s < |ptrs| && ptrs[s] != ALLOC_FAIL }

    function At(s: nat): Holding
      requires s < |ptrs| && s < |sizes| && s < |filled|
    {
      Holding(ptrs[s], sizes[s], filled[s])
    }
  }

  /** Only valid slots own a region, a slot owns one exactly when its recorded size is positive, and
      no two slots own the same region. */
  ghost predicate MetaOk(blks: seq<Block>, m: Meta) {
    && m.Sized(|blks|)
    && (forall s: nat :: s < |blks| && m.Owns(s) ==> blks[s].valid)
    && (forall s: nat :: s < |blks| ==> (m.Owns(s) <==> m.sizes[s] > 0))
    && (forall s: nat, t: nat :: s < t < |blks| && m.Owns(s) && m.Owns(t) ==> m.ptrs[s] != m.ptrs[t])
  }

  ghost function Holdings(m: Meta): set<Holding>
    requires m.Sized(|m.ptrs|)
  {
    set s: nat | s < |m.ptrs| && m.Owns(s) :: m.At(s)
  }

  function MetaSet(m: Meta, s: nat, h: Holding): (r: Meta)
    requires s < |m.ptrs| && s < |m.sizes| && s < |m.filled|
  {
    Meta(m.ptrs[s := h.ptr], m.sizes[s := h.size], m.filled[s := h.bytes])
  }

  const NONE := Holding(ALLOC_FAIL, 0, [])

  function MetaClear(m: Meta, s: nat): Meta
    requires s < |m.ptrs| && s < |m.sizes| && s < |m.filled|
  {
    MetaSet(m, s, NONE)
  }

  function MetaMove(m: Meta, src: nat, dst: nat): Meta
    requires m.Sized(|m.ptrs|) && src < |m.ptrs| && dst < |m.ptrs|
  {
    MetaClear(MetaSet(m, dst, m.At(src)), src)
  }

  lemma HoldingSlot(m: Meta, h: Holding) returns (s: nat)
    requires m.Sized(|m.ptrs|) && h in Holdings(m)
    ensures s < |m.ptrs| && m.Owns(s) && m.At(s) == h
  {
    s :| s < |m.ptrs| && m.Owns(s) && m.At(s) == h;
  }

  lemma HoldingAt(m: Meta, s: nat)
    requires m.Sized(|m.ptrs|) && m.Owns(s)
    ensures m.At(s) in Holdings(m)
  {
  }

  lemma ClearMeta(blks: seq<Block>, m: Meta, s: nat)
    requires MetaOk(blks, m) && s < |blks|
    ensures MetaOk(Dropped(blks, s), MetaClear(m, s))
    ensures Holdings(MetaClear(m, s)) == if m.Owns(s) then Holdings(m) - {m.At(s)} else Holdings(m)
  {
    var m' := MetaClear(m, s);
    forall h ensures h in Holdings(m') <==> h in Holdings(m) && !(m.Owns(s) && h == m.At(s)) {
      if h in Holdings(m) {
        var t := HoldingSlot(m, h);
        if t != s { HoldingAt(m', t); assert m'.At(t) == h; }
      }
      if h in Holdings(m') {
        var t := HoldingSlot(m', h);
        HoldingAt(m, t);
        assert m.At(t) == h;
      }
    }
  }

  lemma MoveMeta(blks: seq<Block>, m: Meta, src: nat, dst: nat)
    requires MetaOk(blks, m) && src < |blks| && dst < |blks| && blks[src].valid && !blks[dst].valid
    ensures MetaOk(Moved(blks, src, dst), MetaMove(m, src, dst))
    ensures Holdings(MetaMove(m, src, dst)) == Holdings(m)
  {
    var m' := MetaMove(m, src, dst);
    forall h ensures h in Holdings(m') <==> h in Holdings(m) {
      if h in Holdings(m) {
        var t := HoldingSlot(m, h);
        HoldingAt(m', if t == src then dst else t);
      }
      if h in Holdings(m') {
        var t := HoldingSlot(m', h);
        HoldingAt(m, if t == dst then src else t);
      }
    }
  }

  lemma GrantMeta(blks: seq<Block>, m: Meta, s: nat, h: Holding)
    requires MetaOk(blks, m) && s < |blks| && blks[s].valid && !m.Owns(s)
    requires h.ptr != ALLOC_FAIL && h.size > 0
    requires forall g :: g in Holdings(m) ==> g.ptr != h.ptr
    ensures MetaOk(blks, MetaSet(m, s, h))
    ensures Holdings(MetaSet(m, s, h)) == Holdings(m) + {h}
  {
    var m' := MetaSet(m, s, h);
    forall t: nat | t < |blks| && m.Owns(t) ensures m.ptrs[t] != h.ptr { HoldingAt(m, t); }
    forall g ensures g in Holdings(m') <==> g in Holdings(m) || g == h {
      HoldingAt(m', s);
      if g in Holdings(m) {
        var t := HoldingSlot(m, g);
        HoldingAt(m', t);
        assert m'.At(t) == g;
      }
      if g in Holdings(m') {
        var t := HoldingSlot(m', g);
        if t != s { HoldingAt(m, t); assert m.At(t) == g; }
      }
    }
  }

  lemma PlaceMeta(blks: seq<Block>, m: Meta, s: nat, b: Block)
    requires MetaOk(blks, m) && s < |blks| && !blks[s].valid && b.valid
    ensures MetaOk(blks[s := b], m)
  {
  }

  // ---------------------------------------------------------------- holdings by key

  /** The block in slot s owns a region. */
  ghost predicate Holder(blks: seq<Block>, m: Meta, s: nat) {
    s < |blks| && blks[s].valid && m.Owns(s)
  }

  /** Which key holds which region. */
  ghost function Holders(blks: seq<Block>, m: Meta): map<Key, Holding>
    requires KeysUnique(blks) && m.Sized(|blks|)
  {
    map s | 0 <= s < |blks| && Holder(blks, m, s) :: KeyOf(blks[s]) := m.At(s)
  }

  ghost predicate HeldBy(blks: seq<Block>, m: Meta, k: Key) {
    exists s: nat :: Holder(blks, m, s) && KeyOf(blks[s]) == k
  }

  lemma HolderAt(blks: seq<Block>, m: Meta, s: nat)
    requires KeysUnique(blks) && m.Sized(|blks|) && Holder(blks, m, s)
    ensures KeyOf(blks[s]) in Holders(blks, m) && Holders(blks, m)[KeyOf(blks[s])] == m.At(s)
  {
  }

  lemma HolderSlot(blks: seq<Block>, m: Meta, k: Key) returns (s: nat)
    requires KeysUnique(blks) && m.Sized(|blks|) && k in Holders(blks, m)
    ensures Holder(blks, m, s) && KeyOf(blks[s]) == k
  {
    s :| 0 <= s < |blks| && Holder(blks, m, s) && KeyOf(blks[s]) == k;
  }

  lemma NotHolder(blks: seq<Block>, m: Meta, s: nat)
    requires KeysUnique(blks) && m.Sized(|blks|) && s < |blks| && blks[s].valid && !m.Owns(s)
    ensures KeyOf(blks[s]) !in Holders(blks, m)
  {
    if KeyOf(blks[s]) in Holders(blks, m) {
      var t := HolderSlot(blks, m, KeyOf(blks[s]));
    }
  }

  /** A map that agrees with every owning block, and has no other keys, is the map of holders. */
  lemma HoldersIs(blks: seq<Block>, m: Meta, hs: map<Key, Holding>)
    requires KeysUnique(blks) && m.Sized(|blks|)
    requires forall s: nat :: Holder(blks, m, s) ==> KeyOf(blks[s]) in hs && hs[KeyOf(blks[s])] == m.At(s)
    requires forall k :: k in hs ==> HeldBy(blks, m, k)
    ensures Holders(blks, m) == hs
  {
    forall k ensures k in Holders(blks, m) <==> k in hs {}
    forall k | k in hs ensures Holders(blks, m)[k] == hs[k] {
      var s := HolderSlot(blks, m, k);
    }
  }

  /** Dropping a block takes its holding from its key and from no other. */
  lemma DropHolder(blks: seq<Block>, m: Meta, s: nat)
    requires KeysUnique(blks) && m.Sized(|blks|) && s < |blks| && KeysUnique(Dropped(blks, s))
    ensures Holders(Dropped(blks, s), MetaClear(m, s)) == Without(Holders(blks, m), blks[s])
  {
    var blks', m' := Dropped(blks, s), MetaClear(m, s);
    var hs := Without(Holders(blks, m), blks[s]);
    forall t: nat | Holder(blks', m', t)
      ensures KeyOf(blks'[t]) in hs && hs[KeyOf(blks'[t])] == m'.At(t)
    {
      HolderAt(blks, m, t);
    }
    forall k | k in hs ensures HeldBy(blks', m', k) {
      var t := HolderSlot(blks, m, k);
      assert t != s && Holder(blks', m', t);
    }
    HoldersIs(blks', m', hs);
  }

  /** A relocation leaves every region with the key that held it. */
  lemma MoveHolder(blks: seq<Block>, m: Meta, src: nat, dst: nat)
    requires KeysUnique(blks) && m.Sized(|blks|) && src < |blks| && dst < |blks|
    requires blks[src].valid && !blks[dst].valid && KeysUnique(Moved(blks, src, dst))
    ensures Holders(Moved(blks, src, dst), MetaMove(m, src, dst)) == Holders(blks, m)
  {
    var blks', m' := Moved(blks, src, dst), MetaMove(m, src, dst);
    forall t: nat | Holder(blks', m', t)
      ensures KeyOf(blks'[t]) in Holders(blks, m) && Holders(blks, m)[KeyOf(blks'[t])] == m'.At(t)
    {
      HolderAt(blks, m, if t == dst then src else t);
    }
    forall k | k in Holders(blks, m) ensures HeldBy(blks', m', k) {
      var t := HolderSlot(blks, m, k);
      var t' := if t == src then dst else t;
      assert Holder(blks', m', t') && KeyOf(blks'[t']) == k;
    }
    HoldersIs(blks', m', Holders(blks, m));
  }

  /** A block placed in a slot that owns nothing holds nothing. */
  lemma PlaceHolder(blks: seq<Block>, m: Meta, s: nat, b: Block)
    requires KeysUnique(blks) && MetaOk(blks, m) && s < |blks| && !blks[s].valid && KeysUnique(blks[s := b])
    ensures Holders(blks[s := b], m) == Holders(blks, m)
  {
    var blks' := blks[s := b];
    forall t: nat | Holder(blks', m, t)
      ensures KeyOf(blks'[t]) in Holders(blks, m) && Holders(blks, m)[KeyOf(blks'[t])] == m.At(t)
    {
      HolderAt(blks, m, t);
    }
    forall k | k in Holders(blks, m) ensures HeldBy(blks', m, k) {
      var t := HolderSlot(blks, m, k);
      assert t != s && Holder(blks', m, t);
    }
    HoldersIs(blks', m, Holders(blks, m));
  }

  /** A granted region goes to the key of its block. */
  lemma GrantHolder(blks: seq<Block>, m: Meta, s: nat, h: Holding)
    requires KeysUnique(blks) && m.Sized(|blks|) && s < |blks| && blks[s].valid && h.ptr != ALLOC_FAIL
    ensures Holders(blks, MetaSet(m, s, h)) == Holders(blks, m)[KeyOf(blks[s]) := h]
  {
    var m' := MetaSet(m, s, h);
    var hs := Holders(blks, m)[KeyOf(blks[s]) := h];
    forall t: nat | Holder(blks, m', t)
      ensures KeyOf(blks[t]) in hs && hs[KeyOf(blks[t])] == m'.At(t)
    {
      if t != s { HolderAt(blks, m, t); }
    }
    forall k | k in hs ensures HeldBy(blks, m', k) {
      if k == KeyOf(blks[s]) {
        assert Holder(blks, m', s);
      } else {
        var t := HolderSlot(blks, m, k);
        assert Holder(blks, m', t);
      }
    }
    HoldersIs(blks, m', hs);
  }

  /** Changing a block's data changes no holding. */
  lemma UpdateHolder(blks: seq<Block>, m: Meta, s: nat, d: seq<byte>)
    requires KeysUnique(blks) && m.Sized(|blks|) && s < |blks| && KeysUnique(blks[s := blks[s].(data := d)])
    ensures Holders(blks[s := blks[s].(data := d)], m) == Holders(blks, m)
  {
    var blks' := blks[s := blks[s].(data := d)];
    forall t: nat | Holder(blks', m, t)
      ensures KeyOf(blks'[t]) in Holders(blks, m) && Holders(blks, m)[KeyOf(blks'[t])] == m.At(t)
    {
      HolderAt(blks, m, t);
    }
    forall k | k in Holders(blks, m) ensures HeldBy(blks', m, k) {
      var t := HolderSlot(blks, m, k);
      assert Holder(blks', m, t);
    }
    HoldersIs(blks', m, Holders(blks, m));
  }
}
