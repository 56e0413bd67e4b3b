/** The replacement walk as a tree. The source lists candidates breadth first and keeps no visited
    set; here candidate k is computed directly, for every k, and the list the source builds is a
    prefix of that sequence. */
module ZCacheWalk {
  import opened Bits

  /** The slots a key may be inserted in, the other slots where the occupant of each slot may live,
      and which slots hold a block. */
  datatype Graph = Graph(roots: seq<nat>, kids: seq<seq<nat>>, full: seq<bool>) {
    function Ways(): nat { |roots| }

    ghost predicate Valid() {
      && |roots| >= 2
      && |full| == |kids|
      && (forall w :: 0 <= w < |roots| ==> roots[w] < |kids|)
      && (forall s :: 0 <= s < |kids| ==> |kids[s]| == |roots| - 1)
      && (forall s, j :: 0 <= s < |kids| && 0 <= j < |roots| - 1 ==> kids[s][j] < |kids|)
    }
  }

  // ---------------------------------------------------------------- candidate numbering

  /** Candidates before the children of candidate p: the roots, and the children of 0 .. p - 1. */
  function FirstKid(ways: nat, p: nat): (k: nat)
    requires ways >= 2
    ensures k > p && k >= ways
    decreases p
  {
    if p == 0 then ways else FirstKid(ways, p - 1) + (ways - 1)
  }

  /** The candidate whose block could move to the slot of candidate k. */
  function Parent(ways: nat, k: nat): (p: nat)
    requires ways >= 2 && k >= ways
    ensures p < k
    decreases k
  {
    if k < ways + (ways - 1) then 0 else Parent(ways, k - (ways - 1)) + 1
  }

  /** Which of its parent's children candidate k is. */
  function KidNumber(ways: nat, k: nat): (j: nat)
    requires ways >= 2 && k >= ways
    ensures j < ways - 1
    decreases k
  {
    if k < ways + (ways - 1) then k - ways else KidNumber(ways, k - (ways - 1))
  }

  /** The numbering in closed form. */
  lemma {:induction false} ParentFormula(ways: nat, k: nat)
    requires ways >= 2 && k >= ways
    ensures Parent(ways, k) == (k - ways) / (ways - 1)
    ensures KidNumber(ways, k) == (k - ways) % (ways - 1)
    decreases k
  {
    var d := ways - 1;
    if k < ways + d {
      QuotientUnique(k - ways, d, 0, k - ways);
    } else {
      ParentFormula(ways, k - d);
      QuotientUnique(k - ways, d, Parent(ways, k - d) + 1, KidNumber(ways, k - d));
    }
  }

  lemma {:induction false} FirstKidFormula(ways: nat, p: nat)
    requires ways >= 2
    ensures FirstKid(ways, p) == ways + p * (ways - 1)
    decreases p
  {
    if p > 0 { FirstKidFormula(ways, p - 1); }
  }

  lemma {:induction false} KidOf(ways: nat, p: nat, j: nat)
    requires ways >= 2 && j < ways - 1
    ensures Parent(ways, FirstKid(ways, p) + j) == p && KidNumber(ways, FirstKid(ways, p) + j) == j
    decreases p
  {
    if p > 0 { KidOf(ways, p - 1, j); }
  }

  lemma {:induction false} KidIndex(ways: nat, k: nat)
    requires ways >= 2 && k >= ways
    ensures k == FirstKid(ways, Parent(ways, k)) + KidNumber(ways, k)
    decreases k
  {
    if k >= ways + (ways - 1) { KidIndex(ways, k - (ways - 1)); }
  }

  lemma {:induction false} FirstKidMono(ways: nat, p: nat, q: nat)
    requires ways >= 2 && p <= q
    ensures FirstKid(ways, p) + (q - p) <= FirstKid(ways, q)
    decreases q
  {
    if p < q { FirstKidMono(ways, p, q - 1); }
  }

  // ---------------------------------------------------------------- candidate slots

  /** The slot of candidate k. */
  function SlotAt(g: Graph, k: nat): (s: nat)
    requires g.Valid()
    ensures s < |g.kids|
    decreases k
  {
    if k < g.Ways() then g.roots[k]
    else g.kids[SlotAt(g, Parent(g.Ways(), k))][KidNumber(g.Ways(), k)]
  }

  lemma KidSlotAt(g: Graph, p: nat, j: nat)
    requires g.Valid() && j < g.Ways() - 1
    ensures SlotAt(g, FirstKid(g.Ways(), p) + j) == g.kids[SlotAt(g, p)][j]
  {
    KidOf(g.Ways(), p, j);
  }

  /** Candidate k is the first one with its slot. */
  ghost predicate First(g: Graph, k: nat)
    requires g.Valid()
  {
    forall i: nat :: i < k ==> SlotAt(g, i) != SlotAt(g, k)
  }

  /** If a candidate is the first with its slot then so is its parent: an earlier copy of the parent
      would have listed the same slots earlier. */
  lemma FirstParent(g: Graph, k: nat)
    requires g.Valid() && k >= g.Ways() && First(g, k)
    ensures First(g, Parent(g.Ways(), k))
  {
    var p, j := Parent(g.Ways(), k), KidNumber(g.Ways(), k);
    KidIndex(g.Ways(), k);
    KidSlotAt(g, p, j);
    forall q: nat | q < p ensures SlotAt(g, q) != SlotAt(g, p) {
      KidSlotAt(g, q, j);
      FirstKidMono(g.Ways(), q, p);
      EarlierSlot(g, FirstKid(g.Ways(), q) + j, k);
    }
  }

  lemma EarlierSlot(g: Graph, i: nat, k: nat)
    requires g.Valid() && First(g, k) && i < k
    ensures SlotAt(g, i) != SlotAt(g, k)
  {
  }

  // ---------------------------------------------------------------- relocation chains

  /** The slots from candidate k up to its root: what findVictim stores in pendingSwapChain. */
  function ChainOf(g: Graph, k: nat): (c: seq<nat>)
    requires g.Valid()
    ensures |c| >= 1 && c[0] == SlotAt(g, k)
    decreases k
  {
    [SlotAt(g, k)] + if k < g.Ways() then [] else ChainOf(g, Parent(g.Ways(), k))
  }

  /** The rest of a chain, by parent link; -1 ends it. */
  function ChainFrom(g: Graph, idx: int): seq<nat>
    requires g.Valid()
  {
    if idx < 0 then [] else ChainOf(g, idx)
  }

  ghost predicate Distinct(c: seq<nat>) {
    forall i, j :: 0 <= i < j < |c| ==> c[i] != c[j]
  }

  lemma {:induction false} ChainMembers(g: Graph, k: nat, s: nat)
    requires g.Valid() && s in ChainOf(g, k)
    ensures exists i: nat :: i <= k && SlotAt(g, i) == s
    decreases k
  {
    if s != SlotAt(g, k) {
      ChainMembers(g, Parent(g.Ways(), k), s);
    }
  }

  /** No physical slot occurs twice in the chain of a first occurrence, although the walk itself may
      list a slot many times. */
  lemma {:induction false} ChainDistinct(g: Graph, k: nat)
    requires g.Valid() && First(g, k)
    ensures Distinct(ChainOf(g, k))
    decreases k
  {
    if k >= g.Ways() {
      var p := Parent(g.Ways(), k);
      FirstParent(g, k);
      ChainDistinct(g, p);
      var up := ChainOf(g, p);
      forall i | 0 <= i < |up| ensures up[i] != SlotAt(g, k) {
        ChainMembers(g, p, up[i]);
      }
    }
  }

  /** Slot d is one of the slots where the block in slot s may live. */
  ghost predicate Edge(g: Graph, s: nat, d: nat)
    requires g.Valid()
  {
    s < |g.kids| && exists j: nat :: j < g.Ways() - 1 && d == g.kids[s][j]
  }

  /** A relocation path: from a slot where the key may be inserted, along slots to which the
      occupant of the previous slot may move. */
  ghost predicate IsPath(g: Graph, path: seq<nat>)
    requires g.Valid()
  {
    && |path| >= 1
    && path[0] in g.roots
    && forall i :: 1 <= i < |path| ==> Edge(g, path[i - 1], path[i])
  }

  function Reversed(c: seq<nat>): (r: seq<nat>)
    ensures |r| == |c|
    ensures forall i :: 0 <= i < |c| ==> r[i] == c[|c| - 1 - i]
  {
    if |c| == 0 then [] else Reversed(c[1..]) + [c[0]]
  }

  /** Read from root to victim, the chain is a relocation path. */
  lemma {:induction false} ChainIsPath(g: Graph, k: nat)
    requires g.Valid()
    ensures IsPath(g, Reversed(ChainOf(g, k)))
    decreases k
  {
    var r := Reversed(ChainOf(g, k));
    if k < g.Ways() {
      assert r[0] == g.roots[k];
    } else {
      var p := Parent(g.Ways(), k);
      ChainIsPath(g, p);
      var up := Reversed(ChainOf(g, p));
      assert ChainOf(g, k)[1..] == ChainOf(g, p);
      assert r == up + [SlotAt(g, k)];
      assert Edge(g, SlotAt(g, p), SlotAt(g, k));
      forall i | 1 <= i < |r| ensures Edge(g, r[i - 1], r[i]) {
        if i < |up| { assert Edge(g, up[i - 1], up[i]); }
      }
    }
  }

  // ---------------------------------------------------------------- shortest paths

  /** The walk level of candidate k: the length of its chain. */
  function Depth(ways: nat, k: nat): (d: nat)
    requires ways >= 2
    ensures d >= 1
    decreases k
  {
    if k < ways then 1 else 1 + Depth(ways, Parent(ways, k))
  }

  lemma {:induction false} ChainLength(g: Graph, k: nat)
    requires g.Valid()
    ensures |ChainOf(g, k)| == Depth(g.Ways(), k)
    decreases k
  {
    if k >= g.Ways() { ChainLength(g, Parent(g.Ways(), k)); }
  }

  lemma ParentMono(ways: nat, i: nat, k: nat)
    requires ways >= 2 && ways <= i <= k
    ensures Parent(ways, i) <= Parent(ways, k)
  {
    var p, q := Parent(ways, i), Parent(ways, k);
    KidIndex(ways, i);
    KidIndex(ways, k);
    if q < p {
      FirstKidMono(ways, q + 1, p);
    }
  }

  lemma {:induction false} DepthMono(ways: nat, i: nat, k: nat)
    requires ways >= 2 && i <= k
    ensures Depth(ways, i) <= Depth(ways, k)
    decreases k
  {
    if i >= ways {
      ParentMono(ways, i, k);
      DepthMono(ways, Parent(ways, i), Parent(ways, k));
    }
  }

  /** Every relocation path is followed by some candidate. */
  lemma {:induction false} PathCandidate(g: Graph, path: seq<nat>) returns (k: nat)
    requires g.Valid() && IsPath(g, path)
    ensures SlotAt(g, k) == path[|path| - 1] && Depth(g.Ways(), k) == |path|
    decreases |path|
  {
    if |path| == 1 {
      k :| k < g.Ways() && path[0] == g.roots[k];
    } else {
      PathFront(g, path);
      var p := PathCandidate(g, path[..|path| - 1]);
      k := ExtendCandidate(g, p, path[|path| - 1]);
    }
  }

  lemma PathFront(g: Graph, path: seq<nat>)
    requires g.Valid() && IsPath(g, path) && |path| >= 2
    ensures IsPath(g, path[..|path| - 1])
    ensures Edge(g, path[|path| - 2], path[|path| - 1])
  {
    var front := path[..|path| - 1];
    forall i | 1 <= i < |front| ensures Edge(g, front[i - 1], front[i]) {
      assert Edge(g, path[i - 1], path[i]);
    }
  }

  lemma ExtendCandidate(g: Graph, p: nat, d: nat) returns (k: nat)
    requires g.Valid() && Edge(g, SlotAt(g, p), d)
    ensures SlotAt(g, k) == d && Depth(g.Ways(), k) == Depth(g.Ways(), p) + 1
  {
    var j: nat :| j < g.Ways() - 1 && d == g.kids[SlotAt(g, p)][j];
    k := FirstKid(g.Ways(), p) + j;
    DepthKid(g.Ways(), p, j);
    KidSlotAt(g, p, j);
  }

  lemma DepthKid(ways: nat, p: nat, j: nat)
    requires ways >= 2 && j < ways - 1
    ensures Depth(ways, FirstKid(ways, p) + j) == Depth(ways, p) + 1
  {
    KidOf(ways, p, j);
    FirstKidMono(ways, 0, p);
  }

  /** The chain of a first occurrence is as short as any relocation path to its slot. */
  lemma ChainShortest(g: Graph, k: nat, path: seq<nat>)
    requires g.Valid() && First(g, k)
    requires IsPath(g, path) && path[|path| - 1] == SlotAt(g, k)
    ensures |ChainOf(g, k)| <= |path|
  {
    var i := PathCandidate(g, path);
    ChainLength(g, k);
    if k <= i { DepthMono(g.Ways(), k, i); }
  }

  // ---------------------------------------------------------------- how far the walk goes

  /** Candidates on the first `level` levels. */
  function LevelEnd(ways: nat, level: nat): nat
    requires ways >= 2
  {
    if level == 0 then 0 else FirstKid(ways, LevelEnd(ways, level - 1))
  }

  function Power(b: nat, e: nat): nat {
    if e == 0 then 1 else b * Power(b, e - 1)
  }

  /** The sum of b^l for l below n. */
  function GeometricSum(b: nat, n: nat): nat {
    if n == 0 then 0 else GeometricSum(b, n - 1) + Power(b, n - 1)
  }

  lemma Distribute(a: int, x: int, y: int)
    ensures a * (x + y) == a * x + a * y
  {
  }

  lemma {:induction false} GeometricShift(b: nat, n: nat)
    ensures 1 + b * GeometricSum(b, n) == GeometricSum(b, n + 1)
  {
    if n > 0 {
      GeometricShift(b, n - 1);
      Distribute(b, GeometricSum(b, n - 1), Power(b, n - 1));
    }
  }

  lemma LevelProduct(w: int, g: int, b: int)
    ensures w + (w * g) * b == w * (1 + b * g)
  {
    Distribute(w, 1, b * g);
  }

  lemma {:induction false} LevelSize(ways: nat, level: nat)
    requires ways >= 2
    ensures LevelEnd(ways, level) == ways * GeometricSum(ways - 1, level)
    decreases level
  {
    if level > 0 {
      LevelSize(ways, level - 1);
      FirstKidFormula(ways, LevelEnd(ways, level - 1));
      GeometricShift(ways - 1, level - 1);
      LevelProduct(ways, GeometricSum(ways - 1, level - 1), ways - 1);
    }
  }

  lemma {:induction false} LevelDepth(ways: nat, level: nat, k: nat)
    requires ways >= 2
    ensures k < LevelEnd(ways, level) <==> Depth(ways, k) <= level
    decreases k
  {
    if level > 0 {
      var e := LevelEnd(ways, level - 1);
      if k < ways {
        FirstKidMono(ways, 0, e);
      } else {
        var p := Parent(ways, k);
        LevelDepth(ways, level - 1, p);
        KidIndex(ways, k);
        if p < e {
          FirstKidMono(ways, p + 1, e);
        } else {
          FirstKidMono(ways, e, p);
        }
      }
    }
  }

  lemma LevelGrows(ways: nat, level: nat)
    requires ways >= 2
    ensures LevelEnd(ways, level) < LevelEnd(ways, level + 1)
    ensures level >= 1 ==> LevelEnd(ways, level) >= ways
  {
    if level >= 1 { FirstKidMono(ways, 0, LevelEnd(ways, level - 1)); }
  }

  /** A level ends with its last candidate expanded, or at the cap. */
  lemma LevelStop(ways: nat, cap: nat, level: nat, fi: nat)
    requires ways >= 2 && fi <= LevelEnd(ways, level)
    requires fi == LevelEnd(ways, level) || Min(cap, FirstKid(ways, fi)) >= cap
    ensures Min(cap, FirstKid(ways, fi)) == Min(cap, LevelEnd(ways, level + 1))
  {
    FirstKidMono(ways, fi, LevelEnd(ways, level));
  }

  ghost predicate AllValid(g: Graph, n: nat)
    requires g.Valid()
  {
    forall k: nat :: k < n ==> g.full[SlotAt(g, k)]
  }

  /** The number of candidates when the walk stands at `level`: it stops at the cap, at the last
      level, or at the end of the first level that has an empty slot. */
  ghost function WalkLength(g: Graph, cap: nat, levels: nat, level: nat): (n: nat)
    requires g.Valid() && level >= 1
    ensures n <= cap
    decreases levels - level
  {
    if LevelEnd(g.Ways(), level) >= cap then cap
    else if level >= levels || !AllValid(g, LevelEnd(g.Ways(), level)) then LevelEnd(g.Ways(), level)
    else WalkLength(g, cap, levels, level + 1)
  }

  ghost function Candidates(g: Graph, cap: nat, levels: nat): (n: nat)
    requires g.Valid()
    ensures n <= cap
  {
    WalkLength(g, cap, levels, 1)
  }

  function Min(a: nat, b: nat): nat { if a <= b then a else b }

  function Max(a: nat, b: nat): nat { if a >= b then a else b }

  /** Where the walk ends: at the cap, at the last level, or with the first level that has an empty
      slot; every level before it is listed in full and has none. */
  lemma WalkEnds(g: Graph, cap: nat, levels: nat) returns (last: nat)
    requires g.Valid() && cap >= g.Ways()
    ensures 1 <= last <= Max(1, levels)
    ensures var n := Candidates(g, cap, levels);
            && n == Min(cap, LevelEnd(g.Ways(), last))
            && AllValid(g, LevelEnd(g.Ways(), last - 1)) && LevelEnd(g.Ways(), last - 1) < cap
            && (n == cap || last == Max(1, levels) || !AllValid(g, n))
  {
    last := WalkEndsFrom(g, cap, levels, 1);
  }

  lemma {:induction false} WalkEndsFrom(g: Graph, cap: nat, levels: nat, level: nat) returns (last: nat)
    requires g.Valid() && 1 <= level <= Max(1, levels)
    requires AllValid(g, LevelEnd(g.Ways(), level - 1)) && LevelEnd(g.Ways(), level - 1) < cap
    ensures level <= last <= Max(1, levels)
    ensures var n := WalkLength(g, cap, levels, level);
            && n == Min(cap, LevelEnd(g.Ways(), last))
            && AllValid(g, LevelEnd(g.Ways(), last - 1)) && LevelEnd(g.Ways(), last - 1) < cap
            && (n == cap || last == Max(1, levels) || !AllValid(g, n))
    decreases levels - level
  {
    var end := LevelEnd(g.Ways(), level);
    if end >= cap || level >= levels || !AllValid(g, end) {
      last := level;
    } else {
      last := WalkEndsFrom(g, cap, levels, level + 1);
    }
  }

  lemma {:induction false} WalkLengthFull(g: Graph, cap: nat, levels: nat, level: nat)
    requires g.Valid() && 1 <= level <= Max(1, levels)
    requires AllValid(g, Min(cap, LevelEnd(g.Ways(), Max(1, levels))))
    ensures WalkLength(g, cap, levels, level) == Min(cap, LevelEnd(g.Ways(), Max(1, levels)))
    decreases levels - level
  {
    LevelEndMono(g.Ways(), level, Max(1, levels));
    if LevelEnd(g.Ways(), level) < cap && level < levels {
      assert AllValid(g, LevelEnd(g.Ways(), level));
      WalkLengthFull(g, cap, levels, level + 1);
    }
  }

  lemma {:induction false} LevelEndMono(ways: nat, a: nat, b: nat)
    requires ways >= 2 && a <= b
    ensures LevelEnd(ways, a) <= LevelEnd(ways, b)
    decreases b - a
  {
    if a < b {
      LevelGrows(ways, a);
      LevelEndMono(ways, a + 1, b);
    }
  }

  /** With every reached slot valid the walk has min(R, W * sum of (W - 1)^l for l < max(1, L))
      candidates. */
  lemma CandidateCount(g: Graph, cap: nat, levels: nat)
    requires g.Valid()
    requires AllValid(g, Min(cap, LevelEnd(g.Ways(), Max(1, levels))))
    ensures Candidates(g, cap, levels) ==
            Min(cap, g.Ways() * GeometricSum(g.Ways() - 1, Max(1, levels)))
  {
    WalkLengthFull(g, cap, levels, 1);
    LevelSize(g.Ways(), Max(1, levels));
  }

  lemma {:induction false} WalkLengthBound(g: Graph, cap: nat, levels: nat, level: nat)
    requires g.Valid() && 1 <= level <= Max(1, levels)
    ensures WalkLength(g, cap, levels, level) <= LevelEnd(g.Ways(), Max(1, levels))
    decreases levels - level
  {
    LevelEndMono(g.Ways(), level, Max(1, levels));
    if LevelEnd(g.Ways(), level) < cap && level < levels {
      WalkLengthBound(g, cap, levels, level + 1);
    }
  }

  lemma {:induction false} WalkLengthLower(g: Graph, cap: nat, levels: nat, level: nat)
    requires g.Valid() && level >= 1 && cap >= g.Ways()
    ensures WalkLength(g, cap, levels, level) >= g.Ways()
    decreases levels - level
  {
    LevelGrows(g.Ways(), level);
    if LevelEnd(g.Ways(), level) < cap && level < levels && AllValid(g, LevelEnd(g.Ways(), level)) {
      WalkLengthLower(g, cap, levels, level + 1);
    }
  }

  /** No chain is longer than the walk is deep. */
  lemma ChainBound(g: Graph, cap: nat, levels: nat, k: nat)
    requires g.Valid() && k < Candidates(g, cap, levels)
    ensures |ChainOf(g, k)| <= Max(1, levels)
  {
    WalkLengthBound(g, cap, levels, 1);
    LevelDepth(g.Ways(), Max(1, levels), k);
    ChainLength(g, k);
  }

  // ---------------------------------------------------------------- the victim

  /** The victim among n candidates: the first empty slot if there is one, and otherwise the first
      candidate whose timestamp no candidate undercuts. */
  ghost predicate IsVictim(g: Graph, lastTouch: seq<nat>, n: nat, k: nat)
    requires g.Valid() && |lastTouch| == |g.kids|
  {
    && k < n
    && if AllValid(g, n) then
         && (forall i: nat :: i < n ==> lastTouch[SlotAt(g, k)] <= lastTouch[SlotAt(g, i)])
         && (forall i: nat :: i < k ==> lastTouch[SlotAt(g, k)] < lastTouch[SlotAt(g, i)])
       else
         !g.full[SlotAt(g, k)] && AllValid(g, k)
  }

  /** The slots of the first candidates, in order. */
  ghost predicate SlotsInOrder(g: Graph, slots: seq<nat>)
    requires g.Valid()
  {
    forall i: nat :: i < |slots| ==> slots[i] == SlotAt(g, i)
  }

  lemma PickedIsVictim(g: Graph, lastTouch: seq<nat>, slots: seq<nat>, v: nat)
    requires g.Valid() && |lastTouch| == |g.kids| && AllValid(g, |slots|) && v < |slots|
    requires SlotsInOrder(g, slots)
    requires forall i :: 0 <= i < |slots| ==> lastTouch[slots[v]] <= lastTouch[slots[i]]
    requires forall i :: 0 <= i < v ==> lastTouch[slots[v]] < lastTouch[slots[i]]
    ensures IsVictim(g, lastTouch, |slots|, v)
  {
    forall i: nat | i < |slots| ensures lastTouch[SlotAt(g, v)] <= lastTouch[SlotAt(g, i)] {
      assert slots[i] == SlotAt(g, i);
    }
    forall i: nat | i < v ensures lastTouch[SlotAt(g, v)] < lastTouch[SlotAt(g, i)] {
      assert slots[i] == SlotAt(g, i);
    }
  }

  /** An empty level-1 slot is the victim the full walk would choose. */
  lemma EmptyRoot(g: Graph, lastTouch: seq<nat>, cap: nat, levels: nat, w: nat)
    requires g.Valid() && |lastTouch| == |g.kids| && cap >= g.Ways() && w < g.Ways()
    requires AllValid(g, w) && !g.full[SlotAt(g, w)]
    ensures var n := Candidates(g, cap, levels); IsVictim(g, lastTouch, n, w) && !AllValid(g, n)
    ensures ChainOf(g, w) == [SlotAt(g, w)]
  {
    assert LevelEnd(g.Ways(), 1) == g.Ways();
    assert Candidates(g, cap, levels) >= g.Ways();
  }

  /** The victim is the first candidate with its slot. */
  lemma VictimFirst(g: Graph, lastTouch: seq<nat>, n: nat, k: nat)
    requires g.Valid() && |lastTouch| == |g.kids| && IsVictim(g, lastTouch, n, k)
    ensures First(g, k)
  {
  }

  lemma VictimUnique(g: Graph, lastTouch: seq<nat>, n: nat, k: nat, k': nat)
    requires g.Valid() && |lastTouch| == |g.kids|
    requires IsVictim(g, lastTouch, n, k) && IsVictim(g, lastTouch, n, k')
    ensures k == k'
  {
    if k < k' {
      NotEarlier(g, lastTouch, n, k', k);
    } else if k' < k {
      NotEarlier(g, lastTouch, n, k, k');
    }
  }

  lemma NotEarlier(g: Graph, lastTouch: seq<nat>, n: nat, k: nat, i: nat)
    requires g.Valid() && |lastTouch| == |g.kids| && IsVictim(g, lastTouch, n, k) && i < k
    ensures !IsVictim(g, lastTouch, n, i)
  {
  }

  /** The chain that a miss builds, for every tag state, key, walk depth and cap: no slot twice, a
      relocation path, at most max(1, L) long, and as short as any relocation path to the victim. */
  lemma ChainOfMiss(g: Graph, lastTouch: seq<nat>, cap: nat, levels: nat, k: nat)
    requires g.Valid() && |lastTouch| == |g.kids|
    requires IsVictim(g, lastTouch, Candidates(g, cap, levels), k)
    ensures var chain := ChainOf(g, k);
            && Distinct(chain)
            && IsPath(g, Reversed(chain))
            && |chain| <= Max(1, levels)
            && forall path :: IsPath(g, path) && path[|path| - 1] == chain[0] ==> |chain| <= |path|
  {
    VictimFirst(g, lastTouch, Candidates(g, cap, levels), k);
    ChainDistinct(g, k);
    ChainIsPath(g, k);
    ChainBound(g, cap, levels, k);
    forall path | IsPath(g, path) && path[|path| - 1] == SlotAt(g, k)
      ensures |ChainOf(g, k)| <= |path|
    {
      ChainShortest(g, k, path);
    }
  }
}
