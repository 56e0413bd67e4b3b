/** Aligned runs of pool segments, and what the four free lists of the buddy allocator must be:
    exactly the maximal free runs. Nothing here depends on the order of allocations. */
module BuddyRuns {
  import opened Bits

  const SEGMENT_SIZE: nat := 8
  const MAX_ORDER: nat := 3

  /** An allocated run: its first segment and its order. It spans Pow2(order) segments. */
  datatype Region = Region(ptr: nat, order: nat)

  /** The lowest k binary digits of p are zero. */
  predicate Aligned(p: nat, k: nat) {
    k == 0 || (p % 2 == 0 && Aligned(p / 2, k - 1))
  }

  ghost function Range(lo: nat, len: nat): (r: set<nat>)
    ensures forall s: nat :: s in r <==> lo <= s < lo + len
  {
    if len == 0 then {} else {lo + len - 1} + Range(lo, len - 1)
  }

  ghost function Segments(p: nat, k: nat): (r: set<nat>)
    ensures forall s: nat :: s in r <==> p <= s < p + Pow2(k)
  {
    Range(p, Pow2(k))
  }

  /** No segment of the run is used. */
  ghost predicate Unused(used: set<nat>, p: nat, k: nat) {
    forall s: nat :: p <= s < p + Pow2(k) ==> s !in used
  }

  /** An aligned run inside a pool of n segments, none of them used. */
  ghost predicate FreeRun(used: set<nat>, n: nat, p: nat, k: nat) {
    k <= MAX_ORDER && Aligned(p, k) && p + Pow2(k) <= n && Unused(used, p, k)
  }

  /** The run that the source merges p with: one bit of the pointer is flipped. */
  function Buddy(p: nat, k: nat): nat {
    Xor(p, Pow2(k))
  }

  /** The run of order k + 1 that contains p. */
  function Low(p: nat, k: nat): nat {
    if p <= Buddy(p, k) then p else Buddy(p, k)
  }

  /** A free run that is not half of a larger free run. */
  ghost predicate Maximal(used: set<nat>, n: nat, p: nat, k: nat) {
    && FreeRun(used, n, p, k)
    && (k < MAX_ORDER ==> !FreeRun(used, n, Buddy(p, k), k))
  }

  ghost predicate NoDuplicates<T>(l: seq<T>) {
    forall i, j :: 0 <= i < j < |l| ==> l[i] != l[j]
  }

  /** Segments on the free lists. */
  function FreeSegments(lists: seq<seq<nat>>): nat
    requires |lists| == 4
  {
    |lists[0]| + 2 * |lists[1]| + 4 * |lists[2]| + 8 * |lists[3]|
  }

  /** The free lists hold the maximal free runs, each once. */
  ghost predicate Canonical(lists: seq<seq<nat>>, used: set<nat>, n: nat) {
    && |lists| == 4
    && Aligned(n, MAX_ORDER)
    && AllDistinct(lists)
    && ListsMaximal(lists, used, n)
  }

  ghost predicate AllDistinct(lists: seq<seq<nat>>) {
    forall k :: 0 <= k < |lists| ==> NoDuplicates(lists[k])
  }

  ghost predicate ListsMaximal(lists: seq<seq<nat>>, used: set<nat>, n: nat)
    requires |lists| == 4
  {
    forall k: nat, p: nat :: k < 4 ==> (p in lists[k] <==> Maximal(used, n, p, k))
  }

  // ---------------------------------------------------------------- aligned runs

  lemma {:induction false} AlignedMod(p: nat, k: nat)
    ensures Aligned(p, k) <==> p % Pow2(k) == 0
    decreases k
  {
    if k > 0 {
      AlignedMod(p / 2, k - 1);
      HalfMod(p, Pow2(k - 1));
    }
  }

  lemma HalfMod(p: nat, m: nat)
    requires m >= 1
    ensures p % (2 * m) == 2 * (p / 2 % m) + p % 2
  {
    var q := p / 2;
    assert q == (q / m) * m + q % m;
    QuotientUnique(p, 2 * m, q / m, 2 * (q % m) + p % 2);
  }

  lemma {:induction false} NextAligned(a: nat, b: nat, k: nat)
    requires Aligned(a, k) && Aligned(b, k) && a < b
    ensures a + Pow2(k) <= b
    decreases k
  {
    if k > 0 { NextAligned(a / 2, b / 2, k - 1); }
  }

  lemma {:induction false} AlignedDown(q: nat, j: nat, k: nat)
    requires Aligned(q, j) && k <= j
    ensures Aligned(q, k) && Aligned(q + Pow2(j), k)
    decreases k
  {
    if k > 0 {
      AlignedDown(q / 2, j - 1, k - 1);
      assert (q + Pow2(j)) / 2 == q / 2 + Pow2(j - 1);
    }
  }

  ghost predicate Disjoint(p: nat, k: nat, q: nat, j: nat) {
    p + Pow2(k) <= q || q + Pow2(j) <= p
  }

  ghost predicate Inside(p: nat, k: nat, q: nat, j: nat) {
    q <= p && p + Pow2(k) <= q + Pow2(j)
  }

  /** Two aligned runs are disjoint or one lies inside the other. */
  lemma Laminar(p: nat, k: nat, q: nat, j: nat)
    requires Aligned(p, k) && Aligned(q, j) && k <= j
    ensures Disjoint(p, k, q, j) || Inside(p, k, q, j)
  {
    AlignedDown(q, j, k);
    if p < q {
      NextAligned(p, q, k);
    } else if p < q + Pow2(j) {
      NextAligned(p, q + Pow2(j), k);
    }
  }

  lemma {:induction false} XorZero(p: nat)
    ensures Xor(p, 0) == p
  {
    if p > 0 { XorZero(p / 2); }
  }

  lemma {:induction false} BuddyCases(p: nat, k: nat)
    requires Aligned(p, k)
    ensures Aligned(p, k + 1) ==> Buddy(p, k) == p + Pow2(k)
    ensures !Aligned(p, k + 1) ==> p >= Pow2(k) && Buddy(p, k) == p - Pow2(k) && Aligned(p - Pow2(k), k + 1)
    decreases k
  {
    BitwiseHalf(XorBit, p, Pow2(k));
    if k > 0 {
      BuddyCases(p / 2, k - 1);
      assert p == 2 * (p / 2);
      if !Aligned(p, k + 1) { assert (p - Pow2(k)) / 2 == p / 2 - Pow2(k - 1); }
    } else {
      XorZero(p / 2);
      assert Xor(p, 1) / 2 == Xor(p / 2, 0);
      assert (Xor(p, 1) % 2 == 1) == XorBit(p % 2 == 1, true);
      assert Aligned(p, 1) == (p % 2 == 0);
      if p % 2 == 1 { assert Aligned(p - 1, 1); }
    }
  }

  /** The XOR buddy of an aligned run is the other half of one aligned run of the next order. */
  lemma BuddyHalves(p: nat, k: nat)
    requires Aligned(p, k)
    ensures Aligned(Buddy(p, k), k) && Buddy(Buddy(p, k), k) == p
    ensures Aligned(Low(p, k), k + 1) && Low(Buddy(p, k), k) == Low(p, k)
    ensures Disjoint(p, k, Buddy(p, k), k)
    ensures Inside(p, k, Low(p, k), k + 1) && Inside(Buddy(p, k), k, Low(p, k), k + 1)
  {
    BuddyCases(p, k);
    AlignedDown(Low(p, k), k + 1, k);
    AlignedAdd(Low(p, k), k);
    BuddyCases(Buddy(p, k), k);
  }

  lemma {:induction false} AlignedAdd(q: nat, k: nat)
    requires Aligned(q, k + 1)
    ensures Aligned(q + Pow2(k), k) && !Aligned(q + Pow2(k), k + 1)
    decreases k
  {
    if k > 0 {
      AlignedAdd(q / 2, k - 1);
      assert (q + Pow2(k)) / 2 == q / 2 + Pow2(k - 1);
    }
  }

  /** In a pool of a multiple of 64 bytes the buddy of a run below order 3 is in the pool. */
  lemma BuddyInPool(p: nat, k: nat, n: nat)
    requires Aligned(p, k) && p + Pow2(k) <= n && k < MAX_ORDER && Aligned(n, MAX_ORDER)
    ensures Low(p, k) + Pow2(k + 1) <= n
  {
    BuddyHalves(p, k);
    AlignedDown(n, MAX_ORDER, k + 1);
    NextAligned(Low(p, k), n, k + 1);
  }

  lemma BuddyInside(p: nat, k: nat, q: nat, j: nat)
    requires Aligned(p, k) && Aligned(q, j) && k < j && Inside(p, k, q, j)
    ensures Inside(Buddy(p, k), k, q, j)
  {
    BuddyHalves(p, k);
    Laminar(Low(p, k), k + 1, q, j);
  }

  // ---------------------------------------------------------------- maximal runs

  lemma BuddyFree(used: set<nat>, n: nat, p: nat, k: nat, q: nat, j: nat)
    requires Aligned(p, k) && FreeRun(used, n, q, j) && k < j && Inside(p, k, q, j)
    ensures FreeRun(used, n, Buddy(p, k), k)
  {
    BuddyInside(p, k, q, j);
    BuddyHalves(p, k);
  }

  /** A maximal run cannot sit inside a different free run. */
  lemma NotInside(used: set<nat>, n: nat, p: nat, k: nat, q: nat, j: nat)
    requires Maximal(used, n, p, k) && FreeRun(used, n, q, j) && (p, k) != (q, j) && k <= j
    ensures Disjoint(p, k, q, j)
  {
    Laminar(p, k, q, j);
    if Inside(p, k, q, j) && k < j {
      BuddyFree(used, n, p, k, q, j);
    }
  }

  lemma MaximalDisjoint(used: set<nat>, n: nat, p: nat, k: nat, q: nat, j: nat)
    requires Maximal(used, n, p, k) && Maximal(used, n, q, j) && (p, k) != (q, j)
    ensures Disjoint(p, k, q, j)
  {
    if k <= j { NotInside(used, n, p, k, q, j); } else { NotInside(used, n, q, j, p, k); }
  }

  /** If both halves of a run are free, the run is free. */
  lemma ParentFree(used: set<nat>, n: nat, q: nat, j: nat)
    requires j < MAX_ORDER && FreeRun(used, n, q, j) && FreeRun(used, n, Buddy(q, j), j)
    ensures FreeRun(used, n, Low(q, j), j + 1)
  {
    BuddyHalves(q, j);
    BuddyCases(q, j);
  }

  /** Occupying a maximal run cannot take one half of a free run and leave the other. */
  lemma HalfStays(used: set<nat>, n: nat, p: nat, k: nat, q: nat, j: nat)
    requires Maximal(used, n, p, k) && j < MAX_ORDER
    requires FreeRun(used, n, q, j) && Disjoint(p, k, q, j) && FreeRun(used, n, Buddy(q, j), j)
    ensures Disjoint(p, k, Buddy(q, j), j)
  {
    var low := Low(q, j);
    BuddyHalves(q, j);
    ParentFree(used, n, q, j);
    if k <= j + 1 {
      if (p, k) != (low, j + 1) { NotInside(used, n, p, k, low, j + 1); }
    } else {
      Laminar(low, j + 1, p, k);
    }
  }

  lemma FreeRunGrow(used: set<nat>, n: nat, p: nat, k: nat, q: nat, j: nat)
    ensures FreeRun(used + Segments(p, k), n, q, j) <==> FreeRun(used, n, q, j) && Disjoint(p, k, q, j)
  {
    var used' := used + Segments(p, k);
    assert p in used' && (q in Segments(p, k) ==> q in used');
  }

  /** Occupying one maximal run removes it from the maximal runs and changes no other. */
  lemma MaximalTake(used: set<nat>, n: nat, p: nat, k: nat, q: nat, j: nat)
    requires Maximal(used, n, p, k)
    ensures Maximal(used + Segments(p, k), n, q, j) <==> Maximal(used, n, q, j) && (q, j) != (p, k)
  {
    FreeRunGrow(used, n, p, k, q, j);
    if Maximal(used, n, q, j) && (q, j) != (p, k) {
      MaximalDisjoint(used, n, p, k, q, j);
    }
    FreeRunGrow(used, n, p, k, Buddy(q, j), j);
    if j < MAX_ORDER && FreeRun(used, n, q, j) && Disjoint(p, k, q, j) && FreeRun(used, n, Buddy(q, j), j) {
      HalfStays(used, n, p, k, q, j);
    }
  }

  /** Every free run lies in a maximal one of at least its order. */
  lemma {:induction false} Climb(used: set<nat>, n: nat, q: nat, j: nat) returns (p: nat, k: nat)
    requires FreeRun(used, n, q, j)
    ensures j <= k && Maximal(used, n, p, k) && Inside(q, j, p, k)
    decreases MAX_ORDER - j
  {
    if j == MAX_ORDER || !FreeRun(used, n, Buddy(q, j), j) {
      p, k := q, j;
    } else {
      ParentFree(used, n, q, j);
      BuddyHalves(q, j);
      p, k := Climb(used, n, Low(q, j), j + 1);
    }
  }

  // ---------------------------------------------------------------- steps on the free lists

  function WithList(lists: seq<seq<nat>>, k: nat, l: seq<nat>): (r: seq<seq<nat>>)
    requires k < |lists|
    ensures |r| == |lists|
  {
    lists[k := l]
  }

  function RemoveAt<T>(l: seq<T>, i: nat): seq<T>
    requires i < |l|
  {
    l[..i] + l[i + 1..]
  }

  lemma RemoveAtMembers<T>(l: seq<T>, i: nat)
    requires i < |l| && NoDuplicates(l)
    ensures NoDuplicates(RemoveAt(l, i))
    ensures forall x :: x in RemoveAt(l, i) <==> x in l && x != l[i]
  {
    var r := RemoveAt(l, i);
    forall x | x in l && x != l[i] ensures x in r {
      var j :| 0 <= j < |l| && l[j] == x;
      assert x == r[if j < i then j else j - 1];
    }
  }

  /** Taking one block off its list and marking it used keeps the lists canonical. */
  lemma TakeStep(lists: seq<seq<nat>>, used: set<nat>, n: nat, k: nat, i: nat)
    requires Canonical(lists, used, n) && k <= MAX_ORDER && i < |lists[k]|
    ensures FreeRun(used, n, lists[k][i], k)
    ensures Canonical(WithList(lists, k, RemoveAt(lists[k], i)), used + Segments(lists[k][i], k), n)
  {
    var p := lists[k][i];
    var l' := RemoveAt(lists[k], i);
    ListedIsMaximal(lists, used, n, p, k);
    RemoveAtMembers(lists[k], i);
    TakeMembers(lists, used, n, p, k, l');
  }

  lemma TakeMembers(lists: seq<seq<nat>>, used: set<nat>, n: nat, p: nat, k: nat, l': seq<nat>)
    requires Canonical(lists, used, n) && k < 4 && Maximal(used, n, p, k)
    requires forall x :: x in l' <==> x in lists[k] && x != p
    ensures ListsMaximal(WithList(lists, k, l'), used + Segments(p, k), n)
  {
    forall j: nat, q: nat | j < 4 ensures q in WithList(lists, k, l')[j] <==> Maximal(used + Segments(p, k), n, q, j) {
      TakeMember(lists, used, n, p, k, l', q, j);
    }
  }

  lemma TakeMember(lists: seq<seq<nat>>, used: set<nat>, n: nat, p: nat, k: nat, l': seq<nat>, q: nat, j: nat)
    requires Canonical(lists, used, n) && k < 4 && j < 4 && Maximal(used, n, p, k)
    requires forall x :: x in l' <==> x in lists[k] && x != p
    ensures q in WithList(lists, k, l')[j] <==> Maximal(used + Segments(p, k), n, q, j)
  {
    ReplaceMember(lists, k, l', p, q, j);
    MaximalTake(used, n, p, k, q, j);
    ListedIsMaximal(lists, used, n, q, j);
  }

  lemma ReplaceMember(lists: seq<seq<nat>>, k: nat, l': seq<nat>, p: nat, q: nat, j: nat)
    requires k < |lists| && j < |lists|
    requires forall x :: x in l' <==> x in lists[k] && x != p
    ensures q in WithList(lists, k, l')[j] <==> q in lists[j] && (q, j) != (p, k)
  {
  }

  lemma ReleaseMember(lists: seq<seq<nat>>, used: set<nat>, n: nat, p: nat, k: nat, q: nat, j: nat)
    requires Canonical(lists, used + Segments(p, k), n) && k < 4 && j < 4 && Maximal(used, n, p, k)
    ensures q in WithList(lists, k, lists[k] + [p])[j] <==> Maximal(used, n, q, j)
  {
    AppendMember(lists, k, p, q, j);
    MaximalTake(used, n, p, k, q, j);
    ListedIsMaximal(lists, used + Segments(p, k), n, q, j);
  }

  lemma AppendMember(lists: seq<seq<nat>>, k: nat, p: nat, q: nat, j: nat)
    requires k < |lists| && j < |lists|
    ensures q in WithList(lists, k, lists[k] + [p])[j] <==> q in lists[j] || (q, j) == (p, k)
  {
  }

  lemma ReleasedIsFresh(lists: seq<seq<nat>>, used: set<nat>, n: nat, p: nat, k: nat)
    requires Canonical(lists, used + Segments(p, k), n) && k < 4 && Maximal(used, n, p, k)
    ensures p !in lists[k]
  {
    MaximalTake(used, n, p, k, p, k);
    ListedIsMaximal(lists, used + Segments(p, k), n, p, k);
  }

  lemma ListedIsMaximal(lists: seq<seq<nat>>, used: set<nat>, n: nat, p: nat, k: nat)
    requires Canonical(lists, used, n) && k < 4
    ensures p in lists[k] <==> Maximal(used, n, p, k)
    ensures p in lists[k] ==> FreeRun(used, n, p, k) && Unused(used, p, k)
  {
  }

  /** Putting back a used block whose buddy is not on its list keeps the lists canonical. */
  lemma ReleaseStep(lists: seq<seq<nat>>, used: set<nat>, n: nat, p: nat, k: nat)
    requires FreeRun(used, n, p, k) && Canonical(lists, used + Segments(p, k), n)
    requires k < MAX_ORDER ==> Buddy(p, k) !in lists[k]
    ensures Canonical(WithList(lists, k, lists[k] + [p]), used, n)
  {
    ReleasedIsMaximal(lists, used, n, p, k);
    ReleasedIsFresh(lists, used, n, p, k);
    NoDuplicatesAppend(lists[k], p);
    ReleaseMembers(lists, used, n, p, k);
  }

  lemma ReleaseMembers(lists: seq<seq<nat>>, used: set<nat>, n: nat, p: nat, k: nat)
    requires Canonical(lists, used + Segments(p, k), n) && k < 4 && Maximal(used, n, p, k)
    ensures ListsMaximal(WithList(lists, k, lists[k] + [p]), used, n)
  {
    forall j: nat, q: nat | j < 4 ensures q in WithList(lists, k, lists[k] + [p])[j] <==> Maximal(used, n, q, j) {
      ReleaseMember(lists, used, n, p, k, q, j);
    }
  }

  lemma NoDuplicatesAppend<T>(l: seq<T>, x: T)
    requires NoDuplicates(l) && x !in l
    ensures NoDuplicates(l + [x])
  {
  }

  lemma ReleasedIsMaximal(lists: seq<seq<nat>>, used: set<nat>, n: nat, p: nat, k: nat)
    requires FreeRun(used, n, p, k) && Canonical(lists, used + Segments(p, k), n)
    requires k < MAX_ORDER ==> Buddy(p, k) !in lists[k]
    ensures Maximal(used, n, p, k)
  {
    var used' := used + Segments(p, k);
    if k < MAX_ORDER {
      var b := Buddy(p, k);
      BuddyHalves(p, k);
      FreeRunGrow(used, n, p, k, b, k);
      FreeRunGrow(used, n, p, k, p, k);
      assert b !in lists[k] ==> !Maximal(used', n, b, k);
    }
  }

  // ---------------------------------------------------------------- consequences

  /** The free lists, as sets, depend only on which segments are used. */
  lemma ListsUnique(a: seq<seq<nat>>, b: seq<seq<nat>>, used: set<nat>, n: nat)
    requires Canonical(a, used, n) && Canonical(b, used, n)
    ensures forall k :: 0 <= k < 4 ==> multiset(a[k]) == multiset(b[k])
  {
    forall k | 0 <= k < 4 ensures multiset(a[k]) == multiset(b[k]) {
      forall x ensures multiset(a[k])[x] == multiset(b[k])[x] {
        Multiplicity(a[k], x);
        Multiplicity(b[k], x);
        assert x in a[k] <==> Maximal(used, n, x, k);
        assert x in b[k] <==> Maximal(used, n, x, k);
      }
    }
  }

  lemma {:induction false} Multiplicity<T>(l: seq<T>, x: T)
    requires NoDuplicates(l)
    ensures multiset(l)[x] == if x in l then 1 else 0
    decreases |l|
  {
    if |l| > 0 {
      var rest := l[..|l| - 1];
      assert l == rest + [l[|l| - 1]];
      Multiplicity(rest, x);
    }
  }

  /** Every unused segment lies in exactly one block of the free lists: used and free tile the pool. */
  lemma Tiling(lists: seq<seq<nat>>, used: set<nat>, n: nat, s: nat) returns (p: nat, k: nat)
    requires Canonical(lists, used, n) && s < n && s !in used
    ensures k < 4 && p in lists[k] && p <= s < p + Pow2(k)
    ensures forall j: nat, q: nat :: j < 4 && q in lists[j] && q <= s < q + Pow2(j) ==> (q, j) == (p, k)
  {
    assert Unused(used, s, 0);
    p, k := Climb(used, n, s, 0);
    forall j: nat, q: nat | j < 4 && q in lists[j] && q <= s < q + Pow2(j) ensures (q, j) == (p, k) {
      assert Maximal(used, n, q, j);
      if (q, j) != (p, k) { MaximalDisjoint(used, n, p, k, q, j); }
    }
  }

  lemma {:induction false} RangeCard(lo: nat, len: nat)
    ensures |Range(lo, len)| == len
  {
    if len > 0 { RangeCard(lo, len - 1); }
  }

  lemma FreeSegmentsWith(lists: seq<seq<nat>>, k: nat, l: seq<nat>)
    requires |lists| == 4 && k < 4
    ensures |l| == |lists[k]| + 1 ==> FreeSegments(WithList(lists, k, l)) == FreeSegments(lists) + Pow2(k)
    ensures |l| + 1 == |lists[k]| ==> FreeSegments(WithList(lists, k, l)) == FreeSegments(lists) - Pow2(k)
  {
    assert Pow2(0) == 1 && Pow2(1) == 2 && Pow2(2) == 4 && Pow2(3) == 8;
  }

  /** Free and used segments add up to the pool. */
  lemma {:induction false} Conservation(lists: seq<seq<nat>>, used: set<nat>, n: nat)
    requires Canonical(lists, used, n) && forall s :: s in used ==> s < n
    ensures FreeSegments(lists) + |used| == n
    decreases FreeSegments(lists)
  {
    if k: nat :| k < 4 && lists[k] != [] {
      var p := lists[k][0];
      var lists' := WithList(lists, k, RemoveAt(lists[k], 0));
      TakeStep(lists, used, n, k, 0);
      FreeSegmentsWith(lists, k, RemoveAt(lists[k], 0));
      Conservation(lists', used + Segments(p, k), n);
      RangeCard(p, Pow2(k));
      assert used !! Segments(p, k);
    } else {
      forall s: nat | s < n ensures s in used {
        if s !in used { var p, k := Tiling(lists, used, n, s); }
      }
      RangeCard(0, n);
      assert used == Range(0, n);
    }
  }

  /** With nothing allocated the lists are the initial ones: every 64-byte block, and nothing smaller. */
  lemma Drained(lists: seq<seq<nat>>, n: nat)
    requires Canonical(lists, {}, n)
    ensures lists[0] == [] && lists[1] == [] && lists[2] == []
    ensures forall p: nat :: p in lists[3] <==> Aligned(p, 3) && p < n
    ensures 8 * |lists[3]| == n
  {
    Conservation(lists, {}, n);
    forall k: nat | k < 3 ensures lists[k] == [] {
      if lists[k] != [] {
        var p := lists[k][0];
        assert p in lists[k];
        assert Maximal({}, n, p, k);
        BuddyHalves(p, k);
        BuddyInPool(p, k, n);
      }
    }
    forall p: nat ensures p in lists[3] <==> Aligned(p, 3) && p < n {
      assert p in lists[3] <==> Maximal({}, n, p, 3);
      if Aligned(p, 3) && p < n { NextAligned(p, n, 3); }
    }
  }

  // ---------------------------------------------------------------- live allocations

  ghost function Used(live: set<Region>): set<nat> {
    set r, s: nat | r in live && s in Segments(r.ptr, r.order) :: s
  }

  /** Live allocations are aligned, inside the pool, and pairwise disjoint. */
  ghost predicate LiveOk(live: set<Region>, n: nat) {
    && (forall r :: r in live ==> r.order <= MAX_ORDER && Aligned(r.ptr, r.order) && r.ptr + Pow2(r.order) <= n)
    && (forall r, t :: r in live && t in live && r != t ==> Disjoint(r.ptr, r.order, t.ptr, t.order))
  }

  lemma UsedMember(live: set<Region>, r: Region, s: nat)
    requires r in live && r.ptr <= s < r.ptr + Pow2(r.order)
    ensures s in Used(live)
  {
    assert s in Segments(r.ptr, r.order);
  }

  lemma UsedDisjoint(live: set<Region>, p: nat, k: nat, t: Region)
    requires Unused(Used(live), p, k) && t in live
    ensures Disjoint(p, k, t.ptr, t.order)
  {
    UsedMember(live, t, t.ptr);
    if t.ptr <= p < t.ptr + Pow2(t.order) { UsedMember(live, t, p); }
  }

  lemma UsedAdd(live: set<Region>, n: nat, p: nat, k: nat)
    requires LiveOk(live, n) && FreeRun(Used(live), n, p, k)
    ensures Region(p, k) !in live
    ensures LiveOk(live + {Region(p, k)}, n)
    ensures Used(live + {Region(p, k)}) == Used(live) + Segments(p, k)
  {
    forall t | t in live ensures Disjoint(p, k, t.ptr, t.order) { UsedDisjoint(live, p, k, t); }
    LiveAdd(live, n, Region(p, k));
    UsedUnion(live, Region(p, k));
  }

  lemma LiveAdd(live: set<Region>, n: nat, r: Region)
    requires LiveOk(live, n) && r.order <= MAX_ORDER && Aligned(r.ptr, r.order) && r.ptr + Pow2(r.order) <= n
    requires forall t :: t in live ==> Disjoint(r.ptr, r.order, t.ptr, t.order)
    ensures r !in live && LiveOk(live + {r}, n)
  {
  }

  lemma UsedUnion(live: set<Region>, r: Region)
    ensures Used(live + {r}) == Used(live) + Segments(r.ptr, r.order)
  {
    var live' := live + {r};
    forall s: nat ensures s in Used(live') <==> s in Used(live) + Segments(r.ptr, r.order) {
      if s in Segments(r.ptr, r.order) { assert r in live'; }
      if s in Used(live) {
        var t :| t in live && s in Segments(t.ptr, t.order);
        assert t in live';
      }
    }
  }

  lemma UsedRemove(live: set<Region>, n: nat, r: Region)
    requires LiveOk(live, n) && r in live
    ensures LiveOk(live - {r}, n)
    ensures Used(live) == Used(live - {r}) + Segments(r.ptr, r.order)
    ensures FreeRun(Used(live - {r}), n, r.ptr, r.order)
  {
    assert live == (live - {r}) + {r};
    UsedUnion(live - {r}, r);
    forall s: nat | r.ptr <= s < r.ptr + Pow2(r.order) ensures s !in Used(live - {r}) {
      OnlyOwner(live, n, r, s);
    }
  }

  lemma OnlyOwner(live: set<Region>, n: nat, r: Region, s: nat)
    requires LiveOk(live, n) && r in live && r.ptr <= s < r.ptr + Pow2(r.order)
    ensures s !in Used(live - {r})
  {
    forall t | t in live - {r} ensures s !in Segments(t.ptr, t.order) {
      assert Disjoint(r.ptr, r.order, t.ptr, t.order);
    }
  }

  // ---------------------------------------------------------------- splitting and merging

  lemma SegmentsJoin(p: nat, k: nat)
    requires Aligned(p, k)
    ensures Segments(Low(p, k), k + 1) == Segments(p, k) + Segments(Buddy(p, k), k)
  {
    BuddyHalves(p, k);
    BuddyCases(p, k);
  }

  /** The state inside allocate: the front of list a is the block about to be handed out; without it
      the lists are canonical for the pool in which that block is used. */
  ghost predicate Pending(lists: seq<seq<nat>>, used: set<nat>, n: nat, a: nat, f: nat) {
    && |lists| == 4 && a <= MAX_ORDER && |lists[a]| > 0 && lists[a][0] == f
    && FreeRun(used, n, f, a)
    && Canonical(WithList(lists, a, lists[a][1..]), used + Segments(f, a), n)
  }

  lemma PendingStart(lists: seq<seq<nat>>, used: set<nat>, n: nat, a: nat)
    requires Canonical(lists, used, n) && a <= MAX_ORDER && |lists[a]| > 0
    ensures Pending(lists, used, n, a, lists[a][0])
  {
    TakeStep(lists, used, n, a, 0);
    assert RemoveAt(lists[a], 0) == lists[a][1..];
  }

  /** splitOrder: list a loses its front, list a - 1 gains the two halves. */
  function Split(lists: seq<seq<nat>>, a: nat): (r: seq<seq<nat>>)
    requires 0 < a < |lists| && |lists[a]| > 0
    ensures |r| == |lists|
  {
    var f := lists[a][0];
    lists[a := lists[a][1..]][a - 1 := lists[a - 1] + [f] + [f + Pow2(a - 1)]]
  }

  lemma HalfRun(f: nat, k: nat)
    requires Aligned(f, k + 1)
    ensures Aligned(f, k) && Buddy(f, k) == f + Pow2(k) && Aligned(f + Pow2(k), k)
    ensures Segments(f, k + 1) == Segments(f, k) + Segments(f + Pow2(k), k)
  {
    AlignedDown(f, k + 1, k);
    BuddyCases(f, k);
    AlignedAdd(f, k);
  }

  lemma LowerHalfFree(used: set<nat>, n: nat, f: nat, k: nat)
    requires k < MAX_ORDER && FreeRun(used, n, f, k + 1)
    ensures FreeRun(used, n, f, k)
  {
    HalfRun(f, k);
  }

  lemma UpperHalfFree(used: set<nat>, n: nat, f: nat, k: nat)
    requires k < MAX_ORDER && FreeRun(used, n, f, k + 1)
    ensures FreeRun(used + Segments(f, k), n, f + Pow2(k), k)
  {
    FreeRunGrow(used, n, f, k, f + Pow2(k), k);
    UpperHalfUnused(used, n, f, k);
  }

  lemma UpperHalfUnused(used: set<nat>, n: nat, f: nat, k: nat)
    requires k < MAX_ORDER && FreeRun(used, n, f, k + 1)
    ensures FreeRun(used, n, f + Pow2(k), k) && Disjoint(f, k, f + Pow2(k), k)
  {
    AlignedAdd(f, k);
  }

  lemma SplitLists(lists: seq<seq<nat>>, a: nat)
    requires 0 < a < |lists| && |lists[a]| > 0 && lists[a - 1] == []
    ensures var next := Split(lists, a);
            var base := WithList(lists, a, lists[a][1..]);
            var b := lists[a][0] + Pow2(a - 1);
            && next[a - 1] == [lists[a][0], b]
            && base[a - 1] == []
            && WithList(next, a - 1, next[a - 1][1..]) == WithList(base, a - 1, base[a - 1] + [b])
  {
    var f := lists[a][0];
    var b := f + Pow2(a - 1);
    var next, base := Split(lists, a), WithList(lists, a, lists[a][1..]);
    assert next[a - 1] == [] + [f] + [b];
    assert next[a - 1][1..] == [b] == base[a - 1] + [b];
    assert next[a - 1 := [b]] == base[a - 1 := [b]];
  }

  lemma SplitStep(lists: seq<seq<nat>>, used: set<nat>, n: nat, a: nat, f: nat)
    requires Pending(lists, used, n, a, f) && a > 0 && lists[a - 1] == []
    ensures Pending(Split(lists, a), used, n, a - 1, f)
  {
    var base := WithList(lists, a, lists[a][1..]);
    var next := Split(lists, a);
    var k, b := a - 1, f + Pow2(a - 1);
    var whole, half := used + Segments(f, k + 1), used + Segments(f, k);
    LowerHalfFree(used, n, f, k);
    SplitLists(lists, a);
    UpperHalf(used, n, f, k);
    ReleaseUsed(base, whole, half, n, b, k);
    PendingIntro(next, used, n, k, f, WithList(base, k, base[k] + [b]));
  }

  lemma PendingIntro(lists: seq<seq<nat>>, used: set<nat>, n: nat, a: nat, f: nat, base: seq<seq<nat>>)
    requires |lists| == 4 && a <= MAX_ORDER && |lists[a]| > 0 && lists[a][0] == f && FreeRun(used, n, f, a)
    requires base == WithList(lists, a, lists[a][1..]) && Canonical(base, used + Segments(f, a), n)
    ensures Pending(lists, used, n, a, f)
  {
  }

  /** With its lower half in use, the upper half of a free run is what is left of it. */
  lemma UpperHalf(used: set<nat>, n: nat, f: nat, k: nat)
    requires k < MAX_ORDER && FreeRun(used, n, f, k + 1)
    ensures FreeRun(used + Segments(f, k), n, f + Pow2(k), k)
    ensures used + Segments(f, k + 1) == (used + Segments(f, k)) + Segments(f + Pow2(k), k)
  {
    UpperHalfFree(used, n, f, k);
    SplitUsed(used, n, f, k);
  }

  lemma SplitUsed(used: set<nat>, n: nat, f: nat, k: nat)
    requires FreeRun(used, n, f, k + 1)
    ensures used + Segments(f, k + 1) == (used + Segments(f, k)) + Segments(f + Pow2(k), k)
  {
    HalfRun(f, k);
  }

  lemma ReleaseUsed(base: seq<seq<nat>>, whole: set<nat>, half: set<nat>, n: nat, b: nat, k: nat)
    requires k < MAX_ORDER && Canonical(base, whole, n) && base[k] == []
    requires FreeRun(half, n, b, k) && whole == half + Segments(b, k)
    ensures Canonical(WithList(base, k, base[k] + [b]), half, n)
  {
    ReleaseStep(base, half, n, b, k);
  }

  lemma PendingEnd(lists: seq<seq<nat>>, live: set<Region>, n: nat, a: nat, f: nat)
    requires LiveOk(live, n) && Pending(lists, Used(live), n, a, f)
    ensures Region(f, a) !in live && LiveOk(live + {Region(f, a)}, n)
    ensures Canonical(WithList(lists, a, lists[a][1..]), Used(live + {Region(f, a)}), n)
  {
    UsedAdd(live, n, f, a);
  }

  lemma NoRun(lists: seq<seq<nat>>, used: set<nat>, n: nat, order: nat, q: nat)
    requires Canonical(lists, used, n)
    requires forall j :: order <= j < 4 ==> lists[j] == []
    ensures !FreeRun(used, n, q, order)
  {
    if FreeRun(used, n, q, order) {
      var p, k := Climb(used, n, q, order);
      ListedIsMaximal(lists, used, n, p, k);
    }
  }

  /** Merging with a free buddy: the buddy leaves its list, and the run of the next order is used. */
  lemma MergeStep(lists: seq<seq<nat>>, used: set<nat>, n: nat, p: nat, k: nat, i: nat)
    requires k < MAX_ORDER && FreeRun(used, n, p, k) && Canonical(lists, used + Segments(p, k), n)
    requires i < |lists[k]| && lists[k][i] == Buddy(p, k)
    ensures FreeRun(used, n, Low(p, k), k + 1)
    ensures Canonical(WithList(lists, k, RemoveAt(lists[k], i)), used + Segments(Low(p, k), k + 1), n)
  {
    TakeStep(lists, used + Segments(p, k), n, k, i);
    MergeHalves(used, n, p, k);
  }

  lemma MergeHalves(used: set<nat>, n: nat, p: nat, k: nat)
    requires k < MAX_ORDER && FreeRun(used, n, p, k) && FreeRun(used + Segments(p, k), n, Buddy(p, k), k)
    ensures FreeRun(used, n, Low(p, k), k + 1)
    ensures used + Segments(Low(p, k), k + 1) == used + Segments(p, k) + Segments(Buddy(p, k), k)
  {
    FreeRunGrow(used, n, p, k, Buddy(p, k), k);
    ParentFree(used, n, p, k);
    SegmentsJoin(p, k);
  }

  /** The state inside deallocate: the run (p, k) is being returned; the lists are canonical for the
      pool in which it is still used. */
  ghost predicate Releasing(lists: seq<seq<nat>>, used: set<nat>, n: nat, p: nat, k: nat) {
    FreeRun(used, n, p, k) && Canonical(lists, used + Segments(p, k), n)
  }

  lemma ReleasingStart(lists: seq<seq<nat>>, live: set<Region>, n: nat, r: Region)
    requires LiveOk(live, n) && r in live && Canonical(lists, Used(live), n)
    ensures LiveOk(live - {r}, n) && Releasing(lists, Used(live - {r}), n, r.ptr, r.order)
  {
    UsedRemove(live, n, r);
  }

  lemma ReleasingMerge(lists: seq<seq<nat>>, used: set<nat>, n: nat, p: nat, k: nat, i: nat)
    requires k < MAX_ORDER && Releasing(lists, used, n, p, k) && |lists| == 4
    requires i < |lists[k]| && lists[k][i] == Xor(p, Pow2(k))
    ensures Releasing(WithList(lists, k, RemoveAt(lists[k], i)), used, n, Low(p, k), k + 1)
  {
    MergeStep(lists, used, n, p, k, i);
  }

  lemma ReleasingEnd(lists: seq<seq<nat>>, used: set<nat>, n: nat, p: nat, k: nat)
    requires Releasing(lists, used, n, p, k) && |lists| == 4
    requires k < MAX_ORDER ==> Xor(p, Pow2(k)) !in lists[k]
    ensures Canonical(WithList(lists, k, lists[k] + [p]), used, n)
  {
    ReleaseStep(lists, used, n, p, k);
  }

  /** The start: one 64-byte block per 64 bytes. */
  lemma FreshPool(lists: seq<seq<nat>>, n: nat)
    requires Aligned(n, 3) && |lists| == 4 && lists[0] == lists[1] == lists[2] == []
    requires 8 * |lists[3]| == n && forall i :: 0 <= i < |lists[3]| ==> lists[3][i] == 8 * i
    ensures Canonical(lists, {}, n)
  {
    forall k: nat, p: nat | k < 4 ensures p in lists[k] <==> Maximal({}, n, p, k) {
      if k < 3 { FreshSmall(n, p, k); } else { FreshLarge(lists[3], n, p); }
    }
    assert ListsMaximal(lists, {}, n);
  }

  lemma FreshSmall(n: nat, p: nat, k: nat)
    requires Aligned(n, 3) && k < 3
    ensures !Maximal({}, n, p, k)
  {
    if FreeRun({}, n, p, k) {
      BuddyHalves(p, k);
      BuddyInPool(p, k, n);
    }
  }

  lemma FreshLarge(l: seq<nat>, n: nat, p: nat)
    requires Aligned(n, 3) && 8 * |l| == n && forall i :: 0 <= i < |l| ==> l[i] == 8 * i
    ensures p in l <==> Maximal({}, n, p, 3)
  {
    AlignedMod(p, 3);
    assert Pow2(3) == 8;
    if Maximal({}, n, p, 3) { assert l[p / 8] == p; }
  }
}
