/** The best-of-4 reservoir: four bins by size class, each keeping up to four cold candidates. */
module FragReservoirs {
  import opened Bits
  import opened Options
  import opened DecoupledDataStores

  datatype Candidate = Candidate(entry: nat, allocSize: nat, lastTouch: nat, valid: bool)

  /** The largest 64-bit tick. */
  const MAX_TICK: nat := 0xFFFF_FFFF_FFFF_FFFF

  lemma MaxTick()
    ensures MAX_TICK == Pow2(64) - 1
  {
    assert Pow2(8) == 0x100;
    assert Pow2(16) == 0x1_0000;
    assert Pow2(32) == 0x1_0000_0000 by { assert Pow2(24) == 0x100_0000; }
    assert Pow2(48) == 0x1_0000_0000_0000 by { assert Pow2(40) == 0x100_0000_0000; }
    assert Pow2(56) == 0x100_0000_0000_0000;
  }

  /** The sizes of bin b: those above the size of the bin below that 8 * 2^b bytes hold; the last bin
      takes the rest. */
  ghost predicate InClass(size: nat, b: nat) {
    b < 4 && (b > 0 ==> 4 * Pow2(b) < size) && (b < 3 ==> size <= 8 * Pow2(b))
  }

  /** Bin b is the bin of a size or a higher one. */
  ghost predicate Serves(b: nat, size: nat) {
    b == 3 || (b < 3 && size <= 8 * Pow2(b))
  }

  const EMPTY := Candidate(0, 0, 0, false)

  lemma ClassSizes()
    ensures Pow2(0) == 1 && Pow2(1) == 2 && Pow2(2) == 4 && Pow2(3) == 8
  {
  }

  function SizeToIdx(size: nat): (b: nat)
    ensures InClass(size, b)
  {
    ClassSizes();
    if size <= 8 then 0 else if size <= 16 then 1 else if size <= 32 then 2 else 3
  }

  /** A size has one bin, the bins that serve it are that one and those above, and the sizes of the
      allocator have the bins 0 to 3 in order. */
  lemma OneClass(size: nat, b: nat)
    requires InClass(size, b)
    ensures forall a :: InClass(size, a) ==> a == b
    ensures forall a: nat :: Serves(a, size) <==> b <= a < 4
    ensures forall a: nat :: a < 4 ==> (size == 8 * Pow2(a) ==> a == b)
  {
    ClassSizes();
  }

  ghost predicate Shaped(bins: seq<seq<Candidate>>) {
    |bins| == 4 && forall b :: 0 <= b < 4 ==> |bins[b]| == 4
  }

  /** Every candidate is in the bin of its recorded size. */
  ghost predicate Classed(bins: seq<seq<Candidate>>) {
    forall b, s :: 0 <= b < |bins| && 0 <= s < |bins[b]| && bins[b][s].valid ==> InClass(bins[b][s].allocSize, b)
  }

  /** A candidate was sampled with a region, whose size is one of the allocator's, or without. */
  ghost predicate Granular(bins: seq<seq<Candidate>>) {
    forall b, s :: 0 <= b < |bins| && 0 <= s < |bins[b]| && bins[b][s].valid ==> GranuleOrNone(bins[b][s].allocSize)
  }

  ghost predicate GranuleOrNone(size: nat) { size == 0 || ValidSize(size) }

  // ---------------------------------------------------------------- sampling into one bin

  ghost predicate AllTaken(bin: seq<Candidate>) {
    forall s :: 0 <= s < |bin| ==> bin[s].valid
  }

  /** The first slot with the highest timestamp. */
  ghost predicate Warmest(bin: seq<Candidate>, r: nat) {
    && r < |bin|
    && (forall s :: 0 <= s < |bin| ==> bin[s].lastTouch <= bin[r].lastTouch)
    && (forall s :: 0 <= s < r ==> bin[s].lastTouch < bin[r].lastTouch)
  }

  ghost predicate FirstFree(bin: seq<Candidate>, r: nat) {
    r < |bin| && !bin[r].valid && forall s :: 0 <= s < r ==> bin[s].valid
  }

  /** A sample goes to the first free slot, or replaces the warmest candidate if it is colder. */
  ghost predicate Admitted(bin: seq<Candidate>, c: Candidate, bin': seq<Candidate>) {
    || (exists r: nat :: FirstFree(bin, r) && bin' == bin[r := c])
    || (AllTaken(bin) &&
        exists r: nat :: Warmest(bin, r) && bin' == if c.lastTouch < bin[r].lastTouch then bin[r := c] else bin)
  }

  /** The timestamps of the candidates in a bin. */
  ghost function Stamps(bin: seq<Candidate>): multiset<nat> {
    if |bin| == 0 then multiset{}
    else Stamp(bin[0]) + Stamps(bin[1..])
  }

  ghost function Stamp(c: Candidate): multiset<nat> {
    if c.valid then multiset{c.lastTouch} else multiset{}
  }

  /** kept holds the `room` smallest elements of all. */
  ghost predicate Smallest(kept: multiset<nat>, all: multiset<nat>, room: nat) {
    && kept <= all
    && |kept| == (if |all| <= room then |all| else room)
    && forall x, y :: x in kept && y in all - kept ==> x <= y
  }

  lemma {:induction false} StampsReplace(bin: seq<Candidate>, s: nat, c: Candidate)
    requires s < |bin|
    ensures Stamps(bin[s := c]) + Stamp(bin[s]) == Stamps(bin) + Stamp(c)
  {
    var bin' := bin[s := c];
    if s == 0 {
      assert bin'[1..] == bin[1..];
    } else {
      assert bin'[1..] == bin[1..][s - 1 := c];
      StampsReplace(bin[1..], s - 1, c);
      AddFront(Stamp(bin[0]), Stamps(bin'[1..]), Stamp(bin[s]), Stamps(bin[1..]), Stamp(c));
    }
  }

  lemma AddFront(f: multiset<nat>, a: multiset<nat>, x: multiset<nat>, b: multiset<nat>, y: multiset<nat>)
    requires a + x == b + y
    ensures (f + a) + x == (f + b) + y
  {
    assert (f + a) + x == f + (a + x);
  }

  lemma Exchange(a: multiset<nat>, m: nat, b: multiset<nat>, t: nat)
    requires a + multiset{m} == b + multiset{t} && m in b
    ensures a == b - multiset{m} + multiset{t}
  {
    assert a == (a + multiset{m}) - multiset{m};
  }

  lemma {:induction false} StampsCount(bin: seq<Candidate>)
    ensures |Stamps(bin)| <= |bin|
    ensures AllTaken(bin) <==> |Stamps(bin)| == |bin|
  {
    if |bin| > 0 {
      StampsCount(bin[1..]);
      assert AllTaken(bin) <==> bin[0].valid && AllTaken(bin[1..]) by {
        assert forall s :: 0 <= s < |bin| - 1 ==> bin[1..][s] == bin[s + 1];
        assert forall s :: 1 <= s < |bin| ==> bin[s] == bin[1..][s - 1];
      }
    }
  }

  lemma {:induction false} StampsMember(bin: seq<Candidate>, x: nat)
    requires x in Stamps(bin)
    ensures exists s :: 0 <= s < |bin| && bin[s].valid && bin[s].lastTouch == x
  {
    if !(bin[0].valid && bin[0].lastTouch == x) {
      StampsMember(bin[1..], x);
      var s :| 0 <= s < |bin[1..]| && bin[1..][s].valid && bin[1..][s].lastTouch == x;
      assert bin[s + 1] == bin[1..][s];
    }
  }

  lemma {:induction false} StampsHas(bin: seq<Candidate>, s: nat)
    requires s < |bin| && bin[s].valid
    ensures bin[s].lastTouch in Stamps(bin)
  {
    if s > 0 { StampsHas(bin[1..], s - 1); }
  }

  lemma SmallestGrow(kept: multiset<nat>, all: multiset<nat>, room: nat, t: nat)
    requires Smallest(kept, all, room) && |kept| < room
    ensures Smallest(kept + multiset{t}, all + multiset{t}, room)
  {
    assert |all - kept| == 0;
    assert (all + multiset{t}) - (kept + multiset{t}) == all - kept;
  }

  lemma SmallestReplace(kept: multiset<nat>, all: multiset<nat>, room: nat, m: nat, t: nat)
    requires Smallest(kept, all, room) && |kept| == room && m in kept && t < m
    requires forall x :: x in kept ==> x <= m
    ensures Smallest(kept - multiset{m} + multiset{t}, all + multiset{t}, room)
  {
    var kept', all' := kept - multiset{m} + multiset{t}, all + multiset{t};
    assert all' - kept' == (all - kept) + multiset{m};
    forall x, y | x in kept' && y in all' - kept' ensures x <= y {
      assert x == t || x in kept;
      assert y == m || y in all - kept;
      if y != m { assert m <= y; }
    }
  }

  lemma SmallestReject(kept: multiset<nat>, all: multiset<nat>, room: nat, t: nat)
    requires Smallest(kept, all, room) && |kept| == room
    requires forall x :: x in kept ==> x <= t
    ensures Smallest(kept, all + multiset{t}, room)
  {
    var all' := all + multiset{t};
    assert all' - kept == (all - kept) + multiset{t};
  }

  /** One sample keeps the four smallest timestamps. */
  lemma AdmitSmallest(bin: seq<Candidate>, c: Candidate, bin': seq<Candidate>, all: multiset<nat>)
    requires c.valid && Admitted(bin, c, bin') && Smallest(Stamps(bin), all, |bin|)
    ensures |bin'| == |bin| && Smallest(Stamps(bin'), all + multiset{c.lastTouch}, |bin|)
  {
    StampsCount(bin);
    if r: nat :| FirstFree(bin, r) && bin' == bin[r := c] {
      FillSmallest(bin, c, r, all);
    } else {
      var r: nat :| Warmest(bin, r) && bin' == if c.lastTouch < bin[r].lastTouch then bin[r := c] else bin;
      WarmestBounds(bin, r);
      if c.lastTouch < bin[r].lastTouch {
        ReplaceSmallest(bin, c, r, all);
      } else {
        SmallestReject(Stamps(bin), all, |bin|, c.lastTouch);
      }
    }
  }

  lemma WarmestBounds(bin: seq<Candidate>, r: nat)
    requires Warmest(bin, r)
    ensures forall x :: x in Stamps(bin) ==> x <= bin[r].lastTouch
  {
    forall x | x in Stamps(bin) ensures x <= bin[r].lastTouch { StampsMember(bin, x); }
  }

  lemma FillSmallest(bin: seq<Candidate>, c: Candidate, r: nat, all: multiset<nat>)
    requires c.valid && FirstFree(bin, r) && Smallest(Stamps(bin), all, |bin|)
    ensures Smallest(Stamps(bin[r := c]), all + multiset{c.lastTouch}, |bin|)
  {
    StampsCount(bin);
    assert !AllTaken(bin);
    StampsReplace(bin, r, c);
    assert Stamps(bin[r := c]) == Stamps(bin) + multiset{c.lastTouch};
    SmallestGrow(Stamps(bin), all, |bin|, c.lastTouch);
  }

  lemma ReplaceSmallest(bin: seq<Candidate>, c: Candidate, r: nat, all: multiset<nat>)
    requires c.valid && AllTaken(bin) && Warmest(bin, r) && c.lastTouch < bin[r].lastTouch
    requires Smallest(Stamps(bin), all, |bin|)
    ensures Smallest(Stamps(bin[r := c]), all + multiset{c.lastTouch}, |bin|)
  {
    StampsCount(bin);
    StampsReplace(bin, r, c);
    StampsHas(bin, r);
    Exchange(Stamps(bin[r := c]), bin[r].lastTouch, Stamps(bin), c.lastTouch);
    WarmestBounds(bin, r);
    SmallestReplace(Stamps(bin), all, |bin|, bin[r].lastTouch, c.lastTouch);
  }

  // ---------------------------------------------------------------- runs of samples

  /** One sample touches only the bin of its class. */
  ghost predicate Offered(bins: seq<seq<Candidate>>, c: Candidate, bins': seq<seq<Candidate>>)
    requires |bins| == 4 && |bins'| == 4
  {
    forall b :: 0 <= b < 4 ==>
      if InClass(c.allocSize, b) then Admitted(bins[b], c, bins'[b]) else bins'[b] == bins[b]
  }

  /** The timestamps of the samples of class b. */
  ghost function ClassStamps(samples: seq<Candidate>, b: nat): multiset<nat> {
    if |samples| == 0 then multiset{}
    else
      var last := samples[|samples| - 1];
      ClassStamps(samples[..|samples| - 1], b) +
      if InClass(last.allocSize, b) then multiset{last.lastTouch} else multiset{}
  }

  ghost predicate SampleRun(states: seq<seq<seq<Candidate>>>, samples: seq<Candidate>) {
    && |states| == |samples| + 1
    && (forall i :: 0 <= i < |states| ==> |states[i]| == 4)
    && (forall i :: 0 <= i < |samples| ==> samples[i].valid && Offered(states[i], samples[i], states[i + 1]))
  }

  /** After any run of samples with no draw, a bin that started empty holds the four smallest
      timestamps of all the samples of its class. */
  lemma {:induction false} BestOfFour(states: seq<seq<seq<Candidate>>>, samples: seq<Candidate>, b: nat)
    requires SampleRun(states, samples) && b < 4 && |states[0][b]| == 4 && Stamps(states[0][b]) == multiset{}
    ensures |states[|samples|][b]| == 4
    ensures Smallest(Stamps(states[|samples|][b]), ClassStamps(samples, b), 4)
    decreases |samples|
  {
    if |samples| > 0 {
      var n := |samples| - 1;
      RunFront(states, samples);
      BestOfFour(states[..n + 1], samples[..n], b);
      assert Offered(states[n], samples[n], states[n + 1]);
      if InClass(samples[n].allocSize, b) {
        AdmitSmallest(states[n][b], samples[n], states[n + 1][b], ClassStamps(samples[..n], b));
      } else {
        assert ClassStamps(samples, b) == ClassStamps(samples[..n], b);
      }
    }
  }

  lemma RunFront(states: seq<seq<seq<Candidate>>>, samples: seq<Candidate>)
    requires SampleRun(states, samples) && |samples| > 0
    ensures SampleRun(states[..|samples|], samples[..|samples| - 1])
  {
    var states', samples' := states[..|samples|], samples[..|samples| - 1];
    forall i | 0 <= i < |samples'|
      ensures samples'[i].valid && Offered(states'[i], samples'[i], states'[i + 1])
    {
      assert Offered(states[i], samples[i], states[i + 1]);
    }
  }

  // ---------------------------------------------------------------- draws

  function CountBin(bin: seq<Candidate>): (n: nat)
    ensures n <= |bin|
  {
    if |bin| == 0 then 0 else (if bin[0].valid then 1 else 0) + CountBin(bin[1..])
  }

  /** Candidates held by the reservoir. */
  function Count(bins: seq<seq<Candidate>>): nat
    requires |bins| == 4
  {
    CountBin(bins[0]) + CountBin(bins[1]) + CountBin(bins[2]) + CountBin(bins[3])
  }

  lemma {:induction false} CountBinClear(bin: seq<Candidate>, s: nat)
    requires s < |bin| && bin[s].valid
    ensures CountBin(bin[s := EMPTY]) == CountBin(bin) - 1
  {
    if s == 0 {
      assert bin[s := EMPTY][1..] == bin[1..];
    } else {
      assert bin[s := EMPTY][1..] == bin[1..][s - 1 := EMPTY];
      CountBinClear(bin[1..], s - 1);
    }
  }

  lemma CountClear(bins: seq<seq<Candidate>>, b: nat, s: nat)
    requires |bins| == 4 && b < 4 && s < |bins[b]| && bins[b][s].valid
    ensures Count(Cleared(bins, b, s)) == Count(bins) - 1
  {
    CountBinClear(bins[b], s);
  }

  lemma CountMax(bins: seq<seq<Candidate>>)
    requires Shaped(bins)
    ensures Count(bins) <= 16
  {
  }

  function Cleared(bins: seq<seq<Candidate>>, b: nat, s: nat): (r: seq<seq<Candidate>>)
    requires b < |bins| && s < |bins[b]|
    ensures |r| == |bins|
  {
    bins[b := bins[b][s := EMPTY]]
  }

  ghost predicate BinEmpty(bin: seq<Candidate>) {
    forall s :: 0 <= s < |bin| ==> !bin[s].valid
  }

  /** A draw looks for a stamp below the largest one, so it overlooks a candidate that bears it. */
  ghost predicate Drawable(c: Candidate) { c.valid && c.lastTouch < MAX_TICK }

  ghost predicate NoneDrawable(bin: seq<Candidate>) {
    forall s :: 0 <= s < |bin| ==> !Drawable(bin[s])
  }

  /** No bin at or above the class of a size holds a candidate to draw. */
  ghost predicate NoneAbove(bins: seq<seq<Candidate>>, size: nat) {
    forall a :: 0 <= a < |bins| && Serves(a, size) ==> NoneDrawable(bins[a])
  }

  /** The first bin from a on that holds a candidate to draw, or the number of bins. */
  ghost function FirstDrawable(bins: seq<seq<Candidate>>, a: nat): nat
    requires |bins| == 4
    decreases 4 - a
  {
    if a >= 4 || !NoneDrawable(bins[a]) then a else FirstDrawable(bins, a + 1)
  }

  ghost predicate Coldest(bin: seq<Candidate>, s: nat) {
    && s < |bin| && Drawable(bin[s])
    && (forall t :: 0 <= t < |bin| && bin[t].valid ==> bin[s].lastTouch <= bin[t].lastTouch)
    && (forall t :: 0 <= t < s && bin[t].valid ==> bin[s].lastTouch < bin[t].lastTouch)
  }

  /** The draw for a size: the coldest candidate of the first bin, from the size's class up, that holds
      one to draw. */
  ghost predicate Drawn(bins: seq<seq<Candidate>>, size: nat, b: nat, s: nat)
    requires |bins| == 4
  {
    && b < 4 && Serves(b, size)
    && (forall a :: 0 <= a < b && Serves(a, size) ==> NoneDrawable(bins[a]))
    && Coldest(bins[b], s)
  }

  /** The slot is held as a candidate of the size's class or a higher one. */
  ghost predicate Sampled(bins: seq<seq<Candidate>>, size: nat, slot: nat) {
    exists b, s :: 0 <= b < |bins| && Serves(b, size) && 0 <= s < |bins[b]|
                   && bins[b][s].valid && bins[b][s].entry == slot
  }

  /** Candidates may be gone from the bins that serve a size; the others are as they were. */
  ghost predicate OnlyDrawn(was: seq<seq<Candidate>>, now: seq<seq<Candidate>>, size: nat) {
    && |now| == |was|
    && (forall b :: 0 <= b < |was| && !Serves(b, size) ==> now[b] == was[b])
    && (forall b :: 0 <= b < |was| ==> |now[b]| == |was[b]|)
    && (forall b, s :: 0 <= b < |was| && 0 <= s < |was[b]| && now[b][s].valid ==> now[b][s] == was[b][s])
  }

  lemma DrawnSampled(was: seq<seq<Candidate>>, now: seq<seq<Candidate>>, size: nat, b: nat, s: nat)
    requires |was| == 4 && OnlyDrawn(was, now, size) && Drawn(now, size, b, s)
    ensures Sampled(was, size, now[b][s].entry) && OnlyDrawn(was, Cleared(now, b, s), size)
  {
    assert now[b][s] == was[b][s];
  }

  /** A candidate that a request may draw: sampled with a region of at least its size, and not stamped
      with the largest tick. A request for 8 bytes may also draw one sampled without a region. */
  ghost predicate Eligible(c: Candidate, size: nat) {
    c.valid && c.lastTouch < Pow2(64) - 1 && (size == 8 || c.allocSize >= size)
  }

  ghost predicate NoneEligible(bins: seq<seq<Candidate>>, size: nat) {
    forall b, s :: 0 <= b < |bins| && 0 <= s < |bins[b]| ==> !Eligible(bins[b][s], size)
  }

  lemma EligibleBin(size: nat, allocSize: nat, b: nat)
    requires ValidSize(size) && GranuleOrNone(allocSize) && InClass(allocSize, b)
    ensures Serves(b, size) <==> size == 8 || allocSize >= size
  {
    ClassSizes();
  }

  lemma BinOrder(size: nat, b: nat, other: nat, a: nat)
    requires ValidSize(size) && ValidSize(other) && InClass(size, b) && InClass(other, a) && b <= a
    ensures size < other || (size == other && a == b)
  {
    ClassSizes();
  }

  /** There is nothing to draw exactly when no candidate is eligible. */
  lemma NoneBySize(bins: seq<seq<Candidate>>, size: nat)
    requires |bins| == 4 && Classed(bins) && Granular(bins) && ValidSize(size)
    ensures NoneAbove(bins, size) <==> NoneEligible(bins, size)
  {
    MaxTick();
    forall b, s | 0 <= b < 4 && 0 <= s < |bins[b]|
      ensures Eligible(bins[b][s], size) <==> Serves(b, size) && Drawable(bins[b][s])
    {
      if bins[b][s].valid { EligibleBin(size, bins[b][s].allocSize, b); }
    }
  }

  /** What is drawn is eligible; among the eligible it is of the least size, and of those the coldest. */
  lemma DrawnBySize(bins: seq<seq<Candidate>>, size: nat, b: nat, s: nat)
    requires |bins| == 4 && Classed(bins) && Granular(bins) && ValidSize(size) && Drawn(bins, size, b, s)
    ensures Eligible(bins[b][s], size)
    ensures size >= 16 ==>
              forall a, t :: 0 <= a < 4 && 0 <= t < |bins[a]| && Eligible(bins[a][t], size) ==>
                               NotAfter(bins[b][s], bins[a][t])
  {
    MaxTick();
    EligibleBin(size, bins[b][s].allocSize, b);
    if size >= 16 {
      forall a, t | 0 <= a < 4 && 0 <= t < |bins[a]| && Eligible(bins[a][t], size)
        ensures NotAfter(bins[b][s], bins[a][t])
      {
        EligibleBin(size, bins[a][t].allocSize, a);
        assert a >= b;
        BinOrder(bins[b][s].allocSize, b, bins[a][t].allocSize, a);
      }
    }
  }

  ghost predicate NotAfter(c: Candidate, d: Candidate) {
    c.allocSize < d.allocSize || (c.allocSize == d.allocSize && c.lastTouch <= d.lastTouch)
  }

  /** The header promises the coldest candidate at or above the class. */
  ghost predicate ColdestOverall(bins: seq<seq<Candidate>>, size: nat, b: nat, s: nat)
    requires |bins| == 4 && b < 4 && s < |bins[b]|
  {
    forall a, t :: 0 <= a < 4 && Serves(a, size) && 0 <= t < |bins[a]| && bins[a][t].valid ==>
                     bins[b][s].lastTouch <= bins[a][t].lastTouch
  }

  ghost predicate ColderThanAll(c: Candidate, bin: seq<Candidate>) {
    forall u :: 0 <= u < |bin| && bin[u].valid ==> c.lastTouch < bin[u].lastTouch
  }

  ghost predicate HigherColder(bins: seq<seq<Candidate>>, b: nat)
    requires |bins| == 4
  {
    exists a, t :: b < a < 4 && 0 <= t < |bins[a]| && bins[a][t].valid && ColderThanAll(bins[a][t], bins[b])
  }

  /** The draw meets the header's promise exactly when no bin above the first one with a candidate to
      draw holds a candidate colder than everything in that bin. */
  lemma DrawMeetsHeader(bins: seq<seq<Candidate>>, size: nat, b: nat, s: nat)
    requires |bins| == 4 && Drawn(bins, size, b, s)
    ensures forall a :: InClass(size, a) ==> b == FirstDrawable(bins, a)
    ensures ColdestOverall(bins, size, b, s) <==> !HigherColder(bins, b)
  {
    var a := SizeToIdx(size);
    OneClass(size, a);
    FirstIs(bins, a, b);
    if !ColdestOverall(bins, size, b, s) {
      var a, t :| 0 <= a < 4 && Serves(a, size) && 0 <= t < |bins[a]| && bins[a][t].valid &&
                  bins[a][t].lastTouch < bins[b][s].lastTouch;
      assert a > b;
    }
  }

  lemma {:induction false} FirstIs(bins: seq<seq<Candidate>>, a: nat, b: nat)
    requires |bins| == 4 && a <= b < 4 && (forall j :: a <= j < b ==> NoneDrawable(bins[j])) && !NoneDrawable(bins[b])
    ensures FirstDrawable(bins, a) == b
    decreases b - a
  {
    if a < b { FirstIs(bins, a + 1, b); }
  }

  /** Two samples lead from the empty reservoir to a state where a request for 16 bytes takes the warm
      16-byte block although a colder 32-byte block is held. */
  lemma HeaderFails() returns (states: seq<seq<seq<Candidate>>>, samples: seq<Candidate>)
    ensures samples == [Candidate(0, 16, 9, true), Candidate(1, 32, 2, true)] && SampleRun(states, samples)
    ensures Shaped(states[0]) && forall b :: 0 <= b < 4 ==> BinEmpty(states[0][b])
    ensures Drawn(states[2], 16, 1, 0) && !ColdestOverall(states[2], 16, 1, 0)
  {
    var warm, cold := Candidate(0, 16, 9, true), Candidate(1, 32, 2, true);
    var none := [EMPTY, EMPTY, EMPTY, EMPTY];
    var start := [none, none, none, none];
    var one := start[1 := none[0 := warm]];
    var two: seq<seq<Candidate>> := one[2 := none[0 := cold]];
    states, samples := [start, one, two], [warm, cold];
    assert FirstFree(none, 0);
    assert Offered(start, warm, one) && Offered(one, cold, two);
    assert Coldest(two[1], 0);
    assert two[2][0].valid && two[2][0].lastTouch < two[1][0].lastTouch;
  }

  // ---------------------------------------------------------------- the reservoir

  /** One step of the 16-bit Fibonacci generator. */
  function LfsrStep(state: nat): nat {
    Xor(state / 2, if state % 2 == 1 then 0xB400 else 0)
  }

  /** The generator stays in 16 bits and never reaches the dead state 0. */
  lemma LfsrAlive(state: nat)
    requires 0 < state < Pow2(16)
    ensures 0 < LfsrStep(state) < Pow2(16)
  {
    assert Pow2(16) == 2 * Pow2(15) && Pow2(16) == 0x1_0000 by {
      assert Pow2(8) == 0x100;
    }
    var mask := if state % 2 == 1 then 0xB400 else 0;
    BitwiseBound(XorBit, state / 2, mask, 16);
    if LfsrStep(state) == 0 {
      forall i: nat ensures Bit(state / 2, i) == Bit(mask, i) {
        BitwiseBit(XorBit, state / 2, mask, i);
        ShrZero(i);
      }
      SameBits(state / 2, mask);
    }
  }

  /** The digits of one step: a shift, and where the taps 16, 14, 13 and 11 are the bit shifted out is
      added. */
  lemma LfsrDigits(state: nat, i: nat)
    ensures Bit(LfsrStep(state), i) == (Bit(state, i + 1) != (Bit(state, 0) && i + 1 in {16, 14, 13, 11}))
  {
    var mask := if state % 2 == 1 then 0xB400 else 0;
    BitwiseBit(XorBit, state / 2, mask, i);
    ShrZero(i);
    TapDigits(i);
  }

  lemma TapDigits(i: nat)
    ensures Bit(0xB400, i) <==> i + 1 in {16, 14, 13, 11}
  {
    assert 0xB400 == Pow2(10) * 0x2D by { assert Pow2(8) == 0x100; }
    if i < 10 {
      LowDigits(0, 0x2D, 10, i);
      ShrZero(i);
    } else {
      ShrShr(0xB400, 10, i - 10);
      ShrTimes(0x2D, 10);
      if i >= 16 { HighBits(0x2D, 6, i - 10); }
    }
  }

  class FragReservoir {
    var lfsrState: nat
    var bins: seq<seq<Candidate>>

    ghost predicate Valid()
      reads this
    {
      0 < lfsrState < Pow2(16) && Shaped(bins) && Classed(bins)
    }

    constructor ()
      ensures Valid() && lfsrState == 0xACE1 && forall b :: 0 <= b < 4 ==> BinEmpty(bins[b])
    {
      lfsrState := 0xACE1;
      var none := [EMPTY, EMPTY, EMPTY, EMPTY];
      bins := [none, none, none, none];
      assert Pow2(8) == 0x100;
      assert Pow2(16) == 0x1_0000;
    }

    method LfsrNext() returns (r: nat)
      requires Valid()
      modifies this`lfsrState
      ensures Valid() && r == lfsrState == LfsrStep(old(lfsrState))
    {
      LfsrAlive(lfsrState);
      lfsrState := LfsrStep(lfsrState);
      r := lfsrState;
    }

    /** The part of a sampling event that follows a valid sample. */
    method Offer(entry: nat, allocSize: nat, touch: nat)
      requires Valid()
      modifies this`bins
      ensures Valid() && Offered(old(bins), Candidate(entry, allocSize, touch, true), bins)
    {
      var b := SizeToIdx(allocSize);
      OneClass(allocSize, b);
      var bin := bins[b];
      var replSlot: int, maxTouch, hasFreeSlot := -1, 0, false;
      for s := 0 to 4
        invariant !hasFreeSlot
        invariant forall t :: 0 <= t < s ==> bin[t].valid && bin[t].lastTouch <= maxTouch
        invariant maxTouch > 0 ==> 0 <= replSlot < s && bin[replSlot].lastTouch == maxTouch
        invariant maxTouch > 0 ==> forall t :: 0 <= t < replSlot ==> bin[t].lastTouch < maxTouch
      {
        if !bin[s].valid {
          replSlot := s;
          hasFreeSlot := true;
          break;
        }
        if bin[s].lastTouch > maxTouch {
          maxTouch := bin[s].lastTouch;
          replSlot := s;
        }
      }
      var c := Candidate(entry, allocSize, touch, true);
      if hasFreeSlot {
        assert FirstFree(bin, replSlot);
      } else {
        assert AllTaken(bin);
        assert Warmest(bin, if maxTouch > 0 then replSlot else 0);
      }
      if hasFreeSlot || touch < maxTouch {
        bins := bins[b := bin[replSlot := c]];
      }
    }

    method GetVictim(sizeBytes: nat) returns (victim: Option<nat>)
      requires Valid()
      modifies this`bins
      ensures Valid()
      ensures victim.None? <==> NoneAbove(old(bins), sizeBytes)
      ensures victim.None? ==> bins == old(bins)
      ensures victim.Some? ==>
                exists b: nat, s: nat :: Drawn(old(bins), sizeBytes, b, s) && bins == Cleared(old(bins), b, s)
                                      && victim.value == old(bins)[b][s].entry
      ensures victim.Some? ==> Count(bins) == Count(old(bins)) - 1
    {
      OneClass(sizeBytes, SizeToIdx(sizeBytes));
      for b := SizeToIdx(sizeBytes) to 4
        invariant bins == old(bins)
        invariant forall a :: 0 <= a < b && Serves(a, sizeBytes) ==> NoneDrawable(bins[a])
      {
        var coldSlot := ColdSlot(bins[b]);
        if coldSlot >= 0 {
          victim := Some(bins[b][coldSlot].entry);
          CountClear(bins, b, coldSlot);
          assert Drawn(bins, sizeBytes, b, coldSlot);
          bins := bins[b := bins[b][coldSlot := EMPTY]];
          assert bins == Cleared(old(bins), b, coldSlot);
          return;
        }
      }
      victim := None;
    }

    static method ColdSlot(bin: seq<Candidate>) returns (coldSlot: int)
      ensures coldSlot >= 0 ==> Coldest(bin, coldSlot)
      ensures coldSlot < 0 ==> NoneDrawable(bin)
    {
      coldSlot := -1;
      var minTouch := MAX_TICK;
      for s := 0 to |bin|
        invariant coldSlot < s
        invariant coldSlot >= 0 ==> Drawable(bin[coldSlot]) && bin[coldSlot].lastTouch == minTouch
        invariant coldSlot >= 0 ==> forall t :: 0 <= t < s && bin[t].valid ==> minTouch <= bin[t].lastTouch
        invariant coldSlot >= 0 ==> forall t :: 0 <= t < coldSlot && bin[t].valid ==> minTouch < bin[t].lastTouch
        invariant coldSlot < 0 ==> minTouch == MAX_TICK && forall t :: 0 <= t < s ==> !Drawable(bin[t])
      {
        if bin[s].valid && bin[s].lastTouch < minTouch {
          minTouch := bin[s].lastTouch;
          coldSlot := s;
        }
      }
    }
  }
}
