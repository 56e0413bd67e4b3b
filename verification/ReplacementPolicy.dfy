/** Bucketed LRU: one global timestamp that advances once per bucket of touches. */
module ReplacementPolicy {
  import opened Bits

  /** max(1, fraction * entries), truncated. */
  function BucketLength(fraction: real, entries: nat): (k: nat)
    requires fraction >= 0.0
    ensures k >= 1 && fraction * (entries as real) < (k + 1) as real
    ensures k == 1 || k as real <= fraction * (entries as real)
  {
    var k := (fraction * (entries as real)).Floor;
    if k >= 1 then k else 1
  }

  lemma DivNext(a: nat, k: nat)
    requires k >= 1
    ensures (a + 1) / k == a / k + if (a + 1) % k == 0 then 1 else 0
  {
    var q, r := a / k, a % k;
    assert a == q * k + r;
    if r + 1 == k {
      assert a + 1 == (q + 1) * k + 0;
      QuotientUnique(a + 1, k, q + 1, 0);
    } else {
      QuotientUnique(a + 1, k, q, r + 1);
    }
  }

  /** Timestamps in order bound the touches they stand for to within one bucket. */
  lemma WithinBucket(a: nat, b: nat, k: nat)
    requires k >= 1 && a / k <= b / k
    ensures a < b + k
  {
    MulAtLeast(b / k - a / k + 1, k);
    assert a == (a / k) * k + a % k && b == (b / k) * k + b % k;
    assert (b / k - a / k + 1) * k == (b / k) * k - (a / k) * k + k;
  }

  class ZCacheRP {
    const bucketSizeFraction: real
    var globalTimestamp: nat
    var accessCount: nat
    var bucketSize: nat
    var entryCount: nat
    /** lastTouchTimestamp of every entry */
    var lastTouch: seq<nat>
    /** the number of the touch that set it, or 0 */
    ghost var touchedAt: seq<nat>

    /** The bucket length in force: fixed by the first touch, from the entries there are by then. */
    ghost function K(): (k: nat)
      requires bucketSizeFraction >= 0.0
      reads this
      ensures k >= 1
    {
      if bucketSize == 0 then BucketLength(bucketSizeFraction, entryCount) else bucketSize
    }

    ghost predicate Valid()
      reads this
    {
      && bucketSizeFraction >= 0.0
      && |lastTouch| == |touchedAt| == entryCount
      && (bucketSize == 0 <==> accessCount == 0)
      && globalTimestamp == accessCount / K()
      && (forall i :: 0 <= i < |lastTouch| ==> touchedAt[i] <= accessCount && lastTouch[i] == touchedAt[i] / K())
    }

    constructor (fraction: real)
      requires fraction >= 0.0
      ensures Valid() && entryCount == 0 && accessCount == 0 && bucketSizeFraction == fraction
    {
      bucketSizeFraction := fraction;
      globalTimestamp, accessCount, bucketSize, entryCount := 0, 0, 0, 0;
      lastTouch, touchedAt := [], [];
    }

    /** A new entry; the bucket length follows the entries only until the first touch. */
    method InstantiateEntry()
      requires Valid()
      modifies this
      ensures Valid() && accessCount == old(accessCount) && entryCount == old(entryCount) + 1
      ensures lastTouch == old(lastTouch) + [0] && touchedAt == old(touchedAt) + [0]
      ensures accessCount == 0 ==> K() == BucketLength(bucketSizeFraction, entryCount)
      ensures accessCount > 0 ==> K() == old(K())
    {
      assert accessCount == 0 ==> forall i :: 0 <= i < |lastTouch| ==> touchedAt[i] == 0 && lastTouch[i] == 0;
      entryCount := entryCount + 1;
      lastTouch := lastTouch + [0];
      touchedAt := touchedAt + [0];
    }

    method Invalidate(entry: nat)
      requires Valid() && entry < entryCount
      modifies this`lastTouch, this`touchedAt
      ensures Valid()
      ensures lastTouch == old(lastTouch)[entry := 0] && touchedAt == old(touchedAt)[entry := 0]
    {
      lastTouch := lastTouch[entry := 0];
      touchedAt := touchedAt[entry := 0];
    }

    /** The entry's timestamp becomes floor(touches / K). */
    method Touch(entry: nat)
      requires Valid() && entry < entryCount
      modifies this
      ensures Valid() && entryCount == old(entryCount) && K() == old(K())
      ensures accessCount == old(accessCount) + 1 && globalTimestamp == accessCount / K()
      ensures touchedAt == old(touchedAt)[entry := accessCount]
      ensures lastTouch == old(lastTouch)[entry := accessCount / K()]
    {
      if bucketSize == 0 && entryCount > 0 {
        bucketSize := BucketLength(bucketSizeFraction, entryCount);
      }
      DivNext(accessCount, K());
      accessCount := accessCount + 1;
      if bucketSize == 0 || accessCount % bucketSize == 0 {
        globalTimestamp := globalTimestamp + 1;
      }
      lastTouch := lastTouch[entry := globalTimestamp];
      touchedAt := touchedAt[entry := accessCount];
    }

    method Reset(entry: nat)
      requires Valid() && entry < entryCount
      modifies this
      ensures Valid() && entryCount == old(entryCount) && K() == old(K())
      ensures accessCount == old(accessCount) + 1 && globalTimestamp == accessCount / K()
      ensures touchedAt == old(touchedAt)[entry := accessCount]
      ensures lastTouch == old(lastTouch)[entry := accessCount / K()]
    {
      Touch(entry);
    }

    /** The first candidate with the least timestamp; it was last touched fewer than K touches after
        any other candidate. */
    method GetVictim(candidates: seq<nat>) returns (victim: nat, ghost at: nat)
      requires Valid() && |candidates| > 0 && forall i :: 0 <= i < |candidates| ==> candidates[i] < entryCount
      ensures at < |candidates| && victim == candidates[at]
      ensures forall i :: 0 <= i < at ==> lastTouch[victim] < lastTouch[candidates[i]]
      ensures forall i :: 0 <= i < |candidates| ==> lastTouch[victim] <= lastTouch[candidates[i]]
      ensures forall i :: 0 <= i < |candidates| ==> touchedAt[victim] < touchedAt[candidates[i]] + K()
    {
      victim, at := candidates[0], 0;
      var minTs := lastTouch[candidates[0]];
      for i := 0 to |candidates|
        invariant at < |candidates| && victim == candidates[at] && minTs == lastTouch[victim]
        invariant at < i || at == 0
        invariant forall j :: 0 <= j < at ==> minTs < lastTouch[candidates[j]]
        invariant forall j :: 0 <= j < i ==> minTs <= lastTouch[candidates[j]]
      {
        var ts := lastTouch[candidates[i]];
        if ts < minTs {
          minTs := ts;
          victim, at := candidates[i], i;
        }
      }
      forall i | 0 <= i < |candidates| ensures touchedAt[victim] < touchedAt[candidates[i]] + K() {
        WithinBucket(touchedAt[victim], touchedAt[candidates[i]], K());
      }
    }
  }
}
