/** H3 skewed indexing: every way hashes a block address with its own random binary matrix. */
module ZCacheIndex {
  import opened Bits

  /** Geometry and hash matrices: matrix[way][b] is the mask for output bit b of the way. */
  datatype H3 = H3(ways: nat, logNumSets: nat, setShift: nat, matrix: seq<seq<nat>>) {
    ghost predicate Valid() {
      && ways >= 2
      && |matrix| == ways
      && forall w :: 0 <= w < ways ==> |matrix[w]| == logNumSets
    }

    function NumSets(): nat { Pow2(logNumSets) }

    function NumBlocks(): nat { NumSets() * ways }
  }

  function HashBits(row: seq<nat>, input: nat): nat {
    if |row| == 0 then 0
    else
      var low := HashBits(row[..|row| - 1], input);
      if Parity(And(row[|row| - 1], input)) then Or(low, Pow2(|row| - 1)) else low
  }

  function H3Hash(ix: H3, addr: nat, way: nat): nat
    requires ix.Valid() && way < ix.ways
  {
    HashBits(ix.matrix[way], Shr(addr, ix.setShift))
  }

  function ExtractSet(ix: H3, addr: nat, way: nat): nat
    requires ix.Valid() && way < ix.ways
  {
    And(H3Hash(ix, addr, way), ix.NumSets() - 1)
  }

  /** The block-aligned address that is stored as the tag. */
  function ExtractTag(ix: H3, addr: nat): nat {
    Shr(addr, ix.setShift) * Pow2(ix.setShift)
  }

  /** The k-th other way. */
  function OtherWay(way: nat, k: nat): nat {
    if k < way then k else k + 1
  }

  // ---------------------------------------------------------------- hashing

  lemma {:induction false} HashBitsDigits(row: seq<nat>, input: nat)
    ensures HashBits(row, input) < Pow2(|row|)
    ensures forall b: nat :: b < |row| ==> Bit(HashBits(row, input), b) == Parity(And(row[b], input))
    decreases |row|
  {
    if |row| > 0 {
      var n := |row| - 1;
      var low := HashBits(row[..n], input);
      HashBitsDigits(row[..n], input);
      OrPow(low, n);
      HighBits(low, n, n);
      forall b: nat | b < |row| ensures Bit(HashBits(row, input), b) == Parity(And(row[b], input)) {
        if b < n { assert row[..n][b] == row[b]; }
      }
    }
  }

  /** The mask leaves the hash alone: the set index is the hash, and it is a set of the cache. */
  lemma SetInRange(ix: H3, addr: nat, way: nat)
    requires ix.Valid() && way < ix.ways
    ensures ExtractSet(ix, addr, way) == H3Hash(ix, addr, way)
    ensures ExtractSet(ix, addr, way) < ix.NumSets()
  {
    HashBitsDigits(ix.matrix[way], Shr(addr, ix.setShift));
    MaskIdentity(H3Hash(ix, addr, way), ix.logNumSets);
  }

  /** Digit b of the set is one iff the block number and the way's mask for b have an odd number of
      ones in common; n is any width that the mask fits in. */
  lemma SetDigit(ix: H3, addr: nat, way: nat, b: nat, n: nat)
    requires ix.Valid() && way < ix.ways && b < ix.logNumSets && ix.matrix[way][b] < Pow2(n)
    ensures Bit(ExtractSet(ix, addr, way), b) <==>
            |CommonOnes(ix.matrix[way][b], addr / Pow2(ix.setShift), n)| % 2 == 1
  {
    SetInRange(ix, addr, way);
    HashBitsDigits(ix.matrix[way], Shr(addr, ix.setShift));
    ShrDiv(addr, ix.setShift);
    ParityAnd(ix.matrix[way][b], addr / Pow2(ix.setShift), n);
  }

  /** Two addresses have the same tag exactly when they lie in the same block. */
  lemma SameTag(ix: H3, a: nat, b: nat)
    ensures ExtractTag(ix, a) == ExtractTag(ix, b) <==> a / Pow2(ix.setShift) == b / Pow2(ix.setShift)
    ensures ExtractTag(ix, a) == a - a % Pow2(ix.setShift)
  {
    var m := Pow2(ix.setShift);
    ShrDiv(a, ix.setShift);
    ShrDiv(b, ix.setShift);
    ShrTimes(a / m, ix.setShift);
    ShrTimes(b / m, ix.setShift);
    assert a == (a / m) * m + a % m;
  }

  lemma HashBitsXor(row: seq<nat>, a: nat, b: nat)
    ensures HashBits(row, Xor(a, b)) == Xor(HashBits(row, a), HashBits(row, b))
  {
    var n := |row|;
    var ha, hb, hx := HashBits(row, a), HashBits(row, b), HashBits(row, Xor(a, b));
    HashBitsDigits(row, a);
    HashBitsDigits(row, b);
    HashBitsDigits(row, Xor(a, b));
    BitwiseBound(XorBit, ha, hb, n);
    forall i: nat | i < n ensures Bit(hx, i) == Bit(Xor(ha, hb), i) {
      BitwiseBit(XorBit, ha, hb, i);
      AndDistributesOverXor(row[i], a, b);
      ParityXor(And(row[i], a), And(row[i], b));
    }
    SameLowBits(hx, Xor(ha, hb), n);
  }

  /** Set selection is linear over XOR, for every way and all addresses. */
  lemma Linear(ix: H3, a: nat, b: nat, way: nat)
    requires ix.Valid() && way < ix.ways
    ensures ExtractSet(ix, Xor(a, b), way) == Xor(ExtractSet(ix, a, way), ExtractSet(ix, b, way))
  {
    ShrXor(a, b, ix.setShift);
    HashBitsXor(ix.matrix[way], Shr(a, ix.setShift), Shr(b, ix.setShift));
    SetInRange(ix, a, way);
    SetInRange(ix, b, way);
    SetInRange(ix, Xor(a, b), way);
  }

  /** A block and its tag select the same sets, so a stored block can be found and moved by its tag;
      and the tag of a tag is the tag. */
  lemma TagSelectsSameSets(ix: H3, addr: nat, way: nat)
    requires ix.Valid() && way < ix.ways
    ensures ExtractSet(ix, ExtractTag(ix, addr), way) == ExtractSet(ix, addr, way)
    ensures ExtractTag(ix, ExtractTag(ix, addr)) == ExtractTag(ix, addr)
  {
    ShrTimes(Shr(addr, ix.setShift), ix.setShift);
  }

  // ---------------------------------------------------------------- slots

  /** The index of (set, way) in the block array. */
  function Slot(ix: H3, setIdx: nat, way: nat): nat {
    setIdx * ix.ways + way
  }

  function SlotWay(ix: H3, s: nat): nat
    requires ix.ways > 0
  {
    s % ix.ways
  }

  /** The slot of a block address in a way. */
  function HomeSlot(ix: H3, addr: nat, way: nat): nat
    requires ix.Valid() && way < ix.ways
  {
    Slot(ix, ExtractSet(ix, addr, way), way)
  }

  lemma SlotParts(ix: H3, setIdx: nat, way: nat)
    requires way < ix.ways && setIdx < ix.NumSets()
    ensures Slot(ix, setIdx, way) < ix.NumBlocks()
    ensures SlotWay(ix, Slot(ix, setIdx, way)) == way && Slot(ix, setIdx, way) / ix.ways == setIdx
  {
    QuotientUnique(setIdx * ix.ways + way, ix.ways, setIdx, way);
    assert (setIdx + 1) * ix.ways <= ix.NumSets() * ix.ways by {
      MulAtLeast(ix.NumSets() - setIdx - 1, ix.ways);
      assert (ix.NumSets() - setIdx - 1) * ix.ways >= 0;
    }
  }

  lemma HomeSlotParts(ix: H3, addr: nat, way: nat)
    requires ix.Valid() && way < ix.ways
    ensures HomeSlot(ix, addr, way) < ix.NumBlocks() && SlotWay(ix, HomeSlot(ix, addr, way)) == way
  {
    SetInRange(ix, addr, way);
    SlotParts(ix, ExtractSet(ix, addr, way), way);
  }

  // ---------------------------------------------------------------- the policy object

  class ZCacheIndexingPolicy {
    const h3: H3

    /** Fills the matrices from a 64-bit linear congruential generator. */
    constructor (ways: nat, logNumSets: nat, setShift: nat, seed: nat)
      requires ways >= 2 && logNumSets >= 2
      ensures h3.Valid() && h3.ways == ways && h3.logNumSets == logNumSets && h3.setShift == setShift
      ensures forall w, b :: 0 <= w < ways && 0 <= b < logNumSets ==> h3.matrix[w][b] < TWO_TO_THE_64
      ensures h3.matrix[0][0] == LcgNext(Or(seed, 1))
      ensures forall w, b :: 0 <= w < ways && 1 <= b < logNumSets ==> h3.matrix[w][b] == LcgNext(h3.matrix[w][b - 1])
      ensures forall w :: 1 <= w < ways ==> h3.matrix[w][0] == LcgNext(h3.matrix[w - 1][logNumSets - 1])
    {
      var rng: nat := Or(seed, 1);
      var matrix: seq<seq<nat>> := [];
      for w := 0 to ways
        invariant |matrix| == w
        invariant forall v :: 0 <= v < w ==> |matrix[v]| == logNumSets
        invariant forall v, b :: 0 <= v < w && 0 <= b < logNumSets ==> matrix[v][b] < TWO_TO_THE_64
        invariant rng == if w == 0 then Or(seed, 1) else matrix[w - 1][logNumSets - 1]
        invariant w > 0 ==> matrix[0][0] == LcgNext(Or(seed, 1))
        invariant forall v, b :: 0 <= v < w && 1 <= b < logNumSets ==> matrix[v][b] == LcgNext(matrix[v][b - 1])
        invariant forall v :: 1 <= v < w ==> matrix[v][0] == LcgNext(matrix[v - 1][logNumSets - 1])
      {
        var row: seq<nat> := [];
        ghost var start := rng;
        for b := 0 to logNumSets
          invariant |row| == b && forall c :: 0 <= c < b ==> row[c] < TWO_TO_THE_64
          invariant rng == if b == 0 then start else row[b - 1]
          invariant b > 0 ==> row[0] == LcgNext(start)
          invariant forall c :: 1 <= c < b ==> row[c] == LcgNext(row[c - 1])
        {
          rng := LcgNext(rng);
          row := row + [rng];
        }
        matrix := matrix + [row];
      }
      h3 := H3(ways, logNumSets, setShift, matrix);
    }

    /** The set of an address in a way: digit b says whether the block number and the way's mask for b
        have an odd number of ones in common. */
    method ExtractSetOf(addr: nat, way: nat) returns (s: nat)
      requires h3.Valid() && way < h3.ways
      ensures s == ExtractSet(h3, addr, way) && s < Pow2(h3.logNumSets)
      ensures forall b: nat, n: nat :: b < h3.logNumSets && h3.matrix[way][b] < Pow2(n) ==>
                (Bit(s, b) <==> |CommonOnes(h3.matrix[way][b], addr / Pow2(h3.setShift), n)| % 2 == 1)
    {
      var input := Shr(addr, h3.setShift);
      var row := h3.matrix[way];
      var result: nat := 0;
      for b := 0 to h3.logNumSets
        invariant result == HashBits(row[..b], input)
      {
        assert row[..b + 1][..b] == row[..b];
        if Parity(And(row[b], input)) {
          result := Or(result, Pow2(b));
        }
      }
      assert row[..h3.logNumSets] == row;
      s := And(result, h3.NumSets() - 1);
      SetInRange(h3, addr, way);
      forall b: nat, n: nat | b < h3.logNumSets && h3.matrix[way][b] < Pow2(n)
        ensures Bit(s, b) <==> |CommonOnes(h3.matrix[way][b], addr / Pow2(h3.setShift), n)| % 2 == 1
      {
        SetDigit(h3, addr, way, b, n);
      }
    }

    /** The other ways' slots for a stored block: every other way once, in way order. */
    method GetAlternativeLocations(curWay: nat, storedAddr: nat) returns (alts: seq<(nat, nat)>)
      requires h3.Valid() && curWay < h3.ways
      ensures |alts| == h3.ways - 1
      ensures forall k :: 0 <= k < |alts| ==>
                            && OtherWay(curWay, k) < h3.ways
                            && alts[k] == (ExtractSet(h3, storedAddr, OtherWay(curWay, k)), OtherWay(curWay, k))
      ensures forall k :: 0 <= k < |alts| ==> alts[k].1 < h3.ways && alts[k].1 != curWay
      ensures forall i, j :: 0 <= i < j < |alts| ==> alts[i].1 < alts[j].1
      ensures forall w :: 0 <= w < h3.ways && w != curWay ==> (ExtractSet(h3, storedAddr, w), w) in alts
    {
      alts := [];
      for w := 0 to h3.ways
        invariant |alts| == if w <= curWay then w else w - 1
        invariant forall k :: 0 <= k < |alts| ==>
                                && OtherWay(curWay, k) < h3.ways
                                && alts[k] == (ExtractSet(h3, storedAddr, OtherWay(curWay, k)), OtherWay(curWay, k))
      {
        if w != curWay {
          var s := ExtractSetOf(storedAddr, w);
          alts := alts + [(s, w)];
        }
      }
      forall w | 0 <= w < h3.ways && w != curWay ensures (ExtractSet(h3, storedAddr, w), w) in alts {
        var k := if w < curWay then w else w - 1;
        assert alts[k] == (ExtractSet(h3, storedAddr, w), w);
      }
    }
  }

  const TWO_TO_THE_64: nat := 0x1_0000_0000_0000_0000

  lemma LcgStep(state: nat)
    ensures var n: nat := state * 6364136223846793005 + 1442695040888963407;
            exists q: nat :: q * TWO_TO_THE_64 + n % TWO_TO_THE_64 == n
  {
    var n := state * 6364136223846793005 + 1442695040888963407;
    var q := n / TWO_TO_THE_64;
    assert q * TWO_TO_THE_64 + n % TWO_TO_THE_64 == n;
  }

  /** One step of the generator, modulo 2^64. */
  function LcgNext(state: nat): (r: nat)
    ensures r < TWO_TO_THE_64
    ensures exists q: nat :: q * TWO_TO_THE_64 + r == 6364136223846793005 * state + 1442695040888963407
  {
    LcgStep(state);
    (state * 6364136223846793005 + 1442695040888963407) % TWO_TO_THE_64
  }
}
