/** The bit-plane compressor: a bit-matrix transpose, an encoding of each plane relative to the
    plane before it, and the padding of the reported size to a buddy-allocator granularity. */
module BitPlaneCompressor {
  import opened Bits

  const WORDS_PER_LINE: nat := 16
  const BITS_PER_WORD: nat := 32
  const TAG_BITS: nat := 3
  const BLK_SIZE: nat := 64

  datatype PlaneEncoding = AllZeros | AllOnes | SameAsPrev | CompOfPrev | Uncompressed

  /** The tags and raw planes of a BPCData. */
  datatype Packed = Packed(tags: seq<PlaneEncoding>, rawPlanes: seq<nat>)

  // ---------------------------------------------------------------- transpose

  /** Bit w of the result is bit `bit` of words[w]. */
  function Plane(words: seq<nat>, bit: nat): nat {
    if |words| == 0 then 0
    else
      var low := Plane(words[..|words| - 1], bit);
      if Bit(words[|words| - 1], bit) then Or(low, Pow2(|words| - 1)) else low
  }

  function Transpose(rows: seq<nat>, columns: nat): (r: seq<nat>)
    ensures |r| == columns
  {
    seq(columns, c requires 0 <= c < columns => Plane(rows, c))
  }

  lemma {:induction false} PlaneBits(words: seq<nat>, bit: nat)
    ensures Plane(words, bit) < Pow2(|words|)
    ensures forall w: nat :: w < |words| ==> Bit(Plane(words, bit), w) == Bit(words[w], bit)
    decreases |words|
  {
    if |words| > 0 {
      var n := |words| - 1;
      var low := Plane(words[..n], bit);
      PlaneBits(words[..n], bit);
      OrPow(low, n);
      HighBits(low, n, n);
      forall w: nat | w < |words| ensures Bit(Plane(words, bit), w) == Bit(words[w], bit) {
        if w < n { assert words[..n][w] == words[w]; }
      }
    }
  }

  /** Transposing twice gives the words back, for every number of words and of bits. */
  lemma TransposeTwice(words: seq<nat>, bits: nat)
    requires forall w :: 0 <= w < |words| ==> words[w] < Pow2(bits)
    ensures Transpose(Transpose(words, bits), |words|) == words
  {
    var planes := Transpose(words, bits);
    forall w: nat | w < |words| ensures Plane(planes, w) == words[w] {
      PlaneBits(planes, w);
      forall b: nat | b < bits ensures Bit(Plane(planes, w), b) == Bit(words[w], b) {
        PlaneBits(words, b);
        assert planes[b] == Plane(words, b);
      }
      SameLowBits(Plane(planes, w), words[w], bits);
    }
  }

  method ExtractPlane(words: seq<nat>, bit: nat) returns (plane: nat)
    ensures plane == Plane(words, bit)
    ensures plane < Pow2(|words|)
    ensures forall w: nat :: w < |words| ==> Bit(plane, w) == Bit(words[w], bit)
  {
    plane := 0;
    for w := 0 to |words|
      invariant plane == Plane(words[..w], bit)
    {
      assert words[..w + 1][..w] == words[..w];
      if Shr(words[w], bit) % 2 == 1 {
        plane := Or(plane, Pow2(w));
      }
    }
    assert words[..|words|] == words;
    PlaneBits(words, bit);
  }

  method ReconstructWords(planes: seq<nat>, words: array<nat>)
    modifies words
    ensures words[..] == Transpose(planes, words.Length)
  {
    for w := 0 to words.Length
      invariant forall v :: 0 <= v < w ==> words[v] == 0
    {
      words[w] := 0;
    }
    for bit := 0 to |planes|
      invariant forall v :: 0 <= v < words.Length ==> words[v] == Plane(planes[..bit], v)
    {
      assert planes[..bit + 1][..bit] == planes[..bit];
      for w := 0 to words.Length
        invariant forall v :: 0 <= v < w ==> words[v] == Plane(planes[..bit + 1], v)
        invariant forall v :: w <= v < words.Length ==> words[v] == Plane(planes[..bit], v)
      {
        if Shr(planes[bit], w) % 2 == 1 {
          words[w] := Or(words[w], Pow2(bit));
        }
      }
    }
    assert planes[..|planes|] == planes;
  }

  // ---------------------------------------------------------------- plane encoding

  function Classify(plane: nat, prev: nat, mask: nat): PlaneEncoding {
    if plane == 0 then AllZeros
    else if plane == mask then AllOnes
    else if plane == prev then SameAsPrev
    else if plane == NotAnd(prev, mask) then CompOfPrev
    else Uncompressed
  }

  function Encode(planes: seq<nat>, prev: nat, mask: nat): (r: Packed)
    ensures |r.tags| == |planes|
  {
    if |planes| == 0 then Packed([], [])
    else
      var tag := Classify(planes[0], prev, mask);
      var rest := Encode(planes[1..], planes[0], mask);
      Packed([tag] + rest.tags, (if tag == Uncompressed then [planes[0]] else []) + rest.rawPlanes)
  }

  /** A loop that has emitted tags and raw, and still has the planes `rest` to encode, ends in whole. */
  ghost predicate Emits(tags: seq<PlaneEncoding>, raw: seq<nat>, rest: seq<nat>, prev: nat, mask: nat, whole: Packed) {
    && whole.tags == tags + Encode(rest, prev, mask).tags
    && whole.rawPlanes == raw + Encode(rest, prev, mask).rawPlanes
  }

  lemma EmitsStep(tags: seq<PlaneEncoding>, raw: seq<nat>, rest: seq<nat>, prev: nat, mask: nat, whole: Packed)
    requires |rest| > 0 && Emits(tags, raw, rest, prev, mask, whole)
    ensures var tag := Classify(rest[0], prev, mask);
            Emits(tags + [tag], if tag == Uncompressed then raw + [rest[0]] else raw, rest[1..], rest[0], mask, whole)
  {
    var tag := Classify(rest[0], prev, mask);
    var later := Encode(rest[1..], rest[0], mask);
    assert tags + ([tag] + later.tags) == (tags + [tag]) + later.tags;
    assert raw + ([rest[0]] + later.rawPlanes) == (raw + [rest[0]]) + later.rawPlanes;
    assert [] + later.rawPlanes == later.rawPlanes;
  }

  lemma EmitsNext(tags: seq<PlaneEncoding>, raw: seq<nat>, planes: seq<nat>, i: nat, prev: nat, mask: nat,
                  whole: Packed)
    requires i < |planes| && Emits(tags, raw, planes[i..], prev, mask, whole)
    ensures var tag, plane := Classify(planes[i], prev, mask), planes[i];
            Emits(tags + [tag], if tag == Uncompressed then raw + [plane] else raw, planes[i + 1..], plane, mask, whole)
  {
    assert planes[i..][1..] == planes[i + 1..];
    EmitsStep(tags, raw, planes[i..], prev, mask, whole);
  }

  function RawCount(tags: seq<PlaneEncoding>): nat {
    if |tags| == 0 then 0 else (if tags[0] == Uncompressed then 1 else 0) + RawCount(tags[1..])
  }

  function Decode(tags: seq<PlaneEncoding>, raw: seq<nat>, prev: nat, mask: nat): (r: seq<nat>)
    requires RawCount(tags) <= |raw|
    ensures |r| == |tags|
  {
    if |tags| == 0 then []
    else
      var plane := PlaneOf(tags[0], raw, prev, mask);
      [plane] + Decode(tags[1..], if tags[0] == Uncompressed then raw[1..] else raw, plane, mask)
  }

  /** A loop that has produced planes, with tags and raw planes left to read, ends in whole. */
  ghost predicate Yields(planes: seq<nat>, tags: seq<PlaneEncoding>, raw: seq<nat>, prev: nat, mask: nat,
                         whole: seq<nat>)
  {
    RawCount(tags) <= |raw| && whole == planes + Decode(tags, raw, prev, mask)
  }

  function PlaneOf(tag: PlaneEncoding, raw: seq<nat>, prev: nat, mask: nat): nat
    requires tag == Uncompressed ==> |raw| > 0
  {
    match tag
    case AllZeros => 0
    case AllOnes => mask
    case SameAsPrev => prev
    case CompOfPrev => NotAnd(prev, mask)
    case Uncompressed => raw[0]
  }

  lemma YieldsStep(planes: seq<nat>, tags: seq<PlaneEncoding>, raw: seq<nat>, prev: nat, mask: nat, whole: seq<nat>)
    requires |tags| > 0 && Yields(planes, tags, raw, prev, mask, whole)
    ensures tags[0] == Uncompressed ==> |raw| > 0
    ensures var plane := PlaneOf(tags[0], raw, prev, mask);
            Yields(planes + [plane], tags[1..], if tags[0] == Uncompressed then raw[1..] else raw, plane, mask, whole)
  {
    var plane := PlaneOf(tags[0], raw, prev, mask);
    var later := Decode(tags[1..], if tags[0] == Uncompressed then raw[1..] else raw, plane, mask);
    assert planes + ([plane] + later) == (planes + [plane]) + later;
  }

  /** The decoder's previous-plane and raw-plane cursors follow the encoder's: the planes come back
      and every raw plane is consumed. */
  lemma {:induction false} DecodeEncode(planes: seq<nat>, prev: nat, mask: nat)
    ensures RawCount(Encode(planes, prev, mask).tags) == |Encode(planes, prev, mask).rawPlanes|
    ensures var e := Encode(planes, prev, mask); Decode(e.tags, e.rawPlanes, prev, mask) == planes
    decreases |planes|
  {
    if |planes| > 0 {
      DecodeEncode(planes[1..], planes[0], mask);
      var e := Encode(planes, prev, mask);
      var rest := Encode(planes[1..], planes[0], mask);
      assert e.tags[1..] == rest.tags;
      if e.tags[0] == Uncompressed {
        assert e.rawPlanes[1..] == rest.rawPlanes;
      } else {
        assert e.rawPlanes == rest.rawPlanes;
      }
      assert planes == [planes[0]] + planes[1..];
    }
  }

  function Mask(words: nat): nat { Pow2(words) - 1 }

  function Compressed(words: seq<nat>, bits: nat): (r: Packed)
    ensures |r.tags| == bits
  {
    Encode(Transpose(words, bits), 0, Mask(|words|))
  }

  function Decompressed(p: Packed, words: nat): seq<nat>
    requires RawCount(p.tags) <= |p.rawPlanes|
  {
    Transpose(Decode(p.tags, p.rawPlanes, 0, Mask(words)), words)
  }

  /** decompress(compress(line)) == line, for every number of words and every word width. */
  lemma RoundTrip(words: seq<nat>, bits: nat)
    requires forall w :: 0 <= w < |words| ==> words[w] < Pow2(bits)
    ensures RawCount(Compressed(words, bits).tags) == |Compressed(words, bits).rawPlanes|
    ensures Decompressed(Compressed(words, bits), |words|) == words
  {
    DecodeEncode(Transpose(words, bits), 0, Mask(|words|));
    TransposeTwice(words, bits);
  }

  // ---------------------------------------------------------------- the encoding, digit by digit

  ghost predicate NoneSet(words: seq<nat>, i: nat) {
    forall w :: 0 <= w < |words| ==> !Bit(words[w], i)
  }

  ghost predicate AllSet(words: seq<nat>, i: nat) {
    forall w :: 0 <= w < |words| ==> Bit(words[w], i)
  }

  ghost predicate SameDigits(words: seq<nat>, i: nat, j: nat) {
    forall w :: 0 <= w < |words| ==> Bit(words[w], i) == Bit(words[w], j)
  }

  ghost predicate OppositeDigits(words: seq<nat>, i: nat, j: nat) {
    forall w :: 0 <= w < |words| ==> Bit(words[w], i) != Bit(words[w], j)
  }

  /** What a plane's tag means for the digits of the words. */
  ghost predicate TagMeans(tag: PlaneEncoding, words: seq<nat>, i: nat) {
    && (tag == AllZeros <==> NoneSet(words, i))
    && (tag == AllOnes <==> !NoneSet(words, i) && AllSet(words, i))
    && (tag == SameAsPrev <==> !NoneSet(words, i) && !AllSet(words, i) && i > 0 && SameDigits(words, i, i - 1))
    && (tag == CompOfPrev <==> !NoneSet(words, i) && !AllSet(words, i) && i > 0 && OppositeDigits(words, i, i - 1))
  }

  /** The positions below n of the uncompressed planes. */
  ghost function RawPositions(tags: seq<PlaneEncoding>, n: nat): set<nat> {
    set i: nat | i < n && i < |tags| && tags[i] == Uncompressed
  }

  ghost predicate IsPlane(plane: nat, words: seq<nat>, i: nat) {
    plane < Pow2(|words|) && forall w: nat :: w < |words| ==> Bit(plane, w) == Bit(words[w], i)
  }

  /** Every tag says what is true of the words, and the raw planes are the uncompressed ones in order. */
  ghost predicate Encodes(data: Packed, words: seq<nat>, bits: nat) {
    && |data.tags| == bits
    && (forall i :: 0 <= i < bits ==> TagMeans(data.tags[i], words, i))
    && |data.rawPlanes| == |RawPositions(data.tags, bits)|
    && (forall i :: 0 <= i < bits && data.tags[i] == Uncompressed ==> RawAt(data, words, i))
  }

  ghost predicate RawAt(data: Packed, words: seq<nat>, i: nat) {
    var r := |RawPositions(data.tags, i)|;
    r < |data.rawPlanes| && IsPlane(data.rawPlanes[r], words, i)
  }

  /** Classifying a plane against its predecessor is comparing digits. */
  lemma ClassifyMeans(words: seq<nat>, i: nat)
    ensures TagMeans(Classify(Plane(words, i), if i == 0 then 0 else Plane(words, i - 1), Mask(|words|)), words, i)
  {
    var n, plane := |words|, Plane(words, i);
    PlaneBits(words, i);
    ZeroPlane(words, i);
    FullPlane(words, i);
    if i > 0 {
      PlaneBits(words, i - 1);
      EqualPlanes(words, i, i - 1);
      OppositePlanes(words, i, i - 1);
    } else if plane != 0 && plane != Mask(n) {
      OppositeOfZero(n);
    }
    if !NoneSet(words, i) && i > 0 && SameDigits(words, i, i - 1) {
      var w :| 0 <= w < n && Bit(words[w], i);
      assert !OppositeDigits(words, i, i - 1);
    }
  }

  lemma ZeroPlane(words: seq<nat>, i: nat)
    ensures Plane(words, i) == 0 <==> NoneSet(words, i)
  {
    PlaneBits(words, i);
    forall w: nat ensures !Bit(0, w) { ShrZero(w); }
    if NoneSet(words, i) { SameLowBits(Plane(words, i), 0, |words|); }
  }

  lemma FullPlane(words: seq<nat>, i: nat)
    ensures Plane(words, i) == Mask(|words|) <==> AllSet(words, i)
  {
    PlaneBits(words, i);
    forall w: nat ensures Bit(Mask(|words|), w) == (w < |words|) { MaskBit(|words|, w); }
    if AllSet(words, i) { SameLowBits(Plane(words, i), Mask(|words|), |words|); }
  }

  lemma EqualPlanes(words: seq<nat>, i: nat, j: nat)
    ensures Plane(words, i) == Plane(words, j) <==> SameDigits(words, i, j)
  {
    PlaneBits(words, i);
    PlaneBits(words, j);
    if SameDigits(words, i, j) { SameLowBits(Plane(words, i), Plane(words, j), |words|); }
  }

  lemma OppositePlanes(words: seq<nat>, i: nat, j: nat)
    ensures Plane(words, i) == NotAnd(Plane(words, j), Mask(|words|)) <==> OppositeDigits(words, i, j)
  {
    var n, a, b := |words|, Plane(words, i), NotAnd(Plane(words, j), Mask(|words|));
    PlaneBits(words, i);
    PlaneBits(words, j);
    BitwiseBound(NotAndBit, Plane(words, j), Mask(n), n);
    forall w: nat | w < n ensures Bit(b, w) == !Bit(words[w], j) {
      BitwiseBit(NotAndBit, Plane(words, j), Mask(n), w);
      MaskBit(n, w);
    }
    if OppositeDigits(words, i, j) { SameLowBits(a, b, n); }
  }

  lemma OppositeOfZero(n: nat)
    ensures NotAnd(0, Mask(n)) == Mask(n)
  {
    BitwiseBound(NotAndBit, 0, Mask(n), n);
    forall w: nat ensures Bit(NotAnd(0, Mask(n)), w) == Bit(Mask(n), w) {
      BitwiseBit(NotAndBit, 0, Mask(n), w);
      ShrZero(w);
    }
    SameBits(NotAnd(0, Mask(n)), Mask(n));
  }

  lemma {:induction false} EncodeTag(planes: seq<nat>, prev: nat, mask: nat, i: nat)
    requires i < |planes|
    ensures Encode(planes, prev, mask).tags[i] == Classify(planes[i], if i == 0 then prev else planes[i - 1], mask)
    decreases i
  {
    if i > 0 { EncodeTag(planes[1..], planes[0], mask, i - 1); }
  }

  lemma {:induction false} EncodeRaw(planes: seq<nat>, prev: nat, mask: nat, i: nat)
    requires i < |planes| && Encode(planes, prev, mask).tags[i] == Uncompressed
    ensures var e, r := Encode(planes, prev, mask), RawCount(Encode(planes, prev, mask).tags[..i]);
            r < |e.rawPlanes| && e.rawPlanes[r] == planes[i]
    decreases i
  {
    if i > 0 {
      var e, rest := Encode(planes, prev, mask), Encode(planes[1..], planes[0], mask);
      EncodeRaw(planes[1..], planes[0], mask, i - 1);
      assert e.tags[..i][1..] == rest.tags[..i - 1];
    }
  }

  lemma {:induction false} RawCountPush(tags: seq<PlaneEncoding>, tag: PlaneEncoding)
    ensures RawCount(tags + [tag]) == RawCount(tags) + if tag == Uncompressed then 1 else 0
  {
    if |tags| > 0 {
      assert (tags + [tag])[1..] == tags[1..] + [tag];
      RawCountPush(tags[1..], tag);
    }
  }

  lemma {:induction false} RawPositionsCount(tags: seq<PlaneEncoding>, n: nat)
    requires n <= |tags|
    ensures |RawPositions(tags, n)| == RawCount(tags[..n])
  {
    if n == 0 {
      assert RawPositions(tags, n) == {};
    } else {
      RawPositionsCount(tags, n - 1);
      RawCountPush(tags[..n - 1], tags[n - 1]);
      assert tags[..n] == tags[..n - 1] + [tags[n - 1]];
      assert RawPositions(tags, n) ==
             if tags[n - 1] == Uncompressed then RawPositions(tags, n - 1) + {n - 1} else RawPositions(tags, n - 1);
    }
  }

  /** The compressor's output, for every number of words and of bits. */
  lemma CompressedEncodes(words: seq<nat>, bits: nat)
    ensures Encodes(Compressed(words, bits), words, bits)
  {
    var planes, data := Transpose(words, bits), Compressed(words, bits);
    forall i | 0 <= i < bits ensures TagMeans(data.tags[i], words, i) {
      EncodeTag(planes, 0, Mask(|words|), i);
      ClassifyMeans(words, i);
    }
    DecodeEncode(planes, 0, Mask(|words|));
    RawPositionsCount(data.tags, bits);
    assert data.tags[..bits] == data.tags;
    forall i | 0 <= i < bits && data.tags[i] == Uncompressed ensures RawAt(data, words, i) {
      EncodeRaw(planes, 0, Mask(|words|), i);
      RawPositionsCount(data.tags, i);
      PlaneBits(words, i);
    }
  }

  /** The bits of the words whose planes are neither uniform nor equal or opposite to the one before. */
  ghost function RawBits(words: seq<nat>, bits: nat): set<nat> {
    set i: nat | i < bits && IsRaw(words, i)
  }

  ghost predicate IsRaw(words: seq<nat>, i: nat) {
    && !NoneSet(words, i) && !AllSet(words, i)
    && (i > 0 ==> !SameDigits(words, i, i - 1) && !OppositeDigits(words, i, i - 1))
  }

  lemma RawPlaneCount(words: seq<nat>, bits: nat)
    ensures |Compressed(words, bits).rawPlanes| == |RawBits(words, bits)|
  {
    CompressedEncodes(words, bits);
    var tags := Compressed(words, bits).tags;
    forall i: nat ensures i in RawPositions(tags, bits) <==> i in RawBits(words, bits) {
      if i < bits { assert TagMeans(tags[i], words, i); }
    }
    assert RawPositions(tags, bits) == RawBits(words, bits);
  }

  /** What each tag makes of the words, for whatever tags and raw planes. */
  ghost predicate Decodes(data: Packed, words: seq<nat>)
    requires RawCount(data.tags) <= |data.rawPlanes|
  {
    forall w, i :: 0 <= w < |words| && 0 <= i < |data.tags| ==> DigitDecoded(data, words[w], w, i)
  }

  ghost predicate DigitDecoded(data: Packed, word: nat, w: nat, i: nat)
    requires i < |data.tags|
  {
    match data.tags[i]
    case AllZeros => !Bit(word, i)
    case AllOnes => Bit(word, i)
    case SameAsPrev => Bit(word, i) <==> i > 0 && Bit(word, i - 1)
    case CompOfPrev => Bit(word, i) <==> i == 0 || !Bit(word, i - 1)
    case Uncompressed =>
      var r := |RawPositions(data.tags, i)|;
      r < |data.rawPlanes| && (Bit(word, i) <==> Bit(data.rawPlanes[r], w))
  }

  lemma {:induction false} DecodeAt(tags: seq<PlaneEncoding>, raw: seq<nat>, prev: nat, mask: nat, i: nat)
    requires i < |tags| && RawCount(tags) <= |raw|
    ensures tags[i] == Uncompressed ==> RawCount(tags[..i]) < |raw|
    ensures var d := Decode(tags, raw, prev, mask);
            d[i] == PlaneOf(tags[i], if tags[i] == Uncompressed then [raw[RawCount(tags[..i])]] else [],
                            if i == 0 then prev else d[i - 1], mask)
    decreases i
  {
    if i > 0 {
      DecodeAt(tags[1..], if tags[0] == Uncompressed then raw[1..] else raw, PlaneOf(tags[0], raw, prev, mask), mask,
               i - 1);
      assert tags[..i][1..] == tags[1..][..i - 1];
    }
  }

  lemma DecompressedDecodes(data: Packed, words: nat)
    requires RawCount(data.tags) <= |data.rawPlanes|
    ensures Decodes(data, Decompressed(data, words))
  {
    var line := Decompressed(data, words);
    forall w, i | 0 <= w < words && 0 <= i < |data.tags| ensures DigitDecoded(data, line[w], w, i) {
      DecodedDigit(data, words, w, i);
    }
  }

  lemma DecodedDigit(data: Packed, words: nat, w: nat, i: nat)
    requires RawCount(data.tags) <= |data.rawPlanes| && w < words && i < |data.tags|
    ensures DigitDecoded(data, Decompressed(data, words)[w], w, i)
  {
    var planes := Decode(data.tags, data.rawPlanes, 0, Mask(words));
    var prev := if i == 0 then 0 else planes[i - 1];
    PlaneBits(planes, w);
    DecodeAt(data.tags, data.rawPlanes, 0, Mask(words), i);
    RawPositionsCount(data.tags, i);
    ShrZero(w);
    MaskBit(words, w);
    BitwiseBit(NotAndBit, prev, Mask(words), w);
  }

  // ---------------------------------------------------------------- reported size

  /** Bits before the floor and the padding: a tag per plane, and the raw planes. */
  function EncodedBits(bits: nat, words: nat, raw: nat): nat {
    TAG_BITS * bits + words * raw
  }

  lemma EncodedBitsNext(bits: nat, words: nat, raw: nat)
    ensures EncodedBits(bits + 1, words, raw) == EncodedBits(bits, words, raw) + TAG_BITS
    ensures EncodedBits(bits + 1, words, raw + 1) == EncodedBits(bits, words, raw) + TAG_BITS + words
  {
  }

  function FloorBits(encoded: nat, ratio: int): nat {
    if ratio > 0 && encoded < BLK_SIZE * 8 / ratio then BLK_SIZE * 8 / ratio else encoded
  }

  function GrowPadded(padded: nat, rawBytes: nat, blkSize: nat): (r: nat)
    requires 0 < padded
    decreases blkSize - padded
  {
    if padded < rawBytes && padded < blkSize then GrowPadded(2 * padded, rawBytes, blkSize) else padded
  }

  function PaddedBytes(bits: nat, blkSize: nat): nat {
    var p := GrowPadded(8, (bits + 7) / 8, blkSize);
    if p > blkSize then blkSize else p
  }

  /** The size in bits that compress reports for a 64-byte line with `raw` uncompressed planes. */
  function ReportedBits(raw: nat, ratio: int): nat {
    8 * PaddedBytes(FloorBits(EncodedBits(BITS_PER_WORD, WORDS_PER_LINE, raw), ratio), BLK_SIZE)
  }

  /** The padding of a line of 64 bytes is the least of 8, 16, 32, 64 that is large enough. */
  lemma PaddedTable(bits: nat)
    ensures PaddedBytes(bits, BLK_SIZE) ==
            if bits <= 64 then 8 else if bits <= 128 then 16 else if bits <= 256 then 32 else 64
  {
    var raw := (bits + 7) / 8;
    assert GrowPadded(8, raw, 64) == if raw <= 8 then 8 else GrowPadded(16, raw, 64);
    assert GrowPadded(16, raw, 64) == if raw <= 16 then 16 else GrowPadded(32, raw, 64);
    assert GrowPadded(32, raw, 64) == if raw <= 32 then 32 else GrowPadded(64, raw, 64);
  }

  /** The least number of bits that a ratio cap lets a line report. */
  function CapBits(cap: int): nat {
    if cap > 0 then 512 / cap else 0
  }

  ghost predicate Covers(size: nat, need: int, floor: nat) {
    size >= need && size >= floor
  }

  /** The least of 64, 128, 256 and 512 bits that covers the need and the floor, or 512 if none does. */
  ghost predicate LeastSize(size: nat, need: int, floor: nat) {
    && size in {64, 128, 256, 512}
    && (size == 512 || Covers(size, need, floor))
    && (size > 64 ==> !Covers(64, need, floor))
    && (size > 128 ==> !Covers(128, need, floor))
    && (size > 256 ==> !Covers(256, need, floor))
  }

  lemma PaddedLeast(need: nat, ratio: int)
    ensures LeastSize(8 * PaddedBytes(FloorBits(need, ratio), BLK_SIZE), need, CapBits(ratio))
  {
    PaddedTable(FloorBits(need, ratio));
  }

  /** The reported size follows from the number of uncompressed planes; it is always one of the
      allocator's sizes, and with a positive cap the reported compression ratio respects the cap. */
  lemma ReportedTable(raw: nat, ratio: int)
    ensures ratio <= 0 ==>
              ReportedBits(raw, ratio) == if raw <= 2 then 128 else if raw <= 10 then 256 else 512
    ensures ReportedBits(raw, ratio) in {128, 256, 512}
    ensures ratio > 0 ==> ReportedBits(raw, ratio) * ratio >= BLK_SIZE * 8
    ensures ReportedBits(raw, ratio) >= ReportedBits(raw, 0)
  {
    var encoded := EncodedBits(BITS_PER_WORD, WORDS_PER_LINE, raw);
    assert encoded == 96 + 16 * raw;
    PaddedTable(FloorBits(encoded, ratio));
    PaddedTable(encoded);
    if ratio > 0 {
      var f := 512 / ratio;
      assert FloorBits(encoded, ratio) >= f;
      if ratio >= 4 {
        assert ReportedBits(raw, ratio) * ratio >= 128 * ratio;
      } else {
        assert ratio == 1 || ratio == 2 || ratio == 3;
      }
    }
  }

  /** The header says that a cap of 1 means uncapped. In the code a cap of 1 reports every line at its
      full size; the reported sizes are the uncapped ones exactly for caps outside 1, 2 and 3. */
  lemma UncappedExactly(ratio: int)
    ensures (forall raw: nat :: ReportedBits(raw, ratio) == ReportedBits(raw, 0)) <==> ratio <= 0 || ratio >= 4
    ensures forall raw: nat :: ReportedBits(raw, 1) == 8 * BLK_SIZE
  {
    forall raw: nat ensures ReportedBits(raw, 1) == 8 * BLK_SIZE { ReportedTable(raw, 1); }
    ReportedTable(0, 0);
    ReportedTable(0, ratio);
    if ratio <= 0 || ratio >= 4 {
      forall raw: nat ensures ReportedBits(raw, ratio) == ReportedBits(raw, 0) { LargeCap(raw, ratio); }
    } else {
      assert ReportedBits(0, ratio) * ratio >= 512;
      assert ReportedBits(0, ratio) != 128 by { assert 128 * ratio < 512; }
      assert ReportedBits(0, ratio) != ReportedBits(0, 0);
    }
  }

  lemma LargeCap(raw: nat, ratio: int)
    requires ratio <= 0 || ratio >= 4
    ensures ReportedBits(raw, ratio) == ReportedBits(raw, 0)
  {
    var encoded := EncodedBits(BITS_PER_WORD, WORDS_PER_LINE, raw);
    assert encoded == 96 + 16 * raw;
    PaddedTable(encoded);
    PaddedTable(FloorBits(encoded, ratio));
    if ratio >= 4 {
      assert BLK_SIZE * 8 / ratio <= 128 by { QuotientBound(512, ratio, 4); }
    }
  }

  lemma QuotientBound(n: nat, d: nat, e: nat)
    requires d >= e > 0
    ensures n / d <= n / e
  {
    var q := n / d;
    assert q * d <= n;
    assert q * e <= q * d;
    assert n == (n / e) * e + n % e;
    MulAtLeast(q - n / e, e);
    assert (q - n / e) * e == q * e - (n / e) * e;
  }

  class BPC {
    const maxCompressionRatio: int

    constructor (ratio: int)
      ensures maxCompressionRatio == ratio
    {
      maxCompressionRatio := ratio;
    }

    /** Tags and raw planes that say what is true of the words, and the least padded size, in bits, that
        holds them and respects the ratio cap. */
    method Compress(words: seq<nat>, bits: nat) returns (data: Packed, sizeBits: nat)
      ensures data == Compressed(words, bits) && Encodes(data, words, bits)
      ensures LeastSize(sizeBits, 3 * bits + |words| * |data.rawPlanes|, CapBits(maxCompressionRatio))
    {
      var compressedBits;
      data, compressedBits := EncodePlanes(words, bits);
      CompressedEncodes(words, bits);
      sizeBits := PadSize(compressedBits);
    }

    static method EncodePlanes(words: seq<nat>, bits: nat) returns (data: Packed, compressedBits: nat)
      ensures data == Compressed(words, bits) && compressedBits == 3 * bits + |words| * |data.rawPlanes|
    {
      var prev: nat := 0;
      compressedBits := 0;
      var tags, rawPlanes: seq<nat> := [], [];
      var mask := Pow2(|words|) - 1;
      ghost var planes := Transpose(words, bits);
      ghost var whole := Encode(planes, 0, mask);
      assert planes[0..] == planes;
      for bit := 0 to bits
        invariant |tags| == bit
        invariant Emits(tags, rawPlanes, planes[bit..], prev, mask, whole)
        invariant compressedBits == EncodedBits(bit, |words|, |rawPlanes|)
      {
        var plane := ExtractPlane(words, bit);
        EmitsNext(tags, rawPlanes, planes, bit, prev, mask, whole);
        EncodedBitsNext(bit, |words|, |rawPlanes|);
        var tag;
        tag, rawPlanes, compressedBits := EncodePlane(plane, prev, mask, |words|, rawPlanes, compressedBits);
        tags := tags + [tag];
        prev := plane;
      }
      assert tags + [] == tags && rawPlanes + [] == rawPlanes;
      data := Packed(tags, rawPlanes);
    }

    /** One plane: its tag, and the raw plane and the bits that it adds. */
    static method EncodePlane(plane: nat, prev: nat, mask: nat, words: nat, raw: seq<nat>, bits: nat)
      returns (tag: PlaneEncoding, rawPlanes: seq<nat>, compressedBits: nat)
      ensures tag == Classify(plane, prev, mask)
      ensures rawPlanes == if tag == Uncompressed then raw + [plane] else raw
      ensures compressedBits == bits + TAG_BITS + if tag == Uncompressed then words else 0
    {
      rawPlanes, compressedBits := raw, bits;
      if plane == 0 {
        tag := AllZeros;
        compressedBits := compressedBits + TAG_BITS;
      } else if plane == mask {
        tag := AllOnes;
        compressedBits := compressedBits + TAG_BITS;
      } else if plane == prev {
        tag := SameAsPrev;
        compressedBits := compressedBits + TAG_BITS;
      } else if plane == NotAnd(prev, mask) {
        tag := CompOfPrev;
        compressedBits := compressedBits + TAG_BITS;
      } else {
        tag := Uncompressed;
        rawPlanes := rawPlanes + [plane];
        compressedBits := compressedBits + TAG_BITS + words;
      }
    }

    /** The tail of compress: the ratio floor, then the padding to a power of two of bytes. */
    method PadSize(encodedBits: nat) returns (sizeBits: nat)
      ensures sizeBits == 8 * PaddedBytes(FloorBits(encodedBits, maxCompressionRatio), BLK_SIZE)
      ensures LeastSize(sizeBits, encodedBits, CapBits(maxCompressionRatio))
    {
      PaddedLeast(encodedBits, maxCompressionRatio);
      var compressedBits := encodedBits;
      if maxCompressionRatio > 0 {
        var floorBits := BLK_SIZE * 8 / maxCompressionRatio;
        if compressedBits < floorBits { compressedBits := floorBits; }
      }
      var rawBytes := (compressedBits + 7) / 8;
      var paddedBytes := 8;
      while paddedBytes < rawBytes && paddedBytes < BLK_SIZE
        invariant 0 < paddedBytes
        invariant GrowPadded(paddedBytes, rawBytes, BLK_SIZE) == GrowPadded(8, rawBytes, BLK_SIZE)
        decreases BLK_SIZE - paddedBytes
      {
        paddedBytes := paddedBytes * 2;
      }
      if paddedBytes > BLK_SIZE { paddedBytes := BLK_SIZE; }
      sizeBits := paddedBytes * 8;
    }

    method Decompress(data: Packed, cacheLine: array<nat>)
      requires RawCount(data.tags) <= |data.rawPlanes|
      modifies cacheLine
      ensures cacheLine[..] == Decompressed(data, cacheLine.Length) && Decodes(data, cacheLine[..])
    {
      DecompressedDecodes(data, cacheLine.Length);
      var planes: seq<nat>, prev: nat, rawIdx: nat := [], 0, 0;
      var mask := Pow2(cacheLine.Length) - 1;
      ghost var whole := Decode(data.tags, data.rawPlanes, 0, mask);
      assert data.tags[0..] == data.tags && data.rawPlanes[0..] == data.rawPlanes;
      for bit := 0 to |data.tags|
        invariant rawIdx <= |data.rawPlanes|
        invariant Yields(planes, data.tags[bit..], data.rawPlanes[rawIdx..], prev, mask, whole)
      {
        ghost var tags, raw := data.tags[bit..], data.rawPlanes[rawIdx..];
        assert tags[0] == data.tags[bit] && tags[1..] == data.tags[bit + 1..];
        YieldsStep(planes, tags, raw, prev, mask, whole);
        var plane: nat;
        match data.tags[bit] {
          case AllZeros => plane := 0;
          case AllOnes => plane := mask;
          case SameAsPrev => plane := prev;
          case CompOfPrev => plane := NotAnd(prev, mask);
          case Uncompressed =>
            assert raw[1..] == data.rawPlanes[rawIdx + 1..];
            plane := data.rawPlanes[rawIdx];
            rawIdx := rawIdx + 1;
        }
        planes := planes + [plane];
        prev := plane;
      }
      assert planes + [] == planes;
      ReconstructWords(planes, cacheLine);
    }
  }

  // ---------------------------------------------------------------- the bytes of a line

  function Word32(b0: nat, b1: nat, b2: nat, b3: nat): nat {
    b0 + 0x100 * (b1 + 0x100 * (b2 + 0x100 * b3))
  }

  /** The little-endian 32-bit word at word index w of a line of bytes. */
  function WordAt(line: seq<byte>, w: nat): nat
    requires 4 * w + 4 <= |line|
  {
    Word32(line[4 * w], line[4 * w + 1], line[4 * w + 2], line[4 * w + 3])
  }

  function WordsOf(line: seq<byte>): (r: seq<nat>)
    requires |line| % 4 == 0
    ensures |r| == |line| / 4
  {
    seq(|line| / 4, w requires 0 <= w < |line| / 4 => WordAt(line, w))
  }

  function ByteAt(words: seq<nat>, i: nat): byte
    requires i < 4 * |words|
  {
    var w := words[i / 4];
    if i % 4 == 0 then w % 0x100
    else if i % 4 == 1 then w / 0x100 % 0x100
    else if i % 4 == 2 then w / 0x100 / 0x100 % 0x100
    else w / 0x100 / 0x100 / 0x100 % 0x100
  }

  function BytesOf(words: seq<nat>): (r: seq<byte>) {
    seq(4 * |words|, i requires 0 <= i < 4 * |words| => ByteAt(words, i))
  }

  lemma LowByte(b: byte, n: nat)
    ensures (b + 0x100 * n) % 0x100 == b && (b + 0x100 * n) / 0x100 == n
  {
  }

  lemma Word32Bytes(b0: byte, b1: byte, b2: byte, b3: byte)
    ensures var n := Word32(b0, b1, b2, b3);
            && n < 0x1_0000_0000
            && n % 0x100 == b0
            && n / 0x100 % 0x100 == b1
            && n / 0x100 / 0x100 % 0x100 == b2
            && n / 0x100 / 0x100 / 0x100 % 0x100 == b3
  {
    LowByte(b0, b1 + 0x100 * (b2 + 0x100 * b3));
    LowByte(b1, b2 + 0x100 * b3);
    LowByte(b2, b3);
  }

  /** Bit i of word w is bit i % 8 of byte 4 * w + i / 8. */
  lemma WordDigits(line: seq<byte>, w: nat, i: nat)
    requires |line| % 4 == 0 && 4 * w + 4 <= |line| && i < 32
    ensures Bit(WordsOf(line)[w], i) == Bit(line[4 * w + i / 8], i % 8)
  {
    var j := i / 8;
    ByteShift(line[4 * w], line[4 * w + 1], line[4 * w + 2], line[4 * w + 3], j);
    ShrShr(WordAt(line, w), 8 * j, i % 8);
    var rest := Shr(WordAt(line, w), 8 * j) / 0x100;
    LowDigits(line[4 * w + j], rest, 8, i % 8);
    assert Pow2(8) == 0x100;
  }

  lemma ByteShift(b0: byte, b1: byte, b2: byte, b3: byte, j: nat)
    requires j < 4
    ensures var n := Shr(Word32(b0, b1, b2, b3), 8 * j);
            n == (if j == 0 then b0 else if j == 1 then b1 else if j == 2 then b2 else b3) + 0x100 * (n / 0x100)
  {
    var n := Word32(b0, b1, b2, b3);
    var n1, n2 := b1 + 0x100 * (b2 + 0x100 * b3), b2 + 0x100 * b3;
    DropByte(b0, n1);
    DropByte(b1, n2);
    DropByte(b2, b3);
    ShrShr(n, 8, 8);
    ShrShr(n, 16, 8);
    LowByte(b3, 0);
  }

  lemma DropByte(b: byte, n: nat)
    ensures Shr(b + 0x100 * n, 8) == n && (b + 0x100 * n) / 0x100 == n
  {
    assert Pow2(8) == 0x100;
    ShrDiv(b + 0x100 * n, 8);
    LowByte(b, n);
  }

  lemma WordFits(line: seq<byte>, w: nat)
    requires 4 * w + 4 <= |line|
    ensures WordAt(line, w) < Pow2(32)
  {
    Word32Bytes(line[4 * w], line[4 * w + 1], line[4 * w + 2], line[4 * w + 3]);
    Pow2Of32();
  }

  lemma Pow2Of32()
    ensures Pow2(32) == 0x1_0000_0000
  {
    assert Pow2(8) == 0x100;
    assert Pow2(16) == 0x1_0000;
    assert Pow2(24) == 0x100_0000;
  }

  lemma BytesBack(line: seq<byte>)
    requires |line| % 4 == 0
    ensures BytesOf(WordsOf(line)) == line
  {
    forall i | 0 <= i < |line| ensures ByteAt(WordsOf(line), i) == line[i] { ByteBack(line, i / 4, i % 4); }
  }

  lemma ByteBack(line: seq<byte>, w: nat, j: nat)
    requires |line| % 4 == 0 && j < 4 && 4 * w + j < |line|
    ensures ByteAt(WordsOf(line), 4 * w + j) == line[4 * w + j]
  {
    QuotientUnique(4 * w + j, 4, w, j);
    Word32Bytes(line[4 * w], line[4 * w + 1], line[4 * w + 2], line[4 * w + 3]);
  }

  /** Every line of bytes survives compression: the bytes come back, word for word. */
  lemma LineRoundTrip(line: seq<byte>)
    requires |line| % 4 == 0
    ensures var packed := Compressed(WordsOf(line), BITS_PER_WORD);
            RawCount(packed.tags) == |packed.rawPlanes| && BytesOf(Decompressed(packed, |line| / 4)) == line
  {
    var words := WordsOf(line);
    forall w | 0 <= w < |words| ensures words[w] < Pow2(32) { WordFits(line, w); }
    RoundTrip(words, BITS_PER_WORD);
    BytesBack(line);
  }
}
