/**
 Completeness and size of partial Merkle trees: packing the flag bits into bytes loses
 nothing, extraction gives back exactly the matches, and how many bits and hashes there are.
 */
module MerkleProofs {
  import opened Collections
  import opened MerkleTree
  import opened Powers

  // ----- flag bits in bytes, least significant bit first

  function Mask(i: nat): bv8
    requires i < 8
  {
    if i == 0 then 1 else if i == 1 then 2 else if i == 2 then 4 else if i == 3 then 8
    else if i == 4 then 16 else if i == 5 then 32 else if i == 6 then 64 else 128
  }

  predicate BitIn(x: bv8, i: nat)
    requires i < 8
  {
    x & Mask(i) != 0
  }

  function WithBit(x: bv8, i: nat, b: bool): bv8
    requires i < 8
  {
    x | (if b then Mask(i) else 0)
  }

  predicate BitOf(bytes: seq<bv8>, p: nat)
    requires p < 8 * |bytes|
  {
    BitIn(bytes[p / 8], p % 8)
  }

  function OrBit(bytes: seq<bv8>, p: nat, b: bool): seq<bv8>
    requires p < 8 * |bytes|
  {
    bytes[p / 8 := WithBit(bytes[p / 8], p % 8, b)]
  }

  /** The bytes after the first `p` bits have been written. */
  function PackUpTo(bits: seq<bool>, p: nat): (r: seq<bv8>)
    requires p <= |bits|
    ensures |r| == (|bits| + 7) / 8
  {
    if p == 0 then seq((|bits| + 7) / 8, i => 0) else OrBit(PackUpTo(bits, p - 1), p - 1, bits[p - 1])
  }

  function Pack(bits: seq<bool>): seq<bv8> {
    PackUpTo(bits, |bits|)
  }

  function Unpack(bytes: seq<bv8>): seq<bool> {
    seq(8 * |bytes|, p requires 0 <= p < 8 * |bytes| => BitOf(bytes, p))
  }

  lemma MaskBits(x: bv8, i: nat, j: nat, b: bool)
    requires i < 8 && j < 8
    ensures BitIn(WithBit(x, i, b), j) <==> (i == j && b) || BitIn(x, j)
  {
    hide Mask;
    MaskIs(i, j);
    MaskOne(x, Mask(i), j, b);
  }

  lemma MaskIs(i: nat, j: nat)
    requires i < 8 && j < 8
    ensures var m := Mask(i); m == 1 || m == 2 || m == 4 || m == 8 || m == 16 || m == 32 || m == 64 || m == 128
    ensures Mask(i) == Mask(j) <==> i == j
  {}

  lemma MaskOne(x: bv8, m: bv8, j: nat, b: bool)
    requires j < 8
    requires m == 1 || m == 2 || m == 4 || m == 8 || m == 16 || m == 32 || m == 64 || m == 128
    ensures (x | (if b then m else 0)) & Mask(j) != 0 <==> (m == Mask(j) && b) || x & Mask(j) != 0
  {}

  lemma OrBitSets(bytes: seq<bv8>, p: nat, b: bool, q: nat)
    requires p < 8 * |bytes| && q < 8 * |bytes|
    ensures BitOf(OrBit(bytes, p, b), q) <==> (p == q && b) || BitOf(bytes, q)
  {
    hide BitIn;
    hide WithBit;
    EighthsOf(p, q);
    MaskBits(bytes[p / 8], p % 8, q % 8, b);
  }

  lemma EighthsOf(p: nat, q: nat)
    ensures p == q <==> p / 8 == q / 8 && p % 8 == q % 8
  {}

  lemma {:induction false} PackedBit(bits: seq<bool>, p: nat, q: nat)
    requires p <= |bits| && q < 8 * ((|bits| + 7) / 8)
    ensures BitOf(PackUpTo(bits, p), q) <==> q < p && bits[q]
  {
    if p > 0 {
      PackedBit(bits, p - 1, q);
      OrBitSets(PackUpTo(bits, p - 1), p - 1, bits[p - 1], q);
    }
  }

  /** Unpacking packed bits gives them back, padded with zeroes to whole bytes. */
  lemma PackRoundTrip(bits: seq<bool>)
    ensures var r := Unpack(Pack(bits));
      && |bits| <= |r| == 8 * ((|bits| + 7) / 8)
      && forall q :: 0 <= q < |r| ==> r[q] == (q < |bits| && bits[q])
  {
    forall q | 0 <= q < |Unpack(Pack(bits))| ensures Unpack(Pack(bits))[q] == (q < |bits| && bits[q]) {
      PackedBit(bits, |bits|, q);
    }
  }

  /** Bit `p` stands in byte `p / 8`, the lowest bit of a byte first. */
  lemma LowBitFirst(bits: seq<bool>, p: nat)
    requires p < |bits|
    ensures (Pack(bits)[p / 8] >> (p % 8)) & 1 == 1 <==> bits[p]
  {
    PackedBit(bits, |bits|, p);
    ShiftedMask(Pack(bits)[p / 8], p % 8);
  }

  lemma ShiftedMask(x: bv8, i: nat)
    requires i < 8
    ensures (x >> i) & 1 == 1 <==> BitIn(x, i)
  {
    if i == 0 {
      assert (x >> 0) & 1 == 1 <==> x & 1 != 0;
    } else if i == 1 {
      assert (x >> 1) & 1 == 1 <==> x & 2 != 0;
    } else if i == 2 {
      assert (x >> 2) & 1 == 1 <==> x & 4 != 0;
    } else if i == 3 {
      assert (x >> 3) & 1 == 1 <==> x & 8 != 0;
    } else if i == 4 {
      assert (x >> 4) & 1 == 1 <==> x & 16 != 0;
    } else if i == 5 {
      assert (x >> 5) & 1 == 1 <==> x & 32 != 0;
    } else if i == 6 {
      assert (x >> 6) & 1 == 1 <==> x & 64 != 0;
    } else {
      assert (x >> 7) & 1 == 1 <==> x & 128 != 0;
    }
  }

  // ----- the matches under the root are all the matches

  /** The matched transactions at positions lo..hi, in order. */
  function MatchesIn(txids: seq<Hash>, mask: seq<bool>, lo: nat, hi: nat): seq<(nat, Hash)>
    requires |mask| == |txids|
  {
    if lo >= hi then [] else
      MatchesIn(txids, mask, lo, hi - 1) + (if hi - 1 < |mask| && mask[hi - 1] then [(hi - 1, txids[hi - 1])] else [])
  }

  lemma {:induction false} MatchesInConcat(txids: seq<Hash>, mask: seq<bool>, lo: nat, mid: nat, hi: nat)
    requires |mask| == |txids| && lo <= mid <= hi
    ensures MatchesIn(txids, mask, lo, mid) + MatchesIn(txids, mask, mid, hi) == MatchesIn(txids, mask, lo, hi)
    decreases hi
  {
    if mid < hi {
      MatchesInConcat(txids, mask, lo, mid, hi - 1);
    }
  }

  lemma {:induction false} MatchesAreIn(txids: seq<Hash>, mask: seq<bool>, h: nat, pos: nat)
    requires |mask| == |txids|
    ensures Matches(txids, mask, h, pos) == MatchesIn(txids, mask, First(h, pos), First(h, pos + 1))
  {
    if h == 0 {
      assert MatchesIn(txids, mask, pos, pos) == [];
    } else {
      FirstStep(h, pos);
      FirstMonotone(h - 1, 2 * pos);
      FirstMonotone(h - 1, 2 * pos + 1);
      MatchesAreIn(txids, mask, h - 1, 2 * pos);
      MatchesAreIn(txids, mask, h - 1, 2 * pos + 1);
      MatchesInConcat(txids, mask, First(h - 1, 2 * pos), First(h - 1, 2 * pos + 1), First(h - 1, 2 * pos + 2));
    }
  }

  lemma {:induction false} MatchesInBeyond(txids: seq<Hash>, mask: seq<bool>, hi: nat)
    requires |mask| == |txids| <= hi
    ensures MatchesIn(txids, mask, 0, hi) == MatchesIn(txids, mask, 0, |mask|)
  {
    if hi > |mask| {
      MatchesInBeyond(txids, mask, hi - 1);
    }
  }

  function AllMatches(txids: seq<Hash>, mask: seq<bool>): seq<(nat, Hash)>
    requires |mask| == |txids|
  {
    MatchesIn(txids, mask, 0, |mask|)
  }

  lemma RootMatches(txids: seq<Hash>, mask: seq<bool>)
    requires |mask| == |txids|
    ensures Matches(txids, mask, Height(|txids|), 0) == AllMatches(txids, mask)
  {
    var H := Height(|txids|);
    assert Width(|txids|, H) <= 1;
    hide *;
    AllMatchesAre(txids, mask);
    MatchesAreIn(txids, mask, H, 0);
    FirstIsShift(H, 0);
    FirstInRange(|txids|, H, 1);
    MatchesInBeyond(txids, mask, First(H, 1));
  }

  lemma AllMatchesAre(txids: seq<Hash>, mask: seq<bool>)
    requires |mask| == |txids|
    ensures AllMatches(txids, mask) == MatchesIn(txids, mask, 0, |txids|)
  {}

  // ----- how much is stored

  /** Existing leaves under a node. */
  function Leaves(n: nat, h: nat, pos: nat): int {
    (if First(h, pos + 1) < n then First(h, pos + 1) else n) - First(h, pos)
  }

  /** There is at most one hash per leaf. */
  lemma {:induction false} HashesPerLeaf(txids: seq<Hash>, mask: seq<bool>, h: nat, pos: nat)
    requires |mask| == |txids| && pos < Width(|txids|, h)
    ensures 1 <= |Build(txids, mask, h, pos).1| <= Leaves(|txids|, h, pos)
  {
    var n := |txids|;
    FirstInRange(n, h, pos);
    FirstMonotone(h, pos);
    if h > 0 && Covers(mask, h, pos) {
      FirstStep(h, pos);
      FirstInRange(n, h - 1, 2 * pos + 1);
      FirstMonotone(h - 1, 2 * pos + 1);
      hide First;
      HashesPerLeaf(txids, mask, h - 1, 2 * pos);
      if 2 * pos + 1 < Width(n, h - 1) {
        HashesPerLeaf(txids, mask, h - 1, 2 * pos + 1);
      }
    }
  }

  lemma LevelShare(m1: nat, m2: nat, h: nat)
    ensures (m1 + m2) * h == m1 * (h - 1) + m2 * (h - 1) + m1 + m2
  {
    Distribute(m1, m2, h);
  }

  /** There are at most `h` hashes per match, and one more. */
  lemma {:induction false} HashesPerMatch(txids: seq<Hash>, mask: seq<bool>, h: nat, pos: nat)
    requires |mask| == |txids| && pos < Width(|txids|, h)
    ensures |Build(txids, mask, h, pos).1| <= 1 + |Matches(txids, mask, h, pos)| * h
  {
    hide Covers;
    hide CalcHash;
    MatchesNone(txids, mask, h, pos);
    if h > 0 && Covers(mask, h, pos) {
      var m1, m2 := |Matches(txids, mask, h - 1, 2 * pos)|, |Matches(txids, mask, h - 1, 2 * pos + 1)|;
      LevelShare(m1, m2, h);
      HashesPerMatch(txids, mask, h - 1, 2 * pos);
      if 2 * pos + 1 < Width(|txids|, h - 1) {
        HashesPerMatch(txids, mask, h - 1, 2 * pos + 1);
        MatchesNone(txids, mask, h - 1, 2 * pos);
        MatchesNone(txids, mask, h - 1, 2 * pos + 1);
        StopHashes(txids, mask, h - 1, 2 * pos);
        StopHashes(txids, mask, h - 1, 2 * pos + 1);
      } else {
        NoneBeyond(txids, mask, h - 1, 2 * pos + 1);
      }
    }
  }

  lemma StopHashes(txids: seq<Hash>, mask: seq<bool>, h: nat, pos: nat)
    requires |mask| == |txids| && pos < Width(|txids|, h)
    ensures !Covers(mask, h, pos) ==> |Build(txids, mask, h, pos).1| == 1
  {}

  /** Visited nodes that have a single child. */
  function Singles(mask: seq<bool>, h: nat, pos: nat): nat {
    if h == 0 || !Covers(mask, h, pos) then 0
    else if 2 * pos + 1 < Width(|mask|, h - 1) then Singles(mask, h - 1, 2 * pos) + Singles(mask, h - 1, 2 * pos + 1)
    else 1 + Singles(mask, h - 1, 2 * pos)
  }

  /** There are exactly two bits per hash, less one, plus one per visited single-child node. */
  lemma {:induction false} BitsExact(txids: seq<Hash>, mask: seq<bool>, h: nat, pos: nat)
    requires |mask| == |txids| && pos < Width(|txids|, h)
    ensures var t := Build(txids, mask, h, pos); |t.0| == 2 * |t.1| - 1 + Singles(mask, h, pos)
  {
    if h > 0 && Covers(mask, h, pos) {
      BitsExact(txids, mask, h - 1, 2 * pos);
      if 2 * pos + 1 < Width(|txids|, h - 1) {
        BitsExact(txids, mask, h - 1, 2 * pos + 1);
      }
    }
  }

  /** Only the last node of a level can have a single child, so there is at most one a level. */
  lemma {:induction false} SinglesBound(mask: seq<bool>, h: nat, pos: nat)
    requires pos < Width(|mask|, h)
    ensures Singles(mask, h, pos) <= if pos + 1 == Width(|mask|, h) then h else 0
  {
    if h > 0 && Covers(mask, h, pos) {
      SinglesBound(mask, h - 1, 2 * pos);
      if 2 * pos + 1 < Width(|mask|, h - 1) {
        SinglesBound(mask, h - 1, 2 * pos + 1);
      }
    }
  }

  /** The sizes promised in the format description, with the bit count corrected. */
  lemma SizeBounds(txids: seq<Hash>, mask: seq<bool>)
    requires |mask| == |txids| > 0
    ensures Width(|txids|, Height(|txids|)) > 0
    ensures var H := Height(|txids|); var t := Build(txids, mask, H, 0);
      && 1 <= |t.1| <= |txids|
      && |t.1| <= 1 + |AllMatches(txids, mask)| * H
      && 2 * |t.1| - 1 <= |t.0| <= 2 * |t.1| - 1 + H
  {
    var H := Height(|txids|);
    RootExists(|txids|, H);
    HashesPerLeaf(txids, mask, H, 0);
    FirstIsShift(H, 0);
    HashesPerMatch(txids, mask, H, 0);
    RootMatches(txids, mask);
    BitsExact(txids, mask, H, 0);
    SinglesBound(mask, H, 0);
  }

  // ----- when the promised 2N-1 bits suffice

  /** Level `l` ends in a single-child node with a match under it. */
  predicate OddCovered(mask: seq<bool>, l: nat) {
    1 <= l && Width(|mask|, l - 1) % 2 == 1 && Covers(mask, l, Width(|mask|, l) - 1)
  }

  /** The last node of a level lies under the last node of the next. */
  lemma {:induction false} LastUnderLast(mask: seq<bool>, l: nat, h: nat)
    requires |mask| > 0 && l <= h && Width(|mask|, l) > 0 && Width(|mask|, h) > 0
    ensures Covers(mask, l, Width(|mask|, l) - 1) ==> Covers(mask, h, Width(|mask|, h) - 1)
    decreases h
  {
    if l < h {
      RootExists(|mask|, h - 1);
      LastUnderLast(mask, l, h - 1);
      var w := Width(|mask|, h - 1);
      assert 2 * (Width(|mask|, h) - 1) == w - 1 || 2 * (Width(|mask|, h) - 1) + 1 == w - 1;
    }
  }

  lemma {:induction false} SinglesZero(mask: seq<bool>, h: nat)
    requires |mask| > 0 && Width(|mask|, h) > 0
    ensures Singles(mask, h, Width(|mask|, h) - 1) == 0 <==> forall l: nat :: l <= h ==> !OddCovered(mask, l)
  {
    var pos := Width(|mask|, h) - 1;
    if h > 0 {
      RootExists(|mask|, h - 1);
      SinglesZero(mask, h - 1);
      if !Covers(mask, h, pos) {
        forall l: nat | l <= h ensures !OddCovered(mask, l) {
          RootExists(|mask|, l);
          LastUnderLast(mask, l, h);
        }
      } else if 2 * pos + 1 < Width(|mask|, h - 1) {
        SinglesBound(mask, h - 1, 2 * pos);
        assert 2 * pos + 1 == Width(|mask|, h - 1) - 1;
      } else {
        assert OddCovered(mask, h);
      }
    }
  }

  /** The promise of at most 2N-1 bits holds exactly for the masks that have no match under a
      single-child node. */
  lemma PromisedBitsExactly(txids: seq<Hash>, mask: seq<bool>)
    requires |mask| == |txids| > 0
    ensures Width(|txids|, Height(|txids|)) > 0
    ensures var H := Height(|txids|); var t := Build(txids, mask, H, 0);
      |t.0| <= 2 * |t.1| - 1 <==> forall l: nat :: l <= H ==> !OddCovered(mask, l)
  {
    var H := Height(|txids|);
    RootExists(|txids|, H);
    BitsExact(txids, mask, H, 0);
    SinglesZero(mask, H);
  }

  /** The promise fails already for three transactions with the last one matched. */
  lemma PromisedBitsCounterexample(a: Hash, b: Hash, c: Hash)
    ensures Width(3, Height(3)) > 0
    ensures var t := Build([a, b, c], [false, false, true], Height(3), 0); |t.0| > 2 * |t.1| - 1
  {
    var mask := [false, false, true];
    PromisedBitsExactly([a, b, c], mask);
    assert Covers(mask, 0, 2) && Covers(mask, 1, 1);
    assert OddCovered(mask, 1) && 1 <= Height(3);
  }

  // ----- the promised size in bytes

  /** Bytes a count takes in the variable-length encoding. */
  function CompactLen(x: nat): nat {
    if x < 253 then 1 else if x <= 0xFFFF then 3 else if x <= 0xFFFF_FFFF then 5 else 9
  }

  /** Bytes of a serialized tree with `hashes` hashes and `bits` flag bits. */
  function EncodedSize(hashes: nat, bits: nat): nat {
    var bytes := (bits + 7) / 8;
    4 + CompactLen(hashes) + 32 * hashes + CompactLen(bytes) + bytes
  }

  /** 10 + ceil(32.25 * N) */
  function PromisedSize(hashes: nat): nat {
    10 + 32 * hashes + (hashes + 3) / 4
  }

  lemma {:induction false} HeightLeast(n: nat, from: nat, h: nat)
    requires Width(n, h) <= 1 && from <= h
    ensures HeightFrom(n, from) <= h
    decreases h - from
  {
    if Width(n, from) > 1 {
      HeightLeast(n, from + 1, h);
    }
  }

  lemma HeightBound(n: nat)
    requires 0 < n <= MAX_TRANSACTIONS
    ensures Height(n) <= 15
  {
    WidthBounds(n, 15);
    assert Pow2(15) == 32768 by {
      assert Pow2(4) == 16 && Pow2(8) == 256 && Pow2(12) == 4096;
    }
    HeightLeast(n, 0, 15);
  }

  /** Hashes stored for a mask: one for a node where the descent stops, counted without the
      transactions. */
  function HashCount(mask: seq<bool>, h: nat, pos: nat): nat {
    if h == 0 || !Covers(mask, h, pos) then 1
    else if 2 * pos + 1 < Width(|mask|, h - 1) then
      HashCount(mask, h - 1, 2 * pos) + HashCount(mask, h - 1, 2 * pos + 1)
    else HashCount(mask, h - 1, 2 * pos)
  }

  /** Both counts of the built tree follow from the mask alone. */
  lemma {:induction false} CountsExact(txids: seq<Hash>, mask: seq<bool>, h: nat, pos: nat)
    requires |mask| == |txids| && pos < Width(|txids|, h)
    ensures var t := Build(txids, mask, h, pos);
      |t.1| == HashCount(mask, h, pos) && |t.0| == 2 * HashCount(mask, h, pos) - 1 + Singles(mask, h, pos)
  {
    BitsExact(txids, mask, h, pos);
    if h > 0 && Covers(mask, h, pos) {
      CountsExact(txids, mask, h - 1, 2 * pos);
      if 2 * pos + 1 < Width(|txids|, h - 1) {
        CountsExact(txids, mask, h - 1, 2 * pos + 1);
      }
    }
  }

  /** Bytes that 2 * hashes - 1 + singles flag bits fill. */
  function FlagBytes(hashes: nat, singles: nat): nat {
    (2 * hashes + 6 + singles) / 8
  }

  /** The promised size is kept exactly when the mask asks for few flag bytes, or for no more
      than a quarter of its hashes. */
  lemma PromisedSizeExactly(txids: seq<Hash>, mask: seq<bool>)
    requires |mask| == |txids| && 0 < |txids| <= MAX_TRANSACTIONS
    ensures Width(|txids|, Height(|txids|)) > 0
    ensures var H := Height(|txids|); var t := Build(txids, mask, H, 0);
      var hashes := HashCount(mask, H, 0); var bytes := FlagBytes(hashes, Singles(mask, H, 0));
      EncodedSize(|t.1|, |t.0|) <= PromisedSize(|t.1|) <==> bytes < 253 || bytes <= (hashes + 3) / 4
  {
    hide *;
    var H := Height(|txids|);
    SizeBounds(txids, mask);
    CountsExact(txids, mask, H, 0);
    SinglesBound(mask, H, 0);
    HeightBound(|txids|);
    SizeArithmetic(HashCount(mask, H, 0), Singles(mask, H, 0));
  }

  lemma SizeArithmetic(hashes: nat, singles: nat)
    requires 1 <= hashes <= MAX_TRANSACTIONS && singles <= 15
    ensures var bytes := FlagBytes(hashes, singles);
      EncodedSize(hashes, 2 * hashes - 1 + singles) <= PromisedSize(hashes)
      <==> bytes < 253 || bytes <= (hashes + 3) / 4
  {}

  /** Levels below `h` of odd width. */
  function OddLevels(n: nat, h: nat): nat {
    if h == 0 then 0 else OddLevels(n, h - 1) + Width(n, h - 1) % 2
  }

  lemma {:induction false} FullCovers(mask: seq<bool>, h: nat, pos: nat)
    requires pos < Width(|mask|, h) && forall i :: 0 <= i < |mask| ==> mask[i]
    ensures Covers(mask, h, pos)
  {
    if h > 0 {
      FullCovers(mask, h - 1, 2 * pos);
    }
  }

  /** With every transaction matched there is a hash per leaf ... */
  lemma {:induction false} FullHashes(txids: seq<Hash>, mask: seq<bool>, h: nat, pos: nat)
    requires |mask| == |txids| && pos < Width(|txids|, h) && forall i :: 0 <= i < |mask| ==> mask[i]
    ensures |Build(txids, mask, h, pos).1| == Leaves(|txids|, h, pos)
  {
    var n := |txids|;
    FirstInRange(n, h, pos);
    FirstMonotone(h, pos);
    FullCovers(mask, h, pos);
    if h > 0 {
      FirstStep(h, pos);
      FirstInRange(n, h - 1, 2 * pos + 1);
      FirstMonotone(h - 1, 2 * pos + 1);
      hide First;
      hide Covers;
      FullHashes(txids, mask, h - 1, 2 * pos);
      if 2 * pos + 1 < Width(n, h - 1) {
        FullHashes(txids, mask, h - 1, 2 * pos + 1);
      }
    } else {
      FirstInRange(n, 0, pos + 1);
    }
  }

  lemma SinglesStep(mask: seq<bool>, h: nat, pos: nat)
    requires Covers(mask, h, pos)
    ensures Singles(mask, h, pos) ==
            if h == 0 then 0
            else if 2 * pos + 1 < Width(|mask|, h - 1) then
              Singles(mask, h - 1, 2 * pos) + Singles(mask, h - 1, 2 * pos + 1)
            else 1 + Singles(mask, h - 1, 2 * pos)
    ensures OddLevels(|mask|, 0) == 0
    ensures h > 0 ==> OddLevels(|mask|, h) == Width(|mask|, h - 1) % 2 + OddLevels(|mask|, h - 1)
  {
    hide Covers;
    hide Width;
  }

  /** ... and a single-child node for every odd level. */
  lemma {:induction false} FullSingles(mask: seq<bool>, h: nat, pos: nat)
    requires pos < Width(|mask|, h) && forall i :: 0 <= i < |mask| ==> mask[i]
    ensures Singles(mask, h, pos) == if pos + 1 == Width(|mask|, h) then OddLevels(|mask|, h) else 0
  {
    hide Covers;
    hide Singles;
    hide OddLevels;
    FullCovers(mask, h, pos);
    SinglesStep(mask, h, pos);
    if h > 0 {
      FullSingles(mask, h - 1, 2 * pos);
      if 2 * pos + 1 < Width(|mask|, h - 1) {
        FullSingles(mask, h - 1, 2 * pos + 1);
      }
    }
  }

  lemma {:induction false} PowerWidth(k: nat, h: nat)
    requires h <= k
    ensures Width(Pow2(k) + 1, h) == Pow2(k - h) + 1 && OddLevels(Pow2(k) + 1, h) == h
  {
    hide Pow2;
    if h > 0 {
      PowerWidth(k, h - 1);
      Doubles(k - h);
    }
  }

  lemma Doubles(n: nat)
    ensures Pow2(n + 1) == 2 * Pow2(n)
  {}

  lemma {:induction false} PowerHeight(k: nat, h: nat)
    requires h <= k + 1
    ensures HeightFrom(Pow2(k) + 1, h) == k + 1 && Width(Pow2(k) + 1, k + 1) == 1
    decreases k + 1 - h
  {
    PowerWidth(k, k);
    if h <= k {
      PowerWidth(k, h);
      PowerHeight(k, h + 1);
    }
  }

  /** The promise fails for every block of 8193 transactions that are all matched. */
  lemma PromisedSizeCounterexample(txids: seq<Hash>, mask: seq<bool>)
    requires |mask| == |txids| == 8193 && forall i :: 0 <= i < |mask| ==> mask[i]
    ensures Height(8193) == 14 && Width(8193, 14) == 1
    ensures var t := Build(txids, mask, 14, 0);
      |t.1| == 8193 && |t.0| == 16398 && EncodedSize(|t.1|, |t.0|) == PromisedSize(|t.1|) + 1
  {
    hide Build;
    hide Singles;
    hide Covers;
    hide Width;
    hide OddLevels;
    hide HeightFrom;
    Shape8193();
    FullHashes(txids, mask, 14, 0);
    FullSingles(mask, 14, 0);
    BitsExact(txids, mask, 14, 0);
    assert First(14, 0) == 0 && First(14, 1) >= 8193 by {
      FirstIsShift(14, 0);
      FirstInRange(8193, 14, 1);
    }
  }

  lemma Shape8193()
    ensures Height(8193) == 14 && Width(8193, 14) == 1 && OddLevels(8193, 14) == 13
  {
    assert Pow2(13) == 8192 by {
      assert Pow2(4) == 16 && Pow2(8) == 256 && Pow2(12) == 4096;
    }
    PowerWidth(13, 13);
    PowerHeight(13, 0);
  }

  // ----- the round trip

  /** Building, packing, unpacking and extracting returns the root and exactly the matches. */
  lemma RoundTrip(txids: seq<Hash>, mask: seq<bool>)
    requires |mask| == |txids| && 0 < |txids| <= MAX_TRANSACTIONS && Distinct(txids)
    ensures Width(|txids|, Height(|txids|)) > 0
    ensures var H := Height(|txids|); var t := Build(txids, mask, H, 0);
      ExtractMatches(|txids|, Unpack(Pack(t.0)), t.1) == (CalcHash(txids, H, 0), AllMatches(txids, mask))
  {
    hide Build;
    hide Unpack;
    hide Pack;
    hide Extract;
    hide CalcHash;
    hide Width;
    hide Height;
    hide Matches;
    hide AllMatches;
    var n, H := |txids|, Height(|txids|);
    SizeBounds(txids, mask);
    var t := Build(txids, mask, H, 0);
    PackRoundTrip(t.0);
    var bits := Unpack(Pack(t.0));
    assert Holds(bits, t.1, 0, 0, t.0, t.1);
    ExtractBuilt(txids, mask, bits, t.1, H, 0, 0, 0);
    RootMatches(txids, mask);
    assert (|bits| + 7) / 8 == (|t.0| + 7) / 8;
  }
}
