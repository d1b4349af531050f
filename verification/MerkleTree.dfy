/**
 Partial Merkle trees (BIP 37): the functions that build one from a list of transaction ids
 and a match mask, and that extract matches from one. Hashes are symbolic, so pairing two of
 them is injective; a transaction id may be any hash at all.
 */
module MerkleTree {
  import opened Collections
  import opened Powers

  datatype Hash = Zero | Id(n: int) | Node(left: Hash, right: Hash)

  /** MAX_BLOCK_WEIGHT / MIN_TRANSACTION_WEIGHT */
  const MAX_TRANSACTIONS: nat := 16666

  // ----- the shape of the tree

  /** Number of nodes at a height, as the program computes it. */
  function CalcTreeWidth(n: nat, h: nat): nat {
    (n + Pow2(h) - 1) / Pow2(h)
  }

  /** The same number, level by level. */
  function Width(n: nat, h: nat): nat {
    if h == 0 then n else (Width(n, h - 1) + 1) / 2
  }

  lemma QuotientIs(a: int, b: int, q: int)
    requires b > 0 && b * q <= a < b * (q + 1)
    ensures a / b == q
  {
    DivUnique(a, b, q, a - b * q);
  }

  lemma Halve(n: int, w: int, w': int, p: nat)
    requires w <= 2 * w' <= w + 1 && w * p >= n > (w - 1) * p
    ensures w' * (2 * p) >= n > (w' - 1) * (2 * p)
  {
    MulMono(w, 2 * w', p);
    MulMono(2 * w' - 2, w - 1, p);
    assert w' * (2 * p) == 2 * w' * p && (w' - 1) * (2 * p) == (2 * w' - 2) * p;
  }

  lemma {:induction false} WidthBounds(n: nat, h: nat)
    requires n > 0
    ensures Width(n, h) * Pow2(h) >= n > (Width(n, h) - 1) * Pow2(h)
  {
    if h > 0 {
      WidthBounds(n, h - 1);
      Halve(n, Width(n, h - 1), Width(n, h), Pow2(h - 1));
    }
  }

  lemma {:induction false} WidthOfNone(h: nat)
    ensures Width(0, h) == 0
  {
    if h > 0 {
      WidthOfNone(h - 1);
    }
  }

  lemma WidthIsCalcTreeWidth(n: nat, h: nat)
    ensures CalcTreeWidth(n, h) == Width(n, h)
  {
    if n == 0 {
      WidthOfNone(h);
    } else {
      WidthBounds(n, h);
    }
    var w, p := Width(n, h), Pow2(h);
    assert p * w <= n + p - 1 < p * (w + 1) by {
      assert p * w == w * p && p * (w + 1) == w * p + p && (w - 1) * p == w * p - p;
    }
    QuotientIs(n + p - 1, p, w);
  }

  /** The first leaf position under a node. */
  function First(h: nat, pos: nat): nat {
    if h == 0 then pos else First(h - 1, 2 * pos)
  }

  lemma {:induction false} FirstIsShift(h: nat, pos: nat)
    ensures First(h, pos) == pos * Pow2(h)
  {
    if h > 0 {
      FirstIsShift(h - 1, 2 * pos);
    }
  }

  lemma FirstStep(h: nat, pos: nat)
    requires h > 0
    ensures First(h, pos) == First(h - 1, 2 * pos) && First(h, pos + 1) == First(h - 1, 2 * pos + 2)
  {}

  lemma {:induction false} FirstMonotone(h: nat, pos: nat)
    ensures First(h, pos) < First(h, pos + 1)
  {
    if h > 0 {
      FirstMonotone(h - 1, 2 * pos);
      FirstMonotone(h - 1, 2 * pos + 1);
    }
  }

  /** A node exists exactly when its first leaf does. */
  lemma {:induction false} FirstInRange(n: nat, h: nat, pos: nat)
    ensures pos < Width(n, h) <==> First(h, pos) < n
  {
    if h > 0 {
      FirstInRange(n, h - 1, 2 * pos);
    }
  }

  function HeightFrom(n: nat, h: nat): (r: nat)
    ensures r >= h && Width(n, r) <= 1
    decreases Width(n, h)
  {
    if Width(n, h) > 1 then HeightFrom(n, h + 1) else h
  }

  /** The height of the tree over `n` leaves. */
  function Height(n: nat): nat {
    HeightFrom(n, 0)
  }

  lemma {:induction false} RootExists(n: nat, h: nat)
    requires n > 0
    ensures Width(n, h) > 0
  {
    if h > 0 {
      RootExists(n, h - 1);
    }
  }

  // ----- hashing, building, extracting

  function CalcHash(txids: seq<Hash>, h: nat, pos: nat): Hash
    requires pos < Width(|txids|, h)
  {
    if h == 0 then txids[pos] else
      var l := CalcHash(txids, h - 1, 2 * pos);
      var r := if 2 * pos + 1 < Width(|txids|, h - 1) then CalcHash(txids, h - 1, 2 * pos + 1) else l;
      Node(l, r)
  }

  /** Some matched leaf lies under the node. */
  predicate Covers(mask: seq<bool>, h: nat, pos: nat) {
    if h == 0 then pos < |mask| && mask[pos] else Covers(mask, h - 1, 2 * pos) || Covers(mask, h - 1, 2 * pos + 1)
  }

  lemma {:induction false} CoversLeaf(mask: seq<bool>, h: nat, pos: nat)
    ensures Covers(mask, h, pos) <==> exists p :: First(h, pos) <= p < First(h, pos + 1) && p < |mask| && mask[p]
  {
    if h > 0 {
      CoversLeaf(mask, h - 1, 2 * pos);
      CoversLeaf(mask, h - 1, 2 * pos + 1);
      FirstMonotone(h - 1, 2 * pos);
      FirstMonotone(h - 1, 2 * pos + 1);
    }
  }

  lemma CoversInRange(mask: seq<bool>, h: nat, pos: nat)
    requires Covers(mask, h, pos)
    ensures pos < Width(|mask|, h)
  {
    CoversLeaf(mask, h, pos);
    FirstInRange(|mask|, h, pos);
  }

  /** The flag bits and hashes of a partial tree, in depth-first order. */
  function Build(txids: seq<Hash>, mask: seq<bool>, h: nat, pos: nat): (seq<bool>, seq<Hash>)
    requires |mask| == |txids| && pos < Width(|txids|, h)
  {
    if h == 0 || !Covers(mask, h, pos) then ([Covers(mask, h, pos)], [CalcHash(txids, h, pos)])
    else
      var (b1, h1) := Build(txids, mask, h - 1, 2 * pos);
      if 2 * pos + 1 < Width(|txids|, h - 1) then
        var (b2, h2) := Build(txids, mask, h - 1, 2 * pos + 1);
        ([true] + b1 + b2, h1 + h2)
      else ([true] + b1, h1)
  }

  /** What a traversal of stored data has produced: the node's hash, both cursors, whether
      something was wrong, and the matches as (index, txid) pairs. */
  datatype Step = Step(hash: Hash, bit: nat, next: nat, bad: bool, found: seq<(nat, Hash)>)

  /** Walk stored bits and hashes, which may be anything. */
  function Extract(bits: seq<bool>, hashes: seq<Hash>, n: nat, h: nat, pos: nat, bit: nat, next: nat): Step
    decreases h
  {
    if bit >= |bits| then Step(Zero, bit, next, true, [])
    else if h == 0 || !bits[bit] then
      if next >= |hashes| then Step(Zero, bit + 1, next, true, [])
      else Step(hashes[next], bit + 1, next + 1, false, if h == 0 && bits[bit] then [(pos, hashes[next])] else [])
    else
      var l := Extract(bits, hashes, n, h - 1, 2 * pos, bit + 1, next);
      if 2 * pos + 1 < Width(n, h - 1) then
        var r := Extract(bits, hashes, n, h - 1, 2 * pos + 1, l.bit, l.next);
        Step(Node(l.hash, r.hash), r.bit, r.next, l.bad || r.bad || r.hash == l.hash, l.found + r.found)
      else Step(Node(l.hash, l.hash), l.bit, l.next, l.bad, l.found)
  }

  /** The root, or Zero on failure, and the matches. */
  function ExtractMatches(n: nat, bits: seq<bool>, hashes: seq<Hash>): (Hash, seq<(nat, Hash)>) {
    if n == 0 || n > MAX_TRANSACTIONS || |hashes| > n || |bits| < |hashes| then (Zero, [])
    else
      var r := Extract(bits, hashes, n, Height(n), 0, 0, 0);
      if r.bad || (r.bit + 7) / 8 != (|bits| + 7) / 8 || r.next != |hashes| then (Zero, r.found)
      else (r.hash, r.found)
  }

  // ----- soundness: a correct root vouches for every match

  /** Each match is the transaction at its index, and indexes increase within [lo, hi). */
  ghost predicate Genuine(found: seq<(nat, Hash)>, txids: seq<Hash>, lo: nat, hi: nat) {
    && (forall j :: 0 <= j < |found| ==>
         lo <= found[j].0 < hi && found[j].0 < |txids| && txids[found[j].0] == found[j].1)
    && (forall i, j :: 0 <= i < j < |found| ==> found[i].0 < found[j].0)
  }

  lemma GenuineConcat(a: seq<(nat, Hash)>, b: seq<(nat, Hash)>, txids: seq<Hash>, lo: nat, mid: nat, hi: nat)
    requires Genuine(a, txids, lo, mid) && Genuine(b, txids, mid, hi) && lo <= mid <= hi
    ensures Genuine(a + b, txids, lo, hi)
  {}

  lemma ExtractSoundStop(bits: seq<bool>, hashes: seq<Hash>, txids: seq<Hash>, h: nat, pos: nat, bit: nat, next: nat)
    requires pos < Width(|txids|, h) && (bit < |bits| ==> h == 0 || !bits[bit])
    requires var r := Extract(bits, hashes, |txids|, h, pos, bit, next); !r.bad && r.hash == CalcHash(txids, h, pos)
    ensures Genuine(Extract(bits, hashes, |txids|, h, pos, bit, next).found, txids, First(h, pos), First(h, pos + 1))
  {}

  /** A good node above two good children. */
  lemma ExtractSoundFork(l: Step, r: Step, txids: seq<Hash>, h: nat, pos: nat)
    requires h > 0 && Genuine(l.found, txids, First(h - 1, 2 * pos), First(h - 1, 2 * pos + 1))
    requires Genuine(r.found, txids, First(h - 1, 2 * pos + 1), First(h - 1, 2 * pos + 2))
    ensures Genuine(l.found + r.found, txids, First(h, pos), First(h, pos + 1))
    ensures Genuine(l.found, txids, First(h, pos), First(h, pos + 1))
  {
    FirstStep(h, pos);
    FirstMonotone(h - 1, 2 * pos);
    FirstMonotone(h - 1, 2 * pos + 1);
    hide First;
    GenuineConcat(l.found, r.found, txids, First(h, pos), First(h - 1, 2 * pos + 1), First(h, pos + 1));
  }

  lemma {:induction false} ExtractSound(bits: seq<bool>, hashes: seq<Hash>, txids: seq<Hash>, h: nat, pos: nat,
                                        bit: nat, next: nat)
    requires pos < Width(|txids|, h)
    requires var r := Extract(bits, hashes, |txids|, h, pos, bit, next); !r.bad && r.hash == CalcHash(txids, h, pos)
    ensures Genuine(Extract(bits, hashes, |txids|, h, pos, bit, next).found, txids, First(h, pos), First(h, pos + 1))
    decreases h
  {
    hide First;
    hide Genuine;
    if bit >= |bits| || h == 0 || !bits[bit] {
      ExtractSoundStop(bits, hashes, txids, h, pos, bit, next);
    } else {
      var n := |txids|;
      var l := Extract(bits, hashes, n, h - 1, 2 * pos, bit + 1, next);
      ExtractSound(bits, hashes, txids, h - 1, 2 * pos, bit + 1, next);
      if 2 * pos + 1 < Width(n, h - 1) {
        ExtractSound(bits, hashes, txids, h - 1, 2 * pos + 1, l.bit, l.next);
        ExtractSoundFork(l, Extract(bits, hashes, n, h - 1, 2 * pos + 1, l.bit, l.next), txids, h, pos);
      } else {
        GenuineNone(txids, First(h - 1, 2 * pos + 1), First(h - 1, 2 * pos + 2));
        ExtractSoundFork(l, l.(found := []), txids, h, pos);
      }
    }
  }

  lemma GenuineNone(txids: seq<Hash>, lo: nat, hi: nat)
    ensures Genuine([], txids, lo, hi)
  {}

  /** Whatever the stored data, if extraction returns the block's true root then every match
      is a transaction of the block, at its claimed index, in strictly increasing order. */
  lemma MatchesAreGenuine(txids: seq<Hash>, bits: seq<bool>, hashes: seq<Hash>)
    requires |txids| > 0
    ensures Width(|txids|, Height(|txids|)) > 0
    ensures var (root, found) := ExtractMatches(|txids|, bits, hashes);
      root != Zero && root == CalcHash(txids, Height(|txids|), 0) ==>
          Genuine(found, txids, 0, First(Height(|txids|), 1))
  {
    var H := Height(|txids|);
    RootExists(|txids|, H);
    var (root, found) := ExtractMatches(|txids|, bits, hashes);
    if root != Zero && root == CalcHash(txids, H, 0) {
      ExtractSound(bits, hashes, txids, H, 0, 0, 0);
      FirstIsShift(H, 0);
    }
  }

  // ----- completeness: what was built is extracted

  /** The matched transactions under a node, in order. */
  function Matches(txids: seq<Hash>, mask: seq<bool>, h: nat, pos: nat): seq<(nat, Hash)>
    requires |mask| == |txids|
  {
    if h == 0 then if pos < |mask| && mask[pos] then [(pos, txids[pos])] else []
    else Matches(txids, mask, h - 1, 2 * pos) + Matches(txids, mask, h - 1, 2 * pos + 1)
  }

  lemma {:induction false} MatchesNone(txids: seq<Hash>, mask: seq<bool>, h: nat, pos: nat)
    requires |mask| == |txids|
    ensures Matches(txids, mask, h, pos) == [] <==> !Covers(mask, h, pos)
  {
    if h > 0 {
      MatchesNone(txids, mask, h - 1, 2 * pos);
      MatchesNone(txids, mask, h - 1, 2 * pos + 1);
    }
  }

  /** Equal hashes of two nodes of one height have equal first leaves. */
  lemma {:induction false} HashFirstLeaf(txids: seq<Hash>, h: nat, p: nat, q: nat)
    requires p < Width(|txids|, h) && q < Width(|txids|, h) && CalcHash(txids, h, p) == CalcHash(txids, h, q)
    ensures First(h, p) < |txids| && First(h, q) < |txids| && txids[First(h, p)] == txids[First(h, q)]
  {
    if h > 0 {
      HashFirstLeaf(txids, h - 1, 2 * p, 2 * q);
    }
  }

  lemma SiblingsDiffer(txids: seq<Hash>, h: nat, pos: nat)
    requires Distinct(txids) && pos + 1 < Width(|txids|, h)
    ensures CalcHash(txids, h, pos) != CalcHash(txids, h, pos + 1)
  {
    if CalcHash(txids, h, pos) == CalcHash(txids, h, pos + 1) {
      HashFirstLeaf(txids, h, pos, pos + 1);
      FirstMonotone(h, pos);
    }
  }

  /** The stored data holds `b` from `bit` on and `hs` from `next` on. */
  ghost predicate Holds(bits: seq<bool>, hashes: seq<Hash>, bit: nat, next: nat, b: seq<bool>, hs: seq<Hash>) {
    && bit + |b| <= |bits| && (forall i :: 0 <= i < |b| ==> bits[bit + i] == b[i])
    && next + |hs| <= |hashes| && (forall i :: 0 <= i < |hs| ==> hashes[next + i] == hs[i])
  }

  /** What a traversal of correctly stored data gives. */
  ghost function Expected(txids: seq<Hash>, mask: seq<bool>, h: nat, pos: nat, bit: nat, next: nat): Step
    requires |mask| == |txids| && pos < Width(|txids|, h)
  {
    var (b, hs) := Build(txids, mask, h, pos);
    Step(CalcHash(txids, h, pos), bit + |b|, next + |hs|, false, Matches(txids, mask, h, pos))
  }

  lemma HoldsSplit(bits: seq<bool>, hashes: seq<Hash>, bit: nat, next: nat, x: bool, b1: seq<bool>, b2: seq<bool>,
                   h1: seq<Hash>, h2: seq<Hash>)
    requires Holds(bits, hashes, bit, next, [x] + b1 + b2, h1 + h2)
    ensures bit < |bits| && bits[bit] == x
    ensures Holds(bits, hashes, bit + 1, next, b1, h1)
    ensures Holds(bits, hashes, bit + 1 + |b1|, next + |h1|, b2, h2)
  {
    var b, hs := [x] + b1 + b2, h1 + h2;
    assert bits[bit + 0] == b[0];
    forall i | 0 <= i < |b1| ensures bits[bit + 1 + i] == b1[i] {
      assert bits[bit + (1 + i)] == b[1 + i];
    }
    forall i | 0 <= i < |b2| ensures bits[bit + 1 + |b1| + i] == b2[i] {
      assert bits[bit + (1 + |b1| + i)] == b[1 + |b1| + i];
    }
    forall i | 0 <= i < |h1| ensures hashes[next + i] == h1[i] {
      assert hashes[next + i] == hs[i];
    }
    forall i | 0 <= i < |h2| ensures hashes[next + |h1| + i] == h2[i] {
      assert hashes[next + (|h1| + i)] == hs[|h1| + i];
    }
  }

  lemma ExtractBuiltStop(txids: seq<Hash>, mask: seq<bool>, bits: seq<bool>, hashes: seq<Hash>, h: nat, pos: nat,
                         bit: nat, next: nat)
    requires |mask| == |txids| && pos < Width(|txids|, h) && (h == 0 || !Covers(mask, h, pos))
    requires Holds(bits, hashes, bit, next, [Covers(mask, h, pos)], [CalcHash(txids, h, pos)])
    ensures Extract(bits, hashes, |txids|, h, pos, bit, next) == Expected(txids, mask, h, pos, bit, next)
  {
    MatchesNone(txids, mask, h, pos);
    var b, hs := [Covers(mask, h, pos)], [CalcHash(txids, h, pos)];
    assert bits[bit + 0] == b[0] && hashes[next + 0] == hs[0];
  }

  lemma {:induction false} ExtractBuilt(txids: seq<Hash>, mask: seq<bool>, bits: seq<bool>, hashes: seq<Hash>,
                                        h: nat, pos: nat, bit: nat, next: nat)
    requires |mask| == |txids| && pos < Width(|txids|, h) && Distinct(txids)
    requires var t := Build(txids, mask, h, pos); Holds(bits, hashes, bit, next, t.0, t.1)
    ensures Extract(bits, hashes, |txids|, h, pos, bit, next) == Expected(txids, mask, h, pos, bit, next)
    decreases h, 1
  {
    hide Holds;
    hide Covers;
    if h == 0 || !Covers(mask, h, pos) {
      ExtractBuiltStop(txids, mask, bits, hashes, h, pos, bit, next);
    } else if 2 * pos + 1 < Width(|txids|, h - 1) {
      ExtractBuiltTwo(txids, mask, bits, hashes, h, pos, bit, next);
    } else {
      ExtractBuiltOne(txids, mask, bits, hashes, h, pos, bit, next);
    }
  }

  lemma {:induction false} ExtractBuiltTwo(txids: seq<Hash>, mask: seq<bool>, bits: seq<bool>, hashes: seq<Hash>,
                                           h: nat, pos: nat, bit: nat, next: nat)
    requires |mask| == |txids| && pos < Width(|txids|, h) && Distinct(txids)
    requires h > 0 && Covers(mask, h, pos) && 2 * pos + 1 < Width(|txids|, h - 1)
    requires var t := Build(txids, mask, h, pos); Holds(bits, hashes, bit, next, t.0, t.1)
    ensures Extract(bits, hashes, |txids|, h, pos, bit, next) == Expected(txids, mask, h, pos, bit, next)
    decreases h, 0
  {
    hide *;
    var t1, t2 := Build(txids, mask, h - 1, 2 * pos), Build(txids, mask, h - 1, 2 * pos + 1);
    BuildTwo(txids, mask, h, pos, bit, next);
    ExtractTwo(bits, hashes, |txids|, h, pos, bit, next);
    ExpectedFields(txids, mask, h - 1, 2 * pos, bit + 1, next);
    ExpectedFields(txids, mask, h - 1, 2 * pos + 1, bit + 1 + |t1.0|, next + |t1.1|);
    HoldsSplit(bits, hashes, bit, next, true, t1.0, t2.0, t1.1, t2.1);
    ExtractBuilt(txids, mask, bits, hashes, h - 1, 2 * pos, bit + 1, next);
    ExtractBuilt(txids, mask, bits, hashes, h - 1, 2 * pos + 1, bit + 1 + |t1.0|, next + |t1.1|);
    SiblingsDiffer(txids, h - 1, 2 * pos);
  }

  lemma BuildTwo(txids: seq<Hash>, mask: seq<bool>, h: nat, pos: nat, bit: nat, next: nat)
    requires |mask| == |txids| && pos < Width(|txids|, h) && h > 0
    requires Covers(mask, h, pos) && 2 * pos + 1 < Width(|txids|, h - 1)
    ensures var t1, t2 := Build(txids, mask, h - 1, 2 * pos), Build(txids, mask, h - 1, 2 * pos + 1);
      && Build(txids, mask, h, pos) == ([true] + t1.0 + t2.0, t1.1 + t2.1)
      && Expected(txids, mask, h, pos, bit, next) ==
         ForkStep(Expected(txids, mask, h - 1, 2 * pos, bit + 1, next),
                  Expected(txids, mask, h - 1, 2 * pos + 1, bit + 1 + |t1.0|, next + |t1.1|))
  {}

  ghost function ForkStep(l: Step, r: Step): Step {
    Step(Node(l.hash, r.hash), r.bit, r.next, l.bad || r.bad, l.found + r.found)
  }

  lemma ExpectedFields(txids: seq<Hash>, mask: seq<bool>, h: nat, pos: nat, bit: nat, next: nat)
    requires |mask| == |txids| && pos < Width(|txids|, h)
    ensures var e, t := Expected(txids, mask, h, pos, bit, next), Build(txids, mask, h, pos);
      e.hash == CalcHash(txids, h, pos) && e.bit == bit + |t.0| && e.next == next + |t.1| && !e.bad
  {}

  lemma ExtractTwo(bits: seq<bool>, hashes: seq<Hash>, n: nat, h: nat, pos: nat, bit: nat, next: nat)
    requires h > 0 && 2 * pos + 1 < Width(n, h - 1)
    ensures bit < |bits| && bits[bit] ==>
      var l := Extract(bits, hashes, n, h - 1, 2 * pos, bit + 1, next);
      var r := Extract(bits, hashes, n, h - 1, 2 * pos + 1, l.bit, l.next);
      r.hash != l.hash ==> Extract(bits, hashes, n, h, pos, bit, next) == ForkStep(l, r)
  {}

  lemma {:induction false} ExtractBuiltOne(txids: seq<Hash>, mask: seq<bool>, bits: seq<bool>, hashes: seq<Hash>,
                                           h: nat, pos: nat, bit: nat, next: nat)
    requires |mask| == |txids| && pos < Width(|txids|, h) && Distinct(txids)
    requires h > 0 && Covers(mask, h, pos) && 2 * pos + 1 >= Width(|txids|, h - 1)
    requires var t := Build(txids, mask, h, pos); Holds(bits, hashes, bit, next, t.0, t.1)
    ensures Extract(bits, hashes, |txids|, h, pos, bit, next) == Expected(txids, mask, h, pos, bit, next)
    decreases h, 0
  {
    var (b1, h1) := Build(txids, mask, h - 1, 2 * pos);
    assert [true] + b1 + [] == [true] + b1 && h1 + [] == h1;
    HoldsSplit(bits, hashes, bit, next, true, b1, [], h1, []);
    hide Holds;
    hide Covers;
    hide Distinct;
    ExtractBuilt(txids, mask, bits, hashes, h - 1, 2 * pos, bit + 1, next);
    NoneBeyond(txids, mask, h - 1, 2 * pos + 1);
  }

  lemma NoneBeyond(txids: seq<Hash>, mask: seq<bool>, h: nat, pos: nat)
    requires |mask| == |txids| && pos >= Width(|txids|, h)
    ensures Matches(txids, mask, h, pos) == []
  {
    MatchesNone(txids, mask, h, pos);
    if Covers(mask, h, pos) {
      CoversInRange(mask, h, pos);
    }
  }
}
