/**
 The partial Merkle tree object: its traversals push to vectors and advance cursors, and are
 proved to compute the functions of the tree modules.
 */
module MerkleBlock {
  import opened MerkleTree
  import opened Powers
  import opened MerkleProofs

  function Ids(found: seq<(nat, Hash)>): (r: seq<Hash>)
    ensures |r| == |found|
  {
    seq(|found|, i requires 0 <= i < |found| => found[i].1)
  }

  function Indexes(found: seq<(nat, Hash)>): (r: seq<nat>)
    ensures |r| == |found|
  {
    seq(|found|, i requires 0 <= i < |found| => found[i].0)
  }

  lemma FoundConcat(a: seq<(nat, Hash)>, b: seq<(nat, Hash)>)
    ensures Ids(a + b) == Ids(a) + Ids(b) && Indexes(a + b) == Indexes(a) + Indexes(b)
  {}

  lemma FoundOne()
    ensures Ids([]) == [] && Indexes([]) == []
    ensures forall p: nat, x: Hash :: Ids([(p, x)]) == [x] && Indexes([(p, x)]) == [p]
  {}

  lemma BuildUnfold(txids: seq<Hash>, mask: seq<bool>, h: nat, pos: nat)
    requires |mask| == |txids| && pos < Width(|txids|, h)
    ensures var t := Build(txids, mask, h, pos);
      if h == 0 || !Covers(mask, h, pos) then t == ([Covers(mask, h, pos)], [CalcHash(txids, h, pos)])
      else
        var t1 := Build(txids, mask, h - 1, 2 * pos);
        if 2 * pos + 1 < Width(|txids|, h - 1) then
          var t2 := Build(txids, mask, h - 1, 2 * pos + 1);
          t.0 == [true] + t1.0 + t2.0 && t.1 == t1.1 + t2.1
        else t.0 == [true] + t1.0 && t.1 == t1.1
  {}

  lemma ExtractUnfold(bits: seq<bool>, hashes: seq<Hash>, n: nat, h: nat, pos: nat, bit: nat, next: nat)
    ensures Extract(bits, hashes, n, h, pos, bit, next) ==
      if bit >= |bits| then Step(Zero, bit, next, true, [])
      else if h == 0 || !bits[bit] then
        if next >= |hashes| then Step(Zero, bit + 1, next, true, [])
        else Step(hashes[next], bit + 1, next + 1, false, if h == 0 && bits[bit] then [(pos, hashes[next])] else [])
      else
        var l := Extract(bits, hashes, n, h - 1, 2 * pos, bit + 1, next);
        if 2 * pos + 1 < Width(n, h - 1) then
          var r := Extract(bits, hashes, n, h - 1, 2 * pos + 1, l.bit, l.next);
          Step(Node(l.hash, r.hash), r.bit, r.next, l.bad || r.bad || r.hash == l.hash, l.found + r.found)
        else Step(Node(l.hash, l.hash), l.bit, l.next, l.bad, l.found)
  {}

  class PartialMerkleTree {
    var transactions: nat
    var bits: seq<bool>
    var hashes: seq<Hash>
    var bad: bool

    /** Build the tree of a block; a block always has a transaction. */
    constructor FromBlock(txids: seq<Hash>, mask: seq<bool>)
      requires |mask| == |txids| > 0
      ensures Width(|txids|, Height(|txids|)) > 0
      ensures transactions == |txids| && !bad
      ensures (bits, hashes) == Build(txids, mask, Height(|txids|), 0)
    {
      transactions := |txids|;
      bits, hashes, bad := [], [], false;
      new;
      var height := TreeHeight();
      RootExists(|txids|, height);
      TraverseAndBuild(height, 0, txids, mask);
      assert [] + Build(txids, mask, height, 0).0 == Build(txids, mask, height, 0).0;
      assert [] + Build(txids, mask, height, 0).1 == Build(txids, mask, height, 0).1;
    }

    /** Read a tree off the wire: the flag bits come in whole bytes. */
    constructor FromWire(transactions: nat, hashes: seq<Hash>, bytes: seq<bv8>)
      ensures this.transactions == transactions && this.hashes == hashes && !bad
      ensures bits == Unpack(bytes)
    {
      this.transactions, this.hashes, bad := transactions, hashes, false;
      var unpacked: seq<bool> := [];
      for p := 0 to 8 * |bytes|
        invariant |unpacked| == p && forall q :: 0 <= q < p ==> unpacked[q] == BitOf(bytes, q)
      {
        unpacked := unpacked + [bytes[p / 8] & Mask(p % 8) != 0];
      }
      bits := unpacked;
    }

    /** The flag bits in whole bytes. */
    method Bytes() returns (bytes: seq<bv8>)
      ensures bytes == Pack(bits)
    {
      bytes := seq((|bits| + 7) / 8, i => 0);
      for p := 0 to |bits|
        invariant bytes == PackUpTo(bits, p)
      {
        bytes := bytes[p / 8 := bytes[p / 8] | (if bits[p] then Mask(p % 8) else 0)];
      }
    }

    method TreeHeight() returns (height: nat)
      ensures height == Height(transactions)
    {
      height := 0;
      WidthIsCalcTreeWidth(transactions, 0);
      while CalcTreeWidth(transactions, height) > 1
        invariant CalcTreeWidth(transactions, height) == Width(transactions, height)
        invariant HeightFrom(transactions, height) == Height(transactions)
        decreases Width(transactions, height)
      {
        WidthIsCalcTreeWidth(transactions, height + 1);
        height := height + 1;
      }
    }

    /** Some matched leaf lies under the node: the loop over its leaves. */
    static method ParentOfMatch(height: nat, pos: nat, mask: seq<bool>) returns (f: bool)
      ensures f == Covers(mask, height, pos)
    {
      f := false;
      var p := pos * Pow2(height);
      FirstIsShift(height, pos);
      FirstIsShift(height, pos + 1);
      CoversLeaf(mask, height, pos);
      FirstMonotone(height, pos);
      while p < (pos + 1) * Pow2(height) && p < |mask|
        invariant First(height, pos) <= p <= First(height, pos + 1)
        invariant f <==> exists q :: First(height, pos) <= q < p && q < |mask| && mask[q]
        decreases |mask| - p
      {
        f := f || mask[p];
        p := p + 1;
      }
    }

    method TraverseAndBuild(height: nat, pos: nat, txids: seq<Hash>, mask: seq<bool>)
      requires |mask| == |txids| == transactions && pos < Width(|txids|, height)
      modifies `bits, `hashes
      ensures bits == old(bits) + Build(txids, mask, height, pos).0
      ensures hashes == old(hashes) + Build(txids, mask, height, pos).1
      decreases height
    {
      hide Covers;
      hide Build;
      hide CalcTreeWidth;
      BuildUnfold(txids, mask, height, pos);
      var parentOfMatch := ParentOfMatch(height, pos, mask);
      bits := bits + [parentOfMatch];
      if height == 0 || !parentOfMatch {
        hashes := hashes + [CalcHash(txids, height, pos)];
      } else {
        ghost var b, hs := bits, hashes;
        TraverseAndBuild(height - 1, pos * 2, txids, mask);
        WidthIsCalcTreeWidth(transactions, height - 1);
        if pos * 2 + 1 < CalcTreeWidth(transactions, height - 1) {
          TraverseAndBuild(height - 1, pos * 2 + 1, txids, mask);
          assert bits == old(bits) + Build(txids, mask, height, pos).0;
          assert hashes == old(hashes) + Build(txids, mask, height, pos).1;
        } else {
          assert bits == old(bits) + Build(txids, mask, height, pos).0;
        }
      }
    }

    /** Consume stored bits and hashes; `matches` and `index` grow by what is found. */
    method TraverseAndExtract(height: nat, pos: nat, bit0: nat, next0: nat, matches0: seq<Hash>, index0: seq<nat>)
      returns (hash: Hash, bit: nat, next: nat, matches: seq<Hash>, index: seq<nat>)
      modifies `bad
      ensures var r := Extract(bits, hashes, transactions, height, pos, bit0, next0);
        && hash == r.hash && bit == r.bit && next == r.next && bad == (old(bad) || r.bad)
        && matches == matches0 + Ids(r.found) && index == index0 + Indexes(r.found)
      decreases height
    {
      hide Extract;
      hide Ids;
      hide Indexes;
      hide CalcTreeWidth;
      ExtractUnfold(bits, hashes, transactions, height, pos, bit0, next0);
      FoundOne();
      bit, next, matches, index := bit0, next0, matches0, index0;
      if bit >= |bits| {
        bad := true;
        hash := Zero;
        return;
      }
      var parentOfMatch := bits[bit];
      bit := bit + 1;
      if height == 0 || !parentOfMatch {
        if next >= |hashes| {
          bad := true;
          hash := Zero;
          return;
        }
        hash := hashes[next];
        next := next + 1;
        if height == 0 && parentOfMatch {
          matches := matches + [hash];
          index := index + [pos];
        }
      } else {
        ghost var l := Extract(bits, hashes, transactions, height - 1, 2 * pos, bit, next);
        var left, right;
        left, bit, next, matches, index := TraverseAndExtract(height - 1, 2 * pos, bit, next, matches, index);
        WidthIsCalcTreeWidth(transactions, height - 1);
        if 2 * pos + 1 < CalcTreeWidth(transactions, height - 1) {
          ghost var r := Extract(bits, hashes, transactions, height - 1, 2 * pos + 1, bit, next);
          FoundConcat(l.found, r.found);
          right, bit, next, matches, index := TraverseAndExtract(height - 1, 2 * pos + 1, bit, next, matches, index);
          assert matches == matches0 + (Ids(l.found) + Ids(r.found));
          assert index == index0 + (Indexes(l.found) + Indexes(r.found));
          if right == left {
            bad := true;
          }
        } else {
          right := left;
        }
        hash := Node(left, right);
      }
    }

    /** The root, or Zero on failure, and the matches; `index` is only ever appended to. */
    method ExtractMatches(index0: seq<nat>) returns (root: Hash, matches: seq<Hash>, index: seq<nat>)
      requires !bad
      modifies `bad
      ensures var (r, found) := MerkleTree.ExtractMatches(transactions, bits, hashes);
        root == r && matches == Ids(found) && index == index0 + Indexes(found)
    {
      matches, index := [], index0;
      if transactions == 0 {
        return Zero, matches, index;
      }
      if transactions > MAX_TRANSACTIONS {
        return Zero, matches, index;
      }
      if |hashes| > transactions {
        return Zero, matches, index;
      }
      if |bits| < |hashes| {
        return Zero, matches, index;
      }
      var height := TreeHeight();
      var bitsUsed, hashUsed;
      root, bitsUsed, hashUsed, matches, index := TraverseAndExtract(height, 0, 0, 0, matches, index);
      if bad {
        root := Zero;
        return;
      }
      if (bitsUsed + 7) / 8 != (|bits| + 7) / 8 {
        root := Zero;
        return;
      }
      if hashUsed != |hashes| {
        root := Zero;
      }
    }
  }
}
