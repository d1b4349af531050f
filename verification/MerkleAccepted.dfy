/**
 Which stored proofs are accepted: exactly the flattened partial trees of the right shape, with no two
 equal siblings, and nothing after them.
 */
module MerkleAccepted {
  import opened MerkleTree

  /** A partial tree before it is flattened. A stub stands for a whole subtree, or for a transaction. */
  datatype Partial = Stub(hash: Hash, matched: bool) | Fork(left: Partial, right: Partial) | Lone(child: Partial)

  /** The tree fits a node of the full tree over `n` leaves. */
  ghost predicate Shaped(t: Partial, n: nat, h: nat, pos: nat)
    decreases t
  {
    match t
    case Stub(_, matched) => matched ==> h == 0
    case Fork(l, r) =>
      h > 0 && 2 * pos + 1 < Width(n, h - 1) && Shaped(l, n, h - 1, 2 * pos) && Shaped(r, n, h - 1, 2 * pos + 1)
    case Lone(c) => h > 0 && 2 * pos + 1 >= Width(n, h - 1) && Shaped(c, n, h - 1, 2 * pos)
  }

  function Root(t: Partial): Hash {
    match t
    case Stub(hash, _) => hash
    case Fork(l, r) => Node(Root(l), Root(r))
    case Lone(c) => Node(Root(c), Root(c))
  }

  function Bits(t: Partial): seq<bool> {
    match t
    case Stub(_, matched) => [matched]
    case Fork(l, r) => [true] + Bits(l) + Bits(r)
    case Lone(c) => [true] + Bits(c)
  }

  function Hashes(t: Partial): seq<Hash> {
    match t
    case Stub(hash, _) => [hash]
    case Fork(l, r) => Hashes(l) + Hashes(r)
    case Lone(c) => Hashes(c)
  }

  /** The matched transactions of a tree at leaf `pos * 2^h` and on. */
  function Found(t: Partial, h: nat, pos: nat): seq<(nat, Hash)>
    decreases t
  {
    match t
    case Stub(hash, matched) => if matched then [(pos, hash)] else []
    case Fork(l, r) => if h == 0 then [] else Found(l, h - 1, 2 * pos) + Found(r, h - 1, 2 * pos + 1)
    case Lone(c) => if h == 0 then [] else Found(c, h - 1, 2 * pos)
  }

  /** Somewhere two siblings have the same hash. */
  predicate Twins(t: Partial) {
    match t
    case Stub(_, _) => false
    case Fork(l, r) => Twins(l) || Twins(r) || Root(l) == Root(r)
    case Lone(c) => Twins(c)
  }

  // ----- reading a flattened tree

  ghost function Reading(t: Partial, h: nat, pos: nat, bit: nat, next: nat): Step {
    Step(Root(t), bit + |Bits(t)|, next + |Hashes(t)|, Twins(t), Found(t, h, pos))
  }

  ghost function JoinSteps(l: Step, r: Step): Step {
    Step(Node(l.hash, r.hash), r.bit, r.next, l.bad || r.bad || r.hash == l.hash, l.found + r.found)
  }

  ghost function RaiseStep(l: Step): Step {
    Step(Node(l.hash, l.hash), l.bit, l.next, l.bad, l.found)
  }

  lemma ReadingFork(l: Partial, r: Partial, h: nat, pos: nat, bit: nat, next: nat)
    requires h > 0
    ensures Reading(Fork(l, r), h, pos, bit, next) ==
            JoinSteps(Reading(l, h - 1, 2 * pos, bit + 1, next),
                      Reading(r, h - 1, 2 * pos + 1, bit + 1 + |Bits(l)|, next + |Hashes(l)|))
  {}

  lemma ReadingLone(c: Partial, h: nat, pos: nat, bit: nat, next: nat)
    requires h > 0
    ensures Reading(Lone(c), h, pos, bit, next) == RaiseStep(Reading(c, h - 1, 2 * pos, bit + 1, next))
  {}

  lemma ReadingEnds(t: Partial, h: nat, pos: nat, bit: nat, next: nat)
    ensures var s := Reading(t, h, pos, bit, next); s.bit == bit + |Bits(t)| && s.next == next + |Hashes(t)|
  {}

  lemma ExtractFork(bits: seq<bool>, hashes: seq<Hash>, n: nat, h: nat, pos: nat, bit: nat, next: nat)
    requires h > 0 && bit < |bits| && bits[bit] && 2 * pos + 1 < Width(n, h - 1)
    ensures var l := Extract(bits, hashes, n, h - 1, 2 * pos, bit + 1, next);
      var r := Extract(bits, hashes, n, h - 1, 2 * pos + 1, l.bit, l.next);
      && Extract(bits, hashes, n, h, pos, bit, next) == JoinSteps(l, r)
      && JoinSteps(l, r).bad == (l.bad || r.bad || r.hash == l.hash)
  {}

  lemma ExtractLone(bits: seq<bool>, hashes: seq<Hash>, n: nat, h: nat, pos: nat, bit: nat, next: nat)
    requires h > 0 && bit < |bits| && bits[bit] && 2 * pos + 1 >= Width(n, h - 1)
    ensures var l := Extract(bits, hashes, n, h - 1, 2 * pos, bit + 1, next);
      Extract(bits, hashes, n, h, pos, bit, next) == RaiseStep(l) && RaiseStep(l).bad == l.bad
  {}

  /** Reading stops at a stub. */
  lemma ReadsStub(bits: seq<bool>, hashes: seq<Hash>, n: nat, h: nat, pos: nat, bit: nat, next: nat)
    requires bit < |bits| && next < |hashes| && (h == 0 || !bits[bit])
    ensures var t := Stub(hashes[next], bits[bit]);
      && Shaped(t, n, h, pos) && Holds(bits, hashes, bit, next, Bits(t), Hashes(t))
      && Extract(bits, hashes, n, h, pos, bit, next) == Reading(t, h, pos, bit, next)
  {}

  lemma StubHolds(t: Partial, bits: seq<bool>, hashes: seq<Hash>, bit: nat, next: nat)
    requires t.Stub? && Holds(bits, hashes, bit, next, Bits(t), Hashes(t))
    ensures bit < |bits| && next < |hashes| && t == Stub(hashes[next], bits[bit])
  {
    assert bits[bit + 0] == Bits(t)[0] && hashes[next + 0] == Hashes(t)[0];
  }

  lemma ForkHolds(l: Partial, r: Partial, bits: seq<bool>, hashes: seq<Hash>, bit: nat, next: nat)
    ensures Holds(bits, hashes, bit, next, Bits(Fork(l, r)), Hashes(Fork(l, r))) <==>
            && bit < |bits| && bits[bit]
            && Holds(bits, hashes, bit + 1, next, Bits(l), Hashes(l))
            && Holds(bits, hashes, bit + 1 + |Bits(l)|, next + |Hashes(l)|, Bits(r), Hashes(r))
  {
    hide Holds;
    if Holds(bits, hashes, bit, next, Bits(Fork(l, r)), Hashes(Fork(l, r))) {
      HoldsSplit(bits, hashes, bit, next, true, Bits(l), Bits(r), Hashes(l), Hashes(r));
    } else if && bit < |bits| && bits[bit]
              && Holds(bits, hashes, bit + 1, next, Bits(l), Hashes(l))
              && Holds(bits, hashes, bit + 1 + |Bits(l)|, next + |Hashes(l)|, Bits(r), Hashes(r)) {
      HoldsJoin(bits, hashes, bit, next, true, Bits(l), Bits(r), Hashes(l), Hashes(r));
    }
  }

  lemma LoneHolds(c: Partial, bits: seq<bool>, hashes: seq<Hash>, bit: nat, next: nat)
    ensures Holds(bits, hashes, bit, next, Bits(Lone(c)), Hashes(Lone(c))) <==>
            bit < |bits| && bits[bit] && Holds(bits, hashes, bit + 1, next, Bits(c), Hashes(c))
  {
    hide Holds;
    assert [true] + Bits(c) + [] == Bits(Lone(c)) && Hashes(c) + [] == Hashes(Lone(c));
    HoldsNothing(bits, hashes, bit + 1, next, Bits(c), Hashes(c));
    if Holds(bits, hashes, bit, next, Bits(Lone(c)), Hashes(Lone(c))) {
      HoldsSplit(bits, hashes, bit, next, true, Bits(c), [], Hashes(c), []);
    } else if bit < |bits| && bits[bit] && Holds(bits, hashes, bit + 1, next, Bits(c), Hashes(c)) {
      HoldsJoin(bits, hashes, bit, next, true, Bits(c), [], Hashes(c), []);
    }
  }

  lemma HoldsNothing(bits: seq<bool>, hashes: seq<Hash>, bit: nat, next: nat, b: seq<bool>, hs: seq<Hash>)
    ensures Holds(bits, hashes, bit, next, b, hs) ==> Holds(bits, hashes, bit + |b|, next + |hs|, [], [])
  {}

  lemma ShapedFork(l: Partial, r: Partial, n: nat, h: nat, pos: nat)
    ensures Shaped(Fork(l, r), n, h, pos) <==>
      h > 0 && 2 * pos + 1 < Width(n, h - 1) && Shaped(l, n, h - 1, 2 * pos) && Shaped(r, n, h - 1, 2 * pos + 1)
  {}

  lemma ShapedLone(c: Partial, n: nat, h: nat, pos: nat)
    ensures Shaped(Lone(c), n, h, pos) <==>
      h > 0 && 2 * pos + 1 >= Width(n, h - 1) && Shaped(c, n, h - 1, 2 * pos)
  {}

  lemma ShapedStub(t: Partial, n: nat, h: nat, pos: nat)
    requires t.Stub? && Shaped(t, n, h, pos)
    ensures t.matched ==> h == 0
  {}

  /** Whatever else is stored, reading a flattened tree gives its root and its matches, and finds fault with
      it exactly if it has twins. */
  lemma {:induction false} ReadsBack(t: Partial, bits: seq<bool>, hashes: seq<Hash>, n: nat, h: nat, pos: nat,
                                     bit: nat, next: nat)
    requires Shaped(t, n, h, pos) && Holds(bits, hashes, bit, next, Bits(t), Hashes(t))
    ensures Extract(bits, hashes, n, h, pos, bit, next) == Reading(t, h, pos, bit, next)
    decreases t
  {
    hide *;
    match t
    case Stub(_, _) =>
      StubHolds(t, bits, hashes, bit, next);
      ShapedStub(t, n, h, pos);
      ReadsStub(bits, hashes, n, h, pos, bit, next);
    case Fork(l, r) =>
      ShapedFork(l, r, n, h, pos);
      ForkHolds(l, r, bits, hashes, bit, next);
      ReadsBack(l, bits, hashes, n, h - 1, 2 * pos, bit + 1, next);
      ReadsBack(r, bits, hashes, n, h - 1, 2 * pos + 1, bit + 1 + |Bits(l)|, next + |Hashes(l)|);
      ReadingEnds(l, h - 1, 2 * pos, bit + 1, next);
      ExtractFork(bits, hashes, n, h, pos, bit, next);
      ReadingFork(l, r, h, pos, bit, next);
    case Lone(c) =>
      ShapedLone(c, n, h, pos);
      LoneHolds(c, bits, hashes, bit, next);
      ReadsBack(c, bits, hashes, n, h - 1, 2 * pos, bit + 1, next);
      ExtractLone(bits, hashes, n, h, pos, bit, next);
      ReadingLone(c, h, pos, bit, next);
  }

  /** What is read without fault is a flattened tree. */
  lemma {:induction false} ReadIsTree(bits: seq<bool>, hashes: seq<Hash>, n: nat, h: nat, pos: nat, bit: nat, next: nat)
      returns (t: Partial)
    requires !Extract(bits, hashes, n, h, pos, bit, next).bad
    ensures Shaped(t, n, h, pos) && Holds(bits, hashes, bit, next, Bits(t), Hashes(t))
    ensures Extract(bits, hashes, n, h, pos, bit, next) == Reading(t, h, pos, bit, next)
    decreases h
  {
    hide *;
    NotAtEnd(bits, hashes, n, h, pos, bit, next);
    if h == 0 || !bits[bit] {
      t := Stub(hashes[next], bits[bit]);
      ReadsStub(bits, hashes, n, h, pos, bit, next);
    } else if 2 * pos + 1 < Width(n, h - 1) {
      ExtractFork(bits, hashes, n, h, pos, bit, next);
      var l := ReadIsTree(bits, hashes, n, h - 1, 2 * pos, bit + 1, next);
      ReadingEnds(l, h - 1, 2 * pos, bit + 1, next);
      var r := ReadIsTree(bits, hashes, n, h - 1, 2 * pos + 1, bit + 1 + |Bits(l)|, next + |Hashes(l)|);
      t := Fork(l, r);
      ShapedFork(l, r, n, h, pos);
      ForkHolds(l, r, bits, hashes, bit, next);
      ReadingFork(l, r, h, pos, bit, next);
    } else {
      ExtractLone(bits, hashes, n, h, pos, bit, next);
      var c := ReadIsTree(bits, hashes, n, h - 1, 2 * pos, bit + 1, next);
      t := Lone(c);
      ShapedLone(c, n, h, pos);
      LoneHolds(c, bits, hashes, bit, next);
      ReadingLone(c, h, pos, bit, next);
    }
  }

  lemma NotAtEnd(bits: seq<bool>, hashes: seq<Hash>, n: nat, h: nat, pos: nat, bit: nat, next: nat)
    requires !Extract(bits, hashes, n, h, pos, bit, next).bad
    ensures bit < |bits| && (h == 0 || !bits[bit] ==> next < |hashes|)
  {}

  lemma HoldsJoin(bits: seq<bool>, hashes: seq<Hash>, bit: nat, next: nat, x: bool, b1: seq<bool>, b2: seq<bool>,
                  h1: seq<Hash>, h2: seq<Hash>)
    requires bit < |bits| && bits[bit] == x
    requires Holds(bits, hashes, bit + 1, next, b1, h1)
    requires Holds(bits, hashes, bit + 1 + |b1|, next + |h1|, b2, h2)
    ensures Holds(bits, hashes, bit, next, [x] + b1 + b2, h1 + h2)
  {
    var b, hs := [x] + b1 + b2, h1 + h2;
    forall i | 0 <= i < |b| ensures bits[bit + i] == b[i] {
      if 1 <= i < 1 + |b1| {
        assert bits[bit + 1 + (i - 1)] == b1[i - 1];
      } else if i >= 1 + |b1| {
        assert bits[bit + 1 + |b1| + (i - 1 - |b1|)] == b2[i - 1 - |b1|];
      }
    }
    forall i | 0 <= i < |hs| ensures hashes[next + i] == hs[i] {
      if i >= |h1| {
        assert hashes[next + |h1| + (i - |h1|)] == h2[i - |h1|];
      }
    }
  }

  // ----- what is accepted

  /** A tree has at most one hash for each leaf, and at least one bit for each hash. */
  lemma {:induction false} HashesFit(t: Partial, n: nat, h: nat, pos: nat)
    requires Shaped(t, n, h, pos) && pos < Width(n, h)
    ensures First(h, pos) + |Hashes(t)| <= n && First(h, pos) + |Hashes(t)| <= First(h, pos + 1)
    ensures |Hashes(t)| <= |Bits(t)|
    decreases t
  {
    hide First;
    match t
    case Stub(_, _) =>
      FirstInRange(n, h, pos);
      FirstMonotone(h, pos);
    case Fork(l, r) =>
      FirstStep(h, pos);
      HashesFit(l, n, h - 1, 2 * pos);
      HashesFit(r, n, h - 1, 2 * pos + 1);
    case Lone(c) =>
      FirstStep(h, pos);
      FirstMonotone(h - 1, 2 * pos + 1);
      HashesFit(c, n, h - 1, 2 * pos);
  }

  /** The proof is a flattened tree for `n` transactions without twins, padded to a whole byte. */
  ghost predicate Flattened(t: Partial, n: nat, bits: seq<bool>, hashes: seq<Hash>) {
    && 0 < n <= 16666
    && Shaped(t, n, Height(n), 0) && !Twins(t) && Root(t) != Zero
    && Hashes(t) == hashes
    && Bits(t) <= bits && Bytes(|Bits(t)|) == Bytes(|bits|)
  }

  function Bytes(bits: nat): nat {
    (bits + 7) / 8
  }

  lemma HoldsAll(t: Partial, bits: seq<bool>, hashes: seq<Hash>)
    requires Bits(t) <= bits && Hashes(t) <= hashes
    ensures Holds(bits, hashes, 0, 0, Bits(t), Hashes(t))
  {}

  lemma HoldsMeans(t: Partial, bits: seq<bool>, hashes: seq<Hash>)
    requires Holds(bits, hashes, 0, 0, Bits(t), Hashes(t))
    ensures Bits(t) <= bits && Hashes(t) <= hashes
  {
    forall i | 0 <= i < |Bits(t)| ensures Bits(t)[i] == bits[i] {
      assert bits[0 + i] == Bits(t)[i];
    }
    forall i | 0 <= i < |Hashes(t)| ensures Hashes(t)[i] == hashes[i] {
      assert hashes[0 + i] == Hashes(t)[i];
    }
  }

  /** A flattened tree at the front of stored data is accepted exactly if it has no twins, no hash is left
      over and no byte of flags is. */
  lemma FrontOf(t: Partial, n: nat, bits: seq<bool>, hashes: seq<Hash>)
    requires 0 < n <= 16666 && Shaped(t, n, Height(n), 0) && Root(t) != Zero
    requires Bits(t) <= bits && Hashes(t) <= hashes
    ensures ExtractMatches(n, bits, hashes).0 != Zero <==>
            !Twins(t) && |hashes| == |Hashes(t)| && Bytes(|bits|) == Bytes(|Bits(t)|)
    ensures ExtractMatches(n, bits, hashes).0 != Zero ==>
            ExtractMatches(n, bits, hashes) == (Root(t), Found(t, Height(n), 0))
  {
    hide Extract;
    hide Height;
    hide Width;
    hide Shaped;
    hide Holds;
    HoldsAll(t, bits, hashes);
    ReadsBack(t, bits, hashes, n, Height(n), 0, 0, 0);
    RootExists(n, Height(n));
    HashesFit(t, n, Height(n), 0);
  }

  /** Accepted is exactly what is a flattened tree of the right shape; then the root and the matches are those of
      the tree. */
  lemma AcceptedExactly(n: nat, bits: seq<bool>, hashes: seq<Hash>)
    ensures ExtractMatches(n, bits, hashes).0 != Zero <==> exists t :: Flattened(t, n, bits, hashes)
    ensures forall t :: Flattened(t, n, bits, hashes) ==>
      ExtractMatches(n, bits, hashes) == (Root(t), Found(t, Height(n), 0))
  {
    hide ExtractMatches;
    hide Shaped;
    forall t | Flattened(t, n, bits, hashes)
      ensures ExtractMatches(n, bits, hashes) == (Root(t), Found(t, Height(n), 0))
      ensures ExtractMatches(n, bits, hashes).0 != Zero
    {
      FrontOf(t, n, bits, hashes);
    }
    if ExtractMatches(n, bits, hashes).0 != Zero {
      var t := AcceptedTree(n, bits, hashes);
    }
  }

  lemma AcceptedTree(n: nat, bits: seq<bool>, hashes: seq<Hash>) returns (t: Partial)
    requires ExtractMatches(n, bits, hashes).0 != Zero
    ensures Flattened(t, n, bits, hashes)
  {
    hide Extract;
    hide Height;
    hide Shaped;
    hide Holds;
    t := ReadIsTree(bits, hashes, n, Height(n), 0, 0, 0);
    HoldsMeans(t, bits, hashes);
    assert |Hashes(t)| == |hashes|;
  }

  // ----- accepted proofs cannot be altered by adding or dropping

  /** With any hash added, an accepted proof is refused. */
  lemma ExtraHashes(n: nat, bits: seq<bool>, hashes: seq<Hash>, extra: seq<Hash>)
    requires ExtractMatches(n, bits, hashes).0 != Zero && extra != []
    ensures ExtractMatches(n, bits, hashes + extra).0 == Zero
  {
    hide *;
    var t := AcceptedTree(n, bits, hashes);
    FlattenedIs(t, n, bits, hashes);
    FrontOf(t, n, bits, hashes + extra);
  }

  /** With any hash dropped from the end, it is refused as well. */
  lemma MissingHashes(n: nat, bits: seq<bool>, hashes: seq<Hash>, k: nat)
    requires ExtractMatches(n, bits, hashes).0 != Zero && k < |hashes|
    ensures ExtractMatches(n, bits, hashes[..k]).0 == Zero
  {
    hide *;
    assert hashes[..k] + hashes[k..] == hashes;
    if ExtractMatches(n, bits, hashes[..k]).0 != Zero {
      ExtraHashes(n, bits, hashes[..k], hashes[k..]);
    }
  }

  /** With flags added, it is accepted exactly if they are padding of its last byte, and then means the same. */
  lemma ExtraBits(n: nat, bits: seq<bool>, hashes: seq<Hash>, extra: seq<bool>)
    requires ExtractMatches(n, bits, hashes).0 != Zero
    ensures ExtractMatches(n, bits + extra, hashes).0 != Zero <==> Bytes(|bits + extra|) == Bytes(|bits|)
    ensures |extra| >= 8 ==> ExtractMatches(n, bits + extra, hashes).0 == Zero
    ensures ExtractMatches(n, bits + extra, hashes).0 != Zero ==>
            ExtractMatches(n, bits + extra, hashes) == ExtractMatches(n, bits, hashes)
  {
    hide *;
    var t := AcceptedTree(n, bits, hashes);
    FlattenedIs(t, n, bits, hashes);
    FrontOf(t, n, bits, hashes);
    FrontOf(t, n, bits + extra, hashes);
    ByteMore(|bits|, |extra|);
  }

  lemma ByteMore(a: nat, b: nat)
    ensures b >= 8 ==> Bytes(a + b) > Bytes(a)
  {}

  /** A tree of the right shape with two equal siblings is refused, whatever follows it. */
  lemma TwinsRefused(t: Partial, n: nat, bits: seq<bool>, hashes: seq<Hash>)
    requires Shaped(t, n, Height(n), 0) && Twins(t) && Bits(t) <= bits && Hashes(t) <= hashes
    ensures ExtractMatches(n, bits, hashes).0 == Zero
  {
    hide Extract;
    hide Height;
    hide Shaped;
    hide Holds;
    HoldsAll(t, bits, hashes);
    ReadsBack(t, bits, hashes, n, Height(n), 0, 0, 0);
  }

  lemma FlattenedIs(t: Partial, n: nat, bits: seq<bool>, hashes: seq<Hash>)
    requires Flattened(t, n, bits, hashes)
    ensures 0 < n <= 16666 && Shaped(t, n, Height(n), 0) && !Twins(t) && Root(t) != Zero
    ensures Hashes(t) == hashes && Bits(t) <= bits && Bytes(|Bits(t)|) == Bytes(|bits|)
  {}
}
