/** The active chain: the ancestors of a tip, indexed by height. */
module ActiveChain {
  import opened BlockTree
  import opened Powers

  /** Exactly the tip's ancestors, each at its height. */
  ghost predicate IsChain(t: Tree, v: seq<int>) {
    && Linked(t)
    && (v != [] ==>
          && 0 <= v[|v| - 1] < |t| && t[v[|v| - 1]].height == |v| - 1
          && forall k :: 0 <= k < |v| ==> v[k] == Walk(t, v[|v| - 1], k))
  }

  /** Being the chain of a tip, stated for a block that need not be in it yet. */
  ghost predicate IsChainOf(t: Tree, v: seq<int>, tip: nat)
    requires Linked(t) && tip < |t|
  {
    |v| == t[tip].height + 1 && forall k :: 0 <= k < |v| ==> v[k] == Walk(t, tip, k)
  }

  lemma ChainOfTip(t: Tree, v: seq<int>, tip: nat)
    requires Linked(t) && tip < |t| && IsChainOf(t, v, tip)
    ensures IsChain(t, v) && v[|v| - 1] == tip
  {
    WalkSelf(t, tip);
  }

  /** What is below a shared block is shared. */
  lemma SharedBelow(t: Tree, v: seq<int>, tip: nat, h: nat, k: nat)
    requires IsChain(t, v) && tip < |t| && k <= h < |v| && h <= t[tip].height && v[h] == Walk(t, tip, h)
    ensures v[k] == Walk(t, tip, k)
  {
    WalkWalk(t, v[|v| - 1], h, k);
    WalkWalk(t, tip, h, k);
  }

  /** Growing the tree leaves the chain a chain. */
  lemma ChainGrows(t: Tree, u: Tree, v: seq<int>)
    requires IsChain(t, v) && Linked(u) && t <= u
    ensures IsChain(u, v)
  {
    if v != [] {
      var tip := v[|v| - 1];
      forall k | 0 <= k < |v| ensures v[k] == Walk(u, tip, k) {
        WalkGrows(t, u, tip, k);
      }
    }
  }

  /** Membership means being the tip's ancestor. */
  lemma ContainsMeans(t: Tree, v: seq<int>, i: nat)
    requires IsChain(t, v) && i < |t|
    ensures Contains(t, v, i) <==>
      v != [] && t[i].height <= t[v[|v| - 1]].height && Walk(t, v[|v| - 1], t[i].height) == i
  {}

  predicate Contains(t: Tree, v: seq<int>, i: nat)
    requires i < |t|
  {
    t[i].height < |v| && v[t[i].height] == i
  }

  // ----- locators

  function Step(n: nat): nat {
    if n <= 10 then 1 else Pow2(n - 10)
  }

  /** How far below the start the n-th locator entry lies: ten single steps, then doubling ones. */
  function Back(n: nat): nat {
    if n <= 10 then n else 9 + Pow2(n - 10)
  }

  lemma BackStep(n: nat)
    ensures Back(n + 1) == Back(n) + Step(n)
    ensures Step(n + 1) == if n >= 10 then 2 * Step(n) else Step(n)
  {
    assert Pow2(1) == 2;
  }

  function LocatorHeight(height: nat, n: nat): (r: nat)
    ensures r <= height
  {
    if height <= Back(n) then 0 else height - Back(n)
  }

  /** Ends at the bottom, and only there. */
  ghost predicate IsLocator(t: Tree, start: nat, have: seq<int>)
    requires Linked(t) && start < |t|
  {
    && have != []
    && (forall n :: 0 <= n < |have| ==> have[n] == Walk(t, start, LocatorHeight(t[start].height, n)))
    && (forall n :: 0 <= n < |have| ==> (LocatorHeight(t[start].height, n) == 0 <==> n == |have| - 1))
  }

  /** A locator lists the first eleven blocks one by one, and its length grows with the logarithm of the height:
      the 32 entries reserved for it are enough up to height 2^21. */
  lemma LocatorShort(t: Tree, start: nat, have: seq<int>)
    requires Linked(t) && start < |t| && IsLocator(t, start, have)
    ensures var h := t[start].height;
      && (forall n :: 0 <= n < |have| && n <= 10 ==> n <= h && have[n] == Walk(t, start, h - n))
      && (|have| > 12 ==> Pow2(|have| - 12) < h)
      && (h <= Pow2(21) ==> |have| <= 32)
  {
    hide Walk;
    hide Pow2;
    var h := t[start].height;
    forall n | 0 <= n < |have| && n <= 10 ensures n <= h && have[n] == Walk(t, start, h - n) {
      if n > 0 {
        assert LocatorHeight(h, n - 1) != 0;
      }
    }
    if |have| > 12 {
      assert LocatorHeight(h, |have| - 2) != 0;
      if |have| > 32 {
        Pow2Mono(21, |have| - 12);
      }
    }
  }

  class Chain {
    var vChain: seq<int>

    constructor ()
      ensures vChain == []
    {
      vChain := [];
    }

    /** Rewrites the index downward from the new tip, stopping at the first block already in place. */
    method SetTip(t: Tree, tip: int)
      requires IsChain(t, vChain) && (tip == NONE || 0 <= tip < |t|)
      modifies this
      ensures IsChain(t, vChain)
      ensures if tip == NONE then vChain == [] else IsChainOf(t, vChain, tip)
    {
      if tip == NONE {
        vChain := [];
        return;
      }
      hide Walk;
      ghost var was := vChain;
      var h := t[tip].height;
      vChain := if |vChain| > h + 1 then vChain[..h + 1] else vChain + seq(h + 1 - |vChain|, _ => NONE);
      ghost var resized := vChain;
      var p := tip;
      WalkSelf(t, tip);
      while p != NONE && vChain[t[p].height] != p
        invariant |vChain| == h + 1
        invariant p == NONE || (0 <= p <= tip && t[p].height <= h && p == Walk(t, tip, t[p].height))
        invariant forall k :: 0 <= k <= h && (p == NONE || t[p].height < k) ==> vChain[k] == Walk(t, tip, k)
        invariant p != NONE ==> forall k :: 0 <= k <= t[p].height ==> vChain[k] == resized[k]
        decreases p
      {
        Parent(t, tip, p);
        vChain := vChain[t[p].height := p];
        p := t[p].prev;
      }
      if p != NONE {
        StoppedEarly(t, was, resized, vChain, tip, p);
      }
      ChainOfTip(t, vChain, tip);
    }

    method FindFork(t: Tree, i: int) returns (r: int)
      requires WellFormed(t) && IsChain(t, vChain) && (i == NONE || 0 <= i < |t|)
      ensures i == NONE ==> r == NONE
      ensures i != NONE && vChain == [] ==> r == NONE
      ensures i != NONE && vChain != [] && r != NONE ==> r >= 0 && IsLastCommon(t, i, vChain[|vChain| - 1], r)
      ensures i != NONE && vChain != [] && r == NONE ==>
                forall k :: 0 <= k <= t[i].height && k < |vChain| ==> Walk(t, i, k) != vChain[k]
    {
      if i == NONE {
        return NONE;
      }
      hide Walk;
      hide IsLastCommon;
      hide IsChain;
      r := i;
      WalkSelf(t, i);
      if t[i].height > |vChain| - 1 {
        ghost var steps;
        r, steps := GetAncestor(t, i, |vChain| - 1);
      }
      while r != NONE && !Contains(t, vChain, r)
        invariant r == NONE || (0 <= r < |t| && t[r].height <= t[i].height && r == Walk(t, i, t[r].height))
        invariant r != NONE ==> t[r].height < |vChain|
        invariant ApartAbove(t, vChain, i, if r == NONE then -1 else t[r].height)
        decreases r
      {
        Parent(t, i, r);
        ApartBelow(t, vChain, i, r);
        r := t[r].prev;
      }
      if r != NONE {
        ForkFound(t, vChain, i, r);
      }
    }

    /** Blocks at exponentially growing distance, by index while on the chain and by skip list off it. */
    method GetLocator(t: Tree, i: int) returns (have: seq<int>)
      requires WellFormed(t) && IsChain(t, vChain) && (i == NONE || 0 <= i < |t|)
      ensures i == NONE && vChain == [] ==> have == []
      ensures i == NONE && vChain != [] ==> IsLocator(t, vChain[|vChain| - 1], have)
      ensures i != NONE ==> IsLocator(t, i, have)
    {
      have := [];
      var p := i;
      if p == NONE {
        if vChain == [] {
          return;
        }
        p := vChain[|vChain| - 1];
      }
      have := LocateFrom(t, p);
    }

    method LocateFrom(t: Tree, start: nat) returns (have: seq<int>)
      requires WellFormed(t) && IsChain(t, vChain) && start < |t|
      ensures IsLocator(t, start, have)
    {
      hide Walk;
      hide LocatorHeight;
      hide IsChain;
      hide Linked;
      hide Skips;
      have := [];
      var p, step := start, 1;
      ghost var h := t[start].height;
      WalkSelf(t, start);
      FirstHeight(h);
      while true
        invariant p < |t| && p == Walk(t, start, LocatorHeight(h, |have|)) && step == Step(|have|)
        invariant LocatorSoFar(t, start, have) && |have| <= h
        decreases h - |have|
      {
        ghost var before := have;
        have := have + [p];
        if t[p].height == 0 {
          LocatorDone(t, start, before, p);
          break;
        }
        LocatorMore(t, start, before, p);
        NextHeight(h, |before|);
        var height := if t[p].height > step then t[p].height - step else 0;
        WalkWalk(t, start, LocatorHeight(h, |before|), height);
        p := Jump(t, p, height);
        if |have| > 10 {
          step := step * 2;
        }
      }
    }

    method Jump(t: Tree, p: nat, height: nat) returns (r: nat)
      requires WellFormed(t) && IsChain(t, vChain) && p < |t| && height <= t[p].height
      ensures r == Walk(t, p, height)
    {
      if Contains(t, vChain, p) {
        WalkSelf(t, p);
        SharedBelow(t, vChain, p, t[p].height, height);
        r := vChain[height];
      } else {
        ghost var steps;
        r, steps := GetAncestor(t, p, height);
      }
    }
  }

  ghost predicate LocatorSoFar(t: Tree, start: nat, have: seq<int>)
    requires Linked(t) && start < |t|
  {
    forall n :: 0 <= n < |have| ==>
      LocatorHeight(t[start].height, n) > 0 && have[n] == Walk(t, start, LocatorHeight(t[start].height, n))
  }

  lemma LocatorMore(t: Tree, start: nat, have: seq<int>, p: nat)
    requires Linked(t) && start < |t| && LocatorSoFar(t, start, have)
    requires p == Walk(t, start, LocatorHeight(t[start].height, |have|)) && t[p].height > 0
    ensures LocatorSoFar(t, start, have + [p])
  {
    hide Walk;
    hide Linked;
    hide LocatorHeight;
  }

  lemma LocatorDone(t: Tree, start: nat, have: seq<int>, p: nat)
    requires Linked(t) && start < |t| && LocatorSoFar(t, start, have)
    requires p == Walk(t, start, LocatorHeight(t[start].height, |have|)) && t[p].height == 0
    ensures IsLocator(t, start, have + [p])
  {
    hide Walk;
    hide LocatorHeight;
  }

  /** Above a height the block's line of descent and the chain have nothing in common. */
  ghost predicate ApartAbove(t: Tree, v: seq<int>, i: nat, h: int)
    requires Linked(t) && i < |t|
  {
    forall k :: 0 <= k <= t[i].height && k < |v| && h < k ==> Walk(t, i, k) != v[k]
  }

  lemma ApartBelow(t: Tree, v: seq<int>, i: nat, r: nat)
    requires Linked(t) && i < |t| && r < |t| && t[r].height <= t[i].height && r == Walk(t, i, t[r].height)
    requires ApartAbove(t, v, i, t[r].height) && !Contains(t, v, r)
    ensures ApartAbove(t, v, i, t[r].height - 1)
  {
    hide Walk;
    hide Linked;
  }

  lemma ForkFound(t: Tree, v: seq<int>, i: nat, r: nat)
    requires IsChain(t, v) && i < |t| && r < |t| && t[r].height <= t[i].height && r == Walk(t, i, t[r].height)
    requires ApartAbove(t, v, i, t[r].height) && Contains(t, v, r)
    ensures v != [] && IsLastCommon(t, i, v[|v| - 1], r)
  {
    hide Walk;
    hide Linked;
  }

  lemma FirstHeight(h: nat)
    ensures LocatorHeight(h, 0) == h && Step(0) == 1
  {}

  lemma NextHeight(h: nat, n: nat)
    requires LocatorHeight(h, n) > 0
    ensures var now := LocatorHeight(h, n);
      && LocatorHeight(h, n + 1) == (if now > Step(n) then now - Step(n) else 0)
      && Step(n + 1) == (if n + 1 > 10 then 2 * Step(n) else Step(n)) && n < h
  {
    BackStep(n);
    AtLeast(n);
  }

  lemma AtLeast(n: nat)
    ensures Back(n) >= n
  {
    if n > 10 {
      Grows(n - 10);
    }
  }

  lemma {:induction false} Grows(n: nat)
    ensures Pow2(n) >= n + 1
  {
    if n > 0 {
      Grows(n - 1);
    }
  }

  /** One step of a downward walk along a line of descent. */
  lemma Parent(t: Tree, i: nat, p: nat)
    requires Linked(t) && i < |t| && p < |t| && t[p].height <= t[i].height && p == Walk(t, i, t[p].height)
    ensures t[p].height == 0 ==> t[p].prev == NONE
    ensures t[p].height > 0 ==> 0 <= t[p].prev < p && t[t[p].prev].height == t[p].height - 1
                                && t[p].prev == Walk(t, i, t[p].height - 1)
  {
    if t[p].height > 0 {
      WalkWalk(t, i, t[p].height, t[p].height - 1);
      WalkPrev(t, p, t[p].height - 1);
      WalkSelf(t, t[p].prev);
    }
  }

  lemma StoppedEarly(t: Tree, was: seq<int>, resized: seq<int>, v: seq<int>, tip: nat, p: nat)
    requires IsChain(t, was) && tip < |t| && p < |t| && |v| == |resized| == t[tip].height + 1
    requires t[p].height <= t[tip].height && p == Walk(t, tip, t[p].height) && v[t[p].height] == p
    requires forall k :: 0 <= k < |resized| ==> resized[k] == if k < |was| then was[k] else NONE
    requires forall k :: 0 <= k <= t[p].height ==> v[k] == resized[k]
    requires forall k :: t[p].height < k < |v| ==> v[k] == Walk(t, tip, k)
    ensures IsChainOf(t, v, tip)
  {
    hide Walk;
    var h := t[p].height;
    forall k | 0 <= k < |v| ensures v[k] == Walk(t, tip, k) {
      if k <= h {
        assert v[h] == was[h];
        SharedBelow(t, was, tip, h, k);
      }
    }
  }
}
