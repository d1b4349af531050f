/**
 Block assembly: packages of a transaction with its unconfirmed ancestors are added in turn.
 The module Selection says what a run of selection does; the loop here is shown to be such a run.
 */
module Miner {
  import opened Collections
  import opened MemPool
  import opened PackageFees
  import opened PackageFigures
  import opened Ranking
  import opened Selection

  const MAX_BLOCK_WEIGHT := 4_000_000

  // ----- block contents

  function Total(s: seq<int>): int {
    if s == [] then 0 else Total(s[..|s| - 1]) + s[|s| - 1]
  }

  lemma TotalMore(s: seq<int>, x: int)
    ensures Total(s + [x]) == Total(s) + x
  {
    assert (s + [x])[..|s|] == s;
  }

  /** The template's fees and signature costs, transaction by transaction. */
  ghost predicate Lists(p: Pool, vtx: seq<Id>, txFees: seq<int>, txSigOps: seq<nat>) {
    && |vtx| == |txFees| == |txSigOps|
    && (forall i :: 0 <= i < |vtx| ==>
          vtx[i] in p.txs && txFees[i] == p.txs[vtx[i]].fee && txSigOps[i] == p.txs[vtx[i]].sigOps)
  }

  lemma ListsMore(p: Pool, vtx: seq<Id>, txFees: seq<int>, txSigOps: seq<nat>, id: Id)
    requires Lists(p, vtx, txFees, txSigOps) && id in p.txs
    ensures Lists(p, vtx + [id], txFees + [p.txs[id].fee], txSigOps + [p.txs[id].sigOps])
  {}

  /** Every ancestor of a transaction comes before it. */
  ghost predicate AncestorsFirst(p: Pool, vtx: seq<Id>) {
    forall i :: 0 <= i < |vtx| ==> vtx[i] in p.ancestors && forall a :: a in p.ancestors[vtx[i]] ==> a in vtx[..i]
  }

  lemma AncestorsFirstClosed(p: Pool, vtx: seq<Id>, block: set<Id>)
    requires AncestorsFirst(p, vtx) && forall id :: id in block <==> id in vtx
    ensures Closed(p, block)
  {
    forall id | id in block ensures id in p.ancestors && p.ancestors[id] <= block {
      var i :| 0 <= i < |vtx| && vtx[i] == id;
      forall a | a in p.ancestors[id] ensures a in block {
        assert a in vtx[..i];
      }
    }
  }

  lemma AncestorsFirstMore(p: Pool, vtx: seq<Id>, id: Id)
    requires AncestorsFirst(p, vtx) && id in p.ancestors && forall a :: a in p.ancestors[id] ==> a in vtx
    ensures AncestorsFirst(p, vtx + [id])
  {
    var w := vtx + [id];
    forall i | 0 <= i < |w|
      ensures w[i] in p.ancestors && forall a :: a in p.ancestors[w[i]] ==> a in w[..i]
    {
      assert w[..|vtx|] == vtx;
      assert i < |vtx| ==> w[..i] == vtx[..i];
    }
  }

  /** Fewer ancestors come first, and the smaller identifier among as many. */
  predicate Earlier(p: Pool, x: Id, y: Id)
    requires x in p.ancestors && y in p.ancestors
  {
    if CountWithAncestors(p, x) == CountWithAncestors(p, y) then x < y
    else CountWithAncestors(p, x) < CountWithAncestors(p, y)
  }

  ghost predicate SortedByCount(p: Pool, s: seq<Id>) {
    && (forall i :: 0 <= i < |s| ==> s[i] in p.ancestors)
    && (forall i, j :: 0 <= i < j < |s| ==> Earlier(p, s[i], s[j]))
  }

  /** In a package sorted by ancestor count, every ancestor of an entry is in the block or before it. */
  lemma SortedIsValidOrder(p: Pool, block: set<Id>, id: Id, sorted: seq<Id>, i: nat, a: Id)
    requires WellFormed(p) && id in p.txs && Closed(p, block) && SortedByCount(p, sorted)
    requires forall x :: x in sorted <==> x in Remaining(p, id, block)
    requires i < |sorted| && a in p.ancestors[sorted[i]]
    ensures a in block || a in sorted[..i]
  {
    var x := sorted[i];
    assert x in Remaining(p, id, block);
    assert p.ancestors[x] <= p.ancestors[id];
    if a !in block {
      assert a in sorted;
      var j :| 0 <= j < |sorted| && sorted[j] == a;
      AncestorsCountLess(p, x, a);
      assert j < i;
    }
  }

  /** `x` comes before all others of a set. */
  predicate Earliest(p: Pool, s: set<Id>, x: Id)
    requires s <= p.ancestors.Keys && x in p.ancestors
  {
    forall y :: y in s && y != x ==> Earlier(p, x, y)
  }

  lemma {:induction false} SomeEarliest(p: Pool, s: set<Id>) returns (x: Id)
    requires s != {} && s <= p.ancestors.Keys
    ensures x in s && Earliest(p, s, x)
    decreases s
  {
    hide CountWithAncestors;
    x := Member(s);
    if s != {x} {
      var a := x;
      var b := SomeEarliest(p, s - {a});
      x := if Earlier(p, a, b) then a else b;
      forall y | y in s && y != x ensures Earlier(p, x, y) {
        if y != a && y != b {
          assert y in s - {a} && Earlier(p, b, y);
        }
      }
    }
  }

  lemma EarliestIs(p: Pool, s: set<Id>, x: Id)
    requires s <= p.ancestors.Keys && x in p.ancestors && Earliest(p, s, x)
    ensures forall y :: y in s && y != x ==> Earlier(p, x, y)
  {}

  lemma DistinctMore(s: seq<Id>, x: Id)
    requires Distinct(s) && x !in s
    ensures Distinct(s + [x])
  {}

  lemma SortedMore(p: Pool, s: seq<Id>, x: Id)
    requires SortedByCount(p, s) && x in p.ancestors
    requires forall i :: 0 <= i < |s| ==> Earlier(p, s[i], x)
    ensures SortedByCount(p, s + [x])
  {
    hide Earlier;
  }

  /** Orders a package by ancestor count. */
  method SortForBlock(p: Pool, package: set<Id>) returns (sorted: seq<Id>)
    requires package <= p.ancestors.Keys
    ensures SortedByCount(p, sorted) && Distinct(sorted)
    ensures forall id :: id in sorted <==> id in package
  {
    hide Earlier;
    hide Earliest;
    sorted := [];
    var rest := package;
    while rest != {}
      invariant rest <= package && Distinct(sorted)
      invariant forall id :: id in sorted <==> id in package - rest
      invariant SortedByCount(p, sorted)
      invariant forall i, y :: 0 <= i < |sorted| && y in rest ==> Earlier(p, sorted[i], y)
      decreases |rest|
    {
      ghost var some := SomeEarliest(p, rest);
      var x :| x in rest && Earliest(p, rest, x);
      EarliestIs(p, rest, x);
      DistinctMore(sorted, x);
      SortedMore(p, sorted, x);
      sorted := sorted + [x];
      rest := rest - {x};
    }
  }

  /** Charges every descendant of one included transaction. */
  method ChargeDescendants(p: Pool, modified: map<Id, Entry>, added: set<Id>, it: Id) returns (after: map<Id, Entry>)
    requires WellFormed(p) && modified.Keys <= p.txs.Keys && it in p.txs
    ensures p.ancestors.Keys == p.txs.Keys && after == ChargeOne(p, modified, added, it)
  {
    PoolKeys(p);
    hide *;
    var descendants := Descendants(p, added, it);
    var rest := descendants;
    after := modified;
    ChargedSomeNone(p, modified, it);
    assert descendants - rest == {};
    while rest != {}
      invariant rest <= descendants
      invariant ChargedSome(p, modified, after, descendants - rest, it)
      decreases rest
    {
      var desc :| desc in rest;
      var e := Charge(p, after, it, desc);
      ChargedSomeMore(p, modified, after, e, descendants - rest, it, desc);
      assert descendants - rest + {desc} == descendants - (rest - {desc});
      after := after[desc := e];
      rest := rest - {desc};
    }
    assert descendants - rest == descendants;
    ChargedAll(p, modified, after, added, it);
  }

  lemma ChargedAll(p: Pool, before: map<Id, Entry>, after: map<Id, Entry>, added: set<Id>, it: Id)
    requires p.ancestors.Keys == p.txs.Keys && before.Keys <= p.txs.Keys && it in p.txs
    requires ChargedSome(p, before, after, Descendants(p, added, it), it)
    ensures after == ChargeOne(p, before, added, it)
  {
    hide Charge;
  }

  lemma ChargedSomeNone(p: Pool, before: map<Id, Entry>, it: Id)
    requires it in p.txs && p.ancestors.Keys == p.txs.Keys
    ensures ChargedSome(p, before, before, {}, it)
  {}

  ghost predicate ChargedSome(p: Pool, before: map<Id, Entry>, after: map<Id, Entry>, done: set<Id>, it: Id)
    requires it in p.txs && done <= p.txs.Keys && p.ancestors.Keys == p.txs.Keys
  {
    && after.Keys == before.Keys + done
    && (forall id :: id in after ==> after[id] == if id in done then Charge(p, before, it, id) else before[id])
  }

  lemma ChargedSomeMore(p: Pool, before: map<Id, Entry>, now: map<Id, Entry>, e: Entry,
                        done: set<Id>, it: Id, desc: Id)
    requires it in p.txs && done <= p.txs.Keys && p.ancestors.Keys == p.txs.Keys && desc in p.txs && desc !in done
    requires ChargedSome(p, before, now, done, it) && e == Charge(p, now, it, desc)
    ensures ChargedSome(p, before, now[desc := e], done + {desc}, it)
  {}

  /** Charges every descendant outside a package for each member of the package, in the order of their
      identifiers. */
  method UpdatePackagesForAdded(p: Pool, added: set<Id>, modified: map<Id, Entry>)
      returns (after: map<Id, Entry>, ghost order: seq<Id>)
    requires WellFormed(p) && modified.Keys <= p.txs.Keys && added <= p.txs.Keys
    ensures Ascending(order) && Listing(order, added)
    ensures p.ancestors.Keys == p.txs.Keys && modified.Keys <= after.Keys <= p.txs.Keys
    ensures InPool(p, order) && after == ChargeInOrder(p, modified, added, order)
  {
    hide *;
    PoolKeys(p);
    after, order := modified, [];
    var rest := added;
    NotYet(p, modified, added);
    while rest != {}
      invariant rest <= added && after.Keys <= p.txs.Keys
      invariant Before(order, rest) && Members(order) == added - rest
      invariant InPool(p, order)
      invariant after == ChargeInOrder(p, modified, added, order)
      decreases |rest|
    {
      ghost var least := LeastId(rest);
      var it :| it in rest && AtMostAll(it, rest);
      after := ChargeDescendants(p, after, added, it);
      ChargeNext(p, modified, added, order, it);
      BeforeMore(order, rest, it);
      MembersMore(order, it);
      assert added - rest + {it} == added - (rest - {it});
      order := order + [it];
      rest := rest - {it};
    }
    BeforeAll(order, rest);
    assert added - {} == added;
    ListedOnce(order, added);
  }

  lemma NotYet(p: Pool, modified: map<Id, Entry>, added: set<Id>)
    requires p.ancestors.Keys == p.txs.Keys && modified.Keys <= p.txs.Keys
    ensures Before([], added) && Members([]) == added - added
    ensures InPool(p, []) && ChargeInOrder(p, modified, added, []) == modified
  {}

  /** Listed in ascending order, and before everything in the set. */
  ghost predicate Before(order: seq<Id>, rest: set<Id>) {
    Ascending(order) && forall i, x :: 0 <= i < |order| && x in rest ==> order[i] < x
  }

  lemma BeforeMore(order: seq<Id>, rest: set<Id>, it: Id)
    requires Before(order, rest) && it in rest && AtMostAll(it, rest)
    ensures Before(order + [it], rest - {it})
  {}

  lemma BeforeAll(order: seq<Id>, rest: set<Id>)
    requires Before(order, rest)
    ensures Ascending(order)
  {}

  lemma ListedOnce(order: seq<Id>, added: set<Id>)
    requires Ascending(order) && Members(order) == added
    ensures Listing(order, added)
  {}

  predicate AtMostAll(m: Id, s: set<Id>) {
    forall x :: x in s ==> m <= x
  }

  lemma {:induction false} LeastId(s: set<Id>) returns (m: Id)
    requires s != {}
    ensures m in s && AtMostAll(m, s)
    decreases s
  {
    var a := Member(s);
    if s == {a} {
      m := a;
    } else {
      var rest := s - {a};
      assert s == rest + {a};
      m := LeastId(rest);
      m := if a < m then a else m;
    }
  }

  class BlockAssembler {
    const pool: Pool
    const maxWeight: nat
    const minFeePerK: int

    var includeWitness: bool
    var vtx: seq<Id>
    var txFees: seq<int>
    var txSigOps: seq<nat>
    var blockWeight: nat
    var blockTx: nat
    var blockSigOps: nat
    var fees: int
    var inBlock: set<Id>

    /** The template lists what the counters say: no transaction twice, ancestors first. */
    ghost predicate Recorded()
      reads this
    {
      && WellFormed(pool)
      && Distinct(vtx) && AncestorsFirst(pool, vtx)
      && (forall id :: id in inBlock <==> id in vtx)
      && inBlock <= pool.txs.Keys
      && blockTx == |vtx| && Lists(pool, vtx, txFees, txSigOps)
      && fees == Total(txFees)
      && blockWeight == COINBASE_WEIGHT + Sum(pool, inBlock, Weight)
      && blockSigOps == COINBASE_SIGOPS + Sum(pool, inBlock, SigOps)
    }

    ghost predicate WithinLimits()
      reads this
    {
      blockWeight <= maxWeight && blockSigOps <= MAX_BLOCK_SIGOPS_COST
    }

    ghost predicate Valid()
      reads this
    {
      COINBASE_WEIGHT <= maxWeight <= MAX_BLOCK_WEIGHT - 4000 && Ranked(pool) && Recorded() && WithinLimits()
    }

    constructor (pool: Pool, maxWeightOption: nat, minFeePerK: int)
      requires WellFormed(pool) && Ranked(pool)
      ensures Valid() && vtx == [] && inBlock == {} && this.pool == pool && this.minFeePerK == minFeePerK
      ensures 4000 <= maxWeightOption <= MAX_BLOCK_WEIGHT - 4000 ==> maxWeight == maxWeightOption
      ensures maxWeightOption < 4000 ==> maxWeight == 4000
      ensures maxWeightOption > MAX_BLOCK_WEIGHT - 4000 ==> maxWeight == MAX_BLOCK_WEIGHT - 4000
    {
      this.pool := pool;
      this.minFeePerK := minFeePerK;
      var capped := if maxWeightOption < MAX_BLOCK_WEIGHT - 4000 then maxWeightOption else MAX_BLOCK_WEIGHT - 4000;
      maxWeight := if capped < 4000 then 4000 else capped;
      new;
      ResetBlock();
    }

    method ResetBlock()
      requires WellFormed(pool) && Ranked(pool) && COINBASE_WEIGHT <= maxWeight <= MAX_BLOCK_WEIGHT - 4000
      modifies this
      ensures Valid() && vtx == [] && inBlock == {} && !includeWitness && blockWeight == 4000 && blockSigOps == 400
    {
      hide Ranked;
      hide WellFormed;
      inBlock := {};
      blockWeight := COINBASE_WEIGHT;
      blockSigOps := COINBASE_SIGOPS;
      includeWitness := false;
      blockTx := 0;
      fees := 0;
      vtx, txFees, txSigOps := [], [], [];
      SumNone(pool.txs, pool.order, Weight);
      SumNone(pool.txs, pool.order, SigOps);
    }

    method TestPackage(packageSize: int, packageSigOps: int) returns (fits: bool)
      ensures fits <==> blockWeight + WITNESS_SCALE_FACTOR * packageSize < maxWeight
                        && blockSigOps + packageSigOps < MAX_BLOCK_SIGOPS_COST
    {
      if blockWeight + WITNESS_SCALE_FACTOR * packageSize >= maxWeight {
        return false;
      }
      if blockSigOps + packageSigOps >= MAX_BLOCK_SIGOPS_COST {
        return false;
      }
      return true;
    }

    /** What limits a run of selection. */
    function Limits(): Terms
      reads `includeWitness
    {
      Terms(maxWeight, minFeePerK, includeWitness)
    }

    method TestPackageTransactions(package: set<Id>) returns (ok: bool)
      requires package <= pool.txs.Keys
      ensures ok <==> AllMayMine(pool, includeWitness, package)
    {
      var rest := package;
      while rest != {}
        invariant rest <= package && AllMayMine(pool, includeWitness, package - rest)
        decreases |rest|
      {
        var it :| it in rest;
        if !pool.txs[it].isFinal {
          return false;
        }
        if !includeWitness && pool.txs[it].hasWitness {
          return false;
        }
        rest := rest - {it};
      }
      return true;
    }

    method AddToBlock(id: Id)
      requires Recorded() && id in pool.txs && id !in inBlock && pool.ancestors[id] <= inBlock
      modifies `vtx, `txFees, `txSigOps, `blockWeight, `blockTx, `blockSigOps, `fees, `inBlock
      ensures Recorded() && vtx == old(vtx) + [id] && inBlock == old(inBlock) + {id}
    {
      hide Lists;
      hide AncestorsFirst;
      hide Distinct;
      hide Sum;
      hide WellFormed;
      hide Total;
      PoolKeys(pool);
      AncestorsFirstMore(pool, vtx, id);
      DistinctMore(vtx, id);
      ListsMore(pool, vtx, txFees, txSigOps, id);
      SumAdd(pool, inBlock, id, Weight);
      SumAdd(pool, inBlock, id, SigOps);
      vtx := vtx + [id];
      TotalMore(txFees, pool.txs[id].fee);
      txFees := txFees + [pool.txs[id].fee];
      txSigOps := txSigOps + [pool.txs[id].sigOps];
      blockWeight := blockWeight + pool.txs[id].weight;
      blockTx := blockTx + 1;
      blockSigOps := blockSigOps + pool.txs[id].sigOps;
      fees := fees + pool.txs[id].fee;
      inBlock := inBlock + {id};
    }

    /** Adds what remains of a package, in sorted order, dropping each member's modified entry. */
    method AddPackage(id: Id, package: set<Id>, modified: map<Id, Entry>) returns (rest: map<Id, Entry>)
      requires Valid() && id in pool.txs && package == Remaining(pool, id, inBlock)
      requires blockWeight + WITNESS_SCALE_FACTOR * Sum(pool, package, Size) <= maxWeight
      requires blockSigOps + Sum(pool, package, SigOps) <= MAX_BLOCK_SIGOPS_COST
      modifies `vtx, `txFees, `txSigOps, `blockWeight, `blockTx, `blockSigOps, `fees, `inBlock
      ensures Valid() && inBlock == old(inBlock) + package && rest == modified - package
      ensures old(vtx) <= vtx && forall i :: |old(vtx)| <= i < |vtx| ==> vtx[i] in package
    {
      hide *;
      ghost var block, listed := inBlock, vtx;
      Opening(id, package);
      var sorted := SortForBlock(pool, package);
      SortedPackage(id, sorted);
      rest := AddSorted(id, sorted, modified);
      Closing(block, listed, sorted, package);
    }

    /** Adds a sorted package one transaction at a time. */
    method AddSorted(id: Id, sorted: seq<Id>, modified: map<Id, Entry>) returns (rest: map<Id, Entry>)
      requires Recorded() && id in pool.ancestors && Package(id, sorted)
      modifies `vtx, `txFees, `txSigOps, `blockWeight, `blockTx, `blockSigOps, `fees, `inBlock
      ensures Recorded() && vtx == old(vtx) + sorted && rest == modified - Members(sorted)
    {
      hide *;
      ghost var block, listed := inBlock, vtx;
      RecordedBlock();
      PackageIs(id, sorted);
      rest := modified;
      assert listed + sorted[..0] == listed;
      ErasedNone(modified, sorted);
      for i := 0 to |sorted|
        invariant Recorded() && vtx == listed + sorted[..i]
        invariant rest == modified - Members(sorted[..i])
      {
        Next(block, listed, sorted, id, i);
        AddToBlock(sorted[i]);
        assert listed + sorted[..i + 1] == listed + sorted[..i] + [sorted[i]];
        ErasedMore(modified, sorted, i);
        rest := rest - {sorted[i]};
      }
      assert sorted[..|sorted|] == sorted;
    }

    /** Adds a package and corrects the figures of its descendants. */
    method TakePackage(id: Id, package: set<Id>, ghost entry: Entry, modified: map<Id, Entry>, ghost failed: set<Id>,
                       ghost made: map<Id, Id>)
        returns (after: map<Id, Entry>, ghost nowMade: map<Id, Id>)
      requires Valid() && id in pool.txs && package == Remaining(pool, id, inBlock)
      requires Tracks(pool, inBlock, modified, failed, made) && AllMayMine(pool, includeWitness, package)
      requires entry.size >= Sum(pool, package, Size) && entry.sigOps >= Sum(pool, package, SigOps)
      requires blockWeight + WITNESS_SCALE_FACTOR * entry.size < maxWeight
      requires blockSigOps + entry.sigOps < MAX_BLOCK_SIGOPS_COST
      modifies `vtx, `txFees, `txSigOps, `blockWeight, `blockTx, `blockSigOps, `fees, `inBlock
      ensures Valid() && inBlock == old(inBlock) + package && Tracks(pool, inBlock, after, failed, nowMade)
      ensures modified.Keys <= after.Keys + package
      ensures MadeInRound(pool, modified, made, after, nowMade, package)
      ensures old(vtx) <= vtx && AllMineable(vtx[|old(vtx)|..])
    {
      hide *;
      ghost var block, listed := inBlock, vtx;
      Covered(package, entry);
      Opening(id, package);
      Start();
      ClosedPackage(pool, inBlock, id);
      TracksKeys(pool, inBlock, modified, failed, made);
      PackageDisjoint(pool, inBlock, id);
      var rest := AddPackage(id, package, modified);
      ghost var order;
      after, order := UpdatePackagesForAdded(pool, package, rest);
      RoundTracks(pool, block, package, modified, rest, failed, made, order);
      nowMade := Made(pool, rest, after, made, order);
      NewMineable(|listed|, package);
    }

    /** Figures that do not fall short bound what the package costs. */
    lemma Covered(package: set<Id>, entry: Entry)
      requires entry.size >= Sum(pool, package, Size) && entry.sigOps >= Sum(pool, package, SigOps)
      requires blockWeight + WITNESS_SCALE_FACTOR * entry.size < maxWeight
      requires blockSigOps + entry.sigOps < MAX_BLOCK_SIGOPS_COST
      ensures blockWeight + WITNESS_SCALE_FACTOR * Sum(pool, package, Size) <= maxWeight
      ensures blockSigOps + Sum(pool, package, SigOps) <= MAX_BLOCK_SIGOPS_COST
    {
      hide Sum;
    }

    lemma NewMineable(from: nat, package: set<Id>)
      requires from <= |vtx| && AllMayMine(pool, includeWitness, package)
      requires forall i :: from <= i < |vtx| ==> vtx[i] in package
      ensures AllMineable(vtx[from..])
    {}

    /** The best modified entry and the next pool entry compete by score. */
    method Consider(mi: nat, modified: map<Id, Entry>, ghost failed: set<Id>, ghost made: map<Id, Id>,
                    ghost log: seq<Attempt>)
        returns (id: Id, usingModified: bool, entry: Entry, ghost c: Candidate)
      requires Valid() && Tracks(pool, inBlock, modified, failed, made) && mi <= |pool.order|
      requires mi < |pool.order| || modified.Keys != {}
      requires mi < |pool.order| ==>
        pool.order[mi] !in inBlock && pool.order[mi] !in modified && pool.order[mi] !in failed
      requires Accounted(pool, mi, inBlock, modified, failed, log)
      ensures usingModified ==> id in modified
      ensures !usingModified ==> mi < |pool.order| && id == pool.order[mi]
      ensures Preferred(pool, log, c) && c.id == id && c.block == inBlock && c.failed == failed && Own(c) == entry
    {
      hide *;
      Start();
      TracksKeys(pool, inBlock, modified, failed, made);
      OrderListed(pool);
      FiguresSized(pool, inBlock, modified, failed, made);
      var best: Id := 0;
      if modified.Keys != {} {
        ghost var some := SomeForemost(pool.txs, modified, modified.Keys);
        best :| best in modified.Keys && Foremost(pool.txs, modified, modified.Keys, best);
      }
      if mi == |pool.order| {
        usingModified := true;
      } else if modified.Keys == {} {
        usingModified := false;
      } else {
        var next := pool.order[mi];
        Compared(pool, inBlock, modified, best, next);
        usingModified := Precedes(best, Score(pool.txs[best], modified[best]), next, PoolScore(pool, next));
      }
      if usingModified {
        id, entry := best, modified[best];
        ModifiedIsForemost(pool, mi, inBlock, modified, failed, log, best);
      } else {
        id := pool.order[mi];
        entry := FromPool(pool, id);
        NextIsForemost(pool, mi, inBlock, modified, failed, log, best);
      }
      c := Candidate(id, Figures(pool, modified, inBlock), inBlock, failed);
      AccountedFailed(pool, mi, inBlock, modified, failed, log);
      IsPreferred(pool, inBlock, modified, failed, made, log, id);
    }

    /** Charges the descendants of whatever the block already holds. */
    method Begin() returns (modified: map<Id, Entry>, ghost made: map<Id, Id>)
      requires Valid()
      ensures Tracks(pool, inBlock, modified, {}, made) && MadeInRound(pool, map[], map[], modified, made, inBlock)
    {
      hide *;
      Start();
      ghost var order;
      var none: map<Id, Entry> := map[];
      modified, order := UpdatePackagesForAdded(pool, inBlock, none);
      TracksNothing(pool);
      assert {} + inBlock == inBlock && none - inBlock == none;
      RoundTracks(pool, {}, inBlock, none, none, {}, map[], order);
      made := Made(pool, none, modified, map[], order);
    }

    /** Selects packages until none is left, the fee rate is too low, or the block is nearly full. */
    method AddPackageTxs() returns (ghost log: seq<Attempt>, ghost ending: Ending)
      requires Valid()
      modifies `vtx, `txFees, `txSigOps, `blockWeight, `blockTx, `blockSigOps, `fees, `inBlock
      ensures Valid() && old(vtx) <= vtx
      ensures AllMineable(vtx[|old(vtx)|..])
      ensures Leads(pool, Limits(), old(inBlock), log, inBlock) && Stops(pool, Limits(), log, inBlock, ending)
      ensures AllWelcome(pool, Limits()) ==> inBlock == pool.txs.Keys
    {
      hide *;
      var modified, made := Begin();
      var failed: set<Id> := {};
      var mi := 0;
      var failures := 0;
      ghost var listed, t, start := vtx, Limits(), inBlock;
      log, ending := [], Exhausted;
      MineableNone(vtx);
      RunBegins(pool, t, inBlock, modified);
      while mi < |pool.order| || modified.Keys != {}
        invariant Valid() && mi <= |pool.order| && Tracks(pool, inBlock, modified, failed, made)
        invariant listed <= vtx && AllMineable(vtx[|listed|..])
        invariant Leads(pool, t, start, log, inBlock) && Accounted(pool, mi, inBlock, modified, failed, log)
        invariant failures == Failures(log) && !Full(pool, t, log, inBlock) && ending.Exhausted?
        decreases pool.txs.Keys - inBlock, |pool.order| - mi, modified.Keys
      {
        Start();
        if mi < |pool.order| && (pool.order[mi] in modified || pool.order[mi] in inBlock || pool.order[mi] in failed) {
          Passed(pool, mi, inBlock, modified, failed, log);
          mi := mi + 1;
          continue;
        }
        ghost var c;
        var id, usingModified, entry;
        id, usingModified, entry, c := Consider(mi, modified, failed, made, log);
        ghost var at := mi;
        if !usingModified {
          mi := mi + 1;
        }
        CandidateIs(pool, log, c);
        PaysExactly(minFeePerK, entry.size, entry.fees);
        if entry.fees < MinFee(minFeePerK, entry.size) {
          ending := BelowRate(c);
          EndsBelowRate(pool, t, log, c);
          break;
        }
        ghost var before := vtx;
        var outcome, after, nowMade := TryPackage(id, entry, modified, failed, made);
        MineableMore(listed, before, vtx);
        ghost var a := Attempt(c, outcome);
        Attempted(pool, t, start, log, a);
        FailuresMore(log, a);
        if outcome == Taken {
          failures := 0;
          AccountedTaken(pool, at, mi, inBlock, modified, after, log, a);
          modified, made, log := after, nowMade, log + [a];
          continue;
        }
        AccountedRefused(pool, at, mi, modified, log, a);
        if usingModified {
          TracksErase(pool, inBlock, modified, failed, made, id);
          modified := modified - {id};
          failed := failed + {id};
        }
        log := log + [a];
        if outcome == TooBig {
          failures := failures + 1;
          FullIs(pool, t, log, inBlock);
          if failures > MAX_CONSECUTIVE_FAILURES && blockWeight > maxWeight - 4000 {
            ending := NearlyFull;
            EndsFull(pool, t, log, inBlock);
            break;
          }
        }
      }
      Start();
      if ending.Exhausted? {
        EndsExhausted(pool, t, inBlock, modified, failed, log);
      }
      if AllWelcome(pool, t) {
        EverythingIncluded(pool, t, start, log, inBlock, ending);
      }
    }

    /** The part of block creation that chooses transactions. */
    method CreateNewBlock(mineWitness: bool) returns (ghost log: seq<Attempt>, ghost ending: Ending)
      requires Valid()
      modifies this
      ensures Valid() && includeWitness == mineWitness && AllMineable(vtx)
      ensures Leads(pool, Limits(), {}, log, inBlock) && Stops(pool, Limits(), log, inBlock, ending)
      ensures AllWelcome(pool, Limits()) ==> inBlock == pool.txs.Keys
    {
      hide Ranked;
      hide WellFormed;
      hide Sum;
      hide AncestorsFirst;
      hide Lists;
      hide Total;
      hide Distinct;
      hide Leads;
      hide Stops;
      hide AllWelcome;
      ResetBlock();
      includeWitness := mineWitness;
      log, ending := AddPackageTxs();
      assert vtx[0..] == vtx;
    }

    ghost predicate AllMineable(s: seq<Id>)
      reads `includeWitness
    {
      forall i :: 0 <= i < |s| ==> MayMine(pool, includeWitness, s[i])
    }

    lemma MineableNone(s: seq<Id>)
      ensures AllMineable(s[|s|..])
    {}

    lemma MineableMore(s: seq<Id>, t: seq<Id>, u: seq<Id>)
      requires s <= t <= u && AllMineable(t[|s|..]) && AllMineable(u[|t|..])
      ensures s <= u && AllMineable(u[|s|..])
    {
      assert u[|s|..] == t[|s|..] + u[|t|..];
    }

    /** Adds a package if it fits and every transaction in it may be mined, and changes nothing otherwise. */
    method TryPackage(id: Id, entry: Entry, modified: map<Id, Entry>, ghost failed: set<Id>, ghost made: map<Id, Id>)
        returns (outcome: Outcome, after: map<Id, Entry>, ghost nowMade: map<Id, Id>)
      requires Valid() && id in pool.txs && id in pool.ancestors && id !in inBlock
      requires Tracks(pool, inBlock, modified, failed, made)
      requires entry.size >= Sum(pool, Remaining(pool, id, inBlock), Size)
      requires entry.sigOps >= Sum(pool, Remaining(pool, id, inBlock), SigOps)
      modifies `vtx, `txFees, `txSigOps, `blockWeight, `blockTx, `blockSigOps, `fees, `inBlock
      ensures Valid() && Tracks(pool, inBlock, after, failed, nowMade)
      ensures if outcome == Taken then inBlock == old(inBlock) + old(Remaining(pool, id, inBlock)) && id in inBlock
              else unchanged(this) && after == modified && nowMade == made
      ensures modified.Keys <= after.Keys + inBlock
      ensures outcome == TooBig <==> Overflows(pool, Limits(), old(inBlock), entry)
      ensures outcome == Taken <==>
        && !Overflows(pool, Limits(), old(inBlock), entry)
        && AllMayMine(pool, includeWitness, old(Remaining(pool, id, inBlock)))
      ensures old(vtx) <= vtx && AllMineable(vtx[|old(vtx)|..])
    {
      hide *;
      Start();
      MineableNone(vtx);
      after, nowMade := modified, made;
      var fits := TestPackage(entry.size, entry.sigOps);
      OverflowsIs(pool, Limits(), inBlock, entry);
      if !fits {
        return TooBig, after, nowMade;
      }
      var package := Remaining(pool, id, inBlock);
      PackageMember(pool, inBlock, id);
      var ok := TestPackageTransactions(package);
      if !ok {
        return NotFinal, after, nowMade;
      }
      after, nowMade := TakePackage(id, package, entry, modified, failed, made);
      outcome := Taken;
    }

    lemma Start()
      requires Valid()
      ensures Recorded() && WellFormed(pool) && Closed(pool, inBlock) && inBlock <= pool.txs.Keys
      ensures pool.ancestors.Keys == pool.txs.Keys && Ranked(pool)
      ensures blockWeight == COINBASE_WEIGHT + Sum(pool, inBlock, Weight)
      ensures blockSigOps == COINBASE_SIGOPS + Sum(pool, inBlock, SigOps)
      ensures Limits() == Terms(maxWeight, minFeePerK, includeWitness)
    {
      hide Ranked;
      AncestorsFirstClosed(pool, vtx, inBlock);
    }

    /** What a package may rely on before it is added. */
    lemma Opening(id: Id, package: set<Id>)
      requires Valid() && id in pool.txs && package == Remaining(pool, id, inBlock)
      requires blockWeight + WITNESS_SCALE_FACTOR * Sum(pool, package, Size) <= maxWeight
      requires blockSigOps + Sum(pool, package, SigOps) <= MAX_BLOCK_SIGOPS_COST
      ensures Recorded() && Closed(pool, inBlock) && id in pool.ancestors && package <= pool.ancestors.Keys
      ensures (forall x :: x in inBlock <==> x in vtx) && Fits(inBlock + package) && Ranked(pool)
    {
      hide Ranked;
      AncestorsFirstClosed(pool, vtx, inBlock);
      AddedLimits(pool, inBlock, id);
    }

    /** A block with these members is within the limits. */
    ghost predicate Fits(block: set<Id>) {
      && COINBASE_WEIGHT <= maxWeight <= MAX_BLOCK_WEIGHT - 4000
      && COINBASE_WEIGHT + Sum(pool, block, Weight) <= maxWeight
      && COINBASE_SIGOPS + Sum(pool, block, SigOps) <= MAX_BLOCK_SIGOPS_COST
    }

    lemma Closing(block: set<Id>, listed: seq<Id>, sorted: seq<Id>, package: set<Id>)
      requires Recorded() && Ranked(pool) && vtx == listed + sorted && Fits(block + package)
      requires (forall x :: x in block <==> x in listed) && (forall x :: x in sorted <==> x in package)
      ensures Valid() && inBlock == block + package && listed <= vtx && Members(sorted) == package
      ensures forall i :: |listed| <= i < |vtx| ==> vtx[i] in package
    {
      hide Ranked;
      hide WellFormed;
      hide Sum;
      hide AncestorsFirst;
      hide Lists;
      hide Total;
      hide Distinct;
      assert inBlock == block + package;
    }

    /** `sorted` lists what remains of a package in an order fit for the block. */
    ghost predicate PackageOver(block: set<Id>, id: Id, sorted: seq<Id>)
      requires id in pool.ancestors
    {
      && Closed(pool, block) && SortedByCount(pool, sorted) && Distinct(sorted)
      && (forall x :: x in sorted <==> x in Remaining(pool, id, block))
    }

    ghost predicate Package(id: Id, sorted: seq<Id>)
      requires id in pool.ancestors
      reads this
    {
      PackageOver(inBlock, id, sorted)
    }

    lemma PackageIs(id: Id, sorted: seq<Id>)
      requires id in pool.ancestors && Package(id, sorted)
      ensures PackageOver(inBlock, id, sorted)
    {}

    lemma RecordedBlock()
      requires Recorded()
      ensures pool.ancestors.Keys == pool.txs.Keys && forall x :: x in inBlock <==> x in vtx
    {}

    lemma SortedPackage(id: Id, sorted: seq<Id>)
      requires id in pool.ancestors && Closed(pool, inBlock) && SortedByCount(pool, sorted) && Distinct(sorted)
      requires forall x :: x in sorted <==> x in Remaining(pool, id, inBlock)
      ensures Package(id, sorted)
    {}

    /** The next transaction of a sorted package has all its ancestors in the block and is not there itself. */
    lemma Next(block: set<Id>, listed: seq<Id>, sorted: seq<Id>, id: Id, i: nat)
      requires Recorded() && i < |sorted| && vtx == listed + sorted[..i] && id in pool.ancestors
      requires (forall x :: x in block <==> x in listed) && PackageOver(block, id, sorted)
      ensures sorted[i] in pool.txs && sorted[i] !in inBlock && pool.ancestors[sorted[i]] <= inBlock
    {
      var x := sorted[i];
      assert x in Remaining(pool, id, block);
      assert x !in sorted[..i];
      forall a | a in pool.ancestors[x] ensures a in inBlock {
        SortedIsValidOrder(pool, block, id, sorted, i, a);
      }
    }
  }

  /** After a round an entry that was there was made for the ancestor it was made for, and a new one for the
      least of its ancestors in the package. */
  ghost predicate MadeInRound(p: Pool, modified: map<Id, Entry>, made: map<Id, Id>, after: map<Id, Entry>,
                              nowMade: map<Id, Id>, package: set<Id>)
  {
    && nowMade.Keys == after.Keys <= p.ancestors.Keys
    && (forall id :: id in after && id in modified && id in made ==> nowMade[id] == made[id])
    && (forall id :: id in after && id !in modified ==>
          && nowMade[id] in p.ancestors[id] * package
          && forall x :: x in p.ancestors[id] * package ==> nowMade[id] <= x)
  }

  /** A round of charging, in the order of identifiers, leaves every figure as it should be. */
  lemma RoundTracks(p: Pool, block: set<Id>, added: set<Id>, modified: map<Id, Entry>, rest: map<Id, Entry>,
                    failed: set<Id>, made: map<Id, Id>, order: seq<Id>)
    requires WellFormed(p) && Closed(p, block) && Closed(p, block + added) && block !! added && added <= p.txs.Keys
    requires Tracks(p, block, modified, failed, made) && rest == modified - added
    requires Ascending(order) && Listing(order, added) && InPool(p, order)
    requires p.ancestors.Keys == p.txs.Keys && rest.Keys <= p.txs.Keys
    ensures var after := ChargeInOrder(p, rest, added, order); var nowMade := Made(p, rest, after, made, order);
      && Tracks(p, block + added, after, failed, nowMade)
      && MadeInRound(p, modified, made, after, nowMade, added)
  {
    hide *;
    ListingIs(order, added);
    InOrder(p, rest, added, order);
    var after := ChargeInOrder(p, rest, added, order);
    TracksAdded(p, block, added, modified, rest, after, failed, made, order);
    TracksKeys(p, block + added, after, failed, Made(p, rest, after, made, order));
    forall id | id in after && id !in modified
      ensures First(order, p.ancestors[id]) in p.ancestors[id] * added
      ensures forall x :: x in p.ancestors[id] * added ==> First(order, p.ancestors[id]) <= x
    {
      NewHasAncestor(p, rest, after, added, order, id);
      FirstIsLeast(order, p.ancestors[id]);
    }
    MadeIs(p, modified, rest, made, after, order, added);
  }

  lemma ListingIs(order: seq<Id>, added: set<Id>)
    requires Listing(order, added)
    ensures Distinct(order) && Members(order) == added
  {}

  lemma MadeIs(p: Pool, modified: map<Id, Entry>, rest: map<Id, Entry>, made: map<Id, Id>, after: map<Id, Entry>,
               order: seq<Id>, added: set<Id>)
    requires rest == modified - added && after.Keys <= p.ancestors.Keys && added !! after.Keys
    requires forall id :: id in after && id !in modified ==>
      && First(order, p.ancestors[id]) in p.ancestors[id] * added
      && forall x :: x in p.ancestors[id] * added ==> First(order, p.ancestors[id]) <= x
    ensures MadeInRound(p, modified, made, after, Made(p, rest, after, made, order), added)
  {
    hide First;
  }

  lemma ErasedNone(modified: map<Id, Entry>, s: seq<Id>)
    ensures modified - Members(s[..0]) == modified
  {
    assert Members(s[..0]) == {};
  }

  lemma ErasedMore(modified: map<Id, Entry>, s: seq<Id>, i: nat)
    requires i < |s|
    ensures modified - Members(s[..i]) - {s[i]} == modified - Members(s[..i + 1])
  {
    assert s[..i + 1] == s[..i] + [s[i]];
    assert Members(s[..i + 1]) == Members(s[..i]) + {s[i]};
  }

  /** Adding what remains of a package costs its figures and no more. */
  lemma AddedLimits(p: Pool, block: set<Id>, id: Id)
    requires WellFormed(p) && id in p.txs
    ensures var package := Remaining(p, id, block);
      && Sum(p, block + package, Weight) <= Sum(p, block, Weight) + 4 * Sum(p, package, Size)
      && Sum(p, block + package, SigOps) == Sum(p, block, SigOps) + Sum(p, package, SigOps)
  {
    var package := Remaining(p, id, block);
    forall f ensures Sum(p, block + package, f) == Sum(p, block, f) + Sum(p, package, f) {
      SumRemove(p, block + package, package, f);
      assert block + package - package == block;
      assert (block + package) * package == package;
    }
    SumWeight(p.txs, p.order, package);
  }
}
