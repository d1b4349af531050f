/**
 The memory pool as block assembly sees it: a set of transactions closed under ancestors, with
 the sums over a transaction and its ancestors that the pool keeps for each entry.
 */
module MemPool {
  import opened Collections

  /** A transaction by its identifier; sets of transactions are ordered by it. */
  type Id = nat

  /** `fee` is what a transaction pays, `modifiedFee` adds the operator's adjustment. */
  datatype Tx = Tx(size: nat, weight: nat, sigOps: nat, fee: int, modifiedFee: int, isFinal: bool, hasWitness: bool)

  /** `ancestors` holds proper ancestors; `order` lists the entries by ancestor score. */
  datatype Pool = Pool(txs: map<Id, Tx>, ancestors: map<Id, set<Id>>, order: seq<Id>)

  datatype Figure = Size | Weight | SigOps | Fee | ModifiedFee

  ghost predicate WellFormed(p: Pool) {
    && p.ancestors.Keys == p.txs.Keys
    && (forall id :: id in p.txs ==> p.ancestors[id] <= p.txs.Keys && id !in p.ancestors[id])
    && (forall id, a :: id in p.txs && a in p.ancestors[id] ==> p.ancestors[a] <= p.ancestors[id])
    && (forall id :: id in p.txs ==> p.txs[id].weight <= 4 * p.txs[id].size)
    && (forall id :: id in p.order <==> id in p.txs)
    && Distinct(p.order)
  }

  function Of(tx: Tx, f: Figure): int {
    match f
    case Size => tx.size
    case Weight => tx.weight
    case SigOps => tx.sigOps
    case Fee => tx.fee
    case ModifiedFee => tx.modifiedFee
  }

  /** The sum of a figure over those listed transactions that are in `s`. */
  function SumIn(txs: map<Id, Tx>, order: seq<Id>, s: set<Id>, f: Figure): int {
    if order == [] then 0
    else (if order[0] in s && order[0] in txs then Of(txs[order[0]], f) else 0) + SumIn(txs, order[1..], s, f)
  }

  function Sum(p: Pool, s: set<Id>, f: Figure): int {
    SumIn(p.txs, p.order, s, f)
  }

  /** The pool's cached figure for a transaction with its ancestors. */
  function WithAncestors(p: Pool, id: Id, f: Figure): int
    requires id in p.ancestors
  {
    Sum(p, p.ancestors[id] + {id}, f)
  }

  /** What of a transaction's package is not yet in the block. */
  function Remaining(p: Pool, id: Id, block: set<Id>): set<Id>
    requires id in p.ancestors
  {
    p.ancestors[id] + {id} - block
  }

  function CountWithAncestors(p: Pool, id: Id): nat
    requires id in p.ancestors
  {
    |p.ancestors[id]| + 1
  }

  // ----- sums

  lemma {:induction false} SumSplit(txs: map<Id, Tx>, order: seq<Id>, s: set<Id>, t: set<Id>, f: Figure)
    ensures SumIn(txs, order, s, f) == SumIn(txs, order, s - t, f) + SumIn(txs, order, s * t, f)
  {
    if order != [] {
      SumSplit(txs, order[1..], s, t, f);
    }
  }

  lemma {:induction false} SumNone(txs: map<Id, Tx>, order: seq<Id>, f: Figure)
    ensures SumIn(txs, order, {}, f) == 0
  {
    if order != [] {
      SumNone(txs, order[1..], f);
    }
  }

  lemma {:induction false} SumAbsent(txs: map<Id, Tx>, order: seq<Id>, id: Id, f: Figure)
    requires id !in order
    ensures SumIn(txs, order, {id}, f) == 0
  {
    if order != [] {
      SumAbsent(txs, order[1..], id, f);
    }
  }

  lemma {:induction false} SumOne(txs: map<Id, Tx>, order: seq<Id>, id: Id, f: Figure)
    requires id in order && Distinct(order) && id in txs
    ensures SumIn(txs, order, {id}, f) == Of(txs[id], f)
  {
    if order[0] == id {
      SumAbsent(txs, order[1..], id, f);
    } else {
      assert id in order[1..];
      SumOne(txs, order[1..], id, f);
    }
  }

  /** Sizes, weights and signature costs are not negative; fees may be. */
  lemma {:induction false} SumNotNegative(txs: map<Id, Tx>, order: seq<Id>, s: set<Id>, f: Figure)
    requires !f.Fee? && !f.ModifiedFee?
    ensures SumIn(txs, order, s, f) >= 0
  {
    if order != [] {
      SumNotNegative(txs, order[1..], s, f);
    }
  }

  lemma {:induction false} SumWeight(txs: map<Id, Tx>, order: seq<Id>, s: set<Id>)
    requires forall id :: id in txs ==> txs[id].weight <= 4 * txs[id].size
    ensures SumIn(txs, order, s, Weight) <= 4 * SumIn(txs, order, s, Size)
  {
    if order != [] {
      SumWeight(txs, order[1..], s);
    }
  }

  /** Adding one transaction to a set adds its figure. */
  lemma SumAdd(p: Pool, s: set<Id>, id: Id, f: Figure)
    requires WellFormed(p) && id in p.txs && id !in s
    ensures Sum(p, s + {id}, f) == Sum(p, s, f) + Of(p.txs[id], f)
  {
    SumSplit(p.txs, p.order, s + {id}, {id}, f);
    assert s + {id} - {id} == s;
    assert (s + {id}) * {id} == {id};
    SumOne(p.txs, p.order, id, f);
  }

  lemma SumRemove(p: Pool, s: set<Id>, t: set<Id>, f: Figure)
    ensures Sum(p, s, f) == Sum(p, s - t, f) + Sum(p, s * t, f)
  {
    SumSplit(p.txs, p.order, s, t, f);
  }

  // ----- ancestry

  /** An ancestor has fewer ancestors than its descendant. */
  lemma AncestorsCountLess(p: Pool, id: Id, a: Id)
    requires WellFormed(p) && id in p.txs && a in p.ancestors[id]
    ensures a in p.txs && CountWithAncestors(p, a) < CountWithAncestors(p, id)
  {
    assert p.ancestors[a] < p.ancestors[id] by {
      assert a !in p.ancestors[a];
    }
    ProperSubsetSize(p.ancestors[a], p.ancestors[id]);
  }

  lemma {:induction false} ProperSubsetSize(s: set<Id>, t: set<Id>)
    requires s < t
    ensures |s| < |t|
    decreases s
  {
    if s != {} {
      var x :| x in s;
      ProperSubsetSize(s - {x}, t - {x});
    }
  }

  /** A block holding every ancestor of each of its members. */
  ghost predicate Closed(p: Pool, block: set<Id>) {
    forall id :: id in block ==> id in p.ancestors && p.ancestors[id] <= block
  }

  lemma ClosedPackage(p: Pool, block: set<Id>, id: Id)
    requires WellFormed(p) && Closed(p, block) && id in p.txs
    ensures Closed(p, block + Remaining(p, id, block))
  {}
}
