/**
 The order in which packages are considered: by the fee rate of a transaction or of its package,
 whichever is lower. Rates are compared by cross-multiplication, on exact products.
 */
module Ranking {
  import opened Collections
  import opened MemPool
  import opened PackageFigures

  datatype Rate = Rate(fees: int, size: int)

  /** What an entry is sorted by. */
  function Score(tx: Tx, e: Entry): Rate {
    if tx.modifiedFee * e.size > e.fees * tx.size then Rate(e.fees, e.size) else Rate(tx.modifiedFee, tx.size)
  }

  predicate Above(r: Rate, s: Rate) {
    r.fees * s.size > r.size * s.fees
  }

  /** The higher rate comes first, and the smaller identifier among equal rates. */
  predicate Precedes(x: Id, r: Rate, y: Id, s: Rate) {
    if r.fees * s.size == r.size * s.fees then x < y else Above(r, s)
  }

  /** The score of a transaction by the pool's own figures. */
  function PoolScore(p: Pool, id: Id): Rate
    requires id in p.txs && id in p.ancestors
  {
    Score(p.txs[id], FromPool(p, id))
  }

  /** The pool lists its entries by score, and no transaction is empty. */
  ghost predicate Ranked(p: Pool) {
    && (forall id :: id in p.txs ==> id in p.ancestors && p.txs[id].size > 0)
    && (forall i :: 0 <= i < |p.order| ==> p.order[i] in p.txs)
    && (forall i, j :: 0 <= i < j < |p.order| ==>
          Precedes(p.order[i], PoolScore(p, p.order[i]), p.order[j], PoolScore(p, p.order[j])))
  }

  // ----- the order is total

  lemma Cancel(a: int, b: int, c: int)
    requires c > 0
    ensures a >= b <==> a * c >= b * c
    ensures a > b <==> a * c > b * c
  {
    assert a * c - b * c == (a - b) * c;
  }

  lemma Swap(a: int, b: int, c: int)
    ensures a * b * c == a * c * b && a * b * c == b * c * a
  {}

  /** Rates are ordered like the fractions they stand for. */
  lemma RatesTransitive(r: Rate, s: Rate, u: Rate)
    requires r.size > 0 && s.size > 0 && u.size > 0
    requires r.fees * s.size >= r.size * s.fees && s.fees * u.size >= s.size * u.fees
    ensures r.fees * u.size >= r.size * u.fees
    ensures Above(r, s) || Above(s, u) ==> Above(r, u)
  {
    Cancel(r.fees * s.size, r.size * s.fees, u.size);
    Cancel(s.fees * u.size, s.size * u.fees, r.size);
    Cancel(r.fees * u.size, r.size * u.fees, s.size);
    Swap(r.fees, s.size, u.size);
    Swap(r.size, s.fees, u.size);
    Swap(s.size, u.fees, r.size);
    Swap(r.size, u.fees, s.size);
  }

  lemma PrecedesTransitive(x: Id, r: Rate, y: Id, s: Rate, z: Id, u: Rate)
    requires r.size > 0 && s.size > 0 && u.size > 0
    requires Precedes(x, r, y, s) && Precedes(y, s, z, u)
    ensures Precedes(x, r, z, u)
  {
    RatesTransitive(r, s, u);
    if r.fees * s.size == r.size * s.fees && s.fees * u.size == s.size * u.fees {
      RatesTransitive(u, s, r);
    }
  }

  /** The score is no higher than either rate it is the lower of. */
  lemma ScoreIsLower(tx: Tx, e: Entry)
    requires tx.size > 0 && e.size > 0
    ensures var s := Score(tx, e);
      && s.size > 0 && s.fees * tx.size <= s.size * tx.modifiedFee && s.fees * e.size <= s.size * e.fees
      && (s == Rate(tx.modifiedFee, tx.size) || s == Rate(e.fees, e.size))
  {}

  // ----- the best of several entries

  predicate Outranks(txs: map<Id, Tx>, figures: map<Id, Entry>, x: Id, y: Id)
    requires x in txs && x in figures && y in txs && y in figures
  {
    Precedes(x, Score(txs[x], figures[x]), y, Score(txs[y], figures[y]))
  }

  /** `id` comes before every other of these by score. */
  predicate Foremost(txs: map<Id, Tx>, figures: map<Id, Entry>, s: set<Id>, id: Id)
    requires s <= txs.Keys && s <= figures.Keys && id in txs && id in figures
  {
    forall x :: x in s && x != id ==> Outranks(txs, figures, id, x)
  }

  ghost predicate Sized(txs: map<Id, Tx>, figures: map<Id, Entry>, s: set<Id>)
    requires s <= txs.Keys && s <= figures.Keys
  {
    forall x :: x in s ==> txs[x].size > 0 && figures[x].size > 0
  }

  lemma OutranksTransitive(txs: map<Id, Tx>, figures: map<Id, Entry>, x: Id, y: Id, z: Id)
    requires {x, y, z} <= txs.Keys && {x, y, z} <= figures.Keys && Sized(txs, figures, {x, y, z})
    requires Outranks(txs, figures, x, y) && Outranks(txs, figures, y, z)
    ensures Outranks(txs, figures, x, z)
  {
    hide Precedes;
    hide Score;
    ScoreIsLower(txs[x], figures[x]);
    ScoreIsLower(txs[y], figures[y]);
    ScoreIsLower(txs[z], figures[z]);
    PrecedesTransitive(x, Score(txs[x], figures[x]), y, Score(txs[y], figures[y]), z, Score(txs[z], figures[z]));
  }

  lemma OutranksTotal(txs: map<Id, Tx>, figures: map<Id, Entry>, x: Id, y: Id)
    requires x in txs && x in figures && y in txs && y in figures && x != y
    ensures Outranks(txs, figures, x, y) || Outranks(txs, figures, y, x)
  {
    hide Score;
  }

  lemma {:induction false} SomeForemost(txs: map<Id, Tx>, figures: map<Id, Entry>, s: set<Id>) returns (id: Id)
    requires s != {} && s <= txs.Keys && s <= figures.Keys && Sized(txs, figures, s)
    ensures id in s && Foremost(txs, figures, s, id)
    decreases s
  {
    hide Outranks;
    id := Member(s);
    if s != {id} {
      var a := id;
      id := SomeForemost(txs, figures, s - {a});
      OutranksTotal(txs, figures, a, id);
      if Outranks(txs, figures, a, id) {
        WhatOutranks(txs, figures, s - {a}, a, id);
        id := a;
      }
    }
  }

  /** What outranks the foremost outranks all. */
  lemma WhatOutranks(txs: map<Id, Tx>, figures: map<Id, Entry>, s: set<Id>, a: Id, id: Id)
    requires s <= txs.Keys && s <= figures.Keys && id in s && Foremost(txs, figures, s, id)
    requires a in txs && a in figures && Sized(txs, figures, s + {a}) && Outranks(txs, figures, a, id)
    ensures Foremost(txs, figures, s, a)
  {
    hide Outranks;
    forall x | x in s && x != a ensures Outranks(txs, figures, a, x) {
      if x != id {
        OutranksTransitive(txs, figures, a, id, x);
      }
    }
  }
}
