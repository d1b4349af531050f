/**
 The figures block assembly keeps for each package: size, signature cost and adjusted fees of a
 transaction with its ancestors, corrected as ancestors enter the block. This module shows what the
 sizes and signature costs are worth; PackageFees has the fees.
 */
module PackageFigures {
  import opened MemPool

  /** A transaction's package figures, corrected for ancestors already in the block. */
  datatype Entry = Entry(size: int, fees: int, sigOps: int)

  /** The two figures that limit a block. */
  predicate Tracked(f: Figure) {
    f.Size? || f.SigOps?
  }

  function Get(e: Entry, f: Figure): int {
    if f.Size? then e.size else e.sigOps
  }

  function FromPool(p: Pool, id: Id): Entry
    requires id in p.txs && id in p.ancestors
  {
    Entry(WithAncestors(p, id, Size), WithAncestors(p, id, ModifiedFee), WithAncestors(p, id, SigOps))
  }

  /** The entry an update starts from: the modified one if there is one, else the pool's. */
  function Base(p: Pool, modified: map<Id, Entry>, id: Id): Entry
    requires id in modified || (id in p.txs && id in p.ancestors)
  {
    if id in modified then modified[id] else FromPool(p, id)
  }

  // ----- what the modified entries are worth

  /** Package figures never fall short of what is still to be added, and are exact for a
      transaction that has not failed before. One with neither a modified entry nor a failure
      has no ancestor in the block, so that the pool's own figures are exact. */
  ghost predicate FiguresTrack(p: Pool, block: set<Id>, modified: map<Id, Entry>, failed: set<Id>) {
    && modified.Keys <= p.txs.Keys - block
    && p.ancestors.Keys == p.txs.Keys
    && (forall id, f :: id in modified && Tracked(f) ==>
          Get(modified[id], f) >= Sum(p, Remaining(p, id, block), f))
    && (forall id, f :: id in modified && Tracked(f) && id !in failed ==>
          Get(modified[id], f) == Sum(p, Remaining(p, id, block), f))
    && (forall id :: id in p.txs && id !in block && id !in failed && id !in modified ==>
          p.ancestors[id] !! block)
  }

  /** `after` is `before` with every descendant of `done` outside `added` charged for its ancestors in `done`. */
  ghost predicate FiguresCharged(p: Pool, before: map<Id, Entry>, after: map<Id, Entry>, added: set<Id>, done: set<Id>)
    requires p.ancestors.Keys == p.txs.Keys && before.Keys <= p.txs.Keys
  {
    && (forall id :: id in after <==>
          id in before || (id in p.txs && id !in added && !(p.ancestors[id] !! done)))
    && (forall id, f :: id in after && Tracked(f) ==>
          Get(after[id], f) ==
          Get(Base(p, before, id), f) - if id in added then 0 else Sum(p, p.ancestors[id] * done, f))
  }

  predicate Affected(p: Pool, added: set<Id>, it: Id, id: Id)
    requires p.ancestors.Keys == p.txs.Keys
  {
    id in p.txs && id !in added && it in p.ancestors[id]
  }

  /** The entry of a descendant after one ancestor is included. A fresh entry gives up the
      ancestor's adjusted fee, an existing one its plain fee. */
  function Charge(p: Pool, modified: map<Id, Entry>, it: Id, id: Id): Entry
    requires it in p.txs && (id in modified || (id in p.txs && id in p.ancestors))
  {
    var e := Base(p, modified, id);
    var tx := p.txs[it];
    Entry(e.size - tx.size, e.fees - (if id in modified then tx.fee else tx.modifiedFee), e.sigOps - tx.sigOps)
  }

  /** The descendants of `it` outside `added`. */
  function Descendants(p: Pool, added: set<Id>, it: Id): (r: set<Id>)
    requires p.ancestors.Keys == p.txs.Keys
    ensures r <= p.txs.Keys
  {
    set id | id in p.txs && Affected(p, added, it, id)
  }

  /** All entries after one ancestor is included. */
  function ChargeOne(p: Pool, before: map<Id, Entry>, added: set<Id>, it: Id): (after: map<Id, Entry>)
    requires p.ancestors.Keys == p.txs.Keys && it in p.txs
    ensures after.Keys == before.Keys + Descendants(p, added, it)
  {
    map id | id in before.Keys + Descendants(p, added, it) ::
      if Affected(p, added, it, id) then Charge(p, before, it, id) else before[id]
  }

  lemma FiguresChargedNone(p: Pool, before: map<Id, Entry>, added: set<Id>)
    requires p.ancestors.Keys == p.txs.Keys && before.Keys <= p.txs.Keys
    ensures FiguresCharged(p, before, before, added, {})
  {
    forall id, f | id in before ensures Sum(p, p.ancestors[id] * {}, f) == 0 {
      SumNone(p.txs, p.order, f);
      assert p.ancestors[id] * {} == {};
    }
  }

  lemma SumPart(p: Pool, anc: set<Id>, done: set<Id>, it: Id, f: Figure)
    requires WellFormed(p) && it in p.txs && it !in done
    ensures Sum(p, anc * (done + {it}), f) == Sum(p, anc * done, f) + if it in anc then Of(p.txs[it], f) else 0
  {
    if it in anc {
      assert anc * (done + {it}) == anc * done + {it};
      SumAdd(p, anc * done, it, f);
    } else {
      assert anc * (done + {it}) == anc * done;
    }
  }

  lemma FiguresChargedMore(p: Pool, before: map<Id, Entry>, now: map<Id, Entry>, after: map<Id, Entry>,
                           added: set<Id>, done: set<Id>, it: Id)
    requires WellFormed(p) && before.Keys <= p.txs.Keys && now.Keys <= p.txs.Keys && it in p.txs && it !in done
    requires FiguresCharged(p, before, now, added, done) && after == ChargeOne(p, now, added, it)
    ensures FiguresCharged(p, before, after, added, done + {it})
  {
    hide Sum;
    hide WithAncestors;
    hide Get;
    hide Charge;
    hide WellFormed;
    PoolKeys(p);
    forall id | id in p.txs
      ensures p.ancestors[id] !! done + {it} <==> p.ancestors[id] !! done && it !in p.ancestors[id]
    {}
    forall id, f | id in after && Tracked(f)
      ensures Get(after[id], f) ==
              Get(Base(p, before, id), f) - if id in added then 0 else Sum(p, p.ancestors[id] * (done + {it}), f)
    {
      ChargedMoreAt(p, before, now, after, added, done, it, id, f);
    }
  }

  lemma SumEmpty(p: Pool, f: Figure)
    ensures Sum(p, {}, f) == 0
  {
    SumNone(p.txs, p.order, f);
  }

  lemma ChargedMoreAt(p: Pool, before: map<Id, Entry>, now: map<Id, Entry>, after: map<Id, Entry>,
                      added: set<Id>, done: set<Id>, it: Id, id: Id, f: Figure)
    requires WellFormed(p) && before.Keys <= p.txs.Keys && now.Keys <= p.txs.Keys && it in p.txs && it !in done
    requires FiguresCharged(p, before, now, added, done) && after == ChargeOne(p, now, added, it)
    requires id in after && Tracked(f)
    ensures id in p.txs
    ensures Get(after[id], f) ==
            Get(Base(p, before, id), f) - if id in added then 0 else Sum(p, p.ancestors[id] * (done + {it}), f)
  {
    hide Sum;
    hide WithAncestors;
    hide WellFormed;
    PoolKeys(p);
    assert id in p.txs;
    SumPart(p, p.ancestors[id], done, it, f);
    if id !in now {
      SumEmpty(p, f);
      assert p.ancestors[id] * done == {};
    }
  }

  /** Once the descendants of an added package are charged for it, the figures are right for the
      larger block. */
  lemma FiguresAdded(p: Pool, block: set<Id>, added: set<Id>, old0: map<Id, Entry>, before: map<Id, Entry>,
                     after: map<Id, Entry>, failed: set<Id>)
    requires WellFormed(p) && Closed(p, block) && Closed(p, block + added) && block !! added
    requires FiguresTrack(p, block, old0, failed) && before == old0 - added
    requires FiguresCharged(p, before, after, added, added)
    ensures FiguresTrack(p, block + added, after, failed)
  {
    forall id | id in after ensures id in p.txs && id !in block + added {}
    forall id, f | id in after && Tracked(f)
      ensures Get(after[id], f) >= Sum(p, Remaining(p, id, block + added), f)
      ensures id !in failed ==> Get(after[id], f) == Sum(p, Remaining(p, id, block + added), f)
    {
      RemainingSplit(p, block, added, id, f);
      BaseTracks(p, block, old0, before, added, failed, id, f);
    }
  }

  /** What remains of a package shrinks by exactly the ancestors added. */
  lemma RemainingSplit(p: Pool, block: set<Id>, added: set<Id>, id: Id, f: Figure)
    requires WellFormed(p) && id in p.txs && id !in block + added && block !! added
    ensures Sum(p, Remaining(p, id, block + added), f) ==
            Sum(p, Remaining(p, id, block), f) - Sum(p, p.ancestors[id] * added, f)
  {
    var r := Remaining(p, id, block);
    SumRemove(p, r, added, f);
    assert r - added == Remaining(p, id, block + added);
    assert r * added == p.ancestors[id] * added;
  }

  lemma BaseTracks(p: Pool, block: set<Id>, old0: map<Id, Entry>, before: map<Id, Entry>, added: set<Id>,
                   failed: set<Id>, id: Id, f: Figure)
    requires WellFormed(p) && FiguresTrack(p, block, old0, failed) && before == old0 - added
    requires id in p.txs && id !in block && id !in added && Tracked(f)
    ensures Get(Base(p, before, id), f) >= Sum(p, Remaining(p, id, block), f)
    ensures id !in failed ==> Get(Base(p, before, id), f) == Sum(p, Remaining(p, id, block), f)
  {
    if id !in before {
      PoolCovers(p, block, id, f);
      if id !in failed {
        assert id !in old0;
        assert Remaining(p, id, block) == p.ancestors[id] + {id};
      }
    }
  }

  /** The pool's cached figure is never below what remains. */
  lemma PoolCovers(p: Pool, block: set<Id>, id: Id, f: Figure)
    requires id in p.ancestors && Tracked(f)
    ensures WithAncestors(p, id, f) >= Sum(p, Remaining(p, id, block), f)
  {
    SumRemove(p, p.ancestors[id] + {id}, block, f);
    SumNotNegative(p.txs, p.order, (p.ancestors[id] + {id}) * block, f);
  }

  lemma PackageDisjoint(p: Pool, block: set<Id>, id: Id)
    requires WellFormed(p) && id in p.txs
    ensures Remaining(p, id, block) <= p.txs.Keys && block !! Remaining(p, id, block)
  {}

  lemma PackageMember(p: Pool, block: set<Id>, id: Id)
    requires WellFormed(p) && id in p.txs && id !in block
    ensures id in Remaining(p, id, block) && Remaining(p, id, block) <= p.txs.Keys
  {}

  lemma OrderListed(p: Pool)
    requires WellFormed(p)
    ensures forall i :: 0 <= i < |p.order| ==> p.order[i] in p.txs
  {}

  lemma PoolKeys(p: Pool)
    requires WellFormed(p)
    ensures p.ancestors.Keys == p.txs.Keys
  {}
}
