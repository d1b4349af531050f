/**
 What the adjusted fees of a package are worth. The entry of a transaction gives up the adjusted fee of
 the included ancestor it was made for, and the plain fees of all others, so that the order in which
 ancestors are charged decides whether its fees are right.
 */
module PackageFees {
  import opened Collections
  import opened MemPool
  import opened PackageFigures
  import opened Ranking

  // ----- charging in order

  function Members(order: seq<Id>): set<Id> {
    set i | 0 <= i < |order| :: order[i]
  }

  lemma MembersMore(order: seq<Id>, it: Id)
    ensures Members(order + [it]) == Members(order) + {it} && Members([]) == {}
  {
    assert forall i :: 0 <= i < |order| ==> (order + [it])[i] == order[i];
    assert (order + [it])[|order|] == it;
  }

  /** The members of a package in some order. */
  ghost predicate Listing(order: seq<Id>, added: set<Id>) {
    Distinct(order) && Members(order) == added
  }

  /** The order of a set of transactions, which is that of their identifiers. */
  ghost predicate Ascending(order: seq<Id>) {
    forall i, j :: 0 <= i < j < |order| ==> order[i] < order[j]
  }

  predicate InPool(p: Pool, order: seq<Id>) {
    forall i :: 0 <= i < |order| ==> order[i] in p.txs
  }

  /** The entries after the descendants of `added` are charged for each of `order` in turn. */
  function ChargeInOrder(p: Pool, before: map<Id, Entry>, added: set<Id>, order: seq<Id>): (after: map<Id, Entry>)
    requires p.ancestors.Keys == p.txs.Keys && before.Keys <= p.txs.Keys
    requires InPool(p, order)
    ensures before.Keys <= after.Keys <= p.txs.Keys
  {
    if order == [] then before
    else ChargeOne(p, ChargeInOrder(p, before, added, order[..|order| - 1]), added, order[|order| - 1])
  }

  lemma ChargeNext(p: Pool, before: map<Id, Entry>, added: set<Id>, order: seq<Id>, it: Id)
    requires p.ancestors.Keys == p.txs.Keys && before.Keys <= p.txs.Keys && it in p.txs
    requires InPool(p, order)
    ensures InPool(p, order + [it])
    ensures ChargeInOrder(p, before, added, order + [it]) ==
            ChargeOne(p, ChargeInOrder(p, before, added, order), added, it)
  {
    hide ChargeOne;
    assert (order + [it])[..|order|] == order;
  }

  /** The first of a list that is in a set; zero if there is none. */
  function First(order: seq<Id>, s: set<Id>): Id {
    if order == [] then 0 else if order[0] in s then order[0] else First(order[1..], s)
  }

  lemma MembersHead(order: seq<Id>)
    requires order != []
    ensures Members(order) == {order[0]} + Members(order[1..])
  {
    forall x ensures x in Members(order) <==> x in {order[0]} + Members(order[1..]) {
      if x in Members(order) {
        var i :| 0 <= i < |order| && order[i] == x;
        assert i > 0 ==> order[1..][i - 1] == x;
      }
      if x in Members(order[1..]) {
        var i :| 0 <= i < |order[1..]| && order[1..][i] == x;
        assert order[i + 1] == x;
      }
      assert order[0] in Members(order);
    }
  }

  lemma {:induction false} FirstMore(order: seq<Id>, it: Id, s: set<Id>)
    ensures s * Members(order) != {} ==>
      First(order, s) in s * Members(order) && First(order + [it], s) == First(order, s)
    ensures s * Members(order) == {} && it in s ==> First(order + [it], s) == it
  {
    if order == [] {
      MembersMore([], it);
      assert First([it], s) == if it in s then it else First([it][1..], s);
    } else {
      assert (order + [it])[1..] == order[1..] + [it];
      MembersHead(order);
      hide Members;
      assert order[0] in Members(order);
      assert s * Members(order) == s * {order[0]} + s * Members(order[1..]);
      FirstMore(order[1..], it, s);
      if order[0] in s {
        assert order[0] in s * Members(order);
      }
    }
  }

  /** In ascending order the first is the least. */
  lemma FirstIsLeast(order: seq<Id>, s: set<Id>)
    requires Ascending(order) && s * Members(order) != {}
    ensures First(order, s) in s * Members(order) && forall x :: x in s * Members(order) ==> First(order, s) <= x
    decreases order
  {
    FirstMore(order, 0, s);
    forall x | x in s * Members(order) ensures First(order, s) <= x {
      var i :| 0 <= i < |order| && order[i] == x;
      FirstBefore(order, s, i);
    }
  }

  lemma {:induction false} FirstBefore(order: seq<Id>, s: set<Id>, i: nat)
    requires Ascending(order) && i < |order| && order[i] in s
    ensures First(order, s) <= order[i]
  {
    if order[0] !in s {
      assert order[1..][i - 1] == order[i];
      FirstBefore(order[1..], s, i - 1);
    }
  }

  // ----- fees while charging

  /** What the operator's adjustments add up to over some transactions. */
  function Adjustments(p: Pool, s: set<Id>): int {
    Sum(p, s, ModifiedFee) - Sum(p, s, Fee)
  }

  /** The fees of an entry made while charging for `done`: `a` is the ancestor it was made for, the one
      whose adjusted fee was subtracted. */
  ghost predicate FeeStart(p: Pool, id: Id, done: set<Id>, a: Id, fees: int)
    requires id in p.ancestors
  {
    && a in p.ancestors[id] * done
    && fees == WithAncestors(p, id, ModifiedFee) - Sum(p, p.ancestors[id] * done, Fee) - Adjustments(p, {a})
  }

  /** Entries that were there are charged plain fees; a new one was made for its first ancestor in order. */
  ghost predicate FeesCharged(p: Pool, before: map<Id, Entry>, after: map<Id, Entry>, added: set<Id>, order: seq<Id>)
    requires p.ancestors.Keys == p.txs.Keys && before.Keys <= p.txs.Keys
  {
    && after.Keys <= p.txs.Keys
    && (forall id :: id in after && id in before ==>
          after[id].fees == before[id].fees - if id in added then 0 else Sum(p, p.ancestors[id] * Members(order), Fee))
    && (forall id :: id in after && id !in before ==>
          && id !in added
          && FeeStart(p, id, Members(order), First(order, p.ancestors[id]), after[id].fees))
  }

  ghost predicate Charged(p: Pool, before: map<Id, Entry>, after: map<Id, Entry>, added: set<Id>, order: seq<Id>)
    requires p.ancestors.Keys == p.txs.Keys && before.Keys <= p.txs.Keys
  {
    FiguresCharged(p, before, after, added, Members(order)) && FeesCharged(p, before, after, added, order)
  }

  lemma OneAdjustment(p: Pool, a: Id)
    requires WellFormed(p) && a in p.txs
    ensures Adjustments(p, {a}) == p.txs[a].modifiedFee - p.txs[a].fee
  {
    SumOne(p.txs, p.order, a, Fee);
    SumOne(p.txs, p.order, a, ModifiedFee);
  }

  lemma AdjustmentsJoin(p: Pool, s: set<Id>, t: set<Id>)
    requires s !! t
    ensures Adjustments(p, s + t) == Adjustments(p, s) + Adjustments(p, t)
  {
    SumRemove(p, s + t, t, Fee);
    SumRemove(p, s + t, t, ModifiedFee);
    assert s + t - t == s && (s + t) * t == t;
  }

  lemma FeesChargedNone(p: Pool, before: map<Id, Entry>, added: set<Id>)
    requires p.ancestors.Keys == p.txs.Keys && before.Keys <= p.txs.Keys
    ensures FeesCharged(p, before, before, added, [])
  {
    forall id | id in before ensures Sum(p, p.ancestors[id] * Members([]), Fee) == 0 {
      SumEmpty(p, Fee);
      assert p.ancestors[id] * Members([]) == {};
    }
  }

  lemma FeesChargedMore(p: Pool, before: map<Id, Entry>, now: map<Id, Entry>, after: map<Id, Entry>,
                        added: set<Id>, order: seq<Id>, it: Id)
    requires WellFormed(p) && before.Keys <= p.txs.Keys && it in p.txs && it !in Members(order)
    requires Charged(p, before, now, added, order) && after == ChargeOne(p, now, added, it)
    ensures FeesCharged(p, before, after, added, order + [it])
  {
    MembersMore(order, it);
    var done := Members(order);
    forall id | id in after && id in before
      ensures after[id].fees == before[id].fees - if id in added then 0
        else Sum(p, p.ancestors[id] * (done + {it}), Fee)
    {
      SumPart(p, p.ancestors[id], done, it, Fee);
    }
    forall id | id in after && id !in before
      ensures id !in added && FeeStart(p, id, done + {it}, First(order + [it], p.ancestors[id]), after[id].fees)
    {
      FeeStartMore(p, before, now, after, added, order, it, id);
    }
  }

  lemma FeeStartMore(p: Pool, before: map<Id, Entry>, now: map<Id, Entry>, after: map<Id, Entry>,
                     added: set<Id>, order: seq<Id>, it: Id, id: Id)
    requires WellFormed(p) && before.Keys <= p.txs.Keys && it in p.txs && it !in Members(order)
    requires Charged(p, before, now, added, order) && after == ChargeOne(p, now, added, it)
    requires id in after && id !in before
    ensures id in p.ancestors && id !in added
    ensures FeeStart(p, id, Members(order) + {it}, First(order + [it], p.ancestors[id]), after[id].fees)
  {
    hide Sum;
    hide WithAncestors;
    hide FeeStart;
    hide WellFormed;
    PoolKeys(p);
    FirstMore(order, it, p.ancestors[id]);
    if id in now {
      var a := First(order, p.ancestors[id]);
      StartsIn(p, id, Members(order), a, now[id].fees);
      FeeContinues(p, id, Members(order), it, a, now[id].fees, after[id].fees);
    } else {
      FeeBegins(p, id, Members(order), it, after[id].fees);
    }
  }

  lemma StartsIn(p: Pool, id: Id, done: set<Id>, a: Id, fees: int)
    requires id in p.ancestors && FeeStart(p, id, done, a, fees)
    ensures p.ancestors[id] * done != {}
  {
    hide Sum;
    hide WithAncestors;
  }

  lemma FeeContinues(p: Pool, id: Id, done: set<Id>, it: Id, a: Id, was: int, fees: int)
    requires WellFormed(p) && id in p.ancestors && it in p.txs && it !in done && FeeStart(p, id, done, a, was)
    requires fees == was - if it in p.ancestors[id] then p.txs[it].fee else 0
    ensures FeeStart(p, id, done + {it}, a, fees)
  {
    hide Sum;
    hide WithAncestors;
    SumPart(p, p.ancestors[id], done, it, Fee);
  }

  lemma FeeBegins(p: Pool, id: Id, done: set<Id>, it: Id, fees: int)
    requires WellFormed(p) && id in p.ancestors && it in p.txs && it !in done
    requires it in p.ancestors[id] && p.ancestors[id] !! done
    requires fees == WithAncestors(p, id, ModifiedFee) - p.txs[it].modifiedFee
    ensures FeeStart(p, id, done + {it}, it, fees)
  {
    hide Sum;
    hide WithAncestors;
    SumPart(p, p.ancestors[id], done, it, Fee);
    SumEmpty(p, Fee);
    assert p.ancestors[id] * done == {};
    OneAdjustment(p, it);
  }

  /** Charging in any order does what is said of it. */
  lemma {:induction false} InOrder(p: Pool, before: map<Id, Entry>, added: set<Id>, order: seq<Id>)
    requires WellFormed(p) && before.Keys <= p.txs.Keys && Distinct(order)
    requires InPool(p, order)
    ensures p.ancestors.Keys == p.txs.Keys && Charged(p, before, ChargeInOrder(p, before, added, order), added, order)
  {
    hide FiguresCharged;
    hide FeesCharged;
    hide WellFormed;
    hide ChargeOne;
    PoolKeys(p);
    if order == [] {
      MembersMore([], 0);
      FiguresChargedNone(p, before, added);
      FeesChargedNone(p, before, added);
    } else {
      var n := |order| - 1;
      var rest, it := order[..n], order[n];
      assert order == rest + [it];
      InOrder(p, before, added, rest);
      var now := ChargeInOrder(p, before, added, rest);
      assert it !in Members(rest);
      MembersMore(rest, it);
      FiguresChargedMore(p, before, now, ChargeOne(p, now, added, it), added, Members(rest), it);
      FeesChargedMore(p, before, now, ChargeOne(p, now, added, it), added, rest, it);
    }
  }

  /** An entry that charging made has an ancestor among those charged for. */
  lemma NewHasAncestor(p: Pool, before: map<Id, Entry>, after: map<Id, Entry>, added: set<Id>, order: seq<Id>, id: Id)
    requires p.ancestors.Keys == p.txs.Keys && before.Keys <= p.txs.Keys && Charged(p, before, after, added, order)
    requires id in after && id !in before
    ensures id in p.ancestors && p.ancestors[id] * Members(order) != {}
  {}

  // ----- what the fees of the modified entries are worth

  /** The fees of an entry over what is still to be added: too much by the adjustments of the included
      ancestors, all but the one the entry was made for. */
  ghost predicate FeeIs(p: Pool, block: set<Id>, id: Id, a: Id, fees: int)
    requires id in p.ancestors
  {
    && a in p.ancestors[id] * block
    && fees == Sum(p, Remaining(p, id, block), ModifiedFee) + Adjustments(p, p.ancestors[id] * block - {a})
  }

  /** `made` tells for each entry which ancestor it was made for. */
  ghost predicate FeesTrack(p: Pool, block: set<Id>, modified: map<Id, Entry>, failed: set<Id>, made: map<Id, Id>) {
    forall id :: id in modified && id !in failed ==>
      id in p.ancestors && id in made && FeeIs(p, block, id, made[id], modified[id].fees)
  }

  ghost predicate Tracks(p: Pool, block: set<Id>, modified: map<Id, Entry>, failed: set<Id>, made: map<Id, Id>) {
    FiguresTrack(p, block, modified, failed) && FeesTrack(p, block, modified, failed, made)
  }

  /** A round of charging keeps what the entries that were there were made for, and makes the others for
      their first ancestor in order. */
  function Made(p: Pool, before: map<Id, Entry>, after: map<Id, Entry>, made: map<Id, Id>, order: seq<Id>): map<Id, Id>
    requires after.Keys <= p.ancestors.Keys
  {
    map id | id in after :: if id in before && id in made then made[id] else First(order, p.ancestors[id])
  }

  /** Once the descendants of an added package are charged for it, all figures are what they should be for
      the larger block. */
  lemma TracksAdded(p: Pool, block: set<Id>, added: set<Id>, old0: map<Id, Entry>, before: map<Id, Entry>,
                    after: map<Id, Entry>, failed: set<Id>, made: map<Id, Id>, order: seq<Id>)
    requires WellFormed(p) && Closed(p, block) && Closed(p, block + added) && block !! added
    requires Tracks(p, block, old0, failed, made) && before == old0 - added && Listing(order, added)
    requires after.Keys <= p.ancestors.Keys && Charged(p, before, after, added, order)
    ensures Tracks(p, block + added, after, failed, Made(p, before, after, made, order))
  {
    FiguresAdded(p, block, added, old0, before, after, failed);
    FeesAdded(p, block, added, old0, before, after, failed, made, order);
    hide FiguresTrack;
    hide FeesTrack;
  }

  lemma FeesAdded(p: Pool, block: set<Id>, added: set<Id>, old0: map<Id, Entry>, before: map<Id, Entry>,
                  after: map<Id, Entry>, failed: set<Id>, made: map<Id, Id>, order: seq<Id>)
    requires WellFormed(p) && Closed(p, block) && Closed(p, block + added) && block !! added
    requires Tracks(p, block, old0, failed, made) && before == old0 - added && Listing(order, added)
    requires after.Keys <= p.ancestors.Keys && Charged(p, before, after, added, order)
    ensures FeesTrack(p, block + added, after, failed, Made(p, before, after, made, order))
  {
    hide *;
    var now := Made(p, before, after, made, order);
    forall id | id in after && id !in failed
      ensures id in p.ancestors && id in now && FeeIs(p, block + added, id, now[id], after[id].fees)
    {
      FeesAddedAt(p, block, added, old0, before, after, failed, made, order, id);
    }
    FeesTrackIf(p, block + added, after, failed, now);
  }

  lemma FeesTrackIf(p: Pool, block: set<Id>, modified: map<Id, Entry>, failed: set<Id>, made: map<Id, Id>)
    requires forall id :: id in modified && id !in failed ==>
      id in p.ancestors && id in made && FeeIs(p, block, id, made[id], modified[id].fees)
    ensures FeesTrack(p, block, modified, failed, made)
  {
    hide FeeIs;
  }

  lemma FeesAddedAt(p: Pool, block: set<Id>, added: set<Id>, old0: map<Id, Entry>, before: map<Id, Entry>,
                    after: map<Id, Entry>, failed: set<Id>, made: map<Id, Id>, order: seq<Id>, id: Id)
    requires WellFormed(p) && Closed(p, block) && Closed(p, block + added) && block !! added
    requires Tracks(p, block, old0, failed, made) && before == old0 - added && Listing(order, added)
    requires after.Keys <= p.ancestors.Keys && Charged(p, before, after, added, order)
    requires id in after && id !in failed
    ensures id in Made(p, before, after, made, order)
    ensures FeeIs(p, block + added, id, Made(p, before, after, made, order)[id], after[id].fees)
  {
    hide Sum;
    hide WithAncestors;
    hide First;
    hide FeeIs;
    hide FeeStart;
    hide WellFormed;
    hide Get;
    PoolKeys(p);
    assert id in p.txs && id !in block + added;
    if id in before {
      assert FeeIs(p, block, id, made[id], old0[id].fees);
      OlderEntry(p, block, added, id, made[id], old0[id].fees, after[id].fees);
    } else {
      assert p.ancestors[id] !! block;
      NewEntry(p, block, added, id, First(order, p.ancestors[id]), after[id].fees);
    }
  }

  /** An entry that was there is charged the plain fees of the added ancestors. */
  lemma OlderEntry(p: Pool, block: set<Id>, added: set<Id>, id: Id, a: Id, was: int, fees: int)
    requires WellFormed(p) && id in p.txs && id !in block + added && block !! added
    requires FeeIs(p, block, id, a, was) && fees == was - Sum(p, p.ancestors[id] * added, Fee)
    ensures FeeIs(p, block + added, id, a, fees)
  {
    hide Sum;
    var anc := p.ancestors[id];
    RemainingSplit(p, block, added, id, ModifiedFee);
    AdjustmentsJoin(p, anc * block - {a}, anc * added);
    assert anc * (block + added) - {a} == anc * block - {a} + anc * added;
  }

  /** A new entry is charged the adjusted fee of one added ancestor and the plain fees of the others. */
  lemma NewEntry(p: Pool, block: set<Id>, added: set<Id>, id: Id, a: Id, fees: int)
    requires WellFormed(p) && id in p.txs && id !in block + added && p.ancestors[id] !! block
    requires FeeStart(p, id, added, a, fees)
    ensures FeeIs(p, block + added, id, a, fees)
  {
    hide Sum;
    var anc := p.ancestors[id];
    SumRemove(p, anc + {id}, added, ModifiedFee);
    assert anc + {id} - added == Remaining(p, id, block + added);
    assert (anc + {id}) * added == anc * added;
    AdjustmentsJoin(p, anc * added - {a}, {a});
    assert anc * added - {a} + {a} == anc * added;
    assert anc * (block + added) - {a} == anc * added - {a};
  }

  lemma TracksKeys(p: Pool, block: set<Id>, modified: map<Id, Entry>, failed: set<Id>, made: map<Id, Id>)
    requires Tracks(p, block, modified, failed, made)
    ensures modified.Keys <= p.txs.Keys - block && p.ancestors.Keys == p.txs.Keys
  {}

  lemma TracksErase(p: Pool, block: set<Id>, modified: map<Id, Entry>, failed: set<Id>, made: map<Id, Id>, id: Id)
    requires Tracks(p, block, modified, failed, made)
    ensures Tracks(p, block, modified - {id}, failed + {id}, made)
  {}

  lemma ModifiedCovers(p: Pool, block: set<Id>, modified: map<Id, Entry>, failed: set<Id>, made: map<Id, Id>, id: Id)
    requires Tracks(p, block, modified, failed, made) && id in modified
    ensures id in p.ancestors
    ensures modified[id].size >= Sum(p, Remaining(p, id, block), Size)
    ensures modified[id].sigOps >= Sum(p, Remaining(p, id, block), SigOps)
  {
    assert Tracked(Size) && Tracked(SigOps);
    assert Get(modified[id], Size) >= Sum(p, Remaining(p, id, block), Size);
    assert Get(modified[id], SigOps) >= Sum(p, Remaining(p, id, block), SigOps);
  }

  lemma TracksNothing(p: Pool)
    requires WellFormed(p)
    ensures Tracks(p, {}, map[], {}, map[]) && Closed(p, {})
  {}

  // ----- when the fees are exact

  /** The fees of a modified entry that has not failed are exact if and only if the adjustments of its
      included ancestors, apart from the one it was made for, cancel out; else they are off by those. */
  lemma FeesExactly(p: Pool, block: set<Id>, modified: map<Id, Entry>, failed: set<Id>, made: map<Id, Id>, id: Id)
    requires WellFormed(p) && Tracks(p, block, modified, failed, made) && id in modified && id !in failed
    ensures id in p.ancestors && id in made && made[id] in p.ancestors[id] * block
    ensures modified[id].fees ==
            Sum(p, Remaining(p, id, block), ModifiedFee) + Adjustments(p, p.ancestors[id] * block - {made[id]})
    ensures modified[id].fees == Sum(p, Remaining(p, id, block), ModifiedFee) <==>
            Adjustments(p, p.ancestors[id] * block - {made[id]}) == 0
  {
    hide Sum;
  }

  /** Nothing in the set is adjusted. */
  ghost predicate Unadjusted(p: Pool, s: set<Id>) {
    forall a :: a in s && a in p.txs ==> p.txs[a].modifiedFee == p.txs[a].fee
  }

  lemma {:induction false} NoAdjustments(txs: map<Id, Tx>, order: seq<Id>, s: set<Id>)
    requires forall a :: a in s && a in txs ==> txs[a].modifiedFee == txs[a].fee
    ensures SumIn(txs, order, s, ModifiedFee) == SumIn(txs, order, s, Fee)
  {
    if order != [] {
      NoAdjustments(txs, order[1..], s);
    }
  }

  lemma {:induction false} EqualAdjustments(p: Pool, s: set<Id>, c: int)
    requires WellFormed(p) && s <= p.txs.Keys && forall a :: a in s ==> Adjustments(p, {a}) == c
    ensures Adjustments(p, s) == |s| * c
    decreases s
  {
    hide WellFormed;
    hide Adjustments;
    if s == {} {
      AdjustmentsNone(p);
    } else {
      var a := Member(s);
      EqualAdjustments(p, s - {a}, c);
      AdjustmentsJoin(p, s - {a}, {a});
      assert s - {a} + {a} == s;
      assert |s| * c == (|s| - 1) * c + c;
    }
  }

  lemma AdjustmentsNone(p: Pool)
    ensures Adjustments(p, {}) == 0
  {
    SumEmpty(p, Fee);
    SumEmpty(p, ModifiedFee);
  }

  /** Whichever of the ancestors the entry was made for, the others cancel out, if and only if there is one
      ancestor only or none is adjusted. */
  lemma WhicheverItWas(p: Pool, s: set<Id>)
    requires WellFormed(p) && s <= p.txs.Keys && s != {}
    ensures (forall a :: a in s ==> Adjustments(p, s - {a}) == 0) <==> |s| == 1 || Unadjusted(p, s)
  {
    hide WellFormed;
    hide Adjustments;
    forall a | a in s
      ensures Adjustments(p, s) == Adjustments(p, s - {a}) + Adjustments(p, {a})
      ensures Adjustments(p, {a}) == p.txs[a].modifiedFee - p.txs[a].fee
    {
      AdjustmentsJoin(p, s - {a}, {a});
      assert s - {a} + {a} == s;
      OneAdjustment(p, a);
    }
    if |s| == 1 {
      AdjustmentsNone(p);
      forall a | a in s ensures s - {a} == {} {
        assert |s - {a}| == 0;
      }
    }
    if Unadjusted(p, s) {
      forall a | a in s ensures Adjustments(p, s - {a}) == 0 {
        UnadjustedSum(p, s - {a});
      }
    }
    if forall a :: a in s ==> Adjustments(p, s - {a}) == 0 {
      var total := Adjustments(p, s);
      EqualAdjustments(p, s, total);
      if |s| != 1 {
        OnlyZero(|s|, total);
      }
    }
  }

  lemma UnadjustedSum(p: Pool, s: set<Id>)
    requires Unadjusted(p, s)
    ensures Adjustments(p, s) == 0
  {
    NoAdjustments(p.txs, p.order, s);
  }

  lemma OnlyZero(n: nat, x: int)
    requires x == n * x && n != 1
    ensures x == 0
  {
    assert (n - 1) * x == 0;
  }

  /** So the fees are exact, whatever the order of charging was, if one included ancestor is all there is or
      none is adjusted. */
  lemma FeesSafe(p: Pool, block: set<Id>, modified: map<Id, Entry>, failed: set<Id>, made: map<Id, Id>, id: Id)
    requires WellFormed(p) && Tracks(p, block, modified, failed, made) && id in modified && id !in failed
    requires id in p.ancestors && (|p.ancestors[id] * block| == 1 || Unadjusted(p, p.ancestors[id] * block))
    ensures modified[id].fees == Sum(p, Remaining(p, id, block), ModifiedFee)
  {
    FeesExactly(p, block, modified, failed, made, id);
    hide Tracks;
    WhicheverItWas(p, p.ancestors[id] * block);
  }

  /** The pool's own figures are exact, fees included, for a transaction that has neither failed nor been
      modified. */
  lemma PoolFeesExact(p: Pool, block: set<Id>, modified: map<Id, Entry>, failed: set<Id>, made: map<Id, Id>, id: Id)
    requires WellFormed(p) && Tracks(p, block, modified, failed, made)
    requires id in p.txs && id !in block && id !in failed && id !in modified
    ensures id in p.ancestors && FromPool(p, id).fees == Sum(p, Remaining(p, id, block), ModifiedFee)
  {
    assert Remaining(p, id, block) == p.ancestors[id] + {id};
  }

  // ----- every order of charging

  /** The entry a round makes, whatever its order. */
  lemma OrderFees(p: Pool, block: set<Id>, added: set<Id>, before: map<Id, Entry>, order: seq<Id>, id: Id)
    requires WellFormed(p) && before.Keys <= p.txs.Keys && added <= p.txs.Keys && Listing(order, added)
    requires id in p.txs && id !in block + added && id !in before && id in p.ancestors
    requires p.ancestors[id] !! block && p.ancestors[id] * added != {}
    ensures p.ancestors.Keys == p.txs.Keys && InPool(p, order)
    ensures First(order, p.ancestors[id]) in p.ancestors[id] * added
    ensures var after := ChargeInOrder(p, before, added, order);
      && id in after
      && after[id].fees == Sum(p, Remaining(p, id, block + added), ModifiedFee)
                           + Adjustments(p, p.ancestors[id] * added - {First(order, p.ancestors[id])})
  {
    hide ChargeInOrder;
    hide First;
    hide Sum;
    hide WellFormed;
    PoolKeys(p);
    forall i | 0 <= i < |order| ensures order[i] in p.txs {
      assert order[i] in Members(order);
    }
    InOrder(p, before, added, order);
    var a := First(order, p.ancestors[id]);
    var after := ChargeInOrder(p, before, added, order);
    NewEntry(p, block, added, id, a, after[id].fees);
    assert p.ancestors[id] * (block + added) - {a} == p.ancestors[id] * added - {a};
  }

  /** A set can be listed from any of its members on. */
  lemma ListFrom(s: set<Id>, a: Id) returns (order: seq<Id>)
    requires a in s
    ensures Listing(order, s) && order != [] && order[0] == a
  {
    var rest := SomeListing(s - {a});
    order := [a] + rest;
    assert order[1..] == rest;
    MembersHead(order);
    forall i, j | 0 <= i < j < |order| ensures order[i] != order[j] {
      assert order[j] == rest[j - 1];
      if i == 0 {
        assert rest[j - 1] in Members(rest);
      } else {
        assert order[i] == rest[i - 1];
      }
    }
  }

  lemma {:induction false} SomeListing(s: set<Id>) returns (order: seq<Id>)
    ensures Listing(order, s)
    decreases s
  {
    if s == {} {
      order := [];
      MembersMore([], 0);
    } else {
      var a := Member(s);
      var rest := SomeListing(s - {a});
      order := rest + [a];
      MembersMore(rest, a);
      forall i, j | 0 <= i < j < |order| ensures order[i] != order[j] {
        assert order[i] == rest[i] && rest[i] in Members(rest);
      }
    }
  }

  /** The fees of an entry are right after this order of charging. */
  ghost predicate ExactIn(p: Pool, block: set<Id>, added: set<Id>, before: map<Id, Entry>, order: seq<Id>, id: Id)
    requires p.ancestors.Keys == p.txs.Keys && before.Keys <= p.txs.Keys && id in p.ancestors
    requires added <= p.txs.Keys && Listing(order, added)
  {
    && InPool(p, order)
    && var after := ChargeInOrder(p, before, added, order);
       id in after && after[id].fees == Sum(p, Remaining(p, id, block + added), ModifiedFee)
  }

  /** The fees of the entry a round makes are exact in every order of charging if and only if the round adds
      one of its ancestors only or no adjusted one. */
  lemma EveryOrder(p: Pool, block: set<Id>, added: set<Id>, before: map<Id, Entry>, id: Id)
    requires WellFormed(p) && before.Keys <= p.txs.Keys && added <= p.txs.Keys
    requires id in p.txs && id !in block + added && id !in before && id in p.ancestors
    requires p.ancestors[id] !! block && p.ancestors[id] * added != {}
    ensures p.ancestors.Keys == p.txs.Keys
    ensures (forall order :: Listing(order, added) ==> ExactIn(p, block, added, before, order, id)) <==>
            |p.ancestors[id] * added| == 1 || Unadjusted(p, p.ancestors[id] * added)
  {
    hide ChargeInOrder;
    hide Sum;
    hide Adjustments;
    hide First;
    hide WellFormed;
    hide Unadjusted;
    PoolKeys(p);
    var s := p.ancestors[id] * added;
    WhicheverItWas(p, s);
    forall order | Listing(order, added)
      ensures First(order, p.ancestors[id]) in s
      ensures ExactIn(p, block, added, before, order, id) <==> Adjustments(p, s - {First(order, p.ancestors[id])}) == 0
    {
      OrderFees(p, block, added, before, order, id);
    }
    if forall order :: Listing(order, added) ==> ExactIn(p, block, added, before, order, id) {
      forall a | a in s ensures Adjustments(p, s - {a}) == 0 {
        var order := ListFrom(added, a);
        FirstHead(order, p.ancestors[id]);
        assert ExactIn(p, block, added, before, order, id);
      }
    }
  }

  lemma FirstHead(order: seq<Id>, s: set<Id>)
    requires order != [] && order[0] in s
    ensures First(order, s) == order[0]
  {}

  // ----- a round that overstates

  /** A transaction of size 100 that pays `fee` and is adjusted to `modifiedFee`. */
  function Paying(fee: int, modifiedFee: int): Tx {
    Tx(100, 400, 4, fee, modifiedFee, true, false)
  }

  /** 2 spends 1, which spends 0; the operator has raised 1 by `bonus`. */
  function Chain(bonus: int): Pool {
    Pool(map[0 := Paying(10, 10), 1 := Paying(20, 20 + bonus), 2 := Paying(30, 30)],
         map[0 := {}, 1 := {0}, 2 := {0, 1}], [1, 2, 0])
  }

  lemma ChainSums(bonus: int, f: Figure)
    ensures WellFormed(Chain(bonus))
    ensures var p := Chain(bonus);
      && Sum(p, {0}, f) == Of(p.txs[0], f)
      && Sum(p, {0, 1}, f) == Of(p.txs[0], f) + Of(p.txs[1], f)
      && Sum(p, {0, 1, 2}, f) == Of(p.txs[0], f) + Of(p.txs[1], f) + Of(p.txs[2], f)
      && Sum(p, {2}, f) == Of(p.txs[2], f)
  {
    hide Of;
    hide SumIn;
    var p := Chain(bonus);
    SumOne(p.txs, p.order, 0, f);
    SumOne(p.txs, p.order, 2, f);
    SumAdd(p, {0}, 1, f);
    SumAdd(p, {0, 1}, 2, f);
    assert {0} + {1} == {0, 1} && {0, 1} + {2} == {0, 1, 2};
  }

  /** With a bonus over 30 the package of 1 is the best in the pool. */
  lemma BestIsOne(bonus: int)
    requires bonus > 30
    ensures var p := Chain(bonus); Above(PoolScore(p, 1), PoolScore(p, 2)) && Above(PoolScore(p, 2), PoolScore(p, 0))
  {
    var p := Chain(bonus);
    ChainSums(bonus, Size);
    ChainSums(bonus, ModifiedFee);
    hide Sum;
    assert p.ancestors[0] + {0} == {0} && p.ancestors[1] + {1} == {0, 1} && p.ancestors[2] + {2} == {0, 1, 2};
  }

  /** The round that adds it, 0 and 1 together, leaves 2 with the whole of the bonus, which is in the block,
      when 0 is charged first, and with its own fee when 1 is. */
  lemma OverstatedFees(bonus: int)
    ensures var p := Chain(bonus);
      WellFormed(p) && Remaining(p, 1, {}) == {0, 1} && Sum(p, Remaining(p, 2, {0, 1}), ModifiedFee) == 30
    ensures var after := ChargeInOrder(Chain(bonus), map[], {0, 1}, [0, 1]); 2 in after && after[2].fees == 30 + bonus
    ensures var after := ChargeInOrder(Chain(bonus), map[], {0, 1}, [1, 0]); 2 in after && after[2].fees == 30
  {
    hide ChargeInOrder;
    hide Sum;
    var p := Chain(bonus);
    ChainSums(bonus, ModifiedFee);
    assert Remaining(p, 1, {}) == {0, 1} && Remaining(p, 2, {0, 1}) == {2};
    ChainOrder(bonus, [0, 1]);
    ChainOrder(bonus, [1, 0]);
    OneAdjustment(p, 0);
    OneAdjustment(p, 1);
  }

  lemma ChainOrder(bonus: int, order: seq<Id>)
    requires order == [0, 1] || order == [1, 0]
    ensures var p := Chain(bonus); var after := ChargeInOrder(p, map[], {0, 1}, order);
      && 2 in after
      && after[2].fees == Sum(p, Remaining(p, 2, {0, 1}), ModifiedFee) + Adjustments(p, {1 - order[0]})
  {
    hide ChargeInOrder;
    hide Sum;
    hide Adjustments;
    hide WellFormed;
    hide First;
    var p := Chain(bonus);
    ChainSums(bonus, ModifiedFee);
    var none: set<Id> := {};
    assert Members(order) == {0, 1} by {
      assert order[0] in Members(order) && order[1] in Members(order);
    }
    OrderFees(p, none, {0, 1}, map[], order, 2);
    assert none + {0, 1} == {0, 1} && p.ancestors[2] * {0, 1} == {0, 1};
    FirstHead(order, p.ancestors[2]);
    assert {0, 1} - {order[0]} == {1 - order[0]};
  }
}
