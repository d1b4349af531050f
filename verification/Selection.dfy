/**
 What a run of package selection does, from the first candidate to the last: which packages it takes,
 which it refuses and why, and when it stops.
 */
module Selection {
  import opened MemPool
  import opened PackageFees
  import opened PackageFigures
  import opened Ranking

  const MAX_BLOCK_SIGOPS_COST := 80_000
  const WITNESS_SCALE_FACTOR := 4
  const MAX_CONSECUTIVE_FAILURES := 1000
  const COINBASE_WEIGHT := 4000
  const COINBASE_SIGOPS := 400

  // ----- the fee a rate asks for

  function Truncate(a: int, b: int): int
    requires b > 0
  {
    if a >= 0 then a / b else -(-a / b)
  }

  /** The fee a rate asks of a package; any positive rate asks at least one unit. */
  function MinFee(perK: int, size: int): int {
    var fee := Truncate(perK * size, 1000);
    if fee == 0 && size != 0 then (if perK > 0 then 1 else if perK < 0 then -1 else 0) else fee
  }

  /** The fees are at least the rate times the size, less the fraction that is rounded away. */
  ghost predicate Pays(perK: int, size: int, fees: int) {
    if perK >= 0 then perK * size < 1000 * (fees + 1) && (perK * size > 0 ==> fees >= 1)
    else perK * size <= 1000 * fees || (size > 0 && fees >= -1)
  }

  lemma PaysExactly(perK: int, size: nat, fees: int)
    ensures fees >= MinFee(perK, size) <==> Pays(perK, size, fees)
  {
    var x := perK * size;
    if perK >= 0 {
      assert x >= 0;
      assert size != 0 && perK > 0 ==> x > 0;
    } else {
      assert x <= 0;
      assert size != 0 ==> x < 0;
    }
  }

  // ----- the record of a run

  datatype Outcome = Taken | TooBig | NotFinal

  /** A package under consideration, with the figures of all that is outside the block so far and with what
      has failed so far. */
  datatype Candidate = Candidate(id: Id, figures: map<Id, Entry>, block: set<Id>, failed: set<Id>)

  datatype Attempt = Attempt(c: Candidate, outcome: Outcome)

  datatype Ending = Exhausted | BelowRate(c: Candidate) | NearlyFull

  /** What limits a run: the most a block may weigh, the rate asked and whether witnesses are allowed. */
  datatype Terms = Terms(maxWeight: nat, perK: int, witnesses: bool)

  predicate MayMine(p: Pool, witnesses: bool, id: Id) {
    id in p.txs && p.txs[id].isFinal && (witnesses || !p.txs[id].hasWitness)
  }

  /** The figures of a package never fall short of what remains of it; they are exact unless it failed
      before, and so are its fees unless an included ancestor is adjusted. */
  ghost predicate Figured(p: Pool, block: set<Id>, failed: set<Id>, id: Id, e: Entry) {
    && id in p.txs && id in p.ancestors && id !in block
    && e.size >= Sum(p, Remaining(p, id, block), Size)
    && e.sigOps >= Sum(p, Remaining(p, id, block), SigOps)
    && (id !in failed ==>
          && e.size == Sum(p, Remaining(p, id, block), Size)
          && e.sigOps == Sum(p, Remaining(p, id, block), SigOps)
          && (Unadjusted(p, p.ancestors[id] * block) ==> e.fees == Sum(p, Remaining(p, id, block), ModifiedFee)))
  }

  /** Of all that is outside the block and was not refused before, the candidate comes first by score. */
  ghost predicate Preferred(p: Pool, log: seq<Attempt>, c: Candidate) {
    && c.block <= p.txs.Keys && Closed(p, c.block)
    && c.figures.Keys == p.txs.Keys - c.block
    && (forall x :: x in c.figures ==> Figured(p, c.block, c.failed, x, c.figures[x]))
    && (forall x :: x in c.failed ==> Refused(log, x))
    && c.id in c.figures && Foremost(p.txs, c.figures, Open(p, log, c.block), c.id)
  }

  /** What is neither in the block nor refused. */
  ghost function Open(p: Pool, log: seq<Attempt>, block: set<Id>): (s: set<Id>)
    ensures s <= p.txs.Keys - block
  {
    set x | x in p.txs && x !in block && !Refused(log, x)
  }

  function Own(c: Candidate): Entry
    requires c.id in c.figures
  {
    c.figures[c.id]
  }

  /** A package with these figures would bring the block to one of its limits. */
  ghost predicate Overflows(p: Pool, t: Terms, block: set<Id>, e: Entry) {
    || COINBASE_WEIGHT + Sum(p, block, Weight) + WITNESS_SCALE_FACTOR * e.size >= t.maxWeight
    || COINBASE_SIGOPS + Sum(p, block, SigOps) + e.sigOps >= MAX_BLOCK_SIGOPS_COST
  }

  ghost predicate AllMayMine(p: Pool, witnesses: bool, s: set<Id>) {
    forall x :: x in s ==> MayMine(p, witnesses, x)
  }

  /** An attempt is made while the block is not full, on the preferred package, which pays the rate; it is taken exactly
      if it stays clear of the limits and all that remains of it may be mined. */
  ghost predicate Sound(p: Pool, t: Terms, log: seq<Attempt>, a: Attempt) {
    && !Full(p, t, log, a.c.block)
    && Preferred(p, log, a.c) && a.c.id in p.ancestors
    && Pays(t.perK, Own(a.c).size, Own(a.c).fees)
    && (a.outcome == TooBig <==> Overflows(p, t, a.c.block, Own(a.c)))
    && (a.outcome == Taken <==>
          && !Overflows(p, t, a.c.block, Own(a.c))
          && AllMayMine(p, t.witnesses, Remaining(p, a.c.id, a.c.block)))
  }

  /** The block after an attempt. */
  function After(p: Pool, a: Attempt): set<Id>
    requires a.c.id in p.ancestors
  {
    if a.outcome.Taken? then a.c.block + Remaining(p, a.c.id, a.c.block) else a.c.block
  }

  /** Some attempt on the transaction's package was refused. */
  ghost predicate Refused(log: seq<Attempt>, id: Id) {
    exists i :: 0 <= i < |log| && log[i].c.id == id && !log[i].outcome.Taken?
  }

  /** Packages found too big since one was taken last. */
  function Failures(log: seq<Attempt>): nat {
    if log == [] then 0
    else
      var a := log[|log| - 1];
      if a.outcome.Taken? then 0 else Failures(log[..|log| - 1]) + if a.outcome.TooBig? then 1 else 0
  }

  /** The attempts lead from the block `start` to the block `now`. */
  ghost predicate Leads(p: Pool, t: Terms, start: set<Id>, log: seq<Attempt>, now: set<Id>)
    decreases log
  {
    if log == [] then now == start
    else
      var before, a := log[..|log| - 1], log[|log| - 1];
      Sound(p, t, before, a) && now == After(p, a) && Leads(p, t, start, before, a.c.block)
  }

  /** Why a run stopped: no transaction is left untried, the preferred package pays too little, or the block
      is nearly full and more than a thousand packages in a row did not fit. */
  ghost predicate Stops(p: Pool, t: Terms, log: seq<Attempt>, now: set<Id>, e: Ending) {
    && (e.NearlyFull? <==> Full(p, t, log, now))
    && (e.Exhausted? ==> forall id :: id in p.txs ==> id in now || Refused(log, id))
    && (e.BelowRate? ==>
          Preferred(p, log, e.c) && e.c.block == now && !Pays(t.perK, Own(e.c).size, Own(e.c).fees))
  }

  ghost predicate Full(p: Pool, t: Terms, log: seq<Attempt>, now: set<Id>) {
    Failures(log) > MAX_CONSECUTIVE_FAILURES && COINBASE_WEIGHT + Sum(p, now, Weight) > t.maxWeight - 4000
  }

  // ----- one attempt more

  lemma RefusedMore(log: seq<Attempt>, a: Attempt, id: Id)
    ensures Refused(log + [a], id) <==> Refused(log, id) || (a.c.id == id && !a.outcome.Taken?)
  {
    var more := log + [a];
    if Refused(log, id) {
      var i :| 0 <= i < |log| && log[i].c.id == id && !log[i].outcome.Taken?;
      assert more[i] == log[i];
    } else if a.c.id == id && !a.outcome.Taken? {
      assert more[|log|] == a;
    }
  }

  lemma LeadsMore(p: Pool, t: Terms, start: set<Id>, log: seq<Attempt>, a: Attempt)
    requires Leads(p, t, start, log, a.c.block) && Sound(p, t, log, a)
    ensures Leads(p, t, start, log + [a], After(p, a))
  {
    hide Sound;
    assert (log + [a])[..|log|] == log;
  }

  lemma FailuresMore(log: seq<Attempt>, a: Attempt)
    ensures Failures(log + [a]) ==
            if a.outcome.Taken? then 0 else Failures(log) + if a.outcome.TooBig? then 1 else 0
  {
    assert (log + [a])[..|log|] == log;
  }

  /** What holds of the last attempt of a run holds of each. */
  lemma {:induction false} EachAttempt(p: Pool, t: Terms, start: set<Id>, log: seq<Attempt>, now: set<Id>, i: nat)
    requires Leads(p, t, start, log, now) && i < |log|
    ensures Sound(p, t, log[..i], log[i]) && Leads(p, t, start, log[..i], log[i].c.block)
    ensures start <= log[i].c.block && After(p, log[i]) <= now
    decreases |log|
  {
    hide Sound;
    var before, a := log[..|log| - 1], log[|log| - 1];
    Grows(p, t, start, before, a.c.block);
    if i < |log| - 1 {
      EachAttempt(p, t, start, before, a.c.block, i);
      assert before[..i] == log[..i] && before[i] == log[i];
    }
  }

  /** A run only adds. */
  lemma {:induction false} Grows(p: Pool, t: Terms, start: set<Id>, log: seq<Attempt>, now: set<Id>)
    requires Leads(p, t, start, log, now)
    ensures start <= now
    decreases |log|
  {
    hide Sound;
    if log != [] {
      Grows(p, t, start, log[..|log| - 1], log[|log| - 1].c.block);
    }
  }

  /** Whatever a run adds comes with a package that pays the rate. */
  lemma {:induction false} AddedWith(p: Pool, t: Terms, start: set<Id>, log: seq<Attempt>, now: set<Id>, x: Id)
      returns (i: nat)
    requires Leads(p, t, start, log, now) && x in now && x !in start
    ensures i < |log| && log[i].outcome.Taken? && Sound(p, t, log[..i], log[i])
    ensures x in Remaining(p, log[i].c.id, log[i].c.block)
    decreases |log|
  {
    hide Sound;
    var before, a := log[..|log| - 1], log[|log| - 1];
    if x in a.c.block {
      i := AddedWith(p, t, start, before, a.c.block, x);
      assert before[..i] == log[..i] && before[i] == log[i];
    } else {
      i := |log| - 1;
    }
  }

  // ----- when everything is included

  /** Nothing in the pool is adjusted, unfit for mining or pays less than the rate, and all of it fits beside the
      weight and signature cost kept for the coinbase. */
  ghost predicate AllWelcome(p: Pool, t: Terms) {
    && 0 <= t.perK
    && (forall id :: id in p.txs ==> Welcome(p.txs[id], t))
    && 4000 + 4 * Sum(p, p.txs.Keys, Size) < t.maxWeight
    && 400 + Sum(p, p.txs.Keys, SigOps) < 80_000
  }

  ghost predicate Welcome(tx: Tx, t: Terms) {
    && tx.modifiedFee == tx.fee && t.perK * tx.size <= 1000 * tx.fee
    && tx.isFinal && (t.witnesses || !tx.hasWitness)
  }

  /** Transactions that each pay a rate pay it together. */
  lemma {:induction false} TogetherPay(txs: map<Id, Tx>, order: seq<Id>, s: set<Id>, perK: int)
    requires forall id :: id in txs ==> perK * txs[id].size <= 1000 * txs[id].fee
    ensures perK * SumIn(txs, order, s, Size) <= 1000 * SumIn(txs, order, s, Fee)
  {
    if order != [] {
      TogetherPay(txs, order[1..], s, perK);
      var rest := SumIn(txs, order[1..], s, Size);
      if order[0] in s && order[0] in txs {
        assert perK * (txs[order[0]].size + rest) == perK * txs[order[0]].size + perK * rest;
      }
    }
  }

  /** A package in a pool that is welcome as a whole pays the rate and fits, unless it failed before. */
  lemma WelcomePays(p: Pool, t: Terms, block: set<Id>, failed: set<Id>, id: Id, e: Entry)
    requires WellFormed(p) && AllWelcome(p, t) && Figured(p, block, failed, id, e) && id !in failed
    ensures Pays(t.perK, e.size, e.fees)
  {
    hide SumIn;
    var package := Remaining(p, id, block);
    NoAdjustments(p.txs, p.order, package);
    TogetherPay(p.txs, p.order, package, t.perK);
    SumNotNegative(p.txs, p.order, package, Size);
  }

  lemma WelcomeFits(p: Pool, t: Terms, log: seq<Attempt>, c: Candidate)
    requires WellFormed(p) && AllWelcome(p, t) && Preferred(p, log, c) && c.id !in c.failed
    ensures !Overflows(p, t, c.block, Own(c)) && c.id in p.ancestors
    ensures AllMayMine(p, t.witnesses, Remaining(p, c.id, c.block))
  {
    hide SumIn;
    hide Foremost;
    var package := Remaining(p, c.id, c.block);
    SumWeight(p.txs, p.order, c.block);
    WithinPool(p, c.block, package, Size);
    WithinPool(p, c.block, package, SigOps);
  }

  /** Two disjoint sets of transactions have no more than the pool. */
  lemma WithinPool(p: Pool, s: set<Id>, u: set<Id>, f: Figure)
    requires s !! u && s + u <= p.txs.Keys && Tracked(f)
    ensures Sum(p, s, f) + Sum(p, u, f) <= Sum(p, p.txs.Keys, f)
  {
    hide SumIn;
    var all := p.txs.Keys;
    SumRemove(p, all, s, f);
    SumRemove(p, all - s, u, f);
    assert all * s == s && (all - s) * u == u;
    SumNotNegative(p.txs, p.order, all - s - u, f);
  }

  /** In such a pool every attempt of every run succeeds. */
  lemma {:induction false} NoneRefused(p: Pool, t: Terms, start: set<Id>, log: seq<Attempt>, now: set<Id>)
    requires WellFormed(p) && AllWelcome(p, t) && Leads(p, t, start, log, now)
    ensures (forall i :: 0 <= i < |log| ==> log[i].outcome.Taken?) && (forall id :: !Refused(log, id))
    ensures Failures(log) == 0
    decreases |log|
  {
    if log != [] {
      var before, a := log[..|log| - 1], log[|log| - 1];
      NoneRefused(p, t, start, before, a.c.block);
      WelcomeFits(p, t, before, a.c);
      assert a.outcome.Taken?;
      forall i | 0 <= i < |log| ensures log[i].outcome.Taken? {
        assert i < |log| - 1 ==> log[i] == before[i];
      }
    }
  }

  /** If nothing in the pool is adjusted or unfit, every transaction pays the rate and all of it fits, the
      block ends up with the whole pool, in whatever order packages are preferred. */
  lemma EverythingIncluded(p: Pool, t: Terms, start: set<Id>, log: seq<Attempt>, now: set<Id>, e: Ending)
    requires WellFormed(p) && AllWelcome(p, t) && Leads(p, t, start, log, now) && Stops(p, t, log, now, e)
    requires now <= p.txs.Keys
    ensures now == p.txs.Keys
  {
    hide Leads;
    NoneRefused(p, t, start, log, now);
    if e.BelowRate? {
      WelcomePays(p, t, e.c.block, e.c.failed, e.c.id, Own(e.c));
    }
  }

  // ----- what is left out

  /** Figures count at least the transaction itself. */
  lemma FiguredSize(p: Pool, block: set<Id>, failed: set<Id>, id: Id, e: Entry)
    requires WellFormed(p) && Ranked(p) && Figured(p, block, failed, id, e)
    ensures p.txs[id].size > 0 && e.size > 0
  {
    hide SumIn;
    var package := Remaining(p, id, block);
    SumRemove(p, package, {id}, Size);
    assert package * {id} == {id};
    SumOne(p.txs, p.order, id, Size);
    SumNotNegative(p.txs, p.order, package - {id}, Size);
  }

  /** A package that does not pay a rate is below it, and its score with it. */
  lemma ScoreBelow(tx: Tx, e: Entry, perK: nat)
    requires tx.size > 0 && e.size > 0 && !Pays(perK, e.size, e.fees)
    ensures Above(Rate(perK, 1000), Score(tx, e))
  {
    hide Score;
    ScoreIsLower(tx, e);
    assert perK * e.size > 1000 * e.fees;
    RatesTransitive(Rate(perK, 1000), Rate(e.fees, e.size), Score(tx, e));
  }

  /** Whatever a run leaves out without trying it pays less than the rate, by itself or with what remains of
      its ancestors. */
  lemma LeftOutPaysLess(p: Pool, t: Terms, log: seq<Attempt>, now: set<Id>, e: Ending, id: Id)
    requires WellFormed(p) && Ranked(p) && 0 <= t.perK && Unadjusted(p, p.txs.Keys)
    requires Stops(p, t, log, now, e) && !e.NearlyFull?
    requires id in p.txs && id in p.ancestors && id !in now && !Refused(log, id)
    ensures || 1000 * p.txs[id].fee < t.perK * p.txs[id].size
            || 1000 * Sum(p, Remaining(p, id, now), Fee) < t.perK * Sum(p, Remaining(p, id, now), Size)
  {
    hide Sum;
    hide Score;
    hide Precedes;
    hide Pays;
    var c := e.c;
    assert id in Open(p, log, now) && Figured(p, now, c.failed, id, c.figures[id]);
    FiguredSize(p, now, c.failed, id, c.figures[id]);
    FiguredSize(p, now, c.failed, c.id, Own(c));
    UnadjustedSum(p, Remaining(p, id, now));
    ScoreBelow(p.txs[c.id], Own(c), t.perK);
    ScoreIsLower(p.txs[c.id], Own(c));
    ScoreIsLower(p.txs[id], c.figures[id]);
    if id != c.id {
      LowerToo(c.id, Score(p.txs[c.id], Own(c)), id, Score(p.txs[id], c.figures[id]), t.perK);
    }
    assert Above(Rate(t.perK, 1000), Score(p.txs[id], c.figures[id]));
  }

  lemma LowerToo(x: Id, r: Rate, y: Id, s: Rate, perK: nat)
    requires r.size > 0 && s.size > 0 && Precedes(x, r, y, s) && Above(Rate(perK, 1000), r)
    ensures Above(Rate(perK, 1000), s)
  {
    RatesTransitive(Rate(perK, 1000), r, s);
  }

  // ----- the candidate

  /** The figures of everything outside the block: corrected ones where there are any, else the pool's. */
  function Figures(p: Pool, modified: map<Id, Entry>, block: set<Id>): (r: map<Id, Entry>)
    requires p.ancestors.Keys == p.txs.Keys
    ensures r.Keys == p.txs.Keys - block
  {
    map x | x in p.txs && x !in block :: Base(p, modified, x)
  }

  lemma AllFigured(p: Pool, block: set<Id>, modified: map<Id, Entry>, failed: set<Id>, made: map<Id, Id>, x: Id)
    requires WellFormed(p) && Tracks(p, block, modified, failed, made) && x in p.txs && x !in block
    ensures x in p.ancestors && Figured(p, block, failed, x, Base(p, modified, x))
  {
    hide Sum;
    if x in modified {
      ModifiedCovers(p, block, modified, failed, made, x);
      if x !in failed {
        ModifiedExact(p, block, modified, failed, made, x);
      }
    } else {
      PoolCovers(p, block, x, Size);
      PoolCovers(p, block, x, SigOps);
      if x !in failed {
        PoolFeesExact(p, block, modified, failed, made, x);
        assert Remaining(p, x, block) == p.ancestors[x] + {x};
      }
    }
  }

  lemma ModifiedExact(p: Pool, block: set<Id>, modified: map<Id, Entry>, failed: set<Id>, made: map<Id, Id>, x: Id)
    requires WellFormed(p) && Tracks(p, block, modified, failed, made) && x in modified && x !in failed
    ensures x in p.ancestors
    ensures modified[x].size == Sum(p, Remaining(p, x, block), Size)
    ensures modified[x].sigOps == Sum(p, Remaining(p, x, block), SigOps)
    ensures Unadjusted(p, p.ancestors[x] * block) ==> modified[x].fees == Sum(p, Remaining(p, x, block), ModifiedFee)
  {
    hide Sum;
    assert Tracked(Size) && Tracked(SigOps);
    assert Get(modified[x], Size) == Sum(p, Remaining(p, x, block), Size);
    assert Get(modified[x], SigOps) == Sum(p, Remaining(p, x, block), SigOps);
    if Unadjusted(p, p.ancestors[x] * block) {
      FeesSafe(p, block, modified, failed, made, x);
    }
  }

  /** Everything the walk through the pool has passed is in the block, has corrected figures or was refused. */
  ghost predicate Accounted(p: Pool, mi: nat, block: set<Id>, modified: map<Id, Entry>, failed: set<Id>,
                            log: seq<Attempt>)
    requires mi <= |p.order|
  {
    && (forall i :: 0 <= i < mi ==> p.order[i] in block || p.order[i] in modified || Refused(log, p.order[i]))
    && (forall x :: x in failed ==> Refused(log, x))
  }

  /** What the walk has not passed comes after the next in line, by figures that are still the pool's. */
  lemma NextInLine(p: Pool, mi: nat, block: set<Id>, modified: map<Id, Entry>, failed: set<Id>, log: seq<Attempt>,
                   x: Id)
    requires WellFormed(p) && Ranked(p) && p.ancestors.Keys == p.txs.Keys && mi <= |p.order|
    requires Accounted(p, mi, block, modified, failed, log) && x in Open(p, log, block) && x !in modified
    requires mi < |p.order| ==> p.order[mi] in p.txs && p.order[mi] !in block && p.order[mi] !in modified
    ensures mi < |p.order|
    ensures x != p.order[mi] ==> Outranks(p.txs, Figures(p, modified, block), p.order[mi], x)
  {
    hide Sum;
    hide WithAncestors;
    hide Precedes;
    hide Score;
    assert x in p.order;
    var j :| 0 <= j < |p.order| && p.order[j] == x;
    assert mi <= j;
    var figures := Figures(p, modified, block);
    assert figures[x] == FromPool(p, x) && figures[p.order[mi]] == FromPool(p, p.order[mi]);
  }

  lemma ModifiedIsForemost(p: Pool, mi: nat, block: set<Id>, modified: map<Id, Entry>, failed: set<Id>,
                           log: seq<Attempt>, best: Id)
    requires WellFormed(p) && Ranked(p) && p.ancestors.Keys == p.txs.Keys && mi <= |p.order|
    requires Accounted(p, mi, block, modified, failed, log) && modified.Keys <= p.txs.Keys - block
    requires Sized(p.txs, Figures(p, modified, block), p.txs.Keys - block)
    requires best in modified && Foremost(p.txs, modified, modified.Keys, best)
    requires mi < |p.order| ==>
      && p.order[mi] in p.txs && p.order[mi] !in block && p.order[mi] !in modified
      && Outranks(p.txs, Figures(p, modified, block), best, p.order[mi])
    ensures Foremost(p.txs, Figures(p, modified, block), Open(p, log, block), best)
  {
    hide Precedes;
    hide Score;
    hide WellFormed;
    hide Ranked;
    hide Accounted;
    var figures := Figures(p, modified, block);
    forall x | x in Open(p, log, block) && x != best ensures Outranks(p.txs, figures, best, x) {
      if x in modified {
        assert Outranks(p.txs, modified, best, x);
      } else {
        NextInLine(p, mi, block, modified, failed, log, x);
        if x != p.order[mi] {
          OutranksTransitive(p.txs, figures, best, p.order[mi], x);
        }
      }
    }
  }

  lemma NextIsForemost(p: Pool, mi: nat, block: set<Id>, modified: map<Id, Entry>, failed: set<Id>,
                       log: seq<Attempt>, best: Id)
    requires WellFormed(p) && Ranked(p) && p.ancestors.Keys == p.txs.Keys && mi < |p.order|
    requires Accounted(p, mi, block, modified, failed, log) && modified.Keys <= p.txs.Keys - block
    requires Sized(p.txs, Figures(p, modified, block), p.txs.Keys - block)
    requires p.order[mi] in p.txs && p.order[mi] !in block && p.order[mi] !in modified
    requires modified.Keys != {} ==>
      && best in modified && Foremost(p.txs, modified, modified.Keys, best)
      && !Outranks(p.txs, Figures(p, modified, block), best, p.order[mi])
    ensures Foremost(p.txs, Figures(p, modified, block), Open(p, log, block), p.order[mi])
  {
    hide Precedes;
    hide Score;
    hide WellFormed;
    hide Ranked;
    hide Accounted;
    var figures, next := Figures(p, modified, block), p.order[mi];
    forall x | x in Open(p, log, block) && x != next ensures Outranks(p.txs, figures, next, x) {
      if x in modified {
        OutranksTotal(p.txs, figures, next, best);
        if x != best {
          assert Outranks(p.txs, modified, best, x);
          OutranksTransitive(p.txs, figures, next, best, x);
        }
      } else {
        NextInLine(p, mi, block, modified, failed, log, x);
      }
    }
  }

  lemma FigureIs(p: Pool, block: set<Id>, modified: map<Id, Entry>, x: Id)
    requires p.ancestors.Keys == p.txs.Keys && x in p.txs && x !in block
    ensures Figures(p, modified, block)[x] == Base(p, modified, x)
    ensures Base(p, modified, x) == if x in modified then modified[x] else FromPool(p, x)
  {}

  lemma FiguresSized(p: Pool, block: set<Id>, modified: map<Id, Entry>, failed: set<Id>, made: map<Id, Id>)
    requires WellFormed(p) && Ranked(p) && Tracks(p, block, modified, failed, made)
    requires p.ancestors.Keys == p.txs.Keys && modified.Keys <= p.txs.Keys - block
    ensures Sized(p.txs, Figures(p, modified, block), p.txs.Keys - block)
    ensures Sized(p.txs, modified, modified.Keys)
  {
    hide WellFormed;
    hide Ranked;
    hide Tracks;
    hide Figured;
    hide Base;
    hide Figures;
    var figures := Figures(p, modified, block);
    forall x | x in p.txs && x !in block
      ensures p.txs[x].size > 0 && figures[x].size > 0 && (x in modified ==> modified[x].size > 0)
    {
      AllFigured(p, block, modified, failed, made, x);
      FiguredSize(p, block, failed, x, Base(p, modified, x));
      FigureIs(p, block, modified, x);
    }
  }

  lemma Compared(p: Pool, block: set<Id>, modified: map<Id, Entry>, best: Id, next: Id)
    requires p.ancestors.Keys == p.txs.Keys && {best, next} <= p.txs.Keys - block && best in modified && next !in modified
    ensures Outranks(p.txs, Figures(p, modified, block), best, next) <==>
            Precedes(best, Score(p.txs[best], modified[best]), next, PoolScore(p, next))
  {
    hide Precedes;
    hide Score;
    hide FromPool;
  }

  lemma IsPreferred(p: Pool, block: set<Id>, modified: map<Id, Entry>, failed: set<Id>, made: map<Id, Id>,
                    log: seq<Attempt>, id: Id)
    requires WellFormed(p) && Tracks(p, block, modified, failed, made) && p.ancestors.Keys == p.txs.Keys
    requires block <= p.txs.Keys && Closed(p, block) && id in p.txs && id !in block
    requires forall x :: x in failed ==> Refused(log, x)
    requires Foremost(p.txs, Figures(p, modified, block), Open(p, log, block), id)
    ensures var c := Candidate(id, Figures(p, modified, block), block, failed);
      Preferred(p, log, c) && Own(c) == if id in modified then modified[id] else FromPool(p, id)
  {
    hide WellFormed;
    hide Tracks;
    hide Figured;
    hide Base;
    hide Figures;
    hide Foremost;
    hide Closed;
    var figures := Figures(p, modified, block);
    forall x | x in figures ensures Figured(p, block, failed, x, figures[x]) {
      AllFigured(p, block, modified, failed, made, x);
      FigureIs(p, block, modified, x);
    }
    FigureIs(p, block, modified, id);
  }

  lemma OverflowsIs(p: Pool, t: Terms, block: set<Id>, e: Entry)
    ensures Overflows(p, t, block, e) <==>
      || COINBASE_WEIGHT + Sum(p, block, Weight) + WITNESS_SCALE_FACTOR * e.size >= t.maxWeight
      || COINBASE_SIGOPS + Sum(p, block, SigOps) + e.sigOps >= MAX_BLOCK_SIGOPS_COST
  {}

  /** What a candidate's figures are good for. */
  lemma CandidateIs(p: Pool, log: seq<Attempt>, c: Candidate)
    requires Preferred(p, log, c)
    ensures c.id in p.txs && c.id in p.ancestors && c.id !in c.block
    ensures Own(c).size >= Sum(p, Remaining(p, c.id, c.block), Size) >= 0
    ensures Own(c).sigOps >= Sum(p, Remaining(p, c.id, c.block), SigOps)
  {
    hide Foremost;
    hide SumIn;
    assert Figured(p, c.block, c.failed, c.id, Own(c));
    SumNotNegative(p.txs, p.order, Remaining(p, c.id, c.block), Size);
  }

  // ----- steps of the walk

  lemma RunBegins(p: Pool, t: Terms, block: set<Id>, modified: map<Id, Entry>)
    ensures Leads(p, t, block, [], block) && Accounted(p, 0, block, modified, {}, [])
    ensures Failures([]) == 0 && !Full(p, t, [], block)
  {}

  lemma Passed(p: Pool, mi: nat, block: set<Id>, modified: map<Id, Entry>, failed: set<Id>, log: seq<Attempt>)
    requires mi < |p.order| && Accounted(p, mi, block, modified, failed, log)
    requires p.order[mi] in modified || p.order[mi] in block || p.order[mi] in failed
    ensures Accounted(p, mi + 1, block, modified, failed, log)
  {}

  lemma AccountedFailed(p: Pool, mi: nat, block: set<Id>, modified: map<Id, Entry>, failed: set<Id>,
                        log: seq<Attempt>)
    requires mi <= |p.order| && Accounted(p, mi, block, modified, failed, log)
    ensures forall x :: x in failed ==> Refused(log, x)
  {}

  lemma FullIs(p: Pool, t: Terms, log: seq<Attempt>, now: set<Id>)
    ensures Full(p, t, log, now) <==>
      Failures(log) > MAX_CONSECUTIVE_FAILURES && COINBASE_WEIGHT + Sum(p, now, Weight) > t.maxWeight - 4000
  {}

  lemma EndsBelowRate(p: Pool, t: Terms, log: seq<Attempt>, c: Candidate)
    requires Preferred(p, log, c) && !Full(p, t, log, c.block) && !Pays(t.perK, Own(c).size, Own(c).fees)
    ensures Stops(p, t, log, c.block, BelowRate(c))
  {}

  lemma EndsFull(p: Pool, t: Terms, log: seq<Attempt>, now: set<Id>)
    requires Full(p, t, log, now)
    ensures Stops(p, t, log, now, NearlyFull)
  {}

  lemma EndsExhausted(p: Pool, t: Terms, now: set<Id>, modified: map<Id, Entry>, failed: set<Id>, log: seq<Attempt>)
    requires WellFormed(p) && Accounted(p, |p.order|, now, modified, failed, log) && modified.Keys == {}
    requires !Full(p, t, log, now)
    ensures Stops(p, t, log, now, Exhausted)
  {}

  lemma Attempted(p: Pool, t: Terms, start: set<Id>, log: seq<Attempt>, a: Attempt)
    requires Leads(p, t, start, log, a.c.block) && !Full(p, t, log, a.c.block) && Preferred(p, log, a.c)
    requires a.c.id in p.ancestors && Pays(t.perK, Own(a.c).size, Own(a.c).fees)
    requires a.outcome == TooBig <==> Overflows(p, t, a.c.block, Own(a.c))
    requires a.outcome == Taken <==>
      && !Overflows(p, t, a.c.block, Own(a.c))
      && AllMayMine(p, t.witnesses, Remaining(p, a.c.id, a.c.block))
    ensures Leads(p, t, start, log + [a], After(p, a))
    ensures After(p, a) == if a.outcome.Taken? then a.c.block + Remaining(p, a.c.id, a.c.block) else a.c.block
    ensures a.outcome != TooBig ==> !Full(p, t, log + [a], After(p, a))
  {
    FailuresMore(log, a);
    FullIs(p, t, log, a.c.block);
    FullIs(p, t, log + [a], After(p, a));
    LeadsMore(p, t, start, log, a);
  }

  lemma AccountedTaken(p: Pool, at: nat, mi: nat, now: set<Id>, modified: map<Id, Entry>, after: map<Id, Entry>,
                       log: seq<Attempt>, a: Attempt)
    requires at <= mi <= |p.order| && (at < mi ==> mi == at + 1 && p.order[at] == a.c.id)
    requires Accounted(p, at, a.c.block, modified, a.c.failed, log) && a.c.block + {a.c.id} <= now
    requires modified.Keys <= after.Keys + now
    ensures Accounted(p, mi, now, after, a.c.failed, log + [a])
  {
    forall x ensures Refused(log, x) ==> Refused(log + [a], x) {
      RefusedMore(log, a, x);
    }
  }

  lemma AccountedRefused(p: Pool, at: nat, mi: nat, modified: map<Id, Entry>, log: seq<Attempt>, a: Attempt)
    requires at <= mi <= |p.order| && (at < mi ==> mi == at + 1 && p.order[at] == a.c.id)
    requires Accounted(p, at, a.c.block, modified, a.c.failed, log) && !a.outcome.Taken?
    ensures Accounted(p, mi, a.c.block, modified, a.c.failed, log + [a])
    ensures Accounted(p, mi, a.c.block, modified - {a.c.id}, a.c.failed + {a.c.id}, log + [a])
  {
    forall x ensures Refused(log, x) || x == a.c.id ==> Refused(log + [a], x) {
      RefusedMore(log, a, x);
    }
  }

  // ----- a package that pays is left out

  /** 1 and 2 spend 0, and 3 spends both. Together the four pay one unit for each byte; 1 and 2 pay less with
      0 alone, and 3 pays nothing itself. */
  function Diamond(): Pool {
    Pool(map[0 := Tx(100, 400, 4, 0, 0, true, false), 1 := Tx(100, 400, 4, 160, 160, true, false),
             2 := Tx(100, 400, 4, 160, 160, true, false), 3 := Tx(20, 80, 4, 0, 0, true, false)],
         map[0 := {}, 1 := {0}, 2 := {0}, 3 := {0, 1, 2}], [1, 2, 0, 3])
  }

  lemma DiamondIs()
    ensures var p := Diamond(); WellFormed(p) && p.txs.Keys == {0, 1, 2, 3} && p.ancestors.Keys == p.txs.Keys
  {
    var p := Diamond();
    assert p.txs.Keys == {0, 1, 2, 3} && p.ancestors.Keys == {0, 1, 2, 3};
    var anc := p.ancestors;
    assert anc[0] == {} && anc[1] == {0} && anc[2] == {0} && anc[3] == {0, 1, 2};
    DiamondAncestry(anc);
    assert p.order == [1, 2, 0, 3];
    assert 1 in p.order && 2 in p.order && 0 in p.order && 3 in p.order;
  }

  lemma DiamondAncestry(anc: map<Id, set<Id>>)
    requires anc.Keys == {0, 1, 2, 3} && anc[0] == {} && anc[1] == {0} && anc[2] == {0} && anc[3] == {0, 1, 2}
    ensures forall id :: id in anc ==> anc[id] <= anc.Keys && id !in anc[id]
    ensures forall id, a :: id in anc && a in anc[id] ==> anc[a] <= anc[id]
  {
    forall id, a | id in anc && a in anc[id] ensures anc[a] <= anc[id] {
      if id == 3 {
        assert a == 0 || a == 1 || a == 2;
      } else {
        assert a == 0;
      }
    }
  }

  lemma DiamondSums(f: Figure)
    ensures var p := Diamond();
      && Sum(p, {0}, f) == Of(p.txs[0], f)
      && Sum(p, {0, 1}, f) == Of(p.txs[0], f) + Of(p.txs[1], f)
      && Sum(p, {0, 2}, f) == Of(p.txs[0], f) + Of(p.txs[2], f)
      && Sum(p, {0, 1, 2, 3}, f) == Of(p.txs[0], f) + Of(p.txs[1], f) + Of(p.txs[2], f) + Of(p.txs[3], f)
  {
    hide *;
    DiamondIs();
    var p := Diamond();
    SumEmpty(p, f);
    SumAdd(p, {}, 0, f);
    SumAdd(p, {0}, 1, f);
    SumAdd(p, {0}, 2, f);
    SumAdd(p, {0, 1}, 2, f);
    SumAdd(p, {0, 1, 2}, 3, f);
    assert {} + {0} == {0} && {0} + {1} == {0, 1} && {0} + {2} == {0, 2} && {0, 1} + {2} == {0, 1, 2};
    assert {0, 1, 2} + {3} == {0, 1, 2, 3};
  }

  lemma DiamondEntries()
    ensures var p := Diamond();
      && FromPool(p, 0) == Entry(100, 0, 4) && FromPool(p, 1) == Entry(200, 160, 8)
      && FromPool(p, 2) == Entry(200, 160, 8) && FromPool(p, 3) == Entry(320, 320, 16)
  {
    hide Sum;
    DiamondSums(Size);
    DiamondSums(ModifiedFee);
    DiamondSums(SigOps);
    var p := Diamond();
    assert p.ancestors[0] + {0} == {0} && p.ancestors[1] + {1} == {0, 1} && p.ancestors[2] + {2} == {0, 2};
    assert p.ancestors[3] + {3} == {0, 1, 2, 3};
  }

  lemma DiamondRanked()
    ensures Ranked(Diamond())
  {
    hide FromPool;
    DiamondEntries();
    var p := Diamond();
    assert PoolScore(p, 1) == PoolScore(p, 2) == Rate(160, 200);
    assert PoolScore(p, 0) == Rate(0, 100) && PoolScore(p, 3) == Rate(0, 20);
    forall i, j | 0 <= i < j < |p.order|
      ensures Precedes(p.order[i], PoolScore(p, p.order[i]), p.order[j], PoolScore(p, p.order[j]))
    {
      assert i == 0 || i == 1 || i == 2;
      assert j == 1 || j == 2 || j == 3;
    }
  }

  /** The comment that nothing left to consider has a higher rate holds of the score, not of the rate of a
      package: here the run ends at once, at the package of 1, although the package of 3 pays what is asked. */
  lemma PayingPackageLeftOut(c: Candidate)
    requires c == Candidate(1, Figures(Diamond(), map[], {}), {}, {})
    ensures var p, t := Diamond(), Terms(8000, 1000, true);
      && WellFormed(p) && Ranked(p) && Stops(p, t, [], {}, BelowRate(c))
      && !Pays(1000, FromPool(p, 1).size, FromPool(p, 1).fees)
      && Pays(1000, FromPool(p, 3).size, FromPool(p, 3).fees)
      && !Overflows(p, t, {}, FromPool(p, 3))
  {
    hide *;
    DiamondIs();
    DiamondRanked();
    DiamondEntries();
    var p, t := Diamond(), Terms(8000, 1000, true);
    var none: map<Id, Entry> := map[];
    DiamondNotPaid();
    TracksNothing(p);
    RunBegins(p, t, {}, none);
    FiguresSized(p, {}, none, {}, map[]);
    DiamondOrder();
    NextIsForemost(p, 0, {}, none, {}, [], 0);
    IsPreferred(p, {}, none, {}, map[], [], 1);
    DiamondFits();
    EndsBelowRate(p, t, [], c);
  }

  lemma DiamondOrder()
    ensures |Diamond().order| == 4 && Diamond().order[0] == 1
  {}

  lemma DiamondFits()
    ensures !Overflows(Diamond(), Terms(8000, 1000, true), {}, Entry(320, 320, 16))
  {
    hide Sum;
    SumEmpty(Diamond(), Weight);
    SumEmpty(Diamond(), SigOps);
  }

  lemma DiamondNotPaid()
    ensures !Pays(1000, 200, 160) && Pays(1000, 320, 320)
  {}
}
