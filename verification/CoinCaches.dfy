/**
 The coin caches as linked mutable objects, each proved against the functions on views.
 */
module CoinCaches {
  import opened CoinViews
  import opened Collections

  /** A view object: a cache over `base`, or a database when there is no base. */
  class CoinsView {
    const base: CoinsView?
    var entries: Entries
    var coins: Coins
    ghost const depth: nat
    ghost const chain: set<CoinsView>

    /** The base pointers form a finite chain of distinct objects. */
    ghost predicate Linked()
      decreases depth
    {
      && this in chain
      && (base == null ==> chain == {this})
      && (base != null ==> base.depth < depth && this !in base.chain && chain == {this} + base.chain && base.Linked())
    }

    ghost function Abs(): (v: View)
      requires Linked()
      reads chain
      ensures v.Cache? <==> base != null
      decreases depth
    {
      if base == null then Db(coins) else Cache(entries, base.Abs())
    }

    constructor Database(coins: Coins)
      ensures Linked() && fresh(chain) && Abs() == Db(coins)
    {
      base := null;
      this.coins := coins;
      entries := map[];
      depth := 0;
      chain := {this};
    }

    constructor OnTop(b: CoinsView)
      requires b.Linked()
      ensures Linked() && chain == {this} + b.chain && fresh(this) && base == b
      ensures Abs() == Cache(map[], old(b.Abs()))
    {
      base := b;
      coins := map[];
      entries := map[];
      depth := b.depth + 1;
      chain := {this} + b.chain;
    }

    method GetCoin(o: OutPoint) returns (r: Option<Coin>)
      requires Linked()
      modifies chain
      ensures (Abs(), r) == CoinViews.GetCoin(old(Abs()), o)
      decreases depth, 1
    {
      if base == null {
        return if o in coins then Some(coins[o]) else None;
      }
      FetchCoin(o);
      if o in entries && !entries[o].coin.IsSpent() {
        return Some(entries[o].coin);
      }
      return None;
    }

    method FetchCoin(o: OutPoint)
      requires Linked() && base != null
      modifies chain
      ensures Abs() == Fetch(old(Abs()), o)
      decreases depth, 0
    {
      if o in entries {
        return;
      }
      var tmp := base.GetCoin(o);
      match tmp
      case None =>
      case Some(coin) =>
        entries := entries[o := Entry(coin, false, false)];
        if coin.IsSpent() {
          // the parent only has a pruned version, so ours counts as fresh
          entries := entries[o := entries[o].(isFresh := true)];
        }
    }

    method HaveCoin(o: OutPoint) returns (have: bool)
      requires Linked() && base != null && Inv(Abs())
      modifies chain
      ensures Inv(Abs()) && Levels(Abs()) == old(Levels(Abs()))
      ensures have <==> o in old(Contents(Abs()))
    {
      FetchSound(Abs(), o);
      FetchCoin(o);
      have := o in entries && !entries[o].coin.IsSpent();
    }

    method AddCoin(o: OutPoint, coin: Coin, overwrite: bool)
      requires Linked() && base != null && Inv(Abs())
      requires AddAllowed(Contents(Abs()), o, coin, overwrite)
      modifies this
      ensures Abs() == CoinViews.AddCoin(old(Abs()), o, coin, overwrite)
      ensures Inv(Abs())
      ensures !coin.IsUnspendable() ==> Contents(Abs()) == old(Contents(Abs()))[o := coin]
    {
      AddCoinSound(Abs(), o, coin, overwrite);
      if coin.IsUnspendable() {
        return;
      }
      var e := EntryOr(entries, o);
      var nowFresh := false;
      if !overwrite {
        // replacing an unspent coin would be a logic error
        assert e.coin.IsSpent();
        nowFresh := !e.isDirty;
      }
      entries := entries[o := Entry(coin, true, e.isFresh || nowFresh)];
    }

    /** Spend a coin; `found` says that there was an entry, not that it was unspent. */
    method SpendCoin(o: OutPoint) returns (found: bool, moved: Coin)
      requires Linked() && base != null && Inv(Abs())
      modifies chain
      ensures (Abs(), if found then Some(moved) else None) == CoinViews.SpendCoin(old(Abs()), o)
      ensures Inv(Abs()) && Contents(Abs()) == old(Contents(Abs())) - {o}
    {
      SpendCoinSound(Abs(), o);
      FetchCoin(o);
      if o !in entries {
        return false, EmptyCoin;
      }
      moved := entries[o].coin;
      if entries[o].isFresh {
        entries := entries - {o};
      } else {
        entries := entries[o := Entry(EmptyCoin, true, false)];
      }
      found := true;
    }

    method Uncache(o: OutPoint)
      requires Linked() && base != null
      modifies this
      ensures Abs() == CoinViews.Uncache(old(Abs()), o)
    {
      if o in entries && !entries[o].isDirty && !entries[o].isFresh {
        entries := entries - {o};
      }
    }

    /** Take over a child's entries, in any order. */
    method BatchWrite(child: Entries)
      requires Linked() && !BatchThrows(Abs(), child)
      modifies this
      ensures Abs() == CoinViews.BatchWrite(old(Abs()), child)
    {
      if base == null {
        WriteAll(child);
      } else {
        MergeEntries(child);
      }
    }

    method MergeEntries(child: Entries)
      requires forall o :: o in child ==> !MergeThrows(Find(entries, o), child[o])
      modifies `entries
      ensures entries == MergeAll(old(entries), child)
    {
      ghost var parent := entries;
      ghost var done: Entries := map[];
      var todo := child;
      MergeNone(parent);
      SplitStart(child);
      hide *;
      while todo.Keys != {}
        invariant Split(child, done, todo)
        invariant entries == MergeAll(parent, done)
        decreases |todo.Keys|
      {
        var o :| o in todo.Keys;
        SplitStep(child, done, todo, o);
        MergeAllStep(parent, done, o, todo[o]);
        WriteEntry(o, todo[o]);
        done := done[o := todo[o]];
        todo := todo - {o};
      }
      SplitEnd(child, done, todo);
    }

    method WriteEntry(o: OutPoint, c: Entry)
      requires !MergeThrows(Find(entries, o), c)
      modifies `entries
      ensures entries == Put(old(entries), o, Merge(Find(old(entries), o), c))
    {
      if !c.isDirty {
        // an entry that is not dirty is ignored
        assert entries == Put(entries, o, Find(entries, o));
        return;
      }
      if o !in entries {
        // a fresh entry that was spent again never has to reach the parent
        if !(c.isFresh && c.coin.IsSpent()) {
          entries := entries[o := Entry(c.coin, true, c.isFresh)];
        } else {
          assert entries == entries - {o};
        }
      } else {
        // a fresh entry over an unspent coin would be a logic error
        assert !(c.isFresh && !entries[o].coin.IsSpent());
        if entries[o].isFresh && c.coin.IsSpent() {
          entries := entries - {o};
        } else {
          entries := entries[o := Entry(c.coin, true, entries[o].isFresh)];
        }
      }
    }

    /** The database's version of a batch write. */
    method WriteAll(child: Entries)
      modifies `coins
      ensures coins == WriteDb(old(coins), child)
    {
      ghost var before := coins;
      ghost var done: Entries := map[];
      var todo := child;
      WriteNone(before);
      SplitStart(child);
      hide *;
      while todo.Keys != {}
        invariant Split(child, done, todo)
        invariant coins == WriteDb(before, done)
        decreases |todo.Keys|
      {
        var o :| o in todo.Keys;
        var c := todo[o];
        SplitStep(child, done, todo, o);
        WriteDbStep(before, done, o, c);
        if c.isDirty {
          if c.coin.IsSpent() {
            coins := coins - {o};
          } else {
            coins := coins[o := c.coin];
          }
        }
        done := done[o := c];
        todo := todo - {o};
      }
      SplitEnd(child, done, todo);
    }

    /** Push the changes down; the view stays what it was, and the base now shows it too. */
    method Flush()
      requires Linked() && base != null && Inv(Abs())
      modifies chain
      ensures Abs() == CoinViews.Flush(old(Abs()), 0)
      ensures Inv(Abs()) && Contents(Abs()) == Contents(base.Abs()) == old(Contents(Abs()))
    {
      ghost var v := Abs();
      BatchWriteSound(v.base, v.entries);
      FlushTop(v.entries, v.base);
      base.BatchWrite(entries);
      entries := map[];
    }
  }

  /** `done` and `todo` partition `child`. */
  ghost predicate Split(child: Entries, done: Entries, todo: Entries) {
    && (forall p :: p in child <==> p in done || p in todo)
    && (forall p :: p in done ==> p !in todo && p in child && done[p] == child[p])
    && (forall p :: p in todo ==> p in child && todo[p] == child[p])
  }

  lemma SplitStart(child: Entries)
    ensures Split(child, map[], child)
  {}

  lemma SplitStep(child: Entries, done: Entries, todo: Entries, o: OutPoint)
    requires Split(child, done, todo) && o in todo
    ensures o !in done && o in child && todo[o] == child[o]
    ensures Split(child, done[o := todo[o]], todo - {o})
    ensures |(todo - {o}).Keys| < |todo.Keys|
  {
    assert (todo - {o}).Keys == todo.Keys - {o};
  }

  lemma SplitEnd(child: Entries, done: Entries, todo: Entries)
    requires Split(child, done, todo) && todo.Keys == {}
    ensures done == child
  {}

  lemma MergeNone(parent: Entries)
    ensures MergeAll(parent, map[]) == parent
  {}

  lemma WriteNone(coins: Coins)
    ensures WriteDb(coins, map[]) == coins
  {}

  lemma MergeAllStep(parent: Entries, done: Entries, o: OutPoint, c: Entry)
    requires o !in done
    ensures Find(MergeAll(parent, done), o) == Find(parent, o)
    ensures MergeAll(parent, done[o := c]) == Put(MergeAll(parent, done), o, Merge(Find(parent, o), c))
  {
    hide Merge;
    var m := Merge(Find(parent, o), c);
    forall p | p != o && p in done ensures done[o := c][p] == done[p] {}
  }

  lemma WriteDbStep(before: Coins, done: Entries, o: OutPoint, c: Entry)
    requires o !in done
    ensures WriteDb(before, done[o := c]) ==
      if !c.isDirty then WriteDb(before, done)
      else if c.coin.IsSpent() then WriteDb(before, done) - {o} else WriteDb(before, done)[o := c.coin]
  {}
}
