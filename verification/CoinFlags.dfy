/**
 What the FRESH flag saves: an entry is FRESH exactly if the base shows no such coin, so that a coin
 created and spent between two flushes leaves no trace and the base is told nothing of it.
 */
module CoinFlags {
  import opened Collections
  import opened CoinViews

  /** FRESH tells exactly that the base shows no such coin, and a FRESH entry is never a pending deletion. */
  ghost predicate FlagExact(e: Entry, o: OutPoint, below: Coins) {
    (e.isFresh <==> o !in below) && (e.isFresh && e.isDirty ==> !e.coin.IsSpent())
  }

  ghost predicate LayerExact(entries: Entries, below: Coins) {
    forall o :: o in entries ==> FlagExact(entries[o], o, below)
  }

  ghost predicate Exact(v: View) {
    match v
    case Db(_) => true
    case Cache(entries, base) => Exact(base) && LayerExact(entries, Contents(base))
  }

  // ----- every operation but a blind overwrite keeps the flags exact

  lemma {:induction false} GetCoinExact(v: View, o: OutPoint)
    requires Inv(v) && Exact(v)
    ensures Exact(GetCoin(v, o).0)
    decreases v, 1
  {
    if v.Cache? {
      FetchExact(v, o);
    }
  }

  lemma {:induction false} FetchExact(v: View, o: OutPoint)
    requires v.Cache? && Inv(v) && Exact(v)
    ensures Exact(Fetch(v, o)) && Contents(Fetch(v, o).base) == Contents(v.base)
    decreases v, 0
  {
    if o !in v.entries {
      GetCoinExact(v.base, o);
      GetCoinSound(v.base, o);
    }
  }

  /** The one way to lose exactness: overwriting, unseen, a coin the base does not show. */
  predicate Blind(v: View, o: OutPoint, coin: Coin, overwrite: bool)
    requires v.Cache?
  {
    overwrite && !coin.IsUnspendable() && o !in v.entries && o !in Contents(v.base)
  }

  lemma AddCoinExact(v: View, o: OutPoint, coin: Coin, overwrite: bool)
    requires v.Cache? && Inv(v) && Exact(v) && AddAllowed(Contents(v), o, coin, overwrite)
    ensures !AddThrows(v, o, coin, overwrite)
    ensures Exact(AddCoin(v, o, coin, overwrite)) <==> !Blind(v, o, coin, overwrite)
  {
    AddCoinSound(v, o, coin, overwrite);
    var u := AddCoin(v, o, coin, overwrite);
    if !coin.IsUnspendable() {
      assert FlagExact(u.entries[o], o, Contents(v.base)) <==> !Blind(v, o, coin, overwrite) by {
        if o in v.entries {
          assert EntryOk(v.entries[o], o, Contents(v.base)) && FlagExact(v.entries[o], o, Contents(v.base));
        }
      }
    }
  }

  lemma SpendCoinExact(v: View, o: OutPoint)
    requires v.Cache? && Inv(v) && Exact(v)
    ensures Exact(SpendCoin(v, o).0)
  {
    hide Contents;
    FetchExact(v, o);
  }

  lemma {:induction false} UncacheAtExact(v: View, level: nat, o: OutPoint)
    requires Inv(v) && Exact(v)
    ensures Exact(UncacheAt(v, level, o))
  {
    if v.Cache? && level > 0 {
      UncacheAtExact(v.base, level - 1, o);
      UncacheAtSound(v.base, level - 1, o);
    }
  }

  lemma MergeExact(parent: Entries, child: Entry, o: OutPoint, below: Coins)
    requires o in parent ==> EntryOk(parent[o], o, below) && FlagExact(parent[o], o, below)
    requires EntryOk(child, o, Over(parent, below)) && FlagExact(child, o, Over(parent, below))
    ensures var m := Merge(Find(parent, o), child); m.Some? ==> FlagExact(m.value, o, below)
  {}

  lemma MergeAllExact(parent: Entries, child: Entries, below: Coins)
    requires LayerOk(parent, below) && LayerExact(parent, below)
    requires LayerOk(child, Over(parent, below)) && LayerExact(child, Over(parent, below))
    ensures LayerExact(MergeAll(parent, child), below)
  {
    hide Merge;
    hide EntryOk;
    hide FlagExact;
    hide Over;
    var m := MergeAll(parent, child);
    forall o | o in m ensures FlagExact(m[o], o, below) {
      if o in child {
        MergeExact(parent, child[o], o, below);
      }
    }
  }

  lemma {:induction false} FlushExact(v: View, level: nat)
    requires Inv(v) && Exact(v)
    ensures Exact(Flush(v, level))
  {
    hide LayerOk;
    hide Over;
    if v.Cache? {
      if level > 0 {
        FlushExact(v.base, level - 1);
        FlushSound(v.base, level - 1);
      } else if v.base.Cache? {
        MergeAllExact(v.base.entries, v.entries, Contents(v.base.base));
      }
    }
  }

  // ----- whole runs

  predicate BlindOp(v: View, op: Op) {
    op.OpAdd? && v.Cache? && Blind(v, op.o, op.coin, op.overwrite)
  }

  /** An operation keeps the flags of every level exact if and only if it is not a blind overwrite. */
  lemma ApplyExact(v: View, op: Op)
    requires Inv(v) && Exact(v) && Allowed(Levels(v), op)
    ensures op.OpAdd? ==> v.Cache? && !AddThrows(v, op.o, op.coin, op.overwrite)
    ensures op.OpSpend? || op.OpPop? ==> v.Cache?
    ensures Exact(Apply(v, op)) <==> !BlindOp(v, op)
  {
    hide Flush;
    hide UncacheAt;
    hide GetCoin;
    hide SpendCoin;
    hide LayerOk;
    hide LayerExact;
    CacheHasLevels(v);
    match op
    case OpGet(o) => GetCoinExact(v, o);
    case OpAdd(o, coin, overwrite) => AddCoinExact(v, o, coin, overwrite);
    case OpSpend(o) => SpendCoinExact(v, o);
    case OpUncache(level, o) => UncacheAtExact(v, level, o);
    case OpFlush(level) => FlushExact(v, level);
    case OpPush => NoEntries(Contents(v));
    case OpPop =>
  }

  lemma NoEntries(below: Coins)
    ensures LayerExact(map[], below)
  {}

  /** On every run without a blind overwrite the flags of every level stay exact. */
  lemma {:induction false} RunExact(views: seq<View>, levels: seq<seq<Coins>>, ops: seq<Op>, k: nat)
    requires PlainRun(levels, ops) && CacheRun(views, ops) && k <= |ops|
    requires Inv(views[0]) && Exact(views[0]) && Levels(views[0]) == levels[0]
    requires forall i :: 0 <= i < k ==> !BlindOp(views[i], ops[i])
    ensures Inv(views[k]) && Exact(views[k])
  {
    if k > 0 {
      RunExact(views, levels, ops, k - 1);
      RunRefinesPlainMaps(views, levels, ops, k - 1);
      RunRefinesPlainMaps(views, levels, ops, k);
      assert Allowed(levels[k - 1], ops[k - 1]);
      ApplyExact(views[k - 1], ops[k - 1]);
    }
  }

  // ----- what is saved

  /** Where neither the base nor the cache shows a coin, a flush tells the base nothing: leaving the entry
      out gives the same base. Every deletion it does send is of a coin the base shows. */
  lemma NothingSent(v: View, o: OutPoint)
    requires v.Cache? && Inv(v) && Exact(v) && o !in Contents(v)
    ensures o !in Contents(v.base) ==> BatchWrite(v.base, v.entries) == BatchWrite(v.base, v.entries - {o})
    ensures o in v.entries && v.entries[o].isDirty ==> o in Contents(v.base)
  {
    if o in v.entries {
      assert EntryOk(v.entries[o], o, Contents(v.base)) && FlagExact(v.entries[o], o, Contents(v.base));
      if !v.entries[o].isDirty {
        CleanSendsNothing(v.base, v.entries, o);
      }
    } else {
      assert v.entries - {o} == v.entries;
    }
  }

  lemma CleanSendsNothing(v: View, child: Entries, o: OutPoint)
    requires o in child && !child[o].isDirty
    ensures BatchWrite(v, child) == BatchWrite(v, child - {o})
  {
    match v
    case Db(coins) => assert WriteDb(coins, child) == WriteDb(coins, child - {o});
    case Cache(entries, _) => assert MergeAll(entries, child) == MergeAll(entries, child - {o});
  }

  /** A coin that was nowhere and is added and spent leaves no entry, whatever the other flags are. */
  lemma AddedAndSpent(v: View, o: OutPoint, coin: Coin)
    requires v.Cache? && Inv(v) && o !in Contents(v) && o !in v.entries
    requires !coin.IsSpent() && !coin.IsUnspendable()
    ensures !AddThrows(v, o, coin, false)
    ensures SpendCoin(AddCoin(v, o, coin, false), o) == (v, Some(coin))
    ensures SpendCoin(v, o).1.Some? <==> HoldsSpent(v, o)
  {
    var u := AddCoin(v, o, coin, false);
    assert Fetch(u, o) == u;
    assert u.entries - {o} == v.entries;
    SpendReports(v, o);
  }

  /** So a coin added and spent right after a flush leaves the next flush nothing to send. */
  lemma FlushedBetween(v: View, o: OutPoint, coin: Coin)
    requires v.Cache? && Inv(v) && o !in Contents(v) && !coin.IsSpent() && !coin.IsUnspendable()
    ensures Inv(Flush(v, 0)) && Flush(v, 0).Cache? && !AddThrows(Flush(v, 0), o, coin, false)
    ensures Flush(SpendCoin(AddCoin(Flush(v, 0), o, coin, false), o).0, 0).base == BatchWrite(Flush(v, 0).base, map[])
    ensures Contents(BatchWrite(Flush(v, 0).base, map[])) == Contents(v)
  {
    hide BatchWrite;
    hide Contents;
    FlushSound(v, 0);
    AddedAndSpent(Flush(v, 0), o, coin);
    FlushTop(v.entries, v.base);
    FlushTop(map[], Flush(v, 0).base);
    OverNothing(Contents(Flush(v, 0).base));
  }

  /** Uncaching undoes the filling of a cache by a lookup, exactly if the lookup did not come upon a pruned
      coin in a database right under it. */
  lemma UncacheUndoesFetch(v: View, o: OutPoint)
    requires v.Cache? && Inv(v) && o !in v.entries
    ensures Uncache(Fetch(v, o), o).entries == v.entries <==> !HoldsSpent(v, o)
  {
    GetCoinSound(v.base, o);
    var u := Fetch(v, o);
    if o in u.entries {
      assert u.entries - {o} == v.entries;
    }
  }

  // ----- coins that nobody can spend

  /** The output may be spent by someone: its script is at most 10,000 bytes and does not begin with 0x6a. */
  ghost predicate Spendable(coin: Coin) {
    |coin.out.script| <= 10000 && (coin.out.script != [] ==> coin.out.script[0] != 0x6a)
  }

  ghost predicate AllSpendable(levels: seq<Coins>) {
    forall i, o :: 0 <= i < |levels| && o in levels[i] ==> Spendable(levels[i][o])
  }

  /** Adding shows the coin exactly if it may be spent. */
  lemma AddedIfSpendable(v: View, o: OutPoint, coin: Coin, overwrite: bool)
    requires v.Cache? && Inv(v) && AddAllowed(Contents(v), o, coin, overwrite)
    ensures !AddThrows(v, o, coin, overwrite)
    ensures var u := AddCoin(v, o, coin, overwrite);
      if Spendable(coin) then Contents(u) == Contents(v)[o := coin] else u == v
  {
    AddCoinSound(v, o, coin, overwrite);
  }

  /** So no level of any run ever shows a coin that nobody can spend, if none did at first. */
  lemma {:induction false} RunSpendable(levels: seq<seq<Coins>>, ops: seq<Op>, k: nat)
    requires PlainRun(levels, ops) && k <= |ops| && AllSpendable(levels[0])
    ensures AllSpendable(levels[k])
  {
    if k > 0 {
      RunSpendable(levels, ops, k - 1);
      assert Allowed(levels[k - 1], ops[k - 1]);
      StepSpendable(levels[k - 1], ops[k - 1]);
    }
  }

  lemma StepSpendable(levels: seq<Coins>, op: Op)
    requires Allowed(levels, op) && AllSpendable(levels)
    ensures AllSpendable(Plain(levels, op))
  {}
}
