/**
 The stack of unspent-output caches. Each cache keeps DIRTY and FRESH flags so that it can
 drop entries; this module shows that every level of the stack nevertheless behaves as a
 plain map from outpoints to coins.
 */
module CoinViews {
  import opened Collections

  datatype OutPoint = OutPoint(txid: int, n: nat)

  datatype TxOut = TxOut(value: int, script: seq<nat>)

  const OP_RETURN: nat := 0x6a
  const MAX_SCRIPT_SIZE: nat := 10000

  datatype Coin = Coin(out: TxOut, coinBase: bool, height: nat) {
    predicate IsSpent() { out.value == -1 }

    predicate IsUnspendable() {
      (|out.script| > 0 && out.script[0] == OP_RETURN) || |out.script| > MAX_SCRIPT_SIZE
    }
  }

  const EmptyCoin := Coin(TxOut(-1, []), false, 0)

  /** A cached coin. DIRTY: possibly different from the base. FRESH: the base has no unspent version. */
  datatype Entry = Entry(coin: Coin, isDirty: bool, isFresh: bool)

  type Entries = map<OutPoint, Entry>
  type Coins = map<OutPoint, Coin>

  /** A database, possibly still holding pruned coins, under any number of caches. */
  datatype View = Db(coins: Coins) | Cache(entries: Entries, base: View)

  /** What a cache layer shows over the unspent coins below it. */
  function Over(entries: Entries, below: Coins): Coins {
    map o | o in entries.Keys + below.Keys && (o in entries ==> !entries[o].coin.IsSpent()) ::
      if o in entries then entries[o].coin else below[o]
  }

  /** The unspent coins a view shows. */
  function Contents(v: View): Coins {
    match v
    case Db(coins) => map o | o in coins && !coins[o].IsSpent() :: coins[o]
    case Cache(entries, base) => Over(entries, Contents(base))
  }

  /** Contents of every level, the database first. */
  function Levels(v: View): (r: seq<Coins>)
    ensures r != [] && r[|r| - 1] == Contents(v)
  {
    match v
    case Db(_) => [Contents(v)]
    case Cache(_, base) => Levels(base) + [Contents(v)]
  }

  /** What the flags promise about an entry, given the contents of the base. */
  ghost predicate EntryOk(e: Entry, o: OutPoint, below: Coins) {
    && (!e.isDirty ==> if e.coin.IsSpent() then o !in below else o in below && below[o] == e.coin)
    && (e.isFresh ==> o !in below)
  }

  ghost predicate LayerOk(entries: Entries, below: Coins) {
    forall o :: o in entries ==> EntryOk(entries[o], o, below)
  }

  ghost predicate Inv(v: View) {
    match v
    case Db(_) => true
    case Cache(entries, base) => Inv(base) && LayerOk(entries, Contents(base))
  }

  // ----- operations

  /** Look a coin up, filling the caches on the way. A database may answer with a pruned coin. */
  function GetCoin(v: View, o: OutPoint): (r: (View, Option<Coin>))
    ensures v.Cache? <==> r.0.Cache?
    decreases v, 1
  {
    match v
    case Db(coins) => (v, if o in coins then Some(coins[o]) else None)
    case Cache(_, _) =>
      var u := Fetch(v, o);
      (u, if o in u.entries && !u.entries[o].coin.IsSpent() then Some(u.entries[o].coin) else None)
  }

  /** Make sure the cache has an entry for the outpoint if the base knows it. */
  function Fetch(v: View, o: OutPoint): (u: View)
    requires v.Cache?
    ensures u.Cache?
    decreases v, 0
  {
    if o in v.entries then v else
      var (base, r) := GetCoin(v.base, o);
      match r
      case None => Cache(v.entries, base)
      case Some(coin) => Cache(v.entries[o := Entry(coin, false, coin.IsSpent())], base)
  }

  function EntryOr(entries: Entries, o: OutPoint): Entry {
    if o in entries then entries[o] else Entry(EmptyCoin, false, false)
  }

  /** AddCoin throws when told that nothing is overwritten and the cache holds an unspent coin. */
  predicate AddThrows(v: View, o: OutPoint, coin: Coin, overwrite: bool)
    requires v.Cache?
  {
    !coin.IsUnspendable() && !overwrite && !EntryOr(v.entries, o).coin.IsSpent()
  }

  function AddCoin(v: View, o: OutPoint, coin: Coin, overwrite: bool): (u: View)
    requires v.Cache? && !AddThrows(v, o, coin, overwrite)
    ensures u.Cache?
  {
    if coin.IsUnspendable() then v else
      var e := EntryOr(v.entries, o);
      var nowFresh := !overwrite && !e.isDirty;
      Cache(v.entries[o := Entry(coin, true, e.isFresh || nowFresh)], v.base)
  }

  /** Spend a coin; the result is what the entry held, or None when there was no entry. */
  function SpendCoin(v: View, o: OutPoint): (r: (View, Option<Coin>))
    requires v.Cache?
    ensures r.0.Cache?
  {
    var u := Fetch(v, o);
    if o !in u.entries then (u, None) else
      (Cache(Spent(u.entries, o), u.base), Some(u.entries[o].coin))
  }

  /** A cache's entries once the coin is spent there: a fresh entry goes, another stays as spent. */
  function Spent(entries: Entries, o: OutPoint): Entries
    requires o in entries
  {
    if entries[o].isFresh then entries - {o} else entries[o := Entry(EmptyCoin, true, false)]
  }

  function Uncache(v: View, o: OutPoint): (u: View)
    requires v.Cache?
    ensures u.Cache?
  {
    if o in v.entries && !v.entries[o].isDirty && !v.entries[o].isFresh
    then Cache(v.entries - {o}, v.base) else v
  }

  /** What one child entry turns the parent's entry for the same outpoint into. */
  function Merge(parent: Option<Entry>, child: Entry): Option<Entry> {
    if !child.isDirty then parent
    else if parent.None? then
      if child.isFresh && child.coin.IsSpent() then None else Some(Entry(child.coin, true, child.isFresh))
    else
      if parent.value.isFresh && child.coin.IsSpent() then None
      else Some(Entry(child.coin, true, parent.value.isFresh))
  }

  /** Writing an entry throws when it is FRESH but the parent holds an unspent coin. */
  predicate MergeThrows(parent: Option<Entry>, child: Entry) {
    child.isDirty && child.isFresh && parent.Some? && !parent.value.coin.IsSpent()
  }

  function Find(entries: Entries, o: OutPoint): Option<Entry> {
    if o in entries then Some(entries[o]) else None
  }

  function Put(entries: Entries, o: OutPoint, e: Option<Entry>): Entries {
    match e
    case None => entries - {o}
    case Some(x) => entries[o := x]
  }

  function MergeAll(parent: Entries, child: Entries): Entries {
    map o | o in parent.Keys + child.Keys && (o in child ==> Merge(Find(parent, o), child[o]).Some?) ::
      if o in child then Merge(Find(parent, o), child[o]).value else parent[o]
  }

  function WriteDb(coins: Coins, child: Entries): Coins {
    map o | o in coins.Keys + child.Keys && (o in child && child[o].isDirty ==> !child[o].coin.IsSpent())
            && (o in child && !child[o].isDirty ==> o in coins) ::
      if o in child && child[o].isDirty then child[o].coin else coins[o]
  }

  predicate BatchThrows(v: View, child: Entries) {
    v.Cache? && exists o :: o in child && MergeThrows(Find(v.entries, o), child[o])
  }

  function BatchWrite(v: View, child: Entries): (u: View)
    ensures u.Cache? <==> v.Cache?
  {
    match v
    case Db(coins) => Db(WriteDb(coins, child))
    case Cache(entries, base) => Cache(MergeAll(entries, child), base)
  }

  /** Flush the cache `level` levels below the top. */
  function Flush(v: View, level: nat): (u: View)
    ensures u.Cache? <==> v.Cache?
  {
    match v
    case Db(_) => v
    case Cache(entries, base) =>
      if level == 0 then Cache(map[], BatchWrite(base, entries)) else Cache(entries, Flush(base, level - 1))
  }

  // ----- single layers

  lemma OverFill(entries: Entries, below: Coins, o: OutPoint, e: Entry)
    requires o !in entries && EntryOk(e, o, below) && !e.isDirty
    ensures Over(entries[o := e], below) == Over(entries, below)
  {}

  lemma OverSet(entries: Entries, below: Coins, o: OutPoint, e: Entry)
    ensures Over(entries[o := e], below) ==
            if e.coin.IsSpent() then Over(entries, below) - {o} else Over(entries, below)[o := e.coin]
  {}

  lemma OverDrop(entries: Entries, below: Coins, o: OutPoint)
    ensures o !in below ==> Over(entries - {o}, below) == Over(entries, below) - {o}
    ensures o in entries && EntryOk(entries[o], o, below) && !entries[o].isDirty ==>
      Over(entries - {o}, below) == Over(entries, below)
  {}

  // ----- looking up changes no level's contents

  lemma {:induction false} GetCoinSound(v: View, o: OutPoint)
    requires Inv(v)
    ensures var (u, r) := GetCoin(v, o);
      && Inv(u) && Levels(u) == Levels(v)
      && (o in Contents(v) ==> r == Some(Contents(v)[o]))
      && (o !in Contents(v) ==> r.None? || (v.Db? && r.value.IsSpent()))
    decreases v, 1
  {
    if v.Cache? {
      FetchSound(v, o);
    }
  }

  lemma {:induction false} FetchSound(v: View, o: OutPoint)
    requires v.Cache? && Inv(v)
    ensures var u := Fetch(v, o);
      && Inv(u) && Levels(u) == Levels(v) && Levels(u.base) == Levels(v.base)
      && (o in u.entries || o !in Contents(v))
    decreases v, 0
  {
    if o !in v.entries {
      GetCoinSound(v.base, o);
      var (base, r) := GetCoin(v.base, o);
      assert Contents(base) == Contents(v.base);
      if r.Some? {
        OverFill(v.entries, Contents(base), o, Entry(r.value, false, r.value.IsSpent()));
      }
    }
  }

  // ----- updates of the top cache

  /** The caller's contract: without `overwrite`, the view shows no unspent coin there. */
  predicate AddAllowed(m: Coins, o: OutPoint, coin: Coin, overwrite: bool) {
    !coin.IsSpent() && (overwrite || coin.IsUnspendable() || o !in m)
  }

  lemma AddCoinSound(v: View, o: OutPoint, coin: Coin, overwrite: bool)
    requires v.Cache? && Inv(v) && AddAllowed(Contents(v), o, coin, overwrite)
    ensures !AddThrows(v, o, coin, overwrite)
    ensures var u := AddCoin(v, o, coin, overwrite);
      && Inv(u) && u.base == v.base
      && Contents(u) == if coin.IsUnspendable() then Contents(v) else Contents(v)[o := coin]
  {
    var u := AddCoin(v, o, coin, overwrite);
    if !coin.IsUnspendable() {
      OverSet(v.entries, Contents(v.base), o, u.entries[o]);
    }
  }

  lemma SpendCoinSound(v: View, o: OutPoint)
    requires v.Cache? && Inv(v)
    ensures var (u, r) := SpendCoin(v, o);
      && Inv(u) && Levels(u.base) == Levels(v.base)
      && Contents(u) == Contents(v) - {o}
      && (o in Contents(v) ==> r == Some(Contents(v)[o]))
      && (r.Some? && !r.value.IsSpent() ==> o in Contents(v))
  {
    hide Fetch;
    hide Spent;
    hide Over;
    hide LayerOk;
    FetchSound(v, o);
    var f := Fetch(v, o);
    assert Contents(f) == Contents(v);
    if o in f.entries {
      SpentLayer(f.entries, Contents(f.base), o);
    } else {
      assert Contents(v) - {o} == Contents(v);
    }
  }

  lemma SpentLayer(entries: Entries, below: Coins, o: OutPoint)
    requires LayerOk(entries, below) && o in entries
    ensures LayerOk(Spent(entries, o), below) && Over(Spent(entries, o), below) == Over(entries, below) - {o}
    ensures o in Over(entries, below) <==> !entries[o].coin.IsSpent()
    ensures o in Over(entries, below) ==> Over(entries, below)[o] == entries[o].coin
  {
    OverDrop(entries, below, o);
    OverSet(entries, below, o, Entry(EmptyCoin, true, false));
  }

  /** A spent coin stands where the next lookup finds it: in the cache, or pruned in a database
      directly under it. */
  predicate HoldsSpent(v: View, o: OutPoint)
    requires v.Cache?
  {
    if o in v.entries then v.entries[o].coin.IsSpent()
    else v.base.Db? && o in v.base.coins && v.base.coins[o].IsSpent()
  }

  /** SpendCoin reports success exactly for an unspent coin or a spent one that is still held ... */
  lemma SpendReports(v: View, o: OutPoint)
    requires v.Cache? && Inv(v)
    ensures SpendCoin(v, o).1.Some? <==> o in Contents(v) || HoldsSpent(v, o)
  {
    hide LayerOk;
    if o !in v.entries {
      GetCoinSound(v.base, o);
    }
  }

  /** ... so its answer tells whether the coin was unspent exactly when no spent one is held. */
  lemma SpendTellsUnspent(v: View, o: OutPoint)
    requires v.Cache? && Inv(v)
    ensures (SpendCoin(v, o).1.Some? <==> o in Contents(v)) <==> !HoldsSpent(v, o)
  {
    hide LayerOk;
    SpendReports(v, o);
  }

  /** Spending a coin of the database twice through one cache succeeds both times. */
  lemma SpentTwice(o: OutPoint, coin: Coin)
    requires !coin.IsSpent()
    ensures var v := Cache(map[], Db(map[o := coin]));
      var (u, first) := SpendCoin(v, o); var second := SpendCoin(u, o).1;
      Inv(v) && first == Some(coin) && o !in Contents(u) && second == Some(EmptyCoin)
  {
    var v := Cache(map[], Db(map[o := coin]));
    assert Fetch(v, o) == Cache(map[o := Entry(coin, false, false)], v.base);
    SpendCoinSound(v, o);
  }

  lemma UncacheSound(v: View, o: OutPoint)
    requires v.Cache? && Inv(v)
    ensures Inv(Uncache(v, o)) && Uncache(v, o).base == v.base && Contents(Uncache(v, o)) == Contents(v)
  {
    OverDrop(v.entries, Contents(v.base), o);
  }

  // ----- flushing

  /** A merged entry keeps the flag promises and shows what the child's entry showed. */
  ghost predicate MergedOk(m: Option<Entry>, child: Entry, o: OutPoint, below: Coins) {
    match m
    case Some(e) => EntryOk(e, o, below) && if child.coin.IsSpent() then e.coin.IsSpent() else e.coin == child.coin
    case None => if child.coin.IsSpent() then o !in below else o in below && below[o] == child.coin
  }

  lemma MergeSound(parent: Entries, child: Entry, o: OutPoint, below: Coins)
    requires o in parent ==> EntryOk(parent[o], o, below)
    requires EntryOk(child, o, Over(parent, below))
    ensures !MergeThrows(Find(parent, o), child)
    ensures MergedOk(Merge(Find(parent, o), child), child, o, below)
  {}

  lemma MergedShows(parent: Entries, child: Entries, below: Coins)
    requires LayerOk(parent, below)
    requires forall o :: o in child ==> MergedOk(Merge(Find(parent, o), child[o]), child[o], o, below)
    ensures LayerOk(MergeAll(parent, child), below)
    ensures Over(MergeAll(parent, child), below) == Over(child, Over(parent, below))
  {
    hide Merge;
    hide EntryOk;
    var m := MergeAll(parent, child);
    forall o | o in m ensures EntryOk(m[o], o, below) {
      if o in child {
        assert MergedOk(Merge(Find(parent, o), child[o]), child[o], o, below);
      }
    }
  }

  /** Merging child entries shows, over the grandparent, what the child showed over the parent. */
  lemma MergeAllSound(parent: Entries, child: Entries, below: Coins)
    requires LayerOk(parent, below) && LayerOk(child, Over(parent, below))
    ensures forall o :: o in child ==> !MergeThrows(Find(parent, o), child[o])
    ensures LayerOk(MergeAll(parent, child), below)
    ensures Over(MergeAll(parent, child), below) == Over(child, Over(parent, below))
  {
    hide Merge;
    hide MergedOk;
    hide EntryOk;
    hide Over;
    hide MergeAll;
    forall o | o in child
      ensures !MergeThrows(Find(parent, o), child[o])
      ensures MergedOk(Merge(Find(parent, o), child[o]), child[o], o, below)
    {
      assert EntryOk(child[o], o, Over(parent, below));
      MergeSound(parent, child[o], o, below);
    }
    MergedShows(parent, child, below);
  }

  lemma WriteDbSound(coins: Coins, child: Entries)
    requires LayerOk(child, Contents(Db(coins)))
    ensures Contents(Db(WriteDb(coins, child))) == Over(child, Contents(Db(coins)))
  {
    forall o | o in child ensures EntryOk(child[o], o, Contents(Db(coins))) {}
  }

  /** A batch write throws nothing and makes the parent show what the child showed. */
  lemma BatchWriteSound(v: View, child: Entries)
    requires Inv(v) && LayerOk(child, Contents(v))
    ensures !BatchThrows(v, child)
    ensures var u := BatchWrite(v, child); Inv(u) && Contents(u) == Over(child, Contents(v))
    ensures v.Cache? ==> BatchWrite(v, child).base == v.base
  {
    match v
    case Db(coins) => WriteDbSound(coins, child);
    case Cache(entries, base) => MergeAllSound(entries, child, Contents(base));
  }

  /** Drop an unmodified entry of the cache `level` levels below the top. */
  function UncacheAt(v: View, level: nat, o: OutPoint): View {
    match v
    case Db(_) => v
    case Cache(entries, base) => if level == 0 then Uncache(v, o) else Cache(entries, UncacheAt(base, level - 1, o))
  }

  /** Flushing a level makes the level under it show the same; no other level changes. */
  function FlushLevels(levels: seq<Coins>, level: nat): seq<Coins> {
    if level + 1 < |levels| then levels[|levels| - 2 - level := levels[|levels| - 1 - level]] else levels
  }

  lemma FlushTop(entries: Entries, base: View)
    requires Inv(base) && LayerOk(entries, Contents(base))
    ensures var u := BatchWrite(base, entries);
      && Inv(Cache(map[], u)) && Contents(Cache(map[], u)) == Contents(u) == Over(entries, Contents(base))
      && Levels(u) == Levels(base)[|Levels(base)| - 1 := Contents(u)]
  {
    hide BatchWrite;
    hide Over;
    BatchWriteSound(base, entries);
    OverNothing(Contents(BatchWrite(base, entries)));
  }

  lemma OverNothing(below: Coins)
    ensures Over(map[], below) == below
  {}

  lemma {:induction false} FlushSound(v: View, level: nat)
    requires Inv(v)
    ensures Inv(Flush(v, level)) && Levels(Flush(v, level)) == FlushLevels(Levels(v), level)
    ensures Contents(Flush(v, level)) == Contents(v)
  {
    hide LayerOk;
    hide Over;
    if v.Cache? {
      if level == 0 {
        FlushTop(v.entries, v.base);
        hide BatchWrite;
      } else {
        FlushSound(v.base, level - 1);
      }
    }
  }

  lemma {:induction false} UncacheAtSound(v: View, level: nat, o: OutPoint)
    requires Inv(v)
    ensures Inv(UncacheAt(v, level, o)) && Levels(UncacheAt(v, level, o)) == Levels(v)
  {
    if v.Cache? {
      if level == 0 {
        UncacheSound(v, o);
      } else {
        UncacheAtSound(v.base, level - 1, o);
      }
    }
  }

  // ----- whole runs

  datatype Op =
    | OpGet(o: OutPoint)
    | OpAdd(o: OutPoint, coin: Coin, overwrite: bool)
    | OpSpend(o: OutPoint)
    | OpUncache(level: nat, o: OutPoint)
    | OpFlush(level: nat)
    | OpPush
    | OpPop

  /** The caller's obligations, read off the plain maps alone. */
  predicate Allowed(levels: seq<Coins>, op: Op) {
    && levels != []
    && match op
       case OpAdd(o, coin, overwrite) => |levels| > 1 && AddAllowed(levels[|levels| - 1], o, coin, overwrite)
       case OpSpend(_) => |levels| > 1
       case OpPop => |levels| > 1
       case _ => true
  }

  /** What an operation does to the stack of plain maps. */
  function Plain(levels: seq<Coins>, op: Op): seq<Coins>
    requires Allowed(levels, op)
  {
    var top := |levels| - 1;
    match op
    case OpGet(_) => levels
    case OpAdd(o, coin, _) => if coin.IsUnspendable() then levels else levels[top := levels[top][o := coin]]
    case OpSpend(o) => levels[top := levels[top] - {o}]
    case OpUncache(_, _) => levels
    case OpFlush(level) => FlushLevels(levels, level)
    case OpPush => levels + [levels[top]]
    case OpPop => levels[..top]
  }

  /** What it does to the stack of caches. */
  function Apply(v: View, op: Op): View
    requires op.OpAdd? ==> v.Cache? && !AddThrows(v, op.o, op.coin, op.overwrite)
    requires op.OpSpend? || op.OpPop? ==> v.Cache?
  {
    match op
    case OpGet(o) => GetCoin(v, o).0
    case OpAdd(o, coin, overwrite) => AddCoin(v, o, coin, overwrite)
    case OpSpend(o) => SpendCoin(v, o).0
    case OpUncache(level, o) => UncacheAt(v, level, o)
    case OpFlush(level) => Flush(v, level)
    case OpPush => Cache(map[], v)
    case OpPop => v.base
  }

  lemma CacheHasLevels(v: View)
    ensures v.Cache? <==> |Levels(v)| > 1
  {}

  lemma PushSound(v: View)
    requires Inv(v)
    ensures Inv(Cache(map[], v)) && Levels(Cache(map[], v)) == Levels(v) + [Contents(v)]
  {
    OverNothing(Contents(v));
  }

  /** One operation: no exception is possible, and the caches track the plain maps. */
  lemma ApplySound(v: View, op: Op)
    requires Inv(v) && Allowed(Levels(v), op)
    ensures op.OpAdd? ==> v.Cache? && !AddThrows(v, op.o, op.coin, op.overwrite)
    ensures op.OpSpend? || op.OpPop? ==> v.Cache?
    ensures Inv(Apply(v, op)) && Levels(Apply(v, op)) == Plain(Levels(v), op)
  {
    hide LayerOk;
    hide Over;
    hide GetCoin;
    hide SpendCoin;
    hide Flush;
    hide UncacheAt;
    CacheHasLevels(v);
    match op
    case OpGet(o) => GetCoinSound(v, o);
    case OpAdd(o, coin, overwrite) => AddCoinSound(v, o, coin, overwrite);
    case OpSpend(o) => SpendCoinSound(v, o);
    case OpUncache(level, o) => UncacheAtSound(v, level, o);
    case OpFlush(level) => FlushSound(v, level);
    case OpPush => PushSound(v);
    case OpPop => assert Levels(v)[..|Levels(v)| - 1] == Levels(v.base);
  }

  /** `levels` is a run of plain maps under `ops`, each within the caller's obligations. */
  ghost predicate PlainRun(levels: seq<seq<Coins>>, ops: seq<Op>) {
    && |levels| == |ops| + 1
    && forall k :: 0 <= k < |ops| ==> Allowed(levels[k], ops[k]) && levels[k + 1] == Plain(levels[k], ops[k])
  }

  /** `views` is the same run on the caches. */
  ghost predicate CacheRun(views: seq<View>, ops: seq<Op>) {
    && |views| == |ops| + 1
    && forall k {:trigger ops[k]} :: 0 <= k < |ops| ==>
         && (ops[k].OpAdd? ==> views[k].Cache? && !AddThrows(views[k], ops[k].o, ops[k].coin, ops[k].overwrite))
         && (ops[k].OpSpend? || ops[k].OpPop? ==> views[k].Cache?)
         ==> views[k + 1] == Apply(views[k], ops[k])
  }

  /** On every run that starts consistently, every level of the stack equals its plain map
      after every step. */
  lemma {:induction false} RunRefinesPlainMaps(views: seq<View>, levels: seq<seq<Coins>>, ops: seq<Op>, k: nat)
    requires PlainRun(levels, ops) && CacheRun(views, ops) && k <= |ops|
    requires Inv(views[0]) && Levels(views[0]) == levels[0]
    ensures Inv(views[k]) && Levels(views[k]) == levels[k]
  {
    if k > 0 {
      RunRefinesPlainMaps(views, levels, ops, k - 1);
      assert Allowed(levels[k - 1], ops[k - 1]);
      ApplySound(views[k - 1], ops[k - 1]);
    }
  }
}
