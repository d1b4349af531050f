/**
 Loading what was saved: nothing is lost, the result is consistent, and it is the saved
 manager up to renumbering ids, the random order and the memory-only fields.
 */
module AddrRoundTrip {
  import opened AddrTables
  import opened AddrSave
  import opened Collections
  import Clocks = AddrClocks
  import Ops = AddrOps
  import Runs = AddrRuns

  // ----- the enumeration of ids

  lemma {:induction false} IdsBelowSorted(infos: map<int, AddrInfo>, n: nat, tried: bool)
    ensures forall i, j :: 0 <= i < j < |IdsBelow(infos, n, tried)| ==>
        IdsBelow(infos, n, tried)[i] < IdsBelow(infos, n, tried)[j]
  {
    if n > 0 {
      IdsBelowSorted(infos, n - 1, tried);
      IdsBelowIn(infos, n - 1, tried);
    }
  }

  /** A picked id stands at the position given by the number of picked ids below it. */
  lemma {:induction false} IdsBelowAt(infos: map<int, AddrInfo>, n: nat, tried: bool, id: nat)
    requires id in infos && Pick(infos[id], tried) && id < n
    ensures var r := IdsBelow(infos, n, tried); var k := |IdsBelow(infos, id, tried)|; k < |r| && r[k] == id
  {
    if id < n - 1 {
      IdsBelowAt(infos, n - 1, tried, id);
    }
  }

  lemma {:induction false} IdsBelowSize(infos: map<int, AddrInfo>, n: nat, tried: bool)
    ensures |IdsBelow(infos, n, tried)| == |set id | id in infos && 0 <= id < n && Pick(infos[id], tried)|
  {
    var picked := set id | id in infos && 0 <= id < n && Pick(infos[id], tried);
    if n > 0 {
      IdsBelowSize(infos, n - 1, tried);
      var before := set id | id in infos && 0 <= id < n - 1 && Pick(infos[id], tried);
      if n - 1 in infos && Pick(infos[n - 1], tried) {
        assert picked == before + {n - 1};
      } else {
        assert picked == before;
      }
    } else {
      assert picked == {};
    }
  }

  ghost function NewList(s: Tables): seq<int>
    requires s.nextId >= 0
  {
    IdsBelow(s.infos, s.nextId, false)
  }

  ghost function TriedList(s: Tables): seq<int>
    requires s.nextId >= 0
  {
    IdsBelow(s.infos, s.nextId, true)
  }

  ghost function TriedIndex(s: Tables, id: int): nat {
    if id < 0 then 0 else |IdsBelow(s.infos, id, true)|
  }

  /** The two lists enumerate the untried and the tried entries, and the indexes invert them. */
  ghost predicate Listed(s: Tables) {
    && s.nextId >= 0
    && |NewList(s)| == s.newCount
    && |TriedList(s)| == s.triedCount
    && (forall k :: 0 <= k < |NewList(s)| ==>
          var id := NewList(s)[k]; id in s.infos && !s.infos[id].inTried && Index(s, id) == k)
    && (forall k :: 0 <= k < |TriedList(s)| ==>
          var id := TriedList(s)[k]; id in s.infos && s.infos[id].inTried && TriedIndex(s, id) == k)
    && (forall id :: id in s.infos && !s.infos[id].inTried ==>
          Index(s, id) < |NewList(s)| && NewList(s)[Index(s, id)] == id)
    && (forall id :: id in s.infos && s.infos[id].inTried ==>
          TriedIndex(s, id) < |TriedList(s)| && TriedList(s)[TriedIndex(s, id)] == id)
  }

  lemma IdsBelowIndex(infos: map<int, AddrInfo>, n: nat, tried: bool, k: nat)
    requires k < |IdsBelow(infos, n, tried)|
    ensures var id := IdsBelow(infos, n, tried)[k]; id >= 0 && |IdsBelow(infos, id, tried)| == k
  {
    IdsBelowIn(infos, n, tried);
    IdsBelowSorted(infos, n, tried);
    var r := IdsBelow(infos, n, tried);
    IdsBelowAt(infos, n, tried, r[k]);
    var j := |IdsBelow(infos, r[k], tried)|;
    assert j < k || j == k || k < j;
  }

  function Picked(infos: map<int, AddrInfo>, tried: bool): set<int> {
    set id | id in infos && Pick(infos[id], tried)
  }

  /** IdsBelow lists every picked entry once, at its index. */
  lemma Enumerates(infos: map<int, AddrInfo>, n: nat, tried: bool)
    requires forall id :: id in infos ==> 0 <= id < n
    ensures |IdsBelow(infos, n, tried)| == |Picked(infos, tried)|
    ensures forall k :: 0 <= k < |IdsBelow(infos, n, tried)| ==>
      var id := IdsBelow(infos, n, tried)[k];
        id in infos && Pick(infos[id], tried) && id >= 0 && |IdsBelow(infos, id, tried)| == k
    ensures forall id :: id in infos && Pick(infos[id], tried) ==>
      |IdsBelow(infos, id, tried)| < |IdsBelow(infos, n, tried)|
        && IdsBelow(infos, n, tried)[|IdsBelow(infos, id, tried)|] == id
  {
    IdsBelowSize(infos, n, tried);
    assert Picked(infos, tried) == set id | id in infos && 0 <= id < n && Pick(infos[id], tried);
    IdsBelowIn(infos, n, tried);
    forall k | 0 <= k < |IdsBelow(infos, n, tried)|
      ensures |IdsBelow(infos, IdsBelow(infos, n, tried)[k], tried)| == k
    {
      IdsBelowIndex(infos, n, tried, k);
    }
    forall id | id in infos && Pick(infos[id], tried)
      ensures |IdsBelow(infos, id, tried)| < |IdsBelow(infos, n, tried)|
        && IdsBelow(infos, n, tried)[|IdsBelow(infos, id, tried)|] == id
    {
      IdsBelowAt(infos, n, tried, id);
    }
  }

  lemma PickedIds(infos: map<int, AddrInfo>, tried: bool)
    requires forall id :: id in infos ==> (infos[id].refCount != 0 <==> !infos[id].inTried)
    ensures Picked(infos, tried) == if tried then TriedIds(infos) else NewIds(infos)
  {
    forall id ensures id in Picked(infos, tried) <==> id in if tried then TriedIds(infos) else NewIds(infos) {}
  }

  lemma CountFacts(s: Tables)
    requires Inv(s)
    ensures s.nextId >= 0 && forall id :: id in s.infos ==> 0 <= id < s.nextId
    ensures forall id :: id in s.infos ==> (Pick(s.infos[id], false) <==> !s.infos[id].inTried)
    ensures s.newCount == |Picked(s.infos, false)|
    ensures s.triedCount == |Picked(s.infos, true)|
  {
    assert forall id :: id in s.infos ==> (s.infos[id].refCount != 0 <==> !s.infos[id].inTried);
    PickedIds(s.infos, false);
    PickedIds(s.infos, true);
  }

  lemma ListedFromInv(s: Tables)
    requires Inv(s)
    ensures Listed(s)
  {
    hide Inv;
    hide IdsBelow;
    CountFacts(s);
    Enumerates(s.infos, s.nextId, false);
    Enumerates(s.infos, s.nextId, true);
  }

  // ----- the untried entries

  /** `t` holds exactly the first `k` untried entries of `s`, renumbered, without references. */
  ghost predicate EntriesLoaded(s: Tables, t: Tables, k: nat)
    requires Listed(s) && k <= |NewList(s)|
  {
    && (forall n :: n in t.infos <==> 0 <= n < k)
    && (forall n :: 0 <= n < k ==> t.infos[n] == Restore(Save(s.infos[NewList(s)[n]]), n))
    && |t.order| == k
    && (forall n :: 0 <= n < k ==> t.order[n] == n)
    && (forall n :: 0 <= n < k ==> s.infos[NewList(s)[n]].Addr() in t.ids && t.ids[s.infos[NewList(s)[n]].Addr()] == n)
    && (forall a :: a in t.ids ==> 0 <= t.ids[a] < k && s.infos[NewList(s)[t.ids[a]]].Addr() == a)
  }

  /** Distinct entries have distinct addresses. */
  ghost predicate DistinctEntries(s: Tables) {
    forall i, j :: i in s.infos && j in s.infos && s.infos[i].Addr() == s.infos[j].Addr() ==> i == j
  }

  lemma EntriesStep(s: Tables, t: Tables, k: nat)
    requires Listed(s) && DistinctEntries(s) && k < |NewList(s)| && EntriesLoaded(s, t, k) && |t.newTable| == NEW_SLOTS
    ensures EntriesLoaded(s, LoadEntry(t, k, Save(s.infos[NewList(s)[k]]), true), k + 1)
  {
    var id := NewList(s)[k];
    var u := LoadEntry(t, k, Save(s.infos[id]), true);
    forall n | 0 <= n < k ensures s.infos[NewList(s)[n]].Addr() != s.infos[id].Addr() {
      assert Index(s, NewList(s)[n]) == n;
    }
  }

  lemma {:induction false} EntriesLoad(s: Tables, t: Tables, svs: seq<Saved>)
    requires Listed(s) && DistinctEntries(s) && |svs| <= |NewList(s)| && |t.newTable| == NEW_SLOTS
    requires forall k :: 0 <= k < |svs| ==> svs[k] == Save(s.infos[NewList(s)[k]])
    requires EntriesLoaded(s, t, 0)
    ensures var u := LoadEntries(t, svs, true);
      EntriesLoaded(s, u, |svs|) && u == t.(infos := u.infos, ids := u.ids, order := u.order)
  {
    hide Listed;
    hide EntriesLoaded;
    if svs != [] {
      var k := |svs| - 1;
      EntriesLoad(s, t, svs[..k]);
      EntriesStep(s, LoadEntries(t, svs[..k], true), k);
    }
  }

  // ----- the tried entries

  /** `t` also holds the first `k` tried entries of `s`. */
  ghost predicate AllLoaded(s: Tables, t: Tables, k: nat)
    requires Listed(s) && k <= |TriedList(s)|
  {
    var N := |NewList(s)|;
    && t.nextId == N + k
    && (forall n :: n in t.infos <==> 0 <= n < N + k)
    && (forall n :: 0 <= n < N ==> t.infos[n] == Restore(Save(s.infos[NewList(s)[n]]), n))
    && (forall j :: 0 <= j < k ==> t.infos[N + j] == Restore(Save(s.infos[TriedList(s)[j]]), N + j).(inTried := true))
    && |t.order| == N + k
    && (forall n :: 0 <= n < N + k ==> t.order[n] == n)
    && (forall n :: 0 <= n < N + k ==> t.infos[n].Addr() in t.ids && t.ids[t.infos[n].Addr()] == n)
    && (forall a :: a in t.ids ==> 0 <= t.ids[a] < N + k && t.infos[t.ids[a]].Addr() == a)
  }

  /** ... each in its own slot. */
  ghost predicate TriedLoaded(s: Tables, t: Tables, k: nat)
    requires Listed(s) && k <= |TriedList(s)| && |t.triedTable| == |s.triedTable| == TRIED_SLOTS
  {
    && AllLoaded(s, t, k)
    && (forall i :: 0 <= i < TRIED_SLOTS ==> t.triedTable[i] == TriedValue(s, s.triedTable[i], k))
  }

  /** Saving forgets only memory-only fields, so an entry keeps its service. */
  lemma SaveKeepsService(info: AddrInfo, pos: int)
    ensures Restore(Save(info), pos).Svc() == info.Svc()
  {}

  lemma TriedStart(s: Tables, t: Tables)
    requires Listed(s) && EntriesLoaded(s, t, |NewList(s)|) && t.nextId == |NewList(s)|
    requires |t.triedTable| == |s.triedTable| == TRIED_SLOTS && forall i :: 0 <= i < TRIED_SLOTS ==>
        t.triedTable[i] == -1
    ensures TriedLoaded(s, t, 0)
  {}

  /** The value the loaded "tried" table holds where the saved one holds `id`. */
  ghost function TriedValue(s: Tables, id: int, k: nat): int
    requires s.nextId >= 0
  {
    if id != -1 && TriedIndex(s, id) < k then |NewList(s)| + TriedIndex(s, id) else -1
  }

  lemma TriedStep(s: Tables, t: Tables, k: nat)
    requires Listed(s) && DistinctEntries(s) && TriedInv(s) && -1 !in s.infos
    requires k < |TriedList(s)| && |t.triedTable| == TRIED_SLOTS && TriedLoaded(s, t, k) && t.h == s.h && t.key == s.key
    ensures var u := LoadTriedOne(t, Save(s.infos[TriedList(s)[k]]));
      TriedLoaded(s, u, k + 1) && u == t.(infos := u.infos, ids := u.ids, order := u.order,
                                          triedTable := u.triedTable, nextId := u.nextId)
  {
    hide IdsBelow;
    TriedFreshAddr(s, t, k);
    TriedStepTable(s, t, k);
    var id := TriedList(s)[k];
    SaveKeepsService(s.infos[id], 0);
    TriedStepEntries(s, t, LoadTriedOne(t, Save(s.infos[id])), k);
  }

  lemma TriedStepEntries(s: Tables, t: Tables, u: Tables, k: nat)
    requires Listed(s) && k < |TriedList(s)| && AllLoaded(s, t, k)
    requires var info := s.infos[TriedList(s)[k]];
      && info.Addr() !in t.ids
      && u.infos == t.infos[t.nextId := Restore(Save(info), |t.order|).(inTried := true)]
      && u.ids == t.ids[info.Addr() := t.nextId]
    requires u.order == t.order + [t.nextId] && u.nextId == t.nextId + 1
    ensures AllLoaded(s, u, k + 1)
  {
    hide Listed;
    hide IdsBelow;
  }

  /** The next tried entry's address is not indexed yet. */
  lemma TriedFreshAddr(s: Tables, t: Tables, k: nat)
    requires Listed(s) && DistinctEntries(s)
    requires k < |TriedList(s)| && |t.triedTable| == |s.triedTable| == TRIED_SLOTS && TriedLoaded(s, t, k)
    ensures s.infos[TriedList(s)[k]].Addr() !in t.ids
  {
    hide IdsBelow;
    var a := s.infos[TriedList(s)[k]].Addr();
    var N := |NewList(s)|;
    forall n | 0 <= n < N + k ensures t.infos[n].Addr() != a {
      if n < N {
        assert NewList(s)[n] != TriedList(s)[k];
      } else {
        var j := n - N;
        assert TriedIndex(s, TriedList(s)[j]) == j;
        assert t.infos[N + j].Addr() == s.infos[TriedList(s)[j]].Addr();
      }
    }
  }

  lemma TriedStepTable(s: Tables, t: Tables, k: nat)
    requires Listed(s) && TriedInv(s) && -1 !in s.infos
    requires k < |TriedList(s)| && |t.triedTable| == TRIED_SLOTS
    requires forall i :: 0 <= i < TRIED_SLOTS ==> t.triedTable[i] == TriedValue(s, s.triedTable[i], k)
    ensures var id := TriedList(s)[k]; var slot := TriedSlot(s.h, s.key, s.infos[id].Svc());
      && t.triedTable[slot] == -1
      && forall i :: 0 <= i < TRIED_SLOTS ==>
           t.triedTable[slot := |NewList(s)| + k][i] == TriedValue(s, s.triedTable[i], k + 1)
  {
    hide IdsBelow;
    var id := TriedList(s)[k];
    var slot := TriedSlot(s.h, s.key, s.infos[id].Svc());
    assert s.triedTable[slot] == id && TriedIndex(s, id) == k && id != -1;
    forall i | 0 <= i < TRIED_SLOTS && s.triedTable[i] != -1 && i != slot ensures TriedIndex(s, s.triedTable[i]) != k {
      assert s.triedTable[i] in s.infos && s.infos[s.triedTable[i]].inTried;
      assert TriedList(s)[TriedIndex(s, s.triedTable[i])] == s.triedTable[i];
    }
  }

  lemma {:induction false} TriedLoad(s: Tables, t: Tables, svs: seq<Saved>)
    requires Listed(s) && DistinctEntries(s) && TriedInv(s) && -1 !in s.infos
    requires |svs| <= |TriedList(s)| && |t.triedTable| == TRIED_SLOTS && t.h == s.h && t.key == s.key
    requires forall k :: 0 <= k < |svs| ==> svs[k] == Save(s.infos[TriedList(s)[k]])
    requires TriedLoaded(s, t, 0)
    ensures var u := LoadTried(t, svs);
      && TriedLoaded(s, u, |svs|)
      && u == t.(infos := u.infos, ids := u.ids, order := u.order, triedTable := u.triedTable, nextId := u.nextId)
  {
    if svs != [] {
      hide Listed;
      hide TriedLoaded;
      hide LoadTriedOne;
      var k := |svs| - 1;
      TriedLoad(s, t, svs[..k]);
      TriedStep(s, LoadTried(t, svs[..k]), k);
    }
  }

  // ----- the bucket lists

  /** The value the loaded "new" table holds where the saved one holds `id`. */
  ghost function NewValue(s: Tables, id: int): int {
    if id == -1 then -1 else Index(s, id)
  }

  /** `t` has the references of the first `m` "new" slots of `s`; nothing else of `t0` changed. */
  ghost predicate SlotsLoaded(s: Tables, t0: Tables, t: Tables, m: nat)
    requires Listed(s) && |s.newTable| == |t.newTable| == NEW_SLOTS
  {
    && t == t0.(infos := t.infos, newTable := t.newTable)
    && t.infos.Keys == t0.infos.Keys
    && (forall i :: 0 <= i < NEW_SLOTS ==> t.newTable[i] == if i < m then NewValue(s, s.newTable[i]) else -1)
    && (forall n :: n in t.infos ==>
          t.infos[n] == t0.infos[n].(refCount := if n < |NewList(s)| then |Slots(t.newTable, n)| else 0))
  }

  /** What the slot walk relies on: `t0` knows the untried entries of `s` by their indexes. */
  ghost predicate Indexed(s: Tables, t0: Tables)
    requires Listed(s)
  {
    && t0.h == s.h && t0.key == s.key && t0.newCount == |NewList(s)|
    && (forall n :: 0 <= n < |NewList(s)| ==> n in t0.infos && t0.infos[n].Svc() == s.infos[NewList(s)[n]].Svc())
  }

  ghost predicate Ready(s: Tables, t0: Tables) {
    Listed(s) && NewInv(s) && EntryInv(s, {}) && Indexed(s, t0) && (forall i :: i in t0.infos ==> i >= 0)
  }

  /** An entry's references so far are those of its saved slots already walked. */
  lemma SlotsSoFar(s: Tables, t0: Tables, t: Tables, m: nat)
    requires Listed(s) && NewInv(s) && EntryInv(s, {}) && |t.newTable| == NEW_SLOTS && SlotsLoaded(s, t0, t, m)
    requires m < NEW_SLOTS && s.newTable[m] != -1
    ensures |Slots(t.newTable, Index(s, s.newTable[m]))| < MAX_REFS
  {
    hide IdsBelow;
    var id := s.newTable[m];
    var n := Index(s, id);
    forall i | i in Slots(t.newTable, n) ensures i in Slots(s.newTable, id) - {m} {
      assert i < m && s.newTable[i] != -1 && Index(s, s.newTable[i]) == n;
      assert NewList(s)[Index(s, s.newTable[i])] == s.newTable[i];
    }
    assert m in Slots(s.newTable, id);
    SubsetSize(Slots(t.newTable, n), Slots(s.newTable, id) - {m});
  }

  lemma SlotStep(s: Tables, t0: Tables, t: Tables, m: nat)
    requires Listed(s) && Ready(s, t0)
    requires |s.newTable| == |t.newTable| == NEW_SLOTS && SlotsLoaded(s, t0, t, m) && m < NEW_SLOTS
      && s.newTable[m] != -1
    ensures SlotsLoaded(s, t0, LoadIndex(t, m / BUCKET_SIZE, Index(s, s.newTable[m])), m + 1)
  {
    hide IdsBelow;
    var id := s.newTable[m];
    var n := Index(s, id);
    SlotsSoFar(s, t0, t, m);
    assert n < |NewList(s)| && NewList(s)[n] == id;
    assert t.infos[n].Svc() == s.infos[id].Svc();
    assert t.infos[n].refCount == |Slots(t.newTable, n)|;
    assert LoadIndex(t, m / BUCKET_SIZE, n) == Link(t, m, n);
    hide EntryInv;
    SlotsLink(t.newTable, m, n);
    SlotLinked(s, t0, t, m, n);
  }

  lemma SlotLinked(s: Tables, t0: Tables, t: Tables, m: nat, n: nat)
    requires Listed(s) && |s.newTable| == |t.newTable| == NEW_SLOTS && SlotsLoaded(s, t0, t, m)
    requires m < NEW_SLOTS && s.newTable[m] != -1 && n == Index(s, s.newTable[m]) < |NewList(s)| && n in t.infos
    requires forall i :: i in t.infos ==> i >= 0
    ensures SlotsLoaded(s, t0, Link(t, m, n), m + 1)
  {
    hide Listed;
    hide IdsBelow;
    SlotsLink(t.newTable, m, n);
  }

  lemma SlotSkipped(s: Tables, t0: Tables, t: Tables, m: nat)
    requires Listed(s) && |s.newTable| == |t.newTable| == NEW_SLOTS && SlotsLoaded(s, t0, t, m)
    requires m < NEW_SLOTS && s.newTable[m] == -1
    ensures SlotsLoaded(s, t0, t, m + 1)
  {
    hide Listed;
    hide IdsBelow;
  }

  /** Loading the list of a bucket's first `n` positions loads those slots. */
  lemma {:induction false} BucketLoad(s: Tables, t0: Tables, t: Tables, b: nat, n: nat)
    requires Listed(s) && Ready(s, t0) && |s.newTable| == |t.newTable| == NEW_SLOTS
    requires b < NEW_BUCKETS && n <= BUCKET_SIZE && SlotsLoaded(s, t0, t, b * BUCKET_SIZE)
    ensures SlotsLoaded(s, t0, LoadBucket(t, b, BucketList(s, b, n)), b * BUCKET_SIZE + n)
  {
    hide Listed;
    hide Ready;
    hide SlotsLoaded;
    hide LoadIndex;
    hide Index;
    if n > 0 {
      BucketLoad(s, t0, t, b, n - 1);
      var m := b * BUCKET_SIZE + n - 1;
      var list := BucketList(s, b, n - 1);
      var u := LoadBucket(t, b, list);
      if s.newTable[m] == -1 {
        assert list + [] == list;
        SlotSkipped(s, t0, u, m);
      } else {
        assert m / BUCKET_SIZE == b;
        var more := list + [Index(s, s.newTable[m])];
        assert more[..|more| - 1] == list;
        SlotStep(s, t0, u, m);
      }
    }
  }

  lemma {:induction false} BucketsLoad(s: Tables, t0: Tables, buckets: seq<seq<int>>, n: nat)
    requires Listed(s) && Ready(s, t0)
    requires |s.newTable| == |t0.newTable| == NEW_SLOTS && SlotsLoaded(s, t0, t0, 0)
    requires n <= NEW_BUCKETS == |buckets| && forall b :: 0 <= b < n ==> buckets[b] == BucketList(s, b, BUCKET_SIZE)
    ensures SlotsLoaded(s, t0, LoadBuckets(t0, buckets, n), n * BUCKET_SIZE)
  {
    hide Listed;
    hide Ready;
    hide SlotsLoaded;
    hide LoadBucket;
    hide BucketList;
    if n > 0 {
      BucketsLoad(s, t0, buckets, n - 1);
      BucketLoad(s, t0, LoadBuckets(t0, buckets, n - 1), n - 1, BUCKET_SIZE);
      assert (n - 1) * BUCKET_SIZE + BUCKET_SIZE == n * BUCKET_SIZE;
    }
  }

  /** Nothing is pruned when every untried entry has a reference. */
  lemma {:induction false} PruneNothing(t: Tables, n: nat)
    requires forall i :: i in t.infos ==> t.infos[i].inTried || t.infos[i].refCount != 0
    ensures Prune(t, n) == t
  {
    if n > 0 {
      PruneNothing(t, n - 1);
    }
  }

  // ----- the round trip

  /** The id an entry has after loading. */
  ghost function Renumber(s: Tables, id: int): int
    requires Listed(s) && id in s.infos
  {
    if s.infos[id].inTried then |NewList(s)| + TriedIndex(s, id) else Index(s, id)
  }

  ghost function RenumberSlot(s: Tables, id: int): int
    requires Listed(s)
  {
    if id in s.infos then Renumber(s, id) else -1
  }

  /** The entry a reload makes of one: its id is new and memory-only fields are fresh. */
  function Refreshed(info: AddrInfo, id: int): AddrInfo {
    info.(lastTry := 0, lastCountAttempt := 0, randomPos := id)
  }

  /** `t` is `s` with its ids renumbered and its memory-only fields reset. */
  ghost predicate Reloaded(s: Tables, t: Tables)
    requires Listed(s)
  {
    && t.h == s.h && t.key == s.key && t.newCount == s.newCount && t.triedCount == s.triedCount
    && (forall i, j :: i in s.infos && j in s.infos && Renumber(s, i) == Renumber(s, j) ==> i == j)
    && (forall id :: id in s.infos ==>
          Renumber(s, id) in t.infos && t.infos[Renumber(s, id)] == Refreshed(s.infos[id], Renumber(s, id)))
    && (forall n :: n in t.infos ==> exists id :: id in s.infos && Renumber(s, id) == n)
    && t.ids.Keys == s.ids.Keys
    && (forall a :: a in s.ids && s.ids[a] in s.infos ==> t.ids[a] == Renumber(s, s.ids[a]))
    && |t.newTable| == |s.newTable| && |t.triedTable| == |s.triedTable|
    && (forall i :: 0 <= i < |s.newTable| ==> t.newTable[i] == RenumberSlot(s, s.newTable[i]))
    && (forall i :: 0 <= i < |s.triedTable| ==> t.triedTable[i] == RenumberSlot(s, s.triedTable[i]))
  }

  // ----- a reload is consistent

  lemma ReloadedSlots(s: Tables, t: Tables, id: int)
    requires Listed(s) && Reloaded(s, t) && NewInv(s) && id in s.infos && -1 !in s.infos
    requires forall i :: i in s.infos ==> Renumber(s, i) >= 0
    ensures Slots(t.newTable, Renumber(s, id)) == Slots(s.newTable, id)
  {
    hide IdsBelow;
    hide Listed;
    hide Renumber;
    forall i: nat ensures i in Slots(t.newTable, Renumber(s, id)) <==> i in Slots(s.newTable, id) {
      if i < NEW_SLOTS {
        assert t.newTable[i] == RenumberSlot(s, s.newTable[i]);
      }
    }
  }

  lemma ReloadedNewInv(s: Tables, t: Tables)
    requires Listed(s) && Reloaded(s, t) && NewInv(s) && -1 !in s.infos
    ensures NewInv(t)
  {
    hide IdsBelow;
    hide Listed;
    hide Renumber;
    forall i | 0 <= i < NEW_SLOTS && t.newTable[i] != -1
      ensures t.newTable[i] in t.infos && !t.infos[t.newTable[i]].inTried
      ensures i == NewSlot(t.h, t.key, t.infos[t.newTable[i]].Svc(), i / BUCKET_SIZE)
    {
      var id := s.newTable[i];
      assert t.newTable[i] == RenumberSlot(s, id);
      assert t.infos[Renumber(s, id)] == Refreshed(s.infos[id], Renumber(s, id));
    }
  }

  lemma ReloadedTriedInv(s: Tables, t: Tables)
    requires Listed(s) && Reloaded(s, t) && TriedInv(s) && -1 !in s.infos
    ensures TriedInv(t)
  {
    hide IdsBelow;
    hide Listed;
    hide Renumber;
    forall i | 0 <= i < TRIED_SLOTS && t.triedTable[i] != -1
      ensures t.triedTable[i] in t.infos && t.infos[t.triedTable[i]].inTried
      ensures i == TriedSlot(t.h, t.key, t.infos[t.triedTable[i]].Svc())
    {
      var id := s.triedTable[i];
      assert t.triedTable[i] == RenumberSlot(s, id);
      assert t.infos[Renumber(s, id)] == Refreshed(s.infos[id], Renumber(s, id));
    }
    forall n | n in t.infos && t.infos[n].inTried
      ensures t.triedTable[TriedSlot(t.h, t.key, t.infos[n].Svc())] == n
    {
      var id :| id in s.infos && Renumber(s, id) == n;
      assert t.infos[n] == Refreshed(s.infos[id], n);
      assert s.triedTable[TriedSlot(s.h, s.key, s.infos[id].Svc())] == id;
    }
  }

  lemma ReloadedEntryInv(s: Tables, t: Tables)
    requires Listed(s) && Reloaded(s, t) && NewInv(s) && EntryInv(s, {}) && -1 !in s.infos
    requires forall i :: i in s.infos ==> Renumber(s, i) >= 0
    ensures EntryInv(t, {})
  {
    hide IdsBelow;
    hide Listed;
    hide NewInv;
    hide Renumber;
    forall n | n in t.infos ensures EntryOk(t.infos[n], |Slots(t.newTable, n)|, false) {
      var id :| id in s.infos && Renumber(s, id) == n;
      assert t.infos[n] == Refreshed(s.infos[id], n);
      assert EntryOk(s.infos[id], |Slots(s.newTable, id)|, false);
      ReloadedSlots(s, t, id);
    }
  }

  lemma {:induction false} ImageSize(s: Tables, ids: set<int>, image: set<int>)
    requires Listed(s) && forall id :: id in ids ==> id in s.infos
    requires forall i, j :: i in ids && j in ids && Renumber(s, i) == Renumber(s, j) ==> i == j
    requires forall n :: n in image <==> exists id :: id in ids && Renumber(s, id) == n
    ensures |image| == |ids|
  {
    if ids == {} {
      assert forall n :: n !in image;
      assert image == {};
    } else {
      var x := Member(ids);
      assert Renumber(s, x) in image;
      forall n ensures n in image - {Renumber(s, x)} <==> exists id :: id in ids - {x} && Renumber(s, id) == n {
        if n in image - {Renumber(s, x)} {
          var id :| id in ids && Renumber(s, id) == n;
          assert id in ids - {x};
        }
      }
      ImageSize(s, ids - {x}, image - {Renumber(s, x)});
    }
  }

  lemma ReloadedSide(s: Tables, t: Tables, tried: bool)
    requires Listed(s) && Reloaded(s, t)
    ensures var side := m => if tried then TriedIds(m) else NewIds(m); |side(t.infos)| == |side(s.infos)|
  {
    hide IdsBelow;
    hide Listed;
    hide Renumber;
    var ids := if tried then TriedIds(s.infos) else NewIds(s.infos);
    var image := if tried then TriedIds(t.infos) else NewIds(t.infos);
    forall n ensures n in image <==> exists id :: id in ids && Renumber(s, id) == n {
      if n in image {
        var id :| id in s.infos && Renumber(s, id) == n;
        assert t.infos[n] == Refreshed(s.infos[id], n);
        assert id in ids;
      }
      if id :| id in ids && Renumber(s, id) == n {
        assert t.infos[n] == Refreshed(s.infos[id], n);
      }
    }
    ImageSize(s, ids, image);
  }

  /** A reload of a consistent manager with a consistent index is consistent. */
  lemma ReloadedInv(s: Tables, t: Tables)
    requires Listed(s) && Reloaded(s, t) && Inv(s) && IndexInv(t)
    requires forall i :: i in s.infos ==> Renumber(s, i) >= 0
    ensures Inv(t)
  {
    assert -1 !in s.infos && s.newCount == |NewIds(s.infos)| && s.triedCount == |TriedIds(s.infos)|;
    hide Listed;
    hide IndexInv;
    hide Reloaded;
    hide NewInv;
    hide TriedInv;
    hide EntryInv;
    hide Renumber;
    ReloadedNewInv(s, t);
    ReloadedTriedInv(s, t);
    ReloadedEntryInv(s, t);
    ReloadedCounts(s, t);
  }

  /** Times in order stay so: the last try is forgotten, the last success is saved. */
  lemma ReloadedClocked(s: Tables, t: Tables)
    requires Listed(s) && Reloaded(s, t) && Clocks.Clocked(s)
    ensures Clocks.Clocked(t)
  {
    hide Listed;
    hide Renumber;
    forall n | n in t.infos ensures Clocks.EntryClocked(t.infos[n]) {
      var id :| id in s.infos && Renumber(s, id) == n;
      assert t.infos[n] == Refreshed(s.infos[id], n);
    }
  }

  lemma ReloadedCounts(s: Tables, t: Tables)
    requires Listed(s) && Reloaded(s, t) && CountInv(s, 0)
    ensures CountInv(t, 0)
  {
    ReloadedSide(s, t, true);
    ReloadedSide(s, t, false);
  }

  // ----- loading a dump of `s` reloads `s`

  lemma ReloadedEntries(s: Tables, r: Tables, t: Tables)
    requires Listed(s) && Inv(s) && |s.newTable| == |t.newTable| == NEW_SLOTS
      && |r.triedTable| == |s.triedTable| == TRIED_SLOTS
    requires TriedLoaded(s, r, |TriedList(s)|) && SlotsLoaded(s, r, t, NEW_SLOTS)
    ensures forall id :: id in s.infos ==>
      Renumber(s, id) in t.infos && t.infos[Renumber(s, id)] == Refreshed(s.infos[id], Renumber(s, id))
  {
    forall id | id in s.infos
      ensures Renumber(s, id) in t.infos && t.infos[Renumber(s, id)] == Refreshed(s.infos[id], Renumber(s, id))
    {
      if s.infos[id].inTried {
        ReloadedTriedEntry(s, r, t, id);
      } else {
        ReloadedNewEntry(s, r, t, id);
      }
    }
  }

  lemma ReloadedTriedEntry(s: Tables, r: Tables, t: Tables, id: int)
    requires Listed(s) && EntryInv(s, {}) && |s.newTable| == |t.newTable| == NEW_SLOTS
    requires |r.triedTable| == |s.triedTable| == TRIED_SLOTS
    requires TriedLoaded(s, r, |TriedList(s)|) && SlotsLoaded(s, r, t, NEW_SLOTS)
    requires id in s.infos && s.infos[id].inTried
    ensures Renumber(s, id) in t.infos && t.infos[Renumber(s, id)] == Refreshed(s.infos[id], Renumber(s, id))
  {
    hide IdsBelow;
    var j := TriedIndex(s, id);
    assert TriedList(s)[j] == id;
    assert r.infos[|NewList(s)| + j] == Restore(Save(s.infos[id]), |NewList(s)| + j).(inTried := true);
    assert s.infos[id].refCount == 0;
  }

  lemma ReloadedNewEntry(s: Tables, r: Tables, t: Tables, id: int)
    requires Listed(s) && EntryInv(s, {}) && NewInv(s) && -1 !in s.infos && |t.newTable| == NEW_SLOTS
    requires |r.triedTable| == |s.triedTable| == TRIED_SLOTS
    requires TriedLoaded(s, r, |TriedList(s)|) && SlotsLoaded(s, r, t, NEW_SLOTS)
    requires id in s.infos && !s.infos[id].inTried
    ensures Renumber(s, id) in t.infos && t.infos[Renumber(s, id)] == Refreshed(s.infos[id], Renumber(s, id))
  {
    hide IdsBelow;
    var n := Index(s, id);
    assert NewList(s)[n] == id;
    assert r.infos[n] == Restore(Save(s.infos[id]), n);
    forall i: nat ensures i in Slots(t.newTable, n) <==> i in Slots(s.newTable, id) {
      if i < NEW_SLOTS {
        assert t.newTable[i] == NewValue(s, s.newTable[i]);
        if s.newTable[i] != -1 {
          assert NewList(s)[Index(s, s.newTable[i])] == s.newTable[i];
        }
      }
    }
    assert Slots(t.newTable, n) == Slots(s.newTable, id);
  }

  /** Every loaded id is the renumbering of a saved one, uniquely. */
  lemma RenumberBijection(s: Tables, n: int)
    requires Listed(s)
    ensures 0 <= n < |NewList(s)| + |TriedList(s)| ==> exists id :: id in s.infos && Renumber(s, id) == n
    ensures forall i, j :: i in s.infos && j in s.infos && Renumber(s, i) == Renumber(s, j) ==> i == j
    ensures forall i :: i in s.infos ==> 0 <= Renumber(s, i) < |NewList(s)| + |TriedList(s)|
  {
    hide IdsBelow;
    if 0 <= n < |NewList(s)| {
      assert Renumber(s, NewList(s)[n]) == n;
    } else if |NewList(s)| <= n < |NewList(s)| + |TriedList(s)| {
      assert Renumber(s, TriedList(s)[n - |NewList(s)|]) == n;
    }
    forall i, j | i in s.infos && j in s.infos && Renumber(s, i) == Renumber(s, j) ensures i == j {
      assert s.infos[i].inTried ==> TriedList(s)[TriedIndex(s, i)] == i;
      assert !s.infos[i].inTried ==> NewList(s)[Index(s, i)] == i;
      assert s.infos[j].inTried ==> TriedList(s)[TriedIndex(s, j)] == j;
      assert !s.infos[j].inTried ==> NewList(s)[Index(s, j)] == j;
    }
  }

  lemma RenumberCovers(s: Tables, t: Tables)
    requires Listed(s) && forall n :: n in t.infos ==> 0 <= n < |NewList(s)| + |TriedList(s)|
    ensures forall n :: n in t.infos ==> exists id :: id in s.infos && Renumber(s, id) == n
    ensures forall i, j :: i in s.infos && j in s.infos && Renumber(s, i) == Renumber(s, j) ==> i == j
    ensures forall i :: i in s.infos ==> Renumber(s, i) >= 0
  {
    hide Listed;
    hide Renumber;
    hide IdsBelow;
    forall n | n in t.infos ensures exists id :: id in s.infos && Renumber(s, id) == n {
      RenumberBijection(s, n);
    }
    RenumberBijection(s, 0);
  }

  lemma ReloadedIndex(s: Tables, r: Tables, t: Tables)
    requires Listed(s) && |s.newTable| == |t.newTable| == NEW_SLOTS && |r.triedTable| == |s.triedTable| == TRIED_SLOTS
    requires TriedLoaded(s, r, |TriedList(s)|) && SlotsLoaded(s, r, t, NEW_SLOTS)
    ensures IndexInv(t)
    ensures forall n :: n in t.infos ==> 0 <= n < |NewList(s)| + |TriedList(s)|
  {
    hide IdsBelow;
    assert forall n :: n in t.infos ==>
      t.infos[n].Addr() == r.infos[n].Addr() && t.infos[n].randomPos == r.infos[n].randomPos;
    assert t.ids == r.ids && t.order == r.order && t.nextId == r.nextId;
    forall n | n in r.infos ensures r.infos[n].randomPos == n {
      if n >= |NewList(s)| {
        var j := n - |NewList(s)|;
        assert r.infos[|NewList(s)| + j] == Restore(Save(s.infos[TriedList(s)[j]]), |NewList(s)| + j).(inTried := true);
      }
    }
  }

  lemma ReloadedAddrs(s: Tables, t: Tables)
    requires Listed(s) && IndexInv(s) && IndexInv(t)
    requires forall id :: id in s.infos ==>
      Renumber(s, id) in t.infos && t.infos[Renumber(s, id)] == Refreshed(s.infos[id], Renumber(s, id))
    requires forall n :: n in t.infos ==> exists id :: id in s.infos && Renumber(s, id) == n
    ensures t.ids.Keys == s.ids.Keys
    ensures forall a :: a in s.ids && s.ids[a] in s.infos ==> t.ids[a] == Renumber(s, s.ids[a])
  {
    hide Listed;
    hide Renumber;
    forall a | a in s.ids ensures a in t.ids && t.ids[a] == Renumber(s, s.ids[a]) {
      var id := s.ids[a];
      assert t.infos[Renumber(s, id)].Addr() == a;
    }
    forall a | a in t.ids ensures a in s.ids {
      var n := t.ids[a];
      assert n in t.infos;
      var id :| id in s.infos && Renumber(s, id) == n;
      assert t.infos[Renumber(s, id)].Addr() == s.infos[id].Addr();
    }
  }

  lemma ReloadedTables(s: Tables, r: Tables, t: Tables)
    requires Listed(s) && NewInv(s) && TriedInv(s) && -1 !in s.infos && |t.newTable| == NEW_SLOTS
    requires |r.triedTable| == TRIED_SLOTS && TriedLoaded(s, r, |TriedList(s)|) && SlotsLoaded(s, r, t, NEW_SLOTS)
    ensures |t.triedTable| == TRIED_SLOTS
    ensures forall i :: 0 <= i < NEW_SLOTS ==> t.newTable[i] == RenumberSlot(s, s.newTable[i])
    ensures forall i :: 0 <= i < TRIED_SLOTS ==> t.triedTable[i] == RenumberSlot(s, s.triedTable[i])
  {
    hide IdsBelow;
    forall i | 0 <= i < TRIED_SLOTS ensures t.triedTable[i] == RenumberSlot(s, s.triedTable[i]) {
      assert t.triedTable[i] == TriedValue(s, s.triedTable[i], |TriedList(s)|);
    }
  }

  lemma Assembled(s: Tables, r: Tables, t: Tables)
    requires Listed(s) && Inv(s) && |s.newTable| == |t.newTable| == NEW_SLOTS
      && |r.triedTable| == |s.triedTable| == TRIED_SLOTS
    requires TriedLoaded(s, r, |TriedList(s)|) && SlotsLoaded(s, r, t, NEW_SLOTS)
    requires r.h == s.h && r.key == s.key && r.newCount == s.newCount && r.triedCount == s.triedCount
    ensures Reloaded(s, t) && IndexInv(t) && forall i :: i in s.infos ==> Renumber(s, i) >= 0
  {
    hide Listed;
    hide Inv;
    hide NewInv;
    hide TriedInv;
    hide EntryInv;
    hide IndexInv;
    hide TriedLoaded;
    hide SlotsLoaded;
    hide Renumber;
    hide IdsBelow;
    InvParts(s);
    SlotsFrame(s, r, t);
    ReloadedEntries(s, r, t);
    ReloadedIndex(s, r, t);
    RenumberCovers(s, t);
    ReloadedAddrs(s, t);
    ReloadedTables(s, r, t);
  }

  lemma SlotsFrame(s: Tables, r: Tables, t: Tables)
    requires Listed(s) && |s.newTable| == |t.newTable| == NEW_SLOTS && SlotsLoaded(s, r, t, NEW_SLOTS)
    ensures t.h == r.h && t.key == r.key && t.newCount == r.newCount && t.triedCount == r.triedCount
  {
    hide Listed;
  }

  lemma InvParts(s: Tables)
    requires Inv(s)
    ensures IndexInv(s) && NewInv(s) && TriedInv(s) && EntryInv(s, {}) && -1 !in s.infos
    ensures |s.newTable| == NEW_SLOTS && |s.triedTable| == TRIED_SLOTS
    ensures DistinctEntries(s)
  {}

  /** The state after the header and the untried entries of a dump have been read. */
  ghost function AfterEntries(s: Tables): Tables
    requires Listed(s) && |s.newTable| == NEW_SLOTS
  {
    var t0 := Runs.Cleared(s.h, s.key).(newCount := s.newCount, triedCount := s.triedCount);
    LoadEntries(t0, SaveAll(s.infos, NewList(s)), true).(nextId := s.newCount)
  }

  lemma AfterEntriesLoaded(s: Tables)
    requires Listed(s) && DistinctEntries(s) && |s.newTable| == NEW_SLOTS && |s.triedTable| == TRIED_SLOTS
    ensures var r := AfterEntries(s);
      && |r.triedTable| == TRIED_SLOTS && TriedLoaded(s, r, 0)
      && r.h == s.h && r.key == s.key && r.newCount == s.newCount && r.triedCount == s.triedCount
      && r.newTable == Runs.Cleared(s.h, s.key).newTable
  {
    var t0 := Runs.Cleared(s.h, s.key).(newCount := s.newCount, triedCount := s.triedCount);
    assert EntriesLoaded(s, t0, 0);
    EntriesLoad(s, t0, SaveAll(s.infos, NewList(s)));
    hide IdsBelow;
    hide Listed;
    hide EntriesLoaded;
    EntriesSame(s, LoadEntries(t0, SaveAll(s.infos, NewList(s)), true), AfterEntries(s));
    TriedStart(s, AfterEntries(s));
  }

  lemma EntriesSame(s: Tables, t: Tables, u: Tables)
    requires Listed(s) && EntriesLoaded(s, t, |NewList(s)|) && u.infos == t.infos && u.ids == t.ids
      && u.order == t.order
    ensures EntriesLoaded(s, u, |NewList(s)|)
  {}

  lemma AllBuckets(s: Tables)
    requires Listed(s) && |s.newTable| == NEW_SLOTS
    ensures var bs := Serialize(s).buckets;
      |bs| == NEW_BUCKETS && forall b :: 0 <= b < NEW_BUCKETS ==> bs[b] == BucketList(s, b, BUCKET_SIZE)
  {
    hide IdsBelow;
    hide Listed;
  }

  lemma SlotsStart(s: Tables, r: Tables)
    requires Listed(s) && |s.newTable| == |r.newTable| == NEW_SLOTS && |r.triedTable| == |s.triedTable| == TRIED_SLOTS
    requires TriedLoaded(s, r, |TriedList(s)|) && r.newTable == Runs.Cleared(s.h, s.key).newTable
    requires NewInv(s) && EntryInv(s, {}) && r.h == s.h && r.key == s.key && r.newCount == s.newCount
    ensures SlotsLoaded(s, r, r, 0) && Ready(s, r)
  {
    hide IdsBelow;
    forall n | n in r.infos ensures r.infos[n].refCount == 0 {
      if n >= |NewList(s)| {
        var j := n - |NewList(s)|;
        assert r.infos[|NewList(s)| + j] == Restore(Save(s.infos[TriedList(s)[j]]), |NewList(s)| + j).(inTried := true);
      }
    }
    forall n | n in r.infos ensures Slots(r.newTable, n) == {} {}
    assert forall n :: n in r.infos ==> r.infos[n] == r.infos[n].(refCount := 0);
  }

  /** The loaded tables, before pruning. */
  ghost function AfterBuckets(s: Tables): Tables
    requires Listed(s) && |s.newTable| == NEW_SLOTS
  {
    LoadBuckets(LoadTried(AfterEntries(s), SaveAll(s.infos, TriedList(s))), Serialize(s).buckets, NEW_BUCKETS)
  }

  lemma UnserializeIs(s: Tables)
    requires Listed(s) && |s.newTable| == NEW_SLOTS && s.newCount <= NEW_SLOTS && s.triedCount <= TRIED_SLOTS
    ensures var t := AfterBuckets(s); Unserialize(s.h, Serialize(s)) == Some(Prune(t, Ops.Max0(t.nextId)))
  {
    hide IdsBelow;
    hide LoadBuckets;
    hide LoadEntries;
    hide LoadTried;
    AllBuckets(s);
    assert FlipBit30(FlipBit30(NEW_BUCKETS)) == NEW_BUCKETS;
  }

  lemma {:induction false} ValuesSize(table: seq<int>, m: nat)
    requires m <= |table|
    ensures |set i | 0 <= i < m :: table[i]| <= m
  {
    if m > 0 {
      ValuesSize(table, m - 1);
      assert (set i | 0 <= i < m :: table[i]) == (set i | 0 <= i < m - 1 :: table[i]) + {table[m - 1]};
    }
  }

  /** Entries that each occupy a slot are no more than the slots. */
  lemma SlotsBound(table: seq<int>, ids: set<int>)
    requires forall id :: id in ids ==> exists i :: 0 <= i < |table| && table[i] == id
    ensures |ids| <= |table|
  {
    ValuesSize(table, |table|);
    var values := set i | 0 <= i < |table| :: table[i];
    forall id | id in ids ensures id in values {
      var i :| 0 <= i < |table| && table[i] == id;
      assert table[i] in values;
    }
    SubsetSize(ids, values);
  }

  lemma CountsFit(s: Tables)
    requires Inv(s)
    ensures s.newCount <= NEW_SLOTS && s.triedCount <= TRIED_SLOTS
  {
    InvParts(s);
    forall id | id in NewIds(s.infos) ensures exists i :: 0 <= i < NEW_SLOTS && s.newTable[i] == id {
      assert |Slots(s.newTable, id)| >= 1;
      var i := Member(Slots(s.newTable, id));
    }
    SlotsBound(s.newTable, NewIds(s.infos));
    forall id | id in TriedIds(s.infos) ensures exists i :: 0 <= i < TRIED_SLOTS && s.triedTable[i] == id {
      assert s.triedTable[TriedSlot(s.h, s.key, s.infos[id].Svc())] == id;
    }
    SlotsBound(s.triedTable, TriedIds(s.infos));
  }

  /** Loading a dump of a consistent manager succeeds, prunes nothing, and gives back the
      manager, consistent again, with its ids renumbered. */
  lemma RoundTrip(s: Tables)
    requires Inv(s)
    ensures Listed(s) && |s.newTable| == NEW_SLOTS
    ensures var r := Unserialize(s.h, Serialize(s));
      && r.Some? && Reloaded(s, r.value) && Inv(r.value)
      && (Clocks.Clocked(s) ==> Clocks.Clocked(r.value))
  {
    hide Inv;
    hide Reloaded;
    hide Clocks.Clocked;
    hide Listed;
    hide IdsBelow;
    InvParts(s);
    ListedFromInv(s);
    CountsFit(s);
    UnserializeIs(s);
    AfterBucketsReloaded(s);
    var t := AfterBuckets(s);
    UnprunedFromInv(t);
    PruneNothing(t, Ops.Max0(t.nextId));
    if Clocks.Clocked(s) {
      ReloadedClocked(s, t);
    }
  }

  lemma UnprunedFromInv(t: Tables)
    requires Inv(t)
    ensures forall i :: i in t.infos ==> t.infos[i].inTried || t.infos[i].refCount != 0
  {}

  lemma ListedMembers(s: Tables)
    requires Listed(s)
    ensures s.nextId >= 0 && forall k :: 0 <= k < |TriedList(s)| ==> TriedList(s)[k] in s.infos
  {
    hide IdsBelow;
  }

  lemma AfterBucketsReloaded(s: Tables)
    requires Inv(s) && Listed(s) && |s.newTable| == NEW_SLOTS && |s.triedTable| == TRIED_SLOTS
    ensures Reloaded(s, AfterBuckets(s)) && Inv(AfterBuckets(s))
  {
    hide Inv;
    hide Listed;
    hide IdsBelow;
    hide TriedLoaded;
    hide SlotsLoaded;
    hide AfterEntries;
    hide LoadTried;
    hide LoadBuckets;
    hide NewInv;
    hide TriedInv;
    hide EntryInv;
    hide IndexInv;
    hide Reloaded;
    hide Ready;
    InvParts(s);
    AfterEntriesLoaded(s);
    var r0 := AfterEntries(s);
    ListedMembers(s);
    var svs := SaveAll(s.infos, TriedList(s));
    TriedLoad(s, r0, svs);
    var r := LoadTried(r0, svs);
    SlotsStart(s, r);
    AllBuckets(s);
    BucketsLoad(s, r, Serialize(s).buckets, NEW_BUCKETS);
    Assembled(s, r, AfterBuckets(s));
    ReloadedInv(s, AfterBuckets(s));
  }
}
