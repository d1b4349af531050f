/**
 Loading any dump at all, not only one that was saved from a consistent manager: when the result is
 consistent, and which entries survive.
 */
module AddrLoad {
  import opened Collections
  import opened AddrTables
  import opened AddrSave
  import Ops = AddrOps
  import Runs = AddrRuns
  import Trip = AddrRoundTrip

  /** The addresses of saved entries. */
  function Addrs(svs: seq<Saved>): (r: set<NetAddr>)
  {
    set k | 0 <= k < |svs| :: svs[k].address.service.addr
  }

  ghost predicate DistinctAddrs(svs: seq<Saved>) {
    forall i, j :: 0 <= i < j < |svs| ==> svs[i].address.service.addr != svs[j].address.service.addr
  }

  /** Numbers below `n`: the ids of the untried entries that have been read. */
  function Below(n: nat): (r: set<int>)
    ensures forall i :: i in r <==> 0 <= i < n
  {
    if n == 0 then {} else Below(n - 1) + {n - 1}
  }

  lemma AddrsMore(svs: seq<Saved>)
    requires svs != [] && DistinctAddrs(svs)
    ensures var rest, last := svs[..|svs| - 1], svs[|svs| - 1];
      && DistinctAddrs(rest) && last.address.service.addr !in Addrs(rest)
      && Addrs(svs) == Addrs(rest) + {last.address.service.addr}
  {
    var rest, last := svs[..|svs| - 1], svs[|svs| - 1];
    forall k | 0 <= k < |svs| ensures svs[k].address.service.addr in Addrs(rest) + {last.address.service.addr} {
      assert k < |rest| ==> rest[k] == svs[k];
    }
    forall a | a in Addrs(rest) ensures a in Addrs(svs) && a != last.address.service.addr {
      var k :| 0 <= k < |rest| && rest[k].address.service.addr == a;
      assert svs[k] == rest[k];
    }
    assert svs[|svs| - 1].address.service.addr in Addrs(svs);
  }

  // ----- entries

  /** A new entry in the middle of an operation. */
  lemma CreateDuring(s: Tables, addr: Address, source: NetAddr, transit: set<int>, owed: int)
    requires InvDuring(s, transit, owed) && addr.service.addr !in s.ids
    ensures InvDuring(Create(s, addr, source), transit + {s.nextId}, owed + 1)
  {
    CreateKeepsIndex(s, addr, source);
    CreateTables(s, addr, source, transit);
    CreateCounts(s, addr, source);
  }

  lemma CreateTables(s: Tables, addr: Address, source: NetAddr, transit: set<int>)
    requires IndexInv(s) && NewInv(s) && TriedInv(s) && EntryInv(s, transit)
    ensures var t := Create(s, addr, source); NewInv(t) && TriedInv(t) && EntryInv(t, transit + {s.nextId})
  {
    assert s.nextId !in s.infos;
    assert Slots(s.newTable, s.nextId) == {};
  }

  /** A saved entry put in under the next id. */
  function Restored(s: Tables, sv: Saved): Tables {
    Touch(Create(s, sv.address, sv.source), s.nextId, Restore(sv, |s.order|))
  }

  lemma RestoredDuring(s: Tables, sv: Saved, transit: set<int>, owed: int)
    requires InvDuring(s, transit, owed) && sv.address.service.addr !in s.ids
    ensures InvDuring(Restored(s, sv), transit + {s.nextId}, owed + 1)
  {
    CreateDuring(s, sv.address, sv.source, transit, owed);
    hide InvDuring;
    TouchKeeps(Create(s, sv.address, sv.source), s.nextId, Restore(sv, |s.order|), transit + {s.nextId}, owed + 1);
  }

  /** The manager while untried entries are read, with the counters its contents call for. */
  function Reading(t: Tables, next: nat): Tables {
    t.(triedCount := 0, nextId := next)
  }

  lemma LoadEntryKeeps(t: Tables, k: nat, sv: Saved, keep: bool, transit: set<int>, owed: int)
    requires |t.newTable| == NEW_SLOTS && InvDuring(Reading(t, k), transit, owed) && sv.address.service.addr !in t.ids
    ensures var r := LoadEntry(t, k, sv, keep);
      && InvDuring(Reading(r, k + 1), transit + {k}, owed + 1)
      && r.ids.Keys == t.ids.Keys + {sv.address.service.addr}
      && r.triedCount == t.triedCount && r.newCount == t.newCount
      && r.infos.Keys == t.infos.Keys + {k} && r.h == t.h && r.key == t.key
  {
    hide *;
    var s := Reading(t, k);
    ReadingIs(t, k);
    RestoredDuring(s, sv, transit, owed);
    LoadEntryIs(t, k, sv, keep);
    var w := Restored(s, sv);
    var slot := Ops.SlotFor(w, k, sv.source);
    if !keep && w.newTable[slot] == -1 {
      LinkKeeps(w, slot, k, transit + {k}, owed + 1);
      Ops.TransitNarrows(Link(w, slot, k), transit + {k} - {k}, transit + {k}, owed + 1);
    }
  }

  lemma ReadingIs(t: Tables, k: nat)
    ensures var s := Reading(t, k);
      s.ids == t.ids && s.nextId == k && s.newTable == t.newTable && s.infos == t.infos && s.order == t.order
  {}

  /** Reading an entry puts it in, with a reference if there are no bucket lists to go by and its slot is free. */
  lemma LoadEntryIs(t: Tables, k: nat, sv: Saved, keep: bool)
    requires |t.newTable| == NEW_SLOTS
    ensures var r, w := LoadEntry(t, k, sv, keep), Restored(Reading(t, k), sv);
      && k in w.infos && |w.newTable| == NEW_SLOTS
      && !w.infos[k].inTried && w.infos[k].refCount == 0 < MAX_REFS
      && (var slot := Ops.SlotFor(w, k, sv.source);
          && slot < NEW_SLOTS && slot == NewSlot(w.h, w.key, w.infos[k].Svc(), slot / BUCKET_SIZE)
          && Reading(r, k + 1) == if !keep && w.newTable[slot] == -1 then Link(w, slot, k) else w)
      && r.ids.Keys == t.ids.Keys + {sv.address.service.addr}
      && r.triedCount == t.triedCount && r.newCount == t.newCount
      && r.infos.Keys == t.infos.Keys + {k} && r.h == t.h && r.key == t.key
  {
    hide NewBucket;
    hide NewSlot;
  }

  lemma {:induction false} LoadEntriesKeep(t: Tables, svs: seq<Saved>, keep: bool, owed: int)
    requires |t.newTable| == NEW_SLOTS && InvDuring(Reading(t, 0), {}, owed) && t.infos == map[] && t.ids == map[]
    requires DistinctAddrs(svs)
    ensures var r := LoadEntries(t, svs, keep);
      && InvDuring(Reading(r, |svs|), Below(|svs|), owed + |svs|)
      && r.ids.Keys == Addrs(svs) && r.infos.Keys == Below(|svs|)
      && r.triedCount == t.triedCount && r.newCount == t.newCount && r.h == t.h && r.key == t.key
  {
    hide InvDuring;
    hide LoadEntry;
    hide DistinctAddrs;
    hide Addrs;
    if svs == [] {
      NoneYet(t, svs);
    } else {
      var k := |svs| - 1;
      AddrsMore(svs);
      LoadEntriesKeep(t, svs[..k], keep, owed);
      LoadEntryKeeps(LoadEntries(t, svs[..k], keep), k, svs[k], keep, Below(k), owed + k);
      BelowMore(k);
    }
  }

  lemma NoneYet(t: Tables, svs: seq<Saved>)
    requires t.infos == map[] && t.ids == map[] && svs == []
    ensures t.ids.Keys == Addrs(svs) && t.infos.Keys == Below(0) == {}
  {}

  lemma BelowMore(k: nat)
    ensures Below(k + 1) == Below(k) + {k as int}
  {}

  // ----- tried entries

  lemma LoadTriedOneKeeps(t: Tables, sv: Saved, c: int, transit: set<int>)
    requires |t.triedTable| == TRIED_SLOTS && InvDuring(t.(triedCount := c), transit, 0)
    requires sv.address.service.addr !in t.ids
    ensures var r := LoadTriedOne(t, sv);
      && InvDuring(r.(triedCount := r.triedCount - t.triedCount + c + 1), transit, 0)
      && r.ids.Keys <= t.ids.Keys + {sv.address.service.addr} && r.newCount == t.newCount
      && (forall id :: id in r.infos ==> id in t.infos || (id == t.nextId && r.infos[id].inTried))
      && (forall id :: id in t.infos && id != t.nextId ==> id in r.infos && r.infos[id] == t.infos[id])
      && r.nextId >= t.nextId && r.h == t.h && r.key == t.key
  {
    hide *;
    var s := t.(triedCount := c);
    var slot := TriedSlot(t.h, t.key, sv.address.service);
    var id := t.nextId;
    LoadTriedOneIs(t, sv, c);
    if t.triedTable[slot] == -1 {
      RestoredDuring(s, sv, transit, 0);
      var w := Restored(s, sv);
      PromoteKeeps(w, slot, id, transit + {id}, 1);
      Ops.TransitNarrows(Promote(w, slot, id), transit + {id} - {id}, transit, 0);
    }
  }

  /** A tried entry is put in and takes its slot if that is free, and else is lost. */
  lemma LoadTriedOneIs(t: Tables, sv: Saved, c: int)
    requires |t.triedTable| == TRIED_SLOTS
    ensures var r, w := LoadTriedOne(t, sv), Restored(t.(triedCount := c), sv);
      var slot, id := TriedSlot(t.h, t.key, sv.address.service), t.nextId;
      && id in w.infos && !w.infos[id].inTried && w.infos[id].refCount == 0
      && w.triedTable == t.triedTable && slot == TriedSlot(w.h, w.key, w.infos[id].Svc())
      && slot < |w.triedTable|
      && r.(triedCount := r.triedCount - t.triedCount + c + 1) ==
           (if t.triedTable[slot] == -1 then Promote(w, slot, id) else t.(triedCount := c))
      && r.ids.Keys <= t.ids.Keys + {sv.address.service.addr} && r.newCount == t.newCount
      && (forall i :: i in r.infos ==> i in t.infos || (i == id && r.infos[i].inTried))
      && (forall i :: i in t.infos && i != id ==> i in r.infos && r.infos[i] == t.infos[i])
      && r.nextId >= t.nextId && r.h == t.h && r.key == t.key
  {
    hide TriedSlot;
  }

  /** Ids below the number of untried entries are not tried. */
  ghost predicate Untried(t: Tables) {
    && t.nextId >= t.newCount
    && forall id :: id in t.infos && id < t.newCount ==> !t.infos[id].inTried
  }

  lemma {:induction false} LoadTriedKeeps(t: Tables, svs: seq<Saved>, transit: set<int>)
    requires |t.triedTable| == TRIED_SLOTS && InvDuring(t.(triedCount := 0), transit, 0) && Untried(t)
    requires DistinctAddrs(svs) && t.ids.Keys !! Addrs(svs)
    ensures var r := LoadTried(t, svs);
      && InvDuring(r.(triedCount := r.triedCount - t.triedCount + |svs|), transit, 0)
      && r.ids.Keys <= t.ids.Keys + Addrs(svs) && r.newCount == t.newCount && Untried(r)
      && r.h == t.h && r.key == t.key
  {
    hide InvDuring;
    hide LoadTriedOne;
    hide DistinctAddrs;
    hide Addrs;
    if svs != [] {
      var k := |svs| - 1;
      AddrsMore(svs);
      LoadTriedKeeps(t, svs[..k], transit);
      var u := LoadTried(t, svs[..k]);
      LoadTriedOneKeeps(u, svs[k], u.triedCount - t.triedCount + k, transit);
    }
  }

  // ----- buckets

  lemma LoadIndexKeeps(t: Tables, bucket: nat, index: int, transit: set<int>)
    requires |t.newTable| == NEW_SLOTS && bucket < NEW_BUCKETS && InvDuring(t, transit, 0) && Untried(t)
    ensures var r := LoadIndex(t, bucket, index); InvDuring(r, transit, 0) && Untried(r) && r.newCount == t.newCount
  {
    if 0 <= index < t.newCount && index in t.infos {
      var slot := NewSlot(t.h, t.key, t.infos[index].Svc(), bucket);
      if t.newTable[slot] == -1 && t.infos[index].refCount < MAX_REFS {
        hide InvDuring;
        LinkKeeps(t, slot, index, transit, 0);
        Ops.TransitNarrows(Link(t, slot, index), transit - {index}, transit, 0);
      }
    }
  }

  lemma {:induction false} LoadBucketKeeps(t: Tables, bucket: nat, indexes: seq<int>, transit: set<int>)
    requires |t.newTable| == NEW_SLOTS && bucket < NEW_BUCKETS && InvDuring(t, transit, 0) && Untried(t)
    ensures var r := LoadBucket(t, bucket, indexes); InvDuring(r, transit, 0) && Untried(r) && r.newCount == t.newCount
  {
    hide InvDuring;
    hide Untried;
    hide LoadIndex;
    if indexes != [] {
      LoadBucketKeeps(t, bucket, indexes[..|indexes| - 1], transit);
      LoadIndexKeeps(LoadBucket(t, bucket, indexes[..|indexes| - 1]), bucket, indexes[|indexes| - 1], transit);
    }
  }

  lemma {:induction false} LoadBucketsKeep(t: Tables, buckets: seq<seq<int>>, n: nat, transit: set<int>)
    requires |t.newTable| == NEW_SLOTS && n <= NEW_BUCKETS && n <= |buckets| && InvDuring(t, transit, 0) && Untried(t)
    ensures var r := LoadBuckets(t, buckets, n); InvDuring(r, transit, 0) && Untried(r) && r.newCount == t.newCount
  {
    hide InvDuring;
    hide Untried;
    hide LoadBucket;
    if n > 0 {
      LoadBucketsKeep(t, buckets, n - 1, transit);
      LoadBucketKeeps(LoadBuckets(t, buckets, n - 1), n - 1, buckets[n - 1], transit);
    }
  }

  // ----- pruning

  lemma {:induction false} PruneKeeps(t: Tables, n: nat, transit: set<int>)
    requires InvDuring(t, transit, 0)
    ensures InvDuring(Prune(t, n), transit - Below(n), 0)
  {
    hide InvDuring;
    hide Delete;
    if n == 0 {
      assert transit - Below(0) == transit;
    } else {
      PruneKeeps(t, n - 1, transit);
      PruneOne(Prune(t, n - 1), n - 1, transit - Below(n - 1));
      BelowMore(n - 1);
      assert transit - Below(n - 1) - {n - 1} == transit - Below(n);
    }
  }

  lemma PruneOne(u: Tables, id: nat, transit: set<int>)
    requires InvDuring(u, transit, 0)
    ensures var r := if id in u.infos && !u.infos[id].inTried && u.infos[id].refCount == 0 then Delete(u, id) else u;
      InvDuring(r, transit - {id}, 0)
  {
    if id in u.infos {
      if !u.infos[id].inTried && u.infos[id].refCount == 0 {
        DeleteKeeps(u, id, transit, 0);
      } else {
        assert EntryOk(u.infos[id], |Slots(u.newTable, id)|, id in transit);
      }
    }
  }

  // ----- the whole

  /** No two entries of the dump have the same address. */
  ghost predicate DistinctDump(d: Dump) {
    DistinctAddrs(d.entries + d.tried)
  }

  lemma DistinctParts(d: Dump)
    requires DistinctDump(d)
    ensures DistinctAddrs(d.entries) && DistinctAddrs(d.tried) && Addrs(d.entries) !! Addrs(d.tried)
  {
    var all, n := d.entries + d.tried, |d.entries|;
    forall i, j | 0 <= i < j < n
      ensures d.entries[i].address.service.addr != d.entries[j].address.service.addr
    {
      assert all[i] == d.entries[i] && all[j] == d.entries[j];
    }
    forall i, j | 0 <= i < j < |d.tried| ensures d.tried[i].address.service.addr != d.tried[j].address.service.addr {
      assert all[n + i] == d.tried[i] && all[n + j] == d.tried[j];
    }
    forall a | a in Addrs(d.entries) ensures a !in Addrs(d.tried) {
      var i :| 0 <= i < n && d.entries[i].address.service.addr == a;
      forall j | 0 <= j < |d.tried| ensures d.tried[j].address.service.addr != a {
        assert all[i] == d.entries[i] && all[n + j] == d.tried[j];
      }
    }
  }

  /** The dump is of the one format whose bucket lists are used. */
  predicate Keeps(d: Dump) {
    d.version == 1 && FlipBit30(d.bucketCount) == NEW_BUCKETS
  }

  /** After the untried and the tried entries. */
  function Entered(h: Hashes, d: Dump): (t: Tables)
    ensures |t.newTable| == NEW_SLOTS
  {
    var t0 := Runs.Cleared(h, d.key).(newCount := d.newCount, triedCount := d.triedCount);
    LoadTried(LoadEntries(t0, d.entries, Keeps(d)).(nextId := d.newCount), d.tried)
  }

  lemma UnserializeAccepted(h: Hashes, d: Dump)
    requires Unserialize(h, d).Some?
    ensures |d.entries| == Ops.Max0(d.newCount) && |d.tried| == Ops.Max0(d.triedCount)
    ensures Keeps(d) ==> |d.buckets| == NEW_BUCKETS
    ensures var t := Entered(h, d); var u := if Keeps(d) then LoadBuckets(t, d.buckets, NEW_BUCKETS) else t;
      Unserialize(h, d).value == Prune(u, Ops.Max0(u.nextId))
  {
    hide LoadEntries;
    hide LoadTried;
    hide LoadBuckets;
    hide Prune;
  }

  lemma EnteredInv(h: Hashes, d: Dump)
    requires DistinctDump(d) && d.newCount >= 0 && d.triedCount >= 0
    requires |d.entries| == d.newCount && |d.tried| == d.triedCount
    ensures var t := Entered(h, d); InvDuring(t, Below(d.newCount), 0) && Untried(t) && t.newCount == d.newCount
  {
    hide *;
    DistinctParts(d);
    var t0 := Runs.Cleared(h, d.key).(newCount := d.newCount, triedCount := d.triedCount);
    Start(h, d);
    LoadEntriesKeep(t0, d.entries, Keeps(d), -d.newCount);
    var t1 := LoadEntries(t0, d.entries, Keeps(d));
    Renumbered(t1, d.newCount);
    LoadTriedKeeps(t1.(nextId := d.newCount), d.tried, Below(d.newCount));
    EnteredIs(h, d);
  }

  lemma EnteredIs(h: Hashes, d: Dump)
    ensures var t0 := Runs.Cleared(h, d.key).(newCount := d.newCount, triedCount := d.triedCount);
      |t0.newTable| == NEW_SLOTS && |t0.triedTable| == TRIED_SLOTS
      && Entered(h, d) == LoadTried(LoadEntries(t0, d.entries, Keeps(d)).(nextId := d.newCount), d.tried)
  {}

  lemma Start(h: Hashes, d: Dump)
    ensures var t0 := Runs.Cleared(h, d.key).(newCount := d.newCount, triedCount := d.triedCount);
      && |t0.newTable| == NEW_SLOTS && t0.infos == map[] && t0.ids == map[]
      && t0.newCount == d.newCount && t0.triedCount == d.triedCount
      && InvDuring(Reading(t0, 0), {}, -d.newCount)
  {
    var none := Runs.Cleared(h, d.key);
    Runs.ClearedInv(h, d.key);
    hide InvDuring;
    Ops.CountShift(none, d.newCount, {}, 0);
    var t0 := none.(newCount := d.newCount, triedCount := d.triedCount);
    assert Reading(t0, 0) == none.(newCount := none.newCount + d.newCount);
  }

  lemma Renumbered(t1: Tables, n: nat)
    requires InvDuring(Reading(t1, n), Below(n), 0) && t1.newCount == n && t1.infos.Keys == Below(n)
    ensures var v := t1.(nextId := n);
      && |v.triedTable| == TRIED_SLOTS && InvDuring(v.(triedCount := 0), Below(n), 0) && Untried(v)
  {
    var v := t1.(nextId := n);
    assert v.(triedCount := 0) == Reading(t1, n);
    assert TriedIds(v.infos) == {};
    forall id | id in v.infos ensures !v.infos[id].inTried {
      assert id !in TriedIds(v.infos);
    }
  }

  /** Counts only go down. */
  ghost predicate Fewer(t: Tables, r: Tables) {
    r.newCount <= t.newCount && r.triedCount <= t.triedCount
  }

  lemma {:induction false} LoadEntriesFewer(t: Tables, svs: seq<Saved>, keep: bool)
    requires |t.newTable| == NEW_SLOTS
    ensures Fewer(t, LoadEntries(t, svs, keep))
  {
    if svs != [] {
      LoadEntriesFewer(t, svs[..|svs| - 1], keep);
    }
  }

  lemma {:induction false} LoadTriedFewer(t: Tables, svs: seq<Saved>)
    requires |t.triedTable| == TRIED_SLOTS
    ensures Fewer(t, LoadTried(t, svs))
  {
    if svs != [] {
      LoadTriedFewer(t, svs[..|svs| - 1]);
    }
  }

  lemma {:induction false} LoadBucketFewer(t: Tables, bucket: nat, indexes: seq<int>)
    requires |t.newTable| == NEW_SLOTS && bucket < NEW_BUCKETS
    ensures Fewer(t, LoadBucket(t, bucket, indexes))
  {
    if indexes != [] {
      LoadBucketFewer(t, bucket, indexes[..|indexes| - 1]);
    }
  }

  lemma {:induction false} LoadBucketsFewer(t: Tables, buckets: seq<seq<int>>, n: nat)
    requires |t.newTable| == NEW_SLOTS && n <= NEW_BUCKETS && n <= |buckets|
    ensures Fewer(t, LoadBuckets(t, buckets, n))
  {
    if n > 0 {
      LoadBucketsFewer(t, buckets, n - 1);
      LoadBucketFewer(LoadBuckets(t, buckets, n - 1), n - 1, buckets[n - 1]);
    }
  }

  lemma {:induction false} PruneFewer(t: Tables, n: nat)
    ensures Fewer(t, Prune(t, n))
  {
    if n > 0 {
      PruneFewer(t, n - 1);
    }
  }

  lemma FewerIs(t: Tables, u: Tables)
    requires Fewer(t, u)
    ensures u.newCount <= t.newCount && u.triedCount <= t.triedCount
  {}

  lemma LoadedCounts(h: Hashes, d: Dump)
    requires Unserialize(h, d).Some?
    ensures var t := Unserialize(h, d).value; t.newCount <= d.newCount && t.triedCount <= d.triedCount
  {
    hide *;
    UnserializeAccepted(h, d);
    EnteredIs(h, d);
    Start(h, d);
    var t0 := Runs.Cleared(h, d.key).(newCount := d.newCount, triedCount := d.triedCount);
    LoadEntriesFewer(t0, d.entries, Keeps(d));
    var t1 := LoadEntries(t0, d.entries, Keeps(d));
    FewerIs(t0, t1);
    LoadTriedFewer(t1.(nextId := d.newCount), d.tried);
    var t2 := Entered(h, d);
    FewerIs(t1.(nextId := d.newCount), t2);
    var t3 := if Keeps(d) then LoadBuckets(t2, d.buckets, NEW_BUCKETS) else t2;
    if Keeps(d) {
      LoadBucketsFewer(t2, d.buckets, NEW_BUCKETS);
      FewerIs(t2, t3);
    }
    PruneFewer(t3, Ops.Max0(t3.nextId));
    FewerIs(t3, Prune(t3, Ops.Max0(t3.nextId)));
  }

  /** What an accepted dump without repeated addresses is loaded into is consistent exactly if the dump's two
      counts are not negative. The reader never asks that of them. */
  lemma LoadsConsistent(h: Hashes, d: Dump)
    requires Unserialize(h, d).Some? && DistinctDump(d)
    ensures Inv(Unserialize(h, d).value) <==> d.newCount >= 0 && d.triedCount >= 0
  {
    hide *;
    if d.newCount >= 0 && d.triedCount >= 0 {
      LoadedInv(h, d);
    } else {
      LoadedCounts(h, d);
      NegativeCount(Unserialize(h, d).value);
    }
  }

  lemma LoadedInv(h: Hashes, d: Dump)
    requires Unserialize(h, d).Some? && DistinctDump(d) && d.newCount >= 0 && d.triedCount >= 0
    ensures Inv(Unserialize(h, d).value)
  {
    hide *;
    UnserializeAccepted(h, d);
    MaxIs(d.newCount);
    MaxIs(d.triedCount);
    EnteredInv(h, d);
    var t := Entered(h, d);
    if Keeps(d) {
      LoadBucketsKeep(t, d.buckets, NEW_BUCKETS, Below(d.newCount));
      Pruned(LoadBuckets(t, d.buckets, NEW_BUCKETS), d.newCount);
    } else {
      Pruned(t, d.newCount);
    }
  }

  lemma MaxIs(n: int)
    ensures Ops.Max0(n) == if n < 0 then 0 else n
  {}

  lemma Pruned(t: Tables, n: nat)
    requires InvDuring(t, Below(n), 0) && Untried(t) && t.newCount == n
    ensures Inv(Prune(t, Ops.Max0(t.nextId)))
  {
    hide InvDuring;
    hide Prune;
    hide Below;
    var k := Ops.Max0(t.nextId);
    PruneKeeps(t, k, Below(n));
    assert Below(n) - Below(k) == {};
  }

  lemma NegativeCount(t: Tables)
    requires t.newCount < 0 || t.triedCount < 0
    ensures !Inv(t)
  {}

  // ----- who survives a change of format

  /** The "new" slot an entry gets from the source it was first heard from. */
  function Primary(h: Hashes, key: nat, sv: Saved): (slot: nat)
    ensures slot < NEW_SLOTS
  {
    var svc := sv.address.service;
    NewSlot(h, key, svc, NewBucket(h, key, svc, sv.source))
  }

  /** No earlier entry has the same slot. */
  ghost predicate FirstNew(h: Hashes, key: nat, svs: seq<Saved>, k: nat)
    requires k < |svs|
  {
    forall j :: 0 <= j < k ==> Primary(h, key, svs[j]) != Primary(h, key, svs[k])
  }

  /** Untried entries have been given their slots, first come, first served. */
  ghost predicate Served(t: Tables, svs: seq<Saved>) {
    && |t.newTable| == NEW_SLOTS
    && (forall k :: 0 <= k < |svs| ==>
          && k in t.infos && Save(t.infos[k]) == svs[k] && !t.infos[k].inTried
          && t.infos[k].refCount == if FirstNew(t.h, t.key, svs, k) then 1 else 0)
    && (forall k :: 0 <= k < |svs| ==> t.newTable[Primary(t.h, t.key, svs[k])] != -1)
    && (forall i :: 0 <= i < NEW_SLOTS && t.newTable[i] != -1 ==>
          exists k :: 0 <= k < |svs| && Primary(t.h, t.key, svs[k]) == i)
  }

  lemma ServedMore(t: Tables, svs: seq<Saved>)
    requires svs != [] && Served(t, svs[..|svs| - 1])
    ensures Served(LoadEntry(t, |svs| - 1, svs[|svs| - 1], false), svs)
  {
    hide Primary;
    var n := |svs| - 1;
    var rest, sv := svs[..n], svs[n];
    var r := LoadEntry(t, n, sv, false);
    var slot := Primary(t.h, t.key, sv);
    LoadEntryPlaces(t, n, sv);
    forall k | 0 <= k < |svs|
      ensures k in r.infos && Save(r.infos[k]) == svs[k] && !r.infos[k].inTried
      ensures r.infos[k].refCount == if FirstNew(r.h, r.key, svs, k) then 1 else 0
      ensures r.newTable[Primary(r.h, r.key, svs[k])] != -1
    {
      if k < n {
        assert rest[k] == svs[k];
        FirstSame(t.h, t.key, svs, k);
      } else {
        FreeIsFirst(t, svs);
      }
    }
    forall i | 0 <= i < NEW_SLOTS && r.newTable[i] != -1
      ensures exists k :: 0 <= k < |svs| && Primary(r.h, r.key, svs[k]) == i
    {
      if i != slot {
        assert t.newTable[i] != -1;
        var k :| 0 <= k < |rest| && Primary(t.h, t.key, rest[k]) == i;
        assert svs[k] == rest[k];
      }
    }
  }

  lemma LoadEntryPlaces(t: Tables, n: nat, sv: Saved)
    requires |t.newTable| == NEW_SLOTS
    ensures var r, slot := LoadEntry(t, n, sv, false), Primary(t.h, t.key, sv);
      var free := t.newTable[slot] == -1;
      && r.h == t.h && r.key == t.key
      && r.newTable == (if free then t.newTable[slot := n] else t.newTable)
      && r.infos == t.infos[n := Restore(sv, |t.order|).(refCount := if free then 1 else 0)]
  {
    hide NewBucket;
    hide NewSlot;
  }

  lemma FirstSame(h: Hashes, key: nat, svs: seq<Saved>, k: nat)
    requires k < |svs| - 1
    ensures FirstNew(h, key, svs, k) <==> FirstNew(h, key, svs[..|svs| - 1], k)
  {
    hide Primary;
    var rest := svs[..|svs| - 1];
    forall j | 0 <= j <= k ensures rest[j] == svs[j] {}
  }

  lemma FreeIsFirst(t: Tables, svs: seq<Saved>)
    requires svs != [] && Served(t, svs[..|svs| - 1])
    ensures var n := |svs| - 1;
      t.newTable[Primary(t.h, t.key, svs[n])] == -1 <==> FirstNew(t.h, t.key, svs, n)
  {
    hide Primary;
    var n := |svs| - 1;
    var rest := svs[..n];
    var slot := Primary(t.h, t.key, svs[n]);
    if t.newTable[slot] != -1 {
      var k :| 0 <= k < |rest| && Primary(t.h, t.key, rest[k]) == slot;
      assert svs[k] == rest[k];
    } else {
      forall j | 0 <= j < n ensures Primary(t.h, t.key, svs[j]) != slot {
        assert rest[j] == svs[j];
      }
    }
  }

  lemma {:induction false} AllServed(t: Tables, svs: seq<Saved>)
    requires |t.newTable| == NEW_SLOTS && forall i :: 0 <= i < NEW_SLOTS ==> t.newTable[i] == -1
    ensures Served(LoadEntries(t, svs, false), svs)
  {
    hide LoadEntry;
    hide Primary;
    if svs != [] {
      AllServed(t, svs[..|svs| - 1]);
      hide Served;
      ServedMore(LoadEntries(t, svs[..|svs| - 1], false), svs);
    }
  }

  // ----- who survives pruning

  ghost predicate Kept(t: Tables, r: Tables, n: nat) {
    && (forall id :: id in r.infos <==>
          id in t.infos && !(0 <= id < n && !t.infos[id].inTried && t.infos[id].refCount == 0))
    && (forall id :: id in r.infos ==> Alike(r.infos[id], t.infos[id]))
  }

  lemma {:induction false} PruneExactly(t: Tables, n: nat, transit: set<int>)
    requires InvDuring(t, transit, 0)
    ensures Kept(t, Prune(t, n), n)
  {
    hide InvDuring;
    hide Delete;
    if n > 0 {
      PruneExactly(t, n - 1, transit);
      PruneKeeps(t, n - 1, transit);
      PruneOneExactly(t, Prune(t, n - 1), n - 1, transit - Below(n - 1));
    }
  }

  lemma PruneOneExactly(t: Tables, u: Tables, id: nat, transit: set<int>)
    requires InvDuring(u, transit, 0) && Kept(t, u, id)
    ensures var r := if id in u.infos && !u.infos[id].inTried && u.infos[id].refCount == 0 then Delete(u, id) else u;
      Kept(t, r, id + 1)
  {
    hide *;
    InvIs(u, transit);
    if id in u.infos && !u.infos[id].inTried && u.infos[id].refCount == 0 {
      DeleteEffect(u, id);
      KeptLess(t, u, Delete(u, id), id);
    } else {
      KeptSame(t, u, id);
    }
  }

  lemma KeptLess(t: Tables, u: Tables, r: Tables, id: nat)
    requires Kept(t, u, id) && id in u.infos && !u.infos[id].inTried && u.infos[id].refCount == 0
    requires r.infos.Keys == u.infos.Keys - {id} && forall i :: i in r.infos ==> Alike(r.infos[i], u.infos[i])
    ensures Kept(t, r, id + 1)
  {
    assert Alike(u.infos[id], t.infos[id]);
    forall i | i in r.infos ensures Alike(r.infos[i], t.infos[i]) {
      assert Alike(r.infos[i], u.infos[i]) && Alike(u.infos[i], t.infos[i]);
    }
  }

  lemma KeptSame(t: Tables, u: Tables, id: nat)
    requires Kept(t, u, id) && (id in u.infos ==> u.infos[id].inTried || u.infos[id].refCount != 0)
    ensures Kept(t, u, id + 1)
  {
    if id in u.infos {
      assert Alike(u.infos[id], t.infos[id]);
    }
  }

  lemma InvIs(u: Tables, transit: set<int>)
    requires InvDuring(u, transit, 0)
    ensures IndexInv(u) && TriedInv(u)
  {}

  // ----- tried entries, first come, first served

  function Addr(sv: Saved): NetAddr {
    sv.address.service.addr
  }

  ghost predicate FirstTried(h: Hashes, key: nat, svs: seq<Saved>, j: nat)
    requires j < |svs|
  {
    forall i :: 0 <= i < j ==>
      TriedSlot(h, key, svs[i].address.service) != TriedSlot(h, key, svs[j].address.service)
  }

  /** The index names the entry made for a tried address. */
  ghost predicate Holds(t: Tables, sv: Saved) {
    && Addr(sv) in t.ids && t.ids[Addr(sv)] in t.infos && t.ids[Addr(sv)] < t.nextId
    && t.infos[t.ids[Addr(sv)]].inTried && Save(t.infos[t.ids[Addr(sv)]]) == sv
  }

  ghost predicate TriedServed(base: Tables, t: Tables, svs: seq<Saved>) {
    && |t.triedTable| == TRIED_SLOTS && t.h == base.h && t.key == base.key && t.nextId >= base.nextId >= 0
    && (forall j :: 0 <= j < |svs| ==> if FirstTried(t.h, t.key, svs, j) then Holds(t, svs[j]) else Addr(svs[j]) !in t.ids)
    && (forall j :: 0 <= j < |svs| ==> t.triedTable[TriedSlot(t.h, t.key, svs[j].address.service)] != -1)
    && (forall i :: 0 <= i < TRIED_SLOTS && t.triedTable[i] != -1 ==>
          exists j :: 0 <= j < |svs| && TriedSlot(t.h, t.key, svs[j].address.service) == i)
    && (forall a :: a in t.ids ==> a in base.ids || a in Addrs(svs))
    && (forall id :: id in base.infos && id < base.nextId ==> id in t.infos && t.infos[id] == base.infos[id])
  }

  lemma FirstTriedSame(h: Hashes, key: nat, svs: seq<Saved>, k: nat)
    requires k < |svs| - 1
    ensures FirstTried(h, key, svs, k) <==> FirstTried(h, key, svs[..|svs| - 1], k)
  {
    hide TriedSlot;
    var rest := svs[..|svs| - 1];
    forall j | 0 <= j <= k ensures rest[j] == svs[j] {}
  }

  lemma FreeIsFirstTried(base: Tables, t: Tables, svs: seq<Saved>)
    requires svs != [] && TriedServed(base, t, svs[..|svs| - 1])
    ensures var n := |svs| - 1;
      t.triedTable[TriedSlot(t.h, t.key, svs[n].address.service)] == -1 <==> FirstTried(t.h, t.key, svs, n)
  {
    hide TriedSlot;
    hide FirstTried;
    hide Holds;
    var n := |svs| - 1;
    var rest := svs[..n];
    var slot := TriedSlot(t.h, t.key, svs[n].address.service);
    if t.triedTable[slot] != -1 {
      var k :| 0 <= k < |rest| && TriedSlot(t.h, t.key, rest[k].address.service) == slot;
      assert svs[k] == rest[k];
      NotFirst(t.h, t.key, svs, k);
    } else {
      forall j | 0 <= j < n ensures TriedSlot(t.h, t.key, svs[j].address.service) != slot {
        assert rest[j] == svs[j];
      }
      IsFirst(t.h, t.key, svs);
    }
  }

  lemma NotFirst(h: Hashes, key: nat, svs: seq<Saved>, k: nat)
    requires k < |svs| - 1
    requires TriedSlot(h, key, svs[k].address.service) == TriedSlot(h, key, svs[|svs| - 1].address.service)
    ensures !FirstTried(h, key, svs, |svs| - 1)
  {}

  lemma IsFirst(h: Hashes, key: nat, svs: seq<Saved>)
    requires svs != []
    requires forall j :: 0 <= j < |svs| - 1 ==>
      TriedSlot(h, key, svs[j].address.service) != TriedSlot(h, key, svs[|svs| - 1].address.service)
    ensures FirstTried(h, key, svs, |svs| - 1)
  {}

  lemma LoadTriedPlaces(t: Tables, sv: Saved)
    requires |t.triedTable| == TRIED_SLOTS
    ensures var r, slot := LoadTriedOne(t, sv), TriedSlot(t.h, t.key, sv.address.service);
      var info := Restore(sv, |t.order|).(inTried := true);
      && r.h == t.h && r.key == t.key
      && if t.triedTable[slot] == -1 then
           && r.triedTable == t.triedTable[slot := t.nextId] && r.infos == t.infos[t.nextId := info]
           && r.ids == t.ids[Addr(sv) := t.nextId] && r.nextId == t.nextId + 1 && Save(info) == sv && info.inTried
         else r.triedTable == t.triedTable && r.infos == t.infos && r.ids == t.ids && r.nextId == t.nextId
  {
    hide TriedSlot;
  }

  /** What held of the entries before holds of them still, and of the new one as well. */
  lemma EachServed(base: Tables, t: Tables, svs: seq<Saved>, k: nat)
    requires svs != [] && TriedServed(base, t, svs[..|svs| - 1]) && DistinctAddrs(svs) && base.ids.Keys !! Addrs(svs)
    requires k < |svs| && Addr(svs[|svs| - 1]) !in t.ids
    ensures var r := LoadTriedOne(t, svs[|svs| - 1]);
      if FirstTried(r.h, r.key, svs, k) then Holds(r, svs[k]) else Addr(svs[k]) !in r.ids
  {
    hide TriedSlot;
    hide FirstTried;
    hide LoadTriedOne;
    hide Addrs;
    var n := |svs| - 1;
    var rest := svs[..n];
    LoadTriedPlaces(t, svs[n]);
    FreeIsFirstTried(base, t, svs);
    if k < n {
      assert rest[k] == svs[k] && Addr(svs[k]) != Addr(svs[n]);
      FirstTriedSame(t.h, t.key, svs, k);
    }
  }

  lemma TriedServedMore(base: Tables, t: Tables, svs: seq<Saved>)
    requires svs != [] && TriedServed(base, t, svs[..|svs| - 1]) && DistinctAddrs(svs) && base.ids.Keys !! Addrs(svs)
    ensures TriedServed(base, LoadTriedOne(t, svs[|svs| - 1]), svs)
  {
    hide TriedSlot;
    hide FirstTried;
    hide DistinctAddrs;
    hide Addrs;
    hide LoadTriedOne;
    hide Holds;
    var n := |svs| - 1;
    var rest, sv := svs[..n], svs[n];
    var r := LoadTriedOne(t, sv);
    AddrsMore(svs);
    assert Addr(sv) !in t.ids;
    LoadTriedPlaces(t, sv);
    forall k | 0 <= k < |svs|
      ensures if FirstTried(r.h, r.key, svs, k) then Holds(r, svs[k]) else Addr(svs[k]) !in r.ids
      ensures r.triedTable[TriedSlot(r.h, r.key, svs[k].address.service)] != -1
    {
      EachServed(base, t, svs, k);
      assert k < n ==> rest[k] == svs[k];
    }
    forall i | 0 <= i < TRIED_SLOTS && r.triedTable[i] != -1
      ensures exists j :: 0 <= j < |svs| && TriedSlot(r.h, r.key, svs[j].address.service) == i
    {
      if t.triedTable[i] != -1 {
        var k :| 0 <= k < |rest| && TriedSlot(t.h, t.key, rest[k].address.service) == i;
        assert svs[k] == rest[k];
      } else {
        assert TriedSlot(r.h, r.key, svs[n].address.service) == i;
      }
    }
  }

  lemma {:induction false} AllTriedServed(t: Tables, svs: seq<Saved>)
    requires |t.triedTable| == TRIED_SLOTS && forall i :: 0 <= i < TRIED_SLOTS ==> t.triedTable[i] == -1
    requires DistinctAddrs(svs) && t.ids.Keys !! Addrs(svs) && t.nextId >= 0
    ensures TriedServed(t, LoadTried(t, svs), svs)
  {
    hide TriedSlot;
    hide LoadTriedOne;
    hide FirstTried;
    if svs != [] {
      var n := |svs| - 1;
      AddrsMore(svs);
      hide DistinctAddrs;
      hide Addrs;
      AllTriedServed(t, svs[..n]);
      hide TriedServed;
      TriedServedMore(t, LoadTried(t, svs[..n]), svs);
    }
  }

  // ----- loading a dump of another format

  /** The state before pruning, when there are no bucket lists to go by. */
  lemma EnteredServed(h: Hashes, d: Dump)
    requires DistinctDump(d) && d.newCount >= 0 && |d.entries| == d.newCount && !Keeps(d)
    ensures var t0 := Runs.Cleared(h, d.key).(newCount := d.newCount, triedCount := d.triedCount);
      |t0.newTable| == NEW_SLOTS &&
      var t1 := LoadEntries(t0, d.entries, false).(nextId := d.newCount);
      && Served(t1, d.entries) && TriedServed(t1, Entered(h, d), d.tried)
      && t1.h == h && t1.key == d.key
  {
    hide *;
    DistinctParts(d);
    Start(h, d);
    EnteredIs(h, d);
    var t0 := Runs.Cleared(h, d.key).(newCount := d.newCount, triedCount := d.triedCount);
    AllFree(h, d);
    AllServed(t0, d.entries);
    LoadEntriesKeep(t0, d.entries, Keeps(d), -d.newCount);
    var t1 := LoadEntries(t0, d.entries, false);
    ServedRenumbered(t1, d.entries, d.newCount);
    AllTriedServed(t1.(nextId := d.newCount), d.tried);
  }

  lemma AllFree(h: Hashes, d: Dump)
    ensures var t0 := Runs.Cleared(h, d.key).(newCount := d.newCount, triedCount := d.triedCount);
      && |t0.newTable| == NEW_SLOTS && |t0.triedTable| == TRIED_SLOTS && t0.h == h && t0.key == d.key
      && (forall i :: 0 <= i < NEW_SLOTS ==> t0.newTable[i] == -1)
      && (forall i :: 0 <= i < TRIED_SLOTS ==> t0.triedTable[i] == -1)
      && (forall svs, keep :: LoadEntries(t0, svs, keep).triedTable == t0.triedTable)
  {}

  lemma ServedRenumbered(t: Tables, svs: seq<Saved>, n: int)
    requires Served(t, svs)
    ensures Served(t.(nextId := n), svs)
  {}

  /** From a dump without repeated addresses whose bucket lists are of no use, an untried entry survives exactly
      if it is the first for the slot its own source gives it, and a tried one exactly if it is the first for its
      slot. What survives is as it was saved. */
  lemma OtherFormat(h: Hashes, d: Dump)
    requires Unserialize(h, d).Some? && DistinctDump(d) && d.newCount >= 0 && d.triedCount >= 0 && !Keeps(d)
    ensures var t := Unserialize(h, d).value;
      && |d.entries| == d.newCount && |d.tried| == d.triedCount
      && (forall k :: 0 <= k < |d.entries| ==>
            (k in t.infos && !t.infos[k].inTried <==> FirstNew(h, d.key, d.entries, k)))
      && (forall k :: 0 <= k < |d.entries| && k in t.infos ==>
            Save(t.infos[k]) == d.entries[k] && t.infos[k].refCount == 1)
      && (forall j :: 0 <= j < |d.tried| ==> (SurvivesTried(t, d.tried[j]) <==> FirstTried(h, d.key, d.tried, j)))
  {
    hide *;
    UnserializeAccepted(h, d);
    MaxIs(d.newCount);
    MaxIs(d.triedCount);
    EnteredServed(h, d);
    EnteredInv(h, d);
    var e := Entered(h, d);
    PruneExactly(e, Ops.Max0(e.nextId), Below(d.newCount));
    InvIs(e, Below(d.newCount));
    var t0 := Runs.Cleared(h, d.key).(newCount := d.newCount, triedCount := d.triedCount);
    var t1 := LoadEntries(t0, d.entries, false).(nextId := d.newCount);
    var t := Unserialize(h, d).value;
    EntriesKept(t1, e, t, d.entries, d.tried);
    TriedKeptAll(t1, e, t, d.tried);
  }

  ghost predicate SurvivesTried(t: Tables, sv: Saved) {
    exists id :: id in t.infos && t.infos[id].inTried && Save(t.infos[id]) == sv
  }

  lemma EntriesKept(t1: Tables, e: Tables, t: Tables, svs: seq<Saved>, tried: seq<Saved>)
    requires Served(t1, svs) && t1.nextId == |svs| && TriedServed(t1, e, tried)
    requires Kept(e, t, Ops.Max0(e.nextId))
    ensures forall k :: 0 <= k < |svs| ==>
      && (k in t.infos && !t.infos[k].inTried <==> FirstNew(t1.h, t1.key, svs, k))
      && (k in t.infos ==> Save(t.infos[k]) == svs[k] && t.infos[k].refCount == 1)
  {
    hide FirstNew;
    hide FirstTried;
    hide TriedSlot;
    hide Primary;
    forall k | 0 <= k < |svs|
      ensures k in t.infos && !t.infos[k].inTried <==> FirstNew(t1.h, t1.key, svs, k)
      ensures k in t.infos ==> Save(t.infos[k]) == svs[k] && t.infos[k].refCount == 1
    {
      assert k in e.infos && e.infos[k] == t1.infos[k];
      if k in t.infos {
        assert Alike(t.infos[k], e.infos[k]);
      }
    }
  }

  lemma TriedKeptAll(t1: Tables, e: Tables, t: Tables, svs: seq<Saved>)
    requires TriedServed(t1, e, svs) && IndexInv(e) && Kept(e, t, Ops.Max0(e.nextId))
    ensures forall j :: 0 <= j < |svs| ==> (SurvivesTried(t, svs[j]) <==> FirstTried(t1.h, t1.key, svs, j))
  {
    hide FirstTried;
    hide TriedSlot;
    forall j | 0 <= j < |svs| ensures SurvivesTried(t, svs[j]) <==> FirstTried(e.h, e.key, svs, j) {
      if FirstTried(e.h, e.key, svs, j) {
        var id := e.ids[Addr(svs[j])];
        assert id in t.infos && Alike(t.infos[id], e.infos[id]);
      }
      if SurvivesTried(t, svs[j]) {
        var id :| id in t.infos && t.infos[id].inTried && Save(t.infos[id]) == svs[j];
        assert id in e.infos && Alike(t.infos[id], e.infos[id]);
        assert e.infos[id].Addr() in e.ids;
      }
    }
  }

  /** The dump holds the entries of a manager, whatever its version and its bucket lists. */
  ghost predicate EntriesOf(s: Tables, d: Dump)
    requires Trip.Listed(s)
  {
    && d.key == s.key && d.newCount == s.newCount && d.triedCount == s.triedCount
    && Saves(s.infos, Trip.NewList(s), d.entries) && Saves(s.infos, Trip.TriedList(s), d.tried)
  }

  lemma SavedDistinct(s: Tables, d: Dump)
    requires Inv(s) && Trip.Listed(s) && EntriesOf(s, d)
    ensures DistinctDump(d)
  {
    hide IdsBelow;
    var all, ids := d.entries + d.tried, Trip.NewList(s) + Trip.TriedList(s);
    forall i, j | 0 <= i < j < |all| ensures Addr(all[i]) != Addr(all[j]) {
      assert ids[i] in s.infos && ids[j] in s.infos && ids[i] != ids[j];
      assert Addr(all[i]) == s.infos[ids[i]].Addr() && Addr(all[j]) == s.infos[ids[j]].Addr();
    }
  }

  lemma SavedFirst(s: Tables, d: Dump, j: nat)
    requires Inv(s) && Trip.Listed(s) && EntriesOf(s, d) && j < |d.tried|
    ensures FirstTried(s.h, s.key, d.tried, j)
  {
    hide IdsBelow;
    hide TriedSlot;
    var ids := Trip.TriedList(s);
    forall i | 0 <= i < j
      ensures TriedSlot(s.h, s.key, d.tried[i].address.service) != TriedSlot(s.h, s.key, d.tried[j].address.service)
    {
      assert ids[i] in s.infos && ids[j] in s.infos && ids[i] != ids[j];
      assert s.triedTable[TriedSlot(s.h, s.key, s.infos[ids[i]].Svc())] == ids[i];
      assert s.triedTable[TriedSlot(s.h, s.key, s.infos[ids[j]].Svc())] == ids[j];
    }
  }

  /** Read back from another format, a consistent manager is consistent again, and every tried address is still
      there and tried. */
  lemma TriedSurvive(s: Tables, d: Dump)
    requires Inv(s) && Trip.Listed(s) && EntriesOf(s, d) && !Keeps(d) && Unserialize(s.h, d).Some?
    ensures Inv(Unserialize(s.h, d).value)
    ensures forall id :: id in s.infos && s.infos[id].inTried ==>
      SurvivesTried(Unserialize(s.h, d).value, Save(s.infos[id]))
  {
    hide *;
    SavedDistinct(s, d);
    SavedCounts(s, d);
    LoadedInv(s.h, d);
    OtherFormat(s.h, d);
    forall id | id in s.infos && s.infos[id].inTried
      ensures SurvivesTried(Unserialize(s.h, d).value, Save(s.infos[id]))
    {
      var j := SavedAt(s, d, id);
      SavedFirst(s, d, j);
    }
  }

  lemma SavedCounts(s: Tables, d: Dump)
    requires Trip.Listed(s) && EntriesOf(s, d)
    ensures d.newCount >= 0 && d.triedCount >= 0 && d.key == s.key
  {
    hide IdsBelow;
  }

  lemma SavedAt(s: Tables, d: Dump, id: int) returns (j: nat)
    requires Trip.Listed(s) && EntriesOf(s, d) && id in s.infos && s.infos[id].inTried
    ensures j < |d.tried| && d.tried[j] == Save(s.infos[id])
  {
    hide IdsBelow;
    j := Trip.TriedIndex(s, id);
  }

  // ----- what is refused

  /** The stream holds as many entries and bucket lists as its counts say. */
  ghost predicate Complete(d: Dump) {
    var buckets := if d.version == 0 then d.bucketCount else FlipBit30(d.bucketCount);
    && |d.entries| == (if d.newCount < 0 then 0 else d.newCount)
    && |d.tried| == (if d.triedCount < 0 then 0 else d.triedCount)
    && |d.buckets| == (if buckets < 0 then 0 else buckets)
  }

  /** A complete dump is refused exactly for another key size or for more entries than the tables have slots. */
  lemma RefusedExactly(h: Hashes, d: Dump)
    requires Complete(d)
    ensures Unserialize(h, d).None? <==> d.keySize != 32 || d.newCount > 65536 || d.triedCount > 16384
  {
    hide LoadEntries;
    hide LoadTried;
    hide LoadBuckets;
    hide Prune;
  }

  /** What is written says version 1, key size 32, and 1024 buckets with bit 30 flipped; what is read flips it
      back. */
  lemma HeaderIs(s: Tables)
    requires |s.newTable| == NEW_SLOTS && s.nextId >= 0
    ensures var d := Serialize(s);
      && d.version == 1 && d.keySize == 32 && d.key == s.key && d.bucketCount == 0x4000_0400
      && d.newCount == s.newCount && d.triedCount == s.triedCount && Keeps(d)
  {
    hide IdsBelow;
  }
}
