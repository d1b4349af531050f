/**
 Saving and loading the address manager. The dump holds neither the "tried" table, nor
 the address index, nor the random order, nor any position within a bucket: loading
 recomputes them all.
 */
module AddrSave {
  import opened AddrTables
  import opened Collections
  import Ops = AddrOps
  import Runs = AddrRuns

  /** The persistent part of an entry. */
  datatype Saved = Saved(address: Address, source: NetAddr, lastSuccess: int, attempts: int)

  function Save(info: AddrInfo): Saved {
    Saved(info.address, info.source, info.lastSuccess, info.attempts)
  }

  function Restore(sv: Saved, randomPos: int): AddrInfo {
    AddrInfo(sv.address, sv.source, sv.lastSuccess, sv.attempts, 0, 0, 0, false, randomPos)
  }

  /** The dump: a header, the untried and the tried entries, and per bucket the indexes of
      the untried entries it holds. */
  datatype Dump = Dump(
    version: nat,
    keySize: nat,
    key: nat,
    newCount: int,
    triedCount: int,
    bucketCount: int,
    entries: seq<Saved>,
    tried: seq<Saved>,
    buckets: seq<seq<int>>)


  const BIT30: int := 0x4000_0000

  /** XOR with 2^30, which old readers take for an absurd bucket count. */
  function FlipBit30(x: int): int {
    if (x / BIT30) % 2 == 1 then x - BIT30 else x + BIT30
  }

  // ----- saving

  /** Which of the two walks over the entry map writes an entry. */
  predicate Pick(info: AddrInfo, tried: bool) {
    if tried then info.inTried else info.refCount != 0
  }

  /** The picked ids below `n`, in the order the entry map is walked. */
  function IdsBelow(infos: map<int, AddrInfo>, n: nat, tried: bool): seq<int> {
    if n == 0 then []
    else IdsBelow(infos, n - 1, tried) + (if n - 1 in infos && Pick(infos[n - 1], tried) then [n - 1] else [])
  }

  /** `r` is the saved form of the listed entries. */
  predicate Saves(infos: map<int, AddrInfo>, ids: seq<int>, r: seq<Saved>) {
    |r| == |ids| && forall k :: 0 <= k < |ids| ==> ids[k] in infos && r[k] == Save(infos[ids[k]])
  }

  function SaveAll(infos: map<int, AddrInfo>, ids: seq<int>): (r: seq<Saved>)
    requires forall k :: 0 <= k < |ids| ==> ids[k] in infos
    ensures Saves(infos, ids, r)
  {
    seq(|ids|, k requires 0 <= k < |ids| => Save(infos[ids[k]]))
  }

  /** The index an untried entry gets in the dump. */
  function Index(s: Tables, id: int): nat {
    if id < 0 then 0 else |IdsBelow(s.infos, id, false)|
  }

  /** The indexes held by the first `n` positions of a bucket. */
  function BucketList(s: Tables, bucket: nat, n: nat): seq<int>
    requires |s.newTable| == NEW_SLOTS && bucket < NEW_BUCKETS && n <= BUCKET_SIZE
  {
    if n == 0 then [] else
      var id := s.newTable[bucket * BUCKET_SIZE + n - 1];
      BucketList(s, bucket, n - 1) + (if id == -1 then [] else [Index(s, id)])
  }

  lemma IdsBelowNone(infos: map<int, AddrInfo>, tried: bool)
    ensures IdsBelow(infos, 0, tried) == []
  {}

  lemma IdsBelowNext(infos: map<int, AddrInfo>, n: nat, tried: bool)
    ensures IdsBelow(infos, n + 1, tried) ==
            IdsBelow(infos, n, tried) + (if n in infos && Pick(infos[n], tried) then [n] else [])
  {}

  lemma IdsBelowIn(infos: map<int, AddrInfo>, n: nat, tried: bool)
    ensures forall k :: 0 <= k < |IdsBelow(infos, n, tried)| ==>
      var id := IdsBelow(infos, n, tried)[k]; id in infos && Pick(infos[id], tried) && 0 <= id < n
  {}

  function Serialize(s: Tables): Dump
    requires |s.newTable| == NEW_SLOTS && s.nextId >= 0
  {
    IdsBelowIn(s.infos, s.nextId, false);
    IdsBelowIn(s.infos, s.nextId, true);
    Dump(1, 32, s.key, s.newCount, s.triedCount, FlipBit30(NEW_BUCKETS),
      SaveAll(s.infos, IdsBelow(s.infos, s.nextId, false)),
      SaveAll(s.infos, IdsBelow(s.infos, s.nextId, true)),
      seq(NEW_BUCKETS, b requires 0 <= b < NEW_BUCKETS => BucketList(s, b, BUCKET_SIZE)))
  }

  // ----- loading

  /** Enter untried entry `n`; without usable bucket data it gets a reference from its source. */
  function LoadEntry(t: Tables, n: int, sv: Saved, keep: bool): (r: Tables)
    requires |t.newTable| == NEW_SLOTS
    ensures |r.newTable| == NEW_SLOTS && r.triedTable == t.triedTable
  {
    var u := t.(infos := t.infos[n := Restore(sv, |t.order|)],
                ids := t.ids[sv.address.service.addr := n],
                order := t.order + [n]);
    var slot := Ops.SlotFor(u, n, sv.source);
    if !keep && u.newTable[slot] == -1 then Link(u, slot, n) else u
  }

  function LoadEntries(t: Tables, svs: seq<Saved>, keep: bool): (r: Tables)
    requires |t.newTable| == NEW_SLOTS
    ensures |r.newTable| == NEW_SLOTS && r.triedTable == t.triedTable
  {
    if svs == [] then t else
      var k := |svs| - 1;
      LoadEntry(LoadEntries(t, svs[..k], keep), k, svs[k], keep)
  }

  /** Enter a tried entry unless its slot is taken, in which case it is lost. */
  function LoadTriedOne(t: Tables, sv: Saved): (r: Tables)
    requires |t.triedTable| == TRIED_SLOTS
    ensures |r.triedTable| == TRIED_SLOTS && r.newTable == t.newTable
  {
    var slot := TriedSlot(t.h, t.key, sv.address.service);
    if t.triedTable[slot] == -1 then
      t.(infos := t.infos[t.nextId := Restore(sv, |t.order|).(inTried := true)],
         ids := t.ids[sv.address.service.addr := t.nextId],
         order := t.order + [t.nextId],
         triedTable := t.triedTable[slot := t.nextId],
         nextId := t.nextId + 1)
    else t.(triedCount := t.triedCount - 1)
  }

  function LoadTried(t: Tables, svs: seq<Saved>): (r: Tables)
    requires |t.triedTable| == TRIED_SLOTS
    ensures |r.triedTable| == TRIED_SLOTS && r.newTable == t.newTable
  {
    if svs == [] then t else LoadTriedOne(LoadTried(t, svs[..|svs| - 1]), svs[|svs| - 1])
  }

  /** Give an untried entry a reference from `bucket`, if its slot there is free. */
  function LoadIndex(t: Tables, bucket: nat, index: int): (r: Tables)
    requires |t.newTable| == NEW_SLOTS && bucket < NEW_BUCKETS
    ensures |r.newTable| == NEW_SLOTS
  {
    if !(0 <= index < t.newCount && index in t.infos) then t else
      var slot := NewSlot(t.h, t.key, t.infos[index].Svc(), bucket);
      if t.newTable[slot] == -1 && t.infos[index].refCount < MAX_REFS then Link(t, slot, index) else t
  }

  function LoadBucket(t: Tables, bucket: nat, indexes: seq<int>): (r: Tables)
    requires |t.newTable| == NEW_SLOTS && bucket < NEW_BUCKETS
    ensures |r.newTable| == NEW_SLOTS
  {
    if indexes == [] then t
    else LoadIndex(LoadBucket(t, bucket, indexes[..|indexes| - 1]), bucket, indexes[|indexes| - 1])
  }

  function LoadBuckets(t: Tables, buckets: seq<seq<int>>, n: nat): (r: Tables)
    requires |t.newTable| == NEW_SLOTS && n <= NEW_BUCKETS && n <= |buckets|
    ensures |r.newTable| == NEW_SLOTS
  {
    if n == 0 then t else LoadBucket(LoadBuckets(t, buckets, n - 1), n - 1, buckets[n - 1])
  }

  /** Drop the untried entries below `n` that ended up without a reference. */
  function Prune(t: Tables, n: nat): Tables {
    if n == 0 then t else
      var u := Prune(t, n - 1);
      if n - 1 in u.infos && !u.infos[n - 1].inTried && u.infos[n - 1].refCount == 0 then Delete(u, n - 1) else u
  }

  /** Load a dump into a cleared manager; None when the reader throws. */
  function Unserialize(h: Hashes, d: Dump): Option<Tables> {
    var buckets := if d.version != 0 then FlipBit30(d.bucketCount) else d.bucketCount;
    if
      || d.keySize != 32
      || d.newCount > NEW_SLOTS
      || d.triedCount > TRIED_SLOTS
      || |d.entries| != Ops.Max0(d.newCount)
      || |d.tried| != Ops.Max0(d.triedCount)
      || |d.buckets| != Ops.Max0(buckets)
    then None
    else
      var keep := d.version == 1 && buckets == NEW_BUCKETS;
      var t0 := Runs.Cleared(h, d.key).(newCount := d.newCount, triedCount := d.triedCount);
      var t1 := LoadEntries(t0, d.entries, keep);
      var t2 := LoadTried(t1.(nextId := d.newCount), d.tried);
      var t3 := if keep then LoadBuckets(t2, d.buckets, NEW_BUCKETS) else t2;
      Some(Prune(t3, Ops.Max0(t3.nextId)))
  }

  // ----- the random order is right after loading any dump, consistent or not

  /** Entries and positions in the random order name each other. */
  ghost predicate OrderOk(t: Tables) {
    && (forall id :: id in t.infos ==> 0 <= t.infos[id].randomPos < |t.order| && t.order[t.infos[id].randomPos] == id)
    && (forall k :: 0 <= k < |t.order| ==> t.order[k] in t.infos && t.infos[t.order[k]].randomPos == k)
  }

  ghost predicate IdsUnder(t: Tables, n: int) {
    forall id :: id in t.infos ==> id < n
  }

  lemma OrderAppend(t: Tables, u: Tables, id: int, info: AddrInfo)
    requires OrderOk(t) && id !in t.infos && info.randomPos == |t.order|
    requires u.infos == t.infos[id := info] && u.order == t.order + [id]
    ensures OrderOk(u)
  {}

  lemma OrderKept(t: Tables, u: Tables, id: int)
    requires OrderOk(t) && id in t.infos && id in u.infos && u.infos == t.infos[id := u.infos[id]]
    requires u.infos[id].randomPos == t.infos[id].randomPos && u.order == t.order
    ensures OrderOk(u)
  {}

  lemma LoadEntryOrder(t: Tables, n: int, sv: Saved, keep: bool)
    requires OrderOk(t) && IdsUnder(t, n) && |t.newTable| == NEW_SLOTS
    ensures OrderOk(LoadEntry(t, n, sv, keep)) && IdsUnder(LoadEntry(t, n, sv, keep), n + 1)
  {
    var u := t.(infos := t.infos[n := Restore(sv, |t.order|)],
                ids := t.ids[sv.address.service.addr := n],
                order := t.order + [n]);
    OrderAppend(t, u, n, Restore(sv, |t.order|));
    var r := LoadEntry(t, n, sv, keep);
    OrderKept(u, r, n);
  }

  lemma {:induction false} LoadEntriesOrder(t: Tables, svs: seq<Saved>, keep: bool)
    requires OrderOk(t) && IdsUnder(t, 0) && |t.newTable| == NEW_SLOTS
    ensures OrderOk(LoadEntries(t, svs, keep)) && IdsUnder(LoadEntries(t, svs, keep), |svs|)
  {
    hide OrderOk;
    hide IdsUnder;
    hide LoadEntry;
    if svs != [] {
      var k := |svs| - 1;
      LoadEntriesOrder(t, svs[..k], keep);
      LoadEntryOrder(LoadEntries(t, svs[..k], keep), k, svs[k], keep);
    }
  }

  lemma {:induction false} LoadEntriesCount(t: Tables, svs: seq<Saved>, keep: bool)
    requires |t.newTable| == NEW_SLOTS
    ensures var u := LoadEntries(t, svs, keep); u.newCount == t.newCount && u.h == t.h && (svs == [] ==> u == t)
  {
    if svs != [] {
      LoadEntriesCount(t, svs[..|svs| - 1], keep);
    }
  }

  lemma OrderSame(t: Tables, u: Tables)
    requires OrderOk(t) && u.infos == t.infos && u.order == t.order
    ensures OrderOk(u)
  {}

  lemma {:induction false} LoadTriedOrder(t: Tables, svs: seq<Saved>)
    requires OrderOk(t) && IdsUnder(t, t.nextId) && |t.triedTable| == TRIED_SLOTS
    ensures var u := LoadTried(t, svs); OrderOk(u) && IdsUnder(u, u.nextId)
  {
    hide OrderOk;
    if svs != [] {
      LoadTriedOrder(t, svs[..|svs| - 1]);
      var u := LoadTried(t, svs[..|svs| - 1]);
      LoadTriedOneOrder(u, svs[|svs| - 1]);
    }
  }

  lemma LoadTriedOneOrder(t: Tables, sv: Saved)
    requires OrderOk(t) && IdsUnder(t, t.nextId) && |t.triedTable| == TRIED_SLOTS
    ensures var u := LoadTriedOne(t, sv); OrderOk(u) && IdsUnder(u, u.nextId)
  {
    if t.triedTable[TriedSlot(t.h, t.key, sv.address.service)] == -1 {
      OrderAppend(t, LoadTriedOne(t, sv), t.nextId, Restore(sv, |t.order|).(inTried := true));
    }
  }

  lemma LoadIndexOrder(t: Tables, bucket: nat, index: int)
    requires OrderOk(t) && |t.newTable| == NEW_SLOTS && bucket < NEW_BUCKETS
    ensures OrderOk(LoadIndex(t, bucket, index))
  {
    var u := LoadIndex(t, bucket, index);
    if u != t {
      OrderKept(t, u, index);
    }
  }

  lemma {:induction false} LoadBucketOrder(t: Tables, bucket: nat, indexes: seq<int>)
    requires OrderOk(t) && |t.newTable| == NEW_SLOTS && bucket < NEW_BUCKETS
    ensures OrderOk(LoadBucket(t, bucket, indexes))
  {
    hide OrderOk;
    hide LoadIndex;
    if indexes != [] {
      LoadBucketOrder(t, bucket, indexes[..|indexes| - 1]);
      LoadIndexOrder(LoadBucket(t, bucket, indexes[..|indexes| - 1]), bucket, indexes[|indexes| - 1]);
    }
  }

  lemma {:induction false} LoadBucketsOrder(t: Tables, buckets: seq<seq<int>>, n: nat)
    requires OrderOk(t) && |t.newTable| == NEW_SLOTS && n <= NEW_BUCKETS && n <= |buckets|
    ensures OrderOk(LoadBuckets(t, buckets, n))
  {
    hide OrderOk;
    hide LoadBucket;
    if n > 0 {
      LoadBucketsOrder(t, buckets, n - 1);
      LoadBucketOrder(LoadBuckets(t, buckets, n - 1), n - 1, buckets[n - 1]);
    }
  }

  lemma DeleteOrder(t: Tables, id: int)
    requires OrderOk(t) && id in t.infos
    ensures Deletable(t, id) && OrderOk(Delete(t, id))
  {
    var last := |t.order| - 1;
    var m := SwapRandom(t, t.infos[id].randomPos, last);
    assert m.infos[id].randomPos == last && OrderOk(m);
    assert forall k :: 0 <= k < last ==> m.order[k] != id;
  }

  lemma {:induction false} PruneOrder(t: Tables, n: nat)
    requires OrderOk(t)
    ensures OrderOk(Prune(t, n))
  {
    hide OrderOk;
    hide Delete;
    if n > 0 {
      PruneOrder(t, n - 1);
      if n - 1 in Prune(t, n - 1).infos {
        DeleteOrder(Prune(t, n - 1), n - 1);
      }
    }
  }
}
