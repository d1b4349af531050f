/**
 No range of addresses can fill the address manager's tables: a group of addresses has its place in 8 of the
 256 "tried" buckets, and what a group of sources announces goes into 64 of the 1024 "new" buckets.
 */
module AddrGroups {
  import opened Collections
  import opened AddrTables
  import opened AddrOps
  import opened AddrRuns

  // ----- counting slots

  /** The buckets, out of `all`, that the first `n` choices of a group hash to. */
  function Chosen(hash: (nat, nat, nat) -> nat, key: nat, group: nat, n: nat, all: nat): (r: set<nat>)
    requires all > 0
    ensures |r| <= n
  {
    if n == 0 then {} else Chosen(hash, key, group, n - 1, all) + {hash(key, group, n - 1) % all}
  }

  lemma {:induction false} ChosenHas(hash: (nat, nat, nat) -> nat, key: nat, group: nat, n: nat, all: nat, r: nat)
    requires all > 0 && r < n
    ensures hash(key, group, r) % all in Chosen(hash, key, group, n, all)
  {
    if r < n - 1 {
      ChosenHas(hash, key, group, n - 1, all, r);
    }
  }

  /** The first `n` slots of a bucket. */
  function Row(bucket: nat, n: nat): (r: set<nat>)
    ensures |r| <= n
  {
    if n == 0 then {} else Row(bucket, n - 1) + {64 * bucket + n - 1}
  }

  lemma {:induction false} RowHas(bucket: nat, n: nat, k: nat)
    requires k < n
    ensures 64 * bucket + k in Row(bucket, n)
  {
    if k < n - 1 {
      RowHas(bucket, n - 1, k);
    }
  }

  /** The slots of some buckets of a table. */
  function SlotsOf(buckets: set<nat>, slots: nat): set<nat> {
    set i | 0 <= i < slots && i / 64 in buckets
  }

  lemma {:induction false} FewSlots(buckets: set<nat>, slots: nat)
    ensures |SlotsOf(buckets, slots)| <= 64 * |buckets|
    decreases buckets
  {
    if buckets == {} {
      assert SlotsOf(buckets, slots) == {};
    } else {
      var b := Member(buckets);
      var rest := buckets - {b};
      FewSlots(rest, slots);
      forall i | i in SlotsOf(buckets, slots) ensures i in SlotsOf(rest, slots) + Row(b, 64) {
        if i / 64 == b {
          RowHas(b, 64, i - 64 * b);
        }
      }
      hide Row;
      SubsetSize(SlotsOf(buckets, slots), SlotsOf(rest, slots) + Row(b, 64));
      assert |buckets| == |rest| + 1;
    }
  }

  // ----- the tried table

  /** The buckets a group of addresses may be tried in. */
  function TriedBuckets(h: Hashes, key: nat, group: nat): set<nat> {
    Chosen(h.triedHash, key, group, 8, 256)
  }

  function TriedOf(s: Tables, group: nat): set<int> {
    set id | id in s.infos && s.infos[id].inTried && s.h.group(s.infos[id].Addr()) == group
  }

  lemma TriedInside(h: Hashes, key: nat, svc: Service)
    ensures TriedSlot(h, key, svc) in SlotsOf(TriedBuckets(h, key, h.group(svc.addr)), 16384)
  {
    hide Chosen;
    ChosenHas(h.triedHash, key, h.group(svc.addr), 8, 256, h.keyHash(key, svc) % 8);
  }

  lemma TriedHeld(s: Tables, id: int)
    requires Inv(s) && id in s.infos && s.infos[id].inTried
    ensures var slot := TriedSlot(s.h, s.key, s.infos[id].Svc()); slot < |s.triedTable| && s.triedTable[slot] == id
  {
    hide TriedSlot;
  }

  /** Entries with slots of their own in a set are no more than the set has. */
  lemma {:induction false} OnePerSlot(table: seq<int>, ids: set<int>, slots: set<nat>)
    requires forall id :: id in ids ==> exists i :: i in slots && i < |table| && table[i] == id
    ensures |ids| <= |slots|
    decreases ids
  {
    if ids != {} {
      var id := Member(ids);
      var i :| i in slots && i < |table| && table[i] == id;
      forall x | x in ids - {id} ensures exists j :: j in slots - {i} && j < |table| && table[j] == x {
        var j :| j in slots && j < |table| && table[j] == x;
        assert j in slots - {i};
      }
      OnePerSlot(table, ids - {id}, slots - {i});
    }
  }

  lemma FewTried(h: Hashes, key: nat, group: nat)
    ensures |SlotsOf(TriedBuckets(h, key, group), 16384)| <= 512
  {
    hide Chosen;
    hide SlotsOf;
    FewSlots(TriedBuckets(h, key, group), 16384);
  }

  /** In every consistent state at most 512 entries of one group are tried. */
  lemma TriedBound(s: Tables, group: nat)
    requires Inv(s)
    ensures |TriedOf(s, group)| <= 512
  {
    hide TriedBuckets;
    hide SlotsOf;
    hide TriedSlot;
    var slots := SlotsOf(TriedBuckets(s.h, s.key, group), 16384);
    hide Inv;
    forall id | id in TriedOf(s, group) ensures exists i :: i in slots && i < |s.triedTable| && s.triedTable[i] == id {
      TriedInside(s.h, s.key, s.infos[id].Svc());
      TriedHeld(s, id);
    }
    OnePerSlot(s.triedTable, TriedOf(s, group), slots);
    FewTried(s.h, s.key, group);
  }

  /** So it is on every run. */
  lemma RunTriedBound(states: seq<Tables>, ops: seq<Op>, h: Hashes, key: nat, k: nat, group: nat)
    requires IsRun(states, ops, h, key) && k < |states|
    ensures |TriedOf(states[k], group)| <= 512
  {
    hide *;
    RunKeepsInv(states, ops, h, key, k);
    TriedBound(states[k], group);
  }

  // ----- the new table

  /** The buckets a group of sources may announce into. */
  function NewBuckets(h: Hashes, key: nat, group: nat): set<nat> {
    Chosen(h.newHash, key, group, 64, 1024)
  }

  lemma NewInside(h: Hashes, key: nat, svc: Service, source: NetAddr)
    ensures NewBucket(h, key, svc, source) in NewBuckets(h, key, h.group(source))
  {
    hide Chosen;
    ChosenHas(h.newHash, key, h.group(source), 64, 1024, h.sourceHash(key, h.group(svc.addr), h.group(source)) % 64);
  }

  /** Only slots of the given buckets differ, and only in the "new" table. */
  ghost predicate Confined(s: Tables, t: Tables, buckets: set<nat>) {
    && t.h == s.h && t.key == s.key && t.triedTable == s.triedTable
    && |t.newTable| == |s.newTable|
    && (forall i :: 0 <= i < |s.newTable| && t.newTable[i] != s.newTable[i] ==> i in SlotsOf(buckets, 65536))
  }

  lemma ConfinedTrans(s: Tables, t: Tables, u: Tables, buckets: set<nat>)
    requires Confined(s, t, buckets) && Confined(t, u, buckets)
    ensures Confined(s, u, buckets)
  {}

  lemma PlaceConfined(s: Tables, id: int, slot: nat, now: int, buckets: set<nat>)
    requires id in s.infos && slot < |s.newTable| && slot in SlotsOf(buckets, 65536)
    ensures Confined(s, Place(s, id, slot, now), buckets)
  {}

  /** What is announced changes only slots of the 64 buckets of its source's group. */
  lemma AddConfined(s: Tables, a: AddArgs)
    requires |s.newTable| == NEW_SLOTS
    ensures Confined(s, Add(s, a), NewBuckets(s.h, s.key, s.h.group(a.source)))
  {
    hide NewBuckets;
    hide Place;
    var buckets := NewBuckets(s.h, s.key, s.h.group(a.source));
    var addr := a.addr.service.addr;
    if s.h.routable(addr) {
      if addr in s.ids && s.ids[addr] in s.infos {
        var id := s.ids[addr];
        var u := Touch(s, id, Refresh(s.infos[id], a.addr, Penalty(a), a.now));
        NewInside(u.h, u.key, u.infos[id].Svc(), a.source);
        PlaceConfined(u, id, SlotFor(u, id, a.source), a.now, buckets);
      } else {
        var u := CreateAged(s, a);
        NewInside(u.h, u.key, u.infos[s.nextId].Svc(), a.source);
        PlaceConfined(u, s.nextId, SlotFor(u, s.nextId, a.source), a.now, buckets);
      }
    }
  }

  function AddAll(s: Tables, calls: seq<AddArgs>): (t: Tables)
    requires |s.newTable| == NEW_SLOTS
    ensures |t.newTable| == NEW_SLOTS
  {
    if calls == [] then s
    else
      var u := AddAll(s, calls[..|calls| - 1]);
      AddConfined(u, calls[|calls| - 1]);
      Add(u, calls[|calls| - 1])
  }

  lemma {:induction false} AddAllConfined(s: Tables, calls: seq<AddArgs>, group: nat)
    requires |s.newTable| == NEW_SLOTS && forall i :: 0 <= i < |calls| ==> s.h.group(calls[i].source) == group
    ensures Confined(s, AddAll(s, calls), NewBuckets(s.h, s.key, group))
    decreases |calls|
  {
    hide Add;
    hide NewBuckets;
    if calls != [] {
      var rest, a := calls[..|calls| - 1], calls[|calls| - 1];
      AddAllConfined(s, rest, group);
      AddConfined(AddAll(s, rest), a);
      ConfinedTrans(s, AddAll(s, rest), AddAll(s, calls), NewBuckets(s.h, s.key, group));
    }
  }

  /** However much one group of sources announces, it reaches at most 4096 of the 65536 slots, and no tried
      entry loses its place. */
  lemma AnnouncementsBound(s: Tables, calls: seq<AddArgs>, group: nat)
    requires Inv(s) && |s.newTable| == NEW_SLOTS
    requires forall i :: 0 <= i < |calls| ==> s.h.group(calls[i].source) == group
    ensures var t := AddAll(s, calls);
      && t.triedTable == s.triedTable
      && |set i | 0 <= i < NEW_SLOTS && t.newTable[i] != s.newTable[i]| <= 4096
  {
    hide Inv;
    hide AddAll;
    AddAllConfined(s, calls, group);
    var t, buckets := AddAll(s, calls), NewBuckets(s.h, s.key, group);
    var changed := set i | 0 <= i < NEW_SLOTS && t.newTable[i] != s.newTable[i];
    assert changed <= SlotsOf(buckets, 65536);
    SubsetSize(changed, SlotsOf(buckets, 65536));
    FewSlots(buckets, 65536);
  }
}
