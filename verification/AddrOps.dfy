/**
 The address manager's operations as functions on its tables, and the invariant kept by
 the composite edits they share, up to moving an entry to the "tried" table.
 */
module AddrOps {
  import opened AddrTables
  import opened Powers

  function Max0(x: int): nat { if x < 0 then 0 else x }

  /** Conversion to the unsigned 32-bit time field. */
  function U32(x: int): nat { x % 0x1_0000_0000 }

  function WithTime(info: AddrInfo, time: nat): AddrInfo {
    info.(address := info.address.(time := time))
  }

  // ----- composite edits

  /** Empty a "new" slot, deleting its entry when that was the last reference. */
  function ClearNew(s: Tables, slot: nat): (t: Tables)
    requires slot < |s.newTable|
    ensures |t.newTable| == |s.newTable| && |t.triedTable| == |s.triedTable|
    ensures forall i :: i in s.infos && i != s.newTable[slot] ==> i in t.infos
  {
    var id := s.newTable[slot];
    if id == -1 || id !in s.infos then s
    else
      var u := Unlink(s, slot, id);
      if u.infos[id].refCount == 0 then Delete(u, id) else u
  }

  /** Drop an entry's reference from one "new" bucket. */
  function UnlinkOne(s: Tables, id: int, bucket: nat): (t: Tables)
    requires id in s.infos && |s.newTable| == NEW_SLOTS && bucket < NEW_BUCKETS
    ensures id in t.infos && |t.newTable| == NEW_SLOTS && t.infos[id].Svc() == s.infos[id].Svc()
    ensures |t.triedTable| == |s.triedTable|
  {
    var slot := NewSlot(s.h, s.key, s.infos[id].Svc(), bucket);
    if s.newTable[slot] == id then Unlink(s, slot, id) else s
  }

  /** Drop an entry's references from the first `buckets` "new" buckets. */
  function UnlinkAll(s: Tables, id: int, buckets: nat): (t: Tables)
    requires id in s.infos && |s.newTable| == NEW_SLOTS && buckets <= NEW_BUCKETS
    ensures id in t.infos && |t.newTable| == NEW_SLOTS && t.infos[id].Svc() == s.infos[id].Svc()
    ensures |t.triedTable| == |s.triedTable|
  {
    if buckets == 0 then s else UnlinkOne(UnlinkAll(s, id, buckets - 1), id, buckets - 1)
  }

  function SlotFor(s: Tables, id: int, source: NetAddr): (slot: nat)
    requires id in s.infos
    ensures slot < NEW_SLOTS && slot == NewSlot(s.h, s.key, s.infos[id].Svc(), slot / BUCKET_SIZE)
  {
    NewSlot(s.h, s.key, s.infos[id].Svc(), NewBucket(s.h, s.key, s.infos[id].Svc(), source))
  }

  /** Give an entry that just left the "tried" table the "new" slot it hashes to. */
  function MoveBack(u: Tables, id: int, back: nat): (t: Tables)
    requires back < |u.newTable| && id in u.infos
    ensures |t.triedTable| == |u.triedTable|
  {
    var v := ClearNew(u, back);
    if id !in v.infos then v
    else
      v.(newTable := v.newTable[back := id],
         infos := v.infos[id := v.infos[id].(refCount := 1)],
         newCount := v.newCount + 1)
  }

  /** Move whatever occupies a "tried" slot back to the "new" table. */
  function MakeRoom(s: Tables, slot: nat): (t: Tables)
    requires slot < |s.triedTable| && |s.newTable| == NEW_SLOTS
    ensures |t.triedTable| == |s.triedTable|
  {
    var id := s.triedTable[slot];
    if id == -1 || id !in s.infos then s
    else
      var u := Evict(s, slot, id);
      MoveBack(u, id, SlotFor(u, id, u.infos[id].source))
  }

  function MakeTried(s: Tables, id: int): Tables
    requires id in s.infos && |s.newTable| == NEW_SLOTS && |s.triedTable| == TRIED_SLOTS
  {
    var u := UnlinkAll(s, id, NEW_BUCKETS);
    var v := u.(newCount := u.newCount - 1);
    var slot := TriedSlot(v.h, v.key, v.infos[id].Svc());
    var w := MakeRoom(v, slot);
    if id in w.infos then Promote(w, slot, id) else w
  }

  /** A slot's occupant gives way to an entry with `refs` references. */
  predicate GivesWay(occupant: AddrInfo, refs: int, now: int) {
    occupant.IsTerrible(now) || (occupant.refCount > 1 && refs == 0)
  }

  /** Enter `id` into a "new" slot, or drop it when the slot's occupant is worth keeping. */
  function Place(s: Tables, id: int, slot: nat, now: int): Tables
    requires id in s.infos && slot < |s.newTable|
  {
    var x := s.newTable[slot];
    if x == id then s
    else if x == -1 || x !in s.infos || GivesWay(s.infos[x], s.infos[id].refCount, now) then
      Link(ClearNew(s, slot), slot, id)
    else if s.infos[id].refCount == 0 then Delete(s, id)
    else s
  }

  // ----- operations

  /** What hearing of a known address again does to its time and services. */
  function Refresh(info: AddrInfo, addr: Address, penalty: int, now: int): AddrInfo {
    var interval := if now - addr.time < 24 * 60 * 60 then 60 * 60 else 24 * 60 * 60;
    var stale := addr.time != 0 && (info.address.time == 0 || info.address.time < addr.time - interval - penalty);
    var time := if stale then U32(Max0(addr.time - penalty)) else info.address.time;
    info.(address := info.address.(time := time, services := info.address.services + addr.services))
  }

  /** Whether a known address gets another reference; `roll` is the random draw. */
  predicate WantsReference(info: AddrInfo, addr: Address, roll: nat) {
    && addr.time != 0
    && !(info.address.time != 0 && addr.time <= info.address.time)
    && !info.inTried
    && info.refCount != MAX_REFS
    && (info.refCount <= 0 || roll % Pow2(info.refCount) == 0)
  }

  datatype AddArgs = AddArgs(addr: Address, source: NetAddr, penalty: int, now: int, roll: nat)

  function Penalty(a: AddArgs): int {
    if a.addr.service.addr == a.source then 0 else a.penalty
  }

  function AddKnown(s: Tables, a: AddArgs, id: int): Tables
    requires id in s.infos && |s.newTable| == NEW_SLOTS
  {
    var t := Touch(s, id, Refresh(s.infos[id], a.addr, Penalty(a), a.now));
    if WantsReference(t.infos[id], a.addr, a.roll) then Place(t, id, SlotFor(t, id, a.source), a.now) else t
  }

  function CreateAged(s: Tables, a: AddArgs): (t: Tables)
    ensures s.nextId in t.infos && t.newTable == s.newTable
  {
    var t := Create(s, a.addr, a.source);
    var info := t.infos[s.nextId];
    Touch(t, s.nextId, WithTime(info, U32(Max0(info.address.time - Penalty(a))))).(newCount := t.newCount + 1)
  }

  function Add(s: Tables, a: AddArgs): Tables
    requires |s.newTable| == NEW_SLOTS
  {
    if !s.h.routable(a.addr.service.addr) then s
    else if a.addr.service.addr in s.ids && s.ids[a.addr.service.addr] in s.infos then
      AddKnown(s, a, s.ids[a.addr.service.addr])
    else
      var t := CreateAged(s, a);
      Place(t, s.nextId, SlotFor(t, s.nextId, a.source), a.now)
  }

  /** The entry for exactly this service, if the manager has one. */
  predicate Matches(s: Tables, svc: Service) {
    && svc.addr in s.ids
    && s.ids[svc.addr] in s.infos
    && s.infos[s.ids[svc.addr]].Svc() == svc
  }

  /** Some "new" bucket holds the entry where it hashes to. */
  predicate HasBucket(s: Tables, id: int)
    requires id in s.infos && |s.newTable| == NEW_SLOTS
  {
    exists b :: 0 <= b < NEW_BUCKETS && s.newTable[NewSlot(s.h, s.key, s.infos[id].Svc(), b)] == id
  }

  function Good(s: Tables, svc: Service, time: int): Tables
    requires |s.newTable| == NEW_SLOTS && |s.triedTable| == TRIED_SLOTS
  {
    var s0 := s.(lastGood := time);
    if !Matches(s, svc) then s0 else
      var id := s.ids[svc.addr];
      var s1 := Touch(s0, id, s.infos[id].(lastSuccess := time, lastTry := time, attempts := 0));
      if s.infos[id].inTried || !HasBucket(s1, id) then s1 else MakeTried(s1, id)
  }

  function Attempt(s: Tables, svc: Service, countFailure: bool, time: int): Tables {
    if !Matches(s, svc) then s else
      var info := s.infos[s.ids[svc.addr]].(lastTry := time);
      Touch(s, s.ids[svc.addr],
        if countFailure && info.lastCountAttempt < s.lastGood
        then info.(lastCountAttempt := time, attempts := info.attempts + 1)
        else info)
  }

  function Connected(s: Tables, svc: Service, time: int): Tables {
    if !Matches(s, svc) then s else
      var info := s.infos[s.ids[svc.addr]];
      if time - info.address.time > 20 * 60 then Touch(s, s.ids[svc.addr], WithTime(info, U32(time))) else s
  }

  function SetServices(s: Tables, svc: Service, services: set<nat>): Tables {
    if !Matches(s, svc) then s else
      var info := s.infos[s.ids[svc.addr]];
      Touch(s, s.ids[svc.addr], info.(address := info.address.(services := services)))
  }

  // ----- the composite edits keep the invariant

  /** ClearNew empties the slot; of the other entries it changes only random positions. */
  ghost predicate ClearedNew(s: Tables, t: Tables, slot: nat)
    requires slot < |s.newTable|
  {
    var id := s.newTable[slot];
    && t.newTable == s.newTable[slot := -1]
    && t.infos.Keys <= s.infos.Keys <= t.infos.Keys + {id}
    && (forall i :: i in t.infos && i != id ==> Alike(t.infos[i], s.infos[i]))
    && (id in t.infos ==> Alike(t.infos[id], s.infos[id].(refCount := s.infos[id].refCount - 1)))
    && (id in s.infos ==> (id in t.infos <==> s.infos[id].refCount != 1))
    && t == s.(infos := t.infos, ids := t.ids, order := t.order, newCount := t.newCount, newTable := t.newTable)
  }

  lemma ClearNewEffect(s: Tables, slot: nat)
    requires IndexInv(s) && slot < |s.newTable|
    requires s.newTable[slot] == -1 || s.newTable[slot] in s.infos
    ensures ClearedNew(s, ClearNew(s, slot), slot)
  {
    var id := s.newTable[slot];
    if id == -1 {
      assert s.newTable == s.newTable[slot := -1];
    } else {
      var u := Unlink(s, slot, id);
      IndexKept(s, u, id);
      DeleteEffect(u, id);
    }
  }

  lemma ClearNewKeepsTried(s: Tables, slot: nat)
    requires slot < |s.newTable|
    ensures ClearNew(s, slot).triedTable == s.triedTable
  {}

  lemma ClearNewKeeps(s: Tables, slot: nat, transit: set<int>, owed: int)
    requires InvDuring(s, transit, owed) && slot < NEW_SLOTS
    ensures InvDuring(ClearNew(s, slot), transit, owed)
  {
    var id := s.newTable[slot];
    if id != -1 {
      UnlinkKeeps(s, slot, id, transit, owed);
      var u := Unlink(s, slot, id);
      assert id in u.infos && !u.infos[id].inTried;
      assert ClearNew(s, slot) == if u.infos[id].refCount == 0 then Delete(u, id) else u;
      hide *;
      ClearNewTail(u, id, transit, owed);
    }
  }

  lemma ClearNewTail(u: Tables, id: int, transit: set<int>, owed: int)
    requires InvDuring(u, transit + {id}, owed) && id in u.infos && !u.infos[id].inTried
    ensures InvDuring(if u.infos[id].refCount == 0 then Delete(u, id) else u, transit, owed)
  {
    if u.infos[id].refCount == 0 {
      DeleteKeeps(u, id, transit + {id}, owed);
      TransitNarrows(Delete(u, id), transit + {id} - {id}, transit, owed);
    } else {
      TransitSettles(u, id, transit, owed);
    }
  }

  lemma TransitNarrows(s: Tables, narrow: set<int>, wide: set<int>, owed: int)
    requires InvDuring(s, narrow, owed) && narrow <= wide
    ensures InvDuring(s, wide, owed)
  {}

  lemma TransitSettles(s: Tables, id: int, transit: set<int>, owed: int)
    requires InvDuring(s, transit + {id}, owed)
    requires id in s.infos && (s.infos[id].inTried || s.infos[id].refCount > 0)
    ensures InvDuring(s, transit, owed)
  {}

  lemma {:induction false} UnlinkAllEffect(s: Tables, id: int, buckets: nat)
    requires id in s.infos && |s.newTable| == NEW_SLOTS && buckets <= NEW_BUCKETS && id != -1
    ensures var t := UnlinkAll(s, id, buckets);
      && t.infos == s.infos[id := s.infos[id].(refCount := t.infos[id].refCount)]
      && t == s.(infos := t.infos, newTable := t.newTable)
      && (forall b :: 0 <= b < buckets ==> t.newTable[NewSlot(s.h, s.key, s.infos[id].Svc(), b)] != id)
      && (forall i :: 0 <= i < NEW_SLOTS ==>
            t.newTable[i] == s.newTable[i] || (s.newTable[i] == id && t.newTable[i] == -1))
  {
    if buckets > 0 {
      UnlinkAllEffect(s, id, buckets - 1);
    }
  }

  lemma UnlinkOneKeeps(t: Tables, id: int, b: nat, transit: set<int>, owed: int)
    requires InvDuring(t, transit, owed) && id in transit && id in t.infos && b < NEW_BUCKETS && id != -1
    requires |t.newTable| == NEW_SLOTS
    ensures InvDuring(UnlinkOne(t, id, b), transit, owed)
  {
    hide InvDuring;
    var slot := NewSlot(t.h, t.key, t.infos[id].Svc(), b);
    assert transit + {id} == transit;
    if t.newTable[slot] == id {
      UnlinkKeeps(t, slot, id, transit, owed);
    }
  }

  lemma {:induction false} UnlinkAllKeeps(s: Tables, id: int, buckets: nat, transit: set<int>, owed: int)
    requires InvDuring(s, transit, owed) && id in transit && id in s.infos && buckets <= NEW_BUCKETS && id != -1
    requires |s.newTable| == NEW_SLOTS
    ensures InvDuring(UnlinkAll(s, id, buckets), transit, owed)
  {
    hide InvDuring;
    hide UnlinkOne;
    if buckets > 0 {
      UnlinkAllKeeps(s, id, buckets - 1, transit, owed);
      UnlinkOneKeeps(UnlinkAll(s, id, buckets - 1), id, buckets - 1, transit, owed);
    }
  }

  /** After the loop over all buckets the entry has no reference left. */
  lemma UnlinkAllClears(s: Tables, id: int)
    requires NewInv(s) && id in s.infos && id != -1
    ensures Slots(UnlinkAll(s, id, NEW_BUCKETS).newTable, id) == {}
  {
    UnlinkAllEffect(s, id, NEW_BUCKETS);
    var t := UnlinkAll(s, id, NEW_BUCKETS);
    forall i | 0 <= i < NEW_SLOTS ensures t.newTable[i] != id {
      assert i / BUCKET_SIZE < NEW_BUCKETS;
      assert t.newTable[NewSlot(s.h, s.key, s.infos[id].Svc(), i / BUCKET_SIZE)] != id;
    }
  }

  lemma MakeRoomKeeps(s: Tables, slot: nat, transit: set<int>, owed: int)
    requires InvDuring(s, transit, owed) && slot < TRIED_SLOTS
    requires s.triedTable[slot] !in transit
    ensures InvDuring(MakeRoom(s, slot), transit, owed)
  {
    var id := s.triedTable[slot];
    if id != -1 {
      var u := Evict(s, slot, id);
      EvictedFacts(s, slot, transit);
      hide *;
      EvictKeeps(s, slot, id, transit, owed);
      MoveBackKeeps(u, id, SlotFor(u, id, u.infos[id].source), transit, owed + 1);
    }
  }

  /** An evicted entry has no reference, and room is made by moving it back. */
  lemma EvictedFacts(s: Tables, slot: nat, transit: set<int>)
    requires TriedInv(s) && EntryInv(s, transit) && IndexInv(s) && |s.newTable| == NEW_SLOTS
    requires slot < TRIED_SLOTS && s.triedTable[slot] != -1
    ensures var id := s.triedTable[slot]; var u := Evict(s, slot, id);
      && id in s.infos
      && !u.infos[id].inTried && u.infos[id].refCount == 0
      && MakeRoom(s, slot) == MoveBack(u, id, SlotFor(u, id, u.infos[id].source))
  {}

  lemma MoveBackFacts(u: Tables, id: int, back: nat, transit: set<int>, owed: int)
    requires InvDuring(u, transit, owed) && id in u.infos
    requires !u.infos[id].inTried && u.infos[id].refCount == 0
    requires back < NEW_SLOTS && back == NewSlot(u.h, u.key, u.infos[id].Svc(), back / BUCKET_SIZE)
    ensures |u.newTable| == NEW_SLOTS
    ensures var v := ClearNew(u, back);
      && id in v.infos && Alike(v.infos[id], u.infos[id])
      && !v.infos[id].inTried && v.infos[id].refCount == 0 < MAX_REFS
      && v.newTable[back] == -1
      && back == NewSlot(v.h, v.key, v.infos[id].Svc(), back / BUCKET_SIZE)
  {
    NoSlots(u.newTable, id);
    ClearNewEffect(u, back);
  }

  lemma MoveBackIsLink(u: Tables, id: int, back: nat)
    requires back < |u.newTable| && id in u.infos
    requires var v := ClearNew(u, back); id in v.infos && v.infos[id].refCount == 0
    ensures var v := ClearNew(u, back); var w := Link(v, back, id);
            MoveBack(u, id, back) == w.(newCount := w.newCount + 1)
  {}

  lemma CountShift(s: Tables, k: int, transit: set<int>, owed: int)
    requires InvDuring(s, transit, owed)
    ensures InvDuring(s.(newCount := s.newCount + k), transit, owed - k)
  {}

  /** An evicted entry, with no reference, takes over its "new" slot. */
  lemma MoveBackKeeps(u: Tables, id: int, back: nat, transit: set<int>, owed: int)
    requires InvDuring(u, transit + {id}, owed) && id in u.infos && id !in transit
    requires !u.infos[id].inTried && u.infos[id].refCount == 0
    requires back < NEW_SLOTS && back == NewSlot(u.h, u.key, u.infos[id].Svc(), back / BUCKET_SIZE)
    ensures InvDuring(MoveBack(u, id, back), transit, owed - 1)
  {
    hide *;
    MoveBackFacts(u, id, back, transit + {id}, owed);
    ClearNewKeeps(u, back, transit + {id}, owed);
    var v := ClearNew(u, back);
    LinkKeeps(v, back, id, transit + {id}, owed);
    assert transit + {id} - {id} == transit;
    CountShift(Link(v, back, id), 1, transit, owed);
    MoveBackIsLink(u, id, back);
  }

  lemma MakeTriedFacts(s: Tables, id: int, transit: set<int>, owed: int)
    requires InvDuring(s, transit, owed) && id in s.infos && !s.infos[id].inTried
    ensures id != -1 && |s.newTable| == NEW_SLOTS && |s.triedTable| == TRIED_SLOTS
    ensures InvDuring(s, transit + {id}, owed)
    ensures var u := UnlinkAll(s, id, NEW_BUCKETS);
      && u.triedTable == s.triedTable && u.h == s.h && u.key == s.key
      && u.infos[id] == s.infos[id].(refCount := u.infos[id].refCount)
      && Slots(u.newTable, id) == {}
    ensures var slot := TriedSlot(s.h, s.key, s.infos[id].Svc()); slot < TRIED_SLOTS && s.triedTable[slot] != id
  {
    UnlinkAllEffect(s, id, NEW_BUCKETS);
    UnlinkAllClears(s, id);
  }

  /** Making room does not touch an entry that has no slot of its own. */
  lemma MakeRoomFrame(v: Tables, slot: nat, id: int, transit: set<int>, owed: int)
    requires InvDuring(v, transit, owed) && id in v.infos && !v.infos[id].inTried
    requires slot < TRIED_SLOTS && Slots(v.newTable, id) == {}
    ensures var w := MakeRoom(v, slot);
      && id in w.infos && Alike(w.infos[id], v.infos[id])
      && w.triedTable == v.triedTable[slot := -1] && w.h == v.h && w.key == v.key
  {
    var e := v.triedTable[slot];
    if e == -1 {
      assert v.triedTable == v.triedTable[slot := -1];
    } else {
      var u := Evict(v, slot, e);
      IndexKept(v, u, e);
      NoSlots(v.newTable, id);
      ClearNewEffect(u, SlotFor(u, e, u.infos[e].source));
    }
  }

  lemma NoSlotsNoRefs(s: Tables, id: int, transit: set<int>, owed: int)
    requires InvDuring(s, transit, owed) && id in s.infos && Slots(s.newTable, id) == {}
    ensures s.infos[id].refCount == 0
  {}

  /** MakeTried by its three steps: drop every reference, make room, promote. */
  lemma MakeTriedSteps(s: Tables, id: int)
    requires id in s.infos && |s.newTable| == NEW_SLOTS && |s.triedTable| == TRIED_SLOTS
    ensures var u := UnlinkAll(s, id, NEW_BUCKETS); var v := u.(newCount := u.newCount - 1);
      && id in u.infos && |u.newTable| == NEW_SLOTS && |u.triedTable| == TRIED_SLOTS
      && MakeTried(s, id) ==
         var slot := TriedSlot(v.h, v.key, v.infos[id].Svc()); var w := MakeRoom(v, slot);
         if id in w.infos then Promote(w, slot, id) else w
  {
    hide UnlinkOne;
    hide MakeRoom;
  }

  lemma MakeTriedKeeps(s: Tables, id: int)
    requires Inv(s) && id in s.infos && !s.infos[id].inTried
    requires |s.newTable| == NEW_SLOTS && |s.triedTable| == TRIED_SLOTS
    ensures Inv(MakeTried(s, id))
  {
    hide *;
    InvIsDuring(s);
    MakeTriedFacts(s, id, {}, 0);
    MakeTriedSteps(s, id);
    TableConsts();
    var u := UnlinkAll(s, id, NEW_BUCKETS);
    var v := u.(newCount := u.newCount - 1);
    var slot := TriedSlot(v.h, v.key, v.infos[id].Svc());
    assert {} + {id} == {id};
    UnlinkAllKeeps(s, id, NEW_BUCKETS, {id}, 0);
    CountShift(u, -1, {id}, 0);
    NoSlotsNoRefs(v, id, {id}, 1);
    MakeTriedTail(v, id, slot);
    InvIsDuring(MakeTried(s, id));
  }

  lemma InvIsDuring(s: Tables)
    ensures Inv(s) <==> InvDuring(s, {}, 0)
  {}

  lemma TableConsts()
    ensures NEW_BUCKETS == 1024
  {}

  lemma MakeTriedTail(v: Tables, id: int, slot: nat)
    requires InvDuring(v, {id}, 1) && id in v.infos && !v.infos[id].inTried
    requires |v.newTable| == NEW_SLOTS && |v.triedTable| == TRIED_SLOTS
    requires slot == TriedSlot(v.h, v.key, v.infos[id].Svc()) && v.triedTable[slot] != id
    requires Slots(v.newTable, id) == {} && v.infos[id].refCount == 0
    ensures var w := MakeRoom(v, slot); id in w.infos && InvDuring(Promote(w, slot, id), {}, 0)
  {
    hide InvDuring;
    hide MakeRoom;
    MakeRoomKeeps(v, slot, {id}, 1);
    MakeRoomFrame(v, slot, id, {id}, 1);
    PromoteKeeps(MakeRoom(v, slot), slot, id, {id}, 1);
    assert {id} - {id} == {};
  }
}
