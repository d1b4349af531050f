/**
 What adding an address and marking one good do to the set of known addresses:
 who gets in, who is moved, and who may be forgotten.
 */
module AddrEffects {
  import opened AddrTables
  import opened AddrOps
  import opened AddrRuns

  /** Every entry but `victim` is still there, on the same side and for the same service. */
  ghost predicate KeepsOthers(s: Tables, t: Tables, victim: int, moved: set<int>) {
    forall id :: id in s.infos && id != victim && id !in moved ==>
      && id in t.infos
      && t.infos[id].Svc() == s.infos[id].Svc()
      && t.infos[id].inTried == s.infos[id].inTried
  }

  /** The victim is forgotten only if it was an untried entry with a single reference. */
  ghost predicate FairVictim(s: Tables, t: Tables, victim: int) {
    victim in s.infos ==>
      && !s.infos[victim].inTried
      && (victim !in t.infos ==> s.infos[victim].refCount == 1)
      && (victim in t.infos ==> t.infos[victim].Svc() == s.infos[victim].Svc() && !t.infos[victim].inTried)
  }

  /** When only `victim` may go, at most one address is forgotten. */
  lemma AtMostOneForgotten(s: Tables, t: Tables, victim: int, moved: set<int>)
    requires IndexInv(s) && IndexInv(t) && KeepsOthers(s, t, victim, moved)
    requires forall id :: id in moved ==> id in s.infos && id in t.infos && t.infos[id].Svc() == s.infos[id].Svc()
    ensures |s.ids.Keys - t.ids.Keys| <= 1
  {
    var gone := s.ids.Keys - t.ids.Keys;
    forall a | a in gone ensures s.ids[a] == victim {
      var id := s.ids[a];
      assert id in s.infos && s.infos[id].Addr() == a;
      assert id in t.infos && id != victim ==> t.infos[id].Addr() in t.ids;
    }
    if victim in s.infos {
      assert gone <= {s.infos[victim].Addr()};
      SubsetOne(gone, s.infos[victim].Addr());
    } else {
      assert gone == {};
    }
  }

  lemma SubsetOne(xs: set<NetAddr>, a: NetAddr)
    requires xs <= {a}
    ensures |xs| <= 1
  {
    if a in xs {
      assert xs == {a};
    } else {
      assert xs == {};
    }
  }

  // ----- adding

  /** What placing `id` in a slot occupied by `x` does to the entries. */
  ghost predicate Placed(s: Tables, t: Tables, id: int, x: int, now: int)
    requires id in s.infos
  {
    && t.infos.Keys <= s.infos.Keys
    && (forall i :: i in s.infos && i != x && i != id ==> i in t.infos && Alike(t.infos[i], s.infos[i]))
    && (id in t.infos ==> t.infos[id].Svc() == s.infos[id].Svc() && t.infos[id].inTried == s.infos[id].inTried)
    && (x != id ==> FairVictim(s, t, x))
    && (id in t.infos <==>
         x == id || x !in s.infos || GivesWay(s.infos[x], s.infos[id].refCount, now) || s.infos[id].refCount != 0)
  }

  lemma PlaceEffect(s: Tables, id: int, slot: nat, now: int)
    requires IndexInv(s) && id in s.infos && slot < |s.newTable|
    requires var x := s.newTable[slot]; x != -1 ==> x in s.infos && !s.infos[x].inTried
    ensures Placed(s, Place(s, id, slot, now), id, s.newTable[slot], now)
  {
    var x := s.newTable[slot];
    if x == id {
    } else if x == -1 || GivesWay(s.infos[x], s.infos[id].refCount, now) {
      PlaceLinkEffect(s, id, slot, now);
    } else if s.infos[id].refCount == 0 {
      PlaceDropEffect(s, id, x, now);
    }
  }

  lemma PlaceLinkEffect(s: Tables, id: int, slot: nat, now: int)
    requires IndexInv(s) && id in s.infos && slot < |s.newTable|
    requires var x := s.newTable[slot];
      x != id && (x != -1 ==> x in s.infos && !s.infos[x].inTried && GivesWay(s.infos[x], s.infos[id].refCount, now))
    ensures Placed(s, Link(ClearNew(s, slot), slot, id), id, s.newTable[slot], now)
  {
    var c := ClearNew(s, slot);
    var x := s.newTable[slot];
    ClearNewEffect(s, slot);
    assert -1 !in s.infos;
    hide IndexInv;
    hide ClearNew;
    assert Alike(c.infos[id], s.infos[id]);
    var t := Link(c, slot, id);
    assert FairVictim(s, t, x);
  }

  lemma PlaceDropEffect(s: Tables, id: int, x: int, now: int)
    requires IndexInv(s) && id in s.infos && x in s.infos && x != id && !s.infos[x].inTried
    requires !GivesWay(s.infos[x], s.infos[id].refCount, now) && s.infos[id].refCount == 0
    ensures Placed(s, Delete(s, id), id, x, now)
  {
    DeleteEffect(s, id);
    hide Delete;
    hide IndexInv;
    assert Alike(Delete(s, id).infos[x], s.infos[x]);
  }

  /** A routable address the manager does not know gets in exactly when its slot is free,
      or the occupant is not worth keeping or has other references. */
  lemma AddAdmits(s: Tables, a: AddArgs)
    requires Inv(s) && |s.newTable| == NEW_SLOTS
    requires s.h.routable(a.addr.service.addr) && a.addr.service.addr !in s.ids
    ensures var x := s.newTable[NewSlot(s.h, s.key, a.addr.service, NewBucket(s.h, s.key, a.addr.service, a.source))];
      a.addr.service.addr in Add(s, a).ids <==>
        x !in s.infos || !WorthKeeping(s.infos[x], a.now) || s.infos[x].refCount > 1
  {
    var x := s.newTable[NewSlot(s.h, s.key, a.addr.service, NewBucket(s.h, s.key, a.addr.service, a.source))];
    if x in s.infos {
      TerribleExactly(s.infos[x], a.now);
    }
    AddNewEffect(s, a);
    AddKeeps(s, a);
    InvIndex(Add(s, a));
    AddrIsKnown(Add(s, a), s.nextId, a.addr.service.addr);
  }

  lemma AddrIsKnown(t: Tables, id: int, addr: NetAddr)
    requires IndexInv(t) && (id in t.infos ==> t.infos[id].Addr() == addr)
    requires forall i :: i in t.infos && i != id ==> t.infos[i].Addr() != addr
    ensures addr in t.ids <==> id in t.infos
  {
    if addr in t.ids {
      var i := t.ids[addr];
      assert i in t.infos && t.infos[i].Addr() == addr;
      assert i == id;
    }
    if id in t.infos {
      assert t.infos[id].Addr() in t.ids;
    }
  }

  lemma SlotFacts(s: Tables, slot: nat, transit: set<int>, owed: int)
    requires InvDuring(s, transit, owed) && slot < NEW_SLOTS
    ensures IndexInv(s) && |s.newTable| == NEW_SLOTS && s.nextId !in s.infos
    ensures var x := s.newTable[slot]; x == -1 || (x in s.infos && !s.infos[x].inTried)
  {}

  lemma AddNewEffect(s: Tables, a: AddArgs)
    requires Inv(s) && |s.newTable| == NEW_SLOTS
    requires s.h.routable(a.addr.service.addr) && a.addr.service.addr !in s.ids
    ensures var slot := NewSlot(s.h, s.key, a.addr.service, NewBucket(s.h, s.key, a.addr.service, a.source));
      var t := Add(s, a); var x := s.newTable[slot];
      && t.infos.Keys <= s.infos.Keys + {s.nextId}
      && KeepsOthers(s, t, x, {}) && FairVictim(s, t, x)
      && (s.nextId in t.infos ==> t.infos[s.nextId].Svc() == a.addr.service)
      && (s.nextId in t.infos <==> x !in s.infos || s.infos[x].IsTerrible(a.now) || s.infos[x].refCount > 1)
      && (forall i :: i in t.infos && i != s.nextId ==> t.infos[i].Addr() != a.addr.service.addr)
  {
    var c := CreateAged(s, a);
    var slot := NewSlot(s.h, s.key, a.addr.service, NewBucket(s.h, s.key, a.addr.service, a.source));
    CreateAgedKeeps(s, a);
    CreateAgedFacts(s, a);
    SlotFacts(s, slot, {}, 0);
    SlotFacts(c, slot, {s.nextId}, 0);
    var t := Place(c, s.nextId, slot, a.now);
    assert Add(s, a) == t;
    hide CreateAged;
    hide Place;
    hide InvDuring;
    PlaceEffect(c, s.nextId, slot, a.now);
    PlacedNew(s, c, t, s.newTable[slot], a);
  }

  lemma PlacedNew(s: Tables, c: Tables, t: Tables, x: int, a: AddArgs)
    requires IndexInv(s) && s.nextId !in s.infos && a.addr.service.addr !in s.ids
    requires x == -1 || (x in s.infos && !s.infos[x].inTried)
    requires c.infos.Keys == s.infos.Keys + {s.nextId}
    requires c.infos[s.nextId].refCount == 0 && c.infos[s.nextId].Svc() == a.addr.service
    requires forall i :: i in s.infos && i != s.nextId ==> c.infos[i] == s.infos[i]
    requires Placed(c, t, s.nextId, x, a.now)
    ensures t.infos.Keys <= s.infos.Keys + {s.nextId}
    ensures KeepsOthers(s, t, x, {}) && FairVictim(s, t, x)
    ensures s.nextId in t.infos ==> t.infos[s.nextId].Svc() == a.addr.service
    ensures s.nextId in t.infos <==> x !in s.infos || s.infos[x].IsTerrible(a.now) || s.infos[x].refCount > 1
    ensures forall i :: i in t.infos && i != s.nextId ==> t.infos[i].Addr() != a.addr.service.addr
  {
    assert -1 !in s.infos;
    forall i | i in t.infos && i != s.nextId ensures t.infos[i].Svc() == s.infos[i].Svc() {
      if i != x {
        assert Alike(t.infos[i], c.infos[i]);
      }
    }
    forall id | id in s.infos && id != x
      ensures id in t.infos && t.infos[id].Svc() == s.infos[id].Svc() && t.infos[id].inTried == s.infos[id].inTried
    {
      assert Alike(t.infos[id], c.infos[id]);
    }
  }

  /** Adding a known address changes no other entry's side, and forgets at most the
      single-reference entry whose slot it takes. */
  lemma AddKnownEffect(s: Tables, a: AddArgs, id: int)
    requires Inv(s) && |s.newTable| == NEW_SLOTS && id in s.infos
    ensures var t := AddKnown(s, a, id); var x := s.newTable[SlotFor(s, id, a.source)];
      && KeepsOthers(s, t, x, {id}) && (x != id ==> FairVictim(s, t, x))
      && id in t.infos && t.infos[id].Svc() == s.infos[id].Svc() && t.infos[id].inTried == s.infos[id].inTried
  {
    var slot := SlotFor(s, id, a.source);
    SlotFacts(s, slot, {}, 0);
    var u := Touch(s, id, Refresh(s.infos[id], a.addr, Penalty(a), a.now));
    if WantsReference(u.infos[id], a.addr, a.roll) {
      assert AddKnown(s, a, id) == Place(u, id, slot, a.now);
      assert s.infos[id].refCount != 0;
      IndexKept(s, u, id);
      hide Place;
      hide InvDuring;
      PlaceEffect(u, id, slot, a.now);
      PlacedKnown(s, u, Place(u, id, slot, a.now), id, s.newTable[slot], a.now);
    }
  }

  lemma PlacedKnown(s: Tables, u: Tables, t: Tables, id: int, x: int, now: int)
    requires id in s.infos && id in u.infos && u.infos == s.infos[id := u.infos[id]]
    requires u.infos[id].Svc() == s.infos[id].Svc() && u.infos[id].inTried == s.infos[id].inTried
    requires u.infos[id].refCount != 0 && Placed(u, t, id, x, now)
    ensures KeepsOthers(s, t, x, {id}) && (x != id ==> FairVictim(s, t, x))
    ensures id in t.infos && t.infos[id].Svc() == s.infos[id].Svc() && t.infos[id].inTried == s.infos[id].inTried
  {
    forall i | i in s.infos && i != x && i != id
      ensures i in t.infos && t.infos[i].Svc() == s.infos[i].Svc() && t.infos[i].inTried == s.infos[i].inTried
    {
      assert Alike(t.infos[i], u.infos[i]);
    }
  }

  /** Add forgets at most one address. */
  lemma AddForgetsAtMostOne(s: Tables, a: AddArgs)
    requires Inv(s) && |s.newTable| == NEW_SLOTS
    ensures |s.ids.Keys - Add(s, a).ids.Keys| <= 1
  {
    hide *;
    AddKeeps(s, a);
    InvIndex(s);
    InvIndex(Add(s, a));
    AddIs(s, a);
    var addr := a.addr.service.addr;
    if !s.h.routable(addr) {
      assert s.ids.Keys - s.ids.Keys == {};
    } else if addr in s.ids {
      KnownIds(s, addr);
      var id := s.ids[addr];
      AddKnownEffect(s, a, id);
      AtMostOneForgotten(s, AddKnown(s, a, id), s.newTable[SlotFor(s, id, a.source)], {id});
    } else {
      AddNewEffect(s, a);
      AtMostOneForgotten(s, Add(s, a),
        s.newTable[NewSlot(s.h, s.key, a.addr.service, NewBucket(s.h, s.key, a.addr.service, a.source))], {});
    }
  }

  lemma AddIs(s: Tables, a: AddArgs)
    requires |s.newTable| == NEW_SLOTS
    ensures !s.h.routable(a.addr.service.addr) ==> Add(s, a) == s
    ensures s.h.routable(a.addr.service.addr) && a.addr.service.addr in s.ids && s.ids[a.addr.service.addr] in s.infos
      ==> Add(s, a) == AddKnown(s, a, s.ids[a.addr.service.addr])
  {
    hide AddKnown;
    hide Place;
    hide CreateAged;
  }

  // ----- marking good

  /** The entry a promotion of `id` pushes out of the "tried" table, or -1. */
  function Displaced(s: Tables, id: int): int
    requires id in s.infos && |s.triedTable| == TRIED_SLOTS
  {
    s.triedTable[TriedSlot(s.h, s.key, s.infos[id].Svc())]
  }

  /** The entry that loses its "new" slot to the displaced one, or -1. */
  function Victim(s: Tables, id: int): int
    requires id in s.infos && |s.triedTable| == TRIED_SLOTS && |s.newTable| == NEW_SLOTS
  {
    var e := Displaced(s, id);
    if e !in s.infos then -1
    else UnlinkAll(s, id, NEW_BUCKETS).newTable[SlotFor(s, e, s.infos[e].source)]
  }

  /** A displaced entry is back on the "new" side with one reference. */
  ghost predicate SentBack(s: Tables, t: Tables, e: int) {
    e in s.infos ==>
      && e in t.infos
      && t.infos[e].Svc() == s.infos[e].Svc()
      && !t.infos[e].inTried
      && t.infos[e].refCount == 1
  }

  /** How making room for a promotion changes the entries: `e` goes back with one reference. */
  ghost predicate RoomMade(s: Tables, t: Tables, e: int, victim: int) {
    && t.infos.Keys <= s.infos.Keys
    && (forall i :: i in s.infos && i != e && i != victim ==> i in t.infos && Alike(t.infos[i], s.infos[i]))
    && FairVictim(s, t, victim)
    && SentBack(s, t, e)
  }

  lemma MakeRoomEffect(v: Tables, slot: nat, transit: set<int>, owed: int)
    requires InvDuring(v, transit, owed) && slot < TRIED_SLOTS
    requires |v.newTable| == NEW_SLOTS && |v.triedTable| == TRIED_SLOTS
    ensures var e := v.triedTable[slot];
      RoomMade(v, MakeRoom(v, slot), e, if e !in v.infos then -1 else v.newTable[SlotFor(v, e, v.infos[e].source)])
  {
    var e := v.triedTable[slot];
    assert -1 !in v.infos;
    if e != -1 {
      var u := Evict(v, slot, e);
      var back := SlotFor(u, e, u.infos[e].source);
      SlotFacts(v, back, transit, owed);
      assert e in v.infos && v.infos[e].inTried && v.newTable[back] != e;
      IndexKept(v, u, e);
      hide InvDuring;
      ClearNewEffect(u, back);
      MoveBackEffect(v, u, e, back);
    }
  }

  lemma MoveBackEffect(v: Tables, u: Tables, e: int, back: nat)
    requires e in v.infos && back < |v.newTable| && v.newTable[back] != e && -1 !in v.infos
    requires v.newTable[back] == -1 || (v.newTable[back] in v.infos && !v.infos[v.newTable[back]].inTried)
    requires u.newTable == v.newTable && u.infos == v.infos[e := v.infos[e].(inTried := false)]
    requires ClearedNew(u, ClearNew(u, back), back)
    ensures RoomMade(v, MoveBack(u, e, back), e, v.newTable[back])
  {
    var c := ClearNew(u, back);
    hide ClearNew;
    var x := v.newTable[back];
    assert e in c.infos && Alike(c.infos[e], u.infos[e]);
    var t := MoveBack(u, e, back);
    assert t.infos == c.infos[e := c.infos[e].(refCount := 1)];
    assert FairVictim(v, t, x);
  }

  /** Promotion: the entry ends up tried; the one it displaces goes back to the "new" table
      with one reference; only one untried, single-reference entry may be forgotten. */
  lemma MakeTriedEffect(s: Tables, id: int)
    requires Inv(s) && id in s.infos && !s.infos[id].inTried
    requires |s.newTable| == NEW_SLOTS && |s.triedTable| == TRIED_SLOTS
    ensures var t := MakeTried(s, id); var e := Displaced(s, id);
      && id in t.infos && t.infos[id].inTried && t.infos[id].Svc() == s.infos[id].Svc()
      && KeepsOthers(s, t, Victim(s, id), {id, e}) && FairVictim(s, t, Victim(s, id)) && Victim(s, id) != id
      && SentBack(s, t, e)
  {
    var u := UnlinkAll(s, id, NEW_BUCKETS);
    var v := u.(newCount := u.newCount - 1);
    var slot := TriedSlot(s.h, s.key, s.infos[id].Svc());
    MakeTriedFacts(s, id, {}, 0);
    UnlinkAllEffect(s, id, NEW_BUCKETS);
    assert -1 !in s.infos;
    hide InvDuring;
    assert {} + {id} == {id};
    UnlinkAllKeeps(s, id, NEW_BUCKETS, {id}, 0);
    hide UnlinkAll;
    CountShift(u, -1, {id}, 0);
    MakeRoomEffect(v, slot, {id}, 1);
    MakeRoomFrame(v, slot, id, {id}, 1);
    NoSlots(v.newTable, id);
    PromotedEffect(s, v, MakeRoom(v, slot), id, slot, Displaced(s, id), Victim(s, id));
  }

  lemma PromotedEffect(s: Tables, v: Tables, w: Tables, id: int, slot: nat, e: int, x: int)
    requires id in s.infos && id in v.infos && v.infos == s.infos[id := v.infos[id]] && -1 !in s.infos
    requires v.infos[id].Svc() == s.infos[id].Svc() && e != id && x != id
    requires RoomMade(v, w, e, x) && slot < |w.triedTable|
    ensures id in w.infos
    ensures var t := Promote(w, slot, id);
      && t.infos[id].inTried && t.infos[id].Svc() == s.infos[id].Svc()
      && KeepsOthers(s, t, x, {id, e}) && FairVictim(s, t, x)
      && SentBack(s, t, e)
  {
    assert Alike(w.infos[id], v.infos[id]);
    var t := Promote(w, slot, id);
    forall i | i in s.infos && i != x && i !in {id, e}
      ensures i in t.infos && t.infos[i].Svc() == s.infos[i].Svc() && t.infos[i].inTried == s.infos[i].inTried
    {
      assert Alike(w.infos[i], v.infos[i]);
    }
  }

  /** Marking a known service good leaves it tried. Of the tried entries only the one in its
      slot leaves the table, and it stays known; at most one address is forgotten in all. */
  lemma GoodEffect(s: Tables, svc: Service, time: int)
    requires Inv(s) && Matches(s, svc)
    requires |s.newTable| == NEW_SLOTS && |s.triedTable| == TRIED_SLOTS
    ensures var t := Good(s, svc, time); var id := s.ids[svc.addr]; var e := Displaced(s, id);
      && id in t.infos && t.infos[id].inTried && t.infos[id].Svc() == svc
      && (forall i :: i in s.infos && s.infos[i].inTried && i != e ==> i in t.infos && t.infos[i].inTried)
      && (e != id ==> SentBack(s, t, e))
      && |s.ids.Keys - t.ids.Keys| <= 1
  {
    var id := s.ids[svc.addr];
    var e := Displaced(s, id);
    var t := Good(s, svc, time);
    GoodKeeps(s, svc, time);
    InvIndex(s);
    InvIndex(t);
    if s.infos[id].inTried {
      assert e == id && t.ids == s.ids;
      assert s.ids.Keys - t.ids.Keys == {};
    } else {
      var s1 := Touch(s.(lastGood := time), id, Succeeded(s.infos[id], time));
      GoodTouchKeeps(s, id, time);
      BucketFound(s1, id);
      assert t == MakeTried(s1, id);
      assert e != id && (e in s.infos ==> s.infos[e].inTried);
      hide Inv;
      hide MakeTried;
      hide IndexInv;
      MakeTriedEffect(s1, id);
      GoodFromPromotion(s, s1, t, id, e, Victim(s1, id));
    }
  }

  lemma GoodFromPromotion(s: Tables, s1: Tables, t: Tables, id: int, e: int, x: int)
    requires IndexInv(s) && IndexInv(t)
    requires id in s.infos && id in s1.infos && s1.infos == s.infos[id := s1.infos[id]] && e != id && x != id
    requires s1.infos[id].Svc() == s.infos[id].Svc() && !s.infos[id].inTried && !s1.infos[id].inTried
    requires id in t.infos && t.infos[id].inTried && t.infos[id].Svc() == s.infos[id].Svc()
    requires KeepsOthers(s1, t, x, {id, e}) && FairVictim(s1, t, x) && SentBack(s1, t, e)
    ensures forall i :: i in s.infos && s.infos[i].inTried && i != e ==> i in t.infos && t.infos[i].inTried
    ensures SentBack(s, t, e)
    ensures |s.ids.Keys - t.ids.Keys| <= 1
  {
    hide IndexInv;
    assert KeepsOthers(s, t, x, {id, e});
    var moved := if e in s.infos then {id, e} else {id};
    assert KeepsOthers(s, t, x, moved);
    AtMostOneForgotten(s, t, x, moved);
  }
}
