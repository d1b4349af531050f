/**
 What the address manager records about an address: when it was heard of, tried and reached, how often it
 failed, what it offers. Each operation changes one record as stated here and no other.
 */
module AddrRecords {
  import opened AddrTables
  import opened AddrOps
  import opened AddrRuns
  import opened AddrEffects
  import opened AddrClocks
  import opened Powers

  /** No record but that of `id` changes, and none but that of `id` is new. */
  ghost predicate RecordsKept(s: Tables, t: Tables, id: int) {
    forall i :: i in t.infos && i != id ==> i in s.infos && SameRecord(t.infos[i], s.infos[i])
  }

  // ----- failures

  datatype Call = Call(svc: Service, countFailure: bool, time: int)

  /** The manager after a series of attempts. */
  function AttemptAll(s: Tables, calls: seq<Call>): Tables {
    if calls == [] then s
    else
      var c := calls[|calls| - 1];
      Attempt(AttemptAll(s, calls[..|calls| - 1]), c.svc, c.countFailure, c.time)
  }

  /** One of the attempts is a counted one on this service. */
  ghost predicate Counted(calls: seq<Call>, svc: Service) {
    exists i :: 0 <= i < |calls| && calls[i].svc == svc && calls[i].countFailure
  }

  /** One attempt: the time is recorded, and a counted failure adds exactly one if none has been counted since
      something was last reached. */
  lemma AttemptRecords(s: Tables, svc: Service, countFailure: bool, time: int)
    ensures var t := Attempt(s, svc, countFailure, time);
      && t == s.(infos := t.infos) && t.infos.Keys == s.infos.Keys
      && if !Matches(s, svc) then t == s else
           var id := s.ids[svc.addr]; var counts := countFailure && s.infos[id].lastCountAttempt < s.lastGood;
           && RecordsKept(s, t, id)
           && t.infos[id] == s.infos[id].(lastTry := time,
                attempts := s.infos[id].attempts + if counts then 1 else 0,
                lastCountAttempt := if counts then time else s.infos[id].lastCountAttempt)
  {}

  lemma CountedMore(calls: seq<Call>, svc: Service)
    requires calls != []
    ensures var c := calls[|calls| - 1];
      Counted(calls, svc) <==> Counted(calls[..|calls| - 1], svc) || (c.svc == svc && c.countFailure)
  {
    var rest, c := calls[..|calls| - 1], calls[|calls| - 1];
    if Counted(rest, svc) {
      var i :| 0 <= i < |rest| && rest[i].svc == svc && rest[i].countFailure;
      assert calls[i] == rest[i];
    }
  }

  /** However many attempts are made on a service after the last success anywhere, they count as one failure
      at most: exactly one if some was to be counted and none had been before. */
  lemma {:induction false} AttemptsCountOnce(s: Tables, calls: seq<Call>, svc: Service)
    requires Matches(s, svc) && forall i :: 0 <= i < |calls| ==> calls[i].time >= s.lastGood
    ensures var t := AttemptAll(s, calls); var id := s.ids[svc.addr];
      var counts := Counted(calls, svc) && s.infos[id].lastCountAttempt < s.lastGood;
      && Matches(t, svc) && t.ids == s.ids && t.lastGood == s.lastGood
      && t.infos[id].attempts == s.infos[id].attempts + (if counts then 1 else 0)
      && (t.infos[id].lastCountAttempt < t.lastGood <==> s.infos[id].lastCountAttempt < s.lastGood && !counts)
    decreases |calls|
  {
    if calls != [] {
      var rest, c := calls[..|calls| - 1], calls[|calls| - 1];
      AttemptsCountOnce(s, rest, svc);
      CountedMore(calls, svc);
      var u := AttemptAll(s, rest);
      AttemptRecords(u, c.svc, c.countFailure, c.time);
      hide Attempt;
      hide Counted;
      var t := Attempt(u, c.svc, c.countFailure, c.time);
      assert AttemptAll(s, calls) == t;
    }
  }

  // ----- reached, connected, services

  /** Marking a service good records the success, forgets its failures and leaves the time it was heard of;
      no other record changes. */
  lemma GoodRecords(s: Tables, svc: Service, time: int)
    requires Inv(s) && Matches(s, svc) && |s.newTable| == NEW_SLOTS && |s.triedTable| == TRIED_SLOTS
    ensures var t := Good(s, svc, time); var id := s.ids[svc.addr];
      && t.lastGood == time && RecordsKept(s, t, id)
      && id in t.infos && t.infos[id].lastSuccess == t.infos[id].lastTry == time && t.infos[id].attempts == 0
      && t.infos[id].address == s.infos[id].address && t.infos[id].source == s.infos[id].source
      && t.infos[id].lastCountAttempt == s.infos[id].lastCountAttempt
  {
    var id := s.ids[svc.addr];
    hide *;
    GoodIs(s, svc, time);
    GoodKeepsEntry(s, svc, time);
    var s1 := Touch(s.(lastGood := time), id, Succeeded(s.infos[id], time));
    GoodTouched(s, id, time);
    if !s.infos[id].inTried {
      MakeTriedTimes(s1, id);
      MakeTriedGood(s1, id);
      RecordsFrom(s, s1, MakeTried(s1, id), id);
      SameFields(MakeTried(s1, id).infos[id], s1.infos[id]);
    }
  }

  lemma SameFields(x: AddrInfo, y: AddrInfo)
    requires SameRecord(x, y)
    ensures x.address == y.address && x.source == y.source && x.lastTry == y.lastTry
    ensures x.lastSuccess == y.lastSuccess && x.attempts == y.attempts && x.lastCountAttempt == y.lastCountAttempt
  {}

  lemma GoodIs(s: Tables, svc: Service, time: int)
    requires Inv(s) && Matches(s, svc) && |s.newTable| == NEW_SLOTS && |s.triedTable| == TRIED_SLOTS
    ensures s.ids[svc.addr] in s.infos
    ensures var id := s.ids[svc.addr]; var s1 := Touch(s.(lastGood := time), id, Succeeded(s.infos[id], time));
      id in s1.infos && |s1.newTable| == NEW_SLOTS && |s1.triedTable| == TRIED_SLOTS
      && Good(s, svc, time) == if s.infos[id].inTried then s1 else MakeTried(s1, id)
  {
    var id := s.ids[svc.addr];
    if !s.infos[id].inTried {
      GoodTouchKeeps(s, id, time);
      BucketFound(Touch(s.(lastGood := time), id, Succeeded(s.infos[id], time)), id);
      hide Inv;
      hide MakeTried;
    }
  }

  lemma GoodKeepsEntry(s: Tables, svc: Service, time: int)
    requires Inv(s) && Matches(s, svc) && |s.newTable| == NEW_SLOTS && |s.triedTable| == TRIED_SLOTS
    ensures s.ids[svc.addr] in Good(s, svc, time).infos
  {
    hide Inv;
    hide Good;
    GoodEffect(s, svc, time);
  }

  lemma GoodTouched(s: Tables, id: int, time: int)
    requires id in s.infos
    ensures var t := Touch(s.(lastGood := time), id, Succeeded(s.infos[id], time));
      && t.lastGood == time && RecordsKept(s, t, id) && id in t.infos
      && t.infos[id] == s.infos[id].(lastSuccess := time, lastTry := time, attempts := 0)
  {}

  lemma RecordsFrom(s: Tables, u: Tables, t: Tables, id: int)
    requires RecordsKept(s, u, id) && TimesFrom(u, t, {id})
    ensures RecordsKept(s, t, id)
    ensures id in t.infos ==> id in u.infos && SameRecord(t.infos[id], u.infos[id])
  {}

  lemma {:induction false} UnlinkAllGood(s: Tables, id: int, buckets: nat)
    requires id in s.infos && |s.newTable| == NEW_SLOTS && buckets <= NEW_BUCKETS
    ensures UnlinkAll(s, id, buckets).lastGood == s.lastGood
  {
    if buckets > 0 {
      UnlinkAllGood(s, id, buckets - 1);
    }
  }

  lemma MakeTriedGood(s: Tables, id: int)
    requires id in s.infos && |s.newTable| == NEW_SLOTS && |s.triedTable| == TRIED_SLOTS
    ensures MakeTried(s, id).lastGood == s.lastGood
  {
    UnlinkAllGood(s, id, NEW_BUCKETS);
    hide UnlinkAll;
  }

  /** A connection moves the time a service was heard of to the present if it lags more than twenty minutes,
      and changes nothing else. */
  lemma ConnectedRecords(s: Tables, svc: Service, time: int)
    requires 0 <= time < 0x1_0000_0000
    ensures var t := Connected(s, svc, time);
      if !Matches(s, svc) then t == s else
        var id := s.ids[svc.addr]; var was := s.infos[id].address.time;
        && t == s.(infos := s.infos[id := WithTime(s.infos[id], t.infos[id].address.time)])
        && t.infos[id].address.time == (if time > was + 1200 then time else was)
        && time - t.infos[id].address.time <= 1200
  {}

  /** A service's record takes on the services given, and nothing else changes. */
  lemma ServicesRecords(s: Tables, svc: Service, services: set<nat>)
    ensures var t := SetServices(s, svc, services);
      if !Matches(s, svc) then t == s else
        var id := s.ids[svc.addr]; var info := t.infos[id];
        && t == s.(infos := s.infos[id := info]) && info.address.services == services
        && info == s.infos[id].(address := Address(svc, services, s.infos[id].address.time))
  {}

  // ----- heard of

  /** The recorded time after a known address is heard of again at `given`, less `penalty`: it moves only
      forward by more than an hour (a day, for news over a day old), or from nothing; and it is left no more
      than that behind. */
  ghost predicate TimeHeard(was: nat, now: nat, given: nat, penalty: int, clock: int) {
    var lag := if clock - given < 86_400 then 3_600 else 86_400;
    var news := if given >= penalty then given - penalty else 0;
    && (now == was || (given != 0 && now == news % 0x1_0000_0000 && (was == 0 || given - penalty > was + lag)))
    && (given == 0 ==> now == was)
    && (given != 0 && was == 0 ==> now == news % 0x1_0000_0000)
    && (given != 0 && given < 0x1_0000_0000 && penalty >= 0 ==> given - penalty - now <= lag)
  }

  lemma RefreshRecords(info: AddrInfo, addr: Address, penalty: int, now: int)
    ensures var r := Refresh(info, addr, penalty, now);
      && TimeHeard(info.address.time, r.address.time, addr.time, penalty, now)
      && r.address.services == info.address.services + addr.services
      && r == info.(address := Address(info.Svc(), r.address.services, r.address.time))
  {}

  /** A reference more is due to a known address if there is news of it, it is not tried, it has fewer than 8
      references, and the draw, of ever lower chance, allows it. */
  ghost predicate DueReference(info: AddrInfo, addr: Address, roll: nat) {
    && addr.time != 0 && (info.address.time == 0 || addr.time > info.address.time)
    && !info.inTried && 1 <= info.refCount < 8 && roll % Pow2(info.refCount) == 0
  }

  /** Hearing of a known address again changes its time and services as stated, and no other record. It gains a
      reference exactly if one is due and its slot is free of it and of anything worth keeping. */
  lemma HeardAgain(s: Tables, a: AddArgs, id: int)
    requires Inv(s) && |s.newTable| == NEW_SLOTS && id in s.infos
    ensures var t := AddKnown(s, a, id); var x := s.newTable[SlotFor(s, id, a.source)];
      && RecordsKept(s, t, id) && id in t.infos
      && TimeHeard(s.infos[id].address.time, t.infos[id].address.time, a.addr.time, Penalty(a), a.now)
      && t.infos[id].address.services == s.infos[id].address.services + a.addr.services
      && (var due := && DueReference(s.infos[id].(address := t.infos[id].address), a.addr, a.roll)
                     && x != id && (x !in s.infos || !WorthKeeping(s.infos[x], a.now));
          t.infos[id].refCount == s.infos[id].refCount + if due then 1 else 0)
  {
    var r := Refresh(s.infos[id], a.addr, Penalty(a), a.now);
    var u := Touch(s, id, r);
    var slot := SlotFor(s, id, a.source);
    RefreshRecords(s.infos[id], a.addr, Penalty(a), a.now);
    SlotFacts(s, slot, {}, 0);
    RefsKnown(s, id);
    var x := s.newTable[slot];
    if x in s.infos {
      TerribleExactly(s.infos[x], a.now);
    }
    assert RecordsKept(s, u, id);
    IndexKept(s, u, id);
    hide Inv;
    hide InvDuring;
    hide IndexInv;
    hide Refresh;
    hide WorthKeeping;
    hide TimeHeard;
    if WantsReference(r, a.addr, a.roll) {
      PlaceTimes(u, id, slot, a.now);
      PlaceRefs(u, id, slot, a.now);
      hide Place;
      RecordsFrom(s, u, Place(u, id, slot, a.now), id);
    }
  }

  lemma RefsKnown(s: Tables, id: int)
    requires Inv(s) && id in s.infos
    ensures if s.infos[id].inTried then s.infos[id].refCount == 0 else 1 <= s.infos[id].refCount <= 8
  {}

  /** Placing an entry that has references adds one exactly if the slot holds neither it nor anything worth
      keeping. */
  lemma PlaceRefs(s: Tables, id: int, slot: nat, now: int)
    requires IndexInv(s) && id in s.infos && slot < |s.newTable| && s.infos[id].refCount > 0
    requires s.newTable[slot] == -1 || s.newTable[slot] in s.infos
    ensures var t := Place(s, id, slot, now); var x := s.newTable[slot];
      && id in t.infos
      && t.infos[id].refCount == s.infos[id].refCount +
           (if x != id && (x == -1 || s.infos[x].IsTerrible(now)) then 1 else 0)
  {
    var x := s.newTable[slot];
    if x != id && (x == -1 || s.infos[x].IsTerrible(now)) {
      ClearNewEffect(s, slot);
      hide ClearNew;
      assert Alike(ClearNew(s, slot).infos[id], s.infos[id]);
    }
  }

  /** An address heard of for the first time is recorded as given, with its time set back by the penalty
      unless it announced itself, and with nothing tried; it has one reference. No other record changes. */
  lemma HeardFirst(s: Tables, a: AddArgs)
    requires Inv(s) && |s.newTable| == NEW_SLOTS
    requires s.h.routable(a.addr.service.addr) && a.addr.service.addr !in s.ids
    ensures var t := Add(s, a); var id := s.nextId;
      var back := if a.addr.service.addr == a.source then 0 else a.penalty;
      var time := if a.addr.time >= back then a.addr.time - back else 0;
      && RecordsKept(s, t, id)
      && (id in t.infos ==>
            && t.infos[id].address == Address(a.addr.service, a.addr.services, time % 0x1_0000_0000)
            && t.infos[id].source == a.source && t.infos[id].refCount == 1 && !t.infos[id].inTried
            && t.infos[id].lastSuccess == t.infos[id].lastTry == t.infos[id].lastCountAttempt == 0
            && t.infos[id].attempts == 0)
  {
    var id := s.nextId;
    var u := CreateAged(s, a);
    var slot := SlotFor(u, id, a.source);
    assert Add(s, a) == Place(u, id, slot, a.now);
    hide *;
    CreatedRecord(s, a);
    CreatedIndex(s, a);
    SlotFacts(s, slot, {}, 0);
    PlaceTimes(u, id, slot, a.now);
    PlaceFirst(u, id, slot, a.now);
    RecordsFrom(s, u, Place(u, id, slot, a.now), id);
    if id in Place(u, id, slot, a.now).infos {
      SameFields(Place(u, id, slot, a.now).infos[id], u.infos[id]);
    }
  }

  lemma CreatedRecord(s: Tables, a: AddArgs)
    ensures var u := CreateAged(s, a); var id := s.nextId;
      var back := if a.addr.service.addr == a.source then 0 else a.penalty;
      var time := if a.addr.time >= back then a.addr.time - back else 0;
      && RecordsKept(s, u, id) && id in u.infos && u.infos.Keys == s.infos.Keys + {id} && u.newTable == s.newTable
      && u.infos[id].address == Address(a.addr.service, a.addr.services, time % 0x1_0000_0000)
      && u.infos[id].source == a.source && u.infos[id].refCount == 0 && !u.infos[id].inTried
      && u.infos[id].lastSuccess == u.infos[id].lastTry == u.infos[id].lastCountAttempt == 0
      && u.infos[id].attempts == 0
  {}

  lemma CreatedIndex(s: Tables, a: AddArgs)
    requires Inv(s) && a.addr.service.addr !in s.ids
    ensures IndexInv(CreateAged(s, a))
  {
    CreateAgedKeeps(s, a);
    hide CreateAged;
  }

  lemma PlaceFirst(s: Tables, id: int, slot: nat, now: int)
    requires IndexInv(s) && id in s.infos && slot < |s.newTable| && s.infos[id].refCount == 0
    requires s.newTable[slot] != id && (s.newTable[slot] == -1 || s.newTable[slot] in s.infos)
    ensures var t := Place(s, id, slot, now);
      id in t.infos ==> t.infos[id].refCount == 1 && t.infos[id].inTried == s.infos[id].inTried
  {
    var x := s.newTable[slot];
    if x == -1 || GivesWay(s.infos[x], 0, now) {
      ClearNewEffect(s, slot);
      hide ClearNew;
      assert Alike(ClearNew(s, slot).infos[id], s.infos[id]);
    }
  }
}
