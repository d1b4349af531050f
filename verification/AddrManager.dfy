/**
 The address manager as the mutable object it is: every method is proved to compute
 its function on tables, and to meet each run-time assertion of the code.
 */
module AddrManager {
  import opened AddrTables
  import Ops = AddrOps
  import Runs = AddrRuns
  import AddrCheck
  import AddrSave
  import AddrRoundTrip
  import Collections
  import Powers

  class AddrMan {
    const h: Hashes
    var key: nat
    var nextId: int
    var infos: map<int, AddrInfo>
    var ids: map<NetAddr, int>
    var order: seq<int>
    var triedCount: int
    var newCount: int
    var lastGood: int
    const triedTable: array<int>
    const newTable: array<int>

    ghost function State(): Tables
      reads this, triedTable, newTable
    {
      Tables(h, key, nextId, infos, ids, order, triedCount, triedTable[..], newCount, newTable[..], lastGood)
    }

    ghost predicate Shape()
      reads this
    {
      triedTable.Length == TRIED_SLOTS && newTable.Length == NEW_SLOTS && triedTable != newTable
    }

    ghost predicate Valid()
      reads this, triedTable, newTable
    {
      Shape() && Inv(State())
    }

    constructor (h: Hashes, randomKey: nat)
      ensures Valid() && fresh(triedTable) && fresh(newTable)
      ensures State() == Runs.Cleared(h, randomKey)
    {
      this.h := h;
      triedTable := new int[TRIED_SLOTS];
      newTable := new int[NEW_SLOTS];
      new;
      Clear(randomKey);
    }

    method Clear(randomKey: nat)
      requires Shape()
      modifies this, triedTable, newTable
      ensures Valid()
      ensures State() == Runs.Cleared(h, randomKey)
    {
      order := [];
      key := randomKey;
      for i := 0 to NEW_SLOTS
        modifies newTable
        invariant forall k :: 0 <= k < i ==> newTable[k] == -1
      {
        newTable[i] := -1;
      }
      for i := 0 to TRIED_SLOTS
        modifies triedTable
        invariant forall k :: 0 <= k < i ==> triedTable[k] == -1
      {
        triedTable[i] := -1;
      }
      nextId, triedCount, newCount, lastGood := 0, 0, 0, 1;
      infos, ids := map[], map[];
      assert newTable[..] == Runs.Cleared(h, randomKey).newTable;
      assert triedTable[..] == Runs.Cleared(h, randomKey).triedTable;
      Runs.ClearedInv(h, randomKey);
    }

    method Find(addr: NetAddr) returns (found: bool, id: int)
      ensures found <==> addr in ids && ids[addr] in infos
      ensures found ==> id == ids[addr]
    {
      found, id := false, -1;
      if addr in ids {
        id := ids[addr];
        found := id in infos;
      }
    }

    method Create(addr: Address, source: NetAddr) returns (id: int)
      modifies this
      ensures State() == AddrTables.Create(old(State()), addr, source)
      ensures id == old(nextId)
    {
      id := nextId;
      nextId := nextId + 1;
      infos := infos[id := AddrInfo(addr, source, 0, 0, 0, 0, 0, false, -1)];
      ids := ids[addr.service.addr := id];
      infos := infos[id := infos[id].(randomPos := |order|)];
      order := order + [id];
      assert infos == old(infos)[id := AddrInfo(addr, source, 0, 0, 0, 0, 0, false, |old(order)|)];
    }

    method SwapRandom(p1: nat, p2: nat)
      requires p1 < |order| && p2 < |order| && order[p1] in infos && order[p2] in infos
      modifies this
      ensures State() == AddrTables.SwapRandom(old(State()), p1, p2)
    {
      if p1 == p2 {
        return;
      }
      var id1, id2 := order[p1], order[p2];
      infos := infos[id1 := infos[id1].(randomPos := p2)];
      infos := infos[id2 := infos[id2].(randomPos := p1)];
      order := order[p1 := id2];
      order := order[p2 := id1];
    }

    method Delete(id: int)
      requires Deletable(State(), id) && !infos[id].inTried && infos[id].refCount == 0
      modifies this
      ensures State() == AddrTables.Delete(old(State()), id)
    {
      ghost var s := State();
      DeleteSteps(s, id);
      hide *;
      SwapRandom(infos[id].randomPos, |order| - 1);
      order := order[..|order| - 1];
      ids := ids - {infos[id].Addr()};
      infos := infos - {id};
      newCount := newCount - 1;
    }

    method ClearNew(slot: nat, ghost transit: set<int>, ghost owed: int)
      requires Shape() && InvDuring(State(), transit, owed) && slot < NEW_SLOTS
      modifies this, newTable
      ensures State() == Ops.ClearNew(old(State()), slot)
      ensures newTable[slot] == -1
    {
      var id := newTable[slot];
      if id != -1 {
        ghost var s0 := State();
        UnlinkKeeps(s0, slot, id, transit, owed);
        assert infos[id].refCount > 0;
        ghost var u := Unlink(s0, slot, id);
        assert IndexInv(u);
        assert !infos[id].inTried;
        hide InvDuring;
        hide IndexInv;
        infos := infos[id := infos[id].(refCount := infos[id].refCount - 1)];
        newTable[slot] := -1;
        assert newTable[..] == s0.newTable[slot := -1];
        assert State() == u;
        if infos[id].refCount == 0 {
          DeletableFromInv(u, id);
          Delete(id);
          assert State() == AddrTables.Delete(u, id);
          DeleteKeepsNewTable(u, id);
        }
      }
    }

    method MakeTried(id: int)
      requires Shape() && Inv(State()) && id in infos && !infos[id].inTried
      modifies this, triedTable, newTable
      ensures State() == Ops.MakeTried(old(State()), id)
    {
      hide InvDuring;
      hide Ops.MakeTried;
      ghost var s := State();
      MakeTriedStates(s, id);
      hide *;
      Unlinking(id, s);
      newCount := newCount - 1;
      assert infos[id].refCount == 0;
      var slot := TriedSlot(h, key, infos[id].Svc());
      ghost var v := State();
      MakeRoom(slot, {id}, 1);
      assert triedTable[slot] == -1;
      assert triedTable[..] == Ops.MakeRoom(v, slot).triedTable;
      triedTable[slot] := id;
      triedCount := triedCount + 1;
      infos := infos[id := infos[id].(inTried := true)];
      assert triedTable[..] == Ops.MakeRoom(v, slot).triedTable[slot := id];
    }

    /** Send the occupant of a "tried" slot back to the "new" table, deleting whatever is there. */
    method MakeRoom(slot: nat, ghost transit: set<int>, ghost owed: int)
      requires Shape() && InvDuring(State(), transit, owed)
      requires slot < TRIED_SLOTS && triedTable[slot] !in transit
      modifies this, triedTable, newTable
      ensures State() == Ops.MakeRoom(old(State()), slot)
      ensures triedTable[slot] == -1
    {
      var id := triedTable[slot];
      if id != -1 {
        ghost var s := State();
        MakeRoomStates(s, slot, transit, owed);
        hide *;
        assert id in infos;
        infos := infos[id := infos[id].(inTried := false)];
        triedTable[slot] := -1;
        assert triedTable[..] == s.triedTable[slot := -1];
        triedCount := triedCount - 1;
        ghost var u := State();
        assert u == Evict(s, slot, id);
        var back := NewSlot(h, key, infos[id].Svc(), NewBucket(h, key, infos[id].Svc(), infos[id].source));
        ClearNew(back, transit + {id}, owed + 1);
        assert newTable[back] == -1;
        ghost var c := State();
        infos := infos[id := infos[id].(refCount := 1)];
        newTable[back] := id;
        assert newTable[..] == c.newTable[back := id];
        newCount := newCount + 1;
      }
    }

    method Unlinking(id: int, ghost s: Tables)
      requires Shape() && State() == s && id in infos
      modifies `infos, newTable
      ensures State() == Ops.UnlinkAll(s, id, NEW_BUCKETS)
    {
      // remove the entry from all new buckets
      for bucket := 0 to NEW_BUCKETS
        invariant State() == Ops.UnlinkAll(s, id, bucket)
      {
        ghost var t := State();
        var slot := NewSlot(h, key, infos[id].Svc(), bucket);
        if newTable[slot] == id {
          newTable[slot] := -1;
          infos := infos[id := infos[id].(refCount := infos[id].refCount - 1)];
          assert newTable[..] == t.newTable[slot := -1];
        }
        assert State() == Ops.UnlinkOne(t, id, bucket);
      }
    }

    /** Search the "new" buckets for an entry, from a random bucket on. */
    method FindBucket(id: int, draw: nat) returns (bucket: int)
      requires Shape() && id in infos
      ensures bucket == -1 || (0 <= bucket < NEW_BUCKETS && newTable[NewSlot(h, key, infos[id].Svc(), bucket)] == id)
      ensures bucket == -1 <==> !Ops.HasBucket(State(), id)
    {
      var start := draw % NEW_BUCKETS;
      var n := 0;
      while n < NEW_BUCKETS
        invariant 0 <= n <= NEW_BUCKETS
        invariant forall k :: 0 <= k < n ==> newTable[NewSlot(h, key, infos[id].Svc(), Around(k, start))] != id
      {
        var b := Around(n, start);
        if newTable[NewSlot(h, key, infos[id].Svc(), b)] == id {
          return b;
        }
        n := n + 1;
      }
      bucket := -1;
      forall b | 0 <= b < NEW_BUCKETS ensures newTable[NewSlot(h, key, infos[id].Svc(), b)] != id {
        var k := if b >= start then b - start else b - start + NEW_BUCKETS;
        assert Around(k, start) == b;
      }
    }

    method Good(svc: Service, time: int, draw: nat)
      requires Valid()
      modifies this, triedTable, newTable
      ensures Valid()
      ensures State() == Ops.Good(old(State()), svc, time)
    {
      ghost var s := State();
      Runs.GoodKeeps(s, svc, time);
      hide InvDuring;
      lastGood := time;
      var found, id := Find(svc.addr);
      if !found {
        return;
      }
      if infos[id].Svc() != svc {
        return;
      }
      infos := infos[id := infos[id].(lastSuccess := time, lastTry := time, attempts := 0)];
      ghost var s1 := State();
      if infos[id].inTried {
        return;
      }
      Runs.GoodTouchKeeps(s, id, time);
      assert s1 == Touch(s.(lastGood := time), id, Runs.Succeeded(s.infos[id], time));
      Runs.BucketFound(s1, id);
      assert Ops.Good(s, svc, time) == Ops.MakeTried(s1, id);
      hide Ops.Good;
      var bucket := FindBucket(id, draw);
      if bucket == -1 {
        assert false;
      }
      MakeTried(id);
    }

    /** Enter an entry into a "new" slot unless the occupant is worth keeping. */
    method Place(id: int, slot: nat, now: int, ghost transit: set<int>, ghost owed: int)
      requires Shape() && InvDuring(State(), transit, owed) && slot < NEW_SLOTS
      requires id in infos && !infos[id].inTried
      modifies this, newTable
      ensures State() == Ops.Place(old(State()), id, slot, now)
    {
      hide InvDuring;
      hide IndexInv;
      hide Ops.ClearNew;
      hide AddrTables.Delete;
      ghost var s := State();
      PlaceStates(s, id, slot, transit, owed);
      if newTable[slot] == id {
        return;
      }
      var insert := newTable[slot] == -1;
      if !insert {
        insert := Ops.GivesWay(infos[newTable[slot]], infos[id].refCount, now);
      }
      assert insert <==> s.newTable[slot] == -1 || Ops.GivesWay(s.infos[s.newTable[slot]], s.infos[id].refCount, now);
      if insert {
        ClearNew(slot, transit, owed);
        ghost var c := State();
        infos := infos[id := infos[id].(refCount := infos[id].refCount + 1)];
        newTable[slot] := id;
        assert newTable[..] == c.newTable[slot := id];
        assert State() == Link(c, slot, id);
      } else if infos[id].refCount == 0 {
        DeletableFromInv(s, id);
        Delete(id);
      }
    }

    method Refresh(id: int, addr: Address, penalty: int, now: int)
      requires id in infos
      modifies `infos
      ensures State() == Touch(old(State()), id, Ops.Refresh(old(infos)[id], addr, penalty, now))
    {
      var online := now - addr.time < 24 * 60 * 60;
      var interval := if online then 60 * 60 else 24 * 60 * 60;
      var info := infos[id];
      if addr.time != 0 && (info.address.time == 0 || info.address.time < addr.time - interval - penalty) {
        info := Ops.WithTime(info, Ops.U32(Ops.Max0(addr.time - penalty)));
      }
      info := info.(address := info.address.(services := info.address.services + addr.services));
      infos := infos[id := info];
    }

    /** The tests a known entry must pass to get another reference. */
    static method Again(info: AddrInfo, addr: Address, roll: nat) returns (again: bool)
      ensures again <==> Ops.WantsReference(info, addr, roll)
    {
      if addr.time == 0 || (info.address.time != 0 && addr.time <= info.address.time) {
        return false;
      }
      if info.inTried {
        return false;
      }
      if info.refCount == MAX_REFS {
        return false;
      }
      // previous reference count N: 2^N times harder to increase it
      var factor := 1;
      var n := 0;
      while n < info.refCount
        invariant 0 <= n && (n <= info.refCount || n == 0)
        invariant factor == Powers.Pow2(n)
      {
        factor := factor * 2;
        n := n + 1;
      }
      again := factor <= 1 || roll % factor == 0;
    }

    method Add(addr: Address, source: NetAddr, timePenalty: int, now: int, roll: nat) returns (isNew: bool)
      requires Valid()
      modifies this, triedTable, newTable
      ensures Valid()
      ensures State() == Ops.Add(old(State()), Ops.AddArgs(addr, source, timePenalty, now, roll))
      ensures isNew <==> h.routable(addr.service.addr) && addr.service.addr !in old(ids)
    {
      ghost var s, args := State(), Ops.AddArgs(addr, source, timePenalty, now, roll);
      hide Inv;
      Runs.AddKeeps(s, args);
      if !h.routable(addr.service.addr) {
        return false;
      }
      var found, id := Find(addr.service.addr);
      var penalty := if addr.service.addr == source then 0 else timePenalty;
      if found {
        hide Ops.AddKnown;
        AddKnown(id, addr, source, penalty, now, roll, args);
        isNew := false;
      } else {
        if addr.service.addr in ids {
          Runs.KnownIds(s, addr.service.addr);
        }
        hide Ops.Place;
        hide Ops.CreateAged;
        AddNew(addr, source, penalty, now, args);
        isNew := true;
      }
    }

    method AddKnown(id: int, addr: Address, source: NetAddr, penalty: int, now: int, roll: nat, ghost args: Ops.AddArgs)
      requires Shape() && Inv(State()) && id in infos
      requires args.addr == addr && args.source == source && Ops.Penalty(args) == penalty
      requires args.now == now && args.roll == roll
      modifies this, newTable
      ensures State() == Ops.AddKnown(old(State()), args, id)
    {
      hide InvDuring;
      ghost var s := State();
      RefreshKeeps(s, id, args);
      Refresh(id, addr, penalty, now);
      var again := Again(infos[id], addr, roll);
      hide Ops.Refresh;
      hide Ops.WantsReference;
      hide Ops.Place;
      if again {
        var slot := NewSlot(h, key, infos[id].Svc(), NewBucket(h, key, infos[id].Svc(), source));
        Place(id, slot, now, {}, 0);
      }
    }

    method AddNew(addr: Address, source: NetAddr, penalty: int, now: int, ghost args: Ops.AddArgs)
      requires Shape() && Inv(State()) && addr.service.addr !in ids
      requires args.addr == addr && args.source == source && Ops.Penalty(args) == penalty && args.now == now
      modifies this, newTable
      ensures var c := Ops.CreateAged(old(State()), args); var id := old(nextId);
        State() == Ops.Place(c, id, Ops.SlotFor(c, id, source), now)
    {
      hide InvDuring;
      ghost var s := State();
      Runs.CreateAgedKeeps(s, args);
      Runs.CreateAgedFacts(s, args);
      var id := Create(addr, source);
      infos := infos[id := Ops.WithTime(infos[id], Ops.U32(Ops.Max0(infos[id].address.time - penalty)))];
      newCount := newCount + 1;
      assert State() == Ops.CreateAged(s, args);
      var slot := NewSlot(h, key, infos[id].Svc(), NewBucket(h, key, infos[id].Svc(), source));
      assert slot == Ops.SlotFor(State(), id, source);
      hide *;
      Place(id, slot, now, {id}, 0);
    }

    method Attempt(svc: Service, countFailure: bool, time: int)
      requires Valid()
      modifies this
      ensures Valid()
      ensures State() == Ops.Attempt(old(State()), svc, countFailure, time)
    {
      Runs.AttemptKeeps(State(), svc, countFailure, time);
      hide InvDuring;
      var found, id := Find(svc.addr);
      if !found {
        return;
      }
      if infos[id].Svc() != svc {
        return;
      }
      hide Inv;
      infos := infos[id := infos[id].(lastTry := time)];
      if countFailure && infos[id].lastCountAttempt < lastGood {
        infos := infos[id := infos[id].(lastCountAttempt := time)];
        infos := infos[id := infos[id].(attempts := infos[id].attempts + 1)];
      }
      assert infos == Ops.Attempt(old(State()), svc, countFailure, time).infos;
    }

    method Connected(svc: Service, time: int)
      requires Valid()
      modifies this
      ensures Valid()
      ensures State() == Ops.Connected(old(State()), svc, time)
    {
      Runs.ConnectedKeeps(State(), svc, time);
      hide InvDuring;
      var found, id := Find(svc.addr);
      if !found {
        return;
      }
      if infos[id].Svc() != svc {
        return;
      }
      if time - infos[id].address.time > 20 * 60 {
        infos := infos[id := Ops.WithTime(infos[id], Ops.U32(time))];
      }
    }

    method SetServices(svc: Service, services: set<nat>)
      requires Valid()
      modifies this
      ensures Valid()
      ensures State() == Ops.SetServices(old(State()), svc, services)
    {
      Runs.SetServicesKeeps(State(), svc, services);
      hide InvDuring;
      var found, id := Find(svc.addr);
      if !found {
        return;
      }
      if infos[id].Svc() != svc {
        return;
      }
      infos := infos[id := infos[id].(address := infos[id].address.(services := services))];
    }

    method GetAddr(now: int, draws: nat -> nat) returns (sample: seq<Address>)
      requires Valid()
      modifies this
      ensures Valid() && Runs.Ordered(old(State()))
      ensures (State(), sample) == Runs.GetAddr(old(State()), now, draws)
    {
      hide InvDuring;
      hide IndexInv;
      hide Runs.Worthy;
      hide Runs.Draw;
      hide AddrTables.SwapRandom;
      ghost var s := State();
      Runs.InvOrdered(s);
      var want := 23 * |order| / 100;
      if want > 2500 {
        want := 2500;
      }
      sample := [];
      Runs.WorthyNone(s, now);
      var n := 0;
      while n < |order|
        invariant 0 <= n <= |order|
        invariant Inv(State()) && Runs.Ordered(State())
        invariant sample == Runs.Worthy(State(), order[..n], now)
        invariant Runs.Draw(State(), n, want, now, draws) == Runs.Draw(s, 0, want, now, draws)
        decreases |order| - n
      {
        if |sample| >= want {
          break;
        }
        ghost var t := State();
        var p := draws(n) % (|order| - n) + n;
        Runs.DrawAdvance(t, n, p, want, now, draws);
        SwapRandom(n, p);
        assert order[n] in infos;
        var ai := infos[order[n]];
        if !ai.IsTerrible(now) {
          sample := sample + [ai.address];
        }
        n := n + 1;
      }
      Runs.DrawStops(State(), n, want, now, draws);
    }

    /** The consistency check: zero, or a code for the first thing found wrong. Looking an address up adds it
        to the index, with id 0, where it is missing. */
    method Check() returns (code: int)
      requires Shape()
      modifies `ids
      ensures code == 0 <==> AddrCheck.Passes(old(State()))
      ensures code == -7 <==> |order| != triedCount + newCount
      ensures AddrCheck.Grown(old(ids), ids, infos) && (code == -7 ==> ids == old(ids))
      ensures code == 0 ==> ids == AddrCheck.WithZero(old(ids), infos)
    {
      hide AddrCheck.TriedPasses;
      hide AddrCheck.NewPasses;
      hide AddrCheck.TriedLeft;
      hide AddrCheck.NewLeft;
      hide AddrCheck.NoneExceeds;
      hide AddrCheck.EntriesPass;
      if |order| != triedCount + newCount {
        return -7;
      }
      var tried, refs;
      code, tried, refs := CheckEntries();
      if code != 0 {
        return;
      }
      AddrCheck.SweepsSame(old(State()), State());
      if |tried| != triedCount {
        return -9;
      }
      if |refs| != newCount {
        return -10;
      }
      code, tried := CheckTried(tried);
      if code != 0 {
        return;
      }
      code, refs := CheckNew(refs);
      if code != 0 {
        return;
      }
      if |tried| != 0 {
        return -13;
      }
      if |refs| != 0 {
        return -15;
      }
      if key == 0 {
        return -16;
      }
    }

    /** Check every entry, and collect the tried ones and the reference counts of the others. */
    method CheckEntries() returns (code: int, tried: set<int>, refs: map<int, int>)
      modifies `ids
      ensures code == 0 <==> AddrCheck.EntriesPass(old(State()))
      ensures AddrCheck.Grown(old(ids), ids, infos)
      ensures code == 0 ==> ids == AddrCheck.WithZero(old(ids), infos) && AddrCheck.EntriesPass(State())
      ensures code == 0 ==> tried == TriedIds(infos) && refs == RefCounts(infos) && |refs| == |NewIds(infos)|
      ensures code != -7
    {
      hide AddrCheck.EntryPasses;
      hide AddrCheck.Grown;
      ghost var s := State();
      AddrCheck.NothingGrown(s);
      tried, refs := {}, map[];
      var todo := infos.Keys;
      while todo != {}
        invariant todo <= infos.Keys && State() == s.(ids := ids) && AddrCheck.Grown(s.ids, ids, infos)
        invariant forall id :: id in infos && id !in todo ==> infos[id].Addr() in ids
        invariant forall id :: id in infos && id !in todo ==> AddrCheck.EntryPasses(s, id)
        invariant tried == TriedIds(infos) - todo
        invariant refs == map id | id in NewIds(infos) && id !in todo :: infos[id].refCount
        decreases todo
      {
        ghost var some := Collections.Member(todo);
        var n :| n in todo;
        code := CheckEntry(n, s);
        if code != 0 {
          return;
        }
        if infos[n].inTried {
          tried := tried + {n};
        } else {
          refs := refs[n := infos[n].refCount];
        }
        todo := todo - {n};
      }
      code := 0;
      assert refs.Keys == NewIds(infos);
      AddrCheck.GrownIsZero(s, State());
    }

    /** Check one entry, on the way adding its address to the index if it is missing there. */
    method CheckEntry(n: int, ghost s: Tables) returns (code: int)
      requires n in infos && State() == s.(ids := ids) && AddrCheck.Grown(s.ids, ids, infos)
      modifies `ids
      ensures State() == s.(ids := ids) && AddrCheck.Grown(s.ids, ids, infos) && old(ids).Keys <= ids.Keys
      ensures code == 0 <==> AddrCheck.EntryPasses(s, n)
      ensures code == 0 ==> infos[n].Addr() in ids
      ensures code != -7
    {
      hide AddrCheck.Grown;
      AddrCheck.GrownLookup(s.ids, ids, infos, n);
      var info := infos[n];
      if info.inTried {
        if info.lastSuccess == 0 {
          return -1;
        }
        if info.refCount != 0 {
          return -2;
        }
      } else {
        if info.refCount < 0 || info.refCount > MAX_REFS {
          return -3;
        }
        if info.refCount == 0 {
          return -4;
        }
      }
      if info.Addr() !in ids {
        ids := ids[info.Addr() := 0];
      }
      if ids[info.Addr()] != n {
        return -5;
      }
      if info.randomPos < 0 || info.randomPos >= |order| || order[info.randomPos] != n {
        return -14;
      }
      if info.lastTry < 0 {
        return -6;
      }
      if info.lastSuccess < 0 {
        return -8;
      }
      code := 0;
    }

    /** Sweep the "tried" table, striking out each tried entry where it is found. */
    method CheckTried(tried: set<int>) returns (code: int, left: set<int>)
      requires Shape() && tried == TriedIds(infos)
      ensures code == 0 <==> forall i: nat :: i < TRIED_SLOTS ==> AddrCheck.TriedPasses(State(), i)
      ensures code == 0 ==> left == AddrCheck.TriedLeft(State(), TRIED_SLOTS)
      ensures code != -7
    {
      hide AddrCheck.TriedLeft;
      ghost var s := State();
      left := tried;
      AddrCheck.SweepStarts(s);
      for n := 0 to TRIED_BUCKETS
        invariant forall i: nat :: i < n * BUCKET_SIZE ==> AddrCheck.TriedPasses(s, i)
        invariant left == AddrCheck.TriedLeft(s, n * BUCKET_SIZE)
      {
        for i := 0 to BUCKET_SIZE
          invariant forall j: nat :: j < n * BUCKET_SIZE + i ==> AddrCheck.TriedPasses(s, j)
          invariant left == AddrCheck.TriedLeft(s, n * BUCKET_SIZE + i)
        {
          ghost var k := n * BUCKET_SIZE + i;
          AddrCheck.TriedStep(s, k);
          var id := triedTable[n * BUCKET_SIZE + i];
          if id != -1 {
            if id !in left {
              assert !AddrCheck.TriedPasses(State(), k);
              return -11, left;
            }
            AddrCheck.TriedLeftKnown(s, k, id);
            if TriedBucket(h, key, infos[id].Svc()) != n {
              assert !AddrCheck.TriedPasses(State(), k);
              return -17, left;
            }
            if Position(h, key, false, n, infos[id].Svc()) != i {
              assert !AddrCheck.TriedPasses(State(), k);
              return -18, left;
            }
            left := left - {id};
          }
        }
      }
      code := 0;
    }

    /** Sweep the "new" table, counting each reference off. */
    method CheckNew(refs: map<int, int>) returns (code: int, left: map<int, int>)
      requires Shape() && refs == RefCounts(infos) && AddrCheck.EntriesPass(State())
      ensures code == 0 <==>
              (forall i: nat :: i < NEW_SLOTS ==> AddrCheck.NewPasses(State(), i)) && AddrCheck.NoneExceeds(State())
      ensures code == 0 ==> left == AddrCheck.NewLeft(State(), NEW_SLOTS)
      ensures code != -7
    {
      hide AddrCheck.NewLeft;
      hide AddrCheck.NoneExceedsYet;
      ghost var s := State();
      left := refs;
      AddrCheck.CountStarts(s);
      for n := 0 to NEW_BUCKETS
        invariant forall i: nat :: i < n * BUCKET_SIZE ==> AddrCheck.NewPasses(s, i)
        invariant left == AddrCheck.NewLeft(s, n * BUCKET_SIZE)
        invariant AddrCheck.NoneExceedsYet(s, n * BUCKET_SIZE)
      {
        for i := 0 to BUCKET_SIZE
          invariant forall j: nat :: j < n * BUCKET_SIZE + i ==> AddrCheck.NewPasses(s, j)
          invariant left == AddrCheck.NewLeft(s, n * BUCKET_SIZE + i)
          invariant AddrCheck.NoneExceedsYet(s, n * BUCKET_SIZE + i)
        {
          ghost var k := n * BUCKET_SIZE + i;
          AddrCheck.NewStep(s, k);
          var id := newTable[n * BUCKET_SIZE + i];
          if id != -1 {
            if id !in left {
              return -12, left;
            }
            AddrCheck.NewLeftKnown(s, k, id);
            if Position(h, key, true, n, infos[id].Svc()) != i {
              assert !AddrCheck.NewPasses(State(), k);
              return -19, left;
            }
            var count := left[id] - 1;
            left := if count == 0 then left - {id} else left[id := count];
          }
        }
      }
      code := 0;
    }

    method Serialize() returns (d: AddrSave.Dump)
      requires Valid()
      ensures nextId >= 0 && d == AddrSave.Serialize(State())
    {
      ghost var s := State();
      SaveFacts(s);
      hide *;
      var entries, index := SaveEntries(infos, nextId, false, newCount);
      var tried, _ := SaveEntries(infos, nextId, true, triedCount);
      var buckets: seq<seq<int>> := [];
      for bucket := 0 to NEW_BUCKETS
        invariant |buckets| == bucket
        invariant forall b :: 0 <= b < bucket ==> buckets[b] == AddrSave.BucketList(s, b, BUCKET_SIZE)
      {
        var list := SaveBucket(newTable, bucket, index, s);
        buckets := buckets + [list];
      }
      d := AddrSave.Dump(1, 32, key, newCount, triedCount, AddrSave.FlipBit30(NEW_BUCKETS), entries, tried, buckets);
      SaveAssembled(s, d);
    }

    /** One walk over the entry map: write the picked entries, and map every id to the
        number of entries written before it. */
    static method SaveEntries(infos: map<int, AddrInfo>, nextId: nat, tried: bool, limit: int)
      returns (entries: seq<AddrSave.Saved>, index: map<int, int>)
      requires |AddrSave.IdsBelow(infos, nextId, tried)| == limit
      ensures AddrSave.Saves(infos, AddrSave.IdsBelow(infos, nextId, tried), entries)
      ensures forall id :: id in infos && 0 <= id < nextId ==>
        id in index && index[id] == |AddrSave.IdsBelow(infos, id, tried)|
    {
      entries, index := [], map[];
      ghost var ids := [];
      AddrSave.IdsBelowNone(infos, tried);
      hide AddrSave.IdsBelow;
      for id := 0 to nextId
        invariant ids == AddrSave.IdsBelow(infos, id, tried)
        invariant AddrSave.Saves(infos, ids, entries)
        invariant forall i :: i in infos && 0 <= i < id ==>
          i in index && index[i] == |AddrSave.IdsBelow(infos, i, tried)|
      {
        AddrSave.IdsBelowNext(infos, id, tried);
        if id in infos {
          index := index[id := |entries|];
          if AddrSave.Pick(infos[id], tried) {
            AddrRoundTrip.IdsBelowAt(infos, nextId, tried, id);
            assert |entries| != limit;
            entries := entries + [AddrSave.Save(infos[id])];
            ids := ids + [id];
          }
        }
      }
    }

    static method SaveBucket(table: array<int>, bucket: nat, index: map<int, int>,
                             ghost s: Tables) returns (list: seq<int>)
      requires table.Length == NEW_SLOTS && bucket < NEW_BUCKETS && s.newTable == table[..]
      requires forall i :: 0 <= i < NEW_SLOTS && table[i] != -1 ==>
        table[i] in index && index[table[i]] == AddrSave.Index(s, table[i])
      ensures list == AddrSave.BucketList(s, bucket, BUCKET_SIZE)
    {
      hide AddrSave.Index;
      list := [];
      for i := 0 to BUCKET_SIZE
        invariant list == AddrSave.BucketList(s, bucket, i)
      {
        var id := table[bucket * BUCKET_SIZE + i];
        assert id == s.newTable[bucket * BUCKET_SIZE + i];
        if id != -1 {
          list := list + [index[id]];
        }
      }
    }

    /** Load a dump; false when the reader throws. */
    method Unserialize(d: AddrSave.Dump, randomKey: nat) returns (ok: bool)
      requires Shape()
      modifies this, triedTable, newTable
      ensures ok <==> AddrSave.Unserialize(h, d).Some?
      ensures ok ==> State() == AddrSave.Unserialize(h, d).value
    {
      Clear(randomKey);
      hide Inv;
      if d.keySize != 32 {
        return false;
      }
      key := d.key;
      newCount := d.newCount;
      triedCount := d.triedCount;
      var buckets := d.bucketCount;
      if d.version != 0 {
        buckets := AddrSave.FlipBit30(buckets);
      }
      if newCount > NEW_SLOTS {
        return false;
      }
      if triedCount > TRIED_SLOTS {
        return false;
      }
      // the lists end where the counts say
      if |d.entries| != Ops.Max0(newCount) || |d.tried| != Ops.Max0(triedCount) || |d.buckets| != Ops.Max0(buckets) {
        return false;
      }
      ghost var t0 := Runs.Cleared(h, d.key).(newCount := d.newCount, triedCount := d.triedCount);
      assert State() == t0;
      assert AddrSave.OrderOk(t0) && AddrSave.IdsUnder(t0, 0);
      var keep := d.version == 1 && buckets == NEW_BUCKETS;
      UnserializeSteps(t0, d, keep);
      hide *;
      LoadEntries(d.entries, keep);
      nextId := newCount;
      LoadTried(d.tried);
      if keep {
        LoadBuckets(d.buckets);
      }
      Prune();
      ok := true;
    }

    method LoadEntries(svs: seq<AddrSave.Saved>, keep: bool)
      requires Shape()
      modifies this, newTable
      ensures State() == AddrSave.LoadEntries(old(State()), svs, keep)
    {
      hide Ops.SlotFor;
      ghost var s := State();
      assert svs[..0] == [];
      for n := 0 to |svs|
        invariant State() == AddrSave.LoadEntries(s, svs[..n], keep)
      {
        ghost var t := State();
        assert svs[..n + 1][..n] == svs[..n];
        LoadEntry(n, svs[n], keep);
        assert State() == AddrSave.LoadEntry(t, n, svs[n], keep);
        hide AddrSave.LoadEntry;
      }
      assert svs[..|svs|] == svs;
    }

    method LoadEntry(n: int, sv: AddrSave.Saved, keep: bool)
      requires Shape()
      modifies this, newTable
      ensures State() == AddrSave.LoadEntry(old(State()), n, sv, keep)
    {
      ghost var t := State();
      infos := infos[n := AddrSave.Restore(sv, -1)];
      ids := ids[sv.address.service.addr := n];
      infos := infos[n := infos[n].(randomPos := |order|)];
      assert infos == t.infos[n := AddrSave.Restore(sv, |t.order|)];
      order := order + [n];
      if !keep {
        ghost var u := State();
        var slot := NewSlot(h, key, infos[n].Svc(), NewBucket(h, key, infos[n].Svc(), infos[n].source));
        if newTable[slot] == -1 {
          newTable[slot] := n;
          infos := infos[n := infos[n].(refCount := infos[n].refCount + 1)];
          assert newTable[..] == u.newTable[slot := n];
        }
      }
    }

    method LoadTried(svs: seq<AddrSave.Saved>)
      requires Shape()
      modifies this, triedTable
      ensures State() == AddrSave.LoadTried(old(State()), svs)
    {
      ghost var s := State();
      assert svs[..0] == [];
      for n := 0 to |svs|
        invariant State() == AddrSave.LoadTried(s, svs[..n])
      {
        ghost var t := State();
        assert svs[..n + 1][..n] == svs[..n];
        LoadTriedOne(svs[n]);
        hide AddrSave.LoadTriedOne;
      }
      assert svs[..|svs|] == svs;
    }

    method LoadTriedOne(sv: AddrSave.Saved)
      requires Shape()
      modifies this, triedTable
      ensures State() == AddrSave.LoadTriedOne(old(State()), sv)
    {
      ghost var t := State();
      var slot := TriedSlot(h, key, sv.address.service);
      if triedTable[slot] == -1 {
        infos := infos[nextId := AddrSave.Restore(sv, |order|).(inTried := true)];
        order := order + [nextId];
        ids := ids[sv.address.service.addr := nextId];
        triedTable[slot] := nextId;
        assert triedTable[..] == t.triedTable[slot := t.nextId];
        nextId := nextId + 1;
      } else {
        triedCount := triedCount - 1;
      }
    }

    method LoadBuckets(buckets: seq<seq<int>>)
      requires Shape() && |buckets| == NEW_BUCKETS
      modifies this, newTable
      ensures State() == AddrSave.LoadBuckets(old(State()), buckets, NEW_BUCKETS)
    {
      ghost var s := State();
      for bucket := 0 to NEW_BUCKETS
        invariant State() == AddrSave.LoadBuckets(s, buckets, bucket)
      {
        LoadBucket(bucket, buckets[bucket]);
        hide AddrSave.LoadBucket;
      }
    }

    method LoadBucket(bucket: nat, indexes: seq<int>)
      requires Shape() && bucket < NEW_BUCKETS
      modifies this, newTable
      ensures State() == AddrSave.LoadBucket(old(State()), bucket, indexes)
    {
      ghost var s := State();
      assert indexes[..0] == [];
      for n := 0 to |indexes|
        invariant State() == AddrSave.LoadBucket(s, bucket, indexes[..n])
      {
        assert indexes[..n + 1][..n] == indexes[..n];
        LoadIndex(bucket, indexes[n]);
        hide AddrSave.LoadIndex;
      }
      assert indexes[..|indexes|] == indexes;
    }

    method LoadIndex(bucket: nat, index: int)
      requires Shape() && bucket < NEW_BUCKETS
      modifies this, newTable
      ensures State() == AddrSave.LoadIndex(old(State()), bucket, index)
    {
      ghost var t := State();
      if 0 <= index < newCount && index in infos {
        var slot := NewSlot(h, key, infos[index].Svc(), bucket);
        if newTable[slot] == -1 && infos[index].refCount < MAX_REFS {
          infos := infos[index := infos[index].(refCount := infos[index].refCount + 1)];
          newTable[slot] := index;
          assert newTable[..] == t.newTable[slot := index];
        }
      }
    }

    method Prune()
      requires AddrSave.OrderOk(State())
      modifies this
      ensures State() == AddrSave.Prune(old(State()), Ops.Max0(old(nextId)))
    {
      ghost var s := State();
      var count := Ops.Max0(nextId);
      for n := 0 to count
        invariant State() == AddrSave.Prune(s, n)
      {
        AddrSave.PruneOrder(s, n);
        hide AddrSave.OrderOk;
        if n in infos && !infos[n].inTried && infos[n].refCount == 0 {
          AddrSave.DeleteOrder(State(), n);
          hide AddrTables.Delete;
          Delete(n);
        }
      }
    }
  }

  /** The `n`th bucket visited when starting from `start`. */
  function Around(n: nat, start: nat): (b: nat)
    ensures b < NEW_BUCKETS
  {
    (n + start) % NEW_BUCKETS
  }

  /** What saving relies on: both counters are exact, and used slots hold known ids. */
  lemma SaveFacts(s: Tables)
    requires Inv(s)
    ensures s.nextId >= 0 && |s.newTable| == NEW_SLOTS
    ensures |AddrSave.IdsBelow(s.infos, s.nextId, false)| == s.newCount
    ensures |AddrSave.IdsBelow(s.infos, s.nextId, true)| == s.triedCount
    ensures forall i :: 0 <= i < NEW_SLOTS && s.newTable[i] != -1 ==>
      s.newTable[i] in s.infos && 0 <= s.newTable[i] < s.nextId &&
      |AddrSave.IdsBelow(s.infos, s.newTable[i], false)| == AddrSave.Index(s, s.newTable[i])
  {
    AddrRoundTrip.ListedFromInv(s);
    hide AddrSave.IdsBelow;
  }

  lemma UnserializeSteps(t0: Tables, d: AddrSave.Dump, keep: bool)
    requires t0 == Runs.Cleared(t0.h, d.key).(newCount := d.newCount, triedCount := d.triedCount)
    requires AddrSave.OrderOk(t0) && AddrSave.IdsUnder(t0, 0)
    requires var buckets := if d.version != 0 then AddrSave.FlipBit30(d.bucketCount) else d.bucketCount;
      && d.keySize == 32 && d.newCount <= NEW_SLOTS && d.triedCount <= TRIED_SLOTS
      && |d.entries| == Ops.Max0(d.newCount) && |d.tried| == Ops.Max0(d.triedCount) && |d.buckets| == Ops.Max0(buckets)
      && keep == (d.version == 1 && buckets == NEW_BUCKETS)
    ensures keep ==> |d.buckets| == NEW_BUCKETS
    ensures |t0.newTable| == NEW_SLOTS && |t0.triedTable| == TRIED_SLOTS
    ensures var t1 := AddrSave.LoadEntries(t0, d.entries, keep);
      var t2 := AddrSave.LoadTried(t1.(nextId := d.newCount), d.tried);
      var t3 := if keep then AddrSave.LoadBuckets(t2, d.buckets, NEW_BUCKETS) else t2;
      && t1.newCount == d.newCount
      && AddrSave.OrderOk(t3)
      && AddrSave.Unserialize(t0.h, d) == Collections.Some(AddrSave.Prune(t3, Ops.Max0(t3.nextId)))
  {
    hide AddrSave.OrderOk;
    hide AddrSave.LoadEntries;
    hide AddrSave.LoadTried;
    hide AddrSave.LoadBuckets;
    hide AddrSave.Prune;
    AddrSave.LoadEntriesOrder(t0, d.entries, keep);
    var t1 := AddrSave.LoadEntries(t0, d.entries, keep);
    AddrSave.LoadEntriesCount(t0, d.entries, keep);
    var t1' := t1.(nextId := d.newCount);
    AddrSave.OrderSame(t1, t1');
    AddrSave.LoadTriedOrder(t1', d.tried);
    if keep {
      AddrSave.LoadBucketsOrder(AddrSave.LoadTried(t1', d.tried), d.buckets, NEW_BUCKETS);
    }
  }

  lemma SaveAssembled(s: Tables, d: AddrSave.Dump)
    requires s.nextId >= 0 && |s.newTable| == NEW_SLOTS
    requires AddrSave.Saves(s.infos, AddrSave.IdsBelow(s.infos, s.nextId, false), d.entries)
    requires AddrSave.Saves(s.infos, AddrSave.IdsBelow(s.infos, s.nextId, true), d.tried)
    requires |d.buckets| == NEW_BUCKETS && forall b :: 0 <= b < NEW_BUCKETS ==>
        d.buckets[b] == AddrSave.BucketList(s, b, BUCKET_SIZE)
    requires d == AddrSave.Dump(1, 32, s.key, s.newCount, s.triedCount, AddrSave.FlipBit30(NEW_BUCKETS), d.entries,
        d.tried, d.buckets)
    ensures d == AddrSave.Serialize(s)
  {
    hide AddrSave.IdsBelow;
    hide AddrSave.BucketList;
    var e := AddrSave.Serialize(s);
    assert d.entries == e.entries && d.tried == e.tried && d.buckets == e.buckets;
  }

  lemma DeleteSteps(s: Tables, id: int)
    requires Deletable(s, id)
    ensures id in s.infos && 0 <= s.infos[id].randomPos < |s.order|
    ensures s.order[s.infos[id].randomPos] in s.infos && s.order[|s.order| - 1] in s.infos
    ensures var m := AddrTables.SwapRandom(s, s.infos[id].randomPos, |s.order| - 1);
      && id in m.infos && |m.order| == |s.order| > 0
      && AddrTables.Delete(s, id) ==
         m.(infos := m.infos - {id}, ids := m.ids - {m.infos[id].Addr()},
            order := m.order[..|m.order| - 1], newCount := m.newCount - 1)
  {}

  lemma PlaceStates(s: Tables, id: int, slot: nat, transit: set<int>, owed: int)
    requires InvDuring(s, transit, owed) && slot < NEW_SLOTS && id in s.infos
    ensures IndexInv(s) && |s.newTable| == NEW_SLOTS
    ensures s.newTable[slot] != -1 ==> s.newTable[slot] in s.infos
    ensures s.newTable[slot] != id ==> id in Ops.ClearNew(s, slot).infos
  {}

  function RefCounts(infos: map<int, AddrInfo>): map<int, int> {
    map id | id in NewIds(infos) :: infos[id].refCount
  }

  lemma RefreshKeeps(s: Tables, id: int, a: Ops.AddArgs)
    requires Inv(s) && id in s.infos
    ensures var info := Ops.Refresh(s.infos[id], a.addr, Ops.Penalty(a), a.now);
      && InvDuring(Touch(s, id, info), {}, 0)
      && info.Svc() == s.infos[id].Svc() && info.inTried == s.infos[id].inTried
  {
    hide InvDuring;
    TouchKeeps(s, id, Ops.Refresh(s.infos[id], a.addr, Ops.Penalty(a), a.now), {}, 0);
  }

  lemma MakeRoomStates(s: Tables, slot: nat, transit: set<int>, owed: int)
    requires InvDuring(s, transit, owed) && slot < TRIED_SLOTS && s.triedTable[slot] != -1
    ensures var id := s.triedTable[slot]; var u := Evict(s, slot, id);
      var back := NewSlot(u.h, u.key, u.infos[id].Svc(), NewBucket(u.h, u.key, u.infos[id].Svc(), u.infos[id].source));
      var c := Ops.ClearNew(u, back);
      && id in s.infos && id in c.infos && back < NEW_SLOTS
      && u == s.(triedTable := s.triedTable[slot := -1],
                 infos := s.infos[id := s.infos[id].(inTried := false)],
                 triedCount := s.triedCount - 1)
      && InvDuring(u, transit + {id}, owed + 1)
      && c.triedTable[slot] == -1
      && Ops.MakeRoom(s, slot) ==
         c.(newTable := c.newTable[back := id],
            infos := c.infos[id := c.infos[id].(refCount := 1)],
            newCount := c.newCount + 1)
  {
    var id := s.triedTable[slot];
    EvictKeeps(s, slot, id, transit, owed);
    Ops.EvictedFacts(s, slot, transit);
    var u := Evict(s, slot, id);
    hide InvDuring;
    Ops.MoveBackFacts(u, id, Ops.SlotFor(u, id, u.infos[id].source), transit + {id}, owed + 1);
    Ops.ClearNewKeepsTried(u, Ops.SlotFor(u, id, u.infos[id].source));
  }

  lemma MakeTriedStates(s: Tables, id: int)
    requires Inv(s) && id in s.infos && !s.infos[id].inTried
    requires |s.newTable| == NEW_SLOTS && |s.triedTable| == TRIED_SLOTS
    ensures var u := Ops.UnlinkAll(s, id, NEW_BUCKETS);
      var v := u.(newCount := u.newCount - 1);
      var slot := TriedSlot(v.h, v.key, v.infos[id].Svc());
      var w := Ops.MakeRoom(v, slot);
      && v.infos[id].refCount == 0
      && InvDuring(v, {id}, 1) && slot < TRIED_SLOTS && v.triedTable[slot] !in {id}
      && id in w.infos
      && Ops.MakeTried(s, id) ==
         w.(triedTable := w.triedTable[slot := id],
            infos := w.infos[id := w.infos[id].(inTried := true)],
            triedCount := w.triedCount + 1)
  {
    var u := Ops.UnlinkAll(s, id, NEW_BUCKETS);
    var v := u.(newCount := u.newCount - 1);
    var slot := TriedSlot(v.h, v.key, v.infos[id].Svc());
    Ops.MakeTriedFacts(s, id, {}, 0);
    hide InvDuring;
    assert {} + {id} == {id};
    Ops.UnlinkAllKeeps(s, id, NEW_BUCKETS, {id}, 0);
    Ops.CountShift(u, -1, {id}, 0);
    Ops.NoSlotsNoRefs(v, id, {id}, 1);
    Ops.MakeRoomFrame(v, slot, id, {id}, 1);
    hide Ops.UnlinkAll;
    hide Ops.MakeRoom;
  }

  lemma DeleteKeepsNewTable(s: Tables, id: int)
    ensures AddrTables.Delete(s, id).newTable == s.newTable
  {}
}
