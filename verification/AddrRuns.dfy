/**
 Every operation of the address manager keeps its invariant, on every run and whatever the
 clocks say, and a sample of addresses holds what it should.
 */
module AddrRuns {
  import opened Collections
  import opened AddrTables
  import opened AddrOps

  // ----- adding

  lemma PlaceKeeps(s: Tables, id: int, slot: nat, now: int)
    requires InvDuring(s, {id}, 0) && id in s.infos && !s.infos[id].inTried && s.infos[id].refCount < MAX_REFS
    requires |s.newTable| == NEW_SLOTS && slot < NEW_SLOTS
    requires slot == NewSlot(s.h, s.key, s.infos[id].Svc(), slot / BUCKET_SIZE)
    ensures Inv(Place(s, id, slot, now))
  {
    hide InvDuring;
    assert {id} - {id} == {} && {} + {id} == {id};
    var x := s.newTable[slot];
    RefsNotNegative(s, id, {id}, 0);
    if x == id {
      SlotGivesRef(s, slot, {id}, 0);
      TransitSettles(s, id, {}, 0);
    } else if Place(s, id, slot, now) == Link(ClearNew(s, slot), slot, id) {
      ClearNewKeeps(s, slot, {id}, 0);
      ClearNewFrame(s, slot, id, {id}, 0);
      LinkKeeps(ClearNew(s, slot), slot, id, {id}, 0);
    } else if s.infos[id].refCount == 0 {
      DeleteKeeps(s, id, {id}, 0);
    } else {
      TransitSettles(s, id, {}, 0);
    }
  }

  lemma SlotGivesRef(s: Tables, slot: nat, transit: set<int>, owed: int)
    requires InvDuring(s, transit, owed) && slot < NEW_SLOTS && s.newTable[slot] != -1
    ensures s.newTable[slot] in s.infos && s.infos[s.newTable[slot]].refCount > 0
  {
    assert slot in Slots(s.newTable, s.newTable[slot]);
  }

  lemma RefsNotNegative(s: Tables, id: int, transit: set<int>, owed: int)
    requires InvDuring(s, transit, owed) && id in s.infos
    ensures id >= 0 && 0 <= s.infos[id].refCount <= MAX_REFS
  {}

  lemma ClearNewFrame(s: Tables, slot: nat, id: int, transit: set<int>, owed: int)
    requires InvDuring(s, transit, owed) && slot < NEW_SLOTS && id in s.infos && s.newTable[slot] != id
    ensures var t := ClearNew(s, slot);
      && id in t.infos && Alike(t.infos[id], s.infos[id])
      && t.newTable == s.newTable[slot := -1] && t.h == s.h && t.key == s.key
  {
    ClearNewEffect(s, slot);
  }

  lemma AddKnownKeeps(s: Tables, a: AddArgs, id: int)
    requires Inv(s) && id in s.infos && |s.newTable| == NEW_SLOTS
    ensures Inv(AddKnown(s, a, id))
  {
    hide InvDuring;
    var t := Touch(s, id, Refresh(s.infos[id], a.addr, Penalty(a), a.now));
    TouchKeeps(s, id, t.infos[id], {}, 0);
    if WantsReference(t.infos[id], a.addr, a.roll) {
      TransitNarrows(t, {}, {id}, 0);
      RefsNotNegative(t, id, {}, 0);
      hide Place;
      PlaceKeeps(t, id, SlotFor(t, id, a.source), a.now);
    }
  }

  lemma CreateAgedKeeps(s: Tables, a: AddArgs)
    requires Inv(s) && a.addr.service.addr !in s.ids
    ensures InvDuring(CreateAged(s, a), {s.nextId}, 0)
  {
    hide InvDuring;
    CreateKeeps(s, a.addr, a.source);
    var t := Create(s, a.addr, a.source);
    var info := WithTime(t.infos[s.nextId], U32(Max0(t.infos[s.nextId].address.time - Penalty(a))));
    TouchKeeps(t, s.nextId, info, {s.nextId}, 1);
    CountShift(Touch(t, s.nextId, info), 1, {s.nextId}, 1);
  }

  lemma KnownIds(s: Tables, addr: NetAddr)
    requires Inv(s) && addr in s.ids
    ensures s.ids[addr] in s.infos && s.infos[s.ids[addr]].Addr() == addr
  {}

  lemma TableSizes(s: Tables)
    requires Inv(s)
    ensures |s.newTable| == NEW_SLOTS && |s.triedTable| == TRIED_SLOTS
  {}

  lemma AddKeeps(s: Tables, a: AddArgs)
    requires Inv(s) && |s.newTable| == NEW_SLOTS
    ensures Inv(Add(s, a))
  {
    hide Inv;
    hide Place;
    hide CreateAged;
    var addr := a.addr.service.addr;
    if !s.h.routable(addr) {
    } else if addr in s.ids {
      KnownIds(s, addr);
      hide AddKnown;
      AddKnownKeeps(s, a, s.ids[addr]);
    } else {
      CreateAgedKeeps(s, a);
      CreateAgedFacts(s, a);
      AddNewKeeps(CreateAged(s, a), s.nextId, a);
    }
  }

  lemma CreateAgedFacts(s: Tables, a: AddArgs)
    ensures var t := CreateAged(s, a);
      && t.newTable == s.newTable && t.triedTable == s.triedTable && t.h == s.h && t.key == s.key
      && t.ids == s.ids[a.addr.service.addr := s.nextId]
      && t.infos.Keys == s.infos.Keys + {s.nextId}
      && t.infos[s.nextId].refCount == 0 && !t.infos[s.nextId].inTried
      && t.infos[s.nextId].Svc() == a.addr.service
      && (forall i :: i in s.infos && i != s.nextId ==> t.infos[i] == s.infos[i])
  {}

  lemma AddNewKeeps(t: Tables, id: int, a: AddArgs)
    requires InvDuring(t, {id}, 0) && id in t.infos && |t.newTable| == NEW_SLOTS
    requires !t.infos[id].inTried && t.infos[id].refCount == 0
    ensures Inv(Place(t, id, SlotFor(t, id, a.source), a.now))
  {
    hide InvDuring;
    hide Place;
    PlaceKeeps(t, id, SlotFor(t, id, a.source), a.now);
  }

  // ----- marking good

  /** An untried entry is always found in some "new" bucket. */
  lemma BucketFound(s: Tables, id: int)
    requires Inv(s) && id in s.infos && !s.infos[id].inTried && |s.newTable| == NEW_SLOTS
    ensures HasBucket(s, id)
  {
    assert |Slots(s.newTable, id)| >= 1;
    var i :| i in Slots(s.newTable, id);
    assert s.newTable[NewSlot(s.h, s.key, s.infos[id].Svc(), i / BUCKET_SIZE)] == id;
  }

  /** The entry as a successful connection at `time` leaves it. */
  function Succeeded(info: AddrInfo, time: int): AddrInfo {
    info.(lastSuccess := time, lastTry := time, attempts := 0)
  }

  lemma LastGoodKeeps(s: Tables, time: int)
    requires Inv(s)
    ensures Inv(s.(lastGood := time))
  {}

  lemma GoodTouchKeeps(s: Tables, id: int, time: int)
    requires Inv(s) && id in s.infos
    ensures Inv(Touch(s.(lastGood := time), id, Succeeded(s.infos[id], time)))
  {
    LastGoodKeeps(s, time);
    hide InvDuring;
    TouchKeeps(s.(lastGood := time), id, Succeeded(s.infos[id], time), {}, 0);
  }

  lemma GoodKeeps(s: Tables, svc: Service, time: int)
    requires Inv(s) && |s.newTable| == NEW_SLOTS && |s.triedTable| == TRIED_SLOTS
    ensures Inv(Good(s, svc, time))
  {
    hide Inv;
    hide MakeTried;
    LastGoodKeeps(s, time);
    if Matches(s, svc) {
      var id := s.ids[svc.addr];
      GoodTouchKeeps(s, id, time);
      var s1 := Touch(s.(lastGood := time), id, Succeeded(s.infos[id], time));
      if !s.infos[id].inTried {
        BucketFound(s1, id);
        MakeTriedKeeps(s1, id);
      }
    }
  }

  // ----- the small updates

  lemma AttemptKeeps(s: Tables, svc: Service, countFailure: bool, time: int)
    requires Inv(s)
    ensures Inv(Attempt(s, svc, countFailure, time))
  {
    if Matches(s, svc) {
      hide InvDuring;
      TouchKeeps(s, s.ids[svc.addr], Attempt(s, svc, countFailure, time).infos[s.ids[svc.addr]], {}, 0);
    }
  }

  lemma ConnectedKeeps(s: Tables, svc: Service, time: int)
    requires Inv(s)
    ensures Inv(Connected(s, svc, time))
  {
    if Matches(s, svc) {
      hide InvDuring;
      TouchKeeps(s, s.ids[svc.addr], WithTime(s.infos[s.ids[svc.addr]], U32(time)), {}, 0);
    }
  }

  lemma SetServicesKeeps(s: Tables, svc: Service, services: set<nat>)
    requires Inv(s)
    ensures Inv(SetServices(s, svc, services))
  {
    if Matches(s, svc) {
      hide InvDuring;
      TouchKeeps(s, s.ids[svc.addr], SetServices(s, svc, services).infos[s.ids[svc.addr]], {}, 0);
    }
  }

  // ----- sampling addresses

  /** The addresses of the entries worth passing on, in order. */
  function Worthy(s: Tables, ids: seq<int>, now: int): seq<Address>
    requires forall k :: 0 <= k < |ids| ==> ids[k] in s.infos
  {
    if ids == [] then [] else
      var last := s.infos[ids[|ids| - 1]];
      Worthy(s, ids[..|ids| - 1], now) + (if last.IsTerrible(now) then [] else [last.address])
  }

  function SampleSize(s: Tables): nat {
    var n := 23 * |s.order| / 100;
    if n > 2500 then 2500 else n
  }

  predicate Ordered(s: Tables) {
    forall k :: 0 <= k < |s.order| ==> s.order[k] in s.infos
  }

  /** Draw entries from position `n` on until `want` worthy ones have been seen;
      returns the shuffled tables and the number of positions drawn. */
  function Draw(s: Tables, n: nat, want: nat, now: int, draws: nat -> nat): (r: (Tables, nat))
    requires Ordered(s) && n <= |s.order|
    ensures Ordered(r.0) && |r.0.order| == |s.order| && r.1 <= |r.0.order|
    decreases |s.order| - n
  {
    if n == |s.order| || |Worthy(s, s.order[..n], now)| >= want then (s, n)
    else Draw(SwapRandom(s, n, draws(n) % (|s.order| - n) + n), n + 1, want, now, draws)
  }

  function GetAddr(s: Tables, now: int, draws: nat -> nat): (r: (Tables, seq<Address>))
    requires Ordered(s)
  {
    var (t, n) := Draw(s, 0, SampleSize(s), now, draws);
    (t, Worthy(t, t.order[..n], now))
  }

  lemma {:induction false} DrawKeeps(s: Tables, n: nat, want: nat, now: int, draws: nat -> nat)
    requires Inv(s) && Ordered(s) && n <= |s.order|
    ensures Inv(Draw(s, n, want, now, draws).0)
    decreases |s.order| - n
  {
    hide Inv;
    hide Draw;
    hide Worthy;
    hide SwapRandom;
    if n < |s.order| && |Worthy(s, s.order[..n], now)| < want {
      var p := draws(n) % (|s.order| - n) + n;
      DrawUnfold(s, n, p, want, now, draws);
      SwapKeepsInv(s, n, p);
      DrawKeeps(SwapRandom(s, n, p), n + 1, want, now, draws);
    } else {
      DrawStops(s, n, want, now, draws);
    }
  }

  lemma SwapKeepsInv(s: Tables, p1: nat, p2: nat)
    requires Inv(s) && p1 < |s.order| && p2 < |s.order|
    ensures Ordered(s) && Inv(SwapRandom(s, p1, p2))
    ensures Ordered(SwapRandom(s, p1, p2)) && |SwapRandom(s, p1, p2).order| == |s.order|
  {
    SwapKeeps(s, p1, p2, {}, 0);
  }

  lemma {:induction false} WorthyIn(s: Tables, ids: seq<int>, now: int, k: nat)
    requires forall k :: 0 <= k < |ids| ==> ids[k] in s.infos
    requires k < |ids| && !s.infos[ids[k]].IsTerrible(now)
    ensures s.infos[ids[k]].address in Worthy(s, ids, now)
  {
    if k < |ids| - 1 {
      WorthyIn(s, ids[..|ids| - 1], now, k);
    }
  }

  lemma {:induction false} WorthyFrom(s: Tables, ids: seq<int>, now: int)
    requires forall k :: 0 <= k < |ids| ==> ids[k] in s.infos
    ensures |Worthy(s, ids, now)| <= |ids|
    ensures forall j :: 0 <= j < |Worthy(s, ids, now)| ==>
      exists k ::
        0 <= k < |ids| && Worthy(s, ids, now)[j] == s.infos[ids[k]].address && !s.infos[ids[k]].IsTerrible(now)
  {
    if ids != [] {
      var rest := ids[..|ids| - 1];
      WorthyFrom(s, rest, now);
      forall j | 0 <= j < |Worthy(s, ids, now)|
        ensures exists k ::
          0 <= k < |ids| && Worthy(s, ids, now)[j] == s.infos[ids[k]].address && !s.infos[ids[k]].IsTerrible(now)
      {
        if j < |Worthy(s, rest, now)| {
          var k :| 0 <= k < |rest| && Worthy(s, rest, now)[j] == s.infos[rest[k]].address
            && !s.infos[rest[k]].IsTerrible(now);
          assert ids[k] == rest[k];
        } else {
          assert Worthy(s, ids, now)[j] == s.infos[ids[|ids| - 1]].address;
        }
      }
    }
  }

  ghost predicate DistinctAddrs(r: seq<Address>) {
    forall i, j :: 0 <= i < j < |r| ==> r[i].service.addr != r[j].service.addr
  }

  lemma {:induction false} WorthyDistinct(s: Tables, n: nat, now: int)
    requires IndexInv(s) && n <= |s.order|
    ensures DistinctAddrs(Worthy(s, s.order[..n], now))
  {
    if n > 0 {
      WorthyDistinct(s, n - 1, now);
      var ids, rest := s.order[..n], s.order[..n - 1];
      assert ids[..|ids| - 1] == rest;
      WorthyFrom(s, rest, now);
      var r := Worthy(s, rest, now);
      forall j | 0 <= j < |r| ensures r[j].service.addr != s.infos[ids[n - 1]].Addr() {
        var k :| 0 <= k < |rest| && r[j] == s.infos[rest[k]].address && !s.infos[rest[k]].IsTerrible(now);
        assert s.order[k] != s.order[n - 1];
      }
    }
  }

  /** Shuffling positions from `n` on does not change what the first `n` yielded. */
  lemma WorthySwap(s: Tables, n: nat, p: nat, now: int)
    requires IndexInv(s) && n <= p < |s.order|
    ensures Ordered(SwapRandom(s, n, p)) && |SwapRandom(s, n, p).order| == |s.order|
    ensures SwapRandom(s, n, p).order[..n] == s.order[..n]
    ensures Worthy(SwapRandom(s, n, p), s.order[..n], now) == Worthy(s, s.order[..n], now)
  {
    SwapEntries(s, n, p);
    WorthyAlike(s, SwapRandom(s, n, p), s.order[..n], now);
  }

  lemma {:induction false} WorthyAlike(s: Tables, t: Tables, ids: seq<int>, now: int)
    requires forall k :: 0 <= k < |ids| ==>
      ids[k] in s.infos && ids[k] in t.infos && Alike(t.infos[ids[k]], s.infos[ids[k]])
    ensures Worthy(t, ids, now) == Worthy(s, ids, now)
  {
    if ids != [] {
      WorthyAlike(s, t, ids[..|ids| - 1], now);
      var x, y := s.infos[ids[|ids| - 1]], t.infos[ids[|ids| - 1]];
      assert x.(randomPos := 0) == y.(randomPos := 0);
      assert x.address == y.address && x.IsTerrible(now) == y.IsTerrible(now);
    }
  }

  /** `t` differs from `s` only in the random order. */
  ghost predicate Shuffled(s: Tables, t: Tables) {
    && t.infos.Keys == s.infos.Keys && t.ids == s.ids && |t.order| == |s.order|
    && (forall id :: id in s.infos ==> Alike(t.infos[id], s.infos[id]))
  }

  lemma ShuffledOnce(s: Tables, n: nat, p: nat)
    requires IndexInv(s) && n < |s.order| && p < |s.order|
    ensures Shuffled(s, SwapRandom(s, n, p))
  {
    SwapEntries(s, n, p);
  }

  lemma ShuffledTrans(s: Tables, t: Tables, u: Tables)
    requires Shuffled(s, t) && Shuffled(t, u)
    ensures Shuffled(s, u)
  {
    forall id | id in s.infos ensures Alike(u.infos[id], s.infos[id]) {
      assert Alike(t.infos[id], s.infos[id]) && Alike(u.infos[id], t.infos[id]);
    }
  }

  lemma WorthyNext(t: Tables, n: nat, now: int)
    requires Ordered(t) && n < |t.order|
    ensures Worthy(t, t.order[..n + 1], now) ==
            Worthy(t, t.order[..n], now) +
              (if t.infos[t.order[n]].IsTerrible(now) then [] else [t.infos[t.order[n]].address])
  {
    assert t.order[..n + 1][..n] == t.order[..n];
  }

  lemma InvOrdered(s: Tables)
    requires Inv(s)
    ensures IndexInv(s) && Ordered(s)
  {}

  lemma WorthyNone(s: Tables, now: int)
    ensures s.order[..0] == [] && Worthy(s, [], now) == []
  {}

  lemma DrawStops(s: Tables, n: nat, want: nat, now: int, draws: nat -> nat)
    requires Ordered(s) && n <= |s.order|
    requires n == |s.order| || |Worthy(s, s.order[..n], now)| >= want
    ensures Draw(s, n, want, now, draws) == (s, n)
  {}

  /** One round of the drawing loop. */
  lemma DrawAdvance(s: Tables, n: nat, p: nat, want: nat, now: int, draws: nat -> nat)
    requires Inv(s) && Ordered(s) && n < |s.order| && |Worthy(s, s.order[..n], now)| < want
    requires p == draws(n) % (|s.order| - n) + n
    ensures IndexInv(s) && p < |s.order|
    ensures var t := SwapRandom(s, n, p);
      && Inv(t) && Ordered(t) && |t.order| == |s.order|
      && Draw(s, n, want, now, draws) == Draw(t, n + 1, want, now, draws)
      && Worthy(t, t.order[..n + 1], now) ==
         Worthy(s, s.order[..n], now) +
           (if t.infos[t.order[n]].IsTerrible(now) then [] else [t.infos[t.order[n]].address])
  {
    hide *;
    InvOrdered(s);
    InRange(draws(n), |s.order| - n);
    WorthySwap(s, n, p, now);
    DrawUnfold(s, n, p, want, now, draws);
    WorthyNext(SwapRandom(s, n, p), n, now);
    SwapKeepsInv(s, n, p);
  }

  lemma InRange(x: nat, m: nat)
    requires m > 0
    ensures 0 <= x % m < m
  {}

  lemma DrawUnfold(s: Tables, n: nat, p: nat, want: nat, now: int, draws: nat -> nat)
    requires Ordered(s) && n < |s.order| && |Worthy(s, s.order[..n], now)| < want
    requires p == draws(n) % (|s.order| - n) + n
    ensures p < |s.order| && Ordered(SwapRandom(s, n, p)) && n + 1 <= |SwapRandom(s, n, p).order|
    ensures Draw(s, n, want, now, draws) == Draw(SwapRandom(s, n, p), n + 1, want, now, draws)
  {
    hide Worthy;
  }

  lemma DrawStep(s: Tables, n: nat, p: nat, now: int)
    requires Inv(s) && Ordered(s) && n <= p < |s.order|
    ensures var t := SwapRandom(s, n, p);
      && Inv(t) && Ordered(t) && |t.order| == |s.order| && Shuffled(s, t)
      && |Worthy(t, t.order[..n + 1], now)| <= |Worthy(s, s.order[..n], now)| + 1
  {
    WorthySwap(s, n, p, now);
    ShuffledOnce(s, n, p);
    WorthyNext(SwapRandom(s, n, p), n, now);
    hide InvDuring;
    SwapKeepsInv(s, n, p);
  }

  /** `t` is `s` shuffled, and its first `m` entries are a complete draw. */
  ghost predicate Drawn(s: Tables, t: Tables, m: nat, want: nat, now: int)
    requires Ordered(t) && m <= |t.order|
  {
    && |Worthy(t, t.order[..m], now)| <= want
    && (m < |t.order| ==> |Worthy(t, t.order[..m], now)| == want)
    && Inv(t) && Shuffled(s, t)
  }

  lemma DrawnTrans(s: Tables, t: Tables, u: Tables, m: nat, want: nat, now: int)
    requires Ordered(u) && m <= |u.order| && Drawn(t, u, m, want, now) && Shuffled(s, t)
    ensures Drawn(s, u, m, want, now)
  {
    hide Inv;
    ShuffledTrans(s, t, u);
  }

  lemma DrawnDone(s: Tables, n: nat, want: nat, now: int)
    requires Inv(s) && Ordered(s) && n <= |s.order| && |Worthy(s, s.order[..n], now)| <= want
    requires n == |s.order| || |Worthy(s, s.order[..n], now)| >= want
    ensures Drawn(s, s, n, want, now)
  {
    hide Inv;
  }

  /** Drawing stops at `want` worthy entries or at the end, and only shuffles. */
  lemma {:induction false} DrawSpec(s: Tables, n: nat, want: nat, now: int, draws: nat -> nat)
    requires Inv(s) && Ordered(s) && n <= |s.order|
    requires |Worthy(s, s.order[..n], now)| <= want
    ensures var (t, m) := Draw(s, n, want, now, draws); Drawn(s, t, m, want, now)
    decreases |s.order| - n
  {
    hide Inv;
    hide Shuffled;
    hide Worthy;
    hide Drawn;
    hide SwapRandom;
    if n == |s.order| || |Worthy(s, s.order[..n], now)| >= want {
      DrawnDone(s, n, want, now);
    } else {
      var p := draws(n) % (|s.order| - n) + n;
      DrawStep(s, n, p, now);
      var t := SwapRandom(s, n, p);
      DrawSpec(t, n + 1, want, now, draws);
      var (u, m) := Draw(t, n + 1, want, now, draws);
      DrawnTrans(s, t, u, m, want, now);
    }
  }

  /** `a` is the address of a known entry worth keeping. */
  ghost predicate WorthyEntry(s: Tables, a: Address, now: int) {
    exists id :: id in s.infos && a == s.infos[id].address && WorthKeeping(s.infos[id], now)
  }

  /** GetAddr returns distinct known addresses worth keeping, never more than 23% of all or 2500,
      and all of them when one more would still be within that. */
  lemma SampleSpec(s: Tables, now: int, draws: nat -> nat)
    requires Inv(s) && Ordered(s)
    ensures var (t, r) := GetAddr(s, now, draws);
      && Inv(t)
      && |r| <= 2500 && 100 * |r| <= 23 * |s.infos|
      && DistinctAddrs(r)
      && (forall j :: 0 <= j < |r| ==> WorthyEntry(s, r[j], now))
      && (|r| < 2500 && 100 * (|r| + 1) <= 23 * |s.infos| ==> forall a :: WorthyEntry(s, a, now) ==> a in r)
  {
    hide *;
    SampleDrawn(s, now, draws);
    InvIndex(s);
    OrderCount(s);
    SampleSizeIs(s, |GetAddr(s, now, draws).1|);
    SampleSizeIs(s, |GetAddr(s, now, draws).1| + 1);
  }

  lemma SampleDrawn(s: Tables, now: int, draws: nat -> nat)
    requires Inv(s) && Ordered(s)
    ensures var (t, r) := GetAddr(s, now, draws);
      && Inv(t)
      && |r| <= SampleSize(s)
      && DistinctAddrs(r)
      && (forall j :: 0 <= j < |r| ==> WorthyEntry(s, r[j], now))
      && (|r| < SampleSize(s) ==> forall a :: WorthyEntry(s, a, now) ==> a in r)
  {
    hide Draw;
    hide Worthy;
    hide Inv;
    hide Drawn;
    hide SampleSize;
    hide DistinctAddrs;
    hide WorthyEntry;
    NoneDrawn(s, now);
    DrawSpec(s, 0, SampleSize(s), now, draws);
    SampleOf(s, Draw(s, 0, SampleSize(s), now, draws).0, Draw(s, 0, SampleSize(s), now, draws).1, SampleSize(s), now);
  }

  lemma NoneDrawn(s: Tables, now: int)
    requires Ordered(s)
    ensures |Worthy(s, s.order[..0], now)| == 0
  {}

  /** What a complete draw holds. */
  lemma SampleOf(s: Tables, t: Tables, n: nat, want: nat, now: int)
    requires Ordered(t) && n <= |t.order| && Drawn(s, t, n, want, now)
    ensures var r := Worthy(t, t.order[..n], now);
      && Inv(t) && |r| <= want && DistinctAddrs(r)
      && (forall j :: 0 <= j < |r| ==> WorthyEntry(s, r[j], now))
      && (|r| < want ==> forall a :: WorthyEntry(s, a, now) ==> a in r)
  {
    hide Worthy;
    hide Inv;
    hide IndexInv;
    hide Shuffled;
    hide DistinctAddrs;
    hide WorthyEntry;
    assert n == |t.order| ==> t.order[..n] == t.order;
    InvIndex(t);
    WorthyDistinct(t, n, now);
    SampleSound(s, t, n, now);
    SampleComplete(s, t, now);
  }

  lemma SampleSizeIs(s: Tables, n: nat)
    ensures n <= SampleSize(s) <==> n <= 2500 && 100 * n <= 23 * |s.order|
  {}

  /** The random order lists every entry once. */
  lemma OrderCount(s: Tables)
    requires IndexInv(s)
    ensures |s.order| == |s.infos|
  {
    var listed := set k | 0 <= k < |s.order| :: s.order[k];
    assert listed == s.infos.Keys by {
      forall id | id in s.infos ensures id in listed {
        assert s.order[s.infos[id].randomPos] == id;
      }
    }
    ListedCount(s.order);
  }

  lemma {:induction false} ListedCount(ids: seq<int>)
    requires Distinct(ids)
    ensures |set k | 0 <= k < |ids| :: ids[k]| == |ids|
  {
    if ids != [] {
      var rest, last := ids[..|ids| - 1], ids[|ids| - 1];
      ListedCount(rest);
      var before := set k | 0 <= k < |rest| :: rest[k];
      assert (set k | 0 <= k < |ids| :: ids[k]) == before + {last} by {
        forall k | 0 <= k < |ids| ensures ids[k] in before + {last} {
          assert k < |rest| ==> rest[k] == ids[k];
        }
        forall x | x in before ensures x in (set k | 0 <= k < |ids| :: ids[k]) {
          var k :| 0 <= k < |rest| && rest[k] == x;
          assert ids[k] == x;
        }
      }
    }
  }

  lemma InvIndex(s: Tables)
    requires Inv(s)
    ensures IndexInv(s)
  {}

  lemma SampleSound(s: Tables, t: Tables, n: nat, now: int)
    requires Ordered(t) && n <= |t.order| && Shuffled(s, t)
    ensures var r := Worthy(t, t.order[..n], now); forall j :: 0 <= j < |r| ==> WorthyEntry(s, r[j], now)
  {
    var r := Worthy(t, t.order[..n], now);
    WorthyFrom(t, t.order[..n], now);
    forall j | 0 <= j < |r| ensures WorthyEntry(s, r[j], now) {
      var k :| 0 <= k < n && r[j] == t.infos[t.order[..n][k]].address && !t.infos[t.order[..n][k]].IsTerrible(now);
      AlikeWorth(s, t, t.order[k], now);
      TerribleExactly(s.infos[t.order[k]], now);
    }
  }

  lemma AlikeWorth(s: Tables, t: Tables, id: int, now: int)
    requires id in s.infos && id in t.infos && Alike(t.infos[id], s.infos[id])
    ensures t.infos[id].address == s.infos[id].address
    ensures t.infos[id].IsTerrible(now) == s.infos[id].IsTerrible(now)
  {
    assert t.infos[id] == s.infos[id].(randomPos := t.infos[id].randomPos);
  }

  lemma SampleComplete(s: Tables, t: Tables, now: int)
    requires IndexInv(t) && Shuffled(s, t)
    ensures Ordered(t) && forall a :: WorthyEntry(s, a, now) ==> a in Worthy(t, t.order, now)
  {
    forall a | WorthyEntry(s, a, now) ensures a in Worthy(t, t.order, now) {
      var id :| id in s.infos && a == s.infos[id].address && WorthKeeping(s.infos[id], now);
      TerribleExactly(s.infos[id], now);
      AlikeWorth(s, t, id, now);
      WorthyIn(t, t.order, now, t.infos[id].randomPos);
    }
  }

  // ----- whole runs

  datatype Op =
    | OpAdd(args: AddArgs)
    | OpGood(svc: Service, time: int)
    | OpAttempt(svc: Service, countFailure: bool, time: int)
    | OpConnected(svc: Service, time: int)
    | OpSetServices(svc: Service, services: set<nat>)
    | OpGetAddr(now: int, draws: nat -> nat)

  ghost function Apply(s: Tables, op: Op): Tables
    requires Inv(s)
  {
    match op
    case OpAdd(a) => Add(s, a)
    case OpGood(svc, time) => Good(s, svc, time)
    case OpAttempt(svc, c, time) => Attempt(s, svc, c, time)
    case OpConnected(svc, time) => Connected(s, svc, time)
    case OpSetServices(svc, services) => SetServices(s, svc, services)
    case OpGetAddr(now, draws) => GetAddr(s, now, draws).0
  }

  lemma ApplyKeeps(s: Tables, op: Op)
    requires Inv(s)
    ensures Inv(Apply(s, op))
  {
    TableSizes(s);
    match op
    case OpAdd(a) => AddKeeps(s, a);
    case OpGood(svc, time) => GoodKeeps(s, svc, time);
    case OpAttempt(svc, c, time) => AttemptKeeps(s, svc, c, time);
    case OpConnected(svc, time) => ConnectedKeeps(s, svc, time);
    case OpSetServices(svc, services) => SetServicesKeeps(s, svc, services);
    case OpGetAddr(now, draws) => DrawKeeps(s, 0, SampleSize(s), now, draws);
  }

  /** The freshly cleared manager. */
  function Cleared(h: Hashes, key: nat): Tables {
    Tables(h, key, 0, map[], map[], [], 0, seq(TRIED_SLOTS, i => -1), 0, seq(NEW_SLOTS, i => -1), 1)
  }

  lemma ClearedInv(h: Hashes, key: nat)
    ensures Inv(Cleared(h, key))
  {
    assert NewIds(Cleared(h, key).infos) == {} && TriedIds(Cleared(h, key).infos) == {};
  }

  /** `states` is a run of the manager from a cleared state. */
  ghost predicate IsRun(states: seq<Tables>, ops: seq<Op>, h: Hashes, key: nat) {
    && |states| == |ops| + 1
    && states[0] == Cleared(h, key)
    && (forall k :: 0 <= k < |ops| ==> Inv(states[k]) ==> states[k + 1] == Apply(states[k], ops[k]))
  }

  /** Every state of every run satisfies the invariant. */
  lemma {:induction false} RunKeepsInv(states: seq<Tables>, ops: seq<Op>, h: Hashes, key: nat, k: nat)
    requires IsRun(states, ops, h, key) && k < |states|
    ensures Inv(states[k])
  {
    hide Inv;
    if k == 0 {
      ClearedInv(h, key);
    } else {
      RunKeepsInv(states, ops, h, key, k - 1);
      ApplyKeeps(states[k - 1], ops[k - 1]);
    }
  }
}
