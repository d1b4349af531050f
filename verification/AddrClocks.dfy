/**
 The times the address manager records. Its consistency check also asks that no time is negative
 and that a tried entry has been connected to; this module shows exactly which operations keep that.
 */
module AddrClocks {
  import opened AddrTables
  import opened AddrOps
  import opened AddrRuns
  import opened AddrEffects

  predicate EntryClocked(info: AddrInfo) {
    info.lastTry >= 0 && info.lastSuccess >= 0 && (info.inTried ==> info.lastSuccess != 0)
  }

  ghost predicate Clocked(s: Tables) {
    forall id :: id in s.infos ==> EntryClocked(s.infos[id])
  }

  /** What is recorded about an address is the same, whichever table it is in. */
  predicate SameRecord(x: AddrInfo, y: AddrInfo) {
    && x.address == y.address && x.source == y.source
    && x.lastTry == y.lastTry && x.lastSuccess == y.lastSuccess
    && x.attempts == y.attempts && x.lastCountAttempt == y.lastCountAttempt
  }

  /** The key is the same, no entry of `t` is new, none has another record, and only those in
      `promoted` have become tried. */
  ghost predicate TimesFrom(s: Tables, t: Tables, promoted: set<int>) {
    t.key == s.key && forall id :: id in t.infos ==>
      && id in s.infos
      && SameRecord(t.infos[id], s.infos[id])
      && (t.infos[id].inTried && id !in promoted ==> s.infos[id].inTried)
  }

  lemma TimesSame(s: Tables)
    ensures TimesFrom(s, s, {})
  {}

  lemma TimesTrans(s: Tables, t: Tables, u: Tables)
    requires TimesFrom(s, t, {}) && TimesFrom(t, u, {})
    ensures TimesFrom(s, u, {})
  {}

  // ----- edits that leave times alone

  lemma ClearNewTimes(s: Tables, slot: nat)
    requires slot < |s.newTable|
    ensures TimesFrom(s, ClearNew(s, slot), {})
  {}

  lemma {:induction false} UnlinkAllTimes(s: Tables, id: int, buckets: nat)
    requires id in s.infos && |s.newTable| == NEW_SLOTS && buckets <= NEW_BUCKETS
    ensures TimesFrom(s, UnlinkAll(s, id, buckets), {})
  {
    if buckets > 0 {
      UnlinkAllTimes(s, id, buckets - 1);
    }
  }

  lemma MakeRoomTimes(s: Tables, slot: nat)
    requires slot < |s.triedTable| && |s.newTable| == NEW_SLOTS
    ensures TimesFrom(s, MakeRoom(s, slot), {})
  {
    var id := s.triedTable[slot];
    if id != -1 && id in s.infos {
      var u := Evict(s, slot, id);
      var back := SlotFor(u, id, u.infos[id].source);
      ClearNewTimes(u, back);
      hide ClearNew;
      assert TimesFrom(u, MoveBack(u, id, back), {});
    }
  }

  /** Promotion changes no time, and makes only its own entry tried. */
  lemma MakeTriedTimes(s: Tables, id: int)
    requires id in s.infos && |s.newTable| == NEW_SLOTS && |s.triedTable| == TRIED_SLOTS
    ensures TimesFrom(s, MakeTried(s, id), {id})
  {
    hide UnlinkAll;
    hide MakeRoom;
    UnlinkAllTimes(s, id, NEW_BUCKETS);
    var u := UnlinkAll(s, id, NEW_BUCKETS);
    var v := u.(newCount := u.newCount - 1);
    var slot := TriedSlot(v.h, v.key, v.infos[id].Svc());
    MakeRoomTimes(v, slot);
    assert TimesFrom(s, MakeRoom(v, slot), {});
  }

  lemma PlaceTimes(s: Tables, id: int, slot: nat, now: int)
    requires id in s.infos && slot < |s.newTable|
    ensures TimesFrom(s, Place(s, id, slot, now), {})
  {
    hide ClearNew;
    ClearNewTimes(s, slot);
  }

  lemma SwapTimes(s: Tables, p1: nat, p2: nat)
    requires Ordered(s) && p1 < |s.order| && p2 < |s.order|
    ensures var t := SwapRandom(s, p1, p2); TimesFrom(s, t, {}) && Ordered(t) && |t.order| == |s.order|
  {}

  lemma {:induction false} DrawTimes(s: Tables, n: nat, want: nat, now: int, draws: nat -> nat)
    requires Ordered(s) && n <= |s.order|
    ensures TimesFrom(s, Draw(s, n, want, now, draws).0, {})
    decreases |s.order| - n
  {
    hide SwapRandom;
    hide TimesFrom;
    hide Worthy;
    if n == |s.order| || |Worthy(s, s.order[..n], now)| >= want {
      TimesSame(s);
    } else {
      var p := draws(n) % (|s.order| - n) + n;
      SwapTimes(s, n, p);
      var t := SwapRandom(s, n, p);
      DrawTimes(t, n + 1, want, now, draws);
      TimesTrans(s, t, Draw(t, n + 1, want, now, draws).0);
    }
  }

  // ----- the operations

  lemma AddClocked(s: Tables, a: AddArgs)
    requires Clocked(s) && |s.newTable| == NEW_SLOTS
    ensures Clocked(Add(s, a)) && Add(s, a).key == s.key
  {
    hide Place;
    var addr := a.addr.service.addr;
    if !s.h.routable(addr) {
    } else if addr in s.ids && s.ids[addr] in s.infos {
      var id := s.ids[addr];
      var t := Touch(s, id, Refresh(s.infos[id], a.addr, Penalty(a), a.now));
      assert Clocked(t);
      PlaceTimes(t, id, SlotFor(t, id, a.source), a.now);
    } else {
      var t := CreateAged(s, a);
      assert Clocked(t);
      PlaceTimes(t, s.nextId, SlotFor(t, s.nextId, a.source), a.now);
    }
  }

  /** Good_ keeps the times in order exactly if it is given a positive time or does not know the service. */
  lemma GoodClocked(s: Tables, svc: Service, time: int)
    requires Inv(s) && Clocked(s) && |s.newTable| == NEW_SLOTS && |s.triedTable| == TRIED_SLOTS
    ensures Clocked(Good(s, svc, time)) <==> time > 0 || !Matches(s, svc)
    ensures Good(s, svc, time).key == s.key
  {
    hide InvDuring;
    hide MakeTried;
    if Matches(s, svc) {
      var id := s.ids[svc.addr];
      var s1 := Touch(s.(lastGood := time), id, Succeeded(s.infos[id], time));
      GoodEffect(s, svc, time);
      if !s.infos[id].inTried {
        MakeTriedTimes(s1, id);
      }
      assert TimesFrom(s1, Good(s, svc, time), {id});
    }
  }

  /** Attempt_ does exactly if its time is not negative or it does not know the service. */
  lemma AttemptClocked(s: Tables, svc: Service, countFailure: bool, time: int)
    requires Clocked(s)
    ensures Clocked(Attempt(s, svc, countFailure, time)) <==> time >= 0 || !Matches(s, svc)
    ensures Attempt(s, svc, countFailure, time).key == s.key
  {
    if Matches(s, svc) {
      assert Attempt(s, svc, countFailure, time).infos[s.ids[svc.addr]].lastTry == time;
    }
  }

  /** The clock an operation reads, where it stores it, is one the consistency check accepts. */
  predicate Timely(s: Tables, op: Op) {
    match op
    case OpGood(svc, time) => time > 0 || !Matches(s, svc)
    case OpAttempt(svc, _, time) => time >= 0 || !Matches(s, svc)
    case _ => true
  }

  lemma ApplyClocked(s: Tables, op: Op)
    requires Inv(s) && Clocked(s)
    ensures Clocked(Apply(s, op)) <==> Timely(s, op)
    ensures Apply(s, op).key == s.key
  {
    hide Inv;
    hide Good;
    hide Add;
    hide Attempt;
    TableSizes(s);
    match op
    case OpAdd(a) => AddClocked(s, a);
    case OpGood(svc, time) => GoodClocked(s, svc, time);
    case OpAttempt(svc, c, time) => AttemptClocked(s, svc, c, time);
    case OpGetAddr(now, draws) =>
      InvOrdered(s);
      DrawTimes(s, 0, SampleSize(s), now, draws);
    case _ =>
  }

  /** Up to some state of a run. */
  ghost predicate ClockedUntil(states: seq<Tables>, key: nat, k: nat)
    requires k < |states|
  {
    forall j :: 0 <= j <= k ==> Clocked(states[j]) && states[j].key == key
  }

  ghost predicate TimelyUntil(states: seq<Tables>, ops: seq<Op>, k: nat)
    requires k < |states| && k <= |ops|
  {
    forall j :: 0 <= j < k ==> Timely(states[j], ops[j])
  }

  /** A run keeps its times in order up to a state exactly if every operation before it was timely. */
  lemma {:induction false} RunClocked(states: seq<Tables>, ops: seq<Op>, h: Hashes, key: nat, k: nat)
    requires IsRun(states, ops, h, key) && k < |states|
    ensures ClockedUntil(states, key, k) <==> TimelyUntil(states, ops, k)
  {
    hide Inv;
    hide Clocked;
    if k == 0 {
      ClearedClocked(h, key);
    } else {
      RunClocked(states, ops, h, key, k - 1);
      RunKeepsInv(states, ops, h, key, k - 1);
      assert states[k] == Apply(states[k - 1], ops[k - 1]);
      if ClockedUntil(states, key, k - 1) {
        ApplyClocked(states[k - 1], ops[k - 1]);
      }
      assert ClockedUntil(states, key, k) <==>
             ClockedUntil(states, key, k - 1) && Clocked(states[k]) && states[k].key == key;
      assert TimelyUntil(states, ops, k) <==>
             TimelyUntil(states, ops, k - 1) && Timely(states[k - 1], ops[k - 1]);
    }
  }

  lemma ClearedClocked(h: Hashes, key: nat)
    ensures Clocked(Cleared(h, key))
  {}
}
