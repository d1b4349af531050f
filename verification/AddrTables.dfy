/**
 The five redundant indexes of the address manager, the primitive edits that its
 operations are made of, and the consistency invariant with one preservation
 lemma per primitive.
 */
module AddrTables {

  const TRIED_BUCKETS: nat := 256
  const NEW_BUCKETS: nat := 1024
  const BUCKET_SIZE: nat := 64
  const TRIED_SLOTS: nat := 16384
  const NEW_SLOTS: nat := 65536
  const MAX_REFS: nat := 8

  datatype NetAddr = NetAddr(ip: int)
  datatype Service = Service(addr: NetAddr, port: int)
  /** `services` is the set of service bits an address announces. */
  datatype Address = Address(service: Service, services: set<nat>, time: nat)

  /** Everything known about one address; `source` is where it was first heard of. */
  datatype AddrInfo = AddrInfo(
    address: Address,
    source: NetAddr,
    lastSuccess: int,
    attempts: int,
    lastTry: int,
    lastCountAttempt: int,
    refCount: int,
    inTried: bool,
    randomPos: int)
  {
    function Addr(): NetAddr { address.service.addr }

    function Svc(): Service { address.service }

    predicate IsTerrible(now: int) {
      if lastTry != 0 && lastTry >= now - 60 then false
      else
        || address.time > now + 10 * 60
        || address.time == 0
        || now - address.time > 30 * 24 * 60 * 60
        || (lastSuccess == 0 && attempts >= 3)
        || (now - lastSuccess > 7 * 24 * 60 * 60 && attempts >= 10)
    }
  }

  /** An address is worth keeping if it was tried in the last minute, or if it was heard of in the last 30 days
      and not more than ten minutes ahead, has fewer than 3 failures where it never succeeded, and fewer than 10
      where its last success is over a week old. All in seconds. */
  ghost predicate WorthKeeping(info: AddrInfo, now: int) {
    || (info.lastTry != 0 && now - info.lastTry <= 60)
    || (&& info.address.time != 0 && now - 2_592_000 <= info.address.time <= now + 600
        && (info.lastSuccess == 0 ==> info.attempts < 3)
        && (now - info.lastSuccess > 604_800 ==> info.attempts < 10))
  }

  lemma TerribleExactly(info: AddrInfo, now: int)
    ensures info.IsTerrible(now) <==> !WorthKeeping(info, now)
  {}

  /** The hash functions and address classification the manager is built on, as
      arbitrary functions. Each keyed one takes the secret key first. */
  datatype Hashes = Hashes(
    group: NetAddr -> nat,
    routable: NetAddr -> bool,
    keyHash: (nat, Service) -> nat,
    triedHash: (nat, nat, nat) -> nat,
    sourceHash: (nat, nat, nat) -> nat,
    newHash: (nat, nat, nat) -> nat,
    positionHash: (nat, bool, nat, Service) -> nat)

  datatype Tables = Tables(
    h: Hashes,
    key: nat,
    nextId: int,
    infos: map<int, AddrInfo>,
    ids: map<NetAddr, int>,
    order: seq<int>,
    triedCount: int,
    triedTable: seq<int>,
    newCount: int,
    newTable: seq<int>,
    lastGood: int)

  // ----- slots: a bucket table is laid out row by row

  function Position(h: Hashes, key: nat, inNew: bool, bucket: nat, svc: Service): (p: nat)
    ensures p < BUCKET_SIZE
  {
    h.positionHash(key, inNew, bucket, svc) % BUCKET_SIZE
  }

  function TriedBucket(h: Hashes, key: nat, svc: Service): (b: nat)
    ensures b < TRIED_BUCKETS
  {
    h.triedHash(key, h.group(svc.addr), h.keyHash(key, svc) % 8) % TRIED_BUCKETS
  }

  function NewBucket(h: Hashes, key: nat, svc: Service, source: NetAddr): (b: nat)
    ensures b < NEW_BUCKETS
  {
    var hash1 := h.sourceHash(key, h.group(svc.addr), h.group(source));
    h.newHash(key, h.group(source), hash1 % 64) % NEW_BUCKETS
  }

  function NewSlot(h: Hashes, key: nat, svc: Service, bucket: nat): (i: nat)
    requires bucket < NEW_BUCKETS
    ensures i < NEW_SLOTS && i / BUCKET_SIZE == bucket
  {
    bucket * BUCKET_SIZE + Position(h, key, true, bucket, svc)
  }

  function TriedSlot(h: Hashes, key: nat, svc: Service): (i: nat)
    ensures i < TRIED_SLOTS
  {
    var bucket := TriedBucket(h, key, svc);
    bucket * BUCKET_SIZE + Position(h, key, false, bucket, svc)
  }

  function Slots(table: seq<int>, id: int): set<nat> {
    set i: nat | i < |table| && table[i] == id
  }

  function NewIds(infos: map<int, AddrInfo>): set<int> {
    set id | id in infos && !infos[id].inTried
  }

  function TriedIds(infos: map<int, AddrInfo>): set<int> {
    set id | id in infos && infos[id].inTried
  }

  // ----- the invariant

  /** Addresses, ids and positions in the random order name each other exactly. */
  ghost predicate IndexInv(s: Tables) {
    && s.nextId >= 0
    && (forall id :: id in s.infos ==> 0 <= id < s.nextId)
    && (forall id :: id in s.infos ==> s.infos[id].Addr() in s.ids && s.ids[s.infos[id].Addr()] == id)
    && (forall a :: a in s.ids ==> s.ids[a] in s.infos && s.infos[s.ids[a]].Addr() == a)
    && (forall id :: id in s.infos ==> 0 <= s.infos[id].randomPos < |s.order| && s.order[s.infos[id].randomPos] == id)
    && (forall k :: 0 <= k < |s.order| ==> s.order[k] in s.infos && s.infos[s.order[k]].randomPos == k)
  }

  /** A used "new" slot holds an untried entry that hashes to that slot. */
  ghost predicate NewInv(s: Tables) {
    && |s.newTable| == NEW_SLOTS
    && forall i :: 0 <= i < NEW_SLOTS && s.newTable[i] != -1 ==>
         && s.newTable[i] in s.infos
         && !s.infos[s.newTable[i]].inTried
         && i == NewSlot(s.h, s.key, s.infos[s.newTable[i]].Svc(), i / BUCKET_SIZE)
  }

  /** The tried entries are exactly the contents of the "tried" table, each in its own slot. */
  ghost predicate TriedInv(s: Tables) {
    && |s.triedTable| == TRIED_SLOTS
    && (forall i :: 0 <= i < TRIED_SLOTS && s.triedTable[i] != -1 ==>
         && s.triedTable[i] in s.infos
         && s.infos[s.triedTable[i]].inTried
         && i == TriedSlot(s.h, s.key, s.infos[s.triedTable[i]].Svc()))
    && (forall id :: id in s.infos && s.infos[id].inTried ==>
         s.triedTable[TriedSlot(s.h, s.key, s.infos[id].Svc())] == id)
  }

  /** One entry's reference count; an entry in transit may have no reference yet. */
  ghost predicate EntryOk(info: AddrInfo, refs: nat, inTransit: bool) {
    if info.inTried then info.refCount == 0
    else info.refCount == refs <= MAX_REFS && (inTransit || 1 <= refs)
  }

  ghost predicate EntryInv(s: Tables, transit: set<int>) {
    forall id :: id in s.infos ==> EntryOk(s.infos[id], |Slots(s.newTable, id)|, id in transit)
  }

  ghost predicate CountInv(s: Tables, owed: int) {
    && s.newCount + owed == |NewIds(s.infos)|
    && s.triedCount == |TriedIds(s.infos)|
  }

  /** The invariant while an operation runs: entries in `transit` may lack a reference,
      and `newCount` may be `owed` short of the truth. */
  ghost predicate InvDuring(s: Tables, transit: set<int>, owed: int) {
    IndexInv(s) && NewInv(s) && TriedInv(s) && EntryInv(s, transit) && CountInv(s, owed)
  }

  ghost predicate Inv(s: Tables) {
    InvDuring(s, {}, 0)
  }

  // ----- primitive edits

  function Touch(s: Tables, id: int, info: AddrInfo): Tables {
    s.(infos := s.infos[id := info])
  }

  function Create(s: Tables, addr: Address, source: NetAddr): Tables {
    s.(nextId := s.nextId + 1,
       infos := s.infos[s.nextId := AddrInfo(addr, source, 0, 0, 0, 0, 0, false, |s.order|)],
       ids := s.ids[addr.service.addr := s.nextId],
       order := s.order + [s.nextId])
  }

  function SwapRandom(s: Tables, p1: nat, p2: nat): Tables
    requires p1 < |s.order| && p2 < |s.order|
    requires s.order[p1] in s.infos && s.order[p2] in s.infos
  {
    if p1 == p2 then s else
      var id1, id2 := s.order[p1], s.order[p2];
      var moved := s.infos[id1 := s.infos[id1].(randomPos := p2)];
      s.(infos := moved[id2 := moved[id2].(randomPos := p1)],
         order := s.order[p1 := id2][p2 := id1])
  }

  /** Forget the entry that is last in the random order. */
  function DropLast(s: Tables, id: int): Tables
    requires |s.order| > 0 && id in s.infos
  {
    s.(infos := s.infos - {id},
       ids := s.ids - {s.infos[id].Addr()},
       order := s.order[..|s.order| - 1],
       newCount := s.newCount - 1)
  }

  /** The entry may be deleted: it exists and its random position is right. */
  predicate Deletable(s: Tables, id: int) {
    && id in s.infos
    && 0 <= s.infos[id].randomPos < |s.order|
    && s.order[s.infos[id].randomPos] == id
    && s.order[|s.order| - 1] in s.infos
  }

  function Delete(s: Tables, id: int): Tables {
    if Deletable(s, id) then DropLast(SwapRandom(s, s.infos[id].randomPos, |s.order| - 1), id) else s
  }

  function Unlink(s: Tables, slot: nat, id: int): Tables
    requires slot < |s.newTable| && id in s.infos
  {
    s.(newTable := s.newTable[slot := -1],
       infos := s.infos[id := s.infos[id].(refCount := s.infos[id].refCount - 1)])
  }

  function Link(s: Tables, slot: nat, id: int): Tables
    requires slot < |s.newTable| && id in s.infos
  {
    s.(newTable := s.newTable[slot := id],
       infos := s.infos[id := s.infos[id].(refCount := s.infos[id].refCount + 1)])
  }

  function Evict(s: Tables, slot: nat, id: int): Tables
    requires slot < |s.triedTable| && id in s.infos
  {
    s.(triedTable := s.triedTable[slot := -1],
       infos := s.infos[id := s.infos[id].(inTried := false)],
       triedCount := s.triedCount - 1)
  }

  function Promote(s: Tables, slot: nat, id: int): Tables
    requires slot < |s.triedTable| && id in s.infos
  {
    s.(triedTable := s.triedTable[slot := id],
       infos := s.infos[id := s.infos[id].(inTried := true)],
       triedCount := s.triedCount + 1)
  }

  // ----- set facts

  lemma SlotsUpdate(table: seq<int>, slot: nat, v: int, id: int)
    requires slot < |table|
    ensures Slots(table[slot := v], id) ==
            if v == id then Slots(table, id) + {slot} else Slots(table, id) - {slot}
  {}

  lemma SlotsLink(table: seq<int>, slot: nat, v: int)
    requires slot < |table| && table[slot] == -1 && v != -1
    ensures |Slots(table[slot := v], v)| == |Slots(table, v)| + 1
    ensures forall id :: id != v && id != -1 ==> Slots(table[slot := v], id) == Slots(table, id)
  {
    SlotsUpdate(table, slot, v, v);
    forall id | id != v && id != -1 ensures Slots(table[slot := v], id) == Slots(table, id) {
      SlotsUpdate(table, slot, v, id);
    }
  }

  lemma SlotsUnlink(table: seq<int>, slot: nat)
    requires slot < |table| && table[slot] != -1
    ensures |Slots(table[slot := -1], table[slot])| == |Slots(table, table[slot])| - 1
    ensures forall id :: id != table[slot] && id != -1 ==> Slots(table[slot := -1], id) == Slots(table, id)
  {
    SlotsUpdate(table, slot, -1, table[slot]);
    assert slot in Slots(table, table[slot]);
    forall id | id != table[slot] && id != -1 ensures Slots(table[slot := -1], id) == Slots(table, id) {
      SlotsUpdate(table, slot, -1, id);
    }
  }

  lemma NoSlots(table: seq<int>, id: int)
    requires Slots(table, id) == {}
    ensures forall i :: 0 <= i < |table| ==> table[i] != id
  {
    forall i | 0 <= i < |table| ensures table[i] != id {
      assert i !in Slots(table, id);
    }
  }

  /** Changing an entry without moving it between tables keeps both id sets. */
  lemma IdsSame(infos: map<int, AddrInfo>, id: int, info: AddrInfo)
    requires id in infos && infos[id].inTried == info.inTried
    ensures NewIds(infos[id := info]) == NewIds(infos)
    ensures TriedIds(infos[id := info]) == TriedIds(infos)
  {}

  // ----- preservation, one primitive at a time

  /** Replacing an entry by one with the same address and random position keeps the index. */
  lemma IndexKept(s: Tables, t: Tables, id: int)
    requires IndexInv(s) && id in s.infos && id in t.infos
    requires t.infos == s.infos[id := t.infos[id]]
    requires t.infos[id].Addr() == s.infos[id].Addr() && t.infos[id].randomPos == s.infos[id].randomPos
    requires t.ids == s.ids && t.order == s.order && t.nextId == s.nextId
    ensures IndexInv(t)
  {}

  lemma NewKept(s: Tables, t: Tables, id: int)
    requires NewInv(s) && id in s.infos && id in t.infos
    requires t.infos == s.infos[id := t.infos[id]] && t.newTable == s.newTable
    requires t.infos[id].Svc() == s.infos[id].Svc() && t.infos[id].inTried == s.infos[id].inTried
    requires t.h == s.h && t.key == s.key
    ensures NewInv(t)
  {}

  lemma TriedKept(s: Tables, t: Tables, id: int)
    requires TriedInv(s) && id in s.infos && id in t.infos
    requires t.infos == s.infos[id := t.infos[id]] && t.triedTable == s.triedTable
    requires t.infos[id].Svc() == s.infos[id].Svc() && t.infos[id].inTried == s.infos[id].inTried
    requires t.h == s.h && t.key == s.key
    ensures TriedInv(t)
  {}

  lemma TouchKeeps(s: Tables, id: int, info: AddrInfo, transit: set<int>, owed: int)
    requires InvDuring(s, transit, owed)
    requires id in s.infos
    requires info.Svc() == s.infos[id].Svc() && info.inTried == s.infos[id].inTried
    requires info.refCount == s.infos[id].refCount && info.randomPos == s.infos[id].randomPos
    ensures InvDuring(Touch(s, id, info), transit, owed)
  {
    var t := Touch(s, id, info);
    IndexKept(s, t, id);
    NewKept(s, t, id);
    TriedKept(s, t, id);
    assert EntryInv(t, transit);
    IdsSame(s.infos, id, info);
  }

  lemma CreateKeeps(s: Tables, addr: Address, source: NetAddr)
    requires Inv(s) && addr.service.addr !in s.ids
    ensures InvDuring(Create(s, addr, source), {s.nextId}, 1)
  {
    CreateKeepsIndex(s, addr, source);
    CreateKeepsTables(s, addr, source);
    CreateCounts(s, addr, source);
  }

  lemma CreateKeepsIndex(s: Tables, addr: Address, source: NetAddr)
    requires IndexInv(s) && addr.service.addr !in s.ids
    ensures IndexInv(Create(s, addr, source))
  {}

  lemma CreateCounts(s: Tables, addr: Address, source: NetAddr)
    requires s.nextId !in s.infos
    ensures var t := Create(s, addr, source);
            |NewIds(t.infos)| == |NewIds(s.infos)| + 1 && TriedIds(t.infos) == TriedIds(s.infos)
  {
    assert NewIds(Create(s, addr, source).infos) == NewIds(s.infos) + {s.nextId};
  }

  lemma CreateKeepsTables(s: Tables, addr: Address, source: NetAddr)
    requires Inv(s)
    ensures var t := Create(s, addr, source); NewInv(t) && TriedInv(t) && EntryInv(t, {s.nextId})
  {
    assert s.nextId !in s.infos;
    assert Slots(s.newTable, s.nextId) == {};
  }

  /** Swapping changes only random positions; the entry at `p1` goes to `p2`. */
  lemma SwapEntries(s: Tables, p1: nat, p2: nat)
    requires IndexInv(s) && p1 < |s.order| && p2 < |s.order|
    ensures var t := SwapRandom(s, p1, p2);
      && t.infos.Keys == s.infos.Keys
      && |t.order| == |s.order|
      && t.infos[s.order[p1]].randomPos == p2
      && forall id :: id in s.infos ==> t.infos[id].(randomPos := 0) == s.infos[id].(randomPos := 0)
  {}

  /** The tables and counters do not depend on random positions. */
  lemma SameButPositions(s: Tables, t: Tables, transit: set<int>, owed: int)
    requires NewInv(s) && TriedInv(s) && EntryInv(s, transit) && CountInv(s, owed)
    requires t.infos.Keys == s.infos.Keys
    requires forall id :: id in s.infos ==> t.infos[id].(randomPos := 0) == s.infos[id].(randomPos := 0)
    requires t == s.(infos := t.infos, order := t.order)
    ensures NewInv(t) && TriedInv(t) && EntryInv(t, transit) && CountInv(t, owed)
  {
    forall id | id in s.infos
      ensures t.infos[id].inTried == s.infos[id].inTried && t.infos[id].Svc() == s.infos[id].Svc()
      ensures t.infos[id] == s.infos[id].(randomPos := t.infos[id].randomPos)
    {
      assert t.infos[id].(randomPos := 0) == s.infos[id].(randomPos := 0);
    }
    assert NewIds(t.infos) == NewIds(s.infos) && TriedIds(t.infos) == TriedIds(s.infos);
  }

  lemma SwapKeeps(s: Tables, p1: nat, p2: nat, transit: set<int>, owed: int)
    requires InvDuring(s, transit, owed)
    requires p1 < |s.order| && p2 < |s.order|
    ensures InvDuring(SwapRandom(s, p1, p2), transit, owed)
  {
    if p1 != p2 {
      SwapKeepsIndex(s, p1, p2);
      SwapEntries(s, p1, p2);
      SameButPositions(s, SwapRandom(s, p1, p2), transit, owed);
    }
  }

  lemma SwapKeepsIndex(s: Tables, p1: nat, p2: nat)
    requires IndexInv(s)
    requires p1 < |s.order| && p2 < |s.order| && p1 != p2
    ensures IndexInv(SwapRandom(s, p1, p2))
  {
    var t := SwapRandom(s, p1, p2);
    assert s.order[p1] != s.order[p2];
    forall id | id in t.infos
      ensures 0 <= t.infos[id].randomPos < |t.order| && t.order[t.infos[id].randomPos] == id
    {}
    forall k | 0 <= k < |t.order|
      ensures t.order[k] in t.infos && t.infos[t.order[k]].randomPos == k
    {}
  }

  lemma DropLastKeepsIndex(s: Tables, id: int)
    requires IndexInv(s) && id in s.infos && s.infos[id].randomPos == |s.order| - 1
    ensures IndexInv(DropLast(s, id))
  {
    var t := DropLast(s, id);
    forall k | 0 <= k < |t.order| ensures t.order[k] in t.infos && t.infos[t.order[k]].randomPos == k {
      assert s.order[k] != id;
    }
    forall i | i in t.infos
      ensures 0 <= t.infos[i].randomPos < |t.order| && t.order[t.infos[i].randomPos] == i
    {
      assert s.order[s.infos[i].randomPos] == i;
    }
  }

  lemma DropLastKeepsTables(s: Tables, id: int, transit: set<int>)
    requires NewInv(s) && TriedInv(s) && EntryInv(s, transit)
    requires id in s.infos && |s.order| > 0
    requires !s.infos[id].inTried && s.infos[id].refCount == 0
    ensures var t := DropLast(s, id); NewInv(t) && TriedInv(t) && EntryInv(t, transit)
  {
    NoSlots(s.newTable, id);
  }

  lemma DropLastKeeps(s: Tables, id: int, transit: set<int>, owed: int)
    requires InvDuring(s, transit, owed)
    requires id in s.infos && s.infos[id].randomPos == |s.order| - 1
    requires !s.infos[id].inTried && s.infos[id].refCount == 0
    ensures InvDuring(DropLast(s, id), transit - {id}, owed)
  {
    DropLastKeepsIndex(s, id);
    DropLastKeepsTables(s, id, transit);
    DropLastCounts(s, id);
  }

  lemma DeletableFromInv(s: Tables, id: int)
    requires IndexInv(s) && id in s.infos
    ensures Deletable(s, id) && s.order[s.infos[id].randomPos] == id
  {}

  lemma DeleteKeeps(s: Tables, id: int, transit: set<int>, owed: int)
    requires InvDuring(s, transit, owed)
    requires id in s.infos && !s.infos[id].inTried && s.infos[id].refCount == 0
    ensures Deletable(s, id)
    ensures InvDuring(Delete(s, id), transit - {id}, owed)
  {
    DeletableFromInv(s, id);
    var pos, last := s.infos[id].randomPos, |s.order| - 1;
    assert Delete(s, id) == DropLast(SwapRandom(s, pos, last), id);
    hide *;
    SwapKeeps(s, pos, last, transit, owed);
    SwapEntries(s, pos, last);
    var m := SwapRandom(s, pos, last);
    assert m.infos[id].(randomPos := 0) == s.infos[id].(randomPos := 0);
    DropLastKeeps(m, id, transit, owed);
  }

  /** Two entries agree except perhaps in their random position. */
  predicate Alike(x: AddrInfo, y: AddrInfo) {
    x.(randomPos := 0) == y.(randomPos := 0)
  }

  /** Delete forgets one entry and moves random positions; nothing else changes. */
  lemma DeleteEffect(s: Tables, id: int)
    requires IndexInv(s) && id in s.infos
    ensures var t := Delete(s, id);
      && t.infos.Keys == s.infos.Keys - {id}
      && t.ids == s.ids - {s.infos[id].Addr()}
      && (forall i :: i in t.infos ==> Alike(t.infos[i], s.infos[i]))
      && t == s.(infos := t.infos, ids := t.ids, order := t.order, newCount := s.newCount - 1)
  {
    SwapEntries(s, s.infos[id].randomPos, |s.order| - 1);
  }

  lemma DropLastCounts(s: Tables, id: int)
    requires id in s.infos && !s.infos[id].inTried && |s.order| > 0
    ensures var t := DropLast(s, id);
            |NewIds(t.infos)| == |NewIds(s.infos)| - 1 && TriedIds(t.infos) == TriedIds(s.infos)
  {
    assert NewIds(DropLast(s, id).infos) == NewIds(s.infos) - {id};
  }

  lemma UnlinkKeeps(s: Tables, slot: nat, id: int, transit: set<int>, owed: int)
    requires InvDuring(s, transit, owed)
    requires slot < NEW_SLOTS && s.newTable[slot] == id && id != -1
    ensures id in s.infos && s.infos[id].refCount > 0
    ensures InvDuring(Unlink(s, slot, id), transit + {id}, owed)
  {
    assert slot in Slots(s.newTable, id);
    SlotsUnlink(s.newTable, slot);
    var t := Unlink(s, slot, id);
    IdsSame(s.infos, id, t.infos[id]);
    IndexKept(s, t, id);
    TriedKept(s, t, id);
    assert -1 !in s.infos;
  }

  lemma LinkKeeps(s: Tables, slot: nat, id: int, transit: set<int>, owed: int)
    requires InvDuring(s, transit, owed)
    requires id in s.infos && !s.infos[id].inTried && s.infos[id].refCount < MAX_REFS
    requires slot < NEW_SLOTS && s.newTable[slot] == -1
    requires slot == NewSlot(s.h, s.key, s.infos[id].Svc(), slot / BUCKET_SIZE)
    ensures InvDuring(Link(s, slot, id), transit - {id}, owed)
  {
    SlotsLink(s.newTable, slot, id);
    var t := Link(s, slot, id);
    IdsSame(s.infos, id, t.infos[id]);
    IndexKept(s, t, id);
    TriedKept(s, t, id);
    assert -1 !in s.infos;
  }

  /** Moving an entry between the two sides changes both id sets by that entry. */
  lemma IdsMove(infos: map<int, AddrInfo>, id: int, info: AddrInfo)
    requires id in infos && infos[id].inTried != info.inTried
    ensures |NewIds(infos[id := info])| == |NewIds(infos)| + (if info.inTried then -1 else 1)
    ensures |TriedIds(infos[id := info])| == |TriedIds(infos)| + (if info.inTried then 1 else -1)
  {
    var after := infos[id := info];
    if info.inTried {
      assert NewIds(after) == NewIds(infos) - {id};
      assert TriedIds(after) == TriedIds(infos) + {id};
    } else {
      assert NewIds(after) == NewIds(infos) + {id};
      assert TriedIds(after) == TriedIds(infos) - {id};
    }
  }

  lemma EvictKeeps(s: Tables, slot: nat, id: int, transit: set<int>, owed: int)
    requires InvDuring(s, transit, owed)
    requires slot < TRIED_SLOTS && s.triedTable[slot] == id && id != -1
    ensures id in s.infos && s.infos[id].inTried
    ensures InvDuring(Evict(s, slot, id), transit + {id}, owed + 1)
  {
    var t := Evict(s, slot, id);
    IdsMove(s.infos, id, t.infos[id]);
    IndexKept(s, t, id);
    EvictKeepsTables(s, slot, id);
    assert Slots(s.newTable, id) == {};
  }

  lemma EvictKeepsTables(s: Tables, slot: nat, id: int)
    requires NewInv(s) && TriedInv(s)
    requires slot < TRIED_SLOTS && s.triedTable[slot] == id && id != -1
    ensures var t := Evict(s, slot, id); NewInv(t) && TriedInv(t)
  {}

  lemma PromoteKeeps(s: Tables, slot: nat, id: int, transit: set<int>, owed: int)
    requires InvDuring(s, transit, owed)
    requires id in s.infos && !s.infos[id].inTried && s.infos[id].refCount == 0
    requires slot == TriedSlot(s.h, s.key, s.infos[id].Svc()) && s.triedTable[slot] == -1
    ensures InvDuring(Promote(s, slot, id), transit - {id}, owed - 1)
  {
    var t := Promote(s, slot, id);
    IdsMove(s.infos, id, t.infos[id]);
    IndexKept(s, t, id);
    PromoteKeepsTables(s, slot, id, transit);
  }

  lemma PromoteKeepsTables(s: Tables, slot: nat, id: int, transit: set<int>)
    requires NewInv(s) && TriedInv(s) && EntryInv(s, transit)
    requires id in s.infos && !s.infos[id].inTried && s.infos[id].refCount == 0 && -1 !in s.infos
    requires slot == TriedSlot(s.h, s.key, s.infos[id].Svc()) && s.triedTable[slot] == -1
    ensures var t := Promote(s, slot, id); NewInv(t) && TriedInv(t)
  {
    NoSlots(s.newTable, id);
  }
}
