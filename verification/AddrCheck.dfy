/**
 The consistency check of the address manager: what it accepts, and that it accepts exactly the
 states that satisfy the invariant with times in order, as far as it looks.
 */
module AddrCheck {
  import opened AddrTables
  import opened AddrClocks
  import opened AddrRuns
  import opened Collections

  /** What the address index answers; an address it lacks reads as id 0. */
  function Lookup(ids: map<NetAddr, int>, a: NetAddr): int {
    if a in ids then ids[a] else 0
  }

  predicate EntryPasses(s: Tables, id: int)
    requires id in s.infos
  {
    var info := s.infos[id];
    && EntryClocked(info)
    && (if info.inTried then info.refCount == 0 else 1 <= info.refCount <= MAX_REFS)
    && Lookup(s.ids, info.Addr()) == id
    && 0 <= info.randomPos < |s.order| && s.order[info.randomPos] == id
  }

  ghost predicate EntriesPass(s: Tables) {
    forall id :: id in s.infos ==> EntryPasses(s, id)
  }

  /** A used "tried" slot holds a tried entry that hashes to its bucket and position. */
  predicate TriedPasses(s: Tables, i: nat)
    requires i < |s.triedTable|
  {
    var id := s.triedTable[i];
    id != -1 ==>
      && id in s.infos && s.infos[id].inTried
      && TriedBucket(s.h, s.key, s.infos[id].Svc()) == i / BUCKET_SIZE
      && Position(s.h, s.key, false, i / BUCKET_SIZE, s.infos[id].Svc()) == i % BUCKET_SIZE
  }

  /** A used "new" slot holds an untried entry that hashes to its position in the bucket. */
  predicate NewPasses(s: Tables, i: nat)
    requires i < |s.newTable|
  {
    var id := s.newTable[i];
    id != -1 ==>
      && id in s.infos && !s.infos[id].inTried
      && Position(s.h, s.key, true, i / BUCKET_SIZE, s.infos[id].Svc()) == i % BUCKET_SIZE
  }

  /** The tried entries not seen in the first `k` slots. */
  function TriedLeft(s: Tables, k: nat): set<int>
    requires k <= |s.triedTable|
  {
    set id | id in TriedIds(s.infos) && (id == -1 || id !in s.triedTable[..k])
  }

  /** The references to an entry in the first `k` "new" slots. */
  function Used(s: Tables, k: nat, id: int): nat
    requires k <= |s.newTable|
  {
    if id == -1 then 0 else |Slots(s.newTable[..k], id)|
  }

  /** The references not yet seen in the first `k` slots, of the entries that still have some. */
  function NewLeft(s: Tables, k: nat): map<int, int>
    requires k <= |s.newTable|
  {
    map id | id in NewIds(s.infos) && s.infos[id].refCount > Used(s, k, id) :: s.infos[id].refCount - Used(s, k, id)
  }

  ghost predicate TriedSweepPasses(s: Tables) {
    && |s.triedTable| == TRIED_SLOTS
    && (forall i: nat :: i < TRIED_SLOTS ==> TriedPasses(s, i))
    && TriedLeft(s, TRIED_SLOTS) == {}
  }

  /** Within the first `k` slots no entry has more references than it counts. */
  ghost predicate NoneExceedsYet(s: Tables, k: nat)
    requires k <= |s.newTable|
  {
    forall id :: id in NewIds(s.infos) ==> Used(s, k, id) <= s.infos[id].refCount
  }

  ghost predicate NoneExceeds(s: Tables) {
    NoneExceedsYet(s, |s.newTable|)
  }

  ghost predicate NewSweepPasses(s: Tables) {
    && |s.newTable| == NEW_SLOTS
    && (forall i: nat :: i < NEW_SLOTS ==> NewPasses(s, i))
    && NoneExceeds(s)
    && NewLeft(s, NEW_SLOTS) == map[]
  }

  /** The check finds nothing wrong. */
  ghost predicate Passes(s: Tables) {
    && |s.order| == s.triedCount + s.newCount
    && EntriesPass(s)
    && |TriedIds(s.infos)| == s.triedCount && |NewIds(s.infos)| == s.newCount
    && TriedSweepPasses(s)
    && NewSweepPasses(s)
    && s.key != 0
  }

  // ----- one slot of a sweep

  lemma SweepStarts(s: Tables)
    ensures TriedLeft(s, 0) == TriedIds(s.infos)
  {}

  lemma TriedLeftKnown(s: Tables, k: nat, id: int)
    requires k <= |s.triedTable| && id in TriedLeft(s, k)
    ensures id in s.infos && s.infos[id].inTried
  {}

  lemma TriedStep(s: Tables, k: nat)
    requires k < |s.triedTable| == TRIED_SLOTS && forall i: nat :: i < k ==> TriedPasses(s, i)
    ensures var id := s.triedTable[k];
      && TriedLeft(s, k + 1) == (if id == -1 then TriedLeft(s, k) else TriedLeft(s, k) - {id})
      && (id != -1 && id !in TriedLeft(s, k) ==> !TriedPasses(s, k))
  {
    var id := s.triedTable[k];
    assert s.triedTable[..k + 1] == s.triedTable[..k] + [id];
    if id != -1 && id in s.triedTable[..k] {
      var j: nat :| j < k && s.triedTable[j] == id;
      assert TriedPasses(s, j);
    }
  }

  lemma SlotsPrefix(table: seq<int>, k: nat, id: int)
    requires k < |table|
    ensures |Slots(table[..k + 1], id)| == |Slots(table[..k], id)| + (if table[k] == id then 1 else 0)
    ensures |Slots(table[..k + 1], id)| <= |Slots(table, id)|
  {
    assert Slots(table[..k + 1], id) == Slots(table[..k], id) + (if table[k] == id then {k} else {});
    SubsetSize(Slots(table[..k + 1], id), Slots(table, id));
  }

  lemma CountStarts(s: Tables)
    requires EntriesPass(s)
    ensures NewLeft(s, 0) == map id | id in NewIds(s.infos) :: s.infos[id].refCount
    ensures NoneExceedsYet(s, 0)
  {
    forall id | id in NewIds(s.infos) ensures Used(s, 0, id) == 0 && s.infos[id].refCount > 0 {
      assert Slots(s.newTable[..0], id) == {};
      assert EntryPasses(s, id);
    }
  }

  lemma NewLeftKnown(s: Tables, k: nat, id: int)
    requires k <= |s.newTable| && id in NewLeft(s, k)
    ensures id in s.infos && !s.infos[id].inTried
  {}

  lemma NewStep(s: Tables, k: nat)
    requires k < |s.newTable|
    ensures var id := s.newTable[k];
      && (id == -1 ==> NewLeft(s, k + 1) == NewLeft(s, k))
      && (id != -1 && id in NewLeft(s, k) ==>
            var n := NewLeft(s, k)[id] - 1;
            NewLeft(s, k + 1) == if n == 0 then NewLeft(s, k) - {id} else NewLeft(s, k)[id := n])
      && (id != -1 && id !in NewLeft(s, k) && NewPasses(s, k) ==> !NoneExceeds(s))
      && (NoneExceedsYet(s, k) && (id == -1 || id in NewLeft(s, k)) ==> NoneExceedsYet(s, k + 1))
  {
    hide Slots;
    var x := s.newTable[k];
    forall id ensures Used(s, k + 1, id) == Used(s, k, id) + (if x != -1 && x == id then 1 else 0) {
      SlotsPrefix(s.newTable, k, id);
    }
    if x != -1 && x !in NewLeft(s, k) && NewPasses(s, k) {
      SlotsPrefix(s.newTable, k, x);
      assert s.newTable[..|s.newTable|] == s.newTable;
      assert Used(s, |s.newTable|, x) > s.infos[x].refCount;
    }
  }

  // ----- what passing means

  lemma {:induction false} ElementsSize(s: seq<int>)
    ensures |set x | x in s| <= |s|
    ensures |set x | x in s| == |s| <==> Distinct(s)
  {
    if s != [] {
      var rest, last := s[..|s| - 1], s[|s| - 1];
      ElementsSize(rest);
      assert s == rest + [last];
      assert (set x | x in s) == (set x | x in rest) + {last};
      if last in rest {
        assert (set x | x in s) == (set x | x in rest);
        assert !Distinct(s);
      } else {
        assert Distinct(s) <==> Distinct(rest);
      }
    }
  }

  lemma SidesSplit(infos: map<int, AddrInfo>)
    ensures |infos.Keys| == |NewIds(infos)| + |TriedIds(infos)|
  {
    assert infos.Keys == NewIds(infos) + TriedIds(infos);
  }

  lemma SameSize(a: set<int>, b: set<int>)
    requires a <= b && |b| <= |a|
    ensures a == b
  {
    if b - a == {} {
      assert b <= a;
    } else {
      var x := Member(b - a);
      SubsetSize(a, b - {x});
    }
  }

  /** Every entry knows its position and there are as many positions as entries, so the positions
      are taken exactly once. */
  lemma OrderExact(s: Tables)
    requires forall id :: id in s.infos ==>
      0 <= s.infos[id].randomPos < |s.order| && s.order[s.infos[id].randomPos] == id
    ensures |s.order| == |s.infos.Keys| <==>
            forall k :: 0 <= k < |s.order| ==> s.order[k] in s.infos && s.infos[s.order[k]].randomPos == k
  {
    var elements := set x | x in s.order;
    ElementsSize(s.order);
    forall id | id in s.infos ensures id in elements {
      assert s.order[s.infos[id].randomPos] in s.order;
    }
    if |s.order| == |s.infos.Keys| {
      SameSize(s.infos.Keys, elements);
      forall k | 0 <= k < |s.order| ensures s.order[k] in s.infos && s.infos[s.order[k]].randomPos == k {
        assert s.order[k] in elements;
        var id := s.order[k];
        assert id in s.infos.Keys;
        assert s.order[s.infos[id].randomPos] == s.order[k];
      }
    }
    if forall k :: 0 <= k < |s.order| ==> s.order[k] in s.infos && s.infos[s.order[k]].randomPos == k {
      forall x | x in elements ensures x in s.infos {
        var k :| 0 <= k < |s.order| && s.order[k] == x;
      }
      assert elements == s.infos.Keys;
      assert Distinct(s.order);
    }
  }

  lemma TriedSlotSplit(s: Tables, svc: Service, i: nat)
    ensures i == TriedSlot(s.h, s.key, svc) <==>
            TriedBucket(s.h, s.key, svc) == i / BUCKET_SIZE &&
            Position(s.h, s.key, false, i / BUCKET_SIZE, svc) == i % BUCKET_SIZE
  {}

  lemma TriedSweepIsInv(s: Tables)
    requires |s.triedTable| == TRIED_SLOTS && -1 !in s.infos
    ensures TriedSweepPasses(s) <==> TriedInv(s)
  {
    assert s.triedTable[..TRIED_SLOTS] == s.triedTable;
    forall i: nat, svc | i < TRIED_SLOTS
      ensures i == TriedSlot(s.h, s.key, svc) <==>
              TriedBucket(s.h, s.key, svc) == i / BUCKET_SIZE &&
              Position(s.h, s.key, false, i / BUCKET_SIZE, svc) == i % BUCKET_SIZE
    {
      TriedSlotSplit(s, svc, i);
    }
    hide TriedSlot;
    hide TriedBucket;
    hide Position;
    if TriedSweepPasses(s) {
      forall id | id in s.infos && s.infos[id].inTried
        ensures s.triedTable[TriedSlot(s.h, s.key, s.infos[id].Svc())] == id
      {
        assert id !in TriedLeft(s, TRIED_SLOTS);
        var i: nat :| i < TRIED_SLOTS && s.triedTable[i] == id;
        assert TriedPasses(s, i);
      }
      forall i | 0 <= i < TRIED_SLOTS && s.triedTable[i] != -1
        ensures s.triedTable[i] in s.infos && s.infos[s.triedTable[i]].inTried
        ensures i == TriedSlot(s.h, s.key, s.infos[s.triedTable[i]].Svc())
      {
        assert TriedPasses(s, i);
      }
    }
    if TriedInv(s) {
      forall i: nat | i < TRIED_SLOTS ensures TriedPasses(s, i) {}
      forall id | id in TriedIds(s.infos) ensures id !in TriedLeft(s, TRIED_SLOTS) {
        assert s.triedTable[TriedSlot(s.h, s.key, s.infos[id].Svc())] == id;
      }
      assert TriedLeft(s, TRIED_SLOTS) == {};
    }
  }

  lemma NewSlotSplit(s: Tables, svc: Service, i: nat)
    requires i < NEW_SLOTS
    ensures i == NewSlot(s.h, s.key, svc, i / BUCKET_SIZE) <==>
            Position(s.h, s.key, true, i / BUCKET_SIZE, svc) == i % BUCKET_SIZE
  {}

  lemma NewSweepIsInv(s: Tables)
    requires |s.newTable| == NEW_SLOTS && -1 !in s.infos
    ensures NewSweepPasses(s) <==>
            NewInv(s) && forall id :: id in NewIds(s.infos) ==> s.infos[id].refCount == |Slots(s.newTable, id)|
  {
    assert s.newTable[..NEW_SLOTS] == s.newTable;
    forall i: nat, svc | i < NEW_SLOTS
      ensures i == NewSlot(s.h, s.key, svc, i / BUCKET_SIZE) <==>
              Position(s.h, s.key, true, i / BUCKET_SIZE, svc) == i % BUCKET_SIZE
    {
      NewSlotSplit(s, svc, i);
    }
    hide NewSlot;
    hide Position;
    hide Slots;
    if NewSweepPasses(s) {
      forall id | id in NewIds(s.infos) ensures s.infos[id].refCount == |Slots(s.newTable, id)| {
        assert id !in NewLeft(s, NEW_SLOTS);
      }
      forall i | 0 <= i < NEW_SLOTS && s.newTable[i] != -1
        ensures s.newTable[i] in s.infos && !s.infos[s.newTable[i]].inTried
        ensures i == NewSlot(s.h, s.key, s.infos[s.newTable[i]].Svc(), i / BUCKET_SIZE)
      {
        assert NewPasses(s, i);
      }
    }
    if NewInv(s) && forall id :: id in NewIds(s.infos) ==> s.infos[id].refCount == |Slots(s.newTable, id)| {
      forall i: nat | i < NEW_SLOTS ensures NewPasses(s, i) {}
    }
  }

  /** What the check does not look at: how ids were numbered, addresses without an entry, and
      whether the index lacks the address of entry 0. */
  ghost predicate Unseen(s: Tables) {
    && |s.triedTable| == TRIED_SLOTS && |s.newTable| == NEW_SLOTS
    && s.nextId >= 0
    && (forall id :: id in s.infos ==> 0 <= id < s.nextId)
    && (forall a :: a in s.ids ==> s.ids[a] in s.infos && s.infos[s.ids[a]].Addr() == a)
    && (0 in s.infos ==> s.infos[0].Addr() in s.ids)
  }

  /** The index after lookups: addresses of entries that it lacked are there with id 0. */
  ghost predicate Grown(before: map<NetAddr, int>, after: map<NetAddr, int>, infos: map<int, AddrInfo>) {
    && before.Keys <= after.Keys
    && (forall a :: a in before ==> after[a] == before[a])
    && (forall a :: a in after && a !in before ==> after[a] == 0 && exists id :: id in infos && infos[id].Addr() == a)
  }

  /** The index with the address of entry 0, if there is such an entry. */
  function WithZero(ids: map<NetAddr, int>, infos: map<int, AddrInfo>): map<NetAddr, int> {
    if 0 in infos then ids[infos[0].Addr() := 0] else ids
  }

  lemma NothingGrown(s: Tables)
    ensures Grown(s.ids, s.ids, s.infos)
  {}

  /** Looking up the address of an entry answers as before and adds it where it is missing. */
  lemma GrownLookup(before: map<NetAddr, int>, now: map<NetAddr, int>, infos: map<int, AddrInfo>, id: int)
    requires Grown(before, now, infos) && id in infos
    ensures var a := infos[id].Addr();
      && Lookup(now, a) == Lookup(before, a)
      && (a !in now ==> Grown(before, now[a := 0], infos))
  {}

  /** Where every entry passes and has been looked up, the address of entry 0 is all that may have been added. */
  lemma GrownIsZero(s: Tables, t: Tables)
    requires t == s.(ids := t.ids) && Grown(s.ids, t.ids, s.infos) && EntriesPass(s)
    requires forall id :: id in s.infos ==> s.infos[id].Addr() in t.ids
    ensures t.ids == WithZero(s.ids, s.infos) && EntriesPass(t)
  {
    forall a | a in t.ids && a !in s.ids ensures 0 in s.infos && s.infos[0].Addr() == a {
      var id :| id in s.infos && s.infos[id].Addr() == a;
      assert EntryPasses(s, id);
    }
    forall id | id in t.infos ensures EntryPasses(t, id) {
      assert EntryPasses(s, id);
    }
    if 0 in s.infos {
      assert EntryPasses(s, 0);
    }
  }

  /** Taking the address of entry 0 out of the index breaks the invariant and is not noticed. */
  lemma ZeroUnnoticed(s: Tables)
    requires Passes(s) && 0 in s.infos
    ensures var t := s.(ids := s.ids - {s.infos[0].Addr()}); Passes(t) && !Inv(t)
  {
    var t := s.(ids := s.ids - {s.infos[0].Addr()});
    assert EntriesPass(t) by {
      forall id | id in t.infos ensures EntryPasses(t, id) {
        assert EntryPasses(s, id) && EntryPasses(s, 0);
      }
    }
    hide EntriesPass;
    SweepsSame(s, t);
    hide TriedSweepPasses;
    hide NewSweepPasses;
  }

  /** The check puts it back. */
  lemma ZeroRestored(s: Tables)
    requires Inv(s) && 0 in s.infos
    ensures WithZero(s.ids - {s.infos[0].Addr()}, s.infos) == s.ids
  {
    assert s.ids[s.infos[0].Addr()] == 0;
  }

  lemma SweepsSame(s: Tables, t: Tables)
    requires t == s.(ids := t.ids)
    ensures TriedSweepPasses(t) <==> TriedSweepPasses(s)
    ensures NewSweepPasses(t) <==> NewSweepPasses(s)
  {
    assert forall i: nat :: i < |s.triedTable| ==> (TriedPasses(t, i) <==> TriedPasses(s, i));
    assert forall i: nat :: i < |s.newTable| ==> (NewPasses(t, i) <==> NewPasses(s, i));
    assert forall id, k: nat :: k <= |s.newTable| ==> Used(t, k, id) == Used(s, k, id);
    hide TriedPasses;
    hide NewPasses;
    hide Used;
    assert |s.triedTable| == TRIED_SLOTS ==> TriedLeft(t, TRIED_SLOTS) == TriedLeft(s, TRIED_SLOTS);
    assert |s.newTable| == NEW_SLOTS ==> NewLeft(t, NEW_SLOTS) == NewLeft(s, NEW_SLOTS);
  }

  lemma InvUnseen(s: Tables)
    requires Inv(s)
    ensures Unseen(s)
  {}

  /** Where that is right, the check passes exactly the states that satisfy the invariant, have
      their times in order and a key that is not null. */
  lemma PassesExactly(s: Tables)
    ensures Passes(s) && Unseen(s) <==> Inv(s) && Clocked(s) && s.key != 0
  {
    hide *;
    if Inv(s) {
      InvUnseen(s);
    }
    if Unseen(s) {
      PassesSeen(s);
    }
  }

  lemma PassesSeen(s: Tables)
    requires Unseen(s)
    ensures Passes(s) <==> Inv(s) && Clocked(s) && s.key != 0
  {
    hide TriedSweepPasses;
    hide NewSweepPasses;
    hide TriedInv;
    hide NewInv;
    hide Slots;
    TriedSweepIsInv(s);
    NewSweepIsInv(s);
    SidesSplit(s.infos);
    if Passes(s) {
      forall id | id in s.infos ensures EntryPasses(s, id) {}
      OrderExact(s);
      PassedEntries(s);
    }
    if Inv(s) && Clocked(s) && s.key != 0 {
      OrderExact(s);
      KeptEntries(s);
    }
  }

  lemma PassedEntries(s: Tables)
    requires Unseen(s) && EntriesPass(s)
    requires forall id :: id in NewIds(s.infos) ==> s.infos[id].refCount == |Slots(s.newTable, id)|
    requires forall k :: 0 <= k < |s.order| ==> s.order[k] in s.infos && s.infos[s.order[k]].randomPos == k
    ensures IndexInv(s) && EntryInv(s, {}) && Clocked(s)
  {
    hide Slots;
    forall id | id in s.infos
      ensures EntryPasses(s, id) && (!s.infos[id].inTried ==> id in NewIds(s.infos))
    {}
  }

  lemma KeptEntries(s: Tables)
    requires IndexInv(s) && EntryInv(s, {}) && Clocked(s)
    ensures EntriesPass(s)
    ensures forall id :: id in NewIds(s.infos) ==> s.infos[id].refCount == |Slots(s.newTable, id)|
  {
    hide Slots;
  }

  /** The check passes in every state of a run up to some point exactly if the key is not null and
      every operation before that point was timely. */
  lemma RunPasses(states: seq<Tables>, ops: seq<Op>, h: Hashes, key: nat, k: nat)
    requires IsRun(states, ops, h, key) && k < |states|
    ensures (forall j :: 0 <= j <= k ==> Passes(states[j])) <==> key != 0 && TimelyUntil(states, ops, k)
  {
    hide Inv;
    hide Passes;
    hide Clocked;
    hide TimelyUntil;
    forall j | 0 <= j <= k ensures Passes(states[j]) <==> Clocked(states[j]) && states[j].key != 0 {
      RunKeepsInv(states, ops, h, key, j);
      InvUnseen(states[j]);
      PassesExactly(states[j]);
    }
    assert states[0].key == key;
    RunClocked(states, ops, h, key, k);
    if forall j :: 0 <= j <= k ==> Passes(states[j]) {
      RunKeyKept(states, ops, h, key, k);
    }
  }

  lemma {:induction false} RunKeyKept(states: seq<Tables>, ops: seq<Op>, h: Hashes, key: nat, k: nat)
    requires IsRun(states, ops, h, key) && k < |states|
    requires forall j :: 0 <= j <= k ==> Clocked(states[j])
    ensures ClockedUntil(states, key, k)
  {
    hide Inv;
    hide Clocked;
    if k > 0 {
      RunKeyKept(states, ops, h, key, k - 1);
      RunKeepsInv(states, ops, h, key, k - 1);
      assert states[k] == Apply(states[k - 1], ops[k - 1]);
      ApplyClocked(states[k - 1], ops[k - 1]);
    }
  }
}
