/**
 The cuckoo cache: eight candidate slots per element, displacement chains of bounded length, and
 two ageing epochs.
 */
module CuckooCache {
  import opened Collections

  type Element = int

  /** A slot with its collection flag (set: may be overwritten) and its epoch flag. */
  datatype Slot = Slot(elem: Element, collected: bool, recent: bool)

  const WAYS: nat := 8
  const TWO32: nat := 0x1_0000_0000

  function Max(a: nat, b: nat): nat { if a < b then b else a }

  // ----- where an element may live

  type Hash = x: nat | x < TWO32

  /** The eight 32-bit hashes of each element. */
  type Hasher = (Element, nat) -> Hash

  function ComputeHashes(h: Hasher, size: nat, e: Element): (locs: seq<nat>)
    requires size > 0
    ensures |locs| == WAYS && forall k :: 0 <= k < WAYS ==> locs[k] < size
  {
    var locs := seq(WAYS, k requires 0 <= k < WAYS => Bucket(h(e, k), size));
    assert forall k :: 0 <= k < WAYS ==> locs[k] == Bucket(h(e, k), size);
    locs
  }

  /** A 32-bit hash read as a fraction and scaled to the table. */
  function Bucket(x: Hash, size: nat): (b: nat)
    requires size > 0
    ensures b < size
  {
    ScaledBelow(x, size);
    x * size / TWO32
  }

  lemma ScaledBelow(x: Hash, size: nat)
    requires size > 0
    ensures 0 <= x * size / TWO32 < size
  {
    assert x * size < TWO32 * size;
  }

  /** The k-th candidate is slot `b` exactly if the k-th hash is in the b-th of as many equal parts as there are
      slots. */
  lemma CandidateExactly(h: Hasher, size: nat, e: Element, k: nat, b: nat)
    requires size > 0 && k < WAYS
    ensures ComputeHashes(h, size, e)[k] == b <==> b * TWO32 <= h(e, k) * size < (b + 1) * TWO32
  {
    var v, q := h(e, k) * size, Bucket(h(e, k), size);
    assert v == q * TWO32 + v % TWO32;
  }

  // ----- counting

  /** The live entries with the given epoch flag. */
  function Count(slots: seq<Slot>, recent: bool): nat {
    if slots == [] then 0
    else Count(slots[1..], recent) + if !slots[0].collected && slots[0].recent == recent then 1 else 0
  }

  function Holds(s: Slot, recent: bool): nat {
    if !s.collected && s.recent == recent then 1 else 0
  }

  lemma {:induction false} CountUpdate(slots: seq<Slot>, i: nat, s: Slot, recent: bool)
    requires i < |slots|
    ensures Count(slots[i := s], recent) == Count(slots, recent) - Holds(slots[i], recent) + Holds(s, recent)
  {
    if i > 0 {
      CountUpdate(slots[1..], i - 1, s, recent);
      assert slots[i := s][1..] == slots[1..][i - 1 := s];
    } else {
      assert slots[i := s][1..] == slots[1..];
    }
  }

  /** What the table holds for good: element and epoch of each live slot. */
  ghost function Live(slots: seq<Slot>): multiset<(Element, bool)> {
    if slots == [] then multiset{} else Live(slots[1..]) + LiveIn(slots[0])
  }

  ghost function LiveIn(s: Slot): multiset<(Element, bool)> {
    if s.collected then multiset{} else multiset{(s.elem, s.recent)}
  }

  lemma Shuffle<T>(a: multiset<T>, b: multiset<T>, c: multiset<T>, d: multiset<T>, e: multiset<T>)
    requires a + c == d + e
    ensures a + b + c == d + b + e
  {
    assert a + b + c == a + c + b;
    assert d + b + e == d + e + b;
  }

  lemma {:induction false} LiveUpdate(slots: seq<Slot>, i: nat, s: Slot)
    requires i < |slots|
    ensures Live(slots[i := s]) + LiveIn(slots[i]) == Live(slots) + LiveIn(s)
  {
    if i > 0 {
      LiveUpdate(slots[1..], i - 1, s);
      assert slots[i := s][1..] == slots[1..][i - 1 := s];
      Shuffle(Live(slots[i := s][1..]), LiveIn(slots[0]), LiveIn(slots[i]), Live(slots[1..]), LiveIn(s));
    } else {
      assert slots[i := s][1..] == slots[1..];
    }
  }

  /** Every element in the table, live or not. */
  ghost function Stored(slots: seq<Slot>): multiset<Element> {
    if slots == [] then multiset{} else Stored(slots[1..]) + multiset{slots[0].elem}
  }

  lemma {:induction false} StoredUpdate(slots: seq<Slot>, i: nat, s: Slot)
    requires i < |slots|
    ensures Stored(slots[i := s]) + multiset{slots[i].elem} == Stored(slots) + multiset{s.elem}
  {
    if i > 0 {
      StoredUpdate(slots[1..], i - 1, s);
      assert slots[i := s][1..] == slots[1..][i - 1 := s];
      Shuffle(Stored(slots[i := s][1..]), multiset{slots[0].elem}, multiset{slots[i].elem}, Stored(slots[1..]),
              multiset{s.elem});
    } else {
      assert slots[i := s][1..] == slots[1..];
    }
  }

  // ----- ageing

  /** One slot after a new epoch starts: the old are given up, the recent become old. */
  function Age(s: Slot): Slot {
    if s.recent then s.(recent := false) else s.(collected := true)
  }

  ghost predicate Aged(before: seq<Slot>, after: seq<Slot>) {
    |before| == |after| && forall i :: 0 <= i < |before| ==> after[i] == Age(before[i])
  }

  lemma {:induction false} AgedCounts(before: seq<Slot>, after: seq<Slot>)
    requires Aged(before, after)
    ensures Count(after, true) == 0 && Count(after, false) == Count(before, true)
    ensures Stored(after) == Stored(before)
  {
    if before != [] {
      assert after[0] == Age(before[0]);
      AgedCounts(before[1..], after[1..]);
    }
  }

  /** How far the recent entries may exceed an epoch. */
  function Slack(epochSize: nat): nat {
    Max(1, epochSize / 16)
  }

  // ----- choosing whom to displace

  function Find(locs: seq<nat>, last: int): (k: nat)
    ensures k <= |locs|
    ensures k < |locs| ==> locs[k] == last
    ensures forall j :: 0 <= j < k ==> locs[j] != last
  {
    if locs == [] || locs[0] == last then 0 else 1 + Find(locs[1..], last)
  }

  /** `last` is negative while nothing has been displaced. */
  function NextLoc(locs: seq<nat>, last: int): (loc: nat)
    requires |locs| == WAYS
    ensures loc in locs
  {
    locs[(1 + Find(locs, last)) % WAYS]
  }

  /** The first displacement takes the second candidate, not the first. */
  lemma FirstDisplaced(locs: seq<nat>)
    requires |locs| == WAYS
    ensures NextLoc(locs, -1) == locs[1]
  {
    assert Find(locs, -1) == WAYS;
  }

  /** The element just placed is displaced again at once exactly if its place is two candidates in a
      row of the displaced one, at the first it is at all. */
  lemma BackAtOnce(locs: seq<nat>, last: nat)
    requires |locs| == WAYS
    ensures NextLoc(locs, last) == last <==>
            exists k :: 0 <= k < WAYS - 1 && locs[k] == last && locs[k + 1] == last && last !in locs[..k]
  {
    var k := Find(locs, last);
    assert last !in locs[..k];
    if k < WAYS - 1 {
      assert forall j :: k < j < WAYS ==> last in locs[..j] by {
        assert forall j :: k < j < WAYS ==> locs[..j][k] == last;
      }
    }
  }

  /** With eight different candidates it never is. */
  lemma NotBackAtOnce(locs: seq<nat>, last: nat)
    requires |locs| == WAYS && Distinct(locs)
    ensures NextLoc(locs, last) != last
  {
    BackAtOnce(locs, last);
  }

  // ----- displacement chains

  /** How an insertion ended: the element was there already, it or a displaced one took a slot that
      was up for collection, or the chain ran out and its last element was dropped. */
  datatype Outcome = Found(i: nat) | Placed(garbage: Element) | Dropped(elem: Element, recent: bool)

  /** Live slots hold elements that hash to them. */
  ghost predicate AllPlaced(h: Hasher, slots: seq<Slot>) {
    |slots| > 0 && forall i :: 0 <= i < |slots| && !slots[i].collected ==> i in ComputeHashes(h, |slots|, slots[i].elem)
  }

  function One(a: bool, b: bool): nat { if a == b then 1 else 0 }

  /** The table and the element in hand are the table at the start and the new element, rearranged. */
  ghost predicate Chained(start: seq<Slot>, slots: seq<Slot>, e: Element, x: Element, r: bool) {
    && |slots| == |start|
    && Live(slots) + multiset{(x, r)} == Live(start) + multiset{(e, true)}
    && Stored(slots) + multiset{x} == Stored(start) + multiset{e}
    && Count(slots, true) + One(r, true) == Count(start, true) + 1
    && Count(slots, false) + One(r, false) == Count(start, false)
  }

  lemma PlacedUpdate(h: Hasher, slots: seq<Slot>, loc: nat, x: Element, r: bool)
    requires AllPlaced(h, slots) && loc < |slots| && loc in ComputeHashes(h, |slots|, x)
    ensures AllPlaced(h, slots[loc := Slot(x, false, r)])
  {
    hide ComputeHashes;
  }

  lemma LiveSwap(slots: seq<Slot>, loc: nat, x: Element, r: bool)
    requires loc < |slots| && !slots[loc].collected
    ensures Live(slots[loc := Slot(x, false, r)]) + multiset{(slots[loc].elem, slots[loc].recent)} ==
            Live(slots) + multiset{(x, r)}
  {
    LiveUpdate(slots, loc, Slot(x, false, r));
  }

  lemma Swap(h: Hasher, start: seq<Slot>, slots: seq<Slot>, e: Element, x: Element, r: bool, loc: nat)
    requires Chained(start, slots, e, x, r) && AllPlaced(h, slots)
    requires loc < |slots| && !slots[loc].collected && loc in ComputeHashes(h, |slots|, x)
    ensures var after := slots[loc := Slot(x, false, r)];
      Chained(start, after, e, slots[loc].elem, slots[loc].recent) && AllPlaced(h, after)
  {
    hide ComputeHashes;
    PlacedUpdate(h, slots, loc, x, r);
    hide AllPlaced;
    hide Live;
    hide Stored;
    hide Count;
    var s := Slot(x, false, r);
    LiveSwap(slots, loc, x, r);
    StoredUpdate(slots, loc, s);
    CountUpdate(slots, loc, s, true);
    CountUpdate(slots, loc, s, false);
  }

  /** The table and the element in hand, with where the last displacement was. */
  datatype Hand = Hand(slots: seq<Slot>, elem: Element, recent: bool, last: int)

  /** Every candidate of the element in hand is taken. */
  ghost predicate Stuck(h: Hasher, a: Hand) {
    |a.slots| > 0 && forall k :: 0 <= k < WAYS ==> !a.slots[ComputeHashes(h, |a.slots|, a.elem)[k]].collected
  }

  /** One displacement: the element goes where another was, which is then in hand. */
  ghost function Displaced(h: Hasher, a: Hand): (b: Hand)
    requires |a.slots| > 0
    ensures |b.slots| == |a.slots|
  {
    var loc := NextLoc(ComputeHashes(h, |a.slots|, a.elem), a.last);
    Hand(a.slots[loc := Slot(a.elem, false, a.recent)], a.slots[loc].elem, a.slots[loc].recent, loc)
  }

  ghost function After(h: Hasher, a: Hand, n: nat): (b: Hand)
    requires |a.slots| > 0
    ensures |b.slots| == |a.slots|
  {
    if n == 0 then a else Displaced(h, After(h, a, n - 1))
  }

  /** The chain: `n` displacements, each because every candidate was taken. It ends at the first free candidate
      of the element in hand, or at the depth limit, when that element is dropped. */
  ghost predicate ChainOf(h: Hasher, before: seq<Slot>, after: seq<Slot>, e: Element, limit: nat, n: nat,
                          outcome: Outcome)
    requires |before| > 0
  {
    var b := After(h, Hand(before, e, true, -1), n);
    && n <= limit && (forall i :: 0 <= i < n ==> Stuck(h, After(h, Hand(before, e, true, -1), i)))
    && if n == limit then after == b.slots && outcome == Dropped(b.elem, b.recent)
       else exists k :: 0 <= k < WAYS && FirstFree(h, b, k)
              && var loc := ComputeHashes(h, |b.slots|, b.elem)[k];
                 after == b.slots[loc := Slot(b.elem, false, b.recent)] && outcome == Placed(b.slots[loc].elem)
  }

  ghost predicate FirstFree(h: Hasher, a: Hand, k: nat)
    requires |a.slots| > 0 && k < WAYS
  {
    var locs := ComputeHashes(h, |a.slots|, a.elem);
    a.slots[locs[k]].collected && forall j :: 0 <= j < k ==> !a.slots[locs[j]].collected
  }

  /** With a free candidate and some depth the new element goes straight to the first one, and nothing moves. */
  lemma StraightIn(h: Hasher, before: seq<Slot>, after: seq<Slot>, e: Element, limit: nat, n: nat, outcome: Outcome)
    requires |before| > 0 && limit > 0 && ChainOf(h, before, after, e, limit, n, outcome)
    requires !Stuck(h, Hand(before, e, true, -1))
    ensures exists k :: 0 <= k < WAYS && FirstFree(h, Hand(before, e, true, -1), k) &&
              after == before[ComputeHashes(h, |before|, e)[k] := Slot(e, false, true)]
  {
    hide ComputeHashes;
    var a := Hand(before, e, true, -1);
    assert After(h, a, 0) == a;
  }

  /** An element is found wherever it is, live or not. */
  ghost predicate Has(h: Hasher, slots: seq<Slot>, e: Element)
    requires |slots| > 0
  {
    exists i :: i in ComputeHashes(h, |slots|, e) && slots[i].elem == e
  }

  /** Giving up a slot hides nothing: what is found and erased is found again. */
  lemma ErasedIsFound(h: Hasher, slots: seq<Slot>, i: nat, e: Element)
    requires i < |slots|
    ensures Has(h, slots[i := slots[i].(collected := true)], e) <==> Has(h, slots, e)
  {
    hide ComputeHashes;
    var t := slots[i := slots[i].(collected := true)];
    forall j | 0 <= j < |slots| ensures t[j].elem == slots[j].elem {}
    if Has(h, slots, e) {
      var j :| j in ComputeHashes(h, |slots|, e) && slots[j].elem == e;
      assert t[j].elem == e;
    }
    if Has(h, t, e) {
      var j :| j in ComputeHashes(h, |t|, e) && t[j].elem == e;
      assert slots[j].elem == e;
    }
  }

  /** The outcome of an insertion, stated on the whole table. */
  ghost predicate Inserted(before: seq<Slot>, after: seq<Slot>, e: Element, outcome: Outcome) {
    && |after| == |before|
    && match outcome
       case Found(i) => i < |before| && before[i].elem == e && after == before[i := Slot(e, false, true)]
       case Placed(x) =>
         && Live(after) == Live(before) + multiset{(e, true)}
         && Stored(after) + multiset{x} == Stored(before) + multiset{e}
       case Dropped(x, r) =>
         && Live(after) + multiset{(x, r)} == Live(before) + multiset{(e, true)}
         && Stored(after) + multiset{x} == Stored(before) + multiset{e}
  }

  /** An insertion adds at most one live recent entry and no live old one. */
  ghost predicate Grows(before: seq<Slot>, after: seq<Slot>) {
    Count(after, true) <= Count(before, true) + 1 && Count(after, false) <= Count(before, false)
  }

  lemma PlaceInto(h: Hasher, start: seq<Slot>, slots: seq<Slot>, e: Element, x: Element, r: bool, loc: nat)
    requires Chained(start, slots, e, x, r) && AllPlaced(h, slots)
    requires loc < |slots| && slots[loc].collected && loc in ComputeHashes(h, |slots|, x)
    ensures var after := slots[loc := Slot(x, false, r)];
      Inserted(start, after, e, Placed(slots[loc].elem)) && Grows(start, after) && AllPlaced(h, after)
  {
    var s := Slot(x, false, r);
    LiveUpdate(slots, loc, s);
    StoredUpdate(slots, loc, s);
    CountUpdate(slots, loc, s, true);
    CountUpdate(slots, loc, s, false);
    Trade(Stored(slots[loc := s]), slots[loc].elem, Stored(slots), x, Stored(start), e);
  }

  lemma Trade<T>(a: multiset<T>, g: T, b: multiset<T>, x: T, c: multiset<T>, e: T)
    requires a + multiset{g} == b + multiset{x} && b + multiset{x} == c + multiset{e}
    ensures a + multiset{g} == c + multiset{e}
  {}

  lemma KeepAt(h: Hasher, slots: seq<Slot>, e: Element, loc: nat)
    requires AllPlaced(h, slots) && loc < |slots| && slots[loc].elem == e && loc in ComputeHashes(h, |slots|, e)
    ensures var after := slots[loc := Slot(e, false, true)];
      Inserted(slots, after, e, Found(loc)) && Grows(slots, after) && AllPlaced(h, after)
  {
    var s := Slot(e, false, true);
    CountUpdate(slots, loc, s, true);
    CountUpdate(slots, loc, s, false);
  }

  // ----- the cache

  class Cache {
    const h: Hasher
    const size: nat
    const epochSize: nat
    const depthLimit: nat

    var slots: seq<Slot>
    var counter: nat

    ghost predicate Shape()
      reads this
    {
      size >= 2 && |slots| == size && epochSize >= 1
    }

    /** Neither epoch outgrows its bound, and the next scan comes in time to keep it so. */
    ghost predicate Bounded()
      reads this
    {
      && Count(slots, true) + counter <= epochSize + Slack(epochSize)
      && Count(slots, false) <= epochSize + Slack(epochSize)
    }

    ghost predicate Valid()
      reads this
    {
      Shape() && AllPlaced(h, slots) && Bounded()
    }

    constructor (h: Hasher, newSize: nat, depthLimit: nat, init: Element)
      requires newSize < TWO32
      ensures Valid() && size == Max(2, newSize) && Live(slots) == multiset{} && this.depthLimit == depthLimit
      ensures this.h == h && epochSize == Max(1, 45 * size % TWO32 / 100)
    {
      this.h := h;
      this.depthLimit := depthLimit;
      var n := Max(2, newSize);
      size := n;
      slots := seq(n, i => Slot(init, true, false));
      epochSize := Max(1, 45 * n % TWO32 / 100);
      counter := Max(1, 45 * n % TWO32 / 100);
      new;
      AllCollected(slots);
    }

    /** Live recent entries stay within an epoch and its slack, and all live entries within twice that. */
    lemma LiveBound()
      requires Valid()
      ensures Count(slots, true) <= epochSize + Slack(epochSize)
      ensures |Live(slots)| <= 2 * (epochSize + Slack(epochSize))
    {
      LiveSize(slots);
    }

    /** Before an insertion: starts a new epoch when the current one is full, and otherwise puts
        off the next scan for as long as the epoch cannot overflow. */
    method EpochCheck()
      requires Valid()
      modifies this
      ensures Shape() && AllPlaced(h, slots)
      ensures Count(slots, true) + 1 + counter <= epochSize + Slack(epochSize)
      ensures Count(slots, false) <= epochSize + Slack(epochSize)
      ensures if old(counter) == 0 && Count(old(slots), true) >= epochSize then Aged(old(slots), slots)
              else slots == old(slots)
      ensures if old(counter) == 0 then counter >= Slack(epochSize) else counter == old(counter) - 1
    {
      if counter != 0 {
        counter := counter - 1;
        return;
      }
      var unused := CountRecent();
      if unused >= epochSize {
        AgeAll();
        AgedCounts(old(slots), slots);
        AgedPlaced(h, old(slots), slots);
        counter := epochSize;
      } else {
        counter := Max(1, Max(epochSize / 16, epochSize - unused));
      }
    }

    method CountRecent() returns (n: nat)
      ensures n == Count(slots, true)
    {
      n := 0;
      for i := 0 to |slots|
        invariant n + Count(slots[i..], true) == Count(slots, true)
      {
        assert slots[i..][1..] == slots[i + 1..];
        n := n + if slots[i].recent && !slots[i].collected then 1 else 0;
      }
    }

    method AgeAll()
      modifies `slots
      ensures Aged(old(slots), slots)
    {
      ghost var was := slots;
      for i := 0 to |slots|
        invariant |slots| == |was| && (forall j :: 0 <= j < i ==> slots[j] == Age(was[j])) && slots[i..] == was[i..]
      {
        assert slots[i] == slots[i..][0] == was[i];
        ghost var now := slots;
        if slots[i].recent {
          slots := slots[i := slots[i].(recent := false)];
        } else {
          slots := slots[i := slots[i].(collected := true)];
        }
        assert slots[i + 1..] == now[i..][1..] == was[i..][1..] == was[i + 1..];
      }
    }

    method Insert(e: Element) returns (ghost aged: seq<Slot>, ghost outcome: Outcome, ghost n: nat)
      requires Valid()
      modifies this
      ensures Valid()
      ensures if old(counter) == 0 && Count(old(slots), true) >= epochSize then Aged(old(slots), aged)
              else aged == old(slots)
      ensures Inserted(aged, slots, e, outcome)
      ensures |aged| == size && (outcome.Found? <==> Has(h, aged, e))
      ensures !outcome.Found? ==> ChainOf(h, aged, slots, e, depthLimit, n, outcome)
    {
      EpochCheck();
      aged, n := slots, 0;
      var locs := ComputeHashes(h, size, e);
      for k := 0 to WAYS
        invariant slots == aged && forall j :: 0 <= j < k ==> slots[locs[j]].elem != e
      {
        if slots[locs[k]].elem == e {
          KeepAt(h, slots, e, locs[k]);
          slots := slots[locs[k] := Slot(e, false, true)];
          outcome := Found(locs[k]);
          return;
        }
      }
      outcome, n := Displace(e);
    }

    /** Puts the element in a slot up for collection, displacing others along the way if need be. */
    method Displace(e: Element) returns (ghost outcome: Outcome, ghost n: nat)
      requires Shape() && AllPlaced(h, slots)
      modifies `slots
      ensures Shape() && AllPlaced(h, slots)
      ensures Inserted(old(slots), slots, e, outcome) && Grows(old(slots), slots)
      ensures !outcome.Found? && ChainOf(h, old(slots), slots, e, depthLimit, n, outcome)
    {
      hide Live;
      hide Stored;
      hide Count;
      hide ComputeHashes;
      hide NextLoc;
      ghost var start := slots;
      ghost var a := Hand(slots, e, true, -1);
      var x, r, last := e, true, -1;
      n := 0;
      var locs := ComputeHashes(h, size, e);
      for depth := 0 to depthLimit
        invariant Shape() && AllPlaced(h, slots) && Chained(start, slots, e, x, r)
        invariant locs == ComputeHashes(h, size, x)
        invariant n == depth && After(h, a, n) == Hand(slots, x, r, last)
        invariant forall i :: 0 <= i < n ==> Stuck(h, After(h, a, i))
      {
        for k := 0 to WAYS
          invariant forall j :: 0 <= j < k ==> !slots[locs[j]].collected
        {
          if slots[locs[k]].collected {
            assert FirstFree(h, After(h, a, n), k);
            PlaceInto(h, start, slots, e, x, r, locs[k]);
            outcome := Placed(slots[locs[k]].elem);
            slots := slots[locs[k] := Slot(x, false, r)];
            return;
          }
        }
        assert Stuck(h, After(h, a, n));
        n := n + 1;
        last := NextLoc(locs, last);
        assert exists k :: 0 <= k < WAYS && locs[k] == last;
        Swap(h, start, slots, e, x, r, last);
        var s := slots[last];
        slots := slots[last := Slot(x, false, r)];
        x, r := s.elem, s.recent;
        locs := ComputeHashes(h, size, x);
      }
      outcome := Dropped(x, r);
    }

    /** Looks an element up, by its candidate slots only and whether or not they are up for collection. */
    method Contains(e: Element, erase: bool) returns (found: bool)
      requires Valid()
      modifies this
      ensures Valid() && counter == old(counter)
      ensures found <==> Has(h, old(slots), e)
      ensures if found && erase then
                exists i :: i in ComputeHashes(h, size, e) && old(slots)[i].elem == e
                            && slots == old(slots)[i := old(slots)[i].(collected := true)]
              else slots == old(slots)
    {
      var locs := ComputeHashes(h, size, e);
      for k := 0 to WAYS
        invariant slots == old(slots) && forall j :: 0 <= j < k ==> slots[locs[j]].elem != e
      {
        if slots[locs[k]].elem == e {
          if erase {
            var s := slots[locs[k]].(collected := true);
            CountUpdate(slots, locs[k], s, true);
            CountUpdate(slots, locs[k], s, false);
            slots := slots[locs[k] := s];
          }
          return true;
        }
      }
      return false;
    }
  }

  /** After an insertion every live element is still live, except at most the one dropped. */
  lemma AllButOneKept(before: seq<Slot>, after: seq<Slot>, e: Element, outcome: Outcome, y: Element, r: bool)
    requires Inserted(before, after, e, outcome) && ((y, r) in Live(before) || y == e)
    ensures (y, true) in Live(after) || (y, false) in Live(after) || (outcome.Dropped? && outcome.elem == y)
  {
    hide Live;
    hide Stored;
    var all := Live(before) + multiset{(e, true)};
    if outcome.Found? {
      FoundLive(before, outcome.i, e);
      assert (y, r) in Live(before) ==> (y, r) in all;
    } else {
      assert y == e ==> (y, true) in all;
      assert (y, r) in Live(before) ==> (y, r) in all;
    }
  }

  lemma FoundLive(slots: seq<Slot>, i: nat, e: Element)
    requires i < |slots| && slots[i].elem == e
    ensures var after := Live(slots[i := Slot(e, false, true)]);
      (e, true) in after && forall y, r :: y != e && (y, r) in Live(slots) ==> (y, r) in after
  {
    var s := Slot(e, false, true);
    LiveUpdate(slots, i, s);
    hide Live;
    var after, before := Live(slots[i := s]), Live(slots);
    LiveAt(slots[i := s], i);
    forall y, r | y != e && (y, r) in before ensures (y, r) in after {
      assert (y, r) in before + LiveIn(s);
      assert (y, r) !in LiveIn(slots[i]);
    }
  }

  lemma {:induction false} LiveAt(slots: seq<Slot>, i: nat)
    requires i < |slots| && !slots[i].collected
    ensures (slots[i].elem, slots[i].recent) in Live(slots)
  {
    if i > 0 {
      LiveAt(slots[1..], i - 1);
    }
  }

  lemma {:induction false} LiveSize(slots: seq<Slot>)
    ensures |Live(slots)| == Count(slots, true) + Count(slots, false)
  {
    if slots != [] {
      LiveSize(slots[1..]);
    }
  }

  lemma AgedPlaced(h: Hasher, before: seq<Slot>, after: seq<Slot>)
    requires Aged(before, after) && AllPlaced(h, before)
    ensures AllPlaced(h, after)
  {
    forall i | 0 <= i < |after| && !after[i].collected ensures i in ComputeHashes(h, |after|, after[i].elem) {
      assert after[i] == Age(before[i]);
    }
  }

  lemma {:induction false} AllCollected(slots: seq<Slot>)
    requires forall i :: 0 <= i < |slots| ==> slots[i].collected
    ensures Live(slots) == multiset{} && Count(slots, true) == 0 && Count(slots, false) == 0
  {
    if slots != [] {
      AllCollected(slots[1..]);
    }
  }
}
