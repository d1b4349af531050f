/**
 The rolling Bloom filter. Each cell holds two bits, in two words at the same bit position: zero for
 unset, else the generation, one to three, that last wrote it.
 */
module RollingBloom {

  type Key = seq<nat>

  /** Sixty-four bits. */
  type Word = w: seq<bool> | |w| == 64 witness seq(64, _ => false)

  datatype Cell = Cell(pos: nat, bit: nat)

  /** The hash of a key under a tweak by one of the hash functions. */
  type Hasher = (nat, nat, Key) -> nat

  function Locate(h: nat, size: nat): (c: Cell)
    requires size > 0 && size % 2 == 0
    ensures c.pos % 2 == 0 && c.pos + 1 < size && c.bit < 64
  {
    var pos := h / 64 % size;
    Cell(pos - pos % 2, h % 64)
  }

  ghost predicate InTable(data: seq<Word>, c: Cell) {
    c.pos % 2 == 0 && c.pos + 1 < |data| && c.bit < 64
  }

  /** The generation a cell carries. */
  function Generation(data: seq<Word>, c: Cell): nat
    requires c.pos + 1 < |data| && c.bit < 64
  {
    (if data[c.pos][c.bit] then 1 else 0) + (if data[c.pos + 1][c.bit] then 2 else 0)
  }

  function Following(g: nat): nat { if g == 3 then 1 else g + 1 }
  function Previous(g: nat): int { if g == 1 then 3 else g - 1 }

  // ----- wiping a generation

  function Keep(p: Word, p1: Word, p2: Word, g: nat): Word {
    seq(64, b requires 0 <= b < 64 => p[b] && (p1[b] != (g % 2 == 1) || p2[b] != (g / 2 == 1)))
  }

  /** Cells of the wiped generation are cleared and no others touched. */
  ghost predicate Wiped(before: seq<Word>, after: seq<Word>, g: nat) {
    && |after| == |before|
    && forall c :: InTable(before, c) ==>
         Generation(after, c) == if Generation(before, c) == g then 0 else Generation(before, c)
  }

  method Wipe(data: seq<Word>, g: nat) returns (out: seq<Word>)
    requires |data| % 2 == 0 && 1 <= g <= 3
    ensures Wiped(data, out, g)
  {
    out := data;
    var p := 0;
    while p < |data|
      invariant p % 2 == 0 && 0 <= p <= |data| == |out| && out[p..] == data[p..]
      invariant forall q :: 0 <= q < p && q % 2 == 0 ==>
                  out[q] == Keep(data[q], data[q], data[q + 1], g)
                    && out[q + 1] == Keep(data[q + 1], data[q], data[q + 1], g)
    {
      var p1, p2 := out[p], out[p + 1];
      assert p1 == out[p..][0] == data[p] && p2 == out[p..][1] == data[p + 1];
      ghost var now := out;
      out := out[p := Keep(p1, p1, p2, g)];
      out := out[p + 1 := Keep(p2, p1, p2, g)];
      assert out[p + 2..] == now[p..][2..] == data[p..][2..] == data[p + 2..];
      p := p + 2;
    }
    forall c | InTable(data, c)
      ensures Generation(out, c) == if Generation(data, c) == g then 0 else Generation(data, c)
    {
      assert out[c.pos] == Keep(data[c.pos], data[c.pos], data[c.pos + 1], g);
    }
  }

  // ----- writing a cell

  function Write(data: seq<Word>, c: Cell, g: nat): (r: seq<Word>)
    requires InTable(data, c)
    ensures |r| == |data|
  {
    data[c.pos := data[c.pos][c.bit := g % 2 == 1]][c.pos + 1 := data[c.pos + 1][c.bit := g / 2 == 1]]
  }

  lemma WriteCell(data: seq<Word>, c: Cell, g: nat, d: Cell)
    requires InTable(data, c) && InTable(data, d) && 1 <= g <= 3
    ensures Generation(Write(data, c, g), d) == if c == d then g else Generation(data, d)
  {}

  // ----- what keys are guaranteed

  function CellOf(hash: Hasher, tweak: nat, size: nat, key: Key, n: nat): (c: Cell)
    requires size > 0 && size % 2 == 0
    ensures c.pos % 2 == 0 && c.pos + 1 < size && c.bit < 64
  {
    Locate(hash(tweak, n, key), size)
  }

  /** A cell stands for two of every `64 * size` consecutive hash values. */
  lemma CellExactly(hash: Hasher, tweak: nat, size: nat, key: Key, n: nat, pos: nat, bit: nat)
    requires size > 0 && size % 2 == 0 && pos % 2 == 0 && bit < 64
    ensures CellOf(hash, tweak, size, key, n) == Cell(pos, bit) <==>
            var h := hash(tweak, n, key); h % 64 == bit && (h / 64 % size == pos || h / 64 % size == pos + 1)
  {}

  /** Every cell of the key was last written in this generation, or up to `age` generations before. */
  ghost predicate Marked(data: seq<Word>, hash: Hasher, tweak: nat, funcs: nat, key: Key, g: nat, age: nat)
    requires |data| > 0 && |data| % 2 == 0
  {
    forall n :: 0 <= n < funcs ==> Within(Generation(data, CellOf(hash, tweak, |data|, key, n)), g, age)
  }

  ghost predicate Within(cell: nat, g: nat, age: nat) {
    cell == g || (age >= 1 && cell == Previous(g)) || (age >= 2 && cell != 0)
  }

  /** Starting the next generation ages every key by one and loses none that was at most one old. */
  lemma MarkedAges(before: seq<Word>, after: seq<Word>, hash: Hasher, tweak: nat, funcs: nat, key: Key, g: nat,
                   age: nat)
    requires |before| > 0 && |before| % 2 == 0 && 1 <= g <= 3 && age <= 1
    requires Marked(before, hash, tweak, funcs, key, g, age) && Wiped(before, after, Following(g))
    ensures Marked(after, hash, tweak, funcs, key, Following(g), age + 1)
  {
    forall n | 0 <= n < funcs
      ensures Within(Generation(after, CellOf(hash, tweak, |after|, key, n)), Following(g), age + 1)
    {
      var c := CellOf(hash, tweak, |before|, key, n);
      assert InTable(before, c);
      assert Within(Generation(before, c), g, age);
    }
  }

  /** Writing the current generation somewhere harms no mark. */
  lemma MarkedWrite(data: seq<Word>, hash: Hasher, tweak: nat, funcs: nat, key: Key, g: nat, age: nat, c: Cell)
    requires |data| > 0 && |data| % 2 == 0 && 1 <= g <= 3 && InTable(data, c)
    requires Marked(data, hash, tweak, funcs, key, g, age)
    ensures Marked(Write(data, c, g), hash, tweak, funcs, key, g, age)
  {
    forall n | 0 <= n < funcs
      ensures Within(Generation(Write(data, c, g), CellOf(hash, tweak, |data|, key, n)), g, age)
    {
      var d := CellOf(hash, tweak, |data|, key, n);
      WriteCell(data, c, g, d);
      assert Within(Generation(data, d), g, age);
    }
  }

  /** The keys of this generation, of the one before, and of the one before that. */
  ghost predicate Remembers(data: seq<Word>, hash: Hasher, tweak: nat, funcs: nat, keys: seq<Key>, g: nat,
                            entries: nat, per: nat)
  {
    && |data| > 0 && |data| % 2 == 0 && 1 <= g <= 3
    && forall i, age :: 0 <= i < |keys| && 0 <= age <= 2 && |keys| - entries - age * per <= i ==>
         Marked(data, hash, tweak, funcs, keys[i], g, age)
  }

  lemma RememberWrite(data: seq<Word>, hash: Hasher, tweak: nat, funcs: nat, keys: seq<Key>, g: nat, entries: nat,
                      per: nat, c: Cell)
    requires Remembers(data, hash, tweak, funcs, keys, g, entries, per) && InTable(data, c)
    ensures Remembers(Write(data, c, g), hash, tweak, funcs, keys, g, entries, per)
  {
    var after := Write(data, c, g);
    WriteCell(data, c, g, c);
    forall i, age | 0 <= i < |keys| && 0 <= age <= 2 && |keys| - entries - age * per <= i
      ensures Marked(after, hash, tweak, funcs, keys[i], g, age)
    {
      assert Marked(data, hash, tweak, funcs, keys[i], g, age);
      MarkedWrite(data, hash, tweak, funcs, keys[i], g, age, c);
    }
  }

  /** A full generation becomes the previous one. */
  lemma RememberRoll(before: seq<Word>, after: seq<Word>, hash: Hasher, tweak: nat, funcs: nat, keys: seq<Key>,
                     g: nat, per: nat)
    requires Remembers(before, hash, tweak, funcs, keys, g, per, per) && Wiped(before, after, Following(g))
    ensures Remembers(after, hash, tweak, funcs, keys, Following(g), 0, per)
  {
    forall i, age | 0 <= i < |keys| && 0 <= age <= 2 && |keys| - age * per <= i
      ensures Marked(after, hash, tweak, funcs, keys[i], Following(g), age)
    {
      assert |keys| - per - (age - 1) * per <= i;
      assert Marked(before, hash, tweak, funcs, keys[i], g, age - 1);
      MarkedAges(before, after, hash, tweak, funcs, keys[i], g, age - 1);
    }
  }

  lemma RememberMore(data: seq<Word>, hash: Hasher, tweak: nat, funcs: nat, keys: seq<Key>, g: nat, entries: nat,
                     per: nat, key: Key)
    requires Remembers(data, hash, tweak, funcs, keys, g, entries, per) && Marked(data, hash, tweak, funcs, key, g, 0)
    ensures Remembers(data, hash, tweak, funcs, keys + [key], g, entries + 1, per)
  {
    var more := keys + [key];
    forall i, age | 0 <= i < |more| && 0 <= age <= 2 && |more| - (entries + 1) - age * per <= i
      ensures Marked(data, hash, tweak, funcs, more[i], g, age)
    {
      if i < |keys| {
        assert Marked(data, hash, tweak, funcs, keys[i], g, age);
      } else {
        forall n | 0 <= n < funcs ensures Within(Generation(data, CellOf(hash, tweak, |data|, key, n)), g, age) {
          assert Within(Generation(data, CellOf(hash, tweak, |data|, key, n)), g, 0);
        }
      }
    }
  }

  // ----- nothing else is remembered

  /** The generation `age` before `g`. */
  function Older(g: nat, age: nat): int {
    if age == 0 then g else if age == 1 then Previous(g) else Following(g)
  }

  /** Some key, from the given one on, has this cell. */
  ghost predicate Held(hash: Hasher, tweak: nat, size: nat, funcs: nat, keys: seq<Key>, c: Cell, from: int)
    requires size > 0 && size % 2 == 0
  {
    exists i, n :: 0 <= i < |keys| && from <= i && 0 <= n < funcs && CellOf(hash, tweak, size, keys[i], n) == c
  }

  /** A cell set in this generation, or up to two before, is one of a key as recent as that. */
  ghost predicate Backed(data: seq<Word>, hash: Hasher, tweak: nat, funcs: nat, keys: seq<Key>, g: nat,
                         entries: nat, per: nat)
  {
    && |data| > 0 && |data| % 2 == 0 && 1 <= g <= 3
    && forall c, age :: InTable(data, c) && 0 <= age <= 2 && Generation(data, c) == Older(g, age) ==>
         Held(hash, tweak, |data|, funcs, keys, c, |keys| - entries - age * per)
  }

  /** The cells written for a key are its own. */
  lemma BackedWrite(data: seq<Word>, hash: Hasher, tweak: nat, funcs: nat, keys: seq<Key>, g: nat, entries: nat,
                    per: nat, n: nat)
    requires Backed(data, hash, tweak, funcs, keys, g, entries, per) && keys != [] && entries >= 1 && n < funcs
    ensures var c := CellOf(hash, tweak, |data|, keys[|keys| - 1], n);
      Backed(Write(data, c, g), hash, tweak, funcs, keys, g, entries, per)
  {
    var c := CellOf(hash, tweak, |data|, keys[|keys| - 1], n);
    var after := Write(data, c, g);
    WriteCell(data, c, g, c);
    forall d, age | InTable(after, d) && 0 <= age <= 2 && Generation(after, d) == Older(g, age)
      ensures Held(hash, tweak, |after|, funcs, keys, d, |keys| - entries - age * per)
    {
      assert InTable(data, d);
      WriteCell(data, c, g, d);
    }
  }

  lemma BackedMore(data: seq<Word>, hash: Hasher, tweak: nat, funcs: nat, keys: seq<Key>, g: nat, entries: nat,
                   per: nat, key: Key)
    requires Backed(data, hash, tweak, funcs, keys, g, entries, per)
    ensures Backed(data, hash, tweak, funcs, keys + [key], g, entries + 1, per)
  {
    var more := keys + [key];
    forall c, age | InTable(data, c) && 0 <= age <= 2 && Generation(data, c) == Older(g, age)
      ensures Held(hash, tweak, |data|, funcs, more, c, |more| - (entries + 1) - age * per)
    {
      var from := |keys| - entries - age * per;
      assert Held(hash, tweak, |data|, funcs, keys, c, from);
      var i, n :| 0 <= i < |keys| && from <= i && 0 <= n < funcs && CellOf(hash, tweak, |data|, keys[i], n) == c;
      assert more[i] == keys[i];
    }
  }

  /** Starting the next generation forgets what only the reused one had set. */
  lemma BackedRoll(before: seq<Word>, after: seq<Word>, hash: Hasher, tweak: nat, funcs: nat, keys: seq<Key>, g: nat,
                   per: nat)
    requires Backed(before, hash, tweak, funcs, keys, g, per, per) && Wiped(before, after, Following(g))
    ensures Backed(after, hash, tweak, funcs, keys, Following(g), 0, per)
  {
    forall c, age | InTable(after, c) && 0 <= age <= 2 && Generation(after, c) == Older(Following(g), age)
      ensures Held(hash, tweak, |after|, funcs, keys, c, |keys| - age * per)
    {
      assert InTable(before, c);
      assert Generation(before, c) == Older(g, age - 1);
      assert Held(hash, tweak, |before|, funcs, keys, c, |keys| - per - (age - 1) * per);
    }
  }

  lemma BlankBacked(data: seq<Word>, hash: Hasher, tweak: nat, funcs: nat, per: nat)
    requires |data| > 0 && |data| % 2 == 0 && forall j :: 0 <= j < |data| ==> data[j] == Blank()
    ensures Backed(data, hash, tweak, funcs, [], 1, 0, per)
  {
    forall c | InTable(data, c) ensures Generation(data, c) == 0 {
      assert data[c.pos] == Blank() && data[c.pos + 1] == Blank();
    }
  }

  /** A cell is set exactly if it is a cell of a key that is still remembered. */
  lemma SetExactly(data: seq<Word>, hash: Hasher, tweak: nat, funcs: nat, keys: seq<Key>, g: nat, entries: nat,
                   per: nat, c: Cell)
    requires Remembers(data, hash, tweak, funcs, keys, g, entries, per)
    requires Backed(data, hash, tweak, funcs, keys, g, entries, per) && InTable(data, c)
    ensures Generation(data, c) != 0 <==> Held(hash, tweak, |data|, funcs, keys, c, |keys| - entries - 2 * per)
  {
    var from := |keys| - entries - 2 * per;
    if Generation(data, c) != 0 {
      var age := if Generation(data, c) == g then 0 else if Generation(data, c) == Previous(g) then 1 else 2;
      assert Generation(data, c) == Older(g, age);
      assert Held(hash, tweak, |data|, funcs, keys, c, |keys| - entries - age * per);
      assert age * per <= 2 * per;
    }
    if i, n :| 0 <= i < |keys| && from <= i && 0 <= n < funcs && CellOf(hash, tweak, |data|, keys[i], n) == c {
      assert Marked(data, hash, tweak, funcs, keys[i], g, 2);
      assert Within(Generation(data, c), g, 2);
    }
  }

  // ----- the filter

  class Filter {
    const hash: Hasher
    const hashFuncs: nat
    const perGeneration: nat

    var tweak: nat
    var data: seq<Word>
    var generation: nat
    var entries: nat
    ghost var keys: seq<Key>   // everything inserted since the last reset

    ghost predicate Valid()
      reads this
    {
      && perGeneration >= 1 && entries <= perGeneration
      && Remembers(data, hash, tweak, hashFuncs, keys, generation, entries, perGeneration)
      && Backed(data, hash, tweak, hashFuncs, keys, generation, entries, perGeneration)
    }

    /** `words` is half the size of the table, which the source derives from the false-positive rate. */
    constructor (nElements: nat, hash: Hasher, hashFuncs: nat, words: nat, tweak: nat)
      requires nElements >= 1 && words >= 1
      ensures Valid() && keys == [] && nElements <= 2 * perGeneration
    {
      this.hash := hash;
      this.hashFuncs := hashFuncs;
      perGeneration := (nElements + 1) / 2;
      data := seq(2 * words, _ => Blank());
      this.tweak := tweak;
      generation, entries, keys := 1, 0, [];
    }

    method Reset(newTweak: nat)
      requires Valid()
      modifies this
      ensures Valid() && keys == [] && tweak == newTweak
    {
      tweak := newTweak;
      generation, entries, keys := 1, 0, [];
      var size := |data|;
      for i := 0 to size
        invariant |data| == size && perGeneration >= 1 && keys == [] && generation == 1 && entries == 0
        invariant tweak == newTweak
        invariant forall j :: 0 <= j < i ==> data[j] == Blank()
      {
        data := data[i := Blank()];
      }
      BlankBacked(data, hash, tweak, hashFuncs, perGeneration);
    }

    method Insert(key: Key)
      requires Valid()
      modifies this
      ensures Valid() && keys == old(keys) + [key] && tweak == old(tweak)
    {
      hide Remembers;
      hide Backed;
      hide Marked;
      TableShape();
      if entries == perGeneration {
        ghost var before, g := data, generation;
        entries := 0;
        generation := generation + 1;
        if generation == 4 {
          generation := 1;
        }
        data := Wipe(data, generation);
        RememberRoll(before, data, hash, tweak, hashFuncs, keys, g, perGeneration);
        BackedRoll(before, data, hash, tweak, hashFuncs, keys, g, perGeneration);
      }
      BackedMore(data, hash, tweak, hashFuncs, keys, generation, entries, perGeneration, key);
      entries := entries + 1;
      MarkAll(key);
      RememberMore(data, hash, tweak, hashFuncs, keys, generation, entries - 1, perGeneration, key);
      keys := keys + [key];
    }

    lemma TableShape()
      requires Valid()
      ensures |data| > 0 && |data| % 2 == 0 && 1 <= generation <= 3
    {}

    /** Writes the current generation to every cell of the key, which counts as an entry already. */
    method MarkAll(key: Key)
      requires 1 <= entries && |data| > 0 && |data| % 2 == 0 && 1 <= generation <= 3
      requires Remembers(data, hash, tweak, hashFuncs, keys, generation, entries - 1, perGeneration)
      requires Backed(data, hash, tweak, hashFuncs, keys + [key], generation, entries, perGeneration)
      modifies `data
      ensures |data| == |old(data)| && Marked(data, hash, tweak, hashFuncs, key, generation, 0)
      ensures Remembers(data, hash, tweak, hashFuncs, keys, generation, entries - 1, perGeneration)
      ensures Backed(data, hash, tweak, hashFuncs, keys + [key], generation, entries, perGeneration)
    {
      hide Remembers;
      hide Backed;
      hide Generation;
      hide Write;
      for n := 0 to hashFuncs
        invariant |data| == |old(data)|
        invariant Remembers(data, hash, tweak, hashFuncs, keys, generation, entries - 1, perGeneration)
        invariant Backed(data, hash, tweak, hashFuncs, keys + [key], generation, entries, perGeneration)
        invariant forall m :: 0 <= m < n ==> Generation(data, CellOf(hash, tweak, |data|, key, m)) == generation
      {
        var c := CellOf(hash, tweak, |data|, key, n);
        ghost var before := data;
        forall m | 0 <= m <= n
          ensures Generation(Write(data, c, generation), CellOf(hash, tweak, |data|, key, m)) == generation
        {
          WriteCell(data, c, generation, CellOf(hash, tweak, |data|, key, m));
        }
        RememberWrite(data, hash, tweak, hashFuncs, keys, generation, entries - 1, perGeneration, c);
        BackedWrite(data, hash, tweak, hashFuncs, keys + [key], generation, entries, perGeneration, n);
        data := Write(data, c, generation);
      }
    }

    /** Whether every cell of the key is a cell of one of the last 2 * perGeneration + entries keys,
        which it is for each of these. */
    method Contains(key: Key) returns (found: bool)
      requires Valid()
      ensures |data| > 0 && |data| % 2 == 0
      ensures found <==> forall n :: 0 <= n < hashFuncs ==> RecentCell(CellOf(hash, tweak, |data|, key, n))
      ensures Recent(key) ==> found
    {
      hide Remembers;
      hide Backed;
      TableShape();
      if Recent(key) {
        RecentCells(key);
      }
      for n := 0 to hashFuncs
        invariant forall m :: 0 <= m < n ==> RecentCell(CellOf(hash, tweak, |data|, key, m))
      {
        var c := CellOf(hash, tweak, |data|, key, n);
        SetExactly(data, hash, tweak, hashFuncs, keys, generation, entries, perGeneration, c);
        if !(data[c.pos][c.bit] || data[c.pos + 1][c.bit]) {
          return false;
        }
      }
      return true;
    }

    ghost predicate Recent(key: Key)
      reads this
    {
      exists i :: 0 <= i < |keys| && |keys| - entries - 2 * perGeneration <= i && keys[i] == key
    }

    /** A cell of one of these keys. */
    ghost predicate RecentCell(c: Cell)
      requires |data| > 0 && |data| % 2 == 0
      reads this
    {
      Held(hash, tweak, |data|, hashFuncs, keys, c, |keys| - entries - 2 * perGeneration)
    }

    lemma RecentCells(key: Key)
      requires |data| > 0 && |data| % 2 == 0 && Recent(key)
      ensures forall n :: 0 <= n < hashFuncs ==> RecentCell(CellOf(hash, tweak, |data|, key, n))
    {
      var i :| 0 <= i < |keys| && |keys| - entries - 2 * perGeneration <= i && keys[i] == key;
    }
  }

  function Blank(): Word { seq(64, _ => false) }
}
