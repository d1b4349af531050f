/**
 The Bech32 checksum as the code computes it: six coefficients packed into one word, a step made of
 shifts and masks on that word.
 */
module Bech32Word {
  import opened Bech32Checksum

  type Word = bv32

  // ----- packing

  function Both(x: Word, y: Word): Word { x ^ y }

  function F25(s: Sym): Word { (s as Word) << 25 }
  function F20(s: Sym): Word { (s as Word) << 20 }
  function F15(s: Sym): Word { (s as Word) << 15 }
  function F10(s: Sym): Word { (s as Word) << 10 }
  function F5(s: Sym): Word { (s as Word) << 5 }
  function F0(s: Sym): Word { s as Word }

  function Packed(r: Rem): Word {
    F25(r.c0) | F20(r.c1) | F15(r.c2) | F10(r.c3) | F5(r.c4) | F0(r.c5)
  }

  lemma PackedIs(r: Rem)
    ensures Packed(r) == Both(Both(Both(Both(Both(F25(r.c0), F20(r.c1)), F15(r.c2)), F10(r.c3)), F5(r.c4)), F0(r.c5))
  {}

  lemma BothAssoc(a: Word, b: Word, c: Word)
    ensures Both(Both(a, b), c) == Both(a, Both(b, c))
  {}

  lemma BothComm(a: Word, b: Word)
    ensures Both(a, b) == Both(b, a)
  {}

  lemma BothPairs(a: Word, b: Word, c: Word, d: Word)
    ensures Both(Both(a, b), Both(c, d)) == Both(Both(a, c), Both(b, d))
  {
    hide Both;
    BothAssoc(a, b, Both(c, d));
    BothAssoc(b, c, d);
    BothComm(b, c);
    BothAssoc(c, b, d);
    BothAssoc(a, c, Both(b, d));
  }

  lemma FieldsXor(s: Sym, t: Sym)
    ensures F25(s ^ t) == Both(F25(s), F25(t)) && F20(s ^ t) == Both(F20(s), F20(t))
    ensures F15(s ^ t) == Both(F15(s), F15(t)) && F10(s ^ t) == Both(F10(s), F10(t))
    ensures F5(s ^ t) == Both(F5(s), F5(t)) && F0(s ^ t) == Both(F0(s), F0(t))
  {}

  lemma PackedXor(a: Rem, b: Rem)
    ensures Packed(Xor(a, b)) == Both(Packed(a), Packed(b))
  {
    hide *;
    PackedIs(a);
    PackedIs(b);
    PackedIs(Xor(a, b));
    XorIs(a, b);
    FieldsXor(a.c0, b.c0);
    FieldsXor(a.c1, b.c1);
    FieldsXor(a.c2, b.c2);
    FieldsXor(a.c3, b.c3);
    FieldsXor(a.c4, b.c4);
    FieldsXor(a.c5, b.c5);
    var a1, b1 := Both(F25(a.c0), F20(a.c1)), Both(F25(b.c0), F20(b.c1));
    BothPairs(F25(a.c0), F20(a.c1), F25(b.c0), F20(b.c1));
    var a2, b2 := Both(a1, F15(a.c2)), Both(b1, F15(b.c2));
    BothPairs(a1, F15(a.c2), b1, F15(b.c2));
    var a3, b3 := Both(a2, F10(a.c3)), Both(b2, F10(b.c3));
    BothPairs(a2, F10(a.c3), b2, F10(b.c3));
    var a4, b4 := Both(a3, F5(a.c4)), Both(b3, F5(b.c4));
    BothPairs(a3, F5(a.c4), b3, F5(b.c4));
    BothPairs(a4, F0(a.c5), b4, F0(b.c5));
  }

  lemma XorIs(a: Rem, b: Rem)
    ensures Xor(a, b) == Rem(a.c0 ^ b.c0, a.c1 ^ b.c1, a.c2 ^ b.c2, a.c3 ^ b.c3, a.c4 ^ b.c4, a.c5 ^ b.c5)
  {}

  // ----- what the code reads and writes

  lemma PackedTop(r: Rem)
    ensures Packed(r) >> 25 == F0(r.c0)
  {}

  lemma PackedShift(r: Rem, v: Sym)
    ensures ((Packed(r) & 0x1ffffff) << 5) ^ F0(v) == Packed(Rem(r.c1, r.c2, r.c3, r.c4, r.c5, v))
  {}

  lemma PackedWords()
    ensures Packed(K1) == 0x3b6a57b2 && Packed(K2) == 0x26508e6d && Packed(K4) == 0x1ea119fa
    ensures Packed(K8) == 0x3d4233dd && Packed(K16) == 0x2a1462b3 && Packed(ONE) == 1
  {}

  lemma TopBits(s: Sym)
    ensures F0(s) & 1 != 0 <==> s & 1 != 0
    ensures F0(s) & 2 != 0 <==> s & 2 != 0
    ensures F0(s) & 4 != 0 <==> s & 4 != 0
    ensures F0(s) & 8 != 0 <==> s & 8 != 0
    ensures F0(s) & 16 != 0 <==> s & 16 != 0
  {}

  lemma PackedFlip(r: Rem)
    ensures Packed(r) ^ 1 == Packed(Xor(r, ONE))
  {
    hide Packed;
    hide Xor;
    PackedXor(r, ONE);
    PackedWords();
  }

  lemma Masked(w: Word)
    ensures w & 31 < 32
  {}

  // ----- the groups of five bits, from the top

  function Group0(w: Word): Sym {
    Masked(w >> 25);
    ((w >> 25) & 31) as Sym
  }

  function Group1(w: Word): Sym {
    Masked(w >> 20);
    ((w >> 20) & 31) as Sym
  }

  function Group2(w: Word): Sym {
    Masked(w >> 15);
    ((w >> 15) & 31) as Sym
  }

  function Group3(w: Word): Sym {
    Masked(w >> 10);
    ((w >> 10) & 31) as Sym
  }

  function Group4(w: Word): Sym {
    Masked(w >> 5);
    ((w >> 5) & 31) as Sym
  }

  function Group5(w: Word): Sym {
    Masked(w);
    (w & 31) as Sym
  }

  lemma Group0Is(r: Rem)
    ensures Group0(Packed(r)) == r.c0
  {}

  lemma Group1Is(r: Rem)
    ensures Group1(Packed(r)) == r.c1
  {}

  lemma Group2Is(r: Rem)
    ensures Group2(Packed(r)) == r.c2
  {}

  lemma Group3Is(r: Rem)
    ensures Group3(Packed(r)) == r.c3
  {}

  lemma Group4Is(r: Rem)
    ensures Group4(Packed(r)) == r.c4
  {}

  lemma Group5Is(r: Rem)
    ensures Group5(Packed(r)) == r.c5
  {}

  /** Reading the groups back gives the coefficients. */
  function Unpacked(w: Word): Rem {
    Rem(Group0(w), Group1(w), Group2(w), Group3(w), Group4(w), Group5(w))
  }

  lemma Unpacking(r: Rem)
    ensures Unpacked(Packed(r)) == r
  {
    hide Packed;
    hide Group0;
    hide Group1;
    hide Group2;
    hide Group3;
    hide Group4;
    hide Group5;
    Group0Is(r);
    Group1Is(r);
    Group2Is(r);
    Group3Is(r);
    Group4Is(r);
    Group5Is(r);
  }

  lemma PackedOne(r: Rem)
    ensures Packed(r) == 1 <==> r == ONE
  {
    hide *;
    PackedWords();
    Unpacking(r);
    Unpacking(ONE);
  }

  // ----- the loop

  function AddBit(q: Rem, bit: bool, k: Rem): Rem {
    if bit then Xor(q, k) else q
  }

  /** Adds a word if a bit is set. */
  method AddIf(bit: bool, c: Word, word: Word, ghost q: Rem, ghost k: Rem) returns (d: Word)
    requires c == Packed(q) && word == Packed(k)
    ensures d == Packed(AddBit(q, bit, k))
  {
    hide Packed;
    hide Xor;
    PackedXor(q, k);
    d := c;
    if bit {
      d := d ^ word;
    }
  }

  /** One more coefficient. */
  method Advance(before: Word, v: Sym, ghost r: Rem) returns (c: Word)
    requires before == Packed(r)
    ensures c == Packed(Step(r, v))
  {
    hide *;
    PackedTop(r);
    TopBits(r.c0);
    PackedShift(r, v);
    PackedWords();
    StepByBits(r, v);
    var c0 := before >> 25;
    c := ((before & 0x1ffffff) << 5) ^ F0(v);
    ghost var q := Rem(r.c1, r.c2, r.c3, r.c4, r.c5, v);
    ghost var q1 := AddBit(q, r.c0 & 1 != 0, K1);
    ghost var q2 := AddBit(q1, r.c0 & 2 != 0, K2);
    ghost var q4 := AddBit(q2, r.c0 & 4 != 0, K4);
    ghost var q8 := AddBit(q4, r.c0 & 8 != 0, K8);
    c := AddIf(c0 & 1 != 0, c, 0x3b6a57b2, q, K1);
    c := AddIf(c0 & 2 != 0, c, 0x26508e6d, q1, K2);
    c := AddIf(c0 & 4 != 0, c, 0x1ea119fa, q2, K4);
    c := AddIf(c0 & 8 != 0, c, 0x3d4233dd, q4, K8);
    c := AddIf(c0 & 16 != 0, c, 0x2a1462b3, q8, K16);
  }

  /** A step, one bit of the leading coefficient after the other. */
  lemma StepByBits(r: Rem, v: Sym)
    ensures var q := Rem(r.c1, r.c2, r.c3, r.c4, r.c5, v); var c := r.c0;
      Step(r, v) == AddBit(AddBit(AddBit(AddBit(AddBit(q, c & 1 != 0, K1), c & 2 != 0, K2), c & 4 != 0, K4),
                           c & 8 != 0, K8), c & 16 != 0, K16)
  {
    var q, c := Rem(r.c1, r.c2, r.c3, r.c4, r.c5, v), r.c0;
    Regroup(q, If(c & 1 != 0, K1), If(c & 2 != 0, K2), If(c & 4 != 0, K4), If(c & 8 != 0, K8), If(c & 16 != 0, K16));
    XorZero();
    hide Xor;
  }

  method PolyMod(v: seq<Sym>) returns (c: Word)
    ensures c == Packed(Remainder(ONE, v))
  {
    hide Step;
    hide Packed;
    PackedWords();
    c := 1;
    for i := 0 to |v|
      invariant c == Packed(Remainder(ONE, v[..i]))
    {
      assert v[..i + 1][..i] == v[..i];
      c := Advance(c, v[i], Remainder(ONE, v[..i]));
    }
    assert v[..|v|] == v;
  }
}
