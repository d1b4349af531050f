/**
 The Bech32 checksum of BIP 173: the remainder of a polynomial over GF(32) modulo the generator.
 Its six five-bit coefficients are kept apart here, highest first, so that every exclusive or acts on
 one coefficient at a time; Bech32Word has the word into which the code packs them.
 */
module Bech32Checksum {

  /** A five-bit symbol, an element of GF(32). */
  type Sym = bv5

  datatype Rem = Rem(c0: Sym, c1: Sym, c2: Sym, c3: Sym, c4: Sym, c5: Sym)

  const ZERO := Rem(0, 0, 0, 0, 0, 0)
  const ONE := Rem(0, 0, 0, 0, 0, 1)

  /** x^6 modulo the generator, times 1, 2, 4, 8 and 16. */
  const K1 := Rem(29, 22, 20, 21, 29, 18)
  const K2 := Rem(19, 5, 1, 3, 19, 13)
  const K4 := Rem(15, 10, 2, 6, 15, 26)
  const K8 := Rem(30, 20, 4, 12, 30, 29)
  const K16 := Rem(21, 1, 8, 24, 21, 19)

  function Xor(a: Rem, b: Rem): Rem {
    Rem(a.c0 ^ b.c0, a.c1 ^ b.c1, a.c2 ^ b.c2, a.c3 ^ b.c3, a.c4 ^ b.c4, a.c5 ^ b.c5)
  }

  function If(b: bool, r: Rem): Rem {
    if b then r else ZERO
  }

  /** The leading coefficient times x^6, modulo the generator. */
  function Fold(c: Sym): Rem {
    Xor(Xor(Xor(Xor(If(c & 1 != 0, K1), If(c & 2 != 0, K2)), If(c & 4 != 0, K4)), If(c & 8 != 0, K8)),
        If(c & 16 != 0, K16))
  }

  /** One more coefficient: multiplication by x, then addition. */
  function Step(c: Rem, v: Sym): Rem {
    Xor(Rem(c.c1, c.c2, c.c3, c.c4, c.c5, v), Fold(c.c0))
  }

  function Remainder(c: Rem, v: seq<Sym>): Rem {
    if v == [] then c else Step(Remainder(c, v[..|v| - 1]), v[|v| - 1])
  }

  // ----- addition of remainders

  lemma XorAssoc(a: Rem, b: Rem, c: Rem)
    ensures Xor(Xor(a, b), c) == Xor(a, Xor(b, c))
  {}

  lemma XorCommutes(a: Rem, b: Rem)
    ensures Xor(a, b) == Xor(b, a)
  {}

  lemma XorZero()
    ensures forall a :: Xor(a, ZERO) == a
  {}

  lemma XorSelf(a: Rem)
    ensures Xor(a, a) == ZERO
  {}

  /** Two remainders are equal exactly when their sum is zero. */
  lemma XorEqual(a: Rem, b: Rem)
    ensures Xor(a, b) == ZERO <==> a == b
  {
    XorSelf(a);
    if Xor(a, b) == ZERO {
      XorAssoc(a, a, b);
      XorZero();
      XorCommutes(ZERO, b);
      hide Xor;
      assert Xor(Xor(a, a), b) == Xor(a, ZERO);
    }
  }

  lemma Regroup(x: Rem, a: Rem, b: Rem, c: Rem, d: Rem, e: Rem)
    ensures Xor(Xor(Xor(Xor(Xor(x, a), b), c), d), e) == Xor(x, Xor(Xor(Xor(Xor(a, b), c), d), e))
  {
    hide Xor;
    XorAssoc(x, a, b);
    XorAssoc(x, Xor(a, b), c);
    XorAssoc(x, Xor(Xor(a, b), c), d);
    XorAssoc(x, Xor(Xor(Xor(a, b), c), d), e);
  }

  lemma Pairs(a: Rem, b: Rem, c: Rem, d: Rem)
    ensures Xor(Xor(a, b), Xor(c, d)) == Xor(Xor(a, c), Xor(b, d))
  {
    hide Xor;
    XorAssoc(a, b, Xor(c, d));
    XorAssoc(b, c, d);
    XorCommutes(b, c);
    XorAssoc(c, b, d);
    XorAssoc(a, c, Xor(b, d));
  }

  // ----- the step is linear and loses nothing

  lemma IfLinear(p: bool, q: bool, k: Rem)
    ensures If(p != q, k) == Xor(If(p, k), If(q, k))
  {
    XorZero();
    XorSelf(k);
    XorCommutes(k, ZERO);
    hide Xor;
  }

  lemma BitsLinear(p: Sym, q: Sym)
    ensures (p ^ q) & 1 != 0 <==> (p & 1 != 0) != (q & 1 != 0)
    ensures (p ^ q) & 2 != 0 <==> (p & 2 != 0) != (q & 2 != 0)
    ensures (p ^ q) & 4 != 0 <==> (p & 4 != 0) != (q & 4 != 0)
    ensures (p ^ q) & 8 != 0 <==> (p & 8 != 0) != (q & 8 != 0)
    ensures (p ^ q) & 16 != 0 <==> (p & 16 != 0) != (q & 16 != 0)
  {}

  lemma FoldLinear(p: Sym, q: Sym)
    ensures Fold(p ^ q) == Xor(Fold(p), Fold(q))
  {
    hide Xor;
    hide If;
    BitsLinear(p, q);
    var r := p ^ q;
    FiveBits(p & 1 != 0, p & 2 != 0, p & 4 != 0, p & 8 != 0, p & 16 != 0,
             q & 1 != 0, q & 2 != 0, q & 4 != 0, q & 8 != 0, q & 16 != 0);
  }

  lemma FiveBits(p1: bool, p2: bool, p4: bool, p8: bool, p16: bool, q1: bool, q2: bool, q4: bool, q8: bool, q16: bool)
    ensures Xor(Xor(Xor(Xor(If(p1 != q1, K1), If(p2 != q2, K2)), If(p4 != q4, K4)), If(p8 != q8, K8)),
        If(p16 != q16, K16)) ==
            Xor(Xor(Xor(Xor(Xor(If(p1, K1), If(p2, K2)), If(p4, K4)), If(p8, K8)), If(p16, K16)),
                Xor(Xor(Xor(Xor(If(q1, K1), If(q2, K2)), If(q4, K4)), If(q8, K8)), If(q16, K16)))
  {
    hide Xor;
    hide If;
    IfLinear(p1, q1, K1);
    IfLinear(p2, q2, K2);
    IfLinear(p4, q4, K4);
    IfLinear(p8, q8, K8);
    IfLinear(p16, q16, K16);
    Pairs(If(p1, K1), If(q1, K1), If(p2, K2), If(q2, K2));
    var p12, q12 := Xor(If(p1, K1), If(p2, K2)), Xor(If(q1, K1), If(q2, K2));
    Pairs(p12, q12, If(p4, K4), If(q4, K4));
    var p124, q124 := Xor(p12, If(p4, K4)), Xor(q12, If(q4, K4));
    Pairs(p124, q124, If(p8, K8), If(q8, K8));
    Pairs(Xor(p124, If(p8, K8)), Xor(q124, If(q8, K8)), If(p16, K16), If(q16, K16));
  }

  lemma FoldInjective(c: Sym)
    ensures Fold(0) == ZERO
    ensures c != 0 ==> Fold(c).c5 != 0
  {}

  lemma StepLinear(a: Rem, b: Rem, u: Sym, v: Sym)
    ensures Step(Xor(a, b), u ^ v) == Xor(Step(a, u), Step(b, v))
  {
    hide Fold;
    hide Xor;
    var x := Xor(a, b);
    FoldLinear(a.c0, b.c0);
    XorShifted(a, b, u, v);
    Pairs(Rem(a.c1, a.c2, a.c3, a.c4, a.c5, u), Fold(a.c0), Rem(b.c1, b.c2, b.c3, b.c4, b.c5, v), Fold(b.c0));
  }

  lemma XorShifted(a: Rem, b: Rem, u: Sym, v: Sym)
    ensures var x := Xor(a, b);
      && x.c0 == a.c0 ^ b.c0
      && Rem(x.c1, x.c2, x.c3, x.c4, x.c5, u ^ v) ==
         Xor(Rem(a.c1, a.c2, a.c3, a.c4, a.c5, u), Rem(b.c1, b.c2, b.c3, b.c4, b.c5, v))
  {}

  /** While the leading coefficient is zero a step only moves the others up. */
  lemma StepShort(d: Rem, v: Sym)
    requires d.c0 == 0
    ensures Step(d, v) == Rem(d.c1, d.c2, d.c3, d.c4, d.c5, v)
  {
    FoldInjective(0);
    XorZero();
    hide Fold;
    hide Xor;
  }

  lemma StepKeepsNonzero(d: Rem)
    requires d != ZERO
    ensures Step(d, 0) != ZERO
  {
    FoldInjective(d.c0);
    if d.c0 == 0 {
      StepShort(d, 0);
      hide Step;
    } else {
      hide Fold;
      assert Step(d, 0).c5 == Fold(d.c0).c5;
    }
  }

  // ----- whole lists

  lemma {:induction false} RemainderConcat(c: Rem, a: seq<Sym>, b: seq<Sym>)
    ensures Remainder(c, a + b) == Remainder(Remainder(c, a), b)
  {
    hide Step;
    if b == [] {
      assert a + b == a;
    } else {
      RemainderConcat(c, a, b[..|b| - 1]);
      assert (a + b)[..|a + b| - 1] == a + b[..|b| - 1];
    }
  }

  function XorSeq(x: seq<Sym>, y: seq<Sym>): (r: seq<Sym>)
    requires |x| == |y|
    ensures |r| == |x|
  {
    if x == [] then [] else XorSeq(x[..|x| - 1], y[..|y| - 1]) + [x[|x| - 1] ^ y[|y| - 1]]
  }

  lemma {:induction false} XorSeqAt(x: seq<Sym>, y: seq<Sym>, i: nat)
    requires |x| == |y| && i < |x|
    ensures XorSeq(x, y)[i] == x[i] ^ y[i]
  {
    if i < |x| - 1 {
      XorSeqAt(x[..|x| - 1], y[..|y| - 1], i);
    }
  }

  /** The remainder of a sum is the sum of the remainders. */
  lemma {:induction false} RemainderLinear(c: Rem, d: Rem, x: seq<Sym>, y: seq<Sym>)
    requires |x| == |y|
    ensures Xor(Remainder(c, x), Remainder(d, y)) == Remainder(Xor(c, d), XorSeq(x, y))
  {
    hide Step;
    hide Xor;
    hide Remainder;
    hide XorSeq;
    if x != [] {
      var n := |x| - 1;
      RemainderLinear(c, d, x[..n], y[..n]);
      StepLinear(Remainder(c, x[..n]), Remainder(d, y[..n]), x[n], y[n]);
      XorSeqLast(x, y);
      RemainderLast(c, x);
      RemainderLast(d, y);
      RemainderLast(Xor(c, d), XorSeq(x, y));
    } else {
      NoSymbols(c);
      NoSymbols(d);
      NoSymbols(Xor(c, d));
      assert y == [] && XorSeq(x, y) == [];
    }
  }

  lemma NoSymbols(c: Rem)
    ensures Remainder(c, []) == c
  {}

  lemma RemainderLast(c: Rem, v: seq<Sym>)
    requires v != []
    ensures Remainder(c, v) == Step(Remainder(c, v[..|v| - 1]), v[|v| - 1])
  {}

  lemma XorSeqLast(x: seq<Sym>, y: seq<Sym>)
    requires |x| == |y| > 0
    ensures XorSeq(x, y)[..|x| - 1] == XorSeq(x[..|x| - 1], y[..|x| - 1])
    ensures XorSeq(x, y)[|x| - 1] == x[|x| - 1] ^ y[|x| - 1]
  {}

  ghost predicate Zeros(e: seq<Sym>) {
    forall i :: 0 <= i < |e| ==> e[i] == 0
  }

  lemma {:induction false} ZerosKeep(d: Rem, e: seq<Sym>)
    requires Zeros(e)
    ensures Remainder(d, e) == ZERO <==> d == ZERO
  {
    hide Step;
    if e != [] {
      var n := |e| - 1;
      ZerosKeep(d, e[..n]);
      var r := Remainder(d, e[..n]);
      StepShort(ZERO, 0);
      if r != ZERO {
        StepKeepsNonzero(r);
      }
    }
  }

  /** Six symbols after a zero remainder are the remainder. */
  lemma SixSymbols(e: seq<Sym>)
    requires |e| == 6
    ensures Remainder(ZERO, e) == Rem(e[0], e[1], e[2], e[3], e[4], e[5])
  {
    hide Step;
    One(ZERO, e, 0);
    var a := Rem(0, 0, 0, 0, 0, e[0]);
    One(a, e, 1);
    var b := Rem(0, 0, 0, 0, e[0], e[1]);
    One(b, e, 2);
    var c := Rem(0, 0, 0, e[0], e[1], e[2]);
    One(c, e, 3);
    var d := Rem(0, 0, e[0], e[1], e[2], e[3]);
    One(d, e, 4);
    One(Rem(0, e[0], e[1], e[2], e[3], e[4]), e, 5);
    assert e[..6] == e;
    assert e[..0] == [];
  }

  lemma One(r: Rem, e: seq<Sym>, i: nat)
    requires i < |e| && r.c0 == 0
    ensures Remainder(ZERO, e[..i]) == r ==> Remainder(ZERO, e[..i + 1]) == Rem(r.c1, r.c2, r.c3, r.c4, r.c5, e[i])
  {
    hide Step;
    StepShort(r, e[i]);
    assert e[..i + 1][..i] == e[..i];
  }

  lemma XorSymEqual(u: Sym, v: Sym)
    ensures u ^ v == 0 <==> u == v
  {}

  /** Up to six symbols after a zero remainder leave it zero only if they are all zero. */
  lemma ShortListShows(e: seq<Sym>)
    requires |e| <= 6 && Remainder(ZERO, e) == ZERO
    ensures Zeros(e)
  {
    hide Remainder;
    var z := seq(6 - |e|, _ => 0);
    RemainderConcat(ZERO, z, e);
    ZerosKeep(ZERO, z);
    SixSymbols(z + e);
    AllZero(z + e);
    forall i | 0 <= i < |e| ensures e[i] == 0 {
      assert e[i] == (z + e)[|z| + i];
    }
  }

  /** Any change confined to six consecutive symbols changes the remainder, whatever the length. */
  lemma DetectsBurst(x: seq<Sym>, y: seq<Sym>, p: nat)
    requires |x| == |y|
    requires forall i :: 0 <= i < |x| && (i < p || p + 6 <= i) ==> x[i] == y[i]
    ensures Remainder(ONE, x) == Remainder(ONE, y) ==> x == y
  {
    hide Step;
    hide Xor;
    hide Remainder;
    var e := XorSeq(x, y);
    forall i | 0 <= i < |x| ensures e[i] == x[i] ^ y[i] && (e[i] == 0 <==> x[i] == y[i]) {
      XorSeqAt(x, y, i);
      XorSymEqual(x[i], y[i]);
    }
    RemainderLinear(ONE, ONE, x, y);
    XorSelf(ONE);
    XorEqual(Remainder(ONE, x), Remainder(ONE, y));
    if Remainder(ONE, x) == Remainder(ONE, y) {
      BurstZero(e, p);
      assert forall i :: 0 <= i < |x| ==> x[i] == y[i];
    }
  }

  /** A difference confined to six consecutive symbols shows in the remainder unless it is zero. */
  lemma BurstZero(e: seq<Sym>, p: nat)
    requires Remainder(ZERO, e) == ZERO && forall i :: 0 <= i < |e| && (i < p || p + 6 <= i) ==> e[i] == 0
    ensures Zeros(e)
  {
    hide Remainder;
    var lo := if p < |e| then p else |e|;
    var hi := if p + 6 < |e| then p + 6 else |e|;
    var a, b, c := e[..lo], e[lo..hi], e[hi..];
    assert e == a + b + c;
    RemainderConcat(ZERO, a + b, c);
    RemainderConcat(ZERO, a, b);
    ZerosKeep(ZERO, a);
    ZerosKeep(Remainder(ZERO, b), c);
    ShortListShows(b);
    forall i | 0 <= i < |e| ensures e[i] == 0 {
      if lo <= i < hi {
        assert e[i] == b[i - lo];
      }
    }
  }

  lemma AllZero(b: seq<Sym>)
    requires |b| == 6 && Rem(b[0], b[1], b[2], b[3], b[4], b[5]) == ZERO
    ensures Zeros(b)
  {}

  /** Different remainders stay different however many equal symbols follow. */
  lemma RemainderInjective(c: Rem, d: Rem, v: seq<Sym>)
    ensures Remainder(c, v) == Remainder(d, v) <==> c == d
  {
    hide Step;
    hide Xor;
    hide Remainder;
    var e := XorSeq(v, v);
    forall i | 0 <= i < |e| ensures e[i] == 0 {
      XorSeqAt(v, v, i);
      XorSymEqual(v[i], v[i]);
    }
    RemainderLinear(c, d, v, v);
    ZerosKeep(Xor(c, d), e);
    XorEqual(c, d);
    XorEqual(Remainder(c, v), Remainder(d, v));
  }
}
