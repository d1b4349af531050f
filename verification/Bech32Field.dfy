/**
 The arithmetic behind the Bech32 checksum: products in GF(32), polynomials over it, and that the
 checksum is the remainder on division by the generator.
 */
module Bech32Field {
  import opened Bech32Checksum

  // ----- GF(32)

  function Plus(a: Sym, b: Sym): Sym { a ^ b }

  lemma PlusLaws(a: Sym, b: Sym, c: Sym)
    ensures Plus(Plus(a, b), c) == Plus(a, Plus(b, c)) && Plus(a, Plus(b, a)) == b
    ensures Plus(0, a) == a && Plus(a, 0) == a && Plus(a, a) == 0
  {}

  lemma PlusCommutes(a: Sym, b: Sym)
    ensures Plus(a, b) == Plus(b, a)
  {}

  lemma PlusPairs(a: Sym, b: Sym, c: Sym, d: Sym)
    ensures Plus(Plus(a, b), Plus(c, d)) == Plus(Plus(a, c), Plus(b, d))
  {}

  /** Multiplication by a, where a^5 = a^3 + 1. */
  function Twice(s: Sym): Sym {
    (s << 1) ^ (if s & 16 != 0 then 9 else 0)
  }

  function Bit(s: Sym, mask: Sym, t: Sym): Sym {
    if s & mask != 0 then t else 0
  }

  /** The product: the bits of the first factor say which multiples of the second to add. */
  function Mul(s: Sym, t: Sym): Sym {
    var t2 := Twice(t);
    var t4 := Twice(t2);
    var t8 := Twice(t4);
    Plus(Plus(Plus(Plus(Bit(s, 1, t), Bit(s, 2, t2)), Bit(s, 4, t4)), Bit(s, 8, t8)), Bit(s, 16, Twice(t8)))
  }

  lemma MulUnits(s: Sym)
    ensures Mul(1, s) == s == Mul(s, 1) && Mul(0, s) == 0 == Mul(s, 0)
  {}

  lemma MulCommutes(s: Sym, t: Sym)
    ensures Mul(s, t) == Mul(t, s)
  {}

  lemma BitAdds(s: Sym, t: Sym, mask: Sym, u: Sym)
    requires (s ^ t) & mask != 0 <==> (s & mask != 0) != (t & mask != 0)
    ensures Bit(Plus(s, t), mask, u) == Plus(Bit(s, mask, u), Bit(t, mask, u))
  {
    PlusLaws(u, 0, 0);
    PlusLaws(0, 0, 0);
  }

  /** Products are distributive ... */
  lemma MulDistributes(s: Sym, t: Sym, u: Sym)
    ensures Mul(Plus(s, t), u) == Plus(Mul(s, u), Mul(t, u))
  {
    BitsLinear(s, t);
    var u2 := Twice(u);
    var u4 := Twice(u2);
    var u8 := Twice(u4);
    var u16 := Twice(u8);
    BitAdds(s, t, 1, u);
    BitAdds(s, t, 2, u2);
    BitAdds(s, t, 4, u4);
    BitAdds(s, t, 8, u8);
    BitAdds(s, t, 16, u16);
    MulIs(Plus(s, t), u);
    MulIs(s, u);
    MulIs(t, u);
    Interleave(Bit(s, 1, u), Bit(s, 2, u2), Bit(s, 4, u4), Bit(s, 8, u8), Bit(s, 16, u16),
               Bit(t, 1, u), Bit(t, 2, u2), Bit(t, 4, u4), Bit(t, 8, u8), Bit(t, 16, u16));
    hide *;
  }

  lemma MulIs(s: Sym, t: Sym)
    ensures var t2 := Twice(t); var t4 := Twice(t2); var t8 := Twice(t4);
      Mul(s, t) ==
      Plus(Plus(Plus(Plus(Bit(s, 1, t), Bit(s, 2, t2)), Bit(s, 4, t4)), Bit(s, 8, t8)), Bit(s, 16, Twice(t8)))
  {
    hide Plus;
    hide Bit;
    hide Twice;
  }

  lemma Interleave(a: Sym, b: Sym, c: Sym, d: Sym, e: Sym, p: Sym, q: Sym, r: Sym, s: Sym, t: Sym)
    ensures Plus(Plus(Plus(Plus(Plus(a, p), Plus(b, q)), Plus(c, r)), Plus(d, s)), Plus(e, t)) ==
            Plus(Plus(Plus(Plus(Plus(a, b), c), d), e), Plus(Plus(Plus(Plus(p, q), r), s), t))
  {
    hide Plus;
    PlusPairs(a, p, b, q);
    PlusPairs(Plus(a, b), Plus(p, q), c, r);
    PlusPairs(Plus(Plus(a, b), c), Plus(Plus(p, q), r), d, s);
    PlusPairs(Plus(Plus(Plus(a, b), c), d), Plus(Plus(Plus(p, q), r), s), e, t);
  }

  lemma MulTwice(s: Sym, t: Sym)
    ensures Mul(Twice(s), t) == Twice(Mul(s, t))
  {}

  lemma MulBit(s: Sym, mask: Sym, t: Sym, u: Sym)
    ensures Mul(Bit(s, mask, t), u) == Bit(s, mask, Mul(t, u))
  {
    hide Mul;
    MulUnits(u);
  }

  lemma FiveTerms(a: Sym, b: Sym, c: Sym, d: Sym, e: Sym, u: Sym)
    ensures Mul(Plus(Plus(Plus(Plus(a, b), c), d), e), u) ==
            Plus(Plus(Plus(Plus(Mul(a, u), Mul(b, u)), Mul(c, u)), Mul(d, u)), Mul(e, u))
  {
    hide Plus;
    hide Mul;
    MulDistributes(a, b, u);
    MulDistributes(Plus(a, b), c, u);
    MulDistributes(Plus(Plus(a, b), c), d, u);
    MulDistributes(Plus(Plus(Plus(a, b), c), d), e, u);
  }

  /** ... and associative. */
  lemma MulAssociates(s: Sym, t: Sym, u: Sym)
    ensures Mul(Mul(s, t), u) == Mul(s, Mul(t, u))
  {
    hide *;
    var t2 := Twice(t);
    var t4 := Twice(t2);
    var t8 := Twice(t4);
    var t16 := Twice(t8);
    MulIs(s, t);
    MulIs(s, Mul(t, u));
    FiveTerms(Bit(s, 1, t), Bit(s, 2, t2), Bit(s, 4, t4), Bit(s, 8, t8), Bit(s, 16, t16), u);
    MulTwice(t, u);
    MulTwice(t2, u);
    MulTwice(t4, u);
    MulTwice(t8, u);
    MulBit(s, 1, t, u);
    MulBit(s, 2, t2, u);
    MulBit(s, 4, t4, u);
    MulBit(s, 8, t8, u);
    MulBit(s, 16, t16, u);
  }

  /** The example in the description of the checksum. */
  lemma MulExample()
    ensures Mul(5, 26) == 9
  {}

  function Scale(s: Sym, r: Rem): Rem {
    Rem(Mul(s, r.c0), Mul(s, r.c1), Mul(s, r.c2), Mul(s, r.c3), Mul(s, r.c4), Mul(s, r.c5))
  }

  /** The five words of the code are multiples of the first. */
  lemma WordsAreMultiples()
    ensures K2 == Scale(2, K1) && K4 == Scale(4, K1) && K8 == Scale(8, K1) && K16 == Scale(16, K1)
  {}

  /** What is folded back in is the leading coefficient times x^6 modulo the generator. */
  lemma FoldIsProduct(c: Sym)
    ensures Fold(c) == Scale(c, K1)
  {}

  // ----- polynomials, as lists of coefficients with the highest first

  function Zeroes(n: nat): (z: seq<Sym>)
    ensures |z| == n && Zeros(z)
  {
    seq(n, _ => 0)
  }

  function Coefficients(r: Rem): (c: seq<Sym>)
    ensures |c| == 6
  {
    [r.c0, r.c1, r.c2, r.c3, r.c4, r.c5]
  }

  /** A multiple of the generator, whose leading coefficient is one and whose others are those of K1. */
  function Generator(s: Sym): (c: seq<Sym>)
    ensures |c| == 7
  {
    [s] + Coefficients(Scale(s, K1))
  }

  /** A multiple of the generator below `n - 6` zeros. */
  function Lowered(n: nat, s: Sym): (r: seq<Sym>)
    requires n >= 6
    ensures |r| == n + 1
  {
    hide Generator;
    Zeroes(n - 6) + Generator(s)
  }

  /** A polynomial times x, plus a multiple of the generator. */
  function AddMultiple(p: seq<Sym>, s: Sym): (r: seq<Sym>)
    requires |p| >= 6
    ensures |r| == |p| + 1
  {
    hide Lowered;
    XorSeq(p + [0], Lowered(|p|, s))
  }

  /** The product of a polynomial and the generator. */
  function TimesGenerator(q: seq<Sym>): (p: seq<Sym>)
    ensures |p| == |q| + 6
  {
    hide AddMultiple;
    if q == [] then Zeroes(6) else AddMultiple(TimesGenerator(q[..|q| - 1]), q[|q| - 1])
  }

  /** A quotient times the generator, plus a remainder. */
  function Combine(q: seq<Sym>, r: Rem): (p: seq<Sym>)
    ensures |p| == |q| + 6
  {
    XorSeq(TimesGenerator(q), Zeroes(|q|) + Coefficients(r))
  }

  lemma PadRemainder(n: nat, r: Rem)
    ensures Remainder(ZERO, Zeroes(n) + Coefficients(r)) == r
  {
    hide Step;
    hide Remainder;
    RemainderConcat(ZERO, Zeroes(n), Coefficients(r));
    ZerosKeep(ZERO, Zeroes(n));
    SixSymbols(Coefficients(r));
  }

  /** A multiple of the generator by a constant leaves nothing. */
  lemma GeneratorVanishes(n: nat, s: Sym)
    ensures Remainder(ZERO, Zeroes(n) + Generator(s)) == ZERO
  {
    hide Step;
    hide Remainder;
    hide Scale;
    hide Xor;
    var k := Scale(s, K1);
    var top := Rem(s, k.c0, k.c1, k.c2, k.c3, k.c4);
    var p := Zeroes(n) + Generator(s);
    assert p == Zeroes(n) + Coefficients(top) + [k.c5];
    PadRemainder(n, top);
    RemainderLast(ZERO, p);
    assert p[..|p| - 1] == Zeroes(n) + Coefficients(top);
    StepCancels(top, k.c5, k);
  }

  lemma StepCancels(top: Rem, v: Sym, k: Rem)
    requires k == Scale(top.c0, K1) && k == Rem(top.c1, top.c2, top.c3, top.c4, top.c5, v)
    ensures Step(top, v) == ZERO
  {
    FoldIsProduct(top.c0);
    XorSelf(k);
    hide Xor;
    hide Fold;
    hide Scale;
  }

  lemma {:induction false} ProductVanishes(q: seq<Sym>)
    ensures Remainder(ZERO, TimesGenerator(q)) == ZERO
  {
    hide Step;
    hide Remainder;
    hide Generator;
    if q == [] {
      ZerosKeep(ZERO, Zeroes(6));
    } else {
      var n := |q| - 1;
      var up := TimesGenerator(q[..n]) + [0];
      ProductVanishes(q[..n]);
      RemainderLast(ZERO, up);
      assert up[..|up| - 1] == TimesGenerator(q[..n]);
      StepShort(ZERO, 0);
      GeneratorVanishes(n, q[n]);
      RemainderLinear(ZERO, ZERO, up, Zeroes(n) + Generator(q[n]));
      XorSelf(ZERO);
    }
  }

  /** Whatever the quotient, a remainder of degree below six is the one computed. */
  lemma CombineRemainder(q: seq<Sym>, r: Rem)
    ensures Remainder(ZERO, Combine(q, r)) == r
  {
    hide Remainder;
    hide TimesGenerator;
    ProductVanishes(q);
    PadRemainder(|q|, r);
    RemainderLinear(ZERO, ZERO, TimesGenerator(q), Zeroes(|q|) + Coefficients(r));
    XorSelf(ZERO);
    XorZero();
    XorCommutes(ZERO, r);
  }

  lemma XorSeqPlus(x: seq<Sym>, y: seq<Sym>, i: nat)
    requires |x| == |y| && i < |x|
    ensures XorSeq(x, y)[i] == Plus(x[i], y[i])
  {
    XorSeqAt(x, y, i);
  }

  lemma StepIs(r: Rem, v: Sym)
    ensures var k := Scale(r.c0, K1);
      Step(r, v) == Rem(Plus(r.c1, k.c0), Plus(r.c2, k.c1), Plus(r.c3, k.c2), Plus(r.c4, k.c3), Plus(r.c5, k.c4),
                        Plus(v, k.c5))
  {
    hide Fold;
    hide Scale;
    FoldIsProduct(r.c0);
  }

  /** The sum of two lists of seven, coefficient by coefficient. */
  ghost predicate Adds(g: seq<Sym>, t: seq<Sym>, u: seq<Sym>) {
    |g| == |t| == |u| == 7 && forall i :: 0 <= i < 7 ==> Plus(g[i], t[i]) == u[i]
  }

  lemma SevenAdd(g: seq<Sym>, t: seq<Sym>, u: seq<Sym>)
    requires |g| == |t| == |u| == 7
    requires Plus(g[0], t[0]) == u[0] && Plus(g[1], t[1]) == u[1] && Plus(g[2], t[2]) == u[2]
    requires Plus(g[3], t[3]) == u[3] && Plus(g[4], t[4]) == u[4] && Plus(g[5], t[5]) == u[5]
      && Plus(g[6], t[6]) == u[6]
    ensures Adds(g, t, u)
  {
    hide Plus;
  }

  /** Taking a step back: the new remainder plus the multiple taken off is the old one, moved up. */
  lemma StepBack(r: Rem, v: Sym)
    ensures Adds(Generator(r.c0), [0] + Coefficients(Step(r, v)), Coefficients(r) + [v])
  {
    hide *;
    var k := Scale(r.c0, K1);
    StepIs(r, v);
    Listed(r);
    Listed(k);
    Listed(Step(r, v));
    assert Generator(r.c0) == [r.c0] + Coefficients(k) by {
      GeneratorIs(r.c0);
    }
    PlusLaws(r.c0, 0, 0);
    PlusLaws(k.c0, r.c1, 0);
    PlusLaws(k.c1, r.c2, 0);
    PlusLaws(k.c2, r.c3, 0);
    PlusLaws(k.c3, r.c4, 0);
    PlusLaws(k.c4, r.c5, 0);
    PlusLaws(k.c5, v, 0);
    SevenAdd(Generator(r.c0), [0] + Coefficients(Step(r, v)), Coefficients(r) + [v]);
  }

  lemma Listed(r: Rem)
    ensures Coefficients(r) == [r.c0, r.c1, r.c2, r.c3, r.c4, r.c5]
  {}

  lemma GeneratorIs(s: Sym)
    ensures Generator(s) == [s] + Coefficients(Scale(s, K1))
  {
    hide Scale;
  }

  lemma CombineNext(q: seq<Sym>, r: Rem, v: Sym)
    ensures Combine(q + [r.c0], Step(r, v)) == Combine(q, r) + [v]
  {
    hide Step;
    hide Plus;
    hide Generator;
    hide Coefficients;
    hide Zeroes;
    hide TimesGenerator;
    hide XorSeq;
    var n, more := |q|, q + [r.c0];
    var up, g := TimesGenerator(q) + [0], Zeroes(n) + Generator(r.c0);
    var t, u := Zeroes(n + 1) + Coefficients(Step(r, v)), Zeroes(n) + Coefficients(r);
    TimesGeneratorLast(more);
    assert more[..n] == q;
    StepBack(r, v);
    forall i | 0 <= i < n + 7 ensures Combine(more, Step(r, v))[i] == (Combine(q, r) + [v])[i] {
      XorSeqPlus(XorSeq(up, g), t, i);
      XorSeqPlus(up, g, i);
      if i < n + 6 {
        XorSeqPlus(TimesGenerator(q), u, i);
      }
      assert Plus(g[i], t[i]) == (u + [v])[i] by {
        if i < n {
          PlusLaws(0, 0, 0);
        } else {
          assert g[i] == Generator(r.c0)[i - n];
          assert t[i] == ([0] + Coefficients(Step(r, v)))[i - n];
          assert (u + [v])[i] == (Coefficients(r) + [v])[i - n];
        }
      }
      PlusLaws(up[i], g[i], t[i]);
      PlusLaws(v, 0, 0);
    }
  }

  lemma TimesGeneratorLast(q: seq<Sym>)
    requires q != []
    ensures TimesGenerator(q) == AddMultiple(TimesGenerator(q[..|q| - 1]), q[|q| - 1])
  {}

  /** Every polynomial of degree five or more is some quotient times the generator, plus its checksum. */
  lemma {:induction false} Division(p: seq<Sym>) returns (q: seq<Sym>)
    requires |p| >= 6
    ensures |q| == |p| - 6 && p == Combine(q, Remainder(ZERO, p))
  {
    hide Step;
    hide Remainder;
    hide Combine;
    if |p| == 6 {
      q := [];
      SixSymbols(p);
      CombineNothing(p);
    } else {
      var n := |p| - 1;
      var q' := Division(p[..n]);
      var r := Remainder(ZERO, p[..n]);
      q := q' + [r.c0];
      RemainderLast(ZERO, p);
      CombineNext(q', r, p[n]);
    }
  }

  lemma CombineNothing(p: seq<Sym>)
    requires |p| == 6
    ensures Combine([], Rem(p[0], p[1], p[2], p[3], p[4], p[5])) == p
  {
    hide Generator;
    var r := Rem(p[0], p[1], p[2], p[3], p[4], p[5]);
    var c := Zeroes(0) + Coefficients(r);
    assert TimesGenerator([]) == Zeroes(6);
    forall i | 0 <= i < 6 ensures Combine([], r)[i] == p[i] {
      XorSeqPlus(Zeroes(6), c, i);
      PlusLaws(c[i], 0, 0);
    }
  }

  /** The checksum of a list is the remainder, and the only one of degree below six, of the polynomial
      with an implicit one in front on division by the generator. */
  lemma PolyModIsRemainder(v: seq<Sym>, r: Rem)
    ensures Remainder(ONE, v) == r <==> exists q :: |q| == |v| && Zeroes(5) + [1] + v == Combine(q, r)
  {
    hide Step;
    hide Remainder;
    hide Combine;
    var lead := Zeroes(5) + [1];
    SixSymbols(lead);
    RemainderConcat(ZERO, lead, v);
    if Remainder(ONE, v) == r {
      var q := Division(lead + v);
    }
    if q :| |q| == |v| && lead + v == Combine(q, r) {
      CombineRemainder(q, r);
    }
  }
}
