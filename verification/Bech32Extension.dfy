/**
 GF(1024) as an extension of GF(32) by a root of x^2 + {9}x + {23}, and that this root, here ALPHA, has
 no power below the 1023rd that is one.
 */
module Bech32Extension {
  import opened Bech32Checksum
  import opened Bech32Field

  /** lo + hi * ALPHA */
  datatype Ext = Ext(lo: Sym, hi: Sym)

  const NIL := Ext(0, 0)
  const UNIT := Ext(1, 0)
  const ALPHA := Ext(0, 1)

  function Add(u: Ext, v: Ext): Ext {
    Ext(Plus(u.lo, v.lo), Plus(u.hi, v.hi))
  }

  function Multiple(s: Sym, u: Ext): Ext {
    Ext(Mul(s, u.lo), Mul(s, u.hi))
  }

  function ByAlpha(u: Ext): Ext {
    Ext(Mul(23, u.hi), Plus(u.lo, Mul(9, u.hi)))
  }

  function Times(u: Ext, v: Ext): Ext {
    Add(Multiple(u.lo, v), Multiple(u.hi, ByAlpha(v)))
  }

  // ----- sums

  lemma AddLaws(u: Ext, v: Ext, w: Ext)
    ensures Add(Add(u, v), w) == Add(u, Add(v, w)) && Add(u, v) == Add(v, u)
    ensures Add(NIL, u) == u == Add(u, NIL) && Add(u, u) == NIL
    ensures Add(u, v) == NIL <==> u == v
  {
    hide Plus;
    PlusLaws(u.lo, v.lo, w.lo);
    PlusLaws(u.hi, v.hi, w.hi);
    PlusCommutes(u.lo, v.lo);
    PlusCommutes(u.hi, v.hi);
    PlusZero(u.lo, v.lo);
    PlusZero(u.hi, v.hi);
  }

  lemma PlusZero(a: Sym, b: Sym)
    ensures Plus(a, b) == 0 <==> a == b
  {}

  lemma AddPairs(a: Ext, b: Ext, c: Ext, d: Ext)
    ensures Add(Add(a, b), Add(c, d)) == Add(Add(a, c), Add(b, d))
  {
    hide Plus;
    PlusPairs(a.lo, b.lo, c.lo, d.lo);
    PlusPairs(a.hi, b.hi, c.hi, d.hi);
  }

  // ----- multiples

  lemma MulOver(s: Sym, t: Sym, u: Sym)
    ensures Mul(s, Plus(t, u)) == Plus(Mul(s, t), Mul(s, u))
  {
    hide *;
    MulDistributes(t, u, s);
    MulCommutes(s, t);
    MulCommutes(s, u);
    MulCommutes(s, Plus(t, u));
  }

  lemma MulSwap(s: Sym, t: Sym, u: Sym)
    ensures Mul(s, Mul(t, u)) == Mul(t, Mul(s, u))
  {
    hide *;
    MulAssociates(s, t, u);
    MulAssociates(t, s, u);
    MulCommutes(s, t);
  }

  lemma MultipleAdds(s: Sym, t: Sym, u: Ext)
    ensures Multiple(Plus(s, t), u) == Add(Multiple(s, u), Multiple(t, u))
  {
    hide Plus;
    hide Mul;
    MulDistributes(s, t, u.lo);
    MulDistributes(s, t, u.hi);
  }

  lemma MultipleOver(s: Sym, u: Ext, v: Ext)
    ensures Multiple(s, Add(u, v)) == Add(Multiple(s, u), Multiple(s, v))
  {
    hide Plus;
    hide Mul;
    MulOver(s, u.lo, v.lo);
    MulOver(s, u.hi, v.hi);
  }

  lemma MultipleTwice(s: Sym, t: Sym, u: Ext)
    ensures Multiple(s, Multiple(t, u)) == Multiple(Mul(s, t), u)
  {
    hide Plus;
    hide Mul;
    MulAssociates(s, t, u.lo);
    MulAssociates(s, t, u.hi);
  }

  lemma AlphaAdds(u: Ext, v: Ext)
    ensures ByAlpha(Add(u, v)) == Add(ByAlpha(u), ByAlpha(v))
  {
    hide Plus;
    hide Mul;
    MulOver(23, u.hi, v.hi);
    MulOver(9, u.hi, v.hi);
    PlusPairs(u.lo, v.lo, Mul(9, u.hi), Mul(9, v.hi));
  }

  lemma AlphaMultiple(s: Sym, u: Ext)
    ensures ByAlpha(Multiple(s, u)) == Multiple(s, ByAlpha(u))
  {
    hide Plus;
    hide Mul;
    MulSwap(s, 23, u.hi);
    MulSwap(s, 9, u.hi);
    MulOver(s, u.lo, Mul(9, u.hi));
  }

  /** ALPHA is a root of its polynomial. */
  lemma AlphaTwice(u: Ext)
    ensures ByAlpha(ByAlpha(u)) == Add(Multiple(23, u), Multiple(9, ByAlpha(u)))
  {
    hide Plus;
    hide Mul;
    MulOver(23, u.lo, Mul(9, u.hi));
    MulSwap(23, 9, u.hi);
  }

  // ----- products

  lemma TimesAdds(u: Ext, v: Ext, w: Ext)
    ensures Times(Add(u, v), w) == Add(Times(u, w), Times(v, w))
  {
    hide Plus;
    hide Mul;
    hide ByAlpha;
    hide Multiple;
    MultipleAdds(u.lo, v.lo, w);
    MultipleAdds(u.hi, v.hi, ByAlpha(w));
    AddPairs(Multiple(u.lo, w), Multiple(v.lo, w), Multiple(u.hi, ByAlpha(w)), Multiple(v.hi, ByAlpha(w)));
  }

  lemma TimesMultiple(s: Sym, v: Ext, w: Ext)
    ensures Times(Multiple(s, v), w) == Multiple(s, Times(v, w))
  {
    hide Plus;
    hide Mul;
    hide ByAlpha;
    hide Add;
    MultipleTwice(s, v.lo, w);
    MultipleTwice(s, v.hi, ByAlpha(w));
    MultipleOver(s, Multiple(v.lo, w), Multiple(v.hi, ByAlpha(w)));
  }

  lemma TimesAlpha(v: Ext, w: Ext)
    ensures Times(ByAlpha(v), w) == ByAlpha(Times(v, w))
  {
    hide *;
    var x, y := Multiple(v.lo, ByAlpha(w)), Multiple(v.hi, Multiple(23, w));
    var z := Multiple(v.hi, Multiple(9, ByAlpha(w)));
    assert ByAlpha(Times(v, w)) == Add(x, Add(y, z)) by {
      TimesIs(v, w);
      AlphaAdds(Multiple(v.lo, w), Multiple(v.hi, ByAlpha(w)));
      AlphaMultiple(v.lo, w);
      AlphaMultiple(v.hi, ByAlpha(w));
      AlphaTwice(w);
      MultipleOver(v.hi, Multiple(23, w), Multiple(9, ByAlpha(w)));
    }
    assert Times(ByAlpha(v), w) == Add(y, Add(x, z)) by {
      TimesIs(ByAlpha(v), w);
      ByAlphaIs(v);
      MultipleTwice(v.hi, 23, w);
      MulCommutes(v.hi, 23);
      MultipleAdds(v.lo, Mul(9, v.hi), ByAlpha(w));
      MultipleTwice(v.hi, 9, ByAlpha(w));
      MulCommutes(v.hi, 9);
    }
    AddLaws(y, x, z);
    AddLaws(x, y, z);
  }

  lemma TimesIs(u: Ext, v: Ext)
    ensures Times(u, v) == Add(Multiple(u.lo, v), Multiple(u.hi, ByAlpha(v)))
  {
    hide Add;
    hide Multiple;
    hide ByAlpha;
  }

  lemma ByAlphaIs(v: Ext)
    ensures ByAlpha(v).lo == Mul(23, v.hi) && ByAlpha(v).hi == Plus(v.lo, Mul(9, v.hi))
  {
    hide Mul;
    hide Plus;
  }

  lemma TimesAssociates(u: Ext, v: Ext, w: Ext)
    ensures Times(Times(u, v), w) == Times(u, Times(v, w))
  {
    hide *;
    TimesIs(u, v);
    TimesIs(u, Times(v, w));
    TimesAdds(Multiple(u.lo, v), Multiple(u.hi, ByAlpha(v)), w);
    TimesMultiple(u.lo, v, w);
    TimesMultiple(u.hi, ByAlpha(v), w);
    TimesAlpha(v, w);
  }

  lemma TimesCommutes(u: Ext, v: Ext)
    ensures Times(u, v) == Times(v, u)
  {
    hide Plus;
    hide Mul;
    MulCommutes(u.lo, v.lo);
    MulCommutes(u.lo, v.hi);
    MulCommutes(u.hi, v.lo);
    MulCommutes(u.hi, v.hi);
    MulSwap(u.hi, 23, v.hi);
    MulSwap(v.hi, 23, u.hi);
    MulOver(u.hi, v.lo, Mul(9, v.hi));
    MulOver(v.hi, u.lo, Mul(9, u.hi));
    MulSwap(u.hi, 9, v.hi);
    MulSwap(v.hi, 9, u.hi);
    var a, b, c := Mul(u.lo, v.hi), Mul(u.hi, v.lo), Mul(9, Mul(u.hi, v.hi));
    PlusLaws(a, b, c);
    PlusLaws(b, a, c);
    PlusCommutes(a, b);
  }

  lemma TimesOver(u: Ext, v: Ext, w: Ext)
    ensures Times(u, Add(v, w)) == Add(Times(u, v), Times(u, w))
  {
    hide *;
    TimesCommutes(u, Add(v, w));
    TimesCommutes(u, v);
    TimesCommutes(u, w);
    TimesAdds(v, w, u);
  }

  lemma TimesUnits(u: Ext)
    ensures Times(UNIT, u) == u == Times(u, UNIT) && Times(NIL, u) == NIL == Times(u, NIL)
    ensures Times(ALPHA, u) == ByAlpha(u)
  {
    hide Plus;
    hide Mul;
    TimesCommutes(u, UNIT);
    TimesCommutes(u, NIL);
    MulUnits(u.lo);
    MulUnits(u.hi);
    MulUnits(ByAlpha(u).lo);
    MulUnits(ByAlpha(u).hi);
    PlusLaws(u.lo, 0, 0);
    PlusLaws(u.hi, 0, 0);
    PlusLaws(0, 0, 0);
    PlusLaws(ByAlpha(u).lo, 0, 0);
    PlusLaws(ByAlpha(u).hi, 0, 0);
  }

  // ----- powers

  function Power(u: Ext, n: nat): Ext {
    if n == 0 then UNIT else Times(u, Power(u, n - 1))
  }

  lemma PowerNext(u: Ext, n: nat)
    ensures Power(u, n + 1) == Times(u, Power(u, n)) && Power(u, 0) == UNIT
  {
    hide Times;
  }

  lemma {:induction false} PowerAdds(u: Ext, m: nat, n: nat)
    ensures Power(u, m + n) == Times(Power(u, m), Power(u, n))
  {
    hide *;
    if m == 0 {
      PowerNext(u, 0);
      TimesUnits(Power(u, n));
    } else {
      PowerAdds(u, m - 1, n);
      PowerNext(u, m - 1);
      PowerNext(u, m - 1 + n);
      TimesAssociates(u, Power(u, m - 1), Power(u, n));
    }
  }

  lemma {:induction false} PowerOfProduct(u: Ext, v: Ext, n: nat)
    ensures Power(Times(u, v), n) == Times(Power(u, n), Power(v, n))
  {
    hide *;
    if n == 0 {
      PowerNext(u, 0);
      PowerNext(v, 0);
      PowerNext(Times(u, v), 0);
      TimesUnits(UNIT);
    } else {
      var p, q := Power(u, n - 1), Power(v, n - 1);
      PowerOfProduct(u, v, n - 1);
      PowerNext(u, n - 1);
      PowerNext(v, n - 1);
      PowerNext(Times(u, v), n - 1);
      TimesAssociates(u, v, Times(p, q));
      TimesAssociates(v, p, q);
      TimesCommutes(v, p);
      TimesAssociates(p, v, q);
      TimesAssociates(u, p, Times(v, q));
    }
  }

  /** An element with an inverse has no multiple that is nil but nil. */
  lemma {:induction false} PowerCancels(u: Ext, inverse: Ext, n: nat, x: Ext)
    requires Times(inverse, u) == UNIT && Times(Power(u, n), x) == NIL
    ensures x == NIL
  {
    hide *;
    if n == 0 {
      PowerNext(u, 0);
      TimesUnits(x);
    } else {
      PowerNext(u, n - 1);
      TimesAssociates(u, Power(u, n - 1), x);
      Cancels(u, inverse, Times(Power(u, n - 1), x));
      PowerCancels(u, inverse, n - 1, x);
    }
  }

  lemma Cancels(u: Ext, inverse: Ext, x: Ext)
    requires Times(inverse, u) == UNIT && Times(u, x) == NIL
    ensures x == NIL
  {
    hide *;
    TimesAssociates(inverse, u, x);
    TimesUnits(inverse);
    TimesUnits(x);
  }

  // ----- the order of ALPHA

  lemma Squares()
    ensures Times(ALPHA, ALPHA) == Ext(23, 9) && Times(Ext(23, 9), Ext(23, 9)) == Ext(14, 6)
    ensures Times(Ext(14, 6), Ext(14, 6)) == Ext(25, 16) && Times(Ext(25, 16), Ext(25, 16)) == Ext(3, 21)
    ensures Times(Ext(3, 21), Ext(3, 21)) == Ext(9, 1) && Times(Ext(9, 1), Ext(9, 1)) == Ext(4, 9)
    ensures Times(Ext(4, 9), Ext(4, 9)) == Ext(17, 6) && Times(Ext(17, 6), Ext(17, 6)) == Ext(4, 16)
    ensures Times(Ext(4, 16), Ext(4, 16)) == Ext(26, 21) && Times(Ext(26, 21), Ext(26, 21)) == ALPHA
  {}

  lemma PowersOfAlpha()
    ensures Power(ALPHA, 1) == ALPHA && Power(ALPHA, 4) == Ext(14, 6) && Power(ALPHA, 8) == Ext(25, 16)
    ensures Power(ALPHA, 16) == Ext(3, 21) && Power(ALPHA, 32) == Ext(9, 1) && Power(ALPHA, 64) == Ext(4, 9)
    ensures Power(ALPHA, 256) == Ext(4, 16) && Power(ALPHA, 1024) == ALPHA
  {
    hide Times;
    hide Power;
    Squares();
    PowerNext(ALPHA, 0);
    TimesUnits(ALPHA);
    PowerAdds(ALPHA, 1, 1);
    PowerAdds(ALPHA, 2, 2);
    PowerAdds(ALPHA, 4, 4);
    PowerAdds(ALPHA, 8, 8);
    PowerAdds(ALPHA, 16, 16);
    PowerAdds(ALPHA, 32, 32);
    PowerAdds(ALPHA, 64, 64);
    PowerAdds(ALPHA, 128, 128);
    PowerAdds(ALPHA, 256, 256);
    PowerAdds(ALPHA, 512, 512);
  }

  lemma Sums()
    ensures Times(Ext(9, 1), ALPHA) == Ext(23, 0)
    ensures Times(Times(Times(Times(Ext(4, 9), Ext(3, 21)), Ext(25, 16)), Ext(14, 6)), ALPHA) == Ext(22, 26)
    ensures Times(Times(Times(Times(Ext(4, 16), Ext(4, 9)), Ext(3, 21)), Ext(14, 6)), ALPHA) == Ext(13, 11)
  {
    hide *;
    ShortProduct();
    FirstProduct();
    SecondProduct();
  }

  lemma ShortProduct()
    ensures Times(Ext(9, 1), ALPHA) == Ext(23, 0)
  {}

  lemma FirstProduct()
    ensures Times(Times(Times(Times(Ext(4, 9), Ext(3, 21)), Ext(25, 16)), Ext(14, 6)), ALPHA) == Ext(22, 26)
  {
    hide *;
    Product1();
    Product2();
    Product3();
    Product4();
  }

  lemma SecondProduct()
    ensures Times(Times(Times(Times(Ext(4, 16), Ext(4, 9)), Ext(3, 21)), Ext(14, 6)), ALPHA) == Ext(13, 11)
  {
    hide *;
    Product5();
    Product6();
    Product7();
    Product8();
  }

  lemma Product1()
    ensures Times(Ext(4, 9), Ext(3, 21)) == Ext(22, 19)
  {}

  lemma Product2()
    ensures Times(Ext(22, 19), Ext(25, 16)) == Ext(19, 31)
  {}

  lemma Product3()
    ensures Times(Ext(19, 31), Ext(14, 6)) == Ext(21, 18)
  {
    hide Mul;
    Multiples();
    assert ByAlpha(Ext(14, 6)) == Ext(9, 17);
  }

  lemma Multiples()
    ensures Mul(23, 6) == 9 && Mul(9, 6) == 31 && Mul(19, 14) == 4 && Mul(19, 6) == 17
    ensures Mul(31, 9) == 17 && Mul(31, 17) == 3
  {}

  lemma Product4()
    ensures Times(Ext(21, 18), ALPHA) == Ext(22, 26)
  {}

  lemma Product5()
    ensures Times(Ext(4, 16), Ext(4, 9)) == Ext(4, 28)
  {}

  lemma Product6()
    ensures Times(Ext(4, 28), Ext(3, 21)) == Ext(26, 4)
  {}

  lemma Product7()
    ensures Times(Ext(26, 4), Ext(14, 6)) == Ext(12, 24)
  {}

  lemma Product8()
    ensures Times(Ext(12, 24), ALPHA) == Ext(13, 11)
  {}

  /** The powers of ALPHA by the three largest proper divisors of 1023. */
  lemma ProperPowers(n: nat)
    requires n == 33 || n == 93 || n == 341
    ensures Power(ALPHA, n) == if n == 33 then Ext(23, 0) else if n == 93 then Ext(22, 26) else Ext(13, 11)
  {
    hide Times;
    hide Power;
    PowersOfAlpha();
    Sums();
    PowerAdds(ALPHA, 32, 1);
    PowerAdds(ALPHA, 64, 16);
    PowerAdds(ALPHA, 80, 8);
    PowerAdds(ALPHA, 88, 4);
    PowerAdds(ALPHA, 92, 1);
    PowerAdds(ALPHA, 256, 64);
    PowerAdds(ALPHA, 320, 16);
    PowerAdds(ALPHA, 336, 4);
    PowerAdds(ALPHA, 340, 1);
  }

  /** Inverses of ALPHA, and of what those three powers differ from one by. */
  lemma Inverses()
    ensures Times(Ext(6, 19), ALPHA) == UNIT
    ensures Times(Ext(16, 0), Add(Ext(23, 0), UNIT)) == UNIT
    ensures Times(Ext(27, 11), Add(Ext(22, 26), UNIT)) == UNIT
    ensures Times(Ext(13, 11), Add(Ext(13, 11), UNIT)) == UNIT
  {}

  ghost predicate Fixed(n: nat, u: Ext) {
    Times(Power(ALPHA, n), u) == u
  }

  /** None of the three powers fixes anything but nil. */
  lemma ProperPowersMove(n: nat, u: Ext)
    requires (n == 33 || n == 93 || n == 341) && Fixed(n, u)
    ensures u == NIL
  {
    hide Times;
    hide Power;
    hide Add;
    ProperPowers(n);
    Inverses();
    var v := Power(ALPHA, n);
    TimesAdds(v, UNIT, u);
    TimesUnits(u);
    AddLaws(u, u, u);
    var inverse := if n == 33 then Ext(16, 0) else if n == 93 then Ext(27, 11) else Ext(13, 11);
    Cancels(Add(v, UNIT), inverse, u);
  }

  /** The 1023rd power is one. */
  lemma FullPower(n: nat, u: Ext)
    requires n == 1023
    ensures Fixed(n, u)
  {
    hide Times;
    hide Power;
    PowersOfAlpha();
    Inverses();
    PowerNext(ALPHA, n);
    var v, inverse := Power(ALPHA, n), Ext(6, 19);
    assert Times(ALPHA, v) == ALPHA;
    TimesAssociates(inverse, ALPHA, v);
    TimesUnits(v);
    TimesUnits(u);
  }

  lemma FixedSum(m: nat, n: nat, u: Ext)
    requires Fixed(n, u)
    ensures Fixed(m + n, u) <==> Fixed(m, u)
  {
    hide Times;
    hide Power;
    PowerAdds(ALPHA, m, n);
    TimesAssociates(Power(ALPHA, m), Power(ALPHA, n), u);
  }

  lemma {:induction false} FixedMultiple(n: nat, k: nat, u: Ext)
    requires Fixed(n, u)
    ensures Fixed(n * k, u)
  {
    hide Fixed;
    if k == 0 {
      FixedNone(u);
    } else {
      FixedMultiple(n, k - 1, u);
      FixedSum(n * (k - 1), n, u);
      assert n * (k - 1) + n == n * k;
    }
  }

  lemma FixedNone(u: Ext)
    ensures Fixed(0, u)
  {
    hide Times;
    TimesUnits(u);
  }

  /** What two powers fix, that of a common divisor fixes. */
  lemma {:induction false} FixedDivisor(m: nat, n: nat, u: Ext) returns (g: nat, i: nat, j: nat)
    requires Fixed(m, u) && Fixed(n, u) && m > 0 && n > 0
    ensures g > 0 && m == g * i && n == g * j && Fixed(g, u)
    decreases m + n
  {
    hide Fixed;
    if m == n {
      g, i, j := m, 1, 1;
    } else if m > n {
      FixedSum(m - n, n, u);
      g, i, j := FixedDivisor(m - n, n, u);
      i := i + j;
      assert g * (i - j) + g * j == g * i;
    } else {
      FixedSum(n - m, m, u);
      g, i, j := FixedDivisor(m, n - m, u);
      j := i + j;
      assert g * i + g * (j - i) == g * j;
    }
  }

  /** A proper divisor of 1023 = 3 * 11 * 31 divides 33, 93 or 341. */
  lemma ProperDivisor(g: nat, j: nat) returns (n: nat, k: nat)
    requires g * j == 1023 && j > 1
    ensures (n == 33 || n == 93 || n == 341) && n == g * k
  {
    if j <= 32 {
      SmallFactor(j, g);
      n, k := g, 1;
    } else {
      if g >= 32 {
        Larger(g, j);
        assert false;
      }
      SmallFactor(g, j);
      n := if g == 3 then 93 else 341;
      k := if g == 1 then 341 else if g == 11 then 31 else if g == 3 then 31 else 11;
    }
  }

  lemma Larger(g: nat, j: nat)
    requires g >= 32 && j >= 33
    ensures g * j >= 1056
  {
    assert g * j >= 32 * j by {
      assert (g - 32) * j >= 0;
    }
  }

  lemma SmallFactor(a: nat, b: nat)
    requires a * b == 1023 && a <= 32
    ensures (a == 1 && b == 1023) || (a == 3 && b == 341) || (a == 11 && b == 93) || (a == 31 && b == 33)
  {
    assert a == 0 || a == 1 || a == 2 || a == 3 || a == 4 || a == 5 || a == 6 || a == 7 || a == 8 || a == 9 || a == 10
        || a == 11 || a == 12 || a == 13 || a == 14 || a == 15 || a == 16 || a == 17 || a == 18 || a == 19 || a == 20
        || a == 21 || a == 22 || a == 23 || a == 24 || a == 25 || a == 26 || a == 27 || a == 28 || a == 29 || a == 30
        || a == 31 || a == 32;
  }

  /** No power of ALPHA below the 1023rd fixes anything but nil. */
  lemma AlphaMoves(d: nat, u: Ext)
    requires 0 < d < 1023 && Fixed(d, u)
    ensures u == NIL
  {
    hide Fixed;
    var full: nat := 1023;
    FullPower(full, u);
    var g, i, j := FixedDivisor(d, full, u);
    Proper(g, i, j, d);
    var n, k := ProperDivisor(g, j);
    FixedMultiple(g, k, u);
    ProperPowersMove(n, u);
  }

  lemma Proper(g: nat, i: nat, j: nat, d: nat)
    requires 0 < d < 1023 && d == g * i && g * j == 1023
    ensures j > 1
  {
    AtLeast(g, i);
    assert i != 0 && j != 0;
  }

  lemma AtLeast(g: nat, i: nat)
    ensures i >= 1 ==> g * i >= g
  {
    if i >= 1 {
      assert g * i == g + g * (i - 1);
    }
  }
}
