/**
 The Bech32 checksum notices up to three errors anywhere within 1023 symbols: the generator has three
 roots in GF(1024) that follow each other by a factor ALPHA, whose powers below the 1023rd are distinct.
 */
module Bech32Errors {
  import opened Bech32
  import opened Bech32Checksum
  import opened Bech32Corruption
  import opened Bech32Extension
  import opened Bech32Field
  import opened Collections

  // ----- evaluating polynomials

  function Embed(s: Sym): Ext { Ext(s, 0) }

  /** The value of a polynomial, highest coefficient first, by Horner's rule. */
  function Value(b: Ext, e: seq<Sym>): Ext {
    if e == [] then NIL else Add(Times(b, Value(b, e[..|e| - 1])), Embed(e[|e| - 1]))
  }

  lemma ValueLast(b: Ext, e: seq<Sym>)
    requires e != []
    ensures Value(b, e) == Add(Times(b, Value(b, e[..|e| - 1])), Embed(e[|e| - 1]))
  {
    hide Add;
    hide Times;
  }

  lemma ValueNone(b: Ext)
    ensures Value(b, []) == NIL
  {}

  lemma EmbedLaws(s: Sym, t: Sym)
    ensures Embed(Plus(s, t)) == Add(Embed(s), Embed(t)) && Embed(0) == NIL
    ensures Multiple(s, Embed(t)) == Embed(Mul(s, t)) && (Embed(s) == NIL <==> s == 0)
  {
    hide Mul;
    hide Plus;
    PlusLaws(0, 0, 0);
    MulUnits(s);
  }

  lemma {:induction false} ValueZeros(b: Ext, e: seq<Sym>)
    requires Zeros(e)
    ensures Value(b, e) == NIL
  {
    hide *;
    if e == [] {
      ValueNone(b);
    } else {
      var n := |e| - 1;
      ZerosPart(e);
      ValueZeros(b, e[..n]);
      ValueLast(b, e);
      TimesUnits(b);
      EmbedLaws(0, 0);
      AddLaws(NIL, NIL, NIL);
    }
  }

  lemma ZerosPart(e: seq<Sym>)
    requires Zeros(e) && e != []
    ensures Zeros(e[..|e| - 1]) && e[|e| - 1] == 0
  {}

  lemma {:induction false} ValueSum(b: Ext, x: seq<Sym>, y: seq<Sym>)
    requires |x| == |y|
    ensures Value(b, XorSeq(x, y)) == Add(Value(b, x), Value(b, y))
  {
    hide *;
    var e := XorSeq(x, y);
    if x == [] {
      assert y == [] && e == [];
      ValueNone(b);
      AddLaws(NIL, NIL, NIL);
    } else {
      var n := |x| - 1;
      var p, q := Value(b, x[..n]), Value(b, y[..n]);
      ValueSum(b, x[..n], y[..n]);
      XorSeqLast(x, y);
      XorIsPlus(x[n], y[n]);
      ValueLast(b, x);
      ValueLast(b, y);
      ValueLast(b, e);
      EmbedLaws(x[n], y[n]);
      TimesOver(b, p, q);
      AddPairs(Times(b, p), Times(b, q), Embed(x[n]), Embed(y[n]));
    }
  }

  lemma XorIsPlus(a: Sym, b: Sym)
    ensures a ^ b == Plus(a, b)
  {}

  lemma {:induction false} ValueAppend(b: Ext, x: seq<Sym>, y: seq<Sym>)
    requires Zeros(x)
    ensures Value(b, x + y) == Value(b, y)
  {
    hide *;
    if y == [] {
      assert x + y == x;
      ValueZeros(b, x);
      ValueNone(b);
    } else {
      var n := |y| - 1;
      assert (x + y)[..|x + y| - 1] == x + y[..n];
      ValueAppend(b, x, y[..n]);
      ValueLast(b, x + y);
      ValueLast(b, y);
    }
  }

  // ----- roots of the generator

  ghost predicate Root(b: Ext) {
    Value(b, Generator(1)) == NIL
  }

  lemma RootIs(b: Ext)
    ensures Root(b) <==> Value(b, Generator(1)) == NIL
  {
    hide Value;
    hide Generator;
  }

  function Scaled(s: Sym, e: seq<Sym>): (r: seq<Sym>)
    ensures |r| == |e|
  {
    if e == [] then [] else Scaled(s, e[..|e| - 1]) + [Mul(s, e[|e| - 1])]
  }

  lemma {:induction false} ValueScaled(b: Ext, s: Sym, e: seq<Sym>)
    ensures Value(b, Scaled(s, e)) == Multiple(s, Value(b, e))
  {
    hide *;
    if e == [] {
      assert Scaled(s, e) == [];
      ValueNone(b);
      MultipleNil(s);
    } else {
      var n := |e| - 1;
      var p := Value(b, e[..n]);
      ValueScaled(b, s, e[..n]);
      ScaledLast(s, e);
      ValueLast(b, e);
      ValueLast(b, Scaled(s, e));
      TimesCommutes(b, p);
      TimesMultiple(s, p, b);
      TimesCommutes(Multiple(s, p), b);
      EmbedLaws(s, e[n]);
      MultipleOver(s, Times(b, p), Embed(e[n]));
    }
  }

  lemma MultipleNil(s: Sym)
    ensures Multiple(s, NIL) == NIL
  {
    hide Mul;
    MulUnits(s);
  }

  lemma ScaledLast(s: Sym, e: seq<Sym>)
    requires e != []
    ensures var r := Scaled(s, e); r[..|e| - 1] == Scaled(s, e[..|e| - 1]) && r[|e| - 1] == Mul(s, e[|e| - 1])
  {
    hide Mul;
  }

  lemma {:induction false} ScaledAt(s: Sym, e: seq<Sym>, i: nat)
    requires i < |e|
    ensures Scaled(s, e)[i] == Mul(s, e[i])
  {
    hide *;
    ScaledLast(s, e);
    if i < |e| - 1 {
      ScaledAt(s, e[..|e| - 1], i);
      assert Scaled(s, e)[i] == Scaled(s, e)[..|e| - 1][i];
    }
  }

  lemma GeneratorAt(s: Sym, i: nat)
    requires i < 7
    ensures Generator(s)[i] == Mul(s, Generator(1)[i])
  {
    hide *;
    GeneratorIs(s);
    GeneratorIs(1);
    Listed(Scale(s, K1));
    Listed(Scale(1, K1));
    ScaleUnit(s, K1);
    MulUnits(s);
  }

  lemma ScaleUnit(s: Sym, r: Rem)
    ensures Scale(1, r) == r
    ensures Scale(s, r) == Rem(Mul(s, r.c0), Mul(s, r.c1), Mul(s, r.c2), Mul(s, r.c3), Mul(s, r.c4), Mul(s, r.c5))
  {
    hide Mul;
    MulUnits(r.c0);
    MulUnits(r.c1);
    MulUnits(r.c2);
    MulUnits(r.c3);
    MulUnits(r.c4);
    MulUnits(r.c5);
  }

  lemma RootOfMultiple(b: Ext, s: Sym)
    requires Root(b)
    ensures Value(b, Generator(s)) == NIL
  {
    hide Value;
    hide Generator;
    hide Scaled;
    hide Mul;
    forall i | 0 <= i < 7 ensures Generator(s)[i] == Scaled(s, Generator(1))[i] {
      GeneratorAt(s, i);
      ScaledAt(s, Generator(1), i);
    }
    assert Generator(s) == Scaled(s, Generator(1));
    ValueScaled(b, s, Generator(1));
    MultipleNil(s);
  }

  /** A root of the generator is one of every multiple of it ... */
  lemma {:induction false} RootOfProduct(b: Ext, q: seq<Sym>)
    requires Root(b)
    ensures Value(b, TimesGenerator(q)) == NIL
  {
    hide *;
    if q == [] {
      NothingTimes();
      ValueZeros(b, TimesGenerator(q));
    } else {
      var n := |q| - 1;
      var p := TimesGenerator(q[..n]);
      RootOfProduct(b, q[..n]);
      TimesGeneratorLast(q);
      AddMultipleIs(p, q[n]);
      LoweredIs(|p|, q[n]);
      var up, g := p + [0], Lowered(|p|, q[n]);
      ValueSum(b, up, g);
      ValueLast(b, up);
      assert up[..|up| - 1] == p;
      TimesUnits(b);
      EmbedLaws(0, 0);
      ValueAppend(b, Zeroes(|p| - 6), Generator(q[n]));
      RootOfMultiple(b, q[n]);
      AddLaws(NIL, NIL, NIL);
    }
  }

  lemma NothingTimes()
    ensures Zeros(TimesGenerator([]))
  {}

  lemma AddMultipleIs(p: seq<Sym>, s: Sym)
    requires |p| >= 6
    ensures AddMultiple(p, s) == XorSeq(p + [0], Lowered(|p|, s))
  {
    hide XorSeq;
    hide Lowered;
  }

  lemma LoweredIs(n: nat, s: Sym)
    requires n >= 6
    ensures Lowered(n, s) == Zeroes(n - 6) + Generator(s)
  {
    hide Generator;
    hide Zeroes;
  }

  /** ... and so of every list whose remainder is zero. */
  lemma RootOfChecked(b: Ext, e: seq<Sym>)
    requires Root(b) && Remainder(ZERO, e) == ZERO
    ensures Value(b, e) == NIL
  {
    hide *;
    var z := Zeroes(6);
    var p := z + e;
    RemainderConcat(ZERO, z, e);
    ZerosKeep(ZERO, z);
    var q := Division(p);
    var c := Zeroes(|q|) + Coefficients(ZERO);
    assert Zeros(c) by {
      NoCoefficients(|q|);
    }
    CombineIs(q, ZERO);
    ValueSum(b, TimesGenerator(q), c);
    RootOfProduct(b, q);
    ValueZeros(b, c);
    AddLaws(NIL, NIL, NIL);
    ValueAppend(b, z, e);
  }

  lemma NoCoefficients(n: nat)
    ensures Zeros(Zeroes(n) + Coefficients(ZERO))
  {}

  lemma CombineIs(q: seq<Sym>, r: Rem)
    ensures Combine(q, r) == XorSeq(TimesGenerator(q), Zeroes(|q|) + Coefficients(r))
  {
    hide TimesGenerator;
    hide XorSeq;
  }

  // ----- the three roots

  const FIRST := Ext(29, 13)
  const SECOND := Ext(5, 3)
  const THIRD := Ext(16, 30)

  lemma RootsFollow()
    ensures SECOND == Times(FIRST, ALPHA) && THIRD == Times(SECOND, ALPHA)
    ensures Times(Ext(4, 11), FIRST) == UNIT && Times(Ext(19, 30), SECOND) == UNIT && Times(Ext(15, 31), THIRD) == UNIT
  {}

  lemma GeneratorOne()
    ensures Generator(1) == [1, 29, 22, 20, 21, 29, 18]
  {
    hide Mul;
    ScaleUnit(1, K1);
  }

  lemma Horner(b: Ext, g: seq<Sym>, p1: Ext, p2: Ext, p3: Ext, p4: Ext, p5: Ext, p6: Ext)
    requires |g| == 7
    requires p1 == Add(Times(b, Embed(g[0])), Embed(g[1])) && p2 == Add(Times(b, p1), Embed(g[2]))
    requires p3 == Add(Times(b, p2), Embed(g[3])) && p4 == Add(Times(b, p3), Embed(g[4]))
    requires p5 == Add(Times(b, p4), Embed(g[5])) && p6 == Add(Times(b, p5), Embed(g[6]))
    ensures Value(b, g) == p6
  {
    hide *;
    ValueNone(b);
    TimesUnits(b);
    AddLaws(Embed(g[0]), NIL, NIL);
    assert g[..0] == [] && g[..1][..0] == [] && g[..2][..1] == g[..1] && g[..3][..2] == g[..2];
    assert g[..4][..3] == g[..3] && g[..5][..4] == g[..4] && g[..6][..5] == g[..5];
    assert g[..7][..6] == g[..6] && g[..7] == g;
    ValueLast(b, g[..1]);
    ValueLast(b, g[..2]);
    ValueLast(b, g[..3]);
    ValueLast(b, g[..4]);
    ValueLast(b, g[..5]);
    ValueLast(b, g[..6]);
    ValueLast(b, g);
  }

  lemma FirstRoot()
    ensures Root(FIRST)
  {
    hide *;
    RootIs(FIRST);
    GeneratorOne();
    FirstHorner();
    Horner(FIRST, Generator(1), Ext(0, 13), Ext(6, 23), Ext(17, 23), Ext(4, 18), Ext(26, 2), NIL);
  }

  lemma FirstHorner()
    ensures Add(Times(FIRST, Embed(1)), Embed(29)) == Ext(0, 13)
    ensures Add(Times(FIRST, Ext(0, 13)), Embed(22)) == Ext(6, 23)
    ensures Add(Times(FIRST, Ext(6, 23)), Embed(20)) == Ext(17, 23)
    ensures Add(Times(FIRST, Ext(17, 23)), Embed(21)) == Ext(4, 18)
    ensures Add(Times(FIRST, Ext(4, 18)), Embed(29)) == Ext(26, 2)
    ensures Add(Times(FIRST, Ext(26, 2)), Embed(18)) == NIL
  {}

  lemma SecondRoot()
    ensures Root(SECOND)
  {
    hide *;
    RootIs(SECOND);
    GeneratorOne();
    SecondHorner();
    Horner(SECOND, Generator(1), Ext(24, 3), Ext(12, 10), Ext(5, 7), Ext(15, 7), Ext(12, 25), NIL);
  }

  lemma SecondHorner()
    ensures Add(Times(SECOND, Embed(1)), Embed(29)) == Ext(24, 3)
    ensures Add(Times(SECOND, Ext(24, 3)), Embed(22)) == Ext(12, 10)
    ensures Add(Times(SECOND, Ext(12, 10)), Embed(20)) == Ext(5, 7)
    ensures Add(Times(SECOND, Ext(5, 7)), Embed(21)) == Ext(15, 7)
    ensures Add(Times(SECOND, Ext(15, 7)), Embed(29)) == Ext(12, 25)
    ensures Add(Times(SECOND, Ext(12, 25)), Embed(18)) == NIL
  {}

  lemma ThirdRoot()
    ensures Root(THIRD)
  {
    hide *;
    RootIs(THIRD);
    GeneratorOne();
    ThirdHorner();
    Horner(THIRD, Generator(1), Ext(13, 30), Ext(26, 29), Ext(5, 1), Ext(19, 21), Ext(24, 11), NIL);
  }

  lemma ThirdHorner()
    ensures Add(Times(THIRD, Embed(1)), Embed(29)) == Ext(13, 30)
    ensures Add(Times(THIRD, Ext(13, 30)), Embed(22)) == Ext(26, 29)
    ensures Add(Times(THIRD, Ext(26, 29)), Embed(20)) == Ext(5, 1)
    ensures Add(Times(THIRD, Ext(5, 1)), Embed(21)) == Ext(19, 21)
    ensures Add(Times(THIRD, Ext(19, 21)), Embed(29)) == Ext(24, 11)
    ensures Add(Times(THIRD, Ext(24, 11)), Embed(18)) == NIL
  {}

  // ----- three terms

  /** What one root says of errors x, y and z, of which y is n and x is m + n places before z. */
  ghost predicate Vanishes(b: Ext, x: Sym, y: Sym, z: Sym, m: nat, n: nat) {
    Add(Add(Times(Power(b, m + n), Embed(x)), Times(Power(b, n), Embed(y))), Embed(z)) == NIL
  }

  lemma NextRoot(b: Ext, c: Ext, n: nat, x: Ext)
    requires c == Times(b, ALPHA)
    ensures Times(Power(c, n), x) == Times(Power(ALPHA, n), Times(Power(b, n), x))
  {
    hide *;
    PowerOfProduct(b, ALPHA, n);
    TimesCommutes(Power(b, n), Power(ALPHA, n));
    TimesAssociates(Power(ALPHA, n), Power(b, n), x);
  }

  /** Two sums of three that vanish, added: the last term goes. */
  lemma SumOfTwo(u: Ext, v: Ext, p: Ext, q: Ext, w: Ext)
    requires Add(Add(u, v), w) == NIL && Add(Add(p, q), w) == NIL
    ensures Add(u, p) == Add(v, q)
  {
    hide *;
    AddLaws(Add(u, v), w, NIL);
    AddLaws(Add(p, q), w, NIL);
    AddLaws(Add(u, v), Add(p, q), NIL);
    AddPairs(u, v, p, q);
    AddLaws(Add(u, p), Add(v, q), NIL);
  }

  /** Elimination: three consecutive powers of ALPHA leave no solution but nil. */
  lemma Eliminate(u: Ext, v: Ext, w: Ext, m: nat, n: nat)
    requires 0 < m && 0 < n && m + n < 1023
    requires var a, b := Power(ALPHA, m + n), Power(ALPHA, n);
      && Add(Add(u, v), w) == NIL
      && Add(Add(Times(a, u), Times(b, v)), w) == NIL
      && Add(Add(Times(a, Times(a, u)), Times(b, Times(b, v))), w) == NIL
    ensures u == NIL && v == NIL && w == NIL
  {
    hide *;
    var a, b := Power(ALPHA, m + n), Power(ALPHA, n);
    SumOfTwo(u, v, Times(a, u), Times(b, v), w);
    SumOfTwo(Times(a, u), Times(b, v), Times(a, Times(a, u)), Times(b, Times(b, v)), w);
    var p := Add(u, Times(a, u));
    TimesOver(a, u, Times(a, u));
    TimesOver(b, v, Times(b, v));
    assert Times(a, p) == Times(b, p);
    SamePowers(p, m, n);
    Moved(m + n, u);
    Moved(n, v);
    AddLaws(NIL, w, NIL);
    AddLaws(NIL, NIL, NIL);
  }

  lemma SamePowers(p: Ext, m: nat, n: nat)
    requires 0 < m < 1023 && Times(Power(ALPHA, m + n), p) == Times(Power(ALPHA, n), p)
    ensures p == NIL
  {
    hide *;
    var c, b := Power(ALPHA, m), Power(ALPHA, n);
    PowerAdds(ALPHA, n, m);
    TimesAssociates(b, c, p);
    TimesOver(b, Times(c, p), p);
    AddLaws(Times(b, p), NIL, NIL);
    Inverses();
    PowerCancels(ALPHA, Ext(6, 19), n, Add(Times(c, p), p));
    AddLaws(Times(c, p), p, NIL);
    FixedIf(m, p);
    AlphaMoves(m, p);
  }

  lemma FixedIf(n: nat, u: Ext)
    ensures Fixed(n, u) <==> Times(Power(ALPHA, n), u) == u
  {
    hide Times;
    hide Power;
  }

  lemma Moved(d: nat, u: Ext)
    requires 0 < d < 1023
    ensures Add(u, Times(Power(ALPHA, d), u)) == NIL ==> u == NIL
  {
    hide *;
    AddLaws(u, Times(Power(ALPHA, d), u), NIL);
    FixedIf(d, u);
    if Fixed(d, u) {
      AlphaMoves(d, u);
    }
  }

  /** Three errors that all three roots miss are none. */
  lemma ThreeTerms(x: Sym, y: Sym, z: Sym, m: nat, n: nat)
    requires 0 < m && 0 < n && m + n < 1023
    requires Vanishes(FIRST, x, y, z, m, n) && Vanishes(SECOND, x, y, z, m, n) && Vanishes(THIRD, x, y, z, m, n)
    ensures x == 0 && y == 0 && z == 0
  {
    hide *;
    var u, v, w := Times(Power(FIRST, m + n), Embed(x)), Times(Power(FIRST, n), Embed(y)), Embed(z);
    VanishesIs(FIRST, x, y, z, m, n);
    VanishesIs(SECOND, x, y, z, m, n);
    VanishesIs(THIRD, x, y, z, m, n);
    RootsFollow();
    NextRoot(FIRST, SECOND, m + n, Embed(x));
    NextRoot(FIRST, SECOND, n, Embed(y));
    NextRoot(SECOND, THIRD, m + n, Embed(x));
    NextRoot(SECOND, THIRD, n, Embed(y));
    Eliminate(u, v, w, m, n);
    PowerCancels(FIRST, Ext(4, 11), m + n, Embed(x));
    PowerCancels(FIRST, Ext(4, 11), n, Embed(y));
    EmbedLaws(x, 0);
    EmbedLaws(y, 0);
    EmbedLaws(z, 0);
  }

  lemma VanishesIs(b: Ext, x: Sym, y: Sym, z: Sym, m: nat, n: nat)
    ensures Vanishes(b, x, y, z, m, n) <==>
            Add(Add(Times(Power(b, m + n), Embed(x)), Times(Power(b, n), Embed(y))), Embed(z)) == NIL
  {
    hide Add;
    hide Times;
    hide Power;
  }

  // ----- lists with up to three errors

  /** Nothing but zeros strictly between two places. */
  ghost predicate Clear(e: seq<Sym>, from: int, to: int) {
    forall i :: 0 <= i < |e| && from < i < to ==> e[i] == 0
  }

  /** From one place to the next the value is only shifted. */
  lemma {:induction false} ValueJump(b: Ext, e: seq<Sym>, i: nat, j: nat)
    requires i < j < |e| && Clear(e, i, j)
    ensures Value(b, e[..j + 1]) == Add(Times(Power(b, j - i), Value(b, e[..i + 1])), Embed(e[j]))
    decreases j
  {
    hide *;
    ValueTo(b, e, j);
    if j == i + 1 {
      OnePower(b);
    } else {
      ClearIs(e, i, j);
      ValueJump(b, e, i, j - 1);
      NextPower(b, j - 1 - i, Value(b, e[..i + 1]));
    }
  }

  lemma ValueTo(b: Ext, e: seq<Sym>, j: nat)
    requires j < |e|
    ensures Value(b, e[..j + 1]) == Add(Times(b, Value(b, e[..j])), Embed(e[j]))
  {
    hide Value;
    hide Times;
    hide Add;
    hide Embed;
    assert e[..j + 1][..j] == e[..j];
    ValueLast(b, e[..j + 1]);
  }

  lemma OnePower(b: Ext)
    ensures Power(b, 1) == b
  {
    hide Times;
    PowerNext(b, 0);
    TimesUnits(b);
  }

  lemma ClearIs(e: seq<Sym>, i: nat, j: nat)
    requires i + 1 < j < |e| && Clear(e, i, j)
    ensures e[j - 1] == 0 && Clear(e, i, j - 1)
  {}

  lemma NextPower(b: Ext, n: nat, v: Ext)
    ensures Times(b, Add(Times(Power(b, n), v), Embed(0))) == Times(Power(b, n + 1), v)
  {
    hide *;
    EmbedLaws(0, 0);
    AddLaws(Times(Power(b, n), v), NIL, NIL);
    TimesAssociates(b, Power(b, n), v);
    PowerNext(b, n);
  }

  /** The first place that is not zero. */
  lemma ValueStart(b: Ext, e: seq<Sym>, i: nat)
    requires i < |e| && Clear(e, -1, i)
    ensures Value(b, e[..i + 1]) == Embed(e[i])
  {
    hide Value;
    assert e[..i + 1][..i] == e[..i];
    assert Zeros(e[..i]);
    hide Add;
    hide Times;
    ValueZeros(b, e[..i]);
    ValueLast(b, e[..i + 1]);
    TimesUnits(b);
    AddLaws(Embed(e[i]), NIL, NIL);
  }

  lemma {:induction false} ValueEnd(b: Ext, inverse: Ext, e: seq<Sym>, k: nat)
    requires Times(inverse, b) == UNIT && k < |e| && Clear(e, k, |e|) && Value(b, e) == NIL
    ensures Value(b, e[..k + 1]) == NIL
    decreases |e|
  {
    hide Value;
    hide Times;
    hide Add;
    var n := |e| - 1;
    if k < n {
      ValueLast(b, e);
      assert e[n] == 0;
      EmbedLaws(0, 0);
      AddLaws(Times(b, Value(b, e[..n])), NIL, NIL);
      Cancels(b, inverse, Value(b, e[..n]));
      ValueEnd(b, inverse, e[..n], k);
      assert e[..n][..k + 1] == e[..k + 1];
    } else {
      assert e[..k + 1] == e;
    }
  }

  /** Zero everywhere but at three places less than 1023 apart. */
  ghost predicate AtMostAt(e: seq<Sym>, i: nat, j: nat, k: nat) {
    i < j < k < |e| && k - i < 1023 && Clear(e, -1, i) && Clear(e, i, j) && Clear(e, j, k) && Clear(e, k, |e|)
  }

  lemma Places(e: seq<Sym>, i: nat, j: nat, k: nat)
    requires AtMostAt(e, i, j, k)
    ensures i < j < k < |e| && k - i < 1023
    ensures Clear(e, -1, i) && Clear(e, i, j) && Clear(e, j, k) && Clear(e, k, |e|)
  {}

  lemma RootSees(b: Ext, inverse: Ext, e: seq<Sym>, i: nat, j: nat, k: nat)
    requires Times(inverse, b) == UNIT && AtMostAt(e, i, j, k) && Value(b, e) == NIL
    ensures Vanishes(b, e[i], e[j], e[k], j - i, k - j)
  {
    hide *;
    Places(e, i, j, k);
    var m, n := j - i, k - j;
    ValueStart(b, e, i);
    ValueJump(b, e, i, j);
    ValueJump(b, e, j, k);
    ValueEnd(b, inverse, e, k);
    var x, y := Times(Power(b, m), Embed(e[i])), Embed(e[j]);
    TimesOver(Power(b, n), x, y);
    TimesAssociates(Power(b, n), Power(b, m), Embed(e[i]));
    PowerAdds(b, n, m);
    VanishesIs(b, e[i], e[j], e[k], m, n);
  }

  /** Up to three errors within 1023 symbols leave a zero remainder only if there are none. */
  lemma ThreePlaces(e: seq<Sym>, i: nat, j: nat, k: nat)
    requires AtMostAt(e, i, j, k) && Remainder(ZERO, e) == ZERO
    ensures Zeros(e)
  {
    hide *;
    Places(e, i, j, k);
    RootsFollow();
    FirstRoot();
    SecondRoot();
    ThirdRoot();
    RootOfChecked(FIRST, e);
    RootOfChecked(SECOND, e);
    RootOfChecked(THIRD, e);
    RootSees(FIRST, Ext(4, 11), e, i, j, k);
    RootSees(SECOND, Ext(19, 30), e, i, j, k);
    RootSees(THIRD, Ext(15, 31), e, i, j, k);
    ThreeTerms(e[i], e[j], e[k], j - i, k - j);
    AllClear(e, i, j, k);
  }

  lemma AllClear(e: seq<Sym>, i: nat, j: nat, k: nat)
    requires AtMostAt(e, i, j, k) && e[i] == 0 && e[j] == 0 && e[k] == 0
    ensures Zeros(e)
  {
    assert Clear(e, -1, i) && Clear(e, i, j) && Clear(e, j, k) && Clear(e, k, |e|);
    forall l | 0 <= l < |e| ensures e[l] == 0 {
      if l < i {
      } else if i < l < j {
      } else if j < l < k {
      }
    }
  }

  /** The places where two lists differ, if at all. */
  ghost predicate DifferAt(x: seq<Sym>, y: seq<Sym>, i: nat, j: nat, k: nat) {
    |x| == |y| && i <= j <= k < |x| && forall l :: 0 <= l < |x| && l != i && l != j && l != k ==> x[l] == y[l]
  }

  lemma DifferenceAt(x: seq<Sym>, y: seq<Sym>, i: nat, j: nat, k: nat)
    requires DifferAt(x, y, i, j, k) && 6 <= k - i < 1023
    ensures AtMostAt(XorSeq(x, y), i, if i < j < k then j else i + 1, k)
    ensures Zeros(XorSeq(x, y)) ==> x == y
  {
    hide XorSeq;
    var e := XorSeq(x, y);
    forall l | 0 <= l < |x| ensures e[l] == 0 <==> x[l] == y[l] {
      XorSeqAt(x, y, l);
      XorSymEqual(x[l], y[l]);
    }
    if Zeros(e) {
      assert forall l :: 0 <= l < |x| ==> x[l] == y[l];
    }
  }

  /** Two lists that differ in at most three places within a window of 1023 have different remainders. */
  lemma DetectsThree(x: seq<Sym>, y: seq<Sym>, i: nat, j: nat, k: nat)
    requires DifferAt(x, y, i, j, k) && k - i < 1023
    ensures Remainder(ONE, x) == Remainder(ONE, y) ==> x == y
  {
    hide Remainder;
    hide Xor;
    hide XorSeq;
    hide AtMostAt;
    if k - i < 6 {
      DetectsBurst(x, y, i);
    } else {
      hide DifferAt;
      DifferenceAt(x, y, i, j, k);
      RemainderLinear(ONE, ONE, x, y);
      XorSelf(ONE);
      XorEqual(Remainder(ONE, x), Remainder(ONE, y));
      if Remainder(ONE, x) == Remainder(ONE, y) {
        ThreePlaces(XorSeq(x, y), i, if i < j < k then j else i + 1, k);
      }
    }
  }

  // ----- strings

  /** Under one readable part, two symbol lists that both check cannot differ only in three places. */
  lemma SymbolErrors(hrp: string, v: seq<Sym>, w: seq<Sym>, i: nat, j: nat, k: nat)
    requires DifferAt(v, w, i, j, k) && k - i < 1023 && Checks(hrp, v) && Checks(hrp, w)
    ensures v == w
  {
    hide Remainder;
    hide Expanded;
    var m := |Expanded(hrp)|;
    var x, y := Expanded(hrp) + v, Expanded(hrp) + w;
    DetectsThree(x, y, m + i, m + j, m + k);
    assert x[m..] == v && y[m..] == w;
  }

  /** `t` is `s` with the characters at up to three places of its data part changed. */
  ghost predicate Mistyped(s: string, t: string, i: nat, j: nat, k: nat) {
    && |s| == |t| && LastOne(s) < i <= j <= k < |s|
    && forall l :: 0 <= l < |s| && l != i && l != j && l != k ==> Alike(s[l], t[l])
  }

  lemma MistypedAfter(s: string, t: string, i: nat, j: nat, k: nat)
    requires Mistyped(s, t, i, j, k)
    ensures |s| == |t| && LastOne(s) < i <= j <= k < |s|
    ensures forall l :: 0 <= l <= LastOne(s) ==> Alike(s[l], t[l])
  {
    hide LastOne;
    hide Alike;
  }

  lemma MistypedSymbols(s: string, t: string, i: nat, j: nat, k: nat, v: seq<Sym>, w: seq<Sym>)
    requires Mistyped(s, t, i, j, k) && 0 <= LastOne(s) < |s| && |v| == |w| == |s| - LastOne(s) - 1
    requires Symbols(s[LastOne(s) + 1..]) == Some(v) && Symbols(t[LastOne(s) + 1..]) == Some(w)
    ensures var first := LastOne(s) + 1; DifferAt(v, w, i - first, j - first, k - first)
  {
    hide Symbols;
    hide LastOne;
    hide Alike;
    var first := LastOne(s) + 1;
    var a, b := s[first..], t[first..];
    forall l | 0 <= l < |v| && l != i - first && l != j - first && l != k - first ensures v[l] == w[l] {
      assert a[l] == s[first + l] && b[l] == t[first + l];
      AlikeSymbols(a[l], b[l]);
      SymbolsAt(a, l);
      SymbolsAt(b, l);
    }
  }

  lemma ShortEnough(s: string)
    requires Decoded(s).Some?
    ensures |s| <= 90
  {}

  /** Up to three mistyped characters anywhere in the data part of an accepted string get it rejected, as
      long as no separator is written. */
  lemma ThreeRejected(s: string, t: string, i: nat, j: nat, k: nat)
    requires Decoded(s).Some? && Mistyped(s, t, i, j, k) && NoNewSeparator(s, t) && Lower(s) != Lower(t)
    ensures Decoded(t).None?
  {
    hide *;
    if Decoded(t).Some? {
      ShortEnough(s);
      var v := Accepted(s);
      var w := Accepted(t);
      var pos := LastOne(s);
      MistypedAfter(s, t, i, j, k);
      SeparatorStays(s, t);
      MistypedSymbols(s, t, i, j, k, v, w);
      SymbolErrors(Lower(s[..pos]), v, w, i - pos - 1, j - pos - 1, k - pos - 1);
      LowerSplit(s, pos);
      LowerSplit(t, pos);
    }
  }
}
