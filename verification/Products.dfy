/** Multiplication of limb arrays, by a single limb and by another number. */
module Products {
  import opened Powers
  import opened Limbs

  // ----- by one limb

  method MulSmall(pn: array<Limb>, b32: Limb)
    modifies pn
    ensures Value(pn[..]) == old(Value(pn[..])) * b32 % Modulus(pn.Length)
  {
    hide Value;
    hide Modulus;
    ghost var x := pn[..];
    var carry: Limb := 0;
    SumNone();
    for i := 0 to pn.Length
      invariant pn[i..] == x[i..]
      invariant Value(pn[..i]) + carry * Modulus(i) == Value(x[..i]) * b32
    {
      assert pn[i] == pn[i..][0] == x[i];
      Product(x[i], b32, carry, 0);
      var n := carry as int + b32 as int * pn[i] as int;
      SmallMore(pn[..i], x, i, carry, b32, n);
      ghost var before := pn[..i];
      pn[i] := n % B;
      carry := n / B;
      assert pn[..i + 1] == before + [n % B];
    }
    assert x[..|x|] == x && pn[..pn.Length] == pn[..];
    ValueBound(pn[..]);
    DropCarry(Value(pn[..]), carry, Modulus(pn.Length), Value(x) * b32);
  }

  /** A product of limbs plus two limbs fits in two limbs. */
  lemma Product(a: Limb, b: Limb, c: Limb, d: Limb)
    ensures 0 <= a as int * b as int
    ensures (a as int * b as int + c as int + d as int) / B < B
  {
    MulMono(a, B - 1, b);
    MulMono(0, a, b);
    DivMono(a as int * b as int + c as int + d as int, B * B - 1, B);
    DivUnique(B * B - 1, B, B - 1, B - 1);
  }

  lemma SmallMore(r: seq<Limb>, x: seq<Limb>, i: nat, carry: Limb, b32: Limb, n: int)
    requires i < |x| && |r| == i && n == carry as int + b32 as int * x[i] as int && n >= 0
    requires Value(r) + carry * Modulus(i) == Value(x[..i]) * b32
    ensures Value(r + [n % B]) + n / B * Modulus(i + 1) == Value(x[..i + 1]) * b32
  {
    hide *;
    assert x[..i + 1] == x[..i] + [x[i]];
    ValueAppend(r, n % B);
    ValueAppend(x[..i], x[i]);
    ModulusStep(i);
    SmallArith(Value(r), carry, Modulus(i), Modulus(i + 1), Value(x[..i]), x[i], b32, n);
  }

  lemma SmallArith(r: int, carry: int, m: int, m1: int, x: int, a: int, b: int, n: int)
    requires r + carry * m == x * b && n == carry + b * a && n >= 0 && m1 == B * m
    ensures r + (n % B) * m + n / B * m1 == (x + a * m) * b
  {
    CarryStep(r, carry, m, x * b, b * a, n);
    Distribute(x, a * m, b);
    MulAssoc(b, a, m);
    MulAssoc(a, m, b);
    MulAssoc(a, b, m);
  }

  // ----- by another number

  /** The schoolbook product. The receiver is zeroed first, so an argument that is the receiver
      itself is zeroed with it and the result is zero. */
  method Multiply(pn: array<Limb>, b: array<Limb>)
    requires pn.Length == b.Length
    modifies pn
    ensures b != pn ==> Value(pn[..]) == old(Value(pn[..])) * Value(b[..]) % Modulus(pn.Length)
    ensures b == pn ==> Value(pn[..]) == 0
  {
    hide Value;
    hide Modulus;
    ghost var n := pn.Length;
    var a := pn[..];
    Clear(pn);
    if b == pn {
      Aliased(pn, a);
      return;
    }
    ghost var y := b[..];
    ghost var over := 0;
    ValueZeros(pn[..]);
    SumNone();
    for j := 0 to pn.Length
      invariant b[..] == y && |a| == n
      invariant Value(pn[..]) + over * Modulus(n) == Value(a[..j]) * Value(y)
    {
      ghost var before := pn[..];
      var carry := AddRow(pn, a[j], b, j);
      over := RowDone(before, pn[..], a, y, j, carry, over);
    }
    assert a[..n] == a;
    ValueBound(pn[..]);
    DropCarry(Value(pn[..]), over, Modulus(n), Value(a) * Value(y));
  }

  /** The same loops when the argument is the zeroed receiver. */
  method Aliased(pn: array<Limb>, a: seq<Limb>)
    requires |a| == pn.Length && forall i :: 0 <= i < pn.Length ==> pn[i] == 0
    modifies pn
    ensures Value(pn[..]) == 0
  {
    for j := 0 to pn.Length
      invariant forall i :: 0 <= i < pn.Length ==> pn[i] == 0
    {
      var carry := 0;
      for i := 0 to pn.Length - j
        invariant carry == 0 && forall i :: 0 <= i < pn.Length ==> pn[i] == 0
      {
        var n := carry + pn[i + j] as int + a[j] as int * pn[i] as int;
        assert n == 0;
        pn[i + j] := n % B;
        carry := n / B;
      }
    }
    ValueZeros(pn[..]);
  }

  /** Adds one limb times `b`, shifted by `j` limbs, and returns what is carried out of the top. */
  method AddRow(pn: array<Limb>, x: Limb, b: array<Limb>, j: nat) returns (carry: Limb)
    requires pn.Length == b.Length && j < pn.Length && b != pn
    modifies pn
    ensures Value(pn[..]) + carry * Modulus(pn.Length) ==
            old(Value(pn[..])) + x * Value(b[..pn.Length - j]) * Modulus(j)
  {
    hide Value;
    hide Modulus;
    ghost var p, y := pn[..], b[..];
    carry := 0;
    assert y[..0] == [];
    SumNone();
    for i := 0 to pn.Length - j
      invariant pn[i + j..] == p[i + j..] && b[..] == y
      invariant Value(pn[..i + j]) + carry * Modulus(i + j) == Value(p[..i + j]) + x * Value(y[..i]) * Modulus(j)
    {
      assert pn[i + j] == pn[i + j..][0] == p[i + j];
      Product(x, b[i], carry, pn[i + j]);
      var n := carry as int + pn[i + j] as int + x as int * b[i] as int;
      RowMore(pn[..i + j], p, y, i, j, x, carry, n);
      ghost var before := pn[..i + j];
      pn[i + j] := n % B;
      carry := n / B;
      assert pn[..i + j + 1] == before + [n % B];
    }
    assert pn[..pn.Length] == pn[..] && p[..|p|] == p;
  }

  lemma RowMore(r: seq<Limb>, p: seq<Limb>, y: seq<Limb>, i: nat, j: nat, x: Limb, carry: Limb, n: int)
    requires |p| == |y| && i + j < |p| && |r| == i + j
    requires n == carry as int + p[i + j] as int + x as int * y[i] as int && n >= 0
    requires Value(r) + carry * Modulus(i + j) == Value(p[..i + j]) + x * Value(y[..i]) * Modulus(j)
    ensures Value(r + [n % B]) + n / B * Modulus(i + j + 1) ==
            Value(p[..i + j + 1]) + x * Value(y[..i + 1]) * Modulus(j)
  {
    hide *;
    assert p[..i + j + 1] == p[..i + j] + [p[i + j]] && y[..i + 1] == y[..i] + [y[i]];
    ValueAppend(r, n % B);
    ValueAppend(p[..i + j], p[i + j]);
    ValueAppend(y[..i], y[i]);
    ModulusStep(i + j);
    ModulusAdd(i, j);
    RowArith(Value(r), carry, Modulus(i + j), Modulus(i + j + 1), Value(p[..i + j]), Value(y[..i]), p[i + j], y[i], x,
             Modulus(i), Modulus(j), n);
  }

  lemma RowArith(r: int, carry: int, m: int, m1: int, p: int, y: int, a: int, b: int, x: int, mi: int, mj: int, n: int)
    requires r + carry * m == p + x * y * mj && n == carry + a + x * b && n >= 0 && m1 == B * m && m == mi * mj
    ensures r + (n % B) * m + n / B * m1 == p + a * m + x * (y + b * mi) * mj
  {
    CarryStep(r, carry, m, p + x * y * mj, a + x * b, n);
    Distribute(a, x * b, m);
    assert x * (y + b * mi) * mj == x * y * mj + x * b * m by {
      RowTerm(x, y, b, mi, mj);
    }
  }

  lemma RowTerm(x: int, y: int, b: int, mi: int, mj: int)
    ensures x * (y + b * mi) * mj == x * y * mj + x * b * (mi * mj)
  {
    assert x * (y + b * mi) == x * y + x * (b * mi);
    MulAssoc(x, b, mi);
    Distribute(x * y, x * b * mi, mj);
    MulAssoc(x * b, mi, mj);
  }

  /** After a row the product of one more limb is in place, up to multiples of the modulus. */
  lemma RowDone(before: seq<Limb>, after: seq<Limb>, a: seq<Limb>, y: seq<Limb>, j: nat, carry: Limb, over: int)
      returns (more: int)
    requires |before| == |after| == |a| == |y| && j < |a|
    requires Value(after) + carry * Modulus(|a|) == Value(before) + a[j] * Value(y[..|a| - j]) * Modulus(j)
    requires Value(before) + over * Modulus(|a|) == Value(a[..j]) * Value(y)
    ensures Value(after) + more * Modulus(|a|) == Value(a[..j + 1]) * Value(y)
  {
    hide *;
    assert a[..j + 1] == a[..j] + [a[j]];
    ValueAppend(a[..j], a[j]);
    ValueSplit(y, |a| - j);
    ModulusAdd(|a| - j, j);
    more := over + carry + a[j] as int * Value(y[|a| - j..]);
    RowDoneArith(Value(before), Value(after), carry, over, Modulus(|a|), Value(a[..j]), a[j], Value(y[..|a| - j]),
                 Value(y[|a| - j..]), Modulus(|a| - j), Modulus(j));
  }

  lemma RowDoneArith(p: int, r: int, carry: int, over: int, m: int, x: int, a: int, lo: int, hi: int, mn: int, mj: int)
    requires r + carry * m == p + a * lo * mj && p + over * m == x * (lo + mn * hi) && m == mn * mj
    ensures r + (over + carry + a * hi) * m == (x + a * mj) * (lo + mn * hi)
  {
    var y := lo + mn * hi;
    Distribute(over + carry, a * hi, m);
    Distribute(over, carry, m);
    Distribute(x, a * mj, y);
    assert a * mj * y == a * lo * mj + a * hi * m by {
      RowTail(a, mj, lo, mn, hi);
    }
  }

  lemma RowTail(a: int, mj: int, lo: int, mn: int, hi: int)
    ensures a * mj * (lo + mn * hi) == a * lo * mj + a * hi * (mn * mj)
  {
    assert a * mj * (lo + mn * hi) == a * mj * lo + a * mj * (mn * hi);
    assert a * mj * lo == a * lo * mj;
    assert a * mj * (mn * hi) == a * hi * (mn * mj);
  }
}
