/**
 Fixed-width unsigned integers as arrays of 32-bit limbs, lowest limb first. Each operation works
 in place and is proved against the integers modulo two to the power of the width.
 */
module Limbs {
  import opened Powers

  const B: nat := 0x1_0000_0000

  type Limb = x: nat | x < B

  function Value(s: seq<Limb>): (v: int)
    ensures v >= 0
  {
    if s == [] then 0 else s[0] + B * Value(s[1..])
  }

  /** One more than the largest value of `n` limbs. */
  function Modulus(n: nat): (m: int)
    ensures m > 0
  {
    Pow2(32 * n)
  }

  lemma ModulusStep(n: nat)
    ensures Modulus(n + 1) == B * Modulus(n) && Modulus(0) == 1
  {
    Pow2At();
    Pow2Add(32, 32 * n);
  }

  lemma ModulusAdd(m: nat, n: nat)
    ensures Modulus(m + n) == Modulus(m) * Modulus(n)
  {
    Pow2Add(32 * m, 32 * n);
  }

  lemma {:induction false} ValueConcat(a: seq<Limb>, b: seq<Limb>)
    ensures Value(a + b) == Value(a) + Modulus(|a|) * Value(b)
  {
    if a == [] {
      assert a + b == b;
      ModulusStep(0);
    } else {
      assert (a + b)[1..] == a[1..] + b;
      ValueConcat(a[1..], b);
      ModulusStep(|a| - 1);
      ConcatStep(a[0], Value(a[1..]), Modulus(|a| - 1), Value(b));
    }
  }

  lemma ConcatStep(x: int, a: int, m: int, b: int)
    ensures x + B * (a + m * b) == x + B * a + B * m * b
  {}

  lemma ValueAppend(s: seq<Limb>, x: Limb)
    ensures Value(s + [x]) == Value(s) + x * Modulus(|s|)
  {
    hide *;
    ValueConcat(s, [x]);
    ValueOne(x);
  }

  lemma ValueOne(x: Limb)
    ensures Value([x]) == x
  {
    assert [x][1..] == [];
  }

  lemma {:induction false} ValueBound(s: seq<Limb>)
    ensures Value(s) < Modulus(|s|)
  {
    if s != [] {
      ValueBound(s[1..]);
      ModulusStep(|s| - 1);
    }
  }

  lemma {:induction false} ValueZeros(s: seq<Limb>)
    requires forall i :: 0 <= i < |s| ==> s[i] == 0
    ensures Value(s) == 0
  {
    if s != [] {
      ValueZeros(s[1..]);
    }
  }

  /** One limb of a carry loop: the limb keeps the low half, the carry takes the high half. */
  lemma CarryStep(done: int, carry: int, m: int, total: int, addend: int, n: int)
    requires done + carry * m == total && n == carry + addend && n >= 0
    ensures done + (n % B) * m + (n / B) * (B * m) == total + addend * m
  {
    MulAssoc(n / B, B, m);
    Distribute(n / B * B, n % B, m);
    Distribute(carry, addend, m);
  }

  /** A result with a carry left over is the result modulo the width. */
  lemma DropCarry(r: int, carry: int, m: int, total: int)
    requires 0 <= r < m && r + carry * m == total
    ensures total % m == r
  {
    DivUnique(total, m, carry, r);
  }

  // ----- addition and negation

  method Clear(pn: array<Limb>)
    modifies pn
    ensures forall i :: 0 <= i < pn.Length ==> pn[i] == 0
  {
    for i := 0 to pn.Length
      invariant forall j :: 0 <= j < i ==> pn[j] == 0
    {
      pn[i] := 0;
    }
  }

  method Add(pn: array<Limb>, b: array<Limb>)
    requires pn.Length == b.Length
    modifies pn
    ensures Value(pn[..]) == (old(Value(pn[..])) + old(Value(b[..]))) % Modulus(pn.Length)
  {
    hide Value;
    hide Modulus;
    ghost var x, y := pn[..], b[..];
    var carry := 0;
    SumNone();
    for i := 0 to pn.Length
      invariant 0 <= carry <= 1
      invariant pn[i..] == x[i..] && b[i..] == y[i..]
      invariant Value(pn[..i]) + carry * Modulus(i) == Value(x[..i]) + Value(y[..i])
    {
      var n := carry + pn[i] + b[i];
      assert pn[i] == pn[i..][0] == x[i] && b[i] == b[i..][0] == y[i];
      SumMore(pn[..i], x, y, i, carry);
      ghost var before := pn[..i];
      pn[i] := n % B;
      carry := n / B;
      assert pn[..i + 1] == before + [n % B];
    }
    assert x[..|x|] == x && y[..|y|] == y && pn[..pn.Length] == pn[..];
    ValueBound(pn[..]);
    DropCarry(Value(pn[..]), carry, Modulus(pn.Length), Value(x) + Value(y));
  }

  lemma SumNone()
    ensures Value([]) == 0
  {}

  lemma SumArith(r: int, carry: int, m: int, m1: int, x: int, y: int, a: int, b: int, n: int)
    requires r + carry * m == x + y && n == carry + a + b && n >= 0 && m1 == B * m
    ensures r + (n % B) * m + n / B * m1 == x + a * m + (y + b * m)
  {
    CarryStep(r, carry, m, x + y, a + b, n);
    Distribute(a, b, m);
  }

  lemma SumMore(r: seq<Limb>, x: seq<Limb>, y: seq<Limb>, i: nat, carry: nat)
    requires |x| == |y| && i < |x| && |r| == i && carry <= 1
    requires Value(r) + carry * Modulus(i) == Value(x[..i]) + Value(y[..i])
    ensures var n := carry + x[i] + y[i];
      && n / B <= 1
      && Value(r + [n % B]) + n / B * Modulus(i + 1) == Value(x[..i + 1]) + Value(y[..i + 1])
  {
    hide Value;
    hide Modulus;
    var n := carry + x[i] + y[i];
    assert x[..i + 1] == x[..i] + [x[i]] && y[..i + 1] == y[..i] + [y[i]];
    ValueAppend(r, n % B);
    ValueAppend(x[..i], x[i]);
    ValueAppend(y[..i], y[i]);
    ModulusStep(i);
    SumArith(Value(r), carry, Modulus(i), Modulus(i + 1), Value(x[..i]), Value(y[..i]), x[i], y[i], n);
  }

  lemma ValueSplit(s: seq<Limb>, i: nat)
    requires i <= |s|
    ensures Value(s) == Value(s[..i]) + Modulus(i) * Value(s[i..])
  {
    hide *;
    assert s == s[..i] + s[i..];
    ValueConcat(s[..i], s[i..]);
  }

  lemma ValueHead(s: seq<Limb>)
    requires s != []
    ensures Value(s) == s[0] + B * Value(s[1..])
  {}

  /** A value split at one limb. */
  lemma ValueAt(s: seq<Limb>, i: nat)
    requires i < |s|
    ensures Value(s) == Value(s[..i]) + Modulus(i) * (s[i] + B * Value(s[i + 1..]))
  {
    hide *;
    ValueSplit(s, i);
    assert s[i..][0] == s[i] && s[i..][1..] == s[i + 1..];
    ValueHead(s[i..]);
  }

  /** Adding one ripples through the limbs that are full. */
  method Increment(pn: array<Limb>)
    modifies pn
    ensures Value(pn[..]) == (old(Value(pn[..])) + 1) % Modulus(pn.Length)
  {
    hide *;
    ghost var x := pn[..];
    var i := 0;
    SumNone();
    ModulusStep(0);
    while i < pn.Length
      invariant i <= pn.Length && pn[i..] == x[i..]
      invariant Value(pn[..i]) == 0 && Value(x[..i]) == Modulus(i) - 1
    {
      assert pn[i] == pn[i..][0] == x[i];
      ghost var now := pn[..];
      LimbUp(x[i]);
      pn[i] := (pn[i] as int + 1) % B;
      assert pn[..i] == now[..i];
      assert pn[i + 1..] == now[i + 1..] == now[i..][1..] == x[i..][1..] == x[i + 1..];
      if pn[i] != 0 {
        Rippled(x, pn[..], i);
        return;
      }
      MoreZeros(pn[..], i);
      MoreFull(x, i);
      i := i + 1;
    }
    assert pn[..] == pn[..i] && x == x[..i];
    Wraps(Modulus(i));
  }

  lemma LimbUp(x: Limb)
    ensures (x as int + 1) % B == if x == B - 1 then 0 else x as int + 1
  {}

  lemma LimbDown(x: Limb)
    ensures (x as int - 1) % B == if x == 0 then B - 1 else x as int - 1
  {}

  lemma MoreZeros(s: seq<Limb>, i: nat)
    requires i < |s| && s[i] == 0 && Value(s[..i]) == 0
    ensures s[..i + 1][..i] == s[..i] && Value(s[..i + 1]) == 0
  {
    hide *;
    assert s[..i + 1] == s[..i] + [s[i]];
    ValueAppend(s[..i], s[i]);
  }

  lemma MoreFull(s: seq<Limb>, i: nat)
    requires i < |s| && s[i] == B - 1 && Value(s[..i]) == Modulus(i) - 1
    ensures Value(s[..i + 1]) == Modulus(i + 1) - 1
  {
    hide *;
    assert s[..i + 1] == s[..i] + [s[i]];
    ValueAppend(s[..i], s[i]);
    ModulusStep(i);
    Distribute(B, -1, Modulus(i));
  }

  lemma Wraps(m: int)
    requires m > 0
    ensures m % m == 0 && -1 % m == m - 1
  {
    DivUnique(m, m, 1, 0);
    DivUnique(-1, m, -1, m - 1);
  }

  /** Adding one to a limb above full ones adds one in all. */
  lemma RippleArith(v: int, w: int, m: int, x: int, rest: int)
    requires v == m - 1 + m * (x + rest) && w == m * (x + 1 + rest)
    ensures w == v + 1
  {
    Distribute(x + rest, 1, m);
  }

  lemma Rippled(x: seq<Limb>, r: seq<Limb>, i: nat)
    requires i < |x| == |r| && r[i] == x[i] as int + 1 && r[i + 1..] == x[i + 1..]
    requires Value(r[..i]) == 0 && Value(x[..i]) == Modulus(i) - 1
    ensures Value(r) == (Value(x) + 1) % Modulus(|x|)
  {
    hide *;
    ValueAt(x, i);
    ValueAt(r, i);
    RippleArith(Value(x), Value(r), Modulus(i), x[i], B * Value(x[i + 1..]));
    ValueBound(r);
    DivUnique(Value(r), Modulus(|x|), 0, Value(r));
  }

  method Decrement(pn: array<Limb>)
    modifies pn
    ensures Value(pn[..]) == (old(Value(pn[..])) - 1) % Modulus(pn.Length)
  {
    hide *;
    ghost var x := pn[..];
    var i := 0;
    SumNone();
    ModulusStep(0);
    while i < pn.Length
      invariant i <= pn.Length && pn[i..] == x[i..]
      invariant Value(x[..i]) == 0 && Value(pn[..i]) == Modulus(i) - 1
    {
      assert pn[i] == pn[i..][0] == x[i];
      ghost var now := pn[..];
      LimbDown(x[i]);
      pn[i] := (pn[i] as int - 1) % B;
      assert pn[..i] == now[..i];
      assert pn[i + 1..] == now[i + 1..] == now[i..][1..] == x[i..][1..] == x[i + 1..];
      if pn[i] != B - 1 {
        Borrowed(x, pn[..], i);
        return;
      }
      MoreZeros(x, i);
      MoreFull(pn[..], i);
      i := i + 1;
    }
    assert pn[..] == pn[..i] && x == x[..i];
    Wraps(Modulus(i));
  }

  lemma Borrowed(x: seq<Limb>, r: seq<Limb>, i: nat)
    requires i < |x| == |r| && r[i] == x[i] as int - 1 && r[i + 1..] == x[i + 1..]
    requires Value(x[..i]) == 0 && Value(r[..i]) == Modulus(i) - 1
    ensures Value(r) == (Value(x) - 1) % Modulus(|x|)
  {
    hide *;
    ValueAt(x, i);
    ValueAt(r, i);
    RippleArith(Value(r), Value(x), Modulus(i), r[i], B * Value(x[i + 1..]));
    ValueBound(r);
    DivUnique(Value(r), Modulus(|x|), 0, Value(r));
  }

  /** The bitwise complement. */
  method Complement(b: array<Limb>) returns (r: array<Limb>)
    ensures fresh(r) && r.Length == b.Length
    ensures Value(r[..]) == Modulus(b.Length) - 1 - Value(b[..])
  {
    hide *;
    r := new Limb[b.Length];
    SumNone();
    ModulusStep(0);
    for i := 0 to b.Length
      invariant Value(r[..i]) == Modulus(i) - 1 - Value(b[..i])
    {
      ghost var now := r[..];
      r[i] := B - 1 - b[i];
      assert r[..i + 1] == now[..i] + [r[i]];
      assert b[..i + 1] == b[..i] + [b[i]];
      ValueAppend(now[..i], r[i]);
      ValueAppend(b[..i], b[i]);
      ModulusStep(i);
      Distribute(B - 1 - b[i], b[i], Modulus(i));
      Distribute(B, -1, Modulus(i));
    }
    assert r[..] == r[..b.Length] && b[..] == b[..b.Length];
  }

  method Negate(b: array<Limb>) returns (r: array<Limb>)
    ensures fresh(r) && r.Length == b.Length
    ensures Value(r[..]) == -Value(b[..]) % Modulus(b.Length)
  {
    hide *;
    r := Complement(b);
    Increment(r);
    ModAdd(-Value(b[..]), 1, Modulus(b.Length));
  }

  method Subtract(pn: array<Limb>, b: array<Limb>)
    requires pn.Length == b.Length
    modifies pn
    ensures Value(pn[..]) == (old(Value(pn[..])) - old(Value(b[..]))) % Modulus(pn.Length)
  {
    hide *;
    ghost var x, y := Value(pn[..]), Value(b[..]);
    var minus := Negate(b);
    Add(pn, minus);
    AddMod(x, -y, Modulus(pn.Length));
  }

  lemma AddMod(a: int, b: int, m: int)
    requires m > 0
    ensures (a + b % m) % m == (a + b) % m
  {
    ModAdd(a + b % m, b / m, m);
  }
}
