/** Shifts of limb arrays by any number of bits. */
module Shifts {
  import opened Powers
  import opened Limbs

  function Min(a: int, b: int): int { if a < b then a else b }

  /** The bits of a limb that a left shift pushes into the next one. */
  function High(a: Limb, s: nat): nat
    requires s < 32
  {
    DivSmaller(a, Pow2(32 - s));
    a as int / Pow2(32 - s)
  }

  function Low(a: Limb, s: nat): Limb {
    a as int * Pow2(s) % B
  }

  /** Splitting a shifted limb: the low part leaves room for what the limb below pushed up. */
  lemma ShiftedLimb(a: Limb, h: nat, s: nat)
    requires s < 32 && h < Pow2(s)
    ensures var n := h + a as int * Pow2(s);
      && Or(h, Low(a, s)) == n % B
      && High(a, s) == n / B
      && High(a, s) < Pow2(s)
  {
    hide Or;
    hide Pow2;
    Pow2At();
    Pow2Add(32 - s, s);
    var t := Pow2(32 - s);
    ShiftedArith(a, h, Pow2(s), t);
    OrDisjoint(h, a as int % t, s);
  }

  lemma ShiftedArith(a: int, h: int, p: int, t: int)
    requires p > 0 && t > 0 && t * p == B && 0 <= h < p && 0 <= a < B
    ensures a * p % B == a % t * p
    ensures (h + a * p) % B == h + a % t * p && (h + a * p) / B == a / t && a / t < p
  {
    var q, r := a / t, a % t;
    assert a == q * t + r;
    Distribute(q * t, r, p);
    assert q * t * p == q * B by {
      MulAssoc(q, t, p);
    }
    MulMono(r, t - 1, p);
    Distribute(t, -1, p);
    MulMono(0, r, p);
    DivUnique(a * p, B, q, r * p);
    DivUnique(h + a * p, B, q, h + r * p);
    if q >= p {
      MulMono(p, q, t);
    }
  }

  // ----- left

  /** What the limb below position `c` has pushed up. */
  function Pushed(a: seq<Limb>, c: nat, s: nat): nat
    requires c <= |a| && s < 32
  {
    if c == 0 then 0 else High(a[c - 1], s)
  }

  lemma PushedBound(a: seq<Limb>, c: nat, s: nat)
    requires c <= |a| && s < 32
    ensures Pushed(a, c, s) < Pow2(s) <= B
  {
    if c > 0 {
      ShiftedLimb(a[c - 1], 0, s);
    }
    Pow2At();
    Pow2Mono(s, 32);
  }

  method ShiftLeft(pn: array<Limb>, shift: nat)
    modifies pn
    ensures Value(pn[..]) == old(Value(pn[..])) * Pow2(shift) % Modulus(pn.Length)
  {
    hide Value;
    hide Modulus;
    hide Pow2;
    hide Or;
    hide LeftDone;
    hide High;
    hide Low;
    var a := pn[..];
    Clear(pn);
    var k, s := shift / 32, shift % 32;
    ghost var w := pn.Length;
    StartLeft(pn[..], a, k, s);
    for i := 0 to pn.Length
      invariant k >= w ==> forall j :: 0 <= j < w ==> pn[j] == 0
      invariant k < w ==> LeftDone(pn[..], a, Min(i, w - k), k, s)
    {
      if i + k < pn.Length {
        LeftStep(pn[..], a, i, k, s);
        LeftFits(pn[..], a, i, k, s);
        ghost var now := pn[..];
        if i + k + 1 < pn.Length && s != 0 {
          OrZeroLeft(High(a[i], s));
          pn[i + k + 1] := Or(pn[i + k + 1], High(a[i], s));
        }
        pn[i + k] := Or(pn[i + k], Low(a[i], s));
        assert pn[..] == Shifted(now, a[i], i + k, s);
      }
    }
    LeftResult(pn[..], a, k, s, shift);
  }

  /** One round of the loop. */
  function Shifted(pn: seq<Limb>, x: Limb, m: nat, s: nat): seq<nat>
    requires m < |pn| && s < 32
  {
    var p: seq<nat> := pn;
    var q := if m + 1 < |p| && s != 0 then p[m + 1 := Or(p[m + 1], High(x, s))] else p;
    q[m := Or(q[m], Low(x, s))]
  }

  /** The first `c` limbs are in place and what they push up is waiting above them. */
  ghost predicate LeftDone(pn: seq<Limb>, a: seq<Limb>, c: nat, k: nat, s: nat) {
    && |pn| == |a| && c + k <= |pn| && s < 32
    && (forall j :: c + k < j < |pn| ==> pn[j] == 0)
    && (c + k < |pn| ==> pn[c + k] == Pushed(a, c, s))
    && Value(pn[..c + k]) + Pushed(a, c, s) * Modulus(c + k) == Value(a[..c]) * Pow2(s) * Modulus(k)
  }

  lemma StartLeft(pn: seq<Limb>, a: seq<Limb>, k: nat, s: nat)
    requires |pn| == |a| && s < 32 && forall j :: 0 <= j < |pn| ==> pn[j] == 0
    ensures k < |pn| ==> LeftDone(pn, a, 0, k, s)
  {
    if k < |pn| {
      ValueZeros(pn[..k]);
      SumNone();
      hide Value;
      hide Modulus;
      hide Pow2;
      assert a[..0] == [];
    }
  }

  lemma LeftFits(pn: seq<Limb>, a: seq<Limb>, i: nat, k: nat, s: nat)
    requires i + k < |pn| && LeftDone(pn, a, i, k, s)
    ensures |a| == |pn| && s < 32 && Or(pn[i + k], Low(a[i], s)) < B && High(a[i], s) < B
    ensures i + k + 1 < |pn| ==> pn[i + k + 1] == 0
  {
    PushedBound(a, i, s);
    PushedBound(a, i + 1, s);
    ShiftedLimb(a[i], Pushed(a, i, s), s);
  }

  lemma LeftStep(pn: seq<Limb>, a: seq<Limb>, i: nat, k: nat, s: nat)
    requires i + k < |pn| && LeftDone(pn, a, i, k, s)
    ensures var r := Shifted(pn, a[i], i + k, s);
      && |r| == |pn| && (forall j :: 0 <= j < |r| ==> r[j] < B)
      && LeftDone(r, a, i + 1, k, s)
  {
    hide Value;
    hide Modulus;
    hide Pow2;
    var h, m := Pushed(a, i, s), i + k;
    PushedBound(a, i, s);
    PushedBound(a, i + 1, s);
    ShiftedLimb(a[i], h, s);
    OrZeroLeft(High(a[i], s));
    if s == 0 {
      NoPush(a[i]);
    }
    hide Or;
    hide High;
    hide Low;
    var r := Shifted(pn, a[i], m, s);
    var n := h + a[i] as int * Pow2(s);
    assert r[m] == n % B && Pushed(a, i + 1, s) == n / B;
    assert r[..m + 1] == pn[..m] + [n % B];
    LeftValue(pn[..m], a, i, k, s, h, n);
  }

  lemma NoPush(a: Limb)
    ensures High(a, 0) == 0
  {
    Pow2At();
  }

  lemma LeftValue(r: seq<Limb>, a: seq<Limb>, i: nat, k: nat, s: nat, h: nat, n: int)
    requires i < |a| && |r| == i + k && n == h + a[i] as int * Pow2(s) && n >= 0
    requires Value(r) + h * Modulus(i + k) == Value(a[..i]) * Pow2(s) * Modulus(k)
    ensures Value(r + [n % B]) + n / B * Modulus(i + k + 1) == Value(a[..i + 1]) * Pow2(s) * Modulus(k)
  {
    hide *;
    assert a[..i + 1] == a[..i] + [a[i]];
    ValueAppend(r, n % B);
    ValueAppend(a[..i], a[i]);
    ModulusStep(i + k);
    ModulusAdd(i, k);
    LeftArith(Value(r), h, Modulus(i + k), Modulus(i + k + 1), Value(a[..i]), a[i], Pow2(s), Modulus(i), Modulus(k), n);
  }

  lemma LeftArith(r: int, h: int, m: int, m1: int, x: int, a: int, p: int, mi: int, mk: int, n: int)
    requires r + h * m == x * p * mk && n == h + a * p && n >= 0 && m1 == B * m && m == mi * mk
    ensures r + (n % B) * m + n / B * m1 == (x + a * mi) * p * mk
  {
    CarryStep(r, h, m, x * p * mk, a * p, n);
    assert (x + a * mi) * p * mk == x * p * mk + a * p * m by {
      Distribute(x, a * mi, p);
      Distribute(x * p, a * mi * p, mk);
      assert a * mi * p * mk == a * p * (mi * mk);
    }
  }

  lemma LeftResult(pn: seq<Limb>, a: seq<Limb>, k: nat, s: nat, shift: nat)
    requires shift == 32 * k + s && s < 32 && |pn| == |a|
    requires k >= |pn| ==> forall j :: 0 <= j < |pn| ==> pn[j] == 0
    requires k < |pn| ==> LeftDone(pn, a, |pn| - k, k, s)
    ensures Value(pn) == Value(a) * Pow2(shift) % Modulus(|pn|)
  {
    hide *;
    if k >= |pn| {
      LeftOut(pn, a, k, s, shift);
    } else {
      LeftIn(pn, a, k, s, shift);
    }
  }

  lemma LeftOut(pn: seq<Limb>, a: seq<Limb>, k: nat, s: nat, shift: nat)
    requires shift == 32 * k + s && |pn| == |a| && k >= |pn| && forall j :: 0 <= j < |pn| ==> pn[j] == 0
    ensures Value(pn) == Value(a) * Pow2(shift) % Modulus(|pn|)
  {
    hide *;
    var w := |pn|;
    ShiftSplit(k, s, shift);
    ValueZeros(pn);
    ModulusAdd(w, k - w);
    AllOut(Value(a), Pow2(shift), Modulus(w), Modulus(k - w), Modulus(k), Pow2(s));
  }

  lemma LeftIn(pn: seq<Limb>, a: seq<Limb>, k: nat, s: nat, shift: nat)
    requires shift == 32 * k + s && s < 32 && |pn| == |a| && k < |pn| && LeftDone(pn, a, |pn| - k, k, s)
    ensures Value(pn) == Value(a) * Pow2(shift) % Modulus(|pn|)
  {
    hide *;
    var w := |pn|;
    ShiftSplit(k, s, shift);
    ValueBound(pn);
    var h := LeftTop(pn, a, k, s);
    ValueSplit(a, w - k);
    ModulusAdd(w - k, k);
    LeftResultArith(Value(a), Pow2(shift), Value(pn), h, Modulus(w), Value(a[..w - k]), Value(a[w - k..]), Pow2(s),
                    Modulus(w - k), Modulus(k));
  }

  lemma LeftTop(pn: seq<Limb>, a: seq<Limb>, k: nat, s: nat) returns (h: int)
    requires s < 32 && |pn| == |a| && k < |pn| && LeftDone(pn, a, |pn| - k, k, s)
    ensures Value(pn) + h * Modulus(|pn|) == Value(a[..|pn| - k]) * Pow2(s) * Modulus(k)
  {
    h := Pushed(a, |pn| - k, s);
    assert pn[..|pn|] == pn;
  }

  lemma ShiftSplit(k: nat, s: nat, shift: nat)
    requires shift == 32 * k + s
    ensures Pow2(shift) == Modulus(k) * Pow2(s)
  {
    Pow2Add(32 * k, s);
  }

  lemma AllOut(a: int, ps: int, m: int, t: int, mk: int, p: int)
    requires m > 0 && ps == mk * p && mk == m * t
    ensures a * ps % m == 0
  {
    assert a * (m * t * p) == a * t * p * m;
    DivUnique(a * ps, m, a * t * p, 0);
  }

  lemma LeftResultArith(a: int, ps: int, v: int, h: int, m: int, lo: int, hi: int, p: int, mw: int, mk: int)
    requires 0 <= v < m && v + h * m == lo * p * mk && m == mw * mk && a == lo + mw * hi && ps == mk * p
    ensures v == a * ps % m
  {
    assert a * ps == lo * p * mk + hi * p * m by {
      Distribute(lo, mw * hi, mk * p);
      assert lo * (mk * p) == lo * p * mk;
      assert mw * hi * (mk * p) == hi * p * (mw * mk);
    }
    Distribute(h, hi * p, m);
    DivUnique(a * ps, m, h + hi * p, v);
  }

  // ----- right

  /** The bits a right shift keeps in a limb, and those it lets fall into the limb below. */
  function Kept(a: Limb, s: nat): Limb {
    DivSmaller(a, Pow2(s));
    a as int / Pow2(s)
  }

  lemma DivSmaller(a: int, d: int)
    requires a >= 0 && d > 0
    ensures 0 <= a / d <= a
  {
    DivMono(0, a, d);
    MulMono(1, d, a / d);
  }

  function Fallen(a: Limb, s: nat): Limb
    requires s < 32
  {
    if s == 0 then 0 else Low(a, 32 - s)
  }

  lemma RightLimb(a: Limb, below: Limb, s: nat)
    requires s < 32
    ensures Or(Kept(below, s), Fallen(a, s)) == Kept(below, s) as int + Fallen(a, s) as int < B
    ensures a as int * Pow2(32 - s) == B * Kept(a, s) + Fallen(a, s)
  {
    Pow2At();
    var t, p := Pow2(32 - s), Pow2(s);
    Pow2Add(s, 32 - s);
    if s == 0 {
      OrZero(below);
    } else {
      assert p * t == B;
      ShiftedArith(below, 0, t, p);
      ShiftedArith(a, 0, t, p);
      RightRoom(below, a, p, t);
      OrDisjoint(Kept(below, s), a as int % p, 32 - s);
    }
  }

  lemma RightRoom(below: int, a: int, p: int, t: int)
    requires p > 0 && t > 0 && p * t == B && 0 <= below < B && 0 <= a < B
    ensures below / p < t && below / p + a % p * t < B
    ensures a * t == B * (a / p) + a % p * t
  {
    DivMono(below, B - 1, p);
    Distribute(t, -1, p);
    DivUnique(B - 1, p, t - 1, p - 1);
    MulMono(a % p, p - 1, t);
    Distribute(p, -1, t);
    assert a == a / p * p + a % p;
    Distribute(a / p * p, a % p, t);
    MulAssoc(a / p, p, t);
  }

  method ShiftRight(pn: array<Limb>, shift: nat)
    modifies pn
    ensures Value(pn[..]) == old(Value(pn[..])) / Pow2(shift)
  {
    hide Value;
    hide Modulus;
    hide Pow2;
    hide Or;
    var a := pn[..];
    Clear(pn);
    var k, s := shift / 32, shift % 32;
    for i := 0 to pn.Length
      invariant RightDone(pn[..], a, i, k, s)
    {
      if i >= k {
        RightStep(pn[..], a, i, k, s);
        ghost var now := pn[..];
        if i > k {
          RightLimb(a[i], a[i - 1], s);
          if s != 0 {
            pn[i - k - 1] := Or(pn[i - k - 1], Low(a[i], 32 - s));
          }
        }
        OrZeroLeft(Kept(a[i], s));
        pn[i - k] := Or(pn[i - k], Kept(a[i], s));
        assert pn[..] == Dropped(now, a, i, k, s);
      }
    }
    RightResult(pn[..], a, k, s, shift);
  }

  /** The limbs below position `i` are shifted into place; the top one still lacks what falls from above. */
  ghost predicate RightDone(pn: seq<Limb>, a: seq<Limb>, i: nat, k: nat, s: nat) {
    && |pn| == |a| && i <= |a| && s < 32
    && (forall j :: 0 <= j < |pn| && i - k <= j ==> pn[j] == 0)
    && (i > k ==> pn[i - k - 1] == Kept(a[i - 1], s) && Value(pn[..i - k]) == Value(a[k..i]) / Pow2(s))
  }

  /** One round of the loop. */
  function Dropped(pn: seq<Limb>, a: seq<Limb>, i: nat, k: nat, s: nat): seq<Limb>
    requires |pn| == |a| && k <= i < |a| && s < 32 && (i > k ==> pn[i - k - 1] == Kept(a[i - 1], s))
  {
    var q := if i > k then
               RightLimb(a[i], a[i - 1], s);
               var l: Limb := pn[i - k - 1] as int + Fallen(a[i], s) as int;
               pn[i - k - 1 := l]
             else pn;
    q[i - k := Kept(a[i], s)]
  }

  lemma RightStep(pn: seq<Limb>, a: seq<Limb>, i: nat, k: nat, s: nat)
    requires k <= i < |a| && RightDone(pn, a, i, k, s)
    ensures RightDone(Dropped(pn, a, i, k, s), a, i + 1, k, s)
  {
    hide Value;
    hide Modulus;
    hide Pow2;
    hide Or;
    var r, m := Dropped(pn, a, i, k, s), i - k;
    if m == 0 {
      assert r[..1] == [Kept(a[i], s)] && a[k..i + 1] == [a[i]];
      ValueOne(Kept(a[i], s));
      ValueOne(a[i]);
    } else {
      RightLimb(a[i], a[i - 1], s);
      var top: Limb := pn[m - 1] as int + Fallen(a[i], s) as int;
      hide Kept;
      hide Fallen;
      assert r[..m + 1] == pn[..m - 1] + [top] + [Kept(a[i], s)];
      assert pn[..m] == pn[..m - 1] + [pn[m - 1]];
      assert a[k..i + 1] == a[k..i] + [a[i]];
      RightValue(pn[..m - 1], a[k..i], pn[m - 1], top, Kept(a[i], s), Fallen(a[i], s), a[i], s);
    }
  }

  lemma RightValue(r: seq<Limb>, x: seq<Limb>, was: Limb, top: Limb, kept: Limb, fallen: Limb, a: Limb, s: nat)
    requires s < 32 && |x| == |r| + 1 && top == was as int + fallen as int
    requires Value(r + [was]) == Value(x) / Pow2(s)
    requires a as int * Pow2(32 - s) == B * kept + fallen
    ensures Value(r + [top] + [kept]) == Value(x + [a]) / Pow2(s)
  {
    hide *;
    var m := |r|;
    ValueAppend(r, was);
    ValueAppend(r, top);
    ValueAppend(r + [top], kept);
    ValueAppend(x, a);
    ModulusStep(m);
    Word(s);
    RightArith(Value(r), Value(x), was, fallen, kept, a, Modulus(m), Modulus(m + 1), Pow2(s), Pow2(32 - s));
  }

  lemma Word(s: nat)
    requires s <= 32
    ensures Pow2(32 - s) * Pow2(s) == B
  {
    Pow2At();
    Pow2Add(32 - s, s);
  }

  lemma RightArith(r: int, x: int, was: int, fallen: int, kept: int, a: int, m: int, m1: int, p: int, t: int)
    requires p > 0 && t * p == B && m1 == B * m && a * t == B * kept + fallen
    requires r + was * m == x / p
    ensures r + (was + fallen) * m + kept * m1 == (x + a * m1) / p
  {
    var up := fallen * m + kept * m1;
    assert a * m1 == up * p by {
      RightUp(fallen, kept, a, m, m1, p, t);
    }
    assert x == x / p * p + x % p;
    Distribute(x / p, up, p);
    DivUnique(x + a * m1, p, x / p + up, x % p);
    Distribute(was, fallen, m);
  }

  lemma RightUp(fallen: int, kept: int, a: int, m: int, m1: int, p: int, t: int)
    requires t * p == B && m1 == B * m && a * t == B * kept + fallen
    ensures a * m1 == (fallen * m + kept * m1) * p
  {
    assert a * m1 == a * (t * p) * m;
    assert a * (t * p) == a * t * p by {
      MulAssoc(a, t, p);
    }
    assert (fallen * m + kept * m1) == (B * kept + fallen) * m by {
      Distribute(B * kept, fallen, m);
      assert kept * (B * m) == B * kept * m;
    }
    assert a * t * m * p == a * t * p * m;
  }

  lemma RightResult(pn: seq<Limb>, a: seq<Limb>, k: nat, s: nat, shift: nat)
    requires shift == 32 * k + s && s < 32 && RightDone(pn, a, |a|, k, s)
    ensures Value(pn) == Value(a) / Pow2(shift)
  {
    hide Value;
    hide Modulus;
    hide Pow2;
    ShiftSplit(k, s, shift);
    var w := |a|;
    if k < w {
      RightIn(pn, a, k, s);
      ValueSplit(a, k);
      ValueBound(a[..k]);
      DivUnique(Value(a), Modulus(k), Value(a[k..]), Value(a[..k]));
      DivDiv(Value(a), Modulus(k), Pow2(s));
    } else {
      ValueZeros(pn);
      ValueBound(a);
      ModulusAdd(w, k - w);
      Beyond(Value(a), Modulus(w), Modulus(k - w), Modulus(k), Pow2(s), Pow2(shift));
    }
  }

  lemma RightIn(pn: seq<Limb>, a: seq<Limb>, k: nat, s: nat)
    requires s < 32 && RightDone(pn, a, |a|, k, s) && k < |a|
    ensures Value(pn) == Value(a[k..]) / Pow2(s)
  {
    hide Value;
    hide Modulus;
    var w := |a|;
    assert a[k..w] == a[k..];
    ValueSplit(pn, w - k);
    ValueZeros(pn[w - k..]);
  }

  lemma Beyond(a: int, m: int, t: int, mk: int, p: int, ps: int)
    requires 0 <= a < m && t > 0 && p > 0 && mk == m * t && ps == mk * p
    ensures a / ps == 0
  {
    MulMono(1, t, m);
    MulMono(1, p, mk);
    DivUnique(a, ps, 0, a);
  }
}
