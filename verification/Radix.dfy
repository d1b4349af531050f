/** Numbers written in a base, most significant digit first, and how many digits they need. */
module Radix {
  import opened Powers

  function Pow(b: nat, n: nat): nat {
    if n == 0 then 1 else b * Pow(b, n - 1)
  }

  function Num(base: nat, s: seq<nat>): nat {
    if s == [] then 0 else Num(base, s[..|s| - 1]) * base + s[|s| - 1]
  }

  ghost predicate AreDigits(base: nat, s: seq<nat>) {
    forall i :: 0 <= i < |s| ==> s[i] < base
  }

  /** Digits without leading zeros. */
  function Digits(base: nat, n: nat): seq<nat>
    requires base > 1
  {
    if n == 0 then [] else
      Shrinks(n, base);
      Digits(base, n / base) + [n % base]
  }

  lemma Shrinks(n: nat, base: nat)
    requires n > 0 && base > 1
    ensures 0 <= n / base < n && 0 <= n % base < base && n == n / base * base + n % base
  {
    var q := n / base;
    assert n == q * base + n % base;
    if q < 0 {
      MulMono(q, -1, base);
    }
    MulMono(2, base, if q < 0 then 0 else q);
  }

  lemma {:induction false} DigitsAre(base: nat, n: nat)
    requires base > 1
    ensures AreDigits(base, Digits(base, n)) && Num(base, Digits(base, n)) == n
    ensures n > 0 ==> Digits(base, n) != [] && Digits(base, n)[0] > 0
  {
    if n > 0 {
      Shrinks(n, base);
      DigitsAre(base, n / base);
      hide Digits;
      hide Num;
      DigitsStep(base, n);
      NumAppend(base, Digits(base, n / base), n % base);
      if n / base == 0 {
        NoDigits(base);
      }
    }
  }

  lemma NoDigits(base: nat)
    requires base > 1
    ensures Digits(base, 0) == []
  {}

  lemma DigitsStep(base: nat, n: nat)
    requires base > 1 && n > 0
    ensures 0 <= n / base && 0 <= n % base && Digits(base, n) == Digits(base, n / base) + [n % base]
  {
    Shrinks(n, base);
  }

  lemma NumAppend(base: nat, s: seq<nat>, d: nat)
    ensures Num(base, s + [d]) == Num(base, s) * base + d
  {
    assert (s + [d])[..|s|] == s;
  }

  /** Digits that do not start with zero are the digits of their number. */
  lemma {:induction false} DigitsOfNum(base: nat, s: seq<nat>)
    requires base > 1 && AreDigits(base, s) && (s != [] ==> s[0] > 0)
    ensures Digits(base, Num(base, s)) == s
  {
    if s != [] {
      var n := |s| - 1;
      DigitsOfNum(base, s[..n]);
      DivUnique(Num(base, s), base, Num(base, s[..n]), s[n]);
      if n > 0 {
        Positive(base, s);
      }
      assert s == s[..n] + [s[n]];
    }
  }

  lemma {:induction false} Positive(base: nat, s: seq<nat>)
    requires base > 0 && s != [] && s[0] > 0
    ensures Num(base, s) > 0
  {
    if |s| > 1 {
      Positive(base, s[..|s| - 1]);
      MulMono(1, Num(base, s[..|s| - 1]), base);
    }
  }

  lemma {:induction false} NumBound(base: nat, s: seq<nat>)
    requires base > 0 && AreDigits(base, s)
    ensures Num(base, s) < Pow(base, |s|)
  {
    if s != [] {
      var n := |s| - 1;
      NumBound(base, s[..n]);
      MulMono(Num(base, s[..n]) + 1, Pow(base, n), base);
      Distribute(Num(base, s[..n]), 1, base);
    }
  }

  lemma {:induction false} NumConcat(base: nat, a: seq<nat>, b: seq<nat>)
    ensures Num(base, a + b) == Num(base, a) * Pow(base, |b|) + Num(base, b)
  {
    if b == [] {
      assert a + b == a;
    } else {
      var n := |b| - 1;
      NumConcat(base, a, b[..n]);
      assert (a + b)[..|a + b| - 1] == a + b[..n];
      ConcatArith(Num(base, a), Pow(base, n), Num(base, b[..n]), base, b[n]);
    }
  }

  lemma ConcatArith(a: int, p: int, b: int, base: int, d: int)
    ensures (a * p + b) * base + d == a * (base * p) + (b * base + d)
  {
    Distribute(a * p, b, base);
    MulAssoc(a, p, base);
  }

  lemma {:induction false} NumZeros(base: nat, s: seq<nat>)
    requires forall i :: 0 <= i < |s| ==> s[i] == 0
    ensures Num(base, s) == 0
  {
    if s != [] {
      NumZeros(base, s[..|s| - 1]);
    }
  }

  // ----- powers

  lemma {:induction false} PowAdd(b: nat, m: nat, n: nat)
    ensures Pow(b, m + n) == Pow(b, m) * Pow(b, n)
  {
    if m > 0 {
      PowAdd(b, m - 1, n);
      MulAssoc(b, Pow(b, m - 1), Pow(b, n));
    }
  }

  lemma {:induction false} PowPow(b: nat, m: nat, n: nat)
    ensures m * n >= 0 && Pow(Pow(b, m), n) == Pow(b, m * n)
  {
    if n > 0 {
      PowPow(b, m, n - 1);
      Distribute(n - 1, 1, m);
      PowAdd(b, m, m * (n - 1));
    } else {
      assert m * n == 0;
    }
  }

  lemma {:induction false} PowMono(b: nat, m: nat, n: nat)
    requires b > 0 && m <= n
    ensures 0 < Pow(b, m) <= Pow(b, n)
  {
    if m < n {
      PowMono(b, m, n - 1);
      MulMono(1, b, Pow(b, n - 1));
    } else if m > 0 {
      PowMono(b, m - 1, m - 1);
      MulLess(0, b, Pow(b, m - 1));
    }
  }

  lemma {:induction false} BaseLess(a: nat, b: nat, n: nat)
    requires a < b && n > 0
    ensures Pow(a, n) < Pow(b, n)
  {
    if n > 1 {
      BaseLess(a, b, n - 1);
      MulMono(a, b, Pow(a, n - 1));
      MulLess(Pow(a, n - 1), Pow(b, n - 1), b);
    }
  }

  lemma {:induction false} BaseMono(a: nat, b: nat, n: nat)
    requires a <= b
    ensures Pow(a, n) <= Pow(b, n)
  {
    if a < b && n > 0 {
      BaseLess(a, b, n);
    }
  }

  ghost predicate Product(k: int, m: int, n: int) {
    k == m * n
  }

  lemma PowerOf(b: nat, m: nat, n: nat, k: nat)
    requires Product(k, m, n)
    ensures Pow(Pow(b, m), n) == Pow(b, k)
  {
    PowPow(b, m, n);
  }

  /** If a^p <= b^q then a^n <= b^m whenever m is at least q/p of n. */
  lemma Suffices(a: nat, b: nat, p: nat, q: nat, n: nat, m: nat)
    requires b > 0 && p > 0 && Pow(a, p) <= Pow(b, q) && q * n <= p * m
    ensures Pow(a, n) <= Pow(b, m)
  {
    hide Pow;
    MulMono(0, p, n);
    MulMono(0, q, n);
    SufficesBy(a, b, p, q, n, m, p * n, q * n, p * m);
  }

  lemma SufficesBy(a: nat, b: nat, p: nat, q: nat, n: nat, m: nat, k: nat, j: nat, l: nat)
    requires b > 0 && p > 0 && Pow(a, p) <= Pow(b, q) && j <= l
    requires Product(k, p, n) && Product(k, n, p) && Product(j, q, n) && Product(l, m, p)
    ensures Pow(a, n) <= Pow(b, m)
  {
    hide Pow;
    hide Product;
    BaseMono(Pow(a, p), Pow(b, q), n);
    PowerOf(a, p, n, k);
    PowerOf(b, q, n, j);
    PowMono(b, j, l);
    PowerOf(b, m, p, l);
    PowerOf(a, n, p, k);
    if Pow(a, n) > Pow(b, m) {
      BaseLess(Pow(b, m), Pow(a, n), p);
    }
  }
}
