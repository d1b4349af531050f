/** Powers of two, division with remainder, and bitwise "or" on natural numbers. */
module Powers {

  function Pow2(n: nat): (p: nat)
    ensures p > 0
  {
    if n == 0 then 1 else 2 * Pow2(n - 1)
  }

  lemma {:induction false} Pow2Add(m: nat, n: nat)
    ensures Pow2(m + n) == Pow2(m) * Pow2(n)
  {
    if m > 0 {
      Pow2Add(m - 1, n);
      MulAssoc(2, Pow2(m - 1), Pow2(n));
    }
  }

  lemma {:induction false} Pow2Less(m: nat, n: nat)
    requires m < n
    ensures 2 * Pow2(m) <= Pow2(n)
  {
    if m + 1 < n {
      Pow2Less(m, n - 1);
    }
  }

  lemma Pow2Mono(m: nat, n: nat)
    requires m <= n
    ensures Pow2(m) <= Pow2(n)
  {
    if m < n {
      Pow2Less(m, n);
    }
  }

  lemma Pow2At()
    ensures Pow2(8) == 0x100 && Pow2(16) == 0x1_0000 && Pow2(24) == 0x100_0000 && Pow2(32) == 0x1_0000_0000
  {
    assert Pow2(8) == 0x100;
    Pow2Add(8, 8);
    Pow2Add(16, 8);
    Pow2Add(16, 16);
  }

  // ----- arithmetic

  lemma MulAssoc(a: int, b: int, c: int)
    ensures a * (b * c) == a * b * c
  {}

  lemma Distribute(a: int, b: int, c: int)
    ensures (a + b) * c == a * c + b * c
  {}

  lemma MulMono(a: int, b: int, c: int)
    requires a <= b && c >= 0
    ensures a * c <= b * c
  {}

  lemma MulLess(a: int, b: int, c: int)
    requires a < b && c > 0
    ensures a * c < b * c
  {}

  /** Quotient and remainder are the only pair that fits. */
  lemma DivUnique(a: int, d: int, q: int, r: int)
    requires d > 0 && a == q * d + r && 0 <= r < d
    ensures a / d == q && a % d == r
  {
    var q', r' := a / d, a % d;
    assert a == q' * d + r';
    Distribute(q, 1, d);
    Distribute(q', 1, d);
    if q < q' {
      MulMono(q + 1, q', d);
    } else if q' < q {
      MulMono(q' + 1, q, d);
    }
  }

  /** Adding multiples of the modulus changes nothing. */
  lemma ModAdd(a: int, k: int, d: int)
    requires d > 0
    ensures (a + k * d) % d == a % d
  {
    var q, r := a / d, a % d;
    assert a == q * d + r;
    Distribute(q, k, d);
    DivUnique(a + k * d, d, q + k, r);
  }

  lemma DivMono(a: int, b: int, d: int)
    requires a <= b && d > 0
    ensures a / d <= b / d
  {
    var q, r := b / d, b % d;
    if b / d < a / d {
      MulMono(b / d + 1, a / d, d);
      Distribute(b / d, 1, d);
    }
  }

  /** Dividing twice is dividing by the product. */
  lemma DivDiv(a: int, b: int, c: int)
    requires b > 0 && c > 0
    ensures b * c > 0 && a / b / c == a / (b * c)
  {
    MulLess(0, b, c);
    var q, r := a / b, a % b;
    var s, t := q / c, q % c;
    assert a == q * b + r && q == s * c + t;
    Nested(b, c, q, r, s, t);
    DivUnique(a, b * c, s, t * b + r);
  }

  lemma Nested(b: int, c: int, q: int, r: int, s: int, t: int)
    requires b > 0 && q == s * c + t && 0 <= r < b && 0 <= t < c
    ensures q * b + r == s * (b * c) + (t * b + r) && 0 <= t * b + r < b * c
  {
    Distribute(s * c, t, b);
    assert s * c * b == s * (b * c) by {
      MulAssoc(s, c, b);
      assert c * b == b * c;
    }
    MulMono(t, c - 1, b);
    Distribute(c, -1, b);
    MulMono(0, t, b);
  }

  // ----- bits

  function Or(x: nat, y: nat): nat {
    if x == 0 && y == 0 then 0
    else (if x % 2 == 1 || y % 2 == 1 then 1 else 0) + 2 * Or(x / 2, y / 2)
  }

  lemma {:induction false} OrZero(x: nat)
    ensures Or(x, 0) == x
  {
    if x > 0 {
      OrZero(x / 2);
    }
  }

  /** When the set bits of one lie below those of the other, "or" is addition. */
  lemma {:induction false} OrDisjoint(low: nat, high: nat, n: nat)
    requires low < Pow2(n)
    ensures Or(low, high * Pow2(n)) == low + high * Pow2(n) && Or(high * Pow2(n), low) == low + high * Pow2(n)
  {
    var y := high * Pow2(n);
    if n == 0 {
      OrZero(high);
      OrZeroLeft(high);
    } else {
      var half := high * Pow2(n - 1);
      Doubled(high, Pow2(n - 1), Pow2(n));
      OrDisjoint(low / 2, high, n - 1);
      hide Pow2;
      OrStep(low, y);
      OrStep(y, low);
    }
  }

  lemma Doubled(high: nat, p: nat, q: nat)
    requires q == 2 * p
    ensures high * q == 2 * (high * p) && high * p >= 0
  {
    MulMono(0, high, p);
  }

  lemma OrStep(x: nat, y: nat)
    ensures Or(x, y) == (if x % 2 == 1 || y % 2 == 1 then 1 else 0) + 2 * Or(x / 2, y / 2)
  {}

  lemma {:induction false} OrZeroLeft(x: nat)
    ensures Or(0, x) == x
  {
    if x > 0 {
      OrZeroLeft(x / 2);
    }
  }
}
