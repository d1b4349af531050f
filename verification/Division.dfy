/** Comparison, bit length, and shift-and-subtract division of limb arrays. */
module Division {
  import opened Powers
  import opened Limbs
  import opened Shifts

  // ----- comparison

  method CompareTo(a: array<Limb>, b: array<Limb>) returns (c: int)
    requires a.Length == b.Length
    ensures -1 <= c <= 1
    ensures c < 0 <==> Value(a[..]) < Value(b[..])
    ensures c > 0 <==> Value(a[..]) > Value(b[..])
  {
    hide *;
    var i := a.Length;
    while i > 0
      invariant 0 <= i <= a.Length && a[i..] == b[i..]
    {
      i := i - 1;
      if a[i] < b[i] {
        Decided(a[..], b[..], i);
        return -1;
      }
      if a[i] > b[i] {
        Decided(b[..], a[..], i);
        return 1;
      }
      assert a[i..] == [a[i]] + a[i + 1..] && b[i..] == [b[i]] + b[i + 1..];
    }
    assert a[..] == a[0..] && b[..] == b[0..];
    return 0;
  }

  /** The highest limb in which two numbers differ decides. */
  lemma Decided(a: seq<Limb>, b: seq<Limb>, i: nat)
    requires |a| == |b| && i < |a| && a[i] < b[i] && a[i + 1..] == b[i + 1..]
    ensures Value(a) < Value(b)
  {
    hide *;
    ValueAt(a, i);
    ValueAt(b, i);
    ValueBound(a[..i]);
    var rest := B * Value(a[i + 1..]);
    MulMono(a[i] + rest + 1, b[i] + rest, Modulus(i));
    Distribute(a[i] + rest, 1, Modulus(i));
  }

  // ----- bit length

  /** The number of bits a value needs. */
  ghost predicate BitLength(v: int, n: nat) {
    if n == 0 then v == 0 else Pow2(n - 1) <= v < Pow2(n)
  }

  method Bits(a: array<Limb>) returns (n: nat)
    ensures BitLength(Value(a[..]), n) && n <= 32 * a.Length
  {
    hide Value;
    hide Modulus;
    hide Pow2;
    var pos := a.Length;
    while pos > 0
      invariant 0 <= pos <= a.Length && forall j :: pos <= j < a.Length ==> a[j] == 0
    {
      pos := pos - 1;
      if a[pos] != 0 {
        var nbits := 31;
        Pow2At();
        while nbits > 0
          invariant 0 <= nbits <= 31 && a[pos] < Pow2(nbits + 1)
        {
          BitSet(a[pos], nbits);
          if a[pos] as int / Pow2(nbits) % 2 == 1 {
            TopBit(a[..], pos, nbits);
            return 32 * pos + nbits + 1;
          }
          nbits := nbits - 1;
        }
        One();
        TopBit(a[..], pos, 0);
        return 32 * pos + 1;
      }
    }
    ValueZeros(a[..]);
    return 0;
  }

  lemma One()
    ensures Pow2(0) == 1
  {}

  /** Testing the top bit of a number below a power of two. */
  lemma BitSet(x: nat, n: nat)
    requires x < Pow2(n + 1)
    ensures x / Pow2(n) % 2 == 1 <==> Pow2(n) <= x
  {
    var p := Pow2(n);
    if x < p {
      DivUnique(x, p, 0, x);
    } else {
      DivUnique(x, p, 1, x - p);
    }
  }

  /** The highest limb's highest bit fixes the bit length. */
  lemma TopBit(a: seq<Limb>, pos: nat, nbits: nat)
    requires pos < |a| && nbits < 32 && Pow2(nbits) <= a[pos] < Pow2(nbits + 1)
    requires forall j :: pos < j < |a| ==> a[j] == 0
    ensures BitLength(Value(a), 32 * pos + nbits + 1)
  {
    hide Value;
    hide Pow2;
    hide Modulus;
    ValueAt(a, pos);
    ValueZeros(a[pos + 1..]);
    ValueBound(a[..pos]);
    ShiftSplit(pos, nbits, 32 * pos + nbits);
    ShiftSplit(pos, nbits + 1, 32 * pos + nbits + 1);
    TopArith(Value(a), Value(a[..pos]), a[pos], Modulus(pos), Pow2(nbits), Pow2(nbits + 1));
  }

  lemma TopArith(v: int, low: int, x: int, m: int, p: int, q: int)
    requires v == low + m * x && 0 <= low < m && p <= x < q
    ensures m * p <= v < m * q
  {
    MulMono(p, x, m);
    MulMono(x + 1, q, m);
    Distribute(x, 1, m);
  }

  // ----- division

  /** Sets one bit of a number all of whose set bits are above it. */
  method SetBit(pn: array<Limb>, shift: nat, ghost k: nat)
    requires shift < 32 * pn.Length && Value(pn[..]) == k * Pow2(shift + 1)
    modifies pn
    ensures Value(pn[..]) == old(Value(pn[..])) + Pow2(shift)
  {
    hide Value;
    hide Pow2;
    hide Modulus;
    hide Or;
    ghost var q := pn[..];
    var m, j := shift / 32, shift % 32;
    BitFits(q, shift, k);
    pn[m] := Or(pn[m], Pow2(j));
    assert pn[..] == q[m := Or(q[m], Pow2(j))];
  }

  lemma BitFits(q: seq<Limb>, shift: nat, k: nat)
    requires shift < 32 * |q| && Value(q) == k * Pow2(shift + 1)
    ensures var m, j := shift / 32, shift % 32;
      && Or(q[m], Pow2(j)) < B
      && Value(q[m := Or(q[m], Pow2(j))]) == Value(q) + Pow2(shift)
  {
    hide Value;
    hide Modulus;
    hide Pow2;
    hide Or;
    var m, j := shift / 32, shift % 32;
    var h := LowBits(q, m, j + 1, k);
    Pow2Less(j, j + 1);
    OrDisjoint(Pow2(j), h, j + 1);
    Word(j + 1);
    RoomAbove(q[m], h, Pow2(j + 1), Pow2(32 - (j + 1)));
    var r := q[m := Or(q[m], Pow2(j))];
    ValueAt(q, m);
    ValueAt(r, m);
    assert r[..m] == q[..m] && r[m + 1..] == q[m + 1..];
    ShiftSplit(m, j, shift);
    AddAtLimb(Modulus(m), q[m], Pow2(j), B * Value(q[m + 1..]));
  }

  lemma AddAtLimb(m: int, x: int, p: int, rest: int)
    ensures m * (x + p + rest) == m * (x + rest) + m * p
  {}

  lemma RoomAbove(x: int, h: int, p: int, t: int)
    requires p > 0 && t * p == B && x == h * p < B
    ensures x + p <= B
  {
    if h >= t {
      MulMono(t, h, p);
    }
    MulMono(h + 1, t, p);
    Distribute(h, 1, p);
  }

  /** When the low bits of a number are clear, so are those of the limb they end in. */
  lemma LowBits(q: seq<Limb>, m: nat, j: nat, k: nat) returns (h: nat)
    requires m < |q| && j <= 32 && Value(q) == k * Pow2(32 * m + j)
    ensures q[m] == h * Pow2(j)
  {
    hide *;
    ShiftSplit(m, j, 32 * m + j);
    ValueAt(q, m);
    ValueBound(q[..m]);
    Word(j);
    h := LowArith(q[m], Value(q[..m]), Modulus(m), Value(q[m + 1..]), k, Pow2(j), Pow2(32 - j), Pow2(32 * m + j));
  }

  lemma LowArith(x: nat, low: int, m: int, high: int, k: int, p: int, t: int, ps: int) returns (h: nat)
    requires m > 0 && p > 0 && 0 <= low < m && t * p == B && ps == m * p
    requires low + m * (x + B * high) == k * ps
    ensures x == h * p
  {
    assert k * ps == k * p * m by {
      MulAssoc(k, m, p);
    }
    DivUnique(k * ps, m, x + B * high, low);
    DivUnique(k * ps, m, k * p, 0);
    assert x + B * high == k * p;
    assert B * high == high * t * p by {
      MulAssoc(high, t, p);
    }
    Distribute(k, -(high * t), p);
    var g := k - high * t;
    assert x == g * p;
    if g < 0 {
      MulMono(g, -1, p);
    }
    h := g;
  }

  method Copy(a: array<Limb>) returns (r: array<Limb>)
    ensures fresh(r) && r.Length == a.Length && r[..] == a[..]
  {
    r := new Limb[a.Length];
    for i := 0 to a.Length
      invariant r[..i] == a[..i]
    {
      r[i] := a[i];
    }
    assert a[..a.Length] == a[..] && r[..a.Length] == r[..];
  }

  /** Long division by shifting and subtracting. A zero divisor is refused, after the receiver has
      been zeroed. */
  method Divide(pn: array<Limb>, b: array<Limb>) returns (ok: bool)
    requires pn.Length == b.Length
    modifies pn
    ensures ok <==> old(Value(b[..])) != 0
    ensures Value(pn[..]) == if ok then old(Value(pn[..])) / old(Value(b[..])) else 0
  {
    hide Value;
    hide Modulus;
    hide Pow2;
    hide BitLength;
    var div := Copy(b);
    var num := Copy(pn);
    ghost var d, n := Value(b[..]), Value(pn[..]);
    Clear(pn);
    ValueZeros(pn[..]);
    var numBits := Bits(num);
    var divBits := Bits(div);
    ZeroBits(d, divBits);
    if divBits == 0 {
      return false;
    }
    if divBits > numBits {
      Shorter(n, numBits, d, divBits);
      return true;
    }
    var shift := numBits - divBits;
    Aligned(n, numBits, d, divBits, pn.Length);
    ShiftLeft(div, shift);
    Subtractions(pn, num, div, d, n, shift);
    return true;
  }

  /** The divisor shifted up. */
  ghost function Raised(d: nat, shift: nat): int {
    d * Pow2(shift)
  }

  /** The quotient so far has no bits below the current position, it and the remainder make up the
      dividend, and the remainder is below the divisor shifted one up. */
  ghost predicate Dividing(q: int, r: int, d: nat, n: nat, k: nat, shift: nat) {
    q == k * Pow2(shift) && r + q * d == n && 0 <= r < Raised(d, shift)
  }

  lemma Fits(q: int, r: int, d: nat, n: nat, k: nat, shift: nat)
    requires Dividing(q, r, d, n, k, shift + 1) && r >= Raised(d, shift)
    ensures q == k * Pow2(shift + 1)
    ensures Dividing(q + Pow2(shift), r - Raised(d, shift), d, n, 2 * k + 1, shift)
  {
    hide Pow2;
    Halve(shift, d, k);
    Distribute(q, Pow2(shift), d);
    Distribute(2 * k, 1, Pow2(shift));
  }

  lemma Misses(q: int, r: int, d: nat, n: nat, k: nat, shift: nat)
    requires Dividing(q, r, d, n, k, shift + 1) && r < Raised(d, shift)
    ensures Dividing(q, r, d, n, 2 * k, shift)
  {
    hide Pow2;
    Halve(shift, d, k);
  }

  lemma Lowered(d: nat, shift: nat)
    ensures Raised(d, shift) >= 0
    ensures shift > 0 ==> Raised(d, shift) / Pow2(1) == Raised(d, shift - 1)
  {
    Halve(shift, d, 0);
    MulMono(0, d, Pow2(shift));
  }

  lemma Divided(q: int, r: int, d: nat, n: nat, k: nat)
    requires Dividing(q, r, d, n, k, 0)
    ensures d > 0 && q == n / d
  {
    assert Pow2(0) == 1;
    DivUnique(n, d, q, r);
  }

  lemma NotStarted(r: int, d: nat, n: nat, shift: nat)
    requires r == n && n < Raised(d, shift)
    ensures Dividing(0, r, d, n, 0, shift)
  {}

  /** Subtracts the shifted divisor wherever it fits, from the aligned position down to zero. */
  method Subtractions(pn: array<Limb>, num: array<Limb>, div: array<Limb>, ghost d: nat, ghost n: nat, start: nat)
    requires pn.Length == num.Length == div.Length && pn != num && pn != div && num != div
    requires start < 32 * pn.Length
    requires Value(pn[..]) == 0 && Value(num[..]) == n && Value(div[..]) == Raised(d, start)
    requires n < Raised(d, start + 1)
    modifies pn, num, div
    ensures d > 0 && Value(pn[..]) == n / d
  {
    hide *;
    var shift: int := start;
    ghost var k: nat := 0;
    NotStarted(Value(num[..]), d, n, start + 1);
    while shift >= 0
      invariant -1 <= shift <= start
      invariant Dividing(Value(pn[..]), Value(num[..]), d, n, k, shift + 1)
      invariant shift >= 0 ==> Value(div[..]) == Raised(d, shift)
    {
      ghost var q, r := Value(pn[..]), Value(num[..]);
      Lowered(d, shift);
      var c := CompareTo(num, div);
      if c >= 0 {
        Fits(q, r, d, n, k, shift);
        ValueBound(num[..]);
        Subtract(num, div);
        NoBorrow(r, Raised(d, shift), Modulus(num.Length));
        SetBit(pn, shift, k);
        k := 2 * k + 1;
      } else {
        Misses(q, r, d, n, k, shift);
        k := 2 * k;
      }
      ShiftRight(div, 1);
      shift := shift - 1;
    }
    Divided(Value(pn[..]), Value(num[..]), d, n, k);
  }

  lemma NoBorrow(r: int, v: int, m: int)
    requires 0 <= v <= r < m
    ensures (r - v) % m == r - v
  {
    DivUnique(r - v, m, 0, r - v);
  }

  /** One position down: powers and products halve. */
  lemma Halve(shift: nat, d: nat, k: nat)
    ensures Pow2(shift + 1) == 2 * Pow2(shift)
    ensures k * Pow2(shift + 1) == 2 * k * Pow2(shift)
    ensures d * Pow2(shift + 1) == d * Pow2(shift) + d * Pow2(shift)
    ensures shift > 0 ==> d * Pow2(shift) / Pow2(1) == d * Pow2(shift - 1)
  {
    assert Pow2(1) == 2;
    hide Pow2;
    Pow2Add(1, shift);
    assert k * (2 * Pow2(shift)) == 2 * k * Pow2(shift);
    if shift > 0 {
      Pow2Add(1, shift - 1);
      assert d * (2 * Pow2(shift - 1)) == d * Pow2(shift - 1) * 2;
      DivUnique(d * Pow2(shift), 2, d * Pow2(shift - 1), 0);
    }
  }

  lemma ZeroBits(v: int, n: nat)
    requires BitLength(v, n)
    ensures n == 0 <==> v == 0
  {}

  lemma Shorter(n: int, numBits: nat, d: int, divBits: nat)
    requires BitLength(n, numBits) && BitLength(d, divBits) && divBits > numBits
    ensures d > 0 && n / d == 0
  {
    Pow2Mono(numBits, divBits - 1);
    DivUnique(n, d, 0, n);
  }

  /** Shifting the divisor up to the length of the dividend loses nothing and at most doubles past it. */
  lemma Aligned(n: int, numBits: nat, d: int, divBits: nat, w: nat)
    requires BitLength(n, numBits) && BitLength(d, divBits) && 0 < divBits <= numBits <= 32 * w
    ensures var shift := numBits - divBits;
      && d > 0 && shift < 32 * w
      && d * Pow2(shift) % Modulus(w) == Raised(d, shift)
      && n < Raised(d, shift + 1)
  {
    var shift := numBits - divBits;
    Pow2Add(divBits, shift);
    Pow2Add(divBits - 1, shift + 1);
    Pow2Mono(numBits, 32 * w);
    MulMono(d + 1, Pow2(divBits), Pow2(shift));
    Distribute(d, 1, Pow2(shift));
    MulMono(Pow2(divBits - 1), d, Pow2(shift + 1));
    hide Pow2;
    MulMono(0, d, Pow2(shift));
    DivUnique(d * Pow2(shift), Modulus(w), 0, d * Pow2(shift));
  }
}
