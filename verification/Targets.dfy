/** The limb-level code for compact targets, block proof and retargeting. */
module Targets {
  import opened Powers
  import opened Limbs
  import opened Products
  import opened Shifts
  import opened Division
  import opened Difficulty

  const TWO64: nat := B * B

  // ----- 64-bit values

  method FromU64(v: nat) returns (a: array<Limb>)
    requires v < TWO64
    ensures fresh(a) && a.Length == WIDTH && Value(a[..]) == v
  {
    a := new Limb[WIDTH];
    a[0] := v % B;
    Quotient(v, B, 0, B);
    a[1] := v / B;
    for i := 2 to WIDTH
      invariant a[0] == v % B && a[1] == v / B && forall j :: 2 <= j < i ==> a[j] == 0
    {
      a[i] := 0;
    }
    TwoLimbs(a[..]);
  }

  lemma TwoLimbs(a: seq<Limb>)
    requires |a| >= 2 && forall j :: 2 <= j < |a| ==> a[j] == 0
    ensures Value(a) == a[0] + B * a[1]
  {
    ValueZeros(a[2..]);
    assert a[1..][1..] == a[2..];
    ValueHead(a);
    ValueHead(a[1..]);
  }

  /** A value below 2^64 sits in the two low limbs. */
  lemma LowLimbs(a: seq<Limb>)
    requires |a| >= 2
    ensures Value(a) < TWO64 ==> Value(a) == a[0] + B * a[1] && forall j :: 2 <= j < |a| ==> a[j] == 0
  {
    ValueHead(a);
    ValueHead(a[1..]);
    assert a[1..][1..] == a[2..];
    if Value(a) < TWO64 {
      hide Value;
      AboveLow(a[0], a[1], Value(a[2..]));
      OnlyZeros(a[2..]);
    }
  }

  lemma AboveLow(x: int, y: int, r: int)
    requires 0 <= x && 0 <= y && 0 <= r && x + B * (y + B * r) < B * B
    ensures r == 0
  {}

  lemma {:induction false} OnlyZeros(s: seq<Limb>)
    requires Value(s) == 0
    ensures forall j :: 0 <= j < |s| ==> s[j] == 0
  {
    if s != [] {
      OnlyZeros(s[1..]);
    }
  }

  method EqualTo(a: array<Limb>, b: nat) returns (same: bool)
    requires a.Length >= 2 && b < TWO64
    ensures same <==> Value(a[..]) == b
  {
    LowLimbs(a[..]);
    Quotient(b, B, 0, B);
    hide Value;
    var i := a.Length - 1;
    while i >= 2
      invariant 1 <= i < a.Length && forall j :: i < j < a.Length ==> a[j] == 0
    {
      if a[i] != 0 {
        return false;
      }
      i := i - 1;
    }
    TwoLimbs(a[..]);
    DivUnique(Value(a[..]), B, a[1], a[0]);
    if a[1] != b / B {
      return false;
    }
    return a[0] == b % B;
  }

  // ----- compact form

  method SetCompact(c: U32) returns (a: array<Limb>, negative: bool, overflow: bool)
    ensures fresh(a) && a.Length == WIDTH && Value(a[..]) == Decoded(c) % Modulus(WIDTH)
    ensures negative <==> SignBit(c) && Word(c) != 0
    ensures overflow <==> Decoded(c) >= Modulus(WIDTH)
  {
    hide Value;
    hide Modulus;
    hide Pow2;
    var size := c / 0x100_0000;
    var word := c % 0x80_0000;
    if size <= 3 {
      word := Down(word, 8 * (3 - size));
      a := FromU64(word);
    } else {
      a := FromU64(word);
      ShiftLeft(a, 8 * (size - 3));
    }
    negative := word != 0 && c / 0x80_0000 % 2 == 1;
    overflow := word != 0 && (size > 34 || (word > 0xff && size > 33) || (word > 0xffff && size > 32));
    Overflow(c);
  }

  /** The mantissa as the code leaves it: shifted down for short numbers. */
  function Word(c: U32): nat {
    if Exponent(c) <= 3 then Down(Mantissa(c), 8 * (3 - Exponent(c))) else Mantissa(c)
  }

  lemma Overflow(c: U32)
    ensures Decoded(c) >= Modulus(WIDTH) <==>
            Word(c) != 0 &&
            (Exponent(c) > 34 || (Word(c) > 0xff && Exponent(c) > 33) || (Word(c) > 0xffff && Exponent(c) > 32))
    ensures Exponent(c) <= 3 ==> Decoded(c) % Modulus(WIDTH) == Decoded(c)
  {
    hide Pow2;
    Pow2At();
    var e, w := Exponent(c), Word(c);
    if e <= 3 {
      Pow2Mono(24, 256);
      DivUnique(Decoded(c), Modulus(WIDTH), 0, Decoded(c));
    } else if e <= 32 {
      Pow2Add(24, 8 * (e - 3));
      Pow2Mono(24 + 8 * (e - 3), 256);
      MulLess(w, 0x100_0000, Pow2(8 * (e - 3)));
    } else if e == 33 {
      Pow2Add(16, 240);
      Against(w, 0x1_0000, Pow2(240));
    } else if e == 34 {
      Pow2Add(8, 248);
      Against(w, 0x100, Pow2(248));
    } else {
      Pow2Mono(256, 8 * (e - 3));
      Against(w, 1, Pow2(8 * (e - 3)));
    }
  }

  lemma Against(w: int, k: int, p: int)
    requires p > 0
    ensures w * p >= k * p <==> w >= k
  {
    if w >= k {
      MulMono(k, w, p);
    } else {
      MulLess(w, k, p);
    }
  }

  /** The three leading bytes before room is made for the sign. */
  function Raw(v: nat, size: nat): nat {
    if size <= 3 then Up(v, 8 * (3 - size)) else Down(v, 8 * (size - 3))
  }

  lemma RawBounds(v: nat, n: nat, size: nat)
    requires BitLength(v, n) && size == (n + 7) / 8
    ensures Raw(v, size) < 0x100_0000
    ensures Raw(v, size) >= 0x80_0000 <==> n > 0 && n == 8 * size
  {
    Pow2At();
    Fifteen();
    if n > 0 {
      hide Pow2;
      if size <= 3 {
        var p := Pow2(8 * (3 - size));
        Scaled(n, size);
        MulMono(Pow2(n - 1), v, p);
        MulLess(v, Pow2(n), p);
      } else {
        var p := Pow2(8 * (size - 3));
        Pow2Add(24, 8 * (size - 3));
        Pow2Add(23, 8 * (size - 3));
        Pow2Mono(n, 8 * size);
        if n == 8 * size {
          Quotient(v, p, 0x80_0000, 0x100_0000);
        } else {
          Pow2Mono(n, 8 * size - 1);
          Quotient(v, p, 0, 0x80_0000);
        }
      }
    }
  }

  lemma Scaled(n: nat, size: nat)
    requires n > 0 && size == (n + 7) / 8 && size <= 3
    ensures var p := Pow2(8 * (3 - size));
      && Pow2(n) * p <= Pow2(24) && (n < 8 * size ==> Pow2(n) * p <= Pow2(23))
      && (n == 8 * size ==> Pow2(n - 1) * p == Pow2(23))
  {
    var k := 8 * (3 - size);
    Pow2Add(n, k);
    Pow2Add(n - 1, k);
    Pow2Mono(n + k, 24);
    if n < 8 * size {
      Pow2Mono(n + k, 23);
    }
  }

  /** Making room for the sign gives the compact form's length and leading bytes. */
  lemma Normalised(v: nat, n: nat, size: nat)
    requires BitLength(v, n) && size == (n + 7) / 8
    ensures if Raw(v, size) >= 0x80_0000 then ByteLen(v) == size + 1 && Leading(v) == Raw(v, size) / 256
            else ByteLen(v) == size && Leading(v) == Raw(v, size)
  {
    BitLenUnique(v, n);
    RawBounds(v, n, size);
    hide Pow2;
    if n > 0 && n == 8 * size {
      hide Raw;
      hide Leading;
      assert ByteLen(v) == size + 1;
      OneByteLess(v, size);
    }
  }

  lemma OneByteLess(v: nat, size: nat)
    requires ByteLen(v) == size + 1
    ensures Leading(v) == Raw(v, size) / 256
  {
    Pow2At();
    hide Pow2;
    hide ByteLen;
    if size <= 2 {
      var p := Pow2(8 * (2 - size));
      Pow2Add(8, 8 * (2 - size));
      assert v * (0x100 * p) == v * p * 0x100;
      DivUnique(v * (0x100 * p), 0x100, v * p, 0);
    } else if size == 3 {
      One();
    } else {
      Pow2Add(8 * (size - 3), 8);
      DivDiv(v, Pow2(8 * (size - 3)), 0x100);
    }
  }

  method GetLow64(a: array<Limb>) returns (v: nat)
    requires a.Length >= 2
    ensures Value(a[..]) < TWO64 ==> v == Value(a[..])
  {
    LowLimbs(a[..]);
    v := a[0] + B * a[1];
  }

  method RawBytes(a: array<Limb>, size: nat) returns (raw: nat)
    requires a.Length == WIDTH && Raw(Value(a[..]), size) < 0x100_0000
    requires size <= 3 ==> Value(a[..]) < TWO64
    ensures raw == Raw(Value(a[..]), size)
  {
    hide Value;
    hide Pow2;
    if size <= 3 {
      raw := GetLow64(a);
      raw := Up(raw, 8 * (3 - size)) % B;
    } else {
      var bn := Copy(a);
      ShiftRight(bn, 8 * (size - 3));
      raw := GetLow64(bn);
      raw := raw % B;
    }
  }

  method GetCompact(a: array<Limb>, negative: bool) returns (c: nat)
    requires a.Length == WIDTH
    ensures c == Encoded(Value(a[..])) + (if negative && Leading(Value(a[..])) != 0 then 0x80_0000 else 0) < B
  {
    hide Value;
    hide Pow2;
    hide Modulus;
    hide BitLength;
    hide ByteLen;
    hide Leading;
    hide Raw;
    ghost var v := Value(a[..]);
    ValueBound(a[..]);
    var n := Bits(a);
    var size := (n + 7) / 8;
    RawBounds(v, n, size);
    Normalised(v, n, size);
    Sizes(v);
    if size <= 3 {
      Small(v, n, size);
    }
    var compact := RawBytes(a, size);
    if compact / 0x80_0000 % 2 == 1 {
      compact := compact / 256;
      size := size + 1;
    }
    assert compact < 0x80_0000 && size < 256;
    c := compact + size * 0x100_0000;
    if negative && compact != 0 {
      c := c + 0x80_0000;
    }
  }

  lemma Sizes(v: nat)
    requires v < Modulus(WIDTH)
    ensures ByteLen(v) <= 33 && Leading(v) < 0x80_0000
  {
    EncodedParts(v);
    LeadingBounds(v);
  }

  lemma Small(v: nat, n: nat, size: nat)
    requires BitLength(v, n) && size == (n + 7) / 8 && size <= 3
    ensures v < TWO64
  {
    Pow2At();
    Pow2Mono(n, 24);
  }

  // ----- chain work

  /** The expected number of hashes to beat a target: 2^256 / (target + 1), and zero for a target that
      is negative, too large or zero. */
  method GetBlockProof(bits: U32) returns (work: array<Limb>)
    ensures work.Length == WIDTH
    ensures Value(work[..]) ==
            if (SignBit(bits) && Word(bits) != 0) || Decoded(bits) >= Modulus(WIDTH) || Decoded(bits) == 0 then 0
            else Modulus(WIDTH) / (Decoded(bits) + 1)
  {
    hide Value;
    hide Modulus;
    hide Pow2;
    hide Decoded;
    hide Word;
    hide SignBit;
    var target, negative, overflow := SetCompact(bits);
    var zero := EqualTo(target, 0);
    InRange(Decoded(bits));
    if negative || overflow || zero {
      work := FromU64(0);
      return;
    }
    ghost var t := Decoded(bits);
    BelowTop(bits);
    work := Complement(target);
    var one := FromU64(1);
    var next := Copy(target);
    Add(next, one);
    Same(t + 1, Modulus(WIDTH));
    ghost var rest := Value(work[..]);
    var ok := Divide(work, next);
    one := FromU64(1);
    Add(work, one);
    ProofArith(t, Modulus(WIDTH));
  }

  lemma InRange(v: nat)
    ensures v < Modulus(WIDTH) ==> v % Modulus(WIDTH) == v
  {
    if v < Modulus(WIDTH) {
      Same(v, Modulus(WIDTH));
    }
  }

  lemma Same(v: int, m: int)
    requires 0 <= v < m
    ensures v % m == v
  {
    DivUnique(v, m, 0, v);
  }

  lemma ProofArith(t: int, m: int)
    requires 0 < t && t + 1 < m
    ensures (m - 1 - t) / (t + 1) + 1 == m / (t + 1)
    ensures ((m - 1 - t) / (t + 1) + 1) % m == (m - 1 - t) / (t + 1) + 1
  {
    var d := t + 1;
    var q, r := (m - d) / d, (m - d) % d;
    assert m - d == q * d + r;
    Distribute(q, 1, d);
    DivUnique(m, d, q + 1, r);
    Quotient(m, d, 0, m);
    Same(q + 1, m);
  }

  /** No compact form stands for 2^256 - 1, so one more than a target never wraps. */
  lemma BelowTop(c: U32)
    requires Decoded(c) < Modulus(WIDTH)
    ensures Decoded(c) + 1 < Modulus(WIDTH)
  {
    Pow2At();
    Pow2Add(8, 248);
    var e := Exponent(c);
    if e <= 3 {
      DivSmaller(Mantissa(c), Pow2(8 * (3 - e)));
      Pow2Mono(24, 256);
    } else {
      var k := 8 * (e - 3);
      Pow2Add(8, k - 8);
      hide Pow2;
      EvenOdd(Mantissa(c), Pow2(k - 8), Pow2(k), Decoded(c), Pow2(248), Pow2(256));
    }
  }

  lemma EvenOdd(m: int, q: int, p: int, v: int, a: int, b: int)
    requires p == 0x100 * q && v == m * p && b == 0x100 * a && v < b
    ensures v + 1 < b
  {
    assert v == 0x100 * (m * q);
  }

  // ----- retargeting

  function Clamp(span: int, timespan: nat): int {
    if span < timespan / 4 then timespan / 4 else if span > timespan * 4 then timespan * 4 else span
  }

  /** `c` is the point of the allowed interval nearest to the real span. */
  ghost predicate Nearest(c: int, span: int, timespan: nat) {
    && timespan / 4 <= c <= timespan * 4
    && (forall x :: timespan / 4 <= x <= timespan * 4 ==> Distance(c, span) <= Distance(x, span))
  }

  function Distance(a: int, b: int): nat {
    if a < b then b - a else a - b
  }

  /** The clamped span is the allowed one nearest to the real one, and the only such; it is the real one exactly
      if that is allowed, and never shrinks as the real one grows. */
  lemma ClampNearest(span: int, timespan: nat, c: int, longer: int)
    requires span <= longer
    ensures Nearest(c, span, timespan) <==> c == Clamp(span, timespan)
    ensures Clamp(span, timespan) == span <==> timespan / 4 <= span <= timespan * 4
    ensures Clamp(span, timespan) <= Clamp(longer, timespan)
  {
    ShortSpan(timespan);
    var k := Clamp(span, timespan);
    assert Nearest(k, span, timespan);
    if Nearest(c, span, timespan) {
      assert Distance(c, span) <= Distance(k, span) && Distance(k, span) <= Distance(c, span);
    }
  }

  /** What the code computes, with every cut it makes: the target to 256 bits, the span to 32 bits and
      their product to 256 bits. */
  function NextTarget(bits: U32, span: nat, timespan: nat, limit: nat): nat
    requires timespan > 0
  {
    var m := Modulus(WIDTH);
    var next := Down2(Decoded(bits) % m * (span % B) % m, timespan);
    if next > limit then limit else next
  }

  function Down2(v: int, d: nat): nat
    requires v >= 0 && d > 0
  {
    DivSmaller(v, d);
    v / d
  }

  method CalculateNextWorkRequired(noRetargeting: bool, bits: U32, lastTime: int, firstTime: int, timespan: nat,
                                   powLimit: array<Limb>) returns (c: nat)
    requires powLimit.Length == WIDTH && 0 < timespan < TWO64
    ensures noRetargeting ==> c == bits
    ensures !noRetargeting ==>
              c == Encoded(NextTarget(bits, Clamp(lastTime - firstTime, timespan), timespan, Value(powLimit[..])))
    ensures !noRetargeting && Uncut(bits, timespan) ==>
              Retargeted(bits, lastTime - firstTime, timespan, Value(powLimit[..]), c)
  {
    hide *;
    if noRetargeting {
      return bits;
    }
    var span := lastTime - firstTime;
    if span < timespan / 4 {
      span := timespan / 4;
    }
    if span > timespan * 4 {
      span := timespan * 4;
    }
    ClampIs(lastTime - firstTime, timespan);
    c := Rescale(bits, span, timespan, powLimit);
    if Uncut(bits, timespan) {
      ThreeCases(bits, lastTime - firstTime, timespan, Value(powLimit[..]));
    }
  }

  /** Scales a target by a span and caps it. */
  method Rescale(bits: U32, span: nat, timespan: nat, powLimit: array<Limb>) returns (c: nat)
    requires powLimit.Length == WIDTH && 0 < timespan < TWO64
    ensures c == Encoded(NextTarget(bits, span, timespan, Value(powLimit[..])))
  {
    hide Value;
    hide Modulus;
    hide Decoded;
    hide Encoded;
    var next, _, _ := SetCompact(bits);
    MulSmall(next, span % B);
    var divisor := FromU64(timespan);
    var ok := Divide(next, divisor);
    var cmp := CompareTo(next, powLimit);
    if cmp > 0 {
      next := Copy(powLimit);
    }
    c := GetCompact(next, false);
  }

  lemma ClampIs(span: int, timespan: nat)
    ensures timespan / 4 <= timespan * 4
    ensures Clamp(span, timespan) ==
            if span < timespan / 4 then timespan / 4 else if span > timespan * 4 then timespan * 4 else span
  {
    ShortSpan(timespan);
  }

  /** The stored target by how long the blocks took: no less than a quarter of the span counts, and no more
      than four times. */
  ghost predicate Retargeted(bits: U32, taken: int, timespan: nat, limit: nat, c: int)
    requires timespan > 0
  {
    var t := Decoded(bits);
    && (taken < timespan / 4 ==> Stored(t * (timespan / 4) / timespan, limit, c))
    && (timespan / 4 <= taken <= timespan * 4 ==> Stored(t * taken / timespan, limit, c))
    && (timespan * 4 < taken ==> Stored(t * 4, limit, c))
  }

  /** `c` is the compact form of a target, or of the limit if that is smaller. */
  ghost predicate Stored(target: int, limit: nat, c: int) {
    target >= 0 && c == Encoded(if target > limit then limit else target)
  }

  /** Nothing is lost to the widths of the code, however long the blocks took. */
  ghost predicate Uncut(bits: U32, timespan: nat) {
    timespan * 4 < B && Decoded(bits) < Modulus(WIDTH) && Decoded(bits) * (timespan * 4) < Modulus(WIDTH)
  }

  lemma UncutSpan(bits: U32, span: nat, timespan: nat)
    requires Uncut(bits, timespan) && span <= timespan * 4
    ensures timespan * 4 < B && Decoded(bits) < Modulus(WIDTH) && Decoded(bits) * span < Modulus(WIDTH)
  {
    hide Decoded;
    hide Modulus;
    MulMono(span, timespan * 4, Decoded(bits));
  }

  lemma ThreeCases(bits: U32, taken: int, timespan: nat, limit: nat)
    requires timespan > 0 && Uncut(bits, timespan)
    ensures Clamp(taken, timespan) >= 0
    ensures Retargeted(bits, taken, timespan, limit, Encoded(NextTarget(bits, Clamp(taken, timespan), timespan, limit)))
  {
    hide Decoded;
    hide Encoded;
    hide Uncut;
    hide NextTarget;
    hide Modulus;
    ShortSpan(timespan);
    var t, span := Decoded(bits), Clamp(taken, timespan);
    UncutSpan(bits, span, timespan);
    NextTargetExact(bits, span, timespan, limit);
    MulMono(0, t, span);
    DivMono(0, t * span, timespan);
    DivUnique(0, timespan, 0, 0);
    assert t * (timespan * 4) == t * 4 * timespan;
    DivUnique(t * (timespan * 4), timespan, t * 4, 0);
  }

  /** Blocks that took longer never give a smaller target, nor a smaller stored one. */
  lemma LongerIsEasier(bits: U32, taken: int, longer: int, timespan: nat, limit: nat)
    requires timespan > 0 && Uncut(bits, timespan) && taken <= longer && limit < Modulus(WIDTH)
    ensures var a := NextTarget(bits, Clamp(taken, timespan), timespan, limit);
      var b := NextTarget(bits, Clamp(longer, timespan), timespan, limit);
      && a <= b
      && Encoded(a) < 0x1_0000_0000 && Encoded(b) < 0x1_0000_0000 && Decoded(Encoded(a)) <= Decoded(Encoded(b))
  {
    hide Decoded;
    hide Encoded;
    hide Uncut;
    hide NextTarget;
    hide Modulus;
    ShortSpan(timespan);
    ClampNearest(taken, timespan, 0, longer);
    var t, x, y := Decoded(bits), Clamp(taken, timespan), Clamp(longer, timespan);
    hide Clamp;
    ClampInside(taken, timespan);
    ClampInside(longer, timespan);
    UncutSpan(bits, x, timespan);
    UncutSpan(bits, y, timespan);
    NextTargetExact(bits, x, timespan, limit);
    NextTargetExact(bits, y, timespan, limit);
    MulMono(x, y, t);
    DivMono(t * x, t * y, timespan);
    AtMostLimit(bits, y, timespan, limit);
    StoredMonotone(NextTarget(bits, x, timespan, limit), NextTarget(bits, y, timespan, limit));
  }

  lemma ClampInside(span: int, timespan: nat)
    ensures timespan / 4 <= Clamp(span, timespan) <= timespan * 4
  {
    ShortSpan(timespan);
  }

  lemma ShortSpan(timespan: nat)
    ensures timespan / 4 <= timespan * 4
  {}

  /** While nothing is cut, the new target is the old one scaled by the clamped span, rounded down,
      and capped. */
  lemma NextTargetExact(bits: U32, span: nat, timespan: nat, limit: nat)
    requires timespan > 0 && timespan / 4 <= span <= timespan * 4 < B
    requires Decoded(bits) < Modulus(WIDTH) && Decoded(bits) * span < Modulus(WIDTH)
    ensures NextTarget(bits, span, timespan, limit) ==
            var next := Decoded(bits) * span / timespan; if next > limit then limit else next
    ensures NextTarget(bits, span, timespan, limit) <= 4 * Decoded(bits)
  {
    hide Decoded;
    hide Modulus;
    var t := Decoded(bits);
    Same(t, Modulus(WIDTH));
    Same(span, B);
    MulMono(0, t, span);
    Same(t * span, Modulus(WIDTH));
    MulMono(span, timespan * 4, t);
    DivMono(t * span, t * (timespan * 4), timespan);
    assert t * (timespan * 4) == 4 * t * timespan;
    DivUnique(t * (timespan * 4), timespan, 4 * t, 0);
  }

  /** The compact form that is stored stands for no more than the limit and at most four times the old target. */
  lemma RetargetBounds(bits: U32, span: nat, timespan: nat, limit: nat)
    requires timespan > 0 && timespan / 4 <= span <= timespan * 4 < B && limit < Modulus(WIDTH)
    requires Decoded(bits) < Modulus(WIDTH) && Decoded(bits) * span < Modulus(WIDTH)
    ensures var next := NextTarget(bits, span, timespan, limit);
      && Encoded(next) < 0x1_0000_0000
      && Decoded(Encoded(next)) <= next <= limit
      && Decoded(Encoded(next)) <= 4 * Decoded(bits)
  {
    NextTargetExact(bits, span, timespan, limit);
    hide Decoded;
    hide Modulus;
    hide Encoded;
    hide NextTarget;
    var next := NextTarget(bits, span, timespan, limit);
    AtMostLimit(bits, span, timespan, limit);
    if next == 0 {
      RoundTrip(0);
    } else {
      RoundTripError(next);
    }
  }

  lemma AtMostLimit(bits: U32, span: nat, timespan: nat, limit: nat)
    requires timespan > 0
    ensures NextTarget(bits, span, timespan, limit) <= limit
  {}
}
