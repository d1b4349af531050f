/**
 Compact targets, chain work and retargeting: 256-bit values with a 32-bit floating form.
 */
module Difficulty {
  import opened Powers
  import opened Limbs
  import opened Shifts
  import opened Division

  const WIDTH: nat := 8

  type U32 = x: nat | x < 0x1_0000_0000

  // ----- the compact form

  function Exponent(c: U32): nat { c / 0x100_0000 }
  function Mantissa(c: U32): nat { c % 0x80_0000 }
  function SignBit(c: U32): bool { c / 0x80_0000 % 2 == 1 }

  /** The number a compact form stands for, before it is cut to 256 bits. */
  function Decoded(c: U32): nat {
    if Exponent(c) <= 3 then Down(Mantissa(c), 8 * (3 - Exponent(c))) else Up(Mantissa(c), 8 * (Exponent(c) - 3))
  }

  function Up(v: nat, n: nat): nat {
    MulMono(0, v, Pow2(n));
    v * Pow2(n)
  }

  function Down(v: nat, n: nat): nat {
    DivSmaller(v, Pow2(n));
    v / Pow2(n)
  }

  /** The bit length of a number. */
  function BitLen(v: nat): nat {
    if v == 0 then 0 else 1 + BitLen(v / 2)
  }

  /** How many bytes the compact form gives a number: enough to keep the sign bit clear. */
  function ByteLen(v: nat): nat {
    if v == 0 then 0 else BitLen(v) / 8 + 1
  }

  /** The three leading of those bytes. */
  function Leading(v: nat): nat {
    if ByteLen(v) <= 3 then Up(v, 8 * (3 - ByteLen(v))) else Down(v, 8 * (ByteLen(v) - 3))
  }

  function Encoded(v: nat): nat {
    Leading(v) + ByteLen(v) * 0x100_0000
  }

  lemma {:induction false} BitLenIs(v: nat)
    ensures BitLength(v, BitLen(v))
  {
    if v > 0 {
      BitLenIs(v / 2);
      if v / 2 > 0 {
        assert Pow2(BitLen(v) - 1) == 2 * Pow2(BitLen(v / 2) - 1);
      }
    }
  }

  lemma BitLenUnique(v: nat, n: nat)
    requires BitLength(v, n)
    ensures n == BitLen(v)
  {
    hide Pow2;
    BitLenIs(v);
    hide BitLen;
    var m := BitLen(v);
    if 0 < n < m {
      Pow2Mono(n, m - 1);
    } else if 0 < m < n {
      Pow2Mono(m, n - 1);
    }
  }

  /** A number lies just below the power its byte length allows, and not far below. */
  lemma ByteLenBounds(v: nat)
    requires v > 0
    ensures ByteLen(v) >= 1 && v < Pow2(8 * ByteLen(v) - 1)
    ensures ByteLen(v) > 1 ==> Pow2(8 * ByteLen(v) - 9) <= v
  {
    BitLenIs(v);
    var n, s := BitLen(v), ByteLen(v);
    Pow2Mono(n, 8 * s - 1);
    if s > 1 {
      Pow2Mono(8 * s - 9, n - 1);
    }
  }

  /** The leading bytes fit the mantissa, and unless the number is short they have at least 16 bits. */
  lemma LeadingBounds(v: nat)
    ensures Leading(v) < 0x80_0000
    ensures ByteLen(v) > 3 ==> Leading(v) >= 0x8000
  {
    if v > 0 {
      ByteLenBounds(v);
      var s := ByteLen(v);
      Pow2At();
      Fifteen();
      hide Pow2;
      hide ByteLen;
      if s <= 3 {
        Pow2Add(8 * s - 1, 8 * (3 - s));
        MulMono(v + 1, Pow2(8 * s - 1), Pow2(8 * (3 - s)));
        Distribute(v, 1, Pow2(8 * (3 - s)));
      } else {
        var p := Pow2(8 * (s - 3));
        Pow2Add(23, 8 * (s - 3));
        Pow2Add(15, 8 * (s - 3));
        Quotient(v, p, 0x8000, 0x80_0000);
      }
    }
  }

  lemma Quotient(v: int, p: int, lo: int, hi: int)
    requires p > 0 && lo * p <= v < hi * p
    ensures lo <= v / p < hi
  {
    var q := v / p;
    assert v == q * p + v % p;
    if q < lo {
      MulMono(q + 1, lo, p);
      Distribute(q, 1, p);
    }
    if q >= hi {
      MulMono(hi, q, p);
    }
  }

  /** The encoding of a 256-bit number is a 32-bit compact form without sign, and reading its parts
      gives back the parts. */
  lemma EncodedParts(v: nat)
    requires v < Modulus(WIDTH)
    ensures Encoded(v) < 0x1_0000_0000 && ByteLen(v) <= 33
    ensures Exponent(Encoded(v)) == ByteLen(v) && Mantissa(Encoded(v)) == Leading(v) && !SignBit(Encoded(v))
  {
    hide Leading;
    hide ByteLen;
    hide Modulus;
    LeadingBounds(v);
    LengthFits(v);
    Parts(Leading(v), ByteLen(v));
  }

  lemma Parts(l: nat, s: nat)
    requires l < 0x80_0000 && s <= 33
    ensures var c := l + s * 0x100_0000;
      c < 0x1_0000_0000 && Exponent(c) == s && Mantissa(c) == l && !SignBit(c)
  {
    DivUnique(l + s * 0x100_0000, 0x100_0000, s, l);
    DivUnique(l + s * 0x100_0000, 0x80_0000, 2 * s, l);
  }

  lemma LengthFits(v: nat)
    requires v < Modulus(WIDTH)
    ensures ByteLen(v) <= 33
  {
    if v > 0 && ByteLen(v) > 33 {
      ByteLenBounds(v);
      Pow2Mono(256, 8 * ByteLen(v) - 9);
    }
  }

  /** Clearing the low `n` bits. */
  function Floor(v: nat, n: nat): nat {
    Up(Down(v, n), n)
  }

  /** Decoding an encoded number clears its low bytes and nothing else. */
  lemma RoundTrip(v: nat)
    requires v < Modulus(WIDTH)
    ensures Encoded(v) < 0x1_0000_0000
    ensures Decoded(Encoded(v)) == if ByteLen(v) <= 3 then v else Floor(v, 8 * (ByteLen(v) - 3))
  {
    hide Pow2;
    hide ByteLen;
    hide Modulus;
    hide Encoded;
    EncodedParts(v);
    if ByteLen(v) <= 3 {
      var p := Pow2(8 * (3 - ByteLen(v)));
      DivUnique(v * p, p, v, 0);
    }
  }

  /** The error of the compact form is less than one part in two to the fifteenth, and never upward. */
  lemma RoundTripError(v: nat)
    requires 0 < v < Modulus(WIDTH)
    ensures Encoded(v) < 0x1_0000_0000 && Decoded(Encoded(v)) <= v
    ensures (v - Decoded(Encoded(v))) * Pow2(15) < v
  {
    hide Pow2;
    hide ByteLen;
    hide Encoded;
    hide Decoded;
    hide Modulus;
    RoundTrip(v);
    LeadingBounds(v);
    Fifteen();
    var n := 8 * (ByteLen(v) - 3);
    if n > 0 {
      CutSmall(v, Pow2(n));
    }
  }

  lemma Fifteen()
    ensures Pow2(15) == 0x8000 && Pow2(23) == 0x80_0000
  {
    Pow2At();
    assert Pow2(7) == 128;
    Pow2Add(8, 7);
    Pow2Add(16, 7);
  }

  lemma CutSmall(v: int, p: int)
    requires p > 0 && v / p >= 0x8000
    ensures 0 <= v - v / p * p && (v - v / p * p) * 0x8000 < v
  {
    assert v == v / p * p + v % p;
    MulMono(0x8000, v / p, p);
  }

  /** A number that some compact form stands for survives the round trip unchanged. */
  lemma RoundTripExact(c: U32)
    requires Decoded(c) < Modulus(WIDTH)
    ensures Encoded(Decoded(c)) < 0x1_0000_0000 && Decoded(Encoded(Decoded(c))) == Decoded(c)
  {
    var v := Decoded(c);
    RoundTrip(v);
    if ByteLen(v) > 3 {
      var e := ExponentCovers(c);
      var n := 8 * (ByteLen(v) - 3);
      Pow2Add(n, 8 * e - n);
      Multiple(Mantissa(c), v, Pow2(8 * e), Pow2(n), Pow2(8 * e - n));
    }
  }

  lemma Multiple(m: int, v: int, q: int, p: int, r: int)
    requires p > 0 && v == m * q && q == p * r
    ensures v / p * p == v
  {
    assert v == m * r * p;
    DivUnique(v, p, m * r, 0);
  }

  /** A long decoded number is a multiple of at least the power its encoding drops. */
  lemma ExponentCovers(c: U32) returns (e: nat)
    requires ByteLen(Decoded(c)) > 3
    ensures Decoded(c) == Mantissa(c) * Pow2(8 * e) && ByteLen(Decoded(c)) - 3 <= e
  {
    var v := Decoded(c);
    ByteLenBounds(v);
    var s := ByteLen(v);
    hide ByteLen;
    Pow2At();
    Fifteen();
    hide Pow2;
    Pow2Mono(23, 8 * s - 9);
    if Exponent(c) <= 3 {
      DivSmaller(Mantissa(c), Pow2(8 * (3 - Exponent(c))));
    }
    e := Exponent(c) - 3;
    if s - 3 > e {
      Pow2Add(23, 8 * e);
      Pow2Mono(23 + 8 * e, 8 * s - 9);
      MulLess(Mantissa(c), 0x80_0000, Pow2(8 * e));
    }
  }

  // ----- larger numbers have larger compact forms

  lemma ByteLenMonotone(v: nat, w: nat)
    requires v <= w
    ensures ByteLen(v) <= ByteLen(w)
  {
    if v > 0 {
      ByteLenBounds(v);
      ByteLenBounds(w);
      hide ByteLen;
      hide Pow2;
      if ByteLen(v) > ByteLen(w) {
        Pow2Mono(8 * ByteLen(w) - 1, 8 * ByteLen(v) - 9);
      }
    }
  }

  lemma FloorMonotone(v: nat, w: nat, n: nat)
    requires v <= w
    ensures Floor(v, n) <= Floor(w, n)
  {
    hide Pow2;
    DivMono(v, w, Pow2(n));
    MulMono(v / Pow2(n), w / Pow2(n), Pow2(n));
  }

  lemma FloorBelow(v: nat, n: nat)
    ensures Floor(v, n) <= v
  {
    hide Pow2;
    assert v == v / Pow2(n) * Pow2(n) + v % Pow2(n);
  }

  /** Clearing low bytes leaves the leading bit. */
  lemma FloorLeads(w: nat)
    requires ByteLen(w) > 3
    ensures Floor(w, 8 * (ByteLen(w) - 3)) >= Pow2(8 * ByteLen(w) - 9)
  {
    LeadingBounds(w);
    Fifteen();
    hide Pow2;
    hide ByteLen;
    var n := 8 * (ByteLen(w) - 3);
    Pow2Add(15, n);
    MulMono(0x8000, Leading(w), Pow2(n));
  }

  /** What is stored for a larger number stands for no less. */
  lemma StoredMonotone(v: nat, w: nat)
    requires v <= w < Modulus(WIDTH)
    ensures Encoded(v) < 0x1_0000_0000 && Encoded(w) < 0x1_0000_0000
    ensures Decoded(Encoded(v)) <= Decoded(Encoded(w))
  {
    hide *;
    RoundTrip(v);
    RoundTrip(w);
    ByteLenMonotone(v, w);
    var a, b := ByteLen(v), ByteLen(w);
    if a > 3 {
      FloorBelow(v, 8 * (a - 3));
    }
    if b > 3 {
      if a == b {
        FloorMonotone(v, w, 8 * (b - 3));
      } else {
        FloorLeads(w);
        ShorterBelow(v, b);
      }
    }
  }

  lemma ShorterBelow(v: nat, b: nat)
    requires ByteLen(v) < b && b > 3
    ensures v < Pow2(8 * b - 9)
  {
    if v > 0 {
      ByteLenBounds(v);
      Pow2Mono(8 * ByteLen(v) - 1, 8 * b - 9);
    }
  }

  // ----- values from the tests of the original

  /** The easiest target of the main network, and numbers of one to four bytes. */
  lemma CompactExamples()
    ensures Decoded(0x1d00ffff) == 0xffff * Pow2(208) && Decoded(0x20123456) == 0x123456 * Pow2(232)
    ensures Decoded(0x01123456) == 0x12 && Decoded(0x02123456) == 0x1234 && Decoded(0x03123456) == 0x123456
    ensures Decoded(0x04123456) == 0x12345600 && Decoded(0x05009234) == 0x92340000
    ensures SignBit(0x04923456) && !SignBit(0x04123456)
  {
    hide *;
    LongForm(0x1d00ffff, 0x1d, 0xffff);
    LongForm(0x20123456, 0x20, 0x123456);
    LongForm(0x04123456, 0x04, 0x123456);
    LongForm(0x05009234, 0x05, 0x9234);
    ShortForm(0x01123456, 0x01, 0x123456);
    ShortForm(0x02123456, 0x02, 0x123456);
    ShortForm(0x03123456, 0x03, 0x123456);
    NoPower();
    Pow2At();
    SignBits();
  }

  lemma LongForm(c: U32, e: nat, m: nat)
    requires c == e * 0x100_0000 + m && e > 3 && m < 0x80_0000
    ensures Decoded(c) == m * Pow2(8 * (e - 3))
  {
    DivUnique(c, 0x100_0000, e, m);
    DivUnique(c, 0x80_0000, 2 * e, m);
  }

  lemma ShortForm(c: U32, e: nat, m: nat)
    requires c == e * 0x100_0000 + m && e <= 3 && m < 0x80_0000
    ensures Decoded(c) == m / Pow2(8 * (3 - e))
  {
    DivUnique(c, 0x100_0000, e, m);
    DivUnique(c, 0x80_0000, 2 * e, m);
  }

  lemma NoPower()
    ensures Pow2(0) == 1
  {}

  lemma SignBits()
    ensures SignBit(0x04923456) && !SignBit(0x04123456)
  {}
}
