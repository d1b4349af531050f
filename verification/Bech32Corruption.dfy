/**
 What the Bech32 checksum says about corrupted strings. A burst of at most six characters in the data
 part is always noticed, unless it writes a separator: then the string is read with another readable
 part, and may be accepted.
 */
module Bech32Corruption {
  import opened Bech32
  import opened Bech32Checksum
  import opened Collections

  /** The same character, apart from case. */
  predicate Alike(c: char, d: char) {
    LowerCase(c) == LowerCase(d)
  }

  /** Under one readable part, two symbol lists that both check cannot differ only within six
      consecutive positions. */
  lemma SymbolBurst(hrp: string, v: seq<Sym>, w: seq<Sym>, q: nat)
    requires |v| == |w| && Checks(hrp, v) && Checks(hrp, w)
    requires forall k :: 0 <= k < |v| && (k < q || q + 6 <= k) ==> v[k] == w[k]
    ensures v == w
  {
    hide Remainder;
    hide Expanded;
    var m := |Expanded(hrp)|;
    var x, y := Expanded(hrp) + v, Expanded(hrp) + w;
    DetectsBurst(x, y, m + q);
    assert x[m..] == v && y[m..] == w;
  }

  /** Two accepted strings with the same separator and readable part do not differ, apart from case,
      only within six consecutive characters. */
  lemma SameSeparator(s: string, t: string, p: nat)
    requires Decoded(s).Some? && Decoded(t).Some? && |s| == |t| && LastOne(s) == LastOne(t)
    requires Lower(s[..LastOne(s)]) == Lower(t[..LastOne(s)])
    requires forall i :: LastOne(s) < i < |s| && (i < p || p + 6 <= i) ==> Alike(s[i], t[i])
    ensures Lower(s) == Lower(t)
  {
    hide *;
    var v := Accepted(s);
    var w := Accepted(t);
    var pos := LastOne(s);
    var a, b := s[pos + 1..], t[pos + 1..];
    var q := if p <= pos then 0 else p - pos - 1;
    forall k | 0 <= k < |v| && (k < q || q + 6 <= k) ensures v[k] == w[k] {
      assert a[k] == s[pos + 1 + k] && b[k] == t[pos + 1 + k];
      AlikeSymbols(a[k], b[k]);
      SymbolsAt(a, k);
      SymbolsAt(b, k);
    }
    SymbolBurst(Lower(s[..pos]), v, w, q);
    LowerSplit(s, pos);
    LowerSplit(t, pos);
  }

  lemma AlikeSymbols(c: char, d: char)
    requires Alike(c, d)
    ensures Reverse(c) == Reverse(d)
  {
    SameLetter(c, d);
  }

  lemma AlikeOne(c: char)
    requires Alike('1', c)
    ensures c == '1'
  {}

  lemma {:induction false} AlikeLower(s: string, t: string)
    requires |s| == |t| && forall i :: 0 <= i < |s| ==> Alike(s[i], t[i])
    ensures Lower(s) == Lower(t)
  {
    if s != [] {
      AlikeLower(s[..|s| - 1], t[..|t| - 1]);
    }
  }

  /** `t` is `s` with up to six consecutive characters of the data part changed. */
  ghost predicate Corrupted(s: string, t: string, p: nat) {
    && |s| == |t|
    && (forall i :: 0 <= i <= LastOne(s) ==> Alike(s[i], t[i]))
    && (forall i :: LastOne(s) < i < |s| && (i < p || p + 6 <= i) ==> Alike(s[i], t[i]))
  }

  /** No separator has been written into the data part. */
  ghost predicate NoNewSeparator(s: string, t: string)
    requires |s| == |t|
  {
    forall i :: LastOne(s) < i < |t| ==> t[i] != '1'
  }

  /** While the strings agree up to the separator and no other is written, it stays where it is. */
  lemma SeparatorStays(s: string, t: string)
    requires |s| == |t| && 0 <= LastOne(s) && NoNewSeparator(s, t)
    requires forall i :: 0 <= i <= LastOne(s) ==> Alike(s[i], t[i])
    ensures var pos := LastOne(s);
      && pos < |s| && s[pos] == '1' && t[pos] == '1' && LastOne(t) == pos
      && Lower(s[..pos]) == Lower(t[..pos])
  {
    hide Lower;
    var pos := LastOne(s);
    assert s[pos] == '1' && Alike(s[pos], t[pos]);
    AlikeOne(t[pos]);
    AlikeLower(s[..pos], t[..pos]);
  }

  /** A burst of at most six characters in the data part of an accepted string gets it rejected, as long
      as no separator is written. */
  lemma BurstRejected(s: string, t: string, p: nat)
    requires Decoded(s).Some? && Corrupted(s, t, p) && NoNewSeparator(s, t) && Lower(s) != Lower(t)
    ensures Decoded(t).None?
  {
    hide Decoded;
    hide Lower;
    if Decoded(t).Some? {
      var _ := Accepted(s);
      SeparatorStays(s, t);
      SameSeparator(s, t, p);
    }
  }

  // ----- a separator written into the data part

  /** The remainder a string has reached just before position `e` of its data part. */
  ghost function Reached(s: string, e: nat): Rem
    requires 0 <= LastOne(s) < e <= |s|
  {
    var v := Symbols(s[LastOne(s) + 1..e]);
    Remainder(ONE, Expanded(Lower(s[..LastOne(s)])) + if v.Some? then v.value else [])
  }

  /** Whatever has been done to an accepted string `s` before position `e`, where both separators lie, the
      result `t` is accepted if and only if it is well shaped, has letters only between its separator and
      `e`, and has reached the same remainder there. */
  lemma SeparatorMoved(s: string, t: string, e: nat)
    requires Decoded(s).Some? && |s| == |t| && 0 <= LastOne(t) < e && LastOne(s) < e <= |s|
    requires forall i :: e <= i < |s| ==> Alike(s[i], t[i])
    ensures 0 <= LastOne(s)
    ensures Decoded(t).Some? <==>
            WellShaped(t) && Symbols(t[LastOne(t) + 1..e]).Some? && Reached(t, e) == Reached(s, e)
  {
    hide *;
    var tail := ReachedThenOne(s, e);
    AlikeTails(s[e..], t[e..]);
    DecodedVia(t, e);
    RemainderInjective(Reached(s, e), Reached(t, e), tail);
  }

  /** From what an accepted string has reached, the rest of its symbols lead to one. */
  lemma ReachedThenOne(s: string, e: nat) returns (tail: seq<Sym>)
    requires Decoded(s).Some? && LastOne(s) < e <= |s|
    ensures 0 <= LastOne(s) && Symbols(s[LastOne(s) + 1..e]).Some? && Symbols(s[e..]) == Some(tail)
    ensures Remainder(Reached(s, e), tail) == ONE
  {
    hide *;
    var v := Accepted(s);
    var pos := LastOne(s);
    assert s[pos + 1..] == s[pos + 1..e] + s[e..];
    SymbolsSplit(s[pos + 1..e], s[e..]);
    tail := Symbols(s[e..]).value;
    CheckedBy(Lower(s[..pos]), Symbols(s[pos + 1..e]).value, tail);
    ReachedIs(s, e);
  }

  /** A string that ends in letters is accepted if it is well shaped, has letters before them too, and these
      letters lead from what it has reached to one. */
  lemma DecodedVia(t: string, e: nat)
    requires 0 <= LastOne(t) < e <= |t| && Symbols(t[e..]).Some?
    ensures Decoded(t).Some? <==>
            && WellShaped(t) && Symbols(t[LastOne(t) + 1..e]).Some?
            && Remainder(Reached(t, e), Symbols(t[e..]).value) == ONE
  {
    hide *;
    var pos := LastOne(t);
    DecodedIs(t);
    LongEnough(t);
    assert t[pos + 1..] == t[pos + 1..e] + t[e..];
    SymbolsSplit(t[pos + 1..e], t[e..]);
    SymbolsLength(t[pos + 1..]);
    if Symbols(t[pos + 1..e]).Some? {
      CheckedBy(Lower(t[..pos]), Symbols(t[pos + 1..e]).value, Symbols(t[e..]).value);
      ReachedIs(t, e);
    }
  }

  lemma LongEnough(t: string)
    ensures WellShaped(t) ==> LastOne(t) + 7 <= |t|
  {}

  lemma {:induction false} SymbolsSplit(a: string, b: string)
    ensures Symbols(a + b).Some? <==> Symbols(a).Some? && Symbols(b).Some?
    ensures Symbols(a + b).Some? ==> Symbols(a + b).value == Symbols(a).value + Symbols(b).value
  {
    hide Reverse;
    if b == [] {
      assert a + b == a;
    } else {
      var n := |b| - 1;
      SymbolsSplit(a, b[..n]);
      assert (a + b)[..|a + b| - 1] == a + b[..n];
    }
  }

  lemma {:induction false} AlikeTails(a: string, b: string)
    requires |a| == |b| && forall i :: 0 <= i < |a| ==> Alike(a[i], b[i])
    ensures Symbols(a) == Symbols(b)
  {
    hide Reverse;
    if a != [] {
      var n := |a| - 1;
      AlikeTails(a[..n], b[..n]);
      AlikeSymbols(a[n], b[n]);
    }
  }

  lemma SymbolsLength(s: string)
    ensures Symbols(s).Some? ==> |Symbols(s).value| == |s|
  {
    if Symbols(s).Some? {
      LettersSymbols(s);
    }
  }

  lemma CheckedBy(hrp: string, head: seq<Sym>, tail: seq<Sym>)
    ensures Checks(hrp, head + tail) <==> Remainder(Remainder(ONE, Expanded(hrp) + head), tail) == ONE
  {
    hide Remainder;
    hide Expanded;
    RemainderConcat(ONE, Expanded(hrp) + head, tail);
    assert Expanded(hrp) + (head + tail) == Expanded(hrp) + head + tail;
  }

  lemma ReachedIs(s: string, q: nat)
    requires 0 <= LastOne(s) < q <= |s| && Symbols(s[LastOne(s) + 1..q]).Some?
    ensures Reached(s, q) == Remainder(ONE, Expanded(Lower(s[..LastOne(s)])) + Symbols(s[LastOne(s) + 1..q]).value)
  {}

  /** Right after the separator only the readable part counts. */
  lemma ReachedAtOnce(t: string)
    requires 0 <= LastOne(t) < |t|
    ensures Symbols(t[LastOne(t) + 1..LastOne(t) + 1]).Some?
    ensures Reached(t, LastOne(t) + 1) == Remainder(ONE, Expanded(Lower(t[..LastOne(t)])))
  {
    hide Remainder;
    hide Expanded;
    hide Lower;
    hide LastOne;
    assert t[LastOne(t) + 1..LastOne(t) + 1] == [];
    var hrp := Lower(t[..LastOne(t)]);
    assert Expanded(hrp) + [] == Expanded(hrp);
  }

  lemma DecodedIs(t: string)
    ensures Decoded(t).Some? <==>
      WellShaped(t) && var v := Symbols(t[LastOne(t) + 1..]);
        v.Some? && |v.value| >= 6 && Checks(Lower(t[..LastOne(t)]), v.value)
  {}

  // ----- such a string that is accepted

  const GOOD: string := "a1sslx8kh9q8e6"
  const MOVED: string := "a1sslx81h9q8e6"

  lemma Then(v: seq<Sym>, r: Rem, x: Sym, next: Rem)
    requires Remainder(ONE, v) == r && Step(r, x) == next
    ensures Remainder(ONE, v + [x]) == next
  {
    hide Step;
    assert (v + [x])[..|v|] == v;
  }

  lemma RunGood()
    ensures Remainder(ONE, [3, 0, 1, 16, 16, 31, 6, 7, 22]) == Rem(26, 12, 6, 25, 19, 8)
    ensures Remainder(ONE, [3, 0, 1, 16, 16, 31, 6, 7, 22, 23, 5, 0, 7, 25, 26]) == ONE
  {
    var v: seq<Sym> := [];
    hide Remainder;
    NoSymbols(ONE);
    Then(v, Rem(0, 0, 0, 0, 0, 1), 3, Rem(0, 0, 0, 0, 1, 3));
    v := v + [3];
    Then(v, Rem(0, 0, 0, 0, 1, 3), 0, Rem(0, 0, 0, 1, 3, 0));
    v := v + [0];
    Then(v, Rem(0, 0, 0, 1, 3, 0), 1, Rem(0, 0, 1, 3, 0, 1));
    v := v + [1];
    Then(v, Rem(0, 0, 1, 3, 0, 1), 16, Rem(0, 1, 3, 0, 1, 16));
    v := v + [16];
    Then(v, Rem(0, 1, 3, 0, 1, 16), 16, Rem(1, 3, 0, 1, 16, 16));
    v := v + [16];
    Then(v, Rem(1, 3, 0, 1, 16, 16), 31, Rem(30, 22, 21, 5, 13, 13));
    v := v + [31];
    Then(v, Rem(30, 22, 21, 5, 13, 13), 6, Rem(1, 15, 10, 28, 26, 31));
    v := v + [6];
    Then(v, Rem(1, 15, 10, 28, 26, 31), 7, Rem(18, 28, 8, 15, 2, 21));
    v := v + [7];
    Then(v, Rem(18, 28, 8, 15, 2, 21), 22, Rem(26, 12, 6, 25, 19, 8));
    v := v + [22];
    assert v == [3, 0, 1, 16, 16, 31, 6, 7, 22];
    Then(v, Rem(26, 12, 6, 25, 19, 8), 23, Rem(20, 22, 20, 4, 16, 20));
    v := v + [23];
    Then(v, Rem(20, 22, 20, 4, 16, 20), 5, Rem(12, 31, 14, 14, 14, 12));
    v := v + [5];
    Then(v, Rem(12, 31, 14, 14, 14, 12), 0, Rem(14, 16, 8, 4, 29, 7));
    v := v + [0];
    Then(v, Rem(14, 16, 8, 4, 29, 7), 7, Rem(18, 19, 3, 20, 5, 13));
    v := v + [7];
    Then(v, Rem(18, 19, 3, 20, 5, 13), 25, Rem(21, 7, 29, 30, 11, 7));
    v := v + [25];
    Then(v, Rem(21, 7, 29, 30, 11, 7), 26, Rem(0, 0, 0, 0, 0, 1));
    v := v + [26];
    assert v == [3, 0, 1, 16, 16, 31, 6, 7, 22, 23, 5, 0, 7, 25, 26];
  }

  lemma RunMoved()
    ensures Remainder(ONE, [3, 1, 3, 3, 3, 3, 1, 0, 1, 17, 19, 19, 12, 24, 24]) == Rem(26, 12, 6, 25, 19, 8)
  {
    var v: seq<Sym> := [];
    hide Remainder;
    NoSymbols(ONE);
    Then(v, Rem(0, 0, 0, 0, 0, 1), 3, Rem(0, 0, 0, 0, 1, 3));
    v := v + [3];
    Then(v, Rem(0, 0, 0, 0, 1, 3), 1, Rem(0, 0, 0, 1, 3, 1));
    v := v + [1];
    Then(v, Rem(0, 0, 0, 1, 3, 1), 3, Rem(0, 0, 1, 3, 1, 3));
    v := v + [3];
    Then(v, Rem(0, 0, 1, 3, 1, 3), 3, Rem(0, 1, 3, 1, 3, 3));
    v := v + [3];
    Then(v, Rem(0, 1, 3, 1, 3, 3), 3, Rem(1, 3, 1, 3, 3, 3));
    v := v + [3];
    Then(v, Rem(1, 3, 1, 3, 3, 3), 3, Rem(30, 23, 23, 22, 30, 17));
    v := v + [3];
    Then(v, Rem(30, 23, 23, 22, 30, 17), 1, Rem(0, 13, 25, 15, 6, 24));
    v := v + [1];
    Then(v, Rem(0, 13, 25, 15, 6, 24), 0, Rem(13, 25, 15, 6, 24, 0));
    v := v + [0];
    Then(v, Rem(13, 25, 15, 6, 24, 0), 1, Rem(21, 7, 20, 7, 12, 20));
    v := v + [1];
    Then(v, Rem(21, 7, 20, 7, 12, 20), 17, Rem(0, 9, 25, 7, 19, 10));
    v := v + [17];
    Then(v, Rem(0, 9, 25, 7, 19, 10), 19, Rem(9, 25, 7, 19, 10, 19));
    v := v + [19];
    Then(v, Rem(9, 25, 7, 19, 10, 19), 19, Rem(26, 5, 3, 19, 16, 28));
    v := v + [19];
    Then(v, Rem(26, 5, 3, 19, 16, 28), 12, Rem(29, 19, 30, 7, 4, 15));
    v := v + [12];
    Then(v, Rem(29, 19, 30, 7, 4, 15), 24, Rem(10, 23, 29, 3, 22, 30));
    v := v + [24];
    Then(v, Rem(10, 23, 29, 3, 22, 30), 24, Rem(26, 12, 6, 25, 19, 8));
    v := v + [24];
    assert v == [3, 1, 3, 3, 3, 3, 1, 0, 1, 17, 19, 19, 12, 24, 24];
  }

  lemma {:induction false} SymbolsAre(s: string, v: seq<Sym>)
    requires |s| == |v| && forall i :: 0 <= i < |s| ==> Reverse(s[i]) == Some(v[i])
    ensures Symbols(s) == Some(v)
  {
    hide Reverse;
    if s != [] {
      var n := |s| - 1;
      SymbolsAre(s[..n], v[..n]);
      assert v == v[..n] + [v[n]];
    }
  }

  lemma LastOneIs(s: string, p: nat)
    requires p < |s| && s[p] == '1' && forall i :: p < i < |s| ==> s[i] != '1'
    ensures LastOne(s) == p
  {}

  lemma WellShapedIs(s: string)
    requires |s| <= 90 && 0 < LastOne(s) && LastOne(s) + 7 <= |s|
    requires forall i :: 0 <= i < |s| ==> Printable(s[i]) && !IsUpper(s[i])
    ensures WellShaped(s)
  {}

  lemma GoodShape()
    ensures |GOOD| == 14 && LastOne(GOOD) == 1 && WellShaped(GOOD) && Lower(GOOD[..1]) == GOOD[..1]
  {
    hide WellShaped;
    hide Lower;
    hide LastOne;
    LastOneIs(GOOD, 1);
    WellShapedIs(GOOD);
    LowerSame(GOOD[..1]);
  }

  lemma MovedShape()
    ensures LastOne(MOVED) == 7 && WellShaped(MOVED) && Lower(MOVED[..7]) == MOVED[..7]
  {
    hide WellShaped;
    hide Lower;
    hide LastOne;
    LastOneIs(MOVED, 7);
    WellShapedIs(MOVED);
    LowerSame(MOVED[..7]);
  }

  lemma GoodSymbols()
    ensures Symbols(GOOD[2..]) == Some([16, 16, 31, 6, 7, 22, 23, 5, 0, 7, 25, 26])
    ensures Symbols(GOOD[2..8]) == Some([16, 16, 31, 6, 7, 22])
  {
    SymbolsAre(GOOD[2..], [16, 16, 31, 6, 7, 22, 23, 5, 0, 7, 25, 26]);
    SymbolsAre(GOOD[2..8], [16, 16, 31, 6, 7, 22]);
  }

  lemma GoodExpands()
    ensures Expanded(GOOD[..1]) == [3, 0, 1]
  {}

  lemma MovedExpands()
    ensures Expanded(MOVED[..7]) == [3, 1, 3, 3, 3, 3, 1, 0, 1, 17, 19, 19, 12, 24, 24]
  {
    hide Expanded;
    hide High;
    hide Low;
    MovedHigh();
    MovedLow();
    ExpandedIs(MOVED[..7], [3, 1, 3, 3, 3, 3, 1], [1, 17, 19, 19, 12, 24, 24]);
  }

  lemma MovedHigh()
    ensures var hi: seq<Sym> := [3, 1, 3, 3, 3, 3, 1]; forall i :: 0 <= i < 7 ==> High(MOVED[i]) == hi[i]
  {}

  lemma MovedLow()
    ensures var lo: seq<Sym> := [1, 17, 19, 19, 12, 24, 24]; forall i :: 0 <= i < 7 ==> Low(MOVED[i]) == lo[i]
  {}

  lemma ExpandedIs(hrp: string, hi: seq<Sym>, lo: seq<Sym>)
    requires |hi| == |lo| == |hrp| && forall i :: 0 <= i < |hrp| ==> High(hrp[i]) == hi[i] && Low(hrp[i]) == lo[i]
    ensures Expanded(hrp) == hi + [0] + lo
  {
    hide High;
    hide Low;
  }

  lemma GoodAccepted()
    ensures LastOne(GOOD) == 1 && Decoded(GOOD).Some? && Symbols(GOOD[2..8]).Some?
    ensures Reached(GOOD, 8) == Rem(26, 12, 6, 25, 19, 8)
  {
    hide *;
    GoodShape();
    GoodSymbols();
    GoodExpands();
    RunGood();
    DecodedIs(GOOD);
    ReachedIs(GOOD, 8);
    var v: seq<Sym> := [16, 16, 31, 6, 7, 22, 23, 5, 0, 7, 25, 26];
    ChecksIs(GOOD[..1], v);
    var e: seq<Sym> := [3, 0, 1];
    assert e + v == [3, 0, 1, 16, 16, 31, 6, 7, 22, 23, 5, 0, 7, 25, 26];
    assert e + [16, 16, 31, 6, 7, 22] == [3, 0, 1, 16, 16, 31, 6, 7, 22];
  }

  lemma ChecksIs(hrp: string, v: seq<Sym>)
    ensures Checks(hrp, v) <==> Remainder(ONE, Expanded(hrp) + v) == ONE
  {}

  lemma Differ()
    ensures |GOOD| == |MOVED| && forall i :: 0 <= i < |GOOD| && i != 7 ==> GOOD[i] == MOVED[i]
    ensures GOOD[7] == 'k' && MOVED[7] == '1'
  {}

  /** One changed data character can turn an accepted string into another accepted one: it becomes the
      separator. */
  lemma SeparatorCounterexample()
    ensures Decoded(GOOD).Some? && Decoded(MOVED).Some? && Lower(GOOD) != Lower(MOVED)
    ensures |GOOD| == |MOVED| && forall i :: 0 <= i < |GOOD| && i != 7 ==> GOOD[i] == MOVED[i]
    ensures LastOne(GOOD) < 7
  {
    hide *;
    GoodAccepted();
    MovedShape();
    MovedExpands();
    RunMoved();
    Differ();
    AlikeSelf();
    ReachedAtOnce(MOVED);
    SeparatorMoved(GOOD, MOVED, 8);
    LowerDiffers(GOOD, MOVED, 7);
  }

  lemma AlikeSelf()
    ensures forall c :: Alike(c, c)
  {}

  lemma LowerDiffers(s: string, t: string, i: nat)
    requires i < |s| && i < |t| && s[i] == 'k' && t[i] == '1'
    ensures Lower(s) != Lower(t)
  {
    LowerAt(s, i);
    LowerAt(t, i);
  }

  lemma {:induction false} LowerAt(s: string, i: nat)
    requires i < |s|
    ensures Lower(s)[i] == LowerCase(s[i])
  {
    if i < |s| - 1 {
      LowerAt(s[..|s| - 1], i);
    }
  }
}
