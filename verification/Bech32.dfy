/** Bech32 strings: a human-readable part, a separator, and symbols ending in six of checksum. */
module Bech32 {
  import opened Bech32Checksum
  import opened Bech32Word
  import opened Collections

  // ----- characters

  function Charset(v: Sym): char {
    if v < 8 then Charset0(v) else if v < 16 then Charset1(v) else if v < 24 then Charset2(v) else Charset3(v)
  }

  function Charset0(v: Sym): char {
    if v == 0 then 'q' else if v == 1 then 'p' else if v == 2 then 'z' else if v == 3 then 'r'
    else if v == 4 then 'y' else if v == 5 then '9' else if v == 6 then 'x' else '8'
  }

  function Charset1(v: Sym): char {
    if v == 8 then 'g' else if v == 9 then 'f' else if v == 10 then '2' else if v == 11 then 't'
    else if v == 12 then 'v' else if v == 13 then 'd' else if v == 14 then 'w' else '0'
  }

  function Charset2(v: Sym): char {
    if v == 16 then 's' else if v == 17 then '3' else if v == 18 then 'j' else if v == 19 then 'n'
    else if v == 20 then '5' else if v == 21 then '4' else if v == 22 then 'k' else 'h'
  }

  function Charset3(v: Sym): char {
    if v == 24 then 'c' else if v == 25 then 'e' else if v == 26 then '6' else if v == 27 then 'm'
    else if v == 28 then 'u' else if v == 29 then 'a' else if v == 30 then '7' else 'l'
  }

  predicate IsUpper(c: char) { 'A' <= c <= 'Z' }
  predicate IsLower(c: char) { 'a' <= c <= 'z' }
  predicate Printable(c: char) { 33 <= c as int <= 126 }

  function LowerCase(c: char): char {
    if IsUpper(c) then (c as int + 32) as char else c
  }

  /** The reverse table, eight symbols at a time; its upper-case and lower-case halves agree. */
  function Reverse(c: char): Option<Sym> {
    var l := LowerCase(c);
    if Reverse0(l).Some? then Reverse0(l) else if Reverse1(l).Some? then Reverse1(l)
    else if Reverse2(l).Some? then Reverse2(l) else Reverse3(l)
  }

  function Reverse0(l: char): Option<Sym> {
    if l == 'q' then Some(0) else if l == 'p' then Some(1) else if l == 'z' then Some(2) else if l == 'r' then Some(3)
    else if l == 'y' then Some(4) else if l == '9' then Some(5) else if l == 'x' then Some(6)
    else if l == '8' then Some(7)
    else None
  }

  function Reverse1(l: char): Option<Sym> {
    if l == 'g' then Some(8) else if l == 'f' then Some(9) else if l == '2' then Some(10) else if l == 't' then Some(11)
    else if l == 'v' then Some(12) else if l == 'd' then Some(13) else if l == 'w' then Some(14)
    else if l == '0' then Some(15)
    else None
  }

  function Reverse2(l: char): Option<Sym> {
    if l == 's' then Some(16) else if l == '3' then Some(17) else if l == 'j' then Some(18)
    else if l == 'n' then Some(19)
    else if l == '5' then Some(20) else if l == '4' then Some(21) else if l == 'k' then Some(22)
    else if l == 'h' then Some(23)
    else None
  }

  function Reverse3(l: char): Option<Sym> {
    if l == 'c' then Some(24) else if l == 'e' then Some(25) else if l == '6' then Some(26)
    else if l == 'm' then Some(27)
    else if l == 'u' then Some(28) else if l == 'a' then Some(29) else if l == '7' then Some(30)
    else if l == 'l' then Some(31)
    else None
  }

  /** Printable, not upper-case and not the separator. */
  predicate Plain(c: char) {
    Printable(c) && !IsUpper(c) && c != '1'
  }

  lemma Group0(v: Sym, l: char)
    ensures v < 8 ==> Reverse0(Charset0(v)) == Some(v) && Plain(Charset0(v))
    ensures Reverse0(l).Some? ==> Charset(Reverse0(l).value) == l && l != '1'
  {}

  lemma Group1(v: Sym, l: char)
    ensures 8 <= v < 16 ==> Reverse1(Charset1(v)) == Some(v) && Plain(Charset1(v)) && Reverse0(Charset1(v)).None?
    ensures Reverse1(l).Some? ==> Charset(Reverse1(l).value) == l && l != '1'
  {}

  lemma Group2(v: Sym, l: char)
    ensures 16 <= v < 24 ==>
      && Reverse2(Charset2(v)) == Some(v) && Plain(Charset2(v))
      && Reverse0(Charset2(v)).None? && Reverse1(Charset2(v)).None?
    ensures Reverse2(l).Some? ==> Charset(Reverse2(l).value) == l && l != '1'
  {}

  lemma Group3(v: Sym, l: char)
    ensures 24 <= v ==>
      && Reverse3(Charset3(v)) == Some(v) && Plain(Charset3(v))
      && Reverse0(Charset3(v)).None? && Reverse1(Charset3(v)).None? && Reverse2(Charset3(v)).None?
    ensures Reverse3(l).Some? ==> Charset(Reverse3(l).value) == l && l != '1'
  {}

  lemma ReverseCharset(v: Sym)
    ensures Reverse(Charset(v)) == Some(v) && Plain(Charset(v))
  {
    Group0(v, 'q');
    Group1(v, 'q');
    Group2(v, 'q');
    Group3(v, 'q');
    hide Reverse0;
    hide Reverse1;
    hide Reverse2;
    hide Reverse3;
    hide Charset0;
    hide Charset1;
    hide Charset2;
    hide Charset3;
  }

  lemma CharsetReverse(c: char)
    requires Reverse(c).Some?
    ensures Charset(Reverse(c).value) == LowerCase(c) && c != '1'
  {
    var l := LowerCase(c);
    Group0(0, l);
    Group1(0, l);
    Group2(0, l);
    Group3(0, l);
    hide Reverse0;
    hide Reverse1;
    hide Reverse2;
    hide Reverse3;
    hide Charset;
  }

  // ----- checksums

  function High(c: char): Sym { (c as int / 32 % 32) as bv5 }
  function Low(c: char): Sym { (c as int % 32) as bv5 }

  /** The readable part as symbols: the high bits of each character, a zero, then the low bits. */
  function Expanded(hrp: string): seq<Sym> {
    seq(|hrp|, i requires 0 <= i < |hrp| => High(hrp[i])) + [0] + seq(|hrp|, i requires 0 <= i < |hrp| => Low(hrp[i]))
  }

  method ExpandHrp(hrp: string) returns (ret: seq<Sym>)
    ensures ret == Expanded(hrp)
  {
    ret := seq(2 * |hrp| + 1, _ => 0);
    for i := 0 to |hrp|
      invariant |ret| == 2 * |hrp| + 1 && ret[|hrp|] == 0
      invariant forall j :: 0 <= j < i ==> ret[j] == High(hrp[j]) && ret[|hrp| + 1 + j] == Low(hrp[j])
    {
      ret := ret[i := High(hrp[i])];
      ret := ret[i + |hrp| + 1 := Low(hrp[i])];
    }
    ret := ret[|hrp| := 0];
  }

  ghost predicate Checks(hrp: string, values: seq<Sym>) {
    Remainder(ONE, Expanded(hrp) + values) == ONE
  }

  method VerifyChecksum(hrp: string, values: seq<Sym>) returns (ok: bool)
    ensures ok <==> Checks(hrp, values)
  {
    hide Packed;
    hide Remainder;
    var enc := ExpandHrp(hrp);
    var c := PolyMod(enc + values);
    PackedOne(Remainder(ONE, enc + values));
    ok := c == 1;
  }

  const SIX_ZEROS: seq<Sym> := [0, 0, 0, 0, 0, 0]

  function Checksum(hrp: string, values: seq<Sym>): (r: seq<Sym>)
    ensures |r| == 6
  {
    var mod := Xor(Remainder(ONE, Expanded(hrp) + values + SIX_ZEROS), ONE);
    [mod.c0, mod.c1, mod.c2, mod.c3, mod.c4, mod.c5]
  }

  method CreateChecksum(hrp: string, values: seq<Sym>) returns (ret: seq<Sym>)
    ensures ret == Checksum(hrp, values)
  {
    hide *;
    var enc := ExpandHrp(hrp);
    enc := enc + values + SIX_ZEROS;
    var mod := PolyMod(enc);
    Flipped(Remainder(ONE, enc), mod);
    mod := mod ^ 1;
    var r := Unpacked(mod);
    ret := [r.c0, r.c1, r.c2, r.c3, r.c4, r.c5];
    ChecksumOf(hrp, values);
  }

  lemma Flipped(r: Rem, mod: Word)
    requires mod == Packed(r)
    ensures Unpacked(mod ^ 1) == Xor(r, ONE)
  {
    hide *;
    PackedFlip(r);
    Unpacking(Xor(r, ONE));
  }

  lemma ChecksumOf(hrp: string, values: seq<Sym>)
    ensures var m := Xor(Remainder(ONE, Expanded(hrp) + values + SIX_ZEROS), ONE);
      Checksum(hrp, values) == [m.c0, m.c1, m.c2, m.c3, m.c4, m.c5]
  {
    hide Remainder;
    hide Xor;
  }

  /** The checksum is right, and it is the only one that is. */
  lemma ChecksumIs(hrp: string, values: seq<Sym>, last: seq<Sym>)
    requires |last| == 6
    ensures Checks(hrp, values + last) <==> last == Checksum(hrp, values)
  {
    hide Checksum;
    hide Expanded;
    ChecksumValid(hrp, values);
    var cs := Checksum(hrp, values);
    if Checks(hrp, values + last) {
      hide Remainder;
      var x, y := Expanded(hrp) + (values + last), Expanded(hrp) + (values + cs);
      DetectsBurst(x, y, |Expanded(hrp)| + |values|);
      var n := |Expanded(hrp)| + |values|;
      assert x[n..] == last && y[n..] == cs;
    }
  }

  lemma ChecksumValid(hrp: string, values: seq<Sym>)
    ensures Checks(hrp, values + Checksum(hrp, values))
  {
    hide Remainder;
    hide Xor;
    hide Expanded;
    var a := Expanded(hrp) + values;
    var c := Remainder(ONE, a);
    var r := Remainder(ONE, a + SIX_ZEROS);
    var cs := Checksum(hrp, values);
    RemainderConcat(ONE, a, SIX_ZEROS);
    RemainderConcat(ONE, a, cs);
    RemainderLinear(c, ZERO, SIX_ZEROS, cs);
    ZeroLeft(cs);
    SixSymbols(cs);
    XorZero();
    XorAssoc(r, r, ONE);
    XorSelf(r);
    XorCommutes(ZERO, ONE);
    assert a + cs == Expanded(hrp) + (values + cs);
  }

  lemma ZeroLeft(v: seq<Sym>)
    requires |v| == 6
    ensures XorSeq(SIX_ZEROS, v) == v
  {
    forall i | 0 <= i < 6 ensures XorSeq(SIX_ZEROS, v)[i] == v[i] {
      XorSeqAt(SIX_ZEROS, v, i);
      XorSymZero(v[i]);
    }
  }

  lemma XorSymZero(v: Sym)
    ensures 0 ^ v == v
  {}

  // ----- strings

  function Letters(v: seq<Sym>): (r: string)
    ensures |r| == |v|
  {
    if v == [] then [] else Letters(v[..|v| - 1]) + [Charset(v[|v| - 1])]
  }

  lemma {:induction false} LettersAt(v: seq<Sym>, i: nat)
    requires i < |v|
    ensures Letters(v)[i] == Charset(v[i])
  {
    if i < |v| - 1 {
      LettersAt(v[..|v| - 1], i);
    }
  }

  /** The symbols of a string, if every character has one. */
  function Symbols(s: string): Option<seq<Sym>> {
    if s == [] then Some([])
    else
      var rest := Symbols(s[..|s| - 1]);
      var last := Reverse(s[|s| - 1]);
      if rest.Some? && last.Some? then Some(rest.value + [last.value]) else None
  }

  function Lower(s: string): (r: string)
    ensures |r| == |s|
  {
    if s == [] then [] else Lower(s[..|s| - 1]) + [LowerCase(s[|s| - 1])]
  }

  lemma {:induction false} LowerConcat(a: string, b: string)
    ensures Lower(a + b) == Lower(a) + Lower(b)
  {
    if b == [] {
      assert a + b == a;
    } else {
      LowerConcat(a, b[..|b| - 1]);
      assert (a + b)[..|a + b| - 1] == a + b[..|b| - 1];
    }
  }

  lemma {:induction false} SymbolsLetters(v: seq<Sym>)
    ensures Symbols(Letters(v)) == Some(v)
  {
    hide Charset;
    hide Reverse;
    if v != [] {
      var n := |v| - 1;
      SymbolsLetters(v[..n]);
      ReverseCharset(v[n]);
      assert Letters(v)[..n] == Letters(v[..n]);
      assert v == v[..n] + [v[n]];
    }
  }

  /** Writing out the symbols read gives the string in lower case. */
  lemma {:induction false} LettersSymbols(s: string)
    requires Symbols(s).Some?
    ensures |Symbols(s).value| == |s| && Letters(Symbols(s).value) == Lower(s)
    ensures '1' !in s
  {
    hide Charset;
    hide Reverse;
    hide LowerCase;
    if s != [] {
      var n := |s| - 1;
      LettersSymbols(s[..n]);
      CharsetReverse(s[n]);
      var v := Symbols(s).value;
      assert v[..n] == Symbols(s[..n]).value;
      assert s == s[..n] + [s[n]];
    }
  }

  // ----- encoding and decoding

  function Encoded(hrp: string, values: seq<Sym>): string {
    hrp + "1" + Letters(values + Checksum(hrp, values))
  }

  method Encode(hrp: string, values: seq<Sym>) returns (ret: string)
    ensures ret == Encoded(hrp, values)
  {
    var checksum := CreateChecksum(hrp, values);
    var combined := values + checksum;
    ret := hrp + "1";
    for i := 0 to |combined|
      invariant ret == hrp + "1" + Letters(combined[..i])
    {
      assert combined[..i + 1][..i] == combined[..i];
      ret := ret + [Charset(combined[i])];
    }
    assert combined[..|combined|] == combined;
  }

  ghost predicate AllPrintable(s: string) {
    forall i :: 0 <= i < |s| ==> Printable(s[i])
  }

  ghost predicate HasLower(s: string) {
    exists i :: 0 <= i < |s| && IsLower(s[i])
  }

  ghost predicate HasUpper(s: string) {
    exists i :: 0 <= i < |s| && IsUpper(s[i])
  }

  /** The position of the last separator, or -1. */
  function LastOne(s: string): (p: int)
    ensures -1 <= p < |s|
    ensures p >= 0 ==> s[p] == '1'
    ensures forall i :: p < i < |s| ==> s[i] != '1'
  {
    if s == [] then -1 else if s[|s| - 1] == '1' then |s| - 1 else LastOne(s[..|s| - 1])
  }

  ghost predicate WellShaped(s: string) {
    && AllPrintable(s) && !(HasLower(s) && HasUpper(s))
    && |s| <= 90 && 0 < LastOne(s) && LastOne(s) + 7 <= |s|
  }

  ghost function Decoded(s: string): Option<(string, seq<Sym>)> {
    if !WellShaped(s) then None
    else
      var pos := LastOne(s);
      var values := Symbols(s[pos + 1..]);
      if values.Some? && |values.value| >= 6 && Checks(Lower(s[..pos]), values.value) then
        Some((Lower(s[..pos]), values.value[..|values.value| - 6]))
      else None
  }

  /** A readable part that can be encoded and read back. */
  ghost predicate ValidHrp(hrp: string) {
    hrp != [] && forall i :: 0 <= i < |hrp| ==> Printable(hrp[i]) && !IsUpper(hrp[i])
  }

  lemma {:induction false} LowerSame(s: string)
    requires forall i :: 0 <= i < |s| ==> !IsUpper(s[i])
    ensures Lower(s) == s
  {
    if s != [] {
      LowerSame(s[..|s| - 1]);
      assert s == s[..|s| - 1] + [s[|s| - 1]];
    }
  }

  lemma EncodedShape(hrp: string, values: seq<Sym>)
    requires ValidHrp(hrp) && |hrp| + 1 + |values| + 6 <= 90
    ensures WellShaped(Encoded(hrp, values)) && LastOne(Encoded(hrp, values)) == |hrp|
  {
    hide Charset;
    hide Checksum;
    hide Letters;
    var s := Encoded(hrp, values);
    var data := values + Checksum(hrp, values);
    forall i | 0 <= i < |s| ensures Printable(s[i]) && !IsUpper(s[i]) && (i > |hrp| ==> s[i] != '1') {
      if i > |hrp| {
        LettersAt(data, i - |hrp| - 1);
        ReverseCharset(data[i - |hrp| - 1]);
      }
    }
    assert s[|hrp|] == '1';
  }

  /** What is encoded is decoded. */
  lemma RoundTrip(hrp: string, values: seq<Sym>)
    requires ValidHrp(hrp) && |hrp| + 1 + |values| + 6 <= 90
    ensures Decoded(Encoded(hrp, values)) == Some((hrp, values))
  {
    hide Checksum;
    hide Letters;
    hide Symbols;
    hide Lower;
    hide WellShaped;
    var s := Encoded(hrp, values);
    var cs := Checksum(hrp, values);
    EncodedShape(hrp, values);
    assert s[..|hrp|] == hrp && s[|hrp| + 1..] == Letters(values + cs);
    SymbolsLetters(values + cs);
    LowerSame(hrp);
    ChecksumValid(hrp, values);
    assert (values + cs)[..|values|] == values;
  }

  /** What acceptance says about a string. */
  lemma Accepted(s: string) returns (all: seq<Sym>)
    requires Decoded(s).Some?
    ensures 0 < LastOne(s) && |all| == |s| - LastOne(s) - 1 >= 6 && Symbols(s[LastOne(s) + 1..]) == Some(all)
    ensures Checks(Lower(s[..LastOne(s)]), all) && Letters(all) == Lower(s[LastOne(s) + 1..])
    ensures Decoded(s).value == (Lower(s[..LastOne(s)]), all[..|all| - 6])
  {
    hide Symbols;
    hide Checks;
    hide Lower;
    all := Symbols(s[LastOne(s) + 1..]).value;
    LettersSymbols(s[LastOne(s) + 1..]);
  }

  lemma LowerOne(s: string)
    requires s == "1"
    ensures Lower(s) == s
  {
    LowerSame(s);
  }

  lemma LowerSplit(s: string, pos: nat)
    requires pos < |s| && s[pos] == '1'
    ensures Lower(s) == Lower(s[..pos]) + "1" + Lower(s[pos + 1..])
  {
    hide *;
    var one := "1";
    LowerOne(one);
    LowerThree(s[..pos], one, s[pos + 1..]);
    SplitAt(s, pos);
    assert [s[pos]] == one;
  }

  lemma SplitAt<T>(s: seq<T>, pos: nat)
    requires pos < |s|
    ensures s == s[..pos] + [s[pos]] + s[pos + 1..]
  {}

  lemma LowerThree(a: string, b: string, c: string)
    ensures Lower(a + b + c) == Lower(a) + Lower(b) + Lower(c)
  {
    hide Lower;
    LowerConcat(a + b, c);
    LowerConcat(a, b);
  }

  /** What is accepted is, in lower case, the encoding of what it decodes to. */
  lemma AcceptedIsEncoded(s: string)
    requires Decoded(s).Some?
    ensures Encoded(Decoded(s).value.0, Decoded(s).value.1) == Lower(s)
  {
    hide Decoded;
    hide Checksum;
    hide Symbols;
    hide Checks;
    hide Lower;
    hide Letters;
    hide LastOne;
    var all := Accepted(s);
    var pos, n := LastOne(s), |all| - 6;
    assert all == all[..n] + all[n..];
    ChecksumIs(Lower(s[..pos]), all[..n], all[n..]);
    LowerSplit(s, pos);
  }

  lemma {:induction false} SymbolsAt(s: string, i: nat)
    requires Symbols(s).Some? && i < |s|
    ensures |Symbols(s).value| == |s| && Some(Symbols(s).value[i]) == Reverse(s[i])
  {
    hide Reverse;
    LettersSymbols(s);
    var n := |s| - 1;
    if i < n {
      SymbolsAt(s[..n], i);
    } else {
      LettersSymbols(s[..n]);
    }
  }

  lemma SameLetter(c: char, d: char)
    requires LowerCase(c) == LowerCase(d)
    ensures Reverse(c) == Reverse(d)
  {}

  // ----- the decoder

  method Decode(s: string) returns (r: Option<(string, seq<Sym>)>)
    ensures r == Decoded(s)
  {
    hide Symbols;
    hide Checks;
    hide Lower;
    var ok := CheckCharacters(s);
    var pos := LastOne(s);
    if !ok || |s| > 90 || pos == -1 || pos == 0 || pos + 7 > |s| {
      return None;
    }
    var values := ReadSymbols(s[pos + 1..]);
    if values.None? {
      return None;
    }
    LettersSymbols(s[pos + 1..]);
    var hrp := ToLower(s[..pos]);
    var good := VerifyChecksum(hrp, values.value);
    if !good {
      return None;
    }
    return Some((hrp, values.value[..|values.value| - 6]));
  }

  /** Every character printable, and not both cases. */
  method CheckCharacters(s: string) returns (ok: bool)
    ensures ok <==> AllPrintable(s) && !(HasLower(s) && HasUpper(s))
  {
    var lower, upper := false, false;
    for i := 0 to |s|
      invariant forall j :: 0 <= j < i ==> Printable(s[j])
      invariant lower <==> exists j :: 0 <= j < i && IsLower(s[j])
      invariant upper <==> exists j :: 0 <= j < i && IsUpper(s[j])
    {
      if !Printable(s[i]) {
        return false;
      }
      if IsLower(s[i]) {
        lower := true;
      }
      if IsUpper(s[i]) {
        upper := true;
      }
    }
    return !(lower && upper);
  }

  method ReadSymbols(s: string) returns (r: Option<seq<Sym>>)
    ensures r == Symbols(s)
  {
    hide Reverse;
    var v: seq<Sym> := [];
    for i := 0 to |s|
      invariant Symbols(s[..i]) == Some(v)
    {
      var rev := Reverse(s[i]);
      assert s[..i + 1][..i] == s[..i];
      if rev.None? {
        NoSymbol(s, i);
        return None;
      }
      v := v + [rev.value];
    }
    assert s[..|s|] == s;
    return Some(v);
  }

  lemma {:induction false} NoSymbol(s: string, i: nat)
    requires i < |s| && Reverse(s[i]).None?
    ensures Symbols(s).None?
  {
    if i < |s| - 1 {
      NoSymbol(s[..|s| - 1], i);
    }
  }

  method ToLower(s: string) returns (r: string)
    ensures r == Lower(s)
  {
    r := [];
    for i := 0 to |s|
      invariant r == Lower(s[..i])
    {
      assert s[..i + 1][..i] == s[..i];
      r := r + [LowerCase(s[i])];
    }
    assert s[..|s|] == s;
  }

  // ----- exactly what is accepted

  lemma {:induction false} LowerIs(s: string, i: nat)
    requires i < |s|
    ensures Lower(s)[i] == LowerCase(s[i])
  {
    if i < |s| - 1 {
      LowerIs(s[..|s| - 1], i);
    }
  }

  lemma LowerCut(s: string, k: nat)
    requires k <= |s|
    ensures Lower(s)[..k] == Lower(s[..k]) && Lower(s)[k..] == Lower(s[k..])
  {
    hide Lower;
    assert s == s[..k] + s[k..];
    LowerConcat(s[..k], s[k..]);
  }

  lemma LowerTwice(s: string)
    ensures Lower(Lower(s)) == Lower(s)
  {
    hide Lower;
    forall i | 0 <= i < |s| ensures !IsUpper(Lower(s)[i]) {
      LowerIs(s, i);
    }
    LowerSame(Lower(s));
  }

  lemma {:induction false} SymbolsLower(s: string)
    ensures Symbols(Lower(s)) == Symbols(s)
  {
    hide Reverse;
    if s != [] {
      var n := |s| - 1;
      SymbolsLower(s[..n]);
      assert Lower(s)[..n] == Lower(s[..n]);
      LowerIs(s, n);
      SameLetter(s[n], Lower(s)[n]);
    }
  }

  lemma SameShape(s: string)
    requires !(HasLower(s) && HasUpper(s))
    ensures LastOne(Lower(s)) == LastOne(s) && (WellShaped(Lower(s)) <==> WellShaped(s))
  {
    hide Lower;
    var l := Lower(s);
    forall i | 0 <= i < |s|
      ensures (Printable(l[i]) <==> Printable(s[i])) && !IsUpper(l[i]) && (l[i] == '1' <==> s[i] == '1')
    {
      LowerIs(s, i);
    }
    hide Printable;
    hide IsUpper;
    assert !HasUpper(l) && (AllPrintable(l) <==> AllPrintable(s));
    assert LastOne(l) == LastOne(s);
  }

  /** A string in one case is decoded like its lower-case form. */
  lemma CaseIgnored(s: string)
    requires !(HasLower(s) && HasUpper(s))
    ensures Decoded(Lower(s)) == Decoded(s)
  {
    hide Lower;
    hide Symbols;
    hide Checks;
    SameShape(s);
    hide WellShaped;
    var pos := LastOne(s);
    hide LastOne;
    if pos >= 0 {
      LowerCut(s, pos);
      LowerCut(s, pos + 1);
      LowerTwice(s[..pos]);
      SymbolsLower(s[pos + 1..]);
    } else {
      NotShaped(s);
      NotShaped(Lower(s));
    }
  }

  lemma NotShaped(s: string)
    requires LastOne(s) < 0
    ensures !WellShaped(s)
  {}

  /** The readable part has at least one character, each of code 33 to 126 and none upper-case. */
  ghost predicate Readable(hrp: string) {
    hrp != [] && forall i :: 0 <= i < |hrp| ==> 33 <= hrp[i] as int <= 126 && !('A' <= hrp[i] <= 'Z')
  }

  /** The string is an encoding of something. */
  ghost predicate IsEncoding(s: string) {
    exists hrp, values :: Readable(hrp) && s == Encoded(hrp, values)
  }

  /** Accepted is exactly a string of at most 90 characters, not mixing cases, whose lower-case form is an
      encoding. */
  lemma AcceptedExactly(s: string)
    ensures Decoded(s).Some? <==> |s| <= 90 && !(HasLower(s) && HasUpper(s)) && IsEncoding(Lower(s))
  {
    hide *;
    if Decoded(s).Some? {
      AcceptedThen(s);
    }
    if |s| <= 90 && !(HasLower(s) && HasUpper(s)) && IsEncoding(Lower(s)) {
      CaseIgnored(s);
      EncodingDecodes(Lower(s));
    }
  }

  lemma AcceptedThen(s: string)
    requires Decoded(s).Some?
    ensures |s| <= 90 && !(HasLower(s) && HasUpper(s)) && IsEncoding(Lower(s))
  {
    hide Encoded;
    hide Lower;
    hide Symbols;
    hide Checks;
    hide HasLower;
    hide HasUpper;
    AcceptedIsEncoded(s);
    var pos := LastOne(s);
    forall i | 0 <= i < pos ensures Printable(Lower(s[..pos])[i]) && !IsUpper(Lower(s[..pos])[i]) {
      LowerIs(s[..pos], i);
    }
    assert Readable(Decoded(s).value.0);
  }

  lemma EncodingDecodes(s: string)
    requires |s| <= 90 && IsEncoding(s)
    ensures Decoded(s).Some?
  {
    hide Encoded;
    hide Decoded;
    var hrp, values :| Readable(hrp) && s == Encoded(hrp, values);
    EncodedLength(hrp, values);
    RoundTrip(hrp, values);
  }

  lemma EncodedLength(hrp: string, values: seq<Sym>)
    ensures |Encoded(hrp, values)| == |hrp| + |values| + 7
  {}

  // ----- the alphabet and a string from the tests of the original

  const ALPHABET := "qpzry9x8gf2tvdw0s3jn54khce6mua7l"

  /** The letter of a symbol is the one BIP 173 gives it. */
  lemma AlphabetIs(v: Sym)
    ensures v as int < |ALPHABET| && Charset(v) == ALPHABET[v as int]
  {
    if v < 8 {
      AlphabetLow(v);
    } else if v < 16 {
      AlphabetMiddle(v);
    } else {
      AlphabetHigh(v);
    }
  }

  lemma AlphabetLow(v: Sym)
    requires v < 8
    ensures Charset0(v) == ALPHABET[v as int]
  {
    assert v == 0 || v == 1 || v == 2 || v == 3 || v == 4 || v == 5 || v == 6 || v == 7;
  }

  lemma AlphabetMiddle(v: Sym)
    requires 8 <= v < 16
    ensures Charset1(v) == ALPHABET[v as int]
  {
    assert v == 8 || v == 9 || v == 10 || v == 11 || v == 12 || v == 13 || v == 14 || v == 15;
  }

  lemma AlphabetHigh(v: Sym)
    requires 16 <= v
    ensures Charset(v) == ALPHABET[v as int]
  {
    if v < 24 {
      assert v == 16 || v == 17 || v == 18 || v == 19 || v == 20 || v == 21 || v == 22 || v == 23;
    } else {
      assert v == 24 || v == 25 || v == 26 || v == 27 || v == 28 || v == 29 || v == 30 || v == 31;
    }
  }

  lemma NextRemainder(v: seq<Sym>, n: nat, was: Rem, now: Rem)
    requires n < |v| && Remainder(ONE, v[..n]) == was && Step(was, v[n]) == now
    ensures Remainder(ONE, v[..n + 1]) == now
  {
    hide Step;
    assert v[..n + 1][..n] == v[..n];
  }

  lemma ExampleChecks(v: seq<Sym>)
    requires v == [3, 0, 1, 10, 28, 25, 31, 20, 31]
    ensures Remainder(ONE, v) == ONE
  {
    hide Remainder;
    NoSymbols(ONE);
    assert v[..0] == [];
    NextRemainder(v, 0, ONE, Rem(0, 0, 0, 0, 1, 3));
    NextRemainder(v, 1, Rem(0, 0, 0, 0, 1, 3), Rem(0, 0, 0, 1, 3, 0));
    NextRemainder(v, 2, Rem(0, 0, 0, 1, 3, 0), Rem(0, 0, 1, 3, 0, 1));
    NextRemainder(v, 3, Rem(0, 0, 1, 3, 0, 1), Rem(0, 1, 3, 0, 1, 10));
    NextRemainder(v, 4, Rem(0, 1, 3, 0, 1, 10), Rem(1, 3, 0, 1, 10, 28));
    NextRemainder(v, 5, Rem(1, 3, 0, 1, 10, 28), Rem(30, 22, 21, 31, 1, 11));
    NextRemainder(v, 6, Rem(30, 22, 21, 31, 1, 11), Rem(1, 15, 16, 16, 28, 6));
    NextRemainder(v, 7, Rem(1, 15, 16, 16, 28, 6), Rem(18, 6, 4, 9, 27, 6));
    NextRemainder(v, 8, Rem(18, 6, 4, 9, 27, 6), ONE);
    assert v[..9] == v;
  }

  /** The shortest string of the tests. */
  lemma EncodedExample()
    ensures Encoded("a", []) == "a12uel5l"
  {
    hide Remainder;
    var last: seq<Sym> := [10, 28, 25, 31, 20, 31];
    ExpandedExample();
    assert Expanded("a") + ([] + last) == [3, 0, 1, 10, 28, 25, 31, 20, 31];
    ExampleChecks(Expanded("a") + ([] + last));
    ChecksumIs("a", [], last);
    assert [] + last == last;
    forall i | 0 <= i < 6 ensures Letters(last)[i] == "2uel5l"[i] {
      LettersAt(last, i);
      AlphabetIs(last[i]);
    }
    assert Letters(last) == "2uel5l";
  }

  lemma ExpandedExample()
    ensures Expanded("a") == [3, 0, 1]
  {
    assert High('a') == 3 && Low('a') == 1;
  }
}
