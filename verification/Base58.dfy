/**
 Base58: bytes as a number in base 58, converted digit by digit in a buffer whose size is only
 estimated, with leading zero bytes kept as leading ones.
 */
module Base58 {
  import opened Collections
  import opened Powers
  import opened Radix

  // ----- the buffers are large enough

  lemma Pow58()
    ensures Pow(58, 11) == 24986644000165537792 && Pow(58, 71) == 159730386663078066345306447337161584696769904898410078913243029577507397293846405390982563136983769384625594118558891106107392
  {
    assert Pow(58, 1) == 58;
    hide Pow;
    PowAdd(58, 1, 1);
    assert Pow(58, 2) == 3364;
    PowAdd(58, 2, 2);
    assert Pow(58, 4) == 11316496;
    PowAdd(58, 4, 4);
    assert Pow(58, 8) == 128063081718016;
    PowAdd(58, 8, 8);
    assert Pow(58, 16) == 16400152899115243850138976256;
    PowAdd(58, 16, 16);
    assert Pow(58, 32) == 268965015114358137726910587140455987105619365599731777536;
    PowAdd(58, 32, 32);
    assert Pow(58, 64) == 72342179355466901471258927612150153907721848234316445933056526044582001260898145151856420451025374266490194231296;
    PowAdd(58, 64, 4);
    assert Pow(58, 68) == 818659983307423768631895769287186768096118664656249123135650444757408038940948816018402574608346843785239217057684258816;
    PowAdd(58, 68, 2);
    assert Pow(58, 70) == 2753972183846173557677697367882096287875343187903622050228328096163920642997351817085906260982478782493544726182049846657024;
    PowAdd(58, 70, 1);
    assert Pow(58, 71) == 159730386663078066345306447337161584696769904898410078913243029577507397293846405390982563136983769384625594118558891106107392;
    PowAdd(58, 8, 2);
    PowAdd(58, 10, 1);
  }

  lemma Pow256()
    ensures Pow(256, 8) == 18446744073709551616 && Pow(256, 52) == 169230328010303641331690318856389386196071598838855992136870091590247882556495704531248437872567112920983350278405979725889536
  {
    assert Pow(256, 1) == 256;
    hide Pow;
    PowAdd(256, 1, 1);
    assert Pow(256, 2) == 65536;
    PowAdd(256, 2, 2);
    assert Pow(256, 4) == 4294967296;
    PowAdd(256, 4, 4);
    assert Pow(256, 8) == 18446744073709551616;
    PowAdd(256, 8, 8);
    assert Pow(256, 16) == 340282366920938463463374607431768211456;
    PowAdd(256, 16, 16);
    assert Pow(256, 32) == 115792089237316195423570985008687907853269984665640564039457584007913129639936;
    PowAdd(256, 32, 16);
    assert Pow(256, 48) == 39402006196394479212279040100143613805079739270465446667948293404245721771497210611414266254884915640806627990306816;
    PowAdd(256, 48, 4);
    assert Pow(256, 52) == 169230328010303641331690318856389386196071598838855992136870091590247882556495704531248437872567112920983350278405979725889536;
  }

  /** The 138/100 estimate of the encoder. */
  lemma EncodeRoom(n: nat)
    ensures Pow(256, n) <= Pow(58, n * 138 / 100 + 1)
  {
    Pow58();
    Pow256();
    hide Pow;
    Suffices(256, 58, 8, 11, n, n * 138 / 100 + 1);
  }

  /** The 733/1000 estimate of the decoder. */
  lemma DecodeRoom(n: nat)
    ensures Pow(58, n) <= Pow(256, n * 733 / 1000 + 1)
  {
    Pow58();
    Pow256();
    hide Pow;
    Suffices(58, 256, 71, 52, n, n * 733 / 1000 + 1);
  }

  // ----- one round of conversion

  lemma NumPrepend(base: nat, d: nat, s: seq<nat>)
    ensures Num(base, [d] + s) == d * Pow(base, |s|) + Num(base, s)
  {
    NumConcat(base, [d], s);
    assert Num(base, [d]) == d by {
      assert [d][..0] == [];
    }
  }

  lemma RoundArith(n: int, w: int, p: int, base: int, mult: int, x: int, add: int, carry: int, c: int, carry': int,
                   d: int)
    requires n + carry * p == w * mult + add && c == x * mult + carry && c == carry' * base + d
    ensures d * p + n + carry' * (base * p) == (x * p + w) * mult + add
  {
    MulAssoc(carry', base, p);
    Distribute(carry' * base, d, p);
    Distribute(x * mult, carry, p);
    Distribute(x * p, w, mult);
    assert x * p * mult == x * mult * p;
  }

  /** The digits left of the used length are zero. */
  ghost predicate Unused(s: seq<nat>, length: nat) {
    length <= |s| && forall k :: 0 <= k < |s| - length ==> s[k] == 0
  }

  function Next(v: nat, mult: nat, add: nat): nat {
    MulMono(0, v, mult);
    v * mult + add
  }

  /** The digits done so far and the carry stand for the same digits before, multiplied and added to. */
  ghost predicate Balanced(base: nat, mult: nat, add: nat, was: seq<nat>, now: seq<nat>, carry: nat) {
    |was| == |now| && Num(base, now) + carry * Pow(base, |now|) == Num(base, was) * mult + add
  }

  /** Multiplies the buffer by `mult` and adds `add`. The room promised means no carry is left over. */
  method MulAdd(buf: array<nat>, base: nat, mult: nat, add: nat, length: nat) returns (newLength: nat)
    requires base > 1 && AreDigits(base, buf[..]) && Unused(buf[..], length)
    requires Next(Num(base, buf[..]), mult, add) < Pow(base, buf.Length)
    modifies buf
    ensures AreDigits(base, buf[..]) && Unused(buf[..], newLength)
    ensures Num(base, buf[..]) == Next(old(Num(base, buf[..])), mult, add)
  {
    hide Num;
    hide Pow;
    hide Next;
    hide Balanced;
    var size, i := buf.Length, 0;
    var carry: nat := add;
    ghost var was := buf[..];
    NothingYet(base, mult, add, buf[size..], was[size..]);
    while (carry != 0 || i < length) && i < size
      invariant 0 <= i <= size && buf[..size - i] == was[..size - i] && AreDigits(base, buf[..])
      invariant Balanced(base, mult, add, was[size - i..], buf[size - i..], carry)
      decreases size - i
    {
      var p := size - 1 - i;
      ghost var now := buf[size - i..];
      assert buf[p] == buf[..size - i][p] == was[..size - i][p] == was[p];
      var c := Next(buf[p], mult, carry);
      Parts(c, base);
      RoundStep(base, mult, was[size - i..], now, was[p], add, carry, c);
      assert was[p..] == [was[p]] + was[size - i..];
      buf[p] := c % base;
      assert buf[p..] == [c % base] + now;
      assert buf[..p] == was[..p];
      carry := c / base;
      i := i + 1;
    }
    Settled(base, mult, was, buf[..], add, carry, i, length);
    assert carry == 0;
    newLength := i;
  }

  lemma Parts(c: nat, base: nat)
    requires base > 1
    ensures c / base >= 0 && 0 <= c % base < base
  {
    DivMono(0, c, base);
  }

  lemma NothingYet(base: nat, mult: nat, add: nat, was: seq<nat>, now: seq<nat>)
    requires was == [] && now == []
    ensures Balanced(base, mult, add, was, now, add)
  {}

  lemma RoundStep(base: nat, mult: nat, was: seq<nat>, now: seq<nat>, x: nat, add: nat, carry: nat, c: nat)
    requires base > 1 && Balanced(base, mult, add, was, now, carry) && c == Next(x, mult, carry)
    ensures c / base >= 0 && c % base >= 0
    ensures Balanced(base, mult, add, [x] + was, [c % base] + now, c / base)
  {
    hide Num;
    Parts(c, base);
    NumPrepend(base, c % base, now);
    NumPrepend(base, x, was);
    assert Pow(base, |now| + 1) == base * Pow(base, |now|);
    hide Pow;
    RoundArith(Num(base, now), Num(base, was), Pow(base, |now|), base, mult, x, add, carry, c, c / base, c % base);
  }

  lemma Settled(base: nat, mult: nat, was: seq<nat>, now: seq<nat>, add: nat, carry: nat, i: nat, length: nat)
    requires base > 1 && |was| == |now| && i <= |now| && Unused(was, length)
    requires now[..|now| - i] == was[..|now| - i] && (i == |now| || (carry == 0 && i >= length))
    requires Balanced(base, mult, add, was[|now| - i..], now[|now| - i..], carry)
    requires Next(Num(base, was), mult, add) < Pow(base, |was|)
    ensures carry == 0 && Num(base, now) == Next(Num(base, was), mult, add) && Unused(now, i)
  {
    hide Num;
    hide Pow;
    hide Next;
    hide Balanced;
    var k := |now| - i;
    if i == |now| {
      assert now[k..] == now && was[k..] == was;
      FullWidth(base, mult, add, was, now, carry);
    } else {
      forall j | 0 <= j < k ensures now[j] == 0 && was[j] == 0 {
        assert now[j] == now[..k][j] == was[..k][j] == was[j];
      }
      DropZeros(base, now, k);
      DropZeros(base, was, k);
      NoCarry(base, mult, add, was[k..], now[k..]);
    }
  }

  lemma NoCarry(base: nat, mult: nat, add: nat, was: seq<nat>, now: seq<nat>)
    requires Balanced(base, mult, add, was, now, 0)
    ensures Num(base, now) == Next(Num(base, was), mult, add)
  {}

  lemma FullWidth(base: nat, mult: nat, add: nat, was: seq<nat>, now: seq<nat>, carry: nat)
    requires Balanced(base, mult, add, was, now, carry) && Next(Num(base, was), mult, add) < Pow(base, |now|)
    ensures carry == 0 && Num(base, now) == Next(Num(base, was), mult, add)
  {
    hide Num;
    hide Pow;
    if carry > 0 {
      MulMono(1, carry, Pow(base, |now|));
    }
  }

  /** Leading zeros do not count. */
  lemma DropZeros(base: nat, s: seq<nat>, k: nat)
    requires k <= |s| && forall j :: 0 <= j < k ==> s[j] == 0
    ensures Num(base, s) == Num(base, s[k..])
  {
    hide Num;
    assert s == s[..k] + s[k..];
    NumConcat(base, s[..k], s[k..]);
    NumZeros(base, s[..k]);
  }

  // ----- the alphabet

  /** The letter of a digit: no zero, capital I, capital O or small l. */
  function Letter(d: nat): char
    requires d < 58
  {
    if d < 9 then ('1' as int + d) as char
    else if d < 17 then ('A' as int + d - 9) as char
    else if d < 22 then ('J' as int + d - 17) as char
    else if d < 33 then ('P' as int + d - 22) as char
    else if d < 44 then ('a' as int + d - 33) as char
    else ('m' as int + d - 44) as char
  }

  function Digit(c: char): Option<nat> {
    if '1' <= c <= '9' then Some(c as int - '1' as int)
    else if 'A' <= c <= 'H' then Some(c as int - 'A' as int + 9)
    else if 'J' <= c <= 'N' then Some(c as int - 'J' as int + 17)
    else if 'P' <= c <= 'Z' then Some(c as int - 'P' as int + 22)
    else if 'a' <= c <= 'k' then Some(c as int - 'a' as int + 33)
    else if 'm' <= c <= 'z' then Some(c as int - 'm' as int + 44)
    else None
  }

  lemma DigitLetter(d: nat)
    requires d < 58
    ensures Digit(Letter(d)) == Some(d) && !IsSpace(Letter(d)) && (Letter(d) == '1' <==> d == 0)
  {}

  lemma LetterDigit(c: char)
    ensures Digit(c).Some? ==> Digit(c).value < 58 && Letter(Digit(c).value) == c && (Digit(c).value == 0 <==> c == '1')
  {}

  predicate IsSpace(c: char) {
    c == ' ' || 9 <= c as int <= 13
  }

  // ----- what the two functions compute

  /** How many leading elements equal `x`. */
  function Leading<T(==)>(s: seq<T>, x: T): (n: nat)
    ensures n <= |s| && (forall i :: 0 <= i < n ==> s[i] == x) && (n < |s| ==> s[n] != x)
  {
    if s == [] || s[0] != x then 0 else 1 + Leading(s[1..], x)
  }

  function Repeat<T>(x: T, n: nat): (s: seq<T>)
    ensures |s| == n && forall i :: 0 <= i < n ==> s[i] == x
  {
    seq(n, _ => x)
  }

  function Letters(d: seq<nat>): (s: string)
    requires AreDigits(58, d)
    ensures |s| == |d| && forall i :: 0 <= i < |d| ==> s[i] == Letter(d[i])
  {
    seq(|d|, i requires 0 <= i < |d| => Letter(d[i]))
  }

  predicate Spelled(s: string) {
    forall i :: 0 <= i < |s| ==> Digit(s[i]).Some?
  }

  function DigitsOf(s: string): (d: seq<nat>)
    requires Spelled(s)
    ensures |d| == |s| && AreDigits(58, d) && forall i :: 0 <= i < |s| ==> Digit(s[i]) == Some(d[i])
  {
    var d := seq(|s|, i requires 0 <= i < |s| => Digit(s[i]).value);
    assert forall i :: 0 <= i < |s| ==> d[i] == Digit(s[i]).value;
    d
  }

  function Encoded(bytes: seq<nat>): string {
    var z := Leading(bytes, 0);
    DigitsAre(58, Num(256, bytes[z..]));
    Repeat('1', z) + Letters(Digits(58, Num(256, bytes[z..])))
  }

  /** How many leading characters are spaces, and how many come before the first space. */
  function Spaces(s: string): (n: nat)
    ensures n <= |s| && (forall i :: 0 <= i < n ==> IsSpace(s[i])) && (n < |s| ==> !IsSpace(s[n]))
  {
    if s == [] || !IsSpace(s[0]) then 0 else 1 + Spaces(s[1..])
  }

  function WordLength(s: string): (n: nat)
    ensures n <= |s| && (forall i :: 0 <= i < n ==> !IsSpace(s[i])) && (n < |s| ==> IsSpace(s[n]))
  {
    if s == [] || IsSpace(s[0]) then 0 else 1 + WordLength(s[1..])
  }

  function Trimmed(s: string): string {
    var t := s[Spaces(s)..];
    t[..WordLength(t)]
  }

  /** One word between spaces. */
  predicate OneWord(s: string) {
    var t := s[Spaces(s)..];
    var n := WordLength(t);
    n + Spaces(t[n..]) == |t|
  }

  function DecodedWord(word: string): seq<nat>
    requires Spelled(word)
  {
    var z := Leading(word, '1');
    Repeat(0, z) + Digits(256, Num(58, DigitsOf(word[z..])))
  }

  function Decoded(s: string): Option<seq<nat>> {
    if OneWord(s) && Spelled(Trimmed(s)) then Some(DecodedWord(Trimmed(s))) else None
  }

  // ----- round trips

  lemma LeadingIs<T>(s: seq<T>, x: T, n: nat)
    requires n <= |s| && (forall i :: 0 <= i < n ==> s[i] == x) && (n < |s| ==> s[n] != x)
    ensures Leading(s, x) == n
  {}

  lemma EncodedSpells(bytes: seq<nat>)
    ensures Spelled(Encoded(bytes)) && forall i :: 0 <= i < |Encoded(bytes)| ==> !IsSpace(Encoded(bytes)[i])
  {
    var z := Leading(bytes, 0);
    var d := Digits(58, Num(256, bytes[z..]));
    DigitsAre(58, Num(256, bytes[z..]));
    var s := Encoded(bytes);
    forall i | 0 <= i < |s| ensures Digit(s[i]).Some? && !IsSpace(s[i]) {
      if i >= z {
        assert s[i] == Letter(d[i - z]);
        DigitLetter(d[i - z]);
      }
    }
  }

  lemma NoSpacesTrim(s: string)
    requires forall i :: 0 <= i < |s| ==> !IsSpace(s[i])
    ensures OneWord(s) && Trimmed(s) == s
  {
    assert Spaces(s) == 0;
    assert s[0..] == s;
    assert WordLength(s) == |s|;
  }

  /** The letters of an encoding after its leading ones are the digits of the number. */
  lemma EncodedParts(bytes: seq<nat>)
    ensures var z, s := Leading(bytes, 0), Encoded(bytes);
      Spelled(s) && Leading(s, '1') == z && DigitsOf(s[z..]) == Digits(58, Num(256, bytes[z..]))
  {
    hide Num;
    hide Digits;
    hide Letter;
    hide Digit;
    hide IsSpace;
    var z := Leading(bytes, 0);
    var n := Num(256, bytes[z..]);
    var d := Digits(58, n);
    DigitsAre(58, n);
    EncodedSpells(bytes);
    var s := Encoded(bytes);
    assert s[z..] == Letters(d);
    LettersDigits(d);
    if n == 0 {
      NoDigits(58);
    } else {
      DigitLetter(d[0]);
      assert s[z] == Letters(d)[0];
    }
    LeadingIs(s, '1', z);
  }

  lemma LettersDigits(d: seq<nat>)
    requires AreDigits(58, d)
    ensures Spelled(Letters(d)) && DigitsOf(Letters(d)) == d
  {
    hide Letter;
    hide Digit;
    forall i | 0 <= i < |d| ensures Digit(Letters(d)[i]) == Some(d[i]) {
      DigitLetter(d[i]);
    }
  }

  /** Decoding an encoding gives back the bytes. */
  lemma RoundTrip(bytes: seq<nat>)
    requires AreDigits(256, bytes)
    ensures Decoded(Encoded(bytes)) == Some(bytes)
  {
    hide Num;
    hide Digits;
    hide Digit;
    hide IsSpace;
    hide Encoded;
    hide OneWord;
    hide Trimmed;
    hide DigitsOf;
    var z := Leading(bytes, 0);
    var rest := bytes[z..];
    var n := Num(256, rest);
    EncodedSpells(bytes);
    EncodedParts(bytes);
    NoSpacesTrim(Encoded(bytes));
    DigitsAre(58, n);
    DigitsOfNum(256, rest);
    assert bytes == Repeat(0, z) + rest;
  }

  /** Encoding what was decoded gives back the string, without the spaces around it. */
  lemma AcceptedIsEncoded(s: string)
    requires Decoded(s).Some?
    ensures AreDigits(256, Decoded(s).value) && Encoded(Decoded(s).value) == Trimmed(s)
  {
    WordRoundTrip(Trimmed(s));
  }

  lemma WordRoundTrip(word: string)
    requires Spelled(word)
    ensures AreDigits(256, DecodedWord(word)) && Encoded(DecodedWord(word)) == word
  {
    hide Num;
    hide Digits;
    hide Digit;
    hide Letter;
    var z := Leading(word, '1');
    var rest := word[z..];
    var d := DigitsOf(rest);
    var n := Num(58, d);
    DigitsAre(256, n);
    var bytes := DecodedWord(word);
    if n == 0 {
      NoDigits(256);
    }
    LeadingIs(bytes, 0, z);
    assert bytes[z..] == Digits(256, n);
    if d != [] {
      LetterDigit(rest[0]);
    }
    DigitsOfNum(58, d);
    DigitsLetters(rest);
    assert word == Repeat('1', z) + rest;
  }

  lemma DigitsLetters(s: string)
    requires Spelled(s)
    ensures Letters(DigitsOf(s)) == s
  {
    hide Letter;
    hide Digit;
    forall i | 0 <= i < |s| ensures Letter(DigitsOf(s)[i]) == s[i] {
      LetterDigit(s[i]);
    }
  }

  // ----- the code

  /** Skips the zeros at the front of the used part of the buffer. */
  method Stripped(buf: array<nat>, base: nat, length: nat) returns (digits: seq<nat>)
    requires base > 1 && AreDigits(base, buf[..]) && Unused(buf[..], length)
    ensures digits == Digits(base, Num(base, buf[..]))
  {
    var i := buf.Length - length;
    while i < buf.Length && buf[i] == 0
      invariant 0 <= i <= buf.Length && forall k :: 0 <= k < i ==> buf[k] == 0
    {
      i := i + 1;
    }
    digits := buf[i..];
    DropZeros(base, buf[..], i);
    assert buf[..][i..] == digits;
    DigitsOfNum(base, digits);
  }

  /** One more digit of the input fits the buffer. */
  lemma RoomFor(rest: seq<nat>, k: nat, base: nat, to: nat, size: nat)
    requires base > 1 && to > 1 && k < |rest| && AreDigits(base, rest) && Pow(base, |rest|) <= Pow(to, size)
    ensures Next(Num(base, rest[..k]), base, rest[k]) == Num(base, rest[..k + 1]) < Pow(to, size)
  {
    assert rest[..k + 1] == rest[..k] + [rest[k]];
    NumAppend(base, rest[..k], rest[k]);
    NumBound(base, rest[..k + 1]);
    PowMono(base, k + 1, |rest|);
  }

  method Encode(bytes: seq<nat>) returns (str: string)
    requires AreDigits(256, bytes)
    ensures str == Encoded(bytes)
  {
    hide Num;
    hide Pow;
    hide Digits;
    hide Next;
    hide Letter;
    var zeroes := 0;
    while zeroes < |bytes| && bytes[zeroes] == 0
      invariant zeroes <= |bytes| && forall i :: 0 <= i < zeroes ==> bytes[i] == 0
    {
      zeroes := zeroes + 1;
    }
    LeadingIs(bytes, 0, zeroes);
    var rest := bytes[zeroes..];
    var size := |rest| * 138 / 100 + 1;
    EncodeRoom(|rest|);
    var b58 := new nat[size](_ => 0);
    var length := 0;
    Blank(58, 256, b58[..]);
    assert rest[..0] == [];
    for k := 0 to |rest|
      invariant AreDigits(58, b58[..]) && Unused(b58[..], length) && Num(58, b58[..]) == Num(256, rest[..k])
    {
      RoomFor(rest, k, 256, 58, size);
      length := MulAdd(b58, 58, 256, rest[k], length);
    }
    assert rest[..|rest|] == rest;
    var digits := Stripped(b58, 58, length);
    DigitsAre(58, Num(256, rest));
    str := Repeat('1', zeroes);
    for i := 0 to |digits|
      invariant str == Repeat('1', zeroes) + Letters(digits)[..i]
    {
      str := str + [Letter(digits[i])];
    }
    assert Letters(digits)[..|digits|] == Letters(digits);
  }

  method Decode(s: string) returns (r: Option<seq<nat>>)
    ensures r == Decoded(s)
  {
    hide Num;
    hide Pow;
    hide Digits;
    hide Digit;
    hide Next;
    hide IsSpace;
    var p := SkipSpaces(s, 0);
    assert s[0..] == s;
    var t := s[p..];
    var zeroes := 0;
    while zeroes < |t| && t[zeroes] == '1'
      invariant zeroes <= |t| && forall i :: 0 <= i < zeroes ==> t[i] == '1'
    {
      zeroes := zeroes + 1;
    }
    LeadingIs(t, '1', zeroes);
    r := DecodeWord(t, zeroes);
  }

  /** The decoder from the first character that is not a space. */
  function DecodedFrom(t: string): Option<seq<nat>> {
    var n := WordLength(t);
    if n + Spaces(t[n..]) == |t| && Spelled(t[..n]) then Some(DecodedWord(t[..n])) else None
  }

  method DecodeWord(t: string, zeroes: nat) returns (r: Option<seq<nat>>)
    requires Leading(t, '1') == zeroes
    ensures r == DecodedFrom(t)
  {
    hide Num;
    hide Pow;
    hide Digits;
    hide Digit;
    hide Next;
    hide IsSpace;
    hide Word;
    hide ReadTo;
    hide AreDigits;
    hide Unused;
    hide DecodedFrom;
    var size := (|t| - zeroes) * 733 / 1000 + 1;
    DecodeRoom(|t| - zeroes);
    var b256 := new nat[size](_ => 0);
    var length, p := 0, zeroes;
    OnesSpell(t, zeroes);
    Blank(256, 58, b256[..]);
    while p < |t| && !IsSpace(t[p])
      invariant zeroes <= p <= |t| && Word(t, p)
      invariant AreDigits(256, b256[..]) && Unused(b256[..], length)
      invariant ReadTo(t, zeroes, p, Num(256, b256[..]))
    {
      var d := Digit(t[p]);
      if d.None? {
        NotSpelled(t, p);
        return None;
      }
      OneMore(t, zeroes, p, d.value, size, Num(256, b256[..]));
      length := MulAdd(b256, 256, 58, d.value, length);
      p := p + 1;
    }
    WordEnds(t, p);
    var end := SkipSpaces(t, p);
    WordParts(t, zeroes, p, end, Num(256, b256[..]));
    if end != |t| {
      return None;
    }
    var digits := Stripped(b256, 256, length);
    return Some(Repeat(0, zeroes) + digits);
  }

  method SkipSpaces(t: string, start: nat) returns (end: nat)
    requires start <= |t|
    ensures start <= end <= |t| && Spaces(t[start..]) == end - start
  {
    hide IsSpace;
    end := start;
    while end < |t| && IsSpace(t[end])
      invariant start <= end <= |t| && forall i :: start <= i < end ==> IsSpace(t[i])
    {
      end := end + 1;
    }
    SpacesIs(t[start..], end - start);
  }

  /** The digits after the leading ones, up to `p`, make the number `n`. */
  ghost predicate ReadTo(t: string, zeroes: nat, p: nat, n: nat) {
    zeroes <= p <= |t| && Spelled(t[zeroes..p]) && n == Num(58, DigitsOf(t[zeroes..p]))
  }

  lemma WordEnds(t: string, p: nat)
    requires p <= |t| && Word(t, p) && (p < |t| ==> IsSpace(t[p]))
    ensures WordLength(t) == p
  {
    hide IsSpace;
    WordLengthIs(t, p);
  }

  lemma Blank(base: nat, from: nat, buf: seq<nat>)
    requires base > 0 && forall i :: 0 <= i < |buf| ==> buf[i] == 0
    ensures AreDigits(base, buf) && Unused(buf, 0) && Num(base, buf) == 0 == Num(from, [])
  {
    NumZeros(base, buf);
  }

  /** The first `p` characters are letters of the alphabet and no spaces. */
  ghost predicate Word(t: string, p: nat) {
    p <= |t| && forall i :: 0 <= i < p ==> !IsSpace(t[i]) && Digit(t[i]).Some?
  }

  lemma OnesSpell(t: string, zeroes: nat)
    requires Leading(t, '1') == zeroes
    ensures Word(t, zeroes) && ReadTo(t, zeroes, zeroes, 0)
  {
    hide Leading;
    assert t[zeroes..zeroes] == [];
    assert DigitsOf(t[zeroes..zeroes]) == [];
    forall i | 0 <= i < zeroes ensures !IsSpace(t[i]) && Digit(t[i]).Some? {
      assert t[i] == '1';
    }
  }

  lemma NotSpelled(t: string, p: nat)
    requires p < |t| && Word(t, p) && !IsSpace(t[p]) && Digit(t[p]).None?
    ensures DecodedFrom(t) == None
  {
    hide IsSpace;
    hide Digit;
    var n := WordLength(t);
    assert p < n;
    assert t[..n][p] == t[p];
  }

  lemma OneMore(t: string, zeroes: nat, p: nat, d: nat, size: nat, n: nat)
    requires zeroes <= p < |t| && Word(t, p) && !IsSpace(t[p]) && Digit(t[p]) == Some(d)
    requires Pow(58, |t| - zeroes) <= Pow(256, size) && ReadTo(t, zeroes, p, n)
    ensures Word(t, p + 1) && ReadTo(t, zeroes, p + 1, Next(n, 58, d)) && Next(n, 58, d) < Pow(256, size)
  {
    hide Num;
    hide Pow;
    hide Digit;
    hide IsSpace;
    var a, b := t[zeroes..p], t[zeroes..p + 1];
    assert b == a + [t[p]];
    assert DigitsOf(b) == DigitsOf(a) + [d];
    NumAppend(58, DigitsOf(a), d);
    NumBound(58, DigitsOf(b));
    PowMono(58, |b|, |t| - zeroes);
  }

  lemma WordParts(t: string, zeroes: nat, p: nat, end: nat, n: nat)
    requires Leading(t, '1') == zeroes && p <= end <= |t| && Word(t, p) && ReadTo(t, zeroes, p, n)
    requires WordLength(t) == p && Spaces(t[p..]) == end - p
    ensures DecodedFrom(t) == if end == |t| then Some(Repeat(0, zeroes) + Digits(256, n)) else None
  {
    hide Digits;
    hide Num;
    hide Digit;
    hide IsSpace;
    hide Leading;
    LeadingOf(t, zeroes, p);
    assert t[..p][zeroes..] == t[zeroes..p];
  }

  lemma LeadingOf(t: string, zeroes: nat, p: nat)
    requires Leading(t, '1') == zeroes <= p <= |t|
    ensures Leading(t[..p], '1') == zeroes
  {
    LeadingIs(t[..p], '1', zeroes);
  }

  lemma SpacesIs(s: string, n: nat)
    requires n <= |s| && (forall i :: 0 <= i < n ==> IsSpace(s[i])) && (n < |s| ==> !IsSpace(s[n]))
    ensures Spaces(s) == n
  {
    hide IsSpace;
  }

  lemma WordLengthIs(s: string, n: nat)
    requires n <= |s| && (forall i :: 0 <= i < n ==> !IsSpace(s[i])) && (n < |s| ==> IsSpace(s[n]))
    ensures WordLength(s) == n
  {
    hide IsSpace;
  }

  // ----- exactly what is accepted

  /** A blank is a space, or a character of code 9 to 13. */
  ghost predicate Blanks(s: string) {
    forall i :: 0 <= i < |s| ==> s[i] as int == 32 || 9 <= s[i] as int <= 13
  }

  /** `s[i..j]` is a word of the alphabet between blanks. */
  ghost predicate Framed(s: string, i: nat, j: nat) {
    i <= j <= |s| && Blanks(s[..i]) && Spelled(s[i..j]) && Blanks(s[j..])
  }

  lemma BlanksAre(s: string)
    ensures Blanks(s) <==> forall i :: 0 <= i < |s| ==> IsSpace(s[i])
  {}

  lemma SpelledIs(word: string, k: nat)
    requires Spelled(word) && k < |word|
    ensures !IsSpace(word[k])
  {
    LetterDigit(word[k]);
    DigitLetter(Digit(word[k]).value);
  }

  lemma FramedDecodes(s: string, i: nat, j: nat)
    requires Framed(s, i, j)
    ensures Decoded(s).Some?
  {
    hide IsSpace;
    hide Blanks;
    hide Spelled;
    hide DecodedWord;
    hide Spaces;
    hide WordLength;
    var word := s[i..j];
    BlanksAre(s[..i]);
    BlanksAre(s[j..]);
    if i == j {
      assert s == s[..i] + s[j..];
      SpacesIs(s, |s|);
      assert s[|s|..] == [] && word == [];
    } else {
      SpelledIs(word, 0);
      SpacesIs(s, i);
      var t := s[i..];
      forall k | 0 <= k < j - i ensures !IsSpace(t[k]) {
        SpelledIs(word, k);
      }
      if j < |s| {
        assert t[j - i] == s[j..][0];
      }
      WordLengthIs(t, j - i);
      assert t[j - i..] == s[j..] && t[..j - i] == word;
      SpacesIs(s[j..], |s| - j);
    }
  }

  lemma DecodedFramed(s: string)
    requires Decoded(s).Some?
    ensures exists i, j :: Framed(s, i, j)
  {
    hide IsSpace;
    hide Blanks;
    hide Spelled;
    hide DecodedWord;
    hide Spaces;
    hide WordLength;
    var i := Spaces(s);
    var t := s[i..];
    var n := WordLength(t);
    var rest := t[n..];
    SpacesFound(s);
    SpacesFound(rest);
    assert s[i..i + n] == t[..n] && s[i + n..] == rest && rest[..|rest|] == rest;
    assert Framed(s, i, i + n);
  }

  lemma SpacesFound(s: string)
    ensures Blanks(s[..Spaces(s)])
  {
    hide Spaces;
  }

  /** Accepted is exactly a word of the alphabet, possibly empty, with blanks around it at most. */
  lemma AcceptedExactly(s: string)
    ensures Decoded(s).Some? <==> exists i, j :: Framed(s, i, j)
  {
    hide *;
    if Decoded(s).Some? {
      DecodedFramed(s);
    }
    if exists i, j :: Framed(s, i, j) {
      var i, j :| Framed(s, i, j);
      FramedDecodes(s, i, j);
    }
  }

  // ----- the alphabet

  /** The letter of a digit is the one at its place in the alphabet of the code. */
  lemma AlphabetIs(d: nat)
    requires d < 58
    ensures Letter(d) == ("123456789" + "ABCDEFGH" + "JKLMN" + "PQRSTUVWXYZ" + "abcdefghijk" + "mnopqrstuvwxyz")[d]
  {
    if d < 9 {
      Numerals(d);
    } else if d < 17 {
      UpperToH(d);
    } else if d < 22 {
      UpperToN(d);
    } else if d < 33 {
      UpperToZ(d);
    } else if d < 44 {
      LowerToK(d);
    } else {
      LowerToZ(d);
    }
  }

  lemma Numerals(d: nat)
    requires 0 <= d < 9
    ensures Letter(d) == "123456789"[d - 0]
  {
    var s := "123456789";
    assert s[0] == '1' && s[1] == '2' && s[2] == '3' && s[3] == '4' && s[4] == '5' && s[5] == '6' && s[6] == '7';
    assert s[7] == '8' && s[8] == '9';
  }

  lemma UpperToH(d: nat)
    requires 9 <= d < 17
    ensures Letter(d) == "ABCDEFGH"[d - 9]
  {
    var s := "ABCDEFGH";
    assert s[0] == 'A' && s[1] == 'B' && s[2] == 'C' && s[3] == 'D' && s[4] == 'E' && s[5] == 'F' && s[6] == 'G';
    assert s[7] == 'H';
  }

  lemma UpperToN(d: nat)
    requires 17 <= d < 22
    ensures Letter(d) == "JKLMN"[d - 17]
  {
    var s := "JKLMN";
    assert s[0] == 'J' && s[1] == 'K' && s[2] == 'L' && s[3] == 'M' && s[4] == 'N';
  }

  lemma UpperToZ(d: nat)
    requires 22 <= d < 33
    ensures Letter(d) == "PQRSTUVWXYZ"[d - 22]
  {
    var s := "PQRSTUVWXYZ";
    assert s[0] == 'P' && s[1] == 'Q' && s[2] == 'R' && s[3] == 'S' && s[4] == 'T' && s[5] == 'U' && s[6] == 'V';
    assert s[7] == 'W' && s[8] == 'X' && s[9] == 'Y' && s[10] == 'Z';
  }

  lemma LowerToK(d: nat)
    requires 33 <= d < 44
    ensures Letter(d) == "abcdefghijk"[d - 33]
  {
    var s := "abcdefghijk";
    assert s[0] == 'a' && s[1] == 'b' && s[2] == 'c' && s[3] == 'd' && s[4] == 'e' && s[5] == 'f' && s[6] == 'g';
    assert s[7] == 'h' && s[8] == 'i' && s[9] == 'j' && s[10] == 'k';
  }

  lemma LowerToZ(d: nat)
    requires 44 <= d < 58
    ensures Letter(d) == "mnopqrstuvwxyz"[d - 44]
  {
    var s := "mnopqrstuvwxyz";
    assert s[0] == 'm' && s[1] == 'n' && s[2] == 'o' && s[3] == 'p' && s[4] == 'q' && s[5] == 'r' && s[6] == 's';
    assert s[7] == 't' && s[8] == 'u' && s[9] == 'v' && s[10] == 'w' && s[11] == 'x' && s[12] == 'y' && s[13] == 'z';
  }
}
