/**
  The recovery KEY's text form: 16 bytes as 22 Base58 digits and a check pair, by
  long division and multiplication in place on the byte array. The check hash is a
  parameter.
 */
module KeyCodec {
  import opened Results
  import opened Bytes

  type Digit = d: int | 0 <= d < 58
  type Check = c: int | 0 <= c < 3364

  datatype KeyError = Malformed | Checksum

  const KEY_BYTES: nat := 16
  const BODY_CHARS: nat := 22
  const TEXT_CHARS: nat := 24
  const DISPLAY_CHARS: nat := 29
  const ALPHABET_SIZE: nat := 58
  const TWO_TO_128: nat := 0x1_0000_0000_0000_0000_0000_0000_0000_0000

  // ----- Characters -----

  /** Bitcoin's alphabet: 1-9, A-H, J-N, P-Z, a-k, m-z. */
  function CharOf(d: Digit): (c: char)
    ensures !IsSeparator(c)
  {
    (if d < 9 then 49 + d
     else if d < 17 then 65 + (d - 9)
     else if d < 22 then 74 + (d - 17)
     else if d < 33 then 80 + (d - 22)
     else if d < 44 then 97 + (d - 33)
     else 109 + (d - 44)) as char
  }

  /** The original's table, in three pieces. */
  lemma AlphabetIsTable(d: Digit)
    ensures CharOf(d) == if d < 9 then "123456789"[d]
                         else if d < 33 then "ABCDEFGHJKLMNPQRSTUVWXYZ"[d - 9]
                         else "abcdefghijkmnopqrstuvwxyz"[d - 33]
  {
  }

  predicate IsSeparator(c: char) {
    c == ' ' || c == '\t' || c == '-'
  }

  /** The digit of a character: its first position in the alphabet, from `from` on. */
  function Position(c: char, from: nat): (d: Option<Digit>)
    requires from <= ALPHABET_SIZE
    ensures d.Some? ==> d.value >= from && CharOf(d.value) == c
    ensures d.None? ==> forall i: Digit :: i >= from ==> CharOf(i) != c
    decreases ALPHABET_SIZE - from
  {
    if from == ALPHABET_SIZE then None
    else if CharOf(from) == c then Some(from)
    else Position(c, from + 1)
  }

  /** Each character stands for at most one digit. */
  lemma DigitOfChar(c: char, d: Digit)
    ensures Position(c, 0) == Some(d) <==> CharOf(d) == c
  {
  }

  function CharsOf(digits: seq<Digit>): (chars: string)
    ensures |chars| == |digits|
    ensures forall i :: 0 <= i < |digits| ==> chars[i] == CharOf(digits[i])
  {
    if digits == [] then [] else CharsOf(digits[..|digits| - 1]) + [CharOf(digits[|digits| - 1])]
  }

  /** All characters as digits, or none when one of them is no digit. */
  function DigitsOf(chars: string): (digits: Option<seq<Digit>>)
    ensures digits.Some? ==> |digits.value| == |chars|
  {
    if chars == [] then Some([])
    else
      var front, last := DigitsOf(chars[..|chars| - 1]), Position(chars[|chars| - 1], 0);
      if front.Some? && last.Some? then Some(front.value + [last.value]) else None
  }

  lemma {:induction false} CharsAreDigits(chars: string, digits: seq<Digit>)
    ensures DigitsOf(chars) == Some(digits) <==> chars == CharsOf(digits)
  {
    if chars != [] && digits != [] {
      var n, m := |chars| - 1, |digits| - 1;
      CharsAreDigits(chars[..n], digits[..m]);
      DigitOfChar(chars[n], digits[m]);
      hide Position, CharOf;
      assert chars == chars[..n] + [chars[n]] && digits == digits[..m] + [digits[m]];
      if DigitsOf(chars) == Some(digits) {
        assert DigitsOf(chars[..n]).value == digits[..m];
      }
      if chars == CharsOf(digits) {
        assert chars[..n] == CharsOf(digits[..m]);
      }
    }
  }

  // ----- Separators -----

  function Strip(text: string): string {
    if text == [] then []
    else
      var n := |text| - 1;
      if IsSeparator(text[n]) then Strip(text[..n]) else Strip(text[..n]) + [text[n]]
  }

  /** Groups of four, joined by dashes. */
  function Display(chars: string): (shown: string) {
    if chars == [] then []
    else
      var n := |chars| - 1;
      Display(chars[..n]) + (if n != 0 && n % 4 == 0 then "-" else "") + [chars[n]]
  }

  lemma {:induction false} DisplayLength(chars: string)
    ensures |Display(chars)| == |chars| + (if chars == [] then 0 else (|chars| - 1) / 4)
  {
    if chars != [] {
      DisplayLength(chars[..|chars| - 1]);
      QuarterStep(|chars| - 1);
    }
  }

  /** Four characters and a dash, over and over: dashes at every fifth place and nowhere else. */
  lemma {:induction false} DisplayAt(chars: string, i: nat)
    requires i < |Display(chars)|
    ensures i - i / 5 < |chars| || i % 5 == 4
    ensures Display(chars)[i] == if i % 5 == 4 then '-' else chars[i - i / 5]
  {
    hide Display;
    var n := |chars| - 1;
    DisplayLength(chars);
    if chars == [] {
      NothingShown(chars);
    } else {
      DisplayLength(chars[..n]);
      LastShown(chars);
      PlaceOf(n);
      if i < |Display(chars[..n])| {
        DisplayAt(chars[..n], i);
      } else {
        LastPlaces(n, i, |Display(chars[..n])|);
      }
    }
  }

  lemma LastShown(chars: string)
    requires chars != []
    ensures var n, front := |chars| - 1, Display(chars[..|chars| - 1]);
      Display(chars) == if n != 0 && n % 4 == 0 then front + ['-'] + [chars[n]] else front + [chars[n]]
  {
  }

  /** Counted in fours and in fives. */
  lemma FourAndFive(q: nat, r: nat)
    requires r < 5
    ensures (5 * q + r) % 5 == r && (5 * q + r) / 5 == q
    ensures r < 4 ==> (4 * q + r) % 4 == r && (4 * q + r) / 4 == q
  {
  }

  lemma PlaceOf(n: nat)
    ensures n > 0 ==> (n % 4 == 0 <==> (n + (n - 1) / 4) % 5 == 4)
  {
    if n > 0 { PlaceAfter(n, (n - 1) / 4, (n - 1) % 4); }
  }

  lemma PlaceAfter(n: nat, q: nat, r: nat)
    requires n == 4 * q + r + 1 && r < 4
    ensures (n - 1) / 4 == q && (n % 4 == 0 <==> r == 3)
    ensures (n + q) % 5 == r + 1 && (n + q) / 5 == q
  {
    FourAndFive(q, r);
    FourAndFive(q, r + 1);
    assert n + q == 5 * q + (r + 1);
    if r == 3 { FourAndFive(q + 1, 0); } else { FourAndFive(q, r + 1); }
  }

  /** Where the last character goes, and the dash in front of it if there is one. */
  lemma LastPlaces(n: nat, i: nat, shown: nat)
    requires shown == (if n == 0 then 0 else n + (n - 1) / 4)
    requires shown <= i <= (if n != 0 && n % 4 == 0 then shown + 1 else shown)
    ensures if n != 0 && n % 4 == 0 && i == shown then i % 5 == 4 else i % 5 != 4 && i - i / 5 == n
  {
    if n > 0 {
      var q, r := (n - 1) / 4, (n - 1) % 4;
      PlaceAfter(n, q, r);
      FourAndFive(q + 1, 0);
    }
  }

  lemma QuarterStep(n: nat)
    ensures n > 0 ==> n / 4 == (n - 1) / 4 + (if n % 4 == 0 then 1 else 0)
  {
  }

  lemma StripNext(text: string, c: char)
    ensures Strip(text + [c]) == if IsSeparator(c) then Strip(text) else Strip(text) + [c]
  {
    assert (text + [c])[..|text|] == text;
  }

  lemma DisplayNext(chars: string)
    requires chars != []
    ensures var front := Display(chars[..|chars| - 1]);
      Display(chars) == front + [chars[|chars| - 1]] || Display(chars) == front + ['-'] + [chars[|chars| - 1]]
  {
  }

  /** The dashes are for reading only. */
  lemma {:induction false} DisplayStrips(chars: string)
    requires forall i :: 0 <= i < |chars| ==> !IsSeparator(chars[i])
    ensures Strip(Display(chars)) == chars
  {
    if chars == [] {
      assert Display(chars) == [] && Strip([]) == [];
    } else {
      var n := |chars| - 1;
      DisplayStrips(chars[..n]);
      StripOneMore(chars, Display(chars[..n]));
    }
  }

  lemma StripOneMore(chars: string, front: string)
    requires chars != [] && !IsSeparator(chars[|chars| - 1])
    requires front == Display(chars[..|chars| - 1]) && Strip(front) == chars[..|chars| - 1]
    ensures Strip(Display(chars)) == chars
  {
    hide Strip, Display;
    var c := chars[|chars| - 1];
    DisplayNext(chars);
    StripNext(front, '-');
    StripNext(front, c);
    StripNext(front + ['-'], c);
    assert chars == chars[..|chars| - 1] + [c];
  }

  // ----- Numbers -----

  /** Big-endian values. */
  function DigitValue(digits: seq<Digit>): nat {
    if digits == [] then 0 else DigitValue(digits[..|digits| - 1]) * 58 + digits[|digits| - 1]
  }

  /** What is left of a number above its low `n` bytes. */
  function AboveBytes(v: nat, n: nat): nat {
    if n == 0 then v else AboveBytes(v / 256, n - 1)
  }

  function LowDigits(v: nat, n: nat): (digits: seq<Digit>)
    ensures |digits| == n
  {
    if n == 0 then [] else LowDigits(v / 58, n - 1) + [v % 58]
  }

  function Pow58(n: nat): nat {
    if n == 0 then 1 else 58 * Pow58(n - 1)
  }

  lemma {:induction false} NothingAbove(v: nat, n: nat)
    ensures AboveBytes(v, n) == 0 <==> v < Pow256(n)
  {
    if n > 0 { NothingAbove(v / 256, n - 1); }
  }

  lemma {:induction false} DigitsOfValue(digits: seq<Digit>)
    ensures LowDigits(DigitValue(digits), |digits|) == digits
  {
    if digits != [] { DigitsOfValue(digits[..|digits| - 1]); }
  }

  lemma {:induction false} ValueOfDigits(v: nat, n: nat)
    requires v < Pow58(n)
    ensures DigitValue(LowDigits(v, n)) == v
  {
    if n > 0 {
      ValueOfDigits(v / 58, n - 1);
      assert LowDigits(v, n)[..n - 1] == LowDigits(v / 58, n - 1);
    }
  }

  lemma Pow256Of16()
    ensures Pow256(16) == TWO_TO_128
  {
    assert Pow256(4) == 0x1_0000_0000;
    assert Pow256(8) == 0x1_0000_0000_0000_0000;
    assert Pow256(12) == 0x1_0000_0000_0000_0000_0000_0000;
  }

  /** 22 digits reach past 16 bytes, so every KEY has a body and some bodies have no KEY. */
  lemma BodyReachesPastKeys()
    ensures TWO_TO_128 < Pow58(BODY_CHARS)
  {
    assert Pow58(4) == 11316496;
    assert Pow58(8) == 128063081718016;
    assert Pow58(12) == 1449225352009601191936;
    assert Pow58(16) == 16400152899115243850138976256;
    assert Pow58(20) == 185592264682226060569122324245118976;
  }

  lemma {:induction false} ZeroValue(bytes: seq<Byte>)
    ensures ReadBigEndian(bytes) == 0 <==> forall i :: 0 <= i < |bytes| ==> bytes[i] == 0
  {
    if bytes != [] {
      var n := |bytes| - 1;
      ZeroValue(bytes[..n]);
      assert (forall i :: 0 <= i < n ==> bytes[..n][i] == 0) <==> (forall i :: 0 <= i < n ==> bytes[i] == 0) by {
        assert forall i :: 0 <= i < n ==> bytes[..n][i] == bytes[i];
      }
    }
  }

  // ----- The text form -----

  function CheckDigits(c: Check): (digits: seq<Digit>)
    ensures |digits| == 2
  {
    [c / 58, c % 58]
  }

  /** The check is written like the body: two digits, the higher one first. */
  lemma CheckIsNumber(c: Check)
    ensures CheckDigits(c) == LowDigits(c, 2) && DigitValue(CheckDigits(c)) == c
  {
    var high: Digit, low: Digit := c / 58, c % 58;
    assert LowDigits(c, 2) == LowDigits(high, 1) + [low];
    assert LowDigits(high, 1) == LowDigits(0, 0) + [high];
    assert CheckDigits(c)[..1] == [high] && [high][..0] == [];
    assert DigitValue([high]) == high;
  }

  /** The first digit weighs most. */
  lemma {:induction false} FirstDigitWeighsMost(digits: seq<Digit>)
    requires digits != []
    ensures DigitValue(digits) == digits[0] * Pow58(|digits| - 1) + DigitValue(digits[1..])
  {
    var n := |digits| - 1;
    if n > 0 {
      FirstDigitWeighsMost(digits[..n]);
      assert digits[1..][..n - 1] == digits[..n][1..];
      Weighs(digits[0], Pow58(n - 1), DigitValue(digits[1..][..n - 1]), digits[n]);
    } else {
      assert digits[..0] == [];
    }
  }

  lemma Weighs(d: int, p: int, v: int, last: int)
    ensures (d * p + v) * 58 + last == d * (58 * p) + (v * 58 + last)
  {
  }

  function PairValue(high: int, low: int): int {
    high * 58 + low
  }

  function KeyDigits(secret: seq<Byte>, check: seq<Byte> -> Check): (digits: seq<Digit>)
    ensures |digits| == TEXT_CHARS
  {
    LowDigits(ReadBigEndian(secret), BODY_CHARS) + CheckDigits(check(secret))
  }

  function TextOf(secret: seq<Byte>, check: seq<Byte> -> Check): (text: string)
    ensures |text| == TEXT_CHARS
  {
    CharsOf(KeyDigits(secret, check))
  }

  /** What 24 digits stand for. */
  function ParsedDigits(digits: seq<Digit>, check: seq<Byte> -> Check): Result<seq<Byte>, KeyError>
    requires |digits| == TEXT_CHARS
  {
    var v := DigitValue(digits[..BODY_CHARS]);
    if !FitsKey(v) || v == 0 then Err(Malformed)
    else if check(BigEndian(v, KEY_BYTES)) != PairValue(digits[BODY_CHARS], digits[BODY_CHARS + 1]) then Err(Checksum)
    else Ok(BigEndian(v, KEY_BYTES))
  }

  /** What a text stands for, separators anywhere. */
  function Parsed(text: string, check: seq<Byte> -> Check): Result<seq<Byte>, KeyError> {
    var chars := Strip(text);
    if |chars| != TEXT_CHARS then Err(Malformed)
    else
      var digits := DigitsOf(chars);
      if digits.None? then Err(Malformed) else ParsedDigits(digits.value, check)
  }

  lemma ParsedDigitsAreKeys(digits: seq<Digit>, secret: seq<Byte>, check: seq<Byte> -> Check)
    requires |digits| == TEXT_CHARS && ParsedDigits(digits, check) == Ok(secret)
    ensures ReadBigEndian(secret) != 0 && digits == KeyDigits(secret, check)
  {
    var body := digits[..BODY_CHARS];
    Pow256Of16();
    FieldRoundTrip(DigitValue(body), KEY_BYTES);
    DigitsOfValue(body);
    hide ReadBigEndian, DigitValue, BigEndian, LowDigits, Pow256;
    PairIsCheck(digits[BODY_CHARS], digits[BODY_CHARS + 1], check(secret));
    assert digits == body + CheckDigits(check(secret));
  }

  lemma PairIsCheck(high: Digit, low: Digit, c: Check)
    requires PairValue(high, low) == c
    ensures CheckDigits(c) == [high, low]
  {
  }

  lemma KeyDigitsParse(secret: seq<Byte>, check: seq<Byte> -> Check)
    requires |secret| == KEY_BYTES && ReadBigEndian(secret) != 0
    ensures ParsedDigits(KeyDigits(secret, check), check) == Ok(secret)
  {
    var digits := KeyDigits(secret, check);
    Pow256Of16();
    BodyReachesPastKeys();
    FieldBelow(secret);
    ValueOfDigits(ReadBigEndian(secret), BODY_CHARS);
    FieldOfValue(secret);
    hide ReadBigEndian, DigitValue, BigEndian, LowDigits, Pow256, Pow58;
    assert digits[..BODY_CHARS] == LowDigits(ReadBigEndian(secret), BODY_CHARS);
  }

  /** Digits that stand for a KEY are that KEY's own digits. */
  lemma DigitsAreExact(digits: seq<Digit>, secret: seq<Byte>, check: seq<Byte> -> Check)
    requires |digits| == TEXT_CHARS && |secret| == KEY_BYTES
    ensures ParsedDigits(digits, check) == Ok(secret) <==> ReadBigEndian(secret) != 0 && digits == KeyDigits(secret, check)
  {
    hide ReadBigEndian, ParsedDigits, KeyDigits;
    if ParsedDigits(digits, check) == Ok(secret) { ParsedDigitsAreKeys(digits, secret, check); }
    if ReadBigEndian(secret) != 0 { KeyDigitsParse(secret, check); }
  }

  /**
    The two ways to be refused: 24 digits whose first 22 stand for a KEY but whose
    last two are not its check, and everything else.
   */
  lemma RefusalIsExact(text: string, check: seq<Byte> -> Check)
    ensures var chars := Strip(text);
      var named := |chars| == 24 && DigitsOf(chars).Some?
                   && 0 < DigitValue(DigitsOf(chars).value[..22]) < 0x1_0000_0000_0000_0000_0000_0000_0000_0000;
      && (Parsed(text, check) == Err(Malformed) <==> !named)
      && (Parsed(text, check) == Err(Checksum) <==>
            named && check(BigEndian(DigitValue(DigitsOf(chars).value[..22]), 16)) != DigitValue(DigitsOf(chars).value[22..]))
  {
    hide Strip, DigitsOf, BigEndian, DigitValue;
    var chars := Strip(text);
    if |chars| == 24 && DigitsOf(chars).Some? { TwoDigits(DigitsOf(chars).value[22..]); }
  }

  lemma TwoDigits(digits: seq<Digit>)
    requires |digits| == 2
    ensures DigitValue(digits) == digits[0] as int * 58 + digits[1]
  {
    assert DigitValue(digits[..1]) == digits[0] by { assert digits[..1][..0] == []; }
  }

  /**
    A text is accepted as a KEY exactly when, separators aside, it is that KEY's
    own 24 characters; the all-zero KEY has none.
   */
  lemma ParseIsExact(text: string, secret: seq<Byte>, check: seq<Byte> -> Check)
    requires |secret| == KEY_BYTES
    ensures Parsed(text, check) == Ok(secret) <==> ReadBigEndian(secret) != 0 && Strip(text) == TextOf(secret, check)
  {
    var chars := Strip(text);
    CharsAreDigits(chars, KeyDigits(secret, check));
    hide Strip, CharsOf, DigitsOf, KeyDigits, ParsedDigits, ReadBigEndian;
    if |chars| == TEXT_CHARS && DigitsOf(chars).Some? {
      DigitsAreExact(DigitsOf(chars).value, secret, check);
      CharsAreDigits(chars, DigitsOf(chars).value);
    }
  }

  /** The display form of a nonzero KEY parses back to it. */
  lemma DisplayRoundTrip(secret: seq<Byte>, check: seq<Byte> -> Check)
    requires |secret| == KEY_BYTES && ReadBigEndian(secret) != 0
    ensures |Display(TextOf(secret, check))| == DISPLAY_CHARS
    ensures Parsed(Display(TextOf(secret, check)), check) == Ok(secret)
  {
    var text := TextOf(secret, check);
    forall i | 0 <= i < |text| ensures !IsSeparator(text[i]) {
      assert text[i] == CharOf(KeyDigits(secret, check)[i]);
    }
    DisplayLength(text);
    DisplayStrips(text);
    ParseIsExact(Display(text), secret, check);
  }

  // ----- Encoding -----

  /** Divides the number in `work` by 58 in place. */
  method DivideBy58(work: array<Byte>) returns (rem: Digit)
    modifies work
    ensures ReadBigEndian(old(work[..])) == ReadBigEndian(work[..]) * 58 + rem
  {
    rem := 0;
    ghost var before := work[..];
    for j := 0 to work.Length
      invariant ReadBigEndian(before[..j]) == ReadBigEndian(work[..j]) * 58 + rem
      invariant work[j..] == before[j..]
    {
      var cur := rem * 256 + work[j];
      assert work[j] == work[j..][0] == before[j..][0];
      assert before[..j + 1][..j] == before[..j];
      work[j] := cur / 58;
      rem := cur % 58;
      assert work[..j + 1][..j] == work[..j];
    }
    assert before[..work.Length] == before && work[..work.Length] == work[..];
  }

  /** Writes the 22 body digits, least significant first. */
  method WriteBody(secret: seq<Byte>, chars: array<char>)
    requires chars.Length == TEXT_CHARS && |secret| == KEY_BYTES
    modifies chars
    ensures chars[..BODY_CHARS] == CharsOf(LowDigits(ReadBigEndian(secret), BODY_CHARS))
  {
    hide ReadBigEndian, CharOf;
    ghost var body := LowDigits(ReadBigEndian(secret), BODY_CHARS);
    var work := new Byte[KEY_BYTES](i requires 0 <= i < KEY_BYTES => secret[i]);
    assert work[..] == secret;
    var i := BODY_CHARS;
    while i > 0
      invariant 0 <= i <= BODY_CHARS && work.Length == KEY_BYTES
      invariant body[..i] == LowDigits(ReadBigEndian(work[..]), i)
      invariant forall k :: i <= k < BODY_CHARS ==> chars[k] == CharOf(body[k])
    {
      i := i - 1;
      ghost var v := ReadBigEndian(work[..]);
      var rem := DivideBy58(work);
      assert v / 58 == ReadBigEndian(work[..]) && v % 58 == rem;
      assert body[i] == body[..i + 1][i] && body[..i] == body[..i + 1][..i];
      chars[i] := CharOf(rem);
    }
  }

  /** The display form, in a fixed buffer. */
  method EncodeDisplay(secret: seq<Byte>, check: seq<Byte> -> Check) returns (display: string)
    requires |secret| == KEY_BYTES
    ensures display == Display(TextOf(secret, check))
  {
    var chars := new char[TEXT_CHARS];
    WriteBody(secret, chars);
    hide LowDigits, CharOf, ReadBigEndian;
    var c := check(secret);
    chars[BODY_CHARS] := CharOf(c / 58);
    chars[BODY_CHARS + 1] := CharOf(c % 58);
    assert chars[..] == TextOf(secret, check) by {
      assert chars[..] == chars[..BODY_CHARS] + [chars[BODY_CHARS], chars[BODY_CHARS + 1]];
    }
    display := Join(chars[..]);
  }

  lemma NothingShown(chars: string)
    ensures Display(chars[..0]) == []
  {
  }

  lemma DisplayStep(chars: string, i: nat)
    requires i < |chars|
    ensures Display(chars[..i + 1])
         == (if i != 0 && i % 4 == 0 then Display(chars[..i]) + ['-'] else Display(chars[..i])) + [chars[i]]
  {
    assert chars[..i + 1][..i] == chars[..i];
  }

  lemma DisplayFits(chars: string)
    requires |chars| <= TEXT_CHARS
    ensures |Display(chars)| <= DISPLAY_CHARS && (|chars| == TEXT_CHARS ==> |Display(chars)| == DISPLAY_CHARS)
  {
    hide Display;
    DisplayLength(chars);
  }

  method Join(chars: string) returns (display: string)
    requires |chars| == TEXT_CHARS
    ensures display == Display(chars)
  {
    hide Display;
    var out := new char[DISPLAY_CHARS];
    var o := 0;
    NothingShown(chars);
    for i := 0 to TEXT_CHARS
      invariant o == |Display(chars[..i])| <= DISPLAY_CHARS && out[..o] == Display(chars[..i])
    {
      DisplayStep(chars, i);
      DisplayFits(chars[..i + 1]);
      if i != 0 && i % 4 == 0 {
        out[o] := '-';
        o := o + 1;
      }
      out[o] := chars[i];
      o := o + 1;
    }
    DisplayFits(chars);
    assert chars[..TEXT_CHARS] == chars && out[..DISPLAY_CHARS] == out[..];
    display := out[..];
  }

  // ----- Parsing -----

  function LowByte(cur: nat): Byte {
    cur % 256
  }

  function CarryOut(cur: nat): (carry: nat)
    ensures cur < 58 * 256 ==> carry < 58
  {
    cur / 256
  }

  /** What is still to be written above position `j`. */
  ghost function Pending(before: seq<Byte>, j: nat, carry: nat): nat
    requires j <= |before|
  {
    ReadBigEndian(before[..j]) * 58 + carry
  }

  /** One byte of the multiplication: the low byte stays, the rest carries on. */
  lemma MultiplyStep(before: seq<Byte>, j: nat, carry: nat)
    requires j < |before|
    ensures var cur := before[j] as int * 58 + carry;
      && BigEndian(Pending(before, j + 1, carry), j + 1) == BigEndian(Pending(before, j, CarryOut(cur)), j) + [LowByte(cur)]
      && AboveBytes(Pending(before, j + 1, carry), j + 1) == AboveBytes(Pending(before, j, CarryOut(cur)), j)
  {
    assert before[..j + 1][..j] == before[..j];
    var high, cur := ReadBigEndian(before[..j]) * 58, before[j] as int * 58 + carry;
    assert ReadBigEndian(before[..j + 1]) * 58 + carry == high * 256 + cur;
    assert (high * 256 + cur) / 256 == high + cur / 256 && (high * 256 + cur) % 256 == cur % 256;
  }

  /** Multiplies the number in `secret` by 58 and adds a digit, in place; what does not fit is carried out. */
  method MultiplyBy58(secret: array<Byte>, digit: Digit) returns (carry: nat)
    modifies secret
    ensures secret[..] == BigEndian(ReadBigEndian(old(secret[..])) * 58 + digit, secret.Length)
    ensures carry == AboveBytes(ReadBigEndian(old(secret[..])) * 58 + digit, secret.Length)
  {
    hide ReadBigEndian, BigEndian, AboveBytes, Pending, LowByte, CarryOut;
    carry := digit;
    ghost var before, n := secret[..], secret.Length;
    ghost var total := ReadBigEndian(before) * 58 + digit;
    var j := secret.Length;
    MultiplyEnds(before, digit);
    while j > 0
      invariant 0 <= j <= n && carry < 58
      invariant forall k :: 0 <= k < j ==> secret[k] == before[k]
      invariant BigEndian(total, n) == BigEndian(Pending(before, j, carry), j) + secret[j..]
      invariant AboveBytes(total, n) == AboveBytes(Pending(before, j, carry), j)
    {
      j := j - 1;
      MultiplyStep(before, j, carry);
      var cur := secret[j] as int * 58 + carry;
      ghost var rest := secret[j + 1..];
      secret[j] := LowByte(cur);
      carry := CarryOut(cur);
      assert secret[j..] == [secret[j]] + rest;
    }
    assert secret[0..] == secret[..];
  }

  lemma MultiplyEnds(before: seq<Byte>, digit: Digit)
    ensures Pending(before, |before|, digit) == ReadBigEndian(before) * 58 + digit
    ensures forall v: nat :: BigEndian(v, 0) == [] && AboveBytes(v, 0) == v
    ensures forall carry: nat :: Pending(before, 0, carry) == carry
  {
    assert before[..|before|] == before;
  }

  /** Accumulates the body digits; stops at the first carry out of 16 bytes. */
  method ReadBody(digits: seq<Digit>) returns (secret: Option<seq<Byte>>)
    ensures secret == if FitsKey(DigitValue(digits)) then Some(BigEndian(DigitValue(digits), KEY_BYTES)) else None
  {
    hide BigEndian, AboveBytes, ReadBigEndian, Pow256, DigitValue, FitsKey;
    var bytes := new Byte[KEY_BYTES](_ => 0);
    ZeroBytes(KEY_BYTES, bytes[..]);
    NoDigits(digits);
    for i := 0 to |digits|
      invariant FitsKey(DigitValue(digits[..i]))
      invariant bytes[..] == BigEndian(DigitValue(digits[..i]), KEY_BYTES)
    {
      DigitNext(digits, i);
      FitsBytes(DigitValue(digits[..i]));
      FitsBytes(DigitValue(digits[..i + 1]));
      var carry := MultiplyBy58(bytes, digits[i]);
      if carry != 0 {
        if FitsKey(DigitValue(digits)) { PrefixFits(digits, i + 1); }
        return None;
      }
    }
    assert digits[..|digits|] == digits;
    return Some(bytes[..]);
  }

  /** Sixteen bytes hold it. */
  predicate FitsKey(v: nat) {
    v < TWO_TO_128
  }

  lemma FitsBytes(v: nat)
    ensures AboveBytes(v, KEY_BYTES) == 0 <==> FitsKey(v)
    ensures FitsKey(v) ==> ReadBigEndian(BigEndian(v, KEY_BYTES)) == v
  {
    Pow256Of16();
    NothingAbove(v, KEY_BYTES);
    if FitsKey(v) { FieldRoundTrip(v, KEY_BYTES); }
  }

  lemma PrefixFits(digits: seq<Digit>, i: nat)
    requires i <= |digits| && FitsKey(DigitValue(digits))
    ensures FitsKey(DigitValue(digits[..i]))
  {
    PrefixValue(digits, i);
  }

  lemma NoDigits(digits: seq<Digit>)
    ensures DigitValue(digits[..0]) == 0 && FitsKey(0)
  {
  }

  lemma DigitNext(digits: seq<Digit>, i: nat)
    requires i < |digits|
    ensures DigitValue(digits[..i + 1]) == DigitValue(digits[..i]) * 58 + digits[i]
  {
    assert digits[..i + 1][..i] == digits[..i];
  }

  lemma {:induction false} ZeroBytes(n: nat, bytes: seq<Byte>)
    requires |bytes| == n && forall i :: 0 <= i < n ==> bytes[i] == 0
    ensures bytes == BigEndian(0, n)
  {
    if n > 0 {
      ZeroBytes(n - 1, bytes[..n - 1]);
      assert bytes == bytes[..n - 1] + [bytes[n - 1]];
    }
  }

  /** A body whose first digits overflow, overflows. */
  lemma {:induction false} PrefixValue(digits: seq<Digit>, i: nat)
    requires i <= |digits|
    ensures DigitValue(digits[..i]) <= DigitValue(digits)
    decreases |digits|
  {
    if i < |digits| {
      var n := |digits| - 1;
      PrefixValue(digits[..n], i);
      assert digits[..n][..i] == digits[..i];
    } else {
      assert digits[..i] == digits;
    }
  }

  /** Collects the characters that are no separators, as long as they fit. */
  method Collect(text: string) returns (chars: Option<string>)
    ensures chars == if |Strip(text)| == TEXT_CHARS then Some(Strip(text)) else None
  {
    var sig := new char[TEXT_CHARS];
    var n := 0;
    for i := 0 to |text|
      invariant n == |Strip(text[..i])| <= TEXT_CHARS
      invariant sig[..n] == Strip(text[..i])
    {
      assert text[..i + 1][..i] == text[..i];
      if !IsSeparator(text[i]) {
        if n == TEXT_CHARS {
          StripGrows(text, i + 1);
          return None;
        }
        sig[n] := text[i];
        n := n + 1;
      }
    }
    assert text[..|text|] == text;
    if n != TEXT_CHARS {
      return None;
    }
    assert sig[..n] == sig[..];
    return Some(sig[..]);
  }

  lemma {:induction false} StripGrows(text: string, i: nat)
    requires i <= |text|
    ensures |Strip(text[..i])| <= |Strip(text)|
    decreases |text|
  {
    if i < |text| {
      var n := |text| - 1;
      StripGrows(text[..n], i);
      assert text[..n][..i] == text[..i];
    } else {
      assert text[..i] == text;
    }
  }

  method ReadDigits(chars: string) returns (digits: Option<seq<Digit>>)
    ensures digits == DigitsOf(chars)
  {
    var out: seq<Digit> := [];
    for i := 0 to |chars|
      invariant DigitsOf(chars[..i]) == Some(out)
    {
      assert chars[..i + 1][..i] == chars[..i];
      var d := Position(chars[i], 0);
      if d.None? {
        NoDigit(chars, i + 1);
        return None;
      }
      out := out + [d.value];
    }
    assert chars[..|chars|] == chars;
    return Some(out);
  }

  lemma {:induction false} NoDigit(chars: string, i: nat)
    requires i <= |chars| && DigitsOf(chars[..i]).None?
    ensures DigitsOf(chars).None?
    decreases |chars|
  {
    if i < |chars| {
      var n := |chars| - 1;
      assert chars[..n][..i] == chars[..i];
      NoDigit(chars[..n], i);
    } else {
      assert chars[..i] == chars;
    }
  }

  /** The original's parser. */
  method ParseKeyText(text: string, check: seq<Byte> -> Check) returns (r: Result<seq<Byte>, KeyError>)
    ensures r == Parsed(text, check)
  {
    hide Strip, DigitsOf, BigEndian, DigitValue, ReadBigEndian, AboveBytes, FitsKey;
    var chars := Collect(text);
    if chars.None? {
      return Err(Malformed);
    }
    var digits := ReadDigits(chars.value);
    if digits.None? {
      return Err(Malformed);
    }
    var secret := ReadBody(digits.value[..BODY_CHARS]);
    if secret.None? {
      return Err(Malformed);
    }
    ghost var v := DigitValue(digits.value[..BODY_CHARS]);
    FitsBytes(v);
    ZeroValue(secret.value);
    if forall i :: 0 <= i < |secret.value| ==> secret.value[i] == 0 {
      return Err(Malformed);
    }
    if check(secret.value) != PairValue(digits.value[BODY_CHARS], digits.value[BODY_CHARS + 1]) {
      return Err(Checksum);
    }
    return Ok(secret.value);
  }
}
