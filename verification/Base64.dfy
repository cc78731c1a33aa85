/**
  Base64 (section 4 of RFC 4648): a streaming encoder that keeps up to two bytes
  between calls, and a strict decoder that accepts only canonical text (section 3.5)
  up to a delimiter.
 */
module Base64 {
  import opened Results
  import opened Bytes

  type Sextet = v: int | 0 <= v < 64

  const PAD: Byte := 61
  const DELIMITER: Byte := 60

  // ----- The alphabet -----

  function CharOf(v: Sextet): (c: Byte)
    ensures c != PAD && c != DELIMITER && c != 32
  {
    if v < 26 then 65 + v
    else if v < 52 then 97 + (v - 26)
    else if v < 62 then 48 + (v - 52)
    else if v == 62 then 43
    else 47
  }

  function ValueOf(c: Byte): (v: Option<Sextet>) {
    if 65 <= c <= 90 then Some(c - 65)
    else if 97 <= c <= 122 then Some(c - 97 + 26)
    else if 48 <= c <= 57 then Some(c - 48 + 52)
    else if c == 43 then Some(62)
    else if c == 47 then Some(63)
    else None
  }

  lemma AlphabetIsExact(c: Byte, v: Sextet)
    ensures ValueOf(c) == Some(v) <==> c == CharOf(v)
  {
  }

  /** The table of section 4 of RFC 4648. */
  lemma AlphabetIsTable(v: Sextet)
    ensures CharOf(v) == (if v < 26 then "ABCDEFGHIJKLMNOPQRSTUVWXYZ"[v]
                          else if v < 52 then "abcdefghijklmnopqrstuvwxyz"[v - 26]
                          else "0123456789+/"[v - 52]) as int
  {
  }

  // ----- Encoding -----

  function EncodeTriple(a: Byte, b: Byte, c: Byte): (q: seq<Byte>)
    ensures |q| == 4
  {
    [CharOf(a / 4), CharOf((a % 4) * 16 + b / 16), CharOf((b % 16) * 4 + c / 64), CharOf(c % 64)]
  }

  /** One or two bytes at the end: missing bits are zero, missing characters are padding. */
  function EncodeTail(tail: seq<Byte>): (q: seq<Byte>)
    requires 1 <= |tail| <= 2
    ensures |q| == 4
  {
    if |tail| == 1 then [CharOf(tail[0] / 4), CharOf((tail[0] % 4) * 16), PAD, PAD]
    else [CharOf(tail[0] / 4), CharOf((tail[0] % 4) * 16 + tail[1] / 16), CharOf((tail[1] % 16) * 4), PAD]
  }

  /** Whole triples only; what is left over is not encoded. */
  function Triples(bytes: seq<Byte>): (text: seq<Byte>)
    ensures |text| == |bytes| / 3 * 4
  {
    if |bytes| < 3 then [] else EncodeTriple(bytes[0], bytes[1], bytes[2]) + Triples(bytes[3..])
  }

  function Leftover(bytes: seq<Byte>): (rest: seq<Byte>)
    ensures |rest| == |bytes| % 3
  {
    bytes[|bytes| - |bytes| % 3..]
  }

  lemma TextLength(n: nat)
    ensures n / 3 * 4 + (if n % 3 == 0 then 0 else 4) == (n + 2) / 3 * 4
  {
  }

  function Encode(bytes: seq<Byte>): (text: seq<Byte>)
    ensures |text| == (|bytes| + 2) / 3 * 4
  {
    hide Triples, Leftover, EncodeTail;
    TextLength(|bytes|);
    Triples(bytes) + (if Leftover(bytes) == [] then [] else EncodeTail(Leftover(bytes)))
  }

  lemma {:induction false} TriplesAppend(a: seq<Byte>, b: seq<Byte>)
    requires |a| % 3 == 0
    ensures Triples(a + b) == Triples(a) + Triples(b)
    ensures Leftover(a + b) == Leftover(b)
  {
    hide EncodeTriple, Triples, Leftover;
    if a == [] {
      NoTriple(a);
      assert a + b == b;
    } else {
      TriplesAppend(a[3..], b);
      FrontOfSum(a, b);
      TriplesNext(a);
      TriplesNext(a + b);
      LeftoverOfRest(a + b);
      Regroup(EncodeTriple(a[0], a[1], a[2]), Triples(a[3..]), Triples(b), []);
    }
  }

  lemma FrontOfSum(a: seq<Byte>, b: seq<Byte>)
    requires |a| >= 3
    ensures (a + b)[3..] == a[3..] + b && (a + b)[0] == a[0] && (a + b)[1] == a[1] && (a + b)[2] == a[2]
  {
  }

  lemma LeftoverOfRest(bytes: seq<Byte>)
    requires |bytes| >= 3
    ensures Leftover(bytes) == Leftover(bytes[3..])
  {
  }

  lemma {:induction false} LeftoverIgnored(bytes: seq<Byte>)
    ensures Leftover(bytes) == bytes[|bytes| - |bytes| % 3..]
    ensures Triples(bytes[..|bytes| - |bytes| % 3]) == Triples(bytes)
  {
    hide EncodeTriple, Triples;
    var n := |bytes| - |bytes| % 3;
    if |bytes| >= 3 {
      LeftoverIgnored(bytes[3..]);
      TriplesNext(bytes);
      TriplesNext(bytes[..n]);
      CutFront(bytes, n);
      assert |bytes[3..]| % 3 == |bytes| % 3;
    } else {
      NoTriple(bytes);
      NoTriple(bytes[..n]);
    }
  }

  lemma TriplesNext(bytes: seq<Byte>)
    requires |bytes| >= 3
    ensures Triples(bytes) == EncodeTriple(bytes[0], bytes[1], bytes[2]) + Triples(bytes[3..])
  {
  }

  lemma CutFront(bytes: seq<Byte>, n: nat)
    requires 3 <= n <= |bytes|
    ensures bytes[..n][3..] == bytes[3..][..n - 3]
  {
  }

  /** One more whole triple of the input. */
  lemma TripleAdded(input: seq<Byte>, index: nat)
    requires index % 3 == 0 && index + 3 <= |input|
    ensures Triples(input[..index + 3]) == Triples(input[..index]) + EncodeTriple(input[index], input[index + 1], input[index + 2])
  {
    hide Triples, EncodeTriple, Leftover;
    var t := [input[index], input[index + 1], input[index + 2]];
    assert input[..index + 3] == input[..index] + t;
    TriplesAppend(input[..index], t);
    WholeTriple(t);
  }

  /** The streaming encoder's step: the triples of everything so far, whatever way it was cut. */
  lemma StreamingStep(before: seq<Byte>, carry: seq<Byte>, input: seq<Byte>)
    requires carry == Leftover(before)
    ensures Triples(before + input) == Triples(before) + Triples(carry + input)
    ensures Leftover(before + input) == Leftover(carry + input)
  {
    var n := |before| - |before| % 3;
    var whole := before[..n];
    assert before == whole + carry;
    assert before + input == whole + (carry + input);
    TriplesAppend(whole, carry + input);
    LeftoverIgnored(before);
  }

  /** Text and carry of the streaming encoder. */
  class Encoder {
    var text: seq<Byte>
    const carry: array<Byte>
    var carryLength: nat

    ghost predicate Valid()
      reads this
    {
      carry.Length == 3 && carryLength < 3
    }

    /** Everything encoded so far is the triples of `given`, and its leftover waits in the carry. */
    ghost predicate Encodes(prefix: seq<Byte>, given: seq<Byte>)
      reads this, carry
    {
      Valid() && text == prefix + Triples(given) && carry[..carryLength] == Leftover(given)
    }

    constructor (prefix: seq<Byte>)
      ensures Encodes(prefix, []) && fresh(carry)
    {
      hide Triples, Leftover;
      text, carryLength := prefix, 0;
      carry := new Byte[3](_ => 0);
      new;
      NoTriple([]);
    }

    /** Fills the carry up to a triple. */
    method FillCarry(input: seq<Byte>) returns (used: nat)
      requires Valid()
      modifies this, carry
      ensures Valid() && used <= |input|
      ensures used < |input| ==> carryLength == 0
      ensures var pending := old(carry[..carryLength]) + input[..used];
        text == old(text) + Triples(pending) && carry[..carryLength] == Leftover(pending)
    {
      hide Triples, Leftover, EncodeTriple;
      ghost var start := carry[..carryLength];
      used := 0;
      if carryLength > 0 {
        while carryLength < 3 && used < |input|
          invariant carry.Length == 3 && carryLength <= 3 && used <= |input| && text == old(text)
          invariant carry[..carryLength] == start + input[..used]
        {
          carry[carryLength] := input[used];
          carryLength := carryLength + 1;
          used := used + 1;
        }
        if carryLength == 3 {
          assert start + input[..used] == [carry[0], carry[1], carry[2]];
          WholeTriple(start + input[..used]);
          text := text + EncodeTriple(carry[0], carry[1], carry[2]);
          carryLength := 0;
          assert carry[..0] == [];
          return;
        }
      }
      assert carry[..carryLength] == start + input[..used];
      NoTriple(start + input[..used]);
      assert text + [] == text;
    }

    /** Appends `input`, in any cut. */
    method Push(input: seq<Byte>, ghost prefix: seq<Byte>, ghost given: seq<Byte>)
      requires Encodes(prefix, given)
      modifies this, carry
      ensures Encodes(prefix, given + input)
    {
      hide EncodeTriple, Triples, Leftover;
      ghost var held := carry[..carryLength];
      StreamingStep(given, held, input);
      var used := FillCarry(input);
      ghost var pending := held + input[..used];
      if used < |input| {
        EmptyLeftover(pending, carry[..carryLength]);
      }
      PushTriples(input[used..], prefix, given, pending);
      assert pending + input[used..] == held + input;
    }

    /** Whole triples straight from the input, the rest into the empty carry. */
    method PushTriples(input: seq<Byte>, ghost prefix: seq<Byte>, ghost given: seq<Byte>, ghost pending: seq<Byte>)
      requires Valid() && (input != [] ==> carryLength == 0 && |pending| % 3 == 0)
      requires text == prefix + Triples(given) + Triples(pending) && carry[..carryLength] == Leftover(pending)
      modifies this, carry
      ensures Valid()
      ensures text == prefix + (Triples(given) + Triples(pending + input)) && carry[..carryLength] == Leftover(pending + input)
    {
      hide Triples, Leftover, EncodeTriple;
      Regroup(prefix, Triples(given), Triples(pending), Triples(input));
      if input == [] {
        assert pending + input == pending;
        return;
      }
      TriplesAppend(pending, input);
      ghost var start := text;
      var index := 0;
      NoTriple([]);
      assert input[..0] == [];
      while index + 3 <= |input|
        invariant index <= |input| && index % 3 == 0 && Valid() && carryLength == 0
        invariant text == start + Triples(input[..index])
      {
        TripleAdded(input, index);
        text := text + EncodeTriple(input[index], input[index + 1], input[index + 2]);
        index := index + 3;
      }
      LastWhole(index, |input|);
      LeftoverIgnored(input);
      var rest := |input| - index;
      forall i | 0 <= i < rest {
        carry[i] := input[index + i];
      }
      carryLength := rest;
      assert carry[..carryLength] == input[index..];
    }

    /** The padded tail. */
    method Finish(ghost prefix: seq<Byte>, ghost given: seq<Byte>)
      requires Encodes(prefix, given)
      modifies this`text
      ensures text == prefix + Encode(given)
    {
      ghost var rest := Leftover(given);
      if carryLength == 0 {
        assert rest == [];
        return;
      }
      assert forall i :: 0 <= i < carryLength ==> carry[i] == rest[i] by {
        assert forall i :: 0 <= i < carryLength ==> carry[..carryLength][i] == carry[i];
      }
      var tail := carry[..carryLength];
      text := text + EncodeTail(tail);
    }
  }

  lemma LastWhole(index: nat, n: nat)
    requires index % 3 == 0 && index <= n < index + 3
    ensures index == n - n % 3
  {
  }

  lemma Regroup(a: seq<Byte>, b: seq<Byte>, c: seq<Byte>, d: seq<Byte>)
    ensures a + b + c == a + (b + c) && a + b + c + d == a + (b + (c + d))
  {
  }

  lemma WholeTriple(t: seq<Byte>)
    requires |t| == 3
    ensures Triples(t) == EncodeTriple(t[0], t[1], t[2]) && Leftover(t) == []
  {
    assert t[3..] == [];
  }

  lemma NoTriple(t: seq<Byte>)
    requires |t| < 3
    ensures Triples(t) == [] && Leftover(t) == t
  {
  }

  lemma EmptyLeftover(t: seq<Byte>, rest: seq<Byte>)
    requires rest == Leftover(t) && rest == []
    ensures |t| % 3 == 0
  {
  }

  /** Three bytes and their four characters are the same 24-bit number, most significant part first. */
  lemma TripleIsNumber(a: Byte, b: Byte, c: Byte)
    ensures forall i :: 0 <= i < 4 ==> ValueOf(EncodeTriple(a, b, c)[i]).Some?
    ensures var v := seq(4, i requires 0 <= i < 4 => ValueOf(EncodeTriple(a, b, c)[i]).value as int);
      ((v[0] * 64 + v[1]) * 64 + v[2]) * 64 + v[3] == (a as int * 256 + b) * 256 + c
  {
    hide CharOf, ValueOf;
    var q := EncodeTriple(a, b, c);
    AlphabetIsExact(q[0], a / 4);
    AlphabetIsExact(q[1], (a % 4) * 16 + b / 16);
    AlphabetIsExact(q[2], (b % 16) * 4 + c / 64);
    AlphabetIsExact(q[3], c % 64);
    assert a as int == a / 4 * 4 + a % 4 && b as int == b / 16 * 16 + b % 16 && c as int == c / 64 * 64 + c % 64;
  }

  // ----- Decoding -----

  /** One quartet, strictly: padding only at the end, and no stray bits beside it. */
  function DecodeQuartet(q: seq<Byte>): (bytes: Option<seq<Byte>>)
    requires |q| == 4
  {
    var p2, p3 := q[2] == PAD, q[3] == PAD;
    if p2 && !p3 then None
    else
      var v0, v1 := ValueOf(q[0]), ValueOf(q[1]);
      var v2, v3 := if p2 then Some(0) else ValueOf(q[2]), if p3 then Some(0) else ValueOf(q[3]);
      if v0.None? || v1.None? || v2.None? || v3.None? then None
      else if (p2 && v1.value % 16 != 0) || (!p2 && p3 && v2.value % 4 != 0) then None
      else Some(Assembled(TripleOf(v0.value, v1.value, v2.value, v3.value), p2, p3))
  }

  /** The bytes of a quartet's 24 bits that its padding leaves. */
  function Assembled(triple: nat, p2: bool, p3: bool): seq<Byte> {
    [(triple / 65536) % 256] + (if p2 then [] else [(triple / 256) % 256]) + (if p3 then [] else [triple % 256])
  }

  function QuartetOf(bytes: seq<Byte>): (q: seq<Byte>)
    requires 1 <= |bytes| <= 3
    ensures |q| == 4
  {
    if |bytes| == 3 then EncodeTriple(bytes[0], bytes[1], bytes[2]) else EncodeTail(bytes)
  }

  function TripleOf(v0: Sextet, v1: Sextet, v2: Sextet, v3: Sextet): (triple: int)
    ensures 0 <= triple < 0x100_0000
  {
    v0 as int * 262144 + v1 as int * 4096 + v2 as int * 64 + v3
  }

  lemma HighByte(t: int, high: int, r: int)
    requires t == high * 65536 + r && 0 <= r < 65536 && 0 <= high < 256
    ensures (t / 65536) % 256 == high
  {
  }

  lemma MiddleByte(t: int, high: int, middle: int, r: int)
    requires t == (high * 256 + middle) * 256 + r && 0 <= r < 256 && 0 <= middle < 256
    ensures (t / 256) % 256 == middle && t % 256 == r
  {
    assert t / 256 == high * 256 + middle;
  }

  lemma TripleSplits(v0: Sextet, v1: Sextet, v2: Sextet, v3: Sextet)
    ensures var triple := TripleOf(v0, v1, v2, v3);
      && (triple / 65536) % 256 == v0 as int * 4 + v1 as int / 16
      && (triple / 256) % 256 == (v1 as int % 16) * 16 + v2 as int / 4
      && triple % 256 == (v2 as int % 4) * 64 + v3
  {
    var triple := TripleOf(v0, v1, v2, v3);
    var high, middle, low := v0 as int * 4 + v1 as int / 16, (v1 as int % 16) * 16 + v2 as int / 4, (v2 as int % 4) * 64 + v3;
    assert triple == (high * 256 + middle) * 256 + low;
    HighByte(triple, high, middle * 256 + low);
    MiddleByte(triple, high, middle, low);
  }

  /** The sextets of three bytes, and the bytes back from them. */
  lemma SextetsOf(a: Byte, b: Byte, c: Byte)
    ensures var v1, v2 := (a as int % 4) * 16 + b as int / 16, (b as int % 16) * 4 + c as int / 64;
      && v1 / 16 == a as int % 4 && v1 % 16 == b as int / 16
      && v2 / 4 == b as int % 16 && v2 % 4 == c as int / 64
  {
  }

  /** A quartet decodes to some bytes exactly when it is those bytes' own encoding. */
  lemma QuartetIsExact(q: seq<Byte>, bytes: seq<Byte>)
    requires |q| == 4 && 1 <= |bytes| <= 3
    ensures DecodeQuartet(q) == Some(bytes) <==> q == QuartetOf(bytes)
  {
    if DecodeQuartet(q) == Some(bytes) { DecodedQuartet(q, bytes); }
    if q == QuartetOf(bytes) { EncodedQuartet(bytes); }
  }

  lemma AssembledIs(v0: Sextet, v1: Sextet, v2: Sextet, v3: Sextet, p2: bool, p3: bool)
    ensures Assembled(TripleOf(v0, v1, v2, v3), p2, p3)
         == [v0 as int * 4 + v1 as int / 16] + (if p2 then [] else [(v1 as int % 16) * 16 + v2 as int / 4])
            + (if p3 then [] else [(v2 as int % 4) * 64 + v3])
  {
    hide TripleOf;
    TripleSplits(v0, v1, v2, v3);
  }

  /** The characters of a quartet, a byte that is missing counting as zero. */
  lemma QuartetChars(bytes: seq<Byte>, a: Byte, b: Byte, c: Byte)
    requires 1 <= |bytes| <= 3 && a == bytes[0]
    requires b == (if |bytes| > 1 then bytes[1] else 0) && c == (if |bytes| > 2 then bytes[2] else 0)
    ensures bytes == [a] + (if |bytes| > 1 then [b] else []) + (if |bytes| > 2 then [c] else [])
    ensures QuartetOf(bytes)
         == [CharOf(a / 4), CharOf((a % 4) * 16 + b / 16),
             if |bytes| > 1 then CharOf((b % 16) * 4 + c / 64) else PAD, if |bytes| > 2 then CharOf(c % 64) else PAD]
  {
    hide CharOf;
  }

  lemma EncodedQuartet(bytes: seq<Byte>)
    requires 1 <= |bytes| <= 3
    ensures DecodeQuartet(QuartetOf(bytes)) == Some(bytes)
  {
    hide QuartetOf, CharOf, ValueOf, TripleOf, Assembled;
    var a: Byte := bytes[0];
    var b: Byte := if |bytes| > 1 then bytes[1] else 0;
    var c: Byte := if |bytes| > 2 then bytes[2] else 0;
    SextetsOf(a, b, c);
    var v0: Sextet, v3: Sextet := a / 4, c % 64;
    var v1: Sextet, v2: Sextet := (a % 4) * 16 + b / 16, (b % 16) * 4 + c / 64;
    AlphabetIsExact(CharOf(v0), v0);
    AlphabetIsExact(CharOf(v1), v1);
    AlphabetIsExact(CharOf(v2), v2);
    AlphabetIsExact(CharOf(v3), v3);
    AssembledIs(v0, v1, v2, v3, |bytes| <= 1, |bytes| <= 2);
    QuartetChars(bytes, a, b, c);
  }

  lemma SextetsBack(v0: Sextet, v1: Sextet, v2: Sextet, v3: Sextet)
    ensures var a, b, c := v0 as int * 4 + v1 as int / 16, (v1 as int % 16) * 16 + v2 as int / 4, (v2 as int % 4) * 64 + v3;
      && a / 4 == v0 && (a % 4) * 16 + b / 16 == v1 && (b % 16) * 4 + c / 64 == v2 && c % 64 == v3
      && (v2 == 0 ==> (a % 4) * 16 + b / 16 == v1 && b / 16 == v1 % 16)
  {
    var a, b := v0 as int * 4 + v1 as int / 16, (v1 as int % 16) * 16 + v2 as int / 4;
    assert a % 4 == v1 as int / 16 && b / 16 == v1 as int % 16 && b % 16 == v2 as int / 4;
  }

  lemma DecodedQuartet(q: seq<Byte>, bytes: seq<Byte>)
    requires |q| == 4 && DecodeQuartet(q) == Some(bytes)
    ensures 1 <= |bytes| <= 3 && q == QuartetOf(bytes)
  {
    hide CharOf, ValueOf, TripleOf, Assembled, QuartetOf;
    var p2, p3 := q[2] == PAD, q[3] == PAD;
    var v0, v1 := ValueOf(q[0]).value, ValueOf(q[1]).value;
    var v2 := if p2 then 0 else ValueOf(q[2]).value;
    var v3 := if p3 then 0 else ValueOf(q[3]).value;
    AssembledIs(v0, v1, v2, v3, p2, p3);
    AlphabetIsExact(q[0], v0);
    AlphabetIsExact(q[1], v1);
    AlphabetIsExact(q[2], v2);
    AlphabetIsExact(q[3], v3);
    SextetsBack(v0, v1, v2, v3);
    var a: Byte := v0 as int * 4 + v1 as int / 16;
    var b: Byte := (v1 as int % 16) * 16 + v2 as int / 4;
    var c: Byte := (v2 as int % 4) * 64 + v3;
    assert bytes == [a] + (if p2 then [] else [b]) + (if p3 then [] else [c]);
    assert q == [q[0], q[1], q[2], q[3]];
    DecodedShape(q, bytes, a, b, c, v0, v1, v2, v3);
  }

  lemma DecodedShape(q: seq<Byte>, bytes: seq<Byte>, a: Byte, b: Byte, c: Byte, v0: Sextet, v1: Sextet, v2: Sextet, v3: Sextet)
    requires |q| == 4 && (q[2] == PAD ==> q[3] == PAD && v2 == 0 && v1 % 16 == 0) && (q[3] == PAD ==> v3 == 0 && v2 % 4 == 0)
    requires bytes == [a] + (if q[2] == PAD then [] else [b]) + (if q[3] == PAD then [] else [c])
    requires q == [CharOf(v0), CharOf(v1), if q[2] == PAD then PAD else CharOf(v2), if q[3] == PAD then PAD else CharOf(v3)]
    requires v0 == a / 4 && v1 == (a % 4) * 16 + b / 16 && v2 == (b % 16) * 4 + c / 64 && v3 == c % 64
    ensures 1 <= |bytes| <= 3 && q == QuartetOf(bytes)
  {
    hide CharOf;
    if q[2] == PAD {
      assert bytes == [a] && b / 16 == 0;
    } else if q[3] == PAD {
      assert bytes == [a, b] && c / 64 == 0;
    } else {
      assert bytes == [a, b, c];
    }
  }

  /** Text before the delimiter; padding ends it. */
  function Decode(text: seq<Byte>): (bytes: Option<seq<Byte>>) {
    if text == [] then Some([])
    else if |text| < 4 then None
    else
      var first := DecodeQuartet(text[..4]);
      if first.None? then None
      else if |first.value| < 3 then (if |text| == 4 then first else None)
      else
        var rest := Decode(text[4..]);
        if rest.None? then None else Some(first.value + rest.value)
  }

  /** Encoding in quartets from the front. */
  lemma EncodeFront(bytes: seq<Byte>)
    requires bytes != []
    ensures Encode(bytes) == if |bytes| <= 3 then QuartetOf(bytes) else QuartetOf(bytes[..3]) + Encode(bytes[3..])
  {
    hide EncodeTriple, EncodeTail;
    if |bytes| < 3 {
      NoTriple(bytes);
    } else if |bytes| == 3 {
      WholeTriple(bytes);
    } else {
      assert Leftover(bytes) == Leftover(bytes[3..]);
    }
  }

  /** Some examples of section 10 of RFC 4648: "f", "fo", "foo" and "foob". */
  lemma Examples()
    ensures Encode([102]) == [90, 103, 61, 61]
    ensures Encode([102, 111]) == [90, 109, 56, 61]
    ensures Encode([102, 111, 111]) == [90, 109, 57, 118]
    ensures Encode([102, 111, 111, 98]) == [90, 109, 57, 118, 89, 103, 61, 61]
  {
    hide Encode;
    EncodeFront([102]);
    EncodeFront([102, 111]);
    EncodeFront([102, 111, 111]);
    var foob: seq<Byte> := [102, 111, 111, 98];
    assert foob[..3] == [102, 111, 111] && foob[3..] == [98];
    EncodeFront(foob);
    EncodeFront([98]);
  }

  lemma NothingEncoded()
    ensures Encode([]) == []
  {
    NoTriple([]);
  }

  lemma {:induction false} EncodedDecodes(bytes: seq<Byte>)
    ensures Decode(Encode(bytes)) == Some(bytes)
  {
    hide DecodeQuartet, QuartetOf, Encode;
    if bytes == [] {
      NothingEncoded();
    } else {
      EncodeFront(bytes);
      var first := if |bytes| <= 3 then bytes else bytes[..3];
      QuartetIsExact(QuartetOf(first), first);
      assert Encode(bytes)[..4] == QuartetOf(first);
      if |bytes| <= 3 {
        assert Encode(bytes)[4..] == [];
        assert bytes + [] == bytes;
      } else {
        assert Encode(bytes)[4..] == Encode(bytes[3..]);
        EncodedDecodes(bytes[3..]);
        assert bytes[..3] + bytes[3..] == bytes;
      }
    }
  }

  lemma {:induction false} DecodedIsEncoded(text: seq<Byte>)
    requires Decode(text).Some?
    ensures text == Encode(Decode(text).value)
  {
    hide DecodeQuartet, QuartetOf, Encode;
    if text == [] {
      NothingEncoded();
    } else {
      var first := DecodeQuartet(text[..4]).value;
      DecodedQuartet(text[..4], first);
      if |first| < 3 {
        assert text[..4] == text;
        EncodeFront(first);
      } else {
        var rest := Decode(text[4..]).value;
        DecodedIsEncoded(text[4..]);
        EncodeFront(first + rest);
        assert (first + rest)[..3] == first && (first + rest)[3..] == rest;
        assert text == text[..4] + text[4..];
        if rest == [] {
          NothingEncoded();
          assert first + rest == first;
        }
      }
    }
  }

  /** Text is accepted exactly when it is the canonical encoding of what it decodes to. */
  lemma DecodeIsExact(text: seq<Byte>, bytes: seq<Byte>)
    ensures Decode(text) == Some(bytes) <==> text == Encode(bytes)
  {
    hide Decode, Encode;
    EncodedDecodes(bytes);
    if Decode(text) == Some(bytes) { DecodedIsEncoded(text); }
  }

  // ----- Decoding from a file -----

  /** Padding has been seen: fewer than three bytes came of the last quartet. */
  predicate Padded(done: seq<Byte>, decoded: seq<Byte>) {
    |decoded| != |done| / 4 * 3
  }

  /** What whole quartets decoded so far mean for the rest of the text. */
  lemma {:induction false} DecodeExtends(done: seq<Byte>, decoded: seq<Byte>, more: seq<Byte>)
    requires |done| % 4 == 0 && Decode(done) == Some(decoded)
    ensures |decoded| <= |done| / 4 * 3
    ensures Padded(done, decoded) && more != [] ==> Decode(done + more).None?
    ensures !Padded(done, decoded) ==>
      Decode(done + more) == if Decode(more).None? then None else Some(decoded + Decode(more).value)
  {
    hide DecodeQuartet;
    if done == [] {
      assert done + more == more;
      assert Decode(more).Some? ==> decoded + Decode(more).value == Decode(more).value;
    } else {
      var first := DecodeQuartet(done[..4]).value;
      assert (done + more)[..4] == done[..4] && (done + more)[4..] == done[4..] + more;
      DecodedQuartet(done[..4], first);
      if |first| == 3 {
        var rest := Decode(done[4..]).value;
        DecodeExtends(done[4..], rest, more);
        if Decode(more).Some? { assert first + (rest + Decode(more).value) == (first + rest) + Decode(more).value; }
      }
    }
  }

  /** The first delimiter in a stretch of the file. */
  function DelimiterIn(file: seq<Byte>, from: nat, end: nat): (at: Option<nat>)
    requires end <= |file|
    ensures at.Some? ==> from <= at.value < end
    decreases if from < end then end - from else 0
  {
    if from >= end then None
    else if file[from] == DELIMITER then Some(from)
    else DelimiterIn(file, from + 1, end)
  }

  /** The text up to the delimiter, if it is there, decodes, and has the expected size. */
  function DecodedUntil(file: seq<Byte>, offset: nat, end: nat, expected: nat): Option<seq<Byte>>
    requires offset <= end <= |file|
  {
    var at := DelimiterIn(file, offset, end);
    if at.None? then None
    else
      var bytes := Decode(file[offset..at.value]);
      if bytes.Some? && |bytes.value| == expected then bytes else None
  }

  lemma {:induction false} NoDelimiterYet(file: seq<Byte>, from: nat, next: nat, end: nat)
    requires from <= next <= end <= |file| && forall i :: from <= i < next ==> file[i] != DELIMITER
    ensures DelimiterIn(file, from, end) == DelimiterIn(file, next, end)
    decreases next - from
  {
    if from < next { NoDelimiterYet(file, from + 1, next, end); }
  }

  /** The decoder's state before a character: quartets decoded, and up to three characters waiting. */
  ghost predicate Decoding(text: seq<Byte>, quartet: seq<Byte>, decoded: seq<Byte>, padded: bool) {
    && |quartet| < 4 && |quartet| <= |text| && (|text| - |quartet|) % 4 == 0
    && var done := text[..|text| - |quartet|];
      && quartet == text[|done|..]
      && Decode(done) == Some(decoded)
      && (padded <==> Padded(done, decoded))
      && (padded ==> quartet == [])
  }

  /** What the state says about any text that goes on with `rest`. */
  lemma DecodingGoesOn(text: seq<Byte>, quartet: seq<Byte>, decoded: seq<Byte>, padded: bool, rest: seq<Byte>)
    requires Decoding(text, quartet, decoded, padded)
    ensures padded && rest != [] ==> Decode(text + rest).None?
    ensures !padded ==>
      Decode(text + rest) == if Decode(quartet + rest).None? then None else Some(decoded + Decode(quartet + rest).value)
  {
    hide Decode, Padded;
    var done := text[..|text| - |quartet|];
    assert text + rest == done + (quartet + rest);
    DecodeExtends(done, decoded, quartet + rest);
  }

  /** A completed quartet, accepted. */
  lemma QuartetAccepted(text: seq<Byte>, quartet: seq<Byte>, decoded: seq<Byte>, c: Byte)
    requires Decoding(text, quartet, decoded, false) && |quartet| == 3 && DecodeQuartet(quartet + [c]).Some?
    ensures var bytes := DecodeQuartet(quartet + [c]).value;
      Decoding(text + [c], [], decoded + bytes, |bytes| < 3)
  {
    hide DecodeQuartet, QuartetOf;
    var q := quartet + [c];
    var bytes := DecodeQuartet(q).value;
    DecodedQuartet(q, bytes);
    DecodingGoesOn(text, quartet, decoded, false, [c]);
    assert q[..4] == q && q[4..] == [];
    assert bytes + [] == bytes;
    assert Decode(q) == Some(bytes);
    assert (text + [c])[..|text + [c]|] == text + [c];
    var done := text[..|text| - 3];
    DecodeExtends(done, decoded, []);
    assert text == done + quartet;
  }

  /** A completed quartet, refused: no continuation decodes. */
  lemma QuartetRefused(text: seq<Byte>, quartet: seq<Byte>, decoded: seq<Byte>, c: Byte, rest: seq<Byte>)
    requires Decoding(text, quartet, decoded, false) && |quartet| == 3 && DecodeQuartet(quartet + [c]).None?
    ensures Decode(text + [c] + rest).None?
  {
    DecodingGoesOn(text, quartet, decoded, false, [c] + rest);
    assert text + ([c] + rest) == text + [c] + rest;
    var q := quartet + ([c] + rest);
    assert q[..4] == quartet + [c];
  }

  /** A text that stops inside a quartet does not decode. */
  lemma PartialQuartet(text: seq<Byte>, quartet: seq<Byte>, decoded: seq<Byte>, padded: bool)
    requires Decoding(text, quartet, decoded, padded)
    ensures Decode(text) == if quartet == [] then Some(decoded) else None
  {
    if quartet == [] {
      assert text[..|text|] == text;
    } else {
      DecodingGoesOn(text, quartet, decoded, padded, []);
      assert text + [] == text && quartet + [] == quartet;
    }
  }

  /** Strings of decoded bytes only grow. */
  lemma DecodedGrows(text: seq<Byte>, quartet: seq<Byte>, decoded: seq<Byte>, padded: bool, rest: seq<Byte>)
    requires Decoding(text, quartet, decoded, padded) && Decode(text + rest).Some?
    ensures |decoded| <= |Decode(text + rest).value|
  {
    hide Decode, Padded;
    DecodingGoesOn(text, quartet, decoded, padded, rest);
    if padded {
      assert rest == [];
      PartialQuartet(text, quartet, decoded, padded);
      assert text + rest == text;
    }
  }

  /**
    Reads text up to the delimiter, at most `maxBytes` of it, four characters at a
    time; refuses anything that is not the canonical encoding of `expected` bytes.
   */
  method DecodeUntilDelimiter(file: seq<Byte>, offset: nat, maxBytes: nat, expected: nat) returns (r: Option<seq<Byte>>)
    requires offset <= |file|
    ensures var end := if maxBytes < |file| - offset then offset + maxBytes else |file|;
      r == DecodedUntil(file, offset, end, expected)
  {
    hide DecodedUntil, ReadTo, DecodeQuartet;
    var end := if maxBytes < |file| - offset then offset + maxBytes else |file|;
    var quartet: seq<Byte>, decoded: seq<Byte>, padded := [], [], false;
    var i := offset;
    Started(file, offset);
    while i < end
      invariant offset <= i <= end && |quartet| < 4 && |decoded| <= expected
      invariant ReadTo(file, offset, i, quartet, decoded, padded)
    {
      var c := file[i];
      if c == DELIMITER {
        DelimiterReached(file, offset, i, end, quartet, decoded, padded, expected);
        return if quartet == [] && |decoded| == expected then Some(decoded) else None;
      }
      if padded {
        PaddedThenMore(file, offset, i, end, quartet, decoded, expected);
        return None;
      }
      if |quartet| < 3 {
        QuartetGrows(file, offset, i, quartet, decoded);
        quartet := quartet + [c];
      } else {
        var bytes := DecodeQuartet(quartet + [c]);
        if bytes.None? {
          RefusedThenAny(file, offset, i, end, quartet, decoded, expected);
          return None;
        }
        QuartetCloses(file, offset, i, quartet, decoded);
        decoded, padded, quartet := decoded + bytes.value, |bytes.value| < 3, [];
        if |decoded| > expected {
          TooManyThenAny(file, offset, i + 1, end, decoded, padded, expected);
          return None;
        }
      }
      i := i + 1;
    }
    NoneAtEnd(file, offset, end, quartet, decoded, padded, expected);
    return None;
  }

  /** The loop's state: no delimiter so far, and the decoder stands after `i`. */
  ghost predicate ReadTo(file: seq<Byte>, offset: nat, i: nat, quartet: seq<Byte>, decoded: seq<Byte>, padded: bool) {
    && offset <= i <= |file|
    && (forall k :: offset <= k < i ==> file[k] != DELIMITER)
    && Decoding(file[offset..i], quartet, decoded, padded)
  }

  lemma Started(file: seq<Byte>, offset: nat)
    requires offset <= |file|
    ensures ReadTo(file, offset, offset, [], [], false)
  {
  }

  lemma NoneAtEnd(file: seq<Byte>, offset: nat, end: nat, quartet: seq<Byte>, decoded: seq<Byte>, padded: bool, expected: nat)
    requires end <= |file| && ReadTo(file, offset, end, quartet, decoded, padded)
    ensures DecodedUntil(file, offset, end, expected) == None
  {
    NoDelimiterYet(file, offset, end, end);
  }

  lemma DelimiterFound(file: seq<Byte>, offset: nat, i: nat, end: nat)
    requires offset <= i < end <= |file| && file[i] == DELIMITER
    requires forall k :: offset <= k < i ==> file[k] != DELIMITER
    ensures DelimiterIn(file, offset, end) == Some(i)
  {
    NoDelimiterYet(file, offset, i, end);
  }

  lemma DelimiterReached(file: seq<Byte>, offset: nat, i: nat, end: nat, quartet: seq<Byte>, decoded: seq<Byte>,
                         padded: bool, expected: nat)
    requires i < end <= |file| && file[i] == DELIMITER && ReadTo(file, offset, i, quartet, decoded, padded)
    ensures DecodedUntil(file, offset, end, expected)
         == if quartet == [] && |decoded| == expected then Some(decoded) else None
  {
    hide Decode, Decoding, DelimiterIn;
    DelimiterFound(file, offset, i, end);
    PartialQuartet(file[offset..i], quartet, decoded, padded);
  }

  lemma QuartetGrows(file: seq<Byte>, offset: nat, i: nat, quartet: seq<Byte>, decoded: seq<Byte>)
    requires i < |file| && ReadTo(file, offset, i, quartet, decoded, false) && |quartet| < 3 && file[i] != DELIMITER
    ensures ReadTo(file, offset, i + 1, quartet + [file[i]], decoded, false)
  {
    hide Decode, Padded;
    var text, c := file[offset..i], file[i];
    var done := text[..|text| - |quartet|];
    assert file[offset..i + 1] == text + [c];
    assert (text + [c])[..|text + [c]| - |quartet + [c]|] == done;
    assert (text + [c])[|done|..] == text[|done|..] + [c];
  }

  lemma QuartetCloses(file: seq<Byte>, offset: nat, i: nat, quartet: seq<Byte>, decoded: seq<Byte>)
    requires i < |file| && ReadTo(file, offset, i, quartet, decoded, false) && file[i] != DELIMITER
    requires |quartet| == 3 && DecodeQuartet(quartet + [file[i]]).Some?
    ensures var bytes := DecodeQuartet(quartet + [file[i]]).value;
      ReadTo(file, offset, i + 1, [], decoded + bytes, |bytes| < 3)
  {
    hide Decode, Decoding, DecodeQuartet;
    assert file[offset..i + 1] == file[offset..i] + [file[i]];
    QuartetAccepted(file[offset..i], quartet, decoded, file[i]);
  }

  /** Whatever delimiter comes later, the text up to it starts with what was read. */
  lemma LaterText(file: seq<Byte>, offset: nat, i: nat, end: nat, d: nat)
    requires offset <= i <= end <= |file| && DelimiterIn(file, offset, end) == Some(d)
    requires forall k :: offset <= k < i ==> file[k] != DELIMITER
    ensures i <= d < end && file[offset..d] == file[offset..i] + file[i..d]
  {
    NoDelimiterYet(file, offset, i, end);
  }

  lemma PaddedThenMore(file: seq<Byte>, offset: nat, i: nat, end: nat, quartet: seq<Byte>, decoded: seq<Byte>, expected: nat)
    requires i < end <= |file| && file[i] != DELIMITER && ReadTo(file, offset, i, quartet, decoded, true)
    ensures DecodedUntil(file, offset, end, expected) == None
  {
    hide Decode, Decoding, DelimiterIn;
    var at := DelimiterIn(file, offset, end);
    if at.Some? {
      LaterText(file, offset, i + 1, end, at.value);
      LaterText(file, offset, i, end, at.value);
      DecodingGoesOn(file[offset..i], quartet, decoded, true, file[i..at.value]);
    }
  }

  lemma RefusedThenAny(file: seq<Byte>, offset: nat, i: nat, end: nat, quartet: seq<Byte>, decoded: seq<Byte>, expected: nat)
    requires i < end <= |file| && file[i] != DELIMITER && ReadTo(file, offset, i, quartet, decoded, false)
    requires |quartet| == 3 && DecodeQuartet(quartet + [file[i]]).None?
    ensures DecodedUntil(file, offset, end, expected) == None
  {
    hide Decode, Decoding, DelimiterIn, DecodeQuartet;
    var at := DelimiterIn(file, offset, end);
    if at.Some? {
      LaterText(file, offset, i + 1, end, at.value);
      assert file[offset..i + 1] == file[offset..i] + [file[i]];
      QuartetRefused(file[offset..i], quartet, decoded, file[i], file[i + 1..at.value]);
    }
  }

  lemma TooManyThenAny(file: seq<Byte>, offset: nat, i: nat, end: nat, decoded: seq<Byte>, padded: bool, expected: nat)
    requires i <= end <= |file| && ReadTo(file, offset, i, [], decoded, padded) && |decoded| > expected
    ensures DecodedUntil(file, offset, end, expected) == None
  {
    hide Decode, Decoding, DelimiterIn;
    var at := DelimiterIn(file, offset, end);
    if at.Some? {
      LaterText(file, offset, i, end, at.value);
      var rest := file[i..at.value];
      if Decode(file[offset..i] + rest).Some? { DecodedGrows(file[offset..i], [], decoded, padded, rest); }
    }
  }

  // ----- Round trip through a file -----

  /** Encoded bytes followed by the delimiter are read back exactly, wherever they stand. */
  lemma FileRoundTrip(file: seq<Byte>, offset: nat, end: nat, bytes: seq<Byte>)
    requires offset + |Encode(bytes)| < end <= |file|
    requires file[offset..offset + |Encode(bytes)|] == Encode(bytes) && file[offset + |Encode(bytes)|] == DELIMITER
    ensures DecodedUntil(file, offset, end, |bytes|) == Some(bytes)
  {
    var at := offset + |Encode(bytes)|;
    forall k | offset <= k < at ensures file[k] != DELIMITER {
      assert file[k] == file[offset..at][k - offset];
      EncodeHasNoSpecials(bytes, k - offset);
    }
    hide Encode, Decode, DelimiterIn;
    DelimiterFound(file, offset, at, end);
    EncodedDecodes(bytes);
  }

  /** Encoded text holds neither the delimiter nor a space. */
  lemma {:induction false} EncodeHasNoSpecials(bytes: seq<Byte>, k: nat)
    requires k < |Encode(bytes)|
    ensures Encode(bytes)[k] != DELIMITER && Encode(bytes)[k] != 32
  {
    hide CharOf, Encode;
    if bytes == [] {
      NothingEncoded();
    } else {
      EncodeFront(bytes);
      var first := if |bytes| <= 3 then bytes else bytes[..3];
      assert forall i :: 0 <= i < 4 ==> QuartetOf(first)[i] != DELIMITER && QuartetOf(first)[i] != 32;
      if k >= 4 { EncodeHasNoSpecials(bytes[3..], k - 4); }
    }
  }
}
