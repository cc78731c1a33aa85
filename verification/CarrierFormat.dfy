/**
  What both coefficient carriers share below the embedding: bits and bytes, the
  keyed whitening, the 24-byte carrier header and the encrypted envelope.
 */
module CarrierFormat {
  import opened Bits
  import opened Results
  import opened Bytes
  import opened KeyedShuffle

  type U32 = w: int | 0 <= w < 0x1_0000_0000

  // ----- Bits and bytes, low bit first -----

  function ToBits(x: nat, n: nat): (bits: seq<bool>)
    ensures |bits| == n
  {
    if n == 0 then [] else [x % 2 == 1] + ToBits(x / 2, n - 1)
  }

  function FromBits(bits: seq<bool>): (x: nat)
    ensures x < Pow2(|bits|)
  {
    if bits == [] then 0 else (if bits[0] then 1 else 0) + 2 * FromBits(bits[1..])
  }

  lemma {:induction false} FromToBits(x: nat, n: nat)
    requires x < Pow2(n)
    ensures FromBits(ToBits(x, n)) == x
  {
    if n > 0 {
      FromToBits(x / 2, n - 1);
      assert ToBits(x, n)[1..] == ToBits(x / 2, n - 1);
    }
  }

  lemma {:induction false} ToFromBits(bits: seq<bool>)
    ensures ToBits(FromBits(bits), |bits|) == bits
  {
    if bits != [] {
      var rest := FromBits(bits[1..]);
      assert FromBits(bits) / 2 == rest;
      ToFromBits(bits[1..]);
    }
  }

  lemma {:induction false} ToBitsAt(x: nat, n: nat, i: nat)
    requires i < n
    ensures ToBits(x, n)[i] == Bit(x, i)
  {
    if i > 0 { ToBitsAt(x / 2, n - 1, i - 1); }
  }

  function BitsOf(bytes: seq<Byte>): (bits: seq<bool>)
    ensures |bits| == 8 * |bytes|
  {
    if bytes == [] then [] else BitsOf(bytes[..|bytes| - 1]) + ToBits(bytes[|bytes| - 1], 8)
  }

  function BytesOf(bits: seq<bool>): (bytes: seq<Byte>)
    requires |bits| % 8 == 0
    ensures |bytes| == |bits| / 8
  {
    if bits == [] then []
    else
      var n := |bits| - 8;
      assert Pow2(8) == 256;
      BytesOf(bits[..n]) + [FromBits(bits[n..])]
  }

  lemma BitsOfSnoc(bytes: seq<Byte>, last: Byte)
    ensures BitsOf(bytes + [last]) == BitsOf(bytes) + ToBits(last, 8)
  {
    hide ToBits;
    assert (bytes + [last])[..|bytes|] == bytes;
  }

  lemma BytesOfSnoc(bits: seq<bool>, last: seq<bool>)
    requires |bits| % 8 == 0 && |last| == 8
    ensures FromBits(last) < 256
    ensures BytesOf(bits + last) == BytesOf(bits) + [FromBits(last)]
  {
    hide FromBits;
    assert Pow2(8) == 256;
    assert (bits + last)[..|bits|] == bits && (bits + last)[|bits|..] == last;
  }

  lemma {:induction false} BytesOfBitsOf(bytes: seq<Byte>)
    ensures BytesOf(BitsOf(bytes)) == bytes
  {
    hide BytesOf, BitsOf, ToBits, FromBits;
    if bytes == [] {
      NothingToConvert();
    } else {
      var front, last := bytes[..|bytes| - 1], bytes[|bytes| - 1];
      assert bytes == front + [last] && last < Pow2(8);
      BytesOfBitsOf(front);
      FromToBits(last, 8);
      BitsOfSnoc(front, last);
      BytesOfSnoc(BitsOf(front), ToBits(last, 8));
    }
  }

  lemma NothingToConvert()
    ensures BitsOf([]) == [] && BytesOf([]) == []
  {
  }

  lemma {:induction false} BitsOfBytesOf(bits: seq<bool>)
    requires |bits| % 8 == 0
    ensures BitsOf(BytesOf(bits)) == bits
  {
    hide BytesOf, BitsOf, ToBits, FromBits;
    if bits == [] {
      NothingToConvert();
    } else {
      var front, last := bits[..|bits| - 8], bits[|bits| - 8..];
      assert bits == front + last;
      BitsOfBytesOf(front);
      ToFromBits(last);
      BytesOfSnoc(front, last);
      BitsOfSnoc(BytesOf(front), FromBits(last));
    }
  }

  lemma {:induction false} BitsOfAt(bytes: seq<Byte>, k: nat)
    requires k < 8 * |bytes|
    ensures BitsOf(bytes)[k] == Bit(bytes[k / 8], k % 8)
  {
    hide ToBits, Bit;
    var n := |bytes| - 1;
    if k < 8 * n {
      BitsOfAt(bytes[..n], k);
      assert bytes[..n][k / 8] == bytes[k / 8];
    } else {
      assert k / 8 == n && k % 8 == k - 8 * n;
      ToBitsAt(bytes[n], 8, k - 8 * n);
    }
  }

  method BytesToBits(bytes: seq<Byte>) returns (bits: seq<bool>)
    ensures bits == BitsOf(bytes)
  {
    var out := new bool[|bytes| * 8];
    for bit := 0 to |bytes| * 8
      invariant forall k :: 0 <= k < bit ==> out[k] == BitsOf(bytes)[k]
    {
      BitsOfAt(bytes, bit);
      out[bit] := Bit(bytes[bit / 8], bit % 8);
    }
    bits := out[..];
  }

  /** Sets the bits of one byte, low bit first. */
  method ByteFromBits(bits: seq<bool>) returns (b: Byte)
    requires |bits| == 8
    ensures b == FromBits(bits)
  {
    var value := 0;
    for j := 0 to 8
      invariant value == FromBits(bits[..j]) < Pow2(j)
    {
      assert bits[..j + 1] == bits[..j] + [bits[j]];
      FromBitsSnoc(bits[..j], bits[j]);
      if bits[j] {
        value := value + Pow2(j);
      }
    }
    assert Pow2(8) == 256 && bits[..8] == bits;
    b := value;
  }

  /** Fails exactly on a bit count that is not a whole number of bytes. */
  method BitsToBytes(bits: seq<bool>) returns (r: Option<seq<Byte>>)
    ensures r == if |bits| % 8 == 0 then Some(BytesOf(bits)) else None
  {
    if |bits| % 8 != 0 {
      return None;
    }
    var out := new Byte[|bits| / 8](_ => 0);
    for k := 0 to |bits| / 8
      invariant forall i :: 0 <= i < k ==> out[i] == BytesOf(bits)[i]
    {
      BytesOfAt(bits, k);
      out[k] := ByteFromBits(bits[8 * k..8 * k + 8]);
    }
    assert out[..] == BytesOf(bits);
    return Some(out[..]);
  }

  lemma {:induction false} FromBitsSnoc(bits: seq<bool>, b: bool)
    ensures FromBits(bits + [b]) == FromBits(bits) + (if b then Pow2(|bits|) else 0)
  {
    if bits == [] {
      assert (bits + [b])[1..] == [];
    } else {
      assert (bits + [b])[1..] == bits[1..] + [b];
      FromBitsSnoc(bits[1..], b);
    }
  }

  lemma {:induction false} BytesOfAt(bits: seq<bool>, i: nat)
    requires |bits| % 8 == 0 && i < |bits| / 8
    ensures BytesOf(bits)[i] == FromBits(bits[8 * i..8 * i + 8])
  {
    hide BytesOf, FromBits;
    var front, last := bits[..|bits| - 8], bits[|bits| - 8..];
    assert bits == front + last;
    BytesOfSnoc(front, last);
    if 8 * i == |front| {
      assert last == bits[8 * i..8 * i + 8];
    } else {
      BytesOfAt(front, i);
      assert front[8 * i..8 * i + 8] == bits[8 * i..8 * i + 8];
    }
  }

  // ----- Whitening -----

  /** The keystream bit at position k: bit k mod 64 of the block's word. */
  predicate StreamBit(stream: Stream, k: nat) {
    Bit(stream.prf(stream.domain, k / 64), k % 64)
  }

  function Whitened(bits: seq<bool>, stream: Stream): (w: seq<bool>)
    ensures |w| == |bits|
  {
    if bits == [] then []
    else
      var n := |bits| - 1;
      Whitened(bits[..n], stream) + [bits[n] != StreamBit(stream, n)]
  }

  /** A bit is flipped exactly where its keystream bit is set: bit k mod 64 of word k div 64. */
  lemma WhitenedFlips(bits: seq<bool>, stream: Stream, k: nat)
    requires k < |bits|
    ensures Whitened(bits, stream)[k] != bits[k] <==> Bit(stream.prf(stream.domain, k / 64), k % 64)
  {
    hide Bit, Whitened;
    WhitenedAt(bits, stream, k);
  }

  lemma {:induction false} WhitenedAt(bits: seq<bool>, stream: Stream, k: nat)
    requires k < |bits|
    ensures Whitened(bits, stream)[k] == (bits[k] != StreamBit(stream, k))
  {
    hide StreamBit;
    if k < |bits| - 1 { WhitenedAt(bits[..|bits| - 1], stream, k); }
  }

  /** Whitening twice restores the bits. */
  lemma {:induction false} WhitenedTwice(bits: seq<bool>, stream: Stream)
    ensures Whitened(Whitened(bits, stream), stream) == bits
  {
    hide StreamBit;
    if bits != [] {
      var n := |bits| - 1;
      WhitenedTwice(bits[..n], stream);
      assert Whitened(bits, stream)[..n] == Whitened(bits[..n], stream);
    }
  }

  /** Whitens in place, one keystream word per block of 64 bits; the last block may be short. */
  method WhitenBits(bits: array<bool>, stream: Stream)
    modifies bits
    ensures bits[..] == Whitened(old(bits[..]), stream)
  {
    var block := 0;
    while block * 64 < bits.Length
      invariant forall k :: 0 <= k < bits.Length ==>
        bits[k] == if k < block * 64 then old(bits[k]) != StreamBit(stream, k) else old(bits[k])
    {
      var word := stream.prf(stream.domain, block);
      var end := if bits.Length - block * 64 < 64 then bits.Length - block * 64 else 64;
      for offset := 0 to end
        invariant forall k :: 0 <= k < bits.Length ==>
          bits[k] == if k < block * 64 + offset then old(bits[k]) != StreamBit(stream, k) else old(bits[k])
      {
        var k := block * 64 + offset;
        assert k / 64 == block && k % 64 == offset;
        bits[k] := bits[k] != Bit(word, offset);
      }
      block := block + 1;
    }
    forall k | 0 <= k < bits.Length ensures bits[k] == Whitened(old(bits[..]), stream)[k] {
      WhitenedAt(old(bits[..]), stream, k);
    }
  }

  // ----- Little-endian numbers -----

  function LittleEndian(x: nat, n: nat): (bytes: seq<Byte>)
    ensures |bytes| == n
  {
    if n == 0 then [] else [x % 256] + LittleEndian(x / 256, n - 1)
  }

  function ReadLittleEndian(bytes: seq<Byte>): nat {
    if bytes == [] then 0 else bytes[0] + 256 * ReadLittleEndian(bytes[1..])
  }

  lemma Pow2By8(k: nat)
    ensures Pow2(k + 8) == 256 * Pow2(k)
  {
    assert Pow2(k + 2) == 4 * Pow2(k);
    assert Pow2(k + 4) == 4 * Pow2(k + 2);
    assert Pow2(k + 6) == 4 * Pow2(k + 4);
    assert Pow2(k + 8) == 4 * Pow2(k + 6);
  }

  lemma {:induction false} ReadWrite(x: nat, n: nat)
    requires x < Pow2(8 * n)
    ensures ReadLittleEndian(LittleEndian(x, n)) == x
  {
    if n > 0 {
      Pow2By8(8 * (n - 1));
      ReadWrite(x / 256, n - 1);
      assert LittleEndian(x, n)[1..] == LittleEndian(x / 256, n - 1);
    }
  }

  /** Least significant byte first. */
  lemma FourBytes(x: U32, a: Byte, b: Byte, c: Byte, d: Byte)
    requires x == a as int + 256 * (b as int + 256 * (c as int + 256 * d))
    ensures LittleEndian(x, 4) == [a, b, c, d]
  {
    var y, z := b as int + 256 * (c as int + 256 * d), c as int + 256 * d;
    assert x % 256 == a && x / 256 == y && y % 256 == b && y / 256 == z && z % 256 == c && z / 256 == d;
    assert LittleEndian(d, 1) == [d] + LittleEndian(0, 0);
    assert LittleEndian(z, 2) == [c] + LittleEndian(d, 1);
    assert LittleEndian(y, 3) == [b] + LittleEndian(z, 2);
  }

  lemma ReadU32(x: U32)
    ensures ReadLittleEndian(LittleEndian(x, 4)) == x
  {
    Pow2Of32();
    ReadWrite(x, 4);
  }

  lemma {:induction false} WriteRead(bytes: seq<Byte>)
    ensures LittleEndian(ReadLittleEndian(bytes), |bytes|) == bytes
  {
    if bytes != [] {
      WriteRead(bytes[1..]);
      var rest := ReadLittleEndian(bytes[1..]);
      assert (bytes[0] + 256 * rest) / 256 == rest && (bytes[0] + 256 * rest) % 256 == bytes[0];
    }
  }

  lemma {:induction false} ReadBelow(bytes: seq<Byte>)
    ensures ReadLittleEndian(bytes) < Pow2(8 * |bytes|)
  {
    if bytes != [] {
      ReadBelow(bytes[1..]);
      Pow2By8(8 * (|bytes| - 1));
    }
  }

  lemma ReadFits(bytes: seq<Byte>)
    requires |bytes| == 4
    ensures ReadLittleEndian(bytes) < 0x1_0000_0000
  {
    ReadBelow(bytes);
    Pow2Of32();
  }

  // ----- The carrier header -----

  const HEADER_BYTES: nat := 24

  datatype HeaderFormat = HeaderFormat(magic: seq<Byte>, parameters: seq<Byte>) {
    ghost predicate Valid() {
      |magic| == 8 && |parameters| == 4
    }
  }

  datatype Header = Header(payloadSize: U32, payloadCrc: U32)

  datatype FormatError = WrongHeaderSize | HeaderIntegrity | UnsupportedFormat | CorruptEnvelope | UnsupportedFlags

  function MakeHeader(format: HeaderFormat, h: Header, crc: seq<Byte> -> U32): (bytes: seq<Byte>)
    requires format.Valid()
    ensures |bytes| == HEADER_BYTES
  {
    var body := format.magic + format.parameters + LittleEndian(h.payloadSize, 4) + LittleEndian(h.payloadCrc, 4);
    body + LittleEndian(crc(body), 4)
  }

  /** None when the magic does not match; past the magic, anything wrong is an error. */
  function ParseHeader(format: HeaderFormat, bytes: seq<Byte>, crc: seq<Byte> -> U32): Result<Option<Header>, FormatError>
    requires format.Valid()
  {
    if |bytes| != HEADER_BYTES then Err(WrongHeaderSize)
    else if bytes[..8] != format.magic then Ok(None)
    else if crc(bytes[..20]) != ReadLittleEndian(bytes[20..24]) then Err(HeaderIntegrity)
    else if bytes[8..12] != format.parameters then Err(UnsupportedFormat)
    else
      ReadFits(bytes[12..16]);
      ReadFits(bytes[16..20]);
      Ok(Some(Header(ReadLittleEndian(bytes[12..16]), ReadLittleEndian(bytes[16..20]))))
  }

  /** A field reads as a number exactly when it is that number's bytes. */
  lemma FieldIs(field: seq<Byte>, x: U32)
    requires |field| == 4
    ensures ReadLittleEndian(field) == x <==> field == LittleEndian(x, 4)
  {
    hide LittleEndian, ReadLittleEndian;
    ReadU32(x);
    WriteRead(field);
  }

  /** The header made from `h`, field by field. */
  lemma HeaderFields(format: HeaderFormat, bytes: seq<Byte>, h: Header, crc: seq<Byte> -> U32)
    requires format.Valid() && |bytes| == HEADER_BYTES
    ensures bytes == MakeHeader(format, h, crc) <==>
      && bytes[..8] == format.magic && bytes[8..12] == format.parameters
      && bytes[12..16] == LittleEndian(h.payloadSize, 4) && bytes[16..20] == LittleEndian(h.payloadCrc, 4)
      && bytes[20..24] == LittleEndian(crc(bytes[..20]), 4)
  {
    hide LittleEndian;
    var size, check := LittleEndian(h.payloadSize, 4), LittleEndian(h.payloadCrc, 4);
    var body := format.magic + format.parameters + size + check;
    FourParts(bytes[..20], format.magic, format.parameters, size, check);
    TwoParts(bytes, body, LittleEndian(crc(body), 4));
    HeaderSlices(bytes);
  }

  lemma HeaderSlices(bytes: seq<Byte>)
    requires |bytes| == HEADER_BYTES
    ensures bytes[..20][..8] == bytes[..8] && bytes[..20][8..12] == bytes[8..12]
    ensures bytes[..20][12..16] == bytes[12..16] && bytes[..20][16..20] == bytes[16..20]
    ensures bytes[20..] == bytes[20..24]
  {
  }

  lemma TwoParts(bytes: seq<Byte>, a: seq<Byte>, b: seq<Byte>)
    requires |bytes| == |a| + |b|
    ensures bytes == a + b <==> bytes[..|a|] == a && bytes[|a|..] == b
  {
    assert bytes == bytes[..|a|] + bytes[|a|..];
  }

  lemma FourParts(bytes: seq<Byte>, a: seq<Byte>, b: seq<Byte>, c: seq<Byte>, d: seq<Byte>)
    requires |a| == 8 && |b| == |c| == |d| == 4 && |bytes| == 20
    ensures bytes == a + b + c + d <==> bytes[..8] == a && bytes[8..12] == b && bytes[12..16] == c && bytes[16..20] == d
  {
    TwoParts(bytes, a + b + c, d);
    TwoParts(bytes[..16], a + b, c);
    TwoParts(bytes[..12], a, b);
    assert bytes[..16][..12] == bytes[..12] && bytes[..12][..8] == bytes[..8];
    assert bytes[16..] == bytes[16..20] && bytes[..16][12..] == bytes[12..16] && bytes[..12][8..] == bytes[8..12];
  }

  /** A header parses to `h` exactly when it is the header made from `h`. */
  lemma HeaderRoundTrip(format: HeaderFormat, bytes: seq<Byte>, h: Header, crc: seq<Byte> -> U32)
    requires format.Valid()
    ensures ParseHeader(format, bytes, crc) == Ok(Some(h)) <==> bytes == MakeHeader(format, h, crc)
  {
    hide MakeHeader, LittleEndian, ReadLittleEndian;
    if |bytes| == HEADER_BYTES {
      HeaderFields(format, bytes, h, crc);
      FieldIs(bytes[12..16], h.payloadSize);
      FieldIs(bytes[16..20], h.payloadCrc);
      FieldIs(bytes[20..24], crc(bytes[..20]));
    }
  }

  /** Bytes are taken for no header of this format exactly when they do not begin with its magic. */
  lemma NoHeader(format: HeaderFormat, bytes: seq<Byte>, crc: seq<Byte> -> U32)
    requires format.Valid() && |bytes| == HEADER_BYTES
    ensures ParseHeader(format, bytes, crc) == Ok(None) <==> bytes[..8] != format.magic
    ensures ParseHeader(format, bytes, crc).Err? <==>
      bytes[..8] == format.magic && forall h :: bytes != MakeHeader(format, h, crc)
  {
    hide MakeHeader, ReadLittleEndian;
    forall h ensures ParseHeader(format, bytes, crc) == Ok(Some(h)) <==> bytes == MakeHeader(format, h, crc) {
      HeaderRoundTrip(format, bytes, h, crc);
    }
  }

  /** What is wrong behind the magic: the checksum, or else the parameters. */
  lemma HeaderFault(format: HeaderFormat, bytes: seq<Byte>, crc: seq<Byte> -> U32)
    requires format.Valid()
    ensures var intact := |bytes| == HEADER_BYTES && bytes[20..24] == LittleEndian(crc(bytes[..20]), 4);
      && (ParseHeader(format, bytes, crc) == Err(WrongHeaderSize) <==> |bytes| != HEADER_BYTES)
      && (ParseHeader(format, bytes, crc) == Err(HeaderIntegrity) <==>
            |bytes| == HEADER_BYTES && bytes[..8] == format.magic && !intact)
      && (ParseHeader(format, bytes, crc) == Err(UnsupportedFormat) <==>
            intact && bytes[..8] == format.magic && bytes[8..12] != format.parameters)
  {
    hide LittleEndian, ReadLittleEndian;
    if |bytes| == HEADER_BYTES { FieldIs(bytes[20..24], crc(bytes[..20])); }
  }

  // ----- The encrypted envelope -----

  const ENVELOPE_PREFIX: nat := 16

  datatype EnvelopeFormat = EnvelopeFormat(magic: seq<Byte>, kdfBytes: nat) {
    ghost predicate Valid() {
      |magic| == 8
    }
  }

  datatype Envelope = Envelope(kdf: seq<Byte>, encrypted: seq<Byte>, compressed: bool)

  function MakeEnvelope(format: EnvelopeFormat, e: Envelope): (bytes: seq<Byte>)
    requires format.Valid() && |e.kdf| == format.kdfBytes && |e.encrypted| < 0x1_0000_0000
    ensures |bytes| == ENVELOPE_PREFIX + format.kdfBytes + |e.encrypted|
  {
    format.magic + [if e.compressed then 1 else 0, 0, 0, 0] + LittleEndian(|e.encrypted|, 4) + e.kdf + e.encrypted
  }

  function ParseEnvelope(format: EnvelopeFormat, payload: seq<Byte>): Result<Option<Envelope>, FormatError>
    requires format.Valid()
  {
    var header := ENVELOPE_PREFIX + format.kdfBytes;
    if |payload| < 8 || payload[..8] != format.magic then Ok(None)
    else if |payload| < header then Err(CorruptEnvelope)
    else if payload[8] / 2 != 0 || payload[9] != 0 || payload[10] != 0 || payload[11] != 0 then Err(UnsupportedFlags)
    else if |payload| != header + ReadLittleEndian(payload[12..16]) then Err(CorruptEnvelope)
    else Ok(Some(Envelope(payload[ENVELOPE_PREFIX..header], payload[header..], payload[8] % 2 == 1)))
  }

  /** The envelope made from `e`, field by field. */
  lemma EnvelopeFields(format: EnvelopeFormat, payload: seq<Byte>, e: Envelope)
    requires format.Valid() && |e.kdf| == format.kdfBytes && |e.encrypted| < 0x1_0000_0000
    requires |payload| == ENVELOPE_PREFIX + format.kdfBytes + |e.encrypted|
    ensures var header := ENVELOPE_PREFIX + format.kdfBytes;
      payload == MakeEnvelope(format, e) <==>
      && payload[..8] == format.magic && payload[8..12] == [if e.compressed then 1 else 0, 0, 0, 0]
      && payload[12..16] == LittleEndian(|e.encrypted|, 4)
      && payload[ENVELOPE_PREFIX..header] == e.kdf && payload[header..] == e.encrypted
  {
    hide LittleEndian;
    var header := ENVELOPE_PREFIX + format.kdfBytes;
    var flags, size := [if e.compressed then 1 else 0, 0, 0, 0], LittleEndian(|e.encrypted|, 4);
    TwoParts(payload, format.magic + flags + size + e.kdf, e.encrypted);
    TwoParts(payload[..header], format.magic + flags + size, e.kdf);
    TwoParts(payload[..16], format.magic + flags, size);
    TwoParts(payload[..12], format.magic, flags);
    assert payload[..header][..16] == payload[..16] && payload[..16][..12] == payload[..12] && payload[..12][..8] == payload[..8];
    assert payload[..header][16..] == payload[16..header];
    assert payload[..16][12..] == payload[12..16] && payload[..12][8..] == payload[8..12];
  }

  lemma FlagsAre(payload: seq<Byte>, compressed: bool)
    requires |payload| >= 12
    ensures payload[8..12] == [if compressed then 1 else 0, 0, 0, 0]
       <==> payload[8] / 2 == 0 && payload[9] == payload[10] == payload[11] == 0 && (payload[8] % 2 == 1) == compressed
  {
    var flags := payload[8..12];
    assert flags[0] == payload[8] && flags[1] == payload[9] && flags[2] == payload[10] && flags[3] == payload[11];
  }

  /** A payload parses to `e` exactly when it is the envelope made from `e`. */
  lemma EnvelopeRoundTrip(format: EnvelopeFormat, payload: seq<Byte>, e: Envelope)
    requires format.Valid() && |e.kdf| == format.kdfBytes && |e.encrypted| < 0x1_0000_0000
    ensures ParseEnvelope(format, payload) == Ok(Some(e)) <==> payload == MakeEnvelope(format, e)
  {
    hide MakeEnvelope, LittleEndian, ReadLittleEndian;
    if |payload| == ENVELOPE_PREFIX + format.kdfBytes + |e.encrypted| {
      EnvelopeFields(format, payload, e);
      FieldIs(payload[12..16], |e.encrypted|);
      FlagsAre(payload, e.compressed);
    }
  }

  /** A payload that could have been made: its fields have the sizes an envelope gives them. */
  ghost predicate Sized(format: EnvelopeFormat, e: Envelope) {
    |e.kdf| == format.kdfBytes && |e.encrypted| < 0x1_0000_0000
  }

  /** What is not an envelope is passed over without the magic and corrupt with it, or else has unknown flags. */
  lemma EnvelopeFault(format: EnvelopeFormat, payload: seq<Byte>)
    requires format.Valid()
    ensures var marked := |payload| >= 8 && payload[..8] == format.magic;
      && (ParseEnvelope(format, payload) == Ok(None) <==> !marked)
      && (ParseEnvelope(format, payload) == Err(UnsupportedFlags) <==>
            marked && |payload| >= 16 + format.kdfBytes && payload[8..12] != [0, 0, 0, 0] && payload[8..12] != [1, 0, 0, 0])
      && (ParseEnvelope(format, payload).Err? <==>
            marked && forall e :: Sized(format, e) ==> payload != MakeEnvelope(format, e))
  {
    hide MakeEnvelope, ReadLittleEndian;
    if |payload| >= 12 {
      FlagsAre(payload, false);
      FlagsAre(payload, true);
    }
    if ParseEnvelope(format, payload).Ok? && ParseEnvelope(format, payload).value.Some? {
      var e := ParseEnvelope(format, payload).value.value;
      ReadFits(payload[12..16]);
      EnvelopeRoundTrip(format, payload, e);
      assert Sized(format, e);
    }
    forall e | Sized(format, e) && payload == MakeEnvelope(format, e) ensures ParseEnvelope(format, payload) == Ok(Some(e)) {
      EnvelopeRoundTrip(format, payload, e);
    }
    MadeIsMarked(format, payload);
  }

  lemma MadeIsMarked(format: EnvelopeFormat, payload: seq<Byte>)
    requires format.Valid()
    ensures forall e :: Sized(format, e) && payload == MakeEnvelope(format, e) ==>
      |payload| >= 8 && payload[..8] == format.magic
  {
  }
}
