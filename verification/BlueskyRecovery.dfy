/**
  The Bluesky reader: the EXIF chunk, the datasets behind the Photoshop signature,
  and the Base64 behind the XMP creator tag. It reads back what the writer packed.
 */
module BlueskyRecovery {
  import opened Results
  import opened Bytes
  import opened Base64
  import opened SignatureScan
  import opened BlueskySegments

  const MAX_DATA: nat := 0x20_0000
  const SEARCH_WINDOW: nat := 191105
  const MAX_SCAN: nat := 0x2_0000
  const HEADER_SEARCH: nat := 100
  const DATASET_MAX: nat := 32800

  /** "shop 3." and "<rdf:li". */
  const PSHOP_SIG: seq<Byte> := [0x73, 0x68, 0x6F, 0x70, 0x20, 0x33, 0x2E]
  const XMP_SIG: seq<Byte> := [0x3C, 0x72, 0x64, 0x66, 0x3A, 0x6C, 0x69]

  predicate InRange(file: seq<Byte>, offset: nat, length: nat) {
    offset <= |file| && length <= |file| - offset
  }

  function U16(file: seq<Byte>, at: nat): nat
    requires at + 2 <= |file|
  {
    ReadBigEndian(file[at..at + 2])
  }

  // ----- What the reader computes; anything wrong is one error, None -----

  /** The EXIF segment is there, is whole, and has room for its share. */
  predicate ExifHolds(file: seq<Byte>, embedded: nat) {
    var header := file[..Min(|file|, HEADER_SEARCH)];
    var at := FirstMatch(header, [0xFF, 0xE1], 0, |header|);
    if at.None? || |header| - at.value < 4 then false
    else
      var size := U16(file, at.value + 2);
      var end := at.value + 2 + size;
      if size < 2 || EXIF_INSERT >= end || embedded > Min(MaxCapacity(), MAX_DATA) then false
      else
        var room := end - EXIF_INSERT;
        && (if embedded <= EXIF_LIMIT then embedded <= room else room >= EXIF_LIMIT)
        && end <= |file|
  }

  /** The Photoshop signature after the EXIF chunk, inside an APP13 segment. */
  function PshopSignature(file: seq<Byte>, chunk: nat): Option<nat> {
    var start := EXIF_INSERT + chunk;
    if start >= |file| then None
    else
      var at := FirstMatch(file, PSHOP_SIG, start, Min(|file|, start + SEARCH_WINDOW));
      if at.None? || at.value < 9 || file[at.value - 9..at.value - 7] != [0xFF, 0xED] then None else at
  }

  /** One dataset: its two-byte size and its bytes, if the size is possible. */
  function Dataset(file: seq<Byte>, sizeIndex: nat, remaining: nat): Option<seq<Byte>> {
    if !InRange(file, sizeIndex, 2) then None
    else
      var size := U16(file, sizeIndex);
      if size == 0 || size > remaining || size > |file| - (sizeIndex + 2) then None
      else Some(file[sizeIndex + 2..sizeIndex + 2 + size])
  }

  /** The Base64 behind the creator tag, between the EXIF chunk and the Photoshop segment. */
  function XmpBytes(file: seq<Byte>, start: nat, pshopSizeIndex: nat, remaining: nat): Option<seq<Byte>> {
    if start >= pshopSizeIndex || pshopSizeIndex > |file| then None
    else
      var at := FirstMatch(file, XMP_SIG, start, pshopSizeIndex);
      if at.None? || at.value + 8 > |file| then None
      else
        var from := at.value + 8;
        DecodedUntil(file, from, if MAX_SCAN < |file| - from then from + MAX_SCAN else |file|, remaining)
  }

  function Joined(a: seq<Byte>, b: Option<seq<Byte>>): Option<seq<Byte>> {
    if b.None? then None else Some(a + b.value)
  }

  /** The datasets, and beyond them the XMP bytes. */
  function ReadDatasets(file: seq<Byte>, chunk: nat, sig: nat, remaining: nat): Option<seq<Byte>>
    requires sig >= 9
  {
    if !InRange(file, sig - 7, 2) || !InRange(file, sig + 24, 2) || !InRange(file, sig - 7, U16(file, sig - 7)) then None
    else
      var first := Dataset(file, sig + 24, remaining);
      if first.None? then None
      else if |first.value| == remaining then first
      else if U16(file, sig - 7) <= DATASET_MAX then None
      else
        var second := Dataset(file, sig + 26 + |first.value| + 3, remaining - |first.value|);
        if second.None? then None
        else if |first.value| + |second.value| == remaining then Joined(first.value, second)
        else
          var left := remaining - |first.value| - |second.value|;
          Joined(first.value + second.value, XmpBytes(file, EXIF_INSERT + chunk, sig - 7, left))
  }

  function ReadCiphertext(file: seq<Byte>, embedded: nat): Option<seq<Byte>> {
    var chunk := Min(embedded, EXIF_LIMIT);
    if embedded == 0 || EXIF_INSERT > |file| || chunk > |file| - EXIF_INSERT || !ExifHolds(file, embedded) then None
    else
      var exif := file[EXIF_INSERT..EXIF_INSERT + chunk];
      if chunk == embedded then Some(exif)
      else
        var sig := PshopSignature(file, chunk);
        if sig.None? then None else Joined(exif, ReadDatasets(file, chunk, sig.value, embedded - chunk))
  }

  // ----- Reading -----

  method FindPshopSignature(file: seq<Byte>, chunk: nat) returns (sig: Option<nat>)
    ensures sig == PshopSignature(file, chunk)
  {
    hide FirstMatch;
    var start := EXIF_INSERT + chunk;
    if start >= |file| {
      return None;
    }
    var end := Min(|file|, start + SEARCH_WINDOW);
    sig := FindSignature(file, PSHOP_SIG, end, start);
    if sig.Some? && (sig.value < 9 || file[sig.value - 9..sig.value - 7] != [0xFF, 0xED]) {
      sig := None;
    }
  }

  method ReadXmp(file: seq<Byte>, start: nat, pshopSizeIndex: nat, remaining: nat) returns (bytes: Option<seq<Byte>>)
    requires pshopSizeIndex <= |file|
    ensures bytes == XmpBytes(file, start, pshopSizeIndex, remaining)
  {
    hide FirstMatch, DecodedUntil;
    if start >= pshopSizeIndex {
      return None;
    }
    var at := FindSignature(file, XMP_SIG, pshopSizeIndex, start);
    if at.None? || at.value + 8 > |file| {
      return None;
    }
    bytes := DecodeUntilDelimiter(file, at.value + 8, MAX_SCAN, remaining);
  }

  /** The original's reader, appending part by part. */
  method ReadBlueskyCiphertext(file: seq<Byte>, embedded: nat) returns (r: Option<seq<Byte>>)
    ensures r == ReadCiphertext(file, embedded)
  {
    hide ExifHolds, PshopSignature, XmpBytes, ReadBigEndian;
    if embedded == 0 || EXIF_INSERT > |file| {
      return None;
    }
    var chunk := Min(embedded, EXIF_LIMIT);
    if chunk > |file| - EXIF_INSERT || !ExifHolds(file, embedded) {
      return None;
    }
    var output := file[EXIF_INSERT..EXIF_INSERT + chunk];
    var remaining := embedded - chunk;
    if remaining == 0 {
      return Some(output);
    }
    var found := FindPshopSignature(file, chunk);
    if found.None? || found.value < 9 {
      SignatureIsFramed(file, chunk);
      return None;
    }
    var rest := ReadParts(file, chunk, found.value, remaining);
    return Joined(output, rest);
  }

  lemma SignatureIsFramed(file: seq<Byte>, chunk: nat)
    ensures PshopSignature(file, chunk).Some? ==> PshopSignature(file, chunk).value >= 9
  {
  }

  method ReadParts(file: seq<Byte>, chunk: nat, sig: nat, remaining: nat) returns (r: Option<seq<Byte>>)
    requires sig >= 9
    ensures r == ReadDatasets(file, chunk, sig, remaining)
  {
    hide XmpBytes, U16;
    if !InRange(file, sig - 7, 2) || !InRange(file, sig + 24, 2) {
      return None;
    }
    var segmentSize := U16(file, sig - 7);
    if !InRange(file, sig - 7, segmentSize) {
      return None;
    }
    var first := Dataset(file, sig + 24, remaining);
    if first.None? {
      return None;
    }
    var output, left := first.value, remaining - |first.value|;
    if left == 0 {
      return Some(output);
    }
    if segmentSize <= DATASET_MAX {
      return None;
    }
    var second := Dataset(file, sig + 26 + |first.value| + 3, left);
    if second.None? {
      return None;
    }
    output, left := output + second.value, left - |second.value|;
    if left == 0 {
      return Some(output);
    }
    var xmp := ReadXmp(file, EXIF_INSERT + chunk, sig - 7, left);
    return Joined(output, xmp);
  }
}
