/**
  What the packed Bluesky segments look like to any reader of JPEG markers, and
  what the recovering reader insists on before it returns anything.
 */
module BlueskyMarkers {
  import opened Results
  import opened Bytes
  import opened Base64
  import opened SignatureScan
  import opened BlueskySegments
  import opened BlueskyRecovery
  import opened BlueskyRoundTrip

  // ----- The sizes the writer states -----

  /** A segment from `at` to `end`: its marker, and a length that counts from itself to the end. */
  predicate SegmentAt(file: seq<Byte>, at: nat, marker: Byte, end: nat) {
    at + 4 <= end <= |file| && file[at] == 0xFF && file[at + 1] == marker && at + 2 + U16(file, at + 2) == end
  }

  lemma SegmentIs(file: seq<Byte>, at: nat, marker: Byte, s: seq<Byte>)
    requires |s| >= 4 && s[..2] == [0xFF, marker] && |s| - 2 < 65536 && Stands(s, 2, BigEndian(|s| - 2, 2))
    requires Stands(file, at, s)
    ensures SegmentAt(file, at, marker, at + |s|)
  {
    hide BigEndian, U16;
    LaidByte(file, at, s, 0);
    LaidByte(file, at, s, 1);
    assert s[0] == s[..2][0] && s[1] == s[..2][1];
    StandsWithin(file, at, s, 2, BigEndian(|s| - 2, 2));
    FieldHolds(file, at + 2, |s| - 2);
  }

  /** The three sizes in the EXIF head: the segment's, the artist field's and the whole ciphertext's. */
  lemma HeadSizes(t: Templates, size: nat)
    requires |t.exif| == EXIF_BYTES
    ensures var e, chunk := ExifHead(t, size), Min(size, EXIF_LIMIT);
      && Stands(e, EXIF_SIZE_INDEX, BigEndian(chunk + 507, 2))
      && Stands(e, ARTIST_SIZE_INDEX, BigEndian(chunk + 367, 4))
      && Stands(e, CIPHER_SIZE_INDEX, BigEndian(size, 4))
  {
    hide BigEndian, WithField;
    var chunk := Min(size, EXIF_LIMIT);
    var total, artist, field := BigEndian(size, 4), BigEndian(chunk + 367, 4), BigEndian(chunk + 507, 2);
    var one := WithField(t.exif, CIPHER_SIZE_INDEX, total);
    var two := WithField(one, ARTIST_SIZE_INDEX, artist);
    WithFieldElsewhere(one, ARTIST_SIZE_INDEX, artist, CIPHER_SIZE_INDEX, 4);
    WithFieldElsewhere(two, EXIF_SIZE_INDEX, field, CIPHER_SIZE_INDEX, 4);
    WithFieldElsewhere(two, EXIF_SIZE_INDEX, field, ARTIST_SIZE_INDEX, 4);
  }

  lemma XmpSize(t: Templates, raw: seq<Byte>)
    requires |t.xmp| == XMP_BYTES
    ensures var x := XmpSegment(t, raw); Stands(x, 2, BigEndian(|x| - 2, 2))
  {
    hide BigEndian, Encode, WithField;
  }

  /** The resource block's size reaches from behind itself to the segment's end. */
  lemma BlockSize(t: Templates, first: seq<Byte>, second: seq<Byte>)
    requires |t.pshop| == PSHOP_BYTES && first != []
    ensures var p := PshopSegment(t, first, second); Stands(p, BIM_SIZE_INDEX, BigEndian(|p| - 30, 2))
  {
    hide BigEndian, PshopBody, WithField;
  }

  /** The head's fields stand in the file where they stand in the head. */
  lemma HeadFieldStands(t: Templates, data: seq<Byte>, cover: seq<Byte>, at: nat, field: seq<Byte>)
    requires t.Valid() && at + |field| <= EXIF_INSERT && Stands(ExifHead(t, |data|), at, field)
    ensures Stands(Packed(t, data) + cover, at, field)
  {
    hide ExifHead, XmpPart, PshopPart, Packed, LayoutFor, Stands, BigEndian;
    var head := ExifHead(t, |data|);
    PackedIs(t, data);
    var l := LayoutFor(|data|);
    FrontStands(head, data[..l.exif] + head[EXIF_INSERT..] + XmpPart(t, l, Raw(data)) + PshopPart(t, data) + cover, at, field);
    Regrouped(head[..EXIF_INSERT], data[..l.exif], head[EXIF_INSERT..], XmpPart(t, l, Raw(data)), PshopPart(t, data), cover);
  }

  lemma Regrouped(a: seq<Byte>, b: seq<Byte>, c: seq<Byte>, d: seq<Byte>, e: seq<Byte>, f: seq<Byte>)
    ensures a + b + c + d + e + f == a + (b + c + d + e + f)
  {
  }

  lemma FrontStands(head: seq<Byte>, rest: seq<Byte>, at: nat, field: seq<Byte>)
    requires |head| == EXIF_BYTES && at + |field| <= EXIF_INSERT && Stands(head, at, field)
    ensures Stands(head[..EXIF_INSERT] + rest, at, field)
  {
    var file := head[..EXIF_INSERT] + rest;
    assert forall i :: at <= i < at + |field| ==> file[i] == head[i];
    assert file[at..at + |field|] == head[at..at + |field|];
  }

  function U32(file: seq<Byte>, at: nat): nat
    requires at + 4 <= |file|
  {
    ReadBigEndian(file[at..at + 4])
  }

  lemma WideFieldHolds(file: seq<Byte>, at: nat, v: nat)
    requires Stands(file, at, BigEndian(v, 4)) && v < 0x1_0000_0000
    ensures at + 4 <= |file| && U32(file, at) == v
  {
    assert Pow256(4) == 0x1_0000_0000;
    FieldRoundTrip(v, 4);
  }

  /** The end of the EXIF segment, and behind it of the XMP segment. */
  function ExifEnd(size: nat): nat {
    EXIF_BYTES + Min(size, EXIF_LIMIT)
  }

  /**
    What the head says: the EXIF segment ends where its length says, the artist field's
    count reaches from offset 144 to that very end, and the ciphertext's size is stated.
   */
  lemma HeadIsTrue(t: Templates, data: seq<Byte>, cover: seq<Byte>)
    requires Searchable(t) && |data| <= MaxCapacity()
    ensures var file := Packed(t, data) + cover;
      && |file| >= ExifEnd(|data|) && file[..2] == [0xFF, 0xD8]
      && SegmentAt(file, 2, 0xE1, ExifEnd(|data|))
      && 144 + U32(file, ARTIST_SIZE_INDEX) == ExifEnd(|data|)
      && U32(file, CIPHER_SIZE_INDEX) == |data|
  {
    hide Searchable, ExifHead, Packed, BigEndian, U16, U32, Stands, PshopSegment, XmpSegment, Laid;
    TemplateFacts(t);
    HeadSizes(t, |data|);
    PackedHolds(t, data, cover);
    ExifShare(|data|);
    var file, chunk := Packed(t, data) + cover, Min(|data|, EXIF_LIMIT);
    HeadFieldStands(t, data, cover, EXIF_SIZE_INDEX, BigEndian(chunk + 507, 2));
    HeadFieldStands(t, data, cover, ARTIST_SIZE_INDEX, BigEndian(chunk + 367, 4));
    HeadFieldStands(t, data, cover, CIPHER_SIZE_INDEX, BigEndian(|data|, 4));
    FieldHolds(file, EXIF_SIZE_INDEX, chunk + 507);
    WideFieldHolds(file, ARTIST_SIZE_INDEX, chunk + 367);
    WideFieldHolds(file, CIPHER_SIZE_INDEX, |data|);
    assert file[..2] == file[0..4][..2] && file[2] == file[0..4][2] && file[3] == file[0..4][3];
  }

  /** How long the file's own segments are. */
  lemma PackedLength(t: Templates, data: seq<Byte>)
    requires t.Valid()
    ensures var l := LayoutFor(|data|);
      |Packed(t, data)| == EXIF_BYTES + l.exif + |XmpPart(t, l, Raw(data))| + |PshopPart(t, data)|
  {
    hide ExifHead, XmpPart, PshopPart, Packed, LayoutFor, Templates.Valid;
    PackedIs(t, data);
  }

  /** Where the Photoshop segment begins: behind the XMP segment, if there is one. */
  function PshopStart(t: Templates, data: seq<Byte>): nat
    requires |t.xmp| == XMP_BYTES
  {
    ExifEnd(|data|) + |XmpPart(t, LayoutFor(|data|), Raw(data))|
  }

  lemma PshopStands(t: Templates, data: seq<Byte>, cover: seq<Byte>)
    requires Searchable(t) && |data| <= MaxCapacity() && |data| > EXIF_LIMIT
    ensures |t.xmp| == XMP_BYTES && |t.pshop| == PSHOP_BYTES && First(data) != []
    ensures var l, p := LayoutFor(|data|), PshopSegment(t, First(data), Second(data));
      && Stands(Packed(t, data) + cover, ExifEnd(|data|), XmpPart(t, l, Raw(data)))
      && Stands(Packed(t, data) + cover, PshopStart(t, data), p)
      && |Packed(t, data)| == PshopStart(t, data) + |p|
  {
    hide Searchable, Packed, BigEndian, PshopSegment, XmpSegment, Laid, XmpPart, Templates.Valid, First, Second, Raw, LayoutFor;
    TemplateFacts(t);
    PackedHolds(t, data, cover);
    PackedLength(t, data);
    FirstBeyondExif(|data|);
    ExifShare(|data|);
    var l := LayoutFor(|data|);
    LaidParts(Packed(t, data) + cover, t, l.exif, XmpPart(t, l, Raw(data)), PshopSegment(t, First(data), Second(data)));
  }

  /** The Photoshop segment's length, and the length of the resource block in it, both end where the packed bytes end. */
  lemma PshopIsFramed(t: Templates, data: seq<Byte>, cover: seq<Byte>)
    requires Searchable(t) && |data| <= MaxCapacity() && |data| > EXIF_LIMIT
    ensures |t.xmp| == XMP_BYTES
    ensures var file, at := Packed(t, data) + cover, PshopStart(t, data);
      && SegmentAt(file, at, 0xED, |Packed(t, data)|)
      && at + 30 <= |file| && at + 30 + U16(file, at + 28) == |Packed(t, data)|
  {
    hide Searchable, Packed, BigEndian, PshopSegment, XmpSegment, XmpPart, Templates.Valid, First, Second, Raw, U16, Stands,
         PshopStart;
    TemplateFacts(t);
    PshopStands(t, data, cover);
    var file, at, p := Packed(t, data) + cover, PshopStart(t, data), PshopSegment(t, First(data), Second(data));
    PshopOpening(t, First(data), Second(data));
    SegmentSize(t, First(data), Second(data));
    BlockSize(t, First(data), Second(data));
    PshopLength(t, data);
    SegmentIs(file, at, 0xED, p);
    StandsWithin(file, at, p, BIM_SIZE_INDEX, BigEndian(|p| - 30, 2));
    FieldHolds(file, at + 28, |p| - 30);
  }

  lemma PshopLength(t: Templates, data: seq<Byte>)
    requires |t.pshop| == PSHOP_BYTES && First(data) != []
    ensures 36 <= |PshopSegment(t, First(data), Second(data))| <= 65537
  {
    hide LayoutFor, Part;
    PartsRejoin(data);
    LayoutBounds(|data|);
  }

  lemma LayoutBounds(size: nat)
    ensures LayoutFor(size).first <= FIRST_LIMIT && LayoutFor(size).second <= SECOND_LIMIT
  {
  }

  /** The XMP segment begins where the EXIF segment ends, and its length ends where the Photoshop segment begins. */
  lemma XmpIsFramed(t: Templates, data: seq<Byte>, cover: seq<Byte>)
    requires Searchable(t) && |data| <= MaxCapacity() && LayoutFor(|data|).xmp > 0
    ensures |t.xmp| == XMP_BYTES
    ensures SegmentAt(Packed(t, data) + cover, ExifEnd(|data|), 0xE1, PshopStart(t, data))
  {
    hide Searchable, Packed, BigEndian, PshopSegment, XmpSegment, Templates.Valid, First, Second, Raw, U16, Stands, LayoutFor;
    TemplateFacts(t);
    XmpBeyondExif(|data|);
    PshopStands(t, data, cover);
    SegmentBounded(t, data);
    XmpOpening(t, Raw(data));
    XmpSize(t, Raw(data));
    SegmentIs(Packed(t, data) + cover, ExifEnd(|data|), 0xE1, XmpSegment(t, Raw(data)));
  }

  lemma XmpBeyondExif(size: nat)
    ensures LayoutFor(size).xmp > 0 ==> size > EXIF_LIMIT
  {
  }

  // ----- What the reader insists on -----

  /** Nothing is returned but the announced number of bytes, the first of them straight out of the EXIF segment. */
  lemma ReadIsWhole(file: seq<Byte>, embedded: nat)
    requires ReadCiphertext(file, embedded).Some?
    ensures var d, chunk := ReadCiphertext(file, embedded).value, Min(embedded, EXIF_LIMIT);
      && |d| == embedded && 1 <= embedded <= CAPACITY
      && EXIF_INSERT + chunk <= |file| && d[..chunk] == file[EXIF_INSERT..EXIF_INSERT + chunk]
  {
    hide FirstMatch, DecodedUntil, U16, PshopSignature, ReadDatasets;
    CapacitiesAgree(0);
    var chunk := Min(embedded, EXIF_LIMIT);
    var exif := file[EXIF_INSERT..EXIF_INSERT + chunk];
    if chunk < embedded {
      SignatureIsFramed(file, chunk);
      DatasetsAreWhole(file, chunk, PshopSignature(file, chunk).value, embedded - chunk);
      var rest := ReadDatasets(file, chunk, PshopSignature(file, chunk).value, embedded - chunk).value;
      assert (exif + rest)[..chunk] == exif;
    }
  }

  lemma DatasetsAreWhole(file: seq<Byte>, chunk: nat, sig: nat, remaining: nat)
    requires sig >= 9 && ReadDatasets(file, chunk, sig, remaining).Some?
    ensures |ReadDatasets(file, chunk, sig, remaining).value| == remaining
  {
    hide U16, XmpBytes, Dataset;
    var first := Dataset(file, sig + 24, remaining);
    DatasetFits(file, sig + 24, remaining);
    if |first.value| < remaining {
      DatasetFits(file, sig + 26 + |first.value| + 3, remaining - |first.value|);
      var second := Dataset(file, sig + 26 + |first.value| + 3, remaining - |first.value|);
      XmpIsWhole(file, EXIF_INSERT + chunk, sig - 7, remaining - |first.value| - |second.value|);
    }
  }

  lemma DatasetFits(file: seq<Byte>, at: nat, remaining: nat)
    ensures Dataset(file, at, remaining).Some? ==> 1 <= |Dataset(file, at, remaining).value| <= remaining
  {
    hide U16;
  }

  lemma XmpIsWhole(file: seq<Byte>, start: nat, end: nat, remaining: nat)
    ensures XmpBytes(file, start, end, remaining).Some? ==> |XmpBytes(file, start, end, remaining).value| == remaining
  {
    hide FirstMatch, DelimiterIn, Decode;
  }

  /**
    Beyond the EXIF segment's share nothing is returned without the signature at its
    place in an APP13 segment that the file holds to its end, nor out of more than one
    dataset when that segment has no room for two.
   */
  lemma ReadNeedsSegment(file: seq<Byte>, embedded: nat) returns (start: nat)
    requires ReadCiphertext(file, embedded).Some? && embedded > EXIF_LIMIT
    ensures start >= EXIF_INSERT + EXIF_LIMIT - 9 && start + 35 <= |file|
    ensures MatchesAt(file, PSHOP_SIG, start + 9) && file[start..start + 2] == [0xFF, 0xED]
    ensures start + 2 + U16(file, start + 2) <= |file|
    ensures U16(file, start + 2) <= DATASET_MAX ==> embedded == EXIF_LIMIT + U16(file, start + 33)
  {
    hide FirstMatch, U16, MatchesAt, ExifHolds, XmpBytes;
    var s := PshopSignature(file, EXIF_LIMIT).value;
    FirstMatchMeans(file, PSHOP_SIG, EXIF_INSERT + EXIF_LIMIT, Min(|file|, EXIF_INSERT + EXIF_LIMIT + SEARCH_WINDOW));
    start := s - 9;
  }

  /** In a file cut short, the first match is the whole file's or there is none. */
  lemma FirstMatchCut(file: seq<Byte>, sig: seq<Byte>, from: nat, cut: nat, end: nat, whole: nat)
    requires cut <= |file| && end <= cut && end <= whole <= |file| && sig != [] && FirstMatch(file, sig, from, whole).Some?
    ensures var short := FirstMatch(file[..cut], sig, from, end);
      short.Some? ==> short == FirstMatch(file, sig, from, whole)
  {
    hide MatchesAt, FirstMatch;
    var short, full := FirstMatch(file[..cut], sig, from, end), FirstMatch(file, sig, from, whole);
    FirstMatchMeans(file[..cut], sig, from, end);
    FirstMatchMeans(file, sig, from, whole);
    if short.Some? {
      CutShows(file, cut, sig, short.value);
      assert full.value <= short.value;
      CutShows(file, cut, sig, full.value);
    }
  }

  lemma CutShows(file: seq<Byte>, cut: nat, sig: seq<Byte>, at: nat)
    requires cut <= |file| && at + |sig| <= cut
    ensures MatchesAt(file[..cut], sig, at) <==> MatchesAt(file, sig, at)
  {
    assert file[..cut][at..at + |sig|] == file[at..at + |sig|];
  }

  lemma CutKeeps(file: seq<Byte>, cut: nat, at: nat)
    requires at + 2 <= cut <= |file|
    ensures U16(file[..cut], at) == U16(file, at)
  {
    assert file[..cut][at..at + 2] == file[at..at + 2];
  }

  /** The packed segments cut short anywhere give nothing. */
  lemma CutIsRefused(t: Templates, data: seq<Byte>, cut: nat)
    requires Searchable(t) && data != [] && |data| <= MaxCapacity() && cut < |Packed(t, data)|
    ensures ReadCiphertext(Packed(t, data)[..cut], |data|) == None
  {
    hide Searchable, Packed, ExifHolds, PshopSignature, ReadDatasets, U16, Templates.Valid;
    TemplateFacts(t);
    assert Packed(t, data) + [] == Packed(t, data);
    HeadIsTrue(t, data, []);
    if cut < ExifEnd(|data|) {
      CutInExif(Packed(t, data), |data|, cut);
    } else {
      OnlyExif(t, data);
      CutInPshop(t, data, cut);
    }
  }

  lemma OnlyExif(t: Templates, data: seq<Byte>)
    requires t.Valid()
    ensures |data| <= EXIF_LIMIT ==> |Packed(t, data)| == ExifEnd(|data|)
  {
    hide ExifHead, XmpSegment, PshopSegment, Packed, LayoutFor, Templates.Valid, Part;
    PackedLength(t, data);
    ExifShare(|data|);
    FirstBeyondExif(|data|);
    XmpBeyondExif(|data|);
    PartsRejoin(data);
  }

  lemma CutInExif(file: seq<Byte>, embedded: nat, cut: nat)
    requires ExifEnd(embedded) <= |file| && SegmentAt(file, 2, 0xE1, ExifEnd(embedded)) && file[..2] == [0xFF, 0xD8]
    requires cut < ExifEnd(embedded)
    ensures ReadCiphertext(file[..cut], embedded) == None
  {
    hide U16, FirstMatch, PshopSignature, ReadDatasets;
    if cut >= HEADER_SEARCH {
      var short := file[..cut];
      assert short[..HEADER_SEARCH][..2] == file[..2];
      CutKeeps(file, cut, 4);
      assert short[0..4] == [0xFF, 0xD8, 0xFF, 0xE1];
      FirstSegmentIsThird(short, short[..HEADER_SEARCH]);
    }
  }

  lemma CutInPshop(t: Templates, data: seq<Byte>, cut: nat)
    requires Searchable(t) && EXIF_LIMIT < |data| <= MaxCapacity()
    requires ExifEnd(|data|) <= cut < |Packed(t, data)|
    ensures ReadCiphertext(Packed(t, data)[..cut], |data|) == None
  {
    hide Searchable, Packed, ExifHolds, FirstMatch, U16, Templates.Valid, PshopStart, MatchesAt;
    TemplateFacts(t);
    assert Packed(t, data) + [] == Packed(t, data);
    PshopIsFramed(t, data, []);
    SignatureInPacked(t, data);
    var file, start := Packed(t, data), EXIF_INSERT + EXIF_LIMIT;
    var short := file[..cut];
    FirstMatchCut(file, PSHOP_SIG, start, cut, Min(cut, start + SEARCH_WINDOW), Min(|file|, start + SEARCH_WINDOW));
    var sig := PshopSignature(short, EXIF_LIMIT);
    if sig.Some? { CutKeeps(file, cut, sig.value - 7); }
  }

  lemma SignatureInPacked(t: Templates, data: seq<Byte>)
    requires Searchable(t) && EXIF_LIMIT < |data| <= MaxCapacity() && |t.xmp| == XMP_BYTES
    ensures PshopSignature(Packed(t, data), EXIF_LIMIT) == Some(PshopStart(t, data) + 9)
  {
    hide Searchable, Packed, PshopSegment, XmpSegment, Laid, Templates.Valid, PshopSignature, First, Second, Raw, LayoutFor;
    TemplateFacts(t);
    assert Packed(t, data) + [] == Packed(t, data);
    PackedHolds(t, data, []);
    FirstBeyondExif(|data|);
    ExifShare(|data|);
    SegmentBounded(t, data);
    PshopIsFound(Packed(t, data), t, LayoutFor(|data|), Raw(data), First(data), Second(data));
  }
}
