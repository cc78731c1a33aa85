/**
  The Bluesky layout end to end: for every nonempty ciphertext within the capacity,
  every cut into pushes and every cover, the reader returns the ciphertext.
 */
module BlueskyRoundTrip {
  import opened Results
  import opened Bytes
  import opened Base64
  import opened SignatureScan
  import opened BlueskySegments
  import opened BlueskyRecovery

  // ----- What the shipped templates provide -----

  /** The EXIF template's bytes behind the ciphertext. */
  function ExifTail(t: Templates): seq<Byte>
    requires |t.exif| == EXIF_BYTES
  {
    t.exif[EXIF_INSERT..]
  }

  /** The byte ends no match begun before it: it is not in the signature. */
  predicate Foreign(sig: seq<Byte>, b: Byte) {
    forall i :: 0 <= i < |sig| ==> sig[i] != b
  }

  /** The fixed bytes of the templates show neither signature where the reader must not find one. */
  ghost predicate Searchable(t: Templates) {
    && t.Valid()
    && t.exif[..4] == [0xFF, 0xD8, 0xFF, 0xE1]
    && t.xmp[..2] == [0xFF, 0xE1] && t.xmp[4..6] == [104, 116]
    && t.pshop[..2] == [0xFF, 0xED] && t.pshop[4..16] == [80, 104, 111, 116, 111, 115, 104, 111, 112, 32, 51, 46]
    && t.footer[..4] == [60, 47, 114, 100]
    && NoneWithin(ExifTail(t), PSHOP_SIG, 0, EXIF_BYTES - EXIF_INSERT)
    && NoneWithin(ExifTail(t), XMP_SIG, 0, EXIF_BYTES - EXIF_INSERT)
    && NoneWithin(t.xmp, PSHOP_SIG, 4, XMP_BYTES)
    && NoneWithin(t.footer, PSHOP_SIG, 0, FOOTER_BYTES)
    && (forall i :: XMP_BYTES - 6 <= i < XMP_BYTES ==> t.xmp[i] != PSHOP_SIG[0])
    && MatchesAt(t.xmp, XMP_SIG, 305) && NoneWithin(t.xmp, XMP_SIG, 4, 311)
  }

  /** What the searches use of the templates. */
  lemma TemplateFacts(t: Templates)
    requires Searchable(t)
    ensures |t.exif| == EXIF_BYTES && |t.xmp| == XMP_BYTES && |t.pshop| == PSHOP_BYTES && |t.footer| == FOOTER_BYTES
    ensures NoneWithin(ExifTail(t), PSHOP_SIG, 0, EXIF_BYTES - EXIF_INSERT)
    ensures NoneWithin(ExifTail(t), XMP_SIG, 0, EXIF_BYTES - EXIF_INSERT)
    ensures MatchesAt(t.xmp, XMP_SIG, 305) && NoneWithin(t.xmp, XMP_SIG, 4, 311)
    ensures t.pshop[4..16] == [80, 104, 111, 116, 111, 115, 104, 111, 112, 32, 51, 46]
    ensures NoneWithin(t.footer, PSHOP_SIG, 0, FOOTER_BYTES) && NoneWithin(t.xmp, PSHOP_SIG, 4, XMP_BYTES)
    ensures t.footer[..4] == [60, 47, 114, 100] && t.xmp[4..6] == [104, 116] && t.pshop[..2] == [0xFF, 0xED]
    ensures t.Valid() && t.footer[0] == DELIMITER
  {
    hide NoneWithin, MatchesAt;
    assert t.footer[0] == t.footer[..4][0];
  }

  // ----- Where there is no match -----

  /** One wrong byte refutes a match. */
  lemma ByteRefutes(file: seq<Byte>, sig: seq<Byte>, at: nat, k: nat)
    requires k < |sig| && at + k < |file| && file[at + k] != sig[k]
    ensures !MatchesAt(file, sig, at)
  {
    if at + |sig| <= |file| { assert file[at..at + |sig|][k] == file[at + k]; }
  }

  /** A foreign byte refutes every match across it. */
  lemma BarrierRefutes(file: seq<Byte>, sig: seq<Byte>, at: nat, barrier: nat)
    requires at <= barrier < at + |sig| && barrier < |file| && Foreign(sig, file[barrier])
    ensures !MatchesAt(file, sig, at)
  {
    ByteRefutes(file, sig, at, barrier - at);
  }

  /** A part of the file shows no match inside itself. */
  lemma PartHasNone(file: seq<Byte>, part: seq<Byte>, start: nat, sig: seq<Byte>, lo: nat, hi: nat, at: nat)
    requires start + |part| <= |file| && file[start..start + |part|] == part
    requires NoneWithin(part, sig, lo, hi) && hi <= |part|
    requires start + lo <= at && at + |sig| <= start + hi
    ensures !MatchesAt(file, sig, at)
  {
    WindowShows(file, start, start + |part|, sig, at);
    assert !MatchesAt(part, sig, at - start);
  }

  lemma SignaturesAreForeign()
    ensures Foreign(PSHOP_SIG, 0xFF) && Foreign(PSHOP_SIG, 0xE1) && Foreign(PSHOP_SIG, 0xED)
    ensures Foreign(XMP_SIG, 0xFF) && Foreign(XMP_SIG, 0xE1) && Foreign(XMP_SIG, 0xED)
    ensures |PSHOP_SIG| == 7 && |XMP_SIG| == 7
  {
  }

  // ----- The layout of the file -----

  /** The packed file by position: tail, XMP segment, Photoshop segment, each where it must be. */
  ghost predicate Laid(file: seq<Byte>, t: Templates, chunk: nat, x: seq<Byte>, p: seq<Byte>) {
    var at := EXIF_BYTES + chunk;
    && |t.exif| == EXIF_BYTES
    && at + |x| + |p| <= |file|
    && file[EXIF_INSERT + chunk..at] == ExifTail(t)
    && file[at..at + |x|] == x
    && file[at + |x|..at + |x| + |p|] == p
  }

  /** The part stands in the sequence from `at` on. */
  ghost predicate Stands(s: seq<Byte>, at: nat, part: seq<Byte>) {
    at + |part| <= |s| && s[at..at + |part|] == part
  }

  lemma StandsWithin(s: seq<Byte>, start: nat, p: seq<Byte>, at: nat, part: seq<Byte>)
    requires Stands(s, start, p) && Stands(p, at, part)
    ensures Stands(s, start + at, part)
  {
    SubSlice(s, start, start + |p|, at, |part|);
  }

  lemma StandsInFirst(a: seq<Byte>, b: seq<Byte>, at: nat, part: seq<Byte>)
    requires Stands(a, at, part)
    ensures Stands(a + b, at, part)
  {
    InFirst(a, b, at, |part|);
  }

  lemma StandsInSecond(a: seq<Byte>, b: seq<Byte>, at: nat, part: seq<Byte>)
    requires Stands(b, at, part)
    ensures Stands(a + b, |a| + at, part)
  {
    InSecond(a, b, at, |part|);
  }

  lemma StandsAlone(part: seq<Byte>)
    ensures Stands(part, 0, part)
  {
  }

  /** A byte of a laid part. */
  lemma LaidByte(file: seq<Byte>, start: nat, part: seq<Byte>, i: nat)
    requires start + |part| <= |file| && file[start..start + |part|] == part && i < |part|
    ensures file[start + i] == part[i]
  {
    assert file[start..start + |part|][i] == file[start + i];
  }

  lemma NoneInTail(file: seq<Byte>, t: Templates, chunk: nat, sig: seq<Byte>, at: nat)
    requires |t.exif| == EXIF_BYTES && EXIF_BYTES + chunk < |file|
    requires file[EXIF_INSERT + chunk..EXIF_BYTES + chunk] == ExifTail(t)
    requires |sig| == 7 && Foreign(sig, 0xFF) && NoneWithin(ExifTail(t), sig, 0, EXIF_BYTES - EXIF_INSERT)
    requires file[EXIF_BYTES + chunk] == 0xFF && EXIF_INSERT + chunk <= at < EXIF_BYTES + chunk
    ensures !MatchesAt(file, sig, at)
  {
    hide MatchesAt, NoneWithin;
    if at + 7 <= EXIF_BYTES + chunk {
      PartHasNone(file, ExifTail(t), EXIF_INSERT + chunk, sig, 0, EXIF_BYTES - EXIF_INSERT, at);
    } else {
      BarrierRefutes(file, sig, at, EXIF_BYTES + chunk);
    }
  }

  /** The fixed bytes in the middle of the XMP segment, sizes apart. */
  lemma XmpParts(t: Templates, raw: seq<Byte>)
    requires Searchable(t)
    ensures var x, b := XmpSegment(t, raw), XMP_BYTES + |Encode(raw)|;
      && |x| == b + FOOTER_BYTES
      && x[..2] == [0xFF, 0xE1] && x[4..XMP_BYTES] == t.xmp[4..]
      && x[XMP_BYTES..b] == Encode(raw) && x[b..] == t.footer
  {
    hide BigEndian, Encode;
    var body := t.xmp + Encode(raw) + t.footer;
    var field := BigEndian(|body| - 2, 2);
    WithFieldElsewhere(body, SEGMENT_SIZE_INDEX, field, 0, 2);
    WithFieldElsewhere(body, SEGMENT_SIZE_INDEX, field, 4, XMP_BYTES - 4);
    WithFieldElsewhere(body, SEGMENT_SIZE_INDEX, field, XMP_BYTES, |Encode(raw)|);
    WithFieldElsewhere(body, SEGMENT_SIZE_INDEX, field, XMP_BYTES + |Encode(raw)|, FOOTER_BYTES);
    hide WithField;
    var x := XmpSegment(t, raw);
    assert x[..2] == x[0..2] == body[0..2] == t.xmp[..2];
    assert body[4..XMP_BYTES] == t.xmp[4..];
    assert x[XMP_BYTES + |Encode(raw)|..] == x[XMP_BYTES + |Encode(raw)|..XMP_BYTES + |Encode(raw)| + FOOTER_BYTES];
  }

  lemma XmpOpening(t: Templates, raw: seq<Byte>)
    requires Searchable(t)
    ensures var x := XmpSegment(t, raw);
      |x| >= XMP_BYTES && x[..2] == [0xFF, 0xE1] && x[0] == 0xFF && x[4] == 104 && x[5] == 116
  {
    hide Searchable, XmpSegment, MatchesAt, NoneWithin, Templates.Valid;
    TemplateFacts(t);
    XmpParts(t, raw);
    var x := XmpSegment(t, raw);
    assert x[0] == x[..2][0];
    assert x[4] == x[4..XMP_BYTES][0] == t.xmp[4..6][0] && x[5] == x[4..XMP_BYTES][1] == t.xmp[4..6][1];
  }

  /** Neither signature begins in the first four bytes of an XMP segment, whatever its size field holds. */
  lemma NoneInXmpStart(file: seq<Byte>, start: nat, x: seq<Byte>, sig: seq<Byte>, at: nat)
    requires |x| >= 6 && start + |x| <= |file| && file[start..start + |x|] == x
    requires x[..2] == [0xFF, 0xE1] && x[4] == 104 && x[5] == 116
    requires |sig| == 7 && Foreign(sig, 0xFF) && Foreign(sig, 0xE1)
    requires sig[2] != 104 && !(sig[1] == 104 && sig[2] == 116)
    requires start <= at < start + 4
    ensures !MatchesAt(file, sig, at)
  {
    hide MatchesAt;
    assert x[0] == x[..2][0] && x[1] == x[..2][1];
    LaidByte(file, start, x, 0);
    LaidByte(file, start, x, 1);
    LaidByte(file, start, x, 4);
    LaidByte(file, start, x, 5);
    if at <= start + 1 {
      BarrierRefutes(file, sig, at, at);
    } else if at == start + 2 {
      ByteRefutes(file, sig, at, 2);
    } else if sig[1] != 104 {
      ByteRefutes(file, sig, at, 1);
    } else {
      ByteRefutes(file, sig, at, 2);
    }
  }

  /** The Photoshop signature does not occur in an XMP segment, whatever it carries. */
  lemma NoPshopInXmp(file: seq<Byte>, t: Templates, start: nat, raw: seq<Byte>, at: nat)
    requires Searchable(t)
    requires var x := XmpSegment(t, raw);
      && start + |x| < |file| && file[start..start + |x|] == x && file[start + |x|] == 0xFF
      && start <= at < start + |x|
    ensures !MatchesAt(file, PSHOP_SIG, at)
  {
    hide Searchable, MatchesAt, NoneWithin, XmpSegment, Foreign, Encode;
    TemplateFacts(t);
    XmpOpening(t, raw);
    SignaturesAreForeign();
    var x, b, i := XmpSegment(t, raw), XMP_BYTES + |Encode(raw)|, at - start;
    if i < 4 {
      NoneInXmpStart(file, start, x, PSHOP_SIG, at);
    } else if i < XMP_BYTES {
      XmpTemplateLaid(file, t, start, raw);
      TemplateRefutes(file, t, start, at);
    } else if i < b {
      NoPshopInText(file, t, start, raw, at);
    } else if i + 7 <= |x| {
      NoPshopInFooter(file, t, start, raw, at);
    } else {
      BarrierRefutes(file, PSHOP_SIG, at, start + |x|);
    }
  }

  lemma NoPshopInFooter(file: seq<Byte>, t: Templates, start: nat, raw: seq<Byte>, at: nat)
    requires Searchable(t)
    requires var x := XmpSegment(t, raw); start + |x| <= |file| && file[start..start + |x|] == x
    requires start + XMP_BYTES + |Encode(raw)| <= at && at + 7 <= start + |XmpSegment(t, raw)|
    ensures !MatchesAt(file, PSHOP_SIG, at)
  {
    hide Searchable, MatchesAt, XmpSegment, Encode, NoneWithin, Templates.Valid;
    TemplateFacts(t);
    XmpParts(t, raw);
    var x, b := XmpSegment(t, raw), XMP_BYTES + |Encode(raw)|;
    SubSlice(file, start, start + |x|, b, FOOTER_BYTES);
    assert x[b..b + FOOTER_BYTES] == x[b..];
    PartHasNone(file, t.footer, start + b, PSHOP_SIG, 0, FOOTER_BYTES, at);
  }

  /** The template's bytes stand in the segment, size field apart. */
  lemma XmpTemplateLaid(file: seq<Byte>, t: Templates, start: nat, raw: seq<Byte>)
    requires Searchable(t)
    requires var x := XmpSegment(t, raw); start + |x| <= |file| && file[start..start + |x|] == x
    ensures start + XMP_BYTES <= |file| && file[start + 4..start + XMP_BYTES] == t.xmp[4..]
  {
    hide Searchable, XmpSegment, Encode, MatchesAt, NoneWithin, Templates.Valid;
    TemplateFacts(t);
    XmpParts(t, raw);
    SubSlice(file, start, start + |XmpSegment(t, raw)|, 4, XMP_BYTES - 4);
  }

  /** Windows inside the template show what the template shows. */
  lemma TemplateShows(file: seq<Byte>, t: Templates, start: nat, sig: seq<Byte>, at: nat)
    requires |t.xmp| == XMP_BYTES && start + XMP_BYTES <= |file| && file[start + 4..start + XMP_BYTES] == t.xmp[4..]
    requires start + 4 <= at && at + |sig| <= start + XMP_BYTES
    ensures MatchesAt(file, sig, at) <==> MatchesAt(t.xmp, sig, at - start)
  {
    SubSlice(file, start + 4, start + XMP_BYTES, at - start - 4, |sig|);
    SubSlice(t.xmp, 4, XMP_BYTES, at - start - 4, |sig|);
    assert t.xmp[4..XMP_BYTES] == t.xmp[4..];
  }

  lemma TemplateRefutes(file: seq<Byte>, t: Templates, start: nat, at: nat)
    requires Searchable(t) && start + XMP_BYTES <= |file| && file[start + 4..start + XMP_BYTES] == t.xmp[4..]
    requires start + 4 <= at < start + XMP_BYTES
    ensures !MatchesAt(file, PSHOP_SIG, at)
  {
    hide MatchesAt;
    if at + 7 <= start + XMP_BYTES {
      TemplateShows(file, t, start, PSHOP_SIG, at);
      assert !MatchesAt(t.xmp, PSHOP_SIG, at - start);
    } else {
      LaidByte(file, start + 4, t.xmp[4..], at - start - 4);
      assert t.xmp[4..][at - start - 4] == t.xmp[at - start];
      ByteRefutes(file, PSHOP_SIG, at, 0);
    }
  }

  lemma SegmentHasText(t: Templates, raw: seq<Byte>, i: nat)
    requires Searchable(t)
    requires XMP_BYTES <= i < XMP_BYTES + |Encode(raw)| + 4
    ensures var x := XmpSegment(t, raw); i < |x| && x[i] != 32
  {
    hide Searchable, XmpSegment, Encode, NoneWithin, MatchesAt, Templates.Valid;
    TemplateFacts(t);
    XmpParts(t, raw);
    var x, b := XmpSegment(t, raw), XMP_BYTES + |Encode(raw)|;
    if i < b {
      assert x[i] == x[XMP_BYTES..b][i - XMP_BYTES];
      EncodeHasNoSpecials(raw, i - XMP_BYTES);
    } else {
      assert x[i] == x[b..][i - b] == t.footer[..4][i - b];
    }
  }

  /** Base64 text holds no space, and the footer does not begin with one. */
  lemma NoPshopInText(file: seq<Byte>, t: Templates, start: nat, raw: seq<Byte>, at: nat)
    requires Searchable(t) && |t.xmp| == XMP_BYTES
    requires var x, b := XmpSegment(t, raw), XMP_BYTES + |Encode(raw)|;
      start + |x| <= |file| && file[start..start + |x|] == x && start + XMP_BYTES <= at < start + b
    ensures !MatchesAt(file, PSHOP_SIG, at)
  {
    hide MatchesAt, XmpSegment, Encode, Searchable;
    SegmentHasText(t, raw, at + 4 - start);
    LaidByte(file, start, XmpSegment(t, raw), at + 4 - start);
    ByteRefutes(file, PSHOP_SIG, at, 4);
  }

  // ----- Where the matches are -----

  lemma InFirst(a: seq<Byte>, b: seq<Byte>, at: nat, n: nat)
    requires at + n <= |a|
    ensures (a + b)[at..at + n] == a[at..at + n]
  {
  }

  lemma InSecond(a: seq<Byte>, b: seq<Byte>, at: nat, n: nat)
    requires at + n <= |b|
    ensures (a + b)[|a| + at..|a| + at + n] == b[at..at + n]
  {
  }

  /** The body of a Photoshop segment: the template with the first dataset's size, that dataset, and the rest. */
  lemma BodyIs(t: Templates, first: seq<Byte>, second: seq<Byte>) returns (sized: seq<Byte>, rest: seq<Byte>)
    requires |t.pshop| == PSHOP_BYTES
    ensures |sized| == PSHOP_BYTES && Stands(sized, 33, BigEndian(|first|, 2))
    ensures sized[0..2] == t.pshop[0..2] && sized[4..16] == t.pshop[4..16]
    ensures PshopBody(t, first, second) == (sized + first) + rest
    ensures rest == if second == [] then [] else Marker(|second|) + second
  {
    hide BigEndian, Marker, WithField;
    var size := BigEndian(|first|, 2);
    sized := WithField(t.pshop, FIRST_SIZE_INDEX, size);
    rest := if second == [] then [] else Marker(|second|) + second;
    WithFieldElsewhere(t.pshop, FIRST_SIZE_INDEX, size, 0, 2);
    WithFieldElsewhere(t.pshop, FIRST_SIZE_INDEX, size, 4, 12);
  }

  /** The template's opening stands in the body, sizes apart. */
  lemma BodyFront(t: Templates, first: seq<Byte>, second: seq<Byte>)
    requires |t.pshop| == PSHOP_BYTES
    ensures var b := PshopBody(t, first, second); b[0..2] == t.pshop[0..2] && b[4..16] == t.pshop[4..16]
  {
    hide PshopBody, BigEndian, Marker, Stands;
    var sized, rest := BodyIs(t, first, second);
    InFirst(sized, first, 0, 2);
    InFirst(sized, first, 4, 12);
    InFirst(sized + first, rest, 0, 2);
    InFirst(sized + first, rest, 4, 12);
  }

  lemma BodyHasFirst(t: Templates, first: seq<Byte>, second: seq<Byte>)
    requires |t.pshop| == PSHOP_BYTES
    ensures Stands(PshopBody(t, first, second), 33, BigEndian(|first|, 2)) && Stands(PshopBody(t, first, second), 35, first)
  {
    hide PshopBody, BigEndian, Marker, Stands;
    var sized, rest := BodyIs(t, first, second);
    StandsInFirst(sized, first, 33, BigEndian(|first|, 2));
    StandsInFirst(sized + first, rest, 33, BigEndian(|first|, 2));
    StandsAlone(first);
    StandsInSecond(sized, first, 0, first);
    StandsInFirst(sized + first, rest, 35, first);
  }

  lemma BodyHasSecond(t: Templates, first: seq<Byte>, second: seq<Byte>)
    requires |t.pshop| == PSHOP_BYTES && second != []
    ensures Stands(PshopBody(t, first, second), 40 + |first|, second)
  {
    hide PshopBody, BigEndian, Marker, Stands;
    StandsAlone(second);
    StandsInSecond(Marker(|second|), second, 0, second);
    BodyHasRest(t, first, second, 5, second);
  }

  lemma BodyHasSecondSize(t: Templates, first: seq<Byte>, second: seq<Byte>)
    requires |t.pshop| == PSHOP_BYTES && second != []
    ensures Stands(PshopBody(t, first, second), 38 + |first|, BigEndian(|second|, 2))
  {
    hide PshopBody, BigEndian, Marker, Stands;
    MarkerField(|second|);
    StandsInFirst(Marker(|second|), second, 3, BigEndian(|second|, 2));
    BodyHasRest(t, first, second, 3, BigEndian(|second|, 2));
  }

  lemma BodyHasRest(t: Templates, first: seq<Byte>, second: seq<Byte>, at: nat, part: seq<Byte>)
    requires |t.pshop| == PSHOP_BYTES && second != [] && Stands(Marker(|second|) + second, at, part)
    ensures Stands(PshopBody(t, first, second), 35 + |first| + at, part)
  {
    hide PshopBody, BigEndian, Marker, Stands;
    var sized, rest := BodyIs(t, first, second);
    StandsInSecond(sized + first, rest, at, part);
  }

  lemma MarkerField(size: nat)
    ensures Stands(Marker(size), 3, BigEndian(size, 2))
  {
    hide BigEndian;
  }

  /** The Photoshop segment's opening: its fixed bytes, the size apart. */
  lemma PshopOpening(t: Templates, first: seq<Byte>, second: seq<Byte>)
    requires |t.pshop| == PSHOP_BYTES && t.pshop[..2] == [0xFF, 0xED] && first != []
    ensures var p := PshopSegment(t, first, second); p[..2] == [0xFF, 0xED] && p[4..16] == t.pshop[4..16]
  {
    hide BigEndian, PshopBody, PshopSegment;
    BodyFront(t, first, second);
    SegmentKeeps(t, first, second, 0, 2);
    SegmentKeeps(t, first, second, 4, 12);
    var p := PshopSegment(t, first, second);
    assert p[..2] == p[0..2] && t.pshop[0..2] == t.pshop[..2];
  }

  /** The Photoshop segment's size, and its two datasets with theirs. */
  lemma PshopParts(t: Templates, first: seq<Byte>, second: seq<Byte>)
    requires |t.pshop| == PSHOP_BYTES && first != []
    ensures var p, n := PshopSegment(t, first, second), |first|;
      && Stands(p, 2, BigEndian(|p| - 2, 2))
      && Stands(p, 33, BigEndian(n, 2)) && Stands(p, 35, first)
      && (second != [] ==> Stands(p, 38 + n, BigEndian(|second|, 2)) && Stands(p, 40 + n, second))
  {
    hide BigEndian, PshopBody, PshopSegment, Stands;
    SegmentSize(t, first, second);
    BodyHasFirst(t, first, second);
    SegmentHas(t, first, second, 33, BigEndian(|first|, 2));
    SegmentHas(t, first, second, 35, first);
    if second != [] {
      BodyHasSecondSize(t, first, second);
      BodyHasSecond(t, first, second);
      SegmentHas(t, first, second, 38 + |first|, BigEndian(|second|, 2));
      SegmentHas(t, first, second, 40 + |first|, second);
    }
  }

  lemma SegmentHas(t: Templates, first: seq<Byte>, second: seq<Byte>, at: nat, part: seq<Byte>)
    requires |t.pshop| == PSHOP_BYTES && first != [] && at >= 30 && Stands(PshopBody(t, first, second), at, part)
    ensures Stands(PshopSegment(t, first, second), at, part)
  {
    hide PshopBody, PshopSegment;
    SegmentKeeps(t, first, second, at, |part|);
  }

  /** Writing the two segment sizes leaves everything else of a Photoshop body alone. */
  lemma SegmentKeeps(t: Templates, first: seq<Byte>, second: seq<Byte>, at: nat, n: nat)
    requires |t.pshop| == PSHOP_BYTES && first != [] && at + n <= |PshopBody(t, first, second)|
    requires at + n <= 2 || (4 <= at && at + n <= 28) || at >= 30
    ensures PshopSegment(t, first, second)[at..at + n] == PshopBody(t, first, second)[at..at + n]
  {
    hide BigEndian, PshopBody, WithField;
    var body := PshopBody(t, first, second);
    Untouched(body, BigEndian(|body| - 2, 2), BigEndian(|body| - 2 - BIM_SIZE_DIFF, 2), at, n);
  }

  lemma SegmentSize(t: Templates, first: seq<Byte>, second: seq<Byte>)
    requires |t.pshop| == PSHOP_BYTES && first != []
    ensures var p := PshopSegment(t, first, second); Stands(p, 2, BigEndian(|p| - 2, 2))
  {
    hide BigEndian, PshopBody, WithField;
    var body := PshopBody(t, first, second);
    var size := BigEndian(|body| - 2, 2);
    WithFieldElsewhere(WithField(body, SEGMENT_SIZE_INDEX, size), BIM_SIZE_INDEX, BigEndian(|body| - 2 - BIM_SIZE_DIFF, 2), 2, 2);
  }

  lemma Untouched(body: seq<Byte>, size: seq<Byte>, bim: seq<Byte>, at: nat, n: nat)
    requires |size| == 2 && |bim| == 2 && |body| >= PSHOP_BYTES && at + n <= |body|
    requires at + n <= 2 || (4 <= at && at + n <= 28) || at >= 30
    ensures WithField(WithField(body, SEGMENT_SIZE_INDEX, size), BIM_SIZE_INDEX, bim)[at..at + n] == body[at..at + n]
  {
    WithFieldElsewhere(body, SEGMENT_SIZE_INDEX, size, at, n);
    WithFieldElsewhere(WithField(body, SEGMENT_SIZE_INDEX, size), BIM_SIZE_INDEX, bim, at, n);
  }

  /** In a Photoshop segment the signature begins at its ninth byte and not before. */
  lemma PshopSignatureAt(file: seq<Byte>, start: nat, p: seq<Byte>)
    requires |p| >= 16 && start + |p| <= |file| && file[start..start + |p|] == p
    requires p[..2] == [0xFF, 0xED] && p[4..16] == [80, 104, 111, 116, 111, 115, 104, 111, 112, 32, 51, 46]
    ensures MatchesAt(file, PSHOP_SIG, start + 9)
    ensures forall at :: start <= at < start + 9 ==> !MatchesAt(file, PSHOP_SIG, at)
  {
    SubSlice(file, start, start + |p|, 9, 7);
    SubSlice(p, 4, 16, 5, 7);
    assert p[9..16] == p[4..16][5..12] == PSHOP_SIG;
    hide MatchesAt;
    assert MatchesAt(file, PSHOP_SIG, start + 9) by { SignatureStands(file, start + 9); }
    forall at | start <= at < start + 9 ensures !MatchesAt(file, PSHOP_SIG, at) {
      BeforeSignature(file, start, p, at);
    }
  }

  lemma SignatureStands(file: seq<Byte>, at: nat)
    requires at + 7 <= |file| && file[at..at + 7] == PSHOP_SIG
    ensures MatchesAt(file, PSHOP_SIG, at)
  {
  }

  lemma BeforeSignature(file: seq<Byte>, start: nat, p: seq<Byte>, at: nat)
    requires |p| >= 16 && start + |p| <= |file| && file[start..start + |p|] == p
    requires p[..2] == [0xFF, 0xED] && p[4..16] == [80, 104, 111, 116, 111, 115, 104, 111, 112, 32, 51, 46]
    requires start <= at < start + 9
    ensures !MatchesAt(file, PSHOP_SIG, at)
  {
    hide MatchesAt;
    var i := at - start;
    var k := if i < 2 then i else if i < 4 then 4 else i;
    LaidByte(file, start, p, k);
    if k < 2 {
      assert p[k] == p[..2][k] == [0xFF, 0xED][k];
      OpeningClash(k);
    } else {
      assert p[k] == p[4..16][k - 4] == [80, 104, 111, 116, 111, 115, 104, 111, 112, 32, 51, 46][k - 4];
      NameClash(k, k - i);
    }
    ByteRefutes(file, PSHOP_SIG, at, k - i);
  }

  lemma OpeningClash(k: nat)
    requires k < 2
    ensures [0xFF, 0xED][k] != PSHOP_SIG[0]
  {
  }

  lemma NameClash(k: nat, d: nat)
    requires 4 <= k < 9 && (d == 0 || (k == 4 && d <= 2))
    ensures [80, 104, 111, 116, 111, 115, 104, 111, 112, 32, 51, 46][k - 4] != PSHOP_SIG[d]
  {
  }

  // ----- The searches find them -----

  /** The XMP segment, if there is one. */
  function XmpPart(t: Templates, l: Layout, raw: seq<Byte>): seq<Byte>
    requires |t.xmp| == XMP_BYTES
  {
    if l.xmp > 0 then XmpSegment(t, raw) else []
  }

  lemma PartIsSegment(t: Templates, l: Layout, raw: seq<Byte>)
    requires |t.xmp| == XMP_BYTES
    ensures XmpPart(t, l, raw) == if l.xmp > 0 then XmpSegment(t, raw) else []
  {
    hide XmpSegment;
  }

  lemma LaidParts(file: seq<Byte>, t: Templates, chunk: nat, x: seq<Byte>, p: seq<Byte>)
    requires Laid(file, t, chunk, x, p)
    ensures var at := EXIF_BYTES + chunk;
      && |t.exif| == EXIF_BYTES && at + |x| + |p| <= |file|
      && file[EXIF_INSERT + chunk..at] == ExifTail(t)
      && file[at..at + |x|] == x && file[at + |x|..at + |x| + |p|] == p
  {
  }

  /** What follows the tail begins with 0xFF. */
  lemma NextByte(t: Templates, l: Layout, raw: seq<Byte>, first: seq<Byte>, second: seq<Byte>)
    requires Searchable(t) && first != []
    ensures var x, p := XmpPart(t, l, raw), PshopSegment(t, first, second);
      && p[0] == 0xFF && (x != [] ==> x[0] == 0xFF)
  {
    hide Searchable, PshopSegment, XmpSegment, Encode, NoneWithin, MatchesAt, Templates.Valid;
    TemplateFacts(t);
    PshopOpening(t, first, second);
    XmpOpening(t, raw);
    var p := PshopSegment(t, first, second);
    assert p[0] == p[..2][0];
  }

  /** Between the tail's start and the Photoshop segment, the file holds no Photoshop signature. */
  lemma NotBeforePshop(file: seq<Byte>, t: Templates, l: Layout, raw: seq<Byte>, p: seq<Byte>, at: nat)
    requires Searchable(t) && p != [] && p[0] == 0xFF && Laid(file, t, l.exif, XmpPart(t, l, raw), p)
    requires XmpPart(t, l, raw) != [] ==> XmpPart(t, l, raw)[0] == 0xFF
    requires EXIF_INSERT + l.exif <= at < EXIF_BYTES + l.exif + |XmpPart(t, l, raw)|
    ensures !MatchesAt(file, PSHOP_SIG, at)
  {
    hide Searchable, XmpSegment, MatchesAt, Laid, XmpPart, ExifTail, Encode, NoneWithin, Templates.Valid;
    TemplateFacts(t);
    if at < EXIF_BYTES + l.exif {
      NotInTail(file, t, l.exif, XmpPart(t, l, raw), p, at);
    } else {
      NotInXmpPart(file, t, l, raw, p, at);
    }
  }

  lemma NotInTail(file: seq<Byte>, t: Templates, chunk: nat, x: seq<Byte>, p: seq<Byte>, at: nat)
    requires Searchable(t) && p != [] && p[0] == 0xFF && Laid(file, t, chunk, x, p) && (x != [] ==> x[0] == 0xFF)
    requires EXIF_INSERT + chunk <= at < EXIF_BYTES + chunk
    ensures !MatchesAt(file, PSHOP_SIG, at)
  {
    hide Searchable, MatchesAt, NoneWithin, Foreign, Laid, ExifTail, Templates.Valid, PSHOP_SIG;
    TemplateFacts(t);
    SignaturesAreForeign();
    var from := EXIF_BYTES + chunk;
    LaidParts(file, t, chunk, x, p);
    if x != [] { LaidByte(file, from, x, 0); } else { LaidByte(file, from, p, 0); }
    NoneInTail(file, t, chunk, PSHOP_SIG, at);
  }

  lemma NotInXmpPart(file: seq<Byte>, t: Templates, l: Layout, raw: seq<Byte>, p: seq<Byte>, at: nat)
    requires Searchable(t) && |t.xmp| == XMP_BYTES && p != [] && p[0] == 0xFF && Laid(file, t, l.exif, XmpPart(t, l, raw), p)
    requires EXIF_BYTES + l.exif <= at < EXIF_BYTES + l.exif + |XmpPart(t, l, raw)|
    ensures !MatchesAt(file, PSHOP_SIG, at)
  {
    hide Searchable, XmpSegment, MatchesAt, Laid, XmpPart, ExifTail, PSHOP_SIG, Encode;
    var x, from := XmpPart(t, l, raw), EXIF_BYTES + l.exif;
    LaidParts(file, t, l.exif, x, p);
    PartIsSegment(t, l, raw);
    LaidByte(file, from + |x|, p, 0);
    NoPshopInXmp(file, t, from, raw, at);
  }

  /** The reader finds the Photoshop signature where the writer put it. */
  lemma PshopIsFound(file: seq<Byte>, t: Templates, l: Layout, raw: seq<Byte>, first: seq<Byte>, second: seq<Byte>)
    requires Searchable(t) && first != [] && |XmpPart(t, l, raw)| <= XMP_SEGMENT_LIMIT
    requires Laid(file, t, l.exif, XmpPart(t, l, raw), PshopSegment(t, first, second))
    ensures PshopSignature(file, l.exif) == Some(EXIF_BYTES + l.exif + |XmpPart(t, l, raw)| + 9)
  {
    hide Searchable, XmpSegment, PshopSegment, MatchesAt, Foreign, BigEndian, FirstMatch, XmpPart;
    TemplateFacts(t);
    NextByte(t, l, raw, first, second);
    PshopOpening(t, first, second);
    var x, p := XmpPart(t, l, raw), PshopSegment(t, first, second);
    var start, at := EXIF_INSERT + l.exif, EXIF_BYTES + l.exif + |x|;
    PshopSignatureAt(file, at, p);
    forall i: nat | start <= i < at ensures !MatchesAt(file, PSHOP_SIG, i) {
      NotBeforePshop(file, t, l, raw, p, i);
    }
    SignaturesAreForeign();
    NoneBefore(file, PSHOP_SIG, start, at + 9);
    FirstMatchIs(file, PSHOP_SIG, start, Min(|file|, start + SEARCH_WINDOW), at + 9);
    SubSlice(file, at, at + |p|, 0, 2);
    assert p[0..2] == p[..2];
  }

  lemma NoneBefore(file: seq<Byte>, sig: seq<Byte>, from: nat, at: nat)
    requires |sig| == 7
    requires forall i: nat :: from <= i < at ==> !MatchesAt(file, sig, i)
    ensures NoneWithin(file, sig, from, at + |sig| - 1)
  {
    hide MatchesAt;
  }

  /** Between the tail's start and the creator tag, the file holds no creator tag. */
  lemma NotBeforeTag(file: seq<Byte>, t: Templates, chunk: nat, raw: seq<Byte>, at: nat)
    requires Searchable(t)
    requires var x := XmpSegment(t, raw);
      EXIF_BYTES + chunk + |x| <= |file| && file[EXIF_BYTES + chunk..EXIF_BYTES + chunk + |x|] == x
    requires file[EXIF_INSERT + chunk..EXIF_BYTES + chunk] == ExifTail(t)
    requires EXIF_INSERT + chunk <= at < EXIF_BYTES + chunk + 305
    ensures !MatchesAt(file, XMP_SIG, at)
  {
    hide Searchable, XmpSegment, MatchesAt, Foreign;
    TemplateFacts(t);
    XmpOpening(t, raw);
    SignaturesAreForeign();
    var x, from := XmpSegment(t, raw), EXIF_BYTES + chunk;
    LaidByte(file, from, x, 0);
    if at < from {
      NoneInTail(file, t, chunk, XMP_SIG, at);
    } else if at < from + 4 {
      NoneInXmpStart(file, from, x, XMP_SIG, at);
    } else {
      XmpTemplateLaid(file, t, from, raw);
      TemplateShows(file, t, from, XMP_SIG, at);
    }
  }

  /** The reader finds the creator tag where the template has it. */
  lemma XmpTagIsFound(file: seq<Byte>, t: Templates, chunk: nat, raw: seq<Byte>, end: nat)
    requires Searchable(t) && EXIF_BYTES + chunk + |XmpSegment(t, raw)| <= end <= |file|
    requires file[EXIF_BYTES + chunk..EXIF_BYTES + chunk + |XmpSegment(t, raw)|] == XmpSegment(t, raw)
    requires file[EXIF_INSERT + chunk..EXIF_BYTES + chunk] == ExifTail(t)
    ensures FirstMatch(file, XMP_SIG, EXIF_INSERT + chunk, end) == Some(EXIF_BYTES + chunk + 305)
  {
    hide Searchable, XmpSegment, MatchesAt, Foreign, FirstMatch, NoneWithin, ExifTail, Templates.Valid, Encode, XMP_SIG;
    TemplateFacts(t);
    XmpOpening(t, raw);
    var start, from := EXIF_INSERT + chunk, EXIF_BYTES + chunk;
    forall i: nat | start <= i < from + 305 ensures !MatchesAt(file, XMP_SIG, i) {
      NotBeforeTag(file, t, chunk, raw, i);
    }
    SignaturesAreForeign();
    NoneBefore(file, XMP_SIG, start, from + 305);
    XmpTemplateLaid(file, t, from, raw);
    TemplateShows(file, t, from, XMP_SIG, from + 305);
    FirstMatchIs(file, XMP_SIG, start, end, from + 305);
  }

  // ----- The packed file by position -----

  function First(data: seq<Byte>): seq<Byte> {
    Part(data, LayoutFor(|data|).exif, LayoutFor(|data|).first)
  }

  function Second(data: seq<Byte>): seq<Byte> {
    Part(data, SecondStart(LayoutFor(|data|)), LayoutFor(|data|).second)
  }

  function Raw(data: seq<Byte>): seq<Byte> {
    Part(data, XmpStart(LayoutFor(|data|)), LayoutFor(|data|).xmp)
  }

  /** The parts are the ciphertext cut up, each as long as the layout says. */
  lemma PartsRejoin(data: seq<Byte>)
    ensures var l := LayoutFor(|data|);
      && |First(data)| == l.first && |Second(data)| == l.second && |Raw(data)| == l.xmp
      && data[..l.exif] + First(data) + Second(data) + Raw(data) == data
      && Part(data, 0, l.exif) == data[..l.exif]
  {
    hide LayoutFor, Part;
    var l := LayoutFor(|data|);
    LayoutAddsUp(|data|);
    PartIs(data, 0, l.exif);
    PartIs(data, l.exif, l.first);
    PartIs(data, l.exif + l.first, l.second);
    PartIs(data, l.exif + l.first + l.second, l.xmp);
    CutInFour(data, l.exif, l.exif + l.first, l.exif + l.first + l.second);
  }

  lemma LayoutAddsUp(size: nat)
    ensures var l := LayoutFor(size); l.exif + l.first + l.second + l.xmp == size
  {
  }

  lemma PartIs(data: seq<Byte>, from: nat, size: nat)
    requires from + size <= |data|
    ensures Part(data, from, size) == data[from..from + size]
  {
  }

  lemma CutInFour(data: seq<Byte>, a: nat, b: nat, c: nat)
    requires a <= b <= c <= |data|
    ensures data[..a] + data[a..b] + data[b..c] + data[c..|data|] == data
    ensures data[0..a] == data[..a]
  {
    assert data[..a] + data[a..b] == data[..b];
    assert data[..b] + data[b..c] == data[..c];
    assert data[..c] + data[c..|data|] == data;
  }

  /** The EXIF head keeps the template's opening and tail, and states the segment's size. */
  lemma HeadParts(t: Templates, size: nat)
    requires Searchable(t)
    ensures var e := ExifHead(t, size);
      && e[0..4] == [0xFF, 0xD8, 0xFF, 0xE1] && e[4..6] == BigEndian(Min(size, EXIF_LIMIT) + 507, 2)
      && e[EXIF_INSERT..] == ExifTail(t)
  {
    hide BigEndian, NoneWithin, MatchesAt, WithField;
    var data := Min(size, EXIF_LIMIT) + (EXIF_BYTES - 4);
    var total, artist, field := BigEndian(size, 4), BigEndian(data - ARTIST_SIZE_DIFF, 4), BigEndian(data, 2);
    var one := WithField(t.exif, CIPHER_SIZE_INDEX, total);
    var two := WithField(one, ARTIST_SIZE_INDEX, artist);
    var e := WithField(two, EXIF_SIZE_INDEX, field);
    WithFieldElsewhere(t.exif, CIPHER_SIZE_INDEX, total, 0, 4);
    WithFieldElsewhere(one, ARTIST_SIZE_INDEX, artist, 0, 4);
    WithFieldElsewhere(two, EXIF_SIZE_INDEX, field, 0, 4);
    WithFieldElsewhere(t.exif, CIPHER_SIZE_INDEX, total, EXIF_INSERT, 46);
    WithFieldElsewhere(one, ARTIST_SIZE_INDEX, artist, EXIF_INSERT, 46);
    WithFieldElsewhere(two, EXIF_SIZE_INDEX, field, EXIF_INSERT, 46);
    assert e[EXIF_INSERT..] == e[EXIF_INSERT..EXIF_INSERT + 46] && t.exif[EXIF_INSERT..EXIF_INSERT + 46] == ExifTail(t);
    assert t.exif[0..4] == t.exif[..4];
  }

  /** The file by position. */
  ghost predicate Holds(file: seq<Byte>, t: Templates, data: seq<Byte>)
    requires |t.exif| == EXIF_BYTES && |t.xmp| == XMP_BYTES && |t.pshop| == PSHOP_BYTES
  {
    var l := LayoutFor(|data|);
    && EXIF_BYTES + l.exif <= |file|
    && file[0..4] == [0xFF, 0xD8, 0xFF, 0xE1]
    && file[4..6] == BigEndian(l.exif + 507, 2)
    && file[EXIF_INSERT..EXIF_INSERT + l.exif] == data[..l.exif]
    && (l.first > 0 ==> First(data) != []
                        && Laid(file, t, l.exif, XmpPart(t, l, Raw(data)), PshopSegment(t, First(data), Second(data))))
  }

  /** Four pieces laid one after another, then anything. */
  lemma Concatenated(head: seq<Byte>, exif: seq<Byte>, x: seq<Byte>, p: seq<Byte>, cover: seq<Byte>)
    requires |head| == EXIF_BYTES
    ensures var file := head[..EXIF_INSERT] + exif + head[EXIF_INSERT..] + x + p + cover;
      var at := EXIF_BYTES + |exif|;
      && at + |x| + |p| <= |file|
      && file[0..4] == head[0..4] && file[4..6] == head[4..6]
      && file[EXIF_INSERT..EXIF_INSERT + |exif|] == exif && file[EXIF_INSERT + |exif|..at] == head[EXIF_INSERT..]
      && file[at..at + |x|] == x && file[at + |x|..at + |x| + |p|] == p
  {
    var file := head[..EXIF_INSERT] + exif + head[EXIF_INSERT..] + x + p + cover;
    var at := EXIF_BYTES + |exif|;
    assert file[..EXIF_INSERT] == head[..EXIF_INSERT];
    assert file[0..4] == head[0..4] && file[4..6] == head[4..6];
    assert file[EXIF_INSERT..EXIF_INSERT + |exif|] == exif && file[EXIF_INSERT + |exif|..at] == head[EXIF_INSERT..];
    assert file[at..at + |x|] == x && file[at + |x|..at + |x| + |p|] == p;
  }

  /** The Photoshop segment, if there is one. */
  function PshopPart(t: Templates, data: seq<Byte>): seq<Byte>
    requires |t.pshop| == PSHOP_BYTES
  {
    if First(data) != [] then PshopSegment(t, First(data), Second(data)) else []
  }

  lemma PackedIs(t: Templates, data: seq<Byte>)
    requires t.Valid()
    ensures var head, l := ExifHead(t, |data|), LayoutFor(|data|);
      && l.exif <= |data|
      && Packed(t, data) == head[..EXIF_INSERT] + data[..l.exif] + head[EXIF_INSERT..] + XmpPart(t, l, Raw(data)) + PshopPart(t, data)
  {
    PartsRejoin(data);
    hide ExifHead, XmpSegment, PshopSegment, Part, LayoutFor, BigEndian;
  }

  lemma PackedHolds(t: Templates, data: seq<Byte>, cover: seq<Byte>)
    requires Searchable(t)
    ensures |t.exif| == EXIF_BYTES && |t.xmp| == XMP_BYTES && |t.pshop| == PSHOP_BYTES
    ensures Holds(Packed(t, data) + cover, t, data)
  {
    hide Searchable, ExifHead, BigEndian, XmpSegment, PshopSegment, Part, LayoutFor, Templates.Valid, NoneWithin, MatchesAt,
         ExifTail, Encode, Packed, XmpPart, First, Second, Raw;
    TemplateFacts(t);
    HeadParts(t, |data|);
    PartsRejoin(data);
    ExifShare(|data|);
    PackedIs(t, data);
    var l := LayoutFor(|data|);
    Concatenated(ExifHead(t, |data|), data[..l.exif], XmpPart(t, l, Raw(data)), PshopPart(t, data), cover);
  }

  lemma ExifShare(size: nat)
    ensures LayoutFor(size).exif == Min(size, EXIF_LIMIT)
  {
  }

  // ----- Reading it back -----

  lemma FieldHolds(file: seq<Byte>, at: nat, v: nat)
    requires Stands(file, at, BigEndian(v, 2)) && v < 65536
    ensures at + 2 <= |file| && U16(file, at) == v
  {
    FieldRoundTrip(v, 2);
  }

  lemma ExifIsThere(file: seq<Byte>, t: Templates, data: seq<Byte>)
    requires Searchable(t) && |t.exif| == EXIF_BYTES && |t.xmp| == XMP_BYTES && |t.pshop| == PSHOP_BYTES
    requires Holds(file, t, data) && 1 <= |data| <= MaxCapacity()
    ensures ExifHolds(file, |data|)
  {
    hide Searchable, BigEndian, ReadBigEndian, PshopSegment, XmpSegment, FirstMatch, LayoutFor, Laid;
    ExifShare(|data|);
    var header := file[..Min(|file|, HEADER_SEARCH)];
    FirstSegmentIsThird(file, header);
    FieldHolds(file, 4, LayoutFor(|data|).exif + 507);
  }

  lemma FirstSegmentIsThird(file: seq<Byte>, header: seq<Byte>)
    requires |file| >= HEADER_SEARCH && file[0..4] == [0xFF, 0xD8, 0xFF, 0xE1] && header == file[..HEADER_SEARCH]
    ensures FirstMatch(header, [0xFF, 0xE1], 0, |header|) == Some(2)
  {
    assert header[0..4] == [0xFF, 0xD8, 0xFF, 0xE1];
    var sig: seq<Byte> := [0xFF, 0xE1];
    assert header[0..2][1] == header[0..4][1] != sig[1];
    assert header[1..3][0] == header[0..4][1] != sig[0];
    assert header[2..4] == header[0..4][2..4] == sig;
    FirstMatchIs(header, sig, 0, |header|, 2);
  }

  lemma DatasetIsThere(file: seq<Byte>, sizeIndex: nat, bytes: seq<Byte>, remaining: nat)
    requires 1 <= |bytes| <= remaining && |bytes| < 65536
    requires Stands(file, sizeIndex, BigEndian(|bytes|, 2)) && Stands(file, sizeIndex + 2, bytes)
    ensures Dataset(file, sizeIndex, remaining) == Some(bytes)
  {
    hide BigEndian, U16;
    FieldHolds(file, sizeIndex, |bytes|);
  }

  lemma XmpIsThere(file: seq<Byte>, t: Templates, l: Layout, raw: seq<Byte>, p: seq<Byte>)
    requires Searchable(t) && |t.xmp| == XMP_BYTES && l.xmp == |raw| > 0 && |p| >= 4
    requires |XmpSegment(t, raw)| <= XMP_SEGMENT_LIMIT && Laid(file, t, l.exif, XmpPart(t, l, raw), p)
    ensures XmpBytes(file, EXIF_INSERT + l.exif, EXIF_BYTES + l.exif + |XmpPart(t, l, raw)| + 2, |raw|) == Some(raw)
  {
    hide Searchable, XmpSegment, FirstMatch, DecodedUntil, Encode, Laid, XmpPart, ExifTail, Templates.Valid, NoneWithin, MatchesAt;
    TemplateFacts(t);
    var x, start := XmpSegment(t, raw), EXIF_BYTES + l.exif;
    PartIsSegment(t, l, raw);
    LaidParts(file, t, l.exif, x, p);
    XmpTagIsFound(file, t, l.exif, raw, start + |x| + 2);
    TextIsThere(file, t, start, raw);
    var from := start + XMP_BYTES;
    FileRoundTrip(file, from, if MAX_SCAN < |file| - from then from + MAX_SCAN else |file|, raw);
  }

  lemma TextIsThere(file: seq<Byte>, t: Templates, start: nat, raw: seq<Byte>)
    requires Searchable(t)
    requires var x := XmpSegment(t, raw); start + |x| <= |file| && file[start..start + |x|] == x
    ensures var from := start + XMP_BYTES;
      && from + |Encode(raw)| < |file|
      && file[from..from + |Encode(raw)|] == Encode(raw) && file[from + |Encode(raw)|] == DELIMITER
  {
    hide XmpSegment, Encode, Searchable, NoneWithin, MatchesAt, Templates.Valid;
    TemplateFacts(t);
    XmpParts(t, raw);
    var x, b := XmpSegment(t, raw), XMP_BYTES + |Encode(raw)|;
    SubSlice(file, start, start + |x|, XMP_BYTES, |Encode(raw)|);
    LaidByte(file, start, x, b);
    assert x[b] == x[b..][0];
  }

  /** The datasets as the reader meets them, from the signature on. */
  lemma DatasetsAreThere(file: seq<Byte>, t: Templates, start: nat, first: seq<Byte>, second: seq<Byte>, remaining: nat)
    requires Searchable(t) && 1 <= |first| <= FIRST_LIMIT && |second| <= SECOND_LIMIT && |first| + |second| <= remaining
    requires var p := PshopSegment(t, first, second); start + |p| <= |file| && file[start..start + |p|] == p
    ensures start + 35 + |first| <= |file|
    ensures U16(file, start + 2) == |PshopSegment(t, first, second)| - 2
    ensures Dataset(file, start + 33, remaining) == Some(first)
    ensures second != [] ==> Dataset(file, start + 38 + |first|, remaining - |first|) == Some(second)
  {
    hide Searchable, PshopSegment, BigEndian, U16, Dataset, Templates.Valid, NoneWithin, MatchesAt;
    TemplateFacts(t);
    PshopParts(t, first, second);
    var p, n := PshopSegment(t, first, second), |first|;
    StandsWithin(file, start, p, 2, BigEndian(|p| - 2, 2));
    FieldHolds(file, start + 2, |p| - 2);
    DatasetInPart(file, start, p, 33, first, remaining);
    if second != [] { DatasetInPart(file, start, p, 38 + n, second, remaining - n); }
  }

  lemma DatasetInPart(file: seq<Byte>, start: nat, p: seq<Byte>, at: nat, bytes: seq<Byte>, remaining: nat)
    requires Stands(file, start, p) && Stands(p, at, BigEndian(|bytes|, 2)) && Stands(p, at + 2, bytes)
    requires 1 <= |bytes| <= remaining && |bytes| < 65536
    ensures Dataset(file, start + at, remaining) == Some(bytes)
  {
    hide BigEndian, Dataset, Stands;
    StandsWithin(file, start, p, at, BigEndian(|bytes|, 2));
    StandsWithin(file, start, p, at + 2, bytes);
    DatasetIsThere(file, start + at, bytes, remaining);
  }

  lemma DatasetsRead(file: seq<Byte>, t: Templates, data: seq<Byte>)
    requires Searchable(t) && |t.exif| == EXIF_BYTES && |t.xmp| == XMP_BYTES && |t.pshop| == PSHOP_BYTES
    requires Holds(file, t, data) && LayoutFor(|data|).first > 0 && |data| <= MaxCapacity()
    ensures var l := LayoutFor(|data|);
      ReadDatasets(file, l.exif, EXIF_BYTES + l.exif + |XmpPart(t, l, Raw(data))| + 9, |data| - l.exif)
      == Some(First(data) + Second(data) + Raw(data))
  {
    hide Searchable, PshopSegment, XmpSegment, BigEndian, U16, Dataset, XmpBytes, Part, First, Second, Raw, Encode;
    PartsRejoin(data);
    CapacitiesAgree(|data|);
    var l := LayoutFor(|data|);
    var first, second, raw := First(data), Second(data), Raw(data);
    var x, p := XmpPart(t, l, raw), PshopSegment(t, first, second);
    var start := EXIF_BYTES + l.exif + |x|;
    DatasetsAreThere(file, t, start, first, second, |data| - l.exif);
    assert first + [] + [] == first && first + second + [] == first + second;
    if l.xmp > 0 {
      SegmentBounded(t, data);
      XmpIsThere(file, t, l, raw, p);
    }
  }

  /**
    The round trip: whatever the cover behind them, the packed segments give the
    ciphertext back. (Every way of pushing it packs the same segments: `Finish`.)
    The writer also accepts an empty ciphertext, which the reader refuses.
   */
  lemma BlueskyRoundTrip(t: Templates, data: seq<Byte>, cover: seq<Byte>)
    requires Searchable(t) && |data| <= MaxCapacity()
    ensures ReadCiphertext(Packed(t, data) + cover, |data|) == if data == [] then None else Some(data)
  {
    hide Searchable, Packed, PshopSegment, XmpSegment, ExifHolds, PshopSignature, ReadDatasets, LayoutFor, Laid, BigEndian;
    hide First, Second, Raw, Part, Encode, Templates.Valid;
    if data == [] { return; }
    TemplateFacts(t);
    PackedHolds(t, data, cover);
    var file, l := Packed(t, data) + cover, LayoutFor(|data|);
    ExifIsThere(file, t, data);
    ExifShare(|data|);
    PartsRejoin(data);
    FirstBeyondExif(|data|);
    if l.first > 0 {
      SegmentBounded(t, data);
      PshopIsFound(file, t, l, Raw(data), First(data), Second(data));
      DatasetsRead(file, t, data);
      Rejoined(data[..l.exif], First(data), Second(data), Raw(data));
    } else {
      assert data[..l.exif] == data;
    }
  }

  lemma FirstBeyondExif(size: nat)
    ensures LayoutFor(size).first > 0 <==> size > EXIF_LIMIT
  {
  }

  lemma Rejoined(a: seq<Byte>, b: seq<Byte>, c: seq<Byte>, d: seq<Byte>)
    ensures a + b + c + d == a + (b + c + d)
  {
  }

  lemma SegmentBounded(t: Templates, data: seq<Byte>)
    requires Searchable(t) && |t.xmp| == XMP_BYTES && |data| <= MaxCapacity()
    ensures |XmpPart(t, LayoutFor(|data|), Raw(data))| <= XMP_SEGMENT_LIMIT
  {
    hide NoneWithin, MatchesAt, Encode;
    CapacitiesAgree(|data|);
    PartsRejoin(data);
  }

  // ----- Templates of that kind exist -----

  function PlainTemplates(): Templates {
    var exif := WithField(Zeros(EXIF_BYTES), 0, [0xFF, 0xD8, 0xFF, 0xE1] + BigEndian(65534, 2));
    var xmp := WithField(Zeros(XMP_BYTES), 0, [0xFF, 0xE1, 0, 0, 104, 116]);
    var pshop := WithField(Zeros(PSHOP_BYTES), 0,
                           [0xFF, 0xED] + BigEndian(65535, 2) + [80, 104, 111, 116, 111, 115, 104, 111, 112, 32, 51, 46]);
    Templates(WithField(exif, ARTIST_SIZE_INDEX, BigEndian(65394, 4)),
              WithField(WithField(pshop, BIM_SIZE_INDEX, BigEndian(65507, 2)), FIRST_SIZE_INDEX, BigEndian(FIRST_LIMIT, 2)),
              WithField(xmp, 305, XMP_SIG),
              WithField(Zeros(FOOTER_BYTES), 0, [60, 47, 114, 100]))
  }

  /** Where the signature's first byte is absent, there is no match. */
  lemma NoFirstByte(data: seq<Byte>, sig: seq<Byte>, start: nat, end: nat)
    requires sig != [] && forall i :: start <= i < end && i < |data| ==> data[i] != sig[0]
    ensures NoneWithin(data, sig, start, end)
  {
    forall p: nat | start <= p && p + |sig| <= end ensures !MatchesAt(data, sig, p) {
      if p + |sig| <= |data| { ByteRefutes(data, sig, p, 0); }
    }
  }

  lemma PlainExif(t: Templates)
    requires t == PlainTemplates()
    ensures |t.exif| == EXIF_BYTES && t.exif[..4] == [0xFF, 0xD8, 0xFF, 0xE1]
    ensures t.exif[4..6] == BigEndian(65534, 2) && t.exif[74..78] == BigEndian(65394, 4)
    ensures NoneWithin(ExifTail(t), PSHOP_SIG, 0, 46) && NoneWithin(ExifTail(t), XMP_SIG, 0, 46)
  {
    hide MatchesAt, NoneWithin, BigEndian, Zeros;
    var field := BigEndian(65534, 2);
    var exif := WithField(Zeros(EXIF_BYTES), 0, [0xFF, 0xD8, 0xFF, 0xE1] + field);
    WithFieldElsewhere(exif, ARTIST_SIZE_INDEX, BigEndian(65394, 4), 0, 6);
    assert t.exif[0..6] == exif[0..6] == [0xFF, 0xD8, 0xFF, 0xE1] + field;
    assert t.exif[..4] == t.exif[0..6][..4] && t.exif[4..6] == t.exif[0..6][4..];
    assert forall i :: 0 <= i < 46 ==> ExifTail(t)[i] == t.exif[465 + i] == 0;
    NoFirstByte(ExifTail(t), PSHOP_SIG, 0, 46);
    NoFirstByte(ExifTail(t), XMP_SIG, 0, 46);
  }

  lemma PlainPshop(t: Templates)
    requires t == PlainTemplates()
    ensures |t.pshop| == PSHOP_BYTES && t.pshop[..2] == [0xFF, 0xED]
    ensures t.pshop[2..4] == BigEndian(65535, 2) && t.pshop[28..30] == BigEndian(65507, 2)
    ensures t.pshop[33..35] == BigEndian(FIRST_LIMIT, 2)
    ensures t.pshop[4..16] == [80, 104, 111, 116, 111, 115, 104, 111, 112, 32, 51, 46]
  {
    hide BigEndian, Zeros;
    var name := [80, 104, 111, 116, 111, 115, 104, 111, 112, 32, 51, 46];
    var front := [0xFF, 0xED] + BigEndian(65535, 2) + name;
    var first, bim := BigEndian(FIRST_LIMIT, 2), BigEndian(65507, 2);
    var begun := WithField(Zeros(PSHOP_BYTES), 0, front);
    var sized := WithField(begun, BIM_SIZE_INDEX, bim);
    WithFieldElsewhere(begun, BIM_SIZE_INDEX, bim, 0, 16);
    WithFieldElsewhere(sized, FIRST_SIZE_INDEX, first, 0, 16);
    WithFieldElsewhere(sized, FIRST_SIZE_INDEX, first, 28, 2);
    hide WithField;
    assert t.pshop[0..16] == front;
    assert t.pshop[..2] == t.pshop[0..16][..2] && t.pshop[2..4] == t.pshop[0..16][2..4] && t.pshop[4..16] == t.pshop[0..16][4..];
  }

  lemma PlainXmpBytes(t: Templates)
    requires t == PlainTemplates()
    ensures |t.xmp| == XMP_BYTES && t.xmp[..2] == [0xFF, 0xE1] && t.xmp[4..6] == [104, 116]
    ensures t.xmp[305..312] == XMP_SIG && t.xmp[312] == 0 && forall i :: 6 <= i < 305 ==> t.xmp[i] == 0
  {
    hide Zeros;
    var begun := WithField(Zeros(XMP_BYTES), 0, [0xFF, 0xE1, 0, 0, 104, 116]);
    WithFieldElsewhere(begun, 305, XMP_SIG, 0, 6);
    hide WithField;
    assert t.xmp[0..6] == [0xFF, 0xE1, 0, 0, 104, 116];
    assert t.xmp[..2] == t.xmp[0..6][..2] && t.xmp[4..6] == t.xmp[0..6][4..];
  }

  lemma PlainFooter(t: Templates)
    requires t == PlainTemplates()
    ensures |t.footer| == FOOTER_BYTES && t.footer[..4] == [60, 47, 114, 100]
    ensures NoneWithin(t.footer, PSHOP_SIG, 0, FOOTER_BYTES)
  {
    hide NoneWithin, MatchesAt, Zeros;
    assert t.footer[..4] == t.footer[0..4];
    assert forall i :: 0 <= i < 4 ==> t.footer[i] == t.footer[0..4][i];
    NoFirstByte(t.footer, PSHOP_SIG, 0, FOOTER_BYTES);
  }

  lemma PlainXmp(t: Templates)
    requires t == PlainTemplates()
    ensures |t.xmp| == XMP_BYTES && t.xmp[..2] == [0xFF, 0xE1] && t.xmp[4..6] == [104, 116]
    ensures NoneWithin(t.xmp, PSHOP_SIG, 4, XMP_BYTES)
    ensures forall i :: XMP_BYTES - 6 <= i < XMP_BYTES ==> t.xmp[i] != PSHOP_SIG[0]
    ensures MatchesAt(t.xmp, XMP_SIG, 305) && NoneWithin(t.xmp, XMP_SIG, 4, 311)
  {
    hide NoneWithin, PlainTemplates;
    PlainXmpBytes(t);
    assert t.xmp[4] == t.xmp[4..6][0] && t.xmp[5] == t.xmp[4..6][1];
    assert forall i :: 305 <= i < 312 ==> t.xmp[i] == t.xmp[305..312][i - 305];
    NoFirstByte(t.xmp, PSHOP_SIG, 4, XMP_BYTES);
    TagIsFirst(t.xmp);
  }

  /** A match before the template's tag would need its last byte before the tag begins. */
  lemma TagIsFirst(xmp: seq<Byte>)
    requires |xmp| == XMP_BYTES && (forall i :: 4 <= i < 305 ==> xmp[i] != XMP_SIG[0])
    ensures NoneWithin(xmp, XMP_SIG, 4, 311)
  {
    forall p: nat | 4 <= p && p + |XMP_SIG| <= 311 ensures !MatchesAt(xmp, XMP_SIG, p) {
      ByteRefutes(xmp, XMP_SIG, p, 0);
    }
  }

  /** The round trip is not about nothing. */
  lemma SearchableIsMet()
    ensures Searchable(PlainTemplates())
  {
    hide NoneWithin, MatchesAt, BigEndian, WithField, Zeros, PlainTemplates;
    var t := PlainTemplates();
    PlainExif(t);
    PlainPshop(t);
    PlainXmp(t);
    PlainFooter(t);
  }
}
