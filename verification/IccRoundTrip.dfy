/**
  The default layout end to end: whatever leading segments stand before the
  profile, the reader finds it and reads back exactly the encrypted bytes.
 */
module IccRoundTrip {
  import opened Results
  import opened Bytes
  import opened OutputLog
  import opened IccSegments
  import opened IccRecovery

  const SIGNATURE_PREFIX: nat := 66386
  const TOTAL_IN_METADATA: nat := 0x2C8
  const SIZE_IN_METADATA: nat := 0x2CA

  // ----- Finding the profile -----

  predicate HasSignature(prefix: seq<Byte>, offset: nat, sig: seq<Byte>) {
    offset + |sig| <= |prefix| && prefix[offset..offset + |sig|] == sig
  }

  predicate MayLead(marker: Byte) {
    (0xE0 <= marker <= 0xEF && marker != 0xE2) || marker == 0xFE
  }

  datatype WalkStep = Stop | Found(index: nat) | Skip(next: nat)

  /** What one segment of the walk decides. */
  function StepAt(prefix: seq<Byte>, pos: nat): (step: WalkStep)
    requires pos >= 2
    ensures step.Skip? ==> step.next >= 2
  {
    if pos + 4 > |prefix| then Stop
    else if prefix[pos] != 0xFF || pos - 2 > MAX_LEADING_BYTES then Stop
    else if prefix[pos + 1] == 0xE2 then
      if HasSignature(prefix, pos - 2 + ICC_SIG_INDEX, ICC_SIG) && HasSignature(prefix, pos - 2 + JDVRIF_SIG_INDEX, JDVRIF_SIG)
      then Found(pos - 2 + ICC_SIG_INDEX) else Stop
    else if !MayLead(prefix[pos + 1]) then Stop
    else
      var length := prefix[pos + 2] as int * 256 + prefix[pos + 3];
      if length < 2 then Stop else Skip(pos + 2 + length)
  }

  /** The walk from a segment on, with `left` segments still allowed. */
  function WalkFrom(prefix: seq<Byte>, pos: nat, left: nat): Option<nat>
    requires pos >= 2
    decreases left
  {
    if left == 0 then None
    else match StepAt(prefix, pos)
      case Stop => None
      case Found(index) => Some(index)
      case Skip(next) => WalkFrom(prefix, next, left - 1)
  }

  function ProfileIndex(prefix: seq<Byte>): Option<nat> {
    if |prefix| < 2 || prefix[..2] != [0xFF, 0xD8] then None else WalkFrom(prefix, 2, MAX_LEADING_SEGMENTS + 1)
  }

  lemma WalkStepIs(prefix: seq<Byte>, pos: nat, left: nat)
    requires pos >= 2 && left > 0
    ensures var step := StepAt(prefix, pos);
      WalkFrom(prefix, pos, left)
      == if step.Stop? then None else if step.Found? then Some(step.index) else WalkFrom(prefix, step.next, left - 1)
  {
    hide StepAt;
  }

  lemma WalkEnds(prefix: seq<Byte>, pos: nat)
    requires pos >= 2
    ensures WalkFrom(prefix, pos, 0) == None
  {
  }

  /** The original's bounded loop. */
  method FindProfile(prefix: seq<Byte>) returns (index: Option<nat>)
    ensures index == ProfileIndex(prefix)
  {
    hide StepAt, HasSignature, WalkFrom;
    if |prefix| < 2 || prefix[..2] != [0xFF, 0xD8] {
      return None;
    }
    var pos: nat := 2;
    ghost var left: nat := MAX_LEADING_SEGMENTS + 1;
    for i := 0 to MAX_LEADING_SEGMENTS + 1
      invariant pos >= 2 && left == MAX_LEADING_SEGMENTS + 1 - i
      invariant WalkFrom(prefix, pos, left) == ProfileIndex(prefix)
    {
      var step := StepAt(prefix, pos);
      WalkStepIs(prefix, pos, left);
      left := left - 1;
      if step.Stop? {
        return None;
      }
      if step.Found? {
        return Some(step.index);
      }
      pos := step.next;
    }
    WalkEnds(prefix, pos);
    return None;
  }

  /** A run of at most `count` whole segments that may stand before the profile. */
  predicate LeadingRun(leading: seq<Byte>, count: nat) {
    leading == []
    || (&& count > 0 && |leading| >= 4 && leading[0] == 0xFF && MayLead(leading[1])
        && var length := SegmentLength(leading);
          2 <= length && 2 + length <= |leading| && LeadingRun(leading[2 + length..], count - 1))
  }

  function SegmentLength(segment: seq<Byte>): nat
    requires |segment| >= 4
  {
    segment[2] as int * 256 + segment[3]
  }

  lemma StepFinds(prefix: seq<Byte>, pos: nat)
    requires ProfileAt(prefix, pos)
    ensures pos >= 2 && StepAt(prefix, pos) == Found(pos - 2 + ICC_SIG_INDEX)
  {
  }

  /** At a leading segment the walk moves on to the next. */
  lemma StepSkips(prefix: seq<Byte>, pos: nat, rest: seq<Byte>, count: nat)
    requires pos >= 2 && rest != [] && LeadingRun(rest, count) && ProfileAt(prefix, pos + |rest|)
    requires pos + |rest| <= |prefix| && prefix[pos..pos + |rest|] == rest
    ensures count > 0 && |rest| >= 4
    ensures var skipped := 2 + SegmentLength(rest);
      StepAt(prefix, pos) == Skip(pos + skipped) && skipped <= |rest| && LeadingRun(rest[skipped..], count - 1)
  {
    assert prefix[pos] == rest[0] && prefix[pos + 1] == rest[1] && prefix[pos + 2] == rest[2] && prefix[pos + 3] == rest[3];
  }

  /** The profile stands at `pos`. */
  ghost predicate ProfileAt(prefix: seq<Byte>, pos: nat) {
    && 2 <= pos && pos - 2 <= MAX_LEADING_BYTES && pos + 4 <= |prefix|
    && prefix[pos] == 0xFF && prefix[pos + 1] == 0xE2
    && HasSignature(prefix, pos - 2 + ICC_SIG_INDEX, ICC_SIG)
    && HasSignature(prefix, pos - 2 + JDVRIF_SIG_INDEX, JDVRIF_SIG)
  }

  /** The walk passes every leading segment and stops at the profile behind them. */
  lemma {:induction false} WalkReaches(prefix: seq<Byte>, pos: nat, rest: seq<Byte>, left: nat)
    requires pos >= 2 && LeadingRun(rest, left) && ProfileAt(prefix, pos + |rest|)
    requires pos + |rest| <= |prefix| && prefix[pos..pos + |rest|] == rest
    ensures WalkFrom(prefix, pos, left + 1) == Some(pos + |rest| - 2 + ICC_SIG_INDEX)
    decreases left
  {
    hide StepAt, ProfileAt, LeadingRun;
    if rest == [] {
      StepFinds(prefix, pos);
    } else {
      StepSkips(prefix, pos, rest, left);
      var skipped := 2 + SegmentLength(rest);
      assert prefix[pos + skipped..pos + |rest|] == prefix[pos..pos + |rest|][skipped..];
      WalkReaches(prefix, pos + skipped, rest[skipped..], left - 1);
    }
  }

  // ----- Reading back -----

  /** What recovery reads: the profile, its two fields, and the span behind it without headers. */
  function Recovered(file: seq<Byte>): Result<seq<Byte>, RecoveryError> {
    var profile := ProfileIndex(file[..if |file| < SIGNATURE_PREFIX then |file| else SIGNATURE_PREFIX]);
    if profile.None? then Err(NoProfile)
    else if profile.value < 8 then Err(Corrupt)
    else
      var base := profile.value - 8;
      if base < BASE_OFFSET || base - BASE_OFFSET > MAX_LEADING_BYTES then Err(UnsupportedLayout)
      else if base > |file| || ENCRYPTED_START > |file| - base then Err(Corrupt)
      else ReadSpan(file, base)
  }

  function ReadSpan(file: seq<Byte>, base: nat): Result<seq<Byte>, RecoveryError>
    requires base + ENCRYPTED_START <= |file|
  {
    var total := ReadBigEndian(file[base + TOTAL_IN_METADATA..base + TOTAL_IN_METADATA + 2]);
    var embedded := ReadBigEndian(file[base + SIZE_IN_METADATA..base + SIZE_IN_METADATA + 4]);
    var fault := SpanFault(file, base, embedded, total);
    if fault.Some? then Err(fault.value)
    else Ok(Unframed(file[base + ENCRYPTED_START..base + ENCRYPTED_START + embedded], HEADER_INDEX, total != 0))
  }

  /** Reads a source to its end, `piece` bytes at a time. */
  method ReadAll(source: FileRunsSource, piece: nat) returns (bytes: seq<Byte>)
    requires source.Valid() && piece > 0
    modifies source
    ensures bytes == old(source.Rest())
  {
    hide FileRunsSource.Rest;
    bytes := [];
    ghost var whole := source.Rest();
    while source.remaining > 0
      invariant source.Valid() && bytes + source.Rest() == whole
      decreases source.remaining
    {
      ghost var before := source.Rest();
      var n := if piece < source.remaining then piece else source.remaining;
      var next := source.TryRead(n);
      assert bytes + before == (bytes + before[..n]) + before[n..];
      bytes := bytes + next.value;
    }
    assert bytes + [] == bytes;
  }

  method RecoverCiphertext(file: seq<Byte>, piece: nat) returns (r: Result<seq<Byte>, RecoveryError>)
    requires piece > 0
    ensures r == Recovered(file)
  {
    hide ReadBigEndian, SpanFault, Unframed, ProfileIndex, RunBytes, InFile;
    var profile := FindProfile(file[..if |file| < SIGNATURE_PREFIX then |file| else SIGNATURE_PREFIX]);
    if profile.None? {
      return Err(NoProfile);
    }
    if profile.value < 8 {
      return Err(Corrupt);
    }
    var base := profile.value - 8;
    if base < BASE_OFFSET || base - BASE_OFFSET > MAX_LEADING_BYTES {
      return Err(UnsupportedLayout);
    }
    if base > |file| || ENCRYPTED_START > |file| - base {
      return Err(Corrupt);
    }
    var total := ReadBigEndian(file[base + TOTAL_IN_METADATA..base + TOTAL_IN_METADATA + 2]);
    var embedded := ReadBigEndian(file[base + SIZE_IN_METADATA..base + SIZE_IN_METADATA + 4]);
    var runs := OpenDefaultCiphertext(file, base, embedded, total);
    if runs.Err? {
      return Err(runs.error);
    }
    var source := new FileRunsSource(file, runs.value);
    var bytes := ReadAll(source, piece);
    return Ok(bytes);
  }

  // ----- The template -----

  /** What the shipped template provides: markers, signatures, and a zero segment count. */
  predicate TemplateOk(t: seq<Byte>) {
    && |t| == TEMPLATE_BYTES
    && t[..4] == [0xFF, 0xD8, 0xFF, 0xE2]
    && HasSignature(t, ICC_SIG_INDEX, ICC_SIG) && HasSignature(t, JDVRIF_SIG_INDEX, JDVRIF_SIG)
    && t[TOTAL_INDEX..TOTAL_INDEX + 2] == [0, 0]
  }

  function PlainTemplate(): (t: seq<Byte>)
    ensures |t| == TEMPLATE_BYTES
  {
    WithField(WithField(WithField(Zeros(TEMPLATE_BYTES), 0, [0xFF, 0xD8, 0xFF, 0xE2]), ICC_SIG_INDEX, ICC_SIG),
              JDVRIF_SIG_INDEX, JDVRIF_SIG)
  }

  /** There are such templates. */
  lemma TemplateOkIsMet()
    ensures TemplateOk(PlainTemplate())
  {
    hide PlainTemplate, HasSignature;
    PlainOpening();
    PlainSignatures();
    PlainTotal();
  }

  lemma PlainOpening()
    ensures PlainTemplate()[..4] == [0xFF, 0xD8, 0xFF, 0xE2]
  {
    hide Zeros, WithField;
    var start := WithField(Zeros(TEMPLATE_BYTES), 0, [0xFF, 0xD8, 0xFF, 0xE2]);
    var profile := WithField(start, ICC_SIG_INDEX, ICC_SIG);
    WithFieldElsewhere(start, ICC_SIG_INDEX, ICC_SIG, 0, 4);
    WithFieldElsewhere(profile, JDVRIF_SIG_INDEX, JDVRIF_SIG, 0, 4);
    assert PlainTemplate()[..4] == PlainTemplate()[0..4];
  }

  lemma PlainSignatures()
    ensures HasSignature(PlainTemplate(), ICC_SIG_INDEX, ICC_SIG) && HasSignature(PlainTemplate(), JDVRIF_SIG_INDEX, JDVRIF_SIG)
  {
    hide Zeros, WithField;
    var profile := WithField(WithField(Zeros(TEMPLATE_BYTES), 0, [0xFF, 0xD8, 0xFF, 0xE2]), ICC_SIG_INDEX, ICC_SIG);
    WithFieldElsewhere(profile, JDVRIF_SIG_INDEX, JDVRIF_SIG, ICC_SIG_INDEX, |ICC_SIG|);
  }

  lemma PlainTotal()
    ensures PlainTemplate()[TOTAL_INDEX..TOTAL_INDEX + 2] == [0, 0]
  {
    hide Zeros, WithField;
    assert PlainTemplate()[TOTAL_INDEX] == 0 && PlainTemplate()[TOTAL_INDEX + 1] == 0;
  }

  /** Segments recorded in the profile: none extra when one holds everything. */
  function TotalSegments(layout: Layout): nat {
    if layout.Multi? then layout.segments else 0
  }

  /** Filling the fields leaves the rest of the template alone. */
  lemma FilledKeeps(t: seq<Byte>, layout: Layout, at: nat, n: nat)
    requires |t| == TEMPLATE_BYTES && at + n <= TEMPLATE_BYTES
    requires at + n <= 4 || (24 <= at && at + n <= TOTAL_INDEX) || at >= 742
    ensures Filled(t, layout)[at..at + n] == t[at..at + n]
  {
    hide WithField, BigEndian;
    if layout.Single? {
      var a := WithField(t, SEGMENT_SIZE_INDEX, BigEndian(if layout.size < 4 then 0 else layout.size - 4, 2));
      var b := WithField(a, PROFILE_SIZE_INDEX, BigEndian(if layout.size < 20 then 0 else layout.size - 20, 2));
      var file := BigEndian(if layout.size < TEMPLATE_BYTES then 0 else layout.size - TEMPLATE_BYTES, 4);
      WithFieldElsewhere(t, SEGMENT_SIZE_INDEX, BigEndian(if layout.size < 4 then 0 else layout.size - 4, 2), at, n);
      WithFieldElsewhere(a, PROFILE_SIZE_INDEX, BigEndian(if layout.size < 20 then 0 else layout.size - 20, 2), at, n);
      WithFieldElsewhere(b, FILE_SIZE_INDEX, file, at, n);
    } else {
      var a := WithField(t, TOTAL_INDEX, BigEndian(layout.segments, 2));
      var file := BigEndian(if layout.size < TEMPLATE_BYTES then 0 else layout.size - TEMPLATE_BYTES, 4);
      WithFieldElsewhere(t, TOTAL_INDEX, BigEndian(layout.segments, 2), at, n);
      WithFieldElsewhere(a, FILE_SIZE_INDEX, file, at, n);
    }
  }

  lemma FilledTotal(t: seq<Byte>, layout: Layout)
    requires |t| == TEMPLATE_BYTES && t[TOTAL_INDEX..TOTAL_INDEX + 2] == [0, 0]
    ensures Filled(t, layout)[TOTAL_INDEX..TOTAL_INDEX + 2] == if layout.Multi? then BigEndian(layout.segments, 2) else [0, 0]
  {
    hide WithField, BigEndian;
    var file := BigEndian(if layout.size < TEMPLATE_BYTES then 0 else layout.size - TEMPLATE_BYTES, 4);
    if layout.Multi? {
      var a := WithField(t, TOTAL_INDEX, BigEndian(layout.segments, 2));
      WithFieldElsewhere(a, FILE_SIZE_INDEX, file, TOTAL_INDEX, 2);
    } else {
      var a := WithField(t, SEGMENT_SIZE_INDEX, BigEndian(if layout.size < 4 then 0 else layout.size - 4, 2));
      var b := WithField(a, PROFILE_SIZE_INDEX, BigEndian(if layout.size < 20 then 0 else layout.size - 20, 2));
      WithFieldElsewhere(t, SEGMENT_SIZE_INDEX, BigEndian(if layout.size < 4 then 0 else layout.size - 4, 2), TOTAL_INDEX, 2);
      WithFieldElsewhere(a, PROFILE_SIZE_INDEX, BigEndian(if layout.size < 20 then 0 else layout.size - 20, 2), TOTAL_INDEX, 2);
      WithFieldElsewhere(b, FILE_SIZE_INDEX, file, TOTAL_INDEX, 2);
    }
  }

  lemma FilledSize(t: seq<Byte>, layout: Layout)
    requires |t| == TEMPLATE_BYTES && layout.size >= TEMPLATE_BYTES
    ensures Filled(t, layout)[FILE_SIZE_INDEX..FILE_SIZE_INDEX + 4] == BigEndian(layout.size - TEMPLATE_BYTES, 4)
  {
    hide WithField, BigEndian;
  }

  lemma FilledFields(t: seq<Byte>, layout: Layout, encryptedSize: nat)
    requires TemplateOk(t) && LayoutOf(TEMPLATE_BYTES, encryptedSize) == Ok(layout)
    ensures var f := Filled(t, layout);
      && f[..4] == [0xFF, 0xD8, 0xFF, 0xE2]
      && HasSignature(f, ICC_SIG_INDEX, ICC_SIG) && HasSignature(f, JDVRIF_SIG_INDEX, JDVRIF_SIG)
      && ReadBigEndian(f[TOTAL_INDEX..TOTAL_INDEX + 2]) == TotalSegments(layout)
      && layout.size >= TEMPLATE_BYTES
      && ReadBigEndian(f[FILE_SIZE_INDEX..FILE_SIZE_INDEX + 4]) == layout.size - TEMPLATE_BYTES
  {
    hide Filled, ReadBigEndian, BigEndian, Pow256, LayoutOf;
    FieldsFit(layout, encryptedSize);
    FieldRoundTrip(layout.size - TEMPLATE_BYTES, 4);
    FieldRoundTrip(TotalSegments(layout), 2);
    ZeroRead();
    FilledKeeps(t, layout, 0, 4);
    FilledKeeps(t, layout, ICC_SIG_INDEX, 7);
    FilledKeeps(t, layout, JDVRIF_SIG_INDEX, 7);
    FilledTotal(t, layout);
    FilledSize(t, layout);
    assert t[0..4] == t[..4] && Filled(t, layout)[0..4] == Filled(t, layout)[..4];
  }

  lemma ZeroRead()
    ensures ReadBigEndian([0, 0]) == 0
  {
  }

  // ----- The shape of the file -----

  /** What follows the template's bytes: the encrypted file, with the headers of further segments in between. */
  function Tail(layout: Layout, encrypted: seq<Byte>): seq<Byte>
    requires layout.Multi? ==> |encrypted| >= HEADER_INDEX
  {
    if layout.Single? then encrypted else encrypted[..HEADER_INDEX] + Framed(encrypted[HEADER_INDEX..], 2)
  }

  function Head(f: seq<Byte>, layout: Layout): (h: seq<Byte>)
    requires |f| == TEMPLATE_BYTES && f[..4] == [0xFF, 0xD8, 0xFF, 0xE2]
    ensures |h| == HEADER_BYTES && h[..2] == [0xFF, 0xE2]
  {
    if layout.Single? then
      assert f[2..20][..2] == f[..4][2..];
      f[2..20]
    else IccHeader(SEGMENT_DATA + 16, 1)
  }

  lemma PartShape(f: seq<Byte>, layout: Layout, leading: seq<Byte>, encrypted: seq<Byte>)
    requires |f| == TEMPLATE_BYTES && f[..4] == [0xFF, 0xD8, 0xFF, 0xE2]
    requires LayoutOf(TEMPLATE_BYTES, |encrypted|) == Ok(layout)
    ensures layout.Multi? ==> |encrypted| >= HEADER_INDEX
    ensures IccPart(f, layout, leading, encrypted) == f[..2] + leading + Head(f, layout) + f[20..] + Tail(layout, encrypted)
  {
    LayoutAccepts(|encrypted|);
    hide LayoutOf, IccHeader;
    if layout.Single? {
      assert f[2..] == f[2..20] + f[20..];
    } else {
      var payload := f[20..] + encrypted;
      assert payload[..SEGMENT_DATA] == f[20..] + encrypted[..HEADER_INDEX];
      assert payload[SEGMENT_DATA..] == encrypted[HEADER_INDEX..];
      var head, more := IccHeader(SEGMENT_DATA + 16, 1), Framed(encrypted[HEADER_INDEX..], 2);
      assert Framed(payload, 1) == head + (f[20..] + encrypted[..HEADER_INDEX]) + more;
      hide Framed;
      assert head + (f[20..] + encrypted[..HEADER_INDEX]) + more == head + f[20..] + (encrypted[..HEADER_INDEX] + more);
    }
  }

  /** The tail is as long as the recorded size says, and without its headers it is the encrypted file. */
  lemma TailIsEncrypted(layout: Layout, encrypted: seq<Byte>)
    requires LayoutOf(TEMPLATE_BYTES, |encrypted|) == Ok(layout)
    ensures layout.Multi? ==> |encrypted| >= HEADER_INDEX
    ensures |Tail(layout, encrypted)| == layout.size - TEMPLATE_BYTES
    ensures Unframed(Tail(layout, encrypted), HEADER_INDEX, layout.Multi?) == encrypted
  {
    LayoutAccepts(|encrypted|);
    if layout.Multi? {
      FramedLength(encrypted[HEADER_INDEX..], 2);
      FramedStepped(encrypted[..HEADER_INDEX], encrypted[HEADER_INDEX..], 2);
      assert encrypted[..HEADER_INDEX] + encrypted[HEADER_INDEX..] == encrypted;
    }
  }

  /** A file in which the template's bytes from 20 on stand `lead` bytes further back, and `tail` follows them. */
  ghost predicate Shaped(file: seq<Byte>, f: seq<Byte>, leading: seq<Byte>, tail: seq<Byte>) {
    var lead := |leading|;
    && |f| == TEMPLATE_BYTES && TEMPLATE_BYTES + lead + |tail| <= |file|
    && file[..2] == [0xFF, 0xD8]
    && file[2..2 + lead] == leading
    && file[2 + lead..4 + lead] == [0xFF, 0xE2]
    && file[20 + lead..TEMPLATE_BYTES + lead] == f[20..]
    && file[TEMPLATE_BYTES + lead..TEMPLATE_BYTES + lead + |tail|] == tail
  }

  lemma PartsAreShaped(f: seq<Byte>, leading: seq<Byte>, head: seq<Byte>, tail: seq<Byte>, cover: seq<Byte>)
    requires |f| == TEMPLATE_BYTES && f[..4] == [0xFF, 0xD8, 0xFF, 0xE2]
    requires |head| == HEADER_BYTES && head[..2] == [0xFF, 0xE2]
    ensures Shaped(f[..2] + leading + head + f[20..] + tail + cover, f, leading, tail)
  {
    var lead := |leading|;
    var soi, body := f[..2], f[20..];
    var file := soi + leading + head + body + tail + cover;
    assert soi == f[..4][..2] == [0xFF, 0xD8];
    assert file[..2] == soi;
    assert file[2..2 + lead] == leading;
    assert file[2 + lead..20 + lead] == head;
    assert file[2 + lead..4 + lead] == file[2 + lead..20 + lead][..2];
    assert file[20 + lead..TEMPLATE_BYTES + lead] == body;
    assert file[TEMPLATE_BYTES + lead..TEMPLATE_BYTES + lead + |tail|] == tail;
  }

  lemma FieldAt(file: seq<Byte>, f: seq<Byte>, leading: seq<Byte>, tail: seq<Byte>, index: nat, n: nat)
    requires Shaped(file, f, leading, tail) && 20 <= index && index + n <= TEMPLATE_BYTES
    ensures index + |leading| + n <= |file|
    ensures file[index + |leading|..index + |leading| + n] == f[index..index + n]
  {
    SubSlice(file, 20 + |leading|, TEMPLATE_BYTES + |leading|, index - 20, n);
    SubSlice(f, 20, TEMPLATE_BYTES, index - 20, n);
    assert f[20..TEMPLATE_BYTES] == f[20..];
  }

  /** Any prefix long enough to hold both signatures shows the profile behind the leading segments. */
  lemma ProfileStands(file: seq<Byte>, f: seq<Byte>, leading: seq<Byte>, tail: seq<Byte>, n: nat)
    requires Shaped(file, f, leading, tail) && |leading| <= MAX_LEADING_BYTES
    requires HasSignature(f, ICC_SIG_INDEX, ICC_SIG) && HasSignature(f, JDVRIF_SIG_INDEX, JDVRIF_SIG)
    requires JDVRIF_SIG_INDEX + |leading| + 7 <= n <= |file|
    ensures file[..n][..2] == [0xFF, 0xD8] && file[..n][2..2 + |leading|] == leading
    ensures ProfileAt(file[..n], 2 + |leading|)
  {
    var lead := |leading|;
    FieldAt(file, f, leading, tail, ICC_SIG_INDEX, 7);
    FieldAt(file, f, leading, tail, JDVRIF_SIG_INDEX, 7);
    PrefixSlice(file, n, ICC_SIG_INDEX + lead, 7);
    PrefixSlice(file, n, JDVRIF_SIG_INDEX + lead, 7);
    PrefixSlice(file, n, 0, 2);
    PrefixSlice(file, n, 2, lead);
    assert file[2 + lead] == file[2 + lead..4 + lead][0] && file[3 + lead] == file[2 + lead..4 + lead][1];
  }

  /** The walk finds the profile of a shaped file. */
  lemma ProfileIsFound(file: seq<Byte>, f: seq<Byte>, leading: seq<Byte>, tail: seq<Byte>)
    requires Shaped(file, f, leading, tail) && LeadingRun(leading, MAX_LEADING_SEGMENTS) && |leading| <= MAX_LEADING_BYTES
    requires HasSignature(f, ICC_SIG_INDEX, ICC_SIG) && HasSignature(f, JDVRIF_SIG_INDEX, JDVRIF_SIG)
    ensures var prefix := file[..if |file| < SIGNATURE_PREFIX then |file| else SIGNATURE_PREFIX];
      ProfileIndex(prefix) == Some(ICC_SIG_INDEX + |leading|)
  {
    assert TEMPLATE_BYTES + |leading| <= |file|;
    var n := if |file| < SIGNATURE_PREFIX then |file| else SIGNATURE_PREFIX;
    hide Shaped, LeadingRun, WalkFrom, HasSignature, ProfileAt;
    ProfileStands(file, f, leading, tail, n);
    WalkReaches(file[..n], 2, leading, MAX_LEADING_SEGMENTS);
  }

  lemma PrefixSlice(file: seq<Byte>, n: nat, at: nat, count: nat)
    requires n <= |file| && at + count <= n
    ensures file[..n][at..at + count] == file[at..at + count]
  {
  }

  /** The last segment's marker stands where the reader looks for it. */
  lemma MarkerIsPresent(f: seq<Byte>, layout: Layout, leading: seq<Byte>, encrypted: seq<Byte>, cover: seq<Byte>)
    requires |f| == TEMPLATE_BYTES && LayoutOf(TEMPLATE_BYTES, |encrypted|) == Ok(layout) && layout.Multi?
    ensures var file, at := IccPart(f, layout, leading, encrypted) + cover, 2 + |leading| + (layout.segments - 1) * STRIDE;
      layout.segments >= 2 && at + 2 <= |file| && file[at..at + 2] == [0xFF, 0xE2]
  {
    LayoutAccepts(|encrypted|);
    hide LayoutOf, Framed;
    var payload := f[INITIAL_HEADER_BYTES..] + encrypted;
    var k := layout.segments - 1;
    HeaderAt(payload, 1, k);
    var front, framed := f[..2] + leading, Framed(payload, 1);
    var at := k * STRIDE;
    assert (front + framed + cover)[|front| + at..|front| + at + 2] == framed[at..at + 2];
  }

  lemma SpanIsSound(file: seq<Byte>, f: seq<Byte>, layout: Layout, leading: seq<Byte>, encrypted: seq<Byte>)
    requires LayoutOf(TEMPLATE_BYTES, |encrypted|) == Ok(layout) && (layout.Multi? ==> |encrypted| >= HEADER_INDEX)
    requires Shaped(file, f, leading, Tail(layout, encrypted)) && layout.size >= TEMPLATE_BYTES
    requires ReadBigEndian(f[TOTAL_INDEX..TOTAL_INDEX + 2]) == TotalSegments(layout)
    requires ReadBigEndian(f[FILE_SIZE_INDEX..FILE_SIZE_INDEX + 4]) == layout.size - TEMPLATE_BYTES
    requires layout.Multi? ==>
      var at := 2 + |leading| + (layout.segments - 1) * STRIDE;
      layout.segments >= 2 && at + 2 <= |file| && file[at..at + 2] == [0xFF, 0xE2]
    ensures BASE_OFFSET + |leading| + ENCRYPTED_START <= |file|
    ensures ReadSpan(file, BASE_OFFSET + |leading|) == Ok(encrypted)
  {
    hide Shaped, Tail, LayoutOf, ReadBigEndian, Unframed, SpanFault, ReadSpan, TotalSegments;
    var lead, base := |leading|, BASE_OFFSET + |leading|;
    var tail, embedded, total := Tail(layout, encrypted), layout.size - TEMPLATE_BYTES, TotalSegments(layout);
    TailIsEncrypted(layout, encrypted);
    TotalIs(layout);
    FieldAt(file, f, leading, tail, TOTAL_INDEX, 2);
    FieldAt(file, f, leading, tail, FILE_SIZE_INDEX, 4);
    TailAt(file, f, leading, tail);
    NoFault(file, base, embedded, total, if layout.Multi? then (layout.segments - 1) * STRIDE else 0);
    SpanReads(file, base, embedded, total);
  }

  lemma TotalIs(layout: Layout)
    ensures TotalSegments(layout) == if layout.Multi? then layout.segments else 0
  {
  }

  lemma TailAt(file: seq<Byte>, f: seq<Byte>, leading: seq<Byte>, tail: seq<Byte>)
    requires Shaped(file, f, leading, tail)
    ensures TEMPLATE_BYTES + |leading| + |tail| <= |file|
    ensures file[TEMPLATE_BYTES + |leading|..TEMPLATE_BYTES + |leading| + |tail|] == tail
  {
  }

  /** The checks pass when the span is inside the file and the last marker stands `reach` bytes behind the first. */
  lemma NoFault(file: seq<Byte>, base: nat, embedded: nat, total: nat, reach: nat)
    requires base >= MARKER_BACK && base + ENCRYPTED_START + embedded <= |file|
    requires total != 0 ==>
      var at := base - MARKER_BACK + reach;
      total >= 2 && reach == (total - 1) * STRIDE && at + 2 <= |file| && file[at..at + 2] == [0xFF, 0xE2]
    ensures SpanFault(file, base, embedded, total).None?
  {
  }

  lemma SpanReads(file: seq<Byte>, base: nat, embedded: nat, total: nat)
    requires base + ENCRYPTED_START + embedded <= |file| && SpanFault(file, base, embedded, total).None?
    requires ReadBigEndian(file[base + TOTAL_IN_METADATA..base + TOTAL_IN_METADATA + 2]) == total
    requires ReadBigEndian(file[base + SIZE_IN_METADATA..base + SIZE_IN_METADATA + 4]) == embedded
    ensures ReadSpan(file, base)
         == Ok(Unframed(file[base + ENCRYPTED_START..base + ENCRYPTED_START + embedded], HEADER_INDEX, total != 0))
  {
    hide ReadBigEndian, Unframed, SpanFault;
  }

  /**
    For every encrypted file that has a layout, every run of up to 16 leading
    segments within 64 KiB, and every cover: the file is as long as announced, and
    recovery reads back exactly the encrypted file.
   */
  lemma IccRoundTrip(template: seq<Byte>, layout: Layout, leading: seq<Byte>, encrypted: seq<Byte>, cover: seq<Byte>)
    requires TemplateOk(template) && LayoutOf(TEMPLATE_BYTES, |encrypted|) == Ok(layout)
    requires LeadingRun(leading, MAX_LEADING_SEGMENTS) && |leading| <= MAX_LEADING_BYTES
    ensures var file := IccPart(Filled(template, layout), layout, leading, encrypted) + cover;
      && |file| == layout.size + |leading| + |cover|
      && Recovered(file) == Ok(encrypted)
  {
    hide Filled, IccPart, Tail, Shaped, LayoutOf, LeadingRun, ProfileIndex, ReadSpan, ReadBigEndian, HasSignature;
    LayoutAccepts(|encrypted|);
    var f := Filled(template, layout);
    var file, tail := IccPart(f, layout, leading, encrypted) + cover, Tail(layout, encrypted);
    FilledFields(template, layout, |encrypted|);
    PartIsShaped(f, layout, leading, encrypted, cover);
    if layout.Multi? { MarkerIsPresent(f, layout, leading, encrypted, cover); }
    ProfileIsFound(file, f, leading, tail);
    SpanIsSound(file, f, layout, leading, encrypted);
  }

  lemma PartIsShaped(f: seq<Byte>, layout: Layout, leading: seq<Byte>, encrypted: seq<Byte>, cover: seq<Byte>)
    requires |f| == TEMPLATE_BYTES && f[..4] == [0xFF, 0xD8, 0xFF, 0xE2]
    requires LayoutOf(TEMPLATE_BYTES, |encrypted|) == Ok(layout)
    ensures layout.Multi? ==> |encrypted| >= HEADER_INDEX
    ensures var file := IccPart(f, layout, leading, encrypted) + cover;
      |file| == layout.size + |leading| + |cover| && Shaped(file, f, leading, Tail(layout, encrypted))
  {
    hide IccPart, Tail, Head, Shaped, LayoutOf;
    PartShape(f, layout, leading, encrypted);
    TailIsEncrypted(layout, encrypted);
    PartsAreShaped(f, leading, Head(f, layout), Tail(layout, encrypted), cover);
  }

  /** The count of headers left out is the count of segments after the first. */
  lemma SkippedIsSegments(layout: Layout, encryptedSize: nat)
    requires LayoutOf(TEMPLATE_BYTES, encryptedSize) == Ok(layout)
    ensures layout.size >= TEMPLATE_BYTES
    ensures SkippedHeaderCount(layout.size - TEMPLATE_BYTES, TotalSegments(layout))
         == if layout.Multi? then layout.segments - 1 else 0
  {
    LayoutAccepts(encryptedSize);
  }
}
