/**
  What the default layout's reader takes for a profile and for a whole span: exactly
  when it finds one, and that a file cut short anywhere is refused.
 */
module IccAcceptance {
  import opened Results
  import opened Bytes
  import opened IccSegments
  import opened IccRecovery
  import opened IccRoundTrip

  // ----- The walk, both ways -----

  /** A leading run, one segment longer. */
  lemma RunGrows(segment: seq<Byte>, rest: seq<Byte>, count: nat)
    requires |segment| >= 4 && segment[0] == 0xFF && MayLead(segment[1]) && |segment| == 2 + SegmentLength(segment)
    requires SegmentLength(segment) >= 2 && LeadingRun(rest, count)
    ensures LeadingRun(segment + rest, count + 1)
  {
    assert (segment + rest)[|segment|..] == rest;
  }

  /** Where the walk stops, nothing is found; where it skips, a whole segment may be in the way. */
  lemma StepIs(prefix: seq<Byte>, pos: nat, end: nat)
    requires 2 <= pos <= end <= |prefix|
    ensures var step := StepAt(prefix, pos);
      && (step.Found? ==> ProfileAt(prefix, pos) && step.index == pos + 30)
      && (step.Skip? ==> step.next > pos && (step.next <= end ==>
            var segment := prefix[pos..step.next];
            && |segment| >= 4 && segment[0] == 0xFF && MayLead(segment[1])
            && SegmentLength(segment) >= 2 && |segment| == 2 + SegmentLength(segment)))
  {
    hide HasSignature;
  }

  /** The profile the walk finds stands behind a run of whole leading segments. */
  lemma {:induction false} WalkMeans(prefix: seq<Byte>, pos: nat, left: nat)
    requires 2 <= pos <= |prefix| && WalkFrom(prefix, pos, left).Some?
    ensures left > 0
    ensures var index := WalkFrom(prefix, pos, left).value;
      pos + 30 <= index && index - 30 <= |prefix| && LeadingRun(prefix[pos..index - 30], left - 1) && ProfileAt(prefix, index - 30)
    decreases left
  {
    hide StepAt, ProfileAt, LeadingRun, HasSignature, MayLead;
    WalkStepIs(prefix, pos, left);
    StepIs(prefix, pos, |prefix|);
    var step := StepAt(prefix, pos);
    if step.Found? {
      EmptyRun(left - 1);
      assert prefix[pos..pos] == [];
    } else {
      SkipStays(prefix, step.next, left - 1);
      WalkMeans(prefix, step.next, left - 1);
      var at := WalkFrom(prefix, step.next, left - 1).value - 30;
      RunGrows(prefix[pos..step.next], prefix[step.next..at], left - 2);
      TwoSlices(prefix, pos, step.next, at);
    }
  }

  lemma TwoSlices(s: seq<Byte>, a: nat, b: nat, c: nat)
    requires a <= b <= c <= |s|
    ensures s[a..b] + s[b..c] == s[a..c]
  {
  }

  lemma EmptyRun(count: nat)
    ensures LeadingRun([], count)
  {
  }

  lemma SkipStays(prefix: seq<Byte>, next: nat, left: nat)
    requires next >= 2 && WalkFrom(prefix, next, left).Some?
    ensures next <= |prefix|
  {
  }

  /** The profile is found at an index exactly when it stands there behind at most 16 whole leading segments. */
  lemma ProfileIsExact(prefix: seq<Byte>, index: nat)
    ensures ProfileIndex(prefix) == Some(index)
       <==> && 32 <= index && index - 30 <= |prefix| && prefix[..2] == [0xFF, 0xD8]
            && LeadingRun(prefix[2..index - 30], MAX_LEADING_SEGMENTS) && ProfileAt(prefix, index - 30)
  {
    hide WalkFrom, LeadingRun, ProfileAt;
    if ProfileIndex(prefix) == Some(index) {
      WalkMeans(prefix, 2, MAX_LEADING_SEGMENTS + 1);
    } else if 32 <= index && index - 30 <= |prefix| && prefix[..2] == [0xFF, 0xD8]
              && LeadingRun(prefix[2..index - 30], MAX_LEADING_SEGMENTS) && ProfileAt(prefix, index - 30) {
      WalkReaches(prefix, 2, prefix[2..index - 30], MAX_LEADING_SEGMENTS);
    }
  }

  // ----- What is accepted -----

  function U16(file: seq<Byte>, at: nat): nat
    requires at + 2 <= |file|
  {
    ReadBigEndian(file[at..at + 2])
  }

  function U32(file: seq<Byte>, at: nat): nat
    requires at + 4 <= |file|
  {
    ReadBigEndian(file[at..at + 4])
  }

  /**
    A file is read exactly when its first 66,386 bytes show a profile at no more than
    64 KiB of leading segments, the recorded number of bytes stands behind it, and the
    last of the recorded segments begins where it must; one recorded segment is none.
   */
  lemma AcceptedIs(file: seq<Byte>)
    ensures var prefix := file[..if |file| < SIGNATURE_PREFIX then |file| else SIGNATURE_PREFIX];
      Recovered(file).Ok? <==>
        && ProfileIndex(prefix).Some?
        && var lead := ProfileIndex(prefix).value - 32;
           && lead <= 65536 && 851 + lead <= |file|
           && 851 + lead + U32(file, lead + 738) <= |file|
           && var total := U16(file, lead + 736);
              total != 0 ==>
                var last := 2 + lead + (total - 1) * 65537;
                total >= 2 && last + 2 <= |file| && file[last] == 0xFF && file[last + 1] == 0xE2
  {
    hide ProfileIndex, ReadBigEndian, Unframed, SpanFault;
    var prefix := file[..if |file| < SIGNATURE_PREFIX then |file| else SIGNATURE_PREFIX];
    var profile := ProfileIndex(prefix);
    if profile.Some? {
      ProfileIsLate(prefix, profile.value);
      var lead := profile.value - 32;
      if lead <= 65536 && 851 + lead <= |file| {
        SpanIsExact(file, lead, U32(file, lead + 738), U16(file, lead + 736));
      }
    }
  }

  lemma ProfileIsLate(prefix: seq<Byte>, index: nat)
    requires ProfileIndex(prefix) == Some(index)
    ensures index >= 32
  {
    hide ProfileIndex, LeadingRun, ProfileAt;
    ProfileIsExact(prefix, index);
  }

  lemma SpanIsExact(file: seq<Byte>, lead: nat, embedded: nat, total: nat)
    requires 851 + lead <= |file|
    ensures SpanFault(file, lead + 24, embedded, total).None? <==>
      && 851 + lead + embedded <= |file|
      && (total != 0 ==>
            var last := 2 + lead + (total - 1) * 65537;
            total >= 2 && last + 2 <= |file| && file[last] == 0xFF && file[last + 1] == 0xE2)
  {
    if total >= 2 {
      var last := 2 + lead + (total - 1) * STRIDE;
      assert last >= 2;
      if last + 2 <= |file| { PairIs(file, last); }
    }
  }

  lemma PairIs(file: seq<Byte>, at: nat)
    requires at + 2 <= |file|
    ensures file[at..at + 2] == [0xFF, 0xE2] <==> file[at] == 0xFF && file[at + 1] == 0xE2
  {
  }

  // ----- Cut short -----

  /** A profile found in a file cut short is the one found in the whole file. */
  lemma CutFinds(file: seq<Byte>, cut: nat, index: nat)
    requires cut <= |file|
    requires ProfileIndex(file[..if cut < SIGNATURE_PREFIX then cut else SIGNATURE_PREFIX]) == Some(index)
    ensures ProfileIndex(file[..if |file| < SIGNATURE_PREFIX then |file| else SIGNATURE_PREFIX]) == Some(index)
  {
    hide ProfileIndex, LeadingRun, ProfileAt;
    var n := if cut < SIGNATURE_PREFIX then cut else SIGNATURE_PREFIX;
    var m := if |file| < SIGNATURE_PREFIX then |file| else SIGNATURE_PREFIX;
    ProfileIsExact(file[..n], index);
    PrefixSlice(file, n, 0, 2);
    PrefixSlice(file, m, 0, 2);
    PrefixSlice(file, n, 2, index - 32);
    PrefixSlice(file, m, 2, index - 32);
    ProfileCarriesOver(file, n, m, index - 30);
    assert file[..n][..2] == file[..n][0..2] && file[..m][..2] == file[..m][0..2];
    ProfileIsExact(file[..m], index);
  }

  lemma ProfileCarriesOver(file: seq<Byte>, n: nat, m: nat, pos: nat)
    requires n <= m <= |file| && ProfileAt(file[..n], pos)
    ensures n >= 2 && ProfileAt(file[..m], pos)
  {
    var first, second := pos - 2 + ICC_SIG_INDEX, pos - 2 + JDVRIF_SIG_INDEX;
    PrefixSlice(file, n, first, 7);
    PrefixSlice(file, m, first, 7);
    PrefixSlice(file, n, second, 7);
    PrefixSlice(file, m, second, 7);
  }

  /** The written segments cut short anywhere are refused. */
  lemma CutIsRefused(template: seq<Byte>, layout: Layout, leading: seq<Byte>, encrypted: seq<Byte>, cut: nat)
    requires TemplateOk(template) && LayoutOf(TEMPLATE_BYTES, |encrypted|) == Ok(layout)
    requires LeadingRun(leading, MAX_LEADING_SEGMENTS) && |leading| <= MAX_LEADING_BYTES
    requires cut < |IccPart(Filled(template, layout), layout, leading, encrypted)|
    ensures Recovered(IccPart(Filled(template, layout), layout, leading, encrypted)[..cut]).Err?
  {
    hide Filled, IccPart, Tail, Shaped, LayoutOf, LeadingRun, ProfileIndex, ReadBigEndian, HasSignature, Recovered, Unframed;
    var f := Filled(template, layout);
    var file := IccPart(f, layout, leading, encrypted);
    assert file + [] == file;
    FilledFields(template, layout, |encrypted|);
    PartIsShaped(f, layout, leading, encrypted, []);
    ProfileIsFound(file, f, leading, Tail(layout, encrypted));
    FieldAt(file, f, leading, Tail(layout, encrypted), FILE_SIZE_INDEX, 4);
    var short := file[..cut];
    AcceptedIs(short);
    if Recovered(short).Ok? {
      var n := if cut < SIGNATURE_PREFIX then cut else SIGNATURE_PREFIX;
      assert short[..n] == file[..n];
      CutFinds(file, cut, ProfileIndex(short[..n]).value);
      PrefixSlice(file, cut, FILE_SIZE_INDEX + |leading|, 4);
    }
  }

  // ----- The profile's own size -----

  /** With one segment, the profile's recorded size counts from its first byte to the end of what is written. */
  lemma ProfileSizeIsTrue(template: seq<Byte>, layout: Layout, leading: seq<Byte>, encrypted: seq<Byte>)
    requires TemplateOk(template) && LayoutOf(TEMPLATE_BYTES, |encrypted|) == Ok(layout) && layout.Single?
    ensures var part := IccPart(Filled(template, layout), layout, leading, encrypted);
      && 24 + |leading| <= |part| && 20 + |leading| + U16(part, 22 + |leading|) == |part|
  {
    hide Filled, IccPart, Tail, Shaped, LayoutOf, ReadBigEndian, HasSignature, BigEndian;
    var f := Filled(template, layout);
    var part := IccPart(f, layout, leading, encrypted);
    assert part + [] == part;
    FilledFields(template, layout, |encrypted|);
    PartIsShaped(f, layout, leading, encrypted, []);
    FieldAt(part, f, leading, Tail(layout, encrypted), PROFILE_SIZE_INDEX, 2);
    FilledProfile(template, layout);
    FieldsFit(layout, |encrypted|);
    FieldRoundTrip(layout.size - 20, 2);
  }

  lemma FilledProfile(t: seq<Byte>, layout: Layout)
    requires |t| == TEMPLATE_BYTES && layout.Single? && layout.size >= TEMPLATE_BYTES
    ensures Filled(t, layout)[PROFILE_SIZE_INDEX..PROFILE_SIZE_INDEX + 2] == BigEndian(layout.size - 20, 2)
  {
    hide WithField, BigEndian;
    var a := WithField(t, SEGMENT_SIZE_INDEX, BigEndian(layout.size - 4, 2));
    var b := WithField(a, PROFILE_SIZE_INDEX, BigEndian(layout.size - 20, 2));
    WithFieldElsewhere(b, FILE_SIZE_INDEX, BigEndian(layout.size - TEMPLATE_BYTES, 4), PROFILE_SIZE_INDEX, 2);
  }
}
