/**
  The default layout's writer: a template and the encrypted file, either in the
  template's own ICC segment or spread over as many segments as it takes.
 */
module IccSegments {
  import opened Results
  import opened Bytes
  import opened OutputLog

  const SEGMENT_DATA: nat := 65519
  const HEADER_BYTES: nat := 18
  const STRIDE: nat := 65537
  const INITIAL_HEADER_BYTES: nat := 20
  const TEMPLATE_BYTES: nat := 851
  const MAX_SEGMENTS: nat := 65535
  const MAX_USIZE: nat := 0xFFFF_FFFF_FFFF_FFFF

  const SEGMENT_SIZE_INDEX: nat := 4
  const PROFILE_SIZE_INDEX: nat := 22
  const TOTAL_INDEX: nat := 0x2E0
  const FILE_SIZE_INDEX: nat := 0x2E2

  datatype LayoutError = CorruptTemplate | SizeOverflow | TooManySegments | FieldError | PayloadMismatch

  // ----- Fields -----

  /** Fails on a field out of range, too wide a value, or an unsupported length. */
  method UpdateValue(data: array<Byte>, index: nat, value: nat, length: nat) returns (ok: bool)
    modifies data
    ensures ok <==> index + length <= data.Length && (length == 2 || length == 4 || length == 8) && value < Pow256(length)
    ensures ok ==> data[..] == WithField(old(data[..]), index, BigEndian(value, length))
    ensures !ok ==> data[..] == old(data[..])
  {
    if index > data.Length || length > data.Length - index {
      return false;
    }
    if !(length == 2 || length == 4 || length == 8) || value >= Pow256(length) {
      return false;
    }
    ghost var before := data[..];
    var field := BigEndian(value, length);
    hide BigEndian, Pow256;
    forall i | 0 <= i < length {
      data[index + i] := field[i];
    }
    assert data[..] == before[..index] + field + before[index + length..];
    return true;
  }

  // ----- The layout -----

  datatype Layout = Single(size: nat) | Multi(payload: nat, segments: nat, size: nat)

  /** Segments for a payload: division rounding up. */
  function SegmentsFor(payload: nat): nat {
    (payload + SEGMENT_DATA - 1) / SEGMENT_DATA
  }

  function LayoutOf(templateSize: nat, encryptedSize: nat): Result<Layout, LayoutError> {
    if templateSize < INITIAL_HEADER_BYTES then Err(CorruptTemplate)
    else if templateSize + encryptedSize > MAX_USIZE then Err(SizeOverflow)
    else if templateSize + encryptedSize <= SEGMENT_DATA + INITIAL_HEADER_BYTES then Ok(Single(templateSize + encryptedSize))
    else
      var payload := templateSize - INITIAL_HEADER_BYTES + encryptedSize;
      var segments := SegmentsFor(payload);
      if segments == 0 || segments > MAX_SEGMENTS then Err(TooManySegments)
      else Ok(Multi(payload, segments, segments * HEADER_BYTES + payload + 2))
  }

  /** With the real template: one segment up to 64688 encrypted bytes, several up to 65535 segments' worth. */
  lemma LayoutAccepts(encryptedSize: nat)
    ensures LayoutOf(TEMPLATE_BYTES, encryptedSize).Ok?
       <==> encryptedSize <= MAX_SEGMENTS * SEGMENT_DATA - (TEMPLATE_BYTES - INITIAL_HEADER_BYTES)
    ensures LayoutOf(TEMPLATE_BYTES, encryptedSize).Ok? ==>
      var layout := LayoutOf(TEMPLATE_BYTES, encryptedSize).value;
      && (layout.Single? <==> encryptedSize <= 64688)
      && TEMPLATE_BYTES <= layout.size < 0x1_0000_0000 + TEMPLATE_BYTES
      && (layout.Multi? ==> layout.segments >= 2 && (layout.segments - 1) * SEGMENT_DATA < layout.payload <= layout.segments * SEGMENT_DATA)
  {
  }

  // ----- Framing -----

  /** FF E2, the length, "ICC_PROFILE", the segment's number. */
  function IccHeader(length: nat, index: nat): (h: seq<Byte>)
    requires length < 0x1_0000
    ensures |h| == HEADER_BYTES && h[..2] == [0xFF, 0xE2]
  {
    [0xFF, 0xE2, length / 256, length % 256, 73, 67, 67, 95, 80, 82, 79, 70, 73, 76, 69, (index / 256) % 256, index % 256, 1]
  }

  function ChunkOf(payload: seq<Byte>): nat {
    if |payload| < SEGMENT_DATA then |payload| else SEGMENT_DATA
  }

  /** The payload cut into segments, each behind its header, numbered from `index`. */
  function Framed(payload: seq<Byte>, index: nat): (bytes: seq<Byte>) {
    if payload == [] then []
    else IccHeader(ChunkOf(payload) + 16, index) + payload[..ChunkOf(payload)] + Framed(payload[ChunkOf(payload)..], index + 1)
  }

  lemma {:induction false} FramedLength(payload: seq<Byte>, index: nat)
    ensures |Framed(payload, index)| == |payload| + HEADER_BYTES * SegmentsFor(|payload|)
  {
    if payload != [] { FramedLength(payload[ChunkOf(payload)..], index + 1); }
  }

  /** Header number k sits 65537 bytes after the one before it. */
  lemma {:induction false} HeaderAt(payload: seq<Byte>, index: nat, k: nat)
    requires k * SEGMENT_DATA < |payload|
    ensures k * STRIDE + 2 <= |Framed(payload, index)|
    ensures Framed(payload, index)[k * STRIDE..k * STRIDE + 2] == [0xFF, 0xE2]
  {
    var c, rest := ChunkOf(payload), payload[ChunkOf(payload)..];
    var header := IccHeader(c + 16, index);
    var front := header + payload[..c];
    assert Framed(payload, index) == front + Framed(rest, index + 1);
    if k == 0 {
      assert Framed(payload, index)[..2] == header[..2];
    } else {
      HeaderAt(rest, index + 1, k - 1);
      assert |front| == STRIDE;
      var at := (k - 1) * STRIDE;
      assert (front + Framed(rest, index + 1))[STRIDE + at..STRIDE + at + 2] == Framed(rest, index + 1)[at..at + 2];
    }
  }

  // ----- Writing -----

  /** The template with the fields the writer fills in. */
  function Filled(template: seq<Byte>, layout: Layout): (t: seq<Byte>)
    requires |template| == TEMPLATE_BYTES
    ensures |t| == TEMPLATE_BYTES
  {
    match layout
    case Single(size) =>
      var a := WithField(template, SEGMENT_SIZE_INDEX, BigEndian(if size < 4 then 0 else size - 4, 2));
      var b := WithField(a, PROFILE_SIZE_INDEX, BigEndian(if size < 20 then 0 else size - 20, 2));
      WithField(b, FILE_SIZE_INDEX, BigEndian(if size < TEMPLATE_BYTES then 0 else size - TEMPLATE_BYTES, 4))
    case Multi(_, segments, size) =>
      var a := WithField(template, TOTAL_INDEX, BigEndian(segments, 2));
      WithField(a, FILE_SIZE_INDEX, BigEndian(if size < TEMPLATE_BYTES then 0 else size - TEMPLATE_BYTES, 4))
  }

  /** What is written before the cover. */
  function IccPart(filled: seq<Byte>, layout: Layout, leading: seq<Byte>, encrypted: seq<Byte>): seq<Byte>
    requires |filled| == TEMPLATE_BYTES
  {
    if layout.Single? then filled[..2] + leading + filled[2..] + encrypted
    else filled[..2] + leading + Framed(filled[INITIAL_HEADER_BYTES..] + encrypted, 1)
  }

  lemma FieldsFit(layout: Layout, encryptedSize: nat)
    requires LayoutOf(TEMPLATE_BYTES, encryptedSize) == Ok(layout)
    ensures Pow256(2) == 0x1_0000 && Pow256(4) == 0x1_0000_0000
    ensures layout.size >= TEMPLATE_BYTES && layout.size - TEMPLATE_BYTES < Pow256(4)
    ensures layout.Single? ==> layout.size - 4 < Pow256(2)
    ensures layout.Multi? ==> layout.segments < Pow256(2)
  {
    LayoutAccepts(encryptedSize);
    assert Pow256(3) == 0x100_0000;
  }

  /** The segment loop. */
  method WriteSegments(out: OutputFile, source: PayloadSource, payloadSize: nat, segments: nat) returns (complete: bool)
    requires out.Valid() && source.Valid() && |source.Rest()| == payloadSize && segments == SegmentsFor(payloadSize)
    modifies source, out`file, out`fill, out.buffer
    ensures out.Valid() && complete
    ensures out.Contents() == old(out.Contents()) + Framed(old(source.Rest()), 1)
  {
    hide OutputFile.Contents, PayloadSource.Rest, IccHeader;
    ghost var goal := out.Contents() + Framed(source.Rest(), 1);
    var left := payloadSize;
    var seg := 1;
    while seg <= segments
      invariant 1 <= seg <= segments + 1
      invariant out.Valid() && source.Valid()
      invariant left == |source.Rest()| && SegmentsFor(left) == segments + 1 - seg
      invariant out.Contents() + Framed(source.Rest(), seg) == goal
    {
      var size := if left < SEGMENT_DATA then left else SEGMENT_DATA;
      ghost var before, rest := out.Contents(), source.Rest();
      out.Write(IccHeader(size + 16, seg));
      var copied := source.CopyTo(out, size);
      SegmentWritten(before, rest, seg);
      left := left - size;
      seg := seg + 1;
    }
    assert left == 0;
    var exhausted := source.Exhausted();
    complete := left == 0 && exhausted;
  }

  lemma SegmentWritten(before: seq<Byte>, rest: seq<Byte>, seg: nat)
    requires rest != []
    ensures before + IccHeader(ChunkOf(rest) + 16, seg) + rest[..ChunkOf(rest)] + Framed(rest[ChunkOf(rest)..], seg + 1)
         == before + Framed(rest, seg)
  {
    var c := ChunkOf(rest);
    var header := IccHeader(c + 16, seg);
    hide IccHeader;
    assert before + header + rest[..c] + Framed(rest[c..], seg + 1) == before + (header + rest[..c] + Framed(rest[c..], seg + 1));
  }

  // ----- Following the markers -----

  /** Where a reader comes to that follows `k` length fields from `start` on. */
  function Walked(file: seq<Byte>, start: nat, k: nat): Option<nat> {
    if k == 0 then Some(start)
    else
      var before := Walked(file, start, k - 1);
      if before.None? || before.value + 4 > |file| then None
      else Some(before.value + 2 + ReadBigEndian(file[before.value + 2..before.value + 4]))
  }

  /** What stands at a segment's start: marker, length, the identifier, and the segment's number in 16 bits. */
  ghost predicate SegmentHead(file: seq<Byte>, at: nat, length: nat, number: nat) {
    && at + HEADER_BYTES <= |file|
    && file[at..at + 2] == [0xFF, 0xE2]
    && file[at + 2..at + 4] == BigEndian(length, 2)
    && file[at + 4..at + 15] == [73, 67, 67, 95, 80, 82, 79, 70, 73, 76, 69]
    && file[at + 15..at + 17] == BigEndian(number, 2)
    && file[at + 17] == 1
  }

  /** The data of segment `k`, and its length with the 16 bytes that are counted of its header. */
  function LengthOf(payload: nat, k: nat): nat {
    16 + if payload < (k + 1) * SEGMENT_DATA then (if payload < k * SEGMENT_DATA then 0 else payload - k * SEGMENT_DATA) else SEGMENT_DATA
  }

  lemma HeadOf(length: nat, number: nat)
    requires length < 0x1_0000 && number < 0x1_0000
    ensures SegmentHead(IccHeader(length, number), 0, length, number)
  {
    var h := IccHeader(length, number);
    TwoBytes(length, length / 256, length % 256);
    TwoBytes(number, number / 256, number % 256);
    assert h[0..2] == [0xFF, 0xE2] && h[2..4] == [length / 256, length % 256];
    assert h[4..15] == [73, 67, 67, 95, 80, 82, 79, 70, 73, 76, 69];
    assert h[15..17] == [number / 256, number % 256];
  }

  lemma HeadInside(front: seq<Byte>, file: seq<Byte>, rest: seq<Byte>, at: nat, length: nat, number: nat)
    requires SegmentHead(file, at, length, number)
    ensures SegmentHead(front + file + rest, |front| + at, length, number)
  {
    var whole := front + file + rest;
    var a := |front| + at;
    SliceInside(front, file, rest, at, 2);
    SliceInside(front, file, rest, at + 2, 2);
    SliceInside(front, file, rest, at + 4, 11);
    SliceInside(front, file, rest, at + 15, 2);
    assert whole[a + 17] == file[at + 17];
  }

  lemma SliceInside(front: seq<Byte>, file: seq<Byte>, rest: seq<Byte>, at: nat, n: nat)
    requires at + n <= |file|
    ensures (front + file + rest)[|front| + at..|front| + at + n] == file[at..at + n]
  {
  }

  /** Header `k` of the framed payload, 65,537 bytes behind the one before it. */
  lemma {:induction false} HeadAt(payload: seq<Byte>, index: nat, k: nat)
    requires k * SEGMENT_DATA < |payload| && index + k < 0x1_0000
    ensures SegmentHead(Framed(payload, index), k * STRIDE, LengthOf(|payload|, k), index + k)
  {
    hide SegmentHead, IccHeader, BigEndian;
    var c, rest := ChunkOf(payload), payload[ChunkOf(payload)..];
    var header := IccHeader(c + 16, index);
    FramedIs(payload, index);
    if k == 0 {
      HeadOf(c + 16, index);
      HeadInside([], header, payload[..c] + Framed(rest, index + 1), 0, c + 16, index);
      JoinedFirst(header, payload[..c], Framed(rest, index + 1));
    } else {
      HeadAt(rest, index + 1, k - 1);
      HeadInside(header + payload[..c], Framed(rest, index + 1), [], (k - 1) * STRIDE, LengthOf(|rest|, k - 1), index + k);
      JoinedLast(header + payload[..c], Framed(rest, index + 1));
    }
  }

  lemma FramedIs(payload: seq<Byte>, index: nat)
    requires payload != []
    ensures var c := ChunkOf(payload);
      c > 0 && Framed(payload, index) == IccHeader(c + 16, index) + payload[..c] + Framed(payload[c..], index + 1)
  {
    hide IccHeader;
  }

  lemma JoinedFirst(a: seq<Byte>, b: seq<Byte>, c: seq<Byte>)
    ensures [] + a + (b + c) == a + b + c
  {
  }

  lemma JoinedLast(a: seq<Byte>, b: seq<Byte>)
    ensures a + b + [] == a + b
  {
  }

  /** The segments from `start` on: each where the lengths before it lead, the last one ending with the file. */
  ghost predicate Chained(file: seq<Byte>, start: nat, n: nat) {
    && n >= 1
    && (forall k :: 0 <= k < n ==> Walked(file, start, k) == Some(start + k * STRIDE))
    && Walked(file, start, n) == Some(|file|)
  }

  /** Every segment with its head. */
  ghost predicate Headed(file: seq<Byte>, start: nat, n: nat, payload: nat) {
    forall k :: 0 <= k < n ==> SegmentHead(file, start + k * STRIDE, LengthOf(payload, k), k + 1)
  }

  lemma {:induction false} FramedWalk(front: seq<Byte>, payload: seq<Byte>, n: nat, k: nat)
    requires n == SegmentsFor(|payload|) < 0x1_0000 && k <= n && payload != []
    requires Headed(front + Framed(payload, 1), |front|, n, |payload|)
    ensures Walked(front + Framed(payload, 1), |front|, k)
         == Some(if k < n then |front| + k * STRIDE else |front| + |payload| + HEADER_BYTES * n)
  {
    hide SegmentHead, Framed, BigEndian, ReadBigEndian;
    if k > 0 {
      FramedWalk(front, payload, n, k - 1);
      assert SegmentHead(front + Framed(payload, 1), |front| + (k - 1) * STRIDE, LengthOf(|payload|, k - 1), k);
      HeadLength(front + Framed(payload, 1), |front| + (k - 1) * STRIDE, LengthOf(|payload|, k - 1), k);
    }
  }

  lemma HeadLength(file: seq<Byte>, at: nat, length: nat, number: nat)
    requires SegmentHead(file, at, length, number) && length < 0x1_0000
    ensures at + 4 <= |file| && ReadBigEndian(file[at + 2..at + 4]) == length
  {
    assert Pow256(2) == 0x1_0000;
    FieldRoundTrip(length, 2);
  }

  lemma FramedIsHeaded(front: seq<Byte>, payload: seq<Byte>, n: nat)
    requires n == SegmentsFor(|payload|) < 0x1_0000
    ensures Headed(front + Framed(payload, 1), |front|, n, |payload|)
  {
    hide SegmentHead, Framed, BigEndian, LengthOf;
    forall k | 0 <= k < n
      ensures SegmentHead(front + Framed(payload, 1), |front| + k * STRIDE, LengthOf(|payload|, k), k + 1)
    {
      HeadAt(payload, 1, k);
      HeadInside(front, Framed(payload, 1), [], k * STRIDE, LengthOf(|payload|, k), k + 1);
      JoinedLast(front + Framed(payload, 1), []);
      assert front + Framed(payload, 1) + [] == front + Framed(payload, 1);
    }
  }

  /** How many segments carry the profile. */
  function SegmentCount(layout: Layout): nat {
    if layout.Multi? then layout.segments else 1
  }

  /** The length fields lead from the first segment through every other to the end of what was written. */
  lemma PartIsChained(template: seq<Byte>, layout: Layout, leading: seq<Byte>, encrypted: seq<Byte>)
    requires |template| == TEMPLATE_BYTES && LayoutOf(TEMPLATE_BYTES, |encrypted|) == Ok(layout)
    ensures var part := IccPart(Filled(template, layout), layout, leading, encrypted);
      && Chained(part, 2 + |leading|, SegmentCount(layout))
      && (layout.Multi? ==> Headed(part, 2 + |leading|, layout.segments, layout.payload))
  {
    hide BigEndian, ReadBigEndian, LayoutOf, Filled, Framed, Pow256, SegmentHead, LengthOf;
    FieldsFit(layout, |encrypted|);
    LayoutAccepts(|encrypted|);
    LayoutPayload(|encrypted|, layout);
    var filled := Filled(template, layout);
    if layout.Single? {
      FirstSegmentField(template, layout, leading, encrypted);
      FieldRoundTrip(FirstSegment(layout), 2);
      OneSegment(IccPart(filled, layout, leading, encrypted), 2 + |leading|, FirstSegment(layout));
    } else {
      var front, payload := filled[..2] + leading, filled[INITIAL_HEADER_BYTES..] + encrypted;
      FramedIsHeaded(front, payload, layout.segments);
      FramedLength(payload, 1);
      forall k | 0 <= k <= layout.segments
        ensures Walked(front + Framed(payload, 1), |front|, k)
             == Some(if k < layout.segments then |front| + k * STRIDE else |front + Framed(payload, 1)|)
      {
        FramedWalk(front, payload, layout.segments, k);
      }
    }
  }

  lemma OneSegment(file: seq<Byte>, start: nat, length: nat)
    requires start + 4 <= |file| && ReadBigEndian(file[start + 2..start + 4]) == length && start + 2 + length == |file|
    ensures Chained(file, start, 1)
  {
    hide ReadBigEndian;
    assert Walked(file, start, 0) == Some(start);
  }

  lemma LayoutPayload(encryptedSize: nat, layout: Layout)
    requires LayoutOf(TEMPLATE_BYTES, encryptedSize) == Ok(layout)
    ensures layout.Single? ==> layout.size == TEMPLATE_BYTES + encryptedSize
    ensures layout.Multi? ==>
      && layout.payload == TEMPLATE_BYTES - INITIAL_HEADER_BYTES + encryptedSize
      && layout.segments == SegmentsFor(layout.payload)
  {
  }

  /** The identifier's closing zero byte is the high byte of the number: only the first 255 segments have it. */
  lemma ZeroByteOnlyEarly(file: seq<Byte>, at: nat, length: nat, number: nat)
    requires SegmentHead(file, at, length, number) && number < 0x1_0000
    ensures file[at + 15] == 0 <==> number < 256
  {
    TwoBytes(number, number / 256, number % 256);
    assert file[at + 15] == file[at + 15..at + 17][0];
  }

  // ----- What the writer reports -----

  /** The length of the first segment, without its marker. */
  function FirstSegment(layout: Layout): nat {
    if layout.Single? then (if layout.size < 4 then 0 else layout.size - 4)
    else (if layout.payload < SEGMENT_DATA then layout.payload else SEGMENT_DATA) + 16
  }

  /** It fits 16 bits, and it is what stands in the first segment's length field. */
  lemma FirstSegmentField(template: seq<Byte>, layout: Layout, leading: seq<Byte>, encrypted: seq<Byte>)
    requires |template| == TEMPLATE_BYTES && LayoutOf(TEMPLATE_BYTES, |encrypted|) == Ok(layout)
    ensures FirstSegment(layout) < 0x1_0000
    ensures var part := IccPart(Filled(template, layout), layout, leading, encrypted);
      |leading| + 6 <= |part| && part[|leading| + 4..|leading| + 6] == BigEndian(FirstSegment(layout), 2)
  {
    hide BigEndian, LayoutOf, Filled, Framed, Pow256;
    FieldsFit(layout, |encrypted|);
    LayoutAccepts(|encrypted|);
    var filled := Filled(template, layout);
    if layout.Single? {
      FilledLength(template, layout);
      LengthInSingle(filled, leading, encrypted);
    } else {
      LengthInFirst(filled[..2] + leading, filled[INITIAL_HEADER_BYTES..] + encrypted);
    }
  }

  lemma FilledLength(template: seq<Byte>, layout: Layout)
    requires |template| == TEMPLATE_BYTES && layout.Single?
    ensures Filled(template, layout)[4..6] == BigEndian(FirstSegment(layout), 2)
  {
    hide BigEndian, WithField;
    var a := WithField(template, SEGMENT_SIZE_INDEX, BigEndian(if layout.size < 4 then 0 else layout.size - 4, 2));
    var profile := BigEndian(if layout.size < 20 then 0 else layout.size - 20, 2);
    WithFieldElsewhere(a, PROFILE_SIZE_INDEX, profile, 4, 2);
    WithFieldElsewhere(WithField(a, PROFILE_SIZE_INDEX, profile), FILE_SIZE_INDEX,
                       BigEndian(if layout.size < TEMPLATE_BYTES then 0 else layout.size - TEMPLATE_BYTES, 4), 4, 2);
  }

  lemma LengthInSingle(filled: seq<Byte>, leading: seq<Byte>, encrypted: seq<Byte>)
    requires |filled| == TEMPLATE_BYTES
    ensures (filled[..2] + leading + filled[2..] + encrypted)[|leading| + 4..|leading| + 6] == filled[4..6]
  {
  }

  lemma LengthInFirst(front: seq<Byte>, payload: seq<Byte>)
    requires payload != []
    ensures |front| + 4 <= |front + Framed(payload, 1)|
    ensures (front + Framed(payload, 1))[|front| + 2..|front| + 4] == BigEndian(ChunkOf(payload) + 16, 2)
  {
    HeaderLength(ChunkOf(payload) + 16);
    hide IccHeader, BigEndian;
    var header := IccHeader(ChunkOf(payload) + 16, 1);
    var rest := payload[..ChunkOf(payload)] + Framed(payload[ChunkOf(payload)..], 2);
    assert Framed(payload, 1) == header + rest;
    assert (front + (header + rest))[|front| + 2..|front| + 4] == header[2..4];
  }

  lemma HeaderLength(length: nat)
    requires length < 0x1_0000
    ensures IccHeader(length, 1)[2..4] == BigEndian(length, 2)
  {
    var high, low := length / 256, length % 256;
    TwoBytes(length, high, low);
    assert IccHeader(length, 1)[2..4] == [high, low];
  }

  lemma TwoBytes(v: nat, high: Byte, low: Byte)
    requires v == high * 256 + low
    ensures BigEndian(v, 2) == [high, low]
  {
    assert v / 256 == high && v % 256 == low;
    assert BigEndian(high, 1) == BigEndian(0, 0) + [high];
    assert BigEndian(v, 2) == BigEndian(high, 1) + [low];
  }

  datatype Summary = Summary(imageSize: nat, firstSegment: nat, totalSegments: nat)

  /** Fills the template's fields in place. None of them can fail: every value fits. */
  method FillTemplate(template: array<Byte>, layout: Layout, ghost encryptedSize: nat) returns (ok: bool)
    requires template.Length == TEMPLATE_BYTES && LayoutOf(TEMPLATE_BYTES, encryptedSize) == Ok(layout)
    modifies template
    ensures ok && template[..] == Filled(old(template[..]), layout)
  {
    hide BigEndian, Pow256, LayoutOf, WithField;
    FieldsFit(layout, encryptedSize);
    if layout.Single? {
      var a := UpdateValue(template, SEGMENT_SIZE_INDEX, layout.size - 4, 2);
      var b := UpdateValue(template, PROFILE_SIZE_INDEX, layout.size - 20, 2);
      var c := UpdateValue(template, FILE_SIZE_INDEX, layout.size - TEMPLATE_BYTES, 4);
      return a && b && c;
    }
    var a := UpdateValue(template, TOTAL_INDEX, layout.segments, 2);
    var b := UpdateValue(template, FILE_SIZE_INDEX, layout.size - TEMPLATE_BYTES, 4);
    return a && b;
  }

  lemma Flatten(before: seq<Byte>, a: seq<Byte>, b: seq<Byte>, c: seq<Byte>, d: seq<Byte>)
    ensures before + a + b + c + d == before + (a + b + c + d)
    ensures before + a + b + c == before + (a + b + c)
  {
  }

  /** The template's SOI, the leading segments, then everything else in one or many segments. */
  method WriteParts(out: OutputFile, t: seq<Byte>, layout: Layout, leading: seq<Byte>, encrypted: seq<Byte>)
    returns (complete: bool)
    requires out.Valid() && |t| == TEMPLATE_BYTES && LayoutOf(TEMPLATE_BYTES, |encrypted|) == Ok(layout)
    modifies out`file, out`fill, out.buffer
    ensures out.Valid() && complete
    ensures out.Contents() == old(out.Contents()) + IccPart(t, layout, leading, encrypted)
  {
    LayoutAccepts(|encrypted|);
    ghost var before := out.Contents();
    hide Framed, OutputFile.Contents, PayloadSource.Rest;
    out.Write(t[..2]);
    out.Write(leading);
    if layout.Single? {
      out.Write(t[2..]);
      out.SendFrom(encrypted, 0, |encrypted|);
      assert encrypted[0..|encrypted|] == encrypted;
      Flatten(before, t[..2], leading, t[2..], encrypted);
      return true;
    }
    var source := new PayloadSource(t[INITIAL_HEADER_BYTES..], encrypted);
    complete := WriteSegments(out, source, layout.payload, layout.segments);
    Flatten(before, t[..2], leading, Framed(t[INITIAL_HEADER_BYTES..] + encrypted, 1), []);
  }

  /** Streams template and payload; fails exactly when there is no layout. */
  method WriteIccData(out: OutputFile, template: array<Byte>, encrypted: seq<Byte>, leading: seq<Byte>)
    returns (r: Result<Summary, LayoutError>)
    requires out.Valid() && template.Length == TEMPLATE_BYTES && template != out.buffer
    modifies template, out`file, out`fill, out.buffer
    ensures out.Valid()
    ensures r.Ok? <==> LayoutOf(TEMPLATE_BYTES, |encrypted|).Ok?
    ensures r.Ok? ==>
      var layout := LayoutOf(TEMPLATE_BYTES, |encrypted|).value;
      && |out.Contents()| >= |old(out.Contents())|
      && out.Contents() == old(out.Contents()) + IccPart(Filled(old(template[..]), layout), layout, leading, encrypted)
      && r.value.imageSize == layout.size
      && r.value.totalSegments == (if layout.Multi? then layout.segments else 0)
      && r.value.firstSegment < 0x1_0000
      && var part := IccPart(Filled(old(template[..]), layout), layout, leading, encrypted);
        |leading| + 6 <= |part| && part[|leading| + 4..|leading| + 6] == BigEndian(r.value.firstSegment, 2)
    ensures r.Ok? ==>
      var layout, part := LayoutOf(TEMPLATE_BYTES, |encrypted|).value, out.Contents()[|old(out.Contents())|..];
      && Chained(part, 2 + |leading|, SegmentCount(layout))
      && (layout.Multi? ==> Headed(part, 2 + |leading|, layout.segments, layout.payload))
    ensures r.Err? ==>
      && r.error == LayoutOf(TEMPLATE_BYTES, |encrypted|).error
      && out.Contents() == old(out.Contents()) && template[..] == old(template[..])
  {
    hide LayoutOf, Filled, IccPart, OutputFile.Contents, BigEndian;
    var laid := LayoutOf(template.Length, |encrypted|);
    if laid.Err? {
      return Err(laid.error);
    }
    var layout := laid.value;
    FirstSegmentField(template[..], layout, leading, encrypted);
    PartIsChained(template[..], layout, leading, encrypted);
    hide Chained, Headed;
    ghost var before := out.Contents();
    var filled := FillTemplate(template, layout, |encrypted|);
    if !filled {
      return Err(FieldError);
    }
    assert out.Contents() == before;
    var complete := WriteParts(out, template[..], layout, leading, encrypted);
    assert out.Contents()[|before|..] == IccPart(template[..], layout, leading, encrypted);
    if !complete {
      return Err(PayloadMismatch);
    }
    return Ok(Summary(layout.size, FirstSegment(layout), if layout.Multi? then layout.segments else 0));
  }
}
