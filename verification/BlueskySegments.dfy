/**
  The Bluesky writer: a ciphertext streamed in any cut into an EXIF segment, two
  Photoshop datasets and, beyond those, Base64 in an XMP segment.
 */
module BlueskySegments {
  import opened Results
  import opened Bytes
  import opened Base64

  const EXIF_LIMIT: nat := 65027
  const FIRST_LIMIT: nat := 32767
  const SECOND_LIMIT: nat := 32730
  const XMP_SEGMENT_LIMIT: nat := 60033
  const EXIF_INSERT: nat := 0x1D1
  const CIPHER_SIZE_INDEX: nat := 0x1CD
  const EXIF_SIZE_INDEX: nat := 4
  const ARTIST_SIZE_INDEX: nat := 0x4A
  const ARTIST_SIZE_DIFF: nat := 140
  const FIRST_SIZE_INDEX: nat := 0x21
  const SEGMENT_SIZE_INDEX: nat := 2
  const BIM_SIZE_INDEX: nat := 0x1C
  const BIM_SIZE_DIFF: nat := 28
  const EXIF_BYTES: nat := 511
  const PSHOP_BYTES: nat := 35
  const XMP_BYTES: nat := 313
  const FOOTER_BYTES: nat := 92
  const CAPACITY: nat := 175245

  datatype BuildError = TooLarge | CorruptStream | CorruptTemplate

  // ----- Layout -----

  datatype Layout = Layout(exif: nat, first: nat, second: nat, xmp: nat)

  function Min(a: nat, b: nat): nat {
    if a < b then a else b
  }

  /** Each part filled to its limit before the next is begun. */
  function LayoutFor(size: nat): (l: Layout)
    ensures l.exif + l.first + l.second + l.xmp == size
    ensures l.exif <= EXIF_LIMIT && l.first <= FIRST_LIMIT && l.second <= SECOND_LIMIT
    ensures l.first > 0 ==> l.exif == EXIF_LIMIT
    ensures l.second > 0 ==> l.first == FIRST_LIMIT
    ensures l.xmp > 0 ==> l.second == SECOND_LIMIT
  {
    var exif := Min(size, EXIF_LIMIT);
    var first := Min(FIRST_LIMIT, size - exif);
    var second := Min(SECOND_LIMIT, size - exif - first);
    Layout(exif, first, second, size - exif - first - second)
  }

  /** The reader's bound, computed from the XMP segment's limit. */
  function MaxCapacity(): nat {
    EXIF_LIMIT + FIRST_LIMIT + SECOND_LIMIT + (XMP_SEGMENT_LIMIT - (XMP_BYTES + FOOTER_BYTES)) / 4 * 3
  }

  /** The writer's own check, on the projected XMP segment. */
  predicate XmpFits(xmp: nat) {
    xmp > 0 ==> XMP_BYTES + (xmp + 2) / 3 * 4 + FOOTER_BYTES <= XMP_SEGMENT_LIMIT
  }

  /** The writer accepts a size exactly up to the reader's bound. */
  lemma CapacitiesAgree(size: nat)
    ensures MaxCapacity() == CAPACITY
    ensures XmpFits(LayoutFor(size).xmp) <==> size <= MaxCapacity()
  {
  }

  // ----- Templates -----

  datatype Templates = Templates(exif: seq<Byte>, pshop: seq<Byte>, xmp: seq<Byte>, footer: seq<Byte>) {
    /** Lengths, and the sizes the templates carry for full segments. */
    ghost predicate Valid() {
      && |exif| == EXIF_BYTES && |pshop| == PSHOP_BYTES && |xmp| == XMP_BYTES && |footer| == FOOTER_BYTES
      && exif[EXIF_SIZE_INDEX..EXIF_SIZE_INDEX + 2] == BigEndian(65534, 2)
      && exif[ARTIST_SIZE_INDEX..ARTIST_SIZE_INDEX + 4] == BigEndian(65394, 4)
      && pshop[FIRST_SIZE_INDEX..FIRST_SIZE_INDEX + 2] == BigEndian(FIRST_LIMIT, 2)
      && pshop[SEGMENT_SIZE_INDEX..SEGMENT_SIZE_INDEX + 2] == BigEndian(65535, 2)
      && pshop[BIM_SIZE_INDEX..BIM_SIZE_INDEX + 2] == BigEndian(65507, 2)
    }
  }

  // ----- The packed segments -----

  function ExifHead(t: Templates, size: nat): (e: seq<Byte>)
    requires |t.exif| == EXIF_BYTES
    ensures |e| == EXIF_BYTES
  {
    var sized := WithField(t.exif, CIPHER_SIZE_INDEX, BigEndian(size, 4));
    var data := Min(size, EXIF_LIMIT) + (EXIF_BYTES - 4);
    WithField(WithField(sized, ARTIST_SIZE_INDEX, BigEndian(data - ARTIST_SIZE_DIFF, 4)), EXIF_SIZE_INDEX, BigEndian(data, 2))
  }

  function Marker(second: nat): (m: seq<Byte>)
    ensures |m| == 5
  {
    [0x1C, 0x08, 0x0A] + BigEndian(second, 2)
  }

  /** The Photoshop segment's bytes for two datasets. */
  function PshopBody(t: Templates, first: seq<Byte>, second: seq<Byte>): (p: seq<Byte>)
    requires |t.pshop| == PSHOP_BYTES
    ensures |p| == PSHOP_BYTES + |first| + (if second == [] then 0 else 5 + |second|)
  {
    WithField(t.pshop, FIRST_SIZE_INDEX, BigEndian(|first|, 2)) + first
    + (if second == [] then [] else Marker(|second|) + second)
  }

  /** The same with its two segment sizes. */
  function PshopSegment(t: Templates, first: seq<Byte>, second: seq<Byte>): (p: seq<Byte>)
    requires |t.pshop| == PSHOP_BYTES && first != []
    ensures |p| == PSHOP_BYTES + |first| + (if second == [] then 0 else 5 + |second|)
  {
    var body := PshopBody(t, first, second);
    WithField(WithField(body, SEGMENT_SIZE_INDEX, BigEndian(|body| - 2, 2)), BIM_SIZE_INDEX, BigEndian(|body| - 2 - BIM_SIZE_DIFF, 2))
  }

  function XmpSegment(t: Templates, raw: seq<Byte>): (x: seq<Byte>)
    requires |t.xmp| == XMP_BYTES
    ensures |x| == XMP_BYTES + |Encode(raw)| + |t.footer|
  {
    var body := t.xmp + Encode(raw) + t.footer;
    WithField(body, SEGMENT_SIZE_INDEX, BigEndian(|body| - 2, 2))
  }

  /** Bytes `from`, ..., `from` + `size` - 1, as far as they are there. */
  function Part(data: seq<Byte>, from: nat, size: nat): (p: seq<Byte>)
    ensures |p| <= size && |p| == Min(|data|, from + size) - Min(|data|, from)
  {
    data[Min(|data|, from)..Min(|data|, from + size)]
  }

  /** Everything written in front of the cover. */
  function Packed(t: Templates, encrypted: seq<Byte>): seq<Byte>
    requires t.Valid()
  {
    var l := LayoutFor(|encrypted|);
    var head := ExifHead(t, |encrypted|);
    var first, second := Part(encrypted, l.exif, l.first), Part(encrypted, l.exif + l.first, l.second);
    var raw := Part(encrypted, l.exif + l.first + l.second, l.xmp);
    head[..EXIF_INSERT] + Part(encrypted, 0, l.exif) + head[EXIF_INSERT..]
    + (if l.xmp > 0 then XmpSegment(t, raw) else [])
    + (if l.first > 0 then PshopSegment(t, first, second) else [])
  }

  // ----- The builder -----

  /** A part grows by what is pushed into it, and no other part changes. */
  lemma PartGrows(given: seq<Byte>, more: seq<Byte>, from: nat, size: nat)
    ensures from <= |given| && |given| + |more| <= from + size ==> Part(given + more, from, size) == Part(given, from, size) + more
    ensures |given| + |more| <= from ==> Part(given + more, from, size) == Part(given, from, size)
    ensures |given| >= from + size ==> Part(given + more, from, size) == Part(given, from, size)
  {
    if |given| >= from + size {
      assert (given + more)[from..from + size] == given[from..from + size];
    } else if from <= |given| && |given| + |more| <= from + size {
      assert (given + more)[from..|given| + |more|] == given[from..] + more;
    }
  }

  /** Where the later parts begin in the ciphertext. */
  function SecondStart(l: Layout): nat { l.exif + l.first }

  function XmpStart(l: Layout): nat { l.exif + l.first + l.second }

  /** The Photoshop segment under construction: the second dataset's marker appears once the first is full. */
  ghost function PshopSoFar(t: Templates, l: Layout, data: seq<Byte>): seq<Byte>
    requires |t.pshop| == PSHOP_BYTES
  {
    WithField(t.pshop, FIRST_SIZE_INDEX, BigEndian(l.first, 2)) + Part(data, l.exif, l.first)
    + (if l.second > 0 && |data| >= SecondStart(l) then Marker(l.second) else [])
    + Part(data, SecondStart(l), l.second)
  }

  /** The state of the parts that are copied as they come. */
  datatype Parts = Parts(exifInsert: seq<Byte>, pshop: seq<Byte>, firstWritten: nat, secondWritten: nat, xmpWritten: nat,
                         markerAdded: bool) {
    ghost predicate Hold(t: Templates, l: Layout, data: seq<Byte>)
      requires |t.pshop| == PSHOP_BYTES
    {
      && exifInsert == Part(data, 0, l.exif)
      && firstWritten == |Part(data, l.exif, l.first)|
      && secondWritten == |Part(data, SecondStart(l), l.second)|
      && xmpWritten == |Part(data, XmpStart(l), l.xmp)|
      && pshop == PshopSoFar(t, l, data)
      && (markerAdded <==> l.second > 0 && |data| >= SecondStart(l))
    }
  }

  lemma EmptyPart(from: nat, size: nat)
    ensures Part([], from, size) == []
  {
  }

  lemma NothingHeld(t: Templates, l: Layout)
    requires |t.pshop| == PSHOP_BYTES && (l.second > 0 ==> l.first > 0)
    ensures Parts([], WithField(t.pshop, FIRST_SIZE_INDEX, BigEndian(l.first, 2)), 0, 0, 0, false).Hold(t, l, [])
    ensures Part([], XmpStart(l), l.xmp) == []
  {
    hide BigEndian, WithField, Part;
    EmptyPart(0, l.exif);
    EmptyPart(l.exif, l.first);
    EmptyPart(SecondStart(l), l.second);
    EmptyPart(XmpStart(l), l.xmp);
    var base := WithField(t.pshop, FIRST_SIZE_INDEX, BigEndian(l.first, 2));
    assert base + [] + [] + [] == base;
  }

  /** Bytes of the EXIF part. */
  lemma TakeExif(t: Templates, l: Layout, p: Parts, data: seq<Byte>, more: seq<Byte>)
    requires |t.pshop| == PSHOP_BYTES && p.Hold(t, l, data) && |data| + |more| <= l.exif
    requires l.second > 0 ==> l.first > 0
    ensures p.(exifInsert := p.exifInsert + more).Hold(t, l, data + more)
    ensures Part(data + more, XmpStart(l), l.xmp) == Part(data, XmpStart(l), l.xmp)
  {
    hide BigEndian, WithField, Part;
    PartGrows(data, more, 0, l.exif);
    PartGrows(data, more, l.exif, l.first);
    PartGrows(data, more, SecondStart(l), l.second);
    PartGrows(data, more, XmpStart(l), l.xmp);
  }

  /** Bytes of the first dataset; when it is full, the second one's marker. */
  lemma TakeFirst(t: Templates, l: Layout, p: Parts, data: seq<Byte>, more: seq<Byte>)
    requires |t.pshop| == PSHOP_BYTES && p.Hold(t, l, data)
    requires l.exif <= |data| < SecondStart(l) && |data| + |more| <= SecondStart(l)
    ensures !p.markerAdded
    ensures var full := |data| + |more| == SecondStart(l) && l.second > 0;
      p.(pshop := p.pshop + more + (if full then Marker(l.second) else []), firstWritten := p.firstWritten + |more|,
         markerAdded := full).Hold(t, l, data + more)
    ensures Part(data + more, XmpStart(l), l.xmp) == Part(data, XmpStart(l), l.xmp)
  {
    hide BigEndian, WithField, Marker;
    PartGrows(data, more, 0, l.exif);
    PartGrows(data, more, l.exif, l.first);
    PartGrows(data, more, SecondStart(l), l.second);
    PartGrows(data, more, XmpStart(l), l.xmp);
  }

  /** Bytes of the second dataset, behind its marker. */
  lemma TakeSecond(t: Templates, l: Layout, p: Parts, data: seq<Byte>, more: seq<Byte>)
    requires |t.pshop| == PSHOP_BYTES && p.Hold(t, l, data)
    requires SecondStart(l) <= |data| && |data| + |more| <= XmpStart(l) && l.second > 0
    ensures p.markerAdded
    ensures p.(pshop := p.pshop + more, secondWritten := p.secondWritten + |more|).Hold(t, l, data + more)
    ensures Part(data + more, XmpStart(l), l.xmp) == Part(data, XmpStart(l), l.xmp)
  {
    hide BigEndian, WithField, Marker, Part;
    PartGrows(data, more, 0, l.exif);
    PartGrows(data, more, l.exif, l.first);
    PartGrows(data, more, SecondStart(l), l.second);
    PartGrows(data, more, XmpStart(l), l.xmp);
  }

  /** Bytes for the XMP segment. */
  lemma TakeXmp(t: Templates, l: Layout, p: Parts, data: seq<Byte>, more: seq<Byte>)
    requires |t.pshop| == PSHOP_BYTES && p.Hold(t, l, data)
    requires XmpStart(l) <= |data| && |data| + |more| <= XmpStart(l) + l.xmp
    ensures p.(xmpWritten := p.xmpWritten + |more|).Hold(t, l, data + more)
    ensures Part(data + more, XmpStart(l), l.xmp) == Part(data, XmpStart(l), l.xmp) + more
  {
    hide BigEndian, WithField, Marker, Part;
    PartGrows(data, more, 0, l.exif);
    PartGrows(data, more, l.exif, l.first);
    PartGrows(data, more, SecondStart(l), l.second);
    PartGrows(data, more, XmpStart(l), l.xmp);
  }

  class Builder {
    const templates: Templates
    const size: nat
    const layout: Layout
    var head: seq<Byte>
    var written: nat
    var firstWritten: nat
    var secondWritten: nat
    var xmpWritten: nat
    var exifInsert: seq<Byte>
    var pshop: seq<Byte>
    const xmp: Encoder
    var markerAdded: bool
    ghost var given: seq<Byte>

    ghost function State(): Parts
      reads this
    {
      Parts(exifInsert, pshop, firstWritten, secondWritten, xmpWritten, markerAdded)
    }

    ghost predicate Fixed()
      reads this`head
    {
      templates.Valid() && |templates.pshop| == PSHOP_BYTES && layout == LayoutFor(size) && head == ExifHead(templates, size)
      && size <= MaxCapacity()
    }

    /** The fields hold exactly what was given so far, part by part. */
    ghost predicate Valid()
      reads this, xmp, xmp.carry
    {
      && Fixed()
      && |given| == written <= size
      && State().Hold(templates, layout, given)
      && xmp.Encodes(templates.xmp, Part(given, XmpStart(layout), layout.xmp))
    }

    constructor (templates: Templates, size: nat, head: seq<Byte>, pshop: seq<Byte>)
      requires templates.Valid() && head == ExifHead(templates, size) && size <= MaxCapacity()
      requires pshop == WithField(templates.pshop, FIRST_SIZE_INDEX, BigEndian(LayoutFor(size).first, 2))
      ensures Valid() && given == [] && fresh(xmp) && fresh(xmp.carry)
      ensures this.templates == templates && this.size == size
    {
      hide ExifHead, WithField, BigEndian, Encode, Encoder.Encodes, Parts.Hold, LayoutFor;
      this.templates, this.size, this.layout, this.head := templates, size, LayoutFor(size), head;
      written, firstWritten, secondWritten, xmpWritten := 0, 0, 0, 0;
      exifInsert, this.pshop, markerAdded := [], pshop, false;
      xmp := new Encoder(templates.xmp);
      given := [];
      new;
      NothingHeld(templates, layout);
    }

    method PushExif(input: seq<Byte>) returns (take: nat)
      requires Valid() && input != [] && |exifInsert| < layout.exif
      modifies this
      ensures Valid() && 1 <= take <= |input| && given == old(given) + input[..take]
    {
      hide ExifHead, Part, Parts.Hold, Encoder.Encodes, Templates.Valid;
      take := Min(|input|, layout.exif - |exifInsert|);
      HeldLengths(templates, layout, State(), given);
      TakeExif(templates, layout, State(), given, input[..take]);
      exifInsert := exifInsert + input[..take];
      written := written + take;
      given := given + input[..take];
    }

    method PushFirst(input: seq<Byte>) returns (take: nat)
      requires Valid() && input != [] && |exifInsert| == layout.exif && firstWritten < layout.first
      modifies this
      ensures Valid() && 1 <= take <= |input| && given == old(given) + input[..take]
    {
      hide ExifHead, Part, Parts.Hold, Encoder.Encodes, Templates.Valid, Marker;
      take := Min(|input|, layout.first - firstWritten);
      HeldLengths(templates, layout, State(), given);
      TakeFirst(templates, layout, State(), given, input[..take]);
      pshop := pshop + input[..take];
      firstWritten := firstWritten + take;
      if firstWritten == layout.first && layout.second > 0 && !markerAdded {
        pshop := pshop + Marker(layout.second);
        markerAdded := true;
      } else {
        assert pshop + [] == pshop;
      }
      written := written + take;
      given := given + input[..take];
    }

    method PushSecond(input: seq<Byte>) returns (take: nat)
      requires Valid() && input != [] && |exifInsert| == layout.exif && firstWritten == layout.first
      requires secondWritten < layout.second
      modifies this
      ensures Valid() && 1 <= take <= |input| && given == old(given) + input[..take]
    {
      hide ExifHead, Part, Parts.Hold, Encoder.Encodes, Templates.Valid, Marker;
      take := Min(|input|, layout.second - secondWritten);
      HeldLengths(templates, layout, State(), given);
      TakeSecond(templates, layout, State(), given, input[..take]);
      assert markerAdded;
      pshop := pshop + input[..take];
      secondWritten := secondWritten + take;
      written := written + take;
      given := given + input[..take];
    }

    method PushXmp(input: seq<Byte>) returns (take: nat)
      requires Valid() && input != [] && |exifInsert| == layout.exif && firstWritten == layout.first
      requires secondWritten == layout.second && written < size
      modifies this, xmp, xmp.carry
      ensures Valid() && 1 <= take <= |input| && given == old(given) + input[..take]
    {
      hide ExifHead, Part, Parts.Hold, Encoder.Encodes, Templates.Valid;
      HeldLengths(templates, layout, State(), given);
      take := Min(|input|, layout.xmp - xmpWritten);
      TakeXmp(templates, layout, State(), given, input[..take]);
      xmp.Push(input[..take], templates.xmp, Part(given, XmpStart(layout), layout.xmp));
      xmpWritten := xmpWritten + take;
      written := written + take;
      given := given + input[..take];
    }

    /** As many bytes as the part now being filled still takes. */
    method PushSome(input: seq<Byte>) returns (take: nat)
      requires Valid() && input != [] && written < size
      modifies this, xmp, xmp.carry
      ensures Valid() && 1 <= take <= |input| && given == old(given) + input[..take]
    {
      hide ExifHead, Part, Parts.Hold, Encoder.Encodes, Templates.Valid;
      HeldLengths(templates, layout, State(), given);
      if |exifInsert| < layout.exif {
        take := PushExif(input);
      } else if firstWritten < layout.first {
        take := PushFirst(input);
      } else if secondWritten < layout.second {
        take := PushSecond(input);
      } else {
        take := PushXmp(input);
      }
    }

    /** Takes any cut of the ciphertext; fails exactly on bytes past the announced size. */
    method Push(input: seq<Byte>) returns (r: Result<(), BuildError>)
      requires Valid()
      modifies this, xmp, xmp.carry
      ensures Valid()
      ensures r.Ok? <==> |old(given)| + |input| <= size
      ensures r.Ok? ==> given == old(given) + input
    {
      hide Fixed, Parts.Hold, Encoder.Encodes, Part;
      var done := 0;
      assert old(given) + input[..0] == old(given);
      while done < |input|
        invariant done <= |input| && Valid() && given == old(given) + input[..done]
      {
        if written >= size {
          return Err(CorruptStream);
        }
        var take := PushSome(input[done..]);
        CutFurther(old(given), input, done, take);
        done := done + take;
      }
      assert input[..done] == input;
      return Ok(());
    }
  }

  lemma CutFurther(given: seq<Byte>, input: seq<Byte>, done: nat, take: nat)
    requires done + take <= |input|
    ensures given + input[..done] + input[done..][..take] == given + input[..done + take]
  {
    assert input[..done] + input[done..][..take] == input[..done + take];
  }

  /** How much of each part is there, from how much was given. */
  lemma HeldLengths(t: Templates, l: Layout, p: Parts, data: seq<Byte>)
    requires |t.pshop| == PSHOP_BYTES && p.Hold(t, l, data)
    ensures |p.exifInsert| == Min(|data|, l.exif)
    ensures p.firstWritten == if |data| <= l.exif then 0 else Min(|data| - l.exif, l.first)
    ensures p.secondWritten == if |data| <= SecondStart(l) then 0 else Min(|data| - SecondStart(l), l.second)
    ensures p.xmpWritten == if |data| <= XmpStart(l) then 0 else Min(|data| - XmpStart(l), l.xmp)
  {
  }

  // ----- Opening the builder -----

  /** In a full EXIF segment the template's own sizes are the right ones. */
  lemma FullExifIsPrefilled(t: Templates, size: nat)
    requires t.Valid() && size > EXIF_LIMIT
    ensures var sized := WithField(t.exif, CIPHER_SIZE_INDEX, BigEndian(size, 4));
      && sized == ExifHead(t, size)
      && ReadBigEndian(sized[EXIF_SIZE_INDEX..EXIF_SIZE_INDEX + 2]) == 65534
      && ReadBigEndian(sized[ARTIST_SIZE_INDEX..ARTIST_SIZE_INDEX + 4]) == 65394
  {
    assert Pow256(2) == 0x1_0000 && Pow256(4) == 0x1_0000_0000;
    FieldRoundTrip(65534, 2);
    FieldRoundTrip(65394, 4);
    var field := BigEndian(size, 4);
    WithFieldElsewhere(t.exif, CIPHER_SIZE_INDEX, field, EXIF_SIZE_INDEX, 2);
    WithFieldElsewhere(t.exif, CIPHER_SIZE_INDEX, field, ARTIST_SIZE_INDEX, 4);
    hide BigEndian, ReadBigEndian, WithField, Pow256;
    var sized := WithField(t.exif, CIPHER_SIZE_INDEX, field);
    WithFieldSame(sized, ARTIST_SIZE_INDEX, BigEndian(65394, 4));
    WithFieldSame(sized, EXIF_SIZE_INDEX, BigEndian(65534, 2));
  }

  /** The EXIF sizes, written for a partial segment and only checked for a full one. */
  method MakeHead(t: Templates, size: nat) returns (r: Result<seq<Byte>, BuildError>)
    requires t.Valid()
    ensures r.Ok? <==> size < 0x1_0000_0000
    ensures r.Ok? ==> r.value == ExifHead(t, size)
  {
    if size >= 0x1_0000_0000 {
      return Err(TooLarge);
    }
    var sized := WithField(t.exif, CIPHER_SIZE_INDEX, BigEndian(size, 4));
    var data := Min(size, EXIF_LIMIT) + (EXIF_BYTES - 4);
    if size <= EXIF_LIMIT {
      var artist := WithField(sized, ARTIST_SIZE_INDEX, BigEndian(data - ARTIST_SIZE_DIFF, 4));
      return Ok(WithField(artist, EXIF_SIZE_INDEX, BigEndian(data, 2)));
    }
    FullExifIsPrefilled(t, size);
    if ReadBigEndian(sized[EXIF_SIZE_INDEX..EXIF_SIZE_INDEX + 2]) != data
       || ReadBigEndian(sized[ARTIST_SIZE_INDEX..ARTIST_SIZE_INDEX + 4]) != data - ARTIST_SIZE_DIFF {
      return Err(CorruptTemplate);
    }
    return Ok(sized);
  }

  /** The first dataset's size, written when partial and only checked when full. */
  method MakePshop(t: Templates, first: nat) returns (r: Result<seq<Byte>, BuildError>)
    requires t.Valid() && first <= FIRST_LIMIT
    ensures r.Ok? && r.value == WithField(t.pshop, FIRST_SIZE_INDEX, BigEndian(first, 2))
  {
    if first < FIRST_LIMIT {
      return Ok(WithField(t.pshop, FIRST_SIZE_INDEX, BigEndian(first, 2)));
    }
    assert Pow256(2) == 0x1_0000;
    FieldRoundTrip(FIRST_LIMIT, 2);
    WithFieldSame(t.pshop, FIRST_SIZE_INDEX, BigEndian(FIRST_LIMIT, 2));
    if ReadBigEndian(t.pshop[FIRST_SIZE_INDEX..FIRST_SIZE_INDEX + 2]) != first {
      return Err(CorruptTemplate);
    }
    return Ok(t.pshop);
  }

  /** A builder for a ciphertext of this size, exactly when the size is within the capacity. */
  method OpenBuilder(t: Templates, size: nat) returns (r: Result<Builder, BuildError>)
    requires t.Valid()
    ensures r.Ok? <==> size <= MaxCapacity()
    ensures r.Ok? ==> r.value.Valid() && r.value.given == [] && r.value.templates == t && r.value.size == size
    ensures r.Ok? ==> fresh(r.value) && fresh(r.value.xmp) && fresh(r.value.xmp.carry)
  {
    CapacitiesAgree(size);
    hide ExifHead, WithField, BigEndian, Parts.Hold, Encoder.Encodes, Templates.Valid;
    var head := MakeHead(t, size);
    if head.Err? {
      return Err(head.error);
    }
    var layout := LayoutFor(size);
    var pshop := MakePshop(t, layout.first);
    if layout.xmp > 0 && XMP_BYTES + (layout.xmp + 2) / 3 * 4 + FOOTER_BYTES > XMP_SEGMENT_LIMIT {
      return Err(TooLarge);
    }
    var builder := new Builder(t, size, head.value, pshop.value);
    return Ok(builder);
  }

  // ----- Closing it -----

  /** With everything given, the Photoshop bytes are the segment's body. */
  lemma PshopIsWhole(t: Templates, data: seq<Byte>)
    requires t.Valid()
    ensures var l := LayoutFor(|data|);
      PshopSoFar(t, l, data) == PshopBody(t, Part(data, l.exif, l.first), Part(data, SecondStart(l), l.second))
  {
    hide BigEndian, WithField, Marker;
    var l := LayoutFor(|data|);
    var first, second := Part(data, l.exif, l.first), Part(data, SecondStart(l), l.second);
    assert |first| == l.first && |second| == l.second;
    if l.second == 0 {
      assert second == [];
      var base := WithField(t.pshop, FIRST_SIZE_INDEX, BigEndian(l.first, 2)) + first;
      assert base + [] + [] == base + [];
    } else {
      var base := WithField(t.pshop, FIRST_SIZE_INDEX, BigEndian(l.first, 2)) + first;
      assert base + Marker(l.second) + second == base + (Marker(l.second) + second);
    }
  }

  /** In a full Photoshop segment the template's own sizes are the right ones. */
  lemma FullPshopIsPrefilled(t: Templates, first: seq<Byte>, second: seq<Byte>)
    requires t.Valid() && |first| == FIRST_LIMIT && |second| == SECOND_LIMIT
    ensures var body := PshopBody(t, first, second);
      && body == PshopSegment(t, first, second) && |body| == 65537
      && ReadBigEndian(body[SEGMENT_SIZE_INDEX..SEGMENT_SIZE_INDEX + 2]) == 65535
      && ReadBigEndian(body[BIM_SIZE_INDEX..BIM_SIZE_INDEX + 2]) == 65507
  {
    assert Pow256(2) == 0x1_0000;
    FieldRoundTrip(65535, 2);
    FieldRoundTrip(65507, 2);
    var field := BigEndian(FIRST_LIMIT, 2);
    WithFieldElsewhere(t.pshop, FIRST_SIZE_INDEX, field, SEGMENT_SIZE_INDEX, 2);
    WithFieldElsewhere(t.pshop, FIRST_SIZE_INDEX, field, BIM_SIZE_INDEX, 2);
    hide BigEndian, ReadBigEndian, WithField, Marker, Pow256;
    var base, body := WithField(t.pshop, FIRST_SIZE_INDEX, field), PshopBody(t, first, second);
    assert body[SEGMENT_SIZE_INDEX..SEGMENT_SIZE_INDEX + 2] == base[SEGMENT_SIZE_INDEX..SEGMENT_SIZE_INDEX + 2];
    assert body[BIM_SIZE_INDEX..BIM_SIZE_INDEX + 2] == base[BIM_SIZE_INDEX..BIM_SIZE_INDEX + 2];
    WithFieldSame(body, SEGMENT_SIZE_INDEX, BigEndian(65535, 2));
    WithFieldSame(body, BIM_SIZE_INDEX, BigEndian(65507, 2));
  }

  /** The Photoshop segment with its sizes: written, or only checked when an XMP segment follows. */
  method ClosePshop(t: Templates, l: Layout, body: seq<Byte>, ghost first: seq<Byte>, ghost second: seq<Byte>)
    returns (r: Result<seq<Byte>, BuildError>)
    requires t.Valid() && first != [] && body == PshopBody(t, first, second)
    requires l.xmp > 0 ==> |first| == FIRST_LIMIT && |second| == SECOND_LIMIT
    ensures r.Ok? && r.value == PshopSegment(t, first, second)
  {
    var data := |body| - 2;
    if l.xmp == 0 {
      var sized := WithField(body, SEGMENT_SIZE_INDEX, BigEndian(data, 2));
      return Ok(WithField(sized, BIM_SIZE_INDEX, BigEndian(data - BIM_SIZE_DIFF, 2)));
    }
    FullPshopIsPrefilled(t, first, second);
    if ReadBigEndian(body[SEGMENT_SIZE_INDEX..SEGMENT_SIZE_INDEX + 2]) != data
       || ReadBigEndian(body[BIM_SIZE_INDEX..BIM_SIZE_INDEX + 2]) != data - BIM_SIZE_DIFF {
      return Err(CorruptTemplate);
    }
    return Ok(body);
  }

  /** Pads the Base64 and closes the XMP segment. */
  method CloseXmp(builder: Builder, ghost raw: seq<Byte>) returns (segment: seq<Byte>)
    requires builder.templates.Valid() && builder.xmp.Encodes(builder.templates.xmp, raw)
    modifies builder.xmp
    ensures segment == XmpSegment(builder.templates, raw)
  {
    hide Encode, BigEndian;
    builder.xmp.Finish(builder.templates.xmp, raw);
    var body := builder.xmp.text + builder.templates.footer;
    segment := WithField(body, SEGMENT_SIZE_INDEX, BigEndian(|body| - 2, 2));
  }

  /** The segments one after another. */
  method Assemble(t: Templates, l: Layout, head: seq<Byte>, exifInsert: seq<Byte>, pshopBody: seq<Byte>, xmp: seq<Byte>,
                  ghost data: seq<Byte>)
    returns (r: Result<seq<Byte>, BuildError>)
    requires t.Valid() && l == LayoutFor(|data|) && |data| <= MaxCapacity() && head == ExifHead(t, |data|)
    requires exifInsert == Part(data, 0, l.exif)
    requires pshopBody == PshopBody(t, Part(data, l.exif, l.first), Part(data, SecondStart(l), l.second))
    requires xmp == if l.xmp > 0 then XmpSegment(t, Part(data, XmpStart(l), l.xmp)) else []
    ensures r.Ok? && r.value == Packed(t, data)
  {
    CapacitiesAgree(|data|);
    hide PshopSegment, XmpSegment, PshopBody, Part, ExifHead, Encode;
    ghost var first, second := Part(data, l.exif, l.first), Part(data, SecondStart(l), l.second);
    assert |first| == l.first && |second| == l.second && (l.second == 0 ==> second == []);
    if l.xmp > 0 && |xmp| > XMP_SEGMENT_LIMIT {
      return Err(TooLarge);
    }
    var pshop: seq<Byte> := [];
    if (l.first > 0 || l.second > 0) && |pshopBody| > PSHOP_BYTES {
      var closed := ClosePshop(t, l, pshopBody, first, second);
      pshop := closed.value;
    }
    return Ok(head[..EXIF_INSERT] + exifInsert + head[EXIF_INSERT..] + xmp + pshop);
  }

  /** Fails exactly when bytes are missing; otherwise the packed segments, however they were pushed. */
  method Finish(builder: Builder) returns (r: Result<seq<Byte>, BuildError>)
    requires builder.Valid()
    modifies builder.xmp
    ensures r.Ok? <==> |builder.given| == builder.size
    ensures r.Ok? ==> r.value == Packed(builder.templates, builder.given)
  {
    if builder.written != builder.size {
      return Err(CorruptStream);
    }
    ghost var data := builder.given;
    var t, l := builder.templates, builder.layout;
    PshopIsWhole(t, data);
    hide PshopSegment, XmpSegment, PshopBody, PshopSoFar, Part, Packed, ExifHead, Templates.Valid, Encoder.Encodes;
    var head, exifInsert, pshopBody := builder.head, builder.exifInsert, builder.pshop;
    var xmp: seq<Byte> := [];
    if l.xmp > 0 {
      xmp := CloseXmp(builder, Part(data, XmpStart(l), l.xmp));
    }
    r := Assemble(t, l, head, exifInsert, pshopBody, xmp, data);
  }
}
