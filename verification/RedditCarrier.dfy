/**
  The Reddit carrier on luminance coefficients: a whitened header and payload, each
  bit in several copies on disjoint frequencies, read back by vote. Hashes are parameters.
 */
module RedditCarrier {
  import opened Results
  import opened Bytes
  import opened KeyedShuffle
  import opened KeyedIndexPrefixes
  import opened CarrierFormat
  import opened ParityEdits
  import opened RedditQim
  import opened RedditLayout
  import opened RedditGrouping
  import opened RedditCarriers
  import opened RedditVoting

  const HEADER_BITS: nat := 192

  const HEADER_DOMAIN: Word := 0x4845414445527631
  const PAYLOAD_DOMAIN: Word := 0x5041594c4f414431
  const HEADER_LAYOUT_DOMAIN: Word := 0x5251534c41594831
  const PAYLOAD_LAYOUT_DOMAIN: Word := 0x5251534c41595031

  const HEADER_PLACEMENT: Placement := Placement([9], 17, HEADER_DOMAIN, HEADER_LAYOUT_DOMAIN)
  const PAYLOAD_PLACEMENT: Placement :=
    Placement([2, 3, 10, 17, 24, 32, 25, 18, 11, 4], 3, PAYLOAD_DOMAIN, PAYLOAD_LAYOUT_DOMAIN)

  /** "RQSTEG3" and a zero byte; then version, step and payload copies. */
  const HEADER_FORMAT: HeaderFormat := HeaderFormat([82, 81, 83, 84, 69, 71, 51, 0], [3, 8, 3, 0])

  datatype Keys = Keys(prf: (Word, nat) -> Word, crc: seq<Byte> -> U32) {
    ghost predicate Fair() {
      Stream(prf, HEADER_LAYOUT_DOMAIN).Fair() && Stream(prf, PAYLOAD_LAYOUT_DOMAIN).Fair()
    }
  }

  datatype CarrierError =
    | PayloadTooLarge
    | CoverTooSmall
    | Layout(error: LayoutError)
    | Format(FormatError)
    | DeclaredTooLarge
    | PayloadIntegrity

  lemma PlacementsAreValid()
    ensures HEADER_PLACEMENT.Valid() && PAYLOAD_PLACEMENT.Valid()
    ensures forall f :: f in PAYLOAD_PLACEMENT.frequencies ==> f !in HEADER_PLACEMENT.frequencies
  {
  }

  // ----- Capacity -----

  function CarrierCapacity(blocks: nat): nat {
    (blocks * 10) / 3 / 8
  }

  /** The largest payload for which every copy of every bit has a candidate. */
  lemma CapacityIsExact(grid: Grid, n: nat)
    ensures n <= CarrierCapacity(grid.Blocks())
       <==> (8 * n) * PAYLOAD_PLACEMENT.copies <= PAYLOAD_PLACEMENT.Candidates(grid)
  {
    hide Grid.Blocks;
    assert PAYLOAD_PLACEMENT.Candidates(grid) == grid.Blocks() * 10;
  }

  /** The grid is within the carrier record and the draw's 32 bits, and holds the header. */
  predicate Usable(grid: Grid) {
    && grid.wide < 0x1_0000 && grid.high < 0x1_0000
    && HEADER_BITS * 17 <= grid.Blocks() && grid.Blocks() * 10 <= EMPTY
  }

  /** On a usable grid, only the capacity decides. */
  lemma FitsByCapacity(grid: Grid, n: nat)
    requires Usable(grid)
    ensures Fits(grid, HEADER_PLACEMENT, HEADER_BITS)
    ensures Fits(grid, PAYLOAD_PLACEMENT, 8 * n) <==> n <= CarrierCapacity(grid.Blocks())
  {
    CapacityIsExact(grid, n);
    hide Grid.Blocks;
    assert PAYLOAD_PLACEMENT.Candidates(grid) == grid.Blocks() * 10;
    assert HEADER_PLACEMENT.Candidates(grid) == grid.Blocks();
  }

  /** Header and payload both find their places. */
  predicate Placeable(grid: Grid, n: nat) {
    Fits(grid, HEADER_PLACEMENT, HEADER_BITS) && Fits(grid, PAYLOAD_PLACEMENT, 8 * n)
  }

  /** A grid within the carrier record and the draw's 32 bits, holding the header: every image within the program's limits. */
  lemma PlaceableByCapacity(grid: Grid, n: nat)
    requires Usable(grid)
    ensures Placeable(grid, n) <==> n <= CarrierCapacity(grid.Blocks())
  {
    FitsByCapacity(grid, n);
  }

  // ----- What the keys read -----

  ghost function CarriersOf(grid: Grid, p: Placement, keys: Keys, count: nat): (carriers: seq<Carrier>)
    requires p.Valid() && Fits(grid, p, count) && Stream(keys.prf, p.layout).Fair()
    ensures Inside(grid, carriers, grid.Blocks() * 64) && BitsInRange(carriers, count)
    ensures Separate(grid, carriers) && Walkable(carriers, grid.high)
    ensures forall bit :: 0 <= bit < count ==> CopiesOf(carriers, bit) == p.copies
    ensures forall i :: 0 <= i < |carriers| ==> carriers[i].coefficient in p.frequencies
  {
    hide *;
    CarriersAreSound(grid, p, keys.prf, count);
    var carriers := Carriers(grid, p, keys.prf, count);
    SeparateIsInside(grid, carriers);
    StrictIsWalkable(grid, carriers);
    InRange(carriers, count);
    carriers
  }

  lemma InRange(carriers: seq<Carrier>, count: nat)
    requires forall i :: 0 <= i < |carriers| ==> carriers[i].bit < count
    ensures BitsInRange(carriers, count)
  {
  }

  function Packed(bits: seq<bool>, count: nat): (bytes: seq<Byte>)
    requires |bits| == 8 * count
    ensures |bytes| == count
  {
    BytesOf(bits)
  }

  ghost function ReadBytes(grid: Grid, luminance: seq<Coefficient>, p: Placement, keys: Keys, count: nat): (bytes: seq<Byte>)
    requires p.Valid() && Fits(grid, p, 8 * count) && Stream(keys.prf, p.layout).Fair() && |luminance| == grid.Blocks() * 64
    ensures |bytes| == count
  {
    hide *;
    Packed(DecodedBits(luminance, grid, CarriersOf(grid, p, keys, 8 * count), 8 * count), count)
  }

  ghost function HeaderRead(grid: Grid, luminance: seq<Coefficient>, keys: Keys): Result<Option<Header>, FormatError>
    requires keys.Fair() && |luminance| == grid.Blocks() * 64 && Fits(grid, HEADER_PLACEMENT, HEADER_BITS)
  {
    PlacementsAreValid();
    ParseHeader(HEADER_FORMAT, ReadBytes(grid, luminance, HEADER_PLACEMENT, keys, HEADER_BYTES), keys.crc)
  }

  /** The carrier's content under these keys: None when there is no header of theirs. */
  ghost function Carried(grid: Grid, luminance: seq<Coefficient>, keys: Keys): Result<Option<seq<Byte>>, CarrierError>
    requires keys.Fair() && |luminance| == grid.Blocks() * 64
  {
    var fault := LayoutFault(grid, HEADER_PLACEMENT, HEADER_BITS);
    if fault.Some? then Err(Layout(fault.value))
    else match HeaderRead(grid, luminance, keys)
      case Err(e) => Err(Format(e))
      case Ok(None) => Ok(None)
      case Ok(Some(h)) => Declared(grid, luminance, keys, h)
  }

  /** The bytes the header's carriers hold. */
  ghost function HeaderBytesRead(grid: Grid, luminance: seq<Coefficient>, keys: Keys): (bytes: seq<Byte>)
    requires keys.Fair() && |luminance| == grid.Blocks() * 64 && Fits(grid, HEADER_PLACEMENT, HEADER_BITS)
    ensures |bytes| == HEADER_BYTES
  {
    PlacementsAreValid();
    ReadBytes(grid, luminance, HEADER_PLACEMENT, keys, HEADER_BYTES)
  }

  /** The bytes the payload's carriers hold, when there are `n` of them. */
  ghost function PayloadBytesRead(grid: Grid, luminance: seq<Coefficient>, keys: Keys, n: nat): (bytes: seq<Byte>)
    requires keys.Fair() && |luminance| == grid.Blocks() * 64 && Fits(grid, PAYLOAD_PLACEMENT, 8 * n)
    ensures |bytes| == n
  {
    PlacementsAreValid();
    ReadBytes(grid, luminance, PAYLOAD_PLACEMENT, keys, n)
  }

  /** The header of `payload`, with its size and checksum, and `payload` itself are read in their places. */
  ghost predicate HoldsPayload(grid: Grid, luminance: seq<Coefficient>, keys: Keys, payload: seq<Byte>)
    requires keys.Fair() && |luminance| == grid.Blocks() * 64
  {
    && |payload| < 0x1_0000_0000 && |payload| <= CarrierCapacity(grid.Blocks()) && Placeable(grid, |payload|)
    && HeaderBytesRead(grid, luminance, keys) == MakeHeader(HEADER_FORMAT, Header(|payload|, keys.crc(payload)), keys.crc)
    && PayloadBytesRead(grid, luminance, keys, |payload|) == payload
  }

  /** The keys read `payload` exactly when it is held, intact, under a header of its own. */
  lemma CarriedIs(grid: Grid, luminance: seq<Coefficient>, keys: Keys, payload: seq<Byte>)
    requires keys.Fair() && |luminance| == grid.Blocks() * 64
    ensures Carried(grid, luminance, keys) == Ok(Some(payload)) <==> HoldsPayload(grid, luminance, keys, payload)
  {
    hide ReadBytes, ParseHeader, MakeHeader, Fits, LayoutFault, Placement.Valid, Stream.Fair, Grid.Blocks, CarrierCapacity;
    if Fits(grid, HEADER_PLACEMENT, HEADER_BITS) {
      var bytes := HeaderBytesRead(grid, luminance, keys);
      if HeaderRead(grid, luminance, keys).Ok? && HeaderRead(grid, luminance, keys).value.Some? {
        HeaderRoundTrip(HEADER_FORMAT, bytes, HeaderRead(grid, luminance, keys).value.value, keys.crc);
      }
      if |payload| < 0x1_0000_0000 {
        HeaderRoundTrip(HEADER_FORMAT, bytes, Header(|payload|, keys.crc(payload)), keys.crc);
      }
    }
  }

  /** They read nothing exactly when the header's carriers do not begin with the format's magic. */
  lemma NothingIsCarried(grid: Grid, luminance: seq<Coefficient>, keys: Keys)
    requires keys.Fair() && |luminance| == grid.Blocks() * 64
    ensures Carried(grid, luminance, keys) == Ok(None) <==>
      Fits(grid, HEADER_PLACEMENT, HEADER_BITS)
      && HeaderBytesRead(grid, luminance, keys)[..8] != [82, 81, 83, 84, 69, 71, 51, 0]
  {
    hide ReadBytes, ParseHeader, Fits, LayoutFault, Placement.Valid, Stream.Fair, Grid.Blocks, CarrierCapacity;
    if Fits(grid, HEADER_PLACEMENT, HEADER_BITS) { NoHeader(HEADER_FORMAT, HeaderBytesRead(grid, luminance, keys), keys.crc); }
  }

  /** A header in place whose payload is too large, or has another checksum, is an error of its own. */
  lemma DeclaredFaults(grid: Grid, luminance: seq<Coefficient>, keys: Keys, h: Header)
    requires keys.Fair() && |luminance| == grid.Blocks() * 64 && Fits(grid, HEADER_PLACEMENT, HEADER_BITS)
    requires HeaderBytesRead(grid, luminance, keys) == MakeHeader(HEADER_FORMAT, h, keys.crc)
    ensures Carried(grid, luminance, keys) == Err(DeclaredTooLarge) <==> h.payloadSize > CarrierCapacity(grid.Blocks())
    ensures Carried(grid, luminance, keys) == Err(PayloadIntegrity) <==>
        && h.payloadSize <= CarrierCapacity(grid.Blocks()) && Fits(grid, PAYLOAD_PLACEMENT, 8 * h.payloadSize)
        && keys.crc(PayloadBytesRead(grid, luminance, keys, h.payloadSize)) != h.payloadCrc
  {
    hide ReadBytes, ParseHeader, MakeHeader, Fits, LayoutFault, Placement.Valid, Stream.Fair, Grid.Blocks, CarrierCapacity;
    HeaderRoundTrip(HEADER_FORMAT, HeaderBytesRead(grid, luminance, keys), h, keys.crc);
  }

  ghost function Declared(grid: Grid, luminance: seq<Coefficient>, keys: Keys, h: Header):
    Result<Option<seq<Byte>>, CarrierError>
    requires keys.Fair() && |luminance| == grid.Blocks() * 64
  {
    if h.payloadSize > CarrierCapacity(grid.Blocks()) then Err(DeclaredTooLarge)
    else if LayoutFault(grid, PAYLOAD_PLACEMENT, 8 * h.payloadSize).Some? then
      Err(Layout(LayoutFault(grid, PAYLOAD_PLACEMENT, 8 * h.payloadSize).value))
    else
      PlacementsAreValid();
      var payload := ReadBytes(grid, luminance, PAYLOAD_PLACEMENT, keys, h.payloadSize);
      if keys.crc(payload) != h.payloadCrc then Err(PayloadIntegrity) else Ok(Some(payload))
  }

  // ----- Reading -----

  /** One placement, read whole. */
  method ReadPlacement(grid: Grid, luminance: seq<Coefficient>, p: Placement, keys: Keys, count: nat)
    returns (r: Result<seq<Byte>, CarrierError>)
    requires p.Valid() && Stream(keys.prf, p.layout).Fair() && |luminance| == grid.Blocks() * 64
    ensures r.Ok? <==> Fits(grid, p, 8 * count)
    ensures r.Ok? ==> r.value == ReadBytes(grid, luminance, p, keys, count)
    ensures r.Err? ==> r.error.Layout? && Some(r.error.error) == LayoutFault(grid, p, 8 * count)
  {
    hide Fits, LayoutFault, Carriers, DecodedBits, BytesOf, Stream.Fair, Placement.Valid, Grid.Blocks, Inside, BitsInRange, Walkable;
    var made := MakeCarriers(grid, p, 8 * count, keys.prf);
    if made.Err? {
      return Err(Layout(made.error));
    }
    assert made.value == CarriersOf(grid, p, keys, 8 * count);
    var read := ReadCarriers(grid, luminance, made.value, 8 * count);
    var packed := BitsToBytes(read.value);
    return Ok(packed.value);
  }

  method ReadDeclared(grid: Grid, luminance: seq<Coefficient>, keys: Keys, header: Header)
    returns (r: Result<Option<seq<Byte>>, CarrierError>)
    requires keys.Fair() && |luminance| == grid.Blocks() * 64
    ensures r == Declared(grid, luminance, keys, header)
  {
    PlacementsAreValid();
    hide Fits, LayoutFault, ReadBytes, Stream.Fair, Placement.Valid, Grid.Blocks, CarrierCapacity;
    if header.payloadSize > CarrierCapacity(grid.Blocks()) {
      return Err(DeclaredTooLarge);
    }
    var payload := ReadPlacement(grid, luminance, PAYLOAD_PLACEMENT, keys, header.payloadSize);
    if payload.Err? {
      return Err(payload.error);
    }
    if keys.crc(payload.value) != header.payloadCrc {
      return Err(PayloadIntegrity);
    }
    return Ok(Some(payload.value));
  }

  method ExtractWithKey(grid: Grid, luminance: seq<Coefficient>, keys: Keys)
    returns (r: Result<Option<seq<Byte>>, CarrierError>)
    requires keys.Fair() && |luminance| == grid.Blocks() * 64
    ensures r == Carried(grid, luminance, keys)
    ensures forall payload :: r == Ok(Some(payload)) <==> HoldsPayload(grid, luminance, keys, payload)
    ensures r == Ok(None) <==> Fits(grid, HEADER_PLACEMENT, HEADER_BITS) &&
                               HeaderBytesRead(grid, luminance, keys)[..8] != [82, 81, 83, 84, 69, 71, 51, 0]
  {
    hide HoldsPayload, HeaderBytesRead;
    PlacementsAreValid();
    forall payload ensures Carried(grid, luminance, keys) == Ok(Some(payload)) <==> HoldsPayload(grid, luminance, keys, payload) {
      CarriedIs(grid, luminance, keys, payload);
    }
    NothingIsCarried(grid, luminance, keys);
    hide Fits, LayoutFault, ReadBytes, Declared, ParseHeader, Stream.Fair, Placement.Valid, Grid.Blocks;
    var bytes := ReadPlacement(grid, luminance, HEADER_PLACEMENT, keys, HEADER_BYTES);
    if bytes.Err? {
      return Err(bytes.error);
    }
    var header := ParseHeader(HEADER_FORMAT, bytes.value, keys.crc);
    if header.Err? {
      return Err(Format(header.error));
    }
    if header.value.None? {
      return Ok(None);
    }
    r := ReadDeclared(grid, luminance, keys, header.value.value);
  }

  // ----- Writing -----

  /** Writes one placement in place; every copy ends on its lattice, nothing else changes. */
  method WritePlacement(grid: Grid, luminance: array<Coefficient>, p: Placement, keys: Keys, bytes: seq<Byte>)
    returns (r: Result<(), CarrierError>)
    requires p.Valid() && Stream(keys.prf, p.layout).Fair() && luminance.Length == grid.Blocks() * 64
    modifies luminance
    ensures r.Ok? <==> Fits(grid, p, 8 * |bytes|)
    ensures r.Ok? ==> PlacementWritten(grid, old(luminance[..]), luminance[..], CarriersOf(grid, p, keys, 8 * |bytes|), BitsOf(bytes))
  {
    hide Fits, Carriers, BitsOf, Stream.Fair, Placement.Valid, Grid.Blocks, Inside, BitsInRange, Walkable, PlacementWritten;
    hide Written, Separate;
    var made := MakeCarriers(grid, p, 8 * |bytes|, keys.prf);
    if made.Err? {
      return Err(Layout(made.error));
    }
    ghost var before := luminance[..];
    assert made.value == CarriersOf(grid, p, keys, 8 * |bytes|);
    var bits := BytesToBits(bytes);
    var walked := ApplyCarriers(grid, luminance, made.value, bits);
    PlacementIsWritten(grid, before, made.value, bits);
    return Ok(());
  }

  /** Each carrier's coefficient is its bit's lattice point nearest to what it was; all others are unchanged. */
  ghost predicate PlacementWritten(grid: Grid, before: seq<Coefficient>, after: seq<Coefficient>,
                                   carriers: seq<Carrier>, bits: seq<bool>)
  {
    && |after| == |before|
    && OnLattices(after, grid, carriers, bits)
    && Inside(grid, carriers, |before|)
    && (forall i :: 0 <= i < |carriers| ==>
          after[Offset(grid, carriers[i])] == Encoded(before[Offset(grid, carriers[i])], carriers[i], bits[carriers[i].bit]))
    && (forall o :: 0 <= o < |before| && !Touches(grid, carriers, o) ==> after[o] == before[o])
  }

  lemma PlacementIsWritten(grid: Grid, before: seq<Coefficient>, carriers: seq<Carrier>, bits: seq<bool>)
    requires Inside(grid, carriers, |before|) && BitsInRange(carriers, |bits|) && Separate(grid, carriers)
    ensures PlacementWritten(grid, before, Written(grid, before, carriers, bits, |carriers|), carriers, bits)
  {
    hide Offset, OnLattice, QimEncode, Separate;
    WrittenOnce(grid, before, carriers, bits, |carriers|);
    assert carriers[..|carriers|] == carriers;
  }

  /** Carriers on disjoint frequencies leave each other alone. */
  lemma DisjointPlacements(grid: Grid, first: seq<Carrier>, second: seq<Carrier>, f: seq<nat>, g: seq<nat>, i: nat)
    requires Separate(grid, first) && Separate(grid, second) && i < |first|
    requires forall k :: 0 <= k < |first| ==> first[k].coefficient in f
    requires forall k :: 0 <= k < |second| ==> second[k].coefficient in g
    requires forall x :: x in g ==> x !in f
    ensures !Touches(grid, second, Offset(grid, first[i]))
  {
    forall j | 0 <= j < |second| ensures Offset(grid, second[j]) != Offset(grid, first[i]) {
      OffsetKeepsFrequency(grid, first[i]);
      OffsetKeepsFrequency(grid, second[j]);
    }
  }

  lemma OffsetKeepsFrequency(grid: Grid, c: Carrier)
    requires c.coefficient < 64
    ensures Offset(grid, c) % 64 == c.coefficient
  {
    OffsetModulo(c.row * grid.wide + c.column, c.coefficient);
  }

  lemma OffsetModulo(block: nat, coefficient: nat)
    requires coefficient < 64
    ensures (block * 64 + coefficient) % 64 == coefficient
  {
  }

  function CarrierHeader(keys: Keys, payload: seq<Byte>): (bytes: seq<Byte>)
    requires |payload| < 0x1_0000_0000
    ensures |bytes| == HEADER_BYTES
  {
    MakeHeader(HEADER_FORMAT, Header(|payload|, keys.crc(payload)), keys.crc)
  }

  /** Received coefficients in which no bit, of header or payload, lost three in eight of its copies. */
  ghost predicate Survives(grid: Grid, keys: Keys, sent: seq<Coefficient>, received: seq<Coefficient>, n: nat)
    requires keys.Fair() && Placeable(grid, n)
    requires |sent| == |received| == grid.Blocks() * 64
  {
    PlacementsAreValid();
    && Tolerable(sent, received, grid, CarriersOf(grid, HEADER_PLACEMENT, keys, HEADER_BITS), HEADER_BITS)
    && Tolerable(sent, received, grid, CarriersOf(grid, PAYLOAD_PLACEMENT, keys, 8 * n), 8 * n)
  }

  ghost predicate DamagedAtMost(sent: seq<Coefficient>, received: seq<Coefficient>, grid: Grid, carriers: seq<Carrier>,
                                count: nat, limit: nat)
    requires |sent| == |received| && Inside(grid, carriers, |sent|)
  {
    forall bit :: 0 <= bit < count ==> Damaged(sent, received, grid, carriers, bit) <= limit
  }

  /** In numbers: 6 of a header bit's 17 copies, and 1 of a payload bit's 3, may arrive as anything. */
  lemma SurvivesInCopies(grid: Grid, keys: Keys, sent: seq<Coefficient>, received: seq<Coefficient>, n: nat)
    requires keys.Fair() && Placeable(grid, n)
    requires |sent| == |received| == grid.Blocks() * 64
    ensures HEADER_PLACEMENT.Valid() && PAYLOAD_PLACEMENT.Valid()
    ensures Fits(grid, HEADER_PLACEMENT, HEADER_BITS) && Fits(grid, PAYLOAD_PLACEMENT, 8 * n)
    ensures Survives(grid, keys, sent, received, n) <==>
      && DamagedAtMost(sent, received, grid, CarriersOf(grid, HEADER_PLACEMENT, keys, HEADER_BITS), HEADER_BITS, 6)
      && DamagedAtMost(sent, received, grid, CarriersOf(grid, PAYLOAD_PLACEMENT, keys, 8 * n), 8 * n, 1)
  {
    PlacementsAreValid();
    hide Damaged, Fits, Stream.Fair, CopiesOf, Placement.Valid, Grid.Blocks, CarrierCapacity, Tolerable, DamagedAtMost;
    TolerableInCopies(sent, received, grid, CarriersOf(grid, HEADER_PLACEMENT, keys, HEADER_BITS), HEADER_BITS, 17, 6);
    TolerableInCopies(sent, received, grid, CarriersOf(grid, PAYLOAD_PLACEMENT, keys, 8 * n), 8 * n, 3, 1);
  }

  lemma TolerableInCopies(sent: seq<Coefficient>, received: seq<Coefficient>, grid: Grid, carriers: seq<Carrier>,
                          count: nat, copies: nat, limit: nat)
    requires |sent| == |received| && Inside(grid, carriers, |sent|)
    requires 8 * limit < 3 * copies <= 8 * limit + 8
    requires forall bit :: 0 <= bit < count ==> CopiesOf(carriers, bit) == copies
    ensures Tolerable(sent, received, grid, carriers, count)
       <==> DamagedAtMost(sent, received, grid, carriers, count, limit)
  {
    forall bit | 0 <= bit < count
      ensures 8 * Damaged(sent, received, grid, carriers, bit) < 3 * CopiesOf(carriers, bit)
         <==> Damaged(sent, received, grid, carriers, bit) <= limit
    {
      assert CopiesOf(carriers, bit) == copies;
    }
  }

  /** One placement read back through damage. */
  lemma PlacementReadsBack(grid: Grid, p: Placement, keys: Keys, sent: seq<Coefficient>, received: seq<Coefficient>, bytes: seq<Byte>)
    requires p.Valid() && Fits(grid, p, 8 * |bytes|) && Stream(keys.prf, p.layout).Fair()
    requires |sent| == |received| == grid.Blocks() * 64
    requires OnLattices(sent, grid, CarriersOf(grid, p, keys, 8 * |bytes|), BitsOf(bytes))
    requires Tolerable(sent, received, grid, CarriersOf(grid, p, keys, 8 * |bytes|), 8 * |bytes|)
    ensures ReadBytes(grid, received, p, keys, |bytes|) == bytes
  {
    hide OnLattices, Tolerable, CarriersOf, Fits, DecodedBits, BytesOf, BitsOf, Placement.Valid, Stream.Fair, Grid.Blocks;
    VoteRecovers(sent, received, grid, CarriersOf(grid, p, keys, 8 * |bytes|), BitsOf(bytes));
    BytesOfBitsOf(bytes);
  }

  /** The coefficients sent carry the header on its lattices and the payload on its own. */
  ghost predicate Carries(grid: Grid, keys: Keys, sent: seq<Coefficient>, payload: seq<Byte>)
    requires keys.Fair() && |sent| == grid.Blocks() * 64
    requires Placeable(grid, |payload|) && |payload| < 0x1_0000_0000
  {
    PlacementsAreValid();
    && OnLattices(sent, grid, CarriersOf(grid, HEADER_PLACEMENT, keys, HEADER_BITS), BitsOf(CarrierHeader(keys, payload)))
    && OnLattices(sent, grid, CarriersOf(grid, PAYLOAD_PLACEMENT, keys, 8 * |payload|), BitsOf(payload))
  }

  lemma HeaderReadsBack(grid: Grid, keys: Keys, sent: seq<Coefficient>, received: seq<Coefficient>, payload: seq<Byte>)
    requires keys.Fair() && |sent| == |received| == grid.Blocks() * 64
    requires Placeable(grid, |payload|) && |payload| < 0x1_0000_0000
    requires Carries(grid, keys, sent, payload) && Survives(grid, keys, sent, received, |payload|)
    ensures HEADER_PLACEMENT.Valid() && Fits(grid, HEADER_PLACEMENT, HEADER_BITS)
    ensures ReadBytes(grid, received, HEADER_PLACEMENT, keys, HEADER_BYTES) == CarrierHeader(keys, payload)
  {
    PlacementsAreValid();
    hide OnLattices, Tolerable, CarriersOf, Fits, ReadBytes, BitsOf, CarrierHeader;
    hide Placement.Valid, Stream.Fair, Grid.Blocks, CarrierCapacity;
    PlacementReadsBack(grid, HEADER_PLACEMENT, keys, sent, received, CarrierHeader(keys, payload));
  }

  lemma PayloadReadsBack(grid: Grid, keys: Keys, sent: seq<Coefficient>, received: seq<Coefficient>, payload: seq<Byte>)
    requires keys.Fair() && |sent| == |received| == grid.Blocks() * 64
    requires Placeable(grid, |payload|) && |payload| < 0x1_0000_0000
    requires Carries(grid, keys, sent, payload) && Survives(grid, keys, sent, received, |payload|)
    ensures PAYLOAD_PLACEMENT.Valid() && Fits(grid, PAYLOAD_PLACEMENT, 8 * |payload|)
    ensures ReadBytes(grid, received, PAYLOAD_PLACEMENT, keys, |payload|) == payload
  {
    PlacementsAreValid();
    hide OnLattices, Tolerable, CarriersOf, Fits, ReadBytes, BitsOf, CarrierHeader;
    hide Placement.Valid, Stream.Fair, Grid.Blocks, CarrierCapacity;
    PlacementReadsBack(grid, PAYLOAD_PLACEMENT, keys, sent, received, payload);
  }

  lemma CapacityBound(grid: Grid, n: nat)
    requires Fits(grid, PAYLOAD_PLACEMENT, 8 * n)
    ensures n <= CarrierCapacity(grid.Blocks())
  {
    hide Grid.Blocks, CarrierCapacity;
    CapacityIsExact(grid, n);
  }

  /** Whatever survives the channel is read back exactly. */
  lemma CarriedThroughDamage(grid: Grid, keys: Keys, sent: seq<Coefficient>, received: seq<Coefficient>, payload: seq<Byte>)
    requires keys.Fair() && |sent| == |received| == grid.Blocks() * 64
    requires Placeable(grid, |payload|) && |payload| < 0x1_0000_0000
    requires Carries(grid, keys, sent, payload) && Survives(grid, keys, sent, received, |payload|)
    ensures Carried(grid, received, keys) == Ok(Some(payload))
  {
    hide ReadBytes, ParseHeader, MakeHeader, Fits, Survives, Carries, LayoutFault;
    hide Placement.Valid, Stream.Fair, Grid.Blocks, CarrierCapacity;
    CapacityBound(grid, |payload|);
    HeaderReadsBack(grid, keys, sent, received, payload);
    PayloadReadsBack(grid, keys, sent, received, payload);
    HeaderRoundTrip(HEADER_FORMAT, CarrierHeader(keys, payload), Header(|payload|, keys.crc(payload)), keys.crc);
  }

  // ----- Embedding -----

  /** Exactly when embedding accepts a payload of `n` bytes. */
  predicate Accepts(grid: Grid, preparedCapacity: nat, n: nat) {
    n <= preparedCapacity && n < 0x1_0000_0000 && Placeable(grid, n)
  }

  /** In numbers: 17 copies of 192 header bits on one frequency, three of each payload bit on ten. */
  lemma AcceptsIs(grid: Grid, preparedCapacity: nat, n: nat)
    ensures Accepts(grid, preparedCapacity, n) <==>
      && n <= preparedCapacity && n < 0x1_0000_0000 && grid.wide < 0x1_0000 && grid.high < 0x1_0000
      && 17 * 192 <= grid.wide * grid.high && 10 * (grid.wide * grid.high) <= 0xFFFF_FFFF
      && 3 * (8 * n) <= 10 * (grid.wide * grid.high)
  {
    if n < 0x1_0000_0000 { PlaceableInNumbers(grid, n, grid.wide * grid.high); }
  }

  lemma PlaceableInNumbers(grid: Grid, n: nat, blocks: nat)
    requires blocks == grid.Blocks() && n < 0x1_0000_0000
    ensures Placeable(grid, n) <==>
      && grid.wide < 0x1_0000 && grid.high < 0x1_0000
      && 17 * 192 <= blocks && 10 * blocks <= 0xFFFF_FFFF && 3 * (8 * n) <= 10 * blocks
  {
    hide Grid.Blocks;
    assert HEADER_PLACEMENT.Candidates(grid) == blocks * 1 && PAYLOAD_PLACEMENT.Candidates(grid) == blocks * 10;
  }

  /** Header bits written first stay on their lattices when the payload's are written. */
  lemma HeaderStays(grid: Grid, mid: seq<Coefficient>, after: seq<Coefficient>, header: seq<Carrier>, payload: seq<Carrier>,
                    headerBits: seq<bool>, payloadBits: seq<bool>, f: seq<nat>, g: seq<nat>)
    requires OnLattices(mid, grid, header, headerBits) && PlacementWritten(grid, mid, after, payload, payloadBits)
    requires Separate(grid, header) && Separate(grid, payload)
    requires forall k :: 0 <= k < |header| ==> header[k].coefficient in f
    requires forall k :: 0 <= k < |payload| ==> payload[k].coefficient in g
    requires forall x :: x in g ==> x !in f
    ensures OnLattices(after, grid, header, headerBits)
  {
    hide Offset, OnLattice, Separate, Touches;
    forall i | 0 <= i < |header| ensures after[Offset(grid, header[i])] == mid[Offset(grid, header[i])] {
      DisjointPlacements(grid, header, payload, f, g, i);
    }
  }

  predicate MovedBy(a: int, b: int, limit: nat) {
    Abs(b - a) <= limit
  }

  /** What embedding changes: lattice positions of the two placements, and nothing else. */
  ghost predicate OnlyCarriersMoved(grid: Grid, keys: Keys, before: seq<Coefficient>, after: seq<Coefficient>, n: nat)
    requires keys.Fair() && Placeable(grid, n)
  {
    PlacementsAreValid();
    && |before| == |after|
    && (forall o :: 0 <= o < |before| ==> MovedBy(before[o], after[o], 7))
    && (forall o :: 0 <= o < |before| ==>
          || after[o] == before[o]
          || Touches(grid, CarriersOf(grid, HEADER_PLACEMENT, keys, HEADER_BITS), o)
          || Touches(grid, CarriersOf(grid, PAYLOAD_PLACEMENT, keys, 8 * n), o))
  }

  lemma MovedAtMostSeven(grid: Grid, before: seq<Coefficient>, after: seq<Coefficient>, carriers: seq<Carrier>, bits: seq<bool>, o: nat)
    requires PlacementWritten(grid, before, after, carriers, bits) && o < |before|
    ensures |after| == |before| && MovedBy(before[o], after[o], 7)
  {
    hide Offset, OnLattice, QimEncode;
    if Touches(grid, carriers, o) {
      var i :| 0 <= i < |carriers| && Offset(grid, carriers[i]) == o;
      assert after[o] == Encoded(before[o], carriers[i], bits[carriers[i].bit]);
    }
  }

  /** No coefficient is written twice, so each moves at most once. */
  lemma TwoPlacementsMove(grid: Grid, before: seq<Coefficient>, mid: seq<Coefficient>, after: seq<Coefficient>,
                          header: seq<Carrier>, payload: seq<Carrier>, headerBits: seq<bool>, payloadBits: seq<bool>,
                          f: seq<nat>, g: seq<nat>)
    requires PlacementWritten(grid, before, mid, header, headerBits) && PlacementWritten(grid, mid, after, payload, payloadBits)
    requires Separate(grid, header) && Separate(grid, payload)
    requires forall k :: 0 <= k < |header| ==> header[k].coefficient in f
    requires forall k :: 0 <= k < |payload| ==> payload[k].coefficient in g
    requires forall x :: x in g ==> x !in f
    ensures |before| == |after|
    ensures forall o :: 0 <= o < |before| ==> MovedBy(before[o], after[o], 7)
    ensures forall o :: 0 <= o < |before| ==> after[o] == before[o] || Touches(grid, header, o) || Touches(grid, payload, o)
  {
    hide Offset, OnLattices, QimEncode, Separate, Encoded, MovedBy;
    assert |before| == |mid| == |after|;
    forall o | 0 <= o < |before| ensures MovedBy(before[o], after[o], 7) {
      MovedAtMostSeven(grid, before, mid, header, headerBits, o);
      MovedAtMostSeven(grid, mid, after, payload, payloadBits, o);
      if Touches(grid, header, o) {
        var i :| 0 <= i < |header| && Offset(grid, header[i]) == o;
        DisjointPlacements(grid, header, payload, f, g, i);
      }
    }
  }

  /** Both placements, header first. */
  method WriteBoth(grid: Grid, luminance: array<Coefficient>, keys: Keys, payload: seq<Byte>)
    returns (r: Result<(), CarrierError>)
    requires keys.Fair() && luminance.Length == grid.Blocks() * 64 && |payload| < 0x1_0000_0000
    modifies luminance
    ensures r.Ok? <==> Placeable(grid, |payload|)
    ensures r.Ok? ==> Carries(grid, keys, luminance[..], payload)
    ensures r.Ok? ==> OnlyCarriersMoved(grid, keys, old(luminance[..]), luminance[..], |payload|)
  {
    PlacementsAreValid();
    hide Fits, Stream.Fair, Placement.Valid, Grid.Blocks, CarrierHeader, BitsOf;
    hide Separate, PlacementWritten, OnLattices, Touches, MovedBy;
    ghost var before := luminance[..];
    var header := CarrierHeader(keys, payload);
    var first := WritePlacement(grid, luminance, HEADER_PLACEMENT, keys, header);
    if first.Err? {
      return Err(first.error);
    }
    ghost var mid := luminance[..];
    var second := WritePlacement(grid, luminance, PAYLOAD_PLACEMENT, keys, payload);
    if second.Err? {
      return Err(second.error);
    }
    BothWritten(grid, keys, before, mid, luminance[..], payload);
    return Ok(());
  }

  lemma BothWritten(grid: Grid, keys: Keys, before: seq<Coefficient>, mid: seq<Coefficient>, after: seq<Coefficient>,
                    payload: seq<Byte>)
    requires keys.Fair() && |before| == grid.Blocks() * 64 && |payload| < 0x1_0000_0000
    requires Placeable(grid, |payload|) && HEADER_PLACEMENT.Valid() && PAYLOAD_PLACEMENT.Valid()
    requires PlacementWritten(grid, before, mid, CarriersOf(grid, HEADER_PLACEMENT, keys, HEADER_BITS),
                              BitsOf(CarrierHeader(keys, payload)))
    requires PlacementWritten(grid, mid, after, CarriersOf(grid, PAYLOAD_PLACEMENT, keys, 8 * |payload|), BitsOf(payload))
    ensures |after| == grid.Blocks() * 64 && Carries(grid, keys, after, payload)
    ensures OnlyCarriersMoved(grid, keys, before, after, |payload|)
  {
    PlacementsAreValid();
    hide Fits, Stream.Fair, Placement.Valid, Grid.Blocks, CarrierHeader, BitsOf;
    hide Separate, PlacementWritten, OnLattices, Touches, MovedBy;
    var h := CarriersOf(grid, HEADER_PLACEMENT, keys, HEADER_BITS);
    var p := CarriersOf(grid, PAYLOAD_PLACEMENT, keys, 8 * |payload|);
    var headerBits, bits := BitsOf(CarrierHeader(keys, payload)), BitsOf(payload);
    var f, g := HEADER_PLACEMENT.frequencies, PAYLOAD_PLACEMENT.frequencies;
    WrittenIsOnLattices(grid, before, mid, h, headerBits);
    WrittenIsOnLattices(grid, mid, after, p, bits);
    HeaderStays(grid, mid, after, h, p, headerBits, bits, f, g);
    TwoPlacementsMove(grid, before, mid, after, h, p, headerBits, bits, f, g);
  }

  lemma WrittenIsOnLattices(grid: Grid, before: seq<Coefficient>, after: seq<Coefficient>, carriers: seq<Carrier>, bits: seq<bool>)
    requires PlacementWritten(grid, before, after, carriers, bits)
    ensures |before| == |after| && OnLattices(after, grid, carriers, bits)
  {
  }

  /**
    Embeds in place. On success every received version that survives is read back
    exactly, and only the two placements' coefficients moved, each by at most 7.
   */
  method EmbedRedditPayload(grid: Grid, luminance: array<Coefficient>, keys: Keys, payload: seq<Byte>, preparedCapacity: nat)
    returns (r: Result<(), CarrierError>)
    requires keys.Fair() && luminance.Length == grid.Blocks() * 64
    modifies luminance
    ensures r.Ok? <==> Accepts(grid, preparedCapacity, |payload|)
    ensures r.Ok? <==>
      && |payload| <= preparedCapacity && |payload| < 0x1_0000_0000 && grid.wide < 0x1_0000 && grid.high < 0x1_0000
      && 17 * 192 <= grid.wide * grid.high && 10 * (grid.wide * grid.high) <= 0xFFFF_FFFF
      && 3 * (8 * |payload|) <= 10 * (grid.wide * grid.high)
    ensures r.Ok? ==> OnlyCarriersMoved(grid, keys, old(luminance[..]), luminance[..], |payload|)
    ensures r.Ok? ==> forall received: seq<Coefficient> ::
      |received| == luminance.Length && Survives(grid, keys, luminance[..], received, |payload|) ==>
        Carried(grid, received, keys) == Ok(Some(payload))
  {
    AcceptsIs(grid, preparedCapacity, |payload|);
    if |payload| > preparedCapacity || |payload| >= 0x1_0000_0000 {
      return Err(PayloadTooLarge);
    }
    if grid.Blocks() < HEADER_BITS * 17 {
      assert !Fits(grid, HEADER_PLACEMENT, HEADER_BITS);
      return Err(CoverTooSmall);
    }
    hide Placeable, Stream.Fair, Grid.Blocks, OnlyCarriersMoved, Survives, Carried, Carries;
    r := WriteBoth(grid, luminance, keys, payload);
    if r.Err? {
      return;
    }
    ghost var sent := luminance[..];
    forall received: seq<Coefficient> | |received| == luminance.Length && Survives(grid, keys, sent, received, |payload|)
      ensures Carried(grid, received, keys) == Ok(Some(payload))
    {
      CarriedThroughDamage(grid, keys, sent, received, payload);
    }
  }
}
