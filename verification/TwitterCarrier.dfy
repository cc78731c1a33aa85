/**
  The X-Twitter carrier on coefficients: a keyed selection of candidates carries a
  whitened header and payload through the syndrome-trellis code, one parity per
  coefficient. Hashes, change directions and costs are parameters.
 */
module TwitterCarrier {
  import opened Results
  import opened Bytes
  import opened KeyedShuffle
  import opened KeyedIndexPrefixes
  import opened CandidateOffsets
  import opened CandidateOrder
  import opened CarrierFormat
  import opened ParityEdits
  import opened StcRaw
  import opened StcTrellis
  import opened Stc

  const HEADER_BITS: nat := 192
  const HEADER_SYMBOLS: nat := 480

  const LAYOUT_DOMAIN: Word := 0x4a58535445474c31
  const HEADER_DOMAIN: Word := 0x4a58535445474831
  const PAYLOAD_DOMAIN: Word := 0x4a58535445475031
  const HEADER_DIRECTION_DOMAIN: Word := 0x4a58535445474448
  const PAYLOAD_DIRECTION_DOMAIN: Word := 0x4a58535445474450

  /** "JXSTEG4" and a zero byte; then version, trellis height and rate. */
  const HEADER_FORMAT: HeaderFormat := HeaderFormat([74, 88, 83, 84, 69, 71, 52, 0], [4, 7, 2, 5])

  /** What the carrier key and the checksum provide. `direction(seed, offset, index)` prefers up over down. */
  datatype Keys = Keys(prf: (Word, nat) -> Word, crc: seq<Byte> -> U32, direction: (Word, nat, nat) -> bool) {
    function Layout(): Stream { Stream(prf, LAYOUT_DOMAIN) }

    function HeaderStream(): Stream { Stream(prf, HEADER_DOMAIN) }

    function PayloadStream(): Stream { Stream(prf, PAYLOAD_DOMAIN) }

    function Directions(domain: Word): (nat, nat) -> bool {
      var seed := prf(domain, 0);
      (offset: nat, index: nat) => direction(seed, offset, index)
    }
  }

  datatype CarrierError =
    | Geometry(GeometryError)
    | PayloadTooLarge
    | SelectionTooLarge
    | DeclaredTooLarge
    | PayloadIntegrity
    | Format(FormatError)
    | ChangeCountMismatch

  // ----- Capacity -----

  /** Payload bytes an image takes: bounded by its nonzero coefficients and by its candidates. */
  function PayloadCapacity(counts: Counts): nat {
    if counts.candidates < HEADER_SYMBOLS then 0
    else
      var rateBudget := counts.nonzero * RATE_NUMERATOR / RATE_DENOMINATOR;
      if rateBudget <= HEADER_BITS then 0
      else
        var candidateBits := (counts.candidates - HEADER_SYMBOLS) * RATE_NUMERATOR / RATE_DENOMINATOR;
        var budgetBits := rateBudget - HEADER_BITS;
        (if budgetBits < candidateBits then budgetBits else candidateBits) / 8
  }

  /**
    The largest payload whose symbols fit beside the header's, and whose bits,
    header included, are at most two in five of the nonzero coefficients.
   */
  lemma CapacityIsExact(counts: Counts, n: nat)
    ensures n <= PayloadCapacity(counts) <==>
      || n == 0
      || (HEADER_SYMBOLS + CoverSymbols(8 * n) <= counts.candidates && 5 * (HEADER_BITS + 8 * n) <= 2 * counts.nonzero)
  {
    assert CoverSymbols(8 * n) == 20 * n;
  }

  /** The same, counted in the image itself. */
  lemma CapacityOfImage(info: ImageInfo, luminance: seq<int>, n: nat)
    requires AllBelow(Candidates(info), |luminance|)
    ensures n <= PayloadCapacity(TallyOf(luminance, Candidates(info))) <==>
      || n == 0
      || (&& HEADER_SYMBOLS + CoverSymbols(8 * n) <= |Candidates(info)|
          && 5 * (HEADER_BITS + 8 * n) <= 2 * |Nonzero(luminance, Candidates(info))|)
  {
    hide Candidates, TallyOf, Nonzero, PayloadCapacity;
    TallyCounts(luminance, Candidates(info));
    CapacityIsExact(TallyOf(luminance, Candidates(info)), n);
  }

  // ----- What a key reads from coefficients -----

  /** The bits carried by a selection. */
  function ReadBits(luminance: seq<Coefficient>, offsets: seq<nat>, count: nat): (bits: seq<bool>)
    requires InRange(offsets, |luminance|) && |offsets| == CoverSymbols(count)
    ensures |bits| == count
  {
    ExtractionLength(ParityBits(luminance, offsets), count);
    Extraction(ParityBits(luminance, offsets), count).value
  }

  function Unwhitened(bits: seq<bool>, count: nat, stream: Stream): (bytes: seq<Byte>)
    requires |bits| == 8 * count
    ensures |bytes| == count
  {
    BytesOf(Whitened(bits, stream))
  }

  function ReadBytes(luminance: seq<Coefficient>, offsets: seq<nat>, count: nat, stream: Stream): (bytes: seq<Byte>)
    requires InRange(offsets, |luminance|) && |offsets| == CoverSymbols(8 * count)
    ensures |bytes| == count
  {
    hide *;
    Unwhitened(ReadBits(luminance, offsets, 8 * count), count, stream)
  }

  ghost predicate Selectable(info: ImageInfo, keys: Keys, count: nat) {
    Indexable(info) && keys.Layout().Fair() && count <= |Candidates(info)|
  }

  ghost function HeaderOffsets(info: ImageInfo, keys: Keys): (offsets: seq<nat>)
    requires Selectable(info, keys, HEADER_SYMBOLS)
    ensures |offsets| == HEADER_SYMBOLS && InRange(offsets, CoefficientCount(info))
  {
    OrderSelects(info, keys.Layout(), HEADER_SYMBOLS);
    Order(info, keys.Layout(), HEADER_SYMBOLS)
  }

  ghost function PayloadOffsets(info: ImageInfo, keys: Keys, symbols: nat): (offsets: seq<nat>)
    requires Selectable(info, keys, HEADER_SYMBOLS + symbols)
    ensures |offsets| == symbols && InRange(offsets, CoefficientCount(info))
  {
    OrderSelects(info, keys.Layout(), HEADER_SYMBOLS + symbols);
    Order(info, keys.Layout(), HEADER_SYMBOLS + symbols)[HEADER_SYMBOLS..]
  }

  /** The payload a header declares, checked against the selection's size and the checksum. */
  ghost function Declared(info: ImageInfo, luminance: seq<Coefficient>, keys: Keys, h: Header):
    Result<Option<seq<Byte>>, CarrierError>
    requires Selectable(info, keys, HEADER_SYMBOLS) && |luminance| == CoefficientCount(info)
  {
    var symbols := CoverSymbols(8 * h.payloadSize);
    if symbols > |Candidates(info)| - HEADER_SYMBOLS then Err(DeclaredTooLarge)
    else
      var payload := ReadBytes(luminance, PayloadOffsets(info, keys, symbols), h.payloadSize, keys.PayloadStream());
      if keys.crc(payload) != h.payloadCrc then Err(PayloadIntegrity) else Ok(Some(payload))
  }

  /** The header at the front of the order. */
  ghost function HeaderRead(info: ImageInfo, luminance: seq<Coefficient>, keys: Keys): Result<Option<Header>, FormatError>
    requires Selectable(info, keys, HEADER_SYMBOLS) && |luminance| == CoefficientCount(info)
  {
    ParseHeader(HEADER_FORMAT, ReadBytes(luminance, HeaderOffsets(info, keys), HEADER_BYTES, keys.HeaderStream()), keys.crc)
  }

  /** The carrier's content under these keys: None when there is no header of theirs. */
  ghost function Carried(info: ImageInfo, luminance: seq<Coefficient>, keys: Keys): Result<Option<seq<Byte>>, CarrierError>
    requires Selectable(info, keys, 0) && |luminance| == CoefficientCount(info)
  {
    if |Candidates(info)| < HEADER_SYMBOLS then Err(SelectionTooLarge)
    else match HeaderRead(info, luminance, keys)
      case Err(e) => Err(Format(e))
      case Ok(None) => Ok(None)
      case Ok(Some(h)) => Declared(info, luminance, keys, h)
  }

  /** The bytes the front of the order carries under the header's keys. */
  ghost function HeaderBytesRead(info: ImageInfo, luminance: seq<Coefficient>, keys: Keys): (bytes: seq<Byte>)
    requires Selectable(info, keys, HEADER_SYMBOLS) && |luminance| == CoefficientCount(info)
    ensures |bytes| == HEADER_BYTES
  {
    ReadBytes(luminance, HeaderOffsets(info, keys), HEADER_BYTES, keys.HeaderStream())
  }

  /** The header of `payload`, with its size and checksum, stands at the front of the order and `payload` itself behind it. */
  ghost predicate HoldsPayload(info: ImageInfo, luminance: seq<Coefficient>, keys: Keys, payload: seq<Byte>)
    requires Selectable(info, keys, 0) && |luminance| == CoefficientCount(info)
  {
    var symbols := CoverSymbols(8 * |payload|);
    && |payload| < 0x1_0000_0000
    && HEADER_SYMBOLS + symbols <= |Candidates(info)|
    && HeaderBytesRead(info, luminance, keys) == MakeHeader(HEADER_FORMAT, Header(|payload|, keys.crc(payload)), keys.crc)
    && ReadBytes(luminance, PayloadOffsets(info, keys, symbols), |payload|, keys.PayloadStream()) == payload
  }

  /** The keys read `payload` exactly when it is held, intact, under a header of its own. */
  lemma CarriedIs(info: ImageInfo, luminance: seq<Coefficient>, keys: Keys, payload: seq<Byte>)
    requires Selectable(info, keys, 0) && |luminance| == CoefficientCount(info)
    ensures Carried(info, luminance, keys) == Ok(Some(payload)) <==> HoldsPayload(info, luminance, keys, payload)
  {
    hide ReadBytes, HeaderOffsets, PayloadOffsets, ParseHeader, MakeHeader, Candidates, CoefficientCount, Stream.Fair, Indexable;
    if |Candidates(info)| >= HEADER_SYMBOLS {
      var bytes := HeaderBytesRead(info, luminance, keys);
      if HeaderRead(info, luminance, keys).Ok? && HeaderRead(info, luminance, keys).value.Some? {
        HeaderRoundTrip(HEADER_FORMAT, bytes, HeaderRead(info, luminance, keys).value.value, keys.crc);
      }
      if |payload| < 0x1_0000_0000 {
        HeaderRoundTrip(HEADER_FORMAT, bytes, Header(|payload|, keys.crc(payload)), keys.crc);
      }
    }
  }

  /** They read nothing exactly when the front of the order does not begin with the format's magic. */
  lemma NothingIsCarried(info: ImageInfo, luminance: seq<Coefficient>, keys: Keys)
    requires Selectable(info, keys, 0) && |luminance| == CoefficientCount(info)
    ensures Carried(info, luminance, keys) == Ok(None) <==>
      |Candidates(info)| >= HEADER_SYMBOLS
      && HeaderBytesRead(info, luminance, keys)[..8] != [74, 88, 83, 84, 69, 71, 52, 0]
  {
    hide ReadBytes, HeaderOffsets, PayloadOffsets, ParseHeader, Candidates, CoefficientCount, Stream.Fair, Indexable;
    if |Candidates(info)| >= HEADER_SYMBOLS { NoHeader(HEADER_FORMAT, HeaderBytesRead(info, luminance, keys), keys.crc); }
  }

  /** A header in place whose payload does not fit, or has another checksum, is an error of its own. */
  lemma DeclaredFaults(info: ImageInfo, luminance: seq<Coefficient>, keys: Keys, h: Header)
    requires Selectable(info, keys, HEADER_SYMBOLS) && |luminance| == CoefficientCount(info)
    requires HeaderBytesRead(info, luminance, keys) == MakeHeader(HEADER_FORMAT, h, keys.crc)
    ensures var fits := HEADER_SYMBOLS + CoverSymbols(8 * h.payloadSize) <= |Candidates(info)|;
      && (Carried(info, luminance, keys) == Err(DeclaredTooLarge) <==> !fits)
      && (Carried(info, luminance, keys) == Err(PayloadIntegrity) <==>
            fits && keys.crc(ReadBytes(luminance, PayloadOffsets(info, keys, CoverSymbols(8 * h.payloadSize)),
                                       h.payloadSize, keys.PayloadStream())) != h.payloadCrc)
  {
    hide ReadBytes, HeaderOffsets, PayloadOffsets, ParseHeader, MakeHeader, Candidates, CoefficientCount, Stream.Fair, Indexable;
    HeaderRoundTrip(HEADER_FORMAT, HeaderBytesRead(info, luminance, keys), h, keys.crc);
  }

  method Unwhiten(bits: seq<bool>, count: nat, stream: Stream) returns (bytes: seq<Byte>)
    requires |bits| == 8 * count
    ensures bytes == Unwhitened(bits, count, stream)
  {
    hide Whitened, BytesOf;
    var whitened := Whiten(bits, stream);
    var packed := BitsToBytes(whitened);
    bytes := packed.value;
  }

  method Whiten(bits: seq<bool>, stream: Stream) returns (whitened: seq<bool>)
    ensures whitened == Whitened(bits, stream)
  {
    var buffer := new bool[|bits|](i requires 0 <= i < |bits| => bits[i]);
    assert buffer[..] == bits;
    WhitenBits(buffer, stream);
    whitened := buffer[..];
  }

  /** Reads and unwhitens the bytes of one selection. */
  method ReadSelection(luminance: seq<Coefficient>, offsets: seq<nat>, count: nat, stream: Stream)
    returns (bytes: seq<Byte>)
    requires InRange(offsets, |luminance|) && |offsets| == CoverSymbols(8 * count)
    ensures bytes == ReadBytes(luminance, offsets, count, stream)
  {
    hide Extraction, Unwhitened, ParityBits;
    var parities := CoefficientParityBits(luminance, offsets);
    var stego := parities.value;
    ExtractionLength(stego, 8 * count);
    var extracted := StcExtract(stego, 8 * count);
    bytes := Unwhiten(extracted.value, count, stream);
  }

  /** Extends the order as far as the header declares, and reads the payload there. */
  method ReadDeclared(order: KeyedCandidateOrder, luminance: seq<Coefficient>, keys: Keys, header: Header)
    returns (r: Result<Option<seq<Byte>>, CarrierError>)
    requires order.Valid() && order.order.draws.stream == keys.Layout()
    requires Selectable(order.info, keys, HEADER_SYMBOLS) && |luminance| == CoefficientCount(order.info)
    modifies order.order, order.order.draws
    ensures r == Declared(order.info, luminance, keys, header)
  {
    hide Candidates, Order, ReadBytes, Stream.Fair, Covers, Addressable, CoefficientCount, KeyedIndexPrefix.Valid;
    ghost var info := order.info;
    var symbols := CoverSymbols(8 * header.payloadSize);
    if symbols > order.order.size - HEADER_SYMBOLS {
      return Err(DeclaredTooLarge);
    }
    var offsets := order.Offsets(HEADER_SYMBOLS, symbols);
    var payloadOffsets := offsets.value;
    assert payloadOffsets == PayloadOffsets(info, keys, symbols);
    var payload := ReadSelection(luminance, payloadOffsets, header.payloadSize, keys.PayloadStream());
    if keys.crc(payload) != header.payloadCrc {
      return Err(PayloadIntegrity);
    }
    return Ok(Some(payload));
  }

  /** Reads the header from the front of a fresh order. */
  method ReadHeader(order: KeyedCandidateOrder, luminance: seq<Coefficient>, keys: Keys)
    returns (r: Result<Option<Header>, CarrierError>)
    requires order.Valid() && order.order.draws.stream == keys.Layout()
    requires Selectable(order.info, keys, 0) && |luminance| == CoefficientCount(order.info)
    modifies order.order, order.order.draws
    ensures order.Valid()
    ensures if |Candidates(order.info)| < HEADER_SYMBOLS then r == Err(SelectionTooLarge)
            else match HeaderRead(order.info, luminance, keys)
              case Err(e) => r == Err(Format(e))
              case Ok(h) => r == Ok(h)
  {
    hide Candidates, Order, ReadBytes, ParseHeader, Stream.Fair, Covers, Addressable, CoefficientCount;
    hide KeyedIndexPrefix.Valid, KeyedPrefix, Size;
    ghost var info := order.info;
    var headerOffsets := order.Offsets(0, HEADER_SYMBOLS);
    if headerOffsets.Err? {
      return Err(SelectionTooLarge);
    }
    assert headerOffsets.value == HeaderOffsets(info, keys);
    var bytes := ReadSelection(luminance, headerOffsets.value, HEADER_BYTES, keys.HeaderStream());
    var parsed := ParseHeader(HEADER_FORMAT, bytes, keys.crc);
    if parsed.Err? {
      return Err(Format(parsed.error));
    }
    return Ok(parsed.value);
  }

  /** Reads the header first, then as much of the order as the header declares. */
  method ExtractWithKey(info: ImageInfo, luminance: seq<Coefficient>, keys: Keys)
    returns (r: Result<Option<seq<Byte>>, CarrierError>)
    requires Selectable(info, keys, 0)
    ensures var fault := GeometryFault(CoefficientImage(info, luminance));
      if fault.Some? then r == Err(Geometry(fault.value)) else r == Carried(info, luminance, keys)
    ensures GeometryFault(CoefficientImage(info, luminance)).None? ==>
      && (forall payload :: r == Ok(Some(payload)) <==> HoldsPayload(info, luminance, keys, payload))
      && (r == Ok(None) <==> |Candidates(info)| >= HEADER_SYMBOLS &&
                             HeaderBytesRead(info, luminance, keys)[..8] != [74, 88, 83, 84, 69, 71, 52, 0])
  {
    hide HoldsPayload, HeaderBytesRead, GeometryFault;
    var fault := GeometryFault(CoefficientImage(info, luminance));
    if fault.Some? {
      return Err(Geometry(fault.value));
    }
    FaultFree(CoefficientImage(info, luminance));
    forall payload
      ensures Carried(info, luminance, keys) == Ok(Some(payload)) <==> HoldsPayload(info, luminance, keys, payload)
    {
      CarriedIs(info, luminance, keys, payload);
    }
    NothingIsCarried(info, luminance, keys);
    hide Candidates, Order, HeaderRead, Declared, Stream.Fair, Covers, Addressable, CoefficientCount;
    hide KeyedIndexPrefix.Valid;
    var order := new KeyedCandidateOrder(info, keys.Layout());
    var header := ReadHeader(order, luminance, keys);
    if header.Err? {
      return Err(header.error);
    }
    if header.value.None? {
      return Ok(None);
    }
    r := ReadDeclared(order, luminance, keys, header.value.value);
  }

  // ----- Embedding -----

  function Priced(costAt: nat -> FlipCost, offsets: seq<nat>): (costs: seq<FlipCost>)
    ensures |costs| == |offsets|
  {
    if offsets == [] then []
    else Priced(costAt, offsets[..|offsets| - 1]) + [costAt(offsets[|offsets| - 1])]
  }

  lemma {:induction false} PricedAt(costAt: nat -> FlipCost, offsets: seq<nat>, i: nat)
    requires i < |offsets|
    ensures Priced(costAt, offsets)[i] == costAt(offsets[i])
  {
    if i < |offsets| - 1 { PricedAt(costAt, offsets[..|offsets| - 1], i); }
  }

  lemma PricedSlice(costAt: nat -> FlipCost, offsets: seq<nat>, lo: nat, hi: nat)
    requires lo <= hi <= |offsets|
    ensures Priced(costAt, offsets[lo..hi]) == Priced(costAt, offsets)[lo..hi]
  {
    hide Priced;
    forall i | 0 <= i < hi - lo ensures Priced(costAt, offsets[lo..hi])[i] == Priced(costAt, offsets)[lo..hi][i] {
      PricedAt(costAt, offsets[lo..hi], i);
      PricedAt(costAt, offsets, lo + i);
    }
  }

  /** No other parities on this selection would carry the same bits for less. */
  ghost predicate CheapestParities(before: seq<Coefficient>, after: seq<Coefficient>, offsets: seq<nat>,
                                   costAt: nat -> FlipCost, count: nat)
    requires |before| == |after| && InRange(offsets, |before|)
  {
    forall y: seq<bool> :: |y| == |offsets| && Extraction(y, count) == Extraction(ParityBits(after, offsets), count) ==>
      TotalCost(ParityBits(before, offsets), Priced(costAt, offsets), ParityBits(after, offsets))
      <= TotalCost(ParityBits(before, offsets), Priced(costAt, offsets), y)
  }

  /** Only selected coefficients differ, by at most one each. */
  ghost predicate MovedSlightly(before: seq<Coefficient>, after: seq<Coefficient>, offsets: seq<nat>) {
    && |before| == |after|
    && (forall o :: 0 <= o < |before| && o !in offsets ==> after[o] == before[o])
    && (forall o :: 0 <= o < |before| ==> Near(after[o], before[o]))
  }

  /** Two edits of disjoint selections do not disturb each other. */
  lemma TwoEdits(before: seq<Coefficient>, mid: seq<Coefficient>, after: seq<Coefficient>, first: seq<nat>, second: seq<nat>,
                 firstBits: seq<bool>, secondBits: seq<bool>, up: (nat, nat) -> bool, upToo: (nat, nat) -> bool)
    requires |before| == |mid| == |after| && InRange(first + second, |before|) && Distinct(first + second)
    requires InRange(first, |before|) && InRange(second, |before|)
    requires |firstBits| == |first| && |secondBits| == |second|
    requires EditedTo(before, mid, first, firstBits, up) && EditedTo(mid, after, second, secondBits, upToo)
    ensures ParityBits(after, first) == firstBits && ParityBits(after, second) == secondBits
    ensures ParityBits(mid, second) == ParityBits(before, second)
    ensures MovedSlightly(before, after, first + second)
    ensures MovedAsKeyed(before, after, first, up) && MovedAsKeyed(before, after, second, upToo)
  {
    var all := first + second;
    EditedCarries(before, mid, first, firstBits, up);
    EditedCarries(mid, after, second, secondBits, upToo);
    forall i | 0 <= i < |second| ensures second[i] !in first && mid[second[i]] == before[second[i]] {
      assert all[|first| + i] == second[i];
      assert forall j :: 0 <= j < |first| ==> all[j] == first[j];
    }
    forall i | 0 <= i < |first| ensures first[i] !in second && after[first[i]] == mid[first[i]] {
      assert all[i] == first[i];
      assert forall j :: 0 <= j < |second| ==> all[|first| + j] == second[j];
    }
    hide Edited;
    ParityBitsAgree(mid, before, second);
    ParityBitsAgree(after, mid, first);
    EditedAsKeyed(before, mid, first, firstBits, up);
    EditedAsKeyed(mid, after, second, secondBits, upToo);
  }

  lemma DistinctParts(offsets: seq<nat>, first: nat, n: nat)
    requires first <= |offsets| && Distinct(offsets) && InRange(offsets, n)
    ensures Distinct(offsets[..first]) && Distinct(offsets[first..])
    ensures InRange(offsets[..first], n) && InRange(offsets[first..], n)
    ensures offsets[..first] + offsets[first..] == offsets
  {
  }

  /** Edits one selection in place; the count of moves is the distance to the parities it had. */
  method WriteSelection(coefficients: array<Coefficient>, offsets: seq<nat>, stego: seq<bool>, up: (nat, nat) -> bool)
    returns (changes: nat)
    requires |offsets| == |stego| && InRange(offsets, coefficients.Length) && Distinct(offsets)
    modifies coefficients
    ensures EditedTo(old(coefficients[..]), coefficients[..], offsets, stego, up)
    ensures changes == Hamming(stego, ParityBits(old(coefficients[..]), offsets))
  {
    ghost var before := coefficients[..];
    var r := ApplyParityBits(coefficients, offsets, stego, up);
    AppliedEdits(before, offsets, stego, up, |offsets|);
    MovedCounts(before, offsets, stego, up, |offsets|);
    assert offsets[..|offsets|] == offsets && stego[..|offsets|] == stego;
    changes := r.value;
  }

  /** Edits header and payload selections in place; the changes always add up. */
  method WriteCarrier(coefficients: array<Coefficient>, offsets: seq<nat>, keys: Keys,
                      header: EmbedResult, payload: EmbedResult)
    returns (matched: bool)
    requires InRange(offsets, coefficients.Length) && Distinct(offsets)
    requires |offsets| >= HEADER_SYMBOLS == |header.stego| && |payload.stego| == |offsets| - HEADER_SYMBOLS
    requires InRange(offsets[..HEADER_SYMBOLS], coefficients.Length) && InRange(offsets[HEADER_SYMBOLS..], coefficients.Length)
    requires header.changes == Hamming(header.stego, ParityBits(coefficients[..], offsets[..HEADER_SYMBOLS]))
    requires payload.changes == Hamming(payload.stego, ParityBits(coefficients[..], offsets[HEADER_SYMBOLS..]))
    modifies coefficients
    ensures matched
    ensures ParityBits(coefficients[..], offsets[..HEADER_SYMBOLS]) == header.stego
    ensures ParityBits(coefficients[..], offsets[HEADER_SYMBOLS..]) == payload.stego
    ensures MovedSlightly(old(coefficients[..]), coefficients[..], offsets)
    ensures MovedAsKeyed(old(coefficients[..]), coefficients[..], offsets[..HEADER_SYMBOLS],
                         keys.Directions(HEADER_DIRECTION_DOMAIN))
    ensures MovedAsKeyed(old(coefficients[..]), coefficients[..], offsets[HEADER_SYMBOLS..],
                         keys.Directions(PAYLOAD_DIRECTION_DOMAIN))
  {
    hide EditedTo, Hamming, ParityBits, MovedAsKeyed;
    ghost var before := coefficients[..];
    var first, second := offsets[..HEADER_SYMBOLS], offsets[HEADER_SYMBOLS..];
    DistinctParts(offsets, HEADER_SYMBOLS, |before|);
    var up, upToo := keys.Directions(HEADER_DIRECTION_DOMAIN), keys.Directions(PAYLOAD_DIRECTION_DOMAIN);
    hide Distinct;
    var headerChanges := WriteSelection(coefficients, first, header.stego, up);
    ghost var mid := coefficients[..];
    var payloadChanges := WriteSelection(coefficients, second, payload.stego, upToo);
    TwoEdits(before, mid, coefficients[..], first, second, header.stego, payload.stego, up, upToo);
    matched := headerChanges == header.changes && payloadChanges == payload.changes;
  }

  /** Bytes whitened and embedded on a selection read back. */
  lemma BytesReadBack(luminance: seq<Coefficient>, offsets: seq<nat>, bytes: seq<Byte>, stream: Stream)
    requires InRange(offsets, |luminance|) && |offsets| == CoverSymbols(8 * |bytes|)
    requires Extraction(ParityBits(luminance, offsets), 8 * |bytes|) == Ok(Whitened(BitsOf(bytes), stream))
    ensures ReadBytes(luminance, offsets, |bytes|, stream) == bytes
  {
    hide Extraction, ParityBits, Whitened, BitsOf, BytesOf;
    WhitenedTwice(BitsOf(bytes), stream);
    BytesOfBitsOf(bytes);
  }

  /** Exactly when embedding accepts a payload of `n` bytes. */
  ghost predicate Accepts(info: ImageInfo, luminance: seq<Coefficient>, preparedCapacity: nat, n: nat) {
    && n <= preparedCapacity
    && n < 0x1_0000_0000
    && GeometryFault(CoefficientImage(info, luminance)).None?
    && |Candidates(info)| >= HEADER_SYMBOLS
    && AllBelow(Candidates(info), |luminance|)
    && n <= PayloadCapacity(TallyOf(luminance, Candidates(info)))
  }

  /** In numbers: 20 symbols a byte beside the header's 480, and two bits in five nonzero coefficients, the header's 192 included. */
  lemma AcceptsIs(info: ImageInfo, luminance: seq<Coefficient>, preparedCapacity: nat, n: nat)
    ensures Accepts(info, luminance, preparedCapacity, n) <==>
      && n <= preparedCapacity && n < 0x1_0000_0000
      && GeometryFault(CoefficientImage(info, luminance)).None?
      && |Candidates(info)| >= 480 && AllBelow(Candidates(info), |luminance|)
      && (n == 0 || (&& 480 + 20 * n <= |Candidates(info)|
                     && 5 * (192 + 8 * n) <= 2 * |Nonzero(luminance, Candidates(info))|))
  {
    hide Candidates, GeometryFault, TallyOf, PayloadCapacity, Nonzero;
    assert CoverSymbols(8 * n) == 20 * n;
    if AllBelow(Candidates(info), |luminance|) { CapacityOfImage(info, luminance, n); }
  }

  lemma AcceptedFits(info: ImageInfo, luminance: seq<Coefficient>, preparedCapacity: nat, n: nat)
    requires Accepts(info, luminance, preparedCapacity, n)
    ensures HEADER_SYMBOLS + CoverSymbols(8 * n) <= |Candidates(info)|
  {
    hide Candidates, GeometryFault, TallyOf, PayloadCapacity;
    TallyCounts(luminance, Candidates(info));
    CapacityIsExact(TallyOf(luminance, Candidates(info)), n);
  }

  /** The size and capacity checks, in the original's order. */
  method CheckPayload(info: ImageInfo, luminance: seq<Coefficient>, preparedCapacity: nat, n: nat)
    returns (fault: Option<CarrierError>)
    requires Indexable(info)
    ensures fault.None? && |Candidates(info)| >= HEADER_SYMBOLS <==> Accepts(info, luminance, preparedCapacity, n)
    ensures fault.None? ==> |luminance| == CoefficientCount(info)
  {
    if n > preparedCapacity || n >= 0x1_0000_0000 {
      return Some(PayloadTooLarge);
    }
    CandidatesFit(info);
    hide Candidates, Covers, PayloadCapacity;
    var counted := CountCarrierCandidates(CoefficientImage(info, luminance));
    if counted.Err? {
      return Some(Geometry(counted.error));
    }
    if n > PayloadCapacity(counted.value) {
      return Some(PayloadTooLarge);
    }
    return None;
  }

  /** The original's whitened bits of some bytes. */
  method WhitenedBytes(bytes: seq<Byte>, stream: Stream) returns (bits: seq<bool>)
    ensures bits == Whitened(BitsOf(bytes), stream)
  {
    hide Whitened, BitsOf;
    var plain := BytesToBits(bytes);
    bits := Whiten(plain, stream);
  }

  /** `stego` carries `bits`, costs least among those that do, and `changes` counts its flips. */
  ghost predicate CheapCarrier(cover: seq<bool>, costs: seq<FlipCost>, bits: seq<bool>, r: EmbedResult)
    requires |cover| == |costs|
  {
    && |r.stego| == |cover|
    && Extraction(r.stego, |bits|) == Ok(bits)
    && (forall y :: |y| == |cover| && Extraction(y, |bits|) == Ok(bits) ==>
          TotalCost(cover, costs, r.stego) <= TotalCost(cover, costs, y))
    && r.changes == Hamming(r.stego, cover)
  }

  /** Embeds whitened bytes on one selection's parities. */
  method EmbedBytes(cover: seq<bool>, costs: seq<FlipCost>, bytes: seq<Byte>, stream: Stream) returns (r: EmbedResult)
    requires |cover| == |costs| == CoverSymbols(8 * |bytes|)
    ensures CheapCarrier(cover, costs, Whitened(BitsOf(bytes), stream), r)
  {
    hide Whitened, BitsOf, Extraction, TotalCost, Hamming;
    var bits := WhitenedBytes(bytes, stream);
    var embedded := StcEmbed(cover, costs, bits);
    r := embedded.value;
  }

  lemma CheapParities(before: seq<Coefficient>, after: seq<Coefficient>, offsets: seq<nat>, costAt: nat -> FlipCost,
                      bits: seq<bool>, r: EmbedResult)
    requires |before| == |after| && InRange(offsets, |before|)
    requires CheapCarrier(ParityBits(before, offsets), Priced(costAt, offsets), bits, r)
    requires ParityBits(after, offsets) == r.stego
    ensures CheapestParities(before, after, offsets, costAt, |bits|)
  {
    hide ParityBits, Priced, Extraction, TotalCost, Hamming;
  }

  /** The coefficients after embedding: read back, barely moved, and no dearer than need be. */
  ghost predicate CarriesCheaply(info: ImageInfo, before: seq<Coefficient>, after: seq<Coefficient>, keys: Keys,
                                 payload: seq<Byte>, costAt: nat -> FlipCost)
    requires Selectable(info, keys, HEADER_SYMBOLS + CoverSymbols(8 * |payload|)) && |before| == CoefficientCount(info)
  {
    var symbols := CoverSymbols(8 * |payload|);
    && MovedSlightly(before, after, HeaderOffsets(info, keys) + PayloadOffsets(info, keys, symbols))
    && MovedAsKeyed(before, after, HeaderOffsets(info, keys), keys.Directions(HEADER_DIRECTION_DOMAIN))
    && MovedAsKeyed(before, after, PayloadOffsets(info, keys, symbols), keys.Directions(PAYLOAD_DIRECTION_DOMAIN))
    && Carried(info, after, keys) == Ok(Some(payload))
    && CheapestParities(before, after, HeaderOffsets(info, keys), costAt, HEADER_BITS)
    && CheapestParities(before, after, PayloadOffsets(info, keys, symbols), costAt, 8 * |payload|)
  }

  /** The header and payload selections are the two parts of one draw. */
  lemma SelectionParts(info: ImageInfo, keys: Keys, symbols: nat)
    requires Selectable(info, keys, HEADER_SYMBOLS + symbols)
    ensures var offsets := Order(info, keys.Layout(), HEADER_SYMBOLS + symbols);
      && InRange(offsets, CoefficientCount(info)) && Distinct(offsets)
      && offsets[..HEADER_SYMBOLS] == HeaderOffsets(info, keys)
      && offsets[HEADER_SYMBOLS..] == PayloadOffsets(info, keys, symbols)
      && offsets == HeaderOffsets(info, keys) + PayloadOffsets(info, keys, symbols)
  {
    OrderSelects(info, keys.Layout(), HEADER_SYMBOLS + symbols);
    OrderExtends(info, keys.Layout(), HEADER_SYMBOLS, HEADER_SYMBOLS + symbols);
    hide Order, Candidates, CoefficientCount, Stream.Fair;
  }

  /** What was written on the two selections is what the keys read. */
  lemma WrittenIsCarried(info: ImageInfo, before: seq<Coefficient>, after: seq<Coefficient>, keys: Keys,
                         payload: seq<Byte>, costAt: nat -> FlipCost, header: EmbedResult, body: EmbedResult)
    requires |payload| < 0x1_0000_0000
    requires Selectable(info, keys, HEADER_SYMBOLS + CoverSymbols(8 * |payload|)) && |before| == CoefficientCount(info)
    requires var ho, po := HeaderOffsets(info, keys), PayloadOffsets(info, keys, CoverSymbols(8 * |payload|));
      && MovedSlightly(before, after, ho + po)
      && MovedAsKeyed(before, after, ho, keys.Directions(HEADER_DIRECTION_DOMAIN))
      && MovedAsKeyed(before, after, po, keys.Directions(PAYLOAD_DIRECTION_DOMAIN))
      && ParityBits(after, ho) == header.stego && ParityBits(after, po) == body.stego
      && CheapCarrier(ParityBits(before, ho), Priced(costAt, ho),
           Whitened(BitsOf(MakeHeader(HEADER_FORMAT, Header(|payload|, keys.crc(payload)), keys.crc)), keys.HeaderStream()),
           header)
      && CheapCarrier(ParityBits(before, po), Priced(costAt, po), Whitened(BitsOf(payload), keys.PayloadStream()), body)
    ensures CarriesCheaply(info, before, after, keys, payload, costAt)
  {
    var ho, po := HeaderOffsets(info, keys), PayloadOffsets(info, keys, CoverSymbols(8 * |payload|));
    var headerBytes := MakeHeader(HEADER_FORMAT, Header(|payload|, keys.crc(payload)), keys.crc);
    hide HeaderOffsets, PayloadOffsets, ParityBits, Priced, MakeHeader, BitsOf, Whitened, Extraction, TotalCost, Hamming;
    hide Candidates, Stream.Fair, Covers, Addressable, CoefficientCount, CheapestParities, ReadBytes, Carried, MovedAsKeyed;
    BytesReadBack(after, ho, headerBytes, keys.HeaderStream());
    BytesReadBack(after, po, payload, keys.PayloadStream());
    assert HoldsPayload(info, after, keys, payload);
    CarriedIs(info, after, keys, payload);
    CheapParities(before, after, ho, costAt, Whitened(BitsOf(headerBytes), keys.HeaderStream()), header);
    CheapParities(before, after, po, costAt, Whitened(BitsOf(payload), keys.PayloadStream()), body);
  }

  function CarrierHeader(keys: Keys, payload: seq<Byte>): (bytes: seq<Byte>)
    requires |payload| < 0x1_0000_0000
    ensures |bytes| == HEADER_BYTES
  {
    MakeHeader(HEADER_FORMAT, Header(|payload|, keys.crc(payload)), keys.crc)
  }

  /** Encodes header and payload against the parities and costs of the selection. */
  method EncodeCarrier(luminance: seq<Coefficient>, offsets: seq<nat>, keys: Keys, payload: seq<Byte>, costAt: nat -> FlipCost)
    returns (header: EmbedResult, body: EmbedResult)
    requires |payload| < 0x1_0000_0000 && |offsets| == HEADER_SYMBOLS + CoverSymbols(8 * |payload|)
    requires InRange(offsets, |luminance|)
    ensures InRange(offsets[..HEADER_SYMBOLS], |luminance|) && InRange(offsets[HEADER_SYMBOLS..], |luminance|)
    ensures CheapCarrier(ParityBits(luminance, offsets[..HEADER_SYMBOLS]), Priced(costAt, offsets[..HEADER_SYMBOLS]),
                         Whitened(BitsOf(CarrierHeader(keys, payload)), keys.HeaderStream()), header)
    ensures CheapCarrier(ParityBits(luminance, offsets[HEADER_SYMBOLS..]), Priced(costAt, offsets[HEADER_SYMBOLS..]),
                         Whitened(BitsOf(payload), keys.PayloadStream()), body)
  {
    hide ParityBits, Priced, CheapCarrier, MakeHeader, BitsOf, Whitened;
    var parities := CoefficientParityBits(luminance, offsets);
    var cover := parities.value;
    var costs := Priced(costAt, offsets);
    assert offsets[0..HEADER_SYMBOLS] == offsets[..HEADER_SYMBOLS];
    assert offsets[HEADER_SYMBOLS..|offsets|] == offsets[HEADER_SYMBOLS..];
    ParityBitsSlice(luminance, offsets, 0, HEADER_SYMBOLS);
    ParityBitsSlice(luminance, offsets, HEADER_SYMBOLS, |offsets|);
    PricedSlice(costAt, offsets, 0, HEADER_SYMBOLS);
    PricedSlice(costAt, offsets, HEADER_SYMBOLS, |offsets|);
    assert cover[0..HEADER_SYMBOLS] == cover[..HEADER_SYMBOLS] && cover[HEADER_SYMBOLS..|offsets|] == cover[HEADER_SYMBOLS..];
    assert costs[0..HEADER_SYMBOLS] == costs[..HEADER_SYMBOLS] && costs[HEADER_SYMBOLS..|offsets|] == costs[HEADER_SYMBOLS..];
    header := EmbedBytes(cover[..HEADER_SYMBOLS], costs[..HEADER_SYMBOLS], CarrierHeader(keys, payload), keys.HeaderStream());
    body := EmbedBytes(cover[HEADER_SYMBOLS..], costs[HEADER_SYMBOLS..], payload, keys.PayloadStream());
  }

  lemma CheapCarrierChanges(cover: seq<bool>, costs: seq<FlipCost>, bits: seq<bool>, r: EmbedResult)
    requires |cover| == |costs| && CheapCarrier(cover, costs, bits, r)
    ensures |r.stego| == |cover| && r.changes == Hamming(r.stego, cover)
  {
  }

  /** Encodes on a selection and writes it in place. */
  method EmbedOnSelection(coefficients: array<Coefficient>, info: ImageInfo, offsets: seq<nat>, keys: Keys,
                          payload: seq<Byte>, costAt: nat -> FlipCost)
    returns (matched: bool)
    requires |payload| < 0x1_0000_0000
    requires Selectable(info, keys, HEADER_SYMBOLS + CoverSymbols(8 * |payload|))
    requires coefficients.Length == CoefficientCount(info)
    requires offsets == Order(info, keys.Layout(), HEADER_SYMBOLS + CoverSymbols(8 * |payload|))
    modifies coefficients
    ensures matched
    ensures CarriesCheaply(info, old(coefficients[..]), coefficients[..], keys, payload, costAt)
  {
    hide Order, HeaderOffsets, PayloadOffsets, ParityBits, Priced, MakeHeader, BitsOf, Whitened, Extraction, TotalCost, Hamming;
    hide Candidates, Stream.Fair, Covers, Addressable, CoefficientCount, CarriesCheaply, MovedSlightly, MovedAsKeyed, Distinct, CheapCarrier;
    ghost var before := coefficients[..];
    SelectionParts(info, keys, CoverSymbols(8 * |payload|));
    var header, body := EncodeCarrier(coefficients[..], offsets, keys, payload, costAt);
    ghost var ho, po := offsets[..HEADER_SYMBOLS], offsets[HEADER_SYMBOLS..];
    CheapCarrierChanges(ParityBits(before, ho), Priced(costAt, ho),
                        Whitened(BitsOf(CarrierHeader(keys, payload)), keys.HeaderStream()), header);
    CheapCarrierChanges(ParityBits(before, po), Priced(costAt, po), Whitened(BitsOf(payload), keys.PayloadStream()), body);
    matched := WriteCarrier(coefficients, offsets, keys, header, body);
    WrittenIsCarried(info, before, coefficients[..], keys, payload, costAt, header, body);
  }

  /** The first `count` offsets of the keyed order. */
  method DrawSelection(info: ImageInfo, keys: Keys, count: nat) returns (r: Result<seq<nat>, SelectionError>)
    requires Selectable(info, keys, 0)
    ensures r.Ok? <==> count <= |Candidates(info)|
    ensures r.Ok? ==> r.value == Order(info, keys.Layout(), count)
  {
    hide Candidates, Stream.Fair, Covers, Addressable, Order, KeyedIndexPrefix.Valid;
    var order := new KeyedCandidateOrder(info, keys.Layout());
    r := order.Offsets(0, count);
  }

  /**
    Embeds a payload in place. On success the same keys read exactly that payload
    back; only selected candidates moved, each by at most one. On failure nothing
    changed. The change-count check never fails.
   */
  method EmbedTwitterPayload(coefficients: array<Coefficient>, info: ImageInfo, keys: Keys, payload: seq<Byte>,
                             preparedCapacity: nat, costAt: nat -> FlipCost)
    returns (r: Result<(), CarrierError>)
    requires Selectable(info, keys, 0)
    modifies coefficients
    ensures r.Ok? <==> Accepts(info, old(coefficients[..]), preparedCapacity, |payload|)
    ensures r.Ok? <==>
      && |payload| <= preparedCapacity && |payload| < 0x1_0000_0000
      && GeometryFault(CoefficientImage(info, old(coefficients[..]))).None?
      && |Candidates(info)| >= 480 && AllBelow(Candidates(info), coefficients.Length)
      && (|payload| == 0 || (&& 480 + 20 * |payload| <= |Candidates(info)|
                             && 5 * (192 + 8 * |payload|) <= 2 * |Nonzero(old(coefficients[..]), Candidates(info))|))
    ensures r.Ok? ==>
      && Selectable(info, keys, HEADER_SYMBOLS + CoverSymbols(8 * |payload|))
      && coefficients.Length == CoefficientCount(info)
      && CarriesCheaply(info, old(coefficients[..]), coefficients[..], keys, payload, costAt)
    ensures r.Err? ==> coefficients[..] == old(coefficients[..])
  {
    hide Nonzero, GeometryFault, TallyOf, PayloadCapacity, AllBelow, Candidates, Stream.Fair, Covers, Addressable, CoefficientCount,
         CarriesCheaply, Accepts, Order;
    ghost var before := coefficients[..];
    AcceptsIs(info, before, preparedCapacity, |payload|);
    var fault := CheckPayload(info, coefficients[..], preparedCapacity, |payload|);
    if fault.Some? {
      return Err(fault.value);
    }
    CandidatesFit(info);
    if Accepts(info, before, preparedCapacity, |payload|) {
      AcceptedFits(info, before, preparedCapacity, |payload|);
    }
    var selection := DrawSelection(info, keys, HEADER_SYMBOLS + CoverSymbols(8 * |payload|));
    if selection.Err? {
      return Err(SelectionTooLarge);
    }
    var matched := EmbedOnSelection(coefficients, info, selection.value, keys, payload, costAt);
    if !matched {
      return Err(ChangeCountMismatch);
    }
    return Ok(());
  }

  /** Coefficients embedding never touches: DC terms and positions outside the image. */
  lemma OutsideIsUntouched(info: ImageInfo, before: seq<Coefficient>, after: seq<Coefficient>, keys: Keys,
                           payload: seq<Byte>, costAt: nat -> FlipCost, offset: nat)
    requires Selectable(info, keys, HEADER_SYMBOLS + CoverSymbols(8 * |payload|)) && |before| == CoefficientCount(info)
    requires CarriesCheaply(info, before, after, keys, payload, costAt)
    requires offset < |before| && !InsideImage(info, offset)
    ensures after[offset] == before[offset]
  {
    var symbols := CoverSymbols(8 * |payload|);
    SelectionParts(info, keys, symbols);
    OrderSelects(info, keys.Layout(), HEADER_SYMBOLS + symbols);
    CandidatesAreInside(info, offset);
    hide MovedAsKeyed, Order, HeaderOffsets, PayloadOffsets, CheapestParities, Carried, InsideImage, Candidates, CoefficientCount, Stream.Fair;
    var offsets := Order(info, keys.Layout(), HEADER_SYMBOLS + symbols);
    assert offset !in offsets;
  }
}
