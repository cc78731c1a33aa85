/**
  The encrypted stream: the filename and the payload cut into chunks, each sealed
  and framed by its length. The cipher is ideal: it opens what was sealed in the
  same place of the stream, and nothing else.
 */
module StreamFraming {
  import opened Results
  import opened Bytes

  const STREAM_CHUNK: nat := 1048576
  const SEAL_BYTES: nat := 17
  const FRAME_BYTES: nat := 4
  const MAX_USIZE: nat := 0xFFFF_FFFF_FFFF_FFFF

  datatype StreamError = EmptyInput | Overflow | ShortRead | InputGrew

  datatype Chunk = Chunk(plain: seq<Byte>, final: bool)

  /** Sealing and opening depend on the chunks that went through the stream before. */
  datatype Cipher = Cipher(seal: (seq<Chunk>, Chunk) -> seq<Byte>, open: (seq<Chunk>, seq<Byte>) -> Option<Chunk>)

  ghost predicate Ideal(c: Cipher) {
    && (forall h, k :: |c.seal(h, k)| == |k.plain| + SEAL_BYTES && c.open(h, c.seal(h, k)) == Some(k))
    && (forall h, bytes :: c.open(h, bytes).Some? ==> c.seal(h, c.open(h, bytes).value) == bytes)
  }

  /** A cipher that only appends the tag and checks it: enough to show that ideal ones exist. */
  function PlainCipher(): Cipher {
    Cipher((h: seq<Chunk>, k: Chunk) => k.plain + PlainTag(k.final), (h: seq<Chunk>, bytes: seq<Byte>) => PlainOpen(bytes))
  }

  function PlainTag(final: bool): (tag: seq<Byte>)
    ensures |tag| == SEAL_BYTES
  {
    Zeros(SEAL_BYTES - 1) + [if final then 1 else 0]
  }

  function PlainOpen(bytes: seq<Byte>): Option<Chunk> {
    if |bytes| < SEAL_BYTES then None
    else
      var n := |bytes| - SEAL_BYTES;
      if bytes[n..] == PlainTag(true) then Some(Chunk(bytes[..n], true))
      else if bytes[n..] == PlainTag(false) then Some(Chunk(bytes[..n], false))
      else None
  }

  lemma IdealIsMet()
    ensures Ideal(PlainCipher())
  {
    assert PlainTag(true)[SEAL_BYTES - 1] == 1 && PlainTag(false)[SEAL_BYTES - 1] == 0;
    hide PlainTag;
    var c := PlainCipher();
    forall h: seq<Chunk>, k: Chunk
      ensures |c.seal(h, k)| == |k.plain| + SEAL_BYTES && c.open(h, c.seal(h, k)) == Some(k)
    {
      var bytes, n := c.seal(h, k), |k.plain|;
      assert bytes[n..] == PlainTag(k.final) && bytes[..n] == k.plain;
    }
    forall h: seq<Chunk>, bytes: seq<Byte> | c.open(h, bytes).Some?
      ensures c.seal(h, c.open(h, bytes).value) == bytes
    {
      var n := |bytes| - SEAL_BYTES;
      assert bytes == bytes[..n] + bytes[n..];
    }
  }

  // ----- Frames -----

  function Frame(sealed: seq<Byte>): (f: seq<Byte>)
    ensures |f| == FRAME_BYTES + |sealed|
  {
    BigEndian(|sealed|, FRAME_BYTES) + sealed
  }

  function Framed(c: Cipher, before: seq<Chunk>, chunks: seq<Chunk>): seq<Byte>
    decreases |chunks|
  {
    if chunks == [] then []
    else Frame(c.seal(before, chunks[0])) + Framed(c, before + [chunks[0]], chunks[1..])
  }

  function Plain(chunks: seq<Chunk>): seq<Byte> {
    if chunks == [] then [] else chunks[0].plain + Plain(chunks[1..])
  }

  /** Full-sized chunks and a last one that is marked final. */
  function ChunksOf(data: seq<Byte>): seq<Chunk> {
    if data == [] then []
    else if |data| <= STREAM_CHUNK then [Chunk(data, true)]
    else [Chunk(data[..STREAM_CHUNK], false)] + ChunksOf(data[STREAM_CHUNK..])
  }

  /** A stream the reader accepts: no chunk too large, and the last one, alone, final. */
  predicate Sound(chunks: seq<Chunk>) {
    && chunks != []
    && |chunks[0].plain| <= STREAM_CHUNK
    && (if |chunks| == 1 then chunks[0].final else !chunks[0].final && Sound(chunks[1..]))
  }

  lemma {:induction false} ChunksAreSound(data: seq<Byte>)
    ensures Plain(ChunksOf(data)) == data
    ensures data != [] ==> Sound(ChunksOf(data))
  {
    if |data| > STREAM_CHUNK {
      ChunksAreSound(data[STREAM_CHUNK..]);
      var rest := ChunksOf(data[STREAM_CHUNK..]);
      assert ([Chunk(data[..STREAM_CHUNK], false)] + rest)[1..] == rest;
    }
  }

  lemma {:induction false} PlainAppends(chunks: seq<Chunk>, more: seq<Chunk>)
    ensures Plain(chunks + more) == Plain(chunks) + Plain(more)
  {
    if chunks == [] {
      assert chunks + more == more && Plain(chunks) + Plain(more) == Plain(more);
    } else {
      PlainAppends(chunks[1..], more);
      assert (chunks + more)[1..] == chunks[1..] + more && (chunks + more)[0] == chunks[0];
      Associates(chunks[0].plain, Plain(chunks[1..]), Plain(more));
    }
  }

  lemma Associates(a: seq<Byte>, b: seq<Byte>, c: seq<Byte>)
    ensures a + (b + c) == a + b + c
  {
  }

  // ----- Reading frames -----

  /** What the reader gets out: the chunks that opened, and whether the stream was whole. */
  datatype Unframed = Unframed(chunks: seq<Chunk>, whole: bool)

  function Unframe(c: Cipher, before: seq<Chunk>, bytes: seq<Byte>): Unframed
    decreases |bytes|
  {
    if |bytes| < FRAME_BYTES then Unframed([], false)
    else
      var n := ReadBigEndian(bytes[..FRAME_BYTES]);
      if n < SEAL_BYTES || n > |bytes| - FRAME_BYTES || n > STREAM_CHUNK + SEAL_BYTES then Unframed([], false)
      else
        var found := c.open(before, bytes[FRAME_BYTES..FRAME_BYTES + n]);
        if found.None? then Unframed([], false)
        else if found.value.final then Unframed([found.value], |bytes| == FRAME_BYTES + n)
        else
          var rest := Unframe(c, before + [found.value], bytes[FRAME_BYTES + n..]);
          Unframed([found.value] + rest.chunks, rest.whole)
  }

  lemma FrameReads(sealed: seq<Byte>, rest: seq<Byte>)
    requires |sealed| < 0x1_0000_0000
    ensures var bytes := Frame(sealed) + rest;
      && |bytes| == FRAME_BYTES + |sealed| + |rest|
      && ReadBigEndian(bytes[..FRAME_BYTES]) == |sealed|
      && bytes[FRAME_BYTES..FRAME_BYTES + |sealed|] == sealed
      && bytes[FRAME_BYTES + |sealed|..] == rest
  {
    FieldRoundTrip(|sealed|, FRAME_BYTES);
    hide BigEndian, ReadBigEndian;
    var bytes := Frame(sealed) + rest;
    assert bytes[..FRAME_BYTES] == BigEndian(|sealed|, FRAME_BYTES);
  }

  /** A sound stream opens to its chunks; whatever follows it is noticed. */
  lemma {:induction false} FramedOpens(c: Cipher, before: seq<Chunk>, chunks: seq<Chunk>, extra: seq<Byte>)
    requires Ideal(c) && Sound(chunks)
    ensures Unframe(c, before, Framed(c, before, chunks) + extra) == Unframed(chunks, extra == [])
    decreases |chunks|
  {
    hide Frame, ReadBigEndian;
    var k := chunks[0];
    var sealed, later := c.seal(before, k), Framed(c, before + [k], chunks[1..]) + extra;
    assert Framed(c, before, chunks) + extra == Frame(sealed) + later;
    FrameReads(sealed, later);
    if |chunks| == 1 {
      assert chunks == [k] && later == extra;
    } else {
      FramedOpens(c, before + [k], chunks[1..], extra);
      assert [k] + chunks[1..] == chunks;
    }
  }

  lemma FrameOf(bytes: seq<Byte>, n: nat)
    requires FRAME_BYTES + n <= |bytes| && n == ReadBigEndian(bytes[..FRAME_BYTES])
    ensures bytes == Frame(bytes[FRAME_BYTES..FRAME_BYTES + n]) + bytes[FRAME_BYTES + n..]
  {
    FieldOfValue(bytes[..FRAME_BYTES]);
  }

  /** A stream read as whole is a sound stream's frames, byte for byte. */
  lemma {:induction false} WholeIsFramed(c: Cipher, before: seq<Chunk>, bytes: seq<Byte>)
    requires Ideal(c) && Unframe(c, before, bytes).whole
    ensures var chunks := Unframe(c, before, bytes).chunks;
      Sound(chunks) && bytes == Framed(c, before, chunks)
    decreases |bytes|
  {
    hide Frame, ReadBigEndian;
    var n := ReadBigEndian(bytes[..FRAME_BYTES]);
    FrameOf(bytes, n);
    var k := c.open(before, bytes[FRAME_BYTES..FRAME_BYTES + n]).value;
    assert c.seal(before, k) == bytes[FRAME_BYTES..FRAME_BYTES + n];
    var chunks, rest := Unframe(c, before, bytes).chunks, bytes[FRAME_BYTES + n..];
    if k.final {
      assert Framed(c, before + [k], []) == [] == rest;
      assert chunks == [k];
    } else {
      WholeIsFramed(c, before + [k], rest);
      assert chunks[1..] == Unframe(c, before + [k], rest).chunks;
    }
  }

  /** The reader accepts exactly the frames of sound streams. */
  lemma UnframeIsExact(c: Cipher, bytes: seq<Byte>, chunks: seq<Chunk>)
    requires Ideal(c)
    ensures Unframe(c, [], bytes) == Unframed(chunks, true) <==> Sound(chunks) && bytes == Framed(c, [], chunks)
  {
    hide Unframe, Framed, Ideal;
    if Unframe(c, [], bytes) == Unframed(chunks, true) {
      WholeIsFramed(c, [], bytes);
    }
    if Sound(chunks) && bytes == Framed(c, [], chunks) {
      FramedOpens(c, [], chunks, []);
      assert bytes + [] == bytes;
    }
  }

  /** What begins with a whole stream and goes on is not whole. */
  lemma BeyondWhole(c: Cipher, bytes: seq<Byte>, at: nat)
    requires Ideal(c) && at < |bytes| && Unframe(c, [], bytes[..at]).whole
    ensures !Unframe(c, [], bytes).whole
  {
    hide Unframe, Framed, Ideal;
    WholeIsFramed(c, [], bytes[..at]);
    FramedOpens(c, [], Unframe(c, [], bytes[..at]).chunks, bytes[at..]);
    assert bytes[..at] + bytes[at..] == bytes;
  }

  /** A stream cut short anywhere is not whole: no sound stream begins another. */
  lemma CutIsNoticed(c: Cipher, chunks: seq<Chunk>, at: nat)
    requires Ideal(c) && Sound(chunks) && at < |Framed(c, [], chunks)|
    ensures !Unframe(c, [], Framed(c, [], chunks)[..at]).whole
  {
    hide Unframe, Framed, Ideal;
    var bytes := Framed(c, [], chunks);
    UnframeIsExact(c, bytes, chunks);
    if Unframe(c, [], bytes[..at]).whole { BeyondWhole(c, bytes, at); }
  }

  // ----- Sizes -----

  function DivideUp(n: nat, d: nat): nat
    requires d > 0
  {
    n / d + (if n % d > 0 then 1 else 0)
  }

  function StreamSize(plain: nat): nat {
    plain + DivideUp(plain, STREAM_CHUNK) * (SEAL_BYTES + FRAME_BYTES)
  }

  /** The estimate, with the original's overflow checks. */
  function EstimateSize(input: nat, prefix: nat): Result<nat, StreamError>
    requires input <= MAX_USIZE
  {
    if prefix > MAX_USIZE - input then Err(Overflow)
    else
      var total := input + prefix;
      if total == 0 then Ok(0)
      else if DivideUp(total, STREAM_CHUNK) > (MAX_USIZE - total) / (SEAL_BYTES + FRAME_BYTES) then Err(Overflow)
      else Ok(total + DivideUp(total, STREAM_CHUNK) * (SEAL_BYTES + FRAME_BYTES))
  }

  lemma QuotientBound(count: nat, room: nat)
    ensures count > room / 21 <==> count * 21 > room
  {
  }

  /** The checks refuse exactly what does not fit 64 bits. */
  lemma EstimateIsExact(input: nat, prefix: nat)
    requires input <= MAX_USIZE
    ensures EstimateSize(input, prefix)
         == if StreamSize(input + prefix) <= MAX_USIZE then Ok(StreamSize(input + prefix)) else Err(Overflow)
  {
    hide DivideUp;
    var total := input + prefix;
    if total <= MAX_USIZE { QuotientBound(DivideUp(total, STREAM_CHUNK), MAX_USIZE - total); }
    NoChunks();
  }

  lemma NoChunks()
    ensures DivideUp(0, STREAM_CHUNK) == 0
  {
  }

  /** One chunk more, one overhead more. */
  lemma SizeStep(n: nat)
    requires n > 0
    ensures n <= STREAM_CHUNK ==> StreamSize(n) == n + SEAL_BYTES + FRAME_BYTES
    ensures n > STREAM_CHUNK ==> StreamSize(n) == STREAM_CHUNK + SEAL_BYTES + FRAME_BYTES + StreamSize(n - STREAM_CHUNK)
  {
  }

  /** The estimate is the number of bytes written. */
  lemma {:induction false} SizeIsEstimated(c: Cipher, before: seq<Chunk>, data: seq<Byte>)
    requires Ideal(c)
    ensures |Framed(c, before, ChunksOf(data))| == StreamSize(|data|)
    decreases |data|
  {
    if data != [] {
      SizeStep(|data|);
      hide StreamSize, Frame;
      var chunks := ChunksOf(data);
      var first := chunks[0];
      if |data| > STREAM_CHUNK {
        SizeIsEstimated(c, before + [first], data[STREAM_CHUNK..]);
        assert chunks[1..] == ChunksOf(data[STREAM_CHUNK..]);
      } else {
        assert Framed(c, before + [first], []) == [];
      }
    }
  }

  lemma {:induction false} SizeGrows(a: nat, b: nat)
    requires a <= b
    ensures StreamSize(a) <= StreamSize(b)
    decreases b
  {
    if b > STREAM_CHUNK {
      SizeStep(b);
      if a > STREAM_CHUNK {
        SizeStep(a);
        SizeGrows(a - STREAM_CHUNK, b - STREAM_CHUNK);
      } else if a > 0 {
        SizeStep(a);
      }
    }
  }

  predicate FitsCarrier(stored: nat, name: nat, envelope: nat, capacity: nat) {
    envelope + StreamSize(stored + 1 + name) <= capacity
  }

  lemma FitsDown(a: nat, b: nat, name: nat, envelope: nat, capacity: nat)
    requires a <= b && FitsCarrier(b, name, envelope, capacity)
    ensures FitsCarrier(a, name, envelope, capacity)
  {
    SizeGrows(a + 1 + name, b + 1 + name);
  }

  /** Whether a stored payload fits, or an overflow on the way to knowing. */
  method Fits(stored: nat, name: nat, envelope: nat, capacity: nat) returns (r: Result<bool, StreamError>)
    requires stored <= MAX_USIZE && name < MAX_USIZE
    ensures r == if envelope + StreamSize(stored + 1 + name) <= MAX_USIZE
                 then Ok(FitsCarrier(stored, name, envelope, capacity)) else Err(Overflow)
  {
    EstimateIsExact(stored, 1 + name);
    hide StreamSize;
    var size := EstimateSize(stored, 1 + name);
    if size.Err? || envelope > MAX_USIZE - size.value {
      return Err(Overflow);
    }
    return Ok(envelope + size.value <= capacity);
  }

  /**
    The binary search finds the largest stored payload that fits, 0 if none does; it
    gives up only when some size up to the capacity overflows.
   */
  method MaxStored(capacity: nat, name: nat, envelope: nat) returns (r: Result<nat, StreamError>)
    requires capacity <= MAX_USIZE
    ensures r.Ok? && FitsCarrier(0, name, envelope, capacity) ==>
              forall s: nat :: FitsCarrier(s, name, envelope, capacity) <==> s <= r.value
    ensures r.Ok? && !FitsCarrier(0, name, envelope, capacity) ==> r.value == 0
    ensures r.Err? ==> envelope + StreamSize(capacity + 1 + name) > MAX_USIZE
  {
    hide FitsCarrier, StreamSize, DivideUp;
    SizeAtLeast(capacity + 1 + name);
    if name >= MAX_USIZE {
      return Err(Overflow);
    }
    SizeGrows(1 + name, capacity + 1 + name);
    var any := Fits(0, name, envelope, capacity);
    if any.Err? {
      return any.PropagateFailure();
    }
    if !any.value {
      return Ok(0);
    }
    NothingBeyond(capacity, name, envelope);
    var lower: nat, upper: nat := 0, capacity;
    while lower < upper
      invariant lower <= upper <= capacity
      invariant FitsCarrier(lower, name, envelope, capacity) && !FitsCarrier(upper + 1, name, envelope, capacity)
      decreases upper - lower
    {
      var middle := lower + DivideUp(upper - lower, 2);
      Halved(upper - lower);
      SizeGrows(middle + 1 + name, capacity + 1 + name);
      var fits := Fits(middle, name, envelope, capacity);
      if fits.Err? {
        return fits.PropagateFailure();
      }
      if fits.value {
        lower := middle;
      } else {
        upper := middle - 1;
      }
    }
    LargestFit(lower, name, envelope, capacity);
    return Ok(lower);
  }

  lemma LargestFit(most: nat, name: nat, envelope: nat, capacity: nat)
    requires FitsCarrier(most, name, envelope, capacity) && !FitsCarrier(most + 1, name, envelope, capacity)
    ensures forall s: nat :: FitsCarrier(s, name, envelope, capacity) <==> s <= most
  {
    hide FitsCarrier;
    forall s: nat ensures FitsCarrier(s, name, envelope, capacity) <==> s <= most {
      if s <= most { FitsDown(s, most, name, envelope, capacity); }
      if s > most && FitsCarrier(s, name, envelope, capacity) { FitsDown(most + 1, s, name, envelope, capacity); }
    }
  }

  lemma SizeAtLeast(n: nat)
    ensures StreamSize(n) >= n
  {
  }

  lemma NothingBeyond(capacity: nat, name: nat, envelope: nat)
    ensures !FitsCarrier(capacity + 1, name, envelope, capacity)
  {
    SizeAtLeast(capacity + 2 + name);
  }

  lemma Halved(n: nat)
    requires n > 0
    ensures 1 <= DivideUp(n, 2) <= n
  {
  }
}
