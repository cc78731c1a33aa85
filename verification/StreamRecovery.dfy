/**
  Encrypting a file into frames, and reading frames back into a filename and a
  payload, chunk by chunk.
 */
module StreamRecovery {
  import opened Results
  import opened Bytes
  import opened OutputLog
  import opened StreamFraming

  // ----- Encrypting -----

  function Min(a: nat, b: nat): nat {
    if a < b then a else b
  }

  /** The frames still to come for the data still to be sealed. */
  ghost function Remaining(c: Cipher, before: seq<Chunk>, data: seq<Byte>): seq<Byte> {
    Framed(c, before, ChunksOf(data))
  }

  lemma ChunkSealed(c: Cipher, before: seq<Chunk>, data: seq<Byte>, plain: seq<Byte>, rest: seq<Byte>)
    requires data != [] && plain == data[..Min(STREAM_CHUNK, |data|)] && rest == data[|plain|..]
    ensures var k := Chunk(plain, rest == []);
      Remaining(c, before, data) == Frame(c.seal(before, k)) + Remaining(c, before + [k], rest)
  {
    hide Frame;
    var k, chunks := Chunk(plain, rest == []), ChunksOf(data);
    if |data| <= STREAM_CHUNK {
      assert plain == data && chunks == [k] && chunks[1..] == [] == ChunksOf(rest);
    } else {
      assert chunks == [k] + ChunksOf(rest) && chunks[1..] == ChunksOf(rest);
    }
    assert Framed(c, before, chunks) == Frame(c.seal(before, chunks[0])) + Framed(c, before + [chunks[0]], chunks[1..]);
  }

  /** The next chunk: first what is left of the prefix, then of the file. */
  lemma NextChunk(prefix: seq<Byte>, file: seq<Byte>, prefixOff: nat, at: nat, fromPrefix: nat, fromFile: nat)
    requires prefixOff <= |prefix| && at <= |file|
    requires fromPrefix == Min(STREAM_CHUNK, |prefix| - prefixOff) && fromFile == Min(STREAM_CHUNK - fromPrefix, |file| - at)
    ensures var data, plain := prefix[prefixOff..] + file[at..], prefix[prefixOff..prefixOff + fromPrefix] + file[at..at + fromFile];
      && plain == data[..Min(STREAM_CHUNK, |data|)]
      && data[|plain|..] == prefix[prefixOff + fromPrefix..] + file[at + fromFile..]
  {
    var a, b := prefix[prefixOff..], file[at..];
    TakenFromBoth(a, b, fromPrefix, fromFile);
    assert a[..fromPrefix] == prefix[prefixOff..prefixOff + fromPrefix] && a[fromPrefix..] == prefix[prefixOff + fromPrefix..];
    assert b[..fromFile] == file[at..at + fromFile] && b[fromFile..] == file[at + fromFile..];
  }

  lemma TakenFromBoth(a: seq<Byte>, b: seq<Byte>, i: nat, j: nat)
    requires i <= |a| && j <= |b| && (j > 0 ==> i == |a|)
    ensures (a + b)[..i + j] == a[..i] + b[..j]
    ensures (a + b)[i + j..] == a[i..] + b[j..]
  {
    if j == 0 {
      assert (a + b)[..i] == a[..i] + b[..0];
    }
  }

  /** Fills a buffer from a position on. */
  method CopyInto(buffer: array<Byte>, at: nat, bytes: seq<Byte>)
    requires at + |bytes| <= buffer.Length
    modifies buffer
    ensures buffer[..at + |bytes|] == old(buffer[..at]) + bytes
  {
    forall i | 0 <= i < |bytes| {
      buffer[at + i] := bytes[i];
    }
  }

  /** What an input of the announced length would hold, had it not ended early. */
  ghost function Announced(file: seq<Byte>, size: nat): (input: seq<Byte>)
    ensures |input| == size
  {
    if |file| < size then file + Zeros(size - |file|) else file[..size]
  }

  lemma AnnouncedShows(file: seq<Byte>, size: nat, at: nat, n: nat)
    requires at + n <= |file| && at + n <= size
    ensures file[at..at + n] == Announced(file, size)[at..at + n]
  {
  }

  /** Fills one chunk from the prefix and then the file, which must have the bytes. */
  method FillChunk(inChunk: array<Byte>, prefix: seq<Byte>, file: seq<Byte>, prefixOff: nat, at: nat, inputLeft: nat)
    returns (fromPrefix: nat, fromFile: nat)
    requires inChunk.Length == STREAM_CHUNK && prefixOff <= |prefix| && at <= |file|
    modifies inChunk
    ensures fromPrefix == Min(STREAM_CHUNK, |prefix| - prefixOff) && fromFile == Min(STREAM_CHUNK - fromPrefix, inputLeft)
    ensures at + fromFile <= |file| ==>
              inChunk[..fromPrefix + fromFile] == prefix[prefixOff..prefixOff + fromPrefix] + file[at..at + fromFile]
  {
    fromPrefix := Min(STREAM_CHUNK, |prefix| - prefixOff);
    CopyInto(inChunk, 0, prefix[prefixOff..prefixOff + fromPrefix]);
    assert inChunk[..fromPrefix] == prefix[prefixOff..prefixOff + fromPrefix];
    fromFile := Min(STREAM_CHUNK - fromPrefix, inputLeft);
    if at + fromFile <= |file| {
      CopyInto(inChunk, fromPrefix, file[at..at + fromFile]);
    }
  }

  /** Sealing one chunk moves its frame from what remains to what was written. */
  lemma Sealed(c: Cipher, stream: seq<Chunk>, prefix: seq<Byte>, input: seq<Byte>, prefixOff: nat, at: nat,
               fromPrefix: nat, fromFile: nat, chunk: Chunk, sink: seq<Byte>)
    requires prefixOff <= |prefix| && at <= |input| && (prefixOff < |prefix| || at < |input|)
    requires fromPrefix == Min(STREAM_CHUNK, |prefix| - prefixOff) && fromFile == Min(STREAM_CHUNK - fromPrefix, |input| - at)
    requires chunk.plain == prefix[prefixOff..prefixOff + fromPrefix] + input[at..at + fromFile]
    requires chunk.final <==> prefixOff + fromPrefix == |prefix| && at + fromFile == |input|
    ensures sink + Remaining(c, stream, prefix[prefixOff..] + input[at..])
         == sink + Frame(c.seal(stream, chunk))
            + Remaining(c, stream + [chunk], prefix[prefixOff + fromPrefix..] + input[at + fromFile..])
  {
    hide Remaining, Frame;
    var data, rest := prefix[prefixOff..] + input[at..], prefix[prefixOff + fromPrefix..] + input[at + fromFile..];
    NextChunk(prefix, input, prefixOff, at, fromPrefix, fromFile);
    ChunkSealed(c, stream, data, chunk.plain, rest);
    assert chunk == Chunk(chunk.plain, rest == []);
    Associates(sink, Frame(c.seal(stream, chunk)), Remaining(c, stream + [chunk], rest));
  }

  /**
    Seals prefix and file into frames. It fails exactly when the file is not as long
    as it was announced to be, or empty, or the sizes overflow.
   */
  method Encrypt(c: Cipher, file: seq<Byte>, inputSize: nat, prefix: seq<Byte>) returns (r: Result<seq<Byte>, StreamError>)
    ensures r == if inputSize == 0 then Err(EmptyInput)
                 else if |prefix| + inputSize > MAX_USIZE then Err(Overflow)
                 else if |file| < inputSize then Err(ShortRead)
                 else if |file| > inputSize then Err(InputGrew)
                 else Ok(Framed(c, [], ChunksOf(prefix + file)))
  {
    hide Remaining, Frame, Announced;
    if inputSize == 0 {
      return Err(EmptyInput);
    }
    if |prefix| + inputSize > MAX_USIZE {
      return Err(Overflow);
    }
    var sink: seq<Byte>, stream: seq<Chunk> := [], [];
    var prefixOff: nat, inputLeft: nat := 0, inputSize;
    ghost var input := Announced(file, inputSize);
    var inChunk := new Byte[STREAM_CHUNK](_ => 0);
    assert prefix[0..] == prefix && input[0..] == input;
    while prefixOff < |prefix| || inputLeft > 0
      invariant prefixOff <= |prefix| && inputLeft <= inputSize && inputSize - inputLeft <= |file|
      invariant sink + Remaining(c, stream, prefix[prefixOff..] + input[inputSize - inputLeft..]) == Remaining(c, [], prefix + input)
      decreases |prefix| - prefixOff + inputLeft
    {
      var at := inputSize - inputLeft;
      var fromPrefix, fromFile := FillChunk(inChunk, prefix, file, prefixOff, at, inputLeft);
      if at + fromFile > |file| {
        return Err(ShortRead);
      }
      AnnouncedShows(file, inputSize, at, fromFile);
      var chunk := Chunk(inChunk[..fromPrefix + fromFile], prefixOff + fromPrefix == |prefix| && fromFile == inputLeft);
      Sealed(c, stream, prefix, input, prefixOff, at, fromPrefix, fromFile, chunk, sink);
      prefixOff, inputLeft := prefixOff + fromPrefix, inputLeft - fromFile;
      sink, stream := sink + Frame(c.seal(stream, chunk)), stream + [chunk];
    }
    NothingRemains(c, stream, prefix[prefixOff..] + input[inputSize - inputLeft..]);
    if |file| > inputSize {
      return Err(InputGrew);
    }
    WholeInput(c, file, inputSize, prefix);
    assert sink + [] == sink;
    return Ok(sink);
  }

  lemma WholeInput(c: Cipher, file: seq<Byte>, size: nat, prefix: seq<Byte>)
    requires |file| == size
    ensures Remaining(c, [], prefix + Announced(file, size)) == Framed(c, [], ChunksOf(prefix + file))
  {
    assert file[..size] == file;
  }

  lemma NothingRemains(c: Cipher, before: seq<Chunk>, data: seq<Byte>)
    requires data == []
    ensures Remaining(c, before, data) == []
  {
  }

  // ----- Taking the filename off -----

  datatype RecoverError = Corrupt | EmptyOutput

  /** Where the name ends, once its length is known. */
  function NameEnd(plain: seq<Byte>): nat {
    if plain == [] then 0 else 1 + plain[0] as int
  }

  function NameOf(plain: seq<Byte>): seq<Byte> {
    if plain == [] then [] else plain[1..Min(|plain|, NameEnd(plain))]
  }

  function PayloadOf(plain: seq<Byte>): seq<Byte> {
    plain[Min(|plain|, NameEnd(plain))..]
  }

  predicate Refused(plain: seq<Byte>) {
    plain != [] && plain[0] == 0
  }

  predicate HasName(plain: seq<Byte>) {
    plain != [] && NameEnd(plain) <= |plain|
  }

  /** Collects the filename from the front of the plaintext, whatever the chunks. */
  class PrefixExtractor {
    var hasLength: bool
    var expectedLength: nat
    var filename: seq<Byte>
    ghost var seen: seq<Byte>

    ghost predicate Valid()
      reads this
    {
      && (hasLength <==> seen != [])
      && (hasLength ==> expectedLength + 1 == NameEnd(seen))
      && filename == NameOf(seen)
      && !Refused(seen)
    }

    constructor ()
      ensures Valid() && seen == []
    {
      hasLength, expectedLength, filename, seen := false, 0, [], [];
    }

    /** Takes a chunk and hands on its share of the payload; a length of zero is corrupt. */
    method Consume(chunk: seq<Byte>) returns (r: Result<seq<Byte>, RecoverError>)
      requires Valid()
      modifies this
      ensures r.Err? <==> Refused(old(seen) + chunk)
      ensures r.Err? ==> r.error == Corrupt
      ensures r.Ok? ==> Valid() && seen == old(seen) + chunk && PayloadOf(seen) == PayloadOf(old(seen)) + r.value
    {
      ghost var before := seen;
      var pos: nat := 0;
      if !hasLength {
        if chunk == [] {
          assert seen + chunk == seen;
          return Ok([]);
        }
        expectedLength, pos, hasLength := chunk[pos], pos + 1, true;
        if expectedLength == 0 {
          return Err(Corrupt);
        }
      }
      if |filename| < expectedLength {
        var take := Min(expectedLength - |filename|, |chunk| - pos);
        filename := filename + chunk[pos..pos + take];
        pos := pos + take;
      }
      seen := seen + chunk;
      TakenApart(before, chunk, pos);
      return Ok(chunk[pos..]);
    }

    predicate IsComplete()
      requires Valid()
      reads this
      ensures IsComplete() <==> HasName(seen)
    {
      hasLength && |filename| == expectedLength
    }
  }

  /** A cut at `e` through two sequences laid end to end. */
  lemma CutAcross(a: seq<Byte>, b: seq<Byte>, start: nat, e: nat, pos: nat)
    requires start <= |a| && start <= e && pos == if e <= |a| then 0 else Min(|b|, e - |a|)
    ensures (a + b)[start..Min(|a| + |b|, e)] == a[start..Min(|a|, e)] + b[..pos]
    ensures (a + b)[Min(|a| + |b|, e)..] == a[Min(|a|, e)..] + b[pos..]
  {
  }

  /** How a chunk splits between the filename and the payload. */
  lemma TakenApart(before: seq<Byte>, chunk: seq<Byte>, pos: nat)
    requires before + chunk != [] && !Refused(before + chunk) && pos <= |chunk|
    requires var length := (before + chunk)[0];
      var skip := if before == [] then 1 else 0;
      pos == skip + Min(length - |NameOf(before)|, |chunk| - skip)
    ensures var skip := if before == [] then 1 else 0;
      skip <= pos && NameOf(before + chunk) == NameOf(before) + chunk[skip..pos]
    ensures PayloadOf(before + chunk) == PayloadOf(before) + chunk[pos..]
  {
    if before == [] {
      assert before + chunk == chunk;
    } else {
      CutAcross(before, chunk, 1, NameEnd(before), pos);
    }
  }

  // ----- Decrypting -----

  /** A ciphertext in memory, read front to back. */
  class MemorySource {
    const data: seq<Byte>
    var position: nat

    ghost predicate Valid()
      reads this
    {
      position <= |data|
    }

    ghost function Rest(): seq<Byte>
      reads this
      requires Valid()
    {
      data[position..]
    }

    constructor (data: seq<Byte>)
      ensures Valid() && Rest() == data && this.data == data
    {
      this.data, position := data, 0;
    }

    function Remaining(): nat
      reads this
      requires Valid()
      ensures Remaining() == |Rest()|
    {
      |data| - position
    }

    /** The next `count` bytes, or nothing when fewer are left. */
    method TryRead(count: nat) returns (bytes: Option<seq<Byte>>)
      requires Valid()
      modifies this`position
      ensures Valid()
      ensures bytes == if count <= old(|Rest()|) then Some(old(Rest())[..count]) else None
      ensures Rest() == if count <= old(|Rest()|) then old(Rest())[count..] else old(Rest())
    {
      if count > Remaining() {
        return None;
      }
      bytes := Some(data[position..position + count]);
      assert bytes.value == data[position..][..count] && data[position..][count..] == data[position + count..];
      position := position + count;
    }
  }

  /** What one round of the loop does with the bytes left: stop, or go on behind a frame. */
  datatype Step = Bad | Opened(chunk: Chunk, size: nat)

  function StepOf(c: Cipher, stream: seq<Chunk>, rest: seq<Byte>): (step: Step)
    ensures step.Opened? ==> FRAME_BYTES + SEAL_BYTES <= step.size <= |rest|
  {
    if |rest| < FRAME_BYTES then Bad
    else
      var n := ReadBigEndian(rest[..FRAME_BYTES]);
      if n < SEAL_BYTES || n > |rest| - FRAME_BYTES || n > STREAM_CHUNK + SEAL_BYTES then Bad
      else
        var found := c.open(stream, rest[FRAME_BYTES..FRAME_BYTES + n]);
        if found.None? then Bad else Opened(found.value, FRAME_BYTES + n)
  }

  lemma UnframeSteps(c: Cipher, stream: seq<Chunk>, rest: seq<Byte>)
    ensures var step := StepOf(c, stream, rest);
      Unframe(c, stream, rest) ==
      if step.Bad? then Unframed([], false)
      else if step.chunk.final then Unframed([step.chunk], |rest| == step.size)
      else
        var later := Unframe(c, stream + [step.chunk], rest[step.size..]);
        Unframed([step.chunk] + later.chunks, later.whole)
  {
  }

  /** Reads one frame and opens it. */
  method ReadFrame(source: MemorySource, c: Cipher, stream: seq<Chunk>) returns (chunk: Option<Chunk>)
    requires source.Valid()
    modifies source`position
    ensures source.Valid()
    ensures var step := StepOf(c, stream, old(source.Rest()));
      if step.Bad? then chunk == None
      else chunk == Some(step.chunk) && source.Rest() == old(source.Rest())[step.size..]
  {
    ghost var rest := source.Rest();
    var left := source.Remaining();
    if left < FRAME_BYTES {
      return None;
    }
    var length := source.TryRead(FRAME_BYTES);
    if length.None? {
      return None;
    }
    left := left - FRAME_BYTES;
    var frameLength := ReadBigEndian(length.value);
    if frameLength < SEAL_BYTES || frameLength > left || frameLength > STREAM_CHUNK + SEAL_BYTES {
      return None;
    }
    var sealed := source.TryRead(frameLength);
    if sealed.None? {
      return None;
    }
    assert sealed.value == rest[FRAME_BYTES..FRAME_BYTES + frameLength];
    assert source.Rest() == rest[FRAME_BYTES + frameLength..];
    chunk := c.open(stream, sealed.value);
  }

  /** The stream read so far, and all that will be read from here on. */
  ghost predicate ReadSoFar(c: Cipher, all: seq<Byte>, stream: seq<Chunk>, rest: seq<Byte>) {
    var u, later := Unframe(c, [], all), Unframe(c, stream, rest);
    u.chunks == stream + later.chunks && u.whole == later.whole
  }

  lemma NothingRead(c: Cipher, all: seq<Byte>)
    ensures ReadSoFar(c, all, [], all)
  {
    assert [] + Unframe(c, [], all).chunks == Unframe(c, [], all).chunks;
  }

  /** One more chunk, and what that means for the plaintext. */
  lemma OneMore(c: Cipher, all: seq<Byte>, stream: seq<Chunk>, rest: seq<Byte>)
    requires ReadSoFar(c, all, stream, rest) && StepOf(c, stream, rest).Opened?
    ensures var step := StepOf(c, stream, rest);
      && Plain(stream + [step.chunk]) == Plain(stream) + step.chunk.plain
      && (Refused(Plain(stream + [step.chunk])) ==> Refused(Plain(Unframe(c, [], all).chunks)))
      && (step.chunk.final ==> Unframe(c, [], all) == Unframed(stream + [step.chunk], |rest| == step.size))
      && (!step.chunk.final ==> ReadSoFar(c, all, stream + [step.chunk], rest[step.size..]))
  {
    hide StepOf, Unframe, Plain;
    UnframeSteps(c, stream, rest);
    var k, u := StepOf(c, stream, rest).chunk, Unframe(c, [], all);
    var more := Unframe(c, stream, rest).chunks;
    assert u.chunks == stream + [k] + more[1..];
    PlainAppends(stream, [k]);
    PlainAppends(stream + [k], more[1..]);
    PlainOfOne(k);
  }

  lemma PlainOfOne(k: Chunk)
    ensures Plain([k]) == k.plain
  {
    assert k.plain + [] == k.plain;
  }

  lemma Stopped(c: Cipher, all: seq<Byte>, stream: seq<Chunk>, rest: seq<Byte>)
    requires ReadSoFar(c, all, stream, rest) && StepOf(c, stream, rest).Bad?
    ensures Unframe(c, [], all) == Unframed(stream, false)
  {
    hide StepOf;
    UnframeSteps(c, stream, rest);
    assert stream + [] == stream;
  }

  /**
    Opens frame after frame, handing each chunk on. A corrupt name stops it with an
    error; otherwise it says whether the stream was whole, with everything opened
    handed on.
   */
  method DecryptChunks(source: MemorySource, c: Cipher, extractor: PrefixExtractor, out: OutputFile)
    returns (r: Result<bool, RecoverError>)
    requires source.Valid() && extractor.Valid() && extractor.seen == [] && out.Valid() && out.Contents() == []
    modifies source`position, extractor, out`file, out`fill, out.buffer
    ensures var u := Unframe(c, [], old(source.Rest()));
      if Refused(Plain(u.chunks)) then r == Err(Corrupt)
      else
        && r == Ok(u.whole) && extractor.Valid() && extractor.seen == Plain(u.chunks)
        && out.Valid() && out.Contents() == PayloadOf(Plain(u.chunks))
  {
    hide Unframe, Plain, StepOf, ReadSoFar, PayloadOf, Refused, PrefixExtractor.Valid;
    ghost var all := source.Rest();
    var stream: seq<Chunk> := [];
    NothingRead(c, all);
    NothingHeld();
    while source.Remaining() > 0
      invariant source.Valid() && extractor.Valid() && out.Valid()
      invariant ReadSoFar(c, all, stream, source.Rest())
      invariant extractor.seen == Plain(stream) && !Refused(Plain(stream))
      invariant out.Contents() == PayloadOf(Plain(stream))
      decreases |source.Rest()|
    {
      ghost var rest := source.Rest();
      var chunk := ReadFrame(source, c, stream);
      if chunk.None? {
        Stopped(c, all, stream, rest);
        return Ok(false);
      }
      OneMore(c, all, stream, rest);
      if chunk.value.plain != [] {
        var payload := extractor.Consume(chunk.value.plain);
        if payload.Err? {
          return Err(Corrupt);
        }
        out.Write(payload.value);
      } else {
        assert Plain(stream) + [] == Plain(stream);
      }
      stream := stream + [chunk.value];
      if chunk.value.final {
        return Ok(source.Remaining() == 0);
      }
    }
    NoFrame(c, stream, source.Rest());
    Stopped(c, all, stream, source.Rest());
    return Ok(false);
  }

  lemma NothingHeld()
    ensures Plain([]) == [] && PayloadOf([]) == [] && !Refused([])
  {
  }

  lemma NoFrame(c: Cipher, stream: seq<Chunk>, rest: seq<Byte>)
    requires rest == []
    ensures StepOf(c, stream, rest).Bad?
  {
  }

  // ----- The recovered file -----

  datatype Recovered = Recovered(name: seq<Byte>, payload: seq<Byte>)

  function Recover(c: Cipher, bytes: seq<Byte>): Result<Option<Recovered>, RecoverError> {
    var u := Unframe(c, [], bytes);
    var plain := Plain(u.chunks);
    if Refused(plain) then Err(Corrupt)
    else if !u.whole || !HasName(plain) then Ok(None)
    else if PayloadOf(plain) == [] then Err(EmptyOutput)
    else Ok(Some(Recovered(NameOf(plain), PayloadOf(plain))))
  }

  /** The original's recovery of a payload that was stored as it is. */
  method DecryptToStage(source: MemorySource, c: Cipher) returns (r: Result<Option<Recovered>, RecoverError>)
    requires source.Valid()
    modifies source`position
    ensures r == Recover(c, old(source.Rest()))
  {
    hide Unframe, Plain, Refused, PayloadOf;
    var extractor := new PrefixExtractor();
    var out := new OutputFile(65536);
    var whole := DecryptChunks(source, c, extractor, out);
    if whole.Err? {
      return Err(whole.error);
    }
    if !whole.value || !extractor.IsComplete() {
      return Ok(None);
    }
    out.Drain();
    assert out.Contents() == out.file;
    if out.file == [] {
      return Err(EmptyOutput);
    }
    return Ok(Some(Recovered(extractor.filename, out.file)));
  }

  /** The plaintext of a file: the name's length, the name, the payload. */
  function PlaintextOf(file: Recovered): seq<Byte>
    requires |file.name| < 256
  {
    [|file.name|] + file.name + file.payload
  }

  /** A file that can be stored: its name is 1 to 255 bytes and its payload is not empty. */
  predicate Storable(file: Recovered) {
    1 <= |file.name| < 256 && file.payload != []
  }

  /** Plaintext and file determine one another. */
  lemma PlaintextIsExact(plain: seq<Byte>, file: Recovered)
    ensures !Refused(plain) && HasName(plain) && PayloadOf(plain) != [] && file == Recovered(NameOf(plain), PayloadOf(plain))
            <==> Storable(file) && plain == PlaintextOf(file)
  {
    if Storable(file) && plain == PlaintextOf(file) {
      assert plain[1..1 + |file.name|] == file.name && plain[1 + |file.name|..] == file.payload;
    }
    if !Refused(plain) && HasName(plain) {
      assert plain == [plain[0]] + plain[1..NameEnd(plain)] + plain[NameEnd(plain)..];
    }
  }

  /**
    Exactly these streams give a file: the frames of a sound sequence of chunks, cut
    anywhere, whose plaintext is that file's.
   */
  lemma RecoverIsExact(c: Cipher, bytes: seq<Byte>, file: Recovered)
    requires Ideal(c)
    ensures Recover(c, bytes) == Ok(Some(file)) <==>
            Storable(file) && exists chunks :: Sound(chunks) && Plain(chunks) == PlaintextOf(file) && bytes == Framed(c, [], chunks)
  {
    hide Unframe, Framed, Ideal, Plain, Sound, Refused, PayloadOf, NameOf, HasName, Storable, PlaintextOf;
    var u := Unframe(c, [], bytes);
    PlaintextIsExact(Plain(u.chunks), file);
    UnframeIsExact(c, bytes, u.chunks);
    StorableName(file);
    forall chunks | Sound(chunks) && bytes == Framed(c, [], chunks) ensures u == Unframed(chunks, true) {
      UnframeIsExact(c, bytes, chunks);
    }
  }

  lemma StorableName(file: Recovered)
    ensures Storable(file) ==> |file.name| < 256
  {
  }

  /**
    Whole streams that give no file, by their plaintext: a name of length zero is
    corrupt, a payload of none is refused, and a name cut short gives nothing.
   */
  lemma WholeButRefused(c: Cipher, chunks: seq<Chunk>)
    requires Ideal(c) && Sound(chunks)
    ensures var plain, r := Plain(chunks), Recover(c, Framed(c, [], chunks));
      && (r == Err(Corrupt) <==> plain != [] && plain[0] == 0)
      && (r == Err(EmptyOutput) <==> plain != [] && plain[0] != 0 && |plain| == 1 + plain[0] as int)
      && (r == Ok(None) <==> plain == [] || (plain[0] != 0 && |plain| < 1 + plain[0] as int))
  {
    hide Unframe, Framed, Ideal, Plain, Sound;
    UnframeIsExact(c, Framed(c, [], chunks), chunks);
  }

  /** A stream that is not whole gives nothing, unless its first byte was already seen to be corrupt. */
  lemma CutGivesNothing(c: Cipher, chunks: seq<Chunk>, at: nat)
    requires Ideal(c) && Sound(chunks) && at < |Framed(c, [], chunks)|
    ensures var r := Recover(c, Framed(c, [], chunks)[..at]); r == Ok(None) || r == Err(Corrupt)
    ensures Plain(chunks) != [] && Plain(chunks)[0] != 0 ==> Recover(c, Framed(c, [], chunks)[..at]) == Ok(None)
  {
    hide Unframe, Framed, Ideal, Plain, Sound;
    var bytes := Framed(c, [], chunks);
    CutIsNoticed(c, chunks, at);
    PrefixOpens(c, [], chunks, at);
    var early := Unframe(c, [], bytes[..at]).chunks;
    assert chunks == early + chunks[|early|..];
    PlainAppends(early, chunks[|early|..]);
  }

  /** A stream cut short opens to the first of its chunks. */
  lemma {:induction false} PrefixOpens(c: Cipher, before: seq<Chunk>, chunks: seq<Chunk>, at: nat)
    requires Ideal(c) && Sound(chunks) && at <= |Framed(c, before, chunks)|
    ensures Unframe(c, before, Framed(c, before, chunks)[..at]).chunks <= chunks
    decreases |chunks|
  {
    hide Frame, ReadBigEndian, StepOf;
    var k := chunks[0];
    var sealed, later := c.seal(before, k), Framed(c, before + [k], chunks[1..]);
    var bytes := Framed(c, before, chunks);
    assert bytes == Frame(sealed) + later;
    var size := FRAME_BYTES + |sealed|;
    if at < size {
      ShortFrame(c, before, sealed, later, at);
    } else {
      assert bytes[..at] == Frame(sealed) + later[..at - size];
      FrameReads(sealed, later[..at - size]);
      if |chunks| > 1 {
        PrefixOpens(c, before + [k], chunks[1..], at - size);
        assert [k] + chunks[1..] == chunks;
      }
    }
  }

  lemma ShortFrame(c: Cipher, before: seq<Chunk>, sealed: seq<Byte>, later: seq<Byte>, at: nat)
    requires |sealed| < 0x1_0000_0000 && at < FRAME_BYTES + |sealed|
    ensures Unframe(c, before, (Frame(sealed) + later)[..at]) == Unframed([], false)
  {
    hide Frame, ReadBigEndian;
    FrameReads(sealed, later);
    var bytes := Frame(sealed) + later;
    if at >= FRAME_BYTES { assert bytes[..at][..FRAME_BYTES] == bytes[..FRAME_BYTES]; }
  }

  /** What is encrypted is recovered, for every name, payload and size. */
  lemma StreamRoundTrip(c: Cipher, file: Recovered)
    requires Ideal(c) && Storable(file)
    ensures var plain := PlaintextOf(file);
      && Recover(c, Framed(c, [], ChunksOf(plain))) == Ok(Some(file))
      && |Framed(c, [], ChunksOf(plain))| == StreamSize(|file.payload| + 1 + |file.name|)
  {
    hide Framed, Ideal, Recover, ChunksOf, Sound, StreamSize;
    var plain := PlaintextOf(file);
    ChunksAreSound(plain);
    RecoverIsExact(c, Framed(c, [], ChunksOf(plain)), file);
    SizeIsEstimated(c, [], plain);
  }
}
