/**
  The default layout's reader: a walk over leading segments to the profile, the
  runs of ciphertext between the segment headers, and a source that reads them.
 */
module IccRecovery {
  import opened Results
  import opened Bytes
  import opened OutputLog
  import opened IccSegments

  const HEADER_INDEX: nat := 0xFCB0
  const ENCRYPTED_START: nat := 0x33B
  const MARKER_BACK: nat := 0x16
  const BASE_OFFSET: nat := 24
  const ICC_SIG_INDEX: nat := 32
  const JDVRIF_SIG_INDEX: nat := 843
  const MAX_LEADING_BYTES: nat := 65536
  const MAX_LEADING_SEGMENTS: nat := 16

  const JDVRIF_SIG: seq<Byte> := [0xB4, 0x6A, 0x3E, 0xEA, 0x5E, 0x9D, 0xF9]
  const ICC_SIG: seq<Byte> := [0x6D, 0x6E, 0x74, 0x72, 0x52, 0x47, 0x42]

  datatype RecoveryError = NoProfile | UnsupportedLayout | Corrupt | MissingSegments

  // ----- Stepping over headers -----

  /** The bytes of a span without the 18-byte windows at `header`, `header` + 65537, and so on. */
  function Stepped(span: seq<Byte>, header: nat): (bytes: seq<Byte>) {
    if |span| <= header then span
    else
      var after := if header + HEADER_BYTES < |span| then header + HEADER_BYTES else |span|;
      span[..header] + Stepped(span[after..], STRIDE - HEADER_BYTES)
  }

  lemma SteppedRun(span: seq<Byte>, header: nat, run: nat)
    requires run <= header && run <= |span|
    ensures Stepped(span, header) == span[..run] + Stepped(span[run..], header - run)
  {
    if |span| <= header {
      assert span == span[..run] + span[run..];
    } else {
      var after := if header + HEADER_BYTES < |span| then header + HEADER_BYTES else |span|;
      assert span[run..][after - run..] == span[after..];
      assert span[..header] == span[..run] + span[run..][..header - run];
    }
  }

  /** What framing adds, stepping takes away. */
  lemma {:induction false} FramedStepped(front: seq<Byte>, rest: seq<Byte>, index: nat)
    requires rest != [] ==> |front| <= SEGMENT_DATA
    ensures Stepped(front + Framed(rest, index), |front|) == front + rest
    decreases |rest|
  {
    if rest != [] {
      var c := ChunkOf(rest);
      var header, chunk, more := IccHeader(c + 16, index), rest[..c], rest[c..];
      FramedStepped(chunk, more, index + 1);
      var span := front + Framed(rest, index);
      assert span == front + header + (chunk + Framed(more, index + 1));
      assert span[|front| + HEADER_BYTES..] == chunk + Framed(more, index + 1);
      assert span[..|front|] == front && chunk + more == rest;
      if more == [] { SteppedShort(chunk); }
    } else {
      assert front + Framed(rest, index) == front;
    }
  }

  lemma SteppedShort(chunk: seq<Byte>)
    requires |chunk| <= SEGMENT_DATA
    ensures Stepped(chunk, SEGMENT_DATA) == chunk
  {
  }

  /** Headers stepped over in a span of `n` bytes. */
  function HeadersIn(n: nat, header: nat): nat {
    if n <= header then 0
    else 1 + HeadersIn(if header + HEADER_BYTES < n then n - header - HEADER_BYTES else 0, STRIDE - HEADER_BYTES)
  }

  /** The count the recovery report shows. */
  function SkippedHeaderCount(embedded: nat, total: nat): nat {
    if total == 0 || embedded <= HEADER_INDEX then 0 else 1 + (embedded - 1 - HEADER_INDEX) / STRIDE
  }

  lemma {:induction false} HeadersCounted(n: nat, header: nat)
    ensures HeadersIn(n, header) == if n <= header then 0 else 1 + (n - 1 - header) / STRIDE
    decreases n
  {
    if n > header && header + HEADER_BYTES < n {
      HeadersCounted(n - header - HEADER_BYTES, STRIDE - HEADER_BYTES);
    }
  }

  /** The closed form counts exactly the headers the run loop steps over. */
  lemma SkippedIsCounted(embedded: nat, total: nat)
    requires total != 0
    ensures SkippedHeaderCount(embedded, total) == HeadersIn(embedded, HEADER_INDEX)
  {
    HeadersCounted(embedded, HEADER_INDEX);
  }

  // ----- Runs -----

  datatype FileRun = FileRun(offset: nat, length: nat)

  ghost predicate InFile(runs: seq<FileRun>, n: nat) {
    forall i :: 0 <= i < |runs| ==> runs[i].offset + runs[i].length <= n
  }

  function Slice(file: seq<Byte>, offset: nat, length: nat): (s: seq<Byte>)
    requires offset + length <= |file|
    ensures |s| == length
  {
    file[offset..offset + length]
  }

  lemma SliceSplits(file: seq<Byte>, offset: nat, a: nat, b: nat)
    requires offset + a + b <= |file|
    ensures Slice(file, offset, a + b) == Slice(file, offset, a) + Slice(file, offset + a, b)
  {
  }

  lemma SliceOfSlice(file: seq<Byte>, start: nat, length: nat, offset: nat, count: nat)
    requires start + length <= |file| && offset + count <= length
    ensures file[start..start + length][offset..offset + count] == Slice(file, start + offset, count)
  {
    var outer, inner := file[start..start + length][offset..offset + count], file[start + offset..start + offset + count];
    assert forall i :: 0 <= i < count ==> outer[i] == inner[i];
  }

  function RunBytes(file: seq<Byte>, runs: seq<FileRun>): seq<Byte>
    requires InFile(runs, |file|)
  {
    if runs == [] then [] else Slice(file, runs[0].offset, runs[0].length) + RunBytes(file, runs[1..])
  }

  lemma Reassociate(a: seq<Byte>, b: seq<Byte>, c: seq<Byte>)
    ensures a + (b + c) == (a + b) + c
  {
  }

  lemma {:induction false} RunBytesAppend(file: seq<Byte>, runs: seq<FileRun>, last: FileRun)
    requires InFile(runs, |file|) && last.offset + last.length <= |file|
    ensures InFile(runs + [last], |file|)
    ensures RunBytes(file, runs + [last]) == RunBytes(file, runs) + Slice(file, last.offset, last.length)
  {
    hide Slice;
    if runs == [] {
      assert (runs + [last])[1..] == [];
    } else {
      RunBytesAppend(file, runs[1..], last);
      assert (runs + [last])[1..] == runs[1..] + [last];
      Reassociate(Slice(file, runs[0].offset, runs[0].length), RunBytes(file, runs[1..]), Slice(file, last.offset, last.length));
    }
  }

  /** The declared span without its headers, when it has any. */
  function Unframed(span: seq<Byte>, header: nat, hasHeaders: bool): seq<Byte> {
    if hasHeaders then Stepped(span, header) else span
  }

  /** Everything wrong with a declared span, in the original's order. */
  function SpanFault(file: seq<Byte>, base: nat, embedded: nat, total: nat): Option<RecoveryError> {
    if base > |file| || ENCRYPTED_START > |file| - base then Some(Corrupt)
    else if embedded > |file| - (base + ENCRYPTED_START) then Some(Corrupt)
    else if total == 0 then None
    else if (total - 1) * STRIDE < MARKER_BACK then Some(Corrupt)
    else
      var marker := (total - 1) * STRIDE - MARKER_BACK;
      if marker > |file| - base || |file| - base - marker < 2 then Some(Corrupt)
      else if file[base + marker..base + marker + 2] != [0xFF, 0xE2] then Some(MissingSegments)
      else None
  }

  /** The runs between headers: read one after another they are the span without its headers. */
  method BuildRuns(file: seq<Byte>, start: nat, embedded: nat, hasHeaders: bool) returns (runs: seq<FileRun>)
    requires start + embedded <= |file|
    ensures InFile(runs, |file|)
    ensures RunBytes(file, runs) == Unframed(file[start..start + embedded], HEADER_INDEX, hasHeaders)
  {
    runs := [];
    var cursor: nat, nextHeader: nat := 0, HEADER_INDEX;
    ghost var span := file[start..start + embedded];
    assert span[0..] == span;
    assert RunBytes(file, runs) + StillToRead(span, 0, HEADER_INDEX, hasHeaders) == Unframed(span, HEADER_INDEX, hasHeaders);
    hide Unframed, StillToRead, RunBytes, InFile, Slice;
    while cursor < embedded
      invariant cursor <= embedded && (hasHeaders ==> cursor <= nextHeader)
      invariant InFile(runs, |file|)
      invariant RunBytes(file, runs) + StillToRead(span, cursor, nextHeader, hasHeaders) == Unframed(span, HEADER_INDEX, hasHeaders)
      decreases embedded - cursor
    {
      if hasHeaders && cursor == nextHeader {
        var skip := if HEADER_BYTES < embedded - cursor then HEADER_BYTES else embedded - cursor;
        StepOver(span, cursor, skip);
        cursor := cursor + skip;
        nextHeader := nextHeader + STRIDE;
      } else {
        var cut := if hasHeaders && nextHeader < embedded then nextHeader else embedded;
        var run := cut - cursor;
        RunAdded(file, start, embedded, runs, cursor, run, nextHeader, hasHeaders);
        runs := runs + [FileRun(start + cursor, run)];
        cursor := cursor + run;
      }
    }
    NothingLeft(span, nextHeader, hasHeaders);
  }

  /** What the loop has still to read, standing at `cursor`. */
  ghost function StillToRead(span: seq<Byte>, cursor: nat, nextHeader: nat, hasHeaders: bool): seq<Byte>
    requires cursor <= |span|
  {
    Unframed(span[cursor..], if cursor <= nextHeader then nextHeader - cursor else 0, hasHeaders)
  }

  lemma NothingLeft(span: seq<Byte>, nextHeader: nat, hasHeaders: bool)
    ensures StillToRead(span, |span|, nextHeader, hasHeaders) == []
  {
  }

  lemma StepOver(span: seq<Byte>, cursor: nat, skip: nat)
    requires cursor < |span| && skip == if HEADER_BYTES < |span| - cursor then HEADER_BYTES else |span| - cursor
    ensures StillToRead(span, cursor, cursor, true) == StillToRead(span, cursor + skip, cursor + STRIDE, true)
  {
    var rest := span[cursor..];
    assert rest[skip..] == span[cursor + skip..];
    assert rest[..0] + Stepped(rest[skip..], STRIDE - HEADER_BYTES) == Stepped(rest[skip..], STRIDE - HEADER_BYTES);
  }

  lemma TakeRun(span: seq<Byte>, cursor: nat, run: nat, nextHeader: nat, hasHeaders: bool)
    requires cursor + run <= |span| && (hasHeaders ==> cursor + run <= nextHeader)
    ensures StillToRead(span, cursor, nextHeader, hasHeaders)
         == span[cursor..cursor + run] + StillToRead(span, cursor + run, nextHeader, hasHeaders)
  {
    var rest := span[cursor..];
    assert rest[..run] == span[cursor..cursor + run] && rest[run..] == span[cursor + run..];
    if hasHeaders { SteppedRun(rest, nextHeader - cursor, run); } else { assert rest == rest[..run] + rest[run..]; }
  }

  lemma RunAdded(file: seq<Byte>, start: nat, embedded: nat, runs: seq<FileRun>, cursor: nat, run: nat,
                 nextHeader: nat, hasHeaders: bool)
    requires start + embedded <= |file| && cursor + run <= embedded && (hasHeaders ==> cursor + run <= nextHeader)
    requires InFile(runs, |file|)
    ensures var span, longer := file[start..start + embedded], runs + [FileRun(start + cursor, run)];
      && InFile(longer, |file|)
      && RunBytes(file, longer) + StillToRead(span, cursor + run, nextHeader, hasHeaders)
         == RunBytes(file, runs) + StillToRead(span, cursor, nextHeader, hasHeaders)
  {
    var span := file[start..start + embedded];
    TakeRun(span, cursor, run, nextHeader, hasHeaders);
    RunBytesAppend(file, runs, FileRun(start + cursor, run));
    SliceOfSlice(file, start, embedded, cursor, run);
    hide RunBytes, StillToRead, Slice;
    Reassociate(RunBytes(file, runs), span[cursor..cursor + run], StillToRead(span, cursor + run, nextHeader, hasHeaders));
  }

  /** Fails exactly on a faulty span; otherwise the ciphertext's runs. */
  method OpenDefaultCiphertext(file: seq<Byte>, base: nat, embedded: nat, total: nat)
    returns (r: Result<seq<FileRun>, RecoveryError>)
    ensures r.Err? <==> SpanFault(file, base, embedded, total).Some?
    ensures r.Err? ==> r.error == SpanFault(file, base, embedded, total).value
    ensures r.Ok? ==>
      && InFile(r.value, |file|)
      && RunBytes(file, r.value)
         == Unframed(file[base + ENCRYPTED_START..base + ENCRYPTED_START + embedded], HEADER_INDEX, total != 0)
  {
    if base > |file| || ENCRYPTED_START > |file| - base {
      return Err(Corrupt);
    }
    var start := base + ENCRYPTED_START;
    if embedded > |file| - start {
      return Err(Corrupt);
    }
    if total != 0 {
      var markerOffset := (total - 1) * STRIDE;
      if markerOffset < MARKER_BACK {
        return Err(Corrupt);
      }
      var marker := markerOffset - MARKER_BACK;
      if marker > |file| - base || |file| - base - marker < 2 {
        return Err(Corrupt);
      }
      if file[base + marker..base + marker + 2] != [0xFF, 0xE2] {
        return Err(MissingSegments);
      }
    }
    var runs := BuildRuns(file, start, embedded, total != 0);
    return Ok(runs);
  }

  /** Reads the runs one after another, in pieces of any size. */
  class FileRunsSource {
    const file: seq<Byte>
    const runs: seq<FileRun>
    var runIndex: nat
    var runPosition: nat
    var remaining: nat

    ghost predicate Valid()
      reads this
    {
      && InFile(runs, |file|)
      && runIndex <= |runs|
      && (if runIndex < |runs| then runPosition <= runs[runIndex].length else runPosition == 0)
      && remaining == |Rest()|
    }

    ghost function Rest(): seq<Byte>
      reads this
    {
      RestOf(file, runs, runIndex, runPosition)
    }

    constructor (file: seq<Byte>, runs: seq<FileRun>)
      requires InFile(runs, |file|)
      ensures Valid() && Rest() == RunBytes(file, runs)
    {
      this.file, this.runs := file, runs;
      runIndex, runPosition := 0, 0;
      remaining := Total(runs);
      new;
      TotalIsLength(file, runs);
      StartOfRuns(file, runs);
    }

    /** The next `count` bytes, or nothing when fewer are left. */
    method TryRead(count: nat) returns (bytes: Option<seq<Byte>>)
      requires Valid()
      modifies this`runIndex, this`runPosition, this`remaining
      ensures Valid()
      ensures bytes == if count <= old(|Rest()|) then Some(old(Rest())[..count]) else None
      ensures Rest() == if count <= old(|Rest()|) then old(Rest())[count..] else old(Rest())
    {
      if count > remaining {
        return None;
      }
      ghost var rest := Rest();
      var taken: seq<Byte> := [];
      while |taken| < count
        invariant Valid() && |taken| <= count <= |rest|
        invariant taken + Rest() == rest
        decreases |runs| - runIndex, count - |taken|
      {
        ghost var before := Rest();
        var piece := TakePiece(count - |taken|);
        TakenMore(taken, piece, before, Rest());
        taken := taken + piece;
      }
      assert taken == rest[..count] && Rest() == rest[count..];
      return Some(taken);
    }

    static lemma TakenMore(taken: seq<Byte>, piece: seq<Byte>, before: seq<Byte>, after: seq<Byte>)
      requires before == piece + after
      ensures taken + before == (taken + piece) + after
    {
    }

    /** As much of the current run as is wanted; moves to the next run when this one ends. */
    method TakePiece(wanted: nat) returns (piece: seq<Byte>)
      requires Valid() && 0 < wanted <= remaining
      modifies this`runIndex, this`runPosition, this`remaining
      ensures Valid() && |piece| <= wanted && Joined(old(Rest()), piece, Rest())
      ensures runIndex == old(runIndex) + 1 || (runIndex == old(runIndex) && |piece| == wanted)
    {
      hide RestOf, InFile, Slice, RunBytes, Joined;
      WithinRuns(file, runs, runIndex, runPosition);
      var run := runs[runIndex];
      var take := if wanted < run.length - runPosition then wanted else run.length - runPosition;
      RestAdvances(file, runs, runIndex, runPosition, take);
      NextRun(file, runs, runIndex);
      piece := Slice(file, run.offset + runPosition, take);
      remaining := remaining - take;
      if runPosition + take == run.length {
        runIndex, runPosition := runIndex + 1, 0;
      } else {
        runPosition := runPosition + take;
      }
    }
  }

  lemma WithinRuns(file: seq<Byte>, runs: seq<FileRun>, index: nat, position: nat)
    requires InFile(runs, |file|) && index <= |runs| && |RestOf(file, runs, index, position)| > 0
    ensures index < |runs| && runs[index].offset + runs[index].length <= |file|
  {
  }

  /** `whole` is `front` and then `rest`. */
  ghost predicate Joined(whole: seq<Byte>, front: seq<Byte>, rest: seq<Byte>) {
    whole == front + rest
  }

  /** What is left of a run from a position on. */
  ghost function RestOfRun(file: seq<Byte>, run: FileRun, position: nat): seq<Byte> {
    if position <= run.length && run.offset + run.length <= |file| then
      Slice(file, run.offset + position, run.length - position)
    else []
  }

  ghost function LaterRuns(file: seq<Byte>, runs: seq<FileRun>, index: nat): seq<Byte> {
    if index <= |runs| && InFile(runs[index..], |file|) then RunBytes(file, runs[index..]) else []
  }

  /** The bytes from a position in the runs on. */
  ghost function RestOf(file: seq<Byte>, runs: seq<FileRun>, index: nat, position: nat): seq<Byte> {
    if index < |runs| then RestOfRun(file, runs[index], position) + LaterRuns(file, runs, index + 1) else []
  }

  lemma RestOfRunAdvances(file: seq<Byte>, run: FileRun, position: nat, take: nat)
    requires position + take <= run.length && run.offset + run.length <= |file|
    ensures RestOfRun(file, run, position) == Slice(file, run.offset + position, take) + RestOfRun(file, run, position + take)
  {
    SliceSplits(file, run.offset + position, take, run.length - position - take);
  }

  lemma RestAdvances(file: seq<Byte>, runs: seq<FileRun>, index: nat, position: nat, take: nat)
    requires index < |runs| && position + take <= runs[index].length
    requires runs[index].offset + runs[index].length <= |file|
    ensures Joined(RestOf(file, runs, index, position),
                   Slice(file, runs[index].offset + position, take), RestOf(file, runs, index, position + take))
    ensures |RestOf(file, runs, index, position)| == take + |RestOf(file, runs, index, position + take)|
  {
    hide Slice, RestOfRun, LaterRuns;
    var run := runs[index];
    RestOfRunAdvances(file, run, position, take);
    Reassociate(Slice(file, run.offset + position, take), RestOfRun(file, run, position + take), LaterRuns(file, runs, index + 1));
  }

  lemma NextRun(file: seq<Byte>, runs: seq<FileRun>, index: nat)
    requires InFile(runs, |file|) && index < |runs|
    ensures RestOf(file, runs, index, runs[index].length) == RestOf(file, runs, index + 1, 0)
  {
    var rest := runs[index + 1..];
    assert RestOfRun(file, runs[index], runs[index].length) == [];
    hide Slice;
    if index + 1 < |runs| { assert rest[0] == runs[index + 1] && rest[1..] == runs[index + 2..]; }
  }

  function Total(runs: seq<FileRun>): nat {
    if runs == [] then 0 else runs[0].length + Total(runs[1..])
  }

  lemma {:induction false} TotalIsLength(file: seq<Byte>, runs: seq<FileRun>)
    requires InFile(runs, |file|)
    ensures Total(runs) == |RunBytes(file, runs)|
  {
    if runs != [] { TotalIsLength(file, runs[1..]); }
  }

  lemma StartOfRuns(file: seq<Byte>, runs: seq<FileRun>)
    requires InFile(runs, |file|)
    ensures RestOf(file, runs, 0, 0) == RunBytes(file, runs)
  {
  }
}
