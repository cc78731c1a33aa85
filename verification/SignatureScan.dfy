/**
  Searching a file for a signature in windows that overlap, whatever amounts the
  system returns per read.
 */
module SignatureScan {
  import opened Results
  import opened Bytes

  const CHUNK: nat := 0x10_0000

  predicate MatchesAt(data: seq<Byte>, sig: seq<Byte>, at: nat) {
    at + |sig| <= |data| && data[at..at + |sig|] == sig
  }

  /** The first match that starts at `from` or later and ends by `end`. */
  function FirstMatch(data: seq<Byte>, sig: seq<Byte>, from: nat, end: nat): (at: Option<nat>)
    requires end <= |data|
    ensures at.Some? ==> from <= at.value && at.value + |sig| <= end
    decreases if from <= end then end - from + 1 else 0
  {
    if from + |sig| > end then None
    else if MatchesAt(data, sig, from) then Some(from)
    else FirstMatch(data, sig, from + 1, end)
  }

  /** It is a match, and there is none before it; when there is none, there is none at all. */
  lemma {:induction false} FirstMatchMeans(data: seq<Byte>, sig: seq<Byte>, from: nat, end: nat)
    requires end <= |data|
    ensures var at := FirstMatch(data, sig, from, end);
      if at.Some? then MatchesAt(data, sig, at.value) && NoneWithin(data, sig, from, at.value + |sig| - 1)
      else NoneWithin(data, sig, from, end)
    decreases if from <= end then end - from + 1 else 0
  {
    hide MatchesAt;
    if from + |sig| <= end && !MatchesAt(data, sig, from) { FirstMatchMeans(data, sig, from + 1, end); }
  }

  /** A match with none before it is the first. */
  lemma {:induction false} FirstMatchIs(data: seq<Byte>, sig: seq<Byte>, from: nat, end: nat, at: nat)
    requires end <= |data| && from <= at && at + |sig| <= end && MatchesAt(data, sig, at)
    requires NoneWithin(data, sig, from, at + |sig| - 1)
    ensures FirstMatch(data, sig, from, end) == Some(at)
    decreases at - from
  {
    hide MatchesAt;
    if from < at {
      assert !MatchesAt(data, sig, from);
      FirstMatchIs(data, sig, from + 1, end, at);
    }
  }

  ghost predicate NoneWithin(file: seq<Byte>, sig: seq<Byte>, start: int, end: int) {
    forall p: nat :: start <= p && p + |sig| <= end ==> !MatchesAt(file, sig, p)
  }

  function SearchWindow(window: seq<Byte>, sig: seq<Byte>): Option<nat> {
    FirstMatch(window, sig, 0, |window|)
  }

  /** A window shows the matches of the file that lie inside it. */
  lemma WindowShows(file: seq<Byte>, base: nat, end: nat, sig: seq<Byte>, p: nat)
    requires base <= end <= |file| && base <= p && p + |sig| <= end
    ensures MatchesAt(file[base..end], sig, p - base) <==> MatchesAt(file, sig, p)
  {
    SubSlice(file, base, end, p - base, |sig|);
  }

  /** One read returns at least one byte and at most what was asked for. */
  method ReadSome(most: nat) returns (got: nat)
    requires most >= 1
    ensures 1 <= got <= most
  {
    got :| 1 <= got <= most;
  }

  lemma WindowFirst(file: seq<Byte>, sig: seq<Byte>, start: nat, base: nat, consumed: nat, end: nat)
    requires start <= base <= consumed <= end <= |file| && sig != []
    requires consumed - base == if consumed - start < |sig| - 1 then consumed - start else |sig| - 1
    requires NoneWithin(file, sig, start, consumed)
    ensures var found := SearchWindow(file[base..end], sig);
      if found.Some? then FirstMatch(file, sig, start, end) == Some(base + found.value)
      else FirstMatch(file, sig, start, end) == None && NoneWithin(file, sig, start, end)
  {
    hide MatchesAt, FirstMatch;
    var found := FirstMatch(file[base..end], sig, 0, end - base);
    FirstMatchMeans(file[base..end], sig, 0, end - base);
    var clear := if found.Some? then base + found.value + |sig| - 1 else end;
    forall p: nat | start <= p && p + |sig| <= clear ensures !MatchesAt(file, sig, p) {
      if p >= base {
        WindowShows(file, base, end, sig, p);
        assert !MatchesAt(file[base..end], sig, p - base);
      }
    }
    if found.Some? {
      WindowShows(file, base, end, sig, base + found.value);
      FirstMatchIs(file, sig, start, end, base + found.value);
    } else {
      NoneFound(file, sig, start, end);
    }
  }

  lemma NothingWithin(file: seq<Byte>, sig: seq<Byte>, start: nat)
    requires sig != []
    ensures NoneWithin(file, sig, start, start)
  {
  }

  lemma NothingFits(file: seq<Byte>, sig: seq<Byte>, start: nat, end: nat)
    requires sig != [] && end <= start && end <= |file|
    ensures FirstMatch(file, sig, start, end) == None
  {
  }

  lemma FoundInPart(file: seq<Byte>, sig: seq<Byte>, start: nat, part: nat, end: nat)
    requires part <= end <= |file| && FirstMatch(file, sig, start, part).Some?
    ensures FirstMatch(file, sig, start, end) == FirstMatch(file, sig, start, part)
  {
    FirstMatchMeans(file, sig, start, part);
    FirstMatchIs(file, sig, start, end, FirstMatch(file, sig, start, part).value);
  }

  lemma NoneFound(file: seq<Byte>, sig: seq<Byte>, start: nat, end: nat)
    requires end <= |file| && NoneWithin(file, sig, start, end)
    ensures FirstMatch(file, sig, start, end) == None
  {
    FirstMatchMeans(file, sig, start, end);
  }

  /** The windowed scan finds the first match in the searched range; `limit` 0 means to the end of the file. */
  method FindSignature(file: seq<Byte>, sig: seq<Byte>, limit: nat, start: nat) returns (r: Option<nat>)
    ensures var end := if limit != 0 && limit < |file| then limit else |file|;
      r == if sig == [] then None else FirstMatch(file, sig, start, end)
  {
    hide MatchesAt, FirstMatch, NoneWithin, SearchWindow;
    if sig == [] {
      return None;
    }
    var end := if limit != 0 && limit < |file| then limit else |file|;
    if (limit != 0 && limit <= start) || start >= end {
      NothingFits(file, sig, start, end);
      return None;
    }
    NothingWithin(file, sig, start);
    var overlap := |sig| - 1;
    var consumed, carry := start, 0;
    while consumed < end
      invariant start <= consumed <= end
      invariant carry == if consumed - start < overlap then consumed - start else overlap
      invariant NoneWithin(file, sig, start, consumed)
      decreases end - consumed
    {
      var got := ReadSome(if CHUNK < end - consumed then CHUNK else end - consumed);
      var base := consumed - carry;
      var found := SearchWindow(file[base..consumed + got], sig);
      WindowFirst(file, sig, start, base, consumed, consumed + got);
      if found.Some? {
        FoundInPart(file, sig, start, consumed + got, end);
        return Some(base + found.value);
      }
      carry := if overlap < carry + got then overlap else carry + got;
      consumed := consumed + got;
    }
    NoneFound(file, sig, start, end);
    return None;
  }
}
