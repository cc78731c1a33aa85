/**
  The syndrome-trellis code over covers of any length: each segment of the
  schedule is embedded and extracted on its own.
 */
module Stc {
  import opened Results
  import opened StcSchedule
  import opened StcTrellis
  import opened StcRaw

  const RATE_NUMERATOR: nat := 2
  const RATE_DENOMINATOR: nat := 5
  const MAX_U64: nat := 0xFFFF_FFFF_FFFF_FFFF

  /** Cover symbols for a message, at the fixed rate of two bits in five. */
  function CoverSymbols(messageBits: nat): nat {
    (messageBits * RATE_DENOMINATOR + RATE_NUMERATOR - 1) / RATE_NUMERATOR
  }

  /** The fixed rate is always schedulable, for messages of one bit upwards. */
  lemma RateIsSchedulable(messageBits: nat)
    requires messageBits >= 1
    ensures Schedulable(CoverSymbols(messageBits), messageBits)
  {
  }

  method RequiredCoverSymbols(messageBits: nat) returns (r: Option<nat>)
    ensures r.Some? <==> messageBits <= (MAX_U64 - 1) / RATE_DENOMINATOR
    ensures r.Some? ==> r.value == CoverSymbols(messageBits)
    ensures r.Some? ==> 5 * messageBits <= 2 * r.value < 5 * messageBits + 2
    ensures r.Some? ==> messageBits * RATE_DENOMINATOR + RATE_NUMERATOR - 1 <= MAX_U64
    ensures r.None? ==> messageBits * RATE_DENOMINATOR + RATE_NUMERATOR - 1 > MAX_U64
  {
    if messageBits > (MAX_U64 - 1) / RATE_DENOMINATOR {
      return None;
    }
    return Some((messageBits * RATE_DENOMINATOR + RATE_NUMERATOR - 1) / RATE_NUMERATOR);
  }

  // ----- What extraction computes -----

  ghost predicate InBounds(s: Segment, cover: nat, messages: nat) {
    && Schedulable(s.coverCount, s.messageCount)
    && s.coverOffset + s.coverCount <= cover
    && s.messageOffset + s.messageCount <= messages
  }

  ghost predicate AllInBounds(segments: seq<Segment>, cover: nat, messages: nat) {
    forall i :: 0 <= i < |segments| ==> InBounds(segments[i], cover, messages)
  }

  /** A segment's slice of a cover-length sequence, and of a message. */
  function CoverSlice<T>(s: Segment, x: seq<T>): seq<T>
    requires s.coverOffset + s.coverCount <= |x|
  {
    x[s.coverOffset..s.coverOffset + s.coverCount]
  }

  function MessageSlice(s: Segment, message: seq<bool>): seq<bool>
    requires s.messageOffset + s.messageCount <= |message|
  {
    message[s.messageOffset..s.messageOffset + s.messageCount]
  }

  function SegmentBits(s: Segment, stego: seq<bool>): (bits: seq<bool>)
    requires Schedulable(s.coverCount, s.messageCount) && s.coverOffset + s.coverCount <= |stego|
    ensures |bits| == s.messageCount
  {
    Extracted(ScheduledCode(s.coverCount, s.messageCount), CoverSlice(s, stego), s.messageCount)
  }

  /** The bits of the first `k` segments, in order. */
  function BitsUpTo(segments: seq<Segment>, stego: seq<bool>, ghost messages: nat, k: nat): (bits: seq<bool>)
    requires k <= |segments| && AllInBounds(segments, |stego|, messages)
  {
    if k == 0 then [] else BitsUpTo(segments, stego, messages, k - 1) + SegmentBits(segments[k - 1], stego)
  }

  /** Where segment `k` of a tiling lies. */
  lemma TileAt(segments: seq<Segment>, cover: nat, messages: nat, k: nat)
    requires Tiles(segments, cover, messages) && k < |segments|
    ensures InBounds(segments[k], cover, messages)
    ensures segments[k].coverOffset == CoverEnd(segments, k) && segments[k].messageOffset == MessageEnd(segments, k)
    ensures CoverEnd(segments, k + 1) == CoverEnd(segments, k) + segments[k].coverCount
    ensures MessageEnd(segments, k + 1) == MessageEnd(segments, k) + segments[k].messageCount
  {
    assert segments[k].coverOffset == CoverEnd(segments, k);
    EndsWithin(segments, cover, messages, k + 1);
  }

  lemma TilesSpan(segments: seq<Segment>, cover: nat, messages: nat)
    requires Tiles(segments, cover, messages)
    ensures CoverEnd(segments, 0) == 0 && MessageEnd(segments, 0) == 0
    ensures CoverEnd(segments, |segments|) == cover && MessageEnd(segments, |segments|) == messages
  {
  }

  lemma TilesInBounds(segments: seq<Segment>, cover: nat, messages: nat)
    requires Tiles(segments, cover, messages)
    ensures AllInBounds(segments, cover, messages)
  {
    forall i | 0 <= i < |segments| ensures InBounds(segments[i], cover, messages) {
      EndsWithin(segments, cover, messages, i + 1);
    }
  }

  /** The message a stego vector carries. */
  function Extraction(stego: seq<bool>, messageBits: nat): Result<seq<bool>, StcError> {
    if messageBits == 0 then Ok([])
    else if |stego| != CoverSymbols(messageBits) then Err(RateMismatch)
    else
      RateIsSchedulable(messageBits);
      SegmentsTile(|stego|, messageBits);
      var segments := Segments(|stego|, messageBits);
      TilesInBounds(segments, |stego|, messageBits);
      Ok(BitsUpTo(segments, stego, messageBits, |segments|))
  }

  lemma {:induction false} BitsUpToLength(segments: seq<Segment>, stego: seq<bool>, messages: nat, k: nat)
    requires k <= |segments| && AllInBounds(segments, |stego|, messages) && Tiles(segments, |stego|, messages)
    ensures |BitsUpTo(segments, stego, messages, k)| == MessageEnd(segments, k)
  {
    hide SegmentBits;
    if k > 0 {
      BitsUpToLength(segments, stego, messages, k - 1);
      assert segments[k - 1].messageOffset == MessageEnd(segments, k - 1);
    }
  }

  /** A stego vector of the right length always extracts, to as many bits as are asked for. */
  lemma ExtractionLength(stego: seq<bool>, messageBits: nat)
    requires |stego| == CoverSymbols(messageBits)
    ensures Extraction(stego, messageBits).Ok? && |Extraction(stego, messageBits).value| == messageBits
  {
    if messageBits > 0 {
      SegmentsTile(|stego|, messageBits);
      var segments := Segments(|stego|, messageBits);
      TilesInBounds(segments, |stego|, messageBits);
      BitsUpToLength(segments, stego, messageBits, |segments|);
    }
  }

  // ----- One segment against the whole -----

  lemma {:induction false} TotalCostSplits(cover: seq<bool>, costs: seq<FlipCost>, x: seq<bool>, k: nat)
    requires k <= |x| <= |cover| == |costs|
    ensures TotalCost(cover, costs, x)
         == TotalCost(cover, costs, x[..k]) + TotalCost(cover[k..|x|], costs[k..|x|], x[k..])
  {
    hide TotalCost, Effective;
    if k == |x| {
      assert x[..k] == x && x[k..] == [];
      TotalCostOfNone(cover[k..|x|], costs[k..|x|]);
    } else {
      var n, tail := |x| - 1, x[k..];
      TotalCostSplits(cover, costs, x[..n], k);
      TotalCostTrims(cover[k..|x|], costs[k..|x|], tail[..n - k], n - k);
      TotalCostLast(cover, costs, x, n);
      TotalCostLast(cover[k..|x|], costs[k..|x|], tail, n - k);
      assert x[..n][..k] == x[..k] && x[..n][k..] == tail[..n - k];
      assert cover[k..|x|][..n - k] == cover[k..n] && costs[k..|x|][..n - k] == costs[k..n];
    }
  }

  lemma TotalCostOfNone(cover: seq<bool>, costs: seq<FlipCost>)
    requires |cover| == |costs|
    ensures TotalCost(cover, costs, []) == 0.0
  {
  }

  lemma TotalCostLast(cover: seq<bool>, costs: seq<FlipCost>, x: seq<bool>, n: nat)
    requires n + 1 == |x| <= |cover| == |costs|
    ensures TotalCost(cover, costs, x)
         == TotalCost(cover, costs, x[..n]) + (if x[n] != cover[n] then Effective(costs[n]) else 0.0)
  {
  }

  lemma {:induction false} TotalCostTrims(cover: seq<bool>, costs: seq<FlipCost>, x: seq<bool>, k: nat)
    requires |x| <= k <= |cover| == |costs|
    ensures TotalCost(cover, costs, x) == TotalCost(cover[..k], costs[..k], x)
  {
    if x != [] { TotalCostTrims(cover, costs, x[..|x| - 1], k); }
  }

  lemma {:induction false} HammingSplits(x: seq<bool>, y: seq<bool>, k: nat)
    requires k <= |x| <= |y|
    ensures Hamming(x, y) == Hamming(x[..k], y) + Hamming(x[k..], y[k..|x|])
  {
    hide Hamming;
    if k == |x| {
      assert x[..k] == x && x[k..] == [];
      HammingOfNone(y[k..|x|]);
    } else {
      var n, tail := |x| - 1, x[k..];
      HammingSplits(x[..n], y, k);
      HammingTrims(tail[..n - k], y[k..|x|], n - k);
      HammingLast(x, y, n);
      HammingLast(tail, y[k..|x|], n - k);
      assert x[..n][..k] == x[..k] && x[..n][k..] == tail[..n - k];
      assert y[k..|x|][..n - k] == y[k..n];
    }
  }

  lemma HammingOfNone(y: seq<bool>)
    ensures Hamming([], y) == 0
  {
  }

  lemma HammingLast(x: seq<bool>, y: seq<bool>, n: nat)
    requires n + 1 == |x| <= |y|
    ensures Hamming(x, y) == Hamming(x[..n], y) + (if x[n] != y[n] then 1 else 0)
  {
  }

  lemma {:induction false} HammingTrims(x: seq<bool>, y: seq<bool>, k: nat)
    requires |x| <= k <= |y|
    ensures Hamming(x, y) == Hamming(x, y[..k])
  {
    if x != [] { HammingTrims(x[..|x| - 1], y, k); }
  }

  lemma {:induction false} UnchangedIsFree(cover: seq<bool>, costs: seq<FlipCost>, x: seq<bool>)
    requires |x| <= |cover| == |costs| && x == cover[..|x|]
    ensures TotalCost(cover, costs, x) == 0.0 && Hamming(x, cover) == 0
  {
    if x != [] {
      assert x[..|x| - 1] == cover[..|x| - 1];
      UnchangedIsFree(cover, costs, x[..|x| - 1]);
    }
  }

  lemma {:induction false} TotalCostNonNegative(cover: seq<bool>, costs: seq<FlipCost>, x: seq<bool>)
    requires |x| <= |cover| == |costs|
    ensures TotalCost(cover, costs, x) >= 0.0
  {
    if x != [] { TotalCostNonNegative(cover, costs, x[..|x| - 1]); }
  }

  lemma SyndromeIsExtracted(code: seq<Symbol>, x: seq<bool>, message: seq<bool>)
    requires |x| == |code|
    ensures HasSyndrome(code, x, message) <==> Extracted(code, x, |message|) == message
  {
    if Extracted(code, x, |message|) == message {
      forall i | 0 <= i < |message| ensures SyndromeBit(code, x, i) == message[i] {
        ExtractedAt(code, x, |message|, i);
      }
    }
    if HasSyndrome(code, x, message) {
      ExtractedIs(code, x, message);
    }
  }

  // ----- Embedding -----

  /** On this segment, `stego` holds cheapest bits for the segment's slice of the message. */
  ghost predicate Embedded(s: Segment, cover: seq<bool>, costs: seq<FlipCost>, message: seq<bool>, stego: seq<bool>)
    requires |cover| == |costs| == |stego|
  {
    && InBounds(s, |cover|, |message|)
    && Cheapest(ScheduledCode(s.coverCount, s.messageCount), CoverSlice(s, cover), CoverSlice(s, costs),
                MessageSlice(s, message), CoverSlice(s, stego))
  }

  ghost function SegmentCost(s: Segment, cover: seq<bool>, costs: seq<FlipCost>, x: seq<bool>): real
    requires |cover| == |costs| == |x| && s.coverOffset + s.coverCount <= |x|
  {
    TotalCost(CoverSlice(s, cover), CoverSlice(s, costs), CoverSlice(s, x))
  }

  /** On one segment: the right bits, and cheaper ones would be wrong. */
  lemma SegmentIsOptimal(s: Segment, cover: seq<bool>, costs: seq<FlipCost>,
                         message: seq<bool>, stego: seq<bool>, y: seq<bool>)
    requires |cover| == |costs| == |stego| == |y|
    requires Embedded(s, cover, costs, message, stego)
    ensures SegmentBits(s, stego) == MessageSlice(s, message)
    ensures SegmentBits(s, y) == MessageSlice(s, message) ==>
      SegmentCost(s, cover, costs, stego) <= SegmentCost(s, cover, costs, y)
  {
    hide Cheapest, TotalCost, HasSyndrome;
    var code, slice := ScheduledCode(s.coverCount, s.messageCount), MessageSlice(s, message);
    var x, z := CoverSlice(s, stego), CoverSlice(s, y);
    CheapestCosts(code, CoverSlice(s, cover), CoverSlice(s, costs), slice, x, z);
    SyndromeIsExtracted(code, x, slice);
    SyndromeIsExtracted(code, z, slice);
  }

  lemma CheapestCosts(code: seq<Symbol>, cover: seq<bool>, costs: seq<FlipCost>, message: seq<bool>, x: seq<bool>, y: seq<bool>)
    requires |code| == |cover| == |costs| == |y| && Cheapest(code, cover, costs, message, x)
    ensures |x| == |code| && HasSyndrome(code, x, message)
    ensures HasSyndrome(code, y, message) ==> TotalCost(cover, costs, x) <= TotalCost(cover, costs, y)
  {
    hide HasSyndrome, TotalCost, Charged, FlipSum;
    var amounts := ChargedIsMet(costs);
    TotalCostIsFlipSum(cover, costs, amounts, x);
    TotalCostIsFlipSum(cover, costs, amounts, y);
  }

  /** The cost of a prefix grows by the cost of the next segment. */
  lemma SegmentAddsCost(s: Segment, cover: seq<bool>, costs: seq<FlipCost>, x: seq<bool>)
    requires |cover| == |costs| == |x| && s.coverOffset + s.coverCount <= |x|
    ensures TotalCost(cover, costs, x[..s.coverOffset + s.coverCount])
         == TotalCost(cover, costs, x[..s.coverOffset]) + SegmentCost(s, cover, costs, x)
  {
    var a, b := s.coverOffset, s.coverOffset + s.coverCount;
    TotalCostSplits(cover, costs, x[..b], a);
    assert x[..b][..a] == x[..a] && x[..b][a..] == x[a..b];
  }

  lemma SegmentAddsChanges(s: Segment, x: seq<bool>, cover: seq<bool>)
    requires |x| == |cover| && s.coverOffset + s.coverCount <= |x|
    ensures Hamming(x[..s.coverOffset + s.coverCount], cover)
         == Hamming(x[..s.coverOffset], cover) + Hamming(CoverSlice(s, x), CoverSlice(s, cover))
  {
    var a, b := s.coverOffset, s.coverOffset + s.coverCount;
    HammingSplits(x[..b], cover, a);
    assert x[..b][..a] == x[..a] && x[..b][a..] == x[a..b];
  }

  /** Every segment carries its slice of the message as cheaply as can be. */
  ghost predicate AllEmbedded(segments: seq<Segment>, cover: seq<bool>, costs: seq<FlipCost>, message: seq<bool>, stego: seq<bool>)
    requires |cover| == |costs| == |stego|
  {
    forall i :: 0 <= i < |segments| ==> Embedded(segments[i], cover, costs, message, stego)
  }

  /** On the first `k` segments `stego` carries the message, and `y` costs at least as much if it does. */
  ghost predicate OptimalUpTo(segments: seq<Segment>, cover: seq<bool>, costs: seq<FlipCost>, message: seq<bool>,
                              stego: seq<bool>, y: seq<bool>, k: nat)
    requires |cover| == |costs| == |stego| == |y|
    requires AllInBounds(segments, |cover|, |message|) && k <= |segments|
  {
    && CoverEnd(segments, k) <= |cover| && MessageEnd(segments, k) <= |message|
    && BitsUpTo(segments, stego, |message|, k) == message[..MessageEnd(segments, k)]
    && |BitsUpTo(segments, y, |message|, k)| == MessageEnd(segments, k)
    && (BitsUpTo(segments, y, |message|, k) == message[..MessageEnd(segments, k)] ==>
          TotalCost(cover, costs, stego[..CoverEnd(segments, k)]) <= TotalCost(cover, costs, y[..CoverEnd(segments, k)]))
  }

  /** Embedded segment by segment, a vector extracts to the message, and no vector that does is cheaper. */
  lemma {:induction false} EmbeddedIsOptimal(segments: seq<Segment>, cover: seq<bool>, costs: seq<FlipCost>,
                                             message: seq<bool>, stego: seq<bool>, y: seq<bool>, k: nat)
    requires |cover| == |costs| == |stego| == |y|
    requires Tiles(segments, |cover|, |message|) && AllInBounds(segments, |cover|, |message|)
    requires k <= |segments| && AllEmbedded(segments, cover, costs, message, stego)
    ensures OptimalUpTo(segments, cover, costs, message, stego, y, k)
  {
    hide Embedded, SegmentBits, SegmentCost, TotalCost, MessageSlice, Tiles, InBounds, CoverEnd, MessageEnd;
    TilesSpan(segments, |cover|, |message|);
    if k == 0 {
      assert stego[..0] == y[..0];
    } else {
      var s := segments[k - 1];
      assert Embedded(segments[k - 1], cover, costs, message, stego);
      EmbeddedIsOptimal(segments, cover, costs, message, stego, y, k - 1);
      TileAt(segments, |cover|, |message|, k - 1);
      SegmentWithin(s, |cover|, |message|);
      SegmentIsOptimal(s, cover, costs, message, stego, y);
      SegmentAddsCost(s, cover, costs, stego);
      SegmentAddsCost(s, cover, costs, y);
      CutAt(BitsUpTo(segments, stego, |message|, k - 1), SegmentBits(s, stego), message, s);
      CutAt(BitsUpTo(segments, y, |message|, k - 1), SegmentBits(s, y), message, s);
    }
  }

  lemma SegmentWithin(s: Segment, cover: nat, messages: nat)
    requires InBounds(s, cover, messages)
    ensures s.coverOffset + s.coverCount <= cover && s.messageOffset + s.messageCount <= messages
  {
  }

  /** A message prefix ending with a segment splits into what came before and the segment's slice. */
  lemma CutAt(before: seq<bool>, bits: seq<bool>, message: seq<bool>, s: Segment)
    requires s.messageOffset + s.messageCount <= |message|
    requires |before| == s.messageOffset && |bits| == s.messageCount
    ensures before + bits == message[..s.messageOffset + s.messageCount]
      <==> before == message[..s.messageOffset] && bits == MessageSlice(s, message)
  {
    var whole := message[..s.messageOffset + s.messageCount];
    assert whole == message[..s.messageOffset] + MessageSlice(s, message);
    if before + bits == whole {
      assert before == whole[..|before|] && bits == whole[|before|..];
    }
  }

  /** Bits written past a segment leave it embedded. */
  lemma EmbeddedSurvives(s: Segment, cover: seq<bool>, costs: seq<FlipCost>, message: seq<bool>,
                         before: seq<bool>, after: seq<bool>, at: nat)
    requires |cover| == |costs| == |before| == |after|
    requires Embedded(s, cover, costs, message, before)
    requires s.coverOffset + s.coverCount <= at <= |cover| && before[..at] == after[..at]
    ensures Embedded(s, cover, costs, message, after)
  {
    hide ScheduledCode, Cheapest, InBounds, MessageSlice;
    assert CoverSlice(s, before) == CoverSlice(s, before[..at]) == CoverSlice(s, after[..at]) == CoverSlice(s, after);
  }

  /** Copies `part` into `target` from `offset` on. */
  method CopyInto(target: array<bool>, offset: nat, part: seq<bool>)
    requires offset + |part| <= target.Length
    modifies target
    ensures target[..offset] == old(target[..offset])
    ensures target[offset..offset + |part|] == part
  {
    forall i | 0 <= i < |part| {
      target[offset + i] := part[i];
    }
  }

  /** Embeds one segment in place. */
  method EmbedSegment(s: Segment, cover: seq<bool>, costs: seq<FlipCost>, message: seq<bool>, stego: array<bool>)
    returns (changes: nat)
    requires |cover| == |costs| == stego.Length && InBounds(s, |cover|, |message|)
    modifies stego
    ensures stego[..s.coverOffset] == old(stego[..s.coverOffset])
    ensures Embedded(s, cover, costs, message, stego[..])
    ensures changes == Hamming(CoverSlice(s, stego[..]), CoverSlice(s, cover))
  {
    hide ScheduledCode, Cheapest, TotalCost, Hamming;
    var r := EmbedRaw(CoverSlice(s, cover), CoverSlice(s, costs), MessageSlice(s, message));
    var partial := r.value;
    CopyInto(stego, s.coverOffset, partial.stego);
    assert CoverSlice(s, stego[..]) == partial.stego;
    changes := partial.changes;
  }

  /** The segment loop of the embedder. */
  method EmbedSegments(segments: seq<Segment>, cover: seq<bool>, costs: seq<FlipCost>, message: seq<bool>)
    returns (r: EmbedResult)
    requires |cover| == |costs| && Tiles(segments, |cover|, |message|)
    ensures |r.stego| == |cover|
    ensures forall i :: 0 <= i < |segments| ==> Embedded(segments[i], cover, costs, message, r.stego)
    ensures r.changes == Hamming(r.stego, cover)
  {
    hide Embedded, InBounds, Tiles, CoverEnd, Hamming;
    var stego := new bool[|cover|];
    var changes := 0;
    TilesSpan(segments, |cover|, |message|);
    assert stego[..][..0] == [];
    HammingOfNone(cover);
    for k := 0 to |segments|
      invariant CoverEnd(segments, k) <= |cover|
      invariant forall i :: 0 <= i < k ==>
        && segments[i].coverOffset + segments[i].coverCount <= CoverEnd(segments, k)
        && Embedded(segments[i], cover, costs, message, stego[..])
      invariant changes == Hamming(stego[..][..CoverEnd(segments, k)], cover)
    {
      var s := segments[k];
      TileAt(segments, |cover|, |message|, k);
      SegmentWithin(s, |cover|, |message|);
      ghost var before, at := stego[..], s.coverOffset;
      var partChanges := EmbedSegment(s, cover, costs, message, stego);
      ghost var after := stego[..];
      assert before[..at] == after[..at];
      forall i | 0 <= i < k ensures Embedded(segments[i], cover, costs, message, after) {
        EmbeddedSurvives(segments[i], cover, costs, message, before, after, at);
      }
      SegmentAddsChanges(s, after, cover);
      changes := changes + partChanges;
    }
    assert stego[..][..|cover|] == stego[..];
    r := EmbedResult(stego[..], changes);
  }

  lemma WholeIsOptimal(cover: seq<bool>, costs: seq<FlipCost>, message: seq<bool>, stego: seq<bool>, y: seq<bool>)
    requires message != [] && |y| == |stego| == |cover| == |costs| == CoverSymbols(|message|)
    requires Schedulable(|cover|, |message|)
    requires forall s :: s in Segments(|cover|, |message|) ==> Embedded(s, cover, costs, message, stego)
    ensures Extraction(stego, |message|) == Ok(message)
    ensures Extraction(y, |message|) == Ok(message) ==> TotalCost(cover, costs, stego) <= TotalCost(cover, costs, y)
  {
    hide Embedded, ScheduledCode, SegmentBits, TotalCost, Segments, InBounds;
    var segments := Segments(|cover|, |message|);
    SegmentsTile(|cover|, |message|);
    TilesInBounds(segments, |cover|, |message|);
    assert message[..|message|] == message && stego[..|cover|] == stego && y[..|cover|] == y;
    EmbeddedIsOptimal(segments, cover, costs, message, stego, y, |segments|);
  }

  /** Least total cost, in the caller's own amounts; below the cost of one wet symbol none is flipped. */
  lemma InAmounts(cover: seq<bool>, costs: seq<FlipCost>, message: seq<bool>, stego: seq<bool>)
    requires |cover| == |costs| == |stego|
    requires forall y :: |y| == |cover| && Extraction(y, |message|) == Ok(message) ==>
      TotalCost(cover, costs, stego) <= TotalCost(cover, costs, y)
    ensures forall amounts, y :: Charged(costs, amounts) && |y| == |cover| && Extraction(y, |message|) == Ok(message) ==>
      && FlipSum(cover, amounts, stego) <= FlipSum(cover, amounts, y)
      && (FlipSum(cover, amounts, y) < WET ==> StaysDry(cover, costs, stego))
  {
    hide TotalCost, Extraction, FlipSum, StaysDry;
    forall amounts, y | Charged(costs, amounts) && |y| == |cover| && Extraction(y, |message|) == Ok(message)
      ensures FlipSum(cover, amounts, stego) <= FlipSum(cover, amounts, y)
      ensures FlipSum(cover, amounts, y) < WET ==> StaysDry(cover, costs, stego)
    {
      TotalCostIsFlipSum(cover, costs, amounts, stego);
      TotalCostIsFlipSum(cover, costs, amounts, y);
      if FlipSum(cover, amounts, y) < WET { CheapStaysDry(cover, costs, amounts, stego); }
    }
  }

  /**
    Embeds any message at the fixed rate. The result extracts to the message, no
    vector that does costs less, and `changes` counts the flipped symbols.
   */
  method StcEmbed(cover: seq<bool>, costs: seq<FlipCost>, message: seq<bool>)
    returns (r: Result<EmbedResult, StcError>)
    ensures r.Ok? <==> |cover| == |costs| && (message == [] || |cover| == CoverSymbols(|message|))
    ensures r.Ok? ==>
      && |r.value.stego| == |cover|
      && Extraction(r.value.stego, |message|) == Ok(message)
      && (forall y :: |y| == |cover| && Extraction(y, |message|) == Ok(message) ==>
            TotalCost(cover, costs, r.value.stego) <= TotalCost(cover, costs, y))
      && (forall amounts, y :: Charged(costs, amounts) && |y| == |cover| && Extraction(y, |message|) == Ok(message) ==>
            && FlipSum(cover, amounts, r.value.stego) <= FlipSum(cover, amounts, y)
            && (FlipSum(cover, amounts, y) < WET ==> StaysDry(cover, costs, r.value.stego)))
      && r.value.changes == Hamming(r.value.stego, cover)
  {
    if |cover| != |costs| {
      return Err(LengthMismatch);
    }
    if message == [] {
      UnchangedIsFree(cover, costs, cover);
      forall y | |y| == |cover| ensures TotalCost(cover, costs, cover) <= TotalCost(cover, costs, y) {
        TotalCostNonNegative(cover, costs, y);
      }
      InAmounts(cover, costs, message, cover);
      return Ok(EmbedResult(cover, 0));
    }
    if |cover| != CoverSymbols(|message|) {
      return Err(RateMismatch);
    }
    RateIsSchedulable(|message|);
    SegmentsTile(|cover|, |message|);
    var made := MakeSegments(|cover|, |message|);
    var segments := made.value;
    var result := EmbedSegments(segments, cover, costs, message);
    WholeIsOptimal(cover, costs, message, result.stego, result.stego);
    forall y | |y| == |cover| && Extraction(y, |message|) == Ok(message)
      ensures TotalCost(cover, costs, result.stego) <= TotalCost(cover, costs, y)
    {
      WholeIsOptimal(cover, costs, message, result.stego, y);
    }
    InAmounts(cover, costs, message, result.stego);
    return Ok(result);
  }

  // ----- Extraction -----

  /** Extracts one segment in place. */
  method ExtractSegment(s: Segment, stego: seq<bool>, message: array<bool>)
    requires InBounds(s, |stego|, message.Length)
    modifies message
    ensures message[..s.messageOffset] == old(message[..s.messageOffset])
    ensures MessageSlice(s, message[..]) == SegmentBits(s, stego)
  {
    hide ScheduledCode, Extracted;
    var r := ExtractRaw(CoverSlice(s, stego), s.messageCount);
    CopyInto(message, s.messageOffset, r.value);
    assert MessageSlice(s, message[..]) == r.value;
  }

  /** The segment loop of the extractor. */
  method ExtractSegments(segments: seq<Segment>, stego: seq<bool>, messageBits: nat)
    returns (bits: seq<bool>)
    requires Tiles(segments, |stego|, messageBits)
    requires AllInBounds(segments, |stego|, messageBits)
    ensures bits == BitsUpTo(segments, stego, messageBits, |segments|)
  {
    hide SegmentBits;
    var message := new bool[messageBits];
    ghost var at: nat := 0;
    for k := 0 to |segments|
      invariant at == MessageEnd(segments, k) <= messageBits
      invariant message[..at] == BitsUpTo(segments, stego, messageBits, k)
    {
      var s := segments[k];
      assert s.messageOffset == MessageEnd(segments, k);
      ghost var before := message[..at];
      ExtractSegment(s, stego, message);
      assert message[..at + s.messageCount] == before + MessageSlice(s, message[..]);
      at := at + s.messageCount;
    }
    assert message[..at] == message[..];
    bits := message[..];
  }

  /** Returns the bits the segments carry; fails only on a length that is not the fixed rate's. */
  method StcExtract(stego: seq<bool>, messageBits: nat) returns (r: Result<seq<bool>, StcError>)
    ensures r.Ok? <==> messageBits == 0 || |stego| == CoverSymbols(messageBits)
    ensures r == Extraction(stego, messageBits)
  {
    if messageBits == 0 {
      return Ok([]);
    }
    if |stego| != CoverSymbols(messageBits) {
      return Err(RateMismatch);
    }
    RateIsSchedulable(messageBits);
    SegmentsTile(|stego|, messageBits);
    var made := MakeSegments(|stego|, messageBits);
    TilesInBounds(made.value, |stego|, messageBits);
    var bits := ExtractSegments(made.value, stego, messageBits);
    return Ok(bits);
  }
}
