/**
  The column schedule of the syndrome-trellis code: how many cover symbols each
  message bit gets, and how a long schedule is cut into independent segments.
 */
module StcSchedule {
  import opened Bits
  import opened Results

  const MAX_SEGMENT_COVER: nat := 65536

  datatype StcError =
    | InvalidLengths
    | UnsupportedWidth
    | ScheduleIncomplete
    | SegmentsIncomplete
    | LengthMismatch
    | RateMismatch
    | NoFiniteSolution
    | BacktrackIncomplete

  datatype Segment = Segment(coverOffset: nat, coverCount: nat, messageOffset: nat, messageCount: nat)

  function Sum(ws: seq<nat>): nat {
    if ws == [] then 0 else Sum(ws[..|ws| - 1]) + ws[|ws| - 1]
  }

  lemma SumSnoc(ws: seq<nat>, w: nat)
    ensures Sum(ws + [w]) == Sum(ws) + w
  {
    assert (ws + [w])[..|ws|] == ws;
  }

  lemma SumOfNone()
    ensures Sum([]) == 0
  {
  }

  predicate WidthsLegal(ws: seq<nat>) {
    forall k :: 0 <= k < |ws| ==> 2 <= ws[k] <= 3
  }

  /** The lengths this code profile can schedule. */
  predicate Schedulable(cover: nat, messages: nat) {
    messages >= 1 && 2 * messages <= cover <= 3 * messages
  }

  /** a * b, unrolled so that facts about the schedule stay linear. */
  function Times(a: nat, b: nat): nat {
    if a == 0 then 0 else Times(a - 1, b) + b
  }

  /** a / m, by repeated subtraction. */
  function Quotient(a: nat, m: nat): nat
    requires m > 0
  {
    if a < m then 0 else 1 + Quotient(a - m, m)
  }

  lemma {:induction false} TimesIsProduct(a: nat, b: nat)
    ensures Times(a, b) == a * b
  {
    if a > 0 {
      TimesIsProduct(a - 1, b);
      assert a * b == (a - 1) * b + b;
    }
  }

  lemma DivisionStep(a: nat, m: nat)
    requires 0 < m <= a
    ensures a / m == (a - m) / m + 1
  {
    var q, r := (a - m) / m, (a - m) % m;
    assert m * (q + 1) == m * q + m;
    ModUnique(a, m, q + 1, r);
  }

  lemma {:induction false} QuotientIsDivision(a: nat, m: nat)
    requires m > 0
    ensures Quotient(a, m) == a / m
  {
    if a < m {
      assert a == 0 * m + a;
    } else {
      QuotientIsDivision(a - m, m);
      DivisionStep(a, m);
    }
  }

  lemma {:induction false} QuotientMonotone(a: nat, b: nat, m: nat)
    requires m > 0 && a <= b
    ensures Quotient(a, m) <= Quotient(b, m)
  {
    if a >= m { QuotientMonotone(a - m, b - m, m); }
  }

  lemma {:induction false} QuotientOfTimes(k: nat, m: nat, r: nat)
    requires r < m
    ensures Quotient(Times(m, k) + r, m) == k
  {
    if k > 0 {
      TimesIsProduct(m, k);
      TimesIsProduct(m, k - 1);
      assert m * k == m * (k - 1) + m;
      QuotientOfTimes(k - 1, m, r);
    } else {
      TimesIsProduct(m, 0);
    }
  }

  /** The k-th cumulative boundary, rounded to the nearest integer. */
  function Boundary(cover: nat, messages: nat, k: nat): nat
    requires messages > 0
  {
    Quotient(Times(k, cover) + messages / 2, messages)
  }

  lemma BoundaryIsRounded(cover: nat, messages: nat, k: nat)
    requires messages > 0
    ensures Boundary(cover, messages, k) == (k * cover + messages / 2) / messages
  {
    TimesIsProduct(k, cover);
    QuotientIsDivision(k * cover + messages / 2, messages);
  }

  function WidthAt(cover: nat, messages: nat, k: nat): nat
    requires messages > 0
  {
    BoundaryStep(cover, messages, k);
    Boundary(cover, messages, k + 1) - Boundary(cover, messages, k)
  }

  /** The first `k` widths of the schedule. */
  function WidthsUpTo(cover: nat, messages: nat, k: nat): (ws: seq<nat>)
    requires messages > 0
    ensures |ws| == k
  {
    if k == 0 then [] else WidthsUpTo(cover, messages, k - 1) + [WidthAt(cover, messages, k - 1)]
  }

  function Widths(cover: nat, messages: nat): (ws: seq<nat>)
    requires Schedulable(cover, messages)
    ensures |ws| == messages
  {
    WidthsUpTo(cover, messages, messages)
  }

  /** Consecutive boundaries differ as much as cover/messages does, rounded either way. */
  lemma BoundaryStep(cover: nat, messages: nat, k: nat)
    requires messages > 0
    ensures Boundary(cover, messages, k) <= Boundary(cover, messages, k + 1)
    ensures 2 * messages <= cover ==> Boundary(cover, messages, k) + 2 <= Boundary(cover, messages, k + 1)
    ensures cover <= 3 * messages ==> Boundary(cover, messages, k + 1) <= Boundary(cover, messages, k) + 3
  {
    var a := Times(k, cover) + messages / 2;
    assert Times(k + 1, cover) + messages / 2 == a + cover;
    QuotientMonotone(a, a + cover, messages);
    assert Quotient(a + messages, messages) == Quotient(a, messages) + 1;
    assert Quotient(a + 2 * messages, messages) == Quotient(a + messages, messages) + 1;
    assert Quotient(a + 3 * messages, messages) == Quotient(a + 2 * messages, messages) + 1;
    if 2 * messages <= cover { QuotientMonotone(a + 2 * messages, a + cover, messages); }
    if cover <= 3 * messages { QuotientMonotone(a + cover, a + 3 * messages, messages); }
  }

  lemma BoundaryEnds(cover: nat, messages: nat)
    requires messages > 0
    ensures Boundary(cover, messages, 0) == 0
    ensures Boundary(cover, messages, messages) == cover
  {
    QuotientOfTimes(cover, messages, messages / 2);
  }

  lemma {:induction false} WidthsBoundSum(ws: seq<nat>)
    requires WidthsLegal(ws)
    ensures 2 * |ws| <= Sum(ws) <= 3 * |ws|
  {
    if ws != [] { WidthsBoundSum(ws[..|ws| - 1]); }
  }

  lemma {:induction false} WidthsUpToSum(cover: nat, messages: nat, k: nat)
    requires messages > 0
    ensures Sum(WidthsUpTo(cover, messages, k)) == Boundary(cover, messages, k)
    ensures 2 * messages <= cover <= 3 * messages ==> WidthsLegal(WidthsUpTo(cover, messages, k))
  {
    hide Boundary, Sum;
    if k == 0 {
      BoundaryEnds(cover, messages);
      SumOfNone();
    } else {
      WidthsUpToSum(cover, messages, k - 1);
      BoundaryStep(cover, messages, k - 1);
      SumSnoc(WidthsUpTo(cover, messages, k - 1), WidthAt(cover, messages, k - 1));
    }
  }

  /** A legal pair of lengths always gets a complete schedule of twos and threes. */
  lemma WidthsCover(cover: nat, messages: nat)
    requires Schedulable(cover, messages)
    ensures WidthsLegal(Widths(cover, messages))
    ensures Sum(Widths(cover, messages)) == cover
  {
    WidthsUpToSum(cover, messages, messages);
    BoundaryEnds(cover, messages);
  }

  /** The 64-bit numerator cannot wrap for covers and messages counted in 32 bits. */
  lemma NumeratorFits(cover: nat, messages: nat, k: nat)
    requires cover < 0x1_0000_0000 && messages < 0x1_0000_0000 && k < messages
    ensures (k + 1) * cover + messages / 2 < 0x1_0000_0000_0000_0000
  {
    assert (k + 1) * cover <= 0xFFFF_FFFF * cover <= 0xFFFF_FFFF * 0xFFFF_FFFF by {
      ProductMonotone(k + 1, 0xFFFF_FFFF, cover);
    }
  }

  lemma ProductMonotone(a: nat, b: nat, c: nat)
    requires a <= b
    ensures a * c <= b * c
  {
  }

  method RoundedBoundary(cover: nat, messages: nat, message: nat) returns (boundary: nat)
    requires messages > 0
    ensures boundary == Boundary(cover, messages, message + 1)
  {
    BoundaryIsRounded(cover, messages, message + 1);
    var numerator := (message + 1) * cover;
    boundary := (numerator + messages / 2) / messages;
  }

  lemma NoWidths(cover: nat, messages: nat)
    requires messages > 0
    ensures WidthsUpTo(cover, messages, 0) == [] && WidthsLegal([])
  {
  }

  /** A width of 2 or 3 that leads to the next boundary extends the schedule. */
  lemma NextWidth(cover: nat, messages: nat, k: nat, widths: seq<nat>, width: nat)
    requires messages > 0 && widths == WidthsUpTo(cover, messages, k) && WidthsLegal(widths) && 2 <= width <= 3
    requires Boundary(cover, messages, k) + width == Boundary(cover, messages, k + 1)
    ensures widths + [width] == WidthsUpTo(cover, messages, k + 1) && WidthsLegal(widths + [width])
  {
    hide Boundary;
    BoundaryStep(cover, messages, k);
  }

  /** Only schedulable lengths have a schedule of twos and threes. */
  lemma LegalIsSchedulable(cover: nat, messages: nat)
    requires messages > 0 && WidthsLegal(WidthsUpTo(cover, messages, messages))
    ensures Schedulable(cover, messages)
  {
    hide Boundary, WidthsUpTo, Sum, WidthsLegal;
    WidthsUpToSum(cover, messages, messages);
    BoundaryEnds(cover, messages);
    WidthsBoundSum(WidthsUpTo(cover, messages, messages));
  }

  /** Succeeds exactly on the schedulable lengths. */
  method MakeWidths(cover: nat, messages: nat) returns (r: Result<seq<nat>, StcError>)
    ensures r.Ok? <==> Schedulable(cover, messages)
    ensures r.Ok? ==> r.value == Widths(cover, messages)
  {
    if messages == 0 || cover < messages {
      return Err(InvalidLengths);
    }
    hide Boundary, WidthsUpTo, WidthAt, WidthsLegal;
    var widths: seq<nat> := [];
    var consumed := 0;
    BoundaryEnds(cover, messages);
    NoWidths(cover, messages);
    for message := 0 to messages
      invariant widths == WidthsUpTo(cover, messages, message)
      invariant consumed == Boundary(cover, messages, message)
      invariant WidthsLegal(widths)
    {
      var boundary := RoundedBoundary(cover, messages, message);
      BoundaryStep(cover, messages, message);
      var width := boundary - consumed;
      consumed := boundary;
      if width < 2 || width > 3 {
        return Err(UnsupportedWidth);
      }
      NextWidth(cover, messages, message, widths, width);
      widths := widths + [width];
    }
    LegalIsSchedulable(cover, messages);
    if consumed != cover {
      return Err(ScheduleIncomplete);
    }
    return Ok(widths);
  }

  /** The segmenter's state: segments already closed, and the one still open. */
  datatype Cut = Cut(closed: seq<Segment>, coverOffset: nat, messageOffset: nat,
                     segmentCover: nat, segmentMessages: nat)
  {
    /** One more message bit of this width. */
    function Take(width: nat): Cut {
      if segmentMessages != 0 && segmentCover + width > MAX_SEGMENT_COVER then
        Cut(closed + [Open()], coverOffset + segmentCover, messageOffset + segmentMessages, width, 1)
      else
        this.(segmentCover := segmentCover + width, segmentMessages := segmentMessages + 1)
    }

    function Open(): Segment {
      Segment(coverOffset, segmentCover, messageOffset, segmentMessages)
    }

    function Segments(): seq<Segment> {
      if segmentMessages != 0 then closed + [Open()] else closed
    }
  }

  /** The segmenter after the first `k` widths. */
  function CutUpTo(ws: seq<nat>, k: nat): Cut
    requires k <= |ws|
  {
    if k == 0 then Cut([], 0, 0, 0, 0) else CutUpTo(ws, k - 1).Take(ws[k - 1])
  }

  function Segments(cover: nat, messages: nat): seq<Segment>
    requires Schedulable(cover, messages)
  {
    CutUpTo(Widths(cover, messages), messages).Segments()
  }

  /** Where the first `k` segments end in the cover, and in the message. */
  function CoverEnd(segments: seq<Segment>, k: nat): nat
    requires k <= |segments|
  {
    if k == 0 then 0 else segments[k - 1].coverOffset + segments[k - 1].coverCount
  }

  function MessageEnd(segments: seq<Segment>, k: nat): nat
    requires k <= |segments|
  {
    if k == 0 then 0 else segments[k - 1].messageOffset + segments[k - 1].messageCount
  }

  /** The segments lie end to end, each short enough for one trellis and schedulable on its own. */
  ghost predicate Chained(segments: seq<Segment>) {
    && (forall k {:trigger CoverEnd(segments, k)} {:trigger MessageEnd(segments, k)} :: 0 <= k < |segments| ==>
          segments[k].coverOffset == CoverEnd(segments, k) && segments[k].messageOffset == MessageEnd(segments, k))
    && (forall k :: 0 <= k < |segments| ==>
          && segments[k].coverCount <= MAX_SEGMENT_COVER
          && Schedulable(segments[k].coverCount, segments[k].messageCount))
  }

  /** Chained segments that use up the whole cover and the whole message. */
  ghost predicate Tiles(segments: seq<Segment>, cover: nat, messages: nat) {
    && Chained(segments)
    && CoverEnd(segments, |segments|) == cover
    && MessageEnd(segments, |segments|) == messages
  }

  lemma ChainedSnoc(segments: seq<Segment>, s: Segment)
    requires Chained(segments)
    requires s.coverOffset == CoverEnd(segments, |segments|) && s.messageOffset == MessageEnd(segments, |segments|)
    requires s.coverCount <= MAX_SEGMENT_COVER && Schedulable(s.coverCount, s.messageCount)
    ensures Chained(segments + [s])
  {
    var all := segments + [s];
    forall k | 0 <= k < |all|
      ensures all[k].coverOffset == CoverEnd(all, k) && all[k].messageOffset == MessageEnd(all, k)
    {
      assert CoverEnd(all, k) == CoverEnd(segments, k) && MessageEnd(all, k) == MessageEnd(segments, k);
    }
  }

  /** The segmenter stands after `k` widths adding up to `sum`: closed segments end to end, the open one legal so far. */
  ghost predicate Stands(c: Cut, sum: nat, k: nat) {
    && Chained(c.closed)
    && c.coverOffset == CoverEnd(c.closed, |c.closed|)
    && c.messageOffset == MessageEnd(c.closed, |c.closed|)
    && c.coverOffset + c.segmentCover == sum
    && c.messageOffset + c.segmentMessages == k
    && 2 * c.segmentMessages <= c.segmentCover <= 3 * c.segmentMessages
    && c.segmentCover <= MAX_SEGMENT_COVER
  }

  /** The open segment, once it holds something, can be closed. */
  lemma OpenCloses(c: Cut, sum: nat, k: nat)
    requires Stands(c, sum, k) && c.segmentMessages != 0
    ensures var closed := c.closed + [c.Open()];
      Chained(closed) && CoverEnd(closed, |closed|) == sum && MessageEnd(closed, |closed|) == k
  {
    ChainedSnoc(c.closed, c.Open());
    hide Chained;
  }

  lemma TakeStands(c: Cut, sum: nat, k: nat, width: nat)
    requires Stands(c, sum, k) && 2 <= width <= 3
    ensures Stands(c.Take(width), sum + width, k + 1)
  {
    hide Chained, CoverEnd, MessageEnd;
    if c.segmentMessages != 0 { OpenCloses(c, sum, k); }
  }

  lemma {:induction false} CutUpToIsChained(ws: seq<nat>, k: nat)
    requires k <= |ws| && WidthsLegal(ws)
    ensures Stands(CutUpTo(ws, k), Sum(ws[..k]), k)
  {
    hide CutUpTo, Cut.Take, Stands, Sum, WidthsLegal;
    if k == 0 {
      NothingCut(ws);
    } else {
      CutUpToIsChained(ws, k - 1);
      SumNext(ws, k - 1);
      CutNext(ws, k - 1);
      TakeStands(CutUpTo(ws, k - 1), Sum(ws[..k - 1]), k - 1, ws[k - 1]);
    }
  }

  lemma CutNext(ws: seq<nat>, k: nat)
    requires k < |ws| && WidthsLegal(ws)
    ensures CutUpTo(ws, k + 1) == CutUpTo(ws, k).Take(ws[k]) && 2 <= ws[k] <= 3
  {
    hide Cut.Take;
  }

  lemma NothingCut(ws: seq<nat>)
    ensures Stands(CutUpTo(ws, 0), Sum(ws[..0]), 0)
  {
  }

  lemma SumNext(ws: seq<nat>, k: nat)
    requires k < |ws|
    ensures Sum(ws[..k + 1]) == Sum(ws[..k]) + ws[k]
  {
    assert ws[..k + 1] == ws[..k] + [ws[k]];
    SumSnoc(ws[..k], ws[k]);
  }

  /** Segmentation partitions cover and message, and every piece can be re-scheduled. */
  lemma SegmentsTile(cover: nat, messages: nat)
    requires Schedulable(cover, messages)
    ensures Tiles(Segments(cover, messages), cover, messages)
  {
    hide Widths, WidthsLegal, Sum, CutUpTo, Chained, CoverEnd, MessageEnd;
    var ws := Widths(cover, messages);
    WidthsCover(cover, messages);
    CutUpToIsChained(ws, messages);
    assert ws[..messages] == ws;
    var c := CutUpTo(ws, messages);
    if c.segmentMessages != 0 { OpenCloses(c, cover, messages); }
  }

  /** A segment is only closed when the next width would not fit, and where the schedule has come to. */
  ghost predicate Greedy(closed: seq<Segment>, ws: seq<nat>) {
    forall i :: 0 <= i < |closed| ==> ClosedAt(closed[i], ws)
  }

  ghost predicate ClosedAt(s: Segment, ws: seq<nat>) {
    && s.messageOffset + s.messageCount < |ws|
    && s.coverCount + ws[s.messageOffset + s.messageCount] > MAX_SEGMENT_COVER
    && s.coverOffset + s.coverCount == Sum(ws[..s.messageOffset + s.messageCount])
  }

  lemma {:induction false} CutIsGreedy(ws: seq<nat>, k: nat)
    requires k <= |ws| && WidthsLegal(ws)
    ensures Greedy(CutUpTo(ws, k).closed, ws)
  {
    hide CutUpTo, WidthsLegal, Sum, ClosedAt, Chained, CoverEnd, MessageEnd;
    if k == 0 {
      NothingClosed(ws);
    } else {
      CutIsGreedy(ws, k - 1);
      CutUpToIsChained(ws, k - 1);
      CutNext(ws, k - 1);
      var c := CutUpTo(ws, k - 1);
      if c.segmentMessages != 0 && c.segmentCover + ws[k - 1] > MAX_SEGMENT_COVER { OpenIsFull(c, ws, k - 1); }
    }
  }

  lemma NothingClosed(ws: seq<nat>)
    ensures CutUpTo(ws, 0).closed == []
  {
  }

  lemma OpenIsFull(c: Cut, ws: seq<nat>, k: nat)
    requires k < |ws| && Stands(c, Sum(ws[..k]), k) && c.segmentCover + ws[k] > MAX_SEGMENT_COVER
    ensures ClosedAt(c.Open(), ws)
  {
    hide Sum, Chained;
  }

  /** Every segment but the last is as long as 65,536 symbols allow. */
  lemma SegmentsAreFull(cover: nat, messages: nat, i: nat)
    requires Schedulable(cover, messages) && i + 1 < |Segments(cover, messages)|
    ensures ClosedAt(Segments(cover, messages)[i], Widths(cover, messages))
  {
    hide Widths, WidthsLegal, Sum, CutUpTo, ClosedAt;
    WidthsCover(cover, messages);
    CutIsGreedy(Widths(cover, messages), messages);
  }

  lemma {:induction false} EndsWithin(segments: seq<Segment>, cover: nat, messages: nat, k: nat)
    requires Tiles(segments, cover, messages) && k <= |segments|
    ensures CoverEnd(segments, k) <= cover && MessageEnd(segments, k) <= messages
    decreases |segments| - k
  {
    if k < |segments| {
      EndsWithin(segments, cover, messages, k + 1);
      assert segments[k].coverOffset == CoverEnd(segments, k);
    }
  }

  /** Succeeds exactly on the schedulable lengths; its own consumption check never fires. */
  method MakeSegments(cover: nat, messages: nat) returns (r: Result<seq<Segment>, StcError>)
    ensures r.Ok? <==> Schedulable(cover, messages)
    ensures r.Ok? ==> r.value == Segments(cover, messages)
  {
    hide Widths, WidthsLegal, Sum, Chained, CoverEnd, MessageEnd;
    var ws :- MakeWidths(cover, messages);
    WidthsCover(cover, messages);
    CutUpToIsChained(ws, |ws|);
    assert ws[..|ws|] == ws;
    var segments: seq<Segment> := [];
    var coverOffset: nat, messageOffset: nat, segmentCover: nat, segmentMessages: nat := 0, 0, 0, 0;
    for k := 0 to |ws|
      invariant Cut(segments, coverOffset, messageOffset, segmentCover, segmentMessages) == CutUpTo(ws, k)
    {
      var width := ws[k];
      if segmentMessages != 0 && segmentCover + width > MAX_SEGMENT_COVER {
        segments := segments + [Segment(coverOffset, segmentCover, messageOffset, segmentMessages)];
        coverOffset := coverOffset + segmentCover;
        messageOffset := messageOffset + segmentMessages;
        segmentCover := 0;
        segmentMessages := 0;
      }
      segmentCover := segmentCover + width;
      segmentMessages := segmentMessages + 1;
    }
    if segmentMessages != 0 {
      segments := segments + [Segment(coverOffset, segmentCover, messageOffset, segmentMessages)];
    }
    if coverOffset + segmentCover != cover || messageOffset + segmentMessages != messages {
      return Err(SegmentsIncomplete);
    }
    return Ok(segments);
  }
}
