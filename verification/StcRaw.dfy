/**
  One segment of the syndrome-trellis code, as it executes: the Viterbi embedder
  with its two price rows and shrinking column mask, and the extractor.
 */
module StcRaw {
  import opened Bits
  import opened Results
  import opened StcSchedule
  import opened StcTrellis

  datatype EmbedResult = EmbedResult(stego: seq<bool>, changes: nat)

  function Hamming(x: seq<bool>, y: seq<bool>): nat
    requires |x| <= |y|
  {
    if x == [] then 0
    else
      var j := |x| - 1;
      Hamming(x[..j], y) + (if x[j] != y[j] then 1 else 0)
  }

  // ----- Where a cover symbol sits in the schedule -----

  function Start(ws: seq<nat>, k: nat): nat
    requires k <= |ws|
  {
    Sum(ws[..k])
  }

  lemma StartNext(ws: seq<nat>, k: nat)
    requires k < |ws|
    ensures Start(ws, k + 1) == Start(ws, k) + ws[k]
  {
    assert ws[..k + 1] == ws[..k] + [ws[k]];
    SumSnoc(ws[..k], ws[k]);
  }

  lemma StartEnds(ws: seq<nat>)
    ensures Start(ws, 0) == 0 && Start(ws, |ws|) == Sum(ws)
  {
    assert ws[..|ws|] == ws;
  }

  /** The symbols of message bit `k` lie at `start` in the code. */
  ghost predicate BlockAt(code: seq<Symbol>, start: nat, k: nat, width: nat) {
    && 2 <= width <= 3
    && start + width <= |code|
    && forall c :: 0 <= c < width ==> code[start + c] == Symbol(k, ColumnFor(width, c), c == width - 1)
  }

  lemma BlockStays(code: seq<Symbol>, more: seq<Symbol>, start: nat, k: nat, width: nat)
    requires BlockAt(code, start, k, width)
    ensures BlockAt(code + more, start, k, width)
  {
  }

  lemma LastBlock(code: seq<Symbol>, k: nat, width: nat)
    requires 2 <= width <= 3
    ensures BlockAt(code + Block(k, width), |code|, k, width)
  {
    var all := code + Block(k, width);
    assert forall c :: 0 <= c < width ==> all[|code| + c] == Block(k, width)[c];
  }

  lemma {:induction false} CodeBlock(ws: seq<nat>, k: nat)
    requires WidthsLegal(ws) && k < |ws|
    ensures BlockAt(Code(ws), Start(ws, k), k, ws[k])
    ensures Start(ws, k + 1) == Start(ws, k) + ws[k] <= |Code(ws)|
  {
    var front, last := ws[..|ws| - 1], |ws| - 1;
    assert Code(ws) == Code(front) + Block(last, ws[last]);
    hide BlockAt, Block, Code, Sum;
    StartNext(ws, k);
    if k < last {
      CodeBlock(front, k);
      assert front[..k] == ws[..k] && front[..k + 1] == ws[..k + 1];
      BlockStays(Code(front), Block(last, ws[last]), Start(ws, k), k, ws[k]);
    } else {
      LastBlock(Code(front), last, ws[last]);
    }
  }

  // ----- Embedding -----

  /** `prices` is the price row after `j` symbols. */
  ghost predicate PricesAre(t: Trellis, prices: seq<Price>, j: nat)
    requires t.Valid() && j <= |t.code|
  {
    && |prices| == STATES
    && forall s :: 0 <= s < STATES ==> prices[s] == t.PriceAt(j, s)
  }

  /** `prices` is the price row once symbol `j` is decided, its row still open. */
  ghost predicate RelaxedAre(t: Trellis, prices: seq<Price>, j: nat)
    requires t.Valid() && j < |t.code|
  {
    && |prices| == STATES
    && forall s :: 0 <= s < STATES ==> prices[s] == t.RelaxedAt(j, s)
  }

  lemma RelaxedIsNextRow(t: Trellis, prices: seq<Price>, j: nat)
    requires t.Valid() && j < |t.code| && !t.code[j].last
    requires RelaxedAre(t, prices, j)
    ensures PricesAre(t, prices, j + 1)
  {
  }

  /** The decisions the search makes at symbol `j`, one per state. */
  ghost predicate DecisionsAt(t: Trellis, bits: seq<bool>, j: nat)
    requires t.Valid() && j < |t.code|
  {
    && |bits| == STATES
    && forall s :: 0 <= s < STATES ==> bits[s] == t.ChoosesOne(j, s)
  }

  ghost predicate PathRecorded(t: Trellis, path: seq<seq<bool>>)
    requires t.Valid()
  {
    && |path| <= |t.code|
    && forall j :: 0 <= j < |path| ==> DecisionsAt(t, path[j], j)
  }

  /** The two price rows, possibly after trading places. */
  predicate Swapped(prices: array<Price>, next: array<Price>, pricesIn: array<Price>, nextIn: array<Price>) {
    (prices == pricesIn && next == nextIn) || (prices == nextIn && next == pricesIn)
  }

  /** One column of the trellis: fills `next` from `prices` and returns the decisions. */
  method RelaxColumn(ghost t: Trellis, ghost j: nat, prices: array<Price>, next: array<Price>,
                     column: nat, cost: real, coverBit: bool)
    returns (decisions: seq<bool>)
    requires t.Valid() && j < |t.code|
    requires prices != next && next.Length == STATES && PricesAre(t, prices[..], j)
    requires column == t.Column(j) && cost == Effective(t.costs[j]) && coverBit == t.cover[j]
    modifies next
    ensures RelaxedAre(t, next[..], j)
    ensures DecisionsAt(t, decisions, j)
  {
    decisions := [];
    for state := 0 to STATES
      invariant |decisions| == state
      invariant PricesAre(t, prices[..], j)
      invariant forall s :: 0 <= s < state ==> next[s] == t.RelaxedAt(j, s)
      invariant forall s :: 0 <= s < state ==> decisions[s] == t.ChoosesOne(j, s)
    {
      var alternate := Alternate(state, column);
      assert prices[..][state] == prices[state] && prices[..][alternate] == prices[alternate];
      var zeroPrice := prices[state].Plus(if coverBit then cost else 0.0);
      var onePrice := prices[alternate].Plus(if coverBit then 0.0 else cost);
      assert zeroPrice == t.ZeroPrice(j, state) && onePrice == t.OnePrice(j, state);
      var chooseOne := onePrice.AtMost(zeroPrice);
      next[state] := if chooseOne then onePrice else zeroPrice;
      decisions := decisions + [chooseOne];
    }
  }

  /** Keeps the states whose closing bit matches the message, halved. */
  method PruneRow(ghost t: Trellis, ghost j: nat, prices: array<Price>, next: array<Price>, bit: bool)
    requires t.Valid() && j < |t.code| && t.code[j].last && bit == t.message[t.code[j].row]
    requires prices != next && next.Length == STATES && RelaxedAre(t, prices[..], j)
    modifies next
    ensures PricesAre(t, next[..], j + 1)
  {
    for state := 0 to STATES / 2
      invariant RelaxedAre(t, prices[..], j)
      invariant forall s :: 0 <= s < state ==> next[s] == t.PriceAt(j + 1, s)
    {
      var source := state * 2 + BoolToNat(bit);
      assert prices[..][source] == prices[source];
      next[state] := prices[source];
    }
    for state := STATES / 2 to STATES
      invariant forall s :: 0 <= s < state ==> next[s] == t.PriceAt(j + 1, s)
    {
      next[state] := Infinite;
    }
  }

  /** One message bit of the forward pass: its columns, the rows trading places after each, then the pruning. */
  method AdvanceBlock(ghost t: Trellis, ghost k: nat, width: nat, columnMask: nat, bit: bool,
                      cover: seq<bool>, costs: seq<FlipCost>,
                      pricesIn: array<Price>, nextIn: array<Price>, pathIn: seq<seq<bool>>)
    returns (prices: array<Price>, next: array<Price>, path: seq<seq<bool>>)
    requires t.Valid() && t.cover == cover && t.costs == costs
    requires BlockAt(t.code, |pathIn|, k, width) && k < |t.message| && bit == t.message[k]
    requires columnMask == Mask(|t.message|, k)
    requires pricesIn.Length == nextIn.Length == STATES && pricesIn != nextIn
    requires PathRecorded(t, pathIn) && PricesAre(t, pricesIn[..], |pathIn|)
    modifies pricesIn, nextIn
    ensures Swapped(prices, next, pricesIn, nextIn)
    ensures |path| == |pathIn| + width && PathRecorded(t, path)
    ensures PricesAre(t, prices[..], |path|)
  {
    prices, next, path := pricesIn, nextIn, pathIn;
    for c := 0 to width
      invariant Swapped(prices, next, pricesIn, nextIn)
      invariant |path| == |pathIn| + c && PathRecorded(t, path)
      invariant c < width ==> PricesAre(t, prices[..], |path|)
      invariant c == width ==> RelaxedAre(t, prices[..], |path| - 1)
    {
      ghost var j := |path|;
      assert t.code[|pathIn| + c] == Symbol(k, ColumnFor(width, c), c == width - 1);
      var column := And(ColumnFor(width, c), columnMask);
      var cost := Effective(costs[|path|]);
      var decisions := RelaxColumn(t, j, prices, next, column, cost, cover[|path|]);
      path := path + [decisions];
      prices, next := next, prices;
      if c + 1 < width { RelaxedIsNextRow(t, prices[..], j); }
    }
    assert t.code[|pathIn| + (width - 1)] == Symbol(k, ColumnFor(width, width - 1), true);
    PruneRow(t, |path| - 1, prices, next, bit);
    prices, next := next, prices;
  }

  /** The forward pass: the final price of state 0 and every decision on the way. */
  method SearchTrellis(ghost t: Trellis, widths: seq<nat>, cover: seq<bool>, costs: seq<FlipCost>, message: seq<bool>)
    returns (finalPrice: Price, path: seq<seq<bool>>)
    requires WidthsLegal(widths) && |widths| == |message| > 0
    requires t == Trellis(Code(widths), message, cover, costs) && t.Valid()
    ensures finalPrice == t.PriceAt(|t.code|, 0)
    ensures |path| == |t.code| && PathRecorded(t, path)
  {
    var prices := new Price[STATES](s => if s == 0 then Finite(0.0) else Infinite);
    var next := new Price[STATES](_ => Finite(0.0));
    path := [];
    StartEnds(widths);
    var initialHeight := if |message| < HEIGHT then |message| else HEIGHT;
    var columnMask: nat := Pow2(initialHeight) - 1;
    for k := 0 to |message|
      invariant prices.Length == next.Length == STATES && prices != next
      invariant fresh(prices) && fresh(next)
      invariant |path| == Start(widths, k)
      invariant columnMask == Mask(|message|, k)
      invariant PathRecorded(t, path) && PricesAre(t, prices[..], |path|)
    {
      CodeBlock(widths, k);
      prices, next, path :=
        AdvanceBlock(t, k, widths[k], columnMask, message[k], cover, costs, prices, next, path);
      MaskNarrows(|message|, k);
      if |message| - k <= HEIGHT {
        columnMask := columnMask / 2;
      }
    }
    assert prices[..][0] == prices[0];
    finalPrice := prices[0];
  }

  /** The recorded decision, where it leads back to, and the bits up to it. */
  lemma DecisionOf(t: Trellis, bits: seq<bool>, j: nat, closed: nat)
    requires t.Valid() && j < |t.code| && DecisionsAt(t, bits, j)
    requires closed < STATES && t.PriceAt(j + 1, closed).Finite?
    ensures var state := t.Unclosed(j, closed);
      && state < STATES == |bits|
      && t.Before(j, closed) == (if bits[state] then Alternate(state, t.Column(j)) else state)
      && t.PriceAt(j, t.Before(j, closed)).Finite?
      && t.TraceBack(j + 1, closed) == t.TraceBack(j, t.Before(j, closed)) + [bits[state]]
  {
    hide Trellis.PriceAt, Alternate;
    t.StepIsAttained(j, closed);
  }

  /** Reads one decision; `closed` is the state reached once symbol `j` has closed its row. */
  method BacktrackSymbol(ghost t: Trellis, j: nat, column: nat, path: seq<seq<bool>>, stego: array<bool>,
                         state: nat, ghost closed: nat, ghost whole: seq<bool>)
    returns (before: nat)
    requires t.Valid() && j < |path| == |t.code| == stego.Length && DecisionsAt(t, path[j], j)
    requires column == t.Column(j)
    requires closed < STATES && t.PriceAt(j + 1, closed).Finite? && state == t.Unclosed(j, closed)
    requires whole == t.TraceBack(j + 1, closed) + stego[j + 1..]
    modifies stego
    ensures before < STATES && t.PriceAt(j, before).Finite?
    ensures whole == t.TraceBack(j, before) + stego[j..]
  {
    hide Trellis.PriceAt, Trellis.TraceBack, Trellis.Before, Trellis.Unclosed, Trellis.Column, Trellis.Valid, Alternate, DecisionsAt;
    DecisionOf(t, path[j], j, closed);
    ghost var later := stego[j + 1..];
    var stegoBit := path[j][state];
    stego[j] := stegoBit;
    before := if stegoBit then Alternate(state, column) else state;
    assert t.TraceBack(j + 1, closed) == t.TraceBack(j, before) + [stegoBit];
    assert stego[j..] == [stegoBit] + later;
  }

  lemma BlockWidth(code: seq<Symbol>, start: nat, k: nat, width: nat)
    requires BlockAt(code, start, k, width)
    ensures 2 <= width <= 3 && start + width <= |code|
  {
  }

  /** What the reverse pass uses of one symbol of a block. */
  lemma SymbolInBlock(t: Trellis, k: nat, width: nat, mask: nat, path: seq<seq<bool>>, start: nat, c: nat, closed: nat)
    requires t.Valid() && |path| == |t.code| && PathRecorded(t, path)
    requires BlockAt(t.code, start, k, width) && k < |t.message| && c < width && mask == Mask(|t.message|, k)
    ensures 2 <= width <= 3 && start + c < |t.code| && DecisionsAt(t, path[start + c], start + c)
    ensures And(ColumnFor(width, c), mask) == t.Column(start + c)
    ensures t.Unclosed(start + c, closed) == if c == width - 1 then 2 * closed + BoolToNat(t.message[k]) else closed
  {
    hide DecisionsAt, Mask, ColumnFor, And;
    assert t.code[start + c] == Symbol(k, ColumnFor(width, c), c == width - 1);
  }

  /** Reads the decisions of one message bit backwards. */
  method BacktrackBlock(ghost t: Trellis, ghost k: nat, width: nat, reverseMask: nat, path: seq<seq<bool>>,
                        stego: array<bool>, coverStart: nat, stateIn: nat,
                        ghost from: nat, ghost whole: seq<bool>)
    returns (state: nat)
    requires t.Valid() && |path| == |t.code| == stego.Length && PathRecorded(t, path)
    requires BlockAt(t.code, coverStart, k, width) && k < |t.message|
    requires reverseMask == Mask(|t.message|, k)
    requires from < STATES && t.PriceAt(coverStart + width, from).Finite?
    requires stateIn == 2 * from + BoolToNat(t.message[k])
    requires whole == t.TraceBack(coverStart + width, from) + stego[coverStart + width..]
    modifies stego
    ensures state < STATES && t.PriceAt(coverStart, state).Finite?
    ensures whole == t.TraceBack(coverStart, state) + stego[coverStart..]
  {
    hide Trellis.PriceAt, Trellis.TraceBack, Trellis.Valid, Trellis.Column, Trellis.Unclosed, DecisionsAt, Mask, ColumnFor, And;
    BlockWidth(t.code, coverStart, k, width);
    hide BlockAt, PathRecorded;
    state := stateIn;
    ghost var closed: nat := from;
    for c := width downto 0
      invariant closed < STATES && t.PriceAt(coverStart + c, closed).Finite?
      invariant whole == t.TraceBack(coverStart + c, closed) + stego[coverStart + c..]
      invariant c == width ==> state == 2 * closed + BoolToNat(t.message[k])
      invariant c < width ==> state == closed
    {
      var j := coverStart + c;
      SymbolInBlock(t, k, width, reverseMask, path, coverStart, c, closed);
      var column := And(ColumnFor(width, c), reverseMask);
      state := BacktrackSymbol(t, j, column, path, stego, state, closed, whole);
      closed := state;
    }
  }

  lemma MaskEnds(messages: nat)
    ensures Mask(messages, messages) == 0
  {
  }

  /** Follows the decisions back from state 0. */
  method Backtrack(ghost t: Trellis, widths: seq<nat>, message: seq<bool>, path: seq<seq<bool>>)
    returns (stegoBits: seq<bool>, leftover: nat)
    requires WidthsLegal(widths) && |widths| == |message|
    requires t.Valid() && t.code == Code(widths) && t.message == message
    requires |path| == |t.code| && PathRecorded(t, path)
    requires t.PriceAt(|t.code|, 0).Finite?
    ensures stegoBits == t.TraceBack(|t.code|, 0)
    ensures leftover == 0
  {
    hide Trellis.PriceAt, Trellis.TraceBack, Trellis.Valid, PathRecorded, BlockAt, Mask, WidthsLegal, Start, Code;
    ghost var whole := t.TraceBack(|t.code|, 0);
    StartEnds(widths);
    MaskEnds(|message|);
    var stego := new bool[|path|];
    var reverseCover := |path|;
    var reverseMask: nat := 0;
    var state: nat := 0;
    assert stego[reverseCover..] == [] && whole + [] == whole;
    for k := |message| downto 0
      invariant reverseCover == Start(widths, k) <= |t.code|
      invariant reverseMask == Mask(|message|, k)
      invariant state < STATES && t.PriceAt(reverseCover, state).Finite?
      invariant whole == t.TraceBack(reverseCover, state) + stego[reverseCover..]
    {
      CodeBlock(widths, k);
      var width := widths[k];
      reverseCover := reverseCover - width;
      MaskNarrows(|message|, k);
      if |message| - k <= HEIGHT {
        reverseMask := reverseMask * 2 + 1;
      }
      state := BacktrackBlock(t, k, width, reverseMask, path, stego, reverseCover,
                              state * 2 + BoolToNat(message[k]), state, whole);
    }
    assert stego[0..] == stego[..];
    stegoBits, leftover := stego[..], reverseCover;
  }

  method CountChanges(stego: seq<bool>, cover: seq<bool>) returns (changes: nat)
    requires |stego| == |cover|
    ensures changes == Hamming(stego, cover)
  {
    changes := 0;
    for j := 0 to |stego|
      invariant changes == Hamming(stego[..j], cover)
    {
      assert stego[..j + 1][..j] == stego[..j];
      if stego[j] != cover[j] {
        changes := changes + 1;
      }
    }
    assert stego[..|stego|] == stego;
  }

  /** `stego` has the syndrome, and nothing with that syndrome is cheaper. */
  ghost predicate Cheapest(code: seq<Symbol>, cover: seq<bool>, costs: seq<FlipCost>,
                           message: seq<bool>, stego: seq<bool>)
    requires |code| == |cover| == |costs|
  {
    && |stego| == |code|
    && HasSyndrome(code, stego, message)
    && forall amounts, y :: Charged(costs, amounts) && |y| == |code| && HasSyndrome(code, y, message) ==>
         FlipSum(cover, amounts, stego) <= FlipSum(cover, amounts, y)
  }

  /** The search, once a schedule is fixed. Neither of its failure checks can fire. */
  method EmbedScheduled(widths: seq<nat>, cover: seq<bool>, costs: seq<FlipCost>, message: seq<bool>)
    returns (r: Result<EmbedResult, StcError>)
    requires WidthsLegal(widths) && |widths| == |message| > 0
    requires Sum(widths) == |cover| == |costs|
    ensures r.Ok?
    ensures Cheapest(Code(widths), cover, costs, message, r.value.stego)
    ensures r.value.changes == Hamming(r.value.stego, cover)
  {
    CodeWellFormed(widths);
    ghost var t := Trellis(Code(widths), message, cover, costs);
    t.FinalPriceIsFinite();
    var finalPrice, path := SearchTrellis(t, widths, cover, costs, message);
    if finalPrice.Infinite? {
      return Err(NoFiniteSolution);
    }
    var stego, leftover := Backtrack(t, widths, message, path);
    if leftover != 0 {
      return Err(BacktrackIncomplete);
    }
    var changes := CountChanges(stego, cover);
    t.TraceBackIsOptimal(stego);
    forall amounts, y | Charged(costs, amounts) && |y| == |cover| && HasSyndrome(t.code, y, message)
      ensures FlipSum(cover, amounts, stego) <= FlipSum(cover, amounts, y)
    {
      t.TraceBackIsOptimal(y);
    }
    return Ok(EmbedResult(stego, changes));
  }

  /** Succeeds exactly when the buffers agree and the lengths can be scheduled. */
  method EmbedRaw(cover: seq<bool>, costs: seq<FlipCost>, message: seq<bool>)
    returns (r: Result<EmbedResult, StcError>)
    ensures r.Ok? <==> |cover| == |costs| && Schedulable(|cover|, |message|)
    ensures r.Ok? ==>
      && Cheapest(ScheduledCode(|cover|, |message|), cover, costs, message, r.value.stego)
      && r.value.changes == Hamming(r.value.stego, cover)
  {
    if |cover| != |costs| || |message| == 0 {
      return Err(InvalidLengths);
    }
    var widths :- MakeWidths(|cover|, |message|);
    WidthsCover(|cover|, |message|);
    r := EmbedScheduled(widths, cover, costs, message);
  }

  // ----- Extraction -----

  /** H x, as a message. */
  function Extracted(code: seq<Symbol>, stego: seq<bool>, messages: nat): (bits: seq<bool>)
    requires |stego| <= |code|
    ensures |bits| == messages
  {
    if messages == 0 then []
    else Extracted(code, stego, messages - 1) + [SyndromeBit(code, stego, messages - 1)]
  }

  lemma {:induction false} ExtractedAt(code: seq<Symbol>, stego: seq<bool>, messages: nat, i: nat)
    requires |stego| <= |code| && i < messages
    ensures Extracted(code, stego, messages)[i] == SyndromeBit(code, stego, i)
  {
    if i < messages - 1 { ExtractedAt(code, stego, messages - 1, i); }
  }

  lemma {:induction false} ExtractedUpTo(code: seq<Symbol>, stego: seq<bool>, bits: seq<bool>, k: nat)
    requires |stego| <= |code| && k <= |bits|
    requires forall i :: 0 <= i < |bits| ==> bits[i] == SyndromeBit(code, stego, i)
    ensures bits[..k] == Extracted(code, stego, k)
  {
    if k > 0 {
      ExtractedUpTo(code, stego, bits, k - 1);
      assert bits[..k] == bits[..k - 1] + [bits[k - 1]];
    }
  }

  lemma ExtractedIs(code: seq<Symbol>, stego: seq<bool>, bits: seq<bool>)
    requires |stego| <= |code|
    requires forall i :: 0 <= i < |bits| ==> bits[i] == SyndromeBit(code, stego, i)
    ensures bits == Extracted(code, stego, |bits|)
  {
    ExtractedUpTo(code, stego, bits, |bits|);
    assert bits[..|bits|] == bits;
  }

  lemma SyndromeStep(code: seq<Symbol>, stego: seq<bool>, j: nat, i: nat)
    requires j < |stego| <= |code|
    ensures SyndromeBit(code, stego[..j + 1], i)
         == (SyndromeBit(code, stego[..j], i) != (stego[j] && Checks(code[j], i)))
  {
    assert stego[..j + 1][..j] == stego[..j];
  }

  method ExtractScheduled(widths: seq<nat>, stego: seq<bool>) returns (bits: seq<bool>)
    requires WidthsLegal(widths) && Sum(widths) == |stego|
    ensures bits == Extracted(Code(widths), stego, |widths|)
  {
    ghost var code, m := Code(widths), |widths|;
    var message := new bool[|widths|](_ => false);
    var coverIndex := 0;
    for k := 0 to |widths|
      invariant coverIndex == Start(widths, k) <= |stego|
      invariant forall i :: 0 <= i < m ==> message[i] == SyndromeBit(code, stego[..coverIndex], i)
    {
      var width := widths[k];
      CodeBlock(widths, k);
      for c := 0 to width
        invariant coverIndex == Start(widths, k) + c <= |stego|
        invariant forall i :: 0 <= i < m ==> message[i] == SyndromeBit(code, stego[..coverIndex], i)
      {
        assert code[coverIndex] == Symbol(k, ColumnFor(width, c), c == width - 1);
        ghost var before := message[..];
        if stego[coverIndex] {
          XorColumn(message, k, ColumnFor(width, c));
        }
        forall i | 0 <= i < m ensures message[i] == SyndromeBit(code, stego[..coverIndex + 1], i) {
          assert message[i] == (before[i] != (stego[coverIndex] && Checks(code[coverIndex], i)));
          SyndromeStep(code, stego, coverIndex, i);
        }
        coverIndex := coverIndex + 1;
      }
    }
    assert widths[..|widths|] == widths;
    assert stego[..coverIndex] == stego;
    bits := message[..];
    ExtractedIs(code, stego, bits);
  }

  method ExtractRaw(stego: seq<bool>, messages: nat) returns (r: Result<seq<bool>, StcError>)
    ensures r.Ok? <==> Schedulable(|stego|, messages)
    ensures r.Ok? ==>
      r.value == Extracted(ScheduledCode(|stego|, messages), stego, messages)
  {
    var widths :- MakeWidths(|stego|, messages);
    WidthsCover(|stego|, messages);
    var bits := ExtractScheduled(widths, stego);
    return Ok(bits);
  }

  /** Flips the message bits a column touches, in place, stopping at the end of the message. */
  method XorColumn(message: array<bool>, row: nat, column: nat)
    requires row < message.Length
    modifies message
    ensures forall i :: 0 <= i < message.Length ==>
      message[i] == (old(message[i]) != Checks(Symbol(row, column, false), i))
  {
    var bit := 0;
    while bit < HEIGHT && row + bit < message.Length
      invariant 0 <= bit <= HEIGHT && row + bit <= message.Length
      invariant forall i :: 0 <= i < message.Length ==>
        message[i] == (old(message[i]) != (row <= i < row + bit && Bit(column, i - row)))
    {
      message[row + bit] := message[row + bit] != Bit(column, bit);
      bit := bit + 1;
    }
  }
}
