/**
  The syndrome-trellis code as mathematics: its banded parity-check matrix, the
  128-state machine that tracks a partial syndrome, and the prices of the
  Viterbi search. Nothing here executes; the methods of StcRaw are proved against it.
 */
module StcTrellis {
  import opened Bits
  import opened Results
  import opened StcSchedule

  const HEIGHT: nat := 7
  const STATES: nat := 128

  /** The submatrix columns of the two supported widths. */
  function ColumnFor(width: nat, column: nat): (h: nat)
    requires 2 <= width <= 3 && column < width
    ensures h < STATES && h % 2 == 1
  {
    if width == 2 then [109, 71][column] else [109, 79, 83][column]
  }

  /** One cover symbol: the first matrix row it touches, its column bits, and whether it closes that row. */
  datatype Symbol = Symbol(row: nat, column: nat, last: bool)

  function Block(row: nat, width: nat): seq<Symbol>
    requires 2 <= width <= 3
  {
    seq(width, c requires 0 <= c < width => Symbol(row, ColumnFor(width, c), c == width - 1))
  }

  function Code(ws: seq<nat>): (code: seq<Symbol>)
    requires WidthsLegal(ws)
    ensures |code| == Sum(ws)
  {
    if ws == [] then [] else Code(ws[..|ws| - 1]) + Block(|ws| - 1, ws[|ws| - 1])
  }

  /** The row symbol `j` belongs to, going by the symbol before it. */
  function RowAt(code: seq<Symbol>, j: nat): nat
    requires j <= |code|
  {
    if j == 0 then 0
    else if code[j - 1].last then code[j - 1].row + 1
    else code[j - 1].row
  }

  /** Rows advance one at a time, each closed by its last symbol; every column is odd. */
  ghost predicate WellFormed(code: seq<Symbol>, messages: nat) {
    && (forall j {:trigger RowAt(code, j)} :: 0 <= j < |code| ==> code[j].row == RowAt(code, j))
    && (forall j :: 0 <= j < |code| ==>
          code[j].row < messages && code[j].column < STATES && code[j].column % 2 == 1)
    && RowAt(code, |code|) == messages
  }

  lemma {:induction false} CodeWellFormed(ws: seq<nat>)
    requires WidthsLegal(ws)
    ensures WellFormed(Code(ws), |ws|)
  {
    if ws != [] {
      var k := |ws| - 1;
      var front, block := Code(ws[..k]), Block(k, ws[k]);
      CodeWellFormed(ws[..k]);
      var code := front + block;
      forall j | 0 <= j < |code| ensures code[j].row == RowAt(code, j) {
        if j < |front| {
          assert code[j].row == RowAt(front, j);
        } else {
          assert code[|front|] == block[0];
          assert RowAt(code, |front|) == RowAt(front, |front|);
        }
      }
    }
  }

  /** The code a cover and message of these lengths use. */
  function ScheduledCode(cover: nat, messages: nat): (code: seq<Symbol>)
    requires Schedulable(cover, messages)
    ensures |code| == cover
  {
    WidthsCover(cover, messages);
    Code(Widths(cover, messages))
  }

  /** The parity-check matrix entry of a row and a cover symbol. */
  predicate Checks(s: Symbol, row: nat) {
    s.row <= row < s.row + HEIGHT && Bit(s.column, row - s.row)
  }

  /** One bit of the matrix-vector product, over the symbols `x` covers. */
  predicate SyndromeBit(code: seq<Symbol>, x: seq<bool>, row: nat)
    requires |x| <= |code|
  {
    if x == [] then false
    else
      var j := |x| - 1;
      SyndromeBit(code, x[..j], row) != (x[j] && Checks(code[j], row))
  }

  /** H x == message. */
  ghost predicate HasSyndrome(code: seq<Symbol>, x: seq<bool>, message: seq<bool>)
    requires |x| == |code|
  {
    forall i :: 0 <= i < |message| ==> SyndromeBit(code, x, i) == message[i]
  }

  /** A flip cost as the caller gives it: the original accepts any float. */
  datatype FlipCost = Cost(amount: real) | NotFinite

  /** The cost of a flip whose cost is no finite number. */
  const WET: real := 10000000000000.0

  /** Negative costs count as zero, non-finite ones as wet. */
  function Effective(c: FlipCost): (r: real)
    ensures r >= 0.0
  {
    match c
    case Cost(amount) => if amount < 0.0 then 0.0 else amount
    case NotFinite => WET
  }

  /** Total cost of replacing the cover by `x`, over the symbols `x` covers. */
  function TotalCost(cover: seq<bool>, costs: seq<FlipCost>, x: seq<bool>): real
    requires |x| <= |cover| == |costs|
  {
    if x == [] then 0.0
    else
      var j := |x| - 1;
      TotalCost(cover, costs, x[..j]) + (if x[j] != cover[j] then Effective(costs[j]) else 0.0)
  }

  /** What the caller is charged per symbol: the amount given, nothing for a negative one, a wet cost for a non-finite one. */
  ghost predicate Charged(costs: seq<FlipCost>, amounts: seq<real>) {
    && |amounts| == |costs|
    && (forall i :: 0 <= i < |costs| && costs[i].Cost? && costs[i].amount >= 0.0 ==> amounts[i] == costs[i].amount)
    && (forall i :: 0 <= i < |costs| && costs[i].Cost? && costs[i].amount < 0.0 ==> amounts[i] == 0.0)
    && (forall i :: 0 <= i < |costs| && costs[i].NotFinite? ==> amounts[i] == WET)
  }

  /** The sum of the amounts of the symbols that `x` flips. */
  ghost function FlipSum(cover: seq<bool>, amounts: seq<real>, x: seq<bool>): real
    requires |x| <= |cover| == |amounts|
  {
    if x == [] then 0.0
    else
      var j := |x| - 1;
      if x[j] == cover[j] then FlipSum(cover, amounts, x[..j]) else FlipSum(cover, amounts, x[..j]) + amounts[j]
  }

  /** The total cost is that sum, in the caller's own numbers. */
  lemma {:induction false} TotalCostIsFlipSum(cover: seq<bool>, costs: seq<FlipCost>, amounts: seq<real>, x: seq<bool>)
    requires |x| <= |cover| == |costs| && Charged(costs, amounts)
    ensures TotalCost(cover, costs, x) == FlipSum(cover, amounts, x)
  {
    if x != [] { TotalCostIsFlipSum(cover, costs, amounts, x[..|x| - 1]); }
  }

  /** Every cost is charged somehow. */
  lemma {:induction false} ChargedIsMet(costs: seq<FlipCost>) returns (amounts: seq<real>)
    ensures Charged(costs, amounts)
  {
    amounts := [];
    for i := 0 to |costs|
      invariant Charged(costs[..i], amounts)
    {
      amounts := amounts + [Effective(costs[i])];
      assert costs[..i + 1] == costs[..i] + [costs[i]];
    }
    assert costs[..|costs|] == costs;
  }

  /** No flipped symbol is charged more than the whole sum. */
  lemma {:induction false} FlipIsInSum(cover: seq<bool>, costs: seq<FlipCost>, amounts: seq<real>, x: seq<bool>, i: nat)
    requires i < |x| <= |cover| == |costs| && Charged(costs, amounts)
    ensures FlipSum(cover, amounts, x[..i]) >= 0.0 && amounts[i] >= 0.0
    ensures FlipSum(cover, amounts, x) >= if x[i] != cover[i] then amounts[i] else 0.0
  {
    var j := |x| - 1;
    FlipSumNonNegative(cover, costs, amounts, x[..i]);
    FlipSumNonNegative(cover, costs, amounts, x[..j]);
    if i < j { FlipIsInSum(cover, costs, amounts, x[..j], i); }
  }

  lemma {:induction false} FlipSumNonNegative(cover: seq<bool>, costs: seq<FlipCost>, amounts: seq<real>, x: seq<bool>)
    requires |x| <= |cover| == |costs| && Charged(costs, amounts)
    ensures FlipSum(cover, amounts, x) >= 0.0
  {
    if x != [] { FlipSumNonNegative(cover, costs, amounts, x[..|x| - 1]); }
  }

  /** A vector that flips only symbols of finite cost. */
  ghost predicate StaysDry(cover: seq<bool>, costs: seq<FlipCost>, x: seq<bool>)
    requires |x| == |cover| == |costs|
  {
    forall i :: 0 <= i < |x| && x[i] != cover[i] ==> costs[i].Cost?
  }

  /** Below the cost of one wet symbol, none is flipped. */
  lemma CheapStaysDry(cover: seq<bool>, costs: seq<FlipCost>, amounts: seq<real>, x: seq<bool>)
    requires |x| == |cover| == |costs| && Charged(costs, amounts) && FlipSum(cover, amounts, x) < WET
    ensures StaysDry(cover, costs, x)
  {
    forall i | 0 <= i < |x| && x[i] != cover[i] ensures costs[i].Cost? {
      FlipIsInSum(cover, costs, amounts, x, i);
    }
  }

  function BoolToNat(b: bool): nat {
    if b then 1 else 0
  }

  datatype Price = Finite(amount: real) | Infinite {
    predicate AtMost(other: Price) {
      match (this, other)
      case (_, Infinite) => true
      case (Infinite, Finite(_)) => false
      case (Finite(a), Finite(b)) => a <= b
    }

    function Plus(amount: real): Price {
      if Infinite? then Infinite else Finite(this.amount + amount)
    }
  }

  function Alternate(state: nat, column: nat): (s: nat)
    requires state < STATES && column < STATES
    ensures s < STATES
  {
    assert STATES == Pow2(7);
    XorBelow(state, column, 7);
    Xor(state, column)
  }

  lemma AlternateTwice(state: nat, column: nat)
    requires state < STATES && column < STATES
    ensures Alternate(Alternate(state, column), column) == state
  {
    XorCancels(state, column);
  }

  /** The rows of a partial syndrome still inside the message. */
  function Remaining(messages: nat, row: nat): nat
    requires row <= messages
  {
    if messages - row < HEIGHT then messages - row else HEIGHT
  }

  /** The column mask in force at a row. */
  function Mask(messages: nat, row: nat): nat
    requires row <= messages
  {
    Pow2(Remaining(messages, row)) - 1
  }

  /** The mask narrows by one bit over each of the last rows, and not before. */
  lemma MaskNarrows(messages: nat, row: nat)
    requires row < messages
    ensures messages - row <= HEIGHT ==>
      Mask(messages, row) == Mask(messages, row + 1) * 2 + 1
    ensures messages - row > HEIGHT ==> Mask(messages, row + 1) == Mask(messages, row)
  {
  }

  /** A column with the rows past the end of the message masked off. */
  function MaskedColumn(column: nat, messages: nat, row: nat): (h: nat)
    requires row < messages && column < STATES
    ensures h < STATES
    ensures column % 2 == 1 ==> h % 2 == 1
  {
    AndAtMost(column, Mask(messages, row));
    And(column, Mask(messages, row))
  }

  lemma BitOfMaskedColumn(column: nat, messages: nat, row: nat, b: nat)
    requires row < messages && column < STATES
    ensures Bit(MaskedColumn(column, messages, row), b)
         == (b < HEIGHT && row + b < messages && Bit(column, b))
  {
    var k := Remaining(messages, row);
    BitOfAnd(column, Pow2(k) - 1, b);
    BitOfMask(k, b);
  }

  /** Everything one raw embedding works on. */
  datatype Trellis = Trellis(code: seq<Symbol>, message: seq<bool>, cover: seq<bool>, costs: seq<FlipCost>) {
    ghost predicate Valid() {
      && WellFormed(code, |message|)
      && |code| == |cover| == |costs|
    }

    function Column(j: nat): (h: nat)
      requires Valid() && j < |code|
      ensures h < STATES
    {
      MaskedColumn(code[j].column, |message|, code[j].row)
    }

    /** The state after symbol `j` took `bit`, before its row is closed. */
    function Flipped(j: nat, state: nat, bit: bool): (s: nat)
      requires Valid() && j < |code| && state < STATES
      ensures s < STATES
    {
      if bit then Alternate(state, Column(j)) else state
    }

    /** Closes symbol `j`'s row if it is the last one there; None if the row came out wrong. */
    function Closed(j: nat, state: nat): (s: Option<nat>)
      requires Valid() && j < |code| && state < STATES
      ensures s.Some? ==> s.value < STATES
    {
      if !code[j].last then Some(state)
      else if (state % 2 == 1) == message[code[j].row] then Some(state / 2)
      else None
    }

    /** The state the machine is in after reading `x`; None once a closed row came out wrong. */
    ghost function Walk(x: seq<bool>): (s: Option<nat>)
      requires Valid() && |x| <= |code|
      ensures s.Some? ==> s.value < STATES
    {
      if x == [] then Some(0)
      else
        var j := |x| - 1;
        match Walk(x[..j])
        case None => None
        case Some(before) => Closed(j, Flipped(j, before, x[j]))
    }

    function StepCost(j: nat, bit: bool): real
      requires Valid() && j < |code|
    {
      if bit != cover[j] then Effective(costs[j]) else 0.0
    }

    /** The cheapest way to `state` after `j` symbols, as the search computes it. */
    ghost function PriceAt(j: nat, state: nat): Price
      requires Valid() && j <= |code| && state < STATES
      decreases j, 0
    {
      if j == 0 then
        if state == 0 then Finite(0.0) else Infinite
      else if !code[j - 1].last then
        RelaxedAt(j - 1, state)
      else if state < STATES / 2 then
        RelaxedAt(j - 1, 2 * state + BoolToNat(message[code[j - 1].row]))
      else Infinite
    }

    /** The price of leaving symbol `j` out. */
    ghost function ZeroPrice(j: nat, state: nat): Price
      requires Valid() && j < |code| && state < STATES
      decreases j, 1
    {
      PriceAt(j, state).Plus(StepCost(j, false))
    }

    /** The price of taking symbol `j`. */
    ghost function OnePrice(j: nat, state: nat): Price
      requires Valid() && j < |code| && state < STATES
      decreases j, 1
    {
      PriceAt(j, Alternate(state, Column(j))).Plus(StepCost(j, true))
    }

    ghost predicate ChoosesOne(j: nat, state: nat)
      requires Valid() && j < |code| && state < STATES
      decreases j, 2
    {
      OnePrice(j, state).AtMost(ZeroPrice(j, state))
    }

    /** The price of `state` once symbol `j` is decided, before its row is closed. */
    ghost function RelaxedAt(j: nat, state: nat): Price
      requires Valid() && j < |code| && state < STATES
      decreases j, 3
    {
      if ChoosesOne(j, state) then OnePrice(j, state) else ZeroPrice(j, state)
    }

    /** The state from which symbol `j`, by closing its row, leads to `state`. */
    ghost function Unclosed(j: nat, state: nat): nat
      requires Valid() && j < |code|
    {
      if code[j].last then 2 * state + BoolToNat(message[code[j].row]) else state
    }

    /** Where the recorded decision at symbol `j` leads back to from `state`. */
    ghost function Before(j: nat, state: nat): (s: nat)
      requires Valid() && j < |code| && state < STATES
      requires PriceAt(j + 1, state).Finite?
      ensures s < STATES
    {
      Flipped(j, Unclosed(j, state), ChoosesOne(j, Unclosed(j, state)))
    }

    /** The bits read off the recorded decisions, backwards from `state` after `j` symbols. */
    ghost function TraceBack(j: nat, state: nat): (x: seq<bool>)
      requires Valid() && j <= |code| && state < STATES
      requires PriceAt(j, state).Finite?
      ensures |x| == j
    {
      if j == 0 then []
      else
        StepIsAttained(j - 1, state);
        TraceBack(j - 1, Before(j - 1, state)) + [ChoosesOne(j - 1, Unclosed(j - 1, state))]
    }

    // ----- Viterbi: the prices are minima -----

    lemma RelaxedIsLowerBound(j: nat, before: nat, bit: bool)
      requires Valid() && j < |code| && before < STATES
      ensures RelaxedAt(j, Flipped(j, before, bit)).AtMost(PriceAt(j, before).Plus(StepCost(j, bit)))
    {
      var s := Flipped(j, before, bit);
      AlternateTwice(before, Column(j));
      assert Flipped(j, s, bit) == before;
      var zero, one := ZeroPrice(j, s), OnePrice(j, s);
      assert zero == PriceAt(j, s).Plus(StepCost(j, false));
      assert one == PriceAt(j, Alternate(s, Column(j))).Plus(StepCost(j, true));
      assert RelaxedAt(j, s) == if one.AtMost(zero) then one else zero;
    }

    /** One step never prices a successor above the state it comes from plus the step. */
    lemma StepIsLowerBound(j: nat, before: nat, bit: bool)
      requires Valid() && j < |code| && before < STATES
      ensures var after := Closed(j, Flipped(j, before, bit));
        after.Some? ==> PriceAt(j + 1, after.value).AtMost(PriceAt(j, before).Plus(StepCost(j, bit)))
    {
      RelaxedIsLowerBound(j, before, bit);
      var after := Closed(j, Flipped(j, before, bit));
      if after.Some? {
        assert PriceAt(j + 1, after.value) == RelaxedAt(j, Flipped(j, before, bit));
      }
    }

    /** A finite price always comes from the recorded decision. */
    lemma StepIsAttained(j: nat, state: nat)
      requires Valid() && j < |code| && state < STATES
      requires PriceAt(j + 1, state).Finite?
      ensures Unclosed(j, state) < STATES
      ensures Closed(j, Unclosed(j, state)) == Some(state)
      ensures var bit := ChoosesOne(j, Unclosed(j, state));
        && PriceAt(j, Before(j, state)).Finite?
        && Flipped(j, Before(j, state), bit) == Unclosed(j, state)
        && PriceAt(j + 1, state) == PriceAt(j, Before(j, state)).Plus(StepCost(j, bit))
    {
      var t := Unclosed(j, state);
      assert PriceAt(j + 1, state) == RelaxedAt(j, t);
      AlternateTwice(t, Column(j));
      assert ZeroPrice(j, t) == PriceAt(j, t).Plus(StepCost(j, false));
      assert OnePrice(j, t) == PriceAt(j, Alternate(t, Column(j))).Plus(StepCost(j, true));
    }

    lemma {:induction false} PriceIsLowerBound(x: seq<bool>)
      requires Valid() && |x| <= |code|
      ensures Walk(x).Some? ==> PriceAt(|x|, Walk(x).value).AtMost(Finite(TotalCost(cover, costs, x)))
    {
      if x != [] {
        var j := |x| - 1;
        PriceIsLowerBound(x[..j]);
        if Walk(x[..j]).Some? {
          StepIsLowerBound(j, Walk(x[..j]).value, x[j]);
        }
      }
    }

    lemma WalkSnoc(y: seq<bool>, bit: bool)
      requires Valid() && |y| < |code| && Walk(y).Some?
      ensures Walk(y + [bit]) == Closed(|y|, Flipped(|y|, Walk(y).value, bit))
      ensures TotalCost(cover, costs, y + [bit]) == TotalCost(cover, costs, y) + StepCost(|y|, bit)
    {
      assert (y + [bit])[..|y|] == y;
    }

    lemma {:induction false} TraceBackAttainsPrice(j: nat, state: nat)
      requires Valid() && j <= |code| && state < STATES
      requires PriceAt(j, state).Finite?
      ensures Walk(TraceBack(j, state)) == Some(state)
      ensures PriceAt(j, state) == Finite(TotalCost(cover, costs, TraceBack(j, state)))
    {
      hide WellFormed, Closed, Flipped, Unclosed, Before, ChoosesOne, RelaxedAt, PriceAt, TraceBack, Walk, TotalCost, StepCost;
      if j == 0 {
        TraceBackStarts(state);
      } else {
        StepIsAttained(j - 1, state);
        TraceBackStep(j, state);
        var before := Before(j - 1, state);
        TraceBackAttainsPrice(j - 1, before);
        WalkSnoc(TraceBack(j - 1, before), ChoosesOne(j - 1, Unclosed(j - 1, state)));
      }
    }

    lemma TraceBackStarts(state: nat)
      requires Valid() && state < STATES && PriceAt(0, state).Finite?
      ensures Walk(TraceBack(0, state)) == Some(state)
      ensures PriceAt(0, state) == Finite(TotalCost(cover, costs, TraceBack(0, state)))
    {
    }

    lemma TraceBackStep(j: nat, state: nat)
      requires Valid() && 0 < j <= |code| && state < STATES && PriceAt(j, state).Finite?
      ensures Unclosed(j - 1, state) < STATES && PriceAt(j - 1, Before(j - 1, state)).Finite?
      ensures TraceBack(j, state)
           == TraceBack(j - 1, Before(j - 1, state)) + [ChoosesOne(j - 1, Unclosed(j - 1, state))]
    {
      hide WellFormed, Closed, Flipped, Unclosed, Before, ChoosesOne, RelaxedAt, PriceAt, Walk, TotalCost, StepCost;
      StepIsAttained(j - 1, state);
    }

    // ----- The machine computes the syndrome -----

    /** The machine agrees with the matrix: rows below `r` are right, the state holds the rest. */
    ghost predicate Tracks(x: seq<bool>, r: nat, state: nat)
      requires Valid() && |x| <= |code|
    {
      && r <= |message|
      && (forall i :: 0 <= i < r ==> SyndromeBit(code, x, i) == message[i])
      && (forall b: nat :: Bit(state, b) == (r + b < |message| && SyndromeBit(code, x, r + b)))
    }

    lemma FlipTracks(y: seq<bool>, before: nat, bit: bool)
      requires Valid() && |y| < |code| && before < STATES
      requires Tracks(y, code[|y|].row, before)
      ensures Tracks(y + [bit], code[|y|].row, Flipped(|y|, before, bit))
    {
      var j, r, x := |y|, code[|y|].row, y + [bit];
      assert x[..j] == y;
      forall i | 0 <= i < r ensures SyndromeBit(code, x, i) == message[i] {
        assert SyndromeBit(code, y, i) == message[i];
      }
      var s := Flipped(j, before, bit);
      forall b: nat ensures Bit(s, b) == (r + b < |message| && SyndromeBit(code, x, r + b)) {
        assert Bit(before, b) == (r + b < |message| && SyndromeBit(code, y, r + b));
        BitOfXor(before, Column(j), b);
        BitOfMaskedColumn(code[j].column, |message|, r, b);
      }
    }

    lemma CloseTracks(x: seq<bool>, j: nat, state: nat)
      requires Valid() && j < |code| && |x| == j + 1 && state < STATES && code[j].last
      requires Tracks(x, code[j].row, state)
      ensures Closed(j, state).Some? <==> SyndromeBit(code, x, code[j].row) == message[code[j].row]
      ensures Closed(j, state).Some? ==> Tracks(x, code[j].row + 1, Closed(j, state).value)
    {
      var r := code[j].row;
      assert Bit(state, 0) == SyndromeBit(code, x, r + 0);
      forall b: nat
        ensures Bit(state / 2, b) == (r + 1 + b < |message| && SyndromeBit(code, x, r + 1 + b))
      {
        assert Bit(state, b + 1) == Bit(state / 2, b);
        assert r + (b + 1) == r + 1 + b;
      }
    }

    /** A symbol leaves the rows before its own alone. */
    lemma RowsStay(x: seq<bool>, r: nat)
      requires Valid() && 0 < |x| <= |code| && r == code[|x| - 1].row
      ensures forall i :: 0 <= i < r ==> SyndromeBit(code, x, i) == SyndromeBit(code, x[..|x| - 1], i)
    {
    }

    lemma {:induction false} WalkTracksSyndrome(x: seq<bool>)
      requires Valid() && |x| <= |code|
      ensures var r := RowAt(code, |x|);
        && (Walk(x).Some? ==> Tracks(x, r, Walk(x).value))
        && ((forall i :: 0 <= i < r ==> i < |message| && SyndromeBit(code, x, i) == message[i]) ==> Walk(x).Some?)
    {
      if x == [] {
        forall b: nat ensures !Bit(0, b) { BitOfZero(b); }
      } else {
        var j := |x| - 1;
        var y, r := x[..j], code[j].row;
        assert x == y + [x[j]] && code[j].row == RowAt(code, j);
        RowsStay(x, r);
        hide WellFormed, SyndromeBit, Flipped, Checks;
        WalkTracksSyndrome(y);
        if Walk(y).Some? {
          var s := Flipped(j, Walk(y).value, x[j]);
          FlipTracks(y, Walk(y).value, x[j]);
          if code[j].last { CloseTracks(x, j, s); }
        }
      }
    }

    /** A full walk survives exactly on the right syndrome, and then ends in state 0. */
    lemma WalkEndsAtZero(x: seq<bool>)
      requires Valid() && |x| == |code|
      ensures Walk(x) == Some(0) <==> HasSyndrome(code, x, message)
      ensures Walk(x).Some? ==> Walk(x) == Some(0)
    {
      WalkTracksSyndrome(x);
      if Walk(x).Some? {
        assert STATES == Pow2(7);
        ZeroByBits(Walk(x).value, 7);
      }
    }

    /** Every column is odd, so each row can still be closed whatever came before. */
    lemma {:induction false} SomeWalkSurvives(j: nat) returns (x: seq<bool>)
      requires Valid() && j <= |code|
      ensures |x| == j && Walk(x).Some?
    {
      if j == 0 {
        x := [];
      } else {
        var y := SomeWalkSurvives(j - 1);
        var s := Walk(y).value;
        var bit := code[j - 1].last && (s % 2 == 1) != message[code[j - 1].row];
        x := y + [bit];
        assert x[..j - 1] == y;
        XorStep(s, Column(j - 1));
      }
    }

    lemma FinalPriceIsFinite()
      requires Valid()
      ensures PriceAt(|code|, 0).Finite?
    {
      var x := SomeWalkSurvives(|code|);
      WalkEndsAtZero(x);
      PriceIsLowerBound(x);
    }

    /** The traced-back bits have the wanted syndrome, and no cheaper vector has it. */
    lemma TraceBackIsOptimal(y: seq<bool>)
      requires Valid() && |y| == |code|
      ensures PriceAt(|code|, 0).Finite?
      ensures HasSyndrome(code, TraceBack(|code|, 0), message)
      ensures HasSyndrome(code, y, message) ==>
        TotalCost(cover, costs, TraceBack(|code|, 0)) <= TotalCost(cover, costs, y)
      ensures HasSyndrome(code, y, message) ==> forall amounts :: Charged(costs, amounts) ==>
        FlipSum(cover, amounts, TraceBack(|code|, 0)) <= FlipSum(cover, amounts, y)
    {
      TraceBackIsCheapest(y);
      hide TotalCost, TraceBack, HasSyndrome, FlipSum, Charged;
      forall amounts | Charged(costs, amounts) && HasSyndrome(code, y, message)
        ensures FlipSum(cover, amounts, TraceBack(|code|, 0)) <= FlipSum(cover, amounts, y)
      {
        TotalCostIsFlipSum(cover, costs, amounts, TraceBack(|code|, 0));
        TotalCostIsFlipSum(cover, costs, amounts, y);
      }
    }

    lemma TraceBackIsCheapest(y: seq<bool>)
      requires Valid() && |y| == |code|
      ensures PriceAt(|code|, 0).Finite?
      ensures HasSyndrome(code, TraceBack(|code|, 0), message)
      ensures HasSyndrome(code, y, message) ==>
        TotalCost(cover, costs, TraceBack(|code|, 0)) <= TotalCost(cover, costs, y)
    {
      FinalPriceIsFinite();
      TraceBackAttainsPrice(|code|, 0);
      WalkEndsAtZero(TraceBack(|code|, 0));
      WalkEndsAtZero(y);
      PriceIsLowerBound(y);
    }
  }
}
