/**
  The costs computed strip by strip: at most 32 block rows of residuals at a time,
  begun where the next unvisited coefficient is.
 */
module StripCosts {
  import opened Results
  import opened ResidualPlanes
  import opened EmbeddingCosts

  /** The three bands of residuals for a stretch of padded rows, refilled for each strip. */
  class ResidualStrip {
    var firstRow: nat
    var rows: nat
    var lh: array2<real>
    var hl: array2<real>
    var hh: array2<real>

    constructor ()
    {
      firstRow, rows := 0, 0;
      lh, hl, hh := new real[0, 0], new real[0, 0], new real[0, 0];
    }

    ghost predicate Holds(image: Image, f: Filters)
      requires image.Valid()
      reads this, lh, hl, hh
    {
      && lh.Length0 == rows && hl.Length0 == rows && hh.Length0 == rows
      && HoldsResidual(image, f.low, f.high, lh, firstRow)
      && HoldsResidual(image, f.high, f.low, hl, firstRow)
      && HoldsResidual(image, f.high, f.high, hh, firstRow)
    }

    /** Fills the strip with rows `first`, ..., `first` + `count` - 1 of the padded image's residuals. */
    method Fill(image: Image, f: Filters, first: nat, count: nat)
      requires image.Valid() && first + count <= image.PaddedHeight()
      modifies this
      ensures Holds(image, f) && firstRow == first && rows == count
      ensures fresh(lh) && fresh(hl) && fresh(hh)
    {
      hide HoldsPadded, HoldsVertical, HoldsResidual;
      var height := image.PaddedHeight();
      var paddedFirst := if first >= REACH_UP then first - REACH_UP else 0;
      var paddedEnd := if first + count + REACH_DOWN < height then first + count + REACH_DOWN else height;
      var padded := FillPadded(image, paddedFirst, paddedEnd - paddedFirst);
      firstRow, rows := first, count;
      var vertical := VerticalCorrelation(image, padded, paddedFirst, height, f.low, first, count);
      lh := HorizontalReciprocal(image, f.low, vertical, f.high, first);
      vertical := VerticalCorrelation(image, padded, paddedFirst, height, f.high, first, count);
      hl := HorizontalReciprocal(image, f.high, vertical, f.low, first);
      hh := HorizontalReciprocal(image, f.high, vertical, f.high, first);
    }

    /** The three bands at one place of the strip, times their impacts. */
    method TermAt(ghost image: Image, ghost f: Filters, impacts: Impacts, mode: nat, ghost top: nat, left: nat,
                  residualRow: nat, row: nat, column: nat)
      returns (t: real)
      requires image.Valid() && Holds(image, f) && mode < 64 && row < IMPACT_SIZE && column < IMPACT_SIZE
      requires top == firstRow + residualRow && residualRow + row < rows && left + column < image.PaddedWidth()
      ensures t == Term(image, f, impacts, mode, top, left, row, column)
    {
      hide Residual;
      var at := row * IMPACT_SIZE + column;
      var r, c := residualRow + row, left + column;
      assert firstRow + r == top + row;
      t := impacts[(mode * 3 + 0) * IMPACT_AREA + at] * lh[r, c];
      t := t + impacts[(mode * 3 + 1) * IMPACT_AREA + at] * hl[r, c];
      t := t + impacts[(mode * 3 + 2) * IMPACT_AREA + at] * hh[r, c];
    }

    /** The window of one block, read out of the strip. */
    method Window(ghost image: Image, ghost f: Filters, impacts: Impacts, mode: nat, ghost top: nat, left: nat, residualRow: nat)
      returns (rho: real)
      requires image.Valid() && Holds(image, f) && mode < 64
      requires top == firstRow + residualRow && residualRow + IMPACT_SIZE <= rows && left + IMPACT_SIZE <= image.PaddedWidth()
      ensures rho == WindowSum(image, f, impacts, mode, top, left, IMPACT_SIZE)
    {
      hide Term, HoldsResidual;
      rho := 0.0;
      for row := 0 to IMPACT_SIZE
        invariant rho == WindowSum(image, f, impacts, mode, top, left, row)
      {
        for column := 0 to IMPACT_SIZE
          invariant rho == WindowSum(image, f, impacts, mode, top, left, row)
                           + RowSumOf(image, f, impacts, mode, top, left, row, column)
        {
          var t := TermAt(image, f, impacts, mode, top, left, residualRow, row, column);
          rho := rho + t;
        }
      }
    }
  }

  // ----- Where the windows lie -----

  lemma DivideGrows(a: nat, b: nat, d: nat)
    requires a <= b && d > 0
    ensures a / d <= b / d
  {
    QuotientBelow(a, b / d + 1, d);
    QuotientBelow(b, b / d + 1, d);
  }

  lemma RowsGrow(cover: Cover, a: nat, b: nat)
    requires cover.blocksWide >= 1 && a <= b
    ensures BlockRow(cover, a) <= BlockRow(cover, b)
  {
    DivideGrows(a / 64, b / 64, cover.blocksWide);
  }

  /** The first offset of a block row, and the offsets below it. */
  lemma BelowRow(cover: Cover, offset: nat, row: nat)
    requires cover.blocksWide >= 1
    ensures offset < row * cover.blocksWide * 64 <==> BlockRow(cover, offset) < row
  {
    var block, d := offset / 64, cover.blocksWide;
    assert offset < row * d * 64 <==> block < row * d;
    QuotientBelow(block, row, d);
  }

  lemma QuotientBelow(n: nat, q: nat, d: nat)
    requires d > 0
    ensures n < q * d <==> n / d < q
  {
    BelowMultiple(n, q, d, n / d, n % d);
  }

  /** A number with quotient `k` lies below q * d exactly when `k` is below `q`. */
  lemma BelowMultiple(n: nat, q: nat, d: nat, k: nat, rest: nat)
    requires n == k * d + rest && rest < d
    ensures n < q * d <==> k < q
  {
    if k < q { MultiplesGrow(k + 1, q, d); } else { MultiplesGrow(q, k, d); }
  }

  lemma MultiplesGrow(a: nat, b: nat, d: nat)
    requires a <= b
    ensures a * d <= b * d
  {
    assert (b - a) * d >= 0;
  }

  /** The strip for block rows `first` to `last` ends inside the padded image. */
  predicate StripRows(cover: Cover, first: nat, last: nat, firstRow: nat, rows: nat) {
    && first <= last < first + STRIP_BLOCK_ROWS
    && firstRow == first * 8 + IMPACT_ORIGIN && rows == (last - first) * 8 + IMPACT_SIZE
  }

  /** It holds the window of every block in between, and never more than 271 rows. */
  lemma StripHoldsWindows(cover: Cover, first: nat, last: nat, firstRow: nat, rows: nat, offset: nat)
    requires cover.Valid() && StripRows(cover, first, last, firstRow, rows)
    requires first <= BlockRow(cover, offset) <= last && offset < cover.coefficients && StartsInside(cover, offset)
    ensures var top, left := BlockRow(cover, offset) * 8 + IMPACT_ORIGIN, BlockColumn(cover, offset) * 8 + IMPACT_ORIGIN;
      && firstRow <= top && top - firstRow + IMPACT_SIZE <= rows && left + IMPACT_SIZE <= cover.image.PaddedWidth()
    ensures rows <= STRIP_MOST_ROWS
    ensures BlockRow(cover, offset) == last ==> firstRow + rows <= cover.image.PaddedHeight()
  {
    hide BlockRow, BlockColumn;
  }

  // ----- Visiting -----

  /** The slots of the visited keys carry their costs. */
  ghost predicate Costed(costs: array<real>, order: seq<nat>, from: nat, end: nat, selected: seq<U32>, cover: Cover, f: Filters,
                         impacts: Impacts)
    requires cover.Valid() && cover.image.Valid()
    reads costs
  {
    && costs.Length == |selected|
    && forall k :: from <= k < end && k < |order| && KeySlot(order[k]) < |selected| ==>
         costs[KeySlot(order[k])] == CostOf(cover, f, impacts, selected[KeySlot(order[k])])
  }

  lemma VisitOf(order: seq<nat>, selected: seq<U32>, k: nat)
    requires Visits(order, selected) && k < |order|
    ensures order[k] < MAX_U64 && KeySlot(order[k]) < |selected| && KeyOffset(order[k]) == selected[KeySlot(order[k])]
    ensures forall j :: k <= j < |order| ==> order[k] <= order[j]
  {
  }

  lemma SmallerKey(a: nat, b: nat)
    requires a <= b
    ensures KeyOffset(a) <= KeyOffset(b)
  {
  }

  /** Stores the cost of one visit. */
  method Store(costs: array<real>, order: seq<nat>, k: nat, cost: real, ghost from: nat, ghost selected: seq<U32>,
               ghost cover: Cover, ghost f: Filters, ghost impacts: Impacts)
    requires cover.Valid() && cover.image.Valid() && Visits(order, selected) && from <= k < |order|
    requires Costed(costs, order, from, k, selected, cover, f, impacts)
    requires cost == CostOf(cover, f, impacts, KeyOffset(order[k]))
    modifies costs
    ensures Costed(costs, order, from, k + 1, selected, cover, f, impacts)
    ensures forall lo: nat, hi: nat :: old(Costed(costs, order, lo, hi, selected, cover, f, impacts)) ==>
              Costed(costs, order, lo, hi, selected, cover, f, impacts)
  {
    hide CostOf, KeySlot, KeyOffset, Key, Visits;
    VisitOf(order, selected, k);
    costs[KeySlot(order[k])] := cost;
  }

  /** The visits of one strip lie in its block rows, inside the image. */
  ghost predicate InStrip(cover: Cover, order: seq<nat>, begin: nat, end: nat, first: nat, last: nat)
    requires cover.Valid()
  {
    && begin <= end <= |order|
    && forall k :: begin <= k < end ==>
         && KeyOffset(order[k]) < cover.coefficients && StartsInside(cover, KeyOffset(order[k]))
         && first <= BlockRow(cover, KeyOffset(order[k])) <= last
  }

  /** One visit: the block's window, weighted by the mode's quantizer and capped. */
  method CostAt(strip: ResidualStrip, cover: Cover, ghost f: Filters, impacts: Impacts, offset: nat, ghost first: nat, ghost last: nat)
    returns (cost: real)
    requires cover.Valid() && cover.image.Valid() && strip.Holds(cover.image, f)
    requires StripRows(cover, first, last, strip.firstRow, strip.rows)
    requires offset < cover.coefficients && StartsInside(cover, offset) && first <= BlockRow(cover, offset) <= last
    ensures cost == CostOf(cover, f, impacts, offset)
  {
    hide WindowSum, ResidualStrip.Holds, BlockRow, BlockColumn, StartsInside, StripRows;
    StripHoldsWindows(cover, first, last, strip.firstRow, strip.rows, offset);
    var mode := offset % 64;
    var blockRow, blockColumn := BlockRow(cover, offset), BlockColumn(cover, offset);
    var residualRow := blockRow * 8 + IMPACT_ORIGIN - strip.firstRow;
    var rho := strip.Window(cover.image, f, impacts, mode, blockRow * 8 + IMPACT_ORIGIN, blockColumn * 8 + IMPACT_ORIGIN, residualRow);
    cost := Capped(rho * cover.quantization[mode] as real);
  }

  /** Visits the keys of one strip. */
  method VisitStrip(strip: ResidualStrip, cover: Cover, ghost f: Filters, impacts: Impacts, order: seq<nat>,
                    ghost selected: seq<U32>, begin: nat, end: nat, ghost first: nat, ghost last: nat, costs: array<real>)
    requires cover.Valid() && cover.image.Valid() && strip.Holds(cover.image, f)
    requires StripRows(cover, first, last, strip.firstRow, strip.rows)
    requires Visits(order, selected) && InStrip(cover, order, begin, end, first, last)
    requires Costed(costs, order, 0, begin, selected, cover, f, impacts)
    modifies costs
    ensures Costed(costs, order, 0, end, selected, cover, f, impacts)
    ensures forall lo: nat, hi: nat :: old(Costed(costs, order, lo, hi, selected, cover, f, impacts)) ==>
              Costed(costs, order, lo, hi, selected, cover, f, impacts)
  {
    hide CostOf, Visits, Costed, KeyOffset, StripRows, ResidualStrip.Holds, StartsInside, BlockRow, BlockColumn;
    for visit := begin to end
      invariant strip.Holds(cover.image, f) && StripRows(cover, first, last, strip.firstRow, strip.rows)
      invariant Costed(costs, order, 0, visit, selected, cover, f, impacts)
      invariant forall lo: nat, hi: nat :: old(Costed(costs, order, lo, hi, selected, cover, f, impacts)) ==>
                  Costed(costs, order, lo, hi, selected, cover, f, impacts)
    {
      var cost := CostAt(strip, cover, f, impacts, KeyOffset(order[visit]), first, last);
      Store(costs, order, visit, cost, 0, selected, cover, f, impacts);
    }
  }

  /** The first offset 32 block rows below a block row. */
  function StripLimit(cover: Cover, first: nat): nat {
    (first + STRIP_BLOCK_ROWS) * cover.blocksWide * 64
  }

  ghost predicate SplitAt(order: seq<nat>, begin: nat, end: nat, inRange: nat, bound: nat) {
    && begin <= end <= inRange <= |order|
    && (forall k :: begin <= k < end ==> order[k] < bound)
    && (forall k :: end <= k < inRange ==> order[k] >= bound)
  }

  /** Where the strip begun at a key ends: at the first key 32 block rows further down. */
  lemma StripBounds(cover: Cover, order: seq<nat>, selected: seq<U32>, inRange: nat, begin: nat, end: nat)
    requires cover.Valid() && Visits(order, selected) && begin < inRange
    requires inRange <= |order|
    requires SplitAt(order, begin, end, inRange, KeyBound(StripLimit(cover, BlockRow(cover, KeyOffset(order[begin])))))
    requires forall k :: 0 <= k < inRange ==> KeyOffset(order[k]) < cover.coefficients
    requires forall s :: 0 <= s < |selected| ==> StartsInside(cover, selected[s])
    ensures begin < end
    ensures var first, last := BlockRow(cover, KeyOffset(order[begin])), BlockRow(cover, KeyOffset(order[end - 1]));
      && InStrip(cover, order, begin, end, first, last)
      && first <= last < first + STRIP_BLOCK_ROWS
      && (last - first) * 8 + IMPACT_SIZE + first * 8 + IMPACT_ORIGIN <= cover.image.PaddedHeight()
  {
    hide Visits, KeyBound, KeyOffset, BlockRow, BlockColumn, KeySlot;
    var first := BlockRow(cover, KeyOffset(order[begin]));
    var limit := StripLimit(cover, first);
    forall k | begin <= k < inRange
      ensures order[k] < KeyBound(limit) <==> BlockRow(cover, KeyOffset(order[k])) < first + STRIP_BLOCK_ROWS
    {
      VisitOf(order, selected, k);
      BoundSeparates(order[k], limit);
      BelowRow(cover, KeyOffset(order[k]), first + STRIP_BLOCK_ROWS);
    }
    assert begin < end;
    var last := BlockRow(cover, KeyOffset(order[end - 1]));
    forall k | begin <= k < end
      ensures StartsInside(cover, KeyOffset(order[k])) && first <= BlockRow(cover, KeyOffset(order[k])) <= last
    {
      VisitOf(order, selected, begin);
      VisitOf(order, selected, k);
      SmallerKey(order[begin], order[k]);
      SmallerKey(order[k], order[end - 1]);
      RowsGrow(cover, KeyOffset(order[begin]), KeyOffset(order[k]));
      RowsGrow(cover, KeyOffset(order[k]), KeyOffset(order[end - 1]));
    }
    InsideRow(cover, KeyOffset(order[end - 1]));
  }

  lemma InsideRow(cover: Cover, offset: nat)
    requires cover.Valid() && offset < cover.coefficients && StartsInside(cover, offset)
    ensures BlockRow(cover, offset) * 8 < cover.image.height
  {
  }

  /** Costs every key below the coefficient count, strip after strip. */
  method CostStrips(cover: Cover, f: Filters, impacts: Impacts, order: seq<nat>, selected: seq<U32>, inRange: nat, costs: array<real>)
    returns (r: Result<(), CostError>)
    requires cover.Valid() && cover.image.Valid() && Visits(order, selected) && inRange <= |order|
    requires forall k :: 0 <= k < inRange ==> KeyOffset(order[k]) < cover.coefficients
    requires forall s :: 0 <= s < |selected| ==> StartsInside(cover, selected[s])
    requires Costed(costs, order, 0, 0, selected, cover, f, impacts)
    modifies costs
    ensures r.Ok? && Costed(costs, order, 0, inRange, selected, cover, f, impacts)
    ensures forall lo: nat, hi: nat :: old(Costed(costs, order, lo, hi, selected, cover, f, impacts)) ==>
              Costed(costs, order, lo, hi, selected, cover, f, impacts)
  {
    hide CostOf, Visits, Costed, KeyOffset, KeyBound, ResidualStrip.Holds, StartsInside, BlockRow, InStrip, Ordered, StripLimit;
    var strip := new ResidualStrip();
    var stripBegin := 0;
    while stripBegin < inRange
      invariant stripBegin <= inRange
      invariant Costed(costs, order, 0, stripBegin, selected, cover, f, impacts)
      invariant forall lo: nat, hi: nat :: old(Costed(costs, order, lo, hi, selected, cover, f, impacts)) ==>
                  Costed(costs, order, lo, hi, selected, cover, f, impacts)
    {
      var first := BlockRow(cover, KeyOffset(order[stripBegin]));
      var bound := KeyBound(StripLimit(cover, first));
      OrderOf(order, selected);
      var stripEnd := LowerBound(order, stripBegin, inRange, bound);
      StripBounds(cover, order, selected, inRange, stripBegin, stripEnd);
      var last := BlockRow(cover, KeyOffset(order[stripEnd - 1]));
      var firstRow, rows := first * 8 + IMPACT_ORIGIN, (last - first) * 8 + IMPACT_SIZE;
      if firstRow + rows > cover.image.PaddedHeight() {
        return Err(WindowTooLarge);
      }
      strip.Fill(cover.image, f, firstRow, rows);
      VisitStrip(strip, cover, f, impacts, order, selected, stripBegin, stripEnd, first, last, costs);
      stripBegin := stripEnd;
    }
    return Ok(());
  }

  lemma OrderOf(order: seq<nat>, selected: seq<U32>)
    requires Visits(order, selected)
    ensures Ordered(order)
  {
  }

  /** Checks every selected coefficient's block and makes its key. */
  method MakeKeys(cover: Cover, selected: seq<U32>) returns (r: Result<seq<nat>, CostError>)
    requires cover.Valid() && |selected| < TWO_TO_32
    ensures r.Ok? <==> forall s :: 0 <= s < |selected| ==> StartsInside(cover, selected[s])
    ensures r == if r.Ok? then Ok(KeysOf(selected, |selected|)) else Err(OutsideImage)
  {
    hide Key, StartsInside;
    var keys: seq<nat> := [];
    for slot := 0 to |selected|
      invariant keys == KeysOf(selected, slot)
      invariant forall s :: 0 <= s < slot ==> StartsInside(cover, selected[s])
    {
      if !StartsInside(cover, selected[slot]) {
        return Err(OutsideImage);
      }
      keys := keys + [Key(selected[slot], slot)];
    }
    return Ok(keys);
  }

  /** The keys from `inRange` on are past the coefficients: their slots are wet. */
  method CostWet(cover: Cover, ghost f: Filters, ghost impacts: Impacts, order: seq<nat>, selected: seq<U32>, inRange: nat,
                 costs: array<real>)
    requires cover.Valid() && cover.image.Valid() && Visits(order, selected) && inRange <= |order| && costs.Length == |selected|
    requires forall k :: inRange <= k < |order| ==> KeyOffset(order[k]) >= cover.coefficients
    modifies costs
    ensures Costed(costs, order, inRange, |order|, selected, cover, f, impacts)
  {
    hide KeyOffset, KeySlot, WindowSum, Visits;
    for k := inRange to |order|
      invariant Costed(costs, order, inRange, k, selected, cover, f, impacts)
    {
      Store(costs, order, k, WET, inRange, selected, cover, f, impacts);
    }
  }

  /** Every slot is visited, so every cost is there. */
  lemma AllCosted(costs: array<real>, order: seq<nat>, inRange: nat, selected: seq<U32>, cover: Cover, f: Filters, impacts: Impacts)
    requires cover.Valid() && cover.image.Valid() && Visits(order, selected) && inRange <= |order|
    requires Costed(costs, order, 0, inRange, selected, cover, f, impacts)
    requires Costed(costs, order, inRange, |order|, selected, cover, f, impacts)
    ensures costs.Length == |selected| && forall s :: 0 <= s < |selected| ==> costs[s] == CostOf(cover, f, impacts, selected[s])
  {
    hide CostOf, Key, KeySlot, KeyOffset, Ordered;
    forall s | 0 <= s < |selected| ensures costs[s] == CostOf(cover, f, impacts, selected[s]) {
      assert Key(selected[s], s) in order;
      var k :| 0 <= k < |order| && order[k] == Key(selected[s], s);
      KeyParts(selected[s], s);
    }
  }

  lemma RangeSplit(order: seq<nat>, selected: seq<U32>, inRange: nat, limit: nat)
    requires Visits(order, selected) && SplitAt(order, 0, inRange, |order|, KeyBound(limit))
    ensures forall k :: 0 <= k < inRange ==> KeyOffset(order[k]) < limit
    ensures forall k :: inRange <= k < |order| ==> KeyOffset(order[k]) >= limit
  {
    hide KeyBound, KeyOffset, KeySlot, Visits;
    forall k | 0 <= k < |order| ensures order[k] < KeyBound(limit) <==> KeyOffset(order[k]) < limit {
      VisitOf(order, selected, k);
      BoundSeparates(order[k], limit);
    }
  }

  /**
    The costs by strips are the costs by whole image, slot for slot, whatever the
    order of the selection; it fails only on a wrong luminance size, more slots than
    the keys can name, or a block outside the image.
   */
  method ComputeCosts(cover: Cover, f: Filters, impacts: Impacts, selected: seq<U32>) returns (r: Result<array<real>, CostError>)
    requires cover.Valid()
    ensures r.Err? ==> r.error ==
                       if |cover.image.pixels| != cover.image.width * cover.image.height then WrongLuminanceSize
                       else if |selected| >= TWO_TO_32 then TooManySelected else OutsideImage
    ensures r.Ok? <==> cover.image.Valid() && |selected| < TWO_TO_32 &&
                       forall s :: 0 <= s < |selected| ==> StartsInside(cover, selected[s])
    ensures r.Ok? ==> fresh(r.value) && r.value.Length == |selected| &&
                      forall s :: 0 <= s < |selected| ==> r.value[s] == CostOf(cover, f, impacts, selected[s])
    ensures r.Ok? ==> forall mode, band, row, column, s ::
                        && 0 <= mode < 64 && 0 <= band < 3 && 0 <= row < IMPACT_SIZE && 0 <= column < IMPACT_SIZE
                        && SingleImpact(impacts, mode, band, row, column) && 0 <= s < |selected| ==>
                        r.value[s] == SingleCost(cover, f, mode, band, row, column, selected[s])
  {
    hide CostOf, StartsInside, Visits, KeyOffset, KeyBound, Costed, Ordered;
    if |cover.image.pixels| != cover.image.width * cover.image.height {
      return Err(WrongLuminanceSize);
    }
    if |selected| >= TWO_TO_32 {
      return Err(TooManySelected);
    }
    var keys := MakeKeys(cover, selected);
    if keys.Err? {
      return Err(keys.error);
    }
    var order := Sort(keys.value);
    SortedVisits(order, selected);
    var inRange := LowerBound(order, 0, |order|, KeyBound(cover.coefficients));
    RangeSplit(order, selected, inRange, cover.coefficients);
    var costs := new real[|selected|](_ => 0.0);
    CostWet(cover, f, impacts, order, selected, inRange, costs);
    NoneCosted(costs, order, selected, cover, f, impacts);
    var done := CostStrips(cover, f, impacts, order, selected, inRange, costs);
    AllCosted(costs, order, inRange, selected, cover, f, impacts);
    AllSingle(cover, f, impacts, selected, costs[..]);
    return Ok(costs);
  }

  lemma AllSingle(cover: Cover, f: Filters, impacts: Impacts, selected: seq<U32>, costs: seq<real>)
    requires cover.Valid() && cover.image.Valid() && |costs| == |selected|
    requires forall s :: 0 <= s < |selected| ==> costs[s] == CostOf(cover, f, impacts, selected[s])
    ensures forall mode, band, row, column, s ::
      && 0 <= mode < 64 && 0 <= band < 3 && 0 <= row < IMPACT_SIZE && 0 <= column < IMPACT_SIZE
      && SingleImpact(impacts, mode, band, row, column) && 0 <= s < |selected| ==>
      costs[s] == SingleCost(cover, f, mode, band, row, column, selected[s])
  {
    hide CostOf, SingleCost, SingleImpact;
    forall mode, band, row, column, s |
      && 0 <= mode < 64 && 0 <= band < 3 && 0 <= row < IMPACT_SIZE && 0 <= column < IMPACT_SIZE
      && SingleImpact(impacts, mode, band, row, column) && 0 <= s < |selected|
      ensures costs[s] == SingleCost(cover, f, mode, band, row, column, selected[s])
    {
      SingleImpactCosts(cover, f, impacts, mode, band, row, column, selected[s]);
    }
  }

  lemma NoneCosted(costs: array<real>, order: seq<nat>, selected: seq<U32>, cover: Cover, f: Filters, impacts: Impacts)
    requires cover.Valid() && cover.image.Valid() && costs.Length == |selected|
    ensures Costed(costs, order, 0, 0, selected, cover, f, impacts)
  {
  }
}
