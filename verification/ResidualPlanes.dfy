/**
  The directional residuals behind the embedding costs: the luminance is mirrored
  outwards, filtered down the columns and then along the rows. The reference is the
  whole padded image; the strips compute stretches of its rows.
 */
module ResidualPlanes {
  import opened Results
  import opened Bytes

  const TAPS: nat := 16
  const REACH_UP: nat := 8
  const REACH_DOWN: nat := 7
  const PADDING: nat := 16
  const SIGMA: real := 0.015625

  datatype CostError = BadDimension | WrongLuminanceSize | TooManySelected | OutsideImage | WindowTooLarge

  datatype Image = Image(width: nat, height: nat, pixels: seq<Byte>) {
    predicate Valid() {
      width >= 1 && height >= 1 && |pixels| == width * height
    }

    function PaddedWidth(): nat { width + 2 * PADDING }

    function PaddedHeight(): nat { height + 2 * PADDING }
  }

  /** A filter has 16 taps. */
  type Filter = f: seq<real> | |f| == TAPS witness
    [0.0, 0.0, 0.0, 0.0, 0.0, 0.0, 0.0, 0.0, 0.0, 0.0, 0.0, 0.0, 0.0, 0.0, 0.0, 0.0]

  datatype Filters = Filters(low: Filter, high: Filter)

  // ----- Mirroring -----

  /** The mirror image of an index: the pixels repeat forwards and backwards with period 2 * length. */
  function Mirrored(index: int, length: nat): (m: nat)
    requires length > 0
    ensures m < length
  {
    var phase := index % (2 * length);
    if phase < length then phase else 2 * length - 1 - phase
  }

  lemma FarMultiple(d: int, period: int)
    requires period > 0
    ensures d >= 1 ==> d * period >= period
    ensures d <= -1 ==> d * period <= -period
  {
    if d >= 1 { assert (d - 1) * period >= 0; }
    if d <= -1 { assert (-d - 1) * period >= 0; }
  }

  lemma SameRest(d: int, period: int, difference: int)
    requires d * period == difference && -period < difference < period
    ensures difference == 0
  {
    FarMultiple(d, period);
  }

  lemma PhaseOf(index: int, period: nat, quotient: int, rest: nat)
    requires period > 0 && index == quotient * period + rest && rest < period
    ensures index % period == rest
  {
    var q, r := Divided(index, period);
    assert (q - quotient) * period == q * period - quotient * period;
    SameRest(q - quotient, period, rest - r);
  }

  lemma Divided(index: int, period: nat) returns (q: int, r: nat)
    requires period > 0
    ensures r == index % period < period && index == q * period + r
  {
    q, r := index / period, index % period;
  }

  /** Reflecting at either edge does not change the mirror image. */
  lemma MirroredAtEdges(index: int, length: nat)
    requires length > 0
    ensures Mirrored(-index - 1, length) == Mirrored(index, length)
    ensures Mirrored(2 * length - index - 1, length) == Mirrored(index, length)
    ensures 0 <= index < length ==> Mirrored(index, length) == index
  {
    var p := 2 * length;
    var q, r := index / p, index % p;
    assert index == q * p + r;
    assert -index - 1 == (-q - 1) * p + (p - 1 - r);
    PhaseOf(-index - 1, p, -q - 1, p - 1 - r);
    assert p - index - 1 == (-q) * p + (p - 1 - r);
    PhaseOf(p - index - 1, p, -q, p - 1 - r);
    if 0 <= index < length { PhaseOf(index, p, 0, index); }
  }

  /** Reflects until the index is inside; an empty dimension is refused. */
  method ReflectIndex(index: int, length: int) returns (r: Result<nat, CostError>)
    ensures r == if length <= 0 then Err(BadDimension) else Ok(Mirrored(index, length))
  {
    if length <= 0 {
      return Err(BadDimension);
    }
    var i := index;
    while i < 0 || i >= length
      invariant Mirrored(i, length) == Mirrored(index, length)
      decreases if i < 0 then -2 * i else 2 * i + 1
    {
      MirroredAtEdges(i, length);
      if i < 0 {
        i := -i - 1;
      } else {
        i := 2 * length - i - 1;
      }
    }
    MirroredAtEdges(i, length);
    return Ok(i);
  }

  // ----- The whole image -----

  function PixelAt(image: Image, row: nat, column: nat): Byte
    requires image.Valid() && row < image.height && column < image.width
  {
    PixelInside(image.width, image.height, row, column);
    image.pixels[row * image.width + column]
  }

  lemma PixelInside(width: nat, height: nat, row: nat, column: nat)
    requires row < height && column < width
    ensures row * width + column < width * height
  {
    assert (row + 1) * width <= height * width;
  }

  /** The padded image. */
  function Padded(image: Image, row: nat, column: nat): Byte
    requires image.Valid()
  {
    PixelAt(image, Mirrored(row - PADDING, image.height), Mirrored(column - PADDING, image.width))
  }

  /** The first `n` taps down a column; rows outside the padded image count nothing. */
  function DownColumn(image: Image, filter: Filter, row: nat, column: nat, n: nat): real
    requires image.Valid() && n <= TAPS
  {
    if n == 0 then 0.0
    else
      var source := row + n - 1 - REACH_UP;
      DownColumn(image, filter, row, column, n - 1)
      + if 0 <= source < image.PaddedHeight() then Padded(image, source, column) as real * filter[n - 1] else 0.0
  }

  function Vertical(image: Image, filter: Filter, row: nat, column: nat): real
    requires image.Valid()
  {
    DownColumn(image, filter, row, column, TAPS)
  }

  /** The first `n` taps along a row of the vertical result. */
  function AlongRow(image: Image, down: Filter, along: Filter, row: nat, column: nat, n: nat): real
    requires image.Valid() && n <= TAPS
  {
    if n == 0 then 0.0
    else
      var source := column + n - 1 - REACH_UP;
      AlongRow(image, down, along, row, column, n - 1)
      + if 0 <= source < image.PaddedWidth() then Vertical(image, down, row, source) * along[n - 1] else 0.0
  }

  function Abs(x: real): real {
    if x < 0.0 then -x else x
  }

  /** The reciprocal of a residual's magnitude, kept off zero. */
  function Reciprocal(x: real): real {
    1.0 / (Abs(x) + SIGMA)
  }

  function Residual(image: Image, down: Filter, along: Filter, row: nat, column: nat): real
    requires image.Valid()
  {
    Reciprocal(AlongRow(image, down, along, row, column, TAPS))
  }

  // ----- What a residual measures -----

  /** A filter with a single tap. */
  predicate SingleTap(filter: Filter, tap: nat, weight: real)
    requires tap < TAPS
  {
    forall k :: 0 <= k < TAPS ==> filter[k] == if k == tap then weight else 0.0
  }

  /** Tap `tap` of a filter looks `tap` - 8 positions on; outside the padded image there is nothing to see. */
  function Seen(image: Image, row: int, column: int): real
    requires image.Valid()
  {
    if 0 <= row < image.PaddedHeight() && 0 <= column < image.PaddedWidth() then Padded(image, row, column) as real else 0.0
  }

  lemma {:induction false} SingleTapDown(image: Image, filter: Filter, tap: nat, weight: real, row: nat, column: nat, n: nat)
    requires image.Valid() && tap < TAPS && SingleTap(filter, tap, weight) && n <= TAPS && column < image.PaddedWidth()
    ensures DownColumn(image, filter, row, column, n)
         == if tap < n then weight * Seen(image, row + tap - 8, column) else 0.0
  {
    hide Padded;
    if n > 0 { SingleTapDown(image, filter, tap, weight, row, column, n - 1); }
  }

  lemma {:induction false} SingleTapAlong(image: Image, down: Filter, along: Filter, tap: nat, weight: real,
                                          row: nat, column: nat, n: nat)
    requires image.Valid() && tap < TAPS && SingleTap(along, tap, weight) && n <= TAPS
    ensures AlongRow(image, down, along, row, column, n)
         == if tap < n && 0 <= column + tap - 8 < image.PaddedWidth()
            then weight * Vertical(image, down, row, column + tap - 8) else 0.0
  {
    hide Vertical;
    if n > 0 { SingleTapAlong(image, down, along, tap, weight, row, column, n - 1); }
  }

  /** With one tap each way, the residual is the reciprocal of the one pixel the taps look at. */
  lemma SingleTapResidual(image: Image, down: Filter, along: Filter, i: nat, j: nat, v: real, w: real, row: nat, column: nat)
    requires image.Valid() && i < TAPS && j < TAPS && SingleTap(down, i, v) && SingleTap(along, j, w)
    ensures var x := w * (v * Seen(image, row + i - 8, column + j - 8));
      Residual(image, down, along, row, column) == 1.0 / ((if x < 0.0 then -x else x) + 0.015625)
  {
    hide Padded, SingleTap, AlongRow, Vertical;
    SingleTapAlong(image, down, along, j, w, row, column, TAPS);
    if 0 <= column + j - 8 < image.PaddedWidth() { SingleTapVertical(image, down, i, v, row, column + j - 8); }
    NothingSeen(v, w);
  }

  lemma SingleTapVertical(image: Image, filter: Filter, tap: nat, weight: real, row: nat, column: nat)
    requires image.Valid() && tap < TAPS && SingleTap(filter, tap, weight) && column < image.PaddedWidth()
    ensures Vertical(image, filter, row, column) == weight * Seen(image, row + tap - 8, column)
  {
    hide DownColumn, Seen;
    SingleTapDown(image, filter, tap, weight, row, column, TAPS);
  }

  lemma NothingSeen(v: real, w: real)
    ensures w * (v * 0.0) == 0.0
  {
  }

  /** The taps of one filter are the sums of those of two others. */
  predicate TapsAdd(a: Filter, b: Filter, sum: Filter) {
    forall k :: 0 <= k < TAPS ==> sum[k] == a[k] + b[k]
  }

  /** What is filtered adds up over the taps, down the columns. */
  lemma {:induction false} DownAdds(image: Image, a: Filter, b: Filter, sum: Filter, row: nat, column: nat, n: nat)
    requires image.Valid() && TapsAdd(a, b, sum) && n <= TAPS
    ensures DownColumn(image, sum, row, column, n) == DownColumn(image, a, row, column, n) + DownColumn(image, b, row, column, n)
  {
    hide Padded;
    if n > 0 {
      DownAdds(image, a, b, sum, row, column, n - 1);
      var source := row + n - 1 - REACH_UP;
      if 0 <= source < image.PaddedHeight() { Distributes(Padded(image, source, column) as real, a[n - 1], b[n - 1]); }
    }
  }

  lemma Distributes(x: real, a: real, b: real)
    ensures x * (a + b) == x * a + x * b && (a + b) * x == a * x + b * x
  {
  }

  /** And along the rows, over either filter. */
  lemma {:induction false} AlongAdds(image: Image, down: Filter, a: Filter, b: Filter, sum: Filter, row: nat, column: nat, n: nat)
    requires image.Valid() && TapsAdd(a, b, sum) && n <= TAPS
    ensures AlongRow(image, down, sum, row, column, n)
         == AlongRow(image, down, a, row, column, n) + AlongRow(image, down, b, row, column, n)
    ensures AlongRow(image, sum, down, row, column, n)
         == AlongRow(image, a, down, row, column, n) + AlongRow(image, b, down, row, column, n)
  {
    hide Vertical;
    if n > 0 {
      AlongAdds(image, down, a, b, sum, row, column, n - 1);
      var source := column + n - 1 - REACH_UP;
      if 0 <= source < image.PaddedWidth() {
        VerticalAdds(image, a, b, sum, row, source);
        Distributes(Vertical(image, down, row, source), a[n - 1], b[n - 1]);
        Distributes(down[n - 1], Vertical(image, a, row, source), Vertical(image, b, row, source));
      }
    }
  }

  lemma VerticalAdds(image: Image, a: Filter, b: Filter, sum: Filter, row: nat, column: nat)
    requires image.Valid() && TapsAdd(a, b, sum)
    ensures Vertical(image, sum, row, column) == Vertical(image, a, row, column) + Vertical(image, b, row, column)
  {
    DownAdds(image, a, b, sum, row, column, TAPS);
  }

  // ----- Strips -----

  /** A stretch of padded rows. */
  ghost predicate HoldsPadded(image: Image, padded: array2<Byte>, first: nat)
    requires image.Valid()
    reads padded
  {
    && padded.Length1 == image.PaddedWidth()
    && forall r, c :: 0 <= r < padded.Length0 && 0 <= c < padded.Length1 ==> padded[r, c] == Padded(image, first + r, c)
  }

  ghost predicate HoldsVertical(image: Image, filter: Filter, plane: array2<real>, first: nat)
    requires image.Valid()
    reads plane
  {
    && plane.Length1 == image.PaddedWidth()
    && forall r, c :: 0 <= r < plane.Length0 && 0 <= c < plane.Length1 ==> plane[r, c] == Vertical(image, filter, first + r, c)
  }

  ghost predicate HoldsResidual(image: Image, down: Filter, along: Filter, plane: array2<real>, first: nat)
    requires image.Valid()
    reads plane
  {
    && plane.Length1 == image.PaddedWidth()
    && forall r, c :: 0 <= r < plane.Length0 && 0 <= c < plane.Length1 ==>
         plane[r, c] == Residual(image, down, along, first + r, c)
  }

  method FillPadded(image: Image, first: nat, rows: nat) returns (padded: array2<Byte>)
    requires image.Valid()
    ensures fresh(padded) && padded.Length0 == rows && HoldsPadded(image, padded, first)
  {
    hide Padded, PixelAt, Mirrored;
    padded := new Byte[rows, image.PaddedWidth()];
    for row := 0 to rows
      invariant forall r, c :: 0 <= r < row && 0 <= c < padded.Length1 ==> padded[r, c] == Padded(image, first + r, c)
    {
      FillPaddedRow(image, first, padded, row);
    }
  }

  method FillPaddedRow(image: Image, first: nat, padded: array2<Byte>, row: nat)
    requires image.Valid() && row < padded.Length0 && padded.Length1 == image.PaddedWidth()
    modifies padded
    ensures forall c :: 0 <= c < padded.Length1 ==> padded[row, c] == Padded(image, first + row, c)
    ensures forall r, c :: 0 <= r < padded.Length0 && r != row && 0 <= c < padded.Length1 ==> padded[r, c] == old(padded[r, c])
  {
    hide PixelAt, Mirrored;
    var originalRow := ReflectIndex(first + row - PADDING, image.height);
    for column := 0 to padded.Length1
      invariant forall c :: 0 <= c < column ==> padded[row, c] == Padded(image, first + row, c)
      invariant forall r, c :: 0 <= r < padded.Length0 && r != row && 0 <= c < padded.Length1 ==> padded[r, c] == old(padded[r, c])
    {
      var originalColumn := ReflectIndex(column - PADDING, image.width);
      padded[row, column] := PixelAt(image, originalRow.value, originalColumn.value);
    }
  }

  /** The rows a strip's vertical pass reads are the rows it holds, cut at the image's edges. */
  ghost predicate Reaches(image: Image, paddedFirst: nat, paddedRows: nat, first: nat, rows: nat) {
    && paddedFirst == (if first >= REACH_UP then first - REACH_UP else 0)
    && paddedFirst + paddedRows
       == (if first + rows + REACH_DOWN < image.PaddedHeight() then first + rows + REACH_DOWN else image.PaddedHeight())
  }

  method ColumnSum(ghost image: Image, padded: array2<Byte>, paddedFirst: nat, height: nat, filter: Filter,
                   row: nat, column: nat, ghost first: nat, ghost rows: nat)
    returns (sum: real)
    requires image.Valid() && height == image.PaddedHeight() && HoldsPadded(image, padded, paddedFirst)
    requires Reaches(image, paddedFirst, padded.Length0, first, rows) && first <= row < first + rows <= height
    requires column < padded.Length1
    ensures sum == Vertical(image, filter, row, column)
  {
    hide Padded;
    sum := 0.0;
    for tap := 0 to TAPS
      invariant sum == DownColumn(image, filter, row, column, tap)
    {
      var sourceRow := row + tap - REACH_UP;
      if 0 <= sourceRow < height {
        sum := sum + padded[sourceRow - paddedFirst, column] as real * filter[tap];
      }
    }
  }

  method VerticalCorrelation(ghost image: Image, padded: array2<Byte>, paddedFirst: nat, height: nat, filter: Filter,
                             first: nat, rows: nat)
    returns (output: array2<real>)
    requires image.Valid() && height == image.PaddedHeight() && HoldsPadded(image, padded, paddedFirst)
    requires Reaches(image, paddedFirst, padded.Length0, first, rows) && first + rows <= height
    ensures fresh(output) && output.Length0 == rows && HoldsVertical(image, filter, output, first)
  {
    hide Padded, Vertical, HoldsPadded, Reaches;
    var width := padded.Length1;
    WidthOf(image, padded, paddedFirst);
    output := new real[rows, width];
    for row := 0 to rows
      invariant HoldsPadded(image, padded, paddedFirst)
      invariant forall r, c :: 0 <= r < row && 0 <= c < width ==> output[r, c] == Vertical(image, filter, first + r, c)
    {
      for column := 0 to width
        invariant HoldsPadded(image, padded, paddedFirst)
        invariant forall r, c :: 0 <= r < row && 0 <= c < width ==> output[r, c] == Vertical(image, filter, first + r, c)
        invariant forall c :: 0 <= c < column ==> output[row, c] == Vertical(image, filter, first + row, c)
      {
        output[row, column] := ColumnSum(image, padded, paddedFirst, height, filter, first + row, column, first, rows);
      }
    }
  }

  lemma WidthOf(image: Image, padded: array2<Byte>, first: nat)
    requires image.Valid() && HoldsPadded(image, padded, first)
    ensures padded.Length1 == image.PaddedWidth()
  {
  }

  method RowSum(ghost image: Image, ghost down: Filter, vertical: array2<real>, filter: Filter, row: nat, column: nat,
                ghost first: nat)
    returns (sum: real)
    requires image.Valid() && HoldsVertical(image, down, vertical, first) && row < vertical.Length0 && column < vertical.Length1
    ensures sum == AlongRow(image, down, filter, first + row, column, TAPS)
  {
    hide Vertical;
    sum := 0.0;
    for tap := 0 to TAPS
      invariant sum == AlongRow(image, down, filter, first + row, column, tap)
    {
      var sourceColumn := column + tap - REACH_UP;
      if 0 <= sourceColumn < vertical.Length1 {
        sum := sum + vertical[row, sourceColumn] * filter[tap];
      }
    }
  }

  method HorizontalReciprocal(ghost image: Image, ghost down: Filter, vertical: array2<real>, filter: Filter, ghost first: nat)
    returns (output: array2<real>)
    requires image.Valid() && HoldsVertical(image, down, vertical, first)
    ensures fresh(output) && output.Length0 == vertical.Length0 && HoldsResidual(image, down, filter, output, first)
  {
    hide Vertical, HoldsVertical, AlongRow, Reciprocal;
    var rows, width := vertical.Length0, vertical.Length1;
    VerticalWidth(image, down, vertical, first);
    output := new real[rows, width];
    for row := 0 to rows
      invariant HoldsVertical(image, down, vertical, first)
      invariant forall r, c :: 0 <= r < row && 0 <= c < width ==> output[r, c] == Residual(image, down, filter, first + r, c)
    {
      for column := 0 to width
        invariant HoldsVertical(image, down, vertical, first)
        invariant forall r, c :: 0 <= r < row && 0 <= c < width ==> output[r, c] == Residual(image, down, filter, first + r, c)
        invariant forall c :: 0 <= c < column ==> output[row, c] == Residual(image, down, filter, first + row, c)
      {
        var sum := RowSum(image, down, vertical, filter, row, column, first);
        output[row, column] := Reciprocal(sum);
      }
    }
  }

  lemma VerticalWidth(image: Image, filter: Filter, plane: array2<real>, first: nat)
    requires image.Valid() && HoldsVertical(image, filter, plane, first)
    ensures plane.Length1 == image.PaddedWidth()
  {
  }
}
