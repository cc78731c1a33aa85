/**
  The carrier candidates: every luminance coefficient of an image that is not a
  DC term and whose pixel lies inside the image. The enumeration is the definition;
  CandidateOffsets maps an index into it by arithmetic alone.
 */
module CandidateOffsets {
  import opened Results

  const TWO_TO_32: nat := 0x1_0000_0000

  datatype ImageInfo = ImageInfo(width: nat, height: nat, yBlocksWide: nat, yBlocksHigh: nat)

  datatype GeometryError = NoBlocks | WrongCoefficientCount | TooManyPixels | OffsetTooLarge

  /** The first coefficient of a block. */
  function BlockBase(info: ImageInfo, blockRow: nat, blockColumn: nat): nat {
    (blockRow * info.yBlocksWide + blockColumn) * 64
  }

  /** How many of a block's 8 pixel rows (columns) lie inside the image. */
  function Visible(extent: nat, block: nat): nat {
    if extent <= block * 8 then 0 else if extent - block * 8 < 8 then extent - block * 8 else 8
  }

  // ----- The enumeration, loop by loop -----

  predicate IsCandidate(info: ImageInfo, blockRow: nat, blockColumn: nat, row: nat, column: nat) {
    && blockRow * 8 + row < info.height
    && blockColumn * 8 + column < info.width
    && !(row == 0 && column == 0)
  }

  /** Candidates in the first `k` columns of one pixel row of a block. */
  function Pixels(info: ImageInfo, blockRow: nat, blockColumn: nat, row: nat, k: nat): seq<nat> {
    if k == 0 then []
    else if IsCandidate(info, blockRow, blockColumn, row, k - 1) then
      Pixels(info, blockRow, blockColumn, row, k - 1) + [BlockBase(info, blockRow, blockColumn) + row * 8 + (k - 1)]
    else Pixels(info, blockRow, blockColumn, row, k - 1)
  }

  /** Candidates in the first `k` pixel rows of a block. */
  function PixelRows(info: ImageInfo, blockRow: nat, blockColumn: nat, k: nat): seq<nat> {
    if k == 0 then []
    else PixelRows(info, blockRow, blockColumn, k - 1) + Pixels(info, blockRow, blockColumn, k - 1, 8)
  }

  /** Candidates in the first `k` blocks of a block row. */
  function Blocks(info: ImageInfo, blockRow: nat, k: nat): seq<nat> {
    if k == 0 then [] else Blocks(info, blockRow, k - 1) + PixelRows(info, blockRow, k - 1, 8)
  }

  /** Candidates in the first `k` block rows. */
  function BlockRows(info: ImageInfo, k: nat): seq<nat> {
    if k == 0 then [] else BlockRows(info, k - 1) + Blocks(info, k - 1, info.yBlocksWide)
  }

  function Candidates(info: ImageInfo): seq<nat> {
    BlockRows(info, info.yBlocksHigh)
  }

  // ----- Closed forms, level by level -----

  lemma {:induction false} PixelsAre(info: ImageInfo, blockRow: nat, blockColumn: nat, row: nat, k: nat)
    requires row < 8 && k <= 8
    ensures var r, c := Visible(info.height, blockRow), Visible(info.width, blockColumn);
      var seen := if k < c then k else c;
      var s := Pixels(info, blockRow, blockColumn, row, k);
      var base := BlockBase(info, blockRow, blockColumn);
      if row >= r || seen == 0 then s == []
      else if row == 0 then |s| == seen - 1 && forall i :: 0 <= i < |s| ==> s[i] == base + 1 + i
      else |s| == seen && forall i :: 0 <= i < |s| ==> s[i] == base + row * 8 + i
  {
    if k > 0 { PixelsAre(info, blockRow, blockColumn, row, k - 1); }
  }

  /** Position `row`, `column` of an r-by-c grid, counted after the DC term at 0, 0. */
  function GridRank(row: nat, column: nat, c: nat): int {
    row * c + column - 1
  }

  /** The offsets of an r-by-c grid of pixels, row by row, without the DC term. */
  ghost predicate IsGrid(s: seq<nat>, r: nat, c: nat, base: nat) {
    if r == 0 || c == 0 then s == []
    else
      && |s| == r * c - 1
      && forall row, column {:trigger GridRank(row, column, c)} ::
           0 <= row < r && 0 <= column < c && !(row == 0 && column == 0) ==>
           0 <= GridRank(row, column, c) < |s| && s[GridRank(row, column, c)] == base + row * 8 + column
  }

  /** One more row. */
  lemma GridGrows(s: seq<nat>, line: seq<nat>, r: nat, c: nat, base: nat, size: nat)
    requires IsGrid(s, r, c, base) && c > 0 && size == r * c
    requires |line| == (if r == 0 then c - 1 else c)
    requires forall i :: 0 <= i < |line| ==> line[i] == base + r * 8 + i + (if r == 0 then 1 else 0)
    ensures IsGrid(s + line, r + 1, c, base)
  {
    assert (r + 1) * c == size + c;
    forall row, column {:trigger GridRank(row, column, c)} | 0 <= row < r + 1 && 0 <= column < c && !(row == 0 && column == 0)
      ensures 0 <= GridRank(row, column, c) < |s + line| && (s + line)[GridRank(row, column, c)] == base + row * 8 + column
    {
      if row == r { LastRowRank(r, column, c, size); }
    }
  }

  lemma LastRowRank(r: nat, column: nat, c: nat, size: nat)
    requires size == r * c
    ensures GridRank(r, column, c) == size + column - 1
  {
  }

  lemma {:induction false} PixelRowsAre(info: ImageInfo, blockRow: nat, blockColumn: nat, k: nat)
    requires k <= 8
    ensures var r, c := Visible(info.height, blockRow), Visible(info.width, blockColumn);
      IsGrid(PixelRows(info, blockRow, blockColumn, k), if k < r then k else r, c, BlockBase(info, blockRow, blockColumn))
  {
    hide IsGrid, Pixels, BlockBase;
    var r, c, base := Visible(info.height, blockRow), Visible(info.width, blockColumn), BlockBase(info, blockRow, blockColumn);
    if k == 0 {
      NoGrid(c, base);
    } else {
      var front, line := PixelRows(info, blockRow, blockColumn, k - 1), Pixels(info, blockRow, blockColumn, k - 1, 8);
      PixelRowsAre(info, blockRow, blockColumn, k - 1);
      PixelsAre(info, blockRow, blockColumn, k - 1, 8);
      if c == 0 {
        NoColumnsNoGrid(front, if k - 1 < r then k - 1 else r, if k < r then k else r, base);
      } else if k <= r {
        GridGrows(front, line, k - 1, c, base, (k - 1) * c);
      } else {
        assert front + line == front;
      }
    }
  }

  lemma NoGrid(c: nat, base: nat)
    ensures IsGrid([], 0, c, base)
  {
  }

  lemma NoColumnsNoGrid(s: seq<nat>, r: nat, more: nat, base: nat)
    requires IsGrid(s, r, 0, base)
    ensures s == [] && IsGrid([], more, 0, base)
  {
  }

  /** Candidates in a block that is r pixel rows by c pixel columns inside the image. */
  function BlockCount(r: nat, c: nat): nat {
    if r == 0 || c == 0 then 0 else r * c - 1
  }

  /** Candidates in the first `k` blocks along an extent, each `depth` pixels deep. */
  function CountUpTo(extent: nat, depth: nat, k: nat): nat {
    var full, partial := extent / 8, extent % 8;
    if k <= full then k * BlockCount(depth, 8)
    else full * BlockCount(depth, 8) + BlockCount(depth, partial)
  }

  lemma CountUpToStep(extent: nat, depth: nat, k: nat)
    ensures CountUpTo(extent, depth, k + 1) == CountUpTo(extent, depth, k) + BlockCount(depth, Visible(extent, k))
  {
    hide BlockCount;
    var n := BlockCount(depth, 8);
    assert (k + 1) * n == k * n + n;
    if k > extent / 8 { assert BlockCount(depth, 0) == 0 by { NoColumns(depth); } }
  }

  lemma NoColumns(depth: nat)
    ensures BlockCount(depth, 0) == 0
  {
  }

  /** `part` lies in `whole` at `start`. */
  ghost predicate PlacedAt(whole: seq<nat>, start: nat, part: seq<nat>) {
    start + |part| <= |whole| && whole[start..start + |part|] == part
  }

  lemma PlacedIndex(whole: seq<nat>, start: nat, part: seq<nat>, j: nat)
    requires PlacedAt(whole, start, part) && j < |part|
    ensures start + j < |whole| && whole[start + j] == part[j]
  {
    assert whole[start..start + |part|][j] == whole[start + j];
  }

  lemma PlacedInFront(front: seq<nat>, start: nat, part: seq<nat>, last: seq<nat>)
    requires PlacedAt(front, start, part)
    ensures PlacedAt(front + last, start, part)
  {
    assert (front + last)[start..start + |part|] == front[start..start + |part|];
  }

  lemma PlacedLast(front: seq<nat>, last: seq<nat>)
    ensures PlacedAt(front + last, |front|, last)
  {
  }

  lemma {:induction false} BlocksAre(info: ImageInfo, blockRow: nat, k: nat)
    ensures var r := Visible(info.height, blockRow);
      && |Blocks(info, blockRow, k)| == CountUpTo(info.width, r, k)
      && forall b :: 0 <= b < k ==>
           PlacedAt(Blocks(info, blockRow, k), CountUpTo(info.width, r, b), PixelRows(info, blockRow, b, 8))
  {
    if k > 0 {
      var r := Visible(info.height, blockRow);
      BlocksAre(info, blockRow, k - 1);
      PixelRowsAre(info, blockRow, k - 1, 8);
      CountUpToStep(info.width, r, k - 1);
      hide CountUpTo, PixelRows, PlacedAt;
      var front, last := Blocks(info, blockRow, k - 1), PixelRows(info, blockRow, k - 1, 8);
      PlacedLast(front, last);
      forall b | 0 <= b < k - 1
        ensures PlacedAt(front + last, CountUpTo(info.width, r, b), PixelRows(info, blockRow, b, 8))
      {
        PlacedInFront(front, CountUpTo(info.width, r, b), PixelRows(info, blockRow, b, 8), last);
      }
    }
  }

  /** Candidates in the first `k` block rows. */
  function RowsUpTo(info: ImageInfo, k: nat): nat {
    var full, partial := info.height / 8, info.height % 8;
    var all := info.yBlocksWide;
    if k <= full then k * CountUpTo(info.width, 8, all)
    else full * CountUpTo(info.width, 8, all) + CountUpTo(info.width, partial, all)
  }

  lemma RowsUpToStep(info: ImageInfo, k: nat)
    ensures RowsUpTo(info, k + 1) == RowsUpTo(info, k) + CountUpTo(info.width, Visible(info.height, k), info.yBlocksWide)
  {
    hide CountUpTo;
    var n := CountUpTo(info.width, 8, info.yBlocksWide);
    assert (k + 1) * n == k * n + n;
    if k > info.height / 8 {
      DepthZero(info);
    }
  }

  lemma DepthZero(info: ImageInfo)
    ensures CountUpTo(info.width, 0, info.yBlocksWide) == 0
  {
  }

  lemma {:induction false} BlockRowsAre(info: ImageInfo, k: nat)
    ensures |BlockRows(info, k)| == RowsUpTo(info, k)
    ensures forall b :: 0 <= b < k ==> PlacedAt(BlockRows(info, k), RowsUpTo(info, b), Blocks(info, b, info.yBlocksWide))
  {
    if k > 0 {
      BlockRowsAre(info, k - 1);
      BlocksAre(info, k - 1, info.yBlocksWide);
      RowsUpToStep(info, k - 1);
      hide RowsUpTo, Blocks, PlacedAt, CountUpTo;
      var front, last := BlockRows(info, k - 1), Blocks(info, k - 1, info.yBlocksWide);
      PlacedLast(front, last);
      forall b | 0 <= b < k - 1
        ensures PlacedAt(front + last, RowsUpTo(info, b), Blocks(info, b, info.yBlocksWide))
      {
        PlacedInFront(front, RowsUpTo(info, b), Blocks(info, b, info.yBlocksWide), last);
      }
    } else {
      NoRows(info);
    }
  }

  lemma NoRows(info: ImageInfo)
    ensures RowsUpTo(info, 0) == 0
  {
    assert 0 * CountUpTo(info.width, 8, info.yBlocksWide) == 0;
  }

  // ----- The arithmetic index -----

  /** The block grid covers the image: what every decoded JPEG gives. */
  predicate Covers(info: ImageInfo) {
    info.yBlocksWide * 8 >= info.width && info.yBlocksHigh * 8 >= info.height
  }

  /** Candidates in one block row whose blocks are `rows` pixel rows tall, as the original computes it. */
  function RowCount(info: ImageInfo, rows: nat): nat
    requires rows >= 1
  {
    var fullColumns, partialWidth := info.width / 8, info.width % 8;
    fullColumns * (rows * 8 - 1) + (if partialWidth != 0 then rows * partialWidth - 1 else 0)
  }

  function Size(info: ImageInfo): nat {
    var fullRows, partialHeight := info.height / 8, info.height % 8;
    fullRows * RowCount(info, 8) + (if partialHeight != 0 then RowCount(info, partialHeight) else 0)
  }

  /** An index into `count` whole runs of `n`, or past them. */
  datatype Split = Whole(run: nat, within: nat) | Past(within: nat)

  function SplitIndex(i: nat, n: nat, count: nat): (s: Split)
    ensures s.Whole? ==> s.run < count && s.within < n && i == s.run * n + s.within
    ensures s.Past? ==> i == count * n + s.within
  {
    NoWholeRuns(count, n);
    if n != 0 && i < count * n then
      DivideWithin(i, n, count);
      Whole(i / n, i % n)
    else Past(i - count * n)
  }

  lemma NoWholeRuns(a: nat, b: nat)
    ensures b == 0 ==> a * b == 0
  {
  }

  lemma DivideWithin(i: nat, n: nat, count: nat)
    requires n > 0 && i < count * n
    ensures i / n < count && i == (i / n) * n + i % n
  {
    var q := i / n;
    assert i == q * n + i % n;
    if q >= count { Monotone(count, q, n); }
  }

  /** A block row (column), its in-image depth, and an index counted from its first candidate. */
  datatype Place = Place(block: nat, depth: nat, within: nat)

  /** The block row of a candidate index. */
  function FindRow(info: ImageInfo, index: nat): Place {
    match SplitIndex(index, RowCount(info, 8), info.height / 8)
    case Whole(run, within) => Place(run, 8, within)
    case Past(within) => Place(info.height / 8, info.height % 8, within)
  }

  /** The block column of an index within a block row `rows` pixels deep. */
  function FindBlock(info: ImageInfo, rows: nat, within: nat): Place
    requires rows >= 1
  {
    match SplitIndex(within, rows * 8 - 1, info.width / 8)
    case Whole(run, rest) => Place(run, 8, rest)
    case Past(rest) => Place(info.width / 8, info.width % 8, rest)
  }

  lemma RowsUpToFull(info: ImageInfo, k: nat)
    requires Covers(info) && k <= info.height / 8
    ensures RowsUpTo(info, k) == k * RowCount(info, 8)
  {
    RowCountIs(info, 8);
    hide CountUpTo, RowCount;
  }

  lemma FindRowIsRight(info: ImageInfo, index: nat)
    requires Covers(info) && index < Size(info)
    ensures var p := FindRow(info, index);
      && p.block < info.yBlocksHigh
      && 1 <= p.depth == Visible(info.height, p.block)
      && p.within < RowCount(info, p.depth)
      && RowsUpTo(info, p.block) + p.within == index
  {
    hide RowCount, RowsUpTo, SplitIndex;
    var p := FindRow(info, index);
    RowsUpToFull(info, p.block);
  }

  lemma Monotone(a: nat, b: nat, n: nat)
    requires a <= b
    ensures a * n <= b * n
  {
  }

  /** A whole block row, counted the original's way and by the enumeration. */
  lemma RowCountIs(info: ImageInfo, rows: nat)
    requires Covers(info) && rows >= 1
    ensures RowCount(info, rows) == CountUpTo(info.width, rows, info.yBlocksWide)
  {
    if info.yBlocksWide <= info.width / 8 {
      assert info.width % 8 == 0 && info.yBlocksWide == info.width / 8;
    }
  }

  lemma FindBlockIsRight(info: ImageInfo, rows: nat, within: nat)
    requires Covers(info) && 1 <= rows <= 8 && within < RowCount(info, rows)
    ensures var p := FindBlock(info, rows, within);
      && p.block < info.yBlocksWide
      && 1 <= p.depth == Visible(info.width, p.block)
      && p.within < BlockCount(rows, p.depth)
      && CountUpTo(info.width, rows, p.block) + p.within == within
  {
    hide SplitIndex;
    var p := FindBlock(info, rows, within);
    assert p.block <= info.width / 8;
  }

  function CellRow(position: nat, columns: nat): nat
    requires columns >= 1
  {
    position / columns
  }

  function CellColumn(position: nat, columns: nat): nat
    requires columns >= 1
  {
    position % columns
  }

  /** Position `within` + 1 of an r-by-c grid, by row and column. */
  lemma CellIsRight(r: nat, c: nat, within: nat)
    requires r >= 1 && c >= 1 && within < BlockCount(r, c)
    ensures var row, column := CellRow(within + 1, c), CellColumn(within + 1, c);
      && row < r
      && column < c
      && !(row == 0 && column == 0)
      && GridRank(row, column, c) == within
  {
    DivideWithin(within + 1, c, r);
  }

  /** The offset of candidate `index`, wrapped to 32 bits as the original returns it. */
  function At(info: ImageInfo, index: nat): nat
    requires Covers(info) && index < Size(info)
  {
    FindRowIsRight(info, index);
    var row := FindRow(info, index);
    FindBlockIsRight(info, row.depth, row.within);
    var block := FindBlock(info, row.depth, row.within);
    var position := block.within + 1;
    (BlockBase(info, row.block, block.block) + CellRow(position, block.depth) * 8 + CellColumn(position, block.depth))
      % TWO_TO_32
  }

  function CoefficientCount(info: ImageInfo): nat {
    info.yBlocksWide * info.yBlocksHigh * 64
  }

  /** Every coefficient offset fits the 32-bit format. */
  predicate Addressable(info: ImageInfo) {
    CoefficientCount(info) <= TWO_TO_32
  }

  lemma SizeIsCount(info: ImageInfo)
    requires Covers(info)
    ensures Size(info) == |Candidates(info)|
  {
    BlockRowsAre(info, info.yBlocksHigh);
    RowCountIs(info, 8);
    if info.height % 8 != 0 { RowCountIs(info, info.height % 8); }
    DepthZero(info);
    hide CountUpTo, RowCount, BlockRows;
    if info.yBlocksHigh <= info.height / 8 {
      assert info.yBlocksHigh == info.height / 8 && info.height % 8 == 0;
    }
  }

  lemma BaseFits(info: ImageInfo, blockRow: nat, blockColumn: nat)
    requires blockRow < info.yBlocksHigh && blockColumn < info.yBlocksWide
    ensures BlockBase(info, blockRow, blockColumn) + 64 <= CoefficientCount(info)
  {
    var w, h := info.yBlocksWide, info.yBlocksHigh;
    Monotone(blockRow + 1, h, w);
    assert (blockRow + 1) * w == blockRow * w + w;
  }

  /** Where the enumeration lists a candidate. */
  lemma CandidateRank(info: ImageInfo, blockRow: nat, blockColumn: nat, row: nat, column: nat)
    requires blockRow < info.yBlocksHigh && blockColumn < info.yBlocksWide
    requires row < Visible(info.height, blockRow) && column < Visible(info.width, blockColumn)
    requires !(row == 0 && column == 0)
    ensures var k := RowsUpTo(info, blockRow)
        + CountUpTo(info.width, Visible(info.height, blockRow), blockColumn)
        + GridRank(row, column, Visible(info.width, blockColumn));
      && 0 <= k < |Candidates(info)|
      && Candidates(info)[k] == BlockBase(info, blockRow, blockColumn) + row * 8 + column
  {
    hide CountUpTo, RowsUpTo, BlockBase, BlockRows, Blocks, PixelRows, PlacedAt;
    BlockRowsAre(info, info.yBlocksHigh);
    BlocksAre(info, blockRow, info.yBlocksWide);
    PixelRowsAre(info, blockRow, blockColumn, 8);
    var cells, blocks := PixelRows(info, blockRow, blockColumn, 8), Blocks(info, blockRow, info.yBlocksWide);
    var within := GridRank(row, column, Visible(info.width, blockColumn));
    hide GridRank;
    var start := CountUpTo(info.width, Visible(info.height, blockRow), blockColumn);
    PlacedIndex(blocks, start, cells, within);
    PlacedIndex(Candidates(info), RowsUpTo(info, blockRow), blocks, start + within);
  }

  /** The arithmetic index is the enumeration. */
  lemma AtIsCandidate(info: ImageInfo, index: nat)
    requires Covers(info) && Addressable(info) && index < Size(info)
    ensures Size(info) == |Candidates(info)|
    ensures At(info, index) == Candidates(info)[index]
  {
    hide FindRow, FindBlock, Size, RowCount, RowsUpTo, CountUpTo, BlockBase, BlockRows, GridRank, BlockCount,
      CellRow, CellColumn, CoefficientCount, Visible, Covers;
    SizeIsCount(info);
    FindRowIsRight(info, index);
    var row := FindRow(info, index);
    DepthFits(info.height, row.block);
    FindBlockIsRight(info, row.depth, row.within);
    var block := FindBlock(info, row.depth, row.within);
    CellIsRight(row.depth, block.depth, block.within);
    var r, c := CellRow(block.within + 1, block.depth), CellColumn(block.within + 1, block.depth);
    CandidateRank(info, row.block, block.block, r, c);
    DepthFits(info.width, block.block);
    BaseFits(info, row.block, block.block);
  }

  lemma DepthFits(extent: nat, block: nat)
    ensures Visible(extent, block) <= 8
  {
  }

  // ----- What the enumeration lists -----

  /** Strictly increasing, within lo..hi. */
  ghost predicate Increasing(s: seq<nat>, lo: nat, hi: nat) {
    && (forall i :: 0 <= i < |s| ==> lo <= s[i] < hi)
    && (forall i, j :: 0 <= i < j < |s| ==> s[i] < s[j])
  }

  lemma IncreasingAppends(a: seq<nat>, b: seq<nat>, lo: nat, mid: nat, hi: nat)
    requires lo <= mid <= hi && Increasing(a, lo, mid) && Increasing(b, mid, hi)
    ensures Increasing(a + b, lo, hi)
  {
  }

  lemma {:induction false} PixelsIncrease(info: ImageInfo, blockRow: nat, blockColumn: nat, row: nat, k: nat)
    ensures var lo := BlockBase(info, blockRow, blockColumn) + row * 8;
      Increasing(Pixels(info, blockRow, blockColumn, row, k), lo, lo + k)
  {
    if k > 0 { PixelsIncrease(info, blockRow, blockColumn, row, k - 1); }
  }

  lemma {:induction false} PixelRowsIncrease(info: ImageInfo, blockRow: nat, blockColumn: nat, k: nat)
    ensures var lo := BlockBase(info, blockRow, blockColumn);
      Increasing(PixelRows(info, blockRow, blockColumn, k), lo, lo + k * 8)
  {
    if k > 0 {
      var lo := BlockBase(info, blockRow, blockColumn);
      PixelRowsIncrease(info, blockRow, blockColumn, k - 1);
      PixelsIncrease(info, blockRow, blockColumn, k - 1, 8);
      IncreasingAppends(PixelRows(info, blockRow, blockColumn, k - 1), Pixels(info, blockRow, blockColumn, k - 1, 8),
                        lo, lo + (k - 1) * 8, lo + k * 8);
    }
  }

  lemma NextBlockBase(info: ImageInfo, blockRow: nat, k: nat)
    ensures BlockBase(info, blockRow, k + 1) == BlockBase(info, blockRow, k) + 64
    ensures BlockBase(info, blockRow + 1, 0) == BlockBase(info, blockRow, info.yBlocksWide)
    ensures BlockBase(info, 0, 0) == 0
    ensures BlockBase(info, blockRow, 0) <= BlockBase(info, blockRow, k)
  {
    assert (blockRow + 1) * info.yBlocksWide == blockRow * info.yBlocksWide + info.yBlocksWide;
    assert 0 * info.yBlocksWide == 0;
  }

  lemma {:induction false} BlocksIncrease(info: ImageInfo, blockRow: nat, k: nat)
    ensures Increasing(Blocks(info, blockRow, k), BlockBase(info, blockRow, 0), BlockBase(info, blockRow, k))
  {
    if k > 0 {
      BlocksIncrease(info, blockRow, k - 1);
      PixelRowsIncrease(info, blockRow, k - 1, 8);
      NextBlockBase(info, blockRow, k - 1);
      hide BlockBase, Increasing, PixelRows;
      IncreasingAppends(Blocks(info, blockRow, k - 1), PixelRows(info, blockRow, k - 1, 8),
                        BlockBase(info, blockRow, 0), BlockBase(info, blockRow, k - 1), BlockBase(info, blockRow, k));
    }
  }

  lemma {:induction false} BlockRowsIncrease(info: ImageInfo, k: nat)
    ensures Increasing(BlockRows(info, k), 0, BlockBase(info, k, 0))
  {
    NextBlockBase(info, k, 0);
    if k > 0 {
      BlockRowsIncrease(info, k - 1);
      BlocksIncrease(info, k - 1, info.yBlocksWide);
      NextBlockBase(info, k - 1, info.yBlocksWide);
      hide BlockBase, Increasing, Blocks;
      IncreasingAppends(BlockRows(info, k - 1), Blocks(info, k - 1, info.yBlocksWide),
                        0, BlockBase(info, k - 1, 0), BlockBase(info, k, 0));
    }
  }

  /** The candidates are strictly increasing, hence distinct, and all within the coefficient array. */
  lemma CandidatesIncrease(info: ImageInfo)
    ensures Increasing(Candidates(info), 0, CoefficientCount(info))
  {
    BlockRowsIncrease(info, info.yBlocksHigh);
    assert BlockBase(info, info.yBlocksHigh, 0) == CoefficientCount(info) by {
      assert info.yBlocksHigh * info.yBlocksWide == info.yBlocksWide * info.yBlocksHigh;
    }
  }

  /** An offset of a non-DC coefficient whose pixel lies inside the image. */
  ghost predicate InsideImage(info: ImageInfo, offset: nat) {
    exists blockRow: nat, blockColumn: nat, row: nat, column: nat ::
      && blockRow < info.yBlocksHigh && blockColumn < info.yBlocksWide && row < 8 && column < 8
      && IsCandidate(info, blockRow, blockColumn, row, column)
      && offset == BlockBase(info, blockRow, blockColumn) + row * 8 + column
  }

  lemma {:induction false} PixelsAreInside(info: ImageInfo, blockRow: nat, blockColumn: nat, row: nat, k: nat)
    requires blockRow < info.yBlocksHigh && blockColumn < info.yBlocksWide && row < 8 && k <= 8
    ensures forall o :: o in Pixels(info, blockRow, blockColumn, row, k) ==> InsideImage(info, o)
  {
    if k > 0 {
      PixelsAreInside(info, blockRow, blockColumn, row, k - 1);
      hide BlockBase;
      if IsCandidate(info, blockRow, blockColumn, row, k - 1) {
        assert InsideImage(info, BlockBase(info, blockRow, blockColumn) + row * 8 + (k - 1));
      }
    }
  }

  lemma {:induction false} PixelRowsAreInside(info: ImageInfo, blockRow: nat, blockColumn: nat, k: nat)
    requires blockRow < info.yBlocksHigh && blockColumn < info.yBlocksWide && k <= 8
    ensures forall o :: o in PixelRows(info, blockRow, blockColumn, k) ==> InsideImage(info, o)
  {
    hide InsideImage;
    if k > 0 {
      PixelRowsAreInside(info, blockRow, blockColumn, k - 1);
      PixelsAreInside(info, blockRow, blockColumn, k - 1, 8);
    }
  }

  lemma {:induction false} BlocksAreInside(info: ImageInfo, blockRow: nat, k: nat)
    requires blockRow < info.yBlocksHigh && k <= info.yBlocksWide
    ensures forall o :: o in Blocks(info, blockRow, k) ==> InsideImage(info, o)
  {
    hide InsideImage;
    if k > 0 {
      BlocksAreInside(info, blockRow, k - 1);
      PixelRowsAreInside(info, blockRow, k - 1, 8);
    }
  }

  lemma {:induction false} BlockRowsAreInside(info: ImageInfo, k: nat)
    requires k <= info.yBlocksHigh
    ensures forall o :: o in BlockRows(info, k) ==> InsideImage(info, o)
  {
    hide InsideImage;
    if k > 0 {
      BlockRowsAreInside(info, k - 1);
      BlocksAreInside(info, k - 1, info.yBlocksWide);
    }
  }

  /** Exactly the in-image, non-DC offsets are listed. */
  lemma CandidatesAreInside(info: ImageInfo, offset: nat)
    ensures offset in Candidates(info) <==> InsideImage(info, offset)
  {
    BlockRowsAreInside(info, info.yBlocksHigh);
    hide BlockBase, BlockRows;
    if InsideImage(info, offset) {
      var blockRow: nat, blockColumn: nat, row: nat, column: nat :|
        && blockRow < info.yBlocksHigh && blockColumn < info.yBlocksWide && row < 8 && column < 8
        && IsCandidate(info, blockRow, blockColumn, row, column)
        && offset == BlockBase(info, blockRow, blockColumn) + row * 8 + column;
      CandidateRank(info, blockRow, blockColumn, row, column);
    }
  }

  // ----- Counting -----

  datatype CoefficientImage = CoefficientImage(info: ImageInfo, luminance: seq<int>)

  datatype Counts = Counts(candidates: nat, nonzero: nat)

  /** The original's geometry checks, in its order. */
  function GeometryFault(image: CoefficientImage): Option<GeometryError> {
    if image.info.yBlocksWide == 0 || image.info.yBlocksHigh == 0 then Some(NoBlocks)
    else if |image.luminance| != CoefficientCount(image.info) then Some(WrongCoefficientCount)
    else if image.info.width * image.info.height >= TWO_TO_32 then Some(TooManyPixels)
    else None
  }

  /** The geometry is refused exactly when there are no blocks, not 64 coefficients for each, or 2^32 pixels. */
  lemma GeometryIs(image: CoefficientImage)
    ensures var blocks := image.info.yBlocksWide * image.info.yBlocksHigh;
      && (GeometryFault(image) == Some(NoBlocks) <==> blocks == 0)
      && (GeometryFault(image) == Some(WrongCoefficientCount) <==> blocks > 0 && |image.luminance| != 64 * blocks)
      && (GeometryFault(image) == Some(TooManyPixels) <==>
            blocks > 0 && |image.luminance| == 64 * blocks && image.info.width * image.info.height >= 0x1_0000_0000)
      && (GeometryFault(image) == None <==>
            blocks > 0 && |image.luminance| == 64 * blocks && image.info.width * image.info.height < 0x1_0000_0000)
  {
    SomeBlocks(image.info.yBlocksWide, image.info.yBlocksHigh);
  }

  lemma SomeBlocks(wide: nat, high: nat)
    ensures wide * high == 0 <==> wide == 0 || high == 0
  {
  }

  ghost predicate AllBelow(offsets: seq<nat>, bound: nat) {
    forall i :: 0 <= i < |offsets| ==> offsets[i] < bound
  }

  /** How many offsets are listed, and how many of those coefficients are nonzero. */
  function TallyOf(luminance: seq<int>, offsets: seq<nat>): Counts
    requires AllBelow(offsets, |luminance|)
  {
    if offsets == [] then Counts(0, 0)
    else
      var front, last := offsets[..|offsets| - 1], offsets[|offsets| - 1];
      var t := TallyOf(luminance, front);
      Counts(t.candidates + 1, t.nonzero + (if luminance[last] != 0 then 1 else 0))
  }

  /** The places of a list whose coefficients are not zero. */
  ghost function Nonzero(luminance: seq<int>, offsets: seq<nat>): set<nat>
    requires AllBelow(offsets, |luminance|)
  {
    set i: nat | i < |offsets| && luminance[offsets[i]] != 0
  }

  /** The tally counts the list, and those places. */
  lemma {:induction false} TallyCounts(luminance: seq<int>, offsets: seq<nat>)
    requires AllBelow(offsets, |luminance|)
    ensures TallyOf(luminance, offsets).candidates == |offsets|
    ensures TallyOf(luminance, offsets).nonzero == |Nonzero(luminance, offsets)|
  {
    if offsets == [] {
      assert Nonzero(luminance, offsets) == {};
    } else {
      var n := |offsets| - 1;
      TallyCounts(luminance, offsets[..n]);
      assert Nonzero(luminance, offsets) == Nonzero(luminance, offsets[..n]) + if luminance[offsets[n]] != 0 then {n} else {};
    }
  }

  /** The running tally, and whether every visited offset fits 32 bits. */
  datatype Visit = Visit(counts: Counts, fits: bool) {
    ghost predicate Tallies(luminance: seq<int>, visited: seq<nat>) {
      && AllBelow(visited, |luminance|)
      && counts == TallyOf(luminance, visited)
      && (fits <==> AllBelow(visited, TWO_TO_32))
    }

    function Next(luminance: seq<int>, offset: nat): Visit
      requires offset < |luminance|
    {
      Visit(Counts(counts.candidates + 1, counts.nonzero + (if luminance[offset] != 0 then 1 else 0)),
            fits && offset < TWO_TO_32)
    }
  }

  lemma VisitOne(luminance: seq<int>, visit: Visit, visited: seq<nat>, offset: nat)
    requires visit.Tallies(luminance, visited) && offset < |luminance|
    ensures visit.Next(luminance, offset).Tallies(luminance, visited + [offset])
  {
    var after := visited + [offset];
    assert after[..|visited|] == visited && after[|visited|] == offset;
    assert AllBelow(after, TWO_TO_32) ==> AllBelow(visited, TWO_TO_32) by {
      if AllBelow(after, TWO_TO_32) {
        forall i | 0 <= i < |visited| ensures visited[i] < TWO_TO_32 { assert after[i] == visited[i]; }
      }
    }
  }

  /** Visits one pixel row of a block. */
  method VisitPixels(image: CoefficientImage, blockRow: nat, blockColumn: nat, row: nat,
                     visit: Visit, ghost visited: seq<nat>)
    returns (next: Visit)
    requires visit.Tallies(image.luminance, visited) && |image.luminance| == CoefficientCount(image.info)
    requires blockRow < image.info.yBlocksHigh && blockColumn < image.info.yBlocksWide && row < 8
    ensures next.Tallies(image.luminance, visited + Pixels(image.info, blockRow, blockColumn, row, 8))
  {
    hide BlockBase, Visit.Tallies, Visit.Next, CoefficientCount, Visible;
    var info := image.info;
    BaseFits(info, blockRow, blockColumn);
    next := visit;
    assert visited + [] == visited;
    if blockRow * 8 + row < info.height {
      for column := 0 to 8
        invariant next.Tallies(image.luminance, visited + Pixels(info, blockRow, blockColumn, row, column))
      {
        if !(blockColumn * 8 + column >= info.width || (row == 0 && column == 0)) {
          var offset := BlockBase(info, blockRow, blockColumn) + row * 8 + column;
          ghost var sofar := Pixels(info, blockRow, blockColumn, row, column);
          VisitOne(image.luminance, next, visited + sofar, offset);
          assert (visited + sofar) + [offset] == visited + (sofar + [offset]);
          next := next.Next(image.luminance, offset);
        }
      }
    } else {
      NothingVisible(info, blockRow, blockColumn, row);
    }
  }

  lemma NothingVisible(info: ImageInfo, blockRow: nat, blockColumn: nat, row: nat)
    requires row < 8 && blockRow * 8 + row >= info.height
    ensures Pixels(info, blockRow, blockColumn, row, 8) == []
  {
    PixelsAre(info, blockRow, blockColumn, row, 8);
  }

  /** Visits one block. */
  method VisitBlock(image: CoefficientImage, blockRow: nat, blockColumn: nat, visit: Visit, ghost visited: seq<nat>)
    returns (next: Visit)
    requires visit.Tallies(image.luminance, visited) && |image.luminance| == CoefficientCount(image.info)
    requires blockRow < image.info.yBlocksHigh && blockColumn < image.info.yBlocksWide
    ensures next.Tallies(image.luminance, visited + PixelRows(image.info, blockRow, blockColumn, 8))
  {
    hide Visit.Tallies, CoefficientCount, Pixels;
    next := visit;
    assert visited + [] == visited;
    for row := 0 to 8
      invariant next.Tallies(image.luminance, visited + PixelRows(image.info, blockRow, blockColumn, row))
    {
      ghost var sofar := PixelRows(image.info, blockRow, blockColumn, row);
      ghost var here := Pixels(image.info, blockRow, blockColumn, row, 8);
      next := VisitPixels(image, blockRow, blockColumn, row, next, visited + sofar);
      assert (visited + sofar) + here == visited + (sofar + here);
    }
  }

  /** Checks the geometry, then tallies every candidate the enumeration lists. */
  method CountCarrierCandidates(image: CoefficientImage) returns (r: Result<Counts, GeometryError>)
    ensures GeometryFault(image).Some? ==> r == Err(GeometryFault(image).value)
    ensures r.Ok? <==> GeometryFault(image).None? && AllBelow(Candidates(image.info), TWO_TO_32)
    ensures r.Ok? ==>
      && AllBelow(Candidates(image.info), |image.luminance|)
      && r.value == TallyOf(image.luminance, Candidates(image.info))
      && r.value.candidates == |Candidates(image.info)|
      && r.value.nonzero == |Nonzero(image.luminance, Candidates(image.info))|
  {
    hide Nonzero, Visit.Tallies, CoefficientCount, GeometryFault, PixelRows, Blocks, BlockRows, AllBelow, TallyOf;
    var fault := GeometryFault(image);
    if fault.Some? {
      return Err(fault.value);
    }
    FaultFree(image);
    var info := image.info;
    var visit := Visit(Counts(0, 0), true);
    VisitStarts(image.luminance, info);
    for blockRow := 0 to info.yBlocksHigh
      invariant visit.Tallies(image.luminance, BlockRows(info, blockRow))
    {
      ghost var rows := BlockRows(info, blockRow);
      BlocksFrom(info, rows, blockRow);
      for blockColumn := 0 to info.yBlocksWide
        invariant visit.Tallies(image.luminance, rows + Blocks(info, blockRow, blockColumn))
      {
        BlocksNext(info, rows, blockRow, blockColumn);
        visit := VisitBlock(image, blockRow, blockColumn, visit, rows + Blocks(info, blockRow, blockColumn));
      }
    }
    VisitEnds(image.luminance, visit, Candidates(info));
    if !visit.fits {
      return Err(OffsetTooLarge);
    }
    TallyCounts(image.luminance, Candidates(info));
    return Ok(visit.counts);
  }

  lemma FaultFree(image: CoefficientImage)
    requires GeometryFault(image).None?
    ensures |image.luminance| == CoefficientCount(image.info)
  {
  }

  lemma VisitStarts(luminance: seq<int>, info: ImageInfo)
    ensures Visit(Counts(0, 0), true).Tallies(luminance, BlockRows(info, 0))
  {
  }

  lemma BlocksFrom(info: ImageInfo, rows: seq<nat>, blockRow: nat)
    requires rows == BlockRows(info, blockRow)
    ensures rows + Blocks(info, blockRow, 0) == rows
    ensures BlockRows(info, blockRow + 1) == rows + Blocks(info, blockRow, info.yBlocksWide)
  {
    hide PixelRows;
  }

  lemma BlocksNext(info: ImageInfo, rows: seq<nat>, blockRow: nat, blockColumn: nat)
    ensures rows + Blocks(info, blockRow, blockColumn) + PixelRows(info, blockRow, blockColumn, 8)
         == rows + Blocks(info, blockRow, blockColumn + 1)
  {
    hide PixelRows;
    Regroup(rows, Blocks(info, blockRow, blockColumn), PixelRows(info, blockRow, blockColumn, 8));
  }

  lemma Regroup(a: seq<nat>, b: seq<nat>, c: seq<nat>)
    ensures a + b + c == a + (b + c)
  {
  }

  lemma VisitEnds(luminance: seq<int>, visit: Visit, visited: seq<nat>)
    requires visit.Tallies(luminance, visited)
    ensures AllBelow(visited, |luminance|) && visit.counts == TallyOf(luminance, visited)
    ensures visit.fits <==> AllBelow(visited, TWO_TO_32)
  {
  }
}
