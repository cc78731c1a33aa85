/**
  Where the Reddit carrier puts its bits: every (bit, copy) slot on a keyed
  candidate, and the slots grouped by block row and ordered within each.
 */
module RedditLayout {
  import opened KeyedShuffle
  import opened RedditQim

  /** Luminance blocks across and down. */
  datatype Grid = Grid(wide: nat, high: nat) {
    function Blocks(): nat { wide * high }
  }

  /** One embedding: coefficient positions used, copies per bit, and its two hash domains. */
  datatype Placement = Placement(frequencies: seq<nat>, copies: nat, domain: Word, layout: Word) {
    ghost predicate Valid() {
      && frequencies != [] && copies >= 1
      && Distinct(frequencies)
      && forall i :: 0 <= i < |frequencies| ==> frequencies[i] < 64
    }

    function Candidates(grid: Grid): nat {
      grid.Blocks() * |frequencies|
    }
  }

  /** One copy of one bit, pinned to one coefficient. */
  datatype Carrier = Carrier(bit: nat, row: nat, column: nat, coefficient: nat, whitening: bool, dither: Dither)

  /** The coefficient's place in the luminance array. */
  function Offset(grid: Grid, c: Carrier): nat {
    (c.row * grid.wide + c.column) * 64 + c.coefficient
  }

  // ----- Candidates -----

  function RowOf(candidate: nat, stride: nat): nat
    requires stride > 0
  {
    candidate / stride
  }

  function Within(candidate: nat, stride: nat): (w: nat)
    requires stride > 0
    ensures w < stride && candidate == RowOf(candidate, stride) * stride + w
  {
    candidate - RowOf(candidate, stride) * stride
  }

  /** Row, column and frequency of a candidate, and the keyed whitening bit and dither of its position. */
  function CarrierAt(grid: Grid, p: Placement, prf: (Word, nat) -> Word, candidate: nat, bit: nat): Carrier
    requires p.frequencies != [] && grid.wide > 0
  {
    var stride := |p.frequencies| * grid.wide;
    var within := Within(candidate, stride);
    var hash := prf(p.domain, candidate);
    Carrier(bit, RowOf(candidate, stride), within / |p.frequencies|, p.frequencies[within % |p.frequencies|],
            hash % 2 == 1, (hash / 2) % QIM_STEP)
  }

  lemma DivideOnce(a: nat, q: nat, n: nat, r: nat)
    requires n > 0 && a == q * n + r && r < n
    ensures a / n == q && a % n == r
  {
    var d := a / n - q;
    assert n * d == n * (a / n) - n * q;
    assert n * d == r - a % n;
    NoMultipleBetween(n, d);
  }

  lemma Distributes(x: nat, y: nat, n: nat)
    ensures (x + y) * n == x * n + y * n && x * n >= 0
  {
  }

  /** Smaller by a factor: a * n + r < b * n only if a < b. */
  lemma BelowProduct(a: nat, b: nat, n: nat)
    ensures a >= b ==> a * n >= b * n
    ensures a < b ==> a * n + n <= b * n
  {
    if a >= b {
      Distributes(a - b, b, n);
    } else {
      Distributes(b - a - 1, a + 1, n);
      Distributes(a, 1, n);
    }
  }

  lemma Regroup(row: nat, w: nat, f: nat, column: nat)
    ensures row * (f * w) + column * f == (row * w + column) * f
  {
    assert row * (f * w) == row * w * f;
  }

  lemma NotEmpty(w: nat, h: nat, f: nat, candidate: nat)
    requires candidate < w * h * f
    ensures w > 0
    ensures f > 0 ==> f * w > 0
  {
    assert w == 0 ==> w * h * f == 0;
  }

  lemma RowsTimesStride(w: nat, h: nat, f: nat)
    ensures h * (f * w) == w * h * f
  {
    assert h * (f * w) == (h * f) * w == (h * w) * f;
  }

  lemma Rebuild(k: nat, n: nat)
    requires n >= 1
    ensures k == (k / n) * n + k % n && k % n < n
  {
  }

  /** A number below `w` factors of `f`, by quotient and remainder. */
  lemma ColumnFits(within: nat, w: nat, f: nat, stride: nat)
    requires f > 0 && stride == f * w && within < stride
    ensures within / f < w && within == (within / f) * f + within % f && within % f < f
  {
    var column, frequency := within / f, within % f;
    Rebuild(within, f);
    BelowProduct(column, w, f);
  }

  lemma RowFits(row: nat, within: nat, h: nat, stride: nat, all: nat)
    requires all == h * stride && row * stride + within < all
    ensures row < h
  {
    BelowProduct(row, h, stride);
  }

  lemma BlockFits(row: nat, column: nat, w: nat, h: nat)
    requires row < h && column < w
    ensures row * w + column < w * h
  {
    BelowProduct(row, h, w);
  }

  /** The block and the frequency by dividing once. */
  lemma BlockOf(candidate: nat, row: nat, column: nat, frequency: nat, w: nat, f: nat, stride: nat)
    requires f > 0 && stride == f * w && frequency < f
    requires candidate == row * stride + column * f + frequency
    ensures candidate / f == row * w + column && candidate % f == frequency
  {
    Regroup(row, w, f, column);
    DivideOnce(candidate, row * w + column, f, frequency);
  }

  lemma RowBelow(row: nat, within: nat, w: nat, h: nat, f: nat, stride: nat)
    requires stride == f * w && row * stride + within < w * h * f
    ensures row < h
  {
    RowsTimesStride(w, h, f);
    RowFits(row, within, h, stride, h * stride);
  }

  lemma BlockBelow(candidate: nat, row: nat, within: nat, w: nat, h: nat, f: nat, stride: nat)
    requires f > 0 && stride == f * w && candidate == row * stride + within && within < stride && row < h
    ensures within / f < w && row * w + within / f == candidate / f < w * h && within % f == candidate % f
  {
    ColumnFits(within, w, f, stride);
    BlockOf(candidate, row, within / f, within % f, w, f, stride);
    BlockFits(row, within / f, w, h);
  }

  /** A candidate in a grid of w by h blocks and f frequencies, taken apart. */
  lemma SplitCandidate(w: nat, h: nat, f: nat, candidate: nat)
    requires f > 0 && candidate < w * h * f
    ensures w > 0 && f * w > 0
    ensures var row, within := RowOf(candidate, f * w), Within(candidate, f * w);
      && row < h && within / f < w
      && row * w + within / f == candidate / f < w * h
      && within % f == candidate % f
  {
    hide RowOf, Within;
    NotEmpty(w, h, f, candidate);
    var row, within := RowOf(candidate, f * w), Within(candidate, f * w);
    RowBelow(row, within, w, h, f, f * w);
    BlockBelow(candidate, row, within, w, h, f, f * w);
  }

  /** A copy's whitening and dither are the low four bits of its hash: every one of the 16 is possible. */
  lemma KeyedLattice(grid: Grid, p: Placement, prf: (Word, nat) -> Word, candidate: nat, bit: nat)
    requires p.frequencies != [] && grid.wide > 0
    ensures var c := CarrierAt(grid, p, prf, candidate, bit);
      c.bit == bit && (if c.whitening then 1 else 0) + 2 * c.dither == prf(p.domain, candidate) % 16
  {
    hide RowOf, Within;
    LowFour(prf(p.domain, candidate));
  }

  lemma LowFour(hash: nat)
    ensures hash % 2 + 2 * (hash / 2 % 8) == hash % 16
  {
  }

  /** A candidate's carrier lies in the grid, at block candidate / F and frequency candidate % F. */
  lemma CandidatePlace(grid: Grid, p: Placement, prf: (Word, nat) -> Word, candidate: nat, bit: nat)
    requires p.Valid() && candidate < p.Candidates(grid)
    ensures grid.wide > 0
    ensures var c := CarrierAt(grid, p, prf, candidate, bit);
      && c.row < grid.high && c.column < grid.wide && c.coefficient < 64
      && c.row * grid.wide + c.column == candidate / |p.frequencies| < grid.Blocks()
      && c.coefficient == p.frequencies[candidate % |p.frequencies|]
  {
    SplitCandidate(grid.wide, grid.high, |p.frequencies|, candidate);
    hide RowOf, Within;
  }

  lemma SameOffset(a: nat, c: nat, b: nat, d: nat)
    requires c < 64 && d < 64 && a * 64 + c == b * 64 + d
    ensures a == b && c == d
  {
  }

  lemma SameParts(x: nat, y: nat, f: nat)
    requires f > 0
    ensures x / f == y / f && x % f == y % f ==> x == y
  {
    assert x == f * (x / f) + x % f && y == f * (y / f) + y % f;
  }

  /** Different candidates are different coefficients. */
  lemma DistinctPlaces(grid: Grid, p: Placement, prf: (Word, nat) -> Word, x: nat, bitX: nat, y: nat, bitY: nat)
    requires p.Valid() && x < p.Candidates(grid) && y < p.Candidates(grid) && x != y
    ensures grid.wide > 0
    ensures Offset(grid, CarrierAt(grid, p, prf, x, bitX)) != Offset(grid, CarrierAt(grid, p, prf, y, bitY))
  {
    CandidatePlace(grid, p, prf, x, bitX);
    CandidatePlace(grid, p, prf, y, bitY);
    hide CarrierAt, Grid.Blocks;
    var f := |p.frequencies|;
    var cx, cy := CarrierAt(grid, p, prf, x, bitX), CarrierAt(grid, p, prf, y, bitY);
    SameParts(x, y, f);
    assert p.frequencies[x % f] == p.frequencies[y % f] ==> x % f == y % f;
    if Offset(grid, cx) == Offset(grid, cy) {
      SameOffset(cx.row * grid.wide + cx.column, cx.coefficient, cy.row * grid.wide + cy.column, cy.coefficient);
    }
  }

  // ----- Slots -----

  /** The carriers of the first `k` slots; slot s is copy s mod copies of bit s / copies. */
  function SlotCarriers(grid: Grid, p: Placement, prf: (Word, nat) -> Word, prefix: seq<nat>, k: nat): (all: seq<Carrier>)
    requires p.Valid() && grid.wide > 0 && k <= |prefix|
    ensures |all| == k
  {
    if k == 0 then []
    else SlotCarriers(grid, p, prf, prefix, k - 1) + [CarrierAt(grid, p, prf, prefix[k - 1], (k - 1) / p.copies)]
  }

  lemma {:induction false} SlotAt(grid: Grid, p: Placement, prf: (Word, nat) -> Word, prefix: seq<nat>, k: nat, s: nat)
    requires p.Valid() && grid.wide > 0 && s < k <= |prefix|
    ensures SlotCarriers(grid, p, prf, prefix, k)[s] == CarrierAt(grid, p, prf, prefix[s], s / p.copies)
    ensures SlotCarriers(grid, p, prf, prefix, k)[..s] == SlotCarriers(grid, p, prf, prefix, s)
  {
    hide CarrierAt, Placement.Valid;
    var all := SlotCarriers(grid, p, prf, prefix, k);
    assert all[..k - 1] == SlotCarriers(grid, p, prf, prefix, k - 1);
    if s < k - 1 {
      SlotAt(grid, p, prf, prefix, k - 1, s);
      assert all[..k - 1][..s] == all[..s];
    }
  }

  /** How many carriers hold copies of a bit. */
  function CopiesOf(carriers: seq<Carrier>, bit: nat): nat {
    if carriers == [] then 0
    else CopiesOf(carriers[..|carriers| - 1], bit) + (if carriers[|carriers| - 1].bit == bit then 1 else 0)
  }

  /** Copies of a bit among the first `k` slots. */
  function CopiesBefore(copies: nat, bit: nat, k: nat): nat {
    if k <= bit * copies then 0 else if k - bit * copies < copies then k - bit * copies else copies
  }

  /** Slot k holds a copy of the bit exactly from the bit's first slot on, `copies` of them. */
  lemma SlotOfBit(k: nat, copies: nat, bit: nat, start: nat)
    requires copies >= 1 && start == bit * copies
    ensures k / copies == bit <==> start <= k < start + copies
  {
    var q, r := k / copies, k % copies;
    Rebuild(k, copies);
    BlocksApart(q, bit, copies, q * copies, start, r);
  }

  lemma BlocksApart(q: nat, bit: nat, copies: nat, base: nat, start: nat, r: nat)
    requires base == q * copies && start == bit * copies && r < copies
    ensures q == bit <==> start <= base + r < start + copies
  {
    BelowProduct(q, bit, copies);
    BelowProduct(bit, q, copies);
  }

  lemma CopiesBeforeStep(copies: nat, bit: nat, k: nat)
    requires copies >= 1
    ensures CopiesBefore(copies, bit, k + 1) == CopiesBefore(copies, bit, k) + (if k / copies == bit then 1 else 0)
  {
    var start := bit * copies;
    SlotOfBit(k, copies, bit, start);
  }

  lemma {:induction false} SlotsHoldCopies(grid: Grid, p: Placement, prf: (Word, nat) -> Word, prefix: seq<nat>, k: nat, bit: nat)
    requires p.Valid() && grid.wide > 0 && k <= |prefix|
    ensures CopiesOf(SlotCarriers(grid, p, prf, prefix, k), bit) == CopiesBefore(p.copies, bit, k)
  {
    hide CopiesBefore;
    if k == 0 {
      assert CopiesBefore(p.copies, bit, 0) == 0 by { NoneBefore(p.copies, bit); }
    } else {
      SlotsHoldCopies(grid, p, prf, prefix, k - 1, bit);
      CopiesBeforeStep(p.copies, bit, k - 1);
      var all := SlotCarriers(grid, p, prf, prefix, k);
      assert all[..k - 1] == SlotCarriers(grid, p, prf, prefix, k - 1);
    }
  }

  lemma NoneBefore(copies: nat, bit: nat)
    ensures CopiesBefore(copies, bit, 0) == 0
  {
  }

  /** Slots lie in the grid, at pairwise different coefficients. */
  ghost predicate Separate(grid: Grid, carriers: seq<Carrier>) {
    && (forall i :: 0 <= i < |carriers| ==>
          carriers[i].row < grid.high && carriers[i].column < grid.wide && carriers[i].coefficient < 64)
    && (forall i, j :: 0 <= i < j < |carriers| ==> Offset(grid, carriers[i]) != Offset(grid, carriers[j]))
  }

  lemma SlotsAreSeparate(grid: Grid, p: Placement, prf: (Word, nat) -> Word, prefix: seq<nat>, k: nat)
    requires p.Valid() && grid.wide > 0 && k <= |prefix| && Distinct(prefix)
    requires forall i :: 0 <= i < |prefix| ==> prefix[i] < p.Candidates(grid)
    ensures Separate(grid, SlotCarriers(grid, p, prf, prefix, k))
  {
    assert p.copies >= 1;
    hide CarrierAt, SlotCarriers, Offset, Placement.Valid, Placement.Candidates;
    var all := SlotCarriers(grid, p, prf, prefix, k);
    forall i | 0 <= i < k
      ensures all[i].row < grid.high && all[i].column < grid.wide && all[i].coefficient < 64
    {
      SlotAt(grid, p, prf, prefix, k, i);
      CandidatePlace(grid, p, prf, prefix[i], i / p.copies);
    }
    forall i, j | 0 <= i < j < k ensures Offset(grid, all[i]) != Offset(grid, all[j]) {
      SlotAt(grid, p, prf, prefix, k, i);
      SlotAt(grid, p, prf, prefix, k, j);
      DistinctPlaces(grid, p, prf, prefix[i], i / p.copies, prefix[j], j / p.copies);
    }
  }
}
