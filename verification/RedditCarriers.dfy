/**
  Building the carriers: a keyed draw of candidates, then a two-pass counting sort
  by block row, then each row's bucket ordered in place.
 */
module RedditCarriers {
  import opened Results
  import opened KeyedShuffle
  import opened KeyedIndexPrefixes
  import opened RedditQim
  import opened RedditLayout
  import opened RedditGrouping

  datatype LayoutError = ExceedsCapacity | RecordTooNarrow | NoPositions | DomainTooLarge

  /** Every slot has a candidate, the carrier record is wide enough, and the draw's domain fits 32 bits. */
  predicate Fits(grid: Grid, p: Placement, bitCount: nat) {
    && bitCount * p.copies <= p.Candidates(grid)
    && bitCount < 0x1_0000_0000 && grid.wide < 0x1_0000 && grid.high < 0x1_0000
    && 0 < p.Candidates(grid) <= EMPTY
  }

  /** The original's checks, in its order. */
  function LayoutFault(grid: Grid, p: Placement, bitCount: nat): (fault: Option<LayoutError>)
    ensures fault.None? <==> Fits(grid, p, bitCount)
  {
    if bitCount * p.copies > p.Candidates(grid) then Some(ExceedsCapacity)
    else if bitCount > 0xFFFF_FFFF || grid.wide > 0xFFFF || grid.high > 0xFFFF then Some(RecordTooNarrow)
    else if p.Candidates(grid) == 0 then Some(NoPositions)
    else if p.Candidates(grid) > EMPTY then Some(DomainTooLarge)
    else None
  }

  /** The candidates of the slots, in slot order. */
  ghost function Drawn(grid: Grid, p: Placement, prf: (Word, nat) -> Word, bitCount: nat): (prefix: seq<nat>)
    requires Fits(grid, p, bitCount) && Stream(prf, p.layout).Fair()
    ensures |prefix| == bitCount * p.copies && Distinct(prefix)
    ensures forall i :: 0 <= i < |prefix| ==> prefix[i] < p.Candidates(grid)
  {
    PrefixIsDistinct(p.Candidates(grid), Stream(prf, p.layout), bitCount * p.copies);
    KeyedPrefix(p.Candidates(grid), Stream(prf, p.layout), bitCount * p.copies)
  }

  ghost function Slots(grid: Grid, p: Placement, prf: (Word, nat) -> Word, bitCount: nat): (all: seq<Carrier>)
    requires p.Valid() && Fits(grid, p, bitCount) && Stream(prf, p.layout).Fair()
    ensures |all| == bitCount * p.copies
  {
    NotEmpty(grid.wide, grid.high, |p.frequencies|, 0);
    SlotCarriers(grid, p, prf, Drawn(grid, p, prf, bitCount), bitCount * p.copies)
  }

  /** What the original's layout is. */
  ghost function Carriers(grid: Grid, p: Placement, prf: (Word, nat) -> Word, bitCount: nat): seq<Carrier>
    requires p.Valid() && Fits(grid, p, bitCount) && Stream(prf, p.layout).Fair()
  {
    Arranged(Slots(grid, p, prf, bitCount), grid.high)
  }

  lemma SlotRow(grid: Grid, p: Placement, prf: (Word, nat) -> Word, bitCount: nat, s: nat)
    requires p.Valid() && Fits(grid, p, bitCount) && Stream(prf, p.layout).Fair() && s < bitCount * p.copies
    ensures grid.wide > 0 && |p.frequencies| * grid.wide > 0
    ensures var candidate := Drawn(grid, p, prf, bitCount)[s];
      && Slots(grid, p, prf, bitCount)[s] == CarrierAt(grid, p, prf, candidate, s / p.copies)
      && Slots(grid, p, prf, bitCount)[s].row == RowOf(candidate, |p.frequencies| * grid.wide) < grid.high
  {
    var prefix := Drawn(grid, p, prf, bitCount);
    NotEmpty(grid.wide, grid.high, |p.frequencies|, 0);
    assert Slots(grid, p, prf, bitCount) == SlotCarriers(grid, p, prf, prefix, |prefix|);
    hide Drawn, Stream.Fair, Slots, SlotCarriers, RowOf, Within;
    SlotAt(grid, p, prf, prefix, |prefix|, s);
    CandidatePlace(grid, p, prf, prefix[s], s / p.copies);
    SplitCandidate(grid.wide, grid.high, |p.frequencies|, prefix[s]);
  }

  /** The carriers are separate, in order, and hold each bit exactly `copies` times. */
  lemma CarriersAreSound(grid: Grid, p: Placement, prf: (Word, nat) -> Word, bitCount: nat)
    requires p.Valid() && Fits(grid, p, bitCount) && Stream(prf, p.layout).Fair()
    ensures var carriers := Carriers(grid, p, prf, bitCount);
      && |carriers| == bitCount * p.copies
      && multiset(carriers) == multiset(Slots(grid, p, prf, bitCount))
      && Separate(grid, carriers)
      && StrictlyOrdered(carriers)
      && (forall bit :: 0 <= bit < bitCount ==> CopiesOf(carriers, bit) == p.copies)
      && (forall i :: 0 <= i < |carriers| ==> carriers[i].bit < bitCount && carriers[i].coefficient in p.frequencies)
  {
    var all, carriers := Slots(grid, p, prf, bitCount), Carriers(grid, p, prf, bitCount);
    var n, prefix := bitCount * p.copies, Drawn(grid, p, prf, bitCount);
    NotEmpty(grid.wide, grid.high, |p.frequencies|, 0);
    SlotsAreSeparate(grid, p, prf, prefix, n);
    assert all == SlotCarriers(grid, p, prf, prefix, n);
    hide Slots, Drawn, Arranged, SlotCarriers, Offset, CarrierAt, Fits, Placement.Candidates, Stream.Fair, CopiesOf;
    assert forall i :: 0 <= i < n ==> all[i].row < grid.high;
    ArrangedPermutes(all, grid.high);
    RearrangedIsSeparate(grid, all, carriers);
    ArrangedIsOrdered(all, grid.high);
    SeparateIsStrict(grid, carriers);
    forall bit | 0 <= bit < bitCount ensures CopiesOf(carriers, bit) == p.copies {
      RearrangedHoldsCopies(carriers, all, bit);
      SlotsHoldCopies(grid, p, prf, prefix, n, bit);
      AllCopies(p.copies, bit, bitCount);
    }
    forall i | 0 <= i < |carriers| ensures carriers[i].bit < bitCount && carriers[i].coefficient in p.frequencies {
      assert carriers[i] in multiset(carriers);
      var s :| 0 <= s < n && all[s] == carriers[i];
      SlotAt(grid, p, prf, prefix, n, s);
      SlotBit(grid, p, prf, prefix[s], s, bitCount);
    }
  }

  lemma SlotBit(grid: Grid, p: Placement, prf: (Word, nat) -> Word, candidate: nat, s: nat, bitCount: nat)
    requires p.Valid() && grid.wide > 0 && s < bitCount * p.copies
    ensures var c := CarrierAt(grid, p, prf, candidate, s / p.copies); c.bit < bitCount && c.coefficient in p.frequencies
  {
    Rebuild(s, p.copies);
    BelowProduct(s / p.copies, bitCount, p.copies);
  }

  lemma AllCopies(copies: nat, bit: nat, bitCount: nat)
    requires bit < bitCount
    ensures CopiesBefore(copies, bit, bitCount * copies) == copies
  {
    BelowProduct(bit, bitCount, copies);
  }

  // ----- Pass one: bucket sizes -----

  lemma {:induction false} GroupedMonotone(all: seq<Carrier>, a: nat, b: nat)
    requires a <= b
    ensures |Grouped(all, a)| <= |Grouped(all, b)|
    ensures Grouped(all, b)[..|Grouped(all, a)|] == Grouped(all, a)
  {
    if a < b { GroupedMonotone(all, a, b - 1); }
  }

  lemma BucketNext(all: seq<Carrier>, s: nat, row: nat)
    requires s < |all|
    ensures Bucket(all[..s + 1], row) == if all[s].row == row then Bucket(all[..s], row) + [all[s]] else Bucket(all[..s], row)
  {
    assert all[..s + 1][..s] == all[..s];
  }

  lemma {:induction false} BucketPrefix(all: seq<Carrier>, s: nat, row: nat)
    requires s <= |all|
    ensures |Bucket(all[..s], row)| <= |Bucket(all, row)|
    decreases |all| - s
  {
    if s == |all| {
      assert all[..s] == all;
    } else {
      BucketNext(all, s, row);
      BucketPrefix(all, s + 1, row);
    }
  }

  /** Tallies each row, shifted by one; the running sum turns tallies into first indices. */
  method RowCursors(prefix: seq<nat>, stride: nat, high: nat, ghost all: seq<Carrier>) returns (cursor: array<nat>)
    requires stride > 0 && |all| == |prefix|
    requires forall s :: 0 <= s < |all| ==> all[s].row == RowOf(prefix[s], stride) < high
    ensures fresh(cursor) && cursor.Length == high + 1
    ensures forall r :: 0 <= r <= high ==> cursor[r] == |Grouped(all, r)|
  {
    hide Bucket, Grouped, RowOf;
    cursor := new nat[high + 1](_ => 0);
    EmptyBuckets();
    assert all[..0] == [];
    for slot := 0 to |prefix|
      invariant cursor[0] == 0
      invariant forall r :: 1 <= r <= high ==> cursor[r] == |Bucket(all[..slot], r - 1)|
    {
      var row := RowOf(prefix[slot], stride);
      cursor[row + 1] := cursor[row + 1] + 1;
      forall r | 1 <= r <= high ensures cursor[r] == |Bucket(all[..slot + 1], r - 1)| {
        BucketNext(all, slot, r - 1);
      }
    }
    assert all[..|prefix|] == all;
    GroupedLengths(all, 0);
    for row := 1 to high + 1
      invariant forall r :: 0 <= r < row ==> cursor[r] == |Grouped(all, r)|
      invariant forall r :: row <= r <= high ==> cursor[r] == |Bucket(all, r - 1)|
    {
      GroupedLengths(all, row - 1);
      cursor[row] := cursor[row] + cursor[row - 1];
    }
  }

  lemma EmptyBuckets()
    ensures forall row: nat :: Bucket([], row) == []
  {
  }

  lemma GroupedLengths(all: seq<Carrier>, r: nat)
    ensures |Grouped(all, 0)| == 0
    ensures |Grouped(all, r + 1)| == |Grouped(all, r)| + |Bucket(all, r)|
  {
  }

  // ----- Pass two: scatter -----

  ghost predicate PlacedFrom(out: seq<Carrier>, start: nat, part: seq<Carrier>) {
    start + |part| <= |out| && out[start..start + |part|] == part
  }

  /** The first `s` slots sit in their rows' places; each cursor points past the last of them. */
  ghost predicate Scattered(all: seq<Carrier>, s: nat, out: seq<Carrier>, cursor: seq<nat>, high: nat)
    requires s <= |all|
  {
    && |out| == |all| == |Grouped(all, high)| && |cursor| == high + 1
    && (forall r {:trigger Bucket(all[..s], r)} :: 0 <= r < high ==>
          && cursor[r] == |Grouped(all, r)| + |Bucket(all[..s], r)|
          && PlacedFrom(out, |Grouped(all, r)|, Bucket(all[..s], r)))
  }

  lemma PutElsewhere(out: seq<Carrier>, at: nat, c: Carrier, start: nat, part: seq<Carrier>)
    requires PlacedFrom(out, start, part) && at < |out| && (at < start || at >= start + |part|)
    ensures PlacedFrom(out[at := c], start, part)
  {
  }

  lemma PutNext(out: seq<Carrier>, c: Carrier, start: nat, part: seq<Carrier>)
    requires PlacedFrom(out, start, part) && start + |part| < |out|
    ensures PlacedFrom(out[start + |part| := c], start, part + [c])
  {
  }

  lemma ScatterRow(all: seq<Carrier>, s: nat, out: seq<Carrier>, row: nat, r: nat, high: nat)
    requires s < |all| == |out| == |Grouped(all, high)| && row == all[s].row < high && r < high
    requires PlacedFrom(out, |Grouped(all, r)|, Bucket(all[..s], r))
    ensures var at := |Grouped(all, row)| + |Bucket(all[..s], row)|;
      && at < |out|
      && PlacedFrom(out[at := all[s]], |Grouped(all, r)|, Bucket(all[..s + 1], r))
  {
    hide Bucket, Grouped, PlacedFrom;
    CursorInRow(all, s, row, high);
    BucketNext(all, s, r);
    var at := |Grouped(all, row)| + |Bucket(all[..s], row)|;
    if r == row {
      PutNext(out, all[s], |Grouped(all, r)|, Bucket(all[..s], r));
    } else {
      RowsApart(all, s, row, r);
      PutElsewhere(out, at, all[s], |Grouped(all, r)|, Bucket(all[..s], r));
    }
  }

  /** The next carrier of a row has a place left in it. */
  lemma CursorInRow(all: seq<Carrier>, s: nat, row: nat, high: nat)
    requires s < |all| && row == all[s].row < high
    ensures |Grouped(all, row)| + |Bucket(all[..s], row)| < |Grouped(all, row + 1)| <= |Grouped(all, high)|
  {
    hide Bucket, Grouped;
    BucketNext(all, s, row);
    BucketPrefix(all, s + 1, row);
    GroupedLengths(all, row);
    GroupedMonotone(all, row + 1, high);
  }

  /** A row's place is outside another row's. */
  lemma RowsApart(all: seq<Carrier>, s: nat, row: nat, r: nat)
    requires s < |all| && row == all[s].row && r != row
    ensures var at := |Grouped(all, row)| + |Bucket(all[..s], row)|;
      at < |Grouped(all, r)| || at >= |Grouped(all, r)| + |Bucket(all[..s], r)|
  {
    hide Bucket, Grouped;
    CursorInRow(all, s, row, row + 1);
    BucketPrefix(all, s, r);
    GroupedLengths(all, r);
    if r < row { GroupedMonotone(all, r + 1, row); } else { GroupedMonotone(all, row + 1, r); }
  }

  lemma ScatterStep(all: seq<Carrier>, s: nat, out: seq<Carrier>, cursor: seq<nat>, high: nat)
    requires s < |all| && Scattered(all, s, out, cursor, high) && all[s].row < high
    ensures var row := all[s].row;
      && cursor[row] < |out|
      && Scattered(all, s + 1, out[cursor[row] := all[s]], cursor[row := cursor[row] + 1], high)
  {
    hide Bucket, Grouped, PlacedFrom;
    var row := all[s].row;
    assert cursor[row] == |Grouped(all, row)| + |Bucket(all[..s], row)|;
    ScatterRow(all, s, out, row, row, high);
    var next := cursor[row := cursor[row] + 1];
    forall r | 0 <= r < high
      ensures next[r] == |Grouped(all, r)| + |Bucket(all[..s + 1], r)|
      ensures PlacedFrom(out[cursor[row] := all[s]], |Grouped(all, r)|, Bucket(all[..s + 1], r))
    {
      assert cursor[r] == |Grouped(all, r)| + |Bucket(all[..s], r)|;
      BucketNext(all, s, r);
      ScatterRow(all, s, out, row, r, high);
    }
  }

  lemma ScatteredRow(all: seq<Carrier>, out: seq<Carrier>, cursor: seq<nat>, high: nat, r: nat)
    requires Scattered(all, |all|, out, cursor, high) && r < high
    ensures cursor[r] == |Grouped(all, r + 1)| <= |out|
    ensures PlacedFrom(out, |Grouped(all, r)|, Bucket(all, r))
  {
    hide Bucket, Grouped, PlacedFrom;
    assert all[..|all|] == all;
    assert cursor[r] == |Grouped(all, r)| + |Bucket(all[..|all|], r)|;
    GroupedLengths(all, r);
    GroupedMonotone(all, r + 1, high);
  }

  lemma {:induction false} ScatteredIsGrouped(all: seq<Carrier>, out: seq<Carrier>, cursor: seq<nat>, high: nat, r: nat)
    requires Scattered(all, |all|, out, cursor, high) && r <= high
    ensures |Grouped(all, r)| <= |out| && out[..|Grouped(all, r)|] == Grouped(all, r)
  {
    hide Bucket, Scattered;
    if r > 0 {
      ScatteredIsGrouped(all, out, cursor, high, r - 1);
      ScatteredRow(all, out, cursor, high, r - 1);
      var start, end := |Grouped(all, r - 1)|, |Grouped(all, r)|;
      assert out[..end] == out[..start] + out[start..end];
    }
  }

  lemma AllScattered(all: seq<Carrier>, out: seq<Carrier>, cursor: seq<nat>, high: nat)
    requires Scattered(all, |all|, out, cursor, high)
    ensures |cursor| == high + 1 && out == Grouped(all, high)
    ensures forall r :: 0 <= r < high ==> cursor[r] == |Grouped(all, r + 1)|
  {
    assert |out| == |Grouped(all, high)|;
    ScatteredIsGrouped(all, out, cursor, high, high);
    forall r | 0 <= r < high ensures cursor[r] == |Grouped(all, r + 1)| { ScatteredRow(all, out, cursor, high, r); }
    assert out[..|out|] == out;
  }

  /** Places one carrier and advances its row's cursor. */
  method ScatterOne(grid: Grid, p: Placement, prf: (Word, nat) -> Word, bit: nat, candidate: nat,
                    carriers: array<Carrier>, cursor: array<nat>, ghost all: seq<Carrier>, ghost slot: nat)
    requires p.Valid() && grid.wide > 0 && carriers.Length == |all| && cursor.Length == grid.high + 1
    requires slot < |all| && all[slot] == CarrierAt(grid, p, prf, candidate, bit)
    requires all[slot].row < grid.high && Scattered(all, slot, carriers[..], cursor[..], grid.high)
    modifies carriers, cursor
    ensures Scattered(all, slot + 1, carriers[..], cursor[..], grid.high)
  {
    hide CarrierAt, Grouped, Bucket;
    ghost var out, at := carriers[..], cursor[..];
    ScatterStep(all, slot, out, at, grid.high);
    hide Scattered;
    var carrier := CarrierAt(grid, p, prf, candidate, bit);
    var row := carrier.row;
    carriers[cursor[row]] := carrier;
    cursor[row] := cursor[row] + 1;
    assert carriers[..] == out[at[row] := carrier] && cursor[..] == at[row := at[row] + 1];
  }

  /** Each slot's carrier is its drawn candidate, for bit slot / copies. */
  ghost predicate Pinned(grid: Grid, p: Placement, prf: (Word, nat) -> Word, prefix: seq<nat>, all: seq<Carrier>)
    requires p.Valid() && grid.wide > 0
  {
    && |all| == |prefix|
    && (forall s :: 0 <= s < |all| ==> all[s] == CarrierAt(grid, p, prf, prefix[s], s / p.copies))
    && (forall s :: 0 <= s < |all| ==> all[s].row < grid.high)
  }

  lemma PinnedAt(grid: Grid, p: Placement, prf: (Word, nat) -> Word, prefix: seq<nat>, all: seq<Carrier>,
                 bit: nat, copy: nat, first: nat, slot: nat)
    requires p.Valid() && grid.wide > 0 && Pinned(grid, p, prf, prefix, all)
    requires first == bit * p.copies && slot == first + copy && copy < p.copies && slot < |all|
    ensures |all| == |prefix| && all[slot] == CarrierAt(grid, p, prf, prefix[slot], bit) && all[slot].row < grid.high
  {
    hide CarrierAt, Placement.Valid;
    DivideOnce(slot, bit, p.copies, copy);
  }

  /** The copies of one bit. */
  method ScatterBit(grid: Grid, p: Placement, prf: (Word, nat) -> Word, bit: nat, prefix: seq<nat>,
                    carriers: array<Carrier>, cursor: array<nat>, ghost all: seq<Carrier>, ghost first: nat)
    requires p.Valid() && grid.wide > 0 && carriers.Length == |all| == |prefix| && cursor.Length == grid.high + 1
    requires first == bit * p.copies && first + p.copies <= |all| && Pinned(grid, p, prf, prefix, all)
    requires Scattered(all, first, carriers[..], cursor[..], grid.high)
    modifies carriers, cursor
    ensures Scattered(all, first + p.copies, carriers[..], cursor[..], grid.high)
  {
    hide Scattered, CarrierAt, Placement.Valid, Pinned;
    for copy := 0 to p.copies
      invariant Scattered(all, first + copy, carriers[..], cursor[..], grid.high)
    {
      var slot := bit * p.copies + copy;
      PinnedAt(grid, p, prf, prefix, all, bit, copy, first, slot);
      ScatterOne(grid, p, prf, bit, prefix[slot], carriers, cursor, all, slot);
    }
  }

  method ScatterAll(grid: Grid, p: Placement, prf: (Word, nat) -> Word, bitCount: nat, prefix: seq<nat>,
                    carriers: array<Carrier>, cursor: array<nat>, ghost all: seq<Carrier>)
    requires p.Valid() && grid.wide > 0 && |prefix| == |all| == carriers.Length == bitCount * p.copies
    requires cursor.Length == grid.high + 1 && Pinned(grid, p, prf, prefix, all)
    requires Scattered(all, 0, carriers[..], cursor[..], grid.high)
    modifies carriers, cursor
    ensures Scattered(all, |all|, carriers[..], cursor[..], grid.high)
  {
    hide Scattered, CarrierAt, Placement.Valid, Pinned;
    for bit := 0 to bitCount
      invariant bit * p.copies <= |all|
      invariant Scattered(all, bit * p.copies, carriers[..], cursor[..], grid.high)
    {
      SlotsOfBit(bit, p.copies, bitCount);
      ScatterBit(grid, p, prf, bit, prefix, carriers, cursor, all, bit * p.copies);
    }
  }

  /** Recomputes each candidate and scatters its carrier, bit by bit and copy by copy. */
  method Scatter(grid: Grid, p: Placement, prf: (Word, nat) -> Word, bitCount: nat, prefix: seq<nat>,
                 cursor: array<nat>, ghost all: seq<Carrier>)
    returns (carriers: array<Carrier>)
    requires p.Valid() && grid.wide > 0 && |prefix| == |all| == bitCount * p.copies && Pinned(grid, p, prf, prefix, all)
    requires cursor.Length == grid.high + 1 && |Grouped(all, grid.high)| == |all|
    requires forall r :: 0 <= r <= grid.high ==> cursor[r] == |Grouped(all, r)|
    modifies cursor
    ensures fresh(carriers) && carriers[..] == Grouped(all, grid.high)
    ensures forall r :: 0 <= r < grid.high ==> cursor[r] == |Grouped(all, r + 1)|
  {
    carriers := new Carrier[bitCount * p.copies];
    NothingScattered(all, carriers[..], cursor[..], grid.high);
    hide Scattered, Grouped, CarrierAt, Placement.Valid, Pinned;
    ScatterAll(grid, p, prf, bitCount, prefix, carriers, cursor, all);
    AllScattered(all, carriers[..], cursor[..], grid.high);
    forall r | 0 <= r < grid.high ensures cursor[r] == |Grouped(all, r + 1)| { assert cursor[..][r] == cursor[r]; }
  }

  lemma SlotsOfBit(bit: nat, copies: nat, bitCount: nat)
    requires bit < bitCount
    ensures bit * copies + copies <= bitCount * copies && (bit + 1) * copies == bit * copies + copies
  {
    BelowProduct(bit, bitCount, copies);
  }

  lemma NothingScattered(all: seq<Carrier>, out: seq<Carrier>, cursor: seq<nat>, high: nat)
    requires |out| == |all| == |Grouped(all, high)| && |cursor| == high + 1
    requires forall r :: 0 <= r <= high ==> cursor[r] == |Grouped(all, r)|
    ensures Scattered(all, 0, out, cursor, high)
  {
    forall r | 0 <= r < high
      ensures cursor[r] == |Grouped(all, r)| + |Bucket(all[..0], r)|
      ensures PlacedFrom(out, |Grouped(all, r)|, Bucket(all[..0], r))
    {
      assert all[..0] == [];
      GroupedMonotone(all, r, high);
    }
  }

  // ----- Ordering the buckets -----

  /** Overwrites a stretch of the array. */
  method Overwrite(target: array<Carrier>, offset: nat, part: seq<Carrier>)
    requires offset + |part| <= target.Length
    modifies target
    ensures target[..] == old(target[..])[..offset] + part + old(target[..])[offset + |part|..]
  {
    forall i | 0 <= i < |part| {
      target[offset + i] := part[i];
    }
  }

  lemma BucketIsSlice(all: seq<Carrier>, row: nat, high: nat)
    requires row < high
    ensures |Grouped(all, row)| <= |Grouped(all, row + 1)| <= |Grouped(all, high)|
    ensures Grouped(all, high)[|Grouped(all, row)|..|Grouped(all, row + 1)|] == Bucket(all, row)
  {
    GroupedMonotone(all, row, row + 1);
    GroupedMonotone(all, row + 1, high);
    var whole, end := Grouped(all, high), |Grouped(all, row + 1)|;
    assert whole[|Grouped(all, row)|..end] == whole[..end][|Grouped(all, row)|..];
  }

  lemma ShortIsSorted(s: seq<Carrier>)
    requires |s| <= 1
    ensures SortedBucket(s) == s
  {
    if |s| == 1 { assert s == [s[0]]; }
  }

  /** The first `row` buckets are in order, the rest as they were scattered. */
  ghost predicate OrderedTo(all: seq<Carrier>, row: nat, high: nat, out: seq<Carrier>) {
    && row <= high
    && |Grouped(all, row)| <= |Grouped(all, high)|
    && out == Arranged(all, row) + Grouped(all, high)[|Grouped(all, row)|..]
  }

  lemma OrderOneMore(all: seq<Carrier>, row: nat, high: nat, out: seq<Carrier>)
    requires OrderedTo(all, row, high, out) && row < high
    ensures var start, end := |Grouped(all, row)|, |Grouped(all, row + 1)|;
      && start <= end <= |out|
      && out[start..end] == Bucket(all, row)
      && OrderedTo(all, row + 1, high, out[..start] + SortedBucket(Bucket(all, row)) + out[end..])
  {
    BucketIsSlice(all, row, high);
    ArrangedLength(all, row);
    assert Arranged(all, row + 1) == Arranged(all, row) + SortedBucket(Bucket(all, row));
    hide Bucket, Grouped, Arranged, SortedBucket;
    ReplaceMiddle(Arranged(all, row), Grouped(all, high), |Grouped(all, row + 1)|, out, SortedBucket(Bucket(all, row)));
  }

  lemma ReplaceMiddle(front: seq<Carrier>, whole: seq<Carrier>, end: nat, out: seq<Carrier>, part: seq<Carrier>)
    requires |front| <= end <= |whole| && out == front + whole[|front|..]
    ensures end <= |out| && out[|front|..end] == whole[|front|..end]
    ensures out[..|front|] + part + out[end..] == (front + part) + whole[end..]
  {
    assert out[end..] == whole[end..];
  }

  /** Orders one bucket in place; a bucket of one is left alone. */
  method OrderBucket(carriers: array<Carrier>, start: nat, end: nat)
    requires start <= end <= carriers.Length
    modifies carriers
    ensures carriers[..]
      == old(carriers[..])[..start] + SortedBucket(old(carriers[..])[start..end]) + old(carriers[..])[end..]
  {
    hide SortedBucket;
    var bucket := carriers[start..end];
    assert bucket == carriers[..][start..end];
    if end - start > 1 {
      Overwrite(carriers, start, SortedBucket(bucket));
    } else {
      ShortIsSorted(bucket);
      assert carriers[..] == carriers[..][..start] + bucket + carriers[..][end..];
    }
  }

  /** Orders each row's bucket by column and coefficient; the scatter's cursors are the buckets' ends. */
  method OrderBuckets(carriers: array<Carrier>, cursor: array<nat>, high: nat, ghost all: seq<Carrier>)
    requires cursor.Length == high + 1 && carriers[..] == Grouped(all, high)
    requires forall r :: 0 <= r < high ==> cursor[r] == |Grouped(all, r + 1)|
    modifies carriers
    ensures carriers[..] == Arranged(all, high)
  {
    assert OrderedTo(all, 0, high, carriers[..]) by { assert Grouped(all, high)[0..] == Grouped(all, high); }
    assert |Grouped(all, 0)| == 0;
    hide Grouped, Bucket, Arranged, OrderedTo;
    var start := 0;
    for row := 0 to high
      invariant start == |Grouped(all, row)|
      invariant OrderedTo(all, row, high, carriers[..])
    {
      OrderOneMore(all, row, high, carriers[..]);
      OrderBucket(carriers, start, cursor[row]);
      start := cursor[row];
    }
    Ordered(all, high, carriers[..]);
  }

  lemma Ordered(all: seq<Carrier>, high: nat, out: seq<Carrier>)
    requires OrderedTo(all, high, high, out)
    ensures out == Arranged(all, high)
  {
  }

  // ----- All together -----

  /** Fails exactly when the layout does not fit; otherwise the carriers, in order. */
  method MakeCarriers(grid: Grid, p: Placement, bitCount: nat, prf: (Word, nat) -> Word)
    returns (r: Result<seq<Carrier>, LayoutError>)
    requires p.Valid() && Stream(prf, p.layout).Fair()
    ensures r.Ok? <==> Fits(grid, p, bitCount)
    ensures r.Ok? ==> r.value == Carriers(grid, p, prf, bitCount)
    ensures r.Err? ==> Some(r.error) == LayoutFault(grid, p, bitCount)
  {
    var slots := bitCount * p.copies;
    var candidateCount := p.Candidates(grid);
    if slots > candidateCount {
      return Err(ExceedsCapacity);
    }
    if bitCount > 0xFFFF_FFFF || grid.wide > 0xFFFF || grid.high > 0xFFFF {
      return Err(RecordTooNarrow);
    }
    if candidateCount == 0 {
      return Err(NoPositions);
    }
    if candidateCount > EMPTY {
      return Err(DomainTooLarge);
    }
    var prefix := DrawPrefix(candidateCount, Stream(prf, p.layout), slots);
    var carriers := Arrange(grid, p, bitCount, prf, prefix);
    return Ok(carriers);
  }

  method DrawPrefix(size: nat, stream: Stream, count: nat) returns (prefix: seq<nat>)
    requires stream.Fair() && count <= size <= EMPTY
    ensures prefix == KeyedPrefix(size, stream, count)
  {
    hide KeyedIndexPrefix.Valid, Stream.Fair, KeyedPrefix;
    var shuffle := new KeyedIndexPrefix(size, stream);
    shuffle.ExtendTo(count);
    prefix := shuffle.Prefix();
  }

  lemma SlotsPinned(grid: Grid, p: Placement, prf: (Word, nat) -> Word, bitCount: nat)
    requires p.Valid() && grid.wide > 0 && Fits(grid, p, bitCount) && Stream(prf, p.layout).Fair()
    ensures Pinned(grid, p, prf, Drawn(grid, p, prf, bitCount), Slots(grid, p, prf, bitCount))
  {
    hide Slots, Drawn, CarrierAt, RowOf, Stream.Fair, Fits, Placement.Valid;
    var all, prefix := Slots(grid, p, prf, bitCount), Drawn(grid, p, prf, bitCount);
    forall s | 0 <= s < |all|
      ensures all[s] == CarrierAt(grid, p, prf, prefix[s], s / p.copies) && all[s].row < grid.high
    {
      SlotRow(grid, p, prf, bitCount, s);
    }
  }

  lemma SlotRows(grid: Grid, p: Placement, prf: (Word, nat) -> Word, bitCount: nat, stride: nat)
    requires p.Valid() && Fits(grid, p, bitCount) && Stream(prf, p.layout).Fair()
    requires stride > 0 && stride == |p.frequencies| * grid.wide
    ensures var all, prefix := Slots(grid, p, prf, bitCount), Drawn(grid, p, prf, bitCount);
      |all| == |prefix| && forall s :: 0 <= s < |all| ==> all[s].row == RowOf(prefix[s], stride) < grid.high
  {
    hide Slots, Drawn, CarrierAt, RowOf, Stream.Fair, Fits, Placement.Valid;
    var all, prefix := Slots(grid, p, prf, bitCount), Drawn(grid, p, prf, bitCount);
    forall s | 0 <= s < |all| ensures all[s].row == RowOf(prefix[s], stride) < grid.high {
      SlotRow(grid, p, prf, bitCount, s);
    }
  }

  /** The counting sort. */
  method Arrange(grid: Grid, p: Placement, bitCount: nat, prf: (Word, nat) -> Word, prefix: seq<nat>)
    returns (carriers: seq<Carrier>)
    requires p.Valid() && Stream(prf, p.layout).Fair() && Fits(grid, p, bitCount)
    requires prefix == Drawn(grid, p, prf, bitCount)
    ensures carriers == Carriers(grid, p, prf, bitCount)
  {
    NotEmpty(grid.wide, grid.high, |p.frequencies|, 0);
    ghost var all := Slots(grid, p, prf, bitCount);
    hide Slots, Drawn, CarrierAt, RowOf, Fits, LayoutFault, Stream.Fair, Placement.Candidates, Placement.Valid, Arranged, Grouped;
    hide Pinned;
    var stride := |p.frequencies| * grid.wide;
    SlotRows(grid, p, prf, bitCount, stride);
    SlotsPinned(grid, p, prf, bitCount);
    var cursor := RowCursors(prefix, stride, grid.high, all);
    GroupedPermutes(all, grid.high);
    SameLength(Grouped(all, grid.high), all);
    var arranged := Scatter(grid, p, prf, bitCount, prefix, cursor, all);
    OrderBuckets(arranged, cursor, grid.high, all);
    carriers := arranged[..];
  }
}
