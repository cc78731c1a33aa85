/**
  Writing and reading the carriers of one placement: each copy on its lattice, each
  bit by a vote of its copies weighted by confidence.
 */
module RedditVoting {
  import opened Results
  import opened ParityEdits
  import opened RedditQim
  import opened RedditLayout
  import opened RedditGrouping

  datatype WalkError = IndexExceedsImage

  /** Carriers address the luminance array. */
  ghost predicate Inside(grid: Grid, carriers: seq<Carrier>, n: nat) {
    forall i :: 0 <= i < |carriers| ==> Offset(grid, carriers[i]) < n
  }

  lemma SeparateIsInside(grid: Grid, carriers: seq<Carrier>)
    requires Separate(grid, carriers)
    ensures Inside(grid, carriers, grid.Blocks() * 64)
  {
    forall i | 0 <= i < |carriers| ensures Offset(grid, carriers[i]) < grid.Blocks() * 64 {
      BelowProduct(carriers[i].row, grid.high, grid.wide);
      assert grid.Blocks() == grid.high * grid.wide;
    }
  }

  /** The row walk reaches every carrier: rows never go back, and stay in the image. */
  predicate Walkable(carriers: seq<Carrier>, high: nat) {
    && (forall i :: 0 <= i < |carriers| - 1 ==> carriers[i].row <= carriers[i + 1].row)
    && (carriers != [] ==> carriers[|carriers| - 1].row < high)
  }

  lemma StrictIsWalkable(grid: Grid, carriers: seq<Carrier>)
    requires Separate(grid, carriers) && StrictlyOrdered(carriers)
    ensures Walkable(carriers, grid.high)
  {
    hide Offset;
    forall i | 0 <= i < |carriers| - 1 ensures carriers[i].row <= carriers[i + 1].row {
      assert Precedes(carriers[i], carriers[i + 1]);
    }
  }

  /** The walk stands at carrier `index`, about to enter `row`. */
  ghost predicate WalkedTo(carriers: seq<Carrier>, row: nat, index: nat) {
    && index <= |carriers|
    && (forall i :: 0 <= i < index - 1 ==> carriers[i].row <= carriers[i + 1].row)
    && (index > 0 ==> carriers[index - 1].row < row)
    && (index < |carriers| ==> carriers[index].row >= row || (index > 0 && carriers[index].row < carriers[index - 1].row))
  }

  /** The walk is inside `row`. */
  ghost predicate WalkingRow(carriers: seq<Carrier>, row: nat, index: nat) {
    || WalkedTo(carriers, row, index)
    || (0 < index <= |carriers| && carriers[index - 1].row == row && WalkedTo(carriers[..index], row + 1, index))
  }

  lemma WalkStarts(carriers: seq<Carrier>)
    ensures WalkedTo(carriers, 0, 0)
  {
  }

  lemma EnterRow(carriers: seq<Carrier>, row: nat, index: nat)
    requires WalkedTo(carriers, row, index)
    ensures WalkingRow(carriers, row, index)
  {
  }

  lemma StepRow(carriers: seq<Carrier>, row: nat, index: nat)
    requires WalkingRow(carriers, row, index) && index < |carriers| && carriers[index].row == row
    ensures WalkingRow(carriers, row, index + 1)
  {
    assert carriers[..index + 1][index] == carriers[index];
    assert forall i :: 0 <= i < index ==> carriers[..index + 1][i] == carriers[i];
    assert forall i :: 0 <= i < index ==> carriers[..index][i] == carriers[i];
  }

  lemma LeaveRow(carriers: seq<Carrier>, row: nat, index: nat)
    requires WalkingRow(carriers, row, index) && (index < |carriers| ==> carriers[index].row != row)
    ensures WalkedTo(carriers, row + 1, index)
  {
    assert forall i :: 0 <= i < index ==> carriers[..index][i] == carriers[i];
  }

  lemma WalkEnds(carriers: seq<Carrier>, row: nat, index: nat, high: nat)
    requires WalkedTo(carriers, row, index) && row <= high && (row == high || index == |carriers|)
    ensures index == |carriers| <==> Walkable(carriers, high)
  {
    if index < |carriers| && index > 0 {
      assert carriers[index].row >= carriers[index - 1].row ==> carriers[|carriers| - 1].row >= high || !Walkable(carriers, high) by {
        if Walkable(carriers, high) { RowsOnwards(carriers, high, index, |carriers| - 1); }
      }
    } else if index < |carriers| && Walkable(carriers, high) {
      RowsOnwards(carriers, high, index, |carriers| - 1);
    }
  }

  lemma {:induction false} RowsOnwards(carriers: seq<Carrier>, high: nat, i: nat, j: nat)
    requires Walkable(carriers, high) && i <= j < |carriers|
    ensures carriers[i].row <= carriers[j].row
  {
    if i < j { RowsOnwards(carriers, high, i, j - 1); }
  }

  // ----- Writing -----

  function Encoded(c: Coefficient, carrier: Carrier, bit: bool): (e: Coefficient)
    ensures OnLattice(e, bit != carrier.whitening, carrier.dither)
    ensures Abs(e - c) <= 7
  {
    QimEncode(c, bit != carrier.whitening, carrier.dither).value
  }

  ghost predicate BitsInRange(carriers: seq<Carrier>, n: nat) {
    forall i :: 0 <= i < |carriers| ==> carriers[i].bit < n
  }

  /** The coefficients once the first `k` carriers are written. */
  ghost function Written(grid: Grid, before: seq<Coefficient>, carriers: seq<Carrier>, bits: seq<bool>, k: nat):
    (after: seq<Coefficient>)
    requires k <= |carriers| && Inside(grid, carriers, |before|) && BitsInRange(carriers, |bits|)
    ensures |after| == |before|
  {
    if k == 0 then before
    else
      var a, c := Written(grid, before, carriers, bits, k - 1), carriers[k - 1];
      a[Offset(grid, c) := Encoded(a[Offset(grid, c)], c, bits[c.bit])]
  }

  ghost predicate Touches(grid: Grid, carriers: seq<Carrier>, o: nat) {
    exists i :: 0 <= i < |carriers| && Offset(grid, carriers[i]) == o
  }

  /** Every carrier's coefficient is encoded once; every other one is as it was. */
  lemma {:induction false} WrittenOnce(grid: Grid, before: seq<Coefficient>, carriers: seq<Carrier>, bits: seq<bool>, k: nat)
    requires k <= |carriers| && Inside(grid, carriers, |before|) && BitsInRange(carriers, |bits|)
    requires Separate(grid, carriers)
    ensures var after := Written(grid, before, carriers, bits, k);
      && (forall o :: 0 <= o < |before| && !Touches(grid, carriers[..k], o) ==> after[o] == before[o])
      && (forall i :: 0 <= i < k ==>
            after[Offset(grid, carriers[i])] == Encoded(before[Offset(grid, carriers[i])], carriers[i], bits[carriers[i].bit]))
  {
    hide Offset, Encoded;
    if k > 0 {
      WrittenOnce(grid, before, carriers, bits, k - 1);
      var a, after := Written(grid, before, carriers, bits, k - 1), Written(grid, before, carriers, bits, k);
      var at := Offset(grid, carriers[k - 1]);
      forall o | 0 <= o < |before| && !Touches(grid, carriers[..k], o) ensures after[o] == before[o] {
        NotTouchedBefore(grid, carriers, k, o);
      }
      assert !Touches(grid, carriers[..k - 1], at) by { FreshTouch(grid, carriers, k - 1); }
    }
  }

  lemma NotTouchedBefore(grid: Grid, carriers: seq<Carrier>, k: nat, o: nat)
    requires 0 < k <= |carriers| && !Touches(grid, carriers[..k], o)
    ensures !Touches(grid, carriers[..k - 1], o) && Offset(grid, carriers[k - 1]) != o
  {
    hide Offset;
    forall i | 0 <= i < k ensures Offset(grid, carriers[i]) != o {
      assert carriers[..k][i] == carriers[i];
    }
  }

  lemma FreshTouch(grid: Grid, carriers: seq<Carrier>, k: nat)
    requires k < |carriers| && Separate(grid, carriers)
    ensures !Touches(grid, carriers[..k], Offset(grid, carriers[k]))
  {
    hide Offset;
  }

  /** The row walk that writes; fails exactly on carriers the walk cannot reach. */
  method ApplyCarriers(grid: Grid, luminance: array<Coefficient>, carriers: seq<Carrier>, bits: seq<bool>)
    returns (r: Result<(), WalkError>)
    requires Inside(grid, carriers, luminance.Length) && BitsInRange(carriers, |bits|)
    modifies luminance
    ensures r.Ok? <==> Walkable(carriers, grid.high)
    ensures r.Ok? ==> luminance[..] == Written(grid, old(luminance[..]), carriers, bits, |carriers|)
  {
    hide Offset, QimEncode, WalkedTo, WalkingRow, Walkable;
    WalkStarts(carriers);
    var index, row := 0, 0;
    while row < grid.high && index < |carriers|
      invariant row <= grid.high && index <= |carriers| && WalkedTo(carriers, row, index)
      invariant luminance[..] == Written(grid, old(luminance[..]), carriers, bits, index)
      decreases grid.high - row
    {
      EnterRow(carriers, row, index);
      while index < |carriers| && carriers[index].row == row
        invariant index <= |carriers|
        invariant WalkingRow(carriers, row, index)
        invariant luminance[..] == Written(grid, old(luminance[..]), carriers, bits, index)
        decreases |carriers| - index
      {
        var c := carriers[index];
        luminance[Offset(grid, c)] := Encoded(luminance[Offset(grid, c)], c, bits[c.bit]);
        StepRow(carriers, row, index);
        index := index + 1;
      }
      LeaveRow(carriers, row, index);
      row := row + 1;
    }
    WalkEnds(carriers, row, index, grid.high);
    if index != |carriers| {
      return Err(IndexExceedsImage);
    }
    return Ok(());
  }

  // ----- Reading -----

  /** A copy's vote: its confidence, for or against. */
  function Vote(luminance: seq<Coefficient>, grid: Grid, c: Carrier): (v: int)
    requires Offset(grid, c) < |luminance|
    ensures -5 <= v <= 5
  {
    var symbol := QimDecode(luminance[Offset(grid, c)], c.dither);
    if symbol.bit != c.whitening then symbol.confidence else -symbol.confidence
  }

  function Score(luminance: seq<Coefficient>, grid: Grid, carriers: seq<Carrier>, bit: nat): int
    requires Inside(grid, carriers, |luminance|)
  {
    if carriers == [] then 0
    else
      var n := |carriers| - 1;
      Score(luminance, grid, carriers[..n], bit) + (if carriers[n].bit == bit then Vote(luminance, grid, carriers[n]) else 0)
  }

  /** What the vote decides, bit by bit; a tie reads one. */
  function DecodedBits(luminance: seq<Coefficient>, grid: Grid, carriers: seq<Carrier>, count: nat): (bits: seq<bool>)
    requires Inside(grid, carriers, |luminance|)
    ensures |bits| == count
  {
    if count == 0 then []
    else DecodedBits(luminance, grid, carriers, count - 1) + [Score(luminance, grid, carriers, count - 1) >= 0]
  }

  lemma {:induction false} DecodedAt(luminance: seq<Coefficient>, grid: Grid, carriers: seq<Carrier>, count: nat, bit: nat)
    requires Inside(grid, carriers, |luminance|) && bit < count
    ensures DecodedBits(luminance, grid, carriers, count)[bit] == (Score(luminance, grid, carriers, bit) >= 0)
  {
    if bit < count - 1 { DecodedAt(luminance, grid, carriers, count - 1, bit); }
  }

  lemma ScoreNext(luminance: seq<Coefficient>, grid: Grid, carriers: seq<Carrier>, index: nat, bit: nat)
    requires index < |carriers| && Inside(grid, carriers, |luminance|)
    ensures Score(luminance, grid, carriers[..index + 1], bit)
         == Score(luminance, grid, carriers[..index], bit)
          + (if carriers[index].bit == bit then Vote(luminance, grid, carriers[index]) else 0)
  {
    assert carriers[..index + 1][..index] == carriers[..index];
  }

  /** Adds one copy's vote to its bit's score. */
  method Tally(grid: Grid, luminance: seq<Coefficient>, carriers: seq<Carrier>, index: nat, scores: array<int>)
    requires Inside(grid, carriers, |luminance|) && BitsInRange(carriers, scores.Length) && index < |carriers|
    requires forall b :: 0 <= b < scores.Length ==> scores[b] == Score(luminance, grid, carriers[..index], b)
    modifies scores
    ensures forall b :: 0 <= b < scores.Length ==> scores[b] == Score(luminance, grid, carriers[..index + 1], b)
  {
    var c := carriers[index];
    forall b | 0 <= b < scores.Length
      ensures Score(luminance, grid, carriers[..index + 1], b)
           == scores[b] + (if c.bit == b then Vote(luminance, grid, c) else 0)
    {
      ScoreNext(luminance, grid, carriers, index, b);
    }
    hide Score, Vote, Offset;
    scores[c.bit] := scores[c.bit] + Vote(luminance, grid, c);
  }

  method Decide(grid: Grid, luminance: seq<Coefficient>, carriers: seq<Carrier>, scores: array<int>) returns (bits: seq<bool>)
    requires Inside(grid, carriers, |luminance|)
    requires forall b :: 0 <= b < scores.Length ==> scores[b] == Score(luminance, grid, carriers, b)
    ensures bits == DecodedBits(luminance, grid, carriers, scores.Length)
  {
    hide Score, DecodedBits;
    var decoded := new bool[scores.Length];
    for b := 0 to scores.Length
      invariant forall k :: 0 <= k < b ==> decoded[k] == DecodedBits(luminance, grid, carriers, scores.Length)[k]
    {
      DecodedAt(luminance, grid, carriers, scores.Length, b);
      decoded[b] := scores[b] >= 0;
    }
    bits := decoded[..];
  }

  /** The row walk that tallies; fails exactly on carriers the walk cannot reach. */
  method ReadCarriers(grid: Grid, luminance: seq<Coefficient>, carriers: seq<Carrier>, count: nat)
    returns (r: Result<seq<bool>, WalkError>)
    requires Inside(grid, carriers, |luminance|) && BitsInRange(carriers, count)
    ensures r.Ok? <==> Walkable(carriers, grid.high)
    ensures r.Ok? ==> r.value == DecodedBits(luminance, grid, carriers, count)
  {
    var scores := new int[count](_ => 0);
    var index, row := 0, 0;
    assert forall b :: 0 <= b < count ==> scores[b] == Score(luminance, grid, carriers[..0], b);
    hide Score, Vote, DecodedBits, Inside, BitsInRange, WalkedTo, WalkingRow, Walkable;
    WalkStarts(carriers);
    while row < grid.high && index < |carriers|
      invariant row <= grid.high && index <= |carriers| && WalkedTo(carriers, row, index)
      invariant forall b :: 0 <= b < count ==> scores[b] == Score(luminance, grid, carriers[..index], b)
      decreases grid.high - row
    {
      EnterRow(carriers, row, index);
      while index < |carriers| && carriers[index].row == row
        invariant index <= |carriers|
        invariant WalkingRow(carriers, row, index)
        invariant forall b :: 0 <= b < count ==> scores[b] == Score(luminance, grid, carriers[..index], b)
        decreases |carriers| - index
      {
        Tally(grid, luminance, carriers, index, scores);
        StepRow(carriers, row, index);
        index := index + 1;
      }
      LeaveRow(carriers, row, index);
      row := row + 1;
    }
    WalkEnds(carriers, row, index, grid.high);
    if index != |carriers| {
      return Err(IndexExceedsImage);
    }
    assert carriers[..|carriers|] == carriers;
    var bits := Decide(grid, luminance, carriers, scores);
    return Ok(bits);
  }

  // ----- What the vote survives -----

  /** Every copy lies on the lattice of its bit. */
  ghost predicate OnLattices(sent: seq<Coefficient>, grid: Grid, carriers: seq<Carrier>, bits: seq<bool>) {
    && Inside(grid, carriers, |sent|) && BitsInRange(carriers, |bits|)
    && forall i :: 0 <= i < |carriers| ==>
         OnLattice(sent[Offset(grid, carriers[i])], bits[carriers[i].bit] != carriers[i].whitening, carriers[i].dither)
  }

  /** Copies of a bit that arrive more than one step away from what was sent. */
  ghost function Damaged(sent: seq<Coefficient>, received: seq<Coefficient>, grid: Grid, carriers: seq<Carrier>, bit: nat): nat
    requires |sent| == |received| && Inside(grid, carriers, |sent|)
  {
    if carriers == [] then 0
    else
      var n := |carriers| - 1;
      var o := Offset(grid, carriers[n]);
      Damaged(sent, received, grid, carriers[..n], bit)
      + (if carriers[n].bit == bit && !Near(received[o], sent[o]) then 1 else 0)
  }

  /** An undamaged copy votes for its bit with at least 3; any copy votes against it with at most 5. */
  lemma VoteBounds(sent: seq<Coefficient>, received: seq<Coefficient>, grid: Grid, c: Carrier, bit: bool)
    requires |sent| == |received| && Offset(grid, c) < |sent|
    requires OnLattice(sent[Offset(grid, c)], bit != c.whitening, c.dither)
    ensures var v, near := Vote(received, grid, c), Near(received[Offset(grid, c)], sent[Offset(grid, c)]);
      if bit then v >= (if near then 3 else -5) else v <= if near then -3 else 5
  {
    var o := Offset(grid, c);
    if Near(received[o], sent[o]) { DecodeNearLattice(sent[o], received[o], bit != c.whitening, c.dither); }
    hide QimDecode, OnLattice;
  }

  lemma {:induction false} ScoreBounds(sent: seq<Coefficient>, received: seq<Coefficient>, grid: Grid,
                                       carriers: seq<Carrier>, bits: seq<bool>, bit: nat)
    requires |sent| == |received| && OnLattices(sent, grid, carriers, bits) && bit < |bits|
    ensures Damaged(sent, received, grid, carriers, bit) <= CopiesOf(carriers, bit)
    ensures var bad, good := Damaged(sent, received, grid, carriers, bit),
                             CopiesOf(carriers, bit) - Damaged(sent, received, grid, carriers, bit);
      var score := Score(received, grid, carriers, bit);
      if bits[bit] then score >= 3 * good - 5 * bad else score <= 5 * bad - 3 * good
  {
    hide Offset, Vote, OnLattice, Near;
    if carriers != [] {
      var n, c := |carriers| - 1, carriers[|carriers| - 1];
      ScoreBounds(sent, received, grid, carriers[..n], bits, bit);
      VoteBounds(sent, received, grid, c, bits[c.bit]);
    }
  }

  /** Each bit is decided rightly as long as fewer than three in eight of its copies are damaged, however badly. */
  ghost predicate Tolerable(sent: seq<Coefficient>, received: seq<Coefficient>, grid: Grid, carriers: seq<Carrier>, count: nat)
    requires |sent| == |received| && Inside(grid, carriers, |sent|)
  {
    forall bit :: 0 <= bit < count ==> 8 * Damaged(sent, received, grid, carriers, bit) < 3 * CopiesOf(carriers, bit)
  }

  lemma VoteRecovers(sent: seq<Coefficient>, received: seq<Coefficient>, grid: Grid, carriers: seq<Carrier>, bits: seq<bool>)
    requires |sent| == |received| && OnLattices(sent, grid, carriers, bits)
    requires Tolerable(sent, received, grid, carriers, |bits|)
    ensures DecodedBits(received, grid, carriers, |bits|) == bits
  {
    hide OnLattice, DecodedBits, Score, Damaged, CopiesOf;
    forall bit | 0 <= bit < |bits| ensures DecodedBits(received, grid, carriers, |bits|)[bit] == bits[bit] {
      ScoreBounds(sent, received, grid, carriers, bits, bit);
      DecodedAt(received, grid, carriers, |bits|, bit);
    }
  }

  // ----- How sharp that is -----

  /** The damage that can turn a bit: a score of zero still reads one. */
  predicate Outvotes(bit: bool, damaged: nat, copies: nat) {
    if bit then 8 * damaged > 3 * copies else 8 * damaged >= 3 * copies
  }

  /** With `k` damaged copies the bit arrives as the other value. */
  ghost predicate Flips(sent: seq<Coefficient>, received: seq<Coefficient>, grid: Grid, carriers: seq<Carrier>,
                        bits: seq<bool>, bit: nat, k: nat)
    requires Inside(grid, carriers, |sent|) && bit < |bits|
  {
    && |received| == |sent| && Damaged(sent, received, grid, carriers, bit) == k
    && DecodedBits(received, grid, carriers, |bits|)[bit] != bits[bit]
  }

  /** A copy as it arrives at worst: on the other lattice, or one step off. One of the two directions is always in range. */
  function AtWorst(x: Coefficient, damaged: bool): (y: Coefficient)
    ensures Abs(y - x) == if damaged then 4 else 1
  {
    var step := if damaged then 4 else 1;
    if x + step <= MAX_COEFFICIENT then x + step else x - step
  }

  lemma WorstVote(sent: seq<Coefficient>, received: seq<Coefficient>, grid: Grid, c: Carrier, bit: bool, damaged: bool)
    requires |sent| == |received| && Offset(grid, c) < |sent|
    requires OnLattice(sent[Offset(grid, c)], bit != c.whitening, c.dither)
    requires received[Offset(grid, c)] == AtWorst(sent[Offset(grid, c)], damaged)
    ensures Near(received[Offset(grid, c)], sent[Offset(grid, c)]) <==> !damaged
    ensures Vote(received, grid, c) == if bit then (if damaged then -5 else 3) else if damaged then 5 else -3
  {
    hide QimDecode, OnLattice, AtWorst;
    var o := Offset(grid, c);
    if damaged {
      OtherLattice(sent[o], received[o], bit != c.whitening, c.dither);
      DecodeNearLattice(received[o], received[o], bit == c.whitening, c.dither);
    } else {
      DecodeNearLattice(sent[o], received[o], bit != c.whitening, c.dither);
    }
  }

  lemma OtherLattice(v: int, w: int, bit: bool, dither: Dither)
    requires OnLattice(v, bit, dither) && Abs(w - v) == 4
    ensures OnLattice(w, !bit, dither)
  {
  }

  /** The first `n` carriers at worst: the first `k` copies of the bit are damaged, the others one step off. */
  ghost function WorstCase(sent: seq<Coefficient>, grid: Grid, carriers: seq<Carrier>, bit: nat, k: nat, n: nat):
    (received: seq<Coefficient>)
    requires n <= |carriers| && Inside(grid, carriers, |sent|)
    ensures |received| == |sent|
  {
    if n == 0 then sent
    else
      var r, c := WorstCase(sent, grid, carriers, bit, k, n - 1), carriers[n - 1];
      if c.bit != bit then r
      else r[Offset(grid, c) := AtWorst(sent[Offset(grid, c)], CopiesOf(carriers[..n - 1], bit) < k)]
  }

  /** Carrier `i` as it arrives then. */
  ghost predicate Suffers(sent: seq<Coefficient>, received: seq<Coefficient>, grid: Grid, carriers: seq<Carrier>,
                          bit: nat, k: nat, i: nat)
    requires |received| == |sent| && i < |carriers| && Inside(grid, carriers, |sent|)
  {
    var o := Offset(grid, carriers[i]);
    received[o] == if carriers[i].bit == bit then AtWorst(sent[o], CopiesOf(carriers[..i], bit) < k) else sent[o]
  }

  ghost predicate AllSuffer(sent: seq<Coefficient>, received: seq<Coefficient>, grid: Grid, carriers: seq<Carrier>,
                            bit: nat, k: nat)
    requires |received| == |sent| && Inside(grid, carriers, |sent|)
  {
    forall i :: 0 <= i < |carriers| ==> Suffers(sent, received, grid, carriers, bit, k, i)
  }

  lemma {:induction false} WorstCaseAt(sent: seq<Coefficient>, grid: Grid, carriers: seq<Carrier>, bit: nat, k: nat, n: nat)
    requires n <= |carriers| && Inside(grid, carriers, |sent|) && Separate(grid, carriers)
    ensures var received := WorstCase(sent, grid, carriers, bit, k, n);
      && (forall o :: 0 <= o < |sent| && !Touches(grid, carriers[..n], o) ==> received[o] == sent[o])
      && (forall i :: 0 <= i < n ==> Suffers(sent, received, grid, carriers, bit, k, i))
  {
    hide Offset, AtWorst, CopiesOf, Separate;
    if n > 0 {
      WorstCaseAt(sent, grid, carriers, bit, k, n - 1);
      var before, received := WorstCase(sent, grid, carriers, bit, k, n - 1), WorstCase(sent, grid, carriers, bit, k, n);
      FreshTouch(grid, carriers, n - 1);
      forall o | 0 <= o < |sent| && !Touches(grid, carriers[..n], o) ensures received[o] == sent[o] {
        NotTouchedBefore(grid, carriers, n, o);
      }
      forall i | 0 <= i < n ensures Suffers(sent, received, grid, carriers, bit, k, i) {
        if i < n - 1 {
          assert carriers[..n - 1][i] == carriers[i];
          assert Offset(grid, carriers[..n - 1][i]) != Offset(grid, carriers[n - 1]);
          assert Suffers(sent, before, grid, carriers, bit, k, i);
        }
      }
    }
  }

  lemma WorstCaseSuffers(sent: seq<Coefficient>, grid: Grid, carriers: seq<Carrier>, bit: nat, k: nat)
    requires Inside(grid, carriers, |sent|) && Separate(grid, carriers)
    ensures AllSuffer(sent, WorstCase(sent, grid, carriers, bit, k, |carriers|), grid, carriers, bit, k)
  {
    hide WorstCase, Offset, AtWorst, CopiesOf, Separate;
    WorstCaseAt(sent, grid, carriers, bit, k, |carriers|);
  }

  /** The votes of the first `n` carriers then add up to the worst there is. */
  lemma {:induction false} WorstScore(sent: seq<Coefficient>, received: seq<Coefficient>, grid: Grid, carriers: seq<Carrier>,
                                      bits: seq<bool>, bit: nat, k: nat, n: nat)
    requires |sent| == |received| && OnLattices(sent, grid, carriers, bits) && bit < |bits| && n <= |carriers|
    requires AllSuffer(sent, received, grid, carriers, bit, k)
    ensures Inside(grid, carriers[..n], |sent|)
    ensures var copies := CopiesOf(carriers[..n], bit);
      var bad := if copies < k then copies else k;
      && Damaged(sent, received, grid, carriers[..n], bit) == bad
      && Score(received, grid, carriers[..n], bit)
         == if bits[bit] then 3 * (copies - bad) - 5 * bad else 5 * bad - 3 * (copies - bad)
  {
    hide Offset, Vote, OnLattice, Near, AtWorst;
    if n > 0 {
      var c := carriers[n - 1];
      WorstScore(sent, received, grid, carriers, bits, bit, k, n - 1);
      assert carriers[..n][..n - 1] == carriers[..n - 1] && carriers[..n][n - 1] == c;
      if c.bit == bit {
        assert Suffers(sent, received, grid, carriers, bit, k, n - 1);
        WorstVote(sent, received, grid, c, bits[bit], CopiesOf(carriers[..n - 1], bit) < k);
      }
    }
  }

  /**
    The tolerance is sharp: a bit can be turned by damaging `k` of its copies, the
    others arriving one step off, exactly when `k` is past three in eight. (Three in
    eight itself turns a zero, as a tie reads one.)
   */
  lemma ToleranceIsSharp(sent: seq<Coefficient>, grid: Grid, carriers: seq<Carrier>, bits: seq<bool>, bit: nat, k: nat)
    requires OnLattices(sent, grid, carriers, bits) && Separate(grid, carriers) && bit < |bits|
    requires k <= CopiesOf(carriers, bit)
    ensures (exists received :: Flips(sent, received, grid, carriers, bits, bit, k))
            <==> Outvotes(bits[bit], k, CopiesOf(carriers, bit))
  {
    hide OnLattices, Separate, DecodedBits, Score, Damaged, CopiesOf, WorstCase, AllSuffer;
    LatticesAreInside(sent, grid, carriers, bits);
    var copies := CopiesOf(carriers, bit);
    if received :| Flips(sent, received, grid, carriers, bits, bit, k) {
      ScoreBounds(sent, received, grid, carriers, bits, bit);
      DecodedAt(received, grid, carriers, |bits|, bit);
    }
    if Outvotes(bits[bit], k, copies) {
      var received := WorstCase(sent, grid, carriers, bit, k, |carriers|);
      WorstCaseSuffers(sent, grid, carriers, bit, k);
      WorstScore(sent, received, grid, carriers, bits, bit, k, |carriers|);
      assert carriers[..|carriers|] == carriers;
      DecodedAt(received, grid, carriers, |bits|, bit);
      assert Flips(sent, received, grid, carriers, bits, bit, k);
    }
  }

  lemma LatticesAreInside(sent: seq<Coefficient>, grid: Grid, carriers: seq<Carrier>, bits: seq<bool>)
    requires OnLattices(sent, grid, carriers, bits)
    ensures Inside(grid, carriers, |sent|)
  {
  }

  /** The payload's three copies: two can turn a bit, one cannot. */
  lemma TwoOfThreeCanFlip(sent: seq<Coefficient>, grid: Grid, carriers: seq<Carrier>, bits: seq<bool>, bit: nat)
    requires OnLattices(sent, grid, carriers, bits) && Separate(grid, carriers) && bit < |bits| && CopiesOf(carriers, bit) == 3
    ensures exists received :: Flips(sent, received, grid, carriers, bits, bit, 2)
    ensures forall received :: !Flips(sent, received, grid, carriers, bits, bit, 1)
  {
    hide OnLattices, Separate, CopiesOf, Flips;
    LatticesAreInside(sent, grid, carriers, bits);
    ToleranceIsSharp(sent, grid, carriers, bits, bit, 2);
    ToleranceIsSharp(sent, grid, carriers, bits, bit, 1);
  }

  /** The header's seventeen copies: seven can turn a bit, six cannot. */
  lemma SevenOfSeventeenCanFlip(sent: seq<Coefficient>, grid: Grid, carriers: seq<Carrier>, bits: seq<bool>, bit: nat)
    requires OnLattices(sent, grid, carriers, bits) && Separate(grid, carriers) && bit < |bits| && CopiesOf(carriers, bit) == 17
    ensures exists received :: Flips(sent, received, grid, carriers, bits, bit, 7)
    ensures forall received :: !Flips(sent, received, grid, carriers, bits, bit, 6)
  {
    hide OnLattices, Separate, CopiesOf, Flips;
    LatticesAreInside(sent, grid, carriers, bits);
    ToleranceIsSharp(sent, grid, carriers, bits, bit, 7);
    ToleranceIsSharp(sent, grid, carriers, bits, bit, 6);
  }
}
