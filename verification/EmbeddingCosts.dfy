/**
  The J-UNIWARD cost of every selected coefficient. Each cost weighs the residuals
  around the coefficient's block; the residuals are computed strip by strip in offset
  order, and every cost equals the one the whole padded image would give.
 */
module EmbeddingCosts {
  import opened Results
  import opened ResidualPlanes

  const TWO_TO_32: nat := 0x1_0000_0000
  const MAX_U64: nat := 0xFFFF_FFFF_FFFF_FFFF
  const IMPACT_SIZE: nat := 23
  const IMPACT_AREA: nat := 529
  const IMPACT_ORIGIN: nat := 9
  const STRIP_BLOCK_ROWS: nat := 32
  const STRIP_MOST_ROWS: nat := 271
  const WET: real := 10000000000000.0

  type U32 = x: nat | x < TWO_TO_32

  /** The impact of one coefficient of each mode on each band, a 23 by 23 window each. */
  type Impacts = t: seq<real> | |t| == 64 * 3 * IMPACT_AREA witness Zeros(64 * 3 * IMPACT_AREA)

  function Zeros(n: nat): (z: seq<real>)
    ensures |z| == n
  {
    if n == 0 then [] else Zeros(n - 1) + [0.0]
  }

  datatype Cover = Cover(image: Image, blocksWide: nat, coefficients: nat, quantization: seq<nat>) {
    /** What the carrier's geometry check leaves: blocks, and a quantizer for each mode. */
    predicate Valid() {
      image.width >= 1 && image.height >= 1 && blocksWide >= 1 && |quantization| == 64
    }
  }

  // ----- The cost of one coefficient, from the whole image -----

  function BlockRow(cover: Cover, offset: nat): nat
    requires cover.blocksWide >= 1
  {
    offset / 64 / cover.blocksWide
  }

  function BlockColumn(cover: Cover, offset: nat): nat
    requires cover.blocksWide >= 1
  {
    offset / 64 % cover.blocksWide
  }

  /** One position of the impact window: the three bands. */
  function Term(image: Image, f: Filters, impacts: Impacts, mode: nat, top: nat, left: nat, row: nat, column: nat): real
    requires image.Valid() && mode < 64 && row < IMPACT_SIZE && column < IMPACT_SIZE
  {
    var at := row * IMPACT_SIZE + column;
    impacts[(mode * 3 + 0) * IMPACT_AREA + at] * Residual(image, f.low, f.high, top + row, left + column)
    + impacts[(mode * 3 + 1) * IMPACT_AREA + at] * Residual(image, f.high, f.low, top + row, left + column)
    + impacts[(mode * 3 + 2) * IMPACT_AREA + at] * Residual(image, f.high, f.high, top + row, left + column)
  }

  /** The first `columns` positions of a window row. */
  function RowSumOf(image: Image, f: Filters, impacts: Impacts, mode: nat, top: nat, left: nat, row: nat, columns: nat): real
    requires image.Valid() && mode < 64 && row < IMPACT_SIZE && columns <= IMPACT_SIZE
  {
    if columns == 0 then 0.0
    else RowSumOf(image, f, impacts, mode, top, left, row, columns - 1)
         + Term(image, f, impacts, mode, top, left, row, columns - 1)
  }

  /** The first `rows` rows of a window. */
  function WindowSum(image: Image, f: Filters, impacts: Impacts, mode: nat, top: nat, left: nat, rows: nat): real
    requires image.Valid() && mode < 64 && rows <= IMPACT_SIZE
  {
    if rows == 0 then 0.0
    else WindowSum(image, f, impacts, mode, top, left, rows - 1)
         + RowSumOf(image, f, impacts, mode, top, left, rows - 1, IMPACT_SIZE)
  }

  function Capped(rho: real): real {
    if rho > WET then WET else rho
  }

  /** The cost of the coefficient at an offset; offsets past the coefficients are wet. */
  function CostOf(cover: Cover, f: Filters, impacts: Impacts, offset: nat): real
    requires cover.Valid() && cover.image.Valid()
  {
    if offset >= cover.coefficients then WET
    else
      var top, left := BlockRow(cover, offset) * 8 + IMPACT_ORIGIN, BlockColumn(cover, offset) * 8 + IMPACT_ORIGIN;
      Capped(WindowSum(cover.image, f, impacts, offset % 64, top, left, IMPACT_SIZE) * cover.quantization[offset % 64] as real)
  }

  // ----- What a cost measures -----

  function ImpactIndex(mode: nat, band: nat, row: nat, column: nat): (i: nat)
    requires mode < 64 && band < 3 && row < IMPACT_SIZE && column < IMPACT_SIZE
    ensures i < 64 * 3 * IMPACT_AREA
  {
    (mode * 3 + band) * IMPACT_AREA + row * IMPACT_SIZE + column
  }

  lemma ImpactIndexIsOwn(mode: nat, band: nat, row: nat, column: nat, mode': nat, band': nat, row': nat, column': nat)
    requires mode < 64 && band < 3 && row < IMPACT_SIZE && column < IMPACT_SIZE
    requires mode' < 64 && band' < 3 && row' < IMPACT_SIZE && column' < IMPACT_SIZE
    ensures ImpactIndex(mode, band, row, column) == ImpactIndex(mode', band', row', column')
            <==> mode == mode' && band == band' && row == row' && column == column'
  {
    OwnCell(mode * 3 + band, row * IMPACT_SIZE + column, mode' * 3 + band', row' * IMPACT_SIZE + column');
    OwnColumn(row, column, row', column');
  }

  lemma OwnCell(plane: nat, cell: nat, plane': nat, cell': nat)
    requires cell < IMPACT_AREA && cell' < IMPACT_AREA
    ensures plane * IMPACT_AREA + cell == plane' * IMPACT_AREA + cell' <==> plane == plane' && cell == cell'
  {
  }

  lemma OwnColumn(row: nat, column: nat, row': nat, column': nat)
    requires column < IMPACT_SIZE && column' < IMPACT_SIZE
    ensures row * IMPACT_SIZE + column == row' * IMPACT_SIZE + column' <==> row == row' && column == column'
  {
  }

  /** A table in which one coefficient mode touches one place of one band, and nothing else does. */
  ghost predicate SingleImpact(impacts: Impacts, mode: nat, band: nat, row: nat, column: nat)
    requires mode < 64 && band < 3 && row < IMPACT_SIZE && column < IMPACT_SIZE
  {
    forall i :: 0 <= i < |impacts| ==> impacts[i] == if i == ImpactIndex(mode, band, row, column) then 1.0 else 0.0
  }

  /** The filters of a band: low-pass down the columns only in band 0, along the rows only in band 1. */
  function DownOf(f: Filters, band: nat): Filter {
    if band == 0 then f.low else f.high
  }

  function AlongOf(f: Filters, band: nat): Filter {
    if band == 1 then f.low else f.high
  }

  lemma SingleTerm(image: Image, f: Filters, impacts: Impacts, mode: nat, band: nat, row: nat, column: nat,
                   m: nat, top: nat, left: nat, r: nat, c: nat)
    requires image.Valid() && mode < 64 && band < 3 && row < IMPACT_SIZE && column < IMPACT_SIZE
    requires m < 64 && r < IMPACT_SIZE && c < IMPACT_SIZE && SingleImpact(impacts, mode, band, row, column)
    ensures Term(image, f, impacts, m, top, left, r, c)
         == if m == mode && r == row && c == column
            then Residual(image, DownOf(f, band), AlongOf(f, band), top + row, left + column) else 0.0
  {
    hide Residual;
    ImpactAt(impacts, mode, band, row, column, m, 0, r, c);
    ImpactAt(impacts, mode, band, row, column, m, 1, r, c);
    ImpactAt(impacts, mode, band, row, column, m, 2, r, c);
    hide SingleImpact, ImpactIndex;
  }

  lemma ImpactAt(impacts: Impacts, mode: nat, band: nat, row: nat, column: nat, m: nat, b: nat, r: nat, c: nat)
    requires mode < 64 && band < 3 && row < IMPACT_SIZE && column < IMPACT_SIZE
    requires m < 64 && b < 3 && r < IMPACT_SIZE && c < IMPACT_SIZE && SingleImpact(impacts, mode, band, row, column)
    ensures (m * 3 + b) * IMPACT_AREA + (r * IMPACT_SIZE + c) < |impacts|
    ensures impacts[(m * 3 + b) * IMPACT_AREA + (r * IMPACT_SIZE + c)]
         == if m == mode && b == band && r == row && c == column then 1.0 else 0.0
  {
    ImpactIndexIsOwn(m, b, r, c, mode, band, row, column);
    assert ImpactIndex(m, b, r, c) == (m * 3 + b) * IMPACT_AREA + (r * IMPACT_SIZE + c);
  }

  lemma {:induction false} SingleRowSum(image: Image, f: Filters, impacts: Impacts, mode: nat, band: nat, row: nat, column: nat,
                                        m: nat, top: nat, left: nat, r: nat, columns: nat)
    requires image.Valid() && mode < 64 && band < 3 && row < IMPACT_SIZE && column < IMPACT_SIZE
    requires m < 64 && r < IMPACT_SIZE && columns <= IMPACT_SIZE && SingleImpact(impacts, mode, band, row, column)
    ensures RowSumOf(image, f, impacts, m, top, left, r, columns)
         == if m == mode && r == row && column < columns
            then Residual(image, DownOf(f, band), AlongOf(f, band), top + row, left + column) else 0.0
  {
    hide Residual, Term, SingleImpact, DownOf, AlongOf;
    if columns > 0 {
      SingleRowSum(image, f, impacts, mode, band, row, column, m, top, left, r, columns - 1);
      SingleTerm(image, f, impacts, mode, band, row, column, m, top, left, r, columns - 1);
    }
  }

  lemma {:induction false} SingleWindowSum(image: Image, f: Filters, impacts: Impacts, mode: nat, band: nat, row: nat, column: nat,
                                           m: nat, top: nat, left: nat, rows: nat)
    requires image.Valid() && mode < 64 && band < 3 && row < IMPACT_SIZE && column < IMPACT_SIZE
    requires m < 64 && rows <= IMPACT_SIZE && SingleImpact(impacts, mode, band, row, column)
    ensures WindowSum(image, f, impacts, m, top, left, rows)
         == if m == mode && row < rows
            then Residual(image, DownOf(f, band), AlongOf(f, band), top + row, left + column) else 0.0
  {
    hide Residual, RowSumOf, SingleImpact, DownOf, AlongOf;
    if rows > 0 {
      SingleWindowSum(image, f, impacts, mode, band, row, column, m, top, left, rows - 1);
      SingleRowSum(image, f, impacts, mode, band, row, column, m, top, left, rows - 1, IMPACT_SIZE);
    }
  }

  /** What a single impact costs: the residual at its place of the block's window times the mode's quantizer, at most wet. */
  ghost function SingleCost(cover: Cover, f: Filters, mode: nat, band: nat, row: nat, column: nat, offset: nat): real
    requires cover.Valid() && cover.image.Valid() && mode < 64
  {
    var block := offset / 64;
    var y, x := block / cover.blocksWide * 8 + 9 + row, block % cover.blocksWide * 8 + 9 + column;
    var cost := cover.quantization[mode] as real * Residual(cover.image, DownOf(f, band), AlongOf(f, band), y, x);
    if offset >= cover.coefficients then 10000000000000.0
    else if offset % 64 != mode then 0.0
    else if cost < 10000000000000.0 then cost else 10000000000000.0
  }

  lemma SingleImpactCosts(cover: Cover, f: Filters, impacts: Impacts, mode: nat, band: nat, row: nat, column: nat, offset: nat)
    requires cover.Valid() && cover.image.Valid() && mode < 64 && band < 3 && row < IMPACT_SIZE && column < IMPACT_SIZE
    requires SingleImpact(impacts, mode, band, row, column)
    ensures CostOf(cover, f, impacts, offset) == SingleCost(cover, f, mode, band, row, column, offset)
  {
    hide Residual, WindowSum, SingleImpact, DownOf, AlongOf;
    var top, left := BlockRow(cover, offset) * 8 + IMPACT_ORIGIN, BlockColumn(cover, offset) * 8 + IMPACT_ORIGIN;
    SingleWindowSum(cover.image, f, impacts, mode, band, row, column, offset % 64, top, left, IMPACT_SIZE);
  }

  /** A sum with the second part scaled. */
  function Blend(a: real, b: real, scale: real): real {
    a + scale * b
  }

  /** The impacts of one table are the sums of those of two others, the second one scaled. */
  ghost predicate ImpactsAdd(a: Impacts, b: Impacts, scale: real, sum: Impacts) {
    forall i :: 0 <= i < |sum| ==> sum[i] == Blend(a[i], b[i], scale)
  }

  lemma BlendAdds(a: real, b: real, c: real, d: real, scale: real)
    ensures Blend(a, b, scale) + Blend(c, d, scale) == Blend(a + c, b + d, scale)
  {
    Distributes(scale, b, d);
  }

  lemma BlendTimes(a: real, b: real, scale: real, x: real, sum: real, p: real, q: real)
    requires sum == Blend(a, b, scale) && p == a * x && q == b * x
    ensures sum * x == Blend(p, q, scale)
  {
    var c := scale * b;
    Distributes(x, a, c);
    Regrouped(scale, b, x);
  }

  lemma Regrouped(a: real, b: real, c: real)
    ensures (a * b) * c == a * (b * c)
  {
  }

  lemma BlendNothing(scale: real)
    ensures Blend(0.0, 0.0, scale) == 0.0
  {
  }

  lemma TermsAdd(image: Image, f: Filters, a: Impacts, b: Impacts, scale: real, sum: Impacts,
                 mode: nat, top: nat, left: nat, row: nat, column: nat)
    requires image.Valid() && mode < 64 && row < IMPACT_SIZE && column < IMPACT_SIZE && ImpactsAdd(a, b, scale, sum)
    ensures Term(image, f, sum, mode, top, left, row, column)
         == Blend(Term(image, f, a, mode, top, left, row, column), Term(image, f, b, mode, top, left, row, column), scale)
  {
    hide Residual, Blend;
    var at := row * IMPACT_SIZE + column;
    var i, j, k := (mode * 3 + 0) * IMPACT_AREA + at, (mode * 3 + 1) * IMPACT_AREA + at, (mode * 3 + 2) * IMPACT_AREA + at;
    var x, y, z := Residual(image, f.low, f.high, top + row, left + column),
                   Residual(image, f.high, f.low, top + row, left + column),
                   Residual(image, f.high, f.high, top + row, left + column);
    var p0, p1, p2 := a[i] * x, a[j] * y, a[k] * z;
    var q0, q1, q2 := b[i] * x, b[j] * y, b[k] * z;
    BlendTimes(a[i], b[i], scale, x, sum[i], p0, q0);
    BlendTimes(a[j], b[j], scale, y, sum[j], p1, q1);
    BlendTimes(a[k], b[k], scale, z, sum[k], p2, q2);
    BlendAdds(p0, q0, p1, q1, scale);
    BlendAdds(p0 + p1, q0 + q1, p2, q2, scale);
    assert Term(image, f, a, mode, top, left, row, column) == p0 + p1 + p2;
    assert Term(image, f, b, mode, top, left, row, column) == q0 + q1 + q2;
  }

  lemma {:induction false} RowSumsAdd(image: Image, f: Filters, a: Impacts, b: Impacts, scale: real, sum: Impacts,
                                      mode: nat, top: nat, left: nat, row: nat, columns: nat)
    requires image.Valid() && mode < 64 && row < IMPACT_SIZE && columns <= IMPACT_SIZE && ImpactsAdd(a, b, scale, sum)
    ensures RowSumOf(image, f, sum, mode, top, left, row, columns)
         == Blend(RowSumOf(image, f, a, mode, top, left, row, columns), RowSumOf(image, f, b, mode, top, left, row, columns), scale)
  {
    hide Term, ImpactsAdd, Blend;
    if columns == 0 {
      BlendNothing(scale);
    } else {
      RowSumsAdd(image, f, a, b, scale, sum, mode, top, left, row, columns - 1);
      TermsAdd(image, f, a, b, scale, sum, mode, top, left, row, columns - 1);
      BlendAdds(RowSumOf(image, f, a, mode, top, left, row, columns - 1), RowSumOf(image, f, b, mode, top, left, row, columns - 1),
                Term(image, f, a, mode, top, left, row, columns - 1), Term(image, f, b, mode, top, left, row, columns - 1), scale);
    }
  }

  lemma {:induction false} WindowsAdd(image: Image, f: Filters, a: Impacts, b: Impacts, scale: real, sum: Impacts,
                                      mode: nat, top: nat, left: nat, rows: nat)
    requires image.Valid() && mode < 64 && rows <= IMPACT_SIZE && ImpactsAdd(a, b, scale, sum)
    ensures WindowSum(image, f, sum, mode, top, left, rows)
         == Blend(WindowSum(image, f, a, mode, top, left, rows), WindowSum(image, f, b, mode, top, left, rows), scale)
  {
    hide RowSumOf, ImpactsAdd, Blend;
    if rows == 0 {
      BlendNothing(scale);
    } else {
      WindowsAdd(image, f, a, b, scale, sum, mode, top, left, rows - 1);
      RowSumsAdd(image, f, a, b, scale, sum, mode, top, left, rows - 1, IMPACT_SIZE);
      BlendAdds(WindowSum(image, f, a, mode, top, left, rows - 1), WindowSum(image, f, b, mode, top, left, rows - 1),
                RowSumOf(image, f, a, mode, top, left, rows - 1, IMPACT_SIZE),
                RowSumOf(image, f, b, mode, top, left, rows - 1, IMPACT_SIZE), scale);
    }
  }

  /**
    Below the cap, costs add up when impact tables do, and scale with them. As every
    table is a sum of scaled single impacts, this and `SingleImpactCosts` fix every
    cost below the cap.
   */
  lemma CostsAdd(cover: Cover, f: Filters, a: Impacts, b: Impacts, scale: real, sum: Impacts, offset: nat)
    requires cover.Valid() && cover.image.Valid() && ImpactsAdd(a, b, scale, sum)
    requires offset < cover.coefficients && CostOf(cover, f, a, offset) < WET && CostOf(cover, f, b, offset) < WET
    ensures var exact := CostOf(cover, f, a, offset) + scale * CostOf(cover, f, b, offset);
      CostOf(cover, f, sum, offset) == if exact > WET then WET else exact
  {
    hide WindowSum, ImpactsAdd, BlockRow, BlockColumn;
    var top, left, mode := BlockRow(cover, offset) * 8 + IMPACT_ORIGIN, BlockColumn(cover, offset) * 8 + IMPACT_ORIGIN, offset % 64;
    WindowsAdd(cover.image, f, a, b, scale, sum, mode, top, left, IMPACT_SIZE);
    var a0, b0 := WindowSum(cover.image, f, a, mode, top, left, IMPACT_SIZE), WindowSum(cover.image, f, b, mode, top, left, IMPACT_SIZE);
    var q := cover.quantization[mode] as real;
    BlendTimes(a0, b0, scale, q, WindowSum(cover.image, f, sum, mode, top, left, IMPACT_SIZE), a0 * q, b0 * q);
  }

  /** The block of a coefficient starts inside the image. */
  predicate StartsInside(cover: Cover, offset: nat)
    requires cover.blocksWide >= 1
  {
    offset < cover.coefficients ==>
      BlockRow(cover, offset) * 8 < cover.image.height && BlockColumn(cover, offset) * 8 < cover.image.width
  }

  // ----- The order of visits -----

  /** Offset in the high half, carrier slot in the low half. */
  function Key(offset: U32, slot: U32): nat {
    offset * TWO_TO_32 + slot
  }

  function KeyOffset(key: nat): nat { key / TWO_TO_32 }

  function KeySlot(key: nat): nat { key % TWO_TO_32 }

  function KeyBound(offset: nat): nat {
    if offset > TWO_TO_32 - 1 then MAX_U64 else offset * TWO_TO_32
  }

  lemma KeyParts(offset: U32, slot: U32)
    ensures KeyOffset(Key(offset, slot)) == offset && KeySlot(Key(offset, slot)) == slot
  {
  }

  /** The bound separates the keys below an offset from the others; no slot is 2^32 - 1. */
  lemma BoundSeparates(key: nat, limit: nat)
    requires key < MAX_U64
    ensures key < KeyBound(limit) <==> KeyOffset(key) < limit
  {
  }

  ghost predicate Ordered(keys: seq<nat>) {
    forall i, j :: 0 <= i < j < |keys| ==> keys[i] <= keys[j]
  }

  function Insert(keys: seq<nat>, key: nat): (r: seq<nat>)
    ensures multiset(r) == multiset(keys) + multiset{key}
    ensures Ordered(keys) ==> Ordered(r)
  {
    if keys == [] then [key]
    else
      var last := keys[|keys| - 1];
      assert keys == keys[..|keys| - 1] + [last];
      if last <= key then keys + [key] else
        var front := Insert(keys[..|keys| - 1], key);
        InsertOrdered(keys, key, front);
        front + [last]
  }

  lemma InsertOrdered(keys: seq<nat>, key: nat, front: seq<nat>)
    requires keys != [] && key < keys[|keys| - 1]
    requires multiset(front) == multiset(keys[..|keys| - 1]) + multiset{key}
    requires Ordered(keys) ==> Ordered(front)
    ensures Ordered(keys) ==> Ordered(front + [keys[|keys| - 1]])
  {
    if Ordered(keys) {
      var last := keys[|keys| - 1];
      forall i | 0 <= i < |front| ensures front[i] <= last {
        assert front[i] in multiset(front);
        assert front[i] == key || front[i] in keys[..|keys| - 1];
      }
    }
  }

  /** The library's sort: the same keys, in order. */
  method Sort(keys: seq<nat>) returns (r: seq<nat>)
    ensures multiset(r) == multiset(keys) && Ordered(r)
  {
    r := [];
    for i := 0 to |keys|
      invariant multiset(r) == multiset(keys[..i]) && Ordered(r)
    {
      r := Insert(r, keys[i]);
      assert keys[..i + 1] == keys[..i] + [keys[i]];
    }
    assert keys[..|keys|] == keys;
  }

  /** The first position from `low` on whose key is not below the bound. */
  method LowerBound(keys: seq<nat>, low: nat, high: nat, bound: nat) returns (at: nat)
    requires low <= high <= |keys| && Ordered(keys)
    ensures low <= at <= high
    ensures forall i :: low <= i < at ==> keys[i] < bound
    ensures forall i :: at <= i < high ==> keys[i] >= bound
  {
    var a, b := low, high;
    while a < b
      invariant low <= a <= b <= high
      invariant forall i :: low <= i < a ==> keys[i] < bound
      invariant forall i :: b <= i < high ==> keys[i] >= bound
    {
      var middle := (a + b) / 2;
      if keys[middle] < bound {
        a := middle + 1;
      } else {
        b := middle;
      }
    }
    return a;
  }

  /** The order holds one key for each slot. */
  ghost predicate Visits(order: seq<nat>, selected: seq<U32>) {
    && |selected| < TWO_TO_32 && Ordered(order)
    && (forall k :: 0 <= k < |order| ==> order[k] < MAX_U64 && KeySlot(order[k]) < |selected|
                                         && KeyOffset(order[k]) == selected[KeySlot(order[k])])
    && (forall s :: 0 <= s < |selected| ==> Key(selected[s], s) in order)
  }

  function KeysOf(selected: seq<U32>, n: nat): (keys: seq<nat>)
    requires n <= |selected| < TWO_TO_32
    ensures |keys| == n && forall s :: 0 <= s < n ==> keys[s] == Key(selected[s], s)
  {
    if n == 0 then [] else KeysOf(selected, n - 1) + [Key(selected[n - 1], n - 1)]
  }

  lemma KeyFits(offset: U32, slot: U32)
    requires slot < TWO_TO_32 - 1
    ensures Key(offset, slot) < MAX_U64
  {
  }

  /** Every sorted key is the key of some slot. */
  lemma SortedKeyIsSlots(order: seq<nat>, selected: seq<U32>, k: nat)
    requires |selected| < TWO_TO_32 && multiset(order) == multiset(KeysOf(selected, |selected|)) && k < |order|
    ensures order[k] < MAX_U64 && KeySlot(order[k]) < |selected| && KeyOffset(order[k]) == selected[KeySlot(order[k])]
  {
    hide KeyOffset, KeySlot, Key, KeysOf;
    var keys := KeysOf(selected, |selected|);
    assert order[k] in multiset(order);
    assert order[k] in keys;
    var s :| 0 <= s < |keys| && keys[s] == order[k];
    KeyParts(selected[s], s);
    KeyFits(selected[s], s);
  }

  /** Every slot's key is among the sorted keys. */
  lemma SlotIsVisited(order: seq<nat>, selected: seq<U32>, s: nat)
    requires |selected| < TWO_TO_32 && multiset(order) == multiset(KeysOf(selected, |selected|)) && s < |selected|
    ensures Key(selected[s], s) in order
  {
    hide Key, KeysOf;
    var keys := KeysOf(selected, |selected|);
    assert keys[s] in multiset(keys);
    assert keys[s] in multiset(order);
  }

  lemma SortedVisits(order: seq<nat>, selected: seq<U32>)
    requires |selected| < TWO_TO_32 && Ordered(order) && multiset(order) == multiset(KeysOf(selected, |selected|))
    ensures Visits(order, selected)
  {
    hide Ordered, KeyOffset, KeySlot, Key, KeysOf;
    forall k | 0 <= k < |order|
      ensures order[k] < MAX_U64 && KeySlot(order[k]) < |selected| && KeyOffset(order[k]) == selected[KeySlot(order[k])]
    {
      SortedKeyIsSlots(order, selected, k);
    }
    forall s | 0 <= s < |selected| ensures Key(selected[s], s) in order {
      SlotIsVisited(order, selected, s);
    }
  }
}
