/**
  Quantization index modulation: a bit is the choice between two lattices of step
  8, four apart, shifted together by a keyed dither. C's truncating division is
  written out.
 */
module RedditQim {
  import opened Results
  import opened ParityEdits

  const QIM_STEP: int := 8
  const MIN_COEFFICIENT: int := -32768
  const MAX_COEFFICIENT: int := 32767

  type Dither = d: int | 0 <= d < QIM_STEP

  datatype QimError = LeftLattice

  function Abs(x: int): nat {
    if x < 0 then -x else x
  }

  /** C's quotient and remainder: the quotient is cut towards zero. */
  function Quot(n: int, d: int): (q: int)
    requires d != 0
  {
    var q: int := Abs(n) / Abs(d);
    if (n < 0) == (d < 0) then q else -q
  }

  function Rem(n: int, d: int): (r: int)
    requires d != 0
  {
    n - Quot(n, d) * d
  }

  function FloorDivide(numerator: int, denominator: int): (quotient: int)
    requires denominator != 0
  {
    var quotient := Quot(numerator, denominator);
    var remainder := Rem(numerator, denominator);
    if remainder != 0 && (remainder < 0) != (denominator < 0) then quotient - 1 else quotient
  }

  /** The remainder is smaller than the divisor and takes the numerator's sign. */
  lemma RemIsSmall(n: int, d: int)
    requires d != 0
    ensures Abs(Rem(n, d)) < Abs(d)
    ensures Rem(n, d) != 0 ==> (Rem(n, d) < 0 <==> n < 0)
  {
    hide Quot;
    var a: nat, b: nat := Abs(n), Abs(d);
    Divided(a, b);
    QuotIs(n, d);
    QuotTimes(n, d, a / b, a / b * b);
  }

  lemma QuotIs(n: int, d: int)
    requires d != 0
    ensures var q: int := Abs(n) / Abs(d);
      Quot(n, d) == if (n < 0) == (d < 0) then q else -q
  {
  }

  lemma Divided(a: nat, b: nat)
    requires b > 0
    ensures 0 <= a - a / b * b < b
  {
    assert a == a / b * b + a % b;
  }

  lemma QuotTimes(n: int, d: int, q: int, product: int)
    requires d != 0 && Quot(n, d) == (if (n < 0) == (d < 0) then q else -q) && product == q * Abs(d)
    ensures Quot(n, d) * d == if n < 0 then -product else product
  {
    hide Quot, Abs;
    NegatedTimes(q, d);
    AbsTimes(q, d);
  }

  lemma NegatedTimes(q: int, d: int)
    ensures (-q) * d == -(q * d)
  {
  }

  lemma AbsTimes(q: int, d: int)
    ensures q * Abs(d) == if d < 0 then -(q * d) else q * d
  {
    if d < 0 { NegatedTimes(d, q); }
  }

  /** It is the floor of the exact quotient, for either sign of the divisor. */
  lemma FloorDivideIsFloor(n: int, d: int)
    requires d != 0
    ensures var r := n - FloorDivide(n, d) * d; if d > 0 then 0 <= r < d else d < r <= 0
  {
    RemIsSmall(n, d);
    var q := Quot(n, d);
    assert (q - 1) * d == q * d - d;
  }

  function Target(bit: bool, dither: Dither): int {
    (if bit then (3 * QIM_STEP) / 4 else QIM_STEP / 4) + dither
  }

  /** The lattice points that carry a bit. */
  predicate OnLattice(v: int, bit: bool, dither: Dither) {
    (v - Target(bit, dither)) % QIM_STEP == 0
  }

  /** The lattice point at or below a value. */
  function Lower(value: int, bit: bool, dither: Dither): (lower: int)
    ensures OnLattice(lower, bit, dither) && lower <= value < lower + QIM_STEP
  {
    var target := Target(bit, dither);
    FloorDivideIsFloor(value - target, QIM_STEP);
    target + FloorDivide(value - target, QIM_STEP) * QIM_STEP
  }

  /** The nearer neighbour; on a tie the original's rules. */
  function Choose(value: int, lower: int, upper: int): int {
    if Abs(value - upper) < Abs(value - lower) then upper
    else if Abs(value - upper) == Abs(value - lower) then
      if value > 0 && upper > 0 then upper
      else if value < 0 && lower < 0 then lower
      else if Abs(upper) < Abs(lower) then upper
      else lower
    else lower
  }

  /** Never leaves the range: when the chosen neighbour would, the other one carries the same bit. */
  function QimEncode(coefficient: Coefficient, bit: bool, dither: Dither): (r: Result<int, QimError>)
    ensures r.Ok? && MIN_COEFFICIENT <= r.value <= MAX_COEFFICIENT
    ensures OnLattice(r.value, bit, dither)
    ensures forall v: Coefficient :: OnLattice(v, bit, dither) ==> Abs(r.value - coefficient) <= Abs(v - coefficient)
    ensures Abs(r.value - coefficient) <= 7
    ensures -32765 <= coefficient <= 32764 ==> Abs(r.value - coefficient) <= 4
  {
    var value: int := coefficient;
    var lower := Lower(value, bit, dither);
    var upper := lower + QIM_STEP;
    var nearest := Choose(value, lower, upper);
    var chosen := if nearest > MAX_COEFFICIENT then lower else if nearest < MIN_COEFFICIENT then upper else nearest;
    NothingBetween(lower, bit, dither);
    if chosen > MAX_COEFFICIENT || chosen < MIN_COEFFICIENT then Err(LeftLattice) else Ok(chosen)
  }

  lemma NothingBetween(lower: int, bit: bool, dither: Dither)
    requires OnLattice(lower, bit, dither)
    ensures OnLattice(lower + QIM_STEP, bit, dither)
    ensures forall v :: OnLattice(v, bit, dither) ==> v <= lower || v >= lower + QIM_STEP
  {
  }

  /**
    A tie is broken away from zero, and downwards at zero, unless that leaves the range.
    The original's last tie rule is evaluated at zero, where both neighbours are as far
    from it: it never changes the result.
   */
  lemma TiesGoOutwards(coefficient: Coefficient, bit: bool, dither: Dither)
    requires OnLattice(coefficient - 4, bit, dither)
    ensures var up := if coefficient > 0 then coefficient + 4 <= MAX_COEFFICIENT else coefficient - 4 < MIN_COEFFICIENT;
      QimEncode(coefficient, bit, dither).value == if up then coefficient + 4 else coefficient - 4
  {
    NothingBetween(coefficient - 4, bit, dither);
  }

  // ----- How far a coefficient moves -----

  /** The lattice point closer than a tie, if there is one, is a coefficient: the guard of the fallback. */
  ghost predicate NearestFits(coefficient: Coefficient, bit: bool, dither: Dither) {
    forall v :: coefficient - 3 <= v <= coefficient + 3 && OnLattice(v, bit, dither) ==> MIN_COEFFICIENT <= v <= MAX_COEFFICIENT
  }

  /** Any eight values in a row hold a lattice point. */
  lemma SomePoint(from: int, bit: bool, dither: Dither) returns (v: int)
    ensures from <= v < from + QIM_STEP && OnLattice(v, bit, dither)
  {
    v := from + (Target(bit, dither) - from) % QIM_STEP;
  }

  lemma StepBack(v: int, bit: bool, dither: Dither)
    requires OnLattice(v, bit, dither)
    ensures OnLattice(v - QIM_STEP, bit, dither)
  {
  }

  /** When the nearest point is no coefficient, the one on its other side is taken, 5 to 7 away. */
  lemma FallbackTakesTheOther(coefficient: Coefficient, bit: bool, dither: Dither, v: int)
    requires coefficient - 3 <= v <= coefficient + 3 && OnLattice(v, bit, dither)
    requires v < MIN_COEFFICIENT || v > MAX_COEFFICIENT
    ensures QimEncode(coefficient, bit, dither).value == if v > MAX_COEFFICIENT then v - QIM_STEP else v + QIM_STEP
    ensures Abs(QimEncode(coefficient, bit, dither).value - coefficient) == QIM_STEP - Abs(v - coefficient)
  {
    hide QimEncode, OnLattice;
    StepBack(v, bit, dither);
    NothingBetween(v, bit, dither);
    NothingBetween(v - QIM_STEP, bit, dither);
    var other: Coefficient := if v > MAX_COEFFICIENT then v - QIM_STEP else v + QIM_STEP;
    var r := QimEncode(coefficient, bit, dither).value;
    assert Abs(r - coefficient) <= Abs(other - coefficient);
  }

  /** A move of at most 4: exactly when the fallback is not needed. */
  lemma FourIsExact(coefficient: Coefficient, bit: bool, dither: Dither)
    ensures Abs(QimEncode(coefficient, bit, dither).value - coefficient) <= 4 <==> NearestFits(coefficient, bit, dither)
  {
    hide QimEncode, OnLattice;
    var v := SomePoint(coefficient - 3, bit, dither);
    StepBack(v, bit, dither);
    NothingBetween(v, bit, dither);
    NothingBetween(v - QIM_STEP, bit, dither);
    if v <= coefficient + 3 {
      if v < MIN_COEFFICIENT || v > MAX_COEFFICIENT { FallbackTakesTheOther(coefficient, bit, dither, v); }
    } else {
      var near: Coefficient := if v <= MAX_COEFFICIENT then v else v - QIM_STEP;
      assert OnLattice(near, bit, dither);
    }
  }

  /** Each value is on some lattice. */
  lemma LatticeThrough(v: int) returns (dither: Dither)
    ensures OnLattice(v, false, dither)
  {
    dither := (v - 2) % QIM_STEP;
  }

  /** By the coefficient alone: the bound of 4 holds for every bit and dither except in the two last values at each end. */
  lemma FourByCoefficient(coefficient: Coefficient)
    ensures (forall bit, dither: Dither :: Abs(QimEncode(coefficient, bit, dither).value - coefficient) <= 4)
            <==> -32765 <= coefficient <= 32764
  {
    hide QimEncode, OnLattice;
    if coefficient > 32764 {
      var dither := LatticeThrough(32768);
      FallbackTakesTheOther(coefficient, false, dither, 32768);
    } else if coefficient < -32765 {
      var dither := LatticeThrough(-32769);
      FallbackTakesTheOther(coefficient, false, dither, -32769);
    }
  }

  /** The bound of 4 fails at the ends of the range: there the other neighbour may be 7 away. */
  lemma FallbackMovesSeven()
    ensures QimEncode(32767, false, 6).value == 32760
  {
  }

  // ----- Decoding -----

  function PositiveModulo(value: int, modulus: int): (r: int)
    requires modulus > 0
    ensures 0 <= r < modulus
  {
    RemIsSmall(value, modulus);
    var remainder := Rem(value, modulus);
    if remainder < 0 then remainder + modulus else remainder
  }

  lemma PositiveModuloIsEuclidean(value: int)
    ensures PositiveModulo(value, QIM_STEP) == value % QIM_STEP
  {
    RemIsSmall(value, QIM_STEP);
    var q := Quot(value, QIM_STEP);
    assert value == q * 8 + Rem(value, QIM_STEP);
  }

  function CircularDistance(a: int, b: int, modulus: int): int {
    var direct := Abs(a - b);
    if direct < modulus - direct then direct else modulus - direct
  }

  datatype Symbol = Symbol(bit: bool, confidence: int)

  function QimDecode(coefficient: Coefficient, dither: Dither): (s: Symbol)
    ensures 1 <= s.confidence <= 5
  {
    var residue := PositiveModulo(coefficient - dither, QIM_STEP);
    var zeroDistance := CircularDistance(residue, QIM_STEP / 4, QIM_STEP);
    var oneDistance := CircularDistance(residue, (3 * QIM_STEP) / 4, QIM_STEP);
    Symbol(oneDistance < zeroDistance, Abs(oneDistance - zeroDistance) + 1)
  }

  /** Decoding as a table of the dithered residue: 0 1 2 3 4 read zero, 5 6 7 read one. */
  lemma DecodeByResidue(received: Coefficient, dither: Dither)
    ensures var residue := (received - dither) % QIM_STEP;
      QimDecode(received, dither)
      == Symbol(residue >= 5, if residue % 4 == 2 then 5 else if residue % 2 == 1 then 3 else 1)
  {
    PositiveModuloIsEuclidean(received - dither);
    hide PositiveModulo;
    var residue := (received - dither) % QIM_STEP;
    assert residue == 0 || residue == 1 || residue == 2 || residue == 3
        || residue == 4 || residue == 5 || residue == 6 || residue == 7;
  }

  /** A lattice point decodes to its bit with full confidence; one step off, still to its bit with confidence 3. */
  lemma DecodeNearLattice(sent: int, received: Coefficient, bit: bool, dither: Dither)
    requires OnLattice(sent, bit, dither) && -1 <= received - sent <= 1
    ensures QimDecode(received, dither) == Symbol(bit, if received == sent then 5 else 3)
  {
    DecodeByResidue(received, dither);
    hide QimDecode;
    assert (received - dither) % QIM_STEP == (if bit then 6 else 2) + (received - sent);
  }

  /** Within half the lattice distance: a one survives one step, a zero survives two. */
  lemma ToleranceIsExact(bit: bool, dither: Dither, sent: int, received: Coefficient)
    requires OnLattice(sent, bit, dither) && -4 <= received - sent <= 4
    ensures QimDecode(received, dither).bit == bit <==> Abs(received - sent) <= if bit then 1 else 2
  {
    hide QimDecode, OnLattice;
    DecodeByResidue(received, dither);
    ResidueNear(sent, received, bit, dither);
  }

  lemma ResidueNear(sent: int, received: int, bit: bool, dither: Dither)
    requires OnLattice(sent, bit, dither)
    ensures (received - dither) % QIM_STEP == ((if bit then 6 else 2) + (received - sent)) % QIM_STEP
  {
    SameResidue(received - dither, (if bit then 6 else 2) + (received - sent), (sent - Target(bit, dither)) / QIM_STEP);
  }

  lemma SameResidue(a: int, b: int, k: int)
    requires a == b + QIM_STEP * k
    ensures a % QIM_STEP == b % QIM_STEP
  {
  }

  /** Encoding then decoding gives the bit back, at full confidence. */
  lemma QimRoundTrip(coefficient: Coefficient, bit: bool, dither: Dither)
    ensures QimDecode(QimEncode(coefficient, bit, dither).value, dither) == Symbol(bit, 5)
  {
    DecodeNearLattice(QimEncode(coefficient, bit, dither).value, QimEncode(coefficient, bit, dither).value, bit, dither);
  }
}
