/**
  Reading and writing one bit per coefficient: its parity, changed by moving the
  coefficient one step.
 */
module ParityEdits {
  import opened Results
  import opened KeyedShuffle
  import opened StcRaw

  type Coefficient = c: int | -32768 <= c < 32768

  datatype ParityError = OffsetOutOfRange | LengthsDiffer | UpdateFailed

  predicate Parity(c: Coefficient) {
    c % 2 != 0
  }

  ghost predicate InRange(offsets: seq<nat>, n: nat) {
    forall i :: 0 <= i < |offsets| ==> offsets[i] < n
  }

  function ParityBits(coefficients: seq<Coefficient>, offsets: seq<nat>): (bits: seq<bool>)
    requires InRange(offsets, |coefficients|)
    ensures |bits| == |offsets|
  {
    if offsets == [] then []
    else
      var n := |offsets| - 1;
      ParityBits(coefficients, offsets[..n]) + [Parity(coefficients[offsets[n]])]
  }

  lemma {:induction false} ParityBitsAt(coefficients: seq<Coefficient>, offsets: seq<nat>, i: nat)
    requires InRange(offsets, |coefficients|) && i < |offsets|
    ensures ParityBits(coefficients, offsets)[i] == Parity(coefficients[offsets[i]])
  {
    if i < |offsets| - 1 { ParityBitsAt(coefficients, offsets[..|offsets| - 1], i); }
  }

  /** The parities of part of a selection are that part of the parities. */
  lemma ParityBitsSlice(coefficients: seq<Coefficient>, offsets: seq<nat>, lo: nat, hi: nat)
    requires InRange(offsets, |coefficients|) && lo <= hi <= |offsets|
    ensures InRange(offsets[lo..hi], |coefficients|)
    ensures ParityBits(coefficients, offsets[lo..hi]) == ParityBits(coefficients, offsets)[lo..hi]
  {
    hide ParityBits;
    forall i | 0 <= i < hi - lo
      ensures ParityBits(coefficients, offsets[lo..hi])[i] == ParityBits(coefficients, offsets)[lo..hi][i]
    {
      ParityBitsAt(coefficients, offsets[lo..hi], i);
      ParityBitsAt(coefficients, offsets, lo + i);
    }
  }

  /** Only the selected coefficients matter. */
  lemma {:induction false} ParityBitsAgree(a: seq<Coefficient>, b: seq<Coefficient>, offsets: seq<nat>)
    requires |a| == |b| && InRange(offsets, |a|)
    requires forall i :: 0 <= i < |offsets| ==> a[offsets[i]] == b[offsets[i]]
    ensures ParityBits(a, offsets) == ParityBits(b, offsets)
  {
    if offsets != [] { ParityBitsAgree(a, b, offsets[..|offsets| - 1]); }
  }

  /** Fails exactly on an offset past the end. */
  method CoefficientParityBits(coefficients: seq<Coefficient>, offsets: seq<nat>)
    returns (r: Result<seq<bool>, ParityError>)
    ensures r.Ok? <==> InRange(offsets, |coefficients|)
    ensures r.Ok? ==> r.value == ParityBits(coefficients, offsets)
  {
    var bits: seq<bool> := [];
    for i := 0 to |offsets|
      invariant InRange(offsets[..i], |coefficients|)
      invariant bits == ParityBits(coefficients, offsets[..i])
    {
      if offsets[i] >= |coefficients| {
        return Err(OffsetOutOfRange);
      }
      assert offsets[..i + 1][..i] == offsets[..i];
      bits := bits + [Parity(coefficients[offsets[i]])];
    }
    assert offsets[..|offsets|] == offsets;
    return Ok(bits);
  }

  /** One coefficient brought to a parity: inwards from +-1023 on, else the keyed way. */
  function Edited(c: Coefficient, desired: bool, up: bool): (e: Coefficient)
    ensures Parity(e) == desired
    ensures -1 <= e - c <= 1
    ensures Parity(c) == desired ==> e == c
    ensures -1023 <= c <= 1023 ==> -1023 <= e <= 1023
  {
    if Parity(c) == desired then c
    else if c <= -1023 then c + 1
    else if c >= 1023 then c - 1
    else if up then c + 1
    else c - 1
  }

  /** The coefficients after the first `k` edits, and how many of those moved one. */
  ghost function Applied(before: seq<Coefficient>, offsets: seq<nat>, desired: seq<bool>,
                         direction: (nat, nat) -> bool, k: nat): (after: seq<Coefficient>)
    requires k <= |offsets| == |desired| && InRange(offsets, |before|)
    ensures |after| == |before|
  {
    if k == 0 then before
    else
      var a, o := Applied(before, offsets, desired, direction, k - 1), offsets[k - 1];
      a[o := Edited(a[o], desired[k - 1], direction(o, k - 1))]
  }

  ghost function Moved(before: seq<Coefficient>, offsets: seq<nat>, desired: seq<bool>,
                       direction: (nat, nat) -> bool, k: nat): nat
    requires k <= |offsets| == |desired| && InRange(offsets, |before|)
  {
    if k == 0 then 0
    else
      var a, o := Applied(before, offsets, desired, direction, k - 1), offsets[k - 1];
      Moved(before, offsets, desired, direction, k - 1) + (if Parity(a[o]) != desired[k - 1] then 1 else 0)
  }

  /** One edit in place. */
  method EditOne(coefficients: array<Coefficient>, offset: nat, desired: bool, up: bool) returns (moved: bool, ok: bool)
    requires offset < coefficients.Length
    modifies coefficients
    ensures coefficients[..] == old(coefficients[..])[offset := Edited(old(coefficients[offset]), desired, up)]
    ensures moved <==> Parity(old(coefficients[offset])) != desired
    ensures ok
  {
    var c := coefficients[offset];
    if Parity(c) == desired {
      return false, true;
    }
    if c <= -1023 {
      c := c + 1;
    } else if c >= 1023 {
      c := c - 1;
    } else if up {
      c := c + 1;
    } else {
      c := c - 1;
    }
    coefficients[offset] := c;
    return true, Parity(c) == desired;
  }

  /**
    Edits in place, one coefficient after another. `direction(offset, index)` is
    the keyed preference. The update check never fails.
   */
  method ApplyParityBits(coefficients: array<Coefficient>, offsets: seq<nat>, desired: seq<bool>,
                         direction: (nat, nat) -> bool)
    returns (r: Result<nat, ParityError>)
    modifies coefficients
    ensures r.Ok? <==> |offsets| == |desired| && InRange(offsets, coefficients.Length)
    ensures r.Ok? ==>
      && coefficients[..] == Applied(old(coefficients[..]), offsets, desired, direction, |offsets|)
      && r.value == Moved(old(coefficients[..]), offsets, desired, direction, |offsets|)
  {
    if |offsets| != |desired| {
      return Err(LengthsDiffer);
    }
    var changes := 0;
    ghost var before := coefficients[..];
    for i := 0 to |offsets|
      invariant forall k :: 0 <= k < i ==> offsets[k] < coefficients.Length
      invariant InRange(offsets, coefficients.Length) ==>
        && coefficients[..] == Applied(before, offsets, desired, direction, i)
        && changes == Moved(before, offsets, desired, direction, i)
    {
      var offset := offsets[i];
      if offset >= coefficients.Length {
        return Err(OffsetOutOfRange);
      }
      hide Edited;
      var moved, ok := EditOne(coefficients, offset, desired[i], direction(offset, i));
      if !ok {
        return Err(UpdateFailed);
      }
      if moved {
        changes := changes + 1;
      }
    }
    return Ok(changes);
  }

  /** `after` is `before` with each selected coefficient edited once, and nothing else. */
  ghost predicate EditedTo(before: seq<Coefficient>, after: seq<Coefficient>, offsets: seq<nat>, desired: seq<bool>,
                           direction: (nat, nat) -> bool)
    requires |before| == |after| && InRange(offsets, |before|) && |offsets| <= |desired|
  {
    && (forall o :: 0 <= o < |before| && o !in offsets ==> after[o] == before[o])
    && (forall i :: 0 <= i < |offsets| ==>
          after[offsets[i]] == Edited(before[offsets[i]], desired[i], direction(offsets[i], i)))
  }

  /** A coefficient that moves moves inwards from +-1023 on, and else the way its key prefers. */
  ghost predicate MovedAsKeyed(before: seq<Coefficient>, after: seq<Coefficient>, offsets: seq<nat>, up: (nat, nat) -> bool)
    requires |before| == |after| && InRange(offsets, |before|)
  {
    forall i :: 0 <= i < |offsets| ==>
      var b, a := before[offsets[i]], after[offsets[i]];
      a != b ==> (a > b <==> b <= -1023 || (b < 1023 && up(offsets[i], i)))
  }

  lemma EditedAsKeyed(before: seq<Coefficient>, after: seq<Coefficient>, offsets: seq<nat>, desired: seq<bool>,
                      direction: (nat, nat) -> bool)
    requires |before| == |after| && InRange(offsets, |before|) && |offsets| <= |desired|
    requires EditedTo(before, after, offsets, desired, direction)
    ensures MovedAsKeyed(before, after, offsets, direction)
  {
  }

  lemma EditNext(before: seq<Coefficient>, a: seq<Coefficient>, offsets: seq<nat>, desired: seq<bool>,
                 direction: (nat, nat) -> bool, o: nat)
    requires |before| == |a| && InRange(offsets, |before|) && |offsets| < |desired|
    requires EditedTo(before, a, offsets, desired, direction)
    requires o < |before| && o !in offsets
    ensures EditedTo(before, a[o := Edited(a[o], desired[|offsets|], direction(o, |offsets|))],
                     offsets + [o], desired, direction)
  {
    hide Edited;
    var k, all := |offsets|, offsets + [o];
    var after := a[o := Edited(a[o], desired[k], direction(o, k))];
    forall i | 0 <= i < |all|
      ensures after[all[i]] == Edited(before[all[i]], desired[i], direction(all[i], i))
    {
      if i < k { assert all[i] == offsets[i] && offsets[i] in offsets; }
    }
  }

  lemma NothingEdited(before: seq<Coefficient>, offsets: seq<nat>, desired: seq<bool>, direction: (nat, nat) -> bool)
    requires |offsets| == |desired| && InRange(offsets, |before|)
    ensures EditedTo(before, Applied(before, offsets, desired, direction, 0), offsets[..0], desired, direction)
  {
  }

  lemma AppliedNext(before: seq<Coefficient>, offsets: seq<nat>, desired: seq<bool>, direction: (nat, nat) -> bool, k: nat)
    requires 0 < k <= |offsets| == |desired| && InRange(offsets, |before|)
    ensures var a, o := Applied(before, offsets, desired, direction, k - 1), offsets[k - 1];
      Applied(before, offsets, desired, direction, k) == a[o := Edited(a[o], desired[k - 1], direction(o, k - 1))]
  {
    hide Edited;
  }

  lemma NotBefore(offsets: seq<nat>, k: nat)
    requires k < |offsets| && Distinct(offsets)
    ensures offsets[k] !in offsets[..k]
  {
  }

  /** On distinct offsets every edit sees the original coefficient. */
  lemma {:induction false} AppliedEdits(before: seq<Coefficient>, offsets: seq<nat>, desired: seq<bool>,
                                        direction: (nat, nat) -> bool, k: nat)
    requires k <= |offsets| == |desired| && InRange(offsets, |before|) && Distinct(offsets)
    ensures EditedTo(before, Applied(before, offsets, desired, direction, k), offsets[..k], desired, direction)
  {
    hide Applied, EditedTo, Distinct, Edited;
    if k == 0 {
      NothingEdited(before, offsets, desired, direction);
    } else {
      AppliedEdits(before, offsets, desired, direction, k - 1);
      var o := offsets[k - 1];
      AppliedNext(before, offsets, desired, direction, k);
      NotBefore(offsets, k - 1);
      assert offsets[..k] == offsets[..k - 1] + [o];
      EditNext(before, Applied(before, offsets, desired, direction, k - 1), offsets[..k - 1], desired, direction, o);
    }
  }

  /** Then the count of moves is the Hamming distance to the original parities. */
  lemma {:induction false} MovedCounts(before: seq<Coefficient>, offsets: seq<nat>, desired: seq<bool>,
                                       direction: (nat, nat) -> bool, k: nat)
    requires k <= |offsets| == |desired| && InRange(offsets, |before|) && Distinct(offsets)
    ensures Moved(before, offsets, desired, direction, k) == Hamming(desired[..k], ParityBits(before, offsets[..k]))
  {
    if k > 0 {
      MovedCounts(before, offsets, desired, direction, k - 1);
      HammingStep(before, offsets, desired, k - 1);
      AppliedEdits(before, offsets, desired, direction, k - 1);
      hide Edited, Hamming, ParityBits, Applied;
      assert offsets[k - 1] !in offsets[..k - 1];
    }
  }

  lemma HammingStep(before: seq<Coefficient>, offsets: seq<nat>, desired: seq<bool>, i: nat)
    requires i < |offsets| == |desired| && InRange(offsets[..i + 1], |before|)
    ensures InRange(offsets[..i], |before|)
    ensures Hamming(desired[..i + 1], ParityBits(before, offsets[..i + 1]))
         == Hamming(desired[..i], ParityBits(before, offsets[..i]))
          + (if desired[i] != Parity(before[offsets[i]]) then 1 else 0)
  {
    assert offsets[..i + 1][..i] == offsets[..i] && desired[..i + 1][..i] == desired[..i];
    assert offsets[..i + 1][i] == offsets[i];
    var all, front := ParityBits(before, offsets[..i + 1]), ParityBits(before, offsets[..i]);
    assert all == front + [Parity(before[offsets[i]])];
    HammingIgnoresRest(desired[..i], front, all);
  }

  lemma {:induction false} HammingIgnoresRest(x: seq<bool>, y: seq<bool>, z: seq<bool>)
    requires |x| <= |y| <= |z| && y == z[..|y|]
    ensures Hamming(x, y) == Hamming(x, z)
  {
    if x != [] { HammingIgnoresRest(x[..|x| - 1], y, z); }
  }

  predicate Near(a: int, b: int) {
    -1 <= a - b <= 1
  }

  /** After the edits the selection carries the desired bits. */
  lemma EditedCarries(before: seq<Coefficient>, after: seq<Coefficient>, offsets: seq<nat>, desired: seq<bool>,
                      direction: (nat, nat) -> bool)
    requires |before| == |after| && InRange(offsets, |before|) && |offsets| == |desired|
    requires EditedTo(before, after, offsets, desired, direction)
    ensures ParityBits(after, offsets) == desired
    ensures forall o :: 0 <= o < |before| ==> Near(after[o], before[o])
  {
    forall i | 0 <= i < |offsets| ensures ParityBits(after, offsets)[i] == desired[i] {
      ParityBitsAt(after, offsets, i);
    }
    forall o | 0 <= o < |before| ensures Near(after[o], before[o]) {
      if o in offsets {
        var i :| 0 <= i < |offsets| && offsets[i] == o;
        assert after[offsets[i]] == Edited(before[offsets[i]], desired[i], direction(offsets[i], i));
      }
    }
  }
}
