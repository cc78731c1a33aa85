/**
  Unsigned integers read as bit strings: the `^`, `&`, `>>` operators of the
  carrier codecs, on unbounded naturals.
 */
module Bits {
  function Pow2(k: nat): (p: nat)
    ensures p >= 1
  {
    if k == 0 then 1 else 2 * Pow2(k - 1)
  }

  /** Bit `i` of `x`, i.e. `(x >> i) & 1`. */
  predicate Bit(x: nat, i: nat) {
    if i == 0 then x % 2 == 1 else Bit(x / 2, i - 1)
  }

  /** Bitwise exclusive or. */
  function Xor(a: nat, b: nat): nat {
    if a == 0 then b
    else if b == 0 then a
    else 2 * Xor(a / 2, b / 2) + (if a % 2 != b % 2 then 1 else 0)
  }

  /** Bitwise and. */
  function And(a: nat, b: nat): nat {
    if a == 0 || b == 0 then 0
    else 2 * And(a / 2, b / 2) + (if a % 2 == 1 && b % 2 == 1 then 1 else 0)
  }

  /** One unrolling of Xor that holds for all operands, zero included. */
  lemma {:induction false} XorStep(a: nat, b: nat)
    ensures Xor(a, b) % 2 == if a % 2 != b % 2 then 1 else 0
    ensures Xor(a, b) / 2 == Xor(a / 2, b / 2)
  {
    var q := Xor(a / 2, b / 2);
    if a == 0 {
      assert q == b / 2;
    } else if b == 0 {
      assert q == a / 2;
    } else {
      assert Xor(a, b) == 2 * q || Xor(a, b) == 2 * q + 1;
    }
  }

  lemma {:induction false} BitOfZero(i: nat)
    ensures !Bit(0, i)
  {
    if i > 0 { BitOfZero(i - 1); }
  }

  /** Xor acts bit by bit. */
  lemma {:induction false} BitOfXor(a: nat, b: nat, i: nat)
    ensures Bit(Xor(a, b), i) == (Bit(a, i) != Bit(b, i))
    decreases i
  {
    XorStep(a, b);
    if i > 0 { BitOfXor(a / 2, b / 2, i - 1); }
  }

  /** One unrolling of And that holds for all operands, zero included. */
  lemma {:induction false} AndStep(a: nat, b: nat)
    ensures And(a, b) == 2 * And(a / 2, b / 2) + (if a % 2 == 1 && b % 2 == 1 then 1 else 0)
  {
  }

  /** Masking with 2^k - 1 keeps exactly the k low bits. */
  lemma {:induction false} MaskIsMod(x: nat, k: nat)
    ensures And(x, Pow2(k) - 1) == x % Pow2(k)
  {
    if k == 0 {
    } else {
      var p := Pow2(k - 1);
      var mask := 2 * p - 1;
      assert mask / 2 == p - 1 && mask % 2 == 1;
      MaskIsMod(x / 2, k - 1);
      AndStep(x, mask);
      ModDouble(x, p);
    }
  }

  lemma ModDouble(x: nat, p: nat)
    requires p > 0
    ensures x % (2 * p) == 2 * ((x / 2) % p) + x % 2
  {
    var h := x / 2;
    var q, r := h / p, h % p;
    assert h == p * q + r;
    assert x == (2 * p) * q + (2 * r + x % 2) by {
      assert (2 * p) * q == 2 * (p * q);
    }
    ModUnique(x, 2 * p, q, 2 * r + x % 2);
  }

  /** Quotient and remainder are determined by x == p * q + r with 0 <= r < p. */
  lemma ModUnique(x: int, p: int, q: int, r: int)
    requires 0 <= r < p
    requires x == p * q + r
    ensures x / p == q && x % p == r
  {
    var d := x / p - q;
    assert p * d == p * (x / p) - p * q;
    assert p * d == r - x % p;
    MultipleIsFar(p, d);
  }

  lemma MultipleIsFar(p: int, d: int)
    requires p > 0
    ensures d >= 1 ==> p * d >= p
    ensures d <= -1 ==> p * d <= -p
  {
  }

  lemma {:induction false} BitOfAnd(a: nat, b: nat, i: nat)
    ensures Bit(And(a, b), i) == (Bit(a, i) && Bit(b, i))
    decreases i
  {
    if a == 0 || b == 0 {
      BitOfZero(i);
    } else if i > 0 {
      assert And(a, b) / 2 == And(a / 2, b / 2);
      BitOfAnd(a / 2, b / 2, i - 1);
    }
  }

  /** 2^k - 1 has exactly its k low bits set. */
  lemma {:induction false} BitOfMask(k: nat, i: nat)
    ensures Bit(Pow2(k) - 1, i) == (i < k)
    decreases i
  {
    if k == 0 {
      BitOfZero(i);
    } else if i > 0 {
      assert (Pow2(k) - 1) / 2 == Pow2(k - 1) - 1;
      BitOfMask(k - 1, i - 1);
    }
  }

  lemma {:induction false} AndAtMost(a: nat, b: nat)
    ensures And(a, b) <= a
  {
    if a != 0 && b != 0 { AndAtMost(a / 2, b / 2); }
  }

  lemma {:induction false} XorBelow(a: nat, b: nat, k: nat)
    requires a < Pow2(k) && b < Pow2(k)
    ensures Xor(a, b) < Pow2(k)
  {
    if k > 0 {
      XorStep(a, b);
      XorBelow(a / 2, b / 2, k - 1);
    }
  }

  /** Flipping the same column twice restores the state. */
  lemma {:induction false} XorCancels(a: nat, b: nat)
    ensures Xor(Xor(a, b), b) == a
    decreases a + b
  {
    if a + b > 0 {
      var x := Xor(a, b);
      XorStep(a, b);
      XorStep(x, b);
      XorCancels(a / 2, b / 2);
      assert Xor(x, b) / 2 == a / 2 && Xor(x, b) % 2 == a % 2;
    }
  }

  /** A number below 2^k is zero as soon as its k low bits are. */
  lemma {:induction false} ZeroByBits(x: nat, k: nat)
    requires x < Pow2(k)
    requires forall i :: 0 <= i < k ==> !Bit(x, i)
    ensures x == 0
  {
    if k > 0 {
      assert !Bit(x, 0);
      forall i | 0 <= i < k - 1 ensures !Bit(x / 2, i) {
        assert !Bit(x, i + 1);
      }
      ZeroByBits(x / 2, k - 1);
    }
  }

  /** x >> k. */
  function Shr(x: nat, k: nat): nat {
    if k == 0 then x else Shr(x / 2, k - 1)
  }

  lemma {:induction false} ShrFits(x: nat, k: nat, n: nat)
    requires k <= n && x < Pow2(n)
    ensures Shr(x, k) < Pow2(n - k)
  {
    if k > 0 { ShrFits(x / 2, k - 1, n - 1); }
  }

  lemma Pow2Of32()
    ensures Pow2(32) == 0x1_0000_0000
  {
    assert Pow2(8) == 0x100;
    assert Pow2(16) == 0x1_0000;
    assert Pow2(24) == 0x100_0000;
  }

  lemma Pow2Of64()
    ensures Pow2(64) == 0x1_0000_0000_0000_0000
  {
    Pow2Of32();
    assert Pow2(40) == 0x100_0000_0000;
    assert Pow2(48) == 0x1_0000_0000_0000;
    assert Pow2(56) == 0x100_0000_0000_0000;
  }

  lemma {:induction false} Pow2Grows(a: nat, b: nat)
    requires Pow2(a) < Pow2(b)
    ensures a < b
  {
    if a > 0 && b > 0 { Pow2Grows(a - 1, b - 1); }
  }

  /** The number of trailing zero bits. */
  function TrailingZeros(x: nat): nat
    requires x > 0
  {
    if x % 2 == 1 then 0 else 1 + TrailingZeros(x / 2)
  }

  lemma {:induction false} TrailingZerosOfPow2(k: nat)
    ensures TrailingZeros(Pow2(k)) == k
  {
    if k > 0 { TrailingZerosOfPow2(k - 1); }
  }
}
