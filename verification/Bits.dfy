/**
 Machine-word bit operations on natural numbers, defined bit by bit, and the arithmetic they
 amount to. `Shr` is the logical right shift.
 */
module Bits {
  const U64_MAX: nat := 0xFFFF_FFFF_FFFF_FFFF

  function Pow2(k: nat): (r: nat)
    ensures r >= 1
  {
    if k == 0 then 1 else 2 * Pow2(k - 1)
  }

  function BitAnd(a: nat, b: nat): nat {
    if a == 0 || b == 0 then 0 else (a % 2) * (b % 2) + 2 * BitAnd(a / 2, b / 2)
  }

  function BitOr(a: nat, b: nat): nat
    decreases a + b
  {
    if a == 0 then b else if b == 0 then a
    else (if a % 2 == 1 || b % 2 == 1 then 1 else 0) + 2 * BitOr(a / 2, b / 2)
  }

  function BitXor(a: nat, b: nat): nat
    decreases a + b
  {
    if a == 0 then b else if b == 0 then a
    else (if a % 2 == b % 2 then 0 else 1) + 2 * BitXor(a / 2, b / 2)
  }

  function Shr(x: nat, k: nat): nat
    decreases k
  {
    if k == 0 then x else Shr(x / 2, k - 1)
  }

  /** Bit `k` of `x`, counting from the least significant. */
  predicate Bit(x: nat, k: nat) {
    Shr(x, k) % 2 == 1
  }

  lemma {:induction false} ZeroHasNoBits(k: nat)
    ensures !Bit(0, k)
    decreases k
  {
    if k > 0 {
      ZeroHasNoBits(k - 1);
    }
  }

  /** Every bit of the conjunction is the conjunction of the bits. */
  lemma {:induction false} BitOfAnd(a: nat, b: nat, k: nat)
    ensures Bit(BitAnd(a, b), k) <==> Bit(a, k) && Bit(b, k)
    decreases k
  {
    ZeroHasNoBits(k);
    if k > 0 && a > 0 && b > 0 {
      BitOfAnd(a / 2, b / 2, k - 1);
      assert BitAnd(a, b) / 2 == BitAnd(a / 2, b / 2);
    }
  }

  /** Every bit of the disjunction is the disjunction of the bits. */
  lemma {:induction false} BitOfOr(a: nat, b: nat, k: nat)
    ensures Bit(BitOr(a, b), k) <==> Bit(a, k) || Bit(b, k)
    decreases k
  {
    ZeroHasNoBits(k);
    if k > 0 && a > 0 && b > 0 {
      BitOfOr(a / 2, b / 2, k - 1);
      assert BitOr(a, b) / 2 == BitOr(a / 2, b / 2);
    }
  }

  /** Every bit of the exclusive or is set exactly when the two bits differ. */
  lemma {:induction false} BitOfXor(a: nat, b: nat, k: nat)
    ensures Bit(BitXor(a, b), k) <==> Bit(a, k) != Bit(b, k)
    decreases k
  {
    ZeroHasNoBits(k);
    if k > 0 && a > 0 && b > 0 {
      BitOfXor(a / 2, b / 2, k - 1);
      assert BitXor(a, b) / 2 == BitXor(a / 2, b / 2);
    }
  }

  function FloorLog2(n: nat): nat {
    if n < 2 then 0 else 1 + FloorLog2(n / 2)
  }

  lemma {:induction false} Pow2Monotone(a: nat, b: nat)
    requires a <= b
    ensures Pow2(a) <= Pow2(b)
    decreases b
  {
    if a < b {
      Pow2Monotone(a, b - 1);
    }
  }

  /** Masking with `2^k - 1` is the remainder modulo `2^k`. */
  lemma {:induction false} MaskIsMod(x: nat, k: nat)
    ensures BitAnd(x, Pow2(k) - 1) == x % Pow2(k)
    decreases k
  {
    if k > 0 {
      var m := Pow2(k - 1);
      MaskIsMod(x / 2, k - 1);
      MaskOfDouble(x, m);
      ModOfDouble(x, m);
    } else {
      MaskOfNothing(x);
    }
  }

  lemma MaskOfNothing(x: nat)
    ensures BitAnd(x, 0) == 0 && x % 1 == 0
  {
  }

  lemma MaskOfDouble(x: nat, m: nat)
    requires m >= 1
    ensures BitAnd(x, 2 * m - 1) == x % 2 + 2 * BitAnd(x / 2, m - 1)
  {
    assert (2 * m - 1) / 2 == m - 1 && (2 * m - 1) % 2 == 1;
  }

  lemma ModOfDouble(x: nat, m: nat)
    requires m >= 1
    ensures x % (2 * m) == x % 2 + 2 * ((x / 2) % m)
  {
    var q, r := x / 2 / m, (x / 2) % m;
    var t := x % 2 + 2 * r;
    assert x == 2 * (x / 2) + x % 2;
    assert x / 2 == m * q + r;
    assert x == (2 * m) * q + t by {
      assert 2 * (m * q) == (2 * m) * q;
    }
    DivModUnique(x, 2 * m, q, t);
  }

  lemma DivModUnique(x: nat, m: nat, q: nat, r: nat)
    requires m >= 1 && x == m * q + r && r < m
    ensures x / m == q && x % m == r
  {
    var q' := x / m;
    assert q' < q ==> m * (q' + 1) <= m * q;
    assert q < q' ==> m * (q + 1) <= m * q';
  }

  /** Testing with the one-bit mask `1 << k` reads bit `k`. */
  lemma {:induction false} BitTest(x: nat, k: nat)
    ensures (BitAnd(x, Pow2(k)) > 0) == Bit(x, k)
    decreases k
  {
    if x == 0 {
      ShrZero(k);
    } else if k == 0 {
      assert BitAnd(x, 1) == (x % 2) * 1 + 2 * BitAnd(x / 2, 0);
    } else {
      BitTest(x / 2, k - 1);
      assert Pow2(k) / 2 == Pow2(k - 1) && Pow2(k) % 2 == 0;
    }
  }

  lemma {:induction false} ShrZero(k: nat)
    ensures Shr(0, k) == 0
    decreases k
  {
    if k > 0 {
      ShrZero(k - 1);
    }
  }

  lemma {:induction false} ShrSucc(x: nat, k: nat)
    ensures Shr(x, k + 1) == Shr(x, k) / 2
    decreases k
  {
    if k > 0 {
      ShrSucc(x / 2, k - 1);
    }
  }

  /** A leading one above `d` bits survives a shift by at most `d` places. */
  lemma {:induction false} ShrOffset(x: nat, d: nat, k: nat)
    requires k <= d
    ensures Shr(Pow2(d) + x, k) == Pow2(d - k) + Shr(x, k)
    decreases k
  {
    if k > 0 {
      assert (Pow2(d) + x) / 2 == Pow2(d - 1) + x / 2;
      ShrOffset(x / 2, d - 1, k - 1);
    }
  }

  lemma {:induction false} ShrSmall(x: nat, k: nat)
    requires x < Pow2(k)
    ensures Shr(x, k) == 0
    decreases k
  {
    if k > 0 {
      ShrSmall(x / 2, k - 1);
    }
  }

  /** The exponent and the remainder of a number with a leading one above `d` bits. */
  lemma {:induction false} FloorLog2Of(d: nat, x: nat)
    requires x < Pow2(d)
    ensures FloorLog2(Pow2(d) + x) == d
    ensures (Pow2(d) + x) % Pow2(d) == x
    decreases d
  {
    if d > 0 {
      assert (Pow2(d) + x) / 2 == Pow2(d - 1) + x / 2;
      FloorLog2Of(d - 1, x / 2);
    }
    DivModUnique(Pow2(d) + x, Pow2(d), 1, x);
  }

  lemma {:induction false} XorBound(a: nat, b: nat, k: nat)
    requires a < Pow2(k) && b < Pow2(k)
    ensures BitXor(a, b) < Pow2(k)
    decreases k
  {
    if a > 0 && b > 0 && k > 0 {
      XorBound(a / 2, b / 2, k - 1);
    }
  }
}
