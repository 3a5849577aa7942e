/** Python's unbounded-integer bit operations, on Dafny's `int`.

    Dafny's `/` and `%` by a positive divisor round toward negative infinity,
    so `x / 2` is Python's `x >> 1` and `x % 2` is Python's `x & 1` for every
    integer, negative ones included (two's complement with infinite sign
    extension). */
module Bits {

  function Pow2(k: nat): (p: nat)
    ensures p >= 1
  {
    if k == 0 then 1 else 2 * Pow2(k - 1)
  }

  lemma {:induction false} Pow2Add(a: nat, b: nat)
    ensures Pow2(a + b) == Pow2(a) * Pow2(b)
    decreases a
  {
    if a > 0 { Pow2Add(a - 1, b); }
  }

  /** Bit `k` of `x` is set (Python: `(x >> k) & 1 == 1`). */
  predicate Bit(x: int, k: nat)
  {
    Shr(x, k) % 2 == 1
  }

  /** `x >> k` in Python. */
  function Shr(x: int, k: nat): (r: int)
    ensures 0 <= x ==> 0 <= r <= x
    ensures x < 0 ==> r < 0
    decreases k
  {
    if k == 0 then x else Shr(x / 2, k - 1)
  }

  /** Python's `a & b` for a non-negative `b` (the result is then non-negative). */
  function And(a: int, b: nat): (r: nat)
    ensures r <= b
    ensures 0 <= a ==> r <= a
    decreases b
  {
    if b == 0 then 0
    else 2 * And(a / 2, b / 2) + (if a % 2 == 1 && b % 2 == 1 then 1 else 0)
  }

  /** Python's `a | b` for non-negative operands. */
  function Or(a: nat, b: nat): (r: nat)
    ensures a <= r && b <= r && r <= a + b
    decreases a + b
  {
    if a == 0 then b
    else if b == 0 then a
    else 2 * Or(a / 2, b / 2) + (if a % 2 == 1 || b % 2 == 1 then 1 else 0)
  }

  lemma {:induction false} NoBitsOfZero(k: nat)
    ensures !Bit(0, k)
  {
    if k > 0 { NoBitsOfZero(k - 1); }
  }

  lemma {:induction false} ShrStep(x: int, k: nat)
    ensures Shr(x, k + 1) == Shr(x, k) / 2
    decreases k
  {
    if k > 0 { ShrStep(x / 2, k - 1); }
  }

  /** Every bit set in `b` is also set in `a`. */
  ghost predicate Covers(a: int, b: int)
  {
    forall k: nat :: Bit(b, k) ==> Bit(a, k)
  }

  lemma CoversStep(a: int, b: int)
    ensures Covers(a, b) <==> (b % 2 == 1 ==> a % 2 == 1) && Covers(a / 2, b / 2)
  {
    if Covers(a, b) {
      assert Bit(b, 0) ==> Bit(a, 0);
      forall k: nat | Bit(b / 2, k) ensures Bit(a / 2, k) {
        assert Bit(b, k + 1);
      }
    }
    if (b % 2 == 1 ==> a % 2 == 1) && Covers(a / 2, b / 2) {
      forall k: nat | Bit(b, k) ensures Bit(a, k) {
        if k > 0 { assert Bit(b / 2, k - 1); }
      }
    }
  }

  /** `a & b == b` exactly when every bit set in `b` is set in `a`: the test
      `has_mod` and the button decoder use. */
  lemma {:induction false} AndIsMaskTest(a: int, b: nat)
    ensures And(a, b) == b <==> Covers(a, b)
    decreases b
  {
    if b == 0 {
      forall k: nat ensures !Bit(0, k) { NoBitsOfZero(k); }
    } else {
      AndIsMaskTest(a / 2, b / 2);
      CoversStep(a, b);
      var c := if a % 2 == 1 && b % 2 == 1 then 1 else 0;
      assert And(a, b) == 2 * And(a / 2, b / 2) + c;
    }
  }

  /** Masking with an even `2 * c` is masking `a >> 1` with `c`, shifted back. */
  lemma AndEven(a: int, c: nat)
    ensures And(a, 2 * c) == 2 * And(a / 2, c)
  {
    if c != 0 {
      assert (2 * c) / 2 == c && (2 * c) % 2 == 0;
    }
  }

  /** `n & (1 << k)` is `1 << k` when bit `k` is set and 0 otherwise. */
  lemma {:induction false} AndPow2(n: int, k: nat)
    ensures And(n, Pow2(k)) == if Bit(n, k) then Pow2(k) else 0
    decreases k
  {
    if k == 0 {
      assert And(n, 1) == 2 * And(n / 2, 0) + (if n % 2 == 1 then 1 else 0);
    } else {
      var q := Pow2(k - 1);
      assert Pow2(k) == 2 * q;
      AndEven(n, q);
      AndPow2(n / 2, k - 1);
      assert Bit(n, k) == Bit(n / 2, k - 1);
      assert And(n, Pow2(k)) == 2 * And(n / 2, q);
    }
  }

  /** OR-ing a value below `2^k` with a multiple of `2^k` adds them: the bits
      do not overlap. */
  lemma {:induction false} OrDisjoint(a: nat, c: nat, k: nat)
    requires a < Pow2(k)
    ensures Or(a, c * Pow2(k)) == a + c * Pow2(k)
  {
    if k == 0 {
      assert a == 0;
    } else if a != 0 && c != 0 {
      var b := c * Pow2(k);
      assert b == 2 * (c * Pow2(k - 1));
      assert b / 2 == c * Pow2(k - 1) && b % 2 == 0;
      OrDisjoint(a / 2, c, k - 1);
    }
  }
}
