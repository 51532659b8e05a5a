/**
 Arithmetic shared by the other modules. Unsigned machine words are modelled as bounded naturals,
 bitwise operators as recursion on the binary digits, so that shifts and masks can be related to
 powers of two without bit-vector conversions.
 */
module Bits {

  // ---------------------------------------------------------------------------------------
  // Products. Proofs about sums of products hide the body of `Times` and use the laws below,
  // one instance at a time.
  // ---------------------------------------------------------------------------------------

  function Times(a: nat, b: nat): nat {
    a * b
  }

  lemma ProductOf(a: nat, b: nat)
    ensures Times(a, b) == a * b
  {
  }

  lemma TimesSum(a: nat, b: nat, c: nat)
    ensures Times(a + b, c) == Times(a, c) + Times(b, c)
  {
  }

  lemma TimesSumRight(a: nat, b: nat, c: nat)
    ensures Times(a, b + c) == Times(a, b) + Times(a, c)
  {
  }

  lemma TimesSwap(a: nat, b: nat)
    ensures Times(a, b) == Times(b, a)
  {
  }

  lemma TimesAssoc(a: nat, b: nat, c: nat)
    ensures Times(Times(a, b), c) == Times(a, Times(b, c))
  {
  }

  lemma TimesExchange(a: nat, b: nat, c: nat)
    ensures Times(Times(a, b), c) == Times(Times(a, c), b)
  {
  }

  /** `(a * b) * (c * d) == (a * c) * (b * d)`. */
  lemma TimesRegroup(a: nat, b: nat, c: nat, d: nat)
    ensures Times(Times(a, b), Times(c, d)) == Times(Times(a, c), Times(b, d))
  {
    hide Times;
    TimesAssoc(a, b, Times(c, d));
    TimesAssoc(b, c, d);
    TimesSwap(b, c);
    TimesAssoc(c, b, d);
    TimesAssoc(a, c, Times(b, d));
  }

  lemma TimesMonotone(a: nat, b: nat, c: nat)
    requires a <= b
    ensures Times(a, c) <= Times(b, c)
  {
    TimesSum(a, b - a, c);
  }

  lemma TimesStrict(a: nat, b: nat, c: nat)
    requires a < b && c >= 1
    ensures Times(a, c) < Times(b, c)
  {
    TimesSum(a, b - a, c);
  }

  lemma TimesUnit(a: nat)
    ensures Times(a, 1) == Times(1, a) == a
    ensures Times(a, 0) == Times(0, a) == 0
    ensures Times(a, 2) == Times(2, a) == a + a
  {
  }

  /** A 32-bit hash as a fraction of `2^32`, scaled to `n`, is below `n`. */
  lemma ScaledBelow(h: nat, n: nat)
    requires h < 0x1_0000_0000 && n >= 1
    ensures var q := h * n / 0x1_0000_0000;
            0 <= q < n && q * 0x1_0000_0000 <= h * n < (q + 1) * 0x1_0000_0000
  {
    TimesMonotone(h, 0xFFFF_FFFF, n);
  }

  /** A 32-bit hash as a fraction of `2^32`, scaled to `n`. */
  function ScaledTo(h: nat, n: nat): (q: nat)
    requires h < 0x1_0000_0000 && n >= 1
    ensures q < n && q * 0x1_0000_0000 <= h * n < (q + 1) * 0x1_0000_0000
  {
    ScaledBelow(h, n);
    h * n / 0x1_0000_0000
  }

  /** The quotient and remainder are determined by `x == q * d + r` with `r < d`. */
  lemma DivisionIs(x: nat, q: nat, d: nat, r: nat)
    requires x == Times(q, d) + r && r < d
    ensures x / d == q && x % d == r
  {
    hide Times;
    assert x == Times(x / d, d) + x % d by {
      Quotient(x, d);
    }
    if q < x / d {
      TimesMonotone(q + 1, x / d, d);
      TimesSum(q, 1, d);
      TimesUnit(d);
    } else if q > x / d {
      TimesMonotone(x / d + 1, q, d);
      TimesSum(x / d, 1, d);
      TimesUnit(d);
    }
  }

  /** Division by a number that is not a constant. */
  function Over(m: nat, d: nat): nat
    requires d >= 1
  {
    m / d
  }

  lemma Quotient(x: nat, d: nat)
    requires d >= 1
    ensures x == Times(x / d, d) + x % d
  {
  }

  // ---------------------------------------------------------------------------------------
  // Powers of two and bitwise operators.
  // ---------------------------------------------------------------------------------------

  function Pow2(n: nat): (r: nat)
    ensures r >= 1
  {
    if n == 0 then 1 else 2 * Pow2(n - 1)
  }

  lemma {:induction false} Pow2Add(m: nat, n: nat)
    ensures Pow2(m + n) == Pow2(m) * Pow2(n)
  {
    if m > 0 {
      Pow2Add(m - 1, n);
    }
  }

  lemma Pow2Sum(m: nat, n: nat)
    ensures Pow2(m + n) == Times(Pow2(m), Pow2(n))
  {
    Pow2Add(m, n);
  }

  lemma {:induction false} Pow2Monotone(m: nat, n: nat)
    requires m <= n
    ensures Pow2(m) <= Pow2(n)
  {
    if m < n {
      Pow2Monotone(m, n - 1);
    }
  }

  lemma Pow2Of32()
    ensures Pow2(32) == 0x1_0000_0000
  {
    assert Pow2(4) == 16;
    Pow2Add(4, 4);
    Pow2Add(8, 8);
    Pow2Add(16, 16);
  }

  /** Bitwise conjunction. */
  function BitAnd(x: nat, y: nat): (r: nat)
    ensures r <= x && r <= y
  {
    if x == 0 || y == 0 then 0 else 2 * BitAnd(x / 2, y / 2) + (x % 2) * (y % 2)
  }

  /** Bitwise disjunction. */
  function BitOr(x: nat, y: nat): (r: nat)
    ensures r >= x && r >= y
  {
    if x == 0 then y
    else if y == 0 then x
    else 2 * BitOr(x / 2, y / 2) + (if x % 2 == 1 || y % 2 == 1 then 1 else 0)
  }

  /** Where one operand is a multiple of `2^n` and the other is below it, disjunction is addition. */
  lemma {:induction false} OrIsSum(m: nat, y: nat, n: nat)
    requires y < Pow2(n)
    ensures BitOr(Times(m, Pow2(n)), y) == Times(m, Pow2(n)) + y
    ensures BitOr(y, Times(m, Pow2(n))) == Times(m, Pow2(n)) + y
  {
    hide Times;
    if n == 0 {
      TimesUnit(m);
    } else {
      TimesSumRight(m, Pow2(n - 1), Pow2(n - 1));
      OrIsSum(m, y / 2, n - 1);
    }
  }
}
