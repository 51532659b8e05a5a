/**
 Fixed-width unsigned integers in 32-bit limbs (src/arith_uint256.h, src/arith_uint256.cpp).
 Every operator works in place on the limb array and is proved against the value that the limbs
 stand for, for any width.
 */
module ArithUint {
  import opened Bits
  import opened Wrappers

  const B := 0x1_0000_0000

  type Limb = x: nat | x < 0x1_0000_0000

  // ---------------------------------------------------------------------------------------
  // The value of a limb sequence.
  // ---------------------------------------------------------------------------------------

  function BPow(n: nat): (r: nat)
    ensures r >= 1
  {
    if n == 0 then 1 else B * BPow(n - 1)
  }

  lemma TimesB(a: nat, b: nat)
    ensures Times(a, B * b) == B * Times(a, b)
    ensures Times(B * a, b) == B * Times(a, b)
    ensures Times(B, a) == B * a
  {
  }

  lemma {:induction false} BPowSum(m: nat, n: nat)
    ensures BPow(m + n) == Times(BPow(m), BPow(n))
  {
    hide Times;
    if m == 0 {
      TimesUnit(BPow(n));
    } else {
      BPowSum(m - 1, n);
      TimesB(BPow(m - 1), BPow(n));
    }
  }

  lemma {:induction false} BPowIsPow2(n: nat)
    ensures BPow(n) == Pow2(32 * n)
  {
    hide Times;
    if n > 0 {
      BPowIsPow2(n - 1);
      Pow2Sum(32, 32 * (n - 1));
      Pow2Of32();
      TimesB(Pow2(32 * (n - 1)), 1);
    }
  }

  /** Splitting a sum into a limb and a carry keeps its weight. */
  lemma SplitCarry(n: nat, p: nat)
    ensures Times(n % B, p) + Times(n / B, B * p) == Times(n, p)
  {
    hide Times;
    TimesB(n / B, p);
    TimesSum(B * (n / B), n % B, p);
  }

  /** Limb 0 is the least significant one. */
  ghost function Value(s: seq<Limb>): nat {
    if s == [] then 0 else Value(s[..|s| - 1]) + Times(s[|s| - 1], BPow(|s| - 1))
  }

  lemma ValuePrefix(s: seq<Limb>, i: nat)
    requires i < |s|
    ensures Value(s[..i + 1]) == Value(s[..i]) + Times(s[i], BPow(i))
  {
    hide Times;
    assert s[..i + 1][..i] == s[..i];
  }

  lemma {:induction false} ValueBound(s: seq<Limb>)
    ensures Value(s) < BPow(|s|)
  {
    hide Times;
    if s != [] {
      var n := |s| - 1;
      ValueBound(s[..n]);
      TimesMonotone(1 + (s[n] as int), B, BPow(n));
      TimesSum(1, s[n], BPow(n));
      TimesUnit(BPow(n));
      TimesB(BPow(n), 1);
    }
  }

  lemma {:induction false} ValueZeros(s: seq<Limb>)
    requires forall i :: 0 <= i < |s| ==> s[i] == 0
    ensures Value(s) == 0
  {
    hide Times;
    if s != [] {
      ValueZeros(s[..|s| - 1]);
      TimesUnit(BPow(|s| - 1));
    }
  }

  lemma {:induction false} ValueConcat(s: seq<Limb>, t: seq<Limb>)
    ensures Value(s + t) == Value(s) + Times(Value(t), BPow(|s|))
  {
    hide Times;
    if t == [] {
      assert s + t == s;
      TimesUnit(BPow(|s|));
    } else {
      var n := |t| - 1;
      ValueConcat(s, t[..n]);
      assert (s + t)[..|s + t| - 1] == s + t[..n];
      BPowSum(n, |s|);
      TimesAssoc(t[n], BPow(n), BPow(|s|));
      TimesSum(Value(t[..n]), Times(t[n], BPow(n)), BPow(|s|));
    }
  }

  lemma ValueSplit(s: seq<Limb>, i: nat)
    requires i <= |s|
    ensures Value(s) == Value(s[..i]) + Times(Value(s[i..]), BPow(i))
  {
    hide Times;
    assert s == s[..i] + s[i..];
    ValueConcat(s[..i], s[i..]);
  }

  /** Raising one limb raises the value by the difference at that weight. */
  lemma {:induction false} ValueRaise(s: seq<Limb>, i: nat, d: nat)
    requires i < |s| && s[i] + d < B
    ensures Value(s[i := s[i] + d]) == Value(s) + Times(d, BPow(i))
  {
    hide Times;
    var n := |s| - 1;
    var t := s[i := s[i] + d];
    if i < n {
      ValueRaise(s[..n], i, d);
      assert t[..n] == s[..n][i := s[i] + d];
    } else {
      assert t[..n] == s[..n];
      TimesSum(s[i], d, BPow(n));
    }
  }

  // ---------------------------------------------------------------------------------------
  // Single steps of the addition and multiplication loops.
  // ---------------------------------------------------------------------------------------

  lemma NoLimbs(s: seq<Limb>)
    requires s == []
    ensures Value(s) == 0
  {
  }

  lemma AddStep(z: seq<Limb>, x: seq<Limb>, y: seq<Limb>, i: nat, carry: nat)
    requires i < |z| && i < |x| && i < |y|
    requires Value(z[..i]) + Times(carry, BPow(i)) == Value(x[..i]) + Value(y[..i])
    requires z[i] == (carry + x[i] + y[i]) % B
    ensures Value(z[..i + 1]) + Times((carry + x[i] + y[i]) / B, BPow(i + 1))
         == Value(x[..i + 1]) + Value(y[..i + 1])
  {
    hide Times;
    ValuePrefix(z, i);
    ValuePrefix(x, i);
    ValuePrefix(y, i);
    SplitCarry(carry + x[i] + y[i], BPow(i));
    TimesSum(carry, x[i], BPow(i));
    TimesSum(carry + x[i], y[i], BPow(i));
  }

  lemma ComplementStep(z: seq<Limb>, x: seq<Limb>, i: nat)
    requires i < |z| && i < |x|
    requires Value(z[..i]) + Value(x[..i]) + 1 == BPow(i)
    requires z[i] as int + x[i] == B - 1
    ensures Value(z[..i + 1]) + Value(x[..i + 1]) + 1 == BPow(i + 1)
  {
    hide Times;
    ValuePrefix(z, i);
    ValuePrefix(x, i);
    TimesSum(z[i], x[i], BPow(i));
    TimesSum(1, B - 1, BPow(i));
    TimesUnit(BPow(i));
    TimesB(BPow(i), 1);
  }

  lemma IncrementStep(z: seq<Limb>, x: seq<Limb>, i: nat)
    requires i < |x| && z == x[i := (x[i] + 1) % B]
    ensures Value(z) + (if z[i] == 0 then BPow(i + 1) else 0) == Value(x) + BPow(i)
  {
    hide Times;
    TimesUnit(BPow(i));
    if z[i] == 0 {
      assert z[i := z[i] + (B - 1)] == x;
      ValueRaise(z, i, B - 1);
      TimesSum(1, B - 1, BPow(i));
      TimesB(BPow(i), 1);
    } else {
      ValueRaise(x, i, 1);
    }
  }

  lemma RaisedSum(x: nat, v: nat, lo: nat, hi: nat, p: nat, q: nat)
    requires v == lo + Times(hi, p)
    ensures Times(Times(x, v), q) == Times(Times(x, lo), q) + Times(Times(x, hi), Times(p, q))
  {
    hide Times;
    TimesSumRight(x, lo, Times(hi, p));
    TimesAssoc(x, hi, p);
    TimesSum(Times(x, lo), Times(Times(x, hi), p), q);
    TimesAssoc(Times(x, hi), p, q);
  }

  /** One inner step of the long multiplication: column `i + j` receives `x * y[i]`. */
  lemma MulStep(z: seq<Limb>, z0: seq<Limb>, y: seq<Limb>, x: Limb, i: nat, j: nat, carry: nat)
    requires i + j < |z| && i + j < |z0| && i < |y|
    requires Value(z[..i + j]) + Times(carry, BPow(i + j))
          == Value(z0[..i + j]) + Times(Times(x, Value(y[..i])), BPow(j))
    requires z[i + j] == (carry + z0[i + j] + Times(x, y[i])) % B
    ensures Value(z[..i + j + 1]) + Times((carry + z0[i + j] + Times(x, y[i])) / B, BPow(i + j + 1))
         == Value(z0[..i + j + 1]) + Times(Times(x, Value(y[..i + 1])), BPow(j))
  {
    hide Times;
    var p, xy := BPow(i + j), Times(x, y[i]);
    ValuePrefix(z, i + j);
    ValuePrefix(z0, i + j);
    ValuePrefix(y, i);
    SplitCarry(carry + z0[i + j] + xy, p);
    TimesSum(carry, z0[i + j], p);
    TimesSum(carry + z0[i + j], xy, p);
    BPowSum(i, j);
    RaisedSum(x, Value(y[..i + 1]), Value(y[..i]), y[i], BPow(i), BPow(j));
  }

  /** What the truncated columns leave out is a multiple of the modulus. */
  lemma MulTruncated(z: nat, z0: nat, y: seq<Limb>, x: Limb, j: nat, carry: nat) returns (k: nat)
    requires j <= |y|
    requires z + Times(carry, BPow(|y|)) == z0 + Times(Times(x, Value(y[..|y| - j])), BPow(j))
    ensures z + Times(k, BPow(|y|)) == z0 + Times(Times(x, Value(y)), BPow(j))
  {
    hide Times;
    var n := |y| - j;
    var hi := Value(y[n..]);
    ValueSplit(y, n);
    BPowSum(n, j);
    RaisedSum(x, Value(y), Value(y[..n]), hi, BPow(n), BPow(j));
    k := carry + Times(x, hi);
    TimesSum(carry, Times(x, hi), BPow(|y|));
  }

  /** A product of two limbs and two further limbs fits in 64 bits. */
  lemma ProductFits(a: Limb, b: Limb, c: Limb, d: Limb)
    ensures Times(a, b) == a * b
    ensures c + d + Times(a, b) < 0x1_0000_0000_0000_0000
  {
    TimesMonotone(a, 0xFFFF_FFFF, b);
  }

  /** A result that is short of the exact product by whole moduli is the product reduced. */
  lemma Reduced(z: seq<Limb>, k: nat, a: nat, b: nat)
    requires Value(z) + Times(k, BPow(|z|)) == Times(a, b)
    ensures Value(z) == a * b % BPow(|z|)
  {
    ValueBound(z);
    DivisionIs(Times(a, b), k, BPow(|z|), Value(z));
  }

  // ---------------------------------------------------------------------------------------
  // Shifts.
  // ---------------------------------------------------------------------------------------

  /** `a << r` on a 32-bit word. */
  function Shl(a: Limb, r: nat): Limb {
    if r == 0 then a else 2 * Shl(a, r - 1) % B
  }

  /** `a >> r`. */
  function Shr(a: Limb, r: nat): Limb {
    if r == 0 then a else Shr(a, r - 1) / 2
  }

  /** The bits that `a >> r` drops. */
  ghost function Rest(a: Limb, r: nat): int {
    a - Times(Shr(a, r), Pow2(r))
  }

  lemma {:induction false} RestBound(a: Limb, r: nat)
    ensures 0 <= Rest(a, r) < Pow2(r)
  {
    hide Times;
    if r == 0 {
      TimesUnit(a);
    } else {
      RestBound(a, r - 1);
      var q, p := Shr(a, r), Pow2(r - 1);
      TimesSumRight(q, p, p);
      TimesSum(q, q, p);
      TimesSum(q + q, Shr(a, r - 1) % 2, p);
      TimesUnit(p);
    }
  }

  lemma ShrIsQuotient(a: Limb, r: nat)
    ensures Shr(a, r) == a / Pow2(r)
  {
    hide Times;
    RestBound(a, r);
    DivisionIs(a, Shr(a, r), Pow2(r), Rest(a, r));
  }

  lemma {:induction false} ShlResidue(a: Limb, r: nat) returns (c: nat)
    ensures Times(a, Pow2(r)) == Shl(a, r) + B * c
  {
    hide Times;
    if r == 0 {
      TimesUnit(a);
      c := 0;
    } else {
      var d := ShlResidue(a, r - 1);
      TimesSumRight(a, Pow2(r - 1), Pow2(r - 1));
      c := 2 * d + 2 * Shl(a, r - 1) / B;
    }
  }

  lemma Pow2Word(r: nat)
    requires r <= 32
    ensures Times(Pow2(r), Pow2(32 - r)) == Times(Pow2(32 - r), Pow2(r)) == B
  {
    Pow2Of32();
    Pow2Sum(r, 32 - r);
  }

  /** The two parts of a shifted limb add up to the product, and do not overlap. */
  lemma ShiftParts(a: Limb, r: nat)
    requires r <= 32
    ensures Shl(a, r) + B * Shr(a, 32 - r) == Times(a, Pow2(r))
    ensures Shr(a, 32 - r) < Pow2(r)
    ensures 0 <= Rest(a, 32 - r) && Shl(a, r) == Times(Rest(a, 32 - r), Pow2(r))
    ensures Shl(a, r) + Pow2(r) <= B
  {
    hide Times, Shl, Shr, Pow2;
    var p, q, h, rest := Pow2(r), Pow2(32 - r), Shr(a, 32 - r), Rest(a, 32 - r);
    Pow2Word(r);
    RestBound(a, 32 - r);
    TimesSum(Times(h, q), rest, p);
    TimesAssoc(h, q, p);
    TimesB(h, 1);
    TimesUnit(h);
    TimesMonotone(rest + 1, q, p);
    TimesSum(rest, 1, p);
    TimesUnit(p);
    var c := ShlResidue(a, r);
    TimesMonotone(a + 1, B, p);
    TimesSum(a, 1, p);
    TimesB(p, 1);
  }

  /** Filling the vacated low bits by disjunction is addition, and stays in the word. */
  lemma ShlOr(c: nat, a: Limb, r: nat)
    requires r <= 32 && c < Pow2(r)
    ensures BitOr(c, Shl(a, r)) == BitOr(Shl(a, r), c) == c + Shl(a, r) < B
  {
    hide Times;
    ShiftParts(a, r);
    OrIsSum(Rest(a, 32 - r), c, r);
  }

  /** Limb `m` of `x << (32 * k + r)` once the first `i` limbs of `x` have been placed. */
  function ShlLimb(x: seq<Limb>, k: nat, r: nat, i: nat, m: nat): nat
    requires i <= |x| && r < 32
  {
    (if 0 <= m - k < i then Shl(x[m - k], r) else 0)
    + (if 0 < m - k <= i then Shr(x[m - k - 1], 32 - r) else 0)
  }

  ghost predicate IsShl(z: seq<Limb>, x: seq<Limb>, k: nat, r: nat, i: nat) {
    i <= |x| && r < 32 && |z| == |x|
    && forall m :: 0 <= m < |z| ==> z[m] == ShlLimb(x, k, r, i, m)
  }

  /** Placing limb `i`: its low part and the bits it hands up. */
  lemma ShlPlace(z: seq<Limb>, w: seq<Limb>, x: seq<Limb>, k: nat, r: nat, i: nat)
    requires IsShl(z, x, k, r, i) && i < |x| && |w| == |z|
    requires forall m :: 0 <= m < |w| && m != i + k && m != i + k + 1 ==> w[m] == z[m]
    requires i + k < |z| ==> w[i + k] as int == z[i + k] + Shl(x[i], r)
    requires i + k + 1 < |z| ==> w[i + k + 1] == Shr(x[i], 32 - r)
    ensures IsShl(w, x, k, r, i + 1)
  {
    hide Shl, Shr;
    forall m | 0 <= m < |w|
      ensures w[m] == ShlLimb(x, k, r, i + 1, m)
    {
      assert z[m] == ShlLimb(x, k, r, i, m);
    }
  }

  /** The two disjunctions of one left-shift step are additions that stay in the word. */
  lemma ShlFits(z: seq<Limb>, x: seq<Limb>, k: nat, r: nat, i: nat)
    requires IsShl(z, x, k, r, i) && i < |x|
    ensures i + k < |z| ==> BitOr(z[i + k], Shl(x[i], r)) == z[i + k] + Shl(x[i], r) < B
    ensures i + k + 1 < |z| ==> z[i + k + 1] == 0 && BitOr(0, Shr(x[i], 32 - r)) == Shr(x[i], 32 - r)
    ensures r == 0 ==> Shr(x[i], 32 - r) == 0
  {
    hide Times, Shl, Shr;
    ShiftParts(x[i], r);
    if i + k + 1 < |z| {
      assert z[i + k + 1] == ShlLimb(x, k, r, i, i + k + 1);
    }
    if i + k < |z| {
      assert z[i + k] == ShlLimb(x, k, r, i, i + k);
      if i > 0 {
        ShiftParts(x[i - 1], r);
      }
      ShlOr(z[i + k], x[i], r);
    }
  }

  lemma {:induction false} ShlValue(z: seq<Limb>, x: seq<Limb>, k: nat, r: nat, i: nat)
    requires IsShl(z, x, k, r, |x|) && i + k <= |z|
    ensures Value(z[..i + k]) + Times(if i == 0 then 0 else Shr(x[i - 1], 32 - r), BPow(i + k))
         == Times(Value(x[..i]), Pow2(32 * k + r))
  {
    hide Times;
    if i == 0 {
      ValueZeros(z[..k]);
      TimesUnit(BPow(k));
      TimesUnit(Pow2(32 * k + r));
    } else {
      ShlValue(z, x, k, r, i - 1);
      ShlStep(z, x, k, r, i - 1);
    }
  }

  lemma ShlStep(z: seq<Limb>, x: seq<Limb>, k: nat, r: nat, i: nat)
    requires IsShl(z, x, k, r, |x|) && i + k < |z|
    requires Value(z[..i + k]) + Times(if i == 0 then 0 else Shr(x[i - 1], 32 - r), BPow(i + k))
          == Times(Value(x[..i]), Pow2(32 * k + r))
    ensures Value(z[..i + k + 1]) + Times(Shr(x[i], 32 - r), BPow(i + k + 1))
         == Times(Value(x[..i + 1]), Pow2(32 * k + r))
  {
    hide Times, Pow2, Value, Shl, Shr;
    var p, q, u := Pow2(r), BPow(i + k), Pow2(32 * k + r);
    var lo, hi, c := Shl(x[i], r), Shr(x[i], 32 - r), if i == 0 then 0 else Shr(x[i - 1], 32 - r);
    assert z[i + k] == ShlLimb(x, k, r, |x|, i + k) == lo + c;
    ValuePrefix(z, i + k);
    TimesSum(lo, c, q);
    ValuePrefix(x, i);
    TimesSum(Value(x[..i]), Times(x[i], BPow(i)), u);
    ShiftWeight(k, r);
    TimesRegroup(x[i], BPow(i), p, BPow(k));
    BPowSum(i, k);
    ShiftParts(x[i], r);
    TimesSum(lo, B * hi, q);
    TimesB(hi, q);
  }

  lemma ShiftWeight(k: nat, r: nat)
    ensures Pow2(32 * k + r) == Times(Pow2(r), BPow(k))
  {
    BPowIsPow2(k);
    Pow2Sum(r, 32 * k);
  }

  /** The limbs shifted out at the top are a multiple of the modulus. */
  lemma ShlWhole(z: seq<Limb>, x: seq<Limb>, k: nat, r: nat)
    requires IsShl(z, x, k, r, |x|)
    ensures Value(z) == Value(x) * Pow2(32 * k + r) % BPow(|x|)
  {
    hide Times;
    var p, m, u := Pow2(r), BPow(|x|), Pow2(32 * k + r);
    ShiftWeight(k, r);
    if k <= |x| {
      var n := |x| - k;
      var c, hi := if n == 0 then 0 else Shr(x[n - 1], 32 - r), Value(x[n..]);
      assert z[..n + k] == z;
      ShlValue(z, x, k, r, n);
      ValueSplit(x, n);
      TimesSum(Value(x[..n]), Times(hi, BPow(n)), u);
      TimesRegroup(hi, BPow(n), p, BPow(k));
      BPowSum(n, k);
      TimesSum(c, Times(hi, p), m);
      Reduced(z, c + Times(hi, p), Value(x), u);
    } else {
      ValueZeros(z);
      BPowSum(k - |x|, |x|);
      TimesAssoc(p, BPow(k - |x|), m);
      TimesAssoc(Value(x), Times(p, BPow(k - |x|)), m);
      Reduced(z, Times(Value(x), Times(p, BPow(k - |x|))), Value(x), u);
    }
  }

  /** Limb `m` of `x >> (32 * k + r)` once the first `i` limbs of `x` have been placed. */
  function ShrLimb(x: seq<Limb>, k: nat, r: nat, i: nat, m: nat): nat
    requires i <= |x| && r < 32
  {
    (if m + k < i then Shr(x[m + k], r) else 0)
    + (if m + k + 1 < i then Shl(x[m + k + 1], 32 - r) else 0)
  }

  ghost predicate IsShr(z: seq<Limb>, x: seq<Limb>, k: nat, r: nat, i: nat) {
    i <= |x| && r < 32 && |z| == |x|
    && forall m :: 0 <= m < |z| ==> z[m] == ShrLimb(x, k, r, i, m)
  }

  lemma ShrPlace(z: seq<Limb>, w: seq<Limb>, x: seq<Limb>, k: nat, r: nat, i: nat)
    requires IsShr(z, x, k, r, i) && i < |x| && |w| == |z|
    requires forall m :: 0 <= m < |w| && m != i - k && m != i - k - 1 ==> w[m] == z[m]
    requires i - k - 1 >= 0 ==> w[i - k - 1] as int == z[i - k - 1] + Shl(x[i], 32 - r)
    requires i - k >= 0 ==> w[i - k] == Shr(x[i], r)
    ensures IsShr(w, x, k, r, i + 1)
  {
    hide Shl, Shr;
    forall m | 0 <= m < |w|
      ensures w[m] == ShrLimb(x, k, r, i + 1, m)
    {
      assert z[m] == ShrLimb(x, k, r, i, m);
    }
  }

  lemma ShrFits(z: seq<Limb>, x: seq<Limb>, k: nat, r: nat, i: nat)
    requires IsShr(z, x, k, r, i) && i < |x|
    ensures i - k - 1 >= 0 ==>
      BitOr(z[i - k - 1], Shl(x[i], 32 - r)) == z[i - k - 1] + Shl(x[i], 32 - r) < B
    ensures i - k >= 0 ==> z[i - k] == 0 && BitOr(0, Shr(x[i], r)) == Shr(x[i], r)
    ensures r == 0 ==> Shl(x[i], 32 - r) == 0
  {
    hide Times, Shl, Shr;
    ShiftParts(x[i], 32 - r);
    Pow2Of32();
    if i - k >= 0 {
      assert z[i - k] == ShrLimb(x, k, r, i, i - k);
    }
    if i - k - 1 >= 0 {
      assert z[i - k - 1] == ShrLimb(x, k, r, i, i - k - 1);
      ShiftParts(x[i - 1], 32 - r);
      ShlOr(z[i - k - 1], x[i], 32 - r);
    }
  }

  /** The limb above position `j` contributes its low bits; above the top there is nothing. */
  ghost function LowBits(c: seq<Limb>, j: nat, r: nat): int {
    if j < |c| then Rest(c[j], r) else 0
  }

  lemma {:induction false} ShrValue(z: seq<Limb>, x: seq<Limb>, k: nat, r: nat, j: nat)
    requires IsShr(z, x, k, r, |x|) && k < |x| && j + k <= |x|
    ensures LowBits(x[k..], j, r) >= 0
    ensures Times(Value(z[..j]), Pow2(r)) + LowBits(x[k..], 0, r)
         == Value(x[k..][..j]) + Times(LowBits(x[k..], j, r), BPow(j))
  {
    hide Times;
    var c := x[k..];
    if j < |c| {
      RestBound(c[j], r);
    }
    if j == 0 {
      TimesUnit(Pow2(r));
      TimesUnit(LowBits(c, 0, r));
    } else {
      ShrValue(z, x, k, r, j - 1);
      ZeroRest(32 - r);
      assert z[j - 1] == ShrLimb(x, k, r, |x|, j - 1);
      ShrStep(z, c, r, j - 1, Shl(if j < |c| then c[j] else 0, 32 - r));
    }
  }

  lemma ShrStep(z: seq<Limb>, c: seq<Limb>, r: nat, j: nat, s: nat)
    requires r < 32 && j < |c| && j < |z| && 0 <= LowBits(c, j, r) && 0 <= LowBits(c, j + 1, r)
    requires s == Shl(if j + 1 < |c| then c[j + 1] else 0, 32 - r)
    requires z[j] == Shr(c[j], r) + s
    requires Times(Value(z[..j]), Pow2(r)) + LowBits(c, 0, r)
          == Value(c[..j]) + Times(LowBits(c, j, r), BPow(j))
    ensures Times(Value(z[..j + 1]), Pow2(r)) + LowBits(c, 0, r)
         == Value(c[..j + 1]) + Times(LowBits(c, j + 1, r), BPow(j + 1))
  {
    hide Times;
    var p, e, h, next := Pow2(r), BPow(j), Shr(c[j], r), LowBits(c, j + 1, r);
    assert Times(s, p) == B * next by {
      ShiftParts(if j + 1 < |c| then c[j + 1] else 0, 32 - r);
      ZeroRest(r);
      TimesAssoc(next, Pow2(32 - r), p);
      Pow2Word(r);
      TimesB(next, 1);
      TimesUnit(next);
    }
    ValuePrefix(z, j);
    ValuePrefix(c, j);
    TimesSum(Value(z[..j]), Times(z[j], e), p);
    TimesExchange(z[j], e, p);
    TimesSum(h, s, p);
    TimesSum(Times(h, p), B * next, e);
    TimesB(next, e);
    TimesSum(Times(h, p), LowBits(c, j, r), e);
  }

  lemma {:induction false} ZeroRest(r: nat)
    ensures Shl(0, r) == 0 && Shr(0, r) == 0 && Rest(0, r) == 0
  {
    if r > 0 {
      ZeroRest(r - 1);
    }
  }

  lemma ShrWhole(z: seq<Limb>, x: seq<Limb>, k: nat, r: nat)
    requires IsShr(z, x, k, r, |x|)
    ensures Value(z) == Value(x) / Pow2(32 * k + r)
  {
    hide Times, Value;
    var p, u := Pow2(r), Pow2(32 * k + r);
    ShiftWeight(k, r);
    if k < |x| {
      var c, n, rest := x[k..], |x| - k, LowBits(x[k..], 0, r);
      ShrValue(z, x, k, r, n);
      assert c[..n] == c;
      TimesUnit(BPow(n));
      ValueSplit(z, n);
      ValueZeros(z[n..]);
      RestBound(c[0], r);
      ValueSplit(x, k);
      ValueBound(x[..k]);
      var q, lo := Value(z[..n]), Value(x[..k]);
      TimesSum(Times(q, p), rest, BPow(k));
      TimesAssoc(q, p, BPow(k));
      TimesMonotone(rest + 1, p, BPow(k));
      TimesSum(rest, 1, BPow(k));
      TimesUnit(BPow(k));
      DivisionIs(Value(x), q, u, Times(rest, BPow(k)) + lo);
    } else {
      ValueZeros(z);
      ValueBound(x);
      BPowSum(k - |x|, |x|);
      TimesMonotone(1, BPow(k - |x|), BPow(|x|));
      TimesMonotone(1, p, BPow(k));
      TimesUnit(BPow(|x|));
      TimesUnit(BPow(k));
      TimesUnit(u);
      DivisionIs(Value(x), 0, u, Value(x));
    }
  }

  // ---------------------------------------------------------------------------------------
  // Order, bit length and division.
  // ---------------------------------------------------------------------------------------

  lemma CompareAt(x: seq<Limb>, y: seq<Limb>, i: nat)
    requires |x| == |y| && i < |x| && x[i + 1..] == y[i + 1..] && x[i] < y[i]
    ensures Value(x) < Value(y)
  {
    hide Times, Value;
    var p := BPow(i);
    ValueSplit(x, i + 1);
    ValueSplit(y, i + 1);
    ValuePrefix(x, i);
    ValuePrefix(y, i);
    ValueBound(x[..i]);
    TimesMonotone(1 + (x[i] as int), y[i], p);
    TimesSum(1, x[i], p);
    TimesUnit(p);
  }

  /** The highest set bit of the highest limb that is not zero is the highest set bit. */
  lemma TopBit(s: seq<Limb>, pos: nat, n: nat)
    requires pos < |s| && Pow2(n) <= s[pos] < Pow2(n + 1)
    requires forall j :: pos < j < |s| ==> s[j] == 0
    ensures Pow2(32 * pos + n) <= Value(s) < Pow2(32 * pos + n + 1)
  {
    hide Times, Value;
    var p := BPow(pos);
    ValueSplit(s, pos + 1);
    ValueZeros(s[pos + 1..]);
    TimesUnit(BPow(pos + 1));
    ValuePrefix(s, pos);
    ValueBound(s[..pos]);
    ShiftWeight(pos, n);
    ShiftWeight(pos, n + 1);
    TimesMonotone(Pow2(n), s[pos], p);
    TimesMonotone(1 + (s[pos] as int), Pow2(n + 1), p);
    TimesSum(1, s[pos], p);
    TimesUnit(p);
  }

  lemma LimbCounts(s: seq<Limb>, i: nat)
    requires i < |s| && s[i] != 0
    ensures Value(s) != 0
  {
    hide Times;
    ValueSplit(s, i + 1);
    ValuePrefix(s, i);
    TimesMonotone(1, s[i], BPow(i));
    TimesUnit(BPow(i));
  }

  /** For a number below `2^(n+1)`, bit `n` tells whether it reaches `2^n`. */
  lemma BitIsTop(a: nat, n: nat)
    requires a < Pow2(n + 1)
    ensures a / Pow2(n) % 2 == 1 <==> a >= Pow2(n)
  {
    hide Times;
    var p := Pow2(n);
    TimesUnit(p);
    if a >= p {
      DivisionIs(a, 1, p, a - p);
    } else {
      DivisionIs(a, 0, p, a);
    }
  }

  lemma ValueLow(s: seq<Limb>)
    requires |s| >= 2
    ensures Value(s) % 0x1_0000_0000_0000_0000 == BitOr(s[0], B * s[1]) < 0x1_0000_0000_0000_0000
  {
    hide Times, BitOr;
    ValueSplit(s, 2);
    ValuePrefix(s, 1);
    ValuePrefix(s, 0);
    TimesUnit(s[0]);
    TimesUnit(s[1]);
    TimesB(s[1], 1);
    Pow2Of32();
    OrIsSum(s[1], s[0], 32);
    DivisionIs(Value(s), Value(s[2..]), BPow(2), Value(s[..2]));
  }

  /** Where shift-and-subtract division stands with bits `shift` and below still to decide. */
  ghost predicate Dividing(n: nat, d: nat, num: nat, q: nat, shift: int) {
    shift >= -1 && num + Times(q, d) == n && num < Times(d, Pow2(shift + 1))
  }

  /** The first subtraction position is high enough, and shifting the divisor there is exact. */
  lemma DivisionStarts(n: nat, d: nat, nBits: nat, dBits: nat, m: nat)
    requires 1 <= dBits <= nBits && n < Pow2(nBits) <= m && Pow2(dBits - 1) <= d < Pow2(dBits)
    ensures Dividing(n, d, n, 0, nBits - dBits)
    ensures d * Pow2(nBits - dBits) % m == Times(d, Pow2(nBits - dBits))
  {
    hide Times;
    var s := nBits - dBits;
    Pow2Sum(dBits - 1, s + 1);
    TimesMonotone(Pow2(dBits - 1), d, Pow2(s + 1));
    TimesUnit(d);
    Pow2Sum(dBits, s);
    TimesMonotone(d + 1, Pow2(dBits), Pow2(s));
    TimesSum(d, 1, Pow2(s));
    TimesUnit(Pow2(s));
    TimesUnit(m);
    DivisionIs(Times(d, Pow2(s)), 0, m, Times(d, Pow2(s)));
    ProductOf(d, Pow2(s));
  }

  lemma SmallQuotient(n: nat, d: nat, nBits: nat, dBits: nat)
    requires nBits < dBits && n < Pow2(nBits) && Pow2(dBits - 1) <= d
    ensures n / d == 0
  {
    Pow2Monotone(nBits, dBits - 1);
    TimesUnit(d);
    DivisionIs(n, 0, d, n);
  }

  /** Deciding one quotient bit. */
  lemma DivisionStep(n: nat, d: nat, num: nat, q: nat, shift: nat)
    requires Dividing(n, d, num, q, shift)
    ensures var div := Times(d, Pow2(shift));
      if num >= div then Dividing(n, d, num - div, q + Pow2(shift), shift - 1)
      else Dividing(n, d, num, q, shift - 1)
    ensures shift > 0 ==> Times(d, Pow2(shift)) / 2 == Times(d, Pow2(shift - 1))
  {
    hide Times;
    var p := Pow2(shift);
    TimesSumRight(d, p, p);
    TimesSum(q, p, d);
    TimesSwap(p, d);
    if shift > 0 {
      TimesSumRight(d, Pow2(shift - 1), Pow2(shift - 1));
    }
  }

  /** Setting bit `e` of a limb whose bits up to `e` are clear. */
  lemma SetBit(a: Limb, h: nat, e: nat)
    requires e < 32 && a == Times(h, Pow2(e + 1))
    ensures BitOr(a, Shl(1, e)) == a + Pow2(e) < B
    ensures a + Pow2(e) == Times(2 * h + 1, Pow2(e)) && a == Times(2 * h, Pow2(e))
  {
    hide Times, Shl, Shr, BitOr;
    var p, q := Pow2(e), Pow2(31 - e);
    Pow2Word(e + 1);
    TimesSumRight(h, p, p);
    TimesSum(h, h, p);
    TimesSum(2 * h, 1, p);
    TimesUnit(p);
    assert Shl(1, e) == p by {
      BitAt(e);
    }
    OrIsSum(h, p, e + 1);
    if h >= q {
      TimesMonotone(q, h, Pow2(e + 1));
      assert false;
    }
    TimesMonotone(h + 1, q, Pow2(e + 1));
    TimesSum(h, 1, Pow2(e + 1));
    TimesUnit(Pow2(e + 1));
  }

  lemma {:induction false} BitAt(e: nat)
    requires e < 32
    ensures Shl(1, e) == Pow2(e) < B
  {
    hide Pow2;
    BitFits(e);
    if e > 0 {
      BitAt(e - 1);
    }
  }

  lemma BitFits(e: nat)
    requires e < 32
    ensures Pow2(e) < B && (if e == 0 then Pow2(e) == 1 else Pow2(e) == 2 * Pow2(e - 1))
  {
    Pow2Of32();
    Pow2Monotone(e, 31);
    assert Pow2(32) == 2 * Pow2(31);
  }

  /** Bits `shift` and below of the quotient are clear; `h` is what its current limb holds above. */
  ghost predicate Vacant(s: seq<Limb>, shift: int, h: nat) {
    -1 <= shift < 32 * |s|
    && (shift >= 0 ==> s[shift / 32] == Times(h, Pow2(shift % 32 + 1)))
    && forall j :: 0 <= j < |s| && 32 * (j + 1) <= shift + 1 ==> s[j] == 0
  }

  lemma VacantIndex(s: seq<Limb>, shift: nat, h: nat)
    requires Vacant(s, shift, h)
    ensures shift / 32 < |s|
  {
  }

  lemma VacantBit(s: seq<Limb>, shift: nat, h: nat)
    requires Vacant(s, shift, h)
    ensures BitOr(s[shift / 32], Shl(1, shift % 32)) == s[shift / 32] + Pow2(shift % 32) < B
  {
    SetBit(s[shift / 32], h, shift % 32);
  }

  /** `t` is `s` with quotient bit `shift` written. */
  ghost predicate BitWritten(s: seq<Limb>, t: seq<Limb>, shift: nat, bit: bool) {
    shift / 32 < |s| == |t|
    && (forall j :: 0 <= j < |s| && j != shift / 32 ==> t[j] == s[j])
    && t[shift / 32] == if bit then BitOr(s[shift / 32], Shl(1, shift % 32)) else s[shift / 32]
  }

  lemma WrittenValue(s: seq<Limb>, t: seq<Limb>, shift: nat, h: nat, bit: bool)
    requires Vacant(s, shift, h) && BitWritten(s, t, shift, bit)
    ensures Value(t) == Value(s) + if bit then Pow2(shift) else 0
  {
    hide Times, Value, Shl, BitOr, Pow2, Vacant;
    var l, e := shift / 32, shift % 32;
    if bit {
      VacantBit(s, shift, h);
      assert t == s[l := s[l] + Pow2(e)];
      ValueRaise(s, l, Pow2(e));
      ShiftWeight(l, e);
    } else {
      assert t == s;
    }
  }

  lemma WrittenVacant(s: seq<Limb>, t: seq<Limb>, shift: nat, h: nat, bit: bool) returns (h2: nat)
    requires Vacant(s, shift, h) && BitWritten(s, t, shift, bit)
    ensures Vacant(t, shift - 1, h2)
  {
    hide Times, Value, Shl, BitOr, Pow2;
    var e := shift % 32;
    SetBit(s[shift / 32], h, e);
    if e == 0 {
      h2 := 0;
      TimesUnit(Pow2(32));
    } else {
      h2 := if bit then 2 * h + 1 else 2 * h;
      assert (shift - 1) / 32 == shift / 32 && (shift - 1) % 32 == e - 1;
    }
  }

  lemma Pow2Small()
    ensures Pow2(1) == 2
  {
  }

  lemma DivisionEnds(n: nat, d: nat, num: nat, q: nat)
    requires Dividing(n, d, num, q, -1)
    ensures d > 0 && n / d == q
  {
    hide Times;
    TimesUnit(d);
    DivisionIs(n, q, d, num);
  }

  // ---------------------------------------------------------------------------------------
  // The integer class.
  // ---------------------------------------------------------------------------------------

  class BaseUint {
    const pn: array<Limb>

    ghost function Val(): nat
      reads pn
    {
      Value(pn[..])
    }

    /** What the stored value is reduced by. */
    ghost function Modulus(): nat {
      BPow(pn.Length)
    }

    /** `x` reduced into range, for an `x` that is off by at most one modulus. */
    ghost function Wrapped(x: int): int {
      if x < 0 then x + Modulus() else if x < Modulus() then x else x - Modulus()
    }

    constructor Zero(width: nat)
      ensures fresh(pn) && pn.Length == width && Val() == 0
    {
      hide Times;
      pn := new Limb[width](_ => 0);
      new;
      ValueZeros(pn[..]);
    }

    constructor Copy(b: BaseUint)
      ensures fresh(pn) && pn[..] == b.pn[..] && Val() == b.Val()
    {
      hide Times;
      pn := new Limb[b.pn.Length](i requires 0 <= i < b.pn.Length reads b.pn => b.pn[i]);
      new;
      assert pn[..] == b.pn[..];
    }

    /** `*this = b`. */
    method Assign64(b: Word64)
      requires pn.Length >= 2
      modifies pn
      ensures Val() == b
    {
      hide Times;
      pn[0] := b % B;
      pn[1] := b / B;
      var i := 2;
      while i < pn.Length
        invariant 2 <= i <= pn.Length
        invariant pn[0] == b % B && pn[1] == b / B
        invariant forall j :: 2 <= j < i ==> pn[j] == 0
      {
        pn[i] := 0;
        i := i + 1;
      }
      ValueSplit(pn[..], 2);
      assert pn[..][2..] == pn[2..];
      ValueZeros(pn[2..]);
      ValuePrefix(pn[..], 1);
      ValuePrefix(pn[..], 0);
      TimesUnit(pn[0]);
      TimesUnit(pn[1]);
      TimesUnit(BPow(2));
      TimesB(pn[1], 1);
    }

    /** `*this = 0`. */
    method Clear()
      modifies pn
      ensures Val() == 0
      ensures forall i :: 0 <= i < pn.Length ==> pn[i] == 0
    {
      hide Times;
      var i := 0;
      while i < pn.Length
        invariant 0 <= i <= pn.Length
        invariant forall j :: 0 <= j < i ==> pn[j] == 0
      {
        pn[i] := 0;
        i := i + 1;
      }
      ValueZeros(pn[..]);
    }

    /** `~*this`. */
    method Complement() returns (ret: BaseUint)
      ensures fresh(ret) && fresh(ret.pn) && ret.pn.Length == pn.Length
      ensures ret.Val() == Modulus() - 1 - Val()
    {
      hide Times;
      ret := new BaseUint.Zero(pn.Length);
      var i := 0;
      while i < pn.Length
        invariant 0 <= i <= pn.Length
        invariant Value(ret.pn[..i]) + Value(pn[..i]) + 1 == BPow(i)
      {
        ghost var before := ret.pn[..i];
        ret.pn[i] := 0xFFFF_FFFF - pn[i];
        assert ret.pn[..][..i] == before && ret.pn[..][..i + 1] == ret.pn[..i + 1];
        assert pn[..][..i] == pn[..i] && pn[..][..i + 1] == pn[..i + 1];
        ComplementStep(ret.pn[..], pn[..], i);
        i := i + 1;
      }
      assert ret.pn[..i] == ret.pn[..] && pn[..i] == pn[..];
    }

    /** `++*this`. */
    method Increment()
      modifies pn
      ensures Val() == if old(Val()) + 1 < Modulus() then old(Val()) + 1 else 0
    {
      hide Times;
      var i := 0;
      while i < pn.Length
        invariant 0 <= i <= pn.Length
        invariant Val() + BPow(i) == old(Val()) + 1
      {
        ghost var before := pn[..];
        pn[i] := (pn[i] + 1) % B;
        assert pn[..] == before[i := pn[i]];
        IncrementStep(pn[..], before, i);
        if pn[i] != 0 {
          ValueBound(pn[..]);
          return;
        }
        i := i + 1;
      }
      ValueBound(old(pn[..]));
    }

    /** `-*this`. */
    method Negate() returns (ret: BaseUint)
      ensures fresh(ret) && fresh(ret.pn) && ret.pn.Length == pn.Length
      ensures ret.Val() == if Val() == 0 then 0 else Modulus() - Val()
    {
      hide Times;
      ret := Complement();
      ret.Increment();
    }

    /** `*this += b`; `b` may be this very object. */
    method AddAssign(b: BaseUint)
      requires b.pn.Length == pn.Length
      modifies pn
      ensures Val() == Wrapped(old(Val()) + old(b.Val()))
    {
      hide Times, Value, BPow;
      ghost var x, y := pn[..], b.pn[..];
      var carry: nat := 0;
      var i := 0;
      NoLimbs(pn[..0]);
      NoLimbs(x[..0]);
      NoLimbs(y[..0]);
      TimesUnit(BPow(0));
      while i < pn.Length
        invariant 0 <= i <= pn.Length && carry <= 1
        invariant forall j :: i <= j < pn.Length ==> pn[j] == x[j] && b.pn[j] == y[j]
        invariant Value(pn[..i]) + Times(carry, BPow(i)) == Value(x[..i]) + Value(y[..i])
      {
        var n: Word64 := carry + pn[i] + b.pn[i];
        ghost var before := pn[..i];
        pn[i] := n % B;
        assert pn[..][..i] == before && pn[..][..i + 1] == pn[..i + 1];
        AddStep(pn[..], x, y, i, carry);
        carry := n / B;
        i := i + 1;
      }
      assert pn[..i] == pn[..] && x[..i] == x && y[..i] == y;
      ValueBound(pn[..]);
      TimesUnit(Modulus());
    }

    /** `*this -= b`. */
    method SubAssign(b: BaseUint)
      requires b.pn.Length == pn.Length
      modifies pn
      ensures Val() == Wrapped(old(Val()) - old(b.Val()))
    {
      hide Times;
      ValueBound(pn[..]);
      ValueBound(b.pn[..]);
      var minus := b.Negate();
      AddAssign(minus);
    }

    /** Adds `x * b`, moved up by `j` limbs; `k` counts what falls off the top. */
    method AddProduct(x: Limb, b: BaseUint, j: nat) returns (ghost k: nat)
      requires b.pn.Length == pn.Length && j <= pn.Length
      requires b.pn == pn ==> forall m :: 0 <= m < pn.Length ==> pn[m] == 0
      modifies pn
      ensures Val() + Times(k, Modulus()) == old(Val()) + Times(Times(x, b.Val()), BPow(j))
      ensures b.pn[..] == old(b.pn[..])
    {
      hide Times, Value;
      ghost var z0, y := pn[..], b.pn[..];
      var carry: Limb := 0;
      var i := 0;
      assert y[..0] == [];
      ValueZeros(y[..0]);
      TimesUnit(x);
      TimesUnit(BPow(j));
      while i + j < pn.Length
        invariant 0 <= i && i + j <= pn.Length
        invariant forall m :: i + j <= m < pn.Length ==> pn[m] == z0[m]
        invariant b.pn[..] == y && (b.pn == pn ==> carry == 0)
        invariant Value(pn[..i + j]) + Times(carry, BPow(i + j))
               == Value(z0[..i + j]) + Times(Times(x, Value(y[..i])), BPow(j))
      {
        ProductFits(x, b.pn[i], carry, pn[i + j]);
        var n: Word64 := carry + pn[i + j] + x * b.pn[i];
        ghost var before := pn[..i + j];
        pn[i + j] := n % B;
        assert pn[..][..i + j] == before && pn[..][..i + j + 1] == pn[..i + j + 1];
        MulStep(pn[..], z0, y, x, i, j, carry);
        carry := n / B;
        i := i + 1;
      }
      assert pn[..i + j] == pn[..] && z0[..i + j] == z0;
      k := MulTruncated(Val(), Value(z0), y, x, j, carry);
    }

    /** `*this *= b`. The target is cleared first, so squaring an object in place gives zero. */
    method MulAssign(b: BaseUint)
      requires b.pn.Length == pn.Length
      modifies pn
      ensures Val() == if b.pn == pn then 0 else old(Val()) * old(b.Val()) % Modulus()
    {
      hide Times;
      ghost var x := pn[..];
      var a := new BaseUint.Copy(this);
      Clear();
      ghost var y := b.Val();
      ghost var ys := b.pn[..];
      ghost var k: nat := 0;
      var j := 0;
      TimesUnit(Modulus());
      TimesUnit(y);
      while j < pn.Length
        invariant 0 <= j <= pn.Length
        invariant a.pn[..] == x && b.pn[..] == ys && Value(ys) == y
        invariant b.pn == pn ==> forall m :: 0 <= m < pn.Length ==> pn[m] == 0
        invariant Val() + Times(k, Modulus()) == Times(Value(x[..j]), y)
      {
        ghost var more := AddProduct(a.pn[j], b, j);
        assert b.pn == pn ==> forall m :: 0 <= m < pn.Length ==> pn[m] == ys[m];
        ValuePrefix(x, j);
        TimesSum(Value(x[..j]), Times(x[j], BPow(j)), y);
        TimesExchange(x[j], y, BPow(j));
        TimesSum(k, more, Modulus());
        k := k + more;
        j := j + 1;
      }
      if b.pn == pn {
        ValueZeros(pn[..]);
      } else {
        assert x[..j] == x;
        Reduced(pn[..], k, Value(x), y);
      }
    }

    /** `*this <<= shift`. */
    method ShiftLeft(shift: nat)
      modifies pn
      ensures Val() == old(Val()) * Pow2(shift) % Modulus()
    {
      hide Times, Value, BitOr, Shl, Shr;
      ghost var x := pn[..];
      var a := new BaseUint.Copy(this);
      Clear();
      var k, r := shift / 32, shift % 32;
      var i := 0;
      while i < pn.Length
        invariant 0 <= i <= pn.Length && a.pn[..] == x
        invariant IsShl(pn[..], x, k, r, i)
      {
        ghost var z := pn[..];
        ShlFits(z, x, k, r, i);
        if i + k + 1 < pn.Length && r != 0 {
          pn[i + k + 1] := BitOr(pn[i + k + 1], Shr(a.pn[i], 32 - r));
        }
        if i + k < pn.Length {
          pn[i + k] := BitOr(pn[i + k], Shl(a.pn[i], r));
        }
        ShlPlace(z, pn[..], x, k, r, i);
        i := i + 1;
      }
      ShlWhole(pn[..], x, k, r);
    }

    /** `*this >>= shift`. */
    method ShiftRight(shift: nat)
      modifies pn
      ensures Val() == old(Val()) / Pow2(shift)
    {
      hide Times, Value, BitOr, Shl, Shr;
      ghost var x := pn[..];
      var a := new BaseUint.Copy(this);
      Clear();
      var k, r := shift / 32, shift % 32;
      var i := 0;
      while i < pn.Length
        invariant 0 <= i <= pn.Length && a.pn[..] == x
        invariant IsShr(pn[..], x, k, r, i)
      {
        ghost var z := pn[..];
        ShrFits(z, x, k, r, i);
        if i - k - 1 >= 0 && r != 0 {
          pn[i - k - 1] := BitOr(pn[i - k - 1], Shl(a.pn[i], 32 - r));
        }
        if i - k >= 0 {
          pn[i - k] := BitOr(pn[i - k], Shr(a.pn[i], r));
        }
        ShrPlace(z, pn[..], x, k, r, i);
        i := i + 1;
      }
      ShrWhole(pn[..], x, k, r);
    }

    /** Three-way comparison of the values. */
    method CompareTo(b: BaseUint) returns (r: int)
      requires b.pn.Length == pn.Length
      ensures -1 <= r <= 1
      ensures r < 0 <==> Val() < b.Val()
      ensures r > 0 <==> Val() > b.Val()
    {
      hide Times, Value;
      var i := pn.Length;
      while i > 0
        invariant 0 <= i <= pn.Length
        invariant pn[i..] == b.pn[i..]
      {
        i := i - 1;
        assert pn[..][i + 1..] == pn[i + 1..] && b.pn[..][i + 1..] == b.pn[i + 1..];
        if pn[i] < b.pn[i] {
          CompareAt(pn[..], b.pn[..], i);
          return -1;
        }
        if pn[i] > b.pn[i] {
          CompareAt(b.pn[..], pn[..], i);
          return 1;
        }
      }
      assert pn[..] == b.pn[..];
      return 0;
    }

    /** Whether the value is zero. */
    method IsZero() returns (r: bool)
      ensures r <==> Val() == 0
    {
      hide Times, Value;
      var i := 0;
      while i < pn.Length
        invariant 0 <= i <= pn.Length
        invariant forall j :: 0 <= j < i ==> pn[j] == 0
      {
        if pn[i] != 0 {
          LimbCounts(pn[..], i);
          return false;
        }
        i := i + 1;
      }
      ValueZeros(pn[..]);
      return true;
    }

    /** The position of the highest set bit plus one, or zero. */
    method BitLength() returns (r: nat)
      ensures r <= 32 * pn.Length
      ensures if Val() == 0 then r == 0 else r > 0 && Pow2(r - 1) <= Val() < Pow2(r)
    {
      hide Times, Value;
      var pos := pn.Length;
      while pos > 0
        invariant 0 <= pos <= pn.Length
        invariant forall j :: pos <= j < pn.Length ==> pn[j] == 0
      {
        pos := pos - 1;
        if pn[pos] != 0 {
          LimbCounts(pn[..], pos);
          var nbits := 31;
          Pow2Of32();
          while nbits > 0
            invariant 0 <= nbits <= 31 && pn[pos] < Pow2(nbits + 1)
          {
            if pn[pos] / Pow2(nbits) % 2 == 1 {
              BitIsTop(pn[pos], nbits);
              TopBit(pn[..], pos, nbits);
              return 32 * pos + nbits + 1;
            }
            BitIsTop(pn[pos], nbits);
            nbits := nbits - 1;
          }
          TopBit(pn[..], pos, 0);
          return 32 * pos + 1;
        }
      }
      ValueZeros(pn[..]);
      return 0;
    }

    /** The low 64 bits. */
    method GetLow64() returns (r: Word64)
      requires pn.Length >= 2
      ensures r == Val() % 0x1_0000_0000_0000_0000
    {
      hide Times;
      ValueLow(pn[..]);
      r := BitOr(pn[0], B * pn[1]);
    }

    /** `*this /= b`: refused for a zero divisor, leaving zero; otherwise the floor quotient. */
    method DivAssign(b: BaseUint) returns (ok: bool)
      requires b.pn.Length == pn.Length
      modifies pn
      ensures ok <==> old(b.Val()) != 0
      ensures Val() == if ok then old(Val()) / old(b.Val()) else 0
    {
      hide Times, Value, Shl, BitOr;
      ghost var n, d := Val(), b.Val();
      var div := new BaseUint.Copy(b);
      var num := new BaseUint.Copy(this);
      Clear();
      var numBits := num.BitLength();
      var divBits := div.BitLength();
      if divBits == 0 {
        return false;
      }
      ok := true;
      if divBits > numBits {
        SmallQuotient(n, d, numBits, divBits);
        return;
      }
      var shift := numBits - divBits;
      assert BPow(pn.Length) == Pow2(32 * pn.Length) by { BPowIsPow2(pn.Length); }
      Pow2Monotone(numBits, 32 * pn.Length);
      DivisionStarts(n, d, numBits, divBits, Modulus());
      div.ShiftLeft(shift);
      assert Vacant(pn[..], shift, 0) by { TimesUnit(Pow2(shift % 32 + 1)); }
      ShiftSubtract(num, div, shift, n, d, 0);
    }

    /** The loop of the long division: decides the quotient bits from `start` down to 0. */
    method ShiftSubtract(num: BaseUint, div: BaseUint, start: nat, ghost n: nat, ghost d: nat, ghost h0: nat)
      requires pn.Length == num.pn.Length == div.pn.Length
      requires pn != num.pn && pn != div.pn && num.pn != div.pn
      requires Dividing(n, d, num.Val(), Val(), start) && div.Val() == Times(d, Pow2(start))
      requires Vacant(pn[..], start, h0)
      modifies pn, num.pn, div.pn
      ensures d > 0 && Val() == n / d
    {
      hide Times, Value, Shl, BitOr, Dividing, Vacant, Pow2;
      var shift: int := start;
      ghost var h := h0;
      while shift >= 0
        invariant -1 <= shift <= start
        invariant Vacant(pn[..], shift, h) && Dividing(n, d, num.Val(), Val(), shift)
        invariant shift >= 0 ==> div.Val() == Times(d, Pow2(shift))
      {
        var cmp := num.CompareTo(div);
        ghost var s := pn[..];
        DivisionStep(n, d, num.Val(), Val(), shift);
        if cmp >= 0 {
          ValueBound(num.pn[..]);
          num.SubAssign(div);
          VacantBit(s, shift, h);
          VacantIndex(s, shift, h);
          pn[shift / 32] := BitOr(pn[shift / 32], Shl(1, shift % 32));
        }
        assert BitWritten(s, pn[..], shift, cmp >= 0) by { VacantIndex(s, shift, h); }
        WrittenValue(s, pn[..], shift, h, cmp >= 0);
        h := WrittenVacant(s, pn[..], shift, h, cmp >= 0);
        div.ShiftRight(1);
        assert Pow2(1) == 2 by { Pow2Small(); }
        shift := shift - 1;
      }
      DivisionEnds(n, d, num.Val(), Val());
    }
  }
}
