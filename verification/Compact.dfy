/**
 Compact difficulty targets (src/arith_uint256.cpp) and the work they stand for (src/chain.cpp).
 A compact number packs a byte length, a sign bit and a 23-bit mantissa into 32 bits.
 */
module Compact {
  import opened Bits
  import opened ArithUint

  // ---------------------------------------------------------------------------------------
  // The format.
  // ---------------------------------------------------------------------------------------

  function Size(c: Limb): nat {
    c / 0x100_0000
  }

  function Mantissa(c: Limb): nat {
    c % 0x80_0000
  }

  predicate SignBit(c: Limb) {
    c / 0x80_0000 % 2 == 1
  }

  /** `mantissa * 256^(size - 3)`, rounded down for a size below 3. */
  ghost function ValueOf(c: Limb): nat {
    Scaled(Mantissa(c), Size(c))
  }

  ghost function Scaled(m: nat, size: nat): nat {
    if size <= 3 then Over(m, Pow2(8 * (3 - size))) else Times(m, Pow2(8 * (size - 3)))
  }

  /**
   The normalised form of a positive `x`: the mantissa has its top bit in one of the eight
   positions below the sign bit and is what remains of `x` after dropping whole low bytes.
   */
  ghost predicate Normal(x: nat, size: nat, m: nat) {
    0x8000 <= m < 0x80_0000
    && if size <= 3 then Times(x, Pow2(8 * (3 - size))) == m
       else Times(m, Pow2(8 * (size - 3))) <= x < Times(m + 1, Pow2(8 * (size - 3)))
  }

  /** `c` is the compact form of `x` with the given sign; zero has no sign. */
  ghost predicate Encodes(c: Limb, x: nat, negative: bool) {
    if x == 0 then c == 0
    else Normal(x, Size(c), Mantissa(c)) && SignBit(c) == negative
  }

  // ---------------------------------------------------------------------------------------
  // Uniqueness and truncation.
  // ---------------------------------------------------------------------------------------

  lemma Pow2Bytes()
    ensures Pow2(7) == 0x80 && Pow2(8) == 0x100 && Pow2(15) == 0x8000 && Pow2(16) == 0x1_0000
    ensures Pow2(23) == 0x80_0000 && Pow2(24) == 0x100_0000
  {
    assert Pow2(4) == 16 && Pow2(3) == 8;
    Pow2Add(3, 4);
    Pow2Add(4, 4);
    Pow2Add(7, 8);
    Pow2Add(8, 8);
    Pow2Add(8, 15);
    Pow2Add(8, 16);
  }

  /** A normalised number lies between two powers of two that its size fixes. */
  lemma NormalRange(x: nat, size: nat, m: nat)
    requires Normal(x, size, m)
    ensures size >= 1 && x >= 1
    ensures Times(x, Pow2(24)) >= Pow2(8 * size + 15) && Times(x, Pow2(24)) < Pow2(8 * size + 23)
  {
    hide Times, Pow2;
    Pow2Bytes();
    if size <= 3 {
      var k := 8 * (3 - size);
      Pow2Sum(k, 8 * size);
      TimesAssoc(x, Pow2(k), Pow2(8 * size));
      Pow2Sum(15, 8 * size);
      Pow2Sum(23, 8 * size);
      TimesMonotone(0x8000, m, Pow2(8 * size));
      TimesStrict(m, 0x80_0000, Pow2(8 * size));
      if size == 0 {
        TimesUnit(Pow2(24));
        TimesStrict(0, x, Pow2(24));
        TimesMonotone(1, x, Pow2(24));
        assert false;
      }
    } else {
      var k := 8 * (size - 3);
      Pow2Sum(k, 24);
      TimesAssoc(m, Pow2(k), Pow2(24));
      TimesAssoc(m + 1, Pow2(k), Pow2(24));
      TimesMonotone(Times(m, Pow2(k)), x, Pow2(24));
      TimesStrict(x, Times(m + 1, Pow2(k)), Pow2(24));
      Pow2Sum(15, 8 * size);
      Pow2Sum(23, 8 * size);
      TimesMonotone(0x8000, m, Pow2(8 * size));
      TimesMonotone(m + 1, 0x80_0000, Pow2(8 * size));
    }
    TimesUnit(Pow2(24));
  }

  lemma NormalUnique(x: nat, s: nat, m: nat, t: nat, n: nat)
    requires Normal(x, s, m) && Normal(x, t, n)
    ensures s == t && m == n
  {
    hide Times, Pow2;
    NormalRange(x, s, m);
    NormalRange(x, t, n);
    if s < t {
      Pow2Monotone(8 * s + 23, 8 * t + 15);
    } else if t < s {
      Pow2Monotone(8 * t + 23, 8 * s + 15);
    }
    if s > 3 && m < n {
      TimesMonotone(m + 1, n, Pow2(8 * (s - 3)));
    } else if s > 3 && n < m {
      TimesMonotone(n + 1, m, Pow2(8 * (s - 3)));
    }
  }

  /** A number has one compact form per sign. */
  lemma EncodingUnique(c: Limb, d: Limb, x: nat, negative: bool)
    requires Encodes(c, x, negative) && Encodes(d, x, negative)
    ensures c == d
  {
    hide Times, Pow2, Normal, Size, Mantissa, SignBit;
    if x > 0 {
      NormalUnique(x, Size(c), Mantissa(c), Size(d), Mantissa(d));
      Parts(c);
      Parts(d);
    }
  }

  lemma Parts(c: Limb)
    ensures c == Size(c) * 0x100_0000 + (if SignBit(c) then 0x80_0000 else 0) + Mantissa(c)
  {
    var q, r := c / 0x80_0000, c % 0x80_0000;
    assert c == (q / 2) * 0x100_0000 + (q % 2) * 0x80_0000 + r;
    assert c / 0x100_0000 == q / 2;
  }

  /**
   Expanding a compact form gives back the number with its low bytes dropped: no more than it,
   short by at most one part in `2^15`, and with the same compact form.
   */
  lemma ExpansionTruncates(c: Limb, x: nat, negative: bool)
    requires Encodes(c, x, negative)
    ensures ValueOf(c) <= x && (x - ValueOf(c)) * 0x8000 <= ValueOf(c)
    ensures Encodes(c, ValueOf(c), negative)
    ensures ValueOf(c) == 0 <==> x == 0
  {
    hide Times, Pow2;
    var s, m, v := Size(c), Mantissa(c), ValueOf(c);
    if x == 0 {
      Pow2Bytes();
      TimesUnit(Pow2(24));
      DivisionIs(0, 0, Pow2(24), 0);
    } else if s <= 3 {
      DivisionIs(m, x, Pow2(8 * (3 - s)), 0);
    } else {
      var p := Pow2(8 * (s - 3));
      TimesSum(m, 1, p);
      TimesUnit(p);
      TimesMonotone(0x8000, m, p);
      ProductOf(0x8000, p);
      TimesStrict(m, m + 1, p);
    }
  }

  /** The compact numbers that the encoder can produce. */
  predicate Canonical(c: Limb) {
    c == 0
    || (Mantissa(c) >= 0x8000 && (Size(c) < 3 ==> Mantissa(c) % Pow2(8 * (3 - Size(c))) == 0))
  }

  /** Exactly these expand and compress back to themselves. */
  lemma CanonicalIff(c: Limb)
    ensures Encodes(c, ValueOf(c), SignBit(c)) <==> Canonical(c)
  {
    hide Times, Pow2;
    var s, m, v := Size(c), Mantissa(c), ValueOf(c);
    if s <= 3 {
      var p := Pow2(8 * (3 - s));
      assert p >= 1;
      Quotient(m, p);
      Pow2Bytes();
      if s == 3 {
        assert p == 1 by { Pow2Zero(); }
      }
      if s == 0 {
        TimesUnit(p);
        DivisionIs(m, 0, p, m);
      }
    } else {
      var p := Pow2(8 * (s - 3));
      TimesStrict(m, m + 1, p);
      if m > 0 {
        TimesMonotone(1, m, p);
        TimesUnit(p);
      }
    }
  }

  lemma Pow2Zero()
    ensures Pow2(0) == 1
  {
  }

  // ---------------------------------------------------------------------------------------
  // The conversions.
  // ---------------------------------------------------------------------------------------

  /** `m * 2^e` reaches `2^n` exactly when `m` reaches `2^(n - e)`. */
  lemma ReachesPower(m: nat, e: nat, n: nat)
    requires e <= n
    ensures Times(m, Pow2(e)) >= Pow2(n) <==> m >= Pow2(n - e)
  {
    hide Times, Pow2;
    Pow2Sum(n - e, e);
    if m >= Pow2(n - e) {
      TimesMonotone(Pow2(n - e), m, Pow2(e));
    } else {
      TimesStrict(m, Pow2(n - e), Pow2(e));
    }
  }

  /** The size thresholds of the overflow flag are those of `2^256`. */
  lemma OverflowExact(m: nat, size: nat)
    requires m < 0x80_0000 && size > 3
    ensures Times(m, Pow2(8 * (size - 3))) >= Pow2(256)
      <==> m != 0 && (size > 34 || (m > 0xFF && size > 33) || (m > 0xFFFF && size > 32))
  {
    hide Times, Pow2;
    Pow2Bytes();
    var e := 8 * (size - 3);
    if size >= 35 {
      Pow2Monotone(256, e);
      TimesUnit(Pow2(e));
      if m > 0 {
        TimesMonotone(1, m, Pow2(e));
      }
    } else {
      ReachesPower(m, e, 256);
      if size <= 32 {
        Pow2Monotone(24, 256 - e);
      }
    }
  }

  /** Rejected compact numbers are exactly those whose value needs more than 256 bits. */
  method SetCompact(x: BaseUint, c: Limb) returns (negative: bool, overflow: bool)
    requires x.pn.Length == 8
    modifies x.pn
    ensures negative <==> SignBit(c) && ValueOf(c) != 0
    ensures overflow <==> ValueOf(c) >= Pow2(256)
    ensures x.Val() == ValueOf(c) % Pow2(256)
  {
    hide Times, Pow2, Value, Shr, Size, Mantissa, SignBit, Over;
    MantissaFits(c);
    var size := Size(c);
    var word: Limb := Mantissa(c);
    BPowIsPow2(8);
    if size <= 3 {
      SmallSize(word, size);
      word := Shr(word, 8 * (3 - size));
      x.Assign64(word);
    } else {
      x.Assign64(word);
      x.ShiftLeft(8 * (size - 3));
      ProductOf(word, Pow2(8 * (size - 3)));
      OverflowExact(word, size);
      PositiveProduct(word, Pow2(8 * (size - 3)));
    }
    negative := word != 0 && SignBit(c);
    overflow := word != 0
                && (size > 34 || (word > 0xFF && size > 33) || (word > 0xFFFF && size > 32));
  }

  lemma MantissaFits(c: Limb)
    ensures Mantissa(c) < 0x80_0000
  {
  }

  lemma PositiveProduct(m: nat, p: nat)
    requires p >= 1
    ensures Times(m, p) == 0 <==> m == 0
  {
    hide Times;
    TimesUnit(p);
    if m != 0 {
      TimesMonotone(1, m, p);
    }
  }

  lemma SmallSize(m: Limb, size: nat)
    requires m < 0x80_0000 && size <= 3
    ensures Shr(m, 8 * (3 - size)) == Scaled(m, size) < 0x80_0000
    ensures Scaled(m, size) < Pow2(256) && Scaled(m, size) % Pow2(256) == Scaled(m, size)
  {
    hide Times, Pow2, Shr;
    var p := Pow2(8 * (3 - size));
    ShrIsQuotient(m, 8 * (3 - size));
    QuotientAtMost(m, p);
    SmallValue(m / p);
  }

  lemma QuotientAtMost(m: nat, p: nat)
    requires p >= 1
    ensures 0 <= m / p <= m
  {
    hide Times;
    Quotient(m, p);
    TimesSwap(m / p, p);
    TimesMonotone(1, p, m / p);
    TimesUnit(m / p);
  }

  lemma SmallValue(w: nat)
    requires w < 0x100_0000
    ensures w < Pow2(256) && w % Pow2(256) == w
  {
    hide Times, Pow2;
    Pow2Bytes();
    Pow2Monotone(24, 256);
    TimesUnit(Pow2(256));
    DivisionIs(w, 0, Pow2(256), w);
  }

  /** The top three bytes of a number of `size` bytes. */
  ghost function TopBytes(x: nat, size: nat): int {
    if size <= 3 then Times(x, Pow2(8 * (3 - size))) else x / Pow2(8 * (size - 3))
  }

  lemma TopBytesRange(x: nat, bits: nat)
    requires bits > 0 && Pow2(bits - 1) <= x < Pow2(bits)
    ensures 0x1_0000 <= TopBytes(x, (bits + 7) / 8) < 0x100_0000
  {
    hide Times, Pow2;
    var size := (bits + 7) / 8;
    Pow2Bytes();
    Pow2Monotone(8 * size - 8, bits - 1);
    Pow2Monotone(bits, 8 * size);
    if size <= 3 {
      ReachesPower(x, 8 * (3 - size), 16);
      ReachesPower(x, 8 * (3 - size), 24);
    } else {
      var p, q := Pow2(8 * (size - 3)), TopBytes(x, size);
      Quotient(x, p);
      Pow2Sum(16, 8 * (size - 3));
      Pow2Sum(24, 8 * (size - 3));
      TimesSum(q, 1, p);
      TimesUnit(p);
      if q < 0x1_0000 {
        TimesMonotone(q + 1, 0x1_0000, p);
      } else if q >= 0x100_0000 {
        TimesMonotone(0x100_0000, q, p);
      }
    }
  }

  /** Moving the mantissa clear of the sign bit normalises it. */
  lemma ClearOfSign(x: nat, size: nat, m: nat)
    requires m == TopBytes(x, size) && 0x1_0000 <= m < 0x100_0000
    ensures if m < 0x80_0000 then Normal(x, size, m) else Normal(x, size + 1, m / 0x100)
  {
    hide Times, Pow2;
    Pow2Bytes();
    Pow2Zero();
    var n := m / 0x100;
    if size < 3 {
      var k := 8 * (2 - size);
      Pow2Sum(k, 8);
      TimesAssoc(x, Pow2(k), 0x100);
      ProductOf(Times(x, Pow2(k)), 0x100);
    } else {
      var p := Pow2(8 * (size - 3));
      TimesUnit(x);
      if size > 3 {
        Quotient(x, p);
      }
      TimesUnit(m);
      TimesUnit(m + 1);
      TimesSum(m, 1, p);
      TimesUnit(p);
      Pow2Sum(8, 8 * (size - 3));
      TimesAssoc(n, 0x100, p);
      TimesAssoc(n + 1, 0x100, p);
      ProductOf(n, 0x100);
      ProductOf(n + 1, 0x100);
      TimesMonotone(0x100 * n, m, p);
      TimesMonotone(m + 1, 0x100 * (n + 1), p);
    }
  }

  /** Joining size, mantissa and sign by disjunction keeps the three apart. */
  lemma Joined(size: nat, m: nat)
    requires size < 256 && m < 0x80_0000
    ensures BitOr(m, size * 0x100_0000) == size * 0x100_0000 + m
    ensures BitOr(size * 0x100_0000 + m, 0x80_0000) == size * 0x100_0000 + 0x80_0000 + m
  {
    hide Times, Pow2, BitOr;
    Pow2Bytes();
    ProductOf(size, 0x100_0000);
    OrIsSum(size, m, 24);
    ProductOf(2 * size, 0x80_0000);
    OrSetsBit(size, m, 23);
  }

  /** Setting a bit that is clear, with arbitrary bits above and below it. */
  lemma {:induction false} OrSetsBit(h: nat, m: nat, n: nat)
    requires m < Pow2(n)
    ensures BitOr(Times(2 * h, Pow2(n)) + m, Pow2(n)) == Times(2 * h, Pow2(n)) + m + Pow2(n)
  {
    hide Times;
    if n == 0 {
      TimesUnit(2 * h);
    } else {
      TimesSumRight(2 * h, Pow2(n - 1), Pow2(n - 1));
      OrSetsBit(h, m / 2, n - 1);
    }
  }

  lemma EncodedBy(size: nat, m: nat, x: nat, negative: bool)
    requires size < 256 && m < 0x80_0000
    requires if x == 0 then size == 0 && m == 0 else Normal(x, size, m)
    ensures Encodes(size * 0x100_0000 + (if negative && m != 0 then 0x80_0000 else 0) + m, x, negative)
  {
    hide Times, Pow2, Size, Mantissa, SignBit;
    PartsOf(size, negative && m != 0, m);
  }

  lemma PartsOf(size: nat, sign: bool, m: nat)
    requires size < 256 && m < 0x80_0000
    ensures var c: Limb := size * 0x100_0000 + (if sign then 0x80_0000 else 0) + m;
            Size(c) == size && Mantissa(c) == m && SignBit(c) == sign
  {
    var c := size * 0x100_0000 + (if sign then 0x80_0000 else 0) + m;
    assert c / 0x80_0000 == 2 * size + (if sign then 1 else 0);
  }

  method GetCompact(x: BaseUint, negative: bool) returns (c: Limb)
    requires x.pn.Length == 8
    ensures Encodes(c, x.Val(), negative)
  {
    hide Times, Pow2, Value, BitOr, TopBytes, Normal, Encodes;
    ghost var v := x.Val();
    var bits := x.BitLength();
    var size := (bits + 7) / 8;
    ZeroBytes();
    if v > 0 {
      TopBytesRange(v, bits);
    }
    var compact := TopWord(x, size);
    if v > 0 {
      ClearOfSign(v, size, compact);
    }
    if compact / 0x80_0000 % 2 == 1 {
      compact := compact / 0x100;
      size := size + 1;
    }
    assert compact < 0x80_0000;
    assert size < 256;
    Joined(size, compact);
    EncodedBy(size, compact, v, negative);
    c := BitOr(compact, size * 0x100_0000);
    if negative && c % 0x80_0000 != 0 {
      c := BitOr(c, 0x80_0000);
    }
  }

  lemma ZeroBytes()
    ensures TopBytes(0, 0) == 0
  {
    TimesUnit(Pow2(24));
  }

  /** The unnormalised mantissa: the low word of the number shifted to three bytes. */
  method TopWord(x: BaseUint, size: nat) returns (m: Limb)
    requires x.pn.Length == 8 && TopBytes(x.Val(), size) < 0x100_0000
    ensures m == TopBytes(x.Val(), size)
  {
    hide Times, Pow2, Value;
    if size <= 3 {
      var low := x.GetLow64();
      LowIsAll(x.Val(), Pow2(8 * (3 - size)));
      m := low * Pow2(8 * (3 - size)) % B;
    } else {
      var bn := new BaseUint.Copy(x);
      bn.ShiftRight(8 * (size - 3));
      var low := bn.GetLow64();
      m := low % B;
    }
  }

  lemma LowIsAll(x: nat, p: nat)
    requires p >= 1 && Times(x, p) < 0x100_0000
    ensures x % 0x1_0000_0000_0000_0000 == x
    ensures x * p % 0x1_0000_0000 == Times(x, p)
  {
    hide Times;
    TimesSwap(x, p);
    TimesMonotone(1, p, x);
    TimesUnit(x);
    ProductOf(x, p);
  }

  // ---------------------------------------------------------------------------------------
  // Work.
  // ---------------------------------------------------------------------------------------

  /** No compact number expands to the largest 256-bit value, so adding one never wraps. */
  lemma NeverAllOnes(c: Limb)
    ensures ValueOf(c) != Pow2(256) - 1
  {
    hide Times, Pow2;
    if Size(c) <= 3 {
      Pow2Bytes();
      Pow2Monotone(24, 256);
      var p := Pow2(8 * (3 - Size(c)));
      Quotient(Mantissa(c), p);
      TimesSwap(ValueOf(c), p);
      TimesMonotone(1, p, ValueOf(c));
      TimesUnit(ValueOf(c));
    } else {
      var n := 8 * (Size(c) - 3);
      Halves(n);
      Halves(256);
      TimesSumRight(Mantissa(c), Pow2(n - 1), Pow2(n - 1));
    }
  }

  lemma Halves(n: nat)
    requires n > 0
    ensures Pow2(n) == Pow2(n - 1) + Pow2(n - 1)
  {
  }

  /** `(m - d) / d + 1 == m / d`: how the code divides a number it cannot represent. */
  lemma OneMore(m: nat, d: nat)
    requires 1 <= d <= m
    ensures (m - d) / d + 1 == m / d
    ensures d >= 2 ==> m / d < m
  {
    hide Times;
    var q := (m - d) / d;
    Quotient(m - d, d);
    TimesSum(q, 1, d);
    TimesUnit(d);
    DivisionIs(m, q + 1, d, (m - d) % d);
    if d >= 2 {
      TimesSwap(q + 1, d);
      TimesMonotone(2, d, q + 1);
      TimesUnit(q + 1);
    }
  }

  /** Whether a compact target is refused: negative, too large, or zero. */
  ghost predicate Refused(c: Limb) {
    ValueOf(c) == 0 || SignBit(c) || ValueOf(c) >= Pow2(256)
  }

  /** The expected number of hashes for a target: `2^256 / (target + 1)`, and nothing for a refused one. */
  ghost function Work(c: Limb): nat {
    if Refused(c) then 0 else Over(Pow2(256), ValueOf(c) + 1)
  }

  method GetBlockProof(nBits: Limb) returns (proof: BaseUint)
    ensures fresh(proof) && fresh(proof.pn) && proof.pn.Length == 8
    ensures proof.Val() == Work(nBits)
  {
    hide Times, Pow2, Value, ValueOf, BPow, SignBit;
    var target := new BaseUint.Zero(8);
    var negative, overflow := SetCompact(target, nBits);
    var zero := target.IsZero();
    SmallRemainder(ValueOf(nBits), Pow2(256));
    if negative || overflow || zero {
      proof := new BaseUint.Zero(8);
      return;
    }
    BPowIsPow2(8);
    NeverAllOnes(nBits);
    OneMore(Pow2(256), ValueOf(nBits) + 1);
    var one := new BaseUint.Zero(8);
    one.Assign64(1);
    proof := target.Complement();
    target.AddAssign(one);
    var ok := proof.DivAssign(target);
    assert ok;
    proof.AddAssign(one);
  }

  lemma SmallRemainder(v: nat, m: nat)
    requires m >= 1
    ensures v < m ==> v % m == v
    ensures v == 0 ==> v % m == 0
  {
    hide Times;
    if v < m {
      TimesUnit(m);
      DivisionIs(v, 0, m, v);
    }
  }

  /** A target counts for no work if and only if it is refused, and a harder one never for less. */
  lemma ProofAntitone(c: Limb, d: Limb)
    ensures Work(c) == 0 <==> Refused(c)
    ensures !Refused(c) && ValueOf(c) <= ValueOf(d) ==> Work(d) <= Work(c)
  {
    hide ValueOf, SignBit, Pow2;
    if !Refused(c) {
      QuotientAntitone(ValueOf(c), Pow2(256) - 1, Pow2(256));
      SelfQuotient(Pow2(256));
      if !Refused(d) && ValueOf(c) <= ValueOf(d) {
        QuotientAntitone(ValueOf(c), ValueOf(d), Pow2(256));
      }
    }
  }

  lemma SelfQuotient(m: nat)
    requires m >= 1
    ensures m / m == 1
  {
    hide Times;
    TimesUnit(m);
    DivisionIs(m, 1, m, 0);
  }

  lemma QuotientAntitone(t: nat, u: nat, m: nat)
    requires t <= u
    ensures m / (u + 1) <= m / (t + 1)
  {
    hide Times;
    var p, q := m / (u + 1), m / (t + 1);
    Quotient(m, u + 1);
    Quotient(m, t + 1);
    if p > q {
      TimesMonotone(q + 1, p, u + 1);
      TimesSwap(q + 1, u + 1);
      TimesMonotone(t + 1, u + 1, q + 1);
      TimesSwap(t + 1, q + 1);
      TimesSum(q, 1, t + 1);
      TimesUnit(t + 1);
    }
  }
}
