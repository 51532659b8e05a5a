/**
 Amount compression (src/compressor.cpp): trailing decimal zeros are stored as an exponent.
 The mathematical code is a bijection on the naturals; the 64-bit loops compute it modulo `2^64`,
 and the round trip survives exactly when the code fits.
 */
module Amount {
  import opened Bits
  import opened Wrappers

  const W := 0x1_0000_0000_0000_0000

  /** What 64-bit unsigned arithmetic keeps of `x`. */
  function Wrap(x: nat): Word64 {
    x % W
  }

  /** Whole multiples of `2^64` do not matter. */
  lemma WrapSame(x: nat, y: nat, k: nat)
    requires x == y + k * W
    ensures Wrap(x) == Wrap(y)
  {
    Quotient(y, W);
    DivisionIs(x, y / W + k, W, y % W);
  }

  lemma WrapLaws(a: nat, b: nat)
    ensures Wrap(Wrap(a) + b) == Wrap(a + b)
    ensures Wrap(Wrap(a) * 10) == Wrap(a * 10)
    ensures a < W ==> Wrap(a) == a
  {
    Quotient(a, W);
    WrapSame(a + b, Wrap(a) + b, a / W);
    WrapSame(a * 10, Wrap(a) * 10, a / W * 10);
  }

  /** `m * 10^e`. */
  function Scale(m: nat, e: nat): nat {
    if e == 0 then m else 10 * Scale(m, e - 1)
  }

  /** The code of a split amount. */
  function Code(m: nat, e: nat): nat
    requires m > 0
  {
    if e < 9 then 1 + 10 * (9 * (m / 10) + m % 10 - 1) + e else 1 + 10 * (m - 1) + 9
  }

  function Significand(x: nat): nat
    requires x > 0
  {
    var y := (x - 1) / 10;
    if (x - 1) % 10 < 9 then 10 * (y / 9) + y % 9 + 1 else y + 1
  }

  function Compress(n: nat): nat {
    if n == 0 then 0 else var (m, e) := Split(n, 0); Code(m, e)
  }

  /** Strips trailing zeros until nine have been counted. */
  function Split(n: nat, e: nat): (r: (nat, nat))
    requires n > 0 && e <= 9
    ensures r.0 > 0 && e <= r.1 <= 9 && (r.1 < 9 ==> r.0 % 10 != 0)
    ensures n == Scale(r.0, r.1 - e)
    decreases 9 - e
  {
    if n % 10 == 0 && e < 9 then
      var r := Split(n / 10, e + 1);
      assert Scale(r.0, r.1 - e) == 10 * Scale(r.0, r.1 - e - 1);
      r
    else (n, e)
  }

  function Decompress(x: nat): nat {
    if x == 0 then 0 else Scale(Significand(x), (x - 1) % 10)
  }

  lemma CodeInverse(m: nat, e: nat)
    requires m > 0 && e <= 9 && (e < 9 ==> m % 10 != 0)
    ensures Code(m, e) > 0 && Significand(Code(m, e)) == m && (Code(m, e) - 1) % 10 == e
  {
    var y := if e < 9 then 9 * (m / 10) + m % 10 - 1 else m - 1;
    assert Code(m, e) - 1 == 10 * y + e;
    assert (10 * y + e) / 10 == y && (10 * y + e) % 10 == e;
    if e < 9 {
      assert y / 9 == m / 10 && y % 9 == m % 10 - 1;
    }
  }

  /** Decompression undoes compression. */
  lemma CompressThenDecompress(n: nat)
    ensures Decompress(Compress(n)) == n
  {
    if n > 0 {
      var r := Split(n, 0);
      CodeInverse(r.0, r.1);
    }
  }

  lemma {:induction false} SplitScaled(m: nat, e: nat, k: nat)
    requires m > 0 && k <= e <= 9 && (e < 9 ==> m % 10 != 0)
    ensures Scale(m, e - k) > 0 && Split(Scale(m, e - k), k) == (m, e)
    decreases e - k
  {
    hide Split, Scale;
    if k < e {
      SplitScaled(m, e, k + 1);
      ScaleStep(m, e - k);
      SplitTenfold(Scale(m, e - k - 1), k);
    } else {
      SplitDone(m, e);
    }
  }

  lemma ScaleStep(m: nat, e: nat)
    requires e > 0
    ensures Scale(m, e) == 10 * Scale(m, e - 1)
  {
  }

  lemma SplitDone(m: nat, e: nat)
    requires m > 0 && e <= 9 && (e < 9 ==> m % 10 != 0)
    ensures Scale(m, 0) == m && Split(m, e) == (m, e)
  {
  }

  lemma SplitTenfold(n: nat, k: nat)
    requires n > 0 && k < 9
    ensures Split(10 * n, k) == Split(n, k + 1)
  {
    hide Scale;
    Digits(n, 0);
  }

  lemma Digits(q: nat, r: nat)
    requires r < 10
    ensures (10 * q + r) / 10 == q && (10 * q + r) % 10 == r
  {
  }

  /** The code of what a code decodes to. */
  lemma CodeOf(x: nat)
    requires x > 0
    ensures var m, e := Significand(x), (x - 1) % 10;
            m > 0 && e <= 9 && (e < 9 ==> m % 10 != 0) && Code(m, e) == x
  {
    var y, e := (x - 1) / 10, (x - 1) % 10;
    if e < 9 {
      Digits(y / 9, y % 9 + 1);
      assert 9 * (y / 9) + y % 9 == y;
    }
  }

  /** Compression undoes decompression, so every natural number is the code of one amount. */
  lemma DecompressThenCompress(x: nat)
    ensures Compress(Decompress(x)) == x
  {
    hide Split, Scale, Code, Significand;
    if x > 0 {
      CodeOf(x);
      SplitScaled(Significand(x), (x - 1) % 10, 0);
    }
  }

  lemma {:induction false} ScaleBound(m: nat, e: nat)
    requires m > 0
    ensures Scale(m, e) >= m + e && (e >= 1 ==> Scale(m, e) >= 10 * m)
  {
    if e > 0 {
      ScaleBound(m, e - 1);
    }
  }

  method CompressAmount(amount: Word64) returns (x: Word64)
    ensures x == Wrap(Compress(amount))
  {
    hide Wrap, Code;
    if amount == 0 {
      WrapLaws(0, 0);
      return 0;
    }
    var n: Word64, e := amount, 0;
    while n % 10 == 0 && e < 9
      invariant 0 <= e <= 9 && n > 0 && Split(n, e) == Split(amount, 0)
    {
      n := n / 10;
      e := e + 1;
    }
    assert Compress(amount) == Code(n, e);
    x := Pack(n, e);
  }

  /** The expression that packs significand and exponent, every operation in 64 bits. */
  method Pack(m: Word64, e: nat) returns (x: Word64)
    requires m > 0 && e <= 9 && (e < 9 ==> m % 10 != 0)
    ensures x == Wrap(Code(m, e))
  {
    hide Wrap;
    if e < 9 {
      var d := m % 10;
      assert 1 <= d <= 9;
      var n := m / 10;
      WrapLaws(n * 9, d - 1);
      WrapLaws(n * 9 + d - 1, 0);
      WrapLaws((n * 9 + d - 1) * 10, 1 + e);
      x := Wrap(1 + Wrap(Wrap(Wrap(n * 9) + d - 1) * 10) + e);
    } else {
      WrapLaws((m - 1) * 10, 10);
      x := Wrap(1 + Wrap((m - 1) * 10) + 9);
    }
  }

  method DecompressAmount(code: Word64) returns (n: Word64)
    ensures n == Wrap(Decompress(code))
  {
    hide Wrap;
    if code == 0 {
      WrapLaws(0, 0);
      return 0;
    }
    var x: Word64 := code - 1;
    var e := x % 10;
    x := x / 10;
    if e < 9 {
      var d := x % 9 + 1;
      x := x / 9;
      WrapLaws(x * 10, d);
      n := Wrap(Wrap(x * 10) + d);
    } else {
      n := Wrap(x + 1);
    }
    ghost var m, k := Significand(code), e;
    while e > 0
      invariant 0 <= e <= k && n == Wrap(Scale(m, k - e))
    {
      WrapLaws(Scale(m, k - e), 0);
      n := Wrap(n * 10);
      e := e - 1;
    }
  }

  // ---------------------------------------------------------------------------------------
  // When the 64-bit pair loses nothing.
  // ---------------------------------------------------------------------------------------

  /** Only an amount without a trailing zero can have a code that is too large. */
  predicate CodeFits(n: Word64) {
    n % 10 == 0 || 9 * n + n % 10 < W + 9
  }

  lemma CodeFitsIff(n: Word64)
    ensures CodeFits(n) <==> Compress(n) < W
  {
    if n > 0 {
      var (m, e) := Split(n, 0);
      if n % 10 != 0 {
        assert Compress(n) == 9 * n + n % 10 - 9;
      } else {
        ScaleBound(m, e);
        assert Code(m, e) <= 10 * m + 9;
        assert 10 * m <= n;
      }
    }
  }

  lemma Solved(a: nat, i: int, k: int, w: int, r: int, n: int, b: int, v: int)
    requires W * i == 1 + a * k && i * b == a * w + r && a * n + b == W * v
    ensures v - r == a * (i * n - k * v + w)
  {
    assert i * (a * n + b) == i * (W * v);
    assert (W * i) * v == (1 + a * k) * v;
  }

  lemma StepsApart(a: nat, z: int)
    ensures z >= 1 ==> a * z >= a
    ensures z <= -1 ==> a * z + a <= 0
  {
  }

  /** `a * n + b == W * v` has one solution for `v` modulo `a`, here `r`; `i` is the inverse of `W`. */
  lemma Apart(a: nat, i: int, k: int, w: int, r: int, n: int, b: int, v: int, lo: int, hi: int)
    requires W * i == 1 + a * k && i * b == a * w + r
    requires (r < lo && hi < r + a) || (hi < r && r - a < lo)
    ensures !(lo <= v <= hi && a * n + b == W * v)
  {
    if lo <= v <= hi && a * n + b == W * v {
      Solved(a, i, k, w, r, n, b, v);
      StepsApart(a, i * n - k * v + w);
    }
  }

  /** The code of `n` passed `2^64` `j` times; what is left has exponent `e` and significand `s`. */
  predicate Passed(n: nat, j: nat, e: nat, delta: int, s: nat) {
    && j * W <= 9 * n < (j + 1) * W + 9
    && -8 - e <= delta <= 8 - e
    && 9 * s == 9 * n - j * W + delta
  }

  lemma Residue(n: nat, j: nat, e: nat, delta: int, s: nat)
    requires Passed(n, j, e, delta, s)
    ensures (delta - 7 * j) % 9 == 0 && -8 - e <= delta <= 8 - e
  {
    assert delta - 7 * j == 9 * (s - n + j * (W / 9));
  }

  // A wrapped code has one of the exponents 0, 2, 4, 6 and 8, by how often `2^64` was passed. For each,
  // "decompresses to `n` again" is a linear equation modulo `2^64` whose solutions are out of range.

  lemma Exponent0(n: nat, delta: int, s: nat, t: nat)
    requires Passed(n, 5, 0, delta, s)
    ensures s != n + t * W
  {
  }

  lemma Balance2(n: nat, j: nat, delta: int, s: nat, t: nat)
    requires (j == 3 || j == 8) && Passed(n, j, 2, delta, s)
    ensures 100 * s == n + t * W ==> 891 * n + 100 * delta == W * (9 * t + 100 * j)
    ensures 100 * s == n + t * W ==> 99 * j <= 9 * t + 100 * j <= 99 * (j + 1)
  {
    assert 100 * s == n + t * W ==> 891 * n + 100 * delta == W * (9 * t + 100 * j);
  }

  lemma Exponent2(n: nat, j: nat, delta: int, s: nat, t: nat)
    requires (j == 3 || j == 8) && Passed(n, j, 2, delta, s)
    ensures 100 * s != n + t * W
  {
    hide Passed;
    if 100 * s == n + t * W {
      Residue(n, j, 2, delta, s);
      Balance2(n, j, delta, s, t);
      var v := 9 * t + 100 * j;
      if j == 3 && delta == -6 {
        Apart(891, 229, 4741082371357449293, -155, 705, n, -600, v, 297, 396);
      } else if j == 3 && delta == 3 {
        Apart(891, 229, 4741082371357449293, 77, 93, n, 300, v, 297, 396);
      } else if j == 8 && delta == -7 {
        Apart(891, 229, 4741082371357449293, -180, 80, n, -700, v, 792, 891);
      } else if j == 8 && delta == 2 {
        Apart(891, 229, 4741082371357449293, 51, 359, n, 200, v, 792, 891);
      }
    }
  }

  lemma Balance4(n: nat, j: nat, delta: int, s: nat, t: nat)
    requires (j == 1 || j == 6) && Passed(n, j, 4, delta, s)
    ensures 10000 * s == n + t * W ==> 89991 * n + 10000 * delta == W * (9 * t + 10000 * j)
    ensures 10000 * s == n + t * W ==> 9999 * j <= 9 * t + 10000 * j <= 9999 * (j + 1)
  {
    assert 10000 * s == n + t * W ==> 89991 * n + 10000 * delta == W * (9 * t + 10000 * j);
  }

  lemma Exponent4(n: nat, j: nat, delta: int, s: nat, t: nat)
    requires (j == 1 || j == 6) && Passed(n, j, 4, delta, s)
    ensures 10000 * s != n + t * W
  {
    hide Passed;
    if 10000 * s == n + t * W {
      Residue(n, j, 4, delta, s);
      Balance4(n, j, delta, s, t);
      var v := 9 * t + 10000 * j;
      if j == 1 && delta == -11 {
        Apart(89991, 12703, 2603915835676150217, -15528, 50248, n, -110000, v, 9999, 19998);
      } else if j == 1 && delta == -2 {
        Apart(89991, 12703, 2603915835676150217, -2824, 74584, n, -20000, v, 9999, 19998);
      } else if j == 6 && delta == -12 {
        Apart(89991, 12703, 2603915835676150217, -16940, 87540, n, -120000, v, 59994, 69993);
      } else if j == 6 && delta == -3 {
        Apart(89991, 12703, 2603915835676150217, -4235, 21885, n, -30000, v, 59994, 69993);
      }
    }
  }

  lemma Balance6(n: nat, j: nat, delta: int, s: nat, t: nat)
    requires j == 4 && Passed(n, j, 6, delta, s)
    ensures 1000000 * s == n + t * W ==> 8999991 * n + 1000000 * delta == W * (9 * t + 1000000 * j)
    ensures 1000000 * s == n + t * W ==> 999999 * j <= 9 * t + 1000000 * j <= 999999 * (j + 1)
  {
    assert 1000000 * s == n + t * W ==> 8999991 * n + 1000000 * delta == W * (9 * t + 1000000 * j);
  }

  lemma Exponent6(n: nat, j: nat, delta: int, s: nat, t: nat)
    requires j == 4 && Passed(n, j, 6, delta, s)
    ensures 1000000 * s != n + t * W
  {
    hide Passed;
    if 1000000 * s == n + t * W {
      Residue(n, j, 6, delta, s);
      Balance6(n, j, delta, s, t);
      var v := 9 * t + 1000000 * j;
      if j == 4 && delta == -8 {
        Apart(8999991, 2909344, 5963108650928922233, -2586087, 7725217, n, -8000000, v, 3999996, 4999995);
      } else if j == 4 && delta == 1 {
        Apart(8999991, 2909344, 5963108650928922233, 323260, 6909340, n, 1000000, v, 3999996, 4999995);
      }
    }
  }

  lemma Balance8(n: nat, j: nat, delta: int, s: nat, t: nat)
    requires (j == 2 || j == 7) && Passed(n, j, 8, delta, s)
    ensures 100000000 * s == n + t * W ==> 899999991 * n + 100000000 * delta == W * (9 * t + 100000000 * j)
    ensures 100000000 * s == n + t * W ==> 99999999 * j <= 9 * t + 100000000 * j <= 99999999 * (j + 1)
  {
    assert 100000000 * s == n + t * W ==> 899999991 * n + 100000000 * delta == W * (9 * t + 100000000 * j);
  }

  lemma Exponent8(n: nat, j: nat, delta: int, s: nat, t: nat)
    requires (j == 2 || j == 7) && Passed(n, j, 8, delta, s)
    ensures 100000000 * s != n + t * W
  {
    hide Passed;
    if 100000000 * s == n + t * W {
      Residue(n, j, 8, delta, s);
      Balance8(n, j, delta, s, t);
      var v := 9 * t + 100000000 * j;
      if j == 2 && delta == -13 {
        Apart(899999991, 98372866, 2016287890051016505, -142094142, 721152722, n, -1300000000, v, 199999998, 299999997);
      } else if j == 2 && delta == -4 {
        Apart(899999991, 98372866, 2016287890051016505, -43721275, 706508525, n, -400000000, v, 199999998, 299999997);
      } else if j == 7 && delta == -14 {
        Apart(899999991, 98372866, 2016287890051016505, -153024460, 222779860, n, -1400000000, v, 699999993, 799999992);
      } else if j == 7 && delta == -5 {
        Apart(899999991, 98372866, 2016287890051016505, -54651593, 208135663, n, -500000000, v, 699999993, 799999992);
      }
    }
  }

  /** The possible exponents of a wrapped code, as factors. */
  lemma ScaleIs(m: nat)
    ensures Scale(m, 0) == m && Scale(m, 2) == 100 * m && Scale(m, 4) == 10_000 * m
    ensures Scale(m, 6) == 1_000_000 * m && Scale(m, 8) == 100_000_000 * m
  {
    assert Scale(m, 2) == 10 * Scale(m, 1);
    assert Scale(m, 4) == 10 * Scale(m, 3);
    assert Scale(m, 6) == 10 * Scale(m, 5);
    assert Scale(m, 8) == 10 * Scale(m, 7);
  }

  /** A wrapped code does not lead back to the amount it came from. */
  lemma NeverBack(n: Word64, j: nat, delta: int, s: nat, t: nat)
    requires 1 <= j <= 8 && Passed(n, j, 4 * j % 10, delta, s)
    ensures Scale(s, 4 * j % 10) != n + t * W
  {
    hide Passed;
    ScaleIs(s);
    match j {
      case 1 => Exponent4(n, j, delta, s, t);
      case 2 => Exponent8(n, j, delta, s, t);
      case 3 => Exponent2(n, j, delta, s, t);
      case 4 => Exponent6(n, j, delta, s, t);
      case 5 => Exponent0(n, delta, s, t);
      case 6 => Exponent4(n, j, delta, s, t);
      case 7 => Exponent8(n, j, delta, s, t);
      case 8 => Exponent2(n, j, delta, s, t);
    }
  }

  /** What the wrapped code of an amount looks like. */
  lemma WrappedParts(n: Word64, j: nat, x: nat)
    requires !CodeFits(n) && x > 0
    requires 9 * n + n % 10 - 9 == j * W + x && x < W && 1 <= j <= 8
    ensures (x - 1) % 10 == 4 * j % 10
    ensures 9 * Significand(x) == 9 * n - j * W + n % 10 - 1 - (x - 1) % 10 - (x - 1) / 10 % 9
  {
    LastDigit(n, j, x);
    SignificandParts(x);
  }

  lemma LastDigit(n: nat, j: nat, x: nat)
    requires x > 0 && 9 * n + n % 10 - 9 == j * W + x && 1 <= j <= 8
    ensures (x - 1) % 10 == 4 * j % 10 && (x - 1) % 10 < 9
  {
    assert x - 1 == 10 * (9 * (n / 10) + n % 10 - 1 - j * (W / 10 + 1)) + 4 * j;
  }

  lemma SignificandParts(x: nat)
    requires x > 0 && (x - 1) % 10 < 9
    ensures 9 * Significand(x) == x + 8 - (x - 1) % 10 - (x - 1) / 10 % 9
  {
    var y := (x - 1) / 10;
    assert y == 9 * (y / 9) + y % 9;
  }

  lemma OverflowLoses(n: Word64)
    requires !CodeFits(n)
    ensures Wrap(Decompress(Wrap(Compress(n)))) != n
  {
    var code := 9 * n + n % 10 - 9;
    assert Compress(n) == code;
    var j, x := code / W, code % W;
    if x > 0 {
      WrappedParts(n, j, x);
      var full := Decompress(x);
      NeverBack(n, j, n % 10 - 1 - (x - 1) % 10 - (x - 1) / 10 % 9, Significand(x), full / W);
    }
  }

  /** The 64-bit pair returns an amount unchanged exactly when its code fits in 64 bits. */
  lemma RoundTrip64(n: Word64)
    ensures Wrap(Decompress(Wrap(Compress(n)))) == n <==> CodeFits(n)
  {
    hide Wrap, Compress, Decompress;
    if CodeFits(n) {
      CodeFitsIff(n);
      WrapLaws(Compress(n), 0);
      WrapLaws(n, 0);
      CompressThenDecompress(n);
    } else {
      OverflowLoses(n);
    }
  }

  /** The largest amount that consensus admits, in base units. */
  const MAX_MONEY: nat := 21_000_000_000 * 100_000_000

  /** Not every amount in the money range survives: this one's code needs more than 64 bits. */
  lemma MoneyRangeWraps()
    ensures 2_099_999_999_999_999_999 <= MAX_MONEY
    ensures Wrap(Decompress(Wrap(Compress(2_099_999_999_999_999_999)))) != 2_099_999_999_999_999_999
  {
    OverflowLoses(2_099_999_999_999_999_999);
  }

  /** The pairs that the source's tests list. */
  lemma KnownCodes()
    ensures Compress(0) == 0 && Compress(1) == 1 && Compress(1_000_000) == 7 && Compress(100_000_000) == 9
    ensures Compress(50 * 100_000_000) == 0x32 && Compress(21_000_000 * 100_000_000) == 0x1406f40
  {
    hide Compress, Split, Scale;
    CompressZero();
    CompressScaled(1, 0);
    CompressScaled(1, 6);
    CompressScaled(1, 8);
    CompressScaled(5, 9);
    CompressScaled(2_100_000, 9);
    Scaled(1);
    Scaled(5);
    Scaled(2_100_000);
  }

  lemma CompressZero()
    ensures Compress(0) == 0
  {
  }

  lemma CompressScaled(m: nat, e: nat)
    requires m > 0 && e <= 9 && (e < 9 ==> m % 10 != 0)
    ensures Compress(Scale(m, e)) == Code(m, e)
  {
    hide Split, Scale, Code;
    SplitScaled(m, e, 0);
  }

  lemma ThreeZeros(m: nat, e: nat)
    ensures Scale(m, e + 3) == 1000 * Scale(m, e)
  {
    ScaleStep(m, e + 1);
    ScaleStep(m, e + 2);
    ScaleStep(m, e + 3);
  }

  lemma Scaled(m: nat)
    ensures Scale(m, 0) == m && Scale(m, 6) == 1_000_000 * m && Scale(m, 8) == 100_000_000 * m
    ensures Scale(m, 9) == 1_000_000_000 * m
  {
    ThreeZeros(m, 0);
    ThreeZeros(m, 3);
    ThreeZeros(m, 6);
    ScaleStep(m, 9);
  }
}
