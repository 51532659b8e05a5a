/**
 Base58 and Base58Check text encoding (src/base58.cpp): radix conversion on big-endian digit
 buffers that are rewritten in place, with the buffer length estimated beforehand.
 */
module Base58 {
  import opened Bits
  import opened Wrappers

  // ---------------------------------------------------------------------------------------
  // Powers, and why the estimated buffer lengths suffice.
  // ---------------------------------------------------------------------------------------

  function Pow(b: nat, n: nat): nat {
    if n == 0 then 1 else b * Pow(b, n - 1)
  }

  lemma {:induction false} PowSum(b: nat, m: nat, n: nat)
    ensures Pow(b, m + n) == Times(Pow(b, m), Pow(b, n))
  {
    if m > 0 {
      PowSum(b, m - 1, n);
      var p, q := Pow(b, m - 1), Pow(b, n);
      assert Times(Times(b, p), q) == Times(b, Times(p, q)) by {
        TimesAssoc(b, p, q);
      }
    }
  }

  lemma {:induction false} PowMonotone(b: nat, m: nat, n: nat)
    requires b >= 1 && m <= n
    ensures 1 <= Pow(b, m) <= Pow(b, n)
  {
    if m < n {
      PowMonotone(b, m, n - 1);
      assert Times(1, Pow(b, n - 1)) <= Times(b, Pow(b, n - 1)) by {
        TimesMonotone(1, b, Pow(b, n - 1));
      }
    } else if m > 0 {
      PowMonotone(b, m - 1, m - 1);
      TimesMonotone(1, b, Pow(b, m - 1));
    }
  }

  /** `a^m <= b^i` and `a^n <= b^j` give `a^(m+n) <= b^k` for any `k >= i + j`. */
  lemma PowBound(a: nat, b: nat, m: nat, i: nat, n: nat, j: nat, k: nat)
    requires b >= 1 && i + j <= k && Pow(a, m) <= Pow(b, i) && Pow(a, n) <= Pow(b, j)
    ensures Pow(a, m + n) <= Pow(b, k)
  {
    hide Times, Pow;
    PowSum(a, m, n);
    PowSum(b, i, j);
    TimesMonotone(Pow(a, m), Pow(b, i), Pow(a, n));
    TimesSwap(Pow(b, i), Pow(a, n));
    TimesMonotone(Pow(a, n), Pow(b, j), Pow(b, i));
    TimesSwap(Pow(b, j), Pow(b, i));
    PowMonotone(b, i + j, k);
  }

  lemma {:induction false} PowRepeated(a: nat, b: nat, m: nat, i: nat, k: nat)
    requires b >= 1 && Pow(a, m) <= Pow(b, i)
    ensures Pow(a, Times(k, m)) <= Pow(b, Times(k, i))
  {
    hide Pow, Times;
    TimesUnit(m);
    TimesUnit(i);
    if k == 0 {
      PowZero(a);
      PowZero(b);
    } else {
      PowRepeated(a, b, m, i, k - 1);
      TimesSum(k - 1, 1, m);
      TimesSum(k - 1, 1, i);
      PowBound(a, b, Times(k - 1, m), Times(k - 1, i), m, i, Times(k, i));
    }
  }

  lemma PowZero(b: nat)
    ensures Pow(b, 0) == 1 && Pow(b, 1) == b
  {
  }

  lemma {:induction false} PowOfPow(b: nat, m: nat, k: nat)
    ensures Pow(Pow(b, m), k) == Pow(b, Times(k, m))
  {
    hide Times;
    TimesUnit(m);
    if k > 0 {
      PowOfPow(b, m, k - 1);
      TimesSum(k - 1, 1, m);
      PowSum(b, m, Times(k - 1, m));
      ProductOf(Pow(b, m), Pow(b, Times(k - 1, m)));
    }
  }

  lemma {:induction false} PowStrict(x: nat, y: nat, k: nat)
    requires x < y && k >= 1
    ensures Pow(x, k) < Pow(y, k)
  {
    hide Times;
    ProductOf(x, Pow(x, k - 1));
    ProductOf(y, Pow(y, k - 1));
    if k > 1 {
      PowStrict(x, y, k - 1);
      TimesStrict(x, y, Pow(y, k - 1));
      TimesSwap(x, Pow(x, k - 1));
      TimesSwap(x, Pow(y, k - 1));
      TimesMonotone(Pow(x, k - 1), Pow(y, k - 1), x);
    }
  }

  /** If `a^q <= b^p` then `n` digits in base `a` fit in `n * p / q + 1` digits in base `b`. */
  lemma EstimateSuffices(a: nat, b: nat, p: nat, q: nat, n: nat)
    requires b >= 1 && q >= 1 && Pow(a, q) <= Pow(b, p)
    ensures Pow(a, n) <= Pow(b, n * p / q + 1)
  {
    hide Pow, Times;
    var k := n * p / q + 1;
    PowRepeated(a, b, q, p, n);
    PowOfPow(a, n, q);
    TimesSwap(q, n);
    assert Times(n, p) <= Times(q, k) by {
      Quotient(n * p, q);
      ProductOf(n, p);
      TimesSwap(q, k);
      TimesSum(k - 1, 1, q);
      TimesUnit(q);
    }
    PowMonotone(b, Times(n, p), Times(q, k));
    PowOfPow(b, k, q);
    if Pow(a, n) > Pow(b, k) {
      PowStrict(Pow(b, k), Pow(a, n), q);
    }
  }

  /** The encoder's buffer: `256^100 <= 58^138`, because `256^8 <= 58^11`. */
  lemma BytesFit(n: nat)
    ensures Pow(256, n) <= Pow(58, n * 138 / 100 + 1)
  {
    assert Pow(256, 8) <= Pow(58, 11);
    PowRepeated(256, 58, 8, 11, 12);
    assert Pow(256, 4) <= Pow(58, 6);
    PowBound(256, 58, 96, 132, 4, 6, 138);
    EstimateSuffices(256, 58, 138, 100, n);
  }

  lemma ManySymbolsFit()
    ensures Pow(58, 71) <= Pow(256, 52)
  {
    assert Pow(58, 12) == 1449225352009601191936;
    PowSum(58, 12, 12);
    PowSum(58, 24, 12);
    PowSum(58, 36, 12);
    PowSum(58, 48, 12);
    assert Pow(58, 11) == 24986644000165537792;
    PowSum(58, 60, 11);
    assert Pow(256, 13) == 0x100_0000_0000_0000_0000_0000_0000;
    PowSum(256, 13, 13);
    PowSum(256, 26, 26);
  }

  /** The decoder's buffer: `58^1000 <= 256^733`, because `58^71 <= 256^52`. */
  lemma SymbolsFit(n: nat)
    ensures Pow(58, n) <= Pow(256, n * 733 / 1000 + 1)
  {
    ManySymbolsFit();
    PowRepeated(58, 256, 71, 52, 14);
    assert Pow(58, 6) <= Pow(256, 5);
    PowBound(58, 256, 994, 728, 6, 5, 733);
    EstimateSuffices(58, 256, 733, 1000, n);
  }

  // ---------------------------------------------------------------------------------------
  // Big-endian digit strings.
  // ---------------------------------------------------------------------------------------

  ghost predicate DigitsOk(ds: seq<nat>, b: nat) {
    forall i :: 0 <= i < |ds| ==> ds[i] < b
  }

  function Number(ds: seq<nat>, b: nat): nat {
    if ds == [] then 0 else Times(Number(ds[..|ds| - 1], b), b) + ds[|ds| - 1]
  }

  lemma {:induction false} NumberConcat(s: seq<nat>, t: seq<nat>, b: nat)
    ensures Number(s + t, b) == Times(Number(s, b), Pow(b, |t|)) + Number(t, b)
  {
    hide Times;
    if t == [] {
      assert s + t == s;
      TimesUnit(Number(s, b));
    } else {
      var n := |t| - 1;
      NumberConcat(s, t[..n], b);
      assert (s + t)[..|s + t| - 1] == s + t[..n];
      TimesSum(Times(Number(s, b), Pow(b, n)), Number(t[..n], b), b);
      TimesAssoc(Number(s, b), Pow(b, n), b);
      TimesSwap(Pow(b, n), b);
      ProductOf(b, Pow(b, n));
    }
  }

  lemma {:induction false} NumberBound(ds: seq<nat>, b: nat)
    requires DigitsOk(ds, b)
    ensures Number(ds, b) < Pow(b, |ds|)
  {
    hide Times;
    if ds != [] {
      var n := |ds| - 1;
      NumberBound(ds[..n], b);
      TimesMonotone(Number(ds[..n], b) + 1, Pow(b, n), b);
      TimesSum(Number(ds[..n], b), 1, b);
      TimesUnit(b);
      TimesSwap(Pow(b, n), b);
      ProductOf(b, Pow(b, n));
    }
  }

  lemma {:induction false} NumberOfZeros(ds: seq<nat>, b: nat)
    requires forall i :: 0 <= i < |ds| ==> ds[i] == 0
    ensures Number(ds, b) == 0
  {
    if ds != [] {
      NumberOfZeros(ds[..|ds| - 1], b);
    }
  }

  /** The digits of `n` without leading zeros. */
  function DigitsOf(n: nat, b: nat): (ds: seq<nat>)
    requires b >= 2
    ensures DigitsOk(ds, b) && (ds != [] ==> ds[0] != 0)
    decreases n
  {
    if n == 0 then [] else Shrinks(n, b); DigitsOf(n / b, b) + [n % b]
  }

  lemma {:induction false} NumberOfDigits(n: nat, b: nat)
    requires b >= 2
    ensures Number(DigitsOf(n, b), b) == n
    decreases n
  {
    hide Times;
    if n > 0 {
      Shrinks(n, b);
      NumberOfDigits(n / b, b);
      var hi := DigitsOf(n / b, b);
      assert DigitsOf(n, b)[..|hi|] == hi;
    }
  }

  lemma Shrinks(n: nat, b: nat)
    requires b >= 2
    ensures 0 <= n % b < b && 0 <= n / b <= n
    ensures n > 0 ==> n / b < n && (n / b == 0 ==> n % b != 0)
    ensures n == Times(n / b, b) + n % b
  {
    hide Times;
    Quotient(n, b);
    if n > 0 {
      TimesSwap(n / b, b);
      TimesMonotone(2, b, n / b);
      TimesUnit(n / b);
    }
  }

  /** A digit string without leading zeros is the only one for its number. */
  lemma {:induction false} DigitsUnique(ds: seq<nat>, b: nat)
    requires b >= 2 && DigitsOk(ds, b) && (ds != [] ==> ds[0] != 0)
    ensures DigitsOf(Number(ds, b), b) == ds
  {
    hide Times;
    if ds != [] {
      var n := |ds| - 1;
      var hi := ds[..n];
      DigitsUnique(hi, b);
      DivisionIs(Number(ds, b), Number(hi, b), b, ds[n]);
      if n > 0 {
        assert Number(hi, b) != 0;
        TimesMonotone(1, Number(hi, b), b);
        TimesUnit(b);
      } else {
        TimesUnit(b);
      }
      assert ds == hi + [ds[n]];
    }
  }

  /** How many zeros a digit string starts with. */
  function Zeros(ds: seq<nat>): (z: nat)
    ensures z <= |ds| && forall i :: 0 <= i < z ==> ds[i] == 0
    ensures z < |ds| ==> ds[z] != 0
  {
    if ds == [] || ds[0] != 0 then 0 else 1 + Zeros(ds[1..])
  }

  /** `z` zeros followed by `ds`. */
  function Padded(z: nat, ds: seq<nat>): seq<nat> {
    seq(z, _ => 0) + ds
  }

  /**
   Radix conversion that keeps leading zeros one for one. Both directions of the encoding are this
   function, with the radices exchanged.
   */
  function Converted(ds: seq<nat>, a: nat, b: nat): (r: seq<nat>)
    requires b >= 2
    ensures DigitsOk(r, b)
  {
    Padded(Zeros(ds), DigitsOf(Number(ds, a), b))
  }

  lemma {:induction false} PaddedParts(z: nat, ds: seq<nat>, b: nat)
    requires ds != [] ==> ds[0] != 0
    ensures Zeros(Padded(z, ds)) == z && Number(Padded(z, ds), b) == Number(ds, b)
  {
    hide Times, Number;
    if z == 0 {
      assert Padded(0, ds) == ds;
    } else {
      PaddedParts(z - 1, ds, b);
      assert Padded(z, ds)[1..] == Padded(z - 1, ds);
      assert Padded(z, ds) == [0] + Padded(z - 1, ds);
      NumberConcat([0], Padded(z - 1, ds), b);
      NumberOfZeros([0], b);
      TimesUnit(Pow(b, |Padded(z - 1, ds)|));
    }
  }

  /** Converting there and back is the identity. */
  lemma ConvertedInverse(ds: seq<nat>, a: nat, b: nat)
    requires a >= 2 && b >= 2 && DigitsOk(ds, a)
    ensures Converted(Converted(ds, a, b), b, a) == ds
  {
    hide Times, Number, DigitsOf;
    var z := Zeros(ds);
    var rest := ds[z..];
    assert ds == Padded(z, rest);
    PaddedParts(z, rest, a);
    DigitsUnique(rest, a);
    PaddedParts(z, DigitsOf(Number(ds, a), b), b);
    NumberOfDigits(Number(ds, a), b);
  }

  // ---------------------------------------------------------------------------------------
  // The in-place step `buf = buf * mult + digit`.
  // ---------------------------------------------------------------------------------------

  /** Only the last `length` cells of the buffer are in use. */
  ghost predicate Buffer(z: seq<nat>, length: nat, base: nat) {
    length <= |z| && DigitsOk(z, base) && forall i :: 0 <= i < |z| - length ==> z[i] == 0
  }

  lemma NumberCons(d: nat, s: seq<nat>, b: nat)
    ensures Number([d] + s, b) == Times(d, Pow(b, |s|)) + Number(s, b)
  {
    hide Times;
    NumberConcat([d], s, b);
    assert Number([d], b) == Times(Number([], b), b) + d;
    TimesUnit(b);
  }

  lemma CarryFits(carry: nat, d: nat, base: nat, mult: nat)
    requires carry < mult && d < base
    ensures 0 <= mult * d && 0 <= (carry + mult * d) / base < mult
    ensures 0 <= (carry + mult * d) % base < base
    ensures (carry + mult * d) == Times((carry + mult * d) / base, base) + (carry + mult * d) % base
  {
    hide Times;
    ProductOf(mult, d);
    var w := carry + mult * d;
    Quotient(w, base);
    TimesSwap(mult, d);
    TimesMonotone(d + 1, base, mult);
    TimesSum(d, 1, mult);
    TimesUnit(mult);
    TimesSwap(mult, base);
    if w / base >= mult {
      TimesMonotone(mult, w / base, base);
    }
  }

  /** One cell of the step: `lo` and `hi` are the digit kept and the carry out of `c + mult * d`. */
  lemma MulAddCell(z: seq<nat>, o: seq<nat>, d: nat, c: nat, lo: nat, hi: nat, base: nat, mult: nat, digit: nat)
    requires |z| == |o| && c + Times(mult, d) == Times(hi, base) + lo
    requires Times(c, Pow(base, |z|)) + Number(z, base) == Times(Number(o, base), mult) + digit
    ensures Times(hi, Pow(base, |z| + 1)) + Number([lo] + z, base) == Times(Number([d] + o, base), mult) + digit
  {
    hide Times, Number;
    var p := Pow(base, |z|);
    NumberCons(lo, z, base);
    NumberCons(d, o, base);
    TimesSum(Times(d, p), Number(o, base), mult);
    TimesExchange(d, p, mult);
    TimesSwap(d, mult);
    TimesSum(c, Times(mult, d), p);
    TimesSum(Times(hi, base), lo, p);
    TimesAssoc(hi, base, p);
    ProductOf(base, p);
  }

  /** With the unused cells zero and no carry left, the suffix is the whole number. */
  lemma ZeroPrefix(z: seq<nat>, k: nat, b: nat)
    requires k <= |z| && forall i :: 0 <= i < k ==> z[i] == 0
    ensures Number(z, b) == Number(z[k..], b)
  {
    hide Times, Number;
    assert z == z[..k] + z[k..];
    NumberConcat(z[..k], z[k..], b);
    NumberOfZeros(z[..k], b);
    TimesUnit(Pow(b, |z| - k));
  }

  /** A buffer that can hold the result leaves no carry. */
  lemma NoCarryLeft(c: nat, z: nat, p: nat)
    requires Times(c, p) + z < p
    ensures c == 0
  {
    hide Times;
    if c > 0 {
      TimesMonotone(1, c, p);
      TimesUnit(p);
    }
  }

  method MulAdd(buf: array<nat>, length: nat, base: nat, mult: nat, digit: nat) returns (used: nat)
    requires base >= 2 && digit < mult && Buffer(buf[..], length, base)
    requires Times(Number(buf[..], base), mult) + digit < Pow(base, buf.Length)
    modifies buf
    ensures Buffer(buf[..], used, base)
    ensures Number(buf[..], base) == Times(Number(old(buf[..]), base), mult) + digit
  {
    hide Times, Number, Pow;
    ghost var o, n := buf[..], buf.Length;
    var carry: nat, i: nat := digit, 0;
    assert buf[n..] == [] && o[n..] == [];
    EmptyNumber(base);
    TimesUnit(digit);
    TimesUnit(mult);
    while (carry != 0 || i < length) && i < buf.Length
      invariant 0 <= i <= n && carry < mult && DigitsOk(buf[..], base)
      invariant forall j :: 0 <= j < n - i ==> buf[j] == o[j]
      invariant Times(carry, Pow(base, i)) + Number(buf[n - i..], base)
             == Times(Number(o[n - i..], base), mult) + digit
    {
      var k := buf.Length - 1 - i;
      ghost var z, d, c := buf[k + 1..], buf[k], carry;
      CarryFits(carry, buf[k], base, mult);
      ProductOf(mult, buf[k]);
      carry := carry + mult * buf[k];
      buf[k] := carry % base;
      carry := carry / base;
      assert buf[k + 1..] == z;
      assert buf[k..] == [buf[k]] + buf[k + 1..] && o[k..] == [d] + o[k + 1..];
      MulAddCell(z, o[k + 1..], d, c, buf[k], carry, base, mult, digit);
      i := i + 1;
    }
    ZeroPrefix(o, n - i, base);
    ZeroPrefix(buf[..], n - i, base);
    assert buf[..][n - i..] == buf[n - i..];
    if i == buf.Length {
      NoCarryLeft(carry, Number(buf[..], base), Pow(base, n));
    }
    TimesUnit(Pow(base, i));
    assert carry == 0;
    used := i;
  }

  lemma EmptyNumber(b: nat)
    ensures Number([], b) == 0 && Pow(b, 0) == 1
  {
  }

  // ---------------------------------------------------------------------------------------
  // Symbols.
  // ---------------------------------------------------------------------------------------

  /** All alphanumeric characters except "0", "I", "O" and "l". */
  const ALPHABET := "123456789" + "ABCDEFGH" + "JKLMN" + "PQRSTUVWXYZ" + "abcdefghijk" + "mnopqrstuvwxyz"

  /** The ranges that make up the alphabet. */
  function Symbol(d: nat): char
    requires d < 58
  {
    if d < 9 then '1' + d as char
    else if d < 17 then 'A' + (d - 9) as char
    else if d < 22 then 'J' + (d - 17) as char
    else if d < 33 then 'P' + (d - 22) as char
    else if d < 44 then 'a' + (d - 33) as char
    else 'm' + (d - 44) as char
  }

  lemma AlphabetIs()
    ensures |ALPHABET| == 58 && forall d :: 0 <= d < 58 ==> ALPHABET[d] == Symbol(d)
  {
  }

  predicate AsciiAlphanumeric(c: char) {
    '0' <= c <= '9' || 'A' <= c <= 'Z' || 'a' <= c <= 'z'
  }

  /** The alphabet is all letters and digits but four, in the order of their codes; there is only one such string. */
  lemma AlphabetFixed(c: char, i: nat, j: nat)
    ensures |ALPHABET| == 58 && (i < j < 58 ==> ALPHABET[i] < ALPHABET[j])
    ensures c in ALPHABET <==> AsciiAlphanumeric(c) && c !in "0IOl"
  {
    AlphabetIs();
    if AsciiAlphanumeric(c) && c !in "0IOl" {
      var d := DigitOf(c);
      assert ALPHABET[d] == c;
    }
  }

  function DigitOf(c: char): (d: nat)
    requires AsciiAlphanumeric(c) && c !in "0IOl"
    ensures d < 58 && Symbol(d) == c
  {
    if c <= '9' then (c - '1') as nat
    else if c <= 'H' then 9 + (c - 'A') as nat
    else if c <= 'N' then 17 + (c - 'J') as nat
    else if c <= 'Z' then 22 + (c - 'P') as nat
    else if c <= 'k' then 33 + (c - 'a') as nat
    else 44 + (c - 'm') as nat
  }

  /** `strchr` on the alphabet: the first position of `c` from `i` on, or -1. */
  function IndexFrom(c: char, i: nat): (k: int)
    requires i <= |ALPHABET|
    ensures k < 0 ==> c !in ALPHABET[i..]
    ensures k >= 0 ==> i <= k < |ALPHABET| && ALPHABET[k] == c
    decreases |ALPHABET| - i
  {
    if i == |ALPHABET| then -1
    else if ALPHABET[i] == c then i
    else
      assert ALPHABET[i..] == [ALPHABET[i]] + ALPHABET[i + 1..];
      IndexFrom(c, i + 1)
  }

  /** The alphabet has no repetition, so looking a symbol up gives its digit. */
  lemma IndexOfSymbol(d: nat)
    requires d < 58
    ensures |ALPHABET| == 58 && IndexFrom(ALPHABET[d], 0) == d
    ensures ALPHABET[d] == '1' <==> d == 0
    ensures !IsSpace(ALPHABET[d]) && ALPHABET[d] != '\0'
  {
    hide IndexFrom;
    AlphabetIs();
    var k := IndexFrom(ALPHABET[d], 0);
    assert ALPHABET[0..] == ALPHABET;
    assert k >= 0 && Symbol(k) == Symbol(d);
  }

  predicate AllSymbols(p: string) {
    forall i :: 0 <= i < |p| ==> IndexFrom(p[i], 0) >= 0
  }

  function Symbols(ds: seq<nat>): string
    requires DigitsOk(ds, 58)
  {
    AlphabetIs();
    seq(|ds|, i requires 0 <= i < |ds| => ALPHABET[ds[i]])
  }

  function Values(p: string): (ds: seq<nat>)
    requires AllSymbols(p)
    ensures |ds| == |p| && DigitsOk(ds, 58)
  {
    AlphabetIs();
    seq(|p|, i requires 0 <= i < |p| => IndexFrom(p[i], 0))
  }

  lemma ValuesOfSymbols(ds: seq<nat>)
    requires DigitsOk(ds, 58)
    ensures AllSymbols(Symbols(ds)) && Values(Symbols(ds)) == ds
  {
    forall i | 0 <= i < |ds|
      ensures IndexFrom(Symbols(ds)[i], 0) == ds[i]
    {
      IndexOfSymbol(ds[i]);
    }
  }

  lemma SymbolsOfValues(p: string)
    requires AllSymbols(p)
    ensures Symbols(Values(p)) == p
  {
    AlphabetIs();
  }

  // ---------------------------------------------------------------------------------------
  // What the two functions compute.
  // ---------------------------------------------------------------------------------------

  function Encoded(v: seq<nat>): string
    requires DigitsOk(v, 256)
  {
    Symbols(Converted(v, 256, 58))
  }

  /** The encoding is the one word of symbols with the same number and the same leading zeros. */
  lemma EncodedIff(v: seq<nat>, p: string)
    requires DigitsOk(v, 256) && AllSymbols(p)
    ensures p == Encoded(v) <==> Zeros(Values(p)) == Zeros(v) && Number(Values(p), 58) == Number(v, 256)
  {
    hide Times, Number, DigitsOf, Values, Symbols, AllSymbols;
    var c, ds := Converted(v, 256, 58), Values(p);
    ConvertedParts(v, 256, 58);
    ValuesOfSymbols(c);
    SymbolsOfValues(p);
    if Zeros(ds) == Zeros(v) && Number(ds, 58) == Number(v, 256) {
      var rest := ds[Zeros(ds)..];
      assert ds == Padded(Zeros(ds), rest);
      PaddedParts(Zeros(ds), rest, 58);
      DigitsUnique(rest, 58);
    }
  }

  lemma ConvertedParts(ds: seq<nat>, a: nat, b: nat)
    requires b >= 2
    ensures Zeros(Converted(ds, a, b)) == Zeros(ds) && Number(Converted(ds, a, b), b) == Number(ds, a)
  {
    hide Times, Number, DigitsOf;
    PaddedParts(Zeros(ds), DigitsOf(Number(ds, a), b), b);
    NumberOfDigits(Number(ds, a), b);
  }

  /** Pairs that the source's tests list. */
  lemma KnownStrings()
    ensures Encoded([]) == "" && Encoded([0x61]) == "2g" && Encoded([0x62, 0x62, 0x62]) == "a3gV"
    ensures Encoded([0, 0, 0, 0, 0, 0, 0, 0, 0, 0]) == "1111111111"
  {
    hide Encoded;
    AlphabetIs();
    Spelled([], []);
    Spelled([0x61], [1, 39]);
    Spelled([0x62, 0x62, 0x62], [33, 2, 39, 28]);
    assert Number([0x61], 256) == 97 == Number([1, 39], 58);
    assert Symbols([1, 39]) == "2g" && Symbols([33, 2, 39, 28]) == "a3gV";
    ThreeDigits(0x62, 0x62, 0x62, 256);
    FourDigits(33, 2, 39, 28, 58);
    var zeros := [0, 0, 0, 0, 0, 0, 0, 0, 0, 0];
    NumberOfZeros(zeros, 256);
    NumberOfZeros(zeros, 58);
    Spelled(zeros, zeros);
    assert Symbols(zeros) == "1111111111";
  }

  lemma Spelled(v: seq<nat>, ds: seq<nat>)
    requires DigitsOk(v, 256) && DigitsOk(ds, 58)
    ensures Zeros(ds) == Zeros(v) && Number(ds, 58) == Number(v, 256) ==> Encoded(v) == Symbols(ds)
  {
    hide Number, Encoded, Symbols;
    ValuesOfSymbols(ds);
    EncodedIff(v, Symbols(ds));
  }

  lemma ThreeDigits(x: nat, y: nat, z: nat, b: nat)
    ensures Number([x, y, z], b) == (x * b + y) * b + z
  {
    assert [x, y, z][..2] == [x, y] && [x, y][..1] == [x] && [x][..0] == [];
    assert Number([x], b) == x && Number([x, y], b) == x * b + y;
  }

  lemma FourDigits(w: nat, x: nat, y: nat, z: nat, b: nat)
    ensures Number([w, x, y, z], b) == ((w * b + x) * b + y) * b + z
  {
    assert [w, x, y, z][..3] == [w, x, y];
    ThreeDigits(w, x, y, b);
  }

  /** What a C string function sees of `s`. */
  function CString(s: string): (t: string)
    ensures t <= s && '\0' !in t && (t == s || s[|t|] == '\0')
  {
    if s == [] || s[0] == '\0' then [] else [s[0]] + CString(s[1..])
  }

  /** The first position from `p` on that is not a space. */
  function SpacesEnd(s: string, p: nat): (q: nat)
    requires p <= |s|
    ensures p <= q <= |s| && (forall i :: p <= i < q ==> IsSpace(s[i])) && (q < |s| ==> !IsSpace(s[q]))
    decreases |s| - p
  {
    if p < |s| && IsSpace(s[p]) then SpacesEnd(s, p + 1) else p
  }

  /** The first position from `p` on that is a space. */
  function WordEnd(s: string, p: nat): (q: nat)
    requires p <= |s|
    ensures p <= q <= |s| && (forall i :: p <= i < q ==> !IsSpace(s[i])) && (q < |s| ==> IsSpace(s[q]))
    decreases |s| - p
  {
    if p < |s| && !IsSpace(s[p]) then WordEnd(s, p + 1) else p
  }

  /** The single word of symbols that `s` consists of, apart from spaces around it. */
  function Payload(s: string): (r: Option<string>)
    ensures r.Some? ==> AllSymbols(r.value)
  {
    var i := SpacesEnd(s, 0);
    var j := WordEnd(s, i);
    if SpacesEnd(s, j) == |s| && AllSymbols(s[i..j]) then Some(s[i..j]) else None
  }

  function Decoded(str: string): Option<seq<nat>> {
    match Payload(CString(str))
    case None => None
    case Some(p) => Some(Converted(Values(p), 58, 256))
  }

  /** `s` is `p` with spaces before and after it, `i` of them before. */
  ghost predicate Surrounded(s: string, p: string, i: nat) {
    i + |p| <= |s| && s[i..i + |p|] == p
    && forall k :: 0 <= k < |s| && !(i <= k < i + |p|) ==> IsSpace(s[k])
  }

  /** `s` is `p` with spaces around it. */
  ghost predicate Framed(s: string, p: string) {
    exists i: nat :: Surrounded(s, p, i)
  }

  lemma SymbolIsNoSpace(c: char)
    requires IndexFrom(c, 0) >= 0
    ensures !IsSpace(c) && c != '\0'
  {
    AlphabetIs();
    IndexOfSymbol(IndexFrom(c, 0));
  }

  /** Where a word of symbols stands among spaces, the scan finds exactly it. */
  lemma ScanFinds(s: string, p: string, k: nat)
    requires AllSymbols(p) && Surrounded(s, p, k)
    ensures Payload(s) == Some(p)
  {
    hide IndexFrom, IsSpace;
    forall m | k <= m < k + |p|
      ensures !IsSpace(s[m])
    {
      assert s[m] == p[m - k];
      SymbolIsNoSpace(p[m - k]);
    }
    if p == [] {
      SpacesEndIs(s, 0, |s|);
      assert s[|s|..] == p;
    } else {
      assert !IsSpace(s[k]);
      SpacesEndIs(s, 0, k);
      WordEndIs(s, k, k + |p|);
      SpacesEndIs(s, k + |p|, |s|);
    }
  }

  lemma {:induction false} SpacesEndIs(s: string, p: nat, q: nat)
    requires p <= q <= |s| && (forall i :: p <= i < q ==> IsSpace(s[i])) && (q < |s| ==> !IsSpace(s[q]))
    ensures SpacesEnd(s, p) == q
    decreases q - p
  {
    if p < q {
      SpacesEndIs(s, p + 1, q);
    }
  }

  lemma {:induction false} WordEndIs(s: string, p: nat, q: nat)
    requires p <= q <= |s| && (forall i :: p <= i < q ==> !IsSpace(s[i])) && (q < |s| ==> IsSpace(s[q]))
    ensures WordEnd(s, p) == q
    decreases q - p
  {
    if p < q {
      WordEndIs(s, p + 1, q);
    }
  }

  lemma PayloadIff(s: string, p: string)
    ensures Payload(s) == Some(p) <==> AllSymbols(p) && Framed(s, p)
  {
    hide IndexFrom, IsSpace;
    if Payload(s) == Some(p) {
      assert Surrounded(s, p, SpacesEnd(s, 0));
    }
    if AllSymbols(p) && Framed(s, p) {
      var k: nat :| Surrounded(s, p, k);
      ScanFinds(s, p, k);
    }
  }

  /**
   The decoder accepts exactly the encodings, with optional surrounding spaces: it returns `v` if
   and only if the word in the string is the encoding of `v`.
   */
  lemma DecodedIff(str: string, v: seq<nat>)
    requires DigitsOk(v, 256)
    ensures Decoded(str) == Some(v) <==> Framed(CString(str), Encoded(v))
  {
    hide Converted, Payload, Framed;
    var s := CString(str);
    PayloadIff(s, Encoded(v));
    ValuesOfSymbols(Converted(v, 256, 58));
    ConvertedInverse(v, 256, 58);
    if Decoded(str) == Some(v) {
      var p := Payload(s).value;
      ConvertedInverse(Values(p), 58, 256);
      SymbolsOfValues(p);
      assert Payload(s) == Some(Encoded(v));
    }
    if Framed(s, Encoded(v)) {
      assert Payload(s) == Some(Encoded(v));
      assert Values(Encoded(v)) == Converted(v, 256, 58);
    }
  }

  /** Encoding then decoding gives back every byte string. */
  lemma EncodeThenDecode(v: seq<nat>)
    requires DigitsOk(v, 256)
    ensures Decoded(Encoded(v)) == Some(v)
  {
    hide Converted;
    var e := Encoded(v);
    forall i | 0 <= i < |e|
      ensures e[i] != '\0'
    {
      IndexOfSymbol(Converted(v, 256, 58)[i]);
    }
    assert CString(e) == e;
    assert Surrounded(e, e, 0);
    DecodedIff(e, v);
  }

  /** Decoding then encoding gives back every string of symbols. */
  lemma DecodeThenEncode(p: string)
    requires AllSymbols(p)
    ensures Decoded(p).Some? && DigitsOk(Decoded(p).value, 256) && Encoded(Decoded(p).value) == p
  {
    hide Converted;
    forall i | 0 <= i < |p|
      ensures p[i] != '\0'
    {
      SymbolIsNoSpace(p[i]);
    }
    assert CString(p) == p;
    assert Surrounded(p, p, 0);
    PayloadIff(p, p);
    ConvertedInverse(Values(p), 58, 256);
    SymbolsOfValues(p);
  }

  // ---------------------------------------------------------------------------------------
  // The conversion loops.
  // ---------------------------------------------------------------------------------------

  /** What is left of a buffer after its leading zeros are the digits of its number. */
  method SkipZeros(buf: array<nat>, length: nat, base: nat) returns (it: nat)
    requires base >= 2 && Buffer(buf[..], length, base)
    ensures it <= buf.Length && buf[it..] == DigitsOf(Number(buf[..], base), base)
  {
    hide Times, Number, DigitsOf;
    it := buf.Length - length;
    while it < buf.Length && buf[it] == 0
      invariant it <= buf.Length && forall i :: 0 <= i < it ==> buf[i] == 0
    {
      it := it + 1;
    }
    ZeroPrefix(buf[..], it, base);
    assert buf[..][it..] == buf[it..];
    DigitsUnique(buf[it..], base);
  }

  /** The next digit still fits, whatever the digits are, if the buffer is large enough. */
  lemma NextFits(ds: seq<nat>, k: nat, a: nat, b: nat, size: nat)
    requires a >= 2 && k < |ds| && DigitsOk(ds, a) && Pow(a, |ds|) <= Pow(b, size)
    ensures Number(ds[..k + 1], a) == Times(Number(ds[..k], a), a) + ds[k] < Pow(b, size)
  {
    hide Times, Pow;
    assert ds[..k + 1][..k] == ds[..k];
    NumberBound(ds[..k + 1], a);
    PowMonotone(a, k + 1, |ds|);
  }

  lemma ConvertedIs(z: nat, rest: seq<nat>, a: nat, b: nat)
    requires b >= 2 && (rest != [] ==> rest[0] != 0)
    ensures Converted(Padded(z, rest), a, b) == Padded(z, DigitsOf(Number(rest, a), b))
  {
    PaddedParts(z, rest, a);
  }

  lemma SymbolsOfPadded(z: nat, ds: seq<nat>)
    requires DigitsOk(ds, 58)
    ensures DigitsOk(Padded(z, ds), 58)
    ensures Symbols(Padded(z, ds)) == seq(z, _ => '1') + Symbols(ds)
  {
    AlphabetIs();
  }

  /** The symbols of the digits from position `from` on. */
  method Render(buf: array<nat>, from: nat) returns (str: string)
    requires from <= buf.Length && DigitsOk(buf[from..], 58)
    ensures str == Symbols(buf[from..])
  {
    AlphabetIs();
    str := [];
    var it := from;
    while it < buf.Length
      invariant from <= it <= buf.Length && |str| == it - from
      invariant forall i :: 0 <= i < |str| ==> str[i] == ALPHABET[buf[from..][i]]
    {
      assert buf[from..][it - from] == buf[it];
      str := str + [ALPHABET[buf[it]]];
      it := it + 1;
    }
  }

  method EncodeBase58(v: seq<nat>) returns (str: string)
    requires DigitsOk(v, 256)
    ensures str == Encoded(v)
  {
    hide Times, Number, DigitsOf, Pow, Converted, Symbols;
    var zeroes := 0;
    while zeroes < |v| && v[zeroes] == 0
      invariant 0 <= zeroes <= |v| && forall i :: 0 <= i < zeroes ==> v[i] == 0
    {
      zeroes := zeroes + 1;
    }
    ghost var rest := v[zeroes..];
    var size := (|v| - zeroes) * 138 / 100 + 1;
    var b58 := new nat[size](_ => 0);
    NumberOfZeros(b58[..], 58);
    BytesFit(|rest|);
    var length, k := 0, 0;
    EmptyNumber(256);
    while k < |v| - zeroes
      invariant 0 <= k <= |rest| && Buffer(b58[..], length, 58)
      invariant Number(b58[..], 58) == Number(rest[..k], 256)
    {
      NextFits(rest, k, 256, 58, size);
      length := MulAdd(b58, length, 58, 256, v[zeroes + k]);
      k := k + 1;
    }
    assert rest[..k] == rest;
    var it := SkipZeros(b58, length, 58);
    var tail := Render(b58, it);
    str := seq(zeroes, _ => '1') + tail;
    assert v == Padded(zeroes, rest);
    ConvertedIs(zeroes, rest, 256, 58);
    SymbolsOfPadded(zeroes, b58[it..]);
  }

  method SkipSpaces(s: string, from: nat) returns (p: nat)
    requires from <= |s|
    ensures p == SpacesEnd(s, from)
  {
    hide IsSpace;
    p := from;
    while p < |s| && IsSpace(s[p])
      invariant from <= p <= |s| && SpacesEnd(s, p) == SpacesEnd(s, from)
    {
      p := p + 1;
    }
  }

  lemma ValuesAppend(w: string, k: nat)
    requires k < |w| && AllSymbols(w[..k]) && IndexFrom(w[k], 0) >= 0
    ensures AllSymbols(w[..k + 1]) && Values(w[..k + 1]) == Values(w[..k]) + [IndexFrom(w[k], 0)]
  {
    hide IndexFrom;
  }

  /** The next symbol still fits in a buffer sized for at least as many symbols. */
  lemma SymbolFits(ds: seq<nat>, d: nat, n: nat)
    requires DigitsOk(ds, 58) && d < 58 && |ds| < n
    ensures Number(ds + [d], 58) == Times(Number(ds, 58), 58) + d < Pow(256, n * 733 / 1000 + 1)
  {
    hide Times, Pow;
    assert (ds + [d])[..|ds|] == ds;
    NumberBound(ds + [d], 58);
    PowMonotone(58, |ds| + 1, n);
    SymbolsFit(n);
  }

  /** Reads the word at `p` into a fresh buffer, unless it holds a character that is no symbol. */
  method ReadWord(s: string, p: nat) returns (ok: bool, q: nat, b256: array<nat>, length: nat)
    requires p <= |s|
    ensures fresh(b256) && (ok <==> AllSymbols(s[p..WordEnd(s, p)]))
    ensures ok ==> q == WordEnd(s, p) && Buffer(b256[..], length, 256)
    ensures ok ==> Number(b256[..], 256) == Number(Values(s[p..q]), 58)
  {
    hide Times, Number, Pow, IndexFrom, IsSpace, Values, WordEnd;
    WordRange(s, p);
    ghost var word := s[p..WordEnd(s, p)];
    var size := (|s| - p) * 733 / 1000 + 1;
    b256 := new nat[size](_ => 0);
    length, q := 0, p;
    NumberOfZeros(b256[..], 256);
    NoValues(word[..0]);
    while q < |s| && !IsSpace(s[q])
      invariant p <= q <= p + |word| && WordEnd(s, q) == WordEnd(s, p)
      invariant Buffer(b256[..], length, 256) && b256.Length == size && fresh(b256)
      invariant AllSymbols(word[..q - p])
      invariant Number(b256[..], 256) == Number(Values(word[..q - p]), 58)
    {
      var ch := IndexFrom(s[q], 0);
      WordRange(s, q);
      assert word[q - p] == s[q];
      if ch < 0 {
        return false, q, b256, length;
      }
      AlphabetIs();
      ValuesAppend(word, q - p);
      SymbolFits(Values(word[..q - p]), ch, |s| - p);
      length := MulAdd(b256, length, 256, 58, ch);
      q := q + 1;
    }
    WordRange(s, q);
    assert word[..q - p] == word;
    ok := true;
  }

  lemma WordRange(s: string, p: nat)
    requires p <= |s|
    ensures p <= WordEnd(s, p) <= |s|
    ensures if p < |s| && !IsSpace(s[p]) then p < WordEnd(s, p) == WordEnd(s, p + 1) else WordEnd(s, p) == p
  {
  }

  lemma NoValues(w: string)
    requires w == []
    ensures AllSymbols(w) && Number(Values(w), 58) == 0
  {
  }

  method DecodeBase58(str: string) returns (r: Option<seq<nat>>)
    ensures r == Decoded(str)
  {
    hide Times, Number, DigitsOf, Pow, Converted, IndexFrom, IsSpace, Values;
    var s := CString(str);
    var start := SkipSpaces(s, 0);
    var p := start;
    var zeroes := 0;
    while p < |s| && s[p] == '1'
      invariant start <= p <= |s| && zeroes == p - start && WordEnd(s, p) == WordEnd(s, start)
      invariant forall i :: start <= i < p ==> s[i] == '1'
    {
      OneIsSymbol();
      p := p + 1;
      zeroes := zeroes + 1;
    }
    ghost var stop := WordEnd(s, start);
    OnesFirst(s, start, p, stop);
    var ok, q, b256, length := ReadWord(s, p);
    if !ok {
      return None;
    }
    q := SkipSpaces(s, q);
    if q < |s| {
      return None;
    }
    var it := SkipZeros(b256, length, 256);
    r := Some(seq(zeroes, _ => 0) + b256[it..]);
  }

  lemma OneIsSymbol()
    ensures IndexFrom('1', 0) == 0 && !IsSpace('1')
  {
    IndexOfSymbol(0);
  }

  lemma OnlyOneIsZero(c: char)
    ensures IndexFrom(c, 0) == 0 ==> c == '1'
  {
    AlphabetIs();
  }

  /** Ones in front of a word are the zeros in front of its value. */
  lemma OnesFirst(s: string, start: nat, p: nat, stop: nat)
    requires start <= p <= stop <= |s| && forall i :: start <= i < p ==> s[i] == '1'
    requires p < stop ==> s[p] != '1'
    ensures AllSymbols(s[start..stop]) <==> AllSymbols(s[p..stop])
    ensures AllSymbols(s[p..stop]) ==>
      Converted(Values(s[start..stop]), 58, 256)
      == seq(p - start, _ => 0) + DigitsOf(Number(Values(s[p..stop]), 58), 256)
  {
    hide Times, Number, DigitsOf, Pow, Converted, IndexFrom, IsSpace;
    OneIsSymbol();
    var whole, word := s[start..stop], s[p..stop];
    assert forall i :: p - start <= i < |whole| ==> whole[i] == word[i - (p - start)];
    assert forall i :: 0 <= i < |word| ==> word[i] == whole[i + (p - start)];
    assert forall i :: 0 <= i < p - start ==> whole[i] == '1';
    if AllSymbols(word) {
      assert Values(whole) == Padded(p - start, Values(word));
      if word != [] {
        OnlyOneIsZero(word[0]);
      }
      ConvertedIs(p - start, Values(word), 58, 256);
    }
  }

  // ---------------------------------------------------------------------------------------
  // Base58Check, for any hash function of at least four bytes.
  // ---------------------------------------------------------------------------------------

  type HashFunction = h: seq<nat> -> seq<nat>
    | forall v :: |h(v)| == 32 && DigitsOk(h(v), 256)
    witness _ => seq(32, _ => 0)

  function Checksummed(v: seq<nat>, hash: HashFunction): seq<nat> {
    v + hash(v)[..4]
  }

  method EncodeBase58Check(v: seq<nat>, hash: HashFunction) returns (str: string)
    requires DigitsOk(v, 256)
    ensures DigitsOk(Checksummed(v, hash), 256) && str == Encoded(Checksummed(v, hash))
  {
    var vch := v + hash(v)[..4];
    str := EncodeBase58(vch);
  }

  /** `str` is the checked encoding of `v`, apart from surrounding spaces. */
  ghost predicate CheckedAs(str: string, v: seq<nat>, hash: HashFunction) {
    DigitsOk(v, 256) && DigitsOk(Checksummed(v, hash), 256)
    && Framed(CString(str), Encoded(Checksummed(v, hash)))
  }

  lemma CheckedIff(str: string, v: seq<nat>, hash: HashFunction)
    ensures CheckedAs(str, v, hash) <==> Decoded(str) == Some(Checksummed(v, hash))
  {
    hide Framed, Encoded, Decoded;
    var x := Checksummed(v, hash);
    if DigitsOk(x, 256) {
      DecodedIff(str, x);
      assert forall i :: 0 <= i < |v| ==> v[i] == x[i];
    }
    DecodedBytes(str);
  }

  lemma DecodedBytes(str: string)
    ensures Decoded(str).Some? ==> DigitsOk(Decoded(str).value, 256)
  {
  }

  /** The bytes before the last four, if the last four are their checksum. */
  function Unchecked(x: seq<nat>, hash: HashFunction): (r: Option<seq<nat>>) {
    if |x| >= 4 && hash(x[..|x| - 4])[..4] == x[|x| - 4..] then Some(x[..|x| - 4]) else None
  }

  lemma UncheckedIff(x: seq<nat>, v: seq<nat>, hash: HashFunction)
    ensures Unchecked(x, hash) == Some(v) <==> x == Checksummed(v, hash)
  {
    if x == Checksummed(v, hash) {
      assert x[..|x| - 4] == v && x[|x| - 4..] == hash(v)[..4];
    }
  }

  /** Accepts exactly the checked encodings and returns their bytes; clears the result otherwise. */
  method DecodeBase58Check(str: string, hash: HashFunction) returns (ok: bool, v: seq<nat>)
    ensures ok ==> CheckedAs(str, v, hash)
    ensures !ok ==> v == [] && forall w :: !CheckedAs(str, w, hash)
  {
    hide Framed, Encoded, Decoded, CheckedAs, Checksummed;
    var r := DecodeBase58(str);
    forall w
      ensures CheckedAs(str, w, hash) <==> r.Some? && Unchecked(r.value, hash) == Some(w)
    {
      CheckedIff(str, w, hash);
      if r.Some? {
        UncheckedIff(r.value, w, hash);
      }
    }
    if r.None? || |r.value| < 4 {
      return false, [];
    }
    var n := |r.value| - 4;
    if hash(r.value[..n])[..4] != r.value[n..] {
      return false, [];
    }
    return true, r.value[..n];
  }

  /** A string is the checked encoding of at most one byte string, and each has one. */
  lemma CheckRoundTrip(v: seq<nat>, w: seq<nat>, hash: HashFunction)
    requires DigitsOk(v, 256) && DigitsOk(Checksummed(v, hash), 256)
    ensures CheckedAs(Encoded(Checksummed(v, hash)), w, hash) <==> w == v
  {
    hide Framed, Encoded, Decoded, CheckedAs, Checksummed;
    var x := Checksummed(v, hash);
    EncodeThenDecode(x);
    CheckedIff(Encoded(x), w, hash);
    UncheckedIff(x, v, hash);
    UncheckedIff(x, w, hash);
  }
}
