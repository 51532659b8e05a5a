/**
 The skip heights of the block index (src/chain.cpp) and how long the walk along them is.  The walk
 is followed on heights alone: it looks at nothing else.
 */
module SkipList {
  import opened Bits

  /** Turns the lowest 1 bit of `n` into a 0. */
  function InvertLowestOne(n: nat): (r: nat)
    ensures r <= n && (n > 0 ==> r < n)
  {
    if n == 0 then 0 else BitAnd(n, n - 1)
  }

  /** The height that the skip pointer of a block at `height` jumps back to. */
  function GetSkipHeight(height: nat): (r: nat)
    ensures height >= 1 ==> r < height
  {
    if height < 2 then 0
    else if height % 2 == 1 then InvertLowestOne(InvertLowestOne(height - 1)) + 1
    else InvertLowestOne(height)
  }

  /** The walk at height `w` towards `t` follows the skip pointer. */
  predicate Jumps(w: nat, t: nat)
    requires w > t
  {
    var skip, skipPrev := GetSkipHeight(w), GetSkipHeight(w - 1);
    skip == t || (skip > t && !(skipPrev < skip - 2 && skipPrev >= t))
  }

  /** The height after one step. */
  function Down(w: nat, t: nat): (r: nat)
    requires w > t
    ensures t <= r < w
  {
    if Jumps(w, t) then GetSkipHeight(w) else w - 1
  }

  /** The number of steps from `w` down to `t`. */
  ghost function Steps(w: nat, t: nat): nat {
    if w <= t then 0 else 1 + Steps(Down(w, t), t)
  }

  lemma NoSteps(w: nat, t: nat)
    requires w <= t
    ensures Steps(w, t) == 0
  {
  }

  lemma StepsDown(w: nat, t: nat)
    requires w > t
    ensures Steps(w, t) == 1 + Steps(Down(w, t), t)
  {
  }

  // ---------------------------------------------------------------------------------------
  // The lowest 1 bit.
  // ---------------------------------------------------------------------------------------

  /** `Pow2(k)` divides `n`. */
  ghost predicate Divides(k: nat, n: nat) {
    k == 0 || (n % 2 == 0 && Divides(k - 1, n / 2))
  }

  /** The number of trailing zeros. */
  ghost function Tz(n: nat): nat
    requires n > 0
  {
    if n % 2 == 1 then 0 else 1 + Tz(n / 2)
  }

  lemma InvertHalf(n: nat)
    ensures n % 2 == 1 ==> InvertLowestOne(n) == n - 1
    ensures n % 2 == 0 ==> InvertLowestOne(n) == 2 * InvertLowestOne(n / 2)
  {
    if n % 2 == 1 {
      SameAnd(n / 2);
    }
  }

  lemma {:induction false} SameAnd(n: nat)
    ensures BitAnd(n, n) == n
  {
    if n > 0 {
      SameAnd(n / 2);
    }
  }

  lemma {:induction false} InvertDivides(k: nat, n: nat)
    requires n > 0 && Divides(k, n)
    ensures Divides(k + 1, InvertLowestOne(n))
  {
    hide InvertLowestOne;
    InvertHalf(n);
    if k > 0 {
      InvertDivides(k - 1, n / 2);
    }
  }

  lemma {:induction false} LowestOne(n: nat)
    requires n > 0
    ensures n == InvertLowestOne(n) + Pow2(Tz(n))
    ensures Divides(Tz(n) + 1, InvertLowestOne(n))
  {
    hide InvertLowestOne, Pow2, Divides;
    var h := n / 2;
    InvertDouble(h);
    if n % 2 == 1 {
      PowerZero();
      DividesDouble(0, h);
    } else {
      LowestOne(h);
      Power(Tz(h));
      DividesDouble(Tz(h) + 1, InvertLowestOne(h));
    }
  }

  lemma DividesDouble(k: nat, n: nat)
    requires k == 0 || Divides(k, n)
    ensures Divides(k + 1, 2 * n)
  {
    assert 2 * n / 2 == n;
  }

  lemma {:induction false} DividesTz(k: nat, n: nat)
    requires n > 0 && Divides(k, n)
    ensures k <= Tz(n)
  {
    if k > 0 {
      DividesTz(k - 1, n / 2);
    }
  }

  lemma {:induction false} TzDivides(k: nat, n: nat)
    requires n > 0 && k <= Tz(n)
    ensures Divides(k, n)
  {
    if k > 0 {
      TzDivides(k - 1, n / 2);
    }
  }

  lemma {:induction false} DividesLess(k: nat, j: nat, n: nat)
    requires j <= k && Divides(k, n)
    ensures Divides(j, n)
  {
    if j > 0 {
      DividesLess(k - 1, j - 1, n / 2);
    }
  }

  lemma DividesEven(k: nat, n: nat)
    requires k >= 1 && Divides(k, n)
    ensures n % 2 == 0
  {
  }

  lemma {:induction false} DividesSize(k: nat, n: nat)
    requires n > 0 && Divides(k, n)
    ensures Pow2(k) <= n
  {
    if k > 0 {
      DividesSize(k - 1, n / 2);
    }
  }

  /** Inside an aligned block, clearing the lowest 1 bit does not leave the block. */
  lemma {:induction false} InBlock(p: nat, m: nat, n: nat)
    requires Divides(m, p) && p < n < p + Pow2(m)
    ensures p <= InvertLowestOne(n) && Tz(n) < m
  {
    hide InvertLowestOne;
    InvertHalf(n);
    if n % 2 == 0 {
      InBlock(p / 2, m - 1, n / 2);
    }
  }

  lemma InvertDouble(n: nat)
    ensures InvertLowestOne(2 * n) == 2 * InvertLowestOne(n)
    ensures InvertLowestOne(2 * n + 1) == 2 * n
  {
    hide InvertLowestOne;
    InvertHalf(2 * n);
    InvertHalf(2 * n + 1);
  }

  lemma SkipOfOdd(n: nat)
    requires n >= 1
    ensures GetSkipHeight(2 * n + 1) == InvertLowestOne(InvertLowestOne(2 * n)) + 1
  {
    hide InvertLowestOne;
  }

  lemma Halve(n: nat) returns (h: nat)
    requires n > 0
    ensures h == n / 2
    ensures Tz(n) == 0 <==> n == 2 * h + 1
    ensures Tz(n) > 0 ==> n == 2 * h && h > 0 && Tz(h) == Tz(n) - 1
  {
    h := n / 2;
  }

  lemma EvenTz(n: nat)
    requires n > 0
    ensures Tz(n) > 0 <==> n % 2 == 0
  {
  }

  lemma OneZero(e: nat)
    requires e >= 4 && Tz(e) == 1
    ensures InvertLowestOne(e) == e - 2
    ensures GetSkipHeight(e - 1) == InvertLowestOne(InvertLowestOne(InvertLowestOne(e))) + 1
  {
    hide InvertLowestOne, GetSkipHeight, Tz;
    var h := Halve(e);
    var x := Halve(h);
    InvertDouble(x);
    InvertDouble(h);
    SkipOfOdd(2 * x);
  }

  lemma TwoZeros(e: nat)
    requires e > 0 && Tz(e) == 2
    ensures InvertLowestOne(e) == e - 4
    ensures GetSkipHeight(e - 1) == InvertLowestOne(InvertLowestOne(e)) + 1
  {
    hide InvertLowestOne, GetSkipHeight, Tz;
    var h := Halve(e);
    var g := Halve(h);
    var x := Halve(g);
    InvertDouble(x);
    InvertDouble(g);
    InvertDouble(h);
    InvertDouble(2 * x);
    InvertDouble(4 * x + 1);
    SkipOfOdd(4 * x + 1);
  }

  lemma ThreeZeros(e: nat)
    requires e > 0 && Tz(e) >= 3
    ensures e >= 8 && InvertLowestOne(e) <= e - 8
    ensures GetSkipHeight(e - 1) == e - 7
  {
    hide InvertLowestOne, GetSkipHeight, Tz;
    var h := Halve(e);
    var g := Halve(h);
    var x := Halve(g);
    InvertLess(x);
    InvertDouble(x);
    InvertDouble(g);
    InvertDouble(h);
    InvertDouble(x - 1);
    InvertDouble(2 * x - 1);
    InvertDouble(4 * x - 1);
    InvertDouble(4 * x - 2);
    SkipOfOdd(4 * x - 1);
  }

  lemma InvertEven(n: nat)
    requires n % 2 == 0
    ensures InvertLowestOne(n) % 2 == 0
  {
    hide InvertLowestOne;
    InvertHalf(n);
  }

  lemma InvertLess(n: nat)
    ensures InvertLowestOne(n) <= n && (n > 0 ==> InvertLowestOne(n) < n)
  {
  }

  // ---------------------------------------------------------------------------------------
  // The walk inside an aligned block of heights.
  // ---------------------------------------------------------------------------------------

  /** The steps that suffice from an odd height inside a block of `Pow2(m)` heights. */
  ghost function Full(m: nat): nat {
    if m <= 1 then 0 else Full(m - 1) + (m + 3) / 2
  }

  /** The same with one step less in the lowest block. */
  ghost function Cap(p: nat, m: nat): nat {
    if p == 0 && m >= 2 then Full(m) - 1 else Full(m)
  }

  lemma {:induction false} FullGrows(k: nat, m: nat)
    requires 1 <= k <= m
    ensures Full(k) + (m - k) <= Full(m)
  {
    if k < m {
      FullGrows(k, m - 1);
    }
  }

  /** The closed form. */
  lemma {:induction false} FullIs(m: nat)
    requires m >= 1
    ensures Full(m) == (m + 3) * (m + 3) / 4 - 4
  {
    if m > 1 {
      FullIs(m - 1);
      SquareStep(m + 2);
    }
  }

  lemma SquareStep(n: nat)
    ensures (n + 1) * (n + 1) / 4 == n * n / 4 + (n + 1) / 2
  {
    var h := n / 2;
    assert n == 2 * h || n == 2 * h + 1;
    EvenSquare(h);
    EvenSquare(h + 1);
    OddSquare(h);
  }

  lemma EvenSquare(h: nat)
    ensures (2 * h) * (2 * h) / 4 == h * h
  {
    assert (2 * h) * (2 * h) == 4 * (h * h);
  }

  lemma OddSquare(h: nat)
    ensures (2 * h + 1) * (2 * h + 1) / 4 == h * h + h && (h + 1) * (h + 1) == h * h + 2 * h + 1
  {
    assert (2 * h + 1) * (2 * h + 1) == 4 * (h * h + h) + 1;
  }

  lemma Smaller(k: nat, m: nat)
    requires Pow2(k) < Pow2(m)
    ensures k < m
  {
    if k >= m {
      Pow2Monotone(m, k);
    }
  }

  /** A block inside a block is smaller, by two levels where it is not the lowest one. */
  lemma Deeper(p: nat, m: nat, q: nat, k: nat, i: nat, c: nat)
    requires k >= 1 && Divides(k + 1, q) && p <= q && q + Pow2(k) < p + Pow2(m)
    requires 1 <= c <= 2 && 2 * i + c <= k && !(p == 0 && m == 2)
    ensures k < m && Cap(q, k) + 1 + c + i <= Cap(p, m)
  {
    hide Divides, Pow2;
    Smaller(k, m);
    FullGrows(k + 1, m);
    if p == 0 && q != 0 {
      DividesSize(k + 1, q);
      Smaller(k + 1, m);
    }
    if p == 0 && q == 0 && k == 1 {
      FullGrows(3, m);
    }
  }

  /** Room for the last few steps. */
  lemma CapRoom(p: nat, m: nat, i: nat)
    requires 2 * i + 1 < m
    ensures i + 1 <= Cap(p, m)
    ensures !(p == 0 && m == 2) ==> i + 2 <= Cap(p, m)
  {
    FullGrows(2, m);
    if m >= 3 {
      FullGrows(3, m);
    }
  }

  /** From an even height whose skip pointer overshoots, the walk goes to the odd height below. */
  lemma WalksDown(e: nat, t: nat)
    requires e % 2 == 0 && t < e && InvertLowestOne(e) < t
    ensures Steps(e, t) == 1 + Steps(e - 1, t)
    ensures e - 1 == InvertLowestOne(e) + Pow2(Tz(e)) - 1 && Divides(Tz(e) + 1, InvertLowestOne(e))
  {
    LowestOne(e);
  }

  /** An odd height jumps whenever that does not overshoot. */
  lemma OddJumps(w: nat, t: nat)
    requires w % 2 == 1 && w >= 3 && t < w && InvertLowestOne(InvertLowestOne(w - 1)) + 1 >= t
    ensures Steps(w, t) == 1 + Steps(InvertLowestOne(InvertLowestOne(w - 1)) + 1, t)
  {
    hide InvertLowestOne, Steps;
    StepsDown(w, t);
    InvertLess(InvertLowestOne(w - 1));
  }

  /** An even height jumps unless its predecessor has a better skip pointer, which three zeros rule out. */
  lemma EvenJumps(e: nat, t: nat)
    requires e % 2 == 0 && InvertLowestOne(e) >= t && t < e
    requires Tz(e) >= 3 || GetSkipHeight(e - 1) < t
    ensures Steps(e, t) == 1 + Steps(InvertLowestOne(e), t)
  {
    hide InvertLowestOne, Tz, Steps;
    StepsDown(e, t);
    if Tz(e) >= 3 {
      ThreeZeros(e);
    }
  }

  /**
   From an even height whose second skip overshoots, the walk is at `t` after one step, or after `c`
   steps at the last height of a smaller block that `t` is in.
   */
  lemma FromEven(p: nat, m: nat, e: nat, t: nat) returns (q: nat, k: nat, c: nat)
    requires Divides(m, p) && p < t < e < p + Pow2(m) && e % 2 == 0
    requires InvertLowestOne(InvertLowestOne(e)) + 1 < t
    ensures Steps(e, t) == 1 ||
            (&& 1 <= c <= 2 && k >= 1 && Tz(e) + c - 1 <= k && Divides(k + 1, q)
             && p <= q < t < q + Pow2(k) <= e
             && Steps(e, t) == c + Steps(q + Pow2(k) - 1, t))
  {
    hide InvertLowestOne, Steps, Divides, Tz;
    var f := InvertLowestOne(e);
    InBlock(p, m, e);
    if f < t {
      WalksDown(e, t);
      LowestOne(e);
      return f, Tz(e), 1;
    }
    SecondJump(e, t);
    if f > t {
      InBlock(p, m, f);
      InvertLess(e);
      WalksDown(f, t);
      LowestOne(e);
      DividesTz(Tz(e) + 1, f);
      LowestOne(f);
      return InvertLowestOne(f), Tz(f), 2;
    }
    NoSteps(t, t);
    return 0, 0, 0;
  }

  lemma SecondJump(e: nat, t: nat)
    requires e % 2 == 0 && InvertLowestOne(InvertLowestOne(e)) + 1 < t <= InvertLowestOne(e) < e
    ensures Steps(e, t) == 1 + Steps(InvertLowestOne(e), t) && InvertLowestOne(e) % 2 == 0
  {
    hide InvertLowestOne, Steps, GetSkipHeight, Tz;
    EvenTz(e);
    if Tz(e) == 1 {
      OneZero(e);
      InvertLess(InvertLowestOne(InvertLowestOne(e)));
    } else if Tz(e) == 2 {
      TwoZeros(e);
    }
    EvenJumps(e, t);
    InvertEven(e);
  }

  lemma {:induction false} OddBound(p: nat, m: nat, w: nat, t: nat, i: nat)
    requires Divides(m, p) && p < t < w < p + Pow2(m)
    requires w % 2 == 1 && Divides(2 * i + 1, w - 1)
    ensures Steps(w, t) + i <= Cap(p, m)
    decreases w
  {
    hide InvertLowestOne, Steps, Divides, Full, Pow2, Cap, Tz;
    var e := w - 1;
    InBlock(p, m, e);
    DividesTz(2 * i + 1, e);
    CapRoom(p, m, i);
    var s := InvertLowestOne(InvertLowestOne(e)) + 1;
    if s >= t {
      OddJumps(w, t);
      if s > t {
        TwiceInverted(2 * i + 1, e);
        OddBound(p, m, s, t, i + 1);
      } else {
        NoSteps(t, t);
      }
    } else {
      OddWalks(w, t);
      if e == t {
        NoSteps(t, t);
      } else {
        LowestPair(p, m, w, t);
        var q, k, c := FromEven(p, m, e, t);
        if Steps(e, t) != 1 {
          Deeper(p, m, q, k, i, c);
          var v := q + Pow2(k) - 1;
          LastOdd(q, k);
          if v == t {
            NoSteps(t, t);
          } else {
            OddBound(q, k, v, t, 0);
          }
        }
      }
    }
  }

  lemma TwiceInverted(k: nat, n: nat)
    requires n > 0 && Divides(k, n) && InvertLowestOne(InvertLowestOne(n)) > 0
    ensures Divides(k + 2, InvertLowestOne(InvertLowestOne(n)))
    ensures InvertLowestOne(InvertLowestOne(n)) % 2 == 0 && InvertLowestOne(InvertLowestOne(n)) < n
  {
    hide InvertLowestOne, Divides, Tz;
    var e := InvertLowestOne(n);
    InvertLess(n);
    InvertLess(0);
    InvertLess(e);
    InvertDivides(k, n);
    InvertDivides(k + 1, e);
    DividesEven(k + 2, InvertLowestOne(e));
  }

  lemma OddWalks(w: nat, t: nat)
    requires w % 2 == 1 && w >= 3 && InvertLowestOne(InvertLowestOne(w - 1)) + 1 < t < w
    ensures Steps(w, t) == 1 + Steps(w - 1, t)
  {
  }

  /** In the block of four heights at the root no skip overshoots. */
  lemma LowestPair(p: nat, m: nat, w: nat, t: nat)
    requires p < t < w - 1 && w < p + Pow2(m) && InvertLowestOne(InvertLowestOne(w - 1)) + 1 < t
    ensures !(p == 0 && m == 2)
  {
    assert Pow2(2) == 4;
  }

  lemma LastOdd(q: nat, k: nat)
    requires k >= 1 && Divides(k + 1, q)
    ensures (q + Pow2(k) - 1) % 2 == 1 && Divides(1, q + Pow2(k) - 2) && Divides(k, q)
  {
    hide Divides, Pow2;
    DividesLess(k + 1, k, q);
    DividesEven(k + 1, q);
    Power(k);
    EvenDivides(q + Pow2(k) - 2);
  }

  // ---------------------------------------------------------------------------------------
  // The walk from any height.
  // ---------------------------------------------------------------------------------------

  lemma {:induction false} DividesZero(k: nat)
    ensures Divides(k, 0)
  {
    if k > 0 {
      DividesZero(k - 1);
    }
  }

  lemma Narrower(m: nat, q: nat, k: nat)
    requires m >= 3 && k >= 1 && Divides(k + 1, q) && q + Pow2(k) < Pow2(m)
    ensures Cap(q, k) <= Cap(0, m - 1)
  {
    Smaller(k, m);
    FullGrows(k, m - 1);
    if q != 0 {
      DividesSize(k + 1, q);
      Smaller(k + 1, m);
    }
  }

  /** From the last height of a block. */
  lemma LastBound(m: nat, q: nat, k: nat, t: nat)
    requires m >= 3 && k >= 1 && Divides(k + 1, q) && q < t < q + Pow2(k) < Pow2(m)
    ensures Steps(q + Pow2(k) - 1, t) <= Cap(0, m - 1)
  {
    hide Steps, Divides, Cap, Pow2, Tz;
    LastOdd(q, k);
    Narrower(m, q, k);
    if t == q + Pow2(k) - 1 {
      NoSteps(t, t);
    } else {
      OddBound(q, k, q + Pow2(k) - 1, t, 0);
    }
  }

  lemma OvershootBound(m: nat, e: nat, t: nat)
    requires m >= 3 && 0 < t < e < Pow2(m) && e % 2 == 0 && InvertLowestOne(InvertLowestOne(e)) + 1 < t
    ensures Steps(e, t) <= Cap(0, m - 1) + 2
  {
    hide InvertLowestOne, Steps, Divides, Cap, Pow2, Tz;
    DividesZero(m);
    var q, k, c := FromEven(0, m, e, t);
    if Steps(e, t) != 1 {
      LastBound(m, q, k, t);
    }
  }

  lemma EvenDivides(n: nat)
    requires n % 2 == 0
    ensures Divides(1, n)
  {
  }

  /** With three zeros at the end the walk clears one bit a step until it overshoots. */
  lemma {:induction false} EightBound(m: nat, w: nat, t: nat, j: nat)
    requires m >= 3 && j >= 3 && Divides(j, w) && 0 < t <= w < Pow2(m)
    ensures j < m && Steps(w, t) <= Cap(0, m - 1) + m - j
    decreases w
  {
    hide InvertLowestOne, Steps, Cap, Pow2, Tz;
    DividesZero(m);
    InBlock(0, m, w);
    DividesTz(j, w);
    if w == t {
      NoSteps(t, t);
    } else if InvertLowestOne(w) < t {
      WalksDown(w, t);
      LastBound(m, InvertLowestOne(w), Tz(w), t);
    } else {
      EvenJumps(w, t);
      InvertDivides(j, w);
      InvertLess(w);
      EightBound(m, InvertLowestOne(w), t, j + 1);
    }
  }

  /** Where the skip pointer of the odd height below does not overshoot, the walk takes it or is one step away. */
  lemma BetterSkip(w: nat, t: nat)
    requires w >= 4 && w % 2 == 0 && Tz(w) <= 2 && 0 < t < w && GetSkipHeight(w - 1) >= t
    ensures InvertLowestOne(w) == t || Steps(w, t) == 2 + Steps(GetSkipHeight(w - 1), t)
    ensures GetSkipHeight(w - 1) % 2 == 1 && Divides(3, GetSkipHeight(w - 1) - 1)
  {
    hide InvertLowestOne, Steps, Divides, GetSkipHeight, Tz;
    OddSkip(w - 1);
    OddJumps(w - 1, t);
    if InvertLowestOne(w) > t {
      SkipFar(w);
    }
    NotBest(w, t);
  }

  lemma NotBest(w: nat, t: nat)
    requires w % 2 == 0 && w >= 4 && 0 < t < w && GetSkipHeight(w - 1) >= t
    requires InvertLowestOne(w) > t ==> GetSkipHeight(w - 1) < InvertLowestOne(w) - 2
    ensures InvertLowestOne(w) == t || Steps(w, t) == 1 + Steps(w - 1, t)
  {
  }

  lemma OddSkip(w: nat)
    requires w % 2 == 1 && w >= 3
    ensures GetSkipHeight(w) == InvertLowestOne(InvertLowestOne(w - 1)) + 1
    ensures GetSkipHeight(w) % 2 == 1 && Divides(3, GetSkipHeight(w) - 1)
  {
    hide InvertLowestOne, Divides, Tz;
    EvenDivides(w - 1);
    InvertDivides(1, w - 1);
    var e := InvertLowestOne(w - 1);
    if e == 0 {
      InvertLess(0);
      DividesZero(3);
    } else {
      InvertDivides(2, e);
    }
    DividesEven(3, InvertLowestOne(e));
  }

  /** Below an even height with at most two zeros at the end, the odd height has the longer skip. */
  lemma SkipFar(w: nat)
    requires w >= 4 && w % 2 == 0 && Tz(w) <= 2 && InvertLowestOne(w) > 0
    ensures GetSkipHeight(w - 1) < InvertLowestOne(w) - 2
  {
    hide InvertLowestOne, GetSkipHeight, Divides, Tz;
    var s := InvertLowestOne(w);
    EvenTz(w);
    LowestOne(w);
    FourLess(Tz(w) + 1, s);
    InvertLess(InvertLowestOne(s));
    if Tz(w) == 1 {
      OneZero(w);
    } else {
      TwoZeros(w);
    }
  }

  lemma FourLess(k: nat, n: nat)
    requires n > 0 && k >= 2 && Divides(k, n)
    ensures InvertLowestOne(n) <= n - 4
  {
    hide InvertLowestOne, Divides, Pow2, Tz;
    LowestOne(n);
    DividesTz(k, n);
    Power(Tz(n));
  }

  /** From any even height. */
  lemma EvenBound(m: nat, w: nat, t: nat)
    requires m >= 6 && w % 2 == 0 && 0 < t < w < Pow2(m)
    ensures Steps(w, t) <= Cap(0, m) + 1 || Steps(w, t) <= Cap(0, m - 1) + m - 3
  {
    hide InvertLowestOne, Steps, Cap, Pow2, Divides, GetSkipHeight, Tz;
    var s := InvertLowestOne(w);
    if Tz(w) >= 3 {
      TzDivides(3, w);
      EightBound(m, w, t, 3);
    } else if InvertLowestOne(s) + 1 < t {
      OvershootBound(m, w, t);
    } else if w == 2 {
      OneStep(w, t);
    } else if GetSkipHeight(w - 1) >= t {
      BetterSkip(w, t);
      if s == t {
        OneStep(w, t);
      } else {
        SkippedBound(m, GetSkipHeight(w - 1), t);
      }
    } else {
      FirstThenOvershoot(m, w, t);
    }
  }

  lemma OneStep(w: nat, t: nat)
    requires t < w && w % 2 == 0 && (InvertLowestOne(w) == t || t == w - 1)
    ensures Steps(w, t) == 1
  {
  }

  lemma SkippedBound(m: nat, w: nat, t: nat)
    requires m >= 2 && 0 < t <= w < Pow2(m) && w % 2 == 1 && Divides(3, w - 1)
    ensures Steps(w, t) + 1 <= Cap(0, m)
  {
    if t < w {
      DividesZero(m);
      OddBound(0, m, w, t, 1);
    } else {
      FullGrows(2, m);
    }
  }

  lemma SecondOvershoots(w: nat, t: nat)
    requires w >= 4 && w % 2 == 0 && Tz(w) <= 2
    requires GetSkipHeight(w - 1) < t <= InvertLowestOne(InvertLowestOne(w)) + 1
    ensures InvertLowestOne(InvertLowestOne(InvertLowestOne(w))) + 1 < t && InvertLowestOne(w) > 0
  {
    hide InvertLowestOne, GetSkipHeight, Tz;
    InvertLess(0);
    EvenTz(w);
    if Tz(w) == 1 {
      OneZero(w);
    } else {
      TwoZeros(w);
    }
  }

  lemma FirstThenOvershoot(m: nat, w: nat, t: nat)
    requires m >= 6 && w >= 4 && w % 2 == 0 && Tz(w) <= 2 && 0 < t < w < Pow2(m)
    requires GetSkipHeight(w - 1) < t <= InvertLowestOne(InvertLowestOne(w)) + 1
    ensures Steps(w, t) <= Cap(0, m - 1) + 3
  {
    hide InvertLowestOne, Steps, Cap, Pow2, Divides, GetSkipHeight, Tz;
    var s := InvertLowestOne(w);
    SecondOvershoots(w, t);
    InvertLess(s);
    InvertLess(w);
    InvertEven(w);
    EvenJumps(w, t);
    if s == t {
      NoSteps(t, t);
    } else {
      OvershootBound(m, s, t);
    }
  }

  // To the root.

  lemma {:induction false} OddToRoot(m: nat, w: nat, j: nat)
    requires w % 2 == 1 && 1 < w < Pow2(m) && Divides(j, w - 1)
    ensures Steps(w, 0) + j <= m + 1 && j < m
    decreases w
  {
    hide InvertLowestOne, Steps, Divides, Pow2, Tz;
    var e := w - 1;
    DividesZero(m);
    InBlock(0, m, e);
    DividesTz(j, e);
    OddJumps(w, 0);
    var s := InvertLowestOne(InvertLowestOne(e)) + 1;
    if s == 1 {
      OneToRoot();
    } else {
      TwiceInverted(j, e);
      OddToRoot(m, s, j + 2);
    }
  }

  lemma OneToRoot()
    ensures Steps(1, 0) == 1 && Steps(0, 0) == 0
  {
  }

  lemma {:induction false} EvenToRoot(m: nat, w: nat, j: nat)
    requires w % 2 == 0 && 0 < w < Pow2(m) && Divides(j, w)
    ensures Steps(w, 0) + j <= m + 2
    decreases w
  {
    hide InvertLowestOne, Divides, Pow2, Steps, Tz;
    DividesZero(m);
    InBlock(0, m, w);
    DividesTz(j, w);
    InvertLess(w);
    StepsDown(w, 0);
    OneToRoot();
    if Jumps(w, 0) {
      var s := InvertLowestOne(w);
      if s > 0 {
        InvertDivides(j, w);
        DividesEven(j + 1, s);
        EvenToRoot(m, s, j + 1);
      }
    } else {
      if Tz(w) >= 3 {
        ThreeZeros(w);
      }
      if w > 2 {
        OddSkip(w - 1);
        OddJumps(w - 1, 0);
        if GetSkipHeight(w - 1) > 1 {
          OddToRoot(m, GetSkipHeight(w - 1), 3);
        }
      }
    }
  }

  /** The walk is at most quadratic in the bit length of the height it starts from. */
  lemma WalkBound(m: nat, w: nat, t: nat)
    requires m >= 10 && w < Pow2(m)
    ensures Steps(w, t) <= (m + 2) * (m + 2) / 4 + m - 8
  {
    hide InvertLowestOne, Pow2, Full, Divides, GetSkipHeight, Tz;
    FullIs(m);
    FullIs(m - 1);
    SquareStep(m + 2);
    DividesZero(m);
    Square(m);
    if t >= w {
    } else if t == 0 {
      if w == 1 {
        OneToRoot();
      } else {
        RootBound(m, w);
      }
    } else if w % 2 == 0 {
      EvenBound(m, w, t);
    } else {
      OddStart(m, w, t);
    }
  }

  lemma Square(m: nat)
    requires m >= 10
    ensures (m + 2) * (m + 2) / 4 >= 36
  {
    assert (m + 2) * (m + 2) >= 12 * (m + 2);
  }

  lemma RootBound(m: nat, w: nat)
    requires 1 < w < Pow2(m)
    ensures Steps(w, 0) <= m + 2
  {
    if w % 2 == 1 {
      OddToRoot(m, w, 0);
    } else {
      EvenToRoot(m, w, 0);
    }
  }

  lemma OddStart(m: nat, w: nat, t: nat)
    requires w % 2 == 1 && 0 < t < w < Pow2(m)
    ensures Steps(w, t) <= Cap(0, m)
  {
    DividesZero(m);
    OddBound(0, m, w, t, 0);
  }

  // ---------------------------------------------------------------------------------------
  // The longest walks.
  // ---------------------------------------------------------------------------------------

  lemma {:induction false} InvertRange(k: nat, j: nat)
    requires j < k
    ensures Pow2(j + 1) <= Pow2(k) && InvertLowestOne(Pow2(k) - Pow2(j)) == Pow2(k) - Pow2(j + 1)
  {
    hide InvertLowestOne, Pow2;
    Pow2Monotone(j + 1, k);
    Power(j);
    Power(k - 1);
    if j == 0 {
      PowerZero();
      InvertDouble(Pow2(k - 1) - 1);
    } else {
      Power(j - 1);
      InvertRange(k - 1, j - 1);
      InvertDouble(Pow2(k - 1) - Pow2(j - 1));
    }
  }

  lemma Power(k: nat)
    ensures Pow2(k) >= 1 && Pow2(k + 1) == 2 * Pow2(k)
    ensures k >= 1 ==> Pow2(k) >= 2 && Pow2(k) % 2 == 0
    ensures k >= 2 ==> Pow2(k) >= 4
  {
  }

  lemma CapStep(k: nat)
    requires k >= 3
    ensures Cap(0, k) == Cap(0, k - 1) + (k + 3) / 2
  {
  }

  /** From a height with all bits from `j` up set, and the lowest one. */
  lemma {:induction false} OnesWalk(k: nat, i: nat)
    requires 2 * i + 1 < k
    ensures Pow2(2 * i + 1) < Pow2(k) && Steps(Pow2(k) - Pow2(2 * i + 1) + 1, 2) + i == Cap(0, k)
    decreases k, k - i
  {
    hide InvertLowestOne, Steps, Pow2, Cap, Divides, Tz;
    var j := 2 * i + 1;
    Power(j);
    Power(k);
    InvertRange(k, j);
    if j + 1 == k {
      LastBit(k);
      if k > 2 {
        OnesWalk(k - 1, 0);
        CapStep(k);
      }
    } else if j + 2 == k {
      LastTwoBits(k);
      OnesWalk(k - 1, 0);
      CapStep(k);
    } else {
      InvertRange(k, j + 1);
      Power(j + 1);
      OnesWalk(k, i + 1);
      OddJumps(Pow2(k) - Pow2(j) + 1, 2);
    }
  }

  lemma LastBit(k: nat)
    requires k >= 2
    ensures Pow2(k) - Pow2(k - 1) == Pow2(k - 1)
    ensures k == 2 ==> Steps(Pow2(1) + 1, 2) == Cap(0, 2)
    ensures k > 2 ==> Pow2(k - 1) > Pow2(1)
                      && Steps(Pow2(k - 1) + 1, 2) == 2 + Steps(Pow2(k - 1) - Pow2(1) + 1, 2)
  {
    hide InvertLowestOne, Steps, Pow2, Divides, Tz;
    var e := Pow2(k - 1);
    PowerOne();
    Power(k - 1);
    InvertRange(k, k - 1);
    InvertLess(0);
    OddWalks(e + 1, 2);
    if k == 2 {
      NoSteps(2, 2);
    } else {
      WalksDown(e, 2);
    }
  }

  lemma PowerZero()
    ensures Pow2(0) == 1
  {
  }

  lemma PowerOne()
    ensures Pow2(1) == 2
  {
  }

  lemma LastTwoBits(k: nat)
    requires k >= 3
    ensures Pow2(k) > Pow2(k - 2) && Pow2(k - 1) > Pow2(1)
    ensures Steps(Pow2(k) - Pow2(k - 2) + 1, 2) == 3 + Steps(Pow2(k - 1) - Pow2(1) + 1, 2)
  {
    hide InvertLowestOne, Steps, Pow2, Tz;
    PowerOne();
    Power(k - 2);
    Power(k - 1);
    InvertRange(k, k - 2);
    InvertRange(k, k - 1);
    TwoBits(Pow2(k - 2));
  }

  lemma TwoBits(x: nat)
    requires x >= 2 && x % 2 == 0 && InvertLowestOne(3 * x) == 2 * x && InvertLowestOne(2 * x) == 0
    ensures Steps(3 * x + 1, 2) == 3 + Steps(2 * x - 1, 2)
  {
    hide InvertLowestOne, Steps, Divides, Pow2, Tz;
    OddWalks(3 * x + 1, 2);
    SecondJump(3 * x, 2);
    WalksDown(2 * x, 2);
  }

  lemma {:induction false} TzRange(k: nat, j: nat)
    requires j < k
    ensures Pow2(j) < Pow2(k) && Tz(Pow2(k) - Pow2(j)) == j
  {
    hide Pow2, Tz;
    Power(k - 1);
    if j == 0 {
      PowerZero();
      TzDouble(Pow2(k - 1) - 1);
    } else {
      Power(j - 1);
      TzRange(k - 1, j - 1);
      TzDouble(Pow2(k - 1) - Pow2(j - 1));
    }
  }

  lemma TzDouble(n: nat)
    ensures Tz(2 * n + 1) == 0
    ensures n > 0 ==> Tz(2 * n) == 1 + Tz(n)
  {
  }

  lemma {:induction false} EightWalk(m: nat, j: nat)
    requires 3 <= j < m
    ensures Pow2(j) < Pow2(m) && Steps(Pow2(m) - Pow2(j), 2) == Cap(0, m - 1) + m - j
    decreases m - j
  {
    hide InvertLowestOne, Steps, Cap, Pow2, Divides, Tz;
    var w := Pow2(m) - Pow2(j);
    Power(j);
    TzRange(m, j);
    InvertRange(m, j);
    if j + 1 == m {
      PowerOne();
      WalksDown(w, 2);
      OnesWalk(m - 1, 0);
    } else {
      EightWalk(m, j + 1);
      Power(j + 1);
      EvenTz(w);
      EvenJumps(w, 2);
    }
  }

  /** The bound is met at every bit length. */
  lemma BoundIsMet(m: nat)
    requires m >= 10
    ensures Pow2(m) > 8 && Steps(Pow2(m) - 8, 2) == (m + 2) * (m + 2) / 4 + m - 8
  {
    hide Steps, Pow2, Full, Tz;
    PowerOne();
    Power(1);
    Power(2);
    EightWalk(m, 3);
    FullIs(m - 1);
  }

  /** What the source reports of simulations: below 2^18 the walk takes 110 steps at most, and 110 once. */
  lemma Within110(w: nat, t: nat)
    requires w < 0x4_0000
    ensures Steps(w, t) <= 110 && Steps(0x3_FFF8, 2) == 110
  {
    hide Steps, Tz;
    assert Pow2(9) == 512;
    Pow2Add(9, 9);
    WalkBound(18, w, t);
    BoundIsMet(18);
  }
}
