/**
 The z-score gate (zgate.c): a bitwise integer square root, and on it a score of each sample
 against the last twelve.
 */
module ZGate {
  import opened Bytes
  import opened Errno
  import opened Arith

  const WINDOW: nat := 12

  // -------------------------------------------------------------------- square root

  predicate IsRoot(r: nat, v: nat) { r * r <= v < (r + 1) * (r + 1) }

  lemma RootUnique(a: nat, b: nat, v: nat)
    requires IsRoot(a, v) && IsRoot(b, v)
    ensures a == b
  {
    if a < b { SquareMono(a + 1, b); }
    if b < a { SquareMono(b + 1, a); }
  }

  lemma SquareMono(a: nat, b: nat)
    requires a <= b
    ensures a * a <= b * b
  {
    MulMono(b, a, a);
    MulMono(b, a, b);
  }

  function Root(v: nat): (r: nat)
    ensures IsRoot(r, v)
  {
    if v == 0 then 0
    else
      var r := Root(v - 1);
      if (r + 1) * (r + 1) <= v then NextSquare(r); r + 1 else r
  }

  lemma NextSquare(r: nat)
    ensures (r + 2) * (r + 2) > (r + 1) * (r + 1) + 1
  {
  }

  /** The trial bit of isqrt64 when the root is known up to 2^k. */
  function TrialBit(k: nat): nat { if k <= 1 then k else 4 * TrialBit(k - 1) }

  lemma {:induction false} TrialBitIsSquare(k: nat)
    requires k > 0
    ensures TrialBit(k) == Pow2(k - 1) * Pow2(k - 1) > 0
  {
    hide Pow2;
    if k > 1 {
      TrialBitIsSquare(k - 1);
      PowHalf(k - 1);
      DoubleSquare(Pow2(k - 2));
    } else {
      PowZero();
    }
  }

  lemma DoubleSquare(p: nat)
    ensures (2 * p) * (2 * p) == 4 * (p * p)
  {
  }

  lemma PowZero()
    ensures Pow2(0) == 1
  {
  }

  lemma TrialBitQuarter(k: nat)
    requires k > 0
    ensures TrialBit(k) > 0 && TrialBit(k) / 4 == TrialBit(k - 1)
  {
    hide Pow2;
    TrialBitIsSquare(k);
  }

  /** The root is known up to 2^k: it is s plus something below that; r and v are the code's variables. */
  predicate Partial(n: nat, s: nat, k: nat, v: int, r: int) {
    && s + Pow2(k) <= 0x1_0000_0000 && r == s * Pow2(k) && v == n - s * s
    && s * s <= n < (s + Pow2(k)) * (s + Pow2(k))
  }

  /** One bit of the root. */
  lemma BitDecided(n: nat, s: nat, k: nat, v: int, r: int, bit: nat)
    requires k > 0 && Partial(n, s, k, v, r) && bit == TrialBit(k)
    ensures r + bit < 0x1_0000_0000_0000_0000
    ensures v >= r + bit ==> Partial(n, s + Pow2(k - 1), k - 1, v - (r + bit), r / 2 + bit)
    ensures v < r + bit ==> Partial(n, s, k - 1, v, r / 2)
  {
    hide Pow2, TrialBit;
    TrialBitIsSquare(k);
    PowHalf(k);
    Squares(s, Pow2(k - 1));
    SquareMono(s + Pow2(k - 1), 0xFFFF_FFFF);
  }

  lemma PowHalf(k: nat)
    requires k > 0
    ensures Pow2(k) == 2 * Pow2(k - 1) && Pow2(k - 1) >= 1
  {
  }

  lemma Squares(s: nat, p: nat)
    ensures (s + p) * (s + p) == s * s + 2 * (s * p) + p * p
    ensures s * (2 * p) == 2 * (s * p) && (s + p) * p == s * p + p * p
  {
  }

  /** isqrt64: nothing in it leaves 64 bits, and the result is the exact integer root. */
  method ISqrt64(n: u64) returns (root: u32)
    ensures IsRoot(root, n)
    ensures root == Root(n)
  {
    hide Pow2, TrialBit, Partial, Root;
    var v: u64, r: u64, bit: u64 := n, 0, 0x4000_0000_0000_0000;
    ghost var k := 32;
    AtTheTop(n);
    while bit > v
      invariant 0 <= k <= 32 && bit == TrialBit(k) && Partial(n, 0, k, n, 0)
    {
      if k > 0 { Halve(n, k); TrialBitQuarter(k); } else { assert false by { NoBit(); } }
      bit := bit / 4;
      k := k - 1;
    }
    ghost var s: nat := 0;
    while bit != 0
      invariant 0 <= k <= 32 && bit == TrialBit(k) && Partial(n, s, k, v, r)
      decreases k
    {
      assert k > 0 by { NoBit(); }
      BitDecided(n, s, k, v, r, bit);
      TrialBitQuarter(k);
      assert r + bit < 0x1_0000_0000_0000_0000;
      if v >= r + bit {
        v := v - (r + bit);
        r := r / 2 + bit;
        s := s + Pow2(k - 1);
      } else {
        r := r / 2;
      }
      bit := bit / 4;
      k := k - 1;
    }
    assert k == 0 by { if k > 0 { TrialBitQuarter(k); } }
    Finished(n, s, v, r);
    return r;
  }

  lemma NoBit()
    ensures TrialBit(0) == 0
  {
  }

  lemma AtTheTop(n: u64)
    ensures TrialBit(32) == 0x4000_0000_0000_0000 && Partial(n, 0, 32, n, 0)
  {
    hide Pow2, TrialBit;
    TopPowers();
    TrialBitIsSquare(32);
    TopSquares(Pow2(31), Pow2(32));
  }

  lemma TopPowers()
    ensures Pow2(31) == 0x8000_0000 && Pow2(32) == 0x1_0000_0000
  {
    hide Pow2;
    PowZero();
    PowBy8(0); PowBy8(8); PowBy8(16); PowBy8(24);
    PowHalf(32);
  }

  lemma TopSquares(p: nat, q: nat)
    requires p == 0x8000_0000 && q == 0x1_0000_0000
    ensures p * p == 0x4000_0000_0000_0000
    ensures (0 + q) * (0 + q) == 0x1_0000_0000_0000_0000 && 0 * q == 0
  {
  }

  lemma PowBy8(k: nat)
    ensures Pow2(k + 8) == 256 * Pow2(k)
  {
    hide Pow2;
    PowHalf(k + 1); PowHalf(k + 2); PowHalf(k + 3); PowHalf(k + 4);
    PowHalf(k + 5); PowHalf(k + 6); PowHalf(k + 7); PowHalf(k + 8);
  }

  /** While the trial bit exceeds the number, the root is below half the bound. */
  lemma Halve(n: nat, k: nat)
    requires k > 0 && Partial(n, 0, k, n, 0) && TrialBit(k) > n
    ensures Partial(n, 0, k - 1, n, 0)
  {
    hide Pow2, TrialBit;
    TrialBitIsSquare(k);
    PowHalf(k);
  }

  lemma Finished(n: nat, s: nat, v: int, r: int)
    requires Partial(n, s, 0, v, r)
    ensures r == s == Root(n) && IsRoot(s, n) && r <= 0xFFFF_FFFF
  {
    RootUnique(s, Root(n), n);
  }

  // ------------------------------------------------------------------------- the score

  function Total(w: seq<int>, f: int -> int): int
    decreases |w|
  {
    if w == [] then 0 else Total(w[..|w| - 1], f) + f(w[|w| - 1])
  }

  function Itself(): int -> int { x => x }

  function Squared(m: int): int -> int { x => (x - m) * (x - m) }

  function Mean(w: seq<i32>): int { TruncDiv(Total(w, Itself()), WINDOW) }

  function SquareSum(w: seq<i32>): int { Total(w, Squared(Mean(w))) }

  function Floor(w: seq<i32>, permille: u16): nat {
    var f := Abs(Mean(w)) * permille / 1000;
    if f < 1 then 1 else f
  }

  /** What the deviation is measured in: the standard deviation, or the floor if that is more. */
  function Spread(w: seq<i32>, permille: u16): (r: int)
    ensures r >= 1
  {
    var std := if SquareSum(w) < 0 then 0 else Root(SquareSum(w) / WINDOW);
    if std < Floor(w, permille) then Floor(w, permille) else std
  }

  function Clamp(z: int): i32 { if z > 0x7FFF_FFFF then 0x7FFF_FFFF else if z < -0x8000_0000 then -0x8000_0000 else z }

  function ZScore(w: seq<i32>, x: i32, permille: u16): i32 {
    Clamp(TruncDiv((x - Mean(w)) * 100, Spread(w, permille)))
  }

  /** The answer and the score for a sample against the window of those before it. */
  function Outcome(w: seq<i32>, x: i32, thr: u16, permille: u16): (int, i32) {
    if |w| < WINDOW then (-EAGAIN, 0)
    else (if Abs(ZScore(w, x, permille)) >= thr then 1 else 0, ZScore(w, x, permille))
  }

  function Last(s: seq<i32>): (r: seq<i32>)
    ensures |r| <= WINDOW
  {
    if |s| <= WINDOW then s else s[|s| - WINDOW..]
  }

  /** No square sum of a full window leaves the signed 64-bit range. */
  predicate Fits(w: seq<i32>) { SquareSum(w) < 0x8000_0000_0000_0000 }

  class Gate {
    const win: array<i32>
    var n: nat
    var head: nat

    ghost predicate Valid()
      reads this, win
    {
      win.Length == WINDOW && n <= WINDOW && head < WINDOW && (n < WINDOW ==> head == n)
    }

    /** The samples kept, oldest first. */
    ghost function Contents(): seq<i32>
      reads this, win
      requires Valid()
    {
      if n < WINDOW then win[..n] else win[head..] + win[..head]
    }

    constructor ()
      ensures Valid() && Contents() == [] && fresh(win)
    {
      win := new i32[12](_ => 0);
      n, head := 0, 0;
    }

    /** push. */
    method Push(x: i32)
      requires Valid()
      modifies this, win
      ensures Valid() && Contents() == Last(old(Contents()) + [x])
    {
      hide Last;
      ghost var was, h := win[..], head;
      LastAppend(Contents(), x);
      win[head] := x;
      head := (head + 1) % WINDOW;
      if n < WINDOW {
        n := n + 1;
        assert win[..] == was[h := x];
        if n < WINDOW { assert win[..n] == was[..h] + [x]; } else { assert win[..] == was[..h] + [x]; }
      } else {
        assert win[..] == was[h := x];
        Turned(was, h, x);
      }
    }

    /** The first loop of zgate_update. */
    method SumOfWindow() returns (sum: i64)
      requires Valid() && n == WINDOW
      ensures sum == Total(Contents(), Itself())
    {
      sum := 0;
      var i := 0;
      while i < WINDOW
        invariant 0 <= i <= WINDOW && sum == Total(win[..i], Itself())
        invariant -0x8000_0000 * i <= sum <= 0x8000_0000 * i
      {
        assert win[..i + 1][..i] == win[..i];
        sum := sum + win[i];
        i := i + 1;
      }
      assert win[..i] == win[..];
      SameSamples();
      TotalSame(win[..], Contents(), Itself());
    }

    /** The second loop of zgate_update. */
    method SquaresOfWindow(mean: i64) returns (sum: i64)
      requires Valid() && n == WINDOW && mean == Mean(Contents()) && Fits(Contents())
      ensures sum == SquareSum(Contents()) >= 0
    {
      hide Squared, Total, Mean;
      SameSamples();
      TotalSame(win[..], Contents(), Squared(mean));
      NoTotal(Squared(mean));
      assert win[..0] == [];
      sum := 0;
      var i := 0;
      while i < WINDOW
        invariant 0 <= i <= WINDOW && sum == Total(win[..i], Squared(mean)) >= 0
      {
        TotalPrefix(win[..], i, Squared(mean));
        SquaresGrow(win[..], i + 1, mean);
        SquareIs(win[i], mean);
        sum := sum + (win[i] - mean) * (win[i] - mean);
        i := i + 1;
      }
      assert win[..i] == win[..];
    }

    lemma SameSamples()
      requires Valid() && n == WINDOW
      ensures multiset(win[..]) == multiset(Contents())
    {
      assert win[..] == win[..head] + win[head..];
    }

    /** zgate_update; its arithmetic is that of 64-bit integers as long as the squares fit. */
    method Update(x: i32, thr: u16, permille: u16) returns (rc: int, z: i32)
      requires Valid() && (n == WINDOW ==> Fits(Contents()))
      modifies this, win
      ensures Valid() && Contents() == Last(old(Contents()) + [x])
      ensures (rc, z) == Outcome(old(Contents()), x, thr, permille)
    {
      hide Root, Last, Total, TruncDiv;
      if n != WINDOW {
        Push(x);
        return -EAGAIN, 0;
      }
      ghost var w := Contents();
      var sum := SumOfWindow();
      MeanBounds(w);
      var mean: i64 := TruncDiv(sum, WINDOW);
      var squares := SquaresOfWindow(mean);
      var std := ISqrt64(squares / WINDOW);
      var floorV: i64 := ProductBound(Abs(mean), permille);
      floorV := floorV / 1000;
      if floorV < 1 { floorV := 1; }
      var spread: i64 := if std < floorV then floorV else std;
      var dev: i64 := x - mean;
      var scaled: i64 := dev * 100;
      QuotientBound(scaled, spread);
      var q: i64 := TruncDiv(scaled, spread);
      z := Clamp(q);
      rc := if Abs(z) >= thr then 1 else 0;
      Push(x);
    }
  }

  lemma NoTotal(f: int -> int)
    ensures Total([], f) == 0
  {
  }

  lemma TotalPrefix(w: seq<int>, i: nat, f: int -> int)
    requires i < |w|
    ensures Total(w[..i + 1], f) == Total(w[..i], f) + f(w[i])
  {
    assert w[..i + 1][..i] == w[..i];
  }

  lemma LastAppend(s: seq<i32>, x: i32)
    requires |s| <= WINDOW
    ensures Last(s + [x]) == if |s| < WINDOW then s + [x] else s[1..] + [x]
  {
  }

  /** Overwriting the oldest entry of the ring and moving on by one. */
  lemma Turned(w: seq<i32>, h: nat, x: i32)
    requires |w| == WINDOW && h < WINDOW
    ensures var v, k := w[h := x], (h + 1) % WINDOW;
      v[k..] + v[..k] == (w[h..] + w[..h])[1..] + [x]
  {
  }

  /** The product with the floor fraction stays within 64 bits. */
  function ProductBound(a: nat, b: u16): (r: i64)
    requires a <= 0x8000_0000
    ensures r == a * b >= 0
  {
    MulMono(0x8000_0000, a, b);
    a * b
  }

  lemma QuotientBound(a: i64, b: int)
    requires b >= 1 && -0x7FFF_FFFF_FFFF_FFFF <= a
    ensures -0x7FFF_FFFF_FFFF_FFFF <= TruncDiv(a, b) <= 0x7FFF_FFFF_FFFF_FFFF
  {
    DivBound(Abs(a), b);
  }

  lemma DivBound(a: nat, b: nat)
    requires b >= 1
    ensures 0 <= a / b <= a
  {
    assert a == a / b * b + a % b;
    MulMono(b, 1, a / b);
  }

  lemma SquareIs(x: int, m: int)
    ensures Squared(m)(x) == (x - m) * (x - m) >= 0
  {
    NonNegative(x - m);
  }

  lemma NonNegative(d: int)
    ensures d * d >= 0
  {
  }

  lemma {:induction false} SquaresGrow(w: seq<int>, i: nat, m: int)
    requires i <= |w|
    ensures 0 <= Total(w[..i], Squared(m)) <= Total(w, Squared(m))
    decreases |w|
  {
    hide Squared;
    if w != [] {
      var k := |w| - 1;
      SquareIs(w[k], m);
      if i == |w| {
        SquaresGrow(w[..k], k, m);
        assert w[..i] == w && w[..k][..k] == w[..k];
      } else {
        SquaresGrow(w[..k], i, m);
        assert w[..k][..i] == w[..i];
      }
    }
  }

  // ------------------------------------------------- only the samples kept, in any order

  lemma {:induction false} TotalSplit(w: seq<int>, i: nat, f: int -> int)
    requires i < |w|
    ensures Total(w, f) == Total(w[..i] + w[i + 1..], f) + f(w[i])
    decreases |w|
  {
    var k := |w| - 1;
    if i < k {
      TotalSplit(w[..k], i, f);
      assert w[..k][..i] == w[..i] && (w[..i] + w[i + 1..])[..k - 1] == w[..i] + w[..k][i + 1..];
    } else {
      assert w[..i] + w[i + 1..] == w[..k];
    }
  }

  lemma {:induction false} TotalSame(a: seq<int>, b: seq<int>, f: int -> int)
    requires multiset(a) == multiset(b)
    ensures Total(a, f) == Total(b, f)
    decreases |a|
  {
    assert |a| == |multiset(a)| && |b| == |multiset(b)|;
    if a != [] {
      var k := |a| - 1;
      assert a[k] in multiset(b);
      var i :| 0 <= i < |b| && b[i] == a[k];
      var a', b' := a[..k], b[..i] + b[i + 1..];
      Without(b, i);
      Without(a, k);
      assert a[..k] + a[k + 1..] == a';
      TotalSame(a', b', f);
      TotalSplit(b, i, f);
    }
  }

  lemma Without(s: seq<int>, i: nat)
    requires i < |s|
    ensures multiset(s[..i] + s[i + 1..]) == multiset(s) - multiset{s[i]}
  {
    assert s == s[..i] + [s[i]] + s[i + 1..];
  }

  /** What the gate holds after a run of samples. */
  function Held(xs: seq<i32>): (w: seq<i32>)
    decreases |xs|
  {
    if xs == [] then [] else Last(Held(xs[..|xs| - 1]) + [xs[|xs| - 1]])
  }

  lemma {:induction false} HeldIsLast(xs: seq<i32>)
    ensures Held(xs) == Last(xs)
    decreases |xs|
  {
    hide Last;
    if xs == [] {
      LastOfShort(xs);
    } else {
      var ys, y := xs[..|xs| - 1], xs[|xs| - 1];
      HeldIsLast(ys);
      assert xs == ys + [y];
      LastTwice(ys, y);
    }
  }

  lemma LastOfShort(s: seq<i32>)
    requires |s| <= WINDOW
    ensures Last(s) == s
  {
  }

  lemma LastTwice(s: seq<i32>, x: i32)
    ensures Last(Last(s) + [x]) == Last(s + [x])
  {
    if |s| > WINDOW { assert (s + [x])[|s| + 1 - WINDOW..] == s[|s| - WINDOW..][1..] + [x]; }
  }

  /** After any two runs with the same last twelve samples in whatever order, every sample is judged alike. */
  lemma OnlyTheLastTwelve(xs: seq<i32>, ys: seq<i32>, x: i32, thr: u16, permille: u16)
    requires multiset(Last(xs)) == multiset(Last(ys))
    ensures Outcome(Held(xs), x, thr, permille) == Outcome(Held(ys), x, thr, permille)
  {
    hide Last, Held, Outcome, SquareSum, Mean;
    HeldIsLast(xs);
    HeldIsLast(ys);
    OrderDoesNotMatter(Last(xs), Last(ys), x, thr, permille);
  }

  lemma OrderDoesNotMatter(a: seq<i32>, b: seq<i32>, x: i32, thr: u16, permille: u16)
    requires multiset(a) == multiset(b)
    ensures Outcome(a, x, thr, permille) == Outcome(b, x, thr, permille)
  {
    hide Root, Total, TruncDiv, Clamp, Squared, Itself;
    assert |a| == |multiset(a)| && |b| == |multiset(b)|;
    TotalSame(a, b, Itself());
    TotalSame(a, b, Squared(Mean(a)));
  }

  // ------------------------------------------------------------------ what the verdict is

  lemma {:induction false} SumBounds(w: seq<i32>)
    ensures -0x8000_0000 * |w| <= Total(w, Itself()) <= 0x7FFF_FFFF * |w|
    decreases |w|
  {
    if w != [] { SumBounds(w[..|w| - 1]); }
  }

  lemma MeanBounds(w: seq<i32>)
    requires |w| == WINDOW
    ensures -0x8000_0000 <= Mean(w) <= 0x7FFF_FFFF
  {
    SumBounds(w);
  }

  /** A sample is anomalous exactly when its deviation reaches the threshold: no rounding matters. */
  lemma VerdictExactly(w: seq<i32>, x: i32, thr: u16, permille: u16)
    requires |w| == WINDOW
    ensures Outcome(w, x, thr, permille).0 == 1 <==> Abs(x - Mean(w)) * 100 >= thr * Spread(w, permille)
  {
    hide Mean, Spread, TruncDiv;
    var a, b := (x - Mean(w)) * 100, Spread(w, permille);
    QuotientAtLeast(Abs(a), b, thr);
    AbsTrunc(a, b);
  }

  lemma AbsTrunc(a: int, b: int)
    requires b >= 1
    ensures Abs(TruncDiv(a, b)) == Abs(a) / b
  {
    if a < 0 { DivBound(-a, b); } else { DivBound(a, b); }
  }

  lemma QuotientAtLeast(a: nat, b: nat, k: nat)
    requires b >= 1
    ensures a / b >= k <==> a >= k * b
  {
    assert a == a / b * b + a % b;
    MulMono(a / b, k, b);
    MulStep(k, a / b, b);
  }

  predicate Constant(w: seq<i32>, c: i32) { forall i :: 0 <= i < |w| ==> w[i] == c }

  lemma {:induction false} ConstantTotal(w: seq<i32>, c: i32, f: int -> int)
    requires Constant(w, c)
    ensures Total(w, f) == |w| * f(c)
    decreases |w|
  {
    if w != [] {
      var n := |w| - 1;
      ConstantTotal(w[..n], c, f);
      Distribute(n, 1, f(c));
    }
  }

  /**
   On a window of one constant the spread is the floor alone; the constant itself scores zero,
   so it is never anomalous for a threshold above zero, and always for a threshold of zero.
   */
  lemma ConstantWindow(w: seq<i32>, c: i32, thr: u16, permille: u16)
    requires |w| == WINDOW && Constant(w, c)
    ensures Mean(w) == c && Spread(w, permille) == Floor(w, permille)
    ensures Outcome(w, c, thr, permille) == (if thr == 0 then 1 else 0, 0)
  {
    hide Total, Root;
    ConstantTotal(w, c, Itself());
    ConstantTotal(w, c, Squared(c));
    RootUnique(Root(0), 0, 0);
  }

  // ------------------------------------------------------------ when the arithmetic holds

  predicate Bounded(w: seq<i32>, m: nat) { forall i :: 0 <= i < |w| ==> -(m as int) <= w[i] <= m }

  /** Moving the centre of a sum of squares. */
  lemma {:induction false} Recentred(w: seq<int>, m: int)
    ensures Total(w, Squared(m)) == Total(w, Squared(0)) - 2 * (m * Total(w, Itself())) + |w| * (m * m)
    decreases |w|
  {
    hide Total, Squared;
    Unfold(w, Squared(m));
    Unfold(w, Squared(0));
    Unfold(w, Itself());
    if w != [] {
      var k := |w| - 1;
      var x, t := w[k], Total(w[..k], Itself());
      Recentred(w[..k], m);
      SquareIs(x, m);
      SquareIs(x, 0);
      SquareOfDifference(x, m);
      DistributeLeft(m, t, x);
      Distribute(k, 1, m * m);
    } else {
      Zero(m);
    }
  }

  lemma SquareOfDifference(x: int, m: int)
    ensures (x - m) * (x - m) == x * x - 2 * (m * x) + m * m
  {
  }

  lemma DistributeLeft(m: int, a: int, b: int)
    ensures m * (a + b) == m * a + m * b
  {
  }

  lemma Zero(m: int)
    ensures m * 0 == 0 && 0 * (m * m) == 0
  {
  }

  lemma Unfold(w: seq<int>, f: int -> int)
    ensures Total(w, f) == if w == [] then 0 else Total(w[..|w| - 1], f) + f(w[|w| - 1])
  {
  }

  lemma {:induction false} SquaresBounded(w: seq<i32>, m: nat)
    requires Bounded(w, m)
    ensures Total(w, Squared(0)) <= |w| * (m * m)
    decreases |w|
  {
    hide Total, Squared;
    Unfold(w, Squared(0));
    if w != [] {
      var k := |w| - 1;
      SquaresBounded(w[..k], m);
      SquareIs(w[k], 0);
      SquareOfMagnitude(w[k]);
      SquareMono(Abs(w[k]), m);
      Distribute(k, 1, m * m);
    } else {
      Zero(m);
    }
  }

  lemma SquareOfMagnitude(x: int)
    ensures (x - 0) * (x - 0) == Abs(x) * Abs(x)
  {
  }

  /** The rounded mean never makes the square sum larger than that about zero. */
  lemma CentredIsLess(w: seq<i32>)
    requires |w| == WINDOW
    ensures SquareSum(w) <= Total(w, Squared(0))
  {
    hide Total, Squared, Itself;
    var m, s := Mean(w), Total(w, Itself());
    Recentred(w, m);
    var e := s - 12 * m;
    assert s == 12 * m + e && m * e >= 0;
    DistributeLeft(m, 12 * m, e);
    assert m * (12 * m) == 12 * (m * m);
    NonNegative(m);
  }

  function Extremes(m: i32): (w: seq<i32>)
    requires m >= 0
    ensures |w| == WINDOW && Bounded(w, m)
  {
    seq(6, _ => m) + seq(6, _ => -(m as int))
  }

  /** The bound on the samples that keeps zgate_update within 64 bits, exactly. */
  lemma FitsExactly(m: i32)
    requires m >= 0
    ensures (forall w: seq<i32> :: |w| == WINDOW && Bounded(w, m) ==> Fits(w)) <==> m <= 876_706_528
  {
    if m <= 876_706_528 {
      forall w: seq<i32> | |w| == WINDOW && Bounded(w, m) ensures Fits(w) {
        CentredIsLess(w);
        SquaresBounded(w, m);
        SquareMono(m, 876_706_528);
      }
    } else {
      ExtremesOverflow(m);
    }
  }

  lemma ExtremesOverflow(m: i32)
    requires m >= 876_706_529
    ensures !Fits(Extremes(m))
  {
    hide Total, Squared, Itself;
    SixAndSix(m);
    SquareMono(876_706_529, m);
  }

  lemma {:induction false} TotalConcat(a: seq<int>, b: seq<int>, f: int -> int)
    ensures Total(a + b, f) == Total(a, f) + Total(b, f)
    decreases |b|
  {
    if b == [] {
      assert a + b == a;
    } else {
      TotalConcat(a, b[..|b| - 1], f);
      assert (a + b)[..|a + b| - 1] == a + b[..|b| - 1];
    }
  }

  lemma SixAndSix(m: i32)
    requires m >= 0
    ensures Total(Extremes(m), Itself()) == 0 && Total(Extremes(m), Squared(0)) == 12 * (m * m)
  {
    hide Total;
    var a: seq<i32>, b: seq<i32> := seq(6, _ => m), seq(6, _ => -(m as int));
    TotalConcat(a, b, Itself());
    TotalConcat(a, b, Squared(0));
    ConstantTotal(a, m, Itself());
    ConstantTotal(b, -(m as int), Itself());
    ConstantTotal(a, m, Squared(0));
    ConstantTotal(b, -(m as int), Squared(0));
  }

  // ------------------------------------------------------------- the statistics in numbers

  /** The sum of a window of twelve. */
  function Sum12(w: seq<int>): int
    requires |w| == 12
  {
    w[0] + w[1] + w[2] + w[3] + w[4] + w[5] + w[6] + w[7] + w[8] + w[9] + w[10] + w[11]
  }

  /** The sum of the squared differences from `m`. */
  function Deviations(w: seq<int>, m: int): int
    requires |w| == 12
  {
    Sum12(seq(12, i requires 0 <= i < 12 => (w[i] - m) * (w[i] - m)))
  }

  lemma TwelveTerms(w: seq<int>, f: int -> int)
    requires |w| == 12
    ensures Total(w, f) == f(w[0]) + f(w[1]) + f(w[2]) + f(w[3]) + f(w[4]) + f(w[5])
                           + f(w[6]) + f(w[7]) + f(w[8]) + f(w[9]) + f(w[10]) + f(w[11])
  {
    hide Total;
    SixTerms(w, 0, f);
    SixTerms(w, 6, f);
    NoTotal(f);
    assert w[..0] == [] && w[..12] == w;
  }

  lemma SixTerms(w: seq<int>, i: nat, f: int -> int)
    requires i + 6 <= |w|
    ensures Total(w[..i + 6], f) == Total(w[..i], f) + f(w[i]) + f(w[i + 1]) + f(w[i + 2])
                                    + f(w[i + 3]) + f(w[i + 4]) + f(w[i + 5])
  {
    hide Total;
    TotalPrefix(w, i, f);
    TotalPrefix(w, i + 1, f);
    TotalPrefix(w, i + 2, f);
    TotalPrefix(w, i + 3, f);
    TotalPrefix(w, i + 4, f);
    TotalPrefix(w, i + 5, f);
  }

  lemma SumsAre(w: seq<i32>, m: int)
    requires |w| == 12
    ensures Total(w, Itself()) == Sum12(w) && Total(w, Squared(m)) == Deviations(w, m)
  {
    hide Total;
    TwelveTerms(w, Itself());
    TwelveTerms(w, Squared(m));
  }

  /** Truncation towards zero. */
  predicate Truncated(q: int, a: int, b: int) {
    && (a >= 0 ==> 0 <= a - q * b < b)
    && (a <= 0 ==> 0 <= q * b - a < b)
  }

  lemma TruncatedIs(a: int, b: int)
    requires b >= 1
    ensures Truncated(TruncDiv(a, b), a, b)
  {
    hide TruncDiv;
    AbsTrunc(a, b);
    TruncSides(a, b);
    var n := Abs(a);
    assert n == n / b * b + n % b;
    if a < 0 { Negated(n / b, b); }
  }

  lemma Negated(q: int, b: int)
    ensures (-q) * b == -(q * b)
  {
  }

  lemma TruncSides(a: int, b: int)
    requires b >= 1
    ensures TruncDiv(a, b) == if a < 0 then -(-a / b) else a / b
  {
  }

  /** The root of the average square, in terms of the sum of the twelve. */
  lemma RootOfTwelfth(v: nat)
    ensures var r := Root(v / 12); 12 * (r * r) <= v < 12 * ((r + 1) * (r + 1))
  {
  }

  /**
   The statistics of a full window in numbers: the mean is the sum over twelve, truncated; the spread
   is at least 1 and at least permille thousandths of the mean's magnitude, rounded down; it is that
   floor, or else the standard deviation about this mean, rounded down; and never less than that.
   */
  lemma StatisticsExactly(w: seq<i32>, permille: u16)
    requires |w| == 12
    ensures var m, f, s := Mean(w), Floor(w, permille), Spread(w, permille);
      && Truncated(m, Sum12(w), 12)
      && 1 <= f <= s && (f == 1 || 1000 * f <= Abs(m) * permille) && Abs(m) * permille < 1000 * (f + 1)
      && Deviations(w, m) < 12 * ((s + 1) * (s + 1))
      && (s == f || 12 * (s * s) <= Deviations(w, m))
  {
    hide Total, TruncDiv, Root, Sum12, Deviations;
    var m := Mean(w);
    SumsAre(w, m);
    TruncatedIs(Sum12(w), 12);
    SquaresGrow(w, 0, m);
    assert w[..12] == w;
    SquaresGrow(w, 12, m);
    RootOfTwelfth(SquareSum(w));
    if Spread(w, permille) == Floor(w, permille) { SquareMono(Root(SquareSum(w) / 12) + 1, Floor(w, permille) + 1); }
  }

  /** The score: hundredths of the spread, truncated, and held within 32 bits. None before the window is full. */
  lemma ScoreExactly(w: seq<i32>, x: i32, thr: u16, permille: u16)
    ensures |w| < 12 ==> Outcome(w, x, thr, permille) == (-11, 0)
    ensures |w| == 12 ==> (
              var a, s, z := (x - Mean(w)) * 100, Spread(w, permille), Outcome(w, x, thr, permille).1;
              || Truncated(z, a, s)
              || (z == 2_147_483_647 && a >= 2_147_483_647 * s)
              || (z == -2_147_483_648 && a <= -2_147_483_648 * s))
  {
    hide Mean, Spread, TruncDiv;
    if |w| == 12 {
      var a, s := (x - Mean(w)) * 100, Spread(w, permille);
      TruncatedIs(a, s);
      var q := TruncDiv(a, s);
      MulMono(q, 2_147_483_647, s);
      MulMono(-2_147_483_648, q, s);
    }
  }
}
