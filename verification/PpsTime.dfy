/**
 The pulse-per-second discipline (pps.c) in true time: what an instant between pulses is converted
 to, how far that is from true UTC, which pulses count, and when the lock is won and lost.
 */
module PpsTime {
  import opened Bytes
  import opened Arith
  import opened Pps

  // ------------------------------------------------------------------ what is converted to what

  /** The quotient of C's division: at most the dividend in magnitude, and by less than the divisor. */
  lemma TruncIs(a: int, q: int)
    requires q > 0
    ensures var m := TruncDiv(a, q);
      (a >= 0 ==> 0 <= a - m * q < q) && (a <= 0 ==> 0 <= m * q - a < q)
  {
    hide TruncDiv;
    TruncSign(a, q);
    var m := Abs(a) / q;
    assert Abs(a) == m * q + Abs(a) % q;
    Distribute(m, -m, q);
  }

  lemma SignedIs(last: nat, l: nat)
    requires -0x8000_0000 <= l - last < 0x8000_0000
    ensures ToI32(ToU32(ToU32(l) - ToU32(last))) == l - last
  {
    hide ToU32;
    WrapDiff(l, last);
    SignedWrap(l - last);
  }

  lemma SignedWrap(x: int)
    requires -0x8000_0000 <= x < 0x8000_0000
    ensures ToI32(ToU32(x)) == x
  {
  }

  /** The discipline knows UTC, and nothing overflows around the present. */
  predicate Telling(d: Disc, last: nat, l: nat) {
    && Sharp(d) && InBand(d) && d.utcValid && d.state != UNLOCKED && 3000 <= d.utcSAtEdge < 0x20_0000_0000_0000
    && d.lastEdgeUs == ToU32(last) && -0x8000_0000 <= l - last < 0x8000_0000
  }

  /**
   An instant `l`, before or after the last edge, becomes the edge's second and so many milliseconds
   that, at the estimated period, they fall short of the local time passed by less than one.
   */
  lemma ConversionExact(d: Disc, last: nat, l: nat)
    requires Telling(d, last, l)
    ensures LocalToUtcMs(d, ToU32(l)).Some?
    ensures var ms, passed := LocalToUtcMs(d, ToU32(l)).value - 1000 * d.utcSAtEdge, (l - last) * 65_536_000;
      && (l >= last ==> 0 <= passed - ms * Q16(d) < Q16(d))
      && (l <= last ==> 0 <= ms * Q16(d) - passed < Q16(d))
      && -2_200_000 <= ms <= 2_200_000
  {
    hide LocalToUtcMs, TruncDiv, Q16, ToU32, ToI32;
    SignedIs(last, l);
    OffsetBound(d, l - last);
    LocalIs(d, ToU32(l));
    TruncIs((l - last) * 65_536_000, Q16(d));
  }

  function AbsReal(x: real): real { if x < 0.0 then -x else x }

  /** The oscillator makes `p` units of 1/65536 us in a second, within `eps` of `q`, so `n` in `tau` ms. */
  predicate Rate(p: real, eps: real, q: int, tau: real, n: int) {
    p > 0.0 && AbsReal(p - q as real) <= eps && tau * p == n as real
  }

  /** `ms` is within 1 + `k` of `tau`, if `k` covers the error of the rate over so many milliseconds. */
  predicate Close(ms: int, tau: real, p: real, eps: real, k: real) {
    (AbsReal(ms as real) + 1.0) * eps <= k * p ==> AbsReal(ms as real - tau) < 1.0 + k
  }

  /**
   In true time: if the oscillator's true rate is within `eps` of the estimate, and `tau` ms really
   passed since the edge, the conversion is within 1 + `k` ms of true UTC, `k` being the error of the
   estimate over the milliseconds converted.
   */
  lemma ConversionAccurate(d: Disc, last: nat, l: nat, p: real, eps: real, tau: real, k: real)
    requires Telling(d, last, l) && Rate(p, eps, Q16(d), tau, (l - last) * 65_536_000)
    ensures LocalToUtcMs(d, ToU32(l)).Some?
    ensures Close(LocalToUtcMs(d, ToU32(l)).value - 1000 * d.utcSAtEdge, tau, p, eps, k)
  {
    hide LocalToUtcMs, Q16, ToU32, Telling, Rate, Close;
    ConversionExact(d, last, l);
    AccurateMs(LocalToUtcMs(d, ToU32(l)).value - 1000 * d.utcSAtEdge, (l - last) * 65_536_000, Q16(d), p, eps, tau, k);
  }

  lemma AccurateMs(ms: int, n: int, q: int, p: real, eps: real, tau: real, k: real)
    requires -q < ms * q - n < q && Rate(p, eps, q, tau, n)
    ensures Close(ms, tau, p, eps, k)
  {
    Near(ms, n, q);
    if (AbsReal(ms as real) + 1.0) * eps <= k * p { Accurate(ms as real, tau, n as real, q as real, p, eps, k); }
  }

  lemma Near(m: int, n: int, q: int)
    requires -q < m * q - n < q
    ensures -(q as real) < m as real * q as real - n as real < q as real
  {
    assert (m * q) as real == m as real * q as real;
  }

  lemma Accurate(x: real, tau: real, n: real, q: real, p: real, eps: real, k: real)
    requires p > 0.0 && AbsReal(p - q) <= eps && -q < x * q - n < q && tau * p == n
    requires (AbsReal(x) + 1.0) * eps <= k * p
    ensures AbsReal(x - tau) < 1.0 + k
  {
    var c := x * (p - q);
    assert AbsReal(c) <= AbsReal(x) * eps by { ScaledBy(x, p - q, eps); }
    assert (x - tau) * p == x * q - n + c by { Times(x, tau, n, q, p); }
    assert (AbsReal(x) + 1.0) * eps == AbsReal(x) * eps + eps by { DistributeReal(AbsReal(x), 1.0, eps); }
    BoundBy(x - tau, p, k, x * q - n, c, q, AbsReal(x) * eps, eps, k * p);
  }

  lemma BoundBy(z: real, p: real, k: real, a: real, c: real, q: real, b: real, eps: real, room: real)
    requires p > 0.0 && z * p == a + c && -q < a < q && AbsReal(c) <= b && AbsReal(p - q) <= eps
    requires b + eps <= room == k * p
    ensures AbsReal(z) < 1.0 + k
  {
    SmallProduct(z, p, a, c, q, b, eps, room);
    DivideThrough(AbsReal(z), p, k, room);
  }

  lemma SmallProduct(z: real, p: real, a: real, c: real, q: real, b: real, eps: real, room: real)
    requires p > 0.0 && z * p == a + c && -q < a < q && AbsReal(c) <= b && AbsReal(p - q) <= eps && b + eps <= room
    ensures AbsReal(z) * p < p + room
  {
    SignTimes(z, p);
  }

  lemma DivideThrough(y: real, p: real, k: real, room: real)
    requires p > 0.0 && y * p < p + room && room == k * p
    ensures y < 1.0 + k
  {
    if y >= 1.0 + k {
      MulMonoReal(1.0 + k, y, p);
      DistributeReal(1.0, k, p);
      Unit(p);
    }
  }

  lemma SignTimes(z: real, p: real)
    requires p > 0.0
    ensures AbsReal(z * p) == AbsReal(z) * p
  {
  }

  lemma Times(x: real, tau: real, n: real, q: real, p: real)
    requires tau * p == n
    ensures (x - tau) * p == x * q - n + x * (p - q)
  {
    DistributeReal(x, -tau, p);
    DistributeReal(q, p - q, x);
  }

  lemma DistributeReal(a: real, b: real, c: real)
    ensures (a + b) * c == a * c + b * c
  {
  }

  lemma Unit(p: real)
    ensures 1.0 * p == p
  {
  }

  lemma MulMonoReal(a: real, b: real, c: real)
    requires c >= 0.0 && a <= b
    ensures a * c <= b * c
  {
  }

  lemma ScaledBy(x: real, y: real, eps: real)
    requires AbsReal(y) <= eps
    ensures AbsReal(x * y) <= AbsReal(x) * eps
  {
    MulMonoReal(AbsReal(y), eps, AbsReal(x));
    assert AbsReal(x * y) == AbsReal(y) * AbsReal(x);
  }

  /** An estimate at most 7 units above `dt` us errs by less than a millisecond over any offset. */
  lemma SteadyError(m: int, off: int, q: int, dt: nat)
    requires 0 <= q - dt * 0x1_0000 <= 7 && 236 <= dt && -2_200_000 <= m <= 2_200_000
    requires -q < m * q - off * 65_536_000 < q
    ensures -2 * dt < m * dt - 1000 * off < 2 * dt
  {
    var e := q - dt * 0x1_0000;
    Distribute(dt * 0x1_0000, e, m);
    MulMono(e, 0, Abs(m));
    MulMono(7, e, Abs(m));
    assert m * e == Abs(m) * e || m * e == -(Abs(m) * e);
    assert (dt * 0x1_0000) * m == 0x1_0000 * (m * dt);
  }

  /**
   End to end: after enough pulses a constant interval apart, whatever glitches and ticks come between
   them, every instant within the reach of the 32-bit clock is converted to within 2 ms of true UTC:
   the second of the last pulse and 1000 / dt ms for each microsecond passed since.
   */
  lemma SteadyConversion(w: World, inputs: seq<Input>, dt: nat, l: nat)
    requires Ticking(w, dt) && Steady(w, inputs, dt) && Pulses(inputs) > Abs(Q16(w.d) - dt * 0x1_0000)
    requires Sharp(w.d) && Exact(w) && AllPlausible(w, inputs)
    requires var t := Run(w, inputs);
      && t.d.utcValid && t.d.state != UNLOCKED && 3000 <= t.second < 0x20_0000_0000_0000
      && -0x8000_0000 <= l - t.last < 0x8000_0000
    ensures var t := Run(w, inputs);
      && Q16(t.d) > 0 && LocalToUtcMs(t.d, ToU32(l)).Some?
      && var v := LocalToUtcMs(t.d, ToU32(l)).value;
      -2 * dt < v * dt - (1000 * t.second * dt + 1000 * (l - t.last)) < 2 * dt
  {
    hide Run, Steady, AllPlausible, LocalToUtcMs, Q16, ToU32, ToU64, Since;
    var t := Run(w, inputs);
    FilterConverges(w, inputs, dt);
    SteadyRun(w, inputs, dt);
    UtcStaysExact(w, inputs);
    Small64(t.second);
    ConversionExact(t.d, t.last, l);
    var v: int := LocalToUtcMs(t.d, ToU32(l)).value;
    SteadyError(v - 1000 * t.second, l - t.last, Q16(t.d), dt);
    Distribute(v - 1000 * t.second, 1000 * t.second, dt);
  }

  // --------------------------------------------------------------- which pulses count

  /** `gap` is `n` seconds, give or take the tolerance for each. */
  predicate Spans(d: Disc, gap: int, n: nat) {
    Abs(gap - n * 1_000_000) <= d.tolUs * n
  }

  /** Microseconds from `last` to `l`, less whole turns of the clock. */
  function Gap(last: nat, l: nat): int { (l - last) % 0x1_0000_0000 }

  lemma SpansSeconds(d: Disc, gap: int, n: nat)
    requires Sharp(d) && 0 <= gap < 0x1_0000_0000 && 1 <= n <= 60 && Spans(d, gap, n)
    ensures Seconds(gap) == n && (WithinTol(d, gap) <==> n == 1) && (MissedPulses(d, gap) <==> n != 1)
  {
    NearestSecond(d, gap, n);
  }

  /** What an accepted edge `n` seconds after the last leaves. */
  predicate Counted(d: Disc, e: Disc, n: nat) {
    && (d.utcValid ==> e.utcSAtEdge == (d.utcSAtEdge + n) % 0x1_0000_0000_0000_0000)
    && e.goodRun == (if n == 1 && d.goodRun < 255 then d.goodRun + 1 else d.goodRun)
    && (n != 1 ==> e.periodUs == d.periodUs && e.periodFrac == d.periodFrac)
  }

  lemma AcceptedCounts(d: Disc, t: u32, n: nat)
    requires d.haveEdge && (WithinTol(d, Since(d, t)) <==> n == 1)
    requires n != 1 ==> MissedPulses(d, Since(d, t)) && Seconds(Since(d, t)) == n
    ensures Edge(d, t).1 && Counted(d, Edge(d, t).0, n)
  {
    hide Seconds, Ema, Since, WithinTol;
  }

  /**
   Exactly which edges are accepted: the first, and those 1 to 60 seconds after the last accepted
   one, give or take the tolerance for each second, on the wrapping clock. One second apart is a good
   pulse and measures the period; more tell the second only; a rejected one ends the good run.
   */
  lemma EdgeAcceptedExactly(d: Disc, last: nat, l: nat)
    requires Sharp(d) && d.lastEdgeUs == ToU32(last)
    ensures var (e, ok) := Edge(d, ToU32(l)); var gap := Gap(last, l);
      && (ok <==> !d.haveEdge || exists n :: 1 <= n <= 60 && Spans(d, gap, n))
      && (ok ==> e.lastEdgeUs == ToU32(l) && e.glitches == d.glitches && e.pulses == (d.pulses + 1) % 0x1_0000_0000)
      && (ok && d.haveEdge ==> forall n :: 1 <= n <= 60 && Spans(d, gap, n) ==> Counted(d, e, n))
      && (!ok ==> e == d.(glitches := (d.glitches + 1) % 0x1_0000_0000, goodRun := 0))
  {
    hide Seconds, Ema, ToU64, Sharp, Counted;
    WrapDiff(l, last);
    var gap := Gap(last, l);
    forall n | 1 <= n <= 60 && Spans(d, gap, n)
      ensures Seconds(gap) == n && (WithinTol(d, gap) <==> n == 1) && (MissedPulses(d, gap) <==> n != 1)
      ensures d.haveEdge ==> Counted(d, Edge(d, ToU32(l)).0, n)
    {
      SpansSeconds(d, gap, n);
      if d.haveEdge { AcceptedCounts(d, ToU32(l), n); }
    }
    if WithinTol(d, gap) { assert Spans(d, gap, 1); }
    if MissedPulses(d, gap) { assert Spans(d, gap, Seconds(gap)); }
  }

  // ------------------------------------------------------------- the lock, won and lost

  /** A pulse one second after the last accepted edge. */
  predicate GoodPulse(w: World, i: Input) {
    i.Pulse? && w.d.haveEdge && Spans(w.d, Gap(w.last, i.l), 1)
  }

  /** A pulse that is no whole number of seconds from 1 to 60 after the last accepted edge. */
  ghost predicate Stray(w: World, i: Input) {
    i.Pulse? && w.d.haveEdge && forall n :: 1 <= n <= 60 ==> !Spans(w.d, Gap(w.last, i.l), n)
  }

  /** A tick that finds no edge for longer than the holdover time. */
  predicate Lost(w: World, i: Input) {
    && i.TickAt? && w.d.state == LOCKED
    && w.d.holdoverUs != 0 && Gap(w.last, i.l) > w.d.holdoverUs
  }

  /** The discipline's last edge is the world's, and no lock without UTC. */
  predicate Linked(w: World) {
    && (w.d.haveEdge ==> w.d.lastEdgeUs == ToU32(w.last))
    && (w.d.state == LOCKED ==> w.d.haveEdge && w.d.utcValid)
    && w.d.lockPulses >= 1
  }

  /** The run of good pulses after one more input. */
  ghost function Streak(w: World, i: Input, before: nat): nat {
    if GoodPulse(w, i) then before + 1
    else if Stray(w, i) || Lost(w, i) then 0
    else before
  }

  function Saturated(n: nat): u8 { if n <= 255 then n else 255 }

  /**
   Exactly when the lock is won, by a good pulse with UTC known or by the receiver's time, after
   enough good pulses in a row; and exactly when it is lost, to a tick past the holdover time.
   */
  lemma LockExactly(w: World, i: Input, streak: nat)
    requires Sharp(w.d) && Linked(w) && w.d.goodRun == Saturated(streak)
    ensures var t := Do(w, i); var streak' := Streak(w, i, streak);
      && Linked(t) && Sharp(t.d) && t.d.lockPulses == w.d.lockPulses && t.d.goodRun == Saturated(streak')
      && (t.d.state == LOCKED <==>
            || (w.d.state == LOCKED && !Lost(w, i))
            || (GoodPulse(w, i) && w.d.utcValid && streak' >= w.d.lockPulses)
            || (i.GnssTime? && w.d.haveEdge && streak' >= w.d.lockPulses))
      && (t.d.state == HOLDOVER <==> Lost(w, i) || (w.d.state == HOLDOVER && t.d.state != LOCKED))
  {
    hide Edge, ToU64;
    match i {
      case Pulse(l, _) => PulseLock(w, i, streak);
      case GnssTime =>
      case TickAt(l) => if w.d.haveEdge { WrapDiff(l, w.last); }
    }
  }

  lemma OneSecond(d: Disc, gap: int)
    ensures Spans(d, gap, 1) <==> WithinTol(d, gap)
  {
  }

  /** What a pulse after the first does to the lock. */
  lemma PulseState(d: Disc, t: u32)
    requires d.haveEdge
    ensures var e := Edge(d, t).0;
      && e.haveEdge && e.tolUs == d.tolUs && e.lockPulses == d.lockPulses && e.utcValid == d.utcValid
      && e.state == (if WithinTol(d, Since(d, t)) && e.goodRun >= d.lockPulses && d.utcValid then LOCKED else d.state)
  {
    hide Seconds, Ema, ToU64, ToU32;
  }

  lemma PulseLock(w: World, i: Input, streak: nat)
    requires i.Pulse? && Sharp(w.d) && Linked(w) && w.d.goodRun == Saturated(streak)
    ensures var (e, ok) := Edge(w.d, ToU32(i.l)); var streak' := Streak(w, i, streak);
      && Linked(Do(w, i)) && Sharp(e) && e.lockPulses == w.d.lockPulses && e.goodRun == Saturated(streak')
      && (e.state == LOCKED <==>
            w.d.state == LOCKED || (GoodPulse(w, i) && w.d.utcValid && streak' >= w.d.lockPulses))
      && (e.state == HOLDOVER <==> w.d.state == HOLDOVER && e.state != LOCKED)
  {
    hide Seconds, Ema, ToU64, Spans;
    if w.d.haveEdge {
      EdgeAcceptedExactly(w.d, w.last, i.l);
      PulseState(w.d, ToU32(i.l));
      WrapDiff(i.l, w.last);
      OneSecond(w.d, Gap(w.last, i.l));
    }
  }

  /** The good pulses in a row at the end of a run from the start. */
  ghost function StreakAfter(w: World, inputs: seq<Input>): nat
    decreases |inputs|
  {
    if inputs == [] then 0
    else
      var n := |inputs| - 1;
      Streak(Run(w, inputs[..n]), inputs[n], StreakAfter(w, inputs[..n]))
  }

  /**
   So over every run from the start: the discipline locks only with UTC known and after `lockPulses`
   good pulses in a row, and a lock is lost only by a tick past the holdover time.
   */
  lemma {:induction false} LockOverRuns(w: World, inputs: seq<Input>)
    requires Sharp(w.d) && Linked(w) && w.d.goodRun == 0 && w.d.state == UNLOCKED
    ensures var t, streak := Run(w, inputs), StreakAfter(w, inputs);
      && Linked(t) && Sharp(t.d) && t.d.lockPulses == w.d.lockPulses && t.d.goodRun == Saturated(streak)
      && (inputs != [] ==>
            var n := |inputs| - 1; var s := Run(w, inputs[..n]);
            && (s.d.state != LOCKED && t.d.state == LOCKED ==>
                  t.d.utcValid && streak >= w.d.lockPulses && (GoodPulse(s, inputs[n]) || inputs[n].GnssTime?))
            && (s.d.state == LOCKED && t.d.state != LOCKED <==> Lost(s, inputs[n]))
            && (t.d.state == UNLOCKED ==> s.d.state == UNLOCKED))
    decreases |inputs|
  {
    hide Do, Streak, Stray, Spans;
    if inputs != [] {
      var n := |inputs| - 1;
      LockOverRuns(w, inputs[..n]);
      LockExactly(Run(w, inputs[..n]), inputs[n], StreakAfter(w, inputs[..n]));
    }
  }

  /** A discipline just initialised: unlocked, without edge or UTC, at the nominal period; one pulse at least locks. */
  lemma StartsUnlocked(tolUs: u32, lockPulses: u8, holdoverUs: u32, w: World)
    requires w.d == Init(tolUs, lockPulses, holdoverUs)
    ensures Linked(w) && Exact(w) && w.d.goodRun == 0 && w.d.state == UNLOCKED && !w.d.haveEdge && !w.d.utcValid
    ensures w.d.lockPulses == (if lockPulses == 0 then 1 else lockPulses) && Q16(w.d) == 65_536_000_000
    ensures tolUs < 1_000_000 ==> InBand(w.d)
  {
    if tolUs < 1_000_000 { assert Tol(w.d) == tolUs as int; }
  }
}
