/**
 GNSS pulse-per-second discipline (pps.c). Local time is a 32-bit microsecond counter; the
 period estimate is in 1/65536 microsecond.
 */
module Pps {
  import opened Bytes
  import opened Errno
  import opened Arith

  datatype LockState = UNLOCKED | LOCKED | HOLDOVER

  datatype Disc = Disc(tolUs: u32, lockPulses: u8, holdoverUs: u32, state: LockState, haveEdge: bool,
                       lastEdgeUs: u32, periodUs: u32, periodFrac: u16, goodRun: u8, glitches: u32,
                       pulses: u32, utcValid: bool, utcSAtEdge: u64)

  function Init(tolUs: u32, lockPulses: u8, holdoverUs: u32): Disc {
    Disc(tolUs, if lockPulses != 0 then lockPulses else 1, holdoverUs, UNLOCKED, false,
         0, 1_000_000, 0, 0, 0, 0, false, 0)
  }

  function Q16(d: Disc): nat { d.periodUs * 0x1_0000 + d.periodFrac }

  /** The EMA in fixed point: three quarters of an eighth are lost to truncation at most. */
  function Ema(q: nat, dt: nat): nat { q - q / 8 + dt * 0x2000 }

  lemma EmaIs(q: nat, dt: nat)
    ensures q - q / 8 + dt * 0x1_0000 / 8 == Ema(q, dt)
  {
  }

  /** Microseconds since the last edge, as the wrapping counter shows them. */
  function Since(d: Disc, t: u32): u32 { ToU32(t - d.lastEdgeUs) }

  /** Half-width of the accepted interval, around the nominal 1,000,000 us. */
  function Tol(d: Disc): int { d.tolUs }

  predicate WithinTol(d: Disc, dt: int) { -Tol(d) <= dt - 1_000_000 <= Tol(d) }

  /** Whole seconds nearest to `dt`; the 32-bit addition wraps. */
  function Seconds(dt: int): nat { ToU32(dt + 500_000) / 1_000_000 }

  predicate MissedPulses(d: Disc, dt: int) {
    var n := Seconds(dt);
    2 <= n <= 60 && Abs(dt - n * 1_000_000) <= Tol(d) * n
  }

  /** A pulse one period after the last: update the estimate, count, perhaps lock. */
  function GoodEdge(d: Disc, t: u32, dt: u32): Disc {
    var upd := Ema(Q16(d), dt);
    var run := if d.goodRun < 255 then d.goodRun + 1 else 255;
    d.(periodUs := ToU32(upd / 0x1_0000), periodFrac := upd % 0x1_0000,
       utcSAtEdge := if d.utcValid then ToU64(d.utcSAtEdge + 1) else d.utcSAtEdge,
       lastEdgeUs := t, pulses := ToU32(d.pulses + 1), goodRun := run,
       state := if run >= d.lockPulses && d.utcValid then LOCKED else d.state)
  }

  /** A pulse `n` whole seconds after the last. */
  function LateEdge(d: Disc, t: u32, n: nat): Disc {
    d.(utcSAtEdge := if d.utcValid then ToU64(d.utcSAtEdge + n) else d.utcSAtEdge,
       lastEdgeUs := t, pulses := ToU32(d.pulses + 1))
  }

  /** pps_edge: the new discipline, and whether the edge was accepted. */
  function Edge(d: Disc, t: u32): (Disc, bool) {
    if !d.haveEdge then
      (d.(haveEdge := true, lastEdgeUs := t, pulses := ToU32(d.pulses + 1)), true)
    else
      var dt := Since(d, t);
      if WithinTol(d, dt) then (GoodEdge(d, t, dt), true)
      else if MissedPulses(d, dt) then (LateEdge(d, t, Seconds(dt)), true)
      else
        (d.(glitches := ToU32(d.glitches + 1), goodRun := 0), false)
  }

  function SetUtc(d: Disc, utcS: u64): Disc {
    d.(utcSAtEdge := utcS, utcValid := d.haveEdge,
       state := if d.haveEdge && d.goodRun >= d.lockPulses then LOCKED else d.state)
  }

  function Tick(d: Disc, now: u32): Disc {
    if d.state == LOCKED && d.holdoverUs != 0 && Since(d, now) > d.holdoverUs
    then d.(state := HOLDOVER, goodRun := 0) else d
  }

  function Signed(d: Disc, t: u32): i32 { ToI32(Since(d, t)) }

  function OffsetMs(d: Disc, dt: int): int
    requires Q16(d) > 0
  {
    TruncDiv(dt * 65_536_000, Q16(d))
  }

  function LocalToUtcMs(d: Disc, t: u32): Option<u64>
    requires Q16(d) > 0
  {
    if !d.utcValid || d.state == UNLOCKED then None
    else Some(ToU64(ToI64(d.utcSAtEdge) * 1000 + OffsetMs(d, Signed(d, t))))
  }

  class PpsDisc {
    var tolUs: u32
    var lockPulses: u8
    var holdoverUs: u32
    var state: LockState
    var haveEdge: bool
    var lastEdgeUs: u32
    var periodUs: u32
    var periodFrac: u16
    var goodRun: u8
    var glitches: u32
    var pulses: u32
    var utcValid: bool
    var utcSAtEdge: u64

    ghost function Abs(): Disc
      reads this
    {
      Disc(tolUs, lockPulses, holdoverUs, state, haveEdge, lastEdgeUs, periodUs, periodFrac, goodRun, glitches,
           pulses, utcValid, utcSAtEdge)
    }

    constructor (tol: u32, lock: u8, holdover: u32)
      ensures Abs() == Init(tol, lock, holdover)
    {
      tolUs, lockPulses, holdoverUs := tol, if lock != 0 then lock else 1, holdover;
      state, haveEdge, lastEdgeUs, periodUs, periodFrac := UNLOCKED, false, 0, 1_000_000, 0;
      goodRun, glitches, pulses, utcValid, utcSAtEdge := 0, 0, 0, false, 0;
    }

    /** pps_edge. */
    method PpsEdge(t: u32) returns (rc: int)
      modifies this
      ensures Abs() == Edge(old(Abs()), t).0 && rc == if Edge(old(Abs()), t).1 then 1 else 0
    {
      hide Ema, ToU64, ToU32, GoodEdge;
      if !haveEdge {
        haveEdge, lastEdgeUs, pulses := true, t, ToU32(pulses + 1);
        return 1;
      }
      var dt := ToU32(t - lastEdgeUs);
      var tol: int, err: int := tolUs, dt as int - 1_000_000;
      if err > tol || err < -tol {
        var n: int := ToU32(dt as int + 500_000) / 1_000_000;
        var errN: int := dt as int - n * 1_000_000;
        if n < 2 || n > 60 || errN > tol * n || errN < -(tol * n) {
          glitches, goodRun := ToU32(glitches + 1), 0;
          return 0;
        }
        if utcValid { utcSAtEdge := ToU64(utcSAtEdge + n); }
        lastEdgeUs, pulses := t, ToU32(pulses + 1);
        return 1;
      }
      GoodPulse(t, dt);
      return 1;
    }

    /** The tail of pps_edge for a good pulse. */
    method GoodPulse(t: u32, dt: u32)
      modifies this
      ensures Abs() == GoodEdge(old(Abs()), t, dt)
    {
      hide ToU32, ToU64, Ema;
      var cur: nat := periodUs as int * 0x1_0000 + periodFrac as int;
      EmaIs(cur, dt);
      var upd: nat := cur - cur / 8 + dt as int * 0x1_0000 / 8;
      periodUs, periodFrac := ToU32(upd / 0x1_0000), upd % 0x1_0000;
      if utcValid { utcSAtEdge := ToU64(utcSAtEdge + 1); }
      lastEdgeUs, pulses := t, ToU32(pulses + 1);
      if goodRun < 255 { goodRun := goodRun + 1; }
      if goodRun >= lockPulses && utcValid { state := LOCKED; }
    }

    /** pps_set_utc. */
    method PpsSetUtc(utcS: u64)
      modifies this
      ensures Abs() == SetUtc(old(Abs()), utcS)
    {
      utcSAtEdge, utcValid := utcS, haveEdge;
      if utcValid && goodRun >= lockPulses { state := LOCKED; }
    }

    /** pps_tick. */
    method PpsTick(now: u32) returns (s: LockState)
      modifies this
      ensures Abs() == Tick(old(Abs()), now) && s == state
    {
      if state == LOCKED && holdoverUs != 0 && ToU32(now - lastEdgeUs) > holdoverUs {
        state, goodRun := HOLDOVER, 0;
      }
      s := state;
    }
  }

  // -------------------------------------------------------------- exact UTC seconds

  /** The tolerance the discipline needs to tell 60 seconds from 59 and 61. */
  predicate Sharp(d: Disc) { 120 * Tol(d) < 1_000_000 }

  /** `l` microseconds of the unwrapped local clock for `g` true seconds. */
  predicate Genuine(d: Disc, l: int, g: nat) {
    g >= 1 && Abs(l - g * 1_000_000) <= Tol(d) * g
  }

  lemma Rounds(l: int, e: int, g: nat)
    requires l == g * 1_000_000 + e && -500_000 < e < 500_000 && 1 <= g <= 60
    ensures 0 < l < 0x1_0000_0000 - 500_000 && Seconds(l) == g
  {
  }

  lemma NearestSecond(d: Disc, l: int, g: nat)
    requires Sharp(d) && Genuine(d, l, g) && g <= 60
    ensures 0 < l < 0x1_0000_0000 && Seconds(l) == g >= 1
    ensures WithinTol(d, l) <==> g == 1
    ensures g >= 2 ==> MissedPulses(d, l)
  {
    hide Seconds;
    MulMono(60, g, Tol(d));
    var e := l - g * 1_000_000;
    assert -500_000 < e < 500_000;
    Rounds(l, e, g);
  }

  /** A true second boundary up to 60 s after the last is accepted, and advances UTC by those seconds. */
  lemma AcceptedEdge(d: Disc, last: nat, l: nat, g: nat)
    requires Sharp(d) && d.haveEdge && d.lastEdgeUs == ToU32(last) && l >= last
    requires Genuine(d, l - last, g) && g <= 60
    ensures var (e, ok) := Edge(d, ToU32(l));
      && ok && e.haveEdge && e.lastEdgeUs == ToU32(l) && e.tolUs == d.tolUs && e.utcValid == d.utcValid
      && (d.utcValid ==> e.utcSAtEdge == ToU64(d.utcSAtEdge + g))
  {
    hide Seconds, Ema, Genuine, ToU64, ToU32, MissedPulses;
    NearestSecond(d, l - last, g);
    Unwrapped(last, l);
  }

  /** Any accepted edge after the first advances UTC by 1 to 60 seconds. */
  lemma AcceptedAdds(d: Disc, t: u32) returns (n: nat)
    requires d.haveEdge && d.utcValid && Edge(d, t).1
    ensures 1 <= n <= 60 && Edge(d, t).0.utcSAtEdge == ToU64(d.utcSAtEdge + n)
  {
    hide Ema, ToU64, ToU32;
    n := if WithinTol(d, Since(d, t)) then 1 else Seconds(Since(d, t));
  }

  lemma Small64(x: nat)
    requires x < 0x1_0000_0000_0000_0000
    ensures ToU64(x) == x
  {
  }

  /**
   A true second boundary up to 60 s after the last one is always accepted and advances UTC by
   exactly the seconds elapsed; after a longer gap an accepted one never does.
   */
  lemma GenuineEdge(d: Disc, last: nat, l: nat, g: nat)
    requires Sharp(d) && d.haveEdge && d.utcValid && d.lastEdgeUs == ToU32(last) && l >= last
    requires Genuine(d, l - last, g) && d.utcSAtEdge + g < 0x8000_0000_0000_0000
    ensures g <= 60 ==> Edge(d, ToU32(l)).1
    ensures Edge(d, ToU32(l)).1 ==> (Edge(d, ToU32(l)).0.utcSAtEdge == d.utcSAtEdge + g <==> g <= 60)
  {
    hide Edge, Genuine, ToU64, ToU32;
    Small64(d.utcSAtEdge + g);
    if g <= 60 {
      AcceptedEdge(d, last, l, g);
    } else if Edge(d, ToU32(l)).1 {
      var n := AcceptedAdds(d, ToU32(l));
      Small64(d.utcSAtEdge + n);
    }
  }

  lemma Unwrapped(last: nat, l: nat)
    requires last <= l < last + 0x1_0000_0000
    ensures ToU32(ToU32(l) - ToU32(last)) == l - last
  {
    var laps := l / 0x1_0000_0000 - last / 0x1_0000_0000;
    assert l - last == laps * 0x1_0000_0000 + (ToU32(l) - ToU32(last));
    assert laps == 0 || laps == 1;
  }

  /** After 4300 s without pulses the counter has wrapped and the edge passes for 5 s. */
  lemma LongGapMisread()
    ensures var d := SetUtc(Edge(Init(8000, 1, 0), 0).0, 0);
      Sharp(d) && Genuine(d, 4_300_000_000, 4300)
      && Edge(d, ToU32(4_300_000_000)).1 && Edge(d, ToU32(4_300_000_000)).0.utcSAtEdge == 5
  {
    var d := SetUtc(Edge(Init(8000, 1, 0), 0).0, 0);
    assert Since(d, ToU32(4_300_000_000)) == 5_032_704;
    assert Seconds(5_032_704) == 5;
  }

  /** What happens at the antenna and on the local clock, both unwrapped. */
  datatype Input =
    | Pulse(l: nat, second: Option<nat>)   // None: not a second boundary
    | GnssTime                             // the receiver names the last edge's second
    | TickAt(l: nat)

  /** The discipline together with the truth about its last accepted edge. */
  datatype World = World(d: Disc, last: nat, second: nat)

  function Do(w: World, i: Input): World {
    match i
    case Pulse(l, second) =>
      var r := Edge(w.d, ToU32(l));
      if !r.1 then w.(d := r.0) else World(r.0, l, if second.Some? then second.value else w.second)
    case GnssTime => w.(d := SetUtc(w.d, ToU64(w.second)))
    case TickAt(l) => w.(d := Tick(w.d, ToU32(l)))
  }

  /** Glitches may come at any time if they are rejected; real pulses come within 60 s. */
  predicate Plausible(w: World, i: Input) {
    i.Pulse? && Edge(w.d, ToU32(i.l)).1 ==>
      && i.second.Some?
      && (w.d.haveEdge ==>
            && i.l >= w.last && i.second.value > w.second && i.second.value - w.second <= 60
            && Genuine(w.d, i.l - w.last, i.second.value - w.second))
  }

  predicate Exact(w: World) {
    && (w.d.haveEdge ==> w.d.lastEdgeUs == ToU32(w.last))
    && (w.d.utcValid ==> w.d.haveEdge && w.d.utcSAtEdge == ToU64(w.second))
  }

  lemma OtherEdges(d: Disc, t: u32)
    ensures !d.haveEdge ==>
              Edge(d, t) == (d.(haveEdge := true, lastEdgeUs := t, pulses := ToU32(d.pulses + 1)), true)
    ensures !Edge(d, t).1 ==> Edge(d, t).0 == d.(glitches := ToU32(d.glitches + 1), goodRun := 0)
  {
    hide Ema, ToU64, ToU32, Seconds;
  }

  lemma Carry64(x: nat, g: nat)
    ensures ToU64(ToU64(x) + g) == ToU64(x + g)
  {
  }

  lemma StepExact(w: World, i: Input)
    requires Sharp(w.d) && Exact(w) && Plausible(w, i)
    ensures Exact(Do(w, i)) && Sharp(Do(w, i).d)
  {
    hide Edge, Genuine, ToU32, ToU64;
    if i.Pulse? {
      OtherEdges(w.d, ToU32(i.l));
      if w.d.haveEdge && Edge(w.d, ToU32(i.l)).1 {
        var g := i.second.value - w.second;
        AcceptedEdge(w.d, w.last, i.l, g);
        Carry64(w.second, g);
      }
    }
  }

  function Run(w: World, inputs: seq<Input>): World
    decreases |inputs|
  {
    if inputs == [] then w else Do(Run(w, inputs[..|inputs| - 1]), inputs[|inputs| - 1])
  }

  ghost predicate AllPlausible(w: World, inputs: seq<Input>) {
    forall k :: 0 <= k < |inputs| ==> Plausible(Run(w, inputs[..k]), inputs[k])
  }

  /**
   Over any run, across missed pulses, rejected glitches and wraps of the 32-bit clock, the
   UTC second kept is the true second of the last accepted edge.
   */
  lemma {:induction false} UtcStaysExact(w: World, inputs: seq<Input>)
    requires Sharp(w.d) && Exact(w) && AllPlausible(w, inputs)
    ensures Exact(Run(w, inputs)) && Sharp(Run(w, inputs).d)
    decreases |inputs|
  {
    hide Do, Exact, Sharp, Plausible;
    if inputs != [] {
      var n := |inputs| - 1;
      forall k | 0 <= k < n ensures Plausible(Run(w, inputs[..n][..k]), inputs[..n][k]) {
        assert inputs[..n][..k] == inputs[..k];
      }
      UtcStaysExact(w, inputs[..n]);
      StepExact(Run(w, inputs[..n]), inputs[n]);
    }
  }

  // ------------------------------------------------------------------ period filter

  /** Nominal plus or minus the tolerance, in the filter's units. */
  predicate InBand(d: Disc) {
    Tol(d) < 1_000_000 && (1_000_000 - Tol(d)) * 0x1_0000 <= Q16(d) <= (1_000_000 + Tol(d)) * 0x1_0000
  }

  lemma EmaInBand(q: nat, dt: nat, lo: nat, hi: nat)
    requires lo * 0x1_0000 <= q <= hi * 0x1_0000 && lo <= dt <= hi
    ensures lo * 0x1_0000 <= Ema(q, dt) <= hi * 0x1_0000
  {
  }

  lemma Rejoin(upd: nat)
    requires upd < 0x1_0000_0000_0000
    ensures ToU32(upd / 0x1_0000) * 0x1_0000 + upd % 0x1_0000 == upd
  {
  }

  lemma EdgeInBand(d: Disc, t: u32)
    requires InBand(d)
    ensures InBand(Edge(d, t).0)
    ensures d.haveEdge && WithinTol(d, Since(d, t)) ==> Q16(Edge(d, t).0) == Ema(Q16(d), Since(d, t))
  {
    hide Ema, Since, ToU32, ToU64;
    var dt := Since(d, t);
    if d.haveEdge && WithinTol(d, dt) {
      EmaInBand(Q16(d), dt, 1_000_000 - Tol(d), 1_000_000 + Tol(d));
      Rejoin(Ema(Q16(d), dt));
    }
  }

  /** The estimate never leaves the band, whatever the inputs. */
  lemma {:induction false} PeriodStaysInBand(w: World, inputs: seq<Input>)
    requires InBand(w.d)
    ensures InBand(Run(w, inputs).d) && Run(w, inputs).d.tolUs == w.d.tolUs
    decreases |inputs|
  {
    hide Edge, InBand;
    if inputs != [] {
      var n := |inputs| - 1;
      PeriodStaysInBand(w, inputs[..n]);
      StepInBand(Run(w, inputs[..n]), inputs[n]);
    }
  }

  lemma StepInBand(w: World, i: Input)
    requires InBand(w.d)
    ensures InBand(Do(w, i).d) && Do(w, i).d.tolUs == w.d.tolUs
  {
    if i.Pulse? { EdgeInBand(w.d, ToU32(i.l)); }
  }

  /** Under a constant interval the error shrinks at every pulse until it is 0..7 units. */
  lemma ErrorShrinks(q: nat, dt: nat)
    ensures var e, e' := q - dt * 0x1_0000, Ema(q, dt) - dt * 0x1_0000;
      && e' == e - e / 8
      && (0 <= e <= 7 ==> e' == e)
      && (e > 7 ==> 0 <= e' < e)
      && (e < 0 ==> e < e' <= 0)
  {
  }

  function EmaN(q: nat, dt: nat, n: nat): nat {
    if n == 0 then q else Ema(EmaN(q, dt, n - 1), dt)
  }

  lemma {:induction false} ErrorAfter(q: nat, dt: nat, n: nat)
    ensures var e, e' := q - dt * 0x1_0000, EmaN(q, dt, n) - dt * 0x1_0000;
      0 <= e' <= 7 || (Abs(e') + n <= Abs(e) && (e < 0 <==> e' < 0))
  {
    if n > 0 {
      ErrorAfter(q, dt, n - 1);
      ErrorShrinks(EmaN(q, dt, n - 1), dt);
    }
  }

  lemma EmaSettles(q: nat, dt: nat, n: nat)
    requires n > Abs(q - dt * 0x1_0000)
    ensures 0 <= EmaN(q, dt, n) - dt * 0x1_0000 <= 7
  {
    ErrorAfter(q, dt, n);
  }

  function Pulses(inputs: seq<Input>): nat
    decreases |inputs|
  {
    if inputs == [] then 0
    else Pulses(inputs[..|inputs| - 1]) + if inputs[|inputs| - 1].Pulse? then 1 else 0
  }

  /** Every pulse comes `dt` us after the last accepted one; the rest may come at any time. */
  ghost predicate Steady(w: World, inputs: seq<Input>, dt: nat) {
    forall k :: 0 <= k < |inputs| && inputs[k].Pulse? ==> inputs[k].l == Run(w, inputs[..k]).last + dt
  }

  /** What a steady run keeps. */
  predicate Ticking(w: World, dt: nat) {
    InBand(w.d) && w.d.haveEdge && w.d.lastEdgeUs == ToU32(w.last) && WithinTol(w.d, dt)
  }

  lemma SteadyStep(w: World, i: Input, dt: nat)
    requires Ticking(w, dt) && (i.Pulse? ==> i.l == w.last + dt)
    ensures Ticking(Do(w, i), dt)
    ensures Q16(Do(w, i).d) == if i.Pulse? then Ema(Q16(w.d), dt) else Q16(w.d)
  {
    hide Ema, ToU32, ToU64;
    if i.Pulse? {
      Unwrapped(w.last, i.l);
      assert Since(w.d, ToU32(i.l)) == dt;
      EdgeInBand(w.d, ToU32(i.l));
    }
  }

  lemma {:induction false} SteadyRun(w: World, inputs: seq<Input>, dt: nat)
    requires Ticking(w, dt) && Steady(w, inputs, dt)
    ensures Ticking(Run(w, inputs), dt)
    ensures Q16(Run(w, inputs).d) == EmaN(Q16(w.d), dt, Pulses(inputs))
    decreases |inputs|
  {
    hide Ticking, Do, Ema, Q16;
    if inputs != [] {
      var n := |inputs| - 1;
      forall k | 0 <= k < n && inputs[..n][k].Pulse? ensures inputs[..n][k].l == Run(w, inputs[..n][..k]).last + dt {
        assert inputs[..n][..k] == inputs[..k];
      }
      SteadyRun(w, inputs[..n], dt);
      SteadyStep(Run(w, inputs[..n]), inputs[n], dt);
    }
  }

  /**
   So over any run in which the pulses come a constant interval apart, whatever comes between them,
   the period settles at 0 to 7 units of 1/65536 us above that interval.
   */
  lemma FilterConverges(w: World, inputs: seq<Input>, dt: nat)
    requires Ticking(w, dt) && Steady(w, inputs, dt)
    requires Pulses(inputs) > Abs(Q16(w.d) - dt * 0x1_0000)
    ensures 0 <= Q16(Run(w, inputs).d) - dt * 0x1_0000 <= 7
  {
    SteadyRun(w, inputs, dt);
    EmaSettles(Q16(w.d), dt, Pulses(inputs));
  }

  // ------------------------------------------------------------------ local to UTC

  lemma DivMono(a: int, b: int, q: int)
    requires 0 < q && a <= b
    ensures TruncDiv(a, q) <= TruncDiv(b, q)
  {
    hide TruncDiv;
    TruncSign(a, q);
    TruncSign(b, q);
    if a >= 0 {
      DivLe(a, b, q);
    } else if b < 0 {
      DivLe(-b, -a, q);
    }
  }

  lemma TruncSign(a: int, q: int)
    requires 0 < q
    ensures a >= 0 ==> TruncDiv(a, q) == a / q >= 0
    ensures a < 0 ==> TruncDiv(a, q) == -(-a / q) <= 0
  {
    DivLe(0, Abs(a), q);
    Divided(0, q, 0, 0);
  }

  lemma DivLe(a: nat, b: nat, q: int)
    requires 0 < q && a <= b
    ensures a / q <= b / q
  {
    MulMono(a / q, b / q + 1, q);
    assert a == (a / q) * q + a % q && b == (b / q) * q + b % q;
  }

  lemma OffsetBound(d: Disc, dt: int)
    requires Sharp(d) && InBand(d) && -0x8000_0000 <= dt < 0x8000_0000
    ensures -2_200_000 <= OffsetMs(d, dt) <= 2_200_000
  {
    TruncSmall(dt * 65_536_000, Q16(d));
  }

  lemma TruncSmall(x: int, q: int)
    requires q >= 64_989_888_512 && Abs(x) <= 140_737_488_355_328_000
    ensures -2_200_000 <= TruncDiv(x, q) <= 2_200_000
  {
    Quotient(Abs(x), q, 2_200_001);
  }

  lemma Quotient(x: nat, q: int, k: int)
    requires q > 0 && x < k * q
    ensures x / q < k
  {
    MulMono(x / q, k, q);
    assert x == (x / q) * q + x % q;
  }

  /** The conversion in exact arithmetic, as long as that fits 63 bits. */
  lemma LocalIs(d: Disc, t: u32)
    requires Q16(d) > 0 && d.utcValid && d.state != UNLOCKED && d.utcSAtEdge < 0x20_0000_0000_0000
    requires 0 <= d.utcSAtEdge * 1000 + OffsetMs(d, Signed(d, t)) < 0x8000_0000_0000_0000
    ensures LocalToUtcMs(d, t) == Some(d.utcSAtEdge * 1000 + OffsetMs(d, Signed(d, t)))
  {
    hide OffsetMs, Signed, Q16;
  }

  /** Between edges the conversion is monotone and nothing in it overflows. */
  lemma ConversionMonotone(d: Disc, t: u32, t': u32)
    requires Sharp(d) && InBand(d) && d.utcValid && d.state != UNLOCKED
    requires 3000 <= d.utcSAtEdge < 0x20_0000_0000_0000 && Signed(d, t) <= Signed(d, t')
    ensures LocalToUtcMs(d, t).Some? && LocalToUtcMs(d, t').Some?
    ensures LocalToUtcMs(d, t).value == d.utcSAtEdge * 1000 + OffsetMs(d, Signed(d, t))
    ensures LocalToUtcMs(d, t).value <= LocalToUtcMs(d, t').value
    ensures Abs(Signed(d, t) as int * 65_536_000) < 0x200_0000_0000_0000
  {
    hide Signed, LocalToUtcMs;
    var a: int, b: int := Signed(d, t), Signed(d, t');
    DivMono(a * 65_536_000, b * 65_536_000, Q16(d));
    OffsetBound(d, a);
    OffsetBound(d, b);
    LocalIs(d, t);
    LocalIs(d, t');
  }

  function CeilDiv(a: nat, b: int): nat
    requires b > 0
  {
    (a + b - 1) / b
  }

  lemma CeilDivIs(a: nat, b: int)
    requires b > 0
    ensures b * CeilDiv(a, b) >= a
  {
    var k := CeilDiv(a, b);
    assert k * b > a + b - 1 - b;
  }

  /** The floor of 1000 * dt / p, for an interval and a period both within the band. */
  lemma RatioAbove(x: nat, q: int, lo: int, hi: int, tol: nat, k: nat)
    requires lo == 1_000_000 - tol > 0 && hi == 1_000_000 + tol && lo * k >= 2000 * tol
    requires x <= hi * 65_536_000 && lo * 0x1_0000 <= q
    ensures x / q <= 1000 + k
  {
    var m := 1001 + k;
    MulMono(q, lo * 0x1_0000, m);
    Scaled(m, lo);
    Split(m, 1001, k, lo);
    Quotient(x, q, m);
  }

  lemma RatioBelow(x: nat, q: int, lo: int, hi: int, tol: nat, k: nat)
    requires lo == 1_000_000 - tol > 0 && hi == 1_000_000 + tol && lo * k >= 2000 * tol
    requires lo * 65_536_000 <= x && 0 < q <= hi * 0x1_0000
    ensures x / q >= 1000 - k
  {
    if k <= 1000 {
      var m := 1000 - k;
      MulMono(hi * 0x1_0000, q, m);
      Scaled(m, hi);
      MulMono(hi, lo, k);
      Split(1000, m, k, hi);
      AtLeast(x, q, m);
    }
  }

  lemma Scaled(a: int, b: int)
    ensures (b * 0x1_0000) * a == 0x1_0000 * (a * b)
  {
  }

  lemma Split(n: int, a: int, k: int, b: int)
    requires n == a + k
    ensures n * b == a * b + b * k
  {
  }

  lemma AtLeast(x: nat, q: int, k: nat)
    requires q > 0 && x >= k * q
    ensures x / q >= k
  {
    MulMono(k, x / q + 1, q);
    assert x == (x / q) * q + x % q;
  }

  lemma NoOffsetAtEdge(d: Disc)
    requires Q16(d) > 0
    ensures OffsetMs(d, Signed(d, d.lastEdgeUs)) == 0
  {
    Quotient(0, Q16(d), 1);
  }

  lemma SignedSmall(d: Disc, t: u32)
    requires Since(d, t) < 0x8000_0000
    ensures Signed(d, t) == Since(d, t)
  {
  }

  /** What the old estimate makes of the instant of a good edge, beside the second it is. */
  lemma OffsetAtGoodEdge(d: Disc, t: u32)
    requires InBand(d) && d.haveEdge && WithinTol(d, Since(d, t))
    ensures Q16(Edge(d, t).0) > 0 && OffsetMs(Edge(d, t).0, Signed(Edge(d, t).0, t)) == 0
    ensures Abs(1000 - OffsetMs(d, Signed(d, t))) <= CeilDiv(2000 * Tol(d), 1_000_000 - Tol(d))
    ensures 0 <= OffsetMs(d, Signed(d, t)) < 0x1_0000_0000
  {
    hide Ema, Since, Signed, Q16;
    EdgeInBand(d, t);
    NoOffsetAtEdge(Edge(d, t).0);
    SignedSmall(d, t);
    var dt: int, lo := Since(d, t), 1_000_000 - Tol(d);
    CeilDivIs(2000 * Tol(d), lo);
    var k := CeilDiv(2000 * Tol(d), lo);
    RatioAbove(dt * 65_536_000, Q16(d), lo, 1_000_000 + Tol(d), Tol(d), k);
    RatioBelow(dt * 65_536_000, Q16(d), lo, 1_000_000 + Tol(d), Tol(d), k);
    DivLe(0, dt * 65_536_000, Q16(d));
    Divided(0, Q16(d), 0, 0);
    CeilDivAtMost(2000 * Tol(d), lo);
  }

  lemma CeilDivAtMost(a: nat, b: int)
    requires b > 0
    ensures CeilDiv(a, b) <= a
  {
    var k := CeilDiv(a, b);
    assert a + b - 1 == k * b + (a + b - 1) % b;
    if a == 0 { Divided(b - 1, b, 0, b - 1); }
    MulMono(b, 1, k - 1);
    Distribute(k, -1, b);
    MulMono(k, 0, b);
  }

  /**
   The step of UTC at a good edge: just after it pps_local_to_utc_ms gives the whole second, and what
   it gave just before differs by at most ceil(2000 tol / (nominal - tol)) milliseconds.
   */
  lemma StepAtGoodEdge(d: Disc, t: u32)
    requires InBand(d) && d.haveEdge && WithinTol(d, Since(d, t))
    requires d.utcValid && d.state != UNLOCKED && d.utcSAtEdge < 0x1F_FFFF_FFFF_FFFF
    ensures var e := Edge(d, t).0;
      && Q16(e) > 0 && LocalToUtcMs(e, t) == Some((d.utcSAtEdge + 1) * 1000)
      && LocalToUtcMs(d, t).Some?
      && Abs(LocalToUtcMs(e, t).value - LocalToUtcMs(d, t).value) <= CeilDiv(2000 * Tol(d), 1_000_000 - Tol(d))
  {
    hide Ema, Since, Signed, Q16, OffsetMs, ToU32, ToU64, Edge, LocalToUtcMs;
    OffsetAtGoodEdge(d, t);
    Small64(d.utcSAtEdge + 1);
    GoodEdgeFields(d, t);
    LocalIs(d, t);
    LocalIs(Edge(d, t).0, t);
  }

  lemma GoodEdgeFields(d: Disc, t: u32)
    requires d.haveEdge && WithinTol(d, Since(d, t)) && d.utcValid && d.state != UNLOCKED
    ensures var e := Edge(d, t).0;
      e.utcValid && e.state != UNLOCKED && e.utcSAtEdge == ToU64(d.utcSAtEdge + 1)
  {
    hide Ema, Since, ToU32, ToU64;
  }
}
