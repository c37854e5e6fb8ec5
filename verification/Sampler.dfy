/**
 The acquisition sequencer (sampler.c): bring a transducer's rail up, wait for it to settle,
 read, release, and fill the pod's frame. The clock, the rail backend and the driver are
 injected; a `World` holds their answers.
 */
module Sampler {
  import opened Bytes
  import opened Errno
  import opened Params
  import opened Power

  const NO_DOMAIN: int := -1

  const VALID: bv8 := 1
  const FAULT: bv8 := 4
  const STALE: bv8 := 8
  const NOPOWER: bv8 := 16

  datatype Sample = Sample(value: i32, param: u8, flags: bv8)

  type ErrorCode = x: int | x < 0 witness -1
  type Samples = s: seq<Sample> | |s| <= 4

  /** What the driver answers: an error, or at most as many samples as the buffer holds. */
  datatype Reading = Failed(code: ErrorCode) | Got(samples: Samples)

  datatype Desc = Desc(domain: int, params: seq<u8>)

  /** Indexed by parameter number; an entry without VALID is masked. */
  datatype Frame = Frame(value: seq<i32>, flags: seq<bv8>, cycle: u32)

  /** Milliseconds by which a sleep moves the clock: some, and not a whole turn of 32 bits. */
  type Lapse = x: nat | 0 < x <= 0xFFFF_0000 witness 1

  /** The answers of the n-th call to each injected function. */
  datatype World = World(lapse: (nat, u32) -> Lapse, busy: nat -> nat, backend: nat -> int, reading: nat -> Reading)

  /** One call of a driver: whose, how the controller stood and by which calls it came there, and the true time. */
  datatype Access = Access(desc: Desc, ctl: Ctl, calls: seq<Call>, when: nat, got: Reading)

  /**
   Everything that moves: `steps` counts the calls into the world, `accesses` lists those of a driver
   and `calls` those of the rail controller, with the true time.
   */
  datatype State = State(ctl: Ctl, now: nat, steps: nat, frame: Frame, accesses: seq<Access>, calls: seq<Call>)

  predicate Marked(fl: bv8, bit: bv8) { fl & bit != 0 }

  predicate WellFormed(s: State) {
    Shaped(s.ctl) && |s.frame.value| == |s.frame.flags| == PARAMS + 1
  }

  predicate Wired(d: Desc, c: Ctl) {
    NO_DOMAIN <= d.domain < |c.st|
  }

  predicate AllWired(sel: seq<Desc>, c: Ctl) {
    forall i :: 0 <= i < |sel| ==> Wired(sel[i], c)
  }

  predicate Reports(d: Desc, p: u8) { Insitu(p) && p in d.params }

  /** The descriptor's parameters given the flags `fl`, the others left. */
  function Masked(f: Frame, d: Desc, fl: bv8): (r: Frame)
    ensures |r.flags| == |f.flags| && r.value == f.value && r.cycle == f.cycle
  {
    f.(flags := seq(|f.flags|, p requires 0 <= p < |f.flags| => if p < 256 && Reports(d, p) then fl else f.flags[p]))
  }

  predicate Usable(d: Desc, x: Sample) { Reports(d, x.param) && Marked(x.flags, VALID) }

  function Store(f: Frame, d: Desc, x: Sample): (r: Frame)
    requires |f.value| == |f.flags| == PARAMS + 1
    ensures |r.value| == |r.flags| == PARAMS + 1 && r.cycle == f.cycle
  {
    if Usable(d, x)
    then f.(value := f.value[x.param := x.value], flags := f.flags[x.param := (x.flags & !STALE) | VALID])
    else f
  }

  function StoreAll(f: Frame, d: Desc, xs: seq<Sample>): (r: Frame)
    requires |f.value| == |f.flags| == PARAMS + 1
    ensures |r.value| == |r.flags| == PARAMS + 1 && r.cycle == f.cycle
    decreases |xs|
  {
    if xs == [] then f else Store(StoreAll(f, d, xs[..|xs| - 1]), d, xs[|xs| - 1])
  }

  /** Bounds the rounds of the settle loop still to come. */
  function Patience(c: Ctl, d: nat, now: u32): nat
    requires Shaped(c) && d < |c.st|
  {
    match c.st[d].state
    case OFF => 0x1_0000
    case SETTLING => SettleRemaining(c, d, now)
    case ON => 0
  }

  lemma ElapsedMoves(now: nat, then_: u32, dt: Lapse)
    requires Elapsed(ToU32(now), then_) < 0x1_0000
    ensures Elapsed(ToU32(now + dt), then_) == Elapsed(ToU32(now), then_) + dt
  {
    hide ToU32;
    WrapSum(now, -(then_ as int));
    WrapSum(now + dt, -(then_ as int));
    WrapSum(now - then_, dt);
    Unwrapped(ToU32(now - then_) + dt);
  }

  lemma Unwrapped(a: int)
    requires 0 <= a < 0x1_0000_0000
    ensures ToU32(a) == a
  {
  }

  lemma RoundShrinks(c: Ctl, d: nat, now: nat, dt: Lapse, rc: int)
    requires Shaped(c) && d < |c.st| && !IsReady(c, d, ToU32(now))
    ensures var c' := TickDomain(c, d, ToU32(now + dt), rc);
      c'.st[d].state != OFF && !IsReady(c', d, ToU32(now + dt)) ==>
      Patience(c', d, ToU32(now + dt)) < Patience(c, d, ToU32(now))
  {
    hide ToU32, LoadOf, Elapsed;
    if c.st[d].state == SETTLING { ElapsedMoves(now, c.st[d].tOn, dt); }
  }

  /** One round of the settle loop: sleep for the time remaining, then tick the rail. */
  function Round(w: World, s: State, d: nat): (r: State)
    requires WellFormed(s) && d < |s.ctl.st|
    ensures WellFormed(r) && r.ctl.cfg == s.ctl.cfg && r.ctl.budgetMa == s.ctl.budgetMa
    ensures r.frame == s.frame && r.accesses == s.accesses
    ensures var rem := SettleRemaining(s.ctl, d, ToU32(s.now));
      var gone := w.lapse(s.steps, if rem != 0 then rem else 1);
      r.now == s.now + gone && r.ctl == TickDomain(s.ctl, d, ToU32(r.now), w.backend(s.steps))
  {
    hide IsReady, Elapsed, TickDomain, ToU32;
    var rem := SettleRemaining(s.ctl, d, ToU32(s.now));
    var now := s.now + w.lapse(s.steps, if rem != 0 then rem else 1);
    s.(now := now, steps := s.steps + 1, ctl := TickDomain(s.ctl, d, ToU32(now), w.backend(s.steps)),
       calls := s.calls + [TickDomainAt(d, now, w.backend(s.steps))])
  }

  predicate Ready(s: State, d: nat)
    requires WellFormed(s)
  {
    IsReady(s.ctl, d, ToU32(s.now))
  }

  lemma RoundsEnd(w: World, s: State, d: nat)
    requires WellFormed(s) && d < |s.ctl.st| && !Ready(s, d)
    ensures var r := Round(w, s, d);
      r.ctl.st[d].state != OFF && !Ready(r, d) ==>
      Patience(r.ctl, d, ToU32(r.now)) < Patience(s.ctl, d, ToU32(s.now))
  {
    hide TickDomain, ToU32, Elapsed, SettleRemaining;
    var rem := SettleRemaining(s.ctl, d, ToU32(s.now));
    RoundShrinks(s.ctl, d, s.now, w.lapse(s.steps, if rem != 0 then rem else 1), w.backend(s.steps));
  }

  /** The settle loop: rounds until the rail is ready (true) or down (false). */
  function Wait(w: World, s: State, d: nat): (r: (State, bool))
    requires WellFormed(s) && d < |s.ctl.st|
    ensures WellFormed(r.0) && r.0.ctl.cfg == s.ctl.cfg && r.0.ctl.budgetMa == s.ctl.budgetMa
    ensures r.0.frame == s.frame && r.0.accesses == s.accesses
    decreases if Ready(s, d) then 0 else 1, Patience(s.ctl, d, ToU32(s.now))
  {
    hide Ready, Round, Patience;
    if Ready(s, d) then (s, true)
    else
      RoundsEnd(w, s, d);
      var t := Round(w, s, d);
      if t.ctl.st[d].state == OFF then (t, false) else Wait(w, t, d)
  }

  predicate Managed(c: Ctl, d: Desc)
    requires Shaped(c) && Wired(d, c)
  {
    d.domain != NO_DOMAIN && c.cfg[d.domain].policy != PERIODIC
  }

  /** The rail asked for, if it is managed per reading. */
  function Granted(w: World, s: State, d: Desc): (r: (State, int))
    requires WellFormed(s) && Wired(d, s.ctl) && d.domain != NO_DOMAIN
    ensures WellFormed(r.0) && r.0.ctl.cfg == s.ctl.cfg && r.0.ctl.budgetMa == s.ctl.budgetMa
    ensures r.0.frame == s.frame && r.0.accesses == s.accesses && r.0.now == s.now
  {
    hide Acquire, ToU32;
    if Managed(s.ctl, d) then
      var a := Acquire(s.ctl, d.domain, ToU32(s.now), w.backend(s.steps));
      (s.(ctl := a.0, steps := s.steps + 1,
          calls := s.calls + [AcquireAt(d.domain, s.now, w.backend(s.steps))]), a.1)
    else (s.(steps := s.steps + 1), 0)
  }

  /** Up to the driver's call: the rail acquired and settled, or the error code. */
  function BringUp(w: World, s: State, d: Desc): (r: (State, int))
    requires WellFormed(s) && Wired(d, s.ctl)
    ensures WellFormed(r.0) && r.0.ctl.cfg == s.ctl.cfg && r.0.ctl.budgetMa == s.ctl.budgetMa
    ensures r.0.accesses == s.accesses
  {
    hide IsReady, Elapsed, Acquire, ToU32;
    var m := s.(frame := Masked(s.frame, d, 0));
    if d.domain == NO_DOMAIN then (m, 0)
    else
      var g := Granted(w, m, d);
      if g.1 != 0 then (g.0.(frame := Masked(m.frame, d, NOPOWER)), g.1)
      else
        var up := Wait(w, g.0, d.domain);
        if up.1 then (up.0, 0) else (up.0.(frame := Masked(up.0.frame, d, NOPOWER)), -ETIMEDOUT)
  }

  /** The driver's call and what follows it. */
  function ReadOut(w: World, s: State, d: Desc): (r: (State, int))
    requires WellFormed(s) && Wired(d, s.ctl)
    ensures WellFormed(r.0) && r.0.ctl.cfg == s.ctl.cfg && r.0.ctl.budgetMa == s.ctl.budgetMa
  {
    hide Release, ToU32;
    var got := w.reading(s.steps);
    var c := if Managed(s.ctl, d) then Release(s.ctl, d.domain).0 else s.ctl;
    var t := s.(ctl := c, now := s.now + w.busy(s.steps), steps := s.steps + 1,
                calls := if Managed(s.ctl, d) then s.calls + [ReleaseAt(d.domain)] else s.calls,
                accesses := s.accesses + [Access(d, s.ctl, s.calls, s.now, got)]);
    match got
    case Failed(code) => (t.(frame := Masked(s.frame, d, FAULT)), code)
    case Got(xs) => (t.(frame := StoreAll(s.frame, d, xs)), |xs|)
  }

  function ReadDesc(w: World, s: State, d: Desc): (r: (State, int))
    requires WellFormed(s) && Wired(d, s.ctl)
    ensures WellFormed(r.0) && r.0.ctl.cfg == s.ctl.cfg && r.0.ctl.budgetMa == s.ctl.budgetMa
  {
    var up := BringUp(w, s, d);
    if up.1 != 0 then up else ReadOut(w, up.0, d)
  }

  /** A valid flag octet carried over is marked stale. */
  function Carried(concerned: bool, fl: bv8): bv8 {
    if concerned && Marked(fl, VALID) then fl | STALE else fl
  }

  /** A reading on a periodic rail carried over: its valid entries become stale. */
  function Staled(f: Frame, d: Desc): (r: Frame)
    ensures |r.flags| == |f.flags| && r.value == f.value && r.cycle == f.cycle
  {
    f.(flags := seq(|f.flags|, p requires 0 <= p < |f.flags| => Carried(p < 256 && Reports(d, p), f.flags[p])))
  }

  predicate OnPeriodic(c: Ctl, d: Desc)
    requires Shaped(c) && Wired(d, c)
  {
    d.domain != NO_DOMAIN && c.cfg[d.domain].policy == PERIODIC
  }

  /** The walk of one cycle over the first descriptors, and its count of errors. */
  function Walk(w: World, s: State, sel: seq<Desc>): (r: (State, nat))
    requires WellFormed(s) && AllWired(sel, s.ctl)
    ensures WellFormed(r.0) && r.0.ctl.cfg == s.ctl.cfg && r.0.ctl.budgetMa == s.ctl.budgetMa
    decreases |sel|
  {
    hide ReadDesc, Staled;
    if sel == [] then (s, 0)
    else
      var d := sel[|sel| - 1];
      var before := Walk(w, s, sel[..|sel| - 1]);
      if OnPeriodic(before.0.ctl, d) then (before.0.(frame := Staled(before.0.frame, d)), before.1)
      else
        var r := ReadDesc(w, before.0, d);
        (r.0, if r.1 < 0 then before.1 + 1 else before.1)
  }

  function Cycle(w: World, s: State, sel: seq<Desc>): (r: (State, nat))
    requires WellFormed(s) && AllWired(sel, s.ctl)
    ensures WellFormed(r.0) && r.0.ctl.cfg == s.ctl.cfg && r.0.ctl.budgetMa == s.ctl.budgetMa
  {
    Walk(w, s.(frame := s.frame.(cycle := ToU32(s.frame.cycle + 1))), sel)
  }

  /** The readings taken when a periodic rail becomes ready. */
  function OnReady(w: World, s: State, sel: seq<Desc>, dom: nat): (r: State)
    requires WellFormed(s) && AllWired(sel, s.ctl)
    ensures WellFormed(r) && r.ctl.cfg == s.ctl.cfg && r.ctl.budgetMa == s.ctl.budgetMa
    decreases |sel|
  {
    hide ReadDesc;
    if sel == [] then s
    else
      var before := OnReady(w, s, sel[..|sel| - 1], dom);
      if sel[|sel| - 1].domain == dom then ReadDesc(w, before, sel[|sel| - 1]).0 else before
  }

  // ---------------------------------------------------------------------- the code

  class Acquisition {
    const world: World
    const sel: seq<Desc>
    const pwr: PwrCtl
    const value: array<i32>
    const flags: array<bv8>
    var cycle: u32
    var now: nat
    var steps: nat
    ghost var accesses: seq<Access>
    ghost var calls: seq<Call>

    ghost predicate Valid()
      reads this, pwr, pwr.st, pwr.lit, value, flags
    {
      && pwr.Valid() && WellFormed(Abs()) && AllWired(sel, pwr.Abs())
      && (flags as object) != value && (flags as object) != pwr.lit && (flags as object) != pwr.st
    }

    ghost function Abs(): State
      reads this, pwr, pwr.st, pwr.lit, value, flags
    {
      State(pwr.Abs(), now, steps, Frame(value[..], flags[..], cycle), accesses, calls)
    }

    /** sampler_init clears the frame. */
    constructor (world: World, sel: seq<Desc>, pwr: PwrCtl, now: nat)
      requires pwr.Valid() && AllWired(sel, pwr.Abs())
      ensures Valid() && this.pwr == pwr && this.sel == sel && this.world == world
      ensures Abs() == Start(pwr.Abs(), now)
      ensures fresh(value) && fresh(flags)
    {
      this.world, this.sel, this.pwr := world, sel, pwr;
      value := new i32[47](_ => 0);
      flags := new bv8[47](_ => 0);
      cycle, this.now, steps, accesses, calls := 0, now, 0, [], [];
      new;
      assert Abs().frame == Start(pwr.Abs(), now).frame;
    }

    /** mask_params. */
    method MaskParams(d: Desc, fl: bv8)
      requires Valid()
      modifies flags
      ensures Valid() && Abs() == old(Abs()).(frame := Masked(old(Abs().frame), d, fl))
    {
      var i := 0;
      while i < |d.params|
        invariant 0 <= i <= |d.params|
        invariant forall p: u8 :: p <= 46 ==> flags[p] == if Insitu(p) && p in d.params[..i] then fl else old(flags[p])
      {
        var p := d.params[i];
        assert d.params[..i + 1] == d.params[..i] + [p];
        if Insitu(p) { flags[p] := fl; }
        i := i + 1;
      }
      assert d.params[..i] == d.params;
      assert pwr.Abs() == old(pwr.Abs());
      assert flags[..] == Masked(old(Abs().frame), d, fl).flags;
      assert Abs().frame == Masked(old(Abs().frame), d, fl);
    }

    /** One round of the settle loop of sampler_read_desc. */
    method SleepAndTick(d: nat)
      requires Valid() && d < pwr.st.Length
      modifies this`now, this`steps, this`calls, pwr`log, pwr.st, pwr.lit
      ensures Valid() && Abs() == Round(world, old(Abs()), d)
    {
      hide TickDomain, SettleRemaining, ToU32;
      var rem := pwr.PwrSettleRemainingMs(d, ToU32(now));
      now := now + world.lapse(steps, if rem != 0 then rem else 1);
      pwr.PwrTickDomain(d, ToU32(now), world.backend(steps));
      calls := calls + [TickDomainAt(d, now, world.backend(steps))];
      steps := steps + 1;
    }

    /** The settle loop of sampler_read_desc: asleep until the rail is ready or down. */
    method AwaitSettled(d: nat) returns (ready: bool)
      requires Valid() && d < pwr.st.Length
      modifies this`now, this`steps, this`calls, pwr`log, pwr.st, pwr.lit
      ensures Valid() && (Abs(), ready) == Wait(world, old(Abs()), d)
    {
      hide IsReady, Round, ToU32, Patience;
      ready := pwr.PwrIsReady(d, ToU32(now));
      while !ready
        invariant Valid() && ready == Ready(Abs(), d)
        invariant Wait(world, Abs(), d) == Wait(world, old(Abs()), d)
        decreases if ready then 0 else 1, Patience(pwr.Abs(), d, ToU32(now))
      {
        RoundsEnd(world, Abs(), d);
        SleepAndTick(d);
        if pwr.st[d].state == OFF { return false; }
        ready := pwr.PwrIsReady(d, ToU32(now));
      }
    }

    /** The loop of sampler_read_desc over what the driver returned. */
    method Keep(d: Desc, xs: Samples)
      requires Valid()
      modifies value, flags
      ensures Valid() && Abs() == old(Abs()).(frame := StoreAll(old(Abs().frame), d, xs))
    {
      hide Marked;
      var i := 0;
      while i < |xs|
        invariant 0 <= i <= |xs|
        invariant Frame(value[..], flags[..], cycle) == StoreAll(old(Abs().frame), d, xs[..i])
      {
        assert xs[..i + 1][..i] == xs[..i];
        var x := xs[i];
        if Reports(d, x.param) && Marked(x.flags, VALID) {
          value[x.param] := x.value;
          flags[x.param] := (x.flags & !STALE) | VALID;
        }
        i := i + 1;
      }
      assert xs[..i] == xs;
      assert pwr.Abs() == old(pwr.Abs());
    }

    /** sampler_read_desc up to the driver's call. */
    method PowerUp(d: Desc) returns (rc: int)
      requires Valid() && Wired(d, pwr.Abs())
      modifies this`now, this`steps, this`calls, pwr`log, pwr.st, pwr.lit, flags
      ensures Valid() && (Abs(), rc) == BringUp(world, old(Abs()), d)
    {
      hide Acquire, ToU32, Masked, Wait;
      MaskParams(d, 0);
      if d.domain == NO_DOMAIN { return 0; }
      rc := 0;
      if pwr.cfg[d.domain].policy != PERIODIC {
        rc := pwr.PwrAcquire(d.domain, ToU32(now), world.backend(steps));
        calls := calls + [AcquireAt(d.domain, now, world.backend(steps))];
      }
      steps := steps + 1;
      if rc != 0 {
        MaskParams(d, NOPOWER);
        return;
      }
      var ready := AwaitSettled(d.domain);
      if !ready {
        MaskParams(d, NOPOWER);
        return -ETIMEDOUT;
      }
      return 0;
    }

    /** sampler_read_desc. */
    method ReadTransducer(d: Desc) returns (rc: int)
      requires Valid() && Wired(d, pwr.Abs())
      modifies this`now, this`steps, this`calls, this`accesses, pwr`log, pwr.st, pwr.lit, value, flags
      ensures Valid() && (Abs(), rc) == ReadDesc(world, old(Abs()), d)
    {
      hide Release, ToU32, Masked, StoreAll, BringUp;
      rc := PowerUp(d);
      if rc != 0 { return; }
      var got := world.reading(steps);
      accesses := accesses + [Access(d, pwr.Abs(), calls, now, got)];
      now := now + world.busy(steps);
      steps := steps + 1;
      if d.domain != NO_DOMAIN && pwr.cfg[d.domain].policy != PERIODIC {
        var _ := pwr.PwrRelease(d.domain);
        calls := calls + [ReleaseAt(d.domain)];
      }
      match got {
        case Failed(code) =>
          MaskParams(d, FAULT);
          return code;
        case Got(xs) =>
          Keep(d, xs);
          return |xs|;
      }
    }

    /** The carry-over of sampler_cycle for a transducer on a periodic rail. */
    method MarkStale(d: Desc)
      requires Valid()
      modifies flags
      ensures Valid() && Abs() == old(Abs()).(frame := Staled(old(Abs().frame), d))
    {
      var i := 0;
      while i < |d.params|
        invariant 0 <= i <= |d.params|
        invariant forall p: u8 :: p <= 46 ==> flags[p] == Carried(Insitu(p) && p in d.params[..i], old(flags[p]))
      {
        var p := d.params[i];
        assert d.params[..i + 1] == d.params[..i] + [p];
        if Insitu(p) && Marked(flags[p], VALID) { flags[p] := flags[p] | STALE; }
        i := i + 1;
      }
      assert d.params[..i] == d.params;
      assert pwr.Abs() == old(pwr.Abs());
      assert flags[..] == Staled(old(Abs().frame), d).flags;
      assert Abs().frame == Staled(old(Abs().frame), d);
    }

    /** sampler_cycle. */
    method SamplerCycle() returns (errors: nat)
      requires Valid()
      modifies this`cycle, this`now, this`steps, this`calls, this`accesses, pwr`log, pwr.st, pwr.lit, value, flags
      ensures Valid() && (Abs(), errors) == Cycle(world, old(Abs()), sel)
    {
      hide ReadDesc, Staled;
      cycle := ToU32(cycle + 1);
      errors := 0;
      var i := 0;
      ghost var s := Abs();
      while i < |sel|
        invariant 0 <= i <= |sel| && Valid()
        invariant AllWired(sel[..i], s.ctl) && (Abs(), errors) == Walk(world, s, sel[..i])
      {
        assert sel[..i + 1][..i] == sel[..i];
        var d := sel[i];
        if d.domain != NO_DOMAIN && pwr.cfg[d.domain].policy == PERIODIC {
          MarkStale(d);
        } else {
          var rc := ReadTransducer(d);
          if rc < 0 { errors := errors + 1; }
        }
        i := i + 1;
      }
      assert sel[..i] == sel;
    }

    /** sampler_on_domain_ready. */
    method OnDomainReady(dom: nat)
      requires Valid()
      modifies this`now, this`steps, this`calls, this`accesses, pwr`log, pwr.st, pwr.lit, value, flags
      ensures Valid() && Abs() == OnReady(world, old(Abs()), sel, dom)
    {
      hide ReadDesc;
      var i := 0;
      ghost var s := Abs();
      while i < |sel|
        invariant 0 <= i <= |sel| && Valid()
        invariant AllWired(sel[..i], s.ctl) && Abs() == OnReady(world, s, sel[..i], dom)
      {
        assert sel[..i + 1][..i] == sel[..i];
        if sel[i].domain == dom { var _ := ReadTransducer(sel[i]); }
        i := i + 1;
      }
      assert sel[..i] == sel;
    }
  }

  function Start(c: Ctl, now: nat): (s: State)
    requires Shaped(c)
    ensures WellFormed(s)
  {
    State(c, now, 0, Frame(seq(47, _ => 0), seq(47, _ => 0), 0), [], [])
  }

  // --------------------------------------------------------------- one reading

  predicate PowerKept(c: Ctl, c': Ctl, d: int)
    requires Shaped(c) && Shaped(c')
  {
    c'.cfg == c.cfg && forall e :: 0 <= e < |c.st| && e != d ==> c'.st[e] == c.st[e]
  }

  lemma TickKeepsRefs(c: Ctl, d: nat, now: u32, rc: int)
    requires Shaped(c) && d < |c.st|
    ensures var c' := TickDomain(c, d, now, rc);
      PowerKept(c, c', d) && (c'.st[d].state != OFF ==> c'.st[d].refs == c.st[d].refs)
  {
    hide LoadOf, Elapsed;
  }

  lemma {:induction false} WaitKeeps(w: World, s: State, d: nat)
    requires WellFormed(s) && d < |s.ctl.st| && Safe(s.ctl)
    ensures var (t, ready) := Wait(w, s, d);
      && Safe(t.ctl) && PowerKept(s.ctl, t.ctl, d)
      && (ready ==> Ready(t, d) && t.ctl.st[d].refs == s.ctl.st[d].refs)
      && (!ready ==> t.ctl.st[d].state == OFF)
    decreases if Ready(s, d) then 0 else 1, Patience(s.ctl, d, ToU32(s.now))
  {
    hide Safe, Ready, TickDomain, Patience, ToU32;
    if !Ready(s, d) {
      var t := Round(w, s, d);
      TickDomainSafe(s.ctl, d, ToU32(t.now), w.backend(s.steps));
      TickKeepsRefs(s.ctl, d, ToU32(t.now), w.backend(s.steps));
      RoundsEnd(w, s, d);
      if t.ctl.st[d].state != OFF { WaitKeeps(w, t, d); }
    }
  }

  /** A rail that may be used: settled, and physically lit. */
  predicate Energised(c: Ctl, d: int, at: u32) {
    Shaped(c) && (d == NO_DOMAIN || (0 <= d < |c.st| && IsReady(c, d, at) && c.lit[d]))
  }

  lemma AcquireKeepsOthers(c: Ctl, d: nat, now: u32, rc: int)
    requires Shaped(c)
    ensures PowerKept(c, Acquire(c, d, now, rc).0, d)
  {
    hide LoadOf;
  }

  /** Bringing a rail up: an error leaves a rail that was off off; success leaves it usable. */
  lemma BringUpMeans(w: World, s: State, d: Desc)
    requires WellFormed(s) && Wired(d, s.ctl) && Safe(s.ctl)
    ensures var (t, rc) := BringUp(w, s, d);
      && Safe(t.ctl) && PowerKept(s.ctl, t.ctl, d.domain)
      && t.frame == Masked(s.frame, d, if rc == 0 then 0 else NOPOWER)
      && (rc == 0 ==> Energised(t.ctl, d.domain, ToU32(t.now)))
      && (rc == 0 && Managed(s.ctl, d) ==> t.ctl.st[d.domain].refs == s.ctl.st[d.domain].refs + 1)
      && (rc != 0 && d.domain != NO_DOMAIN && s.ctl.st[d.domain].state == OFF && Managed(s.ctl, d) ==>
            t.ctl.st[d.domain].state == OFF)
  {
    hide Acquire, ToU32, Load;
    MaskedTwice(s.frame, d);
    if d.domain != NO_DOMAIN {
      AcquireSafe(s.ctl, d.domain, ToU32(s.now), w.backend(s.steps));
      AcquireKeepsOthers(s.ctl, d.domain, ToU32(s.now), w.backend(s.steps));
      var g := Granted(w, s.(frame := Masked(s.frame, d, 0)), d);
      if g.1 == 0 { WaitKeeps(w, g.0, d.domain); }
    }
  }

  lemma MaskedTwice(f: Frame, d: Desc)
    ensures forall fl: bv8 :: Masked(Masked(f, d, 0), d, fl) == Masked(f, d, fl)
  {
    forall fl: bv8 ensures Masked(Masked(f, d, 0), d, fl) == Masked(f, d, fl) {
      assert Masked(Masked(f, d, 0), d, fl).flags == Masked(f, d, fl).flags;
    }
  }

  /** A per-read rail that was off is off again on every way out, and no other rail is touched. */
  lemma RailLeftOff(w: World, s: State, d: Desc)
    requires WellFormed(s) && Wired(d, s.ctl) && Safe(s.ctl)
    ensures var t := ReadDesc(w, s, d).0;
      && Safe(t.ctl) && PowerKept(s.ctl, t.ctl, d.domain)
      && (d.domain != NO_DOMAIN && s.ctl.cfg[d.domain].policy == PER_READ && s.ctl.st[d.domain].state == OFF ==>
            t.ctl.st[d.domain].state == OFF && !t.ctl.lit[d.domain])
  {
    hide BringUp, ToU32, Load, Masked, StoreAll;
    BringUpMeans(w, s, d);
    var up := BringUp(w, s, d);
    if d.domain != NO_DOMAIN { ReleaseSafe(up.0.ctl, d.domain); }
  }

  // ------------------------------------------------------------- nothing is imputed

  predicate Answers(x: Sample, p: u8, v: i32) {
    x.param == p && x.value == v && Marked(x.flags, VALID)
  }

  ghost predicate From(got: Reading, p: u8, v: i32) {
    got.Got? && exists i :: 0 <= i < |got.samples| && Answers(got.samples[i], p, v)
  }

  lemma FlagBits(fl: bv8)
    ensures Marked((fl & !STALE) | VALID, VALID) && !Marked((fl & !STALE) | VALID, STALE)
    ensures Marked(fl | STALE, VALID) == Marked(fl, VALID) && Marked(fl | STALE, STALE)
    ensures !Marked(0, VALID) && !Marked(FAULT, VALID) && !Marked(NOPOWER, VALID)
  {
  }

  /** The last sample that counts for parameter `p`. */
  function LastFor(d: Desc, xs: seq<Sample>, p: u8): Option<Sample>
    decreases |xs|
  {
    if xs == [] then None
    else
      var x := xs[|xs| - 1];
      if Usable(d, x) && x.param == p then Some(x) else LastFor(d, xs[..|xs| - 1], p)
  }

  lemma {:induction false} LastForIs(d: Desc, xs: seq<Sample>, p: u8)
    ensures var l := LastFor(d, xs, p);
      && (l.None? ==> forall i :: 0 <= i < |xs| ==> !(Usable(d, xs[i]) && xs[i].param == p))
      && (l.Some? ==> l.value in xs && Usable(d, l.value) && l.value.param == p)
    decreases |xs|
  {
    hide Usable;
    if xs != [] {
      var n := |xs| - 1;
      LastForIs(d, xs[..n], p);
      assert forall i :: 0 <= i < n ==> xs[..n][i] == xs[i];
    }
  }

  /** After the loop an entry holds the last sample that counts for it, fresh, or what it held before. */
  lemma {:induction false} StoreAllIs(f: Frame, d: Desc, xs: seq<Sample>, p: u8)
    requires |f.value| == |f.flags| == PARAMS + 1 && p <= PARAMS
    ensures var g, l := StoreAll(f, d, xs), LastFor(d, xs, p);
      && g.value[p] == (if l.Some? then l.value.value else f.value[p])
      && g.flags[p] == (if l.Some? then (l.value.flags & !STALE) | VALID else f.flags[p])
    decreases |xs|
  {
    hide Marked, Reports;
    if xs != [] { StoreAllIs(f, d, xs[..|xs| - 1], p); }
  }

  /** A masked parameter that is valid after the loop got its value from one of the samples. */
  lemma StoreAllFrom(f: Frame, d: Desc, xs: Samples, p: u8)
    requires |f.value| == |f.flags| == PARAMS + 1 && p <= PARAMS
    ensures var g := StoreAll(f, d, xs);
      && (Marked(f.flags[p], VALID) || !Marked(g.flags[p], VALID) ||
          (From(Got(xs), p, g.value[p]) && !Marked(g.flags[p], STALE)))
      && (!Reports(d, p) ==> g.value[p] == f.value[p] && g.flags[p] == f.flags[p])
      && ((exists i :: 0 <= i < |xs| && Usable(d, xs[i]) && xs[i].param == p) ==> Marked(g.flags[p], VALID))
  {
    hide Marked, Reports, StoreAll, LastFor;
    StoreAllIs(f, d, xs, p);
    LastForIs(d, xs, p);
    var l := LastFor(d, xs, p);
    if l.Some? {
      FlagBits(l.value.flags);
      var i :| 0 <= i < |xs| && xs[i] == l.value;
      assert Answers(xs[i], p, l.value.value);
    }
  }

  /**
   A parameter is valid after its transducer's reading only with a value this very reading
   returned, fresh and not stale; and it is valid if the reading had a valid sample for it. What
   the transducer does not report is left alone, and the driver was called on a usable rail only.
   */
  lemma NeverImputes(w: World, s: State, d: Desc, p: u8)
    requires WellFormed(s) && Wired(d, s.ctl) && Safe(s.ctl) && p <= PARAMS
    ensures var (t, rc) := ReadDesc(w, s, d);
      var called := |t.accesses| > |s.accesses|;
      && (t.accesses == s.accesses || (
            && t.accesses == s.accesses + [t.accesses[|s.accesses|]]
            && var a := t.accesses[|s.accesses|];
            Energised(a.ctl, a.desc.domain, ToU32(a.when)) && Safe(a.ctl) && a.desc == d))
      && (!Reports(d, p) ==> t.frame.value[p] == s.frame.value[p] && t.frame.flags[p] == s.frame.flags[p])
      && (Reports(d, p) && Marked(t.frame.flags[p], VALID) ==>
            called && From(t.accesses[|s.accesses|].got, p, t.frame.value[p]) && !Marked(t.frame.flags[p], STALE))
      && (Reports(d, p) && !called ==> t.frame.flags[p] == NOPOWER)
      && (Reports(d, p) && called && t.accesses[|s.accesses|].got.Failed? ==> t.frame.flags[p] == FAULT)
      && (Reports(d, p) && called && (exists v :: From(t.accesses[|s.accesses|].got, p, v)) ==>
            Marked(t.frame.flags[p], VALID))
  {
    hide BringUp, ToU32, Load, Safe, StoreAll, Marked, IsReady, Release;
    BringUpMeans(w, s, d);
    FlagBits(0);
    var up := BringUp(w, s, d).0;
    var got := w.reading(up.steps);
    if got.Got? { StoreAllFrom(up.frame, d, got.samples, p); }
  }

  // ------------------------------------------------------------------- whole runs

  predicate PerReadOff(c: Ctl) {
    Shaped(c) && forall e :: 0 <= e < |c.st| && c.cfg[e].policy == PER_READ ==> c.st[e].state == OFF
  }

  predicate GoodAccess(a: Access) { Energised(a.ctl, a.desc.domain, ToU32(a.when)) }

  ghost predicate Backed(accesses: seq<Access>, p: u8, v: i32) {
    exists k :: 0 <= k < |accesses| && From(accesses[k].got, p, v)
  }

  /** Between calls: per-read rails are off, and every valid entry is some driver's answer. */
  ghost predicate Honest(s: State) {
    && WellFormed(s) && Safe(s.ctl) && PerReadOff(s.ctl)
    && (forall k :: 0 <= k < |s.accesses| ==> GoodAccess(s.accesses[k]))
    && (forall p: u8 :: p <= PARAMS && Marked(s.frame.flags[p], VALID) ==> Backed(s.accesses, p, s.frame.value[p]))
  }

  lemma BackedMore(as_: seq<Access>, a: Access, p: u8, v: i32)
    requires Backed(as_, p, v) || From(a.got, p, v)
    ensures Backed(as_ + [a], p, v)
  {
    if Backed(as_, p, v) {
      var k :| 0 <= k < |as_| && From(as_[k].got, p, v);
      assert (as_ + [a])[k] == as_[k];
    } else {
      assert (as_ + [a])[|as_|] == a;
    }
  }

  lemma ReadingHonest(w: World, s: State, d: Desc)
    requires Honest(s) && Wired(d, s.ctl)
    ensures Honest(ReadDesc(w, s, d).0)
  {
    hide ReadDesc, Safe, Marked, From, Backed, Energised;
    var t := ReadDesc(w, s, d).0;
    RailLeftOff(w, s, d);
    NeverImputes(w, s, d, 0);
    forall p: u8 | p <= PARAMS && Marked(t.frame.flags[p], VALID) ensures Backed(t.accesses, p, t.frame.value[p]) {
      NeverImputes(w, s, d, p);
      if t.accesses != s.accesses { BackedMore(s.accesses, t.accesses[|s.accesses|], p, t.frame.value[p]); }
    }
  }

  lemma StalingHonest(s: State, d: Desc)
    requires Honest(s)
    ensures Honest(s.(frame := Staled(s.frame, d)))
  {
    hide Safe, Marked, Backed, GoodAccess;
    forall p: u8 | p <= PARAMS ensures Marked(Staled(s.frame, d).flags[p], VALID) == Marked(s.frame.flags[p], VALID) {
      FlagBits(s.frame.flags[p]);
    }
  }

  lemma {:induction false} WalkHonest(w: World, s: State, sel: seq<Desc>)
    requires Honest(s) && AllWired(sel, s.ctl)
    ensures Honest(Walk(w, s, sel).0)
    decreases |sel|
  {
    hide Honest, ReadDesc, Staled;
    assert WellFormed(s) by { HonestShape(s); }
    if sel != [] {
      var d := sel[|sel| - 1];
      WalkHonest(w, s, sel[..|sel| - 1]);
      var before := Walk(w, s, sel[..|sel| - 1]).0;
      if OnPeriodic(before.ctl, d) { StalingHonest(before, d); } else { ReadingHonest(w, before, d); }
    }
  }

  lemma HonestShape(s: State)
    requires Honest(s)
    ensures WellFormed(s)
  {
  }

  lemma {:induction false} OnReadyHonest(w: World, s: State, sel: seq<Desc>, dom: nat)
    requires Honest(s) && AllWired(sel, s.ctl)
    ensures Honest(OnReady(w, s, sel, dom))
    decreases |sel|
  {
    hide Honest, ReadDesc;
    assert WellFormed(s) by { HonestShape(s); }
    if sel != [] {
      OnReadyHonest(w, s, sel[..|sel| - 1], dom);
      var before := OnReady(w, s, sel[..|sel| - 1], dom);
      ReadingHonest(w, before, sel[|sel| - 1]);
    }
  }

  /** What the pod's main loop does to the frame and the rails, with time passing in between. */
  datatype Act =
    | RunCycle
    | DomainReady(dom: nat)
    | TickAll(rcs: seq<int>)
    | ArmRail(d: nat, armed: bool, rc: int)
    | Pass(ms: nat)

  function Perform(w: World, sel: seq<Desc>, s: State, act: Act): (r: State)
    requires WellFormed(s) && AllWired(sel, s.ctl)
    ensures WellFormed(r) && r.ctl.cfg == s.ctl.cfg
  {
    match act
    case RunCycle => Cycle(w, s, sel).0
    case DomainReady(dom) => OnReady(w, s, sel, dom)
    case TickAll(rcs) => s.(ctl := Tick(s.ctl, ToU32(s.now), rcs), calls := s.calls + [TickAt(s.now, rcs)])
    case ArmRail(d, armed, rc) =>
      s.(ctl := Arm(s.ctl, d, armed, ToU32(s.now), rc).0, calls := s.calls + [ArmAt(d, armed, s.now, rc)])
    case Pass(ms) => s.(now := s.now + ms)
  }

  function PerformAll(w: World, sel: seq<Desc>, s: State, acts: seq<Act>): (r: State)
    requires WellFormed(s) && AllWired(sel, s.ctl)
    ensures WellFormed(r) && r.ctl.cfg == s.ctl.cfg
    decreases |acts|
  {
    hide Perform;
    if acts == [] then s else Perform(w, sel, PerformAll(w, sel, s, acts[..|acts| - 1]), acts[|acts| - 1])
  }

  lemma TickLeavesOff(c: Ctl, d: nat, now: u32, rc: int)
    requires PerReadOff(c)
    ensures PerReadOff(TickDomain(c, d, now, rc))
  {
    hide LoadOf, Elapsed;
    if d < |c.st| { TickKeepsRefs(c, d, now, rc); }
  }

  lemma {:induction false} TickFromLeavesOff(c: Ctl, d: nat, now: u32, rcs: seq<int>)
    requires PerReadOff(c)
    ensures PerReadOff(TickFrom(c, d, now, rcs))
    decreases |c.st| - d
  {
    hide TickDomain;
    if d < |c.st| {
      TickLeavesOff(c, d, now, RcOf(rcs, d));
      TickFromLeavesOff(TickDomain(c, d, now, RcOf(rcs, d)), d + 1, now, rcs);
    }
  }

  lemma ArmLeavesOff(c: Ctl, d: nat, armed: bool, now: u32, rc: int)
    requires PerReadOff(c)
    ensures PerReadOff(Arm(c, d, armed, now, rc).0)
  {
    hide LoadOf;
  }

  lemma PerformHonest(w: World, sel: seq<Desc>, s: State, act: Act)
    requires Honest(s) && AllWired(sel, s.ctl)
    ensures Honest(Perform(w, sel, s, act))
  {
    hide Safe, Marked, Backed, GoodAccess, ToU32, Tick, Arm, Walk, OnReady, PerReadOff;
    match act {
      case RunCycle => WalkHonest(w, s.(frame := s.frame.(cycle := ToU32(s.frame.cycle + 1))), sel);
      case DomainReady(dom) => OnReadyHonest(w, s, sel, dom);
      case TickAll(rcs) =>
        TickIsFrom(s.ctl, ToU32(s.now), rcs);
        TickFromSafe(s.ctl, 0, ToU32(s.now), rcs);
        TickFromLeavesOff(s.ctl, 0, ToU32(s.now), rcs);
      case ArmRail(d, armed, rc) =>
        ArmSafe(s.ctl, d, armed, ToU32(s.now), rc);
        ArmLeavesOff(s.ctl, d, armed, ToU32(s.now), rc);
      case Pass(ms) =>
    }
  }

  lemma TickIsFrom(c: Ctl, now: u32, rcs: seq<int>)
    requires Shaped(c)
    ensures Tick(c, now, rcs) == TickFrom(c, 0, now, rcs)
  {
  }

  /**
   Over every run of the pod: between calls no per-read rail is energised, the driver was only
   ever called on a lit and settled rail, and every valid frame entry is a value a driver returned.
   */
  lemma {:induction false} NothingLeftEnergisedNothingImputed(
      w: World, sel: seq<Desc>, cfg: seq<Cfg>, budgetMa: u16, now: nat, acts: seq<Act>)
    requires |cfg| <= 255 && AllWired(sel, Init(cfg, budgetMa, ToU32(now)))
    ensures Honest(PerformAll(w, sel, Start(Init(cfg, budgetMa, ToU32(now)), now), acts))
    decreases |acts|
  {
    hide Perform, Honest, Safe, ToU32;
    var s := Start(Init(cfg, budgetMa, ToU32(now)), now);
    if acts == [] {
      StartHonest(cfg, budgetMa, now);
    } else {
      var n := |acts| - 1;
      NothingLeftEnergisedNothingImputed(w, sel, cfg, budgetMa, now, acts[..n]);
      PerformHonest(w, sel, PerformAll(w, sel, s, acts[..n]), acts[n]);
    }
  }

  lemma StartHonest(cfg: seq<Cfg>, budgetMa: u16, now: nat)
    requires |cfg| <= 255
    ensures Honest(Start(Init(cfg, budgetMa, ToU32(now)), now))
  {
    hide Safe, Backed;
    InitSafe(cfg, budgetMa, ToU32(now));
    FlagBits(0);
  }
}
