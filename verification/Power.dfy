/**
 The switched-rail controller (power.c). The functions say what each call does to the rails,
 the class is the code, and the lemmas hold over every sequence of calls.
 The backend is injected: its answer to each switch-on is a parameter; switching off succeeds.
 */
module Power {
  import opened Bytes
  import opened Errno

  datatype Policy = PER_READ | PERIODIC | ARMED | HOLD

  datatype RailState = OFF | SETTLING | ON

  datatype Event = READY | WENT_OFF | TIMEOUT | DEFERRED

  datatype Cfg = Cfg(policy: Policy, currentMa: u16, settleMs: u16, onMs: u32, periodMs: u32)

  datatype Rail = Rail(state: RailState, refs: u8, armed: bool, windowDue: bool, tOn: u32, tWindow: u32)

  /** `lit` is the physical rail; `log` the calls of the event callback. */
  datatype Ctl = Ctl(cfg: seq<Cfg>, budgetMa: u16, st: seq<Rail>, lit: seq<bool>, log: seq<(nat, Event)>)

  predicate Shaped(c: Ctl) { |c.st| == |c.cfg| == |c.lit| <= 255 }

  function Elapsed(now: u32, then_: u32): u32 { ToU32(now - then_) }

  function LoadOf(cfg: seq<Cfg>, st: seq<Rail>): nat
    requires |cfg| == |st|
    decreases |st|
  {
    if st == [] then 0
    else
      var n := |st| - 1;
      LoadOf(cfg[..n], st[..n]) + if st[n].state != OFF then cfg[n].currentMa else 0
  }

  function Load(c: Ctl): nat
    requires Shaped(c)
  {
    LoadOf(c.cfg, c.st)
  }

  function SwitchOn(c: Ctl, d: nat, now: u32, rc: int): (r: (Ctl, int))
    requires Shaped(c) && d < |c.st|
    ensures Shaped(r.0) && r.0.cfg == c.cfg && r.0.budgetMa == c.budgetMa
  {
    if c.budgetMa != 0 && Load(c) + c.cfg[d].currentMa > c.budgetMa then (c, -EBUSY)
    else if rc != 0 then (c, rc)
    else
      var s := c.st[d].(tOn := now, state := if c.cfg[d].settleMs != 0 then SETTLING else ON);
      (c.(st := c.st[d := s], lit := c.lit[d := true],
          log := if s.state == ON then c.log + [(d, READY)] else c.log), 0)
  }

  function SwitchOff(c: Ctl, d: nat): (r: Ctl)
    requires Shaped(c) && d < |c.st|
    ensures Shaped(r) && r.cfg == c.cfg && r.budgetMa == c.budgetMa
  {
    c.(st := c.st[d := c.st[d].(state := OFF, refs := 0)], lit := c.lit[d := false], log := c.log + [(d, WENT_OFF)])
  }

  function AddRef(c: Ctl, d: nat): (r: (Ctl, int))
    requires Shaped(c) && d < |c.st|
    ensures Shaped(r.0) && r.0.cfg == c.cfg && r.0.budgetMa == c.budgetMa
  {
    if c.st[d].refs == 255 then (c, -EOVERFLOW)
    else (c.(st := c.st[d := c.st[d].(refs := c.st[d].refs + 1)]), 0)
  }

  function Acquire(c: Ctl, d: nat, now: u32, rc: int): (r: (Ctl, int))
    requires Shaped(c)
    ensures Shaped(r.0) && r.0.cfg == c.cfg && r.0.budgetMa == c.budgetMa
  {
    if d >= |c.st| then (c, -EINVAL)
    else
      var off := c.st[d].state == OFF;
      match c.cfg[d].policy
      case PERIODIC => if off then (c, -EAGAIN) else AddRef(c, d)
      case ARMED => if !c.st[d].armed || off then (c, -EACCES) else AddRef(c, d)
      case _ =>
        if !off then AddRef(c, d)
        else
          var on := SwitchOn(c, d, now, rc);
          if on.1 != 0 then on else AddRef(on.0, d)
  }

  function Release(c: Ctl, d: nat): (r: (Ctl, int))
    requires Shaped(c)
    ensures Shaped(r.0) && r.0.cfg == c.cfg && r.0.budgetMa == c.budgetMa
  {
    if d >= |c.st| || c.st[d].refs == 0 then (c, -EINVAL)
    else
      var c' := c.(st := c.st[d := c.st[d].(refs := c.st[d].refs - 1)]);
      if c'.st[d].refs == 0 && c.cfg[d].policy == PER_READ && c.st[d].state != OFF then (SwitchOff(c', d), 0)
      else (c', 0)
  }

  function Arm(c: Ctl, d: nat, armed: bool, now: u32, rc: int): (r: (Ctl, int))
    requires Shaped(c)
    ensures Shaped(r.0) && r.0.cfg == c.cfg && r.0.budgetMa == c.budgetMa
  {
    if d >= |c.st| then (c, -EINVAL)
    else if c.cfg[d].policy != ARMED then (c, -ENOTSUP)
    else
      var c' := c.(st := c.st[d := c.st[d].(armed := armed)]);
      if armed then if c.st[d].state == OFF then SwitchOn(c', d, now, rc) else (c', 0)
      else (if c.st[d].state != OFF then SwitchOff(c', d) else c', 0)
  }

  /** Settling finishes when its time is up. */
  function Settle(c: Ctl, d: nat, now: u32): (r: Ctl)
    requires Shaped(c) && d < |c.st|
    ensures Shaped(r) && r.cfg == c.cfg && r.budgetMa == c.budgetMa
  {
    if c.st[d].state == SETTLING && Elapsed(now, c.st[d].tOn) >= c.cfg[d].settleMs
    then c.(st := c.st[d := c.st[d].(state := ON)], log := c.log + [(d, READY)])
    else c
  }

  function OpenWindow(c: Ctl, d: nat, now: u32, rc: int): (r: Ctl)
    requires Shaped(c) && d < |c.st|
    ensures Shaped(r) && r.cfg == c.cfg && r.budgetMa == c.budgetMa
  {
    var due := c.st[d].windowDue || Elapsed(now, c.st[d].tWindow) >= c.cfg[d].periodMs;
    var c' := c.(st := c.st[d := c.st[d].(windowDue := due)]);
    if !due then c'
    else
      var on := SwitchOn(c', d, now, rc);
      if on.1 == 0 then on.0.(st := on.0.st[d := on.0.st[d].(windowDue := false, tWindow := now)])
      else on.0.(log := on.0.log + [(d, DEFERRED)])
  }

  function TickDomain(c: Ctl, d: nat, now: u32, rc: int): (r: Ctl)
    requires Shaped(c)
    ensures Shaped(r) && r.cfg == c.cfg && r.budgetMa == c.budgetMa
  {
    if d >= |c.st| then c
    else
      var s := Settle(c, d, now);
      if c.cfg[d].policy == PERIODIC then
        if s.st[d].state == OFF then OpenWindow(s, d, now, rc)
        else if Elapsed(now, s.st[d].tOn) >= c.cfg[d].onMs then SwitchOff(s, d)
        else s
      else if c.cfg[d].onMs != 0 && s.st[d].state != OFF && Elapsed(now, s.st[d].tOn) >= c.cfg[d].onMs then
        SwitchOff(s.(log := s.log + [(d, TIMEOUT)]), d)
      else s
  }

  function RcOf(rcs: seq<int>, d: nat): int { if d < |rcs| then rcs[d] else 0 }

  function TickFrom(c: Ctl, d: nat, now: u32, rcs: seq<int>): (r: Ctl)
    requires Shaped(c)
    ensures Shaped(r) && r.cfg == c.cfg && r.budgetMa == c.budgetMa
    decreases |c.st| - d
  {
    if d >= |c.st| then c else TickFrom(TickDomain(c, d, now, RcOf(rcs, d)), d + 1, now, rcs)
  }

  function Tick(c: Ctl, now: u32, rcs: seq<int>): (r: Ctl)
    requires Shaped(c)
    ensures Shaped(r) && r.cfg == c.cfg && r.budgetMa == c.budgetMa
  {
    TickFrom(c, 0, now, rcs)
  }

  predicate IsReady(c: Ctl, d: nat, now: u32)
    requires Shaped(c)
  {
    d < |c.st| &&
    (c.st[d].state == ON || (c.st[d].state == SETTLING && Elapsed(now, c.st[d].tOn) >= c.cfg[d].settleMs))
  }

  function SettleRemaining(c: Ctl, d: nat, now: u32): (ms: u32)
    requires Shaped(c)
    ensures d < |c.st| && c.st[d].state == SETTLING && !IsReady(c, d, now) ==> ms > 0
  {
    if d >= |c.st| || c.st[d].state != SETTLING || Elapsed(now, c.st[d].tOn) >= c.cfg[d].settleMs then 0
    else c.cfg[d].settleMs - Elapsed(now, c.st[d].tOn)
  }

  /** The controller as pwr_init leaves it. */
  function Init(cfg: seq<Cfg>, budgetMa: u16, now: u32): (c: Ctl)
    requires |cfg| <= 255
    ensures Shaped(c)
  {
    Ctl(cfg, budgetMa,
        seq(|cfg|, d requires 0 <= d < |cfg| => Rail(OFF, 0, false, cfg[d].policy == PERIODIC, 0, now)),
        seq(|cfg|, d => false), [])
  }

  // ---------------------------------------------------------------------- the code

  class PwrCtl {
    const cfg: seq<Cfg>
    const budgetMa: u16
    const st: array<Rail>
    const lit: array<bool>
    var log: seq<(nat, Event)>

    ghost predicate Valid()
      reads this, st, lit
    {
      Shaped(Abs())
    }

    ghost function Abs(): Ctl
      reads this, st, lit
    {
      Ctl(cfg, budgetMa, st[..], lit[..], log)
    }

    /** pwr_init; the backend switches every rail off. */
    constructor (cfg: seq<Cfg>, budgetMa: u16, now: u32)
      requires |cfg| <= 255
      ensures Valid() && Abs() == Init(cfg, budgetMa, now) && fresh(st) && fresh(lit)
    {
      this.cfg, this.budgetMa, log := cfg, budgetMa, [];
      st := new Rail[|cfg|](d requires 0 <= d < |cfg| => Rail(OFF, 0, false, cfg[d].policy == PERIODIC, 0, now));
      lit := new bool[|cfg|](_ => false);
    }

    /** pwr_load_ma. */
    method LoadMa() returns (ma: nat)
      requires Valid()
      ensures ma == Load(Abs())
    {
      ma := 0;
      var d := 0;
      while d < st.Length
        invariant 0 <= d <= st.Length && ma == LoadOf(cfg[..d], st[..d])
      {
        assert cfg[..d + 1][..d] == cfg[..d] && st[..d + 1][..d] == st[..d];
        if st[d].state != OFF { ma := ma + cfg[d].currentMa; }
        d := d + 1;
      }
      assert cfg[..d] == cfg && st[..d] == st[..];
    }

    method SwitchRailOn(d: nat, now: u32, backend: int) returns (rc: int)
      requires Valid() && d < st.Length
      modifies this`log, st, lit
      ensures Valid() && (Abs(), rc) == SwitchOn(old(Abs()), d, now, backend)
    {
      if budgetMa != 0 {
        var load := LoadMa();
        if load + cfg[d].currentMa > budgetMa { return -EBUSY; }
      }
      if backend != 0 { return backend; }
      lit[d] := true;
      st[d] := st[d].(tOn := now, state := if cfg[d].settleMs != 0 then SETTLING else ON);
      if st[d].state == ON { log := log + [(d, READY)]; }
      return 0;
    }

    method SwitchRailOff(d: nat)
      requires Valid() && d < st.Length
      modifies this`log, st, lit
      ensures Valid() && Abs() == SwitchOff(old(Abs()), d)
    {
      lit[d] := false;
      st[d] := st[d].(state := OFF, refs := 0);
      log := log + [(d, WENT_OFF)];
    }

    method PwrAcquire(d: nat, now: u32, backend: int) returns (rc: int)
      requires Valid()
      modifies this`log, st, lit
      ensures Valid() && (Abs(), rc) == Acquire(old(Abs()), d, now, backend)
    {
      if d >= st.Length { return -EINVAL; }
      match cfg[d].policy {
        case PERIODIC =>
          if st[d].state == OFF { return -EAGAIN; }
        case ARMED =>
          if !st[d].armed || st[d].state == OFF { return -EACCES; }
        case _ =>
          if st[d].state == OFF {
            rc := SwitchRailOn(d, now, backend);
            if rc != 0 { return; }
          }
      }
      if st[d].refs == 255 { return -EOVERFLOW; }
      st[d] := st[d].(refs := st[d].refs + 1);
      return 0;
    }

    method PwrRelease(d: nat) returns (rc: int)
      requires Valid()
      modifies this`log, st, lit
      ensures Valid() && (Abs(), rc) == Release(old(Abs()), d)
    {
      if d >= st.Length || st[d].refs == 0 { return -EINVAL; }
      st[d] := st[d].(refs := st[d].refs - 1);
      if st[d].refs == 0 && cfg[d].policy == PER_READ && st[d].state != OFF {
        SwitchRailOff(d);
      }
      return 0;
    }

    method PwrArm(d: nat, armed: bool, now: u32, backend: int) returns (rc: int)
      requires Valid()
      modifies this`log, st, lit
      ensures Valid() && (Abs(), rc) == Arm(old(Abs()), d, armed, now, backend)
    {
      if d >= st.Length { return -EINVAL; }
      if cfg[d].policy != ARMED { return -ENOTSUP; }
      st[d] := st[d].(armed := armed);
      if armed {
        if st[d].state == OFF {
          rc := SwitchRailOn(d, now, backend);
          return;
        }
        return 0;
      }
      if st[d].state != OFF { SwitchRailOff(d); }
      return 0;
    }

    method PwrTickDomain(d: nat, now: u32, backend: int)
      requires Valid()
      modifies this`log, st, lit
      ensures Valid() && Abs() == TickDomain(old(Abs()), d, now, backend)
    {
      hide SwitchOn, SwitchOff, Elapsed;
      if d >= st.Length { return; }
      if st[d].state == SETTLING && Elapsed(now, st[d].tOn) >= cfg[d].settleMs {
        st[d] := st[d].(state := ON);
        log := log + [(d, READY)];
      }
      if cfg[d].policy == PERIODIC {
        if st[d].state == OFF {
          PeriodicOff(d, now, backend);
        } else if Elapsed(now, st[d].tOn) >= cfg[d].onMs {
          SwitchRailOff(d);
        }
        return;
      }
      if cfg[d].onMs != 0 && st[d].state != OFF && Elapsed(now, st[d].tOn) >= cfg[d].onMs {
        log := log + [(d, TIMEOUT)];
        SwitchRailOff(d);
      }
    }

    /** The branch of pwr_tick_domain for a periodic rail that is off. */
    method PeriodicOff(d: nat, now: u32, backend: int)
      requires Valid() && d < st.Length
      modifies this`log, st, lit
      ensures Valid() && Abs() == OpenWindow(old(Abs()), d, now, backend)
    {
      hide SwitchOn;
      var due := st[d].windowDue;
      if !due && Elapsed(now, st[d].tWindow) >= cfg[d].periodMs { due := true; }
      st[d] := st[d].(windowDue := due);
      if due {
        var rc := SwitchRailOn(d, now, backend);
        if rc == 0 {
          st[d] := st[d].(windowDue := false, tWindow := now);
        } else {
          log := log + [(d, DEFERRED)];
        }
      }
    }

    method PwrIsReady(d: nat, now: u32) returns (ready: bool)
      requires Valid()
      ensures ready == IsReady(Abs(), d, now)
    {
      if d >= st.Length { return false; }
      if st[d].state == ON { return true; }
      if st[d].state == SETTLING { return Elapsed(now, st[d].tOn) >= cfg[d].settleMs; }
      return false;
    }

    method PwrSettleRemainingMs(d: nat, now: u32) returns (ms: u32)
      requires Valid()
      ensures ms == SettleRemaining(Abs(), d, now)
    {
      if d >= st.Length || st[d].state != SETTLING { return 0; }
      var e := Elapsed(now, st[d].tOn);
      return if e >= cfg[d].settleMs then 0 else cfg[d].settleMs - e;
    }

    method PwrTick(now: u32, backend: seq<int>)
      requires Valid()
      modifies this`log, st, lit
      ensures Valid() && Abs() == Tick(old(Abs()), now, backend)
    {
      hide TickDomain;
      var d := 0;
      while d < st.Length
        invariant 0 <= d <= st.Length && Valid()
        invariant TickFrom(Abs(), d, now, backend) == Tick(old(Abs()), now, backend)
      {
        PwrTickDomain(d, now, RcOf(backend, d));
        d := d + 1;
      }
    }
  }

  // ------------------------------------------------------------------------ safety

  predicate RailSafe(g: Cfg, s: Rail, lit: bool) {
    && (s.refs > 0 ==> s.state != OFF)
    && (g.policy == ARMED && s.state != OFF ==> s.armed)
    && lit == (s.state != OFF)
  }

  /** What no sequence of calls can break. */
  ghost predicate Safe(c: Ctl) {
    && Shaped(c)
    && (c.budgetMa != 0 ==> Load(c) <= c.budgetMa)
    && forall d :: 0 <= d < |c.st| ==> RailSafe(c.cfg[d], c.st[d], c.lit[d])
  }

  function Draw(g: Cfg, s: Rail): nat { if s.state != OFF then g.currentMa else 0 }

  /** Changing one rail changes the load by that rail's draw only. */
  lemma {:induction false} LoadChange(cfg: seq<Cfg>, st: seq<Rail>, d: nat, s: Rail)
    requires |cfg| == |st| && d < |st|
    ensures LoadOf(cfg, st[d := s]) == LoadOf(cfg, st) - Draw(cfg[d], st[d]) + Draw(cfg[d], s)
    decreases |st|
  {
    var n := |st| - 1;
    if d < n {
      LoadChange(cfg[..n], st[..n], d, s);
      assert st[d := s][..n] == st[..n][d := s];
    } else {
      assert st[d := s][..n] == st[..n];
    }
  }

  lemma {:induction false} LoadZero(cfg: seq<Cfg>, st: seq<Rail>)
    requires |cfg| == |st| && forall d :: 0 <= d < |st| ==> st[d].state == OFF
    ensures LoadOf(cfg, st) == 0
    decreases |st|
  {
    if st != [] { LoadZero(cfg[..|st| - 1], st[..|st| - 1]); }
  }

  lemma InitSafe(cfg: seq<Cfg>, budgetMa: u16, now: u32)
    requires |cfg| <= 255
    ensures Safe(Init(cfg, budgetMa, now))
  {
    LoadZero(cfg, Init(cfg, budgetMa, now).st);
  }

  /** A change of one rail that draws no more than the budget allows keeps the whole safe. */
  lemma OneRail(c: Ctl, c': Ctl, d: nat, s: Rail, lit: bool)
    requires Safe(c) && d < |c.st| && c'.cfg == c.cfg && c'.budgetMa == c.budgetMa
    requires c'.st == c.st[d := s] && c'.lit == c.lit[d := lit]
    requires RailSafe(c.cfg[d], s, lit)
    requires Draw(c.cfg[d], s) <= Draw(c.cfg[d], c.st[d]) || c.budgetMa == 0
             || Load(c) + c.cfg[d].currentMa <= c.budgetMa
    ensures Safe(c')
  {
    LoadChange(c.cfg, c.st, d, s);
  }

  lemma SwitchOnSafe(c: Ctl, d: nat, now: u32, rc: int)
    requires Safe(c) && d < |c.st| && (c.cfg[d].policy == ARMED ==> c.st[d].armed)
    ensures Safe(SwitchOn(c, d, now, rc).0)
  {
    hide LoadOf;
    var c' := SwitchOn(c, d, now, rc).0;
    OneRail(c, c', d, c'.st[d], c'.lit[d]);
  }

  lemma SwitchOffSafe(c: Ctl, d: nat)
    requires Safe(c) && d < |c.st|
    ensures Safe(SwitchOff(c, d))
  {
    hide LoadOf;
    var c' := SwitchOff(c, d);
    OneRail(c, c', d, c'.st[d], false);
  }

  lemma AddRefSafe(c: Ctl, d: nat)
    requires Safe(c) && d < |c.st| && c.st[d].state != OFF
    ensures Safe(AddRef(c, d).0)
  {
    hide LoadOf;
    var c' := AddRef(c, d).0;
    OneRail(c, c', d, c'.st[d], c.lit[d]);
  }

  lemma AcquireSafe(c: Ctl, d: nat, now: u32, rc: int)
    requires Safe(c)
    ensures Safe(Acquire(c, d, now, rc).0)
    ensures d < |c.st| && Acquire(c, d, now, rc).1 == 0 ==>
      Acquire(c, d, now, rc).0.st[d].refs == c.st[d].refs + 1 && Acquire(c, d, now, rc).0.lit[d]
    ensures Acquire(c, d, now, rc).1 != 0 ==> Acquire(c, d, now, rc).0 == c
  {
    hide LoadOf;
    if d < |c.st| {
      if c.st[d].state != OFF {
        AddRefSafe(c, d);
      } else if c.cfg[d].policy == PER_READ || c.cfg[d].policy == HOLD {
        SwitchOnSafe(c, d, now, rc);
        var on := SwitchOn(c, d, now, rc);
        if on.1 == 0 { AddRefSafe(on.0, d); }
      }
    }
  }

  lemma ReleaseSafe(c: Ctl, d: nat)
    requires Safe(c)
    ensures Safe(Release(c, d).0)
  {
    hide LoadOf;
    if d < |c.st| && c.st[d].refs > 0 {
      var s := c.st[d].(refs := c.st[d].refs - 1);
      var c' := c.(st := c.st[d := s]);
      OneRail(c, c', d, s, c.lit[d]);
      SwitchOffSafe(c', d);
    }
  }

  lemma ArmSafe(c: Ctl, d: nat, armed: bool, now: u32, rc: int)
    requires Safe(c)
    ensures Safe(Arm(c, d, armed, now, rc).0)
  {
    hide LoadOf;
    if d < |c.st| && c.cfg[d].policy == ARMED {
      var s := c.st[d].(armed := armed);
      var c' := c.(st := c.st[d := s]);
      if armed || c.st[d].state == OFF {
        OneRail(c, c', d, s, c.lit[d]);
        if armed && c.st[d].state == OFF { SwitchOnSafe(c', d, now, rc); }
      } else {
        var off := SwitchOff(c', d);
        assert off.st == c.st[d := off.st[d]];
        OneRail(c, off, d, off.st[d], false);
      }
    }
  }

  lemma SettleSafe(c: Ctl, d: nat, now: u32)
    requires Safe(c) && d < |c.st|
    ensures Safe(Settle(c, d, now)) && |Settle(c, d, now).st| == |c.st|
  {
    hide LoadOf, Elapsed;
    var c' := Settle(c, d, now);
    assert c'.st == c.st[d := c'.st[d]] && c'.lit == c.lit[d := c.lit[d]];
    OneRail(c, c', d, c'.st[d], c.lit[d]);
  }

  lemma OpenWindowSafe(c: Ctl, d: nat, now: u32, rc: int)
    requires Safe(c) && d < |c.st| && c.cfg[d].policy == PERIODIC
    ensures Safe(OpenWindow(c, d, now, rc))
  {
    hide LoadOf, Elapsed;
    var due := c.st[d].windowDue || Elapsed(now, c.st[d].tWindow) >= c.cfg[d].periodMs;
    var c' := c.(st := c.st[d := c.st[d].(windowDue := due)]);
    OneRail(c, c', d, c'.st[d], c.lit[d]);
    if due {
      SwitchOnSafe(c', d, now, rc);
      var on := SwitchOn(c', d, now, rc);
      if on.1 == 0 {
        var s := on.0.st[d].(windowDue := false, tWindow := now);
        OneRail(on.0, on.0.(st := on.0.st[d := s]), d, s, on.0.lit[d]);
      } else {
        LogOnly(on.0, on.0.(log := on.0.log + [(d, DEFERRED)]));
      }
    }
  }

  lemma LogOnly(c: Ctl, c': Ctl)
    requires Safe(c) && c' == c.(log := c'.log)
    ensures Safe(c')
  {
  }

  lemma TickDomainSafe(c: Ctl, d: nat, now: u32, rc: int)
    requires Safe(c)
    ensures Safe(TickDomain(c, d, now, rc))
  {
    hide LoadOf, Elapsed, OpenWindow, Settle, SwitchOff;
    if d < |c.st| {
      var s := Settle(c, d, now);
      SettleSafe(c, d, now);
      if c.cfg[d].policy == PERIODIC { OpenWindowSafe(s, d, now, rc); }
      SwitchOffSafe(s, d);
      var timeout := s.(log := s.log + [(d, TIMEOUT)]);
      LogOnly(s, timeout);
      SwitchOffSafe(timeout, d);
    }
  }

  lemma {:induction false} TickFromSafe(c: Ctl, d: nat, now: u32, rcs: seq<int>)
    requires Safe(c)
    ensures Safe(TickFrom(c, d, now, rcs))
    decreases |c.st| - d
  {
    hide Load, RailSafe, TickDomain;
    if d < |c.st| {
      TickDomainSafe(c, d, now, RcOf(rcs, d));
      TickFromSafe(TickDomain(c, d, now, RcOf(rcs, d)), d + 1, now, rcs);
    }
  }

  /** The calls of pods and loop, with the backend's answers and the true time in ms. */
  datatype Call =
    | AcquireAt(d: nat, t: nat, rc: int)
    | ReleaseAt(d: nat)
    | ArmAt(d: nat, armed: bool, t: nat, rc: int)
    | TickDomainAt(d: nat, t: nat, rc: int)
    | TickAt(t: nat, rcs: seq<int>)

  function Do(c: Ctl, call: Call): (r: Ctl)
    requires Shaped(c)
    ensures Shaped(r) && r.cfg == c.cfg && r.budgetMa == c.budgetMa
  {
    match call
    case AcquireAt(d, t, rc) => Acquire(c, d, ToU32(t), rc).0
    case ReleaseAt(d) => Release(c, d).0
    case ArmAt(d, armed, t, rc) => Arm(c, d, armed, ToU32(t), rc).0
    case TickDomainAt(d, t, rc) => TickDomain(c, d, ToU32(t), rc)
    case TickAt(t, rcs) => Tick(c, ToU32(t), rcs)
  }

  function Run(c: Ctl, calls: seq<Call>): (r: Ctl)
    requires Shaped(c)
    ensures Shaped(r) && r.cfg == c.cfg && r.budgetMa == c.budgetMa
    decreases |calls|
  {
    if calls == [] then c else Do(Run(c, calls[..|calls| - 1]), calls[|calls| - 1])
  }

  lemma DoSafe(c: Ctl, call: Call)
    requires Safe(c)
    ensures Safe(Do(c, call))
  {
    hide Safe;
    match call
    case AcquireAt(d, t, rc) => AcquireSafe(c, d, ToU32(t), rc);
    case ReleaseAt(d) => ReleaseSafe(c, d);
    case ArmAt(d, armed, t, rc) => ArmSafe(c, d, armed, ToU32(t), rc);
    case TickDomainAt(d, t, rc) => TickDomainSafe(c, d, ToU32(t), rc);
    case TickAt(t, rcs) => TickFromSafe(c, 0, ToU32(t), rcs);
  }

  /**
   Over every sequence of calls: the load stays within a nonzero budget, a held rail is up, an
   armed-policy rail that is up is armed, and the physical rails are what the controller thinks.
   */
  lemma {:induction false} AlwaysSafe(cfg: seq<Cfg>, budgetMa: u16, now: u32, calls: seq<Call>)
    requires |cfg| <= 255
    ensures Safe(Run(Init(cfg, budgetMa, now), calls))
    decreases |calls|
  {
    hide Do, Safe;
    if calls == [] {
      InitSafe(cfg, budgetMa, now);
    } else {
      var n := |calls| - 1;
      AlwaysSafe(cfg, budgetMa, now, calls[..n]);
      DoSafe(Run(Init(cfg, budgetMa, now), calls[..n]), calls[n]);
    }
  }

  // --------------------------------------------------------------- what is granted, exactly

  /** Room in the budget for one more rail. */
  predicate Affordable(c: Ctl, d: nat)
    requires Shaped(c) && d < |c.st|
  {
    c.budgetMa == 0 || Load(c) + c.cfg[d].currentMa <= c.budgetMa
  }

  /**
   Exactly when a rail is granted: it is up already, under ARMED also armed, or it may be brought
   up for this reader, the budget has room and the backend agrees; and its references are not
   exhausted. The settling time runs from the switch-on, and a refusal changes nothing.
   */
  lemma AcquireExactly(c: Ctl, d: nat, now: u32, rc: int)
    requires Safe(c)
    ensures var (c', r) := Acquire(c, d, now, rc);
      && (r == 0 <==>
            && d < |c.st| && c.st[d].refs < 255
            && match c.cfg[d].policy
               case PERIODIC => c.st[d].state != OFF
               case ARMED => c.st[d].state != OFF && c.st[d].armed
               case _ => c.st[d].state != OFF || (Affordable(c, d) && rc == 0))
      && (r == 0 ==> c'.lit[d] && c'.st[d].refs == c.st[d].refs + 1)
      && (r == 0 && c.st[d].state != OFF ==> c'.st[d].tOn == c.st[d].tOn && c'.st[d].state == c.st[d].state)
      && (r == 0 && c.st[d].state == OFF ==> c'.st[d].tOn == now && IsReady(c', d, now) == (c.cfg[d].settleMs == 0))
      && (r != 0 ==> c' == c)
  {
    hide Load;
    AcquireSafe(c, d, now, rc);
  }

  /** The last release switches a per-read rail off, and no release switches any other rail off. */
  lemma ReleaseExactly(c: Ctl, d: nat)
    requires Safe(c) && d < |c.st|
    ensures var (c', r) := Release(c, d);
      && (r == 0 <==> c.st[d].refs > 0)
      && (r == 0 ==> c'.st[d].refs == c.st[d].refs - 1)
      && (c'.st[d].state == OFF <==> c.st[d].state == OFF || (c.cfg[d].policy == PER_READ && c.st[d].refs == 1))
      && forall e :: 0 <= e < |c.st| && e != d ==> c'.st[e] == c.st[e] && c'.lit[e] == c.lit[e]
  {
    hide Load;
  }

  /**
   Exactly when a tick opens the window of a periodic rail: it is off and due, the budget has room
   and the backend agrees. A due window that cannot open stays due.
   */
  lemma WindowOpensExactly(c: Ctl, d: nat, now: u32, rc: int)
    requires Safe(c) && d < |c.st| && c.cfg[d].policy == PERIODIC && c.st[d].state == OFF
    ensures var c' := TickDomain(c, d, now, rc);
      var due := c.st[d].windowDue || Elapsed(now, c.st[d].tWindow) >= c.cfg[d].periodMs;
      && (c'.st[d].state != OFF <==> due && Affordable(c, d) && rc == 0)
      && (c'.st[d].state != OFF ==> c'.st[d].tWindow == c'.st[d].tOn == now && !c'.st[d].windowDue && c'.lit[d])
      && (c'.st[d].state == OFF ==> c'.st[d].windowDue == due && c'.st[d].tWindow == c.st[d].tWindow)
  {
    hide LoadOf, Elapsed;
    var due := c.st[d].windowDue || Elapsed(now, c.st[d].tWindow) >= c.cfg[d].periodMs;
    LoadChange(c.cfg, c.st, d, c.st[d].(windowDue := due));
  }

  // -------------------------------------------------------------------- on-time caps

  predicate Capped(g: Cfg) { g.policy == PERIODIC || g.onMs != 0 }

  /** One tick on one rail: it goes down exactly when its time is up; if it comes up, that is a window opening now. */
  predicate CapKept(g: Cfg, s: Rail, s': Rail, now: u32) {
    && (s.state != OFF ==> (s'.state == OFF <==> Capped(g) && Elapsed(now, s.tOn) >= g.onMs))
    && (s.state != OFF && s'.state != OFF ==> s'.tOn == s.tOn)
    && (s.state == OFF && s'.state != OFF ==> g.policy == PERIODIC && s'.tOn == now)
    && (s.state == SETTLING && s'.state != OFF ==> (s'.state == ON <==> Elapsed(now, s.tOn) >= g.settleMs))
    && (s.state == ON && s'.state != OFF ==> s'.state == ON)
    && (s.state == OFF && s'.state != OFF ==> (s'.state == ON <==> g.settleMs == 0))
  }

  lemma TickDomainCaps(c: Ctl, d: nat, now: u32, rc: int)
    requires Shaped(c) && d < |c.st|
    ensures CapKept(c.cfg[d], c.st[d], TickDomain(c, d, now, rc).st[d], now)
    ensures forall e :: 0 <= e < |c.st| && e != d ==> TickDomain(c, d, now, rc).st[e] == c.st[e]
  {
    hide LoadOf, Elapsed;
  }

  lemma {:induction false} TickFromCaps(c: Ctl, d: nat, now: u32, rcs: seq<int>, e: nat)
    requires Shaped(c) && e < |c.st|
    ensures e >= d ==> CapKept(c.cfg[e], c.st[e], TickFrom(c, d, now, rcs).st[e], now)
    ensures e < d ==> TickFrom(c, d, now, rcs).st[e] == c.st[e]
    decreases |c.st| - d
  {
    hide TickDomain, CapKept;
    if d < |c.st| {
      TickDomainCaps(c, d, now, RcOf(rcs, d));
      TickFromCaps(TickDomain(c, d, now, RcOf(rcs, d)), d + 1, now, rcs, e);
    }
  }

  /** A tick of all rails takes exactly those down whose time is up on the clock. */
  lemma TickEnforcesCaps(c: Ctl, now: u32, rcs: seq<int>, e: nat)
    requires Shaped(c) && e < |c.st| && c.st[e].state != OFF
    ensures Tick(c, now, rcs).st[e].state == OFF <==> Capped(c.cfg[e]) && Elapsed(now, c.st[e].tOn) >= c.cfg[e].onMs
  {
    TickFromCaps(c, 0, now, rcs, e);
  }

  // ---------------------------------------------------------------- duty windows

  /** A periodic window opens when a tick brings its rail up. */
  predicate Opens(c: Ctl, c': Ctl, d: nat)
    requires Shaped(c) && Shaped(c') && |c.st| == |c'.st| && d < |c.st|
  {
    c.st[d].state == OFF && c'.st[d].state != OFF
  }

  /** `last` is the true time the window last opened, if ever; `now` the present. */
  ghost predicate WindowClock(g: Cfg, s: Rail, last: Option<nat>, now: nat) {
    last.Some? ==>
      && last.value <= now && s.tWindow == ToU32(last.value)
      && (s.windowDue ==> now - last.value >= g.periodMs)
  }

  function TimeOf(call: Call, before: nat): nat {
    match call
    case AcquireAt(_, t, _) => t
    case ReleaseAt(_) => before
    case ArmAt(_, _, t, _) => t
    case TickDomainAt(_, t, _) => t
    case TickAt(t, _) => t
  }

  /** The wrapping elapsed time never exceeds the true one. */
  lemma ElapsedAtMost(now: nat, then_: nat)
    requires then_ <= now
    ensures Elapsed(ToU32(now), ToU32(then_)) <= now - then_
  {
    assert now - then_ == (now / 0x1_0000_0000 - then_ / 0x1_0000_0000) * 0x1_0000_0000 + (ToU32(now) - ToU32(then_));
  }

  lemma TickDomainWindow(c: Ctl, e: nat, t: nat, rc: int, d: nat, last: Option<nat>, before: nat)
    requires Shaped(c) && d < |c.st| && c.cfg[d].policy == PERIODIC && before <= t
    requires WindowClock(c.cfg[d], c.st[d], last, before)
    ensures var c' := TickDomain(c, e, ToU32(t), rc);
      && |c'.st| == |c.st|
      && (Opens(c, c', d) ==> (
            e == d && WindowClock(c.cfg[d], c'.st[d], Some(t), t)
            && (last.Some? ==> t - last.value >= c.cfg[d].periodMs)))
      && (!Opens(c, c', d) ==> WindowClock(c.cfg[d], c'.st[d], last, t))
  {
    hide LoadOf, Elapsed;
    if last.Some? { ElapsedAtMost(t, last.value); }
  }

  lemma {:induction false} TickFromWindow(c: Ctl, e: nat, t: nat, rcs: seq<int>, d: nat, last: Option<nat>, before: nat)
    requires Shaped(c) && d < |c.st| && c.cfg[d].policy == PERIODIC && before <= t
    requires WindowClock(c.cfg[d], c.st[d], last, before)
    ensures var c' := TickFrom(c, e, ToU32(t), rcs);
      && |c'.st| == |c.st|
      && (Opens(c, c', d) ==> (
            WindowClock(c.cfg[d], c'.st[d], Some(t), t)
            && (last.Some? ==> t - last.value >= c.cfg[d].periodMs)))
      && (!Opens(c, c', d) ==> WindowClock(c.cfg[d], c'.st[d], last, t))
    decreases |c.st| - e
  {
    hide TickDomain, ToU32;
    if e < |c.st| {
      var m := TickDomain(c, e, ToU32(t), RcOf(rcs, e));
      TickDomainWindow(c, e, t, RcOf(rcs, e), d, last, before);
      TickDomainCaps(c, e, ToU32(t), RcOf(rcs, e));
      if e == d {
        TickFromCaps(m, e + 1, ToU32(t), rcs, d);
        SameSize(m, e + 1, ToU32(t), rcs);
      } else {
        TickFromWindow(m, e + 1, t, rcs, d, last, t);
      }
    }
  }

  lemma {:induction false} SameSize(c: Ctl, e: nat, now: u32, rcs: seq<int>)
    requires Shaped(c)
    ensures |TickFrom(c, e, now, rcs).st| == |c.st|
    decreases |c.st| - e
  {
    hide TickDomain;
    if e < |c.st| { SameSize(TickDomain(c, e, now, RcOf(rcs, e)), e + 1, now, rcs); }
  }

  lemma DoWindow(c: Ctl, call: Call, d: nat, last: Option<nat>, before: nat)
    requires Shaped(c) && d < |c.st| && c.cfg[d].policy == PERIODIC && before <= TimeOf(call, before)
    requires WindowClock(c.cfg[d], c.st[d], last, before)
    ensures var c' := Do(c, call); var t := TimeOf(call, before);
      && |c'.st| == |c.st|
      && (Opens(c, c', d) ==> (
            WindowClock(c.cfg[d], c'.st[d], Some(t), t)
            && (last.Some? ==> t - last.value >= c.cfg[d].periodMs)))
      && (!Opens(c, c', d) ==> WindowClock(c.cfg[d], c'.st[d], last, t))
  {
    hide LoadOf, TickDomain, ToU32;
    match call
    case TickDomainAt(e, t, rc) => TickDomainWindow(c, e, t, rc, d, last, before);
    case TickAt(t, rcs) => TickFromWindow(c, 0, t, rcs, d, last, before);
    case _ =>
  }

  /** The true times at which rail `d` opened a window during a run. */
  function Openings(c: Ctl, calls: seq<Call>, d: nat): (r: seq<nat>)
    requires Shaped(c) && d < |c.st|
    decreases |calls|
  {
    if calls == [] then []
    else
      var n := |calls| - 1;
      var before, after := Run(c, calls[..n]), Run(c, calls);
      Openings(c, calls[..n], d) + if Opens(before, after, d) then [TimeOf(calls[n], TimeAfter(calls[..n]))] else []
  }

  function TimeAfter(calls: seq<Call>): nat
    decreases |calls|
  {
    if calls == [] then 0 else TimeOf(calls[|calls| - 1], TimeAfter(calls[..|calls| - 1]))
  }

  ghost predicate InOrder(calls: seq<Call>)
    decreases |calls|
  {
    calls == [] || (InOrder(calls[..|calls| - 1]) && TimeAfter(calls[..|calls| - 1]) <= TimeAfter(calls))
  }

  /** Windows of one periodic rail open at least period_ms of true time apart, across clock wraps. */
  lemma {:induction false} WindowsApart(c: Ctl, calls: seq<Call>, d: nat) returns (last: Option<nat>)
    requires Shaped(c) && d < |c.st| && c.cfg[d].policy == PERIODIC && InOrder(calls)
    ensures var o := Openings(c, calls, d);
      && (forall i :: 0 < i < |o| ==> o[i] - o[i - 1] >= c.cfg[d].periodMs)
      && last == (if o == [] then None else Some(o[|o| - 1]))
      && |Run(c, calls).st| == |c.st|
      && WindowClock(c.cfg[d], Run(c, calls).st[d], last, TimeAfter(calls))
    decreases |calls|
  {
    hide Do, ToU32;
    if calls == [] {
      last := None;
    } else {
      var n := |calls| - 1;
      last := WindowsApart(c, calls[..n], d);
      DoWindow(Run(c, calls[..n]), calls[n], d, last, TimeAfter(calls[..n]));
      if Opens(Run(c, calls[..n]), Run(c, calls), d) { last := Some(TimeAfter(calls)); }
    }
  }

  // ------------------------------------------------------------------ caps in true time

  predicate TicksRail(call: Call, d: nat) {
    call.TickAt? || (call.TickDomainAt? && call.d == d)
  }

  /** The true time of the last tick of rail `d`, or of the start. */
  function LastTick(calls: seq<Call>, d: nat, start: nat): nat
    decreases |calls|
  {
    if calls == [] then start
    else if TicksRail(calls[|calls| - 1], d) then TimeAfter(calls)
    else LastTick(calls[..|calls| - 1], d, start)
  }

  /** The true time at which rail `d`, now up, last came up. */
  function UpSince(c: Ctl, calls: seq<Call>, d: nat): nat
    requires Shaped(c) && d < |c.st|
    decreases |calls|
  {
    if calls == [] then 0
    else
      var n := |calls| - 1;
      if Run(c, calls[..n]).st[d].state == OFF then TimeAfter(calls) else UpSince(c, calls[..n], d)
  }

  /** From the start on, in time order, and no rail tick later after the one before than a clock turn less the cap. */
  ghost predicate Attended(calls: seq<Call>, d: nat, start: nat, onMs: u32)
    decreases |calls|
  {
    calls == [] || (
      var n := |calls| - 1;
      && Attended(calls[..n], d, start, onMs)
      && start <= TimeAfter(calls) && LastTick(calls[..n], d, start) <= TimeAfter(calls)
      && (n > 0 ==> TimeAfter(calls[..n]) <= TimeAfter(calls))
      && (TicksRail(calls[n], d) ==> TimeAfter(calls) - LastTick(calls[..n], d, start) <= 0x1_0000_0000 - onMs))
  }

  /** What one call does to when a rail came up and whether it has settled, and a tick to a rail whose time is up. */
  predicate UpKept(g: Cfg, s: Rail, s': Rail, call: Call, d: nat, now: nat) {
    && (s.state == ON && s'.state != OFF ==> s'.state == ON)
    && (s.state == SETTLING && s'.state == ON ==> TicksRail(call, d))
    && (s.state == OFF && s'.state != OFF ==> (s'.state == ON <==> g.settleMs == 0))
    && (s.state != OFF && s'.state != OFF ==> s'.tOn == s.tOn)
    && (s.state == OFF && s'.state != OFF ==> s'.tOn == ToU32(now))
    && (TicksRail(call, d) ==> CapKept(g, s, s', ToU32(now)))
  }

  lemma DoUpKept(c: Ctl, call: Call, d: nat, before: nat)
    requires Shaped(c) && d < |c.st|
    ensures UpKept(c.cfg[d], c.st[d], Do(c, call).st[d], call, d, TimeOf(call, before))
  {
    hide LoadOf, TickDomain, ToU32;
    match call {
      case TickDomainAt(e, t, rc) =>
        if e < |c.st| { TickDomainCaps(c, e, ToU32(t), rc); } else { TickOutside(c, e, ToU32(t), rc); }
      case TickAt(t, rcs) => TickFromCaps(c, 0, ToU32(t), rcs, d);
      case _ =>
    }
  }

  lemma TickOutside(c: Ctl, e: nat, now: u32, rc: int)
    requires Shaped(c) && e >= |c.st|
    ensures TickDomain(c, e, now, rc) == c
  {
  }

  /** A rail up since `up`, at the true time `now` of its clock reading, last ticked at `ticked`. */
  ghost predicate UpInTime(g: Cfg, s: Rail, up: nat, ticked: nat, now: nat) {
    s.state != OFF ==>
      && up <= now && s.tOn == ToU32(up)
      && (Capped(g) ==> ticked <= up || ticked < up + g.onMs)
  }

  lemma StepInTime(g: Cfg, s: Rail, s': Rail, call: Call, d: nat, up: nat, ticked: nat, was: nat, now: nat)
    requires UpKept(g, s, s', call, d, now) && UpInTime(g, s, up, ticked, was) && was <= now && ticked <= now
    requires TicksRail(call, d) ==> now - ticked <= 0x1_0000_0000 - g.onMs
    ensures UpInTime(g, s', if s.state == OFF then now else up, if TicksRail(call, d) then now else ticked, now)
  {
    hide ToU32, Elapsed;
    if s.state != OFF && s'.state != OFF && TicksRail(call, d) && Capped(g) {
      ElapsedExactly(now, up);
    }
  }

  lemma ElapsedExactly(now: nat, then_: nat)
    requires then_ <= now
    ensures now - then_ < 0x1_0000_0000 ==> Elapsed(ToU32(now), ToU32(then_)) == now - then_
    ensures now - then_ == 0x1_0000_0000 ==> Elapsed(ToU32(now), ToU32(then_)) == 0
  {
    WrapDiff(now, then_);
  }

  lemma {:induction false} RunInTime(c: Ctl, calls: seq<Call>, d: nat, start: nat)
    requires Shaped(c) && d < |c.st| && c.st[d].state == OFF && Attended(calls, d, start, c.cfg[d].onMs)
    ensures UpInTime(c.cfg[d], Run(c, calls).st[d], UpSince(c, calls, d), LastTick(calls, d, start),
                     if calls == [] then start else TimeAfter(calls))
    ensures calls != [] ==> LastTick(calls, d, start) <= TimeAfter(calls)
    decreases |calls|
  {
    hide Do, UpInTime, UpKept;
    if calls == [] {
      OffInTime(c.cfg[d], c.st[d], 0, start);
    } else {
      var n := |calls| - 1;
      RunInTime(c, calls[..n], d, start);
      var r := Run(c, calls[..n]);
      DoUpKept(r, calls[n], d, TimeAfter(calls[..n]));
      StepInTime(c.cfg[d], r.st[d], Do(r, calls[n]).st[d], calls[n], d, UpSince(c, calls[..n], d),
                 LastTick(calls[..n], d, start), if n == 0 then start else TimeAfter(calls[..n]), TimeAfter(calls));
    }
  }

  lemma OffInTime(g: Cfg, s: Rail, up: nat, start: nat)
    requires s.state == OFF
    ensures UpInTime(g, s, up, start, start)
  {
  }

  /**
   On-time caps over every run, in true time and across clock wraps: while ticks come no later than
   a turn of the clock less the cap after each other, a capped rail is never up after a tick at or
   past its on_ms, other than a window that this tick opened.
   */
  lemma CapsHold(c: Ctl, calls: seq<Call>, d: nat, start: nat)
    requires Shaped(c) && d < |c.st| && c.st[d].state == OFF && Capped(c.cfg[d])
    requires Attended(calls, d, start, c.cfg[d].onMs) && calls != [] && TicksRail(calls[|calls| - 1], d)
    ensures var up, now := UpSince(c, calls, d), TimeAfter(calls);
      Run(c, calls).st[d].state != OFF ==> up <= now && (now < up + c.cfg[d].onMs || now == up)
  {
    hide Run, UpSince, Attended;
    RunInTime(c, calls, d, start);
  }

  /**
   What one tick does to a rail in true time, however late it comes: the rail goes down exactly if
   the time it has been up, less whole turns of the clock, has reached its cap.
   */
  lemma TickInTrueTime(c: Ctl, d: nat, up: nat, now: nat, rcs: seq<int>)
    requires Shaped(c) && d < |c.st| && c.st[d].state != OFF && c.st[d].tOn == ToU32(up) && up <= now
    ensures Tick(c, ToU32(now), rcs).st[d].state == OFF
       <==> Capped(c.cfg[d]) && (now - up) % 0x1_0000_0000 >= c.cfg[d].onMs
  {
    hide ToU32;
    TickEnforcesCaps(c, ToU32(now), rcs, d);
    ElapsedModulo(now, up);
  }

  lemma ElapsedModulo(now: nat, up: nat)
    requires up <= now
    ensures Elapsed(ToU32(now), ToU32(up)) == (now - up) % 0x1_0000_0000
  {
    WrapDiff(now, up);
  }
}
