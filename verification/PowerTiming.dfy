/**
 The rail controller (power.c) over time: when a rail is settled, in true milliseconds, what the
 event callback is told, and what arming does. Nothing here speaks of the controller's own steps.
 */
module PowerTiming {
  import opened Bytes
  import opened Errno
  import opened Power

  // ------------------------------------------------------------------ settled in true time

  /** A rail up since the true time `up` has, if it reads ON, been up for its settling time. */
  predicate UpClock(g: Cfg, s: Rail, up: nat, now: nat) {
    s.state != OFF ==>
      && up <= now && s.tOn == ToU32(up)
      && (s.state == ON ==> now - up >= g.settleMs)
  }

  lemma ElapsedIsModulo(now: nat, up: nat)
    requires up <= now
    ensures Elapsed(ToU32(now), ToU32(up)) == (now - up) % 0x1_0000_0000 <= now - up
  {
    ElapsedModulo(now, up);
  }

  lemma StepUpClock(g: Cfg, s: Rail, s': Rail, call: Call, d: nat, up: nat, was: nat, now: nat)
    requires UpKept(g, s, s', call, d, now) && UpClock(g, s, up, was) && was <= now
    ensures UpClock(g, s', if s.state == OFF then now else up, now)
  {
    hide ToU32, Elapsed;
    if s.state != OFF { ElapsedIsModulo(now, up); }
  }

  /** Over every run a rail that is ON has been up for at least its settling time, whatever ticks come when. */
  lemma {:induction false} OnMeansSettled(c: Ctl, calls: seq<Call>, d: nat)
    requires Shaped(c) && d < |c.st| && c.st[d].state == OFF && InOrder(calls)
    ensures UpClock(c.cfg[d], Run(c, calls).st[d], UpSince(c, calls, d), TimeAfter(calls))
    decreases |calls|
  {
    hide Do, UpClock, UpKept;
    if calls == [] {
      OffClock(c.cfg[d], c.st[d], UpSince(c, calls, d), 0);
    } else {
      var n := |calls| - 1;
      OnMeansSettled(c, calls[..n], d);
      var r := Run(c, calls[..n]);
      DoUpKept(r, calls[n], d, TimeAfter(calls[..n]));
      StepUpClock(c.cfg[d], r.st[d], Do(r, calls[n]).st[d], calls[n], d, UpSince(c, calls[..n], d),
                  TimeAfter(calls[..n]), TimeAfter(calls));
    }
  }

  lemma OffClock(g: Cfg, s: Rail, up: nat, now: nat)
    requires s.state == OFF
    ensures UpClock(g, s, up, now)
  {
  }

  /** How long rail `d`, up after these calls, has been up at the true time `now`, less whole turns of the clock. */
  function UpFor(c: Ctl, calls: seq<Call>, d: nat, now: nat): u32
    requires Shaped(c) && d < |c.st|
  {
    (now - UpSince(c, calls, d)) % 0x1_0000_0000
  }

  /**
   The last call of a run: a rail that comes up is ON at once exactly if it needs no settling, and a
   settling one that stays up becomes ON exactly by a tick that finds its settling time over.
   */
  lemma SettlesExactly(c: Ctl, calls: seq<Call>, d: nat)
    requires Shaped(c) && d < |c.st| && c.st[d].state == OFF && InOrder(calls) && calls != []
    ensures var n := |calls| - 1; var g, s, s' := c.cfg[d], Run(c, calls[..n]).st[d], Run(c, calls).st[d];
      && (s.state == OFF && s'.state != OFF ==> (s'.state == ON <==> g.settleMs == 0))
      && (s.state == SETTLING && s'.state != OFF ==>
            (s'.state == ON
             <==> TicksRail(calls[n], d) && UpFor(c, calls[..n], d, TimeAfter(calls)) >= g.settleMs))
      && (s.state == ON && s'.state != OFF ==> s'.state == ON)
  {
    hide Do, ToU32, Elapsed, UpSince;
    var n := |calls| - 1;
    OnMeansSettled(c, calls[..n], d);
    DoUpKept(Run(c, calls[..n]), calls[n], d, TimeAfter(calls[..n]));
    if Run(c, calls[..n]).st[d].state != OFF { ElapsedIsModulo(TimeAfter(calls), UpSince(c, calls[..n], d)); }
  }

  /** Readiness in true time: settled already, or settling for long enough. */
  lemma ReadyExactly(c: Ctl, calls: seq<Call>, d: nat, now: nat)
    requires Shaped(c) && d < |c.st| && c.st[d].state == OFF && InOrder(calls) && TimeAfter(calls) <= now
    ensures var g, s := c.cfg[d], Run(c, calls).st[d];
      && (IsReady(Run(c, calls), d, ToU32(now))
          <==> s.state == ON || (s.state == SETTLING && UpFor(c, calls, d, now) >= g.settleMs))
      && (IsReady(Run(c, calls), d, ToU32(now)) ==> now - UpSince(c, calls, d) >= g.settleMs)
  {
    hide Do, ToU32, Elapsed, Run;
    OnMeansSettled(c, calls, d);
    if Run(c, calls).st[d].state != OFF { ElapsedIsModulo(now, UpSince(c, calls, d)); }
  }

  predicate ReadyLater(c: Ctl, d: nat, now: nat, dt: nat)
    requires Shaped(c)
  {
    IsReady(c, d, ToU32(now + dt))
  }

  /** The settling time remaining is exact: slept for, the rail is ready, and not a millisecond sooner. */
  lemma RemainingExactly(c: Ctl, d: nat, now: nat)
    requires Shaped(c) && d < |c.st| && c.st[d].state == SETTLING
    ensures var rem := SettleRemaining(c, d, ToU32(now));
      ReadyLater(c, d, now, rem) && forall dt: nat :: dt < rem ==> !ReadyLater(c, d, now, dt)
  {
    hide ToU32, Elapsed;
    var rem := SettleRemaining(c, d, ToU32(now));
    forall dt: nat | dt <= rem ensures ReadyLater(c, d, now, dt) <==> dt == rem {
      Later(now, c.st[d].tOn, dt);
    }
  }

  lemma Later(now: nat, tOn: u32, dt: nat)
    ensures Elapsed(ToU32(now), tOn) + dt < 0x1_0000_0000 ==>
              Elapsed(ToU32(now + dt), tOn) == Elapsed(ToU32(now), tOn) + dt
  {
    hide ToU32;
    WrapSum(now, -(tOn as int));
    WrapSum(now + dt, -(tOn as int));
    WrapSum(now - tOn, dt);
    InRange(ToU32(now - tOn) + dt);
  }

  lemma InRange(x: int)
    ensures 0 <= x < 0x1_0000_0000 ==> ToU32(x) == x
  {
  }

  // -------------------------------------------------------------------- what is reported

  /** When the callback hears `e` of a rail: by its state before and after, and whether a tick visited it. */
  predicate Reported(g: Cfg, s: Rail, s': Rail, ticked: bool, now: u32, e: Event) {
    match e
    case READY =>
      || (s.state == SETTLING && ticked && Elapsed(now, s.tOn) >= g.settleMs)
      || (s.state == OFF && s'.state == ON)
    case WENT_OFF => s.state != OFF && s'.state == OFF
    case TIMEOUT => s.state != OFF && s'.state == OFF && ticked && g.policy != PERIODIC
    case DEFERRED => s.state == OFF && s'.state == OFF && ticked && g.policy == PERIODIC && s'.windowDue
  }

  /** These events, and no others, of rails from `from` up to `upto`. */
  ghost predicate Tells(delta: seq<(nat, Event)>, c: Ctl, c': Ctl, from: nat, upto: nat, ticked: bool, now: u32)
    requires Shaped(c) && Shaped(c') && |c.st| == |c'.st|
  {
    forall d: nat, e :: (d, e) in delta
      <==> from <= d < upto && d < |c.st| && Reported(c.cfg[d], c.st[d], c'.st[d], ticked, now, e)
  }

  function One(yes: bool, d: nat, e: Event): seq<(nat, Event)> { if yes then [(d, e)] else [] }

  /** The events of one tick of one rail, in order. */
  lemma TickDomainLog(c: Ctl, d: nat, now: u32, rc: int)
    requires Shaped(c) && d < |c.st|
    ensures var c' := TickDomain(c, d, now, rc); var g, s, s' := c.cfg[d], c.st[d], c'.st[d];
      c'.log == c.log + One(Reported(g, s, s', true, now, READY), d, READY)
                + One(Reported(g, s, s', true, now, TIMEOUT), d, TIMEOUT)
                + One(Reported(g, s, s', true, now, WENT_OFF), d, WENT_OFF)
                + One(Reported(g, s, s', true, now, DEFERRED), d, DEFERRED)
  {
    hide LoadOf, Elapsed;
  }

  lemma TickDomainTells(c: Ctl, d: nat, now: u32, rc: int) returns (delta: seq<(nat, Event)>)
    requires Shaped(c) && d < |c.st|
    ensures var c' := TickDomain(c, d, now, rc);
      c'.log == c.log + delta && Tells(delta, c, c', d, d + 1, true, now)
  {
    hide TickDomain, Reported;
    TickDomainLog(c, d, now, rc);
    var c' := TickDomain(c, d, now, rc);
    var g, s, s' := c.cfg[d], c.st[d], c'.st[d];
    var a := One(Reported(g, s, s', true, now, READY), d, READY);
    var b := One(Reported(g, s, s', true, now, TIMEOUT), d, TIMEOUT);
    var o := One(Reported(g, s, s', true, now, WENT_OFF), d, WENT_OFF);
    var f := One(Reported(g, s, s', true, now, DEFERRED), d, DEFERRED);
    delta := a + b + o + f;
    assert c.log + a + b + o + f == c.log + delta;
    forall x: nat, ev
      ensures (x, ev) in delta <==> d <= x < d + 1 && x < |c.st| && Reported(c.cfg[x], c.st[x], c'.st[x], true, now, ev)
    {
      match ev
      case READY => assert (x, ev) in delta <==> (x, ev) in a;
      case TIMEOUT => assert (x, ev) in delta <==> (x, ev) in b;
      case WENT_OFF => assert (x, ev) in delta <==> (x, ev) in o;
      case DEFERRED => assert (x, ev) in delta <==> (x, ev) in f;
    }
  }

  /** A tick of all rails tells the events of each, and nothing else. */
  lemma {:induction false} TickFromTells(c: Ctl, d: nat, now: u32, rcs: seq<int>) returns (delta: seq<(nat, Event)>)
    requires Shaped(c)
    ensures var c' := TickFrom(c, d, now, rcs);
      c'.log == c.log + delta && Tells(delta, c, c', d, |c.st|, true, now)
    decreases |c.st| - d
  {
    hide TickDomain, Reported;
    delta := [];
    if d < |c.st| {
      var m := TickDomain(c, d, now, RcOf(rcs, d));
      var first := TickDomainTells(c, d, now, RcOf(rcs, d));
      TickDomainCaps(c, d, now, RcOf(rcs, d));
      var rest := TickFromTells(m, d + 1, now, rcs);
      delta := first + rest;
      assert c.log + first + rest == c.log + delta;
      var c' := TickFrom(c, d, now, rcs);
      forall e: nat, ev
        ensures (e, ev) in delta <==> d <= e < |c.st| && Reported(c.cfg[e], c.st[e], c'.st[e], true, now, ev)
      {
        TickFromCaps(m, d + 1, now, rcs, d);
      }
    }
  }

  lemma AcquireTells(c: Ctl, d: nat, t: u32, rc: int) returns (delta: seq<(nat, Event)>)
    requires Shaped(c)
    ensures var c' := Acquire(c, d, t, rc).0;
      c'.log == c.log + delta && |c'.st| == |c.st| && Tells(delta, c, c', 0, |c.st|, false, t)
  {
    hide LoadOf, Elapsed;
    delta := Acquire(c, d, t, rc).0.log[|c.log|..];
  }

  lemma ReleaseTells(c: Ctl, d: nat, t: u32) returns (delta: seq<(nat, Event)>)
    requires Shaped(c)
    ensures var c' := Release(c, d).0;
      c'.log == c.log + delta && |c'.st| == |c.st| && Tells(delta, c, c', 0, |c.st|, false, t)
  {
    hide LoadOf, Elapsed;
    delta := Release(c, d).0.log[|c.log|..];
  }

  lemma ArmTells(c: Ctl, d: nat, armed: bool, t: u32, rc: int) returns (delta: seq<(nat, Event)>)
    requires Shaped(c)
    ensures var c' := Arm(c, d, armed, t, rc).0;
      c'.log == c.log + delta && |c'.st| == |c.st| && Tells(delta, c, c', 0, |c.st|, false, t)
  {
    hide LoadOf, Elapsed;
    delta := Arm(c, d, armed, t, rc).0.log[|c.log|..];
  }

  /**
   Whatever call is made, the callback hears of every rail exactly this: READY when a settling rail's
   time is found over, or it comes up needing none; OFF whenever it goes down; TIMEOUT when a tick
   takes down a rail that is not periodic; DEFERRED when a due window could not open.
   */
  lemma CallTells(c: Ctl, call: Call, before: nat) returns (delta: seq<(nat, Event)>)
    requires Shaped(c)
    ensures var c' := Do(c, call);
      && c'.log == c.log + delta && |c'.st| == |c.st|
      && forall d: nat, e :: (d, e) in delta <==>
           d < |c.st| && Reported(c.cfg[d], c.st[d], c'.st[d], TicksRail(call, d), ToU32(TimeOf(call, before)), e)
  {
    hide TickDomain, Acquire, Release, Arm, TickFrom, ToU32, Elapsed;
    match call {
      case TickDomainAt(e, t, rc) =>
        if e < |c.st| {
          delta := TickDomainTells(c, e, ToU32(t), rc);
          TickDomainCaps(c, e, ToU32(t), rc);
        } else {
          TickOutside(c, e, ToU32(t), rc);
          delta := [];
        }
      case TickAt(t, rcs) => delta := TickFromTells(c, 0, ToU32(t), rcs);
      case AcquireAt(d, t, rc) => delta := AcquireTells(c, d, ToU32(t), rc);
      case ReleaseAt(d) => delta := ReleaseTells(c, d, ToU32(before));
      case ArmAt(d, armed, t, rc) => delta := ArmTells(c, d, armed, ToU32(t), rc);
    }
  }

  // ----------------------------------------------------------------------------- arming

  /**
   Arming a rail of policy ARMED brings it up exactly if it is up already or the budget and the
   backend allow, and leaves it armed even if they do not; disarming always takes it down.
   */
  lemma ArmExactly(c: Ctl, d: nat, armed: bool, now: u32, rc: int)
    requires Safe(c)
    ensures var (c', r) := Arm(c, d, armed, now, rc);
      && (d >= |c.st| ==> r == -EINVAL && c' == c)
      && (d < |c.st| && c.cfg[d].policy != ARMED ==> r == -ENOTSUP && c' == c)
      && (d < |c.st| && c.cfg[d].policy == ARMED ==>
            && c'.st[d].armed == armed
            && (r == 0 <==> !armed || c.st[d].state != OFF || (Affordable(c, d) && rc == 0))
            && (c'.st[d].state != OFF <==> armed && r == 0) && (c'.lit[d] <==> armed && r == 0)
            && (c.st[d].state == OFF && c'.st[d].state != OFF ==> c'.st[d].tOn == now)
            && (c.st[d].state != OFF && armed ==> c' == c))
      && forall e :: 0 <= e < |c.st| && e != d ==> c'.st[e] == c.st[e] && c'.lit[e] == c.lit[e]
  {
    hide LoadOf;
    if d < |c.st| { LoadChange(c.cfg, c.st, d, c.st[d].(armed := armed)); }
  }

  /**
   After initialisation every rail is down, dark, unheld and unarmed; the first tick of a periodic rail
   opens its window at once, if the budget has room and the backend agrees, and that of any other nothing.
   */
  lemma FirstTick(cfg: seq<Cfg>, budgetMa: u16, start: u32, d: nat, now: u32, rc: int)
    requires |cfg| <= 255 && d < |cfg|
    ensures var c := Init(cfg, budgetMa, start);
      && c.st[d].state == OFF && !c.lit[d] && c.st[d].refs == 0 && !c.st[d].armed && c.log == []
      && (TickDomain(c, d, now, rc).st[d].state != OFF
          <==> cfg[d].policy == PERIODIC && rc == 0 && (budgetMa == 0 || cfg[d].currentMa <= budgetMa))
  {
    hide LoadOf, Elapsed;
    var c := Init(cfg, budgetMa, start);
    InitSafe(cfg, budgetMa, start);
    LoadZero(cfg, c.st);
    if cfg[d].policy == PERIODIC { WindowOpensExactly(c, d, now, rc); }
  }
}
