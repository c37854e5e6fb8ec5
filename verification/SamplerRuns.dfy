/**
 The acquisition sequencer (sampler.c) over whole runs: which transducers a cycle and a ready event
 read, in which order and with what left in the frame, what the error count means, and that a driver
 is never called before its rail has been up for the settling time.
 */
module SamplerRuns {
  import opened Bytes
  import opened Params
  import opened Power
  import opened PowerTiming
  import opened Sampler

  // ------------------------------------------------------------ every reading is a settled one

  /** The controller is where the listed calls lead from `c0`, in time order and none later than now. */
  ghost predicate Traced(c0: Ctl, s: State) {
    && Shaped(c0) && WellFormed(s)
    && s.ctl == Run(c0, s.calls) && InOrder(s.calls) && TimeAfter(s.calls) <= s.now
  }

  /** So was it when a driver was called. */
  ghost predicate TracedAccess(c0: Ctl, a: Access) {
    Shaped(c0) && a.ctl == Run(c0, a.calls) && InOrder(a.calls) && TimeAfter(a.calls) <= a.when
  }

  ghost predicate AllTraced(c0: Ctl, s: State) {
    Traced(c0, s) && forall k :: 0 <= k < |s.accesses| ==> TracedAccess(c0, s.accesses[k])
  }

  lemma OneMore(c0: Ctl, s: State, call: Call, now: nat)
    requires Traced(c0, s) && TimeAfter(s.calls) <= TimeOf(call, TimeAfter(s.calls)) <= now
    ensures var cs := s.calls + [call]; Run(c0, cs) == Do(s.ctl, call) && InOrder(cs) && TimeAfter(cs) <= now
  {
    hide Do;
    assert (s.calls + [call])[..|s.calls|] == s.calls;
  }

  lemma RoundTraced(c0: Ctl, w: World, s: State, d: nat)
    requires Traced(c0, s) && d < |s.ctl.st|
    ensures Traced(c0, Round(w, s, d))
  {
    hide TickDomain, ToU32, SettleRemaining, Run, InOrder, TimeAfter;
    var t := Round(w, s, d);
    OneMore(c0, s, TickDomainAt(d, t.now, w.backend(s.steps)), t.now);
  }

  lemma {:induction false} WaitTraced(c0: Ctl, w: World, s: State, d: nat)
    requires Traced(c0, s) && d < |s.ctl.st|
    ensures Traced(c0, Wait(w, s, d).0)
    decreases if Ready(s, d) then 0 else 1, Patience(s.ctl, d, ToU32(s.now))
  {
    hide Ready, Round, Patience, ToU32, Run, InOrder, TimeAfter;
    if !Ready(s, d) {
      RoundsEnd(w, s, d);
      RoundTraced(c0, w, s, d);
      var t := Round(w, s, d);
      if t.ctl.st[d].state != OFF { WaitTraced(c0, w, t, d); }
    }
  }

  lemma GrantedTraced(c0: Ctl, w: World, s: State, d: Desc)
    requires Traced(c0, s) && Wired(d, s.ctl) && d.domain != NO_DOMAIN
    ensures Traced(c0, Granted(w, s, d).0)
  {
    hide Acquire, ToU32, Run, InOrder, TimeAfter;
    OneMore(c0, s, AcquireAt(d.domain, s.now, w.backend(s.steps)), s.now);
  }

  lemma BringUpTraced(c0: Ctl, w: World, s: State, d: Desc)
    requires Traced(c0, s) && Wired(d, s.ctl)
    ensures Traced(c0, BringUp(w, s, d).0)
  {
    hide Granted, Wait, Run, InOrder, TimeAfter;
    if d.domain != NO_DOMAIN {
      var m := s.(frame := Masked(s.frame, d, 0));
      GrantedTraced(c0, w, m, d);
      WaitTraced(c0, w, Granted(w, m, d).0, d.domain);
    }
  }

  lemma ReadOutTraced(c0: Ctl, w: World, s: State, d: Desc)
    requires AllTraced(c0, s) && Wired(d, s.ctl)
    ensures AllTraced(c0, ReadOut(w, s, d).0)
  {
    hide Release, Run, InOrder, TimeAfter, StoreAll;
    if Managed(s.ctl, d) { OneMore(c0, s, ReleaseAt(d.domain), s.now); }
  }

  lemma ReadingTraced(c0: Ctl, w: World, s: State, d: Desc)
    requires AllTraced(c0, s) && Wired(d, s.ctl)
    ensures AllTraced(c0, ReadDesc(w, s, d).0)
  {
    hide BringUp, ReadOut, Run, InOrder, TimeAfter, TracedAccess;
    BringUpTraced(c0, w, s, d);
    var up := BringUp(w, s, d);
    if up.1 == 0 { ReadOutTraced(c0, w, up.0, d); }
  }

  lemma {:induction false} WalkTraced(c0: Ctl, w: World, s: State, sel: seq<Desc>)
    requires AllTraced(c0, s) && AllWired(sel, s.ctl)
    ensures AllTraced(c0, Walk(w, s, sel).0)
    decreases |sel|
  {
    hide ReadDesc, Run, InOrder, TimeAfter, TracedAccess;
    if sel != [] {
      WalkTraced(c0, w, s, sel[..|sel| - 1]);
      var before := Walk(w, s, sel[..|sel| - 1]).0;
      ReadingTraced(c0, w, before, sel[|sel| - 1]);
    }
  }

  lemma {:induction false} OnReadyTraced(c0: Ctl, w: World, s: State, sel: seq<Desc>, dom: nat)
    requires AllTraced(c0, s) && AllWired(sel, s.ctl)
    ensures AllTraced(c0, OnReady(w, s, sel, dom))
    decreases |sel|
  {
    hide ReadDesc, Run, InOrder, TimeAfter, TracedAccess;
    if sel != [] {
      OnReadyTraced(c0, w, s, sel[..|sel| - 1], dom);
      ReadingTraced(c0, w, OnReady(w, s, sel[..|sel| - 1], dom), sel[|sel| - 1]);
    }
  }

  lemma PerformTraced(c0: Ctl, w: World, sel: seq<Desc>, s: State, act: Act)
    requires AllTraced(c0, s) && AllWired(sel, s.ctl)
    ensures AllTraced(c0, Perform(w, sel, s, act))
  {
    hide Walk, OnReady, Tick, Arm, ToU32, Run, InOrder, TimeAfter, TracedAccess;
    match act {
      case RunCycle => WalkTraced(c0, w, s.(frame := s.frame.(cycle := ToU32(s.frame.cycle + 1))), sel);
      case DomainReady(dom) => OnReadyTraced(c0, w, s, sel, dom);
      case TickAll(rcs) => OneMore(c0, s, TickAt(s.now, rcs), s.now);
      case ArmRail(d, armed, rc) => OneMore(c0, s, ArmAt(d, armed, s.now, rc), s.now);
      case Pass(ms) =>
    }
  }

  lemma {:induction false} RunsTraced(c0: Ctl, w: World, sel: seq<Desc>, now: nat, acts: seq<Act>)
    requires Shaped(c0) && AllWired(sel, c0)
    ensures AllTraced(c0, PerformAll(w, sel, Start(c0, now), acts))
    decreases |acts|
  {
    hide Perform, TracedAccess, WellFormed;
    if acts != [] {
      var n := |acts| - 1;
      RunsTraced(c0, w, sel, now, acts[..n]);
      PerformTraced(c0, w, sel, PerformAll(w, sel, Start(c0, now), acts[..n]), acts[n]);
    }
  }

  /** A driver's call in true time: its rail, if it has one, is lit and has been up for the settling time. */
  ghost predicate SettledAccess(c0: Ctl, a: Access) {
    && TracedAccess(c0, a)
    && (a.desc.domain != NO_DOMAIN ==>
          && 0 <= a.desc.domain < |c0.st| && |a.ctl.st| == |c0.st|
          && a.ctl.st[a.desc.domain].state != OFF && a.ctl.lit[a.desc.domain]
          && a.when - UpSince(c0, a.calls, a.desc.domain) >= c0.cfg[a.desc.domain].settleMs)
  }

  /**
   Over every run of the pod: whenever a driver was called, its rail was lit and had been up, in true
   milliseconds since the switch-on, for at least its settling time.
   */
  lemma OnlySettledRailsAreRead(w: World, sel: seq<Desc>, cfg: seq<Cfg>, budgetMa: u16, now: nat, acts: seq<Act>)
    requires |cfg| <= 255 && AllWired(sel, Init(cfg, budgetMa, ToU32(now)))
    ensures var c0 := Init(cfg, budgetMa, ToU32(now));
      forall a :: a in PerformAll(w, sel, Start(c0, now), acts).accesses ==> SettledAccess(c0, a)
  {
    hide PerformAll, ToU32, SettledAccess, TracedAccess, Traced, Backed, Run, Safe, PerReadOff;
    var c0 := Init(cfg, budgetMa, ToU32(now));
    RunsTraced(c0, w, sel, now, acts);
    NothingLeftEnergisedNothingImputed(w, sel, cfg, budgetMa, now, acts);
    var as_ := PerformAll(w, sel, Start(c0, now), acts).accesses;
    forall a | a in as_ ensures SettledAccess(c0, a) {
      var k :| 0 <= k < |as_| && as_[k] == a;
      Settled(c0, a);
    }
  }

  lemma Settled(c0: Ctl, a: Access)
    requires TracedAccess(c0, a) && GoodAccess(a)
    requires forall d :: 0 <= d < |c0.st| ==> c0.st[d].state == OFF
    ensures SettledAccess(c0, a)
  {
    hide Run, ToU32, UpSince, InOrder, TimeAfter;
    SameRails(c0, a.calls);
    if a.desc.domain != NO_DOMAIN { ReadyExactly(c0, a.calls, a.desc.domain, a.when); }
  }

  lemma {:induction false} SameRails(c: Ctl, calls: seq<Call>)
    requires Shaped(c)
    ensures |Run(c, calls).st| == |c.st|
  {
  }

  // -------------------------------------------------- what a cycle and a ready event do

  /** What became of one selected transducer: not its turn, refused power, or its driver's answer. */
  datatype Outcome = NotNow | Refused(rc: int) | Asked(got: Reading)

  /** The answers of the drivers asked, in the order of the selection. */
  function AnswersIn(sel: seq<Desc>, out: seq<Outcome>): (r: seq<(Desc, Reading)>)
    requires |sel| == |out|
    decreases |sel|
  {
    if sel == [] then []
    else
      var n := |sel| - 1;
      AnswersIn(sel[..n], out[..n]) + if out[n].Asked? then [(sel[n], out[n].got)] else []
  }

  function AnswersOf(accesses: seq<Access>): (r: seq<(Desc, Reading)>)
  {
    seq(|accesses|, k requires 0 <= k < |accesses| => (accesses[k].desc, accesses[k].got))
  }

  predicate Erred(o: Outcome) {
    (o.Refused? && o.rc < 0) || (o.Asked? && o.got.Failed?)
  }

  function ErrorsIn(out: seq<Outcome>): nat
    decreases |out|
  {
    if out == [] then 0 else ErrorsIn(out[..|out| - 1]) + if Erred(out[|out| - 1]) then 1 else 0
  }

  /** Sample `i` is the last that is valid and for `p`. */
  ghost predicate LastAnswer(xs: seq<Sample>, i: nat, p: u8) {
    && i < |xs| && xs[i].param == p && xs[i].flags & VALID != 0
    && forall j :: i < j < |xs| ==> xs[j].param != p || xs[j].flags & VALID == 0
  }

  /** What a transducer whose turn it was leaves in the entry of a parameter it reports, once carried over. */
  ghost predicate Left(o: Outcome, stale: bool, f: Frame, p: u8)
    requires |f.value| == |f.flags| == PARAMS + 1 && p <= PARAMS
  {
    match o
    case NotNow => true
    case Refused(_) => f.flags[p] == NOPOWER
    case Asked(Failed(_)) => f.flags[p] == FAULT
    case Asked(Got(xs)) =>
      && (forall i: nat :: LastAnswer(xs, i, p) ==>
            && f.value[p] == xs[i].value
            && f.flags[p] == if stale then xs[i].flags | VALID | STALE else (xs[i].flags & !STALE) | VALID)
      && ((forall i: nat :: !LastAnswer(xs, i, p)) ==> f.flags[p] == 0)
  }

  /** One transducer whose turn it is: its outcome, the error code, and its entries. */
  lemma ReadDescExactly(w: World, s: State, d: Desc) returns (o: Outcome)
    requires WellFormed(s) && Wired(d, s.ctl) && Safe(s.ctl)
    ensures var (t, rc) := ReadDesc(w, s, d);
      && !o.NotNow? && (d.domain == NO_DOMAIN ==> o.Asked?)
      && (rc < 0 <==> Erred(o)) && (o.Refused? ==> rc == o.rc != 0)
      && AnswersOf(t.accesses) == AnswersOf(s.accesses) + (if o.Asked? then [(d, o.got)] else [])
      && (forall p: u8 :: p <= PARAMS ==> EntryMoves(d, o, s.frame, t.frame, p, false))
      && t.frame.cycle == s.frame.cycle
  {
    hide BringUp, ToU32, Load, Safe, StoreAll, IsReady, Release, Reports, Marked;
    BringUpMeans(w, s, d);
    if d.domain == NO_DOMAIN { NoRailIsUp(w, s, d); }
    var up := BringUp(w, s, d);
    if up.1 != 0 {
      o := Refused(up.1);
    } else {
      var got := w.reading(up.0.steps);
      o := Asked(got);
      if got.Got? {
        forall p: u8 | p <= PARAMS
          ensures var g := StoreAll(up.0.frame, d, got.samples);
            && (!Reports(d, p) ==> g.value[p] == s.frame.value[p] && g.flags[p] == s.frame.flags[p])
            && (Reports(d, p) ==> Left(o, false, g, p))
        {
          StoredLeft(up.0.frame, d, got.samples, p);
        }
      }
    }
  }

  lemma NoRailIsUp(w: World, s: State, d: Desc)
    requires WellFormed(s) && Wired(d, s.ctl) && d.domain == NO_DOMAIN
    ensures BringUp(w, s, d).1 == 0
  {
  }

  lemma StoredLeft(f: Frame, d: Desc, xs: Samples, p: u8)
    requires |f.value| == |f.flags| == PARAMS + 1 && p <= PARAMS
    ensures var g := StoreAll(f, d, xs);
      && (!Reports(d, p) ==> g.value[p] == f.value[p] && g.flags[p] == f.flags[p])
      && (Reports(d, p) && f.flags[p] == 0 ==> Left(Asked(Got(xs)), false, g, p))
  {
    hide StoreAll, Reports;
    StoreAllIs(f, d, xs, p);
    LastForWhere(d, xs, p);
  }

  lemma {:induction false} LastForWhere(d: Desc, xs: seq<Sample>, p: u8)
    ensures var l := LastFor(d, xs, p);
      && (Reports(d, p) ==> forall i: nat :: LastAnswer(xs, i, p) ==> l == Some(xs[i]))
      && (l.Some? ==> Reports(d, p) && exists i: nat :: LastAnswer(xs, i, p))
    decreases |xs|
  {
    hide Reports;
    if xs != [] {
      var n := |xs| - 1;
      LastForWhere(d, xs[..n], p);
      if Usable(d, xs[n]) && xs[n].param == p {
        assert LastAnswer(xs, n, p);
      } else {
        forall i: nat | LastAnswer(xs, i, p) && i < n ensures LastAnswer(xs[..n], i, p) {}
        if Reports(d, p) {
          forall i: nat | LastAnswer(xs[..n], i, p) ensures LastAnswer(xs, i, p) {}
        }
      }
    }
  }

  /** Transducer `k` is the last to leave its mark on the entry of `p`. */
  ghost predicate LastToWrite(sel: seq<Desc>, out: seq<Outcome>, k: nat, p: u8)
    requires |sel| == |out|
  {
    && k < |sel| && Reports(sel[k], p) && !out[k].NotNow?
    && forall j :: k < j < |sel| && Reports(sel[j], p) ==> out[j].NotNow?
  }

  /** Some transducer from the `k`-th on reports `p`. */
  predicate ReportedFrom(sel: seq<Desc>, k: nat, p: u8) {
    exists j :: k <= j < |sel| && Reports(sel[j], p)
  }

  predicate Touched(sel: seq<Desc>, out: seq<Outcome>, p: u8)
    requires |sel| == |out|
  {
    exists k :: 0 <= k < |sel| && Reports(sel[k], p) && !out[k].NotNow?
  }

  /**
   The entry of `p` after these outcomes: what the last transducer to write it left or, if none of
   those reporting it had its turn, what it was; marked stale if a cycle passed one over since.
   */
  ghost predicate Entry(sel: seq<Desc>, out: seq<Outcome>, f: Frame, g: Frame, p: u8, stales: bool)
    requires |sel| == |out| && |f.value| == |f.flags| == |g.value| == |g.flags| == PARAMS + 1 && p <= PARAMS
  {
    && (forall k: nat :: LastToWrite(sel, out, k, p) ==>
          Left(out[k], stales && ReportedFrom(sel, k + 1, p), g, p))
    && (!Touched(sel, out, p) ==>
          && g.value[p] == f.value[p]
          && g.flags[p] == if stales && ReportedFrom(sel, 0, p) && f.flags[p] & VALID != 0 then f.flags[p] | STALE
                           else f.flags[p])
  }

  /** What both walks over the selection do: the drivers asked, in order, and every entry. */
  ghost predicate Outcomes(sel: seq<Desc>, out: seq<Outcome>, s: State, t: State, stales: bool)
    requires WellFormed(s) && WellFormed(t)
  {
    && |out| == |sel|
    && (forall i :: 0 <= i < |sel| && sel[i].domain == NO_DOMAIN ==> out[i].Asked?)
    && AnswersOf(t.accesses) == AnswersOf(s.accesses) + AnswersIn(sel, out)
    && forall p: u8 :: p <= PARAMS ==> Entry(sel, out, s.frame, t.frame, p, stales)
  }

  lemma Grown(sel: seq<Desc>, d: Desc, k: nat, p: u8)
    requires k <= |sel|
    ensures ReportedFrom(sel + [d], k, p) <==> ReportedFrom(sel, k, p) || Reports(d, p)
  {
    hide Reports;
    var sel' := sel + [d];
    assert sel'[|sel|] == d;
    if ReportedFrom(sel, k, p) {
      var j :| k <= j < |sel| && Reports(sel[j], p);
      assert Reports(sel'[j], p);
    }
  }

  /** What a transducer left, passed over or not. */
  lemma LeftPast(o: Outcome, stale: bool, g: Frame, h: Frame, p: u8, passed: bool)
    requires |g.value| == |g.flags| == |h.value| == |h.flags| == PARAMS + 1 && p <= PARAMS
    requires Left(o, stale, g, p) && h.value[p] == g.value[p] && h.flags[p] == Carried(passed, g.flags[p])
    ensures Left(o, stale || passed, h, p)
  {
  }

  /** What one more transducer does to the entry of `p`. */
  ghost predicate EntryMoves(d: Desc, o: Outcome, g: Frame, h: Frame, p: u8, stales: bool)
    requires |g.value| == |g.flags| == |h.value| == |h.flags| == PARAMS + 1 && p <= PARAMS
  {
    if Reports(d, p) && !o.NotNow? then Left(o, false, h, p)
    else h.value[p] == g.value[p] && h.flags[p] == Carried(Reports(d, p) && stales, g.flags[p])
  }

  lemma WrittenStep(sel: seq<Desc>, out: seq<Outcome>, d: Desc, o: Outcome, f: Frame, g: Frame, h: Frame, p: u8,
                    stales: bool, k: nat)
    requires |sel| == |out| && |f.value| == |f.flags| == |g.value| == |g.flags| == PARAMS + 1 && p <= PARAMS
    requires |h.value| == |h.flags| == PARAMS + 1
    requires Entry(sel, out, f, g, p, stales) && EntryMoves(d, o, g, h, p, stales)
    requires LastToWrite(sel + [d], out + [o], k, p)
    ensures Left((out + [o])[k], stales && ReportedFrom(sel + [d], k + 1, p), h, p)
  {
    hide Reports, Left, Carried, Touched;
    var n := |sel|;
    var sel', out' := sel + [d], out + [o];
    assert sel'[n] == d && out'[n] == o;
    if k < n {
      assert forall j :: 0 <= j < n ==> sel'[j] == sel[j] && out'[j] == out[j];
      assert LastToWrite(sel, out, k, p);
      Grown(sel, d, k + 1, p);
      LeftPast(out[k], stales && ReportedFrom(sel, k + 1, p), g, h, p, Reports(d, p) && stales);
    }
  }

  lemma TouchedStep(sel: seq<Desc>, out: seq<Outcome>, d: Desc, o: Outcome, p: u8)
    requires |sel| == |out|
    ensures Touched(sel + [d], out + [o], p) <==> Touched(sel, out, p) || (Reports(d, p) && !o.NotNow?)
  {
    hide Reports;
    var sel', out' := sel + [d], out + [o];
    assert sel'[|sel|] == d && out'[|sel|] == o;
    if Touched(sel, out, p) {
      var k :| 0 <= k < |sel| && Reports(sel[k], p) && !out[k].NotNow?;
      assert Reports(sel'[k], p) && !out'[k].NotNow?;
    }
  }

  lemma EntryStep(sel: seq<Desc>, out: seq<Outcome>, d: Desc, o: Outcome, f: Frame, g: Frame, h: Frame, p: u8,
                  stales: bool)
    requires |sel| == |out| && |f.value| == |f.flags| == |g.value| == |g.flags| == PARAMS + 1 && p <= PARAMS
    requires |h.value| == |h.flags| == PARAMS + 1
    requires Entry(sel, out, f, g, p, stales)
    requires EntryMoves(d, o, g, h, p, stales)
    ensures Entry(sel + [d], out + [o], f, h, p, stales)
  {
    hide Reports, Left, Touched, ReportedFrom;
    forall k: nat | LastToWrite(sel + [d], out + [o], k, p)
      ensures Left((out + [o])[k], stales && ReportedFrom(sel + [d], k + 1, p), h, p)
    {
      WrittenStep(sel, out, d, o, f, g, h, p, stales, k);
    }
    TouchedStep(sel, out, d, o, p);
    Grown(sel, d, 0, p);
    FlagBits(f.flags[p]);
  }

  lemma AnswersNext(sel: seq<Desc>, out: seq<Outcome>, d: Desc, o: Outcome)
    requires |sel| == |out|
    ensures AnswersIn(sel + [d], out + [o]) == AnswersIn(sel, out) + if o.Asked? then [(d, o.got)] else []
    ensures ErrorsIn(out + [o]) == ErrorsIn(out) + if Erred(o) then 1 else 0
  {
    hide Erred;
    assert (sel + [d])[..|sel|] == sel && (out + [o])[..|out|] == out;
  }

  lemma OutcomesStep(sel: seq<Desc>, out: seq<Outcome>, o: Outcome, s: State, m: State, t: State, stales: bool)
    requires WellFormed(s) && WellFormed(m) && WellFormed(t) && |sel| == |out| + 1
    requires Outcomes(sel[..|out|], out, s, m, stales)
    requires var d := sel[|out|];
      && (d.domain == NO_DOMAIN ==> o.Asked?)
      && AnswersOf(t.accesses) == AnswersOf(m.accesses) + (if o.Asked? then [(d, o.got)] else [])
      && forall p: u8 :: p <= PARAMS ==> EntryMoves(d, o, m.frame, t.frame, p, stales)
    ensures Outcomes(sel, out + [o], s, t, stales) && ErrorsIn(out + [o]) == ErrorsIn(out) + if Erred(o) then 1 else 0
  {
    hide Entry, EntryMoves, AnswersOf, AnswersIn, ErrorsIn, Erred;
    var n := |out|;
    assert sel == sel[..n] + [sel[n]];
    AnswersNext(sel[..n], out, sel[n], o);
    forall p: u8 | p <= PARAMS ensures Entry(sel, out + [o], s.frame, t.frame, p, stales) {
      EntryStep(sel[..n], out, sel[n], o, s.frame, m.frame, t.frame, p, stales);
    }
  }

  lemma NoOutcomes(s: State, stales: bool)
    requires WellFormed(s)
    ensures Outcomes([], [], s, s, stales)
  {
  }

  lemma PassedOver(f: Frame, d: Desc, p: u8)
    requires |f.value| == |f.flags| == PARAMS + 1 && p <= PARAMS
    ensures EntryMoves(d, NotNow, f, Staled(f, d), p, true) && EntryMoves(d, NotNow, f, f, p, false)
  {
    hide Reports;
  }

  lemma AnyMove(d: Desc, o: Outcome, g: Frame, h: Frame, p: u8)
    requires |g.value| == |g.flags| == |h.value| == |h.flags| == PARAMS + 1 && p <= PARAMS
    ensures !o.NotNow? && EntryMoves(d, o, g, h, p, false) ==> EntryMoves(d, o, g, h, p, true)
  {
  }

  /** A transducer may be read again: the controller stays safe. */
  lemma ReadingSafe(w: World, s: State, d: Desc)
    requires WellFormed(s) && Wired(d, s.ctl) && Safe(s.ctl)
    ensures Safe(ReadDesc(w, s, d).0.ctl)
  {
    hide ReadDesc, Safe;
    RailLeftOff(w, s, d);
  }

  /** The last transducer of a cycle. */
  lemma WalkStep(w: World, s: State, sel: seq<Desc>) returns (o: Outcome)
    requires WellFormed(s) && AllWired(sel, s.ctl) && sel != []
    requires Safe(Walk(w, s, sel[..|sel| - 1]).0.ctl)
    ensures var d := sel[|sel| - 1];
      var (m, before) := Walk(w, s, sel[..|sel| - 1]); var (t, errors) := Walk(w, s, sel);
      && (o.NotNow? <==> d.domain != NO_DOMAIN && s.ctl.cfg[d.domain].policy == PERIODIC)
      && (d.domain == NO_DOMAIN ==> o.Asked?)
      && AnswersOf(t.accesses) == AnswersOf(m.accesses) + (if o.Asked? then [(d, o.got)] else [])
      && (forall p: u8 :: p <= PARAMS ==> EntryMoves(d, o, m.frame, t.frame, p, true))
      && errors == before + (if Erred(o) then 1 else 0)
      && t.frame.cycle == m.frame.cycle && Safe(t.ctl)
  {
    hide ReadDesc, Staled, Safe, AnswersOf, EntryMoves;
    var d := sel[|sel| - 1];
    var m := Walk(w, s, sel[..|sel| - 1]).0;
    var t := Walk(w, s, sel).0;
    o := NotNow;
    if OnPeriodic(m.ctl, d) {
      forall p: u8 | p <= PARAMS ensures EntryMoves(d, o, m.frame, t.frame, p, true) { PassedOver(m.frame, d, p); }
    } else {
      o := ReadDescExactly(w, m, d);
      ReadingSafe(w, m, d);
      forall p: u8 | p <= PARAMS ensures EntryMoves(d, o, m.frame, t.frame, p, true) {
        AnyMove(d, o, m.frame, t.frame, p);
      }
    }
  }

  /**
   One cycle: the drivers of exactly the transducers that are not on a periodic rail and whose rail,
   if any, came up are called, in the order of the selection; those on periodic rails are passed
   over. Every frame entry is what the last of them left, and what is passed over is stale.
   */
  lemma {:induction false} WalkExactly(w: World, s: State, sel: seq<Desc>) returns (out: seq<Outcome>)
    requires WellFormed(s) && AllWired(sel, s.ctl) && Safe(s.ctl)
    ensures var (t, errors) := Walk(w, s, sel);
      && Outcomes(sel, out, s, t, true) && |out| == |sel|
      && (forall i :: 0 <= i < |sel| ==>
            (out[i].NotNow? <==> sel[i].domain != NO_DOMAIN && s.ctl.cfg[sel[i].domain].policy == PERIODIC))
      && errors == ErrorsIn(out) && t.frame.cycle == s.frame.cycle && Safe(t.ctl)
    decreases |sel|
  {
    hide ReadDesc, Staled, Safe, Outcomes, AnswersOf, EntryMoves, Erred;
    if sel == [] {
      out := [];
      NoOutcomes(s, true);
    } else {
      var n := |sel| - 1;
      var m := Walk(w, s, sel[..n]).0;
      out := WalkExactly(w, s, sel[..n]);
      var o := WalkStep(w, s, sel);
      OutcomesStep(sel, out, o, s, m, Walk(w, s, sel).0, true);
      out := out + [o];
    }
  }

  /** So for a whole cycle, whose counter goes up by one and wraps at 32 bits. */
  lemma CycleExactly(w: World, s: State, sel: seq<Desc>) returns (out: seq<Outcome>)
    requires WellFormed(s) && AllWired(sel, s.ctl) && Safe(s.ctl)
    ensures var (t, errors) := Cycle(w, s, sel);
      && Outcomes(sel, out, s, t, true) && |out| == |sel|
      && (forall i :: 0 <= i < |sel| ==>
            (out[i].NotNow? <==> sel[i].domain != NO_DOMAIN && s.ctl.cfg[sel[i].domain].policy == PERIODIC))
      && errors == ErrorsIn(out)
      && t.frame.cycle == if s.frame.cycle == 0xFFFF_FFFF then 0 else s.frame.cycle + 1
  {
    hide Walk, Safe, Entry, AnswersOf;
    var m := s.(frame := s.frame.(cycle := ToU32(s.frame.cycle + 1)));
    out := WalkExactly(w, m, sel);
    forall p: u8 | p <= PARAMS ensures Entry(sel, out, s.frame, Walk(w, m, sel).0.frame, p, true) {
      SameEntry(sel, out, s.frame, m.frame, Walk(w, m, sel).0.frame, p);
    }
  }

  lemma SameEntry(sel: seq<Desc>, out: seq<Outcome>, f: Frame, g: Frame, h: Frame, p: u8)
    requires |sel| == |out| && |f.value| == |f.flags| == |h.value| == |h.flags| == PARAMS + 1 && p <= PARAMS
    requires g.value == f.value && g.flags == f.flags && Entry(sel, out, g, h, p, true)
    ensures Entry(sel, out, f, h, p, true)
  {
  }

  /**
   A ready event reads exactly the transducers of its rail, in the order of the selection, whatever
   the policy of the rail; every other frame entry is left alone.
   */
  lemma {:induction false} OnReadyExactly(w: World, s: State, sel: seq<Desc>, dom: nat) returns (out: seq<Outcome>)
    requires WellFormed(s) && AllWired(sel, s.ctl) && Safe(s.ctl)
    ensures var t := OnReady(w, s, sel, dom);
      && |out| == |sel| && (forall i :: 0 <= i < |sel| ==> (out[i].NotNow? <==> sel[i].domain != dom))
      && AnswersOf(t.accesses) == AnswersOf(s.accesses) + AnswersIn(sel, out)
      && (forall p: u8 :: p <= PARAMS ==> Entry(sel, out, s.frame, t.frame, p, false))
      && t.frame.cycle == s.frame.cycle && Safe(t.ctl)
    decreases |sel|
  {
    hide ReadDesc, Safe, Entry, EntryMoves, AnswersOf;
    out := [];
    if sel == [] {
      forall p: u8 | p <= PARAMS ensures Entry(sel, out, s.frame, s.frame, p, false) { NoEntry(s.frame, p); }
    } else {
      var n := |sel| - 1;
      var d := sel[n];
      var m := OnReady(w, s, sel[..n], dom);
      var t := OnReady(w, s, sel, dom);
      out := OnReadyExactly(w, s, sel[..n], dom);
      var o := NotNow;
      if d.domain == dom {
        o := ReadDescExactly(w, m, d);
        ReadingSafe(w, m, d);
      } else {
        forall p: u8 | p <= PARAMS ensures EntryMoves(d, o, m.frame, t.frame, p, false) { PassedOver(m.frame, d, p); }
      }
      assert sel == sel[..n] + [d] && (out + [o])[..n] == out;
      forall p: u8 | p <= PARAMS ensures Entry(sel, out + [o], s.frame, t.frame, p, false) {
        EntryStep(sel[..n], out, d, o, s.frame, m.frame, t.frame, p, false);
      }
      out := out + [o];
    }
  }

  lemma NoEntry(f: Frame, p: u8)
    requires |f.value| == |f.flags| == PARAMS + 1 && p <= PARAMS
    ensures Entry([], [], f, f, p, false)
  {
  }
}
