/**
 The RS-485 bus master (bus_master.c): one sweep polls every pod in table order. The class is
 the code; the functions say what each call does, and the lemmas what any run of calls does.
 */
module BusMaster {
  import opened Bytes
  import opened Errno
  import opened Rs485

  const MAX_PODS: nat := 16

  datatype Pod = Pod(addr: u8, present: bool, misses: u8, polls: u32, replies: u32, timeouts: u32,
                     badReplies: u32, tLastReply: u32, report: bytes)

  datatype BusState = IDLE | WAIT_REPLY | TURNAROUND

  datatype Event = NoEvent | Report(pod: nat) | Missing(pod: nat) | SweepDone

  datatype Master = Master(pods: seq<Pod>, replyTimeoutMs: u16, turnaroundMs: u16,
                           state: BusState, idx: nat, tState: u32, sweeps: u32, seqNo: u8)

  function Inc(c: u32): u32 { (c + 1) % 0x1_0000_0000 }

  /** States the calls can reach. */
  predicate Consistent(m: Master) {
    && |m.pods| <= MAX_PODS
    && (forall i :: 0 <= i < |m.pods| ==> AddrValid(m.pods[i].addr))
    && (m.state == WAIT_REPLY ==> m.idx < |m.pods|)
    && (m.state == TURNAROUND ==> 1 <= m.idx <= |m.pods|)
  }

  function NewPod(addr: u8): Pod { Pod(addr, false, 0, 0, 0, 0, 0, 0, []) }

  /** A master just initialised with a poll list. */
  function Fresh(addrs: seq<u8>, replyTimeout: u16, turnaround: u16): Master {
    Master(seq(|addrs|, i requires 0 <= i < |addrs| => NewPod(addrs[i])), replyTimeout, turnaround, IDLE, 0, 0, 0, 0)
  }

  function PollFrame(m: Master): Frame
    requires m.idx < |m.pods|
  {
    Frame(m.pods[m.idx].addr, CMD_POLL, [m.seqNo])
  }

  /** poll_pod: transmit, count, wait. */
  function Poll(m: Master, now: u32): Master
    requires m.idx < |m.pods|
  {
    var p := m.pods[m.idx];
    m.(seqNo := (m.seqNo + 1) % 256, pods := m.pods[m.idx := p.(polls := Inc(p.polls))],
       state := WAIT_REPLY, tState := now)
  }

  function Advance(m: Master, now: u32): Master {
    m.(idx := m.idx + 1, state := TURNAROUND, tState := now)
  }

  function Start(m: Master, now: u32): Master {
    if m.state != IDLE || |m.pods| == 0 then m else Poll(m.(idx := 0), now)
  }

  function Receive(m: Master, f: Frame, now: u32): (Master, Event)
    requires Consistent(m)
  {
    if m.state != WAIT_REPLY || f.addr != m.pods[m.idx].addr then (m, NoEvent)
    else
      var p := m.pods[m.idx];
      if f.cmd != CMD_REPORT then
        (m.(pods := m.pods[m.idx := p.(badReplies := Inc(p.badReplies))]), NoEvent)
      else
        var p' := p.(present := true, misses := 0, replies := Inc(p.replies), tLastReply := now, report := f.payload);
        (Advance(m.(pods := m.pods[m.idx := p']), now), Report(m.idx))
  }

  function Tick(m: Master, now: u32): (Master, Event)
    requires Consistent(m)
  {
    match m.state
    case IDLE => (m, NoEvent)
    case WAIT_REPLY =>
      if ToU32(now - m.tState) < m.replyTimeoutMs then (m, NoEvent)
      else
        var p := m.pods[m.idx];
        var p' := p.(present := false, misses := if p.misses < 255 then p.misses + 1 else 255,
                     timeouts := Inc(p.timeouts));
        (Advance(m.(pods := m.pods[m.idx := p']), now), Missing(m.idx))
    case TURNAROUND =>
      if ToU32(now - m.tState) < m.turnaroundMs then (m, NoEvent)
      else if m.idx >= |m.pods| then (m.(state := IDLE, sweeps := Inc(m.sweeps)), SweepDone)
      else (Poll(m, now), NoEvent)
  }

  class Bus {
    const pods: array<Pod>
    var nPods: nat
    var replyTimeoutMs: u16
    var turnaroundMs: u16
    var state: BusState
    var idx: nat
    var tState: u32
    var sweeps: u32
    var seqNo: u8
    /** Everything handed to the injected send, newest last. */
    var sent: seq<bytes>

    ghost predicate Valid()
      reads this, pods
    {
      pods.Length == MAX_PODS && nPods <= MAX_PODS && Consistent(Abs())
    }

    ghost function Abs(): Master
      requires pods.Length == MAX_PODS && nPods <= MAX_PODS
      reads this, pods
    {
      Master(pods[..nPods], replyTimeoutMs, turnaroundMs, state, idx, tState, sweeps, seqNo)
    }

    constructor ()
      ensures Valid() && nPods == 0 && state == IDLE && sent == [] && fresh(pods)
    {
      pods := new Pod[MAX_PODS](_ => NewPod(0));
      nPods, replyTimeoutMs, turnaroundMs, state, idx, tState, sweeps, seqNo, sent := 0, 0, 0, IDLE, 0, 0, 0, 0, [];
    }

    /** bus_master_init: any address outside 1..247 leaves an idle master with no pods. */
    method Init(addrs: seq<u8>, replyTimeout: u16, turnaround: u16) returns (rc: int)
      requires Valid()
      modifies this, pods
      ensures Valid() && sent == old(sent)
      ensures rc == if |addrs| <= MAX_PODS && (forall i :: 0 <= i < |addrs| ==> AddrValid(addrs[i]))
                    then 0 else -EINVAL
      ensures rc == 0 ==> Abs() == Fresh(addrs, replyTimeout, turnaround)
      ensures rc != 0 && |addrs| <= MAX_PODS ==> nPods == 0 && state == IDLE
      ensures |addrs| > MAX_PODS ==> Abs() == old(Abs())
    {
      if |addrs| > MAX_PODS {
        return -EINVAL;
      }
      nPods, replyTimeoutMs, turnaroundMs, state, idx, tState, sweeps, seqNo := 0, 0, 0, IDLE, 0, 0, 0, 0;
      var ok := LoadPods(addrs);
      if !ok {
        return -EINVAL;
      }
      nPods, replyTimeoutMs, turnaroundMs := |addrs|, replyTimeout, turnaround;
      assert pods[..nPods] == Fresh(addrs, replyTimeout, turnaround).pods;
      return 0;
    }

    /** The table of a new master: cleared, then an address at a time. */
    method LoadPods(addrs: seq<u8>) returns (ok: bool)
      requires pods.Length == MAX_PODS && |addrs| <= MAX_PODS
      modifies pods
      ensures ok <==> forall i :: 0 <= i < |addrs| ==> AddrValid(addrs[i])
      ensures ok ==> forall j :: 0 <= j < |addrs| ==> pods[j] == NewPod(addrs[j])
    {
      forall i | 0 <= i < pods.Length {
        pods[i] := NewPod(0);
      }
      var i := 0;
      while i < |addrs|
        invariant 0 <= i <= |addrs|
        invariant forall j :: 0 <= j < i ==> AddrValid(addrs[j]) && pods[j] == NewPod(addrs[j])
        invariant forall j :: i <= j < MAX_PODS ==> pods[j] == NewPod(0)
      {
        if !AddrValid(addrs[i]) {
          return false;
        }
        pods[i] := pods[i].(addr := addrs[i]);
        i := i + 1;
      }
      return true;
    }

    /** poll_pod. The result of the injected send is whatever the driver returns. */
    method PollPod(now: u32, sendRc: int) returns (rc: int)
      requires Valid() && idx < nPods
      modifies this, pods
      ensures Valid() && rc == sendRc && nPods == old(nPods)
      ensures Abs() == Poll(old(Abs()), now)
      ensures sent == old(sent) + [Encoding(PollFrame(old(Abs())))]
    {
      hide Encoding;
      var f := Frame(pods[idx].addr, CMD_POLL, [seqNo]);
      seqNo := (seqNo + 1) % 256;
      var buf := new byte[206];
      var n := FrameEncode(f, buf);
      pods[idx] := pods[idx].(polls := Inc(pods[idx].polls));
      state, tState := WAIT_REPLY, now;
      sent := sent + [buf[..n]];
      rc := sendRc;
    }

    /** bus_sweep_start. */
    method SweepStart(now: u32, sendRc: int) returns (rc: int)
      requires Valid()
      modifies this, pods
      ensures Valid() && Abs() == Start(old(Abs()), now)
      ensures rc == if old(state) != IDLE then -EBUSY else if old(nPods) == 0 then -ENODEV else sendRc
      ensures sent == old(sent) + if old(state) == IDLE && old(nPods) > 0
                                  then [Encoding(Frame(old(pods[0]).addr, CMD_POLL, [old(seqNo)]))] else []
    {
      hide Encoding;
      if state != IDLE { return -EBUSY; }
      if nPods == 0 { return -ENODEV; }
      idx := 0;
      rc := PollPod(now, sendRc);
    }

    /** bus_rx_frame. */
    method RxFrame(f: Frame, now: u32) returns (ev: Event)
      requires Valid()
      modifies this, pods
      ensures Valid() && (Abs(), ev) == Receive(old(Abs()), f, now) && sent == old(sent)
    {
      if state != WAIT_REPLY { return NoEvent; }
      if f.addr != pods[idx].addr { return NoEvent; }
      if f.cmd != CMD_REPORT {
        pods[idx] := pods[idx].(badReplies := Inc(pods[idx].badReplies));
        return NoEvent;
      }
      pods[idx] := pods[idx].(present := true, misses := 0, replies := Inc(pods[idx].replies),
                              tLastReply := now, report := f.payload);
      ev := Report(idx);
      idx, state, tState := idx + 1, TURNAROUND, now;
    }

    /** bus_tick. */
    method BusTick(now: u32, sendRc: int) returns (ev: Event)
      requires Valid()
      modifies this, pods
      ensures Valid() && (Abs(), ev) == Tick(old(Abs()), now)
      ensures sent == old(sent) + if old(state) == TURNAROUND && state == WAIT_REPLY
                                  then [Encoding(Frame(old(pods[idx]).addr, CMD_POLL, [old(seqNo)]))] else []
    {
      ev := NoEvent;
      if state == WAIT_REPLY {
        if ToU32(now - tState) >= replyTimeoutMs {
          pods[idx] := pods[idx].(present := false,
                                  misses := if pods[idx].misses < 255 then pods[idx].misses + 1 else 255,
                                  timeouts := Inc(pods[idx].timeouts));
          ev := Missing(idx);
          idx, state, tState := idx + 1, TURNAROUND, now;
        }
      } else if state == TURNAROUND {
        if ToU32(now - tState) >= turnaroundMs {
          if idx >= nPods {
            state, sweeps := IDLE, Inc(sweeps);
            return SweepDone;
          }
          var _ := PollPod(now, sendRc);
        }
      }
    }

    /** bus_send_arm: never in the middle of a sweep. */
    method SendArm(addr: u8, armed: bool, sendRc: int) returns (rc: int)
      requires Valid()
      modifies this`sent
      ensures Valid() && Abs() == old(Abs())
      ensures rc == if state == IDLE then sendRc else -EBUSY
      ensures sent == old(sent) + if state == IDLE then [Encoding(ArmFrame(addr, armed))] else []
    {
      hide Encoding;
      if state != IDLE { return -EBUSY; }
      var buf := new byte[206];
      var n := FrameEncode(Frame(addr, CMD_ARM, [if armed then 1 else 0]), buf);
      sent := sent + [buf[..n]];
      rc := sendRc;
    }
  }

  // --------------------------------------------------------------------- any run

  /** The calls main.c makes, with the true time in ms, which the 32-bit clock shows modulo 2^32. */
  datatype Call = StartAt(t: nat) | RxAt(f: Frame, t: nat) | TickAt(t: nat)

  function Do(m: Master, c: Call): (r: (Master, Event))
    requires Consistent(m)
    ensures Consistent(r.0)
  {
    match c
    case StartAt(t) => (Start(m, ToU32(t)), NoEvent)
    case RxAt(f, t) => Receive(m, f, ToU32(t))
    case TickAt(t) => Tick(m, ToU32(t))
  }

  function Run(m: Master, calls: seq<Call>): (r: (Master, seq<Event>))
    requires Consistent(m)
    ensures Consistent(r.0)
    decreases |calls|
  {
    if calls == [] then (m, [])
    else
      var n := |calls| - 1;
      var r := Run(m, calls[..n]);
      var s := Do(r.0, calls[n]);
      (s.0, if s.1 == NoEvent then r.1 else r.1 + [s.1])
  }

  /** The first `k` pods have each been answered for once, in table order. */
  predicate Covers(es: seq<Event>, k: nat) {
    |es| == k && forall i :: 0 <= i < k ==> es[i] == Report(i) || es[i] == Missing(i)
  }

  predicate CompleteSweep(es: seq<Event>, n: nat) {
    |es| == n + 1 && Covers(es[..n], n) && es[n] == SweepDone
  }

  function Flatten(sweeps: seq<seq<Event>>): seq<Event> {
    if sweeps == [] then [] else Flatten(sweeps[..|sweeps| - 1]) + sweeps[|sweeps| - 1]
  }

  /** The events so far are whole sweeps, counted, and then the part of one in progress. */
  ghost predicate Orderly(m: Master, from: u32, es: seq<Event>, sweeps: seq<seq<Event>>, open: seq<Event>) {
    && es == Flatten(sweeps) + open
    && (forall s :: s in sweeps ==> CompleteSweep(s, |m.pods|))
    && m.sweeps == (from + |sweeps|) % 0x1_0000_0000
    && Covers(open, if m.state == IDLE then 0 else m.idx)
  }

  lemma SweepCount(from: u32, n: nat)
    ensures Inc((from + n) % 0x1_0000_0000) == (from + (n + 1)) % 0x1_0000_0000
  {
  }

  lemma StepOrderly(m: Master, c: Call, from: u32, es: seq<Event>, sweeps: seq<seq<Event>>, open: seq<Event>)
      returns (sweeps': seq<seq<Event>>, open': seq<Event>)
    requires Consistent(m) && Orderly(m, from, es, sweeps, open)
    ensures var (m', ev) := Do(m, c);
      |m'.pods| == |m.pods| && Orderly(m', from, if ev == NoEvent then es else es + [ev], sweeps', open')
  {
    hide Inc, Flatten, CompleteSweep;
    var (m', ev) := Do(m, c);
    sweeps', open' := sweeps, open;
    SweepCount(from, |sweeps|);
    if ev == SweepDone {
      sweeps', open' := sweeps + [open + [SweepDone]], [];
      SweepEnds(sweeps, open, |m.pods|);
    } else if ev != NoEvent {
      open' := open + [ev];
      assert Flatten(sweeps) + open + [ev] == Flatten(sweeps) + open';
    }
  }

  lemma SweepEnds(sweeps: seq<seq<Event>>, open: seq<Event>, n: nat)
    requires Covers(open, n)
    ensures var s := open + [SweepDone];
      CompleteSweep(s, n) && Flatten(sweeps + [s]) + [] == Flatten(sweeps) + open + [SweepDone]
  {
    var s := open + [SweepDone];
    assert s[..n] == open;
    assert (sweeps + [s])[..|sweeps|] == sweeps;
  }

  /**
   Whatever replies are lost, late, foreign or repeated, and however calls interleave: every
   sweep yields exactly one REPORT or MISSING per pod, in table order, then SWEEP_DONE.
   */
  lemma {:induction false} SweepsAreCompleteAndOrdered(m: Master, calls: seq<Call>)
      returns (sweeps: seq<seq<Event>>, open: seq<Event>)
    requires Consistent(m) && m.state == IDLE
    ensures |Run(m, calls).0.pods| == |m.pods|
    ensures Orderly(Run(m, calls).0, m.sweeps, Run(m, calls).1, sweeps, open)
    decreases |calls|
  {
    hide Do;
    if calls == [] {
      sweeps, open := [], [];
    } else {
      var n := |calls| - 1;
      sweeps, open := SweepsAreCompleteAndOrdered(m, calls[..n]);
      var r := Run(m, calls[..n]);
      sweeps, open := StepOrderly(r.0, calls[n], m.sweeps, r.1, sweeps, open);
    }
  }

  /** Polls are conserved: each was answered, timed out, or is the one being waited for. */
  predicate PodBalanced(p: Pod, waiting: bool) {
    p.polls == (p.replies + p.timeouts + if waiting then 1 else 0) % 0x1_0000_0000
  }

  predicate Balanced(m: Master) {
    forall i :: 0 <= i < |m.pods| ==> PodBalanced(m.pods[i], m.state == WAIT_REPLY && m.idx == i)
  }

  lemma SumInc(r: u32, t: u32)
    ensures (Inc(r) + t) % 0x1_0000_0000 == (r + t + 1) % 0x1_0000_0000
  {
    if r == 0xFFFF_FFFF { assert r + t + 1 == 0x1_0000_0000 + t; }
  }

  lemma IncSum(r: u32, t: u32)
    ensures Inc((r + t) % 0x1_0000_0000) == (r + t + 1) % 0x1_0000_0000
  {
    var s := r + t;
    if s >= 0x1_0000_0000 { assert s % 0x1_0000_0000 == s - 0x1_0000_0000; }
  }

  lemma PodStaysBalanced(p: Pod, waiting: bool)
    requires PodBalanced(p, waiting)
    ensures !waiting ==> PodBalanced(p.(polls := Inc(p.polls)), true)
    ensures waiting ==> PodBalanced(p.(replies := Inc(p.replies)), false)
    ensures waiting ==> PodBalanced(p.(timeouts := Inc(p.timeouts)), false)
  {
    hide Inc;
    IncSum(p.replies, p.timeouts);
    SumInc(p.replies, p.timeouts);
    SumInc(p.timeouts, p.replies);
  }

  lemma StepBalanced(m: Master, c: Call)
    requires Consistent(m) && Balanced(m)
    ensures Balanced(Do(m, c).0)
  {
    hide Inc, ToU32, PodBalanced;
    var m' := Do(m, c).0;
    forall i | 0 <= i < |m'.pods| ensures PodBalanced(m'.pods[i], m'.state == WAIT_REPLY && m'.idx == i) {
      PodStaysBalanced(m.pods[i], m.state == WAIT_REPLY && m.idx == i);
      OnlyCounters(m.pods[i], m'.pods[i], m'.state == WAIT_REPLY && m'.idx == i);
      if m.state == WAIT_REPLY && m.idx == i {
        var p := m.pods[i];
        OnlyCounters(p.(replies := Inc(p.replies)), m'.pods[i], false);
        OnlyCounters(p.(timeouts := Inc(p.timeouts)), m'.pods[i], false);
      }
    }
  }

  lemma OnlyCounters(p: Pod, q: Pod, waiting: bool)
    ensures p.polls == q.polls && p.replies == q.replies && p.timeouts == q.timeouts ==>
      PodBalanced(p, waiting) == PodBalanced(q, waiting)
  {
  }

  lemma {:induction false} PollsConserved(m: Master, calls: seq<Call>)
    requires Consistent(m) && Balanced(m)
    ensures Balanced(Run(m, calls).0)
    decreases |calls|
  {
    hide Do, Balanced;
    if calls != [] {
      var n := |calls| - 1;
      PollsConserved(m, calls[..n]);
      StepBalanced(Run(m, calls[..n]).0, calls[n]);
    }
  }

  // ---------------------------------------------------------------------- time

  function Time(c: Call): nat { c.t }

  function WorstCaseMs(m: Master): nat {
    |m.pods| * (m.replyTimeoutMs + m.turnaroundMs)
  }

  /** Calls in time order, with a tick no later than `slack` after the previous one. */
  ghost predicate Timely(calls: seq<Call>, start: nat, slack: nat)
    decreases |calls|
  {
    calls == [] ||
    (var n := |calls| - 1;
     && Timely(calls[..n], start, slack)
     && LastTime(calls[..n], start) <= Time(calls[n]) <= LastTick(calls[..n], start) + slack)
  }

  function LastTime(calls: seq<Call>, start: nat): nat {
    if calls == [] then start else Time(calls[|calls| - 1])
  }

  function LastTick(calls: seq<Call>, start: nat): nat
    decreases |calls|
  {
    if calls == [] then start
    else if calls[|calls| - 1].TickAt? then Time(calls[|calls| - 1])
    else LastTick(calls[..|calls| - 1], start)
  }

  /** The time a sweep may have taken when it is at pod `idx`, or past it in the turnaround. */
  function Budget(perPod: nat, idx: nat): nat { idx * perPod }

  function PerPod(m: Master, slack: nat): nat { m.replyTimeoutMs + m.turnaroundMs + 2 * slack }

  function Max1(x: nat): nat { if x == 0 then 1 else x }

  /**
   `since` is the true time the present state was entered. At the last tick that state's own
   limit had not been reached, or it was entered after that tick.
   */
  ghost predicate OnTime(m: Master, start: nat, since: nat, tick: nat, now: nat, slack: nat) {
    && start <= since <= now && tick <= now <= tick + slack
    && (m.state != IDLE ==> m.tState == ToU32(since))
    && (m.state == WAIT_REPLY ==>
          since <= start + Budget(PerPod(m, slack), m.idx) && tick < since + Max1(m.replyTimeoutMs))
    && (m.state == TURNAROUND ==>
          && m.idx >= 1 && tick < since + Max1(m.turnaroundMs)
          && since <= start + Budget(PerPod(m, slack), m.idx - 1) + m.replyTimeoutMs + slack)
  }

  lemma NextBudget(c: nat, idx: nat)
    ensures Budget(c, idx + 1) == Budget(c, idx) + c
  {
  }

  lemma MoreBudget(c: nat, i: nat, j: nat)
    requires i <= j
    ensures Budget(c, i) <= Budget(c, j)
  {
  }

  /** The 32-bit elapsed time is the true one while less than 2^32 ms have passed. */
  lemma Elapsed(now: nat, since: nat)
    requires since <= now < since + 0x1_0000_0000
    ensures ToU32(ToU32(now) - ToU32(since)) == now - since
  {
    var laps := now / 0x1_0000_0000 - since / 0x1_0000_0000;
    assert now - since == laps * 0x1_0000_0000 + (ToU32(now) - ToU32(since));
    assert laps == 0 || laps == 1;
  }

  lemma StepOnTime(m: Master, c: Call, start: nat, since: nat, tick: nat, now: nat, slack: nat) returns (since': nat)
    requires Consistent(m) && m.state != IDLE && slack < 0x8000_0000
    requires OnTime(m, start, since, tick, now, slack)
    requires now <= Time(c) <= tick + slack
    ensures Do(m, c).1 != SweepDone ==> Do(m, c).0.state != IDLE
    ensures OnTime(Do(m, c).0, start, since', if c.TickAt? then Time(c) else tick, Time(c), slack)
    ensures Time(c) <= start + Budget(PerPod(m, slack), |m.pods|)
  {
    hide Budget, Inc;
    var t, m' := Time(c), Do(m, c).0;
    since' := if m'.state == m.state && m'.idx == m.idx then since else t;
    Elapsed(t, since);
    var k := if m.state == WAIT_REPLY then m.idx else m.idx - 1;
    NextBudget(PerPod(m, slack), k);
    MoreBudget(PerPod(m, slack), k + 1, |m.pods|);
  }

  lemma {:induction false} RunOnTime(m: Master, start: nat, calls: seq<Call>, slack: nat) returns (since: nat)
    requires Consistent(m) && m.state == IDLE && |m.pods| > 0 && slack < 0x8000_0000
    requires Timely(calls, start, slack)
    requires SweepDone !in Run(Start(m, ToU32(start)), calls).1
    ensures var r := Run(Start(m, ToU32(start)), calls).0;
      && r.state != IDLE && |r.pods| == |m.pods|
      && r.replyTimeoutMs == m.replyTimeoutMs && r.turnaroundMs == m.turnaroundMs
      && OnTime(r, start, since, LastTick(calls, start), LastTime(calls, start), slack)
    decreases |calls|
  {
    hide Do, Budget;
    if calls == [] {
      since := start;
    } else {
      var n := |calls| - 1;
      var m0 := Start(m, ToU32(start));
      var r := Run(m0, calls[..n]);
      assert forall e :: e in r.1 ==> e in Run(m0, calls).1;
      since := RunOnTime(m, start, calls[..n], slack);
      assert Do(r.0, calls[n]).1 in Run(m0, calls).1 || Do(r.0, calls[n]).1 == NoEvent;
      DoKeepsSettings(r.0, calls[n]);
      since := StepOnTime(r.0, calls[n], start, since, LastTick(calls[..n], start), LastTime(calls[..n], start), slack);
    }
  }

  lemma DoKeepsSettings(m: Master, c: Call)
    requires Consistent(m)
    ensures var m' := Do(m, c).0;
      |m'.pods| == |m.pods| && m'.replyTimeoutMs == m.replyTimeoutMs && m'.turnaroundMs == m.turnaroundMs
  {
  }

  /**
   A sweep is never stalled: up to and including the call that ends it, no more time has passed
   than every pod's timeout and turnaround plus twice the tick slack per pod.
   */
  lemma SweepIsBounded(m: Master, start: nat, calls: seq<Call>, slack: nat)
    requires Consistent(m) && m.state == IDLE && |m.pods| > 0 && slack < 0x8000_0000
    requires calls != [] && Timely(calls, start, slack)
    requires SweepDone !in Run(Start(m, ToU32(start)), calls[..|calls| - 1]).1
    ensures LastTime(calls, start) <= start + WorstCaseMs(m) + 2 * |m.pods| * slack
  {
    hide Do;
    var n := |calls| - 1;
    var r := Run(Start(m, ToU32(start)), calls[..n]).0;
    var since := RunOnTime(m, start, calls[..n], slack);
    since := StepOnTime(r, calls[n], start, since, LastTick(calls[..n], start), LastTime(calls[..n], start), slack);
    Distribute(|m.pods|, m.replyTimeoutMs + m.turnaroundMs, slack);
  }

  lemma Distribute(n: nat, c: nat, slack: nat)
    ensures n * (c + 2 * slack) == n * c + 2 * n * slack
  {
  }

  // ------------------------------------------------------------------- no loss

  /**
   Without loss the report arrives byte for byte: the poll on the wire is parsed by the pod, its
   answer is parsed by the master, and exactly that pod's entry takes the pod's report.
   */
  lemma PollAnswered(m: Master, now: u32, slave: Slave, others: seq<Slave>)
    requires Consistent(m) && m.state == WAIT_REPLY && Sendable(PollFrame(m))
    requires slave.addr == m.pods[m.idx].addr && |slave.report| <= PAYLOAD_MAX
    requires forall o :: o in others ==> o.addr != slave.addr
    ensures Parse(WaitSof, Encoding(PollFrame(m))) == (WaitSof, [PollFrame(m)])
    ensures AnswerOf(slave, PollFrame(m)).Transmit?
    ensures forall o :: o in others ==> !AnswerOf(o, PollFrame(m)).Transmit?
    ensures var reply := AnswerOf(slave, PollFrame(m)).frame;
      && Sendable(reply) && Parse(WaitSof, Encoding(reply)) == (WaitSof, [reply])
      && Receive(m, reply, now).1 == Report(m.idx)
      && Receive(m, reply, now).0.pods[m.idx].report == slave.report
      && forall i :: 0 <= i < |m.pods| && i != m.idx ==> Receive(m, reply, now).0.pods[i] == m.pods[i]
  {
    hide Parse, Encoding;
    EncodingParses(PollFrame(m));
    EncodingParses(AnswerOf(slave, PollFrame(m)).frame);
  }

  // ------------------------------------------------------------- what a sweep brings home

  /** A report under a polled pod's address is that pod's; other frames on the bus may be anything. */
  predicate Trusted(slaves: seq<Slave>, f: Frame) {
    forall i :: 0 <= i < |slaves| && f.addr == slaves[i].addr && f.cmd == CMD_REPORT ==> f.payload == slaves[i].report
  }

  predicate Distinct(slaves: seq<Slave>) {
    forall i, j :: 0 <= i < |slaves| && 0 <= j < |slaves| && i != j ==> slaves[i].addr != slaves[j].addr
  }

  /** Whatever any of the pods answers to anything is trusted, and so are the master's own frames. */
  lemma AnswersAreTrusted(slaves: seq<Slave>, k: nat, req: Frame, m: Master)
    requires Distinct(slaves) && k < |slaves|
    ensures AnswerOf(slaves[k], req).Transmit? ==> Trusted(slaves, AnswerOf(slaves[k], req).frame)
    ensures m.idx < |m.pods| ==> Trusted(slaves, PollFrame(m))
  {
  }

  predicate Polled(m: Master, slaves: seq<Slave>) {
    |m.pods| == |slaves| && forall i :: 0 <= i < |slaves| ==> m.pods[i].addr == slaves[i].addr
  }

  predicate AllTrusted(slaves: seq<Slave>, calls: seq<Call>) {
    forall k :: 0 <= k < |calls| && calls[k].RxAt? ==> Trusted(slaves, calls[k].f)
  }

  /** Entry `i` after its event: the pod's own report, or the one it had and marked absent. */
  predicate Settled(was: Pod, p: Pod, ev: Event, i: nat, slave: Slave) {
    && (ev == Report(i) ==> p.present && p.report == slave.report)
    && (ev == Missing(i) ==> !p.present && p.report == was.report)
  }

  /** Within a sweep: entries below idx have had their event, the others are as they were. */
  ghost predicate Faithful(m0: Master, m: Master, es: seq<Event>, slaves: seq<Slave>) {
    && m.state != IDLE && |m0.pods| == |m.pods| && Polled(m, slaves) && Covers(es, m.idx) && m.idx <= |m.pods|
    && (forall i :: 0 <= i < m.idx ==> Settled(m0.pods[i], m.pods[i], es[i], i, slaves[i]))
    && forall i :: m.idx <= i < |m.pods| ==> m.pods[i].report == m0.pods[i].report
  }

  lemma StepFaithful(m0: Master, m: Master, es: seq<Event>, slaves: seq<Slave>, c: Call)
    requires Consistent(m) && Faithful(m0, m, es, slaves) && (c.RxAt? ==> Trusted(slaves, c.f))
    ensures var (m', ev) := Do(m, c);
      if ev == SweepDone then m'.pods == m.pods && m.idx == |m.pods|
      else Faithful(m0, m', if ev == NoEvent then es else es + [ev], slaves)
  {
    hide Inc, ToU32;
  }

  lemma {:induction false} RunFaithful(m: Master, start: u32, calls: seq<Call>, slaves: seq<Slave>)
    requires Consistent(m) && m.state == IDLE && m.pods != [] && Polled(m, slaves) && AllTrusted(slaves, calls)
    requires SweepDone !in Run(Start(m, start), calls).1
    ensures Faithful(m, Run(Start(m, start), calls).0, Run(Start(m, start), calls).1, slaves)
    decreases |calls|
  {
    hide Do, Faithful, Trusted;
    if calls == [] {
      Begun(m, start, slaves);
    } else {
      var n := |calls| - 1;
      assert calls[..n + 1] == calls;
      RunFaithful(m, start, calls[..n], slaves);
      var r := Run(Start(m, start), calls[..n]);
      StepFaithful(m, r.0, r.1, slaves, calls[n]);
    }
  }

  lemma Begun(m: Master, start: u32, slaves: seq<Slave>)
    requires Consistent(m) && m.state == IDLE && m.pods != [] && Polled(m, slaves)
    ensures Consistent(Start(m, start)) && Faithful(m, Start(m, start), [], slaves)
  {
  }

  /** The events of one sweep, and what the table then holds beside what it held. */
  ghost predicate BroughtHome(m: Master, m': Master, es: seq<Event>, slaves: seq<Slave>) {
    && |m.pods| == |m'.pods| == |slaves| && CompleteSweep(es, |m.pods|)
    && forall i :: 0 <= i < |m.pods| ==> Settled(m.pods[i], m'.pods[i], es[i], i, slaves[i])
  }

  /** The calls of one sweep: the last of them ends it. */
  ghost predicate OneSweep(m: Master, start: u32, calls: seq<Call>)
    requires Consistent(m)
  {
    && m.state == IDLE && m.pods != [] && calls != []
    && SweepDone !in Run(Start(m, start), calls[..|calls| - 1]).1 && SweepDone in Run(Start(m, start), calls).1
  }

  /**
   What a whole sweep brings home, with any losses and foreign frames in between: a pod with a
   REPORT has its own report in the table, byte for byte, and one that is MISSING keeps the old.
   */
  lemma SweepIsFaithful(m: Master, start: u32, calls: seq<Call>, slaves: seq<Slave>)
    requires Consistent(m) && OneSweep(m, start, calls) && Polled(m, slaves) && AllTrusted(slaves, calls)
    ensures BroughtHome(m, Run(Start(m, start), calls).0, Run(Start(m, start), calls).1, slaves)
  {
    hide Do, Trusted, Run, Start, Consistent, BroughtHome, Faithful;
    var n := |calls| - 1;
    StartConsistent(m, start);
    RunLast(Start(m, start), calls);
    var r := Run(Start(m, start), calls[..n]);
    RunFaithful(m, start, calls[..n], slaves);
    StepFaithful(m, r.0, r.1, slaves, calls[n]);
    SweepCloses(m, r.0, Do(r.0, calls[n]).0, r.1, slaves);
  }

  lemma StartConsistent(m: Master, start: u32)
    requires Consistent(m)
    ensures Consistent(Start(m, start))
  {
  }

  lemma RunLast(m: Master, calls: seq<Call>)
    requires Consistent(m) && calls != []
    ensures var r := Run(m, calls[..|calls| - 1]); var s := Do(r.0, calls[|calls| - 1]);
      Run(m, calls) == (s.0, if s.1 == NoEvent then r.1 else r.1 + [s.1])
  {
    hide Do, Consistent;
  }

  lemma SweepCloses(m0: Master, m: Master, m': Master, es: seq<Event>, slaves: seq<Slave>)
    requires Faithful(m0, m, es, slaves) && m'.pods == m.pods && m.idx == |m.pods|
    ensures BroughtHome(m0, m', es + [SweepDone], slaves)
  {
    hide Settled;
    assert (es + [SweepDone])[..|es|] == es;
  }

  /** No tick finds the reply timeout over while the master waits: every answer came in time. */
  ghost predicate InTime(m: Master, calls: seq<Call>)
    requires Consistent(m)
  {
    forall k :: 0 <= k < |calls| && calls[k].TickAt? ==>
      var r := Run(m, calls[..k]).0; r.state == WAIT_REPLY ==> ToU32(ToU32(calls[k].t) - r.tState) < r.replyTimeoutMs
  }

  lemma {:induction false} NoneMissing(m: Master, calls: seq<Call>, i: nat)
    requires Consistent(m) && InTime(m, calls)
    ensures Missing(i) !in Run(m, calls).1
    decreases |calls|
  {
    hide Do, Run, Consistent, InTime;
    if calls == [] {
      NothingRun(m);
    } else {
      var n := |calls| - 1;
      InTimePrefix(m, calls, n);
      NoneMissing(m, calls[..n], i);
      RunLast(m, calls);
      LastInTime(m, calls, i);
    }
  }

  lemma NothingRun(m: Master)
    requires Consistent(m)
    ensures Run(m, []) == (m, [])
  {
  }

  lemma LastInTime(m: Master, calls: seq<Call>, i: nat)
    requires Consistent(m) && InTime(m, calls) && calls != []
    ensures Do(Run(m, calls[..|calls| - 1]).0, calls[|calls| - 1]).1 != Missing(i)
  {
    hide Inc, ToU32, Run, Consistent;
  }

  lemma InTimePrefix(m: Master, calls: seq<Call>, n: nat)
    requires Consistent(m) && InTime(m, calls) && n <= |calls|
    ensures InTime(m, calls[..n])
  {
    hide Run, Consistent;
    forall k | 0 <= k < n && calls[..n][k].TickAt?
      ensures var r := Run(m, calls[..n][..k]).0;
        r.state == WAIT_REPLY ==> ToU32(ToU32(calls[..n][k].t) - r.tState) < r.replyTimeoutMs
    {
      assert calls[..n][..k] == calls[..k] && calls[..n][k] == calls[k];
    }
  }

  /**
   Without loss: when every pod's answer comes before its timeout, whatever foreign frames come in
   between, the sweep ends with every entry present and equal to its pod's report.
   */
  lemma LosslessSweep(m: Master, start: u32, calls: seq<Call>, slaves: seq<Slave>)
    requires Consistent(m) && OneSweep(m, start, calls) && Polled(m, slaves) && AllTrusted(slaves, calls)
    requires InTime(Start(m, start), calls)
    ensures var m' := Run(Start(m, start), calls).0;
      && |m'.pods| == |slaves|
      && forall i :: 0 <= i < |slaves| ==> m'.pods[i].present && m'.pods[i].report == slaves[i].report
  {
    hide Run, Trusted, InTime, Start, Consistent, OneSweep;
    StartConsistent(m, start);
    SweepIsFaithful(m, start, calls, slaves);
    var (m', es) := Run(Start(m, start), calls);
    forall i | 0 <= i < |slaves| ensures m'.pods[i].present && m'.pods[i].report == slaves[i].report {
      NoneMissing(Start(m, start), calls, i);
      assert es[..|m.pods|][i] == es[i] && es[i] in es;
      assert Settled(m.pods[i], m'.pods[i], es[i], i, slaves[i]);
    }
  }
}
