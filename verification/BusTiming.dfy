/**
 The bus master (bus_master.c) over time: no poll before the turnaround gap is over, no pod missing
 before its reply timeout, whom the k-th poll asks, and what the table says of a pod's past.
 */
module BusTiming {
  import opened Bytes
  import Arith
  import opened Rs485
  import opened BusMaster

  // ---------------------------------------------------------------- no step before its time

  ghost predicate Ordered(start: nat, calls: seq<Call>)
    decreases |calls|
  {
    calls == [] || (
      var n := |calls| - 1;
      Ordered(start, calls[..n]) && LastTime(calls[..n], start) <= Time(calls[n]))
  }

  /** The true time at which the master entered the state it is in after these calls. */
  function Since(m: Master, calls: seq<Call>, start: nat): nat
    requires Consistent(m)
    decreases |calls|
  {
    if calls == [] then start
    else
      var n := |calls| - 1;
      var r, s := Run(m, calls[..n]).0, Run(m, calls).0;
      if (r.state, r.idx) == (s.state, s.idx) then Since(m, calls[..n], start) else Time(calls[n])
  }

  predicate Clocked(m: Master, since: nat, now: nat) {
    since <= now && (m.state != IDLE ==> m.tState == ToU32(since))
  }

  /** Milliseconds in the present state on the wrapping clock, which true time is never short of. */
  function Spent(since: nat, now: nat): int { (now - since) % 0x1_0000_0000 }

  /** What one call at `now` makes of a state entered at `since`, in true time. */
  ghost predicate Moves(m: Master, c: Call, m': Master, ev: Event, since: nat)
  {
    var now := Time(c);
    && (ev.Missing? <==> c.TickAt? && m.state == WAIT_REPLY && Spent(since, now) >= m.replyTimeoutMs)
    && (ev.Missing? ==> ev.pod == m.idx && m'.state == TURNAROUND)
    && (m.state == TURNAROUND && m'.state == WAIT_REPLY
        <==> c.TickAt? && m.state == TURNAROUND && Spent(since, now) >= m.turnaroundMs && m.idx < |m.pods|)
    && (ev == SweepDone
        <==> c.TickAt? && m.state == TURNAROUND && Spent(since, now) >= m.turnaroundMs && m.idx >= |m.pods|)
    && (ev.Report? <==>
          && c.RxAt? && m.state == WAIT_REPLY && c.f.cmd == 0x81
          && m.idx < |m.pods| && c.f.addr == m.pods[m.idx].addr)
    && (ev.Report? ==> ev.pod == m.idx && m'.state == TURNAROUND)
    && (m.state == IDLE ==> (m'.state == WAIT_REPLY <==> c.StartAt? && m.pods != []))
    && m'.idx == (if ev.Missing? || ev.Report? then m.idx + 1 else if m.state == IDLE && c.StartAt? && m.pods != []
                  then 0 else m.idx)
    && (m'.state == m.state || ev.Missing? || ev.Report? || ev == SweepDone || m'.state == WAIT_REPLY)
  }

  lemma SpentAtMost(since: nat, now: nat)
    requires since <= now
    ensures ToU32(ToU32(now) - ToU32(since)) == Spent(since, now) <= now - since
  {
    WrapDiff(now, since);
  }

  lemma StepMoves(m: Master, c: Call, since: nat, was: nat)
    requires Consistent(m) && Clocked(m, since, was) && was <= Time(c)
    ensures var (m', ev) := Do(m, c);
      && Moves(m, c, m', ev, since)
      && Clocked(m', if (m.state, m.idx) == (m'.state, m'.idx) then since else Time(c), Time(c))
  {
    hide Inc, ToU32, Spent;
    SpentAtMost(since, Time(c));
  }

  lemma {:induction false} RunClocked(m: Master, calls: seq<Call>, start: nat)
    requires Consistent(m) && Clocked(m, start, start) && Ordered(start, calls)
    ensures Clocked(Run(m, calls).0, Since(m, calls, start), LastTime(calls, start))
    decreases |calls|
  {
    hide Do, Clocked, Moves;
    if calls != [] {
      var n := |calls| - 1;
      RunClocked(m, calls[..n], start);
      RunLast(m, calls);
      StepMoves(Run(m, calls[..n]).0, calls[n], Since(m, calls[..n], start), LastTime(calls[..n], start));
    }
  }

  /**
   The last call of any run, in true time: a pod is MISSING exactly by a tick that finds the master
   waiting for it since the reply timeout or longer, the next is polled and the sweep ends exactly by
   a tick that finds the turnaround gap over, and a report is taken exactly from the pod asked.
   */
  lemma EveryStepInItsTime(m: Master, calls: seq<Call>, start: nat)
    requires Consistent(m) && Clocked(m, start, start) && Ordered(start, calls) && calls != []
    ensures var n := |calls| - 1; var r := Run(m, calls[..n]); var s := Run(m, calls);
      var since, ev := Since(m, calls[..n], start), if |s.1| > |r.1| then s.1[|r.1|] else NoEvent;
      && Moves(r.0, calls[n], s.0, ev, since)
      && (ev.Missing? ==> Time(calls[n]) - since >= r.0.replyTimeoutMs)
      && (r.0.state == TURNAROUND && s.0.state != TURNAROUND ==> Time(calls[n]) - since >= r.0.turnaroundMs)
  {
    hide Do, Spent, ToU32, Consistent;
    var n := |calls| - 1;
    RunClocked(m, calls[..n], start);
    RunLast(m, calls);
    StepMoves(Run(m, calls[..n]).0, calls[n], Since(m, calls[..n], start), LastTime(calls[..n], start));
    SpentAtMost(Since(m, calls[..n], start), Time(calls[n]));
  }

  // ------------------------------------------------------------- how short a sweep can be

  function Misses(es: seq<Event>): nat
    decreases |es|
  {
    if es == [] then 0 else Misses(es[..|es| - 1]) + if es[|es| - 1].Missing? then 1 else 0
  }

  /** Every pod done cost its turnaround gap, and every missing one its timeout as well. */
  ghost predicate Paid(m: Master, es: seq<Event>, start: nat, since: nat) {
    && m.state != IDLE && (m.state == TURNAROUND ==> m.idx >= 1)
    && since >= start + Cost(m, Misses(es), if m.state == TURNAROUND then m.idx - 1 else m.idx)
  }

  /** So many timeouts and so many turnaround gaps. */
  function Cost(m: Master, missing: nat, gaps: nat): nat {
    missing * m.replyTimeoutMs + gaps * m.turnaroundMs
  }

  lemma CostGrows(m: Master, missing: nat, gaps: nat)
    ensures Cost(m, missing + 1, gaps) == Cost(m, missing, gaps) + m.replyTimeoutMs
    ensures Cost(m, missing, gaps + 1) == Cost(m, missing, gaps) + m.turnaroundMs
  {
    Arith.Distribute(missing, 1, m.replyTimeoutMs);
    Arith.Distribute(gaps, 1, m.turnaroundMs);
  }

  lemma SameCost(m: Master, m': Master, missing: nat, gaps: nat)
    requires m'.replyTimeoutMs == m.replyTimeoutMs && m'.turnaroundMs == m.turnaroundMs
    ensures Cost(m', missing, gaps) == Cost(m, missing, gaps)
  {
  }

  lemma StepPaid(m: Master, c: Call, m': Master, ev: Event, es: seq<Event>, start: nat, since: nat)
    requires Consistent(m) && Moves(m, c, m', ev, since) && Paid(m, es, start, since) && since <= Time(c)
    requires m'.replyTimeoutMs == m.replyTimeoutMs && m'.turnaroundMs == m.turnaroundMs
    ensures var since' := if (m.state, m.idx) == (m'.state, m'.idx) then since else Time(c);
      && (ev != SweepDone ==> Paid(m', if ev == NoEvent then es else es + [ev], start, since'))
      && (ev == SweepDone ==> Time(c) >= start + Cost(m, Misses(es), |m.pods|))
  {
    hide Spent, Cost;
    SpentAtMost(since, Time(c));
    assert (es + [ev])[..|es|] == es;
    CostGrows(m, Misses(es), m.idx);
    if m.idx >= 1 { CostGrows(m, Misses(es), m.idx - 1); }
    SameCost(m, m', Misses(es), m.idx);
    SameCost(m, m', Misses(es) + 1, m.idx);
    if m.idx >= 1 { SameCost(m, m', Misses(es), m.idx - 1); }
  }

  lemma {:induction false} RunPaid(m: Master, calls: seq<Call>, start: nat)
    requires Consistent(m) && m.state == WAIT_REPLY && m.idx == 0 && m.tState == ToU32(start) && Ordered(start, calls)
    requires SweepDone !in Run(m, calls).1
    ensures var (r, es) := Run(m, calls);
      && |r.pods| == |m.pods| && r.replyTimeoutMs == m.replyTimeoutMs && r.turnaroundMs == m.turnaroundMs
      && Paid(r, es, start, Since(m, calls, start)) && Clocked(r, Since(m, calls, start), LastTime(calls, start))
    decreases |calls|
  {
    hide Do, Moves, Paid, Clocked;
    if calls == [] {
      JustStarted(m, start);
    } else {
      var n := |calls| - 1;
      RunLast(m, calls);
      assert forall e :: e in Run(m, calls[..n]).1 ==> e in Run(m, calls).1;
      RunPaid(m, calls[..n], start);
      var (r, es) := Run(m, calls[..n]);
      var (s, ev) := Do(r, calls[n]);
      var since := Since(m, calls[..n], start);
      DoKeepsSettings(r, calls[n]);
      StepMoves(r, calls[n], since, LastTime(calls[..n], start));
      EnteredBefore(r, since, LastTime(calls[..n], start));
      assert ev != NoEvent ==> (es + [ev])[|es|] == ev;
      StepPaid(r, calls[n], s, ev, es, start, since);
    }
  }

  lemma EnteredBefore(m: Master, since: nat, now: nat)
    requires Clocked(m, since, now)
    ensures since <= now
  {
  }

  lemma JustStarted(m: Master, start: nat)
    requires m.state == WAIT_REPLY && m.idx == 0 && m.tState == ToU32(start)
    ensures Paid(m, [], start, start) && Clocked(m, start, start)
  {
  }

  /** A sweep takes at least a turnaround gap for every pod and a reply timeout for every one missing. */
  lemma SweepTakesAtLeast(m: Master, start: nat, calls: seq<Call>)
    requires Consistent(m) && OneSweep(m, ToU32(start), calls) && Ordered(start, calls)
    ensures var es := Run(Start(m, ToU32(start)), calls).1;
      LastTime(calls, start) >= start + Misses(es) * m.replyTimeoutMs + |m.pods| * m.turnaroundMs
  {
    hide Do, Moves, Clocked, Cost;
    var n := |calls| - 1;
    var m0 := Start(m, ToU32(start));
    RunLast(m0, calls);
    RunPaid(m0, calls[..n], start);
    var (r, es) := Run(m0, calls[..n]);
    var since := Since(m0, calls[..n], start);
    DoKeepsSettings(r, calls[n]);
    StepMoves(r, calls[n], since, LastTime(calls[..n], start));
    EnteredBefore(r, since, LastTime(calls[..n], start));
    StepPaid(r, calls[n], Do(r, calls[n]).0, Do(r, calls[n]).1, es, start, since);
    assert (es + [SweepDone])[..|es|] == es;
    CostIs(m, r, Misses(es), |m.pods|);
  }

  lemma CostIs(m: Master, r: Master, missing: nat, gaps: nat)
    requires r.replyTimeoutMs == m.replyTimeoutMs && r.turnaroundMs == m.turnaroundMs
    ensures Cost(r, missing, gaps) == missing * m.replyTimeoutMs + gaps * m.turnaroundMs
  {
  }

  // ---------------------------------------------------------------------- who is asked

  /** The polls put on the wire during a run. */
  function PollsSent(m: Master, calls: seq<Call>): seq<Frame>
    requires Consistent(m)
    decreases |calls|
  {
    if calls == [] then []
    else
      var n := |calls| - 1;
      var r, s := Run(m, calls[..n]).0, Run(m, calls).0;
      PollsSent(m, calls[..n])
      + if r.state != WAIT_REPLY && s.state == WAIT_REPLY then [Frame(s.pods[s.idx].addr, CMD_POLL, [r.seqNo])] else []
  }

  predicate SameAddresses(m: Master, r: Master) {
    |r.pods| == |m.pods| && forall i :: 0 <= i < |m.pods| ==> r.pods[i].addr == m.pods[i].addr
  }

  /** After `sent` polls, `rounds` whole rounds of them and some of the next. */
  predicate InRound(m: Master, r: Master, sent: nat, rounds: nat) {
    && SameAddresses(m, r) && r.seqNo == (m.seqNo + sent) % 256
    && sent == rounds * |m.pods| + (if r.state == IDLE then 0 else if r.state == WAIT_REPLY then r.idx + 1 else r.idx)
  }

  lemma StepRound(m: Master, r: Master, c: Call, sent: nat, rounds: nat) returns (rounds': nat)
    requires Consistent(r) && m.pods != [] && InRound(m, r, sent, rounds)
    ensures var s := Do(r, c).0;
      var polled := r.state != WAIT_REPLY && s.state == WAIT_REPLY;
      && InRound(m, s, if polled then sent + 1 else sent, rounds')
      && (polled ==> s.idx == sent % |m.pods|)
  {
    hide Inc, ToU32;
    var n := |m.pods|;
    var s := Do(r, c).0;
    rounds' := if r.state == TURNAROUND && s.state == IDLE then rounds + 1 else rounds;
    Arith.Distribute(rounds, 1, n);
    if r.state != WAIT_REPLY && s.state == WAIT_REPLY { Arith.Divided(sent, n, rounds, s.idx); }
    SeqNext(m.seqNo, sent);
  }

  lemma SeqNext(from: u8, sent: nat)
    ensures ((from + sent) % 256 + 1) % 256 == (from + (sent + 1)) % 256
  {
  }

  /** Poll `k` asks pod `k`, going round, and is numbered `k` beyond the first number. */
  predicate Asks(m: Master, f: Frame, k: nat)
    requires m.pods != []
  {
    f == Frame(m.pods[k % |m.pods|].addr, 0x01, [(m.seqNo + k) % 256])
  }

  lemma AskedNext(m: Master, r: Master, s: Master, sent: nat, rounds: nat, rounds': nat)
    requires m.pods != [] && InRound(m, r, sent, rounds) && InRound(m, s, sent + 1, rounds')
    requires s.idx == sent % |m.pods|
    ensures Asks(m, Frame(s.pods[s.idx].addr, CMD_POLL, [r.seqNo]), sent)
  {
  }

  /** Over any run the k-th poll sent goes to pod k modulo the number of pods, numbered on modulo 256. */
  lemma {:induction false} PollsGoRound(m: Master, calls: seq<Call>) returns (rounds: nat)
    requires Consistent(m) && m.state == IDLE && m.pods != []
    ensures var sent := PollsSent(m, calls);
      && InRound(m, Run(m, calls).0, |sent|, rounds)
      && forall k :: 0 <= k < |sent| ==> Asks(m, sent[k], k)
    decreases |calls|
  {
    hide Do, InRound, Asks;
    if calls == [] {
      rounds := 0;
      NoRound(m);
    } else {
      var n := |calls| - 1;
      RunLast(m, calls);
      rounds := PollsGoRound(m, calls[..n]);
      var before, sent := PollsSent(m, calls[..n]), PollsSent(m, calls);
      var was := rounds;
      rounds := StepRound(m, Run(m, calls[..n]).0, calls[n], |before|, rounds);
      if |sent| > |before| { AskedNext(m, Run(m, calls[..n]).0, Run(m, calls).0, |before|, was, rounds); }
    }
  }

  lemma NoRound(m: Master)
    requires m.state == IDLE
    ensures InRound(m, m, 0, 0)
  {
  }

  // ------------------------------------------------------- what the table says of the past

  /** How often pod `i` was missing since it last reported, counting on from `before`. */
  function MissingInARow(es: seq<Event>, i: nat, before: nat): nat
    decreases |es|
  {
    if es == [] then before
    else
      match es[|es| - 1]
      case Report(k) => if k == i then 0 else MissingInARow(es[..|es| - 1], i, before)
      case Missing(k) => MissingInARow(es[..|es| - 1], i, before) + if k == i then 1 else 0
      case _ => MissingInARow(es[..|es| - 1], i, before)
  }

  function Present(es: seq<Event>, i: nat, before: bool): bool
    decreases |es|
  {
    if es == [] then before
    else if es[|es| - 1] == Report(i) then true
    else if es[|es| - 1] == Missing(i) then false
    else Present(es[..|es| - 1], i, before)
  }

  function Count(es: seq<Event>, ev: Event): nat
    decreases |es|
  {
    if es == [] then 0 else Count(es[..|es| - 1], ev) + if es[|es| - 1] == ev then 1 else 0
  }

  /** Entry `i` after the events `es`, if it was `was` before them. */
  predicate Remembers(was: Pod, p: Pod, es: seq<Event>, i: nat) {
    && p.addr == was.addr && p.present == Present(es, i, was.present)
    && p.misses == (var n := MissingInARow(es, i, was.misses); if n <= 255 then n else 255)
    && p.replies == (was.replies + Count(es, Report(i))) % 0x1_0000_0000
    && p.timeouts == (was.timeouts + Count(es, Missing(i))) % 0x1_0000_0000
  }

  lemma StepRemembers(m: Master, c: Call, was: Pod, es: seq<Event>, i: nat)
    requires Consistent(m) && i < |m.pods| && Remembers(was, m.pods[i], es, i)
    ensures var (s, ev) := Do(m, c);
      |s.pods| == |m.pods| && Remembers(was, s.pods[i], if ev == NoEvent then es else es + [ev], i)
  {
    hide Inc, ToU32, Count, Present, MissingInARow;
    var (s, ev) := Do(m, c);
    if ev != NoEvent {
      OneMoreEvent(es, ev, i, was);
      SweepCount(was.replies, Count(es, Report(i)));
      SweepCount(was.timeouts, Count(es, Missing(i)));
    }
  }

  lemma OneMoreEvent(es: seq<Event>, ev: Event, i: nat, was: Pod)
    ensures var fs := es + [ev];
      && Count(fs, Report(i)) == Count(es, Report(i)) + (if ev == Report(i) then 1 else 0)
      && Count(fs, Missing(i)) == Count(es, Missing(i)) + (if ev == Missing(i) then 1 else 0)
      && Present(fs, i, was.present)
         == (if ev == Report(i) then true else if ev == Missing(i) then false else Present(es, i, was.present))
      && MissingInARow(fs, i, was.misses)
         == (if ev == Report(i) then 0
             else MissingInARow(es, i, was.misses) + if ev == Missing(i) then 1 else 0)
  {
    assert (es + [ev])[..|es|] == es;
  }

  /**
   The table is the events of any run told pod by pod: present if the last of its events was a report,
   its misses those in a row since, at most 255, and every report and every timeout counted.
   */
  lemma {:induction false} TableTellsTheEvents(m: Master, calls: seq<Call>, i: nat)
    requires Consistent(m) && i < |m.pods|
    ensures var (r, es) := Run(m, calls); |r.pods| == |m.pods| && Remembers(m.pods[i], r.pods[i], es, i)
    decreases |calls|
  {
    hide Do, Remembers, Consistent;
    if calls == [] {
      NothingHappened(m.pods[i], i);
    } else {
      var n := |calls| - 1;
      RunLast(m, calls);
      TableTellsTheEvents(m, calls[..n], i);
      StepRemembers(Run(m, calls[..n]).0, calls[n], m.pods[i], Run(m, calls[..n]).1, i);
    }
  }

  lemma NothingHappened(p: Pod, i: nat)
    ensures Remembers(p, p, [], i)
  {
  }

  /** What else one call writes in the table: the report with its time, and answers of the wrong kind. */
  lemma EntryAfter(m: Master, c: Call, i: nat)
    requires Consistent(m) && i < |m.pods|
    ensures var (s, ev) := Do(m, c); var p := m.pods[i];
      && |s.pods| == |m.pods|
      && s.pods[i].report == (if ev == Report(i) then c.f.payload else p.report)
      && s.pods[i].tLastReply == (if ev == Report(i) then Time(c) % 0x1_0000_0000 else p.tLastReply)
      && s.pods[i].badReplies
         == (if c.RxAt? && m.state == WAIT_REPLY && m.idx == i && c.f.addr == p.addr && c.f.cmd != 0x81
             then (p.badReplies + 1) % 0x1_0000_0000 else p.badReplies)
      && s.sweeps == (m.sweeps + if ev == SweepDone then 1 else 0) % 0x1_0000_0000
  {
  }
}
