/**
 The risk-adaptive duty cycle (duty_cycle.py) and, with the alert engine before it, the cycle
 of the node (node.py:182-194).
 */
module DutyCycle {
  import opened Bytes
  import opened Alerts

  datatype Mode = BASELINE | ELEVATED

  datatype Duty = Duty(mode: Mode, calmStreak: int)

  /** What a store may hand back: nothing, a mode unknown to this version, or a state. */
  datatype Saved = Nothing | Unknown | Known(duty: Duty)

  function Updated(d: Duty, anyWarning: bool, cooldown: int): Duty {
    if anyWarning then Duty(ELEVATED, 0)
    else if d.mode == ELEVATED then
      if d.calmStreak + 1 >= cooldown then Duty(BASELINE, 0) else d.(calmStreak := d.calmStreak + 1)
    else d
  }

  function Restored(d: Duty, saved: Saved): Duty {
    if saved.Known? then saved.duty else d
  }

  /** The seconds from one cycle to the next. */
  function Cadence(d: Duty, baselineS: int, elevatedS: int): int {
    if d.mode == ELEVATED then elevatedS else baselineS
  }

  /** The message to the controller after a cycle: the cadence, if it changed. */
  function Message(before: Duty, after: Duty, baselineS: int, elevatedS: int): Option<int> {
    if Cadence(after, baselineS, elevatedS) != Cadence(before, baselineS, elevatedS)
    then Some(Cadence(after, baselineS, elevatedS)) else None
  }

  class DutyCycle {
    const baselineS: int
    const elevatedS: int
    const cooldownCycles: int
    var mode: Mode
    var calmStreak: int

    function Abs(): Duty
      reads this
    {
      Duty(mode, calmStreak)
    }

    constructor (baselineS: int, elevatedS: int, cooldownCycles: int)
      ensures Abs() == Duty(BASELINE, 0)
      ensures this.baselineS == baselineS && this.elevatedS == elevatedS && this.cooldownCycles == cooldownCycles
    {
      this.baselineS, this.elevatedS, this.cooldownCycles := baselineS, elevatedS, cooldownCycles;
      mode, calmStreak := BASELINE, 0;
    }

    function CadenceS(): (s: int)
      reads this
      ensures s == Cadence(Abs(), baselineS, elevatedS)
    {
      if mode == ELEVATED then elevatedS else baselineS
    }

    method Update(anyWarning: bool) returns (changed: bool)
      modifies this
      ensures Abs() == Updated(old(Abs()), anyWarning, cooldownCycles)
      ensures changed == (CadenceS() != old(CadenceS()))
    {
      var before := CadenceS();
      if anyWarning {
        mode, calmStreak := ELEVATED, 0;
      } else if mode == ELEVATED {
        calmStreak := calmStreak + 1;
        if calmStreak >= cooldownCycles { mode, calmStreak := BASELINE, 0; }
      }
      changed := CadenceS() != before;
    }

    /** export_state: whatever the machine that restores it was at, it then is where this one is. */
    method ExportState() returns (d: Saved)
      ensures forall other: Duty :: Restored(other, d) == Abs()
    {
      d := Known(Duty(mode, calmStreak));
    }

    /** import_state: a mode unknown to the code, or nothing saved, changes nothing. */
    method ImportState(d: Saved)
      modifies this
      ensures d.Known? ==> mode == d.duty.mode && calmStreak == d.duty.calmStreak
      ensures !d.Known? ==> mode == old(mode) && calmStreak == old(calmStreak)
    {
      if d.Known? { mode, calmStreak := d.duty.mode, d.duty.calmStreak; }
    }
  }

  // ------------------------------------------------------------- the duty over whole runs

  function DutyAfter(warned: seq<bool>, cooldown: int): Duty
    decreases |warned|
  {
    if warned == [] then Duty(BASELINE, 0)
    else Updated(DutyAfter(warned[..|warned| - 1], cooldown), warned[|warned| - 1], cooldown)
  }

  /** Elevated exactly while a warning stood within the last cooldown_cycles cycles; the streak counts the calm ones. */
  lemma {:induction false} ElevatedExactly(warned: seq<bool>, cooldown: int)
    ensures var d := DutyAfter(warned, cooldown); var n := |warned|;
      && (d.mode == ELEVATED <==> Recently(warned, Patience(cooldown)))
      && (d.mode == BASELINE ==> d.calmStreak == 0)
      && 0 <= d.calmStreak < Patience(cooldown)
      && (d.mode == ELEVATED ==> d.calmStreak < n && warned[n - 1 - d.calmStreak] && Calm(warned, n - d.calmStreak))
    decreases |warned|
  {
    hide Recently;
    if warned == [] {
      NothingRecent(Patience(cooldown));
    } else {
      var n := |warned| - 1;
      var before := warned[..n];
      ElevatedExactly(before, cooldown);
      var d := DutyAfter(before, cooldown);
      RecentlyNext(before, warned[n], Patience(cooldown));
      assert warned == before + [warned[n]];
      if d.mode == ELEVATED {
        RecentlyCalm(before, d.calmStreak, Patience(cooldown) - 1);
        assert before[n - 1 - d.calmStreak] == warned[n - 1 - d.calmStreak];
      }
    }
  }

  lemma NothingRecent(k: nat)
    ensures !Recently([], k)
  {
  }

  lemma RecentlyNext(before: seq<bool>, last: bool, k: nat)
    requires k > 0
    ensures Recently(before + [last], k) <==> last || Recently(before, k - 1)
    ensures Recently(before, k - 1) ==> Recently(before, k)
  {
    var w := before + [last];
    if last { assert w[|before|]; }
    if Recently(before, k - 1) {
      var i :| 0 <= i < |before| && |before| - (k - 1) <= i && before[i];
      assert w[i];
    }
  }

  /** With the last warning so many cycles back. */
  lemma RecentlyCalm(warned: seq<bool>, calm: nat, k: nat)
    requires calm < |warned| && warned[|warned| - 1 - calm] && Calm(warned, |warned| - calm)
    ensures Recently(warned, k) <==> calm < k
  {
  }

  predicate Calm(warned: seq<bool>, from: int) { forall i :: 0 <= i < |warned| && from <= i ==> !warned[i] }

  // ------------------------------------------------------------------ the node's cycles

  datatype Node = Node(alerts: State, duty: Duty)

  function FreshNode(b: Bundle): (n: Node)
    ensures Covers(b, n.alerts)
  {
    Node(Fresh(b), Duty(BASELINE, 0))
  }

  /** One cycle: decide, then the duty cycle on whether any warning stands. */
  ghost function Cycle(b: Bundle, n: Node, probs: Probs, clear: int, cooldown: int): (r: Node)
    requires WellFormed(b) && AllKnown(b, probs) && Covers(b, n.alerts)
    ensures Covers(b, r.alerts) && r.alerts.Keys == n.alerts.Keys
  {
    var alerts := Decided(b, n.alerts, probs, clear, |b.heads|).0;
    Node(alerts, Updated(n.duty, Warned(alerts), cooldown))
  }

  /** Steps 6 and 7 of run_cycle; `cadence` is the message to the controller, if any. */
  method RunCycle(engine: AlertEngine, duty: DutyCycle, probs: Probs) returns (alerts: seq<Alert>, cadence: Option<int>)
    requires engine.Valid() && AllKnown(engine.bundle, probs)
    modifies engine, duty
    ensures engine.Valid()
    ensures Node(engine.state, duty.Abs())
         == Cycle(engine.bundle, old(Node(engine.state, duty.Abs())), probs, engine.clearCycles, duty.cooldownCycles)
    ensures alerts == Decided(engine.bundle, old(engine.state), probs, engine.clearCycles, |engine.bundle.heads|).1
    ensures cadence == Message(old(duty.Abs()), duty.Abs(), duty.baselineS, duty.elevatedS)
  {
    alerts := engine.Decide(probs);
    var any := engine.AnyWarning();
    var changed := duty.Update(any);
    cadence := if changed then Some(duty.CadenceS()) else None;
  }

  ghost function RunNode(b: Bundle, n: Node, cycles: seq<Probs>, clear: int, cooldown: int): (r: Node)
    requires WellFormed(b) && AllCyclesKnown(b, cycles) && Covers(b, n.alerts)
    ensures Covers(b, r.alerts) && r.alerts.Keys == n.alerts.Keys
    decreases |cycles|
  {
    if cycles == [] then n
    else Cycle(b, RunNode(b, n, cycles[..|cycles| - 1], clear, cooldown), cycles[|cycles| - 1], clear, cooldown)
  }

  ghost predicate StoodAfter(b: Bundle, cycles: seq<Probs>, clear: int, n: nat)
    requires WellFormed(b) && AllCyclesKnown(b, cycles) && n <= |cycles|
  {
    KnownPrefix(b, cycles, n);
    Warned(RunFrom(b, Fresh(b), cycles[..n], clear))
  }

  /** Whether a warning stood after each cycle. */
  ghost function Stood(b: Bundle, cycles: seq<Probs>, clear: int): (w: seq<bool>)
    requires WellFormed(b) && AllCyclesKnown(b, cycles)
    ensures |w| == |cycles| && forall i :: 0 <= i < |w| ==> w[i] == StoodAfter(b, cycles, clear, i + 1)
  {
    hide WellFormed, AllCyclesKnown;
    seq(|cycles|, i requires 0 <= i < |cycles| => StoodAfter(b, cycles, clear, i + 1))
  }

  lemma {:induction false} RunNodeIs(b: Bundle, cycles: seq<Probs>, clear: int, cooldown: int)
    requires WellFormed(b) && AllCyclesKnown(b, cycles)
    ensures RunNode(b, FreshNode(b), cycles, clear, cooldown)
         == Node(RunFrom(b, Fresh(b), cycles, clear), DutyAfter(Stood(b, cycles, clear), cooldown))
    decreases |cycles|
  {
    hide Updated, Decided, Warned, Fresh, AllKnown, WellFormed;
    if cycles != [] {
      var n := |cycles| - 1;
      KnownPrefix(b, cycles, n);
      RunNodeIs(b, cycles[..n], clear, cooldown);
      assert cycles[..n + 1] == cycles;
      StoodPrefix(b, cycles, clear, n);
    }
  }

  lemma StoodPrefix(b: Bundle, cycles: seq<Probs>, clear: int, n: nat)
    requires WellFormed(b) && n <= |cycles| && AllCyclesKnown(b, cycles) && AllCyclesKnown(b, cycles[..n])
    ensures Stood(b, cycles, clear)[..n] == Stood(b, cycles[..n], clear)
  {
    hide RunFrom, Warned, Fresh, AllCyclesKnown, WellFormed, Stood;
    forall i | 0 <= i < n ensures Stood(b, cycles, clear)[i] == Stood(b, cycles[..n], clear)[i] {
      assert cycles[..n][..i + 1] == cycles[..i + 1];
    }
  }

  /** A warning crossed within one window, seen within the next, was crossed within the two together. */
  lemma WindowsAdd(crossed: seq<bool>, stood: seq<bool>, c: nat, k: nat)
    requires c > 0 && k > 0 && |crossed| == |stood|
    requires forall i :: 0 <= i < |stood| ==> (stood[i] <==> Recently(crossed[..i + 1], c))
    ensures Recently(stood, k) <==> Recently(crossed, c + k - 1)
  {
    var n := |crossed|;
    if Recently(stood, k) {
      var i :| 0 <= i < n && n - k <= i && stood[i];
      var j :| 0 <= j < i + 1 && i + 1 - c <= j && crossed[..i + 1][j];
      assert crossed[j];
    }
    if Recently(crossed, c + k - 1) {
      var j :| 0 <= j < n && n - (c + k - 1) <= j && crossed[j];
      var i := if j + c - 1 < n then j + c - 1 else n - 1;
      assert crossed[..i + 1][j];
      assert stood[i];
    }
  }

  /**
   After any run the node is at the elevated cadence exactly when some head crossed its warning
   threshold within the last clear_cycles + cooldown_cycles - 1 cycles: the baseline returns
   exactly that many cycles after the last crossing, and no crossing waits for it.
   */
  lemma CadenceExactly(b: Bundle, cycles: seq<Probs>, clear: int, cooldown: int)
    requires WellFormed(b) && AllCyclesKnown(b, cycles)
    ensures RunNode(b, FreshNode(b), cycles, clear, cooldown).duty.mode == ELEVATED
       <==> Recently(Crossings(b, cycles), Patience(clear) + Patience(cooldown) - 1)
  {
    hide RunNode, RunFrom, Recently, Crossed, DutyAfter, Fresh, Warned, AllKnown, WellFormed;
    RunNodeIs(b, cycles, clear, cooldown);
    ElevatedExactly(Stood(b, cycles, clear), cooldown);
    forall i | 0 <= i < |cycles|
      ensures Stood(b, cycles, clear)[i] <==> Recently(Crossings(b, cycles)[..i + 1], Patience(clear))
    {
      KnownPrefix(b, cycles, i + 1);
      AnyWarningExactly(b, cycles[..i + 1], clear);
      assert Crossings(b, cycles)[..i + 1] == Crossings(b, cycles[..i + 1]);
    }
    WindowsAdd(Crossings(b, cycles), Stood(b, cycles, clear), Patience(clear), Patience(cooldown));
  }

  /** What the controller was last told: the cadence at the start (node.py:92), then every message. */
  ghost function LastTold(b: Bundle, cycles: seq<Probs>, clear: int, cooldown: int, baselineS: int, elevatedS: int): int
    requires WellFormed(b) && AllCyclesKnown(b, cycles)
    decreases |cycles|
  {
    if cycles == [] then Cadence(Duty(BASELINE, 0), baselineS, elevatedS)
    else
      var n := |cycles| - 1;
      KnownPrefix(b, cycles, n);
      var m := Message(RunNode(b, FreshNode(b), cycles[..n], clear, cooldown).duty,
                       RunNode(b, FreshNode(b), cycles, clear, cooldown).duty, baselineS, elevatedS);
      if m.Some? then m.value else LastTold(b, cycles[..n], clear, cooldown, baselineS, elevatedS)
  }

  lemma {:induction false} ToldIsCadence(b: Bundle, cycles: seq<Probs>, clear: int, cooldown: int, baselineS: int,
                                         elevatedS: int)
    requires WellFormed(b) && AllCyclesKnown(b, cycles)
    ensures LastTold(b, cycles, clear, cooldown, baselineS, elevatedS)
         == Cadence(RunNode(b, FreshNode(b), cycles, clear, cooldown).duty, baselineS, elevatedS)
    decreases |cycles|
  {
    hide Cycle, WellFormed, AllCyclesKnown, Fresh;
    if cycles != [] {
      KnownPrefix(b, cycles, |cycles| - 1);
      ToldIsCadence(b, cycles[..|cycles| - 1], clear, cooldown, baselineS, elevatedS);
    }
  }

  /** The cadence that the crossings of a run call for, in seconds. */
  ghost function Due(b: Bundle, cycles: seq<Probs>, clear: int, cooldown: int, baselineS: int, elevatedS: int): int
    requires WellFormed(b) && AllCyclesKnown(b, cycles)
  {
    if Recently(Crossings(b, cycles), Patience(clear) + Patience(cooldown) - 1) then elevatedS else baselineS
  }

  /**
   What the controller has last been told, in seconds, is the elevated cadence exactly while a crossing
   lies in the window, and otherwise the baseline one.
   */
  lemma ToldExactly(b: Bundle, cycles: seq<Probs>, clear: int, cooldown: int, baselineS: int, elevatedS: int)
    requires WellFormed(b) && AllCyclesKnown(b, cycles)
    ensures LastTold(b, cycles, clear, cooldown, baselineS, elevatedS)
         == Due(b, cycles, clear, cooldown, baselineS, elevatedS)
  {
    hide RunNode, WellFormed, AllCyclesKnown, Fresh, Recently, Crossings, Patience;
    ToldIsCadence(b, cycles, clear, cooldown, baselineS, elevatedS);
    CadenceExactly(b, cycles, clear, cooldown);
  }

  /** It is told at a cycle exactly when that changes. */
  lemma MessageExactly(b: Bundle, cycles: seq<Probs>, last: Probs, clear: int, cooldown: int, baselineS: int,
                       elevatedS: int)
    requires WellFormed(b) && AllCyclesKnown(b, cycles) && AllCyclesKnown(b, cycles + [last])
    ensures var was := Due(b, cycles, clear, cooldown, baselineS, elevatedS);
      var due := Due(b, cycles + [last], clear, cooldown, baselineS, elevatedS);
      Message(RunNode(b, FreshNode(b), cycles, clear, cooldown).duty,
              RunNode(b, FreshNode(b), cycles + [last], clear, cooldown).duty, baselineS, elevatedS)
      == if due != was then Some(due) else None
  {
    hide RunNode, WellFormed, AllCyclesKnown, Fresh, Recently, Crossings, Patience;
    CadenceExactly(b, cycles, clear, cooldown);
    CadenceExactly(b, cycles + [last], clear, cooldown);
  }

  // ------------------------------------------------------------------------- restarts

  /** A restart: what was saved after a cycle, read back by a new node. */
  function Restarted(b: Bundle, n: Node): Node {
    Node(Imported(Fresh(b), Exported(n.alerts)), Restored(Duty(BASELINE, 0), Known(n.duty)))
  }

  lemma {:induction false} RunNodeAppend(b: Bundle, n: Node, p: seq<Probs>, q: seq<Probs>, clear: int, cooldown: int)
    requires WellFormed(b) && Covers(b, n.alerts)
    requires AllCyclesKnown(b, p) && AllCyclesKnown(b, q) && AllCyclesKnown(b, p + q)
    ensures RunNode(b, n, p + q, clear, cooldown) == RunNode(b, RunNode(b, n, p, clear, cooldown), q, clear, cooldown)
    decreases |q|
  {
    hide Cycle;
    if q == [] {
      assert p + q == p;
    } else {
      var m := |q| - 1;
      assert (p + q)[..|p| + m] == p + q[..m];
      RunNodeAppend(b, n, p, q[..m], clear, cooldown);
    }
  }

  /** A restart between any two cycles of any run leaves the rest of the run as it would have been. */
  lemma RestartUnnoticed(b: Bundle, p: seq<Probs>, q: seq<Probs>, clear: int, cooldown: int)
    requires WellFormed(b) && AllCyclesKnown(b, p) && AllCyclesKnown(b, q) && AllCyclesKnown(b, p + q)
    ensures var n := Restarted(b, RunNode(b, FreshNode(b), p, clear, cooldown));
      Covers(b, n.alerts) && RunNode(b, n, q, clear, cooldown) == RunNode(b, FreshNode(b), p + q, clear, cooldown)
  {
    hide RunNode, Exported, Imported, Fresh;
    var n := RunNode(b, FreshNode(b), p, clear, cooldown);
    ExportedImported(b, n.alerts);
    RunNodeAppend(b, FreshNode(b), p, q, clear, cooldown);
  }
}
