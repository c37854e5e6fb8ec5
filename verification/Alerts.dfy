/**
 The alert engine (alerts.py): per head the best tier any horizon crosses, entered at once and
 left with hysteresis. Probabilities and thresholds are reals, compared and never rounded.
 */
module Alerts {
  import opened Bytes

  type Level = x: int | 0 <= x <= 2

  const NONE: Level := 0
  const ADVISORY: Level := 1
  const WARNING: Level := 2

  type Code = string

  /** The output of a head at one horizon, in hours. */
  datatype Name = Name(code: Code, horizon: nat)

  datatype Threshold = Threshold(advisory: real, warning: real, source: string)

  datatype Head = Head(code: Code, trained: bool, horizons: seq<nat>)

  datatype Bundle = Bundle(heads: seq<Head>, thresholds: map<Name, Threshold>)

  type Probs = map<Name, real>

  datatype HeadState = HeadState(level: Level, belowStreak: int)

  datatype Alert = Alert(head: Code, level: Level, prevLevel: Level, output: Name, probability: real, threshold: real,
                         source: string)

  /** The codes name the heads, and a trained head has outputs. */
  ghost predicate WellFormed(b: Bundle) {
    && (forall i, j :: 0 <= i < j < |b.heads| ==> b.heads[i].code != b.heads[j].code)
    && (forall i :: 0 <= i < |b.heads| && b.heads[i].trained ==> b.heads[i].horizons != [])
  }

  /** Every output of a head has a probability and a threshold. */
  predicate Known(b: Bundle, h: Head, probs: Probs) {
    forall i :: 0 <= i < |h.horizons| ==>
      Name(h.code, h.horizons[i]) in probs && Name(h.code, h.horizons[i]) in b.thresholds
  }

  predicate AllKnown(b: Bundle, probs: Probs) {
    forall i :: 0 <= i < |b.heads| && b.heads[i].trained ==> Known(b, b.heads[i], probs)
  }

  function Tier(p: real, t: Threshold): Level {
    if p >= t.warning then WARNING else if p >= t.advisory then ADVISORY else NONE
  }

  function TierAt(b: Bundle, h: Head, probs: Probs, i: nat): Level
    requires i < |h.horizons| && Known(b, h, probs)
  {
    Tier(probs[Name(h.code, h.horizons[i])], b.thresholds[Name(h.code, h.horizons[i])])
  }

  function ProbAt(b: Bundle, h: Head, probs: Probs, i: nat): real
    requires i < |h.horizons| && Known(b, h, probs)
  {
    probs[Name(h.code, h.horizons[i])]
  }

  /** Horizon `i` drives the decision over horizon `j`: a higher tier, or a higher probability in the same. */
  predicate Beats(b: Bundle, h: Head, probs: Probs, i: nat, j: nat)
    requires i < |h.horizons| && j < |h.horizons| && Known(b, h, probs)
  {
    var ti, tj := TierAt(b, h, probs, i), TierAt(b, h, probs, j);
    ti > tj || (ti == tj && ProbAt(b, h, probs, i) > ProbAt(b, h, probs, j))
  }

  /** The horizon that drives a head's decision, among the first `n`: the first that none beats. */
  function Driver(b: Bundle, h: Head, probs: Probs, n: nat): (i: nat)
    requires 0 < n <= |h.horizons| && Known(b, h, probs)
    ensures i < n
    ensures forall j :: 0 <= j < n ==> !Beats(b, h, probs, j, i)
    ensures forall j :: 0 <= j < i ==> Beats(b, h, probs, i, j)
  {
    if n == 1 then 0
    else
      var d := Driver(b, h, probs, n - 1);
      if Beats(b, h, probs, n - 1, d) then BeatsAll(b, h, probs, n - 1, d); n - 1 else d
  }

  /** What beats a horizon beats all that do not beat it. */
  lemma BeatsAll(b: Bundle, h: Head, probs: Probs, i: nat, d: nat)
    requires d < i < |h.horizons| && Known(b, h, probs) && Beats(b, h, probs, i, d)
    ensures forall j :: 0 <= j < i && !Beats(b, h, probs, j, d) ==>
              Beats(b, h, probs, i, j) && !Beats(b, h, probs, j, i)
  {
    hide Known, TierAt, ProbAt;
  }

  function Best(b: Bundle, h: Head, probs: Probs): Level
    requires h.horizons != [] && Known(b, h, probs)
  {
    TierAt(b, h, probs, Driver(b, h, probs, |h.horizons|))
  }

  /** One cycle of a head's hysteresis. */
  function Step(s: HeadState, best: Level, clear: int): HeadState {
    if best > s.level then HeadState(best, 0)
    else if best < s.level then
      if s.belowStreak + 1 >= clear then HeadState(best, 0) else s.(belowStreak := s.belowStreak + 1)
    else s.(belowStreak := 0)
  }

  function AlertOf(b: Bundle, h: Head, probs: Probs, was: Level, new_: Level): Alert
    requires h.horizons != [] && Known(b, h, probs)
  {
    var i := Driver(b, h, probs, |h.horizons|);
    var name := Name(h.code, h.horizons[i]);
    var t := b.thresholds[name];
    Alert(h.code, new_, was, name, probs[name], if new_ == WARNING then t.warning else t.advisory, t.source)
  }

  type State = map<Code, HeadState>

  ghost predicate Covers(b: Bundle, st: State) {
    forall i :: 0 <= i < |b.heads| ==> b.heads[i].code in st
  }

  /** One cycle over the first `n` heads: the new states, and an alert per level changed. */
  ghost function Decided(b: Bundle, st: State, probs: Probs, clear: int, n: nat): (r: (State, seq<Alert>))
    requires WellFormed(b) && AllKnown(b, probs) && Covers(b, st) && n <= |b.heads|
    ensures r.0.Keys == st.Keys
  {
    if n == 0 then (st, [])
    else
      var (s, out) := Decided(b, st, probs, clear, n - 1);
      var h := b.heads[n - 1];
      if !h.trained then (s, out)
      else
        var new_ := Step(s[h.code], Best(b, h, probs), clear);
        (s[h.code := new_],
         if new_.level != s[h.code].level then out + [AlertOf(b, h, probs, s[h.code].level, new_.level)] else out)
  }

  // ---------------------------------------------------------------------- the code

  class AlertEngine {
    const bundle: Bundle
    const clearCycles: int
    var state: State

    ghost predicate Valid()
      reads this
    {
      WellFormed(bundle) && Covers(bundle, state)
    }

    constructor (bundle: Bundle, clearCycles: int)
      requires WellFormed(bundle)
      ensures Valid() && this.bundle == bundle && this.clearCycles == clearCycles
      ensures state == Fresh(bundle)
    {
      this.bundle, this.clearCycles := bundle, clearCycles;
      state := Fresh(bundle);
    }

    /** The inner loop of decide. */
    method BestOf(h: Head, probs: Probs) returns (bestLevel: Level, best: nat)
      requires h.horizons != [] && Known(bundle, h, probs)
      ensures best == Driver(bundle, h, probs, |h.horizons|) && bestLevel == Best(bundle, h, probs)
    {
      bestLevel, best := NONE, 0;
      var i := 0;
      while i < |h.horizons|
        invariant 0 <= i <= |h.horizons|
        invariant i == 0 ==> bestLevel == NONE
        invariant i > 0 ==> best == Driver(bundle, h, probs, i) && bestLevel == TierAt(bundle, h, probs, best)
      {
        var name := Name(h.code, h.horizons[i]);
        var lvl := Tier(probs[name], bundle.thresholds[name]);
        if lvl > bestLevel || i == 0 || (lvl == bestLevel && probs[name] > probs[Name(h.code, h.horizons[best])]) {
          bestLevel, best := lvl, i;
        }
        i := i + 1;
      }
    }

    method Decide(probs: Probs) returns (out: seq<Alert>)
      requires Valid() && AllKnown(bundle, probs)
      modifies this
      ensures Valid() && (state, out) == Decided(bundle, old(state), probs, clearCycles, |bundle.heads|)
    {
      hide Driver, Known;
      out := [];
      var k := 0;
      while k < |bundle.heads|
        invariant 0 <= k <= |bundle.heads| && Valid()
        invariant (state, out) == Decided(bundle, old(state), probs, clearCycles, k)
      {
        var h := bundle.heads[k];
        k := k + 1;
        if !h.trained { continue; }
        var bestLevel, best := BestOf(h, probs);
        var st := state[h.code];
        var new_, streak := st.level, st.belowStreak;
        if bestLevel > st.level {
          new_, streak := bestLevel, 0;
        } else if bestLevel < st.level {
          streak := streak + 1;
          if streak >= clearCycles { new_, streak := bestLevel, 0; }
        } else {
          streak := 0;
        }
        if new_ != st.level { out := out + [AlertOf(bundle, h, probs, st.level, new_)]; }
        state := state[h.code := HeadState(new_, streak)];
      }
    }

    /** any_warning: true exactly if some head is at warning. */
    method AnyWarning() returns (any: bool)
      ensures any <==> exists c :: c in state && state[c].level == WARNING
    {
      var rest := state.Keys;
      while rest != {}
        invariant rest <= state.Keys && forall c :: c in state && c !in rest ==> state[c].level != WARNING
        decreases |rest|
      {
        var c :| c in rest;
        if state[c].level == WARNING { return true; }
        rest := rest - {c};
      }
      return false;
    }

    /** export_state: an entry for every head; importing them gives any engine of these heads this state. */
    method ExportState() returns (d: map<Code, (Level, int)>)
      ensures d.Keys == state.Keys && forall c :: c in d ==> d[c] == (state[c].level, state[c].belowStreak)
      ensures forall st: State :: st.Keys == state.Keys ==> Imported(st, d) == state
    {
      d := map[];
      var rest := state.Keys;
      while rest != {}
        invariant rest <= state.Keys && d.Keys == state.Keys - rest
        invariant forall c :: c in d ==> d[c] == (state[c].level, state[c].belowStreak)
        decreases |rest|
      {
        var c :| c in rest;
        d := d[c := (state[c].level, state[c].belowStreak)];
        rest := rest - {c};
      }
    }

    /** import_state: the saved heads the engine has are set, the engine's others stay as they are. */
    method ImportState(saved: Option<map<Code, (Level, int)>>)
      requires Valid()
      modifies this
      ensures Valid() && state.Keys == old(state).Keys
      ensures forall c :: c in state && saved.Some? && c in saved.value ==>
                state[c] == HeadState(saved.value[c].0, saved.value[c].1)
      ensures forall c :: c in state && !(saved.Some? && c in saved.value) ==> state[c] == old(state)[c]
    {
      if saved.None? { return; }
      var d := saved.value;
      var rest := d.Keys;
      while rest != {}
        invariant rest <= d.Keys && Valid() && state.Keys == old(state).Keys
        invariant forall c :: c in state && c in d && c !in rest ==> state[c] == HeadState(d[c].0, d[c].1)
        invariant forall c :: c in state && (c !in d || c in rest) ==> state[c] == old(state)[c]
        decreases |rest|
      {
        var k :| k in rest;
        if k in state { state := state[k := HeadState(d[k].0, d[k].1)]; }
        rest := rest - {k};
      }
    }
  }

  /** A state for every head, none of them alerted. */
  function FreshOf(heads: seq<Head>): (st: State)
    ensures forall i :: 0 <= i < |heads| ==> heads[i].code in st
    ensures forall c :: c in st ==> st[c] == HeadState(0, 0) && exists i :: 0 <= i < |heads| && heads[i].code == c
    decreases |heads|
  {
    if heads == [] then map[] else FreshOf(heads[..|heads| - 1])[heads[|heads| - 1].code := HeadState(0, 0)]
  }

  function Fresh(b: Bundle): (st: State)
    ensures Covers(b, st)
  {
    FreshOf(b.heads)
  }

  predicate Warned(st: State) { exists c :: c in st && st[c].level == WARNING }

  function Exported(st: State): map<Code, (Level, int)> { map c | c in st :: (st[c].level, st[c].belowStreak) }

  /** Entries of heads the engine does not have are ignored. */
  function Imported(st: State, d: map<Code, (Level, int)>): State {
    map c | c in st :: if c in d then HeadState(d[c].0, d[c].1) else st[c]
  }

  /** A head's level is its best tier, and of its outputs none crosses a higher one. */
  lemma BestIsHighest(b: Bundle, h: Head, probs: Probs)
    requires h.horizons != [] && Known(b, h, probs)
    ensures forall i :: 0 <= i < |h.horizons| ==> TierAt(b, h, probs, i) <= Best(b, h, probs)
    ensures exists i :: 0 <= i < |h.horizons| && TierAt(b, h, probs, i) == Best(b, h, probs)
  {
    hide Tier;
    var d := Driver(b, h, probs, |h.horizons|);
    forall i | 0 <= i < |h.horizons| ensures TierAt(b, h, probs, i) <= Best(b, h, probs) {
      assert !Beats(b, h, probs, i, d);
    }
    assert TierAt(b, h, probs, d) == Best(b, h, probs);
  }

  // ------------------------------------------------------------ one head over whole runs

  /** The state of a head after the best tiers of a run. */
  function After(bests: seq<Level>, clear: int): HeadState
    decreases |bests|
  {
    if bests == [] then HeadState(0, 0) else Step(After(bests[..|bests| - 1], clear), bests[|bests| - 1], clear)
  }

  /** The cycles below the held tier after which it is left; the first such cycle counts. */
  function Patience(clear: int): nat { if clear < 1 then 1 else clear }

  predicate AllBelow(bests: seq<Level>, from: int, lvl: Level) {
    forall i :: 0 <= i < |bests| && from <= i ==> bests[i] < lvl
  }

  /** The streak counts the last cycles below the level; the cycle before them was at it. */
  lemma {:induction false} StreakCounts(bests: seq<Level>, clear: int)
    ensures var s := After(bests, clear); var n := |bests|;
      && 0 <= s.belowStreak < Patience(clear) && s.belowStreak <= n
      && AllBelow(bests, n - s.belowStreak, s.level)
      && (n > 0 ==> s.belowStreak < n && bests[n - 1 - s.belowStreak] == s.level)
    decreases |bests|
  {
    if bests != [] {
      var n := |bests| - 1;
      StreakCounts(bests[..n], clear);
    }
  }

  /** No head is ever below the best tier of the present cycle. */
  lemma LevelCoversBest(bests: seq<Level>, clear: int)
    requires bests != []
    ensures After(bests, clear).level >= bests[|bests| - 1]
  {
  }

  /**
   A head's level falls at a cycle exactly when this and the clear_cycles - 1 cycles before it
   were all below the held level; it then falls to the present best tier.
   */
  lemma DropsExactly(bests: seq<Level>, best: Level, clear: int)
    ensures var held := After(bests, clear).level; var new_ := After(bests + [best], clear).level;
      var from := |bests| - (Patience(clear) - 1);
      && (new_ < held <==> best < held && from >= 0 && AllBelow(bests, from, held))
      && (new_ < held ==> new_ == best)
  {
    hide After;
    StreakCounts(bests, clear);
    AfterNext(bests, best, clear);
    var s := After(bests, clear);
    if bests != [] { assert bests[|bests| - 1 - s.belowStreak] == s.level; }
  }

  lemma AfterNext(bests: seq<Level>, best: Level, clear: int)
    ensures After(bests + [best], clear) == Step(After(bests, clear), best, clear)
  {
    assert (bests + [best])[..|bests|] == bests;
  }

  /** Whether a warning tier was crossed in the last `window` cycles. */
  predicate Recently(crossed: seq<bool>, window: nat) {
    exists i :: 0 <= i < |crossed| && |crossed| - window <= i && crossed[i]
  }

  function Warnings(bests: seq<Level>): (w: seq<bool>)
    ensures |w| == |bests|
  {
    seq(|bests|, i requires 0 <= i < |bests| => bests[i] == WARNING)
  }

  /** A head is at warning exactly when it crossed that tier within the last clear_cycles cycles. */
  lemma {:induction false} WarningExactly(bests: seq<Level>, clear: int)
    ensures After(bests, clear).level == WARNING <==> Recently(Warnings(bests), Patience(clear))
    decreases |bests|
  {
    hide After;
    StreakCounts(bests, clear);
    var n := |bests|;
    if n > 0 && After(bests, clear).level == WARNING {
      assert Warnings(bests)[n - 1 - After(bests, clear).belowStreak];
    }
    if n == 0 {
      assert After(bests, clear).level == 0 by { AfterNothing(clear); }
    } else if Recently(Warnings(bests), Patience(clear)) {
      var i :| 0 <= i < n && n - Patience(clear) <= i && Warnings(bests)[i];
      var before := bests[..n - 1];
      assert bests == before + [bests[n - 1]];
      AfterNext(before, bests[n - 1], clear);
      if i < n - 1 {
        assert Warnings(before)[i];
        WarningExactly(before, clear);
        DropsExactly(before, bests[n - 1], clear);
        assert before[i] == WARNING;
      }
    }
  }

  lemma AfterNothing(clear: int)
    ensures After([], clear) == HeadState(0, 0)
  {
  }

  /** Some of the cycles from `from` on crossed just the advisory tier, or the advisory tier at least. */
  predicate Crossing(bests: seq<Level>, from: int, exactly: bool) {
    exists i :: 0 <= i < |bests| && from <= i && (if exactly then bests[i] == ADVISORY else bests[i] >= ADVISORY)
  }

  /**
   Hysteresis keeps the held tier only. A head is clear although it crossed the advisory tier within
   the clear_cycles - 1 cycles before, exactly when it was held at warning through cycles that were
   all below warning, one of them at advisory, and crosses nothing now.
   */
  lemma AdvisoryLostExactly(bests: seq<Level>, best: Level, clear: int)
    ensures var held := After(bests, clear).level; var new_ := After(bests + [best], clear).level;
      var from := |bests| - (Patience(clear) - 1);
      (held >= ADVISORY && new_ < ADVISORY && Crossing(bests, from, false))
      <==> (held == WARNING && best == NONE && from >= 0
            && AllBelow(bests, from, WARNING) && Crossing(bests, from, true))
  {
    hide After, Patience;
    DropsExactly(bests, best, clear);
    var from := |bests| - (Patience(clear) - 1);
    if AllBelow(bests, from, WARNING) && Crossing(bests, from, false) {
      var i :| 0 <= i < |bests| && from <= i && bests[i] >= ADVISORY;
      assert bests[i] == ADVISORY;
    }
  }

  /** Such a run, with three cycles of hysteresis. */
  lemma FallsPastAdvisory()
    ensures After([2, 1, 1], 3).level == 2 && After([2, 1, 1, 0], 3).level == 0
  {
    AfterNothing(3);
    AfterNext([], 2, 3);
    AfterNext([2], 1, 3);
    AfterNext([2, 1], 1, 3);
    AfterNext([2, 1, 1], 0, 3);
    assert [] + [2] == [2] && [2] + [1] == [2, 1] && [2, 1] + [1] == [2, 1, 1] && [2, 1, 1] + [0] == [2, 1, 1, 0];
  }

  // ------------------------------------------------------------------ all heads over runs

  ghost predicate AllCyclesKnown(b: Bundle, cycles: seq<Probs>) {
    forall i :: 0 <= i < |cycles| ==> AllKnown(b, cycles[i])
  }

  /** The heads' states after a run of cycles. */
  ghost function RunFrom(b: Bundle, st: State, cycles: seq<Probs>, clear: int): (r: State)
    requires WellFormed(b) && Covers(b, st) && AllCyclesKnown(b, cycles)
    ensures r.Keys == st.Keys
    decreases |cycles|
  {
    if cycles == [] then st
    else Decided(b, RunFrom(b, st, cycles[..|cycles| - 1], clear), cycles[|cycles| - 1], clear, |b.heads|).0
  }

  /** The best tiers of one head over a run. */
  function BestsOf(b: Bundle, h: Head, cycles: seq<Probs>): (r: seq<Level>)
    requires h.horizons != [] && forall i :: 0 <= i < |cycles| ==> Known(b, h, cycles[i])
    ensures |r| == |cycles| && forall i :: 0 <= i < |r| ==> r[i] == Best(b, h, cycles[i])
  {
    seq(|cycles|, i requires 0 <= i < |cycles| => Best(b, h, cycles[i]))
  }

  /** One cycle steps every trained head by its own best tier and leaves the others. */
  lemma {:induction false} DecidedHead(b: Bundle, st: State, probs: Probs, clear: int, n: nat, k: nat)
    requires WellFormed(b) && AllKnown(b, probs) && Covers(b, st) && n <= |b.heads| && k < |b.heads|
    ensures var h := b.heads[k]; var after := Decided(b, st, probs, clear, n).0[h.code];
      after == if k < n && h.trained then Step(st[h.code], Best(b, h, probs), clear) else st[h.code]
  {
    hide Best, Known, Step, AlertOf;
    if n > 0 { DecidedHead(b, st, probs, clear, n - 1, k); }
  }

  lemma HeadKnown(b: Bundle, cycles: seq<Probs>, k: nat)
    requires WellFormed(b) && AllCyclesKnown(b, cycles) && k < |b.heads| && b.heads[k].trained
    ensures b.heads[k].horizons != [] && forall i :: 0 <= i < |cycles| ==> Known(b, b.heads[k], cycles[i])
  {
    hide Known;
  }

  lemma KnownPrefix(b: Bundle, cycles: seq<Probs>, n: nat)
    requires AllCyclesKnown(b, cycles) && n <= |cycles|
    ensures AllCyclesKnown(b, cycles[..n])
  {
    hide AllKnown;
  }

  /** Over any run a head's state is that of its own tiers, or clear if it is not trained. */
  lemma {:induction false} HeadsApart(b: Bundle, cycles: seq<Probs>, clear: int, k: nat)
    requires WellFormed(b) && AllCyclesKnown(b, cycles) && k < |b.heads|
    ensures b.heads[k].trained ==> b.heads[k].horizons != []
    ensures b.heads[k].trained ==> forall i :: 0 <= i < |cycles| ==> Known(b, b.heads[k], cycles[i])
    ensures var h := b.heads[k];
      RunFrom(b, Fresh(b), cycles, clear)[h.code]
      == if h.trained then After(BestsOf(b, h, cycles), clear) else HeadState(0, 0)
    decreases |cycles|
  {
    hide Known, Best, Step, Decided, AllCyclesKnown, WellFormed;
    var h := b.heads[k];
    if h.trained { HeadKnown(b, cycles, k); }
    if cycles != [] {
      var n := |cycles| - 1;
      KnownPrefix(b, cycles, n);
      HeadsApart(b, cycles[..n], clear, k);
      LastKnown(b, cycles);
      DecidedHead(b, RunFrom(b, Fresh(b), cycles[..n], clear), cycles[n], clear, |b.heads|, k);
      if h.trained { assert BestsOf(b, h, cycles)[..n] == BestsOf(b, h, cycles[..n]); }
    }
  }

  lemma LastKnown(b: Bundle, cycles: seq<Probs>)
    requires AllCyclesKnown(b, cycles) && cycles != []
    ensures AllKnown(b, cycles[|cycles| - 1])
  {
  }

  /** Some trained head crosses its warning threshold in this cycle. */
  ghost predicate Crossed(b: Bundle, probs: Probs)
    requires WellFormed(b) && AllKnown(b, probs)
  {
    exists k :: 0 <= k < |b.heads| && b.heads[k].trained && Best(b, b.heads[k], probs) == WARNING
  }

  ghost function Crossings(b: Bundle, cycles: seq<Probs>): (w: seq<bool>)
    requires WellFormed(b) && AllCyclesKnown(b, cycles)
    ensures |w| == |cycles| && forall i :: 0 <= i < |w| ==> w[i] == Crossed(b, cycles[i])
  {
    seq(|cycles|, i requires 0 <= i < |cycles| => Crossed(b, cycles[i]))
  }

  /** A warning stands exactly when some head crossed its threshold within the last clear_cycles cycles. */
  lemma AnyWarningExactly(b: Bundle, cycles: seq<Probs>, clear: int)
    requires WellFormed(b) && AllCyclesKnown(b, cycles)
    ensures Warned(RunFrom(b, Fresh(b), cycles, clear)) <==> Recently(Crossings(b, cycles), Patience(clear))
  {
    hide RunFrom, Known, Recently, Crossings, Fresh, Warned;
    var st := RunFrom(b, Fresh(b), cycles, clear);
    if Warned(st) { WarnedMeansCrossed(b, cycles, clear); }
    if Recently(Crossings(b, cycles), Patience(clear)) { CrossedMeansWarned(b, cycles, clear); }
  }

  lemma WarnedMeansCrossed(b: Bundle, cycles: seq<Probs>, clear: int)
    requires WellFormed(b) && AllCyclesKnown(b, cycles) && Warned(RunFrom(b, Fresh(b), cycles, clear))
    ensures Recently(Crossings(b, cycles), Patience(clear))
  {
    hide RunFrom, After, Best, Known;
    var st := RunFrom(b, Fresh(b), cycles, clear);
    var c :| c in st && st[c].level == WARNING;
    assert c in Fresh(b);
    var k :| 0 <= k < |b.heads| && b.heads[k].code == c;
    HeadsApart(b, cycles, clear, k);
    WarningExactly(BestsOf(b, b.heads[k], cycles), clear);
    var i :| 0 <= i < |cycles| && |cycles| - Patience(clear) <= i && Warnings(BestsOf(b, b.heads[k], cycles))[i];
    assert Crossings(b, cycles)[i];
  }

  lemma CrossedMeansWarned(b: Bundle, cycles: seq<Probs>, clear: int)
    requires WellFormed(b) && AllCyclesKnown(b, cycles) && Recently(Crossings(b, cycles), Patience(clear))
    ensures Warned(RunFrom(b, Fresh(b), cycles, clear))
  {
    hide RunFrom, After, Best, Known, Fresh;
    var i :| 0 <= i < |cycles| && |cycles| - Patience(clear) <= i && Crossings(b, cycles)[i];
    var k :| 0 <= k < |b.heads| && b.heads[k].trained && Best(b, b.heads[k], cycles[i]) == WARNING;
    HeadsApart(b, cycles, clear, k);
    WarningExactly(BestsOf(b, b.heads[k], cycles), clear);
    assert Warnings(BestsOf(b, b.heads[k], cycles))[i];
    assert b.heads[k].code in RunFrom(b, Fresh(b), cycles, clear);
  }

  /** What was exported, imported by a new engine of the same bundle, is the state it was. */
  lemma ExportedImported(b: Bundle, st: State)
    requires st.Keys == Fresh(b).Keys
    ensures Imported(Fresh(b), Exported(st)) == st
  {
  }

  // ------------------------------------------------------------- what an alert says

  /** The probability of output `i` reaches a threshold of it. */
  predicate Reaches(b: Bundle, h: Head, probs: Probs, i: nat, warning: bool)
    requires i < |h.horizons| && Known(b, h, probs)
  {
    var name := Name(h.code, h.horizons[i]);
    probs[name] >= if warning then b.thresholds[name].warning else b.thresholds[name].advisory
  }

  /** The best tier in numbers: warning if some output reaches its warning threshold, advisory if some reaches any. */
  lemma BestExactly(b: Bundle, h: Head, probs: Probs)
    requires h.horizons != [] && Known(b, h, probs)
    ensures Best(b, h, probs) == 2 <==> exists i :: 0 <= i < |h.horizons| && Reaches(b, h, probs, i, true)
    ensures Best(b, h, probs) == 0 <==> forall i :: 0 <= i < |h.horizons| ==>
                                          !Reaches(b, h, probs, i, true) && !Reaches(b, h, probs, i, false)
  {
    hide Known, Driver;
    BestIsHighest(b, h, probs);
    assert TierAt(b, h, probs, Driver(b, h, probs, |h.horizons|)) == Best(b, h, probs);
    forall i | 0 <= i < |h.horizons|
      ensures TierAt(b, h, probs, i) == 2 <==> Reaches(b, h, probs, i, true)
      ensures TierAt(b, h, probs, i) == 0 <==> !Reaches(b, h, probs, i, true) && !Reaches(b, h, probs, i, false)
    {
    }
  }

  /**
   An alert tells the truth about output `i` of its head: its probability and the provenance of its
   threshold; at warning the probability reaches the warning threshold given, at advisory it reaches
   the advisory one given and not warning, and when the head is clear it reaches neither.
   */
  ghost predicate Truthful(b: Bundle, h: Head, probs: Probs, a: Alert, i: nat)
    requires Known(b, h, probs)
  {
    && i < |h.horizons| && a.head == h.code && a.output == Name(h.code, h.horizons[i])
    && var t := b.thresholds[Name(h.code, h.horizons[i])]; var p := probs[Name(h.code, h.horizons[i])];
    && a.probability == p && a.source == t.source
    && a.threshold == (if a.level == 2 then t.warning else t.advisory)
    && (a.level == 2 ==> p >= t.warning)
    && (a.level == 1 ==> t.advisory <= p < t.warning)
    && (a.level == 0 ==> p < t.advisory && p < t.warning)
    && forall j :: 0 <= j < |h.horizons| ==>
      && (Reaches(b, h, probs, j, true) ==> a.level == 2 && ProbAt(b, h, probs, j) <= p)
      && (Reaches(b, h, probs, j, false) ==> a.level >= 1)
  }

  lemma AlertTruthful(b: Bundle, h: Head, probs: Probs, was: Level)
    requires h.horizons != [] && Known(b, h, probs)
    ensures Truthful(b, h, probs, AlertOf(b, h, probs, was, Best(b, h, probs)), Driver(b, h, probs, |h.horizons|))
  {
    hide Known, Driver;
    var d := Driver(b, h, probs, |h.horizons|);
    forall j | 0 <= j < |h.horizons|
      ensures TierAt(b, h, probs, j) <= TierAt(b, h, probs, d)
      ensures TierAt(b, h, probs, j) == TierAt(b, h, probs, d) ==> ProbAt(b, h, probs, j) <= ProbAt(b, h, probs, d)
      ensures Reaches(b, h, probs, j, true) ==> TierAt(b, h, probs, j) == 2
      ensures Reaches(b, h, probs, j, false) ==> TierAt(b, h, probs, j) >= 1
    {
      assert !Beats(b, h, probs, j, d);
    }
    assert TierAt(b, h, probs, d) == Best(b, h, probs);
  }

  /** The heads, of the first `n`, whose level differs. */
  ghost function Changed(b: Bundle, st: State, st': State, n: nat): (r: seq<nat>)
    requires Covers(b, st) && Covers(b, st') && n <= |b.heads|
    ensures forall j :: 0 <= j < |r| ==> r[j] < n
  {
    if n == 0 then []
    else
      var c := b.heads[n - 1].code;
      Changed(b, st, st', n - 1) + if st[c].level != st'[c].level then [n - 1] else []
  }

  /** The alert is of head `k`, with its levels before and after, and truthful. */
  ghost predicate Says(b: Bundle, st: State, st': State, probs: Probs, k: nat, a: Alert)
    requires WellFormed(b) && AllKnown(b, probs) && Covers(b, st) && Covers(b, st')
  {
    && k < |b.heads| && b.heads[k].trained
    && a.prevLevel == st[b.heads[k].code].level && a.level == st'[b.heads[k].code].level
    && exists i: nat :: Truthful(b, b.heads[k], probs, a, i)
  }

  /** These alerts, one for each of these heads in order. */
  ghost predicate Announces(b: Bundle, st: State, st': State, probs: Probs, heads: seq<nat>, out: seq<Alert>)
    requires WellFormed(b) && AllKnown(b, probs) && Covers(b, st) && Covers(b, st')
  {
    |out| == |heads| && forall j :: 0 <= j < |heads| ==> Says(b, st, st', probs, heads[j], out[j])
  }

  lemma AlertAnnounces(b: Bundle, st: State, probs: Probs, clear: int, n: nat)
    requires WellFormed(b) && AllKnown(b, probs) && Covers(b, st) && 0 < n <= |b.heads|
    ensures var (s, out) := Decided(b, st, probs, clear, n - 1);
      var (t, more) := Decided(b, st, probs, clear, n); var h := b.heads[n - 1];
      && Covers(b, s) && Covers(b, t) && h.code in st
      && (forall c :: c in s && c != h.code ==> c in t && t[c] == s[c])
      && (st[h.code] == s[h.code])
      && (t[h.code].level == st[h.code].level ==> more == out)
      && (t[h.code].level != st[h.code].level ==>
            && |more| == |out| + 1 && more[..|out|] == out && Says(b, st, t, probs, n - 1, more[|out|]))
  {
    hide Known, Driver, Truthful, Best;
    var h := b.heads[n - 1];
    DecidedHead(b, st, probs, clear, n - 1, n - 1);
    if h.trained {
      AlertTruthful(b, h, probs, st[h.code].level);
      var (s, out) := Decided(b, st, probs, clear, n - 1);
      var (t, more) := Decided(b, st, probs, clear, n);
      if t[h.code].level != st[h.code].level {
        assert more == out + [AlertOf(b, h, probs, st[h.code].level, Best(b, h, probs))];
        assert Truthful(b, h, probs, more[|out|], Driver(b, h, probs, |h.horizons|));
      }
    }
  }

  /**
   The alerts of a cycle: in the order of the bundle one for each head whose level changed, and for no
   other, each with the levels before and after, and truthful.
   */
  lemma {:induction false} AlertsExactly(b: Bundle, st: State, probs: Probs, clear: int, n: nat)
    requires WellFormed(b) && AllKnown(b, probs) && Covers(b, st) && n <= |b.heads|
    ensures var (t, out) := Decided(b, st, probs, clear, n);
      Covers(b, t) && Announces(b, st, t, probs, Changed(b, st, t, n), out)
  {
    hide Known, Says, WellFormed, AllKnown, Decided, Announces, Agree, Covers;
    if n == 0 {
      NothingDecided(b, st, probs, clear);
    } else {
      AlertsExactly(b, st, probs, clear, n - 1);
      AlertAnnounces(b, st, probs, clear, n);
      var (s, out) := Decided(b, st, probs, clear, n - 1);
      var (t, more) := Decided(b, st, probs, clear, n);
      AgreeBefore(b, s, t, n);
      SameChanged(b, st, s, t, n - 1);
      SameAnnounced(b, st, s, t, probs, Changed(b, st, s, n - 1), out, n - 1);
      if t[b.heads[n - 1].code].level != st[b.heads[n - 1].code].level {
        OneMoreAnnounced(b, st, t, probs, Changed(b, st, t, n - 1), out, n - 1, more);
      } else {
        assert Changed(b, st, t, n) == Changed(b, st, t, n - 1);
      }
    }
  }

  /** Two states of which the first `n` heads are the same. */
  ghost predicate Agree(b: Bundle, s: State, t: State, n: nat)
    requires Covers(b, s) && Covers(b, t) && n <= |b.heads|
  {
    forall j :: 0 <= j < n ==> s[b.heads[j].code] == t[b.heads[j].code]
  }

  lemma AgreeBefore(b: Bundle, s: State, t: State, n: nat)
    requires WellFormed(b) && Covers(b, s) && Covers(b, t) && 0 < n <= |b.heads|
    requires forall c :: c in s && c != b.heads[n - 1].code ==> c in t && t[c] == s[c]
    ensures Agree(b, s, t, n - 1)
  {
  }

  lemma {:induction false} SameChanged(b: Bundle, st: State, s: State, t: State, n: nat)
    requires Covers(b, st) && Covers(b, s) && Covers(b, t) && n <= |b.heads| && Agree(b, s, t, n)
    ensures Changed(b, st, s, n) == Changed(b, st, t, n)
  {
    if n > 0 { SameChanged(b, st, s, t, n - 1); }
  }

  lemma SameAnnounced(b: Bundle, st: State, s: State, t: State, probs: Probs, heads: seq<nat>, out: seq<Alert>, n: nat)
    requires WellFormed(b) && AllKnown(b, probs) && Covers(b, st) && Covers(b, s) && Covers(b, t)
    requires n <= |b.heads| && Agree(b, s, t, n) && forall j :: 0 <= j < |heads| ==> heads[j] < n
    requires Announces(b, st, s, probs, heads, out)
    ensures Announces(b, st, t, probs, heads, out)
  {
    hide Truthful, Known;
    forall j | 0 <= j < |heads| ensures Says(b, st, t, probs, heads[j], out[j]) {}
  }

  lemma OneMoreAnnounced(b: Bundle, st: State, t: State, probs: Probs, heads: seq<nat>, out: seq<Alert>, k: nat,
                         more: seq<Alert>)
    requires WellFormed(b) && AllKnown(b, probs) && Covers(b, st) && Covers(b, t)
    requires Announces(b, st, t, probs, heads, out) && |more| == |out| + 1 && more[..|out|] == out
    requires Says(b, st, t, probs, k, more[|out|])
    ensures Announces(b, st, t, probs, heads + [k], more)
  {
    hide Says, WellFormed, AllKnown, Covers;
    assert forall j :: 0 <= j < |out| ==> more[j] == more[..|out|][j];
  }

  lemma NothingDecided(b: Bundle, st: State, probs: Probs, clear: int)
    requires WellFormed(b) && AllKnown(b, probs) && Covers(b, st)
    ensures Decided(b, st, probs, clear, 0) == (st, []) && Announces(b, st, st, probs, [], [])
  {
  }
}
