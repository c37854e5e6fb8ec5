/**
 The pod's slot schedule in mode R (lora_slot.c), on a 32-bit millisecond clock that wraps.
 The statements are about true time: a clock reads the true time modulo 2^32.
 */
module LoraSlot {
  import opened Bytes
  import opened Errno
  import opened Arith

  datatype Sched = Sched(
    superframeMs: u32, slotMs: u16, beaconMs: u16, guardMs: u16, holdoverMs: u32, nSlots: u8, slot: u8,
    epochMs: u32, lastSyncMs: u32, haveEpoch: bool, synced: bool)

  predicate Geometry(superframeMs: u32, slotMs: u16, beaconMs: u16, nSlots: u8, slot: u8) {
    && slot < nSlots && slotMs > 0 && superframeMs > 0
    && beaconMs as int + nSlots as int * slotMs as int <= superframeMs <= 0x3FFF_FFFF
  }

  predicate Sound(s: Sched) {
    Geometry(s.superframeMs, s.slotMs, s.beaconMs, s.nSlots, s.slot)
  }

  function Synced(s: Sched, rx: u32, airtime: u16): Sched {
    s.(epochMs := ToU32(rx - airtime), lastSyncMs := rx, haveEpoch := true, synced := true)
  }

  function FreeRunning(s: Sched, now: u32): Sched {
    if s.haveEpoch then s else s.(epochMs := now, lastSyncMs := now, haveEpoch := true, synced := false)
  }

  function Updated(s: Sched, now: u32): Sched {
    if s.synced && ToU32(now - s.lastSyncMs) > s.holdoverMs then s.(synced := false) else s
  }

  /** next_after, in the machine's arithmetic. */
  function NextAfter(s: Sched, now: u32, offset: u32): u32
    requires s.superframeMs > 0
  {
    var base := ToU32(s.epochMs + offset);
    var target := ToU32(now + s.guardMs);
    var d := ToI32(ToU32(target - base));
    if d <= 0 then base
    else ToU32(base + ToU32(ToU32(d as int + s.superframeMs - 1) / s.superframeMs * s.superframeMs))
  }

  function SlotOffset(s: Sched): (o: nat)
    requires Sound(s)
    ensures s.beaconMs <= o && o + s.slotMs <= s.superframeMs
  {
    SlotFits(s.slot, s.nSlots, s.slotMs);
    s.beaconMs as int + s.slot as int * s.slotMs as int
  }

  lemma SlotFits(i: nat, n: nat, len: nat)
    requires i < n
    ensures 0 <= i * len && i * len + len <= n * len
  {
    MulMono(n, i + 1, len);
  }

  class SlotSched {
    var superframeMs: u32
    var slotMs: u16
    var beaconMs: u16
    var guardMs: u16
    var holdoverMs: u32
    var nSlots: u8
    var slot: u8
    var epochMs: u32
    var lastSyncMs: u32
    var haveEpoch: bool
    var synced: bool

    function Abs(): Sched
      reads this
    {
      Sched(superframeMs, slotMs, beaconMs, guardMs, holdoverMs, nSlots, slot, epochMs, lastSyncMs, haveEpoch, synced)
    }

    /** slot_sched_init: refuses exactly the impossible geometries, and then touches nothing. */
    method Init(superframe: u32, slotLen: u16, beacon: u16, slots: u8, own: u8, guard: u16, holdover: u32)
      returns (rc: int)
      modifies this
      ensures rc == 0 <==> Geometry(superframe, slotLen, beacon, slots, own)
      ensures rc == 0 ==> Abs() == Sched(superframe, slotLen, beacon, guard, holdover, slots, own, 0, 0, false, false)
      ensures rc != 0 ==> rc == -EINVAL && Abs() == old(Abs())
    {
      if slots == 0 || own >= slots || slotLen == 0 || superframe == 0
         || ToU32(beacon as int + ToU32(slots as int * slotLen as int)) > superframe || superframe > 0x3FFF_FFFF {
        NoWrap(slots, slotLen, beacon);
        return -EINVAL;
      }
      NoWrap(slots, slotLen, beacon);
      superframeMs, slotMs, beaconMs, nSlots, slot := superframe, slotLen, beacon, slots, own;
      guardMs, holdoverMs := guard, holdover;
      epochMs, lastSyncMs, haveEpoch, synced := 0, 0, false, false;
      return 0;
    }

    /** slot_sched_sync. */
    method Sync(rx: u32, airtime: u16)
      modifies this
      ensures Abs() == Synced(old(Abs()), rx, airtime)
    {
      epochMs := ToU32(rx - airtime);
      lastSyncMs := rx;
      haveEpoch := true;
      synced := true;
    }

    /** slot_sched_start_free_running. */
    method StartFreeRunning(now: u32)
      modifies this
      ensures Abs() == FreeRunning(old(Abs()), now)
    {
      if !haveEpoch {
        epochMs := now;
        lastSyncMs := now;
        haveEpoch := true;
        synced := false;
      }
    }

    /** slot_sched_update. */
    method Update(now: u32) returns (ok: bool)
      modifies this
      ensures Abs() == Updated(old(Abs()), now) && ok == synced
    {
      if synced && ToU32(now - lastSyncMs) > holdoverMs { synced := false; }
      return synced;
    }

    /** slot_sched_next_tx: the own slot's next start. */
    method NextTx(now: u32) returns (rc: int, tx: u32)
      requires Sound(Abs())
      ensures rc == if haveEpoch then 0 else -EAGAIN
      ensures rc == 0 ==> IsNext(Abs(), now, SlotOffset(Abs()), tx)
    {
      if !haveEpoch { return -EAGAIN, 0; }
      var offset := SlotOffset(Abs());
      SoundBounds(Abs());
      NextAfterIsNext(Abs(), now, offset);
      return 0, NextAfter(Abs(), now, offset);
    }

    /** slot_sched_next_beacon: the next superframe start. */
    method NextBeacon(now: u32) returns (rc: int, rx: u32)
      requires Sound(Abs())
      ensures rc == if haveEpoch then 0 else -EAGAIN
      ensures rc == 0 ==> IsNext(Abs(), now, 0, rx)
    {
      if !haveEpoch { return -EAGAIN, 0; }
      SoundBounds(Abs());
      NextAfterIsNext(Abs(), now, 0);
      return 0, NextAfter(Abs(), now, 0);
    }
  }

  lemma NoWrap(n: u8, len: u16, beacon: u16)
    ensures ToU32(beacon as int + ToU32(n as int * len as int)) == beacon as int + n as int * len as int
  {
    hide ToU32;
    MulMono(255, n, len);
    MulMono(n, 0, len);
    Small(n as int * len as int);
    Small(beacon as int + n as int * len as int);
  }

  // ------------------------------------------------------- the least instant not before

  function Instant(base: int, period: nat, k: nat): int { base + k * period }

  /** The least of base, base + period, base + 2 period, ... that is not before `target`. */
  ghost predicate IsLeast(t: int, base: int, period: nat, target: int) {
    && t >= target
    && (exists k: nat :: t == Instant(base, period, k))
    && (forall k: nat :: Instant(base, period, k) >= target ==> t <= Instant(base, period, k))
  }

  lemma LeastAt(base: int, period: nat, target: int, k: nat)
    requires Instant(base, period, k) >= target
    requires k == 0 || Instant(base, period, k) - period < target
    ensures IsLeast(Instant(base, period, k), base, period, target)
  {
    forall j: nat | Instant(base, period, j) >= target
      ensures Instant(base, period, k) <= Instant(base, period, j)
    {
      if j < k { MulStep(k, j, period); } else { MulMono(j, k, period); }
    }
  }

  function Rounds(d: int, period: nat): nat
    requires period > 0
  {
    if d <= 0 then 0 else (d + period - 1) / period
  }

  lemma RoundsCover(d: int, period: nat)
    requires period > 0
    ensures var k := Rounds(d, period);
      k * period >= d && (k == 0 || (k * period - period < d && k * period < d + period))
  {
    if d > 0 {
      var n := d + period - 1;
      assert n == n / period * period + n % period;
    }
  }

  function LeastInstant(base: int, period: nat, target: int): (t: int)
    requires period > 0
    ensures IsLeast(t, base, period, target)
  {
    RoundsCover(target - base, period);
    LeastAt(base, period, target, Rounds(target - base, period));
    Instant(base, period, Rounds(target - base, period))
  }

  /** How far the wanted instant lies behind the first one. */
  function Lead(s: Sched, epoch: int, now: int, offset: nat): int { now + s.guardMs - (epoch + offset) }

  lemma Wraps(epoch: int, now: int, offset: nat, guard: nat)
    ensures ToU32(ToU32(ToU32(now) + guard) - ToU32(ToU32(epoch) + offset)) == ToU32(now + guard - (epoch + offset))
    ensures ToU32(ToU32(epoch) + offset) == ToU32(epoch + offset)
  {
  }

  lemma SignedNear(d: int)
    requires -0x8000_0000 <= d < 0x1_0000_0000
    ensures ToI32(ToU32(d)) == if d < 0x8000_0000 then d else d - 0x1_0000_0000
  {
  }

  /** What next_after computes, in true time. */
  lemma NextAfterIs(s: Sched, epoch: int, now: int, offset: nat)
    requires 0 < s.superframeMs <= 0x3FFF_FFFF && offset < 0x1_0000_0000
    requires s.epochMs == ToU32(epoch)
    requires -0x8000_0000 <= Lead(s, epoch, now, offset) < 0x1_0000_0000
    ensures var d := Lead(s, epoch, now, offset);
      NextAfter(s, ToU32(now), offset) ==
      ToU32(epoch + offset + Rounds(if d < 0x8000_0000 then d else 0, s.superframeMs) * s.superframeMs)
  {
    hide ToU32, ToI32;
    var d := Lead(s, epoch, now, offset);
    Wraps(epoch, now, offset, s.guardMs);
    SignedNear(d);
    if 0 < d < 0x8000_0000 {
      var k := (d + s.superframeMs - 1) / s.superframeMs;
      RoundsCover(d, s.superframeMs);
      Small(d + s.superframeMs - 1);
      Small(k * s.superframeMs);
      WrapSum(epoch + offset, k * s.superframeMs);
    }
  }

  lemma Small(x: int)
    requires 0 <= x < 0x1_0000_0000
    ensures ToU32(x) == x
  {
  }

  /**
   Exactly when next_after returns the least slot instant not before now + guard: while that
   lies less than 2^31 ms after the first one. Beyond, the schedule answers its first instant.
   */
  lemma NextAfterExactly(s: Sched, epoch: int, now: int, offset: nat)
    requires 0 < s.superframeMs <= 0x3FFF_FFFF && offset < 0x1_0000_0000
    requires s.epochMs == ToU32(epoch)
    requires -0x8000_0000 <= Lead(s, epoch, now, offset) <= 0x1_0000_0000 - s.superframeMs
    ensures NextAfter(s, ToU32(now), offset) == ToU32(LeastInstant(epoch + offset, s.superframeMs, now + s.guardMs))
       <==> Lead(s, epoch, now, offset) < 0x8000_0000
  {
    hide ToU32, NextAfter;
    var d := Lead(s, epoch, now, offset);
    NextAfterIs(s, epoch, now, offset);
    RoundsCover(d, s.superframeMs);
    if d >= 0x8000_0000 { Apart(epoch + offset, Rounds(d, s.superframeMs) * s.superframeMs); }
  }

  /**
   What an instant answered means in true time, if the clock's readings stand for these true times:
   while the instant wanted lies less than 2^31 ms after the first one, the answer is the least of
   base + k superframes that is not before now + guard; beyond that it is the first one still.
   */
  predicate NextAt(s: Sched, now: u32, offset: u32, t: u32, epoch: int, when: int)
    requires s.superframeMs > 0
  {
    var lead := Lead(s, epoch, when, offset);
    s.epochMs == ToU32(epoch) && now == ToU32(when) && -0x8000_0000 <= lead < 0x1_0000_0000 ==>
    t == ToU32(if lead < 0x8000_0000 then LeastInstant(epoch + offset, s.superframeMs, when + s.guardMs)
               else epoch + offset)
  }

  ghost predicate IsNext(s: Sched, now: u32, offset: u32, t: u32)
    requires s.superframeMs > 0
  {
    forall epoch: int, when: int :: NextAt(s, now, offset, t, epoch, when)
  }

  lemma NextAfterIsNext(s: Sched, now: u32, offset: u32)
    requires 0 < s.superframeMs <= 0x3FFF_FFFF
    ensures IsNext(s, now, offset, NextAfter(s, now, offset))
  {
    hide NextAfter, NextAt;
    forall epoch: int, when: int ensures NextAt(s, now, offset, NextAfter(s, now, offset), epoch, when) {
      NextAfterNextAt(s, now, offset, epoch, when);
    }
  }

  lemma NextAfterNextAt(s: Sched, now: u32, offset: u32, epoch: int, when: int)
    requires 0 < s.superframeMs <= 0x3FFF_FFFF
    ensures NextAt(s, now, offset, NextAfter(s, now, offset), epoch, when)
  {
    hide NextAfter, ToU32, LeastInstant;
    var lead := Lead(s, epoch, when, offset);
    if s.epochMs == ToU32(epoch) && now == ToU32(when) && -0x8000_0000 <= lead < 0x1_0000_0000 {
      NextAfterIs(s, epoch, when, offset);
      LeastInstantIs(epoch + offset, s.superframeMs, when + s.guardMs);
      MulMono(0, 0, s.superframeMs);
    }
  }

  lemma LeastInstantIs(base: int, period: nat, target: int)
    requires period > 0
    ensures LeastInstant(base, period, target) == base + Rounds(target - base, period) * period
  {
  }

  lemma Apart(a: int, b: int)
    requires 0 < b < 0x1_0000_0000
    ensures ToU32(a + b) != ToU32(a)
  {
  }

  /** Is an instant due, as the pod's service loop asks it. */
  predicate Due(now: u32, at: u32) { ToI32(ToU32(now - at)) >= 0 }

  /**
   A pod that hears no beacon goes silent: once 2^31 ms have passed since its first slot, the
   slot it is given is never due, until the clock has come all the way round.
   */
  lemma HoldoverGoesSilent(s: Sched, epoch: int, now: int, later: int)
    requires Sound(s) && s.epochMs == ToU32(epoch)
    requires var first := epoch + SlotOffset(s);
      first + 0x8000_0000 <= now <= later && later + s.guardMs < first + 0x1_0000_0000
    ensures !Due(ToU32(later), NextAfter(s, ToU32(now), SlotOffset(s)))
  {
    hide Sound, NextAfter, SlotOffset, ToU32, ToI32;
    assert 0 < s.superframeMs <= 0x3FFF_FFFF && 0 <= SlotOffset(s) < 0x1_0000_0000 by { SoundBounds(s); }
    NextAfterIs(s, epoch, now, SlotOffset(s));
    assert Rounds(0, s.superframeMs) * s.superframeMs == 0;
    WrapDiff(later, epoch + SlotOffset(s));
    SignedNear(later - epoch - SlotOffset(s));
  }

  lemma SoundBounds(s: Sched)
    requires Sound(s)
    ensures 0 < s.superframeMs <= 0x3FFF_FFFF && SlotOffset(s) < s.superframeMs
  {
    SlotFits(s.slot, s.nSlots, s.slotMs);
  }

  /** The synchronised flag is kept exactly for the holdover time, measured within one turn of the clock. */
  lemma HoldoverExactly(s: Sched, last: int, now: int)
    requires s.synced && s.lastSyncMs == ToU32(last) && last <= now < last + 0x1_0000_0000
    ensures Updated(s, ToU32(now)).synced <==> now - last <= s.holdoverMs
  {
  }

  // -------------------------------------------------------------- the schedule over runs

  /** The calls of the pod with their true times: a beacon received, the start without one, the service loop. */
  datatype Call = BeaconAt(rx: int, airtime: u16) | StartAt(now: int) | UpdateAt(now: int)

  function Do(s: Sched, c: Call): Sched {
    match c
    case BeaconAt(rx, airtime) => Synced(s, ToU32(rx), airtime)
    case StartAt(now) => FreeRunning(s, ToU32(now))
    case UpdateAt(now) => Updated(s, ToU32(now))
  }

  function Run(s: Sched, calls: seq<Call>): Sched
    decreases |calls|
  {
    if calls == [] then s else Do(Run(s, calls[..|calls| - 1]), calls[|calls| - 1])
  }

  /** The true time the superframes are counted from: when the last beacon began, or else the first start. */
  function Epoch(calls: seq<Call>): Option<int>
    decreases |calls|
  {
    if calls == [] then None
    else
      var before := Epoch(calls[..|calls| - 1]);
      match calls[|calls| - 1]
      case BeaconAt(rx, airtime) => Some(rx - airtime)
      case StartAt(now) => if before.None? then Some(now) else before
      case UpdateAt(_) => before
  }

  function LastBeacon(calls: seq<Call>): Option<int>
    decreases |calls|
  {
    if calls == [] then None
    else if calls[|calls| - 1].BeaconAt? then Some(calls[|calls| - 1].rx)
    else LastBeacon(calls[..|calls| - 1])
  }

  /** A beacon was heard, and no update since found the holdover time passed, less whole turns of the clock. */
  predicate InHoldover(calls: seq<Call>, holdoverMs: u32)
    decreases |calls|
  {
    calls != [] && (
      var before := calls[..|calls| - 1];
      match calls[|calls| - 1]
      case BeaconAt(_, _) => true
      case StartAt(_) => InHoldover(before, holdoverMs)
      case UpdateAt(now) =>
        && InHoldover(before, holdoverMs) && LastBeacon(before).Some?
        && (now - LastBeacon(before).value) % 0x1_0000_0000 <= holdoverMs)
  }

  /** A schedule no call has touched yet. */
  predicate Untouched(s: Sched) { !s.haveEpoch && !s.synced }

  /**
   Over every run: the schedule has an epoch once a beacon was heard or the pod started without one,
   and it is the last beacon's, or until there is one the first start's; later starts change nothing.
   It counts as synchronised exactly within the holdover time of the last beacon.
   */
  lemma {:induction false} ScheduleExactly(s: Sched, calls: seq<Call>)
    requires Untouched(s)
    ensures var r := Run(s, calls);
      && (r.haveEpoch <==> Epoch(calls).Some?)
      && (r.haveEpoch ==> r.epochMs == ToU32(Epoch(calls).value))
      && (LastBeacon(calls).Some? ==> r.haveEpoch && r.lastSyncMs == ToU32(LastBeacon(calls).value))
      && (r.synced <==> InHoldover(calls, s.holdoverMs))
      && (r.synced ==> LastBeacon(calls).Some?)
      && (r.superframeMs, r.slotMs, r.beaconMs, r.guardMs, r.holdoverMs, r.nSlots, r.slot)
         == (s.superframeMs, s.slotMs, s.beaconMs, s.guardMs, s.holdoverMs, s.nSlots, s.slot)
    decreases |calls|
  {
    hide ToU32;
    if calls != [] {
      var n := |calls| - 1;
      ScheduleExactly(s, calls[..n]);
      match calls[n] {
        case BeaconAt(rx, airtime) => WrapSum(rx, -(airtime as int));
        case StartAt(now) =>
        case UpdateAt(now) => if LastBeacon(calls[..n]).Some? { SinceIs(now, LastBeacon(calls[..n]).value); }
      }
    }
  }

  lemma SinceIs(now: int, last: int)
    ensures ToU32(ToU32(now) - ToU32(last)) == (now - last) % 0x1_0000_0000
  {
    WrapDiff(now, last);
  }

  /** So after any run the slot given is the least one of that epoch that is not before now + guard. */
  lemma SlotAfterRun(s: Sched, calls: seq<Call>, now: int)
    requires Sound(s) && Untouched(s) && Epoch(calls).Some?
    requires var first := Epoch(calls).value + SlotOffset(s);
      -0x8000_0000 <= now + s.guardMs - first < 0x8000_0000
    ensures var r := Run(s, calls); var first := Epoch(calls).value + SlotOffset(s);
      && Sound(r) && SlotOffset(r) == SlotOffset(s)
      && NextAfter(r, ToU32(now), SlotOffset(r)) == ToU32(LeastInstant(first, s.superframeMs, now + s.guardMs))
  {
    hide ToU32, NextAfter, Run, Epoch, LeastInstant, InHoldover, LastBeacon;
    ScheduleExactly(s, calls);
    SoundBounds(s);
    var r := Run(s, calls);
    NextAfterNextAt(r, ToU32(now), SlotOffset(s), Epoch(calls).value, now);
  }
}
