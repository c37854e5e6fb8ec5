/**
 The head node's TDMA timing (tdma.c), its agreement with the pods' schedules (LoraSlot), and
 the freedom from collisions the superframe is for.
 */
module Tdma {
  import opened Bytes
  import opened Arith
  import opened LoraSlot

  datatype Cfg = Cfg(superframeMs: u32, beaconMs: u16, podSlotMs: u16, nPodSlots: u8, meshSlotMs: u16, nMeshSlots: u8,
                     guardMs: u16)

  datatype Layout = Layout(podRegionMs: u32, meshRegionMs: u32, usedMs: u32)

  function PodEnd(c: Cfg): nat { c.beaconMs as int + c.nPodSlots as int * c.podSlotMs as int }

  function MeshEnd(c: Cfg): nat { PodEnd(c) + c.nMeshSlots as int * c.meshSlotMs as int }

  lemma Regions(c: Cfg)
    ensures c.beaconMs <= PodEnd(c) <= MeshEnd(c)
    ensures c.nMeshSlots > 0 && c.meshSlotMs > 0 ==> PodEnd(c) < MeshEnd(c)
  {
    MulMono(c.nPodSlots, 0, c.podSlotMs);
    MulMono(c.nMeshSlots, 0, c.meshSlotMs);
    MulMono(c.nMeshSlots, 1, c.meshSlotMs);
  }

  /** tdma_layout: the regions, if they fit the superframe. */
  function LayoutOf(c: Cfg): (l: Option<Layout>)
    ensures l.Some? <==> c.superframeMs > 0 && c.nMeshSlots > 0 && c.meshSlotMs > 0 && MeshEnd(c) <= c.superframeMs
    ensures l.Some? ==> c.beaconMs == l.value.podRegionMs <= l.value.meshRegionMs < l.value.usedMs <= c.superframeMs
  {
    hide PodEnd, MeshEnd;
    Regions(c);
    if c.superframeMs == 0 || c.nMeshSlots == 0 || c.meshSlotMs == 0 || MeshEnd(c) > c.superframeMs then None
    else
      Some(Layout(c.beaconMs, PodEnd(c), MeshEnd(c)))
  }

  /** next_at_offset, in 64-bit arithmetic. */
  function NextAtOffset(c: Cfg, now: u64, offset: u32): u64
    requires c.superframeMs > 0
  {
    var target := ToU64(now + c.guardMs);
    var t := ToU64(ToU64(target / c.superframeMs * c.superframeMs) + offset);
    if t < target then ToU64(t + c.superframeMs) else t
  }

  function NextBeacon(c: Cfg, now: u64): u64
    requires c.superframeMs > 0
  {
    NextAtOffset(c, now, 0)
  }

  function NextPodSlotStart(c: Cfg, now: u64, slot: u8): u64
    requires c.superframeMs > 0
  {
    NextAtOffset(c, now, ToU32(c.beaconMs as int + slot as int * c.podSlotMs as int))
  }

  /** Meaningful only for a layout that fits: the code does not look at what tdma_layout answers. */
  function NextMeshTx(c: Cfg, now: u64, slot: u8): u64
    requires LayoutOf(c).Some?
  {
    NextAtOffset(c, now, ToU32(LayoutOf(c).value.meshRegionMs + slot as int * c.meshSlotMs as int))
  }

  /** tdma_pod_slot_at; -1 outside the pod region. */
  function PodSlotAt(c: Cfg, utc: u64): int
    requires c.superframeMs > 0
  {
    var off := utc % c.superframeMs;
    if off < c.beaconMs || off >= PodEnd(c) then -1
    else
      NonEmpty(c.nPodSlots, c.podSlotMs);
      (off - c.beaconMs) / c.podSlotMs
  }

  /** tdma_mesh_slot_at; -1 outside the mesh region. */
  function MeshSlotAt(c: Cfg, utc: u64): int
    requires c.superframeMs > 0
  {
    var off := utc % c.superframeMs;
    var l := LayoutOf(c);
    if l.None? || off < l.value.meshRegionMs || off >= l.value.usedMs then -1
    else (off - l.value.meshRegionMs) / c.meshSlotMs
  }

  lemma NonEmpty(n: nat, len: nat)
    ensures n * len > 0 ==> len > 0
  {
  }

  // -------------------------------------------------------- the next instant at an offset

  lemma Same64(x: nat)
    requires x < 0x1_0000_0000_0000_0000
    ensures ToU64(x) == x
  {
  }

  lemma NextAtOffsetIs(c: Cfg, now: u64, offset: u32) returns (q: nat)
    requires c.superframeMs > 0
    requires now + c.guardMs + offset + c.superframeMs < 0x1_0000_0000_0000_0000
    ensures var target := now + c.guardMs; var sf := c.superframeMs;
      && q * sf <= target < q * sf + sf
      && NextAtOffset(c, now, offset) == if q * sf + offset < target then q * sf + offset + sf else q * sf + offset
  {
    hide ToU64;
    var target := now + c.guardMs;
    q := target / c.superframeMs;
    assert target == q * c.superframeMs + target % c.superframeMs;
    MulMono(q, 0, c.superframeMs);
    Same64(target);
    Same64(q * c.superframeMs);
    Same64(q * c.superframeMs + offset);
    if q * c.superframeMs + offset < target { Same64(q * c.superframeMs + offset + c.superframeMs); }
  }

  /**
   Exactly when next_at_offset gives the least instant at the offset in any superframe that is
   not before now + guard: always for an offset inside the superframe.
   */
  lemma NextAtOffsetExactly(c: Cfg, now: u64, offset: u32)
    requires c.superframeMs > 0
    requires now + c.guardMs + offset + c.superframeMs < 0x1_0000_0000_0000_0000
    ensures var target := now + c.guardMs;
      IsLeast(NextAtOffset(c, now, offset), offset, c.superframeMs, target)
      <==> target < c.superframeMs || offset < c.superframeMs + target % c.superframeMs
  {
    hide NextAtOffset, ToU64, IsLeast;
    var target, sf := now + c.guardMs, c.superframeMs;
    var q := NextAtOffsetIs(c, now, offset);
    Divided(target, sf, q, target - q * sf);
    LeastInFrame(offset, sf, target, q);
  }

  lemma LeastInFrame(offset: nat, sf: nat, target: nat, q: nat)
    requires sf > 0 && q * sf <= target < q * sf + sf
    ensures var t := if q * sf + offset < target then q * sf + offset + sf else q * sf + offset;
      IsLeast(t, offset, sf, target) <==> target < sf || offset < sf + (target - q * sf)
  {
    hide IsLeast;
    var k := if q * sf + offset < target then q + 1 else q;
    Distribute(q, 1, sf);
    if target < sf || offset < sf + (target - q * sf) {
      if target < sf && q > 0 { MulMono(q, 1, sf); }
      LeastAt(offset, sf, target, k);
    } else {
      Positive(q, target, sf);
      NotLeast(offset, sf, target, q);
    }
  }

  lemma Positive(q: nat, target: nat, sf: nat)
    requires q * sf <= target < q * sf + sf && target >= sf
    ensures q > 0
  {
  }

  lemma NotLeast(base: int, sf: nat, target: int, q: nat)
    requires q > 0 && sf > 0 && Instant(base, sf, q) - sf >= target
    ensures !IsLeast(Instant(base, sf, q), base, sf, target)
  {
    assert Instant(base, sf, q - 1) == Instant(base, sf, q) - sf by { assert (q - 1) * sf == q * sf - sf; }
  }

  // ------------------------------------------------------------------- slots and instants

  /** An instant is in pod slot i exactly when its offset is in the i-th stretch after the beacon. */
  lemma PodSlotAtExactly(c: Cfg, utc: u64, i: nat)
    requires LayoutOf(c).Some?
    ensures PodSlotAt(c, utc) == i <==>
      i < c.nPodSlots
      && c.beaconMs + i * c.podSlotMs <= utc % c.superframeMs < c.beaconMs + i * c.podSlotMs + c.podSlotMs
  {
    SlotIndex(utc % c.superframeMs - c.beaconMs, c.nPodSlots, c.podSlotMs, i);
  }

  lemma MeshSlotAtExactly(c: Cfg, utc: u64, i: nat)
    requires LayoutOf(c).Some?
    ensures MeshSlotAt(c, utc) == i <==>
      i < c.nMeshSlots
      && PodEnd(c) + i * c.meshSlotMs <= utc % c.superframeMs < PodEnd(c) + i * c.meshSlotMs + c.meshSlotMs
  {
    SlotIndex(utc % c.superframeMs - PodEnd(c), c.nMeshSlots, c.meshSlotMs, i);
  }

  lemma SlotIndex(x: int, n: nat, len: nat, i: nat)
    ensures (0 <= x < n * len && len > 0 && x / len == i) <==> (i < n && i * len <= x < i * len + len)
    ensures 0 <= x < n * len ==> len > 0
    ensures i * len >= 0
  {
    NonEmpty(n, len);
    MulMono(i, 0, len);
    if 0 <= x < n * len {
      assert x == x / len * len + x % len;
      MulStep(x / len, i, len);
      MulStep(i, x / len, len);
      if i >= n { MulMono(i, n, len); }
    }
    if i < n { MulStep(n, i, len); }
    if i * len <= x < i * len + len { Divided(x, len, i, x - i * len); }
  }

  /** No instant is in a pod slot and a mesh slot at once. */
  lemma RegionsDisjoint(c: Cfg, utc: u64)
    requires c.superframeMs > 0
    ensures PodSlotAt(c, utc) < 0 || MeshSlotAt(c, utc) < 0
  {
  }

  /** The next start of a pod's slot is the least one, and the slot lookup gives that slot back. */
  lemma NextPodSlotIsOwn(c: Cfg, now: u64, slot: u8)
    requires LayoutOf(c).Some? && slot < c.nPodSlots && c.podSlotMs > 0
    requires now + c.guardMs + 2 * c.superframeMs < 0x1_0000_0000_0000_0000
    ensures var t := NextPodSlotStart(c, now, slot);
      PodSlotAt(c, t) == slot && IsLeast(t, c.beaconMs + slot * c.podSlotMs, c.superframeMs, now + c.guardMs)
  {
    hide LayoutOf, NextAtOffset, PodSlotAt, IsLeast, ToU32;
    SlotFits(slot, c.nPodSlots, c.podSlotMs);
    SlotFits(0, c.nMeshSlots, c.meshSlotMs);
    var offset := c.beaconMs as int + slot as int * c.podSlotMs as int;
    Small(offset);
    NextAtOffsetExactly(c, now, offset);
    OffsetOfNext(c, now, offset);
    PodSlotAtExactly(c, NextPodSlotStart(c, now, slot), slot);
  }

  /** Likewise for the mesh slots. */
  lemma NextMeshSlotIsOwn(c: Cfg, now: u64, slot: u8)
    requires LayoutOf(c).Some? && slot < c.nMeshSlots
    requires now + c.guardMs + 2 * c.superframeMs < 0x1_0000_0000_0000_0000
    ensures var t := NextMeshTx(c, now, slot);
      MeshSlotAt(c, t) == slot && IsLeast(t, PodEnd(c) + slot * c.meshSlotMs, c.superframeMs, now + c.guardMs)
  {
    hide NextAtOffset, MeshSlotAt, IsLeast, ToU32;
    SlotFits(slot, c.nMeshSlots, c.meshSlotMs);
    var offset := PodEnd(c) + slot as int * c.meshSlotMs as int;
    Small(offset);
    NextAtOffsetExactly(c, now, offset);
    OffsetOfNext(c, now, offset);
    MeshSlotAtExactly(c, NextMeshTx(c, now, slot), slot);
  }

  lemma OffsetOfNext(c: Cfg, now: u64, offset: u32)
    requires offset < c.superframeMs
    requires now + c.guardMs + offset + c.superframeMs < 0x1_0000_0000_0000_0000
    ensures NextAtOffset(c, now, offset) % c.superframeMs == offset
  {
    hide NextAtOffset;
    var sf := c.superframeMs;
    var q := NextAtOffsetIs(c, now, offset);
    var t := NextAtOffset(c, now, offset);
    Divided(t, sf, if t == q * sf + offset then q else q + 1, offset);
  }

  // ------------------------------------------------------------------ head and pod agree

  /** The pod's schedule and the head's configuration were given the same geometry. */
  predicate SameGeometry(c: Cfg, s: Sched) {
    c.superframeMs == s.superframeMs && c.beaconMs == s.beaconMs && c.podSlotMs == s.slotMs && c.nPodSlots == s.nSlots
  }

  /** UTC of the k-th transmission after a superframe start, the pod's epoch being `err` ms late. */
  function TxUtc(s: Sched, start: nat, err: int, k: nat): int
    requires Sound(s)
  {
    start + err + SlotOffset(s) + k * s.superframeMs
  }

  /** A pod whose clock is `skew` ahead of UTC, having heard the beacon of the superframe at `start`, `err` ms off. */
  function Heard(s: Sched, start: nat, airtime: u16, err: int, skew: nat): (r: Sched)
    ensures Sound(r) == Sound(s)
  {
    Synced(s, ToU32(start + airtime + err + skew), airtime)
  }

  /** It asks within 2^31 ms of its first slot. */
  predicate Near(s: Sched, start: nat, err: int, now: nat)
    requires Sound(s)
  {
    -0x8000_0000 <= now + s.guardMs - (start + err + SlotOffset(s)) < 0x8000_0000
  }

  /**
   A pod whose clock reads UTC plus a constant hears the beacon of the superframe starting at
   `start`, is off by `err` ms, and asks for its next transmission: what it gets is, on its own
   clock, the least of the instants TxUtc that is not before now + guard.
   */
  lemma SyncedPodTransmits(s: Sched, start: nat, airtime: u16, skew: nat, err: int, now: nat) returns (k: nat)
    requires Sound(s) && Near(s, start, err, now)
    ensures NextAfter(Heard(s, start, airtime, err, skew), ToU32(now + skew), SlotOffset(s))
         == ToU32(TxUtc(s, start, err, k) + skew)
    ensures TxUtc(s, start, err, k) >= now + s.guardMs
    ensures k == 0 || TxUtc(s, start, err, k) - s.superframeMs < now + s.guardMs
  {
    hide ToU32, NextAfter, Sound, SlotOffset;
    var heard := Heard(s, start, airtime, err, skew);
    WrapSum(start + airtime + err + skew, -(airtime as int));
    SoundBounds(s);
    NextAfterIs(heard, start + err + skew, now + skew, SlotOffset(s));
    var d := Lead(heard, start + err + skew, now + skew, SlotOffset(s));
    k := Rounds(d, s.superframeMs);
    RoundsCover(d, s.superframeMs);
  }

  /** The head finds that transmission in the pod's own slot exactly when the epoch is late by less than a slot. */
  lemma HeardInOwnSlot(c: Cfg, s: Sched, start: nat, err: int, k: nat)
    requires LayoutOf(c).Some? && Sound(s) && SameGeometry(c, s) && start % c.superframeMs == 0
    requires -(c.superframeMs as int) + c.podSlotMs as int <= err < c.superframeMs
    requires 0 <= TxUtc(s, start, err, k) < 0x1_0000_0000_0000_0000
    ensures PodSlotAt(c, TxUtc(s, start, err, k)) == s.slot <==> 0 <= err < c.podSlotMs
  {
    hide LayoutOf, PodSlotAt, Sound, SlotOffset;
    var sf, o := c.superframeMs as int, SlotOffset(s) as int;
    var t := TxUtc(s, start, err, k);
    assert c.beaconMs + s.slot * c.podSlotMs == o && o + c.podSlotMs <= sf && s.slot < c.nPodSlots by { OwnSlot(s); }
    PodSlotAtExactly(c, t, s.slot);
    Distribute(start / sf, k, sf);
    assert start == start / sf * sf;
    Shifted(t, sf, start / sf + k, err + o);
  }

  lemma OwnSlot(s: Sched)
    requires Sound(s)
    ensures SlotOffset(s) == s.beaconMs + s.slot * s.slotMs && SlotOffset(s) + s.slotMs <= s.superframeMs
    ensures s.slot < s.nSlots
  {
  }

  lemma Shifted(t: int, sf: nat, q: int, x: int)
    requires sf > 0 && t == q * sf + x && -(sf as int) <= x < 2 * sf
    ensures t % sf == if x < 0 then x + sf else if x < sf then x else x - sf
  {
    Distribute(q, -1, sf);
    Distribute(q, 1, sf);
    if x < 0 { Divided(t, sf, q - 1, x + sf); }
    else if x < sf { Divided(t, sf, q, x); }
    else { Divided(t, sf, q + 1, x - sf); }
  }

  // ----------------------------------------------------------------------- no collisions

  predicate Overlap(a: int, b: int, airtime: nat) { a < b + airtime && b < a + airtime }

  function SlotStart(s: Sched, i: nat, frame: int): int {
    frame * s.superframeMs + s.beaconMs + i * s.slotMs
  }

  /** Two different slots, in any superframes, start at least one slot length apart. */
  lemma StartsApart(s: Sched, i: nat, f: int, j: nat, g: int)
    requires Sound(s) && i < s.nSlots && j < s.nSlots && i != j
    ensures SlotStart(s, i, f) >= SlotStart(s, j, g) + s.slotMs || SlotStart(s, j, g) >= SlotStart(s, i, f) + s.slotMs
  {
    var sf, len := s.superframeMs, s.slotMs;
    SlotFits(i, s.nSlots, len);
    SlotFits(j, s.nSlots, len);
    MulStep(i, j, len);
    MulStep(j, i, len);
    MulStep(f, g, sf);
    MulStep(g, f, sf);
  }

  predicate Within(e: int, err: nat) { -(err as int) <= e <= err }

  /** A pod of the same superframe as `g`, in whichever slot. */
  predicate PodOf(g: Sched, s: Sched) {
    && Sound(s) && s.superframeMs == g.superframeMs && s.slotMs == g.slotMs
    && s.beaconMs == g.beaconMs && s.nSlots == g.nSlots
  }

  /** Each transmission of a schedule is its slot's start in some superframe, off by the pod's error. */
  lemma TxIsSlotStart(g: Sched, s: Sched, start: nat, err: int, k: nat)
    requires PodOf(g, s) && start % g.superframeMs == 0
    ensures TxUtc(s, start, err, k) == SlotStart(g, s.slot, start / g.superframeMs + k) + err
  {
    hide Sound, SlotOffset;
    OwnSlot(s);
    SoundBounds(s);
    assert start == start / g.superframeMs * g.superframeMs;
    Distribute(start / g.superframeMs, k, g.superframeMs);
  }

  /**
   Two pods of a superframe in different slots never transmit at once, whichever beacons they heard
   last, whichever of their scheduled instants it is, with these errors.
   */
  ghost predicate CollisionFree(g: Sched, airtime: nat, err: nat)
    requires Sound(g)
  {
    forall s: Sched, t: Sched, from: nat, e: int, k: nat, from': nat, h: int, l: nat ::
      PodOf(g, s) && PodOf(g, t) && s.slot != t.slot && Within(e, err) && Within(h, err)
      && from % g.superframeMs == 0 && from' % g.superframeMs == 0 ==>
      !Overlap(TxUtc(s, from, e, k), TxUtc(t, from', h, l), airtime)
  }

  lemma ScheduledApart(g: Sched, s: Sched, t: Sched, from: nat, e: int, k: nat, from': nat, h: int, l: nat,
                       airtime: nat, err: nat)
    requires Sound(g) && PodOf(g, s) && PodOf(g, t) && s.slot != t.slot && Within(e, err) && Within(h, err)
    requires from % g.superframeMs == 0 && from' % g.superframeMs == 0 && airtime + 2 * err <= g.slotMs
    ensures !Overlap(TxUtc(s, from, e, k), TxUtc(t, from', h, l), airtime)
  {
    hide TxUtc, SlotStart;
    TxIsSlotStart(g, s, from, e, k);
    TxIsSlotStart(g, t, from', h, l);
    StartsApart(g, s.slot, from / g.superframeMs + k, t.slot, from' / g.superframeMs + l);
  }

  /** Exactly when they cannot: airtime and twice the synchronisation error fit the slot. */
  lemma CollisionFreeExactly(g: Sched, airtime: nat, err: nat)
    requires Sound(g) && g.nSlots >= 2 && airtime > 0
    ensures CollisionFree(g, airtime, err) <==> airtime + 2 * err <= g.slotMs
  {
    hide Overlap;
    if airtime + 2 * err <= g.slotMs {
      forall s: Sched, t: Sched, from: nat, e: int, k: nat, from': nat, h: int, l: nat |
        PodOf(g, s) && PodOf(g, t) && s.slot != t.slot && Within(e, err) && Within(h, err)
        && from % g.superframeMs == 0 && from' % g.superframeMs == 0
        ensures !Overlap(TxUtc(s, from, e, k), TxUtc(t, from', h, l), airtime)
      {
        ScheduledApart(g, s, t, from, e, k, from', h, l, airtime, err);
      }
    } else {
      NeighboursCollide(g, airtime, err);
    }
  }

  /** Pods in neighbouring slots, one late and one early, meet. */
  lemma NeighboursCollide(g: Sched, airtime: nat, err: nat)
    requires Sound(g) && g.nSlots >= 2 && airtime > 0 && airtime + 2 * err > g.slotMs
    ensures !CollisionFree(g, airtime, err)
  {
    var len: nat := g.slotMs;
    var e := if err <= len then err else len;
    var h := e - if 2 * err <= len then 2 * err else len;
    var s, t := g.(slot := 0), g.(slot := 1);
    assert PodOf(g, s) && PodOf(g, t) && Within(e, err) && Within(h, err);
    assert SlotOffset(t) == SlotOffset(s) + len;
    assert 0 * g.superframeMs == 0;
    assert Overlap(TxUtc(s, 0, e, 0), TxUtc(t, 0, h, 0), airtime);
  }

  /**
   Head, pods and air together: two pods in different slots that each heard some beacon, on clocks
   of their own, are given instants that are never on the air at once.
   */
  lemma SyncedPodsNeverCollide(s: Sched, t: Sched, from: nat, from': nat, heard: u16, heard': u16,
                               skew: nat, skew': nat, e: int, h: int, now: nat, now': nat,
                               airtime: nat, err: nat) returns (u: int, v: int)
    requires Sound(s) && PodOf(s, t) && s.slot != t.slot && Within(e, err) && Within(h, err)
    requires from % s.superframeMs == 0 && from' % s.superframeMs == 0 && airtime + 2 * err <= s.slotMs
    requires Near(s, from, e, now) && Near(t, from', h, now')
    ensures NextAfter(Heard(s, from, heard, e, skew), ToU32(now + skew), SlotOffset(s)) == ToU32(u + skew)
    ensures NextAfter(Heard(t, from', heard', h, skew'), ToU32(now' + skew'), SlotOffset(t)) == ToU32(v + skew')
    ensures u >= now + s.guardMs && v >= now' + t.guardMs && !Overlap(u, v, airtime)
  {
    hide NextAfter, ToU32, Near, Overlap, TxUtc;
    var k := SyncedPodTransmits(s, from, heard, skew, e, now);
    var l := SyncedPodTransmits(t, from', heard', skew', h, now');
    u, v := TxUtc(s, from, e, k), TxUtc(t, from', h, l);
    ScheduledApart(s, s, t, from, e, k, from', h, l, airtime, err);
  }
}
