/**
 The wire formats octet by octet (wire.c, rs485.c, calib.c): where each field of a frame, a report, a
 beacon, an uplink and a calibration table stands, and what of a processed report is sent.
 */
module WireLayout {
  import opened Bytes
  import R = Rs485
  import W = WireReport
  import L = WireRadio
  import K = Calib
  import C = Crc16
  import D = Crc8

  /** A 16-bit field, low octet first. */
  predicate Field16(s: bytes, at: nat, v: int) {
    at + 2 <= |s| && s[at] as int + 256 * s[at + 1] as int == v
  }

  /** A signed 32-bit field in two's complement, low octet first. */
  predicate Field32(s: bytes, at: nat, v: int) {
    && at + 4 <= |s|
    && s[at] as int + 256 * s[at + 1] as int + 65_536 * s[at + 2] as int + 16_777_216 * s[at + 3] as int
       == if v < 0 then v + 0x1_0000_0000 else v
  }

  lemma Signed32(s: bytes, at: nat)
    requires at + 4 <= |s|
    ensures Field32(s, at, GetI32(s[at..at + 4]))
  {
    var t := s[at..at + 4];
    assert t[2..][0] == s[at + 2] && t[2..][1] == s[at + 3];
  }

  lemma Unsigned16(v: u16, s: bytes, at: nat)
    requires at + 2 <= |s| && s[at..at + 2] == Put16(v)
    ensures Field16(s, at, v)
  {
    assert s[at..at + 2][0] == s[at] && s[at..at + 2][1] == s[at + 1];
  }

  // ------------------------------------------------------------------------ RS-485

  /** A frame: 0x7E, address, command, length, payload, and the CRC of all but the first. */
  lemma FrameLayout(f: R.Frame)
    requires |f.payload| <= 200
    ensures var s, n := R.Encoding(f), |f.payload|;
      && |s| == n + 6 && s[0] == 0x7E && s[1] == f.addr && s[2] == f.cmd && s[3] == n
      && s[4..4 + n] == f.payload
      && Field16(s, 4 + n, C.Crc(s[1..4 + n]))
  {
    hide C.Crc;
    var s, n := R.Encoding(f), |f.payload|;
    assert s[1..4 + n] == R.Covered(f);
    assert s[4 + n..4 + n + 2] == Put16(C.Crc(R.Covered(f)));
    Unsigned16(C.Crc(R.Covered(f)), s, 4 + n);
    assert R.Covered(f)[3..] == f.payload;
  }

  // ------------------------------------------------------------------------- report

  /** A channel: identifier, flags, value. */
  predicate ChannelStands(s: bytes, at: nat, c: W.Channel) {
    at + 6 <= |s| && s[at] == c.id && s[at + 1] == c.flags && Field32(s, at + 2, c.value)
  }

  /**
   A report: version 1, position, flags, five 16-bit fields, and twice a count with so many
   channels of 6 octets.
   */
  lemma ReportLayout(r: W.Report)
    requires W.WellFormed(r)
    ensures var s, d := W.Encoding(r), 14 + 6 * |r.primary|;
      && |s| == d + 1 + 6 * |r.derived| && s[0] == 1 && s[1] == r.position && s[2] == r.flags
      && Field16(s, 3, r.cycle) && Field16(s, 5, r.railMv) && Field16(s, 7, r.fault)
      && Field16(s, 9, r.noPower) && Field16(s, 11, r.range)
      && s[13] == |r.primary| && s[d] == |r.derived|
      && (forall i :: 0 <= i < |r.primary| ==> ChannelStands(s, 14 + 6 * i, r.primary[i]))
      && (forall i :: 0 <= i < |r.derived| ==> ChannelStands(s, d + 1 + 6 * i, r.derived[i]))
  {
    hide W.Head, W.Channels, W.ChannelsIn, ChannelStands, W.HeadOf, Field16;
    var s, d := W.Encoding(r), 14 + 6 * |r.primary|;
    W.EncodingParses(r);
    W.HeadFieldsOnly(s);
    HeaderFields(s, r);
    forall i | 0 <= i < |r.primary| ensures ChannelStands(s, 14 + 6 * i, r.primary[i]) {
      W.ChannelsInAt(s, 14, |r.primary|, i);
      ChannelReads(s, 14 + 6 * i);
    }
    forall i | 0 <= i < |r.derived| ensures ChannelStands(s, d + 1 + 6 * i, r.derived[i]) {
      W.ChannelsInAt(s, d + 1, |r.derived|, i);
      ChannelReads(s, d + 1 + 6 * i);
    }
  }

  lemma HeaderFields(s: bytes, r: W.Report)
    requires |s| >= 15 && W.HeadOf(s).(primary := r.primary, derived := r.derived) == r
    ensures s[1] == r.position && s[2] == r.flags && Field16(s, 3, r.cycle) && Field16(s, 5, r.railMv)
    ensures Field16(s, 7, r.fault) && Field16(s, 9, r.noPower) && Field16(s, 11, r.range)
  {
  }

  lemma ChannelReads(s: bytes, at: nat)
    requires at + 6 <= |s|
    ensures ChannelStands(s, at, W.ChannelAt(s, at))
  {
    hide GetI32;
    Signed32(s, at + 2);
  }

  /** The number of the `d`-th derived value. */
  predicate DerivedNumber(d: nat, id: int) {
    (d == 0 && id == 13) || (d == 1 && id == 14) || (d == 2 && id == 15) || (d == 3 && id == 16) || (d == 4 && id == 21)
  }

  predicate DerivedSent(r: W.PodReport, d: nat, c: W.Channel)
    requires W.Sized(r) && d < 5
  {
    DerivedNumber(d, c.id) && r.derivedFlags[d] % 2 == 1 && c.flags == r.derivedFlags[d] && c.value == r.derived[d]
  }

  lemma NumberIs(d: nat, id: int)
    requires d < 5
    ensures DerivedNumber(d, id) <==> id == W.DERIVED_ID[d]
  {
  }

  lemma {:induction false} DerivedUpTo(r: W.PodReport, k: nat, c: W.Channel)
    requires W.Sized(r) && k <= 5
    ensures c in W.DerivedOf(r, k) <==> exists d :: 0 <= d < k && DerivedSent(r, d, c)
  {
    hide DerivedNumber;
    if k > 0 {
      DerivedUpTo(r, k - 1, c);
      NumberIs(k - 1, c.id);
      if DerivedSent(r, k - 1, c) {
        assert c == W.Channel(W.DERIVED_ID[k - 1], r.derivedFlags[k - 1], r.derived[k - 1]);
      } else {
        assert (exists d :: 0 <= d < k && DerivedSent(r, d, c)) ==> exists d :: 0 <= d < k - 1 && DerivedSent(r, d, c);
      }
    }
  }

  lemma {:induction false} DerivedInOrder(r: W.PodReport, k: nat)
    requires W.Sized(r) && k <= 5
    ensures W.Increasing(W.DerivedOf(r, k))
    ensures forall i :: 0 <= i < |W.DerivedOf(r, k)| ==>
              W.DerivedOf(r, k)[i].id < if k == 5 then 22 else W.DERIVED_ID[k]
  {
    if k > 0 { DerivedInOrder(r, k - 1); }
  }

  /**
   What of a processed report is sent: bit 0 of the flags for the wake, bit 1 for a valid rail; the low
   16 bits of the cycle; the rail voltage, nothing below zero; and exactly the derived values that are
   valid, in order, under the numbers 13, 14, 15, 16 and 21.
   */
  lemma SentExactly(r: W.PodReport, position: u8, c: W.Channel)
    requires W.Sized(r)
    ensures var w := W.OnWire(r, position);
      && w.position == position && (w.flags % 2 == 1 <==> r.wake) && (w.flags / 2 == if r.railValid then 1 else 0)
      && w.cycle == r.cycle % 65_536
      && w.railMv == (if r.railMv < 0 then 0 else r.railMv % 65_536)
      && w.fault == r.fault && w.noPower == r.noPower && w.range == r.range
      && (c in w.derived <==> exists d :: 0 <= d < 5 && DerivedSent(r, d, c)) && W.Increasing(w.derived)
      && (c in w.primary
          <==> 1 <= c.id <= 46 && r.flags[c.id] != 0 && c.flags == r.flags[c.id] && c.value == r.value[c.id])
      && W.Increasing(w.primary)
  {
    hide W.Populated, W.DerivedOf, W.Increasing, DerivedSent;
    DerivedUpTo(r, 5, c);
    DerivedInOrder(r, 5);
    W.PopulatedExactly(r, 46, c);
    W.PopulatedIncreasing(r, 46);
  }

  // ---------------------------------------------------------------- beacon and uplink

  /** A beacon: "PB", superframe, slot length, number of slots, beacon time, and the CRC of these. */
  lemma BeaconLayout(b: L.Beacon)
    ensures var s := L.Sealed(L.BeaconBody(b));
      && |s| == 11 && s[0] == 0x50 && s[1] == 0x42
      && Field16(s, 2, b.superframe) && Field16(s, 4, b.slotMs) && s[6] == b.nSlots && Field16(s, 7, b.beaconMs)
      && Field16(s, 9, C.Crc(s[..9]))
  {
    hide C.Crc;
    var s := L.Sealed(L.BeaconBody(b));
    L.SealedPrefix(L.BeaconBody(b));
    assert s[9..9 + 2] == Put16(C.Crc(s[..9]));
    Unsigned16(C.Crc(s[..9]), s, 9);
  }

  /** An uplink: "PR", the address, the report, and the CRC of these. */
  lemma UplinkLayout(u: L.Uplink)
    ensures var s, n := L.Sealed(L.UplinkBody(u)), |u.report|;
      && |s| == n + 5 && s[0] == 0x50 && s[1] == 0x52 && s[2] == u.addr && s[3..3 + n] == u.report
      && Field16(s, 3 + n, C.Crc(s[..3 + n]))
  {
    hide C.Crc;
    var s, n := L.Sealed(L.UplinkBody(u)), |u.report|;
    L.SealedPrefix(L.UplinkBody(u));
    assert s[3 + n..3 + n + 2] == Put16(C.Crc(s[..3 + n]));
    Unsigned16(C.Crc(s[..3 + n]), s, 3 + n);
  }

  // ---------------------------------------------------------------- calibration table

  /** An entry of a calibration table. */
  predicate EntryStands(s: bytes, at: nat, e: K.Entry) {
    && at + 17 <= |s| && s[at] == e.param
    && Field32(s, at + 1, e.rawLo) && Field32(s, at + 5, e.refLo)
    && Field32(s, at + 9, e.rawHi) && Field32(s, at + 13, e.refHi)
  }

  /** A calibration table: "CL", version 1, the count, entries of 17 octets, and the checksum of these. */
  lemma TableLayout(t: K.Table)
    requires K.AllInsitu(t)
    ensures var s, n := K.Image(t), 4 + 17 * |t|;
      && |s| == n + 1 && s[0] == 0x43 && s[1] == 0x4C && s[2] == 1 && s[3] == |t|
      && (forall i :: 0 <= i < |t| ==> EntryStands(s, 4 + 17 * i, t[i]))
      && s[n] == D.Crc(s[..n])
  {
    hide K.Entries, K.EntriesIn, EntryStands, D.Crc, K.Body;
    var s, n := K.Image(t), 4 + 17 * |t|;
    assert s[..n] == K.Body(t);
    BodyHead(t);
    assert s[..n][..4] == s[..4];
    K.ImageDecodes(t, []);
    assert s + [] == s;
    forall i | 0 <= i < |t| ensures EntryStands(s, 4 + 17 * i, t[i]) {
      K.EntriesInPrefix(s, |t|, i);
      EntryReads(s, i);
    }
  }

  lemma BodyHead(t: K.Table)
    ensures K.Body(t)[..4] == [0x43, 0x4C, 1, |t|]
  {
  }

  lemma EntryReads(s: bytes, i: nat)
    requires 4 + 17 * (i + 1) <= |s|
    ensures EntryStands(s, 4 + 17 * i, K.EntryAt(s, i))
  {
    hide GetI32, Field32;
    var at := 4 + 17 * i;
    Signed32(s, at + 1);
    Signed32(s, at + 5);
    Signed32(s, at + 9);
    Signed32(s, at + 13);
    SliceOfSlice(s, at, 17, 1, 5);
    SliceOfSlice(s, at, 17, 5, 9);
    SliceOfSlice(s, at, 17, 9, 13);
    SliceOfSlice(s, at, 17, 13, 17);
  }

  lemma SliceOfSlice(s: bytes, at: nat, n: nat, a: nat, b: nat)
    requires a <= b <= n && at + n <= |s|
    ensures s[at..at + n][a..b] == s[at + a..at + b]
  {
    var t, u := s[at..at + n][a..b], s[at + a..at + b];
    assert forall i :: 0 <= i < |t| ==> t[i] == u[i];
  }
}
