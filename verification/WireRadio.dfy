/**
 The radio packets of mode R (wire.c:154-207): the head node's beacon and the pod's uplink.
 */
module WireRadio {
  import opened Bytes
  import opened Errno
  import C = Crc16
  import R = CrcRegister

  const BEACON_LEN: nat := 11
  const REPORT_MAX: nat := 200

  datatype Beacon = Beacon(superframe: u16, slotMs: u16, nSlots: u8, beaconMs: u16)

  datatype Uplink = Uplink(addr: u8, report: bytes)

  /** The octets, then their CRC, low octet first. */
  function Sealed(covered: bytes): (s: bytes)
    ensures |s| == |covered| + 2
  {
    covered + Put16(C.Crc(covered))
  }

  predicate Intact(s: bytes)
    requires |s| >= 2
  {
    Get16(s[|s| - 2..]) == C.Crc(s[..|s| - 2])
  }

  lemma IntactExactly(s: bytes)
    requires |s| >= 2
    ensures Intact(s) <==> s == Sealed(s[..|s| - 2])
  {
    hide C.Crc;
    assert s == s[..|s| - 2] + s[|s| - 2..];
  }

  function BeaconBody(b: Beacon): (s: bytes)
    ensures |s| == 9
  {
    [0x50, 0x42] + Put16(b.superframe) + Put16(b.slotMs) + [b.nSlots] + Put16(b.beaconMs)
  }

  function UplinkBody(u: Uplink): (s: bytes)
    ensures |s| == 3 + |u.report|
  {
    [0x50, 0x52, u.addr] + u.report
  }

  /** wire_encode_beacon. */
  method WireEncodeBeacon(b: Beacon, out: array<byte>) returns (rc: int)
    modifies out
    ensures out.Length < BEACON_LEN ==> rc == -ENOSPC && out[..] == old(out[..])
    ensures out.Length >= BEACON_LEN ==>
      rc == BEACON_LEN && out[..rc] == Sealed(BeaconBody(b)) && out[rc..] == old(out[rc..])
  {
    hide C.Crc;
    if out.Length < BEACON_LEN { return -ENOSPC; }
    ghost var rest := out[BEACON_LEN..];
    out[0], out[1] := 0x50, 0x42;
    out[2], out[3] := b.superframe % 256, b.superframe / 256;
    out[4], out[5] := b.slotMs % 256, b.slotMs / 256;
    out[6] := b.nSlots;
    out[7], out[8] := b.beaconMs % 256, b.beaconMs / 256;
    assert out[..9] == BeaconBody(b);
    var crc := C.WireCrc16(out[..9]);
    out[9], out[10] := crc % 256, crc / 256;
    assert out[..11] == out[..9] + [out[9], out[10]];
    assert out[BEACON_LEN..] == rest;
    return BEACON_LEN;
  }

  function DecodeBeacon(s: bytes): Option<Beacon> {
    if |s| != BEACON_LEN || s[0] != 0x50 || s[1] != 0x42 || !Intact(s) then None
    else Some(Beacon(Get16(s[2..4]), Get16(s[4..6]), s[6], Get16(s[7..9])))
  }

  /** wire_decode_beacon. */
  method WireDecodeBeacon(buf: bytes) returns (rc: int, b: Beacon)
    ensures rc == 0 <==> DecodeBeacon(buf).Some?
    ensures rc == 0 ==> DecodeBeacon(buf) == Some(b)
    ensures rc != 0 ==> rc == -EBADMSG
  {
    b := Beacon(0, 0, 0, 0);
    if |buf| != BEACON_LEN || buf[0] != 0x50 || buf[1] != 0x42 { return -EBADMSG, b; }
    var crc := C.WireCrc16(buf[..9]);
    assert buf[9..] == buf[|buf| - 2..];
    if Get16(buf[9..]) != crc { return -EBADMSG, b; }
    return 0, Beacon(Get16(buf[2..4]), Get16(buf[4..6]), buf[6], Get16(buf[7..9]));
  }

  /** The decoder accepts exactly the beacons the encoder prints, with the fields encoded. */
  lemma BeaconExactly(s: bytes, b: Beacon)
    ensures DecodeBeacon(s) == Some(b) <==> s == Sealed(BeaconBody(b))
  {
    hide C.Crc, Intact, Sealed;
    if |s| == BEACON_LEN {
      IntactExactly(s);
      BodyFields(s[..9], b);
      if s == Sealed(BeaconBody(b)) { SealedPrefix(BeaconBody(b)); }
    }
  }

  lemma SealedPrefix(c: bytes)
    ensures Sealed(c)[..|c|] == c
  {
  }

  lemma BodyFields(t: bytes, b: Beacon)
    requires |t| == 9
    ensures t == BeaconBody(b) <==>
      t[0] == 0x50 && t[1] == 0x42 && Beacon(Get16(t[2..4]), Get16(t[4..6]), t[6], Get16(t[7..9])) == b
    ensures forall s: bytes :: |s| >= 9 && s[..9] == t ==>
              s[2..4] == t[2..4] && s[4..6] == t[4..6] && s[7..9] == t[7..9]
  {
    var e := BeaconBody(b);
    assert t == [t[0], t[1]] + t[2..4] + t[4..6] + [t[6]] + t[7..9];
    assert e[2..4] == Put16(b.superframe) && e[4..6] == Put16(b.slotMs) && e[7..9] == Put16(b.beaconMs);
    assert e[0] == 0x50 && e[1] == 0x42 && e[6] == b.nSlots;
  }

  /** wire_encode_lora_uplink. */
  method WireEncodeLoraUplink(u: Uplink, out: array<byte>) returns (rc: int)
    modifies out
    ensures |u.report| > REPORT_MAX || out.Length < |u.report| + 5 ==> rc == -ENOSPC && out[..] == old(out[..])
    ensures |u.report| <= REPORT_MAX && out.Length >= |u.report| + 5 ==>
      rc == |u.report| + 5 && out[..rc] == Sealed(UplinkBody(u)) && out[rc..] == old(out[rc..])
  {
    hide C.Crc;
    var n := |u.report|;
    if n > REPORT_MAX || out.Length < n + 5 { return -ENOSPC; }
    ghost var rest := out[n + 5..];
    out[0], out[1], out[2] := 0x50, 0x52, u.addr;
    forall i | 0 <= i < n { out[3 + i] := u.report[i]; }
    assert out[..3 + n] == UplinkBody(u);
    var crc := C.WireCrc16(out[..3 + n]);
    out[3 + n], out[4 + n] := crc % 256, crc / 256;
    assert out[..n + 5] == out[..3 + n] + [out[3 + n], out[4 + n]];
    assert out[n + 5..] == rest;
    return n + 5;
  }

  function DecodeUplink(s: bytes): Option<Uplink> {
    if |s| < 5 || s[0] != 0x50 || s[1] != 0x52 || !Intact(s) then None
    else Some(Uplink(s[2], s[3..|s| - 2]))
  }

  /** wire_decode_lora_uplink. */
  method WireDecodeLoraUplink(buf: bytes) returns (rc: int, u: Uplink)
    ensures rc == 0 <==> DecodeUplink(buf).Some?
    ensures rc == 0 ==> DecodeUplink(buf) == Some(u)
    ensures rc != 0 ==> rc == -EBADMSG
  {
    u := Uplink(0, []);
    if |buf| < 5 || buf[0] != 0x50 || buf[1] != 0x52 { return -EBADMSG, u; }
    var crc := C.WireCrc16(buf[..|buf| - 2]);
    if Get16(buf[|buf| - 2..]) != crc { return -EBADMSG, u; }
    return 0, Uplink(buf[2], buf[3..|buf| - 2]);
  }

  /** Likewise for uplinks, also for those with a report longer than the encoder takes. */
  lemma UplinkExactly(s: bytes, u: Uplink)
    ensures DecodeUplink(s) == Some(u) <==> s == Sealed(UplinkBody(u))
  {
    hide C.Crc, Intact, Sealed;
    if s == Sealed(UplinkBody(u)) { SealedPrefix(UplinkBody(u)); }
    if |s| >= 5 {
      IntactExactly(s);
      var t := s[..|s| - 2];
      assert t == [t[0], t[1], t[2]] + t[3..];
      assert t[3..] == s[3..|s| - 2];
      assert UplinkBody(u)[3..] == u.report;
    }
  }

  /** Two covered parts of one length that differ within two adjacent octets. */
  predicate DamagedAt(a: bytes, b: bytes, i: nat) {
    |a| == |b| && i + 2 <= |a| && a[..i] == b[..i] && a[i + 2..] == b[i + 2..] && a[i..i + 2] != b[i..i + 2]
  }

  /**
   A packet whose covered octets were damaged within two adjacent ones, its CRC intact, is
   rejected, whatever its length and whichever of the two decoders sees it.
   */
  lemma DamageRejected(covered: bytes, damaged: bytes, i: nat)
    requires DamagedAt(covered, damaged, i)
    ensures DecodeBeacon(damaged + Put16(C.Crc(covered))) == None
    ensures DecodeUplink(damaged + Put16(C.Crc(covered))) == None
  {
    hide C.Crc;
    C.AdjacentOctetsChangeCrc(covered, damaged, i);
    var s := damaged + Put16(C.Crc(covered));
    assert s[..|s| - 2] == damaged && s[|s| - 2..] == Put16(C.Crc(covered));
    assert Get16(Put16(C.Crc(covered))) == C.Crc(covered);
    assert !Intact(s);
  }

  /** So is any longer burst of up to 16 consecutive digits. */
  lemma BurstRejected(covered: bytes, damaged: bytes, at: nat)
    requires |covered| == |damaged| && R.IsBurst(R.Xor(C.MessageBits(covered), C.MessageBits(damaged)), at)
    ensures DecodeBeacon(damaged + Put16(C.Crc(covered))) == None
    ensures DecodeUplink(damaged + Put16(C.Crc(covered))) == None
  {
    hide C.Crc;
    C.BurstChangesCrc(covered, damaged, at);
    var s := damaged + Put16(C.Crc(covered));
    assert s[..|s| - 2] == damaged && s[|s| - 2..] == Put16(C.Crc(covered));
    assert !Intact(s);
  }
}
