/**
 The pod report on the wire: the firmware's encoder and decoder (wire.c:41-152) and the head
 node's own in Python (wire.py:66-105), all against one description of the format.
 */
module WireReport {
  import opened Bytes
  import opened Errno
  import opened Params
  import L = BridgeLink
  import M = BridgeMessages

  const VERSION: u8 := 1
  const DERIVED: nat := 5
  const HEAD: nat := 13
  const CHANNEL: nat := 6

  datatype Channel = Channel(id: u8, flags: u8, value: i32)

  datatype Report = Report(position: u8, flags: u8, cycle: u16, railMv: u16, fault: u16, noPower: u16, range: u16,
                           primary: seq<Channel>, derived: seq<Channel>)

  predicate AllInsitu(cs: seq<Channel>) { forall i :: 0 <= i < |cs| ==> Insitu(cs[i].id) }

  /** What may stand in a report that a decoder accepts. */
  predicate WellFormed(r: Report) { |r.primary| <= PARAMS && AllInsitu(r.primary) && |r.derived| <= DERIVED }

  function ChannelBytes(c: Channel): (s: bytes)
    ensures |s| == CHANNEL
  {
    [c.id, c.flags] + PutI32(c.value)
  }

  function Channels(cs: seq<Channel>): (s: bytes)
    ensures |s| == CHANNEL * |cs|
    decreases |cs|
  {
    if cs == [] then [] else Channels(cs[..|cs| - 1]) + ChannelBytes(cs[|cs| - 1])
  }

  function Head(r: Report): (s: bytes)
    ensures |s| == HEAD
  {
    [VERSION, r.position, r.flags]
    + Put16(r.cycle) + Put16(r.railMv) + Put16(r.fault) + Put16(r.noPower) + Put16(r.range)
  }

  /** The format: the counts are octets. */
  function Encoding(r: Report): (s: bytes)
    requires |r.primary| < 256 && |r.derived| < 256
    ensures |s| == 15 + 6 * (|r.primary| + |r.derived|)
  {
    Head(r) + [|r.primary|] + Channels(r.primary) + [|r.derived|] + Channels(r.derived)
  }

  // -------------------------------------------------------------------- reading it back

  function ChannelAt(s: bytes, at: nat): Channel
    requires at + CHANNEL <= |s|
  {
    Channel(s[at], s[at + 1], GetI32(s[at + 2..at + 6]))
  }

  function ChannelsIn(s: bytes, at: nat, n: nat): (cs: seq<Channel>)
    requires at + CHANNEL * n <= |s|
    ensures |cs| == n
  {
    if n == 0 then [] else ChannelsIn(s, at, n - 1) + [ChannelAt(s, at + CHANNEL * (n - 1))]
  }

  function HeadOf(s: bytes): (r: Report)
    requires |s| >= HEAD
  {
    Report(s[1], s[2], Get16(s[3..5]), Get16(s[5..7]), Get16(s[7..9]), Get16(s[9..11]), Get16(s[11..13]), [], [])
  }

  /** The report an octet string holds, if it holds one and nothing else. */
  function Parse(s: bytes): (r: Option<Report>) {
    if |s| < 15 || s[0] != VERSION then None
    else
      var np := s[13] as int;
      var d := 14 + CHANNEL * np;
      if np > PARAMS || d + 1 > |s| then None
      else
        var nd := s[d] as int;
        if !AllInsitu(ChannelsIn(s, 14, np)) || nd > DERIVED || |s| != d + 1 + CHANNEL * nd then None
        else Some(HeadOf(s).(primary := ChannelsIn(s, 14, np), derived := ChannelsIn(s, d + 1, nd)))
  }

  lemma ChannelRoundTrip(c: Channel, s: bytes, at: nat)
    requires at + CHANNEL <= |s|
    ensures s[at..at + CHANNEL] == ChannelBytes(c) <==> ChannelAt(s, at) == c
  {
    hide PutI32, GetI32;
    I32RoundTrip(c.value, s[at + 2..at + 6]);
    var t := s[at..at + CHANNEL];
    assert t == [s[at], s[at + 1]] + s[at + 2..at + 6];
    assert ChannelBytes(c)[2..] == PutI32(c.value) && t[2..] == s[at + 2..at + 6];
    assert ChannelBytes(c)[0] == c.id && ChannelBytes(c)[1] == c.flags && t[0] == s[at] && t[1] == s[at + 1];
  }

  /** A stretch is the printing of channels exactly when it reads as them. */
  lemma {:induction false} ChannelsRoundTrip(cs: seq<Channel>, s: bytes, at: nat)
    requires at + CHANNEL * |cs| <= |s|
    ensures s[at..at + CHANNEL * |cs|] == Channels(cs) <==> ChannelsIn(s, at, |cs|) == cs
    decreases |cs|
  {
    hide ChannelBytes, ChannelAt, Channels, ChannelsIn;
    if cs == [] {
      NoChannels(s, at);
    } else {
      var n := |cs| - 1;
      var mid, end := at + CHANNEL * n, at + CHANNEL * |cs|;
      ChannelsLast(cs, s, at);
      ChannelsRoundTrip(cs[..n], s, at);
      ChannelRoundTrip(cs[n], s, mid);
      Halves(s[at..mid], s[mid..end], Channels(cs[..n]), ChannelBytes(cs[n]));
      assert s[at..end] == s[at..mid] + s[mid..end];
      LastIs(ChannelsIn(s, at, n), ChannelAt(s, mid), cs);
    }
  }

  lemma NoChannels(s: bytes, at: nat)
    requires at <= |s|
    ensures Channels([]) == [] && ChannelsIn(s, at, 0) == []
  {
  }

  lemma ChannelsLast(cs: seq<Channel>, s: bytes, at: nat)
    requires cs != [] && at + CHANNEL * |cs| <= |s|
    ensures var n := |cs| - 1;
      && Channels(cs) == Channels(cs[..n]) + ChannelBytes(cs[n])
      && ChannelsIn(s, at, |cs|) == ChannelsIn(s, at, n) + [ChannelAt(s, at + CHANNEL * n)]
  {
    hide ChannelBytes, ChannelAt;
  }

  lemma LastIs(a: seq<Channel>, x: Channel, cs: seq<Channel>)
    requires |cs| == |a| + 1
    ensures a + [x] == cs <==> a == cs[..|a|] && x == cs[|a|]
  {
    if a + [x] == cs { assert (a + [x])[..|a|] == a && (a + [x])[|a|] == x; }
  }

  lemma Halves(a: bytes, b: bytes, c: bytes, d: bytes)
    requires |a| == |c|
    ensures a + b == c + d <==> a == c && b == d
  {
    if a + b == c + d {
      assert a == (a + b)[..|a|] && b == (a + b)[|a|..] && c == (c + d)[..|c|] && d == (c + d)[|c|..];
    }
  }

  lemma Get16RoundTrip(v: u16, s: bytes)
    requires |s| == 2
    ensures s == Put16(v) <==> Get16(s) == v
  {
  }

  lemma HeadRoundTrip(r: Report, s: bytes)
    requires |s| >= HEAD
    ensures s[..HEAD] == Head(r) <==> s[0] == VERSION && HeadOf(s) == r.(primary := [], derived := [])
  {
    hide Put16, Get16;
    Get16RoundTrip(r.cycle, s[3..5]);
    Get16RoundTrip(r.railMv, s[5..7]);
    Get16RoundTrip(r.fault, s[7..9]);
    Get16RoundTrip(r.noPower, s[9..11]);
    Get16RoundTrip(r.range, s[11..13]);
    var h := Head(r);
    assert h[..3] == [VERSION, r.position, r.flags];
    assert h[3..5] == Put16(r.cycle) && h[5..7] == Put16(r.railMv) && h[7..9] == Put16(r.fault);
    assert h[9..11] == Put16(r.noPower) && h[11..13] == Put16(r.range);
    Fields(s[..HEAD]);
    Fields(h);
    var t := s[..HEAD];
    assert t[3..5] == s[3..5] && t[5..7] == s[5..7] && t[7..9] == s[7..9];
    assert t[9..11] == s[9..11] && t[11..13] == s[11..13];
    assert t[..3] == [s[0], s[1], s[2]];
  }

  lemma Fields(t: bytes)
    requires |t| == HEAD
    ensures t == t[..3] + t[3..5] + t[5..7] + t[7..9] + t[9..11] + t[11..13]
  {
  }

  /**
   The format is exact: an octet string parses as a report exactly when it is the encoding of
   that report and the report is well formed. So no two reports share an encoding, and every
   accepted string is printed back octet for octet.
   */
  lemma ParseExactly(s: bytes, r: Report)
    ensures Parse(s) == Some(r) <==> WellFormed(r) && s == Encoding(r)
  {
    hide Parse, Encoding;
    if Parse(s) == Some(r) { ParsedIsEncoding(s, r); }
    if WellFormed(r) && s == Encoding(r) { EncodingParses(r); }
  }

  lemma Sections(s: bytes, d: nat)
    requires 14 <= d < |s|
    ensures s == s[..HEAD] + [s[13]] + s[14..d] + [s[d]] + s[d + 1..]
  {
  }

  lemma ParsedIsEncoding(s: bytes, r: Report)
    requires Parse(s) == Some(r)
    ensures WellFormed(r) && s == Encoding(r)
  {
    hide Head, HeadOf, Channels, ChannelsIn;
    var d := 14 + CHANNEL * s[13] as int;
    HeadFieldsOnly(s);
    HeadRoundTrip(r, s);
    ChannelsRoundTrip(r.primary, s, 14);
    ChannelsRoundTrip(r.derived, s, d + 1);
    Sections(s, d);
  }

  lemma HeadFieldsOnly(s: bytes)
    requires |s| >= HEAD
    ensures HeadOf(s).primary == HeadOf(s).derived == []
  {
  }

  lemma EncodingParses(r: Report)
    requires WellFormed(r)
    ensures Parse(Encoding(r)) == Some(r)
  {
    hide Head, HeadOf, Channels, ChannelsIn;
    var s := Encoding(r);
    var d := 14 + CHANNEL * |r.primary|;
    Parts(Head(r), |r.primary|, Channels(r.primary), |r.derived|, Channels(r.derived));
    HeadFieldsOnly(s);
    HeadRoundTrip(r, s);
    HeadStartsWithVersion(r);
    ChannelsRoundTrip(r.primary, s, 14);
    ChannelsRoundTrip(r.derived, s, d + 1);
  }

  lemma HeadStartsWithVersion(r: Report)
    ensures Head(r)[0] == VERSION
  {
  }

  lemma Parts(h: bytes, n: byte, p: bytes, m: byte, q: bytes)
    requires |h| == HEAD
    ensures var s := h + [n] + p + [m] + q; var d := 14 + |p|;
      s[..HEAD] == h && s[13] == n && s[14..d] == p && s[d] == m && s[d + 1..d + 1 + |q|] == q
  {
    var s, d := h + [n] + p + [m] + q, 14 + |p|;
    assert s == h + ([n] + p + [m] + q);
    assert s == (h + [n]) + p + ([m] + q);
    assert s == (h + [n] + p + [m]) + q;
  }

  // ------------------------------------------------------------------- the two decoders

  lemma {:induction false} ChannelsInAt(s: bytes, at: nat, n: nat, i: nat)
    requires at + CHANNEL * n <= |s| && i < n
    ensures ChannelsIn(s, at, n)[i] == ChannelAt(s, at + CHANNEL * i)
  {
    hide ChannelAt;
    if i < n - 1 { ChannelsInAt(s, at, n - 1, i); }
  }

  /** A loop of either decoder that stops at the first identifier out of range. */
  method ReadPrimary(buf: bytes, count: nat) returns (ok: bool, cs: seq<Channel>)
    requires 14 + CHANNEL * count <= |buf|
    ensures ok == AllInsitu(ChannelsIn(buf, 14, count))
    ensures ok ==> cs == ChannelsIn(buf, 14, count)
  {
    hide GetI32;
    cs := [];
    var n, i := 14, 0;
    while i < count
      invariant 0 <= i <= count && n == 14 + CHANNEL * i && cs == ChannelsIn(buf, 14, i) && AllInsitu(cs)
    {
      ChannelsInAt(buf, 14, count, i);
      var c := Channel(buf[n], buf[n + 1], GetI32(buf[n + 2..n + 6]));
      n := n + 6;
      if !Insitu(c.id) { return false, cs; }
      cs := cs + [c];
      i := i + 1;
    }
    return true, cs;
  }

  method ReadDerived(buf: bytes, at: nat, count: nat) returns (cs: seq<Channel>)
    requires at + CHANNEL * count <= |buf|
    ensures cs == ChannelsIn(buf, at, count)
  {
    hide GetI32;
    cs := [];
    var n, i := at, 0;
    while i < count
      invariant 0 <= i <= count && n == at + CHANNEL * i && cs == ChannelsIn(buf, at, i)
    {
      cs := cs + [Channel(buf[n], buf[n + 1], GetI32(buf[n + 2..n + 6]))];
      n := n + 6;
      i := i + 1;
    }
  }

  /** wire_decode_report: the firmware's decoder, with its error codes. */
  method WireDecodeReport(buf: bytes) returns (rc: int, r: Report)
    ensures rc == 0 <==> Parse(buf).Some?
    ensures rc == 0 ==> Parse(buf) == Some(r)
    ensures rc != 0 ==> rc == if |buf| >= 15 && buf[0] != VERSION then -EINVAL else -EBADMSG
  {
    hide ChannelsIn, Get16;
    r := Report(0, 0, 0, 0, 0, 0, 0, [], []);
    if |buf| < 15 { return -EBADMSG, r; }
    if buf[0] != VERSION { return -EINVAL, r; }
    r := HeadOf(buf);
    var nPrimary := buf[13] as int;
    if nPrimary > PARAMS || 14 + nPrimary * 6 + 1 > |buf| { return -EBADMSG, r; }
    var ok, primary := ReadPrimary(buf, nPrimary);
    r := r.(primary := primary);
    if !ok { return -EBADMSG, r; }
    var n := 14 + nPrimary * 6;
    var nDerived := buf[n] as int;
    n := n + 1;
    if nDerived > DERIVED || n + nDerived * 6 > |buf| { return -EBADMSG, r; }
    var derived := ReadDerived(buf, n, nDerived);
    r := r.(derived := derived);
    n := n + nDerived * 6;
    rc := if n == |buf| then 0 else -EBADMSG;
  }

  /** decode_report: the head node's decoder; None is its WireError. */
  method DecodeReport(buf: bytes) returns (r: Option<Report>)
    ensures r == Parse(buf)
  {
    hide ChannelAt, Get16;
    if |buf| < 15 { return None; }
    var head := HeadOf(buf);
    if buf[0] != VERSION { return None; }
    var np, n := buf[13] as int, 14;
    if np > 46 || n + np * 6 + 1 > |buf| { return None; }
    var prim: seq<Channel>, i := [], 0;
    while i < np
      invariant 0 <= i <= np && n == 14 + CHANNEL * i && prim == ChannelsIn(buf, 14, i) && AllInsitu(prim)
    {
      ChannelsInAt(buf, 14, np, i);
      var c := ChannelAt(buf, n);
      n := n + 6;
      if !(1 <= c.id <= 46) { return None; }
      prim := prim + [c];
      i := i + 1;
    }
    var nd, at := buf[n] as int, n + 1;
    n := n + 1;
    if nd > 5 || n + nd * 6 > |buf| { return None; }
    var der: seq<Channel> := [];
    i := 0;
    while i < nd
      invariant 0 <= i <= nd && n == at + CHANNEL * i && der == ChannelsIn(buf, at, i)
    {
      der := der + [ChannelAt(buf, n)];
      n := n + 6;
      i := i + 1;
    }
    if n != |buf| { return None; }
    return Some(head.(primary := prim, derived := der));
  }

  /** encode_report: None where packing a count into an octet raises. */
  method EncodeReport(r: Report) returns (out: Option<bytes>)
    ensures out == if |r.primary| < 256 && |r.derived| < 256 then Some(Encoding(r)) else None
  {
    hide ChannelBytes, Head;
    if |r.primary| > 255 { return None; }
    var s := Head(r) + [|r.primary|];
    var i := 0;
    while i < |r.primary|
      invariant 0 <= i <= |r.primary| && s == Head(r) + [|r.primary|] + Channels(r.primary[..i])
    {
      assert r.primary[..i + 1][..i] == r.primary[..i];
      s := s + ChannelBytes(r.primary[i]);
      i := i + 1;
    }
    assert r.primary[..i] == r.primary;
    if |r.derived| > 255 { return None; }
    s := s + [|r.derived|];
    ghost var front := s;
    i := 0;
    while i < |r.derived|
      invariant 0 <= i <= |r.derived| && s == front + Channels(r.derived[..i])
    {
      assert r.derived[..i + 1][..i] == r.derived[..i];
      s := s + ChannelBytes(r.derived[i]);
      i := i + 1;
    }
    assert r.derived[..i] == r.derived;
    return Some(s);
  }

  // ---------------------------------------------------------------- the firmware's encoder

  /** A processed report: per parameter number and per derived value its flags and its value. */
  datatype PodReport = PodReport(wake: bool, railValid: bool, cycle: u32, railMv: i32,
                                 fault: u16, noPower: u16, range: u16,
                                 flags: seq<u8>, value: seq<i32>, derivedFlags: seq<u8>, derived: seq<i32>)

  predicate Sized(r: PodReport) { |r.flags| == |r.value| == PARAMS + 1 && |r.derivedFlags| == |r.derived| == DERIVED }

  const DERIVED_ID: seq<u8> := [13, 14, 15, 16, 21]

  predicate Valid(flags: u8) { flags % 2 == 1 }

  /** The populated ones of the parameters 1..k, in order. */
  function Populated(r: PodReport, k: nat): (cs: seq<Channel>)
    requires Sized(r) && k <= PARAMS
    ensures |cs| <= k && AllInsitu(cs) && forall i :: 0 <= i < |cs| ==> cs[i].id <= k
  {
    if k == 0 then []
    else if r.flags[k] == 0 then Populated(r, k - 1)
    else Populated(r, k - 1) + [Channel(k, r.flags[k], r.value[k])]
  }

  /** The valid ones of the first k derived values. */
  function DerivedOf(r: PodReport, k: nat): (cs: seq<Channel>)
    requires Sized(r) && k <= DERIVED
    ensures |cs| <= k
  {
    if k == 0 then []
    else if !Valid(r.derivedFlags[k - 1]) then DerivedOf(r, k - 1)
    else DerivedOf(r, k - 1) + [Channel(DERIVED_ID[k - 1], r.derivedFlags[k - 1], r.derived[k - 1])]
  }

  /** What of a processed report goes on the wire. */
  function OnWire(r: PodReport, position: u8): (w: Report)
    requires Sized(r)
    ensures WellFormed(w)
  {
    Report(position, (if r.wake then 1 else 0) + (if r.railValid then 2 else 0), r.cycle % 0x1_0000,
           if r.railMv < 0 then 0 else r.railMv % 0x1_0000, r.fault, r.noPower, r.range,
           Populated(r, PARAMS), DerivedOf(r, DERIVED))
  }

  /** Stores of one channel at `n`. */
  method PutChannel(out: array<byte>, n: nat, c: Channel)
    requires n + CHANNEL <= out.Length
    modifies out
    ensures out[..] == old(out[..n]) + ChannelBytes(c) + old(out[n + CHANNEL..])
  {
    hide PutI32;
    ghost var before := out[..];
    var v := PutI32(c.value);
    out[n], out[n + 1], out[n + 2], out[n + 3], out[n + 4], out[n + 5] := c.id, c.flags, v[0], v[1], v[2], v[3];
    assert out[n..n + CHANNEL] == ChannelBytes(c);
    assert out[..] == out[..n] + out[n..n + CHANNEL] + out[n + CHANNEL..];
  }

  /** From `at` on stand those channels with their count before them; the rest is as before. */
  ghost predicate Written(s: bytes, before: bytes, at: nat, cs: seq<Channel>) {
    var n := at + 1 + CHANNEL * |cs|;
    |cs| < 256 && n <= |before| && s == before[..at] + [|cs|] + Channels(cs) + before[n..]
  }

  /** As many of the channels as there is room for. */
  ghost predicate Stopped(s: bytes, before: bytes, at: nat, cs: seq<Channel>) {
    exists i :: 0 <= i < |cs| && Written(s, before, at, cs[..i]) && at + 1 + CHANNEL * (i + 1) > |s|
  }

  lemma Bumped(a: bytes, k: byte, k': byte, x: bytes)
    ensures (a + [k] + x)[|a| := k'] == a + [k'] + x
  {
  }

  lemma WrittenNext(s: bytes, before: bytes, at: nat, cs: seq<Channel>, c: Channel)
    requires Written(s, before, at, cs) && |cs| < 255 && at + 1 + CHANNEL * (|cs| + 1) <= |s|
    ensures var n := at + 1 + CHANNEL * |cs|;
      && n + CHANNEL <= |s| == |before| && s[at] == |cs|
      && Written((s[..n] + ChannelBytes(c) + s[n + CHANNEL..])[at := |cs| + 1], before, at, cs + [c])
  {
    hide ChannelBytes;
    var n := at + 1 + CHANNEL * |cs|;
    var a, rest := before[..at], before[n..];
    assert (cs + [c])[..|cs|] == cs;
    assert s[..n] == a + [|cs|] + Channels(cs) && s[n + CHANNEL..] == rest[CHANNEL..] == before[n + CHANNEL..];
    var tail := Channels(cs) + ChannelBytes(c) + before[n + CHANNEL..];
    assert s[..n] + ChannelBytes(c) + s[n + CHANNEL..] == a + [|cs|] + tail;
    Bumped(a, |cs|, |cs| + 1, tail);
    assert a + [|cs| + 1] + tail == a + [|cs| + 1] + Channels(cs + [c]) + before[n + CHANNEL..];
  }

  lemma StartWritten(s: bytes, at: nat)
    requires at < |s|
    ensures Written(s[at := 0], s, at, [])
  {
    assert s[at := 0] == s[..at] + [0] + [] + s[at + 1..];
  }

  /** One round of either loop that finds room: the channel, and one more in the count. */
  method AddChannel(out: array<byte>, at: nat, n: nat, c: Channel, ghost before: bytes, ghost cs: seq<Channel>)
    requires Written(out[..], before, at, cs) && |cs| < 255
    requires n == at + 1 + CHANNEL * |cs| && n + CHANNEL <= out.Length
    modifies out
    ensures Written(out[..], before, at, cs + [c])
  {
    hide Written, ChannelBytes;
    ghost var s := out[..];
    WrittenNext(s, before, at, cs, c);
    assert out[..n] == s[..n] && out[n + CHANNEL..] == s[n + CHANNEL..];
    PutChannel(out, n, c);
    assert out[at] == out[..][at] == s[at];
    out[at] := out[at] + 1;
  }

  /** The primary loop of wire_encode_report, from the count at `at`; None for lack of space. */
  method PutPrimary(r: PodReport, out: array<byte>, at: nat) returns (end: Option<nat>)
    requires Sized(r) && at < out.Length
    modifies out
    ensures var cs := Populated(r, PARAMS);
      if at + 1 + CHANNEL * |cs| <= out.Length
      then end == Some(at + 1 + CHANNEL * |cs|) && Written(out[..], old(out[..]), at, cs)
      else end == None && Stopped(out[..], old(out[..]), at, cs)
  {
    hide Written, ChannelBytes;
    ghost var before := out[..];
    out[at] := 0;
    var n, p := at + 1, 1;
    StartWritten(before, at);
    assert out[..] == before[at := 0];
    while p <= PARAMS
      invariant 1 <= p <= PARAMS + 1 && n == at + 1 + CHANNEL * |Populated(r, p - 1)| <= out.Length
      invariant Written(out[..], before, at, Populated(r, p - 1))
    {
      if r.flags[p] != 0 {
        PopulatedGrows(r, p - 1, p);
        PopulatedGrows(r, p, PARAMS);
        if n + 6 > out.Length {
          PrefixOf(Populated(r, p - 1), Populated(r, PARAMS));
          return None;
        }
        AddChannel(out, at, n, Channel(p, r.flags[p], r.value[p]), before, Populated(r, p - 1));
        n := n + 6;
      }
      p := p + 1;
    }
    return Some(n);
  }

  lemma PrefixOf(a: seq<Channel>, b: seq<Channel>)
    requires a <= b
    ensures b[..|a|] == a
  {
  }

  lemma {:induction false} PopulatedGrows(r: PodReport, p: nat, k: nat)
    requires Sized(r) && p <= k <= PARAMS
    ensures Populated(r, p) <= Populated(r, k)
  {
    if p < k { PopulatedGrows(r, p, k - 1); }
  }

  /** The derived loop. */
  method PutDerived(r: PodReport, out: array<byte>, at: nat) returns (end: Option<nat>)
    requires Sized(r) && at < out.Length
    modifies out
    ensures var cs := DerivedOf(r, DERIVED);
      if at + 1 + CHANNEL * |cs| <= out.Length
      then end == Some(at + 1 + CHANNEL * |cs|) && Written(out[..], old(out[..]), at, cs)
      else end == None && Stopped(out[..], old(out[..]), at, cs)
  {
    hide Written, ChannelBytes;
    ghost var before := out[..];
    out[at] := 0;
    var n, d := at + 1, 0;
    StartWritten(before, at);
    assert out[..] == before[at := 0];
    while d < DERIVED
      invariant 0 <= d <= DERIVED && n == at + 1 + CHANNEL * |DerivedOf(r, d)| <= out.Length
      invariant Written(out[..], before, at, DerivedOf(r, d))
    {
      if Valid(r.derivedFlags[d]) {
        DerivedGrows(r, d, d + 1);
        DerivedGrows(r, d + 1, DERIVED);
        if n + 6 > out.Length {
          PrefixOf(DerivedOf(r, d), DerivedOf(r, DERIVED));
          return None;
        }
        AddChannel(out, at, n, Channel(DERIVED_ID[d], r.derivedFlags[d], r.derived[d]), before, DerivedOf(r, d));
        n := n + 6;
      }
      d := d + 1;
    }
    return Some(n);
  }

  lemma {:induction false} DerivedGrows(r: PodReport, d: nat, k: nat)
    requires Sized(r) && d <= k <= DERIVED
    ensures DerivedOf(r, d) <= DerivedOf(r, k)
  {
    if d < k { DerivedGrows(r, d, k - 1); }
  }

  /** A report given up for lack of space: what fitted of it, counted, and the rest of the buffer as before. */
  ghost predicate GaveUp(now: bytes, w: Report, before: bytes) {
    |before| >= HEAD && (
      var begun, at := Head(w) + before[HEAD..], HEAD + 1 + CHANNEL * |w.primary|;
      || Stopped(now, begun, HEAD, w.primary)
      || (Written(now, begun, HEAD, w.primary) && at == |now|)
      || exists mid :: Written(mid, begun, HEAD, w.primary) && Stopped(now, mid, at, w.derived))
  }

  /**
   wire_encode_report: the encoding of what goes on the wire, if the buffer holds it and is of
   16 octets or more; so an empty report of 15 is refused a buffer of exactly its size.
   */
  method WireEncodeReport(r: PodReport, position: u8, out: array<byte>) returns (rc: int)
    requires Sized(r)
    modifies out
    ensures out.Length < 16 ==> rc == -ENOSPC && out[..] == old(out[..])
    ensures var s := Encoding(OnWire(r, position));
      out.Length >= 16 ==>
      if out.Length >= |s| then rc == |s| && out[..] == s + old(out[rc..])
      else rc == -ENOSPC && GaveUp(out[..], OnWire(r, position), old(out[..]))
  {
    hide Written, Populated, DerivedOf, Head, Stopped, Channels;
    if out.Length < 16 { return -ENOSPC; }
    ghost var before, w := out[..], OnWire(r, position);
    PutHead(OnWire(r, position), out);
    ghost var begun := out[..];
    var end := PutPrimary(r, out, HEAD);
    if end.None? || end.value + 1 > out.Length { return -ENOSPC; }
    ghost var mid := out[..];
    var last := PutDerived(r, out, end.value);
    if last.None? {
      assert Written(mid, begun, HEAD, w.primary) && Stopped(out[..], mid, end.value, w.derived);
      return -ENOSPC;
    }
    WholeReport(out[..], mid, w, before);
    return last.value;
  }

  /** The header of a report. */
  method PutHead(w: Report, out: array<byte>)
    requires out.Length >= HEAD
    modifies out
    ensures out[..] == Head(w) + old(out[HEAD..])
  {
    hide Put16;
    var h := Head(w);
    forall i | 0 <= i < HEAD { out[i] := h[i]; }
    assert out[..HEAD] == h && out[..] == out[..HEAD] + out[HEAD..];
  }

  lemma WholeReport(s: bytes, mid: bytes, w: Report, before: bytes)
    requires |before| >= HEAD && |w.primary| < 256 && |w.derived| < 256
    requires Written(mid, Head(w) + before[HEAD..], HEAD, w.primary)
    requires Written(s, mid, HEAD + 1 + CHANNEL * |w.primary|, w.derived)
    ensures s == Encoding(w) + before[|Encoding(w)|..]
  {
    hide Head, Channels;
    var begun, at := Head(w) + before[HEAD..], HEAD + 1 + CHANNEL * |w.primary|;
    assert begun[..HEAD] == Head(w);
    TailOfAppend(Head(w), before, at);
    assert mid[..at] == Head(w) + [|w.primary|] + Channels(w.primary);
    var n := at + 1 + CHANNEL * |w.derived|;
    assert mid[at..] == begun[at..] == before[at..];
    TailOfTail(mid, at, n - at);
    TailOfTail(before, at, n - at);
  }

  lemma TailOfAppend(h: bytes, before: bytes, k: nat)
    requires |h| <= k <= |before|
    ensures (h + before[|h|..])[k..] == before[k..]
  {
  }

  // ---------------------------------------------------------------- what arrives of a report

  /** Exactly the populated parameters travel, each once, with its flags and its value. */
  lemma {:induction false} PopulatedExactly(r: PodReport, k: nat, c: Channel)
    requires Sized(r) && k <= PARAMS
    ensures c in Populated(r, k)
       <==> 1 <= c.id <= k && r.flags[c.id] != 0 && c.flags == r.flags[c.id] && c.value == r.value[c.id]
  {
    if k > 0 { PopulatedExactly(r, k - 1, c); }
  }

  predicate Increasing(cs: seq<Channel>) { forall i, j :: 0 <= i < j < |cs| ==> cs[i].id < cs[j].id }

  lemma {:induction false} PopulatedIncreasing(r: PodReport, k: nat)
    requires Sized(r) && k <= PARAMS
    ensures Increasing(Populated(r, k))
  {
    if k > 0 { PopulatedIncreasing(r, k - 1); }
  }

  /** Either decoder gives back exactly what went on the wire, for every processed report. */
  lemma ReportArrives(r: PodReport, position: u8)
    requires Sized(r)
    ensures Parse(Encoding(OnWire(r, position))) == Some(OnWire(r, position))
  {
    ParseExactly(Encoding(OnWire(r, position)), OnWire(r, position));
  }

  /**
   Every report the pod can send, being 15 and a multiple of 6 octets and at most 200, fits the
   head node's message buffer for every address, with nothing to spare.
   */
  lemma SentReportsFit(r: Report, addr: u8)
    requires |r.primary| < 256 && |r.derived| < 256 && |Encoding(r)| <= 200
    ensures |M.Wire(M.PodReport(addr, Encoding(r)))| <= L.POD_REPORT_BUF
    ensures |r.primary| + |r.derived| == 30 && addr > 127 ==>
      |M.Wire(M.PodReport(addr, Encoding(r)))| == L.POD_REPORT_BUF
  {
    hide Encoding;
  }
}
