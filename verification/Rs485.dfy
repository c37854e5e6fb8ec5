/**
 The RS-485 frame, the byte-wise receive parser and the slave's answers (rs485.c).
 */
module Rs485 {
  import opened Bytes
  import opened Errno
  import C = Crc16
  import R = CrcRegister

  const SOF: byte := 0x7E
  const PAYLOAD_MAX: nat := 200
  const BROADCAST: u8 := 0xFF
  const CMD_POLL: u8 := 0x01
  const CMD_ARM: u8 := 0x02
  const CMD_PING: u8 := 0x03
  const CMD_REPORT: u8 := 0x81
  const CMD_ACK: u8 := 0x82
  const CMD_PONG: u8 := 0x83
  const CMD_NAK: u8 := 0xFE

  /** The payload is the first `len` octets of the C array. */
  datatype Frame = Frame(addr: u8, cmd: u8, payload: bytes)

  predicate Sendable(f: Frame) { |f.payload| <= PAYLOAD_MAX }

  predicate AddrValid(addr: u8) { 1 <= addr <= 247 }

  /** The octets under the CRC. */
  function Covered(f: Frame): (s: bytes)
    requires Sendable(f)
    ensures |s| == 3 + |f.payload|
  {
    [f.addr, f.cmd, |f.payload|] + f.payload
  }

  function Encoding(f: Frame): (s: bytes)
    requires Sendable(f)
    ensures |s| == 6 + |f.payload|
  {
    [SOF] + Covered(f) + Put16(C.Crc(Covered(f)))
  }

  method FrameEncode(f: Frame, out: array<byte>) returns (n: int)
    modifies out
    ensures !Sendable(f) ==> n == -EINVAL && out[..] == old(out[..])
    ensures Sendable(f) && out.Length < |Encoding(f)| ==> n == -ENOSPC && out[..] == old(out[..])
    ensures Sendable(f) && out.Length >= |Encoding(f)| ==>
      n == |Encoding(f)| && out[..n] == Encoding(f) && out[n..] == old(out[n..])
  {
    hide C.Crc, Encoding, Covered;
    var len := |f.payload|;
    n := 4 + len + 2;
    if len > PAYLOAD_MAX {
      return -EINVAL;
    }
    if out.Length < n {
      return -ENOSPC;
    }
    ghost var before := out[..];
    PutCovered(f, out);
    ghost var front, rest := out[..4 + len], out[n..];
    assert rest == out[4 + len..][2..] == before[4 + len..][2..] == before[n..];
    var crc := C.WireCrc16(out[1..4 + len]);
    assert out[1..4 + len] == front[1..];
    LaidOut(f, front, crc);
    out[4 + len], out[5 + len] := crc % 256, crc / 256;
    assert out[..4 + len] == front && out[n..] == rest;
    assert out[..n] == front + [out[4 + len], out[5 + len]];
  }

  /** The octets before the CRC. */
  method PutCovered(f: Frame, out: array<byte>)
    requires Sendable(f) && out.Length >= 4 + |f.payload|
    modifies out
    ensures out[..4 + |f.payload|] == [SOF] + Covered(f)
    ensures out[4 + |f.payload|..] == old(out[4 + |f.payload|..])
  {
    var len := |f.payload|;
    out[0], out[1], out[2], out[3] := SOF, f.addr, f.cmd, len;
    forall i | 0 <= i < len {
      out[4 + i] := f.payload[i];
    }
    assert out[4..4 + len] == f.payload;
    assert out[..4 + len] == out[..4] + out[4..4 + len];
  }

  lemma LaidOut(f: Frame, front: bytes, crc: u16)
    requires Sendable(f) && front == [SOF] + Covered(f) && crc == C.Crc(front[1..])
    ensures front + [crc % 256, crc / 256] == Encoding(f)
  {
    hide C.Crc, Covered;
    assert front[1..] == Covered(f);
  }

  // ------------------------------------------------------------------ the parser

  /** What the parser remembers: a frame in the making, stage by stage. */
  datatype Rx =
    | WaitSof
    | WaitAddr
    | WaitCmd(addr: u8)
    | WaitLen(addr: u8, cmd: u8)
    | InPayload(addr: u8, cmd: u8, len: u8, got: bytes)
    | WaitCrcLo(frame: Frame)
    | WaitCrcHi(frame: Frame, lo: byte)

  predicate Coherent(rx: Rx) {
    match rx
    case InPayload(_, _, len, got) => |got| < len <= PAYLOAD_MAX
    case WaitCrcLo(f) => Sendable(f)
    case WaitCrcHi(f, _) => Sendable(f)
    case _ => true
  }

  function Step(rx: Rx, b: byte): (r: (Rx, Option<Frame>))
    requires Coherent(rx)
    ensures Coherent(r.0) && (r.1.Some? ==> r.0 == WaitSof && Sendable(r.1.value))
  {
    match rx
    case WaitSof => (if b == SOF then WaitAddr else WaitSof, None)
    case WaitAddr => (WaitCmd(b), None)
    case WaitCmd(a) => (WaitLen(a, b), None)
    case WaitLen(a, c) =>
      (if b > PAYLOAD_MAX then WaitSof
       else if b == 0 then WaitCrcLo(Frame(a, c, []))
       else InPayload(a, c, b, []), None)
    case InPayload(a, c, len, got) =>
      (if |got| + 1 == len then WaitCrcLo(Frame(a, c, got + [b])) else InPayload(a, c, len, got + [b]), None)
    case WaitCrcLo(f) => (WaitCrcHi(f, b), None)
    case WaitCrcHi(f, lo) =>
      (WaitSof, if lo as int + 256 * b as int == C.Crc(Covered(f)) then Some(f) else None)
  }

  datatype State = ST_SOF | ST_ADDR | ST_CMD | ST_LEN | ST_PAYLOAD | ST_CRC_LO | ST_CRC_HI

  class Parser {
    var state: State
    var addr: u8
    var cmd: u8
    var len: u8
    const payload: array<byte>
    var got: nat
    var crcRx: u16
    var lastByteMs: u32
    var crcErrors: u32
    var frames: u32

    ghost predicate Valid()
      reads this
    {
      && payload.Length == PAYLOAD_MAX
      && (state == ST_PAYLOAD ==> got < len <= PAYLOAD_MAX)
      && (state == ST_CRC_LO || state == ST_CRC_HI ==> len <= PAYLOAD_MAX)
      && (state == ST_CRC_HI ==> crcRx <= 255)
    }

    ghost function Current(): Frame
      requires payload.Length == PAYLOAD_MAX && len <= PAYLOAD_MAX
      reads this, payload
    {
      Frame(addr, cmd, payload[..len])
    }

    ghost function Abs(): (rx: Rx)
      requires Valid()
      reads this, payload
      ensures Coherent(rx)
    {
      match state
      case ST_SOF => WaitSof
      case ST_ADDR => WaitAddr
      case ST_CMD => WaitCmd(addr)
      case ST_LEN => WaitLen(addr, cmd)
      case ST_PAYLOAD => InPayload(addr, cmd, len, payload[..got])
      case ST_CRC_LO => WaitCrcLo(Current())
      case ST_CRC_HI => WaitCrcHi(Current(), crcRx)
    }

    constructor ()
      ensures Valid() && Abs() == WaitSof && frames == 0 && crcErrors == 0 && fresh(payload)
    {
      state, addr, cmd, len, got, crcRx, lastByteMs, crcErrors, frames := ST_SOF, 0, 0, 0, 0, 0, 0, 0, 0;
      payload := new byte[PAYLOAD_MAX](_ => 0);
    }

    /** rs485_parser_byte. */
    method Byte(b: byte, nowMs: u32) returns (done: bool)
      requires Valid()
      modifies this, payload
      ensures Valid() && lastByteMs == nowMs
      ensures Abs() == Step(old(Abs()), b).0
      ensures done == Step(old(Abs()), b).1.Some?
      ensures done ==> len <= PAYLOAD_MAX && Current() == Step(old(Abs()), b).1.value
      ensures frames == if done then (old(frames) + 1) % 0x1_0000_0000 else old(frames)
      ensures crcErrors == if old(state) == ST_CRC_HI && !done then (old(crcErrors) + 1) % 0x1_0000_0000
                           else old(crcErrors)
    {
      hide C.Crc;
      lastByteMs := nowMs;
      done := false;
      match state
      case ST_SOF =>
        if b == SOF { state := ST_ADDR; }
      case ST_ADDR =>
        addr, state := b, ST_CMD;
      case ST_CMD =>
        cmd, state := b, ST_LEN;
      case ST_LEN =>
        if b > PAYLOAD_MAX {
          state, got := ST_SOF, 0;
        } else {
          len, got := b, 0;
          state := if b != 0 then ST_PAYLOAD else ST_CRC_LO;
        }
      case ST_PAYLOAD =>
        payload[got] := b;
        got := got + 1;
        assert payload[..got] == old(payload[..got]) + [b];
        if got == len { state := ST_CRC_LO; }
      case ST_CRC_LO =>
        crcRx, state := b, ST_CRC_HI;
      case ST_CRC_HI =>
        done := Finish(b);
    }

    /** The last octet: complete the received CRC, compare, count. */
    method Finish(b: byte) returns (done: bool)
      requires Valid() && state == ST_CRC_HI
      modifies this
      ensures Valid() && state == ST_SOF
      ensures addr == old(addr) && cmd == old(cmd) && len == old(len) && lastByteMs == old(lastByteMs)
      ensures done == (old(crcRx) as int + 256 * b as int == C.Crc(Covered(old(Current()))))
      ensures frames == if done then (old(frames) + 1) % 0x1_0000_0000 else old(frames)
      ensures crcErrors == if done then old(crcErrors) else (old(crcErrors) + 1) % 0x1_0000_0000
    {
      hide C.Crc;
      crcRx := crcRx + 256 * b;
      var covered := [addr, cmd, len] + payload[..len];
      assert covered == Covered(Current());
      var crc := C.WireCrc16(covered);
      state, got := ST_SOF, 0;
      if crc == crcRx {
        frames := (frames + 1) % 0x1_0000_0000;
        done := true;
      } else {
        crcErrors := (crcErrors + 1) % 0x1_0000_0000;
        done := false;
      }
    }

    /** rs485_parser_idle: a gap longer than `gapMs` drops a partial frame; elapsed time wraps. */
    method Idle(nowMs: u32, gapMs: u32)
      requires Valid()
      modifies this
      ensures Valid()
      ensures Abs() == if ToU32(nowMs - lastByteMs) > gapMs then WaitSof else old(Abs())
      ensures lastByteMs == old(lastByteMs) && frames == old(frames) && crcErrors == old(crcErrors)
    {
      if state != ST_SOF && ToU32(nowMs - lastByteMs) > gapMs {
        state, got := ST_SOF, 0;
      }
    }
  }

  // ------------------------------------------------- accepts exactly what is encoded

  /** The parser over a stream: where it ends up, and the frames it reported, in order. */
  function Parse(rx: Rx, bs: bytes): (r: (Rx, seq<Frame>))
    requires Coherent(rx)
    ensures Coherent(r.0)
    decreases |bs|
  {
    if bs == [] then (rx, [])
    else
      var s := Step(rx, bs[0]);
      var r := Parse(s.0, bs[1..]);
      if s.1.Some? then (r.0, [s.1.value] + r.1) else r
  }

  lemma {:induction false} ParseAppend(rx: Rx, a: bytes, b: bytes)
    requires Coherent(rx)
    ensures Parse(rx, a + b).0 == Parse(Parse(rx, a).0, b).0
    ensures Parse(rx, a + b).1 == Parse(rx, a).1 + Parse(Parse(rx, a).0, b).1
    decreases |a|
  {
    hide Step;
    if a == [] {
      assert a + b == b;
    } else {
      assert (a + b)[1..] == a[1..] + b;
      ParseAppend(Step(rx, a[0]).0, a[1..], b);
      var x, y := Parse(Step(rx, a[0]).0, a[1..]).1, Parse(Parse(rx, a).0, b).1;
      assert Step(rx, a[0]).1.Some? ==> [Step(rx, a[0]).1.value] + (x + y) == [Step(rx, a[0]).1.value] + x + y;
    }
  }

  lemma ParseQuiet(rx: Rx, bs: bytes)
    requires Coherent(rx) && bs != [] && Step(rx, bs[0]).1.None?
    ensures Parse(rx, bs) == Parse(Step(rx, bs[0]).0, bs[1..])
  {
    hide Step;
  }

  lemma ParseOne(rx: Rx, b: byte)
    requires Coherent(rx)
    ensures Parse(rx, [b]) == (Step(rx, b).0, if Step(rx, b).1.Some? then [Step(rx, b).1.value] else [])
  {
    hide Step;
    assert [b][1..] == [];
    assert Parse(Step(rx, b).0, []) == (Step(rx, b).0, []);
    assert Step(rx, b).1.Some? ==> [Step(rx, b).1.value] + [] == [Step(rx, b).1.value];
  }

  /** The octets since the start-of-frame that the parser is working on. */
  function Seen(rx: Rx): bytes
    requires Coherent(rx)
  {
    match rx
    case WaitSof => []
    case WaitAddr => [SOF]
    case WaitCmd(a) => [SOF, a]
    case WaitLen(a, c) => [SOF, a, c]
    case InPayload(a, c, len, got) => [SOF, a, c, len] + got
    case WaitCrcLo(f) => [SOF] + Covered(f)
    case WaitCrcHi(f, lo) => [SOF] + Covered(f) + [lo]
  }

  /** A step extends what was seen, starts over, or completes exactly one encoding. */
  lemma StepSeen(rx: Rx, b: byte)
    requires Coherent(rx)
    ensures Step(rx, b).0 == WaitSof || Seen(Step(rx, b).0) == Seen(rx) + [b]
    ensures Step(rx, b).1.Some? ==> Seen(rx) + [b] == Encoding(Step(rx, b).1.value)
  {
    hide C.Crc;
    if rx.WaitCrcHi? && Step(rx, b).1.Some? {
      assert Put16(C.Crc(Covered(rx.frame))) == [rx.lo, b];
      assert Seen(rx) + [b] == [SOF] + Covered(rx.frame) + [rx.lo, b];
    } else if rx.InPayload? && |rx.got| + 1 == rx.len {
      var f := Frame(rx.addr, rx.cmd, rx.got + [b]);
      assert [SOF] + Covered(f) == Seen(rx) + [b];
    }
  }

  lemma {:induction false} PayloadParses(f: Frame, k: nat)
    requires Sendable(f) && k < |f.payload|
    ensures Parse(InPayload(f.addr, f.cmd, |f.payload|, f.payload[..k]), f.payload[k..]) == (WaitCrcLo(f), [])
    decreases |f.payload| - k
  {
    var rest := f.payload[k..];
    assert rest[1..] == f.payload[k + 1..] && f.payload[..k] + [rest[0]] == f.payload[..k + 1];
    ParseQuiet(InPayload(f.addr, f.cmd, |f.payload|, f.payload[..k]), rest);
    if k + 1 < |f.payload| {
      PayloadParses(f, k + 1);
    } else {
      assert f.payload[..k + 1] == f.payload;
    }
  }

  lemma CoveredParses(f: Frame)
    requires Sendable(f)
    ensures Parse(WaitSof, [SOF] + Covered(f)) == (WaitCrcLo(f), [])
  {
    var bs := [SOF] + Covered(f);
    assert bs == [SOF, f.addr, f.cmd, |f.payload|] + f.payload;
    assert bs[1..][1..] == bs[2..] && bs[2..][1..] == bs[3..] && bs[3..][1..] == f.payload;
    ParseQuiet(WaitSof, bs);
    ParseQuiet(WaitAddr, bs[1..]);
    ParseQuiet(WaitCmd(f.addr), bs[2..]);
    ParseQuiet(WaitLen(f.addr, f.cmd), bs[3..]);
    if f.payload != [] {
      PayloadParses(f, 0);
      assert f.payload[..0] == [] && f.payload[0..] == f.payload;
    }
  }

  lemma TailParses(f: Frame, lo: byte, hi: byte)
    requires Sendable(f)
    ensures Parse(WaitCrcLo(f), [lo, hi]) ==
      (WaitSof, if lo as int + 256 * hi as int == C.Crc(Covered(f)) then [f] else [])
  {
    assert [lo, hi][1..] == [hi];
    ParseQuiet(WaitCrcLo(f), [lo, hi]);
    ParseOne(WaitCrcHi(f, lo), hi);
  }

  /** An encoded frame, 0x7E in its payload or not, is reported once: on its last octet. */
  lemma EncodingParses(f: Frame)
    requires Sendable(f)
    ensures Parse(WaitSof, Encoding(f)) == (WaitSof, [f])
    ensures forall k :: 0 <= k < |Encoding(f)| ==> Parse(WaitSof, Encoding(f)[..k]).1 == []
  {
    hide Step;
    var body, crc := [SOF] + Covered(f), C.Crc(Covered(f));
    CoveredParses(f);
    ParseAppend(WaitSof, body, Put16(crc));
    TailParses(f, crc % 256, crc / 256);
    assert Encoding(f) == body + Put16(crc) && [] + [f] == [f];
    forall k | 0 <= k < |Encoding(f)| ensures Parse(WaitSof, Encoding(f)[..k]).1 == [] {
      NoEarlier(f, k);
    }
  }

  lemma NoEarlier(f: Frame, k: nat)
    requires Sendable(f) && k < |Encoding(f)|
    ensures Parse(WaitSof, Encoding(f)[..k]).1 == []
  {
    hide Step;
    var body, crc := [SOF] + Covered(f), C.Crc(Covered(f));
    CoveredParses(f);
    if k <= |body| {
      assert body == Encoding(f)[..k] + body[k..];
      ParseAppend(WaitSof, Encoding(f)[..k], body[k..]);
    } else {
      assert Encoding(f)[..k] == body + [crc % 256];
      ParseAppend(WaitSof, body, [crc % 256]);
      FirstCrcByte(f, crc % 256);
    }
  }

  lemma FirstCrcByte(f: Frame, lo: byte)
    requires Sendable(f)
    ensures Parse(WaitCrcLo(f), [lo]) == (WaitCrcHi(f, lo), [])
  {
    ParseOne(WaitCrcLo(f), lo);
  }

  function Encodings(fs: seq<Frame>): bytes
    requires forall f :: f in fs ==> Sendable(f)
  {
    if fs == [] then [] else Encoding(fs[0]) + Encodings(fs[1..])
  }

  /** Back-to-back frames come out one by one, nothing added or lost. */
  lemma {:induction false} StreamParses(fs: seq<Frame>)
    requires forall f :: f in fs ==> Sendable(f)
    ensures Parse(WaitSof, Encodings(fs)) == (WaitSof, fs)
    decreases |fs|
  {
    hide Encoding, Step;
    if fs != [] {
      EncodingParses(fs[0]);
      ParseAppend(WaitSof, Encoding(fs[0]), Encodings(fs[1..]));
      StreamParses(fs[1..]);
      assert [fs[0]] + fs[1..] == fs;
    }
  }

  /** The parser was waiting for a start-of-frame just before the octets it has seen. */
  lemma {:induction false} BytesInSync(bs: bytes)
    ensures var rx := Parse(WaitSof, bs).0;
      |Seen(rx)| <= |bs| && Seen(rx) == bs[|bs| - |Seen(rx)|..]
      && Parse(WaitSof, bs[..|bs| - |Seen(rx)|]).0 == WaitSof
    decreases |bs|
  {
    hide Step, Seen;
    if bs == [] {
      SeenSof();
    } else {
      var n := |bs| - 1;
      var front, b := bs[..n], bs[n];
      assert bs == front + [b];
      BytesInSync(front);
      ParseAppend(WaitSof, front, [b]);
      var rx := Parse(WaitSof, front).0;
      ParseOne(rx, b);
      StepSeen(rx, b);
      SeenSof();
      if Step(rx, b).0 == WaitSof {
        assert bs[..|bs|] == bs;
      } else {
        var s := |Seen(rx)|;
        assert bs[..|bs| - (s + 1)] == front[..n - s];
      }
    }
  }

  lemma SeenSof()
    ensures Seen(WaitSof) == []
  {
  }

  lemma LastOctet(f: Frame)
    requires Sendable(f)
    ensures var e := Encoding(f); |e| > 0 && Step(Parse(WaitSof, e[..|e| - 1]).0, e[|e| - 1]).1 == Some(f)
  {
    var e := Encoding(f);
    var k := |e| - 1;
    var body, crc := [SOF] + Covered(f), C.Crc(Covered(f));
    CoveredParses(f);
    assert e[..k] == body + [crc % 256] && e[k] == crc / 256;
    ParseAppend(WaitSof, body, [crc % 256]);
    FirstCrcByte(f, crc % 256);
  }

  // ------------------------------------------------------- any stream, with idle gaps in it

  /** What the parser meets: an octet, or a gap long enough for rs485_parser_idle to drop a partial frame. */
  datatype Item = Octet(b: byte) | Gap

  function Octets(bs: bytes): (items: seq<Item>)
    ensures |items| == |bs|
  {
    seq(|bs|, i requires 0 <= i < |bs| => Octet(bs[i]))
  }

  /** The parser over such a stream. */
  function Listen(items: seq<Item>): (r: (Rx, seq<Frame>))
    ensures Coherent(r.0)
    decreases |items|
  {
    if items == [] then (WaitSof, [])
    else
      var n := |items| - 1;
      var r := Listen(items[..n]);
      match items[n]
      case Gap => (WaitSof, r.1)
      case Octet(b) =>
        var s := Step(r.0, b);
        (s.0, if s.1.Some? then r.1 + [s.1.value] else r.1)
  }

  lemma OctetsAppend(a: bytes, b: bytes)
    ensures Octets(a + b) == Octets(a) + Octets(b)
  {
  }

  lemma OctetsLast(a: bytes, b: byte)
    ensures Octets(a + [b]) == Octets(a) + [Octet(b)]
  {
    OctetsAppend(a, [b]);
    assert Octets([b]) == [Octet(b)];
  }

  lemma ListenLast(items: seq<Item>, b: byte)
    ensures var s := Step(Listen(items).0, b);
      Listen(items + [Octet(b)]) == (s.0, if s.1.Some? then Listen(items).1 + [s.1.value] else Listen(items).1)
  {
    hide Step;
    assert (items + [Octet(b)])[..|items|] == items;
  }

  lemma {:induction false} ListenAppend(items: seq<Item>, bs: bytes)
    ensures Listen(items + Octets(bs)).0 == Parse(Listen(items).0, bs).0
    ensures Listen(items + Octets(bs)).1 == Listen(items).1 + Parse(Listen(items).0, bs).1
    decreases |bs|
  {
    hide Step, Listen, Octets;
    if bs == [] {
      NoOctets(items);
    } else {
      var n := |bs| - 1;
      var front, b := bs[..n], bs[n];
      var rx := Listen(items).0;
      assert bs == front + [b];
      OctetsLast(front, b);
      Together(items, Octets(front), [Octet(b)]);
      ListenAppend(items, front);
      ListenLast(items + Octets(front), b);
      ParseAppend(rx, front, [b]);
      ParseOne(Parse(rx, front).0, b);
      var f := Step(Parse(rx, front).0, b).1;
      var out, more := Listen(items).1, Parse(rx, front).1;
      if f.Some? { assert out + (more + [f.value]) == out + more + [f.value]; }
    }
  }

  lemma NoOctets(items: seq<Item>)
    ensures items + Octets([]) == items
  {
  }

  lemma Together(a: seq<Item>, b: seq<Item>, c: seq<Item>)
    ensures a + (b + c) == a + b + c
  {
  }

  /** The octets since the last gap. */
  function SinceGap(items: seq<Item>): bytes
    decreases |items|
  {
    if items == [] || items[|items| - 1].Gap? then []
    else SinceGap(items[..|items| - 1]) + [items[|items| - 1].b]
  }

  /** Before the octets since the last gap the parser was between frames. */
  lemma {:induction false} BetweenFrames(items: seq<Item>) returns (front: seq<Item>)
    ensures items == front + Octets(SinceGap(items)) && Listen(front).0 == WaitSof
    decreases |items|
  {
    hide Step, Octets;
    if items == [] || items[|items| - 1].Gap? {
      front := items;
      NoOctets(items);
    } else {
      var n := |items| - 1;
      var before, b := items[..n], items[n].b;
      front := BetweenFrames(before);
      OctetsLast(SinceGap(before), b);
      Together(front, Octets(SinceGap(before)), [Octet(b)]);
      assert items == before + [Octet(b)];
    }
  }

  /** What the parser holds of a frame are the last octets received, without a gap, begun between frames. */
  lemma InSync(items: seq<Item>) returns (pre: seq<Item>)
    ensures items == pre + Octets(Seen(Listen(items).0)) && Listen(pre).0 == WaitSof
  {
    hide Step, Seen, Octets, Listen;
    var bs := SinceGap(items);
    var front := BetweenFrames(items);
    ListenAppend(front, bs);
    BytesInSync(bs);
    var seen := Seen(Parse(WaitSof, bs).0);
    var begun := bs[..|bs| - |seen|];
    assert bs == begun + seen;
    OctetsAppend(begun, seen);
    Together(front, Octets(begun), Octets(seen));
    ListenAppend(front, begun);
    pre := front + Octets(begun);
  }

  /**
   On any stream whatsoever, idle gaps included, the parser reports frame `f` at an octet if and only
   if the stream so far ends with the encoding of `f`, without a gap and started between frames.
   */
  lemma AcceptsExactly(items: seq<Item>, b: byte, f: Frame)
    requires Sendable(f)
    ensures Step(Listen(items).0, b).1 == Some(f)
       <==> exists pre :: Listen(pre).0 == WaitSof && items + [Octet(b)] == pre + Octets(Encoding(f))
  {
    hide Step, Seen, Encoding, Listen, Octets;
    var rx := Listen(items).0;
    if Step(rx, b).1 == Some(f) {
      var pre := InSync(items);
      StepSeen(rx, b);
      OctetsLast(Seen(rx), b);
      Together(pre, Octets(Seen(rx)), [Octet(b)]);
    }
    if pre :| Listen(pre).0 == WaitSof && items + [Octet(b)] == pre + Octets(Encoding(f)) {
      EndsFrame(pre, items, b, f);
    }
  }

  lemma EndsFrame(pre: seq<Item>, items: seq<Item>, b: byte, f: Frame)
    requires Sendable(f) && Listen(pre).0 == WaitSof && items + [Octet(b)] == pre + Octets(Encoding(f))
    ensures Step(Listen(items).0, b).1 == Some(f)
  {
    hide Step, Encoding, Listen, Octets;
    LastOctet(f);
    var e := Encoding(f);
    var k := |e| - 1;
    assert e == e[..k] + [e[k]];
    OctetsLast(e[..k], e[k]);
    Together(pre, Octets(e[..k]), [Octet(e[k])]);
    SameLast(items, Octet(b), pre + Octets(e[..k]), Octet(e[k]));
    ListenAppend(pre, e[..k]);
  }

  lemma SameLast(a: seq<Item>, x: Item, b: seq<Item>, y: Item)
    requires a + [x] == b + [y]
    ensures a == b && x == y
  {
    assert (a + [x])[..|a|] == a && (b + [y])[..|b|] == b;
    assert (a + [x])[|a|] == x && (b + [y])[|b|] == y;
  }

  /** After a gap, whatever came before it, the next frame parses. */
  lemma GapResynchronises(items: seq<Item>, f: Frame)
    requires Sendable(f)
    ensures Listen(items + [Gap] + Octets(Encoding(f))) == (WaitSof, Listen(items).1 + [f])
  {
    hide Encoding, Step;
    assert (items + [Gap])[..|items|] == items;
    ListenAppend(items + [Gap], Encoding(f));
    EncodingParses(f);
  }

  /**
   Damage to address, command or payload within 16 consecutive binary digits is always caught:
   the octets that arrive produce no frame, and the parser is ready for the next one.
   */
  lemma DamagedFrameRejected(f: Frame, g: Frame, at: nat)
    requires Sendable(f) && |g.payload| == |f.payload|
    requires R.IsBurst(R.Xor(C.MessageBits(Covered(f)), C.MessageBits(Covered(g))), at)
    ensures Parse(WaitSof, [SOF] + Covered(g) + Put16(C.Crc(Covered(f)))) == (WaitSof, [])
  {
    var crc := C.Crc(Covered(f));
    CoveredParses(g);
    ParseAppend(WaitSof, [SOF] + Covered(g), Put16(crc));
    TailParses(g, crc % 256, crc / 256);
    C.BurstChangesCrc(Covered(f), Covered(g), at);
    assert [SOF] + Covered(g) + Put16(crc) == [SOF] + Covered(g) + [crc % 256, crc / 256];
  }

  // -------------------------------------------------------------------- the slave

  datatype Slave = Slave(addr: u8, position: u8, fwMajor: u8, fwMinor: u8, report: bytes)

  /** -EINVAL, silence, or a frame to transmit. */
  datatype Answer = BadConfig | Silent | Transmit(frame: Frame)

  /** rs485_slave_handle; `armed` is the value the arm hook is called with, if it is called. */
  method SlaveHandle(me: Slave, req: Frame) returns (ans: Answer, armed: Option<bool>)
    ensures ans == AnswerOf(me, req) && armed == ArmOf(me, req)
  {
    armed := None;
    var broadcast := req.addr == BROADCAST;
    if !AddrValid(me.addr) { return BadConfig, None; }
    if req.addr != me.addr && !broadcast { return Silent, None; }
    if req.cmd >= 0x80 { return Silent, None; }
    if req.cmd == CMD_POLL {
      if broadcast { return Silent, None; }
      ans := Transmit(Frame(me.addr, CMD_REPORT, me.report));
    } else if req.cmd == CMD_ARM {
      if |req.payload| >= 1 { armed := Some(req.payload[0] != 0); }
      if broadcast { return Silent, armed; }
      ans := Transmit(Frame(me.addr, CMD_ACK, [CMD_ARM]));
    } else if req.cmd == CMD_PING {
      if broadcast { return Silent, None; }
      ans := Transmit(Frame(me.addr, CMD_PONG, [me.position, me.fwMajor, me.fwMinor]));
    } else {
      if broadcast { return Silent, None; }
      ans := Transmit(Frame(me.addr, CMD_NAK, [req.cmd]));
    }
  }

  /** A slave speaks when, and only when, it is asked by its own address. */
  predicate Asked(me: Slave, req: Frame) { req.addr == me.addr && req.cmd < 0x80 }

  function AnswerOf(me: Slave, req: Frame): Answer {
    if !AddrValid(me.addr) then BadConfig
    else if !Asked(me, req) then Silent
    else
      Transmit(
        if req.cmd == CMD_POLL then Frame(me.addr, CMD_REPORT, me.report)
        else if req.cmd == CMD_ARM then Frame(me.addr, CMD_ACK, [CMD_ARM])
        else if req.cmd == CMD_PING then Frame(me.addr, CMD_PONG, [me.position, me.fwMajor, me.fwMinor])
        else Frame(me.addr, CMD_NAK, [req.cmd]))
  }

  function ArmOf(me: Slave, req: Frame): Option<bool> {
    if AddrValid(me.addr) && req.addr in {me.addr, BROADCAST} && req.cmd == CMD_ARM && req.payload != []
    then Some(req.payload[0] != 0) else None
  }

  /** What a slave transmits can be encoded, unless it is asked for a report longer than a frame holds. */
  lemma AnswerSendable(me: Slave, req: Frame)
    requires AnswerOf(me, req).Transmit?
    ensures Sendable(AnswerOf(me, req).frame) <==> req.cmd != CMD_POLL || |me.report| <= PAYLOAD_MAX
  {
  }

  /** With distinct addresses no frame makes two slaves talk, and no answer makes anyone talk. */
  lemma NoCollision(a: Slave, b: Slave, req: Frame)
    requires a.addr != b.addr && AnswerOf(a, req).Transmit?
    ensures !AnswerOf(b, req).Transmit? && req.addr != BROADCAST
    ensures var reply := AnswerOf(a, req).frame;
      reply.addr == req.addr && !AnswerOf(a, reply).Transmit? && !AnswerOf(b, reply).Transmit?
      && ArmOf(a, reply).None? && ArmOf(b, reply).None?
  {
  }

  /**
   The answers in octets: a pod with an address from 1 to 247 answers a request to that address with
   the high digit of the command clear: 0x01 with its report, 0x02 and 0x03 with acknowledgement and
   identity, any other with a refusal naming it. Nothing else is answered.
   */
  lemma AnswerExactly(me: Slave, req: Frame)
    ensures var ans := AnswerOf(me, req);
      && (ans.BadConfig? <==> me.addr == 0 || me.addr > 247)
      && (ans.Transmit? <==> 1 <= me.addr <= 247 && req.addr == me.addr && req.cmd <= 0x7F)
      && (ans.Transmit? ==>
            && ans.frame.addr == me.addr
            && (req.cmd == 0x01 ==> ans.frame.cmd == 0x81 && ans.frame.payload == me.report)
            && (req.cmd == 0x02 ==> ans.frame.cmd == 0x82 && ans.frame.payload == [0x02])
            && (req.cmd == 0x03 ==>
                  ans.frame.cmd == 0x83 && ans.frame.payload == [me.position, me.fwMajor, me.fwMinor])
            && (req.cmd !in {0x01, 0x02, 0x03} ==> ans.frame.cmd == 0xFE && ans.frame.payload == [req.cmd]))
  {
  }

  /** The hook is called for a command 0x02 with a payload, to the pod or to all, and told if its first octet is set. */
  lemma ArmExactly(me: Slave, req: Frame)
    ensures ArmOf(me, req).Some?
       <==> 1 <= me.addr <= 247 && (req.addr == me.addr || req.addr == 0xFF) && req.cmd == 0x02 && |req.payload| >= 1
    ensures ArmOf(me, req).Some? ==> (ArmOf(me, req).value <==> req.payload[0] != 0)
  {
  }

  function ArmFrame(addr: u8, armed: bool): Frame { Frame(addr, CMD_ARM, [if armed then 1 else 0]) }

  /**
   The arm order on the wire: every pod parses it; broadcast it reaches every pod and none answers, to
   one address it reaches exactly the pod of that address, and only that one acknowledges.
   */
  lemma ArmReaches(addr: u8, armed: bool, me: Slave)
    requires AddrValid(me.addr)
    ensures var f := ArmFrame(addr, armed);
      && Parse(WaitSof, Encoding(f)) == (WaitSof, [f])
      && (addr == 0xFF ==> ArmOf(me, f) == Some(armed) && AnswerOf(me, f) == Silent)
      && (addr != 0xFF ==>
            && (ArmOf(me, f) == if addr == me.addr then Some(armed) else None)
            && (AnswerOf(me, f) == if addr == me.addr then Transmit(Frame(addr, 0x82, [0x02])) else Silent))
  {
    hide Parse, Encoding;
    EncodingParses(ArmFrame(addr, armed));
  }
}
