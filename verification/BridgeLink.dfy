/**
 The bridge end to end: messages encoded on one side, cut into arbitrary chunks by the UART,
 reassembled and decoded on the other. Also which messages fit the buffers main.c gives them.
 */
module BridgeLink {
  import opened Bytes
  import opened MsgPack
  import opened BridgeMessages
  import S = BridgeStream

  // ---------------------------------------------------- every message is one value

  lemma {:induction false} SkipJoined(ws: seq<bytes>, t: bytes)
    requires forall w :: w in ws ==> Complete(w)
    ensures SkipMany(S.Join(ws) + t, |ws|) == Some(|S.Join(ws)|)
    decreases |ws|
  {
    hide HeadOf, Skip;
    if ws != [] {
      var s, rest := S.Join(ws) + t, S.Join(ws[1..]) + t;
      assert s == ws[0] + rest;
      assert ws[0] in ws && Complete(ws[0]);
      SkipExtends(ws[0], rest);
      SkipJoined(ws[1..], t);
      SkipCons(s, ws[0], rest, |ws|);
    }
  }

  lemma {:induction false} SkipEntries(es: seq<Entry>, t: bytes)
    requires WellFormed(es)
    ensures SkipMany(EncEntries(es) + t, 2 * |es|) == Some(|EncEntries(es)|)
    decreases |es|
  {
    hide HeadOf, Skip, EncStr, EncEntries, SkipMany;
    if es == [] {
      NoEntriesSkipped(es, t);
    } else {
      var e, rest := es[0], EncEntries(es[1..]) + t;
      var s, s1 := EncEntries(es) + t, e.val + rest;
      EntryHead(es, t);
      ScalarsComplete(0, e.key);
      SkipExtends(EncStr(e.key), s1);
      SkipExtends(e.val, rest);
      SkipEntries(es[1..], t);
      SkipCons(s1, e.val, rest, 2 * |es| - 1);
      SkipCons(s, EncStr(e.key), s1, 2 * |es|);
    }
  }

  lemma NoEntriesSkipped(es: seq<Entry>, t: bytes)
    requires es == []
    ensures SkipMany(EncEntries(es) + t, 0) == Some(0) && EncEntries(es) == []
  {
  }

  lemma EntryHead(es: seq<Entry>, t: bytes)
    requires es != [] && forall e :: e in es ==> |e.key| <= 0xffff
    ensures EncEntries(es) + t == EncStr(es[0].key) + (es[0].val + (EncEntries(es[1..]) + t))
    ensures |EncEntries(es)| == |EncStr(es[0].key)| + |es[0].val| + |EncEntries(es[1..])|
  {
    hide EncStr, EncEntries;
    var k, v, e := EncStr(es[0].key), es[0].val, EncEntries(es[1..]);
    EntryFirst(es);
    S.Associate(k, v + e, t);
    S.Associate(v, e, t);
  }

  lemma EntryFirst(es: seq<Entry>)
    requires es != [] && forall e :: e in es ==> |e.key| <= 0xffff
    ensures EncEntries(es) == EncStr(es[0].key) + (es[0].val + EncEntries(es[1..]))
  {
    hide EncStr;
  }

  lemma MapComplete(es: seq<Entry>)
    requires WellFormed(es) && |es| <= 0xffff
    ensures Complete(EncMap(es))
  {
    hide HeadOf, Skip, SkipMany, EncHeader;
    ContainerHead(|es|, EncEntries(es));
    SkipEntries(es, []);
    assert EncEntries(es) + [] == EncEntries(es);
    NestComplete(EncMap(es), EncMapHeader(|es|), EncEntries(es), 2 * |es|);
  }

  lemma StatusMapComplete(st: Status)
    requires |st.pps| <= MAX_STR
    ensures Complete(EncMap(StatusEntries(st)))
  {
    hide Skip, EncMap;
    StatusRoundTrip(st, []);
    MapComplete(StatusEntries(st));
  }

  lemma NestedComplete(h: bytes, body: bytes, n: nat)
    requires HeadOf(h + body) == Nest(|h|, n) && SkipMany(body, n) == Some(|body|)
    ensures Complete(h + body)
  {
    hide HeadOf, Skip, SkipMany;
    NestComplete(h + body, h, body, n);
  }

  lemma ArrayComplete(ws: seq<bytes>)
    requires |ws| <= 0xffff && forall w :: w in ws ==> Complete(w)
    ensures Complete(EncArrayHeader(|ws|) + S.Join(ws))
  {
    hide HeadOf, Skip, SkipMany, EncHeader, S.Join;
    var body := S.Join(ws);
    ContainerHead(|ws|, body);
    SkipJoined(ws, []);
    assert body + [] == body;
    NestedComplete(EncArrayHeader(|ws|), body, |ws|);
  }

  lemma JoinFew(ws: seq<bytes>)
    ensures |ws| == 0 ==> S.Join(ws) == []
    ensures |ws| == 1 ==> S.Join(ws) == ws[0]
    ensures |ws| == 2 ==> S.Join(ws) == ws[0] + ws[1]
    ensures |ws| == 3 ==> S.Join(ws) == ws[0] + (ws[1] + ws[2])
    ensures |ws| == 4 ==> S.Join(ws) == ws[0] + (ws[1] + (ws[2] + ws[3]))
  {
    if 2 <= |ws| <= 4 { JoinFew(ws[1..]); }
    if |ws| == 1 { assert S.Join(ws[1..]) == []; }
  }

  lemma ScalarComplete(v: i64, b: bytes, flag: bool)
    requires |b| <= 0xffff
    ensures Complete(EncInt(v)) && Complete(EncStr(b)) && Complete(EncBin(b)) && Complete(EncBool(flag))
    ensures Complete([NIL])
  {
    ScalarsComplete(v, b);
    EncComplete(VBin(b), []);
    EncComplete(VBool(flag), []);
    EncComplete(VNil, []);
    assert EncBin(b) + [] == EncBin(b) && EncBool(flag) + [] == EncBool(flag) && [NIL] + [] == [NIL];
  }

  lemma NotifyComplete(name: string, ps: seq<bytes>)
    requires |name| <= 0xffff && |ps| <= 0xffff && forall w :: w in ps ==> Complete(w)
    ensures Complete(Notify(name, |ps|, S.Join(ps)))
  {
    hide Skip, EncInt, EncStr, EncHeader, Ascii;
    var inner := EncArrayHeader(|ps|) + S.Join(ps);
    ArrayComplete(ps);
    ScalarsComplete(NOTIFICATION, Ascii(name));
    var ws := [EncInt(NOTIFICATION), EncStr(Ascii(name)), inner];
    ArrayComplete(ws);
    JoinFew(ws);
  }

  lemma {:induction false} AddrsComplete(xs: seq<u8>)
    requires |xs| <= 0xffff
    ensures Complete(EncArrayHeader(|xs|) + EncInts(xs))
  {
    hide Skip, EncInt, EncHeader;
    var ws := seq(|xs|, i requires 0 <= i < |xs| => EncInt(xs[i]));
    AddrsJoined(xs, ws);
    forall w | w in ws ensures Complete(w) {
      var i :| 0 <= i < |ws| && ws[i] == w;
      ScalarsComplete(xs[i], []);
    }
    ArrayComplete(ws);
  }

  lemma {:induction false} AddrsJoined(xs: seq<u8>, ws: seq<bytes>)
    requires |ws| == |xs| && forall i :: 0 <= i < |xs| ==> ws[i] == EncInt(xs[i])
    ensures S.Join(ws) == EncInts(xs)
    decreases |xs|
  {
    hide EncInt;
    if xs != [] { AddrsJoined(xs[1..], ws[1..]); }
  }

  lemma CallComplete(m: Msg)
    requires Encodes(m) && (m.GetStatusCall? || m.GetStatusResponse?)
    ensures Complete(Wire(m))
  {
    hide Skip, EncInt, EncStr, EncHeader, EncMap, Ascii;
    ScalarComplete(m.msgId, Ascii("get_status"), false);
    ScalarComplete(REQUEST, [], false);
    ScalarComplete(RESPONSE, [], false);
    ArrayComplete([]);
    var ws := [];
    if m.GetStatusCall? {
      assert EncArrayHeader(0) + S.Join([]) == EncArrayHeader(0);
      ws := [EncInt(REQUEST), EncInt(m.msgId), EncStr(Ascii("get_status")), EncArrayHeader(0)];
    } else {
      StatusMapComplete(m.st);
      ws := [EncInt(RESPONSE), EncInt(m.msgId), [NIL], EncMap(StatusEntries(m.st))];
    }
    JoinFew(ws);
    ArrayComplete(ws);
  }

  /** The pieces of a notification's parameter list. */
  function Params(m: Msg): (r: (string, seq<bytes>))
    requires Encodes(m) && !m.GetStatusCall? && !m.GetStatusResponse?
    ensures |r.0| <= 31 && |r.1| <= 3
  {
    match m
    case PodReport(addr, report) => ("pod_report", [EncInt(addr), EncBin(report)])
    case PodMissing(addr) => ("pod_missing", [EncInt(addr)])
    case SweepDone(a, b, c) => ("sweep_done", [EncInt(a), EncInt(b), EncInt(c)])
    case NeighbourPacket(packet) => ("neighbour_packet", [EncBin(packet)])
    case TimeSync(utc, state) => ("time_sync", [EncInt(ToI64(utc)), EncStr(state)])
    case NodeStatus(st) => ("node_status", [EncMap(StatusEntries(st))])
    case SetAlert(level, seconds) => ("set_alert", [EncInt(level), EncInt(seconds)])
    case SetCadence(seconds) => ("set_cadence", [EncInt(seconds)])
    case SetPods(addrs) => ("set_pods", [EncArrayHeader(|addrs|) + EncInts(addrs)])
    case SetArmed(armed) => ("set_armed", [EncBool(armed)])
    case SetEmbedding(emb) => ("set_embedding", [EncBin(emb)])
  }

  lemma ParamsComplete(m: Msg)
    requires Encodes(m) && !m.GetStatusCall? && !m.GetStatusResponse?
    ensures forall w :: w in Params(m).1 ==> Complete(w)
  {
    hide Skip, EncInt, EncStr, EncBin, EncBool, EncHeader, EncMap, EncInts, StatusEntries, WellFormed;
    match m
    case PodReport(addr, report) => ScalarComplete(addr, report, false);
    case PodMissing(addr) => ScalarComplete(addr, [], false);
    case SweepDone(a, b, c) =>
      ScalarComplete(a, [], false);
      ScalarComplete(b, [], false);
      ScalarComplete(c, [], false);
    case NeighbourPacket(packet) => ScalarComplete(0, packet, false);
    case TimeSync(utc, state) => ScalarComplete(ToI64(utc), state, false);
    case NodeStatus(st) =>
      StatusMapComplete(st);
    case SetAlert(level, seconds) =>
      ScalarComplete(level, [], false);
      ScalarComplete(seconds, [], false);
    case SetCadence(seconds) => ScalarComplete(seconds, [], false);
    case SetPods(addrs) => AddrsComplete(addrs);
    case SetArmed(armed) => ScalarComplete(0, [], armed);
    case SetEmbedding(emb) => ScalarComplete(0, emb, false);
  }

  /** Every message any encoder produces is exactly one self-delimiting value. */
  lemma WireComplete(m: Msg)
    requires Encodes(m)
    ensures Complete(Wire(m))
  {
    hide Skip, EncInt, EncStr, EncBin, EncBool, EncHeader, EncMap, EncInts, StatusEntries, Notify;
    if m.GetStatusCall? || m.GetStatusResponse? {
      CallComplete(m);
    } else {
      ParamsComplete(m);
      JoinFew(Params(m).1);
      NotifyComplete(Params(m).0, Params(m).1);
    }
  }

  // ------------------------------------------------------------- across the UART

  function Wires(ms: seq<Msg>): (ws: seq<bytes>)
    requires forall m :: m in ms ==> Encodes(m)
    ensures |ws| == |ms| && forall i :: 0 <= i < |ms| ==> ws[i] == Wire(ms[i])
  {
    seq(|ms|, i requires 0 <= i < |ms| => Wire(ms[i]))
  }

  /** The pieces of a stream are those messages in that order, with stray octets anywhere between them. */
  ghost predicate Carries(ws: seq<bytes>, ms: seq<Msg>)
    requires forall m :: m in ms ==> Encodes(m)
  {
    S.Spoken(ws) == Wires(ms) && forall w :: w in ws ==> S.Noise(w) || w in Wires(ms)
  }

  /**
   Whatever messages one side encodes, whatever stray octets get in between them, and however the
   UART cuts their bytes up, the other side decodes exactly those messages, in that order, and ends
   with nothing left over.
   */
  lemma EndToEnd(ms: seq<Msg>, ws: seq<bytes>, chunks: seq<bytes>, n: nat) returns (got: seq<bytes>)
    requires forall m :: m in ms ==> Encodes(m) && Deliverable(m) && |Wire(m)| <= S.ACC_MAX
    requires Carries(ws, ms) && S.Join(chunks) == S.Join(ws) && n >= |S.Join(ws)| && S.Quiet(chunks, n)
    ensures S.Run(S.Link([], []), chunks) == (S.Link([], []), got)
    ensures |got| == |ms| && forall i :: 0 <= i < |ms| ==> Decode(got[i]) == Some(ms[i])
  {
    hide Skip, Wire, Decode, S.Noise, S.Spoken;
    got := Wires(ms);
    forall w | w in got ensures Complete(w) && |w| <= S.ACC_MAX {
      var i :| 0 <= i < |got| && got[i] == w;
      assert ms[i] in ms;
      WireComplete(ms[i]);
    }
    S.Delivery(ws, chunks, n);
    forall i | 0 <= i < |ms| ensures Decode(got[i]) == Some(ms[i]) {
      assert ms[i] in ms;
      DecodeInvertsEncode(ms[i]);
    }
  }

  /** Without stray octets the pieces are the encodings themselves. */
  lemma CleanlyCarried(ms: seq<Msg>)
    requires forall m :: m in ms ==> Encodes(m)
    ensures Carries(Wires(ms), ms)
  {
    hide Skip, Wire, S.Noise;
    forall w | w in Wires(ms) ensures Complete(w) {
      var i :| 0 <= i < |ms| && Wires(ms)[i] == w;
      assert ms[i] in ms;
      WireComplete(ms[i]);
    }
    S.CleanStream(Wires(ms));
  }

  // -------------------------------------------------------------- buffers in main.c

  const POD_REPORT_BUF: nat := 216
  const NEIGHBOUR_BUF: nat := 272

  /**
   emit_pod_report's 16 + 200 byte buffer: it takes 199 report bytes for an address that fits a
   fixint and 195 for the others, so a report of the full 200 bytes is always dropped.
   */
  lemma PodReportFits(addr: u8, report: bytes)
    requires |report| <= MAX_REPORT
    ensures |Wire(PodReport(addr, report))| <= POD_REPORT_BUF <==> |report| <= if addr <= 127 then 199 else 195
  {
  }

  /** The same for a raw mesh packet of up to 256 bytes: at most 250 get through. */
  lemma NeighbourPacketFits(packet: bytes)
    requires |packet| <= 256
    ensures |Wire(NeighbourPacket(packet))| <= NEIGHBOUR_BUF <==> |packet| <= 250
  {
  }
}
