/**
 The bridge contract (bridge_contract.c) as mathematics: the byte string of every message,
 what the decoder makes of a byte string, and that the two are inverse. The methods that
 build and take apart the buffers are in BridgeContract.dfy.
 */
module BridgeMessages {
  import opened Bytes
  import opened MsgPack

  const MAX_ADDRS: nat := 16
  const MAX_EMB: nat := 32
  const MAX_REPORT: nat := 200
  const MAX_STR: nat := 15
  const REQUEST: i64 := 0
  const RESPONSE: i64 := 1
  const NOTIFICATION: i64 := 2

  /** C strings are their bytes up to the NUL. */
  datatype Status = Status(sweeps: u32, pods: u32, pps: bytes, driftPpm: i32, battMv: u32)

  const ZERO_STATUS: Status := Status(0, 0, [], 0, 0)

  datatype Msg =
    | Unrecognised(msgId: u32)
    | PodReport(addr: u8, report: bytes)
    | PodMissing(addr: u8)
    | SweepDone(sweep: u32, present: u32, total: u32)
    | NeighbourPacket(packet: bytes)
    | TimeSync(utcMs: u64, state: bytes)
    | NodeStatus(st: Status)
    | SetAlert(level: u8, seconds: u32)
    | SetCadence(seconds: u32)
    | SetPods(addrs: seq<u8>)
    | SetArmed(armed: bool)
    | SetEmbedding(emb: bytes)
    | GetStatusCall(msgId: u32)
    | GetStatusResponse(msgId: u32, error: bool, st: Status)

  function Ascii(name: string): (b: bytes)
    ensures |b| == |name|
  {
    seq(|name|, i requires 0 <= i < |name| => name[i] as int % 256)
  }

  /** method_eq: same length, same bytes. */
  predicate Is(b: bytes, name: string) { b == Ascii(name) }

  // ------------------------------------------------------------------- encodings

  function Notify(name: string, n: nat, params: bytes): bytes
    requires |name| <= 0xffff && n <= 0xffff
  {
    EncArrayHeader(3) + (EncInt(NOTIFICATION) + (EncStr(Ascii(name)) + (EncArrayHeader(n) + params)))
  }

  /** The arguments each encoder's C signature and size checks let through. */
  predicate Encodes(m: Msg) {
    match m
    case Unrecognised(_) => false
    case PodReport(_, report) => |report| <= MAX_REPORT
    case NeighbourPacket(packet) => |packet| <= 0xffff
    case TimeSync(_, state) => |state| <= 0xffff
    case NodeStatus(st) => |st.pps| <= MAX_STR
    case SetPods(addrs) => |addrs| <= 0xffff
    case SetEmbedding(emb) => |emb| <= 0xffff
    case GetStatusResponse(_, error, st) => !error && |st.pps| <= MAX_STR
    case _ => true
  }

  function EncInts(xs: seq<u8>): bytes {
    if xs == [] then [] else EncInt(xs[0]) + EncInts(xs[1..])
  }

  /** A status map entry: its key, then the encoded value. */
  datatype Entry = Entry(key: bytes, val: bytes)

  function EncEntries(es: seq<Entry>): bytes
    requires forall e :: e in es ==> |e.key| <= 0xffff
  {
    if es == [] then [] else EncStr(es[0].key) + (es[0].val + EncEntries(es[1..]))
  }

  function StatusEntries(st: Status): seq<Entry>
    requires |st.pps| <= MAX_STR
  {
    [Entry(Ascii("sweeps"), EncInt(st.sweeps)), Entry(Ascii("pods"), EncInt(st.pods)),
     Entry(Ascii("pps"), EncStr(st.pps)), Entry(Ascii("drift_ppm"), EncInt(st.driftPpm)),
     Entry(Ascii("batt_mv"), EncInt(st.battMv))]
  }

  function EncMap(es: seq<Entry>): bytes
    requires |es| <= 0xffff && forall e :: e in es ==> |e.key| <= 0xffff
  {
    EncMapHeader(|es|) + EncEntries(es)
  }

  /** The encoding of every message, over the whole range of its encoder. */
  function Wire(m: Msg): bytes
    requires Encodes(m)
  {
    match m
    case PodReport(addr, report) => Notify("pod_report", 2, EncInt(addr) + EncBin(report))
    case PodMissing(addr) => Notify("pod_missing", 1, EncInt(addr))
    case SweepDone(a, b, c) => Notify("sweep_done", 3, EncInt(a) + (EncInt(b) + EncInt(c)))
    case NeighbourPacket(packet) => Notify("neighbour_packet", 1, EncBin(packet))
    case TimeSync(utc, state) => Notify("time_sync", 2, EncInt(ToI64(utc)) + EncStr(state))
    case NodeStatus(st) => Notify("node_status", 1, EncMap(StatusEntries(st)))
    case SetAlert(level, seconds) => Notify("set_alert", 2, EncInt(level) + EncInt(seconds))
    case SetCadence(seconds) => Notify("set_cadence", 1, EncInt(seconds))
    case SetPods(addrs) => Notify("set_pods", 1, EncArrayHeader(|addrs|) + EncInts(addrs))
    case SetArmed(armed) => Notify("set_armed", 1, EncBool(armed))
    case SetEmbedding(emb) => Notify("set_embedding", 1, EncBin(emb))
    case GetStatusCall(id) =>
      EncArrayHeader(4) + (EncInt(REQUEST) + (EncInt(id) + (EncStr(Ascii("get_status")) + EncArrayHeader(0))))
    case GetStatusResponse(id, _, st) =>
      EncArrayHeader(4) + (EncInt(RESPONSE) + (EncInt(id) + ([NIL] + EncMap(StatusEntries(st)))))
  }

  // --------------------------------------------------------------------- decoder

  predicate KnownKey(key: bytes) {
    Is(key, "sweeps") || Is(key, "pods") || Is(key, "pps") || Is(key, "drift_ppm") || Is(key, "batt_mv")
  }

  function SetField(key: bytes, v: i64, st: Status): Status {
    if Is(key, "sweeps") then st.(sweeps := ToU32(v))
    else if Is(key, "pods") then st.(pods := ToU32(v))
    else if Is(key, "drift_ppm") then st.(driftPpm := ToI32(ToU32(v)))
    else st.(battMv := ToU32(v))
  }

  function Clip(s: bytes): (r: bytes)
    ensures |r| <= MAX_STR
  {
    if |s| > MAX_STR then s[..MAX_STR] else s
  }

  /** One value of a status map: the new status and the bytes used. */
  function TakeValue(key: bytes, s: bytes, st: Status): (r: Got<Status>)
    ensures r.Got? ==> 1 <= r.used <= |s|
  {
    if Is(key, "pps") then
      var g := GetStr(s);
      if g.Fail? then Fail else Got(st.(pps := Clip(g.v)), g.used)
    else if KnownKey(key) then
      var g := GetInt(s);
      if g.Fail? then Fail else Got(SetField(key, g.v, st), g.used)
    else
      var k := Skip(s);
      if k.None? then Fail else Got(st, k.value)
  }

  /** The loop of decode_status_map over `n` entries. */
  function TakeEntries(s: bytes, n: nat, st: Status): Option<Status>
    decreases n
  {
    if n == 0 then Some(st)
    else
      var k := GetStr(s);
      if k.Fail? then None
      else
        var g := TakeValue(k.v, s[k.used..], st);
        if g.Fail? then None else TakeEntries(s[k.used..][g.used..], n - 1, g.v)
  }

  function DecodeStatus(s: bytes): Option<Status> {
    var h := GetMapHeader(s);
    if h.Fail? then None else TakeEntries(s[h.used..], h.v, ZERO_STATUS)
  }

  function TakeAddrs(s: bytes, n: nat): Option<seq<u8>>
    decreases n
  {
    if n == 0 then Some([])
    else
      var g := GetInt(s);
      if g.Fail? then None
      else
        var r := TakeAddrs(s[g.used..], n - 1);
        if r.None? then None else Some([g.v % 256] + r.value)
  }

  function PodReportParams(s: bytes): Option<Msg> {
    var addr := GetInt(s);
    if addr.Fail? then None
    else
      var rep := GetBin(s[addr.used..]);
      if rep.Fail? || |rep.v| > MAX_REPORT then None else Some(PodReport(addr.v % 256, rep.v))
  }

  function SweepDoneParams(s: bytes): Option<Msg> {
    var a := GetInt(s);
    if a.Fail? then None
    else
      var b := GetInt(s[a.used..]);
      if b.Fail? then None
      else
        var c := GetInt(s[a.used..][b.used..]);
        if c.Fail? then None else Some(SweepDone(ToU32(a.v), ToU32(b.v), ToU32(c.v)))
  }

  function TimeSyncParams(s: bytes): Option<Msg> {
    var utc := GetInt(s);
    if utc.Fail? then None
    else
      var state := GetStr(s[utc.used..]);
      if state.Fail? then None else Some(TimeSync(ToU64(utc.v), Clip(state.v)))
  }

  function SetAlertParams(s: bytes): Option<Msg> {
    var level := GetInt(s);
    if level.Fail? then None
    else
      var sec := GetInt(s[level.used..]);
      if sec.Fail? then None else Some(SetAlert(level.v % 256, ToU32(sec.v)))
  }

  function SetPodsParams(s: bytes): Option<Msg> {
    var h := GetArrayHeader(s);
    if h.Fail? || h.v > MAX_ADDRS then None
    else
      var addrs := TakeAddrs(s[h.used..], h.v);
      if addrs.None? then None else Some(SetPods(addrs.value))
  }

  function NodeStatusParams(s: bytes): Option<Msg> {
    var st := DecodeStatus(s);
    if st.None? then None else Some(NodeStatus(st.value))
  }

  function IntParam(s: bytes): Option<i64> {
    var g := GetInt(s);
    if g.Fail? then None else Some(g.v)
  }

  function BinParam(s: bytes, max: nat): Option<bytes> {
    var g := GetBin(s);
    if g.Fail? || |g.v| > max then None else Some(g.v)
  }

  /** decode_notification_params, after the parameter count `n` has been read. */
  function DecodeParams(name: bytes, n: nat, s: bytes): Option<Msg> {
    if Is(name, "pod_report") && n == 2 then PodReportParams(s)
    else if Is(name, "pod_missing") && n == 1 then
      var v := IntParam(s); if v.None? then None else Some(PodMissing(v.value % 256))
    else if Is(name, "sweep_done") && n == 3 then SweepDoneParams(s)
    else if Is(name, "neighbour_packet") && n == 1 then
      var v := BinParam(s, 0xffff); if v.None? then None else Some(NeighbourPacket(v.value))
    else if Is(name, "time_sync") && n == 2 then TimeSyncParams(s)
    else if Is(name, "node_status") && n == 1 then NodeStatusParams(s)
    else if Is(name, "set_alert") && n == 2 then SetAlertParams(s)
    else if Is(name, "set_cadence") && n == 1 then
      var v := IntParam(s); if v.None? then None else Some(SetCadence(ToU32(v.value)))
    else if Is(name, "set_pods") && n == 1 then SetPodsParams(s)
    else if Is(name, "set_armed") && n == 1 then
      var v := GetBool(s); if v.Fail? then None else Some(SetArmed(v.v))
    else if Is(name, "set_embedding") && n == 1 then
      var v := BinParam(s, MAX_EMB); if v.None? then None else Some(SetEmbedding(v.value))
    else if SkipMany(s, n).None? then None
    else Some(Unrecognised(0))
  }

  function DecodeRequest(s: bytes): Option<Msg> {
    var id := GetInt(s);
    if id.Fail? then None
    else
      var name := GetStr(s[id.used..]);
      if name.Fail? then None
      else
        var t := s[id.used..][name.used..];
        var h := GetArrayHeader(t);
        if h.Fail? || SkipMany(t[h.used..], h.v).None? then None
        else if Is(name.v, "get_status") && h.v == 0 then Some(GetStatusCall(ToU32(id.v)))
        else Some(Unrecognised(ToU32(id.v)))
  }

  function DecodeResponse(s: bytes): Option<Msg> {
    var id := GetInt(s);
    if id.Fail? then None
    else
      var t := s[id.used..];
      if |t| > 0 && t[0] == NIL then
        var st := DecodeStatus(t[1..]);
        if st.None? then None else Some(GetStatusResponse(ToU32(id.v), false, st.value))
      else if SkipMany(t, 2).None? then None
      else Some(GetStatusResponse(ToU32(id.v), true, ZERO_STATUS))
  }

  function DecodeNotification(s: bytes): Option<Msg> {
    var name := GetStr(s);
    if name.Fail? then None
    else
      var t := s[name.used..];
      var h := GetArrayHeader(t);
      if h.Fail? then None else DecodeParams(name.v, h.v, t[h.used..])
  }

  /** bc_decode. */
  function Decode(s: bytes): Option<Msg> {
    var h := GetArrayHeader(s);
    if h.Fail? then None
    else
      var tag := GetInt(s[h.used..]);
      if tag.Fail? then None
      else
        var t := s[h.used..][tag.used..];
        if tag.v == NOTIFICATION && h.v == 3 then DecodeNotification(t)
        else if tag.v == REQUEST && h.v == 4 then DecodeRequest(t)
        else if tag.v == RESPONSE && h.v == 4 then DecodeResponse(t)
        else None
  }

  // ------------------------------------------------------------- reading step by step

  lemma ReadInt(v: i64, t: bytes)
    ensures GetInt(EncInt(v) + t) == Got(v, |EncInt(v)|) && (EncInt(v) + t)[|EncInt(v)|..] == t
  {
    GetIntRoundTrip(v, t);
  }

  lemma ReadStr(b: bytes, t: bytes)
    requires |b| <= 0xffff
    ensures GetStr(EncStr(b) + t) == Got(b, |EncStr(b)|) && (EncStr(b) + t)[|EncStr(b)|..] == t
  {
    GetStrRoundTrip(b, t);
  }

  lemma ReadBin(b: bytes, t: bytes)
    requires |b| <= 0xffff
    ensures GetBin(EncBin(b) + t) == Got(b, |EncBin(b)|) && (EncBin(b) + t)[|EncBin(b)|..] == t
  {
    GetBinRoundTrip(b, t);
  }

  lemma ReadArrayHeader(n: nat, t: bytes)
    requires n <= 0xffff
    ensures GetArrayHeader(EncArrayHeader(n) + t) == Got(n, |EncArrayHeader(n)|)
    ensures (EncArrayHeader(n) + t)[|EncArrayHeader(n)|..] == t
  {
    GetHeaderRoundTrip(n, 0x90, ARRAY16, t);
  }

  lemma ReadMapHeader(n: nat, t: bytes)
    requires n <= 0xffff
    ensures GetMapHeader(EncMapHeader(n) + t) == Got(n, |EncMapHeader(n)|)
    ensures (EncMapHeader(n) + t)[|EncMapHeader(n)|..] == t
  {
    GetHeaderRoundTrip(n, 0x80, MAP16, t);
  }

  lemma ReadNotify(name: string, n: nat, params: bytes)
    requires |name| <= 0xffff && n <= 0xffff
    ensures Decode(Notify(name, n, params)) == DecodeParams(Ascii(name), n, params)
  {
    hide GetInt, GetStr, EncInt, EncStr, Ascii, GetHeader, EncHeader, DecodeParams;
    var t3 := EncArrayHeader(n) + params;
    var t2 := EncStr(Ascii(name)) + t3;
    var t1 := EncInt(NOTIFICATION) + t2;
    ReadArrayHeader(3, t1);
    ReadInt(NOTIFICATION, t2);
    ReadStr(Ascii(name), t3);
    ReadArrayHeader(n, params);
  }

  lemma Differ(a: string, b: string, i: nat)
    requires i < |a| == |b| && a[i] as int % 256 != b[i] as int % 256
    ensures !Is(Ascii(a), b)
  {
    assert Ascii(a)[i] != Ascii(b)[i];
  }

  /** Method names of equal length are still different names. */
  lemma NamesDiffer()
    ensures !Is(Ascii("sweep_done"), "pod_report")
    ensures !Is(Ascii("node_status"), "pod_missing") && !Is(Ascii("set_cadence"), "pod_missing")
    ensures !Is(Ascii("set_cadence"), "node_status")
    ensures !Is(Ascii("set_alert"), "time_sync") && !Is(Ascii("set_armed"), "time_sync")
    ensures !Is(Ascii("set_armed"), "set_alert")
  {
    Differ("sweep_done", "pod_report", 0);
    Differ("node_status", "pod_missing", 0);
    Differ("set_cadence", "pod_missing", 0);
    Differ("set_cadence", "node_status", 0);
    Differ("set_alert", "time_sync", 0);
    Differ("set_armed", "time_sync", 0);
    Differ("set_armed", "set_alert", 5);
  }

  // --------------------------------------------------------------------- status maps

  /** What a status map means: its entries applied in order, the last one for a key winning. */
  function ApplyAll(es: seq<Entry>, st: Status): Option<Status> {
    if es == [] then Some(st)
    else
      var g := TakeValue(es[0].key, es[0].val, st);
      if g.Fail? then None else ApplyAll(es[1..], g.v)
  }

  predicate WellFormed(es: seq<Entry>) {
    forall e :: e in es ==> |e.key| <= 0xffff && Complete(e.val)
  }

  /** What follows a complete value does not change how it is read. */
  lemma TakeValueLocal(key: bytes, val: bytes, t: bytes, st: Status)
    requires Complete(val)
    ensures TakeValue(key, val + t, st) == TakeValue(key, val, st)
    ensures TakeValue(key, val, st).Got? ==> TakeValue(key, val, st).used == |val|
  {
    SkipExtends(val, t);
    HeadExtends(val, t);
    if HeadOf(val).Leaf? { LeafReads(val, t); }
  }

  lemma LeafReads(val: bytes, t: bytes)
    requires HeadOf(val) == Leaf(|val|)
    ensures GetInt(val + t) == GetInt(val) && (GetInt(val).Got? ==> GetInt(val).used == |val|)
    ensures GetStr(val + t) == GetStr(val) && (GetStr(val).Got? ==> GetStr(val).used == |val|)
  {
    var s := val + t;
    if |val| >= 3 { assert s[1..3] == val[1..3]; }
    if UINT8 <= val[0] <= INT64 {
      var n := IntWidth(val[0]);
      assert s[1..1 + n] == val[1..1 + n];
    }
    if IsStrTag(val[0]) {
      var h := StrHead(val).value;
      assert s[h.0..h.0 + h.1] == val[h.0..h.0 + h.1];
    }
  }

  lemma {:induction false} TakeEntriesMeaning(es: seq<Entry>, t: bytes, st: Status)
    requires WellFormed(es)
    ensures TakeEntries(EncEntries(es) + t, |es|, st) == ApplyAll(es, st)
    decreases |es|
  {
    hide TakeValue, GetStr, EncStr, Skip;
    if es != [] {
      var e, rest := es[0], EncEntries(es[1..]) + t;
      assert EncEntries(es) + t == EncStr(e.key) + (e.val + rest);
      ReadStr(e.key, e.val + rest);
      TakeValueLocal(e.key, e.val, rest, st);
      var g := TakeValue(e.key, e.val, st);
      if g.Got? {
        assert (e.val + rest)[g.used..] == rest;
        TakeEntriesMeaning(es[1..], t, g.v);
      }
    }
  }

  lemma StatusMapMeaning(es: seq<Entry>, t: bytes)
    requires WellFormed(es) && |es| <= 0xffff
    ensures DecodeStatus(EncMap(es) + t) == ApplyAll(es, ZERO_STATUS)
  {
    hide GetHeader, EncHeader, TakeEntries, EncEntries, ApplyAll;
    assert EncMap(es) + t == EncMapHeader(|es|) + (EncEntries(es) + t);
    ReadMapHeader(|es|, EncEntries(es) + t);
    TakeEntriesMeaning(es, t, ZERO_STATUS);
  }

  lemma {:induction false} ApplyAppend(a: seq<Entry>, b: seq<Entry>, st: Status)
    ensures ApplyAll(a + b, st) ==
      if ApplyAll(a, st).None? then None else ApplyAll(b, ApplyAll(a, st).value)
    decreases |a|
  {
    if a == [] {
      assert a + b == b;
    } else {
      assert (a + b)[1..] == a[1..] + b;
      var g := TakeValue(a[0].key, a[0].val, st);
      if g.Got? { ApplyAppend(a[1..], b, g.v); }
    }
  }

  lemma Around(a: seq<Entry>, e: Entry, b: seq<Entry>)
    requires WellFormed(a + [e] + b)
    ensures WellFormed(a + b) && Complete(e.val)
  {
    assert forall x :: x in a + b ==> x in a + [e] + b;
    assert e in a + [e] + b;
  }

  lemma ApplyAround(a: seq<Entry>, e: Entry, b: seq<Entry>, st: Status)
    requires !KnownKey(e.key) && Complete(e.val)
    ensures ApplyAll(a + [e] + b, st) == ApplyAll(a + b, st)
  {
    assert a + [e] + b == a + ([e] + b) && ([e] + b)[1..] == b;
    ApplyAppend(a, [e] + b, st);
    ApplyAppend(a, b, st);
  }

  /** A status map is forward compatible: an unknown key, wherever it stands, changes nothing. */
  lemma UnknownKeyIgnored(a: seq<Entry>, e: Entry, b: seq<Entry>, t: bytes)
    requires WellFormed(a + [e] + b) && |a| + 1 + |b| <= 0xffff && !KnownKey(e.key)
    ensures WellFormed(a + b)
    ensures DecodeStatus(EncMap(a + [e] + b) + t) == DecodeStatus(EncMap(a + b) + t)
  {
    Around(a, e, b);
    StatusMapMeaning(a + [e] + b, t);
    StatusMapMeaning(a + b, t);
    ApplyAround(a, e, b, ZERO_STATUS);
  }

  lemma ScalarsComplete(v: i64, s: bytes)
    requires |s| <= 0xffff
    ensures Complete(EncInt(v)) && Complete(EncStr(s))
  {
    EncComplete(VInt(v), []);
    EncComplete(VStr(s), []);
    assert EncInt(v) + [] == EncInt(v) && EncStr(s) + [] == EncStr(s);
  }

  lemma ReadFields(st: Status, s0: Status)
    ensures TakeValue(Ascii("sweeps"), EncInt(st.sweeps), s0) == Got(s0.(sweeps := st.sweeps), |EncInt(st.sweeps)|)
    ensures TakeValue(Ascii("pods"), EncInt(st.pods), s0) == Got(s0.(pods := st.pods), |EncInt(st.pods)|)
    ensures TakeValue(Ascii("drift_ppm"), EncInt(st.driftPpm), s0)
      == Got(s0.(driftPpm := st.driftPpm), |EncInt(st.driftPpm)|)
    ensures TakeValue(Ascii("batt_mv"), EncInt(st.battMv), s0) == Got(s0.(battMv := st.battMv), |EncInt(st.battMv)|)
  {
    hide EncInt, GetInt;
    LastInt(st.sweeps);
    LastInt(st.pods);
    LastInt(st.driftPpm);
    LastInt(st.battMv);
  }

  lemma ApplyCons(es: seq<Entry>, k: nat, st: Status, st': Status)
    requires k < |es| && TakeValue(es[k].key, es[k].val, st).Got?
    requires TakeValue(es[k].key, es[k].val, st).v == st'
    ensures ApplyAll(es[k..], st) == ApplyAll(es[k + 1..], st')
  {
    assert es[k..][1..] == es[k + 1..];
  }

  lemma StatusRoundTrip(st: Status, t: bytes)
    requires |st.pps| <= MAX_STR
    ensures WellFormed(StatusEntries(st))
    ensures DecodeStatus(EncMap(StatusEntries(st)) + t) == Some(st)
  {
    hide WellFormed, EncMap, DecodeStatus, ApplyAll;
    StatusValuesComplete(st);
    StatusMapMeaning(StatusEntries(st), t);
    FieldsApplied(st);
  }

  /** The five entries, one after the other, fill in the five fields. */
  lemma FieldsApplied(st: Status)
    requires |st.pps| <= MAX_STR
    ensures ApplyAll(StatusEntries(st), ZERO_STATUS) == Some(st)
  {
    hide TakeValue, Ascii, EncInt, EncStr, ApplyAll;
    var es := StatusEntries(st);
    var s1 := ZERO_STATUS.(sweeps := st.sweeps);
    var s2 := s1.(pods := st.pods);
    var s3 := s2.(pps := st.pps);
    var s4 := s3.(driftPpm := st.driftPpm);
    assert es[0..] == es;
    ReadFields(st, ZERO_STATUS);
    ApplyCons(es, 0, ZERO_STATUS, s1);
    ReadFields(st, s1);
    ApplyCons(es, 1, s1, s2);
    ReadPps(st.pps, s2);
    ApplyCons(es, 2, s2, s3);
    ReadFields(st, s3);
    ApplyCons(es, 3, s3, s4);
    ReadFields(st, s4);
    ApplyCons(es, 4, s4, st);
    NothingApplied(es[5..], st);
  }

  lemma NothingApplied(es: seq<Entry>, st: Status)
    requires es == []
    ensures ApplyAll(es, st) == Some(st)
  {
  }

  lemma ReadPps(pps: bytes, st: Status)
    requires |pps| <= MAX_STR
    ensures TakeValue(Ascii("pps"), EncStr(pps), st) == Got(st.(pps := pps), |EncStr(pps)|)
  {
    ReadStr(pps, []);
    assert EncStr(pps) + [] == EncStr(pps);
  }

  lemma StatusValuesComplete(st: Status)
    requires |st.pps| <= MAX_STR
    ensures WellFormed(StatusEntries(st))
  {
    ScalarsComplete(st.sweeps, st.pps);
    ScalarsComplete(st.pods, []);
    ScalarsComplete(st.driftPpm, []);
    ScalarsComplete(st.battMv, []);
  }

  // ------------------------------------------------------------------- every message

  lemma {:induction false} ReadAddrs(xs: seq<u8>, t: bytes)
    ensures TakeAddrs(EncInts(xs) + t, |xs|) == Some(xs)
    decreases |xs|
  {
    hide GetInt, EncInt;
    if xs != [] {
      assert EncInts(xs) + t == EncInt(xs[0]) + (EncInts(xs[1..]) + t);
      ReadInt(xs[0], EncInts(xs[1..]) + t);
      ReadAddrs(xs[1..], t);
      assert (EncInts(xs) + t)[|EncInt(xs[0])|..] == EncInts(xs[1..]) + t;
      assert xs == [xs[0]] + xs[1..];
    }
  }

  /** What the decoder makes of an encoded message: the message, within the decoder's limits. */
  function Received(m: Msg): Option<Msg>
    requires Encodes(m)
  {
    match m
    case TimeSync(utc, state) => Some(TimeSync(utc, Clip(state)))
    case SetPods(addrs) => if |addrs| <= MAX_ADDRS then Some(m) else None
    case SetEmbedding(emb) => if |emb| <= MAX_EMB then Some(m) else None
    case GetStatusResponse(id, _, st) => Some(GetStatusResponse(id, false, st))
    case _ => Some(m)
  }

  lemma SensingRoundTrip(m: Msg)
    requires m.PodReport? || m.PodMissing? || m.SweepDone?
    requires Encodes(m)
    ensures Decode(Wire(m)) == Received(m)
  {
    hide GetInt, GetStr, GetBin, EncInt, EncStr, EncBin, Ascii, GetHeader, EncHeader, Notify, Decode;
    NamesDiffer();
    match m
    case PodReport(addr, report) =>
      ReadNotify("pod_report", 2, EncInt(addr) + EncBin(report));
      ReadInt(addr, EncBin(report));
      LastBin(report);
    case PodMissing(addr) =>
      ReadNotify("pod_missing", 1, EncInt(addr));
      LastInt(addr);
    case SweepDone(a, b, c) =>
      ReadNotify("sweep_done", 3, EncInt(a) + (EncInt(b) + EncInt(c)));
      ReadInt(a, EncInt(b) + EncInt(c));
      ReadInt(b, EncInt(c));
      LastInt(c);
  }

  lemma LinkRoundTrip(m: Msg)
    requires m.NeighbourPacket? || m.TimeSync? || m.NodeStatus?
    requires Encodes(m)
    ensures Decode(Wire(m)) == Received(m)
  {
    hide GetInt, GetStr, GetBin, EncInt, EncStr, EncBin, Ascii, GetHeader, EncHeader, Notify, Decode;
    NamesDiffer();
    match m
    case NeighbourPacket(packet) =>
      ReadNotify("neighbour_packet", 1, EncBin(packet));
      LastBin(packet);
    case TimeSync(utc, state) =>
      ReadNotify("time_sync", 2, EncInt(ToI64(utc)) + EncStr(state));
      ReadInt(ToI64(utc), EncStr(state));
      ReadStr(state, []);
      assert EncStr(state) + [] == EncStr(state);
      assert ToU64(ToI64(utc)) == utc;
    case NodeStatus(st) =>
      ReadNotify("node_status", 1, EncMap(StatusEntries(st)));
      StatusRoundTrip(st, []);
      assert EncMap(StatusEntries(st)) + [] == EncMap(StatusEntries(st));
  }

  lemma LastInt(v: i64)
    ensures GetInt(EncInt(v)) == Got(v, |EncInt(v)|)
  {
    ReadInt(v, []);
    assert EncInt(v) + [] == EncInt(v);
  }

  lemma LastBin(b: bytes)
    requires |b| <= 0xffff
    ensures GetBin(EncBin(b)) == Got(b, |EncBin(b)|)
  {
    ReadBin(b, []);
    assert EncBin(b) + [] == EncBin(b);
  }

  lemma CommandRoundTrip(m: Msg)
    requires m.SetAlert? || m.SetCadence? || m.SetArmed? || m.SetEmbedding?
    requires Encodes(m)
    ensures Decode(Wire(m)) == Received(m)
  {
    hide GetInt, GetStr, GetBin, EncInt, EncStr, EncBin, Ascii, GetHeader, EncHeader, Notify, Decode;
    NamesDiffer();
    match m
    case SetAlert(level, seconds) =>
      ReadNotify("set_alert", 2, EncInt(level) + EncInt(seconds));
      ReadInt(level, EncInt(seconds));
      LastInt(seconds);
    case SetCadence(seconds) =>
      ReadNotify("set_cadence", 1, EncInt(seconds));
      LastInt(seconds);
    case SetArmed(armed) =>
      ReadNotify("set_armed", 1, EncBool(armed));
    case SetEmbedding(emb) =>
      ReadNotify("set_embedding", 1, EncBin(emb));
      LastBin(emb);
  }

  lemma PollListRoundTrip(addrs: seq<u8>)
    requires |addrs| <= 0xffff
    ensures Decode(Wire(SetPods(addrs))) == Received(SetPods(addrs))
  {
    hide EncInts, EncHeader, GetHeader, Ascii, Notify, Decode;
    var params := EncArrayHeader(|addrs|) + EncInts(addrs);
    ReadNotify("set_pods", 1, params);
    ReadArrayHeader(|addrs|, EncInts(addrs));
    ReadAddrs(addrs, []);
    assert EncInts(addrs) + [] == EncInts(addrs);
    assert DecodeParams(Ascii("set_pods"), 1, params) == SetPodsParams(params);
  }

  lemma ReadCall(id: u32)
    ensures DecodeRequest(EncInt(id) + (EncStr(Ascii("get_status")) + EncArrayHeader(0))) == Some(GetStatusCall(id))
  {
    hide GetInt, GetStr, EncInt, EncStr, Ascii, GetHeader, EncHeader;
    var t := EncStr(Ascii("get_status")) + EncArrayHeader(0);
    ReadInt(id, t);
    ReadStr(Ascii("get_status"), EncArrayHeader(0));
    ReadArrayHeader(0, []);
    assert EncArrayHeader(0) + [] == EncArrayHeader(0);
  }

  lemma CallRoundTrip(id: u32)
    ensures Decode(Wire(GetStatusCall(id))) == Some(GetStatusCall(id))
  {
    hide GetInt, EncInt, GetHeader, EncHeader, DecodeRequest;
    var t := EncInt(id) + (EncStr(Ascii("get_status")) + EncArrayHeader(0));
    ReadArrayHeader(4, EncInt(REQUEST) + t);
    ReadInt(REQUEST, t);
    ReadCall(id);
  }

  lemma ReadResponse(id: u32, st: Status)
    requires |st.pps| <= MAX_STR
    ensures DecodeResponse(EncInt(id) + ([NIL] + EncMap(StatusEntries(st)))) == Some(GetStatusResponse(id, false, st))
  {
    hide GetInt, EncInt, DecodeStatus, EncMap, SkipMany;
    var body := EncMap(StatusEntries(st));
    var t := [NIL] + body;
    ReadInt(id, t);
    StatusRoundTrip(st, []);
    assert body + [] == body && t[1..] == body;
  }

  lemma ResponseRoundTrip(id: u32, st: Status)
    requires |st.pps| <= MAX_STR
    ensures Decode(Wire(GetStatusResponse(id, false, st))) == Some(GetStatusResponse(id, false, st))
  {
    hide GetInt, EncInt, GetHeader, EncHeader, EncMap, DecodeResponse;
    var t := EncInt(id) + ([NIL] + EncMap(StatusEntries(st)));
    ReadArrayHeader(4, EncInt(RESPONSE) + t);
    ReadInt(RESPONSE, t);
    ReadResponse(id, st);
  }

  /** The decoder recovers every message any encoder can produce, up to its own stated limits. */
  lemma DecodeInvertsEncode(m: Msg)
    requires Encodes(m)
    ensures Decode(Wire(m)) == Received(m)
  {
    match m
    case PodReport(_, _) => SensingRoundTrip(m);
    case PodMissing(_) => SensingRoundTrip(m);
    case SweepDone(_, _, _) => SensingRoundTrip(m);
    case NeighbourPacket(_) => LinkRoundTrip(m);
    case TimeSync(_, _) => LinkRoundTrip(m);
    case NodeStatus(_) => LinkRoundTrip(m);
    case SetPods(addrs) => PollListRoundTrip(addrs);
    case GetStatusCall(id) => CallRoundTrip(id);
    case GetStatusResponse(id, _, st) => ResponseRoundTrip(id, st);
    case _ => CommandRoundTrip(m);
  }

  /** Both sides keep to these limits; within them nothing is clipped or refused. */
  predicate Deliverable(m: Msg) { Encodes(m) && Received(m) == Some(m) }

  lemma DeliverableExactly(m: Msg)
    requires Encodes(m)
    ensures Deliverable(m) <==>
      && (m.TimeSync? ==> |m.state| <= MAX_STR)
      && (m.SetPods? ==> |m.addrs| <= MAX_ADDRS)
      && (m.SetEmbedding? ==> |m.emb| <= MAX_EMB)
  {
    if m.TimeSync? && |m.state| > MAX_STR { assert |Clip(m.state)| < |m.state|; }
  }

  /** A notification tells its method, the number of its parameters and their octets. */
  lemma NotifyInjective(name: string, n: nat, p: bytes, name': string, n': nat, p': bytes)
    requires |name| <= 0xffff && n <= 0xffff && |name'| <= 0xffff && n' <= 0xffff
    requires Notify(name, n, p) == Notify(name', n', p')
    ensures Ascii(name) == Ascii(name') && n == n' && p == p'
  {
    hide GetInt, GetStr, EncInt, EncStr, Ascii, GetHeader, EncHeader, EncArrayHeader, GetArrayHeader;
    var t3, t3' := EncArrayHeader(n) + p, EncArrayHeader(n') + p';
    var t2, t2' := EncStr(Ascii(name)) + t3, EncStr(Ascii(name')) + t3';
    var t1, t1' := EncInt(NOTIFICATION) + t2, EncInt(NOTIFICATION) + t2';
    ReadArrayHeader(3, t1);
    ReadArrayHeader(3, t1');
    ReadInt(NOTIFICATION, t2);
    ReadInt(NOTIFICATION, t2');
    ReadStr(Ascii(name), t3);
    ReadStr(Ascii(name'), t3');
    ReadArrayHeader(n, p);
    ReadArrayHeader(n', p');
  }

  lemma {:induction false} EncIntsInjective(xs: seq<u8>, ys: seq<u8>)
    requires |xs| == |ys| && EncInts(xs) == EncInts(ys)
    ensures xs == ys
    decreases |xs|
  {
    hide GetInt, EncInt;
    if xs != [] {
      ReadInt(xs[0], EncInts(xs[1..]));
      ReadInt(ys[0], EncInts(ys[1..]));
      EncIntsInjective(xs[1..], ys[1..]);
      assert xs == [xs[0]] + xs[1..] && ys == [ys[0]] + ys[1..];
    }
  }

  /** The messages that can exceed the decoder's limits are told apart by their encodings even then. */
  lemma LongStatesDiffer(utc: u64, s: bytes, s': bytes)
    requires |s| <= 0xffff && |s'| <= 0xffff && Wire(TimeSync(utc, s)) == Wire(TimeSync(utc, s'))
    ensures s == s'
  {
    hide GetStr, EncInt, EncStr, Notify;
    var t := EncInt(ToI64(utc));
    NotifyInjective("time_sync", 2, t + EncStr(s), "time_sync", 2, t + EncStr(s'));
    DropHead(t, EncStr(s));
    DropHead(t, EncStr(s'));
    ReadStr(s, []);
    ReadStr(s', []);
    assert EncStr(s) + [] == EncStr(s) && EncStr(s') + [] == EncStr(s');
  }

  lemma LongListsDiffer(xs: seq<u8>, ys: seq<u8>)
    requires |xs| <= 0xffff && |ys| <= 0xffff && Wire(SetPods(xs)) == Wire(SetPods(ys))
    ensures xs == ys
  {
    hide EncInts, Notify, EncArrayHeader, GetArrayHeader;
    var p, p' := EncArrayHeader(|xs|) + EncInts(xs), EncArrayHeader(|ys|) + EncInts(ys);
    NotifyInjective("set_pods", 1, p, "set_pods", 1, p');
    ReadArrayHeader(|xs|, EncInts(xs));
    ReadArrayHeader(|ys|, EncInts(ys));
    EncIntsInjective(xs, ys);
  }

  lemma LongEmbeddingsDiffer(e: bytes, e': bytes)
    requires |e| <= 0xffff && |e'| <= 0xffff && Wire(SetEmbedding(e)) == Wire(SetEmbedding(e'))
    ensures e == e'
  {
    hide GetBin, EncBin, Notify;
    NotifyInjective("set_embedding", 1, EncBin(e), "set_embedding", 1, EncBin(e'));
    LastBin(e);
    LastBin(e');
  }

  lemma ListIsNoEmbedding(xs: seq<u8>, e: bytes)
    requires |xs| <= 0xffff && |e| <= 0xffff
    ensures Wire(SetPods(xs)) != Wire(SetEmbedding(e))
  {
    hide EncBin, EncInts, EncArrayHeader, Notify;
    if Wire(SetPods(xs)) == Wire(SetEmbedding(e)) {
      NotifyInjective("set_pods", 1, EncArrayHeader(|xs|) + EncInts(xs), "set_embedding", 1, EncBin(e));
    }
  }

  /** No two messages that any encoder produces share an encoding. */
  lemma WireInjective(m: Msg, m': Msg)
    requires Encodes(m) && Encodes(m') && Wire(m) == Wire(m')
    ensures m == m'
  {
    hide Wire, Decode;
    DecodeInvertsEncode(m);
    DecodeInvertsEncode(m');
    match m {
      case TimeSync(utc, s) => LongStatesDiffer(utc, s, m'.state);
      case SetPods(xs) =>
        if m'.SetEmbedding? { ListIsNoEmbedding(xs, m'.emb); } else { LongListsDiffer(xs, m'.addrs); }
      case SetEmbedding(e) =>
        if m'.SetPods? { ListIsNoEmbedding(m'.addrs, e); } else { LongEmbeddingsDiffer(e, m'.emb); }
      case _ =>
    }
  }
}
