/**
 bridge_contract.c itself: the encoders that fill a caller's buffer and the decoder that walks
 one message, each proved to compute the functions of BridgeMessages.
 */
module BridgeContract {
  import opened Bytes
  import M = MsgPack
  import opened MsgPackIo
  import opened BridgeMessages

  // ------------------------------------------------------------------- encoders

  function NotifyHead(name: string, n: nat): bytes
    requires |name| <= 31 && n <= 0xffff
  {
    M.EncArrayHeader(3) + M.EncInt(NOTIFICATION) + M.EncStr(Ascii(name)) + M.EncArrayHeader(n)
  }

  lemma Assoc(a: bytes, b: bytes, c: bytes)
    ensures a + b + c == a + (b + c)
  {
  }

  lemma Nested(a: bytes, b: bytes, c: bytes, d: bytes, e: bytes)
    ensures a + b + c + d + e == a + (b + (c + (d + e)))
  {
    Assoc(a, b, c + (d + e));
    Assoc(a + b, c, d + e);
    Assoc(a + b + c, d, e);
  }

  lemma NotifyIsHeadAndParams(name: string, n: nat, params: bytes)
    requires |name| <= 31 && n <= 0xffff
    ensures Notify(name, n, params) == NotifyHead(name, n) + params
  {
    hide M.EncHeader, M.EncInt, M.EncStr;
    var a, b, c, d := M.EncArrayHeader(3), M.EncInt(NOTIFICATION), M.EncStr(Ascii(name)), M.EncArrayHeader(n);
    Nested(a, b, c, d, params);
  }

  /** A message buffer holds exactly the encoding, or the encoder reports that it does not fit. */
  ghost predicate Filled(buf: array<byte>, n: int, m: Msg)
    requires Encodes(m)
    reads buf
  {
    && n == (if |Wire(m)| <= buf.Length then |Wire(m)| else -1)
    && (n >= 0 ==> buf[..n] == Wire(m))
  }

  method NotifyHeader(w: Writer, name: string, n: nat) returns (ok: bool)
    requires w.Valid() && w.out == [] && |name| <= 31 && n <= 15
    modifies w, w.buf
    ensures w.Valid()
    ensures ok <==> |NotifyHead(name, n)| <= w.buf.Length
    ensures ok ==> w.out == NotifyHead(name, n)
  {
    hide PutAll, M.EncHeader, M.EncInt, M.EncStr, Ascii;
    ok := w.PutHeader(3, 0x90, M.ARRAY16);
    if !ok { return; }
    ok := w.PutInt(NOTIFICATION);
    if !ok { return; }
    ok := w.PutStr(Ascii(name));
    if !ok { return; }
    ok := w.PutHeader(n, 0x90, M.ARRAY16);
  }

  method EncodePodReport(buf: array<byte>, addr: u8, report: bytes) returns (n: int)
    modifies buf
    ensures |report| > MAX_REPORT ==> n == -1
    ensures |report| <= MAX_REPORT ==> Filled(buf, n, PodReport(addr, report))
  {
    hide PutAll, M.EncInt, M.EncBin, Notify, NotifyHead;
    if |report| > MAX_REPORT { return -1; }
    NotifyIsHeadAndParams("pod_report", 2, M.EncInt(addr) + M.EncBin(report));
    var w := new Writer(buf);
    var ok := NotifyHeader(w, "pod_report", 2);
    if !ok { return -1; }
    ok := w.PutInt(addr);
    if !ok { return -1; }
    ok := w.PutBin(report);
    if !ok { return -1; }
    n := w.off;
  }

  method EncodePodMissing(buf: array<byte>, addr: u8) returns (n: int)
    modifies buf
    ensures Filled(buf, n, PodMissing(addr))
  {
    hide PutAll, M.EncInt, Notify, NotifyHead;
    NotifyIsHeadAndParams("pod_missing", 1, M.EncInt(addr));
    var w := new Writer(buf);
    var ok := NotifyHeader(w, "pod_missing", 1);
    if !ok { return -1; }
    ok := w.PutInt(addr);
    n := if ok then w.off else -1;
  }

  method EncodeSweepDone(buf: array<byte>, sweep: u32, present: u32, total: u32) returns (n: int)
    modifies buf
    ensures Filled(buf, n, SweepDone(sweep, present, total))
  {
    hide PutAll, M.EncInt, Notify, NotifyHead;
    NotifyIsHeadAndParams("sweep_done", 3, M.EncInt(sweep) + (M.EncInt(present) + M.EncInt(total)));
    var w := new Writer(buf);
    var ok := NotifyHeader(w, "sweep_done", 3);
    if !ok { return -1; }
    ok := w.PutInt(sweep);
    if !ok { return -1; }
    ok := w.PutInt(present);
    if !ok { return -1; }
    ok := w.PutInt(total);
    if !ok { return -1; }
    n := w.off;
  }

  method EncodeNeighbourPacket(buf: array<byte>, packet: bytes) returns (n: int)
    modifies buf
    ensures |packet| > 0xffff ==> n == -1
    ensures |packet| <= 0xffff ==> Filled(buf, n, NeighbourPacket(packet))
  {
    hide PutAll, M.EncBin, Notify, NotifyHead;
    if |packet| <= 0xffff { NotifyIsHeadAndParams("neighbour_packet", 1, M.EncBin(packet)); }
    var w := new Writer(buf);
    var ok := NotifyHeader(w, "neighbour_packet", 1);
    if !ok { return -1; }
    ok := w.PutBin(packet);
    n := if ok then w.off else -1;
  }

  method EncodeTimeSync(buf: array<byte>, utcMs: u64, state: bytes) returns (n: int)
    modifies buf
    ensures |state| > 0xffff ==> n == -1
    ensures |state| <= 0xffff ==> Filled(buf, n, TimeSync(utcMs, state))
  {
    hide PutAll, M.EncInt, M.EncStr, Notify, NotifyHead;
    if |state| <= 0xffff { NotifyIsHeadAndParams("time_sync", 2, M.EncInt(ToI64(utcMs)) + M.EncStr(state)); }
    var w := new Writer(buf);
    var ok := NotifyHeader(w, "time_sync", 2);
    if !ok { return -1; }
    ok := w.PutInt(ToI64(utcMs));
    if !ok { return -1; }
    ok := w.PutStr(state);
    if !ok { return -1; }
    n := w.off;
  }

  method EncodeEntry(w: Writer, key: string, v: i64) returns (ok: bool)
    requires w.Valid() && |key| <= 31
    modifies w, w.buf
    ensures w.Valid()
    ensures ok <==> old(|w.out|) + |M.EncStr(Ascii(key))| + |M.EncInt(v)| <= w.buf.Length
    ensures ok ==> w.out == old(w.out) + (M.EncStr(Ascii(key)) + M.EncInt(v))
  {
    hide PutAll, M.EncInt, M.EncStr, Ascii;
    ok := w.PutStr(Ascii(key));
    if ok { ok := w.PutInt(v); }
  }

  lemma EntryFirst(es: seq<Entry>, i: nat)
    requires i < |es| && forall e :: e in es ==> |e.key| <= 0xffff
    ensures EncEntries(es[i..]) == (M.EncStr(es[i].key) + es[i].val) + EncEntries(es[i + 1..])
  {
    hide M.EncStr;
    assert es[i..][1..] == es[i + 1..];
    Assoc(M.EncStr(es[i].key), es[i].val, EncEntries(es[i + 1..]));
  }

  lemma FiveEntries(es: seq<Entry>)
    requires |es| == 5 && forall e :: e in es ==> |e.key| <= 0xffff
    ensures EncEntries(es) == (M.EncStr(es[0].key) + es[0].val) + ((M.EncStr(es[1].key) + es[1].val)
      + ((M.EncStr(es[2].key) + es[2].val) + ((M.EncStr(es[3].key) + es[3].val) + (M.EncStr(es[4].key) + es[4].val))))
  {
    hide M.EncStr, EncEntries;
    assert es[0..] == es;
    NothingEncoded(M.EncStr(es[4].key) + es[4].val);
    EntryFirst(es, 0);
    EntryFirst(es, 1);
    EntryFirst(es, 2);
    EntryFirst(es, 3);
    EntryFirst(es, 4);
    assert es[5..] == [];
  }

  lemma NothingEncoded(s: bytes)
    ensures s + EncEntries([]) == s
  {
  }

  /** encode_status_map: header and five entries. */
  method EncodeStatusMap(w: Writer, st: Status) returns (ok: bool)
    requires w.Valid() && |st.pps| <= MAX_STR
    modifies w, w.buf
    ensures w.Valid()
    ensures ok <==> old(|w.out|) + |EncMap(StatusEntries(st))| <= w.buf.Length
    ensures ok ==> w.out == old(w.out) + EncMap(StatusEntries(st))
  {
    hide PutAll, M.EncInt, M.EncStr, M.EncHeader, Ascii, EncEntries;
    FiveEntries(StatusEntries(st));
    ghost var e0 := M.EncStr(Ascii("sweeps")) + M.EncInt(st.sweeps);
    ghost var e1 := M.EncStr(Ascii("pods")) + M.EncInt(st.pods);
    ghost var e2 := M.EncStr(Ascii("pps")) + M.EncStr(st.pps);
    ghost var e3 := M.EncStr(Ascii("drift_ppm")) + M.EncInt(st.driftPpm);
    ghost var e4 := M.EncStr(Ascii("batt_mv")) + M.EncInt(st.battMv);
    ghost var h, before := M.EncMapHeader(5), w.out;
    Nested(before + h, e0, e1, e2, e3 + e4);
    Assoc(before + h + e0 + e1 + e2, e3, e4);
    Assoc(before, h, e0 + (e1 + (e2 + (e3 + e4))));
    ok := w.PutHeader(5, 0x80, M.MAP16);
    if !ok { return; }
    ok := EncodeEntry(w, "sweeps", st.sweeps);
    if !ok { return; }
    ok := EncodeEntry(w, "pods", st.pods);
    if !ok { return; }
    Assoc(w.out, M.EncStr(Ascii("pps")), M.EncStr(st.pps));
    ok := w.PutStr(Ascii("pps"));
    if !ok { return; }
    ok := w.PutStr(st.pps);
    if !ok { return; }
    ok := EncodeEntry(w, "drift_ppm", st.driftPpm);
    if !ok { return; }
    ok := EncodeEntry(w, "batt_mv", st.battMv);
  }

  method EncodeNodeStatus(buf: array<byte>, st: Status) returns (n: int)
    requires |st.pps| <= MAX_STR
    modifies buf
    ensures Filled(buf, n, NodeStatus(st))
  {
    hide PutAll, EncMap, Notify, NotifyHead;
    NotifyIsHeadAndParams("node_status", 1, EncMap(StatusEntries(st)));
    var w := new Writer(buf);
    var ok := NotifyHeader(w, "node_status", 1);
    if !ok { return -1; }
    ok := EncodeStatusMap(w, st);
    n := if ok then w.off else -1;
  }

  method EncodeGetStatusResponse(buf: array<byte>, msgId: u32, st: Status) returns (n: int)
    requires |st.pps| <= MAX_STR
    modifies buf
    ensures Filled(buf, n, GetStatusResponse(msgId, false, st))
  {
    hide PutAll, EncMap, M.EncInt, M.EncHeader;
    ghost var a, b, c, d := M.EncArrayHeader(4), M.EncInt(RESPONSE), M.EncInt(msgId), [M.NIL];
    ghost var body := EncMap(StatusEntries(st));
    Nested(a, b, c, d, body);
    var w := new Writer(buf);
    var ok := w.PutHeader(4, 0x90, M.ARRAY16);
    if !ok { return -1; }
    assert w.out == a;
    ok := w.PutInt(RESPONSE);
    if !ok { return -1; }
    ok := w.PutInt(msgId);
    if !ok { return -1; }
    ok := w.PutNil();
    if !ok { return -1; }
    ok := EncodeStatusMap(w, st);
    n := if ok then w.off else -1;
  }

  method EncodeSetAlert(buf: array<byte>, level: u8, seconds: u32) returns (n: int)
    modifies buf
    ensures Filled(buf, n, SetAlert(level, seconds))
  {
    hide PutAll, M.EncInt, Notify, NotifyHead;
    NotifyIsHeadAndParams("set_alert", 2, M.EncInt(level) + M.EncInt(seconds));
    var w := new Writer(buf);
    var ok := NotifyHeader(w, "set_alert", 2);
    if !ok { return -1; }
    ok := w.PutInt(level);
    if !ok { return -1; }
    ok := w.PutInt(seconds);
    if !ok { return -1; }
    n := w.off;
  }

  method EncodeSetCadence(buf: array<byte>, seconds: u32) returns (n: int)
    modifies buf
    ensures Filled(buf, n, SetCadence(seconds))
  {
    hide PutAll, M.EncInt, Notify, NotifyHead;
    NotifyIsHeadAndParams("set_cadence", 1, M.EncInt(seconds));
    var w := new Writer(buf);
    var ok := NotifyHeader(w, "set_cadence", 1);
    if !ok { return -1; }
    ok := w.PutInt(seconds);
    n := if ok then w.off else -1;
  }

  method EncodeSetPods(buf: array<byte>, addrs: seq<u8>) returns (n: int)
    modifies buf
    ensures |addrs| > 0xffff ==> n == -1
    ensures |addrs| <= 0xffff ==> Filled(buf, n, SetPods(addrs))
  {
    hide PutAll, M.EncInt, M.EncHeader, Notify, NotifyHead;
    if |addrs| <= 0xffff { NotifyIsHeadAndParams("set_pods", 1, M.EncArrayHeader(|addrs|) + EncInts(addrs)); }
    var w := new Writer(buf);
    var ok := NotifyHeader(w, "set_pods", 1);
    if !ok { return -1; }
    ok := w.PutHeader(|addrs|, 0x90, M.ARRAY16);
    if !ok { return -1; }
    ghost var head := w.out;
    var i := 0;
    while i < |addrs|
      invariant 0 <= i <= |addrs| && w.Valid() && w.buf == buf
      invariant w.out == head + EncInts(addrs[..i])
    {
      EncIntsSplit(addrs, i);
      Assoc(head, EncInts(addrs[..i]), M.EncInt(addrs[i]));
      ok := w.PutInt(addrs[i]);
      if !ok { return -1; }
      i := i + 1;
    }
    assert addrs[..i] == addrs;
    Assoc(NotifyHead("set_pods", 1), M.EncArrayHeader(|addrs|), EncInts(addrs));
    n := w.off;
  }

  lemma {:induction false} EncIntsSplit(xs: seq<u8>, i: nat)
    requires i < |xs|
    ensures EncInts(xs[..i + 1]) == EncInts(xs[..i]) + M.EncInt(xs[i])
    ensures |EncInts(xs)| >= |EncInts(xs[..i])| + |M.EncInt(xs[i])|
    decreases i
  {
    hide M.EncInt;
    if i == 0 {
      assert xs[..1][1..] == [] && xs[..0] == [];
    } else {
      assert xs[..i + 1][1..] == xs[1..][..i] && xs[..i][1..] == xs[1..][..i - 1];
      EncIntsSplit(xs[1..], i - 1);
    }
  }

  method EncodeSetArmed(buf: array<byte>, armed: bool) returns (n: int)
    modifies buf
    ensures Filled(buf, n, SetArmed(armed))
  {
    hide PutAll, M.EncBool, Notify, NotifyHead;
    NotifyIsHeadAndParams("set_armed", 1, M.EncBool(armed));
    var w := new Writer(buf);
    var ok := NotifyHeader(w, "set_armed", 1);
    if !ok { return -1; }
    ok := w.PutBool(armed);
    n := if ok then w.off else -1;
  }

  method EncodeSetEmbedding(buf: array<byte>, emb: bytes) returns (n: int)
    modifies buf
    ensures |emb| > 0xffff ==> n == -1
    ensures |emb| <= 0xffff ==> Filled(buf, n, SetEmbedding(emb))
  {
    hide PutAll, M.EncBin, Notify, NotifyHead;
    if |emb| <= 0xffff { NotifyIsHeadAndParams("set_embedding", 1, M.EncBin(emb)); }
    var w := new Writer(buf);
    var ok := NotifyHeader(w, "set_embedding", 1);
    if !ok { return -1; }
    ok := w.PutBin(emb);
    n := if ok then w.off else -1;
  }

  method EncodeGetStatusCall(buf: array<byte>, msgId: u32) returns (n: int)
    modifies buf
    ensures Filled(buf, n, GetStatusCall(msgId))
  {
    hide PutAll, M.EncInt, M.EncStr, M.EncHeader, Ascii;
    ghost var a, b, c := M.EncArrayHeader(4), M.EncInt(REQUEST), M.EncInt(msgId);
    ghost var d, e := M.EncStr(Ascii("get_status")), M.EncArrayHeader(0);
    Nested(a, b, c, d, e);
    var w := new Writer(buf);
    var ok := w.PutHeader(4, 0x90, M.ARRAY16);
    if !ok { return -1; }
    assert w.out == a;
    ok := w.PutInt(REQUEST);
    if !ok { return -1; }
    ok := w.PutInt(msgId);
    if !ok { return -1; }
    ok := w.PutStr(Ascii("get_status"));
    if !ok { return -1; }
    ok := w.PutHeader(0, 0x90, M.ARRAY16);
    n := if ok then w.off else -1;
  }

  // -------------------------------------------------------------------- decoder

  /** decode_status_map: `st` is filled entry by entry; unknown keys are skipped. */
  method DecodeStatusMap(r: Reader) returns (ok: bool, st: Status)
    requires r.Valid()
    modifies r
    ensures r.Valid()
    ensures DecodeStatus(old(r.Rest())) == if ok then Some(st) else None
  {
    hide M.GetInt, M.GetStr, M.GetHeader, M.Skip, Ascii, TakeValue, TakeEntries;
    st := ZERO_STATUS;
    var n; ok, n := r.GetHeader(0x80, M.MAP16);
    if !ok { return; }
    var i := 0;
    while i < n
      invariant 0 <= i <= n && r.Valid()
      invariant DecodeStatus(old(r.Rest())) == TakeEntries(r.Rest(), n - i, st)
    {
      EntriesStep(r.Rest(), n - i, st);
      var key; ok, key := r.GetStr();
      if !ok { return; }
      ok, st := DecodeEntry(r, key, st);
      if !ok { return; }
      i := i + 1;
    }
    NoEntries(r.Rest(), st);
    ok := true;
  }

  lemma EntriesStep(s: bytes, n: nat, st: Status)
    requires n > 0
    ensures var k := M.GetStr(s);
      if k.Fail? then TakeEntries(s, n, st) == None
      else
        var g := TakeValue(k.v, s[k.used..], st);
        TakeEntries(s, n, st) == if g.Fail? then None else TakeEntries(s[k.used..][g.used..], n - 1, g.v)
  {
    hide M.GetStr, TakeValue;
  }

  lemma NoEntries(s: bytes, st: Status)
    ensures TakeEntries(s, 0, st) == Some(st)
  {
  }

  /** One branch of the key comparison in decode_status_map. */
  method DecodeEntry(r: Reader, key: bytes, st0: Status) returns (ok: bool, st: Status)
    requires r.Valid()
    modifies r
    ensures r.Valid()
    ensures match TakeValue(key, old(r.Rest()), st0)
            case Fail => !ok
            case Got(x, used) => ok && st == x && r.pos == old(r.pos) + used && r.Rest() == old(r.Rest())[used..]
  {
    hide M.GetInt, M.GetStr, M.Skip, Ascii;
    st := st0;
    if Is(key, "pps") {
      var s; ok, s := r.GetStr();
      if ok { st := st.(pps := Clip(s)); }
    } else if KnownKey(key) {
      var v; ok, v := r.GetInt();
      if ok { st := SetField(key, v, st); }
    } else {
      ghost var p := r.pos;
      ok := r.SkipValue();
      if ok { TailOfTail(r.buf, p, r.pos - p); }
    }
  }

  /** The poll list: `na` integers, each cut to an octet. */
  method DecodeAddrs(r: Reader, na: nat) returns (ok: bool, addrs: seq<u8>)
    requires r.Valid()
    modifies r
    ensures r.Valid()
    ensures TakeAddrs(old(r.Rest()), na) == if ok then Some(addrs) else None
  {
    hide M.GetInt, TakeAddrs;
    addrs := [];
    var i := 0;
    NoAddrs(r.Rest(), na);
    while i < na
      invariant 0 <= i <= na && r.Valid()
      invariant TakeAddrs(old(r.Rest()), na) == Behind(addrs, TakeAddrs(r.Rest(), na - i))
    {
      AddrsStep(r.Rest(), na - i, addrs);
      var v; ok, v := r.GetInt();
      if !ok { return; }
      addrs := addrs + [v % 256];
      i := i + 1;
    }
    LastAddrs(r.Rest(), addrs);
    ok := true;
  }

  /** A list read so far, with what is still to be read behind it. */
  function Behind(addrs: seq<u8>, more: Option<seq<u8>>): Option<seq<u8>> {
    if more.None? then None else Some(addrs + more.value)
  }

  lemma AddrsStep(s: bytes, n: nat, addrs: seq<u8>)
    requires n > 0
    ensures var g := M.GetInt(s);
      Behind(addrs, TakeAddrs(s, n))
      == if g.Fail? then None else Behind(addrs + [g.v % 256], TakeAddrs(s[g.used..], n - 1))
  {
    hide M.GetInt;
    var g := M.GetInt(s);
    if g.Got? && TakeAddrs(s[g.used..], n - 1).Some? {
      var more := TakeAddrs(s[g.used..], n - 1).value;
      assert addrs + ([g.v % 256] + more) == addrs + [g.v % 256] + more;
    }
  }

  lemma NoAddrs(s: bytes, n: nat)
    ensures Behind([], TakeAddrs(s, n)) == TakeAddrs(s, n)
  {
    if TakeAddrs(s, n).Some? { assert [] + TakeAddrs(s, n).value == TakeAddrs(s, n).value; }
  }

  lemma LastAddrs(s: bytes, addrs: seq<u8>)
    ensures Behind(addrs, TakeAddrs(s, 0)) == Some(addrs)
  {
    assert addrs + [] == addrs;
  }

  method DecodePodReport(r: Reader) returns (m: Option<Msg>)
    requires r.Valid()
    modifies r
    ensures r.Valid() && m == PodReportParams(old(r.Rest()))
  {
    hide M.GetInt, M.GetBin;
    var ok, addr := r.GetInt();
    if !ok { return None; }
    var ok2, report := r.GetBin();
    if !ok2 || |report| > MAX_REPORT { return None; }
    return Some(PodReport(addr % 256, report));
  }

  method DecodeSweepDone(r: Reader) returns (m: Option<Msg>)
    requires r.Valid()
    modifies r
    ensures r.Valid() && m == SweepDoneParams(old(r.Rest()))
  {
    hide M.GetInt;
    ghost var rest := r.Rest();
    var ok, a := r.GetInt();
    if !ok { return None; }
    ghost var rest1 := r.Rest();
    assert rest1 == rest[M.GetInt(rest).used..];
    var b; ok, b := r.GetInt();
    if !ok { return None; }
    assert r.Rest() == rest1[M.GetInt(rest1).used..];
    var c; ok, c := r.GetInt();
    if !ok { return None; }
    return Some(SweepDone(ToU32(a), ToU32(b), ToU32(c)));
  }

  method DecodeTimeSync(r: Reader) returns (m: Option<Msg>)
    requires r.Valid()
    modifies r
    ensures r.Valid() && m == TimeSyncParams(old(r.Rest()))
  {
    hide M.GetInt, M.GetStr;
    var ok, utc := r.GetInt();
    if !ok { return None; }
    var ok2, state := r.GetStr();
    if !ok2 { return None; }
    return Some(TimeSync(ToU64(utc), Clip(state)));
  }

  method DecodeSetAlert(r: Reader) returns (m: Option<Msg>)
    requires r.Valid()
    modifies r
    ensures r.Valid() && m == SetAlertParams(old(r.Rest()))
  {
    hide M.GetInt;
    var ok, level := r.GetInt();
    if !ok { return None; }
    var sec; ok, sec := r.GetInt();
    if !ok { return None; }
    return Some(SetAlert(level % 256, ToU32(sec)));
  }

  method DecodeSetPods(r: Reader) returns (m: Option<Msg>)
    requires r.Valid()
    modifies r
    ensures r.Valid() && m == SetPodsParams(old(r.Rest()))
  {
    hide M.GetHeader, TakeAddrs;
    var ok, na := r.GetHeader(0x90, M.ARRAY16);
    if !ok || na > MAX_ADDRS { return None; }
    var addrs; ok, addrs := DecodeAddrs(r, na);
    return if ok then Some(SetPods(addrs)) else None;
  }

  /** decode_notification_params after its array header. */
  method DecodeNotificationParams(r: Reader, name: bytes, n: nat) returns (m: Option<Msg>)
    requires r.Valid()
    modifies r
    ensures r.Valid() && m == DecodeParams(name, n, old(r.Rest()))
  {
    hide M.GetInt, M.GetStr, M.GetBin, M.GetBool, M.SkipMany, Ascii, DecodeStatus, PodReportParams, SweepDoneParams;
    hide TimeSyncParams, SetAlertParams, SetPodsParams;
    if Is(name, "pod_report") && n == 2 {
      m := DecodePodReport(r);
    } else if Is(name, "pod_missing") && n == 1 {
      var ok, v := r.GetInt();
      m := if ok then Some(PodMissing(v % 256)) else None;
    } else if Is(name, "sweep_done") && n == 3 {
      m := DecodeSweepDone(r);
    } else if Is(name, "neighbour_packet") && n == 1 {
      var ok, v := r.GetBin();
      BinsAreShort(old(r.Rest()));
      m := if ok then Some(NeighbourPacket(v)) else None;
    } else if Is(name, "time_sync") && n == 2 {
      m := DecodeTimeSync(r);
    } else if Is(name, "node_status") && n == 1 {
      var ok, st := DecodeStatusMap(r);
      m := if ok then Some(NodeStatus(st)) else None;
    } else if Is(name, "set_alert") && n == 2 {
      m := DecodeSetAlert(r);
    } else if Is(name, "set_cadence") && n == 1 {
      var ok, v := r.GetInt();
      m := if ok then Some(SetCadence(ToU32(v))) else None;
    } else if Is(name, "set_pods") && n == 1 {
      m := DecodeSetPods(r);
    } else if Is(name, "set_armed") && n == 1 {
      var ok, v := r.GetBool();
      m := if ok then Some(SetArmed(v)) else None;
    } else if Is(name, "set_embedding") && n == 1 {
      var ok, v := r.GetBin();
      m := if ok && |v| <= MAX_EMB then Some(SetEmbedding(v)) else None;
    } else {
      var ok := r.SkipValues(n);
      m := if ok then Some(Unrecognised(0)) else None;
    }
  }

  lemma BinsAreShort(s: bytes)
    ensures M.GetBin(s).Got? ==> |M.GetBin(s).v| <= 0xffff
  {
    M.WordSizes();
  }

  method DecodeCall(r: Reader) returns (m: Option<Msg>)
    requires r.Valid()
    modifies r
    ensures r.Valid() && m == DecodeRequest(old(r.Rest()))
  {
    hide M.GetInt, M.GetStr, M.GetHeader, M.SkipMany, Ascii;
    ghost var rest := r.Rest();
    var ok, id := r.GetInt();
    if !ok { return None; }
    ghost var rest1 := r.Rest();
    assert rest1 == rest[M.GetInt(rest).used..];
    var name; ok, name := r.GetStr();
    if !ok { return None; }
    ghost var rest2 := r.Rest();
    assert rest2 == rest1[M.GetStr(rest1).used..];
    var pn; ok, pn := r.GetHeader(0x90, M.ARRAY16);
    if !ok { return None; }
    assert r.Rest() == rest2[M.GetArrayHeader(rest2).used..];
    ok := r.SkipValues(pn);
    if !ok { return None; }
    return if Is(name, "get_status") && pn == 0 then Some(GetStatusCall(ToU32(id))) else Some(Unrecognised(ToU32(id)));
  }

  method DecodeAnswer(r: Reader) returns (m: Option<Msg>)
    requires r.Valid()
    modifies r
    ensures r.Valid() && m == DecodeResponse(old(r.Rest()))
  {
    hide M.GetInt, M.Skip, DecodeStatus;
    ghost var rest := r.Rest();
    var ok, id := r.GetInt();
    if !ok { return None; }
    ghost var rest1 := r.Rest();
    assert rest1 == rest[M.GetInt(rest).used..];
    var isNil := r.GetNil();
    if isNil {
      assert r.Rest() == rest1[1..];
      var st; ok, st := DecodeStatusMap(r);
      return if ok then Some(GetStatusResponse(ToU32(id), false, st)) else None;
    }
    ok := r.SkipValues(2);
    return if ok then Some(GetStatusResponse(ToU32(id), true, ZERO_STATUS)) else None;
  }

  method DecodeNotice(r: Reader) returns (m: Option<Msg>)
    requires r.Valid()
    modifies r
    ensures r.Valid() && m == DecodeNotification(old(r.Rest()))
  {
    hide M.GetStr, M.GetHeader, DecodeParams;
    ghost var rest := r.Rest();
    var ok, name := r.GetStr();
    if !ok { return None; }
    ghost var rest1 := r.Rest();
    assert rest1 == rest[M.GetStr(rest).used..];
    var pn; ok, pn := r.GetHeader(0x90, M.ARRAY16);
    if !ok { return None; }
    assert r.Rest() == rest1[M.GetArrayHeader(rest1).used..];
    m := DecodeNotificationParams(r, name, pn);
  }

  /** bc_decode. */
  method BcDecode(buf: bytes) returns (m: Option<Msg>)
    ensures m == Decode(buf)
  {
    hide M.GetInt, M.GetHeader, DecodeNotification, DecodeRequest, DecodeResponse;
    var r := new Reader(buf);
    var ok, n := r.GetHeader(0x90, M.ARRAY16);
    if !ok { return None; }
    ghost var rest1 := r.Rest();
    var tag; ok, tag := r.GetInt();
    if !ok { return None; }
    assert r.Rest() == rest1[M.GetInt(rest1).used..];
    if tag == NOTIFICATION && n == 3 {
      m := DecodeNotice(r);
    } else if tag == REQUEST && n == 4 {
      m := DecodeCall(r);
    } else if tag == RESPONSE && n == 4 {
      m := DecodeAnswer(r);
    } else {
      m := None;
    }
  }
}
