/**
 Messages from a peer that chooses its own formats (bridge_contract.c:196-432): an integer may come in any
 width and of any size, a string with any header. What the decoder makes of every call is written out.
 */
module BridgeForeign {
  import opened Bytes
  import opened MsgPack
  import opened MsgPackFormats
  import opened BridgeMessages

  /** However encoded, `s` is read as the integer `v` whatever follows. */
  ghost predicate AsInt(s: bytes, v: i64) { forall rest: bytes :: GetInt(s + rest) == Got(v, |s|) }

  ghost predicate AsStr(s: bytes, b: bytes) { forall rest: bytes :: GetStr(s + rest) == Got(b, |s|) }

  ghost predicate AsBin(s: bytes, b: bytes) { forall rest: bytes :: GetBin(s + rest) == Got(b, |s|) }

  ghost predicate AsBool(s: bytes, v: bool) { forall rest: bytes :: GetBool(s + rest) == Got(v, |s|) }

  ghost predicate AsArray(s: bytes, n: nat) { forall rest: bytes :: GetArrayHeader(s + rest) == Got(n, |s|) }

  /** Every integer format of the specification is such an encoding. */
  lemma UnsignedAsInt(u: nat)
    ensures u < 0x80 ==> AsInt([u], u)
    ensures u < 0x100 ==> AsInt([0xcc] + PutBE(u, 1), u)
    ensures u < 0x1_0000 ==> AsInt([0xcd] + PutBE(u, 2), u)
    ensures u < 0x1_0000_0000 ==> AsInt([0xce] + PutBE(u, 4), u)
    ensures u < 0x8000_0000_0000_0000 ==> AsInt([0xcf] + PutBE(u, 8), u)
  {
    hide PutBE, GetInt;
    forall t: bytes
      ensures u < 0x80 ==> GetInt([u] + t) == Got(u, 1)
      ensures u < 0x100 ==> GetInt([0xcc] + PutBE(u, 1) + t) == Got(u, 2)
      ensures u < 0x1_0000 ==> GetInt([0xcd] + PutBE(u, 2) + t) == Got(u, 3)
      ensures u < 0x1_0000_0000 ==> GetInt([0xce] + PutBE(u, 4) + t) == Got(u, 5)
      ensures u < 0x8000_0000_0000_0000 ==> GetInt([0xcf] + PutBE(u, 8) + t) == Got(u, 9)
    {
      FixintFormats(u, t);
      UnsignedFormats(u, t);
    }
  }

  lemma SignedAsInt(v: int)
    ensures -32 <= v < 0 ==> AsInt([v + 256], v)
    ensures -0x80 <= v < 0x80 ==> AsInt([0xd0] + PutBE(if v < 0 then v + 0x100 else v, 1), v)
    ensures -0x8000 <= v < 0x8000 ==> AsInt([0xd1] + PutBE(if v < 0 then v + 0x1_0000 else v, 2), v)
    ensures -0x8000_0000 <= v < 0x8000_0000 ==> AsInt([0xd2] + PutBE(if v < 0 then v + 0x1_0000_0000 else v, 4), v)
  {
    hide PutBE, GetInt;
    if -32 <= v < 0 {
      var s: bytes := [v + 256];
      forall t: bytes ensures GetInt(s + t) == Got(v, |s|) { FixintFormats(v, t); }
    }
    if -0x80 <= v < 0x80 {
      var s := [0xd0] + PutBE(if v < 0 then v + 0x100 else v, 1);
      forall t: bytes ensures GetInt(s + t) == Got(v, |s|) { SignedFormats(v, t); }
    }
    if -0x8000 <= v < 0x8000 {
      var s := [0xd1] + PutBE(if v < 0 then v + 0x1_0000 else v, 2);
      forall t: bytes ensures GetInt(s + t) == Got(v, |s|) { SignedFormats(v, t); }
    }
    if -0x8000_0000 <= v < 0x8000_0000 {
      var s := [0xd2] + PutBE(if v < 0 then v + 0x1_0000_0000 else v, 4);
      forall t: bytes ensures GetInt(s + t) == Got(v, |s|) { SignedFormats(v, t); }
    }
  }

  // ---------------------------------------------------------------------- notifications

  lemma IntHere(s: bytes, v: i64, rest: bytes)
    requires AsInt(s, v)
    ensures GetInt(s + rest) == Got(v, |s|) && (s + rest)[|s|..] == rest
  {
    hide GetInt;
  }

  lemma StrHere(s: bytes, b: bytes, rest: bytes)
    requires AsStr(s, b)
    ensures GetStr(s + rest) == Got(b, |s|) && (s + rest)[|s|..] == rest
  {
    hide GetStr;
  }

  lemma BinHere(s: bytes, b: bytes, rest: bytes)
    requires AsBin(s, b)
    ensures GetBin(s + rest) == Got(b, |s|) && (s + rest)[|s|..] == rest
  {
    hide GetBin;
  }

  lemma ArrayHere(s: bytes, n: nat, rest: bytes)
    requires AsArray(s, n)
    ensures GetArrayHeader(s + rest) == Got(n, |s|) && (s + rest)[|s|..] == rest
  {
    hide GetHeader;
  }

  /** A notification [2, name, parameters]: what is decoded is settled by name, count and parameters. */
  lemma Notified(h: bytes, tag: bytes, m: bytes, name: bytes, p: bytes, n: nat, params: bytes)
    requires AsArray(h, 3) && AsInt(tag, 2) && AsStr(m, name) && AsArray(p, n)
    ensures Decode(h + (tag + (m + (p + params)))) == DecodeParams(name, n, params)
  {
    hide GetInt, GetStr, GetHeader, DecodeParams, AsArray, AsInt, AsStr;
    ArrayHere(h, 3, tag + (m + (p + params)));
    IntHere(tag, 2, m + (p + params));
    StrHere(m, name, p + params);
    ArrayHere(p, n, params);
  }

  /** Calls with integers: they are cut to the width of the field, as a C cast does. */
  lemma IntCalls(a: bytes, x: i64, b: bytes, y: i64, c: bytes, z: i64, rest: bytes)
    requires AsInt(a, x) && AsInt(b, y) && AsInt(c, z)
    ensures DecodeParams(Ascii("pod_missing"), 1, a + rest) == Some(PodMissing(x % 256))
    ensures DecodeParams(Ascii("set_cadence"), 1, a + rest) == Some(SetCadence(x % 0x1_0000_0000))
    ensures DecodeParams(Ascii("set_alert"), 2, a + (b + rest)) == Some(SetAlert(x % 256, y % 0x1_0000_0000))
    ensures DecodeParams(Ascii("sweep_done"), 3, a + (b + (c + rest)))
         == Some(SweepDone(x % 0x1_0000_0000, y % 0x1_0000_0000, z % 0x1_0000_0000))
  {
    hide GetInt, Ascii, AsInt;
    IntHere(a, x, rest);
    IntHere(a, x, b + rest);
    IntHere(b, y, rest);
    IntHere(a, x, b + (c + rest));
    IntHere(b, y, c + rest);
    IntHere(c, z, rest);
    NamesDiffer();
    NameLengths();
  }

  lemma NameLengths()
    ensures |Ascii("pod_report")| == 10 && |Ascii("pod_missing")| == 11 && |Ascii("sweep_done")| == 10
    ensures |Ascii("neighbour_packet")| == 16 && |Ascii("time_sync")| == 9 && |Ascii("node_status")| == 11
    ensures |Ascii("set_alert")| == 9 && |Ascii("set_cadence")| == 11 && |Ascii("set_pods")| == 8
    ensures |Ascii("set_armed")| == 9 && |Ascii("set_embedding")| == 13
  {
  }

  /** Calls with octets: a report of more than 200 and an embedding of more than 32 are refused. */
  lemma BlobCalls(a: bytes, x: i64, d: bytes, blob: bytes, rest: bytes)
    requires AsInt(a, x) && AsBin(d, blob) && |blob| <= 0xffff
    ensures DecodeParams(Ascii("pod_report"), 2, a + (d + rest))
         == if |blob| <= 200 then Some(PodReport(x % 256, blob)) else None
    ensures DecodeParams(Ascii("neighbour_packet"), 1, d + rest) == Some(NeighbourPacket(blob))
    ensures DecodeParams(Ascii("set_embedding"), 1, d + rest)
         == if |blob| <= 32 then Some(SetEmbedding(blob)) else None
  {
    hide GetInt, GetBin, Ascii, AsInt, AsBin;
    IntHere(a, x, d + rest);
    BinHere(d, blob, rest);
    NamesDiffer();
    NameLengths();
  }

  /** Time, as any integer modulo 2^64 with the first 15 octets of the state's name; and the arm order. */
  lemma OtherCalls(a: bytes, x: i64, m: bytes, state: bytes, f: bytes, armed: bool, rest: bytes)
    requires AsInt(a, x) && AsStr(m, state) && AsBool(f, armed)
    ensures DecodeParams(Ascii("time_sync"), 2, a + (m + rest))
         == Some(TimeSync(x % 0x1_0000_0000_0000_0000, if |state| <= 15 then state else state[..15]))
    ensures DecodeParams(Ascii("set_armed"), 1, f + rest) == Some(SetArmed(armed))
  {
    hide GetInt, GetStr, GetBool, Ascii, AsInt, AsStr;
    IntHere(a, x, m + rest);
    StrHere(m, state, rest);
    NamesDiffer();
    NameLengths();
  }

  /** Encodings of integers one after the other. */
  function Joined(parts: seq<bytes>, rest: bytes): bytes {
    if parts == [] then rest else parts[0] + Joined(parts[1..], rest)
  }

  ghost predicate AllInts(parts: seq<bytes>, xs: seq<i64>) {
    |parts| == |xs| && forall i :: 0 <= i < |xs| ==> AsInt(parts[i], xs[i])
  }

  function LowOctets(xs: seq<i64>): (r: seq<u8>)
    ensures |r| == |xs|
  {
    seq(|xs|, i requires 0 <= i < |xs| => xs[i] % 256)
  }

  lemma {:induction false} TakenAddrs(parts: seq<bytes>, xs: seq<i64>, rest: bytes)
    requires AllInts(parts, xs)
    ensures TakeAddrs(Joined(parts, rest), |xs|) == Some(LowOctets(xs))
    decreases |xs|
  {
    hide GetInt, AsInt;
    if xs != [] {
      IntHere(parts[0], xs[0], Joined(parts[1..], rest));
      TakenAddrs(parts[1..], xs[1..], rest);
      assert LowOctets(xs) == [xs[0] % 256] + LowOctets(xs[1..]);
    }
  }

  /** The poll list: at most 16 addresses, each cut to an octet. */
  lemma PodsCall(h: bytes, parts: seq<bytes>, xs: seq<i64>, rest: bytes)
    requires AsArray(h, |xs|) && AllInts(parts, xs)
    ensures DecodeParams(Ascii("set_pods"), 1, h + Joined(parts, rest))
         == if |xs| <= 16 then Some(SetPods(LowOctets(xs))) else None
  {
    hide GetInt, GetHeader, Ascii, AsInt, AsArray, TakeAddrs;
    ArrayHere(h, |xs|, Joined(parts, rest));
    TakenAddrs(parts, xs, rest);
    NamesDiffer();
    NameLengths();
  }

  /** The calls the decoder knows, with their counts of parameters. */
  predicate KnownCall(name: bytes, n: nat) {
    || (n == 1 && name in {Ascii("pod_missing"), Ascii("neighbour_packet"), Ascii("node_status"), Ascii("set_cadence"),
                           Ascii("set_pods"), Ascii("set_armed"), Ascii("set_embedding")})
    || (n == 2 && name in {Ascii("pod_report"), Ascii("time_sync"), Ascii("set_alert")})
    || (n == 3 && name == Ascii("sweep_done"))
  }

  /** Any other call is passed over, if as many whole values follow as it announces, and is none otherwise. */
  lemma OtherCall(name: bytes, n: nat, params: bytes)
    requires !KnownCall(name, n)
    ensures DecodeParams(name, n, params)
         == if SkipMany(params, n).Some? then Some(Unrecognised(0)) else None
  {
    hide Ascii;
  }

  // ------------------------------------------------------------- requests and responses

  /** A request: get_status without parameters is answered, whatever its number modulo 2^32; others are passed over. */
  lemma Requested(h: bytes, tag: bytes, id: bytes, x: i64, m: bytes, name: bytes, p: bytes, n: nat, params: bytes)
    requires AsArray(h, 4) && AsInt(tag, 0) && AsInt(id, x) && AsStr(m, name) && AsArray(p, n)
    ensures Decode(h + (tag + (id + (m + (p + params)))))
         == if SkipMany(params, n).None? then None
            else if name == Ascii("get_status") && n == 0 then Some(GetStatusCall(x % 0x1_0000_0000))
            else Some(Unrecognised(x % 0x1_0000_0000))
  {
    hide GetInt, GetStr, GetHeader, Ascii, SkipMany, AsArray, AsInt, AsStr;
    ArrayHere(h, 4, tag + (id + (m + (p + params))));
    IntHere(tag, 0, id + (m + (p + params)));
    IntHere(id, x, m + (p + params));
    StrHere(m, name, p + params);
    ArrayHere(p, n, params);
  }

  /** A response: after nil the status follows; any other error is reported, if it and the result are whole. */
  lemma Responded(h: bytes, tag: bytes, id: bytes, x: i64, body: bytes)
    requires AsArray(h, 4) && AsInt(tag, 1) && AsInt(id, x)
    ensures Decode(h + (tag + (id + body)))
         == if body != [] && body[0] == 0xc0 then
              var st := DecodeStatus(body[1..]);
              if st.None? then None else Some(GetStatusResponse(x % 0x1_0000_0000, false, st.value))
            else if SkipMany(body, 2).None? then None
            else Some(GetStatusResponse(x % 0x1_0000_0000, true, Status(0, 0, [], 0, 0)))
  {
    hide GetInt, GetStr, GetHeader, SkipMany, DecodeStatus, AsArray, AsInt;
    ArrayHere(h, 4, tag + (id + body));
    IntHere(tag, 1, id + body);
    IntHere(id, x, body);
  }

  /** Any other type, or a type with the wrong length of message, is no message. */
  lemma OtherType(h: bytes, n: nat, tag: bytes, t: i64, rest: bytes)
    requires AsArray(h, n) && AsInt(tag, t) && (t, n as int) !in {(2, 3), (0, 4), (1, 4)}
    ensures Decode(h + (tag + rest)) == None
  {
    hide GetInt, GetHeader, AsArray, AsInt;
    ArrayHere(h, n, tag + rest);
    IntHere(tag, t, rest);
  }

  // ------------------------------------------------------------------------ status maps

  /** What an entry of a status map sets: integers cut to 32 bits, the drift signed, the state to 15 octets. */
  lemma EntrySets(a: bytes, x: i64, m: bytes, state: bytes, rest: bytes, st: Status)
    requires AsInt(a, x) && AsStr(m, state)
    ensures TakeValue(Ascii("sweeps"), a + rest, st) == Got(st.(sweeps := x % 0x1_0000_0000), |a|)
    ensures TakeValue(Ascii("pods"), a + rest, st) == Got(st.(pods := x % 0x1_0000_0000), |a|)
    ensures TakeValue(Ascii("batt_mv"), a + rest, st) == Got(st.(battMv := x % 0x1_0000_0000), |a|)
    ensures var w := x % 0x1_0000_0000;
      TakeValue(Ascii("drift_ppm"), a + rest, st)
      == Got(st.(driftPpm := if w < 0x8000_0000 then w else w - 0x1_0000_0000), |a|)
    ensures TakeValue(Ascii("pps"), m + rest, st) == Got(st.(pps := if |state| <= 15 then state else state[..15]), |m|)
  {
    hide GetInt, GetStr, Ascii, AsInt, AsStr;
    IntHere(a, x, rest);
    StrHere(m, state, rest);
    KeyLengths();
  }

  lemma KeyLengths()
    ensures |Ascii("sweeps")| == 6 && |Ascii("pods")| == 4 && |Ascii("pps")| == 3
    ensures |Ascii("drift_ppm")| == 9 && |Ascii("batt_mv")| == 7
  {
  }
}
