/**
 The MessagePack subset of mprpc.c as mathematics: what each writer emits, what each
 reader accepts, and the boundary scanner. The classes in MsgPackIo.dfy are proved
 against these functions. A reader function looks at the bytes that are left and says
 what it read and how many bytes it used.
 */
module MsgPack {
  import opened Bytes

  const NIL: byte := 0xc0
  const FALSE: byte := 0xc2
  const TRUE: byte := 0xc3
  const BIN8: byte := 0xc4
  const BIN16: byte := 0xc5
  const UINT8: byte := 0xcc
  const UINT64: byte := 0xcf
  const INT8: byte := 0xd0
  const INT32: byte := 0xd2
  const INT64: byte := 0xd3
  const STR8: byte := 0xd9
  const STR16: byte := 0xda
  const ARRAY16: byte := 0xdc
  const MAP16: byte := 0xde
  const SCAN_MAX: nat := 4096

  datatype Got<+T> = Fail | Got(v: T, used: nat)

  // ------------------------------------------------------------------ writers

  function EncBool(b: bool): bytes { [if b then TRUE else FALSE] }

  function EncInt(v: i64): bytes {
    if 0 <= v <= 0x7f then [v]
    else if -32 <= v < 0 then [v + 256]
    else if -0x8000_0000 <= v < 0x8000_0000 then [INT32] + PutBE(ToU32(v), 4)
    else [INT64] + PutBE(ToU64(v), 8)
  }

  function EncStr(s: bytes): bytes
    requires |s| <= 0xffff
  {
    (if |s| <= 31 then [0xa0 + |s|]
     else if |s| <= 255 then [STR8, |s|]
     else [STR16] + PutBE(|s|, 2)) + s
  }

  function EncBin(s: bytes): bytes
    requires |s| <= 0xffff
  {
    (if |s| <= 255 then [BIN8, |s|] else [BIN16] + PutBE(|s|, 2)) + s
  }

  function EncHeader(n: nat, fix: byte, wide: byte): bytes
    requires n <= 0xffff && fix <= 0xf0
  {
    if n <= 15 then [fix + n] else [wide] + PutBE(n, 2)
  }

  function EncArrayHeader(n: nat): bytes
    requires n <= 0xffff
  {
    EncHeader(n, 0x90, ARRAY16)
  }

  function EncMapHeader(n: nat): bytes
    requires n <= 0xffff
  {
    EncHeader(n, 0x80, MAP16)
  }

  // ------------------------------------------------------------------ readers

  predicate IsIntTag(t: byte) { t <= 0x7f || t >= 0xe0 || UINT8 <= t <= INT64 }

  predicate IsStrTag(t: byte) { 0xa0 <= t <= 0xbf || t == STR8 || t == STR16 }

  predicate IsBinTag(t: byte) { t == BIN8 || t == BIN16 }

  predicate IsArrayTag(t: byte) { 0x90 <= t <= 0x9f || t == ARRAY16 }

  predicate IsMapTag(t: byte) { 0x80 <= t <= 0x8f || t == MAP16 }

  /** tag_ever_valid: the lead bytes a value on this wire can start with. */
  predicate TagEverValid(t: byte) {
    t == NIL || t == TRUE || t == FALSE || IsIntTag(t) || IsStrTag(t) || IsBinTag(t)
    || IsArrayTag(t) || IsMapTag(t)
  }

  /** Width of the number behind an integer tag 0xcc..0xd3. */
  function IntWidth(t: byte): (n: nat)
    requires UINT8 <= t <= INT64
    ensures n in {1, 2, 4, 8}
  {
    if t % 4 == 0 then 1 else if t % 4 == 1 then 2 else if t % 4 == 2 then 4 else 8
  }

  function SignExtend(raw: nat, n: nat): int {
    if 2 * raw >= Pow256(n) then raw - Pow256(n) else raw
  }

  lemma WordSizes()
    ensures Pow256(1) == 256 && Pow256(2) == 0x1_0000 && Pow256(4) == 0x1_0000_0000
    ensures Pow256(8) == 0x1_0000_0000_0000_0000
  {
    assert Pow256(3) == 0x100_0000 && Pow256(5) == 0x100_0000_0000;
    assert Pow256(6) == 0x1_0000_0000_0000 && Pow256(7) == 0x100_0000_0000_0000;
  }

  function GetBool(s: bytes): Got<bool> {
    if |s| == 0 || (s[0] != TRUE && s[0] != FALSE) then Fail else Got(s[0] == TRUE, 1)
  }

  function GetInt(s: bytes): (r: Got<i64>)
    ensures r.Got? ==> 1 <= r.used <= |s|
  {
    if |s| == 0 || !IsIntTag(s[0]) then Fail
    else if s[0] <= 0x7f then Got(s[0], 1)
    else if s[0] >= 0xe0 then Got(s[0] as int - 256, 1)
    else
      var n := IntWidth(s[0]);
      if |s| < 1 + n then Fail
      else
        var raw := GetBE(s[1..1 + n]);
        WordSizes();
        Got(if s[0] <= UINT64 then ToI64(raw) else SignExtend(raw, n), 1 + n)
  }

  /** Length fields of strings and blobs: header size, then payload size. */
  function StrHead(s: bytes): (r: Option<(nat, nat)>)
    requires |s| > 0 && IsStrTag(s[0])
    ensures r.Some? ==> 1 <= r.value.0 <= |s|
  {
    if s[0] <= 0xbf then Some((1, s[0] - 0xa0))
    else if s[0] == STR8 then if |s| < 2 then None else Some((2, s[1]))
    else if |s| < 3 then None else Some((3, GetBE(s[1..3])))
  }

  function BinHead(s: bytes): (r: Option<(nat, nat)>)
    requires |s| > 0 && IsBinTag(s[0])
    ensures r.Some? ==> 1 <= r.value.0 <= |s|
  {
    if s[0] == BIN8 then if |s| < 2 then None else Some((2, s[1]))
    else if |s| < 3 then None else Some((3, GetBE(s[1..3])))
  }

  function Body(s: bytes, head: Option<(nat, nat)>): (r: Got<bytes>)
    requires head.Some? ==> 1 <= head.value.0 <= |s|
    ensures r.Got? ==> 1 <= r.used <= |s|
    ensures head.None? ==> r.Fail?
  {
    if head.None? || head.value.0 + head.value.1 > |s| then Fail
    else Got(s[head.value.0..head.value.0 + head.value.1], head.value.0 + head.value.1)
  }

  function GetStr(s: bytes): (r: Got<bytes>)
    ensures r.Got? ==> 1 <= r.used <= |s|
  {
    if |s| == 0 || !IsStrTag(s[0]) then Fail else Body(s, StrHead(s))
  }

  function GetBin(s: bytes): (r: Got<bytes>)
    ensures r.Got? ==> 1 <= r.used <= |s|
  {
    if |s| == 0 || !IsBinTag(s[0]) then Fail else Body(s, BinHead(s))
  }

  function GetHeader(s: bytes, fix: byte, wide: byte): (r: Got<nat>)
    ensures r.Got? ==> 1 <= r.used <= |s| && r.v <= 0xffff
  {
    if |s| == 0 then Fail
    else if fix <= s[0] <= fix + 15 then Got(s[0] - fix, 1)
    else if s[0] != wide || |s| < 3 then Fail
    else WordSizes(); Got(GetBE(s[1..3]), 3)
  }

  function GetArrayHeader(s: bytes): (r: Got<nat>)
    ensures r.Got? ==> 1 <= r.used <= |s| && r.v <= 0xffff
  {
    GetHeader(s, 0x90, ARRAY16)
  }

  function GetMapHeader(s: bytes): (r: Got<nat>)
    ensures r.Got? ==> 1 <= r.used <= |s| && r.v <= 0xffff
  {
    GetHeader(s, 0x80, MAP16)
  }

  /** What stands at the front: a scalar of known length, a container, or neither. */
  datatype Head = Short | Bad | Leaf(len: nat) | Nest(hdr: nat, count: nat)

  function LeafOf<T>(g: Got<T>): Head { if g.Got? then Leaf(g.used) else Short }

  function HeadOf(s: bytes): (h: Head)
    ensures h.Leaf? ==> 1 <= h.len <= |s|
    ensures h.Nest? ==> 1 <= h.hdr <= |s|
  {
    if |s| == 0 then Short
    else if s[0] == NIL || s[0] == TRUE || s[0] == FALSE then Leaf(1)
    else if IsIntTag(s[0]) then LeafOf(GetInt(s))
    else if IsStrTag(s[0]) then LeafOf(GetStr(s))
    else if IsBinTag(s[0]) then LeafOf(GetBin(s))
    else if IsArrayTag(s[0]) then
      var g := GetArrayHeader(s); if g.Got? then Nest(g.used, g.v) else Short
    else if IsMapTag(s[0]) then
      var g := GetMapHeader(s); if g.Got? then Nest(g.used, 2 * g.v) else Short
    else Bad
  }

  /** mp_skip_value: bytes used by the value at the front, containers recursively. */
  function Skip(s: bytes): (r: Option<nat>)
    ensures r.Some? ==> 1 <= r.value <= |s|
    decreases |s|, 0
  {
    match HeadOf(s)
    case Leaf(n) => Some(n)
    case Nest(u, n) =>
      var r := SkipMany(s[u..], n);
      if r.Some? then Some(u + r.value) else None
    case _ => None
  }

  function SkipMany(s: bytes, n: nat): (r: Option<nat>)
    ensures r.Some? ==> n <= r.value <= |s|
    decreases |s|, 1, n
  {
    if n == 0 then Some(0)
    else
      var a := Skip(s);
      if a.None? then None
      else
        var b := SkipMany(s[a.value..], n - 1);
        if b.None? then None else Some(a.value + b.value)
  }

  /** Where mp_skip_value stands when it gives up: before the first value it cannot read. */
  function Stop(s: bytes): (r: nat)
    ensures r <= |s|
    decreases |s|, 0
  {
    match HeadOf(s)
    case Nest(u, n) => u + StopMany(s[u..], n)
    case _ => 0
  }

  function StopMany(s: bytes, n: nat): (r: nat)
    ensures r <= |s|
    decreases |s|, 1, n
  {
    if n == 0 then 0
    else
      var a := Skip(s);
      if a.None? then Stop(s) else a.value + StopMany(s[a.value..], n - 1)
  }

  lemma ManyStep(s: bytes, n: nat)
    requires n > 0
    ensures Skip(s).Some? ==>
      var k := Skip(s).value; var t := s[k..];
      && SkipMany(s, n).Some? == SkipMany(t, n - 1).Some? && StopMany(s, n) == k + StopMany(t, n - 1)
      && (SkipMany(t, n - 1).Some? ==> SkipMany(s, n).value == k + SkipMany(t, n - 1).value)
    ensures Skip(s).None? ==> SkipMany(s, n).None? && StopMany(s, n) == Stop(s)
  {
    hide HeadOf;
  }

  lemma ManyNone(s: bytes)
    ensures SkipMany(s, 0) == Some(0) && StopMany(s, 0) == 0
  {
  }

  /** A byte string that is exactly one value, however it was produced. */
  predicate Complete(w: bytes) { Skip(w) == Some(|w|) }

  datatype ScanResult = NeedMore | Error | Ok(len: nat)

  function Scan(s: bytes): (r: ScanResult)
    ensures r.Ok? ==> 1 <= r.len <= |s|
    ensures r.Error? ==> |s| > 0
  {
    if |s| == 0 then NeedMore
    else if !TagEverValid(s[0]) then Error
    else
      var k := Skip(if |s| > SCAN_MAX then s[..SCAN_MAX] else s);
      if k.Some? then Ok(k.value) else NeedMore
  }

  // --------------------------------------------------- each reader undoes its writer

  lemma GetWideInt(t: byte, u: nat, n: nat, rest: bytes)
    requires UINT8 <= t <= INT64 && n == IntWidth(t) && u < Pow256(n)
    ensures GetInt([t] + PutBE(u, n) + rest).Got?
    ensures GetInt([t] + PutBE(u, n) + rest).used == 1 + n
    ensures GetInt([t] + PutBE(u, n) + rest).v == if t <= UINT64 then ToI64(u) else SignExtend(u, n)
  {
    var s := [t] + PutBE(u, n) + rest;
    assert s[1..1 + n] == PutBE(u, n);
    GetPutBE(u, n);
  }

  lemma CastsInvert(v: i64)
    ensures ToI64(ToU64(v)) == v
    ensures -0x8000_0000 <= v < 0x8000_0000 ==> SignExtend(ToU32(v), 4) == v
    ensures SignExtend(ToU64(v), 8) == v
  {
    WordSizes();
  }

  lemma GetIntRoundTrip(v: i64, rest: bytes)
    ensures GetInt(EncInt(v) + rest) == Got(v, |EncInt(v)|)
  {
    if !(-32 <= v <= 0x7f) {
      WordSizes();
      CastsInvert(v);
      var narrow := -0x8000_0000 <= v < 0x8000_0000;
      var t, u, n := if narrow then INT32 else INT64, if narrow then ToU32(v) else ToU64(v), if narrow then 4 else 8;
      assert EncInt(v) == [t] + PutBE(u, n);
      GetWideInt(t, u, n, rest);
    }
  }

  lemma GetStrRoundTrip(b: bytes, rest: bytes)
    requires |b| <= 0xffff
    ensures GetStr(EncStr(b) + rest) == Got(b, |EncStr(b)|)
  {
    hide GetBE, PutBE;
    WordSizes();
    var s := EncStr(b) + rest;
    var h := |EncStr(b)| - |b|;
    assert s[h..h + |b|] == b;
    if |b| <= 31 {
      assert s[0] == 0xa0 + |b|;
    } else if |b| <= 255 {
      assert s[0] == STR8 && s[1] == |b|;
    } else {
      GetPutBE(|b|, 2);
      assert s[0] == STR16 && s[1..3] == PutBE(|b|, 2);
    }
  }

  lemma GetBinRoundTrip(b: bytes, rest: bytes)
    requires |b| <= 0xffff
    ensures GetBin(EncBin(b) + rest) == Got(b, |EncBin(b)|)
  {
    hide GetBE, PutBE;
    WordSizes();
    var s := EncBin(b) + rest;
    var h := |EncBin(b)| - |b|;
    assert s[h..h + |b|] == b;
    if |b| <= 255 {
      assert s[0] == BIN8 && s[1] == |b|;
    } else {
      GetPutBE(|b|, 2);
      assert s[0] == BIN16 && s[1..3] == PutBE(|b|, 2);
    }
  }

  lemma GetHeaderRoundTrip(n: nat, fix: byte, wide: byte, rest: bytes)
    requires n <= 0xffff && fix <= 0xf0 && !(fix <= wide <= fix + 15)
    ensures GetHeader(EncHeader(n, fix, wide) + rest, fix, wide) == Got(n, |EncHeader(n, fix, wide)|)
  {
    WordSizes();
    if n > 15 {
      assert (EncHeader(n, fix, wide) + rest)[1..3] == PutBE(n, 2);
      GetPutBE(n, 2);
    }
  }

  // ------------------------------------------------------- self-delimiting framing

  lemma HeadExtends(s: bytes, t: bytes)
    requires !HeadOf(s).Short?
    ensures HeadOf(s + t) == HeadOf(s)
  {
    if |s| >= 3 { assert (s + t)[1..3] == s[1..3]; }
    if UINT8 <= s[0] <= INT64 {
      var n := IntWidth(s[0]);
      assert (s + t)[1..1 + n] == s[1..1 + n];
    }
  }

  lemma HeadRestricts(s: bytes, t: bytes)
    requires (HeadOf(s + t).Leaf? && HeadOf(s + t).len <= |s|) || (HeadOf(s + t).Nest? && HeadOf(s + t).hdr <= |s|)
    ensures HeadOf(s) == HeadOf(s + t)
  {
    if |s| >= 3 { assert (s + t)[1..3] == s[1..3]; }
    if UINT8 <= s[0] <= INT64 {
      var n := IntWidth(s[0]);
      if |s| >= 1 + n { assert (s + t)[1..1 + n] == s[1..1 + n]; }
    }
  }

  /** More bytes never change a value that is already there. */
  lemma {:induction false} SkipExtends(s: bytes, t: bytes)
    requires Skip(s).Some?
    ensures Skip(s + t) == Skip(s)
    decreases |s|, 0
  {
    hide HeadOf, SkipMany;
    HeadExtends(s, t);
    if HeadOf(s).Nest? {
      var u := HeadOf(s).hdr;
      Cut(s, t, u);
      SkipManyExtends(s[u..], t, HeadOf(s).count);
    }
  }

  lemma {:induction false} SkipManyExtends(s: bytes, t: bytes, n: nat)
    requires SkipMany(s, n).Some?
    ensures SkipMany(s + t, n) == SkipMany(s, n)
    decreases |s|, 1, n
  {
    hide HeadOf, Skip;
    if n > 0 {
      SkipExtends(s, t);
      var a := Skip(s).value;
      Cut(s, t, a);
      SkipManyExtends(s[a..], t, n - 1);
    }
  }

  /** A value depends on no byte behind its end. */
  lemma {:induction false} SkipRestricts(s: bytes, t: bytes)
    requires Skip(s + t).Some? && Skip(s + t).value <= |s|
    ensures Skip(s) == Skip(s + t)
    decreases |s|, 0
  {
    hide HeadOf, SkipMany;
    HeadRestricts(s, t);
    if HeadOf(s).Nest? {
      var u := HeadOf(s).hdr;
      Cut(s, t, u);
      SkipManyRestricts(s[u..], t, HeadOf(s).count);
    }
  }

  lemma {:induction false} SkipManyRestricts(s: bytes, t: bytes, n: nat)
    requires SkipMany(s + t, n).Some? && SkipMany(s + t, n).value <= |s|
    ensures SkipMany(s, n) == SkipMany(s + t, n)
    decreases |s|, 1, n
  {
    hide HeadOf, Skip;
    if n > 0 {
      SkipRestricts(s, t);
      var a := Skip(s).value;
      Cut(s, t, a);
      SkipManyRestricts(s[a..], t, n - 1);
    }
  }

  /** No complete value is a proper prefix of another: the value itself is the framing. */
  lemma PrefixFree(w: bytes, rest: bytes, w': bytes, rest': bytes)
    requires Complete(w) && Complete(w') && w + rest == w' + rest'
    ensures w == w' && rest == rest'
  {
    SkipExtends(w, rest);
    SkipExtends(w', rest');
    assert w == (w + rest)[..|w|] && rest == (w + rest)[|w|..];
    assert w' == (w' + rest')[..|w'|] && rest' == (w' + rest')[|w'|..];
  }

  /** The scanner finds the boundary of a value exactly when it is within the scan bound. */
  lemma ScanWhole(w: bytes, rest: bytes)
    requires Complete(w)
    ensures |w| <= SCAN_MAX ==> Scan(w + rest) == Ok(|w|)
    ensures |w| > SCAN_MAX ==> Scan(w + rest) == NeedMore
  {
    var s := w + rest;
    SkipExtends(w, rest);
    if |s| > SCAN_MAX {
      assert s == s[..SCAN_MAX] + s[SCAN_MAX..];
      if |w| <= SCAN_MAX {
        SkipRestricts(s[..SCAN_MAX], s[SCAN_MAX..]);
      } else if Skip(s[..SCAN_MAX]).Some? {
        SkipExtends(s[..SCAN_MAX], s[SCAN_MAX..]);
      }
    }
  }

  /** A proper prefix of a value always asks for more. */
  lemma ScanPrefix(w: bytes, k: nat)
    requires Complete(w) && k < |w|
    ensures Scan(w[..k]) == NeedMore
  {
    var p := w[..k];
    if k > 0 {
      assert w[0] == p[0];
      var q := if |p| > SCAN_MAX then p[..SCAN_MAX] else p;
      assert w == q + w[|q|..];
      if Skip(q).Some? { SkipExtends(q, w[|q|..]); }
    }
  }

  // --------------------------------------------------------------- nested values

  /** Values the writers can emit. A map is its keys and values in turn. */
  datatype Value =
    | VNil
    | VBool(b: bool)
    | VInt(i: i64)
    | VStr(s: bytes)
    | VBin(s: bytes)
    | VArray(vs: seq<Value>)
    | VMap(kvs: seq<Value>)

  predicate Encodable(v: Value) {
    match v
    case VStr(s) => |s| <= 0xffff
    case VBin(s) => |s| <= 0xffff
    case VArray(vs) => |vs| <= 0xffff && forall x :: x in vs ==> Encodable(x)
    case VMap(kvs) => |kvs| % 2 == 0 && |kvs| / 2 <= 0xffff && forall x :: x in kvs ==> Encodable(x)
    case _ => true
  }

  function Enc(v: Value): bytes
    requires Encodable(v)
    decreases v, 0
  {
    match v
    case VNil => [NIL]
    case VBool(b) => EncBool(b)
    case VInt(i) => EncInt(i)
    case VStr(s) => EncStr(s)
    case VBin(s) => EncBin(s)
    case VArray(vs) => EncArrayHeader(|vs|) + EncAll(vs)
    case VMap(kvs) => EncMapHeader(|kvs| / 2) + EncAll(kvs)
  }

  function EncAll(vs: seq<Value>): bytes
    requires forall x :: x in vs ==> Encodable(x)
    decreases vs, 0
  {
    if vs == [] then [] else Enc(vs[0]) + EncAll(vs[1..])
  }

  lemma LeafComplete(v: Value, rest: bytes)
    requires Encodable(v) && !v.VArray? && !v.VMap?
    ensures HeadOf(Enc(v) + rest) == Leaf(|Enc(v)|)
  {
    match v
    case VInt(i) => GetIntRoundTrip(i, rest);
    case VStr(b) => GetStrRoundTrip(b, rest);
    case VBin(b) => GetBinRoundTrip(b, rest);
    case _ =>
  }

  lemma SkipLeaf(s: bytes)
    requires HeadOf(s).Leaf?
    ensures Skip(s) == Some(HeadOf(s).len)
  {
  }

  lemma SkipNest(s: bytes, u: nat, n: nat)
    requires HeadOf(s) == Nest(u, n) && SkipMany(s[u..], n).Some?
    ensures Skip(s) == Some(u + SkipMany(s[u..], n).value)
  {
  }

  lemma ContainerHead(n: nat, t: bytes)
    requires n <= 0xffff
    ensures HeadOf(EncArrayHeader(n) + t) == Nest(|EncArrayHeader(n)|, n)
    ensures HeadOf(EncMapHeader(n) + t) == Nest(|EncMapHeader(n)|, 2 * n)
  {
    hide PutBE, GetBE, GetHeader;
    GetHeaderRoundTrip(n, 0x90, ARRAY16, t);
    GetHeaderRoundTrip(n, 0x80, MAP16, t);
  }

  lemma SkipCons(s: bytes, head: bytes, t: bytes, n: nat)
    requires s == head + t && n > 0
    requires Skip(s) == Some(|head|) && SkipMany(t, n - 1).Some?
    ensures SkipMany(s, n) == Some(|head| + SkipMany(t, n - 1).value)
  {
    assert s[|head|..] == t;
  }

  lemma NestComplete(s: bytes, h: bytes, t: bytes, count: nat)
    requires s == h + t && HeadOf(s) == Nest(|h|, count)
    requires SkipMany(t, count).Some?
    ensures Skip(s) == Some(|h| + SkipMany(t, count).value)
  {
    assert s[|h|..] == t;
    SkipNest(s, |h|, count);
  }

  /** Every value the writers emit is delimited by itself, whatever follows it. */
  lemma {:induction false} EncComplete(v: Value, rest: bytes)
    requires Encodable(v)
    ensures Skip(Enc(v) + rest) == Some(|Enc(v)|)
    decreases v, 0
  {
    hide HeadOf, EncHeader, GetHeader, Skip, SkipMany;
    match v
    case VArray(vs) =>
      assert Enc(v) + rest == EncArrayHeader(|vs|) + (EncAll(vs) + rest);
      ContainerHead(|vs|, EncAll(vs) + rest);
      EncAllComplete(vs, rest);
      NestComplete(Enc(v) + rest, EncArrayHeader(|vs|), EncAll(vs) + rest, |vs|);
    case VMap(kvs) =>
      assert Enc(v) + rest == EncMapHeader(|kvs| / 2) + (EncAll(kvs) + rest);
      ContainerHead(|kvs| / 2, EncAll(kvs) + rest);
      EncAllComplete(kvs, rest);
      NestComplete(Enc(v) + rest, EncMapHeader(|kvs| / 2), EncAll(kvs) + rest, |kvs|);
    case _ =>
      LeafComplete(v, rest);
      SkipLeaf(Enc(v) + rest);
  }

  lemma {:induction false} EncAllComplete(vs: seq<Value>, rest: bytes)
    requires forall x :: x in vs ==> Encodable(x)
    ensures SkipMany(EncAll(vs) + rest, |vs|) == Some(|EncAll(vs)|)
    decreases vs, 0
  {
    hide HeadOf, Skip;
    if vs != [] {
      var head, body := Enc(vs[0]), EncAll(vs[1..]);
      assert EncAll(vs) + rest == head + (body + rest);
      EncComplete(vs[0], body + rest);
      EncAllComplete(vs[1..], rest);
      SkipCons(EncAll(vs) + rest, head, body + rest, |vs|);
    }
  }
}
