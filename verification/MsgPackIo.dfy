/**
 The cursors of mprpc.c as objects: a writer that appends to a fixed buffer, a reader that
 walks one. Every method is proved against the functions of MsgPack.
 */
module MsgPackIo {
  import opened Bytes
  import M = MsgPack

  // -------------------------------------------------------------- writing in parts

  /** What a writer has put down in a buffer of `cap` bytes, and whether all of it fitted. */
  datatype Out = Out(cap: nat, data: bytes, ok: bool)

  function Put(o: Out, part: bytes): Out {
    if !o.ok || |o.data| + |part| > o.cap then o.(ok := false) else o.(data := o.data + part)
  }

  /** Parts are written one after the other; the first that does not fit ends the put. */
  function PutAll(o: Out, parts: seq<bytes>): Out
    decreases |parts|
  {
    if parts == [] then o else PutAll(Put(o, parts[0]), parts[1..])
  }

  function Flat(parts: seq<bytes>): bytes {
    if parts == [] then [] else parts[0] + Flat(parts[1..])
  }

  function Singles(s: bytes): (parts: seq<bytes>)
    ensures |parts| == |s|
  {
    seq(|s|, i requires 0 <= i < |s| => [s[i]])
  }

  function IntParts(v: i64): seq<bytes> {
    if -32 <= v <= 0x7f then [M.EncInt(v)]
    else if -0x8000_0000 <= v < 0x8000_0000 then [[M.INT32], PutBE(ToU32(v), 4)]
    else [[M.INT64]] + Singles(PutBE(ToU64(v), 8))
  }

  function StrParts(s: bytes): seq<bytes> {
    if |s| <= 31 then [[0xa0 + |s|], s]
    else if |s| <= 255 then [[M.STR8], [|s|], s]
    else [[M.STR16], PutBE(|s|, 2), s]
  }

  function BinParts(s: bytes): seq<bytes> {
    if |s| <= 255 then [[M.BIN8], [|s|], s] else [[M.BIN16], PutBE(|s|, 2), s]
  }

  function HeaderParts(n: nat, fix: byte, wide: byte): seq<bytes>
    requires fix <= 0xf0
  {
    if n <= 15 then [[fix + n]] else [[wide], PutBE(n, 2)]
  }

  lemma Split(parts: seq<bytes>, i: nat)
    requires i < |parts|
    ensures parts[..i] + [parts[i]] == parts[..i + 1] && parts[..i + 1] + parts[i + 1..] == parts
  {
  }

  lemma {:induction false} PutAllAppend(o: Out, a: seq<bytes>, b: seq<bytes>)
    ensures PutAll(o, a + b) == PutAll(PutAll(o, a), b)
    decreases |a|
  {
    if a == [] {
      assert a + b == b;
    } else {
      assert (a + b)[1..] == a[1..] + b;
      PutAllAppend(Put(o, a[0]), a[1..], b);
    }
  }

  lemma {:induction false} StaysFailed(o: Out, parts: seq<bytes>)
    requires !o.ok
    ensures PutAll(o, parts) == o
    decreases |parts|
  {
    if parts != [] { StaysFailed(o, parts[1..]); }
  }

  lemma {:induction false} PutAllFew(o: Out, parts: seq<bytes>)
    ensures |parts| == 1 ==> PutAll(o, parts) == Put(o, parts[0])
    ensures |parts| == 2 ==> PutAll(o, parts) == Put(Put(o, parts[0]), parts[1])
    ensures |parts| == 3 ==> PutAll(o, parts) == Put(Put(Put(o, parts[0]), parts[1]), parts[2])
    decreases |parts|
  {
    if |parts| in {2, 3} { PutAllFew(Put(o, parts[0]), parts[1..]); }
  }

  /** Success means the whole encoding was appended; it is decided by the room alone. */
  lemma {:induction false} PutAllMeaning(o: Out, parts: seq<bytes>)
    requires o.ok && |o.data| <= o.cap
    ensures PutAll(o, parts).ok <==> |o.data| + |Flat(parts)| <= o.cap
    ensures PutAll(o, parts).ok ==> PutAll(o, parts).data == o.data + Flat(parts)
    ensures o.data <= PutAll(o, parts).data <= o.data + Flat(parts)
    decreases |parts|
  {
    if parts != [] {
      var p := Put(o, parts[0]);
      if p.ok {
        PutAllMeaning(p, parts[1..]);
        assert p.data + Flat(parts[1..]) == o.data + Flat(parts);
      } else {
        StaysFailed(p, parts[1..]);
      }
    }
  }

  /**
   The header says a put that overflows leaves the offset alone. It does exactly when the
   first part already has no room; a later part that overflows leaves the earlier ones behind.
   */
  lemma OverflowKeepsOffset(o: Out, parts: seq<bytes>)
    requires o.ok && |o.data| <= o.cap && parts != [] && parts[0] != []
    requires |o.data| + |Flat(parts)| > o.cap
    ensures !PutAll(o, parts).ok
    ensures |PutAll(o, parts).data| == |o.data| <==> |o.data| + |parts[0]| > o.cap
  {
    PutAllMeaning(o, parts);
    if |o.data| + |parts[0]| <= o.cap {
      PutAllMeaning(Put(o, parts[0]), parts[1..]);
    } else {
      StaysFailed(Put(o, parts[0]), parts[1..]);
    }
  }

  /** Writing 1000 into one free byte fails and still consumes it. */
  lemma OverflowMovesOffset()
    ensures PutAll(Out(1, [], true), IntParts(1000)) == Out(1, [M.INT32], false)
  {
    var o := Out(1, [], true);
    assert Put(o, [M.INT32]) == Out(1, [M.INT32], true);
    assert IntParts(1000)[1..] == [PutBE(1000, 4)];
  }

  lemma {:induction false} FlatSingles(s: bytes)
    ensures Flat(Singles(s)) == s
  {
    if s != [] {
      assert Singles(s)[1..] == Singles(s[1..]);
      FlatSingles(s[1..]);
    }
  }

  lemma FlatFew(p: seq<bytes>)
    ensures |p| == 1 ==> Flat(p) == p[0]
    ensures |p| == 2 ==> Flat(p) == p[0] + p[1]
    ensures |p| == 3 ==> Flat(p) == p[0] + p[1] + p[2]
  {
    if |p| in {2, 3} { FlatFew(p[1..]); }
  }

  /** The parts of every put are the encoding the readers expect. */
  lemma IntPartsEncode(v: i64)
    ensures Flat(IntParts(v)) == M.EncInt(v)
  {
    FlatFew(IntParts(v));
    var be := PutBE(ToU64(v), 8);
    FlatSingles(be);
    if |IntParts(v)| == 9 { assert IntParts(v)[1..] == Singles(be); }
  }

  lemma StrPartsEncode(s: bytes)
    requires |s| <= 0xffff
    ensures Flat(StrParts(s)) == M.EncStr(s)
  {
    FlatFew(StrParts(s));
  }

  lemma BinPartsEncode(s: bytes)
    requires |s| <= 0xffff
    ensures Flat(BinParts(s)) == M.EncBin(s)
  {
    FlatFew(BinParts(s));
  }

  lemma HeaderPartsEncode(n: nat, fix: byte, wide: byte)
    requires n <= 0xffff && fix <= 0xf0
    ensures Flat(HeaderParts(n, fix, wide)) == M.EncHeader(n, fix, wide)
  {
    FlatFew(HeaderParts(n, fix, wide));
  }

  class Writer {
    const buf: array<byte>
    var off: nat
    /** What has been written so far. */
    ghost var out: bytes

    ghost predicate Valid()
      reads this, buf
    {
      off <= buf.Length && out == buf[..off]
    }

    ghost function State(ok: bool): Out
      reads this
    {
      Out(buf.Length, out, ok)
    }

    constructor (buf: array<byte>)
      ensures this.buf == buf && out == [] && Valid()
    {
      this.buf := buf;
      off, out := 0, [];
    }

    /** A put succeeds if and only if the encoding fits, and then has appended all of it. */
    twostate predicate Appends(enc: bytes, ok: bool)
      reads this
    {
      && (ok <==> old(|out|) + |enc| <= buf.Length)
      && (ok ==> out == old(out) + enc)
    }

    method PutNil() returns (ok: bool)
      requires Valid()
      modifies this, buf
      ensures Valid() && Appends([M.NIL], ok)
    {
      ok := PutU8(M.NIL);
    }

    method PutBool(v: bool) returns (ok: bool)
      requires Valid()
      modifies this, buf
      ensures Valid() && Appends(M.EncBool(v), ok)
    {
      ok := PutU8(if v then M.TRUE else M.FALSE);
    }

    method PutU8(v: byte) returns (ok: bool)
      requires Valid()
      modifies this, buf
      ensures Valid() && State(ok) == Put(old(State(true)), [v])
    {
      if off + 1 > buf.Length {
        return false;
      }
      buf[off] := v;
      off, out := off + 1, out + [v];
      return true;
    }

    method PutBytes(data: bytes) returns (ok: bool)
      requires Valid()
      modifies this, buf
      ensures Valid() && State(ok) == Put(old(State(true)), data)
    {
      if off + |data| > buf.Length {
        return false;
      }
      forall i | 0 <= i < |data| {
        buf[off + i] := data[i];
      }
      off, out := off + |data|, out + data;
      return true;
    }

    method PutBe64(v: u64) returns (ok: bool)
      requires Valid()
      modifies this, buf
      ensures Valid() && State(ok) == PutAll(old(State(true)), Singles(PutBE(v, 8)))
    {
      var be, i := PutBE(v, 8), 0;
      var parts := Singles(be);
      ok := true;
      while i < 8
        invariant 0 <= i <= 8 && Valid()
        invariant ok && State(ok) == PutAll(old(State(true)), parts[..i])
      {
        ok := PutU8(be[i]);
        Split(parts, i);
        PutAllAppend(old(State(true)), parts[..i], [parts[i]]);
        PutAllAppend(old(State(true)), parts[..i + 1], parts[i + 1..]);
        if !ok {
          StaysFailed(State(false), parts[i + 1..]);
          return false;
        }
        i := i + 1;
      }
      assert parts[..8] == parts;
    }

    method PutInt(v: i64) returns (ok: bool)
      requires Valid()
      modifies this, buf
      ensures Valid() && State(ok) == PutAll(old(State(true)), IntParts(v))
      ensures Appends(M.EncInt(v), ok)
    {
      PutAllMeaning(State(true), IntParts(v));
      IntPartsEncode(v);
      PutAllFew(State(true), IntParts(v));
      if 0 <= v <= 0x7f {
        ok := PutU8(v);
      } else if -32 <= v < 0 {
        ok := PutU8(v + 256);
      } else if -0x8000_0000 <= v < 0x8000_0000 {
        ok := PutU8(M.INT32);
        if ok { ok := PutBytes(PutBE(ToU32(v), 4)); }
      } else {
        PutAllAppend(State(true), [[M.INT64]], Singles(PutBE(ToU64(v), 8)));
        PutAllFew(State(true), [[M.INT64]]);
        ok := PutU8(M.INT64);
        if ok { ok := PutBe64(ToU64(v)); } else { StaysFailed(State(false), Singles(PutBE(ToU64(v), 8))); }
      }
    }

    method PutStr(s: bytes) returns (ok: bool)
      requires Valid()
      modifies this, buf
      ensures Valid()
      ensures |s| <= 0xffff ==> State(ok) == PutAll(old(State(true)), StrParts(s))
      ensures |s| > 0xffff ==> !ok && State(true) == old(State(true))
      ensures |s| <= 0xffff ==> Appends(M.EncStr(s), ok)
    {
      if |s| <= 0xffff { PutAllMeaning(State(true), StrParts(s)); StrPartsEncode(s); }
      PutAllFew(State(true), StrParts(s));
      if |s| <= 31 {
        ok := PutU8(0xa0 + |s|);
      } else if |s| <= 255 {
        ok := PutU8(M.STR8);
        if ok { ok := PutU8(|s|); }
      } else if |s| > 0xffff {
        return false;
      } else {
        ok := PutU8(M.STR16);
        if ok { ok := PutBytes(PutBE(|s|, 2)); }
      }
      if ok { ok := PutBytes(s); }
    }

    method PutBin(s: bytes) returns (ok: bool)
      requires Valid()
      modifies this, buf
      ensures Valid()
      ensures |s| <= 0xffff ==> State(ok) == PutAll(old(State(true)), BinParts(s))
      ensures |s| > 0xffff ==> !ok && State(true) == old(State(true))
      ensures |s| <= 0xffff ==> Appends(M.EncBin(s), ok)
    {
      if |s| <= 0xffff { PutAllMeaning(State(true), BinParts(s)); BinPartsEncode(s); }
      PutAllFew(State(true), BinParts(s));
      if |s| <= 255 {
        ok := PutU8(M.BIN8);
        if ok { ok := PutU8(|s|); }
      } else if |s| > 0xffff {
        return false;
      } else {
        ok := PutU8(M.BIN16);
        if ok { ok := PutBytes(PutBE(|s|, 2)); }
      }
      if ok { ok := PutBytes(s); }
    }

    /** mp_put_array_header and mp_put_map_header differ in their two tags only. */
    method PutHeader(n: nat, fix: byte, wide: byte) returns (ok: bool)
      requires Valid() && fix <= 0xf0
      modifies this, buf
      ensures Valid()
      ensures n <= 0xffff ==> State(ok) == PutAll(old(State(true)), HeaderParts(n, fix, wide))
      ensures n > 0xffff ==> !ok && State(true) == old(State(true))
      ensures n <= 0xffff ==> Appends(M.EncHeader(n, fix, wide), ok)
    {
      if n <= 0xffff { PutAllMeaning(State(true), HeaderParts(n, fix, wide)); HeaderPartsEncode(n, fix, wide); }
      PutAllFew(State(true), HeaderParts(n, fix, wide));
      if n <= 15 {
        ok := PutU8(fix + n);
      } else if n > 0xffff {
        return false;
      } else {
        ok := PutU8(wide);
        if ok { ok := PutBytes(PutBE(n, 2)); }
      }
    }
  }

  // ------------------------------------------------------------------ reading

  /** The reader never writes, so its buffer is a value. */
  class Reader {
    const buf: bytes
    var pos: nat

    ghost predicate Valid()
      reads this
    {
      pos <= |buf|
    }

    ghost function Rest(): bytes
      requires Valid()
      reads this
    {
      buf[pos..]
    }

    constructor (buf: bytes)
      ensures this.buf == buf && pos == 0 && Valid() && Rest() == buf
    {
      this.buf := buf;
      pos := 0;
    }

    /** get_be: a big-endian number of `n` bytes at `at`. */
    method Be(at: nat, n: nat) returns (v: nat)
      requires at + n <= |buf|
      ensures v == GetBE(buf[at..at + n])
    {
      var i := 0;
      v := 0;
      while i < n
        invariant 0 <= i <= n && v == GetBE(buf[at..at + i])
      {
        assert buf[at..at + i + 1][..i] == buf[at..at + i];
        v := 256 * v + buf[at + i];
        i := i + 1;
      }
    }

    method GetNil() returns (ok: bool)
      requires Valid()
      modifies this
      ensures Valid() && ok == (|old(Rest())| > 0 && old(Rest())[0] == M.NIL)
      ensures pos == old(pos) + if ok then 1 else 0
    {
      ok := pos < |buf| && buf[pos] == M.NIL;
      if ok { pos := pos + 1; }
    }

    method GetBool() returns (ok: bool, v: bool)
      requires Valid()
      modifies this
      ensures Valid() && Took(old(Rest()), old(pos), M.GetBool(old(Rest())), ok, v)
    {
      if pos >= |buf| || (buf[pos] != M.TRUE && buf[pos] != M.FALSE) {
        return false, false;
      }
      ok, v := true, buf[pos] == M.TRUE;
      TailOfTail(buf, pos, 1);
      pos := pos + 1;
    }

    /** A getter either fails and stays where it is, or returns a value and moves past it. */
    ghost predicate Took<T(!new)>(rest: bytes, from: nat, g: M.Got<T>, ok: bool, v: T)
      requires Valid()
      reads this
    {
      match g
      case Fail => !ok && pos == from
      case Got(x, used) => ok && v == x && pos == from + used && used <= |rest| && Rest() == rest[used..]
    }

    method GetInt() returns (ok: bool, v: i64)
      requires Valid()
      modifies this
      ensures Valid() && Took(old(Rest()), old(pos), M.GetInt(old(Rest())), ok, v)
    {
      if pos >= |buf| || !M.IsIntTag(buf[pos]) {
        return false, 0;
      }
      var t := buf[pos];
      if t <= 0x7f {
        ok, v := true, t;
        TailOfTail(buf, pos, 1);
        pos := pos + 1;
      } else if t >= 0xe0 {
        ok, v := true, t as int - 256;
        TailOfTail(buf, pos, 1);
        pos := pos + 1;
      } else {
        var need := M.IntWidth(t);
        if pos + 1 + need > |buf| {
          return false, 0;
        }
        var raw := Be(pos + 1, need);
        SliceOfTail(buf, pos, 1, 1 + need);
        M.WordSizes();
        ok, v := true, if t <= M.UINT64 then ToI64(raw) else M.SignExtend(raw, need);
        TailOfTail(buf, pos, 1 + need);
        pos := pos + 1 + need;
      }
    }

    /** The end of mp_get_str and mp_get_bin, the header read. */
    method TakeBody(hdr: nat, n: nat) returns (ok: bool, s: bytes)
      requires Valid() && 1 <= hdr && pos + hdr <= |buf|
      modifies this
      ensures Valid() && Took(old(Rest()), old(pos), M.Body(old(Rest()), Some((hdr, n))), ok, s)
    {
      if pos + hdr + n > |buf| { return false, []; }
      ok, s := true, buf[pos + hdr..pos + hdr + n];
      SliceOfTail(buf, pos, hdr, hdr + n);
      TailOfTail(buf, pos, hdr + n);
      pos := pos + hdr + n;
    }

    method GetStr() returns (ok: bool, s: bytes)
      requires Valid()
      modifies this
      ensures Valid() && Took(old(Rest()), old(pos), M.GetStr(old(Rest())), ok, s)
    {
      hide M.Body;
      if pos >= |buf| {
        return false, [];
      }
      var t := buf[pos];
      var hdr, n := 1, 0;
      ghost var rest := Rest();
      if 0xa0 <= t <= 0xbf {
        n := t - 0xa0;
      } else if t == M.STR8 {
        if pos + 2 > |buf| { return false, []; }
        hdr, n := 2, buf[pos + 1];
      } else if t == M.STR16 {
        if pos + 3 > |buf| { return false, []; }
        hdr := 3;
        n := Be(pos + 1, 2);
        SliceOfTail(buf, pos, 1, 3);
      } else {
        return false, [];
      }
      assert M.StrHead(rest) == Some((hdr, n));
      ok, s := TakeBody(hdr, n);
    }

    method GetBin() returns (ok: bool, s: bytes)
      requires Valid()
      modifies this
      ensures Valid() && Took(old(Rest()), old(pos), M.GetBin(old(Rest())), ok, s)
    {
      hide M.Body;
      if pos >= |buf| {
        return false, [];
      }
      var t := buf[pos];
      var hdr, n := 2, 0;
      ghost var rest := Rest();
      if t == M.BIN8 {
        if pos + 2 > |buf| { return false, []; }
        n := buf[pos + 1];
      } else if t == M.BIN16 {
        if pos + 3 > |buf| { return false, []; }
        hdr := 3;
        n := Be(pos + 1, 2);
        SliceOfTail(buf, pos, 1, 3);
      } else {
        return false, [];
      }
      assert M.BinHead(rest) == Some((hdr, n));
      ok, s := TakeBody(hdr, n);
    }

    /** get_container_header. */
    method GetHeader(fix: byte, wide: byte) returns (ok: bool, n: nat)
      requires Valid()
      modifies this
      ensures Valid() && Took(old(Rest()), old(pos), M.GetHeader(old(Rest()), fix, wide), ok, n)
    {
      if pos >= |buf| {
        return false, 0;
      }
      var t := buf[pos];
      if fix <= t <= fix as int + 15 {
        ok, n := true, t as int - fix as int;
        TailOfTail(buf, pos, 1);
        pos := pos + 1;
      } else if t == wide {
        if pos + 3 > |buf| { return false, 0; }
        n := Be(pos + 1, 2);
        SliceOfTail(buf, pos, 1, 3);
        TailOfTail(buf, pos, 3);
        ok, pos := true, pos + 3;
      } else {
        return false, 0;
      }
    }

    method SkipValue() returns (ok: bool)
      requires Valid()
      modifies this
      ensures Valid() && pos >= old(pos)
      ensures ok == M.Skip(old(Rest())).Some?
      ensures pos == old(pos) + if ok then M.Skip(old(Rest())).value else M.Stop(old(Rest()))
      decreases |buf| - pos, 0
    {
      hide M.GetInt, M.GetStr, M.GetBin, M.GetHeader, M.SkipMany, M.StopMany;
      if pos >= |buf| {
        return false;
      }
      var t := buf[pos];
      ghost var rest := Rest();
      ok := GetNil();
      if ok {
        return;
      }
      if t == M.TRUE || t == M.FALSE {
        var b; ok, b := GetBool();
      } else if M.IsIntTag(t) {
        var i; ok, i := GetInt();
        assert M.HeadOf(rest) == M.LeafOf(M.GetInt(rest));
      } else if M.IsStrTag(t) {
        var s; ok, s := GetStr();
        assert M.HeadOf(rest) == M.LeafOf(M.GetStr(rest));
      } else if M.IsBinTag(t) {
        var s; ok, s := GetBin();
        assert M.HeadOf(rest) == M.LeafOf(M.GetBin(rest));
      } else if M.IsArrayTag(t) {
        var n; ok, n := GetHeader(0x90, M.ARRAY16);
        if ok {
          assert M.HeadOf(rest) == M.Nest(pos - old(pos), n) && Rest() == rest[pos - old(pos)..];
          ok := SkipValues(n);
        }
      } else if M.IsMapTag(t) {
        var n; ok, n := GetHeader(0x80, M.MAP16);
        if ok {
          assert M.HeadOf(rest) == M.Nest(pos - old(pos), 2 * n) && Rest() == rest[pos - old(pos)..];
          ok := SkipValues(2 * n);
        }
      } else {
        ok := false;
      }
    }

    /** The loop of mp_skip_value over the members of a container. */
    method SkipValues(n: nat) returns (ok: bool)
      requires Valid()
      modifies this
      ensures Valid() && pos >= old(pos)
      ensures ok == M.SkipMany(old(Rest()), n).Some?
      ensures pos == old(pos) + if ok then M.SkipMany(old(Rest()), n).value else M.StopMany(old(Rest()), n)
      decreases |buf| - pos, 1
    {
      hide M.Skip, M.Stop, M.SkipMany, M.StopMany;
      var i := 0;
      while i < n
        invariant 0 <= i <= n && Valid() && pos >= old(pos)
        invariant M.SkipMany(old(Rest()), n).Some? == M.SkipMany(Rest(), n - i).Some?
        invariant M.SkipMany(Rest(), n - i).Some? ==>
          M.SkipMany(old(Rest()), n).value == pos - old(pos) + M.SkipMany(Rest(), n - i).value
        invariant M.StopMany(old(Rest()), n) == pos - old(pos) + M.StopMany(Rest(), n - i)
      {
        ghost var before, at := Rest(), pos;
        M.ManyStep(before, n - i);
        ok := SkipValue();
        if !ok {
          return;
        }
        TailOfTail(buf, at, M.Skip(before).value);
        i := i + 1;
      }
      M.ManyNone(Rest());
      ok := true;
    }
  }

  /** mp_scan_value. */
  method ScanValue(buf: bytes) returns (r: M.ScanResult)
    ensures r == M.Scan(buf)
  {
    if |buf| == 0 {
      return M.NeedMore;
    }
    if !M.TagEverValid(buf[0]) {
      return M.Error;
    }
    var len := if |buf| > M.SCAN_MAX then M.SCAN_MAX else |buf|;
    assert len == |buf| ==> buf[..len] == buf;
    var reader := new Reader(buf[..len]);
    var ok := reader.SkipValue();
    if ok {
      return M.Ok(reader.pos);
    }
    return M.NeedMore;
  }
}
