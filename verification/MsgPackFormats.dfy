/**
 The formats of the MessagePack specification that the bridge can be sent, written out tag by tag:
 also those that its own writers never choose. A peer may use any of them.
 */
module MsgPackFormats {
  import opened Bytes
  import opened Arith
  import opened MsgPack

  /** The `i`-th of `n` big-endian octets. */
  lemma {:induction false} BigEndian(u: nat, n: nat, i: nat)
    requires i < n
    ensures PutBE(u, n)[i] == u / Pow256(n - 1 - i) % 256
  {
    if i < n - 1 {
      BigEndian(u / 256, n - 1, i);
      DivTwice(u, Pow256(n - 2 - i));
    }
  }

  lemma DivTwice(u: nat, p: nat)
    requires p > 0
    ensures u / 256 / p == u / (256 * p)
  {
    var q, r := u / 256, u % 256;
    var a, b := q / p, q % p;
    assert u == 256 * q + r && q == a * p + b;
    assert 256 * (a * p + b) + r == a * (256 * p) + (256 * b + r);
    Divided(u, 256 * p, a, 256 * b + r);
  }

  /** Read as the integer `v`, skipped and scanned as one value of its own length, whatever follows. */
  predicate ReadsInt(s: bytes, v: int, rest: bytes) {
    && -0x8000_0000_0000_0000 <= v < 0x8000_0000_0000_0000
    && GetInt(s + rest) == Got(v, |s|) && Skip(s + rest) == Some(|s|) && Scan(s + rest) == Ok(|s|)
  }

  lemma IntIsWhole(s: bytes, v: i64, rest: bytes)
    requires s != [] && |s| <= 9 && GetInt(s) == Got(v, |s|) && GetInt(s + rest) == Got(v, |s|)
    ensures ReadsInt(s, v, rest)
  {
    hide GetInt;
    IntLeads(s);
    LeafIsWhole(s, rest);
  }

  lemma IntLeads(s: bytes)
    requires GetInt(s).Got?
    ensures HeadOf(s) == Leaf(GetInt(s).used)
  {
  }

  lemma LeafIsWhole(s: bytes, rest: bytes)
    requires |s| <= SCAN_MAX && HeadOf(s) == Leaf(|s|)
    ensures Skip(s + rest) == Some(|s|) && Scan(s + rest) == Ok(|s|)
  {
    hide HeadOf;
    assert Skip(s) == Some(|s|);
    SkipExtends(s, rest);
    ScanWhole(s, rest);
  }

  lemma WideIsWhole(t: byte, u: nat, n: nat, v: i64, rest: bytes)
    requires UINT8 <= t <= INT64 && n == IntWidth(t) && u < Pow256(n)
    requires v == if t <= UINT64 then ToI64(u) else SignExtend(u, n)
    ensures ReadsInt([t] + PutBE(u, n), v, rest)
  {
    hide PutBE, GetInt, SignExtend;
    var s := [t] + PutBE(u, n);
    GetWideInt(t, u, n, rest);
    GetWideInt(t, u, n, []);
    assert s + [] == s;
    IntIsWhole(s, v, rest);
  }

  /** positive and negative fixint. */
  lemma FixintFormats(v: int, rest: bytes)
    ensures 0 <= v <= 127 ==> ReadsInt([v], v, rest)
    ensures -32 <= v < 0 ==> ReadsInt([v + 256], v, rest)
  {
    if -32 <= v <= 127 {
      var s: bytes := [if v >= 0 then v else v + 256];
      IntIsWhole(s, v, rest);
    }
  }

  /** uint 8 to uint 64; a value of 2^63 or more wraps to the signed one of the same octets. */
  lemma UnsignedFormats(u: nat, rest: bytes)
    ensures u < 0x100 ==> ReadsInt([0xcc] + PutBE(u, 1), u, rest)
    ensures u < 0x1_0000 ==> ReadsInt([0xcd] + PutBE(u, 2), u, rest)
    ensures u < 0x1_0000_0000 ==> ReadsInt([0xce] + PutBE(u, 4), u, rest)
    ensures u < 0x1_0000_0000_0000_0000 ==>
              ReadsInt([0xcf] + PutBE(u, 8), if u < 0x8000_0000_0000_0000 then u else u - 0x1_0000_0000_0000_0000, rest)
  {
    hide PutBE, ReadsInt;
    WordSizes();
    if u < 0x100 { WideIsWhole(0xcc, u, 1, u, rest); }
    if u < 0x1_0000 { WideIsWhole(0xcd, u, 2, u, rest); }
    if u < 0x1_0000_0000 { WideIsWhole(0xce, u, 4, u, rest); }
    if u < 0x1_0000_0000_0000_0000 { WideIsWhole(0xcf, u, 8, ToI64(u), rest); }
  }

  /** int 8 to int 64, two's complement. */
  lemma SignedFormats(v: int, rest: bytes)
    ensures -0x80 <= v < 0x80 ==> ReadsInt([0xd0] + PutBE(if v < 0 then v + 0x100 else v, 1), v, rest)
    ensures -0x8000 <= v < 0x8000 ==> ReadsInt([0xd1] + PutBE(if v < 0 then v + 0x1_0000 else v, 2), v, rest)
    ensures -0x8000_0000 <= v < 0x8000_0000 ==>
              ReadsInt([0xd2] + PutBE(if v < 0 then v + 0x1_0000_0000 else v, 4), v, rest)
    ensures -0x8000_0000_0000_0000 <= v < 0x8000_0000_0000_0000 ==>
              ReadsInt([0xd3] + PutBE(if v < 0 then v + 0x1_0000_0000_0000_0000 else v, 8), v, rest)
  {
    hide PutBE, ReadsInt;
    WordSizes();
    if -0x80 <= v < 0x80 { WideIsWhole(0xd0, if v < 0 then v + 0x100 else v, 1, v, rest); }
    if -0x8000 <= v < 0x8000 { WideIsWhole(0xd1, if v < 0 then v + 0x1_0000 else v, 2, v, rest); }
    if -0x8000_0000 <= v < 0x8000_0000 { WideIsWhole(0xd2, if v < 0 then v + 0x1_0000_0000 else v, 4, v, rest); }
    if -0x8000_0000_0000_0000 <= v < 0x8000_0000_0000_0000 {
      WideIsWhole(0xd3, if v < 0 then v + 0x1_0000_0000_0000_0000 else v, 8, v, rest);
    }
  }

  /** Nothing else is read as an integer: another tag, or too few octets behind it. */
  lemma IntegersExactly(s: bytes)
    ensures GetInt(s).Got? <==> (s != [] && (
              || s[0] <= 0x7f || s[0] >= 0xe0
              || (s[0] in {0xcc, 0xd0} && |s| >= 2) || (s[0] in {0xcd, 0xd1} && |s| >= 3)
              || (s[0] in {0xce, 0xd2} && |s| >= 5) || (s[0] in {0xcf, 0xd3} && |s| >= 9)))
  {
  }

  /** nil and the two truth values. */
  lemma NilAndBoolFormats(rest: bytes)
    ensures Skip([0xc0] + rest) == Some(1) && Scan([0xc0] + rest) == Ok(1)
    ensures GetBool([0xc3] + rest) == Got(true, 1) && Skip([0xc3] + rest) == Some(1) && Scan([0xc3] + rest) == Ok(1)
    ensures GetBool([0xc2] + rest) == Got(false, 1) && Skip([0xc2] + rest) == Some(1) && Scan([0xc2] + rest) == Ok(1)
  {
    LeafIsWhole([0xc0], rest);
    LeafIsWhole([0xc3], rest);
    LeafIsWhole([0xc2], rest);
  }

  // ----------------------------------------------------------- strings, blobs, containers

  lemma BodyIs(h: bytes, b: bytes, rest: bytes)
    requires 1 <= |h|
    ensures Body(h + b + rest, Some((|h|, |b|))) == Got(b, |h| + |b|)
  {
    assert (h + b + rest)[|h|..|h| + |b|] == b;
  }

  lemma LengthOctets(t: byte, n: nat) returns (h: bytes)
    requires n < 0x1_0000
    ensures h == [t] + PutBE(n, 2) && |h| == 3 && h[0] == t && GetBE(h[1..3]) == n
  {
    hide PutBE, GetBE;
    WordSizes();
    GetPutBE(n, 2);
    h := [t] + PutBE(n, 2);
    assert h[1..3] == PutBE(n, 2);
  }

  lemma FrontOf(h: bytes, t: bytes, i: nat, j: nat)
    requires i <= j <= |h|
    ensures (h + t)[i..j] == h[i..j] && (|h| > 0 ==> (h + t)[0] == h[0])
  {
  }

  lemma StrVia(h: bytes, b: bytes, rest: bytes)
    requires var s := h + b + rest;
      |h| >= 1 && IsStrTag(h[0]) && s[0] == h[0] && StrHead(s) == Some((|h|, |b|))
    ensures GetStr(h + b + rest) == Got(b, |h| + |b|)
  {
    hide Body, StrHead;
    BodyIs(h, b, rest);
  }

  lemma BinVia(h: bytes, b: bytes, rest: bytes)
    requires var s := h + b + rest;
      |h| >= 1 && IsBinTag(h[0]) && s[0] == h[0] && BinHead(s) == Some((|h|, |b|))
    ensures GetBin(h + b + rest) == Got(b, |h| + |b|)
  {
    hide Body, BinHead;
    BodyIs(h, b, rest);
  }

  lemma TwoParts(h: bytes, b: bytes, rest: bytes)
    ensures h + b + rest == h + (b + rest)
  {
  }

  lemma LongStr(h: bytes, b: bytes, rest: bytes)
    requires |h| == 3 && h[0] == 0xda && GetBE(h[1..3]) == |b|
    ensures GetStr(h + b + rest) == Got(b, 3 + |b|)
  {
    hide GetStr, GetBE;
    TwoParts(h, b, rest);
    FrontOf(h, b + rest, 1, 3);
    StrVia(h, b, rest);
  }

  lemma ShortStr(b: bytes, rest: bytes)
    requires |b| <= 255
    ensures |b| <= 31 ==> GetStr([0xa0 + |b|] + b + rest) == Got(b, 1 + |b|)
    ensures GetStr([0xd9, |b|] + b + rest) == Got(b, 2 + |b|)
  {
    hide GetStr;
    if |b| <= 31 {
      var h: bytes := [0xa0 + |b|];
      TwoParts(h, b, rest);
      FrontOf(h, b + rest, 0, 1);
      StrVia(h, b, rest);
    }
    var h: bytes := [0xd9, |b|];
    TwoParts(h, b, rest);
    FrontOf(h, b + rest, 0, 2);
    assert (h + b + rest)[1] == |b|;
    StrVia(h, b, rest);
  }

  lemma LongBin(h: bytes, b: bytes, rest: bytes)
    requires |h| == 3 && h[0] == 0xc5 && GetBE(h[1..3]) == |b|
    ensures GetBin(h + b + rest) == Got(b, 3 + |b|)
  {
    hide GetBin, GetBE;
    TwoParts(h, b, rest);
    FrontOf(h, b + rest, 1, 3);
    BinVia(h, b, rest);
  }

  /** fixstr, str 8 and str 16: a longer format than the length needs is read just the same. */
  lemma StrFormats(b: bytes, rest: bytes)
    ensures |b| <= 31 ==> GetStr([0xa0 + |b|] + b + rest) == Got(b, 1 + |b|)
    ensures |b| <= 255 ==> GetStr([0xd9, |b|] + b + rest) == Got(b, 2 + |b|)
    ensures |b| < 0x1_0000 ==> GetStr([0xda] + PutBE(|b|, 2) + b + rest) == Got(b, 3 + |b|)
  {
    hide GetStr, PutBE, GetBE;
    if |b| <= 255 { ShortStr(b, rest); }
    if |b| < 0x1_0000 {
      var h := LengthOctets(0xda, |b|);
      LongStr(h, b, rest);
    }
  }

  /** bin 8 and bin 16. */
  lemma BinFormats(b: bytes, rest: bytes)
    ensures |b| <= 255 ==> GetBin([0xc4, |b|] + b + rest) == Got(b, 2 + |b|)
    ensures |b| < 0x1_0000 ==> GetBin([0xc5] + PutBE(|b|, 2) + b + rest) == Got(b, 3 + |b|)
  {
    hide GetBin, PutBE, GetBE;
    if |b| <= 255 { BinVia([0xc4, |b|], b, rest); }
    if |b| < 0x1_0000 {
      var h := LengthOctets(0xc5, |b|);
      LongBin(h, b, rest);
    }
  }

  /** fixarray, array 16, fixmap and map 16. */
  lemma HeaderFormats(n: nat, rest: bytes)
    ensures n <= 15 ==> GetArrayHeader([0x90 + n] + rest) == Got(n, 1) && GetMapHeader([0x80 + n] + rest) == Got(n, 1)
    ensures n < 0x1_0000 ==> GetArrayHeader([0xdc] + PutBE(n, 2) + rest) == Got(n, 3)
                             && GetMapHeader([0xde] + PutBE(n, 2) + rest) == Got(n, 3)
  {
    hide PutBE, GetBE;
    if n < 0x1_0000 {
      var h := LengthOctets(0xdc, n);
      var g := LengthOctets(0xde, n);
      FrontOf(h, rest, 1, 3);
      FrontOf(g, rest, 1, 3);
    }
  }

  /** What the writers choose: fixint, int 32 or int 64; and of the string, blob and header formats the shortest. */
  lemma WriterFormats(v: i64, b: bytes, n: nat)
    requires |b| <= 0xffff && n <= 0xffff
    ensures EncInt(v) == if 0 <= v <= 127 then [v] else if -32 <= v < 0 then [v + 256]
                         else if -0x8000_0000 <= v <= 0x7FFF_FFFF then
                           [0xd2] + PutBE(if v < 0 then v + 0x1_0000_0000 else v, 4)
                         else [0xd3] + PutBE(if v < 0 then v + 0x1_0000_0000_0000_0000 else v, 8)
    ensures EncStr(b) == (if |b| <= 31 then [0xa0 + |b|] else if |b| <= 255 then [0xd9, |b|]
                          else [0xda] + PutBE(|b|, 2)) + b
    ensures EncBin(b) == (if |b| <= 255 then [0xc4, |b|] else [0xc5] + PutBE(|b|, 2)) + b
    ensures EncArrayHeader(n) == if n <= 15 then [0x90 + n] else [0xdc] + PutBE(n, 2)
    ensures EncMapHeader(n) == if n <= 15 then [0x80 + n] else [0xde] + PutBE(n, 2)
    ensures EncBool(true) == [0xc3] && EncBool(false) == [0xc2] && NIL == 0xc0
  {
    hide PutBE;
  }

  // ------------------------------------------------------------------------ lead octets

  /** The octets the scanner drops, written out: those no format of this wire begins with. */
  lemma DroppedOctets(b: byte)
    ensures !TagEverValid(b)
       <==> b == 0xc1 || 0xc6 <= b <= 0xcb || 0xd4 <= b <= 0xd8 || b == 0xdb || b == 0xdd || b == 0xdf
  {
  }

  /** The scanner gives up on a lead octet exactly when no value whatever begins with it. */
  lemma LeadOctetExactly(b: byte)
    ensures TagEverValid(b) <==> exists w :: Complete(w) && w[0] == b
  {
    hide Skip;
    if w :| Complete(w) && w[0] == b { BadLead(w); }
    if TagEverValid(b) {
      var w := Shortest(b);
      assert w[0] == b;
    }
  }

  lemma BadLead(w: bytes)
    requires Complete(w)
    ensures |w| > 0 && TagEverValid(w[0])
  {
  }

  /** A value with that lead octet: empty where the octet leaves the length open, else all zeros. */
  lemma Shortest(b: byte) returns (w: bytes)
    requires TagEverValid(b)
    ensures Complete(w) && w[0] == b
  {
    hide Skip;
    if IsArrayTag(b) || IsMapTag(b) {
      w := ShortestContainer(b);
    } else {
      w := ShortestLeaf(b);
      LeafIsWhole(w, []);
      assert w + [] == w;
    }
  }

  lemma ShortestLeaf(b: byte) returns (w: bytes)
    requires TagEverValid(b) && !IsArrayTag(b) && !IsMapTag(b)
    ensures 0 < |w| <= SCAN_MAX && w[0] == b && HeadOf(w) == Leaf(|w|)
  {
    ZeroLength();
    w := if b == NIL || b == TRUE || b == FALSE || b <= 0x7f || b >= 0xe0 then [b]
         else if UINT8 <= b <= INT64 then [b] + seq(IntWidth(b), _ => 0)
         else if 0xa0 <= b <= 0xbf then [b] + seq(b as int - 0xa0, _ => 0)
         else if b == STR8 || b == BIN8 then [b, 0]
         else [b, 0, 0];
    if |w| == 3 { assert w[1..3] == [w[1], w[2]]; }
  }

  lemma ShortestContainer(b: byte) returns (w: bytes)
    requires IsArrayTag(b) || IsMapTag(b)
    ensures Complete(w) && w[0] == b
  {
    if b == ARRAY16 || b == MAP16 {
      w := [b, 0, 0];
      EmptyContainer(w);
    } else {
      var n := if b >= 0x90 then b as int - 0x90 else 2 * (b as int - 0x80);
      w := [b] + seq(n, _ => 0);
      ZeroMembers(n);
      ZerosContained(b, n, w);
    }
  }

  lemma EmptyContainer(w: bytes)
    requires |w| == 3 && w[0] in {ARRAY16, MAP16} && w[1] == w[2] == 0
    ensures Complete(w)
  {
    hide SkipMany;
    ZeroLength();
    assert w[1..3] == [0, 0];
    assert HeadOf(w) == Nest(3, 0);
    ManyNone(w[3..]);
  }

  lemma ZerosContained(b: byte, n: nat, w: bytes)
    requires 0x80 <= b <= 0x9f && n == if b >= 0x90 then b as int - 0x90 else 2 * (b as int - 0x80)
    requires w == [b] + seq(n, _ => 0) && SkipMany(seq(n, _ => 0), n) == Some(n)
    ensures Complete(w)
  {
    hide SkipMany;
    assert HeadOf(w) == Nest(1, n);
    assert w[1..] == seq(n, _ => 0);
  }

  lemma ZeroLength()
    ensures GetBE([0, 0]) == 0
  {
    assert [0, 0][..1] == [0] && [0][..0] == [];
  }

  lemma {:induction false} ZeroMembers(n: nat)
    ensures SkipMany(seq(n, _ => 0), n) == Some(n)
  {
    if n > 0 {
      ZeroMembers(n - 1);
      var s: bytes := seq(n, _ => 0);
      assert s[1..] == seq(n - 1, _ => 0);
      assert HeadOf(s) == Leaf(1);
    }
  }
}
