/**
 Two-point calibration (calib.c): the rounded interpolation, and its table in EEPROM.
 */
module Calib {
  import opened Bytes
  import opened Errno
  import opened Params
  import opened Arith
  import C8 = Crc8

  datatype Result<+T> = Ok(value: T) | Err(errno: int)

  datatype Entry = Entry(param: u8, rawLo: i32, refLo: i32, rawHi: i32, refHi: i32)

  // ----------------------------------------------------------------- the interpolation

  function SpanRaw(e: Entry): int { e.rawHi - e.rawLo }

  /** (raw - raw_lo) * (ref_hi - ref_lo), the numerator of the interpolation. */
  function Numerator(e: Entry, raw: i32): int { (raw - e.rawLo) * (e.refHi - e.refLo) }

  /** Half the divisor is added on the side of the quotient's sign. */
  function Adjusted(num: int, span: int): int {
    if (num >= 0) == (span >= 0) then num + TruncDiv(span, 2) else num - TruncDiv(span, 2)
  }

  /** So halves are rounded away from zero. */
  function Rounded(num: int, span: int): int
    requires span != 0
  {
    TruncDiv(Adjusted(num, span), span)
  }

  predicate InI64(x: int) { -0x8000_0000_0000_0000 <= x <= 0x7FFF_FFFF_FFFF_FFFF }

  /** Everything calib_apply computes stays within 64 bits: product, sum, quotient, and the offset added to it. */
  predicate Fits(e: Entry, raw: i32) {
    e.rawHi == e.rawLo || (
      var num, span := Numerator(e, raw), SpanRaw(e);
      && InI64(num) && InI64(Adjusted(num, span))
      && InI64(Rounded(num, span)) && InI64(Rounded(num, span) + e.refLo))
  }

  /** calib_apply, for inputs whose arithmetic the machine can hold. */
  method CalibApply(e: Entry, raw: i32) returns (r: Result<i32>)
    requires Fits(e, raw)
    ensures r == Apply(e, raw)
  {
    if e.rawHi == e.rawLo { return Err(-EINVAL); }
    var spanRaw: i64 := e.rawHi - e.rawLo;
    var spanRef: i64 := e.refHi - e.refLo;
    var num: i64 := (raw - e.rawLo) * spanRef;
    var q: i64;
    if (num >= 0) == (spanRaw >= 0) {
      var sum: i64 := num + TruncDiv(spanRaw, 2);
      q := TruncDiv(sum, spanRaw);
    } else {
      var sum: i64 := num - TruncDiv(spanRaw, 2);
      q := TruncDiv(sum, spanRaw);
    }
    q := q + e.refLo;
    if q > 0x7FFF_FFFF || q < -0x8000_0000 { return Err(-ERANGE); }
    return Ok(q);
  }

  lemma HalfOf(span: int)
    ensures TruncDiv(span, 2) == if span < 0 then -(Abs(span) / 2) else Abs(span) / 2
  {
  }

  function Apply(e: Entry, raw: i32): Result<i32> {
    if e.rawHi == e.rawLo then Err(-EINVAL)
    else
      var q := Rounded(Numerator(e, raw), SpanRaw(e)) + e.refLo;
      if q > 0x7FFF_FFFF || q < -0x8000_0000 then Err(-ERANGE) else Ok(q)
  }

  /** q is the integer nearest to num/span, of two equally near the one farther from zero. */
  predicate IsNearest(q: int, num: int, span: int) {
    2 * Abs(q * span - num) <= Abs(span) && (2 * Abs(q * span - num) == Abs(span) ==> Abs(q * span) > Abs(num))
  }

  /** The quotient of magnitudes, rounded half up. */
  function Magnitude(num: nat, span: nat): nat
    requires span > 0
  {
    (num + span / 2) / span
  }

  lemma RoundedIs(num: int, span: int)
    requires span != 0
    ensures Rounded(num, span) ==
      if (num >= 0) == (span >= 0) then Magnitude(Abs(num), Abs(span)) else -(Magnitude(Abs(num), Abs(span)) as int)
  {
    HalfOf(span);
    var top := Abs(num) + Abs(span) / 2;
    TruncSigns(top, Abs(span));
  }

  lemma TruncSigns(a: nat, b: nat)
    requires b > 0
    ensures TruncDiv(a, b) == a / b == TruncDiv(-(a as int), -(b as int))
    ensures TruncDiv(-(a as int), b) == -(a / b) == TruncDiv(a, -(b as int))
  {
    if a == 0 { Divided(0, b, 0, 0); }
  }

  lemma ZeroMagnitude(span: nat)
    requires span > 0
    ensures Magnitude(0, span) == 0
  {
    Divided(span / 2, span, 0, span / 2);
  }

  lemma MagnitudeNear(num: nat, span: nat)
    requires span > 0
    ensures var m := Magnitude(num, span); -(span as int) < 2 * (m * span - num) <= span
  {
    var x := num + span / 2;
    assert x == x / span * span + x % span;
  }

  /** The only integer in the half-open half-unit interval. */
  lemma NearUnique(m: nat, q: nat, num: nat, span: nat)
    requires -(span as int) < 2 * (m * span - num) <= span && -(span as int) < 2 * (q * span - num) <= span
    ensures m == q
  {
    MulStep(m, q, span);
    MulStep(q, m, span);
  }

  /**
   What calib_apply rounds to is the nearest integer, halves away from zero, for all sign
   combinations; and it is the only integer that is.
   */
  lemma RoundedIsNearest(num: int, span: int, q: int)
    requires span != 0
    ensures IsNearest(q, num, span) <==> q == Rounded(num, span)
  {
    hide TruncDiv, Rounded, Magnitude;
    RoundedIs(num, span);
    var n, s := Abs(num), Abs(span);
    MagnitudeNear(n, s);
    var same := (num >= 0) == (span >= 0);
    ZeroMagnitude(s);
    // q, seen from the side of the exact quotient
    var t := if same then q else -q;
    SignedProduct(q, span);
    NearestByMagnitude(t, n, s);
  }

  lemma SignedProduct(q: int, span: int)
    ensures q * span == (-q) * (-span) && (-q) * span == -(q * span) && q * (-span) == -(q * span)
  {
  }

  lemma NearestByMagnitude(t: int, n: nat, s: nat)
    requires s > 0
    ensures IsNearest(t, n, s) <==> t == Magnitude(n, s)
    ensures n == 0 ==> (IsNearest(t, n, s) <==> t == 0)
  {
    hide Magnitude;
    var m := Magnitude(n, s);
    MagnitudeNear(n, s);
    ZeroMagnitude(s);
    MulMono(m, 0, s);
    if t >= 0 {
      MulMono(t, 0, s);
      if -(s as int) < 2 * (t * s - n) <= s { NearUnique(m, t, n, s); }
    } else {
      MulMono(-1, t, s);
    }
  }

  /** Both reference points map exactly, whenever their entry is not degenerate. */
  lemma ReferencePointsExact(e: Entry)
    requires e.rawHi != e.rawLo
    ensures Apply(e, e.rawLo) == Ok(e.refLo) && Apply(e, e.rawHi) == Ok(e.refHi)
  {
    hide Rounded;
    var s, d := SpanRaw(e), e.refHi - e.refLo;
    assert s * d == d * s && 0 * d == 0 && 0 * s == 0;
    RoundedIsNearest(0, s, 0);
    RoundedIsNearest(s * d, s, d);
  }

  /**
   `v` is the integer nearest to the point of the line through both reference points over `raw`; of
   two equally near, the one farther from the lower reference.
   */
  predicate OnLine(e: Entry, raw: i32, v: int) {
    var across, up := (v - e.refLo) * (e.rawHi - e.rawLo), (raw - e.rawLo) * (e.refHi - e.refLo);
    && 2 * Abs(across - up) <= Abs(e.rawHi - e.rawLo)
    && (2 * Abs(across - up) == Abs(e.rawHi - e.rawLo) ==> Abs(across) > Abs(up))
  }

  /**
   What calib_apply answers, without its own rounding: the nearest integer on the line if it has 32
   bits, -ERANGE if not, and -EINVAL without a line.
   */
  lemma ApplyExactly(e: Entry, raw: i32)
    ensures e.rawHi == e.rawLo <==> Apply(e, raw) == Err(-22)
    ensures forall v :: e.rawHi != e.rawLo && OnLine(e, raw, v) ==>
              Apply(e, raw) == if -0x8000_0000 <= v <= 0x7FFF_FFFF then Ok(v) else Err(-34)
    ensures Apply(e, raw).Ok? ==> OnLine(e, raw, Apply(e, raw).value)
    ensures Apply(e, raw) == Err(-34) ==> exists v :: !(-0x8000_0000 <= v <= 0x7FFF_FFFF) && OnLine(e, raw, v)
  {
    hide Rounded, OnLine;
    if e.rawHi != e.rawLo {
      var q := Rounded(Numerator(e, raw), SpanRaw(e));
      NearestOnLine(e, raw, q + e.refLo);
      forall v | OnLine(e, raw, v) ensures v == q + e.refLo { NearestOnLine(e, raw, v); }
      assert OnLine(e, raw, q + e.refLo);
    }
  }

  lemma NearestOnLine(e: Entry, raw: i32, v: int)
    requires e.rawHi != e.rawLo
    ensures OnLine(e, raw, v) <==> v - e.refLo == Rounded(Numerator(e, raw), SpanRaw(e))
  {
    hide Rounded;
    RoundedIsNearest(Numerator(e, raw), SpanRaw(e), v - e.refLo);
  }

  lemma MagnitudeMono(a: nat, b: nat, s: nat)
    requires a <= b && s > 0
    ensures Magnitude(a, s) <= Magnitude(b, s)
  {
    var x, y := a + s / 2, b + s / 2;
    assert x == x / s * s + x % s && y == y / s * s + y % s;
    MulStep(x / s, y / s, s);
  }

  lemma RoundedMono(a: int, b: int, s: int)
    requires s != 0 && if s > 0 then a <= b else b <= a
    ensures Rounded(a, s) <= Rounded(b, s)
  {
    hide Rounded, Magnitude;
    RoundedIs(a, s);
    RoundedIs(b, s);
    if Abs(a) <= Abs(b) { MagnitudeMono(Abs(a), Abs(b), Abs(s)); } else { MagnitudeMono(Abs(b), Abs(a), Abs(s)); }
    ZeroMagnitude(Abs(s));
  }

  predicate Rising(e: Entry) { (e.refHi >= e.refLo) == (e.rawHi >= e.rawLo) }

  /** The calibrated value follows the raw one, in the direction of the slope. */
  lemma ApplyMonotone(e: Entry, raw: i32, raw': i32)
    requires raw <= raw' && Apply(e, raw).Ok? && Apply(e, raw').Ok?
    ensures Rising(e) ==> Apply(e, raw).value <= Apply(e, raw').value
    ensures !Rising(e) ==> Apply(e, raw).value >= Apply(e, raw').value
  {
    hide Rounded;
    var s, d := SpanRaw(e), e.refHi - e.refLo;
    MulMono(raw' - e.rawLo, raw - e.rawLo, d);
    MulMono(raw' - e.rawLo, raw - e.rawLo, -d);
    SignedProduct(raw - e.rawLo, d);
    SignedProduct(raw' - e.rawLo, d);
    var n, n' := Numerator(e, raw), Numerator(e, raw');
    if Rising(e) { RoundedMono(n, n', s); } else { RoundedMono(n', n, s); }
  }

  // -------------------------------------------------------- when the arithmetic holds

  function Outwards(num: int, half: nat): int { if num >= 0 then num + half else num - half }

  /** Checked before the call: the sum, and with a divisor of one or minus one the offset too. */
  predicate SumsFit(e: Entry, raw: i32) {
    var num, span := Numerator(e, raw), SpanRaw(e);
    && InI64(Outwards(num, Abs(span) / 2))
    && (Abs(span) == 1 ==> InI64(num * span) && InI64(num * span + e.refLo))
  }

  lemma AdjustedIs(num: int, span: int)
    ensures Adjusted(num, span) == Outwards(num, Abs(span) / 2)
  {
    HalfOf(span);
  }

  /** A divisor of at least two leaves room for the offset, one of magnitude one divides nothing. */
  lemma QuotientSize(x: int, span: int)
    requires span != 0
    ensures Abs(span) >= 2 ==> 2 * Abs(TruncDiv(x, span)) <= Abs(x)
    ensures Abs(span) == 1 ==> TruncDiv(x, span) == x * span
  {
    hide TruncDiv;
    var n, d := Abs(x), Abs(span);
    TruncSigns(n, d);
    if d == 1 { Divided(n, 1, n, 0); } else { HalfOrLess(n, d); }
  }

  lemma HalfOrLess(n: nat, d: nat)
    requires d >= 2
    ensures 0 <= 2 * (n / d) <= n
  {
    var q := n / d;
    Commutes(q, d);
    assert n == q * d + n % d;
    MulMono(d, 2, q);
  }

  lemma Commutes(a: int, b: int)
    ensures a * b == b * a
  {
  }

  lemma FitsIs(e: Entry, raw: i32)
    requires e.rawHi != e.rawLo
    ensures Fits(e, raw) <==> SumsFit(e, raw)
  {
    hide TruncDiv, Numerator, Adjusted;
    AdjustedIs(Numerator(e, raw), SpanRaw(e));
    QuotientSize(Adjusted(Numerator(e, raw), SpanRaw(e)), SpanRaw(e));
  }

  /** A numerator lies between those of the extreme readings. */
  lemma NumeratorBetween(e: Entry, raw: i32)
    ensures var a, b, n := Numerator(e, -0x8000_0000), Numerator(e, 0x7FFF_FFFF), Numerator(e, raw);
      a <= n <= b || b <= n <= a
  {
    var d := e.refHi - e.refLo;
    var x, lo, hi := raw - e.rawLo, -0x8000_0000 - e.rawLo, 0x7FFF_FFFF - e.rawLo;
    MulMono(x, lo, d);
    MulMono(hi, x, d);
    MulMono(x, lo, -d);
    MulMono(hi, x, -d);
    SignedProduct(x, d);
    SignedProduct(lo, d);
    SignedProduct(hi, d);
  }

  /**
   Exactly the entries with which no reading whatever takes calib_apply out of 64 bits: those whose
   sums fit at the least and at the greatest reading. A degenerate entry is refused before any sum.
   */
  lemma FitsForEveryReading(e: Entry)
    ensures (forall raw: i32 :: Fits(e, raw))
       <==> e.rawHi == e.rawLo || (SumsFit(e, -0x8000_0000) && SumsFit(e, 0x7FFF_FFFF))
  {
    hide Fits, SumsFit;
    if e.rawHi != e.rawLo {
      FitsIs(e, -0x8000_0000);
      FitsIs(e, 0x7FFF_FFFF);
      if SumsFit(e, -0x8000_0000) && SumsFit(e, 0x7FFF_FFFF) {
        forall raw: i32 ensures Fits(e, raw) {
          SumsFitBetween(e, raw);
          FitsIs(e, raw);
        }
      }
    } else {
      forall raw: i32 ensures Fits(e, raw) { Degenerate(e, raw); }
    }
  }

  lemma Degenerate(e: Entry, raw: i32)
    requires e.rawHi == e.rawLo
    ensures Fits(e, raw)
  {
  }

  lemma SumsFitBetween(e: Entry, raw: i32)
    requires SumsFit(e, -0x8000_0000) && SumsFit(e, 0x7FFF_FFFF)
    ensures SumsFit(e, raw)
  {
    hide Numerator;
    NumeratorBetween(e, raw);
  }

  /** Numerators up to 2^62 always fit. */
  lemma FitsUpTo62(e: Entry, raw: i32)
    requires Abs(Numerator(e, raw)) <= 0x4000_0000_0000_0000
    ensures Fits(e, raw)
  {
    hide Numerator, Fits;
    if e.rawHi == e.rawLo { Degenerate(e, raw); } else { FitsIs(e, raw); }
  }

  /** Entries on which the product, and on which only the last sum, leaves 64 bits. */
  lemma ExtremesOverflow()
    ensures !Fits(Entry(1, -0x8000_0000, -0x8000_0000, 0, 0x7FFF_FFFF), 0x7FFF_FFFF)
    ensures var e := Entry(1, 1, 0x7FFF_FFFE, 2, -0x8000_0000);
      !Fits(e, -0x8000_0000) && InI64(Rounded(Numerator(e, -0x8000_0000), SpanRaw(e)))
  {
    var e := Entry(1, 1, 0x7FFF_FFFE, 2, -0x8000_0000);
    FitsIs(e, -0x8000_0000);
    AdjustedIs(Numerator(e, -0x8000_0000), 1);
    QuotientSize(Numerator(e, -0x8000_0000), 1);
  }

  // ------------------------------------------------------------------------- the table

  const MAX_ENTRIES: nat := 16
  const HDR: nat := 4
  const ENTRY: nat := 17

  type Table = t: seq<Entry> | |t| <= 16

  predicate AllInsitu(es: seq<Entry>) { forall i :: 0 <= i < |es| ==> Insitu(es[i].param) }

  function EntryBytes(e: Entry): (s: bytes)
    ensures |s| == ENTRY
  {
    [e.param] + PutI32(e.rawLo) + PutI32(e.refLo) + PutI32(e.rawHi) + PutI32(e.refHi)
  }

  function EntryOf(s: bytes): Entry
    requires |s| == ENTRY
  {
    Entry(s[0], GetI32(s[1..5]), GetI32(s[5..9]), GetI32(s[9..13]), GetI32(s[13..17]))
  }

  function Entries(es: seq<Entry>): (s: bytes)
    ensures |s| == ENTRY * |es|
    decreases |es|
  {
    if es == [] then [] else Entries(es[..|es| - 1]) + EntryBytes(es[|es| - 1])
  }

  function Header(n: nat): (s: bytes)
    requires n <= MAX_ENTRIES
    ensures |s| == HDR
  {
    [0x43, 0x4C, 1, n]
  }

  lemma HeaderIs(s: bytes, n: nat)
    requires n <= MAX_ENTRIES && |s| == HDR && s[0] == 0x43 && s[1] == 0x4C && s[2] == 1 && s[3] == n
    ensures s == Header(n)
  {
  }

  function Body(t: Table): (s: bytes)
    ensures |s| == HDR + ENTRY * |t|
  {
    Header(|t|) + Entries(t)
  }

  /** The image of a table: header, entries, checksum. */
  function Image(t: Table): (s: bytes)
    ensures |s| == HDR + ENTRY * |t| + 1
  {
    Body(t) + [C8.Crc(Body(t))]
  }

  /** The octets of the first `i` entries are out, behind the header; the rest is as before. */
  ghost predicate Reached(now: bytes, es: Table, i: nat, before: bytes) {
    && i <= |es| && HDR + ENTRY * |es| < |before|
    && now == Header(|es|) + Entries(es[..i]) + before[HDR + ENTRY * i..]
  }

  /** The encoder stopped at the first entry with a parameter out of range, those before it written. */
  ghost predicate Abandoned(now: bytes, es: Table, before: bytes) {
    exists i :: 0 <= i < |es| && AllInsitu(es[..i]) && !Insitu(es[i].param) && Reached(now, es, i, before)
  }

  lemma ReachedNext(s: bytes, es: Table, i: nat, before: bytes)
    requires i < |es| && Reached(s, es, i, before)
    ensures var at := HDR + ENTRY * i;
      |s| == |before| && Reached(s[..at] + EntryBytes(es[i]) + s[at + ENTRY..], es, i + 1, before)
  {
    hide EntryBytes, Header;
    var at := HDR + ENTRY * i;
    var front, rest := Header(|es|) + Entries(es[..i]), before[at..];
    assert es[..i + 1][..i] == es[..i];
    assert s[..at] == front && s[at + ENTRY..] == rest[ENTRY..];
    assert rest[ENTRY..] == before[at + ENTRY..];
    assert Header(|es|) + (Entries(es[..i]) + EntryBytes(es[i])) == front + EntryBytes(es[i]);
  }

  /** calib_table_encode. */
  method CalibTableEncode(es: seq<Entry>, out: array<byte>) returns (rc: int)
    modifies out
    ensures |es| > MAX_ENTRIES ==> rc == -EINVAL && out[..] == old(out[..])
    ensures |es| <= MAX_ENTRIES && out.Length < |Image(es)| ==> rc == -ENOSPC && out[..] == old(out[..])
    ensures |es| <= MAX_ENTRIES && out.Length >= |Image(es)| ==>
      if AllInsitu(es) then rc == |Image(es)| && out[..rc] == Image(es) && out[rc..] == old(out[rc..])
      else rc == -EINVAL && Abandoned(out[..], es, old(out[..]))
  {
    hide Entries, Header, C8.Crc;
    if |es| > MAX_ENTRIES { return -EINVAL; }
    var need := HDR + |es| * ENTRY + 1;
    if out.Length < need { return -ENOSPC; }
    ghost var before := out[..];
    out[0], out[1], out[2], out[3] := 0x43, 0x4C, 1, |es|;
    HeaderIs(out[..HDR], |es|);
    assert out[HDR..] == before[HDR..];
    var ok := WriteEntries(es, out);
    if !ok { return -EINVAL; }
    ghost var body, rest := out[..need - 1], out[need - 1..];
    TailOfTail(before, HDR, need - 1 - HDR);
    assert rest == before[need - 1..];
    var crc := C8.PodConfigCrc8(out[..need - 1]);
    out[need - 1] := crc;
    assert out[..need - 1] == body && out[..need] == body + [crc];
    assert out[need..] == rest[1..] == before[need..];
    return need;
  }

  /** The encoder's loop. */
  method WriteEntries(es: Table, out: array<byte>) returns (ok: bool)
    requires |es| <= MAX_ENTRIES && out.Length >= |Image(es)| && out[..HDR] == Header(|es|)
    modifies out
    ensures ok == AllInsitu(es)
    ensures ok ==> out[..|Body(es)|] == Body(es) && out[|Body(es)|..] == old(out[|Body(es)|..])
    ensures !ok ==> forall before :: |before| == out.Length && before[HDR..] == old(out[HDR..]) ==>
                      Abandoned(out[..], es, before)
  {
    hide EntryBytes, C8.Crc, Image, Header, Reached;
    ghost var before := out[..];
    var i := 0;
    ReachedNone(before, es);
    while i < |es|
      invariant 0 <= i <= |es| && AllInsitu(es[..i]) && Reached(out[..], es, i, before)
    {
      if !Insitu(es[i].param) {
        forall b | |b| == out.Length && b[HDR..] == before[HDR..] ensures Abandoned(out[..], es, b) {
          ReachedFrom(out[..], es, i, before, b);
        }
        return false;
      }
      assert es[..i + 1][..i] == es[..i];
      ReachedNext(out[..], es, i, before);
      WriteEntry(es[i], out, HDR + ENTRY * i);
      i := i + 1;
    }
    ReachedAll(out[..], es, before);
    assert es[..i] == es;
    return true;
  }

  lemma ReachedNone(s: bytes, es: Table)
    requires HDR + ENTRY * |es| < |s| && s[..HDR] == Header(|es|)
    ensures Reached(s, es, 0, s)
  {
    assert s == s[..HDR] + [] + s[HDR..];
  }

  lemma ReachedFrom(s: bytes, es: Table, i: nat, before: bytes, b: bytes)
    requires Reached(s, es, i, before) && |b| == |before| && b[HDR..] == before[HDR..]
    ensures Reached(s, es, i, b)
  {
    hide Header, Entries;
    assert b[HDR + ENTRY * i..] == b[HDR..][ENTRY * i..] && before[HDR + ENTRY * i..] == before[HDR..][ENTRY * i..];
  }

  lemma ReachedAll(s: bytes, es: Table, before: bytes)
    requires Reached(s, es, |es|, before)
    ensures |s| == |before| && s[..|Body(es)|] == Body(es) && s[|Body(es)|..] == before[|Body(es)|..]
  {
    hide Header, Entries;
    assert es[..|es|] == es;
  }

  /** The stores of one round of the encoder's loop. */
  method WriteEntry(e: Entry, out: array<byte>, at: nat)
    requires at + ENTRY <= out.Length
    modifies out
    ensures out[..] == old(out[..at]) + EntryBytes(e) + old(out[at + ENTRY..])
  {
    hide PutI32;
    ghost var before := out[..];
    var s := EntryBytes(e);
    forall k | 0 <= k < ENTRY { out[at + k] := s[k]; }
    assert out[at..at + ENTRY] == s;
    assert out[..] == out[..at] + out[at..at + ENTRY] + out[at + ENTRY..];
  }

  function EntryAt(s: bytes, i: nat): Entry
    requires HDR + ENTRY * (i + 1) <= |s|
  {
    EntryOf(s[HDR + ENTRY * i..HDR + ENTRY * (i + 1)])
  }

  /** The first `n` entries of an image. */
  function EntriesIn(s: bytes, n: nat): (es: seq<Entry>)
    requires HDR + ENTRY * n <= |s|
    ensures |es| == n
  {
    if n == 0 then [] else EntriesIn(s, n - 1) + [EntryAt(s, n - 1)]
  }

  /** calib_table_decode. */
  function Decode(s: bytes): (r: Result<Table>) {
    if |s| < HDR + 1 then Err(-ENOENT)
    else if s[..4] == [0xFF, 0xFF, 0xFF, 0xFF] then Err(-ENOENT)
    else if s[..3] != [0x43, 0x4C, 1] then Err(-EINVAL)
    else if s[3] as int > MAX_ENTRIES then Err(-EINVAL)
    else
      var need := HDR + s[3] as int * ENTRY + 1;
      if |s| < need || s[need - 1] != C8.Crc(s[..need - 1]) then Err(-EINVAL)
      else if !AllInsitu(EntriesIn(s, s[3])) then Err(-EINVAL)
      else Ok(EntriesIn(s, s[3]))
  }

  method CalibTableDecode(s: bytes) returns (r: Result<Table>)
    ensures r == Decode(s)
  {
    hide EntryOf, C8.Crc;
    if |s| < HDR + 1 { return Err(-ENOENT); }
    if s[0] == 0xFF && s[1] == 0xFF && s[2] == 0xFF && s[3] == 0xFF { return Err(-ENOENT); }
    if s[0] != 0x43 || s[1] != 0x4C || s[2] != 1 { return Err(-EINVAL); }
    var n := s[3];
    if n > 16 { return Err(-EINVAL); }
    var need := HDR + n as int * ENTRY + 1;
    if |s| < need { return Err(-EINVAL); }
    var crc := C8.PodConfigCrc8(s[..need - 1]);
    if s[need - 1] != crc { return Err(-EINVAL); }
    var es: seq<Entry>, i := [], 0;
    while i < n as int
      invariant 0 <= i <= n as int && es == EntriesIn(s, i) && AllInsitu(es)
    {
      EntriesInPrefix(s, n, i);
      var e := EntryOf(s[HDR + ENTRY * i..HDR + ENTRY * (i + 1)]);
      if !Insitu(e.param) { return Err(-EINVAL); }
      es := es + [e];
      i := i + 1;
    }
    return Ok(es);
  }

  lemma {:induction false} EntriesInPrefix(s: bytes, n: nat, i: nat)
    requires HDR + ENTRY * n <= |s| && i < n
    ensures EntriesIn(s, n)[i] == EntryAt(s, i)
  {
    hide EntryOf;
    if i < n - 1 { EntriesInPrefix(s, n - 1, i); }
  }

  lemma EntryRoundTrip(e: Entry, s: bytes)
    requires |s| == ENTRY
    ensures EntryOf(EntryBytes(e)) == e && EntryBytes(EntryOf(s)) == s
  {
    hide PutI32, GetI32;
    I32RoundTrip(e.rawLo, s[1..5]);
    I32RoundTrip(e.refLo, s[5..9]);
    I32RoundTrip(e.rawHi, s[9..13]);
    I32RoundTrip(e.refHi, s[13..17]);
    var b := EntryBytes(e);
    assert b[1..5] == PutI32(e.rawLo) && b[5..9] == PutI32(e.refLo);
    assert b[9..13] == PutI32(e.rawHi) && b[13..17] == PutI32(e.refHi);
    assert s == [s[0]] + s[1..5] + s[5..9] + s[9..13] + s[13..17];
  }

  /** The entries of an image decode to the entries encoded, whatever follows. */
  lemma {:induction false} EntriesRoundTrip(h: bytes, es: seq<Entry>, tail: bytes)
    requires |h| == HDR
    ensures EntriesIn(h + Entries(es) + tail, |es|) == es
    decreases |es|
  {
    hide EntryOf, EntryBytes;
    if es != [] {
      var n := |es| - 1;
      var last := EntryBytes(es[n]);
      var front := h + Entries(es[..n]);
      Middle(front, last, tail);
      assert h + Entries(es) == front + last;
      EntriesRoundTrip(h, es[..n], last + tail);
      EntryRoundTrip(es[n], last);
    }
  }

  lemma Middle(a: bytes, b: bytes, c: bytes)
    ensures a + b + c == a + (b + c) && (a + b + c)[|a|..|a| + |b|] == b
  {
  }

  lemma {:induction false} EntriesReencode(s: bytes, n: nat)
    requires HDR + ENTRY * n <= |s|
    ensures Entries(EntriesIn(s, n)) == s[HDR..HDR + ENTRY * n]
  {
    hide EntryOf, EntryBytes;
    if n > 0 {
      EntriesReencode(s, n - 1);
      var es := EntriesIn(s, n);
      assert es[..n - 1] == EntriesIn(s, n - 1);
      var last := s[HDR + ENTRY * (n - 1)..HDR + ENTRY * n];
      EntryRoundTrip(es[n - 1], last);
      assert s[HDR..HDR + ENTRY * n] == s[HDR..HDR + ENTRY * (n - 1)] + last;
    }
  }

  /**
   The decoder accepts exactly the images the encoder prints, whatever follows them in the
   EEPROM, and gives back the table that was encoded.
   */
  lemma AcceptsExactly(s: bytes, t: Table)
    ensures Decode(s) == Ok(t) <==> AllInsitu(t) && |s| >= |Image(t)| && s[..|Image(t)|] == Image(t)
  {
    hide Decode, Image;
    if Decode(s) == Ok(t) { DecodedIsImage(s, t); }
    var k := |Image(t)|;
    if AllInsitu(t) && |s| >= k && s[..k] == Image(t) {
      assert s == Image(t) + s[k..];
      ImageDecodes(t, s[k..]);
    }
  }

  lemma DecodedIsImage(s: bytes, t: Table)
    requires Decode(s) == Ok(t)
    ensures AllInsitu(t) && |s| >= |Image(t)| && s[..|Image(t)|] == Image(t)
  {
    hide C8.Crc, EntriesIn, Entries;
    var n := HDR + ENTRY * |t|;
    EntriesReencode(s, |t|);
    assert s[..4] == s[..3] + [s[3]] == Header(|t|);
    assert s[..n] == s[..4] + s[4..n] == Body(t);
    assert s[..n + 1] == s[..n] + [s[n]];
  }

  lemma ImageDecodes(t: Table, tail: bytes)
    requires AllInsitu(t)
    ensures Decode(Image(t) + tail) == Ok(t)
  {
    hide C8.Crc, EntriesIn, Entries;
    var s, n := Image(t) + tail, HDR + ENTRY * |t|;
    var rest := [C8.Crc(Body(t))] + tail;
    assert s == Header(|t|) + Entries(t) + rest;
    EntriesRoundTrip(Header(|t|), t, rest);
    assert s[..n] == Body(t) && s[n] == C8.Crc(Body(t));
    assert s[..4] == Header(|t|) && s[..3] == Header(|t|)[..3] && s[3] == Header(|t|)[3];
    assert s[..4][0] != 0xFF;
  }

  lemma OtherOctetRefused(t: Table, s: bytes, i: nat)
    requires |s| == |Image(t)| && i < |s| && i != 3 && s[i] != Image(t)[i]
    requires forall k :: 0 <= k < |s| && k != i ==> s[k] == Image(t)[k]
    ensures Decode(s).Err?
  {
    hide C8.Crc, EntriesIn, Entries;
    var n := |s| - 1;
    var body := Body(t);
    assert n == HDR + |t| * ENTRY && Image(t)[n] == C8.Crc(body);
    assert forall k :: 0 <= k < n ==> Image(t)[k] == body[k];
    assert s[3] == |t| as byte by { assert body[3] == |t|; }
    if i >= 4 {
      if i == n { assert s[..n] == body; } else { C8.OneOctetChangesCrc(s[..n], body, i); }
      assert s[n] != C8.Crc(s[..n]);
    } else {
      assert body[..3] == [0x43, 0x4C, 1];
      assert s[..3][i] == s[i] != body[i] == body[..3][i];
    }
  }

  /** A shorter image is believed if an octet inside the entries happens to be its checksum. */
  predicate Misread(s: bytes, n: nat) {
    HDR + ENTRY * n < |s| && s[HDR + ENTRY * n] == C8.Crc(s[..HDR + ENTRY * n])
  }

  /** An image whose count octet alone was changed. */
  lemma CountOctet(t: Table, s: bytes)
    requires AllInsitu(t) && |s| == |Image(t)| && s[3] as int != |t|
    requires forall k :: 0 <= k < |s| && k != 3 ==> s[k] == Image(t)[k]
    ensures Decode(s).Ok? <==> s[3] as int < |t| && Misread(s, s[3] as int)
  {
    hide C8.Crc, EntriesIn, Entries;
    var n, m := |t|, s[3] as int;
    assert forall k :: 0 <= k < 4 ==> Image(t)[k] == Header(n)[k];
    assert s[..4][0] == 0x43 && s[..3] == [0x43, 0x4C, 1];
    if m < n {
      CountedEntries(t, s, m);
      assert Decode(s).Ok? <==> Misread(s, m);
    }
  }

  lemma CountedEntries(t: Table, s: bytes, m: nat)
    requires AllInsitu(t) && |s| == |Image(t)| && m <= |t|
    requires forall k :: 0 <= k < |s| && k != 3 ==> s[k] == Image(t)[k]
    ensures AllInsitu(EntriesIn(s, m))
  {
    hide C8.Crc, Entries, EntryOf;
    var n, es := |t|, Entries(t);
    var last := [C8.Crc(Body(t))];
    assert Image(t) == Header(n) + es + last;
    forall k | 0 <= k < |s| ensures s[k] == (s[..4] + es + last)[k] {
      if k >= 4 { assert Image(t)[k] == (es + last)[k - 4]; }
    }
    assert s == s[..4] + es + last;
    EntriesRoundTrip(s[..4], t, last);
    forall j | 0 <= j < m ensures EntriesIn(s, m)[j] == t[j] {
      EntriesInPrefix(s, m, j);
      EntriesInPrefix(s, n, j);
    }
  }

  /**
   An image damaged in any one octet is refused, except exactly where a smaller count makes an
   octet inside the entries the checksum of those before it.
   */
  lemma OneOctetRefused(t: Table, s: bytes, i: nat)
    requires AllInsitu(t) && |s| == |Image(t)| && i < |s| && s[i] != Image(t)[i]
    requires forall k :: 0 <= k < |s| && k != i ==> s[k] == Image(t)[k]
    ensures Decode(s).Err? <==> !(i == 3 && s[3] as int < |t| && Misread(s, s[3] as int))
  {
    hide C8.Crc, EntriesIn, Entries, Decode, Misread, AllInsitu;
    assert Image(t)[3] as int == |t|;
    if i == 3 { CountOctet(t, s); } else { OtherOctetRefused(t, s, i); }
  }
}
