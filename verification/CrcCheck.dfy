/**
 The two checksums as the C loops compute them, on machine words (wire.c:6-17, pod_position.c:6-17):
 the registers of binary digits are those words, and the check values of "123456789" come out.
 */
module CrcCheck {
  import opened Bytes
  import opened CrcRegister
  import C = Crc16
  import D = Crc8

  /** Digit `i` of a word of 16, counted from the most significant. */
  function Mask(i: nat): bv16
    requires i < 16
    decreases 16 - i
  {
    if i == 15 then 1 else Mask(i + 1) << 1
  }

  predicate Digit(x: bv16, i: nat)
    requires i < 16
  {
    x & Mask(i) != 0
  }

  /** The digits of a machine word, most significant first. */
  function Word(x: bv16): Reg {
    seq(16, i requires 0 <= i < 16 => Digit(x, i))
  }

  /** The body of the inner loop of wire_crc16. */
  function Shifted(x: bv16): bv16 { if x & 0x8000 != 0 then (x << 1) ^ 0x1021 else x << 1 }

  function ShiftedN(x: bv16, n: nat): bv16
    decreases n
  {
    if n == 0 then x else ShiftedN(Shifted(x), n - 1)
  }

  /** An octet XORed into the top. */
  function Entered(x: bv16, w: bv16): bv16 { x ^ (w << 8) }

  /** wire_crc16 on machine words. */
  function Loop(data: seq<bv16>): bv16
    decreases |data|
  {
    if data == [] then 0xFFFF else ShiftedN(Entered(Loop(data[..|data| - 1]), data[|data| - 1]), 8)
  }

  predicate Single(m: bv16) { m != 0 && m & (m - 1) == 0 }

  lemma XorMasked(x: bv16, y: bv16, m: bv16)
    requires Single(m)
    ensures ((x ^ y) & m != 0) == ((x & m != 0) != (y & m != 0))
  {
  }

  lemma ShiftMasked(x: bv16, y: bv16, m: bv16, k: bv16)
    requires Single(k) && k & 0x8000 == 0 && m == k << 1 && y == x << 1
    ensures (y & m != 0) == (x & k != 0)
  {
  }

  lemma MaskValues(i: nat)
    requires i < 16
    ensures Single(Mask(i)) && (i > 0 ==> Mask(i) & 0x8000 == 0) && (i < 15 ==> Mask(i) & 1 == 0)
  {
    assert Mask(15) == 0x0001 && Mask(14) == 0x0002 && Mask(13) == 0x0004 && Mask(12) == 0x0008;
    assert Mask(11) == 0x0010 && Mask(10) == 0x0020 && Mask(9) == 0x0040 && Mask(8) == 0x0080;
    assert Mask(7) == 0x0100 && Mask(6) == 0x0200 && Mask(5) == 0x0400 && Mask(4) == 0x0800;
    assert Mask(3) == 0x1000 && Mask(2) == 0x2000 && Mask(1) == 0x4000 && Mask(0) == 0x8000;
  }

  lemma XorIs(x: bv16, y: bv16)
    ensures Xor(Word(x), Word(y)) == Word(x ^ y)
  {
    hide Mask;
    forall i | 0 <= i < 16 ensures Digit(x ^ y, i) == (Digit(x, i) != Digit(y, i)) {
      MaskValues(i);
      XorMasked(x, y, Mask(i));
    }
  }

  lemma LeftDigit(x: bv16, y: bv16, i: nat)
    requires i < 16 && y == x << 1
    ensures Digit(y, i) == (i < 15 && Digit(x, i + 1))
  {
    hide Digit, Mask;
    if i < 15 { InnerDigit(x, y, i); } else { LastDigit(x, y); }
  }

  lemma InnerDigit(x: bv16, y: bv16, i: nat)
    requires i < 15 && y == x << 1
    ensures Digit(y, i) == Digit(x, i + 1)
  {
    hide Mask;
    MaskValues(i + 1);
    NextMask(i);
    ShiftMasked(x, y, Mask(i), Mask(i + 1));
  }

  lemma LastDigit(x: bv16, y: bv16)
    requires y == x << 1
    ensures !Digit(y, 15)
  {
    LastMask();
    LowestClear(x, y);
  }

  lemma NextMask(i: nat)
    requires i < 15
    ensures Mask(i) == Mask(i + 1) << 1
  {
  }

  lemma LastMask()
    ensures Mask(15) == 1
  {
  }

  lemma LowestClear(x: bv16, y: bv16)
    requires y == x << 1
    ensures y & 1 == 0
  {
  }

  lemma LeftIs(x: bv16)
    ensures Word(x)[1..] + [false] == Word(x << 1)
  {
    hide Digit;
    var y := Word(x)[1..] + [false];
    forall i | 0 <= i < 16 ensures y[i] == Word(x << 1)[i] {
      LeftDigit(x, x << 1, i);
    }
  }

  lemma TopMask()
    ensures Mask(0) == 0x8000
  {
    MaskValues(0);
  }

  /** The register's digits shift as the machine word does. */
  lemma ShiftIs(x: bv16)
    ensures Shift(Word(x)) == Word(Shifted(x))
  {
    hide Mask, Xor;
    TopMask();
    LeftIs(x);
    PolyIs();
    XorIs(x << 1, 0x1021);
  }

  lemma PolyIs()
    ensures POLY == Word(0x1021)
  {
    hide Mask;
    forall i | 0 <= i < 16 ensures POLY[i] == Digit(0x1021, i) {
      PolyDigit(i);
    }
  }

  lemma PolyDigit(i: nat)
    requires i < 16
    ensures POLY[i] == Digit(0x1021, i)
  {
    assert Digit(0x1021, 15) && Digit(0x1021, 10) && Digit(0x1021, 3);
  }

  // ------------------------------------------------------------ numbers as machine words

  function Push(x: bv16, d: bool): bv16 { (x << 1) | (if d then 1 else 0) }

  /** The machine word of `n` digits that is the number `v`. */
  function WordOf(v: nat, n: nat): bv16 {
    if n == 0 then 0 else Push(WordOf(v / 2, n - 1), v % 2 == 1)
  }

  lemma OrMasked(y: bv16, b: bv16, m: bv16)
    requires b & 0xFFFE == 0 && m & 1 == 0
    ensures ((y | b) & m != 0) == (y & m != 0)
  {
  }

  lemma OrLowest(y: bv16, b: bv16)
    requires b & 0xFFFE == 0 && y & 1 == 0
    ensures ((y | b) & 1 != 0) == (b != 0)
  {
  }

  lemma OrDigit(y: bv16, b: bv16, i: nat)
    requires i < 15 && b & 0xFFFE == 0
    ensures Digit(y | b, i) == Digit(y, i)
  {
    hide Mask;
    MaskValues(i);
    OrMasked(y, b, Mask(i));
  }

  lemma OrLast(x: bv16, b: bv16)
    requires b & 0xFFFE == 0
    ensures Digit((x << 1) | b, 15) == (b != 0)
  {
    LastMask();
    LowestClear(x, x << 1);
    OrLowest(x << 1, b);
  }

  lemma PushDigit(x: bv16, d: bool, i: nat)
    requires i < 16
    ensures Digit(Push(x, d), i) == if i < 15 then Digit(x, i + 1) else d
  {
    hide Digit, Mask;
    if i < 15 {
      OrDigit(x << 1, if d then 1 else 0, i);
      LeftDigit(x, x << 1, i);
    } else {
      OrLast(x, if d then 1 else 0);
    }
  }

  lemma {:induction false} WordOfDigits(v: nat, n: nat, i: nat)
    requires n <= 16 && i < 16
    ensures Digit(WordOf(v, n), i) == (i >= 16 - n && C.Digits(v, n)[i - (16 - n)])
  {
    hide Digit, Push;
    if n == 0 {
      NoDigit(i);
    } else {
      PushDigit(WordOf(v / 2, n - 1), v % 2 == 1, i);
      if i < 15 { WordOfDigits(v / 2, n - 1, i + 1); }
    }
  }

  lemma NoDigit(i: nat)
    requires i < 16
    ensures !Digit(0, i)
  {
    hide Mask;
  }

  lemma WordOfIs(v: nat)
    ensures Word(WordOf(v, 16)) == C.Digits(v, 16)
  {
    hide Digit;
    forall i | 0 <= i < 16 ensures Digit(WordOf(v, 16), i) == C.Digits(v, 16)[i] {
      WordOfDigits(v, 16, i);
    }
  }

  /** An octet moved to the top. */
  lemma RaisedIs(v: byte)
    ensures C.Octet(v) + Zeros(8) == Word(WordOf(v, 8) << 8)
  {
    hide Digit;
    var d := C.Octet(v) + Zeros(8);
    forall i | 0 <= i < 16 ensures d[i] == Digit(WordOf(v, 8) << 8, i) {
      RaisedDigit(WordOf(v, 8), i);
      if i < 8 { WordOfDigits(v, 8, i + 8); }
    }
  }

  lemma RaisedDigit(x: bv16, i: nat)
    requires i < 16
    ensures Digit(x << 8, i) == (i < 8 && Digit(x, i + 8))
  {
    hide Digit;
    if i < 8 { UpperDigit(x, i); } else { LowerDigit(x, i); }
  }

  lemma UpperDigit(x: bv16, i: nat)
    requires i < 8
    ensures Digit(x << 8, i) == Digit(x, i + 8)
  {
    hide Mask;
    MaskFar(i);
    Far(x, Mask(i), Mask(i + 8));
  }

  lemma LowerDigit(x: bv16, i: nat)
    requires 8 <= i < 16
    ensures !Digit(x << 8, i)
  {
    hide Mask;
    MaskFar(i);
    Cleared(x, Mask(i));
  }

  lemma MaskFar(i: nat)
    requires i < 16
    ensures i < 8 ==> Mask(i) == Mask(i + 8) << 8 && Mask(i + 8) & 0xFF00 == 0
    ensures i >= 8 ==> Mask(i) & 0xFF00 == 0
  {
    assert Mask(15) == 0x0001 && Mask(14) == 0x0002 && Mask(13) == 0x0004 && Mask(12) == 0x0008;
    assert Mask(11) == 0x0010 && Mask(10) == 0x0020 && Mask(9) == 0x0040 && Mask(8) == 0x0080;
  }

  lemma Far(x: bv16, m: bv16, k: bv16)
    requires k & 0xFF00 == 0 && m == k << 8
    ensures ((x << 8) & m != 0) == (x & k != 0)
  {
  }

  lemma Cleared(x: bv16, m: bv16)
    requires m & 0xFF00 == 0
    ensures (x << 8) & m == 0
  {
  }

  // ---------------------------------------------------------------------- CRC-16

  lemma EnterAs(x: bv16, y: bv16, v: byte)
    requires C.Octet(v) + Zeros(8) == Word(y)
    ensures Enter(Word(x), C.Octet(v)) == Word(x ^ y)
  {
    hide Word, Xor, C.Octet;
    XorIs(x, y);
  }

  lemma EnterIs(x: bv16, v: byte)
    ensures Enter(Word(x), C.Octet(v)) == Word(Entered(x, WordOf(v, 8)))
  {
    hide Word, Enter, WordOf, C.Octet;
    RaisedIs(v);
    EnterAs(x, WordOf(v, 8) << 8, v);
  }

  lemma {:induction false} ShiftNIs(x: bv16, n: nat)
    ensures ShiftN(Word(x), n) == Word(ShiftedN(x, n))
    decreases n
  {
    hide Word, Shift, Shifted;
    if n > 0 {
      ShiftIs(x);
      ShiftNIs(Shifted(x), n - 1);
    }
  }

  /** The machine words of a message's octets. */
  function Words(data: bytes): (ws: seq<bv16>)
    ensures |ws| == |data|
  {
    seq(|data|, i requires 0 <= i < |data| => WordOf(data[i], 8))
  }

  lemma {:induction false} RegisterIs(data: bytes)
    ensures Feed(C.INIT, C.MessageBits(data)) == Word(Loop(Words(data)))
    decreases |data|
  {
    hide Word, WordOf, Enter, Entered, ShiftN, ShiftedN, C.Octet;
    if data == [] {
      InitIs();
    } else {
      var n := |data| - 1;
      assert data[..n + 1] == data && Words(data)[..n] == Words(data[..n]);
      C.MessageBitsNext(data, n);
      FeedAppend(C.INIT, C.MessageBits(data[..n]), C.Octet(data[n]));
      RegisterIs(data[..n]);
      var x := Loop(Words(data[..n]));
      FeedIsShift(Word(x), C.Octet(data[n]));
      EnterIs(x, data[n]);
      ShiftNIs(Entered(x, WordOf(data[n], 8)), 8);
    }
  }

  lemma InitIs()
    ensures C.INIT == Word(0xFFFF)
  {
    hide Mask;
    forall i | 0 <= i < 16 ensures Digit(0xFFFF, i) {
      MaskValues(i);
      Full(Mask(i));
    }
  }

  lemma Full(m: bv16)
    ensures 0xFFFF & m == m
  {
  }

  lemma WordInjective(v: u16, w: u16)
    requires Word(WordOf(v, 16)) == Word(WordOf(w, 16))
    ensures v == w
  {
    hide Word, WordOf;
    WordOfIs(v);
    WordOfIs(w);
    C.Powers();
    C.NumberOfDigits(v, 16);
    C.NumberOfDigits(w, 16);
  }

  /** Of every message: the CRC, as a machine word, is what the C loop leaves in its variable. */
  lemma CrcIsTheLoop(data: bytes)
    ensures Word(WordOf(C.Crc(data), 16)) == Word(Loop(Words(data)))
  {
    hide Word, WordOf, C.Digits, C.MessageBits, Feed;
    RegisterIs(data);
    C.DigitsOfNumber(Feed(C.INIT, C.MessageBits(data)));
    WordOfIs(C.Crc(data));
  }

  /** The nine digits "123456789" in ASCII. */
  const CHECK: bytes := [0x31, 0x32, 0x33, 0x34, 0x35, 0x36, 0x37, 0x38, 0x39]

  function Twice(x: bv16): bv16 { Shifted(Shifted(x)) }

  lemma EightShifts(x: bv16)
    ensures ShiftedN(x, 8) == Twice(Twice(Twice(Twice(x))))
  {
    hide Shifted;
  }

  /** One octet of the loop. */
  function Next(x: bv16, w: bv16): bv16 { Twice(Twice(Twice(Twice(Entered(x, w))))) }

  lemma LoopNext(ws: seq<bv16>, k: nat)
    requires k < |ws|
    ensures Loop(ws[..k + 1]) == Next(Loop(ws[..k]), ws[k])
  {
    hide ShiftedN, Twice, Entered;
    EightShifts(Entered(Loop(ws[..k]), ws[k]));
    assert ws[..k + 1][..k] == ws[..k];
  }

  /** The loop has come through `k` octets to `x`. */
  predicate At(ws: seq<bv16>, k: nat, x: bv16) { k <= |ws| && Loop(ws[..k]) == x }

  lemma Advance(ws: seq<bv16>, k: nat, x: bv16, y: bv16)
    requires k < |ws| && At(ws, k, x) && Next(x, ws[k]) == y
    ensures At(ws, k + 1, y)
  {
    hide Next, Loop;
    LoopNext(ws, k);
  }

  lemma OneToThree(ws: seq<bv16>)
    requires |ws| == 9 && ws[0] == 0x31 && ws[1] == 0x32 && ws[2] == 0x33 && At(ws, 0, 0xFFFF)
    ensures At(ws, 3, 0x5BCE)
  {
    hide At;
    Advance(ws, 0, 0xFFFF, 0xC782);
    Advance(ws, 1, 0xC782, 0x3DBA);
    Advance(ws, 2, 0x3DBA, 0x5BCE);
  }

  lemma FourToSix(ws: seq<bv16>)
    requires |ws| == 9 && ws[3] == 0x34 && ws[4] == 0x35 && ws[5] == 0x36 && At(ws, 3, 0x5BCE)
    ensures At(ws, 6, 0x2EF4)
  {
    hide At;
    Advance(ws, 3, 0x5BCE, 0x5349);
    Advance(ws, 4, 0x5349, 0x4560);
    Advance(ws, 5, 0x4560, 0x2EF4);
  }

  lemma SevenToNine(ws: seq<bv16>)
    requires |ws| == 9 && ws[6] == 0x37 && ws[7] == 0x38 && ws[8] == 0x39 && At(ws, 6, 0x2EF4)
    ensures At(ws, 9, 0x29B1)
  {
    hide At;
    Advance(ws, 6, 0x2EF4, 0x7718);
    Advance(ws, 7, 0x7718, 0xA12B);
    Advance(ws, 8, 0xA12B, 0x29B1);
  }

  lemma CheckLoop(ws: seq<bv16>)
    requires ws == [0x31, 0x32, 0x33, 0x34, 0x35, 0x36, 0x37, 0x38, 0x39]
    ensures Loop(ws) == 0x29B1
  {
    assert ws[..0] == [] && ws[..9] == ws;
    OneToThree(ws);
    FourToSix(ws);
    SevenToNine(ws);
  }

  lemma NibbleThree()
    ensures WordOf(3, 4) == 3
  {
  }

  lemma Unfolded(v: nat, n: nat)
    requires n > 0
    ensures WordOf(v, n) == Push(WordOf(v / 2, n - 1), v % 2 == 1)
  {
    hide Push;
  }

  lemma UpToFive()
    ensures WordOf(0x6, 5) == 0x6 && WordOf(0x7, 5) == 0x7
  {
    hide WordOf;
    NibbleThree();
    Unfolded(0x6, 5);
    Unfolded(0x7, 5);
  }

  lemma UpToSix()
    ensures WordOf(0xC, 6) == 0xC && WordOf(0xD, 6) == 0xD && WordOf(0xE, 6) == 0xE
  {
    hide WordOf;
    UpToFive();
    Unfolded(0xC, 6);
    Unfolded(0xD, 6);
    Unfolded(0xE, 6);
  }

  lemma UpToSeven()
    ensures WordOf(0x18, 7) == 0x18 && WordOf(0x19, 7) == 0x19 && WordOf(0x1A, 7) == 0x1A
    ensures WordOf(0x1B, 7) == 0x1B && WordOf(0x1C, 7) == 0x1C
  {
    hide WordOf;
    UpToSix();
    Unfolded(0x18, 7);
    Unfolded(0x19, 7);
    Unfolded(0x1A, 7);
    Unfolded(0x1B, 7);
    Unfolded(0x1C, 7);
  }

  lemma Digits1To3()
    ensures WordOf(0x31, 8) == 0x31 && WordOf(0x32, 8) == 0x32 && WordOf(0x33, 8) == 0x33
  {
    hide WordOf;
    UpToSeven();
    Unfolded(0x31, 8);
    Unfolded(0x32, 8);
    Unfolded(0x33, 8);
  }

  lemma Digits4To6()
    ensures WordOf(0x34, 8) == 0x34 && WordOf(0x35, 8) == 0x35 && WordOf(0x36, 8) == 0x36
  {
    hide WordOf;
    UpToSeven();
    Unfolded(0x34, 8);
    Unfolded(0x35, 8);
    Unfolded(0x36, 8);
  }

  lemma Digits7To9()
    ensures WordOf(0x37, 8) == 0x37 && WordOf(0x38, 8) == 0x38 && WordOf(0x39, 8) == 0x39
  {
    hide WordOf;
    UpToSeven();
    Unfolded(0x37, 8);
    Unfolded(0x38, 8);
    Unfolded(0x39, 8);
  }

  lemma CheckWord()
    ensures WordOf(0x29B1, 16) == 0x29B1
  {
    assert WordOf(0x29, 8) == 0x29;
    assert WordOf(0x29B, 12) == 0x29B;
  }

  lemma CheckWords()
    ensures Words(CHECK) == [0x31, 0x32, 0x33, 0x34, 0x35, 0x36, 0x37, 0x38, 0x39]
  {
    hide WordOf;
    Digits1To3();
    Digits4To6();
    Digits7To9();
  }

  lemma SameNumber(v: u16, w: u16, x: bv16)
    requires Word(WordOf(v, 16)) == Word(x) && WordOf(w, 16) == x
    ensures v == w
  {
    hide Word, WordOf;
    WordInjective(v, w);
  }

  /** The check value that the catalogue of CRCs gives for CRC-16/CCITT-FALSE. */
  lemma CheckValue16()
    ensures C.Crc(CHECK) == 0x29B1
  {
    hide Word, WordOf, C.Crc, Loop, Words;
    CrcIsTheLoop(CHECK);
    CheckWords();
    CheckWord();
    CheckLoop(Words(CHECK));
    SameNumber(C.Crc(CHECK), 0x29B1, 0x29B1);
  }

  // ----------------------------------------------------------------------- CRC-8

  /** The lower half of a word. */
  function Low(x: bv16): D.Reg8 { Word(x)[8..] }

  /** The body of the inner loop of pod_config_crc8. */
  function Shifted8(x: bv16): bv16 { if x & 0x80 != 0 then ((x << 1) ^ 0x07) & 0xFF else (x << 1) & 0xFF }

  function Shifted8N(x: bv16, n: nat): bv16 { if n == 0 then x else Shifted8(Shifted8N(x, n - 1)) }

  function Entered8(x: bv16, w: bv16): bv16 { x ^ w }

  /** pod_config_crc8 on machine words. */
  function Loop8(data: seq<bv16>): bv16
    decreases |data|
  {
    if data == [] then 0 else Shifted8N(Entered8(Loop8(data[..|data| - 1]), data[|data| - 1]), 8)
  }

  lemma KeptMasked(y: bv16, m: bv16)
    requires m & 0xFF00 == 0
    ensures (y & 0xFF) & m == y & m
  {
  }

  lemma KeptDigit(y: bv16, i: nat)
    requires 8 <= i < 16
    ensures Digit(y & 0xFF, i) == Digit(y, i)
  {
    hide Mask;
    MaskFar(i);
    KeptMasked(y, Mask(i));
  }

  lemma KeptIs(y: bv16)
    ensures Low(y & 0xFF) == Low(y)
  {
    hide Digit;
    forall i | 8 <= i < 16 ensures Digit(y & 0xFF, i) == Digit(y, i) { KeptDigit(y, i); }
  }

  lemma LowXor(x: bv16, y: bv16)
    ensures Xor(Low(x), Low(y)) == Low(x ^ y)
  {
    hide Digit;
    XorIs(x, y);
    assert Xor(Word(x), Word(y))[8..] == Xor(Word(x)[8..], Word(y)[8..]);
  }

  lemma LowLeft(x: bv16)
    ensures Low(x)[1..] + [false] == Low(x << 1)
  {
    hide Word;
    LeftIs(x);
    assert (Word(x)[1..] + [false])[8..] == Word(x)[8..][1..] + [false];
  }

  lemma Poly8Is()
    ensures D.POLY8 == Low(0x07)
  {
    hide Mask;
    forall i | 0 <= i < 8 ensures D.POLY8[i] == Digit(0x07, 8 + i) { Poly8Digit(i); }
  }

  lemma Poly8Digit(i: nat)
    requires i < 8
    ensures D.POLY8[i] == Digit(0x07, 8 + i)
  {
    assert Digit(0x07, 15) && Digit(0x07, 14) && Digit(0x07, 13);
    assert !Digit(0x07, 12) && !Digit(0x07, 11) && !Digit(0x07, 10) && !Digit(0x07, 9) && !Digit(0x07, 8);
  }

  lemma Top8(x: bv16)
    ensures Low(x)[0] == (x & 0x80 != 0)
  {
    hide Mask;
    EighthMask();
  }

  lemma EighthMask()
    ensures Mask(8) == 0x80
  {
    assert Mask(15) == 0x0001 && Mask(14) == 0x0002 && Mask(13) == 0x0004 && Mask(12) == 0x0008;
  }

  lemma Shift8Is(x: bv16)
    ensures D.Shift8(Low(x)) == Low(Shifted8(x))
  {
    hide Low, Xor;
    Top8(x);
    LowLeft(x);
    Poly8Is();
    LowXor(x << 1, 0x07);
    KeptIs(x << 1);
    KeptIs((x << 1) ^ 0x07);
  }

  lemma {:induction false} Shift8NIs(x: bv16, n: nat)
    ensures D.Shift8N(Low(x), n) == Low(Shifted8N(x, n))
  {
    hide Low, D.Shift8, Shifted8;
    if n > 0 {
      Shift8NIs(x, n - 1);
      Shift8Is(Shifted8N(x, n - 1));
    }
  }

  lemma LowOf(v: byte)
    ensures Low(WordOf(v, 8)) == C.Octet(v)
  {
    hide Digit;
    forall i | 0 <= i < 8 ensures Digit(WordOf(v, 8), 8 + i) == C.Octet(v)[i] { WordOfDigits(v, 8, 8 + i); }
  }

  lemma Enter8Is(x: bv16, v: byte)
    ensures Xor(Low(x), C.Octet(v)) == Low(Entered8(x, WordOf(v, 8)))
  {
    hide Low, Xor, WordOf, C.Octet;
    LowOf(v);
    LowXor(x, WordOf(v, 8));
  }

  lemma {:induction false} Register8Is(data: bytes)
    ensures D.Register(data) == Low(Loop8(Words(data)))
    decreases |data|
  {
    hide Low, WordOf, Xor, Entered8, D.Shift8N, Shifted8N, C.Octet;
    if data == [] {
      Start8();
    } else {
      var n := |data| - 1;
      assert Words(data)[..n] == Words(data[..n]);
      Register8Is(data[..n]);
      var x := Loop8(Words(data[..n]));
      Enter8Is(x, data[n]);
      Shift8NIs(Entered8(x, WordOf(data[n], 8)), 8);
    }
  }

  lemma Start8()
    ensures Zeros(8) == Low(0)
  {
    hide Digit;
    forall i | 8 <= i < 16 ensures !Digit(0, i) { NoDigit(i); }
  }

  /** Of every message: the checksum's digits are those of what the C loop leaves. */
  lemma Crc8IsTheLoop(data: bytes)
    ensures C.Octet(D.Crc(data)) == Low(Loop8(Words(data)))
  {
    hide Low, Loop8, D.Register;
    Register8Is(data);
    C.DigitsOfNumber(D.Register(data));
  }

  function Twice8(x: bv16): bv16 { Shifted8(Shifted8(x)) }

  lemma TwoShifts8(x: bv16, n: nat)
    ensures Shifted8N(x, n + 2) == Twice8(Shifted8N(x, n))
  {
    hide Shifted8;
    assert Shifted8N(x, n + 2) == Shifted8(Shifted8N(x, n + 1));
  }

  lemma EightShifts8(x: bv16)
    ensures Shifted8N(x, 8) == Twice8(Twice8(Twice8(Twice8(x))))
  {
    hide Shifted8;
    TwoShifts8(x, 6);
    TwoShifts8(x, 4);
    TwoShifts8(x, 2);
    TwoShifts8(x, 0);
    assert Shifted8N(x, 0) == x;
  }

  function Next8(x: bv16, w: bv16): bv16 { Twice8(Twice8(Twice8(Twice8(Entered8(x, w))))) }

  predicate At8(ws: seq<bv16>, k: nat, x: bv16) { k <= |ws| && Loop8(ws[..k]) == x }

  lemma Loop8Next(ws: seq<bv16>, k: nat)
    requires k < |ws|
    ensures Loop8(ws[..k + 1]) == Next8(Loop8(ws[..k]), ws[k])
  {
    hide Shifted8N, Twice8, Entered8;
    EightShifts8(Entered8(Loop8(ws[..k]), ws[k]));
    assert ws[..k + 1][..k] == ws[..k];
  }

  lemma Advance8(ws: seq<bv16>, k: nat, x: bv16, y: bv16)
    requires k < |ws| && At8(ws, k, x) && Next8(x, ws[k]) == y
    ensures At8(ws, k + 1, y)
  {
    hide Next8, Loop8;
    Loop8Next(ws, k);
  }

  lemma OneToThree8(ws: seq<bv16>)
    requires |ws| == 9 && ws[0] == 0x31 && ws[1] == 0x32 && ws[2] == 0x33 && At8(ws, 0, 0x00)
    ensures At8(ws, 3, 0xC0)
  {
    hide At8;
    Advance8(ws, 0, 0x00, 0x97);
    Advance8(ws, 1, 0x97, 0x72);
    Advance8(ws, 2, 0x72, 0xC0);
  }

  lemma FourToSix8(ws: seq<bv16>)
    requires |ws| == 9 && ws[3] == 0x34 && ws[4] == 0x35 && ws[5] == 0x36 && At8(ws, 3, 0xC0)
    ensures At8(ws, 6, 0xFD)
  {
    hide At8;
    Advance8(ws, 3, 0xC0, 0xC2);
    Advance8(ws, 4, 0xC2, 0xCB);
    Advance8(ws, 5, 0xCB, 0xFD);
  }

  lemma SevenToNine8(ws: seq<bv16>)
    requires |ws| == 9 && ws[6] == 0x37 && ws[7] == 0x38 && ws[8] == 0x39 && At8(ws, 6, 0xFD)
    ensures At8(ws, 9, 0xF4)
  {
    hide At8;
    Advance8(ws, 6, 0xFD, 0x78);
    Advance8(ws, 7, 0x78, 0xC7);
    Advance8(ws, 8, 0xC7, 0xF4);
  }

  lemma CheckLoop8(ws: seq<bv16>)
    requires ws == [0x31, 0x32, 0x33, 0x34, 0x35, 0x36, 0x37, 0x38, 0x39]
    ensures Loop8(ws) == 0xF4
  {
    assert ws[..0] == [] && ws[..9] == ws;
    OneToThree8(ws);
    FourToSix8(ws);
    SevenToNine8(ws);
  }

  lemma LowCheck()
    ensures Low(0xF4) == C.Octet(0xF4)
  {
    hide Low;
    LowOf(0xF4);
    CheckWord8();
  }

  lemma CheckWord8()
    ensures WordOf(0xF4, 8) == 0xF4
  {
    assert WordOf(0x7, 3) == 0x7;
    assert WordOf(0x1E, 5) == 0x1E;
    assert WordOf(0x7A, 7) == 0x7A;
  }

  /** The check value of the CRC-8 with generator 0x07. */
  lemma CheckValue8()
    ensures D.Crc(CHECK) == 0xF4
  {
    hide Low, D.Crc, Loop8, Words, C.Octet;
    Crc8IsTheLoop(CHECK);
    CheckWords();
    CheckLoop8(Words(CHECK));
    LowCheck();
    C.OctetInjective(D.Crc(CHECK), 0xF4);
  }
}
