/**
 wire_crc16 (wire.c:6-17) on octets: the loop, and what a receiver that compares CRCs detects.
 */
module Crc16 {
  import opened Bytes
  import opened Arith
  import opened CrcRegister

  // --------------------------------------------------------------- numbers and digits

  function Digits(v: nat, n: nat): (s: Bits)
    ensures |s| == n
  {
    if n == 0 then [] else Digits(v / 2, n - 1) + [v % 2 == 1]
  }

  function Number(s: Bits): nat {
    if s == [] then 0 else 2 * Number(s[..|s| - 1]) + if s[|s| - 1] then 1 else 0
  }

  lemma {:induction false} NumberOfDigits(v: nat, n: nat)
    requires v < Pow2(n)
    ensures Number(Digits(v, n)) == v
  {
    if n > 0 {
      NumberOfDigits(v / 2, n - 1);
      assert Digits(v, n)[..n - 1] == Digits(v / 2, n - 1);
    }
  }

  lemma {:induction false} DigitsOfNumber(s: Bits)
    ensures Number(s) < Pow2(|s|) && Digits(Number(s), |s|) == s
    decreases |s|
  {
    if s != [] {
      DigitsOfNumber(s[..|s| - 1]);
    }
  }

  lemma Powers()
    ensures Pow2(8) == 256 && Pow2(16) == 0x1_0000
  {
    assert Pow2(4) == 16;
    assert Pow2(12) == 4096;
  }

  function Octet(b: byte): (s: Bits)
    ensures |s| == 8
  {
    Digits(b, 8)
  }

  /** A message as the digits of its octets in order. */
  function MessageBits(data: bytes): (s: Bits)
    ensures |s| == 8 * |data|
  {
    if data == [] then [] else Octet(data[0]) + MessageBits(data[1..])
  }

  const INIT: Reg := [true, true, true, true, true, true, true, true,
                      true, true, true, true, true, true, true, true]

  function Crc(data: bytes): u16 {
    DigitsOfNumber(Feed(INIT, MessageBits(data)));
    Powers();
    Number(Feed(INIT, MessageBits(data)))
  }

  lemma {:induction false} MessageBitsAppend(a: bytes, b: bytes)
    ensures MessageBits(a + b) == MessageBits(a) + MessageBits(b)
    decreases |a|
  {
    if a == [] {
      assert a + b == b;
    } else {
      assert (a + b)[1..] == a[1..] + b;
      MessageBitsAppend(a[1..], b);
    }
  }

  lemma MessageBitsNext(data: bytes, i: nat)
    requires i < |data|
    ensures MessageBits(data[..i + 1]) == MessageBits(data[..i]) + Octet(data[i])
  {
    assert data[..i + 1] == data[..i] + [data[i]];
    MessageBitsAppend(data[..i], [data[i]]);
    assert MessageBits([data[i]]) == Octet(data[i]) + MessageBits([]);
  }

  lemma {:induction false} ShiftNLast(c: Reg, n: nat)
    ensures ShiftN(c, n + 1) == Shift(ShiftN(c, n))
    decreases n
  {
    hide Shift;
    if n > 0 { ShiftNLast(Shift(c), n - 1); }
  }

  /** wire_crc16: XOR each octet into the top of the register, then eight shifts. */
  method WireCrc16(data: bytes) returns (crc: u16)
    ensures crc == Crc(data)
  {
    hide Shift, Octet, Enter;
    var c: Reg, i := INIT, 0;
    while i < |data|
      invariant 0 <= i <= |data| && c == Feed(INIT, MessageBits(data[..i]))
    {
      MessageBitsNext(data, i);
      FeedAppend(INIT, MessageBits(data[..i]), Octet(data[i]));
      FeedIsShift(c, Octet(data[i]));
      c := Enter(c, Octet(data[i]));
      ghost var entered := c;
      var b := 0;
      while b < 8
        invariant 0 <= b <= 8 && c == ShiftN(entered, b)
      {
        ShiftNLast(entered, b);
        c := Shift(c);
        b := b + 1;
      }
      i := i + 1;
    }
    assert data[..i] == data;
    DigitsOfNumber(c);
    Powers();
    crc := Number(c);
  }

  lemma CrcInjective(a: Bits, b: Bits)
    requires Number(Feed(INIT, a)) == Number(Feed(INIT, b))
    ensures Feed(INIT, a) == Feed(INIT, b)
  {
    DigitsOfNumber(Feed(INIT, a));
    DigitsOfNumber(Feed(INIT, b));
  }

  /**
   Two messages of one length that differ, and only within 16 consecutive binary digits, have
   different CRCs, whatever their length.
   */
  lemma BurstChangesCrc(a: bytes, b: bytes, at: nat)
    requires |a| == |b| && IsBurst(Xor(MessageBits(a), MessageBits(b)), at)
    ensures Crc(a) != Crc(b)
  {
    BurstDetected(INIT, MessageBits(a), MessageBits(b), at);
    if Crc(a) == Crc(b) { CrcInjective(MessageBits(a), MessageBits(b)); }
  }

  lemma OctetInjective(x: byte, y: byte)
    requires Octet(x) == Octet(y)
    ensures x == y
  {
    Powers();
    NumberOfDigits(x, 8);
    NumberOfDigits(y, 8);
  }

  /** Damage confined to two adjacent octets is such a burst. */
  lemma AdjacentOctetsChangeCrc(a: bytes, b: bytes, i: nat)
    requires |a| == |b| && i + 2 <= |a|
    requires a[..i] == b[..i] && a[i + 2..] == b[i + 2..] && a[i..i + 2] != b[i..i + 2]
    ensures Crc(a) != Crc(b)
  {
    hide Octet;
    var p, q, r, s := MessageBits(a[..i]), MessageBits(a[i..i + 2]), MessageBits(b[i..i + 2]), MessageBits(a[i + 2..]);
    assert a == a[..i] + a[i..i + 2] + a[i + 2..] && b == b[..i] + b[i..i + 2] + b[i + 2..];
    MessageBitsAppend(a[..i] + a[i..i + 2], a[i + 2..]);
    MessageBitsAppend(a[..i], a[i..i + 2]);
    MessageBitsAppend(b[..i] + b[i..i + 2], b[i + 2..]);
    MessageBitsAppend(b[..i], b[i..i + 2]);
    TwoOctets(a[i..i + 2], b[i..i + 2]);
    Framed(p, q, r, s);
    BurstChangesCrc(a, b, 8 * i);
  }

  lemma TwoOctets(a: bytes, b: bytes)
    requires |a| == |b| == 2 && a != b
    ensures MessageBits(a) != MessageBits(b)
  {
    hide Octet;
    assert MessageBits(a) == Octet(a[0]) + (Octet(a[1]) + MessageBits(a[1..][1..]));
    assert MessageBits(b) == Octet(b[0]) + (Octet(b[1]) + MessageBits(b[1..][1..]));
    if MessageBits(a) == MessageBits(b) {
      assert MessageBits(a)[..8] == Octet(a[0]) && MessageBits(b)[..8] == Octet(b[0]);
      assert MessageBits(a)[8..16] == Octet(a[1]) && MessageBits(b)[8..16] == Octet(b[1]);
      OctetInjective(a[0], b[0]);
      OctetInjective(a[1], b[1]);
    }
  }

  lemma Framed(p: Bits, q: Bits, r: Bits, s: Bits)
    requires |q| == |r| == 16 && q != r
    ensures IsBurst(Xor(p + q + s, p + r + s), |p|)
  {
    var d := Xor(p + q + s, p + r + s);
    assert d[|p|..|p| + 16] == Xor(q, r);
    assert d == Zeros(|p|) + Xor(q, r) + Zeros(|s|);
    var k :| 0 <= k < 16 && q[k] != r[k];
    assert Xor(q, r)[k];
  }
}
