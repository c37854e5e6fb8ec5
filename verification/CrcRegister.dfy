/**
 The 16-bit shift register of wire_crc16 (wire.c:6-17) as its binary digits, most significant
 first. A message is fed in one binary digit at a time; the register is linear over XOR, every
 shift permutes its values, and so no burst of up to 16 consecutive digits goes unnoticed.
 */
module CrcRegister {
  type Bits = seq<bool>
  type Reg = c: Bits | |c| == 16
    witness [false, false, false, false, false, false, false, false,
             false, false, false, false, false, false, false, false]

  /** 0x1021, the generator without its leading term. */
  const POLY: Reg := [false, false, false, true, false, false, false, false,
                      false, false, true, false, false, false, false, true]

  function Zeros(n: nat): (z: Bits)
    ensures |z| == n
  {
    seq(n, i => false)
  }

  function Xor(a: Bits, b: Bits): (r: Bits)
    requires |a| == |b|
    ensures |r| == |a|
  {
    seq(|a|, i requires 0 <= i < |a| => a[i] != b[i])
  }

  /** crc << 1, then the generator if the digit shifted out was set. */
  function Shift(c: Reg): Reg {
    if c[0] then Xor(c[1..] + [false], POLY) else c[1..] + [false]
  }

  function ShiftN(c: Reg, n: nat): Reg
    decreases n
  {
    if n == 0 then c else ShiftN(Shift(c), n - 1)
  }

  /** crc ^= d << (16 - |d|). */
  function Enter(c: Reg, d: Bits): Reg
    requires |d| <= 16
  {
    Xor(c, d + Zeros(16 - |d|))
  }

  /** Feeding digits one by one: each enters at the top and is shifted through. */
  function Feed(c: Reg, ds: Bits): Reg
    decreases |ds|
  {
    if ds == [] then c else Feed(Shift(Enter(c, ds[..1])), ds[1..])
  }

  lemma {:induction false} FeedAppend(c: Reg, a: Bits, b: Bits)
    ensures Feed(c, a + b) == Feed(Feed(c, a), b)
    decreases |a|
  {
    hide Shift, Enter;
    if a == [] {
      assert a + b == b;
    } else {
      assert (a + b)[1..] == a[1..] + b && (a + b)[..1] == a[..1];
      FeedAppend(Shift(Enter(c, a[..1])), a[1..], b);
    }
  }

  // ------------------------------------------------------------- linear and bijective

  lemma ShiftLinear(x: Reg, y: Reg)
    ensures Shift(Xor(x, y)) == Xor(Shift(x), Shift(y))
  {
  }

  lemma ShiftInjective(x: Reg, y: Reg)
    requires Shift(x) == Shift(y)
    ensures x == y
  {
    assert forall i :: 0 <= i < 15 ==> Shift(x)[i] == (x[1..][i] != (x[0] && POLY[i]));
    assert forall i :: 0 <= i < 15 ==> Shift(y)[i] == (y[1..][i] != (y[0] && POLY[i]));
    assert Shift(x)[15] == x[0] && Shift(y)[15] == y[0];
    assert forall i :: 0 <= i < 15 ==> x[1..][i] == y[1..][i];
    assert x == [x[0]] + x[1..] && y == [y[0]] + y[1..];
  }

  lemma {:induction false} ShiftNInjective(x: Reg, y: Reg, n: nat)
    requires ShiftN(x, n) == ShiftN(y, n)
    ensures x == y
    decreases n
  {
    hide Shift;
    if n > 0 {
      ShiftNInjective(Shift(x), Shift(y), n - 1);
      ShiftInjective(x, y);
    }
  }

  lemma EnterCancels(x: Reg, y: Reg, d: Bits)
    requires |d| <= 16 && Enter(x, d) == Enter(y, d)
    ensures x == y
  {
    var z := d + Zeros(16 - |d|);
    assert forall i :: 0 <= i < 16 ==> Enter(x, d)[i] == (x[i] != z[i]) && Enter(y, d)[i] == (y[i] != z[i]);
  }

  /** Whatever the message, it maps different registers to different registers. */
  lemma {:induction false} FeedInjective(x: Reg, y: Reg, ds: Bits)
    requires Feed(x, ds) == Feed(y, ds)
    ensures x == y
    decreases |ds|
  {
    hide Shift, Enter;
    if ds != [] {
      var a, b := Enter(x, ds[..1]), Enter(y, ds[..1]);
      FeedInjective(Shift(a), Shift(b), ds[1..]);
      ShiftInjective(a, b);
      EnterCancels(x, y, ds[..1]);
    }
  }

  lemma EnterLinear(x: Reg, y: Reg, a: Bits, b: Bits)
    requires |a| == |b| <= 16
    ensures Enter(Xor(x, y), Xor(a, b)) == Xor(Enter(x, a), Enter(y, b))
  {
  }

  /** The registers after two messages differ by what the difference alone produces. */
  lemma {:induction false} FeedLinear(x: Reg, y: Reg, a: Bits, b: Bits)
    requires |a| == |b|
    ensures Feed(Xor(x, y), Xor(a, b)) == Xor(Feed(x, a), Feed(y, b))
    decreases |a|
  {
    hide Shift, Enter;
    if a != [] {
      var p, q := Enter(x, a[..1]), Enter(y, b[..1]);
      EnterLinear(x, y, a[..1], b[..1]);
      ShiftLinear(p, q);
      FeedLinear(Shift(p), Shift(q), a[1..], b[1..]);
      assert Xor(a, b)[1..] == Xor(a[1..], b[1..]) && Xor(a, b)[..1] == Xor(a[..1], b[..1]);
    }
  }

  // ------------------------------------------------------- up to 16 digits in one go

  lemma ShiftPast(c: Reg, b: Bits, t: Bits)
    requires |b| == 1 && |t| <= 15
    ensures Shift(Enter(c, b + t)) == Enter(Shift(Enter(c, b)), t)
  {
    var x, y := Enter(c, b + t), Enter(c, b);
    var z := t + Zeros(16 - |t|);
    assert x[0] == y[0];
    assert forall i :: 0 <= i < 15 ==> x[i + 1] == (y[i + 1] != z[i]);
    assert !z[15];
  }

  /** XORing up to 16 digits in at once and shifting is the same as feeding them. */
  lemma {:induction false} FeedIsShift(c: Reg, ds: Bits)
    requires |ds| <= 16
    ensures Feed(c, ds) == ShiftN(Enter(c, ds), |ds|)
    decreases |ds|
  {
    hide Shift;
    if ds == [] {
      assert Enter(c, ds) == c;
    } else {
      FeedIsShift(Shift(Enter(c, ds[..1])), ds[1..]);
      assert ds == ds[..1] + ds[1..];
      ShiftPast(c, ds[..1], ds[1..]);
    }
  }

  lemma {:induction false} ZeroStays(n: nat)
    ensures Feed(Zeros(16), Zeros(n)) == Zeros(16)
    decreases n
  {
    if n > 0 {
      assert Enter(Zeros(16), Zeros(n)[..1]) == Zeros(16);
      assert Shift(Zeros(16)) == Zeros(16);
      assert Zeros(n)[1..] == Zeros(n - 1);
      ZeroStays(n - 1);
    }
  }

  /** A difference that is zero outside 16 consecutive digits, and not zero inside. */
  ghost predicate IsBurst(ds: Bits, at: nat) {
    && at + 16 <= |ds|
    && ds == Zeros(at) + ds[at..at + 16] + Zeros(|ds| - at - 16)
    && ds[at..at + 16] != Zeros(16)
  }

  lemma BurstMoves(ds: Bits, at: nat)
    requires IsBurst(ds, at)
    ensures Feed(Zeros(16), ds) != Zeros(16)
  {
    hide Feed, ShiftN, Enter;
    var z, e, tail := Zeros(16), ds[at..at + 16], Zeros(|ds| - at - 16);
    FeedAppend(z, Zeros(at) + e, tail);
    FeedAppend(z, Zeros(at), e);
    ZeroStays(at);
    FeedIsShift(z, e);
    FeedIsShift(z, z);
    ZeroStays(16);
    ZeroStays(|tail|);
    var c := Feed(z, e);
    if c == z {
      ShiftNInjective(Enter(z, e), Enter(z, z), 16);
      EnterZero(e);
      EnterZero(z);
    }
    if Feed(c, tail) == z {
      FeedInjective(c, z, tail);
    }
  }

  lemma EnterZero(e: Reg)
    ensures Enter(Zeros(16), e) == e
  {
  }

  /** Two messages of one length whose difference is a burst leave different registers. */
  lemma BurstDetected(c: Reg, a: Bits, b: Bits, at: nat)
    requires |a| == |b| && IsBurst(Xor(a, b), at)
    ensures Feed(c, a) != Feed(c, b)
  {
    hide Feed;
    FeedLinear(c, c, a, b);
    assert Xor(c, c) == Zeros(16);
    BurstMoves(Xor(a, b), at);
    assert Xor(Feed(c, a), Feed(c, a)) == Zeros(16);
  }
}
