/** pod_config_crc8 (pod_position.c:6-17), the checksum of the pod's EEPROM images. */
module Crc8 {
  import opened Bytes
  import opened Arith
  import opened CrcRegister
  import C = Crc16

  type Reg8 = c: Bits | |c| == 8 witness [false, false, false, false, false, false, false, false]

  /** 0x07, the generator without its leading term. */
  const POLY8: Reg8 := [false, false, false, false, false, true, true, true]

  function Shift8(c: Reg8): Reg8 {
    if c[0] then Xor(c[1..] + [false], POLY8) else c[1..] + [false]
  }

  function Shift8N(c: Reg8, n: nat): Reg8 {
    if n == 0 then c else Shift8(Shift8N(c, n - 1))
  }

  function Register(data: bytes): Reg8
    decreases |data|
  {
    if data == [] then Zeros(8)
    else Shift8N(Xor(Register(data[..|data| - 1]), C.Octet(data[|data| - 1])), 8)
  }

  function Crc(data: bytes): byte {
    C.DigitsOfNumber(Register(data));
    C.Powers();
    C.Number(Register(data))
  }

  method PodConfigCrc8(data: bytes) returns (crc: byte)
    ensures crc == Crc(data)
  {
    hide Shift8, C.Octet;
    var c: Reg8, i := Zeros(8), 0;
    while i < |data|
      invariant 0 <= i <= |data| && c == Register(data[..i])
    {
      assert data[..i + 1][..i] == data[..i];
      c := Xor(c, C.Octet(data[i]));
      ghost var entered := c;
      var b := 0;
      while b < 8
        invariant 0 <= b <= 8 && c == Shift8N(entered, b)
      {
        c := Shift8(c);
        b := b + 1;
      }
      i := i + 1;
    }
    assert data[..i] == data;
    C.DigitsOfNumber(c);
    C.Powers();
    crc := C.Number(c);
  }

  // ----------------------------------------------------------- one octet never goes unnoticed

  lemma Shift8Injective(x: Reg8, y: Reg8)
    requires Shift8(x) == Shift8(y)
    ensures x == y
  {
    assert forall i :: 0 <= i < 7 ==> Shift8(x)[i] == (x[1..][i] != (x[0] && POLY8[i]));
    assert forall i :: 0 <= i < 7 ==> Shift8(y)[i] == (y[1..][i] != (y[0] && POLY8[i]));
    assert Shift8(x)[7] == x[0] && Shift8(y)[7] == y[0];
    assert forall i :: 0 <= i < 7 ==> x[1..][i] == y[1..][i];
    assert x == [x[0]] + x[1..] && y == [y[0]] + y[1..];
  }

  lemma {:induction false} Shift8NInjective(x: Reg8, y: Reg8, n: nat)
    requires Shift8N(x, n) == Shift8N(y, n)
    ensures x == y
  {
    hide Shift8;
    if n > 0 {
      Shift8Injective(Shift8N(x, n - 1), Shift8N(y, n - 1));
      Shift8NInjective(x, y, n - 1);
    }
  }

  lemma XorCancels(x: Bits, y: Bits, z: Bits)
    requires |x| == |y| == |z|
    ensures Xor(x, z) == Xor(y, z) ==> x == y
    ensures Xor(z, x) == Xor(z, y) ==> x == y
  {
    assert forall i :: 0 <= i < |x| ==> Xor(x, z)[i] == (x[i] != z[i]) && Xor(y, z)[i] == (y[i] != z[i]);
    assert forall i :: 0 <= i < |x| ==> Xor(z, x)[i] == (z[i] != x[i]) && Xor(z, y)[i] == (z[i] != y[i]);
  }

  /** Messages of one length that differ in one octet leave different registers. */
  lemma {:induction false} OneOctetRegister(a: bytes, b: bytes, i: nat)
    requires |a| == |b| && i < |a| && a[i] != b[i]
    requires forall k :: 0 <= k < |a| && k != i ==> a[k] == b[k]
    ensures Register(a) != Register(b)
    decreases |a|
  {
    hide Shift8, C.Octet, Xor, Shift8N;
    var n := |a| - 1;
    var p, q := Register(a[..n]), Register(b[..n]);
    if i == n {
      assert a[..n] == b[..n];
      if C.Octet(a[n]) == C.Octet(b[n]) { C.OctetInjective(a[n], b[n]); }
      XorCancels(C.Octet(a[n]), C.Octet(b[n]), p);
    } else {
      OneOctetRegister(a[..n], b[..n], i);
      XorCancels(p, q, C.Octet(a[n]));
    }
    if Register(a) == Register(b) { Shift8NInjective(Xor(p, C.Octet(a[n])), Xor(q, C.Octet(b[n])), 8); }
  }

  /** Changing one octet of a message always changes its CRC. */
  lemma OneOctetChangesCrc(a: bytes, b: bytes, i: nat)
    requires |a| == |b| && i < |a| && a[i] != b[i]
    requires forall k :: 0 <= k < |a| && k != i ==> a[k] == b[k]
    ensures Crc(a) != Crc(b)
  {
    hide Register;
    OneOctetRegister(a, b, i);
    C.DigitsOfNumber(Register(a));
    C.DigitsOfNumber(Register(b));
  }
}
