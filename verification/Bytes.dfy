/** Octets, and the big- and little-endian numbers the wire formats are made of. */
module Bytes {
  type byte = x: int | 0 <= x < 256
  type bytes = seq<byte>

  datatype Option<+T> = None | Some(value: T)

  type u8 = byte
  type u16 = x: int | 0 <= x < 0x1_0000
  type u32 = x: int | 0 <= x < 0x1_0000_0000
  type u64 = x: int | 0 <= x < 0x1_0000_0000_0000_0000
  type i32 = x: int | -0x8000_0000 <= x < 0x8000_0000
  type i64 = x: int | -0x8000_0000_0000_0000 <= x < 0x8000_0000_0000_0000

  /** 256 to the power `n`, for the sizes a machine word has. */
  function Pow256(n: nat): (p: nat)
    ensures p >= 1
  {
    if n == 0 then 1 else 256 * Pow256(n - 1)
  }

  function PutBE(v: nat, n: nat): (s: bytes)
    ensures |s| == n
  {
    if n == 0 then [] else PutBE(v / 256, n - 1) + [v % 256]
  }

  function GetBE(s: bytes): (v: nat)
    ensures v < Pow256(|s|)
  {
    if s == [] then 0 else 256 * GetBE(s[..|s| - 1]) + s[|s| - 1]
  }

  lemma {:induction false} GetPutBE(v: nat, n: nat)
    requires v < Pow256(n)
    ensures GetBE(PutBE(v, n)) == v
  {
    if n > 0 {
      GetPutBE(v / 256, n - 1);
      assert PutBE(v, n)[..n - 1] == PutBE(v / 256, n - 1);
    }
  }

  /** Little-endian 16- and 32-bit fields (wire.c:19-39, calib.c:8-22). */
  function Put16(v: u16): (s: bytes)
    ensures |s| == 2
  {
    [v % 256, v / 256]
  }

  function Get16(s: bytes): u16
    requires |s| >= 2
  {
    s[0] as int + 256 * s[1] as int
  }

  function Put32(v: u32): (s: bytes)
    ensures |s| == 4
  {
    Put16(v % 0x1_0000) + Put16(v / 0x1_0000)
  }

  function Get32(s: bytes): u32
    requires |s| >= 4
  {
    Get16(s) as int + 0x1_0000 * Get16(s[2..]) as int
  }

  /** Two's complement casts between equal widths. */
  function ToU32(v: int): u32 { v % 0x1_0000_0000 }

  function ToI32(v: u32): i32 { if v < 0x8000_0000 then v else v - 0x1_0000_0000 }

  function ToU64(v: int): u64 { v % 0x1_0000_0000_0000_0000 }

  function ToI64(v: u64): i64 { if v < 0x8000_0000_0000_0000 then v else v - 0x1_0000_0000_0000_0000 }

  /** Wrapping early changes nothing. */
  lemma WrapSum(a: int, b: int)
    ensures ToU32(ToU32(a) + b) == ToU32(a + b)
  {
  }

  lemma WrapLess(a: int, b: int)
    ensures ToU32(a - ToU32(b)) == ToU32(a - b)
  {
  }

  lemma WrapDiff(a: int, b: int)
    ensures ToU32(ToU32(a) - ToU32(b)) == ToU32(a - b)
  {
    hide ToU32;
    WrapSum(a, -(ToU32(b) as int));
    WrapLess(a, b);
  }

  lemma Put32RoundTrip(v: u32, rest: bytes)
    ensures Get32(Put32(v) + rest) == v
  {
    var s := Put32(v) + rest;
    assert s[..2] == Put16(v % 0x1_0000) && s[2..][..2] == Put16(v / 0x1_0000);
  }

  lemma Get32RoundTrip(s: bytes)
    requires |s| >= 4
    ensures Put32(Get32(s)) == s[..4]
  {
    assert Get32(s) % 0x1_0000 == Get16(s) && Get32(s) / 0x1_0000 == Get16(s[2..]);
  }

  /** A signed field is its two's complement. */
  function PutI32(v: i32): (s: bytes)
    ensures |s| == 4
  {
    Put32(ToU32(v))
  }

  function GetI32(s: bytes): i32
    requires |s| >= 4
  {
    ToI32(Get32(s))
  }

  lemma I32RoundTrip(v: i32, s: bytes)
    requires |s| == 4
    ensures GetI32(PutI32(v)) == v && PutI32(GetI32(s)) == s
  {
    hide Put32, Get32;
    Put32RoundTrip(ToU32(v), []);
    assert Put32(ToU32(v)) + [] == Put32(ToU32(v));
    Get32RoundTrip(s);
    assert s[..4] == s;
  }

  lemma DropHead(a: bytes, b: bytes)
    ensures (a + b)[|a|..] == b && (a + b)[..|a|] == a
  {
  }

  lemma TailOfTail(s: bytes, p: nat, k: nat)
    requires p + k <= |s|
    ensures s[p..][k..] == s[p + k..]
  {
  }

  lemma SliceOfTail(s: bytes, p: nat, a: nat, b: nat)
    requires a <= b && p + b <= |s|
    ensures s[p..][a..b] == s[p + a..p + b]
  {
  }

  lemma Cut(s: bytes, t: bytes, k: nat)
    requires k <= |s|
    ensures (s + t)[k..] == s[k..] + t && (s + t)[..k] == s[..k]
  {
  }
}
