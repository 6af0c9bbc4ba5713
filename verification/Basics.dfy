/** Bytes, machine-width integers in network order, and the two result types
    used throughout the model. */
module Basics {

  type Byte = b: int | 0 <= b < 0x100
  type Bytes = seq<Byte>
  type U16 = x: int | 0 <= x < 0x1_0000
  type U32 = x: int | 0 <= x < 0x1_0000_0000

  const U16_LIMIT := 0x1_0000
  const U32_LIMIT := 0x1_0000_0000

  datatype Option<+T> = None | Some(value: T)

  datatype Result<+T, +E> = Ok(value: T) | Err(error: E)

  function Min(a: int, b: int): int {
    if a <= b then a else b
  }

  function Zeros(n: nat): (z: Bytes)
    ensures |z| == n
    ensures forall i :: 0 <= i < n ==> z[i] == 0
  {
    seq(n, _ => 0)
  }

  /** The bytes of an ASCII literal. */
  function Ascii(s: string): (b: Bytes)
    ensures |b| == |s|
    ensures forall i :: 0 <= i < |s| && s[i] as int < 0x80 ==> b[i] == s[i] as int
  {
    seq(|s|, i requires 0 <= i < |s| => (s[i] as int) % 0x100)
  }

  /** Big-endian encoding of a 16-bit value. */
  function PutU16(x: U16): (b: Bytes)
    ensures |b| == 2
  {
    [x / 0x100, x % 0x100]
  }

  function GetU16(b: Bytes): U16
    requires |b| == 2
  {
    b[0] as int * 0x100 + b[1] as int
  }

  /** Big-endian encoding of a 32-bit value. */
  function PutU32(x: U32): (b: Bytes)
    ensures |b| == 4
  {
    PutU16(x / 0x1_0000) + PutU16(x % 0x1_0000)
  }

  function GetU32(b: Bytes): U32
    requires |b| == 4
  {
    GetU16(b[..2]) as int * 0x1_0000 + GetU16(b[2..]) as int
  }

  lemma FitsU16(x: nat)
    requires x < U16_LIMIT
    ensures x % U16_LIMIT == x
  {
  }

  lemma U16RoundTrip(x: U16, b: Bytes)
    requires |b| == 2
    ensures GetU16(PutU16(x)) == x
    ensures PutU16(GetU16(b)) == b
  {
  }

  lemma U32RoundTrip(x: U32, b: Bytes)
    requires |b| == 4
    ensures GetU32(PutU32(x)) == x
    ensures PutU32(GetU32(b)) == b
  {
    var p := PutU32(x);
    assert p[..2] == PutU16(x / 0x1_0000) && p[2..] == PutU16(x % 0x1_0000);
    U16RoundTrip(x / 0x1_0000, b[..2]);
    U16RoundTrip(x % 0x1_0000, b[2..]);
    assert b == b[..2] + b[2..];
  }
}
