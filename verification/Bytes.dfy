/** Bytes, and fixed-width unsigned integers in the two byte orders the formats use. */
module Bytes {
  type Byte = x: int | 0 <= x < 256
  type Bytes = seq<Byte>

  const U16 := 0x1_0000
  const U32 := 0x1_0000_0000
  const U64 := 0x1_0000_0000_0000_0000

  type Word64 = x: int | 0 <= x < U64

  function Zeros(n: nat): (r: Bytes)
    ensures |r| == n && forall i :: 0 <= i < n ==> r[i] == 0
  {
    seq(n, _ => 0)
  }

  predicate IsAsciiText(s: string) { forall i :: 0 <= i < |s| ==> s[i] as int < 128 }

  // The bytes of an ASCII text.
  function Ascii(s: string): (r: Bytes)
    requires IsAsciiText(s)
    ensures |r| == |s|
  {
    seq(|s|, i requires 0 <= i < |s| => s[i] as int)
  }

  // -n & 3, the bytes up to the next multiple of four.
  function Pad4(n: nat): (r: nat)
    ensures r < 4 && (n + r) % 4 == 0
  {
    (4 - n % 4) % 4
  }

  // ---- Little endian ----

  function Le16(v: nat): (r: Bytes)
    requires v < U16
    ensures |r| == 2
  {
    [v % 256, v / 256]
  }

  function Le32(v: nat): (r: Bytes)
    requires v < U32
    ensures |r| == 4
  {
    [v % 256, v / 256 % 256, v / 65536 % 256, v / 16777216]
  }

  function GetLe16(s: Bytes, i: nat): (v: nat)
    requires i + 2 <= |s|
    ensures v < U16
  {
    s[i] as nat + 256 * (s[i + 1] as nat)
  }

  function GetLe32(s: Bytes, i: nat): (v: nat)
    requires i + 4 <= |s|
    ensures v < U32
  {
    s[i] as nat + 256 * (s[i + 1] as nat) + 65536 * (s[i + 2] as nat) + 16777216 * (s[i + 3] as nat)
  }

  lemma {:induction false} Le32Value(v: nat)
    requires v < U32
    ensures var d := Le32(v); v == d[0] as nat + 256 * (d[1] as nat) + 65536 * (d[2] as nat) + 16777216 * (d[3] as nat)
  {
    assert v / 65536 == v / 256 / 256 && v / 16777216 == v / 256 / 256 / 256;
  }

  lemma {:induction false} Le32Digits(a: Byte, b: Byte, c: Byte, d: Byte)
    ensures Le32(a as nat + 256 * (b as nat) + 65536 * (c as nat) + 16777216 * (d as nat)) == [a, b, c, d]
  {
    var v := a as nat + 256 * (b as nat) + 65536 * (c as nat) + 16777216 * (d as nat);
    assert v / 256 == b as nat + 256 * (c as nat) + 65536 * (d as nat);
    assert v / 65536 == c as nat + 256 * (d as nat);
    assert v / 16777216 == d;
  }

  // ---- Big endian ----

  function Be16(v: nat): (r: Bytes)
    requires v < U16
    ensures |r| == 2
  {
    [v / 256, v % 256]
  }

  function Be32(v: nat): (r: Bytes)
    requires v < U32
    ensures |r| == 4
  {
    [v / 16777216, v / 65536 % 256, v / 256 % 256, v % 256]
  }

  function GetBe16(s: Bytes, i: nat): (v: nat)
    requires i + 2 <= |s|
    ensures v < U16
  {
    256 * (s[i] as nat) + s[i + 1] as nat
  }

  function GetBe32(s: Bytes, i: nat): (v: nat)
    requires i + 4 <= |s|
    ensures v < U32
  {
    16777216 * (s[i] as nat) + 65536 * (s[i + 1] as nat) + 256 * (s[i + 2] as nat) + s[i + 3] as nat
  }

  // The most significant byte comes first: each number is the little-endian one read backwards.
  lemma {:induction false} OppositeOrders(v: nat, w: nat)
    requires v < U16 && w < U32
    ensures Be16(v)[0] as nat * 256 + Be16(v)[1] as nat == v && Le16(v) == [Be16(v)[1], Be16(v)[0]]
    ensures Le32(w) == [Be32(w)[3], Be32(w)[2], Be32(w)[1], Be32(w)[0]]
    ensures GetBe32(Be32(w), 0) == GetLe32(Le32(w), 0) == w
  {
    Le32Value(w);
  }

  // Two's complement of a 16-bit signed integer, and back.
  function Signed16(v: int): (r: nat)
    requires -0x8000 <= v < 0x8000
    ensures r < U16
  {
    if v < 0 then v + U16 else v
  }

  function FromSigned16(v: nat): (r: int)
    requires v < U16
    ensures -0x8000 <= r < 0x8000
  {
    if v < 0x8000 then v else v - U16
  }
}
