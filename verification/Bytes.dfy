/** Bytes, 32-bit unsigned numbers and their little-endian form. */
module Bytes {
  type Byte = n: int | 0 <= n < 0x100

  type U32 = n: int | 0 <= n < 0x1_0000_0000

  /** Conversion to an unsigned 32-bit integer. */
  function ToU32(n: int): U32 { n % 0x1_0000_0000 }

  function Le32(n: U32): (s: seq<Byte>)
    ensures |s| == 4
  {
    [n % 0x100, n / 0x100 % 0x100, n / 0x100 / 0x100 % 0x100, n / 0x100 / 0x100 / 0x100]
  }

  function FromLe32(s: seq<Byte>): U32
    requires |s| == 4
  {
    s[0] as int + 0x100 * (s[1] as int + 0x100 * (s[2] as int + 0x100 * s[3] as int))
  }

  lemma FromLe32Inverse(n: U32)
    ensures FromLe32(Le32(n)) == n
  {}

  function Zeros(n: nat): (s: seq<Byte>)
    ensures |s| == n && forall i :: 0 <= i < n ==> s[i] == 0
  {
    seq(n, _ => 0)
  }

  // ----- NUL-terminated strings -----

  predicate NoNul(s: seq<Byte>) { 0 !in s }

  /** The string stored at the start of a buffer, up to the first NUL. */
  function CString(buffer: seq<Byte>): (s: seq<Byte>)
    ensures |s| <= |buffer| && s == buffer[..|s|] && NoNul(s)
    ensures |s| < |buffer| ==> buffer[|s|] == 0
  {
    if buffer == [] || buffer[0] == 0 then [] else [buffer[0]] + CString(buffer[1..])
  }

  lemma {:induction false} CStringOf(name: seq<Byte>, rest: seq<Byte>)
    requires NoNul(name) && rest != [] && rest[0] == 0
    ensures CString(name + rest) == name
  {
    if name == [] {
      assert name + rest == rest;
    } else {
      assert (name + rest)[1..] == name[1..] + rest;
      CStringOf(name[1..], rest);
    }
  }
}
