/** UTF-8 as section 4 of RFC 3629 defines it, and the repairs Go's library makes with it. */
module Utf8 {

  type byte = x: nat | x < 256

  const REPLACEMENT: seq<byte> := [0xEF, 0xBF, 0xBD]

  predicate IsContinuation(b: byte) {
    0x80 <= b <= 0xBF
  }

  /** The number of bytes of the well-formed character `s` starts with, 0 if there is none. */
  function ScalarLength(s: seq<byte>): (n: nat)
    ensures n <= |s| && n <= 4
  {
    if s == [] then 0
    else if s[0] < 0x80 then 1
    else if |s| < 2 || !IsContinuation(s[1]) then 0
    else if 0xC2 <= s[0] <= 0xDF then 2
    else if |s| < 3 || !IsContinuation(s[2]) then 0
    else if (s[0] == 0xE0 && s[1] >= 0xA0) || 0xE1 <= s[0] <= 0xEC || (s[0] == 0xED && s[1] <= 0x9F)
            || 0xEE <= s[0] <= 0xEF then 3
    else if |s| < 4 || !IsContinuation(s[3]) then 0
    else if (s[0] == 0xF0 && s[1] >= 0x90) || 0xF1 <= s[0] <= 0xF3 || (s[0] == 0xF4 && s[1] <= 0x8F) then 4
    else 0
  }

  predicate Valid(s: seq<byte>) {
    s == [] || (ScalarLength(s) > 0 && Valid(s[ScalarLength(s)..]))
  }

  /** What follows a character does not change it. */
  lemma ScalarLengthOfPrefix(a: seq<byte>, b: seq<byte>)
    requires ScalarLength(a) > 0
    ensures ScalarLength(a + b) == ScalarLength(a)
    ensures (a + b)[ScalarLength(a)..] == a[ScalarLength(a)..] + b
    ensures ScalarLength(a[..ScalarLength(a)]) == ScalarLength(a)
  {
  }

  lemma {:induction false} ValidConcat(a: seq<byte>, b: seq<byte>)
    requires Valid(a)
    ensures Valid(a + b) <==> Valid(b)
  {
    if a == [] {
      assert a + b == b;
    } else {
      ScalarLengthOfPrefix(a, b);
      ValidConcat(a[ScalarLength(a)..], b);
    }
  }

  lemma ReplacementIsValid()
    ensures ScalarLength(REPLACEMENT) == 3 && Valid(REPLACEMENT)
  {
    assert REPLACEMENT[3..] == [];
  }

  /** The code point of a well-formed character. */
  function CodePoint(s: seq<byte>): nat
    requires ScalarLength(s) > 0
  {
    var n := ScalarLength(s);
    if n == 1 then s[0]
    else if n == 2 then Bits(s[0], 0xC0) * 0x40 + Bits(s[1], 0x80)
    else if n == 3 then Bits(s[0], 0xE0) * 0x1000 + Bits(s[1], 0x80) * 0x40 + Bits(s[2], 0x80)
    else Bits(s[0], 0xF0) * 0x4_0000 + Bits(s[1], 0x80) * 0x1000 + Bits(s[2], 0x80) * 0x40 + Bits(s[3], 0x80)
  }

  /** The payload bits of a byte without its marker bits. */
  function Bits(b: byte, marker: nat): nat
    requires marker <= b
  {
    b - marker
  }
}
