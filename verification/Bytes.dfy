/** Bytes, the little-endian words that the codec reads and writes, and byte strings. */
module Bytes {

  type byte = x: int | 0 <= x < 256

  /** The 32-bit little-endian word at position i. */
  function Word32(s: seq<byte>, i: nat): (w: nat)
    requires i + 4 <= |s|
    ensures w < 0x1_0000_0000
  {
    Word16(s[i], s[i + 1]) + 0x1_0000 * Word16(s[i + 2], s[i + 3])
  }

  function Word16(low: byte, high: byte): (w: nat)
    ensures w < 0x1_0000
  {
    low as int + 0x100 * (high as int)
  }

  lemma Word16Equal(a: byte, b: byte, c: byte, d: byte)
    ensures Word16(a, b) == Word16(c, d) <==> a == c && b == d
  {}

  /** Comparing two words compares their halves. */
  lemma Word32Halves(s: seq<byte>, i: nat, j: nat)
    requires i + 4 <= |s| && j + 4 <= |s|
    ensures Word32(s, i) == Word32(s, j)
       <==> Word16(s[i], s[i + 1]) == Word16(s[j], s[j + 1]) && Word16(s[i + 2], s[i + 3]) == Word16(s[j + 2], s[j + 3])
  {
    hide Word16;
  }

  lemma Associative(x: seq<byte>, y: seq<byte>, z: seq<byte>)
    ensures x + (y + z) == (x + y) + z
  {
  }

  /** The bytes e lie in s at position i. */
  predicate At(s: seq<byte>, i: nat, e: seq<byte>) {
    i + |e| <= |s| && s[i..i + |e|] == e
  }

  lemma AtConcat(s: seq<byte>, i: nat, a: seq<byte>, b: seq<byte>)
    ensures At(s, i, a + b) <==> At(s, i, a) && At(s, i + |a|, b)
  {
    if At(s, i, a + b) {
      assert s[i..i + |a|] == s[i..i + |a + b|][..|a|];
      assert s[i + |a|..i + |a| + |b|] == s[i..i + |a + b|][|a|..];
    }
    if At(s, i, a) && At(s, i + |a|, b) {
      assert s[i..i + |a| + |b|] == s[i..i + |a|] + s[i + |a|..i + |a| + |b|];
    }
  }

  /** Pieces put together. */
  function Flatten(pieces: seq<seq<byte>>): seq<byte> {
    if |pieces| == 0 then [] else pieces[0] + Flatten(pieces[1..])
  }

  /** The signed number with the bits of an unsigned one, in two's complement; modulus 2^32 or 2^64. */
  function Signed(n: nat, modulus: nat): int {
    if 2 * n < modulus then n else n - modulus
  }

  /** A C string ends before its first NUL. */
  function CString(s: seq<byte>): (r: seq<byte>)
    ensures r <= s && 0 !in r && (|r| < |s| ==> s[|r|] == 0)
  {
    if |s| == 0 || s[0] == 0 then [] else [s[0]] + CString(s[1..])
  }

  function Ascii(text: string): seq<byte>
    requires forall i | 0 <= i < |text| :: text[i] < 128 as char
  {
    seq(|text|, i requires 0 <= i < |text| => text[i] as int)
  }

  predicate IsDigit(c: byte) { 48 <= c <= 57 }
}
