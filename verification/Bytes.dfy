/** Bytes, C strings and the host's little-endian numbers. */
module Bytes {
  type byte = x: int | 0 <= x < 256

  predicate Nul(c: byte) { c == 0 }

  /** Position of the first element that satisfies `stop`, or the length. */
  function Before(s: seq<byte>, stop: byte -> bool): (n: nat)
    ensures n <= |s| && (n < |s| ==> stop(s[n])) && forall i :: 0 <= i < n ==> !stop(s[i])
  {
    if s == [] || stop(s[0]) then 0 else 1 + Before(s[1..], stop)
  }

  /** The bytes before the first NUL. */
  function CString(s: seq<byte>): seq<byte> { s[..Before(s, Nul)] }

  function U16(s: seq<byte>, off: nat): (n: nat)
    requires off + 2 <= |s|
    ensures n < 0x1_0000
  {
    (s[off] as int) + 0x100 * (s[off + 1] as int)
  }

  function U32(s: seq<byte>, off: nat): (n: nat)
    requires off + 4 <= |s|
    ensures n < 0x1_0000_0000
  {
    U16(s, off) + 0x1_0000 * U16(s, off + 2)
  }

  /** The bytes of a number. */
  function Le16(n: nat): (s: seq<byte>)
    requires n < 0x1_0000
    ensures |s| == 2
  {
    [n % 0x100, n / 0x100]
  }

  function Le32(n: nat): (s: seq<byte>)
    requires n < 0x1_0000_0000
    ensures |s| == 4
  {
    Le16(n % 0x1_0000) + Le16(n / 0x1_0000)
  }

  /** A number is read back from where its bytes stand. */
  lemma Read16(s: seq<byte>, off: nat, n: nat)
    requires off + 2 <= |s| && n < 0x1_0000 && s[off..off + 2] == Le16(n)
    ensures U16(s, off) == n
  {
    assert s[off] == s[off..off + 2][0] && s[off + 1] == s[off..off + 2][1];
  }

  lemma Read32(s: seq<byte>, off: nat, n: nat)
    requires off + 4 <= |s| && n < 0x1_0000_0000 && s[off..off + 4] == Le32(n)
    ensures U32(s, off) == n
  {
    var t := s[off..off + 4];
    assert s[off..off + 2] == t[..2] && s[off + 2..off + 4] == t[2..];
    Read16(s, off, n % 0x1_0000);
    Read16(s, off + 2, n / 0x1_0000);
  }
}
