/** Bytes, byte strings and big-endian 16-bit integers, shared by every other module.
    A Go `string` or `[]byte` is a sequence of bytes here. */
module Bytes {
  type byte = x: int | 0 <= x < 256
  type uint16 = x: int | 0 <= x < 0x1_0000
  type uint32 = x: int | 0 <= x < 0x1_0000_0000
  type text = seq<byte>

  datatype Option<+T> = None | Some(value: T)

  /** The bytes of an ASCII literal. */
  function Ascii(s: string): (t: text)
    ensures |t| == |s|
    ensures forall i :: 0 <= i < |s| ==> t[i] == s[i] as int % 256
  {
    seq(|s|, i requires 0 <= i < |s| => s[i] as int % 256)
  }

  const NUL: byte := 0
  const NEWLINE: byte := 10
  const RETURN: byte := 13
  const HASH: byte := 35
  const HYPHEN: byte := 45
  const DOT: byte := 46
  const DIGIT0: byte := 48
  const DIGIT9: byte := 57
  const COLON: byte := 58
  const SEMICOLON: byte := 59
  const EQUALS: byte := 61

  /** The conversion uint16(n) of a count. */
  function Low16(n: nat): (r: uint16)
    ensures n < 0x1_0000 ==> r == n
  {
    if n < 0x1_0000 then n else n % 0x1_0000
  }

  /** binary.BigEndian.PutUint16 */
  function PutUint16(n: uint16): (b: seq<byte>)
    ensures |b| == 2
  {
    [n / 256, n % 256]
  }

  /** binary.BigEndian.Uint16(data[pos:]) */
  function Uint16At(data: seq<byte>, pos: nat): uint16
    requires pos + 2 <= |data|
  {
    data[pos] as int * 256 + data[pos + 1] as int
  }

  lemma Uint16RoundTrip(data: seq<byte>, pos: nat)
    requires pos + 2 <= |data|
    ensures PutUint16(Uint16At(data, pos)) == data[pos..pos + 2]
  {
  }

  lemma PutUint16RoundTrip(n: uint16, rest: seq<byte>)
    ensures Uint16At(PutUint16(n) + rest, 0) == n
    ensures (PutUint16(n) + rest)[2..] == rest
  {
  }

  function Zeros(n: nat): (z: seq<byte>)
    ensures |z| == n
    ensures forall i :: 0 <= i < n ==> z[i] == 0
  {
    seq(n, i => 0)
  }

  predicate Absent(s: text, c: byte) {
    forall k :: 0 <= k < |s| ==> s[k] != c
  }

  /** strings.IndexByte, with |s| standing for "not found". */
  function IndexOf(s: text, c: byte): (i: nat)
    ensures i <= |s|
    ensures forall k :: 0 <= k < i ==> s[k] != c
    ensures i < |s| ==> s[i] == c
  {
    if s == [] || s[0] == c then 0 else
      var j := IndexOf(s[1..], c);
      assert forall k :: 1 <= k < j + 1 ==> s[k] == s[1..][k - 1];
      j + 1
  }

  /** The first occurrence is the only index with no earlier occurrence. */
  lemma IndexOfUnique(s: text, c: byte, i: nat)
    requires i < |s| && s[i] == c
    requires forall k :: 0 <= k < i ==> s[k] != c
    ensures IndexOf(s, c) == i
  {
  }

  lemma IndexOfConcat(a: text, c: byte, b: text)
    requires Absent(a, c)
    ensures IndexOf(a + [c] + b, c) == |a|
  {
    IndexOfUnique(a + [c] + b, c, |a|);
  }

  lemma IndexOfAbsent(s: text, c: byte)
    ensures IndexOf(s, c) == |s| <==> Absent(s, c)
  {
  }

  /** strings.HasPrefix */
  predicate HasPrefix(s: text, prefix: text) {
    prefix <= s
  }

  /** Go map lookup: a missing key reads as the empty string. */
  function Lookup(m: map<text, text>, k: text): text {
    if k in m then m[k] else []
  }
}
