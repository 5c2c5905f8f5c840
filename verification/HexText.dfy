/** Hex text: the client's "%x" rendering and the simulator's hex.DecodeString undo each other. */
module HexText {
  import opened Bytes
  import opened Items
  import opened SimDevice
  import Collections
  import MacText

  predicate AllLowerHex(t: text) {
    forall i :: 0 <= i < |t| ==> MacText.IsLowerHex(t[i])
  }

  lemma HexCons(b: byte, rest: seq<byte>)
    ensures Hex([b] + rest) == [MacText.HexDigit(b / 16), MacText.HexDigit(b % 16)] + Hex(rest)
  {
    assert ([b] + rest)[1..] == rest;
  }

  lemma DecodeCons(a: byte, b: byte, rest: text)
    requires MacText.IsHex(a) && MacText.IsHex(b)
    ensures HexDecode([a, b] + rest) ==
            match HexDecode(rest)
            case None => None
            case Some(d) => Some([MacText.HexNibble(a) * 16 + MacText.HexNibble(b)] + d)
  {
    assert ([a, b] + rest)[2..] == rest;
  }

  /** One byte is two digits, the high one first. */
  lemma HexOne(b: byte)
    ensures Hex([b]) == [Ascii("0123456789abcdef")[b / 16], Ascii("0123456789abcdef")[b % 16]]
  {
    HexDigits(b / 16);
    HexDigits(b % 16);
    assert [b][1..] == [];
  }

  lemma HexDigits(n: nat)
    requires n < 16
    ensures MacText.HexDigit(n) == Ascii("0123456789abcdef")[n]
  {
  }

  /** Bytes are rendered one after the other. */
  lemma {:induction false} HexConcat(a: seq<byte>, b: seq<byte>)
    ensures Hex(a + b) == Hex(a) + Hex(b)
    decreases |a|
  {
    if a == [] {
      assert a + b == b;
    } else {
      HexConcat(a[1..], b);
      assert a == [a[0]] + a[1..] && a + b == [a[0]] + (a[1..] + b);
      HexCons(a[0], a[1..]);
      HexCons(a[0], a[1..] + b);
      Collections.Associates([MacText.HexDigit(a[0] / 16), MacText.HexDigit(a[0] % 16)], Hex(a[1..]), Hex(b));
    }
  }

  /** Rendering and decoding: two lower-case digits per byte, the high one first. */
  lemma {:induction false} DecodeOfHex(value: seq<byte>)
    ensures HexDecode(Hex(value)) == Some(value) && AllLowerHex(Hex(value)) && |Hex(value)| == 2 * |value|
    decreases |value|
  {
    if value != [] {
      var b, rest := value[0], value[1..];
      assert value == [b] + rest;
      DecodeOfHex(rest);
      HexCons(b, rest);
      DecodeCons(MacText.HexDigit(b / 16), MacText.HexDigit(b % 16), Hex(rest));
    }
  }

  lemma DigitOfNibble(c: byte)
    requires MacText.IsLowerHex(c)
    ensures MacText.IsHex(c) && MacText.HexDigit(MacText.HexNibble(c)) == c
  {
  }

  lemma HexOfPair(a: byte, b: byte, d: seq<byte>)
    requires MacText.IsLowerHex(a) && MacText.IsLowerHex(b)
    ensures Hex([MacText.HexNibble(a) * 16 + MacText.HexNibble(b)] + d) == [a, b] + Hex(d)
  {
    DigitOfNibble(a);
    DigitOfNibble(b);
    HexCons(MacText.HexNibble(a) * 16 + MacText.HexNibble(b), d);
  }

  /** Decoding and rendering: an even number of lower-case digits is kept as it is. */
  lemma {:induction false} HexOfDecode(t: text)
    requires |t| % 2 == 0 && AllLowerHex(t)
    ensures HexDecode(t).Some? && |HexDecode(t).value| == |t| / 2 && Hex(HexDecode(t).value) == t
    decreases |t|
  {
    if t != [] {
      var rest := t[2..];
      assert t == [t[0], t[1]] + rest;
      HexOfDecode(rest);
      DecodeCons(t[0], t[1], rest);
      HexOfPair(t[0], t[1], HexDecode(rest).value);
    }
  }
}
