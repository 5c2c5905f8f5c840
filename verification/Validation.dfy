/** Validation of user input (udap/validation.go). */
module Validation {
  import opened Bytes
  import opened Decimal
  import opened Parameters

  /** strconv.Atoi: an optional sign and digits, within 64 bits. */
  function Atoi(s: text): Option<int> {
    var sign := s != [] && (s[0] == 43 || s[0] == HYPHEN);
    var digits := if sign then s[1..] else s;
    if digits == [] || !AllDigits(digits) then None
    else
      var n: int := if sign && s[0] == HYPHEN then -(DigitsValue(digits) as int) else DigitsValue(digits);
      if -0x8000_0000_0000_0000 <= n <= 0x7FFF_FFFF_FFFF_FFFF then Some(n) else None
  }

  /** The rules by wire length. */
  predicate FitsLength(length: uint16, value: text) {
    match length
    case 1 => ParseUint(value, 255).Some?
    case 2 => ParseUint(value, 0xFFFF).Some?
    case 4 => ParseQuad(value).Some?
    case _ => |value| <= length
  }

  /** The rules for single parameters, by the name the caller used. */
  predicate FitsName(name: text, value: text) {
    if name == Ascii("wireless_mode") then value == Ascii("0") || value == Ascii("1")
    else if name == Ascii("wireless_channel") then
      (match Atoi(value) case None => false case Some(n) => 1 <= n <= 13)
    else if name == Ascii("wireless_keylen") then value == Ascii("5") || value == Ascii("13")
    else if name == Ascii("wireless_wpa_psk") then 8 <= |value| <= 63
    else if name == Ascii("wireless_SSID") then 1 <= |value| <= 32
    else true
  }

  /** validateParameter: unknown names pass. */
  predicate Accepts(s: Schema, name: text, value: text) {
    match s.ByName(name)
    case None => true
    case Some(p) => FitsLength(p.length, value) && FitsName(name, value)
  }

  /** A known name and an accepted value never fail to encode, and no byte of a string is cut off. */
  lemma AcceptedEncodes(s: Schema, name: text, value: text)
    requires s.ByName(name).Some? && Accepts(s, name, value)
    ensures var length := s.ByName(name).value.length;
            && Encode(length, value).Some? && |Encode(length, value).value| == length
            && (length !in {1, 2, 4} ==> Encode(length, value).value == value + Zeros(length - |value|))
  {
    assert value[..|value|] == value;
    assert value + Zeros(0) == value;
  }

  /** The rules by length accept exactly what encodes without truncation. */
  lemma FitsLengthExactly(length: uint16, value: text)
    ensures FitsLength(length, value) <==>
            Encode(length, value).Some? && (length !in {1, 2, 4} ==> value <= Encode(length, value).value)
  {
    if length !in {1, 2, 4} && |value| <= length {
      assert Pad(value, length) == value + Zeros(length - |value|);
    }
  }
}
