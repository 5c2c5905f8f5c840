/** What users may type, for the table as shipped: the bounds of validation in plain terms, and where
    the parameters of `set` come from. */
module InputRules {
  import opened Bytes
  import opened Decimal
  import opened Parameters
  import opened ParameterTable
  import opened Validation
  import opened Backup
  import opened SetCommand
  import Ini
  import RestorableTable

  // ---- Validation ----------------------------------------------------------------------

  /** The row of a name. */
  ghost predicate Names(s: Schema, name: text, length: uint16) {
    s.ByName(name).Some? && s.ByName(name).value.length == length
  }

  lemma RowIsNamed(s: Schema, i: nat)
    requires s == UDAP_SCHEMA && i < 26
    ensures Names(s, Row(i).name, Row(i).length)
  {
    TableIsValid();
    RestorableTable.Listed(i);
    s.ByNameExactly(Row(i).name);
  }

  lemma RuledRows()
    ensures Row(12).name == Ascii("wireless_mode") && Row(12).length == 1
    ensures Row(13).name == Ascii("wireless_SSID") && Row(13).length == 33
    ensures Row(14).name == Ascii("wireless_channel") && Row(14).length == 1
    ensures Row(16).name == Ascii("wireless_keylen") && Row(16).length == 1
    ensures Row(25).name == Ascii("wireless_wpa_psk") && Row(25).length == 64
  {
  }

  lemma TableNames(s: Schema)
    requires s == UDAP_SCHEMA
    ensures Names(s, Ascii("wireless_mode"), 1) && Names(s, Ascii("wireless_SSID"), 33)
    ensures Names(s, Ascii("wireless_channel"), 1) && Names(s, Ascii("wireless_keylen"), 1)
    ensures Names(s, Ascii("wireless_wpa_psk"), 64)
  {
    RuledRows();
    RowIsNamed(s, 12);
    RowIsNamed(s, 13);
    RowIsNamed(s, 14);
    RowIsNamed(s, 16);
    RowIsNamed(s, 25);
  }

  lemma NamesDiffer()
    ensures Ascii("wireless_mode")[9] == 109 && Ascii("wireless_SSID")[9] == 83
    ensures Ascii("wireless_channel")[9] == 99 && Ascii("wireless_wpa_psk")[9] == 119
  {
  }

  /** Decimal digits whose value lies in this range. */
  predicate NumberWithin(v: text, low: nat, high: nat) {
    v != [] && AllDigits(v) && low <= DigitsValue(v) <= high
  }

  lemma SmallNumbers(v: text)
    requires v == Ascii("0") || v == Ascii("1") || v == Ascii("5") || v == Ascii("13")
    ensures ParseUint(v, 255).Some?
  {
    if |v| == 1 {
      assert v[..0] == [];
      assert DigitsValue(v) == v[0] - DIGIT0;
    } else {
      assert v[..1][..0] == [];
      assert DigitsValue(v[..1]) == 1;
      assert DigitsValue(v) == 13;
    }
  }

  lemma DigitsHaveNoSign(v: text)
    requires v != [] && AllDigits(v)
    ensures DigitsValue(v) <= 0x7FFF_FFFF_FFFF_FFFF ==> Atoi(v) == Some(DigitsValue(v))
  {
  }

  /** The mode is one of two. */
  lemma ModeRule(s: Schema, v: text)
    requires s == UDAP_SCHEMA
    ensures Accepts(s, Ascii("wireless_mode"), v) <==> v == Ascii("0") || v == Ascii("1")
  {
    TableNames(s);
    if v == Ascii("0") || v == Ascii("1") {
      SmallNumbers(v);
    }
  }

  /** A channel is a number from 1 to 13, written in digits. */
  lemma ChannelRule(s: Schema, v: text)
    requires s == UDAP_SCHEMA
    ensures Accepts(s, Ascii("wireless_channel"), v) <==> NumberWithin(v, 1, 13)
  {
    TableNames(s);
    NamesDiffer();
    if v != [] && AllDigits(v) {
      DigitsHaveNoSign(v);
    }
  }

  /** A key is 5 or 13 bytes long. */
  lemma KeyLengthRule(s: Schema, v: text)
    requires s == UDAP_SCHEMA
    ensures Accepts(s, Ascii("wireless_keylen"), v) <==> v == Ascii("5") || v == Ascii("13")
  {
    TableNames(s);
    if v == Ascii("5") || v == Ascii("13") {
      SmallNumbers(v);
    }
  }

  /** A passphrase has 8 to 63 bytes, a network name 1 to 32: each leaves room for a NUL. */
  lemma SecretRules(s: Schema, v: text)
    requires s == UDAP_SCHEMA
    ensures Accepts(s, Ascii("wireless_wpa_psk"), v) <==> 8 <= |v| <= 63
    ensures Accepts(s, Ascii("wireless_SSID"), v) <==> 1 <= |v| <= 32
  {
    TableNames(s);
    NamesDiffer();
  }

  /** A name that is not one of the five is only held to what its wire length can carry. */
  lemma OtherRule(s: Schema, name: text, v: text)
    requires s.ByName(name).Some?
    requires name !in {Ascii("wireless_mode"), Ascii("wireless_channel"), Ascii("wireless_keylen"),
                       Ascii("wireless_wpa_psk"), Ascii("wireless_SSID")}
    ensures Accepts(s, name, v) <==>
            match s.ByName(name).value.length
            case 1 => NumberWithin(v, 0, 255)
            case 2 => NumberWithin(v, 0, 65535)
            case 4 => exists q: seq<byte> :: |q| == 4 && v == OctetsText(q)
            case n => |v| <= n
  {
    if s.ByName(name).value.length == 4 {
      if ParseQuad(v).Some? {
        QuadExactly(v, ParseQuad(v).value);
      }
      forall q: seq<byte> | |q| == 4 && v == OctetsText(q) ensures ParseQuad(v).Some? {
        QuadExactly(v, q);
      }
    }
  }

  // ---- Sources ---------------------------------------------------------------------------

  /** Where the text of the parameters comes from: a file if one is given, else standard input if
      something is piped into it. */
  ghost predicate ReadsText(src: Sources, t: text) {
    src.file == Some(t) || (src.file == None && src.stdinPiped && src.stdin == Some(t))
  }

  /** The parameters of a `set` that has a text: those of the text, flags taking precedence. It is
      refused exactly when the text does not parse, a flag is invalid, or both name nothing. */
  lemma TextAndFlags(s: Schema, src: Sources, params: Option<map<text, text>>, t: text)
    requires Inputs(s, src, params) && ReadsText(src, t)
    ensures var parsed := Ini.Parse(Rules(s), t);
            && (params.Some? <==>
                  && parsed.Some? && (parsed.value != map[] || src.flags != map[])
                  && forall k :: k in src.flags ==> Accepts(s, k, src.flags[k]))
            && (params.Some? ==> forall k ::
                  && (k in params.value <==> k in src.flags || k in parsed.value)
                  && (k in src.flags ==> params.value[k] == src.flags[k])
                  && (k in parsed.value && k !in src.flags ==> params.value[k] == parsed.value[k]))
  {
  }

  /** Without a text there have to be flags. */
  lemma FlagsOnly(s: Schema, src: Sources, params: Option<map<text, text>>)
    requires Inputs(s, src, params) && src.file == None && (!src.stdinPiped || src.stdin == None)
    ensures params ==
            if src.flags != map[] && forall k :: k in src.flags ==> Accepts(s, k, src.flags[k]) then Some(src.flags) else None
  {
    assert map[] + src.flags == src.flags;
  }
}
