/** The table of udap/parameters.go: 26 parameters and two aliases. The general results are proved
    for any valid schema; this module shows that this table is one. */
module ParameterTable {
  import opened Bytes
  import opened Parameters

  /** One line of the table. */
  datatype Line = Line(name: string, offset: uint16, length: uint16, factoryDefault: string)

  function TableLine(i: nat): Line
    requires i < 26
  {
    match i
    case 0 => Line("lan_ip_mode", 4, 1, "1")
    case 1 => Line("lan_network_address", 5, 4, "0.0.0.0")
    case 2 => Line("lan_subnet_mask", 9, 4, "255.255.255.0")
    case 3 => Line("lan_gateway", 13, 4, "0.0.0.0")
    case 4 => Line("hostname", 17, 33, "")
    case 5 => Line("bridging", 50, 1, "0")
    case 6 => Line("interface", 52, 1, "128")
    case 7 => Line("primary_dns", 59, 4, "0.0.0.0")
    case 8 => Line("secondary_dns", 67, 4, "0.0.0.0")
    case 9 => Line("server_address", 71, 4, "0.0.0.0")
    case 10 => Line("lms_address", 79, 4, "0.0.0.0")
    case 11 => Line("squeezecenter_name", 83, 33, "")
    case 12 => Line("wireless_mode", 173, 1, "0")
    case 13 => Line("wireless_SSID", 183, 33, "")
    case 14 => Line("wireless_channel", 216, 1, "6")
    case 15 => Line("wireless_region_id", 218, 1, "4")
    case 16 => Line("wireless_keylen", 220, 1, "0")
    case 17 => Line("wireless_wep_key", 222, 13, "")
    case 18 => Line("wireless_wep_key_1", 235, 13, "")
    case 19 => Line("wireless_wep_key_2", 248, 13, "")
    case 20 => Line("wireless_wep_key_3", 261, 13, "")
    case 21 => Line("wireless_wep_on", 274, 1, "0")
    case 22 => Line("wireless_wpa_cipher", 275, 1, "3")
    case 23 => Line("wireless_wpa_mode", 276, 1, "1")
    case 24 => Line("wireless_wpa_on", 277, 1, "0")
    case _ => Line("wireless_wpa_psk", 278, 64, "")
  }

  function Row(i: nat): Parameter
    requires i < 26
  {
    var l := TableLine(i);
    Parameter(Ascii(l.name), l.offset, l.length, Ascii(l.factoryDefault))
  }

  const PARAMETERS: seq<Parameter> := seq(26, i requires 0 <= i < 26 => Row(i))

  const ALIASES: map<text, text> := map[
    Ascii("slimserver_address") := Ascii("server_address"),
    Ascii("squeezecenter_address") := Ascii("server_address")
  ]

  const UDAP_SCHEMA := Schema(PARAMETERS, ALIASES)

  // ---- Names are told apart by their length, last and fourth-last characters ----------

  function Signature(name: text): int
    requires |name| >= 4
  {
    (|name| * 256 + name[|name| - 1]) * 256 + name[|name| - 4]
  }

  /** The position of the entry with a given name signature. */
  function Rank(signature: int): int {
    match signature
    case 746861 => 0
    case 1274738 => 1
    case 1010541 => 2
    case 751973 => 3
    case 550254 => 4
    case 550759 => 5
    case 615782 => 6
    case 750431 => 7
    case 881503 => 8
    case 947058 => 9
    case 750450 => 10
    case 1205614 => 11
    case 877933 => 12
    case 869459 => 13
    case 1076334 => 14
    case 1205358 => 15
    case 1011321 => 16
    case 1079647 => 17
    case 1192293 => 18
    case 1192549 => 19
    case 1192805 => 20
    case 1011312 => 21
    case 1274480 => 22
    case 1140077 => 23
    case 1011297 => 24
    case 1076063 => 25
    case 1209202 => 26
    case 1405810 => 27
    case _ => -1
  }

  /** What is checked entry by entry. */
  ghost predicate EntryOk(i: nat, p: Parameter) {
    && |p.name| >= 8 && Rank(Signature(p.name)) == i
    && p.length > 0 && p.offset + p.length <= 0x1_0000
    && !HasPrefix(p.name, Ascii("offset_"))
  }

  lemma AsciiAt(name: string, k: nat)
    requires k < |name| && name[k] <= 'z'
    ensures Ascii(name)[k] == name[k] as int
  {
  }

  /** The check on a name as it stands in the table. */
  predicate Ranked(i: nat, name: string) {
    && |name| >= 8 && name[1] <= 'z' && name[|name| - 1] <= 'z' && name[|name| - 4] <= 'z'
    && name[1] != 'f'
    && Rank((|name| * 256 + name[|name| - 1] as int) * 256 + name[|name| - 4] as int) == i
  }

  lemma RankedFrom0(i: nat)
    requires i < 6
    ensures Ranked(i, TableLine(i).name)
  {
  }

  lemma RankedFrom6(i: nat)
    requires 6 <= i < 11
    ensures Ranked(i, TableLine(i).name)
  {
  }

  lemma RankedFrom11(i: nat)
    requires 11 <= i < 16
    ensures Ranked(i, TableLine(i).name)
  {
  }

  lemma RankedFrom16(i: nat)
    requires 16 <= i < 21
    ensures Ranked(i, TableLine(i).name)
  {
  }

  lemma RankedFrom21(i: nat)
    requires 21 <= i < 26
    ensures Ranked(i, TableLine(i).name)
  {
  }

  lemma SizesOk(i: nat)
    requires i < 26
    ensures Row(i).length > 0 && Row(i).offset + Row(i).length <= 0x1_0000
  {
  }

  lemma RowOk(i: nat, p: Parameter, name: string)
    requires Ranked(i, name) && p.name == Ascii(name) && p.length > 0 && p.offset + p.length <= 0x1_0000
    ensures EntryOk(i, p)
  {
    AsciiAt(name, 1);
    AsciiAt(name, |name| - 1);
    AsciiAt(name, |name| - 4);
    assert Ascii("offset_")[1] == 102 != Ascii(name)[1];
  }

  lemma RowsOk(i: nat)
    requires i < 26
    ensures EntryOk(i, Row(i))
  {
    if i < 6 { RankedFrom0(i); }
    else if i < 11 { RankedFrom6(i); }
    else if i < 16 { RankedFrom11(i); }
    else if i < 21 { RankedFrom16(i); }
    else { RankedFrom21(i); }
    SizesOk(i);
    RowOk(i, Row(i), TableLine(i).name);
  }

  lemma AdjacentRegions(i: nat)
    requires i < 25
    ensures Row(i).offset + Row(i).length <= Row(i + 1).offset
  {
  }

  lemma {:induction false} RegionsAscend(i: nat, j: nat)
    requires i < j < 26
    ensures Row(i).offset + Row(i).length <= Row(j).offset
    decreases j - i
  {
    AdjacentRegions(i);
    if i + 1 < j {
      RegionsAscend(i + 1, j);
    }
  }

  lemma AliasesOk()
    ensures Signature(Ascii("slimserver_address")) != Signature(Ascii("squeezecenter_address"))
    ensures Rank(Signature(Ascii("slimserver_address"))) == 26
    ensures Rank(Signature(Ascii("squeezecenter_address"))) == 27
    ensures Row(9).name == Ascii("server_address")
    ensures !HasPrefix(Ascii("slimserver_address"), Ascii("offset_"))
    ensures !HasPrefix(Ascii("squeezecenter_address"), Ascii("offset_"))
  {
    assert Ascii("offset_")[1] == 102;
    assert Ascii("slimserver_address")[1] == 108;
    assert Ascii("squeezecenter_address")[1] == 113;
  }

  lemma HostnameRow()
    ensures Row(4).name == Ascii("hostname") && Row(4).length == 33
  {
  }

  lemma ServerAddressRow()
    ensures Row(9) == Parameter(Ascii("server_address"), 71, 4, Ascii("0.0.0.0"))
  {
  }

  /** The entry-by-entry facts add up to an ordered table, for any table. */
  lemma {:induction false} OrderedFrom(params: seq<Parameter>, i: nat)
    requires i <= |params| == 26
    requires forall k :: 0 <= k < 26 ==> EntryOk(k, params[k])
    requires forall j, k :: 0 <= j < k < 26 ==> params[j].offset + params[j].length <= params[k].offset
    ensures Ordered(params[i..])
    decreases 26 - i
  {
    if i < 26 {
      OrderedFrom(params, i + 1);
      assert params[i..][1..] == params[i + 1..];
      assert EntryOk(i, params[i]);
      forall q | q in params[i + 1..]
        ensures q.name != params[i].name && params[i].offset + params[i].length <= q.offset
      {
        var k :| i + 1 <= k < 26 && params[k] == q;
        assert EntryOk(k, q);
      }
    }
  }

  lemma NotAName(params: seq<Parameter>, a: text)
    requires |params| == 26 && |a| >= 8 && Rank(Signature(a)) >= 26
    requires forall k :: 0 <= k < 26 ==> EntryOk(k, params[k])
    ensures a !in NamesOf(params)
  {
    forall p | p in params ensures p.name != a {
      var k :| 0 <= k < 26 && params[k] == p;
      assert EntryOk(k, p);
    }
  }

  lemma RowsFit()
    ensures forall i :: 0 <= i < 26 ==> EntryOk(i, PARAMETERS[i])
    ensures Ordered(PARAMETERS)
  {
    forall i | 0 <= i < 26 ensures EntryOk(i, PARAMETERS[i]) {
      RowsOk(i);
    }
    forall i, j | 0 <= i < j < 26
      ensures PARAMETERS[i].offset + PARAMETERS[i].length <= PARAMETERS[j].offset
    {
      RegionsAscend(i, j);
    }
    OrderedFrom(PARAMETERS, 0);
    assert PARAMETERS[0..] == PARAMETERS;
  }

  lemma AliasFits(params: seq<Parameter>, a: text, n: text, i: nat)
    requires |params| == 26 && |a| >= 8 && Rank(Signature(a)) >= 26 && !HasPrefix(a, Ascii("offset_"))
    requires forall k :: 0 <= k < 26 ==> EntryOk(k, params[k])
    requires i < 26 && params[i].name == n
    ensures a !in NamesOf(params) && n in NamesOf(params) && a != [] && !HasPrefix(a, Ascii("offset_"))
  {
    NotAName(params, a);
    assert params[i] in params;
  }

  /** Names, offsets and lengths of the shipped table are unique, disjoint and ascending. */
  lemma TableIsValid()
    ensures UDAP_SCHEMA.Valid()
  {
    RowsFit();
    AliasesOk();
    forall a | a in ALIASES
      ensures a !in UDAP_SCHEMA.Names() && ALIASES[a] in UDAP_SCHEMA.Names()
      ensures a != [] && !HasPrefix(a, Ascii("offset_"))
    {
      AliasFits(PARAMETERS, a, ALIASES[a], 9);
    }
  }
}
