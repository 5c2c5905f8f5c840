/** The shipped table meets what backup and restore rely on. */
module RestorableTable {
  import opened Bytes
  import opened Decimal
  import opened Parameters
  import opened ParameterTable
  import opened Backup
  import opened Restore

  /** A letter, digit or underscore, or one of the signs between 'Z' and 'a'. */
  predicate IsWord(c: char) {
    '0' <= c <= '9' || 'A' <= c <= 'z'
  }

  const SENTINEL: text := Ascii("128")
  const NO_ADDRESS: text := Ascii("0.0.0.0")
  const NETMASK: text := Ascii("255.255.255.0")

  lemma NumberOk(t: text)
    requires t != [] && AllDigits(t) && (|t| == 1 || t[0] != DIGIT0) && DigitsValue(t) <= 255
    ensures IsCanonical(1, t)
  {
    DecOfDigits(t);
  }

  lemma DigitOk(t: text)
    requires |t| == 1 && IsDigit(t[0])
    ensures IsCanonical(1, t)
  {
    assert t[..0] == [];
    assert DigitsValue(t) == t[0] - DIGIT0;
    NumberOk(t);
  }

  lemma SentinelOk()
    ensures IsCanonical(1, SENTINEL)
  {
    var t := SENTINEL;
    assert t[..2][..1][..0] == [];
    assert DigitsValue(t[..2][..1]) == 1;
    assert DigitsValue(t[..2]) == 12;
    assert DigitsValue(t) == 128;
    NumberOk(t);
  }

  lemma QuadOk(t: text, q: seq<byte>)
    requires |q| == 4 && t == OctetsText(q)
    ensures IsCanonical(4, t)
  {
    QuadExactly(t, q);
  }

  lemma NoAddressOk()
    ensures IsCanonical(4, NO_ADDRESS)
  {
    QuadText([0, 0, 0, 0]);
    QuadOk(NO_ADDRESS, [0, 0, 0, 0]);
  }

  lemma DecOf255()
    ensures Dec(255) == [50, 53, 53]
  {
    assert Dec(2) == [50];
    assert Dec(25) == Dec(2) + [53];
    assert Dec(255) == Dec(25) + [53];
  }

  lemma NetmaskOk()
    ensures IsCanonical(4, NETMASK)
  {
    DecOf255();
    QuadText([255, 255, 255, 0]);
    QuadOk(NETMASK, [255, 255, 255, 0]);
  }

  lemma EmptyOk(length: uint16)
    requires length !in {1, 2, 4}
    ensures IsCanonical(length, [])
  {
    UpToNulOfPadded([], length);
    assert [] + Zeros(length) == Pad([], length);
  }

  /** The few forms of default values in the table. */
  predicate PlainDefault(length: uint16, t: text) {
    || (length == 1 && ((|t| == 1 && IsDigit(t[0])) || t == SENTINEL))
    || (length == 4 && (t == NO_ADDRESS || t == NETMASK))
    || (4 < length < 1000 && t == [])
  }

  predicate PlainName(t: text) {
    0 < |t| < 32 && forall i :: 0 <= i < |t| ==> DIGIT0 <= t[i] <= DIGIT9 || 65 <= t[i] <= 122
  }

  predicate PlainRow(p: Parameter) {
    PlainName(p.name) && PlainDefault(p.length, p.factoryDefault)
  }

  lemma PlainIsGood(p: Parameter)
    requires PlainRow(p)
    ensures GoodRow(p)
  {
    var t := p.factoryDefault;
    if p.length == 1 {
      if t == SENTINEL { SentinelOk(); } else { DigitOk(t); }
    } else if p.length == 4 {
      if t == NO_ADDRESS { NoAddressOk(); } else { NetmaskOk(); }
    } else {
      EmptyOk(p.length);
    }
  }

  /** The check on a name as it stands in the table. */
  predicate IsPlain(name: string) {
    0 < |name| < 32 && forall k :: 0 <= k < |name| ==> IsWord(name[k])
  }

  lemma PlainFrom0(i: nat)
    requires i < 5
    ensures IsPlain(TableLine(i).name)
  {
  }

  lemma PlainFrom5(i: nat)
    requires 5 <= i < 10
    ensures IsPlain(TableLine(i).name)
  {
  }

  lemma PlainFrom10(i: nat)
    requires 10 <= i < 14
    ensures IsPlain(TableLine(i).name)
  {
  }

  lemma PlainFrom14(i: nat)
    requires 14 <= i < 18
    ensures IsPlain(TableLine(i).name)
  {
  }

  lemma PlainFrom18(i: nat)
    requires 18 <= i < 22
    ensures IsPlain(TableLine(i).name)
  {
  }

  lemma PlainFrom22(i: nat)
    requires 22 <= i < 26
    ensures IsPlain(TableLine(i).name)
  {
  }

  lemma NamesPlain(i: nat)
    requires i < 26
    ensures IsPlain(TableLine(i).name)
  {
    if i < 5 { PlainFrom0(i); }
    else if i < 10 { PlainFrom5(i); }
    else if i < 14 { PlainFrom10(i); }
    else if i < 18 { PlainFrom14(i); }
    else if i < 22 { PlainFrom18(i); }
    else { PlainFrom22(i); }
  }

  /** The few default values of the table, by length. */
  predicate IsPlainDefault(length: uint16, t: string) {
    || (length == 1 && ((|t| == 1 && '0' <= t[0] <= '9') || t == "128"))
    || (length == 4 && (t == "0.0.0.0" || t == "255.255.255.0"))
    || (4 < length < 1000 && t == "")
  }

  lemma DefaultsPlain(i: nat)
    requires i < 26
    ensures IsPlainDefault(TableLine(i).length, TableLine(i).factoryDefault)
  {
  }

  lemma PlainLine(p: Parameter, l: Line)
    requires IsPlain(l.name) && IsPlainDefault(l.length, l.factoryDefault)
    requires p == Parameter(Ascii(l.name), l.offset, l.length, Ascii(l.factoryDefault))
    ensures PlainRow(p)
  {
    forall k | 0 <= k < |l.name| ensures Ascii(l.name)[k] == l.name[k] as int {
      assert IsWord(l.name[k]);
    }
  }

  lemma RowsPlain(i: nat)
    requires i < 26
    ensures PlainRow(Row(i))
  {
    NamesPlain(i);
    DefaultsPlain(i);
    PlainLine(Row(i), TableLine(i));
  }

  lemma NamesGood(n: text)
    requires UDAP_SCHEMA.Valid() && n in UDAP_SCHEMA.Names()
    ensures GoodRow(UDAP_SCHEMA.Get(n))
  {
    var i := UDAP_SCHEMA.RowOf(n);
    RowsPlain(i);
    PlainIsGood(UDAP_SCHEMA.Get(n));
  }

  lemma Listed(i: nat)
    requires UDAP_SCHEMA.Valid() && i < 26
    ensures Row(i).name in UDAP_SCHEMA.Names() && UDAP_SCHEMA.Get(Row(i).name) == Row(i)
  {
    assert PARAMETERS[i] == Row(i) && PARAMETERS[i] in PARAMETERS;
    UDAP_SCHEMA.LookupsAgree(PARAMETERS[i]);
  }

  lemma SpecialNames()
    ensures Row(6).name == INTERFACE && Row(6).length == 1
    ensures Row(13).name == SSID && Row(13).factoryDefault == []
  {
  }

  /** Backup and restore work for the table as shipped. */
  lemma TableIsRestorable()
    ensures Restorable(UDAP_SCHEMA)
  {
    TableIsValid();
    forall n | n in UDAP_SCHEMA.Names() ensures GoodRow(UDAP_SCHEMA.Get(n)) {
      NamesGood(n);
    }
    Listed(6);
    Listed(13);
    SpecialNames();
  }
}
