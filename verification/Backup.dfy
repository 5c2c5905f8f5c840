/** The pieces of backup and restore: what `read` prints (cli/read.go, cli/output.go) and what `set`
    makes of its inputs (cli/source.go, cli/set_interface_default.go). */
module Backup {
  import opened Bytes
  import opened Parameters
  import opened Validation
  import Collections
  import Ini

  // ---- sortedParams ----------------------------------------------------------------------

  /** Go's string order: byte by byte, a proper prefix first. */
  predicate Less(a: text, b: text) {
    b != [] && (a == [] || a[0] < b[0] || (a[0] == b[0] && Less(a[1..], b[1..])))
  }

  lemma {:induction false} LessTotal(a: text, b: text)
    ensures Less(a, b) || a == b || Less(b, a)
    ensures !(Less(a, b) && Less(b, a)) && !Less(a, a)
    decreases |a|
  {
    if a != [] {
      LessTotal(a[1..], a[1..]);
      if b != [] {
        LessTotal(a[1..], b[1..]);
        assert a == [a[0]] + a[1..] && b == [b[0]] + b[1..];
      }
    }
  }

  lemma {:induction false} LessTransitive(a: text, b: text, c: text)
    requires Less(a, b) && Less(b, c)
    ensures Less(a, c)
    decreases |a|
  {
    if a != [] && a[0] == b[0] && b[0] == c[0] {
      LessTransitive(a[1..], b[1..], c[1..]);
    }
  }

  /** The first position at which the texts differ decides, and the smaller byte, or the end of a text,
      comes first. */
  lemma {:induction false} LessExactly(a: text, b: text)
    ensures Less(a, b) <==> exists k: nat :: DiffersFirst(a, b, k) && (k == |a| || (k < |b| && a[k] < b[k]))
    decreases |a|
  {
    if a != [] && b != [] && a[0] == b[0] {
      LessExactly(a[1..], b[1..]);
      if Less(a[1..], b[1..]) {
        var k: nat :| DiffersFirst(a[1..], b[1..], k) && (k == |a[1..]| || (k < |b[1..]| && a[1..][k] < b[1..][k]));
        assert a[..k + 1] == [a[0]] + a[1..][..k] && b[..k + 1] == [b[0]] + b[1..][..k];
        assert DiffersFirst(a, b, k + 1);
      }
      forall k: nat | DiffersFirst(a, b, k) && (k == |a| || (k < |b| && a[k] < b[k])) ensures Less(a, b) {
        assert a[1..][..k - 1] == a[..k][1..] && b[1..][..k - 1] == b[..k][1..];
        assert DiffersFirst(a[1..], b[1..], k - 1);
      }
    } else if Less(a, b) {
      assert DiffersFirst(a, b, 0);
    } else {
      forall k: nat | DiffersFirst(a, b, k) ensures k > 0 ==> a != [] && b != [] && a[0] == b[0] {
        if k > 0 {
          HeadsAgree(a, b, k);
        }
      }
    }
  }

  lemma HeadsAgree(a: text, b: text, k: nat)
    requires 0 < k <= |a| && k <= |b| && a[..k] == b[..k]
    ensures a[0] == b[0]
  {
    assert a[0] == a[..k][0] && b[0] == b[..k][0];
  }

  /** The texts agree on the first k bytes, and no further. */
  ghost predicate DiffersFirst(a: text, b: text, k: nat) {
    k <= |a| && k <= |b| && a != b && a[..k] == b[..k] && (k < |a| && k < |b| ==> a[k] != b[k])
  }

  ghost predicate Ascending(keys: seq<text>) {
    forall i, j :: 0 <= i < j < |keys| ==> Less(keys[i], keys[j])
  }

  /** slices.Sorted of distinct keys. */
  method SortTexts(names: seq<text>) returns (keys: seq<text>)
    requires Collections.Distinct(names)
    ensures Ascending(keys) && forall k :: k in keys <==> k in names
  {
    keys := [];
    for i := 0 to |names|
      invariant Ascending(keys) && forall k :: k in keys <==> k in names[..i]
    {
      assert names[..i + 1] == names[..i] + [names[i]];
      keys := InsertText(keys, names[i]);
    }
    assert names[..|names|] == names;
  }

  method InsertText(keys: seq<text>, name: text) returns (r: seq<text>)
    requires Ascending(keys) && name !in keys
    ensures Ascending(r) && forall k :: k in r <==> k in keys || k == name
  {
    var j := |keys|;
    while j > 0 && Less(name, keys[j - 1])
      invariant 0 <= j <= |keys|
      invariant forall k :: j <= k < |keys| ==> Less(name, keys[k])
    {
      j := j - 1;
    }
    r := keys[..j] + [name] + keys[j..];
    forall i | 0 <= i < j ensures Less(keys[i], name) {
      LessTotal(keys[j - 1], name);
      if i < j - 1 {
        LessTransitive(keys[i], keys[j - 1], name);
      }
    }
    InsertedAscends(keys, name, j);
  }

  lemma InsertedAscends(keys: seq<text>, name: text, j: nat)
    requires Ascending(keys) && j <= |keys|
    requires (forall i :: 0 <= i < j ==> Less(keys[i], name)) && forall i :: j <= i < |keys| ==> Less(name, keys[i])
    ensures var r := keys[..j] + [name] + keys[j..];
            Ascending(r) && forall k :: k in r <==> k in keys || k == name
  {
    assert keys == keys[..j] + keys[j..];
  }

  datatype ParamValue = ParamValue(name: text, value: text)

  function NamesIn(list: seq<ParamValue>): (names: seq<text>)
    ensures |names| == |list|
    ensures forall i :: 0 <= i < |list| ==> names[i] == list[i].name
  {
    seq(|list|, i requires 0 <= i < |list| => list[i].name)
  }

  /** The entries of m in ascending order of their names. */
  ghost predicate SortedList(m: map<text, text>, list: seq<ParamValue>) {
    && Ascending(NamesIn(list))
    && (forall k :: k in NamesIn(list) <==> k in m)
    && (forall i :: 0 <= i < |list| ==> list[i].name in m && list[i].value == m[list[i].name])
  }

  /** sortedParams */
  method SortedParams(m: map<text, text>) returns (out: seq<ParamValue>)
    ensures SortedList(m, out)
  {
    var found := Collections.Enumerate(m.Keys);
    var names := SortTexts(found);
    out := [];
    for i := 0 to |names|
      invariant |out| == i && forall j :: 0 <= j < i ==> out[j].name == names[j] && names[j] in m && out[j].value == m[names[j]]
    {
      assert names[i] in names;
      out := out + [ParamValue(names[i], m[names[i]])];
    }
    assert NamesIn(out) == names;
  }

  lemma SortedListLists(m: map<text, text>, list: seq<ParamValue>)
    requires SortedList(m, list)
    ensures Ini.Lists(m, NamesIn(list))
  {
    var names := NamesIn(list);
    forall i, j | 0 <= i < j < |names| ensures names[i] != names[j] {
      LessTotal(names[i], names[j]);
    }
  }

  /** WriteText */
  method WriteText(m: map<text, text>, list: seq<ParamValue>) returns (b: text)
    requires SortedList(m, list)
    ensures b == Ini.Print(m, NamesIn(list))
  {
    var names := NamesIn(list);
    b := [];
    for i := 0 to |list|
      invariant Printed(m, names, i, b)
    {
      PrintNext(m, names, i, b);
      b := b + Ini.Line(list[i].name, list[i].value);
    }
    assert names[|list|..] == [];
  }

  /** b is what has been printed of the list before its i-th entry. */
  ghost predicate Printed(m: map<text, text>, names: seq<text>, i: nat, b: text)
    requires i <= |names| && forall k :: k in names ==> k in m
  {
    b + Ini.Print(m, names[i..]) == Ini.Print(m, names)
  }

  lemma PrintNext(m: map<text, text>, names: seq<text>, i: nat, b: text)
    requires i < |names| && (forall k :: k in names ==> k in m) && Printed(m, names, i, b)
    ensures names[i] in m && Printed(m, names, i + 1, b + Ini.Line(names[i], m[names[i]]))
  {
    assert names[i] in names;
    assert names[i..][0] == names[i] && names[i..][1..] == names[i + 1..];
    Collections.Associates(b, Ini.Line(names[i], m[names[i]]), Ini.Print(m, names[i + 1..]));
  }

  // ---- filterReadOutput ------------------------------------------------------------------

  /** A value read back is worth keeping: a real parameter, and changed. */
  predicate Kept(s: Schema, k: text, v: text) {
    !HasPrefix(k, Ascii("offset_")) && !(s.ByName(k).Some? && v == s.ByName(k).value.factoryDefault)
  }

  function Filter(s: Schema, m: map<text, text>): map<text, text> {
    map k | k in m && Kept(s, k, m[k]) :: m[k]
  }

  method FilterReadOutput(s: Schema, m: map<text, text>) returns (out: map<text, text>)
    ensures out == Filter(s, m)
  {
    out := map[];
    var left := m.Keys;
    while left != {}
      invariant left <= m.Keys
      invariant out == map k | k in m && k !in left && Kept(s, k, m[k]) :: m[k]
      decreases left
    {
      var k :| k in left;
      left := left - {k};
      if HasPrefix(k, Ascii("offset_")) {
        continue;
      }
      var p := s.ByName(k);
      if p.Some? && m[k] == p.value.factoryDefault {
        continue;
      }
      out := out[k := m[k]];
    }
  }

  // ---- mergeSources ----------------------------------------------------------------------

  function Rules(s: Schema): Ini.Grammar {
    Ini.Grammar(s, (name, value) => Accepts(s, name, value))
  }

  /** The inputs of `set`: a file, piped standard input, flags. */
  datatype Sources = Sources(file: Option<text>, stdin: Option<text>, stdinPiped: bool, flags: map<text, text>)

  /** What the file, or else standard input, contributes. */
  function FromText(s: Schema, src: Sources): Option<map<text, text>> {
    match src.file
    case Some(t) => Ini.Parse(Rules(s), t)
    case None =>
      match src.stdin
      case Some(t) => if src.stdinPiped then Ini.Parse(Rules(s), t) else Some(map[])
      case None => Some(map[])
  }

  method MergeSources(s: Schema, src: Sources) returns (r: Option<map<text, text>>)
    ensures r.Some? <==> FromText(s, src).Some? && (FromText(s, src).value != map[] || src.flags != map[])
    ensures r.Some? ==> r.value == FromText(s, src).value + src.flags
  {
    var params := ReadSource(s, src);
    if params.None? {
      return None;
    }
    var merged := Collections.Overlay(params.value, src.flags);
    MergedIsEmpty(params.value, src.flags);
    if |merged| == 0 {
      return None;
    }
    return Some(merged);
  }

  lemma MergedIsEmpty(a: map<text, text>, b: map<text, text>)
    ensures |a + b| == 0 <==> a == map[] && b == map[]
  {
    if a + b == map[] {
      assert forall k :: k in a ==> k in a + b;
      assert forall k :: k in b ==> k in a + b;
    }
  }

  /** The choice between file and standard input. */
  method ReadSource(s: Schema, src: Sources) returns (r: Option<map<text, text>>)
    ensures r == FromText(s, src)
  {
    if src.file.Some? {
      r := Ini.ParseIni(Rules(s), src.file.value);
    } else if src.stdinPiped && src.stdin.Some? {
      r := Ini.ParseIni(Rules(s), src.stdin.value);
    } else {
      r := Some(map[]);
    }
  }

  // ---- applyInterfaceDefault -------------------------------------------------------------

  const INTERFACE: text := Ascii("interface")
  const SSID: text := Ascii("wireless_SSID")

  /** The parameters to write, once the interface sentinel has been replaced. */
  function WithInterface(s: Schema, merged: map<text, text>, cache: map<text, text>): map<text, text> {
    if INTERFACE in merged then merged
    else
      match s.ByName(INTERFACE)
      case None => merged
      case Some(p) =>
        if Lookup(cache, INTERFACE) != p.factoryDefault then merged
        else merged[INTERFACE := if Lookup(merged, SSID) != [] then Ascii("0") else Ascii("1")]
  }

  method ApplyInterfaceDefault(s: Schema, merged: map<text, text>, cache: map<text, text>) returns (r: map<text, text>)
    ensures r == WithInterface(s, merged, cache)
  {
    if INTERFACE in merged {
      return merged;
    }
    var p := s.ByName(INTERFACE);
    if p.None? {
      return merged;
    }
    if Lookup(cache, INTERFACE) != p.value.factoryDefault {
      return merged;
    }
    if Lookup(merged, SSID) != [] {
      return merged[INTERFACE := Ascii("0")];
    }
    return merged[INTERFACE := Ascii("1")];
  }
}
