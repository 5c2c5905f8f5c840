/** The configuration file format: ParseINI (cli/config.go) and the text form of a parameter list
    (cli/output.go). */
module Ini {
  import opened Bytes
  import opened Parameters

  // ---- Text --------------------------------------------------------------------------

  /** unicode.IsSpace on ASCII bytes */
  predicate IsSpace(c: byte) {
    9 <= c <= 13 || c == 32
  }

  function TrimLeft(s: text): (t: text)
    ensures t == [] || !IsSpace(t[0])
    ensures |t| <= |s|
  {
    if s != [] && IsSpace(s[0]) then TrimLeft(s[1..]) else s
  }

  function TrimRight(s: text): (t: text)
    ensures t == [] || !IsSpace(t[|t| - 1])
    ensures |t| <= |s|
  {
    if s != [] && IsSpace(s[|s| - 1]) then TrimRight(s[..|s| - 1]) else s
  }

  /** strings.TrimSpace */
  function Trim(s: text): (t: text)
    ensures Trimmed(t)
    ensures |t| <= |s|
  {
    var l := TrimLeft(s);
    TrimmedPrefix(l);
    TrimRight(l)
  }

  lemma {:induction false} TrimmedSuffix(s: text)
    ensures TrimLeft(s) == s[|s| - |TrimLeft(s)|..]
    decreases |s|
  {
    if s != [] && IsSpace(s[0]) {
      TrimmedSuffix(s[1..]);
    }
  }

  lemma {:induction false} TrimmedPrefix(s: text)
    ensures TrimRight(s) == s[..|TrimRight(s)|]
    decreases |s|
  {
    if s != [] && IsSpace(s[|s| - 1]) {
      TrimmedPrefix(s[..|s| - 1]);
    }
  }

  predicate Trimmed(s: text) {
    s == [] || (!IsSpace(s[0]) && !IsSpace(s[|s| - 1]))
  }

  /** Trimming changes only what is not trimmed, and invents no byte. */
  lemma TrimOfTrimmed(s: text)
    ensures Trim(s) == s <==> Trimmed(s)
  {
  }

  lemma TrimKeepsAbsent(s: text, c: byte)
    requires Absent(s, c)
    ensures Absent(Trim(s), c)
  {
    var l := TrimLeft(s);
    TrimmedSuffix(s);
    TrimmedPrefix(l);
    DroppedAbsent(s, |s| - |l|, c);
    KeptAbsent(l, |TrimRight(l)|, c);
  }

  lemma DroppedAbsent(s: text, n: nat, c: byte)
    requires Absent(s, c) && n <= |s|
    ensures Absent(s[n..], c)
  {
  }

  lemma KeptAbsent(s: text, n: nat, c: byte)
    requires Absent(s, c) && n <= |s|
    ensures Absent(s[..n], c)
  {
  }

  // ---- Lines -------------------------------------------------------------------------

  /** bufio.ScanLines: the pieces between newlines; an empty last piece is none. */
  function Lines(input: text): seq<text>
    decreases |input|
  {
    if input == [] then []
    else
      var i := IndexOf(input, NEWLINE);
      if i == |input| then [input] else [input[..i]] + Lines(input[i + 1..])
  }

  /** The carriage return ScanLines drops. */
  function DropReturn(line: text): text {
    if line != [] && line[|line| - 1] == RETURN then line[..|line| - 1] else line
  }

  /** bufio.MaxScanTokenSize: a line must leave room for its newline. */
  const MAX_TOKEN := 65536

  // ---- Parsing -----------------------------------------------------------------------

  /** The names a file may use and the values it may give them. */
  datatype Grammar = Grammar(schema: Schema, accepts: (text, text) -> bool)

  /** What ParseINI has collected: the values, and for each canonical name the key that gave it. */
  datatype State = State(out: map<text, text>, seen: map<text, text>)

  predicate IsComment(trimmed: text) {
    trimmed != [] && (trimmed[0] == HASH || trimmed[0] == SEMICOLON)
  }

  /** One line; none is an error. */
  function Step(g: Grammar, st: State, raw: text): Option<State> {
    if |raw| >= MAX_TOKEN then None
    else
      var line := Trim(DropReturn(raw));
      if line == [] || IsComment(line) then Some(st) else Split(g, st, line)
  }

  /** What stands before and after the first '='. */
  function Pair(line: text): Option<(text, text)> {
    var eq := IndexOf(line, EQUALS);
    if eq == |line| then None else Some((Trim(line[..eq]), Trim(line[eq + 1..])))
  }

  /** A line that is neither blank nor a comment. */
  function Split(g: Grammar, st: State, line: text): Option<State> {
    match Pair(line) case None => None case Some((key, value)) => Assign(g, st, key, value)
  }

  /** key=value */
  function Assign(g: Grammar, st: State, key: text, value: text): Option<State> {
    match g.schema.ByName(key)
    case None => None
    case Some(p) =>
      if !g.accepts(key, value) then None
      else if p.name in st.seen && st.seen[p.name] != key then None
      else Some(State(st.out[key := value], st.seen[p.name := key]))
  }

  function Steps(g: Grammar, st: State, lines: seq<text>): Option<State>
    decreases |lines|
  {
    if lines == [] then Some(st)
    else match Step(g, st, lines[0]) case None => None case Some(st') => Steps(g, st', lines[1..])
  }

  /** ParseINI */
  function Parse(g: Grammar, input: text): Option<map<text, text>> {
    match Steps(g, State(map[], map[]), Lines(input)) case None => None case Some(st) => Some(st.out)
  }

  /** The body of ParseINI's loop. */
  method ParseLine(g: Grammar, st: State, raw: text) returns (r: Option<State>)
    ensures r == Step(g, st, raw)
  {
    if |raw| >= MAX_TOKEN {
      return None;
    }
    var trimmed := Trim(DropReturn(raw));
    if trimmed == [] {
      return Some(st);
    }
    if trimmed[0] == HASH || trimmed[0] == SEMICOLON {
      return Some(st);
    }
    var pair := ParsePair(trimmed);
    if pair.None? {
      return None;
    }
    r := AssignKey(g, st, pair.value.0, pair.value.1);
  }

  /** Its middle part: the key and the value. */
  method ParsePair(trimmed: text) returns (pair: Option<(text, text)>)
    ensures pair == Pair(trimmed)
  {
    var eq := IndexOf(trimmed, EQUALS);
    if eq == |trimmed| {
      return None;
    }
    pair := Some((Trim(trimmed[..eq]), Trim(trimmed[eq + 1..])));
  }

  /** Its checks on one key and value. */
  method AssignKey(g: Grammar, st: State, key: text, value: text) returns (r: Option<State>)
    ensures r == Assign(g, st, key, value)
  {
    var canonical := g.schema.ByName(key);
    if canonical.None? {
      return None;
    }
    if !g.accepts(key, value) {
      return None;
    }
    var name := canonical.value.name;
    if name in st.seen && st.seen[name] != key {
      return None;
    }
    return Some(State(st.out[key := value], st.seen[name := key]));
  }

  /** ParseINI, line by line. */
  method ParseIni(g: Grammar, input: text) returns (r: Option<map<text, text>>)
    ensures r == Parse(g, input)
  {
    var st := State(map[], map[]);
    var rest := input;
    while rest != []
      invariant Steps(g, st, Lines(rest)) == Steps(g, State(map[], map[]), Lines(input))
      decreases |rest|
    {
      LinesNext(rest);
      var i := IndexOf(rest, NEWLINE);
      var next := ParseLine(g, st, rest[..i]);
      if next.None? {
        return None;
      }
      st := next.value;
      rest := if i == |rest| then [] else rest[i + 1..];
    }
    return Some(st.out);
  }

  lemma LinesNext(input: text)
    requires input != []
    ensures var i := IndexOf(input, NEWLINE);
            var rest := if i == |input| then [] else input[i + 1..];
            Lines(input) != [] && Lines(input)[0] == input[..i] && Lines(input)[1..] == Lines(rest)
  {
  }

  // ---- What a parsed file can hold ---------------------------------------------------------

  /** A key and value that survive being written on a line of their own. */
  predicate CleanEntry(g: Grammar, key: text, value: text) {
    g.schema.ByName(key).Some? && g.accepts(key, value) && FitsOneLine(key, value)
  }

  predicate FitsOneLine(key: text, value: text) {
    && Trimmed(key) && Trimmed(value)
    && Absent(key, NEWLINE) && Absent(value, NEWLINE) && Absent(key, EQUALS)
    && key != [] && !IsComment(key)
    && |key| + 1 + |value| < MAX_TOKEN
  }

  /** All entries are clean and no two keys set the same parameter. */
  ghost predicate Clean(g: Grammar, m: map<text, text>) {
    && (forall k :: k in m ==> CleanEntry(g, k, m[k]))
    && (forall j, k :: j in m && k in m && g.schema.ByName(j) == g.schema.ByName(k) ==> j == k)
  }

  /** The invariant of ParseINI. */
  ghost predicate Sound(g: Grammar, st: State) {
    && (forall k :: k in st.out ==> CleanEntry(g, k, st.out[k]))
    && (forall k :: k in st.out ==> g.schema.ByName(k).value.name in st.seen && st.seen[g.schema.ByName(k).value.name] == k)
  }

  lemma LinesHaveNoNewline(input: text)
    ensures forall l :: l in Lines(input) ==> Absent(l, NEWLINE)
    decreases |input|
  {
    if input != [] {
      var i := IndexOf(input, NEWLINE);
      if i < |input| {
        LinesHaveNoNewline(input[i + 1..]);
      }
    }
  }

  lemma AssignSound(g: Grammar, st: State, key: text, value: text)
    requires g.schema.Valid() && Sound(g, st) && FitsOneLine(key, value) && Assign(g, st, key, value).Some?
    ensures Sound(g, Assign(g, st, key, value).value)
  {
    var st' := Assign(g, st, key, value).value;
    forall k | k in st'.out
      ensures CleanEntry(g, k, st'.out[k]) && g.schema.ByName(k).value.name in st'.seen && st'.seen[g.schema.ByName(k).value.name] == k
    {
    }
  }

  /** The two halves of a line at its first '='. */
  lemma Halves(line: text, eq: nat)
    requires Absent(line, NEWLINE) && |line| < MAX_TOKEN && Trimmed(line) && !IsComment(line)
    requires line != [] && eq == IndexOf(line, EQUALS) < |line| && Trim(line[..eq]) != []
    ensures FitsOneLine(Trim(line[..eq]), Trim(line[eq + 1..]))
  {
    HalvesAbsent(line, eq);
    KeyStartsLine(line, eq);
  }

  lemma AbsentSlice(s: text, c: byte, i: nat, j: nat)
    requires i <= j <= |s| && Absent(s, c)
    ensures Absent(s[i..j], c)
  {
  }

  lemma AbsentBefore(s: text, c: byte)
    ensures Absent(s[..IndexOf(s, c)], c)
  {
  }

  lemma HalvesAbsent(line: text, eq: nat)
    requires Absent(line, NEWLINE) && eq == IndexOf(line, EQUALS) < |line|
    ensures Absent(Trim(line[..eq]), NEWLINE)
    ensures Absent(Trim(line[..eq]), EQUALS)
    ensures Absent(Trim(line[eq + 1..]), NEWLINE)
  {
    AbsentSlice(line, NEWLINE, 0, eq);
    AbsentSlice(line, NEWLINE, eq + 1, |line|);
    AbsentBefore(line, EQUALS);
    assert line[0..eq] == line[..eq] && line[eq + 1..|line|] == line[eq + 1..];
    TrimKeepsAbsent(line[..eq], NEWLINE);
    TrimKeepsAbsent(line[..eq], EQUALS);
    TrimKeepsAbsent(line[eq + 1..], NEWLINE);
  }

  lemma TrimmedLine(raw: text)
    requires Absent(raw, NEWLINE)
    ensures Absent(Trim(DropReturn(raw)), NEWLINE) && |Trim(DropReturn(raw))| <= |raw|
  {
    AbsentSlice(raw, NEWLINE, 0, |DropReturn(raw)|);
    assert raw[0..|DropReturn(raw)|] == DropReturn(raw);
    TrimKeepsAbsent(DropReturn(raw), NEWLINE);
  }

  lemma KnownKeyIsNotEmpty(g: Grammar, key: text)
    requires g.schema.Valid() && g.schema.ByName(key).Some?
    ensures key != []
  {
    g.schema.ByNameExactly(key);
  }

  lemma SplitSound(g: Grammar, st: State, line: text)
    requires g.schema.Valid() && Sound(g, st) && Absent(line, NEWLINE) && |line| < MAX_TOKEN && Trimmed(line)
    requires line != [] && !IsComment(line) && Split(g, st, line).Some?
    ensures Sound(g, Split(g, st, line).value)
  {
    var eq := IndexOf(line, EQUALS);
    KnownKeyIsNotEmpty(g, Trim(line[..eq]));
    Halves(line, eq);
    AssignSound(g, st, Trim(line[..eq]), Trim(line[eq + 1..]));
  }

  lemma StepSound(g: Grammar, st: State, raw: text)
    requires g.schema.Valid() && Sound(g, st) && Absent(raw, NEWLINE) && Step(g, st, raw).Some?
    ensures Sound(g, Step(g, st, raw).value)
  {
    var line := Trim(DropReturn(raw));
    TrimmedLine(raw);
    if line != [] && !IsComment(line) {
      SplitSound(g, st, line);
    }
  }

  /** The first byte of a line is the first byte of its key. */
  lemma KeyStartsLine(line: text, eq: nat)
    requires line != [] && Trimmed(line) && eq < |line|
    ensures Trim(line[..eq]) != [] ==> Trim(line[..eq])[0] == line[0]
  {
    if eq > 0 {
      assert TrimLeft(line[..eq]) == line[..eq];
      TrimmedPrefix(line[..eq]);
    }
  }

  lemma {:induction false} StepsSound(g: Grammar, st: State, lines: seq<text>)
    requires g.schema.Valid() && Sound(g, st) && Steps(g, st, lines).Some?
    requires forall l :: l in lines ==> Absent(l, NEWLINE)
    ensures Sound(g, Steps(g, st, lines).value)
    decreases |lines|
  {
    if lines != [] {
      StepSound(g, st, lines[0]);
      StepsSound(g, Step(g, st, lines[0]).value, lines[1..]);
    }
  }

  /** Whatever the input, what ParseINI returns is clean. */
  lemma ParsedIsClean(g: Grammar, input: text)
    requires g.schema.Valid() && Parse(g, input).Some?
    ensures Clean(g, Parse(g, input).value)
  {
    LinesHaveNoNewline(input);
    StepsSound(g, State(map[], map[]), Lines(input));
  }

  // ---- Printing ----------------------------------------------------------------------

  /** fmt.Fprintf(&b, "%s=%s\n", name, value) */
  function Line(key: text, value: text): text {
    key + [EQUALS] + value + [NEWLINE]
  }

  /** WriteText for the entries of m in a given order. */
  function Print(m: map<text, text>, order: seq<text>): text
    requires forall k :: k in order ==> k in m
  {
    if order == [] then [] else Line(order[0], m[order[0]]) + Print(m, order[1..])
  }

  /** order lists the keys of m, each once. */
  ghost predicate Lists(m: map<text, text>, order: seq<text>) {
    && (forall i, j :: 0 <= i < j < |order| ==> order[i] != order[j])
    && (forall k :: k in order <==> k in m)
  }

  lemma LinesOfLine(key: text, value: text, rest: text)
    requires Absent(key, NEWLINE) && Absent(value, NEWLINE)
    ensures Lines(Line(key, value) + rest) == [key + [EQUALS] + value] + Lines(rest)
  {
    var body := key + [EQUALS] + value;
    var input := Line(key, value) + rest;
    assert input == body + [NEWLINE] + rest;
    IndexOfConcat(body, NEWLINE, rest);
    assert input[..|body|] == body && input[|body| + 1..] == rest;
  }

  /** A clean line is not altered by trimming and splits where it was joined. */
  lemma LineParts(key: text, value: text)
    requires FitsOneLine(key, value)
    ensures var raw := key + [EQUALS] + value;
            && |raw| < MAX_TOKEN && Trim(DropReturn(raw)) == raw && !IsComment(raw)
            && IndexOf(raw, EQUALS) == |key| < |raw| && raw[..|key|] == key && raw[|key| + 1..] == value
  {
    var raw := key + [EQUALS] + value;
    assert raw[|raw| - 1] == if value == [] then EQUALS else value[|value| - 1];
    assert raw[0] == key[0];
    TrimOfTrimmed(raw);
    IndexOfConcat(key, EQUALS, value);
  }

  /** It is read back as its key and value. */
  lemma StepOfLine(g: Grammar, st: State, key: text, value: text)
    requires FitsOneLine(key, value)
    ensures Step(g, st, key + [EQUALS] + value) == Assign(g, st, key, value)
  {
    LineParts(key, value);
    TrimOfTrimmed(key);
    TrimOfTrimmed(value);
  }

  function Outside(m: map<text, text>, order: seq<text>): map<text, text> {
    map k | k in m && k !in order :: m[k]
  }

  /** Every name was given by a key of m that is not in order. */
  ghost predicate SeenOutside(g: Grammar, m: map<text, text>, order: seq<text>, seen: map<text, text>) {
    forall n :: n in seen ==> seen[n] in m && seen[n] !in order && g.schema.ByName(seen[n]).Some? && g.schema.ByName(seen[n]).value.name == n
  }

  lemma OutsideNext(m: map<text, text>, order: seq<text>)
    requires order != [] && order[0] in m && order[0] !in order[1..]
    ensures Outside(m, order)[order[0] := m[order[0]]] == Outside(m, order[1..])
  {
    assert forall x :: x in order <==> x == order[0] || x in order[1..];
  }

  lemma SeenNext(g: Grammar, m: map<text, text>, order: seq<text>, seen: map<text, text>)
    requires order != [] && order[0] in m && order[0] !in order[1..] && g.schema.ByName(order[0]).Some?
    requires SeenOutside(g, m, order, seen)
    ensures SeenOutside(g, m, order[1..], seen[g.schema.ByName(order[0]).value.name := order[0]])
  {
  }

  lemma AssignNext(g: Grammar, m: map<text, text>, order: seq<text>, st: State)
    requires g.schema.Valid() && Clean(g, m) && SeenOutside(g, m, order, st.seen) && order != [] && order[0] in m
    ensures var k := order[0];
            && g.schema.ByName(k).Some? && FitsOneLine(k, m[k])
            && Assign(g, st, k, m[k]) == Some(State(st.out[k := m[k]], st.seen[g.schema.ByName(k).value.name := k]))
  {
    var k := order[0];
    assert CleanEntry(g, k, m[k]);
    var p := g.schema.ByName(k).value;
    if p.name in st.seen {
      var j := st.seen[p.name];
      g.schema.SameName(g.schema.ByName(j).value, p);
    }
  }

  ghost predicate NoRepeats(order: seq<text>) {
    order == [] || (order[0] !in order[1..] && NoRepeats(order[1..]))
  }

  lemma {:induction false} ListsHasNoRepeats(order: seq<text>)
    requires forall i, j :: 0 <= i < j < |order| ==> order[i] != order[j]
    ensures NoRepeats(order)
    decreases |order|
  {
    if order != [] {
      ListsHasNoRepeats(order[1..]);
    }
  }

  /** Reading back the rest of a printed map. */
  lemma {:induction false} StepsOfPrint(g: Grammar, m: map<text, text>, order: seq<text>, seen: map<text, text>)
    requires g.schema.Valid() && Clean(g, m) && SeenOutside(g, m, order, seen) && NoRepeats(order)
    requires forall k :: k in order ==> k in m
    ensures var r := Steps(g, State(Outside(m, order), seen), Lines(Print(m, order))); r.Some? && r.value.out == m
    decreases |order|
  {
    var st := State(Outside(m, order), seen);
    if order == [] {
      assert st.out == m;
    } else {
      var k, rest := order[0], order[1..];
      AssignNext(g, m, order, st);
      LinesOfLine(k, m[k], Print(m, rest));
      StepOfLine(g, st, k, m[k]);
      StepsCons(g, st, k + [EQUALS] + m[k], Lines(Print(m, rest)));
      OutsideNext(m, order);
      SeenNext(g, m, order, seen);
      StepsOfPrint(g, m, rest, seen[g.schema.ByName(k).value.name := k]);
    }
  }

  lemma StepsCons(g: Grammar, st: State, line: text, lines: seq<text>)
    ensures Steps(g, st, [line] + lines) ==
            match Step(g, st, line) case None => None case Some(st') => Steps(g, st', lines)
  {
    assert ([line] + lines)[1..] == lines;
  }

  /** Printing a map and parsing the text gives the map back exactly when its entries are clean: known
      keys, one per parameter, valid values, nothing to trim, no newline, no over-long line. */
  lemma ParseOfPrint(g: Grammar, m: map<text, text>, order: seq<text>)
    requires g.schema.Valid() && Lists(m, order)
    ensures Parse(g, Print(m, order)) == Some(m) <==> Clean(g, m)
  {
    if Clean(g, m) {
      ListsHasNoRepeats(order);
      assert Outside(m, order) == map[];
      StepsOfPrint(g, m, order, map[]);
    }
    if Parse(g, Print(m, order)) == Some(m) {
      ParsedIsClean(g, Print(m, order));
    }
  }
}
