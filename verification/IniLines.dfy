/** The configuration file format line by line: which lines count for nothing, which set a value, and
    which refuse the whole file. A file is read as its lines one after the other, so each result places
    one line behind a text that is empty or ends in a newline. */
module IniLines {
  import opened Bytes
  import opened Ini
  import Collections

  // ---- A text is its lines --------------------------------------------------------------

  /** Nothing, or whole lines. */
  predicate WholeLines(a: text) {
    a == [] || a[|a| - 1] == 10
  }

  lemma {:induction false} LinesConcat(a: text, b: text)
    requires WholeLines(a)
    ensures Lines(a + b) == Lines(a) + Lines(b)
    decreases |a|
  {
    if a == [] {
      assert a + b == b;
    } else {
      var i := FirstLine(a);
      LinesConcat(a[i + 1..], b);
      LinesStep(a, b, i);
    }
  }

  lemma FirstLine(a: text) returns (i: nat)
    requires a != [] && WholeLines(a)
    ensures i < |a| && i == IndexOf(a, NEWLINE) && a == a[..i] + [NEWLINE] + a[i + 1..]
    ensures Absent(a[..i], NEWLINE) && WholeLines(a[i + 1..])
  {
    i := IndexOf(a, NEWLINE);
    assert a[|a| - 1] == NEWLINE;
    AbsentBefore(a, NEWLINE);
  }

  lemma LinesStep(a: text, b: text, i: nat)
    requires i < |a| && i == IndexOf(a, NEWLINE) && a == a[..i] + [NEWLINE] + a[i + 1..] && Absent(a[..i], NEWLINE)
    requires Lines(a[i + 1..] + b) == Lines(a[i + 1..]) + Lines(b)
    ensures Lines(a + b) == Lines(a) + Lines(b)
  {
    LinesOfParts(a[..i], a[i + 1..], b);
  }

  lemma LinesOfParts(first: text, rest: text, b: text)
    requires Absent(first, NEWLINE) && Lines(rest + b) == Lines(rest) + Lines(b)
    ensures Lines(first + [NEWLINE] + rest + b) == Lines(first + [NEWLINE] + rest) + Lines(b)
  {
    Collections.Associates(first + [NEWLINE], rest, b);
    LinesOfFirst(first, rest + b);
    LinesOfFirst(first, rest);
    Collections.Associates([first], Lines(rest), Lines(b));
  }

  lemma LinesOfFirst(l: text, rest: text)
    requires Absent(l, NEWLINE)
    ensures Lines(l + [NEWLINE] + rest) == [l] + Lines(rest)
  {
    var input := l + [NEWLINE] + rest;
    IndexOfConcat(l, NEWLINE, rest);
    assert input[..|l|] == l && input[|l| + 1..] == rest;
  }

  lemma LinesOfLast(l: text)
    requires Absent(l, NEWLINE) && l != []
    ensures Lines(l) == [l]
  {
    IndexOfAbsent(l, NEWLINE);
    assert l[..|l|] == l;
  }

  lemma {:induction false} StepsConcat(g: Grammar, st: State, xs: seq<text>, ys: seq<text>)
    ensures Steps(g, st, xs + ys) == match Steps(g, st, xs) case None => None case Some(st') => Steps(g, st', ys)
    decreases |xs|
  {
    if xs == [] {
      assert xs + ys == ys;
    } else {
      assert (xs + ys)[0] == xs[0] && (xs + ys)[1..] == xs[1..] + ys;
      match Step(g, st, xs[0]) {
        case None =>
        case Some(st') => StepsConcat(g, st', xs[1..], ys);
      }
    }
  }

  /** What ParseINI has collected after a text. */
  function After(g: Grammar, a: text): Option<State> {
    Steps(g, State(map[], map[]), Lines(a))
  }

  /** One more line, and what follows it. */
  lemma ParseLineIn(g: Grammar, a: text, l: text, b: text)
    requires WholeLines(a) && Absent(l, NEWLINE)
    ensures After(g, a + l + [NEWLINE] + b) ==
            match After(g, a)
            case None => None
            case Some(st) => match Step(g, st, l) case None => None case Some(st') => Steps(g, st', Lines(b))
  {
    var st := State(map[], map[]);
    assert a + l + [NEWLINE] + b == a + (l + [NEWLINE] + b);
    LinesConcat(a, l + [NEWLINE] + b);
    LinesOfFirst(l, b);
    StepsConcat(g, st, Lines(a), [l] + Lines(b));
    match After(g, a) {
      case None =>
      case Some(st') => StepsCons(g, st', l, Lines(b));
    }
  }

  /** The same for a last line without a newline. */
  lemma ParseLineLast(g: Grammar, a: text, l: text)
    requires WholeLines(a) && Absent(l, NEWLINE) && l != []
    ensures After(g, a + l) == match After(g, a) case None => None case Some(st) => Step(g, st, l)
  {
    LinesConcat(a, l);
    LinesOfLast(l);
    StepsConcat(g, State(map[], map[]), Lines(a), [l]);
    match After(g, a) {
      case None =>
      case Some(st) =>
        assert [l] + [] == [l];
        StepsCons(g, st, l, []);
    }
  }

  lemma ParseTwo(g: Grammar, a: text, b: text)
    requires WholeLines(a)
    ensures After(g, a + b) == match After(g, a) case None => None case Some(st) => Steps(g, st, Lines(b))
  {
    LinesConcat(a, b);
    StepsConcat(g, State(map[], map[]), Lines(a), Lines(b));
  }

  // ---- White space ---------------------------------------------------------------------

  /** Only tabs, vertical white space, carriage returns and blanks. */
  ghost predicate White(t: text) {
    forall i :: 0 <= i < |t| ==> 9 <= t[i] <= 13 || t[i] == 32
  }

  lemma {:induction false} TrimLeftSkips(w: text, t: text)
    requires White(w)
    ensures TrimLeft(w + t) == TrimLeft(t)
    decreases |w|
  {
    if w == [] {
      assert w + t == t;
    } else {
      assert (w + t)[0] == w[0] && (w + t)[1..] == w[1..] + t;
      TrimLeftSkips(w[1..], t);
    }
  }

  lemma {:induction false} TrimRightSkips(t: text, w: text)
    requires White(w)
    ensures TrimRight(t + w) == TrimRight(t)
    decreases |w|
  {
    if w == [] {
      assert t + w == t;
    } else {
      var n := |t + w|;
      assert (t + w)[n - 1] == w[|w| - 1] && (t + w)[..n - 1] == t + w[..|w| - 1];
      TrimRightSkips(t, w[..|w| - 1]);
    }
  }

  /** White space around a trimmed text is dropped, and nothing else. */
  lemma TrimPadded(w: text, t: text, v: text)
    requires White(w) && White(v) && Trimmed(t)
    ensures Trim(w + t + v) == t
  {
    assert w + t + v == w + (t + v);
    TrimLeftSkips(w, t + v);
    if t == [] {
      assert t + v == v + [];
      TrimLeftSkips(v, []);
    } else {
      assert (t + v)[0] == t[0];
      TrimRightSkips(t, v);
      TrimOfTrimmed(t);
    }
  }

  /** The carriage return that the scanner drops would be trimmed anyway. */
  lemma ReturnIsTrimmed(w: text, t: text, v: text)
    requires White(w) && White(v) && Trimmed(t)
    ensures Trim(DropReturn(w + t + v)) == t
  {
    var raw := w + t + v;
    if v != [] {
      var v' := v[..|v| - 1];
      assert raw[|raw| - 1] == v[|v| - 1] && raw[..|raw| - 1] == w + t + v';
      TrimPadded(w, t, v');
    } else if t == [] && w != [] {
      var w' := w[..|w| - 1];
      assert raw == w && raw[..|raw| - 1] == w' + [] + [];
      TrimPadded(w', [], []);
    } else {
      assert t != [] ==> raw[|raw| - 1] == t[|t| - 1];
    }
    TrimPadded(w, t, v);
  }

  // ---- Lines that count for nothing -----------------------------------------------------

  /** A line of white space only, or one whose first other byte is '#' or ';'. */
  ghost predicate CountsForNothing(l: text) {
    exists i :: 0 <= i <= |l| && White(l[..i]) && (i == |l| || l[i] == 35 || l[i] == 59)
  }

  /** The parts of a text at its outer white space. */
  lemma {:induction false} RightPadding(t: text) returns (u: text, v: text)
    ensures t == u + v && White(v) && (u == [] || !(9 <= u[|u| - 1] <= 13 || u[|u| - 1] == 32))
    decreases |t|
  {
    if t != [] && (9 <= t[|t| - 1] <= 13 || t[|t| - 1] == 32) {
      var v';
      u, v' := RightPadding(t[..|t| - 1]);
      v := v' + [t[|t| - 1]];
      assert t == t[..|t| - 1] + [t[|t| - 1]];
    } else {
      u, v := t, [];
    }
  }

  lemma SkippedParts(l: text) returns (w: text, t: text, v: text)
    requires CountsForNothing(l)
    ensures l == w + t + v && White(w) && White(v) && Trimmed(t) && (t == [] || t[0] == 35 || t[0] == 59)
  {
    var i :| 0 <= i <= |l| && White(l[..i]) && (i == |l| || l[i] == 35 || l[i] == 59);
    w := l[..i];
    t, v := RightPadding(l[i..]);
    Collections.Associates(w, t, v);
    assert l == w + l[i..];
    FirstByteStays(l, i, t, v);
  }

  lemma FirstByteStays(l: text, i: nat, t: text, v: text)
    requires i <= |l| && l[i..] == t + v && (i == |l| || l[i] == 35 || l[i] == 59)
    requires t == [] || !(9 <= t[|t| - 1] <= 13 || t[|t| - 1] == 32)
    ensures Trimmed(t) && (t == [] || t[0] == 35 || t[0] == 59)
  {
    if t != [] {
      assert l[i] == l[i..][0] == (t + v)[0] == t[0];
    }
  }

  lemma SkippedStep(g: Grammar, st: State, l: text)
    requires CountsForNothing(l) && |l| < 65536
    ensures Step(g, st, l) == Some(st)
  {
    var w, t, v := SkippedParts(l);
    ReturnIsTrimmed(w, t, v);
  }

  /** Blank lines and comments count for nothing, wherever they stand. */
  lemma CommentsAreSkipped(g: Grammar, a: text, l: text, b: text)
    requires WholeLines(a) && Absent(l, 10) && |l| < 65536 && CountsForNothing(l)
    ensures Parse(g, a + l + [10] + b) == Parse(g, a + b)
    ensures Parse(g, a + l) == Parse(g, a)
  {
    ParseLineIn(g, a, l, b);
    ParseTwo(g, a, b);
    if After(g, a).Some? {
      SkippedStep(g, After(g, a).value, l);
    }
    if l == [] {
      assert a + l == a;
    } else {
      ParseLineLast(g, a, l);
    }
  }

  // ---- Lines that refuse the file ---------------------------------------------------------

  /** A line of 65536 bytes or more refuses the file, even a comment. */
  lemma LongLineRefuses(g: Grammar, a: text, l: text, b: text)
    requires WholeLines(a) && Absent(l, 10) && |l| >= 65536
    ensures Parse(g, a + l + [10] + b) == None
  {
    ParseLineIn(g, a, l, b);
  }

  /** So does any other line without a '='. */
  lemma NoEqualsRefuses(g: Grammar, a: text, l: text, b: text)
    requires WholeLines(a) && Absent(l, 10) && Absent(l, 61) && !CountsForNothing(l)
    ensures Parse(g, a + l + [10] + b) == None
  {
    ParseLineIn(g, a, l, b);
    if After(g, a).Some? && |l| < MAX_TOKEN {
      NoEqualsStep(g, After(g, a).value, l);
    }
  }

  lemma NoEqualsStep(g: Grammar, st: State, l: text)
    requires Absent(l, 61) && !CountsForNothing(l) && |l| < MAX_TOKEN
    ensures Step(g, st, l) == None
  {
    var line := Trim(DropReturn(l));
    NotSkipped(l);
    KeptAbsent(l, |DropReturn(l)|, 61);
    assert l[..|DropReturn(l)|] == DropReturn(l);
    TrimKeepsAbsent(DropReturn(l), 61);
    IndexOfAbsent(line, EQUALS);
  }

  lemma NotSkipped(l: text)
    requires !CountsForNothing(l)
    ensures var line := Trim(DropReturn(l)); line != [] && !IsComment(line)
  {
    var w, t := LeftPadding(l);
    var u, v := RightPadding(t);
    assert l == w + u + v by {
      assert w + (u + v) == w + u + v;
    }
    if u == [] {
      AllWhite(l, w, v);
    }
    FirstByteShows(l, w, u, v);
    ReturnIsTrimmed(w, u, v);
  }

  lemma AllWhite(l: text, w: text, v: text)
    requires White(w) && White(v) && l == w + [] + v
    ensures CountsForNothing(l)
  {
    WhiteJoin(w, v);
    assert l[..|l|] == w + v;
  }

  lemma FirstByteShows(l: text, w: text, u: text, v: text)
    requires White(w) && l == w + u + v && u != [] && !CountsForNothing(l)
    ensures u[0] != 35 && u[0] != 59
  {
    assert l[|w|] == u[0] && l[..|w|] == w;
  }

  lemma WhiteJoin(w: text, v: text)
    requires White(w) && White(v)
    ensures White(w + v)
  {
  }

  lemma {:induction false} LeftPadding(l: text) returns (w: text, t: text)
    ensures l == w + t && White(w) && (t == [] || !(9 <= t[0] <= 13 || t[0] == 32))
    decreases |l|
  {
    if l != [] && (9 <= l[0] <= 13 || l[0] == 32) {
      var w';
      w', t := LeftPadding(l[1..]);
      w := [l[0]] + w';
      assert l == [l[0]] + l[1..];
    } else {
      w, t := [], l;
    }
  }

  // ---- Lines that set a value -------------------------------------------------------------

  /** key and value with any white space around them. */
  function Padded(w1: text, key: text, w2: text, w3: text, value: text, w4: text): text {
    w1 + key + w2 + [61] + w3 + value + w4
  }

  lemma WhiteHasNoEquals(w: text)
    requires White(w)
    ensures Absent(w, 61)
  {
  }

  lemma PairOfPadded(key: text, w2: text, w3: text, value: text)
    requires White(w2) && White(w3) && Trimmed(key) && Trimmed(value) && Absent(key, 61)
    ensures Pair(key + w2 + [61] + (w3 + value)) == Some((key, value))
    ensures value == [] ==> Pair(key + w2 + [61]) == Some((key, value))
  {
    var left := key + w2;
    WhiteHasNoEquals(w2);
    PairAt(left, w3 + value);
    PairAt(left, []);
    assert key + w2 + [61] + [] == key + w2 + [61];
    assert [] + key + w2 == left && w3 + value + [] == w3 + value;
    TrimPadded([], key, w2);
    TrimPadded(w3, value, []);
  }

  lemma PairAt(left: text, right: text)
    requires Absent(left, 61)
    ensures Pair(left + [61] + right) == Some((Trim(left), Trim(right)))
  {
    var line := left + [61] + right;
    IndexOfConcat(left, 61, right);
    assert line[..|left|] == left && line[|left| + 1..] == right;
  }

  /** What is left of such a line once it is trimmed. */
  lemma PaddedTrims(w1: text, key: text, w2: text, w3: text, value: text, w4: text)
    requires White(w1) && White(w3) && White(w4) && Trimmed(key) && Trimmed(value) && key != []
    ensures var line := if value == [] then key + w2 + [61] else key + w2 + [61] + (w3 + value);
            Trim(DropReturn(Padded(w1, key, w2, w3, value, w4))) == line && line[0] == key[0]
  {
    if value == [] {
      var line := key + w2 + [61];
      assert Padded(w1, key, w2, w3, value, w4) == w1 + line + (w3 + w4);
      WhiteJoin(w3, w4);
      ReturnIsTrimmed(w1, line, w3 + w4);
    } else {
      var line := key + w2 + [61] + (w3 + value);
      assert Padded(w1, key, w2, w3, value, w4) == w1 + line + w4;
      assert line[|line| - 1] == value[|value| - 1];
      ReturnIsTrimmed(w1, line, w4);
    }
  }

  /** A line with a key that can stand in a file is read as its key and value. */
  lemma PaddedStep(g: Grammar, st: State, w1: text, key: text, w2: text, w3: text, value: text, w4: text)
    requires White(w1) && White(w2) && White(w3) && White(w4)
    requires Trimmed(key) && Trimmed(value) && key != [] && Absent(key, 61) && key[0] != 35 && key[0] != 59
    requires |Padded(w1, key, w2, w3, value, w4)| < 65536
    ensures Step(g, st, Padded(w1, key, w2, w3, value, w4)) == Assign(g, st, key, value)
  {
    PaddedTrims(w1, key, w2, w3, value, w4);
    PairOfPadded(key, w2, w3, value);
  }

  /** Every name recorded is that of a parameter some collected key has set. */
  ghost predicate Recorded(g: Grammar, st: State) {
    && (forall k :: k in st.out ==> (
          && g.schema.ByName(k).Some?
          && g.schema.ByName(k).value.name in st.seen && st.seen[g.schema.ByName(k).value.name] == k))
    && (forall n :: n in st.seen ==> (
          && st.seen[n] in st.out
          && g.schema.ByName(st.seen[n]).Some? && g.schema.ByName(st.seen[n]).value.name == n))
  }

  lemma AssignRecords(g: Grammar, st: State, key: text, value: text)
    requires Recorded(g, st) && Assign(g, st, key, value).Some?
    ensures Recorded(g, Assign(g, st, key, value).value)
  {
  }

  lemma StepRecords(g: Grammar, st: State, l: text)
    requires Recorded(g, st) && Step(g, st, l).Some?
    ensures Recorded(g, Step(g, st, l).value)
  {
    var line := Trim(DropReturn(l));
    match Pair(line) {
      case None =>
      case Some((key, value)) =>
        if line != [] && !IsComment(line) {
          AssignRecords(g, st, key, value);
        }
    }
  }

  lemma {:induction false} StepsRecord(g: Grammar, st: State, lines: seq<text>)
    requires Recorded(g, st) && Steps(g, st, lines).Some?
    ensures Recorded(g, Steps(g, st, lines).value)
    decreases |lines|
  {
    if lines != [] {
      StepRecords(g, st, lines[0]);
      StepsRecord(g, Step(g, st, lines[0]).value, lines[1..]);
    }
  }

  /** Another key of the map stands for the same parameter. */
  ghost predicate SetByAnother(g: Grammar, m: map<text, text>, key: text) {
    exists k :: k in m && k != key && g.schema.ByName(k) == g.schema.ByName(key)
  }

  lemma AssignExactly(g: Grammar, st: State, key: text, value: text)
    requires g.schema.Valid() && Recorded(g, st)
    ensures match Assign(g, st, key, value)
            case None => g.schema.ByName(key).None? || !g.accepts(key, value) || SetByAnother(g, st.out, key)
            case Some(st') => g.schema.ByName(key).Some? && g.accepts(key, value) && !SetByAnother(g, st.out, key)
                              && st'.out == st.out[key := value]
  {
    if g.schema.ByName(key).Some? {
      var p := g.schema.ByName(key).value;
      if p.name in st.seen && st.seen[p.name] != key {
        var k := st.seen[p.name];
        g.schema.SameName(g.schema.ByName(k).value, p);
        assert k in st.out && k != key && g.schema.ByName(k) == g.schema.ByName(key);
      }
    }
  }

  /** A line that gives a key a value, with any white space around the two, adds it to what the lines
      before it gave; a later value for a key replaces the earlier one. It refuses the file exactly when
      the key is unknown, the value is not accepted, or another key has set the same parameter. */
  lemma EntryIsAdded(g: Grammar, a: text, w1: text, key: text, w2: text, w3: text, value: text, w4: text)
    requires g.schema.Valid() && WholeLines(a)
    requires White(w1) && White(w2) && White(w3) && White(w4) && Absent(Padded(w1, key, w2, w3, value, w4), 10)
    requires Trimmed(key) && Trimmed(value) && key != [] && Absent(key, 61) && key[0] != 35 && key[0] != 59
    requires |Padded(w1, key, w2, w3, value, w4)| < 65536
    ensures Parse(g, a + Padded(w1, key, w2, w3, value, w4) + [10]) ==
            match Parse(g, a)
            case None => None
            case Some(m) =>
              if g.schema.ByName(key).None? || !g.accepts(key, value) || SetByAnother(g, m, key) then None
              else Some(m[key := value])
  {
    var l := Padded(w1, key, w2, w3, value, w4);
    assert a + l + [10] + [] == a + l + [10];
    ParseLineIn(g, a, l, []);
    if After(g, a).Some? {
      var st := After(g, a).value;
      StepsRecord(g, State(map[], map[]), Lines(a));
      PaddedStep(g, st, w1, key, w2, w3, value, w4);
      AssignExactly(g, st, key, value);
    }
  }

  // ---- Printing --------------------------------------------------------------------------

  /** A printed list is one line per entry: the name, an equals sign, the value, a newline. */
  lemma {:induction false} PrintedLine(m: map<text, text>, order: seq<text>, k: text)
    requires k in m && forall j :: j in order ==> j in m
    ensures Print(m, []) == []
    ensures Print(m, order + [k]) == Print(m, order) + k + [61] + m[k] + [10]
    decreases |order|
  {
    if order == [] {
      assert [k][1..] == [] && [] + [k] == [k];
      assert Print(m, [k]) == Line(k, m[k]) + [];
    } else {
      assert (order + [k])[1..] == order[1..] + [k];
      PrintedLine(m, order[1..], k);
      PrependLine(Line(order[0], m[order[0]]), Print(m, order[1..]), k, m[k]);
    }
  }

  lemma PrependLine(first: text, rest: text, k: text, v: text)
    ensures first + (rest + k + [61] + v + [10]) == first + rest + k + [61] + v + [10]
  {
  }
}
