/** Hardware addresses as text: udap/mac.go, mocksbr's own formatMAC / parseMAC / validMAC, and
    the CLI's normalizeMAC. */
module MacText {
  import opened Bytes
  import opened Wire

  predicate IsLowerHex(c: byte) {
    48 <= c <= 57 || 97 <= c <= 102
  }

  predicate IsHex(c: byte) {
    IsLowerHex(c) || 65 <= c <= 70
  }

  /** hexNibble; mocksbr's copy maps anything else to 0. */
  function HexNibble(c: byte): (n: byte)
    ensures n < 16
  {
    if 48 <= c <= 57 then c - 48
    else if 97 <= c <= 102 then c - 97 + 10
    else if 65 <= c <= 70 then c - 65 + 10
    else 0
  }

  /** "0123456789abcdef"[n] */
  function HexDigit(n: byte): (c: byte)
    requires n < 16
    ensures IsLowerHex(c) && HexNibble(c) == n
  {
    if n < 10 then 48 + n else 87 + n
  }

  /** One ASCII byte of strings.ToLower. */
  function Lower(c: byte): (l: byte)
    ensures IsHex(c) ==> IsLowerHex(l) && HexNibble(l) == HexNibble(c)
    ensures IsLowerHex(l) ==> IsHex(c)
    ensures l == COLON <==> c == COLON
    ensures l == HYPHEN <==> c == HYPHEN
  {
    if 65 <= c <= 90 then c + 32 else c
  }

  function ToLower(s: text): (t: text)
    ensures |t| == |s|
    ensures forall i :: 0 <= i < |s| ==> t[i] == Lower(s[i])
  {
    seq(|s|, i requires 0 <= i < |s| => Lower(s[i]))
  }

  /** The two characters of byte i of an address start at 3 * i. */
  predicate ColonForm(s: text) {
    && |s| == 17
    && (forall i :: 0 <= i < 17 ==> if i % 3 == 2 then s[i] == COLON else IsHex(s[i]))
  }

  predicate LowerColonForm(s: text) {
    ColonForm(s) && forall i :: 0 <= i < 17 && i % 3 != 2 ==> IsLowerHex(s[i])
  }

  function ByteAt(s: text, i: nat): byte
    requires i + 2 <= |s|
  {
    HexNibble(s[i]) * 16 + HexNibble(s[i + 1])
  }

  /** The address spelled by a text in colon form. */
  function MacOf(s: text): mac
    requires |s| == 17
  {
    seq(6, i requires 0 <= i < 6 => ByteAt(s, 3 * i))
  }

  /** MAC.String and mocksbr's formatMAC. */
  function MacString(m: mac): (s: text)
    ensures |s| == 17
    ensures LowerColonForm(s)
  {
    seq(17, i requires 0 <= i < 17 =>
      if i % 3 == 2 then COLON
      else if i % 3 == 0 then HexDigit(m[i / 3] / 16)
      else HexDigit(m[i / 3] % 16))
  }

  /** MAC.String as written. */
  method MacStringLoop(m: mac) returns (s: text)
    ensures s == MacString(m)
  {
    var buf := new byte[17](_ => NUL);
    for i := 0 to 6
      invariant forall j :: 0 <= j < i ==> buf[3 * j] == HexDigit(m[j] / 16) && buf[3 * j + 1] == HexDigit(m[j] % 16)
      invariant forall j :: 0 <= j < i && j < 5 ==> buf[3 * j + 2] == COLON
    {
      buf[i * 3] := HexDigit(m[i] / 16);
      buf[i * 3 + 1] := HexDigit(m[i] % 16);
      if i < 5 {
        buf[i * 3 + 2] := COLON;
      }
    }
    s := buf[..];
    forall k | 0 <= k < 17 ensures s[k] == MacString(m)[k] {
      var j := k / 3;
      assert k == 3 * j || k == 3 * j + 1 || (k == 3 * j + 2 && j < 5);
    }
  }

  /** ParseMAC as a specification: colon form and nothing else. */
  function ParseMac(s: text): Option<mac> {
    if ColonForm(s) then Some(MacOf(s)) else None
  }

  /** ParseMAC as written. */
  method ParseMacLoop(s: text) returns (r: Option<mac>)
    ensures r == ParseMac(s)
  {
    if |s| != 17 {
      return None;
    }
    var m: mac := ZERO_MAC;
    for i := 0 to 6
      invariant forall k :: 0 <= k < 3 * i && k < 17 ==> if k % 3 == 2 then s[k] == COLON else IsHex(s[k])
      invariant forall k :: 0 <= k < i ==> m[k] == ByteAt(s, 3 * k)
    {
      if !IsHex(s[3 * i]) {
        return None;
      }
      if !IsHex(s[3 * i + 1]) {
        return None;
      }
      if i < 5 && s[3 * i + 2] != COLON {
        assert (3 * i + 2) % 3 == 2;
        return None;
      }
      m := m[i := HexNibble(s[3 * i]) * 16 + HexNibble(s[3 * i + 1])];
    }
    assert m == MacOf(s);
    return Some(m);
  }

  lemma MacOfString(m: mac)
    ensures MacOf(MacString(m)) == m
    ensures ParseMac(MacString(m)) == Some(m)
  {
  }

  lemma PairOfByte(hi: byte, lo: byte)
    requires IsLowerHex(hi) && IsLowerHex(lo)
    ensures HexDigit((HexNibble(hi) * 16 + HexNibble(lo)) / 16) == hi
    ensures HexDigit((HexNibble(hi) * 16 + HexNibble(lo)) % 16) == lo
  {
  }

  lemma StringOfMacAt(s: text, k: nat)
    requires LowerColonForm(s) && k < 6
    ensures MacString(MacOf(s))[3 * k] == s[3 * k]
    ensures MacString(MacOf(s))[3 * k + 1] == s[3 * k + 1]
  {
    assert (3 * k) % 3 == 0 && (3 * k + 1) % 3 == 1 && (3 * k) / 3 == k && (3 * k + 1) / 3 == k;
    PairOfByte(s[3 * k], s[3 * k + 1]);
  }

  /** A lower-case colon form is the rendering of the address it spells. */
  lemma StringOfMac(s: text)
    requires LowerColonForm(s)
    ensures MacString(MacOf(s)) == s
  {
    var t := MacString(MacOf(s));
    forall i | 0 <= i < 17 ensures t[i] == s[i] {
      var k := i / 3;
      assert i == 3 * k || i == 3 * k + 1 || i % 3 == 2;
      if i % 3 != 2 {
        StringOfMacAt(s, k);
      } else {
        assert t[i] == COLON && s[i] == COLON;
      }
    }
  }

  // ---- normalizeMAC ------------------------------------------------------------------

  predicate IsSeparator(c: byte) {
    c == COLON || c == HYPHEN
  }

  /** strings.ReplaceAll(s, c, "") */
  function Remove(s: text, c: byte): text {
    if s == [] then []
    else Remove(s[..|s| - 1], c) + (if s[|s| - 1] == c then [] else [s[|s| - 1]])
  }

  /** What remains of a text without ':' and '-'. */
  function Strip(s: text): text {
    if s == [] then []
    else Strip(s[..|s| - 1]) + (if IsSeparator(s[|s| - 1]) then [] else [s[|s| - 1]])
  }

  /** strings.ReplaceAll(s, "-", ":") */
  function HyphensToColons(s: text): (t: text)
    ensures |t| == |s|
  {
    seq(|s|, i requires 0 <= i < |s| => if s[i] == HYPHEN then COLON else s[i])
  }

  /** Twelve digits with a colon after every second one. */
  function Colonize(d: text): (t: text)
    requires |d| == 12
    ensures |t| == 17
  {
    seq(17, i requires 0 <= i < 17 => if i % 3 == 2 then COLON else d[i - i / 3])
  }

  predicate TwelveHex(d: text) {
    |d| == 12 && forall i :: 0 <= i < 12 ==> IsHex(d[i])
  }

  predicate TwelveLowerHex(d: text) {
    |d| == 12 && forall i :: 0 <= i < 12 ==> IsLowerHex(d[i])
  }

  /** normalizeMAC, branch by branch. */
  method NormalizeMacLoop(input: text) returns (r: Option<text>)
    ensures r == NormalizeMac(input)
  {
    NormalizeMacExactly(input);
    if input == [] {
      return None;
    }
    var lower := ToLower(input);
    var withColons := HyphensToColons(lower);
    if LowerColonForm(withColons) {
      return Some(withColons);
    }
    var noSep := Remove(Remove(lower, COLON), HYPHEN);
    if TwelveLowerHex(noSep) {
      var out := InsertColons(noSep);
      return Some(out);
    }
    return None;
  }

  /** Its loop over the digits. */
  method InsertColons(noSep: text) returns (out: text)
    requires |noSep| == 12
    ensures out == Colonize(noSep)
  {
    out := [];
    var i := 0;
    ghost var k := 0;
    while i < 12
      invariant 0 <= k <= 6 && i == 2 * k
      invariant out == Pairs(noSep, k)
    {
      PairsNext(noSep, k);
      if i > 0 {
        out := out + [COLON];
      }
      out := out + noSep[i..i + 2];
      i, k := i + 2, k + 1;
    }
    assert Pairs(noSep, 6) == Colonize(noSep);
  }

  /** The first k pairs of digits, with a colon between them. */
  ghost function Pairs(d: text, k: nat): text
    requires |d| == 12 && k <= 6
  {
    if k == 0 then [] else Colonize(d)[..3 * k - 1]
  }

  lemma Thirds(k: nat)
    ensures (3 * k) % 3 == 0 && (3 * k) / 3 == k
    ensures (3 * k + 1) % 3 == 1 && (3 * k + 1) / 3 == k && (3 * k + 2) % 3 == 2
  {
  }

  lemma PairAt(d: text, k: nat)
    requires |d| == 12 && k < 6
    ensures Colonize(d)[3 * k] == d[2 * k] && Colonize(d)[3 * k + 1] == d[2 * k + 1]
    ensures k < 5 ==> Colonize(d)[3 * k + 2] == COLON
  {
    Thirds(k);
  }

  lemma PairsNext(d: text, k: nat)
    requires |d| == 12 && k < 6
    ensures Pairs(d, k + 1) == Pairs(d, k) + (if k == 0 then [] else [COLON]) + d[2 * k..2 * k + 2]
  {
    PairAt(d, k);
    assert d[2 * k..2 * k + 2] == [d[2 * k], d[2 * k + 1]];
    if k > 0 {
      PairAt(d, k - 1);
      ThreeMore(Colonize(d), 3 * k - 1);
    }
  }

  lemma ThreeMore(t: text, n: nat)
    requires n + 3 <= |t|
    ensures t[..n + 3] == t[..n] + [t[n]] + [t[n + 1], t[n + 2]]
  {
  }

  /** The two ways normalizeMAC can succeed, in the order it tries them. */
  function NormalizeMac(input: text): Option<text> {
    var withColons := HyphensToColons(ToLower(input));
    var noSep := Remove(Remove(ToLower(input), COLON), HYPHEN);
    if LowerColonForm(withColons) then Some(withColons)
    else if TwelveLowerHex(noSep) then Some(Colonize(noSep))
    else None
  }

  lemma {:induction false} RemoveBoth(s: text)
    ensures Remove(Remove(s, COLON), HYPHEN) == Strip(s)
  {
    if s != [] {
      var front, last := s[..|s| - 1], s[|s| - 1];
      RemoveBoth(front);
      var kept := Remove(front, COLON);
      if last == COLON {
        assert Remove(s, COLON) == kept;
        assert Strip(s) == Strip(front);
      } else {
        assert Remove(s, COLON) == kept + [last];
        assert (kept + [last])[..|kept|] == kept;
      }
    }
  }

  lemma {:induction false} StripLower(s: text)
    ensures Strip(ToLower(s)) == ToLower(Strip(s))
  {
    if s != [] {
      StripLower(s[..|s| - 1]);
      assert ToLower(s)[..|s| - 1] == ToLower(s[..|s| - 1]);
    }
  }

  /** Stripping a text whose separators are exactly at every third place. */
  lemma {:induction false} StripColumns(t: text, n: nat)
    requires n <= |t|
    requires forall i :: 0 <= i < |t| ==> (IsSeparator(t[i]) <==> i % 3 == 2)
    ensures |Strip(t[..n])| == n - n / 3
    ensures forall j :: 0 <= j < n - n / 3 ==> j + j / 2 < n && Strip(t[..n])[j] == t[j + j / 2]
    decreases n
  {
    if n > 0 {
      StripColumns(t, n - 1);
      assert t[..n][..n - 1] == t[..n - 1];
    }
  }

  /** The colon form is what stripping and re-inserting colons gives. */
  lemma ColonizeOfStrip(t: text)
    requires |t| == 17
    requires forall i :: 0 <= i < 17 ==> (IsSeparator(t[i]) <==> i % 3 == 2)
    ensures |Strip(t)| == 12
    ensures forall j :: 0 <= j < 12 ==> Strip(t)[j] == t[j + j / 2]
    ensures Colonize(Strip(t)) == HyphensToColons(t)
  {
    StripColumns(t, 17);
    assert t[..17] == t;
  }

  lemma ColonizeIsColonForm(d: text)
    requires TwelveLowerHex(d)
    ensures LowerColonForm(Colonize(d))
    ensures Strip(Colonize(d)) == d
  {
    var t := Colonize(d);
    ColonizeOfStrip(t);
    forall j | 0 <= j < 12 ensures Strip(t)[j] == d[j] {
      assert (j + j / 2) - (j + j / 2) / 3 == j;
    }
  }

  lemma DigitPlace(j: nat)
    requires j < 12
    ensures (j + j / 2) % 3 != 2 && j + j / 2 < 17
  {
  }

  lemma DigitIsHex(lower: text, i: nat)
    requires LowerColonForm(HyphensToColons(lower)) && i < 17 && i % 3 != 2
    ensures |lower| == 17 && IsLowerHex(lower[i])
  {
    var withColons := HyphensToColons(lower);
    assert IsLowerHex(withColons[i]);
    assert withColons[i] == if lower[i] == HYPHEN then COLON else lower[i];
  }

  /** normalizeMAC accepts exactly the texts that leave twelve hex digits once ':' and '-' are
      dropped, wherever those stand, and its first branch never decides the result. */
  lemma NormalizeMacExactly(input: text)
    ensures NormalizeMac(input).Some? <==> TwelveHex(Strip(input))
    ensures NormalizeMac(input).Some? ==> NormalizeMac(input) == Some(Colonize(ToLower(Strip(input))))
  {
    var lower := ToLower(input);
    RemoveBoth(lower);
    StripLower(input);
    assert TwelveLowerHex(Strip(lower)) <==> TwelveHex(Strip(input));
    var withColons := HyphensToColons(lower);
    if LowerColonForm(withColons) {
      forall i | 0 <= i < 17 ensures IsSeparator(lower[i]) <==> i % 3 == 2 {
        assert withColons[i] == if lower[i] == HYPHEN then COLON else lower[i];
      }
      ColonizeOfStrip(lower);
      forall j | 0 <= j < 12 ensures IsLowerHex(Strip(lower)[j]) {
        DigitPlace(j);
        DigitIsHex(lower, j + j / 2);
      }
    }
  }

  /** The normal form is a fixed point of normalizeMAC and of String after ParseMAC. */
  lemma NormalFormIsFixed(input: text)
    requires NormalizeMac(input).Some?
    ensures var n := NormalizeMac(input).value;
            LowerColonForm(n) && NormalizeMac(n) == Some(n) &&
            ParseMac(n).Some? && MacString(ParseMac(n).value) == n
  {
    NormalizeMacExactly(input);
    var d := ToLower(Strip(input));
    assert TwelveLowerHex(d);
    ColonizeIsColonForm(d);
    NormalizeMacExactly(Colonize(d));
    assert ToLower(d) == d;
    StringOfMac(Colonize(d));
  }

  /** The address twelve hex digits spell. */
  function Spelled(d: text): mac
    requires |d| == 12
  {
    seq(6, i requires 0 <= i < 6 => ByteAt(d, 2 * i))
  }

  lemma SpelledByNormalForm(d: text)
    requires TwelveHex(d)
    ensures MacOf(Colonize(ToLower(d))) == Spelled(d)
  {
    var t := Colonize(ToLower(d));
    forall i | 0 <= i < 6 ensures MacOf(t)[i] == Spelled(d)[i] {
      assert (3 * i) % 3 == 0 && (3 * i) / 3 == i && (3 * i + 1) / 3 == i;
    }
  }

  /** normalizeMAC yields the canonical text of the address its input spells. */
  lemma NormalFormIsCanonical(input: text)
    requires TwelveHex(Strip(input))
    ensures NormalizeMac(input) == Some(MacString(Spelled(Strip(input))))
  {
    NormalizeMacExactly(input);
    NormalFormIsFixed(input);
    SpelledByNormalForm(Strip(input));
  }
}
