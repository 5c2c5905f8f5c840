/** Decimal and dotted-quad text: strconv.ParseUint / FormatUint in base 10, and the plain
    dotted-quad part of net.ParseIP together with the "%d.%d.%d.%d" rendering of an address. */
module Decimal {
  import opened Bytes

  predicate IsDigit(c: byte) {
    DIGIT0 <= c <= DIGIT9
  }

  predicate AllDigits(s: text) {
    forall i :: 0 <= i < |s| ==> IsDigit(s[i])
  }

  /** strconv.FormatUint(n, 10) */
  function Dec(n: nat): (s: text)
    ensures s != [] && AllDigits(s)
    ensures |s| == 1 || s[0] != DIGIT0
  {
    if n < 10 then [DIGIT0 + n] else Dec(n / 10) + [DIGIT0 + n % 10]
  }

  function DigitsValue(s: text): nat
    requires AllDigits(s)
  {
    if s == [] then 0 else DigitsValue(s[..|s| - 1]) * 10 + (s[|s| - 1] - DIGIT0)
  }

  /** strconv.ParseUint(s, 10, bits) where max is the largest value of that width. */
  function ParseUint(s: text, max: nat): (r: Option<nat>)
    ensures r.Some? ==> r.value <= max
  {
    if s == [] || !AllDigits(s) || DigitsValue(s) > max then None else Some(DigitsValue(s))
  }

  lemma {:induction false} DigitsOfDec(n: nat)
    ensures DigitsValue(Dec(n)) == n
  {
    if n < 10 {
      assert Dec(n)[..0] == [];
    } else {
      DigitsOfDec(n / 10);
      assert Dec(n)[..|Dec(n)| - 1] == Dec(n / 10);
    }
  }

  lemma ParseOfDec(n: nat, max: nat)
    ensures ParseUint(Dec(n), max) == if n <= max then Some(n) else None
  {
    DigitsOfDec(n);
  }

  lemma DecInjective(m: nat, n: nat)
    requires Dec(m) == Dec(n)
    ensures m == n
  {
    DigitsOfDec(m);
    DigitsOfDec(n);
  }

  /** A digit string with no superfluous leading zero is the rendering of its value. */
  lemma {:induction false} DecOfDigits(s: text)
    requires s != [] && AllDigits(s)
    requires |s| == 1 || s[0] != DIGIT0
    ensures Dec(DigitsValue(s)) == s
    decreases |s|
  {
    if |s| == 1 {
      assert s[..0] == [];
    } else {
      var front := s[..|s| - 1];
      DecOfDigits(front);
      PositiveWithoutLeadingZero(front);
      assert s == front + [s[|s| - 1]];
    }
  }

  lemma {:induction false} PositiveWithoutLeadingZero(s: text)
    requires s != [] && AllDigits(s) && s[0] != DIGIT0
    ensures DigitsValue(s) > 0
    decreases |s|
  {
    if |s| == 1 {
      assert s[..0] == [];
    } else {
      PositiveWithoutLeadingZero(s[..|s| - 1]);
    }
  }

  /** Rendering an 8-bit value takes at most three characters. */
  lemma DecShort(n: nat)
    ensures n < 10 ==> |Dec(n)| == 1
    ensures n < 100 ==> |Dec(n)| <= 2
    ensures n < 1000 ==> |Dec(n)| <= 3
    ensures n < 100000 ==> |Dec(n)| <= 5
  {
    if n >= 1000 {
      DecShort(n / 10);
    }
  }

  // ---- Dotted quads ------------------------------------------------------------------

  /** One field of an IPv4 address: digits, no leading zero, at most 255. */
  function ParseOctet(s: text): (r: Option<byte>)
  {
    if s == [] || !AllDigits(s) || (|s| > 1 && s[0] == DIGIT0) || DigitsValue(s) > 255 then None
    else Some(DigitsValue(s))
  }

  /** k dot-separated octets filling the whole of s. */
  function ParseOctets(s: text, k: nat): (r: Option<seq<byte>>)
    requires k > 0
    ensures r.Some? ==> |r.value| == k
    decreases k
  {
    if k == 1 then
      match ParseOctet(s)
      case None => None
      case Some(b) => Some([b])
    else
      var i := IndexOf(s, DOT);
      if i == |s| then None else
        match (ParseOctet(s[..i]), ParseOctets(s[i + 1..], k - 1))
        case (Some(b), Some(rest)) => Some([b] + rest)
        case _ => None
  }

  /** fmt.Sprintf("%d.%d. ... .%d") */
  function OctetsText(q: seq<byte>): text
    requires q != []
  {
    if |q| == 1 then Dec(q[0]) else Dec(q[0]) + [DOT] + OctetsText(q[1..])
  }

  /** net.ParseIP(s).To4() on dotted quads. */
  function ParseQuad(s: text): (r: Option<seq<byte>>)
    ensures r.Some? ==> |r.value| == 4
  {
    ParseOctets(s, 4)
  }

  lemma OctetOfDec(b: byte)
    ensures ParseOctet(Dec(b)) == Some(b)
    ensures Absent(Dec(b), DOT)
  {
    DigitsOfDec(b);
  }

  lemma {:induction false} ParseOctetsCons(b: byte, tail: text, k: nat)
    requires k > 1
    ensures ParseOctets(Dec(b) + [DOT] + tail, k) ==
            match ParseOctets(tail, k - 1)
            case None => None
            case Some(rest) => Some([b] + rest)
  {
    var s := Dec(b) + [DOT] + tail;
    OctetOfDec(b);
    IndexOfConcat(Dec(b), DOT, tail);
    assert s[..|Dec(b)|] == Dec(b);
    assert s[|Dec(b)| + 1..] == tail;
  }

  lemma OctetsCons(b: byte, rest: seq<byte>)
    requires rest != []
    ensures OctetsText([b] + rest) == Dec(b) + [DOT] + OctetsText(rest)
  {
    assert ([b] + rest)[1..] == rest;
  }

  lemma OctetsStep(q: seq<byte>)
    requires |q| > 1 && ParseOctets(OctetsText(q[1..]), |q| - 1) == Some(q[1..])
    ensures ParseOctets(OctetsText(q), |q|) == Some(q)
  {
    ParseOctetsCons(q[0], OctetsText(q[1..]), |q|);
    OctetsCons(q[0], q[1..]);
    assert [q[0]] + q[1..] == q;
  }

  lemma {:induction false} ParseOfOctets(q: seq<byte>)
    requires q != []
    ensures ParseOctets(OctetsText(q), |q|) == Some(q)
    decreases |q|
  {
    if |q| == 1 {
      OctetOfDec(q[0]);
      assert q == [q[0]];
    } else {
      ParseOfOctets(q[1..]);
      OctetsStep(q);
    }
  }

  lemma {:induction false} OctetsOfParse(s: text, k: nat)
    requires k > 0 && ParseOctets(s, k).Some?
    ensures s == OctetsText(ParseOctets(s, k).value)
    decreases k
  {
    if k == 1 {
      DecOfDigits(s);
    } else {
      var i := ParseStep(s, k);
      OctetsOfParse(s[i + 1..], k - 1);
      DecOfDigits(s[..i]);
      OctetsCons(ParseOctet(s[..i]).value, ParseOctets(s[i + 1..], k - 1).value);
    }
  }

  /** The first octet of several. */
  lemma ParseStep(s: text, k: nat) returns (i: nat)
    requires k > 1 && ParseOctets(s, k).Some?
    ensures i < |s| && s == s[..i] + [DOT] + s[i + 1..]
    ensures ParseOctet(s[..i]).Some? && ParseOctets(s[i + 1..], k - 1).Some?
    ensures ParseOctets(s, k).value == [ParseOctet(s[..i]).value] + ParseOctets(s[i + 1..], k - 1).value
  {
    i := IndexOf(s, DOT);
    assert s == s[..i] + [s[i]] + s[i + 1..];
  }

  /** A text is accepted as a dotted quad exactly when it is the rendering of four bytes,
      and the bytes are then the parsed value: the parser has one text per address. */
  lemma QuadExactly(s: text, q: seq<byte>)
    requires |q| == 4
    ensures ParseQuad(s) == Some(q) <==> s == OctetsText(q)
  {
    ParseOfOctets(q);
    if ParseQuad(s) == Some(q) {
      OctetsOfParse(s, 4);
    }
  }
}
