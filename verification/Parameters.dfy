/** The NVRAM parameter table and the value codec of udap/parameters.go and
    udap/getdata_response.go, for any table with unique names and disjoint ascending regions. */
module Parameters {
  import opened Bytes
  import opened Decimal

  datatype Parameter = Parameter(name: text, offset: uint16, length: uint16, factoryDefault: text)

  function FindName(params: seq<Parameter>, name: text): (r: Option<Parameter>)
    ensures r.Some? ==> r.value in params && r.value.name == name
    ensures r.None? ==> forall p :: p in params ==> p.name != name
  {
    if params == [] then None
    else if params[0].name == name then Some(params[0])
    else FindName(params[1..], name)
  }

  function FindOffset(params: seq<Parameter>, offset: uint16): (r: Option<Parameter>)
    ensures r.Some? ==> r.value in params && r.value.offset == offset
    ensures r.None? ==> forall p :: p in params ==> p.offset != offset
  {
    if params == [] then None
    else if params[0].offset == offset then Some(params[0])
    else FindOffset(params[1..], offset)
  }

  /** Names are unique and regions are non-empty, disjoint and listed in ascending order. */
  ghost predicate Ordered(params: seq<Parameter>) {
    params == [] || (
      && params[0].length > 0 && params[0].offset + params[0].length <= 0x1_0000
      && params[0].name != [] && !HasPrefix(params[0].name, Ascii("offset_"))
      && (forall q :: q in params[1..] ==>
            q.name != params[0].name && params[0].offset + params[0].length <= q.offset)
      && Ordered(params[1..]))
  }

  lemma {:induction false} OrderedAt(params: seq<Parameter>, i: nat)
    requires Ordered(params) && i < |params|
    ensures params[i].length > 0 && params[i].offset + params[i].length <= 0x1_0000
    ensures params[i].name != [] && !HasPrefix(params[i].name, Ascii("offset_"))
    decreases i
  {
    if i > 0 {
      OrderedAt(params[1..], i - 1);
    }
  }

  lemma {:induction false} OrderedPair(params: seq<Parameter>, i: nat, j: nat)
    requires Ordered(params) && i < j < |params|
    ensures params[i].length > 0 && params[i].offset + params[i].length <= params[j].offset
    ensures params[i].name != params[j].name
    decreases i
  {
    if i > 0 {
      OrderedPair(params[1..], i - 1, j - 1);
    } else {
      assert params[1..][j - 1] in params[1..];
    }
  }

  /** The canonical names of a table. */
  function NamesOf(params: seq<Parameter>): (names: set<text>)
    ensures forall n :: n in names <==> FindName(params, n).Some?
  {
    if params == [] then {} else {params[0].name} + NamesOf(params[1..])
  }

  datatype Schema = Schema(params: seq<Parameter>, aliases: map<text, text>) {

    /** What every claim about a table relies on. Aliases are extra names of listed parameters. */
    ghost predicate Valid() {
      && |params| + |aliases| < 0x1_0000  // the item counts on the wire are 16 bits wide
      && Ordered(params)
      && (forall a :: a in aliases ==>
            a !in Names() && aliases[a] in Names() && a != [] && !HasPrefix(a, Ascii("offset_")))
    }

    function Names(): set<text> {
      NamesOf(params)
    }

    /** ParameterByName: canonical names first, then aliases. */
    function ByName(name: text): (r: Option<Parameter>)
      ensures r.Some? ==> r.value in params
    {
      match FindName(params, name)
      case Some(p) => Some(p)
      case None => if name in aliases then FindName(params, aliases[name]) else None
    }

    /** configParamByOffset and mocksbr's parameterByOffset. */
    function ByOffset(offset: uint16): (r: Option<Parameter>)
      ensures r.Some? ==> r.value in params && r.value.offset == offset
      ensures r.None? ==> forall p :: p in params ==> p.offset != offset
    {
      FindOffset(params, offset)
    }

    /** The parameter of a canonical name. */
    function Get(name: text): (p: Parameter)
      requires name in Names()
      ensures p in params && p.name == name
    {
      FindName(params, name).value
    }

    /** The row of a name. */
    lemma RowOf(name: text) returns (i: nat)
      requires name in Names()
      ensures i < |params| && params[i] == Get(name)
    {
      i :| 0 <= i < |params| && params[i] == Get(name);
    }

    lemma SameName(p: Parameter, q: Parameter)
      requires Valid() && p in params && q in params && p.name == q.name
      ensures p == q
    {
      var i :| 0 <= i < |params| && params[i] == p;
      var j :| 0 <= j < |params| && params[j] == q;
      if i < j {
        OrderedPair(params, i, j);
      } else if j < i {
        OrderedPair(params, j, i);
      }
    }

    lemma SameOffset(p: Parameter, q: Parameter)
      requires Valid() && p in params && q in params && p.offset == q.offset
      ensures p == q
    {
      var i :| 0 <= i < |params| && params[i] == p;
      var j :| 0 <= j < |params| && params[j] == q;
      if i < j {
        OrderedPair(params, i, j);
      } else if j < i {
        OrderedPair(params, j, i);
      }
    }

    lemma Ascending(i: nat, j: nat)
      requires Valid() && i < j < |params|
      ensures params[i].offset < params[j].offset
      ensures params[i].name != params[j].name
    {
      OrderedPair(params, i, j);
    }

    /** The properties of one listed parameter. */
    lemma Listed(p: Parameter)
      requires Valid() && p in params
      ensures p.length > 0 && p.offset + p.length <= 0x1_0000
      ensures p.name != [] && !HasPrefix(p.name, Ascii("offset_"))
    {
      var i :| 0 <= i < |params| && params[i] == p;
      OrderedAt(params, i);
    }

    lemma LookupsAgree(p: Parameter)
      requires Valid() && p in params
      ensures p.name in Names() && Get(p.name) == p
      ensures ByName(p.name) == Some(p)
      ensures ByOffset(p.offset) == Some(p)
      ensures p.length > 0 && p.name != []
    {
      Listed(p);
      SameName(p, FindName(params, p.name).value);
      SameOffset(p, FindOffset(params, p.offset).value);
    }

    lemma ByNameExactly(name: text)
      requires Valid()
      ensures ByName(name).Some? <==> name in Names() || name in aliases
      ensures name in Names() ==> ByName(name) == Some(Get(name)) && Get(name).length > 0 && name != []
    {
      if name in Names() {
        LookupsAgree(Get(name));
      }
    }

    /** Keys the client makes up for unknown offsets name no parameter. */
    lemma SyntheticIsUnknown(k: text)
      requires Valid()
      ensures HasPrefix(k, Ascii("offset_")) ==> ByName(k).None?
    {
      ByNameExactly(k);
      if k in Names() {
        Listed(Get(k));
      }
    }
  }

  // ---- Value codec -------------------------------------------------------------------

  /** make([]byte, length) followed by copy: zero-padded if shorter, truncated if longer. */
  function Pad(value: text, length: uint16): (b: seq<byte>)
    ensures |b| == length
  {
    if |value| >= length then value[..length] else value + Zeros(length - |value|)
  }

  /** Parameter.Encode, which depends on the parameter's length only. */
  function Encode(length: uint16, value: text): (r: Option<seq<byte>>)
    ensures r.Some? ==> |r.value| == length
  {
    match length
    case 1 => (match ParseUint(value, 255) case None => None case Some(n) => Some([n]))
    case 2 => (match ParseUint(value, 0xFFFF) case None => None case Some(n) => Some(PutUint16(n)))
    case 4 => ParseQuad(value)
    case _ => Some(Pad(value, length))
  }

  /** The bytes before the first NUL. */
  function UpToNul(value: seq<byte>): (t: text)
    ensures Absent(t, NUL) && |t| <= |value|
  {
    value[..IndexOf(value, NUL)]
  }

  /** formatGetDataValue, which depends on the number of bytes only. */
  function Format(value: seq<byte>): text {
    match |value|
    case 1 => Dec(value[0])
    case 2 => Dec(Uint16At(value, 0))
    case 4 => OctetsText(value)
    case _ => UpToNul(value)
  }

  /** formatGetDataValue as written: a scan for the first NUL in the string case. */
  method FormatGetDataValue(value: seq<byte>) returns (r: text)
    ensures r == Format(value)
  {
    match |value| {
      case 1 => return Dec(value[0]);
      case 2 => return Dec(Uint16At(value, 0));
      case 4 =>
        r := Dec(value[0]) + [DOT] + Dec(value[1]) + [DOT] + Dec(value[2]) + [DOT] + Dec(value[3]);
        QuadText(value);
        return;
      case _ =>
        var end := |value|;
        for i := 0 to |value|
          invariant end == |value|
          invariant forall k :: 0 <= k < i ==> value[k] != NUL
        {
          if value[i] == NUL {
            end := i;
            break;
          }
        }
        if end < |value| {
          IndexOfUnique(value, NUL, end);
        } else {
          IndexOfAbsent(value, NUL);
        }
        r := value[..end];
    }
  }

  lemma QuadText(q: seq<byte>)
    requires |q| == 4
    ensures OctetsText(q) == Dec(q[0]) + [DOT] + Dec(q[1]) + [DOT] + Dec(q[2]) + [DOT] + Dec(q[3])
  {
    var a, b, c, d := Dec(q[0]), Dec(q[1]), Dec(q[2]), Dec(q[3]);
    assert OctetsText(q[3..]) == d;
    assert q[2..][1..] == q[3..];
    assert OctetsText(q[2..]) == c + [DOT] + d;
    assert q[1..][1..] == q[2..];
    assert OctetsText(q[1..]) == b + [DOT] + (c + [DOT] + d);
    assert a + [DOT] + (b + [DOT] + (c + [DOT] + d)) == a + [DOT] + b + [DOT] + c + [DOT] + d;
  }

  lemma UpToNulOfPadded(t: text, n: nat)
    requires Absent(t, NUL)
    ensures UpToNul(t + Zeros(n)) == t
  {
    var s := t + Zeros(n);
    if n > 0 {
      IndexOfUnique(s, NUL, |t|);
    } else {
      assert s == t;
      IndexOfAbsent(s, NUL);
    }
  }

  /** Reading a stored value and writing it back: the identity on numbers and addresses; for
      strings everything after the first NUL is zero-filled. */
  lemma EncodeAfterFormat(b: seq<byte>)
    requires 0 < |b| < 0x1_0000
    ensures |b| in {1, 2, 4} ==> Encode(|b|, Format(b)) == Some(b)
    ensures |b| !in {1, 2, 4} ==>
              Encode(|b|, Format(b)) == Some(UpToNul(b) + Zeros(|b| - |UpToNul(b)|))
  {
    match |b| {
      case 1 => ParseOfDec(b[0], 255); assert [b[0]] == b;
      case 2 => ParseOfDec(Uint16At(b, 0), 0xFFFF); Uint16RoundTrip(b, 0); assert b[0..2] == b;
      case 4 => QuadExactly(Format(b), b);
      case _ => assert UpToNul(b) + Zeros(0) == UpToNul(b);
    }
  }

  /** What a device reports after `value` has been written to a region of this length. */
  function Canon(length: uint16, value: text): text
    requires Encode(length, value).Some?
  {
    Format(Encode(length, value).value)
  }

  /** Writing back what was reported changes nothing: Canon is an idempotent canonicalisation. */
  lemma CanonIdempotent(length: uint16, value: text)
    requires length > 0 && Encode(length, value).Some?
    ensures Encode(length, Canon(length, value)).Some?
    ensures Canon(length, Canon(length, value)) == Canon(length, value)
  {
    var b := Encode(length, value).value;
    EncodeAfterFormat(b);
    if length !in {1, 2, 4} {
      UpToNulOfPadded(UpToNul(b), |b| - |UpToNul(b)|);
    }
  }

  /** Rendered bytes are canonical. */
  lemma FormatIsCanonical(b: seq<byte>)
    requires 0 < |b| < 0x1_0000
    ensures Encode(|b|, Format(b)).Some?
    ensures Canon(|b|, Format(b)) == Format(b)
  {
    EncodeAfterFormat(b);
    if |b| !in {1, 2, 4} {
      UpToNulOfPadded(UpToNul(b), |b| - |UpToNul(b)|);
    }
  }
}
