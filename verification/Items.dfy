/** The offset/length/value item lists of GetData and SetData, with the client's response parser
    (udap/getdata_response.go) and the simulator's request parsers (mocksbr/responses.go). */
module Items {
  import opened Bytes
  import opened Decimal
  import opened Parameters
  import MacText

  const CRED_SIZE := 32  // 16-byte username and 16-byte password

  /** The bytes of one region; their number fits the 16-bit length field. */
  type chunk = v: seq<byte> | |v| < 0x1_0000

  /** One NVRAM region: the length field on the wire is |value|. */
  datatype Item = Item(offset: uint16, value: chunk)

  /** One region asked for. */
  datatype Region = Region(offset: uint16, length: uint16)

  function EncodeItem(it: Item): seq<byte> {
    PutUint16(it.offset) + PutUint16(|it.value|) + it.value
  }

  function EncodeItems(items: seq<Item>): seq<byte> {
    if items == [] then [] else EncodeItem(items[0]) + EncodeItems(items[1..])
  }

  function EncodeRegions(regions: seq<Region>): seq<byte> {
    if regions == [] then []
    else PutUint16(regions[0].offset) + PutUint16(regions[0].length) + EncodeRegions(regions[1..])
  }

  /** There is a complete item at position pos. */
  predicate HasItem(data: seq<byte>, pos: nat) {
    pos + 4 <= |data| && pos + 4 + Uint16At(data, pos + 2) <= |data|
  }

  function ItemAt(data: seq<byte>, pos: nat): (it: Item)
    requires HasItem(data, pos)
    ensures |it.value| == Uint16At(data, pos + 2)
  {
    Item(Uint16At(data, pos), data[pos + 4..pos + 4 + Uint16At(data, pos + 2)])
  }

  /** At most n complete items from position pos on. */
  function TakeItems(n: nat, data: seq<byte>, pos: nat): (items: seq<Item>)
    requires pos <= |data|
    ensures |items| <= n
    ensures 4 * |items| <= |data| - pos
  {
    if n == 0 || !HasItem(data, pos) then []
    else
      var it := ItemAt(data, pos);
      [it] + TakeItems(n - 1, data, pos + 4 + |it.value|)
  }

  /** At most n complete (offset, length) pairs from position pos on. */
  function TakeRegions(n: nat, data: seq<byte>, pos: nat): (regions: seq<Region>)
    requires pos <= |data|
    ensures |regions| <= n
  {
    if n == 0 || pos + 4 > |data| then []
    else [Region(Uint16At(data, pos), Uint16At(data, pos + 2))] + TakeRegions(n - 1, data, pos + 4)
  }

  lemma {:induction false} EncodeConcat(a: seq<Item>, b: seq<Item>)
    ensures EncodeItems(a + b) == EncodeItems(a) + EncodeItems(b)
    decreases |a|
  {
    if a == [] {
      assert a + b == b;
    } else {
      assert (a + b)[1..] == a[1..] + b;
      EncodeConcat(a[1..], b);
    }
  }

  lemma EncodeSnoc(items: seq<Item>, it: Item)
    ensures EncodeItems(items + [it]) == EncodeItems(items) + EncodeItem(it)
  {
    EncodeConcat(items, [it]);
    assert EncodeItems([it]) == EncodeItem(it) + [];
  }

  lemma ItemOfEncode(data: seq<byte>, pos: nat, it: Item)
    requires pos <= |data|
    requires EncodeItem(it) <= data[pos..]
    ensures HasItem(data, pos) && ItemAt(data, pos) == it
  {
    var e, n := EncodeItem(it), |it.value|;
    assert forall k :: 0 <= k < |e| ==> e[k] == data[pos..][k] == data[pos + k];
    assert e[4..] == it.value;
    assert data[pos + 4..pos + 4 + n] == data[pos..][..|e|][4..];
  }

  lemma PrefixSplit(data: seq<byte>, pos: nat, a: seq<byte>, b: seq<byte>)
    requires pos <= |data|
    ensures a + b <= data[pos..] <==> a <= data[pos..] && pos + |a| <= |data| && b <= data[pos + |a|..]
  {
    if a <= data[pos..] {
      assert data[pos..] == a + data[pos + |a|..];
    }
    if a + b <= data[pos..] {
      assert (a + b)[..|a|] == a;
    }
  }

  /** Reading a list of items back where it was written. */
  lemma {:induction false} TakeOfEncode(data: seq<byte>, pos: nat, items: seq<Item>)
    requires pos <= |data|
    requires EncodeItems(items) <= data[pos..]
    ensures TakeItems(|items|, data, pos) == items
    decreases |items|
  {
    if items != [] {
      FirstOfEncode(data, pos, items);
      TakeOfEncode(data, pos + 4 + |items[0].value|, items[1..]);
      TakeFirst(|items|, data, pos, items);
    }
  }

  lemma TakeFirst(n: nat, data: seq<byte>, pos: nat, items: seq<Item>)
    requires n > 0 && items != [] && HasItem(data, pos) && ItemAt(data, pos) == items[0]
    requires TakeItems(n - 1, data, pos + 4 + |items[0].value|) == items[1..]
    ensures TakeItems(n, data, pos) == items
  {
    TakeCons(n, data, pos);
    assert [items[0]] + items[1..] == items;
  }

  lemma FirstOfEncode(data: seq<byte>, pos: nat, items: seq<Item>)
    requires pos <= |data| && items != [] && EncodeItems(items) <= data[pos..]
    ensures HasItem(data, pos) && ItemAt(data, pos) == items[0]
    ensures var next := pos + 4 + |items[0].value|;
            next <= |data| && EncodeItems(items[1..]) <= data[next..]
  {
    var e, tail := EncodeItem(items[0]), EncodeItems(items[1..]);
    PrefixSplit(data, pos, e, tail);
    ItemOfEncode(data, pos, items[0]);
  }

  lemma TakeCons(n: nat, data: seq<byte>, pos: nat)
    requires n > 0 && HasItem(data, pos)
    ensures TakeItems(n, data, pos) ==
            [ItemAt(data, pos)] + TakeItems(n - 1, data, pos + 4 + |ItemAt(data, pos).value|)
  {
  }

  lemma EncodeOfItem(data: seq<byte>, pos: nat)
    requires HasItem(data, pos)
    ensures EncodeItem(ItemAt(data, pos)) == data[pos..pos + 4 + Uint16At(data, pos + 2)]
  {
    Uint16RoundTrip(data, pos);
    Uint16RoundTrip(data, pos + 2);
  }

  /** Whatever is taken was really there: its encoding is what the data holds from pos on. */
  lemma {:induction false} EncodeOfTake(n: nat, data: seq<byte>, pos: nat)
    requires pos <= |data|
    ensures EncodeItems(TakeItems(n, data, pos)) <= data[pos..]
    decreases n
  {
    if n > 0 && HasItem(data, pos) {
      var next := pos + 4 + Uint16At(data, pos + 2);
      EncodeOfTake(n - 1, data, next);
      EncodeOfItem(data, pos);
      var items, tail := TakeItems(n, data, pos), TakeItems(n - 1, data, next);
      assert items[1..] == tail;
      PrefixSplit(data, pos, data[pos..next], EncodeItems(tail));
    }
  }

  lemma {:induction false} TakeOfEncodeRegions(data: seq<byte>, pos: nat, regions: seq<Region>)
    requires pos <= |data| && EncodeRegions(regions) <= data[pos..]
    ensures TakeRegions(|regions|, data, pos) == regions
    decreases |regions|
  {
    if regions != [] {
      var e, tail := EncodeRegions(regions), EncodeRegions(regions[1..]);
      assert e == PutUint16(regions[0].offset) + PutUint16(regions[0].length) + tail;
      assert forall k :: 0 <= k < |e| ==> e[k] == data[pos..][k] == data[pos + k];
      assert data[pos + 4..] == data[pos..][4..];
      assert e[4..] == tail;
      TakeOfEncodeRegions(data, pos + 4, regions[1..]);
      assert [regions[0]] + regions[1..] == regions;
    }
  }

  /** One turn of a parsing loop that has taken `done` and whose cursor stands at pos. */
  lemma TakeNext(done: seq<Item>, n: nat, data: seq<byte>, pos: nat)
    requires n > 0 && HasItem(data, pos)
    ensures done + TakeItems(n, data, pos) ==
            (done + [ItemAt(data, pos)]) + TakeItems(n - 1, data, pos + 4 + |ItemAt(data, pos).value|)
  {
  }

  lemma TakeNextRegion(done: seq<Region>, n: nat, data: seq<byte>, pos: nat)
    requires n > 0 && pos + 4 <= |data|
    ensures done + TakeRegions(n, data, pos) ==
            (done + [Region(Uint16At(data, pos), Uint16At(data, pos + 2))]) + TakeRegions(n - 1, data, pos + 4)
  {
  }

  // ---- The client's view of a GetData reply --------------------------------------------

  /** fmt.Sprintf("%x", value) */
  function Hex(value: seq<byte>): (t: text)
    ensures |t| == 2 * |value|
  {
    if value == [] then []
    else [MacText.HexDigit(value[0] / 16), MacText.HexDigit(value[0] % 16)] + Hex(value[1..])
  }

  /** The map key an offset is reported under. */
  function KeyOf(s: Schema, offset: uint16): text {
    match s.ByOffset(offset)
    case Some(p) => p.name
    case None => Ascii("offset_") + Dec(offset)
  }

  function ValueOf(s: Schema, it: Item): text {
    if s.ByOffset(it.offset).Some? then Format(it.value) else Hex(it.value)
  }

  function PutItem(s: Schema, m: map<text, text>, it: Item): map<text, text> {
    m[KeyOf(s, it.offset) := ValueOf(s, it)]
  }

  /** The items in order, each overwriting an earlier one of the same key. */
  function FoldItems(s: Schema, m: map<text, text>, items: seq<Item>): map<text, text>
    decreases |items|
  {
    if items == [] then m else FoldItems(s, PutItem(s, m, items[0]), items[1..])
  }

  /** parseGetDataResponse */
  function GetDataResponse(s: Schema, data: seq<byte>): (r: Option<map<text, text>>) {
    if |data| < 2 then None
    else
      var count := Uint16At(data, 0);
      var items := TakeItems(count, data, 2);
      if |items| < count then None else Some(FoldItems(s, map[], items))
  }

  /** What the parsing loop makes of n more items from position pos on. */
  function Rest(s: Schema, data: seq<byte>, n: nat, pos: nat, out: map<text, text>): Option<map<text, text>>
    requires pos <= |data|
  {
    var items := TakeItems(n, data, pos);
    if |items| < n then None else Some(FoldItems(s, out, items))
  }

  /** parseGetDataResponse as written: a cursor over the payload. */
  method ParseGetDataResponse(s: Schema, data: seq<byte>) returns (r: Option<map<text, text>>)
    ensures r == GetDataResponse(s, data)
  {
    if |data| < 2 {
      return None;
    }
    var count := Uint16At(data, 0);
    r := ParseItems(s, data, count);
  }

  /** Its loop. */
  method ParseItems(s: Schema, data: seq<byte>, count: nat) returns (r: Option<map<text, text>>)
    requires 2 <= |data|
    ensures r == Rest(s, data, count, 2, map[])
  {
    var pos, ok := 2, true;
    var out: map<text, text> := map[];
    ghost var r' := Rest(s, data, count, pos, out);
    for i := 0 to count
      invariant 2 <= pos <= |data|
      invariant Rest(s, data, count - i, pos, out) == r'
    {
      ok, pos, out := ParseItem(s, data, pos, out, count - i, r');
      if !ok {
        return None;
      }
    }
    return Some(out);
  }

  /** One turn of the loop, with n items to go that make r. */
  method ParseItem(s: Schema, data: seq<byte>, pos: nat, out: map<text, text>, ghost n: nat, ghost r: Option<map<text, text>>)
    returns (ok: bool, next: nat, out': map<text, text>)
    requires pos <= |data| && n > 0 && Rest(s, data, n, pos, out) == r
    ensures pos <= next <= |data|
    ensures if ok then Rest(s, data, n - 1, next, out') == r else r == None
  {
    RestNext(s, data, n, pos, out);
    var it;
    ok, it, next := ReadItem(data, pos);
    if !ok {
      return false, pos, out;
    }
    out' := Record(s, out, it);
  }

  lemma RestNext(s: Schema, data: seq<byte>, n: nat, pos: nat, out: map<text, text>)
    requires pos <= |data| && n > 0
    ensures Rest(s, data, n, pos, out) ==
            if !HasItem(data, pos) then None
            else
              var it := ItemAt(data, pos);
              Rest(s, data, n - 1, pos + 4 + |it.value|, PutItem(s, out, it))
  {
    FoldNext(s, out, n, data, pos);
  }

  /** The end of the loop body: a known offset is formatted, an unknown one kept as hex. */
  method Record(s: Schema, out: map<text, text>, it: Item) returns (r: map<text, text>)
    ensures r == PutItem(s, out, it)
  {
    match s.ByOffset(it.offset) {
      case None =>
        r := out[Ascii("offset_") + Dec(it.offset) := Hex(it.value)];
      case Some(p) =>
        var formatted := FormatGetDataValue(it.value);
        r := out[p.name := formatted];
    }
  }

  /** One turn of the parsing loop, seen from what is still to be folded in. */
  lemma FoldNext(s: Schema, m: map<text, text>, n: nat, data: seq<byte>, pos: nat)
    requires pos <= |data| && n > 0
    ensures !HasItem(data, pos) ==> TakeItems(n, data, pos) == []
    ensures HasItem(data, pos) ==>
              var it := ItemAt(data, pos);
              var next := pos + 4 + |it.value|;
              |TakeItems(n, data, pos)| == 1 + |TakeItems(n - 1, data, next)| &&
              FoldItems(s, m, TakeItems(n, data, pos)) == FoldItems(s, PutItem(s, m, it), TakeItems(n - 1, data, next))
  {
    if HasItem(data, pos) {
      var it := ItemAt(data, pos);
      var items, rest := TakeItems(n, data, pos), TakeItems(n - 1, data, pos + 4 + |it.value|);
      assert items == [it] + rest;
      assert items[0] == it && items[1..] == rest;
    }
  }

  /** The two bounds checks and the slice at the head of both item-parsing loops. */
  method ReadItem(data: seq<byte>, pos: nat) returns (ok: bool, it: Item, next: nat)
    requires pos <= |data|
    ensures ok <==> HasItem(data, pos)
    ensures ok ==> it == ItemAt(data, pos) && next == pos + 4 + |it.value| <= |data|
  {
    ok, it, next := false, Item(0, []), pos;
    if pos + 4 > |data| {
      return;
    }
    var ofs := Uint16At(data, pos);
    var ln := Uint16At(data, pos + 2);
    next := pos + 4;
    if next + ln > |data| {
      return;
    }
    ok, it, next := true, Item(ofs, data[next..next + ln]), next + ln;
  }

  /** data is a count, that many complete items, and possibly more bytes. */
  ghost predicate IsResponse(data: seq<byte>, items: seq<Item>, rest: seq<byte>) {
    |items| < 0x1_0000 && data == PutUint16(|items|) + EncodeItems(items) + rest
  }

  /** The parser succeeds on exactly the payloads that begin with a count and that many complete
      items; what it returns is the last-wins reading of those items, and it can hold no more
      entries than four-byte item headers fit in the payload. */
  lemma GetDataResponseExactly(s: Schema, data: seq<byte>)
    ensures GetDataResponse(s, data).Some? <==> exists items, rest :: IsResponse(data, items, rest)
    ensures GetDataResponse(s, data).Some? ==> 2 + 4 * |GetDataResponse(s, data).value| <= |data|
  {
    if GetDataResponse(s, data).Some? {
      var items := TakeItems(Uint16At(data, 0), data, 2);
      ResponseSplit(data);
      assert IsResponse(data, items, data[2 + |EncodeItems(items)|..]);
      FoldSize(s, map[], items);
    }
    forall items, rest | IsResponse(data, items, rest)
      ensures GetDataResponse(s, data).Some?
    {
      ResponseOf(s, data, items, rest);
    }
  }

  lemma ResponseSplit(data: seq<byte>)
    requires |data| >= 2 && |TakeItems(Uint16At(data, 0), data, 2)| == Uint16At(data, 0)
    ensures var items := TakeItems(Uint16At(data, 0), data, 2);
            2 + |EncodeItems(items)| <= |data| && IsResponse(data, items, data[2 + |EncodeItems(items)|..])
  {
    var e := EncodeItems(TakeItems(Uint16At(data, 0), data, 2));
    EncodeOfTake(Uint16At(data, 0), data, 2);
    Uint16RoundTrip(data, 0);
    assert data[2..] == e + data[2 + |e|..];
    assert data == data[0..2] + data[2..];
  }

  lemma ResponseOf(s: Schema, data: seq<byte>, items: seq<Item>, rest: seq<byte>)
    requires IsResponse(data, items, rest)
    ensures GetDataResponse(s, data) == Some(FoldItems(s, map[], items))
  {
    assert data == PutUint16(|items|) + (EncodeItems(items) + rest);
    PutUint16RoundTrip(|items|, EncodeItems(items) + rest);
    TakeOfEncode(data, 2, items);
  }

  lemma {:induction false} FoldSize(s: Schema, m: map<text, text>, items: seq<Item>)
    ensures |FoldItems(s, m, items)| <= |m| + |items|
    decreases |items|
  {
    if items != [] {
      var m' := PutItem(s, m, items[0]);
      assert m'.Keys == m.Keys + {KeyOf(s, items[0].offset)};
      FoldSize(s, m', items[1..]);
    }
  }

  lemma NotSynthetic(s: Schema, p: Parameter, ofs: uint16)
    requires s.Valid() && p in s.params
    ensures p.name != Ascii("offset_") + Dec(ofs)
  {
    s.Listed(p);
    assert HasPrefix(Ascii("offset_") + Dec(ofs), Ascii("offset_"));
  }

  /** Different offsets are reported under different keys. */
  lemma KeysDiffer(s: Schema, a: uint16, b: uint16)
    requires s.Valid() && KeyOf(s, a) == KeyOf(s, b)
    ensures a == b
  {
    var prefix := Ascii("offset_");
    match (s.ByOffset(a), s.ByOffset(b)) {
      case (Some(p), Some(q)) => s.SameName(p, q);
      case (None, None) =>
        assert (prefix + Dec(a))[|prefix|..] == Dec(a);
        assert (prefix + Dec(b))[|prefix|..] == Dec(b);
        DecInjective(a, b);
      case (Some(p), None) => NotSynthetic(s, p, b);
      case (None, Some(q)) => NotSynthetic(s, q, a);
    }
  }

  lemma {:induction false} FoldUntouched(s: Schema, m: map<text, text>, items: seq<Item>, k: text)
    requires forall i :: 0 <= i < |items| ==> KeyOf(s, items[i].offset) != k
    ensures k in FoldItems(s, m, items) <==> k in m
    ensures k in m ==> FoldItems(s, m, items)[k] == m[k]
    decreases |items|
  {
    if items != [] {
      FoldUntouched(s, PutItem(s, m, items[0]), items[1..], k);
    }
  }

  /** A key holds the value of its last item. */
  lemma {:induction false} FoldLastWins(s: Schema, m: map<text, text>, items: seq<Item>, i: nat)
    requires i < |items|
    requires forall j :: i < j < |items| ==> KeyOf(s, items[j].offset) != KeyOf(s, items[i].offset)
    ensures KeyOf(s, items[i].offset) in FoldItems(s, m, items)
    ensures FoldItems(s, m, items)[KeyOf(s, items[i].offset)] == ValueOf(s, items[i])
    decreases |items|
  {
    var m' := PutItem(s, m, items[0]);
    if i == 0 {
      FoldUntouched(s, m', items[1..], KeyOf(s, items[0].offset));
    } else {
      assert items[1..][i - 1] == items[i];
      FoldLastWins(s, m', items[1..], i - 1);
    }
  }

  // ---- The simulator's view of requests -------------------------------------------------

  /** parseGetDataRequest: what could be read of the announced regions. */
  function GetDataRequest(payload: seq<byte>): seq<Region> {
    if |payload| < CRED_SIZE + 2 then []
    else TakeRegions(Uint16At(payload, CRED_SIZE), payload, CRED_SIZE + 2)
  }

  method ParseGetDataRequest(payload: seq<byte>) returns (out: seq<Region>)
    ensures out == GetDataRequest(payload)
  {
    if |payload| < CRED_SIZE + 2 {
      return [];
    }
    var pos := CRED_SIZE;
    var count := Uint16At(payload, pos);
    pos := pos + 2;
    out := [];
    ghost var all := TakeRegions(count, payload, pos);
    var i := 0;
    while i < count
      invariant 0 <= i <= count && CRED_SIZE + 2 <= pos <= |payload|
      invariant all == out + TakeRegions(count - i, payload, pos)
    {
      if pos + 4 > |payload| {
        break;
      }
      TakeNextRegion(out, count - i, payload, pos);
      out := out + [Region(Uint16At(payload, pos), Uint16At(payload, pos + 2))];
      pos := pos + 4;
      i := i + 1;
    }
  }

  /** parseSetDataRequest: what could be read of the announced items. */
  function SetDataRequest(payload: seq<byte>): (items: seq<Item>)
    ensures |items| < 0x1_0000
  {
    if |payload| < CRED_SIZE + 2 then []
    else TakeItems(Uint16At(payload, CRED_SIZE), payload, CRED_SIZE + 2)
  }

  method ParseSetDataRequest(payload: seq<byte>) returns (out: seq<Item>)
    ensures out == SetDataRequest(payload)
  {
    if |payload| < CRED_SIZE + 2 {
      return [];
    }
    var pos := CRED_SIZE;
    var count := Uint16At(payload, pos);
    pos := pos + 2;
    out := [];
    ghost var all := TakeItems(count, payload, pos);
    var i := 0;
    while i < count
      invariant 0 <= i <= count && CRED_SIZE + 2 <= pos <= |payload|
      invariant all == out + TakeItems(count - i, payload, pos)
    {
      var ok, it, next := ReadItem(payload, pos);
      if !ok {
        break;
      }
      TakeNext(out, count - i, payload, pos);
      pos := next;
      out := out + [it];
      i := i + 1;
    }
  }

  /** The credentials, count and items of a request, as the client lays them out. */
  function SetDataPayload(items: seq<Item>): seq<byte>
    requires |items| < 0x1_0000
  {
    Zeros(CRED_SIZE) + PutUint16(|items|) + EncodeItems(items)
  }

  function GetDataPayload(regions: seq<Region>): seq<byte>
    requires |regions| < 0x1_0000
  {
    Zeros(CRED_SIZE) + PutUint16(|regions|) + EncodeRegions(regions)
  }

  /** The simulator reads back exactly the items the client wrote. */
  lemma SetDataRequestOfPayload(items: seq<Item>)
    requires |items| < 0x1_0000
    ensures SetDataRequest(SetDataPayload(items)) == items
  {
    var p := SetDataPayload(items);
    assert p[CRED_SIZE + 2..] == EncodeItems(items);
    assert Uint16At(p, CRED_SIZE) == |items|;
    TakeOfEncode(p, CRED_SIZE + 2, items);
  }

  lemma GetDataRequestOfPayload(regions: seq<Region>)
    requires |regions| < 0x1_0000
    ensures GetDataRequest(GetDataPayload(regions)) == regions
  {
    var p := GetDataPayload(regions);
    assert p[CRED_SIZE + 2..] == EncodeRegions(regions);
    assert Uint16At(p, CRED_SIZE) == |regions|;
    TakeOfEncodeRegions(p, CRED_SIZE + 2, regions);
  }
}
