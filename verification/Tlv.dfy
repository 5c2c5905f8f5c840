/** Type-length-value streams: EncodeTLV and DecodeTLV (udap/protocol.go) and the three
    hand-written scanners of discovery, get_ip and get_uuid replies. */
module Tlv {
  import opened Bytes
  import Items

  /** TLVData: the declared length need not be the value's. */
  datatype TlvData = TlvData(tag: byte, length: byte, value: seq<byte>)

  predicate Matched(t: TlvData) {
    t.length == |t.value|
  }

  function EncodeOne(t: TlvData): seq<byte> {
    [t.tag, t.length] + t.value
  }

  /** EncodeTLV */
  function Encode(ts: seq<TlvData>): seq<byte> {
    if ts == [] then [] else EncodeOne(ts[0]) + Encode(ts[1..])
  }

  /** EncodeTLV as written. */
  method EncodeTlv(ts: seq<TlvData>) returns (buf: seq<byte>)
    ensures buf == Encode(ts)
  {
    buf := [];
    for i := 0 to |ts|
      invariant buf == Encode(ts[..i])
    {
      EncodeSnoc(ts[..i], ts[i]);
      assert ts[..i + 1] == ts[..i] + [ts[i]];
      buf := buf + ([ts[i].tag, ts[i].length] + ts[i].value);
    }
    assert ts[..|ts|] == ts;
  }

  predicate HasTlv(data: seq<byte>, pos: nat) {
    pos + 2 <= |data| && pos + 2 + data[pos + 1] <= |data|
  }

  function TlvAt(data: seq<byte>, pos: nat): (t: TlvData)
    requires HasTlv(data, pos)
    ensures Matched(t)
  {
    TlvData(data[pos], data[pos + 1], data[pos + 2..pos + 2 + data[pos + 1]])
  }

  /** The complete entries from position pos on. */
  function Decode(data: seq<byte>, pos: nat): (ts: seq<TlvData>)
    requires pos <= |data|
    decreases |data| - pos
  {
    if !HasTlv(data, pos) then []
    else [TlvAt(data, pos)] + Decode(data, pos + 2 + data[pos + 1])
  }

  /** DecodeTLV as written. */
  method DecodeTlv(data: seq<byte>) returns (tlvs: seq<TlvData>)
    ensures tlvs == Decode(data, 0)
  {
    tlvs := [];
    var offset := 0;
    while offset < |data|
      invariant 0 <= offset <= |data|
      invariant tlvs + Decode(data, offset) == Decode(data, 0)
    {
      if offset + 2 > |data| {
        break;
      }
      var tag, length := data[offset], data[offset + 1];
      offset := offset + 2;
      if offset + length > |data| {
        offset := offset - 2;
        break;
      }
      DecodeNext(tlvs, data, offset - 2);
      tlvs := tlvs + [TlvData(tag, length, data[offset..offset + length])];
      offset := offset + length;
    }
  }

  lemma DecodeNext(done: seq<TlvData>, data: seq<byte>, pos: nat)
    requires HasTlv(data, pos)
    ensures done + Decode(data, pos) == (done + [TlvAt(data, pos)]) + Decode(data, pos + 2 + data[pos + 1])
  {
  }

  /** What is left where decoding stops: too short for an entry. */
  predicate Truncated(rest: seq<byte>) {
    !HasTlv(rest, 0)
  }

  lemma TruncatedAt(data: seq<byte>, pos: nat)
    requires pos <= |data|
    ensures Truncated(data[pos..]) <==> !HasTlv(data, pos)
  {
    if pos + 2 <= |data| {
      assert data[pos..][1] == data[pos + 1];
    }
  }

  lemma {:induction false} DecodeOfEncode(data: seq<byte>, pos: nat, ts: seq<TlvData>, rest: seq<byte>)
    requires pos <= |data| && data[pos..] == Encode(ts) + rest
    requires Truncated(rest) && forall t :: t in ts ==> Matched(t)
    ensures Decode(data, pos) == ts
    decreases |ts|
  {
    if ts == [] {
      assert rest == data[pos..];
      TruncatedAt(data, pos);
    } else {
      FirstOfEncode(data, pos, ts, rest);
      DecodeOfEncode(data, pos + 2 + |ts[0].value|, ts[1..], rest);
      DecodeFirst(data, pos, ts);
    }
  }

  lemma FirstOfEncode(data: seq<byte>, pos: nat, ts: seq<TlvData>, rest: seq<byte>)
    requires pos <= |data| && ts != [] && data[pos..] == Encode(ts) + rest && Matched(ts[0])
    ensures HasTlv(data, pos) && TlvAt(data, pos) == ts[0]
    ensures var next := pos + 2 + |ts[0].value|; next <= |data| && data[next..] == Encode(ts[1..]) + rest
  {
    var t, tail := ts[0], Encode(ts[1..]) + rest;
    assert data[pos..] == EncodeOne(t) + tail;
    TlvOfEncode(data, pos, t, tail);
  }

  lemma DecodeFirst(data: seq<byte>, pos: nat, ts: seq<TlvData>)
    requires ts != [] && HasTlv(data, pos) && TlvAt(data, pos) == ts[0]
    requires Decode(data, pos + 2 + |ts[0].value|) == ts[1..]
    ensures Decode(data, pos) == ts
  {
    assert [ts[0]] + ts[1..] == ts;
  }

  lemma TlvOfEncode(data: seq<byte>, pos: nat, t: TlvData, tail: seq<byte>)
    requires pos <= |data| && data[pos..] == EncodeOne(t) + tail && Matched(t)
    ensures HasTlv(data, pos) && TlvAt(data, pos) == t
    ensures data[pos + 2 + |t.value|..] == tail
  {
    var d := data[pos..];
    assert d[0] == data[pos] && d[1] == data[pos + 1];
    assert d[2..2 + |t.value|] == t.value == data[pos + 2..pos + 2 + |t.value|];
    assert d[2 + |t.value|..] == data[pos + 2 + |t.value|..];
  }

  /** Decoding consumes a prefix that re-encodes to itself and leaves one truncated entry. */
  lemma {:induction false} EncodeOfDecode(data: seq<byte>, pos: nat)
    requires pos <= |data|
    ensures forall t :: t in Decode(data, pos) ==> Matched(t)
    ensures Encode(Decode(data, pos)) <= data[pos..]
    ensures Truncated(data[pos..][|Encode(Decode(data, pos))|..])
    decreases |data| - pos
  {
    if HasTlv(data, pos) {
      var next := pos + 2 + data[pos + 1];
      EncodeOfDecode(data, next);
      var t, ts := TlvAt(data, pos), Decode(data, next);
      assert Decode(data, pos)[1..] == ts;
      assert EncodeOne(t) == data[pos..next];
      assert data[pos..] == data[pos..next] + data[next..];
      assert data[pos..][|EncodeOne(t) + Encode(ts)|..] == data[next..][|Encode(ts)|..];
    } else {
      TruncatedAt(data, pos);
      assert data[pos..][0..] == data[pos..];
    }
  }

  /** A byte string decodes to a list exactly when it is the list's encoding, with matching
      declared lengths, followed by at most one truncated entry. */
  lemma DecodeExactly(data: seq<byte>, ts: seq<TlvData>)
    ensures Decode(data, 0) == ts <==>
            (forall t :: t in ts ==> Matched(t)) && Encode(ts) <= data && Truncated(data[|Encode(ts)|..])
  {
    assert data[0..] == data;
    if Decode(data, 0) == ts {
      EncodeOfDecode(data, 0);
    }
    if (forall t :: t in ts ==> Matched(t)) && Encode(ts) <= data && Truncated(data[|Encode(ts)|..]) {
      assert data == Encode(ts) + data[|Encode(ts)|..];
      DecodeOfEncode(data, 0, ts, data[|Encode(ts)|..]);
    }
  }

  lemma {:induction false} EncodeSnoc(ts: seq<TlvData>, t: TlvData)
    ensures Encode(ts + [t]) == Encode(ts) + EncodeOne(t)
    decreases |ts|
  {
    if ts == [] {
      assert [t][1..] == [];
      assert [] + [t] == [t];
    } else {
      assert (ts + [t])[1..] == ts[1..] + [t];
      EncodeSnoc(ts[1..], t);
    }
  }

  // ---- Scanners ----------------------------------------------------------------------

  /** The value of the last entry of a tag, or cur if there is none. */
  function Latest(cur: text, ts: seq<TlvData>, tag: byte): text
    decreases |ts|
  {
    if ts == [] then cur
    else Latest(if ts[0].tag == tag then ts[0].value else cur, ts[1..], tag)
  }

  /** The value of the last four-byte entry of a tag, or cur if there is none. */
  function LatestQuad(cur: Option<text>, ts: seq<TlvData>, tag: byte): Option<text>
    decreases |ts|
  {
    if ts == [] then cur
    else LatestQuad(if ts[0].tag == tag && ts[0].length == 4 then Some(ts[0].value) else cur, ts[1..], tag)
  }

  const UUID_TAG: byte := 0x0d

  /** The hex form of the first sixteen-byte UUID entry. */
  function FirstUuid(ts: seq<TlvData>): Option<text> {
    if ts == [] then None
    else if ts[0].tag == UUID_TAG && ts[0].length == 16 then Some(Items.Hex(ts[0].value))
    else FirstUuid(ts[1..])
  }

  lemma {:induction false} LatestIsLast(cur: text, ts: seq<TlvData>, tag: byte, i: nat)
    requires i < |ts| && ts[i].tag == tag
    requires forall j :: i < j < |ts| ==> ts[j].tag != tag
    ensures Latest(cur, ts, tag) == ts[i].value
    decreases |ts|
  {
    var cur' := if ts[0].tag == tag then ts[0].value else cur;
    if i == 0 {
      LatestAbsent(cur', ts[1..], tag);
    } else {
      assert ts[1..][i - 1] == ts[i];
      LatestIsLast(cur', ts[1..], tag, i - 1);
    }
  }

  lemma {:induction false} LatestAbsent(cur: text, ts: seq<TlvData>, tag: byte)
    requires forall j :: 0 <= j < |ts| ==> ts[j].tag != tag
    ensures Latest(cur, ts, tag) == cur
    decreases |ts|
  {
    if ts != [] {
      LatestAbsent(cur, ts[1..], tag);
    }
  }

  /** The last four-byte entry of a tag counts; entries of another length do not. */
  lemma {:induction false} LatestQuadIsLast(cur: Option<text>, ts: seq<TlvData>, tag: byte, i: nat)
    requires i < |ts| && ts[i].tag == tag && ts[i].length == 4
    requires forall j :: i < j < |ts| && ts[j].tag == tag ==> ts[j].length != 4
    ensures LatestQuad(cur, ts, tag) == Some(ts[i].value)
    decreases |ts|
  {
    var cur' := if ts[0].tag == tag && ts[0].length == 4 then Some(ts[0].value) else cur;
    if i == 0 {
      LatestQuadAbsent(cur', ts[1..], tag);
    } else {
      assert ts[1..][i - 1] == ts[i];
      LatestQuadIsLast(cur', ts[1..], tag, i - 1);
    }
  }

  lemma {:induction false} LatestQuadAbsent(cur: Option<text>, ts: seq<TlvData>, tag: byte)
    requires forall j :: 0 <= j < |ts| && ts[j].tag == tag ==> ts[j].length != 4
    ensures LatestQuad(cur, ts, tag) == cur
    decreases |ts|
  {
    if ts != [] {
      LatestQuadAbsent(cur, ts[1..], tag);
    }
  }

  predicate IsUuidEntry(t: TlvData) {
    t.tag == 0x0d && t.length == 16
  }

  /** The first identifier of sixteen bytes counts; without one there is none. */
  lemma {:induction false} FirstUuidIsFirst(ts: seq<TlvData>)
    ensures FirstUuid(ts) == None <==> forall j :: 0 <= j < |ts| ==> !IsUuidEntry(ts[j])
    ensures forall i :: 0 <= i < |ts| && IsUuidEntry(ts[i]) && (forall j :: 0 <= j < i ==> !IsUuidEntry(ts[j])) ==>
              FirstUuid(ts) == Some(Items.Hex(ts[i].value))
    decreases |ts|
  {
    if ts != [] {
      var rest := ts[1..];
      FirstUuidIsFirst(rest);
      assert forall j :: 0 < j < |ts| ==> ts[j] == rest[j - 1];
      forall i | 0 <= i < |ts| && IsUuidEntry(ts[i]) && (forall j :: 0 <= j < i ==> !IsUuidEntry(ts[j]))
        ensures FirstUuid(ts) == Some(Items.Hex(ts[i].value))
      {
        if i > 0 {
          assert IsUuidEntry(rest[i - 1]) && !IsUuidEntry(ts[0]);
          assert forall j :: 0 <= j < i - 1 ==> rest[j] == ts[j + 1];
        }
      }
    }
  }

  /** The fields a discovery reply can set. */
  datatype DiscoveryFields = DiscoveryFields(
    name: text, deviceType: text, firmware: text, hardwareRev: text,
    deviceId: text, status: text, uuid: text)

  /** Each field is the last value sent for its tag. */
  function Discovered(ts: seq<TlvData>): DiscoveryFields {
    DiscoveryFields(
      Latest([], ts, 0x02), Latest([], ts, 0x03), Latest([], ts, 0x09), Latest([], ts, 0x0a),
      Latest([], ts, 0x0b), Latest([], ts, 0x0c), Items.Hex(Latest([], ts, UUID_TAG)))
  }

  /** The entry under the cursor of a scanning loop and the position after it. */
  method ReadTlv(data: seq<byte>, offset: nat) returns (ok: bool, t: TlvData, next: nat)
    requires offset + 2 <= |data|
    ensures ok <==> HasTlv(data, offset)
    ensures ok ==> t == TlvAt(data, offset) && next == offset + 2 + data[offset + 1]
    ensures Decode(data, offset) == if ok then [t] + Decode(data, next) else []
  {
    var tag, length := data[offset], data[offset + 1];
    next := offset + 2;
    ok, t := false, TlvData(tag, 0, []);
    if next + length > |data| {
      return;
    }
    ok, t, next := true, TlvData(tag, length, data[next..next + length]), next + length;
  }

  /** The loop of parseDiscoveryResponse. */
  method ScanDiscovery(data: seq<byte>) returns (d: DiscoveryFields)
    ensures d == Discovered(Decode(data, 0))
  {
    d := DiscoveryFields([], [], [], [], [], [], []);
    var offset := 0;
    ghost var all := Decode(data, 0);
    ghost var uuid: text := [];
    while offset + 2 <= |data|
      invariant 0 <= offset <= |data|
      invariant Latest(d.name, Decode(data, offset), 0x02) == Latest([], all, 0x02)
      invariant Latest(d.deviceType, Decode(data, offset), 0x03) == Latest([], all, 0x03)
      invariant Latest(d.firmware, Decode(data, offset), 0x09) == Latest([], all, 0x09)
      invariant Latest(d.hardwareRev, Decode(data, offset), 0x0a) == Latest([], all, 0x0a)
      invariant Latest(d.deviceId, Decode(data, offset), 0x0b) == Latest([], all, 0x0b)
      invariant Latest(d.status, Decode(data, offset), 0x0c) == Latest([], all, 0x0c)
      invariant d.uuid == Items.Hex(uuid) && Latest(uuid, Decode(data, offset), UUID_TAG) == Latest([], all, UUID_TAG)
      decreases |data| - offset
    {
      ghost var rest := Decode(data, offset);
      var ok, t, next := ReadTlv(data, offset);
      if !ok {
        break;
      }
      assert rest[0] == t && rest[1..] == Decode(data, next);
      offset := next;
      match t.tag {
        case 0x02 => d := d.(name := t.value);
        case 0x03 => d := d.(deviceType := t.value);
        case 0x09 => d := d.(firmware := t.value);
        case 0x0b => d := d.(deviceId := t.value);
        case 0x0c => d := d.(status := t.value);
        case 0x0a => d := d.(hardwareRev := t.value);
        case 0x0d =>
          d := d.(uuid := Items.Hex(t.value));
          uuid := t.value;
        case _ =>
      }
    }
  }

  datatype NetworkConfig = NetworkConfig(ip: Option<text>, subnetMask: Option<text>, gateway: Option<text>)

  /** parseGetIPResponse */
  method ScanGetIP(data: seq<byte>) returns (nc: NetworkConfig)
    ensures nc == NetworkConfig(
                    LatestQuad(None, Decode(data, 0), 0x05),
                    LatestQuad(None, Decode(data, 0), 0x06),
                    LatestQuad(None, Decode(data, 0), 0x07))
  {
    nc := NetworkConfig(None, None, None);
    var offset := 0;
    ghost var all := Decode(data, 0);
    while offset + 2 <= |data|
      invariant 0 <= offset <= |data|
      invariant LatestQuad(nc.ip, Decode(data, offset), 0x05) == LatestQuad(None, all, 0x05)
      invariant LatestQuad(nc.subnetMask, Decode(data, offset), 0x06) == LatestQuad(None, all, 0x06)
      invariant LatestQuad(nc.gateway, Decode(data, offset), 0x07) == LatestQuad(None, all, 0x07)
      decreases |data| - offset
    {
      ghost var rest := Decode(data, offset);
      var ok, t, next := ReadTlv(data, offset);
      if !ok {
        break;
      }
      assert rest[0] == t && rest[1..] == Decode(data, next);
      offset := next;
      match t.tag {
        case 0x05 =>
          if t.length == 4 {
            nc := nc.(ip := Some(t.value));
          }
        case 0x06 =>
          if t.length == 4 {
            nc := nc.(subnetMask := Some(t.value));
          }
        case 0x07 =>
          if t.length == 4 {
            nc := nc.(gateway := Some(t.value));
          }
        case _ =>
      }
    }
  }

  /** parseGetUUIDResponse */
  method ScanGetUUID(data: seq<byte>) returns (r: Option<text>)
    ensures r == FirstUuid(Decode(data, 0))
  {
    var offset := 0;
    while offset + 2 <= |data|
      invariant 0 <= offset <= |data|
      invariant FirstUuid(Decode(data, offset)) == FirstUuid(Decode(data, 0))
      decreases |data| - offset
    {
      ghost var rest := Decode(data, offset);
      var ok, t, next := ReadTlv(data, offset);
      if !ok {
        break;
      }
      assert rest[0] == t && rest[1..] == Decode(data, next);
      offset := next;
      if t.tag == UUID_TAG && t.length == 16 {
        return Some(Items.Hex(t.value));
      }
    }
    return None;
  }
}
