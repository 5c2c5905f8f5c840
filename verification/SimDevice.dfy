/** One simulated device (mocksbr/device.go, mocksbr/responses.go): what it stores, and the reply
    it builds for each request, as functions of its state. */
module SimDevice {
  import opened Bytes
  import opened Decimal
  import opened Parameters
  import opened Wire
  import opened Items
  import MacText

  datatype Op = OpDiscover | OpGet | OpSet | OpSave | OpReset | OpGetIP | OpGetUUID

  datatype MalformedMode = MalformedNone | OversizedCount | LengthExceedsPayload | UnknownMethod

  datatype Config = Config(
    mac: text, name: text, model: text, deviceId: text, firmware: text, hardware: text, uuid: text,
    ip: text, subnetMask: text, gateway: text,
    nvram: map<text, text>, failOn: set<Op>, slow: nat, unreachable: bool, rebootDelay: nat,
    dropGetData: bool, dropGetIP: bool, dropGetUUID: bool, suppressDiscoveryUUID: bool,
    unknownOffsets: map<uint16, chunk>, malformed: MalformedMode)

  /** The fields of `device`; a missing deadline means "not rebooting". */
  datatype DeviceState = DeviceState(
    cfg: Config,
    working: map<text, text>,
    nvram: map<text, text>,
    rebootDeadline: Option<nat>)

  const HOSTNAME: text := Ascii("hostname")
  const DEFAULT_REBOOT_DELAY := 100

  // ---- State -------------------------------------------------------------------------

  function FactoryDefaults(s: Schema): map<text, text> {
    map n | n in s.Names() :: s.Get(n).factoryDefault
  }

  function WithDefaults(cfg: Config): Config {
    cfg.(model := if cfg.model == [] then Ascii("squeezebox") else cfg.model,
         deviceId := if cfg.deviceId == [] then Ascii("07") else cfg.deviceId,
         firmware := if cfg.firmware == [] then Ascii("77") else cfg.firmware,
         hardware := if cfg.hardware == [] then Ascii("0005") else cfg.hardware,
         rebootDelay := if cfg.rebootDelay == 0 then DEFAULT_REBOOT_DELAY else cfg.rebootDelay)
  }

  /** newDevice */
  function NewDevice(s: Schema, cfg: Config): DeviceState {
    var memory := FactoryDefaults(s) + cfg.nvram;
    var named := if cfg.name == [] then memory else memory[HOSTNAME := cfg.name];
    DeviceState(WithDefaults(cfg), named, named, None)
  }

  predicate FailsOn(cfg: Config, op: Op) {
    || op in cfg.failOn
    || (op == OpSet && OpSave in cfg.failOn)
    || (op == OpSave && OpSet in cfg.failOn)
  }

  /** rebooting(): true inside the window; on its expiry working memory is reloaded. */
  predicate InRebootWindow(d: DeviceState, now: nat) {
    d.rebootDeadline.Some? && now < d.rebootDeadline.value
  }

  function AfterRebootCheck(d: DeviceState, now: nat): DeviceState {
    if d.rebootDeadline.None? || InRebootWindow(d, now) then d
    else d.(rebootDeadline := None, working := d.nvram)
  }

  // ---- Value codec of the simulator ------------------------------------------------------

  /** encodeParamValue: unparseable values read as zero bytes. */
  function EncodeParam(length: uint16, value: text): (b: seq<byte>)
    ensures |b| == length
  {
    match length
    case 1 => (match ParseUint(value, 255) case Some(n) => [n] case None => [0])
    case 2 => (match ParseUint(value, 0xFFFF) case Some(n) => PutUint16(n) case None => [0, 0])
    case 4 => (match ParseQuad(value) case Some(q) => q case None => Zeros(4))
    case _ => Pad(value, length)
  }

  /** decodeParamValue as written; it computes what the client's formatter computes. */
  method DecodeParam(value: seq<byte>) returns (r: text)
    ensures r == Format(value)
  {
    match |value| {
      case 1 => return Dec(value[0]);
      case 2 => return Dec(Uint16At(value, 0));
      case 4 => return OctetsText(value);
      case _ =>
        var end := |value|;
        var i := 0;
        while i < |value|
          invariant 0 <= i <= |value| && end == |value|
          invariant forall k :: 0 <= k < i ==> value[k] != NUL
        {
          if value[i] == 0 {
            end := i;
            break;
          }
          i := i + 1;
        }
        if end < |value| {
          IndexOfUnique(value, NUL, end);
        } else {
          IndexOfAbsent(value, NUL);
        }
        return value[..end];
    }
  }

  /** The simulator's encoder agrees with the client's wherever the client's succeeds, and is all
      zeros where it fails. */
  lemma EncodersAgree(length: uint16, value: text)
    ensures EncodeParam(length, value) ==
            match Encode(length, value) case Some(b) => b case None => Zeros(length)
  {
  }

  // ---- What a read of one parameter returns ------------------------------------------------

  /** The canonical form of the value a device reports for a parameter. */
  function Reading(p: Parameter, working: map<text, text>): text {
    Format(EncodeParam(p.length, Lookup(working, p.name)))
  }

  /** A full read. */
  function Readings(s: Schema, working: map<text, text>): map<text, text> {
    map n | n in s.Names() :: Reading(s.Get(n), working)
  }

  lemma ReadingIsCanonical(p: Parameter, working: map<text, text>)
    requires p.length > 0
    ensures Encode(p.length, Reading(p, working)).Some?
    ensures Canon(p.length, Reading(p, working)) == Reading(p, working)
  {
    FormatIsCanonical(EncodeParam(p.length, Lookup(working, p.name)));
  }

  // ---- Replies -----------------------------------------------------------------------

  /** parseMAC. The network only holds 17-character addresses; on a shorter text the source
      would panic. */
  function AddressOf(m: text): mac {
    if |m| >= 17 then MacText.MacOf(m[..17]) else ZERO_MAC
  }

  /** buildHeader */
  function ReplyHeader(req: Packet, deviceMac: text, ucpMethod: uint16): Packet {
    Packet(0, ADDR_TYPE_ETH, req.srcAddress, 0, ADDR_TYPE_ETH, AddressOf(deviceMac),
           req.sequence, TYPE_UCP, 0x00, UAP_CLASS_UCP, ucpMethod)
  }

  function Reply(d: DeviceState, req: Packet, ucpMethod: uint16, payload: seq<byte>): seq<byte> {
    EncodeHeader(ReplyHeader(req, d.cfg.mac, ucpMethod)) + payload
  }

  /** writeTLV */
  function TlvBytes(tag: byte, value: seq<byte>): seq<byte> {
    var v := if |value| > 255 then value[..255] else value;
    [tag, |v|] + v
  }

  /** writeIPTLV */
  function IpTlvBytes(tag: byte, ip: text): seq<byte> {
    [tag, 4] + (match ParseQuad(ip) case Some(q) => q case None => Zeros(4))
  }

  /** hex.DecodeString */
  function HexDecode(t: text): Option<seq<byte>> {
    if t == [] then Some([])
    else if |t| == 1 || !MacText.IsHex(t[0]) || !MacText.IsHex(t[1]) then None
    else
      match HexDecode(t[2..])
      case None => None
      case Some(rest) => Some([MacText.HexNibble(t[0]) * 16 + MacText.HexNibble(t[1])] + rest)
  }

  function UuidWireBytes(uuid: text): seq<byte> {
    match HexDecode(uuid) case Some(b) => b case None => uuid
  }

  /** state() */
  function Status(d: DeviceState): text {
    if Lookup(d.working, HOSTNAME) != [] then Ascii("wait_slimserver") else Ascii("init")
  }

  function DiscoveryReply(d: DeviceState, req: Packet): seq<byte> {
    Reply(d, req, req.ucpMethod,
          TlvBytes(0x0c, Status(d)) + TlvBytes(0x0b, d.cfg.deviceId) + TlvBytes(0x0a, d.cfg.hardware) +
          TlvBytes(0x09, d.cfg.firmware) + TlvBytes(0x03, d.cfg.model) +
          TlvBytes(0x02, Lookup(d.working, HOSTNAME)) +
          (if d.cfg.uuid != [] && !d.cfg.suppressDiscoveryUUID
           then TlvBytes(0x0d, UuidWireBytes(d.cfg.uuid)) else []))
  }

  /** parameterByOffset: "" if no parameter is registered at the offset. */
  function NameAt(s: Schema, offset: uint16): text {
    match s.ByOffset(offset) case Some(p) => p.name case None => []
  }

  /** One requested region as it is answered. */
  function Answer(s: Schema, working: map<text, text>, r: Region): Item {
    Item(r.offset, EncodeParam(r.length, Lookup(working, NameAt(s, r.offset))))
  }

  function Answers(s: Schema, working: map<text, text>, regions: seq<Region>): (items: seq<Item>)
    ensures |items| == |regions|
  {
    seq(|regions|, i requires 0 <= i < |regions| => Answer(s, working, regions[i]))
  }

  lemma {:induction false} Least(keys: set<uint16>) returns (k: uint16)
    requires keys != {}
    ensures k in keys && forall j :: j in keys ==> k <= j
    decreases keys
  {
    var a :| a in keys;
    var rest := keys - {a};
    k := a;
    if rest != {} {
      var l := Least(rest);
      k := if l < a then l else a;
    }
    forall j | j in keys ensures k <= j {
      if j != a {
        assert j in rest;
      }
    }
  }

  lemma HasLeast(keys: set<uint16>)
    requires keys != {}
    ensures exists k :: k in keys && forall j :: j in keys ==> k <= j
  {
    var k := Least(keys);
  }

  function LeastOffset(m: map<uint16, chunk>): (k: uint16)
    requires m != map[]
    ensures k in m && forall j :: j in m ==> k <= j
  {
    HasLeast(m.Keys);
    var k :| k in m.Keys && forall j :: j in m.Keys ==> k <= j;
    k
  }

  /** The extra entries, in ascending order of their offsets. */
  function UnknownItems(m: map<uint16, chunk>): (items: seq<Item>)
    ensures |items| == |m|
    decreases |m|
  {
    if m == map[] then []
    else
      var k := LeastOffset(m);
      EntryRemoved(m, k);
      [Item(k, m[k])] + UnknownItems(m - {k})
  }

  lemma EntryRemoved(m: map<uint16, chunk>, k: uint16)
    requires k in m
    ensures |m| == |m - {k}| + 1
  {
    assert m == (m - {k})[k := m[k]];
  }

  /** UnknownItems lists entries of m ... */
  lemma {:induction false} UnknownAt(m: map<uint16, chunk>, i: nat)
    requires i < |UnknownItems(m)|
    ensures var it := UnknownItems(m)[i]; it.offset in m && it.value == m[it.offset]
    decreases |m|
  {
    if i > 0 {
      var rest := m - {LeastOffset(m)};
      assert UnknownItems(m)[i] == UnknownItems(rest)[i - 1];
      UnknownAt(rest, i - 1);
    }
  }

  /** ... in ascending order ... */
  lemma {:induction false} UnknownAscend(m: map<uint16, chunk>, i: nat, j: nat)
    requires i < j < |UnknownItems(m)|
    ensures UnknownItems(m)[i].offset < UnknownItems(m)[j].offset
    decreases |m|
  {
    var rest := m - {LeastOffset(m)};
    assert UnknownItems(m)[j] == UnknownItems(rest)[j - 1];
    if i > 0 {
      assert UnknownItems(m)[i] == UnknownItems(rest)[i - 1];
      UnknownAscend(rest, i - 1, j - 1);
    } else {
      UnknownAt(rest, j - 1);
    }
  }

  /** ... and all of them. */
  lemma {:induction false} UnknownHas(m: map<uint16, chunk>, o: uint16)
    requires o in m
    ensures Item(o, m[o]) in UnknownItems(m)
    decreases |m|
  {
    var k := LeastOffset(m);
    assert UnknownItems(m) == [Item(k, m[k])] + UnknownItems(m - {k});
    if o != k {
      UnknownHas(m - {k}, o);
    } else {
      assert UnknownItems(m)[0] == Item(o, m[o]);
    }
  }

  /** The payload of buildGetDataResponse. */
  function GetDataReplyPayload(s: Schema, d: DeviceState, payload: seq<byte>): seq<byte> {
    match d.cfg.malformed
    case OversizedCount => PutUint16(0xFFFF)
    case LengthExceedsPayload => PutUint16(1) + PutUint16(0) + PutUint16(1000)
    case _ =>
      var items := Answers(s, d.working, GetDataRequest(payload)) + UnknownItems(d.cfg.unknownOffsets);
      PutUint16(Low16(|items|)) + EncodeItems(items)
  }

  function GetDataReplyMethod(d: DeviceState): uint16 {
    if d.cfg.malformed == UnknownMethod then 0x9999 else GET_DATA
  }

  /** The writes of handleSetData, in item order. */
  function Updates(s: Schema, m: map<text, text>, items: seq<Item>): map<text, text>
    decreases |items|
  {
    if items == [] then m
    else
      var name := NameAt(s, items[0].offset);
      Updates(s, if name == [] then m else m[name := Format(items[0].value)], items[1..])
  }

  /** applySet followed by applySave. */
  function AfterSet(s: Schema, d: DeviceState, items: seq<Item>): DeviceState {
    var working := d.working + Updates(s, map[], items);
    d.(working := working, nvram := working)
  }

  /** startReboot followed by applyReset. */
  function AfterReset(d: DeviceState, now: nat): DeviceState {
    d.(rebootDeadline := Some(now + d.cfg.rebootDelay), working := d.nvram)
  }

  function OpName(op: Op): text {
    match op
    case OpDiscover => Ascii("discover")
    case OpGet => Ascii("get")
    case OpSet => Ascii("set")
    case OpSave => Ascii("save")
    case OpReset => Ascii("reset")
    case OpGetIP => Ascii("getip")
    case OpGetUUID => Ascii("getuuid")
  }

  const ERROR_MESSAGE_TAG: byte := 0x03

  /** buildErrorResponse for a device configured to fail on op. */
  function ErrorReply(d: DeviceState, req: Packet, op: Op): seq<byte> {
    var message := Ascii("mocksbr: configured to fail ") + OpName(op);
    Reply(d, req, ERROR, TlvBytes(ERROR_MESSAGE_TAG, message))
  }

  /** The operation a unicast method stands for. */
  function OpOf(ucpMethod: uint16): Option<Op> {
    match ucpMethod
    case 0x0005 => Some(OpGet)
    case 0x0006 => Some(OpSet)
    case 0x0004 => Some(OpReset)
    case 0x0002 => Some(OpGetIP)
    case 0x000b => Some(OpGetUUID)
    case _ => None
  }

  /** The handler of one operation on a device that is up. */
  function Handle(s: Schema, d: DeviceState, now: nat, op: Op, req: Packet, payload: seq<byte>)
    : (DeviceState, Option<seq<byte>>)
  {
    match op
    case OpGet =>
      if d.cfg.dropGetData then (d, None)
      else (d, Some(Reply(d, req, GetDataReplyMethod(d), GetDataReplyPayload(s, d, payload))))
    case OpSet =>
      var items := SetDataRequest(payload);
      (AfterSet(s, d, items), Some(Reply(d, req, SET_DATA, PutUint16(|items|))))
    case OpReset => (AfterReset(d, now), Some(Reply(d, req, RESET, [])))
    case OpGetIP =>
      if d.cfg.dropGetIP then (d, None)
      else (d, Some(Reply(d, req, GET_IP,
                          IpTlvBytes(0x05, d.cfg.ip) + IpTlvBytes(0x06, d.cfg.subnetMask) +
                          IpTlvBytes(0x07, d.cfg.gateway))))
    case OpGetUUID =>
      if d.cfg.dropGetUUID then (d, None)
      else (d, Some(Reply(d, req, GET_UUID, TlvBytes(0x0d, UuidWireBytes(d.cfg.uuid)))))
    case _ => (d, None)
  }

  /** What dispatchUnicast does with the addressed device. */
  function Serve(s: Schema, d: DeviceState, now: nat, op: Op, req: Packet, payload: seq<byte>)
    : (DeviceState, Option<seq<byte>>)
  {
    if d.cfg.unreachable || InRebootWindow(d, now) then (d, None)
    else
      var up := AfterRebootCheck(d, now);
      if FailsOn(d.cfg, op) then (up, Some(ErrorReply(up, req, op)))
      else Handle(s, up, now, op, req, payload)
  }

  /** What handleDiscovery does with each device. */
  function ServeDiscovery(d: DeviceState, now: nat, req: Packet): (DeviceState, Option<seq<byte>>) {
    if d.cfg.unreachable || FailsOn(d.cfg, OpDiscover) || InRebootWindow(d, now) then (d, None)
    else
      var up := AfterRebootCheck(d, now);
      (up, Some(DiscoveryReply(up, req)))
  }
}
