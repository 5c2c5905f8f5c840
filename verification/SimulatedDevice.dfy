/** The simulator's `device` object (mocksbr/device.go and the device methods of
    mocksbr/handlers.go and mocksbr/responses.go), proved to follow the state functions of
    SimDevice. */
module SimulatedDevice {
  import opened Bytes
  import opened Parameters
  import opened Wire
  import opened Items
  import opened SimDevice
  import Collections

  class Device {
    const cfg: Config
    var workingMemory: map<text, text>
    var nvram: map<text, text>
    var rebootDeadline: Option<nat>

    function View(): DeviceState
      reads this
    {
      DeviceState(cfg, workingMemory, nvram, rebootDeadline)
    }

    /** newDevice */
    constructor (s: Schema, config: Config)
      requires s.Valid()
      ensures View() == NewDevice(s, config)
    {
      var c := FillDefaults(config);
      cfg := c;
      rebootDeadline := None;
      var defaults := FactoryDefaultMap(s);
      var memory := Collections.Overlay(defaults, config.nvram);
      if config.name != [] {
        memory := memory[HOSTNAME := config.name];
      }
      workingMemory, nvram := memory, memory;
    }

    /** applySet */
    method ApplySet(params: map<text, text>)
      modifies this
      ensures View() == old(View()).(working := old(workingMemory) + params)
    {
      workingMemory := Collections.Overlay(workingMemory, params);
    }

    /** applySave */
    method ApplySave()
      modifies this
      ensures View() == old(View()).(nvram := old(workingMemory))
    {
      nvram := workingMemory;
    }

    /** applyReset */
    method ApplyReset()
      modifies this
      ensures View() == old(View()).(working := old(nvram))
    {
      workingMemory := nvram;
    }

    /** startReboot, with the time it reads */
    method StartReboot(now: nat)
      modifies this
      ensures View() == old(View()).(rebootDeadline := Some(now + cfg.rebootDelay))
    {
      rebootDeadline := Some(now + cfg.rebootDelay);
    }

    /** rebooting, with the time it reads */
    method Rebooting(now: nat) returns (b: bool)
      modifies this
      ensures b == InRebootWindow(old(View()), now)
      ensures View() == AfterRebootCheck(old(View()), now)
    {
      if rebootDeadline.None? {
        return false;
      }
      if now < rebootDeadline.value {
        return true;
      }
      rebootDeadline := None;
      workingMemory := nvram;
      return false;
    }

    /** handleSetData */
    method HandleSetData(s: Schema, req: Packet, payload: seq<byte>) returns (reply: seq<byte>)
      modifies this
      ensures View() == AfterSet(s, old(View()), SetDataRequest(payload))
      ensures reply == Reply(old(View()), req, SET_DATA, PutUint16(|SetDataRequest(payload)|))
    {
      var items := ParseSetDataRequest(payload);
      var updates: map<text, text> := map[];
      for i := 0 to |items|
        invariant View() == old(View())
        invariant Updates(s, map[], items) == Updates(s, updates, items[i..])
      {
        var it := items[i];
        assert items[i..][0] == it && items[i..][1..] == items[i + 1..];
        var name := NameAt(s, it.offset);
        if name == [] {
          continue;
        }
        var value := DecodeParam(it.value);
        updates := updates[name := value];
      }
      assert items[|items|..] == [];
      assert updates == Updates(s, map[], items);
      ApplySet(updates);
      ApplySave();
      reply := Reply(View(), req, SET_DATA, PutUint16(|items|));
    }

    /** Its loop over the requested regions. */
    method BuildAnswers(s: Schema, requested: seq<Region>) returns (buf: seq<byte>)
      ensures buf == EncodeItems(Answers(s, workingMemory, requested))
    {
      buf := [];
      for i := 0 to |requested|
        invariant buf == EncodeItems(Answers(s, workingMemory, requested[..i]))
      {
        var r := requested[i];
        var value := EncodeParam(r.length, Lookup(workingMemory, NameAt(s, r.offset)));
        AnswersSnoc(s, workingMemory, requested, i);
        buf := buf + (PutUint16(r.offset) + PutUint16(r.length) + value);
      }
      assert requested[..|requested|] == requested;
    }

    /** The part of buildGetDataResponse after its malformed cases. */
    method BuildItems(s: Schema, payload: seq<byte>) returns (body: seq<byte>)
      ensures var items := Answers(s, workingMemory, GetDataRequest(payload)) + UnknownItems(cfg.unknownOffsets);
              body == PutUint16(Low16(|items|)) + EncodeItems(items)
    {
      var requested := ParseGetDataRequest(payload);
      var buf := BuildAnswers(s, requested);
      var extra := BuildUnknownItems(cfg.unknownOffsets);
      ghost var items := Answers(s, workingMemory, requested) + UnknownItems(cfg.unknownOffsets);
      EncodeConcat(Answers(s, workingMemory, requested), UnknownItems(cfg.unknownOffsets));
      assert EncodeItems(items) == buf + extra;
      var count := |requested| + |cfg.unknownOffsets|;
      assert count == |items|;
      body := PutUint16(Low16(count)) + (buf + extra);
    }

    /** buildGetDataResponse */
    method BuildGetDataResponse(s: Schema, req: Packet, payload: seq<byte>) returns (reply: seq<byte>)
      ensures reply == Reply(View(), req, GetDataReplyMethod(View()), GetDataReplyPayload(s, View(), payload))
    {
      var ucpMethod := if cfg.malformed == UnknownMethod then 0x9999 else GET_DATA;
      var header := EncodeHeader(ReplyHeader(req, cfg.mac, ucpMethod));
      match cfg.malformed {
        case OversizedCount =>
          reply := header + PutUint16(0xFFFF);
        case LengthExceedsPayload =>
          reply := header + (PutUint16(1) + PutUint16(0) + PutUint16(1000));
        case _ =>
          var body := BuildItems(s, payload);
          reply := header + body;
      }
    }

    /** The handlers that ReceiveScheduled passes to dispatchUnicast. */
    method Respond(s: Schema, now: nat, op: Op, req: Packet, payload: seq<byte>) returns (reply: Option<seq<byte>>)
      modifies this
      ensures (View(), reply) == Handle(s, old(View()), now, op, req, payload)
    {
      match op {
        case OpGet =>
          if cfg.dropGetData {
            return None;
          }
          var b := BuildGetDataResponse(s, req, payload);
          return Some(b);
        case OpSet =>
          var b := HandleSetData(s, req, payload);
          return Some(b);
        case OpReset =>
          var ack := Reply(View(), req, RESET, []);
          StartReboot(now);
          ApplyReset();
          return Some(ack);
        case OpGetIP =>
          if cfg.dropGetIP {
            return None;
          }
          return Some(Reply(View(), req, GET_IP,
            IpTlvBytes(0x05, cfg.ip) + IpTlvBytes(0x06, cfg.subnetMask) + IpTlvBytes(0x07, cfg.gateway)));
        case OpGetUUID =>
          if cfg.dropGetUUID {
            return None;
          }
          return Some(Reply(View(), req, GET_UUID, TlvBytes(0x0d, UuidWireBytes(cfg.uuid))));
        case _ =>
          return None;
      }
    }
  }

  /** The defaults newDevice fills in. */
  method FillDefaults(config: Config) returns (c: Config)
    ensures c == WithDefaults(config)
  {
    var model, deviceId, firmware := config.model, config.deviceId, config.firmware;
    var hardware, rebootDelay := config.hardware, config.rebootDelay;
    if model == [] { model := Ascii("squeezebox"); }
    if deviceId == [] { deviceId := Ascii("07"); }
    if firmware == [] { firmware := Ascii("77"); }
    if hardware == [] { hardware := Ascii("0005"); }
    if rebootDelay == 0 { rebootDelay := DEFAULT_REBOOT_DELAY; }
    c := config.(model := model, deviceId := deviceId, firmware := firmware, hardware := hardware, rebootDelay := rebootDelay);
  }

  /** factoryDefaults */
  method FactoryDefaultMap(s: Schema) returns (out: map<text, text>)
    requires s.Valid()
    ensures out == FactoryDefaults(s)
  {
    out := map[];
    for i := 0 to |s.params|
      invariant DefaultsSoFar(s, out, i)
    {
      NextDefault(s, out, i);
      out := out[s.params[i].name := s.params[i].factoryDefault];
    }
    AllDefaults(s, out);
  }

  /** The defaults of the first i rows, and only defaults. */
  ghost predicate DefaultsSoFar(s: Schema, m: map<text, text>, i: nat)
    requires i <= |s.params|
  {
    && (forall j :: 0 <= j < i ==> s.params[j].name in m)
    && (forall n :: n in m ==> n in s.Names() && m[n] == s.Get(n).factoryDefault)
  }

  lemma NextDefault(s: Schema, m: map<text, text>, i: nat)
    requires s.Valid() && i < |s.params| && DefaultsSoFar(s, m, i)
    ensures DefaultsSoFar(s, m[s.params[i].name := s.params[i].factoryDefault], i + 1)
  {
    s.LookupsAgree(s.params[i]);
  }

  lemma AllDefaults(s: Schema, m: map<text, text>)
    requires DefaultsSoFar(s, m, |s.params|)
    ensures m == FactoryDefaults(s)
  {
    forall n | n in s.Names() ensures n in m {
      var j := s.RowOf(n);
    }
  }

  lemma AnswersSnoc(s: Schema, working: map<text, text>, regions: seq<Region>, i: nat)
    requires i < |regions|
    ensures EncodeItems(Answers(s, working, regions[..i + 1])) ==
            EncodeItems(Answers(s, working, regions[..i])) + EncodeItem(Answer(s, working, regions[i]))
  {
    var last := Answer(s, working, regions[i]);
    assert Answers(s, working, regions[..i + 1]) == Answers(s, working, regions[..i]) + [last];
    EncodeSnoc(Answers(s, working, regions[..i]), last);
  }

  /** The entries of m under these keys. */
  function EntriesOf(m: map<uint16, chunk>, keys: seq<uint16>): (items: seq<Item>)
    requires forall o :: o in keys ==> o in m
    ensures |items| == |keys|
    ensures forall j :: 0 <= j < |keys| ==> items[j] == Item(keys[j], m[keys[j]])
  {
    seq(|keys|, j requires 0 <= j < |keys| => Item(keys[j], m[keys[j]]))
  }

  ghost function OffsetOfItem(): Item -> int {
    (it: Item) => it.offset as int
  }

  function ByValue(): uint16 -> int {
    (o: uint16) => o as int
  }

  /** Sorted keys give the entries in the order of UnknownItems. */
  lemma UnknownIsSorted(m: map<uint16, chunk>, keys: seq<uint16>)
    requires Collections.Distinct(keys) && Collections.Ascends(ByValue(), keys) && forall o :: o in keys <==> o in m
    ensures UnknownItems(m) == EntriesOf(m, keys)
  {
    var u, items := UnknownItems(m), EntriesOf(m, keys);
    forall it | it in items ensures it in u {
      UnknownHas(m, it.offset);
    }
    forall it | it in u ensures it in items {
      var i :| 0 <= i < |u| && u[i] == it;
      UnknownAt(m, i);
      EntryIn(m, keys, it.offset);
    }
    forall i, j | 0 <= i < j < |u| ensures u[i].offset < u[j].offset {
      UnknownAscend(m, i, j);
    }
    Collections.SameMembers(items, u);
    EntriesAscend(m, keys);
    Collections.AscendingUnique(OffsetOfItem(), items, u);
  }

  lemma EntryIn(m: map<uint16, chunk>, keys: seq<uint16>, o: uint16)
    requires o in keys && forall k :: k in keys ==> k in m
    ensures Item(o, m[o]) in EntriesOf(m, keys)
  {
    var j :| 0 <= j < |keys| && keys[j] == o;
    assert EntriesOf(m, keys)[j] == Item(o, m[o]);
  }

  lemma EntriesAscend(m: map<uint16, chunk>, keys: seq<uint16>)
    requires Collections.Distinct(keys) && Collections.Ascends(ByValue(), keys) && forall o :: o in keys ==> o in m
    ensures Collections.Ascends(OffsetOfItem(), EntriesOf(m, keys)) && Collections.KeyDecides(OffsetOfItem(), EntriesOf(m, keys))
  {
    var items := EntriesOf(m, keys);
    forall i, j | 0 <= i < j < |items| ensures items[i].offset < items[j].offset {
      assert ByValue()(keys[i]) <= ByValue()(keys[j]) && keys[i] != keys[j];
    }
  }

  /** The loop of buildGetDataResponse over the sorted keys of UnknownOffsets. */
  method BuildUnknownItems(m: map<uint16, chunk>) returns (buf: seq<byte>)
    ensures buf == EncodeItems(UnknownItems(m))
  {
    var found := Collections.Enumerate(m.Keys);
    var keys := Collections.SortSlice(ByValue(), found);
    Collections.PermutationKeepsDistinct(found, keys);
    buf := BuildEntries(m, keys);
    UnknownIsSorted(m, keys);
  }

  method BuildEntries(m: map<uint16, chunk>, keys: seq<uint16>) returns (buf: seq<byte>)
    requires forall o :: o in keys ==> o in m
    ensures buf == EncodeItems(EntriesOf(m, keys))
  {
    buf := [];
    for i := 0 to |keys|
      invariant buf == EncodeItems(EntriesOf(m, keys[..i]))
    {
      var value := m[keys[i]];
      buf := buf + (PutUint16(keys[i]) + PutUint16(|value|) + value);
      assert EntriesOf(m, keys[..i + 1]) == EntriesOf(m, keys[..i]) + [Item(keys[i], value)];
      EncodeSnoc(EntriesOf(m, keys[..i]), Item(keys[i], value));
    }
    assert keys[..|keys|] == keys;
  }
}
