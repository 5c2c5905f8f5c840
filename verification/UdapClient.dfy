/** The `Client` object (udap/client.go, udap/config.go) over a MockTransport, proved to follow the
    protocol functions of ClientProtocol. */
module UdapClient {
  import opened Bytes
  import opened Parameters
  import opened Wire
  import opened Items
  import opened ClientProtocol
  import opened InProcessTransport
  import opened Packets
  import opened Discovery
  import MacText
  import Collections
  import Tlv

  /** udap.Device */
  class Device {
    const mac: mac
    const ip: text
    const fields: Tlv.DiscoveryFields
    var parameters: map<text, text>

    constructor (m: mac, a: text, f: Tlv.DiscoveryFields)
      ensures mac == m && ip == a && fields == f && parameters == map[]
    {
      mac, ip, fields, parameters := m, a, f, map[];
    }
  }

  /** paramEntry; the key it was found under is kept for the proof. */
  datatype ParamEntry = ParamEntry(key: text, value: text, param: Parameter)

  class Client {
    const transport: MockTransport
    var sequence: uint32
    var retries: nat
    var devices: map<text, Device>

    ghost function World(): World
      reads transport, transport.net, transport.net.devices.Values
    {
      transport.View()
    }

    function SessionOf(d: Device): Session
      reads this, d
    {
      Session(d.mac, d.ip, retries, sequence, d.parameters)
    }

    ghost predicate Valid()
      reads this, transport, transport.net, transport.net.devices.Values
    {
      transport.Valid()
    }

    /** NewClientWithTransport */
    constructor (t: MockTransport)
      ensures transport == t && sequence == 0 && retries == 0 && devices == map[]
    {
      transport, sequence, retries, devices := t, 0, 0, map[];
    }

    // ---- The registry -------------------------------------------------------------------

    /** What is recorded of each device. */
    ghost function Known(): map<text, Found>
      reads this
    {
      map k | k in devices :: Found(devices[k].mac, devices[k].ip, devices[k].fields)
    }

    /** Every device is recorded under the text of its own address. */
    ghost predicate Filed()
      reads this
    {
      forall k :: k in devices ==> k == MacText.MacString(devices[k].mac)
    }

    /** recordDevice */
    method RecordDevice(d: Device)
      requires Filed()
      modifies this`devices
      ensures Filed() && devices == old(devices)[MacText.MacString(d.mac) := d]
      ensures Known() == old(Known())[MacText.MacString(d.mac) := Found(d.mac, d.ip, d.fields)]
    {
      devices := devices[MacText.MacString(d.mac) := d];
    }

    /** GetDevice */
    method GetDevice(key: text) returns (d: Device?)
      ensures d == if key in devices then devices[key] else null
    {
      d := if key in devices then devices[key] else null;
    }

    /** The lookup of every command: normalizeMAC, then GetDevice. It finds a device exactly when the
        input spells the address of one that was recorded, and that device is the one found. */
    method FindDevice(input: text) returns (d: Device?)
      requires Filed()
      ensures d != null <==> MacText.TwelveHex(MacText.Strip(input)) &&
                             exists k :: k in devices && devices[k].mac == MacText.Spelled(MacText.Strip(input))
      ensures d != null ==> d.mac == MacText.Spelled(MacText.Strip(input)) && d in devices.Values
    {
      var key := MacText.NormalizeMacLoop(input);
      MacText.NormalizeMacExactly(input);
      if key.None? {
        return null;
      }
      MacText.NormalFormIsCanonical(input);
      MacText.MacOfString(MacText.Spelled(MacText.Strip(input)));
      d := GetDevice(key.value);
      if d != null {
        MacText.MacOfString(d.mac);
      }
    }

    /** handleDiscoveryReply */
    method HandleDiscoveryReply(p: Pending)
      requires Filed()
      modifies this`devices
      ensures Filed() && Known() == Register(old(Known()), p)
      ensures World() == old(World()) && (old(Valid()) ==> Valid())
    {
      match ParsePacket(p.bytes) {
        case None =>
        case Some((h, data)) =>
          if h.srcType != ADDR_TYPE_ETH {
            return;
          }
          var fields := Tlv.ScanDiscovery(data);
          if fields.name == [] {
            fields := fields.(name := Ascii("Squeezebox Device"));
          }
          var d := new Device(h.srcAddress, p.src, fields);
          RecordDevice(d);
      }
    }

    /** The receiving loop of DiscoverDevicesWithContext. */
    method CollectReplies()
      requires Valid() && Filed()
      modifies this`devices, transport`pending
      ensures Valid() && Filed()
      ensures World() == old(World()).(queue := if transport.closed then old(transport.pending) else [])
      ensures Known() == if transport.closed then old(Known()) else RegisterAll(old(Known()), old(transport.pending))
    {
      if transport.closed {
        return;
      }
      while true
        invariant Valid() && Filed() && !transport.closed
        invariant World() == old(World()).(queue := transport.pending)
        invariant RegisterAll(Known(), transport.pending) == RegisterAll(old(Known()), old(transport.pending))
        decreases |transport.pending|
      {
        var reply := NextReply();
        if reply.None? {
          return;
        }
        HandleDiscoveryReply(reply.value);
      }
    }

    /** Recv on an open transport. */
    method NextReply() returns (r: Option<Pending>)
      requires Valid() && !transport.closed
      modifies transport`pending
      ensures Valid() && World() == old(World()).(queue := transport.pending)
      ensures r.None? ==> old(transport.pending) == [] && transport.pending == []
      ensures r.Some? ==> old(transport.pending) != [] && |transport.pending| < |old(transport.pending)| &&
                          forall known :: RegisterAll(known, old(transport.pending)) ==
                                          RegisterAll(Register(known, r.value), transport.pending)
    {
      r := transport.Recv();
    }

    /** DiscoverDevicesWithContext */
    method DiscoverDevices(s: Schema, clock: nat -> nat)
      requires Valid() && Filed()
      modifies this`sequence, this`devices
      modifies transport`pending, transport`delayed, transport.net`ticks, transport.net.devices.Values
      ensures Valid() && Filed() && sequence == NextSequence(old(sequence))
      ensures var sent := SendTimes(s, clock, old(World()), DiscoveryBytes(sequence), retries + 1);
              if sent.closed then World() == sent && Known() == old(Known())
              else World() == sent.(queue := []) && Known() == RegisterAll(old(Known()), sent.queue)
    {
      var header := CreateUdapPacket(ZERO_MAC, ADV_DISC, 0x01, true);
      var ok := SendRetried(s, clock, EncodeHeader(header));
      CollectReplies();
    }

    // ---- Requests -----------------------------------------------------------------------

    /** SetRetries */
    method SetRetries(n: int)
      modifies this`retries
      ensures retries == if n < 0 then 0 else n
    {
      retries := if n < 0 then 0 else n;
    }

    /** sendRetried: succeeds if one of retries + 1 sends does. */
    method SendRetried(s: Schema, clock: nat -> nat, packet: seq<byte>) returns (ok: bool)
      requires Valid()
      modifies transport`pending, transport`delayed, transport.net`ticks, transport.net.devices.Values
      ensures Valid() && ok
      ensures World() == SendTimes(s, clock, old(World()), packet, retries + 1)
    {
      var successCount := SendAll(s, clock, packet, retries + 1, World());
      ok := successCount != 0;
    }

    /** Its loop; w is the state before it. */
    method SendAll(s: Schema, clock: nat -> nat, packet: seq<byte>, attempts: nat, ghost w: World)
      returns (successCount: nat)
      requires Valid() && World() == w
      modifies transport`pending, transport`delayed, transport.net`ticks, transport.net.devices.Values
      ensures Valid() && successCount == attempts
      ensures World() == SendTimes(s, clock, w, packet, attempts)
    {
      successCount := 0;
      for i := 0 to attempts
        invariant Valid() && successCount == i
        invariant transport.net.devices.Values == old(transport.net.devices.Values)
        invariant World() == SendTimes(s, clock, w, packet, i)
      {
        var sent := SendOnce(s, clock, packet, w, i);
        if sent {
          successCount := successCount + 1;
        }
      }
    }

    /** One turn of its loop, after n others. */
    method SendOnce(s: Schema, clock: nat -> nat, packet: seq<byte>, ghost w: World, ghost n: nat) returns (ok: bool)
      requires Valid() && World() == SendTimes(s, clock, w, packet, n)
      modifies transport`pending, transport`delayed, transport.net`ticks, transport.net.devices.Values
      ensures Valid() && ok && World() == SendTimes(s, clock, w, packet, n + 1)
    {
      ok := transport.Send(s, clock, packet);
    }

    /** createUdapPacket */
    method CreateUdapPacket(dst: mac, ucpMethod: uint16, flags: byte, broadcast: bool) returns (p: Packet)
      modifies this`sequence
      ensures sequence == NextSequence(old(sequence))
      ensures p == Request(dst, ucpMethod, broadcast, sequence).(ucpFlags := flags)
      ensures World() == old(World()) && (old(Valid()) ==> Valid())
    {
      sequence := if sequence == 0xFFFF_FFFF then 0 else sequence + 1;
      p := Packet(if broadcast then 1 else 0, ADDR_TYPE_ETH, dst, 0, ADDR_TYPE_ETH, ZERO_MAC,
                  sequence % 0x1_0000, TYPE_UCP, flags, [0x00, 0x01, 0x00, 0x01], ucpMethod);
    }

    /** CreateGetDataPacket */
    method CreateGetDataPacket(s: Schema, d: Device, params: seq<text>)
      returns (packet: Option<seq<byte>>, ghost regions: seq<Region>)
      modifies this`sequence
      ensures World() == old(World()) && (old(Valid()) ==> Valid())
      ensures SessionOf(d) == old(SessionOf(d)).(counter := sequence)
      ensures SortedRegions(s, params, regions)
      ensures d.mac == ZERO_MAC ==> packet == None && sequence == old(sequence)
      ensures d.mac != ZERO_MAC ==> sequence == NextSequence(old(sequence)) &&
                                    packet == Some(GetDataBytes(d.mac, sequence, regions))
    {
      var items := NamedRegions(s, params);
      items := Collections.SortSlice((r: Region) => r.offset as int, items);
      assert Collections.Ascends(RegionKey(), items) by {
        forall i, j | 0 <= i < j < |items| ensures RegionKey()(items[i]) <= RegionKey()(items[j]) {
          assert ((r: Region) => r.offset as int)(items[i]) <= ((r: Region) => r.offset as int)(items[j]);
        }
      }
      regions := items;
      if d.mac == ZERO_MAC {
        return None, regions;
      }
      var header := CreateUdapPacket(d.mac, GET_DATA, 0x01, false);
      var body := WriteRegions(items);
      packet := Some(EncodeHeader(header) + Zeros(CRED_SIZE) + PutUint16(Low16(|items|)) + body);
    }

    /** CreateSetDataPacket */
    method CreateSetDataPacket(s: Schema, d: Device, params: map<text, text>)
      returns (packet: Option<seq<byte>>, ghost keys: seq<text>)
      modifies this`sequence
      ensures World() == old(World()) && (old(Valid()) ==> Valid())
      ensures SessionOf(d) == old(SessionOf(d)).(counter := sequence)
      ensures Listing(s, params, keys)
      ensures d.mac == ZERO_MAC ==> packet == None && sequence == old(sequence)
      ensures d.mac != ZERO_MAC ==>
                && sequence == NextSequence(old(sequence))
                && packet == if Encodable(s, params) then Some(SetDataBytes(d.mac, sequence, ItemsFor(s, params, keys)))
                             else None
    {
      var list := KnownEntries(s, params);
      list := SortEntries(s, params, list);
      keys := KeysOf(list);
      if d.mac == ZERO_MAC {
        return None, keys;
      }
      var header := CreateUdapPacket(d.mac, SET_DATA, 0x01, false);
      var body := WriteEntries(s, params, list);
      match body {
        case None =>
          packet := None;
        case Some(b) =>
          packet := Some(EncodeHeader(header) + Zeros(CRED_SIZE) + PutUint16(Low16(|list|)) + b);
      }
    }

    /** CreateResetPacket */
    method CreateResetPacket(d: Device) returns (packet: Option<seq<byte>>)
      modifies this`sequence
      ensures World() == old(World()) && (old(Valid()) ==> Valid())
      ensures SessionOf(d) == old(SessionOf(d)).(counter := sequence)
      ensures d.mac == ZERO_MAC ==> packet == None && sequence == old(sequence)
      ensures d.mac != ZERO_MAC ==> sequence == NextSequence(old(sequence)) && packet == Some(ResetBytes(d.mac, sequence))
    {
      if d.mac == ZERO_MAC {
        return None;
      }
      var header := CreateUdapPacket(d.mac, RESET, 0x01, false);
      packet := Some(EncodeHeader(header));
    }

    /** waitForDeviceReply */
    method WaitForDeviceReply(d: Device) returns (r: Option<(Packet, seq<byte>)>)
      requires Valid()
      modifies transport`pending
      ensures Valid()
      ensures (World(), r) == Receipt(old(World()), d.mac, d.ip)
    {
      while true
        invariant Valid() && (transport.closed ==> transport.pending == old(transport.pending))
        invariant World() == old(World()).(queue := transport.pending)
        invariant Await(transport.pending, d.mac, d.ip) == Await(old(transport.pending), d.mac, d.ip)
        decreases |transport.pending|
      {
        var reply := transport.Recv();
        match reply {
          case None => return None;
          case Some(p) =>
            match ParsePacket(p.bytes) {
              case None =>
                continue;
              case Some((h, data)) =>
                if h.srcAddress != d.mac {
                  continue;
                }
                if d.ip != [] && p.src != d.ip {
                  continue;
                }
                return Some((h, data));
            }
        }
      }
    }

    /** sendRetried, then waitForDeviceReply: the middle of every operation. */
    method RoundTrip(s: Schema, clock: nat -> nat, d: Device, packet: seq<byte>, ghost w: World) returns (r: Option<(Packet, seq<byte>)>)
      requires Valid() && World() == w
      modifies transport`pending, transport`delayed, transport.net`ticks, transport.net.devices.Values
      ensures Valid()
      ensures SessionOf(d) == old(SessionOf(d))
      ensures (World(), r) == Receipt(SendTimes(s, clock, w, packet, retries + 1), d.mac, d.ip)
    {
      var sent := SendRetried(s, clock, packet);
      if !sent {
        return None;
      }
      r := WaitForDeviceReply(d);
    }

    /** GetDeviceConfigWithContext */
    method GetDeviceConfig(s: Schema, clock: nat -> nat, d: Device, params: seq<text>)
      returns (r: Option<map<text, text>>, ghost regions: seq<Region>)
      requires Valid()
      modifies this`sequence, transport`pending, transport`delayed, transport.net`ticks, transport.net.devices.Values
      ensures Valid() && SortedRegions(s, params, regions)
      ensures (World(), SessionOf(d), r) == GetConfig(s, clock, old(World()), old(SessionOf(d)), regions)
    {
      r, regions := AskConfig(s, clock, d, params, World(), SessionOf(d));
    }

    /** Builds the GetData packet, sends it and reads the reply; w and c are the state before. */
    method AskConfig(s: Schema, clock: nat -> nat, d: Device, params: seq<text>, ghost w: World, ghost c: Session)
      returns (r: Option<map<text, text>>, ghost regions: seq<Region>)
      requires Valid() && World() == w && SessionOf(d) == c
      modifies this`sequence, transport`pending, transport`delayed, transport.net`ticks, transport.net.devices.Values
      ensures Valid() && SortedRegions(s, params, regions)
      ensures (World(), SessionOf(d), r) == GetConfig(s, clock, w, c, regions)
    {
      var packet;
      packet, regions := CreateGetDataPacket(s, d, params);
      if packet.None? {
        return None, regions;
      }
      r := Ask(s, clock, d, packet.value, w, c, regions);
    }

    /** Sends the packet and reads the reply. */
    method Ask(s: Schema, clock: nat -> nat, d: Device, packet: seq<byte>, ghost w: World, ghost c: Session, ghost regions: seq<Region>)
      returns (r: Option<map<text, text>>)
      requires Valid() && World() == w && SessionOf(d) == c.(counter := NextSequence(c.counter))
      requires c.m != ZERO_MAC && packet == GetDataBytes(c.m, NextSequence(c.counter), regions)
      modifies transport`pending, transport`delayed, transport.net`ticks, transport.net.devices.Values
      ensures Valid()
      ensures (World(), SessionOf(d), r) == GetConfig(s, clock, w, c, regions)
    {
      var reply := RoundTrip(s, clock, d, packet, w);
      r := ReadReply(s, reply);
      GetReturns(s, clock, w, c, regions, packet, reply, World(), r);
    }

    /** What it makes of the reply. */
    method ReadReply(s: Schema, reply: Option<(Packet, seq<byte>)>) returns (r: Option<map<text, text>>)
      ensures r == match reply
                   case None => None
                   case Some((h, data)) => if h.ucpMethod == GET_DATA then GetDataResponse(s, data) else None
    {
      match reply {
        case None =>
          return None;
        case Some((h, data)) =>
          if h.ucpMethod != GET_DATA {
            return None;
          }
          r := ParseGetDataResponse(s, data);
      }
    }

    /** GetAllDeviceConfigWithContext */
    method GetAllDeviceConfig(s: Schema, clock: nat -> nat, d: Device) returns (ok: bool)
      requires s.Valid() && Valid()
      modifies this`sequence, d`parameters
      modifies transport`pending, transport`delayed, transport.net`ticks, transport.net.devices.Values
      ensures Valid()
      ensures Outcome(World(), SessionOf(d), ok) == GetAll(s, clock, old(World()), old(SessionOf(d)))
    {
      ghost var w, c := World(), SessionOf(d);
      var config := GetEveryParameter(s, clock, d, w, c);
      ghost var w', c' := World(), SessionOf(d);
      GetAllReturns(s, clock, w, c, w', c', config);
      if config.None? {
        return false;
      }
      TakeOver(d, config.value, w', c');
      return true;
    }

    /** A new read is copied over what is cached, without the synthetic keys of earlier ones. */
    method TakeOver(d: Device, read: map<text, text>, ghost w: World, ghost c: Session)
      requires Valid() && World() == w && SessionOf(d) == c
      modifies d`parameters
      ensures Valid() && World() == w && SessionOf(d) == c.(cache := Refresh(c.cache, read))
    {
      var kept := WithoutSynthetic(d.parameters);
      var merged := Collections.Overlay(kept, read);
      Cache(d, merged, w);
    }

    /** Assigning a device's cached parameters touches nothing of the transport. */
    method Cache(d: Device, parameters: map<text, text>, ghost w: World)
      requires Valid() && World() == w
      modifies d`parameters
      ensures d.parameters == parameters && Valid() && World() == w
    {
      d.parameters := parameters;
    }

    method GetEveryParameter(s: Schema, clock: nat -> nat, d: Device, ghost w: World, ghost c: Session)
      returns (r: Option<map<text, text>>)
      requires s.Valid() && Valid() && World() == w && SessionOf(d) == c
      modifies this`sequence, transport`pending, transport`delayed, transport.net`ticks, transport.net.devices.Values
      ensures Valid()
      ensures (World(), SessionOf(d), r) == GetConfig(s, clock, w, c, AllRegions(s))
    {
      var names := ParameterNames(s);
      ghost var regions;
      r, regions := AskConfig(s, clock, d, names, w, c);
      AllNamesSorted(s, names);
      GetDataIsFunction(s, names, names, regions, AllRegions(s));
    }

    /** SetDeviceConfigWithContext */
    method SetDeviceConfig(s: Schema, clock: nat -> nat, d: Device, config: map<text, text>)
      returns (ok: bool, ghost keys: seq<text>)
      requires s.Valid() && Valid()
      modifies this`sequence, d`parameters
      modifies transport`pending, transport`delayed, transport.net`ticks, transport.net.devices.Values
      ensures Valid()
      ensures var p := Prelude(s, clock, old(World()), old(SessionOf(d)));
              p.ok ==> Listing(s, p.session.cache + config, keys)
      ensures Outcome(World(), SessionOf(d), ok) == Set(s, clock, old(World()), old(SessionOf(d)), config, keys)
    {
      ghost var w, c := World(), SessionOf(d);
      var loaded := Load(s, clock, d, w, c);
      if !loaded {
        return false, [];
      }
      ok, keys := WriteConfig(s, clock, d, config);
    }

    /** Its prelude: a full read when nothing is cached. */
    method Load(s: Schema, clock: nat -> nat, d: Device, ghost w: World, ghost c: Session) returns (ok: bool)
      requires s.Valid() && Valid() && World() == w && SessionOf(d) == c
      modifies this`sequence, d`parameters
      modifies transport`pending, transport`delayed, transport.net`ticks, transport.net.devices.Values
      ensures Valid()
      ensures Outcome(World(), SessionOf(d), ok) == Prelude(s, clock, w, c)
    {
      ok := true;
      if |d.parameters| == 0 {
        ok := GetAllDeviceConfig(s, clock, d);
      }
    }

    /** The part of SetDeviceConfigWithContext after its prelude. */
    method WriteConfig(s: Schema, clock: nat -> nat, d: Device, config: map<text, text>)
      returns (ok: bool, ghost keys: seq<text>)
      requires Valid()
      modifies this`sequence, d`parameters
      modifies transport`pending, transport`delayed, transport.net`ticks, transport.net.devices.Values
      ensures Valid() && Listing(s, old(d.parameters) + config, keys)
      ensures Outcome(World(), SessionOf(d), ok) == Write(s, clock, old(World()), old(SessionOf(d)), config, keys)
    {
      ghost var w, c := World(), SessionOf(d);
      ghost var o;
      var allParams := MergeParams(d.parameters, config);
      ok, keys, o := AskWrite(s, clock, d, config, allParams, w, c);
      CacheIfAcknowledged(d, config, ok, o);
    }

    /** The cached parameters change on an acknowledgement only. */
    method CacheIfAcknowledged(d: Device, config: map<text, text>, ok: bool, ghost o: Outcome)
      requires Valid()
      requires o == Outcome(World(), SessionOf(d).(cache := if ok then d.parameters + config else d.parameters), ok)
      modifies d`parameters
      ensures Valid() && o == Outcome(World(), SessionOf(d), ok)
    {
      if ok {
        var updated := Collections.Overlay(d.parameters, config);
        Cache(d, updated, World());
      }
    }

    /** All of it but the update of the cache. */
    method AskWrite(s: Schema, clock: nat -> nat, d: Device, ghost config: map<text, text>, allParams: map<text, text>,
                    ghost w: World, ghost c: Session)
      returns (ok: bool, ghost keys: seq<text>, ghost o: Outcome)
      requires Valid() && World() == w && SessionOf(d) == c && allParams == c.cache + config
      modifies this`sequence
      modifies transport`pending, transport`delayed, transport.net`ticks, transport.net.devices.Values
      ensures Valid() && Listing(s, c.cache + config, keys)
      ensures o == Write(s, clock, w, c, config, keys)
      ensures o == Outcome(World(), SessionOf(d).(cache := if ok then d.parameters + config else d.parameters), ok)
    {
      var built, reply;
      built, reply, keys := AskSet(s, clock, d, allParams);
      WriteReturns(s, clock, w, c, config, keys);
      ok := built && reply.Some? && reply.value.0.ucpMethod in {SET_DATA, GET_DATA, GET_IP};
      o := Outcome(World(), SessionOf(d).(cache := if ok then allParams else d.parameters), ok);
    }

    /** Builds the SetData packet, sends it and waits for the reply. */
    method AskSet(s: Schema, clock: nat -> nat, d: Device, params: map<text, text>)
      returns (built: bool, reply: Option<(Packet, seq<byte>)>, ghost keys: seq<text>)
      requires Valid()
      modifies this`sequence
      modifies transport`pending, transport`delayed, transport.net`ticks, transport.net.devices.Values
      ensures Valid() && Listing(s, params, keys)
      ensures (built, World(), SessionOf(d), reply) == AskedSet(s, clock, old(World()), old(SessionOf(d)), params, keys)
    {
      var packet;
      packet, keys := CreateSetDataPacket(s, d, params);
      if packet.None? {
        return false, None, keys;
      }
      built := true;
      reply := RoundTrip(s, clock, d, packet.value, World());
    }

    /** ResetDeviceWithContext */
    method ResetDevice(s: Schema, clock: nat -> nat, d: Device) returns (ok: bool)
      requires Valid()
      modifies this`sequence
      modifies transport`pending, transport`delayed, transport.net`ticks, transport.net.devices.Values
      ensures Valid()
      ensures Outcome(World(), SessionOf(d), ok) == Reset(s, clock, old(World()), old(SessionOf(d)))
    {
      ghost var w, c := World(), SessionOf(d);
      var packet := CreateResetPacket(d);
      if packet.None? {
        return false;
      }
      var reply := RoundTrip(s, clock, d, packet.value, w);
      match reply {
        case None => ok := true;
        case Some((h, data)) => ok := h.ucpMethod == RESET;
      }
      ResetReturns(s, clock, w, c, packet.value, reply, Outcome(World(), SessionOf(d), ok));
    }
  }

  /** The two copies that make up allParams. */
  method MergeParams(cached: map<text, text>, config: map<text, text>) returns (r: map<text, text>)
    ensures r == cached + config
  {
    r := Collections.Overlay(map[], cached);
    r := Collections.Overlay(r, config);
  }

  /** Whether the packet could be built, the state after it was answered or not, and the answer. */
  ghost function AskedSet(s: Schema, clock: nat -> nat, w: World, c: Session, params: map<text, text>, keys: seq<text>)
    : (bool, World, Session, Option<(Packet, seq<byte>)>)
    requires Listing(s, params, keys)
  {
    if c.m == ZERO_MAC then (false, w, c, None)
    else
      var c' := c.(counter := NextSequence(c.counter));
      if !Encodable(s, params) then (false, w, c', None)
      else
        var packet := SetDataBytes(c.m, c'.counter, ItemsFor(s, params, keys));
        var (w', r) := Receipt(SendTimes(s, clock, w, packet, c.retries + 1), c.m, c.ip);
        (true, w', c', r)
  }

  lemma GetReturns(s: Schema, clock: nat -> nat, w: World, c: Session, regions: seq<Region>, packet: seq<byte>,
                   reply: Option<(Packet, seq<byte>)>, w': World, r: Option<map<text, text>>)
    requires c.m != ZERO_MAC && packet == GetDataBytes(c.m, NextSequence(c.counter), regions)
    requires (w', reply) == Receipt(SendTimes(s, clock, w, packet, c.retries + 1), c.m, c.ip)
    requires r == match reply
                  case None => None
                  case Some((h, data)) => if h.ucpMethod == GET_DATA then GetDataResponse(s, data) else None
    ensures GetConfig(s, clock, w, c, regions) == (w', c.(counter := NextSequence(c.counter)), r)
  {
  }

  lemma GetAllReturns(s: Schema, clock: nat -> nat, w: World, c: Session, w': World, c': Session, r: Option<map<text, text>>)
    requires (w', c', r) == GetConfig(s, clock, w, c, AllRegions(s))
    ensures GetAll(s, clock, w, c) ==
            match r
            case None => Outcome(w', c', false)
            case Some(read) => Outcome(w', c'.(cache := Refresh(c'.cache, read)), true)
  {
  }

  lemma WriteReturns(s: Schema, clock: nat -> nat, w: World, c: Session, config: map<text, text>, keys: seq<text>)
    requires Listing(s, c.cache + config, keys)
    ensures var (built, w', c', r) := AskedSet(s, clock, w, c, c.cache + config, keys);
            Write(s, clock, w, c, config, keys) ==
            if built && r.Some? && IsSetAck(r.value.0.ucpMethod) then Outcome(w', c'.(cache := c.cache + config), true)
            else Outcome(w', c', false)
  {
  }

  lemma ResetReturns(s: Schema, clock: nat -> nat, w: World, c: Session,
                     packet: seq<byte>, r: Option<(Packet, seq<byte>)>, o: Outcome)
    requires c.m != ZERO_MAC && packet == ResetBytes(c.m, NextSequence(c.counter))
    requires (o.world, r) == Receipt(SendTimes(s, clock, w, packet, c.retries + 1), c.m, c.ip)
    requires o.ok <==> r.None? || r.value.0.ucpMethod == RESET
    requires o.session == c.(counter := NextSequence(c.counter))
    ensures o == Reset(s, clock, w, c)
  {
  }

  /** ParameterNames */
  method ParameterNames(s: Schema) returns (names: seq<text>)
    ensures |names| == |s.params| && forall i :: 0 <= i < |names| ==> names[i] == s.params[i].name
  {
    names := [];
    for i := 0 to |s.params|
      invariant |names| == i && forall j :: 0 <= j < i ==> names[j] == s.params[j].name
    {
      names := names + [s.params[i].name];
    }
  }

  lemma {:induction false} RegionsOfNames(s: Schema, names: seq<text>, i: nat)
    requires s.Valid() && i <= |names| == |s.params|
    requires forall j :: 0 <= j < |names| ==> names[j] == s.params[j].name
    ensures RegionsNamed(s, names[i..]) == AllRegions(s)[i..]
    decreases |names| - i
  {
    if i < |names| {
      RegionsOfNames(s, names, i + 1);
      s.LookupsAgree(s.params[i]);
      RegionOfFirst(s, names[i..], s.params[i]);
      assert names[i..][1..] == names[i + 1..];
      assert AllRegions(s)[i..] == [AllRegions(s)[i]] + AllRegions(s)[i + 1..];
    }
  }

  lemma RegionOfFirst(s: Schema, names: seq<text>, p: Parameter)
    requires names != [] && s.ByName(names[0]) == Some(p)
    ensures RegionsNamed(s, names) == [Region(p.offset, p.length)] + RegionsNamed(s, names[1..])
  {
  }

  /** All names in table order ask for all regions, which are sorted already. */
  lemma AllNamesSorted(s: Schema, names: seq<text>)
    requires s.Valid() && |names| == |s.params| && forall j :: 0 <= j < |names| ==> names[j] == s.params[j].name
    ensures SortedRegions(s, names, AllRegions(s))
  {
    RegionsOfNames(s, names, 0);
    assert names[0..] == names && AllRegions(s)[0..] == AllRegions(s);
    forall i, j | 0 <= i < j < |s.params| ensures RegionKey()(AllRegions(s)[i]) <= RegionKey()(AllRegions(s)[j]) {
      s.Ascending(i, j);
    }
  }

  /** The loop that drops the synthetic keys of an earlier read. */
  method WithoutSynthetic(m: map<text, text>) returns (r: map<text, text>)
    ensures r == map k | k in m && !HasPrefix(k, Ascii("offset_")) :: m[k]
  {
    r := m;
    var left := m.Keys;
    while left != {}
      invariant left <= m.Keys
      invariant r == map k | k in m && (k in left || !HasPrefix(k, Ascii("offset_"))) :: m[k]
      decreases left
    {
      var k :| k in left;
      if HasPrefix(k, Ascii("offset_")) {
        r := r - {k};
      }
      left := left - {k};
    }
  }

  /** The items loop of CreateGetDataPacket. */
  method NamedRegions(s: Schema, params: seq<text>) returns (items: seq<Region>)
    ensures items == RegionsNamed(s, params)
  {
    items := [];
    for i := 0 to |params|
      invariant items == RegionsNamed(s, params[..i])
    {
      assert params[..i + 1] == params[..i] + [params[i]];
      NamedConcat(s, params[..i], [params[i]]);
      match s.ByName(params[i]) {
        case None =>
        case Some(p) => items := items + [Region(p.offset, p.length)];
      }
    }
    assert params[..|params|] == params;
  }

  /** Its writing loop. */
  method WriteRegions(items: seq<Region>) returns (buf: seq<byte>)
    ensures buf == EncodeRegions(items)
  {
    buf := [];
    for i := 0 to |items|
      invariant buf + EncodeRegions(items[i..]) == EncodeRegions(items)
    {
      assert items[i..][1..] == items[i + 1..];
      buf := buf + PutUint16(items[i].offset) + PutUint16(items[i].length);
    }
  }

  // ---- CreateSetDataPacket -------------------------------------------------------------

  ghost predicate Lists(list: seq<ParamEntry>, k: text) {
    exists i :: 0 <= i < |list| && list[i].key == k
  }

  /** The entries made from the known keys of a map, each key once. */
  ghost predicate EntriesOf(s: Schema, m: map<text, text>, list: seq<ParamEntry>) {
    && (forall e :: e in list ==> e.key in KnownKeys(s, m) && e.value == m[e.key] && s.ByName(e.key) == Some(e.param))
    && (forall i, j :: 0 <= i < j < |list| ==> list[i].key != list[j].key)
    && (forall k :: k in KnownKeys(s, m) ==> Lists(list, k))
  }

  function KeysOf(list: seq<ParamEntry>): (keys: seq<text>)
    ensures |keys| == |list|
    ensures forall i :: 0 <= i < |list| ==> keys[i] == list[i].key
  {
    seq(|list|, i requires 0 <= i < |list| => list[i].key)
  }

  /** The range over the map; unknown names are skipped. */
  method KnownEntries(s: Schema, m: map<text, text>) returns (list: seq<ParamEntry>)
    ensures EntriesOf(s, m, list)
  {
    var names := Collections.Enumerate(m.Keys);
    list := [];
    assert m - Rest(names, 0) == map[];
    for i := 0 to |names|
      invariant EntriesOf(s, m - Rest(names, i), list)
    {
      RestNext(m, names, i);
      EntriesNext(s, m - Rest(names, i), list, names[i], m[names[i]]);
      match s.ByName(names[i]) {
        case None =>
        case Some(p) => list := list + [ParamEntry(names[i], m[names[i]], p)];
      }
    }
    assert m - Rest(names, |names|) == m;
  }

  lemma EntriesNext(s: Schema, m: map<text, text>, list: seq<ParamEntry>, k: text, v: text)
    requires EntriesOf(s, m, list) && k !in m
    ensures EntriesOf(s, m[k := v], match s.ByName(k) case None => list case Some(p) => list + [ParamEntry(k, v, p)])
  {
    match s.ByName(k) {
      case None =>
        assert KnownKeys(s, m[k := v]) == KnownKeys(s, m);
      case Some(p) =>
        var more := list + [ParamEntry(k, v, p)];
        forall e | e in more ensures e.key in KnownKeys(s, m[k := v]) && e.value == m[k := v][e.key] && s.ByName(e.key) == Some(e.param) {
          assert e in list || e == ParamEntry(k, v, p);
        }
        forall i | 0 <= i < |list| ensures list[i].key != k {
          assert list[i] in list;
        }
        forall n | n in KnownKeys(s, m[k := v]) ensures Lists(more, n) {
          ListsMore(s, m, list, ParamEntry(k, v, p), n);
        }
    }
  }

  lemma ListsMore(s: Schema, m: map<text, text>, list: seq<ParamEntry>, e: ParamEntry, n: text)
    requires EntriesOf(s, m, list) && (n == e.key || n in KnownKeys(s, m))
    ensures Lists(list + [e], n)
  {
    if n == e.key {
      assert (list + [e])[|list|].key == n;
    } else {
      assert Lists(list, n);
      var i :| 0 <= i < |list| && list[i].key == n;
      assert (list + [e])[i].key == n;
    }
  }

  ghost function Rest(names: seq<text>, i: nat): set<text>
    requires i <= |names|
  {
    set x | x in names[i..]
  }

  lemma RestNext(m: map<text, text>, names: seq<text>, i: nat)
    requires Collections.Distinct(names) && i < |names| && names[i] in m
    ensures m - Rest(names, i + 1) == (m - Rest(names, i))[names[i] := m[names[i]]]
    ensures names[i] !in m - Rest(names, i)
  {
    assert names[i..] == [names[i]] + names[i + 1..];
    assert Rest(names, i) == Rest(names, i + 1) + {names[i]};
  }

  ghost function EntryKey(): ParamEntry -> int {
    (e: ParamEntry) => e.param.offset as int
  }

  lemma EntriesDistinct(s: Schema, m: map<text, text>, a: seq<ParamEntry>, b: seq<ParamEntry>)
    requires EntriesOf(s, m, a) && multiset(b) == multiset(a)
    ensures EntriesOf(s, m, b)
  {
    Collections.PermutationKeepsDistinct(a, b);
    forall i, j | 0 <= i < j < |b| ensures b[i].key != b[j].key {
      assert b[i] in b && b[j] in b;
    }
    forall k | k in KnownKeys(s, m) ensures Lists(b, k) {
      assert Lists(a, k);
      var x :| 0 <= x < |a| && a[x].key == k;
      var i := Collections.MemberOf(a, b, a[x]);
    }
  }

  lemma EntriesList(s: Schema, m: map<text, text>, list: seq<ParamEntry>)
    requires EntriesOf(s, m, list) && Collections.Ascends(EntryKey(), list)
    ensures Listing(s, m, KeysOf(list))
  {
    var keys := KeysOf(list);
    forall i, j | 0 <= i < j < |keys| ensures OffsetOf(s, keys[i]) <= OffsetOf(s, keys[j]) {
      assert list[i] in list && list[j] in list && EntryKey()(list[i]) <= EntryKey()(list[j]);
    }
    forall k ensures k in keys <==> k in KnownKeys(s, m) {
      if k in keys {
        var i :| 0 <= i < |keys| && keys[i] == k;
        assert list[i] in list;
      }
      if k in KnownKeys(s, m) {
        assert Lists(list, k);
        var i :| 0 <= i < |list| && list[i].key == k;
        assert keys[i] == k;
      }
    }
  }

  /** The sort by offset. */
  method SortEntries(s: Schema, m: map<text, text>, list: seq<ParamEntry>) returns (sorted: seq<ParamEntry>)
    requires EntriesOf(s, m, list)
    ensures EntriesOf(s, m, sorted) && Listing(s, m, KeysOf(sorted))
  {
    sorted := Collections.SortSlice((e: ParamEntry) => e.param.offset as int, list);
    EntriesDistinct(s, m, list, sorted);
    assert Collections.Ascends(EntryKey(), sorted) by {
      forall i, j | 0 <= i < j < |sorted| ensures EntryKey()(sorted[i]) <= EntryKey()(sorted[j]) {
        assert ((e: ParamEntry) => e.param.offset as int)(sorted[i]) <= ((e: ParamEntry) => e.param.offset as int)(sorted[j]);
      }
    }
    EntriesList(s, m, sorted);
  }

  /** The items of the entries, as far as they encode. */
  function EncodedEntries(list: seq<ParamEntry>): (items: seq<Item>)
    requires AllEncode(list)
    ensures |items| == |list|
  {
    seq(|list|, i requires 0 <= i < |list| => Item(list[i].param.offset, Encode(list[i].param.length, list[i].value).value))
  }

  ghost predicate AllEncode(list: seq<ParamEntry>) {
    forall e :: e in list ==> Encode(e.param.length, e.value).Some?
  }

  /** The writing loop: the first value that does not encode fails the packet. */
  method WriteEntries(s: Schema, m: map<text, text>, list: seq<ParamEntry>) returns (body: Option<seq<byte>>)
    requires EntriesOf(s, m, list) && Listing(s, m, KeysOf(list))
    ensures body == if Encodable(s, m) then Some(EncodeItems(ItemsFor(s, m, KeysOf(list)))) else None
  {
    var buf: seq<byte> := [];
    for i := 0 to |list|
      invariant AllEncode(list[..i]) && buf == EncodeItems(EncodedEntries(list[..i]))
    {
      var e := list[i];
      match Encode(e.param.length, e.value) {
        case None =>
          NotEncoded(s, m, list, i);
          return None;
        case Some(data) =>
          NextEncoded(list, i, data);
          buf := buf + (PutUint16(e.param.offset) + PutUint16(e.param.length) + data);
      }
    }
    assert list[..|list|] == list;
    AllEncoded(s, m, list);
    return Some(buf);
  }

  lemma NotEncoded(s: Schema, m: map<text, text>, list: seq<ParamEntry>, i: nat)
    requires EntriesOf(s, m, list) && i < |list| && Encode(list[i].param.length, list[i].value).None?
    ensures !Encodable(s, m)
  {
    assert list[i] in list;
  }

  lemma NextEncoded(list: seq<ParamEntry>, i: nat, data: seq<byte>)
    requires i < |list| && AllEncode(list[..i]) && Encode(list[i].param.length, list[i].value) == Some(data)
    ensures AllEncode(list[..i + 1])
    ensures EncodeItems(EncodedEntries(list[..i + 1])) ==
            EncodeItems(EncodedEntries(list[..i])) + (PutUint16(list[i].param.offset) + PutUint16(list[i].param.length) + data)
  {
    var e := list[i];
    assert list[..i + 1] == list[..i] + [e];
    assert EncodedEntries(list[..i + 1]) == EncodedEntries(list[..i]) + [Item(e.param.offset, data)];
    EncodeSnoc(EncodedEntries(list[..i]), Item(e.param.offset, data));
  }

  lemma AllEncoded(s: Schema, m: map<text, text>, list: seq<ParamEntry>)
    requires EntriesOf(s, m, list) && Listing(s, m, KeysOf(list))
    requires AllEncode(list)
    ensures Encodable(s, m) && EncodedEntries(list) == ItemsFor(s, m, KeysOf(list))
  {
    forall k | k in KnownKeys(s, m) ensures Encode(s.ByName(k).value.length, m[k]).Some? {
      assert Lists(list, k);
      var i :| 0 <= i < |list| && list[i].key == k;
      assert list[i] in list;
    }
    forall i | 0 <= i < |list| ensures EncodedEntries(list)[i] == ItemsFor(s, m, KeysOf(list))[i] {
      assert list[i] in list && KeysOf(list)[i] in KeysOf(list);
    }
  }
}
