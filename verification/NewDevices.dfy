/** What a newly added or overriding device holds and what is seen of it from outside: by a client
    that reads it and by one that discovers it. */
module NewDevices {
  import opened Bytes
  import opened Decimal
  import opened Parameters
  import opened SimDevice
  import opened SimNetwork
  import opened ClientProtocol
  import opened LockStep
  import opened ReadModifyWrite
  import opened ReadContents
  import opened Overrides
  import opened Discovery
  import HexText
  import Items
  import Tlv
  import MacText

  // ---- What it holds -------------------------------------------------------------------

  /** The value a device with these settings starts with: its name, if it has one, as the host name;
      else what the settings say; else the default of the table. */
  function InitialValue(s: Schema, cfg: Config, n: text): Option<text> {
    if n == Ascii("hostname") && cfg.name != [] then Some(cfg.name)
    else if n in cfg.nvram then Some(cfg.nvram[n])
    else if n in s.Names() then Some(s.Get(n).factoryDefault)
    else None
  }

  ghost predicate Stores(s: Schema, cfg: Config, memory: map<text, text>) {
    forall n :: (n in memory <==> InitialValue(s, cfg, n).Some?) && (n in memory ==> InitialValue(s, cfg, n) == Some(memory[n]))
  }

  function Given(value: text, otherwise: string): text {
    if value == [] then Ascii(otherwise) else value
  }

  /** A new device with these settings, whatever its address and identifier: both memories hold the
      initial values, it is not rebooting, and what the settings leave out is that of a Squeezebox. */
  ghost predicate IsNew(s: Schema, cfg: Config, d: DeviceState) {
    && Stores(s, cfg, d.working) && Stores(s, cfg, d.nvram) && d.rebootDeadline == None
    && d.cfg.name == cfg.name && d.cfg.nvram == cfg.nvram
    && d.cfg.model == Given(cfg.model, "squeezebox") && d.cfg.deviceId == Given(cfg.deviceId, "07")
    && d.cfg.firmware == Given(cfg.firmware, "77") && d.cfg.hardware == Given(cfg.hardware, "0005")
    && d.cfg.rebootDelay == (if cfg.rebootDelay == 0 then 100 else cfg.rebootDelay)
    && d.cfg.ip == cfg.ip && d.cfg.subnetMask == cfg.subnetMask && d.cfg.gateway == cfg.gateway
    && d.cfg.failOn == cfg.failOn && d.cfg.slow == cfg.slow && d.cfg.unreachable == cfg.unreachable
    && d.cfg.dropGetData == cfg.dropGetData && d.cfg.dropGetIP == cfg.dropGetIP && d.cfg.dropGetUUID == cfg.dropGetUUID
    && d.cfg.suppressDiscoveryUUID == cfg.suppressDiscoveryUUID
    && d.cfg.unknownOffsets == cfg.unknownOffsets && d.cfg.malformed == cfg.malformed
  }

  lemma NewIsNew(s: Schema, cfg: Config)
    ensures IsNew(s, cfg, NewDevice(s, cfg))
    ensures NewDevice(s, cfg).cfg.mac == cfg.mac && NewDevice(s, cfg).cfg.uuid == cfg.uuid
  {
    var d := NewDevice(s, cfg);
    forall n
      ensures n in d.working <==> InitialValue(s, cfg, n).Some?
      ensures n in d.working ==> InitialValue(s, cfg, n) == Some(d.working[n])
    {
    }
  }

  /** Address and identifier apart, nothing changes. */
  lemma NewUnderAddress(s: Schema, cfg: Config, m: text, uuid: text, d: DeviceState)
    requires IsNew(s, cfg.(mac := m, uuid := uuid), d)
    ensures IsNew(s, cfg, d)
  {
    forall n ensures InitialValue(s, cfg.(mac := m, uuid := uuid), n) == InitialValue(s, cfg, n) {
    }
  }

  /** Adding a device: it fails exactly on a malformed or a known address; otherwise the device is new,
      listed last under its address in lower case, and no other device changes. */
  lemma AddedExactly(s: Schema, n: NetState, cfg: Config)
    ensures var k, r := MacText.ToLower(cfg.mac), Add(s, n, cfg);
            && (r.Some? <==> MacText.ColonForm(cfg.mac) && k !in n.devices)
            && (r.Some? ==>
                  && r.value.order == n.order + [k] && r.value.ticks == n.ticks
                  && r.value.devices.Keys == n.devices.Keys + {k}
                  && (forall j :: j in n.devices ==> r.value.devices[j] == n.devices[j])
                  && IsNew(s, cfg, r.value.devices[k])
                  && r.value.devices[k].cfg.mac == k && r.value.devices[k].cfg.uuid == cfg.uuid)
  {
    var k := MacText.ToLower(cfg.mac);
    NewIsNew(s, cfg.(mac := k));
    NewUnderAddress(s, cfg, k, cfg.uuid, NewDevice(s, cfg.(mac := k)));
  }

  /** A three-digit number after a fixed prefix. */
  ghost predicate IsAutoUuid(t: text, i: nat) {
    && |t| == 12 && t[..9] == Ascii("mock-sbr-")
    && AllDigits(t[9..]) && DigitsValue(t[9..]) == i
  }

  lemma AutoUuidIs(i: nat)
    requires i < 1000
    ensures IsAutoUuid(AutoUuid(i), i)
  {
    DecShort(i);
    DigitsOfDec(i);
    var zeros := seq(if |Dec(i)| < 3 then 3 - |Dec(i)| else 0, _ => DIGIT0);
    assert AutoUuid(i)[9..] == zeros + Dec(i);
    LeadingZeros(zeros, Dec(i));
  }

  lemma {:induction false} LeadingZeros(zeros: text, digits: text)
    requires AllDigits(digits) && forall k :: 0 <= k < |zeros| ==> zeros[k] == DIGIT0
    ensures AllDigits(zeros + digits) && DigitsValue(zeros + digits) == DigitsValue(digits)
    decreases |digits| + |zeros|
  {
    var all := zeros + digits;
    if digits != [] {
      assert all[..|all| - 1] == zeros + digits[..|digits| - 1];
      LeadingZeros(zeros, digits[..|digits| - 1]);
    } else if zeros != [] {
      assert all[..|all| - 1] == zeros[..|zeros| - 1] + [];
      LeadingZeros(zeros[..|zeros| - 1], []);
    }
  }

  /** The device an override puts in place, and under which address. */
  ghost predicate PutInPlace(s: Schema, ov: Override, was: text, k: text, d: DeviceState) {
    && k == (if ov.cfg.mac == [] then was else MacText.ToLower(ov.cfg.mac))
    && IsNew(s, ov.cfg, d) && d.cfg.mac == k
    && (if ov.cfg.uuid != [] then d.cfg.uuid == ov.cfg.uuid else ov.idx < 1000 ==> IsAutoUuid(d.cfg.uuid, ov.idx))
  }

  /** An override takes out the device at its position and puts a new one last, which has the address
      of the old one unless it brings its own; no other device changes. */
  lemma OverridePutsNew(s: Schema, net: NetState, ov: Override)
    requires Valid(net) && Replace(s, net, ov).Some?
    ensures 1 <= ov.idx <= |net.order|
    ensures var was, m := net.order[ov.idx - 1], Replace(s, net, ov).value;
            var k := if ov.cfg.mac == [] then was else MacText.ToLower(ov.cfg.mac);
            && m.order == net.order[..ov.idx - 1] + net.order[ov.idx..] + [k]
            && k in m.devices && PutInPlace(s, ov, was, k, m.devices[k])
            && (forall j :: j in m.devices && j != k ==> j in net.devices && j != was && m.devices[j] == net.devices[j])
            && (forall j :: j in net.devices && j != was ==> j in m.devices && m.devices[j] == net.devices[j])
  {
    var was := net.order[ov.idx - 1];
    assert was in net.order;
    LowerIsFixed(was);
    var rest := RemoveAuto(net, ov.idx).0;
    AddedExactly(s, rest, Filled(ov, was));
    FilledIsNew(s, ov, was, Replace(s, net, ov).value.devices[MacText.ToLower(Filled(ov, was).mac)]);
  }

  lemma FilledIsNew(s: Schema, ov: Override, was: text, d: DeviceState)
    requires IsNew(s, Filled(ov, was), d) && d.cfg.uuid == Filled(ov, was).uuid
    ensures IsNew(s, ov.cfg, d)
    ensures if ov.cfg.uuid != [] then d.cfg.uuid == ov.cfg.uuid else ov.idx < 1000 ==> IsAutoUuid(d.cfg.uuid, ov.idx)
  {
    NewUnderAddress(s, ov.cfg, Filled(ov, was).mac, Filled(ov, was).uuid, d);
    if ov.idx < 1000 {
      AutoUuidIs(ov.idx);
    }
  }

  /** So what a list of overrides leaves in place of a named device is new. */
  lemma ReplacementIsNew(s: Schema, ov: Override)
    requires ov.idx < 256
    ensures PutInPlace(s, ov, AutoMac(ov.idx), MacFor(ov), Replacement(s, ov))
  {
    var cfg := Filled(ov, AutoMac(ov.idx)).(mac := MacFor(ov));
    NewIsNew(s, cfg);
    NewUnderAddress(s, ov.cfg, cfg.mac, cfg.uuid, Replacement(s, ov));
    AutoUuidIs(ov.idx);
  }

  // ---- What a client reads ---------------------------------------------------------------

  /** What is read back for a stored value: its canonical form, or that of zero bytes if it is no
      value of the parameter. */
  function Shown(length: uint16, value: text): text {
    match Encode(length, value) case Some(b) => Format(b) case None => Format(Zeros(length))
  }

  lemma NewReading(s: Schema, cfg: Config, memory: map<text, text>, n: text)
    requires Stores(s, cfg, memory) && n in s.Names()
    ensures InitialValue(s, cfg, n).Some?
    ensures Reading(s.Get(n), memory) == Shown(s.Get(n).length, InitialValue(s, cfg, n).value)
  {
    assert n in memory;
    EncodersAgree(s.Get(n).length, memory[n]);
  }

  /** A full read of a new device, whatever was cached before, reports its initial values. */
  lemma NewDeviceReads(s: Schema, clock: nat -> nat, w: World, c: Session, cfg: Config, n: text)
    requires s.Valid() && Hosts(w, c) && Quiet(w, c) && ReplyFits(s, cfg) && IsNew(s, cfg, Target(w, c))
    requires n in s.Names()
    ensures var o := GetAll(s, clock, w, c);
            && (o.ok <==> !cfg.unreachable && AnswersReads(cfg))
            && (o.ok ==> InitialValue(s, cfg, n).Some? && n in o.session.cache &&
                         o.session.cache[n] == Shown(s.Get(n).length, InitialValue(s, cfg, n).value))
  {
    FullReadCaches(s, clock, w, c, n);
    NewIsAwake(s, cfg, Target(w, c), clock(w.net.ticks));
    NewReading(s, cfg, Target(w, c).working, n);
  }

  lemma NewIsAwake(s: Schema, cfg: Config, d: DeviceState, now: nat)
    requires IsNew(s, cfg, d)
    ensures (Awake(d, now) <==> !cfg.unreachable) && (AnswersReads(d.cfg) <==> AnswersReads(cfg)) && Memory(d) == d.working
  {
  }

  /** From adding the device to reading it. */
  lemma AddedDeviceReads(s: Schema, clock: nat -> nat, net: NetState, cfg: Config, w: World, c: Session, n: text)
    requires s.Valid() && Add(s, net, cfg) == Some(w.net) && MacText.MacString(c.m) == MacText.ToLower(cfg.mac)
    requires Quiet(w, c) && ReplyFits(s, cfg) && cfg.slow == 0 && n in s.Names()
    ensures var o := GetAll(s, clock, w, c);
            && (o.ok <==> !cfg.unreachable && AnswersReads(cfg))
            && (o.ok ==> InitialValue(s, cfg, n).Some? && n in o.session.cache &&
                         o.session.cache[n] == Shown(s.Get(n).length, InitialValue(s, cfg, n).value))
  {
    AddedExactly(s, net, cfg);
    NewDeviceReads(s, clock, w, c, cfg, n);
  }

  // ---- What a client discovers -------------------------------------------------------------

  /** What is learnt of a new device. */
  ghost predicate Announced(s: Schema, cfg: Config, uuid: text, f: Tlv.DiscoveryFields) {
    var host := match InitialValue(s, cfg, Ascii("hostname")) case Some(v) => v case None => [];
    && f.name == (if host == [] then Ascii("Squeezebox Device") else Cut(host))
    && f.status == Ascii(if host == [] then "init" else "wait_slimserver")
    && f.deviceType == Cut(Given(cfg.model, "squeezebox")) && f.deviceId == Cut(Given(cfg.deviceId, "07"))
    && f.firmware == Cut(Given(cfg.firmware, "77")) && f.hardwareRev == Cut(Given(cfg.hardware, "0005"))
    && (cfg.suppressDiscoveryUUID || uuid == [] ==> f.uuid == [])
    && (!cfg.suppressDiscoveryUUID && |uuid| % 2 == 0 && HexText.AllLowerHex(uuid) && |uuid| <= 510 ==> f.uuid == uuid)
  }

  lemma NewIsAnnounced(s: Schema, cfg: Config, d: DeviceState)
    requires IsNew(s, cfg, d)
    ensures Announced(s, cfg, d.cfg.uuid, Named(Described(d)))
  {
    assert HOSTNAME == Ascii("hostname");
    assert HOSTNAME in d.working <==> InitialValue(s, cfg, HOSTNAME).Some?;
    var uuid := d.cfg.uuid;
    if |uuid| % 2 == 0 && HexText.AllLowerHex(uuid) && |uuid| <= 510 {
      HexText.HexOfDecode(uuid);
      assert Items.Hex([]) == [];
    }
  }

  lemma {:induction false} EligibleHas(n: NetState, k: nat, now: nat, m: text)
    requires k <= |n.order| && m in n.order[..k] && m in n.devices && IsEligible(n.devices[m], now)
    ensures m in Eligible(n, k, now)
    decreases k
  {
    if m in n.order[..k - 1] {
      EligibleHas(n, k - 1, now, m);
    } else {
      assert n.order[..k] == n.order[..k - 1] + [n.order[k - 1]];
    }
  }

  /** What is registered of it. */
  lemma NewIsFound(s: Schema, cfg: Config, d: DeviceState, m: text, now: nat)
    requires IsNew(s, cfg, d) && d.cfg.mac == m && MacText.LowerColonForm(m)
    ensures var f := FoundAt(d, m, now);
            MacText.MacString(f.mac) == m == f.ip && Announced(s, cfg, d.cfg.uuid, f.fields)
  {
    NewIsAnnounced(s, cfg, d);
    MacText.StringOfMac(m);
    assert m[..17] == m;
  }

  lemma WillingIsEligible(n: NetState, m: text, now: nat)
    requires Valid(n) && m in n.devices && n.devices[m].rebootDeadline == None
    ensures m in Eligible(n, |n.order|, now) <==> !n.devices[m].cfg.unreachable && OpDiscover !in n.devices[m].cfg.failOn
  {
    assert n.order[..|n.order|] == n.order;
    if IsEligible(n.devices[m], now) {
      EligibleHas(n, |n.order|, now, m);
    }
    if m in Eligible(n, |n.order|, now) {
      var i :| 0 <= i < |Eligible(n, |n.order|, now)| && Eligible(n, |n.order|, now)[i] == m;
      EligibleAre(n, |n.order|, now, i);
    }
  }

  /** One round of discovery finds a new device exactly when it is reachable and does not refuse
      discovery, and learns its settings, or the usual ones where they are left out. */
  lemma NewDeviceIsDiscovered(s: Schema, clock: nat -> nat, w: World, counter: uint32, known: map<text, Found>, m: text, cfg: Config)
    requires Valid(w.net) && Immediate(w.net) && !w.closed && w.queue == []
    requires m in w.net.devices && IsNew(s, cfg, w.net.devices[m])
    ensures var heard := RegisterAll(known, Send(s, clock, w, DiscoveryBytes(counter)).queue);
            if cfg.unreachable || OpDiscover in cfg.failOn then
              (m in heard <==> m in known) && (m in known ==> m in heard && heard[m] == known[m])
            else
              && m in heard && MacText.MacString(heard[m].mac) == m == heard[m].ip
              && Announced(s, cfg, w.net.devices[m].cfg.uuid, heard[m].fields)
  {
    DiscoveryFindsEligible(s, clock, w, counter, known, m);
    WillingIsEligible(w.net, m, clock(w.net.ticks));
    FiledUnder(w.net, m);
    NewIsFound(s, cfg, w.net.devices[m], m, clock(w.net.ticks));
  }
}
