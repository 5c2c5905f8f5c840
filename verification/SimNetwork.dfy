/** The simulated network (mocksbr/network.go, mocksbr/handlers.go) as functions of its state, and
    what every one of its operations keeps. The i-th packet handed to the network reads the clock
    once, as clock(i); nothing is assumed of the clock. */
module SimNetwork {
  import opened Bytes
  import opened Decimal
  import opened Parameters
  import opened Wire
  import opened SimDevice
  import MacText

  datatype ScheduledReply = ScheduledReply(bytes: seq<byte>, delay: nat)

  datatype NetState = NetState(devices: map<text, DeviceState>, order: seq<text>, ticks: nat)

  ghost predicate NoDuplicates(order: seq<text>) {
    forall i, j :: 0 <= i < j < |order| ==> order[i] != order[j]
  }

  /** order lists the keys of devices without repetition, and every device is filed under its own
      lower-case address. */
  ghost predicate Valid(n: NetState) {
    && NoDuplicates(n.order)
    && (forall k :: k in n.order <==> k in n.devices)
    && (forall k :: k in n.devices ==> MacText.LowerColonForm(k) && n.devices[k].cfg.mac == k)
  }

  function ReplyList(d: DeviceState, r: Option<seq<byte>>): seq<ScheduledReply> {
    match r case Some(b) => [ScheduledReply(b, d.cfg.slow)] case None => []
  }

  /** dispatchUnicast */
  function Dispatch(s: Schema, n: NetState, now: nat, op: Op, req: Packet, payload: seq<byte>)
    : (NetState, seq<ScheduledReply>)
  {
    var mac := MacText.MacString(req.dstAddress);
    if mac !in n.devices then (n, [])
    else
      var (d, r) := Serve(s, n.devices[mac], now, op, req, payload);
      (n.(devices := n.devices[mac := d]), ReplyList(d, r))
  }

  /** One turn of the loop of handleDiscovery. */
  function Visit(n: NetState, mac: text, now: nat, req: Packet): NetState {
    if mac in n.devices then n.(devices := n.devices[mac := ServeDiscovery(n.devices[mac], now, req).0]) else n
  }

  function VisitReplies(n: NetState, mac: text, now: nat, req: Packet): seq<ScheduledReply> {
    if mac in n.devices then ReplyList(n.devices[mac], ServeDiscovery(n.devices[mac], now, req).1) else []
  }

  /** handleDiscovery over the first k devices in insertion order: the network and the replies. */
  function Discover(n: NetState, k: nat, now: nat, req: Packet): NetState
    requires k <= |n.order|
  {
    if k == 0 then n else Visit(Discover(n, k - 1, now, req), n.order[k - 1], now, req)
  }

  function DiscoverReplies(n: NetState, k: nat, now: nat, req: Packet): seq<ScheduledReply>
    requires k <= |n.order|
  {
    if k == 0 then []
    else DiscoverReplies(n, k - 1, now, req) + VisitReplies(Discover(n, k - 1, now, req), n.order[k - 1], now, req)
  }

  /** ReceiveScheduled */
  function Receive(s: Schema, clock: nat -> nat, n: NetState, bytes: seq<byte>): (NetState, seq<ScheduledReply>) {
    var now := clock(n.ticks);
    var m := n.(ticks := n.ticks + 1);
    match ParsePacket(bytes)
    case None => (m, [])
    case Some((req, payload)) =>
      if req.ucpMethod == DISCOVER || req.ucpMethod == ADV_DISC
      then (Discover(m, |m.order|, now, req), DiscoverReplies(m, |m.order|, now, req))
      else
        match OpOf(req.ucpMethod)
        case None => (m, [])
        case Some(op) => Dispatch(s, m, now, op, req, payload)
  }

  /** Add: the new state, or no state on an invalid or duplicate address. */
  function Add(s: Schema, n: NetState, cfg: Config): Option<NetState> {
    var mac := MacText.ToLower(cfg.mac);
    if !MacText.ColonForm(cfg.mac) || mac in n.devices then None
    else Some(n.(devices := n.devices[mac := NewDevice(s, cfg.(mac := mac))], order := n.order + [mac]))
  }

  /** RemoveAuto: the address removed, or "" when there is no such position. */
  function RemoveAuto(n: NetState, idx: int): (NetState, text) {
    if idx < 1 || idx > |n.order| then (n, [])
    else
      var mac := n.order[idx - 1];
      (n.(devices := map k | k in n.devices && k != mac :: n.devices[k],
          order := n.order[..idx - 1] + n.order[idx..]), mac)
  }

  /** The address of the i-th automatic device. */
  function AutoMac(i: nat): text
    requires i < 256
  {
    MacText.MacString([0x00, 0x04, 0x20, 0x00, 0x00, i])
  }

  /** fmt.Sprintf("mock-sbr-%03d", i) */
  function AutoUuid(i: nat): text {
    Ascii("mock-sbr-") + seq(if |Dec(i)| < 3 then 3 - |Dec(i)| else 0, _ => DIGIT0) + Dec(i)
  }

  /** autoConfig */
  function AutoConfig(i: nat): Config
    requires i < 256
  {
    Config(AutoMac(i), [], [], [], [], [], AutoUuid(i), [], [], [], map[], {}, 0, false, 0,
           false, false, false, false, map[], MalformedNone)
  }

  /** NewNetwork; autoConfig panics beyond 255 devices. */
  function NewNetwork(s: Schema, n: nat): NetState
    requires n < 256
  {
    if n == 0 then NetState(map[], [], 0)
    else
      var net := NewNetwork(s, n - 1);
      net.(devices := net.devices[AutoMac(n) := NewDevice(s, AutoConfig(n))], order := net.order + [AutoMac(n)])
  }

  lemma AutoMacsDiffer(i: nat, j: nat)
    requires i < 256 && j < 256 && AutoMac(i) == AutoMac(j)
    ensures i == j
  {
    MacText.MacOfString([0x00, 0x04, 0x20, 0x00, 0x00, i]);
    MacText.MacOfString([0x00, 0x04, 0x20, 0x00, 0x00, j]);
  }

  lemma {:induction false} NewNetworkOrder(s: Schema, n: nat)
    requires n < 256
    ensures var net := NewNetwork(s, n);
            |net.order| == n && forall i :: 0 <= i < n ==> net.order[i] == AutoMac(i + 1)
    decreases n
  {
    if n > 0 {
      NewNetworkOrder(s, n - 1);
    }
  }

  /** The automatic devices have different addresses. */
  lemma {:induction false} NewNetworkIsValid(s: Schema, n: nat)
    requires n < 256
    ensures Valid(NewNetwork(s, n))
    decreases n
  {
    if n > 0 {
      NewNetworkIsValid(s, n - 1);
      NewNetworkOrder(s, n - 1);
      var net := NewNetwork(s, n - 1);
      if AutoMac(n) in net.order {
        var i :| 0 <= i < n - 1 && net.order[i] == AutoMac(n);
        AutoMacsDiffer(i + 1, n);
      }
      FreshKeepsValid(net, AutoMac(n), NewDevice(s, AutoConfig(n)));
    }
  }

  lemma FreshKeepsValid(n: NetState, mac: text, d: DeviceState)
    requires Valid(n) && mac !in n.order && MacText.LowerColonForm(mac) && d.cfg.mac == mac
    ensures Valid(n.(devices := n.devices[mac := d], order := n.order + [mac]))
  {
  }

  // ---- What every operation keeps ----------------------------------------------------------

  /** A configuration never changes. */
  lemma ServeKeepsConfig(s: Schema, d: DeviceState, now: nat, op: Op, req: Packet, payload: seq<byte>)
    ensures Serve(s, d, now, op, req, payload).0.cfg == d.cfg
    ensures ServeDiscovery(d, now, req).0.cfg == d.cfg
  {
  }

  lemma FiledUnder(n: NetState, mac: text)
    requires Valid(n) && mac in n.devices
    ensures n.devices[mac].cfg.mac == mac && MacText.LowerColonForm(mac)
  {
  }

  lemma UpdateKeeps(n: NetState, mac: text, d: DeviceState)
    requires Valid(n) && mac in n.devices && d.cfg == n.devices[mac].cfg
    ensures var m := n.(devices := n.devices[mac := d]); Valid(m) && m.devices.Keys == n.devices.Keys
  {
  }

  lemma VisitKeeps(n: NetState, mac: text, now: nat, req: Packet)
    requires Valid(n)
    ensures var m := Visit(n, mac, now, req);
            Valid(m) && m.order == n.order && m.ticks == n.ticks && m.devices.Keys == n.devices.Keys
  {
    if mac in n.devices {
      UpdateKeeps(n, mac, ServeDiscovery(n.devices[mac], now, req).0);
    }
  }

  lemma {:induction false} DiscoverKeeps(n: NetState, k: nat, now: nat, req: Packet)
    requires Valid(n) && k <= |n.order|
    ensures var m := Discover(n, k, now, req);
            Valid(m) && m.order == n.order && m.ticks == n.ticks && m.devices.Keys == n.devices.Keys
    decreases k
  {
    if k > 0 {
      DiscoverKeeps(n, k - 1, now, req);
      VisitKeeps(Discover(n, k - 1, now, req), n.order[k - 1], now, req);
    }
  }

  lemma DispatchKeeps(s: Schema, n: NetState, now: nat, op: Op, req: Packet, payload: seq<byte>)
    requires Valid(n)
    ensures var m := Dispatch(s, n, now, op, req, payload).0; Valid(m) && m.order == n.order
  {
    var mac := MacText.MacString(req.dstAddress);
    if mac in n.devices {
      ServeKeepsConfig(s, n.devices[mac], now, op, req, payload);
      UpdateKeeps(n, mac, Serve(s, n.devices[mac], now, op, req, payload).0);
    }
  }

  predicate IsDiscovery(req: Packet) {
    req.ucpMethod == DISCOVER || req.ucpMethod == ADV_DISC
  }

  /** The two ways in which a packet that parses is handled. */
  lemma ReceiveDiscovers(s: Schema, clock: nat -> nat, n: NetState, bytes: seq<byte>, req: Packet, payload: seq<byte>)
    requires ParsePacket(bytes) == Some((req, payload)) && IsDiscovery(req)
    ensures var m, now := n.(ticks := n.ticks + 1), clock(n.ticks);
            Receive(s, clock, n, bytes) == (Discover(m, |m.order|, now, req), DiscoverReplies(m, |m.order|, now, req))
  {
  }

  lemma ReceiveDispatches(s: Schema, clock: nat -> nat, n: NetState, bytes: seq<byte>, req: Packet, payload: seq<byte>, op: Op)
    requires ParsePacket(bytes) == Some((req, payload)) && OpOf(req.ucpMethod) == Some(op)
    ensures Receive(s, clock, n, bytes) == Dispatch(s, n.(ticks := n.ticks + 1), clock(n.ticks), op, req, payload)
  {
  }

  lemma ReceiveIgnores(s: Schema, clock: nat -> nat, n: NetState, bytes: seq<byte>)
    requires match ParsePacket(bytes)
             case None => true
             case Some((req, payload)) => !IsDiscovery(req) && OpOf(req.ucpMethod).None?
    ensures Receive(s, clock, n, bytes) == (n.(ticks := n.ticks + 1), [])
  {
  }

  lemma ReceiveKeepsValid(s: Schema, clock: nat -> nat, n: NetState, bytes: seq<byte>)
    requires Valid(n)
    ensures Valid(Receive(s, clock, n, bytes).0)
    ensures Receive(s, clock, n, bytes).0.order == n.order
  {
    var m, now, parsed := n.(ticks := n.ticks + 1), clock(n.ticks), ParsePacket(bytes);
    if parsed.Some? && IsDiscovery(parsed.value.0) {
      ReceiveDiscovers(s, clock, n, bytes, parsed.value.0, parsed.value.1);
      DiscoverKeeps(m, |m.order|, now, parsed.value.0);
    } else if parsed.Some? && OpOf(parsed.value.0.ucpMethod).Some? {
      var op := OpOf(parsed.value.0.ucpMethod).value;
      ReceiveDispatches(s, clock, n, bytes, parsed.value.0, parsed.value.1, op);
      DispatchKeeps(s, m, now, op, parsed.value.0, parsed.value.1);
    } else {
      ReceiveIgnores(s, clock, n, bytes);
    }
  }

  lemma AddSucceeds(s: Schema, n: NetState, cfg: Config, mac: text) returns (m: NetState)
    requires Valid(n) && MacText.ColonForm(cfg.mac) && mac == MacText.ToLower(cfg.mac) && mac !in n.devices
    ensures m == n.(devices := n.devices[mac := NewDevice(s, cfg.(mac := mac))], order := n.order + [mac])
    ensures Add(s, n, cfg) == Some(m) && Valid(m)
  {
    m := n.(devices := n.devices[mac := NewDevice(s, cfg.(mac := mac))], order := n.order + [mac]);
    AddKeepsValid(s, n, cfg);
  }

  lemma AddKeepsValid(s: Schema, n: NetState, cfg: Config)
    requires Valid(n) && Add(s, n, cfg).Some?
    ensures Valid(Add(s, n, cfg).value)
  {
  }

  lemma RemoveKeepsValid(n: NetState, idx: int)
    requires Valid(n)
    ensures Valid(RemoveAuto(n, idx).0)
  {
    if 1 <= idx <= |n.order| {
      var order := n.order[..idx - 1] + n.order[idx..];
      forall k ensures k in order <==> k in n.devices && k != n.order[idx - 1] {
        if k in n.order && k != n.order[idx - 1] {
          var i :| 0 <= i < |n.order| && n.order[i] == k;
          assert order[if i < idx - 1 then i else i - 1] == k;
        }
      }
    }
  }

  /** What can be done to a network. */
  datatype NetOp = AddOp(cfg: Config) | RemoveOp(idx: int) | ReceiveOp(bytes: seq<byte>)

  function NetStep(s: Schema, clock: nat -> nat, n: NetState, op: NetOp): NetState {
    match op
    case AddOp(cfg) => (match Add(s, n, cfg) case Some(m) => m case None => n)
    case RemoveOp(idx) => RemoveAuto(n, idx).0
    case ReceiveOp(bytes) => Receive(s, clock, n, bytes).0
  }

  function NetRun(s: Schema, clock: nat -> nat, n: NetState, ops: seq<NetOp>): NetState
    decreases |ops|
  {
    if ops == [] then n else NetRun(s, clock, NetStep(s, clock, n, ops[0]), ops[1..])
  }

  /** Over any run, order is a duplicate-free listing of the devices, each under its own address. */
  lemma {:induction false} NetRunKeepsValid(s: Schema, clock: nat -> nat, n: NetState, ops: seq<NetOp>)
    requires Valid(n)
    ensures Valid(NetRun(s, clock, n, ops))
    decreases |ops|
  {
    if ops != [] {
      match ops[0] {
        case AddOp(cfg) => if Add(s, n, cfg).Some? { AddKeepsValid(s, n, cfg); }
        case RemoveOp(idx) => RemoveKeepsValid(n, idx);
        case ReceiveOp(bytes) => ReceiveKeepsValid(s, clock, n, bytes);
      }
      NetRunKeepsValid(s, clock, NetStep(s, clock, n, ops[0]), ops[1..]);
    }
  }

  // ---- Dispatch ------------------------------------------------------------------------

  /** A reply a client can attribute: it parses, echoes the request's sequence number, swaps the
      addresses, and is not taken for a request. */
  ghost predicate AnswersRequest(reply: seq<byte>, req: Packet, from: mac) {
    && ParsePacket(reply).Some?
    && ParsePacket(reply).value.0.sequence == req.sequence
    && ParsePacket(reply).value.0.srcAddress == from
    && ParsePacket(reply).value.0.dstAddress == req.srcAddress
    && !IsRequestPacket(reply)
  }

  lemma ReplyAnswers(d: DeviceState, req: Packet, ucpMethod: uint16, payload: seq<byte>, m: mac)
    requires d.cfg.mac == MacText.MacString(m)
    ensures AnswersRequest(Reply(d, req, ucpMethod, payload), req, m)
    ensures ParsePacket(Reply(d, req, ucpMethod, payload)) == Some((ReplyHeader(req, d.cfg.mac, ucpMethod), payload))
  {
    var h := ReplyHeader(req, d.cfg.mac, ucpMethod);
    MacText.MacOfString(m);
    assert MacText.MacString(m)[..17] == MacText.MacString(m);
    ParseExactly(Reply(d, req, ucpMethod, payload), h, payload);
    RequestBitOfEncode(h, payload);
  }

  lemma ServeAnswers(s: Schema, d: DeviceState, now: nat, op: Op, req: Packet, payload: seq<byte>, m: mac)
    requires d.cfg.mac == MacText.MacString(m)
    ensures var r := Serve(s, d, now, op, req, payload).1; r.Some? ==> AnswersRequest(r.value, req, m)
  {
    var (d', r) := Serve(s, d, now, op, req, payload);
    if r.Some? {
      var h, data := DecodeHeader(r.value), r.value[HEADER_SIZE..];
      var up := AfterRebootCheck(d, now);
      forall um, p ensures AnswersRequest(Reply(up, req, um, p), req, m) {
        ReplyAnswers(up, req, um, p, m);
      }
    }
  }

  /** A unicast request changes no device but the addressed one, gets at most one reply, and the
      reply answers it. */
  lemma UnicastFrame(s: Schema, clock: nat -> nat, n: NetState, req: Packet, payload: seq<byte>)
    requires Valid(n) && req.udapType == TYPE_UCP && OpOf(req.ucpMethod).Some?
    ensures var (m, replies) := Receive(s, clock, n, EncodeHeader(req) + payload);
            var target := MacText.MacString(req.dstAddress);
            && m.order == n.order
            && (forall k :: k in n.devices && k != target ==> k in m.devices && m.devices[k] == n.devices[k])
            && (forall k :: k in m.devices ==> k in n.devices)
            && |replies| <= 1
            && (target !in n.devices ==> m.devices == n.devices && replies == [])
            && (replies != [] ==> AnswersRequest(replies[0].bytes, req, req.dstAddress))
  {
    ParseExactly(EncodeHeader(req) + payload, req, payload);
    var target := MacText.MacString(req.dstAddress);
    if target in n.devices {
      ServeAnswers(s, n.devices[target], clock(n.ticks), OpOf(req.ucpMethod).value, req, payload, req.dstAddress);
    }
  }

  lemma SilentInWindow(s: Schema, d: DeviceState, now: nat, op: Op, req: Packet, payload: seq<byte>)
    requires InRebootWindow(d, now)
    ensures Serve(s, d, now, op, req, payload) == (d, None)
    ensures ServeDiscovery(d, now, req) == (d, None)
  {
  }

  predicate IsEligible(d: DeviceState, now: nat) {
    !d.cfg.unreachable && !FailsOn(d.cfg, OpDiscover) && !InRebootWindow(d, now)
  }

  /** The devices that answer a discovery, in insertion order. */
  function Eligible(n: NetState, k: nat, now: nat): seq<text>
    requires k <= |n.order|
  {
    if k == 0 then [] else Eligible(n, k - 1, now) + EligibleAt(n, k - 1, now)
  }

  function EligibleAt(n: NetState, i: nat, now: nat): seq<text>
    requires i < |n.order|
  {
    if n.order[i] in n.devices && IsEligible(n.devices[n.order[i]], now) then [n.order[i]] else []
  }

  lemma {:induction false} DiscoverUntouched(n: NetState, k: nat, now: nat, req: Packet, i: nat)
    requires Valid(n) && k <= i < |n.order|
    ensures n.order[i] in n.devices && n.order[i] in Discover(n, k, now, req).devices
    ensures Discover(n, k, now, req).devices[n.order[i]] == n.devices[n.order[i]]
    decreases k
  {
    assert n.order[i] in n.order;
    if k > 0 {
      DiscoverUntouched(n, k - 1, now, req, i);
      assert n.order[k - 1] != n.order[i];
    }
  }

  /** Replies and addresses correspond one to one. */
  ghost predicate Paired(answers: (ScheduledReply, text) -> bool, replies: seq<ScheduledReply>, macs: seq<text>) {
    |replies| == |macs| && forall i :: 0 <= i < |macs| ==> answers(replies[i], macs[i])
  }

  lemma PairedConcat(answers: (ScheduledReply, text) -> bool,
                     r1: seq<ScheduledReply>, m1: seq<text>, r2: seq<ScheduledReply>, m2: seq<text>)
    requires Paired(answers, r1, m1) && Paired(answers, r2, m2)
    ensures Paired(answers, r1 + r2, m1 + m2)
  {
  }

  /** The reply answers req and comes from the device of this address. */
  ghost function AnswersTo(req: Packet): (ScheduledReply, text) -> bool {
    (r: ScheduledReply, m: text) => AnswersRequest(r.bytes, req, AddressOf(m))
  }

  /** What the device at one place in the order answers, left to itself. */
  function AnswerOf(n: NetState, i: nat, now: nat, req: Packet): seq<ScheduledReply>
    requires i < |n.order|
  {
    if n.order[i] in n.devices
    then ReplyList(n.devices[n.order[i]], ServeDiscovery(n.devices[n.order[i]], now, req).1) else []
  }

  function Gathered(n: NetState, k: nat, now: nat, req: Packet): seq<ScheduledReply>
    requires k <= |n.order|
  {
    if k == 0 then [] else Gathered(n, k - 1, now, req) + AnswerOf(n, k - 1, now, req)
  }

  lemma NextAnswer(n: NetState, k: nat, now: nat, req: Packet)
    requires Valid(n) && 0 < k <= |n.order|
    ensures VisitReplies(Discover(n, k - 1, now, req), n.order[k - 1], now, req) == AnswerOf(n, k - 1, now, req)
  {
    DiscoverUntouched(n, k - 1, now, req, k - 1);
  }

  lemma NextReply(n: NetState, k: nat, now: nat, req: Packet)
    requires Valid(n) && 0 < k <= |n.order|
    ensures DiscoverReplies(n, k, now, req) == DiscoverReplies(n, k - 1, now, req) + AnswerOf(n, k - 1, now, req)
  {
    NextAnswer(n, k, now, req);
  }

  /** Earlier visits do not touch the devices visited later. */
  lemma RepliesAreGathered(n: NetState, now: nat, req: Packet)
    requires Valid(n)
    ensures DiscoverReplies(n, |n.order|, now, req) == Gathered(n, |n.order|, now, req)
  {
    forall j: nat | 0 < j <= |n.order| ensures AddsAnswer(n, j, now, req) {
      NextReply(n, j, now, req);
    }
    GatherAll(n, |n.order|, now, req);
  }

  ghost predicate AddsAnswer(n: NetState, k: nat, now: nat, req: Packet)
    requires 0 < k <= |n.order|
  {
    DiscoverReplies(n, k, now, req) == DiscoverReplies(n, k - 1, now, req) + AnswerOf(n, k - 1, now, req)
  }

  lemma {:induction false} GatherAll(n: NetState, k: nat, now: nat, req: Packet)
    requires k <= |n.order| && forall j: nat :: 0 < j <= |n.order| ==> AddsAnswer(n, j, now, req)
    ensures DiscoverReplies(n, k, now, req) == Gathered(n, k, now, req)
    decreases k
  {
    if k > 0 {
      GatherAll(n, k - 1, now, req);
      assert AddsAnswer(n, k, now, req);
    }
  }

  lemma AnswerFansOut(n: NetState, i: nat, now: nat, req: Packet)
    requires Valid(n) && i < |n.order|
    ensures Paired(AnswersTo(req), AnswerOf(n, i, now, req), EligibleAt(n, i, now))
  {
    assert n.order[i] in n.order;
    FiledUnder(n, n.order[i]);
    AnswerIsPaired(n.devices[n.order[i]], n.order[i], now, req);
  }

  lemma AnswerIsPaired(d: DeviceState, mac: text, now: nat, req: Packet)
    requires d.cfg.mac == mac && MacText.LowerColonForm(mac)
    ensures Paired(AnswersTo(req), ReplyList(d, ServeDiscovery(d, now, req).1), if IsEligible(d, now) then [mac] else [])
  {
    MacText.StringOfMac(mac);
    assert mac[..17] == mac;
    var up := AfterRebootCheck(d, now);
    forall um, p ensures AnswersRequest(Reply(up, req, um, p), req, AddressOf(mac)) {
      ReplyAnswers(up, req, um, p, MacText.MacOf(mac));
    }
  }

  lemma {:induction false} GatheredPairs(answers: (ScheduledReply, text) -> bool, n: NetState, k: nat, now: nat, req: Packet)
    requires k <= |n.order|
    requires forall i: nat :: i < |n.order| ==> Paired(answers, AnswerOf(n, i, now, req), EligibleAt(n, i, now))
    ensures Paired(answers, Gathered(n, k, now, req), Eligible(n, k, now))
    decreases k
  {
    if k > 0 {
      GatheredPairs(answers, n, k - 1, now, req);
      PairedConcat(answers, Gathered(n, k - 1, now, req), Eligible(n, k - 1, now),
                   AnswerOf(n, k - 1, now, req), EligibleAt(n, k - 1, now));
    }
  }

  /** Discovery yields one reply per eligible device, in insertion order, each from that device. */
  lemma DiscoveryFansOut(n: NetState, now: nat, req: Packet)
    requires Valid(n)
    ensures Paired(AnswersTo(req), DiscoverReplies(n, |n.order|, now, req), Eligible(n, |n.order|, now))
  {
    RepliesAreGathered(n, now, req);
    forall i: nat | i < |n.order| ensures Paired(AnswersTo(req), AnswerOf(n, i, now, req), EligibleAt(n, i, now)) {
      AnswerFansOut(n, i, now, req);
    }
    GatheredPairs(AnswersTo(req), n, |n.order|, now, req);
  }

  // ---- Reboot windows --------------------------------------------------------------------

  /** The reply parses and was sent by another device. */
  ghost predicate FromOther(r: ScheduledReply, mac: text) {
    ParsePacket(r.bytes).Some? && ParsePacket(r.bytes).value.0.srcAddress != AddressOf(mac)
  }

  lemma AddressesDiffer(a: text, b: text)
    requires MacText.LowerColonForm(a) && MacText.LowerColonForm(b) && AddressOf(a) == AddressOf(b)
    ensures a == b
  {
    assert a[..17] == a && b[..17] == b;
    MacText.StringOfMac(a);
    MacText.StringOfMac(b);
  }

  lemma {:induction false} DiscoverSpares(n: NetState, k: nat, now: nat, req: Packet, mac: text)
    requires k <= |n.order| && mac in n.devices && InRebootWindow(n.devices[mac], now)
    ensures mac in Discover(n, k, now, req).devices && Discover(n, k, now, req).devices[mac] == n.devices[mac]
    decreases k
  {
    if k > 0 {
      DiscoverSpares(n, k - 1, now, req, mac);
    }
  }

  lemma {:induction false} EligibleAre(n: NetState, k: nat, now: nat, i: nat)
    requires k <= |n.order| && i < |Eligible(n, k, now)|
    ensures var mac := Eligible(n, k, now)[i]; mac in n.devices && IsEligible(n.devices[mac], now)
    decreases k
  {
    if i < |Eligible(n, k - 1, now)| {
      EligibleAre(n, k - 1, now, i);
    }
  }

  lemma DiscoveryFromOthers(n: NetState, now: nat, req: Packet, mac: text)
    requires Valid(n) && mac in n.devices && InRebootWindow(n.devices[mac], now)
    ensures forall r :: r in DiscoverReplies(n, |n.order|, now, req) ==> FromOther(r, mac)
  {
    DiscoveryFansOut(n, now, req);
    var replies, macs := DiscoverReplies(n, |n.order|, now, req), Eligible(n, |n.order|, now);
    forall i | 0 <= i < |replies| ensures FromOther(replies[i], mac) {
      assert AnswersTo(req)(replies[i], macs[i]);
      EligibleAre(n, |n.order|, now, i);
      FiledUnder(n, mac);
      FiledUnder(n, macs[i]);
      if AddressOf(macs[i]) == AddressOf(mac) {
        AddressesDiffer(macs[i], mac);
      }
    }
  }

  lemma DispatchSpares(s: Schema, n: NetState, now: nat, op: Op, req: Packet, payload: seq<byte>, mac: text)
    requires Valid(n) && mac in n.devices && InRebootWindow(n.devices[mac], now)
    ensures var (m, replies) := Dispatch(s, n, now, op, req, payload);
            && mac in m.devices && m.devices[mac] == n.devices[mac]
            && forall r :: r in replies ==> FromOther(r, mac)
  {
    var target := MacText.MacString(req.dstAddress);
    if target == mac {
      SilentInWindow(s, n.devices[mac], now, op, req, payload);
    } else if target in n.devices {
      ServeAnswers(s, n.devices[target], now, op, req, payload, req.dstAddress);
      FiledUnder(n, mac);
      FiledUnder(n, target);
      MacText.StringOfMac(mac);
      assert mac[..17] == mac;
    }
  }

  /** Whatever bytes the network receives, a device inside its reboot window keeps its whole state, and
      no reply comes from it. */
  lemma WindowIsSilent(s: Schema, clock: nat -> nat, n: NetState, bytes: seq<byte>, mac: text)
    requires Valid(n) && mac in n.devices && InRebootWindow(n.devices[mac], clock(n.ticks))
    ensures var (m, replies) := Receive(s, clock, n, bytes);
            && mac in m.devices && m.devices[mac] == n.devices[mac]
            && forall r :: r in replies ==> FromOther(r, mac)
  {
    var m, now, parsed := n.(ticks := n.ticks + 1), clock(n.ticks), ParsePacket(bytes);
    if parsed.Some? && IsDiscovery(parsed.value.0) {
      ReceiveDiscovers(s, clock, n, bytes, parsed.value.0, parsed.value.1);
      DiscoverSpares(m, |m.order|, now, parsed.value.0, mac);
      DiscoveryFromOthers(m, now, parsed.value.0, mac);
    } else if parsed.Some? && OpOf(parsed.value.0.ucpMethod).Some? {
      var op := OpOf(parsed.value.0.ucpMethod).value;
      ReceiveDispatches(s, clock, n, bytes, parsed.value.0, parsed.value.1, op);
      DispatchSpares(s, m, now, op, parsed.value.0, parsed.value.1, mac);
    } else {
      ReceiveIgnores(s, clock, n, bytes);
    }
  }

  /** The network after several packets, and all it answered. */
  function ReceiveAll(s: Schema, clock: nat -> nat, n: NetState, packets: seq<seq<byte>>): (NetState, seq<ScheduledReply>)
    decreases |packets|
  {
    if packets == [] then (n, [])
    else
      var (m, replies) := Receive(s, clock, n, packets[0]);
      var (last, more) := ReceiveAll(s, clock, m, packets[1..]);
      (last, replies + more)
  }

  /** The next n packets arrive before the device's deadline. */
  predicate InsideFor(d: DeviceState, clock: nat -> nat, ticks: nat, n: nat)
    decreases n
  {
    n == 0 || (InRebootWindow(d, clock(ticks)) && InsideFor(d, clock, ticks + 1, n - 1))
  }

  /** The same over any run of packets that arrive before the deadline. */
  lemma {:induction false} WindowIsSilentThroughout(s: Schema, clock: nat -> nat, n: NetState, packets: seq<seq<byte>>, mac: text)
    requires Valid(n) && mac in n.devices && InsideFor(n.devices[mac], clock, n.ticks, |packets|)
    ensures var (m, replies) := ReceiveAll(s, clock, n, packets);
            && mac in m.devices && m.devices[mac] == n.devices[mac]
            && forall r :: r in replies ==> FromOther(r, mac)
    decreases |packets|
  {
    if packets != [] {
      var m := Receive(s, clock, n, packets[0]).0;
      WindowIsSilent(s, clock, n, packets[0], mac);
      ReceiveKeepsValid(s, clock, n, packets[0]);
      ReceiveCounts(s, clock, n, packets[0]);
      WindowIsSilentThroughout(s, clock, m, packets[1..], mac);
    }
  }

  lemma {:induction false} DiscoverCounts(n: NetState, k: nat, now: nat, req: Packet)
    requires k <= |n.order|
    ensures Discover(n, k, now, req).ticks == n.ticks
    decreases k
  {
    if k > 0 {
      DiscoverCounts(n, k - 1, now, req);
    }
  }

  /** Every packet counts once. */
  lemma ReceiveCounts(s: Schema, clock: nat -> nat, n: NetState, bytes: seq<byte>)
    ensures Receive(s, clock, n, bytes).0.ticks == n.ticks + 1
  {
    match ParsePacket(bytes) {
      case None =>
      case Some((req, payload)) =>
        var m := n.(ticks := n.ticks + 1);
        DiscoverCounts(m, |m.order|, clock(n.ticks), req);
    }
  }
}
