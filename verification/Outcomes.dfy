/** When requests succeed, in terms of the target's settings, the packets that wait and the clock, and
    what the replies to the remaining requests say. */
module Outcomes {
  import opened Bytes
  import opened Decimal
  import opened Parameters
  import opened Wire
  import opened SimDevice
  import opened SimNetwork
  import opened ClientProtocol
  import opened LockStep
  import opened ReadModifyWrite
  import Collections
  import Discovery
  import HexText
  import opened Items
  import MacText
  import Tlv

  // ---- In lock step --------------------------------------------------------------------

  /** The target is reachable and not inside a reboot window. */
  predicate IsUp(d: DeviceState, now: nat) {
    !d.cfg.unreachable && (d.rebootDeadline == None || d.rebootDeadline.value <= now)
  }

  /** Reads are answered properly unless they are to fail, to be dropped or to be garbled. */
  lemma ReadSucceedsExactly(s: Schema, clock: nat -> nat, w: World, c: Session)
    requires s.Valid() && Hosts(w, c) && Quiet(w, c) && ReplyFits(s, Target(w, c).cfg)
    ensures var d := Target(w, c);
            GetAll(s, clock, w, c).ok <==>
              IsUp(d, clock(w.net.ticks)) && OpGet !in d.cfg.failOn && !d.cfg.dropGetData && d.cfg.malformed == MalformedNone
  {
    GetAllEffect(s, clock, w, c);
  }

  /** Setting and saving share one request, so a device that is to fail on either refuses it. */
  lemma WriteSucceedsExactly(s: Schema, clock: nat -> nat, w: World, c: Session, config: map<text, text>, keys: seq<text>)
    requires s.Valid() && Hosts(w, c) && Quiet(w, c) && Listing(s, c.cache + config, keys)
    ensures var d := Target(w, c);
            Write(s, clock, w, c, config, keys).ok <==>
              IsUp(d, clock(w.net.ticks)) && OpSet !in d.cfg.failOn && OpSave !in d.cfg.failOn && Encodable(s, c.cache + config)
  {
    WriteEffect(s, clock, w, c, config, keys);
  }

  /** A reset is reported as done unless it is refused: one that gets no answer is taken to be under way. */
  lemma ResetSucceedsExactly(s: Schema, clock: nat -> nat, w: World, c: Session)
    requires s.Valid() && Hosts(w, c) && Quiet(w, c)
    ensures var d := Target(w, c);
            Reset(s, clock, w, c).ok <==> !IsUp(d, clock(w.net.ticks)) || OpReset !in d.cfg.failOn
  {
    ResetEffect(s, clock, w, c);
  }

  /** Nothing is sent to the zero address. */
  lemma ZeroAddressIsRefused(s: Schema, clock: nat -> nat, w: World, c: Session, config: map<text, text>, keys: seq<text>)
    requires c.m == [0, 0, 0, 0, 0, 0] && Listing(s, c.cache + config, keys)
    ensures GetAll(s, clock, w, c) == Outcome(w, c, false) == Reset(s, clock, w, c)
    ensures c.cache != map[] ==> Set(s, clock, w, c, config, keys) == Outcome(w, c, false)
    ensures c.cache == map[] ==> !Prelude(s, clock, w, c).ok
  {
  }

  /** Each request takes the next value of the counter, whatever becomes of it. */
  lemma RequestsAreCounted(s: Schema, clock: nat -> nat, w: World, c: Session, regions: seq<Region>)
    requires c.m != ZERO_MAC
    ensures GetConfig(s, clock, w, c, regions).1 == c.(counter := NextSequence(c.counter))
    ensures Reset(s, clock, w, c).session == c.(counter := NextSequence(c.counter))
  {
  }

  lemma WritesAreCounted(s: Schema, clock: nat -> nat, w: World, c: Session, config: map<text, text>, keys: seq<text>)
    requires c.m != ZERO_MAC && Listing(s, c.cache + config, keys)
    ensures Write(s, clock, w, c, config, keys).session.counter == NextSequence(c.counter)
  {
  }

  lemma ReceiveTicks(s: Schema, clock: nat -> nat, n: NetState, bytes: seq<byte>)
    ensures Receive(s, clock, n, bytes).0.ticks == n.ticks + 1
  {
    var m, parsed := n.(ticks := n.ticks + 1), ParsePacket(bytes);
    if parsed.Some? && IsDiscovery(parsed.value.0) {
      DiscoverTicks(m, |m.order|, clock(n.ticks), parsed.value.0);
    }
  }

  lemma {:induction false} DiscoverTicks(n: NetState, k: nat, now: nat, req: Packet)
    requires k <= |n.order|
    ensures Discover(n, k, now, req).ticks == n.ticks
    decreases k
  {
    if k > 0 {
      DiscoverTicks(n, k - 1, now, req);
    }
  }

  lemma {:induction false} EnqueueKeepsNet(w: World, replies: seq<ScheduledReply>)
    ensures Enqueue(w, replies).net == w.net
    decreases |replies|
  {
    if replies != [] {
      var p := Pending(replies[0].bytes, SourceOf(replies[0].bytes));
      EnqueueKeepsNet(if replies[0].delay > 0 then w.(delayed := w.delayed + [p])
                      else if w.closed then w else w.(queue := w.queue + [p]), replies[1..]);
    }
  }

  lemma SendTicksOnce(s: Schema, clock: nat -> nat, w: World, packet: seq<byte>)
    ensures Send(s, clock, w, packet).net.ticks == w.net.ticks + 1
  {
    ReceiveTicks(s, clock, w.net, packet);
    var (net, replies) := Receive(s, clock, w.net, packet);
    EnqueueKeepsNet(w.(net := net), replies);
  }

  lemma {:induction false} SendTicks(s: Schema, clock: nat -> nat, w: World, packet: seq<byte>, n: nat)
    ensures SendTimes(s, clock, w, packet, n).net.ticks == w.net.ticks + n
    decreases n
  {
    if n > 0 {
      SendTicks(s, clock, w, packet, n - 1);
      SendTicksOnce(s, clock, SendTimes(s, clock, w, packet, n - 1), packet);
    }
  }

  /** A request is put on the wire as often as the retries setting says, and once more, whether it is
      answered or not. */
  lemma RequestsAreRepeated(s: Schema, clock: nat -> nat, w: World, c: Session, regions: seq<Region>)
    requires c.m != ZERO_MAC
    ensures GetConfig(s, clock, w, c, regions).0.net.ticks == w.net.ticks + c.retries + 1
    ensures Reset(s, clock, w, c).world.net.ticks == w.net.ticks + c.retries + 1
  {
    var counter := NextSequence(c.counter);
    SendTicks(s, clock, w, GetDataBytes(c.m, counter, regions), c.retries + 1);
    SendTicks(s, clock, w, ResetBytes(c.m, counter), c.retries + 1);
  }

  /** So is a write, unless one of its values does not encode: then nothing is sent. */
  lemma WritesAreRepeated(s: Schema, clock: nat -> nat, w: World, c: Session, config: map<text, text>, keys: seq<text>)
    requires c.m != ZERO_MAC && Listing(s, c.cache + config, keys)
    ensures Write(s, clock, w, c, config, keys).world.net.ticks ==
            w.net.ticks + if Encodable(s, c.cache + config) then c.retries + 1 else 0
  {
    if Encodable(s, c.cache + config) {
      SendTicks(s, clock, w, SetDataBytes(c.m, NextSequence(c.counter), ItemsFor(s, c.cache + config, keys)), c.retries + 1);
    }
  }

  // ---- Slow devices and a closed transport -----------------------------------------------------

  /** The reply of a slow device is set aside; nobody who waits now can take it. */
  lemma SlowReplyIsSetAside(s: Schema, clock: nat -> nat, w: World, c: Session, op: Op, req: Packet, payload: seq<byte>)
    requires MacText.MacString(c.m) in w.net.devices && Target(w, c).cfg.slow > 0
    requires req.dstAddress == c.m && req.udapType == TYPE_UCP && OpOf(req.ucpMethod) == Some(op)
    ensures var (d, r) := Serve(s, Target(w, c), clock(w.net.ticks), op, req, payload);
            Send(s, clock, w, EncodeHeader(req) + payload) ==
            w.(net := Served(w, c, d),
               delayed := w.delayed + (match r case Some(b) => [Pending(b, SourceOf(b))] case None => []))
  {
    var (d, r) := Serve(s, Target(w, c), clock(w.net.ticks), op, req, payload);
    ReceiveServes(s, clock, w, c, op, req, payload);
    SendEnqueues(s, clock, w, EncodeHeader(req) + payload, Served(w, c, d), ReplyList(d, r));
    ServeKeepsConfig(s, Target(w, c), clock(w.net.ticks), op, req, payload);
    EnqueueLater(w.(net := Served(w, c, d)), d, r);
  }

  lemma EnqueueLater(w: World, d: DeviceState, r: Option<seq<byte>>)
    requires d.cfg.slow > 0
    ensures Enqueue(w, ReplyList(d, r)) ==
            w.(delayed := w.delayed + (match r case Some(b) => [Pending(b, SourceOf(b))] case None => []))
  {
    match r {
      case None => assert w.delayed + [] == w.delayed;
      case Some(b) =>
        var replies := [ScheduledReply(b, d.cfg.slow)];
        assert replies[1..] == [];
        assert Enqueue(w, replies) == w.(delayed := w.delayed + [Pending(b, SourceOf(b))]);
    }
  }

  lemma {:induction false} EnqueueKeepsClosed(w: World, replies: seq<ScheduledReply>)
    requires w.closed
    ensures Enqueue(w, replies).closed && Enqueue(w, replies).queue == w.queue
    decreases |replies|
  {
    if replies != [] {
      var p := Pending(replies[0].bytes, SourceOf(replies[0].bytes));
      EnqueueKeepsClosed(if replies[0].delay > 0 then w.(delayed := w.delayed + [p]) else w, replies[1..]);
    }
  }

  lemma {:induction false} SendKeepsClosed(s: Schema, clock: nat -> nat, w: World, packet: seq<byte>, n: nat)
    requires w.closed
    ensures SendTimes(s, clock, w, packet, n).closed
    decreases n
  {
    if n > 0 {
      SendKeepsClosed(s, clock, w, packet, n - 1);
      var sent := SendTimes(s, clock, w, packet, n - 1);
      var (net, replies) := Receive(s, clock, sent.net, packet);
      EnqueueKeepsClosed(sent.(net := net), replies);
    }
  }

  /** On a closed transport no reply is taken: reads and writes fail, and a reset counts as under way. */
  lemma NothingIsReadOnceClosed(s: Schema, clock: nat -> nat, w: World, c: Session, regions: seq<Region>)
    requires w.closed && c.m != ZERO_MAC
    ensures GetConfig(s, clock, w, c, regions).2.None? && Reset(s, clock, w, c).ok
  {
    var counter := NextSequence(c.counter);
    SendKeepsClosed(s, clock, w, GetDataBytes(c.m, counter, regions), c.retries + 1);
    SendKeepsClosed(s, clock, w, ResetBytes(c.m, counter), c.retries + 1);
  }

  lemma NothingIsWrittenOnceClosed(s: Schema, clock: nat -> nat, w: World, c: Session, config: map<text, text>, keys: seq<text>)
    requires w.closed && Listing(s, c.cache + config, keys)
    ensures !Write(s, clock, w, c, config, keys).ok
  {
    if c.m != ZERO_MAC && Encodable(s, c.cache + config) {
      SendKeepsClosed(s, clock, w, SetDataBytes(c.m, NextSequence(c.counter), ItemsFor(s, c.cache + config, keys)), c.retries + 1);
    }
  }

  // ---- What a waiting client takes -----------------------------------------------------------

  /** A packet that parses, names the target as its source, and comes from where the target was found. */
  ghost predicate FromTarget(p: Pending, m: mac, ip: text) {
    && |p.bytes| >= 27 && p.bytes[18] == 0xC0 && p.bytes[19] == 0x01
    && p.bytes[10..16] == m
    && (ip == [] || p.src == ip)
  }

  lemma MatchesExactly(p: Pending, m: mac, ip: text)
    ensures Matches(p, m, ip) <==> FromTarget(p, m, ip)
  {
    if |p.bytes| >= 27 {
      assert Uint16At(p.bytes, 18) == 0xC001 <==> p.bytes[18] == 0xC0 && p.bytes[19] == 0x01;
    }
  }

  /** It takes the first one, whatever it is an answer to, and drops those before it. */
  lemma {:induction false} AwaitTakesFirst(queue: seq<Pending>, m: mac, ip: text, i: nat)
    requires i < |queue| && FromTarget(queue[i], m, ip)
    requires forall j :: 0 <= j < i ==> !FromTarget(queue[j], m, ip)
    ensures Await(queue, m, ip) == (queue[i + 1..], ParsePacket(queue[i].bytes))
    decreases i
  {
    MatchesExactly(queue[0], m, ip);
    if i > 0 {
      assert forall j :: 0 <= j < i - 1 ==> queue[1..][j] == queue[j + 1];
      AwaitTakesFirst(queue[1..], m, ip, i - 1);
    }
  }

  /** With a packet of the target waiting and the target unreachable, a write returns nil exactly for
      three kinds of packet, two of which are no answers to a write. */
  lemma AcknowledgedBy(s: Schema, clock: nat -> nat, w: World, c: Session, config: map<text, text>, keys: seq<text>, p: Pending)
    requires s.Valid() && Hosts(w, c) && Target(w, c).cfg.unreachable && !w.closed && c.retries == 0 && c.m != ZERO_MAC
    requires w.queue == [p] && FromTarget(p, c.m, c.ip)
    requires Encodable(s, c.cache + config) && Listing(s, c.cache + config, keys)
    ensures Write(s, clock, w, c, config, keys).ok <==> p.bytes[25] == 0 && p.bytes[26] in {0x02, 0x05, 0x06}
  {
    var items, counter := ItemsFor(s, c.cache + config, keys), NextSequence(c.counter);
    ListingFits(s, c.cache + config, keys);
    SetDataBytesAre(c.m, counter, items);
    SendUnanswered(s, clock, w, c, OpSet, Request(c.m, SET_DATA, false, counter), SetDataPayload(items));
    AwaitTakesFirst(w.queue, c.m, c.ip, 0);
    MethodOf(p.bytes);
  }

  lemma MethodOf(b: seq<byte>)
    requires |b| >= 27 && ParsePacket(b).Some?
    ensures IsSetAck(ParsePacket(b).value.0.ucpMethod) <==> b[25] == 0 && b[26] in {0x02, 0x05, 0x06}
  {
    assert ParsePacket(b).value.0.ucpMethod == b[25] as int * 256 + b[26] as int;
  }

  lemma SendUnanswered(s: Schema, clock: nat -> nat, w: World, c: Session, op: Op, req: Packet, payload: seq<byte>)
    requires Hosts(w, c) && !w.closed && Target(w, c).cfg.unreachable
    requires req.dstAddress == c.m && req.udapType == TYPE_UCP && OpOf(req.ucpMethod) == Some(op)
    ensures SendTimes(s, clock, w, EncodeHeader(req) + payload, 1) == w.(net := Served(w, c, Target(w, c)))
  {
    var packet := EncodeHeader(req) + payload;
    SendServes(s, clock, w, c, op, req, payload);
    assert SendTimes(s, clock, w, packet, 0) == w;
    assert SendTimes(s, clock, w, packet, 1) == Send(s, clock, w, packet);
    assert w.queue + [] == w.queue;
  }

  // ---- Discovery requests --------------------------------------------------------------------

  /** Both kinds of discovery request, whoever they are addressed to, are answered by every device that
      is reachable, willing and not rebooting, in insertion order; answers come from their devices. */
  lemma BothDiscoveriesFanOut(s: Schema, clock: nat -> nat, n: NetState, req: Packet, payload: seq<byte>)
    requires Valid(n) && req.udapType == TYPE_UCP && req.ucpMethod in {0x0001, 0x0009}
    ensures Paired(AnswersTo(req), Receive(s, clock, n, EncodeHeader(req) + payload).1,
                   Eligible(n, |n.order|, clock(n.ticks)))
  {
    var m, now := n.(ticks := n.ticks + 1), clock(n.ticks);
    ParseExactly(EncodeHeader(req) + payload, req, payload);
    ReceiveDiscovers(s, clock, n, EncodeHeader(req) + payload, req, payload);
    DiscoveryFansOut(m, now, req);
    Discovery.SameEligible(n, m, |n.order|, now);
  }

  /** Only what parses and says it comes from an Ethernet address is registered. */
  lemma OthersAreNotRegistered(known: map<text, Discovery.Found>, p: Pending)
    requires !(|p.bytes| >= 27 && p.bytes[18] == 0xC0 && p.bytes[19] == 0x01 && p.bytes[9] == 1)
    ensures Discovery.Register(known, p) == known
  {
    if |p.bytes| >= 27 {
      assert Uint16At(p.bytes, 18) == 0xC001 <==> p.bytes[18] == 0xC0 && p.bytes[19] == 0x01;
    }
  }

  // ---- Network settings and identifiers ------------------------------------------------------------

  function QuadOrZeros(t: text): (q: seq<byte>)
    ensures |q| == 4
  {
    match ParseQuad(t) case Some(b) => b case None => [0, 0, 0, 0]
  }

  lemma LatestNext(cur: Option<text>, t: Tlv.TlvData, ts: seq<Tlv.TlvData>, tag: byte)
    ensures Tlv.LatestQuad(cur, [t] + ts, tag) == Tlv.LatestQuad(if t.tag == tag && t.length == 4 then Some(t.value) else cur, ts, tag)
  {
    assert ([t] + ts)[1..] == ts;
  }

  lemma LatestOfThree(a: Tlv.TlvData, b: Tlv.TlvData, c: Tlv.TlvData, tag: byte)
    requires a.tag < b.tag < c.tag && a.length == b.length == c.length == 4
    ensures Tlv.LatestQuad(None, [a, b, c], tag) ==
            if tag == a.tag then Some(a.value) else if tag == b.tag then Some(b.value)
            else if tag == c.tag then Some(c.value) else None
  {
    var x := if a.tag == tag then Some(a.value) else None;
    var y := if b.tag == tag then Some(b.value) else x;
    LatestNext(None, a, [b, c], tag);
    LatestNext(x, b, [c], tag);
    LatestNext(y, c, [], tag);
    assert [a] + [b, c] == [a, b, c] && [b] + [c] == [b, c] && [c] + [] == [c];
  }

  function Settings(a: seq<byte>, b: seq<byte>, c: seq<byte>): seq<byte> {
    [5, 4] + a + [6, 4] + b + [7, 4] + c
  }

  lemma SettingsDecode(a: seq<byte>, b: seq<byte>, c: seq<byte>)
    requires |a| == |b| == |c| == 4
    ensures Tlv.Decode(Settings(a, b, c), 0) == [Tlv.TlvData(5, 4, a), Tlv.TlvData(6, 4, b), Tlv.TlvData(7, 4, c)]
  {
    var data, x, y, z := Settings(a, b, c), Tlv.TlvData(5, 4, a), Tlv.TlvData(6, 4, b), Tlv.TlvData(7, 4, c);
    Tlv.EncodeSnoc([], x);
    Tlv.EncodeSnoc([x], y);
    Tlv.EncodeSnoc([x, y], z);
    assert [] + [x] == [x] && [x] + [y] == [x, y] && [x, y] + [z] == [x, y, z];
    assert Tlv.Encode([x, y, z]) == data && data[0..] == data + [];
    Tlv.DecodeOfEncode(data, 0, [x, y, z], []);
  }

  lemma AddressEntry(tag: byte, ip: text)
    ensures IpTlvBytes(tag, ip) == [tag, 4] + QuadOrZeros(ip)
  {
    assert Zeros(4) == [0, 0, 0, 0];
  }

  lemma SettingsJoin(a: seq<byte>, b: seq<byte>, c: seq<byte>)
    ensures ([5, 4] + a) + ([6, 4] + b) + ([7, 4] + c) == Settings(a, b, c)
  {
    Collections.Associates([5, 4] + a, [6, 4], b);
    Collections.Associates([5, 4] + a + [6, 4] + b, [7, 4], c);
  }

  lemma HandlesGetIp(s: Schema, d: DeviceState, now: nat, req: Packet, payload: seq<byte>)
    ensures Handle(s, d, now, OpGetIP, req, payload).1 ==
            if d.cfg.dropGetIP then None
            else Some(Reply(d, req, GET_IP, IpTlvBytes(5, d.cfg.ip) + IpTlvBytes(6, d.cfg.subnetMask) + IpTlvBytes(7, d.cfg.gateway)))
  {
  }

  lemma ServesSettings(s: Schema, d: DeviceState, now: nat, req: Packet, payload: seq<byte>)
    requires IsUp(d, now) && OpGetIP !in d.cfg.failOn
    ensures Serve(s, d, now, OpGetIP, req, payload).1 ==
            if d.cfg.dropGetIP then None
            else Some(Reply(d, req, GET_IP, Settings(QuadOrZeros(d.cfg.ip), QuadOrZeros(d.cfg.subnetMask), QuadOrZeros(d.cfg.gateway))))
  {
    var up := AfterRebootCheck(d, now);
    HandlesGetIp(s, up, now, req, payload);
    AddressEntry(5, d.cfg.ip);
    AddressEntry(6, d.cfg.subnetMask);
    AddressEntry(7, d.cfg.gateway);
    SettingsJoin(QuadOrZeros(d.cfg.ip), QuadOrZeros(d.cfg.subnetMask), QuadOrZeros(d.cfg.gateway));
  }

  /** What a client makes of a network settings reply. */
  ghost predicate TellsSettings(b: seq<byte>, ip: seq<byte>, subnetMask: seq<byte>, gateway: seq<byte>) {
    && ParsePacket(b).Some? && ParsePacket(b).value.0.ucpMethod == 0x0002
    && var entries := Tlv.Decode(ParsePacket(b).value.1, 0);
       && Tlv.LatestQuad(None, entries, 0x05) == Some(ip)
       && Tlv.LatestQuad(None, entries, 0x06) == Some(subnetMask)
       && Tlv.LatestQuad(None, entries, 0x07) == Some(gateway)
  }

  lemma SettingsAreTold(d: DeviceState, req: Packet, m: mac, a: seq<byte>, b: seq<byte>, c: seq<byte>)
    requires d.cfg.mac == MacText.MacString(m) && |a| == |b| == |c| == 4
    ensures TellsSettings(Reply(d, req, GET_IP, Settings(a, b, c)), a, b, c)
  {
    ReplyAnswers(d, req, GET_IP, Settings(a, b, c), m);
    SettingsDecode(a, b, c);
    var x, y, z := Tlv.TlvData(5, 4, a), Tlv.TlvData(6, 4, b), Tlv.TlvData(7, 4, c);
    LatestOfThree(x, y, z, 5);
    LatestOfThree(x, y, z, 6);
    LatestOfThree(x, y, z, 7);
  }

  /** A request that the network has for one of its devices. */
  ghost predicate Reaches(n: NetState, req: Packet, now: nat) {
    && req.udapType == TYPE_UCP && MacText.MacString(req.dstAddress) in n.devices
    && var d := n.devices[MacText.MacString(req.dstAddress)];
       d.cfg.mac == MacText.MacString(req.dstAddress) && IsUp(d, now)
  }

  lemma UnicastReply(s: Schema, clock: nat -> nat, n: NetState, req: Packet, payload: seq<byte>, op: Op)
    requires Reaches(n, req, clock(n.ticks)) && OpOf(req.ucpMethod) == Some(op)
    ensures var d := n.devices[MacText.MacString(req.dstAddress)];
            Receive(s, clock, n, EncodeHeader(req) + payload).1 == ReplyList(d, Serve(s, d, clock(n.ticks), op, req, payload).1)
  {
    ParseExactly(EncodeHeader(req) + payload, req, payload);
    ReceiveDispatches(s, clock, n, EncodeHeader(req) + payload, req, payload, op);
  }

  /** The network settings a client reads are those of the device, each in its place. */
  lemma NetworkSettingsAreRead(s: Schema, clock: nat -> nat, n: NetState, req: Packet, payload: seq<byte>)
    requires Reaches(n, req, clock(n.ticks)) && req.ucpMethod == 0x0002
    requires OpGetIP !in n.devices[MacText.MacString(req.dstAddress)].cfg.failOn
    ensures var cfg, replies := n.devices[MacText.MacString(req.dstAddress)].cfg, Receive(s, clock, n, EncodeHeader(req) + payload).1;
            && |replies| == (if cfg.dropGetIP then 0 else 1)
            && (replies != [] ==>
                  TellsSettings(replies[0].bytes, QuadOrZeros(cfg.ip), QuadOrZeros(cfg.subnetMask), QuadOrZeros(cfg.gateway)))
  {
    var d := n.devices[MacText.MacString(req.dstAddress)];
    UnicastReply(s, clock, n, req, payload, OpGetIP);
    ServesSettings(s, d, clock(n.ticks), req, payload);
    SettingsAreTold(d, req, req.dstAddress, QuadOrZeros(d.cfg.ip), QuadOrZeros(d.cfg.subnetMask), QuadOrZeros(d.cfg.gateway));
  }

  lemma IdentifierDecodes(value: seq<byte>)
    requires |value| == 16
    ensures Tlv.FirstUuid(Tlv.Decode([0x0d, 16] + value, 0)) == Some(Hex(value))
  {
    var t, data := Tlv.TlvData(0x0d, 16, value), [0x0d, 16] + value;
    Tlv.EncodeSnoc([], t);
    assert [] + [t] == [t] && Tlv.Encode([t]) == data && data[0..] == data + [];
    Tlv.DecodeOfEncode(data, 0, [t], []);
  }

  lemma ServesIdentifier(s: Schema, d: DeviceState, now: nat, req: Packet, payload: seq<byte>, value: seq<byte>)
    requires IsUp(d, now) && OpGetUUID !in d.cfg.failOn && HexDecode(d.cfg.uuid) == Some(value) && |value| == 16
    ensures Serve(s, d, now, OpGetUUID, req, payload).1 ==
            if d.cfg.dropGetUUID then None else Some(Reply(d, req, GET_UUID, [0x0d, 16] + value))
  {
  }

  /** A client learns this identifier from a reply. */
  ghost predicate TellsIdentifier(b: seq<byte>, uuid: text) {
    && ParsePacket(b).Some? && ParsePacket(b).value.0.ucpMethod == 0x000b
    && Tlv.FirstUuid(Tlv.Decode(ParsePacket(b).value.1, 0)) == Some(uuid)
  }

  lemma IdentifierIsTold(d: DeviceState, req: Packet, m: mac, value: seq<byte>)
    requires d.cfg.mac == MacText.MacString(m) && |value| == 16
    ensures TellsIdentifier(Reply(d, req, GET_UUID, [0x0d, 16] + value), Hex(value))
  {
    ReplyAnswers(d, req, GET_UUID, [0x0d, 16] + value, m);
    IdentifierDecodes(value);
  }

  /** An identifier of 32 lower-case hex digits is read back as it was configured. */
  lemma IdentifierIsRead(s: Schema, clock: nat -> nat, n: NetState, req: Packet, payload: seq<byte>, uuid: text)
    requires Reaches(n, req, clock(n.ticks)) && req.ucpMethod == 0x000b
    requires var cfg := n.devices[MacText.MacString(req.dstAddress)].cfg; OpGetUUID !in cfg.failOn && cfg.uuid == uuid
    requires |uuid| == 32 && HexText.AllLowerHex(uuid)
    ensures var replies := Receive(s, clock, n, EncodeHeader(req) + payload).1;
            && |replies| == (if n.devices[MacText.MacString(req.dstAddress)].cfg.dropGetUUID then 0 else 1)
            && (replies != [] ==> TellsIdentifier(replies[0].bytes, uuid))
  {
    var d := n.devices[MacText.MacString(req.dstAddress)];
    HexText.HexOfDecode(uuid);
    var value := HexDecode(uuid).value;
    UnicastReply(s, clock, n, req, payload, OpGetUUID);
    ServesIdentifier(s, d, clock(n.ticks), req, payload, value);
    IdentifierIsTold(d, req, req.dstAddress, value);
  }

  /** Any other method changes nothing but the count of packets and is not answered. */
  lemma OtherMethodsAreIgnored(s: Schema, clock: nat -> nat, n: NetState, req: Packet, payload: seq<byte>)
    requires req.ucpMethod !in {0x0001, 0x0002, 0x0004, 0x0005, 0x0006, 0x0009, 0x000b}
    ensures Receive(s, clock, n, EncodeHeader(req) + payload) == (n.(ticks := n.ticks + 1), [])
  {
    if req.udapType == TYPE_UCP {
      ParseExactly(EncodeHeader(req) + payload, req, payload);
    } else {
      DecodeOfEncode(req, payload);
    }
    ReceiveIgnores(s, clock, n, EncodeHeader(req) + payload);
  }
}
