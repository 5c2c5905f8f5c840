/** Discovery (udap/discovery.go): which devices a client learns of, and what about them. */
module Discovery {
  import opened Bytes
  import opened Parameters
  import opened Wire
  import opened SimDevice
  import opened SimNetwork
  import opened ClientProtocol
  import Items
  import MacText
  import Tlv

  /** What is recorded of a device that answered. */
  datatype Found = Found(mac: mac, ip: text, fields: Tlv.DiscoveryFields)

  /** The registry after one packet (handleDiscoveryReply). */
  function Register(known: map<text, Found>, p: Pending): map<text, Found> {
    match ParsePacket(p.bytes)
    case None => known
    case Some((h, data)) =>
      if h.srcType != ADDR_TYPE_ETH then known
      else known[MacText.MacString(h.srcAddress) := Found(h.srcAddress, p.src, Named(Tlv.Discovered(Tlv.Decode(data, 0))))]
  }

  /** A device without a name gets a generic one. */
  function Named(f: Tlv.DiscoveryFields): Tlv.DiscoveryFields {
    if f.name == [] then f.(name := Ascii("Squeezebox Device")) else f
  }

  function RegisterAll(known: map<text, Found>, queue: seq<Pending>): map<text, Found>
    decreases |queue|
  {
    if queue == [] then known else RegisterAll(Register(known, queue[0]), queue[1..])
  }

  /** CreateAdvancedDiscoveryPacket */
  function DiscoveryBytes(counter: uint32): seq<byte> {
    EncodeHeader(Request(ZERO_MAC, ADV_DISC, true, counter))
  }

  // ---- What a reply says ---------------------------------------------------------------

  function Cut(t: text): (c: text)
    ensures |c| <= 255
  {
    if |t| > 255 then t[..255] else t
  }

  function Entry(tag: byte, value: text): (t: Tlv.TlvData)
    ensures Tlv.Matched(t)
  {
    Tlv.TlvData(tag, |Cut(value)|, Cut(value))
  }

  /** The entries of a discovery reply. */
  function Entries(d: DeviceState): (ts: seq<Tlv.TlvData>)
    ensures forall t :: t in ts ==> Tlv.Matched(t)
  {
    [Entry(0x0c, Status(d)), Entry(0x0b, d.cfg.deviceId), Entry(0x0a, d.cfg.hardware), Entry(0x09, d.cfg.firmware),
     Entry(0x03, d.cfg.model), Entry(0x02, Lookup(d.working, HOSTNAME))] +
    (if d.cfg.uuid != [] && !d.cfg.suppressDiscoveryUUID then [Entry(Tlv.UUID_TAG, UuidWireBytes(d.cfg.uuid))] else [])
  }

  /** What a client should learn: the device's own data, cut to the 255 bytes an entry can hold. */
  function Described(d: DeviceState): Tlv.DiscoveryFields {
    Tlv.DiscoveryFields(
      Cut(Lookup(d.working, HOSTNAME)), Cut(d.cfg.model), Cut(d.cfg.firmware), Cut(d.cfg.hardware),
      Cut(d.cfg.deviceId), Cut(Status(d)),
      if d.cfg.uuid != [] && !d.cfg.suppressDiscoveryUUID then Items.Hex(Cut(UuidWireBytes(d.cfg.uuid))) else [])
  }

  lemma EncodeSix(a: Tlv.TlvData, b: Tlv.TlvData, c: Tlv.TlvData, d: Tlv.TlvData, e: Tlv.TlvData, f: Tlv.TlvData)
    ensures Tlv.Encode([a, b, c, d, e, f]) ==
            Tlv.EncodeOne(a) + Tlv.EncodeOne(b) + Tlv.EncodeOne(c) + Tlv.EncodeOne(d) + Tlv.EncodeOne(e) + Tlv.EncodeOne(f)
  {
    Tlv.EncodeSnoc([], a);
    Tlv.EncodeSnoc([a], b);
    Tlv.EncodeSnoc([a, b], c);
    Tlv.EncodeSnoc([a, b, c], d);
    Tlv.EncodeSnoc([a, b, c, d], e);
    Tlv.EncodeSnoc([a, b, c, d, e], f);
    assert [] + [a] == [a] && [a] + [b] == [a, b] && [a, b] + [c] == [a, b, c] && [a, b, c] + [d] == [a, b, c, d];
    assert [a, b, c, d] + [e] == [a, b, c, d, e] && [a, b, c, d, e] + [f] == [a, b, c, d, e, f];
  }

  lemma PayloadIsEncoded(d: DeviceState, req: Packet)
    ensures DiscoveryReply(d, req) == Reply(d, req, req.ucpMethod, Tlv.Encode(Entries(d)))
  {
    var a, b, c := Entry(0x0c, Status(d)), Entry(0x0b, d.cfg.deviceId), Entry(0x0a, d.cfg.hardware);
    var e, f, g := Entry(0x09, d.cfg.firmware), Entry(0x03, d.cfg.model), Entry(0x02, Lookup(d.working, HOSTNAME));
    EncodeSix(a, b, c, e, f, g);
    if d.cfg.uuid != [] && !d.cfg.suppressDiscoveryUUID {
      Tlv.EncodeSnoc([a, b, c, e, f, g], Entry(Tlv.UUID_TAG, UuidWireBytes(d.cfg.uuid)));
    } else {
      assert [a, b, c, e, f, g] + [] == [a, b, c, e, f, g];
    }
  }

  /** Entries with these tags in this order are read field by field. */
  lemma FieldsByTag(ts: seq<Tlv.TlvData>)
    requires 6 <= |ts| <= 7
    requires ts[0].tag == 0x0c && ts[1].tag == 0x0b && ts[2].tag == 0x0a && ts[3].tag == 0x09 && ts[4].tag == 0x03
    requires ts[5].tag == 0x02 && (|ts| == 7 ==> ts[6].tag == Tlv.UUID_TAG)
    ensures Tlv.Discovered(ts) == Tlv.DiscoveryFields(
              ts[5].value, ts[4].value, ts[3].value, ts[2].value, ts[1].value, ts[0].value,
              if |ts| == 7 then Items.Hex(ts[6].value) else [])
  {
    Tlv.LatestIsLast([], ts, 0x0c, 0);
    Tlv.LatestIsLast([], ts, 0x0b, 1);
    Tlv.LatestIsLast([], ts, 0x0a, 2);
    Tlv.LatestIsLast([], ts, 0x09, 3);
    Tlv.LatestIsLast([], ts, 0x03, 4);
    Tlv.LatestIsLast([], ts, 0x02, 5);
    if |ts| == 7 {
      Tlv.LatestIsLast([], ts, Tlv.UUID_TAG, 6);
    } else {
      Tlv.LatestAbsent([], ts, Tlv.UUID_TAG);
    }
  }

  lemma EntriesDescribe(d: DeviceState)
    ensures Tlv.Discovered(Entries(d)) == Described(d)
  {
    FieldsByTag(Entries(d));
  }

  /** A client learns from a discovery reply exactly the device's own data. */
  lemma ReplyDescribes(d: DeviceState, req: Packet, m: mac)
    requires d.cfg.mac == MacText.MacString(m)
    ensures var b := DiscoveryReply(d, req);
            && ParsePacket(b).Some? && ParsePacket(b).value.0.srcType == ADDR_TYPE_ETH
            && ParsePacket(b).value.0.srcAddress == m
            && Tlv.Discovered(Tlv.Decode(ParsePacket(b).value.1, 0)) == Described(d)
  {
    var data := Tlv.Encode(Entries(d));
    PayloadIsEncoded(d, req);
    ReplyAnswers(d, req, req.ucpMethod, data, m);
    assert data[0..] == data + [];
    Tlv.DecodeOfEncode(data, 0, Entries(d), []);
    EntriesDescribe(d);
    MacText.MacOfString(m);
    assert MacText.MacString(m)[..17] == MacText.MacString(m);
  }

  // ---- One round -----------------------------------------------------------------------

  function PendingOf(replies: seq<ScheduledReply>): seq<Pending> {
    seq(|replies|, i requires 0 <= i < |replies| => Pending(replies[i].bytes, SourceOf(replies[i].bytes)))
  }

  lemma {:induction false} EnqueueAll(w: World, replies: seq<ScheduledReply>)
    requires !w.closed && forall i :: 0 <= i < |replies| ==> replies[i].delay == 0
    ensures Enqueue(w, replies) == w.(queue := w.queue + PendingOf(replies))
    decreases |replies|
  {
    if replies == [] {
      assert w.queue + [] == w.queue;
    } else {
      var p := Pending(replies[0].bytes, SourceOf(replies[0].bytes));
      EnqueueAll(w.(queue := w.queue + [p]), replies[1..]);
      assert PendingOf(replies) == [p] + PendingOf(replies[1..]);
      assert w.queue + [p] + PendingOf(replies[1..]) == w.queue + ([p] + PendingOf(replies[1..]));
    }
  }

  lemma {:induction false} RegisterSnoc(known: map<text, Found>, queue: seq<Pending>, p: Pending)
    ensures RegisterAll(known, queue + [p]) == Register(RegisterAll(known, queue), p)
    decreases |queue|
  {
    if queue == [] {
      assert [p][1..] == [] && [] + [p] == [p];
    } else {
      assert (queue + [p])[1..] == queue[1..] + [p];
      RegisterSnoc(Register(known, queue[0]), queue[1..], p);
    }
  }

  /** The entry an eligible device should get. */
  function FoundAt(d: DeviceState, mac: text, now: nat): Found {
    Found(AddressOf(mac), mac, Named(Described(AfterRebootCheck(d, now))))
  }

  ghost predicate Immediate(n: NetState) {
    forall k :: k in n.devices ==> n.devices[k].cfg.slow == 0
  }

  /** The registry after the answers of the first k devices. */
  function Heard(known: map<text, Found>, n: NetState, k: nat, now: nat): map<text, Found>
    requires k <= |n.order|
  {
    if k == 0 then known
    else HeardFrom(Heard(known, n, k - 1, now), n, n.order[k - 1], now)
  }

  function HeardFrom(known: map<text, Found>, n: NetState, mac: text, now: nat): map<text, Found> {
    if mac in n.devices && IsEligible(n.devices[mac], now) then known[mac := FoundAt(n.devices[mac], mac, now)] else known
  }

  lemma AnswerRegisters(d: DeviceState, mac: text, now: nat, req: Packet, known: map<text, Found>)
    requires d.cfg.mac == mac && MacText.LowerColonForm(mac) && IsEligible(d, now)
    ensures var b := ServeDiscovery(d, now, req).1;
            b.Some? && Register(known, Pending(b.value, SourceOf(b.value))) == known[mac := FoundAt(d, mac, now)]
  {
    MacText.StringOfMac(mac);
    assert mac[..17] == mac;
    ReplyDescribes(AfterRebootCheck(d, now), req, MacText.MacOf(mac));
  }

  lemma PendingConcat(a: seq<ScheduledReply>, b: seq<ScheduledReply>)
    ensures PendingOf(a + b) == PendingOf(a) + PendingOf(b)
  {
  }

  ghost predicate NoDelay(replies: seq<ScheduledReply>) {
    forall i :: 0 <= i < |replies| ==> replies[i].delay == 0
  }

  /** The answer of one more device. */
  lemma HeardNext(known: map<text, Found>, before: seq<ScheduledReply>, d: DeviceState, mac: text, now: nat, req: Packet)
    requires d.cfg.mac == mac && MacText.LowerColonForm(mac) && d.cfg.slow == 0
    ensures var more, h := ReplyList(d, ServeDiscovery(d, now, req).1), RegisterAll(known, PendingOf(before));
            && NoDelay(more)
            && RegisterAll(known, PendingOf(before + more)) ==
               if IsEligible(d, now) then h[mac := FoundAt(d, mac, now)] else h
  {
    var more := ReplyList(d, ServeDiscovery(d, now, req).1);
    PendingConcat(before, more);
    if IsEligible(d, now) {
      AnswerRegisters(d, mac, now, req, RegisterAll(known, PendingOf(before)));
      assert PendingOf(more) == [Pending(more[0].bytes, SourceOf(more[0].bytes))];
      RegisterSnoc(known, PendingOf(before), PendingOf(more)[0]);
    } else {
      assert before + [] == before;
    }
  }

  /** A device in the order is filed under its own address and answers at once. */
  ghost predicate Proper(n: NetState, i: nat)
    requires i < |n.order|
  {
    var mac := n.order[i];
    mac in n.devices && n.devices[mac].cfg.mac == mac && MacText.LowerColonForm(mac) && n.devices[mac].cfg.slow == 0
  }

  lemma ValidIsProper(n: NetState, i: nat)
    requires Valid(n) && Immediate(n) && i < |n.order|
    ensures Proper(n, i)
  {
    assert n.order[i] in n.order;
    FiledUnder(n, n.order[i]);
  }

  lemma {:induction false} HeardUpTo(known: map<text, Found>, n: NetState, k: nat, now: nat, req: Packet)
    requires k <= |n.order| && forall i: nat :: i < |n.order| ==> Proper(n, i)
    ensures NoDelay(Gathered(n, k, now, req))
    ensures RegisterAll(known, PendingOf(Gathered(n, k, now, req))) == Heard(known, n, k, now)
    decreases k
  {
    if k > 0 {
      var mac := n.order[k - 1];
      HeardUpTo(known, n, k - 1, now, req);
      assert Proper(n, k - 1);
      HeardNext(known, Gathered(n, k - 1, now, req), n.devices[mac], mac, now, req);
    }
  }

  lemma {:induction false} HeardHas(known: map<text, Found>, n: NetState, k: nat, now: nat, m: text)
    requires k <= |n.order|
    ensures m in Heard(known, n, k, now) <==> m in known || m in Eligible(n, k, now)
    ensures m in Eligible(n, k, now) ==> m in n.devices && Heard(known, n, k, now)[m] == FoundAt(n.devices[m], m, now)
    ensures m in known && m !in Eligible(n, k, now) ==> Heard(known, n, k, now)[m] == known[m]
    decreases k
  {
    if k > 0 {
      HeardHas(known, n, k - 1, now, m);
    }
  }

  /** One round of discovery registers exactly the devices that are reachable, willing and not
      rebooting, each under its own address and with its own data; other entries stay. */
  lemma DiscoveryFindsEligible(s: Schema, clock: nat -> nat, w: World, counter: uint32, known: map<text, Found>, m: text)
    requires Valid(w.net) && Immediate(w.net) && !w.closed && w.queue == []
    ensures var n, now := w.net, clock(w.net.ticks);
            var heard := RegisterAll(known, Send(s, clock, w, DiscoveryBytes(counter)).queue);
            var found := Eligible(n, |n.order|, now);
            && (m in heard <==> m in known || m in found)
            && (m in found ==> m in n.devices && heard[m] == FoundAt(n.devices[m], m, now))
            && (m in known && m !in found ==> heard[m] == known[m])
  {
    var n, now := w.net.(ticks := w.net.ticks + 1), clock(w.net.ticks);
    ValidApartFromTicks(w.net, n);
    forall i: nat | i < |n.order| ensures Proper(n, i) {
      ValidIsProper(n, i);
    }
    var req := Request(ZERO_MAC, ADV_DISC, true, counter);
    RepliesAreGathered(n, now, req);
    HeardUpTo(known, n, |n.order|, now, req);
    DiscoverySends(s, clock, w, counter, n, req, DiscoverReplies(n, |n.order|, now, req));
    HeardHas(known, n, |n.order|, now, m);
    SameEligible(w.net, n, |n.order|, now);
  }

  lemma ValidApartFromTicks(a: NetState, b: NetState)
    requires Valid(a) && Immediate(a) && a.order == b.order && a.devices == b.devices
    ensures Valid(b) && Immediate(b)
  {
  }

  lemma DiscoverySends(s: Schema, clock: nat -> nat, w: World, counter: uint32, n: NetState, req: Packet, replies: seq<ScheduledReply>)
    requires !w.closed && w.queue == [] && n == w.net.(ticks := w.net.ticks + 1)
    requires req == Request(ZERO_MAC, ADV_DISC, true, counter)
    requires replies == DiscoverReplies(n, |n.order|, clock(w.net.ticks), req) && NoDelay(replies)
    ensures Send(s, clock, w, DiscoveryBytes(counter)).queue == PendingOf(replies)
  {
    assert EncodeHeader(req) + [] == DiscoveryBytes(counter);
    ParseExactly(DiscoveryBytes(counter), req, []);
    ReceiveDiscovers(s, clock, w.net, DiscoveryBytes(counter), req, []);
    QueuedAtOnce(w.(net := Receive(s, clock, w.net, DiscoveryBytes(counter)).0), replies);
  }

  lemma QueuedAtOnce(w: World, replies: seq<ScheduledReply>)
    requires !w.closed && w.queue == [] && NoDelay(replies)
    ensures Enqueue(w, replies).queue == PendingOf(replies)
  {
    EnqueueAll(w, replies);
    assert [] + PendingOf(replies) == PendingOf(replies);
  }

  lemma {:induction false} SameEligible(a: NetState, b: NetState, k: nat, now: nat)
    requires a.order == b.order && a.devices == b.devices && k <= |a.order|
    ensures Eligible(a, k, now) == Eligible(b, k, now)
    decreases k
  {
    if k > 0 {
      SameEligible(a, b, k - 1, now);
    }
  }
}
