/** The packets byte by byte, every number high byte first. */
module WireLayout {
  import opened Bytes
  import opened Parameters
  import opened Wire
  import opened Items
  import opened SimDevice
  import opened ClientProtocol
  import Discovery

  /** The 27 bytes before the payload. */
  function HeaderBytes(broadcast: byte, dst: mac, src: mac, sequence: uint16, flags: byte, ucpMethod: byte): (b: seq<byte>)
    ensures |b| == 27
  {
    [broadcast, 1, dst[0], dst[1], dst[2], dst[3], dst[4], dst[5],
     0, 1, src[0], src[1], src[2], src[3], src[4], src[5],
     sequence / 256, sequence % 256, 0xC0, 0x01, flags, 0, 1, 0, 1, 0, ucpMethod]
  }

  lemma HeaderIs(p: Packet, ucpMethod: byte)
    requires p.dstType == 1 && p.srcBroadcast == 0 && p.srcType == 1 && p.udapType == 0xC001
    requires p.uapClass == [0, 1, 0, 1] && p.ucpMethod == ucpMethod
    ensures EncodeHeader(p) == HeaderBytes(p.dstBroadcast, p.dstAddress, p.srcAddress, p.sequence, p.ucpFlags, ucpMethod)
  {
    assert PutUint16(p.udapType) == [0xC0, 0x01] && PutUint16(p.ucpMethod) == [0, ucpMethod];
  }

  /** A client's header: the low 16 bits of its counter, the request flag, no address of its own. */
  function RequestBytes(broadcast: byte, dst: mac, counter: uint32, ucpMethod: byte): seq<byte> {
    HeaderBytes(broadcast, dst, [0, 0, 0, 0, 0, 0], counter % 65536, 1, ucpMethod)
  }

  lemma RequestIs(dst: mac, ucpMethod: byte, broadcast: bool, counter: uint32)
    ensures EncodeHeader(Request(dst, ucpMethod, broadcast, counter)) ==
            RequestBytes(if broadcast then 1 else 0, dst, counter, ucpMethod)
  {
    HeaderIs(Request(dst, ucpMethod, broadcast, counter), ucpMethod);
  }

  /** A reset and a discovery are a header each. */
  lemma ShortPackets(m: mac, counter: uint32)
    ensures ResetBytes(m, counter) == RequestBytes(0, m, counter, 4)
    ensures Discovery.DiscoveryBytes(counter) == RequestBytes(1, [0, 0, 0, 0, 0, 0], counter, 9)
  {
    RequestIs(m, 4, false, counter);
    RequestIs(ZERO_MAC, 9, true, counter);
  }

  /** A reply goes back to the sender with its sequence number and without the request flag. */
  lemma ReplyIs(d: DeviceState, req: Packet, ucpMethod: byte, payload: seq<byte>)
    ensures Reply(d, req, ucpMethod, payload) ==
            HeaderBytes(0, req.srcAddress, AddressOf(d.cfg.mac), req.sequence, 0, ucpMethod) + payload
  {
    HeaderIs(ReplyHeader(req, d.cfg.mac, ucpMethod), ucpMethod);
  }

  /** A write: a header, 32 zero bytes, the number of items, the items. */
  lemma WritePacket(m: mac, counter: uint32, items: seq<Item>)
    requires |items| < 65536
    ensures SetDataBytes(m, counter, items) ==
            RequestBytes(0, m, counter, 6) + seq(32, _ => 0) + [|items| / 256, |items| % 256] + EncodeItems(items)
  {
    RequestIs(m, 6, false, counter);
    assert Zeros(CRED_SIZE) == seq(32, _ => 0);
  }

  /** A read: the same with regions. */
  lemma ReadPacket(m: mac, counter: uint32, regions: seq<Region>)
    requires |regions| < 65536
    ensures GetDataBytes(m, counter, regions) ==
            RequestBytes(0, m, counter, 5) + seq(32, _ => 0) + [|regions| / 256, |regions| % 256] + EncodeRegions(regions)
  {
    RequestIs(m, 5, false, counter);
    assert Zeros(CRED_SIZE) == seq(32, _ => 0);
  }

  /** An item is its offset, its length and its bytes, one after the other. */
  lemma ItemBytes(items: seq<Item>, it: Item)
    ensures EncodeItems([]) == []
    ensures EncodeItems(items + [it]) ==
            EncodeItems(items) + ([it.offset / 256, it.offset % 256, |it.value| / 256, |it.value| % 256] + it.value)
  {
    EncodeSnoc(items, it);
  }

  /** A region is its offset and its length. */
  lemma {:induction false} RegionBytes(regions: seq<Region>, r: Region)
    ensures EncodeRegions([]) == []
    ensures EncodeRegions(regions + [r]) ==
            EncodeRegions(regions) + [r.offset / 256, r.offset % 256, r.length / 256, r.length % 256]
    decreases |regions|
  {
    if regions == [] {
      assert [r][1..] == [] && [] + [r] == [r];
    } else {
      assert (regions + [r])[1..] == regions[1..] + [r];
      RegionBytes(regions[1..], r);
    }
  }

  /** A write that is taken is acknowledged with the number of its items. */
  lemma AcknowledgementBytes(s: Schema, d: DeviceState, now: nat, req: Packet, items: seq<Item>)
    requires |items| < 65536
    ensures Handle(s, d, now, OpSet, req, SetDataPayload(items)).1 ==
            Some(HeaderBytes(0, req.srcAddress, AddressOf(d.cfg.mac), req.sequence, 0, 6) + [|items| / 256, |items| % 256])
  {
    SetDataRequestOfPayload(items);
    ReplyIs(d, req, 6, PutUint16(|items|));
  }

  /** The three garbled answers to a read: 65535 items announced and none given, one item announced
      that claims 1000 bytes and has none, and a method that does not exist. */
  lemma GarbledReplies(s: Schema, d: DeviceState, payload: seq<byte>)
    ensures d.cfg.malformed == OversizedCount ==> GetDataReplyPayload(s, d, payload) == [0xFF, 0xFF]
    ensures d.cfg.malformed == LengthExceedsPayload ==> GetDataReplyPayload(s, d, payload) == [0, 1, 0, 0, 0x03, 0xE8]
    ensures GetDataReplyMethod(d) == if d.cfg.malformed == UnknownMethod then 0x9999 else 0x0005
  {
  }

  /** A refusal is an error reply that holds one entry: tag 3, its length, and a message. */
  lemma RefusalBytes(d: DeviceState, req: Packet, op: Op)
    ensures var message := Ascii("mocksbr: configured to fail ") + OpName(op);
            && |message| < 256
            && ErrorReply(d, req, op) ==
               HeaderBytes(0, req.srcAddress, AddressOf(d.cfg.mac), req.sequence, 0, 7) + ([3, |message|] + message)
  {
    ReplyIs(d, req, 7, TlvBytes(3, Ascii("mocksbr: configured to fail ") + OpName(op)));
  }
}
