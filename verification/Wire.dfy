/** The fixed 27-byte UDAP header (udap/protocol.go), the request bit (udap/loopback.go) and the
    header construction of the client (udap/client.go). */
module Wire {
  import opened Bytes

  /** A 48-bit hardware address. */
  type mac = m: seq<byte> | |m| == 6 witness [0, 0, 0, 0, 0, 0]
  type fourBytes = b: seq<byte> | |b| == 4 witness [0, 0, 0, 0]

  const ZERO_MAC: mac := [0, 0, 0, 0, 0, 0]
  const HEADER_SIZE := 27
  const ADDR_TYPE_ETH: byte := 0x01
  const TYPE_UCP: uint16 := 0xC001
  const UCP_FLAGS_OFFSET := 20
  const UAP_CLASS_UCP: fourBytes := [0x00, 0x01, 0x00, 0x01]

  const DISCOVER: uint16 := 0x0001
  const GET_IP: uint16 := 0x0002
  const RESET: uint16 := 0x0004
  const GET_DATA: uint16 := 0x0005
  const SET_DATA: uint16 := 0x0006
  const ERROR: uint16 := 0x0007
  const ADV_DISC: uint16 := 0x0009
  const GET_UUID: uint16 := 0x000b

  datatype Packet = Packet(
    dstBroadcast: byte,
    dstType: byte,
    dstAddress: mac,
    srcBroadcast: byte,
    srcType: byte,
    srcAddress: mac,
    sequence: uint16,
    udapType: uint16,
    ucpFlags: byte,
    uapClass: fourBytes,
    ucpMethod: uint16)

  /** binary.Write of a Packet, big-endian. */
  function EncodeHeader(p: Packet): (b: seq<byte>)
    ensures |b| == HEADER_SIZE
  {
    [p.dstBroadcast, p.dstType] + p.dstAddress +
    [p.srcBroadcast, p.srcType] + p.srcAddress +
    PutUint16(p.sequence) + PutUint16(p.udapType) +
    [p.ucpFlags] + p.uapClass + PutUint16(p.ucpMethod)
  }

  /** binary.Read of a Packet, big-endian. */
  function DecodeHeader(b: seq<byte>): Packet
    requires |b| >= HEADER_SIZE
  {
    Packet(b[0], b[1], b[2..8], b[8], b[9], b[10..16],
           Uint16At(b, 16), Uint16At(b, 18), b[20], b[21..25], Uint16At(b, 25))
  }

  /** ParsePacket: a UCP header and the bytes after it. */
  function ParsePacket(b: seq<byte>): (r: Option<(Packet, seq<byte>)>)
  {
    if |b| < HEADER_SIZE then None
    else if DecodeHeader(b).udapType != TYPE_UCP then None
    else Some((DecodeHeader(b), b[HEADER_SIZE..]))
  }

  lemma DecodeOfEncode(p: Packet, data: seq<byte>)
    ensures DecodeHeader(EncodeHeader(p) + data) == p
  {
    var b := EncodeHeader(p) + data;
    assert b[2..8] == p.dstAddress;
    assert b[10..16] == p.srcAddress;
    assert b[21..25] == p.uapClass;
  }

  lemma EncodeOfDecode(b: seq<byte>)
    requires |b| >= HEADER_SIZE
    ensures EncodeHeader(DecodeHeader(b)) == b[..HEADER_SIZE]
  {
    Uint16RoundTrip(b, 16);
    Uint16RoundTrip(b, 18);
    Uint16RoundTrip(b, 25);
  }

  /** A byte string parses as header h with payload d exactly when it is h's encoding followed by
      d and h is a UCP header: the codec loses nothing and accepts nothing else. */
  lemma ParseExactly(b: seq<byte>, h: Packet, d: seq<byte>)
    ensures ParsePacket(b) == Some((h, d)) <==> b == EncodeHeader(h) + d && h.udapType == TYPE_UCP
  {
    if ParsePacket(b) == Some((h, d)) {
      EncodeOfDecode(b);
      assert b == b[..HEADER_SIZE] + b[HEADER_SIZE..];
    }
    if b == EncodeHeader(h) + d {
      DecodeOfEncode(h, d);
      assert b[HEADER_SIZE..] == d;
    }
  }

  /** isUDAPRequestPacket(buf, n) with n = |buf|. */
  predicate IsRequestPacket(buf: seq<byte>) {
    |buf| > UCP_FLAGS_OFFSET && buf[UCP_FLAGS_OFFSET] % 2 == 1
  }

  lemma RequestBitOfEncode(p: Packet, data: seq<byte>)
    ensures IsRequestPacket(EncodeHeader(p) + data) <==> p.ucpFlags % 2 == 1
  {
    assert (EncodeHeader(p) + data)[UCP_FLAGS_OFFSET] == p.ucpFlags;
  }

  // ---- Requests ----------------------------------------------------------------------

  /** atomic.AddUint32(&c.sequence, 1) */
  function NextSequence(counter: uint32): uint32 {
    (counter as int + 1) % 0x1_0000_0000
  }

  /** createUdapPacket for counter value `counter` after the increment. */
  function Request(dst: mac, ucpMethod: uint16, broadcast: bool, counter: uint32): Packet {
    Packet(if broadcast then 1 else 0, ADDR_TYPE_ETH, dst, 0, ADDR_TYPE_ETH, ZERO_MAC,
           counter % 0x1_0000, TYPE_UCP, 0x01, UAP_CLASS_UCP, ucpMethod)
  }

  /** A station that hears its own broadcast knows it for a request: so is every packet a client builds. */
  lemma RequestsAreRequests(dst: mac, ucpMethod: uint16, broadcast: bool, counter: uint32, data: seq<byte>)
    ensures IsRequestPacket(EncodeHeader(Request(dst, ucpMethod, broadcast, counter)) + data)
    ensures ParsePacket(EncodeHeader(Request(dst, ucpMethod, broadcast, counter)) + data) ==
            Some((Request(dst, ucpMethod, broadcast, counter), data))
  {
    RequestBitOfEncode(Request(dst, ucpMethod, broadcast, counter), data);
    ParseExactly(EncodeHeader(Request(dst, ucpMethod, broadcast, counter)) + data, Request(dst, ucpMethod, broadcast, counter), data);
  }

  /** The counter after n more packets. */
  function CounterAfter(start: uint32, n: nat): uint32 {
    if n == 0 then start else NextSequence(CounterAfter(start, n - 1))
  }

  lemma SuccMod(x: nat)
    ensures (x % 0x1_0000_0000 + 1) % 0x1_0000_0000 == (x + 1) % 0x1_0000_0000
  {
  }

  lemma ModMod(x: nat)
    ensures x % 0x1_0000_0000 % 0x1_0000 == x % 0x1_0000
  {
    var q := x / 0x1_0000_0000;
    assert x == q * 0x1_0000_0000 + x % 0x1_0000_0000;
  }

  lemma DistinctMod(x: nat, d: nat)
    ensures 0 < d < 0x1_0000 ==> x % 0x1_0000 != (x + d) % 0x1_0000
    ensures x % 0x1_0000 == (x + 0x1_0000) % 0x1_0000
  {
  }

  lemma {:induction false} CounterAfterIs(start: uint32, n: nat)
    ensures CounterAfter(start, n) == (start as int + n) % 0x1_0000_0000
    decreases n
  {
    if n > 0 {
      CounterAfterIs(start, n - 1);
      SuccMod(start as int + n - 1);
    }
  }

  /** The sequence number of the (n+1)-th packet after the counter stood at `start`. */
  function SequenceAfter(start: uint32, n: nat): uint16 {
    Request(ZERO_MAC, DISCOVER, true, CounterAfter(start, n)).sequence
  }

  lemma SequenceAfterIs(start: uint32, n: nat)
    ensures SequenceAfter(start, n) == (start as int + n) % 0x1_0000
  {
    CounterAfterIs(start, n);
    ModMod(start as int + n);
  }

  /** Any 65536 consecutive packets of one client carry distinct sequence numbers, wherever the
      32-bit counter starts and even if it wraps on the way; the next one repeats the first. */
  lemma SequenceNumbersDistinct(start: uint32, i: nat, j: nat)
    requires i < j
    ensures j - i < 0x1_0000 ==> SequenceAfter(start, i) != SequenceAfter(start, j)
    ensures j - i == 0x1_0000 ==> SequenceAfter(start, i) == SequenceAfter(start, j)
  {
    SequenceAfterIs(start, i);
    SequenceAfterIs(start, j);
    DistinctMod(start as int + i, j - i);
  }
}
