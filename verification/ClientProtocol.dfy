/** The client's side of the protocol (udap/client.go, udap/config.go) over the in-process
    transport (mocksbr/transport.go), as functions of the state of both ends. */
module ClientProtocol {
  import opened Bytes
  import opened Parameters
  import opened Wire
  import opened Items
  import opened SimNetwork
  import MacText

  // ---- Transport ---------------------------------------------------------------------

  datatype Pending = Pending(bytes: seq<byte>, src: text)

  /** The network, the replies waiting for Recv, and those of slow devices still to be queued. */
  datatype World = World(net: NetState, queue: seq<Pending>, delayed: seq<Pending>, closed: bool)

  /** mockSourceMAC */
  function SourceOf(reply: seq<byte>): text {
    match ParsePacket(reply) case Some((h, _)) => MacText.MacString(h.srcAddress) case None => []
  }

  /** scheduleReply for each reply in turn. */
  function Enqueue(w: World, replies: seq<ScheduledReply>): World
    decreases |replies|
  {
    if replies == [] then w
    else
      var p := Pending(replies[0].bytes, SourceOf(replies[0].bytes));
      var w' :=
        if replies[0].delay > 0 then w.(delayed := w.delayed + [p])
        else if w.closed then w
        else w.(queue := w.queue + [p]);
      Enqueue(w', replies[1..])
  }

  /** The timer of a delayed reply fires: the reply is queued, or dropped once the transport is closed. */
  function TimerFires(w: World, i: nat): World
    requires i < |w.delayed|
  {
    var rest := w.(delayed := w.delayed[..i] + w.delayed[i + 1..]);
    if w.closed then rest else rest.(queue := w.queue + [w.delayed[i]])
  }

  /** MockTransport.Send, which never fails. */
  function Send(s: Schema, clock: nat -> nat, w: World, packet: seq<byte>): World {
    var (net, replies) := Receive(s, clock, w.net, packet);
    Enqueue(w.(net := net), replies)
  }

  /** sendRetried with n sends in all. */
  function SendTimes(s: Schema, clock: nat -> nat, w: World, packet: seq<byte>, n: nat): World {
    if n == 0 then w else Send(s, clock, SendTimes(s, clock, w, packet, n - 1), packet)
  }

  // ---- Requests ----------------------------------------------------------------------

  function AllRegions(s: Schema): (r: seq<Region>)
    ensures |r| == |s.params|
  {
    seq(|s.params|, i requires 0 <= i < |s.params| => Region(s.params[i].offset, s.params[i].length))
  }

  /** CreateGetDataPacket once the regions are known and sorted. */
  function GetDataBytes(m: mac, counter: uint32, regions: seq<Region>): seq<byte> {
    EncodeHeader(Request(m, GET_DATA, false, counter)) +
    Zeros(CRED_SIZE) + PutUint16(Low16(|regions|)) + EncodeRegions(regions)
  }

  /** CreateSetDataPacket once the items are known, sorted and encoded. */
  function SetDataBytes(m: mac, counter: uint32, items: seq<Item>): seq<byte> {
    EncodeHeader(Request(m, SET_DATA, false, counter)) +
    Zeros(CRED_SIZE) + PutUint16(Low16(|items|)) + EncodeItems(items)
  }

  /** CreateResetPacket */
  function ResetBytes(m: mac, counter: uint32): seq<byte> {
    EncodeHeader(Request(m, RESET, false, counter))
  }

  // ---- Which items a map of parameters becomes -----------------------------------------------

  /** The keys that name a parameter, directly or as an alias. */
  function KnownKeys(s: Schema, m: map<text, text>): set<text> {
    set k | k in m && s.ByName(k).Some?
  }

  /** The offset a key is sorted by. */
  function OffsetOf(s: Schema, k: text): uint16 {
    match s.ByName(k) case Some(p) => p.offset case None => 0
  }

  /** keys is one of the orders CreateSetDataPacket can arrive at: it ranges over the map in any
      order, drops unknown names, and sorts by offset, leaving ties as they fall. */
  ghost predicate Listing(s: Schema, m: map<text, text>, keys: seq<text>) {
    && (forall i, j :: 0 <= i < j < |keys| ==> keys[i] != keys[j])
    && (forall k :: k in keys <==> k in KnownKeys(s, m))
    && (forall i, j :: 0 <= i < j < |keys| ==> OffsetOf(s, keys[i]) <= OffsetOf(s, keys[j]))
  }

  predicate Encodable(s: Schema, m: map<text, text>) {
    forall k :: k in KnownKeys(s, m) ==> Encode(s.ByName(k).value.length, m[k]).Some?
  }

  function ItemFor(s: Schema, m: map<text, text>, k: text): Item
    requires k in KnownKeys(s, m) && Encodable(s, m)
  {
    var p := s.ByName(k).value;
    Item(p.offset, Encode(p.length, m[k]).value)
  }

  function ItemsFor(s: Schema, m: map<text, text>, keys: seq<text>): (items: seq<Item>)
    requires Encodable(s, m) && forall k :: k in keys ==> k in KnownKeys(s, m)
    ensures |items| == |keys|
  {
    seq(|keys|, i requires 0 <= i < |keys| => ItemFor(s, m, keys[i]))
  }

  /** The canonical keys of a map in table order, which is offset order. */
  function TableOrder(params: seq<Parameter>, m: map<text, text>): seq<text> {
    if params == [] then []
    else if params[0].name in m then [params[0].name] + TableOrder(params[1..], m)
    else TableOrder(params[1..], m)
  }

  // ---- Waiting for the reply ---------------------------------------------------------------

  /** The filter of waitForDeviceReply. */
  predicate Matches(p: Pending, m: mac, ip: text) {
    match ParsePacket(p.bytes)
    case None => false
    case Some((h, _)) => h.srcAddress == m && (ip == [] || p.src == ip)
  }

  predicate NoneMatch(queue: seq<Pending>, m: mac, ip: text) {
    forall i :: 0 <= i < |queue| ==> !Matches(queue[i], m, ip)
  }

  /** waitForDeviceReply: takes packets until one matches. With nothing left to take, the context
      expires; a closed transport fails at once. */
  function Await(queue: seq<Pending>, m: mac, ip: text): (seq<Pending>, Option<(Packet, seq<byte>)>) {
    if queue == [] then ([], None)
    else if Matches(queue[0], m, ip) then (queue[1..], ParsePacket(queue[0].bytes))
    else Await(queue[1..], m, ip)
  }

  function Receipt(w: World, m: mac, ip: text): (World, Option<(Packet, seq<byte>)>) {
    if w.closed then (w, None)
    else
      var (queue, r) := Await(w.queue, m, ip);
      (w.(queue := queue), r)
  }

  // ---- Operations ----------------------------------------------------------------------

  /** The client's handle on one device, with its retries setting and packet counter. */
  datatype Session = Session(m: mac, ip: text, retries: nat, counter: uint32, cache: map<text, text>)

  /** The state after an operation, and whether it returned without an error. */
  datatype Outcome = Outcome(world: World, session: Session, ok: bool)

  /** GetDeviceConfigWithContext for regions already resolved and sorted. */
  function GetConfig(s: Schema, clock: nat -> nat, w: World, c: Session, regions: seq<Region>)
    : (World, Session, Option<map<text, text>>)
  {
    if c.m == ZERO_MAC then (w, c, None)
    else
      var c' := c.(counter := NextSequence(c.counter));
      var sent := SendTimes(s, clock, w, GetDataBytes(c.m, c'.counter, regions), c.retries + 1);
      var (w', r) := Receipt(sent, c.m, c.ip);
      match r
      case None => (w', c', None)
      case Some((h, data)) =>
        (w', c', if h.ucpMethod == GET_DATA then GetDataResponse(s, data) else None)
  }

  /** The cache with its synthetic keys dropped and a new read copied over it. */
  function Refresh(cache: map<text, text>, read: map<text, text>): map<text, text> {
    (map k | k in cache && !HasPrefix(k, Ascii("offset_")) :: cache[k]) + read
  }

  /** GetAllDeviceConfigWithContext */
  function GetAll(s: Schema, clock: nat -> nat, w: World, c: Session): Outcome {
    var (w', c', r) := GetConfig(s, clock, w, c, AllRegions(s));
    match r
    case None => Outcome(w', c', false)
    case Some(read) => Outcome(w', c'.(cache := Refresh(c'.cache, read)), true)
  }

  /** The methods SetDeviceConfigWithContext takes for an acknowledgement. */
  predicate IsSetAck(ucpMethod: uint16) {
    ucpMethod == SET_DATA || ucpMethod == GET_DATA || ucpMethod == GET_IP
  }

  /** The write half of SetDeviceConfigWithContext, with the cache loaded and the items chosen. */
  function Write(s: Schema, clock: nat -> nat, w: World, c: Session, config: map<text, text>, keys: seq<text>): Outcome
    requires forall k :: k in keys ==> k in KnownKeys(s, c.cache + config)
  {
    var all := c.cache + config;
    if c.m == ZERO_MAC then Outcome(w, c, false)
    else
      var c' := c.(counter := NextSequence(c.counter));
      if !Encodable(s, all) then Outcome(w, c', false)
      else
        var packet := SetDataBytes(c.m, c'.counter, ItemsFor(s, all, keys));
        var (w', r) := Receipt(SendTimes(s, clock, w, packet, c.retries + 1), c.m, c.ip);
        if r.Some? && IsSetAck(r.value.0.ucpMethod)
        then Outcome(w', c'.(cache := c.cache + config), true)
        else Outcome(w', c', false)
  }

  /** The prelude of SetDeviceConfigWithContext: a full read when nothing is cached. */
  function Prelude(s: Schema, clock: nat -> nat, w: World, c: Session): Outcome {
    if c.cache == map[] then GetAll(s, clock, w, c) else Outcome(w, c, true)
  }

  /** SetDeviceConfigWithContext; keys is the item order of the packet it sends, if it sends one. */
  function Set(s: Schema, clock: nat -> nat, w: World, c: Session, config: map<text, text>, keys: seq<text>): Outcome
    requires var p := Prelude(s, clock, w, c);
             p.ok ==> forall k :: k in keys ==> k in KnownKeys(s, p.session.cache + config)
  {
    var p := Prelude(s, clock, w, c);
    if !p.ok then p else Write(s, clock, p.world, p.session, config, keys)
  }

  /** ResetDeviceWithContext: no reply counts as success. */
  function Reset(s: Schema, clock: nat -> nat, w: World, c: Session): Outcome {
    if c.m == ZERO_MAC then Outcome(w, c, false)
    else
      var c' := c.(counter := NextSequence(c.counter));
      var sent := SendTimes(s, clock, w, ResetBytes(c.m, c'.counter), c.retries + 1);
      var (w', r) := Receipt(sent, c.m, c.ip);
      Outcome(w', c', r.None? || r.value.0.ucpMethod == RESET)
  }

  // ---- No phantom writes -----------------------------------------------------------------

  /** Whatever the network, the queue and the replies: a failing set leaves the cache as it was or
      as the prelude read left it, and never holding an attempted override; a successful set leaves
      it as that map updated by config. */
  lemma NoPhantomWrites(s: Schema, clock: nat -> nat, w: World, c: Session, config: map<text, text>, keys: seq<text>)
    requires var p := Prelude(s, clock, w, c);
             p.ok ==> forall k :: k in keys ==> k in KnownKeys(s, p.session.cache + config)
    ensures var o := Set(s, clock, w, c, config, keys);
            var p := Prelude(s, clock, w, c);
            && (o.ok ==> p.ok && o.session.cache == p.session.cache + config)
            && (!o.ok ==> o.session.cache == if p.ok then p.session.cache else c.cache)
            && (c.cache != map[] ==> p.session.cache == c.cache)
            && (c.cache == map[] && p.ok ==> exists data :: GetDataResponse(s, data) == Some(p.session.cache))
  {
    if c.cache == map[] && Prelude(s, clock, w, c).ok {
      var sent := SendTimes(s, clock, w, GetDataBytes(c.m, NextSequence(c.counter), AllRegions(s)), c.retries + 1);
      var data := Receipt(sent, c.m, c.ip).1.value.1;
      assert Refresh(map[], GetDataResponse(s, data).value) == GetDataResponse(s, data).value;
    }
  }
}
