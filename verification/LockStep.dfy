/** One request, one reply. With no retries and nothing pending from the target, an operation
    consumes the reply to its own request and leaves nothing behind. */
module LockStep {
  import opened Bytes
  import opened Parameters
  import opened Wire
  import opened SimDevice
  import opened SimNetwork
  import opened ClientProtocol
  import MacText

  /** The session's target sits on the network under its own address and answers at once. */
  ghost predicate Hosts(w: World, c: Session) {
    var k := MacText.MacString(c.m);
    k in w.net.devices && w.net.devices[k].cfg.mac == k && w.net.devices[k].cfg.slow == 0
  }

  /** Lock step: an open transport with no packet from the target waiting, a client that sends each
      packet once and expects replies from where the transport says they come from. */
  ghost predicate Quiet(w: World, c: Session) {
    && !w.closed
    && NoneMatch(w.queue, c.m, c.ip)
    && c.retries == 0
    && c.m != ZERO_MAC
    && (c.ip == [] || c.ip == MacText.MacString(c.m))
  }

  function Target(w: World, c: Session): DeviceState
    requires MacText.MacString(c.m) in w.net.devices
  {
    w.net.devices[MacText.MacString(c.m)]
  }

  /** The network after its target has been served once. */
  function Served(w: World, c: Session, d: DeviceState): NetState {
    NetState(w.net.devices[MacText.MacString(c.m) := d], w.net.order, w.net.ticks + 1)
  }

  lemma {:induction false} AwaitNone(queue: seq<Pending>, m: mac, ip: text)
    requires NoneMatch(queue, m, ip)
    ensures Await(queue, m, ip) == ([], None)
    decreases |queue|
  {
    if queue != [] {
      AwaitNone(queue[1..], m, ip);
    }
  }

  lemma {:induction false} AwaitLast(queue: seq<Pending>, p: Pending, m: mac, ip: text)
    requires NoneMatch(queue, m, ip) && Matches(p, m, ip)
    ensures Await(queue + [p], m, ip) == ([], ParsePacket(p.bytes))
    decreases |queue|
  {
    if queue != [] {
      assert (queue + [p])[1..] == queue[1..] + [p];
      AwaitLast(queue[1..], p, m, ip);
    }
  }

  /** Sending a request to the target serves it once and queues what it answers. */
  lemma SendServes(s: Schema, clock: nat -> nat, w: World, c: Session, op: Op, req: Packet, payload: seq<byte>)
    requires Hosts(w, c) && !w.closed
    requires req.dstAddress == c.m && req.udapType == TYPE_UCP && OpOf(req.ucpMethod) == Some(op)
    ensures var (d, r) := Serve(s, Target(w, c), clock(w.net.ticks), op, req, payload);
            Send(s, clock, w, EncodeHeader(req) + payload) ==
            w.(net := Served(w, c, d),
               queue := w.queue + (match r case Some(b) => [Pending(b, SourceOf(b))] case None => []))
  {
    var packet, now := EncodeHeader(req) + payload, clock(w.net.ticks);
    var (d, r) := Serve(s, Target(w, c), now, op, req, payload);
    ReceiveServes(s, clock, w, c, op, req, payload);
    SendEnqueues(s, clock, w, packet, Served(w, c, d), ReplyList(d, r));
    ServeKeepsConfig(s, Target(w, c), now, op, req, payload);
    EnqueueAtOnce(w.(net := Served(w, c, d)), d, r);
  }

  /** The network hands a request to its target. */
  lemma ReceiveServes(s: Schema, clock: nat -> nat, w: World, c: Session, op: Op, req: Packet, payload: seq<byte>)
    requires MacText.MacString(c.m) in w.net.devices
    requires req.dstAddress == c.m && req.udapType == TYPE_UCP && OpOf(req.ucpMethod) == Some(op)
    ensures var (d, r) := Serve(s, Target(w, c), clock(w.net.ticks), op, req, payload);
            Receive(s, clock, w.net, EncodeHeader(req) + payload) == (Served(w, c, d), ReplyList(d, r))
  {
    var packet := EncodeHeader(req) + payload;
    ParseExactly(packet, req, payload);
    ReceiveDispatches(s, clock, w.net, packet, req, payload, op);
  }

  lemma SendEnqueues(s: Schema, clock: nat -> nat, w: World, packet: seq<byte>, net: NetState, replies: seq<ScheduledReply>)
    requires Receive(s, clock, w.net, packet) == (net, replies)
    ensures Send(s, clock, w, packet) == Enqueue(w.(net := net), replies)
  {
  }

  /** The reply of a device that answers at once is queued. */
  lemma EnqueueAtOnce(w: World, d: DeviceState, r: Option<seq<byte>>)
    requires d.cfg.slow == 0 && !w.closed
    ensures Enqueue(w, ReplyList(d, r)) ==
            w.(queue := w.queue + (match r case Some(b) => [Pending(b, SourceOf(b))] case None => []))
  {
    match r {
      case None => assert w.queue + [] == w.queue;
      case Some(b) =>
        var replies := [ScheduledReply(b, 0)];
        assert replies[1..] == [];
        assert Enqueue(w, replies) == w.(queue := w.queue + [Pending(b, SourceOf(b))]);
    }
  }

  /** What the target answers reaches the waiting client, and nothing stays in the queue. */
  lemma Exchange(s: Schema, clock: nat -> nat, w: World, c: Session, op: Op, req: Packet, payload: seq<byte>)
    requires Hosts(w, c) && Quiet(w, c)
    requires req.dstAddress == c.m && req.udapType == TYPE_UCP && OpOf(req.ucpMethod) == Some(op)
    ensures var (d, r) := Serve(s, Target(w, c), clock(w.net.ticks), op, req, payload);
            Receipt(SendTimes(s, clock, w, EncodeHeader(req) + payload, c.retries + 1), c.m, c.ip) ==
            (w.(net := Served(w, c, d), queue := []),
             match r case Some(b) => ParsePacket(b) case None => None)
  {
    var packet := EncodeHeader(req) + payload;
    SendServes(s, clock, w, c, op, req, payload);
    assert SendTimes(s, clock, w, packet, 0) == w;
    assert SendTimes(s, clock, w, packet, 1) == Send(s, clock, w, packet);
    var (d, r) := Serve(s, Target(w, c), clock(w.net.ticks), op, req, payload);
    match r {
      case None =>
        assert w.queue + [] == w.queue;
        AwaitNone(w.queue, c.m, c.ip);
      case Some(b) =>
        ServeAnswers(s, Target(w, c), clock(w.net.ticks), op, req, payload, c.m);
        AwaitLast(w.queue, Pending(b, SourceOf(b)), c.m, c.ip);
    }
  }

  /** One more transmission of a packet keeps inv, which may count them. */
  ghost predicate KeptBySend(s: Schema, clock: nat -> nat, packet: seq<byte>, inv: (World, nat) -> bool) {
    forall w, k: nat {:trigger Send(s, clock, w, packet), inv(w, k)} ::
      inv(w, k) ==> inv(Send(s, clock, w, packet), k + 1)
  }

  /** Then any number of them does. */
  lemma {:induction false} SendTimesKeeps(s: Schema, clock: nat -> nat, w: World, packet: seq<byte>, n: nat, inv: (World, nat) -> bool)
    requires inv(w, 0) && KeptBySend(s, clock, packet, inv)
    ensures inv(SendTimes(s, clock, w, packet, n), n)
    decreases n
  {
    if n > 0 {
      SendTimesKeeps(s, clock, w, packet, n - 1, inv);
    }
  }
}
