/** When a nil from a set can be believed. The reply filter ignores the sequence number, so with
    retries a second answer to the prelude read is still queued when the write waits for its
    acknowledgement, and a GetData reply counts as one. */
module Retries {
  import opened Bytes
  import opened Parameters
  import opened Wire
  import opened Items
  import opened SimDevice
  import opened SimNetwork
  import opened ClientProtocol
  import opened LockStep
  import opened ReadModifyWrite
  import opened Runs
  import MacText

  /** Lock step for any number of retries and any device that answers at once. */
  ghost predicate Ready(w: World, c: Session) {
    && Hosts(w, c)
    && !w.closed
    && NoneMatch(w.queue, c.m, c.ip)
    && c.m != ZERO_MAC
    && (c.ip == [] || c.ip == MacText.MacString(c.m))
  }

  /** Both memories of the device hold what a set of these items writes. */
  ghost predicate Applied(s: Schema, d: DeviceState, items: seq<Item>) {
    var u := Updates(s, map[], items);
    forall k :: k in u ==> k in d.working && d.working[k] == u[k] && k in d.nvram && d.nvram[k] == u[k]
  }

  /** The first packet of the queue that the reply filter takes would acknowledge a set. */
  predicate HasStaleAck(queue: seq<Pending>, c: Session) {
    var r := Await(queue, c.m, c.ip).1;
    r.Some? && IsSetAck(r.value.0.ucpMethod)
  }

  /** waitForDeviceReply takes it, and SetDeviceConfigWithContext reads it as an acknowledgement. */
  predicate IsAck(p: Pending, c: Session) {
    Matches(p, c.m, c.ip) && IsSetAck(ParsePacket(p.bytes).value.0.ucpMethod)
  }

  /** w' has what was queued in w, and after it only acknowledgements of sets the target has applied. */
  ghost predicate AckMeansApplied(s: Schema, w: World, w': World, c: Session, items: seq<Item>) {
    && Hosts(w', c) && !w'.closed && w.queue <= w'.queue
    && forall i :: |w.queue| <= i < |w'.queue| && IsAck(w'.queue[i], c) ==> Applied(s, Target(w', c), items)
  }

  /** One more copy of the set packet keeps that so. */
  lemma ServeSet(s: Schema, d: DeviceState, now: nat, req: Packet, items: seq<Item>, m: mac)
    requires d.cfg.mac == MacText.MacString(m) && |items| < 0x1_0000
    ensures var (d', r) := Serve(s, d, now, OpSet, req, SetDataPayload(items));
            && d'.cfg == d.cfg
            && (Applied(s, d, items) ==> Applied(s, d', items))
            && (r.Some? && IsSetAck(ParsePacket(r.value).value.0.ucpMethod) ==> Applied(s, d', items))
  {
    SetDataRequestOfPayload(items);
    var up := AfterRebootCheck(d, now);
    if Awake(d, now) && FailsOn(d.cfg, OpSet) {
      var message := Ascii("mocksbr: configured to fail ") + OpName(OpSet);
      ReplyAnswers(up, req, ERROR, TlvBytes(ERROR_MESSAGE_TAG, message), m);
    }
  }

  lemma SendSet(s: Schema, clock: nat -> nat, w: World, w': World, c: Session, counter: uint32, items: seq<Item>)
    requires AckMeansApplied(s, w, w', c, items) && |items| < 0x1_0000
    ensures AckMeansApplied(s, w, Send(s, clock, w', SetDataBytes(c.m, counter, items)), c, items)
  {
    var req := Request(c.m, SET_DATA, false, counter);
    SetDataBytesAre(c.m, counter, items);
    SendServes(s, clock, w', c, OpSet, req, SetDataPayload(items));
    ServeSet(s, Target(w', c), clock(w'.net.ticks), req, items, c.m);
  }

  lemma SendSets(s: Schema, clock: nat -> nat, w: World, c: Session, counter: uint32, items: seq<Item>, n: nat)
    requires Hosts(w, c) && !w.closed && |items| < 0x1_0000
    ensures AckMeansApplied(s, w, SendTimes(s, clock, w, SetDataBytes(c.m, counter, items), n), c, items)
  {
    var packet, inv := SetDataBytes(c.m, counter, items), (w': World, k: nat) => AckMeansApplied(s, w, w', c, items);
    forall w', k: nat {:trigger Send(s, clock, w', packet), inv(w', k)} | inv(w', k)
      ensures inv(Send(s, clock, w', packet), k + 1)
    {
      SendSet(s, clock, w, w', c, counter, items);
    }
    SendTimesKeeps(s, clock, w, packet, n, inv);
  }

  lemma {:induction false} AwaitFinds(queue: seq<Pending>, m: mac, ip: text)
    requires Await(queue, m, ip).1.Some?
    ensures exists i :: 0 <= i < |queue| && Matches(queue[i], m, ip) && Await(queue, m, ip).1 == ParsePacket(queue[i].bytes)
    decreases |queue|
  {
    if !Matches(queue[0], m, ip) {
      AwaitFinds(queue[1..], m, ip);
      var i :| 0 <= i < |queue[1..]| && Matches(queue[1..][i], m, ip) && Await(queue, m, ip).1 == ParsePacket(queue[1..][i].bytes);
      assert queue[i + 1] == queue[1..][i];
    }
  }

  /** What is queued first is taken first. */
  lemma {:induction false} AwaitAppend(queue: seq<Pending>, more: seq<Pending>, m: mac, ip: text)
    ensures Await(queue, m, ip).1.Some? ==> Await(queue + more, m, ip) == (Await(queue, m, ip).0 + more, Await(queue, m, ip).1)
    ensures Await(queue, m, ip).1.None? ==> Await(queue + more, m, ip) == Await(more, m, ip)
    decreases |queue|
  {
    if queue == [] {
      assert queue + more == more;
    } else {
      assert (queue + more)[1..] == queue[1..] + more;
      AwaitAppend(queue[1..], more, m, ip);
    }
  }

  /** Taking a reply from a queue without a stale acknowledgement. */
  lemma TakenAckIsApplied(s: Schema, w: World, w': World, c: Session, items: seq<Item>)
    requires AckMeansApplied(s, w, w', c, items) && !HasStaleAck(w.queue, c)
    ensures HasStaleAck(w'.queue, c) ==> Applied(s, Target(w', c), items)
  {
    var more := w'.queue[|w.queue|..];
    assert w'.queue == w.queue + more;
    AwaitAppend(w.queue, more, c.m, c.ip);
    if HasStaleAck(w'.queue, c) {
      AwaitFinds(more, c.m, c.ip);
      var i :| 0 <= i < |more| && Matches(more[i], c.m, c.ip) && Await(more, c.m, c.ip).1 == ParsePacket(more[i].bytes);
      assert more[i] == w'.queue[|w.queue| + i];
    }
  }

  /** What the caller of a write may conclude from a nil. */
  ghost predicate WriteTrusted(s: Schema, clock: nat -> nat, w: World, c: Session, config: map<text, text>, keys: seq<text>)
    requires Listing(s, c.cache + config, keys)
  {
    var o := Write(s, clock, w, c, config, keys);
    o.ok ==> Encodable(s, c.cache + config) && Hosts(o.world, o.session) &&
             Applied(s, Target(o.world, o.session), ItemsFor(s, c.cache + config, keys))
  }

  /** Unless something that reads as an acknowledgement comes first in the queue, a write that returns
      nil has been applied, whatever the retries setting and whatever the device is configured to do. */
  lemma WriteNilMeansApplied(s: Schema, clock: nat -> nat, w: World, c: Session, config: map<text, text>, keys: seq<text>)
    requires s.Valid() && Hosts(w, c) && !w.closed && Listing(s, c.cache + config, keys)
    requires !HasStaleAck(w.queue, c)
    ensures WriteTrusted(s, clock, w, c, config, keys)
  {
    var all := c.cache + config;
    if Encodable(s, all) {
      var items, counter := ItemsFor(s, all, keys), NextSequence(c.counter);
      ListingFits(s, all, keys);
      SendSets(s, clock, w, c, counter, items, c.retries + 1);
      var sent := SendTimes(s, clock, w, SetDataBytes(c.m, counter, items), c.retries + 1);
      TakenAckIsApplied(s, w, sent, c, items);
      if c.m != ZERO_MAC {
        WriteTakes(s, clock, w, c, config, keys, sent);
      }
    }
  }

  /** A queue with nothing from the target has no stale acknowledgement. */
  lemma QuietHasNoAck(queue: seq<Pending>, c: Session)
    requires NoneMatch(queue, c.m, c.ip)
    ensures !HasStaleAck(queue, c)
  {
    AwaitNone(queue, c.m, c.ip);
  }

  /** The keys of a read are canonical names and synthetic keys. */
  lemma ResponseCanonical(s: Schema, data: seq<byte>)
    requires s.Valid() && GetDataResponse(s, data).Some?
    ensures Canonical(s, GetDataResponse(s, data).value)
  {
    var items := TakeItems(Uint16At(data, 0), data, 2);
    var r := FoldItems(s, map[], items);
    forall k | k in KnownKeys(s, r) ensures k in s.Names() {
      s.SyntheticIsUnknown(k);
      if forall i :: 0 <= i < |items| ==> KeyOf(s, items[i].offset) != k {
        FoldUntouched(s, map[], items, k);
      }
    }
  }

  /** Taken over into the cache they leave it canonical. */
  lemma ResponseRefreshes(s: Schema, cache: map<text, text>, data: seq<byte>)
    requires s.Valid() && Canonical(s, cache) && GetDataResponse(s, data).Some?
    ensures Canonical(s, Refresh(cache, GetDataResponse(s, data).value))
  {
    ResponseCanonical(s, data);
    var read := GetDataResponse(s, data).value;
    forall k | k in KnownKeys(s, Refresh(cache, read)) ensures k in s.Names() {
      assert k in KnownKeys(s, read) || k in KnownKeys(s, cache);
    }
  }

  // ---- Replies taken -------------------------------------------------------------------

  /** What a full read makes of the replies its packets brought. */
  function ReadResult(s: Schema, sent: World, c: Session): Outcome {
    var (queue, r) := Await(sent.queue, c.m, c.ip);
    ReadEnd(s, c, sent.(queue := queue), r)
  }

  lemma GetAllTakes(s: Schema, clock: nat -> nat, w: World, c: Session, sent: World)
    requires c.m != ZERO_MAC && !sent.closed
    requires sent == SendTimes(s, clock, w, GetDataBytes(c.m, NextSequence(c.counter), AllRegions(s)), c.retries + 1)
    ensures GetAll(s, clock, w, c) == ReadResult(s, sent, c)
  {
    var (w', r) := Receipt(sent, c.m, c.ip);
    GetAllIs(s, clock, w, c, w', r);
  }

  lemma ResultIsCanonical(s: Schema, sent: World, c: Session)
    requires s.Valid() && Canonical(s, c.cache)
    ensures var o := ReadResult(s, sent, c);
            && o.world.net == sent.net && o.world.closed == sent.closed && SameTarget(c, o.session)
            && Canonical(s, o.session.cache)
  {
    var r := Await(sent.queue, c.m, c.ip).1;
    if IsReadReply(s, r) {
      ResponseRefreshes(s, c.cache, r.value.1);
    }
  }

  /** What a write makes of the replies its packets brought; all is the map it wrote. */
  function WriteResult(sent: World, c: Session, all: map<text, text>): Outcome {
    var (queue, r) := Await(sent.queue, c.m, c.ip);
    var ok := r.Some? && IsSetAck(r.value.0.ucpMethod);
    Outcome(sent.(queue := queue), if ok then c.(cache := all) else c, ok)
  }

  lemma WriteTakes(s: Schema, clock: nat -> nat, w: World, c: Session, config: map<text, text>, keys: seq<text>, sent: World)
    requires c.m != ZERO_MAC && !sent.closed && Encodable(s, c.cache + config) && Listing(s, c.cache + config, keys)
    requires sent == SendTimes(s, clock, w, SetDataBytes(c.m, NextSequence(c.counter), ItemsFor(s, c.cache + config, keys)), c.retries + 1)
    ensures Write(s, clock, w, c, config, keys) == WriteResult(sent, c.(counter := NextSequence(c.counter)), c.cache + config)
  {
  }

  // ---- Without retries -----------------------------------------------------------------

  /** Between two operations: nothing from the target is pending and the cache holds canonical names. */
  ghost predicate Steady(s: Schema, w: World, c: Session) {
    s.Valid() && Ready(w, c) && c.retries == 0 && Canonical(s, c.cache)
  }

  /** An exchange with the target leaves nothing of it behind. */
  lemma ExchangeIsClean(s: Schema, clock: nat -> nat, w: World, c: Session, op: Op, req: Packet, payload: seq<byte>)
    requires Ready(w, c) && c.retries == 0
    requires req.dstAddress == c.m && req.udapType == TYPE_UCP && OpOf(req.ucpMethod) == Some(op)
    ensures var w' := Receipt(SendTimes(s, clock, w, EncodeHeader(req) + payload, c.retries + 1), c.m, c.ip).0;
            Ready(w', c) && OnlyTargetChanged(w, w', c)
  {
    Exchange(s, clock, w, c, op, req, payload);
    ServeKeepsConfig(s, Target(w, c), clock(w.net.ticks), op, req, payload);
  }

  lemma SameReady(w: World, c: Session, c': Session)
    requires Ready(w, c) && SameTarget(c, c')
    ensures Ready(w, c')
  {
  }

  /** A read sent once leaves nothing behind, whatever the device. */
  lemma ReadIsSteady(s: Schema, clock: nat -> nat, w: World, c: Session)
    requires Steady(s, w, c)
    ensures var o := GetAll(s, clock, w, c);
            Steady(s, o.world, o.session) && SameTarget(c, o.session) && OnlyTargetChanged(w, o.world, c)
  {
    var counter := NextSequence(c.counter);
    var packet := GetDataBytes(c.m, counter, AllRegions(s));
    GetDataBytesAre(c.m, counter, AllRegions(s));
    ExchangeIsClean(s, clock, w, c, OpGet, Request(c.m, GET_DATA, false, counter), GetDataPayload(AllRegions(s)));
    var sent := SendTimes(s, clock, w, packet, c.retries + 1);
    GetAllTakes(s, clock, w, c, sent);
    ResultIsCanonical(s, sent, c);
    var o := ReadResult(s, sent, c);
    SameReady(o.world, c, o.session);
  }

  lemma PreludeIsClean(s: Schema, clock: nat -> nat, w: World, c: Session)
    requires s.Valid() && Ready(w, c) && Canonical(s, c.cache) && (c.retries == 0 || c.cache != map[])
    ensures var p := Prelude(s, clock, w, c);
            p.ok ==> Ready(p.world, p.session) && Canonical(s, p.session.cache)
  {
    if c.cache == map[] {
      ReadIsSteady(s, clock, w, c);
    }
  }

  /** What the caller of a set may conclude from a nil. */
  ghost predicate NilMeansApplied(s: Schema, clock: nat -> nat, w: World, c: Session, config: map<text, text>, keys: seq<text>)
    requires var p := Prelude(s, clock, w, c); p.ok ==> Listing(s, p.session.cache + config, keys)
  {
    var p := Prelude(s, clock, w, c);
    p.ok ==> WriteTrusted(s, clock, p.world, p.session, config, keys)
  }

  /** Without retries, or with the cache already loaded, a nil from a set means the device ran it:
      for every device, also one that fails, drops, or garbles its replies, and at any time. */
  lemma SetNilMeansApplied(s: Schema, clock: nat -> nat, w: World, c: Session, config: map<text, text>, keys: seq<text>)
    requires s.Valid() && Ready(w, c) && Canonical(s, c.cache)
    requires c.retries == 0 || c.cache != map[]
    requires var p := Prelude(s, clock, w, c); p.ok ==> Listing(s, p.session.cache + config, keys)
    ensures NilMeansApplied(s, clock, w, c, config, keys)
  {
    PreludeIsClean(s, clock, w, c);
    var p := Prelude(s, clock, w, c);
    if p.ok {
      QuietHasNoAck(p.world.queue, p.session);
      WriteNilMeansApplied(s, clock, p.world, p.session, config, keys);
    }
  }
}
