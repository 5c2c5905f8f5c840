/** When a set must not be believed. The reply filter looks at the sender alone, so with retries the
    further answers to one request are still queued when the next one waits for its reply, and a
    GetData reply is as good as an acknowledgement. Against a device that answers reads and refuses
    writes, what waits in the queue decides what a set returns. */
module StaleAcks {
  import opened Bytes
  import opened Parameters
  import opened Wire
  import opened Items
  import opened SimDevice
  import opened SimNetwork
  import opened ClientProtocol
  import opened LockStep
  import opened ReadModifyWrite
  import opened Runs
  import opened Retries
  import MacText

  /** A device that answers reads properly and refuses writes. */
  ghost predicate RefusesSets(s: Schema, d: DeviceState) {
    && Readable(s, d.cfg) && FailsOn(d.cfg, OpSet)
    && !d.cfg.unreachable && d.rebootDeadline.None?
  }

  /** The session talks to such a device over an open transport; anything may be queued. */
  ghost predicate Refuses(s: Schema, w: World, c: Session) {
    && s.Valid() && Hosts(w, c) && !w.closed && RefusesSets(s, Target(w, c))
    && c.m != ZERO_MAC && (c.ip == [] || c.ip == MacText.MacString(c.m))
  }

  lemma StillRefuses(s: Schema, w: World, c: Session, w': World, c': Session)
    requires Refuses(s, w, c) && SameTarget(c, c') && w'.net.devices == w.net.devices && !w'.closed
    ensures Refuses(s, w', c')
  {
  }

  // ---- Requests and their answers --------------------------------------------------------

  datatype RequestKind = ReadRequest | WriteRequest

  /** What the device tells the client in answer to a request: all its registers, or an error. */
  ghost predicate Tells(s: Schema, working: map<text, text>, r: Option<(Packet, seq<byte>)>, x: RequestKind) {
    match x
    case ReadRequest => IsReadReply(s, r) && IsFullRead(s, GetDataResponse(s, r.value.1).value, working)
    case WriteRequest => r.Some? && r.value.0.ucpMethod == ERROR
  }

  /** A queued packet the client would take, and what it tells. */
  ghost predicate IsAnswer(s: Schema, working: map<text, text>, c: Session, p: Pending, x: RequestKind) {
    Matches(p, c.m, c.ip) && Tells(s, working, ParsePacket(p.bytes), x)
  }

  /** w' is w with n more answers to such a request queued, and every device as it was. */
  ghost predicate Answered(s: Schema, w: World, w': World, c: Session, x: RequestKind, n: nat)
    requires Hosts(w, c)
  {
    && w'.net.devices == w.net.devices && w'.closed == w.closed
    && w.queue <= w'.queue && |w'.queue| == |w.queue| + n
    && forall i :: |w.queue| <= i < |w'.queue| ==> IsAnswer(s, Target(w, c).working, c, w'.queue[i], x)
  }

  lemma OneMore(s: Schema, w: World, w': World, w'': World, c: Session, x: RequestKind, n: nat, p: Pending)
    requires Hosts(w, c) && Answered(s, w, w', c, x, n) && IsAnswer(s, Target(w, c).working, c, p, x)
    requires w''.net.devices == w'.net.devices && w''.closed == w'.closed && w''.queue == w'.queue + [p]
    ensures Answered(s, w, w'', c, x, n + 1)
  {
  }

  /** The reply to one read. */
  lemma ReadIsAnswered(s: Schema, d: DeviceState, now: nat, req: Packet, c: Session)
    requires s.Valid() && RefusesSets(s, d) && d.cfg.mac == MacText.MacString(c.m)
    requires c.ip == [] || c.ip == MacText.MacString(c.m)
    ensures var (d', r) := Serve(s, d, now, OpGet, req, GetDataPayload(AllRegions(s)));
            d' == d && r.Some? && IsAnswer(s, d.working, c, Pending(r.value, SourceOf(r.value)), ReadRequest)
  {
    ReadReply(s, d, now, req, AllRegions(s), c.m);
    FoldIsFullRead(s, d);
    ServeAnswers(s, d, now, OpGet, req, GetDataPayload(AllRegions(s)), c.m);
  }

  /** The reply to one write. */
  lemma WriteIsRefused(s: Schema, d: DeviceState, now: nat, req: Packet, payload: seq<byte>, c: Session)
    requires RefusesSets(s, d) && d.cfg.mac == MacText.MacString(c.m)
    requires c.ip == [] || c.ip == MacText.MacString(c.m)
    ensures var (d', r) := Serve(s, d, now, OpSet, req, payload);
            d' == d && r.Some? && IsAnswer(s, d.working, c, Pending(r.value, SourceOf(r.value)), WriteRequest)
  {
    var message := Ascii("mocksbr: configured to fail ") + OpName(OpSet);
    ReplyAnswers(d, req, ERROR, TlvBytes(ERROR_MESSAGE_TAG, message), c.m);
  }

  lemma DevicesUnmoved(w: World, c: Session)
    requires MacText.MacString(c.m) in w.net.devices
    ensures Served(w, c, Target(w, c)).devices == w.net.devices
  {
    var k := MacText.MacString(c.m);
    assert w.net.devices[k := w.net.devices[k]] == w.net.devices;
  }

  lemma SendRead(s: Schema, clock: nat -> nat, w: World, w': World, c: Session, counter: uint32, n: nat)
    requires Refuses(s, w, c) && Answered(s, w, w', c, ReadRequest, n)
    ensures Answered(s, w, Send(s, clock, w', GetDataBytes(c.m, counter, AllRegions(s))), c, ReadRequest, n + 1)
  {
    var req, d := Request(c.m, GET_DATA, false, counter), Target(w, c);
    GetDataBytesAre(c.m, counter, AllRegions(s));
    SendServes(s, clock, w', c, OpGet, req, GetDataPayload(AllRegions(s)));
    ReadIsAnswered(s, d, clock(w'.net.ticks), req, c);
    DevicesUnmoved(w', c);
    var b := Serve(s, d, clock(w'.net.ticks), OpGet, req, GetDataPayload(AllRegions(s))).1.value;
    OneMore(s, w, w', Send(s, clock, w', GetDataBytes(c.m, counter, AllRegions(s))), c, ReadRequest, n, Pending(b, SourceOf(b)));
  }

  lemma SendReads(s: Schema, clock: nat -> nat, w: World, c: Session, counter: uint32, n: nat)
    requires Refuses(s, w, c)
    ensures Answered(s, w, SendTimes(s, clock, w, GetDataBytes(c.m, counter, AllRegions(s)), n), c, ReadRequest, n)
  {
    var packet, inv := GetDataBytes(c.m, counter, AllRegions(s)), (w': World, k: nat) => Answered(s, w, w', c, ReadRequest, k);
    forall w', k: nat {:trigger Send(s, clock, w', packet), inv(w', k)} | inv(w', k)
      ensures inv(Send(s, clock, w', packet), k + 1)
    {
      SendRead(s, clock, w, w', c, counter, k);
    }
    SendTimesKeeps(s, clock, w, packet, n, inv);
  }

  lemma SendRefused(s: Schema, clock: nat -> nat, w: World, w': World, c: Session, counter: uint32, items: seq<Item>, n: nat)
    requires Refuses(s, w, c) && Answered(s, w, w', c, WriteRequest, n) && |items| < 0x1_0000
    ensures Answered(s, w, Send(s, clock, w', SetDataBytes(c.m, counter, items)), c, WriteRequest, n + 1)
  {
    var req, d := Request(c.m, SET_DATA, false, counter), Target(w, c);
    SetDataBytesAre(c.m, counter, items);
    SendServes(s, clock, w', c, OpSet, req, SetDataPayload(items));
    WriteIsRefused(s, d, clock(w'.net.ticks), req, SetDataPayload(items), c);
    DevicesUnmoved(w', c);
    var b := Serve(s, d, clock(w'.net.ticks), OpSet, req, SetDataPayload(items)).1.value;
    OneMore(s, w, w', Send(s, clock, w', SetDataBytes(c.m, counter, items)), c, WriteRequest, n, Pending(b, SourceOf(b)));
  }

  lemma SendAllRefused(s: Schema, clock: nat -> nat, w: World, c: Session, counter: uint32, items: seq<Item>, n: nat)
    requires Refuses(s, w, c) && |items| < 0x1_0000
    ensures Answered(s, w, SendTimes(s, clock, w, SetDataBytes(c.m, counter, items), n), c, WriteRequest, n)
  {
    var packet, inv := SetDataBytes(c.m, counter, items), (w': World, k: nat) => Answered(s, w, w', c, WriteRequest, k);
    forall w', k: nat {:trigger Send(s, clock, w', packet), inv(w', k)} | inv(w', k)
      ensures inv(Send(s, clock, w', packet), k + 1)
    {
      SendRefused(s, clock, w, w', c, counter, items, k);
    }
    SendTimesKeeps(s, clock, w, packet, n, inv);
  }

  // ---- One write -----------------------------------------------------------------------

  /** The state a refused write is in once its packets are out. */
  lemma SendWrite(s: Schema, clock: nat -> nat, w: World, c: Session, config: map<text, text>, keys: seq<text>)
    returns (sent: World)
    requires Refuses(s, w, c) && Encodable(s, c.cache + config) && Listing(s, c.cache + config, keys)
    ensures Answered(s, w, sent, c, WriteRequest, c.retries + 1)
    ensures Write(s, clock, w, c, config, keys) == WriteResult(sent, c.(counter := NextSequence(c.counter)), c.cache + config)
  {
    var items, counter := ItemsFor(s, c.cache + config, keys), NextSequence(c.counter);
    ListingFits(s, c.cache + config, keys);
    SendAllRefused(s, clock, w, c, counter, items, c.retries + 1);
    sent := SendTimes(s, clock, w, SetDataBytes(c.m, counter, items), c.retries + 1);
    WriteTakes(s, clock, w, c, config, keys, sent);
  }

  /** Whatever is queued, a write the device refuses changes no device, and it returns nil exactly
      when something that reads as an acknowledgement is already waiting. */
  lemma WriteTakesStale(s: Schema, clock: nat -> nat, w: World, c: Session, config: map<text, text>, keys: seq<text>)
    requires Refuses(s, w, c) && Encodable(s, c.cache + config) && Listing(s, c.cache + config, keys)
    ensures var o := Write(s, clock, w, c, config, keys);
            && (o.ok <==> HasStaleAck(w.queue, c))
            && o.world.net.devices == w.net.devices && !o.world.closed && SameTarget(c, o.session)
            && o.session.cache == if o.ok then c.cache + config else c.cache
  {
    var sent := SendWrite(s, clock, w, c, config, keys);
    OwnAnswersRefuse(s, w, sent, c, c.retries + 1);
  }

  /** The device's own answers are no acknowledgement. */
  lemma OwnAnswersRefuse(s: Schema, w: World, w': World, c: Session, n: nat)
    requires Hosts(w, c) && Answered(s, w, w', c, WriteRequest, n)
    ensures HasStaleAck(w'.queue, c) <==> HasStaleAck(w.queue, c)
  {
    var more := w'.queue[|w.queue|..];
    assert w'.queue == w.queue + more;
    AwaitAppend(w.queue, more, c.m, c.ip);
    if Await(more, c.m, c.ip).1.Some? {
      AwaitFinds(more, c.m, c.ip);
      var i :| 0 <= i < |more| && Matches(more[i], c.m, c.ip) && Await(more, c.m, c.ip).1 == ParsePacket(more[i].bytes);
      assert more[i] == w'.queue[|w.queue| + i];
    }
  }

  /** So a nil from a write of anything new can be believed exactly when nothing of the kind waits. */
  lemma WriteTrustedExactly(s: Schema, clock: nat -> nat, w: World, c: Session, config: map<text, text>, keys: seq<text>)
    requires Refuses(s, w, c) && Listing(s, c.cache + config, keys)
    requires Encodable(s, c.cache + config) ==> !Applied(s, Target(w, c), ItemsFor(s, c.cache + config, keys))
    ensures WriteTrusted(s, clock, w, c, config, keys) <==> !(Encodable(s, c.cache + config) && HasStaleAck(w.queue, c))
  {
    if !HasStaleAck(w.queue, c) {
      WriteNilMeansApplied(s, clock, w, c, config, keys);
    } else if Encodable(s, c.cache + config) {
      WriteTakesStale(s, clock, w, c, config, keys);
    }
  }

  // ---- One set -------------------------------------------------------------------------

  /** The config asks for a value the device does not report. */
  ghost predicate Changes(s: Schema, config: map<text, text>, working: map<text, text>) {
    exists n :: n in config && n in s.Names() && Encode(s.Get(n).length, config[n]).Some? &&
                Canon(s.Get(n).length, config[n]) != Reading(s.Get(n), working)
  }

  lemma ChangesNotApplied(s: Schema, d: DeviceState, cache: map<text, text>, config: map<text, text>, keys: seq<text>)
    requires s.Valid() && Canonical(s, cache + config) && Encodable(s, cache + config)
    requires Listing(s, cache + config, keys) && Changes(s, config, d.working)
    ensures !Applied(s, d, ItemsFor(s, cache + config, keys))
  {
    var n :| n in config && n in s.Names() && Encode(s.Get(n).length, config[n]).Some? &&
             Canon(s.Get(n).length, config[n]) != Reading(s.Get(n), d.working);
    var all := cache + config;
    var u := Updates(s, map[], ItemsFor(s, all, keys));
    s.ByNameExactly(n);
    UpdatesOfMap(s, all, keys);
    assert n in KnownKeys(s, all) && n in u;
    if n in d.working && d.working[n] == u[n] {
      ReadingOfCanon(s.Get(n), d.working, config[n]);
    }
  }

  /** The state a full read is in once its packets are out. */
  lemma SendFullRead(s: Schema, clock: nat -> nat, w: World, c: Session) returns (sent: World)
    requires Refuses(s, w, c)
    ensures Answered(s, w, sent, c, ReadRequest, c.retries + 1)
    ensures GetAll(s, clock, w, c) == ReadResult(s, sent, c)
  {
    sent := SendTimes(s, clock, w, GetDataBytes(c.m, NextSequence(c.counter), AllRegions(s)), c.retries + 1);
    assert Answered(s, w, sent, c, ReadRequest, c.retries + 1) by {
      SendReads(s, clock, w, c, NextSequence(c.counter), c.retries + 1);
    }
    GetAllTakes(s, clock, w, c, sent);
  }

  /** A read, whatever it takes for its answer: no device moves, and the cache stays canonical. */
  lemma ReadKeeps(s: Schema, clock: nat -> nat, w: World, c: Session)
    requires Refuses(s, w, c) && Canonical(s, c.cache)
    ensures var o := GetAll(s, clock, w, c);
            && o.world.net.devices == w.net.devices && !o.world.closed && SameTarget(c, o.session)
            && Canonical(s, o.session.cache)
  {
    var sent := SendFullRead(s, clock, w, c);
    ResultIsCanonical(s, sent, c);
  }

  /** Against a device that refuses writes, whatever is queued: a nil from a set that asks for a
      change can be believed exactly when, after the prelude, no packet that reads as an
      acknowledgement waits for a write that is going to be sent. */
  lemma NilTrustedExactly(s: Schema, clock: nat -> nat, w: World, c: Session, config: map<text, text>, keys: seq<text>)
    requires Refuses(s, w, c) && Canonical(s, c.cache) && Canonical(s, config)
    requires Changes(s, config, Target(w, c).working)
    requires var p := Prelude(s, clock, w, c); p.ok ==> Listing(s, p.session.cache + config, keys)
    ensures var p := Prelude(s, clock, w, c);
            NilMeansApplied(s, clock, w, c, config, keys) <==>
            !(p.ok && Encodable(s, p.session.cache + config) && HasStaleAck(p.world.queue, p.session))
  {
    var p := Prelude(s, clock, w, c);
    if c.cache == map[] {
      ReadKeeps(s, clock, w, c);
    }
    if p.ok {
      StillRefuses(s, w, c, p.world, p.session);
      MergedCanonical(s, p.session.cache, config);
      if Encodable(s, p.session.cache + config) {
        ChangesNotApplied(s, Target(w, c), p.session.cache, config, keys);
      }
      WriteTrustedExactly(s, clock, p.world, p.session, config, keys);
    }
  }
}
