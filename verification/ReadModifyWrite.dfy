/** What one read, write or reset in lock step does to the target device and to the client. */
module ReadModifyWrite {
  import opened Bytes
  import opened Parameters
  import opened Wire
  import opened Items
  import opened SimDevice
  import opened SimNetwork
  import opened ClientProtocol
  import opened LockStep
  import Collections
  import MacText

  // ---- Reads -------------------------------------------------------------------------

  /** The extra entries of a device are really unknown, and its full reply has a 16-bit count. */
  ghost predicate ReplyFits(s: Schema, cfg: Config) {
    && (forall o :: o in cfg.unknownOffsets ==> s.ByOffset(o).None?)
    && |s.params| + |cfg.unknownOffsets| < 0x1_0000
  }

  /** The device does not refuse, drop or garble reads. */
  predicate AnswersReads(cfg: Config) {
    !FailsOn(cfg, OpGet) && !cfg.dropGetData && cfg.malformed == MalformedNone
  }

  /** The device answers reads properly. */
  ghost predicate Readable(s: Schema, cfg: Config) {
    AnswersReads(cfg) && ReplyFits(s, cfg)
  }

  /** The items of the reply to a read of these regions. */
  function ItemsAnswered(s: Schema, d: DeviceState, regions: seq<Region>): (items: seq<Item>)
    ensures |items| == |regions| + |d.cfg.unknownOffsets|
  {
    Answers(s, d.working, regions) + UnknownItems(d.cfg.unknownOffsets)
  }

  /** The items of a full reply. */
  function AllItems(s: Schema, d: DeviceState): (items: seq<Item>)
    ensures |items| == |s.params| + |d.cfg.unknownOffsets|
  {
    ItemsAnswered(s, d, AllRegions(s))
  }

  lemma ReplyItems(s: Schema, d: DeviceState, payload: seq<byte>, regions: seq<Region>)
    requires d.cfg.malformed == MalformedNone && GetDataRequest(payload) == regions
    requires |ItemsAnswered(s, d, regions)| < 0x1_0000
    ensures GetDataReplyPayload(s, d, payload) ==
            PutUint16(|ItemsAnswered(s, d, regions)|) + EncodeItems(ItemsAnswered(s, d, regions))
  {
    var items := Answers(s, d.working, GetDataRequest(payload)) + UnknownItems(d.cfg.unknownOffsets);
    assert items == ItemsAnswered(s, d, regions);
  }

  /** The request of a read, answered region by region. */
  lemma ReplyToRead(s: Schema, d: DeviceState, regions: seq<Region>)
    requires d.cfg.malformed == MalformedNone && |regions| + |d.cfg.unknownOffsets| < 0x1_0000
    ensures GetDataResponse(s, GetDataReplyPayload(s, d, GetDataPayload(regions))) ==
            Some(FoldItems(s, map[], ItemsAnswered(s, d, regions)))
  {
    var payload := GetDataPayload(regions);
    GetDataRequestOfPayload(regions);
    ReplyItems(s, d, payload, regions);
    ResponseOfItems(s, ItemsAnswered(s, d, regions));
  }

  lemma ResponseOfItems(s: Schema, items: seq<Item>)
    requires |items| < 0x1_0000
    ensures GetDataResponse(s, PutUint16(|items|) + EncodeItems(items)) == Some(FoldItems(s, map[], items))
  {
    var data := PutUint16(|items|) + EncodeItems(items);
    assert data + [] == data;
    assert IsResponse(data, items, []);
    ResponseOf(s, data, items, []);
  }

  /** What a full read returns for a device with this working memory. */
  ghost predicate IsFullRead(s: Schema, read: map<text, text>, working: map<text, text>) {
    && (forall n :: n in s.Names() ==> n in read && read[n] == Reading(s.Get(n), working))
    && (forall k :: k in read && k !in s.Names() ==> HasPrefix(k, Ascii("offset_")))
  }

  lemma ReadOfName(s: Schema, d: DeviceState, n: text)
    requires s.Valid() && ReplyFits(s, d.cfg) && n in s.Names()
    ensures var r := FoldItems(s, map[], AllItems(s, d)); n in r && r[n] == Reading(s.Get(n), d.working)
  {
    var i := s.RowOf(n);
    ReadOfParam(s, d, i);
  }

  lemma FoldIsFullRead(s: Schema, d: DeviceState)
    requires s.Valid() && ReplyFits(s, d.cfg)
    ensures IsFullRead(s, FoldItems(s, map[], AllItems(s, d)), d.working)
  {
    forall n | n in s.Names()
      ensures n in FoldItems(s, map[], AllItems(s, d)) && FoldItems(s, map[], AllItems(s, d))[n] == Reading(s.Get(n), d.working)
    {
      ReadOfName(s, d, n);
    }
    forall k | k in FoldItems(s, map[], AllItems(s, d)) && k !in s.Names() ensures HasPrefix(k, Ascii("offset_")) {
      FoldedKey(s, AllItems(s, d), k);
    }
  }

  /** Full read: every parameter is reported with its canonical value, and anything else the
      reply holds is filed under a synthetic key. */
  lemma FullRead(s: Schema, d: DeviceState)
    requires s.Valid() && Readable(s, d.cfg)
    ensures var r := GetDataResponse(s, GetDataReplyPayload(s, d, GetDataPayload(AllRegions(s))));
            r.Some? && IsFullRead(s, r.value, d.working)
  {
    ReplyToRead(s, d, AllRegions(s));
    FoldIsFullRead(s, d);
  }

  /** A key that is no name was made up for an unknown offset. */
  lemma FoldedKey(s: Schema, items: seq<Item>, k: text)
    requires k in FoldItems(s, map[], items) && k !in s.Names()
    ensures HasPrefix(k, Ascii("offset_"))
  {
    if forall i :: 0 <= i < |items| ==> KeyOf(s, items[i].offset) != k {
      FoldUntouched(s, map[], items, k);
    }
  }

  lemma ReadOfParam(s: Schema, d: DeviceState, i: nat)
    requires s.Valid() && ReplyFits(s, d.cfg) && i < |s.params|
    ensures var p := s.params[i];
            var r := FoldItems(s, map[], AllItems(s, d));
            p.name in r && r[p.name] == Reading(p, d.working)
  {
    var items := AllItems(s, d);
    forall j | i < j < |items| ensures KeyOf(s, items[j].offset) != KeyOf(s, items[i].offset) {
      LaterKeyDiffers(s, d, i, j);
    }
    FoldLastWins(s, map[], items, i);
    ItemOfParam(s, d, i);
  }

  /** The item a parameter is reported by. */
  lemma ItemOfParam(s: Schema, d: DeviceState, i: nat)
    requires s.Valid() && i < |s.params|
    ensures var p, it := s.params[i], AllItems(s, d)[i];
            it.offset == p.offset && KeyOf(s, it.offset) == p.name && ValueOf(s, it) == Reading(p, d.working)
  {
    var p := s.params[i];
    s.LookupsAgree(p);
    assert AllItems(s, d)[i] == Answer(s, d.working, Region(p.offset, p.length));
  }

  lemma LaterKeyDiffers(s: Schema, d: DeviceState, i: nat, j: nat)
    requires s.Valid() && ReplyFits(s, d.cfg) && i < |s.params| && i < j < |AllItems(s, d)|
    ensures KeyOf(s, AllItems(s, d)[j].offset) != KeyOf(s, AllItems(s, d)[i].offset)
  {
    LaterOffsetDiffers(s, d, i, j);
    if KeyOf(s, AllItems(s, d)[j].offset) == KeyOf(s, AllItems(s, d)[i].offset) {
      KeysDiffer(s, AllItems(s, d)[j].offset, AllItems(s, d)[i].offset);
    }
  }

  lemma LaterOffsetDiffers(s: Schema, d: DeviceState, i: nat, j: nat)
    requires s.Valid() && ReplyFits(s, d.cfg) && i < |s.params| && i < j < |AllItems(s, d)|
    ensures AllItems(s, d)[j].offset != AllItems(s, d)[i].offset
  {
    OffsetOfItem(s, d, i);
    OffsetOfItem(s, d, j);
    if j < |s.params| {
      s.Ascending(i, j);
    } else {
      UnknownAt(d.cfg.unknownOffsets, j - |s.params|);
      s.LookupsAgree(s.params[i]);
    }
  }

  lemma OffsetOfItem(s: Schema, d: DeviceState, j: nat)
    requires j < |AllItems(s, d)|
    ensures AllItems(s, d)[j].offset ==
            if j < |s.params| then s.params[j].offset
            else UnknownItems(d.cfg.unknownOffsets)[j - |s.params|].offset
  {
  }

  // ---- Writes ------------------------------------------------------------------------

  lemma {:induction false} UpdatesUntouched(s: Schema, m: map<text, text>, items: seq<Item>, k: text)
    requires forall i :: 0 <= i < |items| ==> NameAt(s, items[i].offset) != k
    ensures k in Updates(s, m, items) <==> k in m
    ensures k in m ==> Updates(s, m, items)[k] == m[k]
    decreases |items|
  {
    if items != [] {
      var name := NameAt(s, items[0].offset);
      UpdatesUntouched(s, if name == [] then m else m[name := Format(items[0].value)], items[1..], k);
    }
  }

  lemma {:induction false} UpdatesLastWins(s: Schema, m: map<text, text>, items: seq<Item>, i: nat)
    requires i < |items| && NameAt(s, items[i].offset) != []
    requires forall j :: i < j < |items| ==> NameAt(s, items[j].offset) != NameAt(s, items[i].offset)
    ensures var k := NameAt(s, items[i].offset);
            k in Updates(s, m, items) && Updates(s, m, items)[k] == Format(items[i].value)
    decreases |items|
  {
    var name := NameAt(s, items[0].offset);
    var m' := if name == [] then m else m[name := Format(items[0].value)];
    if i == 0 {
      UpdatesUntouched(s, m', items[1..], name);
    } else {
      assert items[1..][i - 1] == items[i];
      UpdatesLastWins(s, m', items[1..], i - 1);
    }
  }

  /** All known keys of a map are canonical names, no aliases. */
  ghost predicate Canonical(s: Schema, m: map<text, text>) {
    KnownKeys(s, m) <= s.Names()
  }

  /** The device stores, for each canonical key, the canonical form of its value. */
  lemma UpdatesOfMap(s: Schema, m: map<text, text>, keys: seq<text>)
    requires s.Valid() && Canonical(s, m) && Encodable(s, m) && Listing(s, m, keys)
    ensures var u := Updates(s, map[], ItemsFor(s, m, keys));
            && u.Keys == KnownKeys(s, m)
            && forall n :: n in KnownKeys(s, m) ==> u[n] == Canon(s.Get(n).length, m[n])
  {
    var items := ItemsFor(s, m, keys);
    var u := Updates(s, map[], items);
    forall n | n in KnownKeys(s, m) ensures n in u && u[n] == Canon(s.Get(n).length, m[n]) {
      var i :| 0 <= i < |keys| && keys[i] == n;
      UpdateOfKey(s, m, keys, i);
    }
    forall k | k !in KnownKeys(s, m) ensures k !in u {
      forall i | 0 <= i < |items| ensures NameAt(s, items[i].offset) != k {
        ItemNames(s, m, keys, i);
      }
      UpdatesUntouched(s, map[], items, k);
    }
  }

  lemma ItemNames(s: Schema, m: map<text, text>, keys: seq<text>, i: nat)
    requires s.Valid() && Canonical(s, m) && Encodable(s, m) && Listing(s, m, keys) && i < |keys|
    ensures keys[i] in KnownKeys(s, m)
    ensures NameAt(s, ItemsFor(s, m, keys)[i].offset) == keys[i] != []
  {
    var k := keys[i];
    assert k in keys;
    s.ByNameExactly(k);
    s.LookupsAgree(s.Get(k));
  }

  lemma UpdateOfKey(s: Schema, m: map<text, text>, keys: seq<text>, i: nat)
    requires s.Valid() && Canonical(s, m) && Encodable(s, m) && Listing(s, m, keys) && i < |keys|
    ensures keys[i] in KnownKeys(s, m)
    ensures var u := Updates(s, map[], ItemsFor(s, m, keys));
            keys[i] in u && u[keys[i]] == Canon(s.Get(keys[i]).length, m[keys[i]])
  {
    var items := ItemsFor(s, m, keys);
    ItemNames(s, m, keys, i);
    s.ByNameExactly(keys[i]);
    forall j | i < j < |items| ensures NameAt(s, items[j].offset) != NameAt(s, items[i].offset) {
      ItemNames(s, m, keys, j);
    }
    UpdatesLastWins(s, map[], items, i);
  }

  /** A listing never has more entries than the table has names, so the count on the wire is exact. */
  lemma ListingFits(s: Schema, m: map<text, text>, keys: seq<text>)
    requires s.Valid() && Listing(s, m, keys)
    ensures |keys| <= |s.params| + |s.aliases| < 0x1_0000
    ensures Canonical(s, m) ==> |keys| <= |s.params|
  {
    NamesCount(s.params);
    if Canonical(s, m) {
      Collections.DistinctFits(keys, s.Names());
    }
    forall k <- keys ensures k in s.Names() + s.aliases.Keys {
      s.ByNameExactly(k);
    }
    Collections.DistinctFits(keys, s.Names() + s.aliases.Keys);
  }

  lemma {:induction false} NamesCount(params: seq<Parameter>)
    ensures |NamesOf(params)| <= |params|
    decreases |params|
  {
    if params != [] {
      NamesCount(params[1..]);
    }
  }

  // ---- One operation -------------------------------------------------------------------

  /** The target handles a packet arriving now. */
  predicate Awake(d: DeviceState, now: nat) {
    !d.cfg.unreachable && !InRebootWindow(d, now)
  }

  /** How a full read can end: it succeeds exactly when the target is awake and answers reads; it
      changes nothing but the reload at the end of a reboot window, and nothing stays in the queue. */
  ghost predicate ReadOutcome(s: Schema, w: World, c: Session, now: nat, o: Outcome)
    requires MacText.MacString(c.m) in w.net.devices
  {
    var d := Target(w, c);
    var up := AfterRebootCheck(d, now);
    && (o.ok <==> Awake(d, now) && AnswersReads(d.cfg))
    && o.world == w.(net := Served(w, c, if Awake(d, now) then up else d), queue := [])
    && o.session == c.(counter := o.session.counter, cache := o.session.cache)
    && (!o.ok ==> o.session.cache == c.cache)
    && (o.ok ==> exists read :: o.session.cache == Refresh(c.cache, read) && IsFullRead(s, read, up.working))
  }

  lemma GetAllEffect(s: Schema, clock: nat -> nat, w: World, c: Session)
    requires s.Valid() && Hosts(w, c) && Quiet(w, c) && ReplyFits(s, Target(w, c).cfg)
    ensures ReadOutcome(s, w, c, clock(w.net.ticks), GetAll(s, clock, w, c))
  {
    var counter := NextSequence(c.counter);
    GetExchange(s, clock, w, c, counter, AllRegions(s));
    FoldIsFullRead(s, AfterRebootCheck(Target(w, c), clock(w.net.ticks)));
    var (w', r) := Receipt(SendTimes(s, clock, w, GetDataBytes(c.m, counter, AllRegions(s)), c.retries + 1), c.m, c.ip);
    GetAllIs(s, clock, w, c, w', r);
    ReadEnds(s, w, c, clock(w.net.ticks), w', r);
  }

  /** What a full read makes of the reply it took. */
  function ReadEnd(s: Schema, c: Session, w': World, r: Option<(Packet, seq<byte>)>): Outcome {
    var c' := c.(counter := NextSequence(c.counter));
    if IsReadReply(s, r) then Outcome(w', c'.(cache := Refresh(c.cache, GetDataResponse(s, r.value.1).value)), true)
    else Outcome(w', c', false)
  }

  lemma GetAllIs(s: Schema, clock: nat -> nat, w: World, c: Session, w': World, r: Option<(Packet, seq<byte>)>)
    requires c.m != ZERO_MAC
    requires (w', r) == Receipt(SendTimes(s, clock, w, GetDataBytes(c.m, NextSequence(c.counter), AllRegions(s)), c.retries + 1), c.m, c.ip)
    ensures GetAll(s, clock, w, c) == ReadEnd(s, c, w', r)
  {
  }

  lemma ReadEnds(s: Schema, w: World, c: Session, now: nat, w': World, r: Option<(Packet, seq<byte>)>)
    requires MacText.MacString(c.m) in w.net.devices
    requires var d := Target(w, c);
             var up := AfterRebootCheck(d, now);
             && w' == w.(net := Served(w, c, if Awake(d, now) then up else d), queue := [])
             && (IsReadReply(s, r) <==> Awake(d, now) && AnswersReads(d.cfg))
             && (IsReadReply(s, r) ==> IsFullRead(s, GetDataResponse(s, r.value.1).value, up.working))
    ensures ReadOutcome(s, w, c, now, ReadEnd(s, c, w', r))
  {
    if IsReadReply(s, r) {
      var read := GetDataResponse(s, r.value.1).value;
      assert ReadEnd(s, c, w', r).session.cache == Refresh(c.cache, read);
    }
  }

  /** The client takes it for the answer to a read. */
  predicate IsReadReply(s: Schema, r: Option<(Packet, seq<byte>)>) {
    r.Some? && r.value.0.ucpMethod == GET_DATA && GetDataResponse(s, r.value.1).Some?
  }

  /** What the reply to a read is worth, for a device that is up. */
  lemma ReadReply(s: Schema, d: DeviceState, now: nat, req: Packet, regions: seq<Region>, m: mac)
    requires |regions| + |d.cfg.unknownOffsets| < 0x1_0000 && d.cfg.mac == MacText.MacString(m)
    requires !d.cfg.unreachable && d.rebootDeadline.None?
    ensures var (d', b) := Serve(s, d, now, OpGet, req, GetDataPayload(regions));
            var r := match b case Some(bytes) => ParsePacket(bytes) case None => None;
            && d' == d
            && (IsReadReply(s, r) <==> AnswersReads(d.cfg))
            && (IsReadReply(s, r) ==> GetDataResponse(s, r.value.1).value == FoldItems(s, map[], ItemsAnswered(s, d, regions)))
  {
    var payload := GetDataPayload(regions);
    if FailsOn(d.cfg, OpGet) {
      var message := Ascii("mocksbr: configured to fail ") + OpName(OpGet);
      ReplyAnswers(d, req, ERROR, TlvBytes(ERROR_MESSAGE_TAG, message), m);
    } else if !d.cfg.dropGetData {
      ReplyAnswers(d, req, GetDataReplyMethod(d), GetDataReplyPayload(s, d, payload), m);
      match d.cfg.malformed {
        case MalformedNone => ReplyToRead(s, d, regions);
        case UnknownMethod =>
        case _ => MalformedIsRefused(s, d, payload);
      }
    }
  }

  /** The two shapes that announce more than they hold do not parse. */
  lemma MalformedIsRefused(s: Schema, d: DeviceState, payload: seq<byte>)
    requires d.cfg.malformed == OversizedCount || d.cfg.malformed == LengthExceedsPayload
    ensures GetDataResponse(s, GetDataReplyPayload(s, d, payload)).None?
  {
    var data := GetDataReplyPayload(s, d, payload);
    assert !HasItem(data, 2);
  }

  /** The read request on its own. */
  lemma GetExchange(s: Schema, clock: nat -> nat, w: World, c: Session, counter: uint32, regions: seq<Region>)
    requires Hosts(w, c) && Quiet(w, c) && |regions| + |Target(w, c).cfg.unknownOffsets| < 0x1_0000
    ensures var d, now := Target(w, c), clock(w.net.ticks);
            var up := AfterRebootCheck(d, now);
            var (w', r) := Receipt(SendTimes(s, clock, w, GetDataBytes(c.m, counter, regions), c.retries + 1), c.m, c.ip);
            && w' == w.(net := Served(w, c, if Awake(d, now) then up else d), queue := [])
            && (IsReadReply(s, r) <==> Awake(d, now) && AnswersReads(d.cfg))
            && (IsReadReply(s, r) ==> GetDataResponse(s, r.value.1).value == FoldItems(s, map[], ItemsAnswered(s, up, regions)))
  {
    var req := Request(c.m, GET_DATA, false, counter);
    var payload := GetDataPayload(regions);
    GetDataBytesAre(c.m, counter, regions);
    Exchange(s, clock, w, c, OpGet, req, payload);
    var d, now := Target(w, c), clock(w.net.ticks);
    if Awake(d, now) {
      ReadReply(s, AfterRebootCheck(d, now), now, req, regions, c.m);
      ServeUp(s, d, now, OpGet, req, payload);
    }
  }

  /** Serving a device that is awake is serving it after its reload. */
  lemma ServeUp(s: Schema, d: DeviceState, now: nat, op: Op, req: Packet, payload: seq<byte>)
    requires Awake(d, now)
    ensures var up := AfterRebootCheck(d, now);
            up.rebootDeadline.None? && Serve(s, d, now, op, req, payload) == Serve(s, up, now, op, req, payload)
  {
  }

  lemma GetDataBytesAre(m: mac, counter: uint32, regions: seq<Region>)
    requires |regions| < 0x1_0000
    ensures GetDataBytes(m, counter, regions) ==
            EncodeHeader(Request(m, GET_DATA, false, counter)) + GetDataPayload(regions)
  {
    var h, z, n, e := EncodeHeader(Request(m, GET_DATA, false, counter)), Zeros(CRED_SIZE),
                      PutUint16(|regions|), EncodeRegions(regions);
    assert h + z + n + e == h + (z + n + e);
  }

  lemma SetDataBytesAre(m: mac, counter: uint32, items: seq<Item>)
    requires |items| < 0x1_0000
    ensures SetDataBytes(m, counter, items) ==
            EncodeHeader(Request(m, SET_DATA, false, counter)) + SetDataPayload(items)
  {
    var h, z, n, e := EncodeHeader(Request(m, SET_DATA, false, counter)), Zeros(CRED_SIZE),
                      PutUint16(|items|), EncodeItems(items);
    assert h + z + n + e == h + (z + n + e);
  }

  /** How a write can end: it returns nil exactly when its values encode and the target is awake and
      accepts writes, and the target then ran handleSetData on exactly the items of its packet; one
      that returns an error changed no stored value. */
  ghost predicate WriteOutcome(s: Schema, w: World, c: Session, config: map<text, text>, keys: seq<text>, now: nat, o: Outcome)
    requires MacText.MacString(c.m) in w.net.devices
    requires forall k :: k in keys ==> k in KnownKeys(s, c.cache + config)
  {
    var all, d := c.cache + config, Target(w, c);
    && (o.ok <==> Encodable(s, all) && Awake(d, now) && !FailsOn(d.cfg, OpSet))
    && o.session == c.(counter := o.session.counter, cache := if o.ok then all else c.cache)
    && (!Encodable(s, all) ==> o.world == w)
    && (Encodable(s, all) ==> o.world == w.(net := Served(w, c, WrittenTo(s, d, now, ItemsFor(s, all, keys))), queue := []))
  }

  /** The target after one set packet. */
  function WrittenTo(s: Schema, d: DeviceState, now: nat, items: seq<Item>): DeviceState {
    if !Awake(d, now) then d
    else if FailsOn(d.cfg, OpSet) then AfterRebootCheck(d, now)
    else AfterSet(s, AfterRebootCheck(d, now), items)
  }

  lemma WriteEffect(s: Schema, clock: nat -> nat, w: World, c: Session, config: map<text, text>, keys: seq<text>)
    requires s.Valid() && Hosts(w, c) && Quiet(w, c) && Listing(s, c.cache + config, keys)
    ensures WriteOutcome(s, w, c, config, keys, clock(w.net.ticks), Write(s, clock, w, c, config, keys))
  {
    var all := c.cache + config;
    if Encodable(s, all) {
      ListingFits(s, all, keys);
      SetExchange(s, clock, w, c, NextSequence(c.counter), ItemsFor(s, all, keys));
    }
  }

  /** The write request on its own. */
  lemma SetExchange(s: Schema, clock: nat -> nat, w: World, c: Session, counter: uint32, items: seq<Item>)
    requires Hosts(w, c) && Quiet(w, c) && |items| < 0x1_0000
    ensures var d, now := Target(w, c), clock(w.net.ticks);
            var (w', r) := Receipt(SendTimes(s, clock, w, SetDataBytes(c.m, counter, items), c.retries + 1), c.m, c.ip);
            && w' == w.(net := Served(w, c, WrittenTo(s, d, now, items)), queue := [])
            && (r.Some? && IsSetAck(r.value.0.ucpMethod) <==> Awake(d, now) && !FailsOn(d.cfg, OpSet))
  {
    SetDataBytesAre(c.m, counter, items);
    SetDataRequestOfPayload(items);
    var req := Request(c.m, SET_DATA, false, counter);
    Exchange(s, clock, w, c, OpSet, req, SetDataPayload(items));
    var d, now := Target(w, c), clock(w.net.ticks);
    if Awake(d, now) {
      var up, message := AfterRebootCheck(d, now), Ascii("mocksbr: configured to fail ") + OpName(OpSet);
      ReplyAnswers(up, req, ERROR, TlvBytes(ERROR_MESSAGE_TAG, message), c.m);
      ReplyAnswers(AfterSet(s, up, items), req, SET_DATA, PutUint16(|items|), c.m);
    }
  }

  /** How a reset can end: it is reported as done unless the target refuses it. */
  ghost predicate ResetOutcome(w: World, c: Session, now: nat, o: Outcome)
    requires MacText.MacString(c.m) in w.net.devices
  {
    var d := Target(w, c);
    && (o.ok <==> !Awake(d, now) || !FailsOn(d.cfg, OpReset))
    && o.session == c.(counter := o.session.counter)
    && o.world == w.(net := Served(w, c, ResetAt(d, now)), queue := [])
  }

  lemma ResetEffect(s: Schema, clock: nat -> nat, w: World, c: Session)
    requires s.Valid() && Hosts(w, c) && Quiet(w, c)
    ensures ResetOutcome(w, c, clock(w.net.ticks), Reset(s, clock, w, c))
  {
    var req := Request(c.m, RESET, false, NextSequence(c.counter));
    assert EncodeHeader(req) + [] == ResetBytes(c.m, NextSequence(c.counter));
    Exchange(s, clock, w, c, OpReset, req, []);
    ResetReply(s, Target(w, c), clock(w.net.ticks), req, c.m);
  }

  /** The target after one reset packet. */
  function ResetAt(d: DeviceState, now: nat): DeviceState {
    if !Awake(d, now) then d
    else if FailsOn(d.cfg, OpReset) then AfterRebootCheck(d, now)
    else AfterReset(AfterRebootCheck(d, now), now)
  }

  /** How a reset is answered. */
  lemma ResetReply(s: Schema, d: DeviceState, now: nat, req: Packet, m: mac)
    requires d.cfg.mac == MacText.MacString(m)
    ensures var (d', b) := Serve(s, d, now, OpReset, req, []);
            var r := match b case Some(bytes) => ParsePacket(bytes) case None => None;
            && d' == ResetAt(d, now)
            && (r.None? || r.value.0.ucpMethod == RESET <==> !Awake(d, now) || !FailsOn(d.cfg, OpReset))
  {
    var up, message := AfterRebootCheck(d, now), Ascii("mocksbr: configured to fail ") + OpName(OpReset);
    ReplyAnswers(up, req, ERROR, TlvBytes(ERROR_MESSAGE_TAG, message), m);
    ReplyAnswers(AfterReset(up, now), req, RESET, [], m);
  }
}
