/** Which requests a `set` command sends, one packet each: a read, then the write, then the reset. A
    stage that fails ends the command, and only a command that was asked to reboots the device. */
module CommandPackets {
  import opened Bytes
  import opened Parameters
  import opened SimDevice
  import opened ClientProtocol
  import opened LockStep
  import opened ReadModifyWrite
  import opened Runs
  import opened Restore
  import opened SetCommand
  import opened CommandEffect
  import Backup
  import Validation
  import MacText

  /** The write of a command whose read has filled the cache, as one packet in table order. */
  lemma StoreIsOneWrite(s: Schema, clock: nat -> nat, w: World, c: Session, config: map<text, text>)
    requires s.Valid() && InStep(s, w, c) && c.cache != map[] && CacheAgrees(s, c.cache, Target(w, c).working)
    requires Canonical(s, config)
    ensures var keys, o := TableOrder(s.params, c.cache + config), Perform(s, clock, w, c, Store(config));
            && (forall k :: k in keys ==> k in KnownKeys(s, c.cache + config))
            && WriteOutcome(s, w, c, config, keys, clock(w.net.ticks), o)
            && (Encodable(s, c.cache + config) <==> Encodable(s, config))
  {
    TableWrite(s, clock, w, c, config);
    MergedEncodable(s, c.cache, config, Target(w, c).working);
  }

  /** A device that stays out of reboot windows, and the number of packets the network has seen. */
  ghost predicate SeenUp(w: World, c: Session, ticks: nat)
    requires MacText.MacString(c.m) in w.net.devices
  {
    Target(w, c).rebootDeadline.None? && w.net.ticks == ticks
  }

  lemma ReadSeen(s: Schema, w: World, c: Session, now: nat, o: Outcome)
    requires InStep(s, w, c) && Target(w, c).rebootDeadline.None? && ReadOutcome(s, w, c, now, o)
    ensures o.session.m == c.m && MacText.MacString(c.m) in o.world.net.devices
    ensures SeenUp(o.world, o.session, w.net.ticks + 1) && Target(o.world, o.session).cfg == Target(w, c).cfg
  {
  }

  lemma StoreSeen(s: Schema, w: World, c: Session, config: map<text, text>, keys: seq<text>, now: nat, o: Outcome)
    requires InStep(s, w, c) && Target(w, c).rebootDeadline.None? && !Target(w, c).cfg.unreachable
    requires forall k :: k in keys ==> k in KnownKeys(s, c.cache + config)
    requires WriteOutcome(s, w, c, config, keys, now, o)
    ensures o.ok <==> Encodable(s, c.cache + config) && !FailsOn(Target(w, c).cfg, OpSet)
    ensures o.session.m == c.m && MacText.MacString(c.m) in o.world.net.devices
    ensures SeenUp(o.world, o.session, w.net.ticks + (if Encodable(s, c.cache + config) then 1 else 0))
    ensures Target(o.world, o.session).cfg == Target(w, c).cfg
  {
  }

  /** A device that answers a first read; it may refuse anything else. */
  ghost predicate Readable(w: World, c: Session)
    requires Hosts(w, c)
  {
    var d := Target(w, c);
    !d.cfg.unreachable && d.rebootDeadline.None? && AnswersReads(d.cfg)
  }

  /** The read stage. */
  lemma ReadStageSeen(s: Schema, clock: nat -> nat, w: World, c: Session)
    requires HasInterface(s) && InStep(s, w, c) && Readable(w, c)
    ensures var g := GetAll(s, clock, w, c);
            && g.ok && InStep(s, g.world, g.session) && g.session.m == c.m && g.session.cache != map[]
            && CacheAgrees(s, g.session.cache, Target(g.world, g.session).working)
            && SeenUp(g.world, g.session, w.net.ticks + 1) && Target(g.world, g.session).cfg == Target(w, c).cfg
  {
    var g := GetAll(s, clock, w, c);
    GetAllEffect(s, clock, w, c);
    ReadStep(s, w, c, clock(w.net.ticks), g);
    ReadSeen(s, w, c, clock(w.net.ticks), g);
    assert Backup.INTERFACE in g.session.cache;
  }

  /** The write stage. */
  lemma WriteStageSeen(s: Schema, clock: nat -> nat, w: World, c: Session, config: map<text, text>)
    requires s.Valid() && InStep(s, w, c) && c.cache != map[] && CacheAgrees(s, c.cache, Target(w, c).working)
    requires Target(w, c).rebootDeadline.None? && !Target(w, c).cfg.unreachable && Canonical(s, config)
    ensures var o := Perform(s, clock, w, c, Store(config));
            && (o.ok <==> Encodable(s, config) && !FailsOn(Target(w, c).cfg, OpSet))
            && InStep(s, o.world, o.session) && o.session.m == c.m
            && SeenUp(o.world, o.session, w.net.ticks + (if Encodable(s, config) then 1 else 0))
            && Target(o.world, o.session).cfg == Target(w, c).cfg
  {
    StoreIsOneWrite(s, clock, w, c, config);
    SetStep(s, clock, w, c, config);
    StoreSeen(s, w, c, config, TableOrder(s.params, c.cache + config), clock(w.net.ticks), Perform(s, clock, w, c, Store(config)));
  }

  /** The interface is chosen among values that encode, so it does not decide whether the write can be
      sent. */
  lemma ChoiceEncodes(s: Schema, params: map<text, text>, cache: map<text, text>)
    requires HasInterface(s) && Canonical(s, params)
    ensures var config := Backup.WithInterface(s, params, cache);
            Canonical(s, config) && (Encodable(s, config) <==> Encodable(s, params))
  {
    var config := Backup.WithInterface(s, params, cache);
    s.ByNameExactly(Backup.INTERFACE);
    BinaryIsCanonical(Ascii("0"));
    BinaryIsCanonical(Ascii("1"));
    forall k | k in KnownKeys(s, config) ensures k in s.Names() {
      assert k == Backup.INTERFACE || k in KnownKeys(s, params);
    }
    forall k | k in KnownKeys(s, params) ensures k in KnownKeys(s, config) && config[k] == params[k] {
    }
    forall k | k in KnownKeys(s, config) ensures k in KnownKeys(s, params) || Encode(s.ByName(k).value.length, config[k]).Some? {
    }
  }

  /** The end of a command: how many packets it has sent, and until when the device is down for it. */
  ghost predicate Sent(w: World, packets: nat, w': World, c': Session, downUntil: Option<nat>) {
    && MacText.MacString(c'.m) in w'.net.devices
    && w'.net.ticks == w.net.ticks + packets
    && Target(w', c').rebootDeadline == downUntil
  }

  /** A read that fails ends the command: nothing but the read has been sent. */
  lemma FailedReadEndsCommand(s: Schema, clock: nat -> nat, w: World, c: Session, params: map<text, text>, reboot: bool, keys: seq<text>,
                              w': World, c': Session, written: Option<map<text, text>>)
    requires s.Valid() && InStep(s, w, c) && CommandRan(s, clock, w, c, Some(params), reboot, keys, w', c', written)
    requires !(Awake(Target(w, c), clock(w.net.ticks)) && AnswersReads(Target(w, c).cfg))
    ensures written == None && w'.net.ticks == w.net.ticks + 1 && c'.cache == c.cache
  {
    GetAllEffect(s, clock, w, c);
  }

  /** A value that does not encode ends the command before the write is sent; a write that is refused
      ends it before the reset; and the reset, if one was asked for, puts the device down for its reboot
      delay from the moment of the third packet, unless it is refused. */
  ghost predicate SentAs(clock: nat -> nat, w: World, cfg: Config, encodes: bool, reboot: bool,
                         w': World, c': Session, written: Option<map<text, text>>) {
    if !encodes then written == None && Sent(w, 1, w', c', None)
    else if FailsOn(cfg, OpSet) then written == None && Sent(w, 2, w', c', None)
    else if !reboot then written.Some? && Sent(w, 2, w', c', None)
    else if FailsOn(cfg, OpReset) then written == None && Sent(w, 3, w', c', None)
    else written.Some? && Sent(w, 3, w', c', Some(clock(w.net.ticks + 2) + cfg.rebootDelay))
  }

  /** That is what becomes of a command on a device that answers its read. */
  lemma CommandSends(s: Schema, clock: nat -> nat, w: World, c: Session, params: map<text, text>, reboot: bool, keys: seq<text>,
                     w': World, c': Session, written: Option<map<text, text>>)
    requires HasInterface(s) && InStep(s, w, c) && Readable(w, c) && Canonical(s, params)
    requires CommandRan(s, clock, w, c, Some(params), reboot, keys, w', c', written)
    ensures SentAs(clock, w, Target(w, c).cfg, Encodable(s, params), reboot, w', c', written)
  {
    var g := GetAll(s, clock, w, c);
    ReadStageSeen(s, clock, w, c);
    WriteSends(s, clock, w, g.world, g.session, params, reboot, keys, w', c', written);
  }

  /** The stages after the read, which was sent from the state before. */
  lemma WriteSends(s: Schema, clock: nat -> nat, before: World, w: World, c: Session, params: map<text, text>, reboot: bool, keys: seq<text>,
                   w': World, c': Session, written: Option<map<text, text>>)
    requires HasInterface(s) && InStep(s, w, c) && c.cache != map[] && CacheAgrees(s, c.cache, Target(w, c).working)
    requires SeenUp(w, c, before.net.ticks + 1) && !Target(w, c).cfg.unreachable && Canonical(s, params)
    requires WriteRan(s, clock, w, c, Backup.WithInterface(s, params, c.cache), reboot, keys, w', c', written)
    ensures SentAs(clock, before, Target(w, c).cfg, Encodable(s, params), reboot, w', c', written)
  {
    var config := Backup.WithInterface(s, params, c.cache);
    ChoiceEncodes(s, params, c.cache);
    WriteStageSeen(s, clock, w, c, config);
    RanFinishes(s, clock, w, c, config, reboot, keys, w', c', written);
    FinishSends(s, clock, before, Target(w, c).cfg, Encodable(s, params), Perform(s, clock, w, c, Store(config)), config, reboot, w', c', written);
  }

  /** The end of the command, after its write. */
  lemma FinishSends(s: Schema, clock: nat -> nat, before: World, cfg: Config, encodes: bool, o: Outcome, config: map<text, text>, reboot: bool,
                    w': World, c': Session, written: Option<map<text, text>>)
    requires s.Valid() && InStep(s, o.world, o.session) && Target(o.world, o.session).cfg == cfg && !cfg.unreachable
    requires (o.ok <==> encodes && !FailsOn(cfg, OpSet)) && SeenUp(o.world, o.session, before.net.ticks + (if encodes then 2 else 1))
    requires Finishes(s, clock, o, config, reboot, w', c', written)
    ensures SentAs(clock, before, cfg, encodes, reboot, w', c', written)
  {
    ResetSeen(s, clock, o.world, o.session);
    EndsSeen(clock, before, cfg, encodes, o, Reset(s, clock, o.world, o.session), config, reboot, w', c', written);
  }

  /** How the command ends, given how its write ended and how a reset would. */
  lemma EndsSeen(clock: nat -> nat, w: World, cfg: Config, encodes: bool, o: Outcome, r: Outcome, config: map<text, text>, reboot: bool,
                 w': World, c': Session, written: Option<map<text, text>>)
    requires MacText.MacString(o.session.m) in o.world.net.devices && (o.ok <==> encodes && !FailsOn(cfg, OpSet))
    requires SeenUp(o.world, o.session, w.net.ticks + (if encodes then 2 else 1))
    requires ResetSent(clock, o.world, cfg, r)
    requires FinishesWith(o, r, config, reboot, w', c', written)
    ensures SentAs(clock, w, cfg, encodes, reboot, w', c', written)
  {
    if o.ok && reboot {
      EndsWithReset(clock, w, cfg, o, r, config, w', c', written);
    } else {
      EndsWithWrite(clock, w, cfg, encodes, o, config, reboot, w', c', written);
    }
  }

  lemma EndsWithWrite(clock: nat -> nat, w: World, cfg: Config, encodes: bool, o: Outcome, config: map<text, text>, reboot: bool,
                      w': World, c': Session, written: Option<map<text, text>>)
    requires (o.ok <==> encodes && !FailsOn(cfg, OpSet)) && (!o.ok || !reboot)
    requires MacText.MacString(o.session.m) in o.world.net.devices
    requires SeenUp(o.world, o.session, w.net.ticks + (if encodes then 2 else 1))
    requires (w', c', written) == (o.world, o.session, if o.ok then Some(config) else None)
    ensures SentAs(clock, w, cfg, encodes, reboot, w', c', written)
  {
  }

  lemma EndsWithReset(clock: nat -> nat, w: World, cfg: Config, o: Outcome, r: Outcome, config: map<text, text>,
                      w': World, c': Session, written: Option<map<text, text>>)
    requires !FailsOn(cfg, OpSet) && o.world.net.ticks == w.net.ticks + 2 && ResetSent(clock, o.world, cfg, r)
    requires (w', c', written) == (r.world, r.session, if r.ok then Some(config) else None)
    ensures SentAs(clock, w, cfg, true, true, w', c', written)
  {
  }

  /** A reset of a device that is up: one packet, after which it is down unless it refuses. */
  ghost predicate ResetSent(clock: nat -> nat, w: World, cfg: Config, r: Outcome) {
    && (r.ok <==> !FailsOn(cfg, OpReset))
    && Sent(w, 1, r.world, r.session, if r.ok then Some(clock(w.net.ticks) + cfg.rebootDelay) else None)
  }

  lemma ResetSeen(s: Schema, clock: nat -> nat, w: World, c: Session)
    requires s.Valid() && InStep(s, w, c) && Target(w, c).rebootDeadline.None? && !Target(w, c).cfg.unreachable
    ensures ResetSent(clock, w, Target(w, c).cfg, Reset(s, clock, w, c))
  {
    ResetEffect(s, clock, w, c);
    ResetIsSent(clock, w, c, Reset(s, clock, w, c));
  }

  lemma ResetIsSent(clock: nat -> nat, w: World, c: Session, r: Outcome)
    requires Hosts(w, c) && ResetOutcome(w, c, clock(w.net.ticks), r)
    requires Target(w, c).rebootDeadline.None? && !Target(w, c).cfg.unreachable
    ensures ResetSent(clock, w, Target(w, c).cfg, r)
  {
  }

  /** Invalid inputs end the command before it sends anything. */
  lemma InvalidInputsSendNothing(s: Schema, clock: nat -> nat, w: World, c: Session, src: Backup.Sources, params: Option<map<text, text>>,
                                 reboot: bool, keys: seq<text>, w': World, c': Session, written: Option<map<text, text>>, k: text)
    requires Inputs(s, src, params) && CommandRan(s, clock, w, c, params, reboot, keys, w', c', written)
    requires k in src.flags && !Validation.Accepts(s, k, src.flags[k])
    ensures (w', c', written) == (w, c, None)
  {
  }
}
