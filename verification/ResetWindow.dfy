/** What a reset does to the device: it is down for its reboot delay, and what it reports afterwards
    is what it had stored. */
module ResetWindow {
  import opened Bytes
  import opened Parameters
  import opened SimDevice
  import opened ClientProtocol
  import opened LockStep
  import opened ReadModifyWrite
  import opened ReadContents
  import opened Runs
  import MacText

  /** The target takes a reset that arrives now. */
  predicate TakesReset(d: DeviceState, now: nat) {
    !d.cfg.unreachable && !(d.rebootDeadline.Some? && now < d.rebootDeadline.value) && !FailsOn(d.cfg, OpReset)
  }

  /** A reset that is taken opens a window of exactly the reboot delay; one that is not leaves the
      target as far from its window as it was. Either way the session stays in step with the target. */
  lemma ResetOpensWindow(s: Schema, clock: nat -> nat, w: World, c: Session, t: nat)
    requires s.Valid() && Hosts(w, c) && Quiet(w, c)
    ensures var o, d, now := Reset(s, clock, w, c), Target(w, c), clock(w.net.ticks);
            && SameTarget(c, o.session) && OnlyTargetChanged(w, o.world, c)
            && Hosts(o.world, o.session) && Quiet(o.world, o.session) && Target(o.world, o.session).cfg == d.cfg
            && o.session.cache == c.cache && o.world.net.ticks == w.net.ticks + 1
            && (TakesReset(d, now) ==> o.ok && (InRebootWindow(Target(o.world, o.session), t) <==> t < now + d.cfg.rebootDelay))
            && (!TakesReset(d, now) && t >= now ==> (InRebootWindow(Target(o.world, o.session), t) <==> InRebootWindow(d, t)))
  {
    ResetEffect(s, clock, w, c);
  }

  /** A reset leaves the stored values, which are what the target reports from once it is back. */
  lemma ResetKeepsStored(s: Schema, clock: nat -> nat, w: World, c: Session)
    requires s.Valid() && Hosts(w, c) && Quiet(w, c) && TakesReset(Target(w, c), clock(w.net.ticks))
    ensures var o := Reset(s, clock, w, c);
            && MacText.MacString(o.session.m) in o.world.net.devices
            && Memory(Target(o.world, o.session)) == Target(w, c).nvram
  {
    ResetEffect(s, clock, w, c);
  }

  /** The read after a reset, key by key: it gets no answer while the target is down; later it is
      answered, if the target answers reads at all, from what was stored before the reset. */
  lemma ReadAfterReset(s: Schema, clock: nat -> nat, w: World, c: Session, k: text)
    requires s.Valid() && Hosts(w, c) && Quiet(w, c) && ReplyFits(s, Target(w, c).cfg)
    requires TakesReset(Target(w, c), clock(w.net.ticks))
    ensures var d, o := Target(w, c), Reset(s, clock, w, c);
            var g := GetAll(s, clock, o.world, o.session);
            var down := clock(w.net.ticks + 1) < clock(w.net.ticks) + d.cfg.rebootDelay;
            && (g.ok <==> !down && AnswersReads(d.cfg))
            && (g.ok ==> CachedAt(s, c.cache, d.nvram, d.cfg.unknownOffsets, g.session.cache, k))
            && (!g.ok ==> g.session.cache == c.cache)
  {
    var o := Reset(s, clock, w, c);
    ResetOpensWindow(s, clock, w, c, clock(w.net.ticks + 1));
    ResetKeepsStored(s, clock, w, c);
    FullReadCaches(s, clock, o.world, o.session, k);
  }

  /** In step, these are the registers from before the reset. */
  lemma ReadAfterResetReturns(s: Schema, clock: nat -> nat, w: World, c: Session, n: text)
    requires s.Valid() && InStep(s, w, c) && TakesReset(Target(w, c), clock(w.net.ticks)) && n in s.Names()
    ensures var d, o := Target(w, c), Reset(s, clock, w, c);
            var g := GetAll(s, clock, o.world, o.session);
            && (g.ok <==> AnswersReads(d.cfg) && clock(w.net.ticks + 1) >= clock(w.net.ticks) + d.cfg.rebootDelay)
            && (g.ok ==> n in g.session.cache && g.session.cache[n] == Registers(s, w, c)[n])
  {
    ReadAfterReset(s, clock, w, c, n);
  }
}
