/** What one `set` command does to the device it is given, whatever the device holds and however it is
    configured: all of what was asked for or none of it, and what becomes of the interface. */
module CommandEffect {
  import opened Bytes
  import opened Parameters
  import opened SimDevice
  import opened ClientProtocol
  import opened LockStep
  import opened ReadModifyWrite
  import opened Runs
  import opened SetEffect
  import opened Backup
  import opened Restore
  import opened SetCommand
  import MacText

  /** Wireless if a network name is given, wired otherwise. */
  function InterfaceFor(params: map<text, text>): text {
    if Ascii("wireless_SSID") in params && params[Ascii("wireless_SSID")] != [] then Ascii("0") else Ascii("1")
  }

  /** One register after the parameters have been written. An interface that is not among them and was
      reported as it left the factory is chosen; any other register that is not named keeps its value. */
  ghost predicate AskedAt(s: Schema, n: text, before: text, params: map<text, text>, after: text)
    requires n in s.Names()
  {
    if n in params then Encode(s.Get(n).length, params[n]).Some? && after == Canon(s.Get(n).length, params[n])
    else if n == Ascii("interface") && before == s.Get(n).factoryDefault then after == InterfaceFor(params)
    else after == before
  }

  ghost predicate Asked(s: Schema, before: map<text, text>, params: map<text, text>, after: map<text, text>)
    requires before.Keys == s.Names() == after.Keys
  {
    forall n :: n in s.Names() ==> AskedAt(s, n, before[n], params, after[n])
  }

  /** What the command reports as written. */
  ghost predicate Reports(s: Schema, before: map<text, text>, params: map<text, text>, written: map<text, text>)
    requires before.Keys == s.Names()
  {
    var i := Ascii("interface");
    if i !in params && i in s.Names() && before[i] == s.Get(i).factoryDefault
    then written == params[i := InterfaceFor(params)]
    else written == params
  }

  /** The table has a one-byte interface parameter. */
  ghost predicate HasInterface(s: Schema) {
    s.Valid() && INTERFACE in s.Names() && s.Get(INTERFACE).length == 1
  }

  lemma RegisterKeys(s: Schema, w: World, c: Session)
    requires MacText.MacString(c.m) in w.net.devices
    ensures Registers(s, w, c).Keys == s.Names()
  {
  }

  // ---- The choice ----------------------------------------------------------------------

  lemma ChoiceReports(s: Schema, cache: map<text, text>, regs: map<text, text>, params: map<text, text>)
    requires HasInterface(s) && Restore.Holds(s, cache, regs) && regs.Keys == s.Names()
    ensures Reports(s, regs, params, WithInterface(s, params, cache))
  {
    s.ByNameExactly(INTERFACE);
    assert INTERFACE in cache && cache[INTERFACE] == regs[INTERFACE];
  }

  lemma InterfaceEncodes(params: map<text, text>)
    ensures Encode(1, InterfaceFor(params)).Some? && Canon(1, InterfaceFor(params)) == InterfaceFor(params)
  {
    BinaryIsCanonical(Ascii("0"));
    BinaryIsCanonical(Ascii("1"));
  }

  /** Writing what the command reports changes the registers as asked. */
  lemma ReportedIsAsked(s: Schema, regs: map<text, text>, params: map<text, text>, config: map<text, text>)
    requires HasInterface(s) && regs.Keys == s.Names() && Reports(s, regs, params, config)
    requires Canonical(s, config) && Encodable(s, config)
    ensures Written(s, regs, config).Keys == s.Names() && Asked(s, regs, params, Written(s, regs, config))
  {
    WrittenKeys(s, regs, config);
    var after := Written(s, regs, config);
    InterfaceEncodes(params);
    forall n | n in s.Names() ensures AskedAt(s, n, regs[n], params, after[n]) {
      s.ByNameExactly(n);
      assert n in config ==> n in KnownKeys(s, config);
      WrittenAt(s, regs, config, n);
    }
  }

  lemma WrittenAt(s: Schema, regs: map<text, text>, config: map<text, text>, n: text)
    requires n in s.Names() && regs.Keys == s.Names() && (n in config ==> Encode(s.Get(n).length, config[n]).Some?)
    ensures n in Written(s, regs, config)
    ensures Written(s, regs, config)[n] == if n in config then Canon(s.Get(n).length, config[n]) else regs[n]
  {
  }

  // ---- The stages ----------------------------------------------------------------------

  lemma ReadStage(s: Schema, w: World, c: Session, now: nat, g: Outcome)
    requires s.Valid() && InStep(s, w, c) && ReadOutcome(s, w, c, now, g)
    ensures SameTarget(c, g.session) && OnlyTargetChanged(w, g.world, c) && InStep(s, g.world, g.session)
    ensures Registers(s, g.world, g.session) == Registers(s, w, c)
    ensures g.ok ==> Restore.Holds(s, g.session.cache, Registers(s, w, c))
  {
    ReadStep(s, w, c, now, g);
    if g.ok {
      var read :| g.session.cache == Refresh(c.cache, read) && IsFullRead(s, read, AfterRebootCheck(Target(w, c), now).working);
    }
  }

  /** The state a command ends in, against the registers it started from. */
  ghost predicate Ends(s: Schema, w: World, c: Session, params: map<text, text>, reboot: bool,
                       w': World, c': Session, written: Option<map<text, text>>)
    requires MacText.MacString(c.m) in w.net.devices
  {
    && SameTarget(c, c') && OnlyTargetChanged(w, w', c) && InStep(s, w', c')
    && var before, after := Registers(s, w, c), Registers(s, w', c');
       && (written.Some? ==> Reports(s, before, params, written.value) && Asked(s, before, params, after))
       && (written.None? ==> after == before || (reboot && Asked(s, before, params, after)))
  }

  /** The command after its write has ended in o. */
  ghost predicate Finishes(s: Schema, clock: nat -> nat, o: Outcome, config: map<text, text>, reboot: bool,
                           w': World, c': Session, written: Option<map<text, text>>) {
    FinishesWith(o, Reset(s, clock, o.world, o.session), config, reboot, w', c', written)
  }

  /** The same with the outcome of the reset that may follow. */
  ghost predicate FinishesWith(o: Outcome, r: Outcome, config: map<text, text>, reboot: bool,
                               w': World, c': Session, written: Option<map<text, text>>) {
    if !o.ok || !reboot then (w', c', written) == (o.world, o.session, if o.ok then Some(config) else None)
    else (w', c', written) == (r.world, r.session, if r.ok then Some(config) else None)
  }

  lemma RanFinishes(s: Schema, clock: nat -> nat, w: World, c: Session, config: map<text, text>, reboot: bool, keys: seq<text>,
                    w': World, c': Session, written: Option<map<text, text>>)
    requires s.Valid() && InStep(s, w, c) && Canonical(s, config)
    requires WriteRan(s, clock, w, c, config, reboot, keys, w', c', written)
    ensures Finishes(s, clock, Perform(s, clock, w, c, Store(config)), config, reboot, w', c', written)
  {
    SetIsStore(s, clock, w, c, config, keys);
  }

  /** What a set does, seen from the command. */
  ghost predicate Stored(s: Schema, w: World, c: Session, params: map<text, text>, o: Outcome)
    requires MacText.MacString(c.m) in w.net.devices
  {
    && SameTarget(c, o.session) && OnlyTargetChanged(w, o.world, c) && InStep(s, o.world, o.session)
    && (o.ok ==> Asked(s, Registers(s, w, c), params, Registers(s, o.world, o.session)))
    && (!o.ok ==> Registers(s, o.world, o.session) == Registers(s, w, c))
  }

  lemma StoreStage(s: Schema, clock: nat -> nat, w: World, c: Session, params: map<text, text>, config: map<text, text>)
    requires HasInterface(s) && InStep(s, w, c) && Canonical(s, config)
    requires Reports(s, Registers(s, w, c), params, config)
    ensures Stored(s, w, c, params, Perform(s, clock, w, c, Store(config)))
  {
    SetStep(s, clock, w, c, config);
    StoredAsAsked(s, w, c, params, config, Perform(s, clock, w, c, Store(config)));
  }

  lemma StoredAsAsked(s: Schema, w: World, c: Session, params: map<text, text>, config: map<text, text>, o: Outcome)
    requires HasInterface(s) && MacText.MacString(c.m) in w.net.devices && Canonical(s, config)
    requires Reports(s, Registers(s, w, c), params, config)
    requires SameTarget(c, o.session) && OnlyTargetChanged(w, o.world, c) && InStep(s, o.world, o.session)
    requires Registers(s, o.world, o.session) ==
             if o.ok then Written(s, Registers(s, w, c), config) else Registers(s, w, c)
    requires o.ok ==> Encodable(s, config)
    ensures Stored(s, w, c, params, o)
  {
    if o.ok {
      ReportedIsAsked(s, Registers(s, w, c), params, config);
    }
  }

  lemma FinishEnds(s: Schema, clock: nat -> nat, w: World, c: Session, params: map<text, text>, config: map<text, text>, reboot: bool,
                   o: Outcome, w': World, c': Session, written: Option<map<text, text>>)
    requires s.Valid() && MacText.MacString(c.m) in w.net.devices && Stored(s, w, c, params, o)
    requires Reports(s, Registers(s, w, c), params, config)
    requires Finishes(s, clock, o, config, reboot, w', c', written)
    ensures Ends(s, w, c, params, reboot, w', c', written)
  {
    if o.ok && reboot {
      ResetStage(s, clock, o.world, o.session);
      ResetEnds(s, w, c, params, config, o, Reset(s, clock, o.world, o.session));
    }
  }

  lemma WriteStage(s: Schema, clock: nat -> nat, w: World, c: Session, params: map<text, text>, config: map<text, text>, reboot: bool,
                   keys: seq<text>, w': World, c': Session, written: Option<map<text, text>>)
    requires HasInterface(s) && InStep(s, w, c) && Canonical(s, config)
    requires Reports(s, Registers(s, w, c), params, config)
    requires WriteRan(s, clock, w, c, config, reboot, keys, w', c', written)
    ensures Ends(s, w, c, params, reboot, w', c', written)
  {
    RanFinishes(s, clock, w, c, config, reboot, keys, w', c', written);
    StoreStage(s, clock, w, c, params, config);
    FinishEnds(s, clock, w, c, params, config, reboot, Perform(s, clock, w, c, Store(config)), w', c', written);
  }

  lemma ResetStage(s: Schema, clock: nat -> nat, w: World, c: Session)
    requires s.Valid() && InStep(s, w, c)
    ensures var r := Reset(s, clock, w, c);
            && SameTarget(c, r.session) && OnlyTargetChanged(w, r.world, c) && InStep(s, r.world, r.session)
            && Registers(s, r.world, r.session) == Registers(s, w, c)
  {
    ResetEffect(s, clock, w, c);
    ResetStep(s, w, c, clock(w.net.ticks), Reset(s, clock, w, c));
  }

  lemma ResetEnds(s: Schema, w: World, c: Session, params: map<text, text>, config: map<text, text>, o: Outcome, r: Outcome)
    requires MacText.MacString(c.m) in w.net.devices && Stored(s, w, c, params, o) && o.ok
    requires Reports(s, Registers(s, w, c), params, config)
    requires SameTarget(o.session, r.session) && OnlyTargetChanged(o.world, r.world, o.session) && InStep(s, r.world, r.session)
    requires Registers(s, r.world, r.session) == Registers(s, o.world, o.session)
    ensures Ends(s, w, c, params, true, r.world, r.session, if r.ok then Some(config) else None)
  {
  }

  lemma EndsFrom(s: Schema, w: World, c: Session, g: Outcome, params: map<text, text>, reboot: bool,
                 w': World, c': Session, written: Option<map<text, text>>)
    requires Hosts(w, c) && Hosts(g.world, g.session) && SameTarget(c, g.session) && OnlyTargetChanged(w, g.world, c)
    requires Registers(s, g.world, g.session) == Registers(s, w, c)
    requires Ends(s, g.world, g.session, params, reboot, w', c', written)
    ensures Ends(s, w, c, params, reboot, w', c', written)
  {
  }

  /** Whatever the device holds, refuses, drops or garbles, and for every packet order: a `set` command
      that reports success has changed the registers exactly as asked; one that reports an error has
      changed none of them, unless all that failed was the reset it was asked for. No other device
      changes. */
  lemma CommandIsAtomic(s: Schema, clock: nat -> nat, w: World, c: Session, params: map<text, text>, reboot: bool, keys: seq<text>,
                        w': World, c': Session, written: Option<map<text, text>>)
    requires HasInterface(s) && InStep(s, w, c) && Canonical(s, params)
    requires CommandRan(s, clock, w, c, Some(params), reboot, keys, w', c', written)
    ensures Ends(s, w, c, params, reboot, w', c', written)
  {
    var g := GetAll(s, clock, w, c);
    GetAllEffect(s, clock, w, c);
    ReadStage(s, w, c, clock(w.net.ticks), g);
    if g.ok {
      WriteFrom(s, clock, g, params, reboot, keys, w', c', written);
      EndsFrom(s, w, c, g, params, reboot, w', c', written);
    } else {
      ReadFailed(s, w, c, g, params, reboot);
    }
  }

  lemma ReadFailed(s: Schema, w: World, c: Session, g: Outcome, params: map<text, text>, reboot: bool)
    requires MacText.MacString(c.m) in w.net.devices
    requires SameTarget(c, g.session) && OnlyTargetChanged(w, g.world, c) && InStep(s, g.world, g.session)
    requires Registers(s, g.world, g.session) == Registers(s, w, c)
    ensures Ends(s, w, c, params, reboot, g.world, g.session, None)
  {
  }

  /** The write, with what the read has cached. */
  lemma WriteFrom(s: Schema, clock: nat -> nat, g: Outcome, params: map<text, text>, reboot: bool,
                  keys: seq<text>, w': World, c': Session, written: Option<map<text, text>>)
    requires HasInterface(s) && InStep(s, g.world, g.session) && Canonical(s, params) && g.ok
    requires Restore.Holds(s, g.session.cache, Registers(s, g.world, g.session))
    requires AfterRead(s, clock, g, params, reboot, keys, w', c', written)
    ensures Ends(s, g.world, g.session, params, reboot, w', c', written)
  {
    var config := WithInterface(s, params, g.session.cache);
    var regs := Registers(s, g.world, g.session);
    ChoiceReports(s, g.session.cache, regs, params);
    ChosenIsCanonical(s, regs, params, config);
    WriteStage(s, clock, g.world, g.session, params, config, reboot, keys, w', c', written);
  }

  lemma ChosenIsCanonical(s: Schema, regs: map<text, text>, params: map<text, text>, config: map<text, text>)
    requires HasInterface(s) && regs.Keys == s.Names() && Canonical(s, params) && Reports(s, regs, params, config)
    ensures Canonical(s, config)
  {
    forall k | k in KnownKeys(s, config) ensures k in s.Names() {
      assert k == INTERFACE || k in KnownKeys(s, params);
    }
  }

  /** On a device that is up, a command whose values encode and that asks for no reset succeeds. */
  lemma CommandSucceeds(s: Schema, clock: nat -> nat, w: World, c: Session, params: map<text, text>, keys: seq<text>,
                        w': World, c': Session, written: Option<map<text, text>>)
    requires HasInterface(s) && InStep(s, w, c) && Up(w, c) && Canonical(s, params) && Encodable(s, params)
    requires CommandRan(s, clock, w, c, Some(params), false, keys, w', c', written)
    ensures written.Some? && Ends(s, w, c, params, false, w', c', written)
  {
    CommandIsAtomic(s, clock, w, c, params, false, keys, w', c', written);
    var g := GetAll(s, clock, w, c);
    ReadReturns(s, clock, w, c);
    InterfaceIsFine(s, params, g.session.cache);
    var config := WithInterface(s, params, g.session.cache);
    WriteReturns(s, clock, g.world, g.session, config);
    SetIsStore(s, clock, g.world, g.session, config, keys);
  }

  /** The interface before and after. */
  ghost predicate ChangedExactly(s: Schema, was: text, became: text, params: map<text, text>, written: Option<map<text, text>>)
    requires INTERFACE in s.Names()
  {
    && (became != was <==> was == s.Get(INTERFACE).factoryDefault)
    && (became != was ==> became == InterfaceFor(params))
    && (became == was ==> written == Some(params))
  }

  lemma AskedInterface(s: Schema, before: map<text, text>, params: map<text, text>, after: map<text, text>, written: map<text, text>)
    requires HasInterface(s) && before.Keys == s.Names() == after.Keys && Ascii("interface") !in params
    requires s.Get(INTERFACE).factoryDefault != Ascii("0") && s.Get(INTERFACE).factoryDefault != Ascii("1")
    requires Reports(s, before, params, written) && Asked(s, before, params, after)
    ensures ChangedExactly(s, before[INTERFACE], after[INTERFACE], params, Some(written))
  {
    assert AskedAt(s, INTERFACE, before[INTERFACE], params, after[INTERFACE]);
  }

  /** A command that does not name the interface changes it exactly when the device reported the
      sentinel, and then the network name decides; otherwise what is written is what was given. */
  lemma InterfaceChangesExactly(s: Schema, clock: nat -> nat, w: World, c: Session, params: map<text, text>, keys: seq<text>,
                                w': World, c': Session, written: Option<map<text, text>>)
    requires HasInterface(s) && InStep(s, w, c) && Up(w, c) && Canonical(s, params) && Encodable(s, params)
    requires s.Get(INTERFACE).factoryDefault != Ascii("0") && s.Get(INTERFACE).factoryDefault != Ascii("1")
    requires Ascii("interface") !in params
    requires CommandRan(s, clock, w, c, Some(params), false, keys, w', c', written)
    ensures MacText.MacString(c'.m) in w'.net.devices
    ensures ChangedExactly(s, Registers(s, w, c)[INTERFACE], Registers(s, w', c')[INTERFACE], params, written)
  {
    CommandSucceeds(s, clock, w, c, params, keys, w', c', written);
    AskedInterface(s, Registers(s, w, c), params, Registers(s, w', c'), written.value);
  }
}
