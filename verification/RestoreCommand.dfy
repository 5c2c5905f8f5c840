/** Backup and restore through the `set` command as it runs: whatever order its packet gets, with or
    without the reset at the end. */
module RestoreCommand {
  import opened Bytes
  import opened Parameters
  import opened SimDevice
  import opened ClientProtocol
  import opened LockStep
  import opened ReadModifyWrite
  import opened Runs
  import opened SetEffect
  import opened Backup
  import opened Restore
  import opened SetCommand
  import Ini
  import MacText

  /** The write of the command is the one of the table order. */
  lemma WriteRanIsStore(s: Schema, clock: nat -> nat, w: World, c: Session, config: map<text, text>, reboot: bool, keys: seq<text>,
                        w': World, c': Session, written: Option<map<text, text>>)
    requires s.Valid() && InStep(s, w, c) && Canonical(s, config) && Perform(s, clock, w, c, Store(config)).ok
    requires WriteRan(s, clock, w, c, config, reboot, keys, w', c', written)
    ensures EndedWith(s, clock, Perform(s, clock, w, c, Store(config)), config, reboot, w', c', written)
  {
    SetIsStore(s, clock, w, c, config, keys);
  }

  /** The command after its write: the reset, if it is asked for. */
  ghost predicate EndedWith(s: Schema, clock: nat -> nat, o: Outcome, config: map<text, text>, reboot: bool,
                            w': World, c': Session, written: Option<map<text, text>>) {
    if !reboot then (w', c', written) == (o.world, o.session, Some(config))
    else
      var r := Reset(s, clock, o.world, o.session);
      (w', c', written) == (r.world, r.session, if r.ok then Some(config) else None)
  }

  /** A reset that follows a write keeps every register, and is reported as done unless the device
      refuses it. */
  lemma EndKeepsRegisters(s: Schema, clock: nat -> nat, o: Outcome, config: map<text, text>, reboot: bool,
                          w': World, c': Session, written: Option<map<text, text>>)
    requires s.Valid() && InStep(s, o.world, o.session) && Up(o.world, o.session)
    requires EndedWith(s, clock, o, config, reboot, w', c', written)
    ensures SameTarget(o.session, c') && InStep(s, w', c') && Registers(s, w', c') == Registers(s, o.world, o.session)
    ensures written.Some? <==> !reboot || !FailsOn(Target(w', c').cfg, OpReset)
    ensures !reboot ==> Up(w', c')
  {
    if reboot {
      var now, r := clock(o.world.net.ticks), Reset(s, clock, o.world, o.session);
      ResetEffect(s, clock, o.world, o.session);
      ResetStep(s, o.world, o.session, now, r);
      ResetOfUp(s, o.world, o.session, now, r);
    }
  }

  lemma ResetOfUp(s: Schema, w: World, c: Session, now: nat, o: Outcome)
    requires InStep(s, w, c) && Up(w, c) && ResetOutcome(w, c, now, o)
    ensures o.session.m == c.m && MacText.MacString(c.m) in o.world.net.devices
    ensures o.ok <==> !FailsOn(Target(o.world, o.session).cfg, OpReset)
  {
  }

  /** What a device reports once the command has run on it. */
  ghost predicate Leaves(s: Schema, c: Session, w': World, c': Session, reboot: bool, written: Option<map<text, text>>, regs: map<text, text>) {
    && SameTarget(c, c') && InStep(s, w', c') && Registers(s, w', c') == regs
    && (written.Some? <==> !reboot || !FailsOn(Target(w', c').cfg, OpReset))
    && (!reboot ==> Up(w', c'))
  }

  lemma SetRanLeaves(s: Schema, clock: nat -> nat, w: World, c: Session, params: map<text, text>, reboot: bool, keys: seq<text>,
                     w': World, c': Session, written: Option<map<text, text>>)
    requires Restorable(s) && InStep(s, w, c) && Up(w, c) && Canonical(s, params) && Encodable(s, params)
    requires SetRan(s, clock, w, c, params, reboot, keys, w', c', written)
    ensures var o := Restore.RunSet(s, clock, w, c, params);
            Hosts(o.world, o.session) && Leaves(s, c, w', c', reboot, written, Registers(s, o.world, o.session))
  {
    var g, o := GetAll(s, clock, w, c), Restore.RunSet(s, clock, w, c, params);
    ReadReturns(s, clock, w, c);
    InterfaceIsFine(s, params, g.session.cache);
    RunSetReturns(s, clock, w, c, params);
    var config := WithInterface(s, params, g.session.cache);
    WriteRanIsStore(s, clock, g.world, g.session, config, reboot, keys, w', c', written);
    EndKeepsRegisters(s, clock, o, config, reboot, w', c', written);
  }

  /** The `set` command, given the changed values of one device, leaves another that had factory
      settings with the restored registers. */
  lemma CommandRestores(s: Schema, clock: nat -> nat, w: World, c: Session, values: map<text, text>, reboot: bool, keys: seq<text>,
                        w': World, c': Session, written: Option<map<text, text>>)
    requires Restorable(s) && Reported(s, values) && Factory(s, w, c)
    requires CommandRan(s, clock, w, c, Some(Filter(s, values)), reboot, keys, w', c', written)
    ensures Leaves(s, c, w', c', reboot, written, Restored(s, values))
  {
    FilterIsFine(s, values);
    SetRanLeaves(s, clock, w, c, Filter(s, values), reboot, keys, w', c', written);
    RestoredRun(s, clock, w, c, values);
  }

  lemma PipedInputs(s: Schema, src: Sources, params: Option<map<text, text>>, kept: map<text, text>)
    requires Inputs(s, src, params) && src.flags == map[] && FromText(s, src) == Some(kept) && kept != map[]
    ensures params == Some(kept)
  {
    assert kept + map[] == kept;
  }

  /** The text that `read` prints for one device, piped into `set` for another that has factory
      settings: however the packet is ordered, that device then has the registers of the first, the
      interface sentinel apart. */
  lemma CommandRoundTrip(s: Schema, clock: nat -> nat, w: World, c: Session, read: map<text, text>, list: seq<ParamValue>,
                         clock': nat -> nat, v: World, d: Session, params: Option<map<text, text>>, reboot: bool, keys: seq<text>,
                         v': World, d': Session, written: Option<map<text, text>>)
    requires Restorable(s) && Backed(s, clock, w, c, read) && SortedList(Filter(s, read), list) && Factory(s, v, d)
    requires Filter(s, read) != map[] && forall n :: n in Filter(s, read) ==> Settable(s, n, read[n])
    requires Inputs(s, Sources(None, Some(Ini.Print(Filter(s, read), NamesIn(list))), true, map[]), params)
    requires CommandRan(s, clock', v, d, params, reboot, keys, v', d', written)
    ensures Reported(s, Registers(s, w, c)) && Leaves(s, d, v', d', reboot, written, Restored(s, Registers(s, w, c)))
  {
    PipedParams(s, clock, w, c, read, list);
    var kept := Filter(s, Registers(s, w, c));
    PipedInputs(s, Sources(None, Some(Ini.Print(Filter(s, read), NamesIn(list))), true, map[]), params, kept);
    CommandRestores(s, clock', v, d, Registers(s, w, c), reboot, keys, v', d', written);
  }
}
