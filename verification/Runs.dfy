/** Whole runs of one client against its target: the cache, the device and the queue stay in step,
    and the device behaves like one register file that each successful write updates at once. */
module Runs {
  import opened Bytes
  import opened Parameters
  import opened SimDevice
  import opened ClientProtocol
  import opened LockStep
  import opened ReadModifyWrite
  import MacText

  /** Every parameter is cached under its canonical name, with a value that would be written and
      read back as what the device reports now. */
  ghost predicate CacheAgrees(s: Schema, cache: map<text, text>, working: map<text, text>) {
    && Canonical(s, cache)
    && forall n :: n in s.Names() ==>
         n in cache && Encode(s.Get(n).length, cache[n]).Some? &&
         Canon(s.Get(n).length, cache[n]) == Reading(s.Get(n), working)
  }

  /** Device and client between two operations. */
  ghost predicate InStep(s: Schema, w: World, c: Session) {
    && Hosts(w, c) && Quiet(w, c)
    && ReplyFits(s, Target(w, c).cfg)
    && Target(w, c).working == Target(w, c).nvram
    && (c.cache == map[] || CacheAgrees(s, c.cache, Target(w, c).working))
  }

  /** The values a full read would report. */
  function Registers(s: Schema, w: World, c: Session): map<text, text>
    requires MacText.MacString(c.m) in w.net.devices
  {
    Readings(s, Target(w, c).working)
  }

  /** A write seen from outside: the named registers take the canonical form of their new values,
      the others keep theirs. */
  function Written(s: Schema, regs: map<text, text>, config: map<text, text>): map<text, text> {
    map n | n in s.Names() ::
      if n in config && Encode(s.Get(n).length, config[n]).Some? then Canon(s.Get(n).length, config[n])
      else Lookup(regs, n)
  }

  lemma ReadingOfCanon(p: Parameter, working: map<text, text>, v: text)
    requires p.length > 0 && Encode(p.length, v).Some?
    requires p.name in working && working[p.name] == Canon(p.length, v)
    ensures Reading(p, working) == Canon(p.length, v)
  {
    CanonIdempotent(p.length, v);
    EncodersAgree(p.length, working[p.name]);
  }

  /** Read-modify-write: merging over a cache that agrees with the device changes the configured
      parameters to the canonical form of their new values and no other. */
  lemma WriteRegisters(s: Schema, d: DeviceState, cache: map<text, text>, config: map<text, text>, keys: seq<text>)
    requires s.Valid() && CacheAgrees(s, cache, d.working)
    requires Canonical(s, cache + config) && Encodable(s, cache + config) && Listing(s, cache + config, keys)
    ensures var d' := AfterSet(s, d, ItemsFor(s, cache + config, keys));
            && Readings(s, d'.working) == Written(s, Readings(s, d.working), config)
            && CacheAgrees(s, cache + config, d'.working)
            && d'.working == d'.nvram
  {
    var all := cache + config;
    var working := AfterSet(s, d, ItemsFor(s, all, keys)).working;
    var regs := Written(s, Readings(s, d.working), config);
    forall n | n in s.Names() ensures RegisterIs(s.Get(n), all, working, regs) {
      WriteRegister(s, d, cache, config, keys, n);
    }
    CollectRegisters(s, all, working, regs);
  }

  /** One register: what is cached for it, what the device reports, and what it should hold. */
  ghost predicate RegisterIs(p: Parameter, cache: map<text, text>, working: map<text, text>, regs: map<text, text>) {
    && p.name in cache && p.name in regs && Encode(p.length, cache[p.name]).Some?
    && Reading(p, working) == Canon(p.length, cache[p.name]) == regs[p.name]
  }

  lemma CollectRegisters(s: Schema, cache: map<text, text>, working: map<text, text>, regs: map<text, text>)
    requires Canonical(s, cache) && regs.Keys == s.Names()
    requires forall n :: n in s.Names() ==> RegisterIs(s.Get(n), cache, working, regs)
    ensures Readings(s, working) == regs
    ensures CacheAgrees(s, cache, working)
  {
    forall n | n in s.Names() ensures Readings(s, working)[n] == regs[n] {
      assert RegisterIs(s.Get(n), cache, working, regs);
    }
  }

  lemma WriteRegister(s: Schema, d: DeviceState, cache: map<text, text>, config: map<text, text>, keys: seq<text>, n: text)
    requires s.Valid() && CacheAgrees(s, cache, d.working) && n in s.Names()
    requires Canonical(s, cache + config) && Encodable(s, cache + config) && Listing(s, cache + config, keys)
    ensures RegisterIs(s.Get(n), cache + config, AfterSet(s, d, ItemsFor(s, cache + config, keys)).working,
                       Written(s, Readings(s, d.working), config))
  {
    var p, all := s.Get(n), cache + config;
    s.ByNameExactly(n);
    assert n in KnownKeys(s, all);
    UpdatesOfMap(s, all, keys);
    ReadingOfCanon(p, AfterSet(s, d, ItemsFor(s, all, keys)).working, all[n]);
  }

  /** A new full read leaves the cache in agreement with the device. */
  lemma RefreshAgrees(s: Schema, cache: map<text, text>, read: map<text, text>, working: map<text, text>)
    requires s.Valid() && Canonical(s, cache) && IsFullRead(s, read, working)
    ensures CacheAgrees(s, Refresh(cache, read), working)
  {
    var merged := Refresh(cache, read);
    RefreshCanonical(s, cache, read);
    forall n | n in s.Names() ensures RegisterIs(s.Get(n), merged, working, Readings(s, working)) {
      s.ByNameExactly(n);
      ReadingIsCanonical(s.Get(n), working);
    }
    CollectRegisters(s, merged, working, Readings(s, working));
  }

  lemma RefreshCanonical(s: Schema, cache: map<text, text>, read: map<text, text>)
    requires s.Valid() && Canonical(s, cache)
    requires forall k :: k in read && k !in s.Names() ==> HasPrefix(k, Ascii("offset_"))
    ensures Canonical(s, Refresh(cache, read))
  {
    forall k | k in KnownKeys(s, Refresh(cache, read)) ensures k in s.Names() {
      s.SyntheticIsUnknown(k);
      assert k in read || k in KnownKeys(s, cache);
    }
  }

  // ---- The packet order --------------------------------------------------------------------

  /** Table order is offset order: it is one of the orders the client can send, for any map whose
      known keys are canonical. */
  lemma TableOrderIsListing(s: Schema, m: map<text, text>)
    requires s.Valid() && Canonical(s, m)
    ensures Listing(s, m, TableOrder(s.params, m))
  {
    assert s.params[0..] == s.params;
    TableOrderFrom(s, m, 0);
    TableOrderNames(s, m, 0);
    var keys := TableOrder(s.params, m);
    forall k ensures k in keys <==> k in KnownKeys(s, m) {
      s.ByNameExactly(k);
      if k in KnownKeys(s, m) {
        var i := s.RowOf(k);
        InTableOrder(s.params, m, i);
      }
    }
  }

  lemma {:induction false} InTableOrder(params: seq<Parameter>, m: map<text, text>, i: nat)
    requires i < |params| && params[i].name in m
    ensures params[i].name in TableOrder(params, m)
    decreases i
  {
    if i > 0 {
      assert params[1..][i - 1] == params[i];
      InTableOrder(params[1..], m, i - 1);
    }
  }

  ghost predicate NotBefore(s: Schema, i: nat, k: text) {
    i < |s.params| ==> s.params[i].offset <= OffsetOf(s, k)
  }

  lemma {:induction false} TableOrderNames(s: Schema, m: map<text, text>, i: nat)
    requires s.Valid() && i <= |s.params|
    ensures forall k :: k in TableOrder(s.params[i..], m) ==> k in m && k in s.Names() && NotBefore(s, i, k)
    decreases |s.params| - i
  {
    if i < |s.params| {
      TableOrderNames(s, m, i + 1);
      assert s.params[i..][1..] == s.params[i + 1..];
      s.LookupsAgree(s.params[i]);
      if i + 1 < |s.params| {
        s.Ascending(i, i + 1);
      }
    }
  }

  ghost predicate Ascends(s: Schema, keys: seq<text>) {
    forall a, b :: 0 <= a < b < |keys| ==> keys[a] != keys[b] && OffsetOf(s, keys[a]) <= OffsetOf(s, keys[b])
  }

  lemma {:induction false} TableOrderFrom(s: Schema, m: map<text, text>, i: nat)
    requires s.Valid() && i <= |s.params|
    ensures Ascends(s, TableOrder(s.params[i..], m))
    decreases |s.params| - i
  {
    if i < |s.params| {
      TableOrderFrom(s, m, i + 1);
      assert s.params[i..][0] == s.params[i] && s.params[i..][1..] == s.params[i + 1..];
      if s.params[i].name in m {
        PrependRow(s, m, i);
      }
    }
  }

  lemma PrependRow(s: Schema, m: map<text, text>, i: nat)
    requires s.Valid() && i < |s.params| && Ascends(s, TableOrder(s.params[i + 1..], m))
    ensures Ascends(s, [s.params[i].name] + TableOrder(s.params[i + 1..], m))
  {
    var rest := TableOrder(s.params[i + 1..], m);
    TableOrderNames(s, m, i + 1);
    s.LookupsAgree(s.params[i]);
    forall b | 0 <= b < |rest| ensures s.params[i].name != rest[b] && OffsetOf(s, s.params[i].name) <= OffsetOf(s, rest[b]) {
      LaterRow(s, i, rest[b]);
    }
  }

  lemma LaterRow(s: Schema, i: nat, k: text)
    requires s.Valid() && i < |s.params| && k in s.Names() && NotBefore(s, i + 1, k) && i + 1 < |s.params|
    ensures s.params[i].name != k && OffsetOf(s, s.params[i].name) <= OffsetOf(s, k)
  {
    s.LookupsAgree(s.params[i]);
    s.Ascending(i, i + 1);
  }

  // ---- Single steps --------------------------------------------------------------------

  datatype ClientOp = ReadAll | Store(config: map<text, text>) | Reboot

  /** The item order of the packet a set would send. */
  function SetOrder(s: Schema, clock: nat -> nat, w: World, c: Session, config: map<text, text>): seq<text> {
    TableOrder(s.params, Prelude(s, clock, w, c).session.cache + config)
  }

  lemma {:induction false} TableOrderKnown(s: Schema, params: seq<Parameter>, m: map<text, text>)
    requires forall p :: p in params ==> p in s.params
    ensures forall k :: k in TableOrder(params, m) ==> k in KnownKeys(s, m)
    decreases |params|
  {
    if params != [] {
      TableOrderKnown(s, params[1..], m);
    }
  }

  function Perform(s: Schema, clock: nat -> nat, w: World, c: Session, op: ClientOp): Outcome {
    match op
    case ReadAll => GetAll(s, clock, w, c)
    case Store(config) =>
      TableOrderKnown(s, s.params, Prelude(s, clock, w, c).session.cache + config);
      Set(s, clock, w, c, config, SetOrder(s, clock, w, c, config))
    case Reboot => Reset(s, clock, w, c)
  }

  /** Everything but the target is as before, apart from the count of packets seen. */
  ghost predicate OnlyTargetChanged(w: World, w': World, c: Session) {
    var k := MacText.MacString(c.m);
    && w'.net.order == w.net.order && w'.net.devices.Keys == w.net.devices.Keys
    && w'.delayed == w.delayed
    && forall j :: j in w.net.devices && j != k ==> w'.net.devices[j] == w.net.devices[j]
  }

  /** Who the session talks to, and how. */
  ghost predicate SameTarget(c: Session, c': Session) {
    c'.m == c.m && c'.ip == c.ip && c'.retries == c.retries
  }

  /** The target served once, and nothing left in the queue. */
  ghost predicate ServedOnce(w: World, c: Session, d: DeviceState, w': World) {
    w' == w.(net := Served(w, c, d), queue := [])
  }

  /** That keeps both ends in step. */
  lemma StepTo(s: Schema, w: World, c: Session, d: DeviceState, w': World, c': Session)
    requires InStep(s, w, c) && SameTarget(c, c') && ServedOnce(w, c, d, w')
    requires d.cfg == Target(w, c).cfg && d.working == d.nvram
    requires c'.cache == map[] || CacheAgrees(s, c'.cache, d.working)
    ensures OnlyTargetChanged(w, w', c) && InStep(s, w', c') && Target(w', c') == d
  {
  }

  /** Serving a device that writes nothing, at most its reload. */
  lemma StepQuietly(s: Schema, w: World, c: Session, now: nat, reload: bool, w': World, c': Session)
    requires InStep(s, w, c) && SameTarget(c, c')
    requires ServedOnce(w, c, if reload then AfterRebootCheck(Target(w, c), now) else Target(w, c), w')
    requires c'.cache == c.cache || CacheAgrees(s, c'.cache, Target(w, c).working)
    ensures OnlyTargetChanged(w, w', c) && InStep(s, w', c') && Target(w', c').working == Target(w, c).working
    ensures Registers(s, w', c') == Registers(s, w, c)
  {
    StepTo(s, w, c, if reload then AfterRebootCheck(Target(w, c), now) else Target(w, c), w', c');
  }

  /** A read changes no register; one that succeeds leaves the cache in agreement with the device. */
  lemma ReadStep(s: Schema, w: World, c: Session, now: nat, o: Outcome)
    requires s.Valid() && InStep(s, w, c) && ReadOutcome(s, w, c, now, o)
    ensures SameTarget(c, o.session) && OnlyTargetChanged(w, o.world, c) && InStep(s, o.world, o.session)
    ensures Registers(s, o.world, o.session) == Registers(s, w, c)
    ensures !o.ok ==> o.session.cache == c.cache
    ensures o.ok ==> CacheAgrees(s, o.session.cache, Target(o.world, o.session).working)
  {
    if o.ok {
      ReadAgrees(s, c, now, Target(w, c), o);
    }
    StepQuietly(s, w, c, now, Awake(Target(w, c), now), o.world, o.session);
  }

  lemma ReadAgrees(s: Schema, c: Session, now: nat, d: DeviceState, o: Outcome)
    requires s.Valid() && d.working == d.nvram && (c.cache == map[] || CacheAgrees(s, c.cache, d.working))
    requires exists read :: o.session.cache == Refresh(c.cache, read) && IsFullRead(s, read, AfterRebootCheck(d, now).working)
    ensures CacheAgrees(s, o.session.cache, d.working)
  {
    var read :| o.session.cache == Refresh(c.cache, read) && IsFullRead(s, read, AfterRebootCheck(d, now).working);
    CachedIsCanonical(s, c.cache, d.working);
    RefreshAgrees(s, c.cache, read, d.working);
  }

  lemma CachedIsCanonical(s: Schema, cache: map<text, text>, working: map<text, text>)
    requires cache == map[] || CacheAgrees(s, cache, working)
    ensures Canonical(s, cache)
  {
  }

  /** A write either does everything or nothing: on success the registers are updated by config and
      the cache with them; on failure no register changes. */
  lemma WriteStep(s: Schema, w: World, c: Session, config: map<text, text>, keys: seq<text>, now: nat, o: Outcome)
    requires s.Valid() && InStep(s, w, c) && CacheAgrees(s, c.cache, Target(w, c).working)
    requires Canonical(s, config) && Listing(s, c.cache + config, keys)
    requires WriteOutcome(s, w, c, config, keys, now, o)
    ensures SameTarget(c, o.session) && OnlyTargetChanged(w, o.world, c) && InStep(s, o.world, o.session)
    ensures Registers(s, o.world, o.session) ==
            if o.ok then Written(s, Registers(s, w, c), config) else Registers(s, w, c)
    ensures o.session.cache == if o.ok then c.cache + config else c.cache
    ensures o.ok <==> Encodable(s, config) && Awake(Target(w, c), now) && !FailsOn(Target(w, c).cfg, OpSet)
  {
    MergedCanonical(s, c.cache, config);
    MergedEncodable(s, c.cache, config, Target(w, c).working);
    if o.ok {
      WriteDone(s, w, c, config, keys, now, o);
    } else {
      WriteRefused(s, w, c, config, keys, now, o);
    }
  }

  lemma WriteDone(s: Schema, w: World, c: Session, config: map<text, text>, keys: seq<text>, now: nat, o: Outcome)
    requires s.Valid() && InStep(s, w, c) && CacheAgrees(s, c.cache, Target(w, c).working)
    requires Canonical(s, c.cache + config) && Listing(s, c.cache + config, keys)
    requires WriteOutcome(s, w, c, config, keys, now, o) && o.ok
    ensures SameTarget(c, o.session) && OnlyTargetChanged(w, o.world, c) && InStep(s, o.world, o.session)
    ensures Registers(s, o.world, o.session) == Written(s, Registers(s, w, c), config)
  {
    var up := AfterRebootCheck(Target(w, c), now);
    WriteRegisters(s, up, c.cache, config, keys);
    StepTo(s, w, c, AfterSet(s, up, ItemsFor(s, c.cache + config, keys)), o.world, o.session);
  }

  lemma WriteRefused(s: Schema, w: World, c: Session, config: map<text, text>, keys: seq<text>, now: nat, o: Outcome)
    requires s.Valid() && InStep(s, w, c) && forall k :: k in keys ==> k in KnownKeys(s, c.cache + config)
    requires WriteOutcome(s, w, c, config, keys, now, o) && !o.ok
    ensures SameTarget(c, o.session) && OnlyTargetChanged(w, o.world, c) && InStep(s, o.world, o.session)
    ensures Registers(s, o.world, o.session) == Registers(s, w, c)
  {
    if Encodable(s, c.cache + config) {
      StepQuietly(s, w, c, now, Awake(Target(w, c), now), o.world, o.session);
    }
  }

  lemma MergedCanonical(s: Schema, cache: map<text, text>, config: map<text, text>)
    requires Canonical(s, cache) && Canonical(s, config)
    ensures Canonical(s, cache + config)
  {
    assert KnownKeys(s, cache + config) == KnownKeys(s, cache) + KnownKeys(s, config);
  }

  lemma MergedEncodable(s: Schema, cache: map<text, text>, config: map<text, text>, working: map<text, text>)
    requires s.Valid() && CacheAgrees(s, cache, working) && Canonical(s, config)
    ensures Encodable(s, cache + config) <==> Encodable(s, config)
  {
    var all := cache + config;
    forall k | k in KnownKeys(s, all) && k !in config
      ensures Encode(s.ByName(k).value.length, all[k]).Some?
    {
      s.ByNameExactly(k);
      assert k in KnownKeys(s, cache);
    }
    forall k | k in KnownKeys(s, config)
      ensures k in KnownKeys(s, all) && all[k] == config[k]
    {
    }
  }

  lemma ResetStep(s: Schema, w: World, c: Session, now: nat, o: Outcome)
    requires s.Valid() && InStep(s, w, c) && ResetOutcome(w, c, now, o)
    ensures SameTarget(c, o.session) && OnlyTargetChanged(w, o.world, c) && InStep(s, o.world, o.session)
    ensures Registers(s, o.world, o.session) == Registers(s, w, c)
  {
    StepTo(s, w, c, ResetAt(Target(w, c), now), o.world, o.session);
  }

  // ---- Runs ------------------------------------------------------------------------

  /** A set, from a client that may or may not have read before. */
  lemma SetStep(s: Schema, clock: nat -> nat, w: World, c: Session, config: map<text, text>)
    requires s.Valid() && InStep(s, w, c) && Canonical(s, config)
    ensures var o := Perform(s, clock, w, c, Store(config));
            && SameTarget(c, o.session) && OnlyTargetChanged(w, o.world, c) && InStep(s, o.world, o.session)
            && Registers(s, o.world, o.session) ==
               (if o.ok then Written(s, Registers(s, w, c), config) else Registers(s, w, c))
            && (o.ok ==> Encodable(s, config))
  {
    var p := Prelude(s, clock, w, c);
    if c.cache == map[] {
      GetAllEffect(s, clock, w, c);
      ReadStep(s, w, c, clock(w.net.ticks), p);
    }
    if p.ok {
      SetWriteStep(s, clock, p.world, p.session, config);
    }
  }

  lemma SetWriteStep(s: Schema, clock: nat -> nat, w: World, c: Session, config: map<text, text>)
    requires s.Valid() && InStep(s, w, c) && CacheAgrees(s, c.cache, Target(w, c).working) && Canonical(s, config)
    ensures var keys := TableOrder(s.params, c.cache + config);
            && (forall k :: k in keys ==> k in KnownKeys(s, c.cache + config))
            && var o := Write(s, clock, w, c, config, keys);
               && SameTarget(c, o.session) && OnlyTargetChanged(w, o.world, c) && InStep(s, o.world, o.session)
               && Registers(s, o.world, o.session) ==
                  (if o.ok then Written(s, Registers(s, w, c), config) else Registers(s, w, c))
               && (o.ok ==> Encodable(s, config))
  {
    var keys := TableOrder(s.params, c.cache + config);
    MergedCanonical(s, c.cache, config);
    TableOrderIsListing(s, c.cache + config);
    WriteEffect(s, clock, w, c, config, keys);
    WriteStep(s, w, c, config, keys, clock(w.net.ticks), Write(s, clock, w, c, config, keys));
  }

  /** What an operation does to the register file, given whether it returned without error. */
  function RegistersAfter(s: Schema, regs: map<text, text>, op: ClientOp, ok: bool): map<text, text> {
    match op
    case Store(config) => if ok then Written(s, regs, config) else regs
    case _ => regs
  }

  lemma PerformStep(s: Schema, clock: nat -> nat, w: World, c: Session, op: ClientOp)
    requires s.Valid() && InStep(s, w, c) && (op.Store? ==> Canonical(s, op.config))
    ensures var o := Perform(s, clock, w, c, op);
            && SameTarget(c, o.session) && OnlyTargetChanged(w, o.world, c) && InStep(s, o.world, o.session)
            && Registers(s, o.world, o.session) == RegistersAfter(s, Registers(s, w, c), op, o.ok)
  {
    match op {
      case ReadAll =>
        GetAllEffect(s, clock, w, c);
        ReadStep(s, w, c, clock(w.net.ticks), GetAll(s, clock, w, c));
      case Store(config) => SetStep(s, clock, w, c, config);
      case Reboot =>
        ResetEffect(s, clock, w, c);
        ResetStep(s, w, c, clock(w.net.ticks), Reset(s, clock, w, c));
    }
  }

  /** A run: the final states and the result of every operation. */
  datatype RunResult = RunResult(world: World, session: Session, results: seq<bool>)

  function Run(s: Schema, clock: nat -> nat, w: World, c: Session, ops: seq<ClientOp>): RunResult
    decreases |ops|
  {
    if ops == [] then RunResult(w, c, [])
    else
      var o := Perform(s, clock, w, c, ops[0]);
      var r := Run(s, clock, o.world, o.session, ops[1..]);
      r.(results := [o.ok] + r.results)
  }

  /** The register file after a run, computed from the operations and their results alone. */
  function RunRegisters(s: Schema, regs: map<text, text>, ops: seq<ClientOp>, results: seq<bool>): map<text, text>
    requires |results| == |ops|
    decreases |ops|
  {
    if ops == [] then regs
    else RunRegisters(s, RegistersAfter(s, regs, ops[0], results[0]), ops[1..], results[1..])
  }

  lemma {:induction false} RunLength(s: Schema, clock: nat -> nat, w: World, c: Session, ops: seq<ClientOp>)
    ensures |Run(s, clock, w, c, ops).results| == |ops|
    decreases |ops|
  {
    if ops != [] {
      var o := Perform(s, clock, w, c, ops[0]);
      RunLength(s, clock, o.world, o.session, ops[1..]);
    }
  }

  /** Over any run of reads, sets with canonical names, and resets, at any times: lock step and
      cache agreement hold between operations, no other device changes, and the device's registers
      are exactly those obtained by applying, in order, the sets that returned nil. In particular a
      set that returns an error leaves no trace, and a reset or a reboot window loses nothing. */
  lemma {:induction false} RunRefinesRegisters(s: Schema, clock: nat -> nat, w: World, c: Session, ops: seq<ClientOp>)
    requires s.Valid() && InStep(s, w, c)
    requires forall i :: 0 <= i < |ops| && ops[i].Store? ==> Canonical(s, ops[i].config)
    ensures var r := Run(s, clock, w, c, ops);
            && |r.results| == |ops|
            && SameTarget(c, r.session) && OnlyTargetChanged(w, r.world, c) && InStep(s, r.world, r.session)
            && Registers(s, r.world, r.session) == RunRegisters(s, Registers(s, w, c), ops, r.results)
    decreases |ops|
  {
    RunLength(s, clock, w, c, ops);
    if ops != [] {
      var o := Perform(s, clock, w, c, ops[0]);
      PerformStep(s, clock, w, c, ops[0]);
      RunRefinesRegisters(s, clock, o.world, o.session, ops[1..]);
      var rest := Run(s, clock, o.world, o.session, ops[1..]);
      assert ([o.ok] + rest.results)[1..] == rest.results;
    }
  }

  /** A session that starts with an empty cache against a fresh device starts in step. */
  lemma StartsInStep(s: Schema, w: World, c: Session, cfg: Config)
    requires Hosts(w, c) && Quiet(w, c) && c.cache == map[]
    requires Target(w, c) == NewDevice(s, cfg) && ReplyFits(s, cfg)
    ensures InStep(s, w, c)
  {
  }
}
