/** Concrete starting points: a fresh simulator is in lock step with its client, and a simulated
    device that refuses writes shows the stale acknowledgement. */
module Scenarios {
  import opened Bytes
  import opened Decimal
  import opened Parameters
  import opened ParameterTable
  import opened Wire
  import opened SimDevice
  import opened SimNetwork
  import opened ClientProtocol
  import opened LockStep
  import opened ReadModifyWrite
  import opened Runs
  import opened Restore
  import opened RestorableTable
  import opened Retries
  import opened SetEffect
  import opened StaleAcks
  import opened Backlog
  import opened Trust
  import opened CommandEffect
  import Backup
  import MacText
  import SetCommand

  /** A transport over a network, before anything was sent. */
  function Untouched(n: NetState): World {
    World(n, [], [], false)
  }

  /** A client's handle on a device it has not read. */
  function Unread(m: mac, retries: nat, counter: uint32): Session {
    Session(m, [], retries, counter, map[])
  }

  function AutoAddress(i: nat): mac
    requires i < 256
  {
    [0x00, 0x04, 0x20, 0x00, 0x00, i]
  }

  lemma {:induction false} AutoDevice(s: Schema, n: nat, i: nat)
    requires 1 <= i <= n < 256
    ensures AutoMac(i) in NewNetwork(s, n).devices
    ensures NewNetwork(s, n).devices[AutoMac(i)] == NewDevice(s, AutoConfig(i))
    decreases n
  {
    if i < n {
      AutoDevice(s, n - 1, i);
      if AutoMac(i) == AutoMac(n) {
        AutoMacsDiffer(i, n);
      }
    }
  }

  lemma AutoIsPlain(s: Schema, i: nat)
    requires s.Valid() && i < 256
    ensures var cfg := AutoConfig(i);
            && Readable(s, cfg) && !FailsOn(cfg, OpSet) && !cfg.unreachable
            && cfg.nvram == map[] && cfg.name == [] && cfg.slow == 0 && cfg.mac == AutoMac(i)
  {
  }

  lemma HostsOne(s: Schema, w: World, c: Session, cfg: Config)
    requires MacText.MacString(c.m) in w.net.devices && Target(w, c) == NewDevice(s, cfg)
    requires cfg.mac == MacText.MacString(c.m) && cfg.slow == 0
    ensures Hosts(w, c)
  {
  }

  /** Every automatic device of a new simulator is one with factory settings, in lock step with a
      client that does not retry. */
  lemma NewSimulatorIsFactory(s: Schema, n: nat, i: nat, counter: uint32)
    requires Restorable(s) && 1 <= i <= n < 256
    ensures Factory(s, Untouched(NewNetwork(s, n)), Unread(AutoAddress(i), 0, counter))
  {
    AutoDevice(s, n, i);
    AutoIsPlain(s, i);
    UntouchedIsFactory(s, NewNetwork(s, n), AutoAddress(i), counter, AutoConfig(i));
  }

  lemma UntouchedIsFactory(s: Schema, n: NetState, m: mac, counter: uint32, cfg: Config)
    requires Restorable(s) && m != ZERO_MAC && cfg.mac == MacText.MacString(m)
    requires cfg.mac in n.devices && n.devices[cfg.mac] == NewDevice(s, cfg)
    requires Readable(s, cfg) && !FailsOn(cfg, OpSet) && !cfg.unreachable && cfg.slow == 0
    requires cfg.nvram == map[] && cfg.name == []
    ensures Factory(s, Untouched(n), Unread(m, 0, counter))
  {
    HostsOne(s, Untouched(n), Unread(m, 0, counter), cfg);
    NewDeviceIsFactory(s, Untouched(n), Unread(m, 0, counter), cfg);
  }

  // ---- A device that refuses writes -------------------------------------------------------------

  function RefusingConfig(m: mac): Config {
    Config(MacText.MacString(m), [], [], [], [], [], [], [], [], [], map[], {OpSet}, 0, false, 0,
           false, false, false, false, map[], MalformedNone)
  }

  function RefusingWorld(s: Schema, m: mac): World {
    var k := MacText.MacString(m);
    Untouched(NetState(map[k := NewDevice(s, RefusingConfig(m))], [k], 0))
  }

  lemma RefusingIsRefusing(s: Schema, m: mac, retries: nat, counter: uint32)
    requires s.Valid() && m != ZERO_MAC
    ensures Starts(s, RefusingWorld(s, m), Unread(m, retries, counter))
    ensures Target(RefusingWorld(s, m), Unread(m, retries, counter)).working == FactoryDefaults(s)
  {
    RefusingRefuses(s, RefusingConfig(m));
    HostsOne(s, RefusingWorld(s, m), Unread(m, retries, counter), RefusingConfig(m));
  }

  lemma RefusingRefuses(s: Schema, cfg: Config)
    requires Readable(s, cfg) && FailsOn(cfg, OpSet) && !cfg.unreachable && cfg.nvram == map[] && cfg.name == []
    ensures var d := NewDevice(s, cfg); RefusesSets(s, d) && d.working == FactoryDefaults(s)
  {
    NewDeviceMemory(s, cfg);
  }

  lemma OneValue(s: Schema, n: text, v: text)
    requires s.Valid() && n in s.Names() && Encode(s.Get(n).length, v).Some?
    ensures Canonical(s, map[n := v]) && Encodable(s, map[n := v])
  {
    s.ByNameExactly(n);
  }

  /** The trace: a device that refuses writes, a client that retries, one new value. The set returns
      nil and caches the value; the device still holds what it held. */
  lemma RefusedSetReturnsNil(s: Schema, clock: nat -> nat, w: World, c: Session, n: text, v: text)
    requires Starts(s, w, c) && c.cache == map[] && c.retries > 0
    requires n in s.Names() && Encode(s.Get(n).length, v).Some?
    ensures var o := Perform(s, clock, w, c, Store(map[n := v]));
            o.ok && o.world.net.devices == w.net.devices && Holds(o.session.cache, n, v)
  {
    OneValue(s, n, v);
    StartsAlive(s, w, c);
    FirstIsStale(c.retries);
    assert [] + [ReadRequest] == [ReadRequest];
    StoreReturns(s, clock, w, c, map[n := v], []);
  }

  predicate Holds(m: map<text, text>, n: text, v: text) {
    n in m && m[n] == v
  }

  /** After one read with retries its answer is still there. */
  lemma FirstIsStale(retries: nat)
    requires retries > 0
    ensures StaleAnswer([ReadRequest], retries) == Some(ReadRequest)
  {
    QuotientIs(1, 0, retries + 1);
  }

  /** The trace of a command line client that retries: it reads the device and then sets a value, so
      nothing but its own read precedes the write. Both return nil, and nothing was written. */
  lemma ReadThenSetReturnsNil(s: Schema, clock: nat -> nat, w: World, c: Session, n: text, v: text)
    requires Starts(s, w, c) && c.cache == map[] && c.retries > 0
    requires n in s.Names() && Encode(s.Get(n).length, v).Some?
    ensures var r := Run(s, clock, w, c, [ReadAll, Store(map[n := v])]);
            r.results == [true, true] && r.world.net.devices == w.net.devices && Holds(r.session.cache, n, v)
  {
    OneValue(s, n, v);
    StartsAlive(s, w, c);
    ReadAgainst(s, clock, w, c, []);
    ReadGoesOn(s, clock, w, c, []);
    var read := GetAll(s, clock, w, c);
    assert [] + [ReadRequest] == [ReadRequest];
    FirstIsStale(c.retries);
    StoreReturns(s, clock, read.world, read.session, map[n := v], [ReadRequest]);
    RunOfTwo(s, clock, w, c, ReadAll, Store(map[n := v]));
  }

  lemma RunOfTwo(s: Schema, clock: nat -> nat, w: World, c: Session, first: ClientOp, second: ClientOp)
    ensures var o1 := Perform(s, clock, w, c, first);
            var o2 := Perform(s, clock, o1.world, o1.session, second);
            Run(s, clock, w, c, [first, second]) == RunResult(o2.world, o2.session, [o1.ok, o2.ok])
  {
    var o1 := Perform(s, clock, w, c, first);
    assert [first, second][1..] == [second];
    assert [second][1..] == [];
    assert Run(s, clock, o1.world, o1.session, [second]).results == [Perform(s, clock, o1.world, o1.session, second).ok];
  }

  lemma AnyHostnameEncodes(s: Schema, name: text)
    requires s == UDAP_SCHEMA
    ensures s.Valid() && HOSTNAME in s.Names() && Encode(s.Get(HOSTNAME).length, name).Some?
  {
    TableIsValid();
    RestorableTable.Listed(4);
    HostnameRow();
  }

  lemma BothReturnNil(s: Schema, clock: nat -> nat, m: mac, retries: nat, counter: uint32, n: text, v: text)
    requires s.Valid() && m != ZERO_MAC && retries > 0
    requires n in s.Names() && Encode(s.Get(n).length, v).Some?
    ensures var w, c, op := RefusingWorld(s, m), Unread(m, retries, counter), Store(map[n := v]);
            var o, r := Perform(s, clock, w, c, op), Run(s, clock, w, c, [ReadAll, op]);
            && o.ok && o.world.net.devices == w.net.devices && Holds(o.session.cache, n, v)
            && r.results == [true, true] && r.world.net.devices == w.net.devices && Holds(r.session.cache, n, v)
  {
    RefusingIsRefusing(s, m, retries, counter);
    RefusedSetReturnsNil(s, clock, RefusingWorld(s, m), Unread(m, retries, counter), n, v);
    ReadThenSetReturnsNil(s, clock, RefusingWorld(s, m), Unread(m, retries, counter), n, v);
  }

  /** Both with the shipped table and any host name: a set alone, and a read followed by a set. */
  lemma RefusedHostname(s: Schema, clock: nat -> nat, m: mac, retries: nat, counter: uint32, name: text)
    requires s == UDAP_SCHEMA && m != ZERO_MAC && retries > 0
    ensures var w, c, op := RefusingWorld(s, m), Unread(m, retries, counter), Store(map[HOSTNAME := name]);
            var o, r := Perform(s, clock, w, c, op), Run(s, clock, w, c, [ReadAll, op]);
            && o.ok && o.world.net.devices == w.net.devices && Holds(o.session.cache, HOSTNAME, name)
            && r.results == [true, true] && r.world.net.devices == w.net.devices && Holds(r.session.cache, HOSTNAME, name)
  {
    AnyHostnameEncodes(s, name);
    BothReturnNil(s, clock, m, retries, counter, HOSTNAME, name);
  }

  // ---- A value given under an alias --------------------------------------------------------------

  lemma UpTakesWrites(s: Schema, clock: nat -> nat, w: World, c: Session)
    requires s.Valid() && InStep(s, w, c) && Up(w, c)
    ensures TakesWrites(clock, Prelude(s, clock, w, c))
  {
    if c.cache == map[] {
      GetAllEffect(s, clock, w, c);
      UpAfterRead(s, w, c, clock(w.net.ticks), GetAll(s, clock, w, c));
    }
  }

  lemma UpAfterRead(s: Schema, w: World, c: Session, now: nat, o: Outcome)
    requires InStep(s, w, c) && Up(w, c) && ReadOutcome(s, w, c, now, o)
    ensures o.ok && o.session.m == c.m && MacText.MacString(c.m) in o.world.net.devices
    ensures Target(o.world, o.session) == Target(w, c)
  {
  }

  lemma SlimserverIsAlias(s: Schema, a: text)
    requires s == UDAP_SCHEMA && a == Ascii("slimserver_address")
    ensures s.Valid() && a in s.aliases && s.aliases[a] in s.Names()
    ensures s.Get(s.aliases[a]) == Parameter(Ascii("server_address"), 71, 4, Ascii("0.0.0.0"))
  {
    TableIsValid();
    RestorableTable.Listed(9);
    ServerAddressRow();
  }

  lemma AddressMayBeLost(s: Schema, clock: nat -> nat, w: World, c: Session, a: text, q: seq<byte>, was: text)
    returns (lost: seq<text>, kept: seq<text>)
    requires s.Valid() && |q| == 4 && Factory(s, w, c) && a in s.aliases
    requires s.Get(s.aliases[a]).length == 4 && s.Get(s.aliases[a]).factoryDefault == was
    ensures LostOrKept(s, clock, w, c, a, OctetsText(q), was, lost, kept)
  {
    AddressIsItself(s.Get(s.aliases[a]).length, q);
    DefaultRegister(s, w, c, s.aliases[a]);
    UpTakesWrites(s, clock, w, c);
    lost, kept := AliasMayBeLost(s, clock, w, c, a, OctetsText(q));
  }

  lemma AddressIsItself(length: uint16, q: seq<byte>)
    requires |q| == 4 && length == 4
    ensures Encode(length, OctetsText(q)).Some? && Canon(length, OctetsText(q)) == OctetsText(q)
  {
    QuadExactly(OctetsText(q), q);
  }

  lemma DefaultRegister(s: Schema, w: World, c: Session, n: text)
    requires Factory(s, w, c) && n in s.Names()
    ensures Registers(s, w, c)[n] == s.Get(n).factoryDefault
  {
  }

  /** Both are packet orders the set can get. It returns nil and caches the value in either, and the
      device goes on reporting the old value after one and reports the new one after the other. */
  ghost predicate LostOrKept(s: Schema, clock: nat -> nat, w: World, c: Session, a: text, v: text, was: text, lost: seq<text>, kept: seq<text>) {
    var all := Prelude(s, clock, w, c).session.cache + map[a := v];
    && a in s.aliases && s.aliases[a] in s.Names() && Listing(s, all, lost) && Listing(s, all, kept)
    && AliasOutcome(s, Set(s, clock, w, c, map[a := v], lost), c.m, a, v, s.aliases[a], was)
    && AliasOutcome(s, Set(s, clock, w, c, map[a := v], kept), c.m, a, v, s.aliases[a], v)
  }

  /** With the shipped table, a device with factory settings and any server address: a set of
      `slimserver_address` can leave the device reporting 0.0.0.0. */
  lemma SlimserverMayBeLost(s: Schema, clock: nat -> nat, w: World, c: Session, a: text, q: seq<byte>)
    returns (lost: seq<text>, kept: seq<text>)
    requires s == UDAP_SCHEMA && a == Ascii("slimserver_address") && |q| == 4 && Factory(s, w, c)
    ensures LostOrKept(s, clock, w, c, a, OctetsText(q), Ascii("0.0.0.0"), lost, kept)
  {
    SlimserverIsAlias(s, a);
    lost, kept := AddressMayBeLost(s, clock, w, c, a, q, Ascii("0.0.0.0"));
  }

  // ---- Retries decide -----------------------------------------------------------------------

  /** Whoever the target is and however it is configured, as long as it answers at once: over every run
      of a client with this retries setting, every nil of a set can be believed. */
  ghost predicate AlwaysTrusted(s: Schema, retries: nat) {
    forall clock, w, c, ops ::
      Ready(w, c) && c.retries == retries && Canonical(s, c.cache) && StoresCanonical(s, ops) ==>
        EveryNilApplied(s, clock, w, c, ops)
  }

  ghost predicate StoresCanonical(s: Schema, ops: seq<ClientOp>) {
    forall i :: 0 <= i < |ops| && ops[i].Store? ==> Canonical(s, ops[i].config)
  }

  /** Every parameter has a value other than the one a device reports now. */
  lemma AnotherValue(p: Parameter, reading: text) returns (v: text)
    requires p.length > 0
    ensures Encode(p.length, v).Some? && Canon(p.length, v) != reading
  {
    var b0, b1 := Zeros(p.length), [1] + Zeros(p.length - 1);
    FormatIsCanonical(b0);
    FormatIsCanonical(b1);
    EncodeAfterFormat(b0);
    EncodeAfterFormat(b1);
    ZerosDiffer(p.length);
    v := if Format(b0) != reading then Format(b0) else Format(b1);
  }

  lemma ZerosDiffer(length: uint16)
    requires length > 0
    ensures Format(Zeros(length)) != Format([1] + Zeros(length - 1))
  {
    var b0, b1 := Zeros(length), [1] + Zeros(length - 1);
    assert b0[0] != b1[0];
    EncodeAfterFormat(b0);
    EncodeAfterFormat(b1);
  }

  lemma StoreMisleads(s: Schema, clock: nat -> nat, w: World, c: Session, config: map<text, text>)
    requires Starts(s, w, c) && c.retries > 0 && c.cache == map[]
    requires Canonical(s, config) && Encodable(s, config) && Changes(s, config, Target(w, c).working)
    ensures !StoreTrusted(s, clock, w, c, config)
  {
    var p := Prelude(s, clock, w, c);
    StartsAlive(s, w, c);
    ChangesAName(s, config, Target(w, c).working);
    PreludeAgainst(s, clock, w, c, []);
    MergedCanonical(s, p.session.cache, config);
    var keys := TableOrder(s.params, p.session.cache + config);
    TableOrderIsListing(s, p.session.cache + config);
    FirstIsStale(c.retries);
    assert [] + [ReadRequest] == [ReadRequest];
    SetAgainst(s, clock, w, c, config, keys, []);
    assert !WriteTrusted(s, clock, p.world, p.session, config, keys);
  }

  lemma OneUntrusted(s: Schema, clock: nat -> nat, w: World, c: Session, config: map<text, text>)
    requires !StoreTrusted(s, clock, w, c, config)
    ensures !EveryNilApplied(s, clock, w, c, [Store(config)])
  {
  }

  lemma RetriesMislead(s: Schema, clock: nat -> nat, w: World, c: Session, ops: seq<ClientOp>)
    requires Ready(w, c) && Canonical(s, c.cache) && StoresCanonical(s, ops)
    requires !EveryNilApplied(s, clock, w, c, ops)
    ensures !AlwaysTrusted(s, c.retries)
  {
  }

  lemma AnyValueMisleads(s: Schema, clock: nat -> nat, w: World, c: Session, n: text, v: text)
    requires Starts(s, w, c) && c.retries > 0 && c.cache == map[]
    requires n in s.Names() && Encode(s.Get(n).length, v).Some?
    requires Canon(s.Get(n).length, v) != Reading(s.Get(n), Target(w, c).working)
    ensures !AlwaysTrusted(s, c.retries)
  {
    var config := map[n := v];
    OneValue(s, n, v);
    assert Changes(s, config, Target(w, c).working) by {
      assert n in config;
    }
    StoreMisleads(s, clock, w, c, config);
    OneUntrusted(s, clock, w, c, config);
    RetriesMislead(s, clock, w, c, [Store(config)]);
  }

  /** That holds exactly without retries, for every table that lists a parameter. */
  lemma TrustedExactlyWithoutRetries(s: Schema, retries: nat)
    requires s.Valid() && s.params != []
    ensures AlwaysTrusted(s, retries) <==> retries == 0
  {
    if retries == 0 {
      forall clock, w, c, ops | Ready(w, c) && c.retries == retries && Canonical(s, c.cache) && StoresCanonical(s, ops)
        ensures EveryNilApplied(s, clock, w, c, ops)
      {
        RunIsSteady(s, clock, w, c, ops);
      }
    } else {
      var p := s.params[0];
      s.LookupsAgree(p);
      var v := AnotherValue(p, Reading(p, FactoryDefaults(s)));
      var m: mac := [1, 0, 0, 0, 0, 0];
      RefusingIsRefusing(s, m, retries, 0);
      AnyValueMisleads(s, (k: nat) => k, RefusingWorld(s, m), Unread(m, retries, 0), p.name, v);
    }
  }

  // ---- The interface -------------------------------------------------------------------------

  lemma ShippedInterface(s: Schema)
    requires s == UDAP_SCHEMA
    ensures HasInterface(s) && s.Get(Backup.INTERFACE).factoryDefault == SENTINEL
    ensures SENTINEL != Ascii("0") && SENTINEL != Ascii("1")
  {
    TableIsValid();
    Listed(6);
    SpecialNames();
    InterfaceDefault();
  }

  lemma InterfaceDefault()
    ensures Row(6).factoryDefault == SENTINEL
  {
  }

  /** With the shipped table, a set that does not name the interface changes it exactly when the device
      reported "128": a device configured as wired or wireless stays what it is. */
  lemma ShippedInterfaceChanges(s: Schema, clock: nat -> nat, w: World, c: Session, params: map<text, text>, keys: seq<text>,
                                w': World, c': Session, written: Option<map<text, text>>)
    requires s == UDAP_SCHEMA && InStep(s, w, c) && Up(w, c) && Canonical(s, params) && Encodable(s, params)
    requires Ascii("interface") !in params && SetCommand.CommandRan(s, clock, w, c, Some(params), false, keys, w', c', written)
    ensures MacText.MacString(c'.m) in w'.net.devices && Ascii("interface") in s.Names()
    ensures var was, became := Registers(s, w, c)[Ascii("interface")], Registers(s, w', c')[Ascii("interface")];
            && (became != was <==> was == Ascii("128"))
            && (became != was ==> became == InterfaceFor(params))
            && (became == was ==> written == Some(params))
  {
    ShippedInterface(s);
    InterfaceChangesExactly(s, clock, w, c, params, keys, w', c', written);
  }
}
