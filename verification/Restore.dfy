/** Backup and restore end to end: what `read` prints, given to `set` on a device with factory
    settings, makes it report the same values. */
module Restore {
  import opened Bytes
  import opened Decimal
  import opened Parameters
  import opened Validation
  import opened SimDevice
  import opened ClientProtocol
  import opened LockStep
  import opened ReadModifyWrite
  import opened Runs
  import opened Backup
  import Ini
  import MacText

  // ---- The table ---------------------------------------------------------------------

  /** Names can be written in a file, and defaults are what a device reports for itself. */
  ghost predicate GoodRow(p: Parameter) {
    && Ini.Trimmed(p.name) && Absent(p.name, NEWLINE) && Absent(p.name, EQUALS) && !Ini.IsComment(p.name)
    && |p.name| + p.length + 16 < Ini.MAX_TOKEN
    && Encode(p.length, p.factoryDefault).Some? && Canon(p.length, p.factoryDefault) == p.factoryDefault
  }

  /** What the restore results rely on, besides a valid table. */
  ghost predicate Restorable(s: Schema) {
    && s.Valid()
    && (forall n :: n in s.Names() ==> GoodRow(s.Get(n)))
    && INTERFACE in s.Names() && s.Get(INTERFACE).length == 1
    && SSID in s.Names() && s.Get(SSID).factoryDefault == []
  }

  // ---- Values ------------------------------------------------------------------------

  /** One value per parameter, as devices report them. */
  ghost predicate Reported(s: Schema, values: map<text, text>) {
    && values.Keys == s.Names()
    && forall n :: n in s.Names() ==> IsCanonical(s.Get(n).length, values[n])
  }

  predicate IsCanonical(length: uint16, value: text) {
    Encode(length, value).Some? && Canon(length, value) == value
  }

  lemma OctetsShort(q: seq<byte>)
    requires |q| == 4
    ensures |OctetsText(q)| <= 15
  {
    QuadText(q);
    DecShort(q[0]);
    DecShort(q[1]);
    DecShort(q[2]);
    DecShort(q[3]);
  }

  lemma CanonicalIsShort(length: uint16, value: text)
    requires IsCanonical(length, value)
    ensures |value| <= length + 15
  {
    var b := Encode(length, value).value;
    match length {
      case 1 => DecShort(b[0]);
      case 2 => DecShort(Uint16At(b, 0));
      case 4 => OctetsShort(b);
      case _ =>
    }
  }

  /** A value that can be given to `set` in a file. */
  predicate Settable(s: Schema, name: text, value: text) {
    Accepts(s, name, value) && Ini.Trimmed(value) && Absent(value, NEWLINE)
  }

  lemma SettableExactly(s: Schema, name: text, value: text)
    requires Restorable(s) && name in s.Names() && IsCanonical(s.Get(name).length, value)
    ensures Ini.CleanEntry(Rules(s), name, value) <==> Settable(s, name, value)
  {
    s.ByNameExactly(name);
    CanonicalIsShort(s.Get(name).length, value);
    assert GoodRow(s.Get(name));
  }

  lemma FilteredName(s: Schema, values: map<text, text>, n: text)
    requires s.Valid() && values.Keys == s.Names() && n in values
    ensures s.ByName(n) == Some(s.Get(n))
    ensures n in Filter(s, values) <==> values[n] != s.Get(n).factoryDefault
  {
    s.ByNameExactly(n);
    s.Listed(s.Get(n));
  }

  /** What `read` prints can be given to `set` exactly when every changed value is valid, has
      nothing to trim and holds no newline; the text then stands for the changed values, no more. */
  lemma BackupParsesExactly(s: Schema, values: map<text, text>, order: seq<text>)
    requires Restorable(s) && Reported(s, values) && Ini.Lists(Filter(s, values), order)
    ensures Ini.Parse(Rules(s), Ini.Print(Filter(s, values), order)) == Some(Filter(s, values)) <==>
            forall n :: n in Filter(s, values) ==> Settable(s, n, values[n])
  {
    var kept := Filter(s, values);
    forall n | n in kept ensures Ini.CleanEntry(Rules(s), n, kept[n]) <==> Settable(s, n, values[n]) {
      SettableExactly(s, n, values[n]);
    }
    forall j, k | j in kept && k in kept && s.ByName(j) == s.ByName(k) ensures j == k {
      FilteredName(s, values, j);
      FilteredName(s, values, k);
    }
    Ini.ParseOfPrint(Rules(s), kept, order);
  }

  /** The values after a restore: those backed up, except that an interface left at its sentinel is
      set to wireless if a network name is restored, and to wired otherwise. */
  function Restored(s: Schema, values: map<text, text>): map<text, text>
    requires INTERFACE in s.Names() && SSID in values && INTERFACE in values
  {
    if values[INTERFACE] != s.Get(INTERFACE).factoryDefault then values
    else values[INTERFACE := if values[SSID] != [] then Ascii("0") else Ascii("1")]
  }

  lemma BinaryIsCanonical(t: text)
    requires t == Ascii("0") || t == Ascii("1")
    ensures IsCanonical(1, t)
  {
    assert t[..0] == [];
    assert DigitsValue(t) == t[0] - DIGIT0;
    assert Encode(1, t) == Some([t[0] - DIGIT0]);
  }

  lemma RestoredInterface(s: Schema, values: map<text, text>, cache: map<text, text>)
    requires Restorable(s) && Reported(s, values)
    requires Lookup(cache, INTERFACE) == s.Get(INTERFACE).factoryDefault
    ensures Same(Written(s, FactoryDefaults(s), WithInterface(s, Filter(s, values), cache)), Restored(s, values), INTERFACE)
  {
    FilteredName(s, values, INTERFACE);
    FilteredName(s, values, SSID);
    BinaryIsCanonical(Ascii("0"));
    BinaryIsCanonical(Ascii("1"));
    assert GoodRow(s.Get(INTERFACE));
    assert Lookup(Filter(s, values), SSID) != [] <==> values[SSID] != [];
  }

  lemma RestoredRegister(s: Schema, values: map<text, text>, cache: map<text, text>, n: text)
    requires Restorable(s) && Reported(s, values) && n in s.Names()
    requires Lookup(cache, INTERFACE) == s.Get(INTERFACE).factoryDefault
    ensures Same(Written(s, FactoryDefaults(s), WithInterface(s, Filter(s, values), cache)), Restored(s, values), n)
  {
    if n == INTERFACE {
      RestoredInterface(s, values, cache);
    } else {
      FilteredName(s, values, n);
      OthersKept(s, values, Filter(s, values), cache, n);
      WrittenRegister(s, values, WithInterface(s, Filter(s, values), cache), n);
    }
  }

  /** Nothing but the interface is touched by its default. */
  lemma OthersKept(s: Schema, values: map<text, text>, merged: map<text, text>, cache: map<text, text>, n: text)
    requires n != INTERFACE && INTERFACE in s.Names() && values.Keys == s.Names() && SSID in values && n in values
    ensures n in WithInterface(s, merged, cache) <==> n in merged
    ensures n in merged ==> WithInterface(s, merged, cache)[n] == merged[n]
    ensures n in Restored(s, values) && Restored(s, values)[n] == values[n]
  {
  }

  lemma WrittenRegister(s: Schema, values: map<text, text>, config: map<text, text>, n: text)
    requires Restorable(s) && Reported(s, values) && n in s.Names()
    requires n in config <==> values[n] != s.Get(n).factoryDefault
    requires n in config ==> config[n] == values[n]
    ensures n in Written(s, FactoryDefaults(s), config) && Written(s, FactoryDefaults(s), config)[n] == values[n]
  {
    assert GoodRow(s.Get(n)) && IsCanonical(s.Get(n).length, values[n]);
  }

  /** Writing the changed values over factory settings gives the restored values. */
  lemma RestoredRegisters(s: Schema, values: map<text, text>, cache: map<text, text>)
    requires Restorable(s) && Reported(s, values)
    requires Lookup(cache, INTERFACE) == s.Get(INTERFACE).factoryDefault
    ensures Written(s, FactoryDefaults(s), WithInterface(s, Filter(s, values), cache)) == Restored(s, values)
  {
    forall n | n in s.Names()
      ensures Same(Written(s, FactoryDefaults(s), WithInterface(s, Filter(s, values), cache)), Restored(s, values), n)
    {
      RestoredRegister(s, values, cache, n);
    }
    CollectRestored(s, values, WithInterface(s, Filter(s, values), cache));
  }

  lemma CollectRestored(s: Schema, values: map<text, text>, config: map<text, text>)
    requires values.Keys == s.Names() && INTERFACE in s.Names() && SSID in s.Names()
    requires forall n :: n in s.Names() ==> Same(Written(s, FactoryDefaults(s), config), Restored(s, values), n)
    ensures Written(s, FactoryDefaults(s), config) == Restored(s, values)
  {
    WrittenKeys(s, FactoryDefaults(s), config);
    RestoredKeys(s, values);
    SameMaps(Written(s, FactoryDefaults(s), config), Restored(s, values), s.Names());
  }

  lemma WrittenKeys(s: Schema, regs: map<text, text>, config: map<text, text>)
    ensures Written(s, regs, config).Keys == s.Names()
  {
  }

  lemma RestoredKeys(s: Schema, values: map<text, text>)
    requires values.Keys == s.Names() && INTERFACE in values && SSID in values
    ensures Restored(s, values).Keys == s.Names()
  {
  }

  ghost predicate Same(a: map<text, text>, b: map<text, text>, k: text) {
    k in a && k in b && a[k] == b[k]
  }

  lemma SameMaps(a: map<text, text>, b: map<text, text>, keys: set<text>)
    requires a.Keys == keys && b.Keys == keys && forall k :: k in keys ==> Same(a, b, k)
    ensures a == b
  {
    forall k | k in keys ensures a[k] == b[k] {
      assert Same(a, b, k);
    }
  }

  // ---- runSet ------------------------------------------------------------------------

  /** runSet from the read on: read, choose the interface, write. */
  function RunSet(s: Schema, clock: nat -> nat, w: World, c: Session, params: map<text, text>): Outcome {
    var g := GetAll(s, clock, w, c);
    if !g.ok then g
    else Perform(s, clock, g.world, g.session, Store(WithInterface(s, params, g.session.cache)))
  }

  /** The target answers reads and writes, and will until it is reset. */
  ghost predicate Up(w: World, c: Session)
    requires Hosts(w, c)
  {
    var d := Target(w, c);
    !d.cfg.unreachable && d.rebootDeadline.None? && AnswersReads(d.cfg) && !FailsOn(d.cfg, OpSet)
  }

  /** A read of a device that is up succeeds and returns the registers. */
  lemma ReadReturns(s: Schema, clock: nat -> nat, w: World, c: Session)
    requires s.Valid() && InStep(s, w, c) && Up(w, c)
    ensures var o := GetAll(s, clock, w, c);
            && o.ok && SameTarget(c, o.session) && InStep(s, o.world, o.session) && Up(o.world, o.session)
            && Registers(s, o.world, o.session) == Registers(s, w, c)
            && CacheAgrees(s, o.session.cache, Target(w, c).working)
            && Holds(s, o.session.cache, Registers(s, w, c))
  {
    GetAllEffect(s, clock, w, c);
    var o := GetAll(s, clock, w, c);
    ReadStep(s, w, c, clock(w.net.ticks), o);
    ReadHolds(s, w, c, clock(w.net.ticks), o);
  }

  /** Every register is cached with its value. */
  ghost predicate Holds(s: Schema, cache: map<text, text>, regs: map<text, text>) {
    forall n :: n in s.Names() ==> n in cache && n in regs && cache[n] == regs[n]
  }

  lemma ReadHolds(s: Schema, w: World, c: Session, now: nat, o: Outcome)
    requires Hosts(w, c) && Up(w, c) && ReadOutcome(s, w, c, now, o) && o.ok
    ensures Holds(s, o.session.cache, Registers(s, w, c))
    ensures Hosts(o.world, o.session) && Up(o.world, o.session)
    ensures Target(o.world, o.session).working == Target(w, c).working
  {
    var read :| o.session.cache == Refresh(c.cache, read) && IsFullRead(s, read, Target(w, c).working);
  }

  /** A write to a device that is up succeeds when its values encode. */
  lemma WriteReturns(s: Schema, clock: nat -> nat, w: World, c: Session, config: map<text, text>)
    requires s.Valid() && InStep(s, w, c) && Up(w, c) && c.cache != map[] && CacheAgrees(s, c.cache, Target(w, c).working)
    requires Canonical(s, config) && Encodable(s, config)
    ensures var o := Perform(s, clock, w, c, Store(config));
            && o.ok && SameTarget(c, o.session) && InStep(s, o.world, o.session) && Up(o.world, o.session)
            && Registers(s, o.world, o.session) == Written(s, Registers(s, w, c), config)
  {
    TableWrite(s, clock, w, c, config);
    var keys := TableOrder(s.params, c.cache + config);
    GoodWrite(s, w, c, config, keys, clock(w.net.ticks), Write(s, clock, w, c, config, keys));
  }

  lemma GoodWrite(s: Schema, w: World, c: Session, config: map<text, text>, keys: seq<text>, now: nat, o: Outcome)
    requires s.Valid() && InStep(s, w, c) && Up(w, c) && CacheAgrees(s, c.cache, Target(w, c).working)
    requires Canonical(s, config) && Encodable(s, config) && Listing(s, c.cache + config, keys)
    requires WriteOutcome(s, w, c, config, keys, now, o)
    ensures o.ok && SameTarget(c, o.session) && InStep(s, o.world, o.session) && Up(o.world, o.session)
    ensures Registers(s, o.world, o.session) == Written(s, Registers(s, w, c), config)
  {
    WriteStep(s, w, c, config, keys, now, o);
    WriteStaysUp(s, w, c, config, keys, now, o);
  }

  lemma TableWrite(s: Schema, clock: nat -> nat, w: World, c: Session, config: map<text, text>)
    requires s.Valid() && InStep(s, w, c) && CacheAgrees(s, c.cache, Target(w, c).working) && Canonical(s, config)
    ensures var keys := TableOrder(s.params, c.cache + config);
            && Listing(s, c.cache + config, keys)
            && WriteOutcome(s, w, c, config, keys, clock(w.net.ticks), Write(s, clock, w, c, config, keys))
  {
    MergedCanonical(s, c.cache, config);
    TableOrderIsListing(s, c.cache + config);
    WriteEffect(s, clock, w, c, config, TableOrder(s.params, c.cache + config));
  }

  lemma WriteStaysUp(s: Schema, w: World, c: Session, config: map<text, text>, keys: seq<text>, now: nat, o: Outcome)
    requires Hosts(w, c) && Up(w, c) && Listing(s, c.cache + config, keys)
    requires WriteOutcome(s, w, c, config, keys, now, o) && o.ok
    ensures Hosts(o.world, o.session) && Up(o.world, o.session)
  {
  }

  lemma InterfaceIsFine(s: Schema, params: map<text, text>, cache: map<text, text>)
    requires s.Valid() && INTERFACE in s.Names() && s.Get(INTERFACE).length == 1
    requires Canonical(s, params) && Encodable(s, params)
    ensures Canonical(s, WithInterface(s, params, cache)) && Encodable(s, WithInterface(s, params, cache))
  {
    var config := WithInterface(s, params, cache);
    s.ByNameExactly(INTERFACE);
    BinaryIsCanonical(Ascii("0"));
    BinaryIsCanonical(Ascii("1"));
    forall k | k in KnownKeys(s, config)
      ensures k in s.Names() && Encode(s.ByName(k).value.length, config[k]).Some?
    {
      if k != INTERFACE || k in params {
        assert k in KnownKeys(s, params);
      }
    }
  }

  /** `set` on a device that is up: its registers are updated by the given parameters and the choice
      of interface made from what the device reported. */
  lemma RunSetReturns(s: Schema, clock: nat -> nat, w: World, c: Session, params: map<text, text>)
    requires Restorable(s) && InStep(s, w, c) && Up(w, c) && Canonical(s, params) && Encodable(s, params)
    ensures var o := RunSet(s, clock, w, c, params);
            && o.ok && SameTarget(c, o.session) && InStep(s, o.world, o.session) && Up(o.world, o.session)
            && exists cache :: Holds(s, cache, Registers(s, w, c)) &&
                 Registers(s, o.world, o.session) == Written(s, Registers(s, w, c), WithInterface(s, params, cache))
  {
    ReadReturns(s, clock, w, c);
    var g := GetAll(s, clock, w, c);
    InterfaceIsFine(s, params, g.session.cache);
    WriteReturns(s, clock, g.world, g.session, WithInterface(s, params, g.session.cache));
  }

  /** The changed values of a device are canonical and encode. */
  lemma FilterIsFine(s: Schema, values: map<text, text>)
    requires s.Valid() && Reported(s, values)
    ensures Canonical(s, Filter(s, values)) && Encodable(s, Filter(s, values))
  {
    forall k | k in Filter(s, values) ensures k in s.Names() && Encode(s.ByName(k).value.length, values[k]).Some? {
      FilteredName(s, values, k);
    }
  }

  lemma RegistersAreReported(s: Schema, w: World, c: Session)
    requires s.Valid() && MacText.MacString(c.m) in w.net.devices
    ensures Reported(s, Registers(s, w, c))
  {
    forall n | n in s.Names() ensures IsCanonical(s.Get(n).length, Registers(s, w, c)[n]) {
      s.Listed(s.Get(n));
      ReadingIsCanonical(s.Get(n), Target(w, c).working);
    }
  }

  /** Filtering what a read returned is filtering the registers: synthetic keys are dropped. */
  lemma FilterOfRead(s: Schema, read: map<text, text>, regs: map<text, text>)
    requires s.Valid() && Holds(s, read, regs) && regs.Keys == s.Names()
    requires forall k :: k in read && k !in s.Names() ==> HasPrefix(k, Ascii("offset_"))
    ensures Filter(s, read) == Filter(s, regs)
  {
    assert forall k :: k in Filter(s, read) ==> k in s.Names();
  }

  // ---- End to end --------------------------------------------------------------------

  /** A first read of a device that is up returned this map. */
  ghost predicate Backed(s: Schema, clock: nat -> nat, w: World, c: Session, read: map<text, text>) {
    InStep(s, w, c) && Up(w, c) && c.cache == map[] && read == GetAll(s, clock, w, c).session.cache
  }

  /** It holds the device's registers, and besides them only keys that are filtered out. */
  lemma BackedHolds(s: Schema, clock: nat -> nat, w: World, c: Session, read: map<text, text>)
    requires s.Valid() && Backed(s, clock, w, c, read)
    ensures Reported(s, Registers(s, w, c)) && Filter(s, read) == Filter(s, Registers(s, w, c))
  {
    ReadReturns(s, clock, w, c);
    GetAllEffect(s, clock, w, c);
    OutcomeFilters(s, w, c, clock(w.net.ticks), GetAll(s, clock, w, c));
    RegistersAreReported(s, w, c);
  }

  lemma OutcomeFilters(s: Schema, w: World, c: Session, now: nat, o: Outcome)
    requires s.Valid() && Hosts(w, c) && ReadOutcome(s, w, c, now, o) && o.ok && c.cache == map[]
    requires Holds(s, o.session.cache, Registers(s, w, c))
    ensures Filter(s, o.session.cache) == Filter(s, Registers(s, w, c))
  {
    FreshReadKeys(s, w, c, now, o);
    FilterOfRead(s, o.session.cache, Registers(s, w, c));
  }

  lemma FreshReadKeys(s: Schema, w: World, c: Session, now: nat, o: Outcome)
    requires Hosts(w, c) && ReadOutcome(s, w, c, now, o) && o.ok && c.cache == map[]
    ensures forall k :: k in o.session.cache && k !in s.Names() ==> HasPrefix(k, Ascii("offset_"))
  {
    var read :| o.session.cache == Refresh(c.cache, read) && IsFullRead(s, read, AfterRebootCheck(Target(w, c), now).working);
  }

  /** What `read` prints parses to the device's changed values exactly when each of them is
      settable. */
  lemma BackupExactly(s: Schema, clock: nat -> nat, w: World, c: Session, read: map<text, text>, list: seq<ParamValue>)
    requires Restorable(s) && Backed(s, clock, w, c, read) && SortedList(Filter(s, read), list)
    ensures var kept := Filter(s, Registers(s, w, c));
            Ini.Parse(Rules(s), Ini.Print(Filter(s, read), NamesIn(list))) == Some(kept) <==>
            forall n :: n in kept ==> Settable(s, n, kept[n])
  {
    BackedHolds(s, clock, w, c, read);
    PrintedParses(s, Registers(s, w, c), list);
  }

  lemma PrintedParses(s: Schema, regs: map<text, text>, list: seq<ParamValue>)
    requires Restorable(s) && Reported(s, regs) && SortedList(Filter(s, regs), list)
    ensures var kept := Filter(s, regs);
            Ini.Parse(Rules(s), Ini.Print(kept, NamesIn(list))) == Some(kept) <==>
            forall n :: n in kept ==> Settable(s, n, kept[n])
  {
    SortedListLists(Filter(s, regs), list);
    BackupParsesExactly(s, regs, NamesIn(list));
  }

  /** The values another device with factory settings reports once these parameters have been set. */
  ghost predicate Restores(s: Schema, clock: nat -> nat, w: World, c: Session, params: map<text, text>, values: map<text, text>) {
    var o := RunSet(s, clock, w, c, params);
    && o.ok
    && var again := GetAll(s, clock, o.world, o.session);
       again.ok && Holds(s, again.session.cache, values)
  }

  /** A device with factory settings. */
  ghost predicate Factory(s: Schema, w: World, c: Session) {
    InStep(s, w, c) && Up(w, c) && Registers(s, w, c) == FactoryDefaults(s)
  }

  /** Setting the changed values of one device on another that has factory settings gives it the
      restored values. */
  lemma RestoredRun(s: Schema, clock: nat -> nat, w: World, c: Session, values: map<text, text>)
    requires Restorable(s) && Reported(s, values) && Factory(s, w, c)
    ensures var o := RunSet(s, clock, w, c, Filter(s, values));
            && o.ok && SameTarget(c, o.session) && InStep(s, o.world, o.session) && Up(o.world, o.session)
            && Registers(s, o.world, o.session) == Restored(s, values)
  {
    FilterIsFine(s, values);
    RunSetReturns(s, clock, w, c, Filter(s, values));
    var o := RunSet(s, clock, w, c, Filter(s, values));
    var cache :| Holds(s, cache, Registers(s, w, c)) &&
      Registers(s, o.world, o.session) == Written(s, Registers(s, w, c), WithInterface(s, Filter(s, values), cache));
    assert Lookup(cache, INTERFACE) == s.Get(INTERFACE).factoryDefault;
    RestoredRegisters(s, values, cache);
  }

  /** So a later full read of that device returns the same values, the interface sentinel apart. */
  lemma RestoreReturns(s: Schema, clock: nat -> nat, w: World, c: Session, values: map<text, text>)
    requires Restorable(s) && Reported(s, values) && Factory(s, w, c)
    ensures Restores(s, clock, w, c, Filter(s, values), Restored(s, values))
  {
    RestoredRun(s, clock, w, c, values);
    var o := RunSet(s, clock, w, c, Filter(s, values));
    ReadReturns(s, clock, o.world, o.session);
  }

  /** The file that `read` prints, piped into `set`, gives the changed values. */
  lemma PipedParams(s: Schema, clock: nat -> nat, w: World, c: Session, read: map<text, text>, list: seq<ParamValue>)
    requires Restorable(s) && Backed(s, clock, w, c, read) && SortedList(Filter(s, read), list)
    requires forall n :: n in Filter(s, read) ==> Settable(s, n, read[n])
    ensures FromText(s, Sources(None, Some(Ini.Print(Filter(s, read), NamesIn(list))), true, map[])) ==
            Some(Filter(s, Registers(s, w, c)))
    ensures Filter(s, read) == Filter(s, Registers(s, w, c)) && Reported(s, Registers(s, w, c))
  {
    BackedHolds(s, clock, w, c, read);
    BackupExactly(s, clock, w, c, read, list);
  }

  /** Backup, then restore: a device whose changed values are all settable, and of which at least one
      is changed, can be copied onto a device with factory settings through the text of `read`. */
  lemma BackupRestoreRoundTrip(s: Schema, clock: nat -> nat, w: World, c: Session, read: map<text, text>, list: seq<ParamValue>,
                               clock': nat -> nat, w': World, c': Session)
    requires Restorable(s) && Backed(s, clock, w, c, read) && SortedList(Filter(s, read), list) && Factory(s, w', c')
    requires Filter(s, read) != map[] && forall n :: n in Filter(s, read) ==> Settable(s, n, read[n])
    ensures var params := FromText(s, Sources(None, Some(Ini.Print(Filter(s, read), NamesIn(list))), true, map[]));
            && params.Some? && params.value != map[]
            && Reported(s, Registers(s, w, c))
            && Restores(s, clock', w', c', params.value, Restored(s, Registers(s, w, c)))
  {
    PipedParams(s, clock, w, c, read, list);
    RestoreReturns(s, clock', w', c', Registers(s, w, c));
  }

  /** Factory defaults are reported as they are. */
  lemma FactoryReadings(s: Schema)
    requires Restorable(s)
    ensures Readings(s, FactoryDefaults(s)) == FactoryDefaults(s)
  {
    forall n | n in s.Names() ensures Same(Readings(s, FactoryDefaults(s)), FactoryDefaults(s), n) {
      assert GoodRow(s.Get(n));
      EncodersAgree(s.Get(n).length, s.Get(n).factoryDefault);
    }
    SameMaps(Readings(s, FactoryDefaults(s)), FactoryDefaults(s), s.Names());
  }

  lemma NewDeviceMemory(s: Schema, cfg: Config)
    requires cfg.nvram == map[] && cfg.name == []
    ensures NewDevice(s, cfg) == DeviceState(WithDefaults(cfg), FactoryDefaults(s), FactoryDefaults(s), None)
  {
    assert FactoryDefaults(s) + map[] == FactoryDefaults(s);
  }

  /** A new simulated device without settings of its own is one with factory settings. */
  lemma NewDeviceIsFactory(s: Schema, w: World, c: Session, cfg: Config)
    requires Restorable(s) && Hosts(w, c) && Quiet(w, c) && c.cache == map[]
    requires Target(w, c) == NewDevice(s, cfg) && Readable(s, cfg) && !FailsOn(cfg, OpSet) && !cfg.unreachable
    requires cfg.nvram == map[] && cfg.name == []
    ensures Factory(s, w, c)
  {
    FactoryReadings(s);
    NewDeviceMemory(s, cfg);
    StartsInStep(s, w, c, cfg);
  }
}
