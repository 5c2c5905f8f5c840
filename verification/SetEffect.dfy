/** What a nil from SetDeviceConfigWithContext tells its caller, for whichever packet order the map
    iteration happens to give. */
module SetEffect {
  import opened Bytes
  import opened Parameters
  import opened Wire
  import opened SimDevice
  import opened ClientProtocol
  import opened LockStep
  import opened ReadModifyWrite
  import opened Runs
  import opened Packets
  import MacText

  /** For canonical names there is only one packet order, the one of the table. */
  lemma OnlyTableOrder(s: Schema, m: map<text, text>, keys: seq<text>)
    requires s.Valid() && Canonical(s, m) && Encodable(s, m) && Listing(s, m, keys)
    ensures keys == TableOrder(s.params, m)
  {
    TableOrderIsListing(s, m);
    ListingFits(s, m, keys);
    forall j, k | j in KnownKeys(s, m) && k in KnownKeys(s, m) && s.ByName(j) == s.ByName(k) ensures j == k {
      s.ByNameExactly(j);
      s.ByNameExactly(k);
    }
    InjectivePacket(s, m, keys, TableOrder(s.params, m));
  }

  lemma WriteIsOrderFree(s: Schema, clock: nat -> nat, w: World, c: Session, config: map<text, text>, keys: seq<text>)
    requires s.Valid() && Canonical(s, c.cache + config) && Listing(s, c.cache + config, keys)
    ensures var order := TableOrder(s.params, c.cache + config);
            && Listing(s, c.cache + config, order)
            && Write(s, clock, w, c, config, keys) == Write(s, clock, w, c, config, order)
  {
    TableOrderIsListing(s, c.cache + config);
    if Encodable(s, c.cache + config) {
      OnlyTableOrder(s, c.cache + config, keys);
    }
  }

  /** The cache after the prelude holds canonical names only. */
  lemma PreludeIsCanonical(s: Schema, clock: nat -> nat, w: World, c: Session)
    requires s.Valid() && InStep(s, w, c)
    ensures var p := Prelude(s, clock, w, c); p.ok ==> Canonical(s, p.session.cache)
  {
    if c.cache == map[] {
      GetAllEffect(s, clock, w, c);
      ReadStep(s, w, c, clock(w.net.ticks), GetAll(s, clock, w, c));
    }
  }

  lemma SetIsStore(s: Schema, clock: nat -> nat, w: World, c: Session, config: map<text, text>, keys: seq<text>)
    requires s.Valid() && InStep(s, w, c) && Canonical(s, config)
    requires var p := Prelude(s, clock, w, c); p.ok ==> Listing(s, p.session.cache + config, keys)
    ensures Set(s, clock, w, c, config, keys) == Perform(s, clock, w, c, Store(config))
  {
    PreludeIsCanonical(s, clock, w, c);
    var p := Prelude(s, clock, w, c);
    if p.ok {
      MergedCanonical(s, p.session.cache, config);
      WriteIsOrderFree(s, clock, p.world, p.session, config, keys);
    }
  }

  /** In lock step, whatever the packet order: after a nil the target reports the canonical form of
      every configured value and its old value for every other parameter; after an error it reports
      what it did before. Either way no other device has changed and both ends are in step again. */
  lemma NilMeansWritten(s: Schema, clock: nat -> nat, w: World, c: Session, config: map<text, text>, keys: seq<text>)
    requires s.Valid() && InStep(s, w, c) && Canonical(s, config)
    requires var p := Prelude(s, clock, w, c); p.ok ==> Listing(s, p.session.cache + config, keys)
    ensures var o := Set(s, clock, w, c, config, keys);
            && SameTarget(c, o.session) && OnlyTargetChanged(w, o.world, c) && InStep(s, o.world, o.session)
            && (o.ok ==> forall n :: n in config && n in s.Names() ==> Encode(s.Get(n).length, config[n]).Some?)
            && forall n :: n in s.Names() ==>
                 Registers(s, o.world, o.session)[n] ==
                 if o.ok && n in config then Canon(s.Get(n).length, config[n]) else Registers(s, w, c)[n]
  {
    SetIsStore(s, clock, w, c, config, keys);
    SetStep(s, clock, w, c, config);
    if Set(s, clock, w, c, config, keys).ok {
      forall n | n in config && n in s.Names() ensures Encode(s.Get(n).length, config[n]).Some? {
        s.ByNameExactly(n);
      }
    }
  }

  // ---- Aliases -------------------------------------------------------------------------

  /** Every value of the config is reported, in canonical form, under the name its key stands for. */
  ghost predicate ReportsAll(s: Schema, working: map<text, text>, config: map<text, text>) {
    forall k :: k in KnownKeys(s, config) ==>
      var p := s.ByName(k).value;
      Encode(p.length, config[k]).Some? && Reading(p, working) == Canon(p.length, config[k])
  }

  lemma ReadingOfLast(s: Schema, d: DeviceState, m: map<text, text>, keys: seq<text>, k: text)
    requires s.Valid() && Encodable(s, m) && k in KnownKeys(s, m) && Listing(s, m, keys)
    requires var u := Updates(s, map[], ItemsFor(s, m, keys)); NameOf(s, k) in u && u[NameOf(s, k)] == StoredFor(s, m, k)
    ensures Reading(s.ByName(k).value, AfterSet(s, d, ItemsFor(s, m, keys)).working) == StoredFor(s, m, k)
  {
    s.Listed(s.ByName(k).value);
    ReadingOfCanon(s.ByName(k).value, AfterSet(s, d, ItemsFor(s, m, keys)).working, m[k]);
  }

  /** Two keys of one parameter are not both from the cache. */
  lemma OneIsConfigured(s: Schema, cache: map<text, text>, config: map<text, text>, j: text, k: text)
    requires s.Valid() && Canonical(s, cache) && j != k && s.ByName(j) == s.ByName(k)
    requires j in KnownKeys(s, cache + config) && k in KnownKeys(s, cache + config)
    ensures j in config || k in config
  {
    if j !in config && k !in config {
      assert j in KnownKeys(s, cache) && k in KnownKeys(s, cache);
      s.ByNameExactly(j);
      s.ByNameExactly(k);
    }
  }

  /** What a write leaves is what the caller asked for, whatever the packet order, exactly when all
      keys of a parameter, cached or configured, stand for the same value. */
  lemma WriteReportsExactly(s: Schema, d: DeviceState, cache: map<text, text>, config: map<text, text>)
    requires s.Valid() && Canonical(s, cache) && Encodable(s, cache + config)
    ensures (forall keys :: Listing(s, cache + config, keys) ==>
               ReportsAll(s, AfterSet(s, d, ItemsFor(s, cache + config, keys)).working, config)) <==>
            SameStored(s, cache + config)
  {
    var all := cache + config;
    if SameStored(s, all) {
      forall keys | Listing(s, all, keys) ensures ReportsAll(s, AfterSet(s, d, ItemsFor(s, all, keys)).working, config) {
        SameIsReported(s, d, cache, config, keys);
      }
    } else {
      var j, k :| j in KnownKeys(s, all) && k in KnownKeys(s, all) && s.ByName(j) == s.ByName(k) &&
                  StoredFor(s, all, j) != StoredFor(s, all, k);
      OneIsConfigured(s, cache, config, j, k);
      if k in config {
        var keys := OtherWins(s, d, cache, config, j, k);
      } else {
        var keys := OtherWins(s, d, cache, config, k, j);
      }
    }
  }

  lemma SameIsReported(s: Schema, d: DeviceState, cache: map<text, text>, config: map<text, text>, keys: seq<text>)
    requires s.Valid() && Encodable(s, cache + config) && SameStored(s, cache + config) && Listing(s, cache + config, keys)
    ensures ReportsAll(s, AfterSet(s, d, ItemsFor(s, cache + config, keys)).working, config)
  {
    var all := cache + config;
    forall k | k in KnownKeys(s, config)
      ensures Encode(s.ByName(k).value.length, config[k]).Some?
      ensures Reading(s.ByName(k).value, AfterSet(s, d, ItemsFor(s, all, keys)).working) == Canon(s.ByName(k).value.length, config[k])
    {
      assert k in KnownKeys(s, all) && k in keys && all[k] == config[k];
      var t := LastNamed(s, keys, k);
      NameOfItem(s, all, keys, t);
      s.SameName(s.ByName(k).value, s.ByName(keys[t]).value);
      LastKeyWins(s, all, keys, t);
      ReadingOfLast(s, d, all, keys, k);
    }
  }

  /** In one of the orders the value of j is written over that of k. */
  lemma OtherWins(s: Schema, d: DeviceState, cache: map<text, text>, config: map<text, text>, j: text, k: text)
    returns (keys: seq<text>)
    requires s.Valid() && Encodable(s, cache + config) && k in config
    requires j in KnownKeys(s, cache + config) && k in KnownKeys(s, cache + config) && s.ByName(j) == s.ByName(k)
    requires StoredFor(s, cache + config, j) != StoredFor(s, cache + config, k)
    ensures Listing(s, cache + config, keys)
    ensures !ReportsAll(s, AfterSet(s, d, ItemsFor(s, cache + config, keys)).working, config)
  {
    var some := SomeListing(s, cache + config);
    keys := AnyNameCanWin(s, cache + config, some, j);
    ReadingOfLast(s, d, cache + config, keys, j);
    assert k in KnownKeys(s, config);
  }

  /** The prelude succeeded and the target is awake and takes writes. */
  ghost predicate TakesWrites(clock: nat -> nat, p: Outcome) {
    && p.ok && MacText.MacString(p.session.m) in p.world.net.devices
    && Awake(Target(p.world, p.session), clock(p.world.net.ticks)) && !FailsOn(Target(p.world, p.session).cfg, OpSet)
  }

  /** The write of a set, after its prelude, is acknowledged. */
  ghost predicate Accepted(s: Schema, clock: nat -> nat, p: Outcome, config: map<text, text>) {
    TakesWrites(clock, p) && Encodable(s, p.session.cache + config)
  }

  /** The prelude keeps lock step and every register, and leaves a cache that agrees with the device. */
  lemma PreludeStep(s: Schema, clock: nat -> nat, w: World, c: Session)
    requires s.Valid() && InStep(s, w, c)
    ensures var p := Prelude(s, clock, w, c);
            && SameTarget(c, p.session) && InStep(s, p.world, p.session)
            && Registers(s, p.world, p.session) == Registers(s, w, c)
            && (p.ok ==> CacheAgrees(s, p.session.cache, Target(p.world, p.session).working))
  {
    if c.cache == map[] {
      GetAllEffect(s, clock, w, c);
      ReadStep(s, w, c, clock(w.net.ticks), GetAll(s, clock, w, c));
    }
  }

  /** What one accepted write makes of the device. */
  lemma WriteLeaves(s: Schema, w: World, c: Session, config: map<text, text>, keys: seq<text>, now: nat, o: Outcome)
    requires InStep(s, w, c) && (forall k :: k in keys ==> k in KnownKeys(s, c.cache + config))
    requires WriteOutcome(s, w, c, config, keys, now, o) && o.ok
    ensures o.session.m == c.m && MacText.MacString(c.m) in o.world.net.devices && o.session.cache == c.cache + config
    ensures Target(o.world, o.session) == AfterSet(s, AfterRebootCheck(Target(w, c), now), ItemsFor(s, c.cache + config, keys))
  {
  }

  /** A set in lock step that is acknowledged. */
  lemma SetLeaves(s: Schema, clock: nat -> nat, w: World, c: Session, config: map<text, text>, keys: seq<text>)
    returns (d: DeviceState)
    requires s.Valid() && InStep(s, w, c) && Listing(s, Prelude(s, clock, w, c).session.cache + config, keys)
    requires Prelude(s, clock, w, c).ok
    ensures var p, o := Prelude(s, clock, w, c), Set(s, clock, w, c, config, keys);
            && InStep(s, p.world, p.session) && (o.ok <==> Accepted(s, clock, p, config))
            && (o.ok ==> && o.session.m == c.m && MacText.MacString(c.m) in o.world.net.devices
                         && o.session.cache == p.session.cache + config
                         && Target(o.world, o.session) == AfterSet(s, d, ItemsFor(s, p.session.cache + config, keys)))
            && d == AfterRebootCheck(Target(p.world, p.session), clock(p.world.net.ticks))
  {
    var p := Prelude(s, clock, w, c);
    PreludeStep(s, clock, w, c);
    var now, o := clock(p.world.net.ticks), Write(s, clock, p.world, p.session, config, keys);
    WriteEffect(s, clock, p.world, p.session, config, keys);
    if o.ok {
      WriteLeaves(s, p.world, p.session, config, keys, now, o);
    }
    d := AfterRebootCheck(Target(p.world, p.session), now);
  }

  /** In lock step, for any keys: a nil means that the device reports every value of the config,
      whatever order the packet happens to get, exactly when all keys of a parameter in the merged map
      stand for the same value, or the write is not acknowledged in any order. */
  lemma NilReportsExactly(s: Schema, clock: nat -> nat, w: World, c: Session, config: map<text, text>)
    requires s.Valid() && InStep(s, w, c) && Prelude(s, clock, w, c).ok
    ensures var p := Prelude(s, clock, w, c);
            && InStep(s, p.world, p.session)
            && ((forall keys :: Listing(s, p.session.cache + config, keys) ==> NilReports(s, clock, w, c, config, keys)) <==>
                (Accepted(s, clock, p, config) ==> SameStored(s, p.session.cache + config)))
  {
    var p := Prelude(s, clock, w, c);
    PreludeStep(s, clock, w, c);
    var all := p.session.cache + config;
    var d := AfterRebootCheck(Target(p.world, p.session), clock(p.world.net.ticks));
    forall keys | Listing(s, all, keys)
      ensures NilReports(s, clock, w, c, config, keys) <==>
              (Accepted(s, clock, p, config) ==> ReportsAll(s, AfterSet(s, d, ItemsFor(s, all, keys)).working, config))
    {
      var d' := SetLeaves(s, clock, w, c, config, keys);
    }
    if Accepted(s, clock, p, config) {
      WriteReportsExactly(s, d, p.session.cache, config);
    }
  }

  ghost predicate NilReports(s: Schema, clock: nat -> nat, w: World, c: Session, config: map<text, text>, keys: seq<text>)
    requires Prelude(s, clock, w, c).ok && Listing(s, Prelude(s, clock, w, c).session.cache + config, keys)
  {
    var o := Set(s, clock, w, c, config, keys);
    o.ok ==> MacText.MacString(o.session.m) in o.world.net.devices && ReportsAll(s, Target(o.world, o.session).working, config)
  }

  /** The merge keeps the cached value under the canonical name, so a value given under an alias is
      written next to the old one. Each of the two can be written last. */
  lemma AliasOrders(s: Schema, d: DeviceState, cache: map<text, text>, a: text, v: text)
    returns (lost: seq<text>, kept: seq<text>)
    requires s.Valid() && CacheAgrees(s, cache, d.working) && a in s.aliases
    requires Encodable(s, cache + map[a := v])
    ensures Listing(s, cache + map[a := v], lost) && Listing(s, cache + map[a := v], kept)
    ensures var p := s.Get(s.aliases[a]);
            && Encode(p.length, v).Some?
            && Reading(p, AfterSet(s, d, ItemsFor(s, cache + map[a := v], lost)).working) == Reading(p, d.working)
            && Reading(p, AfterSet(s, d, ItemsFor(s, cache + map[a := v], kept)).working) == Canon(p.length, v)
  {
    var m, n := cache + map[a := v], s.aliases[a];
    s.ByNameExactly(n);
    assert s.ByName(a) == Some(s.Get(n));
    assert a in KnownKeys(s, m) && n in KnownKeys(s, m) && m[a] == v && m[n] == cache[n];
    var keys := SomeListing(s, m);
    lost := AnyNameCanWin(s, m, keys, n);
    kept := AnyNameCanWin(s, m, keys, a);
    ReadingOfLast(s, d, m, lost, n);
    ReadingOfLast(s, d, m, kept, a);
  }

  lemma AliasEncodes(s: Schema, cache: map<text, text>, a: text, v: text, working: map<text, text>)
    requires s.Valid() && CacheAgrees(s, cache, working) && a in s.aliases && Encode(s.Get(s.aliases[a]).length, v).Some?
    ensures Encodable(s, cache + map[a := v])
  {
    var m := cache + map[a := v];
    forall k | k in KnownKeys(s, m) ensures Encode(s.ByName(k).value.length, m[k]).Some? {
      s.ByNameExactly(k);
      if k != a {
        assert k in KnownKeys(s, cache);
      }
    }
  }

  /** nil, the value cached under the alias, and what the device reports for the parameter. */
  ghost predicate AliasOutcome(s: Schema, o: Outcome, m: mac, a: text, v: text, n: text, reported: text)
    requires n in s.Names()
  {
    && o.ok && o.session.m == m && a in o.session.cache && o.session.cache[a] == v
    && MacText.MacString(m) in o.world.net.devices && Registers(s, o.world, o.session)[n] == reported
  }

  /** Why the names must be canonical: a set of one value under an alias is acknowledged in either
      order, and after one of them the device still reports the old value, while the client has cached
      the new one. */
  lemma AliasMayBeLost(s: Schema, clock: nat -> nat, w: World, c: Session, a: text, v: text)
    returns (lost: seq<text>, kept: seq<text>)
    requires s.Valid() && InStep(s, w, c) && a in s.aliases && Encode(s.Get(s.aliases[a]).length, v).Some?
    requires TakesWrites(clock, Prelude(s, clock, w, c))
    ensures var all, n := Prelude(s, clock, w, c).session.cache + map[a := v], s.aliases[a];
            && Listing(s, all, lost) && Listing(s, all, kept)
            && AliasOutcome(s, Set(s, clock, w, c, map[a := v], lost), c.m, a, v, n, Registers(s, w, c)[n])
            && AliasOutcome(s, Set(s, clock, w, c, map[a := v], kept), c.m, a, v, n, Canon(s.Get(n).length, v))
  {
    var p, n := Prelude(s, clock, w, c), s.aliases[a];
    PreludeStep(s, clock, w, c);
    AliasEncodes(s, p.session.cache, a, v, Target(p.world, p.session).working);
    var d := AfterRebootCheck(Target(p.world, p.session), clock(p.world.net.ticks));
    lost, kept := AliasOrders(s, d, p.session.cache, a, v);
    var d1 := SetLeaves(s, clock, w, c, map[a := v], lost);
    var d2 := SetLeaves(s, clock, w, c, map[a := v], kept);
  }
}
