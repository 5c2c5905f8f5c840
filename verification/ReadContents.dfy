/** What a read returns, key by key: which values are reported, what a refreshed cache still holds,
    and what the read of some names returns. */
module ReadContents {
  import opened Bytes
  import opened Decimal
  import opened Parameters
  import opened Wire
  import opened Items
  import opened SimDevice
  import opened ClientProtocol
  import opened LockStep
  import opened ReadModifyWrite
  import Packets

  /** The parameters asked for. */
  function NamesAsked(s: Schema, regions: seq<Region>): set<text> {
    set n | n in s.Names() && Region(s.Get(n).offset, s.Get(n).length) in regions
  }

  /** A read of these regions, which are those of parameters, gets a reply that its count can describe. */
  ghost predicate Asks(s: Schema, cfg: Config, regions: seq<Region>) {
    && (forall r <- regions :: exists p :: p in s.params && r == Region(p.offset, p.length))
    && (forall o :: o in cfg.unknownOffsets ==> s.ByOffset(o).None?)
    && |regions| + |cfg.unknownOffsets| < 0x1_0000
  }

  /** read holds the value of every name that was asked for, the extra entries of the device in hex
      under their offsets, and nothing else. */
  ghost predicate Shows(s: Schema, names: set<text>, memory: map<text, text>, extra: map<uint16, chunk>, read: map<text, text>)
    requires names <= s.Names()
  {
    && (forall n :: n in names ==> n in read && read[n] == Reading(s.Get(n), memory))
    && (forall o :: o in extra ==> IsExtra(read, o, extra[o]))
    && (forall k :: k in read ==> k in names || exists o :: o in extra && k == Ascii("offset_") + Dec(o))
  }

  ghost predicate IsExtra(read: map<text, text>, o: uint16, value: chunk) {
    var k := Ascii("offset_") + Dec(o);
    k in read && read[k] == Hex(value)
  }

  // ---- The reply, item by item -----------------------------------------------------------

  lemma ParameterItem(s: Schema, d: DeviceState, regions: seq<Region>, i: nat)
    requires s.Valid() && Asks(s, d.cfg, regions) && i < |regions|
    ensures var it := ItemsAnswered(s, d, regions)[i];
            var n := KeyOf(s, it.offset);
            && n in NamesAsked(s, regions) && ValueOf(s, it) == Reading(s.Get(n), d.working)
            && regions[i] == Region(s.Get(n).offset, s.Get(n).length)
  {
    assert regions[i] in regions;
    var p :| p in s.params && regions[i] == Region(p.offset, p.length);
    s.LookupsAgree(p);
    assert ItemsAnswered(s, d, regions)[i] == Answer(s, d.working, regions[i]);
  }

  lemma ExtraItem(s: Schema, d: DeviceState, regions: seq<Region>, i: nat)
    requires Asks(s, d.cfg, regions) && |regions| <= i < |ItemsAnswered(s, d, regions)|
    ensures var it := ItemsAnswered(s, d, regions)[i];
            && it.offset in d.cfg.unknownOffsets && it.value == d.cfg.unknownOffsets[it.offset]
            && KeyOf(s, it.offset) == Ascii("offset_") + Dec(it.offset) && ValueOf(s, it) == Hex(it.value)
  {
    UnknownAt(d.cfg.unknownOffsets, i - |regions|);
  }

  /** A key holds what all its items agree on. */
  lemma {:induction false} FoldAgrees(s: Schema, m: map<text, text>, items: seq<Item>, k: text, v: text)
    requires forall i :: 0 <= i < |items| && KeyOf(s, items[i].offset) == k ==> ValueOf(s, items[i]) == v
    requires (k in m && m[k] == v) || exists i :: 0 <= i < |items| && KeyOf(s, items[i].offset) == k
    ensures k in FoldItems(s, m, items) && FoldItems(s, m, items)[k] == v
    decreases |items|
  {
    if items != [] {
      if KeyOf(s, items[0].offset) != k && !(k in m && m[k] == v) {
        var i :| 0 <= i < |items| && KeyOf(s, items[i].offset) == k;
        assert items[1..][i - 1] == items[i];
      }
      FoldAgrees(s, PutItem(s, m, items[0]), items[1..], k, v);
    }
  }

  lemma ShowsName(s: Schema, d: DeviceState, regions: seq<Region>, n: text)
    requires s.Valid() && Asks(s, d.cfg, regions) && n in NamesAsked(s, regions)
    ensures var read := FoldItems(s, map[], ItemsAnswered(s, d, regions));
            n in read && read[n] == Reading(s.Get(n), d.working)
  {
    var items := ItemsAnswered(s, d, regions);
    var j :| 0 <= j < |regions| && regions[j] == Region(s.Get(n).offset, s.Get(n).length);
    s.LookupsAgree(s.Get(n));
    ParameterItem(s, d, regions, j);
    s.SameOffset(s.Get(KeyOf(s, items[j].offset)), s.Get(n));
    forall i | 0 <= i < |items| && KeyOf(s, items[i].offset) == n ensures ValueOf(s, items[i]) == Reading(s.Get(n), d.working) {
      if i < |regions| {
        ParameterItem(s, d, regions, i);
      } else {
        ExtraItem(s, d, regions, i);
        NotSynthetic(s, s.Get(n), items[i].offset);
      }
    }
    FoldAgrees(s, map[], items, n, Reading(s.Get(n), d.working));
  }

  lemma ShowsExtra(s: Schema, d: DeviceState, regions: seq<Region>, o: uint16)
    requires s.Valid() && Asks(s, d.cfg, regions) && o in d.cfg.unknownOffsets
    ensures IsExtra(FoldItems(s, map[], ItemsAnswered(s, d, regions)), o, d.cfg.unknownOffsets[o])
  {
    var items, k := ItemsAnswered(s, d, regions), Ascii("offset_") + Dec(o);
    UnknownHas(d.cfg.unknownOffsets, o);
    var u :| 0 <= u < |UnknownItems(d.cfg.unknownOffsets)| && UnknownItems(d.cfg.unknownOffsets)[u] == Item(o, d.cfg.unknownOffsets[o]);
    assert items[|regions| + u] == Item(o, d.cfg.unknownOffsets[o]);
    forall i | 0 <= i < |items| && KeyOf(s, items[i].offset) == k ensures ValueOf(s, items[i]) == Hex(d.cfg.unknownOffsets[o]) {
      if i < |regions| {
        ParameterItem(s, d, regions, i);
        NotSynthetic(s, s.Get(k), o);
      } else {
        ExtraItem(s, d, regions, i);
        KeysDiffer(s, items[i].offset, o);
      }
    }
    FoldAgrees(s, map[], items, k, Hex(d.cfg.unknownOffsets[o]));
  }

  lemma ShowsNothingElse(s: Schema, d: DeviceState, regions: seq<Region>, k: text)
    requires s.Valid() && Asks(s, d.cfg, regions) && k in FoldItems(s, map[], ItemsAnswered(s, d, regions))
    ensures k in NamesAsked(s, regions) || exists o :: o in d.cfg.unknownOffsets && k == Ascii("offset_") + Dec(o)
  {
    var items := ItemsAnswered(s, d, regions);
    if forall i :: 0 <= i < |items| ==> KeyOf(s, items[i].offset) != k {
      FoldUntouched(s, map[], items, k);
    } else {
      var i :| 0 <= i < |items| && KeyOf(s, items[i].offset) == k;
      if i < |regions| {
        ParameterItem(s, d, regions, i);
      } else {
        ExtraItem(s, d, regions, i);
      }
    }
  }

  lemma ReplyShows(s: Schema, d: DeviceState, regions: seq<Region>)
    requires s.Valid() && Asks(s, d.cfg, regions)
    ensures Shows(s, NamesAsked(s, regions), d.working, d.cfg.unknownOffsets, FoldItems(s, map[], ItemsAnswered(s, d, regions)))
  {
    var read := FoldItems(s, map[], ItemsAnswered(s, d, regions));
    forall n | n in NamesAsked(s, regions) ensures n in read && read[n] == Reading(s.Get(n), d.working) {
      ShowsName(s, d, regions, n);
    }
    forall o | o in d.cfg.unknownOffsets ensures IsExtra(read, o, d.cfg.unknownOffsets[o]) {
      ShowsExtra(s, d, regions, o);
    }
    forall k | k in read ensures k in NamesAsked(s, regions) || exists o :: o in d.cfg.unknownOffsets && k == Ascii("offset_") + Dec(o) {
      ShowsNothingElse(s, d, regions, k);
    }
  }

  // ---- One read ------------------------------------------------------------------------

  /** What a device that is awake reports from: its NVRAM once a reboot window has ended. */
  function Memory(d: DeviceState): map<text, text> {
    if d.rebootDeadline.Some? then d.nvram else d.working
  }

  /** What a read makes of the reply it took. */
  lemma ReadTakes(s: Schema, clock: nat -> nat, w: World, c: Session, regions: seq<Region>)
    requires c.m != ZERO_MAC
    ensures var sent := SendTimes(s, clock, w, GetDataBytes(c.m, NextSequence(c.counter), regions), c.retries + 1);
            var r := Receipt(sent, c.m, c.ip).1;
            GetConfig(s, clock, w, c, regions).2 == if IsReadReply(s, r) then GetDataResponse(s, r.value.1) else None
  {
  }

  /** A read of some parameters in lock step succeeds exactly when the target is awake and answers
      reads, and then shows what was asked for. */
  lemma ReadShows(s: Schema, clock: nat -> nat, w: World, c: Session, regions: seq<Region>)
    requires s.Valid() && Hosts(w, c) && Quiet(w, c) && Asks(s, Target(w, c).cfg, regions)
    ensures var d, r := Target(w, c), GetConfig(s, clock, w, c, regions).2;
            && (r.Some? <==> Awake(d, clock(w.net.ticks)) && AnswersReads(d.cfg))
            && (r.Some? ==> Shows(s, NamesAsked(s, regions), Memory(d), d.cfg.unknownOffsets, r.value))
  {
    GetExchange(s, clock, w, c, NextSequence(c.counter), regions);
    ReadTakes(s, clock, w, c, regions);
    AwakeShows(s, Target(w, c), clock(w.net.ticks), regions);
  }

  lemma AwakeShows(s: Schema, d: DeviceState, now: nat, regions: seq<Region>)
    requires s.Valid() && Asks(s, d.cfg, regions)
    ensures Awake(d, now) ==> Shows(s, NamesAsked(s, regions), Memory(d), d.cfg.unknownOffsets,
                                    FoldItems(s, map[], ItemsAnswered(s, AfterRebootCheck(d, now), regions)))
  {
    ReplyShows(s, AfterRebootCheck(d, now), regions);
  }

  /** The read of these names, whatever the order of its packet: every known one is returned under its
      canonical name, nothing else but extra entries of the device. */
  lemma NamedReadShows(s: Schema, clock: nat -> nat, w: World, c: Session, names: seq<text>, regions: seq<Region>)
    requires s.Valid() && Hosts(w, c) && Quiet(w, c) && Packets.SortedRegions(s, names, regions)
    requires forall o :: o in Target(w, c).cfg.unknownOffsets ==> s.ByOffset(o).None?
    requires |names| + |Target(w, c).cfg.unknownOffsets| < 0x1_0000
    ensures var d, r := Target(w, c), GetConfig(s, clock, w, c, regions).2;
            var known := set k | k in names && s.ByName(k).Some? :: s.ByName(k).value.name;
            && known <= s.Names()
            && (r.Some? <==> Awake(d, clock(w.net.ticks)) && AnswersReads(d.cfg))
            && (r.Some? ==> Shows(s, known, Memory(d), d.cfg.unknownOffsets, r.value))
  {
    RegionsAreAsked(s, names, regions);
    ReadShows(s, clock, w, c, regions);
  }

  lemma RegionsAreAsked(s: Schema, names: seq<text>, regions: seq<Region>)
    requires s.Valid() && Packets.SortedRegions(s, names, regions)
    ensures |regions| <= |names|
    ensures forall r <- regions :: exists p :: p in s.params && r == Region(p.offset, p.length)
    ensures NamesAsked(s, regions) == set k | k in names && s.ByName(k).Some? :: s.ByName(k).value.name
  {
    var listed := Packets.RegionsNamed(s, names);
    assert |regions| == |multiset(regions)| == |listed|;
    NamedCount(s, names);
    forall r ensures r in regions <==> r in listed {
      assert r in multiset(regions) <==> r in multiset(listed);
    }
    forall r <- regions ensures exists p :: p in s.params && r == Region(p.offset, p.length) {
      NamedRegion(s, names, r);
    }
    forall n | n in s.Names()
      ensures Region(s.Get(n).offset, s.Get(n).length) in listed <==>
              exists k :: k in names && s.ByName(k).Some? && s.ByName(k).value.name == n
    {
      NameIsAsked(s, names, n);
    }
    forall k | k in names && s.ByName(k).Some? ensures s.ByName(k).value.name in s.Names() {
      s.LookupsAgree(s.ByName(k).value);
    }
  }

  lemma {:induction false} NamedCount(s: Schema, names: seq<text>)
    ensures |Packets.RegionsNamed(s, names)| <= |names|
    decreases |names|
  {
    if names != [] {
      NamedCount(s, names[1..]);
    }
  }

  /** The regions of a list of names are those of its known ones. */
  lemma {:induction false} NamedRegion(s: Schema, names: seq<text>, r: Region)
    ensures r in Packets.RegionsNamed(s, names) <==>
            exists k :: k in names && s.ByName(k).Some? && r == Region(s.ByName(k).value.offset, s.ByName(k).value.length)
    decreases |names|
  {
    if names != [] {
      NamedRegion(s, names[1..], r);
      assert names == [names[0]] + names[1..];
    }
  }

  lemma NameIsAsked(s: Schema, names: seq<text>, n: text)
    requires s.Valid() && n in s.Names()
    ensures Region(s.Get(n).offset, s.Get(n).length) in Packets.RegionsNamed(s, names) <==>
            exists k :: k in names && s.ByName(k).Some? && s.ByName(k).value.name == n
  {
    var p := s.Get(n);
    NamedRegion(s, names, Region(p.offset, p.length));
    s.LookupsAgree(p);
    forall k | k in names && s.ByName(k).Some?
      ensures s.ByName(k).value.name == n <==> Region(p.offset, p.length) == Region(s.ByName(k).value.offset, s.ByName(k).value.length)
    {
      if s.ByName(k).value.offset == p.offset {
        s.SameOffset(s.ByName(k).value, p);
      }
      if s.ByName(k).value.name == n {
        s.SameName(s.ByName(k).value, p);
      }
    }
  }

  // ---- The cache after a full read ---------------------------------------------------------

  /** The cache after a full read, key by key: parameters hold what the device reports; a synthetic
      key is there exactly when the device still reports its offset; any other key stays as it was. */
  ghost predicate CachedAt(s: Schema, before: map<text, text>, memory: map<text, text>, extra: map<uint16, chunk>,
                           after: map<text, text>, k: text) {
    if k in s.Names() then k in after && after[k] == Reading(s.Get(k), memory)
    else if HasPrefix(k, Ascii("offset_")) then
      && (k in after <==> exists o :: o in extra && k == Ascii("offset_") + Dec(o))
      && (forall o :: o in extra && k == Ascii("offset_") + Dec(o) ==> IsExtra(after, o, extra[o]))
    else (k in after <==> k in before) && (k in before ==> k in after && after[k] == before[k])
  }

  lemma RefreshedAt(s: Schema, before: map<text, text>, read: map<text, text>, memory: map<text, text>, extra: map<uint16, chunk>, k: text)
    requires s.Valid() && Shows(s, s.Names(), memory, extra, read)
    ensures CachedAt(s, before, memory, extra, Refresh(before, read), k)
  {
    if k in s.Names() {
      s.Listed(s.Get(k));
    }
    forall o | o in extra ensures HasPrefix(Ascii("offset_") + Dec(o), Ascii("offset_")) && IsExtra(Refresh(before, read), o, extra[o]) {
      assert IsExtra(read, o, extra[o]);
    }
  }

  lemma AllAreAsked(s: Schema)
    requires s.Valid()
    ensures NamesAsked(s, AllRegions(s)) == s.Names()
    ensures forall r <- AllRegions(s) :: exists p :: p in s.params && r == Region(p.offset, p.length)
  {
    forall n | n in s.Names() ensures Region(s.Get(n).offset, s.Get(n).length) in AllRegions(s) {
      var i := s.RowOf(n);
      assert AllRegions(s)[i] == Region(s.Get(n).offset, s.Get(n).length);
    }
    forall r <- AllRegions(s) ensures exists p :: p in s.params && r == Region(p.offset, p.length) {
      var i :| 0 <= i < |AllRegions(s)| && AllRegions(s)[i] == r;
      assert s.params[i] in s.params;
    }
  }

  /** A full read is the read of all regions, taken over into the cache. */
  lemma FullReadIs(s: Schema, clock: nat -> nat, w: World, c: Session)
    ensures var r, o := GetConfig(s, clock, w, c, AllRegions(s)).2, GetAll(s, clock, w, c);
            && (o.ok <==> r.Some?)
            && o.session.cache == if r.Some? then Refresh(c.cache, r.value) else c.cache
  {
  }

  /** Whatever was cached before: a full read that succeeds drops what the device no longer reports,
      and keeps what it knows nothing of. */
  lemma FullReadCaches(s: Schema, clock: nat -> nat, w: World, c: Session, k: text)
    requires s.Valid() && Hosts(w, c) && Quiet(w, c) && ReplyFits(s, Target(w, c).cfg)
    ensures var d, o := Target(w, c), GetAll(s, clock, w, c);
            && (o.ok <==> Awake(d, clock(w.net.ticks)) && AnswersReads(d.cfg))
            && (o.ok ==> CachedAt(s, c.cache, Memory(d), d.cfg.unknownOffsets, o.session.cache, k))
            && (!o.ok ==> o.session.cache == c.cache)
  {
    AllAreAsked(s);
    ReadShows(s, clock, w, c, AllRegions(s));
    FullReadIs(s, clock, w, c);
    AllShownAreCached(s, c.cache, GetConfig(s, clock, w, c, AllRegions(s)).2, Target(w, c), k);
  }

  lemma AllShownAreCached(s: Schema, before: map<text, text>, r: Option<map<text, text>>, d: DeviceState, k: text)
    requires s.Valid() && (r.Some? ==> Shows(s, s.Names(), Memory(d), d.cfg.unknownOffsets, r.value))
    ensures r.Some? ==> CachedAt(s, before, Memory(d), d.cfg.unknownOffsets, Refresh(before, r.value), k)
  {
    if r.Some? {
      RefreshedAt(s, before, r.value, Memory(d), d.cfg.unknownOffsets, k);
    }
  }
}
