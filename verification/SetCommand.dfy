/** The `set` command (cli/set.go): the order in which it validates, merges, reads, chooses the
    interface, writes and resets. */
module SetCommand {
  import opened Bytes
  import opened Parameters
  import opened Validation
  import opened ClientProtocol
  import opened Backup
  import opened UdapClient

  /** The flags given on the command line, unless one of them is invalid. */
  method CollectFlags(s: Schema, given: map<text, text>) returns (r: Option<map<text, text>>)
    ensures r == if forall k :: k in given ==> Accepts(s, k, given[k]) then Some(given) else None
  {
    var values: map<text, text> := map[];
    var left := given.Keys;
    while left != {}
      invariant left <= given.Keys
      invariant values == map k | k in given && k !in left :: given[k]
      invariant forall k :: k in values ==> Accepts(s, k, given[k])
      decreases left
    {
      var k :| k in left;
      if !Accepts(s, k, given[k]) {
        return None;
      }
      values, left := values[k := given[k]], left - {k};
    }
    assert values == given;
    return Some(values);
  }

  /** The parameters to write, if the inputs are valid and name any. */
  ghost predicate Inputs(s: Schema, src: Sources, params: Option<map<text, text>>) {
    && (params.Some? <==>
          && (forall k :: k in src.flags ==> Accepts(s, k, src.flags[k]))
          && FromText(s, src).Some? && (FromText(s, src).value != map[] || src.flags != map[]))
    && (params.Some? ==> params.value == FromText(s, src).value + src.flags)
  }

  method ReadInputs(s: Schema, src: Sources) returns (params: Option<map<text, text>>)
    ensures Inputs(s, src, params)
  {
    var flags := CollectFlags(s, src.flags);
    if flags.None? {
      return None;
    }
    params := MergeSources(s, src);
  }

  /** How the write can end, with the reset that follows it on request. */
  ghost predicate WriteRan(s: Schema, clock: nat -> nat, w: World, c: Session, config: map<text, text>, reboot: bool,
                           keys: seq<text>, w': World, c': Session, written: Option<map<text, text>>) {
    var p := Prelude(s, clock, w, c);
    && (p.ok ==> Listing(s, p.session.cache + config, keys))
    && var o := Set(s, clock, w, c, config, keys);
       if !o.ok || !reboot then (w', c', written) == (o.world, o.session, if o.ok then Some(config) else None)
       else
         var r := Reset(s, clock, o.world, o.session);
         (w', c', written) == (r.world, r.session, if r.ok then Some(config) else None)
  }

  /** How the part of runSet after the read can end: the write takes the values chosen from what the
      read reported. */
  ghost predicate AfterRead(s: Schema, clock: nat -> nat, g: Outcome, params: map<text, text>, reboot: bool,
                            keys: seq<text>, w': World, c': Session, written: Option<map<text, text>>) {
    if !g.ok then (w', c', written) == (g.world, g.session, None)
    else WriteRan(s, clock, g.world, g.session, WithInterface(s, params, g.session.cache), reboot, keys, w', c', written)
  }

  /** How the part after the merge can end: each stage runs only if the one before succeeded. */
  ghost predicate SetRan(s: Schema, clock: nat -> nat, w: World, c: Session, params: map<text, text>, reboot: bool,
                         keys: seq<text>, w': World, c': Session, written: Option<map<text, text>>) {
    AfterRead(s, clock, GetAll(s, clock, w, c), params, reboot, keys, w', c', written)
  }

  /** Inputs that name no valid parameters end the command before it sends anything. */
  ghost predicate CommandRan(s: Schema, clock: nat -> nat, w: World, c: Session, params: Option<map<text, text>>, reboot: bool,
                             keys: seq<text>, w': World, c': Session, written: Option<map<text, text>>) {
    match params
    case None => (w', c', written) == (w, c, None)
    case Some(m) => SetRan(s, clock, w, c, m, reboot, keys, w', c', written)
  }

  /** runSet for a device that discovery has found; the result lists what was written. w and c are
      the state in which it is called. */
  method RunSet(s: Schema, clock: nat -> nat, client: Client, d: Device, src: Sources, reboot: bool,
                ghost w: World, ghost c: Session)
    returns (result: Option<seq<ParamValue>>, ghost params: Option<map<text, text>>,
             ghost written: Option<map<text, text>>, ghost keys: seq<text>)
    requires s.Valid() && client.Valid() && client.World() == w && client.SessionOf(d) == c
    modifies client`sequence, d`parameters
    modifies client.transport`pending, client.transport`delayed, client.transport.net`ticks, client.transport.net.devices.Values
    ensures client.Valid() && Inputs(s, src, params)
    ensures CommandRan(s, clock, w, c, params, reboot, keys,
                       client.World(), client.SessionOf(d), written)
    ensures result.Some? <==> written.Some?
    ensures result.Some? ==> SortedList(written.value, result.value)
  {
    var merged := ReadInputs(s, src);
    params := merged;
    result, written, keys := WriteAndList(s, clock, client, d, merged, reboot, w, c);
  }

  method WriteAndList(s: Schema, clock: nat -> nat, client: Client, d: Device, params: Option<map<text, text>>, reboot: bool,
                      ghost w: World, ghost c: Session)
    returns (result: Option<seq<ParamValue>>, ghost written: Option<map<text, text>>, ghost keys: seq<text>)
    requires s.Valid() && client.Valid() && client.World() == w && client.SessionOf(d) == c
    modifies client`sequence, d`parameters
    modifies client.transport`pending, client.transport`delayed, client.transport.net`ticks, client.transport.net.devices.Values
    ensures client.Valid()
    ensures CommandRan(s, clock, w, c, params, reboot, keys, client.World(), client.SessionOf(d), written)
    ensures result.Some? <==> written.Some?
    ensures result.Some? ==> SortedList(written.value, result.value)
  {
    var done;
    done, keys := WriteIfAny(s, clock, client, d, params, reboot, w, c);
    written := done;
    result := Listed(done);
  }

  /** What the command prints. */
  method Listed(written: Option<map<text, text>>) returns (result: Option<seq<ParamValue>>)
    ensures result.Some? <==> written.Some?
    ensures result.Some? ==> SortedList(written.value, result.value)
  {
    if written.None? {
      return None;
    }
    var list := SortedParams(written.value);
    return Some(list);
  }

  method WriteIfAny(s: Schema, clock: nat -> nat, client: Client, d: Device, params: Option<map<text, text>>, reboot: bool,
                     ghost w: World, ghost c: Session)
    returns (written: Option<map<text, text>>, ghost keys: seq<text>)
    requires s.Valid() && client.Valid() && client.World() == w && client.SessionOf(d) == c
    modifies client`sequence, d`parameters
    modifies client.transport`pending, client.transport`delayed, client.transport.net`ticks, client.transport.net.devices.Values
    ensures client.Valid()
    ensures CommandRan(s, clock, w, c, params, reboot, keys,
                       client.World(), client.SessionOf(d), written)
  {
    if params.None? {
      return None, [];
    }
    written, keys := WriteMerged(s, clock, client, d, params.value, reboot, w, c);
  }

  /** The part of runSet that talks to the device. */
  method WriteMerged(s: Schema, clock: nat -> nat, client: Client, d: Device, merged: map<text, text>, reboot: bool,
                     ghost w: World, ghost c: Session)
    returns (written: Option<map<text, text>>, ghost keys: seq<text>)
    requires s.Valid() && client.Valid() && client.World() == w && client.SessionOf(d) == c
    modifies client`sequence, d`parameters
    modifies client.transport`pending, client.transport`delayed, client.transport.net`ticks, client.transport.net.devices.Values
    ensures client.Valid()
    ensures SetRan(s, clock, w, c, merged, reboot, keys,
                   client.World(), client.SessionOf(d), written)
  {
    var loaded;
    ghost var g;
    loaded, g := ReadAll(s, clock, client, d, w, c);
    written, keys := WriteIfRead(s, clock, client, d, merged, reboot, loaded, g);
  }

  method WriteIfRead(s: Schema, clock: nat -> nat, client: Client, d: Device, merged: map<text, text>, reboot: bool,
                     loaded: bool, ghost g: Outcome)
    returns (written: Option<map<text, text>>, ghost keys: seq<text>)
    requires s.Valid() && client.Valid() && g == Outcome(client.World(), client.SessionOf(d), loaded)
    modifies client`sequence, d`parameters
    modifies client.transport`pending, client.transport`delayed, client.transport.net`ticks, client.transport.net.devices.Values
    ensures client.Valid()
    ensures AfterRead(s, clock, g, merged, reboot, keys, client.World(), client.SessionOf(d), written)
  {
    keys := [];
    if !loaded {
      return None, keys;
    }
    var config := ApplyInterfaceDefault(s, merged, d.parameters);
    written, keys := WriteChosen(s, clock, client, d, config, reboot, g.world, g.session);
  }

  /** Its read; g is the outcome. */
  method ReadAll(s: Schema, clock: nat -> nat, client: Client, d: Device, ghost w: World, ghost c: Session)
    returns (ok: bool, ghost g: Outcome)
    requires s.Valid() && client.Valid() && client.World() == w && client.SessionOf(d) == c
    modifies client`sequence, d`parameters
    modifies client.transport`pending, client.transport`delayed, client.transport.net`ticks, client.transport.net.devices.Values
    ensures client.Valid() && g == GetAll(s, clock, w, c)
    ensures g == Outcome(client.World(), client.SessionOf(d), ok)
  {
    g := GetAll(s, clock, w, c);
    ok := client.GetAllDeviceConfig(s, clock, d);
  }

  /** Its write and, if asked for, its reset. */
  method WriteChosen(s: Schema, clock: nat -> nat, client: Client, d: Device, config: map<text, text>, reboot: bool,
                     ghost w: World, ghost c: Session)
    returns (written: Option<map<text, text>>, ghost keys: seq<text>)
    requires s.Valid() && client.Valid() && client.World() == w && client.SessionOf(d) == c
    modifies client`sequence, d`parameters
    modifies client.transport`pending, client.transport`delayed, client.transport.net`ticks, client.transport.net.devices.Values
    ensures client.Valid()
    ensures WriteRan(s, clock, w, c, config, reboot, keys,
                     client.World(), client.SessionOf(d), written)
  {
    var ok;
    ok, keys := client.SetDeviceConfig(s, clock, d, config);
    if !ok {
      return None, keys;
    }
    if reboot {
      var done := client.ResetDevice(s, clock, d);
      if !done {
        return None, keys;
      }
    }
    written := Some(config);
  }
}
