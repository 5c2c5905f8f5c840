/** The --device flags of the simulator command as it runs them (cmd/mocksbr/flags.go,
    cmd/mocksbr/main.go), proved to follow the functions of Overrides. */
module OverrideFlags {
  import opened Bytes
  import opened Parameters
  import opened SimDevice
  import opened SimulatedNetwork
  import opened Overrides
  import SimNetwork

  /** The duplicate check of parseDeviceFlags, given what each flag parses to. */
  method CollectOverrides(parsed: seq<Option<Override>>) returns (r: Option<seq<Override>>)
    ensures r.Some? <==> (forall i :: 0 <= i < |parsed| ==> parsed[i].Some?) &&
                         (forall i, j :: 0 <= i < j < |parsed| && parsed[i].Some? && parsed[j].Some? ==>
                            parsed[i].value.idx != parsed[j].value.idx)
    ensures r.Some? ==> |r.value| == |parsed| && forall i :: 0 <= i < |parsed| ==> parsed[i] == Some(r.value[i])
  {
    var seenIdx: set<nat> := {};
    var out: seq<Override> := [];
    for i := 0 to |parsed|
      invariant |out| == i && forall j :: 0 <= j < i ==> parsed[j] == Some(out[j])
      invariant forall x :: x in seenIdx <==> exists j :: 0 <= j < i && out[j].idx == x
      invariant forall j, k :: 0 <= j < k < i ==> out[j].idx != out[k].idx
    {
      if parsed[i].None? {
        return None;
      }
      var ov := parsed[i].value;
      if ov.idx in seenIdx {
        return None;
      }
      seenIdx, out := seenIdx + {ov.idx}, out + [ov];
      assert out[i].idx == ov.idx;
    }
    return Some(out);
  }

  /** replaceAutoDevice; when the replacement is refused the old device is gone all the same. */
  method ReplaceAutoDevice(s: Schema, net: Network, idx: nat, cfg: Config) returns (ok: bool)
    requires s.Valid() && net.Valid()
    modifies net
    ensures net.Valid() && fresh(net.devices.Values - old(net.devices.Values))
    ensures match Replace(s, old(net.View()), Override(idx, cfg))
            case None => !ok && net.View() == SimNetwork.RemoveAuto(old(net.View()), idx).0
            case Some(n) => ok && net.View() == n
  {
    ghost var r;
    ok, r := ReplaceIn(s, net, Override(idx, cfg), net.View());
  }

  /** The same in the state n; r is the outcome. */
  method ReplaceIn(s: Schema, net: Network, ov: Override, ghost n: SimNetwork.NetState)
    returns (ok: bool, ghost r: Option<SimNetwork.NetState>)
    requires s.Valid() && net.Valid() && net.View() == n
    modifies net
    ensures net.Valid() && fresh(net.devices.Values - old(net.devices.Values))
    ensures r == Replace(s, n, ov) && ok == r.Some?
    ensures net.View() == match r case None => SimNetwork.RemoveAuto(n, ov.idx).0 case Some(m) => m
  {
    var mac;
    ghost var rest;
    mac, rest := TakeOut(net, ov.idx, n);
    ReplaceIs(s, n, ov, rest, mac);
    if mac == [] {
      return false, None;
    }
    var filled := FillIn(ov, mac);
    ok, r := AddFilled(s, net, filled, rest);
  }

  method TakeOut(net: Network, idx: nat, ghost n: SimNetwork.NetState) returns (mac: text, ghost rest: SimNetwork.NetState)
    requires net.Valid() && net.View() == n
    modifies net
    ensures net.Valid() && net.devices.Values <= old(net.devices.Values)
    ensures net.View() == rest && (rest, mac) == SimNetwork.RemoveAuto(n, idx)
  {
    mac := net.RemoveAuto(idx);
    rest := net.View();
  }

  lemma ReplaceIs(s: Schema, n: SimNetwork.NetState, ov: Override, rest: SimNetwork.NetState, mac: text)
    requires (rest, mac) == SimNetwork.RemoveAuto(n, ov.idx)
    ensures Replace(s, n, ov) == if mac == [] then None else SimNetwork.Add(s, rest, Filled(ov, mac))
  {
  }

  /** What the flag leaves open is taken from the device it replaces. */
  method FillIn(ov: Override, mac: text) returns (filled: Config)
    ensures filled == Filled(ov, mac)
  {
    filled := ov.cfg;
    if filled.mac == [] {
      filled := filled.(mac := mac);
    }
    if filled.uuid == [] {
      filled := filled.(uuid := SimNetwork.AutoUuid(ov.idx));
    }
  }

  method AddFilled(s: Schema, net: Network, cfg: Config, ghost n: SimNetwork.NetState)
    returns (ok: bool, ghost m: Option<SimNetwork.NetState>)
    requires s.Valid() && net.Valid() && net.View() == n
    modifies net
    ensures net.Valid() && fresh(net.devices.Values - old(net.devices.Values))
    ensures m == SimNetwork.Add(s, n, cfg) && ok == m.Some?
    ensures net.View() == match m case None => n case Some(added) => added
  {
    m := SimNetwork.Add(s, n, cfg);
    var added := net.Add(s, cfg);
    ok := added.Some?;
  }

  /** The loop over the overrides: the first that fails ends it. */
  method ReplaceAutoDevices(s: Schema, net: Network, ovs: seq<Override>) returns (ok: bool)
    requires s.Valid() && net.Valid()
    modifies net
    ensures net.Valid()
    ensures ok <==> ReplaceAll(s, old(net.View()), ovs).Some?
    ensures ok ==> net.View() == ReplaceAll(s, old(net.View()), ovs).value
  {
    for i := 0 to |ovs|
      invariant net.Valid()
      invariant ReplaceAll(s, net.View(), ovs[i..]) == ReplaceAll(s, old(net.View()), ovs)
    {
      assert ovs[i..][0] == ovs[i] && ovs[i..][1..] == ovs[i + 1..];
      var replaced := ReplaceAutoDevice(s, net, ovs[i].idx, ovs[i].cfg);
      if !replaced {
        return false;
      }
    }
    assert ovs[|ovs|..] == [];
    return true;
  }
}
