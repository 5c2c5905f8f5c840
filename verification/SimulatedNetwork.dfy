/** The simulator's `Network` object (mocksbr/network.go, mocksbr/handlers.go), proved to follow
    the state functions of SimNetwork. */
module SimulatedNetwork {
  import opened Bytes
  import opened Parameters
  import opened Wire
  import opened SimDevice
  import opened SimNetwork
  import opened SimulatedDevice
  import MacText

  class Network {
    var devices: map<text, Device>
    var order: seq<text>
    var ticks: nat  // packets seen, each of which reads the clock once

    /** Every device object is filed under one address only. */
    ghost predicate Separate()
      reads this
    {
      forall j, k :: j in devices && k in devices && j != k ==> devices[j] != devices[k]
    }

    ghost function View(): NetState
      reads this, devices.Values
    {
      NetState(map k | k in devices :: devices[k].View(), order, ticks)
    }

    ghost predicate Valid()
      reads this, devices.Values
    {
      Separate() && SimNetwork.Valid(View())
    }

    /** Files a device, of which n and v are the views, and appends its address to the order. */
    method File(mac: text, d: Device, ghost n: NetState, ghost v: DeviceState)
      requires Separate() && d !in devices.Values && View() == n && d.View() == v
      modifies this
      ensures Separate() && devices.Values <= old(devices.Values) + {d}
      ensures View() == n.(devices := n.devices[mac := v], order := n.order + [mac])
    {
      devices := devices[mac := d];
      order := order + [mac];
    }

    /** NewNetwork */
    constructor (s: Schema, n: nat)
      requires s.Valid() && n < 256
      ensures Valid() && View() == SimNetwork.NewNetwork(s, n)
      ensures fresh(devices.Values)
    {
      devices, order, ticks := map[], [], 0;
      new;
      for i := 0 to n
        invariant Separate() && fresh(devices.Values)
        invariant View() == SimNetwork.NewNetwork(s, i)
      {
        AddAuto(s, i + 1);
      }
      NewNetworkIsValid(s, n);
    }

    /** One turn of its loop. */
    method AddAuto(s: Schema, i: nat)
      requires s.Valid() && 0 < i < 256 && Separate() && View() == SimNetwork.NewNetwork(s, i - 1)
      modifies this
      ensures Separate() && fresh(devices.Values - old(devices.Values)) && View() == SimNetwork.NewNetwork(s, i)
    {
      AutoIsLower(i);
      var cfg := AutoConfig(i);
      var mac := MacText.ToLower(cfg.mac);
      FileNew(s, cfg, mac);
    }

    /** Add: the address under which the device was filed. */
    method Add(s: Schema, cfg: Config) returns (mac: Option<text>)
      requires s.Valid() && Valid()
      modifies this
      ensures Valid() && fresh(devices.Values - old(devices.Values))
      ensures match SimNetwork.Add(s, old(View()), cfg)
              case None => mac == None && View() == old(View())
              case Some(n) => mac == Some(MacText.ToLower(cfg.mac)) && View() == n
    {
      if !MacText.ColonForm(cfg.mac) {
        return None;
      }
      var key := MacText.ToLower(cfg.mac);
      if key in devices {
        return None;
      }
      AddDevice(s, cfg, key);
      return Some(key);
    }

    method AddDevice(s: Schema, cfg: Config, key: text)
      requires s.Valid() && Valid()
      requires MacText.ColonForm(cfg.mac) && key == MacText.ToLower(cfg.mac) && key !in devices
      modifies this
      ensures Valid() && fresh(devices.Values - old(devices.Values))
      ensures SimNetwork.Add(s, old(View()), cfg) == Some(View())
    {
      ghost var n := AddSucceeds(s, View(), cfg, key);
      FileNew(s, cfg.(mac := key), key);
      assert View() == n;
    }

    method FileNew(s: Schema, cfg: Config, key: text)
      requires s.Valid() && Separate()
      modifies this
      ensures Separate() && fresh(devices.Values - old(devices.Values))
      ensures View() == old(View()).(devices := old(View()).devices[key := NewDevice(s, cfg)], order := old(View()).order + [key])
    {
      ghost var n := View();
      var d := new Device(s, cfg);
      File(key, d, n, NewDevice(s, cfg));
    }

    /** RemoveAuto */
    method RemoveAuto(idx: int) returns (mac: text)
      requires Valid()
      modifies this
      ensures Valid() && devices.Values <= old(devices.Values)
      ensures (View(), mac) == SimNetwork.RemoveAuto(old(View()), idx)
    {
      if idx < 1 || idx > |order| {
        return [];
      }
      RemoveKeepsValid(View(), idx);
      mac := order[idx - 1];
      Unfile(mac, order[..idx - 1] + order[idx..]);
    }

    method Unfile(mac: text, rest: seq<text>)
      requires Separate()
      modifies this
      ensures Separate() && devices.Values <= old(devices.Values) && ticks == old(ticks)
      ensures View().devices == map k | k in old(View()).devices && k != mac :: old(View()).devices[k]
      ensures View() == old(View()).(devices := View().devices, order := rest)
    {
      devices := map k | k in devices && k != mac :: devices[k];
      order := rest;
    }

    /** When one device object changes, so does its entry in the view, and nothing else. */
    twostate lemma OneChanged(mac: text)
      requires old(Separate()) && unchanged(this) && mac in devices
      requires forall k :: k in devices && k != mac ==> unchanged(devices[k])
      ensures View() == old(View()).(devices := old(View()).devices[mac := devices[mac].View()])
    {
    }

    /** dispatchUnicast for the handler of op, at the time read for this packet */
    method DispatchUnicast(s: Schema, now: nat, op: Op, req: Packet, payload: seq<byte>) returns (replies: seq<ScheduledReply>)
      requires Valid()
      modifies devices.Values
      ensures Valid()
      ensures (View(), replies) == Dispatch(s, old(View()), now, op, req, payload)
    {
      DispatchKeeps(s, View(), now, op, req, payload);
      var mac := MacText.MacString(req.dstAddress);
      if mac !in devices {
        return [];
      }
      var d := devices[mac];
      var reply := ServeUnicast(s, d, now, op, req, payload);
      OneChanged(mac);
      match reply {
        case None => return [];
        case Some(b) => return [ScheduledReply(b, d.cfg.slow)];
      }
    }

    /** Its checks on the addressed device. */
    method ServeUnicast(s: Schema, d: Device, now: nat, op: Op, req: Packet, payload: seq<byte>) returns (reply: Option<seq<byte>>)
      modifies d
      ensures (d.View(), reply) == Serve(s, old(d.View()), now, op, req, payload)
    {
      if d.cfg.unreachable {
        return None;
      }
      var rebooting := d.Rebooting(now);
      if rebooting {
        return None;
      }
      if FailsOn(d.cfg, op) {
        return Some(ErrorReply(d.View(), req, op));
      }
      reply := d.Respond(s, now, op, req, payload);
    }

    /** handleDiscovery, at the time read for this packet */
    method HandleDiscovery(now: nat, req: Packet) returns (replies: seq<ScheduledReply>)
      requires Valid()
      modifies devices.Values
      ensures Valid()
      ensures View() == Discover(old(View()), |order|, now, req)
      ensures replies == DiscoverReplies(old(View()), |order|, now, req)
    {
      ghost var start := View();
      var macs := order;
      replies := [];
      for i := 0 to |macs|
        invariant Valid() && order == macs == start.order && devices.Values == old(devices.Values)
        invariant (View(), replies) == (Discover(start, i, now, req), DiscoverReplies(start, i, now, req))
      {
        replies := VisitNext(macs[i], now, req, start, i, replies);
      }
    }

    /** One turn of its loop, after i others. */
    method VisitNext(mac: text, now: nat, req: Packet, ghost start: NetState, ghost i: nat, replies: seq<ScheduledReply>)
      returns (more: seq<ScheduledReply>)
      requires Valid() && i < |start.order| && mac == start.order[i] && start.order == order
      requires (View(), replies) == (Discover(start, i, now, req), DiscoverReplies(start, i, now, req))
      modifies devices.Values
      ensures Valid()
      ensures (View(), more) == (Discover(start, i + 1, now, req), DiscoverReplies(start, i + 1, now, req))
    {
      var r := VisitDevice(mac, now, req);
      more := replies + r;
    }

    method VisitDevice(mac: text, now: nat, req: Packet) returns (replies: seq<ScheduledReply>)
      requires Valid() && mac in order
      modifies devices.Values
      ensures Valid()
      ensures View() == Visit(old(View()), mac, now, req)
      ensures replies == VisitReplies(old(View()), mac, now, req)
    {
      VisitKeeps(View(), mac, now, req);
      assert mac in View().order;
      var d := devices[mac];
      var r := AnswerDiscovery(d, now, req);
      OneChanged(mac);
      replies := match r case None => [] case Some(b) => [ScheduledReply(b, d.cfg.slow)];
    }

    method AnswerDiscovery(d: Device, now: nat, req: Packet) returns (reply: Option<seq<byte>>)
      modifies d
      ensures (d.View(), reply) == ServeDiscovery(old(d.View()), now, req)
    {
      if d.cfg.unreachable {
        return None;
      }
      if FailsOn(d.cfg, OpDiscover) {
        return None;
      }
      var rebooting := d.Rebooting(now);
      if rebooting {
        return None;
      }
      return Some(DiscoveryReply(d.View(), req));
    }

    method ReadClock(clock: nat -> nat) returns (now: nat)
      requires Valid()
      modifies this`ticks
      ensures Valid() && now == clock(old(ticks)) && View() == old(View()).(ticks := old(ticks) + 1)
    {
      now := clock(ticks);
      ticks := ticks + 1;
      assert View().devices == old(View()).devices;
    }

    /** ReceiveScheduled */
    method ReceiveScheduled(s: Schema, clock: nat -> nat, bytes: seq<byte>) returns (replies: seq<ScheduledReply>)
      requires Valid()
      modifies this`ticks, devices.Values
      ensures Valid()
      ensures (View(), replies) == Receive(s, clock, old(View()), bytes)
    {
      var now := ReadClock(clock);
      match ParsePacket(bytes) {
        case None =>
          return [];
        case Some((req, payload)) =>
          if req.ucpMethod == DISCOVER || req.ucpMethod == ADV_DISC {
            replies := HandleDiscovery(now, req);
            return;
          }
          match req.ucpMethod {
            case 0x0005 => replies := DispatchUnicast(s, now, OpGet, req, payload);
            case 0x0006 => replies := DispatchUnicast(s, now, OpSet, req, payload);
            case 0x0004 => replies := DispatchUnicast(s, now, OpReset, req, payload);
            case 0x0002 => replies := DispatchUnicast(s, now, OpGetIP, req, payload);
            case 0x000b => replies := DispatchUnicast(s, now, OpGetUUID, req, payload);
            case _ => replies := [];
          }
      }
    }
  }

  lemma AutoIsLower(i: nat)
    requires i < 256
    ensures MacText.ToLower(AutoMac(i)) == AutoMac(i)
  {
  }
}
