/** Device overrides of the simulator command (cmd/mocksbr/flags.go): each --device flag replaces one
    automatic device. Replacing appends, so the positions of later devices shift. */
module Overrides {
  import opened Bytes
  import opened Parameters
  import opened SimDevice
  import opened SimNetwork
  import MacText

  datatype Override = Override(idx: nat, cfg: Config)

  /** The configuration of a replacement, given the address of the device it replaces. */
  function Filled(ov: Override, mac: text): Config {
    ov.cfg.(mac := if ov.cfg.mac == [] then mac else ov.cfg.mac,
            uuid := if ov.cfg.uuid == [] then AutoUuid(ov.idx) else ov.cfg.uuid)
  }

  /** replaceAutoDevice */
  function Replace(s: Schema, n: NetState, ov: Override): Option<NetState> {
    var (rest, mac) := RemoveAuto(n, ov.idx);
    if mac == [] then None else Add(s, rest, Filled(ov, mac))
  }

  /** The loop over the overrides, in flag order. */
  function ReplaceAll(s: Schema, n: NetState, ovs: seq<Override>): Option<NetState>
    decreases |ovs|
  {
    if ovs == [] then Some(n)
    else match Replace(s, n, ovs[0]) case None => None case Some(m) => ReplaceAll(s, m, ovs[1..])
  }

  /** Every override takes out the automatic device it names. */
  ghost predicate ReplacesNamed(s: Schema, n: NetState, ovs: seq<Override>)
    decreases |ovs|
  {
    ovs == [] || (
      && ovs[0].idx < 256 && RemoveAuto(n, ovs[0].idx).1 == AutoMac(ovs[0].idx)
      && match Replace(s, n, ovs[0]) case None => false case Some(m) => ReplacesNamed(s, m, ovs[1..]))
  }

  ghost predicate Descending(ovs: seq<Override>) {
    forall i, j :: 0 <= i < j < |ovs| ==> ovs[i].idx > ovs[j].idx
  }

  // ---- Which lists are considered ------------------------------------------------------------

  /** The address of a replacement that takes out the device it names. */
  function MacFor(ov: Override): text
    requires ov.idx < 256
  {
    if ov.cfg.mac == [] then AutoMac(ov.idx) else MacText.ToLower(ov.cfg.mac)
  }

  ghost predicate InRange(ovs: seq<Override>, n: nat) {
    forall i :: 0 <= i < |ovs| ==> 1 <= ovs[i].idx <= n
  }

  ghost predicate UniqueIdx(ovs: seq<Override>) {
    forall i, j :: 0 <= i < j < |ovs| ==> ovs[i].idx != ovs[j].idx
  }

  /** Addresses are well formed, differ from each other, and from those of the automatic devices
      that are not being replaced by the same override. */
  ghost predicate NonColliding(ovs: seq<Override>, n: nat)
    requires n < 256 && InRange(ovs, n)
  {
    && (forall i :: 0 <= i < |ovs| ==> ovs[i].cfg.mac == [] || MacText.ColonForm(ovs[i].cfg.mac))
    && (forall i, j :: 0 <= i < j < |ovs| ==> MacFor(ovs[i]) != MacFor(ovs[j]))
    && (forall i, j :: 0 <= i < |ovs| && 1 <= j <= n && j != ovs[i].idx ==> MacFor(ovs[i]) != AutoMac(j))
  }

  // ---- One replacement ------------------------------------------------------------------------

  /** The network after replacing `done` in descending order, last position m: the devices before m
      are where they started, those after m that have not been replaced have moved forward. */
  ghost predicate Shifted(net: NetState, n: nat, m: nat, done: set<nat>)
    requires n < 256
  {
    && Valid(net) && |net.order| == n && 1 <= m <= n + 1 && (m == n + 1 || m in done)
    && (forall j :: 1 <= j < m ==> net.order[j - 1] == AutoMac(j))
    && (forall j :: m < j <= n && j !in done ==> Earlier(net.order, j))
  }

  ghost predicate Earlier(order: seq<text>, j: nat)
    requires 1 <= j < 256
  {
    exists p :: 0 <= p < j - 1 && p < |order| && order[p] == AutoMac(j)
  }

  /** Its members: automatic devices that are left, and replacements. */
  ghost predicate Members(net: NetState, n: nat, done: set<nat>, used: set<text>)
    requires n < 256
  {
    forall k :: k in net.devices ==> k in used || exists j :: 1 <= j <= n && j !in done && k == AutoMac(j)
  }

  lemma AutoMacLower(i: nat)
    requires i < 256
    ensures MacText.ColonForm(AutoMac(i)) && MacText.ToLower(AutoMac(i)) == AutoMac(i) && AutoMac(i) != []
  {
  }

  /** order without position i, and c at the end. */
  function Shift(order: seq<text>, i: nat, c: text): (r: seq<text>)
    requires 1 <= i <= |order|
    ensures |r| == |order|
    ensures forall p :: 0 <= p < i - 1 ==> r[p] == order[p]
    ensures forall p :: i <= p < |order| ==> r[p - 1] == order[p]
  {
    order[..i - 1] + order[i..] + [c]
  }

  lemma MovesForward(order: seq<text>, i: nat, j: nat, c: text)
    requires 1 <= i < j < 256 && i <= |order| && order[i - 1] == AutoMac(i) && Earlier(order, j)
    ensures Earlier(Shift(order, i, c), j)
  {
    var p :| 0 <= p < j - 1 && p < |order| && order[p] == AutoMac(j);
    if p == i - 1 {
      AutoMacsDiffer(i, j);
    }
    assert Shift(order, i, c)[if p < i - 1 then p else p - 1] == AutoMac(j);
  }

  lemma MovesByOne(order: seq<text>, i: nat, j: nat, c: text)
    requires 1 <= i < j <= |order| && j < 256 && order[j - 1] == AutoMac(j)
    ensures Earlier(Shift(order, i, c), j)
  {
    assert Shift(order, i, c)[j - 2] == AutoMac(j);
  }

  /** The state after taking out position i and appending c. */
  lemma ShiftOnce(net: NetState, n: nat, m: nat, done: set<nat>, i: nat, c: text, net': NetState)
    requires n < 256 && Shifted(net, n, m, done) && 1 <= i < m
    requires Valid(net') && net'.order == Shift(net.order, i, c)
    ensures Shifted(net', n, i, done + {i})
  {
    forall j | i < j <= n && j !in done + {i} ensures Earlier(net'.order, j) {
      if j < m {
        MovesByOne(net.order, i, j, c);
      } else {
        MovesForward(net.order, i, j, c);
      }
    }
  }

  /** A position at or after the last one replaced does not hold the device it is named after. */
  lemma WrongPosition(net: NetState, n: nat, m: nat, done: set<nat>, i: nat)
    requires n < 256 && Shifted(net, n, m, done) && m <= i <= n && i !in done
    ensures RemoveAuto(net, i).1 != AutoMac(i)
  {
    assert Earlier(net.order, i);
    var p :| 0 <= p < i - 1 && p < |net.order| && net.order[p] == AutoMac(i);
  }

  /** The device an override asks for. */
  function Replacement(s: Schema, ov: Override): DeviceState
    requires ov.idx < 256
  {
    NewDevice(s, Filled(ov, AutoMac(ov.idx)).(mac := MacFor(ov)))
  }

  /** A replacement of a device that is still in place. */
  ghost predicate Replaced(s: Schema, net: NetState, ov: Override, net': NetState)
    requires 1 <= ov.idx < 256 && ov.idx <= |net.order|
  {
    var was, c := AutoMac(ov.idx), MacFor(ov);
    && net'.order == Shift(net.order, ov.idx, c)
    && c in net'.devices && net'.devices[c] == Replacement(s, ov)
    && (forall k :: k in net'.devices <==> (k in net.devices && k != was) || k == c)
    && (forall k :: k in net.devices && k != was && k != c ==> k in net'.devices && net'.devices[k] == net.devices[k])
  }

  lemma ReplaceInPlace(s: Schema, net: NetState, ov: Override)
    requires Valid(net) && 1 <= ov.idx < 256 && ov.idx <= |net.order| && net.order[ov.idx - 1] == AutoMac(ov.idx)
    requires ov.cfg.mac == [] || MacText.ColonForm(ov.cfg.mac)
    requires MacFor(ov) == AutoMac(ov.idx) || MacFor(ov) !in net.devices
    ensures RemoveAuto(net, ov.idx).1 == AutoMac(ov.idx)
    ensures Replace(s, net, ov).Some? && Valid(Replace(s, net, ov).value) && Replaced(s, net, ov, Replace(s, net, ov).value)
  {
    AutoMacLower(ov.idx);
    RemoveKeepsValid(net, ov.idx);
    var rest := RemoveAuto(net, ov.idx).0;
    AddKeepsValid(s, rest, Filled(ov, AutoMac(ov.idx)));
  }

  lemma MembersOnce(s: Schema, net: NetState, n: nat, done: set<nat>, used: set<text>, ov: Override, net': NetState)
    requires n < 256 && Members(net, n, done, used) && 1 <= ov.idx <= n == |net.order| && Replaced(s, net, ov, net')
    ensures Members(net', n, done + {ov.idx}, used + {MacFor(ov)})
  {
    forall k | k in net'.devices && k !in used + {MacFor(ov)}
      ensures exists j :: 1 <= j <= n && j !in done + {ov.idx} && k == AutoMac(j)
    {
      var j :| 1 <= j <= n && j !in done && k == AutoMac(j);
      assert j !in done + {ov.idx};
    }
  }

  // ---- Lists of replacements ------------------------------------------------------------------

  /** What is known of the overrides still to come. */
  ghost predicate Pending(ovs: seq<Override>, n: nat, done: set<nat>, used: set<text>)
    requires n < 256
  {
    && InRange(ovs, n) && UniqueIdx(ovs) && NonColliding(ovs, n)
    && forall i :: 0 <= i < |ovs| ==> ovs[i].idx !in done && MacFor(ovs[i]) !in used
  }

  lemma PendingRest(ovs: seq<Override>, n: nat, done: set<nat>, used: set<text>)
    requires n < 256 && Pending(ovs, n, done, used) && ovs != []
    ensures Pending(ovs[1..], n, done + {ovs[0].idx}, used + {MacFor(ovs[0])})
  {
    var rest := ovs[1..];
    forall i | 0 <= i < |rest|
      ensures rest[i].idx !in done + {ovs[0].idx} && MacFor(rest[i]) !in used + {MacFor(ovs[0])}
    {
      assert rest[i] == ovs[i + 1];
    }
  }

  lemma FreeAddress(net: NetState, n: nat, done: set<nat>, used: set<text>, ovs: seq<Override>)
    requires n < 256 && Pending(ovs, n, done, used) && Members(net, n, done, used) && ovs != []
    ensures MacFor(ovs[0]) == AutoMac(ovs[0].idx) || MacFor(ovs[0]) !in net.devices
  {
    if MacFor(ovs[0]) in net.devices {
      var j :| 1 <= j <= n && j !in done && MacFor(ovs[0]) == AutoMac(j);
    }
  }

  lemma DescendingCons(ovs: seq<Override>)
    requires ovs != []
    ensures Descending(ovs) <==> Descending(ovs[1..]) && (|ovs| > 1 ==> ovs[1].idx < ovs[0].idx)
  {
    if Descending(ovs[1..]) && |ovs| > 1 && ovs[1].idx < ovs[0].idx {
      forall j | 0 < j < |ovs| ensures ovs[0].idx > ovs[j].idx {
        if j > 1 {
          assert ovs[1..][0].idx > ovs[1..][j - 1].idx;
        }
      }
      forall i, j | 0 < i < j < |ovs| ensures ovs[i].idx > ovs[j].idx {
        assert ovs[1..][i - 1].idx > ovs[1..][j - 1].idx;
      }
    }
  }

  /** The network in the middle of a list of overrides, and the overrides still to come. */
  ghost predicate Midway(net: NetState, n: nat, m: nat, done: set<nat>, used: set<text>, ovs: seq<Override>) {
    n < 256 && Shifted(net, n, m, done) && Members(net, n, done, used) && Pending(ovs, n, done, used)
  }

  /** All that is known of the network carries over a replacement in descending order. */
  lemma ReplaceNext(s: Schema, net: NetState, n: nat, m: nat, done: set<nat>, used: set<text>, ovs: seq<Override>)
    requires Midway(net, n, m, done, used, ovs) && ovs != [] && ovs[0].idx < m
    ensures RemoveAuto(net, ovs[0].idx).1 == AutoMac(ovs[0].idx) && Replace(s, net, ovs[0]).Some?
    ensures var ov, net' := ovs[0], Replace(s, net, ovs[0]).value;
            Replaced(s, net, ov, net') && Midway(net', n, ov.idx, done + {ov.idx}, used + {MacFor(ov)}, ovs[1..])
  {
    var ov := ovs[0];
    FreeAddress(net, n, done, used, ovs);
    ReplaceInPlace(s, net, ov);
    var net' := Replace(s, net, ov).value;
    ShiftOnce(net, n, m, done, ov.idx, MacFor(ov), net');
    MembersOnce(s, net, n, done, used, ov, net');
    PendingRest(ovs, n, done, used);
  }

  lemma {:induction false} NamedFrom(s: Schema, net: NetState, n: nat, m: nat, done: set<nat>, used: set<text>, ovs: seq<Override>)
    requires Midway(net, n, m, done, used, ovs)
    ensures ReplacesNamed(s, net, ovs) <==> Descending(ovs) && (ovs != [] ==> ovs[0].idx < m)
    decreases |ovs|
  {
    if ovs != [] {
      var ov, rest := ovs[0], ovs[1..];
      if ov.idx >= m {
        WrongPosition(net, n, m, done, ov.idx);
      } else {
        ReplaceNext(s, net, n, m, done, used, ovs);
        var net' := Replace(s, net, ov).value;
        NamedFrom(s, net', n, ov.idx, done + {ov.idx}, used + {MacFor(ov)}, rest);
        DescendingCons(ovs);
      }
    }
  }

  lemma FreshShifted(s: Schema, n: nat)
    requires n < 256
    ensures Shifted(NewNetwork(s, n), n, n + 1, {}) && Members(NewNetwork(s, n), n, {}, {})
  {
    NewNetworkOrder(s, n);
    NewNetworkIsValid(s, n);
    var net := NewNetwork(s, n);
    forall k | k in net.devices ensures exists j :: 1 <= j <= n && j !in {} && k == AutoMac(j) {
      assert k in net.order;
      var i :| 0 <= i < n && net.order[i] == k;
      assert k == AutoMac(i + 1) && i + 1 !in {};
    }
  }

  /** On a new network, for overrides with different positions in range and addresses that do not
      collide, every override replaces the device it names exactly when the positions are given in
      strictly descending order. */
  lemma ReplacesNamedExactly(s: Schema, n: nat, ovs: seq<Override>)
    requires n < 256 && InRange(ovs, n) && UniqueIdx(ovs) && NonColliding(ovs, n)
    ensures ReplacesNamed(s, NewNetwork(s, n), ovs) <==> Descending(ovs)
  {
    FreshShifted(s, n);
    NamedFrom(s, NewNetwork(s, n), n, n + 1, {}, {}, ovs);
  }

  /** The outcome of replacing the devices the overrides name, and no others. */
  ghost predicate ExactlyReplaced(s: Schema, net: NetState, ovs: seq<Override>, fin: NetState)
    requires forall i :: 0 <= i < |ovs| ==> ovs[i].idx < 256
  {
    && (forall i :: 0 <= i < |ovs| ==> MacFor(ovs[i]) in fin.devices && fin.devices[MacFor(ovs[i])] == Replacement(s, ovs[i]))
    && (forall k :: k in net.devices && Spared(ovs, k) ==> k in fin.devices && fin.devices[k] == net.devices[k])
  }

  /** No override takes this device out or files another in its place. */
  ghost predicate Spared(ovs: seq<Override>, k: text)
    requires forall i :: 0 <= i < |ovs| ==> ovs[i].idx < 256
  {
    forall i :: 0 <= i < |ovs| ==> k != AutoMac(ovs[i].idx) && k != MacFor(ovs[i])
  }

  lemma ReplacedCons(s: Schema, net: NetState, n: nat, ovs: seq<Override>, net': NetState, fin: NetState)
    requires n < 256 && ovs != [] && InRange(ovs, n) && UniqueIdx(ovs) && NonColliding(ovs, n) && n == |net.order|
    requires Replaced(s, net, ovs[0], net') && ExactlyReplaced(s, net', ovs[1..], fin)
    ensures ExactlyReplaced(s, net, ovs, fin)
  {
    var ov, rest := ovs[0], ovs[1..];
    assert Spared(rest, MacFor(ov)) by {
      forall i | 0 <= i < |rest| ensures MacFor(ov) != AutoMac(rest[i].idx) && MacFor(ov) != MacFor(rest[i]) {
        assert rest[i] == ovs[i + 1];
      }
    }
    forall i | 0 <= i < |ovs|
      ensures MacFor(ovs[i]) in fin.devices && fin.devices[MacFor(ovs[i])] == Replacement(s, ovs[i])
    {
      if i > 0 {
        assert ovs[i] == rest[i - 1];
      }
    }
    forall k | k in net.devices && Spared(ovs, k) ensures k in fin.devices && fin.devices[k] == net.devices[k] {
      assert Spared(rest, k);
    }
  }

  lemma {:induction false} DescendingFrom(s: Schema, net: NetState, n: nat, m: nat, done: set<nat>, used: set<text>, ovs: seq<Override>)
    returns (fin: NetState)
    requires Midway(net, n, m, done, used, ovs)
    requires Descending(ovs) && (ovs != [] ==> ovs[0].idx < m)
    ensures ReplaceAll(s, net, ovs) == Some(fin) && ExactlyReplaced(s, net, ovs, fin)
    decreases |ovs|
  {
    if ovs == [] {
      fin := net;
    } else {
      ReplaceNext(s, net, n, m, done, used, ovs);
      DescendingCons(ovs);
      var ov, net' := ovs[0], Replace(s, net, ovs[0]).value;
      fin := DescendingFrom(s, net', n, ov.idx, done + {ov.idx}, used + {MacFor(ov)}, ovs[1..]);
      ReplacedCons(s, net, n, ovs, net', fin);
    }
  }

  /** In descending order the named devices are replaced and all others are left as they were. */
  lemma DescendingReplaces(s: Schema, n: nat, ovs: seq<Override>)
    requires n < 256 && InRange(ovs, n) && UniqueIdx(ovs) && NonColliding(ovs, n) && Descending(ovs)
    ensures var fin := ReplaceAll(s, NewNetwork(s, n), ovs);
            fin.Some? && ExactlyReplaced(s, NewNetwork(s, n), ovs, fin.value)
  {
    FreshShifted(s, n);
    var fin := DescendingFrom(s, NewNetwork(s, n), n, n + 1, {}, {}, ovs);
  }

  /** What a replacement does to the order, whatever stands at the position. */
  lemma ReplaceOrder(s: Schema, net: NetState, ov: Override)
    requires Valid(net) && 1 <= ov.idx <= |net.order| && MacText.LowerColonForm(ov.cfg.mac) && ov.cfg.mac !in net.order
    ensures Replace(s, net, ov).Some? && Valid(Replace(s, net, ov).value)
    ensures Replace(s, net, ov).value.order == Shift(net.order, ov.idx, ov.cfg.mac)
  {
    LowerIsFixed(ov.cfg.mac);
    var (rest, mac) := RemoveAuto(net, ov.idx);
    RemoveKeepsValid(net, ov.idx);
    assert mac in net.order && MacText.LowerColonForm(mac);
    AddKeepsValid(s, rest, Filled(ov, mac));
  }

  /** Overrides 1 and 2, in that order, leave automatic device 2 in place, for any number of devices;
      of two devices, the second override replaces the first replacement. */
  lemma AscendingReplacesTheReplacement(s: Schema, n: nat, a: Config, b: Config)
    requires 2 <= n < 256 && MacText.LowerColonForm(a.mac) && MacText.LowerColonForm(b.mac) && a.mac != b.mac
    requires forall i :: 1 <= i <= n ==> AutoMac(i) != a.mac && AutoMac(i) != b.mac
    ensures var fin := ReplaceAll(s, NewNetwork(s, n), [Override(1, a), Override(2, b)]);
            fin.Some? && |fin.value.order| == n && fin.value.order[0] == AutoMac(2) &&
            (n == 2 ==> fin.value.order == [AutoMac(2), b.mac])
  {
    NewNetworkOrder(s, n);
    NewNetworkIsValid(s, n);
    NotListed(NewNetwork(s, n), n, a.mac);
    NotListed(NewNetwork(s, n), n, b.mac);
    SecondStays(s, NewNetwork(s, n), a, b);
  }

  lemma NotListed(net: NetState, n: nat, mac: text)
    requires n < 256 && |net.order| == n && forall i :: 0 <= i < n ==> net.order[i] == AutoMac(i + 1)
    requires forall i :: 1 <= i <= n ==> AutoMac(i) != mac
    ensures mac !in net.order
  {
    forall i | 0 <= i < n ensures net.order[i] != mac {
      assert AutoMac(i + 1) != mac;
    }
  }

  lemma SecondStays(s: Schema, net: NetState, a: Config, b: Config)
    requires Valid(net) && |net.order| >= 2
    requires MacText.LowerColonForm(a.mac) && MacText.LowerColonForm(b.mac)
    requires a.mac !in net.order && b.mac !in net.order && a.mac != b.mac
    ensures var fin := ReplaceAll(s, net, [Override(1, a), Override(2, b)]);
            fin.Some? && |fin.value.order| == |net.order| && fin.value.order[0] == net.order[1] &&
            (|net.order| == 2 ==> fin.value.order == [net.order[1], b.mac])
  {
    FirstThenSecond(s, net, Override(1, a), Override(2, b));
  }

  lemma FirstThenSecond(s: Schema, net: NetState, a: Override, b: Override)
    requires Valid(net) && |net.order| >= 2 && a.idx == 1 && b.idx == 2
    requires MacText.LowerColonForm(a.cfg.mac) && MacText.LowerColonForm(b.cfg.mac)
    requires a.cfg.mac !in net.order && b.cfg.mac !in net.order && a.cfg.mac != b.cfg.mac
    ensures var fin := ReplaceAll(s, net, [a, b]);
            fin.Some? && fin.value.order == Shift(Shift(net.order, 1, a.cfg.mac), 2, b.cfg.mac)
  {
    ReplaceOrder(s, net, a);
    var net' := Replace(s, net, a).value;
    ReplaceOrder(s, net', b);
    ReplaceTwo(s, net, a, net', b, Replace(s, net', b).value);
  }

  lemma ReplaceTwo(s: Schema, net: NetState, a: Override, net': NetState, b: Override, fin: NetState)
    requires Replace(s, net, a) == Some(net') && Replace(s, net', b) == Some(fin)
    ensures ReplaceAll(s, net, [a, b]) == Some(fin)
  {
    var ovs := [a, b];
    assert ovs[1..] == [b] && [b][1..] == [];
    assert ReplaceAll(s, net', [b]) == ReplaceAll(s, fin, []);
  }

  lemma LowerIsFixed(t: text)
    requires MacText.LowerColonForm(t)
    ensures MacText.ToLower(t) == t
  {
    forall i | 0 <= i < 17 ensures MacText.Lower(t[i]) == t[i] {
      if i % 3 != 2 {
        assert MacText.IsLowerHex(t[i]);
      }
    }
  }
}
