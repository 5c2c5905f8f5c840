/** What the simulated device makes of any request payload, also one that announces more than it
    holds. */
module RequestParsing {
  import opened Bytes
  import opened Items

  // ---- Items ---------------------------------------------------------------------------

  /** data holds these items from position pos on, no more than n, and, if fewer, no further one. */
  ghost predicate Holds(data: seq<byte>, pos: nat, n: nat, items: seq<Item>)
    requires pos <= |data|
  {
    && |items| <= n && EncodeItems(items) <= data[pos..]
    && (|items| < n ==> !HasItem(data, pos + |EncodeItems(items)|))
  }

  lemma HoldsNext(data: seq<byte>, pos: nat, n: nat, items: seq<Item>)
    requires pos <= |data| && n > 0 && items != []
    ensures Holds(data, pos, n, items) <==>
            && HasItem(data, pos) && ItemAt(data, pos) == items[0]
            && Holds(data, pos + 4 + |items[0].value|, n - 1, items[1..])
  {
    var e, tail := EncodeItem(items[0]), EncodeItems(items[1..]);
    assert EncodeItems(items) == e + tail && |e| == 4 + |items[0].value|;
    PrefixSplit(data, pos, e, tail);
    if e <= data[pos..] {
      ItemOfEncode(data, pos, items[0]);
    }
    if HasItem(data, pos) && ItemAt(data, pos) == items[0] {
      EncodeOfItem(data, pos);
      assert data[pos..pos + |e|] <= data[pos..];
    }
  }

  lemma {:induction false} TakenIsHeld(data: seq<byte>, pos: nat, n: nat)
    requires pos <= |data|
    ensures Holds(data, pos, n, TakeItems(n, data, pos))
    decreases n
  {
    if n > 0 && HasItem(data, pos) {
      var it, items := ItemAt(data, pos), TakeItems(n, data, pos);
      TakenIsHeld(data, pos + 4 + |it.value|, n - 1);
      TakeCons(n, data, pos);
      assert items[1..] == TakeItems(n - 1, data, pos + 4 + |it.value|);
      HoldsNext(data, pos, n, items);
    } else {
      assert EncodeItems([]) == [];
    }
  }

  lemma {:induction false} HeldIsTaken(data: seq<byte>, pos: nat, n: nat, items: seq<Item>)
    requires pos <= |data| && Holds(data, pos, n, items)
    ensures TakeItems(n, data, pos) == items
    decreases n
  {
    if items == [] {
      NothingHeld(data, pos, n);
    } else {
      HoldsNext(data, pos, n, items);
      HeldIsTaken(data, pos + 4 + |items[0].value|, n - 1, items[1..]);
      TakeFirst(n, data, pos, items);
    }
  }

  lemma NothingHeld(data: seq<byte>, pos: nat, n: nat)
    requires pos <= |data| && Holds(data, pos, n, [])
    ensures TakeItems(n, data, pos) == []
  {
    assert EncodeItems([]) == [];
  }

  /** A write request stands for the longest list of complete items it holds, up to the number it
      announces; a payload too short to announce any stands for none. */
  lemma WriteRequestExactly(payload: seq<byte>, items: seq<Item>)
    ensures SetDataRequest(payload) == items <==>
            if |payload| < 34 then items == []
            else Holds(payload, 34, payload[32] as int * 256 + payload[33] as int, items)
  {
    if |payload| >= 34 {
      TakenIsHeld(payload, 34, Uint16At(payload, 32));
      if Holds(payload, 34, Uint16At(payload, 32), items) {
        HeldIsTaken(payload, 34, Uint16At(payload, 32), items);
      }
    }
  }

  // ---- Regions -------------------------------------------------------------------------

  lemma {:induction false} RegionsTaken(n: nat, data: seq<byte>, pos: nat)
    requires pos <= |data|
    ensures var regions := TakeRegions(n, data, pos);
            && |regions| == (if 4 * n <= |data| - pos then n else (|data| - pos) / 4)
            && 4 * |regions| <= |data| - pos
            && forall i :: 0 <= i < |regions| ==> IsRegionAt(data, pos + 4 * i, regions[i])
    decreases n
  {
    if n > 0 && pos + 4 <= |data| {
      RegionsTaken(n - 1, data, pos + 4);
      var regions, rest := TakeRegions(n, data, pos), TakeRegions(n - 1, data, pos + 4);
      forall i | 0 <= i < |regions| ensures IsRegionAt(data, pos + 4 * i, regions[i]) {
        if i > 0 {
          assert regions[i] == rest[i - 1] && IsRegionAt(data, pos + 4 + 4 * (i - 1), rest[i - 1]);
        }
      }
    }
  }

  ghost predicate IsRegionAt(data: seq<byte>, pos: nat, r: Region) {
    && pos + 4 <= |data|
    && r.offset == data[pos] as int * 256 + data[pos + 1] as int
    && r.length == data[pos + 2] as int * 256 + data[pos + 3] as int
  }

  /** A read request asks for the announced number of regions, or for as many as it holds. */
  lemma ReadRequestExactly(payload: seq<byte>)
    requires |payload| >= 34
    ensures var regions, n := GetDataRequest(payload), payload[32] as int * 256 + payload[33] as int;
            && |regions| == (if 4 * n <= |payload| - 34 then n else (|payload| - 34) / 4)
            && forall i :: 0 <= i < |regions| ==> IsRegionAt(payload, 34 + 4 * i, regions[i])
  {
    RegionsTaken(Uint16At(payload, 32), payload, 34);
  }
}
