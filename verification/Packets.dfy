/** The bytes of a request as a function of what was asked for. The client ranges over a Go map in
    any order and sorts with an unstable sort; these results say when that cannot be seen. */
module Packets {
  import opened Bytes
  import opened Parameters
  import opened Items
  import opened SimDevice
  import opened ClientProtocol
  import opened ReadModifyWrite
  import Collections

  ghost function SortKey(s: Schema): text -> int {
    k => OffsetOf(s, k)
  }

  /** The item a key contributes. */
  ghost function ItemOf(s: Schema, m: map<text, text>): text -> Item {
    k => if k in KnownKeys(s, m) && Encodable(s, m) then ItemFor(s, m, k) else Item(0, [])
  }

  lemma ListingAsSort(s: Schema, m: map<text, text>, keys: seq<text>)
    requires Listing(s, m, keys)
    ensures Collections.Ascends(SortKey(s), keys) && Collections.Distinct(keys)
  {
  }

  lemma ItemsAreMapped(s: Schema, m: map<text, text>, keys: seq<text>)
    requires Listing(s, m, keys) && Encodable(s, m)
    ensures ItemsFor(s, m, keys) == Collections.Map(ItemOf(s, m), keys)
  {
    forall i | 0 <= i < |keys| ensures ItemsFor(s, m, keys)[i] == ItemOf(s, m)(keys[i]) {
      assert keys[i] in keys;
    }
  }

  /** Two listings of one map are permutations of each other. */
  lemma ListingsPermute(s: Schema, m: map<text, text>, a: seq<text>, b: seq<text>)
    requires Listing(s, m, a) && Listing(s, m, b)
    ensures multiset(a) == multiset(b)
  {
    Collections.SameMembers(a, b);
  }

  /** Keys of the same parameter are written with the same bytes. */
  ghost predicate SameBytes(s: Schema, m: map<text, text>)
    requires Encodable(s, m)
  {
    forall j, k :: j in KnownKeys(s, m) && k in KnownKeys(s, m) && s.ByName(j) == s.ByName(k) ==>
                     ItemFor(s, m, j) == ItemFor(s, m, k)
  }

  lemma SameOffsetSameParameter(s: Schema, j: text, k: text)
    requires s.Valid() && s.ByName(j).Some? && s.ByName(k).Some? && OffsetOf(s, j) == OffsetOf(s, k)
    ensures s.ByName(j) == s.ByName(k)
  {
    s.SameOffset(s.ByName(j).value, s.ByName(k).value);
  }

  lemma ItemsDecided(s: Schema, m: map<text, text>, a: seq<text>, b: seq<text>)
    requires s.Valid() && Encodable(s, m) && SameBytes(s, m) && Listing(s, m, a) && Listing(s, m, b)
    ensures ItemsFor(s, m, a) == ItemsFor(s, m, b)
  {
    ListingsPermute(s, m, a, b);
    ItemsAreMapped(s, m, a);
    ItemsAreMapped(s, m, b);
    Collections.MapKeepsMultiset(ItemOf(s, m), a, b);
    var x, y := ItemsFor(s, m, a), ItemsFor(s, m, b);
    var offset := (it: Item) => it.offset as int;
    forall i, j | 0 <= i < j < |x| && offset(x[i]) == offset(x[j]) ensures x[i] == x[j] {
      assert a[i] in a && a[j] in a;
      SameOffsetSameParameter(s, a[i], a[j]);
    }
    ItemsAscend(s, m, a);
    ItemsAscend(s, m, b);
    Collections.AscendingUnique(offset, x, y);
  }

  lemma ItemsAscend(s: Schema, m: map<text, text>, keys: seq<text>)
    requires Encodable(s, m) && Listing(s, m, keys)
    ensures forall i, j :: 0 <= i < j < |keys| ==> ItemsFor(s, m, keys)[i].offset <= ItemsFor(s, m, keys)[j].offset
  {
    forall i | 0 <= i < |keys| ensures ItemsFor(s, m, keys)[i].offset == OffsetOf(s, keys[i]) {
      assert keys[i] in keys;
    }
  }

  function Swap(keys: seq<text>, i: nat, j: nat): (r: seq<text>)
    requires i < |keys| && j < |keys|
    ensures |r| == |keys|
    ensures forall k :: 0 <= k < |r| ==> r[k] == if k == i then keys[j] else if k == j then keys[i] else keys[k]
  {
    keys[i := keys[j]][j := keys[i]]
  }

  /** Exchanging two keys of one parameter gives another order the client could have used. */
  lemma SwapIsListing(s: Schema, m: map<text, text>, keys: seq<text>, i: nat, j: nat)
    requires Listing(s, m, keys) && i < |keys| && j < |keys|
    requires OffsetOf(s, keys[i]) == OffsetOf(s, keys[j])
    ensures Listing(s, m, Swap(keys, i, j))
  {
    var r := Swap(keys, i, j);
    forall k ensures k in r <==> k in keys {
      if k in keys {
        var x :| 0 <= x < |keys| && keys[x] == k;
        assert r[if x == i then j else if x == j then i else x] == k;
      }
    }
  }

  /** The SetData packet of a map is the same for every iteration order exactly when keys that
      resolve to the same parameter are written with the same bytes, in particular when no two keys
      resolve to the same parameter. */
  lemma PacketIsFunction(s: Schema, m: map<text, text>, keys: seq<text>)
    requires s.Valid() && Encodable(s, m) && Listing(s, m, keys)
    ensures (forall keys' :: Listing(s, m, keys') ==> ItemsFor(s, m, keys') == ItemsFor(s, m, keys)) <==> SameBytes(s, m)
  {
    if SameBytes(s, m) {
      forall keys' | Listing(s, m, keys') ensures ItemsFor(s, m, keys') == ItemsFor(s, m, keys) {
        ItemsDecided(s, m, keys', keys);
      }
    } else {
      var j, k :| j in KnownKeys(s, m) && k in KnownKeys(s, m) && s.ByName(j) == s.ByName(k) &&
                  ItemFor(s, m, j) != ItemFor(s, m, k);
      var x :| 0 <= x < |keys| && keys[x] == j;
      var y :| 0 <= y < |keys| && keys[y] == k;
      SwapMatters(s, m, keys, x, y);
    }
  }

  lemma SwapMatters(s: Schema, m: map<text, text>, keys: seq<text>, x: nat, y: nat)
    requires s.Valid() && Encodable(s, m) && Listing(s, m, keys) && x < |keys| && y < |keys|
    requires keys[x] in KnownKeys(s, m) && keys[y] in KnownKeys(s, m) && s.ByName(keys[x]) == s.ByName(keys[y])
    requires ItemFor(s, m, keys[x]) != ItemFor(s, m, keys[y])
    ensures Listing(s, m, Swap(keys, x, y))
    ensures ItemsFor(s, m, Swap(keys, x, y)) != ItemsFor(s, m, keys)
  {
    SwapIsListing(s, m, keys, x, y);
    assert ItemsFor(s, m, Swap(keys, x, y))[x] == ItemFor(s, m, keys[y]);
    assert ItemsFor(s, m, keys)[x] == ItemFor(s, m, keys[x]);
  }

  lemma {:induction false} LeastKey(s: Schema, ks: set<text>) returns (k: text)
    requires ks != {}
    ensures k in ks && forall j :: j in ks ==> OffsetOf(s, k) <= OffsetOf(s, j)
    decreases ks
  {
    var a :| a in ks;
    var rest := ks - {a};
    k := a;
    if rest != {} {
      var l := LeastKey(s, rest);
      k := if OffsetOf(s, l) < OffsetOf(s, a) then l else a;
    }
    forall j | j in ks ensures OffsetOf(s, k) <= OffsetOf(s, j) {
      assert j == a || j in rest;
    }
  }

  lemma {:induction false} Arranged(s: Schema, ks: set<text>) returns (keys: seq<text>)
    ensures forall i, j :: 0 <= i < j < |keys| ==> keys[i] != keys[j] && OffsetOf(s, keys[i]) <= OffsetOf(s, keys[j])
    ensures forall k :: k in keys <==> k in ks
    decreases ks
  {
    keys := [];
    if ks != {} {
      var k := LeastKey(s, ks);
      var rest := Arranged(s, ks - {k});
      keys := [k] + rest;
      forall i | 0 <= i < |rest| ensures rest[i] in ks && rest[i] != k {
        assert rest[i] in rest;
      }
      forall j ensures j in keys <==> j in ks {
        assert j in keys <==> j == k || j in rest;
      }
    }
  }

  /** Every map has a packet order. */
  lemma SomeListing(s: Schema, m: map<text, text>) returns (keys: seq<text>)
    ensures Listing(s, m, keys)
  {
    keys := Arranged(s, KnownKeys(s, m));
  }

  /** No two keys resolve to the same parameter. */
  ghost predicate Injective(s: Schema, m: map<text, text>) {
    forall j, k :: j in KnownKeys(s, m) && k in KnownKeys(s, m) && s.ByName(j) == s.ByName(k) ==> j == k
  }

  /** For such a map there is one order, its offsets strictly ascend, and the simulator reads back
      exactly the offsets and encoded values of its keys. */
  lemma InjectivePacket(s: Schema, m: map<text, text>, keys: seq<text>, keys': seq<text>)
    requires s.Valid() && Encodable(s, m) && Injective(s, m) && Listing(s, m, keys) && Listing(s, m, keys')
    requires |keys| < 0x1_0000
    ensures keys' == keys
    ensures forall i, j :: 0 <= i < j < |keys| ==> OffsetOf(s, keys[i]) < OffsetOf(s, keys[j])
    ensures SetDataRequest(SetDataPayload(ItemsFor(s, m, keys))) == ItemsFor(s, m, keys)
  {
    forall i, j | 0 <= i < j < |keys| ensures OffsetOf(s, keys[i]) < OffsetOf(s, keys[j]) {
      assert keys[i] in keys && keys[j] in keys;
      if OffsetOf(s, keys[i]) == OffsetOf(s, keys[j]) {
        SameOffsetSameParameter(s, keys[i], keys[j]);
      }
    }
    ListingsPermute(s, m, keys, keys');
    ListingAsSort(s, m, keys);
    ListingAsSort(s, m, keys');
    Collections.AscendingUnique(SortKey(s), keys, keys');
    SetDataRequestOfPayload(ItemsFor(s, m, keys));
  }

  // ---- What the device makes of it -----------------------------------------------------

  /** What the device stores for a key, if it is the last of its parameter. */
  function StoredFor(s: Schema, m: map<text, text>, k: text): text
    requires k in KnownKeys(s, m) && Encodable(s, m)
  {
    Canon(s.ByName(k).value.length, m[k])
  }

  function NameOf(s: Schema, k: text): text {
    match s.ByName(k) case Some(p) => p.name case None => []
  }

  lemma {:induction false} LastNamed(s: Schema, keys: seq<text>, k: text) returns (t: nat)
    requires k in keys
    ensures t < |keys| && NameOf(s, keys[t]) == NameOf(s, k)
    ensures forall j :: t < j < |keys| ==> NameOf(s, keys[j]) != NameOf(s, k)
    decreases |keys|
  {
    t := |keys| - 1;
    if NameOf(s, keys[t]) != NameOf(s, k) {
      assert k in keys[..t];
      t := LastNamed(s, keys[..t], k);
    }
  }

  lemma NameOfItem(s: Schema, m: map<text, text>, keys: seq<text>, i: nat)
    requires s.Valid() && Encodable(s, m) && Listing(s, m, keys) && i < |keys|
    ensures keys[i] in KnownKeys(s, m)
    ensures NameAt(s, ItemsFor(s, m, keys)[i].offset) == NameOf(s, keys[i]) != []
    ensures Format(ItemsFor(s, m, keys)[i].value) == StoredFor(s, m, keys[i])
  {
    assert keys[i] in keys;
    s.LookupsAgree(s.ByName(keys[i]).value);
  }

  /** The last key of a parameter wins. */
  lemma LastKeyWins(s: Schema, m: map<text, text>, keys: seq<text>, t: nat)
    requires s.Valid() && Encodable(s, m) && Listing(s, m, keys) && t < |keys|
    requires forall j :: t < j < |keys| ==> NameOf(s, keys[j]) != NameOf(s, keys[t])
    ensures keys[t] in KnownKeys(s, m)
    ensures var u := Updates(s, map[], ItemsFor(s, m, keys));
            NameOf(s, keys[t]) in u && u[NameOf(s, keys[t])] == StoredFor(s, m, keys[t])
  {
    NameOfItem(s, m, keys, t);
    forall j | t < j < |keys|
      ensures NameAt(s, ItemsFor(s, m, keys)[j].offset) != NameAt(s, ItemsFor(s, m, keys)[t].offset)
    {
      NameOfItem(s, m, keys, j);
    }
    UpdatesLastWins(s, map[], ItemsFor(s, m, keys), t);
  }

  /** Why writes are stated for canonical names: with two names of one parameter in the map, each of
      them can be the one whose value the device ends up with. */
  lemma AnyNameCanWin(s: Schema, m: map<text, text>, keys: seq<text>, k: text) returns (keys': seq<text>)
    requires s.Valid() && Encodable(s, m) && Listing(s, m, keys) && k in KnownKeys(s, m)
    ensures Listing(s, m, keys')
    ensures var u := Updates(s, map[], ItemsFor(s, m, keys'));
            NameOf(s, k) in u && u[NameOf(s, k)] == StoredFor(s, m, k)
  {
    assert k in keys;
    var i :| 0 <= i < |keys| && keys[i] == k;
    var t := LastNamed(s, keys, k);
    NameOfItem(s, m, keys, t);
    s.SameName(s.ByName(k).value, s.ByName(keys[t]).value);
    SwapIsListing(s, m, keys, i, t);
    keys' := Swap(keys, i, t);
    LastKeyWins(s, m, keys', t);
  }

  /** Keys of the same parameter lead to the same stored value. */
  ghost predicate SameStored(s: Schema, m: map<text, text>)
    requires Encodable(s, m)
  {
    forall j, k :: j in KnownKeys(s, m) && k in KnownKeys(s, m) && s.ByName(j) == s.ByName(k) ==>
                     StoredFor(s, m, j) == StoredFor(s, m, k)
  }

  lemma StoredDecided(s: Schema, m: map<text, text>, a: seq<text>, b: seq<text>, n: text)
    requires s.Valid() && Encodable(s, m) && SameStored(s, m) && Listing(s, m, a) && Listing(s, m, b)
    requires n in Updates(s, map[], ItemsFor(s, m, a))
    ensures n in Updates(s, map[], ItemsFor(s, m, b))
    ensures Updates(s, map[], ItemsFor(s, m, b))[n] == Updates(s, map[], ItemsFor(s, m, a))[n]
  {
    var items := ItemsFor(s, m, a);
    if forall i :: 0 <= i < |a| ==> NameOf(s, a[i]) != n {
      forall i | 0 <= i < |items| ensures NameAt(s, items[i].offset) != n {
        NameOfItem(s, m, a, i);
      }
      UpdatesUntouched(s, map[], items, n);
    }
    var i :| 0 <= i < |a| && NameOf(s, a[i]) == n;
    assert a[i] in a && a[i] in b;
    var x := LastNamed(s, a, a[i]);
    var y := LastNamed(s, b, a[i]);
    NameOfItem(s, m, a, x);
    NameOfItem(s, m, b, y);
    s.SameName(s.ByName(a[x]).value, s.ByName(b[y]).value);
    LastKeyWins(s, m, a, x);
    LastKeyWins(s, m, b, y);
  }

  /** What a write leaves on the device depends on the map alone exactly when keys that resolve to
      the same parameter stand for the same value. */
  lemma EffectIsFunction(s: Schema, m: map<text, text>, keys: seq<text>)
    requires s.Valid() && Encodable(s, m) && Listing(s, m, keys)
    ensures (forall keys' :: Listing(s, m, keys') ==>
               Updates(s, map[], ItemsFor(s, m, keys')) == Updates(s, map[], ItemsFor(s, m, keys))) <==> SameStored(s, m)
  {
    if SameStored(s, m) {
      forall keys' | Listing(s, m, keys')
        ensures Updates(s, map[], ItemsFor(s, m, keys')) == Updates(s, map[], ItemsFor(s, m, keys))
      {
        var u, v := Updates(s, map[], ItemsFor(s, m, keys)), Updates(s, map[], ItemsFor(s, m, keys'));
        forall n | n in u ensures n in v && v[n] == u[n] { StoredDecided(s, m, keys, keys', n); }
        forall n | n in v ensures n in u && v[n] == u[n] { StoredDecided(s, m, keys', keys, n); }
      }
    } else {
      var j, k :| j in KnownKeys(s, m) && k in KnownKeys(s, m) && s.ByName(j) == s.ByName(k) &&
                  StoredFor(s, m, j) != StoredFor(s, m, k);
      var a := AnyNameCanWin(s, m, keys, j);
      var b := AnyNameCanWin(s, m, keys, k);
    }
  }

  // ---- GetData -------------------------------------------------------------------------

  /** The regions of the names a read asks for; unknown names are skipped. */
  function RegionsNamed(s: Schema, names: seq<text>): seq<Region> {
    if names == [] then []
    else
      match s.ByName(names[0])
      case Some(p) => [Region(p.offset, p.length)] + RegionsNamed(s, names[1..])
      case None => RegionsNamed(s, names[1..])
  }

  ghost function RegionKey(): Region -> int {
    (r: Region) => r.offset as int
  }

  /** regions is an outcome of sorting them by offset. */
  ghost predicate SortedRegions(s: Schema, names: seq<text>, regions: seq<Region>) {
    Collections.Ascends(RegionKey(), regions) && multiset(regions) == multiset(RegionsNamed(s, names))
  }

  lemma {:induction false} RegionIsListed(s: Schema, names: seq<text>, i: nat)
    requires i < |RegionsNamed(s, names)|
    ensures exists p :: p in s.params && RegionsNamed(s, names)[i] == Region(p.offset, p.length)
    decreases |names|
  {
    match s.ByName(names[0]) {
      case None => RegionIsListed(s, names[1..], i);
      case Some(p) => if i > 0 { RegionIsListed(s, names[1..], i - 1); }
    }
  }

  /** Whatever order the names come in, and however ties are broken, the request is the same: equal
      offsets mean equal entries, also when a name is repeated or given by an alias. */
  lemma GetDataIsFunction(s: Schema, names: seq<text>, names': seq<text>, a: seq<Region>, b: seq<Region>)
    requires s.Valid() && multiset(names) == multiset(names')
    requires SortedRegions(s, names, a) && SortedRegions(s, names', b)
    ensures a == b
  {
    NamedKeepsMultiset(s, names, names');
    forall i, j | 0 <= i < j < |a| && a[i].offset == a[j].offset ensures a[i] == a[j] {
      var x := Collections.MemberOf(a, RegionsNamed(s, names), a[i]);
      var y := Collections.MemberOf(a, RegionsNamed(s, names), a[j]);
      RegionIsListed(s, names, x);
      RegionIsListed(s, names, y);
      var p :| p in s.params && a[i] == Region(p.offset, p.length);
      var q :| q in s.params && a[j] == Region(q.offset, q.length);
      s.SameOffset(p, q);
    }
    Collections.AscendingUnique(RegionKey(), a, b);
  }

  lemma NamedStep(s: Schema, a: seq<text>, b: seq<text>)
    requires a != [] && RegionsNamed(s, a[1..] + b) == RegionsNamed(s, a[1..]) + RegionsNamed(s, b)
    ensures RegionsNamed(s, a + b) == RegionsNamed(s, a) + RegionsNamed(s, b)
  {
    assert (a + b)[0] == a[0] && (a + b)[1..] == a[1..] + b;
    match s.ByName(a[0]) {
      case None =>
      case Some(p) => Collections.Associates([Region(p.offset, p.length)], RegionsNamed(s, a[1..]), RegionsNamed(s, b));
    }
  }

  lemma {:induction false} NamedConcat(s: Schema, a: seq<text>, b: seq<text>)
    ensures RegionsNamed(s, a + b) == RegionsNamed(s, a) + RegionsNamed(s, b)
    decreases |a|
  {
    if a == [] {
      assert a + b == b;
    } else {
      NamedConcat(s, a[1..], b);
      NamedStep(s, a, b);
    }
  }

  lemma NamedWithout(s: Schema, names: seq<text>, i: nat)
    requires i < |names|
    ensures multiset(RegionsNamed(s, names)) ==
            multiset(RegionsNamed(s, Collections.Without(names, i))) + multiset(RegionsNamed(s, [names[i]]))
  {
    var before, after := names[..i], names[i + 1..];
    assert names == before + ([names[i]] + after);
    NamedConcat(s, before, [names[i]] + after);
    NamedConcat(s, [names[i]], after);
    NamedConcat(s, before, after);
  }

  lemma {:induction false} NamedKeepsMultiset(s: Schema, a: seq<text>, b: seq<text>)
    requires multiset(a) == multiset(b)
    ensures multiset(RegionsNamed(s, a)) == multiset(RegionsNamed(s, b))
    decreases |a|
  {
    assert |multiset(a)| == |a| && |multiset(b)| == |b|;
    if a != [] {
      var j := Collections.MemberOf(a, b, a[0]);
      Collections.Removed(a, 0);
      Collections.Removed(b, j);
      NamedKeepsMultiset(s, Collections.Without(a, 0), Collections.Without(b, j));
      NamedWithout(s, a, 0);
      NamedWithout(s, b, j);
    }
  }
}
