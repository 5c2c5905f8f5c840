/** What the code uses of Go collections: sort.Slice, ranging over a map, maps.Copy. The results
    say what those promise about order and no more. */
module Collections {
  /** a is sorted by key. */
  ghost predicate Ascends<T>(key: T -> int, a: seq<T>) {
    forall i, j :: 0 <= i < j < |a| ==> key(a[i]) <= key(a[j])
  }

  /** sort.Slice(a, key(a[i]) < key(a[j])). The library promises no more than this. */
  method SortSlice<T>(key: T -> int, a: seq<T>) returns (b: seq<T>)
    ensures Ascends(key, b) && multiset(b) == multiset(a)
  {
    b := [];
    for i := 0 to |a|
      invariant Ascends(key, b) && multiset(b) == multiset(a[..i])
    {
      b := Insert(key, b, a[i]);
      assert a[..i + 1] == a[..i] + [a[i]];
    }
    assert a[..|a|] == a;
  }

  method Insert<T>(key: T -> int, a: seq<T>, x: T) returns (b: seq<T>)
    requires Ascends(key, a)
    ensures Ascends(key, b) && multiset(b) == multiset(a) + multiset{x}
  {
    var j := |a|;
    while j > 0 && key(x) < key(a[j - 1])
      invariant 0 <= j <= |a|
      invariant forall k :: j <= k < |a| ==> key(x) < key(a[k])
    {
      j := j - 1;
    }
    Inserted(a, j, x);
    b := a[..j] + [x] + a[j..];
  }

  lemma Inserted<T>(b: seq<T>, j: nat, x: T)
    requires j <= |b|
    ensures multiset(b[..j] + [x] + b[j..]) == multiset(b) + multiset{x}
  {
    assert b == b[..j] + b[j..];
  }

  /** a without its i-th element. */
  function Without<T>(a: seq<T>, i: nat): (r: seq<T>)
    requires i < |a|
    ensures |r| == |a| - 1
    ensures forall k :: 0 <= k < |r| ==> r[k] == a[if k < i then k else k + 1]
  {
    a[..i] + a[i + 1..]
  }

  lemma Removed<T>(a: seq<T>, i: nat)
    requires i < |a|
    ensures multiset(a) == multiset(Without(a, i)) + multiset{a[i]}
    ensures multiset(Without(a, i)) == multiset(a) - multiset{a[i]}
  {
    assert a == a[..i] + [a[i]] + a[i + 1..];
  }

  lemma Tail<T>(a: seq<T>)
    requires a != []
    ensures multiset(a) == multiset(a[1..]) + multiset{a[0]}
    ensures multiset(a[1..]) == multiset(a) - multiset{a[0]}
  {
    assert a == [a[0]] + a[1..];
  }

  lemma MemberOf<T>(a: seq<T>, b: seq<T>, x: T) returns (j: nat)
    requires multiset(a) == multiset(b) && x in a
    ensures j < |b| && b[j] == x
  {
    assert x in multiset(b);
    j :| 0 <= j < |b| && b[j] == x;
  }

  /** Equal keys mean equal elements. */
  ghost predicate KeyDecides<T>(key: T -> int, a: seq<T>) {
    forall i, j :: 0 <= i < j < |a| && key(a[i]) == key(a[j]) ==> a[i] == a[j]
  }

  /** Then sorting has only one outcome. */
  lemma {:induction false} AscendingUnique<T>(key: T -> int, a: seq<T>, b: seq<T>)
    requires Ascends(key, a) && Ascends(key, b) && multiset(a) == multiset(b) && KeyDecides(key, a)
    ensures a == b
    decreases |a|
  {
    assert |multiset(a)| == |a| && |multiset(b)| == |b|;
    if a != [] {
      SameHead(key, a, b);
      SameTails(key, a, b);
      AscendingUnique(key, a[1..], b[1..]);
      assert a == [a[0]] + a[1..] && b == [b[0]] + b[1..];
    }
  }

  lemma SameHead<T>(key: T -> int, a: seq<T>, b: seq<T>)
    requires Ascends(key, a) && Ascends(key, b) && multiset(a) == multiset(b) && a != [] && b != []
    requires KeyDecides(key, a)
    ensures a[0] == b[0]
  {
    var i := MemberOf(b, a, b[0]);
    var j := MemberOf(a, b, a[0]);
    assert key(a[0]) <= key(a[i]) && key(b[0]) <= key(b[j]);
  }

  lemma SameTails<T>(key: T -> int, a: seq<T>, b: seq<T>)
    requires Ascends(key, a) && Ascends(key, b) && multiset(a) == multiset(b) && a != [] && b != []
    requires KeyDecides(key, a) && a[0] == b[0]
    ensures Ascends(key, a[1..]) && Ascends(key, b[1..]) && multiset(a[1..]) == multiset(b[1..])
    ensures KeyDecides(key, a[1..])
  {
    Tail(a);
    Tail(b);
    var a' := a[1..];
    forall i, j | 0 <= i < j < |a'| && key(a'[i]) == key(a'[j]) ensures a'[i] == a'[j] {
      assert a[i + 1] == a[j + 1];
    }
  }

  function Map<T, U>(f: T -> U, a: seq<T>): (b: seq<U>)
    ensures |b| == |a|
    ensures forall i :: 0 <= i < |a| ==> b[i] == f(a[i])
  {
    seq(|a|, i requires 0 <= i < |a| => f(a[i]))
  }

  lemma MapWithout<T, U>(f: T -> U, a: seq<T>, i: nat)
    requires i < |a|
    ensures multiset(Map(f, a)) == multiset(Map(f, Without(a, i))) + multiset{f(a[i])}
  {
    Removed(Map(f, a), i);
    assert Map(f, Without(a, i)) == Without(Map(f, a), i);
  }

  lemma {:induction false} MapKeepsMultiset<T, U>(f: T -> U, a: seq<T>, b: seq<T>)
    requires multiset(a) == multiset(b)
    ensures multiset(Map(f, a)) == multiset(Map(f, b))
    decreases |a|
  {
    assert |multiset(a)| == |a| && |multiset(b)| == |b|;
    if a == [] {
      assert Map(f, a) == Map(f, b) == [];
    } else {
      var j := MemberOf(a, b, a[0]);
      Removed(a, 0);
      Removed(b, j);
      MapKeepsMultiset(f, Without(a, 0), Without(b, j));
      MapWithout(f, a, 0);
      MapWithout(f, b, j);
    }
  }

  ghost predicate Distinct<T>(a: seq<T>) {
    forall i, j :: 0 <= i < j < |a| ==> a[i] != a[j]
  }

  /** Lists without repetition and with the same members are permutations of each other. */
  lemma SameMembers<T>(a: seq<T>, b: seq<T>)
    requires Distinct(a) && Distinct(b) && (forall x <- a :: x in b) && (forall x <- b :: x in a)
    ensures multiset(a) == multiset(b)
  {
    forall x <- a ensures multiset(a)[x] == multiset(b)[x] {
      DistinctCount(a, x);
      DistinctCount(b, x);
    }
    assert forall x :: x in multiset(a) <==> x in a;
    assert forall x :: x in multiset(b) <==> x in b;
  }

  lemma {:induction false} DistinctCount<T>(a: seq<T>, x: T)
    requires Distinct(a)
    ensures multiset(a)[x] == if x in a then 1 else 0
    decreases |a|
  {
    if a != [] {
      Tail(a);
      DistinctCount(a[1..], x);
    }
  }

  lemma CountTwice<T>(a: seq<T>, i: nat, j: nat)
    requires i < j < |a| && a[i] == a[j]
    ensures multiset(a)[a[i]] >= 2
  {
    Removed(a, j);
    assert Without(a, j)[i] == a[i];
    assert a[i] in multiset(Without(a, j));
  }

  lemma PermutationKeepsDistinct<T>(a: seq<T>, b: seq<T>)
    requires Distinct(a) && multiset(a) == multiset(b)
    ensures Distinct(b) && |b| == |a|
    ensures forall x :: x in b <==> x in a
  {
    assert |multiset(a)| == |a| && |multiset(b)| == |b|;
    assert forall x :: x in a <==> x in multiset(a);
    assert forall x :: x in b <==> x in multiset(b);
    forall i, j | 0 <= i < j < |b| ensures b[i] != b[j] {
      DistinctCount(a, b[i]);
      if b[i] == b[j] {
        CountTwice(b, i, j);
      }
    }
  }

  /** A list without repetition is no longer than a set that holds its members. */
  lemma {:induction false} DistinctFits<T>(a: seq<T>, members: set<T>)
    requires Distinct(a) && forall x <- a :: x in members
    ensures |a| <= |members|
    decreases |a|
  {
    if a != [] {
      DistinctFits(a[1..], members - {a[0]});
    }
  }

  /** Ranging over a Go map or set: every member once, in no particular order. */
  method Enumerate<T(==)>(members: set<T>) returns (a: seq<T>)
    ensures Distinct(a) && |a| == |members| && forall x :: x in a <==> x in members
  {
    a := [];
    var left := members;
    while left != {}
      invariant Distinct(a) && left <= members && |a| + |left| == |members|
      invariant forall x :: x in a <==> x in members && x !in left
      decreases left
    {
      var x :| x in left;
      a, left := a + [x], left - {x};
    }
  }

  /** maps.Copy, or ranging over one map while assigning to another. */
  method Overlay<K(==), V>(m: map<K, V>, more: map<K, V>) returns (r: map<K, V>)
    ensures r == m + more
  {
    r := m;
    var left := more.Keys;
    while left != {}
      invariant left <= more.Keys
      invariant r == m + map k | k in more && k !in left :: more[k]
      decreases left
    {
      var k :| k in left;
      r, left := r[k := more[k]], left - {k};
    }
    assert (map k | k in more && k !in left :: more[k]) == more;
  }

  // ---- Filtering -----------------------------------------------------------------------

  function Kept<T>(keep: T -> bool, s: seq<T>): seq<T>
    decreases |s|
  {
    if s == [] then []
    else if keep(s[0]) then [s[0]] + Kept(keep, s[1..])
    else Kept(keep, s[1..])
  }

  lemma {:induction false} KeptConcat<T>(keep: T -> bool, a: seq<T>, b: seq<T>)
    ensures Kept(keep, a + b) == Kept(keep, a) + Kept(keep, b)
    decreases |a|
  {
    if a == [] {
      assert a + b == b;
    } else {
      KeptConcat(keep, a[1..], b);
      KeptStep(keep, a, b);
    }
  }

  lemma KeptStep<T>(keep: T -> bool, a: seq<T>, b: seq<T>)
    requires a != [] && Kept(keep, a[1..] + b) == Kept(keep, a[1..]) + Kept(keep, b)
    ensures Kept(keep, a + b) == Kept(keep, a) + Kept(keep, b)
  {
    assert (a + b)[0] == a[0] && (a + b)[1..] == a[1..] + b;
    if keep(a[0]) {
      Associates([a[0]], Kept(keep, a[1..]), Kept(keep, b));
    }
  }

  lemma Associates<T>(a: seq<T>, b: seq<T>, c: seq<T>)
    ensures a + (b + c) == a + b + c
  {
  }

  lemma {:induction false} KeptAll<T>(keep: T -> bool, s: seq<T>)
    requires forall i :: 0 <= i < |s| ==> keep(s[i])
    ensures Kept(keep, s) == s
    decreases |s|
  {
    if s != [] {
      KeptAll(keep, s[1..]);
    }
  }

  lemma {:induction false} KeptNone<T>(keep: T -> bool, s: seq<T>)
    requires forall i :: 0 <= i < |s| ==> !keep(s[i])
    ensures Kept(keep, s) == []
    decreases |s|
  {
    if s != [] {
      KeptNone(keep, s[1..]);
    }
  }
}
