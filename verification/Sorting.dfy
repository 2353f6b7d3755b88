/** Stable ascending sort by a key that may be infinite: what the library sort
    returns, and why nothing else could be returned. */
module Sorting {
  datatype Key = Finite(v: real) | Infinite

  predicate AtMost(a: Key, b: Key) {
    b.Infinite? || (a.Finite? && a.v <= b.v)
  }

  predicate IsSorted<T>(key: T -> Key, s: seq<T>) {
    forall i, j :: 0 <= i < j < |s| ==> AtMost(key(s[i]), key(s[j]))
  }

  // The elements of one key, in order.
  function WithKey<T>(key: T -> Key, k: Key, s: seq<T>): seq<T> {
    if s == [] then []
    else WithKey(key, k, s[..|s| - 1]) + if key(s[|s| - 1]) == k then [s[|s| - 1]] else []
  }

  // Sorted, with the elements of every key in their original order.
  ghost predicate IsStableSort<T>(key: T -> Key, s: seq<T>, t: seq<T>) {
    && IsSorted(key, t)
    && (forall k: Key :: WithKey(key, k, t) == WithKey(key, k, s))
  }

  // x goes behind every element whose key is at most its own.
  function Insert<T>(key: T -> Key, s: seq<T>, x: T): (r: seq<T>)
    ensures |r| == |s| + 1
    ensures multiset(r) == multiset(s) + multiset{x}
  {
    if s == [] then [x]
    else
      var last := s[|s| - 1];
      assert s == s[..|s| - 1] + [last];
      if AtMost(key(last), key(x)) then s + [x] else Insert(key, s[..|s| - 1], x) + [last]
  }

  function SortBy<T>(key: T -> Key, s: seq<T>): (r: seq<T>)
    ensures multiset(r) == multiset(s) && |r| == |s|
  {
    if s == [] then []
    else
      assert s == s[..|s| - 1] + [s[|s| - 1]];
      Insert(key, SortBy(key, s[..|s| - 1]), s[|s| - 1])
  }

  lemma {:induction false} InsertIsSorted<T>(key: T -> Key, s: seq<T>, x: T)
    requires IsSorted(key, s)
    ensures IsSorted(key, Insert(key, s, x))
  {
    if s == [] || AtMost(key(s[|s| - 1]), key(x)) {
    } else {
      var init, last := s[..|s| - 1], s[|s| - 1];
      InsertIsSorted(key, init, x);
      InsertKeepsBound(key, init, x, key(last));
    }
  }

  lemma InsertKeepsBound<T>(key: T -> Key, s: seq<T>, x: T, k: Key)
    requires AtMost(key(x), k) && forall i :: 0 <= i < |s| ==> AtMost(key(s[i]), k)
    ensures forall i :: 0 <= i < |s| + 1 ==> AtMost(key(Insert(key, s, x)[i]), k)
  {
    var r := Insert(key, s, x);
    forall i | 0 <= i < |r| ensures AtMost(key(r[i]), k) {
      assert r[i] in multiset(s) + multiset{x};
    }
  }

  lemma WithKeyPush<T>(key: T -> Key, k: Key, s: seq<T>, x: T)
    ensures WithKey(key, k, s + [x]) == WithKey(key, k, s) + if key(x) == k then [x] else []
  {
    assert (s + [x])[..|s|] == s;
  }

  lemma {:induction false} InsertIsStable<T>(key: T -> Key, k: Key, s: seq<T>, x: T)
    ensures WithKey(key, k, Insert(key, s, x)) == WithKey(key, k, s + [x])
  {
    hide WithKey;
    if s == [] {
      assert [] + [x] == [x];
    } else if !AtMost(key(s[|s| - 1]), key(x)) {
      var init, last := s[..|s| - 1], s[|s| - 1];
      assert s == init + [last];
      InsertIsStable(key, k, init, x);
      WithKeyPush(key, k, Insert(key, init, x), last);
      WithKeyPush(key, k, init, x);
      WithKeyPush(key, k, init, last);
      WithKeyPush(key, k, s, x);
    }
  }

  lemma {:induction false} SortIsSorted<T>(key: T -> Key, s: seq<T>)
    ensures IsSorted(key, SortBy(key, s))
  {
    if s == [] {
    } else {
      SortIsSorted(key, s[..|s| - 1]);
      InsertIsSorted(key, SortBy(key, s[..|s| - 1]), s[|s| - 1]);
    }
  }

  lemma {:induction false} SortKeepsKey<T>(key: T -> Key, k: Key, s: seq<T>)
    ensures WithKey(key, k, SortBy(key, s)) == WithKey(key, k, s)
  {
    hide WithKey, Insert;
    if s == [] {
    } else {
      var init, x := s[..|s| - 1], s[|s| - 1];
      assert s == init + [x];
      SortKeepsKey(key, k, init);
      InsertIsStable(key, k, SortBy(key, init), x);
      WithKeyPush(key, k, SortBy(key, init), x);
      WithKeyPush(key, k, init, x);
    }
  }

  lemma SortIsStable<T>(key: T -> Key, s: seq<T>)
    ensures IsStableSort(key, s, SortBy(key, s))
  {
    hide WithKey, SortBy, IsSorted;
    SortIsSorted(key, s);
    forall k: Key ensures WithKey(key, k, SortBy(key, s)) == WithKey(key, k, s) {
      SortKeepsKey(key, k, s);
    }
  }

  lemma {:induction false} MemberHasKey<T>(key: T -> Key, s: seq<T>, i: nat)
    requires i < |s|
    ensures WithKey(key, key(s[i]), s) != []
  {
    if i == |s| - 1 {
    } else {
      MemberHasKey(key, s[..|s| - 1], i);
    }
  }

  lemma {:induction false} WithKeyMembers<T>(key: T -> Key, k: Key, s: seq<T>)
    ensures WithKey(key, k, s) != [] ==> exists i :: 0 <= i < |s| && key(s[i]) == k
  {
    if s == [] {
    } else {
      var init := s[..|s| - 1];
      WithKeyMembers(key, k, init);
      if WithKey(key, k, init) != [] {
        var i :| 0 <= i < |init| && key(init[i]) == k;
        assert key(s[i]) == k;
      }
    }
  }

  // Two sorted sequences with the same elements per key end on the same key.
  lemma LastKeyAtMost<T>(key: T -> Key, t: seq<T>, u: seq<T>)
    requires t != [] && IsSorted(key, u)
    requires forall k: Key :: WithKey(key, k, t) == WithKey(key, k, u)
    ensures u != [] && AtMost(key(t[|t| - 1]), key(u[|u| - 1]))
  {
    var k := key(t[|t| - 1]);
    MemberHasKey(key, t, |t| - 1);
    assert WithKey(key, k, u) != [];
    WithKeyMembers(key, k, u);
  }

  /** A stable sort has one possible result. */
  lemma {:induction false} StableSortIsUnique<T>(key: T -> Key, t: seq<T>, u: seq<T>)
    requires IsSorted(key, t) && IsStableSort(key, t, u)
    ensures t == u
  {
    if t == [] {
      if u != [] { LastKeyAtMost(key, u, t); }
    } else {
      LastKeyAtMost(key, t, u);
      LastKeyAtMost(key, u, t);
      var t', u', x, y := t[..|t| - 1], u[..|u| - 1], t[|t| - 1], u[|u| - 1];
      assert key(x) == key(y);
      assert WithKey(key, key(x), t) == WithKey(key, key(x), t') + [x];
      assert WithKey(key, key(x), u) == WithKey(key, key(x), u') + [y];
      assert (WithKey(key, key(x), t') + [x])[|WithKey(key, key(x), t')|] == x;
      assert |WithKey(key, key(x), t')| == |WithKey(key, key(x), u')|;
      assert x == y;
      forall k: Key ensures WithKey(key, k, t') == WithKey(key, k, u') {
        var tail := if key(x) == k then [x] else [];
        assert WithKey(key, k, t) == WithKey(key, k, t') + tail;
        assert WithKey(key, k, u) == WithKey(key, k, u') + tail;
        assert WithKey(key, k, t') == WithKey(key, k, t)[..|WithKey(key, k, t)| - |tail|];
        assert WithKey(key, k, u') == WithKey(key, k, u)[..|WithKey(key, k, u)| - |tail|];
      }
      StableSortIsUnique(key, t', u');
      assert t == t' + [x] && u == u' + [x];
    }
  }

  /** Any stable ascending sort is SortBy. */
  lemma StableSortIsSortBy<T>(key: T -> Key, s: seq<T>, t: seq<T>)
    ensures IsStableSort(key, s, t) <==> t == SortBy(key, s)
  {
    SortIsStable(key, s);
    if IsStableSort(key, s, t) { StableSortIsUnique(key, SortBy(key, s), t); }
  }

  function Map<T, U>(f: T -> U, s: seq<T>): (r: seq<U>)
    ensures |r| == |s| && forall i :: 0 <= i < |s| ==> r[i] == f(s[i])
  {
    seq(|s|, i requires 0 <= i < |s| => f(s[i]))
  }

  lemma {:induction false} InsertMap<T>(key: T -> Key, f: T -> T, s: seq<T>, x: T)
    requires forall y: T :: y in s + [x] ==> key(f(y)) == key(y)
    ensures Map(f, Insert(key, s, x)) == Insert(key, Map(f, s), f(x))
  {
    if s == [] {
    } else {
      var init, last := s[..|s| - 1], s[|s| - 1];
      assert last in s + [x] && x in s + [x];
      assert Map(f, s)[..|s| - 1] == Map(f, init);
      if !AtMost(key(last), key(x)) { InsertMap(key, f, init, x); }
    }
  }

  /** A change that keeps every key can be made before or after sorting. */
  lemma {:induction false} SortMap<T>(key: T -> Key, f: T -> T, s: seq<T>)
    requires forall y: T :: y in s ==> key(f(y)) == key(y)
    ensures Map(f, SortBy(key, s)) == SortBy(key, Map(f, s))
  {
    if s == [] {
    } else {
      var init, x := s[..|s| - 1], s[|s| - 1];
      SortMap(key, f, init);
      assert Map(f, s)[..|s| - 1] == Map(f, init);
      forall y: T | y in SortBy(key, init) + [x] ensures key(f(y)) == key(y) {
        assert y in multiset(SortBy(key, init)) + multiset{x} ==> y in s;
      }
      InsertMap(key, f, SortBy(key, init), x);
    }
  }
}
