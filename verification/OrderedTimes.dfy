/** The queries the clusterer makes of a `BTreeMap` keyed by time: ascending
    iteration, the last key below a time, the first key at or above it. */
module OrderedTimes {
  import opened Wrappers

  ghost predicate StrictlyAscending(s: seq<real>) {
    forall i, j :: 0 <= i < j < |s| ==> s[i] < s[j]
  }

  lemma Member<T>(s: set<T>) returns (x: T)
    requires s != {}
    ensures x in s
  {
    x :| x in s;
  }

  // `keys()`: every key once, smallest first.
  method Ascending(keys: set<real>) returns (s: seq<real>)
    ensures StrictlyAscending(s)
    ensures forall k :: k in s <==> k in keys
    ensures forall i :: 0 <= i < |s| ==> s[i] in keys
  {
    s := [];
    var rest := keys;
    while rest != {}
      invariant rest <= keys
      invariant StrictlyAscending(s)
      invariant forall k :: k in s <==> k in keys && k !in rest
      invariant forall i :: 0 <= i < |s| ==> s[i] in keys
      invariant forall i, k :: 0 <= i < |s| && k in rest ==> s[i] < k
      decreases |rest|
    {
      var m := Least(rest);
      s := s + [m];
      rest := rest - {m};
    }
  }

  method Least(keys: set<real>) returns (m: real)
    requires keys != {}
    ensures m in keys && forall k :: k in keys ==> m <= k
  {
    ghost var some := Member(keys);
    m :| m in keys;
    var rest := keys - {m};
    while rest != {}
      invariant m in keys && rest <= keys
      invariant forall k :: k in keys && k !in rest ==> m <= k
      decreases |rest|
    {
      ghost var some := Member(rest);
      var k :| k in rest;
      if k < m { m := k; }
      rest := rest - {k};
    }
  }

  // `range(..t).next_back()`.
  method LastBefore(keys: set<real>, t: real) returns (r: Option<real>)
    ensures r.Some? ==> r.value in keys && r.value < t
    ensures forall k :: k in keys && k < t ==> r.Some? && k <= r.value
  {
    r := None;
    var rest := keys;
    while rest != {}
      invariant rest <= keys
      invariant r.Some? ==> r.value in keys && r.value < t
      invariant forall k :: k in keys && k !in rest && k < t ==> r.Some? && k <= r.value
      decreases |rest|
    {
      ghost var some := Member(rest);
      var k :| k in rest;
      if k < t && (r.None? || r.value < k) { r := Some(k); }
      rest := rest - {k};
    }
  }

  // `range(t..).next()`.
  method FirstFrom(keys: set<real>, t: real) returns (r: Option<real>)
    ensures r.Some? ==> r.value in keys && t <= r.value
    ensures forall k :: k in keys && t <= k ==> r.Some? && r.value <= k
  {
    r := None;
    var rest := keys;
    while rest != {}
      invariant rest <= keys
      invariant r.Some? ==> r.value in keys && t <= r.value
      invariant forall k :: k in keys && k !in rest && t <= k ==> r.Some? && r.value <= k
      decreases |rest|
    {
      ghost var some := Member(rest);
      var k :| k in rest;
      if t <= k && (r.None? || k < r.value) { r := Some(k); }
      rest := rest - {k};
    }
  }
}
