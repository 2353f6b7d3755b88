/** Confidence tiers of a science filter (src/archive.rs). */
module Tiers {
  import opened Wrappers
  import opened Sorting

  datatype Tier = Tier(name: string, maxPerYear: real)

  function Threshold(t: Tier): Key {
    Finite(t.maxPerYear)
  }

  // The first tier the rate clears, in list order.
  function FirstClearing(tiers: seq<Tier>, far: real): (r: Option<Tier>)
    ensures r.None? <==> forall i :: 0 <= i < |tiers| ==> tiers[i].maxPerYear < far
  {
    if tiers == [] then None
    else if far <= tiers[0].maxPerYear then Some(tiers[0])
    else FirstClearing(tiers[1..], far)
  }

  // Tier i is the most significant one cleared, the earliest listed on a tie.
  predicate IsBest(tiers: seq<Tier>, far: real, i: nat, best: Tier) {
    && i < |tiers| && tiers[i] == best && far <= best.maxPerYear
    && (forall j :: 0 <= j < |tiers| && far <= tiers[j].maxPerYear ==>
          best.maxPerYear < tiers[j].maxPerYear || (best.maxPerYear == tiers[j].maxPerYear && i <= j))
  }

  class ScienceFilter {
    var confidenceTiers: seq<Tier>

    constructor (tiers: seq<Tier>)
      ensures confidenceTiers == tiers
    {
      confidenceTiers := tiers;
    }

    method SortTiers()
      modifies this
      ensures IsStableSort(Threshold, old(confidenceTiers), confidenceTiers)
    {
      confidenceTiers := SortBy(Threshold, confidenceTiers);
      SortIsStable(Threshold, old(confidenceTiers));
    }

    function TierFor(far: Option<real>): (r: Option<Tier>)
      reads this
    {
      if far.None? then None else FirstClearing(confidenceTiers, far.value)
    }

    // What a client sees: tiers set in any order, sorted, then looked up.
    method SetTiersAndTag(tiers: seq<Tier>, far: Option<real>) returns (r: Option<Tier>)
      modifies this
      ensures r.None? <==> far.None? || forall i :: 0 <= i < |tiers| ==> tiers[i].maxPerYear < far.value
      ensures r.Some? ==> exists i :: IsBest(tiers, far.value, i, r.value)
    {
      confidenceTiers := tiers;
      SortTiers();
      StableSortIsSortBy(Threshold, tiers, confidenceTiers);
      r := TierFor(far);
      if far.Some? { TierForIsBest(tiers, far.value); }
    }
  }

  lemma {:induction false} FirstClearingAt(tiers: seq<Tier>, far: real) returns (m: nat)
    requires FirstClearing(tiers, far).Some?
    ensures m < |tiers| && FirstClearing(tiers, far) == Some(tiers[m]) && far <= tiers[m].maxPerYear
    ensures forall i :: 0 <= i < m ==> tiers[i].maxPerYear < far
  {
    if far <= tiers[0].maxPerYear {
      m := 0;
    } else {
      m := FirstClearingAt(tiers[1..], far);
      m := m + 1;
    }
  }

  // The first tier with a given threshold.
  lemma {:induction false} FirstWithKey(tiers: seq<Tier>, k: Key) returns (i: nat)
    requires WithKey(Threshold, k, tiers) != []
    ensures i < |tiers| && Threshold(tiers[i]) == k && tiers[i] == WithKey(Threshold, k, tiers)[0]
    ensures forall j :: 0 <= j < i ==> Threshold(tiers[j]) != k
  {
    var init := tiers[..|tiers| - 1];
    if WithKey(Threshold, k, init) != [] {
      i := FirstWithKey(init, k);
    } else {
      i := |tiers| - 1;
      forall j | 0 <= j < i ensures Threshold(tiers[j]) != k {
        if Threshold(init[j]) == k { MemberHasKey(Threshold, init, j); }
      }
    }
  }

  /** After sorting, the first tier cleared is the most significant one, ties going
      to the tier the client listed first; there is none exactly when the rate
      exceeds every threshold. */
  lemma TierForIsBest(tiers: seq<Tier>, far: real)
    ensures
      var r := FirstClearing(SortBy(Threshold, tiers), far);
      && (r.None? <==> forall i :: 0 <= i < |tiers| ==> tiers[i].maxPerYear < far)
      && (r.Some? ==> exists i :: IsBest(tiers, far, i, r.value))
  {
    hide WithKey, SortBy, FirstClearing;
    var sorted := SortBy(Threshold, tiers);
    SortIsStable(Threshold, tiers);
    forall t: Tier ensures t in sorted <==> t in tiers {
      assert t in multiset(sorted) <==> t in multiset(tiers);
    }
    if FirstClearing(sorted, far).Some? {
      var m := FirstClearingAt(sorted, far);
      var k := Threshold(sorted[m]);
      MemberHasKey(Threshold, sorted, m);
      var i := FirstWithKey(tiers, k);
      var n := FirstWithKey(sorted, k);
      assert n == m;
      forall j | 0 <= j < |tiers| && far <= tiers[j].maxPerYear
        ensures tiers[i].maxPerYear < tiers[j].maxPerYear || (tiers[i].maxPerYear == tiers[j].maxPerYear && i <= j)
      {
        assert tiers[j] in sorted;
        var l :| 0 <= l < |sorted| && sorted[l] == tiers[j];
      }
      assert IsBest(tiers, far, i, tiers[i]);
    } else {
      forall i | 0 <= i < |tiers| ensures tiers[i].maxPerYear < far {
        assert tiers[i] in sorted;
      }
    }
  }

  /** A smaller rate is never tagged with a less significant tier. */
  lemma SmallerRateKeepsTier(tiers: seq<Tier>, low: real, high: real)
    requires low <= high && FirstClearing(SortBy(Threshold, tiers), high).Some?
    ensures FirstClearing(SortBy(Threshold, tiers), low).Some?
    ensures FirstClearing(SortBy(Threshold, tiers), low).value.maxPerYear
         <= FirstClearing(SortBy(Threshold, tiers), high).value.maxPerYear
  {
    hide SortBy, FirstClearing, IsBest;
    TierForIsBest(tiers, low);
    TierForIsBest(tiers, high);
    var a, b := FirstClearing(SortBy(Threshold, tiers), low).value, FirstClearing(SortBy(Threshold, tiers), high).value;
    var i: nat :| IsBest(tiers, high, i, b);
    var j: nat :| IsBest(tiers, low, j, a);
    BestBeats(tiers, low, high, j, i, a, b);
  }

  lemma BestBeats(tiers: seq<Tier>, low: real, high: real, j: nat, i: nat, a: Tier, b: Tier)
    requires IsBest(tiers, low, j, a) && IsBest(tiers, high, i, b) && low <= high
    ensures a.maxPerYear <= b.maxPerYear
  {
  }
}
