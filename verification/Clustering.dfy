/** Superevents, the clustering state, and what one operation does to it.

    A `Snapshot` is the value held by a clusterer: the two maps keyed by window
    centre, and the id counter.  Operations are specified against a
    brute-force choice of the nearest window; SupereventCreator.dfy holds the
    stateful clusterer and is proved against these functions. */
module Clustering {
  import opened Wrappers
  import opened Decimal
  import opened ByteStrings

  datatype GwEvent = GwEvent(graceid: string, pipeline: string, endTime: real, snr: real, far: real, details: string)

  datatype SkyMapFits = SkyMapFits(bytes: Bytes, elapsedMs: U64)

  datatype Superevent = Superevent(
    id: string, t0: real, tStart: real, tEnd: real,
    preferredEvent: GwEvent, gEvents: seq<GwEvent>, skymap: Option<SkyMapFits>)

  datatype SkipReason = LowerSnr

  datatype SupereventUpdate =
    | Created(superevent: Superevent)
    | PreferredUpdated(superevent: Superevent, previousPreferredGraceid: string)
    | Skipped(supereventId: string, event: GwEvent, reason: SkipReason)
    | SkymapAttached(superevent: Superevent)

  datatype Snapshot = Snapshot(window: real, superevents: map<real, Superevent>, times: map<real, string>, nextSeq: nat)

  function New(window: real): Snapshot {
    Snapshot(window, map[], map[], 0)
  }

  // ---------------------------------------------------------------- ids

  // `S{:06}`.
  function FormatId(n: nat): string {
    "S" + PadLeft(Digits(n), 6, '0')
  }

  // `strip_prefix('S')` followed by `parse::<u64>`.
  function IdNumber(id: string): Option<nat> {
    if id != "" && id[0] == 'S' then ParseU64(id[1..]) else None
  }

  lemma IdNumberOfFormat(n: nat)
    ensures IdNumber(FormatId(n)) == if n < U64_LIMIT then Some(n) else None
  {
    assert FormatId(n)[1..] == PadLeft(Digits(n), 6, '0');
    ParseOfZeroPadded(n, 6);
  }

  // Ids as they are written.
  lemma IdsInFull(n: nat)
    ensures FormatId(0) == "S000000" && FormatId(42) == "S000042"
    ensures |FormatId(n)| >= 7 && (|Digits(n)| >= 6 ==> FormatId(n) == "S" + Digits(n))
  {
    assert Digits(42) == Digits(4) + "2" == "42";
    assert Repeat('0', 5) == "00000" && Repeat('0', 4) == "0000";
  }

  // An id has a number exactly when it is S and a numeral.
  lemma IdNumberIff(id: string, n: nat)
    ensures IdNumber(id) == Some(n) <==>
              exists digits: string :: id != "" && id[0] == 'S' && IsNumeralText(id[1..], digits, n)
  {
    hide ParseU64, IsNumeralText;
    if id != "" { ParsesIff(id[1..], n); }
  }

  lemma FormatIdInjective(m: nat, n: nat)
    requires FormatId(m) == FormatId(n)
    ensures m == n
  {
    assert FormatId(m)[1..] == PadLeft(Digits(m), 6, '0');
    assert FormatId(n)[1..] == PadLeft(Digits(n), 6, '0');
    ValueOfZeroPadded(m, 6);
    ValueOfZeroPadded(n, 6);
  }

  // ------------------------------------------------------ nearest window

  function Dist(a: real, b: real): real {
    if a < b then b - a else a - b
  }

  /** k is the centre an event at t belongs to: within half a window, no other
      centre is closer, and of two equally close ones it is the earlier. */
  ghost predicate IsNearest(keys: set<real>, half: real, t: real, k: real) {
    && k in keys && Dist(t, k) <= half
    && forall j :: j in keys ==> Dist(t, k) < Dist(t, j) || (Dist(t, k) == Dist(t, j) && k <= j)
  }

  lemma {:induction false} NearestExists(keys: set<real>, half: real, t: real, k0: real)
    requires k0 in keys && Dist(t, k0) <= half
    ensures exists k :: IsNearest(keys, half, t, k)
    decreases keys
  {
    var others := keys - {k0};
    assert forall i :: i in keys ==> i == k0 || i in others;
    if j0 :| j0 in others && Dist(t, j0) <= half {
      NearestExists(others, half, t, j0);
      var j :| IsNearest(others, half, t, j);
      if Dist(t, j) < Dist(t, k0) || (Dist(t, j) == Dist(t, k0) && j <= k0) {
        assert IsNearest(keys, half, t, j);
      } else {
        assert IsNearest(keys, half, t, k0);
      }
    } else {
      assert IsNearest(keys, half, t, k0);
    }
  }

  ghost function Nearest(keys: set<real>, half: real, t: real): (r: Option<real>)
    ensures r.Some? ==> r.value in keys && Dist(t, r.value) <= half && IsNearest(keys, half, t, r.value)
    ensures r.None? <==> forall k :: k in keys ==> Dist(t, k) > half
  {
    if k0 :| k0 in keys && Dist(t, k0) <= half then
      NearestExists(keys, half, t, k0);
      var n :| IsNearest(keys, half, t, n);
      Some(n)
    else None
  }

  lemma NearestIsUnique(keys: set<real>, half: real, t: real, k: real)
    requires IsNearest(keys, half, t, k)
    ensures Nearest(keys, half, t) == Some(k)
  {
    assert k in keys && Dist(t, k) <= half;
    var n := Nearest(keys, half, t).value;
    assert n in keys;
  }

  // The better of the two centres around t, of those whose window holds t.
  function Closer(half: real, t: real, before: Option<real>, after: Option<real>): Option<real> {
    var b := if before.Some? && Dist(t, before.value) <= half then before else None;
    var a := if after.Some? && Dist(t, after.value) <= half then after else None;
    if b.None? then a else if a.None? then b else if Dist(t, a.value) < Dist(t, b.value) then a else b
  }

  /** Bisection is enough: the greatest key below t and the least key at or
      above it decide the nearest of all keys. */
  lemma NeighboursSuffice(keys: set<real>, half: real, t: real, before: Option<real>, after: Option<real>)
    requires before.Some? ==> before.value in keys && before.value < t
    requires forall k :: k in keys && k < t ==> before.Some? && k <= before.value
    requires after.Some? ==> after.value in keys && t <= after.value
    requires forall k :: k in keys && t <= k ==> after.Some? && after.value <= k
    ensures Nearest(keys, half, t) == Closer(half, t, before, after)
  {
    var r := Closer(half, t, before, after);
    if r.Some? {
      assert IsNearest(keys, half, t, r.value);
      NearestIsUnique(keys, half, t, r.value);
    }
  }

  // ---------------------------------------------------------- operations

  // An event lands in an open window.
  function Join(s: Superevent, e: GwEvent): Superevent {
    if e.snr > s.preferredEvent.snr
    then s.(preferredEvent := e, gEvents := s.gEvents + [e])
    else s.(gEvents := s.gEvents + [e])
  }

  // An event opens a window.
  function Open(window: real, id: string, e: GwEvent): Superevent {
    Superevent(id, e.endTime, e.endTime - window / 2.0, e.endTime + window / 2.0, e, [e], None)
  }

  ghost function Target(c: Snapshot, t: real): Option<real> {
    Nearest(c.times.Keys, c.window / 2.0, t)
  }

  function Joined(c: Snapshot, k: real, e: GwEvent): Snapshot
    requires k in c.superevents
  {
    c.(superevents := c.superevents[k := Join(c.superevents[k], e)])
  }

  function Opened(c: Snapshot, e: GwEvent): Snapshot {
    var id := FormatId(c.nextSeq);
    Snapshot(c.window, c.superevents[e.endTime := Open(c.window, id, e)], c.times[e.endTime := id], c.nextSeq + 1)
  }

  ghost function Process(c: Snapshot, e: GwEvent): (d: Snapshot)
    requires c.times.Keys <= c.superevents.Keys
    ensures d.times.Keys <= d.superevents.Keys
  {
    match Target(c, e.endTime)
    case Some(k) => Joined(c, k, e)
    case None => Opened(c, e)
  }

  ghost function ProcessUpdate(c: Snapshot, e: GwEvent): SupereventUpdate
    requires c.times.Keys <= c.superevents.Keys
  {
    match Target(c, e.endTime)
    case Some(k) =>
      var s := c.superevents[k];
      if e.snr > s.preferredEvent.snr
      then PreferredUpdated(Join(s, e), s.preferredEvent.graceid)
      else Skipped(s.id, e, LowerSnr)
    case None => Created(Open(c.window, FormatId(c.nextSeq), e))
  }

  // Centre of the open window with this id, if there is one.
  ghost function KeyOf(c: Snapshot, id: string): (r: Option<real>)
    ensures r.Some? ==> r.value in c.times && c.times[r.value] == id
    ensures r.None? <==> id !in c.times.Values
  {
    if k :| k in c.times && c.times[k] == id then Some(k) else None
  }

  ghost function Attach(c: Snapshot, id: string, sky: SkyMapFits): Snapshot
    requires c.times.Keys <= c.superevents.Keys
  {
    match KeyOf(c, id)
    case Some(k) => c.(superevents := c.superevents[k := c.superevents[k].(skymap := Some(sky))])
    case None => c
  }

  ghost function AttachUpdate(c: Snapshot, id: string, sky: SkyMapFits): Option<SupereventUpdate>
    requires c.times.Keys <= c.superevents.Keys
  {
    match KeyOf(c, id)
    case Some(k) => Some(SkymapAttached(c.superevents[k].(skymap := Some(sky))))
    case None => None
  }

  // Rebuild from a list: each superevent is filed under its own centre.
  function InsertAll(c: Snapshot, list: seq<Superevent>): Snapshot {
    if list == [] then c
    else
      var d := InsertAll(c, list[..|list| - 1]);
      var s := list[|list| - 1];
      d.(superevents := d.superevents[s.t0 := s], times := d.times[s.t0 := s.id])
  }

  // Centres of the windows that end before the cutoff.
  function Expired(c: Snapshot, cutoff: real): set<real> {
    set k | k in c.superevents && c.superevents[k].tEnd < cutoff
  }

  function Cleanup(c: Snapshot, cutoff: real): Snapshot {
    c.(superevents := c.superevents - Expired(c, cutoff), times := c.times - Expired(c, cutoff))
  }

  // ----------------------------------------------------------- invariant

  /** p is the member with the greatest SNR, the earliest to arrive among
      equals; gEvents is in arrival order. */
  ghost predicate IsPreferred(members: seq<GwEvent>, p: GwEvent) {
    exists i :: 0 <= i < |members| && FirstLoudest(members, i) && members[i] == p
  }

  ghost predicate FirstLoudest(members: seq<GwEvent>, i: nat)
    requires i < |members|
  {
    && (forall j :: 0 <= j < i ==> members[j].snr < members[i].snr)
    && (forall j :: i <= j < |members| ==> members[j].snr <= members[i].snr)
  }

  ghost predicate GoodWindow(window: real, k: real, s: Superevent) {
    && s.t0 == k && s.tStart == k - window / 2.0 && s.tEnd == k + window / 2.0
    && IsPreferred(s.gEvents, s.preferredEvent)
    && forall i :: 0 <= i < |s.gEvents| ==> s.tStart <= s.gEvents[i].endTime <= s.tEnd
  }

  ghost predicate Issued(id: string, n: nat) {
    exists m: nat :: m < n && id == FormatId(m)
  }

  // Open centres are pairwise more than half a window apart.
  ghost predicate Separated(keys: set<real>, half: real) {
    forall j, k :: j in keys && k in keys && j != k ==> Dist(j, k) > half
  }

  // Both maps have the same centres, under the same ids.
  ghost predicate Indexed(c: Snapshot) {
    && c.times.Keys == c.superevents.Keys
    && forall k :: k in c.times ==> c.superevents[k].id == c.times[k]
  }

  ghost predicate GoodWindows(window: real, superevents: map<real, Superevent>) {
    forall k :: k in superevents ==> GoodWindow(window, k, superevents[k])
  }

  ghost predicate AllIssued(times: map<real, string>, n: nat) {
    forall k :: k in times ==> Issued(times[k], n)
  }

  ghost predicate DistinctIds(times: map<real, string>) {
    forall j, k :: j in times && k in times && times[j] == times[k] ==> j == k
  }

  ghost predicate Valid(c: Snapshot) {
    && c.window >= 0.0 && Indexed(c)
    && GoodWindows(c.window, c.superevents)
    && AllIssued(c.times, c.nextSeq) && DistinctIds(c.times)
    && Separated(c.times.Keys, c.window / 2.0)
  }

  // The facts most steps need, without the rest of the invariant.
  lemma ValidIsIndexed(c: Snapshot)
    requires Valid(c)
    ensures c.times.Keys == c.superevents.Keys && c.window >= 0.0
    ensures forall k :: k in c.times ==> c.superevents[k].id == c.times[k] && c.superevents[k].t0 == k
    ensures forall j, k :: j in c.times && k in c.times && c.times[j] == c.times[k] ==> j == k
  {
    hide AllIssued, Separated, IsPreferred;
    assert forall k :: k in c.superevents ==> GoodWindow(c.window, k, c.superevents[k]);
  }

  lemma NewIsValid(window: real)
    requires window >= 0.0
    ensures Valid(New(window))
  {
  }

  lemma JoinKeepsGoodWindow(window: real, k: real, s: Superevent, e: GwEvent)
    requires GoodWindow(window, k, s) && Dist(e.endTime, k) <= window / 2.0
    ensures GoodWindow(window, k, Join(s, e))
  {
    hide FirstLoudest;
    JoinKeepsPreferred(s, e);
    assert forall i :: 0 <= i < |s.gEvents| ==> Join(s, e).gEvents[i] == s.gEvents[i];
  }

  lemma JoinKeepsPreferred(s: Superevent, e: GwEvent)
    requires IsPreferred(s.gEvents, s.preferredEvent)
    ensures IsPreferred(Join(s, e).gEvents, Join(s, e).preferredEvent)
  {
    var i :| 0 <= i < |s.gEvents| && FirstLoudest(s.gEvents, i) && s.gEvents[i] == s.preferredEvent;
    var members := s.gEvents + [e];
    assert members[|s.gEvents|] == e;
    if e.snr > s.preferredEvent.snr {
      assert FirstLoudest(members, |s.gEvents|);
    } else {
      assert FirstLoudest(members, i);
    }
  }

  lemma OpenIsGoodWindow(window: real, id: string, e: GwEvent)
    requires window >= 0.0
    ensures GoodWindow(window, e.endTime, Open(window, id, e))
  {
    assert FirstLoudest(Open(window, id, e).gEvents, 0);
  }

  lemma IssuedGrows(id: string, n: nat)
    requires Issued(id, n)
    ensures Issued(id, n + 1) && id != FormatId(n)
  {
    hide FormatId;
    var m: nat :| m < n && id == FormatId(m);
    if id == FormatId(n) { FormatIdInjective(m, n); }
  }

  lemma OpenedIdsStayDistinct(c: Snapshot, e: GwEvent)
    requires AllIssued(c.times, c.nextSeq) && DistinctIds(c.times)
    ensures AllIssued(Opened(c, e).times, c.nextSeq + 1) && DistinctIds(Opened(c, e).times)
  {
    hide FormatId, Issued;
    var d := Opened(c, e);
    forall k | k in c.times
      ensures Issued(c.times[k], c.nextSeq + 1) && c.times[k] != FormatId(c.nextSeq)
    {
      IssuedGrows(c.times[k], c.nextSeq);
    }
    NewestIsIssued(c.nextSeq);
  }

  lemma NewestIsIssued(n: nat)
    ensures Issued(FormatId(n), n + 1)
  {
    hide FormatId;
  }

  lemma SeparatedInsert(keys: set<real>, half: real, t: real)
    requires Separated(keys, half) && forall k :: k in keys ==> Dist(t, k) > half
    ensures Separated(keys + {t}, half)
  {
    assert forall k :: k in keys ==> Dist(k, t) == Dist(t, k);
  }

  lemma SeparatedSubset(keys: set<real>, some: set<real>, half: real)
    requires Separated(keys, half) && some <= keys
    ensures Separated(some, half)
  {
    hide Dist;
  }

  // One window put under a centre.
  lemma GoodWindowsUpdate(window: real, m: map<real, Superevent>, k: real, s: Superevent)
    requires GoodWindows(window, m) && GoodWindow(window, k, s)
    ensures GoodWindows(window, m[k := s])
  {
    hide GoodWindow;
  }

  lemma OpenedKeepsValid(c: Snapshot, e: GwEvent)
    requires Valid(c) && forall k :: k in c.times ==> Dist(e.endTime, k) > c.window / 2.0
    ensures Valid(Opened(c, e))
  {
    hide GoodWindows, GoodWindow, AllIssued, DistinctIds, Separated, Dist, FormatId;
    OpenedIdsStayDistinct(c, e);
    OpenIsGoodWindow(c.window, FormatId(c.nextSeq), e);
    GoodWindowsUpdate(c.window, c.superevents, e.endTime, Open(c.window, FormatId(c.nextSeq), e));
    SeparatedInsert(c.times.Keys, c.window / 2.0, e.endTime);
    assert Opened(c, e).times.Keys == c.times.Keys + {e.endTime};
  }

  // Changing what one window holds, not its name.
  lemma ReplacedKeepsValid(c: Snapshot, k: real, s: Superevent)
    requires Valid(c) && k in c.superevents && s.id == c.superevents[k].id && GoodWindow(c.window, k, s)
    ensures Valid(c.(superevents := c.superevents[k := s]))
  {
    hide GoodWindows, GoodWindow, AllIssued, DistinctIds, Separated;
    GoodWindowsUpdate(c.window, c.superevents, k, s);
    assert c.superevents[k := s].Keys == c.superevents.Keys;
  }

  lemma GoodWindowAt(c: Snapshot, k: real)
    requires Valid(c) && k in c.superevents
    ensures GoodWindow(c.window, k, c.superevents[k])
  {
    hide GoodWindow, AllIssued, DistinctIds, Separated;
  }

  lemma ProcessKeepsValid(c: Snapshot, e: GwEvent)
    requires Valid(c)
    ensures Valid(Process(c, e))
  {
    hide Valid, IsNearest, FormatId, GoodWindow;
    ValidIsIndexed(c);
    match Target(c, e.endTime)
    case Some(k) =>
      GoodWindowAt(c, k);
      JoinKeepsGoodWindow(c.window, k, c.superevents[k], e);
      ReplacedKeepsValid(c, k, Join(c.superevents[k], e));
    case None => OpenedKeepsValid(c, e);
  }

  lemma AttachKeepsValid(c: Snapshot, id: string, sky: SkyMapFits)
    requires Valid(c)
    ensures Valid(Attach(c, id, sky))
  {
    hide Valid, GoodWindow;
    ValidIsIndexed(c);
    match KeyOf(c, id)
    case Some(k) =>
      GoodWindowAt(c, k);
      var s := c.superevents[k];
      SkymapKeepsGoodWindow(c.window, k, s, sky);
      ReplacedKeepsValid(c, k, s.(skymap := Some(sky)));
    case None =>
  }

  lemma SkymapKeepsGoodWindow(window: real, k: real, s: Superevent, sky: SkyMapFits)
    requires GoodWindow(window, k, s)
    ensures GoodWindow(window, k, s.(skymap := Some(sky)))
  {
    hide IsPreferred;
  }

  /** A window stays open exactly until the cutoff passes its end. */
  lemma StaysOpenIff(c: Snapshot, cutoff: real, k: real)
    requires Valid(c) && k in c.times
    ensures
      var d := Cleanup(c, cutoff);
      && (k in d.times <==> cutoff <= k + c.window / 2.0) && (k in d.superevents <==> k in d.times)
      && (k in d.times ==> k in c.superevents && d.superevents[k] == c.superevents[k] && d.times[k] == c.times[k])
      && d.times.Keys <= c.times.Keys && d.nextSeq == c.nextSeq && d.window == c.window
  {
    hide AllIssued, DistinctIds, Separated, IsPreferred;
    assert k in c.superevents && GoodWindow(c.window, k, c.superevents[k]);
  }

  lemma CleanupKeepsValid(c: Snapshot, cutoff: real)
    requires Valid(c)
    ensures Valid(Cleanup(c, cutoff))
  {
    hide GoodWindow, Issued, Separated, Expired;
    var d := Cleanup(c, cutoff);
    SeparatedSubset(c.times.Keys, d.times.Keys, c.window / 2.0);
  }

  // No time lies in three windows.
  lemma AtMostTwoWindows(c: Snapshot, t: real, i: real, j: real, k: real)
    requires Valid(c) && i in c.times && j in c.times && k in c.times
    requires Dist(t, i) <= c.window / 2.0 && Dist(t, j) <= c.window / 2.0 && Dist(t, k) <= c.window / 2.0
    ensures i == j || j == k || i == k
  {
    hide Indexed, GoodWindows, AllIssued, DistinctIds;
    var half := c.window / 2.0;
    assert i != j ==> Dist(i, j) > half;
    assert j != k ==> Dist(j, k) > half;
    assert i != k ==> Dist(i, k) > half;
  }

  // The last superevent listed for a centre is the one filed there.
  lemma {:induction false} InsertAllKeepsLast(c: Snapshot, list: seq<Superevent>, i: nat)
    requires i < |list| && forall j :: i < j < |list| ==> list[j].t0 != list[i].t0
    ensures
      var d := InsertAll(c, list);
      && list[i].t0 in d.superevents && d.superevents[list[i].t0] == list[i]
      && list[i].t0 in d.times && d.times[list[i].t0] == list[i].id
      && d.nextSeq == c.nextSeq && d.window == c.window
  {
    if i == |list| - 1 {
      CounterKept(c, list);
    } else {
      InsertAllKeepsLast(c, list[..|list| - 1], i);
    }
  }

  lemma {:induction false} CounterKept(c: Snapshot, list: seq<Superevent>)
    ensures InsertAll(c, list).nextSeq == c.nextSeq && InsertAll(c, list).window == c.window
  {
    if list == [] {
    } else {
      CounterKept(c, list[..|list| - 1]);
    }
  }
}
