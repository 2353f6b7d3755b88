/** The stateful clusterer.  Each method is proved to change the snapshot it
    holds exactly as the functions of module Clustering say. */
module Creator {
  import opened Wrappers
  import opened Decimal
  import opened Clustering
  import opened OrderedTimes

  class SupereventCreator {
    const windowDuration: real
    var superevents: map<real, Superevent>
    var times: map<real, string>
    var nextSeq: nat

    ghost function State(): Snapshot
      reads this
    {
      Snapshot(windowDuration, superevents, times, nextSeq)
    }

    ghost predicate Valid()
      reads this
    {
      Clustering.Valid(State())
    }

    constructor (window: real)
      ensures State() == New(window)
    {
      windowDuration, superevents, times, nextSeq := window, map[], map[], 0;
    }

    constructor FromPersisted(window: real, persisted: seq<Superevent>, next: nat)
      ensures State() == InsertAll(New(window), persisted).(nextSeq := next)
    {
      windowDuration, superevents, times, nextSeq := window, map[], map[], 0;
      new;
      for i := 0 to |persisted|
        invariant State() == InsertAll(New(window), persisted[..i])
      {
        assert persisted[..i + 1][..i] == persisted[..i];
        times := times[persisted[i].t0 := persisted[i].id];
        superevents := superevents[persisted[i].t0 := persisted[i]];
      }
      assert persisted[..|persisted|] == persisted;
      nextSeq := next;
    }

    // Looks only at the two centres around t, yet finds the nearest of all.
    method FindClosestT0(t: real) returns (r: Option<real>)
      ensures r == Nearest(times.Keys, windowDuration / 2.0, t)
    {
      if times == map[] { return None; }
      var before := LastBefore(times.Keys, t);
      var after := FirstFrom(times.Keys, t);
      var half := windowDuration / 2.0;
      var candidates: seq<real> := [];
      if before.Some? && Dist(t, before.value) <= half { candidates := candidates + [before.value]; }
      if after.Some? && Dist(t, after.value) <= half { candidates := candidates + [after.value]; }
      NeighboursSuffice(times.Keys, half, t, before, after);
      r := if |candidates| == 0 then None
           else if |candidates| == 2 && Dist(t, candidates[1]) < Dist(t, candidates[0]) then Some(candidates[1])
           else Some(candidates[0]);
    }

    method AllocateId() returns (id: string)
      requires nextSeq + 1 < U64_LIMIT
      modifies this`nextSeq
      ensures id == FormatId(old(nextSeq)) && nextSeq == old(nextSeq) + 1
    {
      id := FormatId(nextSeq);
      nextSeq := nextSeq + 1;
    }

    method Process(event: GwEvent) returns (update: SupereventUpdate)
      requires Valid() && nextSeq + 1 < U64_LIMIT
      modifies this
      ensures Valid() && State() == Clustering.Process(old(State()), event)
      ensures update == ProcessUpdate(old(State()), event)
    {
      hide Clustering.Valid, Nearest, IsNearest, FormatId;
      ghost var before := State();
      ValidIsIndexed(before);
      ghost var expected := Clustering.Process(before, event);
      ProcessKeepsValid(before, event);
      var closest := FindClosestT0(event.endTime);
      match closest
      case Some(t0) =>
        assert expected == Joined(before, t0, event);
        var s := superevents[t0];
        if event.snr > s.preferredEvent.snr {
          var previous := s.preferredEvent.graceid;
          s := s.(preferredEvent := event, gEvents := s.gEvents + [event]);
          update := PreferredUpdated(s, previous);
        } else {
          s := s.(gEvents := s.gEvents + [event]);
          update := Skipped(s.id, event, LowerSnr);
        }
        superevents := superevents[t0 := s];
      case None =>
        assert expected == Opened(before, event);
        var half := windowDuration / 2.0;
        var id := AllocateId();
        var t0 := event.endTime;
        var s := Superevent(id, t0, t0 - half, t0 + half, event, [event], None);
        times := times[t0 := id];
        superevents := superevents[t0 := s];
        update := Created(s);
    }

    method AttachSkymap(id: string, sky: SkyMapFits) returns (update: Option<SupereventUpdate>)
      requires Valid()
      modifies this`superevents
      ensures Valid() && State() == Attach(old(State()), id, sky)
      ensures update == AttachUpdate(old(State()), id, sky)
    {
      hide Clustering.Valid;
      ValidIsIndexed(State());
      AttachKeepsValid(State(), id, sky);
      var keys := Ascending(times.Keys);
      update := None;
      for i := 0 to |keys|
        invariant State() == old(State()) && update.None?
        invariant forall j :: 0 <= j < i ==> times[keys[j]] != id
      {
        if times[keys[i]] == id {
          assert KeyOf(State(), id) == Some(keys[i]);
          var s := superevents[keys[i]].(skymap := Some(sky));
          superevents := superevents[keys[i] := s];
          return Some(SkymapAttached(s));
        }
      }
      assert KeyOf(State(), id).None?;
    }

    // The dropped superevents come back ordered by window centre.
    method CleanupBefore(cutoff: real) returns (removed: seq<Superevent>)
      requires Valid()
      modifies this`superevents, this`times
      ensures Valid() && State() == Cleanup(old(State()), cutoff)
      ensures IsRemoval(old(State()), cutoff, removed)
    {
      hide Clustering.Valid, IsRemoval, StrictlyAscending, Taken;
      ghost var before := State();
      CleanupKeepsValid(before, cutoff);
      ValidIsIndexed(before);
      var keys := Ascending(set k | k in superevents && superevents[k].tEnd < cutoff);
      NothingTaken(before, keys);
      removed := [];
      for i := 0 to |keys|
        invariant superevents == before.superevents - Taken(keys, i) && times == before.times - Taken(keys, i)
        invariant nextSeq == before.nextSeq && removed == WindowsAt(before.superevents, keys[..i])
      {
        TakeOne(before, keys, i);
        times := times - {keys[i]};
        removed := removed + [superevents[keys[i]]];
        superevents := superevents - {keys[i]};
      }
      AllTaken(before, cutoff, keys);
      RemovalOf(before, cutoff, keys);
    }
  }

  ghost function Taken(keys: seq<real>, n: nat): set<real>
    requires n <= |keys|
  {
    set i | 0 <= i < n :: keys[i]
  }

  // The open windows at these centres, in this order.
  ghost function WindowsAt(m: map<real, Superevent>, keys: seq<real>): (w: seq<Superevent>)
    requires forall i :: 0 <= i < |keys| ==> keys[i] in m
    ensures |w| == |keys| && forall i :: 0 <= i < |keys| ==> w[i] == m[keys[i]]
  {
    seq(|keys|, i requires 0 <= i < |keys| => m[keys[i]])
  }

  lemma NothingTaken(c: Snapshot, keys: seq<real>)
    ensures c.superevents - Taken(keys, 0) == c.superevents && c.times - Taken(keys, 0) == c.times
  {
  }

  lemma TakeOne(c: Snapshot, keys: seq<real>, i: nat)
    requires i < |keys| && StrictlyAscending(keys) && forall n :: 0 <= n < |keys| ==> keys[n] in c.superevents
    ensures keys[i] !in Taken(keys, i)
    ensures c.superevents - Taken(keys, i) - {keys[i]} == c.superevents - Taken(keys, i + 1)
    ensures c.times - Taken(keys, i) - {keys[i]} == c.times - Taken(keys, i + 1)
    ensures WindowsAt(c.superevents, keys[..i + 1]) == WindowsAt(c.superevents, keys[..i]) + [c.superevents[keys[i]]]
  {
    assert Taken(keys, i + 1) == Taken(keys, i) + {keys[i]};
  }

  lemma AllTaken(c: Snapshot, cutoff: real, keys: seq<real>)
    requires forall k :: k in keys <==> k in c.superevents && c.superevents[k].tEnd < cutoff
    ensures Taken(keys, |keys|) == Expired(c, cutoff)
  {
    forall k | k in Expired(c, cutoff) ensures k in Taken(keys, |keys|) {
      assert k in keys;
      var i :| 0 <= i < |keys| && keys[i] == k;
    }
    forall k | k in Taken(keys, |keys|) ensures k in Expired(c, cutoff) {
      var i :| 0 <= i < |keys| && keys[i] == k;
      assert keys[i] in keys;
    }
  }

  lemma RemovalOf(c: Snapshot, cutoff: real, keys: seq<real>)
    requires StrictlyAscending(keys) && forall i :: 0 <= i < |keys| ==> keys[i] in c.superevents
    requires forall k :: k in keys <==> k in c.superevents && c.superevents[k].tEnd < cutoff
    requires forall k :: k in c.superevents ==> c.superevents[k].t0 == k
    ensures keys[..|keys|] == keys && IsRemoval(c, cutoff, WindowsAt(c.superevents, keys))
  {
    var w := WindowsAt(c.superevents, keys);
    forall s | s in w ensures exists k :: k in Expired(c, cutoff) && s == c.superevents[k] {
      var i :| 0 <= i < |w| && w[i] == s;
      assert keys[i] in Expired(c, cutoff);
    }
    forall k | k in Expired(c, cutoff) ensures c.superevents[k] in w {
      var i :| 0 <= i < |keys| && keys[i] == k;
      assert w[i] == c.superevents[k];
    }
  }

  // What CleanupBefore returns from a state: the expired windows, by centre.
  ghost predicate IsRemoval(c: Snapshot, cutoff: real, removed: seq<Superevent>) {
    && (forall i, j :: 0 <= i < j < |removed| ==> removed[i].t0 < removed[j].t0)
    && (forall s :: s in removed <==> exists k :: k in Expired(c, cutoff) && s == c.superevents[k])
  }

  // Ids number the windows in the order they were opened.
  lemma NewestHasGreatestNumber(c: Snapshot, e: GwEvent, k: real)
    requires Clustering.Valid(c) && c.nextSeq < U64_LIMIT && Target(c, e.endTime).None? && k in c.times
    ensures
      var id := Clustering.Process(c, e).times[e.endTime];
      && IdNumber(c.times[k]).Some? && IdNumber(id).Some?
      && IdNumber(c.times[k]).value < IdNumber(id).value
  {
    hide FormatId, IdNumber, GoodWindows, Separated, Nearest, IsNearest, DistinctIds;
    assert Issued(c.times[k], c.nextSeq);
    var m: nat :| m < c.nextSeq && c.times[k] == FormatId(m);
    IdNumberOfFormat(m);
    IdNumberOfFormat(c.nextSeq);
  }

  // Opened earlier, by id.
  predicate OpenedBefore(a: Superevent, b: Superevent) {
    && IdNumber(a.id).Some? && IdNumber(b.id).Some?
    && IdNumber(a.id).value < IdNumber(b.id).value
  }

  /** The returned superevents are in order of arrival if and only if the windows
      about to expire were opened in the order of their centres. */
  lemma RemovalIsInArrivalOrderIff(c: Snapshot, cutoff: real, removed: seq<Superevent>)
    requires Clustering.Valid(c) && IsRemoval(c, cutoff, removed)
    ensures
      (forall i, j :: 0 <= i < j < |removed| ==> OpenedBefore(removed[i], removed[j]))
      <==> (forall j, k :: j in Expired(c, cutoff) && k in Expired(c, cutoff) && j < k ==>
              OpenedBefore(c.superevents[j], c.superevents[k]))
  {
    hide Clustering.Valid, OpenedBefore, Expired;
    ValidIsIndexed(c);
    ExpiredAreOpen(c, cutoff);
    if forall i, j :: 0 <= i < j < |removed| ==> OpenedBefore(removed[i], removed[j]) {
      forall j, k | j in Expired(c, cutoff) && k in Expired(c, cutoff) && j < k
        ensures OpenedBefore(c.superevents[j], c.superevents[k])
      {
        assert c.superevents[j] in removed && c.superevents[k] in removed;
        var m :| 0 <= m < |removed| && removed[m] == c.superevents[j];
        var n :| 0 <= n < |removed| && removed[n] == c.superevents[k];
        assert m < n;
      }
    }
    if forall j, k :: j in Expired(c, cutoff) && k in Expired(c, cutoff) && j < k ==>
          OpenedBefore(c.superevents[j], c.superevents[k]) {
      forall m, n | 0 <= m < n < |removed| ensures OpenedBefore(removed[m], removed[n]) {
        assert removed[m] in removed && removed[n] in removed;
        var j :| j in Expired(c, cutoff) && removed[m] == c.superevents[j];
        var k :| k in Expired(c, cutoff) && removed[n] == c.superevents[k];
      }
    }
  }

  lemma ExpiredAreOpen(c: Snapshot, cutoff: real)
    ensures forall k :: k in Expired(c, cutoff) ==> k in c.superevents
  {
  }

  lemma {:induction false} StepsOfFifty(removed: seq<Superevent>, n: nat)
    requires n < |removed| && forall i :: 0 <= i < |removed| ==> removed[i].t0 == 50.0 || removed[i].t0 == 100.0
    requires forall i, j :: 0 <= i < j < |removed| ==> removed[i].t0 < removed[j].t0
    ensures removed[n].t0 >= 50.0 * (n + 1) as real
  {
    if n == 0 {
    } else {
      StepsOfFifty(removed, n - 1);
      assert removed[n - 1].t0 < removed[n].t0;
    }
  }

  /** The order does differ: a superevent at time 100, then one at time 50, then a
      cleanup past both gives back the later arrival first. */
  lemma RemovalOutOfArrivalOrder(late: GwEvent, early: GwEvent, cutoff: real, removed: seq<Superevent>)
    requires late.endTime == 100.0 && early.endTime == 50.0 && cutoff > 102.5
    requires var c := Opened(Opened(New(5.0), late), early); IsRemoval(c, cutoff, removed)
    ensures
      var c := Clustering.Process(New(5.0), late);
      Clustering.Valid(c) && Clustering.Process(c, early) == Opened(Opened(New(5.0), late), early)
    ensures |removed| == 2 && removed[0].id == FormatId(1) && removed[1].id == FormatId(0)
    ensures OpenedBefore(removed[1], removed[0])
  {
    hide FormatId, IdNumber, Clustering.Valid;
    NewIsValid(5.0);
    ProcessKeepsValid(New(5.0), late);
    var c := Opened(Opened(New(5.0), late), early);
    assert Expired(c, cutoff) == {50.0, 100.0};
    IdNumberOfFormat(0);
    IdNumberOfFormat(1);
    assert c.superevents[50.0] in removed && c.superevents[100.0] in removed;
    forall i | 0 <= i < |removed| ensures removed[i].t0 == 50.0 || removed[i].t0 == 100.0 {
      assert removed[i] in removed;
    }
    var m :| 0 <= m < |removed| && removed[m] == c.superevents[50.0];
    var n :| 0 <= n < |removed| && removed[n] == c.superevents[100.0];
    assert m < n;
    StepsOfFifty(removed, |removed| - 1);
  }

  datatype EventAssignment = EventAssignment(supereventId: string, isPreferred: bool)

  function Assignment(s: Superevent, e: GwEvent): EventAssignment {
    EventAssignment(s.id, e.graceid == s.preferredEvent.graceid)
  }

  // No two recorded events share a graceid.
  ghost predicate DistinctGraceids(windows: map<real, Superevent>) {
    forall j, k, a, b ::
      (&& j in windows && k in windows
       && 0 <= a < |windows[j].gEvents| && 0 <= b < |windows[k].gEvents|
       && windows[j].gEvents[a].graceid == windows[k].gEvents[b].graceid)
      ==> j == k && a == b
  }

  // The first n members of s are listed, with their own assignment if exact.
  ghost predicate Recorded(out: map<string, EventAssignment>, s: Superevent, n: nat, exact: bool)
    requires n <= |s.gEvents|
  {
    forall i :: 0 <= i < n ==>
      s.gEvents[i].graceid in out && (exact ==> out[s.gEvents[i].graceid] == Assignment(s, s.gEvents[i]))
  }

  ghost predicate IsOpenGraceid(windows: map<real, Superevent>, g: string) {
    exists k, i :: k in windows && 0 <= i < |windows[k].gEvents| && windows[k].gEvents[i].graceid == g
  }

  // Only open graceids are listed.
  ghost predicate OnlyOpen(out: map<string, EventAssignment>, windows: map<real, Superevent>) {
    forall g :: g in out ==> IsOpenGraceid(windows, g)
  }

  // Listing event i of window k leaves what is recorded of other events.
  lemma RecordKeeps(out: map<string, EventAssignment>, windows: map<real, Superevent>, j: real, n: nat, k: real, i: nat)
    requires j in windows && k in windows && n <= |windows[j].gEvents| && i < |windows[k].gEvents|
    requires (j != k || n <= i) && Recorded(out, windows[j], n, DistinctGraceids(windows))
    ensures
      var e := windows[k].gEvents[i];
      Recorded(out[e.graceid := Assignment(windows[k], e)], windows[j], n, DistinctGraceids(windows))
  {
    hide Assignment;
  }

  lemma RecordOne(out: map<string, EventAssignment>, windows: map<real, Superevent>, k: real, i: nat)
    requires k in windows && i < |windows[k].gEvents| && OnlyOpen(out, windows)
    requires Recorded(out, windows[k], i, DistinctGraceids(windows))
    ensures
      var e := windows[k].gEvents[i];
      var next := out[e.graceid := Assignment(windows[k], e)];
      Recorded(next, windows[k], i + 1, DistinctGraceids(windows)) && OnlyOpen(next, windows)
  {
    hide Assignment, DistinctGraceids;
    var e := windows[k].gEvents[i];
    RecordKeeps(out, windows, k, i, k, i);
    assert IsOpenGraceid(windows, e.graceid);
  }

  // The windows at the first n centres are fully recorded.
  ghost predicate FirstRecorded(out: map<string, EventAssignment>, windows: map<real, Superevent>, keys: seq<real>,
      n: nat)
    requires n <= |keys| && forall i :: 0 <= i < |keys| ==> keys[i] in windows
  {
    forall j :: 0 <= j < n ==>
      Recorded(out, windows[keys[j]], |windows[keys[j]].gEvents|, DistinctGraceids(windows))
  }

  lemma FirstRecordedKeeps(out: map<string, EventAssignment>, windows: map<real, Superevent>, keys: seq<real>, n: nat,
      i: nat)
    requires StrictlyAscending(keys) && forall i :: 0 <= i < |keys| ==> keys[i] in windows
    requires n < |keys| && i < |windows[keys[n]].gEvents| && FirstRecorded(out, windows, keys, n)
    ensures
      var e := windows[keys[n]].gEvents[i];
      FirstRecorded(out[e.graceid := Assignment(windows[keys[n]], e)], windows, keys, n)
  {
    hide Recorded, Assignment, DistinctGraceids;
    forall j | 0 <= j < n
      ensures
        var e := windows[keys[n]].gEvents[i];
        Recorded(out[e.graceid := Assignment(windows[keys[n]], e)], windows[keys[j]], |windows[keys[j]].gEvents|,
                 DistinctGraceids(windows))
    {
      RecordKeeps(out, windows, keys[j], |windows[keys[j]].gEvents|, keys[n], i);
    }
  }

  lemma NothingRecorded(windows: map<real, Superevent>, s: Superevent, out: map<string, EventAssignment>)
    ensures Recorded(out, s, 0, DistinctGraceids(windows)) && OnlyOpen(map[], windows)
  {
  }

  /** Exactly the open graceids are listed; when no two events share one, each
      with the id of the superevent that holds it and whether it is preferred. */
  method Summarize(creator: SupereventCreator) returns (out: map<string, EventAssignment>)
    ensures forall k :: k in creator.superevents ==>
      Recorded(out, creator.superevents[k], |creator.superevents[k].gEvents|, DistinctGraceids(creator.superevents))
    ensures forall g :: g in out ==> IsOpenGraceid(creator.superevents, g)
  {
    hide Recorded, DistinctGraceids, IsOpenGraceid, Assignment, StrictlyAscending;
    out := map[];
    var windows := creator.superevents;
    var keys := Ascending(windows.Keys);
    for i := 0 to |keys|
      invariant FirstRecorded(out, windows, keys, i) && OnlyOpen(out, windows)
    {
      hide FirstRecorded, OnlyOpen;
      var s := windows[keys[i]];
      NothingRecorded(windows, s, out);
      for n := 0 to |s.gEvents|
        invariant FirstRecorded(out, windows, keys, i) && OnlyOpen(out, windows)
        invariant Recorded(out, s, n, DistinctGraceids(windows))
      {
        FirstRecordedKeeps(out, windows, keys, i, n);
        RecordOne(out, windows, keys[i], n);
        var e := s.gEvents[n];
        out := out[e.graceid := Assignment(s, e)];
      }
      OneMoreRecorded(out, windows, keys, i);
    }
    forall k | k in windows
      ensures Recorded(out, windows[k], |windows[k].gEvents|, DistinctGraceids(windows))
    {
      assert k in keys;
      var j :| 0 <= j < |keys| && keys[j] == k;
    }
  }

  lemma OneMoreRecorded(out: map<string, EventAssignment>, windows: map<real, Superevent>, keys: seq<real>, n: nat)
    requires n < |keys| && (forall i :: 0 <= i < |keys| ==> keys[i] in windows) && FirstRecorded(out, windows, keys, n)
    requires Recorded(out, windows[keys[n]], |windows[keys[n]].gEvents|, DistinctGraceids(windows))
    ensures FirstRecorded(out, windows, keys, n + 1)
  {
    hide Recorded, DistinctGraceids;
  }

  /** Each superevent has exactly one graceid marked preferred in such a
      summary, and it is that of its preferred event. */
  lemma OnePreferredEach(c: Snapshot, out: map<string, EventAssignment>, k: real, g: string)
    requires Clustering.Valid(c) && k in c.superevents && g in out && IsOpenGraceid(c.superevents, g)
    requires forall j :: j in c.superevents ==> Recorded(out, c.superevents[j], |c.superevents[j].gEvents|, true)
    ensures
      var s := c.superevents[k];
      && s.preferredEvent.graceid in out
      && (forall i :: 0 <= i < |s.gEvents| ==>
            s.gEvents[i].graceid in out && out[s.gEvents[i].graceid].supereventId == c.times[k])
      && (out[g] == EventAssignment(s.id, true) <==> g == s.preferredEvent.graceid)
  {
    hide Separated, Issued;
    var s := c.superevents[k];
    assert GoodWindow(c.window, k, s) && IsPreferred(s.gEvents, s.preferredEvent);
    var p :| 0 <= p < |s.gEvents| && FirstLoudest(s.gEvents, p) && s.gEvents[p] == s.preferredEvent;
    var j, i :| j in c.superevents && 0 <= i < |c.superevents[j].gEvents| && c.superevents[j].gEvents[i].graceid == g;
    assert Recorded(out, s, |s.gEvents|, true) && Recorded(out, c.superevents[j], |c.superevents[j].gEvents|, true);
    assert c.superevents[j].id == c.times[j] && s.id == c.times[k];
  }
}
