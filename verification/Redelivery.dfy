/** Events handed in more than once.  The consumer stores no offsets, so a restart
    may redeliver any part of the stream, or all of it. */
module Redelivery {
  import opened Wrappers
  import opened Clustering
  import opened ClusteringRuns
  import opened Mirrors
  import opened Restart

  // Centre j takes an event at t away from centre k.
  predicate Nearer(t: real, j: real, k: real) {
    Dist(t, j) < Dist(t, k) || (Dist(t, j) == Dist(t, k) && j < k)
  }

  // No centre opened since comes between the event and its window.
  ghost predicate Undisturbed(once: Snapshot, now: Snapshot, t: real, k: real) {
    forall j :: j in now.times && j !in once.times ==> !Nearer(t, j, k)
  }

  // Just after it was processed, nothing is nearer to an event than its window.
  lemma OwnCentreIsNearest(c: Snapshot, e: GwEvent)
    requires Valid(c)
    ensures
      var once, k := Process(c, e), TouchedCentre(c, e);
      && k in once.times && Dist(e.endTime, k) <= c.window / 2.0
      && forall j :: j in once.times ==> !Nearer(e.endTime, j, k)
  {
    hide Valid, FormatId;
    ValidIsIndexed(c);
  }

  lemma UndisturbedIff(once: Snapshot, now: Snapshot, t: real, k: real)
    requires k in now.times && Dist(t, k) <= now.window / 2.0
    requires forall j :: j in once.times ==> !Nearer(t, j, k)
    ensures Target(now, t).Some?
    ensures Target(now, t) == Some(k) <==> Undisturbed(once, now, t, k)
  {
    if Undisturbed(once, now, t, k) {
      assert IsNearest(now.times.Keys, now.window / 2.0, t, k);
      NearestIsUnique(now.times.Keys, now.window / 2.0, t, k);
    }
  }

  // Whether a window keeps its name, and with it what it holds.
  ghost predicate HoldsUnder(c: Snapshot, k: real, id: string, e: GwEvent) {
    k in c.times && k in c.superevents && c.times[k] == id && e in c.superevents[k].gEvents
  }

  lemma ApplyKeepsMember(c: Snapshot, op: Op, k: real, id: string, e: GwEvent)
    requires Valid(c) && Issued(id, c.nextSeq)
    requires HoldsUnder(c, k, id, e) || !(k in c.times && c.times[k] == id)
    ensures
      var d := Apply(c, op);
      Issued(id, d.nextSeq) && (HoldsUnder(d, k, id, e) || !(k in d.times && d.times[k] == id))
  {
    hide Valid, Issued, FormatId, Nearest, IsNearest;
    ValidIsIndexed(c);
    IssuedGrows(id, c.nextSeq);
  }

  // While it has its name, the window an event went to still holds it.
  lemma {:induction false} MemberStays(c: Snapshot, ops: seq<Op>, k: real, id: string, e: GwEvent)
    requires Valid(c) && Issued(id, c.nextSeq) && HoldsUnder(c, k, id, e)
    ensures
      var d := Run(c, ops);
      Issued(id, d.nextSeq) && (HoldsUnder(d, k, id, e) || !(k in d.times && d.times[k] == id))
  {
    hide Valid, Issued, HoldsUnder, Apply;
    if ops == [] {
    } else {
      MemberStays(c, ops[..|ops| - 1], k, id, e);
      ApplyKeepsMember(Run(c, ops[..|ops| - 1]), ops[|ops| - 1], k, id, e);
    }
  }

  lemma MembersAreNoLouder(c: Snapshot, k: real, e: GwEvent)
    requires Valid(c) && k in c.superevents && e in c.superevents[k].gEvents
    ensures e.snr <= c.superevents[k].preferredEvent.snr
  {
    hide AllIssued, DistinctIds, Separated, Indexed;
    var s := c.superevents[k];
    assert GoodWindow(c.window, k, s);
    var i :| 0 <= i < |s.gEvents| && FirstLoudest(s.gEvents, i) && s.gEvents[i] == s.preferredEvent;
    var j :| 0 <= j < |s.gEvents| && s.gEvents[j] == e;
    if j < i { assert s.gEvents[j].snr < s.gEvents[i].snr; }
  }

  lemma ProcessedIsHeld(c: Snapshot, e: GwEvent)
    requires Valid(c)
    ensures
      var once, k := Process(c, e), TouchedCentre(c, e);
      k in once.times && HoldsUnder(once, k, once.times[k], e) && Issued(once.times[k], once.nextSeq)
  {
    hide Valid, FormatId, Nearest, IsNearest, Issued;
    ValidIsIndexed(c);
    ProcessTouches(c, e);
    ProcessKeepsValid(c, e);
    var once, k := Process(c, e), TouchedCentre(c, e);
    assert e in once.superevents[k].gEvents by {
      assert once.superevents[k].gEvents[|once.superevents[k].gEvents| - 1] == e;
    }
    NameIsIssued(once, k);
  }

  lemma NameIsIssued(c: Snapshot, k: real)
    requires Valid(c) && k in c.times
    ensures Issued(c.times[k], c.nextSeq)
  {
    hide Indexed, GoodWindows, DistinctIds, Separated, Issued;
  }

  /** An event redelivered after anything else, its own superevent still open:
      it opens no window, and it returns to its superevent if and only if no centre
      opened since is nearer.  There it is recorded once more and nothing else
      changes; otherwise another superevent records it too. */
  lemma RedeliveryReturnsIff(c: Snapshot, e: GwEvent, ops: seq<Op>)
    requires Valid(c)
    ensures
      var once, k := Process(c, e), TouchedCentre(c, e);
      && Valid(once) && k in once.times
      && var now := Run(once, ops);
      && now.times.Keys == now.superevents.Keys
      && (k in now.times && now.times[k] == once.times[k] ==>
            var twice := Process(now, e);
            && e in now.superevents[k].gEvents
            && Target(now, e.endTime).Some? && twice.times == now.times && twice.nextSeq == now.nextSeq
            && (Target(now, e.endTime) == Some(k) <==> Undisturbed(once, now, e.endTime, k))
            && (Undisturbed(once, now, e.endTime, k) ==>
                  var s := now.superevents[k];
                  twice == now.(superevents := now.superevents[k := s.(gEvents := s.gEvents + [e])])))
  {
    hide Valid, FormatId, Nearest, IsNearest, Issued, HoldsUnder, Undisturbed, Run;
    ValidIsIndexed(c);
    ProcessKeepsValid(c, e);
    var once, k := Process(c, e), TouchedCentre(c, e);
    OwnCentreIsNearest(c, e);
    ProcessedIsHeld(c, e);
    var now := Run(once, ops);
    ValidIsIndexed(now);
    if k in now.times && now.times[k] == once.times[k] {
      MemberStays(once, ops, k, once.times[k], e);
      HeldIsMember(now, k, once.times[k], e);
      UndisturbedIff(once, now, e.endTime, k);
      MembersAreNoLouder(now, k, e);
    }
  }

  lemma HeldIsMember(c: Snapshot, k: real, id: string, e: GwEvent)
    requires HoldsUnder(c, k, id, e)
    ensures k in c.superevents && e in c.superevents[k].gEvents
  {
  }

  /** It can move: with a window of 5 s and events at 0, 2.2 and 4, the second one
      joins the first superevent, and redelivered last it joins that of the third,
      where it becomes the preferred event if it is louder. */
  lemma RedeliveryMayMove(a: GwEvent, b: GwEvent, d: GwEvent)
    requires a.endTime == 0.0 && b.endTime == 2.2 && d.endTime == 4.0
    ensures
      Valid(New(5.0)) &&
      var now := Run(New(5.0), [Ingest(a), Ingest(b), Ingest(d)]);
      && 0.0 in now.superevents && 4.0 in now.superevents && now.times.Keys == now.superevents.Keys
      && b in now.superevents[0.0].gEvents && Target(now, b.endTime) == Some(4.0)
      && b in Process(now, b).superevents[4.0].gEvents && b in Process(now, b).superevents[0.0].gEvents
      && (ProcessUpdate(now, b).PreferredUpdated? <==> b.snr > d.snr)
  {
    hide Valid, FormatId;
    NewIsValid(5.0);
    var c1 := Opened(New(5.0), a);
    var c2 := Joined(c1, 0.0, b);
    var c3 := Opened(c2, d);
    assert Target(New(5.0), a.endTime).None?;
    assert IsNearest(c1.times.Keys, 2.5, 2.2, 0.0);
    NearestIsUnique(c1.times.Keys, 2.5, 2.2, 0.0);
    assert Dist(4.0, 0.0) > 2.5;
    assert Target(c2, 4.0).None?;
    assert IsNearest(c3.times.Keys, 2.5, 2.2, 4.0);
    NearestIsUnique(c3.times.Keys, 2.5, 2.2, 4.0);
    RunOfThree(New(5.0), Ingest(a), Ingest(b), Ingest(d));
    assert c3.superevents[0.0].gEvents == [a, b];
    assert c3.superevents[4.0].gEvents == [d];
  }

  lemma RunOfThree(c: Snapshot, p: Op, q: Op, r: Op)
    requires Valid(c)
    ensures Run(c, [p, q, r]) == Apply(Apply(Apply(c, p), q), r)
  {
    hide Valid, Apply;
    assert [p, q, r][..2] == [p, q] && [p, q][..1] == [p] && [p][..0] == [];
    assert Run(c, []) == c;
    assert Run(c, [p]) == Apply(c, p);
    assert Run(c, [p, q]) == Apply(Apply(c, p), q);
  }

  // ------------------------------------------------- replaying a stream

  // Some open window takes events at t.
  ghost predicate Covers(c: Snapshot, t: real) {
    exists k :: k in c.times && Dist(t, k) <= c.window / 2.0
  }

  lemma ApplyKeepsCover(c: Snapshot, op: Op)
    requires Valid(c) && !op.CleanupBefore?
    ensures forall t :: Covers(c, t) ==> Covers(Apply(c, op), t)
    ensures op.Ingest? ==> Covers(Apply(c, op), op.event.endTime)
    ensures op.Ingest? && Covers(c, op.event.endTime) ==>
              Apply(c, op).times == c.times && Apply(c, op).nextSeq == c.nextSeq
    ensures op.AttachMap? ==> Apply(c, op).times == c.times && Apply(c, op).nextSeq == c.nextSeq
  {
    hide Valid, FormatId, IsNearest;
    ValidIsIndexed(c);
    var d := Apply(c, op);
    if op.Ingest? { OwnCentreIsNearest(c, op.event); }
    forall t | Covers(c, t) ensures Covers(d, t) {
      var k :| k in c.times && Dist(t, k) <= c.window / 2.0;
      assert k in d.times;
    }
  }

  lemma {:induction false} IngestedAreCovered(c: Snapshot, ops: seq<Op>)
    requires Valid(c) && CleanupFree(ops)
    ensures forall e :: e in Ingested(ops) ==> Covers(Run(c, ops), e.endTime)
  {
    hide Valid, Apply, Covers;
    if ops == [] {
    } else {
      IngestedAreCovered(c, ops[..|ops| - 1]);
      ApplyKeepsCover(Run(c, ops[..|ops| - 1]), ops[|ops| - 1]);
    }
  }

  lemma {:induction false} CoveredOpensNothing(c: Snapshot, ops: seq<Op>)
    requires Valid(c) && CleanupFree(ops) && forall e :: e in Ingested(ops) ==> Covers(c, e.endTime)
    ensures Run(c, ops).times == c.times && Run(c, ops).nextSeq == c.nextSeq
  {
    hide Valid, Apply, Covers;
    if ops == [] {
    } else {
      var init := ops[..|ops| - 1];
      CoveredOpensNothing(c, init);
      SameCover(c, Run(c, init));
      ApplyKeepsCover(Run(c, init), ops[|ops| - 1]);
    }
  }

  lemma SameCover(c: Snapshot, d: Snapshot)
    requires c.times == d.times && c.window == d.window
    ensures forall t :: Covers(c, t) <==> Covers(d, t)
  {
  }

  /** Redelivering any part of the stream, in any order and however often, opens
      no window and issues no id while none has been cleaned up. */
  lemma ReplayOpensNoWindow(window: real, ops: seq<Op>, replay: seq<Op>)
    requires window >= 0.0 && CleanupFree(ops) && CleanupFree(replay)
    requires forall e :: e in Ingested(replay) ==> e in Ingested(ops)
    ensures
      Valid(New(window)) &&
      var once := Run(New(window), ops);
      var again := Run(once, replay);
      again.times == once.times && again.nextSeq == once.nextSeq && again.superevents.Keys == once.superevents.Keys
  {
    hide Valid, Run, Covers;
    NewIsValid(window);
    var once := Run(New(window), ops);
    IngestedAreCovered(New(window), ops);
    CoveredOpensNothing(once, replay);
    ValidIsIndexed(once);
    ValidIsIndexed(Run(once, replay));
  }
}
