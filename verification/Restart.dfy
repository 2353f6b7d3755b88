/** What a crash followed by a reload does to a run of the clusterer. */
module Restart {
  import opened Wrappers
  import opened Decimal
  import opened Clustering
  import opened ClusteringRuns
  import opened Persistence

  /** d is what loading yields after c was saved: some image of c, listed in
      some order allowed for equal scores, rebuilt with the same window. */
  ghost predicate Restarted(json: Json, c: Snapshot, d: Snapshot) {
    exists img: Image, ids: seq<string> ::
      IsImageOf(img, c, json) && IsRange(img.index, ids) && Loads(json, img, ids, c.window, d)
  }

  ghost predicate Loads(json: Json, img: Image, ids: seq<string>, window: real, d: Snapshot) {
    Collect(json, img.open, {}, ids).Ok? && d == Reloaded(window, Collect(json, img.open, {}, ids).value)
  }

  // The newest id ever issued still names an open window.
  ghost predicate NewestIsOpen(c: Snapshot) {
    c.nextSeq > 0 && exists k :: k in c.times && c.times[k] == FormatId(c.nextSeq - 1)
  }

  lemma RecountedIsValid(c: Snapshot, n: nat)
    requires Valid(c) && forall k :: k in c.times ==> Issued(c.times[k], n)
    ensures Valid(c.(nextSeq := n))
  {
    hide Issued, FormatId, GoodWindow, Separated;
  }

  ghost predicate IsOpenId(c: Snapshot, id: string) {
    exists k :: k in c.times && c.times[k] == id
  }

  lemma RecountedNewest(c: Snapshot, ids: seq<string>)
    requires Valid(c) && c.nextSeq <= U64_LIMIT
    requires forall k :: k in c.times ==> c.times[k] in ids
    requires forall i :: 0 <= i < |ids| ==> IsOpenId(c, ids[i])
    ensures
      var n := NextSeqFrom(ids);
      && n <= c.nextSeq && Valid(c.(nextSeq := n))
      && (n == 0 <==> c.times == map[]) && (n > 0 ==> NewestIsOpen(c.(nextSeq := n)))
  {
    hide GoodWindow, Separated, NextSeqFrom, FormatId, Issued;
    forall i | 0 <= i < |ids|
      ensures Issued(ids[i], c.nextSeq)
    {
      assert IsOpenId(c, ids[i]);
    }
    CounterRecovered(ids, c.nextSeq);
    RecountedIsValid(c, NextSeqFrom(ids));
    if ids == [] {
      assert forall k :: k !in c.times;
    } else {
      assert IsOpenId(c, ids[0]);
    }
  }

  /** The windows come back exactly; the counter comes back past every open id,
      never past the lost one. */
  lemma RestartKeepsWindows(json: Json, c: Snapshot, d: Snapshot)
    requires Faithful(json, c) && Valid(c) && c.nextSeq <= U64_LIMIT && Restarted(json, c, d)
    ensures d == c.(nextSeq := d.nextSeq) && d.nextSeq <= c.nextSeq && Valid(d)
    ensures d.nextSeq == 0 <==> c.times == map[]
    ensures d.nextSeq > 0 ==> NewestIsOpen(d)
  {
    hide Valid, Collect, Reloaded, NextSeqFrom, FormatId, Faithful, NewestIsOpen;
    var img: Image, ids: seq<string> :|
      IsImageOf(img, c, json) && IsRange(img.index, ids) && Loads(json, img, ids, c.window, d);
    WindowsRestored(json, c, img, ids);
    forall i | 0 <= i < |ids|
      ensures IsOpenId(c, ids[i])
    {
      assert IsEntry(img, c, json, ids[i]);
    }
    RecountedNewest(c, ids);
  }

  lemma NewestIssuedFirst(c: Snapshot, m: nat)
    requires NewestIsOpen(c.(nextSeq := m)) && forall k :: k in c.times ==> Issued(c.times[k], c.nextSeq)
    requires NewestIsOpen(c) && m <= c.nextSeq && forall k :: k in c.times ==> Issued(c.times[k], m)
    ensures m == c.nextSeq
  {
    var k :| k in c.times && c.times[k] == FormatId(c.nextSeq - 1);
    var n: nat :| n < m && c.times[k] == FormatId(n);
    FormatIdInjective(n, c.nextSeq - 1);
  }

  /** Exactly when a reload restores the whole state, counter included.
      Otherwise the next id it hands out has been issued before. */
  lemma RestartIsExactIff(json: Json, c: Snapshot, d: Snapshot)
    requires Faithful(json, c) && Valid(c) && c.nextSeq <= U64_LIMIT && Restarted(json, c, d)
    ensures d == c <==> c.nextSeq == 0 || NewestIsOpen(c)
    ensures d != c ==> Issued(FormatId(d.nextSeq), c.nextSeq)
  {
    hide Restarted, GoodWindow, Separated, FormatId;
    RestartKeepsWindows(json, c, d);
    if NewestIsOpen(c) {
      var k :| k in c.times && c.times[k] == FormatId(c.nextSeq - 1);
      assert d.times == c.times;
      NewestIssuedFirst(c, d.nextSeq);
    }
  }

  // ---------------------------------------------- a reload always exists

  lemma {:induction false} LowestId(index: map<string, real>, some: set<string>) returns (m: string)
    requires some != {} && some <= index.Keys
    ensures m in some && forall id :: id in some ==> index[m] <= index[id]
    decreases some
  {
    m :| m in some;
    var rest := some - {m};
    assert forall id :: id in some ==> id == m || id in rest;
    if rest == {} {
    } else {
      var n := LowestId(index, rest);
      if index[n] < index[m] { m := n; }
    }
  }

  lemma {:induction false} Listing(index: map<string, real>, some: set<string>) returns (ids: seq<string>)
    requires some <= index.Keys
    ensures forall id :: id in ids <==> id in some
    ensures forall i :: 0 <= i < |ids| ==> ids[i] in index
    ensures forall i, j :: 0 <= i < j < |ids| ==> ids[i] != ids[j] && index[ids[i]] <= index[ids[j]]
    decreases some
  {
    if some == {} {
      ids := [];
    } else {
      var m := LowestId(index, some);
      var rest := Listing(index, some - {m});
      ids := [m] + rest;
      assert forall i :: 0 < i < |ids| ==> ids[i] == rest[i - 1] && ids[i] in rest;
    }
  }

  // What a save of this state leaves behind.
  ghost function ImageOf(json: Json, c: Snapshot): Image
    requires c.times.Keys == c.superevents.Keys
  {
    var index := map id | id in c.times.Values :: KeyOf(c, id).value;
    Image(map id | id in c.times.Values :: json.encode(c.superevents[KeyOf(c, id).value]), index)
  }

  lemma ImageOfIsImage(json: Json, c: Snapshot)
    requires Valid(c)
    ensures c.times.Keys == c.superevents.Keys && IsImageOf(ImageOf(json, c), c, json)
  {
    hide Valid;
    ValidIsIndexed(c);
    var img := ImageOf(json, c);
    forall k | k in c.times ensures c.times[k] in img.index && img.index[c.times[k]] == k {
      assert c.times[k] in c.times.Values;
    }
    forall id | id in img.index ensures IsEntry(img, c, json, id) {}
  }

  /** From every valid state a save and a reload lead somewhere, so runs with
      crashes exist wherever the stored superevents survive the encoding. */
  lemma RestartIsPossible(json: Json, c: Snapshot) returns (d: Snapshot)
    requires Faithful(json, c) && Valid(c)
    ensures Restarted(json, c, d)
  {
    hide Valid, Faithful, Collect, Reloaded, IsImageOf;
    ImageOfIsImage(json, c);
    var img := ImageOf(json, c);
    var ids := Listing(img.index, img.index.Keys);
    WindowsRestored(json, c, img, ids);
    d := Reloaded(c.window, Collect(json, img.open, {}, ids).value);
  }

  // ------------------------------------------------- runs with restarts

  datatype Step = Do(op: Op) | Crash

  ghost predicate IsStep(json: Json, c: Snapshot, step: Step, d: Snapshot) {
    match step
    case Do(op) => Valid(c) && d == Apply(c, op)
    case Crash => Restarted(json, c, d)
  }

  // A run during which the process may die and reload between operations.
  ghost predicate IsCrashRun(json: Json, states: seq<Snapshot>, steps: seq<Step>) {
    && |states| == |steps| + 1
    && forall i :: 0 <= i < |steps| ==> IsStep(json, states[i], steps[i], states[i + 1])
  }

  // What is stored when the process dies survives the encoding.
  ghost predicate FaithfulCrashes(json: Json, states: seq<Snapshot>, steps: seq<Step>)
    requires |states| == |steps| + 1
  {
    forall i :: 0 <= i < |steps| && steps[i].Crash? ==> Faithful(json, states[i])
  }

  // The operations of a run, its crashes forgotten.
  function OpsOf(steps: seq<Step>): (ops: seq<Op>)
    ensures |ops| <= |steps|
  {
    if steps == [] then []
    else
      match steps[|steps| - 1]
      case Do(op) => OpsOf(steps[..|steps| - 1]) + [op]
      case Crash => OpsOf(steps[..|steps| - 1])
  }

  predicate CleanupFree(ops: seq<Op>) {
    forall i :: 0 <= i < |ops| ==> !ops[i].CleanupBefore?
  }

  lemma ApplyKeepsNewest(c: Snapshot, op: Op)
    requires Valid(c) && !op.CleanupBefore? && (c.nextSeq == 0 || NewestIsOpen(c))
    ensures var d := Apply(c, op); (d.nextSeq == 0 || NewestIsOpen(d)) && d.nextSeq <= c.nextSeq + 1
  {
    hide Valid, FormatId, IsNearest;
    var d := Apply(c, op);
    if NewestIsOpen(c) && d.nextSeq == c.nextSeq {
      var k :| k in c.times && c.times[k] == FormatId(c.nextSeq - 1);
      assert k in d.times && d.times[k] == FormatId(d.nextSeq - 1);
    } else if d.nextSeq > c.nextSeq {
      assert d.times[op.event.endTime] == FormatId(d.nextSeq - 1);
    }
  }

  lemma {:induction false} NewestStaysOpen(window: real, ops: seq<Op>)
    requires window >= 0.0 && CleanupFree(ops)
    ensures var c := Run(New(window), ops); (c.nextSeq == 0 || NewestIsOpen(c)) && c.nextSeq <= |ops|
  {
    hide Valid, NewestIsOpen, Apply;
    NewIsValid(window);
    if ops == [] {
    } else {
      var init := ops[..|ops| - 1];
      NewestStaysOpen(window, init);
      ApplyKeepsNewest(Run(New(window), init), ops[|ops| - 1]);
    }
  }

  lemma OpsOfPrefix(steps: seq<Step>)
    requires steps != [] && CleanupFree(OpsOf(steps))
    ensures CleanupFree(OpsOf(steps[..|steps| - 1]))
  {
    var init := OpsOf(steps[..|steps| - 1]);
    forall i | 0 <= i < |init|
      ensures !init[i].CleanupBefore?
    {
      assert init[i] == OpsOf(steps)[i];
    }
  }

  /** Restart transparency: a run without cleanup reaches the same state with
      any number of crashes as with none. */
  lemma {:induction false} CrashesAreInvisible(json: Json, window: real, states: seq<Snapshot>, steps: seq<Step>)
    requires window >= 0.0 && |steps| <= U64_LIMIT && CleanupFree(OpsOf(steps))
    requires IsCrashRun(json, states, steps) && states[0] == New(window) && FaithfulCrashes(json, states, steps)
    ensures states[|steps|] == Run(New(window), OpsOf(steps))
  {
    hide Valid, Restarted, NewestIsOpen, Apply, Faithful, CleanupFree;
    if steps == [] {
    } else {
      var last := |steps| - 1;
      OpsOfPrefix(steps);
      CrashesAreInvisible(json, window, states[..|steps|], steps[..last]);
      var c := states[last];
      NewestStaysOpen(window, OpsOf(steps[..last]));
      match steps[last]
      case Do(op) => assert OpsOf(steps)[..|OpsOf(steps)| - 1] == OpsOf(steps[..last]);
      case Crash => RestartIsExactIff(json, c, states[last + 1]);
    }
  }

  // One more step of a run, its crashes forgotten.
  lemma RunStep(c: Snapshot, steps: seq<Step>, i: nat)
    requires Valid(c) && i < |steps|
    ensures
      var before, after := Run(c, OpsOf(steps[..i])), Run(c, OpsOf(steps[..i + 1]));
      after == if steps[i].Crash? then before else Apply(before, steps[i].op)
  {
    hide Valid, Apply;
    assert steps[..i + 1][..i] == steps[..i];
    if steps[i].Do? {
      assert OpsOf(steps[..i + 1])[..|OpsOf(steps[..i + 1])| - 1] == OpsOf(steps[..i]);
    }
  }

  // The whole state, counter and ids included, is that of a run without crashes.
  ghost predicate IsExactAt(c: Snapshot, states: seq<Snapshot>, steps: seq<Step>, i: nat)
    requires Valid(c) && i < |states| && i <= |steps|
  {
    states[i] == Run(c, OpsOf(steps[..i]))
  }

  lemma {:induction false} ExactUpTo(json: Json, c: Snapshot, states: seq<Snapshot>, steps: seq<Step>, n: nat)
    requires Valid(c) && c.nextSeq + |steps| <= U64_LIMIT && n <= |steps|
    requires IsCrashRun(json, states, steps) && states[0] == c && FaithfulCrashes(json, states, steps)
    requires forall i :: 0 <= i < n && steps[i].Crash? ==> states[i].nextSeq == 0 || NewestIsOpen(states[i])
    ensures IsExactAt(c, states, steps, n) && states[n].nextSeq <= c.nextSeq + n
  {
    hide Valid, Restarted, NewestIsOpen, Apply, Faithful;
    if n == 0 {
      assert steps[..0] == [] && Run(c, []) == c;
    } else {
      var i := n - 1;
      ExactUpTo(json, c, states, steps, i);
      RunStep(c, steps, i);
      assert IsStep(json, states[i], steps[i], states[i + 1]);
      match steps[i]
      case Do(op) => ApplyCounts(states[i], op);
      case Crash => RestartIsExactIff(json, states[i], states[n]);
    }
  }

  /** Any run, cleanups included, is reproduced exactly at every point if and only
      if the newest superevent is still open, or none was opened, at each crash. */
  lemma CrashRunIsExactIff(json: Json, c: Snapshot, states: seq<Snapshot>, steps: seq<Step>)
    requires Valid(c) && c.nextSeq + |steps| <= U64_LIMIT
    requires IsCrashRun(json, states, steps) && states[0] == c && FaithfulCrashes(json, states, steps)
    ensures
      (forall i :: 0 <= i <= |steps| ==> IsExactAt(c, states, steps, i))
      <==> (forall i :: 0 <= i < |steps| && steps[i].Crash? ==> states[i].nextSeq == 0 || NewestIsOpen(states[i]))
  {
    hide Valid, Restarted, NewestIsOpen, Apply, Faithful, IsExactAt;
    if forall i :: 0 <= i < |steps| && steps[i].Crash? ==> states[i].nextSeq == 0 || NewestIsOpen(states[i]) {
      forall i | 0 <= i <= |steps| ensures IsExactAt(c, states, steps, i) { ExactUpTo(json, c, states, steps, i); }
    }
    if forall i :: 0 <= i <= |steps| ==> IsExactAt(c, states, steps, i) {
      forall i | 0 <= i < |steps| && steps[i].Crash? ensures states[i].nextSeq == 0 || NewestIsOpen(states[i]) {
        ExactCrash(json, c, states, steps, i);
      }
    }
  }

  lemma ExactCrash(json: Json, c: Snapshot, states: seq<Snapshot>, steps: seq<Step>, i: nat)
    requires Valid(c) && c.nextSeq + |steps| <= U64_LIMIT && i < |steps| && steps[i].Crash?
    requires IsCrashRun(json, states, steps) && states[0] == c && FaithfulCrashes(json, states, steps)
    requires IsExactAt(c, states, steps, i) && IsExactAt(c, states, steps, i + 1)
    ensures states[i].nextSeq == 0 || NewestIsOpen(states[i])
  {
    hide Valid, Restarted, NewestIsOpen, Apply, Faithful;
    RunStep(c, steps, i);
    RunCounts(c, OpsOf(steps[..i]));
    assert IsStep(json, states[i], steps[i], states[i + 1]);
    RestartIsExactIff(json, states[i], states[i + 1]);
  }

  lemma {:induction false} RunCounts(c: Snapshot, ops: seq<Op>)
    requires Valid(c)
    ensures Run(c, ops).nextSeq <= c.nextSeq + |ops|
  {
    hide Valid, Apply;
    if ops == [] {
    } else {
      RunCounts(c, ops[..|ops| - 1]);
      ApplyCounts(Run(c, ops[..|ops| - 1]), ops[|ops| - 1]);
    }
  }

  /** The failing case is reachable: one event, a cleanup past its window, a crash.
      The reload forgets that an id was issued and hands it out again. */
  lemma CleanedUpIdReturns(json: Json, window: real, e: GwEvent, cutoff: real, d: Snapshot)
    requires window >= 0.0 && cutoff > e.endTime + window / 2.0
    requires Restarted(json, Run(New(window), [Ingest(e), CleanupBefore(cutoff)]), d)
    ensures
      var first, c := Run(New(window), [Ingest(e)]), Run(New(window), [Ingest(e), CleanupBefore(cutoff)]);
      && c.times == map[] && c.nextSeq == 1 && !NewestIsOpen(c)
      && d == New(window) && e.endTime in first.times && FormatId(d.nextSeq) == first.times[e.endTime]
  {
    hide Restarted, FormatId, Valid, Opened, NewestIsOpen;
    NewIsValid(window);
    FirstEvent(window, e);
    var pair := [Ingest(e), CleanupBefore(cutoff)];
    assert pair[..1] == [Ingest(e)];
    var c := Run(New(window), pair);
    CleanedUp(window, e, cutoff);
    NoneIsNewest(c);
    RestartKeepsWindows(json, c, d);
  }

  lemma FirstEvent(window: real, e: GwEvent)
    requires window >= 0.0
    ensures Run(New(window), [Ingest(e)]) == Opened(New(window), e)
    ensures Run(New(window), [Ingest(e)]).times == map[e.endTime := FormatId(0)]
  {
    hide Valid, FormatId;
    NewIsValid(window);
    assert [Ingest(e)][..0] == [];
    assert Run(New(window), []) == New(window);
  }

  lemma CleanedUp(window: real, e: GwEvent, cutoff: real)
    requires window >= 0.0 && cutoff > e.endTime + window / 2.0
    ensures Cleanup(Opened(New(window), e), cutoff) == New(window).(nextSeq := 1)
  {
    hide FormatId;
    assert Expired(Opened(New(window), e), cutoff) == {e.endTime};
  }

  lemma NoneIsNewest(c: Snapshot)
    requires c.times == map[]
    ensures !NewestIsOpen(c)
  {
    hide FormatId;
  }

  // ---------------------------------------------- cleanup and restarts

  // Same windows holding the same events: ids, counter and sky maps aside.
  ghost predicate SameMembers(c: Snapshot, d: Snapshot) {
    && c.window == d.window
    && c.times.Keys == d.times.Keys == c.superevents.Keys == d.superevents.Keys
    && forall k :: k in c.superevents ==> Bare(c.superevents[k]) == Bare(d.superevents[k])
  }

  function Bare(s: Superevent): Superevent {
    s.(id := "", skymap := None)
  }

  lemma ProcessKeepsSameMembers(c: Snapshot, d: Snapshot, e: GwEvent)
    requires SameMembers(c, d)
    ensures SameMembers(Process(c, e), Process(d, e))
  {
    hide FormatId, IsNearest, Nearest, Join, Bare;
    assert Target(c, e.endTime) == Target(d, e.endTime);
    match Target(c, e.endTime)
    case Some(k) => JoinIgnoresDecoration(c.superevents[k], d.superevents[k], e);
    case None => OpenIgnoresId(c.window, FormatId(c.nextSeq), FormatId(d.nextSeq), e);
  }

  lemma JoinIgnoresDecoration(s: Superevent, t: Superevent, e: GwEvent)
    requires Bare(s) == Bare(t)
    ensures Bare(Join(s, e)) == Bare(Join(t, e))
  {
    assert Bare(s).gEvents == s.gEvents && Bare(s).preferredEvent == s.preferredEvent;
    assert Bare(t).gEvents == t.gEvents && Bare(t).preferredEvent == t.preferredEvent;
    assert Bare(Join(s, e)) == Join(Bare(s), e) && Bare(Join(t, e)) == Join(Bare(t), e);
  }

  lemma OpenIgnoresId(window: real, x: string, y: string, e: GwEvent)
    ensures Bare(Open(window, x, e)) == Bare(Open(window, y, e))
  {
  }

  lemma CleanupKeepsSameMembers(c: Snapshot, d: Snapshot, cutoff: real)
    requires SameMembers(c, d)
    ensures SameMembers(Cleanup(c, cutoff), Cleanup(d, cutoff))
  {
    forall k | k in c.superevents
      ensures c.superevents[k].tEnd == d.superevents[k].tEnd
    {
      assert Bare(c.superevents[k]).tEnd == c.superevents[k].tEnd;
      assert Bare(d.superevents[k]).tEnd == d.superevents[k].tEnd;
    }
    assert Expired(c, cutoff) == Expired(d, cutoff);
  }

  lemma AttachKeepsSameMembers(c: Snapshot, d: Snapshot, id: string, sky: SkyMapFits)
    requires SameMembers(c, d)
    ensures SameMembers(Attach(c, id, sky), d)
  {
    match KeyOf(c, id)
    case Some(k) => assert Bare(c.superevents[k].(skymap := Some(sky))) == Bare(c.superevents[k]);
    case None =>
  }

  lemma AttachBothKeepsSameMembers(c: Snapshot, d: Snapshot, id: string, sky: SkyMapFits)
    requires SameMembers(c, d)
    ensures SameMembers(Attach(c, id, sky), Attach(d, id, sky))
  {
    hide SameMembers, Attach;
    SameKeys(c, d);
    AttachKeepsSameMembers(c, d, id, sky);
    SameMembersBack(Attach(c, id, sky), d);
    AttachKeepsSameMembers(d, Attach(c, id, sky), id, sky);
    SameMembersBack(Attach(d, id, sky), Attach(c, id, sky));
  }

  lemma SameMembersBack(c: Snapshot, d: Snapshot)
    requires SameMembers(c, d)
    ensures SameMembers(d, c)
  {
    hide Bare;
  }

  lemma ApplyKeepsSameMembers(c: Snapshot, d: Snapshot, op: Op)
    requires Valid(c) && Valid(d) && SameMembers(c, d)
    ensures SameMembers(Apply(c, op), Apply(d, op))
  {
    hide Valid, SameMembers, Process, Cleanup, Attach;
    match op
    case Ingest(e) => ProcessKeepsSameMembers(c, d, e);
    case CleanupBefore(cutoff) => CleanupKeepsSameMembers(c, d, cutoff);
    case AttachMap(id, sky) =>
      ValidIsIndexed(c);
      ValidIsIndexed(d);
      AttachBothKeepsSameMembers(c, d, id, sky);
  }

  /** Whatever is done and however often the process dies, crashes never change
      which windows are open, what they hold or which event is preferred. */
  lemma {:induction false} CrashesKeepWindows(json: Json, c: Snapshot, states: seq<Snapshot>, steps: seq<Step>, n: nat)
    requires Valid(c) && c.nextSeq + |steps| <= U64_LIMIT && n <= |steps|
    requires IsCrashRun(json, states, steps) && states[0] == c && FaithfulCrashes(json, states, steps)
    ensures Valid(states[n]) && states[n].nextSeq <= c.nextSeq + n
    ensures SameMembers(states[n], Run(c, OpsOf(steps[..n])))
  {
    hide Valid, Restarted, Apply, Faithful, SameMembers, NewestIsOpen;
    if n == 0 {
      assert steps[..0] == [] && Run(c, []) == c;
      SameAsItself(c);
    } else {
      var i := n - 1;
      CrashesKeepWindows(json, c, states, steps, i);
      RunStep(c, steps, i);
      assert IsStep(json, states[i], steps[i], states[i + 1]);
      match steps[i]
      case Do(op) =>
        ApplyKeepsSameMembers(states[i], Run(c, OpsOf(steps[..i])), op);
        ApplyCounts(states[i], op);
      case Crash =>
        RestartKeepsWindows(json, states[i], states[n]);
        SameUpToCounter(states[i], states[n], Run(c, OpsOf(steps[..i])));
    }
  }

  lemma SameAsItself(c: Snapshot)
    requires Valid(c)
    ensures SameMembers(c, c) && SameButNames(c, c)
  {
    ValidIsIndexed(c);
  }

  lemma SameUpToCounter(c: Snapshot, d: Snapshot, e: Snapshot)
    requires d == c.(nextSeq := d.nextSeq)
    ensures SameMembers(c, e) ==> SameMembers(d, e)
    ensures SameButNames(c, e) ==> SameButNames(d, e)
  {
    hide Bare, Unnamed;
  }

  lemma ApplyCounts(c: Snapshot, op: Op)
    requires Valid(c)
    ensures Apply(c, op).nextSeq <= c.nextSeq + 1
  {
    hide Valid, FormatId, IsNearest, Nearest;
  }

  // ------------------------------------------------- sky maps and restarts

  // Equal but for the ids and the counter, sky maps included.
  ghost predicate SameButNames(c: Snapshot, d: Snapshot) {
    && c.window == d.window
    && c.times.Keys == d.times.Keys == c.superevents.Keys == d.superevents.Keys
    && forall k :: k in c.superevents ==> Unnamed(c.superevents[k]) == Unnamed(d.superevents[k])
  }

  function Unnamed(s: Superevent): Superevent {
    s.(id := "")
  }

  lemma SameButNamesIff(c: Snapshot, d: Snapshot)
    requires SameMembers(c, d)
    ensures SameButNames(c, d) <==> forall k :: k in c.superevents ==>
        c.superevents[k].skymap == d.superevents[k].skymap
  {
    forall k | k in c.superevents
      ensures Unnamed(c.superevents[k]) == Unnamed(d.superevents[k]) <==>
          c.superevents[k].skymap == d.superevents[k].skymap
    {
      var s, t := c.superevents[k], d.superevents[k];
      assert Bare(s) == Bare(t);
      assert Unnamed(s) == Bare(s).(skymap := s.skymap) && Unnamed(t) == Bare(t).(skymap := t.skymap);
      assert Unnamed(s).skymap == s.skymap && Unnamed(t).skymap == t.skymap;
    }
  }

  lemma SameButNamesIsStronger(c: Snapshot, d: Snapshot)
    requires SameButNames(c, d)
    ensures SameMembers(c, d)
  {
    forall k | k in c.superevents ensures Bare(c.superevents[k]) == Bare(d.superevents[k]) {
      assert Unnamed(c.superevents[k]).(skymap := None) == Unnamed(d.superevents[k]).(skymap := None);
    }
  }

  // The window named id, if open, already shows this map.
  ghost predicate Shows(c: Snapshot, id: string, sky: SkyMapFits)
    requires c.times.Keys <= c.superevents.Keys
  {
    KeyOf(c, id).Some? ==> c.superevents[KeyOf(c, id).value].skymap == Some(sky)
  }

  // The map reaches the same window in both states, or changes nothing in either.
  ghost predicate LandsAlike(c: Snapshot, d: Snapshot, id: string, sky: SkyMapFits)
    requires c.times.Keys <= c.superevents.Keys && d.times.Keys <= d.superevents.Keys
  {
    KeyOf(c, id) == KeyOf(d, id) || (Shows(c, id, sky) && Shows(d, id, sky))
  }

  ghost predicate SameMaps(m: map<real, Superevent>, n: map<real, Superevent>) {
    m.Keys == n.Keys && forall k :: k in m ==> m[k].skymap == n[k].skymap
  }

  // m is n but for the sky map at k, if there is a k.
  ghost predicate Sets(n: map<real, Superevent>, m: map<real, Superevent>, k: Option<real>, sky: SkyMapFits) {
    && m.Keys == n.Keys && (k.Some? ==> k.value in n && m[k.value].skymap == Some(sky))
    && forall j :: j in n && k != Some(j) ==> m[j].skymap == n[j].skymap
  }

  lemma AttachSets(c: Snapshot, id: string, sky: SkyMapFits)
    requires c.times.Keys == c.superevents.Keys
    ensures Sets(c.superevents, Attach(c, id, sky).superevents, KeyOf(c, id), sky)
  {
  }

  lemma SetsAlikeIff(m: map<real, Superevent>, n: map<real, Superevent>,
                     m': map<real, Superevent>, n': map<real, Superevent>,
                     j: Option<real>, k: Option<real>, sky: SkyMapFits)
    requires SameMaps(m, n) && Sets(m, m', j, sky) && Sets(n, n', k, sky)
    ensures
      SameMaps(m', n') <==>
        || j == k
        || ((j.Some? ==> m[j.value].skymap == Some(sky)) && (k.Some? ==> n[k.value].skymap == Some(sky)))
  {
    if j != k {
      if j.Some? { SameMapsAt(m', n', j.value); }
      if k.Some? { SameMapsAt(m', n', k.value); }
    }
  }

  lemma SameMapsAt(m: map<real, Superevent>, n: map<real, Superevent>, k: real)
    requires k in m && k in n
    ensures SameMaps(m, n) ==> m[k].skymap == n[k].skymap
  {
  }

  lemma AttachMapsIff(c: Snapshot, d: Snapshot, id: string, sky: SkyMapFits)
    requires c.times.Keys == c.superevents.Keys && d.times.Keys == d.superevents.Keys
    requires SameMaps(c.superevents, d.superevents)
    ensures SameMaps(Attach(c, id, sky).superevents, Attach(d, id, sky).superevents) <==> LandsAlike(c, d, id, sky)
  {
    hide KeyOf, Attach, SameMaps, Sets;
    AttachSets(c, id, sky);
    AttachSets(d, id, sky);
    SetsAlikeIff(c.superevents, d.superevents, Attach(c, id, sky).superevents, Attach(d, id, sky).superevents,
                 KeyOf(c, id), KeyOf(d, id), sky);
  }

  lemma AttachAlikeIff(c: Snapshot, d: Snapshot, id: string, sky: SkyMapFits)
    requires SameButNames(c, d)
    ensures SameButNames(Attach(c, id, sky), Attach(d, id, sky)) <==> LandsAlike(c, d, id, sky)
  {
    hide Bare, Unnamed, SameButNames, SameMembers, KeyOf, Attach, LandsAlike;
    SameButNamesIsStronger(c, d);
    SameButNamesIff(c, d);
    SameKeys(c, d);
    AttachBothKeepsSameMembers(c, d, id, sky);
    SameKeys(Attach(c, id, sky), Attach(d, id, sky));
    SameButNamesIff(Attach(c, id, sky), Attach(d, id, sky));
    AttachMapsIff(c, d, id, sky);
  }

  lemma SameKeys(c: Snapshot, d: Snapshot)
    requires SameMembers(c, d)
    ensures c.times.Keys == d.times.Keys == c.superevents.Keys == d.superevents.Keys
  {
  }

  lemma OtherOpsKeepNames(c: Snapshot, d: Snapshot, op: Op)
    requires Valid(c) && Valid(d) && SameButNames(c, d) && !op.AttachMap?
    ensures SameButNames(Apply(c, op), Apply(d, op))
  {
    hide Valid, Bare, Unnamed, SameButNames, SameMembers;
    SameButNamesIsStronger(c, d);
    SameButNamesIff(c, d);
    ApplyKeepsSameMembers(c, d, op);
    SameButNamesIff(Apply(c, op), Apply(d, op));
    SameKeys(c, d);
    SameKeys(Apply(c, op), Apply(d, op));
    OtherOpsKeepMaps(c, op);
    OtherOpsKeepMaps(d, op);
  }

  // Maps stay where they are; a new window has none.
  lemma OtherOpsKeepMaps(c: Snapshot, op: Op)
    requires Valid(c) && !op.AttachMap?
    ensures
      var d := Apply(c, op);
      forall k :: k in d.superevents ==>
        d.superevents[k].skymap == if k in c.superevents then c.superevents[k].skymap else None
  {
    hide Valid, FormatId, IsNearest;
    ValidIsIndexed(c);
    if op.Ingest? { assert Dist(op.event.endTime, op.event.endTime) == 0.0; }
  }

  // Same windows, members and sky maps as in a run without crashes.
  ghost predicate MapsAgreeAt(c: Snapshot, states: seq<Snapshot>, steps: seq<Step>, i: nat)
    requires Valid(c) && i < |states| && i <= |steps|
  {
    SameButNames(states[i], Run(c, OpsOf(steps[..i])))
  }

  // An attachment of step i reaches the window it would reach without crashes.
  ghost predicate AttachesAlike(c: Snapshot, states: seq<Snapshot>, steps: seq<Step>, i: nat)
    requires Valid(c) && i < |states| && i < |steps| && states[i].times.Keys <= states[i].superevents.Keys
  {
    steps[i].Do? && steps[i].op.AttachMap? ==>
      LandsAlike(states[i], Run(c, OpsOf(steps[..i])), steps[i].op.id, steps[i].op.sky)
  }

  lemma MapsAgreeStep(json: Json, c: Snapshot, states: seq<Snapshot>, steps: seq<Step>, i: nat)
    requires Valid(c) && c.nextSeq + |steps| <= U64_LIMIT && i < |steps|
    requires IsCrashRun(json, states, steps) && states[0] == c && FaithfulCrashes(json, states, steps)
    requires MapsAgreeAt(c, states, steps, i) && states[i].times.Keys <= states[i].superevents.Keys
    ensures MapsAgreeAt(c, states, steps, i + 1) <==> AttachesAlike(c, states, steps, i)
  {
    hide Valid, Restarted, Faithful, SameButNames, NewestIsOpen, LandsAlike, Process, Attach, Cleanup;
    CrashesKeepWindows(json, c, states, steps, i);
    RunStep(c, steps, i);
    assert IsStep(json, states[i], steps[i], states[i + 1]);
    var d := Run(c, OpsOf(steps[..i]));
    match steps[i]
    case Crash =>
      RestartKeepsWindows(json, states[i], states[i + 1]);
      SameUpToCounter(states[i], states[i + 1], d);
    case Do(op) =>
      if op.AttachMap? {
        AttachAlikeIff(states[i], d, op.id, op.sky);
      } else {
        OtherOpsKeepNames(states[i], d, op);
      }
  }

  lemma CrashStatesAreIndexed(json: Json, c: Snapshot, states: seq<Snapshot>, steps: seq<Step>)
    requires Valid(c) && c.nextSeq + |steps| <= U64_LIMIT
    requires IsCrashRun(json, states, steps) && states[0] == c && FaithfulCrashes(json, states, steps)
    ensures forall i :: 0 <= i <= |steps| ==> states[i].times.Keys == states[i].superevents.Keys
  {
    hide Valid, IsStep, FaithfulCrashes;
    forall i | 0 <= i <= |steps| ensures states[i].times.Keys == states[i].superevents.Keys {
      CrashesKeepWindows(json, c, states, steps, i);
      ValidIsIndexed(states[i]);
    }
  }

  lemma {:induction false} MapsAgreeUpTo(json: Json, c: Snapshot, states: seq<Snapshot>, steps: seq<Step>, n: nat)
    requires Valid(c) && c.nextSeq + |steps| <= U64_LIMIT && n <= |steps|
    requires IsCrashRun(json, states, steps) && states[0] == c && FaithfulCrashes(json, states, steps)
    requires forall i :: 0 <= i <= |steps| ==> states[i].times.Keys == states[i].superevents.Keys
    requires forall i :: 0 <= i < n ==> AttachesAlike(c, states, steps, i)
    ensures MapsAgreeAt(c, states, steps, n)
  {
    hide Valid, IsStep, FaithfulCrashes, AttachesAlike, SameButNames;
    if n == 0 {
      assert steps[..0] == [] && Run(c, []) == c;
      SameAsItself(c);
    } else {
      MapsAgreeUpTo(json, c, states, steps, n - 1);
      MapsAgreeStep(json, c, states, steps, n - 1);
    }
  }

  /** Sky maps agree as well, at every point of the run, if and only if each map
      attached reaches the window it would have reached without the crashes, or
      changes nothing either way.  A reused id is what can send it elsewhere. */
  lemma MapsAgreeIff(json: Json, c: Snapshot, states: seq<Snapshot>, steps: seq<Step>)
    requires Valid(c) && c.nextSeq + |steps| <= U64_LIMIT
    requires IsCrashRun(json, states, steps) && states[0] == c && FaithfulCrashes(json, states, steps)
    ensures forall i :: 0 <= i <= |steps| ==> states[i].times.Keys == states[i].superevents.Keys
    ensures
      (forall i :: 0 <= i <= |steps| ==> MapsAgreeAt(c, states, steps, i))
      <==> (forall i :: 0 <= i < |steps| ==> AttachesAlike(c, states, steps, i))
  {
    hide Valid, IsStep, FaithfulCrashes, AttachesAlike, MapsAgreeAt;
    CrashStatesAreIndexed(json, c, states, steps);
    if forall i :: 0 <= i < |steps| ==> AttachesAlike(c, states, steps, i) {
      forall i | 0 <= i <= |steps| ensures MapsAgreeAt(c, states, steps, i) {
        MapsAgreeUpTo(json, c, states, steps, i);
      }
    }
    if forall i :: 0 <= i <= |steps| ==> MapsAgreeAt(c, states, steps, i) {
      forall i | 0 <= i < |steps| ensures AttachesAlike(c, states, steps, i) {
        MapsAgreeStep(json, c, states, steps, i);
      }
    }
  }
}
