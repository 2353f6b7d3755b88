/** Whole runs of the clusterer: what every reachable state satisfies, that no
    event is lost or duplicated, and which reorderings of the input stream are
    invisible. */
module ClusteringRuns {
  import opened Wrappers
  import opened Decimal
  import opened Clustering

  datatype Op = Ingest(event: GwEvent) | AttachMap(id: string, sky: SkyMapFits) | CleanupBefore(cutoff: real)

  ghost function Apply(c: Snapshot, op: Op): (d: Snapshot)
    requires Valid(c)
    ensures Valid(d) && d.window == c.window
  {
    match op
    case Ingest(e) => ProcessKeepsValid(c, e); Process(c, e)
    case AttachMap(id, sky) => AttachKeepsValid(c, id, sky); Attach(c, id, sky)
    case CleanupBefore(cutoff) => CleanupKeepsValid(c, cutoff); Cleanup(c, cutoff)
  }

  // State after a run; every reachable state is Valid.
  ghost function Run(c: Snapshot, ops: seq<Op>): (d: Snapshot)
    requires Valid(c)
    ensures Valid(d) && d.window == c.window
  {
    if ops == [] then c else Apply(Run(c, ops[..|ops| - 1]), ops[|ops| - 1])
  }

  lemma {:induction false} RunConcat(c: Snapshot, p: seq<Op>, q: seq<Op>)
    requires Valid(c)
    ensures Run(c, p + q) == Run(Run(c, p), q)
  {
    hide Valid, Apply;
    if q == [] {
      assert p + q == p;
    } else {
      RunConcat(c, p, q[..|q| - 1]);
      assert (p + q)[..|p + q| - 1] == p + q[..|q| - 1];
    }
  }

  // -------------------------------------------------------- conservation

  ghost function Pick(m: map<real, Superevent>): (k: real)
    requires m != map[]
    ensures k in m
  {
    SomeKey(m);
    var k :| k in m; k
  }

  lemma SomeKey(m: map<real, Superevent>)
    requires m != map[]
    ensures exists k :: k in m
  {
    if forall k :: k !in m { assert false; }
  }

  // Every event recorded in a set of windows, with multiplicity.
  ghost function MembersOf(m: map<real, Superevent>): multiset<GwEvent>
    decreases m.Keys
  {
    if m == map[] then multiset{} else var k := Pick(m); multiset(m[k].gEvents) + MembersOf(m - {k})
  }

  // Taking out two keys in either order.
  lemma RemoveTwo(m: map<real, Superevent>, j: real, k: real)
    ensures m - {j} - {k} == m - {k} - {j}
  {
  }

  lemma {:induction false} MembersSplit(m: map<real, Superevent>, k: real)
    requires k in m
    ensures MembersOf(m) == multiset(m[k].gEvents) + MembersOf(m - {k})
    decreases m.Keys
  {
    var p := Pick(m);
    if p == k {
    } else {
      MembersSplit(m - {p}, k);
      MembersSplit(m - {k}, p);
      RemoveTwo(m, p, k);
      SumsSwap(multiset(m[p].gEvents), multiset(m[k].gEvents), MembersOf(m - {p} - {k}));
    }
  }

  lemma SumsSwap(a: multiset<GwEvent>, b: multiset<GwEvent>, c: multiset<GwEvent>)
    ensures a + (b + c) == b + (a + c)
  {
  }

  lemma MembersAdd(m: map<real, Superevent>, k: real, s: Superevent)
    requires k !in m
    ensures MembersOf(m[k := s]) == MembersOf(m) + multiset(s.gEvents)
  {
    MembersSplit(m[k := s], k);
    assert m[k := s] - {k} == m;
  }

  lemma MembersReplace(m: map<real, Superevent>, k: real, s: Superevent)
    requires k in m
    ensures MembersOf(m) == multiset(m[k].gEvents) + MembersOf(m - {k})
    ensures MembersOf(m[k := s]) == multiset(s.gEvents) + MembersOf(m - {k})
  {
    MembersSplit(m, k);
    MembersSplit(m[k := s], k);
    assert m[k := s] - {k} == m - {k};
  }

  function Restrict(m: map<real, Superevent>, keys: set<real>): map<real, Superevent> {
    map k | k in m && k in keys :: m[k]
  }

  lemma {:induction false} MembersPartition(m: map<real, Superevent>, gone: set<real>)
    ensures MembersOf(m) == MembersOf(m - gone) + MembersOf(Restrict(m, gone))
    decreases m.Keys
  {
    if m == map[] {
      assert m - gone == map[] && Restrict(m, gone) == map[];
    } else {
      var k := Pick(m);
      MembersPartition(m - {k}, gone);
      if k in gone { PartitionInside(m, gone, k); } else { PartitionOutside(m, gone, k); }
    }
  }

  lemma PartitionInside(m: map<real, Superevent>, gone: set<real>, k: real)
    requires k in m && k in gone
    ensures MembersOf(Restrict(m, gone)) == multiset(m[k].gEvents) + MembersOf(Restrict(m - {k}, gone))
    ensures (m - {k}) - gone == m - gone
  {
    MembersSplit(Restrict(m, gone), k);
    assert Restrict(m, gone) - {k} == Restrict(m - {k}, gone);
  }

  lemma PartitionOutside(m: map<real, Superevent>, gone: set<real>, k: real)
    requires k in m && k !in gone
    ensures MembersOf(m - gone) == multiset(m[k].gEvents) + MembersOf((m - {k}) - gone)
    ensures Restrict(m, gone) == Restrict(m - {k}, gone)
  {
    MembersSplit(m - gone, k);
    assert (m - gone) - {k} == (m - {k}) - gone;
  }

  // The events fed in, in order.
  ghost function Ingested(ops: seq<Op>): seq<GwEvent> {
    if ops == [] then []
    else
      var init := Ingested(ops[..|ops| - 1]);
      match ops[|ops| - 1]
      case Ingest(e) => init + [e]
      case AttachMap(_, _) => init
      case CleanupBefore(_) => init
  }

  // The events in superevents dropped along the way.
  ghost function Dropped(c: Snapshot, ops: seq<Op>): multiset<GwEvent>
    requires Valid(c)
  {
    if ops == [] then multiset{}
    else
      var init := ops[..|ops| - 1];
      var d := Run(c, init);
      match ops[|ops| - 1]
      case CleanupBefore(cutoff) => Dropped(c, init) + MembersOf(Restrict(d.superevents, Expired(d, cutoff)))
      case Ingest(_) => Dropped(c, init)
      case AttachMap(_, _) => Dropped(c, init)
  }

  lemma ProcessAddsOneMember(c: Snapshot, e: GwEvent)
    requires c.times.Keys == c.superevents.Keys && c.window >= 0.0
    ensures MembersOf(Process(c, e).superevents) == MembersOf(c.superevents) + multiset{e}
  {
    match Target(c, e.endTime)
    case Some(k) =>
      var s := c.superevents[k];
      MembersReplace(c.superevents, k, Join(s, e));
      assert multiset(Join(s, e).gEvents) == multiset(s.gEvents) + multiset{e};
    case None =>
      assert e.endTime !in c.times by { assert Dist(e.endTime, e.endTime) == 0.0; }
      MembersAdd(c.superevents, e.endTime, Open(c.window, FormatId(c.nextSeq), e));
  }

  lemma AttachKeepsMembers(c: Snapshot, id: string, sky: SkyMapFits)
    requires c.times.Keys == c.superevents.Keys
    ensures MembersOf(Attach(c, id, sky).superevents) == MembersOf(c.superevents)
  {
    match KeyOf(c, id)
    case Some(k) => MembersReplace(c.superevents, k, c.superevents[k].(skymap := Some(sky)));
    case None =>
  }

  // One operation moves members between the open windows, the dropped ones and
  // the input without losing any.
  lemma ApplyConserves(c: Snapshot, op: Op)
    requires Valid(c)
    ensures
      MembersOf(Apply(c, op).superevents)
        + (if op.CleanupBefore? then MembersOf(Restrict(c.superevents, Expired(c, op.cutoff))) else multiset{})
      == MembersOf(c.superevents) + (if op.Ingest? then multiset{op.event} else multiset{})
  {
    hide Valid, Process, Attach, MembersOf, Expired;
    ValidIsIndexed(c);
    match op
    case Ingest(e) => ProcessAddsOneMember(c, e);
    case AttachMap(id, sky) => AttachKeepsMembers(c, id, sky);
    case CleanupBefore(cutoff) => MembersPartition(c.superevents, Expired(c, cutoff));
  }

  // What the last operation of a run adds to the input and to the dropped.
  lemma LastOp(c: Snapshot, ops: seq<Op>)
    requires Valid(c) && ops != []
    ensures
      var init, op := ops[..|ops| - 1], ops[|ops| - 1];
      && multiset(Ingested(ops)) == multiset(Ingested(init)) + (if op.Ingest? then multiset{op.event} else multiset{})
      && Dropped(c, ops) == Dropped(c, init)
           + (if op.CleanupBefore?
              then MembersOf(Restrict(Run(c, init).superevents, Expired(Run(c, init), op.cutoff)))
              else multiset{})
  {
    hide Valid, MembersOf, Expired, Run, Restrict;
  }

  lemma SumsChain(now: multiset<GwEvent>, gone: multiset<GwEvent>, was: multiset<GwEvent>, added: multiset<GwEvent>,
                  dropped: multiset<GwEvent>, ingested: multiset<GwEvent>)
    requires now + gone == was + added && was + dropped == ingested
    ensures now + (dropped + gone) == ingested + added
  {
    assert now + (dropped + gone) == (now + gone) + dropped == (was + dropped) + added;
  }

  /** Over any run, open and dropped superevents together hold exactly the
      events ingested, each once. */
  lemma {:induction false} EventsAreConserved(window: real, ops: seq<Op>)
    requires window >= 0.0
    ensures MembersOf(Run(New(window), ops).superevents) + Dropped(New(window), ops) == multiset(Ingested(ops))
  {
    hide Valid, Apply, Expired, Restrict;
    NewIsValid(window);
    if ops == [] {
    } else {
      var init, op := ops[..|ops| - 1], ops[|ops| - 1];
      var c := Run(New(window), init);
      EventsAreConserved(window, init);
      LastOp(New(window), ops);
      ApplyConserves(c, op);
      var gone := if op.CleanupBefore? then MembersOf(Restrict(c.superevents, Expired(c, op.cutoff))) else multiset{};
      var added := if op.Ingest? then multiset{op.event} else multiset{};
      SumsChain(MembersOf(Apply(c, op).superevents), gone, MembersOf(c.superevents), added,
                Dropped(New(window), init), multiset(Ingested(init)));
    }
  }

  // ------------------------------------------------------- arrival order

  ghost predicate Subsequence(a: seq<GwEvent>, b: seq<GwEvent>) {
    if b == [] then a == []
    else
      || Subsequence(a, b[..|b| - 1])
      || (a != [] && a[|a| - 1] == b[|b| - 1] && Subsequence(a[..|a| - 1], b[..|b| - 1]))
  }

  lemma {:induction false} EmptySubsequence(b: seq<GwEvent>)
    ensures Subsequence([], b)
  {
    if b == [] {
    } else {
      EmptySubsequence(b[..|b| - 1]);
    }
  }

  lemma SubsequenceExtends(a: seq<GwEvent>, b: seq<GwEvent>, e: GwEvent)
    requires Subsequence(a, b)
    ensures Subsequence(a, b + [e]) && Subsequence(a + [e], b + [e])
  {
    assert (b + [e])[..|b|] == b && (a + [e])[..|a|] == a;
  }

  // The members recorded at a centre, none if it is not open.
  function MembersAt(c: Snapshot, k: real): seq<GwEvent> {
    if k in c.superevents then c.superevents[k].gEvents else []
  }

  lemma ProcessAppends(c: Snapshot, e: GwEvent, k: real)
    requires c.times.Keys == c.superevents.Keys && c.window >= 0.0
    ensures MembersAt(Process(c, e), k) == MembersAt(c, k) || MembersAt(Process(c, e), k) == MembersAt(c, k) + [e]
  {
    hide FormatId, Nearest, IsNearest;
    assert Dist(k, k) == 0.0;
    assert [] + [e] == [e];
  }

  lemma OtherOpsKeepMembers(c: Snapshot, op: Op, k: real)
    requires Valid(c) && !op.Ingest?
    ensures MembersAt(Apply(c, op), k) == MembersAt(c, k) || MembersAt(Apply(c, op), k) == []
  {
    hide Valid, Expired;
    ValidIsIndexed(c);
  }

  lemma {:induction false} MembersAreSubsequence(c: Snapshot, ops: seq<Op>, k: real)
    requires Valid(c) && c.superevents == map[]
    ensures Subsequence(MembersAt(Run(c, ops), k), Ingested(ops))
  {
    hide Valid, Subsequence, Process, Attach, Cleanup;
    if ops == [] {
      EmptySubsequence([]);
    } else {
      var init, op := ops[..|ops| - 1], ops[|ops| - 1];
      var d := Run(c, init);
      ValidIsIndexed(d);
      MembersAreSubsequence(c, init, k);
      EmptySubsequence(Ingested(init));
      if op.Ingest? {
        ProcessAppends(d, op.event, k);
        SubsequenceExtends(MembersAt(d, k), Ingested(init), op.event);
      } else {
        OtherOpsKeepMembers(d, op, k);
      }
    }
  }

  /** Each open superevent lists its members in the order they arrived, so the
      preferred event is the earliest arrival of maximal SNR. */
  lemma MembersKeepArrivalOrder(window: real, ops: seq<Op>, k: real)
    requires window >= 0.0 && k in Run(New(window), ops).superevents
    ensures
      var s := Run(New(window), ops).superevents[k];
      Subsequence(s.gEvents, Ingested(ops)) && IsPreferred(s.gEvents, s.preferredEvent)
  {
    hide Subsequence, Run, GoodWindows, AllIssued, DistinctIds, Separated, IsPreferred;
    NewIsValid(window);
    MembersAreSubsequence(New(window), ops, k);
    GoodWindowAt(Run(New(window), ops), k);
  }

  // --------------------------------------------------------- commutation

  function SwapId(id: string, x: string, y: string): string {
    if id == x then y else if id == y then x else id
  }

  /** d is c with the ids x and y exchanged: same centres, members, preferred
      events, sky maps and counter. */
  ghost predicate Twins(c: Snapshot, d: Snapshot, x: string, y: string) {
    && c.window == d.window && c.nextSeq == d.nextSeq
    && c.times.Keys == c.superevents.Keys
    && TwinNames(c.times, d.times, x, y) && TwinWindows(c.superevents, d.superevents, x, y)
  }

  ghost predicate TwinNames(t: map<real, string>, u: map<real, string>, x: string, y: string) {
    t.Keys == u.Keys && forall k :: k in t ==> u[k] == SwapId(t[k], x, y)
  }

  ghost predicate TwinWindows(m: map<real, Superevent>, n: map<real, Superevent>, x: string, y: string) {
    m.Keys == n.Keys && forall k :: k in m ==> n[k] == WithSwappedId(m[k], x, y)
  }

  function WithSwappedId(s: Superevent, x: string, y: string): Superevent {
    s.(id := SwapId(s.id, x, y))
  }

  lemma TwinNamesPut(t: map<real, string>, u: map<real, string>, x: string, y: string, k: real, p: string)
    requires TwinNames(t, u, x, y)
    ensures TwinNames(t[k := p], u[k := SwapId(p, x, y)], x, y)
  {
    hide SwapId;
  }

  lemma TwinWindowsPut(m: map<real, Superevent>, n: map<real, Superevent>, x: string, y: string, k: real, s: Superevent)
    requires TwinWindows(m, n, x, y)
    ensures TwinWindows(m[k := s], n[k := WithSwappedId(s, x, y)], x, y)
  {
    hide WithSwappedId;
  }

  // What one window of twins becomes, in both.
  lemma TwinsPut(c: Snapshot, d: Snapshot, x: string, y: string, k: real, s: Superevent)
    requires Twins(c, d, x, y) && k in c.superevents
    ensures
      Twins(c.(superevents := c.superevents[k := s]),
            d.(superevents := d.superevents[k := WithSwappedId(s, x, y)]), x, y)
  {
    hide TwinNames, TwinWindows, WithSwappedId;
    TwinWindowsPut(c.superevents, d.superevents, x, y, k, s);
    assert c.superevents[k := s].Keys == c.superevents.Keys;
  }

  lemma TwinsAt(c: Snapshot, d: Snapshot, x: string, y: string, k: real)
    requires Twins(c, d, x, y) && k in c.superevents
    ensures k in d.superevents && d.superevents[k] == WithSwappedId(c.superevents[k], x, y)
    ensures k in c.times && k in d.times && d.times[k] == SwapId(c.times[k], x, y)
  {
    hide WithSwappedId, SwapId;
  }

  lemma TwinsHaveSameKeys(c: Snapshot, d: Snapshot, x: string, y: string)
    requires Twins(c, d, x, y)
    ensures c.times.Keys == d.times.Keys == c.superevents.Keys == d.superevents.Keys
    ensures c.window == d.window && c.nextSeq == d.nextSeq
  {
    hide WithSwappedId, SwapId;
  }

  lemma NearestIgnoresFarKey(keys: set<real>, half: real, t: real, k: real)
    requires Dist(t, k) > half
    ensures Nearest(keys + {k}, half, t) == Nearest(keys, half, t)
  {
    match Nearest(keys, half, t)
    case Some(n) =>
      assert IsNearest(keys + {k}, half, t, n);
      NearestIsUnique(keys + {k}, half, t, n);
    case None =>
  }

  lemma NoSharedTarget(keys: set<real>, half: real, s: real, t: real)
    requires Dist(s, t) > 2.0 * half && Nearest(keys, half, t).Some?
    ensures Nearest(keys, half, s) != Nearest(keys, half, t)
  {
    hide IsNearest;
    var k := Nearest(keys, half, t).value;
  }

  // What processing a leaves b to find, when the two are far apart.
  lemma TargetSurvivesFarEvent(c: Snapshot, a: GwEvent, b: GwEvent)
    requires c.times.Keys == c.superevents.Keys && c.window >= 0.0
    requires Dist(a.endTime, b.endTime) > c.window
    ensures Target(Process(c, a), b.endTime) == Target(c, b.endTime)
    ensures Target(c, b.endTime).Some? ==> Target(c, b.endTime) != Target(c, a.endTime)
  {
    hide Join, FormatId, Nearest, IsNearest;
    if Target(c, b.endTime).Some? {
      NoSharedTarget(c.times.Keys, c.window / 2.0, a.endTime, b.endTime);
    }
    if Target(c, a.endTime).None? {
      NearestIgnoresFarKey(c.times.Keys, c.window / 2.0, b.endTime, a.endTime);
      assert Process(c, a).times.Keys == c.times.Keys + {a.endTime};
    }
  }

  // Windows open before keep their name when two later ids are exchanged.
  lemma OldIdsAreNotSwapped(c: Snapshot)
    requires Valid(c)
    ensures forall k :: k in c.times ==> SwapId(c.times[k], FormatId(c.nextSeq), FormatId(c.nextSeq + 1)) == c.times[k]
  {
    forall k | k in c.times
      ensures SwapId(c.times[k], FormatId(c.nextSeq), FormatId(c.nextSeq + 1)) == c.times[k]
    {
      IssuedGrows(c.times[k], c.nextSeq);
      IssuedGrows(c.times[k], c.nextSeq + 1);
    }
  }

  // Nothing renamed: windows opened before.
  lemma TwinsWithItself(c: Snapshot, x: string, y: string)
    requires c.times.Keys == c.superevents.Keys && forall k :: k in c.times ==> c.superevents[k].id == c.times[k]
    requires forall k :: k in c.times ==> SwapId(c.times[k], x, y) == c.times[k]
    ensures Twins(c, c, x, y)
  {
    hide SwapId;
    forall k | k in c.superevents ensures c.superevents[k] == WithSwappedId(c.superevents[k], x, y) {
      assert SwapId(c.superevents[k].id, x, y) == c.superevents[k].id;
    }
  }

  // A window opened in both under exchanged names.
  lemma TwinsOpen(c: Snapshot, d: Snapshot, x: string, y: string, e: GwEvent, p: string)
    requires Twins(c, d, x, y)
    ensures
      Twins(OpenedAs(c, e, p), OpenedAs(d, e, SwapId(p, x, y)), x, y)
  {
    hide TwinNames, TwinWindows, SwapId;
    TwinsHaveSameKeys(c, d, x, y);
    TwinNamesPut(c.times, d.times, x, y, e.endTime, p);
    TwinWindowsPut(c.superevents, d.superevents, x, y, e.endTime, Open(c.window, p, e));
  }

  function OpenedAs(c: Snapshot, e: GwEvent, id: string): Snapshot {
    Snapshot(c.window, c.superevents[e.endTime := Open(c.window, id, e)], c.times[e.endTime := id], c.nextSeq + 1)
  }

  lemma OpenedAsCommute(c: Snapshot, a: GwEvent, p: string, b: GwEvent, q: string)
    requires a.endTime != b.endTime
    ensures OpenedAs(OpenedAs(c, a, p), b, q) == OpenedAs(OpenedAs(c, b, q), a, p)
  {
    hide Open;
    UpdatesCommute(c.superevents, a.endTime, Open(c.window, p, a), b.endTime, Open(c.window, q, b));
    UpdatesCommute(c.times, a.endTime, p, b.endTime, q);
  }

  lemma OpenedTwins(c: Snapshot, a: GwEvent, b: GwEvent, x: string, y: string)
    requires c.times.Keys == c.superevents.Keys && forall k :: k in c.times ==> c.superevents[k].id == c.times[k]
    requires x == FormatId(c.nextSeq) && y == FormatId(c.nextSeq + 1)
    requires forall k :: k in c.times ==> SwapId(c.times[k], x, y) == c.times[k]
    requires a.endTime != b.endTime
    ensures Twins(Opened(Opened(c, a), b), Opened(Opened(c, b), a), x, y)
  {
    hide FormatId, Twins, OpenedAs;
    TwinsWithItself(c, x, y);
    TwinsOpen(c, c, x, y, a, x);
    TwinsOpen(OpenedAs(c, a, x), OpenedAs(c, a, y), x, y, b, y);
    OpenedAsCommute(c, a, y, b, x);
    OpenedIsOpenedAs(c, a);
    OpenedIsOpenedAs(Opened(c, a), b);
    OpenedIsOpenedAs(c, b);
    OpenedIsOpenedAs(Opened(c, b), a);
  }

  lemma OpenedIsOpenedAs(c: Snapshot, e: GwEvent)
    ensures Opened(c, e) == OpenedAs(c, e, FormatId(c.nextSeq)) && Opened(c, e).nextSeq == c.nextSeq + 1
  {
    hide FormatId, Open;
  }

  lemma BothOpenCommute(c: Snapshot, a: GwEvent, b: GwEvent)
    requires Valid(c) && Dist(a.endTime, b.endTime) > c.window
    requires Target(c, a.endTime).None? && Target(c, b.endTime).None?
    ensures Twins(Process(Process(c, a), b), Process(Process(c, b), a), FormatId(c.nextSeq), FormatId(c.nextSeq + 1))
    ensures Process(Process(c, a), b).nextSeq == c.nextSeq + 2
  {
    hide FormatId, Nearest, IsNearest, Twins;
    TargetSurvivesFarEvent(c, a, b);
    TargetSurvivesFarEvent(c, b, a);
    OldIdsAreNotSwapped(c);
    assert Dist(a.endTime, a.endTime) == 0.0 == Dist(b.endTime, b.endTime);
    OpenedTwins(c, a, b, FormatId(c.nextSeq), FormatId(c.nextSeq + 1));
  }

  lemma NotBothOpenCommute(c: Snapshot, a: GwEvent, b: GwEvent)
    requires Valid(c) && Dist(a.endTime, b.endTime) > c.window
    requires Target(c, a.endTime).Some?
    ensures Process(Process(c, a), b) == Process(Process(c, b), a)
  {
    hide Valid, Nearest, IsNearest, Join, Open, FormatId;
    ValidIsIndexed(c);
    TargetSurvivesFarEvent(c, a, b);
    TargetSurvivesFarEvent(c, b, a);
    var k := Target(c, a.endTime).value;
    match Target(c, b.endTime)
    case Some(j) =>
      UpdatesCommute(c.superevents, k, Join(c.superevents[k], a), j, Join(c.superevents[j], b));
    case None =>
      assert Dist(b.endTime, b.endTime) == 0.0;
      UpdatesCommute(c.superevents, k, Join(c.superevents[k], a), b.endTime, Open(c.window, FormatId(c.nextSeq), b));
  }

  lemma UpdatesCommute<T>(m: map<real, T>, j: real, s: T, k: real, t: T)
    requires j != k
    ensures m[j := s][k := t] == m[k := t][j := s]
  {
  }

  /** Two events more than a full window apart may arrive in either order: the
      resulting states are equal, except that when both open a window the two
      added ids are exchanged. */
  lemma FarEventsCommute(c: Snapshot, a: GwEvent, b: GwEvent)
    requires Valid(c) && Dist(a.endTime, b.endTime) > c.window
    ensures
      var ab, ba := Process(Process(c, a), b), Process(Process(c, b), a);
      if Target(c, a.endTime).None? && Target(c, b.endTime).None?
      then Twins(ab, ba, FormatId(c.nextSeq), FormatId(c.nextSeq + 1))
      else ab == ba
  {
    if Target(c, a.endTime).Some? {
      NotBothOpenCommute(c, a, b);
    } else if Target(c, b.endTime).Some? {
      NotBothOpenCommute(c, b, a);
    } else {
      BothOpenCommute(c, a, b);
    }
  }

  // ----------------------------------- renaming is invisible to later steps

  function SwappedOp(op: Op, x: string, y: string): Op {
    match op
    case AttachMap(id, sky) => AttachMap(SwapId(id, x, y), sky)
    case Ingest(_) => op
    case CleanupBefore(_) => op
  }

  function SwappedOps(ops: seq<Op>, x: string, y: string): (r: seq<Op>)
    ensures |r| == |ops|
  {
    seq(|ops|, i requires 0 <= i < |ops| => SwappedOp(ops[i], x, y))
  }

  lemma JoinIgnoresId(s: Superevent, e: GwEvent, x: string, y: string)
    ensures Join(WithSwappedId(s, x, y), e) == WithSwappedId(Join(s, e), x, y)
  {
  }

  // A name just issued is none of two older ones.
  lemma NewNameIsNotSwapped(n: nat, x: string, y: string)
    requires Issued(x, n) && Issued(y, n)
    ensures SwapId(FormatId(n), x, y) == FormatId(n)
  {
    hide FormatId;
    IssuedGrows(x, n);
    IssuedGrows(y, n);
  }

  lemma TwinsProcess(c: Snapshot, d: Snapshot, e: GwEvent, x: string, y: string)
    requires Twins(c, d, x, y) && Issued(x, c.nextSeq) && Issued(y, c.nextSeq)
    ensures d.times.Keys == d.superevents.Keys && Twins(Process(c, e), Process(d, e), x, y)
  {
    hide FormatId, Nearest, IsNearest, Twins, Join, WithSwappedId, OpenedAs, Issued, SwapId;
    TwinsHaveSameKeys(c, d, x, y);
    match Target(c, e.endTime)
    case Some(k) =>
      TwinsAt(c, d, x, y, k);
      JoinIgnoresId(c.superevents[k], e, x, y);
      TwinsPut(c, d, x, y, k, Join(c.superevents[k], e));
    case None =>
      NewNameIsNotSwapped(c.nextSeq, x, y);
      TwinsOpen(c, d, x, y, e, FormatId(c.nextSeq));
      OpenedIsOpenedAs(c, e);
      OpenedIsOpenedAs(d, e);
  }

  // Exchanged names point at the same centre.
  lemma TwinsKeyOf(c: Snapshot, d: Snapshot, id: string, x: string, y: string)
    requires Valid(c) && Valid(d) && Twins(c, d, x, y)
    ensures KeyOf(d, SwapId(id, x, y)) == KeyOf(c, id)
  {
    hide Valid, Twins;
    ValidIsIndexed(c);
    ValidIsIndexed(d);
    TwinsHaveSameKeys(c, d, x, y);
    if KeyOf(c, id).Some? { TwinsAt(c, d, x, y, KeyOf(c, id).value); }
    if KeyOf(d, SwapId(id, x, y)).Some? { TwinsAt(c, d, x, y, KeyOf(d, SwapId(id, x, y)).value); }
  }

  lemma TwinsAttach(c: Snapshot, d: Snapshot, id: string, sky: SkyMapFits, x: string, y: string)
    requires Valid(c) && Valid(d) && Twins(c, d, x, y)
    ensures Twins(Attach(c, id, sky), Attach(d, SwapId(id, x, y), sky), x, y)
  {
    hide Valid, Twins, KeyOf, SwapId;
    TwinsHaveSameKeys(c, d, x, y);
    TwinsKeyOf(c, d, id, x, y);
    match KeyOf(c, id)
    case Some(k) =>
      TwinsAt(c, d, x, y, k);
      TwinsPut(c, d, x, y, k, c.superevents[k].(skymap := Some(sky)));
    case None =>
  }

  lemma TwinsExpire(c: Snapshot, d: Snapshot, cutoff: real, x: string, y: string)
    requires Twins(c, d, x, y)
    ensures Expired(c, cutoff) == Expired(d, cutoff)
  {
    hide TwinNames, SwapId;
    assert forall k :: k in c.superevents ==> c.superevents[k].tEnd == d.superevents[k].tEnd;
  }

  lemma TwinsCleanup(c: Snapshot, d: Snapshot, cutoff: real, x: string, y: string)
    requires Twins(c, d, x, y)
    ensures Twins(Cleanup(c, cutoff), Cleanup(d, cutoff), x, y)
  {
    hide Expired, SwapId, WithSwappedId;
    TwinsExpire(c, d, cutoff, x, y);
  }

  lemma TwinsApply(c: Snapshot, d: Snapshot, op: Op, x: string, y: string)
    requires Valid(c) && Valid(d) && Twins(c, d, x, y) && Issued(x, c.nextSeq) && Issued(y, c.nextSeq)
    ensures Twins(Apply(c, op), Apply(d, SwappedOp(op, x, y)), x, y)
    ensures Issued(x, Apply(c, op).nextSeq) && Issued(y, Apply(c, op).nextSeq)
  {
    hide Valid, Twins, Issued, FormatId, Join, SwapId, Nearest, KeyOf, Expired;
    IssuedGrows(x, c.nextSeq);
    IssuedGrows(y, c.nextSeq);
    ValidIsIndexed(c);
    match op
    case Ingest(e) => TwinsProcess(c, d, e, x, y);
    case AttachMap(id, sky) => TwinsAttach(c, d, id, sky, x, y);
    case CleanupBefore(cutoff) => TwinsCleanup(c, d, cutoff, x, y);
  }

  lemma {:induction false} TwinsRun(c: Snapshot, d: Snapshot, ops: seq<Op>, x: string, y: string)
    requires Valid(c) && Valid(d) && Twins(c, d, x, y) && Issued(x, c.nextSeq) && Issued(y, c.nextSeq)
    ensures Twins(Run(c, ops), Run(d, SwappedOps(ops, x, y)), x, y)
    ensures Issued(x, Run(c, ops).nextSeq) && Issued(y, Run(c, ops).nextSeq)
  {
    hide Valid, Twins, Apply, Issued;
    if ops == [] {
    } else {
      var init := ops[..|ops| - 1];
      TwinsRun(c, d, init, x, y);
      assert SwappedOps(ops, x, y)[..|ops| - 1] == SwappedOps(init, x, y);
      TwinsApply(Run(c, init), Run(d, SwappedOps(init, x, y)), ops[|ops| - 1], x, y);
    }
  }

  lemma JustIssued(n: nat)
    ensures Issued(FormatId(n), n + 2) && Issued(FormatId(n + 1), n + 2)
  {
  }

  lemma RunPair(c: Snapshot, before: seq<Op>, a: GwEvent, b: GwEvent, after: seq<Op>)
    requires Valid(c)
    ensures Valid(Process(Process(Run(c, before), a), b))
    ensures Run(c, before + [Ingest(a), Ingest(b)] + after) == Run(Process(Process(Run(c, before), a), b), after)
  {
    var m := Run(c, before);
    var pair := [Ingest(a), Ingest(b)];
    RunConcat(c, before + pair, after);
    RunConcat(c, before, pair);
    assert pair[..1] == [Ingest(a)] && [Ingest(a)][..0] == [];
    assert Run(m, [Ingest(a)]) == Apply(Run(m, []), Ingest(a)) == Process(m, a);
    assert Run(m, pair) == Apply(Process(m, a), Ingest(b));
  }

  /** Stream reordering: exchanging two neighbouring events that are more than
      a full window apart changes nothing in any later state but, when both
      open a window, the names of those two windows.  Sky maps addressed to the
      two ids are readdressed along with them. */
  lemma ReorderedStream(c: Snapshot, before: seq<Op>, a: GwEvent, b: GwEvent, after: seq<Op>)
    requires Valid(c) && Dist(a.endTime, b.endTime) > c.window
    ensures
      var m := Run(c, before);
      var x, y := FormatId(m.nextSeq), FormatId(m.nextSeq + 1);
      var original := Run(c, before + [Ingest(a), Ingest(b)] + after);
      if Target(m, a.endTime).None? && Target(m, b.endTime).None?
      then Twins(original, Run(c, before + [Ingest(b), Ingest(a)] + SwappedOps(after, x, y)), x, y)
      else original == Run(c, before + [Ingest(b), Ingest(a)] + after)
  {
    hide Twins, Process, FormatId, Target, Run, Apply, Valid, Issued;
    var m := Run(c, before);
    RunPair(c, before, a, b, after);
    RunPair(c, before, b, a, after);
    FarEventsCommute(m, a, b);
    if Target(m, a.endTime).None? && Target(m, b.endTime).None? { ReorderedOpenings(c, before, a, b, after); }
  }

  lemma ReorderedOpenings(c: Snapshot, before: seq<Op>, a: GwEvent, b: GwEvent, after: seq<Op>)
    requires Valid(c) && Dist(a.endTime, b.endTime) > c.window
    requires Target(Run(c, before), a.endTime).None? && Target(Run(c, before), b.endTime).None?
    ensures
      var m := Run(c, before);
      var x, y := FormatId(m.nextSeq), FormatId(m.nextSeq + 1);
      Twins(Run(c, before + [Ingest(a), Ingest(b)] + after),
            Run(c, before + [Ingest(b), Ingest(a)] + SwappedOps(after, x, y)), x, y)
  {
    hide Twins, Process, FormatId, Target, Run, Apply, Valid, Issued;
    var m := Run(c, before);
    var x, y := FormatId(m.nextSeq), FormatId(m.nextSeq + 1);
    RunPair(c, before, a, b, after);
    RunPair(c, before, b, a, SwappedOps(after, x, y));
    ValidIsIndexed(m);
    BothOpenCommute(m, a, b);
    JustIssued(m.nextSeq);
    TwinsRun(Process(Process(m, a), b), Process(Process(m, b), a), after, x, y);
  }
}
