/** Stored cross-matches: rescans, recomputations and operator decisions
    (src/ingest.rs, src/api.rs, src/archive.rs). */
module CrossMatches {
  import opened Wrappers
  import opened Reals
  import opened Sorting
  import opened Significance
  import opened Tiers
  import Boom

  datatype MatchId = MatchId(superevent: string, instrument: string, trigger: string)

  datatype Metrics = Metrics(timeOffset: real, spatialOverlap: real, in50: bool, in90: bool, joint: Option<real>,
                             pValue: Option<real>, trials: Option<nat>, remapped: Option<real>, targeted: Option<real>)

  datatype MatchDoc = MatchDoc(id: MatchId, metrics: Metrics, associated: bool, computedAt: int)

  type Store = map<MatchId, MatchDoc>

  // A freshly computed match; its flag always starts false.
  datatype Match = Match(instrument: string, trigger: string, metrics: Metrics)

  // How the archive answers while one match is handled.
  datatype Access = Works | LookupFails | UpsertFails

  // One pass of the upsert loop: the match, the archive's behaviour, the clock.
  datatype Visit = Visit(found: Match, access: Access, now: int)

  datatype IngestError = SupereventNotFound | SkymapMissing | StorageFailed | ArchiveFailed

  // ---------------------------------------------------------- candidates

  datatype Trigger = Trigger(instrument: string, id: string, time: real)

  // An optical alert with its turn-on bracket; no trigger without a position.
  datatype BoomAlert = BoomAlert(first: Option<real>, last: Option<real>, trigger: Option<Trigger>)

  datatype Sources = Sources(grbs: seq<Trigger>, booms: seq<BoomAlert>, frbs: seq<Trigger>, neutrinos: seq<Trigger>)

  predicate InWindow(t: Trigger, t0: real, window: real) {
    t0 - window <= t.time <= t0 + window
  }

  predicate IsAdmitted(b: BoomAlert, t0: real) {
    Boom.RescanAdmits(b.first, b.last, t0) && b.trigger.Some?
  }

  function Near(triggers: seq<Trigger>, t0: real, window: real): seq<Trigger> {
    if triggers == [] then []
    else
      var last := triggers[|triggers| - 1];
      Near(triggers[..|triggers| - 1], t0, window) + if InWindow(last, t0, window) then [last] else []
  }

  function TurnedOn(booms: seq<BoomAlert>, t0: real): seq<Trigger> {
    if booms == [] then []
    else
      var last := booms[|booms| - 1];
      TurnedOn(booms[..|booms| - 1], t0) + if IsAdmitted(last, t0) then [last.trigger.value] else []
  }

  function Candidates(src: Sources, t0: real, window: real): seq<Trigger> {
    Near(src.grbs, t0, window) + TurnedOn(src.booms, t0) + Near(src.frbs, t0, window) + Near(src.neutrinos, t0, window)
  }

  // Localizing a trigger and computing its metrics; None when either fails.
  type Compute = Trigger -> Option<Metrics>

  function MatchOf(compute: Compute, t: Trigger): Option<Match> {
    match compute(t)
    case Some(m) => Some(Match(t.instrument, t.id, m))
    case None => None
  }

  function Computed(compute: Compute, triggers: seq<Trigger>): seq<Match> {
    if triggers == [] then []
    else
      var m := MatchOf(compute, triggers[|triggers| - 1]);
      Computed(compute, triggers[..|triggers| - 1]) + if m.Some? then [m.value] else []
  }

  // A cursor walk over one collection.
  method CollectNear(triggers: seq<Trigger>, t0: real, window: real) returns (out: seq<Trigger>)
    ensures out == Near(triggers, t0, window)
  {
    out := [];
    for i := 0 to |triggers|
      invariant out == Near(triggers[..i], t0, window)
    {
      assert triggers[..i + 1][..i] == triggers[..i];
      if t0 - window <= triggers[i].time && triggers[i].time <= t0 + window { out := out + [triggers[i]]; }
    }
    assert triggers[..|triggers|] == triggers;
  }

  method CollectTurnedOn(booms: seq<BoomAlert>, t0: real) returns (out: seq<Trigger>)
    ensures out == TurnedOn(booms, t0)
  {
    out := [];
    for i := 0 to |booms|
      invariant out == TurnedOn(booms[..i], t0)
    {
      assert booms[..i + 1][..i] == booms[..i];
      if Boom.RescanAdmits(booms[i].first, booms[i].last, t0) {
        if booms[i].trigger.Some? { out := out + [booms[i].trigger.value]; }
      }
    }
    assert booms[..|booms|] == booms;
  }

  method ComputeAll(compute: Compute, triggers: seq<Trigger>) returns (out: seq<Match>)
    ensures out == Computed(compute, triggers)
  {
    hide MatchOf;
    out := [];
    for i := 0 to |triggers|
      invariant out == Computed(compute, triggers[..i])
    {
      assert triggers[..i + 1][..i] == triggers[..i];
      var m := MatchOf(compute, triggers[i]);
      if m.Some? { out := out + [m.value]; }
    }
    assert triggers[..|triggers|] == triggers;
  }

  // Fetches and workers run concurrently: nothing is promised about the order.
  method InSomeOrder(found: seq<Match>) returns (arrived: seq<Match>)
    ensures multiset(arrived) == multiset(found) && |arrived| == |found|
  {
    arrived := found;
  }

  lemma {:induction false} NearIff(triggers: seq<Trigger>, t0: real, window: real, t: Trigger)
    ensures t in Near(triggers, t0, window) <==> t in triggers && InWindow(t, t0, window)
  {
    hide InWindow;
    if triggers == [] {
    } else {
      NearIff(triggers[..|triggers| - 1], t0, window, t);
      assert triggers == triggers[..|triggers| - 1] + [triggers[|triggers| - 1]];
    }
  }

  ghost predicate TurnsOn(booms: seq<BoomAlert>, t0: real, t: Trigger) {
    exists b :: b in booms && Brackets(b, t0) && b.trigger == Some(t)
  }

  // Last seen absent at or before t_0, first seen present at or after it.
  predicate Brackets(b: BoomAlert, t0: real) {
    b.first.Some? && b.last.Some? && b.last.value <= t0 <= b.first.value
  }

  // Each source is walked row by row, keeping its order.
  lemma RowByRow(triggers: seq<Trigger>, t: Trigger, booms: seq<BoomAlert>, b: BoomAlert, t0: real, window: real)
    ensures Near([], t0, window) == [] && TurnedOn([], t0) == []
    ensures Near(triggers + [t], t0, window)
         == Near(triggers, t0, window) + if t0 - window <= t.time <= t0 + window then [t] else []
    ensures TurnedOn(booms + [b], t0)
         == TurnedOn(booms, t0) + if Brackets(b, t0) && b.trigger.Some? then [b.trigger.value] else []
  {
    assert (triggers + [t])[..|triggers|] == triggers && (booms + [b])[..|booms|] == booms;
  }

  lemma {:induction false} TurnedOnIff(booms: seq<BoomAlert>, t0: real, t: Trigger)
    ensures t in TurnedOn(booms, t0) <==> TurnsOn(booms, t0, t)
  {
    if booms == [] {
    } else {
      var init, last := booms[..|booms| - 1], booms[|booms| - 1];
      TurnedOnIff(init, t0, t);
      assert forall b :: b in booms <==> b in init || b == last;
    }
  }

  /** A trigger is a candidate exactly when it is a GRB, FRB or neutrino within the
      window of t_0, ends included, or that of an optical alert whose bracket
      encloses t_0, whatever the window. */
  lemma CandidateIff(src: Sources, t0: real, window: real, t: Trigger)
    ensures
      t in Candidates(src, t0, window) <==>
        || ((t in src.grbs || t in src.frbs || t in src.neutrinos) && t0 - window <= t.time <= t0 + window)
        || TurnsOn(src.booms, t0, t)
  {
    hide Near, TurnedOn, TurnsOn;
    NearIff(src.grbs, t0, window, t);
    NearIff(src.frbs, t0, window, t);
    NearIff(src.neutrinos, t0, window, t);
    TurnedOnIff(src.booms, t0, t);
  }

  ghost predicate IsComputed(compute: Compute, triggers: seq<Trigger>, m: Match) {
    exists t :: t in triggers && MatchOf(compute, t) == Some(m)
  }

  lemma {:induction false} ComputedIff(compute: Compute, triggers: seq<Trigger>, m: Match)
    ensures m in Computed(compute, triggers) <==> IsComputed(compute, triggers, m)
  {
    hide MatchOf;
    if triggers == [] {
    } else {
      var init, last := triggers[..|triggers| - 1], triggers[|triggers| - 1];
      ComputedIff(compute, init, m);
      assert forall t :: t in triggers <==> t in init || t == last;
    }
  }

  // ---------------------------------------------------------- the store

  function IdOf(superevent: string, m: Match): MatchId {
    MatchId(superevent, m.instrument, m.trigger)
  }

  predicate Flag(docs: Store, id: MatchId) {
    id in docs && docs[id].associated
  }

  // Remapped, else joint, else infinite.
  function EffectiveFar(d: MatchDoc): Key {
    if d.metrics.remapped.Some? then Finite(d.metrics.remapped.value)
    else if d.metrics.joint.Some? then Finite(d.metrics.joint.value)
    else Infinite
  }

  // The document a rescan stores; a failed lookup reads as "not associated".
  function Rematch(docs: Store, superevent: string, v: Visit): MatchDoc {
    var id := IdOf(superevent, v.found);
    MatchDoc(id, v.found.metrics, v.access.Works? && Flag(docs, id), v.now)
  }

  // The store after the loop, what it wrote, and whether it reached the end.
  datatype Outcome = Outcome(docs: Store, written: seq<MatchDoc>, ok: bool)

  function Scan(docs: Store, superevent: string, visits: seq<Visit>): Outcome
    decreases |visits|
  {
    if visits == [] then Outcome(docs, [], true)
    else if visits[0].access.UpsertFails? then Outcome(docs, [], false)
    else
      var doc := Rematch(docs, superevent, visits[0]);
      var rest := Scan(docs[doc.id := doc], superevent, visits[1..]);
      rest.(written := [doc] + rest.written)
  }

  // An outcome whose earlier passes wrote `results`.
  function After(results: seq<MatchDoc>, rest: Outcome): Outcome {
    rest.(written := results + rest.written)
  }

  lemma ScanOnePass(docs: Store, superevent: string, visits: seq<Visit>, i: nat, results: seq<MatchDoc>)
    requires i < |visits|
    ensures
      var doc := Rematch(docs, superevent, visits[i]);
      After(results, Scan(docs, superevent, visits[i..])) ==
        if visits[i].access.UpsertFails? then Outcome(docs, results, false)
        else After(results + [doc], Scan(docs[doc.id := doc], superevent, visits[i + 1..]))
  {
    hide Rematch;
    assert visits[i..][0] == visits[i] && visits[i..][1..] == visits[i + 1..];
    var doc := Rematch(docs, superevent, visits[i]);
    var rest := Scan(docs[doc.id := doc], superevent, visits[i + 1..]);
    assert results + ([doc] + rest.written) == results + [doc] + rest.written;
  }

  lemma ScanEnds(docs: Store, superevent: string, visits: seq<Visit>, results: seq<MatchDoc>)
    ensures After(results, Scan(docs, superevent, visits[|visits|..])) == Outcome(docs, results, true)
  {
  }

  lemma StartsEmpty(all: Outcome)
    ensures After([], all) == all
  {
    assert [] + all.written == all.written;
  }

  datatype Op =
    | Rescan(superevent: string, visits: seq<Visit>)
    | Patch(id: MatchId, flag: bool)
    | Create(superevent: string, found: Match, now: int)

  function Step(docs: Store, op: Op): Store {
    match op
    case Rescan(superevent, visits) => Scan(docs, superevent, visits).docs
    case Patch(id, flag) => if id in docs then docs[id := docs[id].(associated := flag)] else docs
    case Create(superevent, m, now) =>
      docs[IdOf(superevent, m) := MatchDoc(IdOf(superevent, m), m.metrics, false, now)]
  }

  datatype SkymapLookup = Stored | Missing | Unreadable

  // What a rescan finds before it looks for candidates: the superevent's t_0, its
  // sky map, whether stored contours parse and whether the cursors work.
  datatype Context = Context(
    archiveOk: bool, superevent: Option<real>, skymap: SkymapLookup, contoursParse: bool, cursorsOk: bool)

  // The first obstacle, in the order the program meets them.
  function Refused(ctx: Context): Option<IngestError> {
    if !ctx.archiveOk then Some(ArchiveFailed)
    else if ctx.superevent.None? then Some(SupereventNotFound)
    else if ctx.skymap.Missing? then Some(SkymapMissing)
    else if ctx.skymap.Unreadable? then Some(StorageFailed)
    else if !ctx.contoursParse || !ctx.cursorsOk then Some(ArchiveFailed)
    else None
  }

  class Archive {
    var crossMatches: Store

    constructor ()
      ensures crossMatches == map[]
    {
      crossMatches := map[];
    }

    /** `rescan_superevent_cross_matches`: look up, collect, compute, then upsert
        match by match.  `visits` is the order in which the matches arrived. */
    method Rescan(superevent: string, ctx: Context, src: Sources, window: real, compute: Compute,
                  access: nat -> Access, clock: nat -> int)
      returns (r: Result<seq<MatchDoc>, IngestError>, ghost visits: seq<Visit>)
      modifies this
      ensures Refused(ctx).Some? ==> r == Err(Refused(ctx).value) && crossMatches == old(crossMatches)
      ensures Refused(ctx).None? ==>
        && multiset(Found(visits)) == multiset(Computed(compute, Candidates(src, ctx.superevent.value, window)))
        && (forall i :: 0 <= i < |visits| ==> visits[i].access == access(i) && visits[i].now == clock(i))
        && crossMatches == Step(old(crossMatches), Op.Rescan(superevent, visits))
        && var outcome := Scan(old(crossMatches), superevent, visits);
        && (r.Ok? <==> outcome.ok)
        && (r.Err? ==> r.error == ArchiveFailed)
        && (r.Ok? ==>
              IsStableSort(EffectiveFar, outcome.written, r.value) && multiset(r.value) == multiset(outcome.written))
    {
      hide Scan, After, SortBy, IsStableSort, Near, TurnedOn, Computed, Rematch;
      visits := [];
      if !ctx.archiveOk { return Err(ArchiveFailed), visits; }
      if ctx.superevent.None? { return Err(SupereventNotFound), visits; }
      if ctx.skymap.Missing? { return Err(SkymapMissing), visits; }
      if ctx.skymap.Unreadable? { return Err(StorageFailed), visits; }
      if !ctx.contoursParse { return Err(ArchiveFailed), visits; }
      if !ctx.cursorsOk { return Err(ArchiveFailed), visits; }
      var t0 := ctx.superevent.value;
      var grbs := CollectNear(src.grbs, t0, window);
      var booms := CollectTurnedOn(src.booms, t0);
      var frbs := CollectNear(src.frbs, t0, window);
      var neutrinos := CollectNear(src.neutrinos, t0, window);
      var found := ComputeAll(compute, grbs + booms + frbs + neutrinos);
      found := InSomeOrder(found);
      visits := seq(|found|, i requires 0 <= i < |found| => Visit(found[i], access(i), clock(i)));
      assert Found(visits) == found;
      var results := this.Upserts(superevent, found, access, clock, visits);
      if results.Err? { return Err(ArchiveFailed), visits; }
      SortIsStable(EffectiveFar, results.value);
      r := Ok(SortBy(EffectiveFar, results.value));
    }

    // The loop: keep the stored flag, upsert, collect; a failed upsert stops it.
    method Upserts(superevent: string, found: seq<Match>, access: nat -> Access, clock: nat -> int,
        ghost visits: seq<Visit>)
      returns (r: Result<seq<MatchDoc>, IngestError>)
      requires |visits| == |found|
      requires forall i :: 0 <= i < |found| ==> visits[i] == Visit(found[i], access(i), clock(i))
      modifies this
      ensures
        var outcome := Scan(old(crossMatches), superevent, visits);
        crossMatches == outcome.docs && r == if outcome.ok then Ok(outcome.written) else Err(ArchiveFailed)
    {
      hide Scan, After;
      var results: seq<MatchDoc> := [];
      ghost var all := Scan(crossMatches, superevent, visits);
      StartsEmpty(all);
      assert visits[0..] == visits;
      for i := 0 to |found|
        invariant all == After(results, Scan(crossMatches, superevent, visits[i..]))
      {
        ScanOnePass(crossMatches, superevent, visits, i, results);
        var how := access(i);
        var id := IdOf(superevent, found[i]);
        var preserved := how.Works? && id in crossMatches && crossMatches[id].associated;
        var doc := MatchDoc(id, found[i].metrics, preserved, clock(i));
        if how.UpsertFails? { return Err(ArchiveFailed); }
        crossMatches := crossMatches[id := doc];
        results := results + [doc];
      }
      ScanEnds(crossMatches, superevent, visits, results);
      r := Ok(results);
    }

    // `patch_cross_match`: None stands for 404.  The flag is set even when reading
    // the match back fails.
    method Patch(id: MatchId, flag: bool, updateOk: bool, readOk: bool)
      returns (r: Result<Option<MatchDoc>, IngestError>)
      modifies this
      ensures crossMatches == if updateOk then Step(old(crossMatches), Op.Patch(id, flag)) else old(crossMatches)
      ensures r.Err? <==> !updateOk || (id in old(crossMatches) && !readOk)
      ensures r.Err? ==> r.error == ArchiveFailed
      ensures r.Ok? ==>
        r.value == if id in old(crossMatches) then Some(old(crossMatches)[id].(associated := flag)) else None
    {
      if !updateOk { return Err(ArchiveFailed); }
      if id !in crossMatches { return Ok(None); }
      crossMatches := crossMatches[id := crossMatches[id].(associated := flag)];
      if !readOk { return Err(ArchiveFailed); }
      r := Ok(Some(crossMatches[id]));
    }

    // `create_cross_match` and the GCN consumer: the new document replaces the
    // old one, flag included.
    method Create(superevent: string, m: Match, now: int, upsertOk: bool) returns (r: Result<MatchDoc, IngestError>)
      modifies this
      ensures r == if upsertOk then Ok(MatchDoc(IdOf(superevent, m), m.metrics, false, now)) else Err(ArchiveFailed)
      ensures crossMatches ==
        if upsertOk then Step(old(crossMatches), Op.Create(superevent, m, now)) else old(crossMatches)
    {
      if !upsertOk { return Err(ArchiveFailed); }
      var doc := MatchDoc(IdOf(superevent, m), m.metrics, false, now);
      crossMatches := crossMatches[doc.id := doc];
      r := Ok(doc);
    }
  }

  // -------------------------------------------------- runs and decisions
  //
  // Operations here come one after the other; Interleaving.dfy lets them overlap.

  function Run(ops: seq<Op>): Store {
    if ops == [] then map[] else Step(Run(ops[..|ops| - 1]), ops[|ops| - 1])
  }

  // The op is a PATCH of this match and the match exists when it arrives.
  predicate Decides(ops: seq<Op>, i: nat, id: MatchId)
    requires i < |ops|
  {
    ops[i].Patch? && ops[i].id == id && id in Run(ops[..i])
  }

  // A rescan that reaches this match without being able to read it.
  predicate ScanForgets(superevent: string, visits: seq<Visit>, id: MatchId) {
    visits != [] && !visits[0].access.UpsertFails?
    && ((visits[0].access.LookupFails? && IdOf(superevent, visits[0].found) == id)
        || ScanForgets(superevent, visits[1..], id))
  }

  // The op writes this match without having read its flag.
  predicate Forgets(op: Op, id: MatchId) {
    match op
    case Rescan(superevent, visits) => ScanForgets(superevent, visits, id)
    case Patch(_, _) => false
    case Create(superevent, m, _) => IdOf(superevent, m) == id
  }

  // i is the last effective PATCH of the match.
  predicate IsLastDecision(ops: seq<Op>, i: nat, id: MatchId) {
    i < |ops| && ops[i].Patch? && Decides(ops, i, id) && forall j :: i < j < |ops| ==> !Decides(ops, j, id)
  }

  // -------------------------------------------------------------- lemmas

  lemma {:induction false} ScanFlag(docs: Store, superevent: string, visits: seq<Visit>, id: MatchId)
    ensures Flag(Scan(docs, superevent, visits).docs, id) <==> Flag(docs, id) && !ScanForgets(superevent, visits, id)
    decreases |visits|
  {
    if visits == [] || visits[0].access.UpsertFails? {
    } else {
      var doc := Rematch(docs, superevent, visits[0]);
      ScanFlag(docs[doc.id := doc], superevent, visits[1..], id);
    }
  }

  lemma StepFlag(docs: Store, op: Op, id: MatchId)
    ensures
      Flag(Step(docs, op), id) <==>
        if op.Patch? && op.id == id && id in docs then op.flag else Flag(docs, id) && !Forgets(op, id)
  {
    if op.Rescan? { ScanFlag(docs, op.superevent, op.visits, id); }
  }

  lemma PrefixDecides(ops: seq<Op>, n: nat, i: nat, id: MatchId)
    requires i < n <= |ops|
    ensures Decides(ops[..n], i, id) <==> Decides(ops, i, id)
  {
    assert ops[..n][..i] == ops[..i];
  }

  // The last effective PATCH set the flag, and nothing after it forgot it.
  predicate FlagStandsAt(ops: seq<Op>, i: nat, id: MatchId) {
    IsLastDecision(ops, i, id) && ops[i].flag && forall j :: i < j < |ops| ==> !Forgets(ops[j], id)
  }

  lemma StandsAfter(ops: seq<Op>, i: nat, id: MatchId)
    requires i < |ops| - 1
    ensures
      var n := |ops| - 1;
      FlagStandsAt(ops, i, id) <==> FlagStandsAt(ops[..n], i, id) && !Decides(ops, n, id) && !Forgets(ops[n], id)
  {
    hide Decides, Forgets;
    var n := |ops| - 1;
    forall j: nat | j < n ensures Decides(ops[..n], j, id) <==> Decides(ops, j, id) { PrefixDecides(ops, n, j, id); }
    assert forall j: nat :: j < n ==> ops[..n][j] == ops[j];
  }

  /** A stored match is flagged exactly when its last effective PATCH said so and
      no later operation rewrote the match without reading it. */
  lemma {:induction false} FlaggedIff(ops: seq<Op>, id: MatchId)
    ensures Flag(Run(ops), id) <==> exists i :: FlagStandsAt(ops, i, id)
  {
    if ops == [] {
      forall i: nat ensures !FlagStandsAt(ops, i, id) {}
    } else {
      var n := |ops| - 1;
      var init, op := ops[..n], ops[n];
      FlaggedIff(init, id);
      StepFlag(Run(init), op, id);
      forall i: nat | i < n
        ensures FlagStandsAt(ops, i, id) <==> FlagStandsAt(init, i, id) && !Decides(ops, n, id) && !Forgets(op, id)
      {
        StandsAfter(ops, i, id);
      }
      assert FlagStandsAt(ops, n, id) <==> Decides(ops, n, id) && op.flag;
      forall i: nat | i > n ensures !FlagStandsAt(ops, i, id) && !FlagStandsAt(init, i, id) {}
      assert !FlagStandsAt(init, n, id);
    }
  }

  predicate AllWork(visits: seq<Visit>) {
    forall i :: 0 <= i < |visits| ==> visits[i].access.Works?
  }

  predicate IsQuiet(op: Op) {
    op.Patch? || (op.Rescan? && AllWork(op.visits))
  }

  lemma QuietOpForgetsNothing(op: Op, id: MatchId)
    requires IsQuiet(op)
    ensures !Forgets(op, id)
  {
    if op.Rescan? { WorkingScanForgetsNothing(op.superevent, op.visits, id); }
  }

  /** While the archive answers and nothing but rescans and PATCHes runs, the flag
      is exactly the last effective PATCH. */
  lemma DecisionsSurviveRescans(ops: seq<Op>, id: MatchId)
    requires forall i :: 0 <= i < |ops| ==> IsQuiet(ops[i])
    ensures Flag(Run(ops), id) <==> exists i: nat :: IsLastDecision(ops, i, id) && ops[i].flag
  {
    hide Decides, Run, Forgets;
    FlaggedIff(ops, id);
    forall j | 0 <= j < |ops| ensures !Forgets(ops[j], id) {
      QuietOpForgetsNothing(ops[j], id);
    }
    forall i: nat | IsLastDecision(ops, i, id) && ops[i].flag ensures FlagStandsAt(ops, i, id) {}
    forall i: nat | FlagStandsAt(ops, i, id) ensures IsLastDecision(ops, i, id) && ops[i].flag {}
  }

  lemma {:induction false} WorkingScanForgetsNothing(superevent: string, visits: seq<Visit>, id: MatchId)
    requires AllWork(visits)
    ensures !ScanForgets(superevent, visits, id)
    decreases |visits|
  {
    if visits == [] {
    } else {
      WorkingScanForgetsNothing(superevent, visits[1..], id);
    }
  }

  // ------------------------------------------------------ repeated rescans

  function Found(visits: seq<Visit>): seq<Match> {
    Map((v: Visit) => v.found, visits)
  }

  // The last match of this id in visiting order.
  function LastFound(superevent: string, visits: seq<Visit>, id: MatchId): Option<Match>
    decreases |visits|
  {
    if visits == [] then None
    else
      var later := LastFound(superevent, visits[1..], id);
      if later.Some? then later
      else if IdOf(superevent, visits[0].found) == id then Some(visits[0].found)
      else None
  }

  function Timeless(d: MatchDoc): MatchDoc {
    d.(computedAt := 0)
  }

  predicate SameButTimes(a: Store, b: Store) {
    a.Keys == b.Keys && forall id :: id in a ==> Timeless(a[id]) == Timeless(b[id])
  }

  // What a fault-free scan leaves under one id.
  lemma {:induction false} ScanPointwise(docs: Store, superevent: string, visits: seq<Visit>, id: MatchId)
    requires AllWork(visits)
    ensures
      var after, m := Scan(docs, superevent, visits).docs, LastFound(superevent, visits, id);
      if m.Some? then
        id in after && Timeless(after[id]) == MatchDoc(id, m.value.metrics, Flag(docs, id), 0)
      else
        (id in after <==> id in docs) && (id in docs ==> after[id] == docs[id])
    decreases |visits|
  {
    if visits == [] {
    } else {
      var doc := Rematch(docs, superevent, visits[0]);
      ScanPointwise(docs[doc.id := doc], superevent, visits[1..], id);
    }
  }

  ghost predicate SameFindings(superevent: string, a: seq<Visit>, b: seq<Visit>) {
    forall id :: LastFound(superevent, a, id) == LastFound(superevent, b, id)
  }

  /** Rescanning on unchanged findings changes nothing but the timestamps. */
  lemma RepeatChangesOnlyTimes(docs: Store, superevent: string, a: seq<Visit>, b: seq<Visit>)
    requires AllWork(a) && AllWork(b) && SameFindings(superevent, a, b)
    ensures
      var once := Scan(docs, superevent, a).docs;
      SameButTimes(Scan(once, superevent, b).docs, once)
  {
    hide Scan, LastFound;
    var once := Scan(docs, superevent, a).docs;
    var twice := Scan(once, superevent, b).docs;
    forall id ensures (id in twice <==> id in once) && (id in once ==> Timeless(twice[id]) == Timeless(once[id])) {
      ScanPointwise(docs, superevent, a, id);
      ScanPointwise(once, superevent, b, id);
    }
  }

  lemma {:induction false} SameOrderSameFindings(superevent: string, a: seq<Visit>, b: seq<Visit>, id: MatchId)
    requires Found(a) == Found(b)
    ensures LastFound(superevent, a, id) == LastFound(superevent, b, id)
    decreases |a|
  {
    assert |Found(a)| == |a| == |b|;
    if a == [] {
    } else {
      assert Found(a)[0] == Found(b)[0];
      forall i | 0 <= i < |a| - 1 ensures Found(a[1..])[i] == Found(b[1..])[i] {
        assert Found(a)[i + 1] == Found(b)[i + 1];
      }
      assert Found(a[1..]) == Found(b[1..]);
      SameOrderSameFindings(superevent, a[1..], b[1..], id);
    }
  }

  // Every match has an id of its own.
  predicate DistinctIds(superevent: string, visits: seq<Visit>) {
    forall i, j :: 0 <= i < j < |visits| ==> IdOf(superevent, visits[i].found) != IdOf(superevent, visits[j].found)
  }

  lemma {:induction false} LastFoundIsTheOne(superevent: string, visits: seq<Visit>, id: MatchId, m: Match)
    requires DistinctIds(superevent, visits)
    ensures LastFound(superevent, visits, id) == Some(m) <==> m in Found(visits) && IdOf(superevent, m) == id
    decreases |visits|
  {
    if visits == [] {
    } else {
      var rest := visits[1..];
      LastFoundIsTheOne(superevent, rest, id, m);
      assert Found(visits) == [visits[0].found] + Found(rest);
      var later := LastFound(superevent, rest, id);
      if later.Some? {
        LastFoundIsTheOne(superevent, rest, id, later.value);
        var k :| 0 <= k < |Found(rest)| && Found(rest)[k] == later.value;
        assert rest[k] == visits[k + 1];
      }
    }
  }

  /** The concurrent fetches may hand over the matches in any order: the stored
      documents come out the same, and so does a repeat in yet another order. */
  lemma ArrivalOrderIsIrrelevant(docs: Store, superevent: string, a: seq<Visit>, b: seq<Visit>)
    requires AllWork(a) && AllWork(b) && DistinctIds(superevent, a) && DistinctIds(superevent, b)
    requires multiset(Found(a)) == multiset(Found(b))
    ensures SameButTimes(Scan(docs, superevent, a).docs, Scan(docs, superevent, b).docs)
    ensures SameFindings(superevent, a, b)
  {
    hide Scan, LastFound, DistinctIds, AllWork;
    forall id ensures LastFound(superevent, a, id) == LastFound(superevent, b, id) {
      forall m: Match ensures LastFound(superevent, a, id) == Some(m) <==> LastFound(superevent, b, id) == Some(m) {
        LastFoundIsTheOne(superevent, a, id, m);
        LastFoundIsTheOne(superevent, b, id, m);
        assert m in multiset(Found(a)) <==> m in multiset(Found(b));
      }
    }
    forall id
      ensures id in Scan(docs, superevent, a).docs <==> id in Scan(docs, superevent, b).docs
      ensures id in Scan(docs, superevent, a).docs ==>
                Timeless(Scan(docs, superevent, a).docs[id]) == Timeless(Scan(docs, superevent, b).docs[id])
    {
      ScanPointwise(docs, superevent, a, id);
      ScanPointwise(docs, superevent, b, id);
    }
  }

  // What a fault-free scan writes, pass by pass.
  lemma {:induction false} ScanWritten(docs: Store, superevent: string, visits: seq<Visit>, i: nat)
    requires AllWork(visits)
    ensures |Scan(docs, superevent, visits).written| == |visits|
    ensures i < |visits| ==>
      var id := IdOf(superevent, visits[i].found);
      Scan(docs, superevent, visits).written[i] == MatchDoc(id, visits[i].found.metrics, Flag(docs, id), visits[i].now)
    decreases |visits|
  {
    if visits == [] {
    } else {
      var doc := Rematch(docs, superevent, visits[0]);
      ScanWritten(docs[doc.id := doc], superevent, visits[1..], if i == 0 then 0 else i - 1);
    }
  }

  /** A repeat in the same order also returns the same list, timestamps apart. */
  lemma RepeatReturnsSameList(docs: Store, superevent: string, a: seq<Visit>, b: seq<Visit>)
    requires AllWork(a) && AllWork(b) && Found(a) == Found(b)
    ensures
      var once := Scan(docs, superevent, a);
      var twice := Scan(once.docs, superevent, b);
      Map(Timeless, SortBy(EffectiveFar, twice.written)) == Map(Timeless, SortBy(EffectiveFar, once.written))
  {
    hide Scan, SortBy, ScanForgets, AllWork;
    var once := Scan(docs, superevent, a);
    var twice := Scan(once.docs, superevent, b);
    assert |Found(a)| == |a| == |b|;
    ScanWritten(docs, superevent, a, 0);
    ScanWritten(once.docs, superevent, b, 0);
    forall i | 0 <= i < |a| ensures Timeless(once.written[i]) == Timeless(twice.written[i]) {
      assert Found(a)[i] == Found(b)[i];
      var id := IdOf(superevent, a[i].found);
      ScanWritten(docs, superevent, a, i);
      ScanWritten(once.docs, superevent, b, i);
      ScanFlag(docs, superevent, a, id);
      WorkingScanForgetsNothing(superevent, a, id);
    }
    assert Map(Timeless, once.written) == Map(Timeless, twice.written);
    SortMap(EffectiveFar, Timeless, once.written);
    SortMap(EffectiveFar, Timeless, twice.written);
  }

  /** A fault-free rescan stores a match exactly for the triggers that are candidates
      and can be computed, and touches no other superevent. */
  lemma RescanStoresIff(docs: Store, superevent: string, compute: Compute, triggers: seq<Trigger>,
                        visits: seq<Visit>, id: MatchId)
    requires AllWork(visits) && multiset(Found(visits)) == multiset(Computed(compute, triggers))
    ensures
      id in Scan(docs, superevent, visits).docs <==>
        id in docs || exists m :: IsComputed(compute, triggers, m) && IdOf(superevent, m) == id
    ensures id.superevent != superevent && id in docs ==> Scan(docs, superevent, visits).docs[id] == docs[id]
  {
    hide Scan, LastFound, AllWork, Computed, IsComputed;
    ScanPointwise(docs, superevent, visits, id);
    LastFoundSomeIff(superevent, visits, id);
    forall m: Match ensures m in Found(visits) <==> IsComputed(compute, triggers, m) {
      ComputedIff(compute, triggers, m);
      assert m in multiset(Found(visits)) <==> m in multiset(Computed(compute, triggers));
    }
  }

  // A candidate whose metrics these are, of this id.
  ghost predicate IsMatchOf(superevent: string, compute: Compute, triggers: seq<Trigger>, id: MatchId, m: Metrics) {
    exists t :: t in triggers && compute(t) == Some(m)
                && id.superevent == superevent && id.instrument == t.instrument && id.trigger == t.id
  }

  /** What a fault-free rescan stores, on the documents' own fields: each candidate
      that can be computed has a document under its superevent, instrument and
      trigger, with such a candidate's metrics and the flag stored before; every
      other document is as it was. */
  lemma RescanStoresMatches(docs: Store, superevent: string, compute: Compute, triggers: seq<Trigger>,
                            visits: seq<Visit>, id: MatchId)
    requires AllWork(visits) && multiset(Found(visits)) == multiset(Computed(compute, triggers))
    ensures
      var after := Scan(docs, superevent, visits).docs;
      if exists m :: IsMatchOf(superevent, compute, triggers, id, m) then
        && id in after && after[id].id == id && IsMatchOf(superevent, compute, triggers, id, after[id].metrics)
        && after[id].associated == (id in docs && docs[id].associated)
      else
        (id in after <==> id in docs) && (id in docs ==> after[id] == docs[id])
  {
    hide Scan, LastFound, AllWork, Computed, IsComputed, IsMatchOf;
    ScanPointwise(docs, superevent, visits, id);
    LastFoundSomeIff(superevent, visits, id);
    forall m: Match ensures m in Found(visits) <==> IsComputed(compute, triggers, m) {
      ComputedIff(compute, triggers, m);
      assert m in multiset(Found(visits)) <==> m in multiset(Computed(compute, triggers));
    }
    forall m: Match | IsComputed(compute, triggers, m) && IdOf(superevent, m) == id
      ensures IsMatchOf(superevent, compute, triggers, id, m.metrics)
    {
      ComputedIsMatch(superevent, compute, triggers, m);
    }
    if m: Metrics :| IsMatchOf(superevent, compute, triggers, id, m) {
      var f := MatchIsComputed(superevent, compute, triggers, id, m);
    }
    if LastFound(superevent, visits, id).Some? { LastFoundIsFound(superevent, visits, id); }
  }

  lemma ComputedIsMatch(superevent: string, compute: Compute, triggers: seq<Trigger>, m: Match)
    requires IsComputed(compute, triggers, m)
    ensures IsMatchOf(superevent, compute, triggers, IdOf(superevent, m), m.metrics)
  {
    var t :| t in triggers && MatchOf(compute, t) == Some(m);
  }

  lemma MatchIsComputed(superevent: string, compute: Compute, triggers: seq<Trigger>, id: MatchId, m: Metrics)
    returns (f: Match)
    requires IsMatchOf(superevent, compute, triggers, id, m)
    ensures IsComputed(compute, triggers, f) && IdOf(superevent, f) == id && f.metrics == m
  {
    var t :| t in triggers && compute(t) == Some(m)
             && id.superevent == superevent && id.instrument == t.instrument && id.trigger == t.id;
    f := Match(t.instrument, t.id, m);
    assert MatchOf(compute, t) == Some(f);
  }

  lemma {:induction false} LastFoundIsFound(superevent: string, visits: seq<Visit>, id: MatchId)
    requires LastFound(superevent, visits, id).Some?
    ensures
      var m := LastFound(superevent, visits, id).value;
      m in Found(visits) && IdOf(superevent, m) == id
    decreases |visits|
  {
    assert Found(visits) == [visits[0].found] + Found(visits[1..]);
    if LastFound(superevent, visits[1..], id).None? {
    } else {
      LastFoundIsFound(superevent, visits[1..], id);
    }
  }

  // a may stand before b: its rate, remapped if it has that, is no larger.
  predicate RanksBefore(a: Metrics, b: Metrics) {
    || (b.remapped.None? && b.joint.None?)
    || (a.remapped.Some? && b.remapped.Some? && a.remapped.value <= b.remapped.value)
    || (a.remapped.Some? && b.remapped.None? && b.joint.Some? && a.remapped.value <= b.joint.value)
    || (a.remapped.None? && a.joint.Some? && b.remapped.Some? && a.joint.value <= b.remapped.value)
    || (a.remapped.None? && a.joint.Some? && b.remapped.None? && b.joint.Some? && a.joint.value <= b.joint.value)
  }

  /** The returned list is ordered by rate, matches with neither rate last. */
  lemma ListIsByRate(written: seq<MatchDoc>, r: seq<MatchDoc>)
    requires IsStableSort(EffectiveFar, written, r)
    ensures forall i, j :: 0 <= i < j < |r| ==> RanksBefore(r[i].metrics, r[j].metrics)
  {
    forall i, j | 0 <= i < j < |r| ensures RanksBefore(r[i].metrics, r[j].metrics) {
      assert AtMost(EffectiveFar(r[i]), EffectiveFar(r[j]));
    }
  }

  /** Which error a rescan that cannot start reports: the first of these. */
  lemma RefusedIff(ctx: Context)
    ensures Refused(ctx) == Some(SupereventNotFound) <==> ctx.archiveOk && ctx.superevent.None?
    ensures Refused(ctx) == Some(SkymapMissing) <==> ctx.archiveOk && ctx.superevent.Some? && ctx.skymap.Missing?
    ensures Refused(ctx) == Some(StorageFailed) <==> ctx.archiveOk && ctx.superevent.Some? && ctx.skymap.Unreadable?
    ensures Refused(ctx) == Some(ArchiveFailed) <==>
      !ctx.archiveOk || (ctx.superevent.Some? && ctx.skymap.Stored? && !(ctx.contoursParse && ctx.cursorsOk))
    ensures Refused(ctx) == None <==>
      ctx.archiveOk && ctx.superevent.Some? && ctx.skymap.Stored? && ctx.contoursParse && ctx.cursorsOk
  {
  }

  lemma {:induction false} LastFoundSomeIff(superevent: string, visits: seq<Visit>, id: MatchId)
    ensures LastFound(superevent, visits, id).Some? <==> exists m :: m in Found(visits) && IdOf(superevent, m) == id
    decreases |visits|
  {
    if visits == [] {
    } else {
      LastFoundSomeIff(superevent, visits[1..], id);
      assert Found(visits) == [visits[0].found] + Found(visits[1..]);
    }
  }

  // ---------------------------------------------- runaway significance

  /** A negative rate beats everything: the match comes first in the list and gets
      the most significant tier. */
  lemma NegativeRanksFirst(docs: seq<MatchDoc>, n: nat, far: real, tiers: seq<Tier>)
    requires n < |docs| && EffectiveFar(docs[n]) == Finite(far) && far < 0.0
    requires forall i :: 0 <= i < |docs| && i != n ==> AtMost(Finite(0.0), EffectiveFar(docs[i]))
    requires tiers != [] && forall i :: 0 <= i < |tiers| ==> tiers[i].maxPerYear >= 0.0
    ensures SortBy(EffectiveFar, docs)[0] == docs[n]
    ensures FirstClearing(SortBy(Threshold, tiers), far) == Some(SortBy(Threshold, tiers)[0])
  {
    hide SortBy, EffectiveFar;
    var sorted, ladder := SortBy(EffectiveFar, docs), SortBy(Threshold, tiers);
    SortIsSorted(EffectiveFar, docs);
    assert docs[n] in multiset(sorted) && sorted[0] in multiset(docs);
    var j :| 0 <= j < |sorted| && sorted[j] == docs[n];
    var i :| 0 <= i < |docs| && docs[i] == sorted[0];
    assert ladder[0] in multiset(tiers);
  }

  /** That is what happens once the product of GW rate and p-value exceeds e times
      the maximum GW rate. */
  lemma RunawayMatchRanksFirst(ln: Log, gwFar: real, p: real, rate: real, window: real, gwMax: real, e: real,
                               docs: seq<MatchDoc>, n: nat, tiers: seq<Tier>)
    requires IsLog(ln) && rate > 0.0 && window > 0.0 && gwMax > 0.0 && gwFar > 0.0 && p > 0.0
    requires e > 0.0 && ln(e) == 1.0 && Times(gwFar, p) > Times(e, gwMax)
    requires n < |docs| && docs[n].metrics.remapped == RemappedFar(ln, gwFar, rate, window, p, gwMax)
    requires forall i :: 0 <= i < |docs| && i != n ==> AtMost(Finite(0.0), EffectiveFar(docs[i]))
    requires tiers != [] && forall i :: 0 <= i < |tiers| ==> tiers[i].maxPerYear >= 0.0
    ensures SortBy(EffectiveFar, docs)[0] == docs[n]
    ensures docs[n].metrics.remapped.Some?
    ensures FirstClearing(SortBy(Threshold, tiers), docs[n].metrics.remapped.value) == Some(SortBy(Threshold, tiers)[0])
  {
    hide IsLog, RemappedFar, Times, SortBy;
    RemappedIsNegativePastE(ln, gwFar, p, rate, window, gwMax, e);
    NegativeRanksFirst(docs, n, docs[n].metrics.remapped.value, tiers);
  }
}
