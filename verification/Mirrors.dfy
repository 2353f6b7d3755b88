/** The durable copies kept beside the clusterer: the archive row of each
    superevent, the stored sky maps, and what each pipeline step writes. */
module Mirrors {
  import opened Wrappers
  import opened Decimal
  import opened ByteStrings
  import opened Clustering
  import opened Persistence
  import opened Restart

  /** `CentreOnly` is what a centre patch leaves on a row that had no summary; such
      a row can no longer be read back. */
  datatype SkymapSummary =
    | SkymapSummary(bytesSize: nat, elapsedMs: U64, centre: Option<(real, real)>)
    | CentreOnly(position: (real, real))

  datatype SupereventDoc = SupereventDoc(
    id: string, t0: real, tStart: real, tEnd: real,
    preferredGraceid: string, preferredSnr: real, gEventGraceids: seq<string>, skymapSummary: Option<SkymapSummary>)

  function Graceids(events: seq<GwEvent>): (ids: seq<string>)
    ensures |ids| == |events|
  {
    seq(|events|, i requires 0 <= i < |events| => events[i].graceid)
  }

  // `SupereventDoc::from_superevent`: the centre is always left unset.
  function FromSuperevent(s: Superevent): SupereventDoc {
    var summary :=
      if s.skymap.Some? then Some(SkymapSummary(|s.skymap.value.bytes|, s.skymap.value.elapsedMs, None)) else None;
    SupereventDoc(s.id, s.t0, s.tStart, s.tEnd, s.preferredEvent.graceid, s.preferredEvent.snr,
                  Graceids(s.gEvents), summary)
  }

  predicate Readable(d: SupereventDoc) {
    d.skymapSummary.Some? ==> d.skymapSummary.value.SkymapSummary?
  }

  function WithoutCentre(d: SupereventDoc): SupereventDoc {
    if d.skymapSummary.Some? && Readable(d)
    then d.(skymapSummary := Some(d.skymapSummary.value.(centre := None)))
    else d
  }

  // The centre set on whatever summary there is.
  function Centred(summary: Option<SkymapSummary>, position: (real, real)): SkymapSummary {
    match summary
    case Some(SkymapSummary(size, ms, _)) => SkymapSummary(size, ms, Some(position))
    case Some(CentreOnly(_)) => CentreOnly(position)
    case None => CentreOnly(position)
  }

  datatype LocalizeStatus = Ok | Error

  // Base64 text of the FITS file: missing, malformed, or decoding to bytes.
  datatype Payload = Missing | Malformed | Fits(bytes: Bytes)

  datatype LocalizeResult = LocalizeResult(
    requestId: string, supereventId: string, graceid: string, status: LocalizeStatus, payload: Payload, elapsedMs: U64)

  function MapOf(r: LocalizeResult): Option<SkyMapFits> {
    if r.status.Ok? && r.payload.Fits? then Some(SkyMapFits(r.payload.bytes, r.elapsedMs)) else None
  }

  // The clusterer with the archive rows and sky-map blobs it has written.
  datatype World = World(c: Snapshot, rows: map<string, SupereventDoc>, blobs: map<string, SkyMapFits>)

  type Centroid = Bytes -> Option<(real, real)>

  function Upserted(rows: map<string, SupereventDoc>, s: Superevent): map<string, SupereventDoc> {
    rows[s.id := FromSuperevent(s)]
  }

  function Patched(rows: map<string, SupereventDoc>, id: string, centre: Option<(real, real)>)
    : map<string, SupereventDoc>
  {
    if id in rows && centre.Some?
    then rows[id := rows[id].(skymapSummary := Some(Centred(rows[id].skymapSummary, centre.value)))]
    else rows
  }

  // The superevent an event lands in or opens, as it is afterwards.
  ghost function Touched(c: Snapshot, e: GwEvent): Superevent
    requires c.times.Keys <= c.superevents.Keys
  {
    match Target(c, e.endTime)
    case Some(k) => Join(c.superevents[k], e)
    case None => Open(c.window, FormatId(c.nextSeq), e)
  }

  ghost function AfterEvent(w: World, e: GwEvent): World
    requires Valid(w.c)
  {
    World(Process(w.c, e), Upserted(w.rows, Touched(w.c, e)), w.blobs)
  }

  ghost function AfterResult(centroid: Centroid, w: World, r: LocalizeResult): World
    requires Valid(w.c)
  {
    if MapOf(r).None? || KeyOf(w.c, r.supereventId).None? then w
    else
      var sky := MapOf(r).value;
      var d := Attach(w.c, r.supereventId, sky);
      var s := d.superevents[KeyOf(w.c, r.supereventId).value];
      World(d, Patched(Upserted(w.rows, s), s.id, centroid(sky.bytes)), w.blobs[s.id := sky])
  }

  ghost function AfterResults(centroid: Centroid, w: World, rs: seq<LocalizeResult>): (v: World)
    requires Valid(w.c)
    ensures Valid(v.c)
  {
    if rs == [] then w
    else
      var u := AfterResults(centroid, w, rs[..|rs| - 1]);
      AfterResultIsValid(centroid, u, rs[|rs| - 1]);
      AfterResult(centroid, u, rs[|rs| - 1])
  }

  // The clusterer's part of handling one result, and a batch.
  ghost function AttachResult(c: Snapshot, r: LocalizeResult): (d: Snapshot)
    requires Valid(c)
    ensures Valid(d)
  {
    hide Valid;
    match MapOf(r)
    case None => c
    case Some(sky) => AttachKeepsValid(c, r.supereventId, sky); ValidIsIndexed(c); Attach(c, r.supereventId, sky)
  }

  ghost function AttachResults(c: Snapshot, rs: seq<LocalizeResult>): (d: Snapshot)
    requires Valid(c)
    ensures Valid(d)
  {
    if rs == [] then c else AttachResult(AttachResults(c, rs[..|rs| - 1]), rs[|rs| - 1])
  }

  lemma ResultAttaches(centroid: Centroid, w: World, r: LocalizeResult)
    requires Valid(w.c)
    ensures AfterResult(centroid, w, r).c == AttachResult(w.c, r)
  {
    hide Valid;
    ValidIsIndexed(w.c);
  }

  lemma {:induction false} ResultsAttach(centroid: Centroid, w: World, rs: seq<LocalizeResult>)
    requires Valid(w.c)
    ensures AfterResults(centroid, w, rs).c == AttachResults(w.c, rs)
  {
    hide Valid, AfterResult, AttachResult;
    if rs == [] {
    } else {
      ResultsAttach(centroid, w, rs[..|rs| - 1]);
      ResultAttaches(centroid, AfterResults(centroid, w, rs[..|rs| - 1]), rs[|rs| - 1]);
    }
  }

  lemma AfterResultIsValid(centroid: Centroid, w: World, r: LocalizeResult)
    requires Valid(w.c)
    ensures Valid(AfterResult(centroid, w, r).c)
  {
    hide Valid;
    if MapOf(r).Some? { AttachKeepsValid(w.c, r.supereventId, MapOf(r).value); }
  }

  // ----------------------------------------------------------- agreement

  ghost predicate RowAgrees(w: World, k: real)
    requires k in w.c.superevents
  {
    var s := w.c.superevents[k];
    && s.id in w.rows && WithoutCentre(w.rows[s.id]) == FromSuperevent(s)
    && (s.skymap.Some? ==> s.id in w.blobs && w.blobs[s.id] == s.skymap.value)
  }

  // Every open superevent is archived as it is, its sky map included.
  ghost predicate InSync(w: World) {
    forall k :: k in w.c.superevents ==> RowAgrees(w, k)
  }

  // ----------------------------------------------------- what a row shows

  // The row shows member i of the superevent as its preferred event.
  ghost predicate ShowsPreferred(row: SupereventDoc, s: Superevent, i: nat) {
    && i < |s.gEvents| && FirstLoudest(s.gEvents, i)
    && row.preferredGraceid == s.gEvents[i].graceid && row.preferredSnr == s.gEvents[i].snr
  }

  // The summary tells the stored map's size and time, and is there exactly when
  // there is a map.
  ghost predicate ShowsMap(row: SupereventDoc, s: Superevent, blobs: map<string, SkyMapFits>) {
    && (row.skymapSummary.Some? <==> s.skymap.Some?)
    && (s.skymap.Some? ==>
          && s.id in blobs && blobs[s.id] == s.skymap.value && row.skymapSummary.value.SkymapSummary?
          && row.skymapSummary.value.bytesSize == |blobs[s.id].bytes|
          && row.skymapSummary.value.elapsedMs == blobs[s.id].elapsedMs)
  }

  /** What the archive tells of an open superevent, field by field. */
  lemma RowTells(w: World, k: real)
    requires Valid(w.c) && InSync(w) && k in w.c.times
    ensures k in w.c.superevents && w.c.times[k] in w.rows
    ensures
      var row, s := w.rows[w.c.times[k]], w.c.superevents[k];
      && row.id == w.c.times[k] && row.t0 == k
      && row.tStart == k - w.c.window / 2.0 && row.tEnd == k + w.c.window / 2.0
      && |row.gEventGraceids| == |s.gEvents|
      && (forall i :: 0 <= i < |s.gEvents| ==> row.gEventGraceids[i] == s.gEvents[i].graceid)
      && (exists i :: ShowsPreferred(row, s, i))
      && ShowsMap(row, s, w.blobs)
  {
    hide AllIssued, DistinctIds, Separated, FirstLoudest;
    var s := w.c.superevents[k];
    assert RowAgrees(w, k) && GoodWindow(w.c.window, k, s);
    var row := w.rows[s.id];
    BareFields(row, s);
    var i :| 0 <= i < |s.gEvents| && FirstLoudest(s.gEvents, i) && s.gEvents[i] == s.preferredEvent;
    assert ShowsPreferred(row, s, i);
  }

  lemma BareFields(row: SupereventDoc, s: Superevent)
    requires WithoutCentre(row) == FromSuperevent(s)
    ensures row.id == s.id && row.t0 == s.t0 && row.tStart == s.tStart && row.tEnd == s.tEnd
    ensures row.preferredGraceid == s.preferredEvent.graceid && row.preferredSnr == s.preferredEvent.snr
    ensures |row.gEventGraceids| == |s.gEvents|
    ensures forall i :: 0 <= i < |s.gEvents| ==> row.gEventGraceids[i] == s.gEvents[i].graceid
    ensures row.skymapSummary.Some? <==> s.skymap.Some?
    ensures s.skymap.Some? ==>
      && row.skymapSummary.value.SkymapSummary?
      && row.skymapSummary.value.bytesSize == |s.skymap.value.bytes|
      && row.skymapSummary.value.elapsedMs == s.skymap.value.elapsedMs
  {
    assert WithoutCentre(row).gEventGraceids == row.gEventGraceids == Graceids(s.gEvents);
    assert WithoutCentre(row).id == row.id && WithoutCentre(row).t0 == row.t0;
    assert WithoutCentre(row).tStart == row.tStart && WithoutCentre(row).tEnd == row.tEnd;
    assert WithoutCentre(row).preferredGraceid == row.preferredGraceid;
    assert WithoutCentre(row).preferredSnr == row.preferredSnr;
    if s.skymap.Some? {
      assert WithoutCentre(row).skymapSummary.value.SkymapSummary?;
      assert WithoutCentre(row).skymapSummary.value.bytesSize == row.skymapSummary.value.bytesSize;
    }
  }

  // The position shown on a row, if there is one.
  function CentreOf(row: SupereventDoc): Option<(real, real)> {
    if row.skymapSummary.None? then None
    else if row.skymapSummary.value.SkymapSummary? then row.skymapSummary.value.centre
    else Some(row.skymapSummary.value.position)
  }

  /** A row shows the centre of the map just attached, and loses it to the next
      event of its superevent: each full upsert leaves it unset. */
  lemma CentreLastsUntilNextEvent(centroid: Centroid, w: World, r: LocalizeResult, e: GwEvent)
    requires Valid(w.c) && MapOf(r).Some? && r.supereventId in w.c.times.Values
    ensures
      var v := AfterResult(centroid, w, r);
      && r.supereventId in v.rows && CentreOf(v.rows[r.supereventId]) == centroid(MapOf(r).value.bytes)
      && Valid(v.c) && v.c.times.Keys <= v.c.superevents.Keys
      && (forall id :: id in v.rows && id != r.supereventId ==> id in w.rows && v.rows[id] == w.rows[id])
      && var after := AfterEvent(v, e).rows;
      && (forall id :: id in v.rows ==>
            id in after && CentreOf(after[id]) == if id == Touched(v.c, e).id then None else CentreOf(v.rows[id]))
  {
    hide Valid, Touched, Process;
    ValidIsIndexed(w.c);
    var v := AfterResult(centroid, w, r);
    AfterResultIsValid(centroid, w, r);
    ValidIsIndexed(v.c);
  }

  // The centre of the window an event lands in or opens.
  ghost function TouchedCentre(c: Snapshot, e: GwEvent): real {
    if Target(c, e.endTime).Some? then Target(c, e.endTime).value else e.endTime
  }

  // An event changes one window, and no other has its id.
  lemma ProcessTouches(c: Snapshot, e: GwEvent)
    requires Valid(c)
    ensures
      var d, k := Process(c, e), TouchedCentre(c, e);
      && k in d.times && k in d.superevents
      && d.superevents[k] == Touched(c, e) && d.times[k] == Touched(c, e).id
      && (k in c.superevents <==> Target(c, e.endTime).Some?)
      && (k in c.superevents ==> Touched(c, e) == Join(c.superevents[k], e))
      && (k !in c.superevents ==> Touched(c, e) == Open(c.window, FormatId(c.nextSeq), e))
      && d.superevents == c.superevents[k := Touched(c, e)] && d.times == c.times[k := Touched(c, e).id]
  {
    hide Valid, IsNearest, Nearest, Join, FormatId;
    ValidIsIndexed(c);
    assert Dist(e.endTime, e.endTime) == 0.0;
    if Target(c, e.endTime).Some? { JoinKeepsId(c.superevents[Target(c, e.endTime).value], e); }
  }

  lemma JoinKeepsId(s: Superevent, e: GwEvent)
    ensures Join(s, e).id == s.id && Join(s, e).skymap == s.skymap && Join(s, e).t0 == s.t0
  {
  }

  // The other windows keep their names apart from the touched one's.
  lemma OthersKeepNames(c: Snapshot, e: GwEvent, j: real)
    requires Valid(c) && j in c.superevents && j != TouchedCentre(c, e)
    ensures c.superevents[j].id != Touched(c, e).id
  {
    hide Valid, IsNearest, Nearest, FormatId, Join;
    ValidIsIndexed(c);
    FreshId(c);
    if Target(c, e.endTime).Some? { JoinKeepsId(c.superevents[Target(c, e.endTime).value], e); }
  }

  lemma FreshRowAgrees(s: Superevent)
    ensures WithoutCentre(FromSuperevent(s)) == FromSuperevent(s)
  {
  }

  lemma EventKeepsSync(w: World, e: GwEvent)
    requires Valid(w.c) && InSync(w)
    ensures InSync(AfterEvent(w, e))
  {
    hide Valid, Process, Target, Touched, FormatId, Join, FromSuperevent, WithoutCentre;
    ValidIsIndexed(w.c);
    ProcessTouches(w.c, e);
    var v, t := AfterEvent(w, e), TouchedCentre(w.c, e);
    forall k | k in v.c.superevents
      ensures RowAgrees(v, k)
    {
      if k == t {
        FreshRowAgrees(Touched(w.c, e));
        if k in w.c.superevents {
          assert RowAgrees(w, k);
          JoinKeepsId(w.c.superevents[k], e);
        }
      } else {
        assert RowAgrees(w, k);
        OthersKeepNames(w.c, e, k);
      }
    }
  }

  lemma FreshId(c: Snapshot)
    requires Valid(c)
    ensures forall k :: k in c.times ==> c.times[k] != FormatId(c.nextSeq)
  {
    forall k | k in c.times
      ensures c.times[k] != FormatId(c.nextSeq)
    {
      IssuedGrows(c.times[k], c.nextSeq);
    }
  }

  lemma ResultKeepsSync(centroid: Centroid, w: World, r: LocalizeResult)
    requires Valid(w.c) && InSync(w)
    ensures InSync(AfterResult(centroid, w, r))
  {
    hide Valid, FromSuperevent, WithoutCentre, Patched;
    ValidIsIndexed(w.c);
    var v := AfterResult(centroid, w, r);
    if MapOf(r).Some? && KeyOf(w.c, r.supereventId).Some? {
      var t := KeyOf(w.c, r.supereventId).value;
      forall k | k in v.c.superevents
        ensures RowAgrees(v, k)
      {
        assert RowAgrees(w, k);
        var s := v.c.superevents[t];
        FreshRowAgrees(s);
        MappedRowHasSummary(s);
        PatchKeepsRows(Upserted(w.rows, s), s.id, centroid(MapOf(r).value.bytes), v.c.superevents[k].id);
      }
    }
  }

  // Patching a centre is invisible once centres are set aside.
  lemma PatchKeepsRows(rows: map<string, SupereventDoc>, id: string, centre: Option<(real, real)>, other: string)
    requires other in rows && id in rows && Readable(rows[id]) && rows[id].skymapSummary.Some?
    ensures other in Patched(rows, id, centre)
    ensures WithoutCentre(Patched(rows, id, centre)[other]) == WithoutCentre(rows[other])
  {
  }

  lemma MappedRowHasSummary(s: Superevent)
    requires s.skymap.Some?
    ensures Readable(FromSuperevent(s)) && FromSuperevent(s).skymapSummary.Some?
  {
  }

  lemma {:induction false} ResultsKeepSync(centroid: Centroid, w: World, rs: seq<LocalizeResult>)
    requires Valid(w.c) && InSync(w)
    ensures InSync(AfterResults(centroid, w, rs))
  {
    hide Valid, InSync, AfterResult;
    if rs == [] {
    } else {
      ResultsKeepSync(centroid, w, rs[..|rs| - 1]);
      ResultKeepsSync(centroid, AfterResults(centroid, w, rs[..|rs| - 1]), rs[|rs| - 1]);
    }
  }

  // Late, repeated and reordered results never touch anything but sky maps.
  lemma {:induction false} ResultsKeepCounter(centroid: Centroid, w: World, rs: seq<LocalizeResult>)
    requires Valid(w.c)
    ensures
      var d := AfterResults(centroid, w, rs).c;
      d.times == w.c.times && d.nextSeq == w.c.nextSeq && d.window == w.c.window
  {
    hide Valid;
    if rs == [] {
    } else {
      ResultsKeepCounter(centroid, w, rs[..|rs| - 1]);
    }
  }

  // ---------------------------------------------------------- whole runs

  /** One transition of the running service.
      - Deliver: an event is processed to the end, with the results that had
        arrived, all writes succeeding.
      - Late: a result is handled on its own while draining.
      - Reload: the process dies between events and restarts from Redis.
      - Lost: it dies inside an event, after the archive write and before the
        save, and restarts from Redis.
      - Torn: it dies while draining, having handled some results for which no
        save has happened, after an event or on its own. */
  datatype Transition =
    | Deliver(event: GwEvent, results: seq<LocalizeResult>)
    | Late(result: LocalizeResult)
    | Reload
    | Lost(event: GwEvent)
    | Torn(before: Option<GwEvent>, results: seq<LocalizeResult>)

  datatype Service = Service(world: World, image: Image)

  ghost predicate IsTransition(json: Json, centroid: Centroid, s: Service, t: Transition, u: Service)
  {
    && Valid(s.world.c)
    && match t
       case Deliver(e, rs) =>
         && Valid(AfterEvent(s.world, e).c)
         && u.world == AfterResults(centroid, AfterEvent(s.world, e), rs)
         && IsImageOf(u.image, u.world.c, json)
       case Late(r) =>
         u.world == AfterResult(centroid, s.world, r) && IsImageOf(u.image, u.world.c, json)
       case Reload =>
         ReloadsTo(json, s.image, s.world.c.window, u.world.c) && u == Service(s.world.(c := u.world.c), s.image)
       case Lost(e) =>
         && ReloadsTo(json, s.image, s.world.c.window, u.world.c)
         && u == Service(AfterEvent(s.world, e).(c := u.world.c), s.image)
       case Torn(e, rs) =>
         var base := Saved(s.world, e);
         && Valid(base.c)
         && (if e.Some? then IsImageOf(u.image, base.c, json) else u.image == s.image)
         && ReloadsTo(json, u.image, base.c.window, u.world.c)
         && u.world == AfterResults(centroid, base, rs).(c := u.world.c)
  }

  // What the save before draining covers.
  ghost function Saved(w: World, e: Option<GwEvent>): World
    requires Valid(w.c)
  {
    if e.Some? then AfterEvent(w, e.value) else w
  }

  ghost predicate ReloadsTo(json: Json, img: Image, window: real, d: Snapshot) {
    exists ids: seq<string> :: IsRange(img.index, ids) && Loads(json, img, ids, window, d)
  }

  // The Redis image describes the clusterer, which could be restored exactly.
  ghost predicate Recoverable(json: Json, s: Service) {
    && Valid(s.world.c) && s.world.c.nextSeq <= U64_LIMIT
    && (s.world.c.nextSeq == 0 || NewestIsOpen(s.world.c))
    && IsImageOf(s.image, s.world.c, json)
  }

  // Both mirrors describe the clusterer.
  ghost predicate Healthy(json: Json, s: Service) {
    Recoverable(json, s) && InSync(s.world)
  }

  lemma ReloadIsExact(json: Json, s: Service, d: Snapshot)
    requires Faithful(json, s.world.c) && Recoverable(json, s) && ReloadsTo(json, s.image, s.world.c.window, d)
    ensures d == s.world.c
  {
    hide Valid, Faithful, Loads, IsImageOf, IsRange, NewestIsOpen;
    var ids: seq<string> :| IsRange(s.image.index, ids) && Loads(json, s.image, ids, s.world.c.window, d);
    assert Restarted(json, s.world.c, d);
    RestartIsExactIff(json, s.world.c, d);
  }

  lemma EventKeepsNewest(c: Snapshot, e: GwEvent)
    requires Valid(c) && (c.nextSeq == 0 || NewestIsOpen(c))
    ensures var d := Process(c, e); (d.nextSeq == 0 || NewestIsOpen(d)) && d.nextSeq <= c.nextSeq + 1
  {
    ApplyKeepsNewest(c, ClusteringRuns.Ingest(e));
  }

  lemma SameIdsSameNewest(c: Snapshot, d: Snapshot)
    requires c.times == d.times && c.nextSeq == d.nextSeq && (c.nextSeq == 0 || NewestIsOpen(c))
    ensures d.nextSeq == 0 || NewestIsOpen(d)
  {
  }

  // What is read back at a crash survives the encoding.
  ghost predicate FaithfulAt(json: Json, s: Service, t: Transition)
    requires Valid(s.world.c)
  {
    match t
    case Deliver(_, _) => true
    case Late(_) => true
    case Reload => Faithful(json, s.world.c)
    case Lost(_) => Faithful(json, s.world.c)
    case Torn(e, _) => Faithful(json, Saved(s.world, e).c)
  }

  lemma SavedIsRecoverable(json: Json, s: Service, e: Option<GwEvent>, img: Image)
    requires Recoverable(json, s) && s.world.c.nextSeq < U64_LIMIT
    requires Valid(Saved(s.world, e).c)
    requires if e.Some? then IsImageOf(img, Saved(s.world, e).c, json) else img == s.image
    ensures Recoverable(json, Service(Saved(s.world, e), img)) && Saved(s.world, e).c.nextSeq <= s.world.c.nextSeq + 1
  {
    hide Valid, NewestIsOpen, Process, IsImageOf;
    if e.Some? { EventKeepsNewest(s.world.c, e.value); }
  }

  /** Every transition leaves a Redis image that loads back to the clusterer; a
      crash restores the state last saved, counter included. */
  lemma TransitionKeepsRecoverable(json: Json, centroid: Centroid, s: Service, t: Transition, u: Service)
    requires Recoverable(json, s) && s.world.c.nextSeq < U64_LIMIT
    requires FaithfulAt(json, s, t) && IsTransition(json, centroid, s, t, u)
    ensures Recoverable(json, u) && u.world.c.nextSeq <= s.world.c.nextSeq + 1
    ensures t.Reload? || t.Lost? ==> u.world.c == s.world.c
    ensures t.Torn? ==> u.world.c == Saved(s.world, t.before).c
  {
    hide Valid, NewestIsOpen, AfterResult, AfterResults, Process, Faithful, IsImageOf, ReloadsTo;
    match t
    case Deliver(e, rs) =>
      EventKeepsNewest(s.world.c, e);
      var w := AfterEvent(s.world, e);
      ResultsKeepCounter(centroid, w, rs);
      SameIdsSameNewest(w.c, u.world.c);
    case Late(r) =>
      AfterResultIsValid(centroid, s.world, r);
      OneResultKeepsCounter(centroid, s.world, r);
      SameIdsSameNewest(s.world.c, u.world.c);
    case Reload => ReloadIsExact(json, s, u.world.c);
    case Lost(e) => ReloadIsExact(json, s, u.world.c);
    case Torn(e, rs) =>
      SavedIsRecoverable(json, s, e, u.image);
      ReloadIsExact(json, Service(Saved(s.world, e), u.image), u.world.c);
  }

  /** Both mirrors agree with memory after every transition that is not a crash
      inside an event or a drain: the Redis image loads back to the clusterer, and
      every open superevent's row and sky map are current. */
  lemma TransitionKeepsHealth(json: Json, centroid: Centroid, s: Service, t: Transition, u: Service)
    requires Healthy(json, s) && s.world.c.nextSeq < U64_LIMIT && FaithfulAt(json, s, t)
    requires IsTransition(json, centroid, s, t, u) && !t.Lost? && !t.Torn?
    ensures Healthy(json, u) && u.world.c.nextSeq <= s.world.c.nextSeq + 1
    ensures t.Reload? ==> u == s
  {
    hide Valid, InSync, Recoverable, AfterResult, Process, Faithful, IsImageOf, ReloadsTo, Attach;
    TransitionKeepsRecoverable(json, centroid, s, t, u);
    RecoverableIsValid(json, s);
    match t
    case Deliver(e, rs) =>
      EventKeepsSync(s.world, e);
      ResultsKeepSync(centroid, AfterEvent(s.world, e), rs);
    case Late(r) => ResultKeepsSync(centroid, s.world, r);
    case Reload =>
  }

  lemma RecoverableIsValid(json: Json, s: Service)
    requires Recoverable(json, s)
    ensures Valid(s.world.c)
  {
  }

  lemma OneResultKeepsCounter(centroid: Centroid, w: World, r: LocalizeResult)
    requires Valid(w.c)
    ensures var d := AfterResult(centroid, w, r).c; d.times == w.c.times && d.nextSeq == w.c.nextSeq
  {
    hide Valid;
  }

  ghost predicate IsServiceRun(json: Json, centroid: Centroid, states: seq<Service>, ts: seq<Transition>) {
    && |states| == |ts| + 1
    && forall i :: 0 <= i < |ts| ==> IsTransition(json, centroid, states[i], ts[i], states[i + 1])
  }

  ghost predicate FaithfulRun(json: Json, states: seq<Service>, ts: seq<Transition>)
    requires |states| == |ts| + 1
  {
    forall i :: 0 <= i < |ts| ==> Valid(states[i].world.c) && FaithfulAt(json, states[i], ts[i])
  }

  /** Stores agree with memory: in every run from an empty service that mixes
      events, late, duplicated or reordered results and reloads. */
  lemma {:induction false} StoresAgreeWithMemory(json: Json, centroid: Centroid, window: real,
                                                 states: seq<Service>, ts: seq<Transition>)
    requires window >= 0.0 && |ts| <= U64_LIMIT
    requires IsServiceRun(json, centroid, states, ts) && FaithfulRun(json, states, ts)
    requires forall i :: 0 <= i < |ts| ==> !ts[i].Lost? && !ts[i].Torn?
    requires states[0] == Service(World(New(window), map[], map[]), Image(map[], map[]))
    ensures Healthy(json, states[|ts|]) && states[|ts|].world.c.nextSeq <= |ts|
  {
    hide Healthy, IsTransition, FaithfulAt, Valid;
    if ts == [] {
      EmptyIsHealthy(json, window);
    } else {
      StoresAgreeWithMemory(json, centroid, window, states[..|ts|], ts[..|ts| - 1]);
      TransitionKeepsHealth(json, centroid, states[|ts| - 1], ts[|ts| - 1], states[|ts|]);
    }
  }

  /** So in every such run the archive tells each open superevent as it is. */
  lemma ArchiveTells(json: Json, centroid: Centroid, window: real,
                     states: seq<Service>, ts: seq<Transition>, k: real)
    requires window >= 0.0 && |ts| <= U64_LIMIT
    requires IsServiceRun(json, centroid, states, ts) && FaithfulRun(json, states, ts)
    requires forall i :: 0 <= i < |ts| ==> !ts[i].Lost? && !ts[i].Torn?
    requires states[0] == Service(World(New(window), map[], map[]), Image(map[], map[]))
    requires k in states[|ts|].world.c.times
    ensures
      var w := states[|ts|].world;
      && k in w.c.superevents && w.c.times[k] in w.rows
      && var row, s := w.rows[w.c.times[k]], w.c.superevents[k];
      && row.id == w.c.times[k] && row.t0 == k
      && row.tStart == k - w.c.window / 2.0 && row.tEnd == k + w.c.window / 2.0
      && |row.gEventGraceids| == |s.gEvents|
      && (forall i :: 0 <= i < |s.gEvents| ==> row.gEventGraceids[i] == s.gEvents[i].graceid)
      && (exists i :: ShowsPreferred(row, s, i))
      && ShowsMap(row, s, w.blobs)
  {
    hide Valid, InSync, NewestIsOpen, ShowsPreferred, ShowsMap;
    StoresAgreeWithMemory(json, centroid, window, states, ts);
    RowTells(states[|ts|].world, k);
  }

  /** With crashes anywhere, inside events and drains too, the Redis image still
      loads back to the clusterer after every run. */
  lemma {:induction false} ImageAgreesWithMemory(json: Json, centroid: Centroid, window: real,
                                                 states: seq<Service>, ts: seq<Transition>)
    requires window >= 0.0 && |ts| <= U64_LIMIT
    requires IsServiceRun(json, centroid, states, ts) && FaithfulRun(json, states, ts)
    requires states[0] == Service(World(New(window), map[], map[]), Image(map[], map[]))
    ensures Recoverable(json, states[|ts|]) && states[|ts|].world.c.nextSeq <= |ts|
  {
    hide Recoverable, IsTransition, FaithfulAt, Valid;
    if ts == [] {
      EmptyIsHealthy(json, window);
    } else {
      ImageAgreesWithMemory(json, centroid, window, states[..|ts|], ts[..|ts| - 1]);
      TransitionKeepsRecoverable(json, centroid, states[|ts| - 1], ts[|ts| - 1], states[|ts|]);
    }
  }

  lemma EmptyIsHealthy(json: Json, window: real)
    requires window >= 0.0
    ensures Healthy(json, Service(World(New(window), map[], map[]), Image(map[], map[])))
  {
  }

  // ------------------------------------------------ crashes inside an event

  lemma LostSameSnapshot(json: Json, centroid: Centroid, s: Service, e: GwEvent, u: Service)
    requires Faithful(json, s.world.c) && Healthy(json, s) && IsTransition(json, centroid, s, Lost(e), u)
    ensures u == Service(AfterEvent(s.world, e).(c := s.world.c), s.image)
  {
    hide Valid, InSync, NewestIsOpen, Process, Faithful, IsImageOf, ReloadsTo;
    ReloadIsExact(json, s, u.world.c);
  }

  lemma ArchiveAheadIff(w: World, e: GwEvent)
    requires Valid(w.c) && InSync(w)
    ensures InSync(AfterEvent(w, e).(c := w.c)) <==> Target(w.c, e.endTime).None?
  {
    hide Valid, IsNearest, Nearest, Issued, FormatId;
    ValidIsIndexed(w.c);
    FreshId(w.c);
    var v := AfterEvent(w, e).(c := w.c);
    match Target(w.c, e.endTime)
    case Some(k) =>
      var s := w.c.superevents[k];
      assert |FromSuperevent(Join(s, e)).gEventGraceids| == |s.gEvents| + 1;
      assert !RowAgrees(v, k);
    case None =>
      forall k | k in v.c.superevents
        ensures RowAgrees(v, k)
      {
        assert RowAgrees(w, k);
      }
  }

  /** After a crash between the archive write and the save, the archive is ahead
      of the restored clusterer exactly when the event had joined an existing
      window; when it had opened one, the stray row names no open superevent. */
  lemma LostEventLeavesArchiveAheadIff(json: Json, centroid: Centroid, s: Service, e: GwEvent, u: Service)
    requires Faithful(json, s.world.c) && Healthy(json, s) && IsTransition(json, centroid, s, Lost(e), u)
    ensures InSync(u.world) <==> Target(s.world.c, e.endTime).None?
  {
    LostSameSnapshot(json, centroid, s, e, u);
    ArchiveAheadIff(s.world, e);
  }

  // ----------------------------------------------- crashes while draining

  // The last usable map addressed to a superevent.
  function LastMapFor(rs: seq<LocalizeResult>, id: string): Option<SkyMapFits> {
    if rs == [] then None
    else
      var r := rs[|rs| - 1];
      if r.supereventId == id && MapOf(r).Some? then MapOf(r) else LastMapFor(rs[..|rs| - 1], id)
  }

  lemma AttachedAt(c: Snapshot, id: string, sky: SkyMapFits, k: real)
    requires Valid(c) && k in c.times
    ensures k in Attach(c, id, sky).superevents
    ensures Attach(c, id, sky).superevents[k]
         == if c.times[k] == id then c.superevents[k].(skymap := Some(sky)) else c.superevents[k]
  {
    hide Valid;
    ValidIsIndexed(c);
  }

  /** After any results each window shows the last usable map addressed to it, or
      what it showed before; nothing else in it changes. */
  lemma {:induction false} ResultsSetLastMap(centroid: Centroid, w: World, rs: seq<LocalizeResult>, k: real)
    requires Valid(w.c) && k in w.c.times && k in w.c.superevents
    ensures
      var c, last := AfterResults(centroid, w, rs).c, LastMapFor(rs, w.c.times[k]);
      && c.times == w.c.times && k in c.superevents
      && c.superevents[k] == if last.Some? then w.c.superevents[k].(skymap := last) else w.c.superevents[k]
  {
    hide Valid, Attach;
    if rs == [] {
    } else {
      var init, r := rs[..|rs| - 1], rs[|rs| - 1];
      ResultsSetLastMap(centroid, w, init, k);
      ResultsKeepCounter(centroid, w, init);
      var v := AfterResults(centroid, w, init);
      OneResultKeepsCounter(centroid, v, r);
      if MapOf(r).Some? {
        AttachedAt(v.c, r.supereventId, MapOf(r).value, k);
        UnknownAttachesNothing(v.c, r.supereventId, MapOf(r).value);
      }
    }
  }

  lemma UnknownAttachesNothing(c: Snapshot, id: string, sky: SkyMapFits)
    requires Valid(c)
    ensures KeyOf(c, id).None? ==> Attach(c, id, sky) == c
  {
    hide Valid;
    ValidIsIndexed(c);
  }

  // The rows written while draining fit the older state only where no map changed.
  lemma RowFitsOlderIff(v: World, c: Snapshot, k: real)
    requires k in c.superevents && k in v.c.superevents && RowAgrees(v, k)
    requires v.c.superevents[k] == c.superevents[k].(skymap := v.c.superevents[k].skymap)
    ensures RowAgrees(v.(c := c), k) <==> v.c.superevents[k].skymap == c.superevents[k].skymap
  {
  }

  /** After a crash while draining, the restored clusterer is the one saved before:
      the maps handled since are lost from it, and rows and blobs are ahead of it
      exactly unless every map handled last for an open window was there already. */
  lemma TornLeavesMapsAheadIff(json: Json, centroid: Centroid, s: Service, e: Option<GwEvent>,
      rs: seq<LocalizeResult>, u: Service)
    requires Healthy(json, s) && s.world.c.nextSeq < U64_LIMIT && FaithfulAt(json, s, Torn(e, rs))
    requires IsTransition(json, centroid, s, Torn(e, rs), u)
    ensures u.world.c == Saved(s.world, e).c && u.world.c.times.Keys == u.world.c.superevents.Keys
    ensures
      InSync(u.world) <==>
        forall k :: k in u.world.c.times && LastMapFor(rs, u.world.c.times[k]).Some? ==>
          u.world.c.superevents[k].skymap == LastMapFor(rs, u.world.c.times[k])
  {
    hide Valid, InSync, Recoverable, AfterResult, AfterResults, Process, Faithful, IsImageOf, ReloadsTo, LastMapFor;
    var base := Saved(s.world, e);
    RecoverableIsValid(json, s);
    if e.Some? { EventKeepsSync(s.world, e.value); }
    TransitionKeepsRecoverable(json, centroid, s, Torn(e, rs), u);
    ValidIsIndexed(base.c);
    DrainedRowsFitIff(centroid, base, rs);
  }

  lemma DrainedRowsFitIff(centroid: Centroid, w: World, rs: seq<LocalizeResult>)
    requires Valid(w.c) && InSync(w) && w.c.times.Keys == w.c.superevents.Keys
    ensures
      InSync(AfterResults(centroid, w, rs).(c := w.c)) <==>
        forall k :: k in w.c.times && LastMapFor(rs, w.c.times[k]).Some? ==>
          w.c.superevents[k].skymap == LastMapFor(rs, w.c.times[k])
  {
    hide Valid, AfterResults, LastMapFor, RowAgrees;
    var v := AfterResults(centroid, w, rs);
    ResultsKeepSync(centroid, w, rs);
    forall k | k in w.c.times
      ensures
        RowAgrees(v.(c := w.c), k) <==>
          (LastMapFor(rs, w.c.times[k]).Some? ==> w.c.superevents[k].skymap == LastMapFor(rs, w.c.times[k]))
    {
      ResultsSetLastMap(centroid, w, rs, k);
      RowFitsOlderIff(v, w.c, k);
    }
  }

  lemma UpsertTwice(w: World, e: GwEvent)
    requires Valid(w.c)
    ensures AfterEvent(AfterEvent(w, e).(c := w.c), e) == AfterEvent(w, e)
  {
    hide Valid;
    ValidIsIndexed(w.c);
    var s := Touched(w.c, e);
    assert w.rows[s.id := FromSuperevent(s)][s.id := FromSuperevent(s)] == w.rows[s.id := FromSuperevent(s)];
  }

  /** Redelivery repairs it: handing the lost event to the restarted service
      leaves clusterer, rows and sky maps as if the crash had not happened. */
  lemma RedeliveryRepairs(json: Json, centroid: Centroid, s: Service, e: GwEvent, rs: seq<LocalizeResult>,
                          lost: Service, again: Service, direct: Service)
    requires Faithful(json, s.world.c) && Healthy(json, s)
    requires IsTransition(json, centroid, s, Lost(e), lost)
    requires IsTransition(json, centroid, lost, Deliver(e, rs), again)
    requires IsTransition(json, centroid, s, Deliver(e, rs), direct)
    ensures again.world == direct.world
  {
    hide Healthy, Faithful, Process, AfterResults;
    LostSameSnapshot(json, centroid, s, e, lost);
    hide IsImageOf;
    assert Valid(s.world.c);
    UpsertTwice(s.world, e);
  }

  /** After the save the same redelivery is not harmless: the event is recorded
      a second time.  It opens no window and changes no preferred event. */
  lemma RedeliveryAfterSaveRepeats(c: Snapshot, e: GwEvent)
    requires Valid(c)
    ensures
      var once := Process(c, e);
      Valid(once) &&
      var twice := Process(once, e);
      && Target(once, e.endTime).Some?
      && var k := Target(once, e.endTime).value;
         && var s := once.superevents[k];
         && twice == once.(superevents := once.superevents[k := s.(gEvents := s.gEvents + [e])])
         && once.superevents[k].gEvents != [] && once.superevents[k].gEvents[|once.superevents[k].gEvents| - 1] == e
  {
    hide Valid, FormatId;
    ValidIsIndexed(c);
    ProcessKeepsValid(c, e);
    var once := Process(c, e);
    if Target(c, e.endTime).None? {
      assert Dist(e.endTime, e.endTime) == 0.0;
      assert IsNearest(once.times.Keys, once.window / 2.0, e.endTime, e.endTime);
      NearestIsUnique(once.times.Keys, once.window / 2.0, e.endTime, e.endTime);
    }
  }
}
