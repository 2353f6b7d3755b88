/** The `gw-clusterer` pipeline object: one inbound event at a time, with
    localization requests out, results in, and two durable mirrors. */
module Pipeline {
  import opened Wrappers
  import opened Decimal
  import opened ByteStrings
  import opened OrderedTimes
  import opened Clustering
  import opened Creator
  import opened Persistence
  import opened Mirrors
  import Restart

  datatype LocalizeRequest = LocalizeRequest(requestId: string, supereventId: string, graceid: string,
      pipeline: string, coincXml: Bytes)

  /** A request is due when a superevent was opened or its preferred event
      replaced; other updates leave the localization current. */
  function LocalizeRequestFor(e: GwEvent, coincXml: Bytes, update: SupereventUpdate): (r: Option<LocalizeRequest>) {
    match update
    case Created(s) => Some(LocalizeRequest(s.id + "-" + e.graceid, s.id, e.graceid, e.pipeline, coincXml))
    case PreferredUpdated(s, _) => Some(LocalizeRequest(s.id + "-" + e.graceid, s.id, e.graceid, e.pipeline, coincXml))
    case Skipped(_, _, _) => None
    case SkymapAttached(_) => None
  }

  lemma SplitAtDash(a: string, b: string, g: string, h: string)
    requires a + "-" + g == b + "-" + h && '-' !in a && '-' !in b
    ensures a == b && g == h
  {
    var x := a + "-" + g;
    assert x[|a|] == '-' && x[|b|] == '-';
    assert forall i :: 0 <= i < |a| ==> x[i] == a[i];
    assert forall i :: 0 <= i < |b| ==> x[i] == b[i];
    assert |a| == |b|;
    assert a == x[..|a|] && b == x[..|b|];
    assert g == x[|a| + 1..] && h == x[|b| + 1..];
  }

  // A request id names its superevent and its event unambiguously.
  lemma RequestIdIsUnique(m: nat, n: nat, g: string, h: string)
    requires FormatId(m) + "-" + g == FormatId(n) + "-" + h
    ensures m == n && g == h
  {
    ValueOfZeroPadded(m, 6);
    ValueOfZeroPadded(n, 6);
    SplitAtDash(FormatId(m), FormatId(n), g, h);
    FormatIdInjective(m, n);
  }

  /** A request is due exactly when the event is its superevent's preferred event
      afterwards and was not before, and it names that superevent and event. */
  lemma RequestDueIff(c: Snapshot, e: GwEvent, coincXml: Bytes)
    requires Clustering.Valid(c)
    ensures
      var d, due := Process(c, e), LocalizeRequestFor(e, coincXml, ProcessUpdate(c, e));
      Clustering.Valid(d) &&
      var k := if Target(c, e.endTime).Some? then Target(c, e.endTime).value else e.endTime;
      && k in d.superevents
      && (due.Some? <==> k !in c.superevents || e.snr > c.superevents[k].preferredEvent.snr)
      && (due.Some? ==>
            && d.superevents[k].preferredEvent == e && d.superevents[k].id == due.value.supereventId
            && due.value.graceid == e.graceid && due.value.pipeline == e.pipeline && due.value.coincXml == coincXml)
      && (due.None? ==> d.superevents[k].preferredEvent == c.superevents[k].preferredEvent)
  {
    hide Clustering.Valid, Nearest, IsNearest, FormatId;
    ValidIsIndexed(c);
    ProcessKeepsValid(c, e);
    assert Dist(e.endTime, e.endTime) == 0.0;
  }

  lemma DueIsNumbered(c: Snapshot, e: GwEvent, coincXml: Bytes) returns (n: nat)
    requires Clustering.Valid(c)
    ensures c.times.Keys <= c.superevents.Keys
    ensures
      var due := LocalizeRequestFor(e, coincXml, ProcessUpdate(c, e));
      due.Some? ==>
        due.value.supereventId == FormatId(n) && due.value.requestId == FormatId(n) + "-" + due.value.graceid
  {
    hide Clustering.Valid, Nearest, IsNearest, FormatId;
    ValidIsIndexed(c);
    ProcessKeepsValid(c, e);
    ProcessTouches(c, e);
    if Target(c, e.endTime).Some? { JoinKeepsId(c.superevents[Target(c, e.endTime).value], e); }
    n := NumberOf(Process(c, e), TouchedCentre(c, e));
  }

  lemma NumberOf(c: Snapshot, k: real) returns (n: nat)
    requires Clustering.Valid(c) && k in c.times
    ensures c.times[k] == FormatId(n)
  {
    hide FormatId, Indexed, GoodWindows, DistinctIds, Separated;
    assert Issued(c.times[k], c.nextSeq);
    n :| n < c.nextSeq && c.times[k] == FormatId(n);
  }

  /** Any two requests ever due carry the same id exactly when they name the same
      superevent and the same event. */
  lemma DueRequestsDiffer(c: Snapshot, e: GwEvent, d: Snapshot, f: GwEvent, coincXml: Bytes)
    requires Clustering.Valid(c) && Clustering.Valid(d)
    ensures c.times.Keys <= c.superevents.Keys && d.times.Keys <= d.superevents.Keys
    ensures
      var p := LocalizeRequestFor(e, coincXml, ProcessUpdate(c, e));
      var q := LocalizeRequestFor(f, coincXml, ProcessUpdate(d, f));
      p.Some? && q.Some? ==>
        (p.value.requestId == q.value.requestId
         <==> p.value.supereventId == q.value.supereventId && p.value.graceid == q.value.graceid)
  {
    hide Clustering.Valid, ProcessUpdate, FormatId, LocalizeRequestFor;
    var m := DueIsNumbered(c, e, coincXml);
    var n := DueIsNumbered(d, f, coincXml);
    var p := LocalizeRequestFor(e, coincXml, ProcessUpdate(c, e));
    var q := LocalizeRequestFor(f, coincXml, ProcessUpdate(d, f));
    if p.Some? && q.Some? && p.value.requestId == q.value.requestId {
      RequestIdIsUnique(m, n, p.value.graceid, q.value.graceid);
    }
  }

  datatype PipelineError = SaveFailed | LogFailed

  /** Which writes succeed while one update is handled: to the archive, the sky-map
      store, the output topic and the localizer's topic.  A failed one is only
      logged, except that of the JSON-lines file. */
  datatype Writes = Writes(audit: bool, log: bool, publish: bool, submit: bool,
                           row: bool, centre: bool, blob: bool, contour: nat -> bool)

  ghost predicate AllWritten(w: Writes) {
    w.log && w.row && w.centre && w.blob
  }

  type ContourOf = (Bytes, nat) -> Option<Bytes>

  // The superevent an update speaks of; a Skipped update names it only by id.
  ghost function Subject(c: Snapshot, update: SupereventUpdate): Superevent
    requires c.times.Keys <= c.superevents.Keys
    requires update.Skipped? ==> KeyOf(c, update.supereventId).Some?
  {
    if update.Skipped? then c.superevents[KeyOf(c, update.supereventId).value] else update.superevent
  }

  // The row afterwards: replaced, then given the centre of a newly attached map.
  function RowsAfter(centroid: Centroid, rows: map<string, SupereventDoc>, s: Superevent, attached: bool, w: Writes)
    : map<string, SupereventDoc>
  {
    var upserted := if w.row then Upserted(rows, s) else rows;
    if attached && s.skymap.Some? && w.centre then Patched(upserted, s.id, centroid(s.skymap.value.bytes)) else upserted
  }

  /** When the row itself cannot be written, patching the centre spoils it exactly
      if it is there without a summary and a centre is found. */
  lemma FailedRowWriteSpoilsIff(centroid: Centroid, rows: map<string, SupereventDoc>, s: Superevent, w: Writes)
    requires s.skymap.Some? && (s.id in rows ==> Readable(rows[s.id]))
    ensures
      var after := RowsAfter(centroid, rows, s, true, w);
      s.id in after && !Readable(after[s.id])
      <==> !w.row && w.centre && s.id in rows && rows[s.id].skymapSummary.None? && centroid(s.skymap.value.bytes).Some?
  {
    MappedRowHasSummary(s);
  }

  function BlobsAfter(blobs: map<string, SkyMapFits>, s: Superevent, attached: bool, w: Writes)
    : map<string, SkyMapFits>
  {
    if attached && s.skymap.Some? && w.blob then blobs[s.id := s.skymap.value] else blobs
  }

  // What one result leaves when every write succeeds.
  lemma ResultWritten(centroid: Centroid, before: World, r: LocalizeResult, w: Writes)
    requires Clustering.Valid(before.c) && AllWritten(w)
    ensures before.c.times.Keys <= before.c.superevents.Keys
    ensures
      var after := AfterResult(centroid, before, r);
      var update := if MapOf(r).Some? then AttachUpdate(before.c, r.supereventId, MapOf(r).value) else None;
      if update.None? then after == before && AttachResult(before.c, r) == before.c
      else
        var s := update.value.superevent;
        && update.value.SkymapAttached? && after.c == AttachResult(before.c, r)
        && after.rows == RowsAfter(centroid, before.rows, s, true, w)
        && after.blobs == BlobsAfter(before.blobs, s, true, w)
  {
    hide Clustering.Valid, KeyOf, Upserted, Patched;
    ValidIsIndexed(before.c);
  }

  // One contour, when it can be computed and stored.
  function ContourAfter(contourOf: ContourOf, contours: map<(string, nat), Bytes>, id: string, sky: SkyMapFits,
      level: nat, ok: bool)
    : map<(string, nat), Bytes>
  {
    match contourOf(sky.bytes, level)
    case Some(moc) => if ok then contours[(id, level) := moc] else contours
    case None => contours
  }

  // A contour that can be computed and stored is there under its superevent and
  // level; nothing else changes.
  lemma ContourIsStored(contourOf: ContourOf, contours: map<(string, nat), Bytes>, id: string, sky: SkyMapFits,
                        level: nat, ok: bool)
    ensures
      var after, found := ContourAfter(contourOf, contours, id, sky, level, ok), contourOf(sky.bytes, level);
      && (ok && found.Some? ==> (id, level) in after && after[(id, level)] == found.value)
      && (!ok || found.None? ==> after == contours)
      && forall k :: k != (id, level) ==> (k in after <==> k in contours) && (k in after ==> after[k] == contours[k])
  {
  }

  ghost predicate AllMapped(windows: map<real, Superevent>) {
    forall k :: k in windows ==> windows[k].skymap.Some?
  }

  // Centres of the superevents still without a sky map.
  function Outstanding(windows: map<real, Superevent>): set<real> {
    set k | k in windows && windows[k].skymap.None?
  }

  lemma AllMappedIff(windows: map<real, Superevent>)
    ensures Outstanding(windows) == {} <==> AllMapped(windows)
  {
    assert forall k :: k in Outstanding(windows) <==> k in windows && windows[k].skymap.None?;
    if AllMapped(windows) && Outstanding(windows) != {} {
      var k := Member(Outstanding(windows));
    }
  }

  class Pipeline {
    const json: Json
    const centroid: Centroid
    const contourOf: ContourOf
    const minSnr: real
    const maxFarHz: Option<real>      // None: no ceiling
    const creator: SupereventCreator
    const redis: RedisStore
    var events: map<string, GwEvent>
    var rows: map<string, SupereventDoc>
    var blobs: map<string, SkyMapFits>
    var contours: map<(string, nat), Bytes>
    var rescans: seq<string>
    var pending: seq<LocalizeResult>
    var log: seq<(GwEvent, SupereventUpdate)>
    var published: seq<SupereventUpdate>
    var requested: seq<LocalizeRequest>
    var skipped: seq<LocalizeRequest>

    ghost function World(): World
      reads this, creator
    {
      Mirrors.World(creator.State(), rows, blobs)
    }

    ghost predicate Valid()
      reads this, creator
    {
      creator.Valid()
    }

    constructor (json: Json, centroid: Centroid, contourOf: ContourOf, minSnr: real, maxFarHz: Option<real>,
                 creator: SupereventCreator, redis: RedisStore)
      requires creator.Valid()
      ensures Valid() && World() == Mirrors.World(creator.State(), map[], map[])
      ensures this.creator == creator && this.redis == redis && this.json == json && pending == []
    {
      this.json, this.centroid, this.contourOf := json, centroid, contourOf;
      this.minSnr, this.maxFarHz, this.creator, this.redis := minSnr, maxFarHz, creator, redis;
      events, rows, blobs, contours, rescans := map[], map[], map[], map[], [];
      pending, log, published, requested, skipped := [], [], [], [], [];
    }

    // Below the SNR floor or above the FAR ceiling, the localizer is not asked.
    predicate Gated(e: GwEvent) {
      e.snr < minSnr || (maxFarHz.Some? && e.far > maxFarHz.value)
    }

    // The background consumer hands over a decoded result.
    method Receive(r: LocalizeResult)
      modifies this`pending
      ensures pending == old(pending) + [r]
    {
      pending := pending + [r];
    }

    // Log and publish an update; only inbound ones carry an event, and only a
    // failed log write is an error.
    method Emit(update: SupereventUpdate, event: Option<GwEvent>, w: Writes) returns (ok: bool)
      modifies this`published, this`log
      ensures ok <==> event.None? || w.log
      ensures published == old(published) + (if ok && w.publish then [update] else [])
      ensures log == old(log) + (if event.Some? && w.log then [(event.value, update)] else [])
    {
      ok := true;
      if event.Some? {
        if !w.log { return false; }
        log := log + [(event.value, update)];
      }
      if w.publish { published := published + [update]; }
    }

    method PersistState(saveOk: bool) returns (r: Result<(), PipelineError>)
      requires Valid()
      modifies redis
      ensures r == if saveOk then Result.Ok(()) else Err(SaveFailed)
      ensures saveOk ==> IsImageOf(redis.Contents(), creator.State(), json)
      ensures !saveOk ==> redis.Contents() == old(redis.Contents())
    {
      if !saveOk { return Err(SaveFailed); }
      redis.Save(json, creator);
      r := Result.Ok(());
    }

    // One audit row per graceid.
    method ArchiveEvent(e: GwEvent, ok: bool)
      modifies this`events
      ensures events == if ok then old(events)[e.graceid := e] else old(events)
    {
      if ok { events := events[e.graceid := e]; }
    }

    // Archive the superevent an update speaks of; for a newly attached map also
    // its centre, bytes and contours, and a rescan of its cross-matches.
    method ArchiveSupereventFrom(update: SupereventUpdate, w: Writes)
      requires Valid() && (update.Skipped? ==> KeyOf(creator.State(), update.supereventId).Some?)
      modifies this`rows, this`blobs, this`contours, this`rescans
      ensures creator.times.Keys <= creator.superevents.Keys
      ensures
        var s, attached := Subject(creator.State(), update), update.SkymapAttached?;
        && rows == RowsAfter(centroid, old(rows), s, attached, w)
        && blobs == BlobsAfter(old(blobs), s, attached, w)
        && (if attached && s.skymap.Some?
            then
              var half := ContourAfter(contourOf, old(contours), s.id, s.skymap.value, 50, w.contour(50));
              && contours == ContourAfter(contourOf, half, s.id, s.skymap.value, 90, w.contour(90))
              && rescans == old(rescans) + [s.id]
            else contours == old(contours) && rescans == old(rescans))
    {
      hide Clustering.Valid, ContourAfter, KeyOf, Upserted, Patched;
      ValidIsIndexed(creator.State());
      var s: Superevent;
      if update.Skipped? {
        var key := FindById(update.supereventId);
        s := creator.superevents[key];
      } else {
        s := update.superevent;
      }
      if w.row { rows := Upserted(rows, s); }
      if update.SkymapAttached? && s.skymap.Some? {
        var sky := s.skymap.value;
        if w.centre { rows := Patched(rows, s.id, centroid(sky.bytes)); }
        if w.blob { blobs := blobs[s.id := sky]; }
        contours := ContourAfter(contourOf, contours, s.id, sky, 50, w.contour(50));
        contours := ContourAfter(contourOf, contours, s.id, sky, 90, w.contour(90));
        rescans := rescans + [s.id];
      }
    }

    method FindById(id: string) returns (key: real)
      requires Valid() && KeyOf(creator.State(), id).Some?
      ensures key == KeyOf(creator.State(), id).value
    {
      hide Clustering.Valid;
      ValidIsIndexed(creator.State());
      var keys := Ascending(creator.superevents.Keys);
      ghost var target := KeyOf(creator.State(), id).value;
      assert target in keys;
      for i := 0 to |keys|
        invariant forall j :: 0 <= j < i ==> keys[j] != target
      {
        if creator.superevents[keys[i]].id == id { return keys[i]; }
      }
      assert false;
      key := 0.0;
    }

    method ApplyLocalizeResult(r: LocalizeResult) returns (update: Option<SupereventUpdate>)
      requires Valid()
      modifies creator`superevents
      ensures Valid() && creator.State() == AttachResult(old(creator.State()), r)
      ensures
        update == match MapOf(r)
                  case None => None
                  case Some(sky) => AttachUpdate(old(creator.State()), r.supereventId, sky)
    {
      hide Clustering.Valid;
      if r.status.Error? { return None; }
      match r.payload
      case Missing => update := None;
      case Malformed => update := None;
      case Fits(bytes) => update := creator.AttachSkymap(r.supereventId, SkyMapFits(bytes, r.elapsedMs));
    }

    // One result: attach, publish, archive.
    method HandleResult(r: LocalizeResult, w: Writes)
      requires Valid()
      modifies creator`superevents, this`rows, this`blobs, this`contours, this`rescans, this`published, this`log
      ensures Valid() && creator.State() == AttachResult(old(creator.State()), r)
      ensures AllWritten(w) ==> World() == AfterResult(centroid, old(World()), r)
      ensures
        var update :=
          if MapOf(r).Some? then AttachUpdate(old(creator.State()), r.supereventId, MapOf(r).value) else None;
        published == old(published) + (if update.Some? && w.publish then [update.value] else [])
    {
      hide Clustering.Valid, KeyOf, ContourAfter, Upserted, Patched, AfterResult, AttachResult, RowsAfter, BlobsAfter;
      ghost var before := World();
      ValidIsIndexed(before.c);
      if AllWritten(w) { ResultWritten(centroid, before, r, w); }
      var update := ApplyLocalizeResult(r);
      if update.Some? {
        var ok := Emit(update.value, None, w);
        ArchiveSupereventFrom(update.value, w);
      }
    }

    // The results received so far, in order, then one save if there were any.
    method DrainLocalizeResults(saveOk: bool, writes: nat -> Writes) returns (r: Result<(), PipelineError>)
      requires Valid()
      modifies this`rows, this`blobs, this`contours, this`rescans, this`published, this`log, this`pending
      modifies creator`superevents, redis
      ensures Valid() && pending == [] && creator.State() == AttachResults(old(creator.State()), old(pending))
      ensures (forall i :: AllWritten(writes(i))) ==> World() == AfterResults(centroid, old(World()), old(pending))
      ensures r.Ok? <==> saveOk || old(pending) == []
      ensures old(pending) != [] && saveOk ==> IsImageOf(redis.Contents(), creator.State(), json)
      ensures old(pending) == [] || !saveOk ==> redis.Contents() == old(redis.Contents())
    {
      hide Clustering.Valid, AfterResult, AttachResult, AfterResults, AttachResults, AllWritten, IsImageOf;
      ghost var before := World();
      NothingToDrain(centroid, before);
      var batch := pending;
      pending := [];
      if batch == [] { return Result.Ok(()); }
      for i := 0 to |batch|
        invariant Valid() && pending == [] && redis.Contents() == old(redis.Contents())
        invariant creator.State() == AttachResults(before.c, batch[..i])
        invariant (forall j :: AllWritten(writes(j))) ==> World() == AfterResults(centroid, before, batch[..i])
      {
        OneMoreResult(centroid, before, batch[..i], batch[i]);
        assert batch[..i + 1] == batch[..i] + [batch[i]];
        HandleResult(batch[i], writes(i));
      }
      assert batch[..|batch|] == batch;
      r := PersistState(saveOk);
    }

    // Cluster the event, log and publish the update, archive what it touched.
    method Ingest(event: GwEvent, w: Writes) returns (update: SupereventUpdate, ok: bool)
      requires Valid() && creator.nextSeq + 1 < U64_LIMIT
      modifies this`events, this`rows, this`blobs, this`contours, this`rescans, this`published, this`log, creator
      ensures Valid() && ok == w.log
      ensures events == if w.audit then old(events)[event.graceid := event] else old(events)
      ensures creator.State() == AfterEvent(old(World()), event).c
      ensures update == ProcessUpdate(old(creator.State()), event)
      ensures !w.log ==> rows == old(rows) && blobs == old(blobs)
      ensures AllWritten(w) ==> World() == AfterEvent(old(World()), event)
      ensures log == old(log) + (if w.log then [(event, update)] else [])
      ensures published == old(published) + (if w.log && w.publish then [update] else [])
    {
      hide Clustering.Valid, KeyOf, Clustering.Process, ProcessUpdate, Subject, Touched, Upserted, Patched;
      ghost var before := World();
      ValidIsIndexed(before.c);
      UpdateIsOfTouched(before.c, event);
      ArchiveEvent(event, w.audit);
      update := creator.Process(event);
      ok := Emit(update, Some(event), w);
      if !ok { return; }
      ArchiveSupereventFrom(update, w);
    }

    // Ask the localizer, or record that the gate held the request back.
    method RequestLocalization(event: GwEvent, coincXml: Bytes, update: SupereventUpdate, submitOk: bool)
      modifies this`requested, this`skipped
      ensures
        var due := LocalizeRequestFor(event, coincXml, update);
        var loud := event.snr >= minSnr && (maxFarHz.Some? ==> event.far <= maxFarHz.value);
        && requested == old(requested) + (if due.Some? && loud && submitOk then [due.value] else [])
        && skipped == old(skipped) + (if due.Some? && !loud then [due.value] else [])
    {
      var due := LocalizeRequestFor(event, coincXml, update);
      if due.Some? {
        if Gated(event) {
          skipped := skipped + [due.value];
        } else if submitOk {
          requested := requested + [due.value];
        }
      }
    }

    /** One inbound event.  When the log write and both saves succeed, memory and
        Redis reflect the event and every result that had arrived, and so does the
        archive when its writes succeed.  A failed log write stops before archive
        and save; a failed first save stops before the results, which stay queued. */
    method ProcessEvent(event: GwEvent, coincXml: Bytes, firstSaveOk: bool, secondSaveOk: bool, w: Writes,
        writes: nat -> Writes)
      returns (r: Result<(), PipelineError>)
      requires Valid() && creator.nextSeq + 1 < U64_LIMIT
      modifies this, creator, redis
      ensures Valid()
      ensures
        var after := AfterEvent(old(World()), event);
        var saved := w.log && firstSaveOk;
        && Clustering.Valid(after.c)
        && creator.State() == (if saved then AttachResults(after.c, old(pending)) else after.c)
        && (AllWritten(w) && (forall i :: AllWritten(writes(i))) ==>
              World() == if saved then AfterResults(centroid, after, old(pending)) else after)
        && pending == (if saved then [] else old(pending))
        && (r.Ok? <==> saved && (secondSaveOk || old(pending) == []))
        && (!w.log ==> r == Err(LogFailed) && rows == old(rows) && blobs == old(blobs))
      ensures r.Ok? ==> IsImageOf(redis.Contents(), creator.State(), json)
      ensures !w.log || !firstSaveOk ==> redis.Contents() == old(redis.Contents())
      ensures
        var due := if w.log then LocalizeRequestFor(event, coincXml, ProcessUpdate(old(creator.State()), event))
            else None;
        var loud := event.snr >= minSnr && (maxFarHz.Some? ==> event.far <= maxFarHz.value);
        && requested == old(requested) + (if due.Some? && loud && w.submit then [due.value] else [])
        && skipped == old(skipped) + (if due.Some? && !loud then [due.value] else [])
    {
      hide Clustering.Valid, AfterResults, AttachResults, KeyOf, Nearest, IsNearest, LocalizeRequestFor, IsImageOf,
          AllWritten;
      ghost var before := World();
      ghost var waiting := pending;
      var update, ok := Ingest(event, w);
      if !ok { return Err(LogFailed); }
      RequestLocalization(event, coincXml, update, w.submit);
      r := PersistState(firstSaveOk);
      if r.Err? { return; }
      r := DrainLocalizeResults(secondSaveOk, writes);
      if waiting == [] { NothingToDrain(centroid, AfterEvent(before, event)); }
    }

    /** After the input ends: wait for results until every open superevent has a
        sky map, a save fails, or the polls before the deadline (None: a poll timed
        out) run out. */
    method DrainUntilQuiet(polls: seq<Option<LocalizeResult>>, saves: nat -> bool, writes: nat -> Writes)
      returns (r: Result<(), PipelineError>, ghost used: nat)
      requires Valid()
      modifies this`rows, this`blobs, this`contours, this`rescans, this`published, this`log, creator`superevents, redis
      ensures Valid() && used <= |polls|
      ensures creator.State() == AttachResults(old(creator.State()), Arrived(polls[..used]))
      ensures (forall i :: AllWritten(writes(i))) ==>
                World() == AfterResults(centroid, old(World()), Arrived(polls[..used]))
      ensures r.Ok? && used < |polls| ==> AllMapped(creator.superevents)
      ensures AllMapped(old(creator.superevents)) ==> used == 0
      ensures r.Ok? && Arrived(polls[..used]) != [] ==> IsImageOf(redis.Contents(), creator.State(), json)
      ensures Arrived(polls[..used]) == [] ==> redis.Contents() == old(redis.Contents())
      ensures r.Err? ==> used > 0 && polls[used - 1].Some? && !saves(used - 1)
    {
      hide Clustering.Valid, AfterResult, AttachResult, AfterResults, AttachResults, Arrived, AllWritten, IsImageOf;
      hide AllMapped, Outstanding;
      ghost var before := World();
      NothingToDrain(centroid, before);
      NothingArrived(polls);
      used := 0;
      for i := 0 to |polls|
        invariant Valid() && used == i && (used > 0 ==> !AllMapped(before.c.superevents))
        invariant creator.State() == AttachResults(before.c, Arrived(polls[..i]))
        invariant (forall j :: AllWritten(writes(j))) ==> World() == AfterResults(centroid, before, Arrived(polls[..i]))
        invariant Arrived(polls[..i]) != [] ==> IsImageOf(redis.Contents(), creator.State(), json)
        invariant Arrived(polls[..i]) == [] ==> redis.Contents() == old(redis.Contents())
      {
        AllMappedIff(creator.superevents);
        if Outstanding(creator.superevents) == {} { return Result.Ok(()), used; }
        OneMorePoll(polls, i);
        used := i + 1;
        if polls[i].Some? {
          OneMoreResult(centroid, before, Arrived(polls[..i]), polls[i].value);
          HandleResult(polls[i].value, writes(i));
          var saved := PersistState(saves(i));
          if saved.Err? { return saved, used; }
        }
      }
      r := Result.Ok(());
    }
  }

  /** Start-up: the creator loaded from an image saved by a previous process is
      one that Reload transitions allow; a saved image never fails to load. */
  method Recover(redis: RedisStore, json: Json, window: real, ghost saved: Snapshot)
      returns (r: Result<SupereventCreator, StateError>)
    requires Faithful(json, saved) && Clustering.Valid(saved) && saved.window == window
    requires IsImageOf(redis.Contents(), saved, json)
    ensures r.Ok? && fresh(r.value) && ReloadsTo(json, redis.Contents(), window, r.value.State())
  {
    hide Clustering.Valid, Faithful, IsImageOf, Collect, Reloaded;
    ghost var ids;
    r, ids := redis.Load(json, Some(window), true, {});
    WindowsRestored(json, saved, redis.Contents(), ids);
    assert Restart.Loads(json, redis.Contents(), ids, window, r.value.State());
  }

  /** A result is matched by superevent id alone: a map computed for an event
      that has since been outranked is still attached, beside the new preferred
      event. */
  lemma OutrankedMapStillAttaches(c: Snapshot, louder: GwEvent, r: LocalizeResult)
    requires Clustering.Valid(c) && MapOf(r).Some? && ProcessUpdate(c, louder).PreferredUpdated?
    requires r.supereventId == ProcessUpdate(c, louder).superevent.id
    ensures
      var d := Process(c, louder);
      Clustering.Valid(d) &&
      var k := Target(c, louder.endTime).value;
      && KeyOf(d, r.supereventId) == Some(k)
      && var s := Attach(d, r.supereventId, MapOf(r).value).superevents[k];
         s.preferredEvent == louder && s.skymap == MapOf(r)
  {
    hide Clustering.Valid, Nearest, IsNearest;
    ValidIsIndexed(c);
    ProcessKeepsValid(c, louder);
    assert Process(c, louder).times == c.times;
    assert c.times[Target(c, louder.endTime).value] == r.supereventId;
  }

  // The results among a series of polls.
  function Arrived(polls: seq<Option<LocalizeResult>>): seq<LocalizeResult> {
    if polls == [] then []
    else
      match polls[|polls| - 1]
      case Some(r) => Arrived(polls[..|polls| - 1]) + [r]
      case None => Arrived(polls[..|polls| - 1])
  }

  // The results of the polls, in order, timeouts left out.
  lemma {:induction false} ArrivedConcat(a: seq<Option<LocalizeResult>>, b: seq<Option<LocalizeResult>>)
    ensures Arrived(a + b) == Arrived(a) + Arrived(b)
  {
    if b == [] {
      assert a + b == a;
    } else {
      ArrivedConcat(a, b[..|b| - 1]);
      assert (a + b)[..|a + b| - 1] == a + b[..|b| - 1];
    }
  }

  lemma ArrivedOne(r: LocalizeResult)
    ensures Arrived([]) == [] && Arrived([Some(r)]) == [r] && Arrived([None]) == []
  {
    var timeout: seq<Option<LocalizeResult>> := [None];
    assert [Some(r)][..0] == [] && timeout[..0] == [];
  }

  lemma NothingArrived(polls: seq<Option<LocalizeResult>>)
    ensures Arrived(polls[..0]) == []
  {
  }

  lemma OneMorePoll(polls: seq<Option<LocalizeResult>>, i: nat)
    requires i < |polls|
    ensures
      Arrived(polls[..i + 1])
      == if polls[i].Some? then Arrived(polls[..i]) + [polls[i].value] else Arrived(polls[..i])
  {
    assert polls[..i + 1][..i] == polls[..i];
  }

  lemma OneMoreResult(centroid: Centroid, w: World, rs: seq<LocalizeResult>, r: LocalizeResult)
    requires Clustering.Valid(w.c)
    ensures AfterResults(centroid, w, rs + [r]) == AfterResult(centroid, AfterResults(centroid, w, rs), r)
    ensures AttachResults(w.c, rs + [r]) == AttachResult(AttachResults(w.c, rs), r)
  {
    hide Clustering.Valid, AfterResult, AttachResult;
    assert (rs + [r])[..|rs|] == rs;
  }

  lemma NothingToDrain(centroid: Centroid, w: World)
    requires Clustering.Valid(w.c)
    ensures AfterResults(centroid, w, []) == w && AttachResults(w.c, []) == w.c
  {
  }

  // What an inbound update speaks of is the window just extended or opened.
  lemma UpdateIsOfTouched(c: Snapshot, e: GwEvent)
    requires Clustering.Valid(c)
    ensures
      var d, update := Process(c, e), ProcessUpdate(c, e);
      && !update.SkymapAttached?
      && (update.Skipped? ==> KeyOf(d, update.supereventId).Some?)
      && d.times.Keys <= d.superevents.Keys && Subject(d, update) == Touched(c, e)
  {
    hide Clustering.Valid, Nearest, IsNearest, FormatId, Join;
    ValidIsIndexed(c);
    ProcessKeepsValid(c, e);
    ValidIsIndexed(Process(c, e));
    ProcessTouches(c, e);
    if Target(c, e.endTime).Some? { JoinKeepsId(c.superevents[Target(c, e.endTime).value], e); }
  }
}
