/** Whose sky map a superevent shows.  Results are matched by superevent id alone,
    so the map need not belong to the preferred event; these lemmas say when it
    does, over whole runs of events and results. */
module Provenance {
  import opened Wrappers
  import opened Decimal
  import opened ByteStrings
  import opened Clustering
  import opened Persistence
  import opened Mirrors
  import opened Pipeline
  import Restart

  // What reaches the clusterer: an event, or a localization result.
  datatype Input = Event(event: GwEvent) | Result(result: LocalizeResult)

  ghost function Feed(c: Snapshot, input: Input): (d: Snapshot)
    requires Valid(c)
    ensures Valid(d) && d.window == c.window
  {
    hide Valid;
    match input
    case Event(e) => ProcessKeepsValid(c, e); ValidIsIndexed(c); Process(c, e)
    case Result(r) => AttachResult(c, r)
  }

  ghost function FeedAll(c: Snapshot, inputs: seq<Input>): (d: Snapshot)
    requires Valid(c)
    ensures Valid(d) && d.window == c.window
  {
    if inputs == [] then c else Feed(FeedAll(c, inputs[..|inputs| - 1]), inputs[|inputs| - 1])
  }

  // The clusterer before input i of a run from an empty one.
  ghost function Before(window: real, inputs: seq<Input>, i: nat): (d: Snapshot)
    requires window >= 0.0 && i <= |inputs|
    ensures Valid(d)
  {
    NewIsValid(window);
    FeedAll(New(window), inputs[..i])
  }

  lemma StartIsEmpty(window: real, inputs: seq<Input>)
    requires window >= 0.0
    ensures Before(window, inputs, 0) == New(window)
  {
    hide Valid, Feed;
    assert inputs[..0] == [];
  }

  lemma BeforeStep(window: real, inputs: seq<Input>, i: nat)
    requires window >= 0.0 && i < |inputs|
    ensures Before(window, inputs, i + 1) == Feed(Before(window, inputs, i), inputs[i])
  {
    hide Valid, Feed;
    assert inputs[..i + 1][..i] == inputs[..i];
  }

  // Input i makes its event the preferred one of superevent id: it opens it or
  // promotes it, and a localization of that event is due.
  ghost predicate Promotes(window: real, inputs: seq<Input>, i: nat, id: string)
    requires window >= 0.0 && i < |inputs|
  {
    inputs[i].Event? && PromotesAt(Before(window, inputs, i), inputs[i].event, id)
  }

  ghost predicate PromotesAt(c: Snapshot, e: GwEvent, id: string)
    requires Valid(c)
  {
    ValidIsIndexed(c);
    var due := LocalizeRequestFor(e, [], ProcessUpdate(c, e));
    due.Some? && due.value.supereventId == id
  }

  // Input i is a usable result that reaches the open superevent id.
  ghost predicate Attaches(window: real, inputs: seq<Input>, i: nat, id: string)
    requires window >= 0.0 && i < |inputs|
  {
    inputs[i].Result? && AttachesAt(Before(window, inputs, i), inputs[i].result, id)
  }

  ghost predicate AttachesAt(c: Snapshot, r: LocalizeResult, id: string) {
    r.status.Ok? && r.payload.Fits? && r.supereventId == id && IsNamed(c, id)
  }

  ghost predicate IsNamed(c: Snapshot, id: string) {
    exists k :: k in c.times && c.times[k] == id
  }

  // ------------------------------------------------------------ one step

  // An event is due a localization exactly when it becomes preferred.
  lemma PromotesIff(c: Snapshot, e: GwEvent, id: string)
    requires Valid(c)
    ensures
      var k := TouchedCentre(c, e);
      PromotesAt(c, e, id) <==>
        && id == Touched(c, e).id
        && (k in c.superevents ==> e.snr > c.superevents[k].preferredEvent.snr)
  {
    hide Valid, FormatId, Nearest, IsNearest, Join;
    ValidIsIndexed(c);
    ProcessTouches(c, e);
    if Target(c, e.endTime).Some? { JoinKeepsId(c.superevents[Target(c, e.endTime).value], e); }
  }

  lemma JoinPrefers(s: Superevent, e: GwEvent)
    ensures Join(s, e).preferredEvent == if e.snr > s.preferredEvent.snr then e else s.preferredEvent
  {
  }

  // Attaching renames nothing and promotes nothing.
  lemma ResultKeepsWindows(c: Snapshot, r: LocalizeResult)
    requires Valid(c)
    ensures
      var d := Feed(c, Result(r));
      && d.times == c.times && d.superevents.Keys == c.superevents.Keys
      && forall k :: k in c.superevents ==> d.superevents[k].preferredEvent == c.superevents[k].preferredEvent
  {
    hide Valid;
    ValidIsIndexed(c);
  }

  // Centres keep their name; a new centre has a name never seen.
  lemma FeedNames(c: Snapshot, input: Input)
    requires Valid(c)
    ensures
      var d := Feed(c, input);
      && (forall k :: k in c.times ==> k in d.times && d.times[k] == c.times[k])
      && (forall k :: k in d.times && k !in c.times ==>
            input.Event? && PromotesAt(c, input.event, d.times[k]) && !IsNamed(c, d.times[k]))
  {
    hide Valid, FormatId, Process, Target, Touched, Join, PromotesAt;
    ValidIsIndexed(c);
    match input
    case Event(e) =>
      ProcessTouches(c, e);
      FreshId(c);
      PromotesIff(c, e, Touched(c, e).id);
      if TouchedCentre(c, e) in c.superevents { JoinKeepsId(c.superevents[TouchedCentre(c, e)], e); }
    case Result(r) => ResultKeepsWindows(c, r);
  }

  // The preferred event changes exactly when the input promotes.
  lemma FeedPreferred(c: Snapshot, input: Input, k: real)
    requires Valid(c) && k in Feed(c, input).times
    ensures
      var d := Feed(c, input);
      && k in d.superevents
      && (if input.Event? && PromotesAt(c, input.event, d.times[k])
          then d.superevents[k].preferredEvent == input.event
               && (k in c.superevents ==> input.event.snr > c.superevents[k].preferredEvent.snr)
          else k in c.superevents && d.superevents[k].preferredEvent == c.superevents[k].preferredEvent)
  {
    hide Valid, FormatId, Process, Target, Touched, Join, PromotesAt;
    ValidIsIndexed(c);
    ValidIsIndexed(Feed(c, input));
    match input
    case Event(e) =>
      var t := TouchedCentre(c, e);
      ProcessTouches(c, e);
      PromotesIff(c, e, Feed(c, input).times[k]);
      if t in c.superevents { JoinPrefers(c.superevents[t], e); }
      if k != t { OthersKeepNames(c, e, k); }
    case Result(r) => ResultKeepsWindows(c, r);
  }

  // The sky map changes exactly when the input attaches.
  lemma FeedMap(c: Snapshot, input: Input, k: real)
    requires Valid(c) && k in Feed(c, input).times
    ensures
      var d := Feed(c, input);
      && k in d.superevents
      && d.superevents[k].skymap ==
           if input.Result? && AttachesAt(c, input.result, d.times[k]) then MapOf(input.result)
           else if k in c.superevents then c.superevents[k].skymap else None
  {
    hide Valid, FormatId, Process, Target, Touched, Join, Attach;
    ValidIsIndexed(c);
    ValidIsIndexed(Feed(c, input));
    match input
    case Event(e) =>
      ProcessTouches(c, e);
      if TouchedCentre(c, e) in c.superevents { JoinKeepsId(c.superevents[TouchedCentre(c, e)], e); }
    case Result(r) =>
      ResultKeepsWindows(c, r);
      if MapOf(r).Some? { AttachedIn(c, r.supereventId, MapOf(r).value, k); }
  }

  lemma AttachedIn(c: Snapshot, id: string, sky: SkyMapFits, k: real)
    requires Valid(c) && k in c.times
    ensures k in c.superevents && k in Attach(c, id, sky).superevents && IsNamed(c, c.times[k])
    ensures Attach(c, id, sky).superevents[k].skymap
         == if c.times[k] == id then Some(sky) else c.superevents[k].skymap
  {
    hide Valid, Attach;
    ValidIsIndexed(c);
    AttachedAt(c, id, sky, k);
  }

  // ----------------------------------------------------------- whole runs

  // The last input up to n that promotes id.
  ghost predicate IsLastPromotion(window: real, inputs: seq<Input>, j: nat, n: nat, id: string)
    requires window >= 0.0 && n <= |inputs|
  {
    j < n && Promotes(window, inputs, j, id) && forall m :: j < m < n ==> !Promotes(window, inputs, m, id)
  }

  /** The preferred event of an open superevent is that of its last promotion. */
  lemma {:induction false} PreferredIsLastPromotion(window: real, inputs: seq<Input>, n: nat, k: real) returns (j: nat)
    requires window >= 0.0 && n <= |inputs| && k in Before(window, inputs, n).times
    ensures k in Before(window, inputs, n).superevents
    ensures IsLastPromotion(window, inputs, j, n, Before(window, inputs, n).times[k])
    ensures inputs[j].event == Before(window, inputs, n).superevents[k].preferredEvent
  {
    hide Valid, Feed, PromotesAt;
    StartIsEmpty(window, inputs);
    if n == 0 {
      assert false;
    } else {
      var i := n - 1;
      var c := Before(window, inputs, i);
      BeforeStep(window, inputs, i);
      FeedNames(c, inputs[i]);
      FeedPreferred(c, inputs[i], k);
      if Promotes(window, inputs, i, Before(window, inputs, n).times[k]) {
        j := i;
      } else {
        ValidIsIndexed(c);
        j := PreferredIsLastPromotion(window, inputs, i, k);
      }
    }
  }

  // Input i is the last up to n whose map reached superevent id.
  ghost predicate IsLastAttachment(window: real, inputs: seq<Input>, i: nat, n: nat, id: string)
    requires window >= 0.0 && n <= |inputs|
  {
    i < n && Attaches(window, inputs, i, id) && forall m :: i < m < n ==> !Attaches(window, inputs, m, id)
  }

  // The attachment a superevent's map comes from; -1 when it has none.
  lemma {:induction false} MapSource(window: real, inputs: seq<Input>, n: nat, k: real) returns (i: int)
    requires window >= 0.0 && n <= |inputs| && k in Before(window, inputs, n).times
    ensures k in Before(window, inputs, n).superevents && -1 <= i < n
    ensures
      var c := Before(window, inputs, n);
      var id := c.times[k];
      if i >= 0 then IsLastAttachment(window, inputs, i, n, id) && c.superevents[k].skymap == MapOf(inputs[i].result)
      else c.superevents[k].skymap.None? && forall m :: 0 <= m < n ==> !Attaches(window, inputs, m, id)
  {
    hide Valid, Feed, AttachesAt;
    StartIsEmpty(window, inputs);
    if n == 0 {
      assert false;
    } else {
      var last := n - 1;
      var c, id := Before(window, inputs, last), Before(window, inputs, n).times[k];
      BeforeStep(window, inputs, last);
      FeedNames(c, inputs[last]);
      FeedMap(c, inputs[last], k);
      if Attaches(window, inputs, last, id) {
        i := last;
      } else if k in c.times {
        i := MapSource(window, inputs, last, k);
      } else {
        ValidIsIndexed(c);
        i := -1;
        forall m | 0 <= m < n ensures !Attaches(window, inputs, m, id) {
          if m < last { NoneAttachedYet(window, inputs, m, last, id); }
        }
      }
    }
  }

  /** An open superevent shows the map of the last usable result that was addressed
      to it while it was open, and none when there was no such result. */
  lemma LastMapStands(window: real, inputs: seq<Input>, n: nat, k: real)
    requires window >= 0.0 && n <= |inputs| && k in Before(window, inputs, n).times
    ensures
      var c := Before(window, inputs, n);
      && k in c.superevents
      && (c.superevents[k].skymap.None? <==> forall i :: 0 <= i < n ==> !Attaches(window, inputs, i, c.times[k]))
      && (forall i: nat :: IsLastAttachment(window, inputs, i, n, c.times[k]) ==>
            && inputs[i].result.payload.Fits?
            && c.superevents[k].skymap == Some(SkyMapFits(inputs[i].result.payload.bytes, inputs[i].result.elapsedMs)))
  {
    hide Valid, Before, AttachesAt;
    var c := Before(window, inputs, n);
    var i := MapSource(window, inputs, n, k);
    if i >= 0 { AttachmentIsUsable(window, inputs, i, c.times[k]); }
    forall m: nat | IsLastAttachment(window, inputs, m, n, c.times[k]) ensures m == i {}
  }

  lemma AttachmentIsUsable(window: real, inputs: seq<Input>, i: nat, id: string)
    requires window >= 0.0 && i < |inputs|
    ensures Attaches(window, inputs, i, id) ==>
      && inputs[i].result.payload.Fits?
      && MapOf(inputs[i].result) == Some(SkyMapFits(inputs[i].result.payload.bytes, inputs[i].result.elapsedMs))
  {
  }

  lemma AttachmentNeedsName(window: real, inputs: seq<Input>, i: nat, id: string)
    requires window >= 0.0 && i < |inputs| && Attaches(window, inputs, i, id)
    ensures IsNamed(Before(window, inputs, i), id)
  {
  }

  // A name once given stays; so a name not yet given has received nothing.
  lemma {:induction false} NamesStay(window: real, inputs: seq<Input>, m: nat, n: nat, id: string)
    requires window >= 0.0 && m <= n <= |inputs| && IsNamed(Before(window, inputs, m), id)
    ensures IsNamed(Before(window, inputs, n), id)
    decreases n
  {
    hide Valid, Feed;
    if m == n {
    } else {
      NamesStay(window, inputs, m, n - 1, id);
      BeforeStep(window, inputs, n - 1);
      var c := Before(window, inputs, n - 1);
      FeedNames(c, inputs[n - 1]);
      var k :| k in c.times && c.times[k] == id;
      assert Before(window, inputs, n).times[k] == id;
    }
  }

  lemma NoneAttachedYet(window: real, inputs: seq<Input>, m: nat, n: nat, id: string)
    requires window >= 0.0 && m < n <= |inputs| && !IsNamed(Before(window, inputs, n), id)
    ensures !Attaches(window, inputs, m, id)
  {
    if Attaches(window, inputs, m, id) {
      AttachmentNeedsName(window, inputs, m, id);
      NamesStay(window, inputs, m, n, id);
    }
  }

  // Result i answers the request due at input j.
  ghost predicate Answers(window: real, inputs: seq<Input>, i: nat, j: nat)
    requires window >= 0.0
  {
    && j < i < |inputs| && inputs[i].Result? && Promotes(window, inputs, j, inputs[i].result.supereventId)
    && inputs[i].result.graceid == inputs[j].event.graceid
  }

  // Events sharing a graceid are the same event, perhaps delivered twice.
  ghost predicate GraceidsNameEvents(inputs: seq<Input>) {
    forall i, j ::
      (&& 0 <= i < |inputs| && 0 <= j < |inputs| && inputs[i].Event? && inputs[j].Event?
       && inputs[i].event.graceid == inputs[j].event.graceid)
      ==> inputs[i].event == inputs[j].event
  }

  // After a promotion the preferred SNR never falls below the promoted event's.
  lemma {:induction false} PromotedSnrStands(window: real, inputs: seq<Input>, j: nat, n: nat, id: string, k: real)
    requires window >= 0.0 && j < n <= |inputs| && Promotes(window, inputs, j, id)
    requires k in Before(window, inputs, n).times && Before(window, inputs, n).times[k] == id
    ensures k in Before(window, inputs, n).superevents
    ensures inputs[j].event.snr <= Before(window, inputs, n).superevents[k].preferredEvent.snr
    decreases n
  {
    hide Valid, Feed, PromotesAt;
    var c := Before(window, inputs, n - 1);
    BeforeStep(window, inputs, n - 1);
    FeedNames(c, inputs[n - 1]);
    FeedPreferred(c, inputs[n - 1], k);
    if j < n - 1 {
      ValidIsIndexed(c);
      if k in c.times {
        PromotedSnrStands(window, inputs, j, n - 1, id, k);
      } else {
        PromotionNamed(window, inputs, j, id);
        NamesStay(window, inputs, j + 1, n - 1, id);
        assert false;
      }
    }
  }

  lemma PromotionNamed(window: real, inputs: seq<Input>, j: nat, id: string)
    requires window >= 0.0 && j < |inputs| && Promotes(window, inputs, j, id)
    ensures IsNamed(Before(window, inputs, j + 1), id)
  {
    hide Valid;
    BeforeStep(window, inputs, j);
    PromotesNamed(Before(window, inputs, j), inputs[j].event, id);
  }

  lemma PromotesNamed(c: Snapshot, e: GwEvent, id: string)
    requires Valid(c) && PromotesAt(c, e, id)
    ensures IsNamed(Feed(c, Event(e)), id)
  {
    hide Valid, Nearest, IsNearest, FormatId;
    ValidIsIndexed(c);
    var d := Feed(c, Event(e));
    var k := if Target(c, e.endTime).Some? then Target(c, e.endTime).value else e.endTime;
    assert k in d.times && d.times[k] == id;
  }

  // No event promotes the same superevent twice.
  lemma NeverTwice(window: real, inputs: seq<Input>, j: nat, m: nat, id: string)
    requires window >= 0.0 && j < m < |inputs| && GraceidsNameEvents(inputs)
    requires Promotes(window, inputs, j, id) && Promotes(window, inputs, m, id)
    ensures inputs[j].event.graceid != inputs[m].event.graceid
  {
    hide Valid, Feed, PromotesAt;
    PromotionNamed(window, inputs, j, id);
    NamesStay(window, inputs, j + 1, m, id);
    var c := Before(window, inputs, m);
    var k :| k in c.times && c.times[k] == id;
    PromotedSnrStands(window, inputs, j, m, id, k);
    FeedNames(c, inputs[m]);
    FeedPreferred(c, inputs[m], k);
  }

  // The last promotion of superevent id was by the event with this graceid.
  ghost predicate LastPromotedBy(window: real, inputs: seq<Input>, id: string, graceid: string)
    requires window >= 0.0
  {
    exists j: nat :: IsLastPromotion(window, inputs, j, |inputs|, id) && inputs[j].event.graceid == graceid
  }

  /** In every run, the map a superevent shows belongs to its preferred event if
      and only if the event its result names is the last one promoted there.
      Nothing is asked of the result: it may be late, repeated, or answer a
      request of an event that a crash has lost since. */
  lemma MapBelongsIff(window: real, inputs: seq<Input>, k: real, i: nat)
    requires window >= 0.0 && k in Before(window, inputs, |inputs|).times
    requires IsLastAttachment(window, inputs, i, |inputs|, Before(window, inputs, |inputs|).times[k])
    ensures
      var c := Before(window, inputs, |inputs|);
      && k in c.superevents && c.superevents[k].skymap == MapOf(inputs[i].result)
      && (inputs[i].result.graceid == c.superevents[k].preferredEvent.graceid
          <==> LastPromotedBy(window, inputs, c.times[k], inputs[i].result.graceid))
  {
    hide Valid, Before, PromotesAt, AttachesAt, MapOf;
    LastMapStands(window, inputs, |inputs|, k);
    AttachmentIsUsable(window, inputs, i, Before(window, inputs, |inputs|).times[k]);
    var last := PreferredIsLastPromotion(window, inputs, |inputs|, k);
    forall j: nat | IsLastPromotion(window, inputs, j, |inputs|, Before(window, inputs, |inputs|).times[k])
      ensures j == last
    {}
  }

  /** For the answer to a request that was not lost: the map belongs if and only if
      no promotion followed that request; in particular no older result may have
      come after it. */
  lemma AnsweredMapBelongsIff(window: real, inputs: seq<Input>, k: real, i: nat, j: nat)
    requires window >= 0.0 && GraceidsNameEvents(inputs) && k in Before(window, inputs, |inputs|).times
    requires IsLastAttachment(window, inputs, i, |inputs|, Before(window, inputs, |inputs|).times[k])
    requires Answers(window, inputs, i, j)
    ensures
      var c := Before(window, inputs, |inputs|);
      && k in c.superevents && c.superevents[k].skymap == MapOf(inputs[i].result)
      && (inputs[i].result.graceid == c.superevents[k].preferredEvent.graceid
          <==> forall m :: j < m < |inputs| ==> !Promotes(window, inputs, m, c.times[k]))
  {
    hide Valid, PromotesAt;
    var n := |inputs|;
    var c := Before(window, inputs, n);
    LastMapStands(window, inputs, n, k);
    AttachmentAddressed(window, inputs, i, c.times[k]);
    var last := PreferredIsLastPromotion(window, inputs, n, k);
    if j < last { NeverTwice(window, inputs, j, last, c.times[k]); }
  }

  lemma AttachmentAddressed(window: real, inputs: seq<Input>, i: nat, id: string)
    requires window >= 0.0 && i < |inputs| && Attaches(window, inputs, i, id)
    ensures inputs[i].result.supereventId == id
  {
  }

  /** It does happen: two events at the same time, the second louder, and the first
      one's result last. */
  lemma StaleMapRun(window: real, quiet: GwEvent, loud: GwEvent, r: LocalizeResult)
    requires window >= 0.0 && quiet.endTime == loud.endTime && quiet.snr < loud.snr
    requires MapOf(r).Some? && r.supereventId == FormatId(0) && r.graceid == quiet.graceid != loud.graceid
    ensures
      var c := Before(window, [Event(quiet), Event(loud), Result(r)], 3);
      && quiet.endTime in c.superevents
      && c.superevents[quiet.endTime].preferredEvent == loud && c.superevents[quiet.endTime].skymap == MapOf(r)
  {
    hide Valid, Feed, FormatId;
    var inputs, t := [Event(quiet), Event(loud), Result(r)], quiet.endTime;
    NewIsValid(window);
    assert inputs[..0] == [];
    BeforeStep(window, inputs, 0);
    BeforeStep(window, inputs, 1);
    BeforeStep(window, inputs, 2);
    OneWindow(window, quiet, loud, FormatId(0));
    var c := Before(window, inputs, 2);
    FeedNames(c, inputs[2]);
    FeedPreferred(c, inputs[2], t);
    FeedMap(c, inputs[2], t);
    assert c.times[t] == FormatId(0);
  }

  lemma OneWindow(window: real, quiet: GwEvent, loud: GwEvent, id: string)
    requires window >= 0.0 && quiet.endTime == loud.endTime && quiet.snr < loud.snr && id == FormatId(0)
    requires Valid(New(window))
    ensures
      var c := Feed(Feed(New(window), Event(quiet)), Event(loud));
      && c.times == map[quiet.endTime := id] && quiet.endTime in c.superevents
      && c.superevents[quiet.endTime].preferredEvent == loud
  {
    hide Valid, FormatId;
    var t := quiet.endTime;
    var c := Feed(New(window), Event(quiet));
    assert c == Opened(New(window), quiet);
    assert Dist(t, t) == 0.0;
    assert IsNearest(c.times.Keys, window / 2.0, t, t);
    NearestIsUnique(c.times.Keys, window / 2.0, t, t);
  }

  // ------------------------------------------------ what updates report

  // The window at k in d, just after it received e.
  ghost predicate HoldsLast(d: Snapshot, k: real, id: string, e: GwEvent) {
    && k in d.times && d.times[k] == id && k in d.superevents
    && d.superevents[k].gEvents != [] && d.superevents[k].gEvents[|d.superevents[k].gEvents| - 1] == e
  }

  /** What one update says of the state it leaves: the window that took the event,
      by id or in full, and whether the event is preferred there. */
  lemma UpdateReports(c: Snapshot, e: GwEvent) returns (k: real)
    requires Valid(c)
    ensures c.times.Keys <= c.superevents.Keys
    ensures
      var d, update := Process(c, e), ProcessUpdate(c, e);
      match update
      case Created(s) =>
        HoldsLast(d, k, s.id, e) && d.superevents[k] == s && s.gEvents == [e] && k == e.endTime && k !in c.times
      case PreferredUpdated(s, previous) =>
        && HoldsLast(d, k, s.id, e) && d.superevents[k] == s && s.preferredEvent == e
        && k in c.superevents && previous == c.superevents[k].preferredEvent.graceid
      case Skipped(id, held, LowerSnr) =>
        && held == e && HoldsLast(d, k, id, e) && k in c.superevents
        && d.superevents[k].preferredEvent == c.superevents[k].preferredEvent
      case SkymapAttached(_) => false
  {
    hide Valid, FormatId, Nearest, IsNearest;
    ValidIsIndexed(c);
    ProcessTouches(c, e);
    k := TouchedCentre(c, e);
  }

  lemma PromotionTakesNamed(c: Snapshot, e: GwEvent, id: string, k: real)
    requires Valid(c) && PromotesAt(c, e, id) && k in c.times && c.times[k] == id
    ensures k in c.superevents
    ensures c.times.Keys <= c.superevents.Keys
    ensures
      var update := ProcessUpdate(c, e);
      && update.PreferredUpdated? && update.superevent.id == id && update.superevent.preferredEvent == e
      && update.previousPreferredGraceid == c.superevents[k].preferredEvent.graceid
  {
    hide Valid, FormatId, Nearest, IsNearest, PromotesAt;
    ValidIsIndexed(c);
    FreshId(c);
    PromotesIff(c, e, id);
    ProcessTouches(c, e);
    if Target(c, e.endTime).Some? { JoinKeepsId(c.superevents[Target(c, e.endTime).value], e); }
  }

  lemma PromotionOpensUnnamed(c: Snapshot, e: GwEvent, id: string)
    requires Valid(c) && PromotesAt(c, e, id) && !IsNamed(c, id)
    ensures c.times.Keys <= c.superevents.Keys
    ensures
      var update := ProcessUpdate(c, e);
      update.Created? && update.superevent.id == id && update.superevent.gEvents == [e]
  {
    hide Valid, FormatId, Nearest, IsNearest, PromotesAt;
    ValidIsIndexed(c);
    PromotesIff(c, e, id);
    ProcessTouches(c, e);
    if Target(c, e.endTime).Some? { JoinKeepsId(c.superevents[Target(c, e.endTime).value], e); }
  }

  /** Over any run, the update of a promotion names as previous the event of the
      promotion of that superevent just before it, and reports a new superevent if
      and only if there was none. */
  lemma PromotionReportsPrevious(window: real, inputs: seq<Input>, j: nat, id: string)
    requires window >= 0.0 && j < |inputs| && Promotes(window, inputs, j, id)
    ensures
      var c := Before(window, inputs, j);
      && c.times.Keys <= c.superevents.Keys
      && var update := ProcessUpdate(c, inputs[j].event);
      && (update.Created? || update.PreferredUpdated?) && update.superevent.id == id
      && update.superevent.preferredEvent == inputs[j].event
      && (update.Created? <==> forall m :: 0 <= m < j ==> !Promotes(window, inputs, m, id))
      && (forall m: nat :: IsLastPromotion(window, inputs, m, j, id) ==>
            update.PreferredUpdated? && update.previousPreferredGraceid == inputs[m].event.graceid)
  {
    hide Valid, Feed, PromotesAt, Process;
    var c, e := Before(window, inputs, j), inputs[j].event;
    forall m: nat | m < j && Promotes(window, inputs, m, id) ensures IsNamed(c, id) {
      PromotionNamed(window, inputs, m, id);
      NamesStay(window, inputs, m + 1, j, id);
    }
    if IsNamed(c, id) {
      var k :| k in c.times && c.times[k] == id;
      PromotionTakesNamed(c, e, id, k);
      var last := PreferredIsLastPromotion(window, inputs, j, k);
      forall m: nat | IsLastPromotion(window, inputs, m, j, id) ensures m == last {}
    } else {
      PromotionOpensUnnamed(c, e, id);
      forall m: nat | IsLastPromotion(window, inputs, m, j, id) ensures false {}
      OpenedPrefers(c, e);
    }
  }

  lemma OpenedPrefers(c: Snapshot, e: GwEvent)
    requires c.times.Keys <= c.superevents.Keys && ProcessUpdate(c, e).Created?
    ensures ProcessUpdate(c, e).superevent.preferredEvent == e
  {
  }

  // ------------------------------------------- requests of lost events

  /** The request of an event goes out before the save.  When a crash then loses
      the event, the id it named is given to the next window opened exactly if the
      event had opened one; no cleanup is needed. */
  lemma LostIdReturnsIff(json: Json, centroid: Centroid, s: Service, lost: GwEvent, u: Service, next: GwEvent)
    requires Recoverable(json, s) && Faithful(json, s.world.c) && s.world.c.nextSeq < U64_LIMIT
    requires IsTransition(json, centroid, s, Lost(lost), u) && Target(u.world.c, next.endTime).None?
    ensures u.world.c == s.world.c && Valid(u.world.c) && u.world.c.times.Keys == u.world.c.superevents.Keys
    ensures Touched(u.world.c, next).id == Touched(s.world.c, lost).id <==> Target(s.world.c, lost.endTime).None?
  {
    hide Valid, Recoverable, Faithful, Nearest, FormatId, Join, AfterResult, Process;
    TransitionKeepsRecoverable(json, centroid, s, Lost(lost), u);
    RecoverableIsValid(json, s);
    ValidIsIndexed(s.world.c);
    FreshId(s.world.c);
    if Target(s.world.c, lost.endTime).Some? {
      JoinKeepsId(s.world.c.superevents[Target(s.world.c, lost.endTime).value], lost);
    }
  }

  function EmptyService(window: real): Service {
    Service(World(New(window), map[], map[]), Image(map[], map[]))
  }

  // A saved state whose newest superevent is open is what its own image loads to.
  lemma SavedReloads(json: Json, c: Snapshot)
    requires Faithful(json, c) && Valid(c) && c.nextSeq <= U64_LIMIT && (c.nextSeq == 0 || Restart.NewestIsOpen(c))
    ensures c.times.Keys == c.superevents.Keys && IsImageOf(Restart.ImageOf(json, c), c, json)
    ensures ReloadsTo(json, Restart.ImageOf(json, c), c.window, c)
  {
    hide Valid, Faithful, Collect, Reloaded, IsImageOf, Restart.NewestIsOpen;
    Restart.ImageOfIsImage(json, c);
    var img := Restart.ImageOf(json, c);
    var ids := Restart.Listing(img.index, img.index.Keys);
    WindowsRestored(json, c, img, ids);
    var d := Reloaded(c.window, Collect(json, img.open, {}, ids).value);
    assert Restart.Loads(json, img, ids, c.window, d);
    assert ReloadsTo(json, img, c.window, d);
    ReloadIsExact(json, Service(World(c, map[], map[]), img), d);
  }

  // One event, then a usable result addressed to it.
  lemma OneWindowRun(centroid: Centroid, w: World, e: GwEvent, r: LocalizeResult)
    requires w.c.window >= 0.0 && w.c == New(w.c.window)
    requires MapOf(r).Some? && r.supereventId == FormatId(0)
    ensures Valid(w.c) && AfterEvent(w, e).c == Opened(w.c, e) && Valid(AfterEvent(w, e).c)
    ensures
      var d := AfterResult(centroid, AfterEvent(w, e), r).c;
      && d.times == map[e.endTime := FormatId(0)] && d.superevents.Keys == {e.endTime}
      && d.superevents[e.endTime].preferredEvent == e && d.superevents[e.endTime].skymap == MapOf(r)
      && d.nextSeq == 1
  {
    hide Valid, FormatId, FromSuperevent, Patched;
    NewIsValid(w.c.window);
    ProcessKeepsValid(w.c, e);
    var c := Opened(w.c, e);
    assert AfterEvent(w, e).c == c;
    assert c.times == map[e.endTime := FormatId(0)];
    assert c.times[e.endTime] == r.supereventId;
    assert KeyOf(c, r.supereventId) == Some(e.endTime);
  }

  /** The event that outranks the preferred one is lost before its save, and its
      map arrives all the same: it is shown beside the quieter event, although no
      promotion in the surviving run answers for it. */
  lemma LostPromotionRun(json: Json, centroid: Centroid, window: real,
                         quiet: GwEvent, loud: GwEvent, r: LocalizeResult) returns (states: seq<Service>)
    requires window >= 0.0 && quiet.endTime == loud.endTime && quiet.snr < loud.snr
    requires Survives(json, Open(window, FormatId(0), quiet))
    requires MapOf(r).Some? && r.supereventId == FormatId(0) && r.graceid == loud.graceid != quiet.graceid
    ensures
      var ts := [Deliver(quiet, []), Lost(loud), Late(r)];
      && IsServiceRun(json, centroid, states, ts) && FaithfulRun(json, states, ts)
      && states[0] == EmptyService(window) && PromotesAt(states[1].world.c, loud, r.supereventId)
      && var c := states[3].world.c;
      && quiet.endTime in c.superevents
      && c.superevents[quiet.endTime].preferredEvent == quiet && c.superevents[quiet.endTime].skymap == MapOf(r)
  {
    hide Valid, FormatId, Survives, IsTransition, AfterResult, AfterEvent, Opened, Faithful, Restart.ImageOf;
    var s0 := EmptyService(window);
    OneWindowRun(centroid, s0.world, quiet, r);
    var w1 := AfterEvent(s0.world, quiet);
    FirstWindowIsSaved(json, window, quiet);
    DeliverOnly(json, centroid, s0, quiet);
    var s1 := Service(w1, Restart.ImageOf(json, w1.c));
    LouderPromotes(window, quiet, loud);
    LoseOnly(json, centroid, s1, loud);
    var s2 := Service(AfterEvent(w1, loud).(c := w1.c), s1.image);
    LateOnly(json, centroid, s2, r);
    var w3 := AfterResult(centroid, s2.world, r);
    var s3 := Service(w3, Restart.ImageOf(json, w3.c));
    ResultAttaches(centroid, w1, r);
    ResultAttaches(centroid, s2.world, r);
    states := [s0, s1, s2, s3];
  }

  lemma FirstWindowIsSaved(json: Json, window: real, e: GwEvent)
    requires window >= 0.0 && Survives(json, Open(window, FormatId(0), e)) && Valid(Opened(New(window), e))
    ensures
      var c := Opened(New(window), e);
      Faithful(json, c) && c.nextSeq == 1 && Restart.NewestIsOpen(c)
  {
    hide Valid, FormatId, Survives;
    assert Opened(New(window), e).times[e.endTime] == FormatId(0);
  }

  // An event with no results waiting is delivered and saved.
  lemma DeliverOnly(json: Json, centroid: Centroid, s: Service, e: GwEvent)
    requires Valid(s.world.c)
    ensures
      var w := AfterEvent(s.world, e);
      && w.c.times.Keys == w.c.superevents.Keys
      && IsTransition(json, centroid, s, Deliver(e, []), Service(w, Restart.ImageOf(json, w.c)))
  {
    hide Valid, IsImageOf, Process, Touched;
    ValidIsIndexed(s.world.c);
    ProcessKeepsValid(s.world.c, e);
    var w := AfterEvent(s.world, e);
    Restart.ImageOfIsImage(json, w.c);
    NothingToDrain(centroid, w);
  }

  // An event is lost by a service whose image is current.
  lemma LoseOnly(json: Json, centroid: Centroid, s: Service, e: GwEvent)
    requires Valid(s.world.c) && Faithful(json, s.world.c) && s.world.c.nextSeq <= U64_LIMIT
    requires s.world.c.nextSeq == 0 || Restart.NewestIsOpen(s.world.c)
    requires s.world.c.times.Keys == s.world.c.superevents.Keys && s.image == Restart.ImageOf(json, s.world.c)
    ensures IsTransition(json, centroid, s, Lost(e), Service(AfterEvent(s.world, e).(c := s.world.c), s.image))
  {
    hide Valid, ReloadsTo, Restart.ImageOf, Restart.NewestIsOpen, Faithful, Process, Touched;
    SavedReloads(json, s.world.c);
  }

  lemma LateOnly(json: Json, centroid: Centroid, s: Service, r: LocalizeResult)
    requires Valid(s.world.c)
    ensures
      var w := AfterResult(centroid, s.world, r);
      && w.c.times.Keys == w.c.superevents.Keys
      && IsTransition(json, centroid, s, Late(r), Service(w, Restart.ImageOf(json, w.c)))
  {
    hide Valid, IsImageOf, AfterResult;
    AfterResultIsValid(centroid, s.world, r);
    Restart.ImageOfIsImage(json, AfterResult(centroid, s.world, r).c);
  }

  lemma LouderPromotes(window: real, quiet: GwEvent, loud: GwEvent)
    requires window >= 0.0 && quiet.endTime == loud.endTime && quiet.snr < loud.snr
    requires Valid(Opened(New(window), quiet))
    ensures PromotesAt(Opened(New(window), quiet), loud, FormatId(0))
  {
    hide Valid, FormatId;
    var c, t := Opened(New(window), quiet), quiet.endTime;
    ValidIsIndexed(c);
    assert Dist(t, t) == 0.0;
    assert IsNearest(c.times.Keys, window / 2.0, t, t);
    NearestIsUnique(c.times.Keys, window / 2.0, t, t);
  }

  /** An event that opened the first window is lost, the next event opens another
      window under the same id, and the lost event's map lands on it. */
  lemma LostOpeningRun(json: Json, centroid: Centroid, window: real,
                       lost: GwEvent, next: GwEvent, r: LocalizeResult) returns (states: seq<Service>)
    requires window >= 0.0
    requires MapOf(r).Some? && r.supereventId == FormatId(0) && r.graceid == lost.graceid != next.graceid
    ensures
      var ts := [Lost(lost), Deliver(next, [r])];
      && IsServiceRun(json, centroid, states, ts) && FaithfulRun(json, states, ts)
      && states[0] == EmptyService(window) && PromotesAt(states[0].world.c, lost, r.supereventId)
      && var c := states[2].world.c;
      && next.endTime in c.superevents
      && c.superevents[next.endTime].preferredEvent == next && c.superevents[next.endTime].skymap == MapOf(r)
  {
    hide Valid, FormatId, IsTransition, AfterResult, AfterEvent, Opened, Restart.ImageOf, PromotesAt;
    var s0 := EmptyService(window);
    LoseFirst(json, centroid, window, lost);
    var s1 := Service(AfterEvent(s0.world, lost).(c := New(window)), s0.image);
    OneWindowRun(centroid, s1.world, next, r);
    DeliverAnswered(json, centroid, s1, next, r);
    var w2 := AfterResult(centroid, AfterEvent(s1.world, next), r);
    states := [s0, s1, Service(w2, Restart.ImageOf(json, w2.c))];
  }

  lemma LoseFirst(json: Json, centroid: Centroid, window: real, e: GwEvent)
    requires window >= 0.0
    ensures
      var s := EmptyService(window);
      && Valid(New(window)) && PromotesAt(New(window), e, FormatId(0)) && Faithful(json, New(window))
      && IsTransition(json, centroid, s, Lost(e), Service(AfterEvent(s.world, e).(c := New(window)), s.image))
  {
    hide Valid, FormatId, ReloadsTo, Process, Touched;
    NewIsValid(window);
    EmptyReloads(json, window);
  }

  // An event is delivered with one result waiting, and saved.
  lemma DeliverAnswered(json: Json, centroid: Centroid, s: Service, e: GwEvent, r: LocalizeResult)
    requires Valid(s.world.c)
    ensures
      && Valid(AfterEvent(s.world, e).c)
      && var w := AfterResult(centroid, AfterEvent(s.world, e), r);
      && w.c.times.Keys == w.c.superevents.Keys
      && IsTransition(json, centroid, s, Deliver(e, [r]), Service(w, Restart.ImageOf(json, w.c)))
  {
    hide Valid, IsImageOf, AfterResult, Process, Touched;
    ValidIsIndexed(s.world.c);
    ProcessKeepsValid(s.world.c, e);
    var w := AfterEvent(s.world, e);
    NothingToDrain(centroid, w);
    OneMoreResult(centroid, w, [], r);
    assert [] + [r] == [r];
    AfterResultIsValid(centroid, w, r);
    Restart.ImageOfIsImage(json, AfterResult(centroid, w, r).c);
  }

  lemma EmptyReloads(json: Json, window: real)
    ensures ReloadsTo(json, Image(map[], map[]), window, New(window))
  {
    var none: seq<string> := [];
    assert Collect(json, map[], {}, none) == Result.Ok([]);
    assert Reloaded(window, []) == New(window);
    assert IsRange(map[], none) && Restart.Loads(json, Image(map[], map[]), none, window, New(window));
  }

  // -------------------------------------- the pipeline's own runs are such runs

  function Results(rs: seq<LocalizeResult>): (inputs: seq<Input>)
    ensures |inputs| == |rs|
  {
    seq(|rs|, i requires 0 <= i < |rs| => Result(rs[i]))
  }

  // What the clusterer is fed by the transitions of a service.
  function InputsOf(ts: seq<Transition>): seq<Input> {
    if ts == [] then [] else InputsOf(ts[..|ts| - 1]) + InputsAt(ts[|ts| - 1])
  }

  // A crash takes back what was not saved.
  function InputsAt(t: Transition): seq<Input> {
    match t
    case Deliver(e, rs) => [Event(e)] + Results(rs)
    case Late(r) => [Result(r)]
    case Reload => []
    case Lost(_) => []
    case Torn(e, _) => if e.Some? then [Event(e.value)] else []
  }

  lemma {:induction false} FeedConcat(c: Snapshot, p: seq<Input>, q: seq<Input>)
    requires Valid(c)
    ensures FeedAll(c, p + q) == FeedAll(FeedAll(c, p), q)
  {
    hide Valid, Feed;
    if q == [] {
      assert p + q == p;
    } else {
      FeedConcat(c, p, q[..|q| - 1]);
      assert (p + q)[..|p + q| - 1] == p + q[..|q| - 1];
    }
  }

  lemma FeedOne(c: Snapshot, input: Input)
    requires Valid(c)
    ensures FeedAll(c, [input]) == Feed(c, input)
  {
    hide Valid, Feed;
    assert [input][..0] == [];
    assert FeedAll(c, []) == c;
  }

  lemma {:induction false} ResultsFeed(c: Snapshot, rs: seq<LocalizeResult>)
    requires Valid(c)
    ensures AttachResults(c, rs) == FeedAll(c, Results(rs))
  {
    hide Valid;
    if rs == [] {
    } else {
      ResultsFeed(c, rs[..|rs| - 1]);
      assert Results(rs)[..|rs| - 1] == Results(rs[..|rs| - 1]);
    }
  }

  /** The clusterer after any run of the service, crashes included, is the one fed
      with the events and results that survived, in order; so the lemmas above
      speak of every such run. */
  lemma {:induction false} ServiceRunFeeds(json: Json, centroid: Centroid, window: real,
                                           states: seq<Service>, ts: seq<Transition>)
    requires window >= 0.0 && |ts| <= U64_LIMIT
    requires IsServiceRun(json, centroid, states, ts) && FaithfulRun(json, states, ts)
    requires states[0] == Service(World(New(window), map[], map[]), Image(map[], map[]))
    ensures states[|ts|].world.c == Before(window, InputsOf(ts), |InputsOf(ts)|)
  {
    hide Valid, Recoverable, FaithfulAt, Feed, AfterResult;
    NewIsValid(window);
    assert InputsOf(ts)[..|InputsOf(ts)|] == InputsOf(ts);
    if ts == [] {
    } else {
      var n := |ts| - 1;
      var init := InputsOf(ts[..n]);
      ServiceRunFeeds(json, centroid, window, states[..n + 1], ts[..n]);
      assert init[..|init|] == init;
      ImageAgreesWithMemory(json, centroid, window, states[..n + 1], ts[..n]);
      TransitionFeeds(json, centroid, states[n], ts[n], states[n + 1]);
      FeedConcat(New(window), init, InputsAt(ts[n]));
    }
  }

  lemma TransitionFeeds(json: Json, centroid: Centroid, s: Service, t: Transition, u: Service)
    requires Recoverable(json, s) && s.world.c.nextSeq < U64_LIMIT && Valid(s.world.c)
    requires FaithfulAt(json, s, t) && IsTransition(json, centroid, s, t, u)
    ensures u.world.c == FeedAll(s.world.c, InputsAt(t))
  {
    hide Valid, Recoverable, Faithful, AfterResult, AttachResult, AttachResults, IsImageOf, ReloadsTo;
    var c := s.world.c;
    TransitionKeepsRecoverable(json, centroid, s, t, u);
    match t
    case Deliver(e, rs) =>
      FeedConcat(c, [Event(e)], Results(rs));
      FeedOne(c, Event(e));
      EventFeeds(s.world, e);
      ResultsFeed(AfterEvent(s.world, e).c, rs);
      ResultsAttach(centroid, AfterEvent(s.world, e), rs);
    case Late(r) =>
      FeedOne(c, Result(r));
      ResultAttaches(centroid, s.world, r);
    case Reload =>
    case Lost(_) =>
    case Torn(e, _) =>
      if e.Some? {
        FeedOne(c, Event(e.value));
        EventFeeds(s.world, e.value);
      }
  }

  lemma EventFeeds(w: World, e: GwEvent)
    requires Valid(w.c)
    ensures AfterEvent(w, e).c == Feed(w.c, Event(e))
  {
    hide Valid, Process;
  }
}
