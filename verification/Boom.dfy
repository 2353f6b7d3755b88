/** The turn-on bracket of an optical transient (src/boom.rs). */
module Boom {
  import opened Wrappers
  import opened Sorting

  datatype Photometry = Photometry(start: Option<string>, mag: Option<real>, limitingMag: Option<real>)

  // The timestamp reader; None for text it refuses.
  type Clock = string -> Option<real>

  function Time(clock: Clock, row: Photometry): Option<real> {
    if row.start.None? then None else clock(row.start.value)
  }

  // A measured magnitude, whatever the limit.
  predicate IsDetection(clock: Clock, row: Photometry, t: real) {
    Time(clock, row) == Some(t) && row.mag.Some?
  }

  // Only an upper limit.
  predicate IsLimit(clock: Clock, row: Photometry, t: real) {
    Time(clock, row) == Some(t) && row.mag.None? && row.limitingMag.Some?
  }

  ghost predicate Detected(clock: Clock, rows: seq<Photometry>, t: real) {
    exists row :: row in rows && IsDetection(clock, row, t)
  }

  ghost predicate Limited(clock: Clock, rows: seq<Photometry>, t: real) {
    exists row :: row in rows && IsLimit(clock, row, t)
  }

  // The least detection, and the greatest upper limit strictly before it.
  ghost predicate IsBracket(clock: Clock, rows: seq<Photometry>, first: Option<real>, last: Option<real>) {
    && (first.None? <==> forall t :: !Detected(clock, rows, t))
    && (first.Some? ==> Detected(clock, rows, first.value) && forall t :: Detected(clock, rows, t) ==> first.value <= t)
    && (last.None? <==> first.None? || forall t :: Limited(clock, rows, t) ==> first.value <= t)
    && (last.Some? ==>
          && first.Some? && Limited(clock, rows, last.value) && last.value < first.value
          && forall t :: Limited(clock, rows, t) && t < first.value ==> t <= last.value)
  }

  function AsKey(t: real): Key {
    Finite(t)
  }

  lemma OneMoreRow(clock: Clock, rows: seq<Photometry>, i: nat, t: real)
    requires i < |rows|
    ensures Detected(clock, rows[..i + 1], t) <==> Detected(clock, rows[..i], t) || IsDetection(clock, rows[i], t)
    ensures Limited(clock, rows[..i + 1], t) <==> Limited(clock, rows[..i], t) || IsLimit(clock, rows[i], t)
  {
    hide IsDetection, IsLimit;
    assert rows[..i + 1] == rows[..i] + [rows[i]];
    assert rows[i] in rows[..i + 1];
  }

  // The two lists hold the dated detections and upper limits of the rows.
  ghost predicate Classified(clock: Clock, rows: seq<Photometry>, detections: seq<real>, limits: seq<real>) {
    && (forall t :: t in detections <==> Detected(clock, rows, t))
    && (forall t :: t in limits <==> Limited(clock, rows, t))
  }

  lemma ClassifiedStart(clock: Clock)
    ensures Classified(clock, [], [], [])
  {
  }

  // What one row adds to each list.
  lemma ClassifiedStep(clock: Clock, rows: seq<Photometry>, i: nat,
                       detections: seq<real>, limits: seq<real>, newDetections: seq<real>, newLimits: seq<real>)
    requires i < |rows| && Classified(clock, rows[..i], detections, limits)
    requires |newDetections| <= 1 && |newLimits| <= 1
    requires forall t :: t in newDetections <==> IsDetection(clock, rows[i], t)
    requires forall t :: t in newLimits <==> IsLimit(clock, rows[i], t)
    ensures Classified(clock, rows[..i + 1], detections + newDetections, limits + newLimits)
  {
    hide Detected, Limited, IsDetection, IsLimit;
    forall t
      ensures t in detections + newDetections <==> Detected(clock, rows[..i + 1], t)
      ensures t in limits + newLimits <==> Limited(clock, rows[..i + 1], t)
    {
      OneMoreRow(clock, rows, i, t);
    }
  }

  // The first loop: rows without a readable timestamp are skipped.
  method Classify(clock: Clock, rows: seq<Photometry>) returns (detections: seq<real>, limits: seq<real>)
    ensures Classified(clock, rows, detections, limits)
  {
    hide Classified;
    detections, limits := [], [];
    ClassifiedStart(clock);
    assert rows[..0] == [];
    for i := 0 to |rows|
      invariant Classified(clock, rows[..i], detections, limits)
    {
      var time := Time(clock, rows[i]);
      var newDetections, newLimits := [], [];
      if time.Some? {
        if rows[i].mag.Some? {
          newDetections := [time.value];
        } else if rows[i].limitingMag.Some? {
          newLimits := [time.value];
        }
      }
      ClassifiedStep(clock, rows, i, detections, limits, newDetections, newLimits);
      detections, limits := detections + newDetections, limits + newLimits;
    }
    assert rows[..|rows|] == rows;
  }

  // The second loop: the greatest upper limit before the first detection.
  method LatestBefore(limits: seq<real>, first: real) returns (last: Option<real>)
    ensures last.None? ==> forall t :: t in limits ==> first <= t
    ensures last.Some? ==> last.value in limits && last.value < first
    ensures last.Some? ==> forall t :: t in limits && t < first ==> t <= last.value
  {
    last := None;
    for i := 0 to |limits|
      invariant last.None? ==> forall k :: 0 <= k < i ==> limits[k] >= first
      invariant last.Some? ==> last.value in limits && last.value < first
      invariant last.Some? ==> forall k :: 0 <= k < i && limits[k] < first ==> limits[k] <= last.value
    {
      if limits[i] < first && (last.None? || last.value < limits[i]) {
        last := Some(limits[i]);
      }
    }
  }

  // `detection_bracket`.
  method DetectionBracket(clock: Clock, rows: seq<Photometry>) returns (first: Option<real>, last: Option<real>)
    ensures IsBracket(clock, rows, first, last)
  {
    hide Detected, Limited;
    var detections, limits := Classify(clock, rows);
    var sorted := SortBy(AsKey, detections);
    SortedFirst(detections);
    if |sorted| == 0 {
      return None, None;
    }
    last := LatestBefore(limits, sorted[0]);
    first := Some(sorted[0]);
  }

  lemma SortedFirst(times: seq<real>)
    ensures
      var sorted := SortBy(AsKey, times);
      && |sorted| == |times|
      && (times != [] ==> sorted[0] in times && forall t :: t in times ==> sorted[0] <= t)
  {
    var sorted := SortBy(AsKey, times);
    SortIsSorted(AsKey, times);
    forall t: real ensures t in sorted <==> t in times {
      assert t in multiset(sorted) <==> t in multiset(times);
    }
    if times != [] {
      assert forall i :: 0 <= i < |sorted| ==> AtMost(AsKey(sorted[0]), AsKey(sorted[i]));
    }
  }

  /** The bracket is a function of the rows as a multiset: reordering them changes
      neither end. */
  lemma BracketIgnoresOrder(clock: Clock, rows1: seq<Photometry>, rows2: seq<Photometry>,
                            first1: Option<real>, last1: Option<real>, first2: Option<real>, last2: Option<real>)
    requires multiset(rows1) == multiset(rows2)
    requires IsBracket(clock, rows1, first1, last1) && IsBracket(clock, rows2, first2, last2)
    ensures first1 == first2 && last1 == last2
  {
    hide IsDetection, IsLimit;
    forall row: Photometry ensures row in rows1 <==> row in rows2 {
      assert row in multiset(rows1) <==> row in multiset(rows2);
    }
    SameTimes(clock, rows1, rows2);
    BracketIsUnique(clock, rows1, rows2, first1, last1, first2, last2);
  }

  lemma SameTimes(clock: Clock, rows1: seq<Photometry>, rows2: seq<Photometry>)
    requires forall row :: row in rows1 <==> row in rows2
    ensures forall t :: Detected(clock, rows1, t) <==> Detected(clock, rows2, t)
    ensures forall t :: Limited(clock, rows1, t) <==> Limited(clock, rows2, t)
  {
    hide IsDetection, IsLimit;
  }

  lemma BracketIsUnique(clock: Clock, rows1: seq<Photometry>, rows2: seq<Photometry>,
                        first1: Option<real>, last1: Option<real>, first2: Option<real>, last2: Option<real>)
    requires forall t :: Detected(clock, rows1, t) <==> Detected(clock, rows2, t)
    requires forall t :: Limited(clock, rows1, t) <==> Limited(clock, rows2, t)
    requires IsBracket(clock, rows1, first1, last1) && IsBracket(clock, rows2, first2, last2)
    ensures first1 == first2 && last1 == last2
  {
    hide Detected, Limited;
  }

  // The rescan's query: a missing end never matches.
  predicate RescanAdmits(first: Option<real>, last: Option<real>, t0: real) {
    first.Some? && t0 <= first.value && last.Some? && last.value <= t0
  }

  /** A rescan admits a transient exactly when it was detected, never before t_0,
      had an upper limit at or before t_0 that precedes every detection, and has
      no upper limit after t_0 that does. */
  lemma AdmittedIff(clock: Clock, rows: seq<Photometry>, first: Option<real>, last: Option<real>, t0: real)
    requires IsBracket(clock, rows, first, last)
    ensures RescanAdmits(first, last, t0) <==>
            && (exists d :: Detected(clock, rows, d))
            && (forall d :: Detected(clock, rows, d) ==> t0 <= d)
            && (exists l :: PrecedesDetections(clock, rows, l) && l <= t0)
            && (forall l :: PrecedesDetections(clock, rows, l) ==> l <= t0)
  {
    hide Detected, Limited;
    if first.Some? {
      forall l ensures PrecedesDetections(clock, rows, l) <==> Limited(clock, rows, l) && l < first.value {
      }
    }
    if last.Some? { assert PrecedesDetections(clock, rows, last.value); }
  }

  ghost predicate PrecedesDetections(clock: Clock, rows: seq<Photometry>, l: real) {
    Limited(clock, rows, l) && forall d :: Detected(clock, rows, d) ==> l < d
  }

  /** The instant of turn-on lies in an empty gap: no dated detection or upper
      limit falls strictly inside an admitted bracket. */
  lemma NothingInsideBracket(clock: Clock, rows: seq<Photometry>, first: real, last: real, t: real)
    requires IsBracket(clock, rows, Some(first), Some(last)) && last < t < first
    ensures !Detected(clock, rows, t) && !Limited(clock, rows, t)
  {
    hide Detected, Limited;
    if Detected(clock, rows, t) { assert false; }
    if Limited(clock, rows, t) { assert false; }
  }

  /** Every dated row that says anything is of one kind: a measured magnitude makes it
      a detection, with or without a limit beside it; only a limit makes it a limit. */
  lemma DatedRowIsOneKind(clock: Clock, row: Photometry, t: real)
    requires row.start.Some? && clock(row.start.value) == Some(t)
    ensures IsDetection(clock, row, t) <==> row.mag.Some?
    ensures IsLimit(clock, row, t) <==> row.mag.None? && row.limitingMag.Some?
    ensures IsDetection(clock, row, t) || IsLimit(clock, row, t) <==> row.mag.Some? || row.limitingMag.Some?
    ensures forall u :: u != t ==> !IsDetection(clock, row, u) && !IsLimit(clock, row, u)
  {
  }

  // Undated rows and rows with an unreadable date are of neither.
  lemma UndatedRowIsNone(clock: Clock, row: Photometry, t: real)
    requires row.start.None? || clock(row.start.value).None?
    ensures !IsDetection(clock, row, t) && !IsLimit(clock, row, t)
  {
  }

  /** Limits at 1 and 5, detections at 2 and 3, the first with a limit beside its
      magnitude: the turn-on lies between 1 and 2. */
  lemma BracketOfFive(clock: Clock, a: string, b: string, c: string, d: string, m: real)
    requires clock(a) == Some(1.0) && clock(b) == Some(2.0) && clock(c) == Some(3.0) && clock(d) == Some(5.0)
    ensures
      var rows := [
        Photometry(Some(c), Some(m), None), Photometry(Some(a), None, Some(m)), Photometry(None, Some(m), None),
        Photometry(Some(b), Some(m), Some(m)), Photometry(Some(d), None, Some(m)) ];
      IsBracket(clock, rows, Some(2.0), Some(1.0))
  {
    var rows := [
      Photometry(Some(c), Some(m), None), Photometry(Some(a), None, Some(m)), Photometry(None, Some(m), None),
      Photometry(Some(b), Some(m), Some(m)), Photometry(Some(d), None, Some(m)) ];
    assert rows[3] in rows && IsDetection(clock, rows[3], 2.0);
    assert rows[1] in rows && IsLimit(clock, rows[1], 1.0);
    forall t ensures Detected(clock, rows, t) <==> t == 2.0 || t == 3.0 {
      assert rows[0] in rows && IsDetection(clock, rows[0], 3.0);
    }
    forall t ensures Limited(clock, rows, t) <==> t == 1.0 || t == 5.0 {
      assert rows[4] in rows && IsLimit(clock, rows[4], 5.0);
    }
    assert Detected(clock, rows, 2.0) && Limited(clock, rows, 1.0);
  }
}
