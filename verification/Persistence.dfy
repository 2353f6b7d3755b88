/** Saving the open windows to Redis and rebuilding the clusterer from them.
    The id counter is not stored: it is recovered from the ids. */
module Persistence {
  import opened Wrappers
  import opened Decimal
  import opened ByteStrings
  import opened OrderedTimes
  import opened Clustering
  import opened ClusteringRuns
  import opened Creator

  // The JSON encoder and decoder; all that is used of them is Faithful.
  datatype Json = Json(encode: Superevent -> Bytes, decode: Bytes -> Option<Superevent>)

  // Every superevent this state would store decodes to itself.
  ghost predicate Faithful(json: Json, c: Snapshot) {
    forall k :: k in c.superevents ==> Survives(json, c.superevents[k])
  }

  ghost predicate Survives(json: Json, s: Superevent) {
    json.decode(json.encode(s)) == Some(s)
  }

  // First position of a superevent in a list, or the length of the list.
  function Position(list: seq<Superevent>, s: Superevent): (n: nat)
    ensures n <= |list| && (n < |list| ==> list[n] == s)
    ensures n < |list| <==> s in list
  {
    if list == [] then 0 else if list[0] == s then 0 else 1 + Position(list[1..], s)
  }

  function Count(list: seq<Superevent>, s: Superevent): Bytes {
    Repeat(0, Position(list, s))
  }

  function Recall(list: seq<Superevent>, b: Bytes): Option<Superevent> {
    if |b| < |list| then Some(list[|b|]) else None
  }

  /** The law is no empty demand: for any finitely many superevents, so for all
      the states of any run, some encoder into bytes meets it. */
  lemma SomeEncoderIsFaithful(list: seq<Superevent>) returns (json: Json)
    ensures forall c: Snapshot :: (forall k :: k in c.superevents ==> c.superevents[k] in list) ==> Faithful(json, c)
  {
    json := Json(s => Count(list, s), b => Recall(list, b));
    forall s: Superevent | s in list ensures Survives(json, s) {}
  }

  datatype StateError = MalformedPayload(id: string) | ReadFailed(id: string)

  // The hash of payloads and the sorted set of centres, both keyed by id.
  datatype Image = Image(open: map<string, Bytes>, index: map<string, real>)

  ghost predicate IsImageOf(img: Image, c: Snapshot, json: Json) {
    && (forall k :: k in c.times ==> c.times[k] in img.index && img.index[c.times[k]] == k)
    && OnlyEntries(img, c, json)
  }

  // Nothing is stored that is not open.
  ghost predicate OnlyEntries(img: Image, c: Snapshot, json: Json) {
    && (forall id :: id in img.index ==> IsEntry(img, c, json, id))
    && (forall id :: id in img.open ==> id in img.index)
  }

  // The stored entry of one open window.
  ghost predicate IsEntry(img: Image, c: Snapshot, json: Json, id: string)
    requires id in img.index
  {
    var k := img.index[id];
    k in c.times && k in c.superevents && c.times[k] == id && id in img.open
        && img.open[id] == json.encode(c.superevents[k])
  }

  lemma EntryAdded(img: Image, c: Snapshot, json: Json, k: real)
    requires OnlyEntries(img, c, json) && k in c.times && k in c.superevents
    requires c.superevents[k].id == c.times[k] && c.superevents[k].t0 == k
    ensures
      var s := c.superevents[k];
      OnlyEntries(Image(img.open[s.id := json.encode(s)], img.index[s.id := s.t0]), c, json)
  {
    var s := c.superevents[k];
    var next := Image(img.open[s.id := json.encode(s)], img.index[s.id := s.t0]);
    forall id | id in next.index
      ensures IsEntry(next, c, json, id)
    {
      if id != s.id { assert IsEntry(img, c, json, id); }
    }
  }

  // A listing of the sorted set, lowest score first.
  ghost predicate IsRange(index: map<string, real>, ids: seq<string>) {
    && (forall id :: id in ids <==> id in index)
    && (forall i :: 0 <= i < |ids| ==> ids[i] in index)
    && (forall i, j :: 0 <= i < j < |ids| ==> ids[i] != ids[j] && index[ids[i]] <= index[ids[j]])
  }

  // ------------------------------------------------ what loading computes

  // What one id contributes: its superevent, nothing when no payload is stored.
  function Payload(json: Json, open: map<string, Bytes>, unread: set<string>, id: string)
    : Result<seq<Superevent>, StateError>
  {
    if id in unread then Err(ReadFailed(id))
    else if id !in open then Ok([])
    else
      match json.decode(open[id])
      case Some(s) => Ok([s])
      case None => Err(MalformedPayload(id))
  }

  // The payloads in index order; `unread` are the ids whose payload read fails.
  function Collect(json: Json, open: map<string, Bytes>, unread: set<string>, ids: seq<string>)
    : Result<seq<Superevent>, StateError>
  {
    if ids == [] then Ok([])
    else
      var init :- Collect(json, open, unread, ids[..|ids| - 1]);
      var last :- Payload(json, open, unread, ids[|ids| - 1]);
      Ok(init + last)
  }

  function MaxNumber(ids: seq<string>): Option<nat> {
    if ids == [] then None
    else
      var init := MaxNumber(ids[..|ids| - 1]);
      match IdNumber(ids[|ids| - 1])
      case None => init
      case Some(n) => if init.None? || init.value < n then Some(n) else init
  }

  function NextSeqFrom(ids: seq<string>): nat {
    match MaxNumber(ids)
    case Some(n) => n + 1
    case None => |ids|
  }

  function IdsOf(list: seq<Superevent>): (ids: seq<string>)
    ensures |ids| == |list|
  {
    seq(|list|, i requires 0 <= i < |list| => list[i].id)
  }

  function Reloaded(window: real, list: seq<Superevent>): Snapshot {
    InsertAll(New(window), list).(nextSeq := NextSeqFrom(IdsOf(list)))
  }

  // ------------------------------------------------------------ the store

  class RedisStore {
    var open: map<string, Bytes>
    var index: map<string, real>

    ghost function Contents(): Image
      reads this
    {
      Image(open, index)
    }

    constructor ()
      ensures Contents() == Image(map[], map[])
    {
      open, index := map[], map[];
    }

    // One atomic transaction: drop both keys, then refill them.
    method Save(json: Json, creator: SupereventCreator)
      requires creator.Valid()
      modifies this
      ensures IsImageOf(Contents(), creator.State(), json)
    {
      hide Clustering.Valid, IsEntry;
      ghost var c := creator.State();
      ValidIsIndexed(c);
      open, index := map[], map[];
      var keys := Ascending(creator.superevents.Keys);
      for i := 0 to |keys|
        invariant OnlyEntries(Contents(), c, json)
        invariant forall j :: 0 <= j < i ==> c.times[keys[j]] in index && index[c.times[keys[j]]] == keys[j]
      {
        var s := creator.superevents[keys[i]];
        EntryAdded(Contents(), c, json, keys[i]);
        open := open[s.id := json.encode(s)];
        index := index[s.id := s.t0];
      }
      forall k | k in c.times
        ensures c.times[k] in index && index[c.times[k]] == k
      {
        assert k in keys;
      }
    }

    method Range() returns (ids: seq<string>)
      ensures IsRange(index, ids)
    {
      ids := [];
      var rest := index.Keys;
      while rest != {}
        invariant rest <= index.Keys
        invariant forall id :: id in ids <==> id in index && id !in rest
        invariant forall i :: 0 <= i < |ids| ==> ids[i] in index
        invariant forall i, id :: 0 <= i < |ids| && id in rest ==> index[ids[i]] <= index[id]
        invariant forall i, j :: 0 <= i < j < |ids| ==> ids[i] != ids[j] && index[ids[i]] <= index[ids[j]]
        decreases |rest|
      {
        var m := Lowest(rest);
        ids := ids + [m];
        rest := rest - {m};
      }
    }

    method Lowest(ids: set<string>) returns (m: string)
      requires ids != {} && ids <= index.Keys
      ensures m in ids && forall id :: id in ids ==> index[m] <= index[id]
    {
      ghost var some := Member(ids);
      m :| m in ids;
      var rest := ids - {m};
      while rest != {}
        invariant m in ids && rest <= ids
        invariant forall id :: id in ids && id !in rest ==> index[m] <= index[id]
        decreases |rest|
      {
        some := Member(rest);
        var id :| id in rest;
        if index[id] < index[m] { m := id; }
        rest := rest - {id};
      }
    }

    // `load_from_redis`: a failed index read counts as an empty index, entries
    // without a payload are skipped, a failed or malformed payload stops.
    method Load(json: Json, window: Option<real>, indexOk: bool, unread: set<string>)
      returns (r: Result<SupereventCreator, StateError>, ghost ids: seq<string>)
      ensures if indexOk then IsRange(index, ids) else ids == []
      ensures
        var width := if window.Some? then window.value else 5.0;
        match Collect(json, open, unread, ids)
        case Err(e) => r == Err(e)
        case Ok(list) => r.Ok? && fresh(r.value) && r.value.State() == Reloaded(width, list)
    {
      hide Collect, InsertAll, IsRange, NextSeqFrom;
      var listing: seq<string> := [];
      if indexOk { listing := Range(); }
      ids := listing;
      var superevents := ReadPayloads(json, listing, unread);
      if superevents.Err? { return Err(superevents.error), ids; }
      var next := NextSeqFromIds(superevents.value);
      var width := if window.Some? then window.value else DEFAULT_WINDOW;
      var creator := new SupereventCreator.FromPersisted(width, superevents.value, next);
      r := Ok(creator);
    }

    method ReadPayloads(json: Json, ids: seq<string>, unread: set<string>)
        returns (r: Result<seq<Superevent>, StateError>)
      ensures r == Collect(json, open, unread, ids)
    {
      hide Collect;
      var superevents: seq<Superevent> := [];
      CollectNone(json, open, unread, ids);
      for i := 0 to |ids|
        invariant Collect(json, open, unread, ids[..i]) == Ok(superevents)
      {
        CollectOneMore(json, open, unread, ids, i);
        assert superevents + [] == superevents;
        if ids[i] in unread {
          CollectStops(json, open, unread, ids, i + 1);
          return Err(ReadFailed(ids[i]));
        }
        if ids[i] in open {
          match json.decode(open[ids[i]])
          case Some(s) => superevents := superevents + [s];
          case None =>
            CollectStops(json, open, unread, ids, i + 1);
            return Err(MalformedPayload(ids[i]));
        }
      }
      assert ids[..|ids|] == ids;
      r := Ok(superevents);
    }
  }

  lemma CollectOneMore(json: Json, open: map<string, Bytes>, unread: set<string>, ids: seq<string>, i: nat)
    requires i < |ids| && Collect(json, open, unread, ids[..i]).Ok?
    ensures
      var sofar, last := Collect(json, open, unread, ids[..i]).value, Payload(json, open, unread, ids[i]);
      Collect(json, open, unread, ids[..i + 1]) == if last.Ok? then Ok(sofar + last.value) else last
  {
    assert ids[..i + 1][..i] == ids[..i];
  }

  lemma CollectNone(json: Json, open: map<string, Bytes>, unread: set<string>, ids: seq<string>)
    ensures Collect(json, open, unread, ids[..0]) == Ok([])
  {
  }

  const DEFAULT_WINDOW: real := 5.0

  method NextSeqFromIds(superevents: seq<Superevent>) returns (next: nat)
    ensures next == NextSeqFrom(IdsOf(superevents))
  {
    hide IdNumber;
    ghost var ids := IdsOf(superevents);
    var maxSeq: Option<nat> := None;
    var count := 0;
    for i := 0 to |superevents|
      invariant maxSeq == MaxNumber(ids[..i]) && count == i
    {
      assert ids[..i + 1][..i] == ids[..i];
      count := count + 1;
      var n := IdNumber(superevents[i].id);
      if n.Some? && (maxSeq.None? || maxSeq.value < n.value) { maxSeq := n; }
    }
    assert ids[..|superevents|] == ids;
    next := if maxSeq.Some? then maxSeq.value + 1 else count;
  }

  // The first payload that fails decides the outcome.
  lemma {:induction false} CollectStops(json: Json, open: map<string, Bytes>, unread: set<string>, ids: seq<string>,
      n: nat)
    requires n <= |ids| && Collect(json, open, unread, ids[..n]).Err?
    ensures Collect(json, open, unread, ids) == Collect(json, open, unread, ids[..n])
    decreases |ids|
  {
    if n == |ids| {
      assert ids[..n] == ids;
    } else {
      assert ids[..|ids| - 1][..n] == ids[..n];
      CollectStops(json, open, unread, ids[..|ids| - 1], n);
    }
  }

  // -------------------------------------------------- restart correctness

  // The id is the stored name of a window whose payload decodes to itself.
  ghost predicate IsGoodEntry(img: Image, c: Snapshot, json: Json, id: string) {
    id in img.index && IsEntry(img, c, json, id) && Survives(json, c.superevents[img.index[id]])
  }

  lemma {:induction false} CollectAll(json: Json, c: Snapshot, img: Image, ids: seq<string>)
    requires forall i :: 0 <= i < |ids| ==> IsGoodEntry(img, c, json, ids[i])
    ensures Collect(json, img.open, {}, ids).Ok?
    ensures
      var list := Collect(json, img.open, {}, ids).value;
      && |list| == |ids|
      && forall i :: 0 <= i < |ids| ==> IsGoodEntry(img, c, json, ids[i]) && list[i] == c.superevents[img.index[ids[i]]]
  {
    hide IsGoodEntry;
    if ids == [] {
    } else {
      var init, id := ids[..|ids| - 1], ids[|ids| - 1];
      assert forall i :: 0 <= i < |init| ==> init[i] == ids[i];
      CollectAll(json, c, img, init);
      GoodEntryDecodes(json, c, img, id);
    }
  }

  lemma GoodEntryDecodes(json: Json, c: Snapshot, img: Image, id: string)
    requires IsGoodEntry(img, c, json, id)
    ensures id in img.index && img.index[id] in c.superevents && id in img.open
    ensures json.decode(img.open[id]) == Some(c.superevents[img.index[id]])
  {
  }

  // The state holds s under its own centre and id.
  predicate Filed(c: Snapshot, s: Superevent) {
    && s.t0 in c.superevents && c.superevents[s.t0] == s
    && s.t0 in c.times && c.times[s.t0] == s.id
  }

  predicate HasCentre(list: seq<Superevent>, k: real) {
    exists i :: 0 <= i < |list| && list[i].t0 == k
  }

  predicate DistinctCentres(list: seq<Superevent>) {
    forall i, j :: 0 <= i < j < |list| ==> list[i].t0 != list[j].t0
  }

  lemma {:induction false} InsertAllFiles(c: Snapshot, list: seq<Superevent>)
    requires c.superevents == map[] && c.times == map[] && DistinctCentres(list)
    ensures
      var d := InsertAll(c, list);
      && d.window == c.window && d.times.Keys == d.superevents.Keys
      && (forall k :: k in d.times ==> HasCentre(list, k))
      && (forall i :: 0 <= i < |list| ==> Filed(d, list[i]))
  {
    hide HasCentre, Filed;
    if list == [] {
    } else {
      var init, s := list[..|list| - 1], list[|list| - 1];
      InsertAllFiles(c, init);
      var d, e := InsertAll(c, init), InsertAll(c, list);
      forall k | k in e.times ensures HasCentre(list, k) { CentreInList(list, k); }
      forall i | 0 <= i < |list| ensures Filed(e, list[i]) {
        if i < |init| { assert Filed(d, init[i]); }
        FiledAfter(d, s, list[i]);
      }
    }
  }

  lemma CentreInList(list: seq<Superevent>, k: real)
    requires list != [] && (HasCentre(list[..|list| - 1], k) || k == list[|list| - 1].t0)
    ensures HasCentre(list, k)
  {
    var init := list[..|list| - 1];
    if k == list[|list| - 1].t0 {
      assert list[|list| - 1].t0 == k;
    } else {
      var i :| 0 <= i < |init| && init[i].t0 == k;
      assert list[i].t0 == k;
    }
  }

  // Filing one more superevent.
  lemma FiledAfter(d: Snapshot, s: Superevent, t: Superevent)
    requires t == s || (t.t0 != s.t0 && Filed(d, t))
    ensures Filed(d.(superevents := d.superevents[s.t0 := s], times := d.times[s.t0 := s.id]), t)
  {
  }

  /** Whatever order equal scores come in, the open windows come back exactly. */
  lemma WindowsRestored(json: Json, c: Snapshot, img: Image, ids: seq<string>)
    requires Faithful(json, c) && Valid(c) && IsImageOf(img, c, json) && IsRange(img.index, ids)
    ensures
      var r := Collect(json, img.open, {}, ids);
      && r.Ok?
      && IdsOf(r.value) == ids
      && Reloaded(c.window, r.value) == c.(nextSeq := NextSeqFrom(ids))
  {
    hide Valid, NextSeqFrom, Filed, HasCentre, InsertAll, Collect, Survives;
    ValidIsIndexed(c);
    forall i | 0 <= i < |ids| ensures IsGoodEntry(img, c, json, ids[i]) {
      assert IsEntry(img, c, json, ids[i]);
    }
    CollectAll(json, c, img, ids);
    var list := Collect(json, img.open, {}, ids).value;
    forall i | 0 <= i < |ids|
      ensures list[i].id == ids[i] && list[i].t0 == img.index[ids[i]] && Filed(c, list[i])
    {
      EntryIsFiled(json, c, img, ids[i]);
    }
    assert IdsOf(list) == ids;
    forall k | k in c.times ensures HasCentre(list, k) { CentreListed(c, img, ids, list, k); }
    FiledTwiceIsSame(c, list);
    SameWindows(c, list);
  }

  lemma EntryIsFiled(json: Json, c: Snapshot, img: Image, id: string)
    requires IsGoodEntry(img, c, json, id)
    requires forall k :: k in c.times && k in c.superevents ==> c.superevents[k].id == c.times[k]
    requires forall k :: k in c.times && k in c.superevents ==> c.superevents[k].t0 == k
    ensures img.index[id] in c.superevents
    ensures var s := c.superevents[img.index[id]]; s.id == id && s.t0 == img.index[id] && Filed(c, s)
  {
  }

  lemma CentreListed(c: Snapshot, img: Image, ids: seq<string>, list: seq<Superevent>, k: real)
    requires |list| == |ids| && k in c.times
    requires c.times[k] in img.index && img.index[c.times[k]] == k && c.times[k] in ids
    requires forall i :: 0 <= i < |ids| ==> ids[i] in img.index && list[i].t0 == img.index[ids[i]]
    ensures HasCentre(list, k)
  {
    assert exists i :: 0 <= i < |ids| && ids[i] == c.times[k];
    var i :| 0 <= i < |ids| && ids[i] == c.times[k];
    assert list[i].t0 == k;
  }

  // Distinct ids sit at distinct centres.
  lemma FiledTwiceIsSame(c: Snapshot, list: seq<Superevent>)
    requires forall i :: 0 <= i < |list| ==> Filed(c, list[i])
    requires forall i, j :: 0 <= i < j < |list| ==> list[i].id != list[j].id
    ensures DistinctCentres(list)
  {
    forall i, j | 0 <= i < j < |list| ensures list[i].t0 != list[j].t0 {
      assert Filed(c, list[i]) && Filed(c, list[j]);
    }
  }

  lemma SameWindows(c: Snapshot, list: seq<Superevent>)
    requires c.times.Keys == c.superevents.Keys && DistinctCentres(list)
    requires forall i :: 0 <= i < |list| ==> Filed(c, list[i])
    requires forall k :: k in c.times ==> HasCentre(list, k)
    ensures
      var d := InsertAll(New(c.window), list);
      d.times == c.times && d.superevents == c.superevents && d.window == c.window
  {
    hide InsertAll, DistinctCentres;
    InsertAllFiles(New(c.window), list);
    var d := InsertAll(New(c.window), list);
    forall k | k in c.times || k in d.times
      ensures k in d.times && k in c.times && d.times[k] == c.times[k]
      ensures k in d.superevents && k in c.superevents && d.superevents[k] == c.superevents[k]
    {
      assert HasCentre(list, k);
      var i :| 0 <= i < |list| && list[i].t0 == k;
      assert Filed(c, list[i]) && Filed(d, list[i]);
    }
    assert d.times.Keys == c.times.Keys;
  }

  lemma {:induction false} MaxNumberBounds(ids: seq<string>, i: nat)
    requires i < |ids| && IdNumber(ids[i]).Some?
    ensures MaxNumber(ids).Some? && IdNumber(ids[i]).value <= MaxNumber(ids).value
  {
    hide IdNumber;
    if i == |ids| - 1 {
    } else {
      MaxNumberBounds(ids[..|ids| - 1], i);
    }
  }

  lemma {:induction false} MaxNumberAt(ids: seq<string>) returns (i: nat)
    requires MaxNumber(ids).Some?
    ensures i < |ids| && IdNumber(ids[i]) == MaxNumber(ids)
  {
    hide IdNumber;
    var last := |ids| - 1;
    if MaxNumber(ids) == IdNumber(ids[last]) {
      i := last;
    } else {
      i := MaxNumberAt(ids[..last]);
    }
  }

  lemma NumberOfIssued(id: string, n: nat) returns (m: nat)
    requires Issued(id, n) && n <= U64_LIMIT
    ensures m < n && id == FormatId(m) && IdNumber(id) == Some(m)
  {
    hide FormatId, IdNumber;
    m :| m < n && id == FormatId(m);
    IdNumberOfFormat(m);
  }

  /** The recovered counter lies past every id, and is one past one of them
      unless there are none. */
  lemma CounterRecovered(ids: seq<string>, issued: nat)
    requires issued <= U64_LIMIT && forall i :: 0 <= i < |ids| ==> Issued(ids[i], issued)
    ensures
      var n := NextSeqFrom(ids);
      && n <= issued
      && (forall i :: 0 <= i < |ids| ==> Issued(ids[i], n))
      && (n == 0 <==> ids == [])
      && (n > 0 ==> FormatId(n - 1) in ids)
  {
    hide MaxNumber, IdNumber, FormatId, Issued;
    forall i | 0 <= i < |ids|
      ensures MaxNumber(ids).Some? && Issued(ids[i], MaxNumber(ids).value + 1)
    {
      var m := NumberOfIssued(ids[i], issued);
      MaxNumberBounds(ids, i);
      IssuedAt(m, MaxNumber(ids).value + 1);
    }
    if ids == [] {
      assert MaxNumber([]).None? by { NoNumberOfNone(); }
    } else {
      assert Issued(ids[0], MaxNumber(ids).value + 1);
      var i := MaxNumberAt(ids);
      var m := NumberOfIssued(ids[i], issued);
    }
  }

  lemma IssuedAt(m: nat, n: nat)
    requires m < n
    ensures Issued(FormatId(m), n)
  {
    hide FormatId;
  }

  lemma NoNumberOfNone()
    ensures MaxNumber([]).None?
  {
  }

  /** A failed index read is taken for an empty store: the clusterer comes up
      empty, equal to the saved one only if that was new, and the next save
      leaves nothing behind. */
  lemma FailedIndexReadForgets(json: Json, c: Snapshot, img: Image, next: Image)
    requires Valid(c) && IsImageOf(img, c, json)
    ensures
      var r := Collect(json, img.open, {}, []);
      && r.Ok? && Reloaded(c.window, r.value) == New(c.window)
      && (Reloaded(c.window, r.value) == c <==> c.times == map[] && c.nextSeq == 0)
      && (IsImageOf(next, Reloaded(c.window, r.value), json) <==> next == Image(map[], map[]))
  {
    hide Valid, IsImageOf;
    ValidIsIndexed(c);
    NoNumberOfNone();
    if c.times == map[] { NoTimesNoWindows(c); }
    EmptyImage(json, c.window, next);
  }

  lemma NoTimesNoWindows(c: Snapshot)
    requires c.times == map[] && c.times.Keys == c.superevents.Keys
    ensures c.superevents == map[]
  {
    assert c.superevents.Keys == {};
  }

  lemma EmptyImage(json: Json, window: real, img: Image)
    ensures IsImageOf(img, New(window), json) <==> img == Image(map[], map[])
  {
    if IsImageOf(img, New(window), json) {
      assert forall id :: id in img.index ==> IsEntry(img, New(window), json, id);
      assert img.index.Keys == {} && img.open.Keys == {};
    }
  }

  // --------------------------------------------------- what loading accepts

  // The payload of this id is there and cannot be used.
  predicate Spoiled(json: Json, open: map<string, Bytes>, unread: set<string>, id: string) {
    id in unread || (id in open && json.decode(open[id]).None?)
  }

  function FaultOf(unread: set<string>, id: string): StateError {
    if id in unread then ReadFailed(id) else MalformedPayload(id)
  }

  // The ids listed that have a payload, in their order.
  function Stored(open: map<string, Bytes>, ids: seq<string>): seq<string> {
    if ids == [] then []
    else Stored(open, ids[..|ids| - 1]) + if ids[|ids| - 1] in open then [ids[|ids| - 1]] else []
  }

  lemma {:induction false} StoredConcat(open: map<string, Bytes>, a: seq<string>, b: seq<string>)
    ensures Stored(open, a + b) == Stored(open, a) + Stored(open, b)
  {
    if b == [] {
      assert a + b == a;
    } else {
      StoredConcat(open, a, b[..|b| - 1]);
      assert (a + b)[..|a + b| - 1] == a + b[..|b| - 1];
    }
  }

  lemma StoredOne(open: map<string, Bytes>, id: string)
    ensures Stored(open, []) == [] && Stored(open, [id]) == if id in open then [id] else []
  {
    assert [id][..0] == [];
  }

  /** Loading fails exactly when some listed payload is spoiled, and then reports the
      first; otherwise it yields what the stored payloads decode to, in order. */
  lemma {:induction false} CollectsIff(json: Json, open: map<string, Bytes>, unread: set<string>, ids: seq<string>)
    ensures
      var r := Collect(json, open, unread, ids);
      && (r.Ok? <==> forall i :: 0 <= i < |ids| ==> !Spoiled(json, open, unread, ids[i]))
      && (r.Err? ==> exists i :: 0 <= i < |ids| && Spoiled(json, open, unread, ids[i])
                                 && r.error == FaultOf(unread, ids[i])
                                 && forall j :: 0 <= j < i ==> !Spoiled(json, open, unread, ids[j]))
      && (r.Ok? ==> Decodes(json, open, Stored(open, ids), r.value))
  {
    hide Spoiled, Decodes;
    if ids == [] {
      NothingDecodes(json, open);
    } else {
      var n := |ids| - 1;
      CollectsIff(json, open, unread, ids[..n]);
      assert forall i :: 0 <= i < n ==> ids[..n][i] == ids[i];
      PayloadIs(json, open, unread, ids[n]);
      var init := Collect(json, open, unread, ids[..n]);
      if init.Ok? && !Spoiled(json, open, unread, ids[n]) && ids[n] in open {
        OneMoreDecodes(json, open, Stored(open, ids[..n]), init.value, ids[n]);
      }
      if init.Ok? { assert init.value + [] == init.value && Stored(open, ids[..n]) + [] == Stored(open, ids[..n]); }
    }
  }

  // Superevent j of the list is what the payload of id j decodes to.
  predicate Decodes(json: Json, open: map<string, Bytes>, ids: seq<string>, list: seq<Superevent>) {
    && |list| == |ids|
    && forall j :: 0 <= j < |ids| ==> ids[j] in open && json.decode(open[ids[j]]) == Some(list[j])
  }

  lemma NothingDecodes(json: Json, open: map<string, Bytes>)
    ensures Decodes(json, open, [], [])
  {
  }

  lemma OneMoreDecodes(json: Json, open: map<string, Bytes>, ids: seq<string>, list: seq<Superevent>, id: string)
    requires Decodes(json, open, ids, list) && id in open && json.decode(open[id]).Some?
    ensures Decodes(json, open, ids + [id], list + [json.decode(open[id]).value])
  {
  }

  lemma PayloadIs(json: Json, open: map<string, Bytes>, unread: set<string>, id: string)
    ensures
      var r := Payload(json, open, unread, id);
      if Spoiled(json, open, unread, id) then r == Err(FaultOf(unread, id))
      else r == Ok(if id in open && json.decode(open[id]).Some? then [json.decode(open[id]).value] else [])
    ensures !Spoiled(json, open, unread, id) && id in open ==> json.decode(open[id]).Some?
  {
  }

  /** The next id's number: one past the greatest number among the ids, or how many
      there are when none has a number. */
  lemma NextSeqIs(ids: seq<string>)
    ensures (forall i :: 0 <= i < |ids| ==> IdNumber(ids[i]).None?) ==> NextSeqFrom(ids) == |ids|
    ensures (exists i :: 0 <= i < |ids| && IdNumber(ids[i]).Some?) ==>
      && (forall i :: 0 <= i < |ids| && IdNumber(ids[i]).Some? ==> IdNumber(ids[i]).value < NextSeqFrom(ids))
      && (exists i :: 0 <= i < |ids| && IdNumber(ids[i]).Some? && NextSeqFrom(ids) == IdNumber(ids[i]).value + 1)
  {
    hide IdNumber, MaxNumber;
    if MaxNumber(ids).Some? { var i := MaxNumberAt(ids); }
    forall i | 0 <= i < |ids| && IdNumber(ids[i]).Some?
      ensures MaxNumber(ids).Some? && IdNumber(ids[i]).value < NextSeqFrom(ids)
    {
      MaxNumberBounds(ids, i);
    }
  }
}
