/** Rescans that overlap PATCHes and one another.  A rescan looks a match up and
    writes it back in two accesses, with no lock between them; other tasks and
    processes may act in between. */
module Interleaving {
  import opened Wrappers
  import opened CrossMatches

  /** One access to the archive.  A rescan alternates Look and Put; `works` says
      whether its lookup was answered.  A failed write is no access at all. */
  datatype Action =
    | Look(scan: nat, id: MatchId, works: bool)
    | Put(scan: nat, id: MatchId, metrics: Metrics, now: int)
    | Patch(id: MatchId, flag: bool)
    | Create(id: MatchId, metrics: Metrics, now: int)

  // The stored documents, and the flag each rescan took from its latest lookup.
  datatype Shared = Shared(docs: Store, carried: map<nat, bool>)

  function Do(s: Shared, a: Action): Shared {
    match a
    case Look(scan, id, works) => s.(carried := s.carried[scan := works && Flag(s.docs, id)])
    case Put(scan, id, m, now) =>
      s.(docs := s.docs[id := MatchDoc(id, m, scan in s.carried && s.carried[scan], now)])
    case Patch(id, flag) => if id in s.docs then s.(docs := s.docs[id := s.docs[id].(associated := flag)]) else s
    case Create(id, m, now) => s.(docs := s.docs[id := MatchDoc(id, m, false, now)])
  }

  function Exec(s: Shared, actions: seq<Action>): Shared {
    if actions == [] then s else Do(Exec(s, actions[..|actions| - 1]), actions[|actions| - 1])
  }

  // What is stored and carried before access n, from an empty archive.
  function At(actions: seq<Action>, n: nat): Shared
    requires n <= |actions|
  {
    Exec(Shared(map[], map[]), actions[..n])
  }

  lemma AtStep(actions: seq<Action>, n: nat)
    requires n < |actions|
    ensures At(actions, n + 1) == Do(At(actions, n), actions[n])
  {
    hide Do;
    assert actions[..n + 1][..n] == actions[..n];
  }

  predicate Writes(a: Action, id: MatchId) {
    (a.Put? || a.Create?) && a.id == id
  }

  predicate Stored(actions: seq<Action>, n: nat, id: MatchId)
    requires n <= |actions|
  {
    exists i :: 0 <= i < n && Writes(actions[i], id)
  }

  // Access i is a PATCH of a match that exists by then.
  predicate Decides(actions: seq<Action>, i: nat, id: MatchId)
    requires i < |actions|
  {
    actions[i].Patch? && actions[i].id == id && Stored(actions, i, id)
  }

  lemma {:induction false} StoredIff(actions: seq<Action>, n: nat, id: MatchId)
    requires n <= |actions|
    ensures id in At(actions, n).docs <==> Stored(actions, n, id)
  {
    if n == 0 {
    } else {
      StoredIff(actions, n - 1, id);
      AtStep(actions, n - 1);
      assert Stored(actions, n, id) <==> Stored(actions, n - 1, id) || Writes(actions[n - 1], id);
    }
  }

  // The latest lookup of a rescan before access n; -1 when there was none.
  function LookBefore(actions: seq<Action>, n: nat, scan: nat): (l: int)
    requires n <= |actions|
    ensures -1 <= l < n
    ensures l >= 0 ==> actions[l].Look? && actions[l].scan == scan
    ensures forall i :: l < i < n ==> !(actions[i].Look? && actions[i].scan == scan)
  {
    if n == 0 then -1
    else if actions[n - 1].Look? && actions[n - 1].scan == scan then n - 1
    else LookBefore(actions, n - 1, scan)
  }

  // A rescan writes the match it has just looked up.
  ghost predicate LooksFirst(actions: seq<Action>) {
    forall j :: 0 <= j < |actions| && actions[j].Put? ==>
      var l := LookBefore(actions, j, actions[j].scan);
      l >= 0 && actions[l].id == actions[j].id
  }

  // The flag access n writes, if it writes a match.
  predicate Carries(actions: seq<Action>, n: nat)
    requires n < |actions|
  {
    && actions[n].Put?
    && var l := LookBefore(actions, n, actions[n].scan);
       l >= 0 && actions[l].works && Flag(At(actions, l).docs, actions[l].id)
  }

  lemma {:induction false} CarriedFromLook(actions: seq<Action>, n: nat, scan: nat)
    requires n <= |actions|
    ensures
      var l, s := LookBefore(actions, n, scan), At(actions, n);
      (scan in s.carried && s.carried[scan])
      <==> (l >= 0 && actions[l].works && Flag(At(actions, l).docs, actions[l].id))
  {
    hide Flag;
    if n == 0 {
    } else {
      CarriedFromLook(actions, n - 1, scan);
      AtStep(actions, n - 1);
    }
  }

  lemma FlagStep(actions: seq<Action>, n: nat, id: MatchId)
    requires n < |actions|
    ensures
      Flag(At(actions, n + 1).docs, id) <==>
        if Writes(actions[n], id) then Carries(actions, n)
        else if Decides(actions, n, id) then actions[n].flag
        else Flag(At(actions, n).docs, id)
  {
    hide At, Stored;
    AtStep(actions, n);
    StoredIff(actions, n, id);
    if actions[n].Put? { CarriedFromLook(actions, n, actions[n].scan); }
  }

  // ---------------------------------------------- whose decision a match shows

  /** The PATCH whose decision match id shows before access n, traced back through
      the lookups that carried it; -1 when it shows none. */
  ghost function Origin(actions: seq<Action>, n: nat, id: MatchId): (o: int)
    requires n <= |actions| && LooksFirst(actions)
    ensures -1 <= o < n && (o >= 0 ==> Decides(actions, o, id))
  {
    if n == 0 then -1
    else if Writes(actions[n - 1], id) then
      if actions[n - 1].Create? then -1
      else
        var l := LookBefore(actions, n - 1, actions[n - 1].scan);
        if actions[l].works then Origin(actions, l, id) else -1
    else if Decides(actions, n - 1, id) then n - 1
    else Origin(actions, n - 1, id)
  }

  /** Whatever overlaps: a match is flagged if and only if the PATCH its flag traces
      back to set it. */
  lemma {:induction false} FlagIsOrigins(actions: seq<Action>, n: nat, id: MatchId)
    requires n <= |actions| && LooksFirst(actions)
    ensures
      var o := Origin(actions, n, id);
      Flag(At(actions, n).docs, id) <==> o >= 0 && actions[o].flag
  {
    hide At, Stored;
    if n == 0 {
      NothingFlagged(actions, id);
    } else {
      FlagStep(actions, n - 1, id);
      if Writes(actions[n - 1], id) && actions[n - 1].Put? {
        FlagIsOrigins(actions, LookBefore(actions, n - 1, actions[n - 1].scan), id);
      } else {
        FlagIsOrigins(actions, n - 1, id);
      }
    }
  }

  lemma NothingFlagged(actions: seq<Action>, id: MatchId)
    ensures !Flag(At(actions, 0).docs, id)
  {
  }

  // p is the last effective PATCH of the match.
  ghost predicate IsLastPatch(actions: seq<Action>, p: nat, id: MatchId) {
    p < |actions| && Decides(actions, p, id) && forall j :: p < j < |actions| ==> !Decides(actions, j, id)
  }

  // w is the last write of the match before access n, and comes after access p.
  ghost predicate IsLastWrite(actions: seq<Action>, p: nat, w: nat, n: nat, id: MatchId)
    requires n <= |actions|
  {
    p < w < n && Writes(actions[w], id) && forall j :: w < j < n ==> !Writes(actions[j], id)
  }

  lemma {:induction false} FlagFromLastWrite(actions: seq<Action>, p: nat, n: nat, id: MatchId)
    requires IsLastPatch(actions, p, id) && p < n <= |actions|
    ensures
      (exists w :: IsLastWrite(actions, p, w, n, id) && (Flag(At(actions, n).docs, id) <==> Carries(actions, w)))
      || ((forall w :: p < w < n ==> !Writes(actions[w], id)) && (Flag(At(actions, n).docs, id) <==> actions[p].flag))
  {
    hide At, Stored, Carries;
    FlagStep(actions, n - 1, id);
    if n == p + 1 {
    } else if Writes(actions[n - 1], id) {
      assert IsLastWrite(actions, p, n - 1, n, id);
    } else {
      FlagFromLastWrite(actions, p, n - 1, id);
      forall w | IsLastWrite(actions, p, w, n - 1, id) ensures IsLastWrite(actions, p, w, n, id) {}
    }
  }

  /** The last PATCH stands if and only if the last write after it, if there is one,
      carries the same flag. */
  lemma LastPatchStandsIff(actions: seq<Action>, p: nat, id: MatchId)
    requires IsLastPatch(actions, p, id)
    ensures
      (Flag(At(actions, |actions|).docs, id) <==> actions[p].flag)
      <==> forall w :: IsLastWrite(actions, p, w, |actions|, id) ==> (Carries(actions, w) <==> actions[p].flag)
  {
    hide At, Stored, Carries, Decides;
    FlagFromLastWrite(actions, p, |actions|, id);
    var n := |actions|;
    forall v, w | IsLastWrite(actions, p, v, n, id) && IsLastWrite(actions, p, w, n, id) ensures v == w {}
  }

  // Access w writes back what a lookup after access p was answered.
  predicate IsFresh(actions: seq<Action>, p: nat, w: nat)
    requires w < |actions|
  {
    && actions[w].Put?
    && var l := LookBefore(actions, w, actions[w].scan);
       l > p && actions[l].works
  }

  /** It surely stands when every later write of the match was preceded by its own
      rescan's lookup after that PATCH. */
  lemma {:induction false} FreshLooksKeepPatch(actions: seq<Action>, p: nat, n: nat, id: MatchId)
    requires LooksFirst(actions) && IsLastPatch(actions, p, id) && p < n <= |actions|
    requires forall w :: p < w < n && Writes(actions[w], id) ==> IsFresh(actions, p, w)
    ensures Origin(actions, n, id) == p && (Flag(At(actions, n).docs, id) <==> actions[p].flag)
    decreases n
  {
    hide At, Stored;
    FlagIsOrigins(actions, n, id);
    if n == p + 1 {
    } else if Writes(actions[n - 1], id) {
      assert IsFresh(actions, p, n - 1);
      FreshLooksKeepPatch(actions, p, LookBefore(actions, n - 1, actions[n - 1].scan), id);
    } else {
      FreshLooksKeepPatch(actions, p, n - 1, id);
    }
  }

  /** A PATCH can be lost though every access works: it comes between a rescan's
      lookup and its write. */
  lemma OvertakenPatch(id: MatchId, m: Metrics, now: int)
    ensures
      var actions := [Action.Create(id, m, now), Look(0, id, true), Action.Patch(id, true), Put(0, id, m, now)];
      && LooksFirst(actions) && IsLastPatch(actions, 2, id) && !Flag(At(actions, 4).docs, id)
  {
    var actions := [Action.Create(id, m, now), Look(0, id, true), Action.Patch(id, true), Put(0, id, m, now)];
    assert LookBefore(actions, 3, 0) == 1;
    assert Writes(actions[0], id);
    assert LooksFirst(actions);
    FlagStep(actions, 3, id);
    FlagStep(actions, 0, id);
  }

  // ------------------------------------------ rescans that do not overlap

  // One rescan on its own, up to its first failed write.
  function Alone(superevent: string, visits: seq<Visit>): seq<Action>
    decreases |visits|
  {
    if visits == [] then []
    else
      var v, id := visits[0], IdOf(superevent, visits[0].found);
      if v.access.UpsertFails? then [Look(0, id, true)]
      else [Look(0, id, v.access.Works?), Put(0, id, v.found.metrics, v.now)] + Alone(superevent, visits[1..])
  }

  function AccessesOf(op: Op): seq<Action> {
    match op
    case Rescan(superevent, visits) => Alone(superevent, visits)
    case Patch(id, flag) => [Action.Patch(id, flag)]
    case Create(superevent, m, now) => [Action.Create(IdOf(superevent, m), m.metrics, now)]
  }

  // The operations one after the other.
  function OneByOne(ops: seq<Op>): seq<Action> {
    if ops == [] then [] else OneByOne(ops[..|ops| - 1]) + AccessesOf(ops[|ops| - 1])
  }

  lemma {:induction false} ExecConcat(s: Shared, a: seq<Action>, b: seq<Action>)
    ensures Exec(s, a + b) == Exec(Exec(s, a), b)
  {
    hide Do;
    if b == [] {
      assert a + b == a;
    } else {
      ExecConcat(s, a, b[..|b| - 1]);
      assert (a + b)[..|a + b| - 1] == a + b[..|b| - 1];
    }
  }

  lemma ExecTwo(s: Shared, a: Action, b: Action)
    ensures Exec(s, [a]) == Do(s, a) && Exec(s, [a, b]) == Do(Do(s, a), b)
  {
    hide Do;
    assert [a, b][..1] == [a] && [a][..0] == [];
    assert Exec(s, []) == s;
  }

  lemma {:induction false} AloneIsScan(s: Shared, superevent: string, visits: seq<Visit>)
    ensures Exec(s, Alone(superevent, visits)).docs == Scan(s.docs, superevent, visits).docs
    decreases |visits|
  {
    if visits == [] {
    } else {
      var v, id := visits[0], IdOf(superevent, visits[0].found);
      var look, put := Look(0, id, v.access.Works?), Put(0, id, v.found.metrics, v.now);
      ExecTwo(s, look, put);
      ExecTwo(s, Look(0, id, true), put);
      ExecConcat(s, [look, put], Alone(superevent, visits[1..]));
      AloneIsScan(Exec(s, [look, put]), superevent, visits[1..]);
    }
  }

  // Each write comes right after its lookup.
  ghost predicate LooksJustBefore(actions: seq<Action>) {
    forall j :: 0 <= j < |actions| && actions[j].Put? ==>
      j > 0 && actions[j - 1].Look? && actions[j - 1].scan == actions[j].scan && actions[j - 1].id == actions[j].id
  }

  lemma LooksJustBeforeConcat(a: seq<Action>, b: seq<Action>)
    requires LooksJustBefore(a) && LooksJustBefore(b)
    ensures LooksJustBefore(a + b)
  {
    forall j | 0 <= j < |a + b| && (a + b)[j].Put?
      ensures
        && j > 0 && (a + b)[j - 1].Look? && (a + b)[j - 1].scan == (a + b)[j].scan
        && (a + b)[j - 1].id == (a + b)[j].id
    {
      if j >= |a| { assert (a + b)[j] == b[j - |a|]; }
    }
  }

  lemma {:induction false} AloneLooksFirst(superevent: string, visits: seq<Visit>)
    ensures LooksJustBefore(Alone(superevent, visits))
    decreases |visits|
  {
    if visits == [] {
    } else {
      var v, id := visits[0], IdOf(superevent, visits[0].found);
      AloneLooksFirst(superevent, visits[1..]);
      LooksJustBeforeConcat([Look(0, id, v.access.Works?), Put(0, id, v.found.metrics, v.now)],
                            Alone(superevent, visits[1..]));
    }
  }

  lemma {:induction false} OneByOneLooksJustBefore(ops: seq<Op>)
    ensures LooksJustBefore(OneByOne(ops))
  {
    hide LooksJustBefore;
    if ops == [] {
      NoAccessLooks();
    } else {
      OneByOneLooksJustBefore(ops[..|ops| - 1]);
      AccessesLookFirst(ops[|ops| - 1]);
      LooksJustBeforeConcat(OneByOne(ops[..|ops| - 1]), AccessesOf(ops[|ops| - 1]));
    }
  }

  lemma NoAccessLooks()
    ensures LooksJustBefore([])
  {
  }

  lemma AccessesLookFirst(op: Op)
    ensures LooksJustBefore(AccessesOf(op))
  {
    if op.Rescan? { AloneLooksFirst(op.superevent, op.visits); }
  }

  // So the theorems above speak of such runs too.
  lemma OneByOneLooksFirst(ops: seq<Op>)
    ensures LooksFirst(OneByOne(ops))
  {
    hide OneByOne;
    OneByOneLooksJustBefore(ops);
  }

  /** Run one after the other, the accesses do what the operations do as single
      steps. */
  lemma {:induction false} OneByOneIsRun(ops: seq<Op>)
    ensures At(OneByOne(ops), |OneByOne(ops)|).docs == Run(ops)
  {
    hide Scan;
    var empty := Shared(map[], map[]);
    assert OneByOne(ops)[..|OneByOne(ops)|] == OneByOne(ops);
    if ops == [] {
    } else {
      var init, op := ops[..|ops| - 1], ops[|ops| - 1];
      OneByOneIsRun(init);
      assert OneByOne(init)[..|OneByOne(init)|] == OneByOne(init);
      var s := Exec(empty, OneByOne(init));
      ExecConcat(empty, OneByOne(init), AccessesOf(op));
      match op
      case Rescan(superevent, visits) => AloneIsScan(s, superevent, visits);
      case Patch(id, flag) => ExecTwo(s, Action.Patch(id, flag), Action.Patch(id, flag));
      case Create(superevent, m, now) =>
        var a := Action.Create(IdOf(superevent, m), m.metrics, now);
        ExecTwo(s, a, a);
    }
  }
}
