/** The joint posterior: a gravitational-wave density map restricted to an
    external region and rescaled to total mass one.

    Densities are reals.  Whether a cell's centre lies in the
    external region is left to an arbitrary predicate on packed cells. */
module Posterior {
  import opened Wrappers
  import opened Decimal
  import opened Nuniq
  import opened Reals

  datatype DensityCell = DensityCell(uniq: U64, density: real)

  datatype CombineError = EmptyOverlap

  type Region = U64 -> bool

  // `cell_area_sr`: area of a cell at a depth, for a given value of pi.
  function AreaAt(pi: real, depth: nat): (a: real)
    requires pi > 0.0
    ensures a > 0.0
  {
    4.0 * pi / Cells(depth) as real
  }

  function CellArea(pi: real, uniq: U64): (a: real)
    requires pi > 0.0 && uniq >= 4
    ensures a > 0.0
  {
    AreaAt(pi, Depth(uniq))
  }

  /** The cells of a depth cover the sphere once, and each splits into four equal
      ones at the next depth. */
  lemma CellsCoverSphere(pi: real, depth: nat)
    requires pi > 0.0
    ensures Times(Cells(depth) as real, AreaAt(pi, depth)) == 4.0 * pi
    ensures Cells(depth + 1) == 4 * Cells(depth) && AreaAt(pi, depth) == 4.0 * AreaAt(pi, depth + 1)
  {
    assert Pow2(2 * depth + 2) == 2 * Pow2(2 * depth + 1) == 4 * Pow2(2 * depth);
    SplitInFour(4.0 * pi, Cells(depth) as real, Cells(depth + 1) as real);
  }

  lemma SplitInFour(a: real, n: real, m: real)
    requires n > 0.0 && m == 4.0 * n
    ensures Times(n, a / n) == a && a / n == 4.0 * (a / m)
  {
    assert n * (a / n) == a && m * (a / m) == a;
    assert n * (a / n - 4.0 * (a / m)) == 0.0;
  }

  // Every row packs some cell.
  predicate IsPacked(cells: seq<DensityCell>) {
    forall i :: 0 <= i < |cells| ==> cells[i].uniq >= 4
  }

  predicate IsMap(cells: seq<DensityCell>) {
    IsPacked(cells) && forall i :: 0 <= i < |cells| ==> cells[i].density >= 0.0
  }

  function Mass(pi: real, cells: seq<DensityCell>): (m: real)
    requires pi > 0.0 && IsPacked(cells)
    ensures IsMap(cells) ==> m >= 0.0
  {
    if cells == [] then 0.0
    else
      var last := |cells| - 1;
      Mass(pi, cells[..last]) + Times(cells[last].density, CellArea(pi, cells[last].uniq))
  }

  // The cells in the region, in row order.
  function Kept(cells: seq<DensityCell>, region: Region): (k: seq<DensityCell>)
    ensures IsPacked(cells) ==> IsPacked(k)
    ensures IsMap(cells) ==> IsMap(k)
  {
    if cells == [] then []
    else
      var last := |cells| - 1;
      Kept(cells[..last], region) + if region(cells[last].uniq) then [cells[last]] else []
  }

  function ScaledCell(c: DensityCell, scale: real): DensityCell {
    c.(density := Times(c.density, scale))
  }

  function Scaled(cells: seq<DensityCell>, scale: real): (r: seq<DensityCell>)
    ensures |r| == |cells| && forall i :: 0 <= i < |cells| ==> r[i] == ScaledCell(cells[i], scale)
    ensures IsPacked(cells) ==> IsPacked(r)
    ensures scale >= 0.0 && IsMap(cells) ==> IsMap(r)
  {
    seq(|cells|, i requires 0 <= i < |cells| => ScaledCell(cells[i], scale))
  }

  function Combined(pi: real, cells: seq<DensityCell>, region: Region): (r: Result<seq<DensityCell>, CombineError>)
    requires pi > 0.0 && IsPacked(cells)
    ensures r.Ok? ==> IsPacked(r.value) && (IsMap(cells) ==> IsMap(r.value))
  {
    var kept := Kept(cells, region);
    var mass := Mass(pi, kept);
    if mass <= 0.0 then Err(EmptyOverlap) else Ok(Scaled(kept, 1.0 / mass))
  }

  lemma OneMoreCell(cells: seq<DensityCell>, region: Region, i: nat)
    requires i < |cells|
    ensures
      Kept(cells[..i + 1], region)
      == if region(cells[i].uniq) then Kept(cells[..i], region) + [cells[i]] else Kept(cells[..i], region)
  {
    assert cells[..i + 1][..i] == cells[..i];
  }

  lemma MassPush(pi: real, cells: seq<DensityCell>, c: DensityCell)
    requires pi > 0.0 && IsPacked(cells) && c.uniq >= 4
    ensures IsPacked(cells + [c])
    ensures Mass(pi, cells + [c]) == Mass(pi, cells) + Times(c.density, CellArea(pi, c.uniq))
  {
    hide CellArea, Times;
    assert (cells + [c])[..|cells|] == cells;
  }

  // The filtering pass, which adds up the mass kept.
  method Keep(pi: real, cells: seq<DensityCell>, region: Region) returns (kept: seq<DensityCell>, mass: real)
    requires pi > 0.0 && IsPacked(cells)
    ensures kept == Kept(cells, region) && mass == Mass(pi, kept)
  {
    hide Kept, Mass, CellArea, Times;
    NothingKept(pi, region);
    kept, mass := [], 0.0;
    assert cells[..0] == [];
    for i := 0 to |cells|
      invariant kept == Kept(cells[..i], region) && IsPacked(kept) && mass == Mass(pi, kept)
    {
      OneMoreCell(cells, region, i);
      if region(cells[i].uniq) {
        MassPush(pi, kept, cells[i]);
        mass := mass + Times(cells[i].density, CellArea(pi, cells[i].uniq));
        kept := kept + [cells[i]];
      }
    }
    assert cells[..|cells|] == cells;
  }

  lemma NothingKept(pi: real, region: Region)
    requires pi > 0.0
    ensures Kept([], region) == [] && Mass(pi, []) == 0.0
  {
  }

  // The rescaling pass, in place.
  method Rescale(cells: seq<DensityCell>, scale: real) returns (out: seq<DensityCell>)
    ensures out == Scaled(cells, scale)
  {
    hide ScaledCell;
    out := cells;
    for i := 0 to |cells|
      invariant |out| == |cells|
      invariant forall j :: 0 <= j < i ==> out[j] == ScaledCell(cells[j], scale)
      invariant forall j :: i <= j < |cells| ==> out[j] == cells[j]
    {
      out := out[i := ScaledCell(out[i], scale)];
    }
  }

  /** `combine_gw_with_external_moc` on decoded cells: one pass that filters and
      accumulates mass, one that rescales in place. */
  method Combine(pi: real, cells: seq<DensityCell>, region: Region) returns (r: Result<seq<DensityCell>, CombineError>)
    requires pi > 0.0 && IsPacked(cells)
    ensures r == Combined(pi, cells, region)
  {
    hide Kept, Mass, Scaled;
    var kept, mass := Keep(pi, cells, region);
    if mass <= 0.0 { return Err(EmptyOverlap); }
    var out := Rescale(kept, 1.0 / mass);
    r := Ok(out);
  }

  // --------------------------------------------------- total mass is one

  lemma ScaledSum(m: real, d: real, a: real, s: real)
    ensures Times(m + Times(d, a), s) == Times(m, s) + Times(Times(d, s), a)
  {
  }

  lemma {:induction false} MassScales(pi: real, cells: seq<DensityCell>, scale: real)
    requires pi > 0.0 && IsPacked(cells)
    ensures Mass(pi, Scaled(cells, scale)) == Times(Mass(pi, cells), scale)
  {
    hide CellArea, Scaled, Times;
    if cells == [] {
      TimesZero(scale);
    } else {
      var last := |cells| - 1;
      MassScales(pi, cells[..last], scale);
      assert Scaled(cells, scale)[..last] == Scaled(cells[..last], scale);
      ScaledSum(Mass(pi, cells[..last]), cells[last].density, CellArea(pi, cells[last].uniq), scale);
    }
  }

  /** A combined map integrates to exactly one. */
  lemma CombinedMassIsOne(pi: real, cells: seq<DensityCell>, region: Region)
    requires pi > 0.0 && IsPacked(cells) && Combined(pi, cells, region).Ok?
    ensures Mass(pi, Combined(pi, cells, region).value) == 1.0
  {
    hide Mass, Kept, Scaled, Times;
    var kept := Kept(cells, region);
    TimesInverse(Mass(pi, kept));
    MassScales(pi, kept, 1.0 / Mass(pi, kept));
  }

  // ------------------------------------------ order and ratios are kept

  lemma RatioKept(c: real, d: real, s: real)
    ensures Times(Times(c, s), d) == Times(Times(d, s), c)
  {
  }

  /** Rows of the result are the region's rows in their original order, all
      densities in the original proportion. */
  lemma CombinedKeepsRowsAndRatios(pi: real, cells: seq<DensityCell>, region: Region, i: nat, j: nat)
    requires pi > 0.0 && IsPacked(cells) && Combined(pi, cells, region).Ok?
    requires i < |Kept(cells, region)| && j < |Kept(cells, region)|
    ensures
      var kept, out := Kept(cells, region), Combined(pi, cells, region).value;
      && |out| == |kept|
      && out[i].uniq == kept[i].uniq && region(out[i].uniq)
      && Times(out[i].density, kept[j].density) == Times(out[j].density, kept[i].density)
  {
    hide Mass, Kept, Scaled, Times;
    var kept := Kept(cells, region);
    KeptIsInside(cells, region, i);
    TimesInverse(Mass(pi, kept));
    RatioKept(kept[i].density, kept[j].density, 1.0 / Mass(pi, kept));
  }

  lemma {:induction false} KeptIsInside(cells: seq<DensityCell>, region: Region, i: nat)
    requires i < |Kept(cells, region)|
    ensures region(Kept(cells, region)[i].uniq)
  {
    var last := |cells| - 1;
    if i == |Kept(cells[..last], region)| {
    } else {
      KeptIsInside(cells[..last], region, i);
    }
  }

  // ---------------------------------------------- sequential conditioning

  function Both(a: Region, b: Region): Region {
    (u: U64) => a(u) && b(u)
  }

  lemma {:induction false} KeptTwice(cells: seq<DensityCell>, a: Region, b: Region)
    ensures Kept(Kept(cells, a), b) == Kept(cells, Both(a, b))
  {
    if cells == [] {
    } else {
      var last := |cells| - 1;
      KeptTwice(cells[..last], a, b);
      var init := Kept(cells[..last], a);
      if a(cells[last].uniq) { assert (init + [cells[last]])[..|init|] == init; }
      else { assert init + [] == init; }
    }
  }

  lemma ScaledPush(cells: seq<DensityCell>, c: DensityCell, scale: real)
    ensures Scaled(cells + [c], scale) == Scaled(cells, scale) + [ScaledCell(c, scale)]
  {
    hide ScaledCell;
  }

  lemma KeptPush(cells: seq<DensityCell>, c: DensityCell, b: Region)
    ensures Kept(cells + [c], b) == if b(c.uniq) then Kept(cells, b) + [c] else Kept(cells, b)
  {
    assert (cells + [c])[..|cells|] == cells;
  }

  lemma {:induction false} KeptOfScaled(cells: seq<DensityCell>, scale: real, b: Region)
    ensures Kept(Scaled(cells, scale), b) == Scaled(Kept(cells, b), scale)
  {
    hide Scaled, Times, Kept;
    if cells == [] {
      KeptOfNothing(scale, b);
    } else {
      var init, c := cells[..|cells| - 1], cells[|cells| - 1];
      assert cells == init + [c];
      KeptOfScaled(init, scale, b);
      ScaledPush(init, c, scale);
      KeptPush(init, c, b);
      KeptPush(Scaled(init, scale), ScaledCell(c, scale), b);
      ScaledPush(Kept(init, b), c, scale);
    }
  }

  lemma KeptOfNothing(scale: real, b: Region)
    ensures Kept([], b) == [] && Scaled([], scale) == []
  {
  }

  lemma {:induction false} KeptMassIsLess(pi: real, cells: seq<DensityCell>, b: Region)
    requires pi > 0.0 && IsMap(cells)
    ensures Mass(pi, Kept(cells, b)) <= Mass(pi, cells)
  {
    hide CellArea, Times;
    if cells == [] {
    } else {
      var last := |cells| - 1;
      KeptMassIsLess(pi, cells[..last], b);
      var init := Kept(cells[..last], b);
      assert (init + [cells[last]])[..|init|] == init && init + [] == init;
    }
  }

  lemma ScaledTwice(cells: seq<DensityCell>, s: real, t: real)
    ensures Scaled(Scaled(cells, s), t) == Scaled(cells, Times(s, t))
  {
    hide Scaled, Times;
    forall i | 0 <= i < |cells|
      ensures Scaled(Scaled(cells, s), t)[i] == Scaled(cells, Times(s, t))[i]
    {
      TimesAssociates(cells[i].density, s, t);
    }
  }

  lemma TwoRescalings(ma: real, mab: real)
    requires ma > 0.0
    ensures 1.0 / ma > 0.0
    ensures mab > 0.0 ==> Times(mab, 1.0 / ma) > 0.0 && Times(1.0 / ma, 1.0 / Times(mab, 1.0 / ma)) == 1.0 / mab
    ensures mab == 0.0 ==> Times(mab, 1.0 / ma) == 0.0
  {
    var s := 1.0 / ma;
    assert ma * s == 1.0;
    if mab > 0.0 {
      assert mab * s > 0.0;
      var t := 1.0 / (mab * s);
      assert t * (mab * s) == 1.0;
      assert mab * (s * t) == 1.0;
    }
  }

  /** Sequential conditioning, for nonnegative densities: combining with one region and then another gives
      what combining once with their intersection gives, errors included. */
  lemma ConditioningComposes(pi: real, cells: seq<DensityCell>, a: Region, b: Region)
    requires pi > 0.0 && IsMap(cells)
    ensures
      var first := Combined(pi, cells, a);
      (if first.Err? then first else Combined(pi, first.value, b)) == Combined(pi, cells, Both(a, b))
  {
    hide Mass, Kept, Scaled, Times;
    var ka := Kept(cells, a);
    var kab := Kept(ka, b);
    var ma, mab := Mass(pi, ka), Mass(pi, kab);
    KeptTwice(cells, a, b);
    KeptMassIsLess(pi, ka, b);
    if ma > 0.0 {
      var s := 1.0 / ma;
      TwoRescalings(ma, mab);
      KeptOfScaled(ka, s, b);
      MassScales(pi, kab, s);
      if mab > 0.0 { ScaledTwice(kab, s, 1.0 / Times(mab, s)); }
    }
  }

  lemma {:induction false} KeptCommutes(cells: seq<DensityCell>, a: Region, b: Region)
    ensures Kept(cells, Both(a, b)) == Kept(cells, Both(b, a))
  {
    if cells == [] {
    } else {
      KeptCommutes(cells[..|cells| - 1], a, b);
    }
  }

  // The order in which two external regions are applied is immaterial.
  lemma ConditioningCommutes(pi: real, cells: seq<DensityCell>, a: Region, b: Region)
    requires pi > 0.0 && IsMap(cells)
    ensures
      var viaA, viaB := Combined(pi, cells, a), Combined(pi, cells, b);
      (if viaA.Err? then viaA else Combined(pi, viaA.value, b))
      == (if viaB.Err? then viaB else Combined(pi, viaB.value, a))
  {
    hide Combined;
    ConditioningComposes(pi, cells, a, b);
    ConditioningComposes(pi, cells, b, a);
    KeptCommutes(cells, a, b);
    SameKeptSameResult(pi, cells, Both(a, b), Both(b, a));
  }

  lemma SameKeptSameResult(pi: real, cells: seq<DensityCell>, r: Region, s: Region)
    requires pi > 0.0 && IsPacked(cells)
    ensures Kept(cells, r) == Kept(cells, s) ==> Combined(pi, cells, r) == Combined(pi, cells, s)
  {
  }

  // --------------------------------------------- when combining succeeds

  // Row i has its centre in the region and carries probability.
  predicate Contributes(cells: seq<DensityCell>, region: Region, i: nat) {
    i < |cells| && region(cells[i].uniq) && cells[i].density > 0.0
  }

  // The rows kept are those of the region, one by one and in their order.
  lemma KeptRowByRow(a: seq<DensityCell>, c: DensityCell, region: Region)
    ensures Kept([], region) == []
    ensures Kept(a + [c], region) == if region(c.uniq) then Kept(a, region) + [c] else Kept(a, region)
  {
    assert (a + [c])[..|a|] == a;
  }

  lemma {:induction false} MassPositiveIff(pi: real, cells: seq<DensityCell>, region: Region)
    requires pi > 0.0 && IsMap(cells)
    ensures Mass(pi, Kept(cells, region)) > 0.0 <==> exists i: nat :: Contributes(cells, region, i)
  {
    hide Kept, Mass, CellArea, Times, Contributes;
    if cells == [] {
      NothingContributes(region);
      NothingKept(pi, region);
    } else {
      var init, last := cells[..|cells| - 1], cells[|cells| - 1];
      MassPositiveIff(pi, init, region);
      assert init + [last] == cells;
      KeptRowByRow(init, last, region);
      ContributesOneMore(cells, region);
      if region(last.uniq) { MassGrowsIff(pi, Kept(init, region), last); }
    }
  }

  lemma MassGrowsIff(pi: real, cells: seq<DensityCell>, c: DensityCell)
    requires pi > 0.0 && IsMap(cells) && c.uniq >= 4 && c.density >= 0.0
    ensures IsMap(cells + [c])
    ensures Mass(pi, cells + [c]) > 0.0 <==> Mass(pi, cells) > 0.0 || c.density > 0.0
  {
    hide Mass, CellArea, Times;
    MassPush(pi, cells, c);
    if c.density > 0.0 { TimesPositive(c.density, CellArea(pi, c.uniq)); } else { TimesZero(CellArea(pi, c.uniq)); }
  }

  lemma NothingContributes(region: Region)
    ensures forall i: nat :: !Contributes([], region, i)
  {
  }

  lemma ContributesOneMore(cells: seq<DensityCell>, region: Region)
    requires cells != []
    ensures
      var init, last := cells[..|cells| - 1], cells[|cells| - 1];
      (exists i: nat :: Contributes(cells, region, i))
      <==> (exists i: nat :: Contributes(init, region, i)) || (region(last.uniq) && last.density > 0.0)
  {
    var init, last := cells[..|cells| - 1], cells[|cells| - 1];
    forall i: nat | Contributes(init, region, i) ensures Contributes(cells, region, i) {}
    forall i: nat | Contributes(cells, region, i) && i < |init| ensures Contributes(init, region, i) {}
    if region(last.uniq) && last.density > 0.0 { assert Contributes(cells, region, |cells| - 1); }
  }

  /** Combining succeeds exactly when some row of positive density has its centre in
      the region. */
  lemma CombinedIsOkIff(pi: real, cells: seq<DensityCell>, region: Region)
    requires pi > 0.0 && IsMap(cells)
    ensures
      var r := Combined(pi, cells, region);
      && (r.Ok? <==> exists i: nat :: Contributes(cells, region, i))
      && (r.Err? <==> forall i :: 0 <= i < |cells| && region(cells[i].uniq) ==> cells[i].density == 0.0)
      && (r.Err? ==> r.error == EmptyOverlap)
  {
    hide Mass, Kept;
    MassPositiveIff(pi, cells, region);
    if forall i :: 0 <= i < |cells| && region(cells[i].uniq) ==> cells[i].density == 0.0 {
      forall i: nat ensures !Contributes(cells, region, i) {}
    } else {
      var i: nat :| i < |cells| && region(cells[i].uniq) && cells[i].density != 0.0;
      assert Contributes(cells, region, i);
    }
  }

  // ------------------------------------------------- rounded densities

  // x is y up to a relative error eps.
  predicate Within(x: real, y: real, eps: real) {
    Times(1.0 - eps, y) <= x <= Times(1.0 + eps, y)
  }

  predicate CloseMaps(a: seq<DensityCell>, b: seq<DensityCell>, eps: real) {
    |a| == |b| && forall i :: 0 <= i < |a| ==> a[i].uniq == b[i].uniq && Within(a[i].density, b[i].density, eps)
  }

  lemma {:induction false} KeptClose(a: seq<DensityCell>, b: seq<DensityCell>, eps: real, region: Region)
    requires CloseMaps(a, b, eps)
    ensures CloseMaps(Kept(a, region), Kept(b, region), eps)
  {
    hide Within;
    if a == [] {
    } else {
      var last := |a| - 1;
      KeptClose(a[..last], b[..last], eps, region);
    }
  }

  lemma WithinSum(x: real, y: real, u: real, v: real, eps: real)
    requires Within(x, y, eps) && Within(u, v, eps)
    ensures Within(x + u, y + v, eps)
  {
    hide Times;
    TimesDistributes(1.0 - eps, y, v);
    TimesDistributes(1.0 + eps, y, v);
  }

  lemma WithinScaled(x: real, y: real, k: real, eps: real)
    requires Within(x, y, eps) && k >= 0.0
    ensures Within(Times(x, k), Times(y, k), eps)
  {
    hide Times;
    TimesAssociates(1.0 - eps, y, k);
    TimesAssociates(1.0 + eps, y, k);
    TimesCommutes(Times(1.0 - eps, y), k);
    TimesCommutes(Times(1.0 + eps, y), k);
    TimesCommutes(x, k);
    TimesKeepsOrder(k, Times(1.0 - eps, y), x);
    TimesKeepsOrder(k, x, Times(1.0 + eps, y));
  }

  lemma {:induction false} MassClose(pi: real, a: seq<DensityCell>, b: seq<DensityCell>, eps: real)
    requires pi > 0.0 && IsPacked(a) && IsPacked(b) && CloseMaps(a, b, eps)
    ensures Within(Mass(pi, a), Mass(pi, b), eps)
  {
    hide Within, Times, CellArea;
    if a == [] {
      WithinZero(eps);
    } else {
      var last := |a| - 1;
      MassClose(pi, a[..last], b[..last], eps);
      WithinScaled(a[last].density, b[last].density, CellArea(pi, a[last].uniq), eps);
      WithinSum(Mass(pi, a[..last]), Mass(pi, b[..last]),
                Times(a[last].density, CellArea(pi, a[last].uniq)),
                Times(b[last].density, CellArea(pi, b[last].uniq)), eps);
    }
  }

  lemma WithinZero(eps: real)
    ensures Within(0.0, 0.0, eps)
  {
  }

  // Numbers within eps, divided by numbers within eps.
  lemma QuotientsClose(a: real, b: real, ma: real, mb: real, x: real, y: real, eps: real)
    requires 0.0 <= eps < 1.0 && a >= 0.0 && b >= 0.0 && ma > 0.0 && mb > 0.0 && x >= 0.0 && y >= 0.0
    requires Within(a, b, eps) && Within(ma, mb, eps) && Times(x, ma) == a && Times(y, mb) == b
    ensures Times(1.0 - eps, x) <= Times(1.0 + eps, y)
    ensures Times(1.0 - eps, y) <= Times(1.0 + eps, x)
  {
    hide Times;
    var lo, hi := 1.0 - eps, 1.0 + eps;
    // mb * lo * x <= x * ma == a <= hi * b == mb * hi * y
    Shuffle(mb, lo, x);
    Shuffle(mb, hi, y);
    Shuffle(mb, lo, y);
    Shuffle(mb, hi, x);
    TimesKeepsOrder(x, Times(lo, mb), ma);
    TimesKeepsOrder(x, ma, Times(hi, mb));
    TimesCommutes(y, mb);
    TimesCancelsOrder(mb, Times(lo, x), Times(hi, y));
    TimesCancelsOrder(mb, Times(lo, y), Times(hi, x));
  }

  lemma Shuffle(m: real, k: real, x: real)
    ensures Times(m, Times(k, x)) == Times(x, Times(k, m)) == Times(k, Times(x, m))
  {
    hide Times;
    TimesCommutes(m, Times(k, x));
    TimesAssociates(k, x, m);
    TimesCommutes(k, x);
    TimesAssociates(x, k, m);
  }

  lemma PositiveTogether(x: real, y: real, eps: real)
    requires 0.0 <= eps < 1.0 && y >= 0.0 && Within(x, y, eps)
    ensures x > 0.0 <==> y > 0.0
  {
    hide Times;
    if y > 0.0 { TimesPositive(1.0 - eps, y); } else { TimesZero(1.0 + eps); }
  }

  lemma WithinNonnegative(a: seq<DensityCell>, b: seq<DensityCell>, eps: real)
    requires 0.0 <= eps < 1.0 && IsPacked(a) && IsMap(b) && CloseMaps(a, b, eps)
    ensures IsMap(a)
  {
    hide Times;
    forall i | 0 <= i < |a| ensures a[i].density >= 0.0 {
      assert Within(a[i].density, b[i].density, eps);
      TimesKeepsOrder(1.0 - eps, 0.0, b[i].density);
      TimesZero(1.0 - eps);
    }
  }

  /** Maps whose densities agree up to a relative error combine alike: both fail or
      both succeed, on the same rows, with densities in ratio at most
      (1 + eps) / (1 - eps). */
  lemma CombinedClose(pi: real, a: seq<DensityCell>, b: seq<DensityCell>, eps: real, region: Region)
    requires pi > 0.0 && 0.0 <= eps < 1.0 && IsPacked(a) && IsMap(b) && CloseMaps(a, b, eps)
    ensures
      var x, y := Combined(pi, a, region), Combined(pi, b, region);
      && (x.Ok? <==> y.Ok?)
      && (x.Ok? ==> NearlyEqual(x.value, y.value, eps))
  {
    hide Within, Times, Mass, Kept, Scaled, NearlyEqual;
    WithinNonnegative(a, b, eps);
    KeptClose(a, b, eps, region);
    var ka, kb := Kept(a, region), Kept(b, region);
    MassClose(pi, ka, kb, eps);
    PositiveTogether(Mass(pi, ka), Mass(pi, kb), eps);
    if Mass(pi, kb) > 0.0 { RescaledClose(ka, kb, Mass(pi, ka), Mass(pi, kb), eps); }
  }

  // Same cell, densities in ratio at most (1 + eps) / (1 - eps).
  predicate NearRow(a: DensityCell, b: DensityCell, eps: real) {
    && a.uniq == b.uniq
    && Times(1.0 - eps, a.density) <= Times(1.0 + eps, b.density)
    && Times(1.0 - eps, b.density) <= Times(1.0 + eps, a.density)
  }

  predicate NearlyEqual(a: seq<DensityCell>, b: seq<DensityCell>, eps: real) {
    |a| == |b| && forall i :: 0 <= i < |a| ==> NearRow(a[i], b[i], eps)
  }

  lemma RescaledClose(ka: seq<DensityCell>, kb: seq<DensityCell>, ma: real, mb: real, eps: real)
    requires 0.0 <= eps < 1.0 && IsMap(ka) && IsMap(kb) && CloseMaps(ka, kb, eps)
    requires ma > 0.0 && mb > 0.0 && Within(ma, mb, eps)
    ensures NearlyEqual(Scaled(ka, 1.0 / ma), Scaled(kb, 1.0 / mb), eps)
  {
    hide Within, Times, Scaled;
    TimesInverse(ma);
    TimesInverse(mb);
    var x, y := Scaled(ka, 1.0 / ma), Scaled(kb, 1.0 / mb);
    forall i | 0 <= i < |ka| ensures NearRow(x[i], y[i], eps) {
      var a, b := ka[i].density, kb[i].density;
      ScaledBack(a, ma);
      ScaledBack(b, mb);
      QuotientsClose(a, b, ma, mb, Times(a, 1.0 / ma), Times(b, 1.0 / mb), eps);
    }
  }

  lemma ScaledBack(a: real, m: real)
    requires m > 0.0
    ensures Times(Times(a, 1.0 / m), m) == a
  {
    hide Times;
    TimesInverse(m);
    TimesAssociates(a, 1.0 / m, m);
    TimesCommutes(1.0 / m, m);
    TimesOne(a);
  }

  // ------------------------------------------------------ synthetic cones

  function UniformMap(uniqs: seq<U64>, density: real): seq<DensityCell> {
    seq(|uniqs|, i requires 0 <= i < |uniqs| => DensityCell(uniqs[i], density))
  }

  lemma OneMore(n: nat, d: real, a: real)
    ensures Times(n as real, Times(d, a)) + Times(d, a) == Times((n + 1) as real, Times(d, a))
  {
    assert (n + 1) as real == n as real + 1.0;
  }

  lemma {:induction false} UniformMass(pi: real, uniqs: seq<U64>, density: real, depth: nat)
    requires pi > 0.0 && density >= 0.0
    requires forall i :: 0 <= i < |uniqs| ==> uniqs[i] >= 4 && Depth(uniqs[i]) == depth
    ensures Mass(pi, UniformMap(uniqs, density)) == Times(|uniqs| as real, Times(density, AreaAt(pi, depth)))
  {
    hide Depth, AreaAt, Times;
    if uniqs == [] {
      TimesZero(Times(density, AreaAt(pi, depth)));
    } else {
      var last := |uniqs| - 1;
      UniformMass(pi, uniqs[..last], density, depth);
      assert UniformMap(uniqs, density)[..last] == UniformMap(uniqs[..last], density);
      OneMore(last, density, AreaAt(pi, depth));
    }
  }

  // `ipix + 4 * 4^depth`; it fits in 64 bits for every depth up to 30.
  function PackUniq(depth: nat, ipix: nat): (u: U64)
    requires depth <= 30 && ipix < Cells(depth)
  {
    EncodeFitsIff(depth, ipix);
    Encode(depth, ipix)
  }

  /** `build_uniform_cone_skymap`: the cells of a cone at one depth, packed as
      NUNIQ, with the density that makes the map integrate to one. */
  function ConeUniqs(pixels: seq<nat>, depth: nat): (u: seq<U64>)
    requires depth <= 30 && forall i :: 0 <= i < |pixels| ==> pixels[i] < Cells(depth)
    ensures |u| == |pixels|
  {
    seq(|pixels|, i requires 0 <= i < |pixels| => PackUniq(depth, pixels[i]))
  }

  function ConeDensity(pi: real, n: nat, depth: nat): (d: real)
    requires pi > 0.0
    ensures d > 0.0 && Times(if n == 0 then 1.0 else n as real, Times(d, AreaAt(pi, depth))) == 1.0
  {
    var count := if n == 0 then 1 else n;
    NormalizingDensity(count, AreaAt(pi, depth));
    1.0 / Times(count as real, AreaAt(pi, depth))
  }

  lemma NormalizingDensity(n: nat, a: real)
    requires n > 0 && a > 0.0
    ensures Times(n as real, a) > 0.0
    ensures var d := 1.0 / Times(n as real, a); d > 0.0 && Times(n as real, Times(d, a)) == 1.0
  {
    var x := n as real;
    assert x * a > 0.0;
    var d := 1.0 / (x * a);
    assert d * (x * a) == 1.0;
    assert x * (d * a) == d * (x * a);
  }

  /** The synthetic map has total mass one, and its rows decode to the cone's
      cells. */
  lemma SyntheticConeMassIsOne(pi: real, pixels: seq<nat>, depth: nat)
    requires pi > 0.0 && depth <= 30 && forall i :: 0 <= i < |pixels| ==> pixels[i] < Cells(depth)
    ensures
      var cells := UniformMap(ConeUniqs(pixels, depth), ConeDensity(pi, |pixels|, depth));
      && IsMap(cells)
      && Mass(pi, cells) == (if pixels == [] then 0.0 else 1.0)
      && forall i :: 0 <= i < |pixels| ==> Decode(cells[i].uniq) == (depth, pixels[i])
  {
    hide Cells, Decode, Encode, Times, AreaAt, Depth;
    var density, uniqs := ConeDensity(pi, |pixels|, depth), ConeUniqs(pixels, depth);
    forall i | 0 <= i < |pixels|
      ensures uniqs[i] >= 4 && Decode(uniqs[i]) == (depth, pixels[i]) && Depth(uniqs[i]) == depth
    {
      EncodeDecodes(depth, pixels[i]);
      DecodeStartsWithDepth(uniqs[i]);
    }
    UniformMass(pi, uniqs, density, depth);
    TimesZero(Times(density, AreaAt(pi, depth)));
  }

  lemma DecodeStartsWithDepth(uniq: U64)
    requires uniq >= 4
    ensures Decode(uniq).0 == Depth(uniq)
  {
  }
}
