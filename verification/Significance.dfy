/** Joint false-alarm rates and the empirical p-value, over the reals.

    The natural logarithm is any function with the three laws of IsLog. */
module Significance {
  import opened Wrappers
  import opened Decimal
  import opened Reals

  type Log = real -> real

  ghost predicate IsLog(ln: Log) {
    && ln(1.0) == 0.0
    && (forall x: real, y: real :: x > 0.0 && y > 0.0 ==> ln(Times(x, y)) == ln(x) + ln(y))
    && (forall x: real :: x > 0.0 ==> ln(x) <= x - 1.0)
  }

  const SECONDS_PER_YEAR := 365.25 * 24.0 * 3600.0

  // z * (1 - ln(z / m)): the chance a product of two uniform draws stays below z.
  function ProductTail(ln: Log, z: real, m: real): real
    requires m > 0.0
  {
    Times(z, 1.0 - ln(Over(z, m)))
  }

  // A rate in Hz shared over the spatial overlap, per year.
  function PerYear(rate: real, overlap: real): real
    requires overlap > 0.0
  {
    Times(SECONDS_PER_YEAR, Over(rate, overlap))
  }

  // Three rates or durations multiplied from the left.
  function Product3(a: real, b: real, c: real): real {
    Times(Times(a, b), c)
  }

  // `raven_joint_far_per_year`.
  function JointFar(window: real, rate: real, gwFar: real, overlap: real): Option<real> {
    if overlap <= 0.0 then None else Some(PerYear(Product3(window, rate, gwFar), overlap))
  }

  datatype Targeted = Targeted(farExt: real, gwThreshold: real, extThreshold: real)

  // `raven_targeted_joint_far_per_year`.
  function TargetedFar(ln: Log, window: real, opts: Targeted, gwFar: real, overlap: real): Option<real> {
    if overlap <= 0.0 then None
    else
      var z := Product3(window, opts.farExt, gwFar);
      var zMax := Product3(window, opts.extThreshold, opts.gwThreshold);
      if z <= 0.0 || zMax <= 0.0 || z >= zMax then None
      else Some(PerYear(ProductTail(ln, z, zMax), overlap))
  }

  // `far_remapped`.
  function RemappedFar(ln: Log, gwFar: real, rate: real, window: real, p: real, gwMax: real): Option<real> {
    if p <= 0.0 || gwMax <= 0.0 then None
    else
      var ratio := Over(Times(gwFar, p), gwMax);
      if ratio <= 0.0 then None
      else Some(Times(Times(Product3(gwFar, rate, window), p), 1.0 - ln(ratio)))
  }

  // ---------------------------------------------------------- logarithms

  lemma LnOfProduct(ln: Log, x: real, y: real)
    requires IsLog(ln) && x > 0.0 && y > 0.0
    ensures ln(Times(x, y)) == ln(x) + ln(y)
  {
    hide Times;
  }

  lemma LnBound(ln: Log, x: real)
    requires IsLog(ln) && x > 0.0
    ensures ln(x) <= x - 1.0
  {
    hide Times;
  }

  lemma LnOfRatio(ln: Log, a: real, b: real)
    requires IsLog(ln) && a > 0.0 && b > 0.0
    ensures ln(Over(a, b)) == ln(a) - ln(b)
  {
    hide IsLog, Times, Over;
    OverBounds(a, b);
    OverTimes(a, b);
    LnOfProduct(ln, Over(a, b), b);
  }

  // The square of the mean of 1 and s exceeds s.
  lemma MeanSquare(s: real, u: real)
    requires s != 1.0 && u == (1.0 + s) / 2.0
    ensures Times(u, u) > s
  {
    hide Times;
    var d := u - 1.0;
    SquarePositive(d);
    TimesDistributes(u, 1.0, d);
    TimesDistributes(d, 1.0, d);
    TimesOne(u);
    TimesOne(d);
    assert u == 1.0 + d;
    TimesCommutes(u, d);
  }

  // The bound ln x <= x - 1 is strict away from 1.
  lemma LnStrict(ln: Log, s: real)
    requires IsLog(ln) && s > 0.0 && s != 1.0
    ensures ln(s) < s - 1.0
  {
    hide IsLog, Times, Over;
    var u := (1.0 + s) / 2.0;
    var v := Over(s, u);
    OverBounds(s, u);
    OverTimes(s, u);
    LnOfProduct(ln, v, u);
    LnBound(ln, v);
    LnBound(ln, u);
    MeanSquare(s, u);
    TimesOrder(u, u, v);
  }

  lemma LnOrder(ln: Log, a: real, b: real)
    requires IsLog(ln) && 0.0 < a <= b
    ensures ln(a) <= ln(b)
  {
    hide IsLog, Times, Over;
    LnOfRatio(ln, a, b);
    OverBounds(a, b);
    LnBound(ln, Over(a, b));
  }

  // ------------------------------------------------------- the tail bound

  lemma TailForm(ln: Log, z: real, m: real)
    requires IsLog(ln) && z > 0.0 && m > 0.0
    ensures ProductTail(ln, z, m) == Times(z, 1.0 - ln(z) + ln(m))
  {
    hide IsLog, Times, Over;
    LnOfRatio(ln, z, m);
    assert 1.0 - ln(Over(z, m)) == 1.0 - ln(z) + ln(m);
  }

  /** Inside the sample space the tail lies strictly between z and its maximum. */
  lemma TailBounds(ln: Log, z: real, m: real)
    requires IsLog(ln) && 0.0 < z < m
    ensures z < ProductTail(ln, z, m) < m
  {
    hide IsLog, Times, Over, ProductTail;
    LogGap(ln, z, m);
    TailForm(ln, z, m);
    var gap := ln(m) - ln(z);
    assert 1.0 - ln(z) + ln(m) == 1.0 + gap;
    TimesDistributes(z, 1.0, gap);
    TimesOne(z);
    LnOfRatio(ln, z, m);
    OverBounds(z, m);
    LnStrict(ln, Over(z, m));
    TimesPositive(z, gap);
  }

  // The mean-value bounds on the logarithm.
  lemma LogGap(ln: Log, y: real, z: real)
    requires IsLog(ln) && 0.0 < y < z
    ensures Times(y, ln(z) - ln(y)) < z - y < Times(z, ln(z) - ln(y))
  {
    hide IsLog, Times, Over;
    var gap := ln(z) - ln(y);
    LogGapBelow(ln, z, y);
    LogGapBelow(ln, y, z);
    TimesDistributes(z, 0.0, gap);
    TimesZero(z);
    assert 0.0 - gap == ln(y) - ln(z);
  }

  lemma LogGapBelow(ln: Log, a: real, b: real)
    requires IsLog(ln) && a > 0.0 && b > 0.0 && a != b
    ensures Times(b, ln(a) - ln(b)) < a - b
  {
    hide IsLog, Times, Over;
    var s := Over(a, b);
    OverBounds(a, b);
    OverTimes(a, b);
    LnOfRatio(ln, a, b);
    LnStrict(ln, s);
    TimesOrder(b, ln(a) - ln(b), s - 1.0);
    TimesDistributes(b, s, 1.0);
    TimesOne(b);
  }

  // Slope of the tail between two arguments, given the logarithms involved.
  lemma TailSlope(y: real, z: real, ly: real, lz: real, lm: real)
    requires y < z && Times(y, lz - ly) < z - y < Times(z, lz - ly)
    ensures lz <= lm ==> Times(y, 1.0 - ly + lm) < Times(z, 1.0 - lz + lm)
    ensures lm <= ly ==> Times(y, 1.0 - ly + lm) > Times(z, 1.0 - lz + lm)
  {
    hide Times;
    var a, b := 1.0 - ly + lm, 1.0 - lz + lm;
    assert a == b + (lz - ly);
    TimesDistributes(y, b, lz - ly);
    TimesDistributes(a, z, y);
    TimesDistributes(b, z, y);
    TimesCommutes(y, b);
    TimesCommutes(z, b);
    TimesCommutes(y, a);
    TimesCommutes(z, a);
    assert b == a - (lz - ly);
    TimesDistributes(z, a, lz - ly);
    TimesOne(z - y);
    TimesCommutes(z - y, a);
    TimesCommutes(z - y, b);
    if lz <= lm { TimesOrder(z - y, 1.0, b); }
    if lm <= ly { TimesOrder(z - y, a, 1.0); }
  }

  /** The tail strictly increases up to its maximum argument and strictly
      decreases past it. */
  lemma TailMonotone(ln: Log, y: real, z: real, m: real)
    requires IsLog(ln) && 0.0 < y < z && m > 0.0
    ensures z <= m ==> ProductTail(ln, y, m) < ProductTail(ln, z, m)
    ensures m <= y ==> ProductTail(ln, y, m) > ProductTail(ln, z, m)
  {
    hide IsLog, ProductTail, Times;
    TailForm(ln, y, m);
    TailForm(ln, z, m);
    LogGap(ln, y, z);
    TailSlope(y, z, ln(y), ln(z), ln(m));
    if z <= m { LnOrder(ln, z, m); }
    if m <= y { LnOrder(ln, m, y); }
  }

  lemma TailAtMost(ln: Log, z: real, m: real)
    requires IsLog(ln) && 0.0 < z <= m
    ensures ProductTail(ln, z, m) <= m
  {
    hide Times, Over;
    if z < m {
      TailBounds(ln, z, m);
    } else {
      OverBounds(z, m);
      TimesOne(z);
    }
  }

  // -------------------------------------------------------- targeted FAR

  lemma PerYearOrder(a: real, b: real, overlap: real)
    requires a < b && overlap > 0.0
    ensures PerYear(a, overlap) < PerYear(b, overlap)
  {
    hide Times, Over;
    OverOrder(a, b, overlap);
    TimesOrder(SECONDS_PER_YEAR, Over(a, overlap), Over(b, overlap));
  }

  /** The untargeted rate exists exactly for a positive overlap; times the overlap
      it is the yearly number of chance coincidences in time, so it scales
      inversely with the overlap. */
  lemma JointFarTimesOverlap(window: real, rate: real, gwFar: real, overlap: real, scale: real)
    requires scale > 0.0
    ensures
      var r, scaled := JointFar(window, rate, gwFar, overlap), JointFar(window, rate, gwFar, Times(scale, overlap));
      && (r.Some? <==> overlap > 0.0)
      && (r.Some? ==> Times(r.value, overlap) == Times(SECONDS_PER_YEAR, Product3(window, rate, gwFar)))
      && (r.Some? ==> scaled.Some? && Times(scale, scaled.value) == r.value)
  {
    hide Times, Over, Product3;
    if overlap > 0.0 {
      var x := Product3(window, rate, gwFar);
      TimesPositive(scale, overlap);
      OverTimes(x, overlap);
      TimesAssociates(SECONDS_PER_YEAR, Over(x, overlap), overlap);
      OverScales(x, overlap, scale);
      var y := Over(x, Times(scale, overlap));
      TimesAssociates(scale, SECONDS_PER_YEAR, y);
      TimesCommutes(scale, SECONDS_PER_YEAR);
      TimesAssociates(SECONDS_PER_YEAR, scale, y);
    }
  }

  /** In figures: coincidences in time per year of 365.25 days, over the overlap. */
  lemma JointFarInFigures(window: real, rate: real, gwFar: real, overlap: real)
    ensures
      var r := JointFar(window, rate, gwFar, overlap);
      if overlap > 0.0 then r.Some? && r.value * overlap == 31557600.0 * (window * rate * gwFar) else r.None?
  {
    hide PerYear;
    if overlap > 0.0 {
      JointFarTimesOverlap(window, rate, gwFar, overlap, 1.0);
      assert SECONDS_PER_YEAR == 31557600.0;
      assert Product3(window, rate, gwFar) == window * rate * gwFar;
    }
  }

  lemma OverScales(x: real, b: real, scale: real)
    requires b > 0.0 && scale > 0.0 && Times(scale, b) > 0.0
    ensures Times(scale, Over(x, Times(scale, b))) == Over(x, b)
  {
    hide Times, Over;
    var sb := Times(scale, b);
    var y := Over(x, sb);
    OverTimes(x, sb);
    OverTimes(x, b);
    TimesAssociates(y, scale, b);
    TimesCommutes(y, scale);
    TimesCancels(Times(scale, y), Over(x, b), b);
  }

  lemma TimesCancels(a: real, c: real, b: real)
    requires b > 0.0 && Times(a, b) == Times(c, b)
    ensures a == c
  {
    hide Times;
    TimesCommutes(a, b);
    TimesCommutes(c, b);
    TimesOrder(b, a, c);
    TimesOrder(b, c, a);
  }

  /** A targeted joint FAR exists exactly inside the sample space.  It is then
      strictly above the untargeted one, whose temporal part is z, and strictly
      below the one z_max would give. */
  lemma TargetedFarBounds(ln: Log, window: real, opts: Targeted, gwFar: real, overlap: real)
    requires IsLog(ln)
    ensures
      var z, zMax := Product3(window, opts.farExt, gwFar), Product3(window, opts.extThreshold, opts.gwThreshold);
      var r := TargetedFar(ln, window, opts, gwFar, overlap);
      && (r.Some? <==> overlap > 0.0 && 0.0 < z < zMax)
      && (r.Some? ==> PerYear(z, overlap) < r.value < PerYear(zMax, overlap))
      && (r.Some? ==> JointFar(window, opts.farExt, gwFar, overlap) == Some(PerYear(z, overlap)))
  {
    hide ProductTail, IsLog, PerYear, Product3;
    var z := Product3(window, opts.farExt, gwFar);
    var zMax := Product3(window, opts.extThreshold, opts.gwThreshold);
    if overlap > 0.0 && 0.0 < z < zMax {
      TailBounds(ln, z, zMax);
      PerYearOrder(z, ProductTail(ln, z, zMax), overlap);
      PerYearOrder(ProductTail(ln, z, zMax), zMax, overlap);
    }
  }

  /** In figures: z times one plus the logarithm of z_max over z, per year of 365.25
      days, over the overlap. */
  lemma TargetedFarInFigures(ln: Log, window: real, opts: Targeted, gwFar: real, overlap: real)
    requires IsLog(ln) && TargetedFar(ln, window, opts, gwFar, overlap).Some?
    ensures
      var z, zMax := window * opts.farExt * gwFar, window * opts.extThreshold * opts.gwThreshold;
      && 0.0 < z < zMax && overlap > 0.0
      && TargetedFar(ln, window, opts, gwFar, overlap).value * overlap == 31557600.0 * (z * (1.0 - ln(z) + ln(zMax)))
  {
    hide IsLog, Times, Over, ProductTail, PerYear, Product3;
    var z, zMax := Product3(window, opts.farExt, gwFar), Product3(window, opts.extThreshold, opts.gwThreshold);
    Product3Is(window, opts.farExt, gwFar);
    Product3Is(window, opts.extThreshold, opts.gwThreshold);
    TailForm(ln, z, zMax);
    TimesAre(z, 1.0 - ln(z) + ln(zMax));
    PerYearTimes(ProductTail(ln, z, zMax), overlap);
  }

  lemma PerYearTimes(x: real, overlap: real)
    requires overlap > 0.0
    ensures PerYear(x, overlap) * overlap == 31557600.0 * x
  {
    hide Times, Over;
    OverTimes(x, overlap);
    TimesAssociates(SECONDS_PER_YEAR, Over(x, overlap), overlap);
    TimesAre(PerYear(x, overlap), overlap);
    TimesAre(SECONDS_PER_YEAR, x);
  }

  lemma Product3Is(a: real, b: real, c: real)
    ensures Product3(a, b, c) == a * b * c
  {
  }

  lemma TimesAre(a: real, b: real)
    ensures Times(a, b) == a * b
  {
  }

  /** A less significant GW candidate has a strictly larger targeted FAR. */
  lemma TargetedFarIncreases(ln: Log, window: real, opts: Targeted, low: real, high: real, overlap: real)
    requires IsLog(ln) && window > 0.0 && opts.farExt > 0.0 && low < high
    requires TargetedFar(ln, window, opts, low, overlap).Some? && TargetedFar(ln, window, opts, high, overlap).Some?
    ensures TargetedFar(ln, window, opts, low, overlap).value < TargetedFar(ln, window, opts, high, overlap).value
  {
    hide ProductTail, IsLog, PerYear, Product3;
    var m := Product3(window, opts.extThreshold, opts.gwThreshold);
    ProductOrder(window, opts.farExt, low, high);
    var y, z := Product3(window, opts.farExt, low), Product3(window, opts.farExt, high);
    TailMonotone(ln, y, z, m);
    PerYearOrder(ProductTail(ln, y, m), ProductTail(ln, z, m), overlap);
  }

  lemma ProductOrder(a: real, b: real, low: real, high: real)
    requires a > 0.0 && b > 0.0 && low < high
    ensures Product3(a, b, low) < Product3(a, b, high)
  {
    hide Times;
    TimesPositive(a, b);
    TimesOrder(Times(a, b), low, high);
  }

  // -------------------------------------------------------- remapped FAR

  lemma Regroup(far: real, rate: real, window: real, p: real, t: real)
    ensures Times(Times(Product3(far, rate, window), p), t) == Times(Times(rate, window), Times(Times(far, p), t))
  {
    hide Times;
    var k := Times(rate, window);
    TimesAssociates(far, rate, window);
    TimesCommutes(far, k);
    TimesAssociates(k, far, p);
    TimesAssociates(k, Times(far, p), t);
  }

  lemma RemappedIsTail(ln: Log, gwFar: real, rate: real, window: real, p: real, gwMax: real)
    requires p > 0.0 && gwMax > 0.0 && gwFar > 0.0
    ensures RemappedFar(ln, gwFar, rate, window, p, gwMax)
         == Some(Times(Times(rate, window), ProductTail(ln, Times(gwFar, p), gwMax)))
  {
    hide Times, Over, Product3;
    TimesPositive(gwFar, p);
    OverBounds(Times(gwFar, p), gwMax);
    Regroup(gwFar, rate, window, p, 1.0 - ln(Over(Times(gwFar, p), gwMax)));
  }

  /** The remapped FAR sees the GW FAR and the p-value only through their
      product. */
  lemma RemappedDependsOnProduct(ln: Log, far1: real, p1: real, far2: real, p2: real, rate: real, window: real,
      gwMax: real)
    requires p1 > 0.0 && p2 > 0.0 && far1 > 0.0 && far2 > 0.0 && gwMax > 0.0
    requires Times(far1, p1) == Times(far2, p2)
    ensures RemappedFar(ln, far1, rate, window, p1, gwMax) == RemappedFar(ln, far2, rate, window, p2, gwMax)
  {
    hide RemappedFar, ProductTail, Times;
    RemappedIsTail(ln, far1, rate, window, p1, gwMax);
    RemappedIsTail(ln, far2, rate, window, p2, gwMax);
  }

  /** The remapped rate exists for a positive p-value, maximum and GW rate, and for no
      other. */
  lemma RemappedExistsIff(ln: Log, gwFar: real, rate: real, window: real, p: real, gwMax: real)
    ensures RemappedFar(ln, gwFar, rate, window, p, gwMax).Some? <==> p > 0.0 && gwMax > 0.0 && gwFar > 0.0
  {
    hide Times, Over;
    if p > 0.0 && gwMax > 0.0 {
      var x := Times(gwFar, p);
      TimesOrder(p, gwFar, 0.0);
      TimesOrder(p, 0.0, gwFar);
      TimesCommutes(p, gwFar);
      TimesZero(p);
      OverOrder(x, 0.0, gwMax);
      OverOrder(0.0, x, gwMax);
      NothingOver(gwMax);
    }
  }

  lemma NothingOver(m: real)
    requires m > 0.0
    ensures Over(0.0, m) == 0.0
  {
  }

  /** In figures: rate times p-value, with the tail correction, where the product is
      at its maximum and the logarithm is therefore zero. */
  lemma RemappedAtMaximum(ln: Log, gwFar: real, rate: real, window: real, p: real)
    requires IsLog(ln) && p > 0.0 && gwFar > 0.0
    ensures RemappedFar(ln, gwFar, rate, window, p, Times(gwFar, p)) == Some(gwFar * rate * window * p)
  {
    hide Times, Over, Product3, IsLog;
    var m := Times(gwFar, p);
    TimesPositive(gwFar, p);
    OverBounds(m, m);
    LnOfOne(ln);
    assert 1.0 - ln(Over(m, m)) == 1.0;
    TimesOne(Times(Product3(gwFar, rate, window), p));
    FourFactors(gwFar, rate, window, p);
  }

  lemma LnOfOne(ln: Log)
    requires IsLog(ln)
    ensures ln(1.0) == 0.0
  {
  }

  lemma FourFactors(a: real, b: real, c: real, d: real)
    ensures Times(Product3(a, b, c), d) == a * b * c * d
  {
  }

  /** Ordered by that product while it stays within the maximum, and bounded by
      rate * window * maximum; past the maximum the order is reversed. */
  lemma RemappedOrder(ln: Log, far1: real, p1: real, far2: real, p2: real, rate: real, window: real, gwMax: real)
    requires IsLog(ln) && rate > 0.0 && window > 0.0 && gwMax > 0.0
    requires p1 > 0.0 && p2 > 0.0 && far1 > 0.0 && far2 > 0.0 && Times(far1, p1) < Times(far2, p2)
    ensures
      var r1, r2 := RemappedFar(ln, far1, rate, window, p1, gwMax), RemappedFar(ln, far2, rate, window, p2, gwMax);
      && r1.Some? && r2.Some?
      && (Times(far2, p2) <= gwMax ==> r1.value < r2.value <= Product3(rate, window, gwMax))
      && (gwMax <= Times(far1, p1) ==> r1.value > r2.value)
  {
    hide ProductTail, IsLog, RemappedFar, Times;
    RemappedIsTail(ln, far1, rate, window, p1, gwMax);
    RemappedIsTail(ln, far2, rate, window, p2, gwMax);
    TimesPositive(far1, p1);
    TimesPositive(rate, window);
    ScaledTailOrder(ln, Times(far1, p1), Times(far2, p2), Times(rate, window), gwMax);
  }

  lemma ScaledTailOrder(ln: Log, x: real, y: real, k: real, m: real)
    requires IsLog(ln) && 0.0 < x < y && k > 0.0 && m > 0.0
    ensures y <= m ==> Times(k, ProductTail(ln, x, m)) < Times(k, ProductTail(ln, y, m)) <= Times(k, m)
    ensures m <= x ==> Times(k, ProductTail(ln, x, m)) > Times(k, ProductTail(ln, y, m))
  {
    hide ProductTail, IsLog, Times;
    var tx, ty := ProductTail(ln, x, m), ProductTail(ln, y, m);
    TailMonotone(ln, x, y, m);
    TimesOrder(k, tx, ty);
    TimesOrder(k, ty, tx);
    if y <= m {
      TailAtMost(ln, y, m);
      TimesOrder(k, ty, m);
    }
  }

  /** Nothing guards the other side: the remapped "rate" is negative exactly when
      the logarithm of product over maximum exceeds 1, so always from eight times
      the maximum on, and never up to the maximum. */
  lemma RemappedIsNegativeIff(ln: Log, gwFar: real, p: real, rate: real, window: real, gwMax: real)
    requires IsLog(ln) && rate > 0.0 && window > 0.0 && gwMax > 0.0 && gwFar > 0.0 && p > 0.0
    ensures
      var r := RemappedFar(ln, gwFar, rate, window, p, gwMax);
      && r.Some?
      && (r.value < 0.0 <==> ln(Over(Times(gwFar, p), gwMax)) > 1.0)
      && (Times(gwFar, p) >= Times(8.0, gwMax) ==> r.value < 0.0)
      && (Times(gwFar, p) <= gwMax ==> r.value > 0.0)
  {
    hide IsLog, RemappedFar, Times, Over;
    var x, k := Times(gwFar, p), Times(rate, window);
    RemappedIsTail(ln, gwFar, rate, window, p, gwMax);
    TimesPositive(gwFar, p);
    TimesPositive(rate, window);
    SignOfTail(k, x, 1.0 - ln(Over(x, gwMax)));
    LnOfRatio(ln, x, gwMax);
    TimesPositive(8.0, gwMax);
    LnOfEight(ln);
    LnOfProduct(ln, 8.0, gwMax);
    if x >= Times(8.0, gwMax) { LnOrder(ln, Times(8.0, gwMax), x); }
    if x <= gwMax { LnOrder(ln, x, gwMax); }
  }

  lemma LnStrictOrder(ln: Log, a: real, b: real)
    requires IsLog(ln) && 0.0 < a < b
    ensures ln(a) < ln(b)
  {
    hide IsLog, Times, Over;
    LnOfRatio(ln, a, b);
    OverBounds(a, b);
    LnStrict(ln, Over(a, b));
  }

  /** In plain terms: negative exactly when the product of GW rate and p-value
      exceeds e times the maximum rate. */
  lemma RemappedIsNegativePastE(ln: Log, gwFar: real, p: real, rate: real, window: real, gwMax: real, e: real)
    requires IsLog(ln) && rate > 0.0 && window > 0.0 && gwMax > 0.0 && gwFar > 0.0 && p > 0.0
    requires e > 0.0 && ln(e) == 1.0
    ensures
      var r := RemappedFar(ln, gwFar, rate, window, p, gwMax);
      r.Some? && (r.value < 0.0 <==> Times(gwFar, p) > Times(e, gwMax))
  {
    hide IsLog, RemappedFar, Times, Over;
    var x, m := Times(gwFar, p), Times(e, gwMax);
    RemappedIsNegativeIff(ln, gwFar, p, rate, window, gwMax);
    TimesPositive(gwFar, p);
    TimesPositive(e, gwMax);
    LnOfRatio(ln, x, gwMax);
    LnOfProduct(ln, e, gwMax);
    if x > m { LnStrictOrder(ln, m, x); } else { LnOrder(ln, x, m); }
  }

  lemma SignOfTail(k: real, x: real, t: real)
    requires k > 0.0 && x > 0.0
    ensures Times(k, Times(x, t)) < 0.0 <==> t < 0.0
    ensures Times(k, Times(x, t)) > 0.0 <==> t > 0.0
  {
    hide Times;
    TimesZero(k);
    TimesZero(x);
    TimesOrder(x, t, 0.0);
    TimesOrder(x, 0.0, t);
    TimesOrder(k, Times(x, t), 0.0);
    TimesOrder(k, 0.0, Times(x, t));
  }

  lemma LnOfEight(ln: Log)
    requires IsLog(ln)
    ensures ln(8.0) > 1.0
  {
    assert Times(2.0, 0.5) == 1.0 && Times(2.0, 2.0) == 4.0 && Times(4.0, 2.0) == 8.0;
    LnBound(ln, 0.5);
    LnOfProduct(ln, 2.0, 0.5);
    LnOfProduct(ln, 2.0, 2.0);
    LnOfProduct(ln, 4.0, 2.0);
  }

  // --------------------------------------------------- empirical p-value

  // Seed of trial i: the base seed plus i, wrapping at 64 bits.
  function TrialSeed(base: U64, i: nat): U64 {
    (base + i) % U64_LIMIT
  }

  // The overlap area each trial finds, as a function of its seed.
  function TrialAreas(area: U64 -> real, base: U64, trials: nat): (a: seq<real>)
    ensures |a| == trials
  {
    seq(trials, i requires 0 <= i < trials => area(TrialSeed(base, i)))
  }

  // How many of the areas meet or exceed the observed one.
  function CountAtLeast(areas: seq<real>, observed: real): (n: nat)
    ensures n <= |areas|
  {
    if areas == [] then 0
    else CountAtLeast(areas[..|areas| - 1], observed) + if areas[|areas| - 1] >= observed then 1 else 0
  }

  // The plus-one estimator.
  function EmpiricalPvalue(areas: seq<real>, observed: real): (p: real)
  {
    (CountAtLeast(areas, observed) + 1) as real / (|areas| + 1) as real
  }

  /** The p-value is bounded away from 0, at most 1, equal to 1 exactly when every
      trial ties or beats the observation, and never grows with the observation. */
  lemma PvalueBounds(areas: seq<real>, observed: real, larger: real)
    requires observed <= larger
    ensures 1.0 / (|areas| + 1) as real <= EmpiricalPvalue(areas, observed) <= 1.0
    ensures EmpiricalPvalue(areas, observed) == 1.0 <==> forall i :: 0 <= i < |areas| ==> areas[i] >= observed
    ensures EmpiricalPvalue(areas, larger) <= EmpiricalPvalue(areas, observed)
  {
    CountIsAll(areas, observed);
    CountShrinks(areas, observed, larger);
    var n := (|areas| + 1) as real;
    assert n > 0.0;
    QuotientOrder(1.0, (CountAtLeast(areas, observed) + 1) as real, n);
    QuotientOrder((CountAtLeast(areas, observed) + 1) as real, n, n);
    QuotientOrder((CountAtLeast(areas, larger) + 1) as real, (CountAtLeast(areas, observed) + 1) as real, n);
  }

  lemma QuotientOrder(a: real, b: real, n: real)
    requires a <= b && n > 0.0
    ensures a / n <= b / n && n / n == 1.0 && (a / n == 1.0 <==> a == n)
  {
    assert a / n == 1.0 ==> a == 1.0 * n;
  }

  lemma {:induction false} CountIsAll(areas: seq<real>, observed: real)
    ensures CountAtLeast(areas, observed) == |areas| <==> forall i :: 0 <= i < |areas| ==> areas[i] >= observed
  {
    if areas == [] {
    } else {
      CountIsAll(areas[..|areas| - 1], observed);
    }
  }

  lemma {:induction false} CountShrinks(areas: seq<real>, observed: real, larger: real)
    requires observed <= larger
    ensures CountAtLeast(areas, larger) <= CountAtLeast(areas, observed)
  {
    if areas == [] {
    } else {
      CountShrinks(areas[..|areas| - 1], observed, larger);
    }
  }

  datatype PvalueError = InvalidRange

  // `empirical_pvalue`: the cone radius is checked, the seed defaults to 42.
  function RunEmpiricalPvalue(area: U64 -> real, radius: real, observed: real, trials: nat, seed: Option<U64>)
    : Result<real, PvalueError>
  {
    if radius <= 0.0 then Err(InvalidRange)
    else Ok(EmpiricalPvalue(TrialAreas(area, if seed.Some? then seed.value else 42, trials), observed))
  }

  /** The estimate fails exactly for a radius that is not positive; otherwise it lies
      between 1 / (trials + 1) and 1, so its logarithm exists. */
  lemma RunIsBounded(area: U64 -> real, radius: real, observed: real, trials: nat, seed: Option<U64>)
    ensures
      var r := RunEmpiricalPvalue(area, radius, observed, trials, seed);
      && (r.Err? <==> radius <= 0.0)
      && (r.Ok? ==> 1.0 / (trials + 1) as real <= r.value <= 1.0)
  {
    hide EmpiricalPvalue, TrialAreas;
    if radius > 0.0 {
      PvalueBounds(TrialAreas(area, if seed.Some? then seed.value else 42, trials), observed, observed);
    }
  }

  // Trial i, seeded with the base seed plus i modulo 2^64, covers at least as much.
  predicate TrialBeats(area: U64 -> real, base: U64, i: nat, observed: real) {
    area((base + i) % 0x1_0000_0000_0000_0000) >= observed
  }

  /** The estimate in full: one more than the number of seeds, counted up from the
      base seed (42 unless given) with wrap-around at 64 bits, whose overlap is at
      least the observed one, over one more than the number of trials. */
  lemma RunCountsSeeds(area: U64 -> real, radius: real, observed: real, trials: nat, seed: Option<U64>)
    requires radius > 0.0
    ensures
      var base := if seed.Some? then seed.value else 42;
      var r := RunEmpiricalPvalue(area, radius, observed, trials, seed);
      r.Ok? && r.value * (trials + 1) as real
        == (|set i: nat | i < trials && TrialBeats(area, base, i, observed)| + 1) as real
  {
    hide TrialBeats;
    var base := if seed.Some? then seed.value else 42;
    var areas := TrialAreas(area, base, trials);
    TrialsAre(area, base, trials, observed);
    CountIsCardinality(areas, observed);
    assert (set i: nat | i < |areas| && areas[i] >= observed)
        == set i: nat | i < trials && TrialBeats(area, base, i, observed);
    QuotientBack((CountAtLeast(areas, observed) + 1) as real, (trials + 1) as real);
  }

  lemma TrialsAre(area: U64 -> real, base: U64, trials: nat, observed: real)
    ensures
      var areas := TrialAreas(area, base, trials);
      forall i: nat :: i < trials ==> (areas[i] >= observed <==> TrialBeats(area, base, i, observed))
  {
    var areas := TrialAreas(area, base, trials);
    forall i: nat | i < trials ensures areas[i] >= observed <==> TrialBeats(area, base, i, observed) {
      assert areas[i] == area(TrialSeed(base, i));
    }
  }

  lemma QuotientBack(a: real, n: real)
    requires n > 0.0
    ensures (a / n) * n == a
  {
  }

  /** Each trial draws from a generator of its own: no two of the first 2^64
      trials share a seed, whatever the base seed. */
  lemma TrialSeedsAreDistinct(base: U64, i: nat, j: nat)
    requires i < j < U64_LIMIT
    ensures TrialSeed(base, i) != TrialSeed(base, j)
  {
    var q := (base + j) / U64_LIMIT - (base + i) / U64_LIMIT;
    assert j - i == q * U64_LIMIT + TrialSeed(base, j) - TrialSeed(base, i);
  }

  // The indices whose area meets or exceeds that of index i.
  function AtLeast(areas: seq<real>, i: nat): set<nat>
    requires i < |areas|
  {
    set j: nat | j < |areas| && areas[j] >= areas[i]
  }

  // The plus-one count when index i plays the observation and the others the trials.
  function Rank(areas: seq<real>, i: nat): nat
    requires i < |areas|
  {
    CountAtLeast(areas[..i] + areas[i + 1..], areas[i]) + 1
  }

  lemma {:induction false} CountIsCardinality(areas: seq<real>, observed: real)
    ensures CountAtLeast(areas, observed) == |set j: nat | j < |areas| && areas[j] >= observed|
  {
    var all := set j: nat | j < |areas| && areas[j] >= observed;
    if areas != [] {
      var last := |areas| - 1;
      CountIsCardinality(areas[..last], observed);
      var init := set j: nat | j < last && areas[..last][j] >= observed;
      assert all == if areas[last] >= observed then init + {last} else init;
    } else {
      assert all == {};
    }
  }

  lemma {:induction false} CountConcat(a: seq<real>, b: seq<real>, observed: real)
    ensures CountAtLeast(a + b, observed) == CountAtLeast(a, observed) + CountAtLeast(b, observed)
  {
    if b == [] {
      assert a + b == a;
    } else {
      CountConcat(a, b[..|b| - 1], observed);
      assert (a + b)[..|a + b| - 1] == a + b[..|b| - 1];
    }
  }

  lemma RankIsCardinality(areas: seq<real>, i: nat)
    requires i < |areas|
    ensures Rank(areas, i) == |AtLeast(areas, i)|
  {
    var x := areas[i];
    CountConcat(areas[..i], areas[i + 1..], x);
    CountConcat(areas[..i], [x], x);
    CountConcat(areas[..i] + [x], areas[i + 1..], x);
    assert areas == areas[..i] + [x] + areas[i + 1..];
    assert [x][..0] == [];
    CountIsCardinality(areas, x);
  }

  // The least area among some of the indices.
  lemma {:induction false} LeastArea(areas: seq<real>, s: set<nat>) returns (m: nat)
    requires s != {} && forall i :: i in s ==> i < |areas|
    ensures m in s && forall i :: i in s ==> areas[m] <= areas[i]
    decreases s
  {
    m :| m in s;
    var rest := s - {m};
    assert forall i :: i in s ==> i == m || i in rest;
    if rest != {} {
      var k := LeastArea(areas, rest);
      if areas[k] < areas[m] { m := k; }
    } else {
      assert forall i :: i in s ==> i == m;
    }
  }

  // Subsets are no larger.
  lemma {:induction false} SubsetSize(a: set<nat>, b: set<nat>)
    requires a <= b
    ensures |a| <= |b|
    decreases a
  {
    if a == {} {
    } else {
      var x :| x in a;
      SubsetSize(a - {x}, b - {x});
    }
  }

  // The p-value when index i plays the observation and the others the trials.
  function PvalueOf(areas: seq<real>, i: nat): real
    requires i < |areas|
  {
    EmpiricalPvalue(areas[..i] + areas[i + 1..], areas[i])
  }

  lemma PvalueIsRank(areas: seq<real>, i: nat, k: nat)
    requires i < |areas|
    ensures PvalueOf(areas, i) <= k as real / |areas| as real <==> Rank(areas, i) <= k
  {
    var n := |areas| as real;
    if Rank(areas, i) <= k {
      QuotientOrder(Rank(areas, i) as real, k as real, n);
    } else {
      StrictQuotient(k as real, Rank(areas, i) as real, n);
    }
  }

  lemma StrictQuotient(a: real, b: real, n: real)
    requires a < b && n > 0.0
    ensures a / n < b / n
  {
  }

  /** Why the estimator adds one: among n areas that could each have been the
      observed one, at most k get a p-value of k/n or less, ties included.  An
      exchangeable observation has p-value at most k/n with chance at most k/n. */
  lemma PlusOneIsConservative(areas: seq<real>, k: nat)
    requires areas != []
    ensures |set i: nat | i < |areas| && PvalueOf(areas, i) <= k as real / |areas| as real| <= k
  {
    var low := set i: nat | i < |areas| && PvalueOf(areas, i) <= k as real / |areas| as real;
    forall i: nat | i < |areas| ensures i in low <==> Rank(areas, i) <= k {
      PvalueIsRank(areas, i, k);
    }
    if low != {} {
      var m := LeastArea(areas, low);
      RankIsCardinality(areas, m);
      assert low <= AtLeast(areas, m);
      SubsetSize(low, AtLeast(areas, m));
    }
  }
}
