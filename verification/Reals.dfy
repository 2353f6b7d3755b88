/** Products and quotients of reals under their own names, so that a proof can
    use just the laws it needs. */
module Reals {
  function Times(a: real, b: real): (r: real)
    ensures a >= 0.0 && b >= 0.0 ==> r >= 0.0
  {
    a * b
  }

  function Over(a: real, b: real): real
    requires b != 0.0
  {
    a / b
  }

  lemma TimesZero(s: real)
    ensures Times(0.0, s) == 0.0 == Times(s, 0.0)
  {
  }

  lemma TimesOne(s: real)
    ensures Times(1.0, s) == s == Times(s, 1.0)
  {
  }

  lemma TimesAssociates(a: real, b: real, c: real)
    ensures Times(Times(a, b), c) == Times(a, Times(b, c))
  {
  }

  lemma TimesCommutes(a: real, b: real)
    ensures Times(a, b) == Times(b, a)
  {
  }

  lemma TimesDistributes(a: real, b: real, c: real)
    ensures Times(a, b + c) == Times(a, b) + Times(a, c)
    ensures Times(a, b - c) == Times(a, b) - Times(a, c)
    ensures Times(b + c, a) == Times(b, a) + Times(c, a)
    ensures Times(b - c, a) == Times(b, a) - Times(c, a)
  {
  }

  lemma TimesPositive(a: real, b: real)
    requires a > 0.0 && b > 0.0
    ensures Times(a, b) > 0.0
  {
  }

  // Scaling by a positive factor keeps order.
  lemma TimesOrder(k: real, a: real, b: real)
    requires k > 0.0
    ensures a < b ==> Times(k, a) < Times(k, b)
    ensures a <= b ==> Times(k, a) <= Times(k, b)
  {
    if a < b {
      TimesPositive(k, b - a);
      TimesDistributes(k, b, a);
    }
  }

  // Nonnegative factors keep weak order.
  lemma TimesKeepsOrder(k: real, a: real, b: real)
    requires k >= 0.0 && a <= b
    ensures Times(k, a) <= Times(k, b)
  {
    hide Times;
    if k > 0.0 {
      TimesOrder(k, a, b);
    } else {
      TimesZero(a);
      TimesZero(b);
    }
  }

  lemma TimesCancelsOrder(k: real, a: real, b: real)
    requires k > 0.0 && Times(k, a) <= Times(k, b)
    ensures a <= b
  {
    hide Times;
    TimesOrder(k, b, a);
  }

  lemma SquarePositive(a: real)
    requires a != 0.0
    ensures Times(a, a) > 0.0
  {
    assert Times(a, a) == Times(-a, -a);
    if a > 0.0 { TimesPositive(a, a); } else { TimesPositive(-a, -a); }
  }

  lemma OverTimes(a: real, b: real)
    requires b != 0.0
    ensures Times(Over(a, b), b) == a == Times(b, Over(a, b))
  {
  }

  lemma OverBounds(a: real, b: real)
    requires a > 0.0 && b > 0.0
    ensures Over(a, b) > 0.0
    ensures a < b ==> Over(a, b) < 1.0
    ensures a > b ==> Over(a, b) > 1.0
    ensures a == b ==> Over(a, b) == 1.0
  {
    hide Times, Over;
    var q := Over(a, b);
    OverTimes(a, b);
    TimesOne(b);
    TimesZero(b);
    TimesOrder(b, q, 0.0);
    TimesOrder(b, q, 1.0);
    TimesOrder(b, 1.0, q);
  }

  lemma OverOrder(a: real, b: real, n: real)
    requires n > 0.0
    ensures a < b ==> Over(a, n) < Over(b, n)
    ensures a <= b ==> Over(a, n) <= Over(b, n)
  {
  }

  lemma TimesInverse(m: real)
    requires m > 0.0
    ensures 1.0 / m > 0.0 && Times(m, 1.0 / m) == 1.0
  {
  }
}
