/** Products and quotients of reals, one law at a time. */
module Reals {
  /** A product kept behind a name, so that each step uses only the law it states. */
  function Times(a: real, b: real): real { a * b }

  lemma TimesIs(a: real, b: real)
    ensures Times(a, b) == a * b
  {}

  lemma TimesNext(a: real, q: real)
    ensures Times(a + 1.0, q) == Times(a, q) + q
  {}

  lemma TimesScaled(a: real, c: real, q: real)
    ensures Times(a * c, q) == Times(a, q) * c
  {}

  lemma TimesLess(a: real, b: real, q: real)
    requires a < b && q > 0.0
    ensures Times(a, q) < Times(b, q)
  {}

  lemma TimesAtMost(a: real, b: real, q: real)
    requires a <= b && q >= 0.0
    ensures Times(a, q) <= Times(b, q) && Times(q, a) <= Times(q, b)
  {}

  lemma TimesQuotient(a: real, q: real)
    requires q > 0.0
    ensures Times(a / q, q) == a
  {
    assert a / q * q == a;
  }

  lemma TimesOne(a: real)
    ensures Times(a, 1.0) == Times(1.0, a) == a && Times(0.0, a) == Times(a, 0.0) == 0.0
  {}

  lemma NonNegativeProduct(a: real, b: real)
    requires a >= 0.0 && b >= 0.0
    ensures a * b >= 0.0
  {
    hide Times;
    TimesAtMost(0.0, a, b);
    TimesOne(b);
    TimesIs(a, b);
  }

  /** A part of a whole. */
  lemma FractionRange(a: real, b: real)
    requires 0.0 <= a <= b && b > 0.0
    ensures 0.0 <= a / b <= 1.0 && (a / b == 0.0 <==> a == 0.0) && (a / b == 1.0 <==> a == b)
  {
    hide Times;
    var q := a / b;
    TimesQuotient(a, b);
    TimesOne(b);
    if q < 0.0 { TimesLess(q, 0.0, b); }
    if q > 1.0 { TimesLess(1.0, q, b); }
  }

  lemma QuotientNonNegative(a: real, b: real)
    requires a >= 0.0 && b > 0.0
    ensures a / b >= 0.0
  {
    hide Times;
    TimesQuotient(a, b);
    TimesOne(b);
    if a / b < 0.0 { TimesLess(a / b, 0.0, b); }
  }
}
