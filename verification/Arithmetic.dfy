/** Facts of multiplication and division by a variable, for proofs that must not depend on the solver finding them. */
module Arithmetic {

  lemma TimesNext(d: nat, q: nat)
    ensures d * (q + 1) == d * q + d
  {
  }

  lemma TimesMonotone(d: nat, a: nat, b: nat)
    requires a <= b
    ensures d * a <= d * b
  {
  }

  /** Quotient and remainder are determined by what they must satisfy. */
  lemma DivisionIs(v: nat, d: nat, q: nat, r: nat)
    requires d > 0 && v == d * q + r && r < d
    ensures v / d == q && v % d == r
  {
    var q1 := v / d;
    assert v == d * q1 + v % d;
    TimesNext(d, q);
    TimesNext(d, q1);
    if q1 < q {
      TimesMonotone(d, q1 + 1, q);
      assert false;
    } else if q < q1 {
      TimesMonotone(d, q + 1, q1);
      assert false;
    }
  }
}
