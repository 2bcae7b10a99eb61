/** The few facts about integer division that the batches and the ramp rest on. */
module Arith {

  function CeilDiv(a: nat, b: nat): nat
    requires b > 0
  {
    (a + b - 1) / b
  }

  lemma Scale(p: int, q: int, n: int)
    requires p <= q && n >= 0
    ensures p * n <= q * n
  {
  }

  /** The quotient is the only multiplier that brackets its dividend. */
  lemma QuotientIsUnique(x: int, n: int, q: int)
    requires n > 0 && q * n <= x < (q + 1) * n
    ensures x / n == q
  {
    var p := x / n;
    assert p * n <= x < (p + 1) * n by { assert x == p * n + x % n; }
    if p < q { Scale(p + 1, q, n); }
    if q < p { Scale(q + 1, p, n); }
  }

  lemma QuotientBrackets(x: int, n: int)
    requires n > 0
    ensures (x / n) * n <= x < (x / n + 1) * n
  {
    assert x == (x / n) * n + x % n;
  }

  /** The ceiling quotient is the least count of `b`s that reaches `a`. */
  lemma CeilBrackets(a: nat, b: nat)
    requires b > 0
    ensures a > 0 ==> (CeilDiv(a, b) - 1) * b < a <= CeilDiv(a, b) * b
    ensures a == 0 ==> CeilDiv(a, b) == 0
  {
    QuotientBrackets(a + b - 1, b);
    if a == 0 { QuotientIsUnique(b - 1, b, 0); }
  }

  lemma CeilStep(a: nat, b: nat)
    requires b > 0 && a > 0
    ensures a <= b ==> CeilDiv(a, b) == 1
    ensures a > b ==> CeilDiv(a, b) == CeilDiv(a - b, b) + 1
  {
    if a <= b {
      QuotientIsUnique(a + b - 1, b, 1);
    } else {
      QuotientBrackets(a - 1, b);
      QuotientIsUnique(a + b - 1, b, (a - 1) / b + 1);
    }
  }
}
