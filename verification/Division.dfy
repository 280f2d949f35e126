/**
  The few facts about division and concatenation that the solver is better handed than left to find.
 */
module Division {
  lemma QuotientAndRemainder(x: int, m: int)
    requires m > 0
    ensures x == x / m * m + x % m && 0 <= x % m < m
    ensures x >= 0 ==> x / m >= 0
  {
  }

  lemma QuotientIsSmaller(x: nat, m: nat)
    requires m > 1
    ensures 0 <= x / m && 0 <= x % m < m
    ensures x > 0 ==> x / m < x
  {
    QuotientAndRemainder(x, m);
    TwiceFits(x / m, m);
  }

  lemma TwiceFits(q: nat, m: nat)
    requires m > 1
    ensures q * m >= q + q
  {
    assert q * (m - 2) >= 0;
  }

  /** Only one quotient and remainder fit. */
  lemma QuotientIsUnique(a: int, b: int, q: int, r: int)
    requires b > 0 && a == b * q + r && 0 <= r < b
    ensures a / b == q && a % b == r
  {
    var x := q - a / b;
    assert b * x == a % b - r;
    if x > 0 {
      AtLeastOnce(b, x);
    } else if x < 0 {
      AtLeastOnce(b, -x);
    }
  }

  lemma AtLeastOnce(b: int, x: int)
    requires b > 0 && x > 0
    ensures b * x >= b
  {
  }

  lemma ConcatAssoc<T>(a: seq<T>, b: seq<T>, c: seq<T>)
    ensures (a + b) + c == a + (b + c)
  {
  }
}
