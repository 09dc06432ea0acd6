/** Quotients, remainders and congruence: the few facts of nonlinear arithmetic the models use. */
module Modular {

  function Min(a: nat, b: nat): (m: nat)
    ensures m <= a && m <= b && (m == a || m == b)
  {
    if a < b then a else b
  }

  function Max(a: nat, b: nat): (m: nat)
    ensures m >= a && m >= b && (m == a || m == b)
  {
    if a > b then a else b
  }

  function CeilDiv(a: nat, b: nat): nat
    requires b >= 1
  {
    (a + b - 1) / b
  }

  lemma MulMonotone(x: int, y: int, m: nat)
    requires x <= y
    ensures x * m <= y * m
  {
  }

  lemma MulPlusOne(x: int, m: int)
    ensures (x + 1) * m == x * m + m
  {
  }

  lemma MulSum(x: int, y: int, m: int)
    ensures (x + y) * m == x * m + y * m
  {
  }

  /** a = q*m + r with 0 <= r < m has one solution, the one `/` and `%` give. */
  lemma QuotientUnique(a: int, q: int, r: int, m: nat)
    requires m >= 1 && 0 <= r < m && a == q * m + r
    ensures a % m == r && a / m == q
  {
    var q' := a / m;
    var r' := a % m;
    assert a == q' * m + r';
    if q' > q {
      MulMonotone(q + 1, q', m);
      MulPlusOne(q, m);
    } else if q' < q {
      MulMonotone(q' + 1, q, m);
      MulPlusOne(q', m);
    }
  }

  lemma ModAddMultiple(b: int, k: int, m: nat)
    requires m >= 1
    ensures (b + k * m) % m == b % m
    ensures (b + k * m) / m == b / m + k
  {
    MulSum(b / m, k, m);
    QuotientUnique(b + k * m, b / m + k, b % m, m);
  }

  /** CeilDiv(a, b) is the least q with a <= q * b. */
  lemma CeilDivIsLeast(a: nat, b: nat)
    requires b >= 1
    ensures a <= CeilDiv(a, b) * b
    ensures forall q: nat {:trigger q * b} :: a <= q * b ==> CeilDiv(a, b) <= q
  {
    var c := CeilDiv(a, b);
    assert a + b - 1 == c * b + (a + b - 1) % b;
    forall q: nat {:trigger q * b} | a <= q * b ensures c <= q {
      if q < c {
        MulMonotone(q + 1, c, b);
        MulPlusOne(q, b);
      }
    }
  }

  /** Two different congruent numbers are at least a modulus apart. */
  lemma CongruentApart(a: int, b: int, m: nat)
    requires m >= 1 && a % m == b % m && a < b
    ensures a + m <= b
  {
    var qa, qb := a / m, b / m;
    assert a == qa * m + a % m;
    assert b == qb * m + b % m;
    if qb <= qa {
      MulMonotone(qb, qa, m);
    } else {
      MulMonotone(qa + 1, qb, m);
      MulPlusOne(qa, m);
    }
  }
}
