/** Prime numbers. */
module Primes {
  import opened Bits

  predicate Divides(d: nat, n: nat)
    requires d > 0
  {
    n % d == 0
  }

  predicate Prime(p: nat) {
    p >= 2 && forall d: nat :: 2 <= d < p ==> !Divides(d, p)
  }

  /** No number from d on divides n, up to the square root of n. */
  predicate NoFactor(n: nat, d: nat)
    requires d > 0
    decreases if d * d <= n then n - d else 0
  {
    d * d > n || (n % d != 0 && NoFactor(n, d + 1))
  }

  lemma {:induction false} NoFactorMeans(n: nat, d: nat, e: nat)
    requires d > 0 && NoFactor(n, d) && d <= e && e * e <= n
    ensures n % e != 0
    decreases e - d
  {
    if d < e {
      SquareGrows(d, e);
      NoFactorMeans(n, d + 1, e);
    }
  }

  lemma SquareGrows(d: nat, e: nat)
    requires d <= e
    ensures d * d <= e * e
  {
    TimesMonotone(d, e, d);
    TimesMonotone(d, e, e);
    TimesSwap(d, e);
    TimesIs(d, d);
    TimesIs(e, e);
    TimesIs(d, e);
  }

  /** A number without small divisors is prime. */
  lemma PrimeByTrial(p: nat)
    requires p >= 2 && NoFactor(p, 2)
    ensures Prime(p)
  {
    forall d: nat | 2 <= d < p
      ensures !Divides(d, p)
    {
      if p % d == 0 {
        var e := p / d;
        DivTimes(p, d);
        Cofactor(p, d, e);
        if d <= e {
          TimesMonotone(d, e, d);
          TimesIs(d, d);
          NoFactorMeans(p, 2, d);
        } else {
          TimesMonotone(e, d, e);
          TimesSwap(d, e);
          TimesIs(e, e);
          NoFactorMeans(p, 2, e);
        }
      }
    }
  }

  lemma Cofactor(p: nat, d: nat, e: nat)
    requires 2 <= d < p && p == Times(e, d)
    ensures 2 <= e && p % e == 0
  {
    TimesIs(e, d);
    if e >= 2 {
      ModUnique(p, d, 0, e);
    }
  }

  /** A multiple is not prime. */
  lemma Composite(n: nat, d: nat)
    requires 2 <= d < n && n % d == 0
    ensures !Prime(n)
  {
    assert Divides(d, n);
  }

  /** Trial division decides. */
  lemma PrimeExactly(n: nat)
    ensures Prime(n) <==> n >= 2 && NoFactor(n, 2)
  {
    if n >= 2 {
      if NoFactor(n, 2) {
        PrimeByTrial(n);
      } else {
        var d := Factor(n, 2);
        Composite(n, d);
      }
    }
  }

  lemma {:induction false} Factor(n: nat, d: nat) returns (e: nat)
    requires d >= 2 && !NoFactor(n, d)
    ensures d <= e < n && n % e == 0
    decreases if d * d <= n then n - d else 0
  {
    if n % d == 0 {
      e := d;
      TimesMonotone(2, d, d);
      TimesIs(2, d);
      TimesIs(d, d);
    } else {
      e := Factor(n, d + 1);
    }
  }
}
