/** The primes up to 311. */
module PrimeList {
  import opened Bits
  import opened Primes

  /** The first 64 primes, in two halves. */
  const PRIMES: seq<nat> := FIRSTPRIMES + SECONDPRIMES

  const FIRSTPRIMES: seq<nat> := [
    2, 3, 5, 7, 11, 13, 17, 19, 23, 29, 31, 37, 41, 43, 47, 53,
    59, 61, 67, 71, 73, 79, 83, 89, 97, 101, 103, 107, 109, 113, 127, 131]

  const SECONDPRIMES: seq<nat> := [
    137, 139, 149, 151, 157, 163, 167, 173, 179, 181, 191, 193, 197, 199, 211, 223,
    227, 229, 233, 239, 241, 251, 257, 263, 269, 271, 277, 281, 283, 293, 307, 311]

  // ----- The first 64 primes

  predicate NoSmallFactor(n: nat) {
    n % 2 != 0 && n % 3 != 0 && n % 5 != 0 && n % 7 != 0 && n % 11 != 0 && n % 13 != 0 && n % 17 != 0
  }

  /** Up to 19 * 19 trial division ends at 17. */
  lemma SmallPrime(n: nat)
    requires 18 <= n < 361
    ensures Prime(n) <==> NoSmallFactor(n)
  {
    hide Prime, NoFactor;
    PrimeExactly(n);
    if NoSmallFactor(n) {
      Trials(n);
    } else {
      var d := if n % 2 == 0 then 2 else if n % 3 == 0 then 3 else if n % 5 == 0 then 5 else if n % 7 == 0 then 7
               else if n % 11 == 0 then 11 else if n % 13 == 0 then 13 else 17;
      Composite(n, d);
    }
  }

  lemma Trials(n: nat)
    requires 18 <= n < 361 && NoSmallFactor(n)
    ensures NoFactor(n, 2)
  {
    hide NoSmallFactor;
    TrialsFrom(n, 2);
  }

  lemma {:induction false} TrialsFrom(n: nat, d: nat)
    requires 18 <= n < 361 && NoSmallFactor(n) && 2 <= d <= 19
    ensures NoFactor(n, d)
    decreases 19 - d
  {
    hide NoSmallFactor;
    if d == 19 {
      assert d * d == 361;
    } else {
      NotDivided(n, d);
      TrialsFrom(n, d + 1);
    }
  }

  lemma NotDivided(n: nat, d: nat)
    requires NoSmallFactor(n) && 2 <= d < 19
    ensures n % d != 0
  {
    if n % d == 0 {
      if d % 2 == 0 {
        Multiple(n, 2, d / 2);
      } else if d % 3 == 0 {
        Multiple(n, 3, d / 3);
      }
    }
  }

  lemma Multiple(n: nat, a: nat, b: nat)
    requires a > 0 && b > 0 && n % (a * b) == 0
    ensures n % a == 0
  {
    hide Times;
    var q := n / (a * b);
    DivTimes(n, a * b);
    TimesIs(b, a);
    TimesAssociate(q, b, a);
    TimesUnique(n, Times(q, b), 0, a);
  }

  lemma FirstSeven(n: nat)
    requires n < 18
    ensures Prime(n) <==> n in [2, 3, 5, 7, 11, 13, 17]
  {
    hide Prime;
    PrimeExactly(n);
  }

  lemma PrimesFrom18(n: nat)
    requires 18 <= n < 37
    ensures NoSmallFactor(n) <==> n in [19, 23, 29, 31]
  {
  }

  lemma PrimesFrom37(n: nat)
    requires 37 <= n < 56
    ensures NoSmallFactor(n) <==> n in [37, 41, 43, 47, 53]
  {
  }

  lemma PrimesFrom56(n: nat)
    requires 56 <= n < 75
    ensures NoSmallFactor(n) <==> n in [59, 61, 67, 71, 73]
  {
  }

  lemma PrimesFrom75(n: nat)
    requires 75 <= n < 94
    ensures NoSmallFactor(n) <==> n in [79, 83, 89]
  {
  }

  lemma PrimesFrom94(n: nat)
    requires 94 <= n < 113
    ensures NoSmallFactor(n) <==> n in [97, 101, 103, 107, 109]
  {
  }

  lemma PrimesFrom113(n: nat)
    requires 113 <= n < 132
    ensures NoSmallFactor(n) <==> n in [113, 127, 131]
  {
  }

  lemma PrimesFrom132(n: nat)
    requires 132 <= n < 150
    ensures NoSmallFactor(n) <==> n in [137, 139, 149]
  {
  }

  lemma PrimesFrom150(n: nat)
    requires 150 <= n < 168
    ensures NoSmallFactor(n) <==> n in [151, 157, 163, 167]
  {
  }

  lemma PrimesFrom168(n: nat)
    requires 168 <= n < 186
    ensures NoSmallFactor(n) <==> n in [173, 179, 181]
  {
  }

  lemma PrimesFrom186(n: nat)
    requires 186 <= n < 204
    ensures NoSmallFactor(n) <==> n in [191, 193, 197, 199]
  {
  }

  lemma PrimesFrom204(n: nat)
    requires 204 <= n < 222
    ensures NoSmallFactor(n) <==> n in [211]
  {
  }

  lemma PrimesFrom222(n: nat)
    requires 222 <= n < 240
    ensures NoSmallFactor(n) <==> n in [223, 227, 229, 233, 239]
  {
  }

  lemma PrimesFrom240(n: nat)
    requires 240 <= n < 258
    ensures NoSmallFactor(n) <==> n in [241, 251, 257]
  {
  }

  lemma PrimesFrom258(n: nat)
    requires 258 <= n < 276
    ensures NoSmallFactor(n) <==> n in [263, 269, 271]
  {
  }

  lemma PrimesFrom276(n: nat)
    requires 276 <= n < 294
    ensures NoSmallFactor(n) <==> n in [277, 281, 283, 293]
  {
  }

  lemma PrimesFrom294(n: nat)
    requires 294 <= n < 312
    ensures NoSmallFactor(n) <==> n in [307, 311]
  {
  }

  lemma FirstHalfListed(n: nat)
    requires n < 132
    ensures Prime(n) <==> n in FIRSTPRIMES
  {
    hide Prime, NoSmallFactor;
    if n < 18 {
      FirstSeven(n);
    } else {
      SmallPrime(n);
      if n < 37 {
        PrimesFrom18(n);
      } else if n < 56 {
        PrimesFrom37(n);
      } else if n < 75 {
        PrimesFrom56(n);
      } else if n < 94 {
        PrimesFrom75(n);
      } else if n < 113 {
        PrimesFrom94(n);
      } else {
        PrimesFrom113(n);
      }
    }
  }

  lemma SecondHalfListed(n: nat)
    requires 132 <= n < 312
    ensures Prime(n) <==> n in SECONDPRIMES
  {
    hide Prime, NoSmallFactor;
    SmallPrime(n);
    if n < 150 {
      PrimesFrom132(n);
    } else if n < 168 {
      PrimesFrom150(n);
    } else if n < 186 {
      PrimesFrom168(n);
    } else if n < 204 {
      PrimesFrom186(n);
    } else if n < 222 {
      PrimesFrom204(n);
    } else if n < 240 {
      PrimesFrom222(n);
    } else if n < 258 {
      PrimesFrom240(n);
    } else if n < 276 {
      PrimesFrom258(n);
    } else if n < 294 {
      PrimesFrom276(n);
    } else {
      PrimesFrom294(n);
    }
  }

  /** The list has all primes up to its last one. */
  lemma PrimesListed(n: nat)
    requires n <= 311
    ensures Prime(n) <==> n in PRIMES
  {
    hide Prime, FIRSTPRIMES, SECONDPRIMES;
    if n in FIRSTPRIMES {
      FirstHalf(n);
    }
    if n in SECONDPRIMES {
      SecondHalf(n);
    }
    if n < 132 {
      FirstHalfListed(n);
    } else {
      SecondHalfListed(n);
    }
  }

  lemma FirstHalf(n: nat)
    requires n in FIRSTPRIMES
    ensures n < 132
  {
  }

  lemma SecondHalf(n: nat)
    requires n in SECONDPRIMES
    ensures n >= 132
  {
  }

  lemma Ascending0()
    ensures PRIMES[0] < PRIMES[1] < PRIMES[2] < PRIMES[3] < PRIMES[4] < PRIMES[5] < PRIMES[6] < PRIMES[7] < PRIMES[8]
  {
  }

  lemma Ascending8()
    ensures PRIMES[8] < PRIMES[9] < PRIMES[10] < PRIMES[11] < PRIMES[12] < PRIMES[13] < PRIMES[14] < PRIMES[15] < PRIMES[16]
  {
  }

  lemma Ascending16()
    ensures PRIMES[16] < PRIMES[17] < PRIMES[18] < PRIMES[19] < PRIMES[20] < PRIMES[21] < PRIMES[22] < PRIMES[23] < PRIMES[24]
  {
  }

  lemma Ascending24()
    ensures PRIMES[24] < PRIMES[25] < PRIMES[26] < PRIMES[27] < PRIMES[28] < PRIMES[29] < PRIMES[30] < PRIMES[31] < PRIMES[32]
  {
  }

  lemma Ascending32()
    ensures PRIMES[32] < PRIMES[33] < PRIMES[34] < PRIMES[35] < PRIMES[36] < PRIMES[37] < PRIMES[38] < PRIMES[39] < PRIMES[40]
  {
  }

  lemma Ascending40()
    ensures PRIMES[40] < PRIMES[41] < PRIMES[42] < PRIMES[43] < PRIMES[44] < PRIMES[45] < PRIMES[46] < PRIMES[47] < PRIMES[48]
  {
  }

  lemma Ascending48()
    ensures PRIMES[48] < PRIMES[49] < PRIMES[50] < PRIMES[51] < PRIMES[52] < PRIMES[53] < PRIMES[54] < PRIMES[55] < PRIMES[56]
  {
  }

  lemma Ascending56()
    ensures PRIMES[56] < PRIMES[57] < PRIMES[58] < PRIMES[59] < PRIMES[60] < PRIMES[61] < PRIMES[62] < PRIMES[63]
  {
  }

  lemma NextIsLarger(i: nat)
    requires i < 63
    ensures PRIMES[i] < PRIMES[i + 1]
  {
    hide PRIMES;
    Ascending0();
    Ascending8();
    Ascending16();
    Ascending24();
    Ascending32();
    Ascending40();
    Ascending48();
    Ascending56();
  }

  lemma {:induction false} LaterIsLarger(i: nat, j: nat)
    requires i < j < 64
    ensures PRIMES[i] < PRIMES[j]
    decreases j
  {
    hide PRIMES;
    NextIsLarger(j - 1);
    if i < j - 1 {
      LaterIsLarger(i, j - 1);
    }
  }

  lemma LastPrime()
    ensures PRIMES[63] == 311 && forall i :: 0 <= i < 64 ==> PRIMES[i] <= 311
  {
    hide PRIMES;
    PrimesSize();
    LastIs();
    forall i | 0 <= i < 63
      ensures PRIMES[i] <= 311
    {
      LaterIsLarger(i, 63);
    }
  }

  lemma LastIs()
    ensures PRIMES[63] == 311
  {
  }

  lemma PrimesSize()
    ensures |PRIMES| == 64
  {
  }

  // ----- Trial division by the list

  lemma {:induction false} LeastFactor(n: nat, d: nat) returns (p: nat)
    requires d >= 2 && !NoFactor(n, d) && forall k :: 2 <= k < d ==> n % k != 0
    ensures 2 <= p && p * p <= n && n % p == 0 && Prime(p)
    decreases if d * d <= n then n - d else 0
  {
    if n % d == 0 {
      p := d;
      LeastIsPrime(n, p);
    } else {
      p := LeastFactor(n, d + 1);
    }
  }

  lemma LeastIsPrime(n: nat, p: nat)
    requires p >= 2 && n % p == 0 && forall k :: 2 <= k < p ==> n % k != 0
    ensures Prime(p)
  {
    forall d: nat | 2 <= d < p
      ensures !Divides(d, p)
    {
      if p % d == 0 {
        var a, b := n / p, p / d;
        DivTimes(n, p);
        DivTimes(p, d);
        TimesAssociate(a, b, d);
        TimesUnique(n, Times(a, b), 0, d);
      }
    }
  }

  /** A number below the square of 312 that no listed prime divides is prime. */
  lemma PrimeByList(n: nat)
    requires 312 <= n < 312 * 312 && |PRIMES| == 64 && forall i :: 0 <= i < 64 ==> n % PRIMES[i] != 0
    ensures Prime(n)
  {
    hide Prime, PRIMES;
    PrimeExactly(n);
    if !NoFactor(n, 2) {
      var p := LeastFactor(n, 2);
      if p >= 312 {
        SquareGrows(312, p);
      } else {
        PrimesListed(p);
        ListedDoNotDivide(n, p);
      }
    }
  }

  lemma ListedDoNotDivide(n: nat, p: nat)
    requires |PRIMES| == 64 && forall i :: 0 <= i < 64 ==> n % PRIMES[i] != 0
    ensures p > 0 && p in PRIMES ==> n % p != 0
  {
    hide PRIMES;
  }
}
