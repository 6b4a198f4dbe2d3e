/** Canonical Huffman codes as RFC 1951 section 3.2.2 defines them, and the
    interval picture that explains them: with 15 as the longest length, the code
    of a symbol owns a slice of [0, 2^15), and the slices of all symbols, ordered
    by length and then by symbol, lie side by side from 0 on. */
module CanonicalCode {
  import opened Bits

  const LONGEST: nat := 15

  type Lengths = s: seq<nat> | forall i :: 0 <= i < |s| ==> s[i] <= LONGEST

  /** How many of the first n symbols have length l. */
  function Count(lens: Lengths, l: nat, n: nat): (c: nat)
    requires n <= |lens|
    ensures c <= n
  {
    if n == 0 then 0 else Count(lens, l, n - 1) + (if lens[n - 1] == l then 1 else 0)
  }

  /** The first code of length l (next_code of RFC 1951, with no codes of length 0). */
  function NextCode(lens: Lengths, l: nat): nat {
    if l <= 1 then 0 else 2 * (NextCode(lens, l - 1) + Count(lens, l - 1, |lens|))
  }

  /** The code of symbol n. */
  function Code(lens: Lengths, n: nat): nat
    requires n < |lens|
  {
    NextCode(lens, lens[n]) + Count(lens, lens[n], n)
  }

  /** The bits of the code of symbol n in stream order; a code that does not fit
      its length keeps its low bits. */
  function CodeBits(lens: Lengths, n: nat): (b: seq<bit>)
    requires n < |lens|
    ensures |b| == lens[n]
  {
    MsbBits(Code(lens, n), lens[n])
  }

  /** Symbol n is present and its code comes next in the stream. */
  predicate Matches(lens: Lengths, n: nat, s: seq<bit>, pos: nat) {
    n < |lens| && lens[n] > 0 && Slice(s, pos, lens[n]) == CodeBits(lens, n)
  }

  function NumPresent(lens: Lengths): nat {
    |lens| - Count(lens, 0, |lens|)
  }

  // ----- Slices of [0, 2^15)

  function Width(l: nat): nat
    requires l <= LONGEST
  {
    Pow2(LONGEST - l)
  }

  /** Total width of the codes before (l, n) in the order by length, then symbol. */
  function Before(lens: Lengths, l: nat, n: nat): nat
    requires 1 <= l <= LONGEST && n <= |lens|
    decreases l, n
  {
    if n > 0 then Before(lens, l, n - 1) + (if lens[n - 1] == l then Width(l) else 0)
    else if l > 1 then Before(lens, l - 1, |lens|)
    else 0
  }

  /** The Kraft sum, scaled by 2^15. */
  function Kraft(lens: Lengths): nat {
    Before(lens, LONGEST, |lens|)
  }

  predicate Complete(lens: Lengths) {
    Kraft(lens) == Pow2(LONGEST)
  }

  /** The trees deflate allows: complete, or with at most one symbol. */
  predicate ValidTree(lens: Lengths) {
    NumPresent(lens) <= 1 || Complete(lens)
  }

  lemma {:induction false} BeforeIsCode(lens: Lengths, l: nat, n: nat)
    requires 1 <= l <= LONGEST && n <= |lens|
    ensures Before(lens, l, n) == Shl(NextCode(lens, l) + Count(lens, l, n), LONGEST - l)
    decreases l, n
  {
    var k := LONGEST - l;
    if n > 0 {
      BeforeIsCode(lens, l, n - 1);
      var c := NextCode(lens, l) + Count(lens, l, n - 1);
      ShlAdd(c, 1, k);
      ShlOne(k);
    } else if l > 1 {
      BeforeIsCode(lens, l - 1, |lens|);
      var c := NextCode(lens, l - 1) + Count(lens, l - 1, |lens|);
      assert LONGEST - (l - 1) == k + 1;
      ShlAdd(c, c, k);
    } else {
      ShlZero(k);
    }
  }

  lemma {:induction false} BeforeMonotone(lens: Lengths, l1: nat, n1: nat, l2: nat, n2: nat)
    requires 1 <= l1 <= l2 <= LONGEST && n1 <= |lens| && n2 <= |lens|
    requires l1 < l2 || n1 <= n2
    ensures Before(lens, l1, n1) <= Before(lens, l2, n2)
    decreases l2, n2
  {
    if l1 == l2 && n1 == n2 {
    } else if n2 > 0 {
      BeforeMonotone(lens, l1, n1, l2, n2 - 1);
    } else {
      BeforeMonotone(lens, l1, n1, l2 - 1, |lens|);
    }
  }

  /** The slices of different symbols do not overlap. */
  lemma SlicesDisjoint(lens: Lengths, n: nat, m: nat, x: nat)
    requires n < |lens| && m < |lens| && lens[n] > 0 && lens[m] > 0
    requires Before(lens, lens[n], n) <= x < Before(lens, lens[n], n + 1)
    requires Before(lens, lens[m], m) <= x < Before(lens, lens[m], m + 1)
    ensures n == m
  {
    if lens[n] < lens[m] || (lens[n] == lens[m] && n < m) {
      BeforeMonotone(lens, lens[n], n + 1, lens[m], m);
    } else if n != m {
      BeforeMonotone(lens, lens[m], m + 1, lens[n], n);
    }
  }

  /** Every point below the total belongs to the slice of some symbol. */
  lemma {:induction false} SliceAt(lens: Lengths, l: nat, n: nat, x: nat) returns (sym: nat)
    requires 1 <= l <= LONGEST && n <= |lens| && x < Before(lens, l, n)
    ensures sym < |lens| && 1 <= lens[sym] <= l
    ensures Before(lens, lens[sym], sym) <= x < Before(lens, lens[sym], sym + 1)
    decreases l, n
  {
    if n > 0 {
      if x < Before(lens, l, n - 1) {
        sym := SliceAt(lens, l, n - 1, x);
      } else {
        sym := n - 1;
      }
    } else {
      sym := SliceAt(lens, l - 1, |lens|, x);
    }
  }

  // ----- Bits against slices

  lemma {:induction false} ShlUnique(a: nat, b: nat, k: nat, x: nat)
    requires Shl(a, k) <= x < Shl(a, k) + Pow2(k)
    requires Shl(b, k) <= x < Shl(b, k) + Pow2(k)
    ensures a == b
    decreases k
  {
    if k > 0 {
      ShlUnique(a, b, k - 1, x / 2);
    }
  }

  lemma {:induction false} ShlBelow(a: nat, k: nat, l: nat)
    requires Shl(a, k) < Pow2(k + l)
    ensures a < Pow2(l)
    decreases k
  {
    if k > 0 {
      ShlBelow(a, k - 1, l);
    }
  }

  /** Where all slices fit into [0, 2^15) no code loses bits. */
  lemma CodeFits(lens: Lengths, n: nat)
    requires n < |lens| && lens[n] > 0 && Before(lens, lens[n], n) < Pow2(LONGEST)
    ensures Code(lens, n) < Pow2(lens[n])
    ensures MsbVal(CodeBits(lens, n)) == Code(lens, n)
  {
    hide MsbVal, MsbBits, NextCode, Count, Shl, Pow2, Before, Low;
    var l, c := lens[n], Code(lens, n);
    var k := LONGEST - l;
    assert Before(lens, l, n) == Shl(c, k) by { BeforeIsCode(lens, l, n); }
    assert c < Pow2(l) by { ShlBelow(c, k, l); }
    MsbValOfBits(c, l);
    LowOfSmall(c, l);
  }

  /** A code is a prefix of 15 bits exactly when the number they form lies in its slice. */
  lemma PrefixIffInSlice(lens: Lengths, n: nat, b: seq<bit>)
    requires n < |lens| && lens[n] > 0 && Before(lens, lens[n], n) < Pow2(LONGEST)
    requires |b| == LONGEST
    ensures b[..lens[n]] == CodeBits(lens, n)
       <==> Before(lens, lens[n], n) <= MsbVal(b) < Before(lens, lens[n], n + 1)
  {
    hide MsbVal, MsbBits, NextCode, Count, Shl, Pow2;
    var l := lens[n];
    var c, k, x := Code(lens, n), LONGEST - l, MsbVal(b);
    var hd, tl := b[..l], b[l..];
    assert Before(lens, l, n) == Shl(c, k) by { BeforeIsCode(lens, l, n); }
    assert Before(lens, l, n + 1) == Shl(c, k) + Pow2(k);
    assert MsbVal(CodeBits(lens, n)) == c by { CodeFits(lens, n); }
    assert x == Shl(MsbVal(hd), k) + MsbVal(tl) by {
      assert b == hd + tl;
      MsbValConcat(hd, tl);
    }
    MsbValBound(tl);
    if Shl(c, k) <= x < Shl(c, k) + Pow2(k) {
      ShlUnique(c, MsbVal(hd), k, x);
      MsbBitsOfVal(hd);
    }
  }

  lemma {:induction false} CountTwo(lens: Lengths, n: nat, m: nat, k: nat)
    requires n < m < k <= |lens| && lens[n] > 0 && lens[m] > 0
    ensures Count(lens, 0, k) <= k - 2
  {
    if k - 1 > m {
      CountTwo(lens, n, m, k - 1);
    } else {
      CountOne(lens, n, k - 1);
    }
  }

  lemma {:induction false} CountOne(lens: Lengths, n: nat, k: nat)
    requires n < k <= |lens| && lens[n] > 0
    ensures Count(lens, 0, k) <= k - 1
  {
    if k - 1 > n {
      CountOne(lens, n, k - 1);
    }
  }

  lemma PresentBefore(lens: Lengths, n: nat)
    requires n < |lens| && lens[n] > 0
    ensures Before(lens, lens[n], n) + Width(lens[n]) == Before(lens, lens[n], n + 1) <= Kraft(lens)
  {
    BeforeMonotone(lens, lens[n], n + 1, LONGEST, |lens|);
  }

  /** The codes of an allowed tree are prefix free: at most one symbol matches. */
  lemma PrefixFree(lens: Lengths, s: seq<bit>, pos: nat, n: nat, m: nat)
    requires ValidTree(lens)
    requires Matches(lens, n, s, pos) && Matches(lens, m, s, pos)
    ensures n == m
  {
    if NumPresent(lens) <= 1 {
      if n < m {
        CountTwo(lens, n, m, |lens|);
      } else if m < n {
        CountTwo(lens, m, n, |lens|);
      }
    } else {
      var b := Slice(s, pos, LONGEST);
      PresentBefore(lens, n);
      PresentBefore(lens, m);
      SliceSplit(s, pos, lens[n], LONGEST - lens[n]);
      SliceSplit(s, pos, lens[m], LONGEST - lens[m]);
      PrefixIffInSlice(lens, n, b);
      PrefixIffInSlice(lens, m, b);
      SlicesDisjoint(lens, n, m, MsbVal(b));
    }
  }

  /** In a complete tree some symbol matches whatever bits come next. */
  lemma SomeMatch(lens: Lengths, s: seq<bit>, pos: nat) returns (n: nat)
    requires Complete(lens)
    ensures Matches(lens, n, s, pos)
  {
    var b := Slice(s, pos, LONGEST);
    MsbValBound(b);
    n := SliceAt(lens, LONGEST, |lens|, MsbVal(b));
    PrefixIffInSlice(lens, n, b);
    SliceSplit(s, pos, lens[n], LONGEST - lens[n]);
  }

  // ----- The Kraft sum, symbol by symbol

  function WidthSum(lens: Lengths, l: nat, n: nat): nat
    requires l <= LONGEST && n <= |lens|
  {
    if n == 0 then 0
    else WidthSum(lens, l, n - 1) + (if 1 <= lens[n - 1] <= l then Width(lens[n - 1]) else 0)
  }

  function LevelSum(lens: Lengths, l: nat, n: nat): nat
    requires l <= LONGEST && n <= |lens|
  {
    if n == 0 then 0 else LevelSum(lens, l, n - 1) + (if lens[n - 1] == l then Width(l) else 0)
  }

  lemma {:induction false} WidthSumLevel(lens: Lengths, l: nat, n: nat)
    requires 1 <= l <= LONGEST && n <= |lens|
    ensures WidthSum(lens, l, n) == WidthSum(lens, l - 1, n) + LevelSum(lens, l, n)
  {
    if n > 0 {
      WidthSumLevel(lens, l, n - 1);
    }
  }

  lemma {:induction false} WidthSumZero(lens: Lengths, n: nat)
    requires n <= |lens|
    ensures WidthSum(lens, 0, n) == 0
  {
    if n > 0 {
      WidthSumZero(lens, n - 1);
    }
  }

  lemma {:induction false} BeforeIsSum(lens: Lengths, l: nat, n: nat)
    requires 1 <= l <= LONGEST && n <= |lens|
    ensures Before(lens, l, n) == WidthSum(lens, l - 1, |lens|) + LevelSum(lens, l, n)
    decreases l, n
  {
    if n > 0 {
      BeforeIsSum(lens, l, n - 1);
    } else if l > 1 {
      BeforeIsSum(lens, l - 1, |lens|);
      WidthSumLevel(lens, l - 1, |lens|);
    } else {
      WidthSumZero(lens, |lens|);
    }
  }

  lemma KraftIsSum(lens: Lengths)
    ensures Kraft(lens) == WidthSum(lens, LONGEST, |lens|)
  {
    BeforeIsSum(lens, LONGEST, |lens|);
    WidthSumLevel(lens, LONGEST, |lens|);
  }

  lemma {:induction false} LongCodesBound(lens: Lengths, n: nat, l: nat)
    requires n <= |lens| && l <= LONGEST
    requires forall j :: 0 <= j < n && lens[j] > 0 ==> lens[j] >= l
    ensures WidthSum(lens, LONGEST, n) <= n * Width(l)
  {
    if n > 0 {
      LongCodesBound(lens, n - 1, l);
      if lens[n - 1] > 0 {
        Pow2Monotone(LONGEST - lens[n - 1], LONGEST - l);
      }
      assert n * Width(l) == (n - 1) * Width(l) + Width(l);
    }
  }

  // ----- Under- and oversubscribed sets

  predicate Unmatched(lens: Lengths, b: seq<bit>) {
    |b| == LONGEST && forall n :: 0 <= n < |lens| ==> !Matches(lens, n, b, 0)
  }

  function Ones(n: nat): (b: seq<bit>)
    ensures |b| == n
  {
    seq(n, _ => 1)
  }

  lemma {:induction false} OnesValue(n: nat)
    ensures MsbVal(Ones(n)) == Pow2(n) - 1
  {
    if n > 0 {
      assert Ones(n)[..n - 1] == Ones(n - 1);
      OnesValue(n - 1);
    }
  }

  /** Only the last slice of a full set of codes can cover the all-ones bits. */
  lemma OnesMatched(lens: Lengths, n: nat)
    requires Matches(lens, n, Ones(LONGEST), 0) && Before(lens, lens[n], n) < Pow2(LONGEST)
    ensures Kraft(lens) >= Pow2(LONGEST)
  {
    var b := Ones(LONGEST);
    OnesValue(LONGEST);
    PresentBefore(lens, n);
    assert Slice(b, 0, lens[n]) == b[..lens[n]];
    PrefixIffInSlice(lens, n, b);
  }

  /** Undersubscribed: the all-ones bits are not covered. */
  lemma UnderSubscribed(lens: Lengths)
    requires Kraft(lens) < Pow2(LONGEST)
    ensures Unmatched(lens, Ones(LONGEST))
  {
    forall n | 0 <= n < |lens|
      ensures !Matches(lens, n, Ones(LONGEST), 0)
    {
      if Matches(lens, n, Ones(LONGEST), 0) {
        PresentBefore(lens, n);
        OnesMatched(lens, n);
      }
    }
  }

  lemma {:induction false} BitsOfPow2(n: nat)
    ensures MsbBits(Pow2(n), n) == Zeros(n)
  {
    if n > 0 {
      BitsOfPow2(n - 1);
      var b := MsbBits(Pow2(n), n);
      forall i | 0 <= i < n
        ensures b[i] == 0
      {
        if i < n - 1 {
          assert BitOf(Pow2(n), n - 1 - i) == BitOf(Pow2(n - 1), n - 2 - i);
          assert MsbBits(Pow2(n - 1), n - 1)[i] == 0;
        } else {
          assert BitOf(Pow2(n), 0) == 0;
        }
      }
    }
  }

  lemma BitsOfZero(n: nat)
    ensures MsbBits(0, n) == Zeros(n)
  {
    forall i: nat
      ensures BitOf(0, i) == 0
    {
      ShrOfZero(i);
    }
  }

  /** The first symbol in canonical order has the code 0 and the shortest length. */
  lemma FirstCode(lens: Lengths) returns (s: nat)
    requires Kraft(lens) > 0
    ensures s < |lens| && lens[s] > 0 && Before(lens, lens[s], s) == 0
    ensures CodeBits(lens, s) == Zeros(lens[s])
    ensures forall j :: 0 <= j < |lens| && lens[j] > 0 ==> lens[j] >= lens[s]
  {
    s := SliceAt(lens, LONGEST, |lens|, 0);
    var k := LONGEST - lens[s];
    BeforeIsCode(lens, lens[s], s);
    ShlZero(k);
    assert 0 < Pow2(k);
    ShlUnique(0, Code(lens, s), k, 0);
    BitsOfZero(lens[s]);
    forall j | 0 <= j < |lens| && lens[j] > 0
      ensures lens[j] >= lens[s]
    {
      if lens[j] < lens[s] {
        BeforeMonotone(lens, lens[j], j + 1, lens[s], s);
      }
    }
  }

  /** Oversubscribed: some later symbol starts over at the code 0. */
  lemma WrappedCode(lens: Lengths) returns (m: nat)
    requires Kraft(lens) > Pow2(LONGEST)
    ensures m < |lens| && lens[m] > 0 && Before(lens, lens[m], m) > 0
    ensures CodeBits(lens, m) == Zeros(lens[m])
  {
    hide MsbBits, NextCode, Count, Shl, Pow2, Zeros;
    m := SliceAt(lens, LONGEST, |lens|, Pow2(LONGEST));
    var l := lens[m];
    var k, c := LONGEST - l, Code(lens, m);
    BeforeIsCode(lens, l, m);
    assert Shl(Pow2(l), k) == Pow2(l + k) by {
      ShlOne(l);
      ShlShl(1, l, k);
      ShlOne(l + k);
    }
    assert l + k == LONGEST;
    ShlUnique(c, Pow2(l), k, Pow2(LONGEST));
    BitsOfPow2(l);
  }

  lemma FewLongCodes(lens: Lengths)
    requires |lens| <= 288
    requires forall j :: 0 <= j < |lens| && lens[j] > 0 ==> lens[j] >= 10
    ensures Kraft(lens) < Pow2(LONGEST)
  {
    KraftIsSum(lens);
    LongCodesBound(lens, |lens|, 10);
    Pow2Values();
    assert Width(10) == Pow2(5);
  }

  /** With at most 288 symbols an oversubscribed set has two codes of zeros only,
      one of them at most nine bits long. */
  lemma OverSubscribed(lens: Lengths) returns (s: nat, m: nat)
    requires |lens| <= 288 && Kraft(lens) > Pow2(LONGEST)
    ensures s < |lens| && m < |lens| && s != m
    ensures 1 <= lens[s] <= 9 && lens[s] <= lens[m]
    ensures CodeBits(lens, s) == Zeros(lens[s]) && CodeBits(lens, m) == Zeros(lens[m])
  {
    s := FirstCode(lens);
    m := WrappedCode(lens);
    if lens[s] > 9 {
      FewLongCodes(lens);
    }
  }
}
