/** The lengths that package-merge gives are the cheapest of all that a code of limited
    length can have. */
module PackageOptimal {
  import opened Bits
  import opened PackageLists
  import opened PackageMerge

  // ----- The cost of a chain

  /** What the leaves used by all nodes of a chain weigh together. */
  function ChainCost(w: seq<nat>, ch: Chain): nat {
    match ch
    case End => 0
    case Node(_, index, tail) => (if index <= |w| then Sum(w, index) else 0) + ChainCost(w, tail)
  }

  /** The chain for r items costs what the items weigh. */
  lemma {:induction false} CostOfChain(w: seq<nat>, c: nat, r: nat)
    requires r <= |List(w, c)|
    ensures ChainCost(w, ChainOf(w, c, r)) == Sum(List(w, c), r)
    decreases c
  {
    hide Merge, FromFirst;
    if r > 0 && c > 0 {
      var a, p := LeafCount(w, c, r), Pairs(List(w, c - 1));
      CostOfChain(w, c - 1, 2 * (r - a));
      SumOfMerge(w, p, r);
      SumOfPairs(List(w, c - 1), r - a);
    }
  }

  /** What n leaves cost with these lengths. */
  function Cost(w: seq<nat>, lens: seq<nat>, n: nat): nat
    requires n <= |w| && n <= |lens|
  {
    if n == 0 then 0 else Cost(w, lens, n - 1) + w[n - 1] * lens[n - 1]
  }

  function ChainLengths(ch: Chain, n: nat): (lens: seq<nat>)
    ensures |lens| == n && forall i :: 0 <= i < n ==> lens[i] == LeafLength(ch, i)
  {
    seq(n, i requires 0 <= i < n => LeafLength(ch, i))
  }

  lemma OneMoreBit(x: nat, t: nat)
    ensures x * (1 + t) == x + x * t
  {
  }

  /** One more bit for the first k leaves costs their weight. */
  lemma {:induction false} CostOfNode(w: seq<nat>, ch: Chain, n: nat)
    requires ch.Node? && n <= |w|
    ensures Cost(w, ChainLengths(ch, n), n) == Cost(w, ChainLengths(ch.tail, n), n) + Sum(w, if ch.index <= n then ch.index else n)
  {
    hide ChainLengths;
    if n > 0 {
      CostOfNode(w, ch, n - 1);
      var a, b := ChainLengths(ch, n), ChainLengths(ch.tail, n);
      CostPrefix(w, a, ChainLengths(ch, n - 1), n - 1);
      CostPrefix(w, b, ChainLengths(ch.tail, n - 1), n - 1);
      OneMoreBit(w[n - 1], b[n - 1]);
      assert a[n - 1] == (if n - 1 < ch.index then 1 else 0) + b[n - 1];
    }
  }

  lemma {:induction false} CostPrefix(w: seq<nat>, a: seq<nat>, b: seq<nat>, n: nat)
    requires n <= |w| && n <= |a| && n <= |b| && forall i :: 0 <= i < n ==> a[i] == b[i]
    ensures Cost(w, a, n) == Cost(w, b, n)
  {
    if n > 0 {
      CostPrefix(w, a, b, n - 1);
    }
  }

  lemma {:induction false} CostIsChainCost(w: seq<nat>, ch: Chain)
    requires WellCounted(ch) && (ch.Node? ==> ch.index <= |w|)
    ensures Cost(w, ChainLengths(ch, |w|), |w|) == ChainCost(w, ch)
    decreases ch
  {
    if ch.Node? {
      CostOfNode(w, ch, |w|);
      CostIsChainCost(w, ch.tail);
    } else {
      CostOfNothing(w, ChainLengths(ch, |w|), |w|);
    }
  }

  lemma {:induction false} CostOfNothing(w: seq<nat>, lens: seq<nat>, n: nat)
    requires n <= |w| && n <= |lens| && forall i :: 0 <= i < n ==> lens[i] == 0
    ensures Cost(w, lens, n) == 0
  {
    if n > 0 {
      CostOfNothing(w, lens, n - 1);
    }
  }

  // ----- Any other lengths, level by level

  /** How many of the first n leaves have at least `least` bits. */
  function AtLeast(lens: seq<nat>, least: nat, n: nat): (k: nat)
    requires n <= |lens|
    ensures k <= n
  {
    if n == 0 then 0 else AtLeast(lens, least, n - 1) + (if lens[n - 1] >= least then 1 else 0)
  }

  /** What these leaves weigh. */
  function WeightAtLeast(w: seq<nat>, lens: seq<nat>, least: nat, n: nat): nat
    requires n <= |w| && n <= |lens|
  {
    if n == 0 then 0 else WeightAtLeast(w, lens, least, n - 1) + (if lens[n - 1] >= least then w[n - 1] else 0)
  }

  /** No k leaves weigh less than the k lightest. */
  lemma {:induction false} LightestWeigh(w: seq<nat>, lens: seq<nat>, least: nat, n: nat)
    requires Ascending(w) && n <= |w| && n <= |lens|
    ensures Sum(w, AtLeast(lens, least, n)) <= WeightAtLeast(w, lens, least, n)
  {
    if n > 0 {
      LightestWeigh(w, lens, least, n - 1);
      var k := AtLeast(lens, least, n - 1);
      assert w[k] <= w[n - 1];
    }
  }

  /** What levels 0 to m - 1 weigh, where level c has the leaves of L - c bits or more. */
  function Levels(w: seq<nat>, lens: seq<nat>, L: nat, m: nat): nat
    requires m <= L && |w| <= |lens|
  {
    if m == 0 then 0 else Levels(w, lens, L, m - 1) + WeightAtLeast(w, lens, L - (m - 1), |w|)
  }

  /** Bits of one leaf that fall into levels 0 to m - 1. */
  function Part(len: nat, L: nat, m: nat): nat
    requires m <= L
  {
    if len + m <= L then 0 else len + m - L
  }

  function Parts(lens: seq<nat>, L: nat, m: nat): (p: seq<nat>)
    requires m <= L
    ensures |p| == |lens| && forall i :: 0 <= i < |p| ==> p[i] == Part(lens[i], L, m)
  {
    seq(|lens|, i requires 0 <= i < |lens| => Part(lens[i], L, m))
  }

  lemma {:induction false} PartsNext(w: seq<nat>, lens: seq<nat>, L: nat, m: nat, n: nat)
    requires m < L && n <= |w| <= |lens|
    requires forall i :: 0 <= i < |lens| ==> lens[i] <= L
    ensures Cost(w, Parts(lens, L, m + 1), n) == Cost(w, Parts(lens, L, m), n) + WeightAtLeast(w, lens, L - m, n)
  {
    if n > 0 {
      PartsNext(w, lens, L, m, n - 1);
      var x, t := w[n - 1], Part(lens[n - 1], L, m);
      assert x * (t + 1) == x * t + x;
    }
  }

  lemma {:induction false} LevelsAreParts(w: seq<nat>, lens: seq<nat>, L: nat, m: nat)
    requires m <= L && |w| <= |lens| && forall i :: 0 <= i < |lens| ==> lens[i] <= L
    ensures Levels(w, lens, L, m) == Cost(w, Parts(lens, L, m), |w|)
  {
    if m == 0 {
      CostOfNothing(w, Parts(lens, L, 0), |w|);
    } else {
      LevelsAreParts(w, lens, L, m - 1);
      PartsNext(w, lens, L, m - 1, |w|);
    }
  }

  /** Every bit falls into some level. */
  lemma CostByLevels(w: seq<nat>, lens: seq<nat>, L: nat)
    requires |w| <= |lens| && forall i :: 0 <= i < |lens| ==> lens[i] <= L
    ensures Levels(w, lens, L, L) == Cost(w, lens, |w|)
  {
    LevelsAreParts(w, lens, L, L);
    CostPrefix(w, Parts(lens, L, L), lens, |w|);
  }

  /** How many items of list c other lengths choose: the leaves of level c and half of
      the items chosen in the list before. */
  function Chosen(lens: seq<nat>, n: nat, L: nat, c: nat): (k: nat)
    requires n <= |lens| && c < L
  {
    AtLeast(lens, L - c, n) + (if c == 0 then 0 else Chosen(lens, n, L, c - 1) / 2)
  }

  lemma {:induction false} ChosenFits(w: seq<nat>, lens: seq<nat>, L: nat, c: nat)
    requires |w| <= |lens| && c < L
    ensures Chosen(lens, |w|, L, c) <= |List(w, c)|
  {
    hide AtLeast, Merge;
    if c > 0 {
      ChosenFits(w, lens, L, c - 1);
    }
  }

  /** The lightest items of the lists weigh no more than the levels. */
  lemma {:induction false} LevelsWeigh(w: seq<nat>, lens: seq<nat>, L: nat, c: nat)
    requires Leaves(w) && |w| <= |lens| && c < L
    ensures Chosen(lens, |w|, L, c) <= |List(w, c)|
    ensures Sum(List(w, c), Chosen(lens, |w|, L, c)) <= Levels(w, lens, L, c + 1)
  {
    hide AtLeast, Merge, WeightAtLeast, Sum, Ascending;
    ChosenFits(w, lens, L, c);
    var k := AtLeast(lens, L - c, |w|);
    LightestWeigh(w, lens, L - c, |w|);
    if c > 0 {
      LevelsWeigh(w, lens, L, c - 1);
      var s, below := List(w, c - 1), Chosen(lens, |w|, L, c - 1);
      var h := below / 2;
      SumMonotone(s, 2 * h, below);
      SumOfPairs(s, h);
      ListAscends(w, c - 1);
      MergeIsLightest(w, Pairs(s), k, h);
    }
  }

  // ----- Counting widths

  /** Sum of 2^(L - length): 2^L times the Kraft sum. */
  function Widths(lens: seq<nat>, L: nat, n: nat): nat
    requires n <= |lens|
  {
    if n == 0 then 0 else Widths(lens, L, n - 1) + (if lens[n - 1] <= L then Pow2(L - lens[n - 1]) else 0)
  }

  /** Widths of the items of levels 0 to m - 1; those of level c are 2^c wide. */
  function LevelWidths(lens: seq<nat>, n: nat, L: nat, m: nat): nat
    requires n <= |lens| && m <= L
  {
    if m == 0 then 0 else LevelWidths(lens, n, L, m - 1) + AtLeast(lens, L - (m - 1), n) * Pow2(m - 1)
  }

  lemma HalfLost(below: nat, k: nat, q: nat)
    ensures (below + 1) * q + k * (2 * q) <= (k + below / 2 + 1) * (2 * q)
  {
    var h := below / 2;
    TimesMonotone(below + 1, 2 * (h + 1), q);
    assert Times(2 * (h + 1), q) == (h + 1) * (2 * q);
    assert k * (2 * q) + (h + 1) * (2 * q) == (k + h + 1) * (2 * q);
  }

  /** Rounding down loses less than one item of the last level. */
  lemma {:induction false} ChosenWidths(lens: seq<nat>, n: nat, L: nat, c: nat)
    requires n <= |lens| && c < L
    ensures LevelWidths(lens, n, L, c + 1) < (Chosen(lens, n, L, c) + 1) * Pow2(c)
  {
    hide AtLeast;
    var k := AtLeast(lens, L - c, n);
    if c > 0 {
      ChosenWidths(lens, n, L, c - 1);
      HalfLost(Chosen(lens, n, L, c - 1), k, Pow2(c - 1));
    } else {
      assert Pow2(0) == 1;
      assert LevelWidths(lens, n, L, 1) == k;
    }
  }

  /** Widths of the items of levels 0 to m - 1, leaf by leaf. */
  function LeafWidths(lens: seq<nat>, L: nat, m: nat, n: nat): int
    requires n <= |lens|
  {
    if n == 0 then 0
    else LeafWidths(lens, L, m, n - 1)
         + (if lens[n - 1] + m <= L || lens[n - 1] > L then 0 else Pow2(m) - Pow2(L - lens[n - 1]))
  }

  lemma {:induction false} LeafWidthsNext(lens: seq<nat>, L: nat, m: nat, n: nat)
    requires n <= |lens| && m < L && forall i :: 0 <= i < |lens| ==> lens[i] <= L
    ensures LeafWidths(lens, L, m + 1, n) == LeafWidths(lens, L, m, n) + AtLeast(lens, L - m, n) * Pow2(m)
  {
    if n > 0 {
      LeafWidthsNext(lens, L, m, n - 1);
      TimesNext(AtLeast(lens, L - m, n - 1), Pow2(m));
    }
  }

  lemma {:induction false} LevelsAreLeaves(lens: seq<nat>, n: nat, L: nat, m: nat)
    requires n <= |lens| && m <= L && forall i :: 0 <= i < |lens| ==> lens[i] <= L
    ensures LevelWidths(lens, n, L, m) == LeafWidths(lens, L, m, n)
  {
    if m == 0 {
      NoLeafWidths(lens, L, n);
    } else {
      LevelsAreLeaves(lens, n, L, m - 1);
      LeafWidthsNext(lens, L, m - 1, n);
    }
  }

  lemma {:induction false} NoLeafWidths(lens: seq<nat>, L: nat, n: nat)
    requires n <= |lens|
    ensures LeafWidths(lens, L, 0, n) == 0
  {
    if n > 0 {
      NoLeafWidths(lens, L, n - 1);
    }
  }

  lemma {:induction false} AllWidths(lens: seq<nat>, L: nat, n: nat)
    requires n <= |lens| && forall i :: 0 <= i < |lens| ==> lens[i] <= L
    ensures LeafWidths(lens, L, L, n) + Widths(lens, L, n) == n * Pow2(L)
  {
    if n > 0 {
      AllWidths(lens, L, n - 1);
      TimesNext(n - 1, Pow2(L));
    }
  }

  /** Lengths with a Kraft sum of at most 1 choose at least 2n - 2 items of the last list. */
  lemma EnoughChosen(lens: seq<nat>, n: nat, L: nat)
    requires 0 < n <= |lens| && L > 0 && (forall i :: 0 <= i < |lens| ==> lens[i] <= L) && Widths(lens, L, n) <= Pow2(L)
    ensures Chosen(lens, n, L, L - 1) >= 2 * n - 2
  {
    hide Chosen, LevelWidths, LeafWidths, Widths;
    ChosenWidths(lens, n, L, L - 1);
    LevelsAreLeaves(lens, n, L, L);
    AllWidths(lens, L, n);
    var k, p := Chosen(lens, n, L, L - 1), Pow2(L - 1);
    assert Pow2(L) == 2 * p;
    assert n * (2 * p) - 2 * p == (2 * n - 2) * p;
    if k + 1 <= 2 * n - 2 {
      TimesMonotone(k + 1, 2 * n - 2, p);
    }
  }

  // ----- Optimality

  /** Among all lengths of at most L bits whose Kraft sum is at most 1, those of the final
      chain cost the least. */
  lemma FinalChainIsCheapest(w: seq<nat>, lens: seq<nat>, L: nat)
    requires Leaves(w) && L > 0 && |w| <= Pow2(L) && |lens| == |w|
    requires (forall i :: 0 <= i < |lens| ==> lens[i] <= L) && Widths(lens, L, |w|) <= Pow2(L)
    ensures Cost(w, ChainLengths(FinalChain(w, L), |w|), |w|) <= Cost(w, lens, |w|)
  {
    hide Chosen, List, Widths, Levels, ChainOf, FinalChain, ChainLengths;
    var n, ch := |w|, FinalChain(w, L);
    FinalChainCounted(w, L);
    CostIsChainCost(w, ch);
    CostOfChain(w, L - 1, 2 * n - 2);
    EnoughChosen(lens, n, L);
    LevelsWeigh(w, lens, L, L - 1);
    SumMonotone(List(w, L - 1), 2 * n - 2, Chosen(lens, n, L, L - 1));
    CostByLevels(w, lens, L);
  }
}
