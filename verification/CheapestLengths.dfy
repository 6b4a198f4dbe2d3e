/** From the cheapest lengths of leaves to the cheapest lengths of symbols. */
module CheapestLengths {
  import opened Bits
  import opened PackageLists
  import opened PackageMerge
  import opened PackageOptimal
  import opened NodePool
  import opened LeafSort
  import opened SymbolLeaves

  // ----- Sums over all symbols and over the leaves

  function Total(v: seq<nat>, n: nat): nat
    requires n <= |v|
  {
    if n == 0 then 0 else Total(v, n - 1) + v[n - 1]
  }

  /** The values of the symbols of the first k leaves. */
  function LeafTotal(ls: seq<Leaf>, v: seq<nat>, k: nat): nat
    requires k <= |ls| && forall i :: 0 <= i < |ls| ==> ls[i].index < |v|
  {
    if k == 0 then 0 else LeafTotal(ls, v, k - 1) + v[ls[k - 1].index]
  }

  /** v where the first k leaves are, and zero elsewhere. */
  function OnLeaves(ls: seq<Leaf>, v: seq<nat>, k: nat): (u: seq<nat>)
    requires k <= |ls| && forall i :: 0 <= i < |ls| ==> ls[i].index < |v|
    ensures |u| == |v|
  {
    if k == 0 then seq(|v|, _ => 0)
    else OnLeaves(ls, v, k - 1)[ls[k - 1].index := v[ls[k - 1].index]]
  }

  lemma {:induction false} OnLeavesAt(ls: seq<Leaf>, v: seq<nat>, k: nat, s: nat)
    requires k <= |ls| && (forall i :: 0 <= i < |ls| ==> ls[i].index < |v|) && s < |v|
    ensures (forall i :: 0 <= i < k ==> ls[i].index != s) ==> OnLeaves(ls, v, k)[s] == 0
    ensures (exists i :: 0 <= i < k && ls[i].index == s) ==> OnLeaves(ls, v, k)[s] == v[s]
  {
    if k > 0 {
      OnLeavesAt(ls, v, k - 1, s);
    }
  }

  lemma {:induction false} TotalUpdate(u: seq<nat>, u': seq<nat>, s: nat, n: nat)
    requires n <= |u| && s < |u| && u[s] == 0 && |u'| == |u| && u' == u[s := u'[s]]
    ensures Total(u', n) == Total(u, n) + (if s < n then u'[s] else 0)
  {
    if n > 0 {
      TotalUpdate(u, u', s, n - 1);
    }
  }

  lemma {:induction false} TotalOfZeros(u: seq<nat>, n: nat)
    requires n <= |u| && forall i :: 0 <= i < |u| ==> u[i] == 0
    ensures Total(u, n) == 0
  {
    if n > 0 {
      TotalOfZeros(u, n - 1);
    }
  }

  lemma {:induction false} LeafTotalIs(ls: seq<Leaf>, v: seq<nat>, k: nat)
    requires k <= |ls| && forall i :: 0 <= i < |ls| ==> ls[i].index < |v|
    requires forall i, j :: 0 <= i < j < |ls| ==> ls[i].index != ls[j].index
    ensures LeafTotal(ls, v, k) == Total(OnLeaves(ls, v, k), |v|)
  {
    if k == 0 {
      TotalOfZeros(OnLeaves(ls, v, 0), |v|);
    } else {
      LeafTotalIs(ls, v, k - 1);
      OnLeavesAt(ls, v, k - 1, ls[k - 1].index);
      TotalUpdate(OnLeaves(ls, v, k - 1), OnLeaves(ls, v, k), ls[k - 1].index, |v|);
    }
  }

  lemma {:induction false} TotalAtMost(u: seq<nat>, v: seq<nat>, n: nat)
    requires n <= |u| && n <= |v| && forall s :: 0 <= s < n ==> u[s] <= v[s]
    ensures Total(u, n) <= Total(v, n)
  {
    if n > 0 {
      TotalAtMost(u, v, n - 1);
    }
  }

  /** The leaves are some of the symbols; they are all that count if the others have 0. */
  lemma LeafTotalAtMost(freq: seq<nat>, ls: seq<Leaf>, v: seq<nat>)
    requires Arranged(freq, ls) && |v| == |freq| && forall i :: 0 <= i < |ls| ==> ls[i].index < |v|
    ensures LeafTotal(ls, v, |ls|) <= Total(v, |v|)
    ensures (forall s :: 0 <= s < |v| && freq[s] == 0 ==> v[s] == 0) ==> LeafTotal(ls, v, |ls|) == Total(v, |v|)
  {
    hide Sorted, OnLeaves;
    var u := OnLeaves(ls, v, |ls|);
    LeafTotalIs(ls, v, |ls|);
    forall s | 0 <= s < |v|
      ensures u[s] <= v[s] && (freq[s] > 0 ==> u[s] == v[s])
    {
      OnLeavesAt(ls, v, |ls|, s);
      if freq[s] > 0 {
        var i := LeafAt(freq, ls, s);
      }
    }
    TotalAtMost(u, v, |v|);
    if forall s :: 0 <= s < |v| && freq[s] == 0 ==> v[s] == 0 {
      assert u == v;
    }
  }

  // ----- Costs and widths on the leaves

  function LeafLengths(ls: seq<Leaf>, lens: seq<nat>): (r: seq<nat>)
    requires forall i :: 0 <= i < |ls| ==> ls[i].index < |lens|
    ensures |r| == |ls| && forall i :: 0 <= i < |r| ==> r[i] == lens[ls[i].index]
  {
    seq(|ls|, i requires 0 <= i < |ls| => lens[ls[i].index])
  }

  function Products(freq: seq<nat>, lens: seq<nat>): (v: seq<nat>)
    requires |freq| == |lens|
    ensures |v| == |freq| && forall s :: 0 <= s < |v| ==> v[s] == freq[s] * lens[s]
  {
    seq(|freq|, s requires 0 <= s < |freq| => freq[s] * lens[s])
  }

  lemma {:induction false} CostIsTotal(freq: seq<nat>, lens: seq<nat>, n: nat)
    requires |freq| == |lens| && n <= |freq|
    ensures Cost(freq, lens, n) == Total(Products(freq, lens), n)
  {
    if n > 0 {
      CostIsTotal(freq, lens, n - 1);
    }
  }

  lemma {:induction false} LeafCostIsTotal(freq: seq<nat>, ls: seq<Leaf>, lens: seq<nat>, k: nat)
    requires |freq| == |lens| && k <= |ls| && forall i :: 0 <= i < |ls| ==> ls[i].index < |lens| && LeafOk(freq, ls[i])
    ensures Cost(Weights(ls), LeafLengths(ls, lens), k) == LeafTotal(ls, Products(freq, lens), k)
  {
    if k > 0 {
      LeafCostIsTotal(freq, ls, lens, k - 1);
      assert LeafOk(freq, ls[k - 1]);
    }
  }

  /** What the symbols cost is what the leaves cost. */
  lemma CostOnLeaves(freq: seq<nat>, ls: seq<Leaf>, lens: seq<nat>)
    requires Arranged(freq, ls) && |lens| == |freq| && forall i :: 0 <= i < |ls| ==> ls[i].index < |lens|
    ensures Cost(freq, lens, |freq|) == Cost(Weights(ls), LeafLengths(ls, lens), |ls|)
  {
    hide Sorted, Cost, Total, LeafTotal;
    var v := Products(freq, lens);
    CostIsTotal(freq, lens, |freq|);
    LeafCostIsTotal(freq, ls, lens, |ls|);
    forall s | 0 <= s < |v| && freq[s] == 0
      ensures v[s] == 0
    {
      TimesZero(lens[s]);
    }
    LeafTotalAtMost(freq, ls, v);
  }

  function SymbolSpace(lens: seq<nat>, L: nat): (v: seq<nat>)
    ensures |v| == |lens| && forall s :: 0 <= s < |v| ==> v[s] == if 1 <= lens[s] <= L then Pow2(L - lens[s]) else 0
  {
    seq(|lens|, s requires 0 <= s < |lens| => if 1 <= lens[s] <= L then Pow2(L - lens[s]) else 0)
  }

  lemma {:induction false} SpaceIsTotal(lens: seq<nat>, L: nat, n: nat)
    requires n <= |lens|
    ensures CodeSpace(lens, L, n) == Total(SymbolSpace(lens, L), n)
  {
    if n > 0 {
      SpaceIsTotal(lens, L, n - 1);
    }
  }

  lemma {:induction false} LeafSpaceIsTotal(ls: seq<Leaf>, lens: seq<nat>, L: nat, k: nat)
    requires k <= |ls| && forall i :: 0 <= i < |ls| ==> ls[i].index < |lens| && 1 <= lens[ls[i].index] <= L
    ensures Widths(LeafLengths(ls, lens), L, k) == LeafTotal(ls, SymbolSpace(lens, L), k)
  {
    if k > 0 {
      LeafSpaceIsTotal(ls, lens, L, k - 1);
    }
  }

  // ----- The cheapest lengths

  /** Lengths that some prefix code of at most maxbits bits has for the symbols that occur. */
  predicate Possible(freq: seq<nat>, maxbits: nat, lens: seq<nat>) {
    && |lens| == |freq|
    && (forall s :: 0 <= s < |lens| ==> lens[s] <= maxbits)
    && (forall s :: 0 <= s < |lens| && freq[s] > 0 ==> lens[s] >= 1)
    && CodeSpace(lens, maxbits, |lens|) <= Pow2(maxbits)
  }

  /** No other such lengths spend fewer bits on the symbols. */
  ghost predicate Cheapest(freq: seq<nat>, maxbits: nat, lens: seq<nat>) {
    && |lens| == |freq|
    && forall other: seq<nat> :: Possible(freq, maxbits, other) ==> Cost(freq, lens, |freq|) <= Cost(freq, other, |freq|)
  }

  lemma ChainBeats(freq: seq<nat>, ls: seq<Leaf>, maxbits: nat, other: seq<nat>)
    requires Arranged(freq, ls) && |ls| >= 2 && 0 < maxbits && |ls| <= Pow2(maxbits)
    requires Possible(freq, maxbits, other)
    ensures Leaves(Weights(ls))
    ensures Cost(Weights(ls), ChainLengths(FinalChain(Weights(ls), maxbits), |ls|), |ls|) <= Cost(freq, other, |freq|)
  {
    hide Sorted, Cost, CodeSpace, Total, LeafTotal, FinalChain, Widths, Weights;
    ArrangedWeights(freq, ls);
    ArrangedFacts(freq, ls);
    var leafLens := LeafLengths(ls, other);
    forall i | 0 <= i < |ls|
      ensures ls[i].index < |other| && other[ls[i].index] > 0
    {
      assert LeafOk(freq, ls[i]);
    }
    SpaceIsTotal(other, maxbits, |other|);
    LeafSpaceIsTotal(ls, other, maxbits, |ls|);
    LeafTotalAtMost(freq, ls, SymbolSpace(other, maxbits));
    CostOnLeaves(freq, ls, other);
    FinalChainIsCheapest(Weights(ls), leafLens, maxbits);
  }

  lemma LengthsOnLeaves(freq: seq<nat>, ls: seq<Leaf>, ch: Chain)
    requires Arranged(freq, ls) && forall i :: 0 <= i < |ls| ==> ls[i].index < |freq|
    ensures LeafLengths(ls, Assign(ls, ch, |ls|, |freq|)) == ChainLengths(ch, |ls|)
  {
    hide Sorted, Arranged, Assign, LeafLength;
    AssignAt(freq, ls, ch, |ls|);
  }

  /** The lengths that package-merge leaves behind are the cheapest. */
  lemma ChainIsCheapest(freq: seq<nat>, ls: seq<Leaf>, maxbits: nat)
    requires Arranged(freq, ls) && |ls| >= 2 && 0 < maxbits && |ls| <= Pow2(maxbits)
    requires Leaves(Weights(ls)) && forall i :: 0 <= i < |ls| ==> ls[i].index < |freq|
    ensures Cheapest(freq, maxbits, Assign(ls, FinalChain(Weights(ls), maxbits), |ls|, |freq|))
  {
    hide Sorted, Cost, FinalChain, Arranged, Assign, CodeSpace, Weights, LeafLength, ChainLengths, LeafLengths;
    var ch := FinalChain(Weights(ls), maxbits);
    var lens := Assign(ls, ch, |ls|, |freq|);
    LengthsOnLeaves(freq, ls, ch);
    CostOnLeaves(freq, ls, lens);
    forall other: seq<nat> | Possible(freq, maxbits, other)
      ensures Cost(freq, lens, |freq|) <= Cost(freq, other, |freq|)
    {
      ChainBeats(freq, ls, maxbits, other);
    }
  }

  lemma {:induction false} CostAtMost(freq: seq<nat>, a: seq<nat>, b: seq<nat>, n: nat)
    requires n <= |freq| && n <= |a| && n <= |b| && forall s :: 0 <= s < n && freq[s] > 0 ==> a[s] <= b[s]
    ensures Cost(freq, a, n) <= Cost(freq, b, n)
  {
    if n > 0 {
      CostAtMost(freq, a, b, n - 1);
      if freq[n - 1] > 0 {
        TimesSwap(freq[n - 1], a[n - 1]);
        TimesSwap(freq[n - 1], b[n - 1]);
        TimesMonotone(a[n - 1], b[n - 1], freq[n - 1]);
      } else {
        TimesZero(a[n - 1]);
        TimesZero(b[n - 1]);
      }
    }
  }

  /** One bit per symbol is the least. */
  lemma OneBitIsCheapest(freq: seq<nat>, maxbits: nat, lens: seq<nat>)
    requires |lens| == |freq| && forall s :: 0 <= s < |lens| && freq[s] > 0 ==> lens[s] <= 1
    ensures Cheapest(freq, maxbits, lens)
  {
    hide Cost, CodeSpace;
    forall other: seq<nat> | Possible(freq, maxbits, other)
      ensures Cost(freq, lens, |freq|) <= Cost(freq, other, |freq|)
    {
      CostAtMost(freq, lens, other, |freq|);
    }
  }
}
