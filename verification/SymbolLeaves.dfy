/** The symbols that occur as leaves of package-merge, and their code lengths. */
module SymbolLeaves {
  import opened Bits
  import opened CanonicalCode
  import opened PackageLists
  import opened PackageMerge
  import opened NodePool
  import opened LeafSort

  // ----- The leaves of the symbols that occur

  function LeavesOf(freq: seq<nat>, k: nat): seq<Leaf>
    requires k <= |freq|
  {
    if k == 0 then []
    else if freq[k - 1] > 0 then LeavesOf(freq, k - 1) + [Leaf(freq[k - 1], k - 1)]
    else LeavesOf(freq, k - 1)
  }

  predicate LeafOk(freq: seq<nat>, x: Leaf) {
    x.index < |freq| && freq[x.index] == x.weight > 0
  }

  lemma {:induction false} LeavesOfOk(freq: seq<nat>, k: nat)
    requires k <= |freq|
    ensures |LeavesOf(freq, k)| <= k && ByIndex(LeavesOf(freq, k))
    ensures forall x :: x in LeavesOf(freq, k) ==> LeafOk(freq, x) && x.index < k
    ensures forall s :: 0 <= s < k && freq[s] > 0 ==> Leaf(freq[s], s) in LeavesOf(freq, k)
  {
    if k > 0 {
      LeavesOfOk(freq, k - 1);
      var t := LeavesOf(freq, k - 1);
      assert forall i :: 0 <= i < |t| ==> t[i] in t;
    }
  }

  /** The leaves in order of weight, one for each symbol that occurs. */
  ghost predicate Arranged(freq: seq<nat>, ls: seq<Leaf>) {
    && Sorted(ls) && |ls| <= |freq|
    && (forall i :: 0 <= i < |ls| ==> LeafOk(freq, ls[i]))
    && (forall i, j :: 0 <= i < j < |ls| ==> ls[i].index != ls[j].index)
    && (forall s :: 0 <= s < |freq| && freq[s] > 0 ==> Leaf(freq[s], s) in ls)
  }

  lemma {:induction false} OnlyOnce(s: seq<Leaf>, x: Leaf)
    requires ByIndex(s)
    ensures multiset(s)[x] <= 1
  {
    if s != [] {
      var t, y := s[..|s| - 1], s[|s| - 1];
      assert s == t + [y];
      OnlyOnce(t, x);
      forall i | 0 <= i < |t|
        ensures t[i] != y
      {
        assert s[i].index < s[|t|].index;
      }
      assert y !in t;
    }
  }

  lemma Twice(s: seq<Leaf>, i: nat, j: nat)
    requires i < j < |s| && s[i] == s[j]
    ensures multiset(s)[s[i]] >= 2
  {
    assert s == s[..j] + ([s[j]] + s[j + 1..]);
    assert s[..j][i] == s[i];
    assert s[i] in multiset(s[..j]);
  }

  lemma SortedIsArranged(freq: seq<nat>, ls: seq<Leaf>)
    requires Sorted(ls) && multiset(ls) == multiset(LeavesOf(freq, |freq|))
    ensures Arranged(freq, ls) && |ls| == |LeavesOf(freq, |freq|)|
  {
    hide Sorted;
    var s := LeavesOf(freq, |freq|);
    LeavesOfOk(freq, |freq|);
    assert |ls| == |multiset(ls)| == |s|;
    forall i | 0 <= i < |ls|
      ensures ls[i] in s
    {
      assert ls[i] in multiset(ls);
    }
    forall i, j | 0 <= i < j < |ls|
      ensures ls[i].index != ls[j].index
    {
      if ls[i].index == ls[j].index {
        Twice(ls, i, j);
        OnlyOnce(s, ls[i]);
      }
    }
    forall k | 0 <= k < |freq| && freq[k] > 0
      ensures Leaf(freq[k], k) in ls
    {
      assert Leaf(freq[k], k) in multiset(s);
    }
  }

  lemma ArrangedFacts(freq: seq<nat>, ls: seq<Leaf>)
    requires Arranged(freq, ls)
    ensures Sorted(ls) && forall i :: 0 <= i < |ls| ==> ls[i].index < |freq|
  {
    hide Sorted;
  }

  lemma ArrangedWeights(freq: seq<nat>, ls: seq<Leaf>)
    requires Arranged(freq, ls) && |ls| >= 2
    ensures Leaves(Weights(ls))
  {
    var w := Weights(ls);
    forall i, j | 0 <= i <= j < |w|
      ensures w[i] <= w[j]
    {
      assert i < j ==> Le(ls[i], ls[j]);
    }
  }

  // ----- Lengths of the symbols from lengths of the leaves

  /** Leaf i of the first k has given its length to its symbol. */
  function Assign(ls: seq<Leaf>, ch: Chain, k: nat, size: nat): (lens: seq<nat>)
    requires k <= |ls| && forall i :: 0 <= i < |ls| ==> ls[i].index < size
    ensures |lens| == size
  {
    if k == 0 then seq(size, _ => 0)
    else Assign(ls, ch, k - 1, size)[ls[k - 1].index := LeafLength(ch, k - 1)]
  }

  lemma {:induction false} AssignAt(freq: seq<nat>, ls: seq<Leaf>, ch: Chain, k: nat)
    requires Arranged(freq, ls) && k <= |ls|
    ensures
      var lens := Assign(ls, ch, k, |freq|);
      && (forall i :: 0 <= i < k ==> lens[ls[i].index] == LeafLength(ch, i))
      && (forall s :: 0 <= s < |freq| && (forall i :: 0 <= i < k ==> ls[i].index != s) ==> lens[s] == 0)
  {
    if k > 0 {
      AssignAt(freq, ls, ch, k - 1);
    }
  }

  lemma NotYetAssigned(freq: seq<nat>, ls: seq<Leaf>, ch: Chain, k: nat)
    requires Arranged(freq, ls) && k < |ls|
    ensures ls[k].index < |freq| && Assign(ls, ch, k, |freq|)[ls[k].index] == 0
  {
    hide Sorted, LeafLength, Assign;
    AssignAt(freq, ls, ch, k);
  }

  /** The Kraft sum of the first n lengths, scaled by 2^L. */
  function CodeSpace(lens: seq<nat>, L: nat, n: nat): nat
    requires n <= |lens|
  {
    if n == 0 then 0
    else CodeSpace(lens, L, n - 1) + (if 1 <= lens[n - 1] <= L then Pow2(L - lens[n - 1]) else 0)
  }

  lemma {:induction false} CodeSpaceUpdate(lens: seq<nat>, lens': seq<nat>, L: nat, s: nat, v: nat, n: nat)
    requires n <= |lens| && s < |lens| && lens[s] == 0 && 1 <= v <= L && lens' == lens[s := v]
    ensures CodeSpace(lens', L, n) == CodeSpace(lens, L, n) + (if s < n then Pow2(L - v) else 0)
  {
    if n > 0 {
      CodeSpaceUpdate(lens, lens', L, s, v, n - 1);
    }
  }

  lemma {:induction false} NoCodeSpace(lens: seq<nat>, L: nat, n: nat)
    requires n <= |lens| && forall i :: 0 <= i < |lens| ==> lens[i] == 0
    ensures CodeSpace(lens, L, n) == 0
  {
    if n > 0 {
      NoCodeSpace(lens, L, n - 1);
    }
  }

  lemma {:induction false} SpaceIsWidths(lens: Lengths, n: nat)
    requires n <= |lens|
    ensures CodeSpace(lens, LONGEST, n) == WidthSum(lens, LONGEST, n)
  {
    if n > 0 {
      SpaceIsWidths(lens, n - 1);
    }
  }

  /** The Kraft sum against a longer longest length. */
  lemma {:induction false} SpaceScale(lens: seq<nat>, a: nat, b: nat, n: nat)
    requires n <= |lens| && a <= b && forall i :: 0 <= i < |lens| ==> lens[i] <= a
    ensures CodeSpace(lens, b, n) == Times(CodeSpace(lens, a, n), Pow2(b - a))
  {
    hide Times, Pow2;
    if n == 0 {
      TimesZero(Pow2(b - a));
    } else {
      SpaceScale(lens, a, b, n - 1);
      if lens[n - 1] >= 1 {
        Pow2Product(a - lens[n - 1], b - a);
        TimesPlus(CodeSpace(lens, a, n - 1), Pow2(a - lens[n - 1]), Pow2(b - a));
      }
    }
  }

  lemma {:induction false} Pow2Product(a: nat, b: nat)
    ensures Pow2(a + b) == Times(Pow2(a), Pow2(b))
  {
    if a == 0 {
      assert Pow2(0) == 1;
      TimesOne(Pow2(b));
    } else {
      Pow2Product(a - 1, b);
      assert Times(2 * Pow2(a - 1), Pow2(b)) == 2 * Times(Pow2(a - 1), Pow2(b));
    }
  }

  /** Whether the lengths are those of a prefix code, or of a complete one, does not depend
      on the limit. */
  lemma SpaceFits(lens: Lengths, a: nat)
    requires a <= LONGEST && forall i :: 0 <= i < |lens| ==> lens[i] <= a
    ensures CodeSpace(lens, a, |lens|) <= Pow2(a) <==> Kraft(lens) <= Pow2(LONGEST)
    ensures CodeSpace(lens, a, |lens|) == Pow2(a) <==> Complete(lens)
  {
    hide Times, Pow2, CodeSpace, Kraft, WidthSum;
    var x, y, p := CodeSpace(lens, a, |lens|), Pow2(a), Pow2(LONGEST - a);
    SpaceScale(lens, a, LONGEST, |lens|);
    SpaceIsWidths(lens, |lens|);
    KraftIsSum(lens);
    Pow2Product(a, LONGEST - a);
    if x > y {
      TimesMonotone(y + 1, x, p);
      TimesNext(y, p);
    } else if x < y {
      TimesMonotone(x + 1, y, p);
      TimesNext(x, p);
    }
  }

  lemma {:induction false} AssignKraft(freq: seq<nat>, ls: seq<Leaf>, ch: Chain, k: nat, d: nat)
    requires Arranged(freq, ls) && k <= |ls|
    requires forall i :: 0 <= i < |ls| ==> 1 <= LeafLength(ch, i) <= d
    ensures CodeSpace(Assign(ls, ch, k, |freq|), d, |freq|) == LeafKraft(ch, k, d)
  {
    hide CodeSpace, LeafLength, Pow2, Arranged;
    ArrangedFacts(freq, ls);
    var lens := Assign(ls, ch, k, |freq|);
    if k == 0 {
      NoCodeSpace(lens, d, |lens|);
    } else {
      AssignKraft(freq, ls, ch, k - 1, d);
      var before := Assign(ls, ch, k - 1, |freq|);
      NotYetAssigned(freq, ls, ch, k - 1);
      CodeSpaceUpdate(before, lens, d, ls[k - 1].index, LeafLength(ch, k - 1), |lens|);
    }
  }

  /** What the lengths are good for: they make a complete code of at most maxbits bits
      in which every symbol that occurs has a place and a more frequent one never a
      longer code.  With two or more symbols that occur, no others get a code. */
  ghost predicate GoodLengths(freq: seq<nat>, maxbits: nat, lens: seq<nat>) {
    && |lens| == |freq|
    && (forall s :: 0 <= s < |lens| ==> lens[s] <= maxbits)
    && (forall s :: 0 <= s < |lens| && freq[s] > 0 ==> lens[s] >= 1)
    && (forall s, t :: 0 <= s < |lens| && 0 <= t < |lens| && freq[s] > freq[t] > 0 ==> lens[s] <= lens[t])
    && (|LeavesOf(freq, |freq|)| >= 2 ==> forall s :: 0 <= s < |lens| && freq[s] == 0 ==> lens[s] == 0)
    && CodeSpace(lens, maxbits, |lens|) == Pow2(maxbits)
  }

  lemma GoodIsComplete(freq: seq<nat>, maxbits: nat, lens: seq<nat>)
    requires GoodLengths(freq, maxbits, lens) && maxbits <= LONGEST
    ensures (forall s :: 0 <= s < |lens| ==> lens[s] <= LONGEST) && Complete(lens)
  {
    hide LeavesOf, CodeSpace, Kraft;
    SpaceFits(lens, maxbits);
  }

  lemma ChainGivesGoodLengths(freq: seq<nat>, ls: seq<Leaf>, ch: Chain, maxbits: nat)
    requires Arranged(freq, ls) && |ls| >= 2
    requires WellCounted(ch) && Items(ch) == 2 * |ls| - 2 && ch.Node? && ch.index <= |ls| && Depth(ch) <= maxbits
    ensures GoodLengths(freq, maxbits, Assign(ls, ch, |ls|, |freq|))
  {
    hide Arranged, Sorted, CodeSpace, LeafKraft, Items, Depth, WellCounted, LeafLength, Assign, LeavesOf;
    ArrangedFacts(freq, ls);
    var n, lens := |ls|, Assign(ls, ch, |ls|, |freq|);
    DepthOfNode(ch);
    ChainIsComplete(ch, n, maxbits);
    AssignKraft(freq, ls, ch, n, maxbits);
    forall s | 0 <= s < |freq|
      ensures lens[s] <= maxbits
      ensures freq[s] > 0 ==> lens[s] >= 1
      ensures freq[s] == 0 ==> lens[s] == 0
    {
      var i := LengthOfSymbol(freq, ls, ch, s);
    }
    forall s, t | 0 <= s < |freq| && 0 <= t < |freq| && freq[s] > freq[t] > 0
      ensures lens[s] <= lens[t]
    {
      var i := LengthOfSymbol(freq, ls, ch, s);
      var j := LengthOfSymbol(freq, ls, ch, t);
      HeavierLater(ls, i, j);
      LeafLengthBounds(ch, j, i);
    }
  }

  lemma DepthOfNode(ch: Chain)
    requires ch.Node?
    ensures Depth(ch) > 0
  {
  }

  lemma LengthOfSymbol(freq: seq<nat>, ls: seq<Leaf>, ch: Chain, s: nat) returns (i: nat)
    requires Arranged(freq, ls) && s < |freq|
    ensures freq[s] > 0 ==>
      i < |ls| && ls[i].weight == freq[s] && Assign(ls, ch, |ls|, |freq|)[s] == LeafLength(ch, i)
    ensures freq[s] == 0 ==> Assign(ls, ch, |ls|, |freq|)[s] == 0
  {
    hide Sorted, LeafLength, Assign;
    AssignAt(freq, ls, ch, |ls|);
    i := 0;
    if freq[s] > 0 {
      i := LeafAt(freq, ls, s);
    } else {
      assert forall j :: 0 <= j < |ls| ==> LeafOk(freq, ls[j]);
    }
  }

  lemma LeafAt(freq: seq<nat>, ls: seq<Leaf>, s: nat) returns (i: nat)
    requires Arranged(freq, ls) && s < |freq| && freq[s] > 0
    ensures i < |ls| && ls[i] == Leaf(freq[s], s)
  {
    assert Leaf(freq[s], s) in ls;
    i :| 0 <= i < |ls| && ls[i] == Leaf(freq[s], s);
  }

  lemma HeavierLater(ls: seq<Leaf>, i: nat, j: nat)
    requires Sorted(ls) && i < |ls| && j < |ls| && ls[i].weight > ls[j].weight
    ensures j < i
  {
  }
}
