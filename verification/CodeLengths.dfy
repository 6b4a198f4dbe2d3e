/** Length-limited Huffman code lengths from symbol frequencies. */
module CodeLengths {
  import opened Bits
  import opened Outcomes
  import opened CanonicalCode
  import opened PackageLists
  import opened PackageMerge
  import opened NodePool
  import opened LeafSort
  import opened SymbolLeaves
  import opened CheapestLengths
  import opened HuffmanTree

  // ----- The code

  method CollectLeaves(freq: seq<nat>) returns (leaves: array<Leaf>)
    ensures fresh(leaves) && leaves[..] == LeavesOf(freq, |freq|)
  {
    var a := new Leaf[|freq|](_ => Leaf(0, 0));
    var numpresent := 0;
    for i := 0 to |freq|
      invariant numpresent <= i && a[..numpresent] == LeavesOf(freq, i)
    {
      if freq[i] > 0 {
        a[numpresent] := Leaf(freq[i], i);
        numpresent := numpresent + 1;
      }
    }
    leaves := new Leaf[numpresent](i requires 0 <= i < numpresent reads a => a[i]);
    assert leaves[..] == a[..numpresent];
  }

  /** One bit for each of the first `part` leaves in the current node, and what the
      nodes before it gave; `rest` is the chain from the current node on. */
  ghost predicate Spelled(lens: seq<nat>, ls: seq<Leaf>, ch: Chain, rest: Chain, part: nat) {
    && (forall i :: 0 <= i < |ls| ==> ls[i].index < |lens|)
    && (forall i :: 0 <= i < |ls| ==>
         lens[ls[i].index] + LeafLength(rest, i) == LeafLength(ch, i) + (if i < part then 1 else 0))
    && (forall s :: 0 <= s < |lens| && (forall i :: 0 <= i < |ls| ==> ls[i].index != s) ==> lens[s] == 0)
  }

  lemma SpelledStep(lens: seq<nat>, ls: seq<Leaf>, ch: Chain, rest: Chain, part: nat, freq: seq<nat>)
    requires Arranged(freq, ls) && part < |ls| && Spelled(lens, ls, ch, rest, part)
    ensures Spelled(lens[ls[part].index := lens[ls[part].index] + 1], ls, ch, rest, part + 1)
  {
    hide Sorted, LeafLength;
  }

  lemma SpelledNode(lens: seq<nat>, ls: seq<Leaf>, ch: Chain, rest: Chain)
    requires rest.Node? && Spelled(lens, ls, ch, rest, rest.index)
    ensures Spelled(lens, ls, ch, rest.tail, 0)
  {
  }

  lemma SpelledOut(lens: seq<nat>, ls: seq<Leaf>, ch: Chain, freq: seq<nat>)
    requires Arranged(freq, ls) && |lens| == |freq| && Spelled(lens, ls, ch, End, 0)
    ensures lens == Assign(ls, ch, |ls|, |freq|)
  {
    hide Sorted, Assign;
    AssignAt(freq, ls, ch, |ls|);
    var want := Assign(ls, ch, |ls|, |freq|);
    forall s | 0 <= s < |freq|
      ensures lens[s] == want[s]
    {
      if i :| 0 <= i < |ls| && ls[i].index == s {
        assert lens[ls[i].index] == want[ls[i].index];
      }
    }
  }

  /** Walks the last chain and counts, for every leaf, the nodes that use it. */
  method SpellLengths(lists: BPMLists, leaves: array<Leaf>, ghost freq: seq<nat>, numcodes: nat, ghost ch: Chain)
    returns (lengths: seq<nat>)
    requires lists.Valid() && lists.listsize > 0 && ch == lists.l.ch1[lists.listsize - 1]
    requires numcodes == |freq| && Arranged(freq, leaves[..]) && WellCounted(ch) && ch.index <= leaves.Length
    ensures lengths == Assign(leaves[..], ch, leaves.Length, numcodes)
  {
    hide Arranged, Spelled, Assign, Sorted, AllReach, FreeOk;
    ghost var ls, mem := leaves[..], lists.memory[..];
    lengths := seq(numcodes, _ => 0);
    StartSpelling(lengths, ls, ch, freq);
    var node := lists.chains1[lists.listsize - 1];
    ghost var rest := ch;
    while node != NULL
      invariant lists.memory[..] == mem && leaves[..] == ls
      invariant Represents(mem, node, rest) && WellCounted(rest) && (rest.Node? ==> rest.index <= |ls|)
      invariant |lengths| == numcodes && Spelled(lengths, ls, ch, rest, 0)
      decreases rest
    {
      var index := lists.memory[node].index;
      for i := 0 to index
        invariant |lengths| == numcodes && Spelled(lengths, ls, ch, rest, i)
      {
        SpelledStep(lengths, ls, ch, rest, i, freq);
        assert leaves[i] == ls[i] && ls[i].index < |freq| by { LeafInRange(freq, ls, i); }
        lengths := lengths[leaves[i].index := lengths[leaves[i].index] + 1];
      }
      SpelledNode(lengths, ls, ch, rest);
      node := lists.memory[node].tail;
      rest := rest.tail;
    }
    SpelledOut(lengths, ls, ch, freq);
  }

  lemma LeafInRange(freq: seq<nat>, ls: seq<Leaf>, i: nat)
    requires Arranged(freq, ls) && i < |ls|
    ensures ls[i].index < |freq|
  {
    assert LeafOk(freq, ls[i]);
  }

  lemma StartSpelling(lens: seq<nat>, ls: seq<Leaf>, ch: Chain, freq: seq<nat>)
    requires Arranged(freq, ls) && |lens| == |freq| && forall s :: 0 <= s < |lens| ==> lens[s] == 0
    ensures Spelled(lens, ls, ch, ch, 0)
  {
    hide Sorted, LeafLength;
  }

  /** Asks the last list for one item after the other until it has given 2n - 2. */
  method RunRounds(ls: seq<Leaf>, maxbitlen: nat) returns (lists: BPMLists)
    requires |ls| >= 2 && Leaves(Weights(ls)) && maxbitlen > 0
    ensures lists.Valid() && lists.listsize == maxbitlen
    ensures lists.l.ch1[maxbitlen - 1] == FinalChain(Weights(ls), maxbitlen)
  {
    hide Arranged, Leaves, Represents, AllReach, FreeOk, Step, AllRepresent, DepthOk, Weights, InitialLists;
    lists := new BPMLists(maxbitlen, ls);
    for i := 2 to 2 * |ls| - 2
      invariant lists.Valid() && lists.listsize == maxbitlen
      invariant fresh(lists) && fresh(lists.memory) && fresh(lists.freelist) && fresh(lists.chains0) && fresh(lists.chains1)
      invariant lists.l == Rounds(Weights(ls), maxbitlen, i)
    {
      lists.BoundaryPM(ls, maxbitlen - 1, i);
    }
  }

  /** Boundary package-merge for two or more leaves. */
  method PackageLengths(freq: seq<nat>, leaves: array<Leaf>, maxbitlen: nat) returns (lengths: seq<nat>)
    requires leaves[..] == LeavesOf(freq, |freq|) && leaves.Length >= 2
    requires |freq| <= Pow2(maxbitlen)
    modifies leaves
    ensures GoodLengths(freq, maxbitlen, lengths) && Cheapest(freq, maxbitlen, lengths)
  {
    hide Cheapest, ChainOf, List, FinalChain, LeafLength, Arranged, GoodLengths, LeavesOf, Sorted, ByIndex, Leaves, WellCounted, Depth, Items, Assign, Weights;
    LeavesOfOk(freq, |freq|);
    assert |leaves[..]| == leaves.Length;
    BpmnodeSort(leaves);
    var ls := leaves[..];
    SortedIsArranged(freq, ls);
    ArrangedWeights(freq, ls);
    assert Pow2(0) == 1;
    var lists := RunRounds(ls, maxbitlen);
    ghost var ch := FinalChain(Weights(ls), maxbitlen);
    FinalChainCounted(Weights(ls), maxbitlen);
    lengths := SpellLengths(lists, leaves, freq, |freq|, ch);
    ChainGivesGoodLengths(freq, ls, ch, maxbitlen);
    ArrangedFacts(freq, ls);
    ChainIsCheapest(freq, ls, maxbitlen);
  }

  /** With fewer than two symbols that occur, two lengths are set to 1.  A single
      symbol has no second one: the write lies outside the lengths then, and only then.
      The limit on the number of symbols is a shift of a 32-bit word. */
  method CodeLengths(freq: seq<nat>, maxbitlen: nat) returns (outcome: Outcome, lengths: seq<nat>)
    ensures outcome.Undefined? <==> |freq| == 1 || (|freq| > 0 && maxbitlen >= 32)
    ensures outcome == Returns(80) <==> |freq| == 0 || (maxbitlen < 32 && Pow2(maxbitlen) < |freq|)
    ensures !outcome.Undefined? && outcome != Returns(80) ==>
      outcome == Returns(0) && GoodLengths(freq, maxbitlen, lengths) && Cheapest(freq, maxbitlen, lengths)
  {
    hide Cheapest, Arranged, GoodLengths, LeavesOf, Sorted, ByIndex, Leaves, Represents, AllReach, FreeOk, WellCounted, Depth, Items, Assign;
    lengths := [];
    if |freq| == 0 {
      return Returns(80), lengths;
    }
    if maxbitlen >= 32 {
      return Undefined, lengths;
    }
    if Pow2(maxbitlen) < |freq| {
      return Returns(80), lengths;
    }
    var leaves := CollectLeaves(freq);
    LeavesOfOk(freq, |freq|);
    var numpresent := leaves.Length;
    assert |leaves[..]| == numpresent;
    var other := OtherSymbol(leaves[..]);
    if numpresent <= 1 {
      OtherOutside(freq);
      if other >= |freq| {
        return Undefined, lengths;
      }
    }
    if numpresent == 0 {
      lengths := seq(|freq|, _ => 0)[0 := 1][other := 1];
      TwoOnes(freq, maxbitlen, lengths, 0, other);
    } else if numpresent == 1 {
      var index := leaves[0].index;
      assert LeafOk(freq, leaves[0]) by { assert leaves[..][0] in leaves[..]; }
      lengths := seq(|freq|, _ => 0)[index := 1][other := 1];
      OnlyLeaf(freq, leaves[0]);
      TwoOnes(freq, maxbitlen, lengths, index, other);
    } else {
      LeavesFit(freq, |freq|);
      lengths := PackageLengths(freq, leaves, maxbitlen);
    }
    outcome := Returns(0);
  }

  /** The symbol that gets a code of one bit besides symbol 0, or besides the only one
      that occurs. */
  function OtherSymbol(leaves: seq<Leaf>): nat {
    if leaves == [] || leaves[0].index == 0 then 1 else 0
  }

  lemma OtherOutside(freq: seq<nat>)
    requires freq != [] && |LeavesOf(freq, |freq|)| <= 1
    ensures OtherSymbol(LeavesOf(freq, |freq|)) >= |freq| <==> |freq| == 1
  {
    LeavesOfOk(freq, |freq|);
  }

  lemma SingleSymbolOutside()
    ensures OtherSymbol(LeavesOf([1], 1)) == 1
  {
    assert LeavesOf([1], 0) == [];
  }

  lemma {:induction false} LeavesFit(freq: seq<nat>, n: nat)
    requires n <= |freq|
    ensures |LeavesOf(freq, n)| <= n
  {
    if n > 0 {
      LeavesFit(freq, n - 1);
    }
  }

  lemma OnlyLeaf(freq: seq<nat>, x: Leaf)
    requires LeavesOf(freq, |freq|) == [x]
    ensures forall s :: 0 <= s < |freq| && s != x.index ==> freq[s] == 0
  {
    LeavesOfOk(freq, |freq|);
    forall s | 0 <= s < |freq| && s != x.index
      ensures freq[s] == 0
    {
      assert Leaf(freq[s], s) !in [x];
    }
  }

  /** With fewer than two symbols that occur there are two codes of one bit. */
  lemma TwoOnes(freq: seq<nat>, maxbits: nat, lens: seq<nat>, a: nat, b: nat)
    requires |lens| == |freq| && a < |lens| && b < |lens| && a != b && 1 <= maxbits
    requires lens == seq(|freq|, _ => 0)[a := 1][b := 1]
    requires forall s :: 0 <= s < |freq| && s != a ==> freq[s] == 0
    requires |LeavesOf(freq, |freq|)| <= 1
    ensures GoodLengths(freq, maxbits, lens) && Cheapest(freq, maxbits, lens)
  {
    hide LeavesOf, CodeSpace, Cheapest;
    OneBitIsCheapest(freq, maxbits, lens);
    TwoOnesComplete(lens, a, b, maxbits);
  }

  lemma TwoOnesComplete(lens: seq<nat>, a: nat, b: nat, L: nat)
    requires a < |lens| && b < |lens| && a != b && lens == seq(|lens|, _ => 0)[a := 1][b := 1] && L >= 1
    ensures (forall s :: 0 <= s < |lens| ==> lens[s] <= 1) && CodeSpace(lens, L, |lens|) == Pow2(L)
  {
    hide CodeSpace;
    var zero := seq(|lens|, _ => 0);
    var one := zero[a := 1];
    assert lens == one[b := 1];
    NoCodeSpace(zero, L, |zero|);
    CodeSpaceUpdate(zero, one, L, a, 1, |one|);
    CodeSpaceUpdate(one, lens, L, b, 1, |lens|);
    assert Pow2(L) == 2 * Pow2(L - 1);
  }

  // ----- The tree

  /** How many symbols are left when absent ones at the end are dropped. */
  function Trimmed(freq: seq<nat>, mincodes: nat, n: nat): (k: nat)
    requires 0 < mincodes <= n <= |freq|
    ensures mincodes <= k <= n && (k > mincodes ==> freq[k - 1] > 0)
    ensures forall i :: k <= i < n ==> freq[i] == 0
  {
    if freq[n - 1] == 0 && n > mincodes then Trimmed(freq, mincodes, n - 1) else n
  }

  method MakeFromFrequencies(tree: HuffmanTree, freq: seq<nat>, mincodes: nat, maxbitlen: nat) returns (error: nat)
    requires 2 <= mincodes <= |freq| <= MAXSYMBOLS && maxbitlen <= LONGEST
    modifies tree
    ensures
      var k := Trimmed(freq, mincodes, |freq|);
      && (error == if Pow2(maxbitlen) < k then 80 else 0)
      && (error == 0 ==> tree.Ready() && Complete(tree.lengths) && GoodLengths(freq[..k], maxbitlen, tree.lengths) && Cheapest(freq[..k], maxbitlen, tree.lengths))
  {
    var numcodes := |freq|;
    while freq[numcodes - 1] == 0 && numcodes > mincodes
      invariant mincodes <= numcodes <= |freq|
      invariant Trimmed(freq, mincodes, |freq|) == Trimmed(freq, mincodes, numcodes)
    {
      numcodes := numcodes - 1;
    }
    var outcome, lengths := CodeLengths(freq[..numcodes], maxbitlen);
    error := outcome.error;
    if error == 0 {
      GoodIsComplete(freq[..numcodes], maxbitlen, lengths);
      tree.maxbitlen := maxbitlen;
      tree.numcodes := numcodes;
      tree.lengths := lengths;
      error := tree.MakeFromLengths2();
    }
  }
}
