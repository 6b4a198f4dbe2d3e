/** Boundary package-merge on immutable chains.

    Two look-ahead chains are kept per list; they stand for two prefixes of it, one item
    apart. */
module PackageMerge {
  import opened Bits
  import opened PackageLists

  datatype Lists = Lists(ch0: seq<Chain>, ch1: seq<Chain>)

  predicate ValidLists(l: Lists) {
    && |l.ch0| == |l.ch1|
    && (forall c :: 0 <= c < |l.ch0| ==> l.ch0[c].Node? && l.ch1[c].Node?)
  }

  /** One more item for list c.  A package is replaced in the list below by two new
      look-ahead items, except in the last round. */
  function Step(w: seq<nat>, l: Lists, c: nat, recurse: bool): (l': Lists)
    requires ValidLists(l) && c < |l.ch0|
    ensures ValidLists(l') && |l'.ch0| == |l.ch0|
    ensures forall j :: c < j < |l.ch0| ==> l'.ch0[j] == l.ch0[j] && l'.ch1[j] == l.ch1[j]
    decreases c
  {
    if c == 0 then
      if l.ch1[0].index >= |w| then l else Push(l, 0, LeafNode(w, l, 0))
    else if LeafFirst(w, l, c) then
      Push(l, c, LeafNode(w, l, c))
    else
      var l1 := Push(l, c, PackageNode(l, c));
      if recurse then Step(w, Step(w, l1, c - 1, true), c - 1, true) else l1
  }

  lemma StepLeaf(w: seq<nat>, l: Lists, c: nat, recurse: bool)
    requires ValidLists(l) && c < |l.ch0| && (if c == 0 then l.ch1[0].index < |w| else LeafFirst(w, l, c))
    ensures Step(w, l, c, recurse) == Push(l, c, LeafNode(w, l, c))
  {
  }

  lemma StepNothing(w: seq<nat>, l: Lists, recurse: bool)
    requires ValidLists(l) && 0 < |l.ch0| && l.ch1[0].index >= |w|
    ensures Step(w, l, 0, recurse) == l
  {
  }

  lemma StepPackages(w: seq<nat>, l: Lists, c: nat, recurse: bool)
    requires ValidLists(l) && 0 < c < |l.ch0| && !LeafFirst(w, l, c)
    ensures
      var l1 := Push(l, c, PackageNode(l, c));
      Step(w, l, c, recurse) == if recurse then Step(w, Step(w, l1, c - 1, true), c - 1, true) else l1
  {
  }

  /** The new look-ahead chain of list c; the previous one moves back. */
  function Push(l: Lists, c: nat, node: Chain): (l': Lists)
    requires ValidLists(l) && c < |l.ch0| && node.Node?
    ensures ValidLists(l')
  {
    Lists(l.ch0[c := l.ch1[c]], l.ch1[c := node])
  }

  function PackageWeight(l: Lists, c: nat): nat
    requires ValidLists(l) && 0 < c < |l.ch0|
  {
    l.ch0[c - 1].weight + l.ch1[c - 1].weight
  }

  /** A leaf is taken only if it is strictly lighter than the next package. */
  predicate LeafFirst(w: seq<nat>, l: Lists, c: nat)
    requires ValidLists(l) && 0 < c < |l.ch0|
  {
    l.ch1[c].index < |w| && PackageWeight(l, c) > w[l.ch1[c].index]
  }

  function LeafNode(w: seq<nat>, l: Lists, c: nat): Chain
    requires ValidLists(l) && c < |l.ch0| && l.ch1[c].index < |w|
  {
    Node(w[l.ch1[c].index], l.ch1[c].index + 1, if c == 0 then End else l.ch1[c].tail)
  }

  function PackageNode(l: Lists, c: nat): Chain
    requires ValidLists(l) && 0 < c < |l.ch0|
  {
    Node(PackageWeight(l, c), l.ch1[c].index, l.ch1[c - 1])
  }

  /** How many items list c has. */
  function Cap(n: nat, c: nat): (s: nat)
    ensures s >= n
  {
    if c == 0 then n else n + Cap(n, c - 1) / 2
  }

  /** How many items a chain stands for. */
  function Items(ch: Chain): nat {
    match ch
    case End => 0
    case Node(_, index, tail) => index + Items(tail) / 2
  }

  /** Packages come in pairs of items, and no list uses more leaves than the next. */
  predicate WellCounted(ch: Chain) {
    match ch
    case End => true
    case Node(_, index, tail) =>
      Items(tail) % 2 == 0 && (tail.Node? ==> tail.index <= index) && WellCounted(tail)
  }

  function Depth(ch: Chain): nat {
    match ch
    case End => 0
    case Node(_, _, tail) => 1 + Depth(tail)
  }

  /** As long as the list has that many items, the newer chain stands for the first r
      of them, and the older one ends in the item before. */
  predicate Prefix(w: seq<nat>, c0: Chain, c1: Chain, r: nat, c: nat)
    requires c0.Node?
  {
    r <= |List(w, c)| ==> r >= 2 && c1 == ChainOf(w, c, r) && c0.weight == List(w, c)[r - 2]
  }

  lemma {:induction false} ListSize(w: seq<nat>, c: nat)
    ensures |List(w, c)| == Cap(|w|, c)
  {
    if c > 0 {
      ListSize(w, c - 1);
    }
  }

  /** State of list c after r items have been asked for.  Once r exceeds the number
      of items the chain is no longer a prefix, but it still has used all leaves. */
  predicate ListOk(w: seq<nat>, c0: Chain, c1: Chain, r: nat, c: nat)
    requires Leaves(w)
  {
    && c0.Node? && c1.Node?
    && 0 < c0.weight <= c1.weight
    && 1 <= c1.index <= |w| && c1.index <= r
    && w[c1.index - 1] <= c1.weight && (c1.index < |w| ==> c1.weight <= w[c1.index])
    && (if r <= Cap(|w|, c) then WellCounted(c1) && Items(c1) == r else c1.index == |w|)
    && Depth(c0) <= c + 1 && Depth(c1) <= c + 1
    && (c == 0 && r <= |w| ==> c1.index == r)
    && Prefix(w, c0, c1, r, c)
  }

  /** How list c depends on the list below it. */
  predicate Linked(w: seq<nat>, lo0: Chain, lo1: Chain, rlo: nat, hi: Chain, rhi: nat, c: nat)
    requires Leaves(w) && c > 0 && lo0.Node? && lo1.Node? && hi.Node?
  {
    && hi.index <= rhi
    && rlo == 2 * (rhi - hi.index) + 2
    && hi.weight <= lo0.weight + lo1.weight
    && (hi.index < |w| ==> 2 * (rhi - hi.index) <= Cap(|w|, c - 1))
  }

  /** Lists 0 to c are in order; r[j] items have been asked for in list j. */
  ghost predicate Inv(w: seq<nat>, l: Lists, r: seq<nat>, c: nat)
    requires Leaves(w) && ValidLists(l) && |r| == |l.ch0| && c < |r|
  {
    && (forall j :: 0 <= j <= c ==> ListOk(w, l.ch0[j], l.ch1[j], r[j], j))
    && (forall j :: 0 < j <= c ==> Linked(w, l.ch0[j - 1], l.ch1[j - 1], r[j - 1], l.ch1[j], r[j], j))
  }

  // ----- The next item of one list

  lemma PrefixFacts(w: seq<nat>, c0: Chain, c1: Chain, r: nat, c: nat)
    requires Leaves(w) && ListOk(w, c0, c1, r, c) && r <= |List(w, c)|
    ensures r >= 2 && c0.weight == List(w, c)[r - 2] && c1.weight == List(w, c)[r - 1] && c1 == ChainOf(w, c, r)
    ensures c1.index == LeafCount(w, c, r) && c1.tail == if c == 0 then End else ChainOf(w, c - 1, 2 * (r - c1.index))
  {
    hide Cap, WellCounted, Items, Depth, List, LeafCount;
  }

  /** If the list below has the items of the next package, they are its look-ahead items. */
  lemma NextPair(w: seq<nat>, lo0: Chain, lo1: Chain, rlo: nat, c1: Chain, r: nat, c: nat)
    requires Leaves(w) && c > 0 && lo0.Node? && lo1.Node? && c1.Node? && c1.index <= r
    requires 2 * (r - c1.index) + 2 <= |List(w, c - 1)|
    requires ListOk(w, lo0, lo1, rlo, c - 1) && Linked(w, lo0, lo1, rlo, c1, r, c)
    ensures lo0.weight + lo1.weight == Pairs(List(w, c - 1))[r - c1.index] && lo1 == ChainOf(w, c - 1, rlo)
  {
    hide ListOk, List, ChainOf, Cap;
    PrefixFacts(w, lo0, lo1, rlo, c - 1);
  }

  /** The item after the first r ones of a list above the first. */
  lemma NextOfList(w: seq<nat>, c: nat, r: nat, a: nat, a': nat, v: nat)
    requires c > 0 && r + 1 <= |List(w, c)| && a == LeafCount(w, c, r) && a' <= r + 1
    requires var p := Pairs(List(w, c - 1));
             if a < |w| && (r - a >= |p| || p[r - a] > w[a]) then a' == a + 1 && v == w[a]
             else r - a < |p| && a' == a && v == p[r - a]
    ensures List(w, c)[r] == v && a' == LeafCount(w, c, r + 1) && 2 * (r + 1 - a') <= |List(w, c - 1)|
    ensures ChainOf(w, c, r + 1) == Node(v, a', ChainOf(w, c - 1, 2 * (r + 1 - a')))
  {
    hide Merge, FromFirst;
    NextOfMerge(w, Pairs(List(w, c - 1)), r);
  }

  lemma LeafPrefix(w: seq<nat>, lo0: Chain, lo1: Chain, rlo: nat, c0: Chain, c1: Chain, r: nat, c: nat)
    requires Leaves(w) && c > 0
    requires ListOk(w, lo0, lo1, rlo, c - 1) && ListOk(w, c0, c1, r, c) && Linked(w, lo0, lo1, rlo, c1, r, c)
    requires c1.Node? && lo0.Node? && lo1.Node? && c1.index < |w| && lo0.weight + lo1.weight > w[c1.index]
    ensures Prefix(w, c1, Node(w[c1.index], c1.index + 1, c1.tail), r + 1, c)
  {
    hide ListOk, Linked, List, LeafCount, ChainOf;
    if r + 1 <= |List(w, c)| {
      var a, p := c1.index, Pairs(List(w, c - 1));
      PrefixFacts(w, c0, c1, r, c);
      if r - a < |p| {
        NextPair(w, lo0, lo1, rlo, c1, r, c);
      }
      NextOfList(w, c, r, a, a + 1, w[a]);
    }
  }

  lemma PackagePrefix(w: seq<nat>, lo0: Chain, lo1: Chain, rlo: nat, c0: Chain, c1: Chain, r: nat, c: nat)
    requires Leaves(w) && c > 0
    requires ListOk(w, lo0, lo1, rlo, c - 1) && ListOk(w, c0, c1, r, c) && Linked(w, lo0, lo1, rlo, c1, r, c)
    requires c1.Node? && lo0.Node? && lo1.Node? && (c1.index < |w| ==> lo0.weight + lo1.weight <= w[c1.index])
    requires c1.index < |w| ==> rlo <= Cap(|w|, c - 1)
    ensures Prefix(w, c1, Node(lo0.weight + lo1.weight, c1.index, lo1), r + 1, c)
  {
    hide ListOk, List, LeafCount, ChainOf, Cap;
    if r + 1 <= |List(w, c)| {
      var a, p := c1.index, Pairs(List(w, c - 1));
      PrefixFacts(w, c0, c1, r, c);
      ListSize(w, c - 1);
      ListSizeNext(w, c);
      assert r - a < |p|;
      NextPair(w, lo0, lo1, rlo, c1, r, c);
      NextOfList(w, c, r, a, a, p[r - a]);
    }
  }

  lemma ListSizeNext(w: seq<nat>, c: nat)
    requires c > 0
    ensures |List(w, c)| == |w| + |Pairs(List(w, c - 1))|
  {
  }

  lemma NextLeaf(w: seq<nat>, lo0: Chain, lo1: Chain, rlo: nat, c0: Chain, c1: Chain, r: nat, c: nat)
    requires Leaves(w) && c > 0
    requires ListOk(w, lo0, lo1, rlo, c - 1) && ListOk(w, c0, c1, r, c) && Linked(w, lo0, lo1, rlo, c1, r, c)
    requires c1.index < |w| && lo0.weight + lo1.weight > w[c1.index]
    ensures
      var node := Node(w[c1.index], c1.index + 1, c1.tail);
      ListOk(w, c1, node, r + 1, c) && Linked(w, lo0, lo1, rlo, node, r + 1, c) && node.weight >= c1.weight
  {
    LeafPrefix(w, lo0, lo1, rlo, c0, c1, r, c);
    hide Prefix;
  }

  /** With more requests than items in the list below, all its leaves are used, and
      the package would weigh more than any leaf. */
  lemma PackageIsReal(w: seq<nat>, lo0: Chain, lo1: Chain, rlo: nat, c1: Chain, r: nat, c: nat)
    requires Leaves(w) && c > 0 && ListOk(w, lo0, lo1, rlo, c - 1)
    requires c1.Node? && c1.index <= r && c1.index <= |w| && Linked(w, lo0, lo1, rlo, c1, r, c)
    requires c1.index < |w| ==> lo0.weight + lo1.weight <= w[c1.index]
    requires r + 1 <= Cap(|w|, c) || c1.index < |w|
    ensures rlo <= Cap(|w|, c - 1)
    ensures lo1.index <= c1.index
  {
    hide Prefix;
    if c1.index < |w| {
      assert w[c1.index] <= w[|w| - 1];
    }
  }

  lemma NextPackage(w: seq<nat>, lo0: Chain, lo1: Chain, rlo: nat, c0: Chain, c1: Chain, r: nat, c: nat)
    requires Leaves(w) && c > 0
    requires ListOk(w, lo0, lo1, rlo, c - 1) && ListOk(w, c0, c1, r, c) && Linked(w, lo0, lo1, rlo, c1, r, c)
    requires !(c1.index < |w| && lo0.weight + lo1.weight > w[c1.index])
    ensures
      var node := Node(lo0.weight + lo1.weight, c1.index, lo1);
      && ListOk(w, c1, node, r + 1, c) && node.weight >= c1.weight
      && (c1.index < |w| ==> 2 * (r + 1 - c1.index) <= Cap(|w|, c - 1))
  {
    hide Prefix;
    if r + 1 <= Cap(|w|, c) || c1.index < |w| {
      PackageIsReal(w, lo0, lo1, rlo, c1, r, c);
    }
    PackagePrefix(w, lo0, lo1, rlo, c0, c1, r, c);
  }

  lemma FirstListNext(w: seq<nat>, c0: Chain, c1: Chain, r: nat)
    requires Leaves(w) && ListOk(w, c0, c1, r, 0)
    ensures c1.index < |w| ==> ListOk(w, c1, Node(w[c1.index], c1.index + 1, End), r + 1, 0)
    ensures c1.index < |w| ==> w[c1.index] >= c1.weight
    ensures c1.index >= |w| ==> ListOk(w, c0, c1, r + 1, 0)
  {
  }

  // ----- One step keeps everything in order

  /** Nothing changes below list c. */
  lemma PushKeepsBelow(w: seq<nat>, l: Lists, r: seq<nat>, c: nat, node: Chain)
    requires Leaves(w) && ValidLists(l) && |r| == |l.ch0| && 0 < c < |r| && Inv(w, l, r, c) && node.Node?
    ensures Inv(w, Push(l, c, node), r[c := r[c] + 1], c - 1)
  {
    hide ListOk, Linked;
    var l1, r1 := Push(l, c, node), r[c := r[c] + 1];
    forall j | 0 <= j <= c - 1
      ensures ListOk(w, l1.ch0[j], l1.ch1[j], r1[j], j)
    {
      assert ListOk(w, l.ch0[j], l.ch1[j], r[j], j);
    }
    forall j | 0 < j <= c - 1
      ensures Linked(w, l1.ch0[j - 1], l1.ch1[j - 1], r1[j - 1], l1.ch1[j], r1[j], j)
    {
      assert Linked(w, l.ch0[j - 1], l.ch1[j - 1], r[j - 1], l.ch1[j], r[j], j);
    }
  }

  lemma InvExtend(w: seq<nat>, l: Lists, r: seq<nat>, c: nat)
    requires Leaves(w) && ValidLists(l) && |r| == |l.ch0| && 0 < c < |r| && Inv(w, l, r, c - 1)
    requires ListOk(w, l.ch0[c], l.ch1[c], r[c], c)
    requires Linked(w, l.ch0[c - 1], l.ch1[c - 1], r[c - 1], l.ch1[c], r[c], c)
    ensures Inv(w, l, r, c)
  {
    hide ListOk, Linked;
  }

  /** A step asks for one more item of list c, for two more of the list below when
      a package was taken, and keeps all lists up to c in order. */
  lemma {:induction false} StepInv(w: seq<nat>, l: Lists, r: seq<nat>, c: nat) returns (r': seq<nat>)
    requires Leaves(w) && ValidLists(l) && |r| == |l.ch0| && c < |r| && Inv(w, l, r, c)
    ensures |r'| == |r| && r'[c] == r[c] + 1 && Inv(w, Step(w, l, c, true), r', c)
    ensures forall j :: c < j < |r| ==> r'[j] == r[j]
    ensures Step(w, l, c, true).ch0[c].weight >= l.ch0[c].weight
    ensures Step(w, l, c, true).ch1[c].weight >= l.ch1[c].weight
    decreases c, 1
  {
    hide ListOk, Linked, Inv;
    var last := l.ch1[c];
    InvAt(w, l, r, c);
    ListOkFacts(w, l.ch0[c], last, r[c], c);
    r' := r[c := r[c] + 1];
    if c == 0 {
      FirstListNext(w, l.ch0[0], last, r[0]);
      InvZero(w, Step(w, l, 0, true), r');
    } else if LeafFirst(w, l, c) {
      var l1 := Push(l, c, LeafNode(w, l, c));
      NextLeaf(w, l.ch0[c - 1], l.ch1[c - 1], r[c - 1], l.ch0[c], last, r[c], c);
      PushKeepsBelow(w, l, r, c, LeafNode(w, l, c));
      InvExtend(w, l1, r', c);
    } else {
      r' := StepPackage(w, l, r, c);
    }
  }

  lemma {:induction false} StepPackage(w: seq<nat>, l: Lists, r: seq<nat>, c: nat) returns (r': seq<nat>)
    requires Leaves(w) && ValidLists(l) && |r| == |l.ch0| && 0 < c < |r| && Inv(w, l, r, c)
    requires !LeafFirst(w, l, c)
    ensures |r'| == |r| && r'[c] == r[c] + 1 && Inv(w, Step(w, l, c, true), r', c)
    ensures forall j :: c < j < |r| ==> r'[j] == r[j]
    ensures Step(w, l, c, true).ch0[c] == l.ch1[c]
    ensures Step(w, l, c, true).ch1[c].weight >= l.ch1[c].weight
    decreases c, 0
  {
    hide ListOk, Linked, Inv, LeafFirst;
    var last, lo0, lo1 := l.ch1[c], l.ch0[c - 1], l.ch1[c - 1];
    var l1 := Push(l, c, PackageNode(l, c));
    var l2 := Step(w, l1, c - 1, true);
    var l3 := Step(w, l2, c - 1, true);
    assert Step(w, l, c, true) == l3;
    hide Step;
    InvAt(w, l, r, c);
    ListOkFacts(w, l.ch0[c], last, r[c], c);
    PackageOk(w, l, r, c);
    PushKeepsBelow(w, l, r, c, PackageNode(l, c));
    var r1 := StepInv(w, l1, r[c := r[c] + 1], c - 1);
    r' := StepInv(w, l2, r1, c - 1);
    LinkAgain(w, lo0, lo1, r[c - 1], l3.ch0[c - 1], l3.ch1[c - 1], last, r[c], c);
    InvExtend(w, l3, r', c);
  }

  lemma PackageOk(w: seq<nat>, l: Lists, r: seq<nat>, c: nat)
    requires Leaves(w) && ValidLists(l) && |r| == |l.ch0| && 0 < c < |r| && Inv(w, l, r, c)
    requires !LeafFirst(w, l, c)
    ensures ListOk(w, l.ch1[c], PackageNode(l, c), r[c] + 1, c)
    ensures PackageNode(l, c).weight >= l.ch1[c].weight
    ensures l.ch1[c].index < |w| ==> 2 * (r[c] + 1 - l.ch1[c].index) <= Cap(|w|, c - 1)
  {
    hide ListOk, Linked, Inv, Cap;
    InvAt(w, l, r, c);
    NextPackage(w, l.ch0[c - 1], l.ch1[c - 1], r[c - 1], l.ch0[c], l.ch1[c], r[c], c);
  }

  lemma InvAt(w: seq<nat>, l: Lists, r: seq<nat>, c: nat)
    requires Leaves(w) && ValidLists(l) && |r| == |l.ch0| && c < |r| && Inv(w, l, r, c)
    ensures ListOk(w, l.ch0[c], l.ch1[c], r[c], c)
    ensures c > 0 ==> ListOk(w, l.ch0[c - 1], l.ch1[c - 1], r[c - 1], c - 1)
    ensures c > 0 ==> Linked(w, l.ch0[c - 1], l.ch1[c - 1], r[c - 1], l.ch1[c], r[c], c)
  {
    hide Linked, Cap;
  }

  lemma InvZero(w: seq<nat>, l: Lists, r: seq<nat>)
    requires Leaves(w) && ValidLists(l) && |r| == |l.ch0| && 0 < |r| && ListOk(w, l.ch0[0], l.ch1[0], r[0], 0)
    ensures Inv(w, l, r, 0)
  {
    hide ListOk, Linked;
  }

  lemma ListOkFacts(w: seq<nat>, c0: Chain, c1: Chain, r: nat, c: nat)
    requires Leaves(w) && ListOk(w, c0, c1, r, c)
    ensures c0.Node? && c1.Node? && c1.weight >= c0.weight && c1.index <= r
  {
    hide Prefix;
  }

  /** Two more look-ahead items restore the link after a package was taken. */
  lemma LinkAgain(w: seq<nat>, lo0: Chain, lo1: Chain, rlo: nat, lo0': Chain, lo1': Chain, last: Chain, r: nat, c: nat)
    requires Leaves(w) && c > 0 && lo0.Node? && lo1.Node? && lo0'.Node? && lo1'.Node?
    requires last.Node? && last.index <= r && Linked(w, lo0, lo1, rlo, last, r, c)
    requires lo0'.weight >= lo0.weight && lo1'.weight >= lo1.weight
    requires last.index < |w| ==> 2 * (r + 1 - last.index) <= Cap(|w|, c - 1)
    ensures Linked(w, lo0', lo1', rlo + 2, Node(lo0.weight + lo1.weight, last.index, lo1), r + 1, c)
  {
  }

  // ----- The whole run

  function InitialLists(w: seq<nat>, levels: nat): (l: Lists)
    requires Leaves(w)
    ensures ValidLists(l) && |l.ch0| == levels
  {
    Lists(seq(levels, _ => Node(w[0], 1, End)), seq(levels, _ => Node(w[1], 2, End)))
  }

  /** The lists before round i; there are 2n - 4 rounds, numbered from 2, and the
      last one takes its item without replacing it below. */
  function Rounds(w: seq<nat>, levels: nat, i: nat): (l: Lists)
    requires Leaves(w) && levels > 0 && i >= 2
    ensures ValidLists(l) && |l.ch0| == levels
  {
    if i == 2 then InitialLists(w, levels)
    else Step(w, Rounds(w, levels, i - 1), levels - 1, i < 2 * |w| - 2)
  }

  function FinalChain(w: seq<nat>, levels: nat): (ch: Chain)
    requires Leaves(w) && levels > 0
    ensures ch.Node?
  {
    Rounds(w, levels, 2 * |w| - 2).ch1[levels - 1]
  }

  lemma {:induction false} CapSuffices(n: nat, c: nat, levels: nat)
    requires c < levels && n <= Pow2(levels)
    ensures Cap(n, c) + Pow2(levels - c) >= 2 * n
  {
    if c > 0 {
      CapSuffices(n, c - 1, levels);
      assert Pow2(levels - (c - 1)) == 2 * Pow2(levels - c);
    }
  }

  /** Every list begins with the two lightest leaves. */
  lemma {:induction false} FirstTwo(w: seq<nat>, c: nat)
    requires Leaves(w)
    ensures List(w, c)[0] == w[0] && List(w, c)[1] == w[1] && ChainOf(w, c, 2) == Node(w[1], 2, End)
  {
    if c > 0 {
      FirstTwo(w, c - 1);
      var p := Pairs(List(w, c - 1));
      assert p[0] == w[0] + w[1];
      assert List(w, c) == Merge(w, p) == [w[0]] + Merge(w[1..], p);
      assert Merge(w[1..], p)[0] == w[1];
      assert FromFirst(w, p, 2) == 1 + FromFirst(w[1..], p, 1);
      assert FromFirst(w[1..], p, 1) == 1;
      assert LeafCount(w, c, 2) == 2;
    }
  }

  lemma InitialListOk(w: seq<nat>, c: nat)
    requires Leaves(w)
    ensures ListOk(w, Node(w[0], 1, End), Node(w[1], 2, End), 2, c)
  {
    FirstTwo(w, c);
    var a, b := Node(w[0], 1, End), Node(w[1], 2, End);
    assert Items(End) == 0 && WellCounted(End) && Depth(End) == 0;
    assert Items(b) == 2 && WellCounted(b) && Depth(a) == 1 && Depth(b) == 1;
    assert Prefix(w, a, b, 2, c);
    assert 2 <= Cap(|w|, c);
    assert 0 < a.weight <= b.weight;
    assert w[b.index - 1] <= b.weight && (b.index < |w| ==> b.weight <= w[b.index]);
  }

  lemma InitialInv(w: seq<nat>, levels: nat)
    requires Leaves(w) && levels > 0
    ensures Inv(w, InitialLists(w, levels), seq(levels, _ => 2), levels - 1)
  {
    hide ListOk;
    var l, r := InitialLists(w, levels), seq(levels, _ => 2);
    forall j | 0 <= j <= levels - 1
      ensures ListOk(w, l.ch0[j], l.ch1[j], r[j], j)
    {
      InitialListOk(w, j);
    }
  }

  lemma {:induction false} RoundsInv(w: seq<nat>, levels: nat, i: nat) returns (r: seq<nat>)
    requires Leaves(w) && levels > 0 && 2 <= i < 2 * |w| - 2
    ensures |r| == levels && r[levels - 1] == i && Inv(w, Rounds(w, levels, i), r, levels - 1)
  {
    hide Inv, Step;
    if i == 2 {
      r := seq(levels, _ => 2);
      InitialInv(w, levels);
    } else {
      var r0 := RoundsInv(w, levels, i - 1);
      r := StepInv(w, Rounds(w, levels, i - 1), r0, levels - 1);
    }
  }

  lemma LastItem(w: seq<nat>, l: Lists, r: seq<nat>, c: nat)
    requires Leaves(w) && ValidLists(l) && |r| == |l.ch0| && 0 < c < |r| && Inv(w, l, r, c)
    ensures ListOk(w, l.ch1[c], Step(w, l, c, false).ch1[c], r[c] + 1, c)
  {
    hide ListOk, Linked, Inv;
    InvAt(w, l, r, c);
    if LeafFirst(w, l, c) {
      NextLeaf(w, l.ch0[c - 1], l.ch1[c - 1], r[c - 1], l.ch0[c], l.ch1[c], r[c], c);
    } else {
      PackageOk(w, l, r, c);
    }
  }

  /** Although look-ahead items may run past the end of a list, the chain that is
      used in the end stands for the first 2n - 2 items of the last list. */
  lemma FinalChainCounted(w: seq<nat>, levels: nat)
    requires Leaves(w) && levels > 0 && |w| <= Pow2(levels)
    ensures
      var ch := FinalChain(w, levels);
      WellCounted(ch) && Items(ch) == 2 * |w| - 2 && ch.index <= |w| && Depth(ch) <= levels
    ensures 2 * |w| - 2 <= |List(w, levels - 1)| && FinalChain(w, levels) == ChainOf(w, levels - 1, 2 * |w| - 2)
  {
    hide Inv, Linked, Cap, Step, ListOk, ChainOf, List;
    var n := |w|;
    CapSuffices(n, levels - 1, levels);
    ListSize(w, levels - 1);
    assert Pow2(1) == 2;
    if n == 2 {
      assert Items(End) == 0;
      FirstTwo(w, levels - 1);
    } else {
      assert levels != 1;
      var i := 2 * n - 3;
      var r := RoundsInv(w, levels, i);
      LastItem(w, Rounds(w, levels, i), r, levels - 1);
      ListOkCounted(w, Rounds(w, levels, i).ch1[levels - 1], FinalChain(w, levels), i + 1, levels - 1);
    }
  }

  lemma ListOkCounted(w: seq<nat>, c0: Chain, c1: Chain, r: nat, c: nat)
    requires Leaves(w) && ListOk(w, c0, c1, r, c) && r <= Cap(|w|, c)
    ensures WellCounted(c1) && Items(c1) == r && c1.index <= |w| && Depth(c1) <= c + 1
    ensures r <= |List(w, c)| && c1 == ChainOf(w, c, r)
  {
    hide Cap, ChainOf, List;
    ListSize(w, c);
  }

  // ----- Code lengths from a chain

  /** Leaf i gets one bit per node of the chain whose list uses it. */
  function LeafLength(ch: Chain, i: nat): nat {
    match ch
    case End => 0
    case Node(_, index, tail) => (if i < index then 1 else 0) + LeafLength(tail, i)
  }

  lemma {:induction false} LeafLengthBounds(ch: Chain, i: nat, j: nat)
    requires WellCounted(ch) && i <= j
    ensures LeafLength(ch, j) <= LeafLength(ch, i) <= Depth(ch)
    ensures (ch.Node? ==> i >= ch.index) ==> LeafLength(ch, i) == 0
  {
    if ch.Node? {
      LeafLengthBounds(ch.tail, i, j);
    }
  }

  /** Sum over the leaves of 2^d - 2^(d - length). */
  function Spread(ch: Chain, n: nat, d: nat): int {
    if n == 0 then 0
    else Spread(ch, n - 1, d) +
         (if LeafLength(ch, n - 1) <= d then Pow2(d) - Pow2(d - LeafLength(ch, n - 1)) else 0)
  }

  lemma {:induction false} SpreadUnused(ch: Chain, k: nat, n: nat, d: nat)
    requires WellCounted(ch) && k <= n && (ch.Node? ==> ch.index <= k)
    ensures Spread(ch, n, d) == Spread(ch, k, d)
    decreases n
  {
    if k < n {
      LeafLengthBounds(ch, n - 1, n - 1);
      SpreadUnused(ch, k, n - 1, d);
    }
  }

  lemma {:induction false} SpreadNode(ch: Chain, n: nat, d: nat)
    requires ch.Node? && WellCounted(ch) && Depth(ch) <= d && n <= ch.index
    ensures Spread(ch, n, d) == n * Pow2(d - 1) + Spread(ch.tail, n, d - 1)
  {
    if n > 0 {
      SpreadNode(ch, n - 1, d);
      LeafLengthBounds(ch.tail, n - 1, n - 1);
      assert Pow2(d) == 2 * Pow2(d - 1);
      assert n * Pow2(d - 1) == (n - 1) * Pow2(d - 1) + Pow2(d - 1);
    }
  }

  lemma PairItems(k: nat, items: nat, p: nat)
    requires items % 2 == 0
    ensures k * (2 * p) + items * p == (k + items / 2) * (2 * p)
  {
    var h := items / 2;
    assert items == 2 * h;
    assert (2 * h) * p == h * (2 * p);
    assert (k + h) * (2 * p) == k * (2 * p) + h * (2 * p);
  }

  /** The counting argument: a chain of k items spreads to k * 2^(d - 1). */
  lemma {:induction false} SpreadOfChain(ch: Chain, n: nat, d: nat)
    requires WellCounted(ch) && Depth(ch) <= d && d > 0 && (ch.Node? ==> ch.index <= n)
    ensures Spread(ch, n, d) == Items(ch) * Pow2(d - 1)
    decreases ch
  {
    SpreadUnused(ch, if ch.Node? then ch.index else 0, n, d);
    if ch.Node? {
      var k := ch.index;
      SpreadNode(ch, k, d);
      if ch.tail.Node? {
        SpreadOfChain(ch.tail, k, d - 1);
        PairItems(k, Items(ch.tail), Pow2(d - 2));
      } else {
        SpreadUnused(End, 0, k, d - 1);
      }
    }
  }

  /** Sum over the leaves of 2^(d - length). */
  function LeafKraft(ch: Chain, n: nat, d: nat): nat {
    if n == 0 then 0
    else LeafKraft(ch, n - 1, d) + (if LeafLength(ch, n - 1) <= d then Pow2(d - LeafLength(ch, n - 1)) else 0)
  }

  lemma {:induction false} KraftAndSpread(ch: Chain, n: nat, d: nat)
    requires WellCounted(ch) && Depth(ch) <= d
    ensures LeafKraft(ch, n, d) + Spread(ch, n, d) == n * Pow2(d)
  {
    if n > 0 {
      KraftAndSpread(ch, n - 1, d);
      LeafLengthBounds(ch, n - 1, n - 1);
      assert n * Pow2(d) == (n - 1) * Pow2(d) + Pow2(d);
    }
  }

  /** The lengths of a chain of 2n - 2 items have Kraft sum 1, and no leaf is left
      without a code. */
  lemma ChainIsComplete(ch: Chain, n: nat, d: nat)
    requires WellCounted(ch) && Depth(ch) <= d && d > 0 && n >= 2 && ch.Node? && ch.index <= n
    requires Items(ch) == 2 * n - 2
    ensures LeafKraft(ch, n, d) == Pow2(d)
    ensures forall i :: 0 <= i < n ==> 1 <= LeafLength(ch, i) <= Depth(ch)
  {
    hide Spread, LeafLength;
    SpreadOfChain(ch, n, d);
    KraftAndSpread(ch, n, d);
    PairItems(0, 2 * n - 2, Pow2(d - 1));
    assert n * Pow2(d) == (n - 1) * Pow2(d) + Pow2(d);
    if LeafLength(ch, n - 1) == 0 {
      KraftAndSpread(ch, n - 1, d);
      LeafKraftPositive(ch, n - 1, d);
    }
    forall i | 0 <= i < n
      ensures 1 <= LeafLength(ch, i) <= Depth(ch)
    {
      LeafLengthBounds(ch, i, n - 1);
    }
  }

  lemma LeafKraftPositive(ch: Chain, n: nat, d: nat)
    requires WellCounted(ch) && Depth(ch) <= d && n > 0
    ensures LeafKraft(ch, n, d) > 0
  {
    LeafLengthBounds(ch, n - 1, n - 1);
  }
}
