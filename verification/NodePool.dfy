/** Chains in a fixed pool of nodes that is garbage collected when it runs out, and
    boundary package-merge on top of it. */
module NodePool {
  import opened PackageLists
  import opened PackageMerge

  const NULL: int := -1

  datatype BPMNode = BPMNode(weight: nat, index: nat, tail: int, inUse: bool)

  /** The node at p starts the chain ch. */
  ghost predicate Represents(mem: seq<BPMNode>, p: int, ch: Chain)
    decreases ch
  {
    match ch
    case End => p == NULL
    case Node(weight, index, tail) =>
      0 <= p < |mem| && mem[p].weight == weight && mem[p].index == index && Represents(mem, mem[p].tail, tail)
  }

  /** The nodes of the chain that starts at p. */
  ghost function Reach(mem: seq<BPMNode>, p: int, ch: Chain): (s: set<int>)
    decreases ch
  {
    if ch.Node? && 0 <= p < |mem| then {p} + Reach(mem, mem[p].tail, ch.tail) else {}
  }

  lemma {:induction false} ReachFacts(mem: seq<BPMNode>, p: int, ch: Chain)
    ensures |Reach(mem, p, ch)| <= Depth(ch)
    ensures forall x :: x in Reach(mem, p, ch) ==> 0 <= x < |mem|
    decreases ch
  {
    if ch.Node? && 0 <= p < |mem| {
      ReachFacts(mem, mem[p].tail, ch.tail);
    }
  }

  /** Writing a node outside the chain, or only its mark, leaves the chain alone. */
  lemma {:induction false} ChainUnchanged(mem: seq<BPMNode>, mem': seq<BPMNode>, p: int, ch: Chain)
    requires |mem'| == |mem| && Represents(mem, p, ch)
    requires forall x :: x in Reach(mem, p, ch) ==> SameNode(mem, mem', x)
    ensures Represents(mem', p, ch) && Reach(mem', p, ch) == Reach(mem, p, ch)
    decreases ch
  {
    if ch.Node? {
      assert SameNode(mem, mem', p);
      ChainUnchanged(mem, mem', mem[p].tail, ch.tail);
    }
  }

  predicate SameNode(mem: seq<BPMNode>, mem': seq<BPMNode>, x: int) {
    0 <= x < |mem| && 0 <= x < |mem'|
    && mem'[x].weight == mem[x].weight && mem'[x].index == mem[x].index && mem'[x].tail == mem[x].tail
  }

  // ----- All chains

  ghost predicate AllRepresent(mem: seq<BPMNode>, c0: seq<int>, c1: seq<int>, l: Lists)
    requires ValidLists(l)
  {
    && |c0| == |c1| == |l.ch0|
    && forall c :: 0 <= c < |c0| ==> Represents(mem, c0[c], l.ch0[c]) && Represents(mem, c1[c], l.ch1[c])
  }

  /** The nodes of the chains of the first k lists. */
  ghost function AllReach(mem: seq<BPMNode>, c0: seq<int>, c1: seq<int>, l: Lists, k: nat): set<int>
    requires ValidLists(l) && |c0| == |c1| == |l.ch0| && k <= |c0|
  {
    if k == 0 then {}
    else AllReach(mem, c0, c1, l, k - 1) + Reach(mem, c0[k - 1], l.ch0[k - 1]) + Reach(mem, c1[k - 1], l.ch1[k - 1])
  }

  lemma {:induction false} ReachInAll(mem: seq<BPMNode>, c0: seq<int>, c1: seq<int>, l: Lists, k: nat, c: nat)
    requires ValidLists(l) && |c0| == |c1| == |l.ch0| && c < k <= |c0|
    ensures Reach(mem, c0[c], l.ch0[c]) <= AllReach(mem, c0, c1, l, k)
    ensures Reach(mem, c1[c], l.ch1[c]) <= AllReach(mem, c0, c1, l, k)
  {
    if c < k - 1 {
      ReachInAll(mem, c0, c1, l, k - 1, c);
    }
  }

  /** Lists never hold chains longer than their number plus one. */
  ghost predicate DepthOk(l: Lists)
    requires ValidLists(l)
  {
    forall c :: 0 <= c < |l.ch0| ==> Depth(l.ch0[c]) <= c + 1 && Depth(l.ch1[c]) <= c + 1
  }

  lemma {:induction false} AllReachSize(mem: seq<BPMNode>, c0: seq<int>, c1: seq<int>, l: Lists, k: nat)
    requires ValidLists(l) && |c0| == |c1| == |l.ch0| && k <= |c0| && DepthOk(l)
    ensures |AllReach(mem, c0, c1, l, k)| <= k * (k + 1)
    ensures forall x :: x in AllReach(mem, c0, c1, l, k) ==> 0 <= x < |mem|
  {
    hide Reach, Depth;
    if k == 0 {
      assert AllReach(mem, c0, c1, l, 0) == {};
    } else {
      AllReachSize(mem, c0, c1, l, k - 1);
      ReachFacts(mem, c0[k - 1], l.ch0[k - 1]);
      ReachFacts(mem, c1[k - 1], l.ch1[k - 1]);
      var a, b, c := AllReach(mem, c0, c1, l, k - 1), Reach(mem, c0[k - 1], l.ch0[k - 1]), Reach(mem, c1[k - 1], l.ch1[k - 1]);
      assert AllReach(mem, c0, c1, l, k) == a + b + c;
      UnionSize(a, b);
      UnionSize(a + b, c);
      RoomForTwo(k);
    }
  }

  lemma RoomForTwo(k: nat)
    requires k > 0
    ensures k * (k + 1) == (k - 1) * k + 2 * k
  {
  }

  lemma UnionSize(a: set<int>, b: set<int>)
    ensures |a + b| <= |a| + |b|
  {
    assert a + b == a + (b - a);
    assert |a + (b - a)| == |a| + |b - a|;
    assert b == (b - a) + (b * a);
  }

  /** Only nodes outside the chains change. */
  lemma {:induction false} AllUnchanged(mem: seq<BPMNode>, mem': seq<BPMNode>, c0: seq<int>, c1: seq<int>, l: Lists, k: nat)
    requires ValidLists(l) && |mem'| == |mem| && AllRepresent(mem, c0, c1, l) && k <= |c0|
    requires forall x :: x in AllReach(mem, c0, c1, l, k) ==> SameNode(mem, mem', x)
    ensures AllReach(mem', c0, c1, l, k) == AllReach(mem, c0, c1, l, k)
    ensures forall c :: 0 <= c < k ==> Represents(mem', c0[c], l.ch0[c]) && Represents(mem', c1[c], l.ch1[c])
  {
    if k > 0 {
      AllUnchanged(mem, mem', c0, c1, l, k - 1);
      ChainUnchanged(mem, mem', c0[k - 1], l.ch0[k - 1]);
      ChainUnchanged(mem, mem', c1[k - 1], l.ch1[k - 1]);
    }
  }

  /** A set of fewer than n numbers misses one below n. */
  lemma {:induction false} Missing(s: set<int>, n: nat) returns (x: nat)
    requires |s| < n
    ensures x < n && x !in s
  {
    if n - 1 in s {
      x := Missing(s - {n - 1}, n - 1);
    } else {
      x := n - 1;
    }
  }

  // ----- The free list

  /** Entries lo to hi of the free list: distinct nodes outside the live set. */
  ghost predicate FreeOk(free: seq<int>, lo: nat, hi: nat, size: nat, live: set<int>) {
    && lo <= hi <= |free|
    && (forall k :: lo <= k < hi ==> 0 <= free[k] < size && free[k] !in live)
    && (forall k, j :: lo <= k < j < hi ==> free[k] != free[j])
  }

  class BPMLists {
    const memsize: nat
    const listsize: nat
    const memory: array<BPMNode>
    const freelist: array<int>
    const chains0: array<int>
    const chains1: array<int>
    var numfree: nat
    var nextfree: nat
    ghost var l: Lists

    ghost predicate Shape()
    {
      && memsize == 2 * listsize * (listsize + 1) && listsize > 0
      && memory.Length == memsize && freelist.Length == memsize
      && chains0.Length == listsize && chains1.Length == listsize
      && freelist != chains0 && freelist != chains1 && chains0 != chains1
    }

    ghost function Live(): set<int>
      requires Shape() && ValidLists(l) && |l.ch0| == listsize
      reads this, memory, chains0, chains1
    {
      AllReach(memory[..], chains0[..], chains1[..], l, listsize)
    }

    /** The chains in the pool are the abstract ones. */
    ghost predicate Holds()
      reads this, memory, chains0, chains1
    {
      && Shape()
      && ValidLists(l) && |l.ch0| == listsize && DepthOk(l)
      && AllRepresent(memory[..], chains0[..], chains1[..], l)
    }

    /** And no free node belongs to one of them. */
    ghost predicate Valid()
      reads this, memory, freelist, chains0, chains1
    {
      Holds() && FreeOk(freelist[..], nextfree, numfree, memsize, Live())
    }

    /** All lists start with the two lightest leaves as their look-ahead chains. */
    constructor (levels: nat, leaves: seq<Leaf>)
      requires levels > 0 && Leaves(Weights(leaves))
      ensures Valid() && fresh(memory) && fresh(freelist) && fresh(chains0) && fresh(chains1)
      ensures listsize == levels && l == InitialLists(Weights(leaves), levels)
    {
      var size := 2 * levels * (levels + 1);
      memsize, listsize := size, levels;
      memory := new BPMNode[size];
      freelist := new int[size](i => i);
      chains0 := new int[levels](_ => 0);
      chains1 := new int[levels](_ => 1);
      numfree, nextfree := size, 2;
      l := InitialLists(Weights(leaves), levels);
      new;
      PoolSize(levels);
      TakeFirstTwo(leaves);
    }

    /** The first two nodes of a new pool. */
    method TakeFirstTwo(leaves: seq<Leaf>)
      requires Shape() && Leaves(Weights(leaves)) && memsize >= 4
      requires numfree == memsize && nextfree == 2 && l == InitialLists(Weights(leaves), listsize)
      requires forall i :: 0 <= i < memsize ==> freelist[i] == i
      requires forall c :: 0 <= c < listsize ==> chains0[c] == 0 && chains1[c] == 1
      modifies memory
      ensures Valid()
    {
      hide AllRepresent, DepthOk, AllReach, Represents, Depth, InitialLists, Weights, FreeOk;
      ghost var w := Weights(leaves);
      memory[0] := BPMNode(leaves[0].weight, 1, NULL, false);
      memory[1] := BPMNode(leaves[1].weight, 2, NULL, false);
      assert w[0] == leaves[0].weight && w[1] == leaves[1].weight;
      InitialPool(memory[..], chains0[..], chains1[..], w, listsize);
      AllFree(freelist[..], memsize, Live());
    }

    /** Marks the nodes of one chain. */
    method MarkChain(p: int, ghost ch: Chain)
      requires Represents(memory[..], p, ch)
      modifies memory
      ensures Marked(old(memory[..]), memory[..], Reach(old(memory[..]), p, ch))
    {
      ghost var mem := memory[..];
      ghost var rest, done: set<int> := ch, {};
      var node := p;
      while node != NULL
        invariant Represents(mem, node, rest)
        invariant done + Reach(mem, node, rest) == Reach(mem, p, ch)
        invariant Marked(mem, memory[..], done)
        decreases rest
      {
        ghost var before := memory[..];
        assert IsMarked(mem, before, done, node);
        memory[node] := memory[node].(inUse := true);
        forall x | 0 <= x < |mem|
          ensures IsMarked(mem, memory[..], done + {node}, x)
        {
          assert IsMarked(mem, before, done, x);
        }
        done := done + {node};
        node := memory[node].tail;
        rest := rest.tail;
      }
    }

    method MarkAll()
      requires Holds()
      modifies memory
      ensures Holds() && Live() == old(Live())
      ensures Marked(old(memory[..]), memory[..], Live())
    {
      hide Represents, Depth;
      ghost var mem, c0, c1 := memory[..], chains0[..], chains1[..];
      for i := 0 to listsize
        invariant chains0[..] == c0 && chains1[..] == c1
        invariant Marked(mem, memory[..], AllReach(mem, c0, c1, l, i))
      {
        ReachAfterMarks(mem, memory[..], AllReach(mem, c0, c1, l, i), c0[i], l.ch0[i]);
        ghost var mem1 := memory[..];
        MarkChain(chains0[i], l.ch0[i]);
        ghost var s1 := AllReach(mem, c0, c1, l, i) + Reach(mem, c0[i], l.ch0[i]);
        MarkedTwice(mem, mem1, memory[..], AllReach(mem, c0, c1, l, i), Reach(mem, c0[i], l.ch0[i]));
        ReachAfterMarks(mem, memory[..], s1, c1[i], l.ch1[i]);
        ghost var mem2 := memory[..];
        MarkChain(chains1[i], l.ch1[i]);
        MarkedTwice(mem, mem2, memory[..], s1, Reach(mem, c1[i], l.ch1[i]));
      }
      AllAfterMarks(mem, memory[..], AllReach(mem, c0, c1, l, listsize), c0, c1, l);
    }

    method ClearMarks()
      requires Holds()
      modifies memory
      ensures Holds() && Live() == old(Live())
      ensures forall x :: 0 <= x < memsize ==> SameNode(old(memory[..]), memory[..], x) && !memory[x].inUse
    {
      hide Represents, Depth, AllReach;
      ghost var mem := memory[..];
      for i := 0 to memsize
        invariant forall x :: 0 <= x < memsize ==> SameNode(mem, memory[..], x)
        invariant forall x :: 0 <= x < i ==> !memory[x].inUse
      {
        ghost var before := memory[..];
        memory[i] := memory[i].(inUse := false);
        forall x | 0 <= x < memsize
          ensures SameNode(mem, memory[..], x)
        {
          assert SameNode(mem, before, x);
        }
      }
      AllReachSize(mem, chains0[..], chains1[..], l, listsize);
      AllUnchanged(mem, memory[..], chains0[..], chains1[..], l, listsize);
    }

    /** The free list from the marks. */
    method ListUnmarked(ghost live: set<int>, ghost x: nat)
      requires Shape() && x < memsize && x !in live
      requires forall y :: 0 <= y < memsize ==> (memory[y].inUse <==> y in live)
      modifies this`numfree, freelist
      ensures FreeOk(freelist[..], 0, numfree, memsize, live) && numfree > 0
    {
      numfree := 0;
      for i := 0 to memsize
        invariant numfree <= i
        invariant forall k :: 0 <= k < numfree ==> 0 <= freelist[k] < i && freelist[k] !in live
        invariant forall k, j :: 0 <= k < j < numfree ==> freelist[k] < freelist[j]
        invariant i > x ==> numfree > 0
      {
        if !memory[i].inUse {
          freelist[numfree] := i;
          numfree := numfree + 1;
        }
      }
    }

    /** Collects the nodes that no chain uses.  At most listsize * (listsize + 1)
        of the twice as many nodes are in use, so some are free. */
    method Collect()
      requires Holds()
      modifies this`numfree, this`nextfree, memory, freelist
      ensures Valid() && nextfree == 0 < numfree && Live() == old(Live())
      ensures forall x :: 0 <= x < memsize ==> SameNode(old(memory[..]), memory[..], x)
    {
      hide Represents, Depth, AllReach;
      ghost var mem, live := memory[..], Live();
      AllReachSize(mem, chains0[..], chains1[..], l, listsize);
      ghost var x := Missing(live, memsize);
      ClearMarks();
      ghost var cleared := memory[..];
      MarkAll();
      forall y | 0 <= y < memsize
        ensures SameNode(mem, memory[..], y) && (memory[y].inUse <==> y in live)
      {
        assert IsMarked(cleared, memory[..], live, y);
        assert SameNode(mem, cleared, y);
      }
      ListUnmarked(live, x);
      nextfree := 0;
    }

    /** A new node in front of the chain `tail`, which has to be part of some chain
        of the lists: that keeps it alive when the pool is collected first. */
    method Create(weight: nat, index: nat, tail: int, ghost t: Chain) returns (result: int)
      requires Valid()
      requires Represents(memory[..], tail, t) && Reach(memory[..], tail, t) <= Live()
      modifies this`numfree, this`nextfree, memory, freelist
      ensures Holds() && Live() == old(Live()) && result !in Live()
      ensures Represents(memory[..], result, Node(weight, index, t))
      ensures FreeOk(freelist[..], nextfree, numfree, memsize, Live() + Reach(memory[..], result, Node(weight, index, t)))
    {
      hide Represents, Depth, AllReach, Reach;
      if nextfree >= numfree {
        ghost var before := memory[..];
        Collect();
        ReachFacts(before, tail, t);
        ChainUnchanged(before, memory[..], tail, t);
      }
      result := TakeFree(weight, index, tail, t);
    }

    method TakeFree(weight: nat, index: nat, tail: int, ghost t: Chain) returns (result: int)
      requires Valid() && nextfree < numfree
      requires Represents(memory[..], tail, t) && Reach(memory[..], tail, t) <= Live()
      modifies this`nextfree, memory
      ensures Holds() && Live() == old(Live()) && result !in Live()
      ensures Represents(memory[..], result, Node(weight, index, t))
      ensures FreeOk(freelist[..], nextfree, numfree, memsize, Live() + Reach(memory[..], result, Node(weight, index, t)))
    {
      hide Represents, Depth, AllReach, Reach, FreeOk;
      ghost var mem, live := memory[..], Live();
      FirstFree(freelist[..], nextfree, numfree, memsize, live);
      AllReachSize(mem, chains0[..], chains1[..], l, listsize);
      result := freelist[nextfree];
      nextfree := nextfree + 1;
      memory[result] := BPMNode(weight, index, tail, memory[result].inUse);
      AllUnchanged(mem, memory[..], chains0[..], chains1[..], l, listsize);
      ChainUnchanged(mem, memory[..], tail, t);
      NewNode(memory[..], result, weight, index, t);
      assert live + Reach(memory[..], result, Node(weight, index, t)) == live + {result};
    }

    method MoveBack(c: nat)
      requires Valid() && c < listsize
      modifies this`l, chains0
      ensures Valid() && l == Lists(old(l.ch0)[c := old(l.ch1)[c]], old(l.ch1))
    {
      hide Represents, Depth, Reach;
      ghost var mem, c0, c1, l0 := memory[..], chains0[..], chains1[..], l;
      ghost var live := Live();
      chains0[c] := chains1[c];
      l := Lists(l.ch0[c := l.ch1[c]], l.ch1);
      assert chains0[..] == c0[c := c1[c]];
      ReachesInside(mem, c0, c1, l0);
      SubsetAll(mem, chains0[..], chains1[..], l, listsize, live);
    }

    /** The last look-ahead chain of list c moves back and a new one takes its place. */
    method NewChain(c: nat, weight: nat, index: nat, tail: int, ghost t: Chain, ghost k: nat)
      requires Valid() && c < listsize && k < listsize
      requires Represents(memory[..], tail, t) && Reach(memory[..], tail, t) <= Reach(memory[..], chains1[k], l.ch1[k])
      requires Depth(t) <= c
      modifies this`numfree, this`nextfree, this`l, memory, freelist, chains0, chains1
      ensures Valid() && l == Push(old(l), c, Node(weight, index, t))
    {
      hide Represents, Reach;
      MoveBack(c);
      ReachInAll(memory[..], chains0[..], chains1[..], l, listsize, k);
      var result := Create(weight, index, tail, t);
      ghost var mem, c0, c1, l0 := memory[..], chains0[..], chains1[..], l;
      ghost var node := Node(weight, index, t);
      ghost var live := Live() + Reach(mem, result, node);
      chains1[c] := result;
      l := Lists(l.ch0, l.ch1[c := node]);
      assert chains1[..] == c1[c := result];
      ReachesInside(mem, c0, c1, l0);
      SubsetAll(mem, chains0[..], chains1[..], l, listsize, live);
    }

    /** The look-ahead chains of list c are in the pool. */
    lemma ChainsHere(c: nat)
      requires Holds() && c < listsize
      ensures Represents(memory[..], chains0[c], l.ch0[c]) && Represents(memory[..], chains1[c], l.ch1[c])
      ensures Depth(l.ch0[c]) <= c + 1 && Depth(l.ch1[c]) <= c + 1
    {
      hide Represents, Depth;
      assert chains0[..][c] == chains0[c] && chains1[..][c] == chains1[c];
    }

    /** One boundary package-merge step on list c in round num. */
    method BoundaryPM(leaves: seq<Leaf>, c: nat, num: nat)
      requires Valid() && c < listsize
      modifies this`numfree, this`nextfree, this`l, memory, freelist, chains0, chains1
      ensures Valid() && l == Step(Weights(leaves), old(l), c, num + 1 < 2 * |leaves| - 2)
      decreases c
    {
      hide AllReach, FreeOk, Step, Weights, Push;
      ghost var w, l0, more := Weights(leaves), l, num + 1 < 2 * |leaves| - 2;
      ghost var last := l.ch1[c];
      ChainsHere(c);
      var lastindex := memory[chains1[c]].index;
      if c == 0 {
        if lastindex >= |leaves| {
          StepNothing(w, l0, more);
          return;
        }
        StepLeaf(w, l0, c, more);
        NewChain(c, leaves[lastindex].weight, lastindex + 1, NULL, End, c);
      } else {
        ChainsHere(c - 1);
        var sum := memory[chains0[c - 1]].weight + memory[chains1[c - 1]].weight;
        if lastindex < |leaves| && sum > leaves[lastindex].weight {
          StepLeaf(w, l0, c, more);
          assert LeafNode(w, l0, c) == Node(leaves[lastindex].weight, lastindex + 1, last.tail);
          NewChain(c, leaves[lastindex].weight, lastindex + 1, memory[chains1[c]].tail, last.tail, c);
          return;
        }
        StepPackages(w, l0, c, more);
        assert PackageNode(l0, c) == Node(sum, lastindex, l0.ch1[c - 1]);
        NewChain(c, sum, lastindex, chains1[c - 1], l.ch1[c - 1], c - 1);
        assert l == Push(l0, c, PackageNode(l0, c));
        if num + 1 < 2 * |leaves| - 2 {
          BoundaryPM(leaves, c - 1, num);
          BoundaryPM(leaves, c - 1, num);
        }
      }
    }
  }

  lemma PoolSize(levels: nat)
    requires levels > 0
    ensures 2 * levels * (levels + 1) >= 4
  {
    assert levels * (levels + 1) >= levels + 1;
  }

  lemma InitialPool(mem: seq<BPMNode>, c0: seq<int>, c1: seq<int>, w: seq<nat>, levels: nat)
    requires Leaves(w) && |mem| >= 2 && |c0| == |c1| == levels
    requires mem[0] == BPMNode(w[0], 1, NULL, false) && mem[1] == BPMNode(w[1], 2, NULL, false)
    requires forall c :: 0 <= c < levels ==> c0[c] == 0 && c1[c] == 1
    ensures DepthOk(InitialLists(w, levels)) && AllRepresent(mem, c0, c1, InitialLists(w, levels))
    ensures forall x :: x in AllReach(mem, c0, c1, InitialLists(w, levels), levels) ==> 0 <= x < 2
  {
    hide AllReach;
    var l := InitialLists(w, levels);
    FirstTwoLive(mem, c0, c1, l, levels);
    var a, b := Node(w[0], 1, End), Node(w[1], 2, End);
    assert Represents(mem, 0, a) && Represents(mem, 1, b);
    forall c | 0 <= c < levels
      ensures Represents(mem, c0[c], l.ch0[c]) && Represents(mem, c1[c], l.ch1[c])
      ensures Depth(l.ch0[c]) <= c + 1 && Depth(l.ch1[c]) <= c + 1
    {
      assert l.ch0[c] == a && l.ch1[c] == b;
    }
  }

  lemma AllFree(free: seq<int>, size: nat, live: set<int>)
    requires |free| == size >= 2 && forall i :: 0 <= i < size ==> free[i] == i
    requires forall x :: x in live ==> 0 <= x < 2
    ensures FreeOk(free, 2, size, size, live)
  {
  }

  lemma {:induction false} FirstTwoLive(mem: seq<BPMNode>, c0: seq<int>, c1: seq<int>, l: Lists, k: nat)
    requires ValidLists(l) && |c0| == |c1| == |l.ch0| && k <= |c0|
    requires forall c :: 0 <= c < |c0| ==> c0[c] == 0 && c1[c] == 1 && l.ch0[c].tail == End && l.ch1[c].tail == End
    ensures forall x :: x in AllReach(mem, c0, c1, l, k) ==> 0 <= x < 2
  {
    if k > 0 {
      FirstTwoLive(mem, c0, c1, l, k - 1);
      assert Reach(mem, c0[k - 1], l.ch0[k - 1]) <= {0};
      assert Reach(mem, c1[k - 1], l.ch1[k - 1]) <= {1};
    }
  }

  datatype Leaf = Leaf(weight: nat, index: nat)

  function Weights(leaves: seq<Leaf>): (w: seq<nat>)
    ensures |w| == |leaves| && forall i :: 0 <= i < |w| ==> w[i] == leaves[i].weight
  {
    seq(|leaves|, i requires 0 <= i < |leaves| => leaves[i].weight)
  }

  lemma ReachesInside(mem: seq<BPMNode>, c0: seq<int>, c1: seq<int>, l: Lists)
    requires ValidLists(l) && |c0| == |c1| == |l.ch0|
    ensures forall c :: 0 <= c < |c0| ==> Reach(mem, c0[c], l.ch0[c]) <= AllReach(mem, c0, c1, l, |c0|)
    ensures forall c :: 0 <= c < |c0| ==> Reach(mem, c1[c], l.ch1[c]) <= AllReach(mem, c0, c1, l, |c0|)
  {
    forall c | 0 <= c < |c0|
      ensures Reach(mem, c0[c], l.ch0[c]) <= AllReach(mem, c0, c1, l, |c0|)
      ensures Reach(mem, c1[c], l.ch1[c]) <= AllReach(mem, c0, c1, l, |c0|)
    {
      ReachInAll(mem, c0, c1, l, |c0|, c);
    }
  }

  lemma {:induction false} SubsetAll(mem: seq<BPMNode>, c0: seq<int>, c1: seq<int>, l: Lists, k: nat, s: set<int>)
    requires ValidLists(l) && |c0| == |c1| == |l.ch0| && k <= |c0|
    requires forall c :: 0 <= c < k ==> Reach(mem, c0[c], l.ch0[c]) <= s && Reach(mem, c1[c], l.ch1[c]) <= s
    ensures AllReach(mem, c0, c1, l, k) <= s
  {
    if k > 0 {
      SubsetAll(mem, c0, c1, l, k - 1, s);
    }
  }

  lemma FirstFree(free: seq<int>, lo: nat, hi: nat, size: nat, live: set<int>)
    requires FreeOk(free, lo, hi, size, live) && lo < hi
    ensures 0 <= free[lo] < size && free[lo] !in live
    ensures FreeOk(free, lo + 1, hi, size, live + {free[lo]})
  {
  }

  lemma NewNode(mem: seq<BPMNode>, p: int, weight: nat, index: nat, t: Chain)
    requires 0 <= p < |mem| && mem[p].weight == weight && mem[p].index == index && Represents(mem, mem[p].tail, t)
    ensures Represents(mem, p, Node(weight, index, t))
    ensures Reach(mem, p, Node(weight, index, t)) == {p} + Reach(mem, mem[p].tail, t)
  {
  }

  predicate IsMarked(mem: seq<BPMNode>, mem': seq<BPMNode>, s: set<int>, x: int) {
    SameNode(mem, mem', x) && mem'[x].inUse == (mem[x].inUse || x in s)
  }

  /** mem' is mem with the nodes of s marked. */
  ghost predicate Marked(mem: seq<BPMNode>, mem': seq<BPMNode>, s: set<int>) {
    |mem'| == |mem| && forall x :: 0 <= x < |mem| ==> IsMarked(mem, mem', s, x)
  }

  lemma ReachAfterMarks(mem: seq<BPMNode>, mem': seq<BPMNode>, s: set<int>, p: int, ch: Chain)
    requires Marked(mem, mem', s) && Represents(mem, p, ch)
    ensures Represents(mem', p, ch) && Reach(mem', p, ch) == Reach(mem, p, ch)
  {
    ReachFacts(mem, p, ch);
    forall x | x in Reach(mem, p, ch)
      ensures SameNode(mem, mem', x)
    {
      assert IsMarked(mem, mem', s, x);
    }
    ChainUnchanged(mem, mem', p, ch);
  }

  lemma AllAfterMarks(mem: seq<BPMNode>, mem': seq<BPMNode>, s: set<int>, c0: seq<int>, c1: seq<int>, l: Lists)
    requires ValidLists(l) && AllRepresent(mem, c0, c1, l) && DepthOk(l) && Marked(mem, mem', s)
    ensures AllRepresent(mem', c0, c1, l) && AllReach(mem', c0, c1, l, |c0|) == AllReach(mem, c0, c1, l, |c0|)
  {
    hide Represents, Depth;
    AllReachSize(mem, c0, c1, l, |c0|);
    forall x | x in AllReach(mem, c0, c1, l, |c0|)
      ensures SameNode(mem, mem', x)
    {
      assert IsMarked(mem, mem', s, x);
    }
    AllUnchanged(mem, mem', c0, c1, l, |c0|);
  }

  lemma MarkedTwice(mem: seq<BPMNode>, mem1: seq<BPMNode>, mem2: seq<BPMNode>, s: set<int>, t: set<int>)
    requires Marked(mem, mem1, s) && Marked(mem1, mem2, t)
    ensures Marked(mem, mem2, s + t)
  {
    forall x | 0 <= x < |mem|
      ensures IsMarked(mem, mem2, s + t, x)
    {
      assert IsMarked(mem, mem1, s, x) && IsMarked(mem1, mem2, t, x);
    }
  }
}
