/** The colour tree: a tree of depth eight with sixteen children per node, used as a map
    from colours to palette indices. */
module ColorTrees {
  import opened Bits
  import opened ColorModes
  import MsbStream

  /** The child to follow for one bit of the four channels. */
  function Digit(c: Color, k: nat): (i: nat)
    ensures i < 16
  {
    8 * BitOf(c.r, k) + 4 * BitOf(c.g, k) + 2 * BitOf(c.b, k) + BitOf(c.a, k)
  }

  function Path(c: Color): (p: seq<nat>)
    ensures |p| == 8 && forall k :: 0 <= k < 8 ==> p[k] == Digit(c, k)
  {
    seq(8, k requires 0 <= k < 8 => Digit(c, k))
  }

  lemma DigitBits(c: Color, d: Color, k: nat)
    requires Digit(c, k) == Digit(d, k)
    ensures BitOf(c.r, k) == BitOf(d.r, k) && BitOf(c.g, k) == BitOf(d.g, k)
    ensures BitOf(c.b, k) == BitOf(d.b, k) && BitOf(c.a, k) == BitOf(d.a, k)
  {
    hide BitOf;
  }

  /** Different colours have different paths. */
  lemma PathInjective(c: Color, d: Color)
    requires Bytes(c) && Bytes(d) && Path(c) == Path(d)
    ensures c == d
  {
    hide BitOf, Digit;
    assert Pow2(8) == 256;
    forall k | 0 <= k < 8
      ensures BitOf(c.r, k) == BitOf(d.r, k) && BitOf(c.g, k) == BitOf(d.g, k)
      ensures BitOf(c.b, k) == BitOf(d.b, k) && BitOf(c.a, k) == BitOf(d.a, k)
    {
      assert Path(c)[k] == Path(d)[k];
      DigitBits(c, d, k);
    }
    MsbStream.SameBits(c.r, d.r, 8);
    MsbStream.SameBits(c.g, d.g, 8);
    MsbStream.SameBits(c.b, d.b, 8);
    MsbStream.SameBits(c.a, d.a, 8);
  }

  /** The node one step below p, if there is one. */
  ghost function Below(nodes: map<seq<nat>, ColorTree>, p: seq<nat>, k: nat): ColorTree? {
    if p + [k] in nodes then nodes[p + [k]] else null
  }

  function Parent(p: seq<nat>): seq<nat>
    requires p != []
  {
    p[..|p| - 1]
  }

  class ColorTree {
    const children: array<ColorTree?>
    var index: int
    /** In the root: the node at the end of each path that exists, and what is stored
        at which path. */
    ghost var nodes: map<seq<nat>, ColorTree>
    ghost var stored: map<seq<nat>, nat>
    ghost var repr: set<object>

    constructor ()
      ensures Empty() && fresh(children)
    {
      children := new ColorTree?[16](_ => null);
      index := -1;
      new;
      nodes := map[[] := this];
      stored := map[];
      repr := {this, children};
    }

    /** A node on its own. */
    ghost predicate Empty()
      reads this, children
    {
      && children.Length == 16 && (forall k :: 0 <= k < 16 ==> children[k] == null) && index == -1
      && nodes == map[[] := this] && stored == map[] && repr == {this, children}
    }

    lemma EmptyIsValid()
      requires Empty()
      ensures Valid()
    {
    }

    /** Each node's children are the nodes one step further, except at the one place
        that is being changed, and no two paths share a node. */
    static ghost predicate LinkedBut(root: ColorTree, at: map<seq<nat>, ColorTree>, objects: set<object>, p': seq<nat>, k': nat)
      reads root, objects
    {
      && root in objects && [] in at && at[[]] == root
      && (forall p :: p in at ==> at[p] in objects && at[p].children in objects && at[p].children.Length == 16)
      && (forall p, k: nat :: p in at && k < 16 && (p != p' || k != k') ==>
            at[p].children[k] == Below(at, p, k))
      && (forall p, q :: p in at && q in at && p != q ==> at[p] != at[q] && at[p].children != at[q].children)
      && (forall p {:trigger Parent(p)} :: p in at && p != [] ==> Parent(p) in at)
    }

    ghost predicate Linked()
      reads this, repr
    {
      LinkedBut(this, nodes, repr, [], 16)
    }

    /** The nodes carry what is stored, and -1 elsewhere. */
    static ghost predicate FilledIn(at: map<seq<nat>, ColorTree>, stored: map<seq<nat>, nat>, objects: set<object>)
      reads objects
    {
      && (forall p :: p in stored ==> p in at)
      && (forall p :: p in at ==> at[p] in objects && at[p].index == if p in stored then stored[p] else -1)
    }

    ghost predicate Filled()
      reads this, repr
    {
      FilledIn(nodes, stored, repr)
    }

    ghost predicate Valid()
      reads this, repr
    {
      Linked() && Filled()
    }

    lemma {:induction false} PrefixIn(p: seq<nat>, k: nat)
      requires Valid() && p in nodes && k <= |p|
      ensures p[..k] in nodes
      decreases |p|
    {
      if k < |p| {
        PrefixIn(Parent(p), k);
        assert Parent(p)[..k] == p[..k];
      } else {
        assert p[..k] == p;
      }
    }

    /** What is stored for the colour, or -1. */
    method Get(c: Color) returns (i: int)
      requires Valid()
      ensures i == if Path(c) in stored then stored[Path(c)] else -1
    {
      hide Digit;
      var tree := this;
      ghost var p := Path(c);
      assert p[..0] == [];
      for bit := 0 to 8
        invariant p[..bit] in nodes && nodes[p[..bit]] == tree
      {
        var k := Digit(c, bit);
        assert p[..bit + 1] == p[..bit] + [k];
        if tree.children[k] == null {
          if p in nodes {
            PrefixIn(p, bit + 1);
            assert false;
          }
          return -1;
        }
        tree := tree.children[k];
      }
      assert p[..8] == p;
      i := tree.index;
    }

    lemma Links(p: seq<nat>, k: nat)
      requires Valid() && p in nodes && k < 16
      ensures nodes[p] in repr && nodes[p].children in repr && nodes[p].children.Length == 16
      ensures nodes[p].children[k] == Below(nodes, p, k)
    {
    }

    lemma LinkTo(was: map<seq<nat>, ColorTree>, p: seq<nat>, k: nat, node: ColorTree, q: seq<nat>, j: nat)
      requires (forall r {:trigger Parent(r)} :: r in was && r != [] ==> Parent(r) in was) && p in was && p + [k] !in was
      requires nodes == was[p + [k] := node] && q in nodes
      ensures q == p + [k] ==> Below(nodes, q, j) == null
      ensures q != p + [k] ==> q in was && Below(nodes, q, j) == if q == p && j == k then node else Below(was, q, j)
    {
      assert Parent(q + [j]) == q && Parent(p + [k]) == p;
      assert (q + [j])[|q|] == j && (p + [k])[|p|] == k;
    }

    /** Entering the new node completes the links. */
    lemma Grown(was: map<seq<nat>, ColorTree>, objects: set<object>, p: seq<nat>, k: nat, node: ColorTree)
      requires LinkedBut(this, was, objects, p, k) && p in was && k < 16 && p + [k] !in was
      requires node !in objects && node.children !in objects && node.Empty()
      requires was[p].children[k] == node && nodes == was[p + [k] := node] && repr == objects + {node, node.children}
      ensures Linked()
    {
      hide Below;
      forall q, j: nat | q in nodes && j < 16
        ensures nodes[q].children[j] == Below(nodes, q, j)
      {
        LinkTo(was, p, k, node, q, j);
      }
    }

    lemma StillFilled(was: map<seq<nat>, ColorTree>, objects: set<object>, p: seq<nat>, node: ColorTree)
      requires FilledIn(was, stored, objects) && p !in was && node.Empty()
      requires nodes == was[p := node] && repr == objects + {node, node.children}
      ensures Filled()
    {
    }

    /** Hangs a new node below an old one; only the links at that place are then open. */
    method Hang(tree: ColorTree, k: nat, ghost p: seq<nat>) returns (node: ColorTree)
      requires Valid() && p in nodes && nodes[p] == tree && k < 16
      modifies this`nodes, this`repr, tree.children
      ensures fresh(node) && fresh(node.children) && node.Empty()
      ensures LinkedBut(this, old(nodes), old(repr), p, k) && FilledIn(old(nodes), stored, old(repr))
      ensures old(tree in repr && tree.children in repr) && tree.children[k] == node
      ensures nodes == old(nodes)[p + [k] := node] && repr == old(repr) + {node, node.children}
    {
      hide Empty, Below;
      node := new ColorTree();
      nodes := nodes[p + [k] := node];
      repr := repr + {node, node.children};
      tree.children[k] := node;
    }

    method AddChild(tree: ColorTree, k: nat, ghost p: seq<nat>)
      requires Valid() && p in nodes && nodes[p] == tree && k < 16 && p + [k] !in nodes
      modifies this`nodes, this`repr, tree.children
      ensures Valid() && fresh(repr - old(repr))
      ensures p + [k] in nodes && tree.children[k] == nodes[p + [k]]
    {
      hide Valid, Linked, Filled, LinkedBut, FilledIn, Empty;
      ghost var was, objects := nodes, repr;
      var node := Hang(tree, k, p);
      Grown(was, objects, p, k, node);
      StillFilled(was, objects, p + [k], node);
      BothIsValid();
    }

    lemma BothIsValid()
      requires Linked() && Filled()
      ensures Valid()
    {
    }

    method SetIndex(tree: ColorTree, i: nat, ghost p: seq<nat>)
      requires Valid() && p in nodes && nodes[p] == tree
      modifies this`stored, tree`index
      ensures Valid() && stored == old(stored)[p := i]
    {
      tree.index := i;
      stored := stored[p := i];
    }

    /** Stores i at the colour's path, adding the nodes that are missing. */
    method Add(c: Color, i: nat)
      requires Valid()
      modifies this, repr
      ensures Valid() && fresh(repr - old(repr)) && stored == old(stored)[Path(c) := i]
    {
      hide Digit, Valid;
      var tree := this;
      ghost var p := Path(c);
      assert p[..0] == [];
      RootIn();
      for bit := 0 to 8
        invariant Valid() && fresh(repr - old(repr)) && stored == old(stored)
        invariant p[..bit] in nodes && nodes[p[..bit]] == tree
      {
        var k := Digit(c, bit);
        Links(p[..bit], k);
        assert p[..bit + 1] == p[..bit] + [k];
        if tree.children[k] == null {
          AddChild(tree, k, p[..bit]);
        }
        tree := tree.children[k];
      }
      assert p[..8] == p;
      Links(p, 0);
      SetIndex(tree, i, p);
    }

    lemma RootIn()
      requires Valid()
      ensures [] in nodes && nodes[[]] == this
    {
    }
  }
}
