/** Package-merge as it is usually described: list 0 has the leaves; each further list
    merges the leaves with the packages, which are pairs of neighbours of the list
    before.  A solution takes the first 2n - 2 items of the last list. */
module PackageLists {

  /** A chain stands for a prefix of its list: `index` leaves, and as many packages as
      half the items of the chain `tail` of the list below. */
  datatype Chain = End | Node(weight: nat, index: nat, tail: Chain)

  /** Weights of the leaves: at least two, positive, in ascending order. */
  predicate Leaves(w: seq<nat>) {
    && |w| >= 2
    && (forall i :: 0 <= i < |w| ==> w[i] > 0)
    && (forall i, j :: 0 <= i <= j < |w| ==> w[i] <= w[j])
  }

  predicate Ascending(s: seq<nat>) {
    forall i, j :: 0 <= i <= j < |s| ==> s[i] <= s[j]
  }

  function Pairs(s: seq<nat>): (p: seq<nat>)
    ensures |p| == |s| / 2
    ensures forall i :: 0 <= i < |p| ==> p[i] == s[2 * i] + s[2 * i + 1]
  {
    seq(|s| / 2, i requires 0 <= i < |s| / 2 => s[2 * i] + s[2 * i + 1])
  }

  /** Merges two ascending sequences; of equal weights the second one goes first. */
  function Merge(x: seq<nat>, y: seq<nat>): (m: seq<nat>)
    ensures |m| == |x| + |y|
    decreases |x| + |y|
  {
    if x == [] then y
    else if y == [] then x
    else if y[0] > x[0] then [x[0]] + Merge(x[1..], y)
    else [y[0]] + Merge(x, y[1..])
  }

  /** How many of the first r items of the merge come from x. */
  function FromFirst(x: seq<nat>, y: seq<nat>, r: nat): (a: nat)
    requires r <= |x| + |y|
    ensures a <= r && a <= |x| && r - a <= |y|
    decreases |x| + |y|
  {
    if r == 0 then 0
    else if x == [] then 0
    else if y == [] then r
    else if y[0] > x[0] then 1 + FromFirst(x[1..], y, r - 1)
    else FromFirst(x, y[1..], r - 1)
  }

  function List(w: seq<nat>, c: nat): (s: seq<nat>)
    ensures |s| >= |w|
  {
    if c == 0 then w else Merge(w, Pairs(List(w, c - 1)))
  }

  /** How many leaves are among the first r items of list c. */
  function LeafCount(w: seq<nat>, c: nat, r: nat): (a: nat)
    requires r <= |List(w, c)|
    ensures a <= r && a <= |w|
  {
    if c == 0 then r else FromFirst(w, Pairs(List(w, c - 1)), r)
  }

  /** The chain for the first r items of list c. */
  function ChainOf(w: seq<nat>, c: nat, r: nat): (ch: Chain)
    requires r <= |List(w, c)|
    decreases c
  {
    if r == 0 then End
    else
      var a := LeafCount(w, c, r);
      Node(List(w, c)[r - 1], a, if c == 0 then End else ChainOf(w, c - 1, 2 * (r - a)))
  }

  function Sum(s: seq<nat>, r: nat): nat
    requires r <= |s|
  {
    if r == 0 then 0 else Sum(s, r - 1) + s[r - 1]
  }

  // ----- The next item

  /** What the item after a items of x and b items of y is. */
  predicate NextItem(x: seq<nat>, y: seq<nat>, a: nat, b: nat, a': nat, v: nat) {
    if a < |x| && (b >= |y| || y[b] > x[a]) then a' == a + 1 && v == x[a]
    else b < |y| && a' == a && v == y[b]
  }

  lemma {:induction false} NextOfMerge(x: seq<nat>, y: seq<nat>, r: nat)
    requires r < |x| + |y|
    ensures NextItem(x, y, FromFirst(x, y, r), r - FromFirst(x, y, r), FromFirst(x, y, r + 1), Merge(x, y)[r])
    decreases |x| + |y|
  {
    if r > 0 && x != [] && y != [] {
      if y[0] > x[0] {
        var x' := x[1..];
        NextOfMerge(x', y, r - 1);
        var a := FromFirst(x', y, r - 1);
        assert FromFirst(x, y, r) == 1 + a && FromFirst(x, y, r + 1) == 1 + FromFirst(x', y, r);
        assert Merge(x, y)[r] == Merge(x', y)[r - 1];
        hide Merge, FromFirst;
        assert a < |x'| ==> x'[a] == x[a + 1];
      } else {
        var y', a := y[1..], FromFirst(x, y[1..], r - 1);
        NextOfMerge(x, y', r - 1);
        assert FromFirst(x, y, r) == a && FromFirst(x, y, r + 1) == FromFirst(x, y', r);
        assert Merge(x, y)[r] == Merge(x, y')[r - 1];
        hide Merge, FromFirst;
        assert r - 1 - a < |y'| ==> y'[r - 1 - a] == y[r - a];
      }
    }
  }

  // ----- Sums of prefixes

  lemma {:induction false} SumShift(s: seq<nat>, r: nat)
    requires 0 < r <= |s|
    ensures Sum(s, r) == s[0] + Sum(s[1..], r - 1)
    decreases r
  {
    if r > 1 {
      SumShift(s, r - 1);
    }
  }

  /** The first r items of a merge are the first a of one and r - a of the other. */
  lemma {:induction false} SumOfMerge(x: seq<nat>, y: seq<nat>, r: nat)
    requires r <= |x| + |y|
    ensures Sum(Merge(x, y), r) == Sum(x, FromFirst(x, y, r)) + Sum(y, r - FromFirst(x, y, r))
    decreases r
  {
    hide Merge, FromFirst;
    if r > 0 {
      SumOfMerge(x, y, r - 1);
      NextOfMerge(x, y, r - 1);
    }
  }

  lemma {:induction false} SumOfPairs(s: seq<nat>, p: nat)
    requires 2 * p <= |s|
    ensures Sum(Pairs(s), p) == Sum(s, 2 * p)
    decreases p
  {
    if p > 0 {
      SumOfPairs(s, p - 1);
      var k := 2 * p;
      assert Sum(s, k) == Sum(s, k - 1) + s[k - 1] && Sum(s, k - 1) == Sum(s, k - 2) + s[k - 2];
    }
  }

  lemma {:induction false} SumMonotone(s: seq<nat>, a: nat, b: nat)
    requires a <= b <= |s|
    ensures Sum(s, a) <= Sum(s, b)
    decreases b
  {
    if a < b {
      SumMonotone(s, a, b - 1);
    }
  }

  /** No other choice of as many items from both sequences weighs less. */
  lemma {:induction false} MergeIsLightest(x: seq<nat>, y: seq<nat>, i: nat, j: nat)
    requires Ascending(x) && Ascending(y) && i <= |x| && j <= |y|
    ensures Sum(Merge(x, y), i + j) <= Sum(x, i) + Sum(y, j)
    decreases |x| + |y|
  {
    var m, r := Merge(x, y), i + j;
    if r == 0 || x == [] || y == [] {
    } else if y[0] > x[0] {
      SumShift(m, r);
      assert m[1..] == Merge(x[1..], y);
      if i > 0 {
        SumShift(x, i);
        MergeIsLightest(x[1..], y, i - 1, j);
      } else {
        MergeIsLightest(x[1..], y, 0, j - 1);
        assert x[0] <= y[j - 1];
      }
    } else {
      SumShift(m, r);
      assert m[1..] == Merge(x, y[1..]);
      if j > 0 {
        SumShift(y, j);
        MergeIsLightest(x, y[1..], i, j - 1);
      } else {
        MergeIsLightest(x, y[1..], i - 1, 0);
        assert y[0] <= x[i - 1];
      }
    }
  }

  lemma {:induction false} MergeAscends(x: seq<nat>, y: seq<nat>)
    requires Ascending(x) && Ascending(y)
    ensures Ascending(Merge(x, y))
    ensures forall k :: 0 <= k < |Merge(x, y)| ==> Merge(x, y)[k] in x || Merge(x, y)[k] in y
    decreases |x| + |y|
  {
    if x != [] && y != [] {
      var m := Merge(x, y);
      if y[0] > x[0] {
        MergeAscends(x[1..], y);
        HeadAscends(m, x, y);
      } else {
        MergeAscends(x, y[1..]);
        HeadAscends(m, x, y);
      }
    }
  }

  lemma HeadAscends(m: seq<nat>, x: seq<nat>, y: seq<nat>)
    requires m != [] && Ascending(m[1..]) && forall k :: 1 <= k < |m| ==> m[k] in x || m[k] in y
    requires forall v :: v in x || v in y ==> m[0] <= v
    ensures Ascending(m)
  {
    forall i, j | 0 <= i <= j < |m|
      ensures m[i] <= m[j]
    {
      if i > 0 {
        assert m[1..][i - 1] <= m[1..][j - 1];
      } else if j > 0 {
        assert m[j] in x || m[j] in y;
      }
    }
  }

  lemma {:induction false} ListAscends(w: seq<nat>, c: nat)
    requires Leaves(w)
    ensures Ascending(List(w, c)) && Ascending(Pairs(List(w, c)))
  {
    if c > 0 {
      ListAscends(w, c - 1);
      MergeAscends(w, Pairs(List(w, c - 1)));
    }
    PairsAscend(List(w, c));
  }

  lemma PairsAscend(s: seq<nat>)
    requires Ascending(s)
    ensures Ascending(Pairs(s))
  {
    var p := Pairs(s);
    forall i, j | 0 <= i <= j < |p|
      ensures p[i] <= p[j]
    {
      assert s[2 * i] <= s[2 * j] && s[2 * i + 1] <= s[2 * j + 1];
    }
  }
}
