/** The bottom-up merge sort of the leaves, which alternates between two arrays. */
module LeafSort {
  import opened NodePool
  import opened Buffers

  /** The order a stable sort by weight gives to leaves that came in by index. */
  predicate Le(x: Leaf, y: Leaf) {
    x.weight < y.weight || (x.weight == y.weight && x.index <= y.index)
  }

  predicate Sorted(s: seq<Leaf>) {
    forall i, j :: 0 <= i < j < |s| ==> Le(s[i], s[j])
  }

  predicate AllLe(s: seq<Leaf>, t: seq<Leaf>) {
    forall i, j :: 0 <= i < |s| && 0 <= j < |t| ==> Le(s[i], t[j])
  }

  predicate ByIndex(s: seq<Leaf>) {
    forall i, j :: 0 <= i < j < |s| ==> s[i].index < s[j].index
  }

  predicate AllBefore(s: seq<Leaf>, t: seq<Leaf>) {
    forall x, y :: x in s && y in t ==> x.index < y.index
  }

  // ----- Merging two sorted runs

  /** What has been merged so far: out, from x[..i] and y[..j]. */
  ghost predicate MergedSoFar(out: seq<Leaf>, x: seq<Leaf>, i: nat, y: seq<Leaf>, j: nat)
    requires i <= |x| && j <= |y|
  {
    && |out| == i + j
    && multiset(out) == multiset(x[..i]) + multiset(y[..j])
    && Sorted(out) && AllLe(out, x[i..]) && AllLe(out, y[j..])
  }

  lemma MergeStep(out: seq<Leaf>, x: seq<Leaf>, i: nat, y: seq<Leaf>, j: nat, v: Leaf, one: bool)
    requires i <= |x| && j <= |y| && i + j < |x| + |y|
    requires Sorted(x) && Sorted(y) && AllBefore(x, y) && MergedSoFar(out, x, i, y, j)
    requires one == (i < |x| && (j >= |y| || x[i].weight <= y[j].weight))
    requires if one then v == x[i] else j < |y| && v == y[j]
    ensures one ==> MergedSoFar(out + [v], x, i + 1, y, j)
    ensures !one ==> MergedSoFar(out + [v], x, i, y, j + 1)
  {
    hide Sorted, AllLe, AllBefore;
    if one {
      assert x[..i + 1] == x[..i] + [v];
      TakeOne(out, x, i, y, j);
    } else {
      assert y[..j + 1] == y[..j] + [v];
      TakeOther(out, x, i, y, j);
    }
  }

  lemma TakeOne(out: seq<Leaf>, x: seq<Leaf>, i: nat, y: seq<Leaf>, j: nat)
    requires i < |x| && j <= |y| && Sorted(x) && Sorted(y) && AllBefore(x, y)
    requires j < |y| ==> x[i].weight <= y[j].weight
    requires Sorted(out) && AllLe(out, x[i..]) && AllLe(out, y[j..])
    ensures Sorted(out + [x[i]]) && AllLe(out + [x[i]], x[i + 1..]) && AllLe(out + [x[i]], y[j..])
  {
    forall h | 0 <= h < |out|
      ensures Le(out[h], x[i])
    {
      assert x[i..][0] == x[i];
    }
    var rest := x[i + 1..];
    forall k | 0 <= k < |rest|
      ensures Le(x[i], rest[k])
    {
      assert rest[k] == x[i + 1 + k];
    }
    forall h, k | 0 <= h < |out| && 0 <= k < |rest|
      ensures Le(out[h], rest[k])
    {
      assert x[i..][k + 1] == rest[k];
    }
    forall k | 0 <= k < |y[j..]|
      ensures Le(x[i], y[j..][k])
    {
      assert y[j..][k] == y[j + k] && y[j + k] in y && x[i] in x;
      assert k > 0 ==> Le(y[j], y[j + k]);
    }
  }

  lemma TakeOther(out: seq<Leaf>, x: seq<Leaf>, i: nat, y: seq<Leaf>, j: nat)
    requires i <= |x| && j < |y| && Sorted(x) && Sorted(y)
    requires i < |x| ==> y[j].weight < x[i].weight
    requires Sorted(out) && AllLe(out, x[i..]) && AllLe(out, y[j..])
    ensures Sorted(out + [y[j]]) && AllLe(out + [y[j]], x[i..]) && AllLe(out + [y[j]], y[j + 1..])
  {
    forall h | 0 <= h < |out|
      ensures Le(out[h], y[j])
    {
      assert y[j..][0] == y[j];
    }
    var rest := y[j + 1..];
    forall k | 0 <= k < |rest|
      ensures Le(y[j], rest[k])
    {
      assert rest[k] == y[j + 1 + k];
    }
    forall h, k | 0 <= h < |out| && 0 <= k < |rest|
      ensures Le(out[h], rest[k])
    {
      assert y[j..][k + 1] == rest[k];
    }
    forall k | 0 <= k < |x[i..]|
      ensures Le(y[j], x[i..][k])
    {
      assert x[i..][k] == x[i + k];
      assert k > 0 ==> Le(x[i], x[i + k]);
    }
  }

  /** Merges the runs a[p..q] and a[q..r] into b[p..r]. */
  method Merge(a: array<Leaf>, b: array<Leaf>, p: nat, q: nat, r: nat)
    requires a != b && a.Length == b.Length && p <= q <= r <= a.Length
    requires Sorted(a[p..q]) && Sorted(a[q..r]) && AllBefore(a[p..q], a[q..r])
    modifies b
    ensures Sorted(b[p..r]) && multiset(b[p..r]) == multiset(a[p..r])
    ensures b[..p] == old(b[..p]) && b[r..] == old(b[r..])
  {
    hide Sorted, AllLe, AllBefore, MergedSoFar, Replaced;
    ghost var x, y, b0 := a[p..q], a[q..r], b[..];
    Nothing(x, y);
    ReplacedNothing(b0, p);
    var i, j := p, q;
    ghost var out: seq<Leaf> := [];
    for k := p to r
      invariant p <= i <= q <= j <= r && k == i + j - q
      invariant a[p..q] == x && a[q..r] == y
      invariant Replaced(b[..], b0, p, out) && k == p + |out| && MergedSoFar(out, x, i - p, y, j - q)
    {
      var v;
      if i < q && (j >= r || a[i].weight <= a[j].weight) {
        v := a[i];
        MergeStep(out, x, i - p, y, j - q, v, true);
        i := i + 1;
      } else {
        v := a[j];
        MergeStep(out, x, i - p, y, j - q, v, false);
        j := j + 1;
      }
      ghost var b1 := b[..];
      b[k] := v;
      ReplacedOne(b1, b0, p, out, v);
      out := out + [v];
    }
    ReplacedParts(b[..], b0, p, out);
    assert b[p..r] == b[..][p..r] && b[..p] == b[..][..p] && b[r..] == b[..][r..];
    AllMerged(b[p..r], x, y);
    assert a[p..r] == x + y;
  }

  lemma Nothing(x: seq<Leaf>, y: seq<Leaf>)
    ensures MergedSoFar([], x, 0, y, 0)
  {
  }

  lemma AllMerged(out: seq<Leaf>, x: seq<Leaf>, y: seq<Leaf>)
    requires MergedSoFar(out, x, |x|, y, |y|)
    ensures Sorted(out) && multiset(out) == multiset(x + y)
  {
    hide Sorted, AllLe;
    assert x[..|x|] == x && y[..|y|] == y;
  }

  // ----- Runs of a given width

  function Min(a: nat, b: nat): nat {
    if a < b then a else b
  }

  /** Run number m of width w: sorted, and a permutation of the same stretch of s. */
  ghost predicate RunOk(a: seq<Leaf>, s: seq<Leaf>, lo: nat, hi: nat)
    requires lo <= hi <= |a| == |s|
  {
    Sorted(a[lo..hi]) && multiset(a[lo..hi]) == multiset(s[lo..hi])
  }

  /** The stretch from lo to end consists of sorted runs of the given width; the
      last one may be cut off by the end of the array. */
  ghost predicate Runs(a: seq<Leaf>, s: seq<Leaf>, width: nat, lo: nat, end: nat)
    requires |a| == |s| && width > 0
    decreases end - lo
  {
    lo == end ||
    (lo + width <= end
     && RunOk(a, s, Min(lo, |a|), Min(lo + width, |a|)) && Runs(a, s, width, lo + width, end))
  }

  lemma RunsBefore(a: seq<Leaf>, s: seq<Leaf>, p: nat, q: nat, r: nat)
    requires |a| == |s| && p <= q <= r <= |a| && ByIndex(s)
    requires multiset(a[p..q]) == multiset(s[p..q]) && multiset(a[q..r]) == multiset(s[q..r])
    ensures AllBefore(a[p..q], a[q..r])
  {
    forall x, y | x in a[p..q] && y in a[q..r]
      ensures x.index < y.index
    {
      assert x in multiset(a[p..q]) && y in multiset(a[q..r]);
      assert x in s[p..q] && y in s[q..r];
      var i :| 0 <= i < |s[p..q]| && s[p..q][i] == x;
      var j :| 0 <= j < |s[q..r]| && s[q..r][j] == y;
      assert s[p + i] == x && s[q + j] == y;
    }
  }

  lemma JoinRuns(a: seq<Leaf>, s: seq<Leaf>, p: nat, q: nat, r: nat)
    requires |a| == |s| && p <= q <= r <= |a|
    requires multiset(a[p..q]) == multiset(s[p..q]) && multiset(a[q..r]) == multiset(s[q..r])
    ensures multiset(a[p..r]) == multiset(s[p..r])
  {
    assert a[p..r] == a[p..q] + a[q..r];
    assert s[p..r] == s[p..q] + s[q..r];
  }

  /** One pass: runs of a become runs of twice the width in b. */
  method Pass(a: array<Leaf>, b: array<Leaf>, width: nat, ghost s: seq<Leaf>, ghost end: nat) returns (ghost end': nat)
    requires a != b && a.Length == b.Length == |s| && width > 0 && ByIndex(s)
    requires end >= |s| && Runs(a[..], s, width, 0, end)
    modifies b
    ensures end' >= |s| && Runs(b[..], s, 2 * width, 0, end')
  {
    hide Sorted, AllBefore, ByIndex, RunOk;
    var num := a.Length;
    var p := 0;
    while p < num
      invariant a[..] == old(a[..])
      invariant p <= end ==> Runs(a[..], s, width, p, end)
      invariant p > end ==> p >= num
      invariant Runs(b[..], s, 2 * width, 0, p)
    {
      var q := if p + width > num then num else p + width;
      var r := if p + 2 * width > num then num else p + 2 * width;
      EmptyRun(a[..], s, num);
      ghost var b0 := b[..];
      MergeRuns(a, b, s, p, q, r);
      RunsKept(b0, b[..], s, 2 * width, 0, p, p);
      RunsAppend(b[..], s, 2 * width, 0, p);
      p := p + 2 * width;
    }
    end' := p;
  }

  method MergeRuns(a: array<Leaf>, b: array<Leaf>, ghost s: seq<Leaf>, p: nat, q: nat, r: nat)
    requires a != b && a.Length == b.Length == |s| && p <= q <= r <= |s| && ByIndex(s)
    requires RunOk(a[..], s, p, q) && RunOk(a[..], s, q, r)
    modifies b
    ensures RunOk(b[..], s, p, r) && b[..p] == old(b[..p])
  {
    hide Sorted, AllBefore, ByIndex;
    assert a[..][p..q] == a[p..q] && a[..][q..r] == a[q..r] && a[..][p..r] == a[p..r];
    RunsBefore(a[..], s, p, q, r);
    JoinRuns(a[..], s, p, q, r);
    Merge(a, b, p, q, r);
    assert b[..][p..r] == b[p..r];
  }

  lemma EmptyRun(a: seq<Leaf>, s: seq<Leaf>, q: nat)
    requires q <= |a| == |s|
    ensures RunOk(a, s, q, q)
  {
    assert a[q..q] == [] && s[q..q] == [];
  }

  lemma {:induction false} RunsKept(b0: seq<Leaf>, b: seq<Leaf>, s: seq<Leaf>, width: nat, lo: nat, end: nat, p: nat)
    requires |b0| == |b| == |s| && width > 0 && end <= p <= |s| && b[..p] == b0[..p]
    requires Runs(b0, s, width, lo, end)
    ensures Runs(b, s, width, lo, end)
    decreases end - lo
  {
    if lo != end {
      RunsKept(b0, b, s, width, lo + width, end, p);
      assert b[lo..lo + width] == b[..p][lo..lo + width] == b0[lo..lo + width];
    }
  }

  lemma {:induction false} RunsAppend(b: seq<Leaf>, s: seq<Leaf>, width: nat, lo: nat, p: nat)
    requires |b| == |s| && width > 0 && p <= |s| && Runs(b, s, width, lo, p)
    requires RunOk(b, s, p, Min(p + width, |s|))
    ensures Runs(b, s, width, lo, p + width)
    decreases p - lo
  {
    hide RunOk;
    if lo != p {
      RunsAppend(b, s, width, lo + width, p);
    } else {
      assert Runs(b, s, width, p + width, p + width);
    }
  }

  /** Stable merge sort: by weight, leaves of equal weight by index. */
  method BpmnodeSort(leaves: array<Leaf>)
    requires ByIndex(leaves[..])
    modifies leaves
    ensures Sorted(leaves[..]) && multiset(leaves[..]) == multiset(old(leaves[..]))
  {
    hide Sorted, ByIndex, Runs, RunOk;
    ghost var s := leaves[..];
    var num := leaves.Length;
    var mem := new Leaf[num](_ => Leaf(0, 0));
    var width, counter := 1, 0;
    ghost var end := num;
    SingleRuns(s, 0);
    while width < num
      invariant width > 0 && end >= num
      invariant Runs(if counter % 2 == 1 then mem[..] else leaves[..], s, width, 0, end)
    {
      var a := if counter % 2 == 1 then mem else leaves;
      var b := if counter % 2 == 1 then leaves else mem;
      end := Pass(a, b, width, s, end);
      counter := counter + 1;
      width := 2 * width;
    }
    ghost var last := if counter % 2 == 1 then mem[..] else leaves[..];
    if counter % 2 == 1 {
      forall i | 0 <= i < num {
        leaves[i] := mem[i];
      }
    }
    assert leaves[..] == last;
    OneRun(leaves[..], s, width, end);
  }

  lemma {:induction false} SingleRuns(s: seq<Leaf>, lo: nat)
    requires lo <= |s|
    ensures Runs(s, s, 1, lo, |s|)
    decreases |s| - lo
  {
    if lo < |s| {
      SingleRuns(s, lo + 1);
      assert |s[lo..lo + 1]| == 1;
    }
  }

  lemma OneRun(a: seq<Leaf>, s: seq<Leaf>, width: nat, end: nat)
    requires |a| == |s| <= width && width > 0 && end >= |s| && Runs(a, s, width, 0, end)
    ensures Sorted(a) && multiset(a) == multiset(s)
  {
    if end == 0 {
      assert a == [] && s == [];
    } else {
      assert RunOk(a, s, 0, |a|);
      assert a[0..|a|] == a && s[0..|s|] == s;
    }
  }
}
