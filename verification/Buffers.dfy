/** Buffers in which one stretch is being replaced. */
module Buffers {

  /** The buffer is as before, except that `done` now lies at o. */
  ghost predicate Replaced<T>(out: seq<T>, before: seq<T>, o: nat, done: seq<T>) {
    o + |done| <= |before| && out == before[..o] + done + before[o + |done|..]
  }

  lemma ReplacedNothing<T>(before: seq<T>, o: nat)
    requires o <= |before|
    ensures Replaced(before, before, o, [])
  {
  }

  lemma ReplacedMore<T>(out: seq<T>, before: seq<T>, o: nat, done: seq<T>, out': seq<T>, more: seq<T>)
    requires Replaced(out, before, o, done) && o + |done| + |more| <= |before|
    requires out' == out[..o + |done|] + more + out[o + |done| + |more|..]
    ensures Replaced(out', before, o, done + more)
  {
    assert out[..o + |done|] == before[..o] + done;
    assert out[o + |done| + |more|..] == before[o + |done| + |more|..];
  }

  lemma ReplacedOne<T>(out: seq<T>, before: seq<T>, o: nat, done: seq<T>, v: T)
    requires Replaced(out, before, o, done) && o + |done| < |before|
    ensures |out| == |before| && Replaced(out[o + |done| := v], before, o, done + [v])
  {
    var k := o + |done|;
    assert before[k..] == [before[k]] + before[k + 1..];
  }

  /** What lies behind is still there. */
  lemma ReplacedBehind<T>(out: seq<T>, before: seq<T>, o: nat, done: seq<T>, from: nat, to: nat)
    requires Replaced(out, before, o, done) && o + |done| <= from <= to <= |before|
    ensures |out| == |before| && out[from..to] == before[from..to]
  {
  }

  lemma ReplacedAt<T>(out: seq<T>, before: seq<T>, o: nat, done: seq<T>, k: nat)
    requires Replaced(out, before, o, done) && o + |done| <= k < |before|
    ensures |out| == |before| && out[k] == before[k]
  {
  }

  lemma ReplacedParts<T>(out: seq<T>, before: seq<T>, o: nat, done: seq<T>)
    requires Replaced(out, before, o, done)
    ensures |out| == |before| && o + |done| <= |out|
    ensures out[..o] == before[..o] && out[o..o + |done|] == done && out[o + |done|..] == before[o + |done|..]
  {
  }

  lemma SliceOfSlice<T>(s: seq<T>, a: nat, b: nat, i: nat, j: nat)
    requires a <= b <= |s| && i <= j <= b - a
    ensures s[a..b][i..j] == s[a + i..a + j]
  {
    var x, y := s[a..b][i..j], s[a + i..a + j];
    forall k | 0 <= k < |x|
      ensures x[k] == y[k]
    {
      assert x[k] == s[a..b][i + k];
    }
  }

  lemma ReplacedAll<T>(out: seq<T>, before: seq<T>, done: seq<T>)
    requires Replaced(out, before, 0, done) && |done| == |before|
    ensures out == done
  {
  }

  lemma ReplacedEnd<T>(out: seq<T>, before: seq<T>, done: seq<T>, v: T)
    requires Replaced(out, before, 0, done + [v])
    ensures |done| < |before| && out == done + ([v] + before[|done| + 1..])
  {
  }
}
