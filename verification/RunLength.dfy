/** Run-length coding of code lengths on the encoder's side (RFC 1951 section 3.2.7). */
module RunLength {
  import opened CanonicalCode
  import opened DeflateFormat

  /** The integers that stand for a run in the encoder's vector. */
  function RunSymbols(r: Run): (v: seq<nat>)
    requires ValidRun(r)
  {
    match r
    case Len(v) => [v]
    case _ => [RunSymbol(r), RunExtra(r)]
  }

  predicate AllValid(rs: seq<Run>) {
    forall i :: 0 <= i < |rs| ==> ValidRun(rs[i])
  }

  function AllRunSymbols(rs: seq<Run>): (v: seq<nat>)
    requires AllValid(rs)
  {
    if rs == [] then [] else AllRunSymbols(rs[..|rs| - 1]) + RunSymbols(rs[|rs| - 1])
  }

  lemma {:induction false} ExpandRunsAppend(acc: Lengths, rs: seq<Run>, r: Run)
    requires RunsExpandable(acc, rs) && ValidRun(r) && (r.Repeat? ==> ExpandRuns(acc, rs) != [])
    ensures RunsExpandable(acc, rs + [r]) && ExpandRuns(acc, rs + [r]) == ApplyRun(ExpandRuns(acc, rs), r)
    decreases |rs|
  {
    hide ApplyRun, ValidRun;
    if rs == [] {
      assert ([] + [r])[1..] == [];
    } else {
      ExpandRunsAppend(ApplyRun(acc, rs[0]), rs[1..], r);
      assert (rs + [r])[1..] == rs[1..] + [r];
    }
  }

  /** The runs spell the first n lengths, in no more integers than there are lengths. */
  ghost predicate Spell(lens: Lengths, rs: seq<Run>, e: seq<nat>, n: nat) {
    && n <= |lens| && AllValid(rs)
    && RunsExpandable([], rs) && ExpandRuns([], rs) == lens[..n]
    && e == AllRunSymbols(rs) && |e| <= n
  }

  predicate AllEqual(lens: Lengths, from: nat, to: nat, v: nat) {
    from <= to <= |lens| && forall i :: from <= i < to ==> lens[i] == v
  }

  lemma AppendRun(lens: Lengths, rs: seq<Run>, e: seq<nat>, n: nat, r: Run)
    requires Spell(lens, rs, e, n) && ValidRun(r)
    requires match r
             case Len(v) => n < |lens| && lens[n] == v
             case Repeat(k) => n > 0 && AllEqual(lens, n - 1, n + k, lens[n - 1])
             case ZeroRun(k) => AllEqual(lens, n, n + k, 0)
    ensures Spell(lens, rs + [r], e + RunSymbols(r), n + RunCount(r))
  {
    hide RunsExpandable, ExpandRuns, RunSymbols;
    ExpandRunsAppend([], rs, r);
    assert (rs + [r])[..|rs|] == rs;
    ApplyRunTo(lens, n, r);
    SymbolsFit(r);
  }

  lemma ApplyRunTo(lens: Lengths, n: nat, r: Run)
    requires n <= |lens| && ValidRun(r)
    requires match r
             case Len(v) => n < |lens| && lens[n] == v
             case Repeat(k) => n > 0 && AllEqual(lens, n - 1, n + k, lens[n - 1])
             case ZeroRun(k) => AllEqual(lens, n, n + k, 0)
    ensures n + RunCount(r) <= |lens| && ApplyRun(lens[..n], r) == lens[..n + RunCount(r)]
  {
  }

  lemma SymbolsFit(r: Run)
    requires ValidRun(r)
    ensures |RunSymbols(r)| <= RunCount(r)
  {
  }

  lemma NothingSpelled(lens: Lengths)
    ensures Spell(lens, [], [], 0)
  {
  }

  /** How often lens[i] is repeated behind position i. */
  method CountRepeats(lens: Lengths, i: nat) returns (j: nat)
    requires i < |lens|
    ensures AllEqual(lens, i, i + j + 1, lens[i]) && (i + j + 1 == |lens| || lens[i + j + 1] != lens[i])
  {
    j := 0;
    while i + j + 1 < |lens| && lens[i + j + 1] == lens[i]
      invariant AllEqual(lens, i, i + j + 1, lens[i])
    {
      j := j + 1;
    }
  }

  /** A length and its repetitions, six at a time. */
  method EncodeRepeats(lens: Lengths, i: nat, repeats: nat, e0: seq<nat>, ghost rs0: seq<Run>)
    returns (j: nat, e: seq<nat>, ghost rs: seq<Run>)
    requires repeats >= 3 && i < |lens| && AllEqual(lens, i, i + repeats + 1, lens[i]) && Spell(lens, rs0, e0, i)
    ensures j <= repeats && Spell(lens, rs, e, i + j + 1)
  {
    hide Spell;
    var num, rest := repeats / 6, repeats % 6;
    j := repeats;
    AppendRun(lens, rs0, e0, i, Len(lens[i]));
    e, rs := e0 + [lens[i]], rs0 + [Len(lens[i])];
    for k := 0 to num
      invariant Spell(lens, rs, e, i + 1 + 6 * k)
    {
      AppendRun(lens, rs, e, i + 1 + 6 * k, Repeat(6));
      e, rs := e + [16, 6 - 3], rs + [Repeat(6)];
    }
    if rest >= 3 {
      AppendRun(lens, rs, e, i + 1 + 6 * num, Repeat(rest));
      e, rs := e + [16, rest - 3], rs + [Repeat(rest)];
    } else {
      j := j - rest;
    }
  }

  method EncodeZeros(lens: Lengths, i: nat, repeats: nat, e0: seq<nat>, ghost rs0: seq<Run>)
    returns (j: nat, e: seq<nat>, ghost rs: seq<Run>)
    requires repeats >= 2 && AllEqual(lens, i, i + repeats + 1, 0) && Spell(lens, rs0, e0, i)
    ensures 1 <= j <= repeats + 1 && Spell(lens, rs, e, i + j)
  {
    hide Spell;
    j := repeats + 1;
    if j <= 10 {
      e := e0 + [17, j - 3];
    } else {
      if j > 138 {
        j := 138;
      }
      e := e0 + [18, j - 11];
    }
    AppendRun(lens, rs0, e0, i, ZeroRun(j));
    rs := rs0 + [ZeroRun(j)];
  }

  /** Run-length codes the lengths; the result never needs more room than they do. */
  method RunLengthEncode(lens: Lengths) returns (e: seq<nat>, ghost rs: seq<Run>)
    ensures |e| <= |lens| && AllValid(rs) && e == AllRunSymbols(rs)
    ensures RunsExpandable([], rs) && ExpandRuns([], rs) == lens
  {
    hide RunsExpandable, ExpandRuns, AllRunSymbols;
    var i := 0;
    e, rs := [], [];
    NothingSpelled(lens);
    while i != |lens|
      invariant i <= |lens| && Spell(lens, rs, e, i)
      decreases |lens| - i
    {
      var j := CountRepeats(lens, i);
      if lens[i] == 0 && j >= 2 {
        j, e, rs := EncodeZeros(lens, i, j, e, rs);
        i := i + (j - 1);
      } else if j >= 3 {
        j, e, rs := EncodeRepeats(lens, i, j, e, rs);
        i := i + j;
      } else {
        AppendRun(lens, rs, e, i, Len(lens[i]));
        e, rs := e + [lens[i]], rs + [Len(lens[i])];
      }
      i := i + 1;
    }
    assert lens[..|lens|] == lens;
  }

  // ----- Reading the vector back, run by run

  lemma {:induction false} RunAtIndex(rs: seq<Run>, k: nat)
    requires AllValid(rs) && k < |rs|
    ensures
      var v, i := AllRunSymbols(rs), |AllRunSymbols(rs[..k])|;
      && i + |RunSymbols(rs[k])| <= |v| && v[i..i + |RunSymbols(rs[k])|] == RunSymbols(rs[k])
      && |AllRunSymbols(rs[..k + 1])| == i + |RunSymbols(rs[k])|
    decreases |rs|
  {
    var init := rs[..|rs| - 1];
    assert rs[..k + 1][..k] == rs[..k];
    if k == |rs| - 1 {
      assert rs[..k + 1] == rs;
    } else {
      assert init[..k] == rs[..k] && init[..k + 1] == rs[..k + 1] && init[k] == rs[k];
      RunAtIndex(init, k);
    }
  }

  /** The code length symbols of the runs. */
  function Keys(rs: seq<Run>): (v: seq<nat>)
    requires AllValid(rs)
    ensures |v| == |rs| && forall i :: 0 <= i < |rs| ==> v[i] == RunSymbol(rs[i])
  {
    seq(|rs|, i requires 0 <= i < |rs| => RunSymbol(rs[i]))
  }

  lemma RunAtFacts(rs: seq<Run>, e: seq<nat>, i: nat, k: nat)
    requires AllValid(rs) && e == AllRunSymbols(rs) && k <= |rs| && i == |AllRunSymbols(rs[..k])| < |e|
    ensures k < |rs| && e[i] == RunSymbol(rs[k]) < 19
    ensures |AllRunSymbols(rs[..k + 1])| == (if e[i] >= 16 then i + 2 else i + 1) <= |e|
    ensures e[i] >= 16 ==> e[i + 1] == RunExtra(rs[k])
    ensures multiset(Keys(rs[..k + 1])) == multiset(Keys(rs[..k])) + multiset{e[i]}
  {
    hide AllRunSymbols;
    assert k < |rs| by { assert rs[..|rs|] == rs; }
    RunAtIndex(rs, k);
    var sy := RunSymbols(rs[k]);
    assert e[i..i + |sy|] == sy;
    assert e[i] == e[i..i + |sy|][0] == sy[0];
    assert |sy| == 2 ==> e[i + 1] == e[i..i + |sy|][1] == sy[1];
    assert Keys(rs[..k + 1]) == Keys(rs[..k]) + [e[i]];
  }

  /** How often the runs use each code length symbol. */
  method CountRunSymbols(e: seq<nat>, ghost rs: seq<Run>) returns (freq: seq<nat>)
    requires AllValid(rs) && e == AllRunSymbols(rs)
    ensures |freq| == 19 && forall s :: 0 <= s < 19 ==> freq[s] == multiset(Keys(rs))[s]
  {
    hide AllRunSymbols, RunSymbol, Keys;
    freq := seq(19, _ => 0);
    ghost var k := 0;
    var i := 0;
    NoRuns(rs);
    while i != |e|
      invariant k <= |rs| && i == |AllRunSymbols(rs[..k])| <= |e|
      invariant |freq| == 19 && forall s :: 0 <= s < 19 ==> freq[s] == multiset(Keys(rs[..k]))[s]
      decreases |e| - i
    {
      RunAtFacts(rs, e, i, k);
      freq := freq[e[i] := freq[e[i]] + 1];
      if e[i] >= 16 {
        i := i + 1;
      }
      i := i + 1;
      k := k + 1;
    }
    AllRunsRead(rs, k);
    assert rs[..k] == rs;
  }

  lemma NoRuns(rs: seq<Run>)
    requires AllValid(rs)
    ensures AllRunSymbols(rs[..0]) == [] && Keys(rs[..0]) == []
  {
  }

  lemma AllRunsRead(rs: seq<Run>, k: nat)
    requires AllValid(rs) && k <= |rs| && |AllRunSymbols(rs[..k])| == |AllRunSymbols(rs)|
    ensures k == |rs|
  {
    if k < |rs| {
      RunAtIndex(rs, k);
    }
  }
}
