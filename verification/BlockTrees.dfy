/** The trees of a dynamic block: the symbols of its tokens are counted, and no trees spend
    fewer bits on them. */
module BlockTrees {
  import opened Bits
  import opened CanonicalCode
  import opened DeflateFormat
  import opened DeflateBits
  import opened PackageOptimal
  import opened CheapestLengths
  import opened HuffmanTree
  import opened CodeLengths
  import opened SymbolLeaves
  import opened Lz77

  // ----- Reading the vector of the encoder, token by token

  predicate AllTokensValid(ts: seq<Token>) {
    forall i :: 0 <= i < |ts| ==> ValidToken(ts[i])
  }

  function LitLenSymbol(t: Token): nat {
    match t
    case Literal(b) => b
    case Match(lcode, _, _, _) => FIRSTLENGTHCODE + lcode
  }

  function LitLenSymbols(ts: seq<Token>): (v: seq<nat>)
    ensures |v| == |ts| && forall i :: 0 <= i < |ts| ==> v[i] == LitLenSymbol(ts[i])
  {
    seq(|ts|, i requires 0 <= i < |ts| => LitLenSymbol(ts[i]))
  }

  function DistanceSymbols(ts: seq<Token>): (v: seq<nat>) {
    if ts == [] then []
    else DistanceSymbols(ts[..|ts| - 1]) + (if ts[|ts| - 1].Match? then [ts[|ts| - 1].dcode] else [])
  }

  lemma {:induction false} DistanceSymbolIn(ts: seq<Token>, k: nat)
    requires k < |ts| && ts[k].Match?
    ensures ts[k].dcode in DistanceSymbols(ts)
    decreases |ts|
  {
    if k < |ts| - 1 {
      DistanceSymbolIn(ts[..|ts| - 1], k);
    }
  }

  lemma {:induction false} TokenAtIndex(ts: seq<Token>, k: nat)
    requires k < |ts|
    ensures
      var v, i := AllSymbols(ts), |AllSymbols(ts[..k])|;
      && i + |Symbols(ts[k])| <= |v| && v[i..i + |Symbols(ts[k])|] == Symbols(ts[k])
      && |AllSymbols(ts[..k + 1])| == i + |Symbols(ts[k])|
    decreases |ts|
  {
    hide Symbols;
    var init := ts[..|ts| - 1];
    assert ts[..k + 1][..k] == ts[..k];
    if k == |ts| - 1 {
      assert ts[..k + 1] == ts;
    } else {
      assert init[..k] == ts[..k] && init[..k + 1] == ts[..k + 1] && init[k] == ts[k];
      TokenAtIndex(init, k);
    }
  }

  lemma TokenAtFacts(ts: seq<Token>, values: seq<nat>, i: nat, k: nat)
    requires AllTokensValid(ts) && values == AllSymbols(ts) && k <= |ts| && i == |AllSymbols(ts[..k])| < |values|
    ensures k < |ts| && values[i] == LitLenSymbol(ts[k]) < 286 && values[i] != ENDCODE
    ensures values[i] > 256 <==> ts[k].Match?
    ensures |AllSymbols(ts[..k + 1])| == (if values[i] > 256 then i + 4 else i + 1) <= |values|
    ensures values[i] > 256 ==>
      values[i + 1] == ts[k].lextra && values[i + 2] == ts[k].dcode < 30 && values[i + 3] == ts[k].dextra
  {
    hide AllSymbols;
    assert k < |ts| by { assert ts[..|ts|] == ts; }
    TokenAtIndex(ts, k);
    assert ValidToken(ts[k]);
    var sy := Symbols(ts[k]);
    var part := values[i..i + |sy|];
    assert part == sy;
    assert values[i] == part[0];
    if ts[k].Match? {
      assert values[i + 1] == part[1] && values[i + 2] == part[2] && values[i + 3] == part[3];
    }
  }

  lemma AllTokensRead(ts: seq<Token>, k: nat)
    requires k <= |ts| && |AllSymbols(ts[..k])| == |AllSymbols(ts)|
    ensures k == |ts|
  {
    if k < |ts| {
      TokenAtIndex(ts, k);
    }
  }

  // ----- Frequencies

  ghost predicate Counts(freq: seq<nat>, used: seq<nat>) {
    forall s :: 0 <= s < |freq| ==> freq[s] == multiset(used)[s]
  }

  lemma CountsStep(freq: seq<nat>, used: seq<nat>, s: nat)
    requires Counts(freq, used) && s < |freq|
    ensures Counts(freq[s := freq[s] + 1], used + [s])
  {
  }

  lemma UsedSteps(ts: seq<Token>, k: nat)
    requires k < |ts|
    ensures LitLenSymbols(ts[..k + 1]) == LitLenSymbols(ts[..k]) + [LitLenSymbol(ts[k])]
    ensures DistanceSymbols(ts[..k + 1]) == DistanceSymbols(ts[..k]) + (if ts[k].Match? then [ts[k].dcode] else [])
  {
    assert ts[..k + 1][..k] == ts[..k];
  }

  /** Counts the symbols of both alphabets; the end code will be used once. */
  method CountSymbols(values: seq<nat>, ghost ts: seq<Token>) returns (ll: seq<nat>, d: seq<nat>)
    requires AllTokensValid(ts) && values == AllSymbols(ts)
    ensures |ll| == 286 && forall s :: 0 <= s < 286 && s != ENDCODE ==> ll[s] == multiset(LitLenSymbols(ts))[s]
    ensures ll[ENDCODE] == 1
    ensures |d| == 30 && Counts(d, DistanceSymbols(ts))
  {
    hide AllSymbols, Counts, LitLenSymbols, DistanceSymbols, AllTokensValid;
    ll, d := seq(286, _ => 0), seq(30, _ => 0);
    ghost var k := 0;
    var i := 0;
    NoSymbols(ts, ll, d);
    while i != |values|
      invariant k <= |ts| && i == |AllSymbols(ts[..k])| <= |values|
      invariant |ll| == 286 && Counts(ll, LitLenSymbols(ts[..k]))
      invariant |d| == 30 && Counts(d, DistanceSymbols(ts[..k]))
      decreases |values| - i
    {
      TokenAtFacts(ts, values, i, k);
      UsedSteps(ts, k);
      var symbol := values[i];
      CountsStep(ll, LitLenSymbols(ts[..k]), symbol);
      ll := ll[symbol := ll[symbol] + 1];
      if symbol > 256 {
        var dist := values[i + 2];
        CountsStep(d, DistanceSymbols(ts[..k]), dist);
        d := d[dist := d[dist] + 1];
        i := i + 3;
      } else {
        assert DistanceSymbols(ts[..k]) + [] == DistanceSymbols(ts[..k]);
      }
      i := i + 1;
      k := k + 1;
    }
    AllTokensRead(ts, k);
    assert ts[..k] == ts;
    CountsUnfold(ll, LitLenSymbols(ts));
    ll := ll[ENDCODE := 1];
  }

  lemma CountsUnfold(freq: seq<nat>, used: seq<nat>)
    requires Counts(freq, used)
    ensures forall s :: 0 <= s < |freq| ==> freq[s] == multiset(used)[s]
  {
  }

  lemma NoSymbols(ts: seq<Token>, ll: seq<nat>, d: seq<nat>)
    requires ll == seq(286, _ => 0) && d == seq(30, _ => 0)
    ensures AllSymbols(ts[..0]) == []
    ensures Counts(ll, LitLenSymbols(ts[..0])) && Counts(d, DistanceSymbols(ts[..0]))
  {
    assert LitLenSymbols(ts[..0]) == [];
  }

  // ----- Codes for the symbols

  /** Every symbol the tokens use got a code. */
  lemma UsedIsCodable(ts: seq<Token>, fll: seq<nat>, fd: seq<nat>, kll: nat, kd: nat, ll: Lengths, d: Lengths)
    requires AllTokensValid(ts) && |fll| == 286 && |fd| == 30
    requires forall s :: 0 <= s < 286 && s != ENDCODE ==> fll[s] == multiset(LitLenSymbols(ts))[s]
    requires Counts(fd, DistanceSymbols(ts))
    requires kll <= 286 && kd <= 30
    requires (forall s :: kll <= s < 286 ==> fll[s] == 0) && (forall s :: kd <= s < 30 ==> fd[s] == 0)
    requires GoodLengths(fll[..kll], 15, ll) && GoodLengths(fd[..kd], 15, d)
    ensures AllCodable(Pad(ll, 288), Pad(d, 32), ts)
  {
    hide Complete, LeavesOf;
    forall i | 0 <= i < |ts|
      ensures ValidToken(ts[i]) && Codable(Pad(ll, 288), Pad(d, 32), ts[i])
    {
      var s := LitLenSymbol(ts[i]);
      assert LitLenSymbols(ts)[i] == s;
      assert s in multiset(LitLenSymbols(ts));
      assert ValidToken(ts[i]) && s < 286 && s != ENDCODE;
      assert fll[s] > 0 && s < kll && fll[..kll][s] > 0;
      assert ll[s] > 0;
      if ts[i].Match? {
        var t := ts[i].dcode;
        DistanceSymbolIn(ts, i);
        assert t in multiset(DistanceSymbols(ts));
        assert fd[t] > 0 && t < kd && fd[..kd][t] > 0;
        assert d[t] > 0;
      }
    }
  }

  // ----- How many bits the symbols take

  function SymbolCost(used: seq<nat>, lens: Lengths): nat
    requires forall i :: 0 <= i < |used| ==> used[i] < |lens|
  {
    if used == [] then 0 else SymbolCost(used[..|used| - 1], lens) + lens[used[|used| - 1]]
  }

  lemma {:induction false} CostOfOneMore(freq: seq<nat>, lens: Lengths, s: nat, n: nat)
    requires n <= |freq| <= |lens| && s < |freq|
    ensures Cost(freq[s := freq[s] + 1], lens, n) == Cost(freq, lens, n) + (if s < n then lens[s] else 0)
  {
    if n > 0 {
      CostOfOneMore(freq, lens, s, n - 1);
      if n - 1 == s {
        OneMoreTimes(freq[s], lens[s]);
      }
    }
  }

  lemma OneMoreTimes(a: nat, b: nat)
    ensures (a + 1) * b == a * b + b
  {
  }

  lemma {:induction false} NoCost(freq: seq<nat>, lens: Lengths, n: nat)
    requires n <= |freq| <= |lens| && forall s :: 0 <= s < |freq| ==> freq[s] == 0
    ensures Cost(freq, lens, n) == 0
  {
    if n > 0 {
      NoCost(freq, lens, n - 1);
    }
  }

  /** Symbols counted and symbols listed cost the same. */
  lemma {:induction false} CountedCost(freq: seq<nat>, used: seq<nat>, lens: Lengths)
    requires Counts(freq, used) && |freq| <= |lens| && forall i :: 0 <= i < |used| ==> used[i] < |freq|
    ensures Cost(freq, lens, |freq|) == SymbolCost(used, lens)
    decreases |used|
  {
    if used == [] {
      NoCost(freq, lens, |freq|);
    } else {
      var init, s := used[..|used| - 1], used[|used| - 1];
      assert used == init + [s];
      var fewer := freq[s := freq[s] - 1];
      assert Counts(fewer, init);
      assert fewer[s := fewer[s] + 1] == freq;
      CountedCost(fewer, init, lens);
      CostOfOneMore(fewer, lens, s, |freq|);
    }
  }

  lemma {:induction false} SameCost(used: seq<nat>, a: Lengths, b: Lengths)
    requires forall i :: 0 <= i < |used| ==> used[i] < |a| && used[i] < |b| && a[used[i]] == b[used[i]]
    ensures SymbolCost(used, a) == SymbolCost(used, b)
    decreases |used|
  {
    if used != [] {
      SameCost(used[..|used| - 1], a, b);
    }
  }

  predicate AllHaveCodes(used: seq<nat>, lens: Lengths) {
    forall i :: 0 <= i < |used| ==> used[i] < |lens| && lens[used[i]] > 0
  }

  /** No other code in which the symbols have a place spends fewer bits on them. */
  ghost predicate CheapestFor(used: seq<nat>, lens: Lengths) {
    AllHaveCodes(used, lens) &&
    forall other: Lengths :: |other| == |lens| && AllHaveCodes(used, other) && Kraft(other) <= Pow2(LONGEST) ==>
      SymbolCost(used, lens) <= SymbolCost(used, other)
  }

  lemma {:induction false} PrefixWidths(a: Lengths, k: nat, n: nat)
    requires k <= n <= |a|
    ensures WidthSum(a[..k], LONGEST, k) <= WidthSum(a, LONGEST, n)
  {
    if k < n {
      PrefixWidths(a, k, n - 1);
    } else {
      assert a[..k][..k] == a[..k];
      SameWidths(a[..k], a, k);
    }
  }

  lemma {:induction false} SameWidths(a: Lengths, b: Lengths, n: nat)
    requires n <= |a| && n <= |b| && a[..n] == b[..n]
    ensures WidthSum(a, LONGEST, n) == WidthSum(b, LONGEST, n)
  {
    if n > 0 {
      assert a[..n - 1] == a[..n][..n - 1] && b[..n - 1] == b[..n][..n - 1];
      assert a[n - 1] == a[..n][n - 1] && b[n - 1] == b[..n][n - 1];
      SameWidths(a, b, n - 1);
    }
  }

  lemma PrefixKraft(a: Lengths, k: nat)
    requires k <= |a|
    ensures Kraft(a[..k]) <= Kraft(a)
  {
    hide Kraft, WidthSum;
    KraftIsSum(a);
    KraftIsSum(a[..k]);
    PrefixWidths(a, k, |a|);
  }

  /** The lengths made from the counts are the cheapest for what was counted. */
  lemma CountsAreCheapest(freq: seq<nat>, used: seq<nat>, k: nat, lens: Lengths, m: nat)
    requires k <= |freq| && k <= m && Counts(freq, used) && (forall s :: k <= s < |freq| ==> freq[s] == 0)
    requires forall i :: 0 <= i < |used| ==> used[i] < |freq|
    requires GoodLengths(freq[..k], 15, lens) && Cheapest(freq[..k], 15, lens)
    ensures CheapestFor(used, Pad(lens, m))
  {
    hide Complete, Kraft, CodeSpace, LeavesOf, Cost, SymbolCost;
    var f := freq[..k];
    UsedAreCounted(freq, used, k);
    CountedCost(f, used, lens);
    SameCost(used, lens, Pad(lens, m));
    forall other: Lengths | |other| == m && AllHaveCodes(used, other) && Kraft(other) <= Pow2(LONGEST)
      ensures SymbolCost(used, Pad(lens, m)) <= SymbolCost(used, other)
    {
      var o := other[..k];
      PrefixKraft(other, k);
      CountedAreUsed(f, used);
      SpaceFits(o, 15);
      assert Possible(f, 15, o);
      CountedCost(f, used, o);
      SameCost(used, o, other);
    }
  }

  lemma UsedAreCounted(freq: seq<nat>, used: seq<nat>, k: nat)
    requires k <= |freq| && Counts(freq, used) && (forall s :: k <= s < |freq| ==> freq[s] == 0)
    requires forall i :: 0 <= i < |used| ==> used[i] < |freq|
    ensures Counts(freq[..k], used) && forall i :: 0 <= i < |used| ==> used[i] < k && freq[..k][used[i]] > 0
  {
    forall i | 0 <= i < |used|
      ensures used[i] < k && freq[..k][used[i]] > 0
    {
      assert used[i] in multiset(used);
    }
  }

  lemma CountedAreUsed(freq: seq<nat>, used: seq<nat>)
    requires Counts(freq, used)
    ensures forall s :: 0 <= s < |freq| && freq[s] > 0 ==> s in used
  {
    forall s | 0 <= s < |freq| && freq[s] > 0
      ensures s in used
    {
      assert s in multiset(used);
    }
  }

  // ----- How many bits a block takes

  /** Bits of the tokens that are not codes. */
  function ExtraBits(ts: seq<Token>): nat
    requires AllTokensValid(ts)
  {
    if ts == [] then 0
    else
      var t := ts[|ts| - 1];
      ExtraBits(ts[..|ts| - 1]) + if t.Match? then LengthExtra(t.lcode) + DistanceExtra(t.dcode) else 0
  }

  /** The literals and lengths, and the end code. */
  function LitLenUsed(ts: seq<Token>): seq<nat> {
    LitLenSymbols(ts) + [ENDCODE]
  }

  lemma {:induction false} TokensSize(ll: Lengths, d: Lengths, ts: seq<Token>)
    requires AllCodable(ll, d, ts)
    ensures AllTokensValid(ts) && AllHaveCodes(LitLenSymbols(ts), ll) && AllHaveCodes(DistanceSymbols(ts), d)
    ensures |TokensBits(ll, d, ts)| == SymbolCost(LitLenSymbols(ts), ll) + SymbolCost(DistanceSymbols(ts), d) + ExtraBits(ts)
    decreases |ts|
  {
    hide TokenBits, Codable, ValidToken, LengthExtra, DistanceExtra;
    if ts != [] {
      var init, t := ts[..|ts| - 1], ts[|ts| - 1];
      assert ts == init + [t];
      assert AllCodable(ll, d, init);
      TokensSize(ll, d, init);
      assert ValidToken(t) && Codable(ll, d, t);
      TokenSize(ll, d, t);
      TokensBitsAppend(ll, d, init, t);
      OneMoreCost(LitLenSymbols(init), LitLenSymbol(t), ll);
      assert LitLenSymbols(ts) == LitLenSymbols(init) + [LitLenSymbol(t)];
      if t.Match? {
        OneMoreCost(DistanceSymbols(init), t.dcode, d);
      } else {
        assert DistanceSymbols(init) + [] == DistanceSymbols(init);
      }
    }
  }

  lemma TokenSize(ll: Lengths, d: Lengths, t: Token)
    requires ValidToken(t) && Codable(ll, d, t)
    ensures LitLenSymbol(t) < |ll| && ll[LitLenSymbol(t)] > 0
    ensures t.Match? ==> t.lcode < NUMLENGTHCODES && t.dcode < NUMDISTANCECODES && t.dcode < |d| && d[t.dcode] > 0
    ensures |TokenBits(ll, d, t)| ==
      ll[LitLenSymbol(t)] + if t.Match? then d[t.dcode] + LengthExtra(t.lcode) + DistanceExtra(t.dcode) else 0
  {
    hide LengthExtra, DistanceExtra, LsbBits, CodeBits;
  }

  lemma OneMoreCost(used: seq<nat>, s: nat, lens: Lengths)
    requires AllHaveCodes(used, lens) && s < |lens| && lens[s] > 0
    ensures AllHaveCodes(used + [s], lens) && SymbolCost(used + [s], lens) == SymbolCost(used, lens) + lens[s]
  {
    assert (used + [s])[..|used|] == used;
  }

  lemma BlockSize(ll: Lengths, d: Lengths, ts: seq<Token>)
    requires ValidHuffmanBlock(ll, d, ts)
    ensures AllTokensValid(ts) && AllHaveCodes(LitLenUsed(ts), ll) && AllHaveCodes(DistanceSymbols(ts), d)
    ensures |HuffmanBits(ll, d, ts)| == SymbolCost(LitLenUsed(ts), ll) + SymbolCost(DistanceSymbols(ts), d) + ExtraBits(ts)
  {
    hide TokensBits, SymbolCost, AllHaveCodes, AllCodable, LitLenSymbols, DistanceSymbols, AllTokensValid;
    TokensSize(ll, d, ts);
    OneMoreCost(LitLenSymbols(ts), ENDCODE, ll);
  }

  /** No other trees that a header can give write the tokens and the end code in fewer
      bits. */
  ghost predicate CheapestTrees(ll: Lengths, d: Lengths, ts: seq<Token>)
    requires ValidHuffmanBlock(ll, d, ts)
  {
    forall ll': Lengths, d': Lengths ::
      |ll'| == |ll| && |d'| == |d| && Kraft(ll') <= Pow2(LONGEST) && Kraft(d') <= Pow2(LONGEST) && ValidHuffmanBlock(ll', d', ts) ==>
      |HuffmanBits(ll, d, ts)| <= |HuffmanBits(ll', d', ts)|
  }

  lemma CheapestForBoth(ll: Lengths, d: Lengths, ts: seq<Token>)
    requires ValidHuffmanBlock(ll, d, ts) && CheapestFor(LitLenUsed(ts), ll) && CheapestFor(DistanceSymbols(ts), d)
    ensures CheapestTrees(ll, d, ts)
  {
    hide ValidHuffmanBlock, HuffmanBits, SymbolCost, AllHaveCodes, Kraft, LitLenUsed, DistanceSymbols, ExtraBits, AllTokensValid;
    BlockSize(ll, d, ts);
    forall ll': Lengths, d': Lengths |
      |ll'| == |ll| && |d'| == |d| && Kraft(ll') <= Pow2(LONGEST) && Kraft(d') <= Pow2(LONGEST) && ValidHuffmanBlock(ll', d', ts)
      ensures |HuffmanBits(ll, d, ts)| <= |HuffmanBits(ll', d', ts)|
    {
      BlockSize(ll', d', ts);
    }
  }

  /** The counts are those of all the symbols that a block of these tokens uses. */
  lemma CountsOfBlock(ts: seq<Token>, fll: seq<nat>)
    requires AllTokensValid(ts) && |fll| == 286 && fll[ENDCODE] == 1
    requires forall s :: 0 <= s < 286 && s != ENDCODE ==> fll[s] == multiset(LitLenSymbols(ts))[s]
    ensures Counts(fll, LitLenUsed(ts)) && forall i :: 0 <= i < |LitLenUsed(ts)| ==> LitLenUsed(ts)[i] < 286
  {
    var v := LitLenSymbols(ts);
    forall i | 0 <= i < |v|
      ensures v[i] < 286 && v[i] != ENDCODE
    {
      assert ValidToken(ts[i]);
    }
    assert ENDCODE !in multiset(v);
  }

  lemma {:induction false} DistancesBelow(ts: seq<Token>)
    requires AllTokensValid(ts)
    ensures forall i :: 0 <= i < |DistanceSymbols(ts)| ==> DistanceSymbols(ts)[i] < 30
    decreases |ts|
  {
    if ts != [] {
      assert AllTokensValid(ts[..|ts| - 1]);
      DistancesBelow(ts[..|ts| - 1]);
      assert ValidToken(ts[|ts| - 1]);
    }
  }

  method MakeBlockTrees(values: seq<nat>, ghost ts: seq<Token>) returns (treeLL: HuffmanTree, treeD: HuffmanTree)
    requires AllTokensValid(ts) && values == AllSymbols(ts)
    ensures fresh(treeLL) && fresh(treeD) && treeLL.Ready() && treeD.Ready()
    ensures 257 <= treeLL.numcodes <= 286 && 2 <= treeD.numcodes <= 30
    ensures Complete(treeLL.lengths) && Complete(treeD.lengths) && treeLL.lengths[ENDCODE] > 0
    ensures AllCodable(Pad(treeLL.lengths, 288), Pad(treeD.lengths, 32), ts)
    ensures CheapestFor(LitLenUsed(ts), Pad(treeLL.lengths, 288)) && CheapestFor(DistanceSymbols(ts), Pad(treeD.lengths, 32))
  {
    hide CheapestFor, Cheapest, LitLenUsed, Pad, Complete, LeavesOf, CodesOk, AllCodable, AllSymbols, AllTokensValid, LitLenSymbols, DistanceSymbols, Counts;
    var fll, fd := CountSymbols(values, ts);
    treeLL := new HuffmanTree();
    treeD := new HuffmanTree();
    Pow2Values();
    var error := MakeFromFrequencies(treeLL, fll, 257, 15);
    error := MakeFromFrequencies(treeD, fd, 2, 15);
    ghost var kll, kd := Trimmed(fll, 257, 286), Trimmed(fd, 2, 30);
    assert fll[..kll][ENDCODE] == 1;
    UsedIsCodable(ts, fll, fd, kll, kd, treeLL.lengths, treeD.lengths);
    CountsOfBlock(ts, fll);
    CountsAreCheapest(fll, LitLenUsed(ts), kll, treeLL.lengths, 288);
    DistancesBelow(ts);
    CountsAreCheapest(fd, DistanceSymbols(ts), kd, treeD.lengths, 32);
  }
}
