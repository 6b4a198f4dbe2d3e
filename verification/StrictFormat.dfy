/** Which blocks of the program are those of RFC 1951, and that they have the same bits and
    the same meaning. */
module StrictFormat {
  import opened Bits
  import opened CanonicalCode
  import opened DeflateFormat
  import opened DeflateBits
  import opened Rfc1951

  // ----- Bits

  lemma FieldIs(v: nat, n: nat)
    ensures Field(v, n) == LsbBits(v, n)
  {
    hide Shr;
    forall i | 0 <= i < n
      ensures Field(v, n)[i] == LsbBits(v, n)[i]
    {
      ShrIsDiv(v, i);
    }
  }

  lemma CodeFieldIs(v: nat, n: nat)
    ensures CodeField(v, n) == MsbBits(v, n)
  {
    hide Shr;
    forall i | 0 <= i < n
      ensures CodeField(v, n)[i] == MsbBits(v, n)[i]
    {
      ShrIsDiv(v, n - 1 - i);
    }
  }

  lemma {:induction false} DataBitsAre(data: seq<byte>)
    ensures DataBits(data) == BytesBits(data)
  {
    hide LsbBits;
    if data == [] {
      assert BytesBits([]) == [];
    } else {
      DataBitsAre(data[1..]);
      assert [data[0]] + data[1..] == data;
      BytesBitsConcat([data[0]], data[1..]);
      BytesBitsOne(data[0]);
      FieldIs(data[0], 8);
    }
  }

  // ----- Codes

  /** What shorter codes take of the codes of length l. */
  function Shorter(lens: Lengths, l: nat, k: nat): nat
    requires k <= |lens|
  {
    if k == 0 then 0 else Shorter(lens, l, k - 1) + if 0 < lens[k - 1] < l then Pow2(l - lens[k - 1]) else 0
  }

  lemma {:induction false} ShorterStep(lens: Lengths, l: nat, k: nat)
    requires k <= |lens| && l >= 2
    ensures Shorter(lens, l, k) == 2 * (Shorter(lens, l - 1, k) + Count(lens, l - 1, k))
  {
    if k > 0 {
      ShorterStep(lens, l, k - 1);
      assert Pow2(1) == 2 * Pow2(0) == 2;
    }
  }

  lemma {:induction false} NoneShorter(lens: Lengths, l: nat, k: nat)
    requires k <= |lens| && l <= 1
    ensures Shorter(lens, l, k) == 0
  {
    if k > 0 {
      NoneShorter(lens, l, k - 1);
    }
  }

  lemma {:induction false} ShorterIsNext(lens: Lengths, l: nat)
    ensures Shorter(lens, l, |lens|) == NextCode(lens, l)
  {
    if l <= 1 {
      NoneShorter(lens, l, |lens|);
    } else {
      ShorterIsNext(lens, l - 1);
      ShorterStep(lens, l, |lens|);
    }
  }

  lemma {:induction false} TakenIs(lens: Lengths, l: nat, n: nat, k: nat)
    requires k <= |lens| && n <= |lens| && l > 0
    ensures Taken(lens, l, n, k) == Shorter(lens, l, k) + Count(lens, l, if k < n then k else n)
  {
    if k > 0 {
      TakenIs(lens, l, n, k - 1);
      assert Pow2(0) == 1;
    }
  }

  lemma CodeOfIs(lens: Lengths, n: nat)
    requires n < |lens|
    ensures CodeOf(lens, n) == CodeBits(lens, n)
  {
    hide Taken, NextCode, Count, MsbBits;
    if lens[n] > 0 {
      TakenIs(lens, lens[n], n, |lens|);
      ShorterIsNext(lens, lens[n]);
      CodeFieldIs(Code(lens, n), lens[n]);
    }
  }

  /** Both ways of saying that a code comes next. */
  lemma ComesNextIs(lens: Lengths, n: nat, b: seq<bit>)
    requires |b| == LONGEST
    ensures ComesNext(lens, n, b) <==> Matches(lens, n, b, 0)
  {
    hide CodeOf, CodeBits;
    if n < |lens| {
      CodeOfIs(lens, n);
      assert Slice(b, 0, lens[n]) == b[..lens[n]];
    }
  }

  lemma FullTreeExactly(lens: Lengths)
    requires |lens| <= 288
    ensures FullTree(lens) <==> Complete(lens)
  {
    hide Matches, ComesNext, Kraft;
    if Complete(lens) {
      forall b: seq<bit> | |b| == LONGEST
        ensures OneCode(lens, b)
      {
        var n := SomeMatch(lens, b, 0);
        OneMatch(lens, b, n);
      }
    } else if Kraft(lens) < Pow2(LONGEST) {
      UnderSubscribed(lens);
      NoCode(lens, Ones(LONGEST));
    } else {
      var s, m := OverSubscribed(lens);
      ZerosMatch(lens, s);
      ZerosMatch(lens, m);
      assert !OneCode(lens, Zeros(LONGEST));
    }
  }

  lemma OneMatch(lens: Lengths, b: seq<bit>, n: nat)
    requires Complete(lens) && |b| == LONGEST && Matches(lens, n, b, 0)
    ensures OneCode(lens, b)
  {
    hide Matches, ComesNext;
    ComesNextIs(lens, n, b);
    forall m: nat | ComesNext(lens, m, b)
      ensures m == n
    {
      ComesNextIs(lens, m, b);
      PrefixFree(lens, b, 0, m, n);
    }
  }

  lemma NoCode(lens: Lengths, b: seq<bit>)
    requires Unmatched(lens, b)
    ensures |b| == LONGEST && !OneCode(lens, b)
  {
    hide Slice, CodeBits, CodeOf;
    forall n: nat
      ensures !ComesNext(lens, n, b)
    {
      ComesNextIs(lens, n, b);
    }
  }

  lemma ZerosMatch(lens: Lengths, n: nat)
    requires n < |lens| && lens[n] > 0 && CodeBits(lens, n) == Zeros(lens[n])
    ensures |Zeros(LONGEST)| == LONGEST && ComesNext(lens, n, Zeros(LONGEST))
  {
    hide CodeBits, CodeOf;
    assert Slice(Zeros(LONGEST), 0, lens[n]) == Zeros(lens[n]);
    ComesNextIs(lens, n, Zeros(LONGEST));
  }

  // ----- Trees with a single code

  lemma {:induction false} CountOfAlone(lens: Lengths, n: nat, k: nat)
    requires Alone(lens, n) && k <= |lens|
    ensures Count(lens, 0, k) == if n < k then k - 1 else k
    ensures WidthSum(lens, LONGEST, k) == if n < k then Width(lens[n]) else 0
  {
    if k > 0 {
      CountOfAlone(lens, n, k - 1);
    }
  }

  lemma AloneIsValid(lens: Lengths, n: nat)
    requires Alone(lens, n)
    ensures ValidTree(lens) && !Complete(lens) && Kraft(lens) == Width(lens[n])
  {
    CountOfAlone(lens, n, |lens|);
    KraftIsSum(lens);
    Pow2Monotone(LONGEST - lens[n], LONGEST - 1);
    assert Pow2(LONGEST) == 2 * Pow2(LONGEST - 1);
  }

  lemma {:induction false} TwoPresent(lens: Lengths, n: nat, m: nat, k: nat)
    requires n < m < |lens| && lens[n] > 0 && lens[m] > 0 && k <= |lens|
    ensures Count(lens, 0, k) + (if m < k then 2 else if n < k then 1 else 0) <= k
  {
    if k > 0 {
      TwoPresent(lens, n, m, k - 1);
    }
  }

  /** An allowed tree with some code is full, or has just that one. */
  lemma FullOrAlone(lens: Lengths, n: nat)
    requires ValidTree(lens) && n < |lens| && lens[n] > 0
    ensures Complete(lens) <==> !Alone(lens, n)
  {
    hide Kraft;
    if Alone(lens, n) {
      AloneIsValid(lens, n);
    } else {
      var m :| 0 <= m < |lens| && m != n && lens[m] > 0;
      TwoPresent(lens, if n < m then n else m, if n < m then m else n, |lens|);
    }
  }

  lemma {:induction false} NoCodesPresent(lens: Lengths, k: nat)
    requires k <= |lens| && forall i :: 0 <= i < |lens| ==> lens[i] == 0
    ensures Count(lens, 0, k) == k
  {
    if k > 0 {
      NoCodesPresent(lens, k - 1);
    }
  }

  /** A single code of more than one bit. */
  predicate LoneLong(d: Lengths) {
    exists n :: 0 <= n < |d| && Alone(d, n) && d[n] > 1
  }

  lemma DistanceTreeExactly(d: Lengths)
    requires |d| <= 288
    ensures DistanceTree(d) <==> ValidTree(d) && !LoneLong(d)
  {
    hide Complete, ValidTree, FullTree, Alone;
    FullTreeExactly(d);
    CompleteIsValid(d);
    if forall i :: 0 <= i < |d| ==> d[i] == 0 {
      NoCodesPresent(d, |d|);
      NeverAlone(d);
      EmptyIsValid(d);
    } else {
      var n :| 0 <= n < |d| && d[n] > 0;
      if Alone(d, n) {
        AloneIsValid(d, n);
        OnlyOneAlone(d, n);
        assert LoneLong(d) <==> d[n] > 1;
        assert ShortAlone(d) <==> d[n] == 1;
      } else if ValidTree(d) {
        FullOrAlone(d, n);
        NoneAlone(d, n);
      } else {
        NoneAlone(d, n);
      }
    }
  }

  lemma CompleteIsValid(d: Lengths)
    ensures Complete(d) ==> ValidTree(d)
  {
  }

  lemma EmptyIsValid(d: Lengths)
    requires Count(d, 0, |d|) == |d|
    ensures ValidTree(d)
  {
  }

  lemma NeverAlone(d: Lengths)
    requires forall i :: 0 <= i < |d| ==> d[i] == 0
    ensures forall n :: !Alone(d, n)
  {
  }

  lemma OnlyOneAlone(d: Lengths, n: nat)
    requires Alone(d, n)
    ensures forall m :: Alone(d, m) ==> m == n
  {
  }

  lemma NoneAlone(d: Lengths, n: nat)
    requires n < |d| && d[n] > 0 && !Alone(d, n)
    ensures forall m :: !Alone(d, m)
  {
  }

  // ----- Tokens

  lemma LengthLowIs(c: nat)
    requires c < 29
    ensures LengthLow(c) == LengthBase(c) && LengthField(c) == LengthExtra(c)
  {
  }

  lemma LengthsAre(c: nat)
    requires c < 29
    ensures LengthLow(c) == LengthBase(c) && LengthField(c) == LengthExtra(c)
    ensures LENGTHTOP[c] + 1 == LengthBase(c) + Pow2(LengthExtra(c)) - (if c == 27 then 1 else 0)
  {
    LengthLowIs(c);
    Powers();
    hide Pow2, LengthLow, LengthField;
  }

  lemma DistanceLowIs(c: nat)
    requires c < 30
    ensures DistanceLow(c) == DistanceBase(c) && DistanceField(c) == DistanceExtra(c)
  {
  }

  lemma DistancesAre(c: nat)
    requires c < 30
    ensures DistanceLow(c) == DistanceBase(c) && DistanceField(c) == DistanceExtra(c)
    ensures DISTANCETOP[c] + 1 == DistanceBase(c) + Pow2(DistanceExtra(c))
  {
    DistanceLowIs(c);
    Powers();
    hide Pow2, DistanceLow, DistanceField;
  }

  lemma RfcTokenExactly(t: Token)
    ensures RfcToken(t) <==> ValidToken(t) && !OddLength(t)
  {
    hide Pow2, LengthBase, DistanceBase, LengthExtra, DistanceExtra;
    if t.Match? && t.lcode < 29 && t.dcode < 30 {
      LengthsAre(t.lcode);
      DistancesAre(t.dcode);
    }
  }

  lemma AllRfcExactly(ts: seq<Token>)
    ensures AllRfcTokens(ts) <==> (forall i :: 0 <= i < |ts| ==> ValidToken(ts[i])) && NoOddLength(ts)
  {
    hide RfcToken, ValidToken, OddLength;
    forall i | 0 <= i < |ts|
      ensures RfcToken(ts[i]) <==> ValidToken(ts[i]) && !OddLength(ts[i])
    {
      RfcTokenExactly(ts[i]);
    }
  }

  lemma TokenBitsAre(ll: Lengths, d: Lengths, t: Token)
    requires ValidToken(t) && Codable(ll, d, t)
    ensures HasCode(ll, d, t) && RfcTokenBits(ll, d, t) == TokenBits(ll, d, t)
  {
    hide LsbBits, CodeOf, CodeBits, Field, LengthExtra, DistanceExtra, LengthField, DistanceField;
    match t
    case Literal(b) =>
      CodeOfIs(ll, b);
    case Match(lcode, lextra, dcode, dextra) =>
      CodeOfIs(ll, 257 + lcode);
      CodeOfIs(d, dcode);
      LengthsAre(lcode);
      DistancesAre(dcode);
      FieldIs(lextra, LengthExtra(lcode));
      FieldIs(dextra, DistanceExtra(dcode));
      FourParts(CodeBits(ll, 257 + lcode), LsbBits(lextra, LengthExtra(lcode)), CodeBits(d, dcode), LsbBits(dextra, DistanceExtra(dcode)));
  }

  lemma FourParts(a: seq<bit>, b: seq<bit>, c: seq<bit>, d: seq<bit>)
    ensures a + b + c + d == a + b + (c + d)
  {
  }

  lemma {:induction false} TokensBitsAre(ll: Lengths, d: Lengths, ts: seq<Token>)
    requires ValidHuffmanBlock(ll, d, ts)
    ensures HasCodes(ll, d, ts) && RfcTokensBits(ll, d, ts) == HuffmanBits(ll, d, ts)
    decreases |ts|
  {
    hide RfcTokenBits, TokenBits, CodeOf, CodeBits, HasCode, Codable, ValidToken;
    assert HasCodes(ll, d, ts) by { AllHaveCodes(ll, d, ts); }
    if ts == [] {
      CodeOfIs(ll, 256);
    } else {
      assert AllCodable(ll, d, ts[1..]);
      TokensBitsAre(ll, d, ts[1..]);
      TokenBitsAre(ll, d, ts[0]);
    }
  }

  lemma AllHaveCodes(ll: Lengths, d: Lengths, ts: seq<Token>)
    requires AllCodable(ll, d, ts)
    ensures HasCodes(ll, d, ts)
  {
  }

  // ----- Trees without the zeros at their end

  lemma {:induction false} PadPresent(lens: Lengths, m: nat, n: nat)
    requires |lens| <= m && n <= m
    ensures Count(Pad(lens, m), 0, n) == if n <= |lens| then Count(lens, 0, n) else Count(lens, 0, |lens|) + n - |lens|
  {
    if n > 0 {
      PadPresent(lens, m, n - 1);
    }
  }

  lemma PadKeepsTree(lens: Lengths, m: nat)
    requires |lens| <= m
    ensures ValidTree(Pad(lens, m)) <==> ValidTree(lens)
    ensures Complete(Pad(lens, m)) <==> Complete(lens)
  {
    hide Kraft;
    PadPresent(lens, m, m);
    PadKeepsKraft(lens, m);
  }

  lemma PadKeepsAlone(lens: Lengths, m: nat, n: nat)
    requires |lens| <= m
    ensures Alone(Pad(lens, m), n) <==> Alone(lens, n)
  {
    if Alone(Pad(lens, m), n) {
      forall k | 0 <= k < |lens| && k != n
        ensures lens[k] == 0
      {
        assert Pad(lens, m)[k] == 0;
      }
    }
  }

  lemma PadKeepsLoneLong(lens: Lengths, m: nat)
    requires |lens| <= m
    ensures LoneLong(Pad(lens, m)) <==> LoneLong(lens)
  {
    hide Alone;
    forall n | 0 <= n < m
      ensures Alone(Pad(lens, m), n) <==> Alone(lens, n)
    {
      PadKeepsAlone(lens, m, n);
    }
    if n :| 0 <= n < m && Alone(Pad(lens, m), n) && Pad(lens, m)[n] > 1 {
      assert n < |lens|;
    }
    if n :| 0 <= n < |lens| && Alone(lens, n) && lens[n] > 1 {
      assert Pad(lens, m)[n] > 1;
    }
  }

  lemma PadKeepsCodable(ll: Lengths, d: Lengths, t: Token)
    requires |ll| <= 288 && |d| <= 32
    ensures Codable(Pad(ll, 288), Pad(d, 32), t) <==> Codable(ll, d, t)
    ensures ValidToken(t) && Codable(ll, d, t) ==> TokenBits(Pad(ll, 288), Pad(d, 32), t) == TokenBits(ll, d, t)
  {
    hide CodeBits, LsbBits, LengthExtra, DistanceExtra;
    if Codable(ll, d, t) {
      match t
      case Literal(b) =>
        PadKeepsCode(ll, 288, b);
      case Match(lcode, _, dcode, _) =>
        PadKeepsCode(ll, 288, 257 + lcode);
        PadKeepsCode(d, 32, dcode);
    }
  }

  lemma {:induction false} PadKeepsTokens(ll: Lengths, d: Lengths, ts: seq<Token>)
    requires |ll| <= 288 && |d| <= 32
    ensures AllCodable(Pad(ll, 288), Pad(d, 32), ts) <==> AllCodable(ll, d, ts)
    ensures AllCodable(ll, d, ts) ==> TokensBits(Pad(ll, 288), Pad(d, 32), ts) == TokensBits(ll, d, ts)
    decreases |ts|
  {
    hide Codable, ValidToken, TokenBits, Pad;
    if ts != [] {
      PadKeepsTokens(ll, d, ts[1..]);
      PadKeepsCodable(ll, d, ts[0]);
      FirstAndRest(ll, d, ts);
      FirstAndRest(Pad(ll, 288), Pad(d, 32), ts);
    }
  }

  lemma FirstAndRest(ll: Lengths, d: Lengths, ts: seq<Token>)
    requires ts != []
    ensures AllCodable(ll, d, ts) <==> ValidToken(ts[0]) && Codable(ll, d, ts[0]) && AllCodable(ll, d, ts[1..])
  {
    if AllCodable(ll, d, ts[1..]) && ValidToken(ts[0]) && Codable(ll, d, ts[0]) {
      forall i | 0 <= i < |ts|
        ensures ValidToken(ts[i]) && Codable(ll, d, ts[i])
      {
        assert i > 0 ==> ts[i] == ts[1..][i - 1];
      }
    }
  }

  lemma PadKeepsBlock(ll: Lengths, d: Lengths, ts: seq<Token>)
    requires |ll| <= 288 && |d| <= 32 && 256 < |ll|
    ensures ValidHuffmanBlock(Pad(ll, 288), Pad(d, 32), ts) <==> ValidHuffmanBlock(ll, d, ts)
    ensures ValidHuffmanBlock(ll, d, ts) ==> HuffmanBits(Pad(ll, 288), Pad(d, 32), ts) == HuffmanBits(ll, d, ts)
  {
    hide AllCodable, TokensBits, CodeBits;
    PadKeepsTokens(ll, d, ts);
    if ll[ENDCODE] > 0 {
      PadKeepsCode(ll, 288, ENDCODE);
    }
  }

  // ----- Headers

  lemma OrderIs(i: nat)
    requires i < 19
    ensures OrderAt(i) == CLCL_ORDER[i]
  {
  }

  lemma {:induction false} OrderBitsAre(cl: Lengths, n: nat)
    requires |cl| == 19 && n <= 19
    ensures OrderBits(cl, n) == ClBits(cl, n)
  {
    hide LsbBits, Field;
    if n > 0 {
      OrderBitsAre(cl, n - 1);
      OrderIs(n - 1);
      FieldIs(cl[CLCL_ORDER[n - 1]], 3);
    }
  }

  lemma RunIs(cl: Lengths, r: Run)
    requires |cl| == 19
    ensures RfcRun(r) <==> ValidRun(r)
    ensures RunHasCode(cl, r) <==> ValidRun(r) && cl[RunSymbol(r)] > 0
    ensures RunHasCode(cl, r) ==> RfcRunBits(cl, r) == RunBits(cl, r)
  {
    hide CodeOf, CodeBits, LsbBits, Field;
    if RunHasCode(cl, r) {
      CodeOfIs(cl, RunSymbol(r));
      FieldIs(RunExtra(r), RunExtraBits(r));
      if r.Len? {
        NoField(RunExtra(r));
      }
    }
  }

  lemma NoField(v: nat)
    ensures LsbBits(v, 0) == []
  {
  }

  lemma {:induction false} RunsAre(cl: Lengths, rs: seq<Run>)
    requires |cl| == 19
    ensures RunsHaveCodes(cl, rs) <==> RunsCodable(cl, rs)
    ensures RunsHaveCodes(cl, rs) ==> RfcRunsBits(cl, rs) == RunsBits(cl, rs)
    decreases |rs|
  {
    hide RunHasCode, RfcRunBits, RunBits;
    forall i | 0 <= i < |rs|
      ensures RunHasCode(cl, rs[i]) <==> ValidRun(rs[i]) && cl[RunSymbol(rs[i])] > 0
    {
      RunIs(cl, rs[i]);
    }
    if rs != [] && RunsHaveCodes(cl, rs) {
      RunsAre(cl, rs[1..]);
      RunIs(cl, rs[0]);
    }
  }

  lemma {:induction false} SpellIs(before: Lengths, rs: seq<Run>, lens: seq<nat>)
    requires forall i :: 0 <= i < |rs| ==> ValidRun(rs[i])
    ensures Spell(before, rs, lens) <==> RunsExpandable(before, rs) && ExpandRuns(before, rs) == lens
    decreases |rs|
  {
    if rs != [] {
      var r := rs[0];
      if r.Repeat? && before == [] {
      } else {
        SpellIs(ApplyRun(before, r), rs[1..], lens);
      }
    }
  }

  /** No more than the standard allows: length codes up to 285, some literal or length
      besides the end code, no single distance code of more than one bit, one spelling of
      length 258, and stored lengths that are repeated inverted. */
  ghost predicate Strict(b: Block)
    requires ValidBlock(b)
  {
    match b
    case Stored(_, _, _) => Checked(b)
    case Fixed(ts) => NoOddLength(ts)
    case Dynamic(h, ts) =>
      h.hlit <= 286 && !Alone(HeaderLL(h), ENDCODE) && !LoneLong(HeaderD(h)) && NoOddLength(ts)
  }

  lemma {:induction false} ConstantRuns(acc: Lengths, rs: seq<Run>, c: nat, v: nat)
    requires RunsExpandable(acc, rs) && c != 16 && v == (if c <= 15 then c else 0)
    requires forall i :: 0 <= i < |acc| ==> acc[i] == v
    requires forall i :: 0 <= i < |rs| ==> ValidRun(rs[i]) && RunSymbol(rs[i]) == c
    ensures forall i :: 0 <= i < |ExpandRuns(acc, rs)| ==> ExpandRuns(acc, rs)[i] == v
    decreases |rs|
  {
    if rs != [] {
      ConstantRuns(ApplyRun(acc, rs[0]), rs[1..], c, v);
    }
  }

  /** With one code for the code lengths, all lengths would be the same. */
  lemma OneRunCode(h: Header) returns (v: nat)
    requires ValidHeader(h) && !Complete(h.cl)
    ensures v <= LONGEST && forall i :: 0 <= i < 288 ==> HeaderLL(h)[i] == if i < h.hlit then v else 0
  {
    hide Kraft, HeaderD;
    var rs := h.runs;
    assert rs != [];
    var c := RunSymbol(rs[0]);
    FullOrAlone(h.cl, c);
    assert c != 16;
    v := if c <= 15 then c else 0;
    ConstantRuns([], rs, c, v);
  }

  lemma {:induction false} ConstantWidth(lens: Lengths, m: nat, v: nat, n: nat)
    requires n <= |lens| && m <= |lens| && 1 <= v <= LONGEST
    requires forall i :: 0 <= i < |lens| ==> lens[i] == if i < m then v else 0
    ensures WidthSum(lens, LONGEST, n) == Times(if n < m then n else m, Width(v))
  {
    hide Times;
    TimesZero(Width(v));
    if n > 0 {
      ConstantWidth(lens, m, v, n - 1);
      if n <= m {
        TimesNext(n - 1, Width(v));
      }
    }
  }

  /** Between 257 and 288 codes of the same length fill no tree. */
  lemma NoFullConstant(m: nat, v: nat)
    requires 257 <= m <= 288 && 1 <= v <= LONGEST
    ensures Times(m, Width(v)) != Pow2(LONGEST)
  {
    hide Times;
    Powers();
    assert Pow2(15) == 4 * Pow2(13);
    if v <= 8 {
      Pow2Monotone(7, LONGEST - v);
      TimesMonotone(257, m, Width(v));
      TimesIs(257, Width(v));
    } else {
      Pow2Monotone(LONGEST - v, 6);
      TimesMonotone(m, 288, Width(v));
      TimesIs(288, Width(v));
    }
  }

  /** So the code for the code lengths is always full. */
  lemma RunCodeIsFull(h: Header)
    requires ValidHeader(h)
    ensures Complete(h.cl)
  {
    hide Kraft, WidthSum, RunsExpandable, ExpandRuns, RunsCodable, HeaderLL, HeaderD, Times;
    if !Complete(h.cl) {
      var v := OneRunCode(h);
      var ll := HeaderLL(h);
      assert ll[0] == v == ll[ENDCODE];
      FullOrAlone(ll, ENDCODE);
      ConstantWidth(ll, h.hlit, v, 288);
      KraftIsSum(ll);
      NoFullConstant(h.hlit, v);
    }
  }

  lemma RunCodeSize(h: Header)
    ensures RunsCodable(h.cl, h.runs) ==> |h.cl| == 19
  {
  }

  lemma HeaderHasEnd(h: Header)
    requires ValidHeader(h)
    ensures HeaderLL(h)[ENDCODE] > 0
  {
  }

  lemma FixedHasCodes(ts: seq<Token>)
    requires forall i :: 0 <= i < |ts| ==> ValidToken(ts[i])
    ensures ValidBlock(Fixed(ts))
  {
  }

  lemma FullTreesAreStrict(h: Header, ts: seq<Token>)
    requires ValidBlock(Dynamic(h, ts)) && h.hlit <= 286 && Complete(HeaderLL(h)) && Complete(HeaderD(h)) && NoOddLength(ts)
    ensures Strict(Dynamic(h, ts))
  {
    hide Complete, ExpandRuns, RunsExpandable, RunsCodable, HeaderLL, HeaderD, Alone, LoneLong, FullTree;
    FullOrAlone(HeaderLL(h), ENDCODE);
    FullTreeExactly(HeaderD(h));
    DistanceTreeExactly(HeaderD(h));
  }

  lemma ZeroFromAre(h: Header)
    requires |h.cl| == 19
    ensures (forall i :: h.hclen <= i < 19 ==> h.cl[OrderAt(i)] == 0) <==> forall i :: h.hclen <= i < 19 ==> h.cl[CLCL_ORDER[i]] == 0
  {
    forall i | 0 <= i < 19
      ensures OrderAt(i) == CLCL_ORDER[i]
    {
      OrderIs(i);
    }
  }

  lemma HeaderBitsAre(h: Header)
    requires ValidHeader(h)
    ensures RunsHaveCodes(h.cl, h.runs) && RfcHeaderBits(h) == HeaderBits(h)
  {
    hide Field, LsbBits, OrderBits, ClBits, RfcRunsBits, RunsBits, RunsHaveCodes, RunsExpandable, ExpandRuns, ValidTree, HeaderLL, HeaderD;
    RunCodeSize(h);
    RunsAre(h.cl, h.runs);
    FieldIs(h.hlit - 257, 5);
    FieldIs(h.hdist - 1, 5);
    FieldIs(h.hclen - 4, 4);
    OrderBitsAre(h.cl, h.hclen);
  }

  /** The lengths that a header spells, split between the alphabets. */
  lemma SplitLengths(h: Header, lens: Lengths, ll: Lengths, d: Lengths)
    requires |lens| == h.hlit + h.hdist && |ll| == h.hlit && |d| == h.hdist
    ensures lens == ll + d <==> lens[..h.hlit] == ll && lens[h.hlit..] == d
  {
    assert lens == lens[..h.hlit] + lens[h.hlit..];
    assert (ll + d)[..h.hlit] == ll && (ll + d)[h.hlit..] == d;
  }

  lemma RunsAreValid(h: Header)
    requires RunsCodable(h.cl, h.runs)
    ensures forall i :: 0 <= i < |h.runs| ==> ValidRun(h.runs[i])
  {
  }

  lemma HeaderForth(h: Header, ll: Lengths, d: Lengths)
    requires RfcHeader(h, ll, d)
    ensures ValidHeader(h) && HeaderLL(h) == Pad(ll, 288) && HeaderD(h) == Pad(d, 32)
    ensures h.hlit <= 286 && !Alone(HeaderLL(h), ENDCODE) && !LoneLong(HeaderD(h))
  {
    hide FullTree, DistanceTree, Alone, LoneLong, ExpandRuns, RunsExpandable, RunsCodable, RunsHaveCodes, Spell, ValidTree, Complete, Pad;
    RunsAre(h.cl, h.runs);
    RunsAreValid(h);
    SpellIs([], h.runs, ll + d);
    SplitLengths(h, ll + d, ll, d);
    ZeroFromAre(h);
    FullTreeExactly(h.cl);
    CompleteIsValid(h.cl);
    FullTreeExactly(ll);
    CompleteIsValid(ll);
    PadKeepsTree(ll, 288);
    DistanceTreeExactly(d);
    PadKeepsTree(d, 32);
    PadKeepsLoneLong(d, 32);
    PaddedEnd(ll);
    FullOrAlone(Pad(ll, 288), ENDCODE);
  }

  lemma PaddedEnd(ll: Lengths)
    requires 256 < |ll| <= 288
    ensures |Pad(ll, 288)| == 288 && Pad(ll, 288)[ENDCODE] == ll[256]
  {
  }

  lemma HeaderBack(h: Header) returns (ll: Lengths, d: Lengths)
    requires ValidHeader(h) && h.hlit <= 286 && !Alone(HeaderLL(h), ENDCODE) && !LoneLong(HeaderD(h))
    ensures RfcHeader(h, ll, d) && HeaderLL(h) == Pad(ll, 288) && HeaderD(h) == Pad(d, 32)
  {
    hide FullTree, DistanceTree, Alone, LoneLong, ExpandRuns, RunsExpandable, RunsCodable, RunsHaveCodes, Spell, ValidTree, Complete, Pad;
    ll, d := ExpandRuns([], h.runs)[..h.hlit], ExpandRuns([], h.runs)[h.hlit..];
    RunCodeSize(h);
    RunsAre(h.cl, h.runs);
    RunsAreValid(h);
    SpellIs([], h.runs, ll + d);
    SplitLengths(h, ExpandRuns([], h.runs), ll, d);
    ZeroFromAre(h);
    RunCodeIsFull(h);
    FullTreeExactly(h.cl);
    PaddedEnd(ll);
    HeaderHasEnd(h);
    FullOrAlone(HeaderLL(h), ENDCODE);
    PadKeepsTree(ll, 288);
    FullTreeExactly(ll);
    PadKeepsTree(d, 32);
    PadKeepsLoneLong(d, 32);
    DistanceTreeExactly(d);
  }

  // ----- Blocks and streams

  lemma FixedTreesAre()
    ensures RfcFixedLL() == FixedLL() && RfcFixedD() == FixedD()
  {
  }

  lemma StoredExactly(b: Block, pos: nat, bits: seq<bit>)
    requires b.Stored?
    ensures RfcBody(b, pos, bits) <==> ValidBlock(b) && Strict(b) && bits == BodyBits(b, pos)
  {
    hide Field, LsbBits, DataBits, BytesBits;
    FieldIs(b.fill, PadTo8(pos));
    FieldIs(|b.data|, 16);
    FieldIs(b.check, 16);
    DataBitsAre(b.data);
  }

  lemma FixedExactly(b: Block, pos: nat, bits: seq<bit>)
    requires b.Fixed?
    ensures RfcBody(b, pos, bits) <==> ValidBlock(b) && Strict(b) && bits == BodyBits(b, pos)
  {
    hide RfcToken, ValidToken, OddLength, HasCode, Codable, FixedLL, FixedD, RfcFixedLL, RfcFixedD, RfcTokensBits, HuffmanBits;
    FixedTreesAre();
    AllRfcExactly(b.ts);
    if forall i :: 0 <= i < |b.ts| ==> ValidToken(b.ts[i]) {
      FixedHasCodes(b.ts);
      TokensBitsAre(FixedLL(), FixedD(), b.ts);
    }
  }

  lemma CodableIs(ll: Lengths, d: Lengths, ts: seq<Token>)
    requires forall i :: 0 <= i < |ts| ==> ValidToken(ts[i])
    ensures HasCodes(ll, d, ts) <==> AllCodable(ll, d, ts)
  {
  }

  lemma DynamicForth(h: Header, ts: seq<Token>, ll: Lengths, d: Lengths, bits: seq<bit>)
    requires RfcDynamic(h, ts, ll, d, bits)
    ensures ValidBlock(Dynamic(h, ts)) && Strict(Dynamic(h, ts)) && bits == HeaderBits(h) + HuffmanBits(HeaderLL(h), HeaderD(h), ts)
  {
    hide FullTree, DistanceTree, Alone, LoneLong, ExpandRuns, RunsExpandable, RunsCodable, RunsHaveCodes, Spell, ValidTree, Complete, Pad,
         HeaderLL, HeaderD, RfcToken, ValidToken, OddLength, HasCodes, AllCodable, RfcTokensBits, HuffmanBits, RfcHeaderBits, HeaderBits, ValidHeader;
    HeaderForth(h, ll, d);
    HeaderBitsAre(h);
    AllRfcExactly(ts);
    CodableIs(ll, d, ts);
    TokensBitsAre(ll, d, ts);
    PadKeepsBlock(ll, d, ts);
  }

  lemma DynamicBack(h: Header, ts: seq<Token>) returns (ll: Lengths, d: Lengths)
    requires ValidBlock(Dynamic(h, ts)) && Strict(Dynamic(h, ts))
    ensures RfcDynamic(h, ts, ll, d, HeaderBits(h) + HuffmanBits(HeaderLL(h), HeaderD(h), ts))
  {
    hide FullTree, DistanceTree, Alone, LoneLong, ExpandRuns, RunsExpandable, RunsCodable, RunsHaveCodes, Spell, ValidTree, Complete, Pad,
         HeaderLL, HeaderD, RfcToken, ValidToken, OddLength, HasCodes, RfcTokensBits, HuffmanBits, RfcHeaderBits, HeaderBits, ValidHeader;
    ll, d := HeaderBack(h);
    HeaderBitsAre(h);
    AllRfcExactly(ts);
    PadKeepsBlock(ll, d, ts);
    CodableIs(ll, d, ts);
    TokensBitsAre(ll, d, ts);
  }

  /** The blocks of the standard are those of the program that are strict, and have the
      same bits. */
  lemma BlockExactly(b: Block, pos: nat, bits: seq<bit>)
    ensures RfcBody(b, pos, bits) <==> ValidBlock(b) && Strict(b) && bits == BodyBits(b, pos)
  {
    match b
    case Stored(_, _, _) =>
      StoredExactly(b, pos, bits);
    case Fixed(_) =>
      FixedExactly(b, pos, bits);
    case Dynamic(h, ts) =>
      DynamicExactly(h, ts, pos, bits);
  }

  lemma DynamicExactly(h: Header, ts: seq<Token>, pos: nat, bits: seq<bit>)
    ensures
      var b := Dynamic(h, ts);
      RfcBody(b, pos, bits) <==> ValidBlock(b) && Strict(b) && bits == BodyBits(b, pos)
  {
    hide ValidHeader, ValidHuffmanBlock, Strict, HeaderBits, HuffmanBits, HeaderLL, HeaderD, RfcDynamic;
    var b := Dynamic(h, ts);
    if RfcBody(b, pos, bits) {
      var ll: Lengths, d: Lengths :| RfcDynamic(h, ts, ll, d, bits);
      DynamicForth(h, ts, ll, d, bits);
    }
    if ValidBlock(b) && Strict(b) && bits == BodyBits(b, pos) {
      var ll, d := DynamicBack(h, ts);
    }
  }

  ghost predicate AllStrict(bs: seq<Block>)
    requires ValidStream(bs)
  {
    forall i :: 0 <= i < |bs| ==> Strict(bs[i])
  }

  lemma HeadIs(b: Block, last: bool)
    ensures Field(if last then 1 else 0, 1) + Field(RfcType(b), 2) == [if last then 1 else 0] + TypeBits(b)
  {
    assert Pow2(0) == 1 && Pow2(1) == 2;
  }

  /** A stream of the standard is a stream of the program with strict blocks, and has the
      same bits. */
  lemma {:induction false} StreamExactly(bs: seq<Block>, pos: nat, bits: seq<bit>)
    ensures RfcBits(bs, pos, bits) <==> ValidStream(bs) && AllStrict(bs) && bits == StreamBits(bs, pos)
    decreases |bs|
  {
    hide RfcBody, ValidBlock, Strict, BodyBits, Field, TypeBits;
    if bs != [] {
      HeadIs(bs[0], |bs| == 1);
      if RfcBits(bs, pos, bits) {
        var body: seq<bit>, rest: seq<bit> :|
          FirstBlock(bs, pos, bits, body, rest)
          && if |bs| == 1 then rest == [] else RfcBits(bs[1..], pos + 3 + |body|, rest);
        BlockExactly(bs[0], pos + 3, body);
        if |bs| > 1 {
          StreamExactly(bs[1..], pos + 3 + |body|, rest);
        }
        StreamForth(bs, pos, body, rest);
      }
      if ValidStream(bs) && AllStrict(bs) && bits == StreamBits(bs, pos) {
        StreamBack(bs, pos);
      }
    }
  }

  lemma StreamForth(bs: seq<Block>, pos: nat, body: seq<bit>, rest: seq<bit>)
    requires bs != [] && ValidBlock(bs[0]) && Strict(bs[0]) && body == BodyBits(bs[0], pos + 3)
    requires if |bs| == 1 then rest == []
             else ValidStream(bs[1..]) && AllStrict(bs[1..]) && rest == StreamBits(bs[1..], pos + 3 + |body|)
    ensures ValidStream(bs) && AllStrict(bs)
    ensures StreamBits(bs, pos) == [if |bs| == 1 then 1 else 0] + TypeBits(bs[0]) + body + rest
  {
    hide ValidBlock, Strict, BodyBits, TypeBits;
    forall i | 0 <= i < |bs|
      ensures ValidBlock(bs[i]) && Strict(bs[i])
    {
      assert i > 0 ==> bs[i] == bs[1..][i - 1];
    }
    assert |BlockBits(bs[0], |bs| == 1, pos)| == 3 + |body|;
  }

  lemma {:induction false} StreamBack(bs: seq<Block>, pos: nat)
    requires ValidStream(bs) && AllStrict(bs)
    ensures RfcBits(bs, pos, StreamBits(bs, pos))
    decreases |bs|
  {
    hide RfcBody, ValidBlock, Strict, BodyBits, Field, TypeBits;
    var body := BodyBits(bs[0], pos + 3);
    HeadIs(bs[0], |bs| == 1);
    BlockExactly(bs[0], pos + 3, body);
    var rest: seq<bit> := [];
    if |bs| > 1 {
      rest := StreamBits(bs[1..], pos + 3 + |body|);
      StreamBack(bs[1..], pos + 3 + |body|);
    }
    StreamForth(bs, pos, body, rest);
    assert FirstBlock(bs, pos, StreamBits(bs, pos), body, rest);
  }

  // ----- Meaning

  lemma {:induction false} CopyBackRepeats(out: seq<byte>, distance: nat, length: nat)
    requires 1 <= distance <= |out|
    ensures Repeats(out, length, distance, CopyBack(out, distance, length))
    decreases length
  {
    if length > 0 {
      var next := out + [out[|out| - distance]];
      var r := CopyBack(next, distance, length - 1);
      CopyBackRepeats(next, distance, length - 1);
      assert r[..|out|] == next[..|out|] == out;
      assert r[|out|] == r[..|next|][|out|] == out[|out| - distance];
      assert r[|out| - distance] == r[..|out|][|out| - distance];
    }
  }

  lemma OneRepetition(out: seq<byte>, length: nat, distance: nat, r: seq<byte>, s: seq<byte>)
    requires Repeats(out, length, distance, r) && Repeats(out, length, distance, s)
    ensures r == s
  {
    var k := 0;
    while k < |r|
      invariant k <= |r| && r[..k] == s[..k]
    {
      if k < |out| {
        assert r[k] == r[..|out|][k] && s[k] == s[..|out|][k];
      } else {
        assert r[k - distance] == r[..k][k - distance] && s[k - distance] == s[..k][k - distance];
      }
      k := k + 1;
    }
    assert r[..k] == r && s[..k] == s;
  }

  lemma TokenMeansApply(out: seq<byte>, t: Token, r: seq<byte>)
    requires ValidToken(t)
    ensures TokenMeans(out, t, r) <==> Fits(out, t) && r == Apply(out, t)
  {
    hide CopyBack, Repeats, LengthBase, DistanceBase, Pow2, LengthLow, DistanceLow;
    if t.Match? {
      LengthsAre(t.lcode);
      DistancesAre(t.dcode);
      MatchMeans(out, Length(t), Distance(t), r);
    }
  }

  lemma MatchMeans(out: seq<byte>, length: nat, distance: nat, r: seq<byte>)
    requires distance > 0
    ensures Repeats(out, length, distance, r) <==> distance <= |out| && r == CopyBack(out, distance, length)
  {
    if 1 <= distance <= |out| {
      CopyBackRepeats(out, distance, length);
      if Repeats(out, length, distance, r) {
        OneRepetition(out, length, distance, r, CopyBack(out, distance, length));
      }
    }
  }

  lemma {:induction false} TokensMeanExpand(out: seq<byte>, ts: seq<Token>, v: seq<byte>)
    requires forall i :: 0 <= i < |ts| ==> ValidToken(ts[i])
    ensures TokensMean(out, ts, v) <==> Expandable(out, ts) && Expand(out, ts) == v
    decreases |ts|
  {
    hide TokenMeans, Fits, Apply, ValidToken;
    if ts != [] {
      if TokensMean(out, ts, v) {
        var mid :| TokenMeans(out, ts[0], mid) && TokensMean(mid, ts[1..], v);
        TokenMeansApply(out, ts[0], mid);
        TokensMeanExpand(mid, ts[1..], v);
      }
      if Expandable(out, ts) && Expand(out, ts) == v {
        var mid := Apply(out, ts[0]);
        TokenMeansApply(out, ts[0], mid);
        TokensMeanExpand(mid, ts[1..], v);
        assert TokenMeans(out, ts[0], mid) && TokensMean(mid, ts[1..], v);
      }
    }
  }

  lemma TokensOfBlock(b: Block)
    requires ValidBlock(b)
    ensures b.Fixed? ==> forall i :: 0 <= i < |b.ts| ==> ValidToken(b.ts[i])
    ensures b.Dynamic? ==> forall i :: 0 <= i < |b.ts| ==> ValidToken(b.ts[i])
  {
    hide ValidHeader, HeaderLL, HeaderD, FixedLL, FixedD, Codable, ValidToken;
  }

  lemma BlockMeansExpand(out: seq<byte>, b: Block, v: seq<byte>)
    requires ValidBlock(b)
    ensures BlockMeans(out, b, v) <==> BlockExpandable(out, b) && ExpandBlock(out, b) == v
  {
    hide ValidBlock, TokensMean, Expandable, Expand, ValidToken;
    TokensOfBlock(b);
    match b
    case Stored(_, _, _) =>
    case Fixed(ts) => TokensMeanExpand(out, ts, v);
    case Dynamic(_, ts) => TokensMeanExpand(out, ts, v);
  }

  /** What a stream means is what it expands to. */
  lemma {:induction false} StreamMeansExpand(out: seq<byte>, bs: seq<Block>, v: seq<byte>)
    requires forall i :: 0 <= i < |bs| ==> ValidBlock(bs[i])
    ensures StreamMeans(out, bs, v) <==> StreamExpandable(out, bs) && ExpandStream(out, bs) == v
    decreases |bs|
  {
    hide ValidBlock, BlockMeans, BlockExpandable, ExpandBlock;
    if bs != [] {
      if StreamMeans(out, bs, v) {
        var mid :| BlockMeans(out, bs[0], mid) && StreamMeans(mid, bs[1..], v);
        BlockMeansExpand(out, bs[0], mid);
        StreamMeansExpand(mid, bs[1..], v);
      }
      if StreamExpandable(out, bs) && ExpandStream(out, bs) == v {
        var mid := ExpandBlock(out, bs[0]);
        BlockMeansExpand(out, bs[0], mid);
        StreamMeansExpand(mid, bs[1..], v);
        assert BlockMeans(out, bs[0], mid) && StreamMeans(mid, bs[1..], v);
      }
    }
  }
}
