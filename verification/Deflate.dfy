/** The compressor. */
module Deflate {
  import opened Bits
  import opened CanonicalCode
  import opened DeflateFormat
  import opened DeflateBits
  import opened FormatDecodes
  import opened StrictFormat
  import opened BlockTrees
  import opened HuffmanTree
  import opened CodeLengths
  import opened SymbolLeaves
  import opened RunLength
  import opened BitWriter
  import opened HashChain
  import opened Lz77

  // ----- Trees of a dynamic block

  lemma RunsAreCodable(rs: seq<Run>, freq: seq<nat>, cl: Lengths)
    requires AllValid(rs) && |freq| == 19 && forall s :: 0 <= s < 19 ==> freq[s] == multiset(Keys(rs))[s]
    requires GoodLengths(freq, 7, cl)
    ensures RunsCodable(cl, rs)
  {
    hide Complete, LeavesOf;
    forall i | 0 <= i < |rs|
      ensures ValidRun(rs[i]) && cl[RunSymbol(rs[i])] > 0
    {
      var s := RunSymbol(rs[i]);
      assert Keys(rs)[i] == s;
      assert s in multiset(Keys(rs));
      assert freq[s] > 0;
    }
  }

  method MakeRunTree(e: seq<nat>, ghost rs: seq<Run>) returns (treeCL: HuffmanTree)
    requires AllValid(rs) && e == AllRunSymbols(rs)
    ensures fresh(treeCL) && treeCL.Ready()
    ensures |treeCL.lengths| == 19 && Complete(treeCL.lengths) && RunsCodable(treeCL.lengths, rs)
    ensures forall s :: 0 <= s < 19 ==> treeCL.lengths[s] <= 7
  {
    hide Complete, LeavesOf, CodesOk, RunsCodable, AllRunSymbols, Keys;
    var freq := CountRunSymbols(e, rs);
    treeCL := new HuffmanTree();
    assert Pow2(7) == 128 by { Pow2Values(); }
    var error := MakeFromFrequencies(treeCL, freq, 19, 7);
    assert freq[..19] == freq;
    RunsAreCodable(rs, freq, treeCL.lengths);
  }

  predicate ZeroFrom(cl: Lengths, n: nat)
    requires |cl| == 19
  {
    forall i :: n <= i < 19 ==> cl[CLCL_ORDER[i]] == 0
  }

  /** How many of the code length code lengths have to be written. */
  method TrimmedOrder(cl: Lengths) returns (n: nat)
    requires |cl| == 19
    ensures 4 <= n <= 19 && ZeroFrom(cl, n)
    ensures n == 4 || cl[CLCL_ORDER[n - 1]] > 0
  {
    n := 19;
    while n > 4 && cl[CLCL_ORDER[n - 1]] == 0
      invariant 4 <= n <= 19 && ZeroFrom(cl, n)
    {
      n := n - 1;
    }
  }

  /** The header describes these two trees. */
  ghost predicate Describes(h: Header, ll: Lengths, d: Lengths) {
    |ll| <= 288 && |d| <= 32 && ValidHeader(h) && HeaderLL(h) == Pad(ll, 288) && HeaderD(h) == Pad(d, 32)
  }

  lemma HeaderOfTrees(ll: Lengths, d: Lengths, cl: Lengths, rs: seq<Run>, hclen: nat)
    requires 257 <= |ll| <= 286 && 2 <= |d| <= 30 && 4 <= hclen <= 19 && |cl| == 19
    requires Complete(ll) && Complete(d) && Complete(cl) && ll[ENDCODE] > 0
    requires RunsCodable(cl, rs) && RunsExpandable([], rs) && ExpandRuns([], rs) == ll + d
    requires forall s :: 0 <= s < 19 ==> cl[s] <= 7
    requires ZeroFrom(cl, hclen)
    ensures Describes(Header(|ll|, |d|, hclen, cl, rs), ll, d) && Complete(Pad(ll, 288)) && Complete(Pad(d, 32))
  {
    hide Kraft, RunsExpandable, ExpandRuns, RunsCodable, NumPresent;
    PadKeepsKraft(ll, 288);
    PadKeepsKraft(d, 32);
    assert (ll + d)[..|ll|] == ll && (ll + d)[|ll|..] == d;
  }

  // ----- Writing

  /** The code of symbol s; `lens` are the lengths of the tree, possibly padded. */
  method WriteSymbol(writer: BitWriter, tree: HuffmanTree, s: nat, ghost lens: Lengths)
    requires writer.Valid() && CodesOk(tree.lengths, tree.codes)
    requires |tree.lengths| <= |lens| && lens == Pad(tree.lengths, |lens|) && s < |lens| && lens[s] > 0
    modifies writer
    ensures writer.Valid() && writer.bits == old(writer.bits) + CodeBits(lens, s)
    ensures writer.data[..writer.start] == old(writer.data[..writer.start])
  {
    hide CodeBits, Encodes;
    assert s < |tree.lengths|;
    CodeOkBits(tree.lengths, s, tree.codes[s]);
    PadKeepsCode(tree.lengths, |lens|, s);
    writer.WriteBitsReversed(tree.codes[s], tree.lengths[s]);
  }

  method WriteMatch(writer: BitWriter, treeD: HuffmanTree, lcode: nat, lextra: nat, dcode: nat, dextra: nat, ghost d: Lengths)
    requires writer.Valid() && CodesOk(treeD.lengths, treeD.codes)
    requires lcode < NUMLENGTHCODES && dcode < NUMDISTANCECODES && lextra < Pow2(LengthExtra(lcode)) && dextra < Pow2(DistanceExtra(dcode))
    requires |treeD.lengths| <= |d| && d == Pad(treeD.lengths, |d|) && dcode < |d| && d[dcode] > 0
    modifies writer
    ensures writer.Valid()
    ensures writer.bits ==
      old(writer.bits) + LsbBits(lextra, LengthExtra(lcode)) + CodeBits(d, dcode) + LsbBits(dextra, DistanceExtra(dcode))
    ensures writer.data[..writer.start] == old(writer.data[..writer.start])
  {
    hide Encodes, CodesOk, Pad, LengthExtra, DistanceExtra;
    OneBitMore(lextra, LengthExtra(lcode));
    OneBitMore(dextra, DistanceExtra(dcode));
    writer.WriteBits(lextra, LengthExtra(lcode));
    WriteSymbol(writer, treeD, dcode, d);
    writer.WriteBits(dextra, DistanceExtra(dcode));
  }

  lemma OneBitMore(v: nat, n: nat)
    requires v < Pow2(n)
    ensures n == 1 ==> v < 2
  {
  }

  lemma MatchBits(ll: Lengths, d: Lengths, t: Token, b: seq<bit>)
    requires t.Match? && ValidToken(t) && Codable(ll, d, t)
    ensures
      b + CodeBits(ll, LitLenSymbol(t)) + LsbBits(t.lextra, LengthExtra(t.lcode)) + CodeBits(d, t.dcode)
        + LsbBits(t.dextra, DistanceExtra(t.dcode))
      == b + TokenBits(ll, d, t)
  {
    hide CodeBits, LsbBits, LengthExtra, DistanceExtra;
    var w, x, y, z := CodeBits(ll, LitLenSymbol(t)), LsbBits(t.lextra, LengthExtra(t.lcode)), CodeBits(d, t.dcode),
      LsbBits(t.dextra, DistanceExtra(t.dcode));
    assert b + w + x + y + z == b + (w + x + (y + z));
  }

  lemma TokensBitsUpTo(ll: Lengths, d: Lengths, ts: seq<Token>, k: nat)
    requires AllCodable(ll, d, ts) && k < |ts|
    ensures AllCodable(ll, d, ts[..k]) && AllCodable(ll, d, ts[..k + 1])
    ensures ValidToken(ts[k]) && Codable(ll, d, ts[k])
    ensures TokensBits(ll, d, ts[..k + 1]) == TokensBits(ll, d, ts[..k]) + TokenBits(ll, d, ts[k])
  {
    assert ts[..k + 1] == ts[..k] + [ts[k]];
    TokensBitsAppend(ll, d, ts[..k], ts[k]);
  }

  lemma CodableMeans(ll: Lengths, d: Lengths, t: Token)
    requires Codable(ll, d, t)
    ensures LitLenSymbol(t) < |ll| && ll[LitLenSymbol(t)] > 0
    ensures t.Match? ==> t.dcode < |d| && d[t.dcode] > 0
    ensures t.Literal? && ValidToken(t) ==> TokenBits(ll, d, t) == CodeBits(ll, LitLenSymbol(t))
  {
  }

  lemma PrefixCodable(ll: Lengths, d: Lengths, ts: seq<Token>, k: nat)
    requires AllCodable(ll, d, ts) && k <= |ts|
    ensures AllCodable(ll, d, ts[..k])
  {
  }

  /** Writes the tokens of the encoder's vector. */
  method WriteLZ77Data(writer: BitWriter, values: seq<nat>, treeLL: HuffmanTree, treeD: HuffmanTree,
                       ghost ts: seq<Token>, ghost ll: Lengths, ghost d: Lengths)
    requires writer.Valid() && values == AllSymbols(ts) && AllCodable(ll, d, ts)
    requires CodesOk(treeLL.lengths, treeLL.codes) && |treeLL.lengths| <= |ll| && ll == Pad(treeLL.lengths, |ll|)
    requires CodesOk(treeD.lengths, treeD.codes) && |treeD.lengths| <= |d| && d == Pad(treeD.lengths, |d|)
    modifies writer
    ensures writer.Valid() && writer.bits == old(writer.bits) + TokensBits(ll, d, ts)
    ensures writer.data[..writer.start] == old(writer.data[..writer.start])
  {
    hide AllSymbols, AllCodable, TokensBits, CodesOk, Pad, Encodes, TokenBits, CodeBits, LsbBits, Codable, LengthExtra, DistanceExtra;
    ghost var before := writer.bits;
    ghost var k := 0;
    var i := 0;
    PrefixCodable(ll, d, ts, 0);
    AllCodableValid(ll, d, ts);
    NoTokens(ts, ll, d);
    while i != |values|
      invariant writer.Valid() && k <= |ts| && i == |AllSymbols(ts[..k])| <= |values|
      invariant AllCodable(ll, d, ts[..k]) && writer.bits == before + TokensBits(ll, d, ts[..k])
      invariant writer.data[..writer.start] == old(writer.data[..writer.start])
      decreases |values| - i
    {
      TokenAtFacts(ts, values, i, k);
      ghost var t := ts[k];
      TokensBitsUpTo(ll, d, ts, k);
      CodableMeans(ll, d, t);
      ghost var b := writer.bits;
      var val := values[i];
      WriteSymbol(writer, treeLL, val, ll);
      if val > 256 {
        WriteMatch(writer, treeD, val - FIRSTLENGTHCODE, values[i + 1], values[i + 2], values[i + 3], d);
        MatchBits(ll, d, t, b);
        i := i + 3;
      }
      assert writer.bits == b + TokenBits(ll, d, t);
      i := i + 1;
      k := k + 1;
    }
    AllTokensRead(ts, k);
    assert ts[..k] == ts;
  }

  lemma AllCodableValid(ll: Lengths, d: Lengths, ts: seq<Token>)
    requires AllCodable(ll, d, ts)
    ensures AllTokensValid(ts)
  {
  }

  lemma NoTokens(ts: seq<Token>, ll: Lengths, d: Lengths)
    requires AllCodable(ll, d, ts[..0])
    ensures AllSymbols(ts[..0]) == [] && TokensBits(ll, d, ts[..0]) == []
  {
  }

  lemma RunsBitsUpTo(cl: Lengths, rs: seq<Run>, k: nat)
    requires RunsCodable(cl, rs) && k < |rs|
    ensures RunsCodable(cl, rs[..k]) && RunsCodable(cl, rs[..k + 1])
    ensures ValidRun(rs[k]) && |cl| == 19 && cl[RunSymbol(rs[k])] > 0
    ensures RunsBits(cl, rs[..k + 1]) == RunsBits(cl, rs[..k]) + RunBits(cl, rs[k])
  {
    assert rs[..k + 1] == rs[..k] + [rs[k]];
    RunsBitsAppend(cl, rs[..k], rs[k]);
  }

  lemma RunBitsParts(cl: Lengths, r: Run, b: seq<bit>)
    requires ValidRun(r) && |cl| == 19
    ensures RunSymbol(r) == 16 ==> b + CodeBits(cl, 16) + LsbBits(RunExtra(r), 2) == b + RunBits(cl, r)
    ensures RunSymbol(r) == 17 ==> b + CodeBits(cl, 17) + LsbBits(RunExtra(r), 3) == b + RunBits(cl, r)
    ensures RunSymbol(r) == 18 ==> b + CodeBits(cl, 18) + LsbBits(RunExtra(r), 7) == b + RunBits(cl, r)
    ensures RunSymbol(r) < 16 ==> b + CodeBits(cl, RunSymbol(r)) == b + RunBits(cl, r)
  {
    hide CodeBits;
    if RunSymbol(r) < 16 {
      assert LsbBits(RunExtra(r), 0) == [];
    }
  }

  lemma NoRunBits(cl: Lengths, rs: seq<Run>)
    requires RunsCodable(cl, rs)
    ensures AllValid(rs) && RunsCodable(cl, rs[..0]) && RunsBits(cl, rs[..0]) == [] && AllRunSymbols(rs[..0]) == []
  {
  }

  /** Writes the run-length coded code lengths. */
  method WriteRuns(writer: BitWriter, e: seq<nat>, treeCL: HuffmanTree, ghost rs: seq<Run>)
    requires writer.Valid() && RunsCodable(treeCL.lengths, rs) && AllValid(rs) && e == AllRunSymbols(rs)
    requires CodesOk(treeCL.lengths, treeCL.codes)
    modifies writer
    ensures writer.Valid() && writer.bits == old(writer.bits) + RunsBits(treeCL.lengths, rs)
    ensures writer.data[..writer.start] == old(writer.data[..writer.start])
  {
    hide AllRunSymbols, RunsCodable, RunsBits, CodesOk, Encodes, RunBits, CodeBits, LsbBits, RunSymbol, RunExtra, ValidRun, Keys;
    ghost var before, cl := writer.bits, treeCL.lengths;
    ghost var k := 0;
    var i := 0;
    NoRunBits(cl, rs);
    assert Pad(cl, |cl|) == cl;
    while i != |e|
      invariant writer.Valid() && k <= |rs| && i == |AllRunSymbols(rs[..k])| <= |e|
      invariant RunsCodable(cl, rs[..k]) && writer.bits == before + RunsBits(cl, rs[..k])
      invariant writer.data[..writer.start] == old(writer.data[..writer.start])
      decreases |e| - i
    {
      RunAtFacts(rs, e, i, k);
      RunsBitsUpTo(cl, rs, k);
      ghost var b := writer.bits;
      RunBitsParts(cl, rs[k], b);
      var symbol := e[i];
      WriteSymbol(writer, treeCL, symbol, cl);
      if symbol == 16 {
        i := i + 1;
        writer.WriteBits(e[i], 2);
      } else if symbol == 17 {
        i := i + 1;
        writer.WriteBits(e[i], 3);
      } else if symbol == 18 {
        i := i + 1;
        writer.WriteBits(e[i], 7);
      }
      assert writer.bits == b + RunBits(cl, rs[k]);
      i := i + 1;
      k := k + 1;
    }
    AllRunsRead(rs, k);
    assert rs[..k] == rs;
  }

  method WriteCodeLengthLengths(writer: BitWriter, cl: Lengths, n: nat)
    requires writer.Valid() && |cl| == 19 && n <= 19
    modifies writer
    ensures writer.Valid() && writer.bits == old(writer.bits) + ClBits(cl, n)
    ensures writer.data[..writer.start] == old(writer.data[..writer.start])
  {
    hide LsbBits, Encodes, ClBits;
    ghost var before := writer.bits;
    assert ClBits(cl, 0) == [];
    for i := 0 to n
      invariant writer.Valid() && writer.bits == before + ClBits(cl, i)
      invariant writer.data[..writer.start] == old(writer.data[..writer.start])
    {
      ClBitsNext(before, cl, i);
      writer.WriteBits(cl[CLCL_ORDER[i]], 3);
    }
  }

  lemma ClBitsNext(before: seq<bit>, cl: Lengths, i: nat)
    requires |cl| == 19 && i < 19
    ensures |CLCL_ORDER| == 19 && CLCL_ORDER[i] < 19
    ensures before + ClBits(cl, i) + LsbBits(cl[CLCL_ORDER[i]], 3) == before + ClBits(cl, i + 1)
  {
    hide LsbBits;
  }

  /** The header of a dynamic block, behind its three header bits. */
  method WriteHeader(writer: BitWriter, hlit: nat, hdist: nat, hclen: nat, e: seq<nat>, treeCL: HuffmanTree, ghost rs: seq<Run>)
    requires writer.Valid() && AllValid(rs) && e == AllRunSymbols(rs) && CodesOk(treeCL.lengths, treeCL.codes)
    requires ValidHeader(Header(hlit, hdist, hclen, treeCL.lengths, rs))
    modifies writer
    ensures writer.Valid()
    ensures writer.bits == old(writer.bits) + HeaderBits(Header(hlit, hdist, hclen, treeCL.lengths, rs))
    ensures writer.data[..writer.start] == old(writer.data[..writer.start])
  {
    hide AllRunSymbols, RunsBits, CodesOk, Encodes, LsbBits, ClBits, RunsExpandable, ExpandRuns, HeaderLL, HeaderD, ValidTree;
    ghost var b, cl := writer.bits, treeCL.lengths;
    writer.WriteBits(hlit - 257, 5);
    writer.WriteBits(hdist - 1, 5);
    writer.WriteBits(hclen - 4, 4);
    WriteCodeLengthLengths(writer, treeCL.lengths, hclen);
    WriteRuns(writer, e, treeCL, rs);
    FivePieces(b, LsbBits(hlit - 257, 5), LsbBits(hdist - 1, 5), LsbBits(hclen - 4, 4), ClBits(cl, hclen), RunsBits(cl, rs));
  }

  lemma FivePieces(a: seq<bit>, b: seq<bit>, c: seq<bit>, d: seq<bit>, e: seq<bit>, f: seq<bit>)
    ensures a + b + c + d + e + f == a + (b + c + d + e + f)
  {
  }

  // ----- Blocks

  datatype CompressSettings = CompressSettings(
    btype: nat, useLz77: bool, windowsize: nat, minmatch: nat, nicematch: nat, lazymatching: bool)

  /** The block stands for data[start..end], behind data[..start]. */
  ghost predicate BlockFor(data: seq<byte>, start: nat, end: nat, b: Block) {
    && start <= end <= |data| && ValidBlock(b) && BlockExpandable(data[..start], b)
    && ExpandBlock(data[..start], b) == data[..end]
  }

  /** With other trees the tokens of a dynamic block would take no fewer bits. */
  ghost predicate Optimal(b: Block)
    requires ValidBlock(b)
  {
    b.Dynamic? ==> CheapestTrees(HeaderLL(b.header), HeaderD(b.header), b.ts)
  }

  /** The error the encoder reports for a window it cannot use. */
  function WindowError(settings: CompressSettings): nat {
    if !settings.useLz77 then 0
    else if settings.windowsize == 0 || settings.windowsize > 32768 then 60
    else if BitAnd(settings.windowsize, settings.windowsize - 1) != 0 then 90
    else 0
  }

  /** The window sizes are the powers of two from 1 to 32768. */
  lemma WindowErrorExactly(settings: CompressSettings)
    requires settings.useLz77
    ensures WindowError(settings) == 0 <==> exists k: nat :: k <= 15 && settings.windowsize == Pow2(k)
    ensures WindowError(settings) == 60 <==> settings.windowsize == 0 || settings.windowsize > 32768
    ensures WindowError(settings) == 0 || WindowError(settings) == 60 || WindowError(settings) == 90
  {
    var w := settings.windowsize;
    Powers();
    assert Pow2(15) == 32768 && Pow2(16) == 65536;
    if WindowError(settings) == 0 {
      var k := PowerOfTwoTest(w);
      if k > 15 {
        Pow2Monotone(16, k);
      }
    }
    if k: nat :| k <= 15 && w == Pow2(k) {
      Pow2Monotone(k, 15);
      PowerPasses(k);
    }
  }

  lemma PowerPasses(k: nat)
    ensures BitAnd(Pow2(k), Pow2(k) - 1) == 0
  {
    AndMask(Pow2(k), k);
    LowIsMod(Pow2(k), k);
  }

  /** The positions before `pos` are in the hash chains, if these are used. */
  ghost predicate HashAt(hash: Hash, data: seq<byte>, settings: CompressSettings, pos: nat)
    reads hash, hash.head, hash.chain, hash.headz, hash.chainz, hash.zeros
  {
    hash.Valid(data) && hash.w == settings.windowsize && (settings.useLz77 ==> hash.written == pos)
  }

  function Literals(data: seq<byte>): (ts: seq<Token>)
    ensures |ts| == |data| && forall i :: 0 <= i < |data| ==> ts[i] == Literal(data[i])
  {
    seq(|data|, i requires 0 <= i < |data| => Literal(data[i]))
  }

  lemma {:induction false} LiteralsEmitted(data: seq<byte>, start: nat, end: nat)
    requires start <= end <= |data|
    ensures Emitted(data, start, Literals(data[start..end]), data[start..end], end)
    decreases end
  {
    hide Emitted;
    if start == end {
      NothingEncoded(data, start);
      assert data[start..end] == [] && Literals([]) == [];
    } else {
      LiteralsEmitted(data, start, end - 1);
      EmitLiteral(data, start, Literals(data[start..end - 1]), data[start..end - 1], end - 1);
      assert data[start..end - 1] + [data[end - 1]] == data[start..end];
      assert Literals(data[start..end - 1]) + [Literal(data[end - 1])] == Literals(data[start..end]);
    }
  }

  /** The tokens of data[start..end], found by lz77 or as literals only. */
  method FindTokens(hash: Hash, data: seq<byte>, start: nat, end: nat, settings: CompressSettings)
    returns (error: nat, values: seq<nat>, ghost ts: seq<Token>)
    requires start <= end <= |data| && HashAt(hash, data, settings, start)
    modifies hash, hash.Buffers()
    ensures error == WindowError(settings)
    ensures error == 0 ==> HashAt(hash, data, settings, end) && Emitted(data, start, ts, values, end)
  {
    hide Emitted;
    if settings.useLz77 {
      error, values, ts := EncodeLZ77(hash, data, start, end, settings.windowsize, settings.minmatch,
                                      settings.nicematch, settings.lazymatching);
    } else {
      error, values, ts := 0, data[start..end], Literals(data[start..end]);
      LiteralsEmitted(data, start, end);
    }
  }

  lemma EmittedIsBlock(data: seq<byte>, start: nat, ts: seq<Token>, values: seq<nat>, end: nat, b: Block)
    requires Emitted(data, start, ts, values, end) && ValidBlock(b)
    requires b == Fixed(ts) || (b.Dynamic? && b.ts == ts)
    ensures BlockFor(data, start, end, b) && AllTokensValid(ts) && values == AllSymbols(ts) && NoOddLength(ts)
  {
  }

  lemma EmittedTokens(data: seq<byte>, start: nat, ts: seq<Token>, values: seq<nat>, end: nat)
    requires Emitted(data, start, ts, values, end)
    ensures AllTokensValid(ts) && values == AllSymbols(ts) && NoOddLength(ts)
  {
  }

  /** The three bits every block starts with. */
  method WriteBlockType(writer: BitWriter, final: bool, low: bit, high: bit)
    requires writer.Valid()
    modifies writer
    ensures writer.Valid() && writer.data[..writer.start] == old(writer.data[..writer.start])
    ensures writer.bits == old(writer.bits) + [if final then 1 else 0, low, high]
  {
    hide Encodes, LsbBits, Low;
    var f: bit := if final then 1 else 0;
    OneBitField(f);
    OneBitField(low);
    OneBitField(high);
    writer.WriteBits(f, 1);
    writer.WriteBits(low, 1);
    writer.WriteBits(high, 1);
  }

  lemma DynamicBits(h: Header, ts: seq<Token>, final: bool, pos: nat, b: seq<bit>)
    requires ValidBlock(Dynamic(h, ts))
    ensures
      var f: bit := if final then 1 else 0;
      b + [f, 0, 1] + HeaderBits(h)
        + TokensBits(HeaderLL(h), HeaderD(h), ts) + CodeBits(HeaderLL(h), ENDCODE)
      == b + BlockBits(Dynamic(h, ts), final, pos)
  {
    hide HeaderBits, TokensBits, CodeBits, HeaderLL, HeaderD, RunsExpandable, ExpandRuns, RunsCodable, ValidTree, AllCodable;
    var f: bit := if final then 1 else 0;
    var x, y, z := HeaderBits(h), TokensBits(HeaderLL(h), HeaderD(h), ts), CodeBits(HeaderLL(h), ENDCODE);
    assert BlockBits(Dynamic(h, ts), final, pos) == [f] + [0, 1] + (x + (y + z));
    assert b + [f, 0, 1] + x + y + z == b + ([f] + [0, 1] + (x + (y + z)));
  }

  /** Writes a dynamic block whose trees are ready. */
  method WriteDynamic(writer: BitWriter, final: bool, treeLL: HuffmanTree, treeD: HuffmanTree, treeCL: HuffmanTree,
                      hclen: nat, e: seq<nat>, values: seq<nat>, ghost h: Header, ghost ts: seq<Token>)
    requires writer.Valid() && CodesOk(treeLL.lengths, treeLL.codes) && CodesOk(treeD.lengths, treeD.codes)
    requires CodesOk(treeCL.lengths, treeCL.codes)
    requires treeLL.numcodes == |treeLL.lengths| && treeD.numcodes == |treeD.lengths|
    requires h == Header(treeLL.numcodes, treeD.numcodes, hclen, treeCL.lengths, h.runs)
    requires Describes(h, treeLL.lengths, treeD.lengths) && ValidHuffmanBlock(HeaderLL(h), HeaderD(h), ts)
    requires AllValid(h.runs) && e == AllRunSymbols(h.runs) && values == AllSymbols(ts)
    modifies writer
    ensures writer.Valid() && writer.data[..writer.start] == old(writer.data[..writer.start])
    ensures writer.bits == old(writer.bits) + BlockBits(Dynamic(h, ts), final, |old(writer.bits)|)
  {
    hide AllSymbols, Encodes, AllCodable, AllRunSymbols, AllValid, CodesOk, HeaderBits, TokensBits, CodeBits, LsbBits,
         HeaderLL, HeaderD, ValidHeader, Pad;
    ghost var before, ll, d := writer.bits, Pad(treeLL.lengths, 288), Pad(treeD.lengths, 32);
    WriteBlockType(writer, final, 0, 1);
    WriteHeader(writer, treeLL.numcodes, treeD.numcodes, hclen, e, treeCL, h.runs);
    WriteLZ77Data(writer, values, treeLL, treeD, ts, ll, d);
    WriteSymbol(writer, treeLL, 256, ll);
    DynamicBits(h, ts, final, |before|, before);
  }

  /** A block with trees made for it.  The end code always has a code, so error 64
      cannot occur. */
  method DeflateDynamic(writer: BitWriter, hash: Hash, data: seq<byte>, datapos: nat, dataend: nat,
                        settings: CompressSettings, final: bool)
    returns (error: nat, ghost block: Block)
    requires writer.Valid() && datapos <= dataend <= |data| && HashAt(hash, data, settings, datapos)
    modifies writer, hash, hash.Buffers()
    ensures writer.Valid() && writer.data[..writer.start] == old(writer.data[..writer.start])
    ensures error == WindowError(settings)
    ensures error == 0 ==>
      && HashAt(hash, data, settings, dataend) && block.Dynamic? && BlockFor(data, datapos, dataend, block) && Strict(block) && Optimal(block)
      && writer.bits == old(writer.bits) + BlockBits(block, final, |old(writer.bits)|)
  {
    hide Emitted, AllSymbols, AllTokensValid, Encodes, AllCodable, RunsCodable, AllRunSymbols, AllValid, RunsExpandable, ExpandRuns,
         Complete, CodesOk, BlockFor, BlockBits, HeaderLL, HeaderD, ValidHeader, Pad, WindowError, Strict, Optimal, CheapestFor,
         LitLenUsed, DistanceSymbols;
    var values, e;
    ghost var ts, rs;
    error, values, ts := FindTokens(hash, data, datapos, dataend, settings);
    block := Fixed([]);
    if error != 0 {
      return;
    }
    EmittedTokens(data, datapos, ts, values, dataend);
    var treeLL, treeD := MakeBlockTrees(values, ts);
    e, rs := RunLengthEncode(treeLL.lengths + treeD.lengths);
    var treeCL := MakeRunTree(e, rs);
    var hclen := TrimmedOrder(treeCL.lengths);
    ghost var h := Header(treeLL.numcodes, treeD.numcodes, hclen, treeCL.lengths, rs);
    HeaderOfTrees(treeLL.lengths, treeD.lengths, treeCL.lengths, rs, hclen);
    PaddedEndCode(treeLL.lengths);
    assert treeLL.lengths[256] != 0;
    WriteDynamic(writer, final, treeLL, treeD, treeCL, hclen, e, values, h, ts);
    block := Dynamic(h, ts);
    EmittedIsBlock(data, datapos, ts, values, dataend, block);
    DescribedIsStrict(h, ts, treeLL.lengths, treeD.lengths);
    DescribedIsOptimal(h, ts, treeLL.lengths, treeD.lengths);
  }

  lemma DescribedIsOptimal(h: Header, ts: seq<Token>, ll: Lengths, d: Lengths)
    requires Describes(h, ll, d) && ValidBlock(Dynamic(h, ts))
    requires CheapestFor(LitLenUsed(ts), Pad(ll, 288)) && CheapestFor(DistanceSymbols(ts), Pad(d, 32))
    ensures Optimal(Dynamic(h, ts))
  {
    hide HeaderLL, HeaderD, Pad, ValidTree, RunsExpandable, ExpandRuns, RunsCodable, ValidHuffmanBlock, CheapestTrees, CheapestFor,
         LitLenUsed, DistanceSymbols;
    CheapestForBoth(HeaderLL(h), HeaderD(h), ts);
  }

  lemma DescribedIsStrict(h: Header, ts: seq<Token>, ll: Lengths, d: Lengths)
    requires Describes(h, ll, d) && ValidBlock(Dynamic(h, ts)) && NoOddLength(ts) && h.hlit <= 286
    requires Complete(Pad(ll, 288)) && Complete(Pad(d, 32))
    ensures Strict(Dynamic(h, ts))
  {
    hide ValidHeader, Complete, HeaderLL, HeaderD, Pad, Strict;
    FullTreesAreStrict(h, ts);
  }

  lemma PaddedEndCode(ll: Lengths)
    requires ENDCODE < |ll| <= 288 && ll[ENDCODE] > 0
    ensures |Pad(ll, 288)| == 288 && Pad(ll, 288)[ENDCODE] > 0
  {
  }

  lemma FixedBits(ts: seq<Token>, final: bool, pos: nat, b: seq<bit>)
    requires ValidBlock(Fixed(ts))
    ensures
      var f: bit := if final then 1 else 0;
      b + [f, 1, 0] + TokensBits(FixedLL(), FixedD(), ts) + CodeBits(FixedLL(), ENDCODE)
      == b + BlockBits(Fixed(ts), final, pos)
  {
    hide TokensBits, CodeBits, AllCodable, FixedLL, FixedD;
    var f: bit := if final then 1 else 0;
    var y, z := TokensBits(FixedLL(), FixedD(), ts), CodeBits(FixedLL(), ENDCODE);
    assert BlockBits(Fixed(ts), final, pos) == [f] + [1, 0] + (y + z);
    assert b + [f, 1, 0] + y + z == b + ([f] + [1, 0] + (y + z));
  }

  /** The fixed trees have a code for every token. */
  lemma FixedCodable(ts: seq<Token>)
    requires AllTokensValid(ts)
    ensures ValidBlock(Fixed(ts))
  {
  }

  lemma LiteralBits(ll: Lengths, d: Lengths, data: seq<byte>, start: nat, i: nat)
    requires start <= i < |data| && 256 <= |ll| && forall s :: 0 <= s < 256 ==> ll[s] > 0
    ensures AllCodable(ll, d, Literals(data[start..i])) && AllCodable(ll, d, Literals(data[start..i + 1]))
    ensures TokensBits(ll, d, Literals(data[start..i + 1])) == TokensBits(ll, d, Literals(data[start..i])) + CodeBits(ll, data[i])
  {
    hide CodeBits;
    var ts := Literals(data[start..i]);
    assert data[start..i + 1] == data[start..i] + [data[i]];
    assert Literals(data[start..i + 1]) == ts + [Literal(data[i])];
    TokensBitsAppend(ll, d, ts, Literal(data[i]));
  }

  method GenerateFixedTrees() returns (treeLL: HuffmanTree, treeD: HuffmanTree)
    ensures fresh(treeLL) && fresh(treeD) && treeLL.Ready() && treeD.Ready()
    ensures treeLL.lengths == FixedLL() && treeD.lengths == FixedD()
  {
    hide Complete, FixedD, FixedLL;
    FixedTreesValid();
    FixedLengths();
    treeLL := new HuffmanTree();
    treeD := new HuffmanTree();
    var error := treeLL.MakeFromLengths(FixedLL(), 15);
    error := treeD.MakeFromLengths(FixedD(), 15);
  }

  lemma FixedLengths()
    ensures |FixedLL()| == 288 && |FixedD()| == 32
    ensures forall s :: 0 <= s < 288 ==> 0 < FixedLL()[s] <= 15
    ensures forall s :: 0 <= s < 32 ==> 0 < FixedD()[s] <= 15
    ensures Pad(FixedLL(), 288) == FixedLL() && Pad(FixedD(), 32) == FixedD()
  {
  }

  ghost predicate FixedTrees(treeLL: HuffmanTree, treeD: HuffmanTree)
    reads treeLL, treeD
  {
    && treeLL.lengths == FixedLL() && CodesOk(treeLL.lengths, treeLL.codes)
    && treeD.lengths == FixedD() && CodesOk(treeD.lengths, treeD.codes)
  }

  /** The tokens of a fixed block: by lz77, or every byte as it is. */
  method WriteFixedTokens(writer: BitWriter, hash: Hash, data: seq<byte>, datapos: nat, dataend: nat,
                          settings: CompressSettings, treeLL: HuffmanTree, treeD: HuffmanTree)
    returns (error: nat, ghost ts: seq<Token>)
    requires writer.Valid() && datapos <= dataend <= |data| && HashAt(hash, data, settings, datapos)
    requires FixedTrees(treeLL, treeD)
    modifies writer, hash, hash.Buffers()
    ensures writer.Valid() && writer.data[..writer.start] == old(writer.data[..writer.start])
    ensures FixedTrees(treeLL, treeD)
    ensures error == WindowError(settings)
    ensures error == 0 ==>
      && HashAt(hash, data, settings, dataend) && ValidBlock(Fixed(ts)) && BlockFor(data, datapos, dataend, Fixed(ts))
      && NoOddLength(ts) && AllCodable(FixedLL(), FixedD(), ts) && writer.bits == old(writer.bits) + TokensBits(FixedLL(), FixedD(), ts)
  {
    hide Emitted, Encodes, AllCodable, BlockFor, FixedLL, FixedD, CodesOk, AllTokensValid, AllSymbols, TokensBits,
         Pad, Literals, ValidBlock, NoOddLength;
    FixedLengths();
    if settings.useLz77 {
      var values;
      error, values, ts := EncodeLZ77(hash, data, datapos, dataend, settings.windowsize, settings.minmatch,
                                      settings.nicematch, settings.lazymatching);
      if error == 0 {
        EmittedIsFixed(data, datapos, ts, values, dataend);
        WriteLZ77Data(writer, values, treeLL, treeD, ts, FixedLL(), FixedD());
      }
    } else {
      error, ts := 0, Literals(data[datapos..dataend]);
      LiteralsEmitted(data, datapos, dataend);
      EmittedIsFixed(data, datapos, ts, data[datapos..dataend], dataend);
      WriteLiterals(writer, treeLL, data, datapos, dataend, FixedLL(), FixedD());
    }
  }

  lemma EmittedIsFixed(data: seq<byte>, start: nat, ts: seq<Token>, values: seq<nat>, end: nat)
    requires Emitted(data, start, ts, values, end)
    ensures ValidBlock(Fixed(ts)) && BlockFor(data, start, end, Fixed(ts))
    ensures AllCodable(FixedLL(), FixedD(), ts) && values == AllSymbols(ts) && NoOddLength(ts)
  {
    hide Emitted, FixedLL, FixedD, AllTokensValid, BlockFor, AllSymbols, NoOddLength;
    EmittedTokens(data, start, ts, values, end);
    FixedCodable(ts);
    EmittedIsBlock(data, start, ts, values, end, Fixed(ts));
  }

  /** Header bits, tokens and end code of a fixed block. */
  method WriteFixed(writer: BitWriter, hash: Hash, data: seq<byte>, datapos: nat, dataend: nat,
                    settings: CompressSettings, final: bool, treeLL: HuffmanTree, treeD: HuffmanTree)
    returns (error: nat, ghost ts: seq<Token>)
    requires writer.Valid() && datapos <= dataend <= |data| && HashAt(hash, data, settings, datapos)
    requires FixedTrees(treeLL, treeD)
    modifies writer, hash, hash.Buffers()
    ensures writer.Valid() && writer.data[..writer.start] == old(writer.data[..writer.start])
    ensures error == WindowError(settings)
    ensures error == 0 ==>
      && HashAt(hash, data, settings, dataend) && BlockFor(data, datapos, dataend, Fixed(ts)) && NoOddLength(ts)
      && writer.bits == old(writer.bits) + BlockBits(Fixed(ts), final, |old(writer.bits)|)
  {
    hide Encodes, AllCodable, BlockFor, BlockBits, FixedLL, FixedD, CodesOk, TokensBits, CodeBits, LsbBits, Pad, WindowError, HashAt, NoOddLength;
    ghost var before := writer.bits;
    FixedLengths();
    WriteBlockType(writer, final, 1, 0);
    error, ts := WriteFixedTokens(writer, hash, data, datapos, dataend, settings, treeLL, treeD);
    if error == 0 {
      WriteSymbol(writer, treeLL, 256, FixedLL());
      FixedBits(ts, final, |before|, before);
    }
  }

  /** A block with the fixed trees. */
  method DeflateFixed(writer: BitWriter, hash: Hash, data: seq<byte>, datapos: nat, dataend: nat,
                      settings: CompressSettings, final: bool)
    returns (error: nat, ghost block: Block)
    requires writer.Valid() && datapos <= dataend <= |data| && HashAt(hash, data, settings, datapos)
    modifies writer, hash, hash.Buffers()
    ensures writer.Valid() && writer.data[..writer.start] == old(writer.data[..writer.start])
    ensures error == WindowError(settings)
    ensures error == 0 ==>
      && HashAt(hash, data, settings, dataend) && block.Fixed? && BlockFor(data, datapos, dataend, block) && Strict(block) && Optimal(block)
      && writer.bits == old(writer.bits) + BlockBits(block, final, |old(writer.bits)|)
  {
    hide *;
    var treeLL, treeD := GenerateFixedTrees();
    assert FixedTrees(treeLL, treeD) by { TreesAreFixed(treeLL, treeD); }
    ghost var ts;
    error, ts := WriteFixed(writer, hash, data, datapos, dataend, settings, final, treeLL, treeD);
    block := Fixed(ts);
    if error == 0 {
      FixedIsStrict(data, datapos, dataend, ts);
    }
  }

  lemma TreesAreFixed(treeLL: HuffmanTree, treeD: HuffmanTree)
    requires treeLL.Ready() && treeD.Ready() && treeLL.lengths == FixedLL() && treeD.lengths == FixedD()
    ensures FixedTrees(treeLL, treeD)
  {
    hide CodesOk, FixedLL, FixedD;
  }

  lemma FixedIsStrict(data: seq<byte>, start: nat, end: nat, ts: seq<Token>)
    requires BlockFor(data, start, end, Fixed(ts)) && NoOddLength(ts)
    ensures ValidBlock(Fixed(ts)) && Strict(Fixed(ts)) && Optimal(Fixed(ts))
  {
  }

  lemma BlockForValid(data: seq<byte>, start: nat, end: nat, b: Block)
    requires BlockFor(data, start, end, b)
    ensures ValidBlock(b)
  {
  }

  method WriteLiterals(writer: BitWriter, treeLL: HuffmanTree, data: seq<byte>, datapos: nat, dataend: nat,
                       ghost ll: Lengths, ghost d: Lengths)
    requires writer.Valid() && datapos <= dataend <= |data|
    requires CodesOk(treeLL.lengths, treeLL.codes) && |treeLL.lengths| <= |ll| && ll == Pad(treeLL.lengths, |ll|)
    requires 256 <= |ll| && forall s :: 0 <= s < 256 ==> ll[s] > 0
    modifies writer
    ensures writer.Valid() && writer.data[..writer.start] == old(writer.data[..writer.start])
    ensures AllCodable(ll, d, Literals(data[datapos..dataend]))
    ensures writer.bits == old(writer.bits) + TokensBits(ll, d, Literals(data[datapos..dataend]))
  {
    hide Encodes, TokensBits, CodeBits, CodesOk, Pad, AllCodable, Literals;
    ghost var before := writer.bits;
    NoLiterals(data, datapos, ll, d);
    for i := datapos to dataend
      invariant writer.Valid() && writer.data[..writer.start] == old(writer.data[..writer.start])
      invariant AllCodable(ll, d, Literals(data[datapos..i]))
      invariant writer.bits == before + TokensBits(ll, d, Literals(data[datapos..i]))
    {
      LiteralBits(ll, d, data, datapos, i);
      WriteSymbol(writer, treeLL, data[i], ll);
    }
  }

  lemma NoLiterals(data: seq<byte>, start: nat, ll: Lengths, d: Lengths)
    requires start <= |data|
    ensures Literals(data[start..start]) == []
    ensures AllCodable(ll, d, []) && TokensBits(ll, d, []) == []
  {
  }
}
