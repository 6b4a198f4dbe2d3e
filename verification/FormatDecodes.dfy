/** Every stream of the format decodes to its meaning. */
module FormatDecodes {
  import opened Bits
  import opened CanonicalCode
  import opened HuffmanTable
  import opened DeflateFormat
  import opened InflateSpec

  lemma SymbolHere(lens: Lengths, s: seq<bit>, pos: nat, n: nat)
    requires ValidTree(lens) && n < |lens| && lens[n] > 0 && Here(s, pos, CodeBits(lens, n))
    ensures SymbolAt(lens, s, pos) == n
  {
    HereSlice(s, pos, CodeBits(lens, n));
    SymbolAtUnique(lens, s, pos, n);
  }

  lemma FieldHere(s: seq<bit>, pos: nat, v: nat, n: nat)
    requires v < Pow2(n) && Here(s, pos, LsbBits(v, n))
    ensures Next(s, pos, n) == v
  {
    HereSlice(s, pos, LsbBits(v, n));
    ValOfSmall(v, n);
  }

  // ----- Tokens

  lemma DistanceHere(d: Lengths, s: seq<bit>, pos: nat, t: Token)
    requires ValidTree(d) && t.Match? && ValidToken(t) && t.dcode < |d| && d[t.dcode] > 0
    requires Here(s, pos, LsbBits(t.lextra, LengthExtra(t.lcode)))
    requires Here(s, pos + LengthExtra(t.lcode), CodeBits(d, t.dcode) + LsbBits(t.dextra, DistanceExtra(t.dcode)))
    ensures ReadDistance(d, s, t.lcode, pos) ==
            Read(pos + LengthExtra(t.lcode) + d[t.dcode] + DistanceExtra(t.dcode), t)
  {
    hide ValidTree, Here, SymbolAt, LengthBase, LengthExtra, DistanceBase, DistanceExtra;
    var p := pos + LengthExtra(t.lcode);
    FieldHere(s, pos, t.lextra, LengthExtra(t.lcode));
    HereSplit(s, p, CodeBits(d, t.dcode), LsbBits(t.dextra, DistanceExtra(t.dcode)));
    SymbolHere(d, s, p, t.dcode);
    FieldHere(s, p + d[t.dcode], t.dextra, DistanceExtra(t.dcode));
  }

  lemma MatchHere(ll: Lengths, d: Lengths, s: seq<bit>, pos: nat, t: Token)
    requires ValidTree(ll) && ValidTree(d) && t.Match? && ValidToken(t) && Codable(ll, d, t)
    requires Here(s, pos, TokenBits(ll, d, t))
    ensures SymbolAt(ll, s, pos) == FIRSTLENGTHCODE + t.lcode
    ensures ReadDistance(d, s, t.lcode, pos + ll[FIRSTLENGTHCODE + t.lcode]) == Read(pos + |TokenBits(ll, d, t)|, t)
  {
    hide ValidTree, Here, SymbolAt, LengthBase, LengthExtra, DistanceBase, DistanceExtra, ReadDistance, CodeBits, LsbBits, Pow2;
    var c := CodeBits(ll, FIRSTLENGTHCODE + t.lcode);
    var e := LsbBits(t.lextra, LengthExtra(t.lcode));
    HereSplit(s, pos, c + e, CodeBits(d, t.dcode) + LsbBits(t.dextra, DistanceExtra(t.dcode)));
    HereSplit(s, pos, c, e);
    SymbolHere(ll, s, pos, FIRSTLENGTHCODE + t.lcode);
    DistanceHere(d, s, pos + |c|, t);
  }

  lemma LiteralHere(ll: Lengths, d: Lengths, s: seq<bit>, pos: nat, t: Token)
    requires ValidTree(ll) && t.Literal? && ValidToken(t) && Codable(ll, d, t)
    requires Here(s, pos, TokenBits(ll, d, t))
    ensures SymbolAt(ll, s, pos) == t.b && |TokenBits(ll, d, t)| == ll[t.b]
  {
    hide ValidTree, Here, SymbolAt, CodeBits;
    SymbolHere(ll, s, pos, t.b);
  }

  lemma TokenHere(ll: Lengths, d: Lengths, s: seq<bit>, pos: nat, t: Token)
    requires ValidTree(ll) && ValidTree(d) && ValidToken(t) && Codable(ll, d, t)
    requires Here(s, pos, TokenBits(ll, d, t))
    ensures ReadToken(ll, d, s, pos) == Read(pos + |TokenBits(ll, d, t)|, t)
  {
    hide ValidTree, Here, SymbolAt, ReadDistance, TokenBits, Pow2, LengthExtra, DistanceExtra;
    if t.Literal? {
      LiteralHere(ll, d, s, pos, t);
    } else {
      MatchHere(ll, d, s, pos, t);
    }
  }

  /** The tokens are in the stream, and the end code comes next; bits of the end code
      past the end of the stream count as zeros. */
  ghost predicate TokensPresent(ll: Lengths, d: Lengths, s: seq<bit>, pos: nat, ts: seq<Token>)
    requires ValidHuffmanBlock(ll, d, ts)
  {
    && Here(s, pos, TokensBits(ll, d, ts))
    && Slice(s, pos + |TokensBits(ll, d, ts)|, ll[ENDCODE]) == CodeBits(ll, ENDCODE)
  }

  lemma TokensStep(ll: Lengths, d: Lengths, s: seq<bit>, pos: nat, ts: seq<Token>)
    requires ValidHuffmanBlock(ll, d, ts) && TokensPresent(ll, d, s, pos, ts)
    ensures pos <= |s|
    ensures ts == [] ==> Matches(ll, ENDCODE, s, pos) && |HuffmanBits(ll, d, ts)| == ll[ENDCODE]
    ensures ts != [] ==>
      && ValidToken(ts[0]) && Codable(ll, d, ts[0]) && ValidHuffmanBlock(ll, d, ts[1..]) && Here(s, pos, TokenBits(ll, d, ts[0]))
      && TokensPresent(ll, d, s, pos + |TokenBits(ll, d, ts[0])|, ts[1..])
      && |HuffmanBits(ll, d, ts)| == |TokenBits(ll, d, ts[0])| + |HuffmanBits(ll, d, ts[1..])|
  {
    hide Here, TokenBits, Codable, ValidToken, CodeBits, Slice;
    HereInside(s, pos, TokensBits(ll, d, ts));
    if ts != [] {
      var a, b := TokenBits(ll, d, ts[0]), TokensBits(ll, d, ts[1..]);
      assert AllCodable(ll, d, ts[1..]) && TokensBits(ll, d, ts) == a + b;
      HereSplit(s, pos, a, b);
    }
  }

  lemma {:induction false} TokensHere(ll: Lengths, d: Lengths, s: seq<bit>, pos: nat, ts: seq<Token>, out: seq<byte>, limit: nat)
    requires ValidTree(ll) && ValidTree(d) && ValidHuffmanBlock(ll, d, ts)
    requires TokensPresent(ll, d, s, pos, ts)
    requires Expandable(out, ts) && !TooLarge(Expand(out, ts), limit)
    ensures pos <= |s|
    ensures InflateTokens(ll, d, s, pos, out, limit) == Success(pos + |HuffmanBits(ll, d, ts)|, Expand(out, ts))
    decreases |ts|
  {
    hide ValidTree, Here, TokensPresent, ValidHuffmanBlock, HuffmanBits, SymbolAt, TokenBits, Matches, Codable;
    TokensStep(ll, d, s, pos, ts);
    if ts == [] {
      SymbolAtUnique(ll, s, pos, ENDCODE);
    } else {
      var t := ts[0];
      TokenHere(ll, d, s, pos, t);
      TokensHere(ll, d, s, pos + |TokenBits(ll, d, t)|, ts[1..], Apply(out, t), limit);
    }
  }

  // ----- Header of a dynamic block

  predicate Listed(n: nat, sym: nat)
    requires n <= 19
  {
    exists i :: 0 <= i < n && CLCL_ORDER[i] == sym
  }

  lemma OrderIsPermutation()
    ensures forall sym: nat :: sym < 19 ==> Listed(19, sym)
    ensures forall i, j :: 0 <= i < j < 19 ==> CLCL_ORDER[i] != CLCL_ORDER[j]
  {
    var place := [3, 17, 15, 13, 11, 9, 7, 5, 4, 6, 8, 10, 12, 14, 16, 18, 0, 1, 2];
    forall sym: nat | sym < 19
      ensures Listed(19, sym)
    {
      assert CLCL_ORDER[place[sym]] == sym;
    }
  }

  lemma {:induction false} ReadClAt(s: seq<bit>, pos: nat, n: nat, j: nat)
    requires n <= 19 && j < 19
    ensures ReadCl(s, pos, n)[CLCL_ORDER[j]] == if j < n then Next(s, pos + 3 * j, 3) else 0
  {
    hide Slice, Val, Next;
    if n > 0 {
      ReadClAt(s, pos, n - 1, j);
      OrderIsPermutation();
    }
  }

  lemma {:induction false} ClHere(s: seq<bit>, pos: nat, cl: Lengths, n: nat)
    requires |cl| == 19 && n <= 19 && (forall i :: 0 <= i < 19 ==> cl[i] <= 7)
    requires Here(s, pos, ClBits(cl, n))
    ensures forall sym: nat :: sym < 19 ==> ReadCl(s, pos, n)[sym] == if Listed(n, sym) then cl[sym] else 0
  {
    hide Here, Next, LsbBits, Listed;
    if n == 0 {
      NoneListed();
    } else {
      var a, b := ClBits(cl, n - 1), LsbBits(cl[CLCL_ORDER[n - 1]], 3);
      HereSplit(s, pos, a, b);
      ClHere(s, pos, cl, n - 1);
      assert Pow2(3) == 8;
      FieldHere(s, pos + 3 * (n - 1), cl[CLCL_ORDER[n - 1]], 3);
      OrderIsPermutation();
      forall sym: nat | sym < 19
        ensures ReadCl(s, pos, n)[sym] == if Listed(n, sym) then cl[sym] else 0
      {
        ListedStep(n - 1, sym);
      }
    }
  }

  lemma NoneListed()
    ensures forall sym: nat :: !Listed(0, sym)
  {
  }

  lemma ListedStep(n: nat, sym: nat)
    requires n < 19
    ensures Listed(n + 1, sym) <==> Listed(n, sym) || CLCL_ORDER[n] == sym
  {
    if Listed(n, sym) {
      var i :| 0 <= i < n && CLCL_ORDER[i] == sym;
      assert 0 <= i < n + 1 && CLCL_ORDER[i] == sym;
    } else if CLCL_ORDER[n] == sym {
      assert 0 <= n < n + 1 && CLCL_ORDER[n] == sym;
    }
  }

  lemma ClComplete(s: seq<bit>, pos: nat, cl: Lengths, n: nat)
    requires |cl| == 19 && n <= 19 && (forall i :: 0 <= i < 19 ==> cl[i] <= 7)
    requires forall i :: n <= i < 19 ==> cl[CLCL_ORDER[i]] == 0
    requires Here(s, pos, ClBits(cl, n))
    ensures ReadCl(s, pos, n) == cl
  {
    ClHere(s, pos, cl, n);
    OrderIsPermutation();
    forall sym: nat | sym < 19
      ensures ReadCl(s, pos, n)[sym] == cl[sym]
    {
      assert Listed(19, sym);
      var i :| 0 <= i < 19 && CLCL_ORDER[i] == sym;
      if i < n {
        assert Listed(n, sym);
      }
    }
  }

  lemma RunHere(cl: Lengths, s: seq<bit>, pos: nat, r: Run)
    requires |cl| == 19 && ValidTree(cl) && ValidRun(r) && cl[RunSymbol(r)] > 0
    requires Here(s, pos, RunBits(cl, r))
    ensures SymbolAt(cl, s, pos) == RunSymbol(r)
    ensures RunAt(s, pos + cl[RunSymbol(r)], RunSymbol(r)) == r
    ensures |RunBits(cl, r)| == cl[RunSymbol(r)] + RunExtraBits(r)
  {
    hide ValidTree, Here, SymbolAt;
    var c := RunSymbol(r);
    HereSplit(s, pos, CodeBits(cl, c), LsbBits(RunExtra(r), RunExtraBits(r)));
    SymbolHere(cl, s, pos, c);
    assert Pow2(2) == 4 && Pow2(3) == 8 && Pow2(7) == 128;
    FieldHere(s, pos + cl[c], RunExtra(r), RunExtraBits(r));
  }

  lemma RunGrows(acc: Lengths, r: Run)
    requires ValidRun(r) && (r.Repeat? ==> acc != [])
    ensures |ApplyRun(acc, r)| > |acc|
  {
  }

  lemma {:induction false} RunsHere(cl: Lengths, s: seq<bit>, pos: nat, rs: seq<Run>, total: nat, acc: Lengths)
    requires RunsCodable(cl, rs) && ValidTree(cl) && Here(s, pos, RunsBits(cl, rs))
    requires RunsExpandable(acc, rs) && |ExpandRuns(acc, rs)| == total
    ensures ReadRuns(cl, s, pos, total, acc) == Success(pos + |RunsBits(cl, rs)|, ExpandRuns(acc, rs))
    decreases |rs|
  {
    hide ValidTree, Here, SymbolAt, RunBits, ApplyRun, RunAt;
    if rs != [] {
      var r, rest := rs[0], rs[1..];
      assert RunsBits(cl, rs) == RunBits(cl, r) + RunsBits(cl, rest);
      HereSplit(s, pos, RunBits(cl, r), RunsBits(cl, rest));
      RunHere(cl, s, pos, r);
      RunGrows(acc, r);
      RunsHere(cl, s, pos + |RunBits(cl, r)|, rest, total, ApplyRun(acc, r));
    }
  }

  lemma HeaderHere(s: seq<bit>, pos: nat, h: Header)
    requires ValidHeader(h) && Here(s, pos, HeaderBits(h))
    ensures ReadTrees(s, pos) == Success(pos + |HeaderBits(h)|, Trees(HeaderLL(h), HeaderD(h)))
  {
    hide ValidTree, Here, SymbolAt, ReadCl, ClBits, RunsBits, ReadRuns, LsbBits, Slice, Val, ExpandRuns, RunsExpandable;
    HeaderParts(s, pos, h);
    HereInside(s, pos + 14, ClBits(h.cl, h.hclen));
    ClComplete(s, pos + 14, h.cl, h.hclen);
    RunsHere(h.cl, s, pos + 14 + 3 * h.hclen, h.runs, h.hlit + h.hdist, []);
  }

  lemma HeaderParts(s: seq<bit>, pos: nat, h: Header)
    requires ValidHeader(h) && Here(s, pos, HeaderBits(h))
    ensures Next(s, pos, 5) == h.hlit - 257 && Next(s, pos + 5, 5) == h.hdist - 1 && Next(s, pos + 10, 4) == h.hclen - 4
    ensures Here(s, pos + 14, ClBits(h.cl, h.hclen)) && Here(s, pos + 14 + 3 * h.hclen, RunsBits(h.cl, h.runs))
    ensures |HeaderBits(h)| == 14 + 3 * h.hclen + |RunsBits(h.cl, h.runs)|
  {
    hide ValidTree, Here, ClBits, RunsBits, Next, LsbBits, ExpandRuns, RunsExpandable, HeaderLL, HeaderD;
    var a, b, c := LsbBits(h.hlit - 257, 5), LsbBits(h.hdist - 1, 5), LsbBits(h.hclen - 4, 4);
    var clb, rb := ClBits(h.cl, h.hclen), RunsBits(h.cl, h.runs);
    HereSplit(s, pos, a + b + c + clb, rb);
    HereSplit(s, pos, a + b + c, clb);
    HereSplit(s, pos, a + b, c);
    HereSplit(s, pos, a, b);
    assert Pow2(4) == 16 && Pow2(5) == 32;
    FieldHere(s, pos, h.hlit - 257, 5);
    FieldHere(s, pos + 5, h.hdist - 1, 5);
    FieldHere(s, pos + 10, h.hclen - 4, 4);
  }

  // ----- The fixed trees

  lemma {:induction false} WidthSumRun(lens: Lengths, a: nat, b: nat, l: nat)
    requires a <= b <= |lens| && 1 <= l <= LONGEST
    requires forall i :: a <= i < b ==> lens[i] == l
    ensures WidthSum(lens, LONGEST, b) == WidthSum(lens, LONGEST, a) + (b - a) * Width(l)
    decreases b
  {
    if a < b {
      WidthSumRun(lens, a, b - 1, l);
      assert (b - a) * Width(l) == (b - 1 - a) * Width(l) + Width(l);
    }
  }

  lemma FixedTreesValid()
    ensures ValidTree(FixedLL()) && ValidTree(FixedD())
  {
    FixedLLComplete();
    FixedDComplete();
  }

  lemma FixedLLComplete()
    ensures Complete(FixedLL())
  {
    FourRuns(FixedLL());
  }

  lemma FourRuns(ll: Lengths)
    requires |ll| == 288
    requires (forall i :: 0 <= i < 144 ==> ll[i] == 8) && (forall i :: 144 <= i < 256 ==> ll[i] == 9)
    requires (forall i :: 256 <= i < 280 ==> ll[i] == 7) && (forall i :: 280 <= i < 288 ==> ll[i] == 8)
    ensures Complete(ll)
  {
    var w7, w8, w9 := Width(7), Width(8), Width(9);
    assert w8 == 128;
    assert w9 == 64;
    assert w7 == 256;
    WidthSumRun(ll, 0, 144, 8);
    WidthSumRun(ll, 144, 256, 9);
    WidthSumRun(ll, 256, 280, 7);
    WidthSumRun(ll, 280, 288, 8);
    assert 144 * w8 + 112 * w9 + 24 * w7 + 8 * w8 == 32768;
    KraftIsSum(ll);
    Pow2Values();
  }

  lemma FixedDComplete()
    ensures Complete(FixedD())
  {
    var d := FixedD();
    Pow2Values();
    KraftIsSum(d);
    WidthSumRun(d, 0, 32, 5);
    assert Width(5) == 1024;
  }

  // ----- Stored blocks

  lemma WordBits(data: seq<byte>, i: nat)
    requires i + 2 <= |data|
    ensures Next(BytesBits(data), 8 * i, 16) == Word16(data[i], data[i + 1])
  {
    var s := BytesBits(data);
    var lo, hi := LsbBits(data[i], 8), LsbBits(data[i + 1], 8);
    assert Slice(s, 8 * i, 16) == lo + hi by {
      var w := Slice(s, 8 * i, 16);
      forall j | 0 <= j < 16
        ensures w[j] == (lo + hi)[j]
      {
        assert (8 * i + j) / 8 == i + j / 8 && (8 * i + j) % 8 == j % 8;
      }
    }
    ValConcat(lo, hi);
    assert Pow2(8) == 256;
    ValOfSmall(data[i], 8);
    ValOfSmall(data[i + 1], 8);
    ShlByEight(data[i + 1]);
  }

  lemma BytesOfBits(a: seq<byte>, b: seq<byte>)
    requires BytesBits(a) == BytesBits(b)
    ensures a == b
  {
    assert |a| == |b|;
    assert Pow2(8) == 256;
    forall i | 0 <= i < |a|
      ensures a[i] == b[i]
    {
      var x, y := LsbBits(a[i], 8), LsbBits(b[i], 8);
      forall j | 0 <= j < 8
        ensures x[j] == y[j]
      {
        assert BytesBits(a)[8 * i + j] == BytesBits(b)[8 * i + j];
        assert (8 * i + j) / 8 == i && (8 * i + j) % 8 == j;
      }
      assert x == y;
      ValOfSmall(a[i], 8);
      ValOfSmall(b[i], 8);
    }
  }

  lemma DataHere(data: seq<byte>, i: nat, d: seq<byte>)
    requires Here(BytesBits(data), 8 * i, BytesBits(d))
    ensures i + |d| <= |data| && data[i..i + |d|] == d
  {
    var s := BytesBits(data);
    BytesBitsSplit(data, i);
    BytesBitsSplit(data[i..], |d|);
    assert data[i..][..|d|] == data[i..i + |d|];
    assert s[8 * i..][..8 * |d|] == s[8 * i..8 * i + 8 * |d|];
    BytesOfBits(data[i..i + |d|], d);
  }

  /** An empty stored block that ends the input is refused (error 52). */
  lemma StoredHere(data: seq<byte>, pos: nat, d: seq<byte>, fill: nat, check: nat, out: seq<byte>, ignoreNlen: bool)
    requires |d| <= 65535 && check <= 65535 && (ignoreNlen || check == 65535 - |d|)
    requires Here(BytesBits(data), pos, LsbBits(fill, PadTo8(pos)) + LsbBits(|d|, 16) + LsbBits(check, 16) + BytesBits(d))
    ensures
      var end := pos + PadTo8(pos) + 32 + 8 * |d|;
      InflateStored(data, pos, out, ignoreNlen) ==
      if d == [] && end == 8 * |data| then Failure(52) else Success(end, out + d)
  {
    hide Here, BytesBits, LsbBits, Slice, Next, Val, InflateStored;
    var s := BytesBits(data);
    var z, a, b, c := LsbBits(fill, PadTo8(pos)), LsbBits(|d|, 16), LsbBits(check, 16), BytesBits(d);
    HereSplit(s, pos, z + a + b, c);
    HereSplit(s, pos, z + a, b);
    HereSplit(s, pos, z, a);
    var i := (pos + 7) / 8;
    assert 8 * i == pos + |z|;
    Pow2Values();
    FieldHere(s, 8 * i, |d|, 16);
    FieldHere(s, 8 * (i + 2), check, 16);
    DataHere(data, i + 4, d);
    WordBits(data, i);
    WordBits(data, i + 2);
    StoredResult(data, pos, d, out, ignoreNlen, i);
  }

  lemma StoredResult(data: seq<byte>, pos: nat, d: seq<byte>, out: seq<byte>, ignoreNlen: bool, i: nat)
    requires i == (pos + 7) / 8 && 8 * i == pos + PadTo8(pos) && i + 4 + |d| <= |data| && data[i + 4..i + 4 + |d|] == d
    requires Word16(data[i], data[i + 1]) == |d| && (ignoreNlen || Word16(data[i + 2], data[i + 3]) == 65535 - |d|)
    ensures
      var end := pos + PadTo8(pos) + 32 + 8 * |d|;
      InflateStored(data, pos, out, ignoreNlen) ==
      if d == [] && end == 8 * |data| then Failure(52) else Success(end, out + d)
  {
    hide PadTo8, Word16;
  }

  // ----- Blocks and streams

  lemma BlockHead(s: seq<bit>, pos: nat, b: Block, last: bool)
    requires Here(s, pos, [if last then 1 else 0] + TypeBits(b))
    ensures pos + 3 <= |s|
    ensures Next(s, pos, 1) == (if last then 1 else 0)
    ensures Next(s, pos + 1, 2) == BlockType(b)
  {
    var f: bit := if last then 1 else 0;
    HereSplit(s, pos, [f], TypeBits(b));
    HereSlice(s, pos, [f]);
    HereSlice(s, pos + 1, TypeBits(b));
    var t := TypeBits(b);
    assert t[1..] == [t[1]];
    assert Val(t) == t[0] + 2 * Val(t[1..]);
  }

  /** The one kind of valid block that is refused: an empty stored block that
      ends exactly where the input ends. */
  predicate EmptyAtEnd(b: Block, end: nat, data: seq<byte>) {
    b.Stored? && b.data == [] && end == 8 * |data|
  }

  /** All of the block behind its header bits is in the stream, up to the end code. */
  ghost predicate BodyPresent(s: seq<bit>, pos: nat, b: Block)
    requires ValidBlock(b)
  {
    match b
    case Stored(_, _, _) => Here(s, pos, BodyBits(b, pos))
    case Fixed(ts) => TokensPresent(FixedLL(), FixedD(), s, pos, ts)
    case Dynamic(h, ts) =>
      Here(s, pos, HeaderBits(h)) && TokensPresent(HeaderLL(h), HeaderD(h), s, pos + |HeaderBits(h)|, ts)
  }

  ghost predicate BlockPresent(s: seq<bit>, pos: nat, b: Block, last: bool)
    requires ValidBlock(b)
  {
    Here(s, pos, [if last then 1 else 0] + TypeBits(b)) && BodyPresent(s, pos + 3, b)
  }

  /** The stream starts at pos; only the end code of its last block may go on past the
      end of s. */
  ghost predicate StreamPresent(s: seq<bit>, pos: nat, bs: seq<Block>)
    requires ValidStream(bs)
    decreases |bs|
  {
    && BlockPresent(s, pos, bs[0], |bs| == 1)
    && (|bs| > 1 ==> StreamPresent(s, pos + |BlockBits(bs[0], false, pos)|, bs[1..]))
  }

  lemma FixedHere(s: seq<bit>, pos: nat, ts: seq<Token>, out: seq<byte>, limit: nat)
    requires ValidHuffmanBlock(FixedLL(), FixedD(), ts) && TokensPresent(FixedLL(), FixedD(), s, pos, ts)
    requires Expandable(out, ts) && !TooLarge(Expand(out, ts), limit)
    ensures pos <= |s|
    ensures InflateHuffman(s, pos, 1, out, limit) ==
            Success(pos + |HuffmanBits(FixedLL(), FixedD(), ts)|, Expand(out, ts))
  {
    hide FixedLL, FixedD, HuffmanBits, ValidTree, InflateTokens, ValidHuffmanBlock, Expandable, Expand, TokensPresent;
    FixedTreesValid();
    TokensHere(FixedLL(), FixedD(), s, pos, ts, out, limit);
  }

  lemma AfterTrees(s: seq<bit>, pos: nat, p: nat, ll: Lengths, d: Lengths, ts: seq<Token>, out: seq<byte>, limit: nat)
    requires pos <= |s| && ReadTrees(s, pos) == Success(p, Trees(ll, d))
    requires ValidHuffmanBlock(ll, d, ts) && TokensPresent(ll, d, s, p, ts)
    requires Expandable(out, ts) && !TooLarge(Expand(out, ts), limit)
    ensures InflateHuffman(s, pos, 2, out, limit) == Success(p + |HuffmanBits(ll, d, ts)|, Expand(out, ts))
  {
    hide TokensPresent, HuffmanBits, ReadTrees, InflateTokens, ValidTree, ValidHuffmanBlock, Expandable, Expand;
    TokensHere(ll, d, s, p, ts, out, limit);
  }

  lemma DynamicHere(s: seq<bit>, pos: nat, h: Header, ts: seq<Token>, out: seq<byte>, limit: nat)
    requires ValidHeader(h) && ValidHuffmanBlock(HeaderLL(h), HeaderD(h), ts)
    requires BodyPresent(s, pos, Dynamic(h, ts))
    requires Expandable(out, ts) && !TooLarge(Expand(out, ts), limit)
    ensures pos <= |s|
    ensures InflateHuffman(s, pos, 2, out, limit) ==
            Success(pos + |HeaderBits(h) + HuffmanBits(HeaderLL(h), HeaderD(h), ts)|, Expand(out, ts))
  {
    hide Here, HuffmanBits, HeaderBits, ReadTrees, InflateHuffman, HeaderLL, HeaderD, ValidTree,
         ValidHuffmanBlock, ExpandRuns, RunsExpandable, Expandable, Expand, TokensPresent;
    var p := pos + |HeaderBits(h)|;
    HereInside(s, pos, HeaderBits(h));
    HeaderHere(s, pos, h);
    AfterTrees(s, pos, p, HeaderLL(h), HeaderD(h), ts, out, limit);
  }

  lemma HuffmanHere(s: seq<bit>, pos: nat, b: Block, out: seq<byte>, limit: nat)
    requires !b.Stored? && ValidBlock(b) && BodyPresent(s, pos, b)
    requires BlockExpandable(out, b) && !TooLarge(ExpandBlock(out, b), limit)
    ensures pos <= |s|
    ensures InflateHuffman(s, pos, BlockType(b), out, limit) == Success(pos + |BodyBits(b, pos)|, ExpandBlock(out, b))
  {
    hide FixedLL, FixedD, Here, HuffmanBits, HeaderBits, InflateHuffman, HeaderLL, HeaderD, ValidHeader,
         ValidHuffmanBlock, Expandable, Expand, TokensPresent;
    match b
    case Fixed(ts) => FixedHere(s, pos, ts, out, limit);
    case Dynamic(h, ts) => DynamicHere(s, pos, h, ts, out, limit);
  }

  lemma BlockHere(data: seq<byte>, pos: nat, b: Block, last: bool, out: seq<byte>, settings: Settings)
    requires ValidBlock(b) && BlockPresent(BytesBits(data), pos, b, last)
    requires BlockExpandable(out, b) && !TooLarge(ExpandBlock(out, b), settings.maxOutputSize)
    requires settings.ignoreNlen || Checked(b)
    ensures pos + 3 <= 8 * |data|
    ensures Next(BytesBits(data), pos, 1) == (if last then 1 else 0)
    ensures Next(BytesBits(data), pos + 1, 2) == BlockType(b)
    ensures
      var end := pos + |BlockBits(b, last, pos)|;
      InflateBlock(data, pos + 3, BlockType(b), out, settings) ==
      if EmptyAtEnd(b, end, data) then Failure(52) else Success(end, ExpandBlock(out, b))
  {
    hide Here, BytesBits, InflateHuffman, InflateStored, ValidBlock, BodyBits, BodyPresent, BlockExpandable, ExpandBlock,
         Next, TooLarge, EmptyAtEnd;
    var s := BytesBits(data);
    BlockHead(s, pos, b, last);
    assert |BlockBits(b, last, pos)| == 3 + |BodyBits(b, pos + 3)|;
    if b.Stored? {
      StoredBody(data, pos + 3, b, out, settings.ignoreNlen);
    } else {
      HuffmanHere(s, pos + 3, b, out, settings.maxOutputSize);
      NotAtEnd(b, pos + |BlockBits(b, last, pos)|, data);
    }
  }

  lemma NotAtEnd(b: Block, end: nat, data: seq<byte>)
    requires !b.Stored? || end < 8 * |data|
    ensures !EmptyAtEnd(b, end, data)
  {
  }

  lemma StoredBody(data: seq<byte>, pos: nat, b: Block, out: seq<byte>, ignoreNlen: bool)
    requires b.Stored? && ValidBlock(b) && BodyPresent(BytesBits(data), pos, b) && (ignoreNlen || Checked(b))
    ensures pos <= 8 * |data| && BlockExpandable(out, b)
    ensures
      var end := pos + |BodyBits(b, pos)|;
      InflateStored(data, pos, out, ignoreNlen) ==
      if EmptyAtEnd(b, end, data) then Failure(52) else Success(end, ExpandBlock(out, b))
  {
    hide Here, BytesBits, InflateStored, LsbBits;
    HereInside(BytesBits(data), pos, BodyBits(b, pos));
    StoredHere(data, pos, b.data, b.fill, b.check, out, ignoreNlen);
  }

  predicate AllChecked(bs: seq<Block>) {
    forall i :: 0 <= i < |bs| ==> Checked(bs[i])
  }

  /** A stream is refused only for an empty stored block at the very end. */
  ghost predicate Refused(data: seq<byte>, pos: nat, bs: seq<Block>)
    requires ValidStream(bs)
  {
    EmptyAtEnd(bs[|bs| - 1], pos + |StreamBits(bs, pos)|, data)
  }

  /** The decoder turns every stream of the format into its meaning, and refuses
      just the streams that end in an empty stored block with no byte behind it. */
  lemma {:induction false} StreamDecodes(data: seq<byte>, pos: nat, bs: seq<Block>, out: seq<byte>, settings: Settings)
    requires ValidStream(bs) && StreamPresent(BytesBits(data), pos, bs)
    requires StreamExpandable(out, bs) && !TooLarge(ExpandStream(out, bs), settings.maxOutputSize)
    requires settings.ignoreNlen || AllChecked(bs)
    ensures InflateFrom(data, pos, out, settings) ==
            if Refused(data, pos, bs) then Failure(52)
            else Success(pos + |StreamBits(bs, pos)|, ExpandStream(out, bs))
    decreases |bs|
  {
    hide Here, BlockBits, BytesBits, InflateBlock, ValidBlock, BlockExpandable, ExpandBlock, BlockPresent, EmptyAtEnd, Next;
    var b, s := bs[0], BytesBits(data);
    var last := |bs| == 1;
    if last {
      assert bs[1..] == [];
      BlockHere(data, pos, b, true, out, settings);
    } else {
      var bb := BlockBits(b, false, pos);
      var rest := bs[1..];
      var out' := ExpandBlock(out, b);
      assert ValidStream(rest);
      StreamStarts(s, pos + |bb|, rest);
      NotAtEnd(b, pos + |bb|, data);
      StreamNonEmpty(rest, pos + |bb|);
      BlockHere(data, pos, b, false, out, settings);
      StreamDecodes(data, pos + |bb|, rest, out', settings);
    }
  }

  lemma StreamStarts(s: seq<bit>, pos: nat, bs: seq<Block>)
    requires ValidStream(bs) && StreamPresent(s, pos, bs)
    ensures pos + 3 <= |s|
  {
    hide BodyPresent, ValidBlock;
  }

  /** What is in the stream entirely is present. */
  lemma {:induction false} HereIsPresent(s: seq<bit>, pos: nat, bs: seq<Block>)
    requires ValidStream(bs) && Here(s, pos, StreamBits(bs, pos))
    ensures StreamPresent(s, pos, bs)
    decreases |bs|
  {
    hide Here, BlockBits, ValidBlock, BlockPresent;
    var last := |bs| == 1;
    var bb := BlockBits(bs[0], last, pos);
    if !last {
      assert ValidStream(bs[1..]);
      HereSplit(s, pos, bb, StreamBits(bs[1..], pos + |bb|));
      HereIsPresent(s, pos + |bb|, bs[1..]);
    }
    BlockIsPresent(s, pos, bs[0], last);
  }

  lemma BlockIsPresent(s: seq<bit>, pos: nat, b: Block, last: bool)
    requires ValidBlock(b) && Here(s, pos, BlockBits(b, last, pos))
    ensures BlockPresent(s, pos, b, last)
  {
    hide Here, ValidBlock, BodyPresent, BodyBits;
    var f: bit := if last then 1 else 0;
    HereSplit(s, pos, [f] + TypeBits(b), BodyBits(b, pos + 3));
    BodyIsPresent(s, pos + 3, b);
  }

  lemma BodyIsPresent(s: seq<bit>, pos: nat, b: Block)
    requires ValidBlock(b) && Here(s, pos, BodyBits(b, pos))
    ensures BodyPresent(s, pos, b)
  {
    hide Here, ValidHeader, ValidHuffmanBlock, HeaderBits, FixedLL, FixedD, LsbBits, BytesBits, TokensPresent, HuffmanBits;
    if b.Fixed? {
      TokensArePresent(FixedLL(), FixedD(), s, pos, b.ts);
    } else if b.Dynamic? {
      DynamicIsPresent(s, pos, b.header, b.ts);
    }
  }

  lemma DynamicIsPresent(s: seq<bit>, pos: nat, h: Header, ts: seq<Token>)
    requires ValidHeader(h) && ValidHuffmanBlock(HeaderLL(h), HeaderD(h), ts)
    requires Here(s, pos, HeaderBits(h) + HuffmanBits(HeaderLL(h), HeaderD(h), ts))
    ensures Here(s, pos, HeaderBits(h)) && TokensPresent(HeaderLL(h), HeaderD(h), s, pos + |HeaderBits(h)|, ts)
  {
    hide Here, ValidHuffmanBlock, HeaderBits, HeaderLL, HeaderD, TokensPresent, HuffmanBits, RunsExpandable, ExpandRuns, RunsCodable, ValidTree;
    HereSplit(s, pos, HeaderBits(h), HuffmanBits(HeaderLL(h), HeaderD(h), ts));
    TokensArePresent(HeaderLL(h), HeaderD(h), s, pos + |HeaderBits(h)|, ts);
  }

  lemma TokensArePresent(ll: Lengths, d: Lengths, s: seq<bit>, pos: nat, ts: seq<Token>)
    requires ValidHuffmanBlock(ll, d, ts) && Here(s, pos, HuffmanBits(ll, d, ts))
    ensures TokensPresent(ll, d, s, pos, ts)
  {
    hide Here, TokensBits, AllCodable;
    HereSplit(s, pos, TokensBits(ll, d, ts), CodeBits(ll, ENDCODE));
    HereSlice(s, pos + |TokensBits(ll, d, ts)|, CodeBits(ll, ENDCODE));
  }

  lemma HereInside(s: seq<bit>, pos: nat, b: seq<bit>)
    requires Here(s, pos, b)
    ensures pos + |b| <= |s|
  {
  }

  lemma StreamNonEmpty(bs: seq<Block>, pos: nat)
    requires ValidStream(bs)
    ensures StreamBits(bs, pos) != []
  {
    hide HuffmanBits, HeaderBits, LsbBits, BytesBits;
  }
}
