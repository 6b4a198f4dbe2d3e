/** Nothing but streams of the format decodes: what the inflater accepts, it has read
    from bits that the format gives to the blocks it stands for. */
module FormatAccepted {
  import opened Bits
  import opened CanonicalCode
  import opened HuffmanTable
  import opened DeflateFormat
  import opened InflateSpec
  import opened FormatDecodes

  // ----- Bits that were read

  lemma SliceIsHere(s: seq<bit>, pos: nat, n: nat)
    requires pos + n <= |s|
    ensures Here(s, pos, Slice(s, pos, n))
  {
  }

  lemma HereJoin(s: seq<bit>, pos: nat, a: seq<bit>, b: seq<bit>)
    requires Here(s, pos, a) && Here(s, pos + |a|, b)
    ensures Here(s, pos, a + b)
  {
    assert s[pos..pos + |a + b|] == s[pos..pos + |a|] + s[pos + |a|..pos + |a| + |b|];
  }

  /** A field stands for its bits. */
  lemma FieldBits(s: seq<bit>, pos: nat, n: nat)
    ensures LsbBits(Next(s, pos, n), n) == Slice(s, pos, n) && Next(s, pos, n) < Pow2(n)
  {
    LsbBitsOfVal(Slice(s, pos, n));
    ValBound(Slice(s, pos, n));
  }

  lemma SymbolBits(lens: Lengths, s: seq<bit>, pos: nat)
    requires SymbolAt(lens, s, pos) != INVALIDSYMBOL
    ensures
      var n := SymbolAt(lens, s, pos);
      n < |lens| && lens[n] > 0 && Slice(s, pos, lens[n]) == CodeBits(lens, n)
  {
  }

  // ----- Tokens

  lemma DistanceAccepted(d: Lengths, s: seq<bit>, lcode: nat, pos: nat)
    requires lcode < NUMLENGTHCODES && ReadDistance(d, s, lcode, pos).Read?
    ensures
      var r := ReadDistance(d, s, lcode, pos);
      var t := r.t;
      && t.Match? && t.lcode == lcode && t.dcode < |d| && d[t.dcode] > 0
      && r.pos == pos + LengthExtra(lcode) + d[t.dcode] + DistanceExtra(t.dcode)
      && Slice(s, pos, r.pos - pos)
         == LsbBits(t.lextra, LengthExtra(lcode)) + (CodeBits(d, t.dcode) + LsbBits(t.dextra, DistanceExtra(t.dcode)))
  {
    hide SymbolAt, LengthExtra, DistanceExtra, Next, LsbBits, CodeBits, Slice, ReadDistance;
    var nl := LengthExtra(lcode);
    var c := SymbolAt(d, s, pos + nl);
    DistanceFields(d, s, lcode, pos);
    FieldBits(s, pos, nl);
    SymbolBits(d, s, pos + nl);
    var nd, p := DistanceExtra(c), pos + nl + d[c];
    FieldBits(s, p, nd);
    ThreeSlices(s, pos, nl, d[c], nd);
    assert nl + d[c] + nd == ReadDistance(d, s, lcode, pos).pos - pos;
  }

  lemma ThreeSlices(s: seq<bit>, pos: nat, a: nat, b: nat, c: nat)
    ensures Slice(s, pos, a + b + c) == Slice(s, pos, a) + (Slice(s, pos + a, b) + Slice(s, pos + a + b, c))
  {
    hide Slice;
    assert a + b + c == a + (b + c);
    SliceSplit(s, pos, a, b + c);
    SliceSplit(s, pos + a, b, c);
  }

  lemma DistanceFields(d: Lengths, s: seq<bit>, lcode: nat, pos: nat)
    requires lcode < NUMLENGTHCODES && ReadDistance(d, s, lcode, pos).Read?
    ensures
      var nl, c := LengthExtra(lcode), SymbolAt(d, s, pos + LengthExtra(lcode));
      && c <= 29 && c < |d|
      && ReadDistance(d, s, lcode, pos) ==
         Read(pos + nl + d[c] + DistanceExtra(c), Match(lcode, Next(s, pos, nl), c, Next(s, pos + nl + d[c], DistanceExtra(c))))
  {
    hide SymbolAt, LengthExtra, DistanceExtra, Slice, Val;
  }

  lemma TokenAccepted(ll: Lengths, d: Lengths, s: seq<bit>, pos: nat)
    requires ReadToken(ll, d, s, pos).Read?
    ensures
      var r := ReadToken(ll, d, s, pos);
      && ValidToken(r.t) && Codable(ll, d, r.t) && r.pos == pos + |TokenBits(ll, d, r.t)|
      && Slice(s, pos, r.pos - pos) == TokenBits(ll, d, r.t)
  {
    hide SymbolAt, LengthExtra, DistanceExtra, LengthBase, DistanceBase, LsbBits, CodeBits, ReadDistance;
    SymbolBits(ll, s, pos);
    var c := SymbolAt(ll, s, pos);
    if c > 255 {
      var p := pos + ll[c];
      DistanceAccepted(d, s, c - FIRSTLENGTHCODE, p);
      var r := ReadToken(ll, d, s, pos);
      SliceSplit(s, pos, ll[c], r.pos - p);
      var t := r.t;
      var x, y, z := CodeBits(ll, c), LsbBits(t.lextra, LengthExtra(t.lcode)), CodeBits(d, t.dcode) + LsbBits(t.dextra, DistanceExtra(t.dcode));
      assert x + (y + z) == x + y + z;
    }
  }

  lemma EndAccepted(ll: Lengths, d: Lengths, s: seq<bit>, pos: nat)
    requires ReadToken(ll, d, s, pos).EndOfBlock?
    ensures ENDCODE < |ll| && ll[ENDCODE] > 0 && ReadToken(ll, d, s, pos).pos == pos + ll[ENDCODE]
    ensures Slice(s, pos, ll[ENDCODE]) == CodeBits(ll, ENDCODE)
  {
    hide SymbolAt, ReadDistance;
    SymbolBits(ll, s, pos);
  }

  lemma TokensJoin(ll: Lengths, d: Lengths, s: seq<bit>, pos: nat, t: Token, rest: seq<Token>)
    requires ValidToken(t) && Codable(ll, d, t) && ValidHuffmanBlock(ll, d, rest)
    requires Here(s, pos, TokenBits(ll, d, t)) && TokensPresent(ll, d, s, pos + |TokenBits(ll, d, t)|, rest)
    ensures ValidHuffmanBlock(ll, d, [t] + rest) && TokensPresent(ll, d, s, pos, [t] + rest)
    ensures |HuffmanBits(ll, d, [t] + rest)| == |TokenBits(ll, d, t)| + |HuffmanBits(ll, d, rest)|
  {
    hide Here, TokenBits, Codable, ValidToken, CodeBits, Slice;
    var ts := [t] + rest;
    assert ts[1..] == rest;
    assert TokensBits(ll, d, ts) == TokenBits(ll, d, t) + TokensBits(ll, d, rest);
    HereJoin(s, pos, TokenBits(ll, d, t), TokensBits(ll, d, rest));
  }

  lemma {:induction false} TokensAccepted(ll: Lengths, d: Lengths, s: seq<bit>, pos: nat, out: seq<byte>, limit: nat) returns (ts: seq<Token>)
    requires pos <= |s| && InflateTokens(ll, d, s, pos, out, limit).Success?
    ensures ValidHuffmanBlock(ll, d, ts) && TokensPresent(ll, d, s, pos, ts)
    ensures Expandable(out, ts)
    ensures InflateTokens(ll, d, s, pos, out, limit) == Success(pos + |HuffmanBits(ll, d, ts)|, Expand(out, ts))
    decreases |s| - pos
  {
    hide ReadToken, Here, TokensPresent, TokenBits, Codable, ValidHuffmanBlock, HuffmanBits, Fits, Apply, TooLarge;
    var r := ReadToken(ll, d, s, pos);
    if r.EndOfBlock? {
      ts := [];
      EndAccepted(ll, d, s, pos);
      NoTokensPresent(ll, d, s, pos);
    } else {
      TokenAccepted(ll, d, s, pos);
      SliceIsHere(s, pos, r.pos - pos);
      var rest := TokensAccepted(ll, d, s, r.pos, Apply(out, r.t), limit);
      TokensJoin(ll, d, s, pos, r.t, rest);
      ts := [r.t] + rest;
      assert ts[1..] == rest;
    }
  }

  lemma NoTokensPresent(ll: Lengths, d: Lengths, s: seq<bit>, pos: nat)
    requires pos <= |s| && ENDCODE < |ll| && ll[ENDCODE] > 0 && Slice(s, pos, ll[ENDCODE]) == CodeBits(ll, ENDCODE)
    ensures ValidHuffmanBlock(ll, d, []) && TokensPresent(ll, d, s, pos, []) && |HuffmanBits(ll, d, [])| == ll[ENDCODE]
  {
  }

  // ----- The header of a dynamic block

  lemma RunAccepted(cl: Lengths, s: seq<bit>, pos: nat)
    requires |cl| == 19 && SymbolAt(cl, s, pos) <= 18
    ensures
      var c := SymbolAt(cl, s, pos);
      var r := RunAt(s, pos + cl[c], c);
      && cl[c] > 0 && RunSymbol(r) == c && |RunBits(cl, r)| == cl[c] + RunExtraBits(r)
      && Slice(s, pos, cl[c] + RunExtraBits(r)) == RunBits(cl, r)
  {
    hide SymbolAt, LsbBits, CodeBits, Next, Slice;
    SymbolBits(cl, s, pos);
    var c := SymbolAt(cl, s, pos);
    var r := RunAt(s, pos + cl[c], c);
    FieldBits(s, pos + cl[c], RunExtraBits(r));
    SliceSplit(s, pos, cl[c], RunExtraBits(r));
    assert Pow2(0) == 1 && Pow2(2) == 4 && Pow2(3) == 8 && Pow2(7) == 128;
    assert RunExtra(r) == Next(s, pos + cl[c], RunExtraBits(r));
  }

  lemma {:induction false} RunsAccepted(cl: Lengths, s: seq<bit>, pos: nat, total: nat, acc: Lengths) returns (rs: seq<Run>)
    requires |cl| == 19 && pos <= |s| && |acc| <= total && ReadRuns(cl, s, pos, total, acc).Success?
    ensures RunsCodable(cl, rs) && RunsExpandable(acc, rs) && Here(s, pos, RunsBits(cl, rs))
    ensures ReadRuns(cl, s, pos, total, acc) == Success(pos + |RunsBits(cl, rs)|, ExpandRuns(acc, rs))
    decreases |s| - pos
  {
    hide SymbolAt, Here, RunBits, ApplyRun, RunAt, Slice;
    if |acc| == total {
      rs := [];
      NothingHere(s, pos);
    } else {
      var c := SymbolAt(cl, s, pos);
      var r := RunAt(s, pos + cl[c], c);
      var p := pos + cl[c] + RunExtraBits(r);
      RunAccepted(cl, s, pos);
      SliceIsHere(s, pos, p - pos);
      assert r.Repeat? ==> acc != [];
      var rest := RunsAccepted(cl, s, p, total, ApplyRun(acc, r));
      rs := [r] + rest;
      assert rs[1..] == rest;
      HereJoin(s, pos, RunBits(cl, r), RunsBits(cl, rest));
    }
  }

  lemma NothingHere(s: seq<bit>, pos: nat)
    requires pos <= |s|
    ensures Here(s, pos, [])
  {
  }

  lemma {:induction false} ClAccepted(s: seq<bit>, pos: nat, cl: Lengths, n: nat)
    requires |cl| == 19 && n <= 19 && forall j :: 0 <= j < n ==> cl[CLCL_ORDER[j]] == Next(s, pos + 3 * j, 3)
    ensures ClBits(cl, n) == Slice(s, pos, 3 * n)
  {
    hide Next, LsbBits;
    if n > 0 {
      ClAccepted(s, pos, cl, n - 1);
      FieldBits(s, pos + 3 * (n - 1), 3);
      SliceSplit(s, pos, 3 * (n - 1), 3);
    }
  }

  lemma HeaderAccepted(s: seq<bit>, pos: nat) returns (h: Header)
    requires pos <= |s| && ReadTrees(s, pos).Success?
    ensures ValidHeader(h) && Here(s, pos, HeaderBits(h))
    ensures ReadTrees(s, pos) == Success(pos + |HeaderBits(h)|, Trees(HeaderLL(h), HeaderD(h)))
  {
    hide ValidTree, Here, ReadCl, ClBits, RunsBits, ReadRuns, LsbBits, Slice, Val, ExpandRuns, RunsExpandable, RunsCodable;
    FieldBits(s, pos, 5);
    FieldBits(s, pos + 5, 5);
    FieldBits(s, pos + 10, 4);
    assert Pow2(4) == 16 && Pow2(5) == 32;
    var hlit, hdist, hclen := Next(s, pos, 5) + 257, Next(s, pos + 5, 5) + 1, Next(s, pos + 10, 4) + 4;
    var cl := ReadCl(s, pos + 14, hclen);
    var start := pos + 14 + 3 * hclen;
    var rs := RunsAccepted(cl, s, start, hlit + hdist, []);
    h := Header(hlit, hdist, hclen, cl, rs);
    ClZeros(s, pos + 14, hclen);
    ClAccepted(s, pos + 14, cl, hclen);
    RunsFit(cl, rs);
    HeaderJoin(s, pos, h);
  }

  lemma RunsFit(cl: Lengths, rs: seq<Run>)
    requires RunsCodable(cl, rs)
    ensures |cl| == 19
  {
  }

  /** The lengths that were sent, and zeros for the others. */
  lemma ClZeros(s: seq<bit>, pos: nat, n: nat)
    requires n <= 19
    ensures forall j :: 0 <= j < n ==> ReadCl(s, pos, n)[CLCL_ORDER[j]] == Next(s, pos + 3 * j, 3)
    ensures forall j :: n <= j < 19 ==> ReadCl(s, pos, n)[CLCL_ORDER[j]] == 0
  {
    hide ReadCl, Next;
    forall j | 0 <= j < 19
      ensures ReadCl(s, pos, n)[CLCL_ORDER[j]] == if j < n then Next(s, pos + 3 * j, 3) else 0
    {
      ReadClAt(s, pos, n, j);
    }
  }

  lemma HeaderJoin(s: seq<bit>, pos: nat, h: Header)
    requires ValidHeader(h) && pos + 14 + 3 * h.hclen <= |s|
    requires Next(s, pos, 5) == h.hlit - 257 && Next(s, pos + 5, 5) == h.hdist - 1 && Next(s, pos + 10, 4) == h.hclen - 4
    requires ClBits(h.cl, h.hclen) == Slice(s, pos + 14, 3 * h.hclen) && Here(s, pos + 14 + 3 * h.hclen, RunsBits(h.cl, h.runs))
    ensures Here(s, pos, HeaderBits(h)) && |HeaderBits(h)| == 14 + 3 * h.hclen + |RunsBits(h.cl, h.runs)|
  {
    hide ValidTree, Here, ClBits, RunsBits, Next, LsbBits, ExpandRuns, RunsExpandable, HeaderLL, HeaderD, Slice;
    FieldBits(s, pos, 5);
    FieldBits(s, pos + 5, 5);
    FieldBits(s, pos + 10, 4);
    SliceIsHere(s, pos, 5);
    SliceIsHere(s, pos + 5, 5);
    SliceIsHere(s, pos + 10, 4);
    SliceIsHere(s, pos + 14, 3 * h.hclen);
    var a, b, c := Slice(s, pos, 5), Slice(s, pos + 5, 5), Slice(s, pos + 10, 4);
    var clb, rb := ClBits(h.cl, h.hclen), RunsBits(h.cl, h.runs);
    HereJoin(s, pos, a, b);
    HereJoin(s, pos, a + b, c);
    HereJoin(s, pos, a + b + c, clb);
    HereJoin(s, pos, a + b + c + clb, rb);
  }

  // ----- Stored blocks

  lemma BytesHere(data: seq<byte>, i: nat, j: nat)
    requires i <= j <= |data|
    ensures Here(BytesBits(data), 8 * i, BytesBits(data[i..j]))
  {
    BytesBitsSplit(data, i);
    BytesBitsSplit(data[i..], j - i);
    assert data[i..][..j - i] == data[i..j];
    assert BytesBits(data)[8 * i..8 * j] == BytesBits(data)[8 * i..][..8 * (j - i)];
  }

  lemma FieldHere(s: seq<bit>, pos: nat, n: nat)
    requires pos + n <= |s|
    ensures Here(s, pos, LsbBits(Next(s, pos, n), n)) && Next(s, pos, n) < Pow2(n)
  {
    hide LsbBits, Next, Here;
    FieldBits(s, pos, n);
    SliceIsHere(s, pos, n);
  }

  lemma WordHere(data: seq<byte>, i: nat)
    requires i + 2 <= |data|
    ensures Here(BytesBits(data), 8 * i, LsbBits(Word16(data[i], data[i + 1]), 16))
  {
    hide BytesBits, LsbBits, Here;
    WordBits(data, i);
    FieldHere(BytesBits(data), 8 * i, 16);
  }

  /** What the stored block reading has found when it succeeds. */
  lemma StoredFields(data: seq<byte>, pos: nat, out: seq<byte>, ignoreNlen: bool) returns (i: nat, len: nat, check: nat)
    requires InflateStored(data, pos, out, ignoreNlen).Success?
    ensures 8 * i == pos + PadTo8(pos) && len <= 65535 && check <= 65535 && i + 4 < |data| && i + 4 + len <= |data|
    ensures Word16(data[i], data[i + 1]) == len && Word16(data[i + 2], data[i + 3]) == check
    ensures ignoreNlen || check == 65535 - len
    ensures InflateStored(data, pos, out, ignoreNlen) == Success(8 * (i + 4 + len), out + data[i + 4..i + 4 + len])
  {
    i := (pos + 7) / 8;
    len, check := Word16(data[i], data[i + 1]), Word16(data[i + 2], data[i + 3]);
  }

  lemma StoredAccepted(data: seq<byte>, pos: nat, out: seq<byte>, ignoreNlen: bool) returns (b: Block)
    requires InflateStored(data, pos, out, ignoreNlen).Success?
    ensures b.Stored? && (ignoreNlen || Checked(b)) && ValidBlock(b) && BodyPresent(BytesBits(data), pos, b)
    ensures InflateStored(data, pos, out, ignoreNlen) == Success(pos + |BodyBits(b, pos)|, out + b.data)
    ensures !EmptyAtEnd(b, pos + |BodyBits(b, pos)|, data)
  {
    hide Here, BytesBits, LsbBits, Next, BodyBits, BodyPresent, InflateStored, Word16, PadTo8;
    var i, len, check := StoredFields(data, pos, out, ignoreNlen);
    var s, n := BytesBits(data), PadTo8(pos);
    b := Stored(data[i + 4..i + 4 + len], Next(s, pos, n), check);
    FieldHere(s, pos, n);
    WordHere(data, i);
    WordHere(data, i + 2);
    BytesHere(data, i + 4, i + 4 + len);
    StoredJoin(s, pos, b);
  }

  lemma StoredJoin(s: seq<bit>, pos: nat, b: Block)
    requires b.Stored? && |b.data| <= 65535 && b.check <= 65535
    requires var n := PadTo8(pos);
             && Here(s, pos, LsbBits(b.fill, n)) && Here(s, pos + n, LsbBits(|b.data|, 16))
             && Here(s, pos + n + 16, LsbBits(b.check, 16)) && Here(s, pos + n + 32, BytesBits(b.data))
    ensures BodyPresent(s, pos, b) && |BodyBits(b, pos)| == PadTo8(pos) + 32 + 8 * |b.data|
  {
    hide Here, BytesBits, LsbBits;
    var x, y, z := LsbBits(b.fill, PadTo8(pos)), LsbBits(|b.data|, 16), LsbBits(b.check, 16);
    HereJoin(s, pos, x, y);
    HereJoin(s, pos, x + y, z);
    HereJoin(s, pos, x + y + z, BytesBits(b.data));
  }

  // ----- Blocks

  lemma HuffmanAccepted(s: seq<bit>, pos: nat, btype: nat, out: seq<byte>, limit: nat) returns (b: Block)
    requires pos <= |s| && 1 <= btype <= 2 && InflateHuffman(s, pos, btype, out, limit).Success?
    ensures BlockType(b) == btype && ValidBlock(b) && BodyPresent(s, pos, b) && BlockExpandable(out, b)
    ensures InflateHuffman(s, pos, btype, out, limit) == Success(pos + |BodyBits(b, pos)|, ExpandBlock(out, b))
  {
    hide FixedLL, FixedD, Here, HuffmanBits, HeaderBits, HeaderLL, HeaderD, ValidTree, ReadTrees, InflateTokens,
         ValidHuffmanBlock, ValidHeader, Expandable, Expand, TokensPresent;
    if btype == 1 {
      var ts := TokensAccepted(FixedLL(), FixedD(), s, pos, out, limit);
      b := Fixed(ts);
    } else {
      var h := HeaderAccepted(s, pos);
      b := DynamicAccepted(s, pos, h, out, limit);
    }
  }

  lemma DynamicAccepted(s: seq<bit>, pos: nat, h: Header, out: seq<byte>, limit: nat) returns (b: Block)
    requires pos <= |s| && ValidHeader(h) && Here(s, pos, HeaderBits(h))
    requires ReadTrees(s, pos) == Success(pos + |HeaderBits(h)|, Trees(HeaderLL(h), HeaderD(h)))
    requires InflateHuffman(s, pos, 2, out, limit).Success?
    ensures b.Dynamic? && ValidBlock(b) && BodyPresent(s, pos, b) && BlockExpandable(out, b)
    ensures InflateHuffman(s, pos, 2, out, limit) == Success(pos + |BodyBits(b, pos)|, ExpandBlock(out, b))
  {
    hide Here, HuffmanBits, HeaderBits, HeaderLL, HeaderD, ValidTree, ReadTrees, InflateTokens,
         ValidHuffmanBlock, Expandable, Expand, TokensPresent, RunsExpandable, ExpandRuns, RunsCodable;
    var p := pos + |HeaderBits(h)|;
    var ts := TokensAccepted(HeaderLL(h), HeaderD(h), s, p, out, limit);
    b := Dynamic(h, ts);
  }

  /** The three bits of a block's header. */
  lemma HeadBits(s: seq<bit>, pos: nat, b: Block)
    requires pos + 3 <= |s| && Next(s, pos + 1, 2) == BlockType(b)
    ensures Next(s, pos, 1) <= 1 && Here(s, pos, [if Next(s, pos, 1) == 1 then 1 else 0] + TypeBits(b))
  {
    hide Here;
    FieldBits(s, pos, 1);
    FieldBits(s, pos + 1, 2);
    assert Pow2(1) == 2;
    var f, w := Slice(s, pos, 1), Slice(s, pos + 1, 2);
    assert f == [f[0]] && Val(f) == f[0] + 2 * Val(f[1..]);
    assert w[1..] == [w[1]] && Val(w) == w[0] + 2 * Val(w[1..]);
    assert w == [w[0], w[1]];
    assert TypeBits(b) == w;
    SliceIsHere(s, pos, 1);
    SliceIsHere(s, pos + 1, 2);
    HereJoin(s, pos, f, w);
  }

  lemma BlockAccepted(data: seq<byte>, pos: nat, out: seq<byte>, settings: Settings) returns (b: Block)
    requires pos + 3 <= 8 * |data|
    requires InflateBlock(data, pos + 3, Next(BytesBits(data), pos + 1, 2), out, settings).Success?
    ensures ValidBlock(b) && BlockPresent(BytesBits(data), pos, b, Next(BytesBits(data), pos, 1) == 1) && BlockExpandable(out, b)
    ensures BlockType(b) == Next(BytesBits(data), pos + 1, 2) && (settings.ignoreNlen || Checked(b))
    ensures
      var end := pos + 3 + |BodyBits(b, pos + 3)|;
      && InflateBlock(data, pos + 3, BlockType(b), out, settings) == Success(end, ExpandBlock(out, b))
      && !EmptyAtEnd(b, end, data) && !TooLarge(ExpandBlock(out, b), settings.maxOutputSize)
  {
    hide Here, BytesBits, InflateHuffman, InflateStored, ValidHeader, ValidHuffmanBlock, HuffmanBits, HeaderBits,
         HeaderLL, HeaderD, FixedLL, FixedD, LsbBits, Expand, Expandable, Next, TooLarge, TokensPresent;
    var s := BytesBits(data);
    var btype := Next(s, pos + 1, 2);
    FieldBits(s, pos + 1, 2);
    assert Pow2(2) == 4;
    if btype == 0 {
      b := StoredAccepted(data, pos + 3, out, settings.ignoreNlen);
    } else {
      b := HuffmanAccepted(s, pos + 3, btype, out, settings.maxOutputSize);
    }
    HeadBits(s, pos, b);
  }

  // ----- Streams

  /** The blocks are in the input from pos to p and decode to v behind `out`. */
  ghost predicate Reads(data: seq<byte>, pos: nat, bs: seq<Block>, out: seq<byte>, settings: Settings, p: nat, v: seq<byte>) {
    && ValidStream(bs) && (settings.ignoreNlen || AllChecked(bs)) && StreamPresent(BytesBits(data), pos, bs) && p == pos + |StreamBits(bs, pos)|
    && StreamExpandable(out, bs) && v == ExpandStream(out, bs) && !TooLarge(v, settings.maxOutputSize)
    && !Refused(data, pos, bs)
  }

  lemma {:induction false} StreamAccepted(data: seq<byte>, pos: nat, out: seq<byte>, settings: Settings) returns (bs: seq<Block>)
    requires InflateFrom(data, pos, out, settings).Success?
    ensures
      var r := InflateFrom(data, pos, out, settings);
      Reads(data, pos, bs, out, settings, r.pos, r.value)
    decreases if pos <= 8 * |data| then 8 * |data| - pos else 0
  {
    hide Here, BytesBits, InflateBlock, ValidBlock, BlockPresent, BodyBits, BlockExpandable, ExpandBlock, Next, TooLarge;
    var s := BytesBits(data);
    var b := BlockAccepted(data, pos, out, settings);
    var p, out' := pos + 3 + |BodyBits(b, pos + 3)|, ExpandBlock(out, b);
    if Next(s, pos, 1) == 1 {
      bs := [b];
      OneBlock(data, pos, b, out, settings);
    } else {
      var rest := StreamAccepted(data, p, out', settings);
      bs := [b] + rest;
      var r := InflateFrom(data, pos, out, settings);
      AnotherBlock(data, pos, b, rest, out, settings, r.pos, r.value);
    }
  }

  lemma OneBlock(data: seq<byte>, pos: nat, b: Block, out: seq<byte>, settings: Settings)
    requires ValidBlock(b) && BlockPresent(BytesBits(data), pos, b, true) && BlockExpandable(out, b)
    requires settings.ignoreNlen || Checked(b)
    requires !EmptyAtEnd(b, pos + 3 + |BodyBits(b, pos + 3)|, data) && !TooLarge(ExpandBlock(out, b), settings.maxOutputSize)
    ensures Reads(data, pos, [b], out, settings, pos + 3 + |BodyBits(b, pos + 3)|, ExpandBlock(out, b))
  {
    hide ValidBlock, BlockPresent, BodyBits, BlockExpandable, ExpandBlock, TooLarge, EmptyAtEnd, Here;
    var bs, v := [b], ExpandBlock(out, b);
    assert bs[1..] == [];
    assert |StreamBits(bs, pos)| == |BlockBits(b, true, pos)| == 3 + |BodyBits(b, pos + 3)|;
    assert StreamExpandable(v, []) && ExpandStream(v, []) == v;
    assert StreamExpandable(out, bs) && ExpandStream(out, bs) == v;
    assert ValidStream(bs) && StreamPresent(BytesBits(data), pos, bs);
    assert !Refused(data, pos, bs);
  }

  lemma AnotherBlock(data: seq<byte>, pos: nat, b: Block, rest: seq<Block>, out: seq<byte>, settings: Settings, p: nat, v: seq<byte>)
    requires ValidBlock(b) && BlockPresent(BytesBits(data), pos, b, false) && BlockExpandable(out, b)
    requires settings.ignoreNlen || Checked(b)
    requires Reads(data, pos + 3 + |BodyBits(b, pos + 3)|, rest, ExpandBlock(out, b), settings, p, v)
    ensures Reads(data, pos, [b] + rest, out, settings, p, v)
  {
    hide ValidBlock, BlockPresent, BodyBits, BlockExpandable, ExpandBlock, TooLarge, EmptyAtEnd;
    var bs := [b] + rest;
    assert bs[1..] == rest && bs[|bs| - 1] == rest[|rest| - 1];
    assert |BlockBits(b, false, pos)| == 3 + |BodyBits(b, pos + 3)|;
    assert StreamBits(bs, pos) == BlockBits(b, false, pos) + StreamBits(rest, pos + |BlockBits(b, false, pos)|);
  }

  /** What the inflater accepts is just what the format spells; the word behind the length
      of a stored block may be anything if it is to be ignored. */
  lemma InflatesExactly(data: seq<byte>, pos: nat, out: seq<byte>, settings: Settings, p: nat, v: seq<byte>)
    ensures InflateFrom(data, pos, out, settings) == Success(p, v) <==> exists bs :: Reads(data, pos, bs, out, settings, p, v)
  {
    hide InflateFrom, StreamPresent, StreamBits, StreamExpandable, ExpandStream, Refused, TooLarge, ValidStream, BytesBits;
    if InflateFrom(data, pos, out, settings) == Success(p, v) {
      var bs := StreamAccepted(data, pos, out, settings);
      assert Reads(data, pos, bs, out, settings, p, v);
    }
    if bs :| Reads(data, pos, bs, out, settings, p, v) {
      StreamDecodes(data, pos, bs, out, settings);
    }
  }

  /** A limit on the output refuses what is larger and changes nothing else. */
  lemma LimitOnlyRefuses(data: seq<byte>, pos: nat, out: seq<byte>, settings: Settings, p: nat, v: seq<byte>)
    ensures InflateFrom(data, pos, out, settings) == Success(p, v) <==>
            InflateFrom(data, pos, out, settings.(maxOutputSize := 0)) == Success(p, v) && !TooLarge(v, settings.maxOutputSize)
  {
    hide InflateFrom, StreamPresent, StreamBits, StreamExpandable, ExpandStream, Refused, ValidStream, BytesBits;
    var free := settings.(maxOutputSize := 0);
    InflatesExactly(data, pos, out, settings, p, v);
    InflatesExactly(data, pos, out, free, p, v);
    if bs :| Reads(data, pos, bs, out, settings, p, v) {
      assert Reads(data, pos, bs, out, free, p, v);
    }
    if bs :| Reads(data, pos, bs, out, free, p, v) && !TooLarge(v, settings.maxOutputSize) {
      assert Reads(data, pos, bs, out, settings, p, v);
    }
  }

  // ----- Bits past the end of the input

  /** The end code of a block; a stored block has none. */
  ghost function EndCode(b: Block): seq<bit>
    requires ValidBlock(b)
  {
    match b
    case Stored(_, _, _) => []
    case Fixed(_) => CodeBits(FixedLL(), ENDCODE)
    case Dynamic(h, _) => CodeBits(HeaderLL(h), ENDCODE)
  }

  /** The last block ends in an end code that the end of the input cuts off, and the
      bits that are missing are zeros. */
  ghost predicate EndCutOff(data: seq<byte>, pos: nat, bs: seq<Block>)
    requires ValidStream(bs)
  {
    var p, c := pos + |StreamBits(bs, pos)|, EndCode(bs[|bs| - 1]);
    && p - |c| <= 8 * |data| < p
    && forall i :: 0 <= i < |c| && p - |c| + i >= 8 * |data| ==> c[i] == 0
  }

  /** The bits are those of s from pos on, continued with zeros, and only the code c at
      their end may go past the end of s. */
  predicate Spans(s: seq<bit>, pos: nat, b: seq<bit>, c: seq<bit>) {
    && |c| <= |b| && Slice(s, pos, |b|) == b
    && pos + |b| - |c| <= |s| && Slice(s, pos + |b| - |c|, |c|) == c
  }

  lemma SpansBehind(s: seq<bit>, pos: nat, a: seq<bit>, b: seq<bit>, c: seq<bit>)
    requires Slice(s, pos, |a|) == a && Spans(s, pos + |a|, b, c)
    ensures Spans(s, pos, a + b, c)
  {
    hide Slice;
    SliceSplit(s, pos, |a|, |b|);
  }

  lemma HereSpans(s: seq<bit>, pos: nat, b: seq<bit>)
    requires Here(s, pos, b)
    ensures Spans(s, pos, b, [])
  {
    HereSlice(s, pos, b);
    HereInside(s, pos, b);
  }

  lemma TokensSpan(ll: Lengths, d: Lengths, s: seq<bit>, pos: nat, ts: seq<Token>)
    requires ValidHuffmanBlock(ll, d, ts) && TokensPresent(ll, d, s, pos, ts)
    ensures Spans(s, pos, HuffmanBits(ll, d, ts), CodeBits(ll, ENDCODE))
  {
    hide Here, TokensBits, AllCodable, CodeBits, Slice;
    var a, c := TokensBits(ll, d, ts), CodeBits(ll, ENDCODE);
    HereSlice(s, pos, a);
    HereInside(s, pos, a);
    SliceSplit(s, pos, |a|, |c|);
  }

  lemma BodySpan(s: seq<bit>, pos: nat, b: Block)
    requires ValidBlock(b) && BodyPresent(s, pos, b)
    ensures Spans(s, pos, BodyBits(b, pos), EndCode(b))
  {
    hide Here, ValidHuffmanBlock, HeaderBits, HeaderLL, HeaderD, FixedLL, FixedD, LsbBits, BytesBits,
         ValidTree, RunsExpandable, ExpandRuns, RunsCodable, TokensPresent, HuffmanBits, Slice, CodeBits, Spans;
    match b
    case Stored(_, _, _) =>
      HereSpans(s, pos, BodyBits(b, pos));
    case Fixed(ts) =>
      TokensSpan(FixedLL(), FixedD(), s, pos, ts);
    case Dynamic(h, ts) =>
      var a := HeaderBits(h);
      HereSlice(s, pos, a);
      TokensSpan(HeaderLL(h), HeaderD(h), s, pos + |a|, ts);
      SpansBehind(s, pos, a, HuffmanBits(HeaderLL(h), HeaderD(h), ts), CodeBits(HeaderLL(h), ENDCODE));
  }

  lemma BlockSpan(s: seq<bit>, pos: nat, b: Block, last: bool)
    requires ValidBlock(b) && BlockPresent(s, pos, b, last)
    ensures Spans(s, pos, BlockBits(b, last, pos), EndCode(b))
  {
    hide Here, ValidBlock, BodyPresent, BodyBits, EndCode, Slice, Spans;
    var f := [if last then 1 else 0] + TypeBits(b);
    BodySpan(s, pos + 3, b);
    HereSlice(s, pos, f);
    SpansBehind(s, pos, f, BodyBits(b, pos + 3), EndCode(b));
  }

  /** The bits of a stream are those of the input from pos on, continued with zeros, and
      only the end code of the last block may go past the end. */
  lemma {:induction false} StreamSpan(s: seq<bit>, pos: nat, bs: seq<Block>)
    requires ValidStream(bs) && StreamPresent(s, pos, bs)
    ensures Spans(s, pos, StreamBits(bs, pos), EndCode(bs[|bs| - 1]))
    decreases |bs|
  {
    hide ValidBlock, BlockPresent, BlockBits, EndCode, Slice, Spans;
    var b := bs[0];
    BlockSpan(s, pos, b, |bs| == 1);
    if |bs| > 1 {
      var rest := bs[1..];
      assert ValidStream(rest) && rest[|rest| - 1] == bs[|bs| - 1];
      var bb := BlockBits(b, false, pos);
      StreamSpan(s, pos + |bb|, rest);
      assert Slice(s, pos, |bb|) == bb by { SpansSlice(s, pos, bb, EndCode(b)); }
      SpansBehind(s, pos, bb, StreamBits(rest, pos + |bb|), EndCode(bs[|bs| - 1]));
    }
  }

  lemma SpansSlice(s: seq<bit>, pos: nat, b: seq<bit>, c: seq<bit>)
    requires Spans(s, pos, b, c)
    ensures Slice(s, pos, |b|) == b
  {
  }

  /** The inflater runs past the end of the input exactly if the end code of the last
      block is cut off there and lacks nothing but zeros. */
  lemma PastTheEnd(data: seq<byte>, pos: nat, bs: seq<Block>, out: seq<byte>, settings: Settings, p: nat, v: seq<byte>)
    requires Reads(data, pos, bs, out, settings, p, v)
    ensures Slice(BytesBits(data), pos, p - pos) == StreamBits(bs, pos)
    ensures p > 8 * |data| <==> !bs[|bs| - 1].Stored? && EndCutOff(data, pos, bs)
  {
    hide StreamPresent, StreamExpandable, ExpandStream, Refused, TooLarge, BytesBits, StreamBits, ValidBlock;
    StreamSpan(BytesBits(data), pos, bs);
  }
}
