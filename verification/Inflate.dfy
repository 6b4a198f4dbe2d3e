/** The decompressor: table-driven, buffered, and in agreement with InflateSpec on
    every input. */
module Inflate {
  import opened Bits
  import opened CanonicalCode
  import opened HuffmanTable
  import opened DeflateFormat
  import opened InflateSpec
  import opened ByteVectors
  import BR = BitReader
  import HT = HuffmanTree
  import FormatDecodes

  // ----- Copying a match

  lemma {:induction false} CopyBackStep(out: seq<byte>, distance: nat, n: nat)
    requires 1 <= distance <= |out|
    ensures CopyBack(out, distance, n + 1) ==
            CopyBack(out, distance, n) + [CopyBack(out, distance, n)[|out| + n - distance]]
    decreases n
  {
    if n > 0 {
      CopyBackStep(out + [out[|out| - distance]], distance, n - 1);
    }
  }

  lemma {:induction false} CopyBackPeriod(out: seq<byte>, distance: nat, n: nat, i: nat)
    requires 1 <= distance <= |out| <= i < |out| + n
    ensures CopyBack(out, distance, n)[i] == CopyBack(out, distance, n)[i - distance]
    decreases n
  {
    CopyBackStep(out, distance, n - 1);
    if i < |out| + n - 1 {
      CopyBackPeriod(out, distance, n - 1, i);
    }
  }

  lemma CopyNothing(v: seq<byte>, before: seq<byte>, distance: nat)
    requires 1 <= distance <= |before| <= |v| && v[..|before|] == before
    ensures v[..|before| + 0] == CopyBack(before, distance, 0)
  {
  }

  /** One more byte, taken one or two distances back. */
  lemma CopyByte(v: seq<byte>, before: seq<byte>, distance: nat, n: nat, src: nat)
    requires 1 <= distance <= |before| && |v| > |before| + n
    requires v[..|before| + n] == CopyBack(before, distance, n)
    requires src == |before| + n - distance || (n >= distance && src == |before| + n - 2 * distance)
    ensures v[|before| + n := v[src]][..|before| + n + 1] == CopyBack(before, distance, n + 1)
  {
    var r := CopyBack(before, distance, n);
    CopyBackStep(before, distance, n);
    if src != |before| + n - distance {
      CopyBackPeriod(before, distance, n, |before| + n - distance);
    }
    assert v[src] == r[src] == r[|before| + n - distance];
    assert v[|before| + n := v[src]][..|before| + n + 1] == v[..|before| + n] + [v[src]];
  }

  /** The first `distance` bytes are copied as a block; the rest is copied byte by
      byte from where that block came from. */
  method CopyMatch(out: ByteVector, distance: nat, length: nat)
    requires 1 <= distance <= |out.data|
    modifies out
    ensures out.data == CopyBack(old(out.data), distance, length)
  {
    hide CopyBack;
    ghost var before := out.data;
    var size := |out.data|;
    var start := size;
    var backward := start - distance;
    out.Resize(size + length);
    var v := out.data;
    var block := if distance < length then distance else length;
    CopyNothing(v, before, distance);
    for i := 0 to block
      invariant |v| == size + length
      invariant v[..size + i] == CopyBack(before, distance, i)
    {
      CopyByte(v, before, distance, i, backward + i);
      v := v[size + i := v[backward + i]];
    }
    start := start + block;
    for forward := block to length
      invariant |v| == size + length
      invariant start == size + forward
      invariant block < length ==> block == distance && backward == start - 2 * distance
      invariant v[..size + forward] == CopyBack(before, distance, forward)
    {
      CopyByte(v, before, distance, forward, backward);
      v := v[start := v[backward]];
      start := start + 1;
      backward := backward + 1;
    }
    assert v[..size + length] == v;
    out.data := v;
  }

  // ----- Trees

  method GenerateFixedLitLenTree(tree: HT.HuffmanTree) returns (error: nat)
    modifies tree
    ensures error == 0 && tree.Ready() && tree.lengths == FixedLL()
  {
    var bitlen := new nat[288];
    for i := 0 to 144
      invariant forall k :: 0 <= k < i ==> bitlen[k] == 8
    {
      bitlen[i] := 8;
    }
    for i := 144 to 256
      invariant forall k :: 0 <= k < i ==> bitlen[k] == if k < 144 then 8 else 9
    {
      bitlen[i] := 9;
    }
    for i := 256 to 280
      invariant forall k :: 0 <= k < i ==> bitlen[k] == if k < 144 then 8 else if k < 256 then 9 else 7
    {
      bitlen[i] := 7;
    }
    for i := 280 to 288
      invariant forall k :: 0 <= k < i ==>
                  bitlen[k] == if k < 144 then 8 else if k < 256 then 9 else if k < 280 then 7 else 8
    {
      bitlen[i] := 8;
    }
    assert bitlen[..] == FixedLL();
    FormatDecodes.FixedTreesValid();
    error := tree.MakeFromLengths(bitlen[..], 15);
  }

  method GenerateFixedDistanceTree(tree: HT.HuffmanTree) returns (error: nat)
    modifies tree
    ensures error == 0 && tree.Ready() && tree.lengths == FixedD()
  {
    var bitlen := new nat[32];
    for i := 0 to 32
      invariant forall k :: 0 <= k < i ==> bitlen[k] == 5
    {
      bitlen[i] := 5;
    }
    assert bitlen[..] == FixedD();
    FormatDecodes.FixedTreesValid();
    error := tree.MakeFromLengths(bitlen[..], 15);
  }

  method ReadClLengths(reader: BR.BitReader, hclen: nat) returns (bitlen: seq<nat>)
    requires reader.Valid() && hclen <= 19
    modifies reader
    ensures reader.Valid() && reader.bp == old(reader.bp) + 3 * hclen
    ensures bitlen == ReadCl(reader.Stream(), old(reader.bp), hclen)
  {
    hide Slice, Val, ReadCl, ClSlots;
    var a := new nat[19];
    ghost var s, pos := reader.Stream(), reader.bp;
    NoClSlots(s, pos, hclen, a[..]);
    for i := 0 to hclen
      invariant reader.Valid() && reader.bp == pos + 3 * i
      invariant ClSlots(s, pos, hclen, a[..], i)
    {
      var _ := reader.EnsureBits9(3);
      var v := reader.ReadBits(3);
      NextClSlot(s, pos, hclen, a[..], i, v);
      a[CLCL_ORDER[i]] := v;
    }
    for i := hclen to 19
      invariant reader.Valid() && reader.bp == pos + 3 * hclen
      invariant ClSlots(s, pos, hclen, a[..], i)
    {
      NextClSlot(s, pos, hclen, a[..], i, 0);
      a[CLCL_ORDER[i]] := 0;
    }
    AllClSlots(s, pos, hclen, a[..]);
    return a[..];
  }

  /** The first i of the nineteen lengths, in their order, are in place; those not in the
      stream are zeros. */
  predicate ClSlots(s: seq<bit>, pos: nat, n: nat, a: seq<nat>, i: nat) {
    && |a| == 19 && i <= 19
    && forall j :: 0 <= j < i ==> a[CLCL_ORDER[j]] == if j < n then Next(s, pos + 3 * j, 3) else 0
  }

  lemma NoClSlots(s: seq<bit>, pos: nat, n: nat, a: seq<nat>)
    requires |a| == 19
    ensures ClSlots(s, pos, n, a, 0)
  {
  }

  lemma NextClSlot(s: seq<bit>, pos: nat, n: nat, a: seq<nat>, i: nat, v: nat)
    requires ClSlots(s, pos, n, a, i) && i < 19 && v == if i < n then Next(s, pos + 3 * i, 3) else 0
    ensures |a| == 19 && ClSlots(s, pos, n, a[CLCL_ORDER[i] := v], i + 1)
  {
    hide Next;
    FormatDecodes.OrderIsPermutation();
  }

  lemma AllClSlots(s: seq<bit>, pos: nat, n: nat, a: seq<nat>)
    requires n <= 19 && ClSlots(s, pos, n, a, 19)
    ensures a == ReadCl(s, pos, n)
  {
    hide Next, ReadCl;
    forall sym: nat | sym < 19
      ensures a[sym] == ReadCl(s, pos, n)[sym]
    {
      FormatDecodes.OrderIsPermutation();
      assert FormatDecodes.Listed(19, sym);
      var j :| 0 <= j < 19 && CLCL_ORDER[j] == sym;
      FormatDecodes.ReadClAt(s, pos, n, j);
    }
  }

  function Min(a: nat, b: nat): nat {
    if a < b then a else b
  }

  /** The two length tables hold the lengths read so far, zeros elsewhere. */
  ghost predicate Holds(acc: Lengths, hlit: nat, ll: seq<nat>, d: seq<nat>)
    requires hlit <= 288 && |acc| <= hlit + 32
  {
    && ll == Pad(acc[..Min(|acc|, hlit)], 288)
    && d == Pad(acc[Min(|acc|, hlit)..], 32)
  }

  lemma PutLength(acc: Lengths, hlit: nat, ll: seq<nat>, d: seq<nat>, v: nat)
    requires hlit <= 288 && |acc| < hlit + 32 && Holds(acc, hlit, ll, d) && v <= LONGEST
    ensures |acc| < hlit ==> Holds(acc + [v], hlit, ll[|acc| := v], d)
    ensures |acc| >= hlit ==> Holds(acc + [v], hlit, ll, d[|acc| - hlit := v])
  {
  }

  /** Stores the same length `count` times; false when there is no room for all. */
  method StoreRun(ll: array<nat>, d: array<nat>, ghost acc: Lengths, hlit: nat, total: nat, i: nat, value: nat, count: nat)
    returns (ok: bool, next: nat)
    requires ll != d && ll.Length == 288 && d.Length == 32
    requires hlit <= 288 && hlit <= total <= hlit + 32 && i == |acc| <= total && value <= LONGEST
    requires Holds(acc, hlit, ll[..], d[..])
    modifies ll, d
    ensures ok <==> i + count <= total
    ensures ok ==> next == i + count && Holds(acc + seq(count, _ => value), hlit, ll[..], d[..])
  {
    hide Holds;
    next := i;
    assert acc + seq(0, _ => value) == acc;
    for n := 0 to count
      invariant next == i + n <= total
      invariant Holds(acc + seq(n, _ => value), hlit, ll[..], d[..])
    {
      if next >= total {
        return false, next;
      }
      ghost var acc' := acc + seq(n, _ => value);
      PutLength(acc', hlit, ll[..], d[..], value);
      assert acc' + [value] == acc + seq(n + 1, _ => value);
      if next < hlit {
        ll[next] := value;
      } else {
        d[next - hlit] := value;
      }
      next := next + 1;
    }
    return true, next;
  }

  /** Reads code lengths with the code length tree until all are known. */
  method ReadLengths(reader: BR.BitReader, cl: HT.HuffmanTree, ll: array<nat>, d: array<nat>, hlit: nat, total: nat)
    returns (error: nat)
    requires reader.Valid() && reader.bp <= reader.bitsize
    requires cl.Ready() && |cl.lengths| == 19
    requires ll != d && ll.Length == 288 && d.Length == 32
    requires hlit <= 288 && hlit <= total <= hlit + 32
    requires Holds([], hlit, ll[..], d[..])
    modifies reader, ll, d
    ensures reader.Valid()
    ensures
      match ReadRuns(cl.lengths, reader.Stream(), old(reader.bp), total, [])
      case Failure(e) => error == e
      case Success(p, lens) => error == 0 && reader.bp == p && Holds(lens, hlit, ll[..], d[..])
  {
    hide Holds, SymbolAt, ValidTree;
    ghost var s, lens := reader.Stream(), cl.lengths;
    ghost var acc: Lengths := [];
    var i := 0;
    while i < total
      invariant reader.Valid() && reader.bp <= reader.bitsize && cl.Ready() && cl.lengths == lens
      invariant i == |acc| <= total && Holds(acc, hlit, ll[..], d[..])
      invariant ReadRuns(lens, s, old(reader.bp), total, []) == ReadRuns(lens, s, reader.bp, total, acc)
      decreases reader.bitsize - reader.bp
    {
      error, i, acc := ReadRun(reader, cl, ll, d, hlit, total, i, acc);
      if error != 0 {
        return;
      }
    }
    return 0;
  }

  /** How often the length is stored: once, or as the field behind the symbol says. */
  method ReadRepeatCount(reader: BR.BitReader, code: nat) returns (count: nat)
    requires reader.Valid() && reader.avail >= 7 && code <= 18
    modifies reader
    ensures reader.Valid()
    ensures
      var r := RunAt(reader.Stream(), old(reader.bp), code);
      count == RunCount(r) && reader.bp == old(reader.bp) + RunExtraBits(r)
  {
    count := 1;
    if code == 16 {
      var extra := reader.ReadBits(2);
      count := 3 + extra;
    } else if code == 17 {
      var extra := reader.ReadBits(3);
      count := 3 + extra;
    } else if code == 18 {
      var extra := reader.ReadBits(7);
      count := 11 + extra;
    }
  }

  lemma RunIsRepeat(acc: Lengths, hlit: nat, ll: seq<nat>, d: seq<nat>, r: Run, value: nat, count: nat)
    requires hlit <= 288 && |acc| < hlit + 32 && Holds(acc, hlit, ll, d)
    requires ValidRun(r) && (r.Repeat? ==> acc != []) && count == RunCount(r)
    requires value == match r
                      case Len(v) => v
                      case Repeat(_) => (if |acc| < hlit + 1 then ll[|acc| - 1] else d[|acc| - hlit - 1])
                      case ZeroRun(_) => 0
    ensures value <= LONGEST
    ensures ApplyRun(acc, r) == acc + seq(count, _ => value)
  {
  }

  lemma ReadRunsStep(cl: Lengths, s: seq<bit>, pos: nat, total: nat, acc: Lengths, r: Run, p: nat)
    requires |cl| == 19 && pos <= |s| && |acc| < total
    requires SymbolAt(cl, s, pos) <= 18 && !(SymbolAt(cl, s, pos) == 16 && acc == [])
    requires r == RunAt(s, pos + cl[SymbolAt(cl, s, pos)], SymbolAt(cl, s, pos))
    requires p == pos + cl[SymbolAt(cl, s, pos)] + RunExtraBits(r)
    ensures
      var c := SymbolAt(cl, s, pos);
      ReadRuns(cl, s, pos, total, acc) ==
      if p > |s| then Failure(50)
      else if |acc| + RunCount(r) > total then Failure(if c == 16 then 13 else if c == 17 then 14 else 15)
      else ReadRuns(cl, s, p, total, ApplyRun(acc, r))
  {
    hide SymbolAt, Slice, Val;
    assert |ApplyRun(acc, r)| == |acc| + RunCount(r);
  }

  /** One code length, or a run of them. */
  method ReadRun(reader: BR.BitReader, cl: HT.HuffmanTree, ll: array<nat>, d: array<nat>, hlit: nat, total: nat,
                 i: nat, ghost acc: Lengths)
    returns (error: nat, next: nat, ghost acc': Lengths)
    requires reader.Valid() && reader.bp <= reader.bitsize
    requires cl.Ready() && |cl.lengths| == 19
    requires ll != d && ll.Length == 288 && d.Length == 32
    requires hlit <= 288 && hlit <= total <= hlit + 32 && i == |acc| < total
    requires Holds(acc, hlit, ll[..], d[..])
    modifies reader, ll, d
    ensures reader.Valid()
    ensures error != 0 ==> ReadRuns(cl.lengths, reader.Stream(), old(reader.bp), total, acc) == Failure(error)
    ensures error == 0 ==>
              && old(reader.bp) < reader.bp <= reader.bitsize && next == |acc'| <= total
              && Holds(acc', hlit, ll[..], d[..])
              && ReadRuns(cl.lengths, reader.Stream(), old(reader.bp), total, acc)
                 == ReadRuns(cl.lengths, reader.Stream(), reader.bp, total, acc')
  {
    hide Holds, SymbolAt, ValidTree, ApplyRun, RunAt;
    ghost var s, pos := reader.Stream(), reader.bp;
    error, next, acc' := 0, i, acc;
    var _ := reader.EnsureBits25(22);
    var code := cl.DecodeSymbol(reader);
    ghost var lens := cl.lengths;
    assert code == SymbolAt(lens, s, pos);
    if code > 18 {
      error := 16;
      return;
    }
    if code == 16 && i == 0 {
      error := 54;
      return;
    }
    var count := ReadRepeatCount(reader, code);
    var value := if code <= 15 then code else if code > 16 then 0 else if i < hlit + 1 then ll[i - 1] else d[i - hlit - 1];
    ghost var r := RunAt(s, pos + cl.lengths[code], code);
    acc' := ApplyRun(acc, r);
    ghost var p := reader.bp;
    ReadRunsStep(lens, s, pos, total, acc, r, p);
    RunIsRepeat(acc, hlit, ll[..], d[..], r, value, count);
    var ok;
    ok, next := StoreRun(ll, d, acc, hlit, total, i, value, count);
    if !ok {
      error := if code == 16 then 13 else if code == 17 then 14 else 15;
    }
    if reader.bp > reader.bitsize {
      error := 50;
    }
  }

  /** The two trees of a dynamic block. */
  method GetTreeInflateDynamic(treeLL: HT.HuffmanTree, treeD: HT.HuffmanTree, reader: BR.BitReader) returns (error: nat)
    requires reader.Valid() && reader.bp <= reader.bitsize && treeLL != treeD
    modifies treeLL, treeD, reader
    ensures reader.Valid()
    ensures
      match ReadTrees(reader.Stream(), old(reader.bp))
      case Failure(e) => error == e
      case Success(p, trees) =>
        && error == 0 && reader.bp == p
        && treeLL.Ready() && treeLL.lengths == trees.ll
        && treeD.Ready() && treeD.lengths == trees.d
  {
    hide ValidTree, Holds, ReadRuns, ReadCl, Slice, Val;
    ghost var s, pos := reader.Stream(), reader.bp;
    FieldBounds(s, pos);
    var ok := reader.EnsureBits17(14);
    if !ok {
      return 49;
    }
    var hlit := reader.ReadBits(5);
    hlit := hlit + 257;
    var hdist := reader.ReadBits(5);
    hdist := hdist + 1;
    var hclen := reader.ReadBits(4);
    hclen := hclen + 4;
    if reader.bp + hclen * 3 > reader.bitsize {
      return 50;
    }
    var bitlenCl := ReadClLengths(reader, hclen);
    var treeCl := new HT.HuffmanTree();
    error := treeCl.MakeFromLengths(bitlenCl, 7);
    if error != 0 {
      return;
    }
    error := ReadBothTrees(treeLL, treeD, treeCl, reader, hlit, hdist);
  }

  lemma FieldBounds(s: seq<bit>, pos: nat)
    ensures Next(s, pos, 5) < 32 && Next(s, pos + 5, 5) < 32 && Next(s, pos + 10, 4) < 16
  {
    assert Pow2(4) == 16 && Pow2(5) == 32;
    ValBound(Slice(s, pos, 5));
    ValBound(Slice(s, pos + 5, 5));
    ValBound(Slice(s, pos + 10, 4));
  }

  method ReadBothTrees(treeLL: HT.HuffmanTree, treeD: HT.HuffmanTree, treeCl: HT.HuffmanTree, reader: BR.BitReader,
                       hlit: nat, hdist: nat) returns (error: nat)
    requires reader.Valid() && reader.bp <= reader.bitsize && treeLL != treeD
    requires treeCl.Ready() && |treeCl.lengths| == 19 && treeCl != treeLL && treeCl != treeD
    requires 257 <= hlit <= 288 && 1 <= hdist <= 32
    modifies treeLL, treeD, reader
    ensures reader.Valid()
    ensures
      match ReadRuns(treeCl.lengths, reader.Stream(), old(reader.bp), hlit + hdist, [])
      case Failure(e) => error == e
      case Success(p, lens) =>
        match MakeTrees(p, lens, hlit)
        case Failure(e) => error == e
        case Success(_, trees) =>
          && error == 0 && reader.bp == p
          && treeLL.Ready() && treeLL.lengths == trees.ll
          && treeD.Ready() && treeD.lengths == trees.d
  {
    hide ValidTree, ReadRuns, Slice, Val;
    var ll := new nat[288](_ => 0);
    var d := new nat[32](_ => 0);
    assert Holds([], hlit, ll[..], d[..]);
    error := ReadLengths(reader, treeCl, ll, d, hlit, hlit + hdist);
    if error != 0 {
      return;
    }
    if ll[256] == 0 {
      return 64;
    }
    error := treeLL.MakeFromLengths(ll[..], 15);
    if error != 0 {
      return;
    }
    error := treeD.MakeFromLengths(d[..], 15);
  }

  // ----- Tokens

  /** A literal, a match or the end of the block. */
  method DecodeToken(reader: BR.BitReader, treeLL: HT.HuffmanTree, treeD: HT.HuffmanTree) returns (r: TokenResult)
    requires reader.Valid() && treeLL.Ready() && treeD.Ready()
    modifies reader
    ensures reader.Valid()
    ensures r == ReadToken(treeLL.lengths, treeD.lengths, reader.Stream(), old(reader.bp))
    ensures r.Read? ==> reader.bp == r.pos
    ensures r.EndOfBlock? ==> reader.bp == r.pos
  {
    hide SymbolAt, ValidTree, Slice, Val, ReadDistance;
    var _ := reader.EnsureBits25(20);
    var code := treeLL.DecodeSymbol(reader);
    if code <= 255 {
      return Read(reader.bp, Literal(code));
    } else if FIRSTLENGTHCODE <= code <= 285 {
      r := DecodeDistance(reader, treeD, code - FIRSTLENGTHCODE);
    } else if code == ENDCODE {
      return EndOfBlock(reader.bp);
    } else {
      return NoToken(16);
    }
  }

  method DecodeDistance(reader: BR.BitReader, treeD: HT.HuffmanTree, lcode: nat) returns (r: TokenResult)
    requires reader.Valid() && treeD.Ready() && lcode < NUMLENGTHCODES && reader.avail >= 5
    modifies reader
    ensures reader.Valid()
    ensures r == ReadDistance(treeD.lengths, reader.Stream(), lcode, old(reader.bp))
    ensures r.Read? ==> reader.bp == r.pos
  {
    hide SymbolAt, ValidTree, Slice, Val, LengthExtra, DistanceExtra;
    var lextra := reader.ReadBits(LengthExtra(lcode));
    var _ := reader.EnsureBits32(28);
    var code := treeD.DecodeSymbol(reader);
    if code > 29 {
      return NoToken(if code <= 31 then 18 else 16);
    }
    var dextra := reader.ReadBits(DistanceExtra(code));
    return Read(reader.bp, Match(lcode, lextra, code, dextra));
  }

  method InflateHuffmanTokens(out: ByteVector, reader: BR.BitReader, treeLL: HT.HuffmanTree, treeD: HT.HuffmanTree,
                              maxOutputSize: nat) returns (error: nat)
    requires reader.Valid() && reader.bp <= reader.bitsize && treeLL.Ready() && treeD.Ready()
    modifies out, reader
    ensures reader.Valid()
    ensures
      match InflateTokens(treeLL.lengths, treeD.lengths, reader.Stream(), old(reader.bp), old(out.data), maxOutputSize)
      case Failure(e) => error == e
      case Success(p, data) => error == 0 && reader.bp == p && out.data == data
  {
    hide SymbolAt, ValidTree, ReadToken;
    ghost var ll, d, s := treeLL.lengths, treeD.lengths, reader.Stream();
    while true
      invariant reader.Valid() && reader.bp <= reader.bitsize
      invariant treeLL.Ready() && treeD.Ready() && treeLL.lengths == ll && treeD.lengths == d
      invariant InflateTokens(ll, d, s, old(reader.bp), old(out.data), maxOutputSize)
             == InflateTokens(ll, d, s, reader.bp, out.data, maxOutputSize)
      decreases reader.bitsize - reader.bp
    {
      var r := DecodeToken(reader, treeLL, treeD);
      match r {
        case NoToken(e) =>
          return e;
        case EndOfBlock(_) =>
          return 0;
        case Read(_, t) =>
          if t.Match? && Distance(t) > |out.data| {
            return 52;
          }
          ApplyToken(out, t);
      }
      if reader.bp > reader.bitsize {
        return 51;
      }
      if maxOutputSize != 0 && |out.data| > maxOutputSize {
        return 109;
      }
    }
  }

  method ApplyToken(out: ByteVector, t: Token)
    requires Fits(out.data, t)
    modifies out
    ensures out.data == Apply(old(out.data), t)
  {
    match t
    case Literal(b) => out.data := out.data + [b];
    case Match(_, _, _, _) => CopyMatch(out, Distance(t), Length(t));
  }

  method InflateHuffmanBlock(out: ByteVector, reader: BR.BitReader, btype: nat, maxOutputSize: nat) returns (error: nat)
    requires reader.Valid() && reader.bp <= reader.bitsize
    modifies out, reader
    ensures reader.Valid()
    ensures
      match InflateHuffman(reader.Stream(), old(reader.bp), btype, old(out.data), maxOutputSize)
      case Failure(e) => error == e
      case Success(p, data) => error == 0 && reader.bp == p && out.data == data
  {
    hide ValidTree, ReadTrees, InflateTokens, FixedLL, FixedD;
    var treeLL := new HT.HuffmanTree();
    var treeD := new HT.HuffmanTree();
    if btype == 1 {
      error := GenerateFixedLitLenTree(treeLL);
      error := GenerateFixedDistanceTree(treeD);
    } else {
      error := GetTreeInflateDynamic(treeLL, treeD, reader);
    }
    if error == 0 {
      error := InflateHuffmanTokens(out, reader, treeLL, treeD, maxOutputSize);
    }
  }

  // ----- Stored blocks and the whole stream

  method InflateNoCompression(out: ByteVector, reader: BR.BitReader, settings: Settings) returns (error: nat)
    requires reader.Valid()
    modifies out, reader
    ensures reader.Valid()
    ensures
      match InflateStored(reader.data, old(reader.bp), old(out.data), settings.ignoreNlen)
      case Failure(e) => error == e
      case Success(p, data) => error == 0 && reader.bp == p && out.data == data
  {
    var size := reader.size;
    var bytepos := (reader.bp + 7) / 8;
    if bytepos + 4 >= size {
      return 52;
    }
    var len := Word16(reader.data[bytepos], reader.data[bytepos + 1]);
    bytepos := bytepos + 2;
    var nlen := Word16(reader.data[bytepos], reader.data[bytepos + 1]);
    bytepos := bytepos + 2;
    if !settings.ignoreNlen && len + nlen != 65535 {
      return 21;
    }
    if bytepos + len > size {
      return 23;
    }
    out.data := out.data + reader.data[bytepos..bytepos + len];
    bytepos := bytepos + len;
    reader.JumpTo(8 * bytepos);
    return 0;
  }

  /** Decompression agrees with its specification: the same error code for every
      input, and the same bytes when there is none. */
  method Inflatev(out: ByteVector, input: seq<byte>, settings: Settings) returns (error: nat)
    modifies out
    ensures
      match InflateSpec.Inflate(input, old(out.data), settings)
      case Failure(e) => error == e
      case Success(_, data) => error == 0 && out.data == data
  {
    hide InflateHuffman, InflateStored, BytesBits, Slice, Val;
    var reader := new BR.BitReader(input);
    while true
      invariant reader.Valid() && reader.data == input
      invariant fresh(reader)
      invariant InflateFrom(input, 0, old(out.data), settings) == InflateFrom(input, reader.bp, out.data, settings)
      decreases if reader.bp <= 8 * |input| then 8 * |input| - reader.bp else 0
    {
      var ok := reader.EnsureBits9(3);
      if !ok {
        return 52;
      }
      var bfinal := reader.ReadBits(1);
      var btype := reader.ReadBits(2);
      if btype == 3 {
        return 20;
      } else if btype == 0 {
        error := InflateNoCompression(out, reader, settings);
      } else {
        error := InflateHuffmanBlock(out, reader, btype, settings.maxOutputSize);
      }
      if error == 0 && settings.maxOutputSize != 0 && |out.data| > settings.maxOutputSize {
        error := 109;
      }
      if error != 0 || bfinal == 1 {
        return;
      }
    }
  }
}
