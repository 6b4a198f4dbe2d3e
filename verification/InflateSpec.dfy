/** What decompressing a byte string yields, bit by bit: the decoded bytes or the
    error code.  Symbols are found by comparing codes with the stream, with no
    tables and no buffering; bits past the end of the input read as 0. */
module InflateSpec {
  import opened Bits
  import opened CanonicalCode
  import opened HuffmanTable
  import opened DeflateFormat

  datatype Result<T> = Failure(error: nat) | Success(pos: nat, value: T)

  datatype Settings = Settings(ignoreNlen: bool, maxOutputSize: nat)

  function Next(s: seq<bit>, pos: nat, n: nat): nat {
    Val(Slice(s, pos, n))
  }

  /** Larger than the limit; 0 means no limit. */
  predicate TooLarge(out: seq<byte>, limit: nat) {
    limit != 0 && |out| > limit
  }

  // ----- Tokens

  datatype TokenResult = NoToken(error: nat) | EndOfBlock(pos: nat) | Read(pos: nat, t: Token)

  ghost function ReadToken(ll: Lengths, d: Lengths, s: seq<bit>, pos: nat): (r: TokenResult)
    ensures r.Read? ==> ValidToken(r.t) && r.pos > pos
    ensures r.EndOfBlock? ==> r.pos > pos
    ensures r.NoToken? ==> r.error != 0
  {
    var c := SymbolAt(ll, s, pos);
    if c <= 255 then
      Read(pos + ll[c], Literal(c))
    else if c == ENDCODE then
      EndOfBlock(pos + ll[c])
    else if FIRSTLENGTHCODE <= c <= 285 then
      ReadDistance(d, s, c - FIRSTLENGTHCODE, pos + ll[c])
    else
      NoToken(16)
  }

  ghost function ReadDistance(d: Lengths, s: seq<bit>, lcode: nat, pos: nat): (r: TokenResult)
    requires lcode < NUMLENGTHCODES
    ensures r.Read? ==> ValidToken(r.t) && r.pos >= pos
    ensures !r.EndOfBlock?
    ensures r.NoToken? ==> r.error != 0
  {
    var nl := LengthExtra(lcode);
    ValBound(Slice(s, pos, nl));
    var c := SymbolAt(d, s, pos + nl);
    if c > 29 then
      NoToken(if c <= 31 then 18 else 16)
    else
      var nd := DistanceExtra(c);
      var p := pos + nl + d[c];
      ValBound(Slice(s, p, nd));
      Read(p + nd, Match(lcode, Next(s, pos, nl), c, Next(s, p, nd)))
  }

  /** Tokens up to the end code.  The end code itself may lie, in part, past the
      end of the input; any other token may not. */
  ghost function InflateTokens(ll: Lengths, d: Lengths, s: seq<bit>, pos: nat, out: seq<byte>, limit: nat): (r: Result<seq<byte>>)
    requires pos <= |s|
    ensures r.Success? ==> r.pos > pos && |r.value| >= |out|
    ensures r.Failure? ==> r.error != 0
    decreases |s| - pos
  {
    match ReadToken(ll, d, s, pos)
    case NoToken(error) => Failure(error)
    case EndOfBlock(p) => Success(p, out)
    case Read(p, t) =>
      if !Fits(out, t) then Failure(52)
      else if p > |s| then Failure(51)
      else if TooLarge(Apply(out, t), limit) then Failure(109)
      else InflateTokens(ll, d, s, p, Apply(out, t), limit)
  }

  // ----- Trees of a dynamic block

  /** The code length code lengths: n of them are in the stream, the others are 0. */
  function ReadCl(s: seq<bit>, pos: nat, n: nat): (cl: Lengths)
    requires n <= 19
    ensures |cl| == 19 && forall i :: 0 <= i < 19 ==> cl[i] <= 7
  {
    if n == 0 then seq(19, _ => 0)
    else
      ValBound(Slice(s, pos + 3 * (n - 1), 3));
      ReadCl(s, pos, n - 1)[CLCL_ORDER[n - 1] := Next(s, pos + 3 * (n - 1), 3)]
  }

  /** Code lengths until `total` of them are known. */
  ghost function ReadRuns(cl: Lengths, s: seq<bit>, pos: nat, total: nat, acc: Lengths): (r: Result<Lengths>)
    requires |cl| == 19 && pos <= |s| && |acc| <= total
    ensures r.Success? ==> |r.value| == total && pos <= r.pos <= |s|
    ensures r.Failure? ==> r.error != 0
    decreases |s| - pos
  {
    if |acc| == total then Success(pos, acc)
    else
      var c := SymbolAt(cl, s, pos);
      if c > 18 then Failure(16)
      else if c == 16 && acc == [] then Failure(54)
      else
        var r := RunAt(s, pos + cl[c], c);
        var p := pos + cl[c] + RunExtraBits(r);
        if p > |s| then Failure(50)
        else if |ApplyRun(acc, r)| > total then Failure(if c == 16 then 13 else if c == 17 then 14 else 15)
        else ReadRuns(cl, s, p, total, ApplyRun(acc, r))
  }

  /** The run that symbol c starts, with its field at pos. */
  function RunAt(s: seq<bit>, pos: nat, c: nat): (r: Run)
    requires c <= 18
    ensures ValidRun(r) && RunSymbol(r) == c
  {
    if c <= 15 then Len(c)
    else if c == 16 then ValBound(Slice(s, pos, 2)); Repeat(3 + Next(s, pos, 2))
    else if c == 17 then ValBound(Slice(s, pos, 3)); ZeroRun(3 + Next(s, pos, 3))
    else ValBound(Slice(s, pos, 7)); ZeroRun(11 + Next(s, pos, 7))
  }

  datatype Trees = Trees(ll: Lengths, d: Lengths)

  ghost function ReadTrees(s: seq<bit>, pos: nat): (r: Result<Trees>)
    requires pos <= |s|
    ensures r.Success? ==> pos <= r.pos <= |s|
    ensures r.Success? ==> ValidTree(r.value.ll) && ValidTree(r.value.d) && |r.value.ll| == 288 && |r.value.d| == 32
    ensures r.Failure? ==> r.error != 0
  {
    if pos + 14 > |s| then Failure(49)
    else
      ValBound(Slice(s, pos, 5));
      ValBound(Slice(s, pos + 5, 5));
      ValBound(Slice(s, pos + 10, 4));
      var hlit := Next(s, pos, 5) + 257;
      var hdist := Next(s, pos + 5, 5) + 1;
      var hclen := Next(s, pos + 10, 4) + 4;
      if pos + 14 + 3 * hclen > |s| then Failure(50)
      else
        var cl := ReadCl(s, pos + 14, hclen);
        if !ValidTree(cl) then Failure(55)
        else match ReadRuns(cl, s, pos + 14 + 3 * hclen, hlit + hdist, [])
          case Failure(error) => Failure(error)
          case Success(p, lens) => MakeTrees(p, lens, hlit)
  }

  ghost function MakeTrees(pos: nat, lens: Lengths, hlit: nat): (r: Result<Trees>)
    requires 257 <= hlit <= 288 && hlit <= |lens| <= hlit + 32
    ensures r.Success? ==> r.pos == pos
    ensures r.Success? ==> ValidTree(r.value.ll) && ValidTree(r.value.d) && |r.value.ll| == 288 && |r.value.d| == 32
    ensures r.Failure? ==> r.error != 0
  {
    var ll := Pad(lens[..hlit], 288);
    var d := Pad(lens[hlit..], 32);
    if ll[ENDCODE] == 0 then Failure(64)
    else if !ValidTree(ll) || !ValidTree(d) then Failure(55)
    else Success(pos, Trees(ll, d))
  }

  // ----- Blocks

  function Word16(lo: nat, hi: nat): nat {
    lo + 256 * hi
  }

  function InflateStored(data: seq<byte>, pos: nat, out: seq<byte>, ignoreNlen: bool): (r: Result<seq<byte>>)
    ensures r.Success? ==> r.pos > pos && |r.value| >= |out|
    ensures r.Failure? ==> r.error != 0
  {
    var b := (pos + 7) / 8;
    if b + 4 >= |data| then Failure(52)
    else
      var len := Word16(data[b], data[b + 1]);
      var nlen := Word16(data[b + 2], data[b + 3]);
      if !ignoreNlen && len + nlen != 65535 then Failure(21)
      else if b + 4 + len > |data| then Failure(23)
      else Success(8 * (b + 4 + len), out + data[b + 4..b + 4 + len])
  }

  ghost function InflateHuffman(s: seq<bit>, pos: nat, btype: nat, out: seq<byte>, limit: nat): (r: Result<seq<byte>>)
    requires pos <= |s|
    ensures r.Success? ==> r.pos > pos && |r.value| >= |out|
    ensures r.Failure? ==> r.error != 0
  {
    if btype == 1 then InflateTokens(FixedLL(), FixedD(), s, pos, out, limit)
    else match ReadTrees(s, pos)
      case Failure(error) => Failure(error)
      case Success(p, trees) => InflateTokens(trees.ll, trees.d, s, p, out, limit)
  }

  ghost function InflateBlock(data: seq<byte>, pos: nat, btype: nat, out: seq<byte>, settings: Settings): (r: Result<seq<byte>>)
    requires pos <= 8 * |data|
    ensures r.Success? ==> r.pos > pos && |r.value| >= |out|
    ensures r.Failure? ==> r.error != 0
  {
    if btype == 3 then Failure(20)
    else
      var r := if btype == 0 then InflateStored(data, pos, out, settings.ignoreNlen)
               else InflateHuffman(BytesBits(data), pos, btype, out, settings.maxOutputSize);
      if r.Success? && TooLarge(r.value, settings.maxOutputSize) then Failure(109) else r
  }

  /** All blocks from bit position pos on. */
  ghost function InflateFrom(data: seq<byte>, pos: nat, out: seq<byte>, settings: Settings): (r: Result<seq<byte>>)
    ensures r.Success? ==> r.pos > pos && |r.value| >= |out|
    ensures r.Failure? ==> r.error != 0
    decreases if pos <= 8 * |data| then 8 * |data| - pos else 0
  {
    var s := BytesBits(data);
    if pos + 3 > |s| then Failure(52)
    else
      var last, btype := Next(s, pos, 1), Next(s, pos + 1, 2);
      var r := InflateBlock(data, pos + 3, btype, out, settings);
      if r.Failure? || last == 1 then r
      else InflateFrom(data, r.pos, r.value, settings)
  }

  ghost function Inflate(data: seq<byte>, out: seq<byte>, settings: Settings): Result<seq<byte>> {
    InflateFrom(data, 0, out, settings)
  }
}
