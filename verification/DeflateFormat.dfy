/** The compressed format of RFC 1951: tokens, blocks, their bits and their meaning. */
module DeflateFormat {
  import opened Bits
  import opened CanonicalCode

  const LENGTHBASE: seq<nat> :=
    [3, 4, 5, 6, 7, 8, 9, 10, 11, 13, 15, 17, 19, 23, 27, 31, 35, 43, 51, 59, 67, 83, 99, 115, 131, 163, 195, 227, 258]
  const LENGTHEXTRA: seq<nat> :=
    [0, 0, 0, 0, 0, 0, 0, 0, 1, 1, 1, 1, 2, 2, 2, 2, 3, 3, 3, 3, 4, 4, 4, 4, 5, 5, 5, 5, 0]
  const DISTANCEBASE: seq<nat> :=
    [1, 2, 3, 4, 5, 7, 9, 13, 17, 25, 33, 49, 65, 97, 129, 193, 257, 385, 513, 769, 1025, 1537, 2049, 3073, 4097, 6145,
     8193, 12289, 16385, 24577]
  const DISTANCEEXTRA: seq<nat> :=
    [0, 0, 0, 0, 1, 1, 2, 2, 3, 3, 4, 4, 5, 5, 6, 6, 7, 7, 8, 8, 9, 9, 10, 10, 11, 11, 12, 12, 13, 13]
  const CLCL_ORDER: seq<nat> := [16, 17, 18, 0, 8, 7, 9, 6, 10, 5, 11, 4, 12, 3, 13, 2, 14, 1, 15]

  const NUMLENGTHCODES: nat := 29
  const NUMDISTANCECODES: nat := 30

  function LengthBase(c: nat): (b: nat)
    requires c < NUMLENGTHCODES
    ensures 3 <= b <= 258
  {
    LENGTHBASE[c]
  }

  function LengthExtra(c: nat): (e: nat)
    requires c < NUMLENGTHCODES
    ensures e <= 5
  {
    LENGTHEXTRA[c]
  }

  function DistanceBase(c: nat): (b: nat)
    requires c < NUMDISTANCECODES
    ensures 1 <= b <= 24577
  {
    DISTANCEBASE[c]
  }

  function DistanceExtra(c: nat): (e: nat)
    requires c < NUMDISTANCECODES
    ensures e <= 13
  {
    DISTANCEEXTRA[c]
  }

  const ENDCODE: nat := 256
  const FIRSTLENGTHCODE: nat := 257

  // ----- Tokens

  datatype Token =
    | Literal(b: byte)
    | Match(lcode: nat, lextra: nat, dcode: nat, dextra: nat)

  predicate ValidToken(t: Token) {
    t.Match? ==>
      && t.lcode < NUMLENGTHCODES && t.lextra < Pow2(LengthExtra(t.lcode))
      && t.dcode < NUMDISTANCECODES && t.dextra < Pow2(DistanceExtra(t.dcode))
  }

  /** Code 284 with all its extra bits, which gives length 258 a second spelling. */
  predicate OddLength(t: Token) {
    t.Match? && t.lcode == 27 && t.lextra == 31
  }

  predicate NoOddLength(ts: seq<Token>) {
    forall i :: 0 <= i < |ts| ==> !OddLength(ts[i])
  }

  function Length(t: Token): nat
    requires t.Match? && ValidToken(t)
  {
    LengthBase(t.lcode) + t.lextra
  }

  function Distance(t: Token): (d: nat)
    requires t.Match? && ValidToken(t)
    ensures d > 0
  {
    DistanceBase(t.dcode) + t.dextra
  }

  /** Appends `length` bytes, each a copy of the byte `distance` places back; the
      copy may run into what it has just appended. */
  function CopyBack(out: seq<byte>, distance: nat, length: nat): (r: seq<byte>)
    requires 1 <= distance <= |out|
    ensures |r| == |out| + length && r[..|out|] == out
    decreases length
  {
    if length == 0 then out else CopyBack(out + [out[|out| - distance]], distance, length - 1)
  }

  predicate Fits(out: seq<byte>, t: Token) {
    ValidToken(t) && (t.Match? ==> Distance(t) <= |out|)
  }

  function Apply(out: seq<byte>, t: Token): (r: seq<byte>)
    requires Fits(out, t)
    ensures |r| >= |out|
  {
    match t
    case Literal(b) => out + [b]
    case Match(_, _, _, _) => CopyBack(out, Distance(t), Length(t))
  }

  predicate Expandable(out: seq<byte>, ts: seq<Token>)
    decreases |ts|
  {
    ts == [] || (Fits(out, ts[0]) && Expandable(Apply(out, ts[0]), ts[1..]))
  }

  /** The bytes after decoding the tokens behind `out`. */
  function Expand(out: seq<byte>, ts: seq<Token>): (r: seq<byte>)
    requires Expandable(out, ts)
    ensures |r| >= |out|
    decreases |ts|
  {
    if ts == [] then out else Expand(Apply(out, ts[0]), ts[1..])
  }

  lemma {:induction false} ExpandAppend(out: seq<byte>, ts: seq<Token>, t: Token)
    requires Expandable(out, ts) && Fits(Expand(out, ts), t)
    ensures Expandable(out, ts + [t]) && Expand(out, ts + [t]) == Apply(Expand(out, ts), t)
    decreases |ts|
  {
    if ts == [] {
      assert ([] + [t])[1..] == [];
      assert Expandable(Apply(out, t), []);
    } else {
      ExpandAppend(Apply(out, ts[0]), ts[1..], t);
      assert (ts + [t])[1..] == ts[1..] + [t];
    }
  }

  // ----- Token bits

  /** All symbols of the token have a code. */
  predicate Codable(ll: Lengths, d: Lengths, t: Token) {
    match t
    case Literal(b) => b < |ll| && ll[b] > 0
    case Match(lcode, _, dcode, _) =>
      FIRSTLENGTHCODE + lcode < |ll| && ll[FIRSTLENGTHCODE + lcode] > 0 && dcode < |d| && d[dcode] > 0
  }

  function TokenBits(ll: Lengths, d: Lengths, t: Token): seq<bit>
    requires ValidToken(t) && Codable(ll, d, t)
  {
    match t
    case Literal(b) => CodeBits(ll, b)
    case Match(lcode, lextra, dcode, dextra) =>
      CodeBits(ll, FIRSTLENGTHCODE + lcode) + LsbBits(lextra, LengthExtra(lcode))
      + (CodeBits(d, dcode) + LsbBits(dextra, DistanceExtra(dcode)))
  }

  ghost predicate AllCodable(ll: Lengths, d: Lengths, ts: seq<Token>) {
    forall i :: 0 <= i < |ts| ==> ValidToken(ts[i]) && Codable(ll, d, ts[i])
  }

  ghost function TokensBits(ll: Lengths, d: Lengths, ts: seq<Token>): seq<bit>
    requires AllCodable(ll, d, ts)
  {
    if ts == [] then [] else TokenBits(ll, d, ts[0]) + TokensBits(ll, d, ts[1..])
  }

  // ----- Run-length coded code lengths (RFC 1951 section 3.2.7)

  datatype Run = Len(v: nat) | Repeat(n: nat) | ZeroRun(n: nat)

  predicate ValidRun(r: Run) {
    match r
    case Len(v) => v <= LONGEST
    case Repeat(n) => 3 <= n <= 6
    case ZeroRun(n) => 3 <= n <= 138
  }

  /** The symbol of the code length alphabet. */
  function RunSymbol(r: Run): nat
    requires ValidRun(r)
  {
    match r
    case Len(v) => v
    case Repeat(_) => 16
    case ZeroRun(n) => if n <= 10 then 17 else 18
  }

  /** Width and value of the field behind the symbol. */
  function RunExtraBits(r: Run): nat {
    match r
    case Len(_) => 0
    case Repeat(_) => 2
    case ZeroRun(n) => if n <= 10 then 3 else 7
  }

  function RunExtra(r: Run): nat
    requires ValidRun(r)
  {
    match r
    case Len(_) => 0
    case Repeat(n) => n - 3
    case ZeroRun(n) => if n <= 10 then n - 3 else n - 11
  }

  /** How many lengths a run stands for. */
  function RunCount(r: Run): nat {
    match r
    case Len(_) => 1
    case Repeat(n) => n
    case ZeroRun(n) => n
  }

  function RunBits(cl: Lengths, r: Run): seq<bit>
    requires ValidRun(r) && |cl| == 19
  {
    CodeBits(cl, RunSymbol(r)) + LsbBits(RunExtra(r), RunExtraBits(r))
  }

  function ApplyRun(acc: Lengths, r: Run): Lengths
    requires ValidRun(r) && (r.Repeat? ==> acc != [])
  {
    match r
    case Len(v) => acc + [v]
    case Repeat(n) => acc + seq(n, _ => acc[|acc| - 1])
    case ZeroRun(n) => acc + seq(n, _ => 0)
  }

  predicate RunsExpandable(acc: Lengths, rs: seq<Run>)
    decreases |rs|
  {
    rs == [] || (ValidRun(rs[0]) && (rs[0].Repeat? ==> acc != []) && RunsExpandable(ApplyRun(acc, rs[0]), rs[1..]))
  }

  function ExpandRuns(acc: Lengths, rs: seq<Run>): (r: Lengths)
    requires RunsExpandable(acc, rs)
    ensures |r| >= |acc|
    decreases |rs|
  {
    if rs == [] then acc else ExpandRuns(ApplyRun(acc, rs[0]), rs[1..])
  }

  predicate RunsCodable(cl: Lengths, rs: seq<Run>) {
    |cl| == 19 && forall i :: 0 <= i < |rs| ==> ValidRun(rs[i]) && cl[RunSymbol(rs[i])] > 0
  }

  function RunsBits(cl: Lengths, rs: seq<Run>): seq<bit>
    requires RunsCodable(cl, rs)
  {
    if rs == [] then [] else RunBits(cl, rs[0]) + RunsBits(cl, rs[1..])
  }

  // ----- Blocks

  /** The header of a block with its own trees. */
  datatype Header = Header(hlit: nat, hdist: nat, hclen: nat, cl: Lengths, runs: seq<Run>)

  /** The bits between the header of a stored block and the next byte boundary have no
      meaning; they are the low bits of `fill`.  `check` is the word behind the length. */
  datatype Block =
    | Stored(data: seq<byte>, fill: nat, check: nat)
    | Fixed(ts: seq<Token>)
    | Dynamic(header: Header, ts: seq<Token>)

  function FixedLL(): Lengths {
    seq(288, i => if i <= 143 then 8 else if i <= 255 then 9 else if i <= 279 then 7 else 8)
  }

  function FixedD(): Lengths {
    seq(32, _ => 5)
  }

  function Pad(lens: Lengths, n: nat): (r: Lengths)
    requires |lens| <= n
    ensures |r| == n
  {
    lens + seq(n - |lens|, _ => 0)
  }

  predicate ValidHeader(h: Header) {
    && 257 <= h.hlit <= 288 && 1 <= h.hdist <= 32 && 4 <= h.hclen <= 19
    && RunsCodable(h.cl, h.runs)
    && (forall i :: 0 <= i < 19 ==> h.cl[i] <= 7)
    && (forall i :: h.hclen <= i < 19 ==> h.cl[CLCL_ORDER[i]] == 0)
    && ValidTree(h.cl)
    && RunsExpandable([], h.runs)
    && |ExpandRuns([], h.runs)| == h.hlit + h.hdist
    && ValidTree(HeaderLL(h)) && ValidTree(HeaderD(h))
    && HeaderLL(h)[ENDCODE] > 0
  }

  function HeaderLL(h: Header): (ll: Lengths)
    requires RunsExpandable([], h.runs) && h.hlit <= |ExpandRuns([], h.runs)| && h.hlit <= 288
    ensures |ll| == 288
  {
    Pad(ExpandRuns([], h.runs)[..h.hlit], 288)
  }

  function HeaderD(h: Header): (d: Lengths)
    requires RunsExpandable([], h.runs) && h.hlit <= |ExpandRuns([], h.runs)| <= h.hlit + 32
    ensures |d| == 32
  {
    Pad(ExpandRuns([], h.runs)[h.hlit..], 32)
  }

  /** The code length code lengths, in their special order. */
  function ClBits(cl: Lengths, n: nat): (b: seq<bit>)
    requires |cl| == 19 && n <= 19
    ensures |b| == 3 * n
  {
    if n == 0 then [] else ClBits(cl, n - 1) + LsbBits(cl[CLCL_ORDER[n - 1]], 3)
  }

  function HeaderBits(h: Header): seq<bit>
    requires ValidHeader(h)
  {
    LsbBits(h.hlit - 257, 5) + LsbBits(h.hdist - 1, 5) + LsbBits(h.hclen - 4, 4)
    + ClBits(h.cl, h.hclen) + RunsBits(h.cl, h.runs)
  }

  ghost predicate ValidHuffmanBlock(ll: Lengths, d: Lengths, ts: seq<Token>) {
    ENDCODE < |ll| && ll[ENDCODE] > 0 && AllCodable(ll, d, ts)
  }

  ghost function HuffmanBits(ll: Lengths, d: Lengths, ts: seq<Token>): seq<bit>
    requires ValidHuffmanBlock(ll, d, ts)
  {
    TokensBits(ll, d, ts) + CodeBits(ll, ENDCODE)
  }

  ghost predicate ValidBlock(b: Block) {
    match b
    case Stored(data, _, check) => |data| <= 65535 && check <= 65535
    case Fixed(ts) => ValidHuffmanBlock(FixedLL(), FixedD(), ts)
    case Dynamic(h, ts) => ValidHeader(h) && ValidHuffmanBlock(HeaderLL(h), HeaderD(h), ts)
  }

  /** The length of a stored block is repeated with all bits inverted. */
  predicate Checked(b: Block) {
    b.Stored? ==> b.check == 65535 - |b.data|
  }

  function BlockType(b: Block): nat {
    match b
    case Stored(_, _, _) => 0
    case Fixed(_) => 1
    case Dynamic(_, _) => 2
  }

  function TypeBits(b: Block): (t: seq<bit>)
    ensures |t| == 2
  {
    match b
    case Stored(_, _, _) => [0, 0]
    case Fixed(_) => [1, 0]
    case Dynamic(_, _) => [0, 1]
  }

  /** The bits of the block behind its three header bits, which end at pos. */
  ghost function BodyBits(b: Block, pos: nat): seq<bit>
    requires ValidBlock(b)
  {
    match b
    case Stored(data, fill, check) => LsbBits(fill, PadTo8(pos)) + LsbBits(|data|, 16) + LsbBits(check, 16) + BytesBits(data)
    case Fixed(ts) => HuffmanBits(FixedLL(), FixedD(), ts)
    case Dynamic(h, ts) => HeaderBits(h) + HuffmanBits(HeaderLL(h), HeaderD(h), ts)
  }

  /** The bits of a block that starts at bit position pos. */
  ghost function BlockBits(b: Block, last: bool, pos: nat): seq<bit>
    requires ValidBlock(b)
  {
    [if last then 1 else 0] + TypeBits(b) + BodyBits(b, pos + 3)
  }

  ghost predicate BlockExpandable(out: seq<byte>, b: Block) {
    match b
    case Stored(_, _, _) => true
    case Fixed(ts) => Expandable(out, ts)
    case Dynamic(_, ts) => Expandable(out, ts)
  }

  ghost function ExpandBlock(out: seq<byte>, b: Block): (r: seq<byte>)
    requires BlockExpandable(out, b)
    ensures |r| >= |out|
  {
    match b
    case Stored(data, _, _) => out + data
    case Fixed(ts) => Expand(out, ts)
    case Dynamic(_, ts) => Expand(out, ts)
  }

  /** A whole compressed stream, from bit position pos on: the last block, and only
      the last one, is marked final. */
  ghost predicate ValidStream(bs: seq<Block>) {
    bs != [] && forall i :: 0 <= i < |bs| ==> ValidBlock(bs[i])
  }

  ghost function StreamBits(bs: seq<Block>, pos: nat): seq<bit>
    requires ValidStream(bs)
    decreases |bs|
  {
    var b := BlockBits(bs[0], |bs| == 1, pos);
    if |bs| == 1 then b else b + StreamBits(bs[1..], pos + |b|)
  }

  ghost predicate StreamExpandable(out: seq<byte>, bs: seq<Block>)
    decreases |bs|
  {
    bs == [] || (BlockExpandable(out, bs[0]) && StreamExpandable(ExpandBlock(out, bs[0]), bs[1..]))
  }

  /** The data a stream stands for, decoded behind `out`. */
  ghost function ExpandStream(out: seq<byte>, bs: seq<Block>): (r: seq<byte>)
    requires StreamExpandable(out, bs)
    ensures |r| >= |out|
    decreases |bs|
  {
    if bs == [] then out else ExpandStream(ExpandBlock(out, bs[0]), bs[1..])
  }
}
