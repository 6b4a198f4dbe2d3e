/** The compressed format as RFC 1951 words it: which blocks there are, the bits they are
    written with, and the bytes they stand for.  Codes, tables, orders and fields are defined
    here from the text; of the program only the shape of tokens, runs, headers and blocks is
    used. */
module Rfc1951 {
  import opened Bits
  import opened CanonicalCode
  import opened DeflateFormat

  // ----- Bits (section 3.1.1)

  /** A number in n bits, the lowest one first. */
  function Field(v: nat, n: nat): (b: seq<bit>)
    ensures |b| == n
  {
    seq(n, i requires 0 <= i < n => v / Pow2(i) % 2)
  }

  /** A Huffman code of n bits, the highest one first. */
  function CodeField(v: nat, n: nat): (b: seq<bit>)
    ensures |b| == n
  {
    seq(n, i requires 0 <= i < n => v / Pow2(n - 1 - i) % 2)
  }

  function DataBits(data: seq<byte>): (b: seq<bit>)
    ensures |b| == 8 * |data|
  {
    if data == [] then [] else Field(data[0], 8) + DataBits(data[1..])
  }

  // ----- Codes (sections 3.2.1 and 3.2.2)

  /** What the codes of the first k symbols take of the codes of length l: all that are
      shorter, and those of the same length for symbols before n. */
  function Taken(lens: Lengths, l: nat, n: nat, k: nat): nat
    requires k <= |lens|
  {
    if k == 0 then 0
    else
      Taken(lens, l, n, k - 1)
      + if 0 < lens[k - 1] < l || (lens[k - 1] == l && k - 1 < n) then Pow2(l - lens[k - 1]) else 0
  }

  /** Codes of the same length follow one another in the order of the symbols, and shorter
      codes come first. */
  function CodeOf(lens: Lengths, n: nat): (b: seq<bit>)
    requires n < |lens|
    ensures |b| == lens[n]
  {
    CodeField(Taken(lens, lens[n], n, |lens|), lens[n])
  }

  predicate ComesNext(lens: Lengths, n: nat, b: seq<bit>) {
    n < |lens| && 0 < lens[n] <= |b| && b[..lens[n]] == CodeOf(lens, n)
  }

  /** Just one symbol's code comes next. */
  ghost predicate OneCode(lens: Lengths, b: seq<bit>) {
    exists n: nat :: ComesNext(lens, n, b) && forall m: nat :: ComesNext(lens, m, b) ==> m == n
  }

  /** The codes are the leaves of a tree in which every other node has both branches. */
  ghost predicate FullTree(lens: Lengths) {
    forall b: seq<bit> :: |b| == LONGEST ==> OneCode(lens, b)
  }

  /** No symbol but n has a code. */
  predicate Alone(lens: Lengths, n: nat) {
    n < |lens| && lens[n] > 0 && forall m :: 0 <= m < |lens| && m != n ==> lens[m] == 0
  }

  predicate ShortAlone(d: Lengths) {
    exists n :: 0 <= n < |d| && Alone(d, n) && d[n] == 1
  }

  /** A single distance code has one bit, and there may be none (section 3.2.7). */
  ghost predicate DistanceTree(d: Lengths) {
    FullTree(d) || ShortAlone(d) || forall i :: 0 <= i < |d| ==> d[i] == 0
  }

  // ----- Lengths and distances (section 3.2.5)

  /** The longest length and the farthest distance of each code; the next code goes on
      from there. */
  const LENGTHTOP: seq<nat> :=
    [3, 4, 5, 6, 7, 8, 9, 10, 12, 14, 16, 18, 22, 26, 30, 34, 42, 50, 58, 66, 82, 98, 114, 130, 162, 194, 226, 257, 258]
  const DISTANCETOP: seq<nat> :=
    [1, 2, 3, 4, 6, 8, 12, 16, 24, 32, 48, 64, 96, 128, 192, 256, 384, 512, 768, 1024, 1536, 2048, 3072, 4096, 6144,
     8192, 12288, 16384, 24576, 32768]

  function LengthLow(c: nat): nat
    requires c < 29
  {
    if c == 0 then 3 else LENGTHTOP[c - 1] + 1
  }

  function DistanceLow(c: nat): nat
    requires c < 30
  {
    if c == 0 then 1 else DISTANCETOP[c - 1] + 1
  }

  function LengthField(c: nat): nat {
    if c < 4 || c == 28 then 0 else c / 4 - 1
  }

  function DistanceField(c: nat): nat {
    if c < 2 then 0 else c / 2 - 1
  }

  predicate RfcToken(t: Token) {
    t.Match? ==>
      && t.lcode < 29 && LengthLow(t.lcode) + t.lextra <= LENGTHTOP[t.lcode]
      && t.dcode < 30 && DistanceLow(t.dcode) + t.dextra <= DISTANCETOP[t.dcode]
  }

  predicate AllRfcTokens(ts: seq<Token>) {
    forall i :: 0 <= i < |ts| ==> RfcToken(ts[i])
  }

  /** Literals 0 to 255 and lengths from 257 on share an alphabet. */
  predicate HasCode(ll: Lengths, d: Lengths, t: Token) {
    match t
    case Literal(b) => b < |ll| && ll[b] > 0
    case Match(lcode, _, dcode, _) => 257 + lcode < |ll| && ll[257 + lcode] > 0 && dcode < |d| && d[dcode] > 0
  }

  predicate HasCodes(ll: Lengths, d: Lengths, ts: seq<Token>) {
    forall i :: 0 <= i < |ts| ==> HasCode(ll, d, ts[i])
  }

  function RfcTokenBits(ll: Lengths, d: Lengths, t: Token): seq<bit>
    requires HasCode(ll, d, t)
  {
    match t
    case Literal(b) => CodeOf(ll, b)
    case Match(lcode, lextra, dcode, dextra) =>
      CodeOf(ll, 257 + lcode) + Field(lextra, LengthField(lcode)) + CodeOf(d, dcode) + Field(dextra, DistanceField(dcode))
  }

  /** The tokens of a block and the end code, which is 256. */
  function RfcTokensBits(ll: Lengths, d: Lengths, ts: seq<Token>): seq<bit>
    requires HasCodes(ll, d, ts) && 256 < |ll|
  {
    if ts == [] then CodeOf(ll, 256) else RfcTokenBits(ll, d, ts[0]) + RfcTokensBits(ll, d, ts[1..])
  }

  // ----- Fixed codes (section 3.2.6)

  function RfcFixedLL(): (ll: Lengths)
    ensures |ll| == 288
  {
    seq(144, _ => 8) + seq(112, _ => 9) + seq(24, _ => 7) + seq(8, _ => 8)
  }

  function RfcFixedD(): (d: Lengths)
    ensures |d| == 32
  {
    seq(32, _ => 5)
  }

  // ----- Dynamic codes (section 3.2.7)

  /** The order of the code length code lengths: the three repeat codes, 0, and then the
      lengths from 8 on outwards. */
  function OrderAt(i: nat): nat
    requires i < 19
  {
    if i < 3 then 16 + i
    else if i == 3 then 0
    else if i % 2 == 0 then 8 + (i - 4) / 2
    else 8 - (i - 3) / 2
  }

  function OrderBits(cl: Lengths, n: nat): (b: seq<bit>)
    requires |cl| == 19 && n <= 19
    ensures |b| == 3 * n
  {
    if n == 0 then [] else OrderBits(cl, n - 1) + Field(cl[OrderAt(n - 1)], 3)
  }

  predicate RfcRun(r: Run) {
    match r
    case Len(v) => v <= 15
    case Repeat(n) => 3 <= n <= 6
    case ZeroRun(n) => 3 <= n <= 138
  }

  function RunCodeSymbol(r: Run): nat {
    match r
    case Len(v) => v
    case Repeat(_) => 16
    case ZeroRun(n) => if n <= 10 then 17 else 18
  }

  predicate RunHasCode(cl: Lengths, r: Run) {
    RfcRun(r) && |cl| == 19 && cl[RunCodeSymbol(r)] > 0
  }

  function RfcRunBits(cl: Lengths, r: Run): seq<bit>
    requires RunHasCode(cl, r)
  {
    match r
    case Len(v) => CodeOf(cl, v)
    case Repeat(n) => CodeOf(cl, 16) + Field(n - 3, 2)
    case ZeroRun(n) => if n <= 10 then CodeOf(cl, 17) + Field(n - 3, 3) else CodeOf(cl, 18) + Field(n - 11, 7)
  }

  predicate RunsHaveCodes(cl: Lengths, rs: seq<Run>) {
    forall i :: 0 <= i < |rs| ==> RunHasCode(cl, rs[i])
  }

  function RfcRunsBits(cl: Lengths, rs: seq<Run>): seq<bit>
    requires RunsHaveCodes(cl, rs)
  {
    if rs == [] then [] else RfcRunBits(cl, rs[0]) + RfcRunsBits(cl, rs[1..])
  }

  /** The runs spell the lengths behind `before`: a length, copies of the last one, zeros. */
  predicate Spell(before: seq<nat>, rs: seq<Run>, lens: seq<nat>)
    decreases |rs|
  {
    if rs == [] then lens == before
    else
      match rs[0]
      case Len(v) => Spell(before + [v], rs[1..], lens)
      case Repeat(n) => before != [] && Spell(before + seq(n, _ => before[|before| - 1]), rs[1..], lens)
      case ZeroRun(n) => Spell(before + seq(n, _ => 0), rs[1..], lens)
  }

  /** The header spells these lengths, for both alphabets one behind the other. */
  ghost predicate Describes(h: Header, ll: Lengths, d: Lengths) {
    |ll| == h.hlit && |d| == h.hdist && Spell([], h.runs, ll + d)
  }

  ghost predicate RfcHeader(h: Header, ll: Lengths, d: Lengths) {
    && 257 <= h.hlit <= 286 && 1 <= h.hdist <= 32 && 4 <= h.hclen <= 19
    && |h.cl| == 19 && RunsHaveCodes(h.cl, h.runs) && FullTree(h.cl)
    && (forall i :: 0 <= i < 19 ==> h.cl[i] <= 7)
    && (forall i :: h.hclen <= i < 19 ==> h.cl[OrderAt(i)] == 0)
    && Describes(h, ll, d)
    && FullTree(ll) && ll[256] > 0 && DistanceTree(d)
  }

  function RfcHeaderBits(h: Header): seq<bit>
    requires 257 <= h.hlit && 1 <= h.hdist && 4 <= h.hclen <= 19 && |h.cl| == 19 && RunsHaveCodes(h.cl, h.runs)
  {
    Field(h.hlit - 257, 5) + Field(h.hdist - 1, 5) + Field(h.hclen - 4, 4) + OrderBits(h.cl, h.hclen) + RfcRunsBits(h.cl, h.runs)
  }

  // ----- Blocks (sections 3.2.3 and 3.2.4)

  /** b is a block of the standard that is written with these bits behind its three header
      bits, which end at position pos. */
  ghost predicate RfcBody(b: Block, pos: nat, bits: seq<bit>) {
    match b
    case Stored(data, fill, check) =>
      && |data| <= 65535 && check == 65535 - |data|
      && bits == Field(fill, (8 - pos % 8) % 8) + Field(|data|, 16) + Field(check, 16) + DataBits(data)
    case Fixed(ts) =>
      && AllRfcTokens(ts) && HasCodes(RfcFixedLL(), RfcFixedD(), ts)
      && bits == RfcTokensBits(RfcFixedLL(), RfcFixedD(), ts)
    case Dynamic(h, ts) => exists ll: Lengths, d: Lengths :: RfcDynamic(h, ts, ll, d, bits)
  }

  ghost predicate RfcDynamic(h: Header, ts: seq<Token>, ll: Lengths, d: Lengths, bits: seq<bit>) {
    && RfcHeader(h, ll, d) && AllRfcTokens(ts) && HasCodes(ll, d, ts)
    && bits == RfcHeaderBits(h) + RfcTokensBits(ll, d, ts)
  }

  function RfcType(b: Block): nat {
    match b
    case Stored(_, _, _) => 0
    case Fixed(_) => 1
    case Dynamic(_, _) => 2
  }

  /** The blocks from position pos on, the last one marked final. */
  ghost predicate RfcBits(bs: seq<Block>, pos: nat, bits: seq<bit>)
    decreases |bs|
  {
    bs != []
    && exists body: seq<bit>, rest: seq<bit> ::
         && FirstBlock(bs, pos, bits, body, rest)
         && if |bs| == 1 then rest == [] else RfcBits(bs[1..], pos + 3 + |body|, rest)
  }

  ghost predicate FirstBlock(bs: seq<Block>, pos: nat, bits: seq<bit>, body: seq<bit>, rest: seq<bit>)
    requires bs != []
  {
    && RfcBody(bs[0], pos + 3, body)
    && bits == Field(if |bs| == 1 then 1 else 0, 1) + Field(RfcType(bs[0]), 2) + body + rest
  }

  // ----- Meaning (sections 3.2.3 to 3.2.5)

  /** One token takes the output from out to r: a byte, or bytes that repeat those a
      distance back. */
  predicate TokenMeans(out: seq<byte>, t: Token, r: seq<byte>) {
    match t
    case Literal(b) => r == out + [b]
    case Match(lcode, lextra, dcode, dextra) =>
      && lcode < 29 && dcode < 30
      && Repeats(out, LengthLow(lcode) + lextra, DistanceLow(dcode) + dextra, r)
  }

  predicate Repeats(out: seq<byte>, length: nat, distance: nat, r: seq<byte>) {
    && 1 <= distance <= |out| && |r| == |out| + length && r[..|out|] == out
    && forall k :: |out| <= k < |r| ==> r[k] == r[k - distance]
  }

  ghost predicate TokensMean(out: seq<byte>, ts: seq<Token>, v: seq<byte>)
    decreases |ts|
  {
    if ts == [] then v == out else exists mid: seq<byte> :: TokenMeans(out, ts[0], mid) && TokensMean(mid, ts[1..], v)
  }

  ghost predicate BlockMeans(out: seq<byte>, b: Block, v: seq<byte>) {
    match b
    case Stored(data, _, _) => v == out + data
    case Fixed(ts) => TokensMean(out, ts, v)
    case Dynamic(_, ts) => TokensMean(out, ts, v)
  }

  ghost predicate StreamMeans(out: seq<byte>, bs: seq<Block>, v: seq<byte>)
    decreases |bs|
  {
    if bs == [] then v == out else exists mid: seq<byte> :: BlockMeans(out, bs[0], mid) && StreamMeans(mid, bs[1..], v)
  }
}
