/** Scanlines and pixels as RFC 2083 words them, apart from the program: how lines are
    filtered and pixels packed, and which pixel comes in which pass. */
module Rfc2083 {
  import opened Bits

  // ----- Filters (section 6)

  function Distance(x: int, y: int): int {
    if x < y then y - x else x - y
  }

  /** The neighbour nearest to left + above - above left; of equally near ones the left,
      then the one above. */
  predicate Nearest(left: byte, above: byte, corner: byte, p: byte) {
    var e: int := left as int + above as int - corner as int;
    var dl, da, dc := Distance(e, left), Distance(e, above), Distance(e, corner);
    || (p == left && dl <= da && dl <= dc)
    || (p == above && da < dl && da <= dc)
    || (p == corner && dc < dl && dc < da)
  }

  /** What a filter type predicts from the byte to the left, above, and above left. */
  predicate Predicted(t: byte, left: byte, above: byte, corner: byte, p: byte) {
    || (t == 0 && p == 0)
    || (t == 1 && p == left)
    || (t == 2 && p == above)
    || (t == 3 && 2 * (p as int) <= left as int + above as int <= 2 * (p as int) + 1)
    || (t == 4 && Nearest(left, above, corner, p))
  }

  /** Bytes outside of the line count as zero. */
  function Byte(line: seq<byte>, i: int): byte {
    if 0 <= i < |line| then line[i] else 0
  }

  /** What filtering has taken from each byte, modulo 256, is its prediction; bytes of
      neighbouring pixels are bw apart. */
  ghost predicate FilteredLine(line: seq<byte>, prior: seq<byte>, bw: nat, t: byte, raw: seq<byte>) {
    && |raw| == |line|
    && forall i :: 0 <= i < |line| ==> FilteredByte(line, prior, bw, t, raw, i)
  }

  predicate FilteredByte(line: seq<byte>, prior: seq<byte>, bw: nat, t: byte, raw: seq<byte>, i: nat)
    requires i < |line| == |raw|
  {
    Predicted(t, Byte(line, i - bw), Byte(prior, i), Byte(prior, i - bw), Taken(line[i], raw[i]))
  }

  function Taken(v: byte, x: byte): byte {
    (v as int - x as int) % 256
  }

  /** Line y of lines of n bytes; above the first one there is none. */
  function Line(rows: seq<byte>, n: nat, y: int): seq<byte> {
    if y >= 0 && (y + 1) * n <= |rows| then LineBounds(y, n, |rows|); rows[y * n..(y + 1) * n] else []
  }

  lemma LineBounds(y: nat, n: nat, size: nat)
    requires (y + 1) * n <= size
    ensures 0 <= y * n <= (y + 1) * n <= size
  {
  }

  /** The data are lines with their filter types in front, and stand for these lines. */
  ghost predicate FilteredLines(data: seq<byte>, rows: seq<byte>, n: nat, bw: nat, h: nat) {
    && |data| == h * (n + 1) && |rows| == h * n
    && forall y :: 0 <= y < h ==> FilteredRow(Line(data, n + 1, y), Line(rows, n, y), Line(rows, n, y - 1), bw)
  }

  ghost predicate FilteredRow(typed: seq<byte>, line: seq<byte>, prior: seq<byte>, bw: nat) {
    typed != [] && FilteredLine(line, prior, bw, typed[0], typed[1..])
  }

  // ----- Pixels in lines (section 2.3)

  /** Lines start at bytes; in a byte, the leftmost pixel has the high bits. */
  function LineBit(rows: seq<byte>, n: nat, y: nat, k: nat): bit
    requires 0 <= y * n + k / 8 < |rows|
  {
    rows[y * n + k / 8] as nat / Pow2(7 - k % 8) % 2
  }

  /** Lines of w pixels fill up their last byte. */
  predicate LineSize(n: nat, w: nat, bpp: nat) {
    w * bpp <= 8 * n < w * bpp + 8
  }

  /** Bytes of a whole pixel, at least one. */
  predicate PixelSize(bw: nat, bpp: nat) {
    if bpp < 8 then bw == 1 else 8 * bw == bpp
  }

  /** The data are lines, and these are the bits of their pixels, l for each line. */
  ghost predicate Shows(data: seq<byte>, w: nat, h: nat, bpp: nat, bits: seq<bit>) {
    exists rows: seq<byte>, n: nat, bw: nat ::
      LineSize(n, w, bpp) && PixelSize(bw, bpp) && FilteredLines(data, rows, n, bw, h) && Packed(bits, w * bpp, rows, n, h)
  }

  ghost predicate Packed(bits: seq<bit>, l: nat, rows: seq<byte>, n: nat, h: nat) {
    && |bits| == h * l && |rows| == h * n && l <= 8 * n
    && forall y, k :: 0 <= y < h && 0 <= k < l ==> SameBit(bits, l, rows, n, y, k)
  }

  predicate SameBit(bits: seq<bit>, l: nat, rows: seq<byte>, n: nat, y: nat, k: nat) {
    0 <= y * l + k < |bits| && 0 <= y * n + k / 8 < |rows| && bits[y * l + k] == LineBit(rows, n, y, k)
  }

  // ----- Interlacing (section 2.6)

  const ADAM7: seq<seq<nat>> :=
    [[1, 6, 4, 6, 2, 6, 4, 6],
     [7, 7, 7, 7, 7, 7, 7, 7],
     [5, 6, 5, 6, 5, 6, 5, 6],
     [7, 7, 7, 7, 7, 7, 7, 7],
     [3, 6, 4, 6, 3, 6, 4, 6],
     [7, 7, 7, 7, 7, 7, 7, 7],
     [5, 6, 5, 6, 5, 6, 5, 6],
     [7, 7, 7, 7, 7, 7, 7, 7]]

  /** The pass of the pixel in column u and row v, from 1 on. */
  function Pass(u: nat, v: nat): nat {
    ADAM7[v % 8][u % 8]
  }

  ghost predicate HasColumn(p: nat, u: nat) {
    exists v: nat :: Pass(u, v) == p
  }

  ghost predicate HasRow(p: nat, v: nat) {
    exists u: nat :: Pass(u, v) == p
  }

  /** Columns before u, and rows before v, that have pixels of pass p. */
  ghost function ColumnsOf(p: nat, u: nat): nat {
    if u == 0 then 0 else ColumnsOf(p, u - 1) + if HasColumn(p, u - 1) then 1 else 0
  }

  ghost function RowsOf(p: nat, v: nat): nat {
    if v == 0 then 0 else RowsOf(p, v - 1) + if HasRow(p, v - 1) then 1 else 0
  }

  /** A pass without rows has no columns, and the other way round. */
  ghost function WidthOf(p: nat, w: nat, h: nat): nat {
    if RowsOf(p, h) == 0 then 0 else ColumnsOf(p, w)
  }

  ghost function HeightOf(p: nat, w: nat, h: nat): nat {
    if ColumnsOf(p, w) == 0 then 0 else RowsOf(p, h)
  }

  /** Each pass is an image of its own. */
  ghost predicate ShowsPasses(data: seq<byte>, w: nat, h: nat, bpp: nat, bits: seq<bit>) {
    exists parts: seq<seq<byte>>, passes: seq<seq<bit>> ::
      && |parts| == |passes| == 7
      && data == parts[0] + parts[1] + parts[2] + parts[3] + parts[4] + parts[5] + parts[6]
      && (forall i :: 0 <= i < 7 ==> Shows(parts[i], WidthOf(i + 1, w, h), HeightOf(i + 1, w, h), bpp, passes[i]))
      && Spread(bits, w, h, bpp, passes)
  }

  /** Each pixel is that of its pass. */
  ghost predicate Spread(bits: seq<bit>, w: nat, h: nat, bpp: nat, passes: seq<seq<bit>>)
    requires |passes| == 7
  {
    && |bits| == h * w * bpp
    && forall u, v :: 0 <= u < w && 0 <= v < h ==> PixelOfPass(bits, u, v, w, h, bpp, passes)
  }

  ghost predicate PixelOfPass(bits: seq<bit>, u: nat, v: nat, w: nat, h: nat, bpp: nat, passes: seq<seq<bit>>)
    requires |passes| == 7
  {
    var p := Pass(u, v);
    1 <= p <= 7
    && SamePixel(bits, v * w + u, passes[p - 1], RowsOf(p, v) * WidthOf(p, w, h) + ColumnsOf(p, u), bpp)
  }

  predicate SamePixel(a: seq<bit>, m: nat, b: seq<bit>, n: nat, bpp: nat) {
    && 0 <= m * bpp <= m * bpp + bpp <= |a| && 0 <= n * bpp <= n * bpp + bpp <= |b|
    && a[m * bpp..m * bpp + bpp] == b[n * bpp..n * bpp + bpp]
  }
}
