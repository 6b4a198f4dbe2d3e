/** What the bytes of a picture say about its colours (RFC 2083 sections 2.1 to 2.4 and
    10.4), byte by byte for every colour type and depth. */
module ColorRules {
  import opened Bits
  import opened ColorModes

  /** The value of d = 1, 2, 4 or 8 bits at place k, in bytes from the high bits down. */
  function PackedSample(data: seq<byte>, k: nat, d: nat): (v: nat)
    requires d == 1 || d == 2 || d == 4 || d == 8
    requires SampleBits(k + 1, d) <= 8 * |data|
  {
    if d == 8 then data[k]
    else if d == 4 then data[k / 2] as nat / (if k % 2 == 0 then 16 else 1) % 16
    else if d == 2 then data[k / 4] as nat / Pow2(6 - 2 * (k % 4)) % 4
    else data[k / 8] as nat / Pow2(7 - k % 8) % 2
  }

  /** x is the level v of d bits on the scale from 0 to 255. */
  predicate OnScale(x: nat, v: nat, d: nat) {
    x * (Pow2(d) - 1) == 255 * v
  }

  /** Of the levels of d bits, v is that of the part of the scale in which x lies. */
  predicate CutDown(x: nat, v: nat, d: nat) {
    v * 256 <= x * Pow2(d) < (v + 1) * 256
  }

  /** The number in two bytes, the high one first. */
  function Pair(data: seq<byte>, i: nat): nat
    requires i + 1 < |data|
  {
    data[i] as nat * 256 + data[i + 1]
  }

  /** Full alpha, but none for the key. */
  function Alpha(mode: Mode, key: bool, full: nat): nat {
    if mode.keyDefined && key then 0 else full
  }

  predicate KeyWords(mode: Mode, r: nat, g: nat, b: nat) {
    mode.keyR == r && mode.keyG == g && mode.keyB == b
  }

  // ----- Eight bits for each channel

  /** Pixel k of the data has this colour. */
  predicate Reads8(data: seq<byte>, k: nat, mode: Mode, c: Color)
    requires ValidMode(mode) && PixelBits(k + 1, mode) <= 8 * |data|
  {
    var d := mode.bitdepth;
    match mode.colortype
    case Grey =>
      c.r == c.g == c.b
      && if d == 16 then c.r == data[2 * k] && c.a == Alpha(mode, mode.keyR == Pair(data, 2 * k), 255)
         else OnScale(c.r, PackedSample(data, k, d), d) && c.a == Alpha(mode, mode.keyR == PackedSample(data, k, d), 255)
    case Rgb =>
      if d == 16 then
        && [c.r, c.g, c.b] == [data[6 * k], data[6 * k + 2], data[6 * k + 4]]
        && c.a == Alpha(mode, KeyWords(mode, Pair(data, 6 * k), Pair(data, 6 * k + 2), Pair(data, 6 * k + 4)), 255)
      else
        && [c.r, c.g, c.b] == data[3 * k..3 * k + 3]
        && c.a == Alpha(mode, KeyWords(mode, data[3 * k], data[3 * k + 1], data[3 * k + 2]), 255)
    case Palette =>
      var i := PackedSample(data, k, d);
      i < 256 && 4 * i + 4 <= |mode.palette| && [c.r, c.g, c.b, c.a] == mode.palette[4 * i..4 * i + 4]
    case GreyAlpha =>
      c.r == c.g == c.b && [c.r, c.a] == if d == 16 then [data[4 * k], data[4 * k + 2]] else data[2 * k..2 * k + 2]
    case Rgba =>
      [c.r, c.g, c.b, c.a]
      == if d == 16 then [data[8 * k], data[8 * k + 2], data[8 * k + 4], data[8 * k + 6]] else data[4 * k..4 * k + 4]
  }

  /** Pixel k of the data has been written for this colour. */
  ghost predicate Writes8(data: seq<byte>, k: nat, mode: Mode, c: Color)
    requires ValidMode(mode) && PixelBits(k + 1, mode) <= 8 * |data|
  {
    var d := mode.bitdepth;
    match mode.colortype
    case Grey => if d == 16 then data[2 * k..2 * k + 2] == [c.r, c.r] else CutDown(c.r, PackedSample(data, k, d), d)
    case Rgb =>
      if d == 16 then data[6 * k..6 * k + 6] == [c.r, c.r, c.g, c.g, c.b, c.b] else data[3 * k..3 * k + 3] == [c.r, c.g, c.b]
    case Palette =>
      var i := PackedSample(data, k, d);
      && i < mode.palettesize && HasColor(mode.palette, i, c)
      && forall j :: i < j < mode.palettesize && j < Pow2(d) ==> !HasColor(mode.palette, j, c)
    case GreyAlpha =>
      if d == 16 then data[4 * k..4 * k + 4] == [c.r, c.r, c.a, c.a] else data[2 * k..2 * k + 2] == [c.r, c.a]
    case Rgba =>
      if d == 16 then data[8 * k..8 * k + 8] == [c.r, c.r, c.g, c.g, c.b, c.b, c.a, c.a]
      else data[4 * k..4 * k + 4] == [c.r, c.g, c.b, c.a]
  }

  predicate HasColor(palette: seq<byte>, i: nat, c: Color) {
    4 * i + 4 <= |palette| && palette[4 * i..4 * i + 4] == [c.r, c.g, c.b, c.a]
  }

  // ----- Sixteen bits for each channel, in two bytes

  /** Pixel k of the data has the colour of these eight bytes. */
  predicate Reads16(data: seq<byte>, k: nat, mode: Mode, c: seq<byte>)
    requires ValidMode(mode) && mode.bitdepth == 16 && PixelBits(k + 1, mode) <= 8 * |data|
  {
    match mode.colortype
    case Grey =>
      var x, a := data[2 * k..2 * k + 2], Alpha(mode, mode.keyR == Pair(data, 2 * k), 255);
      c == x + x + x + [a, a]
    case Rgb =>
      var a := Alpha(mode, KeyWords(mode, Pair(data, 6 * k), Pair(data, 6 * k + 2), Pair(data, 6 * k + 4)), 255);
      c == data[6 * k..6 * k + 6] + [a, a]
    case GreyAlpha =>
      var x := data[4 * k..4 * k + 2];
      c == x + x + x + data[4 * k + 2..4 * k + 4]
    case Rgba => c == data[8 * k..8 * k + 8]
  }

  /** Pixel k of the data has been written for the colour of these eight bytes. */
  predicate Writes16(data: seq<byte>, k: nat, mode: Mode, c: seq<byte>)
    requires ValidMode(mode) && mode.bitdepth == 16 && PixelBits(k + 1, mode) <= 8 * |data|
  {
    |c| == 8
    && match mode.colortype
       case Grey => data[2 * k..2 * k + 2] == c[..2]
       case Rgb => data[6 * k..6 * k + 6] == c[..6]
       case GreyAlpha => data[4 * k..4 * k + 4] == c[..2] + c[6..]
       case Rgba => data[8 * k..8 * k + 8] == c
  }

  /** A pixel has been converted: by way of sixteen bits if both modes have them. */
  ghost predicate Converts(out: seq<byte>, target: Mode, input: seq<byte>, mode: Mode, k: nat)
    requires ValidMode(mode) && PixelBits(k + 1, mode) <= 8 * |input|
    requires ValidMode(target) && PixelBits(k + 1, target) <= 8 * |out|
  {
    if mode.bitdepth == 16 && target.bitdepth == 16 then
      exists c :: Reads16(input, k, mode, c) && Writes16(out, k, target, c)
    else
      exists c :: Reads8(input, k, mode, c) && Writes8(out, k, target, c)
  }
}
