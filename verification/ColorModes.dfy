/** Colour modes: what the samples of a pixel mean, and which samples show a colour.

    A pixel is the list of its samples (one for grey and palette modes, up to four for
    RGBA); `Shown` and `ShownDeep` say which colour they stand for, `Written` and
    `WrittenDeep` which samples are stored for a colour. */
module ColorModes {
  import opened Bits
  import opened MsbStream

  datatype ColorType = Grey | Rgb | Palette | GreyAlpha | Rgba

  datatype Color = Color(r: nat, g: nat, b: nat, a: nat)

  /** `palette` is empty when none was allocated and else has room for 256 colours,
      of which the first `palettesize` are in use. */
  datatype Mode = Mode(colortype: ColorType, bitdepth: nat, palette: seq<byte>, palettesize: nat,
                       keyDefined: bool, keyR: nat, keyG: nat, keyB: nat)

  predicate ValidMode(mode: Mode) {
    && (match mode.colortype
        case Grey => mode.bitdepth == 1 || mode.bitdepth == 2 || mode.bitdepth == 4 || mode.bitdepth == 8 || mode.bitdepth == 16
        case Palette => mode.bitdepth == 1 || mode.bitdepth == 2 || mode.bitdepth == 4 || mode.bitdepth == 8
        case _ => mode.bitdepth == 8 || mode.bitdepth == 16)
    && (mode.palette == [] || |mode.palette| == 1024)
    && mode.palettesize <= 256
    && (mode.palettesize > 0 ==> mode.palette != [])
  }

  function Channels(colortype: ColorType): nat {
    match colortype
    case Grey => 1
    case Rgb => 3
    case Palette => 1
    case GreyAlpha => 2
    case Rgba => 4
  }

  function Bpp(mode: Mode): nat {
    Channels(mode.colortype) * mode.bitdepth
  }

  /** Bytes of n pixels of bpp bits. */
  function RawSize(n: nat, bpp: nat): nat {
    n / 8 * bpp + (n % 8 * bpp + 7) / 8
  }

  // ----- Where the samples of a picture lie

  /** Bits of n samples. */
  function SampleBits(n: nat, depth: nat): nat {
    if depth == 1 then n else if depth == 2 then 2 * n else if depth == 4 then 4 * n else if depth == 8 then 8 * n else 16 * n
  }

  /** Bits of n pixels. */
  function PixelBits(n: nat, mode: Mode): nat {
    match mode.colortype
    case Grey => SampleBits(n, mode.bitdepth)
    case Rgb => SampleBits(3 * n, mode.bitdepth)
    case Palette => SampleBits(n, mode.bitdepth)
    case GreyAlpha => SampleBits(2 * n, mode.bitdepth)
    case Rgba => SampleBits(4 * n, mode.bitdepth)
  }

  lemma RawSizeHolds(n: nat, mode: Mode)
    requires ValidMode(mode)
    ensures PixelBits(n, mode) == Times(n, Bpp(mode)) <= 8 * RawSize(n, Bpp(mode)) < PixelBits(n, mode) + 8
  {
    var bpp, q, r := Bpp(mode), n / 8, n % 8;
    assert n * bpp == 8 * (q * bpp) + r * bpp by {
      assert n == 8 * q + r;
      assert (8 * q + r) * bpp == 8 * q * bpp + r * bpp;
    }
    PixelBitsIsProduct(n, mode);
  }

  lemma PixelBitsIsProduct(n: nat, mode: Mode)
    requires ValidMode(mode)
    ensures PixelBits(n, mode) == Times(n, Bpp(mode))
  {
    var d := mode.bitdepth;
    match mode.colortype
    case Grey | Palette =>
      assert Bpp(mode) == d;
    case Rgb =>
      assert Bpp(mode) == if d == 8 then 24 else 48;
    case GreyAlpha =>
      assert Bpp(mode) == if d == 8 then 16 else 32;
    case Rgba =>
      assert Bpp(mode) == if d == 8 then 32 else 64;
  }

  /** Two bytes, the high one first. */
  function Word(hi: nat, lo: nat): nat {
    256 * hi + lo
  }

  /** Sample k: samples follow one another, two bytes each with the high one first, one
      byte each, or packed into bytes from the most significant bit down. */
  function Sample(data: seq<byte>, k: nat, depth: nat): nat
    requires SampleBits(k + 1, depth) <= 8 * |data|
  {
    if depth == 16 then Word(data[2 * k], data[2 * k + 1])
    else if depth == 8 then data[k]
    else if depth == 4 then MsbVal(Stream(data)[4 * k..4 * k + 4])
    else if depth == 2 then MsbVal(Stream(data)[2 * k..2 * k + 2])
    else if depth == 1 then MsbVal(Stream(data)[k..k + 1])
    else 0
  }

  /** The samples of pixel i. */
  function Pixel(data: seq<byte>, i: nat, mode: Mode): (s: seq<nat>)
    requires ValidMode(mode) && PixelBits(i + 1, mode) <= 8 * |data|
    ensures |s| == Channels(mode.colortype)
  {
    var d := mode.bitdepth;
    match mode.colortype
    case Grey => [Sample(data, i, d)]
    case Rgb => [Sample(data, 3 * i, d), Sample(data, 3 * i + 1, d), Sample(data, 3 * i + 2, d)]
    case Palette => [Sample(data, i, d)]
    case GreyAlpha => [Sample(data, 2 * i, d), Sample(data, 2 * i + 1, d)]
    case Rgba => [Sample(data, 4 * i, d), Sample(data, 4 * i + 1, d), Sample(data, 4 * i + 2, d), Sample(data, 4 * i + 3, d)]
  }

  /** Largest sample plus one. */
  function Range(depth: nat): nat {
    if depth == 1 then 2 else if depth == 2 then 4 else if depth == 4 then 16 else if depth == 8 then 256 else 65536
  }

  /** A pixel of this mode: as many samples as channels, each of the bit depth. */
  predicate PixelOk(s: seq<nat>, mode: Mode) {
    |s| == Channels(mode.colortype) && forall c :: 0 <= c < |s| ==> s[c] < Range(mode.bitdepth)
  }

  lemma SampleRange(data: seq<byte>, k: nat, depth: nat)
    requires SampleBits(k + 1, depth) <= 8 * |data|
    requires depth == 1 || depth == 2 || depth == 4 || depth == 8 || depth == 16
    ensures Sample(data, k, depth) < Range(depth)
  {
    hide Stream, MsbVal;
    assert Pow2(1) == 2 && Pow2(2) == 4 && Pow2(4) == 16;
    if depth == 1 {
      MsbValBound(Stream(data)[k..k + 1]);
    } else if depth == 2 {
      MsbValBound(Stream(data)[2 * k..2 * k + 2]);
    } else if depth == 4 {
      MsbValBound(Stream(data)[4 * k..4 * k + 4]);
    }
  }

  lemma PixelRange(data: seq<byte>, i: nat, mode: Mode)
    requires ValidMode(mode) && PixelBits(i + 1, mode) <= 8 * |data|
    ensures PixelOk(Pixel(data, i, mode), mode)
  {
    hide Sample;
    var d, s := mode.bitdepth, Pixel(data, i, mode);
    match mode.colortype
    case Grey | Palette =>
      SampleRange(data, i, d);
    case Rgb =>
      SampleRange(data, 3 * i, d);
      SampleRange(data, 3 * i + 1, d);
      SampleRange(data, 3 * i + 2, d);
    case GreyAlpha =>
      SampleRange(data, 2 * i, d);
      SampleRange(data, 2 * i + 1, d);
    case Rgba =>
      SampleRange(data, 4 * i, d);
      SampleRange(data, 4 * i + 1, d);
      SampleRange(data, 4 * i + 2, d);
      SampleRange(data, 4 * i + 3, d);
  }

  // ----- The colour of a pixel

  /** A sample on the scale 0 to 255. */
  function To8(v: nat, depth: nat): (x: nat)
  {
    if depth == 1 then v * 255 else if depth == 2 then v * 85 else if depth == 4 then v * 17
    else if depth == 8 then v else v / 256
  }

  /** A value from 0 to 255 as a sample. */
  function From8(x: nat, depth: nat): (v: nat)
  {
    if depth == 1 then x / 128 else if depth == 2 then x / 64 else if depth == 4 then x / 16
    else if depth == 8 then x else 257 * x
  }

  /** The samples are the ones of the colour that counts as transparent. */
  predicate IsKey(mode: Mode, r: nat, g: nat, b: nat) {
    mode.keyDefined && r == mode.keyR && (mode.colortype == Rgb ==> g == mode.keyG && b == mode.keyB)
  }

  function Entry(palette: seq<byte>, index: nat): Color
    requires 4 * index + 4 <= |palette|
  {
    Color(palette[4 * index], palette[4 * index + 1], palette[4 * index + 2], palette[4 * index + 3])
  }

  /** The colour of a pixel with eight bits per channel. */
  function Shown(s: seq<nat>, mode: Mode): Color
    requires ValidMode(mode) && PixelOk(s, mode) && (mode.colortype == Palette ==> mode.palette != [])
  {
    var d := mode.bitdepth;
    match mode.colortype
    case Grey =>
      var x := To8(s[0], d);
      Color(x, x, x, if IsKey(mode, s[0], s[0], s[0]) then 0 else 255)
    case Rgb =>
      Color(To8(s[0], d), To8(s[1], d), To8(s[2], d), if IsKey(mode, s[0], s[1], s[2]) then 0 else 255)
    case Palette =>
      Entry(mode.palette, s[0])
    case GreyAlpha =>
      var x := To8(s[0], d);
      Color(x, x, x, To8(s[1], d))
    case Rgba =>
      Color(To8(s[0], d), To8(s[1], d), To8(s[2], d), To8(s[3], d))
  }

  /** The colour of a pixel with sixteen bits per channel. */
  function ShownDeep(s: seq<nat>, mode: Mode): Color
    requires ValidMode(mode) && mode.bitdepth == 16 && PixelOk(s, mode)
  {
    match mode.colortype
    case Grey => Color(s[0], s[0], s[0], if IsKey(mode, s[0], s[0], s[0]) then 0 else 65535)
    case Rgb => Color(s[0], s[1], s[2], if IsKey(mode, s[0], s[1], s[2]) then 0 else 65535)
    case GreyAlpha => Color(s[0], s[0], s[0], s[1])
    case Rgba => Color(s[0], s[1], s[2], s[3])
  }

  /** Every channel within eight bits. */
  predicate Bytes(c: Color) {
    c.r < 256 && c.g < 256 && c.b < 256 && c.a < 256
  }

  lemma ShownIsBytes(s: seq<nat>, mode: Mode)
    requires ValidMode(mode) && PixelOk(s, mode) && (mode.colortype == Palette ==> mode.palette != [])
    ensures Bytes(Shown(s, mode))
  {
  }

  // ----- The samples stored for a colour

  /** The last of the first n palette entries with this colour, or -1. */
  function IndexIn(palette: seq<byte>, n: nat, c: Color): (k: int)
    requires 4 * n <= |palette|
    ensures -1 <= k < n
    ensures k >= 0 ==> Entry(palette, k) == c
    ensures k < 0 <==> forall j {:trigger Entry(palette, j)} :: 0 <= j < n ==> Entry(palette, j) != c
  {
    if n == 0 then -1 else if Entry(palette, n - 1) == c then n - 1 else IndexIn(palette, n - 1, c)
  }

  /** Palette entries that an index of the bit depth can name. */
  function Reachable(palettesize: nat, bitdepth: nat): nat {
    if palettesize < Range(bitdepth) then palettesize else Range(bitdepth)
  }

  /** A colour has samples in this mode; only a palette can lack it. */
  predicate Available(c: Color, mode: Mode)
    requires ValidMode(mode)
  {
    mode.colortype == Palette ==> IndexIn(mode.palette, Reachable(mode.palettesize, mode.bitdepth), c) >= 0
  }

  /** The samples stored for a colour of eight bits per channel. */
  function Written(c: Color, mode: Mode): (s: seq<nat>)
    requires ValidMode(mode) && Bytes(c) && Available(c, mode)
    ensures PixelOk(s, mode)
  {
    var d := mode.bitdepth;
    match mode.colortype
    case Grey => [From8(c.r, d)]
    case Rgb => [From8(c.r, d), From8(c.g, d), From8(c.b, d)]
    case Palette => [IndexIn(mode.palette, Reachable(mode.palettesize, mode.bitdepth), c)]
    case GreyAlpha => [From8(c.r, d), From8(c.a, d)]
    case Rgba => [From8(c.r, d), From8(c.g, d), From8(c.b, d), From8(c.a, d)]
  }

  /** Every channel within sixteen bits. */
  predicate Words(c: Color) {
    c.r < 65536 && c.g < 65536 && c.b < 65536 && c.a < 65536
  }

  /** The samples stored for a colour of sixteen bits per channel. */
  function WrittenDeep(c: Color, mode: Mode): (s: seq<nat>)
    requires ValidMode(mode) && mode.bitdepth == 16
  {
    match mode.colortype
    case Grey => [c.r]
    case Rgb => [c.r, c.g, c.b]
    case GreyAlpha => [c.r, c.a]
    case Rgba => [c.r, c.g, c.b, c.a]
  }

  // ----- What survives

  /** Values that a sample of few bits can hold. */
  predicate Level(x: nat, depth: nat) {
    (depth == 1 ==> x % 255 == 0) && (depth == 2 ==> x % 85 == 0) && (depth == 4 ==> x % 17 == 0)
  }

  lemma LevelExactly(x: nat, depth: nat)
    requires x < 256 && (depth == 1 || depth == 2 || depth == 4 || depth == 8 || depth == 16)
    ensures To8(From8(x, depth), depth) == x <==> Level(x, depth)
  {
    if depth < 8 {
      var unit, v := 255 / (Range(depth) - 1), From8(x, depth);
      assert unit == if depth == 1 then 255 else if depth == 2 then 85 else 17;
      if Level(x, depth) {
        LevelIsKept(x, x / unit, depth);
      }
    }
  }

  lemma LevelIsKept(x: nat, v: nat, depth: nat)
    requires x < 256 && (depth == 1 || depth == 2 || depth == 4) && x == To8(v, depth)
    ensures From8(x, depth) == v
  {
    if depth == 4 {
      assert 17 * v / 16 == v + v / 16;
    }
  }

  /** The colour can be told from its samples: grey where the mode has one shade, on the
      scale of the bit depth, transparent exactly if it is the key, in the palette. */
  predicate Fits(c: Color, mode: Mode)
    requires ValidMode(mode)
  {
    var d := mode.bitdepth;
    match mode.colortype
    case Grey =>
      && c.r == c.g == c.b && Level(c.r, d)
      && c.a == if mode.keyDefined && From8(c.r, d) == mode.keyR then 0 else 255
    case Rgb =>
      c.a == if mode.keyDefined && From8(c.r, d) == mode.keyR && From8(c.g, d) == mode.keyG && From8(c.b, d) == mode.keyB then 0 else 255
    case Palette => exists j {:trigger Entry(mode.palette, j)} :: 0 <= j < Reachable(mode.palettesize, d) && Entry(mode.palette, j) == c
    case GreyAlpha => c.r == c.g == c.b
    case Rgba => true
  }

  /** A colour is read back from its samples exactly if it fits the mode. */
  lemma FitsExactly(c: Color, mode: Mode)
    requires ValidMode(mode) && Bytes(c) && (mode.colortype == Palette ==> mode.palette != [])
    ensures Fits(c, mode) <==> Available(c, mode) && Shown(Written(c, mode), mode) == c
  {
    hide To8, From8, Level, Entry, IndexIn;
    var d := mode.bitdepth;
    LevelExactly(c.r, d);
    LevelExactly(c.g, d);
    LevelExactly(c.b, d);
    LevelExactly(c.a, d);
    if mode.colortype != Grey && mode.colortype != Palette {
      EveryLevel(c, mode);
    }
  }

  lemma EveryLevel(c: Color, mode: Mode)
    requires ValidMode(mode) && mode.colortype != Grey && mode.colortype != Palette
    ensures Level(c.r, mode.bitdepth) && Level(c.g, mode.bitdepth) && Level(c.b, mode.bitdepth) && Level(c.a, mode.bitdepth)
  {
  }

  /** What is read from samples of at most eight bits is stored as the same samples,
      unless a palette lists the colour again. */
  lemma ShallowSamplesKept(s: seq<nat>, mode: Mode)
    requires ValidMode(mode) && PixelOk(s, mode) && mode.bitdepth <= 8 && mode.colortype != Palette
    ensures Bytes(Shown(s, mode)) && Written(Shown(s, mode), mode) == s
  {
  }

  lemma DeepSamplesKept(s: seq<nat>, mode: Mode)
    requires ValidMode(mode) && mode.bitdepth == 16 && PixelOk(s, mode)
    ensures WrittenDeep(ShownDeep(s, mode), mode) == s && Words(ShownDeep(s, mode))
  {
  }
}
