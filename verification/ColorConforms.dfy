/** Conversion between colour modes moves the bytes that the rules say. */
module ColorConforms {
  import opened Bits
  import opened MsbStream
  import opened ColorModes
  import opened ColorConvert
  import opened ColorRoundTrip
  import opened ColorRules

  // ----- Samples

  lemma OneOf(q: nat)
    ensures MsbVal([q % 2]) == q % 2
  {
    assert [q % 2][..0] == [];
    assert MsbVal([]) == 0;
  }

  lemma TwoOf(q: nat)
    ensures MsbVal([q / 2 % 2, q % 2]) == q % 4
  {
    var b: seq<bit> := [q / 2 % 2, q % 2];
    OneOf(q / 2);
    assert b[..1] == [q / 2 % 2];
  }

  lemma FourOf(q: nat)
    ensures MsbVal([q / 8 % 2, q / 4 % 2, q / 2 % 2, q % 2]) == q % 16
  {
    var a: seq<bit>, b: seq<bit> := [q / 4 / 2 % 2, q / 4 % 2], [q / 2 % 2, q % 2];
    TwoOf(q / 4);
    TwoOf(q);
    ShlTwo(MsbVal(a));
    hide MsbVal, Shl;
    MsbValConcat(a, b);
    assert a + b == [q / 8 % 2, q / 4 % 2, q / 2 % 2, q % 2];
    FourParts(q);
  }

  lemma ShlTwo(v: nat)
    ensures Shl(v, 2) == 4 * v
  {
    assert Shl(v, 2) == 2 * Shl(v, 1);
  }

  lemma FourParts(q: nat)
    ensures 4 * (q / 4 % 4) + q % 4 == q % 16
  {
  }

  lemma LevelOne(data: seq<byte>, k: nat)
    requires k < 8 * |data|
    ensures Sample(data, k, 1) == PackedSample(data, k, 1)
  {
    hide Stream, MsbVal, Pow2;
    StreamAt(data, k);
    OneOf(data[k / 8] as nat / Pow2(7 - k % 8));
    assert Stream(data)[k..k + 1] == [Stream(data)[k]];
  }

  lemma TwoPlaces(k: nat, i: nat)
    requires i < 2
    ensures (2 * k + i) / 8 == k / 4 && (2 * k + i) % 8 == 2 * (k % 4) + i
  {
  }

  lemma QuarterByte(data: seq<byte>, k: nat, i: nat)
    requires 2 * k + 2 <= 8 * |data| && i < 2
    ensures
      var q := data[k / 4] as nat / Pow2(6 - 2 * (k % 4));
      Stream(data)[2 * k + i] as nat == (if i == 0 then q / 2 else q) % 2
  {
    Powers();
    hide Stream, Pow2;
    StreamAt(data, 2 * k + i);
    TwoPlaces(k, i);
  }

  lemma LevelTwo(data: seq<byte>, k: nat)
    requires 2 * k + 2 <= 8 * |data|
    ensures Sample(data, k, 2) == PackedSample(data, k, 2)
  {
    hide Stream, MsbVal, Pow2;
    QuarterByte(data, k, 0);
    QuarterByte(data, k, 1);
    TwoOf(data[k / 4] as nat / Pow2(6 - 2 * (k % 4)));
    assert Stream(data)[2 * k..2 * k + 2] == [Stream(data)[2 * k], Stream(data)[2 * k + 1]];
  }

  lemma FourPlaces(k: nat, i: nat)
    requires i < 4
    ensures (4 * k + i) / 8 == k / 2 && (4 * k + i) % 8 == 4 * (k % 2) + i
  {
  }

  lemma HalfByte(data: seq<byte>, k: nat, i: nat)
    requires 4 * k + 4 <= 8 * |data| && i < 4
    ensures
      var q := data[k / 2] as nat / if k % 2 == 0 then 16 else 1;
      Stream(data)[4 * k + i] as nat == (if i == 0 then q / 8 else if i == 1 then q / 4 else if i == 2 then q / 2 else q) % 2
  {
    Powers();
    hide Stream, Pow2;
    StreamAt(data, 4 * k + i);
    FourPlaces(k, i);
  }

  lemma LevelFour(data: seq<byte>, k: nat)
    requires 4 * k + 4 <= 8 * |data|
    ensures Sample(data, k, 4) == PackedSample(data, k, 4)
  {
    hide Stream, MsbVal;
    HalfByte(data, k, 0);
    HalfByte(data, k, 1);
    HalfByte(data, k, 2);
    HalfByte(data, k, 3);
    FourOf(data[k / 2] as nat / (if k % 2 == 0 then 16 else 1));
    var s := Stream(data);
    assert s[4 * k..4 * k + 4] == [s[4 * k], s[4 * k + 1], s[4 * k + 2], s[4 * k + 3]];
  }

  /** Samples of up to eight bits are the levels in the bytes. */
  lemma LevelConforms(data: seq<byte>, k: nat, d: nat)
    requires d == 1 || d == 2 || d == 4 || d == 8
    requires SampleBits(k + 1, d) <= 8 * |data|
    ensures Sample(data, k, d) == PackedSample(data, k, d)
  {
    hide Stream, MsbVal, Pow2;
    if d == 1 {
      LevelOne(data, k);
    } else if d == 2 {
      LevelTwo(data, k);
    } else if d == 4 {
      LevelFour(data, k);
    }
  }

  lemma ScaleConforms(v: nat, d: nat)
    requires d == 1 || d == 2 || d == 4 || d == 8
    ensures OnScale(To8(v, d), v, d)
  {
    Powers();
  }

  lemma CutConforms(x: nat, d: nat)
    requires d == 1 || d == 2 || d == 4 || d == 8
    ensures CutDown(x, From8(x, d), d)
  {
    Powers();
  }

  // ----- Reading

  lemma ReadPacked(data: seq<byte>, k: nat, mode: Mode)
    requires ValidMode(mode) && PixelBits(k + 1, mode) <= 8 * |data| && (mode.colortype == Palette ==> mode.palette != [])
    requires PixelOk(Pixel(data, k, mode), mode)
    requires mode.bitdepth < 16 && (mode.colortype == Grey || mode.colortype == Palette)
    ensures Reads8(data, k, mode, Shown(Pixel(data, k, mode), mode))
  {
    hide PackedSample, OnScale, Sample, To8;
    var d := mode.bitdepth;
    LevelConforms(data, k, d);
    ScaleConforms(PackedSample(data, k, d), d);
  }

  lemma ReadBytes(data: seq<byte>, k: nat, mode: Mode)
    requires ValidMode(mode) && PixelBits(k + 1, mode) <= 8 * |data| && mode.bitdepth == 8
    requires PixelOk(Pixel(data, k, mode), mode) && mode.colortype != Grey && mode.colortype != Palette
    ensures Reads8(data, k, mode, Shown(Pixel(data, k, mode), mode))
  {
    hide PackedSample, OnScale;
  }

  lemma ReadWords(data: seq<byte>, k: nat, mode: Mode)
    requires ValidMode(mode) && PixelBits(k + 1, mode) <= 8 * |data| && mode.bitdepth == 16
    requires PixelOk(Pixel(data, k, mode), mode)
    ensures Reads8(data, k, mode, Shown(Pixel(data, k, mode), mode))
  {
    hide PackedSample, OnScale;
  }

  lemma ReadConforms(data: seq<byte>, k: nat, mode: Mode)
    requires ValidMode(mode) && PixelBits(k + 1, mode) <= 8 * |data| && (mode.colortype == Palette ==> mode.palette != [])
    ensures PixelOk(Pixel(data, k, mode), mode) && Reads8(data, k, mode, Shown(Pixel(data, k, mode), mode))
  {
    hide Reads8, Shown, Pixel;
    PixelRange(data, k, mode);
    if mode.bitdepth == 16 {
      ReadWords(data, k, mode);
    } else if mode.colortype == Grey || mode.colortype == Palette {
      ReadPacked(data, k, mode);
    } else {
      ReadBytes(data, k, mode);
    }
  }

  /** The bytes of a colour of sixteen bits per channel. */
  function DeepBytes(c: Color): (s: seq<byte>)
    requires Words(c)
  {
    HighLow(c.r) + HighLow(c.g) + HighLow(c.b) + HighLow(c.a)
  }

  function HighLow(v: nat): (s: seq<byte>)
    requires v < 65536
    ensures |s| == 2
  {
    [v / 256, v % 256]
  }

  lemma PairConforms(data: seq<byte>, i: nat)
    requires i + 1 < |data|
    ensures Word(data[i], data[i + 1]) == Pair(data, i) < 65536 && HighLow(Pair(data, i)) == data[i..i + 2]
  {
  }

  lemma FullAlpha(mode: Mode, key: bool)
    ensures var a := Alpha(mode, key, 65535); a < 65536 && HighLow(a) == [Alpha(mode, key, 255), Alpha(mode, key, 255)]
  {
  }

  lemma ReadDeepConforms(data: seq<byte>, k: nat, mode: Mode)
    requires ValidMode(mode) && mode.bitdepth == 16 && PixelBits(k + 1, mode) <= 8 * |data|
    ensures PixelOk(Pixel(data, k, mode), mode)
    ensures Words(ShownDeep(Pixel(data, k, mode), mode)) && Reads16(data, k, mode, DeepBytes(ShownDeep(Pixel(data, k, mode), mode)))
  {
    hide HighLow, Pair, Word, ShownDeep, Pixel, DeepBytes;
    PixelRange(data, k, mode);
    DeepSamplesKept(Pixel(data, k, mode), mode);
    match mode.colortype
    case Grey =>
      ReadDeepGrey(data, k, mode);
    case Rgb =>
      ReadDeepRgb(data, k, mode);
    case GreyAlpha =>
      ReadDeepGreyAlpha(data, k, mode);
    case Rgba =>
      ReadDeepRgba(data, k, mode);
  }

  lemma ReadDeepGrey(data: seq<byte>, k: nat, mode: Mode)
    requires ValidMode(mode) && mode.bitdepth == 16 && PixelBits(k + 1, mode) <= 8 * |data| && mode.colortype == Grey
    requires PixelOk(Pixel(data, k, mode), mode) && Words(ShownDeep(Pixel(data, k, mode), mode))
    ensures Reads16(data, k, mode, DeepBytes(ShownDeep(Pixel(data, k, mode), mode)))
  {
    hide HighLow, Pair, Word;
    PairConforms(data, 2 * k);
    FullAlpha(mode, mode.keyR == Pair(data, 2 * k));
  }

  lemma ReadDeepRgb(data: seq<byte>, k: nat, mode: Mode)
    requires ValidMode(mode) && mode.bitdepth == 16 && PixelBits(k + 1, mode) <= 8 * |data| && mode.colortype == Rgb
    requires PixelOk(Pixel(data, k, mode), mode) && Words(ShownDeep(Pixel(data, k, mode), mode))
    ensures Reads16(data, k, mode, DeepBytes(ShownDeep(Pixel(data, k, mode), mode)))
  {
    hide HighLow, Pair, Word;
    ThreePairs(data, 6 * k);
    FullAlpha(mode, KeyWords(mode, Pair(data, 6 * k), Pair(data, 6 * k + 2), Pair(data, 6 * k + 4)));
  }

  lemma ReadDeepGreyAlpha(data: seq<byte>, k: nat, mode: Mode)
    requires ValidMode(mode) && mode.bitdepth == 16 && PixelBits(k + 1, mode) <= 8 * |data| && mode.colortype == GreyAlpha
    requires PixelOk(Pixel(data, k, mode), mode) && Words(ShownDeep(Pixel(data, k, mode), mode))
    ensures Reads16(data, k, mode, DeepBytes(ShownDeep(Pixel(data, k, mode), mode)))
  {
    hide HighLow, Pair, Word;
    PairConforms(data, 4 * k);
    PairConforms(data, 4 * k + 2);
  }

  lemma ReadDeepRgba(data: seq<byte>, k: nat, mode: Mode)
    requires ValidMode(mode) && mode.bitdepth == 16 && PixelBits(k + 1, mode) <= 8 * |data| && mode.colortype == Rgba
    requires PixelOk(Pixel(data, k, mode), mode) && Words(ShownDeep(Pixel(data, k, mode), mode))
    ensures Reads16(data, k, mode, DeepBytes(ShownDeep(Pixel(data, k, mode), mode)))
  {
    hide HighLow, Pair, Word;
    FourPairs(data, 8 * k);
  }

  lemma ThreePairs(data: seq<byte>, i: nat)
    requires i + 5 < |data|
    ensures Word(data[i], data[i + 1]) == Pair(data, i) < 65536
    ensures Word(data[i + 2], data[i + 3]) == Pair(data, i + 2) < 65536
    ensures Word(data[i + 4], data[i + 5]) == Pair(data, i + 4) < 65536
    ensures HighLow(Pair(data, i)) + HighLow(Pair(data, i + 2)) + HighLow(Pair(data, i + 4)) == data[i..i + 6]
  {
    hide HighLow, Pair, Word;
    PairConforms(data, i);
    PairConforms(data, i + 2);
    PairConforms(data, i + 4);
  }

  lemma FourPairs(data: seq<byte>, i: nat)
    requires i + 7 < |data|
    ensures Word(data[i], data[i + 1]) == Pair(data, i) < 65536
    ensures Word(data[i + 2], data[i + 3]) == Pair(data, i + 2) < 65536
    ensures Word(data[i + 4], data[i + 5]) == Pair(data, i + 4) < 65536
    ensures Word(data[i + 6], data[i + 7]) == Pair(data, i + 6) < 65536
    ensures HighLow(Pair(data, i)) + HighLow(Pair(data, i + 2)) + HighLow(Pair(data, i + 4)) + HighLow(Pair(data, i + 6)) == data[i..i + 8]
  {
    hide HighLow, Pair, Word;
    ThreePairs(data, i);
    PairConforms(data, i + 6);
    assert data[i..i + 6] + data[i + 6..i + 8] == data[i..i + 8];
  }

  // ----- Writing

  lemma WritePacked(data: seq<byte>, k: nat, mode: Mode, c: Color)
    requires ValidMode(mode) && PixelBits(k + 1, mode) <= 8 * |data| && Bytes(c) && Available(c, mode)
    requires Pixel(data, k, mode) == Written(c, mode)
    requires mode.bitdepth < 16 && mode.colortype == Grey
    ensures Writes8(data, k, mode, c)
  {
    hide PackedSample, CutDown, Sample, From8;
    LevelConforms(data, k, mode.bitdepth);
    CutConforms(c.r, mode.bitdepth);
  }

  lemma WriteIndex(data: seq<byte>, k: nat, mode: Mode, c: Color)
    requires ValidMode(mode) && PixelBits(k + 1, mode) <= 8 * |data| && Bytes(c) && Available(c, mode)
    requires Pixel(data, k, mode) == Written(c, mode) && mode.colortype == Palette
    ensures Writes8(data, k, mode, c)
  {
    hide PackedSample, Sample;
    LevelConforms(data, k, mode.bitdepth);
    LastIndex(mode.palette, Reachable(mode.palettesize, mode.bitdepth), c);
    Powers();
    hide Pow2, IndexIn, HasColor;
  }

  lemma {:induction false} LastIndex(palette: seq<byte>, n: nat, c: Color)
    requires 4 * n <= |palette|
    ensures
      var i := IndexIn(palette, n, c);
      (i >= 0 ==> HasColor(palette, i, c)) && forall j: nat :: i < j < n ==> !HasColor(palette, j, c)
  {
    if n > 0 {
      LastIndex(palette, n - 1, c);
      EntryHas(palette, n - 1, c);
    }
  }

  lemma EntryHas(palette: seq<byte>, i: nat, c: Color)
    requires 4 * i + 4 <= |palette|
    ensures HasColor(palette, i, c) <==> Entry(palette, i) == c
  {
    var e := palette[4 * i..4 * i + 4];
    assert e == [palette[4 * i], palette[4 * i + 1], palette[4 * i + 2], palette[4 * i + 3]];
  }

  lemma WriteBytes(data: seq<byte>, k: nat, mode: Mode, c: Color)
    requires ValidMode(mode) && PixelBits(k + 1, mode) <= 8 * |data| && Bytes(c) && Available(c, mode)
    requires Pixel(data, k, mode) == Written(c, mode)
    requires mode.bitdepth == 8 && mode.colortype != Grey && mode.colortype != Palette
    ensures Writes8(data, k, mode, c)
  {
    hide PackedSample;
  }

  lemma WrittenPair(data: seq<byte>, i: nat, x: nat)
    requires i + 1 < |data| && x < 256 && Word(data[i], data[i + 1]) == 257 * x
    ensures data[i] == x && data[i + 1] == x
  {
  }

  lemma WriteWords(data: seq<byte>, k: nat, mode: Mode, c: Color)
    requires ValidMode(mode) && PixelBits(k + 1, mode) <= 8 * |data| && Bytes(c) && Available(c, mode)
    requires Pixel(data, k, mode) == Written(c, mode) && mode.bitdepth == 16
    ensures Writes8(data, k, mode, c)
  {
    hide PackedSample, Word;
    var s := Pixel(data, k, mode);
    match mode.colortype
    case Grey =>
      WrittenPair(data, 2 * k, c.r);
    case Rgb =>
      assert s[0] == 257 * c.r && s[1] == 257 * c.g && s[2] == 257 * c.b;
      WrittenPair(data, 6 * k, c.r);
      WrittenPair(data, 6 * k + 2, c.g);
      WrittenPair(data, 6 * k + 4, c.b);
    case GreyAlpha =>
      assert s[0] == 257 * c.r && s[1] == 257 * c.a;
      WrittenPair(data, 4 * k, c.r);
      WrittenPair(data, 4 * k + 2, c.a);
    case Rgba =>
      assert s[0] == 257 * c.r && s[1] == 257 * c.g && s[2] == 257 * c.b && s[3] == 257 * c.a;
      WrittenPair(data, 8 * k, c.r);
      WrittenPair(data, 8 * k + 2, c.g);
      WrittenPair(data, 8 * k + 4, c.b);
      WrittenPair(data, 8 * k + 6, c.a);
  }

  lemma WriteConforms(data: seq<byte>, k: nat, mode: Mode, c: Color)
    requires ValidMode(mode) && PixelBits(k + 1, mode) <= 8 * |data| && Bytes(c) && Available(c, mode)
    requires Pixel(data, k, mode) == Written(c, mode)
    ensures Writes8(data, k, mode, c)
  {
    hide Writes8, Written, Pixel, Available;
    if mode.bitdepth == 16 {
      WriteWords(data, k, mode, c);
    } else if mode.colortype == Grey {
      WritePacked(data, k, mode, c);
    } else if mode.colortype == Palette {
      WriteIndex(data, k, mode, c);
    } else {
      WriteBytes(data, k, mode, c);
    }
  }

  lemma WriteDeepConforms(data: seq<byte>, k: nat, mode: Mode, c: Color)
    requires ValidMode(mode) && mode.bitdepth == 16 && PixelBits(k + 1, mode) <= 8 * |data| && Words(c)
    requires Pixel(data, k, mode) == WrittenDeep(c, mode)
    ensures Writes16(data, k, mode, DeepBytes(c))
  {
    hide HighLow, Pair, Word;
    var s := Pixel(data, k, mode);
    DeepParts(c);
    match mode.colortype
    case Grey =>
      PairConforms(data, 2 * k);
    case Rgb =>
      assert s[0] == c.r && s[1] == c.g && s[2] == c.b;
      ThreePairs(data, 6 * k);
    case GreyAlpha =>
      assert s[0] == c.r && s[1] == c.a;
      PairConforms(data, 4 * k);
      PairConforms(data, 4 * k + 2);
      assert data[4 * k..4 * k + 4] == data[4 * k..4 * k + 2] + data[4 * k + 2..4 * k + 4];
    case Rgba =>
      assert s[0] == c.r && s[1] == c.g && s[2] == c.b && s[3] == c.a;
      FourPairs(data, 8 * k);
  }

  lemma DeepParts(c: Color)
    requires Words(c)
    ensures
      var s := DeepBytes(c);
      |s| == 8 && s[..2] == HighLow(c.r) && s[..6] == HighLow(c.r) + HighLow(c.g) + HighLow(c.b) && s[6..] == HighLow(c.a)
  {
    hide HighLow;
  }

  // ----- Converting

  lemma ConvertConforms(out: seq<byte>, input: seq<byte>, n: nat, modeIn: Mode, target: Mode, k: nat)
    requires Done(out, input, n, n, modeIn, target) && k < n
    ensures PixelBits(k + 1, modeIn) <= 8 * |input| && PixelBits(k + 1, target) <= 8 * |out|
    ensures Converts(out, target, input, modeIn, k)
  {
    hide Pixel, Shown, ShownDeep, Written, WrittenDeep, Available, Reads8, Writes8, Reads16, Writes16;
    SizesAt(out, input, n, modeIn, target, k);
    assert PixelDone(out, input, n, modeIn, target, k);
    var s := Pixel(input, k, modeIn);
    if modeIn.bitdepth == 16 && target.bitdepth == 16 {
      ReadDeepConforms(input, k, modeIn);
      DeepSamplesKept(s, modeIn);
      WriteDeepConforms(out, k, target, ShownDeep(s, modeIn));
    } else {
      ReadConforms(input, k, modeIn);
      WriteConforms(out, k, target, Shown(s, modeIn));
    }
  }

  // ----- Between RGB and RGBA

  /** Eight-bit RGB becomes opaque RGBA. */
  lemma RgbBecomesRgba(out: seq<byte>, input: seq<byte>, n: nat, mode: Mode, k: nat)
    requires Done(out, input, n, n, mode, RGBA8) && k < n
    requires mode.colortype == Rgb && mode.bitdepth == 8 && !mode.keyDefined
    ensures 3 * k + 3 <= |input| && 4 * k + 4 <= |out| && out[4 * k..4 * k + 4] == input[3 * k..3 * k + 3] + [255]
  {
    ConvertConforms(out, input, n, mode, RGBA8, k);
    var c :| Reads8(input, k, mode, c) && Writes8(out, k, RGBA8, c);
    assert [c.r, c.g, c.b, c.a] == [c.r, c.g, c.b] + [c.a];
  }

  /** And RGBA loses its alpha. */
  lemma RgbaBecomesRgb(out: seq<byte>, input: seq<byte>, n: nat, mode: Mode, k: nat)
    requires Done(out, input, n, n, RGBA8, mode) && k < n
    requires mode.colortype == Rgb && mode.bitdepth == 8
    ensures 4 * k + 4 <= |input| && 3 * k + 3 <= |out| && out[3 * k..3 * k + 3] == input[4 * k..4 * k + 3]
  {
    ConvertConforms(out, input, n, RGBA8, mode, k);
    var c :| Reads8(input, k, RGBA8, c) && Writes8(out, k, mode, c);
    assert input[4 * k..4 * k + 4][..3] == input[4 * k..4 * k + 3] == [c.r, c.g, c.b, c.a][..3];
  }
}
