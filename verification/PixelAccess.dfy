/** Reading and writing single pixels of raw images in any colour mode. */
module PixelAccess {
  import opened Bits
  import opened MsbStream
  import opened ColorModes
  import opened ColorTrees
  import opened Buffers

  // ----- Samples of less than eight bits

  method ReadBitsFromReversedStream(mem: array<byte>, bp: nat, nbits: nat) returns (value: nat)
    requires bp + nbits <= 8 * mem.Length
    ensures value == MsbVal(Stream(mem[..])[bp..bp + nbits])
  {
    hide Stream;
    value := 0;
    ghost var s := Stream(mem[..]);
    for i := 0 to nbits
      invariant value == MsbVal(s[bp..bp + i])
    {
      var b := ReadBit(mem, bp + i);
      assert s[bp..bp + i + 1][..i] == s[bp..bp + i];
      value := 2 * value + b;
    }
  }

  /** Bit k of a byte after the d bits of v were or-ed into it behind the first `off`. */
  lemma OrIntoByte(x: byte, v: nat, d: nat, off: nat, k: nat)
    requires v < Pow2(d) && off + d <= 8 && k < 8
    ensures BitOr(x, Shl(v, 8 - off - d)) < 256
    ensures
      var sh := 8 - off - d;
      BitOf(BitOr(x, Shl(v, sh)), k) == if sh <= k < sh + d && BitOf(v, k - sh) == 1 then 1 else BitOf(x, k)
  {
    hide BitOr, BitOf, Shl;
    var sh := 8 - off - d;
    Pow2Values();
    ShlPow(v, d, sh);
    Pow2Monotone(d + sh, 8);
    OrBound(x, Shl(v, sh), 8);
    BitOfOr(x, Shl(v, sh), k);
    BitOfShl(v, sh, k);
    if k >= sh + d {
      BitOfSmall(v, d, k - sh);
    }
  }

  /** Nothing is set between bit j and the end of its byte. */
  predicate ZeroRest(s: seq<bit>, j: nat) {
    forall q :: j <= q < (j + 7) / 8 * 8 && q < |s| ==> s[q] == 0
  }

  /** d bits written at bit j: what comes before is kept and the byte is clean behind. */
  predicate BitsPut(was: seq<bit>, s: seq<bit>, j: nat, d: nat, v: nat) {
    && |s| == |was| && j + d <= |s|
    && s[..j] == was[..j] && s[j..j + d] == MsbBits(v, d) && ZeroRest(s, j + d)
  }

  /** Bit q after d bits were or-ed into the byte of bit j from there on; at the start of
      the byte they replace it. */
  function OredBit(was: seq<bit>, j: nat, d: nat, v: nat, q: nat): bit
    requires q < |was|
  {
    if q < j || q >= j / 8 * 8 + 8 then was[q]
    else if q < j + d && BitOf(v, d - 1 - (q - j)) == 1 then 1
    else if j % 8 == 0 then 0
    else was[q]
  }

  predicate BitsOred(was: seq<bit>, s: seq<bit>, j: nat, d: nat, v: nat) {
    && |s| == |was| && j % 8 + d <= 8 && j / 8 * 8 + 8 <= |s|
    && forall q :: 0 <= q < |s| ==> s[q] == OredBit(was, j, d, v, q)
  }

  /** Where nothing is set yet, the bits are put. */
  lemma OredIsPut(was: seq<bit>, s: seq<bit>, j: nat, d: nat, v: nat)
    requires BitsOred(was, s, j, d, v) && ZeroRest(was, j)
    ensures BitsPut(was, s, j, d, v)
  {
    hide BitOf;
    assert s[..j] == was[..j];
    assert (j + 7) / 8 * 8 <= j / 8 * 8 + 8;
    forall q | j <= q < j + d
      ensures s[q] == BitOf(v, d - 1 - (q - j))
    {
    }
    assert s[j..j + d] == MsbBits(v, d);
    assert (j + d + 7) / 8 * 8 <= j / 8 * 8 + 8;
  }

  lemma StreamOfUpdate(was: seq<byte>, b: nat, y: byte, p: nat)
    requires b < |was| && p < 8 * |was|
    ensures Stream(was[b := y])[p] == if p / 8 == b then BitOf(y, 7 - p % 8) else Stream(was)[p]
  {
    hide BitOf;
  }

  lemma BitOfByte(was: seq<byte>, b: nat, p: nat)
    requires b < |was| && p / 8 == b
    ensures p < |Stream(was)| && Stream(was)[p] == BitOf(was[b], 7 - p % 8)
  {
    hide BitOf;
  }

  /** Puts a group of 1, 2 or 4 bits; the first group of a byte clears the rest of it, the
      others are or-ed into what is there. */
  method AddColorBits(out: array<byte>, index: nat, bits: nat, v: nat)
    requires (bits == 1 || bits == 2 || bits == 4) && SampleBits(index + 1, bits) <= 8 * out.Length
    modifies out
    ensures BitsOred(old(Stream(out[..])), Stream(out[..]), SampleBits(index, bits), bits, v % Range(bits))
  {
    hide Stream, BitOf, BitOr, BitAnd, Shl, BitsOred, SampleBits;
    ghost var was := out[..];
    var m := if bits == 1 then 7 else if bits == 2 then 3 else 1;
    var p := BitAnd(index, m);
    MaskedIndex(index, bits, m);
    MaskedValue(v, bits);
    var low := BitAnd(v, Shl(1, bits) - 1);
    var x := Shl(low, bits * (m - p));
    var b := index * bits / 8;
    GroupPlace(index, bits, m);
    ByteOfGroup(was, b, low, bits, bits * p);
    if p == 0 {
      out[b] := x;
      assert out[..] == was[b := x];
    } else {
      out[b] := BitOr(out[b], x);
      assert out[..] == was[b := BitOr(was[b], x)];
    }
  }

  lemma MaskedIndex(index: nat, bits: nat, m: nat)
    requires (bits == 1 && m == 7) || (bits == 2 && m == 3) || (bits == 4 && m == 1)
    ensures BitAnd(index, m) == index % (m + 1)
  {
    hide BitAnd;
    var k := if bits == 1 then 3 else if bits == 2 then 2 else 1;
    assert Pow2(1) == 2 && Pow2(2) == 4 && Pow2(3) == 8;
    AndMask(index, k);
    LowIsMod(index, k);
  }

  lemma GroupPlace(index: nat, bits: nat, m: nat)
    requires (bits == 1 && m == 7) || (bits == 2 && m == 3) || (bits == 4 && m == 1)
    ensures var p := index % (m + 1);
            && SampleBits(index, bits) == 8 * (index * bits / 8) + bits * p
            && SampleBits(index + 1, bits) == SampleBits(index, bits) + bits
            && p <= m && bits * (m - p) == 8 - bits * p - bits && bits * p + bits <= 8 && (p > 0 ==> bits * p > 0)
  {
    if bits == 1 {
      assert index * bits / 8 == index / 8;
    } else if bits == 2 {
      assert index * bits / 8 == index / 4;
    } else {
      assert index * bits / 8 == index / 2;
    }
  }

  lemma MaskedValue(v: nat, bits: nat)
    requires bits == 1 || bits == 2 || bits == 4
    ensures Pow2(bits) == Range(bits) && Shl(1, bits) > 0 && BitAnd(v, Shl(1, bits) - 1) == v % Range(bits)
  {
    hide BitAnd;
    assert Pow2(1) == 2 && Pow2(2) == 4 && Pow2(4) == 16;
    ShlOne(bits);
    AndMask(v, bits);
    LowIsMod(v, bits);
  }

  lemma SmallSample(v: nat, bits: nat)
    requires (bits == 1 || bits == 2 || bits == 4) && v < Range(bits)
    ensures Shl(1, bits) > 0 && BitAnd(v, Shl(1, bits) - 1) == v
  {
    hide BitAnd, Shl;
    MaskedValue(v, bits);
  }

  lemma ByteOfGroup(was: seq<byte>, b: nat, v: nat, d: nat, off: nat)
    requires b < |was| && off + d <= 8 && d > 0 && v < Pow2(d)
    ensures var y := if off == 0 then Shl(v, 8 - d) else BitOr(was[b], Shl(v, 8 - off - d));
            y < 256 && BitsOred(Stream(was), Stream(was[b := y]), 8 * b + off, d, v)
  {
    hide BitOf, BitOr, Shl, Stream;
    var x := if off == 0 then 0 else was[b];
    OrOfZero(Shl(v, 8 - off - d));
    OrIntoByte(x, v, d, off, 0);
    var y := BitOr(x, Shl(v, 8 - off - d));
    var s, t, j := Stream(was), Stream(was[b := y]), 8 * b + off;
    forall q | 0 <= q < |s|
      ensures t[q] == OredBit(s, j, d, v, q)
    {
      StreamOfUpdate(was, b, y, q);
      if q / 8 == b {
        BitOfByte(was, b, q);
        var k := 7 - q % 8;
        OrIntoByte(x, v, d, off, k);
        if off == 0 {
          BitOfSmall(0, 0, k);
        } else if q < j {
          assert k >= 8 - off;
        }
      }
    }
  }

  lemma OrOfZero(x: nat)
    ensures BitOr(0, x) == x
  {
  }

  // ----- Reading a pixel

  method GetGreyRGBA8(input: array<byte>, i: nat, mode: Mode) returns (c: Color)
    requires ValidMode(mode) && mode.colortype == Grey && PixelBits(i + 1, mode) <= 8 * input.Length
    ensures PixelOk(Pixel(input[..], i, mode), mode) && c == Shown(Pixel(input[..], i, mode), mode)
  {
    hide Stream, MsbVal;
    PixelRange(input[..], i, mode);
    var d := mode.bitdepth;
    var r, a;
    if d == 8 {
      r := input[i];
      a := if mode.keyDefined && r == mode.keyR then 0 else 255;
    } else if d == 16 {
      r := input[i * 2];
      a := if mode.keyDefined && Word(input[i * 2], input[i * 2 + 1]) == mode.keyR then 0 else 255;
    } else {
      var highest := if d == 1 then 1 else if d == 2 then 3 else 15;
      var value := ReadBitsFromReversedStream(input, i * d, d);
      r := value * 255 / highest;
      a := if mode.keyDefined && value == mode.keyR then 0 else 255;
    }
    c := Color(r, r, r, a);
  }

  method GetRgbRGBA8(input: array<byte>, i: nat, mode: Mode) returns (c: Color)
    requires ValidMode(mode) && mode.colortype == Rgb && PixelBits(i + 1, mode) <= 8 * input.Length
    ensures PixelOk(Pixel(input[..], i, mode), mode) && c == Shown(Pixel(input[..], i, mode), mode)
  {
    PixelRange(input[..], i, mode);
    if mode.bitdepth == 8 {
      var r, g, b := input[i * 3], input[i * 3 + 1], input[i * 3 + 2];
      c := Color(r, g, b, if mode.keyDefined && r == mode.keyR && g == mode.keyG && b == mode.keyB then 0 else 255);
    } else {
      var a := if mode.keyDefined && Word(input[i * 6], input[i * 6 + 1]) == mode.keyR
               && Word(input[i * 6 + 2], input[i * 6 + 3]) == mode.keyG
               && Word(input[i * 6 + 4], input[i * 6 + 5]) == mode.keyB then 0 else 255;
      c := Color(input[i * 6], input[i * 6 + 2], input[i * 6 + 4], a);
    }
  }

  method GetPaletteRGBA8(input: array<byte>, i: nat, mode: Mode) returns (c: Color)
    requires ValidMode(mode) && mode.colortype == Palette && mode.palette != [] && PixelBits(i + 1, mode) <= 8 * input.Length
    ensures PixelOk(Pixel(input[..], i, mode), mode) && c == Shown(Pixel(input[..], i, mode), mode)
  {
    hide Stream, MsbVal;
    PixelRange(input[..], i, mode);
    var index;
    if mode.bitdepth == 8 {
      index := input[i];
    } else {
      index := ReadBitsFromReversedStream(input, i * mode.bitdepth, mode.bitdepth);
    }
    assert index == Pixel(input[..], i, mode)[0];
    c := Color(mode.palette[index * 4], mode.palette[index * 4 + 1], mode.palette[index * 4 + 2], mode.palette[index * 4 + 3]);
  }

  /** A pixel's colour, eight bits per channel. */
  method GetPixelColorRGBA8(input: array<byte>, i: nat, mode: Mode) returns (c: Color)
    requires ValidMode(mode) && PixelBits(i + 1, mode) <= 8 * input.Length
    requires mode.colortype == Palette ==> mode.palette != []
    ensures PixelOk(Pixel(input[..], i, mode), mode) && c == Shown(Pixel(input[..], i, mode), mode)
  {
    hide Stream, MsbVal;
    if mode.colortype == Grey {
      c := GetGreyRGBA8(input, i, mode);
    } else if mode.colortype == Rgb {
      c := GetRgbRGBA8(input, i, mode);
    } else if mode.colortype == Palette {
      c := GetPaletteRGBA8(input, i, mode);
    } else if mode.colortype == GreyAlpha {
      PixelRange(input[..], i, mode);
      if mode.bitdepth == 8 {
        c := Color(input[i * 2], input[i * 2], input[i * 2], input[i * 2 + 1]);
      } else {
        c := Color(input[i * 4], input[i * 4], input[i * 4], input[i * 4 + 2]);
      }
    } else {
      PixelRange(input[..], i, mode);
      if mode.bitdepth == 8 {
        c := Color(input[i * 4], input[i * 4 + 1], input[i * 4 + 2], input[i * 4 + 3]);
      } else {
        c := Color(input[i * 8], input[i * 8 + 2], input[i * 8 + 4], input[i * 8 + 6]);
      }
    }
  }

  /** A pixel's colour, sixteen bits per channel. */
  method GetPixelColorRGBA16(input: array<byte>, i: nat, mode: Mode) returns (c: Color)
    requires ValidMode(mode) && mode.bitdepth == 16 && PixelBits(i + 1, mode) <= 8 * input.Length
    ensures PixelOk(Pixel(input[..], i, mode), mode) && c == ShownDeep(Pixel(input[..], i, mode), mode)
  {
    PixelRange(input[..], i, mode);
    if mode.colortype == Grey {
      var v := Word(input[i * 2], input[i * 2 + 1]);
      c := Color(v, v, v, if mode.keyDefined && Word(input[i * 2], input[i * 2 + 1]) == mode.keyR then 0 else 65535);
    } else if mode.colortype == Rgb {
      var r, g, b := Word(input[i * 6], input[i * 6 + 1]), Word(input[i * 6 + 2], input[i * 6 + 3]), Word(input[i * 6 + 4], input[i * 6 + 5]);
      c := Color(r, g, b, if mode.keyDefined && r == mode.keyR && g == mode.keyG && b == mode.keyB then 0 else 65535);
    } else if mode.colortype == GreyAlpha {
      var v := Word(input[i * 4], input[i * 4 + 1]);
      c := Color(v, v, v, Word(input[i * 4 + 2], input[i * 4 + 3]));
    } else {
      c := Color(Word(input[i * 8], input[i * 8 + 1]), Word(input[i * 8 + 2], input[i * 8 + 3]),
        Word(input[i * 8 + 4], input[i * 8 + 5]), Word(input[i * 8 + 6], input[i * 8 + 7]));
    }
  }

  // ----- Writing a pixel

  /** The pixels before pixel i are as they were. */
  ghost predicate SameBefore(was: seq<byte>, data: seq<byte>, i: nat, mode: Mode) {
    && |data| == |was| && PixelBits(i, mode) <= 8 * |data|
    && (if mode.bitdepth >= 8 then data[..PixelBits(i, mode) / 8] == was[..PixelBits(i, mode) / 8]
        else Stream(data)[..PixelBits(i, mode)] == Stream(was)[..PixelBits(i, mode)])
  }

  /** The byte in which pixel i starts is still clean from there on. */
  ghost predicate Clean(data: seq<byte>, i: nat, mode: Mode) {
    mode.bitdepth < 8 ==> ZeroRest(Stream(data), PixelBits(i, mode))
  }

  /** Pixel i has been put into the image. */
  ghost predicate PixelPut(was: seq<byte>, data: seq<byte>, i: nat, mode: Mode, s: seq<nat>)
    requires ValidMode(mode)
  {
    && PixelBits(i + 1, mode) <= 8 * |data|
    && SameBefore(was, data, i, mode) && Pixel(data, i, mode) == s && Clean(data, i + 1, mode)
  }

  lemma SampleKept(was: seq<byte>, data: seq<byte>, j: nat, depth: nat, k: nat)
    requires |data| == |was| && SampleBits(j, depth) <= 8 * |data| && k < j
    requires depth == 1 || depth == 2 || depth == 4 || depth == 8 || depth == 16
    requires if depth >= 8 then data[..SampleBits(j, depth) / 8] == was[..SampleBits(j, depth) / 8]
             else Stream(data)[..SampleBits(j, depth)] == Stream(was)[..SampleBits(j, depth)]
    ensures SampleBits(k + 1, depth) <= SampleBits(j, depth) && Sample(data, k, depth) == Sample(was, k, depth)
  {
    hide Stream, MsbVal;
    var n := SampleBits(j, depth);
    if depth == 8 {
      assert data[k] == data[..n / 8][k];
    } else if depth == 16 {
      assert data[2 * k] == data[..n / 8][2 * k] && data[2 * k + 1] == data[..n / 8][2 * k + 1];
    } else {
      var at := if depth == 1 then k else if depth == 2 then 2 * k else 4 * k;
      SliceOfSlice(Stream(data), 0, n, at, at + depth);
      SliceOfSlice(Stream(was), 0, n, at, at + depth);
    }
  }

  lemma PixelKept(was: seq<byte>, data: seq<byte>, i: nat, mode: Mode, k: nat)
    requires ValidMode(mode) && SameBefore(was, data, i, mode) && k < i
    ensures PixelBits(k + 1, mode) <= PixelBits(i, mode) && Pixel(data, k, mode) == Pixel(was, k, mode)
  {
    hide Sample;
    var d := mode.bitdepth;
    match mode.colortype
    case Grey | Palette =>
      SampleKept(was, data, i, d, k);
    case Rgb =>
      SampleKept(was, data, 3 * i, d, 3 * k);
      SampleKept(was, data, 3 * i, d, 3 * k + 1);
      SampleKept(was, data, 3 * i, d, 3 * k + 2);
    case GreyAlpha =>
      SampleKept(was, data, 2 * i, d, 2 * k);
      SampleKept(was, data, 2 * i, d, 2 * k + 1);
    case Rgba =>
      SampleKept(was, data, 4 * i, d, 4 * k);
      SampleKept(was, data, 4 * i, d, 4 * k + 1);
      SampleKept(was, data, 4 * i, d, 4 * k + 2);
      SampleKept(was, data, 4 * i, d, 4 * k + 3);
  }

  /** The tree finds what a search of the first n palette entries finds. */
  ghost predicate TreeHolds(tree: ColorTree, palette: seq<byte>, n: nat)
    reads tree, tree.repr
  {
    && tree.Valid() && 4 * n <= |palette|
    && forall c {:trigger Path(c)} :: Bytes(c) ==>
         (if IndexIn(palette, n, c) >= 0 then Path(c) in tree.stored && tree.stored[Path(c)] == IndexIn(palette, n, c)
          else Path(c) !in tree.stored)
  }

  lemma GroupPut(was: seq<byte>, data: seq<byte>, i: nat, mode: Mode, v: nat)
    requires ValidMode(mode) && mode.bitdepth < 8 && |was| == |data| && v < Range(mode.bitdepth)
    requires BitsPut(Stream(was), Stream(data), SampleBits(i, mode.bitdepth), mode.bitdepth, v)
    ensures PixelPut(was, data, i, mode, [v])
  {
    hide Stream, MsbVal, MsbBits, ZeroRest;
    var d := mode.bitdepth;
    assert Pow2(1) == 2 && Pow2(2) == 4 && Pow2(4) == 16;
    MsbValOfBits(v, d);
    LowOfSmall(v, d);
  }

  /** The bits that a grey value is cut down to. */
  lemma GreyBits(x: nat, d: nat)
    requires x < 256 && (d == 1 || d == 2 || d == 4)
    ensures Shl(1, d) > 0 && BitAnd(Shr(x, 8 - d), Shl(1, d) - 1) == From8(x, d) < Range(d)
  {
    hide BitAnd, Shl, Shr;
    assert Pow2(4) == 16 && Pow2(6) == 64 && Pow2(7) == 128;
    ShrIsDiv(x, 8 - d);
    SmallSample(From8(x, d), d);
  }

  /** Stores a pixel of one sample in a mode of less than eight bits. */
  method GroupToPixel(out: array<byte>, i: nat, mode: Mode, v: nat)
    requires ValidMode(mode) && (mode.colortype == Grey || mode.colortype == Palette) && mode.bitdepth < 8
    requires v < Range(mode.bitdepth) && PixelBits(i + 1, mode) <= 8 * out.Length && Clean(out[..], i, mode)
    modifies out
    ensures PixelPut(old(out[..]), out[..], i, mode, [v])
  {
    hide Stream, BitsPut, BitsOred, ZeroRest, PixelPut, SampleBits;
    ghost var was := out[..];
    AddColorBits(out, i, mode.bitdepth, v);
    assert v % Range(mode.bitdepth) == v;
    OredIsPut(Stream(was), Stream(out[..]), SampleBits(i, mode.bitdepth), mode.bitdepth, v);
    GroupPut(was, out[..], i, mode, v);
  }

  method GreyToPixel(out: array<byte>, i: nat, mode: Mode, c: Color)
    requires ValidMode(mode) && mode.colortype == Grey && Bytes(c) && PixelBits(i + 1, mode) <= 8 * out.Length && Clean(out[..], i, mode)
    modifies out
    ensures PixelPut(old(out[..]), out[..], i, mode, Written(c, mode))
  {
    hide Stream, MsbVal, BitAnd, Shl, Shr, BitsPut, ZeroRest;
    var gray := c.r;
    if mode.bitdepth == 8 {
      out[i] := gray;
    } else if mode.bitdepth == 16 {
      out[i * 2], out[i * 2 + 1] := gray, gray;
    } else {
      GreyBits(gray, mode.bitdepth);
      gray := BitAnd(Shr(gray, 8 - mode.bitdepth), Shl(1, mode.bitdepth) - 1);
      GroupToPixel(out, i, mode, gray);
    }
  }

  method RgbToPixel(out: array<byte>, i: nat, mode: Mode, c: Color)
    requires ValidMode(mode) && mode.colortype == Rgb && Bytes(c) && PixelBits(i + 1, mode) <= 8 * out.Length
    modifies out
    ensures PixelPut(old(out[..]), out[..], i, mode, Written(c, mode))
  {
    if mode.bitdepth == 8 {
      out[i * 3], out[i * 3 + 1], out[i * 3 + 2] := c.r, c.g, c.b;
    } else {
      out[i * 6], out[i * 6 + 1] := c.r, c.r;
      out[i * 6 + 2], out[i * 6 + 3] := c.g, c.g;
      out[i * 6 + 4], out[i * 6 + 5] := c.b, c.b;
    }
  }

  method PaletteToPixel(out: array<byte>, i: nat, mode: Mode, tree: ColorTree, c: Color) returns (error: nat)
    requires ValidMode(mode) && mode.colortype == Palette && Bytes(c) && PixelBits(i + 1, mode) <= 8 * out.Length && Clean(out[..], i, mode)
    requires TreeHolds(tree, mode.palette, Reachable(mode.palettesize, mode.bitdepth))
    modifies out
    ensures error == if Available(c, mode) then 0 else 82
    ensures error == 0 ==> PixelPut(old(out[..]), out[..], i, mode, Written(c, mode))
    ensures error != 0 ==> out[..] == old(out[..])
  {
    hide Stream, MsbVal, BitsPut, ZeroRest, Path;
    var index := tree.Get(c);
    assert index == IndexIn(mode.palette, Reachable(mode.palettesize, mode.bitdepth), c);
    if index < 0 {
      return 82;
    }
    if mode.bitdepth == 8 {
      out[i] := index;
    } else {
      GroupToPixel(out, i, mode, index);
    }
    error := 0;
  }

  method GreyAlphaToPixel(out: array<byte>, i: nat, mode: Mode, c: Color)
    requires ValidMode(mode) && mode.colortype == GreyAlpha && Bytes(c) && PixelBits(i + 1, mode) <= 8 * out.Length
    modifies out
    ensures PixelPut(old(out[..]), out[..], i, mode, Written(c, mode))
  {
    if mode.bitdepth == 8 {
      out[i * 2], out[i * 2 + 1] := c.r, c.a;
    } else {
      out[i * 4], out[i * 4 + 1] := c.r, c.r;
      out[i * 4 + 2], out[i * 4 + 3] := c.a, c.a;
    }
  }

  method RgbaToPixel(out: array<byte>, i: nat, mode: Mode, c: Color)
    requires ValidMode(mode) && mode.colortype == Rgba && Bytes(c) && PixelBits(i + 1, mode) <= 8 * out.Length
    modifies out
    ensures PixelPut(old(out[..]), out[..], i, mode, Written(c, mode))
  {
    if mode.bitdepth == 8 {
      out[i * 4], out[i * 4 + 1], out[i * 4 + 2], out[i * 4 + 3] := c.r, c.g, c.b, c.a;
    } else {
      RgbaToDeepPixel(out, i, mode, c);
    }
  }

  method RgbaToDeepPixel(out: array<byte>, i: nat, mode: Mode, c: Color)
    requires ValidMode(mode) && mode.colortype == Rgba && mode.bitdepth == 16 && Bytes(c) && PixelBits(i + 1, mode) <= 8 * out.Length
    modifies out
    ensures PixelPut(old(out[..]), out[..], i, mode, Written(c, mode))
  {
    hide Word;
    DoubledByte(c.r);
    DoubledByte(c.g);
    DoubledByte(c.b);
    DoubledByte(c.a);
    out[i * 8], out[i * 8 + 1] := c.r, c.r;
    out[i * 8 + 2], out[i * 8 + 3] := c.g, c.g;
    out[i * 8 + 4], out[i * 8 + 5] := c.b, c.b;
    out[i * 8 + 6], out[i * 8 + 7] := c.a, c.a;
  }

  lemma DoubledByte(x: nat)
    ensures Word(x, x) == From8(x, 16)
  {
  }

  /** Puts a colour of eight bits per channel; fails only if the palette lacks it. */
  method Rgba8ToPixel(out: array<byte>, i: nat, mode: Mode, tree: ColorTree, c: Color) returns (error: nat)
    requires ValidMode(mode) && Bytes(c) && PixelBits(i + 1, mode) <= 8 * out.Length && Clean(out[..], i, mode)
    requires mode.colortype == Palette ==> TreeHolds(tree, mode.palette, Reachable(mode.palettesize, mode.bitdepth))
    modifies out
    ensures error == if Available(c, mode) then 0 else 82
    ensures error == 0 ==> PixelPut(old(out[..]), out[..], i, mode, Written(c, mode))
    ensures error != 0 ==> out[..] == old(out[..])
  {
    hide PixelPut, Clean, TreeHolds, Written, PixelBits;
    error := 0;
    if mode.colortype == Grey {
      GreyToPixel(out, i, mode, c);
    } else if mode.colortype == Rgb {
      RgbToPixel(out, i, mode, c);
    } else if mode.colortype == Palette {
      error := PaletteToPixel(out, i, mode, tree, c);
    } else if mode.colortype == GreyAlpha {
      GreyAlphaToPixel(out, i, mode, c);
    } else {
      RgbaToPixel(out, i, mode, c);
    }
  }

  function HighByte(v: nat): (b: byte)
    requires v < 65536
  {
    v / 256
  }

  function LowByte(v: nat): (b: byte) {
    v % 256
  }

  lemma WordOfBytes(v: nat)
    requires v < 65536
    ensures Word(HighByte(v), LowByte(v)) == v
  {
  }

  method Rgba16ToRgba(out: array<byte>, i: nat, mode: Mode, c: Color)
    requires ValidMode(mode) && mode.colortype == Rgba && mode.bitdepth == 16 && PixelBits(i + 1, mode) <= 8 * out.Length
    requires Words(c)
    modifies out
    ensures PixelPut(old(out[..]), out[..], i, mode, WrittenDeep(c, mode))
  {
    hide Word, HighByte, LowByte;
    WordOfBytes(c.r);
    WordOfBytes(c.g);
    WordOfBytes(c.b);
    WordOfBytes(c.a);
    out[i * 8], out[i * 8 + 1] := HighByte(c.r), LowByte(c.r);
    out[i * 8 + 2], out[i * 8 + 3] := HighByte(c.g), LowByte(c.g);
    out[i * 8 + 4], out[i * 8 + 5] := HighByte(c.b), LowByte(c.b);
    out[i * 8 + 6], out[i * 8 + 7] := HighByte(c.a), LowByte(c.a);
  }

  /** Puts a colour of sixteen bits per channel. */
  method Rgba16ToPixel(out: array<byte>, i: nat, mode: Mode, c: Color)
    requires ValidMode(mode) && mode.bitdepth == 16 && PixelBits(i + 1, mode) <= 8 * out.Length
    requires Words(c)
    modifies out
    ensures PixelPut(old(out[..]), out[..], i, mode, WrittenDeep(c, mode))
  {
    hide Word, HighByte, LowByte;
    WordOfBytes(c.r);
    WordOfBytes(c.g);
    WordOfBytes(c.b);
    WordOfBytes(c.a);
    if mode.colortype == Grey {
      out[i * 2], out[i * 2 + 1] := HighByte(c.r), LowByte(c.r);
    } else if mode.colortype == Rgb {
      out[i * 6], out[i * 6 + 1] := HighByte(c.r), LowByte(c.r);
      out[i * 6 + 2], out[i * 6 + 3] := HighByte(c.g), LowByte(c.g);
      out[i * 6 + 4], out[i * 6 + 5] := HighByte(c.b), LowByte(c.b);
    } else if mode.colortype == GreyAlpha {
      out[i * 4], out[i * 4 + 1] := HighByte(c.r), LowByte(c.r);
      out[i * 4 + 2], out[i * 4 + 3] := HighByte(c.a), LowByte(c.a);
    } else {
      Rgba16ToRgba(out, i, mode, c);
    }
  }
}
