/** The bulk loops that turn a whole image into eight-bit RGBA or RGB.  The two routines
    of the program differ in the number of channels only; here it is a parameter. */
module BulkColors {
  import opened Bits
  import opened MsbStream
  import opened ColorModes
  import opened PixelAccess
  import opened Buffers

  predicate ThreeOrFour(channels: nat) {
    channels == 3 || channels == 4
  }

  function Offset(i: nat, channels: nat): nat {
    if channels == 4 then 4 * i else 3 * i
  }

  function ColorBytes(c: Color, channels: nat): (s: seq<byte>)
    requires Bytes(c) && ThreeOrFour(channels)
    ensures |s| == channels
  {
    if channels == 4 then [c.r, c.g, c.b, c.a] else [c.r, c.g, c.b]
  }

  /** The image and its mode can be read. */
  predicate Readable(data: seq<byte>, n: nat, mode: Mode) {
    ValidMode(mode) && PixelBits(n, mode) <= 8 * |data| && (mode.colortype == Palette ==> mode.palette != [])
  }

  lemma ReadablePixel(data: seq<byte>, n: nat, mode: Mode, i: nat)
    requires Readable(data, n, mode) && i < n
    ensures PixelBits(i + 1, mode) <= 8 * |data| && PixelOk(Pixel(data, i, mode), mode) && Bytes(Shown(Pixel(data, i, mode), mode))
    ensures Readable(data, i, mode) && Readable(data, i + 1, mode)
  {
    hide Pixel;
    PixelRange(data, i, mode);
    ShownIsBytes(Pixel(data, i, mode), mode);
  }

  /** The colour of pixel i. */
  function ColorAt(data: seq<byte>, i: nat, mode: Mode): (c: Color)
    requires Readable(data, i + 1, mode)
    ensures Bytes(c)
  {
    ReadablePixel(data, i + 1, mode, i);
    Shown(Pixel(data, i, mode), mode)
  }

  /** The colours of the first n pixels, one after the other. */
  function Colors(data: seq<byte>, n: nat, mode: Mode, channels: nat): (s: seq<byte>)
    requires Readable(data, n, mode) && ThreeOrFour(channels)
    ensures |s| == Offset(n, channels)
  {
    if n == 0 then []
    else
      ReadablePixel(data, n, mode, n - 1);
      Colors(data, n - 1, mode, channels) + ColorBytes(ColorAt(data, n - 1, mode), channels)
  }

  lemma OffsetNext(i: nat, n: nat, channels: nat)
    requires i < n && ThreeOrFour(channels)
    ensures Offset(i + 1, channels) == Offset(i, channels) + channels <= Offset(n, channels)
  {
  }

  lemma {:induction false} ColorsBegin(data: seq<byte>, n: nat, mode: Mode, channels: nat, i: nat)
    requires Readable(data, n, mode) && ThreeOrFour(channels) && i <= n
    ensures Readable(data, i, mode) && Offset(i, channels) <= Offset(n, channels)
    ensures Colors(data, n, mode, channels)[..Offset(i, channels)] == Colors(data, i, mode, channels)
    decreases n
  {
    hide ColorAt, ColorBytes, Readable, Offset;
    if i < n {
      ReadablePixel(data, n, mode, i);
      ReadablePixel(data, n, mode, n - 1);
      OffsetNext(n - 1, n, channels);
      ColorsBegin(data, n - 1, mode, channels, i);
      PrefixOfMore(Colors(data, n - 1, mode, channels), ColorBytes(ColorAt(data, n - 1, mode), channels), Offset(i, channels));
    } else {
      PrefixOfMore(Colors(data, n, mode, channels), [], Offset(n, channels));
    }
  }

  lemma PrefixOfMore(s: seq<byte>, more: seq<byte>, k: nat)
    requires k <= |s|
    ensures (s + more)[..k] == s[..k] && s[..|s|] == s
  {
  }

  lemma ColorsAt(data: seq<byte>, n: nat, mode: Mode, channels: nat, i: nat)
    requires Readable(data, n, mode) && ThreeOrFour(channels) && i < n
    ensures Readable(data, i, mode) && Readable(data, i + 1, mode) && Offset(i + 1, channels) <= Offset(n, channels)
    ensures Colors(data, n, mode, channels)[..Offset(i, channels)] == Colors(data, i, mode, channels)
    ensures Colors(data, n, mode, channels)[Offset(i, channels)..Offset(i + 1, channels)] == ColorBytes(ColorAt(data, i, mode), channels)
  {
    hide ColorAt, ColorBytes, Readable, Offset;
    ReadablePixel(data, n, mode, i);
    OffsetNext(i, n, channels);
    ColorsBegin(data, n, mode, channels, i);
    ColorsBegin(data, n, mode, channels, i + 1);
    var s, t := Colors(data, n, mode, channels), Colors(data, i + 1, mode, channels);
    var o, o' := Offset(i, channels), Offset(i + 1, channels);
    assert t == Colors(data, i, mode, channels) + ColorBytes(ColorAt(data, i, mode), channels);
    assert s[o..o'] == s[..o'][o..] == t[o..];
  }

  /** The first i colours are in the buffer and the rest behind the image is untouched. */
  ghost predicate Shown8(was: seq<byte>, buffer: seq<byte>, data: seq<byte>, i: nat, n: nat, mode: Mode, channels: nat) {
    && Readable(data, n, mode) && ThreeOrFour(channels) && i <= n && Readable(data, i, mode)
    && Offset(n, channels) <= |buffer| == |was|
    && buffer[..Offset(i, channels)] == Colors(data, i, mode, channels)
    && buffer[Offset(n, channels)..] == was[Offset(n, channels)..]
  }

  lemma Shown8Start(was: seq<byte>, data: seq<byte>, n: nat, mode: Mode, channels: nat)
    requires Readable(data, n, mode) && ThreeOrFour(channels) && Offset(n, channels) <= |was|
    ensures Shown8(was, was, data, 0, n, mode, channels)
  {
  }

  /** Puts the colour of pixel i behind the ones before it. */
  method PutColor(buffer: array<byte>, i: nat, r: nat, g: nat, b: nat, a: nat, channels: nat,
                  ghost was: seq<byte>, ghost data: seq<byte>, ghost n: nat, ghost mode: Mode)
    requires Shown8(was, buffer[..], data, i, n, mode, channels) && i < n && Readable(data, i + 1, mode)
    requires Color(r, g, b, a) == ColorAt(data, i, mode)
    modifies buffer
    ensures Shown8(was, buffer[..], data, i + 1, n, mode, channels)
  {
    hide ColorAt, Readable;
    var o := Offset(i, channels);
    buffer[o], buffer[o + 1], buffer[o + 2] := r, g, b;
    if channels == 4 {
      buffer[o + 3] := a;
    }
    assert buffer[..Offset(i + 1, channels)] == buffer[..o] + ColorBytes(Color(r, g, b, a), channels);
  }

  /** What each loop below starts from. */
  ghost predicate Ready(buffer: seq<byte>, input: seq<byte>, n: nat, mode: Mode, channels: nat) {
    Readable(input, n, mode) && ThreeOrFour(channels) && Offset(n, channels) <= |buffer|
  }

  method GreyBytes(buffer: array<byte>, n: nat, input: array<byte>, mode: Mode, channels: nat)
    requires buffer != input && Ready(buffer[..], input[..], n, mode, channels)
    requires mode.colortype == Grey && mode.bitdepth == 8 && !mode.keyDefined
    modifies buffer
    ensures Shown8(old(buffer[..]), buffer[..], input[..], n, n, mode, channels)
  {
    hide Shown8, Colors;
    ghost var was, data := buffer[..], input[..];
    Shown8Start(was, data, n, mode, channels);
    for i := 0 to n
      invariant Shown8(was, buffer[..], data, i, n, mode, channels)
    {
      ReadablePixel(data, n, mode, i);
      PutColor(buffer, i, input[i], input[i], input[i], 255, channels, was, data, n, mode);
    }
  }

  method GreyWords(buffer: array<byte>, n: nat, input: array<byte>, mode: Mode, channels: nat)
    requires buffer != input && Ready(buffer[..], input[..], n, mode, channels)
    requires mode.colortype == Grey && mode.bitdepth == 16
    modifies buffer
    ensures Shown8(old(buffer[..]), buffer[..], input[..], n, n, mode, channels)
  {
    hide Shown8, Colors;
    ghost var was, data := buffer[..], input[..];
    Shown8Start(was, data, n, mode, channels);
    for i := 0 to n
      invariant Shown8(was, buffer[..], data, i, n, mode, channels)
    {
      ReadablePixel(data, n, mode, i);
      var x := input[i * 2];
      var a := if mode.keyDefined && Word(input[i * 2], input[i * 2 + 1]) == mode.keyR then 0 else 255;
      PutColor(buffer, i, x, x, x, a, channels, was, data, n, mode);
    }
  }

  method GreyGroups(buffer: array<byte>, n: nat, input: array<byte>, mode: Mode, channels: nat)
    requires buffer != input && Ready(buffer[..], input[..], n, mode, channels)
    requires mode.colortype == Grey && mode.bitdepth < 8
    modifies buffer
    ensures Shown8(old(buffer[..]), buffer[..], input[..], n, n, mode, channels)
  {
    hide Shown8, Colors, Stream, MsbVal;
    ghost var was, data := buffer[..], input[..];
    var highest := if mode.bitdepth == 1 then 1 else if mode.bitdepth == 2 then 3 else 15;
    var j := 0;
    Shown8Start(was, data, n, mode, channels);
    for i := 0 to n
      invariant j == SampleBits(i, mode.bitdepth)
      invariant Shown8(was, buffer[..], data, i, n, mode, channels)
    {
      ReadablePixel(data, n, mode, i);
      var value := ReadBitsFromReversedStream(input, j, mode.bitdepth);
      j := j + mode.bitdepth;
      var x := value * 255 / highest;
      PutColor(buffer, i, x, x, x, if mode.keyDefined && value == mode.keyR then 0 else 255, channels, was, data, n, mode);
    }
  }

  method RgbBytes(buffer: array<byte>, n: nat, input: array<byte>, mode: Mode, channels: nat)
    requires buffer != input && Ready(buffer[..], input[..], n, mode, channels)
    requires mode.colortype == Rgb && mode.bitdepth == 8 && !mode.keyDefined
    modifies buffer
    ensures Shown8(old(buffer[..]), buffer[..], input[..], n, n, mode, channels)
  {
    hide Shown8, Colors;
    ghost var was, data := buffer[..], input[..];
    Shown8Start(was, data, n, mode, channels);
    for i := 0 to n
      invariant Shown8(was, buffer[..], data, i, n, mode, channels)
    {
      ReadablePixel(data, n, mode, i);
      PutColor(buffer, i, input[i * 3], input[i * 3 + 1], input[i * 3 + 2], 255, channels, was, data, n, mode);
    }
  }

  method RgbWords(buffer: array<byte>, n: nat, input: array<byte>, mode: Mode, channels: nat)
    requires buffer != input && Ready(buffer[..], input[..], n, mode, channels)
    requires mode.colortype == Rgb && mode.bitdepth == 16
    modifies buffer
    ensures Shown8(old(buffer[..]), buffer[..], input[..], n, n, mode, channels)
  {
    hide Shown8, Colors;
    ghost var was, data := buffer[..], input[..];
    Shown8Start(was, data, n, mode, channels);
    for i := 0 to n
      invariant Shown8(was, buffer[..], data, i, n, mode, channels)
    {
      ReadablePixel(data, n, mode, i);
      var a := if mode.keyDefined
               && Word(input[i * 6], input[i * 6 + 1]) == mode.keyR
               && Word(input[i * 6 + 2], input[i * 6 + 3]) == mode.keyG
               && Word(input[i * 6 + 4], input[i * 6 + 5]) == mode.keyB then 0 else 255;
      PutColor(buffer, i, input[i * 6], input[i * 6 + 2], input[i * 6 + 4], a, channels, was, data, n, mode);
    }
  }

  method PaletteBytes(buffer: array<byte>, n: nat, input: array<byte>, mode: Mode, channels: nat)
    requires buffer != input && Ready(buffer[..], input[..], n, mode, channels)
    requires mode.colortype == Palette && mode.bitdepth == 8
    modifies buffer
    ensures Shown8(old(buffer[..]), buffer[..], input[..], n, n, mode, channels)
  {
    hide Shown8, Colors;
    ghost var was, data := buffer[..], input[..];
    Shown8Start(was, data, n, mode, channels);
    for i := 0 to n
      invariant Shown8(was, buffer[..], data, i, n, mode, channels)
    {
      ReadablePixel(data, n, mode, i);
      var k := input[i] as int * 4;
      PutColor(buffer, i, mode.palette[k], mode.palette[k + 1], mode.palette[k + 2], mode.palette[k + 3], channels, was, data, n, mode);
    }
  }

  method PaletteGroups(buffer: array<byte>, n: nat, input: array<byte>, mode: Mode, channels: nat)
    requires buffer != input && Ready(buffer[..], input[..], n, mode, channels)
    requires mode.colortype == Palette && mode.bitdepth < 8
    modifies buffer
    ensures Shown8(old(buffer[..]), buffer[..], input[..], n, n, mode, channels)
  {
    hide Shown8, Colors, Stream, MsbVal;
    ghost var was, data := buffer[..], input[..];
    var j := 0;
    Shown8Start(was, data, n, mode, channels);
    for i := 0 to n
      invariant j == SampleBits(i, mode.bitdepth)
      invariant Shown8(was, buffer[..], data, i, n, mode, channels)
    {
      ReadablePixel(data, n, mode, i);
      var index := ReadBitsFromReversedStream(input, j, mode.bitdepth);
      assert index == Pixel(data, i, mode)[0];
      j := j + mode.bitdepth;
      var k := index * 4;
      PutColor(buffer, i, mode.palette[k], mode.palette[k + 1], mode.palette[k + 2], mode.palette[k + 3], channels, was, data, n, mode);
    }
  }

  method GreyAlphas(buffer: array<byte>, n: nat, input: array<byte>, mode: Mode, channels: nat)
    requires buffer != input && Ready(buffer[..], input[..], n, mode, channels)
    requires mode.colortype == GreyAlpha
    modifies buffer
    ensures Shown8(old(buffer[..]), buffer[..], input[..], n, n, mode, channels)
  {
    hide Shown8, Colors;
    ghost var was, data := buffer[..], input[..];
    Shown8Start(was, data, n, mode, channels);
    if mode.bitdepth == 8 {
      for i := 0 to n
        invariant Shown8(was, buffer[..], data, i, n, mode, channels)
      {
        ReadablePixel(data, n, mode, i);
        PutColor(buffer, i, input[i * 2], input[i * 2], input[i * 2], input[i * 2 + 1], channels, was, data, n, mode);
      }
    } else {
      for i := 0 to n
        invariant Shown8(was, buffer[..], data, i, n, mode, channels)
      {
        ReadablePixel(data, n, mode, i);
        PutColor(buffer, i, input[i * 4], input[i * 4], input[i * 4], input[i * 4 + 2], channels, was, data, n, mode);
      }
    }
  }

  method Rgbas(buffer: array<byte>, n: nat, input: array<byte>, mode: Mode, channels: nat)
    requires buffer != input && Ready(buffer[..], input[..], n, mode, channels)
    requires mode.colortype == Rgba
    modifies buffer
    ensures Shown8(old(buffer[..]), buffer[..], input[..], n, n, mode, channels)
  {
    hide Shown8, Colors;
    ghost var was, data := buffer[..], input[..];
    Shown8Start(was, data, n, mode, channels);
    if mode.bitdepth == 8 {
      for i := 0 to n
        invariant Shown8(was, buffer[..], data, i, n, mode, channels)
      {
        ReadablePixel(data, n, mode, i);
        PutColor(buffer, i, input[i * 4], input[i * 4 + 1], input[i * 4 + 2], input[i * 4 + 3], channels, was, data, n, mode);
      }
    } else {
      for i := 0 to n
        invariant Shown8(was, buffer[..], data, i, n, mode, channels)
      {
        ReadablePixel(data, n, mode, i);
        PutColor(buffer, i, input[i * 8], input[i * 8 + 2], input[i * 8 + 4], input[i * 8 + 6], channels, was, data, n, mode);
      }
    }
  }

  // ----- The second pass, which makes the key colour transparent

  function Opaque(mode: Mode): Mode {
    mode.(keyDefined := false)
  }

  /** The first i pixels have their alpha already, the others are opaque. */
  ghost predicate Keyed(was: seq<byte>, buffer: seq<byte>, data: seq<byte>, i: nat, n: nat, mode: Mode) {
    && Readable(data, n, mode) && Readable(data, n, Opaque(mode)) && Readable(data, i, mode) && i <= n
    && 4 * n <= |buffer| == |was|
    && buffer[..4 * i] == Colors(data, i, mode, 4)
    && buffer[4 * i..4 * n] == Colors(data, n, Opaque(mode), 4)[4 * i..]
    && buffer[4 * n..] == was[4 * n..]
  }

  /** The alpha of pixel i from its opaque colour. */
  lemma KeyStep(was: seq<byte>, buffer: seq<byte>, data: seq<byte>, i: nat, n: nat, mode: Mode, buffer': seq<byte>)
    requires Keyed(was, buffer, data, i, n, mode) && i < n && mode.keyDefined && mode.bitdepth == 8
    requires mode.colortype == Grey || mode.colortype == Rgb
    requires
      var hit := buffer[4 * i] == mode.keyR && (mode.colortype == Grey || (buffer[4 * i + 1] == mode.keyG && buffer[4 * i + 2] == mode.keyB));
      buffer' == if hit then buffer[4 * i + 3 := 0] else buffer
    ensures Keyed(was, buffer', data, i + 1, n, mode)
  {
    hide Readable, Colors, ColorAt;
    ReadablePixel(data, n, mode, i);
    ReadablePixel(data, n, Opaque(mode), i);
    ReadablePixel(data, i + 1, mode, i);
    var before, after := Colors(data, i, mode, 4), Colors(data, i + 1, mode, 4);
    var plain := Colors(data, n, Opaque(mode), 4);
    var c, d := ColorAt(data, i, Opaque(mode)), ColorAt(data, i, mode);
    ColorsAt(data, n, Opaque(mode), 4, i);
    ColorsAt(data, i + 1, mode, 4, i);
    KeyColor(data, i, mode);
    PixelBytes(buffer, i, n, plain, [c.r, c.g, c.b, c.a]);
    KeyBytes(was, buffer, i, n, before, plain, [c.r, c.g, c.b, c.a], buffer', [d.r, d.g, d.b, d.a]);
    assert after == after[..4 * i] + after[4 * i..4 * (i + 1)];
  }

  lemma PixelBytes(buffer: seq<byte>, i: nat, n: nat, plain: seq<byte>, c: seq<byte>)
    requires i < n && 4 * n <= |buffer| && |plain| == 4 * n && |c| == 4
    requires buffer[4 * i..4 * n] == plain[4 * i..] && plain[4 * i..4 * (i + 1)] == c
    ensures buffer[4 * i..4 * (i + 1)] == c
    ensures buffer[4 * i] == c[0] && buffer[4 * i + 1] == c[1] && buffer[4 * i + 2] == c[2] && buffer[4 * i + 3] == c[3]
  {
    SliceOfSlice(buffer, 4 * i, 4 * n, 0, 4);
    SliceOfSlice(plain, 4 * i, 4 * n, 0, 4);
    assert plain[4 * i..4 * n] == plain[4 * i..];
  }

  lemma KeyBytes(was: seq<byte>, buffer: seq<byte>, i: nat, n: nat, before: seq<byte>, plain: seq<byte>, c: seq<byte>, buffer': seq<byte>, d: seq<byte>)
    requires i < n && 4 * n <= |buffer| == |was| && |plain| == 4 * n && |c| == 4 && |d| == 4
    requires buffer[..4 * i] == before && buffer[4 * i..4 * n] == plain[4 * i..] && buffer[4 * n..] == was[4 * n..]
    requires plain[4 * i..4 * (i + 1)] == c
    requires d[..3] == c[..3] && buffer' == buffer[4 * i + 3 := d[3]]
    ensures |buffer'| == |buffer| && buffer'[..4 * (i + 1)] == before + d
    ensures buffer'[4 * (i + 1)..4 * n] == plain[4 * (i + 1)..] && buffer'[4 * n..] == was[4 * n..]
  {
    PixelBytes(buffer, i, n, plain, c);
    SliceOfSlice(buffer, 4 * i, 4 * n, 4, 4 * n - 4 * i);
    assert d == d[..3] + [d[3]] && c[..3] == buffer[4 * i..4 * i + 3];
    assert buffer'[..4 * (i + 1)] == buffer[..4 * i] + buffer[4 * i..4 * i + 3] + [d[3]];
    assert before + d == buffer[..4 * i] + buffer[4 * i..4 * i + 3] + [d[3]];
    assert buffer'[4 * (i + 1)..4 * n] == buffer[4 * (i + 1)..4 * n] == plain[4 * i..][4..] == plain[4 * (i + 1)..];
  }

  lemma KeyColor(data: seq<byte>, i: nat, mode: Mode)
    requires Readable(data, i + 1, mode) && Readable(data, i + 1, Opaque(mode)) && mode.keyDefined && mode.bitdepth == 8
    requires mode.colortype == Grey || mode.colortype == Rgb
    ensures
      var c := ColorAt(data, i, Opaque(mode));
      var hit := c.r == mode.keyR && (mode.colortype == Grey || (c.g == mode.keyG && c.b == mode.keyB));
      c.a == 255 && ColorAt(data, i, mode) == if hit then c.(a := 0) else c
  {
    PixelRange(data, i, mode);
  }

  lemma KeyUnseenAt(data: seq<byte>, i: nat, mode: Mode)
    requires Readable(data, i + 1, mode)
    ensures Readable(data, i + 1, Opaque(mode)) && ColorBytes(ColorAt(data, i, mode), 3) == ColorBytes(ColorAt(data, i, Opaque(mode)), 3)
  {
    hide Sample;
    PixelRange(data, i, mode);
  }

  /** Without alpha the key makes no difference. */
  lemma {:induction false} KeyUnseen(data: seq<byte>, n: nat, mode: Mode)
    requires Readable(data, n, mode)
    ensures Readable(data, n, Opaque(mode)) && Colors(data, n, mode, 3) == Colors(data, n, Opaque(mode), 3)
  {
    hide ColorAt, ColorBytes;
    if n > 0 {
      ReadablePixel(data, n, mode, n - 1);
      KeyUnseen(data, n - 1, mode);
      KeyUnseenAt(data, n - 1, mode);
    }
  }

  method KeyPass(buffer: array<byte>, n: nat, input: array<byte>, mode: Mode, ghost was: seq<byte>)
    requires buffer != input && mode.keyDefined && mode.bitdepth == 8 && (mode.colortype == Grey || mode.colortype == Rgb)
    requires Shown8(was, buffer[..], input[..], n, n, Opaque(mode), 4)
    modifies buffer
    ensures Shown8(was, buffer[..], input[..], n, n, mode, 4)
  {
    hide Colors, Readable, ColorAt, Keyed, Shown8, Opaque;
    ghost var data := input[..];
    KeyedStart(was, buffer[..], data, n, mode);
    for i := 0 to n
      invariant Keyed(was, buffer[..], data, i, n, mode)
    {
      ghost var before := buffer[..];
      KeyedSize(was, before, data, i, n, mode);
      var o := 4 * i;
      if buffer[o] == mode.keyR && (mode.colortype == Grey || (buffer[o + 1] == mode.keyG && buffer[o + 2] == mode.keyB)) {
        buffer[o + 3] := 0;
      }
      KeyStep(was, before, data, i, n, mode, buffer[..]);
    }
    KeyedAll(was, buffer[..], data, n, mode);
  }

  lemma KeyedStart(was: seq<byte>, buffer: seq<byte>, data: seq<byte>, n: nat, mode: Mode)
    requires Shown8(was, buffer, data, n, n, Opaque(mode), 4)
    ensures Keyed(was, buffer, data, 0, n, mode)
  {
  }

  lemma KeyedSize(was: seq<byte>, buffer: seq<byte>, data: seq<byte>, i: nat, n: nat, mode: Mode)
    requires Keyed(was, buffer, data, i, n, mode)
    ensures 4 * n <= |buffer|
  {
  }

  lemma KeyedAll(was: seq<byte>, buffer: seq<byte>, data: seq<byte>, n: nat, mode: Mode)
    requires Keyed(was, buffer, data, n, n, mode)
    ensures Shown8(was, buffer, data, n, n, mode, 4)
  {
  }

  // ----- The routines

  /** The colours of all pixels, with alpha if there are four channels. */
  method GetPixelColors8(buffer: array<byte>, n: nat, input: array<byte>, mode: Mode, channels: nat)
    requires buffer != input && Readable(input[..], n, mode) && ThreeOrFour(channels) && Offset(n, channels) <= buffer.Length
    modifies buffer
    ensures buffer[..Offset(n, channels)] == Colors(input[..], n, mode, channels)
    ensures buffer[Offset(n, channels)..] == old(buffer[Offset(n, channels)..])
  {
    hide Colors, Stream;
    ghost var was := buffer[..];
    if mode.colortype == Grey {
      if mode.bitdepth == 8 {
        GreyBytes(buffer, n, input, Opaque(mode), channels);
        if mode.keyDefined && channels == 4 {
          KeyPass(buffer, n, input, mode, was);
        }
        KeyUnseen(input[..], n, mode);
      } else if mode.bitdepth == 16 {
        GreyWords(buffer, n, input, mode, channels);
      } else {
        GreyGroups(buffer, n, input, mode, channels);
      }
    } else if mode.colortype == Rgb {
      if mode.bitdepth == 8 {
        RgbBytes(buffer, n, input, Opaque(mode), channels);
        if mode.keyDefined && channels == 4 {
          KeyPass(buffer, n, input, mode, was);
        }
        KeyUnseen(input[..], n, mode);
      } else {
        RgbWords(buffer, n, input, mode, channels);
      }
    } else if mode.colortype == Palette {
      if mode.bitdepth == 8 {
        PaletteBytes(buffer, n, input, mode, channels);
      } else {
        PaletteGroups(buffer, n, input, mode, channels);
      }
    } else if mode.colortype == GreyAlpha {
      GreyAlphas(buffer, n, input, mode, channels);
    } else {
      Rgbas(buffer, n, input, mode, channels);
    }
  }
}
