/** What converting to another colour mode and back preserves. */
module ColorRoundTrip {
  import opened Bits
  import opened ColorModes
  import opened BulkColors
  import opened ColorConvert

  /** Eight-bit RGBA, the mode that pictures are handed over in. */
  const RGBA8 := Mode(Rgba, 8, [], 0, false, 0, 0, 0)

  const RGBA16 := Mode(Rgba, 16, [], 0, false, 0, 0, 0)

  /** The four bytes of a pixel are its colour. */
  lemma Rgba8Pixel(data: seq<byte>, k: nat)
    requires 4 * (k + 1) <= |data|
    ensures ValidMode(RGBA8) && Pixel(data, k, RGBA8) == [data[4 * k], data[4 * k + 1], data[4 * k + 2], data[4 * k + 3]]
    ensures PixelOk(Pixel(data, k, RGBA8), RGBA8) && Shown(Pixel(data, k, RGBA8), RGBA8) == Entry(data, k) && Bytes(Entry(data, k))
  {
  }

  lemma Rgba8Written(c: Color)
    requires Bytes(c)
    ensures ValidMode(RGBA8) && Available(c, RGBA8) && Written(c, RGBA8) == [c.r, c.g, c.b, c.a]
  {
  }

  /** A pixel that went to another mode and back is the same if its colour fits there,
      and only then. */
  lemma PixelThereAndBack(input: seq<byte>, mid: seq<byte>, back: seq<byte>, n: nat, mode: Mode, k: nat)
    requires Done(mid, input, n, n, RGBA8, mode) && Done(back, mid, n, n, mode, RGBA8) && k < n
    ensures 4 * (k + 1) <= |input| && 4 * (k + 1) <= |back|
    ensures Entry(back, k) == Entry(input, k) <==> Fits(Entry(input, k), mode)
  {
    hide Fits, Shown, Written, Available;
    SizesAt(mid, input, n, RGBA8, mode, k);
    SizesAt(back, mid, n, mode, RGBA8, k);
    assert PixelDone(mid, input, n, RGBA8, mode, k);
    assert PixelDone(back, mid, n, mode, RGBA8, k);
    Rgba8Pixel(input, k);
    Rgba8Pixel(back, k);
    var c := Entry(input, k);
    Rgba8Written(Shown(Pixel(mid, k, mode), mode));
    FitsExactly(c, mode);
    assert Pixel(mid, k, mode) == Written(c, mode);
  }

  /** Every colour of the picture fits. */
  ghost predicate AllFit(input: seq<byte>, n: nat, mode: Mode)
    requires 4 * n <= |input| && ValidMode(mode)
  {
    forall k :: 0 <= k < n ==> Fits(Entry(input, k), mode)
  }

  lemma SamePixels(a: seq<byte>, b: seq<byte>, n: nat)
    requires 4 * n <= |a| && 4 * n <= |b|
    ensures a[..4 * n] == b[..4 * n] <==> forall k {:trigger Entry(a, k)} {:trigger Entry(b, k)} :: 0 <= k < n ==> Entry(a, k) == Entry(b, k)
  {
    if forall k {:trigger Entry(a, k)} :: 0 <= k < n ==> Entry(a, k) == Entry(b, k) {
      forall j | 0 <= j < 4 * n
        ensures a[j] == b[j]
      {
        assert Entry(a, j / 4) == Entry(b, j / 4);
      }
    } else {
      var k :| 0 <= k < n && Entry(a, k) != Entry(b, k);
      assert a[..4 * n][4 * k] != b[..4 * n][4 * k] || a[..4 * n][4 * k + 1] != b[..4 * n][4 * k + 1]
          || a[..4 * n][4 * k + 2] != b[..4 * n][4 * k + 2] || a[..4 * n][4 * k + 3] != b[..4 * n][4 * k + 3];
    }
  }

  /** The picture survives exactly if every colour fits. */
  lemma PictureThereAndBack(input: seq<byte>, mid: seq<byte>, back: seq<byte>, n: nat, mode: Mode)
    requires Done(mid, input, n, n, RGBA8, mode) && Done(back, mid, n, n, mode, RGBA8)
    ensures 4 * n <= |input| && 4 * n <= |back|
    ensures back[..4 * n] == input[..4 * n] <==> AllFit(input, n, mode)
  {
    hide Fits, Entry, Pixel, PixelDone;
    forall k | 0 <= k < n
      ensures Entry(back, k) == Entry(input, k) <==> Fits(Entry(input, k), mode)
    {
      PixelThereAndBack(input, mid, back, n, mode, k);
    }
    SamePixels(back, input, n);
  }

  /** RGBA with the same channels of sixteen bits if the mode has them, and else of eight. */
  function WideMode(mode: Mode): Mode {
    if mode.bitdepth == 16 then RGBA16 else RGBA8
  }

  /** A picture comes back from RGBA with the same samples, unless they are palette
      indices. */
  lemma SamplesThereAndBack(input: seq<byte>, mid: seq<byte>, back: seq<byte>, n: nat, mode: Mode, k: nat)
    requires Done(mid, input, n, n, mode, WideMode(mode)) && Done(back, mid, n, n, WideMode(mode), mode) && k < n
    requires mode.colortype != Palette
    ensures PixelBits(k + 1, mode) <= 8 * |input| && PixelBits(k + 1, mode) <= 8 * |back|
    ensures Pixel(back, k, mode) == Pixel(input, k, mode)
  {
    hide PixelDone;
    if mode.bitdepth == 16 {
      DeepThereAndBack(input, mid, back, n, mode, k);
    } else {
      ShallowThereAndBack(input, mid, back, n, mode, k);
    }
  }

  lemma DeepThereAndBack(input: seq<byte>, mid: seq<byte>, back: seq<byte>, n: nat, mode: Mode, k: nat)
    requires Done(mid, input, n, n, mode, RGBA16) && Done(back, mid, n, n, RGBA16, mode) && k < n && mode.bitdepth == 16
    ensures PixelBits(k + 1, mode) <= 8 * |input| && PixelBits(k + 1, mode) <= 8 * |back|
    ensures Pixel(back, k, mode) == Pixel(input, k, mode)
  {
    hide Shown, Written, Available, ShownDeep, WrittenDeep, Pixel;
    SizesAt(mid, input, n, mode, RGBA16, k);
    SizesAt(back, mid, n, RGBA16, mode, k);
    assert PixelDone(mid, input, n, mode, RGBA16, k);
    assert PixelDone(back, mid, n, RGBA16, mode, k);
    var s := Pixel(input, k, mode);
    DeepSamplesKept(s, mode);
    Rgba16Kept(ShownDeep(s, mode));
  }

  lemma Rgba16Kept(c: Color)
    requires Words(c)
    ensures ValidMode(RGBA16) && PixelOk(WrittenDeep(c, RGBA16), RGBA16) && ShownDeep(WrittenDeep(c, RGBA16), RGBA16) == c
  {
  }

  lemma ShallowThereAndBack(input: seq<byte>, mid: seq<byte>, back: seq<byte>, n: nat, mode: Mode, k: nat)
    requires Done(mid, input, n, n, mode, RGBA8) && Done(back, mid, n, n, RGBA8, mode) && k < n
    requires mode.bitdepth <= 8 && mode.colortype != Palette
    ensures PixelBits(k + 1, mode) <= 8 * |input| && PixelBits(k + 1, mode) <= 8 * |back|
    ensures Pixel(back, k, mode) == Pixel(input, k, mode)
  {
    hide Shown, Written, Available;
    SizesAt(mid, input, n, mode, RGBA8, k);
    SizesAt(back, mid, n, RGBA8, mode, k);
    assert PixelDone(mid, input, n, mode, RGBA8, k);
    assert PixelDone(back, mid, n, RGBA8, mode, k);
    var c := Shown(Pixel(input, k, mode), mode);
    ShallowSamplesKept(Pixel(input, k, mode), mode);
    Rgba8Written(c);
    Rgba8Pixel(mid, k);
    assert Entry(mid, k) == c;
  }

  /** Some colour of the picture has no palette entry that the bit depth can name. */
  ghost predicate SomeMissing(input: seq<byte>, n: nat, mode: Mode)
    requires 4 * n <= |input| && ValidMode(mode) && mode.colortype == Palette
  {
    exists k :: 0 <= k < n && !Fits(Entry(input, k), mode)
  }

  lemma MissingIsLacking(input: seq<byte>, n: nat, mode: Mode)
    requires Readable(input, n, RGBA8) && ValidMode(mode)
    ensures 4 * n <= |input|
    ensures Lacking(input, n, RGBA8, mode) <==> mode.colortype == Palette && SomeMissing(input, n, mode)
  {
    hide Fits, Entry, Readable, Available;
    assert 4 * n <= |input| by { RoomFor(input, n); }
    forall k | 0 <= k < n
      ensures HasPixel(input, n, RGBA8, mode, k) <==> mode.colortype != Palette || Fits(Entry(input, k), mode)
    {
      ReadablePixel(input, n, RGBA8, k);
      Rgba8Pixel(input, k);
      AvailableIsFit(Entry(input, k), mode);
    }
  }

  lemma RoomFor(input: seq<byte>, n: nat)
    requires Readable(input, n, RGBA8)
    ensures 4 * n <= |input|
  {
  }

  lemma AvailableIsFit(c: Color, mode: Mode)
    requires ValidMode(mode)
    ensures Available(c, mode) <==> mode.colortype != Palette || Fits(c, mode)
  {
  }

  /** Converts an RGBA picture to another mode and back.  It fails exactly if the mode is
      a palette that lacks a colour, and else gives the picture back exactly if every
      colour fits the mode, which for a palette is always so.  The way back fails only for
      a palette that was never allocated, when there are no pixels. */
  method ConvertThereAndBack(input: array<byte>, mode: Mode, w: nat, h: nat)
    returns (error: nat, again: nat, back: array<byte>)
    requires ValidMode(mode)
    requires input.Length == 4 * (w * h)
    ensures error == if mode.colortype == Palette && SomeMissing(input[..], w * h, mode) then 82 else 0
    ensures error == 0 ==> again == if mode.colortype == Palette && mode.palette == [] then 107 else 0
    ensures error == 0 ==> (back[..] == input[..] <==> AllFit(input[..], w * h, mode))
    ensures error == 0 && mode.colortype == Palette ==> back[..] == input[..]
  {
    hide Done, Lacking, Fits, Available, RawSize, Target;
    var n := w * h;
    again := 0;
    back := new byte[4 * n];
    assert Bpp(RGBA8) == 32;
    assert RawSize(n, 32) == 4 * n by { Rgba8Size(n); }
    var mid := new byte[RawSize(n, Bpp(mode))];
    error := Convert(mid, input, mode, RGBA8, w, h);
    assert input[..4 * n] == input[..];
    MissingIsLacking(input[..], n, mode);
    TargetLacks(input[..], n, mode);
    if error == 0 {
      ghost var there := mid[..];
      again := Convert(back, mid, RGBA8, mode, w, h);
      assert back[..4 * n] == back[..];
      if TakenOver(mode, RGBA8) {
        RgbaFits(input[..], n, mode);
      } else if mode.colortype == Palette && mode.palette == [] {
        NothingMissing(input[..], n, mode);
      } else {
        RgbaLacksNothing(there, n, mode);
      }
      if n > 0 && !TakenOver(mode, RGBA8) {
        OwnPalette(input[..], n, mode);
        PictureThereAndBack(input[..], there, back[..], n, mode);
      }
    }
  }

  /** A palette mode without colours gets those of RGBA: none. */
  lemma TargetLacks(input: seq<byte>, n: nat, mode: Mode)
    requires ValidMode(mode) && Readable(input, n, RGBA8)
    ensures Lacking(input, n, RGBA8, Target(mode, RGBA8)) <==> Lacking(input, n, RGBA8, mode)
  {
    hide Shown, Pixel, Readable, PixelOk;
    forall k | 0 <= k < n
      ensures HasPixel(input, n, RGBA8, Target(mode, RGBA8), k) <==> HasPixel(input, n, RGBA8, mode, k)
    {
    }
  }

  lemma OwnPalette(input: seq<byte>, n: nat, mode: Mode)
    requires ValidMode(mode) && 4 * n <= |input| && n > 0
    requires mode.colortype == Palette ==> !SomeMissing(input, n, mode)
    ensures mode.colortype == Palette ==> mode.palettesize > 0
    ensures Target(mode, RGBA8) == mode && Target(RGBA8, mode) == RGBA8
  {
    if mode.colortype == Palette {
      assert Fits(Entry(input, 0), mode);
    }
  }

  lemma NothingMissing(input: seq<byte>, n: nat, mode: Mode)
    requires ValidMode(mode) && 4 * n <= |input| && mode.colortype == Palette && mode.palette == []
    ensures n > 0 ==> SomeMissing(input, n, mode)
  {
    if n > 0 {
      assert !Fits(Entry(input, 0), mode);
    }
  }

  lemma RgbaLacksNothing(mid: seq<byte>, n: nat, mode: Mode)
    requires Readable(mid, n, mode) && !TakenOver(mode, RGBA8)
    ensures !Lacking(mid, n, mode, RGBA8) && !TakenOver(RGBA8, mode) && Target(RGBA8, mode) == RGBA8
  {
  }

  lemma Rgba8Size(n: nat)
    ensures RawSize(n, 32) == 4 * n
  {
  }

  lemma RgbaFits(input: seq<byte>, n: nat, mode: Mode)
    requires 4 * n <= |input| && ValidMode(mode) && TakenOver(mode, RGBA8)
    ensures mode.colortype == Rgba && TakenOver(RGBA8, mode) && AllFit(input, n, mode)
  {
  }
}
