/** Converting a raw image from one colour mode to another. */
module ColorConvert {
  import opened Bits
  import opened MsbStream
  import opened ColorModes
  import opened ColorTrees
  import opened PixelAccess
  import opened BulkColors

  /** Modes that differ at most in palette entries that are not in use. */
  predicate ModesEqual(a: Mode, b: Mode)
    requires ValidMode(a) && ValidMode(b)
  {
    && a.colortype == b.colortype && a.bitdepth == b.bitdepth && a.keyDefined == b.keyDefined
    && (a.keyDefined ==> a.keyR == b.keyR && a.keyG == b.keyG && a.keyB == b.keyB)
    && a.palettesize == b.palettesize && a.palette[..4 * a.palettesize] == b.palette[..4 * b.palettesize]
  }

  /** An output palette that was not given is that of the input. */
  function Target(modeOut: Mode, modeIn: Mode): (t: Mode)
    requires ValidMode(modeOut) && ValidMode(modeIn)
    ensures ValidMode(t)
  {
    if modeOut.colortype == Palette && modeOut.palettesize == 0
    then modeOut.(palette := modeIn.palette, palettesize := modeIn.palettesize) else modeOut
  }

  /** The bytes can be taken over as they are. */
  predicate TakenOver(modeOut: Mode, modeIn: Mode)
    requires ValidMode(modeOut) && ValidMode(modeIn)
  {
    || ModesEqual(modeOut, modeIn)
    || (modeOut.colortype == Palette && modeOut.palettesize == 0 && modeIn.colortype == Palette && modeIn.bitdepth == modeOut.bitdepth)
  }

  /** The target mode has this pixel's colour. */
  predicate Has(s: seq<nat>, modeIn: Mode, target: Mode)
    requires ValidMode(modeIn) && ValidMode(target) && PixelOk(s, modeIn) && (modeIn.colortype == Palette ==> modeIn.palette != [])
  {
    Available(Shown(s, modeIn), target)
  }

  /** The samples that a pixel becomes: by way of sixteen bits per channel if both modes
      have them, and of eight bits otherwise. */
  function Converted(s: seq<nat>, modeIn: Mode, target: Mode): (t: seq<nat>)
    requires ValidMode(modeIn) && ValidMode(target) && PixelOk(s, modeIn) && (modeIn.colortype == Palette ==> modeIn.palette != [])
    requires Has(s, modeIn, target)
  {
    ShownIsBytes(s, modeIn);
    if modeIn.bitdepth == 16 && target.bitdepth == 16 then WrittenDeep(ShownDeep(s, modeIn), target)
    else Written(Shown(s, modeIn), target)
  }

  /** The image can be read in its mode and the other buffer has room for it. */
  predicate Sizes(out: seq<byte>, input: seq<byte>, n: nat, modeIn: Mode, target: Mode) {
    Readable(input, n, modeIn) && ValidMode(target) && PixelBits(n, target) <= 8 * |out|
  }

  lemma SizesAt(out: seq<byte>, input: seq<byte>, n: nat, modeIn: Mode, target: Mode, k: nat)
    requires Sizes(out, input, n, modeIn, target) && k < n
    ensures PixelBits(k + 1, modeIn) <= 8 * |input| && PixelBits(k + 1, target) <= 8 * |out| && Readable(input, k + 1, modeIn)
    ensures PixelOk(Pixel(input, k, modeIn), modeIn) && Bytes(Shown(Pixel(input, k, modeIn), modeIn))
  {
    hide Pixel;
    ReadablePixel(input, n, modeIn, k);
  }

  /** Pixel k has become what it should. */
  ghost predicate PixelDone(out: seq<byte>, input: seq<byte>, n: nat, modeIn: Mode, target: Mode, k: nat)
    requires Sizes(out, input, n, modeIn, target) && k < n
  {
    SizesAt(out, input, n, modeIn, target, k);
    var s := Pixel(input, k, modeIn);
    Has(s, modeIn, target) && Pixel(out, k, target) == Converted(s, modeIn, target)
  }

  /** So has every pixel before i, and the buffer is ready for the next. */
  ghost predicate Done(out: seq<byte>, input: seq<byte>, i: nat, n: nat, modeIn: Mode, target: Mode) {
    && i <= n && Sizes(out, input, n, modeIn, target) && Clean(out, i, target)
    && forall k :: 0 <= k < i ==> PixelDone(out, input, n, modeIn, target, k)
  }

  /** Pixel k has just been put. */
  ghost predicate PixelMade(was: seq<byte>, out: seq<byte>, input: seq<byte>, n: nat, modeIn: Mode, target: Mode, k: nat)
    requires Sizes(was, input, n, modeIn, target) && k < n
  {
    SizesAt(was, input, n, modeIn, target, k);
    var s := Pixel(input, k, modeIn);
    Has(s, modeIn, target) && PixelPut(was, out, k, target, Converted(s, modeIn, target))
  }

  lemma DoneStart(out: seq<byte>, input: seq<byte>, n: nat, modeIn: Mode, target: Mode)
    requires Sizes(out, input, n, modeIn, target)
    ensures Done(out, input, 0, n, modeIn, target)
  {
  }

  lemma DoneClean(out: seq<byte>, input: seq<byte>, i: nat, n: nat, modeIn: Mode, target: Mode)
    requires Done(out, input, i, n, modeIn, target)
    ensures Clean(out, i, target)
  {
  }

  lemma DoneStep(was: seq<byte>, out: seq<byte>, input: seq<byte>, i: nat, n: nat, modeIn: Mode, target: Mode)
    requires Done(was, input, i, n, modeIn, target) && i < n && |out| == |was|
    requires PixelMade(was, out, input, n, modeIn, target, i)
    ensures Done(out, input, i + 1, n, modeIn, target)
  {
    hide Pixel, Converted, Shown, Stream;
    forall k | 0 <= k < i + 1
      ensures PixelDone(out, input, n, modeIn, target, k)
    {
      SizesAt(was, input, n, modeIn, target, k);
      if k < i {
        assert PixelDone(was, input, n, modeIn, target, k);
        PixelKept(was, out, i, target, k);
      }
    }
  }

  // ----- The palette in the tree

  method AddEntry(tree: ColorTree, palette: seq<byte>, k: nat)
    requires TreeHolds(tree, palette, k) && 4 * (k + 1) <= |palette|
    modifies tree, tree.repr
    ensures TreeHolds(tree, palette, k + 1) && fresh(tree.repr - old(tree.repr))
  {
    hide Path;
    var c := Entry(palette, k);
    ghost var was := tree.stored;
    tree.Add(c, k);
    forall d {:trigger Path(d)} | Bytes(d)
      ensures if IndexIn(palette, k + 1, d) >= 0 then Path(d) in tree.stored && tree.stored[Path(d)] == IndexIn(palette, k + 1, d)
              else Path(d) !in tree.stored
    {
      assert Path(d) in was <==> IndexIn(palette, k, d) >= 0;
      if d != c && Path(d) == Path(c) {
        PathInjective(d, c);
      }
    }
  }

  /** The tree of the palette entries that the bit depth can name. */
  method BuildTree(target: Mode) returns (tree: ColorTree)
    requires ValidMode(target)
    ensures fresh(tree) && fresh(tree.repr)
    ensures TreeHolds(tree, target.palette, Reachable(target.palettesize, target.bitdepth))
  {
    tree := new ColorTree();
    tree.EmptyIsValid();
    var palsize := Reachable(target.palettesize, target.bitdepth);
    for i := 0 to palsize
      invariant fresh(tree) && fresh(tree.repr) && TreeHolds(tree, target.palette, i)
    {
      AddEntry(tree, target.palette, i);
    }
  }

  // ----- The loops over the pixels

  method ConvertDeep(out: array<byte>, input: array<byte>, n: nat, modeIn: Mode, target: Mode)
    requires out != input && Sizes(out[..], input[..], n, modeIn, target) && modeIn.bitdepth == 16 && target.bitdepth == 16
    modifies out
    ensures Done(out[..], input[..], n, n, modeIn, target)
  {
    hide Pixel, PixelPut, Done;
    ghost var data := input[..];
    DoneStart(out[..], data, n, modeIn, target);
    for i := 0 to n
      invariant Done(out[..], data, i, n, modeIn, target)
    {
      ghost var was := out[..];
      SizesAt(was, data, n, modeIn, target, i);
      var c := GetPixelColorRGBA16(input, i, modeIn);
      Rgba16ToPixel(out, i, target, c);
      DoneStep(was, out[..], data, i, n, modeIn, target);
    }
  }

  method ConvertShallow(out: array<byte>, input: array<byte>, n: nat, modeIn: Mode, target: Mode, tree: ColorTree) returns (error: nat)
    requires out != input && Sizes(out[..], input[..], n, modeIn, target) && (modeIn.bitdepth < 16 || target.bitdepth < 16)
    requires (out as object) !in tree.repr && out as object != tree
    requires target.colortype == Palette ==> TreeHolds(tree, target.palette, Reachable(target.palettesize, target.bitdepth))
    modifies out
    ensures error == 0 || error == 82
    ensures error == 0 ==> Done(out[..], input[..], n, n, modeIn, target)
    ensures error == 82 ==> Sizes(out[..], input[..], n, modeIn, target) && Lacking(input[..], n, modeIn, target)
  {
    hide Pixel, PixelPut, Done, TreeHolds, Available, Shown, Written, Lacking;
    ghost var data := input[..];
    DoneStart(out[..], data, n, modeIn, target);
    for i := 0 to n
      invariant Done(out[..], data, i, n, modeIn, target)
    {
      ghost var was := out[..];
      SizesAt(was, data, n, modeIn, target, i);
      DoneClean(was, data, i, n, modeIn, target);
      var c := GetPixelColorRGBA8(input, i, modeIn);
      error := Rgba8ToPixel(out, i, target, tree, c);
      if error != 0 {
        LackingAt(data, n, modeIn, target, i);
        return;
      }
      DoneStep(was, out[..], data, i, n, modeIn, target);
    }
    error := 0;
  }

  /** Some pixel has a colour that the target mode lacks. */
  ghost predicate Lacking(input: seq<byte>, n: nat, modeIn: Mode, target: Mode)
    requires Readable(input, n, modeIn) && ValidMode(target)
  {
    exists k :: 0 <= k < n && !HasPixel(input, n, modeIn, target, k)
  }

  ghost predicate HasPixel(input: seq<byte>, n: nat, modeIn: Mode, target: Mode, k: nat)
    requires Readable(input, n, modeIn) && ValidMode(target) && k < n
  {
    ReadablePixel(input, n, modeIn, k);
    Has(Pixel(input, k, modeIn), modeIn, target)
  }

  lemma LackingAt(input: seq<byte>, n: nat, modeIn: Mode, target: Mode, k: nat)
    requires Readable(input, n, modeIn) && ValidMode(target) && k < n && !HasPixel(input, n, modeIn, target, k)
    ensures Lacking(input, n, modeIn, target)
  {
  }

  lemma DoneHasAll(out: seq<byte>, input: seq<byte>, n: nat, modeIn: Mode, target: Mode)
    requires Done(out, input, n, n, modeIn, target)
    ensures Readable(input, n, modeIn) && !Lacking(input, n, modeIn, target)
  {
    hide Has, Pixel, Converted, Readable, Clean;
    forall k | 0 <= k < n
      ensures HasPixel(input, n, modeIn, target, k)
    {
      assert PixelDone(out, input, n, modeIn, target, k);
    }
  }

  /** The bulk routines do what the pixel routines do. */
  lemma BulkDone(out: seq<byte>, input: seq<byte>, n: nat, modeIn: Mode, target: Mode, channels: nat)
    requires Sizes(out, input, n, modeIn, target) && target.bitdepth == 8
    requires (target.colortype == Rgba && channels == 4) || (target.colortype == Rgb && channels == 3)
    requires Offset(n, channels) <= |out| && out[..Offset(n, channels)] == Colors(input, n, modeIn, channels)
    ensures Done(out, input, n, n, modeIn, target)
  {
    forall k | 0 <= k < n
      ensures PixelDone(out, input, n, modeIn, target, k)
    {
      BulkPixel(out, input, n, modeIn, target, channels, k);
    }
  }

  lemma BulkPixel(out: seq<byte>, input: seq<byte>, n: nat, modeIn: Mode, target: Mode, channels: nat, k: nat)
    requires Sizes(out, input, n, modeIn, target) && target.bitdepth == 8 && k < n
    requires (target.colortype == Rgba && channels == 4) || (target.colortype == Rgb && channels == 3)
    requires Offset(n, channels) <= |out| && out[..Offset(n, channels)] == Colors(input, n, modeIn, channels)
    ensures PixelDone(out, input, n, modeIn, target, k)
  {
    hide Shown, Colors;
    SizesAt(out, input, n, modeIn, target, k);
    ColorsAt(input, n, modeIn, channels, k);
    var o, o' := Offset(k, channels), Offset(k + 1, channels);
    assert out[o..o'] == out[..Offset(n, channels)][o..o'];
    assert out[o..o'][0] == out[o] && out[o..o'][1] == out[o + 1] && out[o..o'][2] == out[o + 2];
    if channels == 4 {
      assert out[o..o'][3] == out[o + 3];
    }
  }

  method CopyBytes(out: array<byte>, input: array<byte>, num: nat)
    requires out != input && num <= out.Length && num <= input.Length
    modifies out
    ensures out[..num] == input[..num]
  {
    for i := 0 to num
      invariant out[..i] == input[..i]
    {
      out[i] := input[i];
    }
  }

  /** Converts w times h pixels. */
  method Convert(out: array<byte>, input: array<byte>, modeOut: Mode, modeIn: Mode, w: nat, h: nat) returns (error: nat)
    requires out != input && ValidMode(modeOut) && ValidMode(modeIn)
    requires RawSize(w * h, Bpp(modeIn)) <= input.Length && RawSize(w * h, Bpp(modeOut)) <= out.Length
    modifies out
    ensures error == 107 <==> modeIn.colortype == Palette && modeIn.palette == []
    ensures error != 107 ==> Readable(input[..], w * h, modeIn)
    ensures error != 107 && TakenOver(modeOut, modeIn) ==>
      error == 0 && Bpp(modeOut) == Bpp(modeIn) && out[..RawSize(w * h, Bpp(modeIn))] == input[..RawSize(w * h, Bpp(modeIn))]
    ensures error != 107 && !TakenOver(modeOut, modeIn) ==>
      error == if Lacking(input[..], w * h, modeIn, Target(modeOut, modeIn)) then 82 else 0
    ensures error == 0 && !TakenOver(modeOut, modeIn) ==>
      Done(out[..], input[..], w * h, w * h, modeIn, Target(modeOut, modeIn))
  {
    hide RawSize, Done, Lacking, Colors, Stream, ModesEqual, TreeHolds;
    var n := w * h;
    ghost var data := input[..];
    if modeIn.colortype == Palette && modeIn.palette == [] {
      return 107;
    }
    RawSizeHolds(n, modeIn);
    RawSizeHolds(n, modeOut);
    if ModesEqual(modeOut, modeIn) {
      EqualModes(modeOut, modeIn);
      CopyBytes(out, input, RawSize(n, Bpp(modeIn)));
      return 0;
    }
    if modeOut.colortype == Palette && modeOut.palettesize == 0 && modeIn.colortype == Palette && modeIn.bitdepth == modeOut.bitdepth {
      CopyBytes(out, input, RawSize(n, Bpp(modeIn)));
      return 0;
    }
    var target := Target(modeOut, modeIn);
    assert PixelBits(n, target) == PixelBits(n, modeOut);
    var tree := BuildTree(target);
    error := 0;
    if modeIn.bitdepth == 16 && modeOut.bitdepth == 16 {
      ConvertDeep(out, input, n, modeIn, target);
    } else if modeOut.bitdepth == 8 && modeOut.colortype == Rgba {
      GetPixelColors8(out, n, input, modeIn, 4);
      BulkDone(out[..], data, n, modeIn, target, 4);
    } else if modeOut.bitdepth == 8 && modeOut.colortype == Rgb {
      GetPixelColors8(out, n, input, modeIn, 3);
      BulkDone(out[..], data, n, modeIn, target, 3);
    } else {
      error := ConvertShallow(out, input, n, modeIn, target, tree);
    }
    if error == 0 {
      DoneHasAll(out[..], data, n, modeIn, target);
    }
  }

  lemma EqualModes(a: Mode, b: Mode)
    requires ValidMode(a) && ValidMode(b) && ModesEqual(a, b)
    ensures Bpp(a) == Bpp(b)
  {
  }
}
