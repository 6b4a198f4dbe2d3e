/** Moving the pixels of an image into the seven passes and back. */
module Interlace {
  import opened Bits
  import opened Buffers
  import opened MsbStream
  import opened Adam7

  /** Copies the bytes of a pixel. */
  method CopyBytes(out: array<byte>, o: nat, input: array<byte>, n: nat, num: nat)
    requires out != input && o + num <= out.Length && n + num <= input.Length
    modifies out
    ensures Replaced(Stream(out[..]), old(Stream(out[..])), 8 * o, Stream(input[..])[8 * n..8 * (n + num)])
  {
    hide Stream, Replaced;
    ghost var before, s := out[..], input[..];
    ReplacedNothing(before, o);
    assert s[n..n] == [];
    for b := 0 to num
      invariant Replaced(out[..], before, o, s[n..n + b])
    {
      ghost var was := out[..];
      ReplacedOne(was, before, o, s[n..n + b], s[n + b]);
      out[o + b] := input[n + b];
      assert out[..] == was[o + b := s[n + b]];
      assert s[n..n + b + 1] == s[n..n + b] + [s[n + b]];
    }
    ReplacedBits(out[..], before, o, s[n..n + num]);
    StreamSlice(s, n, n + num);
  }

  lemma ByteIndex(k: nat, bpp: nat)
    requires bpp % 8 == 0
    ensures Times(k, bpp) == 8 * Times(k, bpp / 8)
  {
    var b := bpp / 8;
    assert k * (8 * b) == 8 * (k * b);
  }

  /** Copies one pixel: whole bytes, or bits if it has fewer than eight. */
  method CopyPixel(out: array<byte>, input: array<byte>, g: Geometry, i: nat, x: nat, y: nat)
    requires out != input && InPass(g, i, x, y) && g.bpp > 0 && (g.bpp < 8 || g.bpp % 8 == 0)
    requires To(g, i, x, y) + g.bpp <= 8 * out.Length && From(g, i, x, y) + g.bpp <= 8 * input.Length
    modifies out
    ensures Replaced(Stream(out[..]), old(Stream(out[..])), To(g, i, x, y),
                     Stream(input[..])[From(g, i, x, y)..From(g, i, x, y) + g.bpp])
  {
    hide Stream, Replaced, Times, PassStart, PassW, PassH, ColumnOf, RowOf;
    var pw, ps := PassW(i, g.w, g.h), PassStart(i, g.w, g.h, g.bpp);
    var image := Index(RowOf(i, y), g.w, ColumnOf(i, x));
    var pass := Index(y, pw, x);
    if g.bpp >= 8 {
      var bytewidth := g.bpp / 8;
      ByteIndex(image, g.bpp);
      ByteIndex(pass, g.bpp);
      var inImage, inPass := Times(image, bytewidth), ps + Times(pass, bytewidth);
      if g.interlace {
        CopyBytes(out, inPass, input, inImage, bytewidth);
      } else {
        CopyBytes(out, inImage, input, inPass, bytewidth);
      }
    } else {
      var inImage, inPass := Times(image, g.bpp), 8 * ps + Times(pass, g.bpp);
      if g.interlace {
        CopyBits(out, inPass, input, inImage, g.bpp);
      } else {
        CopyBits(out, inImage, input, inPass, g.bpp);
      }
    }
  }

  /** Room for all passes and for the image. */
  predicate Room(g: Geometry, outSize: nat, inSize: nat) {
    var image, passes := Times(Times(g.h, g.w), g.bpp), 8 * PassStart(PASSES, g.w, g.h, g.bpp);
    if g.interlace then passes <= 8 * outSize && image <= 8 * inSize else image <= 8 * outSize && passes <= 8 * inSize
  }

  lemma RoomForPixel(g: Geometry, i: nat, x: nat, y: nat, outSize: nat, inSize: nat)
    requires InPass(g, i, x, y) && Room(g, outSize, inSize)
    ensures To(g, i, x, y) + g.bpp <= 8 * outSize && From(g, i, x, y) + g.bpp <= 8 * inSize
  {
    hide Times, PassStart, PassW, PassH, ImageAt, PassAt, PassOf, XOf, YOf;
    PassInside(i, x, y, g.w, g.h, g.bpp);
    StartsGrow(i + 1, PASSES, g.w, g.h, g.bpp);
    PassPixel(i, x, y, g.w, g.h);
    ImageInside(ColumnOf(i, x), RowOf(i, y), g.w, g.h, g.bpp);
  }

  /** Moves every pixel: pass by pass, line by line. */
  method MovePixels(out: array<byte>, input: array<byte>, g: Geometry)
    requires out != input && g.bpp > 0 && (g.bpp < 8 || g.bpp % 8 == 0) && Room(g, out.Length, input.Length)
    modifies out
    ensures DoneUpTo(Stream(out[..]), Stream(input[..]), g, PASSES, 0, 0)
  {
    hide Stream, DoneUpTo, To, From, PassW, PassH, Room, Replaced;
    ghost var s := Stream(input[..]);
    NothingDone(Stream(out[..]), s, g);
    for i := 0 to PASSES
      invariant DoneUpTo(Stream(out[..]), s, g, i, 0, 0)
    {
      var passw, passh := PassW(i, g.w, g.h), PassH(i, g.w, g.h);
      for y := 0 to passh
        invariant DoneUpTo(Stream(out[..]), s, g, i, y, 0)
      {
        for x := 0 to passw
          invariant DoneUpTo(Stream(out[..]), s, g, i, y, x)
        {
          RoomForPixel(g, i, x, y, out.Length, input.Length);
          ghost var was := Stream(out[..]);
          CopyPixel(out, input, g, i, x, y);
          DoneStep(was, s, g, i, y, x, Stream(out[..]));
        }
        NextLine(Stream(out[..]), s, g, i, y, passw);
      }
      NextPass(Stream(out[..]), s, g, i, passh);
    }
  }

  lemma NothingDone(out: seq<bit>, input: seq<bit>, g: Geometry)
    ensures DoneUpTo(out, input, g, 0, 0, 0)
  {
  }

  /** Pixel (u, v) of the image and its copy in the passes. */
  predicate SamePixel(image: seq<bit>, passes: seq<bit>, u: nat, v: nat, w: nat, h: nat, bpp: nat) {
    Copied(image, ImageAt(u, v, w, bpp), passes, PassAt(PassOf(u, v), XOf(u, v), YOf(u, v), w, h, bpp), bpp)
  }

  lemma AllPixels(out: seq<bit>, input: seq<bit>, g: Geometry, u: nat, v: nat)
    requires DoneUpTo(out, input, g, PASSES, 0, 0) && u < g.w && v < g.h
    ensures if g.interlace then SamePixel(input, out, u, v, g.w, g.h, g.bpp) else SamePixel(out, input, u, v, g.w, g.h, g.bpp)
  {
    hide PassW, PassH, ImageAt, PassAt, PassOf, XOf, YOf, ColumnOf, RowOf;
    PixelInPass(u, v, g.w, g.h);
    assert PixelDone(out, input, g, PassOf(u, v), XOf(u, v), YOf(u, v));
  }

  /** From the image to the passes. */
  method Adam7Interlace(out: array<byte>, input: array<byte>, w: nat, h: nat, bpp: nat)
    requires out != input && bpp > 0 && (bpp < 8 || bpp % 8 == 0)
    requires out.Length >= PassStart(PASSES, w, h, bpp) && 8 * input.Length >= Times(Times(h, w), bpp)
    modifies out
    ensures forall u, v :: 0 <= u < w && 0 <= v < h ==> SamePixel(Stream(input[..]), Stream(out[..]), u, v, w, h, bpp)
  {
    hide Stream, PassStart, Times, DoneUpTo, SamePixel;
    var g := Geometry(w, h, bpp, true);
    MovePixels(out, input, g);
    forall u, v | 0 <= u < w && 0 <= v < h
      ensures SamePixel(Stream(input[..]), Stream(out[..]), u, v, w, h, bpp)
    {
      AllPixels(Stream(out[..]), Stream(input[..]), g, u, v);
    }
  }

  /** And back. */
  method Adam7Deinterlace(out: array<byte>, input: array<byte>, w: nat, h: nat, bpp: nat)
    requires out != input && bpp > 0 && (bpp < 8 || bpp % 8 == 0)
    requires input.Length >= PassStart(PASSES, w, h, bpp) && 8 * out.Length >= Times(Times(h, w), bpp)
    modifies out
    ensures forall u, v :: 0 <= u < w && 0 <= v < h ==> SamePixel(Stream(out[..]), Stream(input[..]), u, v, w, h, bpp)
  {
    hide Stream, PassStart, Times, DoneUpTo, SamePixel;
    var g := Geometry(w, h, bpp, false);
    MovePixels(out, input, g);
    forall u, v | 0 <= u < w && 0 <= v < h
      ensures SamePixel(Stream(out[..]), Stream(input[..]), u, v, w, h, bpp)
    {
      AllPixels(Stream(out[..]), Stream(input[..]), g, u, v);
    }
  }
}
