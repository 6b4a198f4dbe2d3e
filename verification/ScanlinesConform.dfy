/** Scanlines show the pixels that RFC 2083 says, in order or interlaced. */
module ScanlinesConform {
  import opened Bits
  import opened Buffers
  import opened MsbStream
  import opened Filters
  import opened FilterImage
  import opened FilterConforms
  import opened Adam7
  import opened Interlace
  import opened Scanlines
  import Rfc2083

  // ----- Lines of pixels

  lemma {:induction false} UnpaddedAt(s: seq<bit>, l: nat, n: nat, h: nat, y: nat, k: nat)
    requires |s| == h * n && l <= n && y < h && k < l
    ensures 0 <= y * n + k < |s| && 0 <= y * l + k < |Unpadded(s, l, n, h)|
    ensures Unpadded(s, l, n, h)[y * l + k] == s[y * n + k]
    decreases h
  {
    Sizes(h, n);
    if y > 0 {
      UnpaddedAt(s[n..], l, n, h - 1, y - 1, k);
      assert y * n == (y - 1) * n + n && y * l == (y - 1) * l + l;
    }
  }

  lemma LinePlace(y: nat, n: nat, k: nat)
    ensures (y * (8 * n) + k) / 8 == y * n + k / 8 && (y * (8 * n) + k) % 8 == k % 8
  {
    assert y * (8 * n) == 8 * (y * n);
  }

  lemma UnpaddedIsPacked(rows: seq<byte>, l: nat, n: nat, h: nat)
    requires |rows| == h * n && l <= 8 * n
    ensures Rfc2083.Packed(Unpadded(Stream(rows), l, 8 * n, h), l, rows, n, h)
  {
    hide Unpadded, Stream, Pow2;
    var bits := Unpadded(Stream(rows), l, 8 * n, h);
    assert h * (8 * n) == 8 * (h * n);
    UnpaddedSize(Stream(rows), l, 8 * n, h);
    forall y, k | 0 <= y < h && 0 <= k < l
      ensures Rfc2083.SameBit(bits, l, rows, n, y, k)
    {
      UnpaddedAt(Stream(rows), l, 8 * n, h, y, k);
      LinePlace(y, n, k);
      StreamAt(rows, y * (8 * n) + k);
    }
  }

  /** The pixels that the program finds in filtered lines are those they show. */
  lemma PixelsConform(data: seq<byte>, w: nat, h: nat, bpp: nat)
    requires bpp > 0 && (bpp < 8 || bpp % 8 == 0)
    requires |data| == Times(h, LineBytes(w, bpp) + 1) && TypesOk(data, LineBytes(w, bpp), h)
    ensures Rfc2083.Shows(data, w, h, bpp, PixelsOf(data, w, h, bpp))
  {
    hide Unpadded, Stream, Unfiltered, TypesOk, Rfc2083.FilteredLines, Rfc2083.Packed;
    var n, bw := LineBytes(w, bpp), ByteWidth(bpp);
    var rows := Unfiltered(data, n, bw, [], h);
    UnfilterConforms(data, n, bw, h);
    UnfilteredSize(data, n, bw, [], h);
    LineFits(w, bpp);
    UnpaddedIsPacked(rows, w * bpp, n, h);
    assert Rfc2083.LineSize(n, w, bpp) && Rfc2083.PixelSize(bw, bpp);
  }

  // ----- Passes

  lemma PassConforms(u: nat, v: nat)
    ensures Rfc2083.Pass(u, v) == PassOf(u, v) + 1
  {
    Halves(u);
    Halves(v);
    assert u % 8 < 8 && v % 8 < 8;
  }

  lemma ColumnConforms(i: nat, u: nat)
    requires i < PASSES
    ensures Rfc2083.HasColumn(i + 1, u) <==> u % DX(i) == IX(i)
  {
    hide Rfc2083.Pass, PassOf, IX, DX, IY, DY;
    if v: nat :| Rfc2083.Pass(u, v) == i + 1 {
      PassConforms(u, v);
      PassResidues(u, v);
    }
    if u % DX(i) == IX(i) {
      Back(u, IX(i), DX(i));
      OnlyPass(i, (u - IX(i)) / DX(i), 0);
      PassConforms(u, RowOf(i, 0));
      assert Rfc2083.Pass(u, RowOf(i, 0)) == i + 1;
    }
  }

  lemma RowConforms(i: nat, v: nat)
    requires i < PASSES
    ensures Rfc2083.HasRow(i + 1, v) <==> v % DY(i) == IY(i)
  {
    hide Rfc2083.Pass, PassOf, IX, DX, IY, DY;
    if u: nat :| Rfc2083.Pass(u, v) == i + 1 {
      PassConforms(u, v);
      PassResidues(u, v);
    }
    if v % DY(i) == IY(i) {
      Back(v, IY(i), DY(i));
      OnlyPass(i, 0, (v - IY(i)) / DY(i));
      PassConforms(ColumnOf(i, 0), v);
      assert Rfc2083.Pass(ColumnOf(i, 0), v) == i + 1;
    }
  }

  /** Every d-th of the numbers below n, from r on. */
  lemma EveryDth(n: nat, r: nat, d: nat)
    requires r < d && (d == 1 || d == 2 || d == 4 || d == 8)
    ensures (n + 1 + d - r - 1) / d == (n + d - r - 1) / d + if n % d == r then 1 else 0
  {
  }

  lemma {:induction false} ColumnsConform(i: nat, w: nat)
    requires i < PASSES
    ensures Rfc2083.ColumnsOf(i + 1, w) == Columns(i, w)
  {
    hide Rfc2083.HasColumn, IX, DX;
    if w > 0 {
      ColumnsConform(i, w - 1);
      ColumnConforms(i, w - 1);
      Step(i);
      EveryDth(w - 1, IX(i), DX(i));
    } else {
      Step(i);
    }
  }

  lemma Step(i: nat)
    ensures DX(i) == 1 || DX(i) == 2 || DX(i) == 4 || DX(i) == 8
    ensures DY(i) == 1 || DY(i) == 2 || DY(i) == 4 || DY(i) == 8
    ensures (DX(i) - IX(i) - 1) / DX(i) == 0 && (DY(i) - IY(i) - 1) / DY(i) == 0
  {
  }

  lemma {:induction false} RowsConform(i: nat, h: nat)
    requires i < PASSES
    ensures Rfc2083.RowsOf(i + 1, h) == Rows(i, h)
  {
    hide Rfc2083.HasRow, IY, DY;
    if h > 0 {
      RowsConform(i, h - 1);
      RowConforms(i, h - 1);
      Step(i);
      EveryDth(h - 1, IY(i), DY(i));
    } else {
      Step(i);
    }
  }

  /** Place of a pixel among those of its pass. */
  lemma PlaceConforms(u: nat, v: nat)
    ensures
      var i := PassOf(u, v);
      Rfc2083.ColumnsOf(i + 1, u) == XOf(u, v) && Rfc2083.RowsOf(i + 1, v) == YOf(u, v)
  {
    hide IX, IY, DX, DY, PassOf;
    var i := PassOf(u, v);
    ColumnsConform(i, u);
    RowsConform(i, v);
    PassResidues(u, v);
    Back(u, IX(i), DX(i));
    Back(v, IY(i), DY(i));
    CountBelow(IX(i), DX(i), (u - IX(i)) / DX(i));
    CountBelow(IY(i), DY(i), (v - IY(i)) / DY(i));
  }

  lemma CountBelow(r: nat, d: nat, k: nat)
    requires r < d
    ensures (r + k * d + d - r - 1) / d == k
  {
    assert r + k * d + d - r - 1 == k * d + (d - 1);
    ModUnique(k * d + (d - 1), k, d - 1, d);
  }

  lemma SizesConform(i: nat, w: nat, h: nat)
    requires i < PASSES
    ensures Rfc2083.WidthOf(i + 1, w, h) == PassW(i, w, h) && Rfc2083.HeightOf(i + 1, w, h) == PassH(i, w, h)
  {
    hide Columns, Rows;
    ColumnsConform(i, w);
    RowsConform(i, h);
  }

  // ----- Interlaced data

  function Parts(data: seq<byte>, w: nat, h: nat, bpp: nat): (parts: seq<seq<byte>>)
    requires |data| == FilterStart(PASSES, w, h, bpp)
  {
    seq(PASSES, i requires 0 <= i < PASSES => StartsGrow(i + 1, PASSES, w, h, bpp); PassData(data, i, w, h, bpp))
  }

  function Passes(data: seq<byte>, w: nat, h: nat, bpp: nat): (passes: seq<seq<bit>>)
    requires |data| == FilterStart(PASSES, w, h, bpp)
  {
    seq(PASSES, i requires 0 <= i < PASSES => StartsGrow(i + 1, PASSES, w, h, bpp); PassPixels(data, i, w, h, bpp))
  }

  lemma {:induction false} PartsJoin(data: seq<byte>, w: nat, h: nat, bpp: nat)
    requires |data| == FilterStart(PASSES, w, h, bpp)
    ensures
      var p := Parts(data, w, h, bpp);
      data == p[0] + p[1] + p[2] + p[3] + p[4] + p[5] + p[6]
  {
    hide FilterStart, PassH, PassBytes, Times;
    NoPass(w, h, bpp);
    var p := Parts(data, w, h, bpp);
    Join(data, w, h, bpp, 1);
    Join(data, w, h, bpp, 2);
    Join(data, w, h, bpp, 3);
    Join(data, w, h, bpp, 4);
    Join(data, w, h, bpp, 5);
    Join(data, w, h, bpp, 6);
    assert p[0] == data[..FilterStart(1, w, h, bpp)];
    assert data[..FilterStart(7, w, h, bpp)] == data;
  }

  lemma Join(data: seq<byte>, w: nat, h: nat, bpp: nat, i: nat)
    requires i < PASSES && |data| == FilterStart(PASSES, w, h, bpp)
    ensures FilterStart(i, w, h, bpp) <= FilterStart(i + 1, w, h, bpp) <= |data|
    ensures data[..FilterStart(i + 1, w, h, bpp)] == data[..FilterStart(i, w, h, bpp)] + Parts(data, w, h, bpp)[i]
  {
    hide FilterStart, Parts;
    StartsGrow(i, i + 1, w, h, bpp);
    StartsGrow(i + 1, PASSES, w, h, bpp);
    PartIs(data, w, h, bpp, i);
  }

  lemma PartIs(data: seq<byte>, w: nat, h: nat, bpp: nat, i: nat)
    requires i < PASSES && |data| == FilterStart(PASSES, w, h, bpp)
    ensures |Parts(data, w, h, bpp)| == 7 && FilterStart(i, w, h, bpp) <= FilterStart(i + 1, w, h, bpp) <= |data|
    ensures Parts(data, w, h, bpp)[i] == data[FilterStart(i, w, h, bpp)..FilterStart(i + 1, w, h, bpp)]
  {
    hide FilterStart;
    StartsGrow(i, i + 1, w, h, bpp);
    StartsGrow(i + 1, PASSES, w, h, bpp);
  }

  /** The image whose pixels come from the passes of the data. */
  ghost predicate FromPasses(image: seq<bit>, data: seq<byte>, w: nat, h: nat, bpp: nat) {
    && |data| == FilterStart(PASSES, w, h, bpp) && AllTypesOk(data, PASSES, w, h, bpp) && BitsOfImage(w, h, bpp) <= |image|
    && forall u, v :: 0 <= u < w && 0 <= v < h ==> PixelFrom(image, data, u, v, w, h, bpp)
  }

  lemma PassShown(data: seq<byte>, i: nat, w: nat, h: nat, bpp: nat)
    requires i < PASSES && bpp > 0 && (bpp < 8 || bpp % 8 == 0)
    requires |data| == FilterStart(PASSES, w, h, bpp) && PassTypesOk(data, i, w, h, bpp)
    ensures Rfc2083.Shows(Parts(data, w, h, bpp)[i], Rfc2083.WidthOf(i + 1, w, h), Rfc2083.HeightOf(i + 1, w, h), bpp,
                          Passes(data, w, h, bpp)[i])
  {
    hide Rfc2083.Shows, Rfc2083.WidthOf, Rfc2083.HeightOf, TypesOk, FilterStart, PixelsOf, PassW, PassH;
    SizesConform(i, w, h);
    PixelsConform(PassData(data, i, w, h, bpp), PassW(i, w, h), PassH(i, w, h), bpp);
  }

  lemma PixelSpread(image: seq<bit>, data: seq<byte>, u: nat, v: nat, w: nat, h: nat, bpp: nat)
    requires |data| == FilterStart(PASSES, w, h, bpp) && BitsOfImage(w, h, bpp) <= |image|
    requires u < w && v < h && PixelFrom(image, data, u, v, w, h, bpp)
    ensures Rfc2083.PixelOfPass(image[..BitsOfImage(w, h, bpp)], u, v, w, h, bpp, Passes(data, w, h, bpp))
  {
    hide Rfc2083.ColumnsOf, Rfc2083.RowsOf, Rfc2083.WidthOf, Rfc2083.Pass, FilterStart, PixelsOf, PassW, PassH, PassOf, XOf, YOf;
    var i := PassOf(u, v);
    PassConforms(u, v);
    PlaceConforms(u, v);
    SizesConform(i, w, h);
    ImageInside(u, v, w, h, bpp);
    var m, n := BitsOfImage(w, h, bpp), ImageAt(u, v, w, bpp);
    assert image[..m][n..n + bpp] == image[n..n + bpp];
  }

  lemma PassesConform(image: seq<bit>, data: seq<byte>, w: nat, h: nat, bpp: nat)
    requires FromPasses(image, data, w, h, bpp) && bpp > 0 && (bpp < 8 || bpp % 8 == 0)
    ensures Rfc2083.ShowsPasses(data, w, h, bpp, image[..BitsOfImage(w, h, bpp)])
  {
    hide Rfc2083.Shows, Rfc2083.WidthOf, Rfc2083.HeightOf, Rfc2083.PixelOfPass, FilterStart, PassTypesOk, PixelFrom, Parts, Passes;
    var parts, passes := Parts(data, w, h, bpp), Passes(data, w, h, bpp);
    PartsCount(data, w, h, bpp);
    PartsJoin(data, w, h, bpp);
    forall i | 0 <= i < 7
      ensures Rfc2083.Shows(parts[i], Rfc2083.WidthOf(i + 1, w, h), Rfc2083.HeightOf(i + 1, w, h), bpp, passes[i])
    {
      PassShown(data, i, w, h, bpp);
    }
    var bits := image[..BitsOfImage(w, h, bpp)];
    forall u, v | 0 <= u < w && 0 <= v < h
      ensures Rfc2083.PixelOfPass(bits, u, v, w, h, bpp, passes)
    {
      PixelSpread(image, data, u, v, w, h, bpp);
    }
    assert Rfc2083.Spread(bits, w, h, bpp, passes);
  }

  lemma PartsCount(data: seq<byte>, w: nat, h: nat, bpp: nat)
    requires |data| == FilterStart(PASSES, w, h, bpp)
    ensures |Parts(data, w, h, bpp)| == |Passes(data, w, h, bpp)| == 7
  {
  }

  /** Pixels that were written come from the data, too. */
  lemma WrittenFrom(image: seq<bit>, data: seq<byte>, s: seq<bit>, u: nat, v: nat, w: nat, h: nat, bpp: nat)
    requires u < w && v < h && PassWritten(data, s, PassOf(u, v), w, h, bpp) && SamePixel(image, s, u, v, w, h, bpp)
    ensures PixelFrom(image, data, u, v, w, h, bpp)
  {
    hide Times, FilterStart, PassStart, PassW, PassH, PixelsOf, ImageAt, PassOf, XOf, YOf, ColumnOf, RowOf, TypesOk;
    var i, x, y := PassOf(u, v), XOf(u, v), YOf(u, v);
    PixelInPass(u, v, w, h);
    PassInside(i, x, y, w, h, bpp);
    var p, n := 8 * PassStart(i, w, h, bpp), Times(PassH(i, w, h), LineBits(i, w, h, bpp));
    var q := Times(Index(y, PassW(i, w, h), x), bpp);
    SliceOfSlice(s, p, p + n, q, q + bpp);
  }

  // ----- Whole images

  /** The data show this image, in order or in passes. */
  ghost predicate Conforms(data: seq<byte>, w: nat, h: nat, bpp: nat, interlace: bool, bits: seq<bit>) {
    if interlace then Rfc2083.ShowsPasses(data, w, h, bpp, bits) else Rfc2083.Shows(data, w, h, bpp, bits)
  }

  /** What is written shows the image. */
  lemma WrittenConforms(data: seq<byte>, image: seq<bit>, w: nat, h: nat, bpp: nat, interlace: bool)
    requires StandsFor(data, image, w, h, bpp, interlace) && bpp > 0 && (bpp < 8 || bpp % 8 == 0)
    requires interlace ==> |data| == FilterStart(PASSES, w, h, bpp) && BitsOfImage(w, h, bpp) <= |image|
    ensures BitsOfImage(w, h, bpp) <= |image| && Conforms(data, w, h, bpp, interlace, image[..BitsOfImage(w, h, bpp)])
  {
    hide BitsOfImage, Times, FilterStart, PixelsOf, TypesOk, LineBytes, PassWritten, SamePixel, PixelFrom, PassOf,
         Rfc2083.Shows, Rfc2083.ShowsPasses;
    if interlace {
      var s :| (forall i :: 0 <= i < PASSES ==> PassWritten(data, s, i, w, h, bpp)) && SameImage(image, s, w, h, bpp);
      PassesGood(data, s, w, h, bpp);
      forall u, v | 0 <= u < w && 0 <= v < h
        ensures PixelFrom(image, data, u, v, w, h, bpp)
      {
        WrittenFrom(image, data, s, u, v, w, h, bpp);
      }
      PassesConform(image, data, w, h, bpp);
    } else {
      PixelsConform(data, w, h, bpp);
    }
  }

  /** What is read is the image that the data show. */
  lemma ReadConforms(data: seq<byte>, image: seq<bit>, w: nat, h: nat, bpp: nat, interlace: bool)
    requires bpp > 0 && (bpp < 8 || bpp % 8 == 0) && BitsOfImage(w, h, bpp) <= |image|
    requires |data| == if interlace then FilterStart(PASSES, w, h, bpp) else Times(h, LineBytes(w, bpp) + 1)
    requires Decoded(0, image, data, w, h, bpp, interlace)
    ensures Conforms(data, w, h, bpp, interlace, image[..BitsOfImage(w, h, bpp)])
  {
    hide BitsOfImage, Times, FilterStart, PixelsOf, TypesOk, LineBytes, PixelFrom, Rfc2083.Shows, Rfc2083.ShowsPasses;
    if interlace {
      PassesConform(image, data, w, h, bpp);
    } else {
      PixelsConform(data, w, h, bpp);
    }
  }
}
