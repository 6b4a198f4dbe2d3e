/** From an image to filtered, padded and possibly interlaced scanlines, and back. */
module Scanlines {
  import opened Bits
  import opened Buffers
  import opened MsbStream
  import opened Filters
  import opened FilterImage
  import opened Adam7
  import opened Interlace

  // ----- One (reduced) image

  /** The pixels that filtered scanlines stand for, without padding bits. */
  function PixelsOf(data: seq<byte>, w: nat, h: nat, bpp: nat): (s: seq<bit>) {
    Unpadded(Stream(Unfiltered(data, LineBytes(w, bpp), ByteWidth(bpp), [], h)), Times(w, bpp), 8 * LineBytes(w, bpp), h)
  }

  lemma {:induction false} UnfilteredSize(data: seq<byte>, lb: nat, bw: nat, prev: seq<byte>, h: nat)
    requires |data| == Times(h, lb + 1)
    ensures |Unfiltered(data, lb, bw, prev, h)| == Times(h, lb)
    decreases h
  {
    hide Times, Recon;
    if h == 0 {
      TimesZero(lb);
    } else {
      TimesNext(h - 1, lb);
      TimesNext(h - 1, lb + 1);
      UnfilteredSize(data[lb + 1..], lb, bw, Recon(data[1..lb + 1], prev, bw, data[0], lb), h - 1);
    }
  }

  lemma {:induction false} UnpaddedSize(s: seq<bit>, ol: nat, il: nat, h: nat)
    requires |s| == Times(h, il) && ol <= il
    ensures |Unpadded(s, ol, il, h)| == Times(h, ol)
    ensures ol == il ==> Unpadded(s, ol, il, h) == s
    decreases h
  {
    hide Times;
    if h == 0 {
      TimesZero(ol);
      TimesZero(il);
    } else {
      TimesNext(h - 1, ol);
      TimesNext(h - 1, il);
      UnpaddedSize(s[il..], ol, il, h - 1);
      assert ol == il ==> s[..ol] + s[il..] == s;
    }
  }

  lemma TimesEight(h: nat, b: nat)
    ensures Times(h, 8 * b) == 8 * Times(h, b)
  {
    assert h * (8 * b) == 8 * (h * b);
  }

  lemma LineFits(w: nat, bpp: nat)
    ensures Times(w, bpp) <= 8 * LineBytes(w, bpp) < Times(w, bpp) + 8
    ensures bpp % 8 == 0 ==> Times(w, bpp) == 8 * LineBytes(w, bpp)
  {
    hide Times;
    if bpp % 8 == 0 {
      WholeBytes(w, bpp);
    }
  }

  lemma PixelsOfSize(data: seq<byte>, w: nat, h: nat, bpp: nat)
    requires |data| == Times(h, LineBytes(w, bpp) + 1)
    ensures |PixelsOf(data, w, h, bpp)| == Times(h, Times(w, bpp))
    ensures |Unfiltered(data, LineBytes(w, bpp), ByteWidth(bpp), [], h)| == Times(h, LineBytes(w, bpp))
    ensures Times(w, bpp) == 8 * LineBytes(w, bpp) ==>
      PixelsOf(data, w, h, bpp) == Stream(Unfiltered(data, LineBytes(w, bpp), ByteWidth(bpp), [], h))
  {
    hide Times, Unpadded, Unfiltered, Stream, LineBytes;
    var lb := LineBytes(w, bpp);
    LineFits(w, bpp);
    TimesEight(h, lb);
    UnfilteredSize(data, lb, ByteWidth(bpp), [], h);
    UnpaddedSize(Stream(Unfiltered(data, lb, ByteWidth(bpp), [], h)), Times(w, bpp), 8 * lb, h);
  }

  /** Filtering padded lines keeps the pixels. */
  lemma FilteredPixels(rows: seq<byte>, bits: seq<bit>, w: nat, h: nat, bpp: nat, types: seq<byte>)
    requires bpp > 0 && |types| == h && (forall y :: 0 <= y < h ==> types[y] <= 4)
    requires |rows| == Times(h, LineBytes(w, bpp)) && |bits| == Times(h, Times(w, bpp))
    requires Stream(rows) == Padded(bits, 8 * LineBytes(w, bpp), Times(w, bpp), h)
    ensures
      var data := FilterRows(rows, LineBytes(w, bpp), ByteWidth(bpp), [], types);
      && |data| == Times(h, LineBytes(w, bpp) + 1) && TypesOk(data, LineBytes(w, bpp), h)
      && LineTypes(data, LineBytes(w, bpp), h) == types && PixelsOf(data, w, h, bpp) == bits
  {
    hide Times, Stream, Padded, Unpadded, Unfiltered, FilterRows, TypesOk, LineTypes, LineBytes;
    LineFits(w, bpp);
    UnfilterFilter(rows, LineBytes(w, bpp), ByteWidth(bpp), [], types);
    UnpaddedPadded(bits, 8 * LineBytes(w, bpp), Times(w, bpp), h);
  }

  /** Lines that fill whole bytes need no padding. */
  lemma {:induction false} PaddedNothing(s: seq<bit>, l: nat, h: nat)
    requires |s| == Times(h, l)
    ensures Padded(s, l, l, h) == s
    decreases h
  {
    hide Times;
    if h == 0 {
      TimesZero(l);
    } else {
      TimesNext(h - 1, l);
      PaddedNothing(s[l..], l, h - 1);
      assert s[..l] + Zeros(0) + s[l..] == s;
    }
  }

  /** Pads, if asked to, and filters an image that lies at byte n of the input. */
  method FilterPadded(out: array<byte>, o: nat, input: array<byte>, n: nat, w: nat, h: nat, bpp: nat, types: seq<byte>, pad: bool)
    requires out != input && bpp > 0 && (h > 0 ==> w > 0)
    requires pad || Times(w, bpp) == 8 * LineBytes(w, bpp)
    requires |types| == h && forall y :: 0 <= y < h ==> types[y] <= 4
    requires 8 * n + Times(h, Times(w, bpp)) <= 8 * input.Length && o + Times(h, LineBytes(w, bpp) + 1) <= out.Length
    modifies out
    ensures
      exists data ::
        && |data| == Times(h, LineBytes(w, bpp) + 1) && TypesOk(data, LineBytes(w, bpp), h)
        && LineTypes(data, LineBytes(w, bpp), h) == types
        && PixelsOf(data, w, h, bpp) == Stream(input[..])[8 * n..8 * n + Times(h, Times(w, bpp))]
        && Replaced(out[..], old(out[..]), o, data)
  {
    hide Times, Stream, Padded, Unpadded, Unfiltered, FilterRows, TypesOk, LineTypes, LineBytes, Replaced;
    var linebits, linebytes := Times(w, bpp), LineBytes(w, bpp);
    ghost var bits := Stream(input[..])[8 * n..8 * n + Times(h, linebits)];
    LineFits(w, bpp);
    TimesEight(h, linebytes);
    if pad {
      var padded := new byte[Times(h, linebytes)];
      UnpaddedPadded(bits, 8 * linebytes, linebits, h);
      ghost var before := Stream(padded[..]);
      AddPaddingBits(padded, input, n, 8 * linebytes, linebits, h);
      ReplacedAll(Stream(padded[..]), before, Padded(bits, 8 * linebytes, linebits, h));
      FilteredPixels(padded[..], bits, w, h, bpp, types);
      var error := Filter(out, o, padded, 0, w, h, bpp, types);
      assert padded[0..Times(h, linebytes)] == padded[..];
    } else {
      var rows := input[n..n + Times(h, linebytes)];
      StreamSlice(input[..], n, n + Times(h, linebytes));
      assert input[..][n..n + Times(h, linebytes)] == rows;
      PaddedNothing(bits, linebits, h);
      FilteredPixels(rows, bits, w, h, bpp, types);
      var error := Filter(out, o, input, n, w, h, bpp, types);
    }
  }

  // ----- Before compression

  function BitsOfImage(w: nat, h: nat, bpp: nat): nat {
    Times(Times(h, w), bpp)
  }

  /** The pixels of pass i as they lie in interlaced, packed data. */
  predicate PassHolds(s: seq<bit>, pixels: seq<bit>, i: nat, w: nat, h: nat, bpp: nat) {
    var p, n := 8 * PassStart(i, w, h, bpp), Times(PassH(i, w, h), LineBits(i, w, h, bpp));
    p + n <= |s| && s[p..p + n] == pixels
  }

  function PassData(data: seq<byte>, i: nat, w: nat, h: nat, bpp: nat): (d: seq<byte>)
    requires FilterStart(i + 1, w, h, bpp) <= |data|
    ensures |d| == Times(PassH(i, w, h), PassBytes(i, w, h, bpp) + 1)
  {
    data[FilterStart(i, w, h, bpp)..FilterStart(i + 1, w, h, bpp)]
  }

  function PassPixels(data: seq<byte>, i: nat, w: nat, h: nat, bpp: nat): seq<bit>
    requires FilterStart(i + 1, w, h, bpp) <= |data|
  {
    PixelsOf(PassData(data, i, w, h, bpp), PassW(i, w, h), PassH(i, w, h), bpp)
  }

  /** Pass i of the filtered data is in order and has the pixels of the packed data. */
  predicate PassWritten(data: seq<byte>, s: seq<bit>, i: nat, w: nat, h: nat, bpp: nat) {
    && FilterStart(i + 1, w, h, bpp) <= |data|
    && TypesOk(PassData(data, i, w, h, bpp), PassBytes(i, w, h, bpp), PassH(i, w, h))
    && PassHolds(s, PassPixels(data, i, w, h, bpp), i, w, h, bpp)
  }

  lemma PassWrittenKept(data: seq<byte>, data': seq<byte>, s: seq<bit>, i: nat, j: nat, w: nat, h: nat, bpp: nat, more: seq<byte>)
    requires i < j && PassWritten(data, s, i, w, h, bpp) && Replaced(data', data, FilterStart(j, w, h, bpp), more)
    ensures PassWritten(data', s, i, w, h, bpp) && PassData(data', i, w, h, bpp) == PassData(data, i, w, h, bpp)
  {
    hide FilterStart, PassStart, PassW, PassH, PixelsOf, TypesOk, Times;
    StartsGrow(i + 1, j, w, h, bpp);
    StartsGrow(i, i + 1, w, h, bpp);
    var a, b, c := FilterStart(i, w, h, bpp), FilterStart(i + 1, w, h, bpp), FilterStart(j, w, h, bpp);
    assert data'[..c] == data[..c];
    assert data'[a..b] == data'[..c][a..b] == data[a..b];
  }

  lemma PassJustWritten(data: seq<byte>, before: seq<byte>, s: seq<bit>, i: nat, w: nat, h: nat, bpp: nat, more: seq<byte>)
    requires Replaced(data, before, FilterStart(i, w, h, bpp), more) && FilterStart(i + 1, w, h, bpp) <= |before|
    requires |more| == Times(PassH(i, w, h), PassBytes(i, w, h, bpp) + 1) && TypesOk(more, PassBytes(i, w, h, bpp), PassH(i, w, h))
    requires PassHolds(s, PixelsOf(more, PassW(i, w, h), PassH(i, w, h), bpp), i, w, h, bpp)
    ensures PassWritten(data, s, i, w, h, bpp) && PassData(data, i, w, h, bpp) == more
  {
    hide PassStart, PassW, PassH, PixelsOf, TypesOk, Times;
    ReplacedParts(data, before, FilterStart(i, w, h, bpp), more);
    assert PassData(data, i, w, h, bpp) == more;
  }

  /** The lines of pass i have these filter types. */
  predicate PassTyped(data: seq<byte>, i: nat, w: nat, h: nat, bpp: nat, types: seq<byte>) {
    && FilterStart(i + 1, w, h, bpp) <= |data|
    && LineTypes(PassData(data, i, w, h, bpp), PassBytes(i, w, h, bpp), PassH(i, w, h)) == types
  }

  /** The filter types of all lines. */
  predicate TypesAre(data: seq<byte>, w: nat, h: nat, bpp: nat, interlace: bool, types: seq<seq<byte>>) {
    if interlace then |types| == PASSES && forall i :: 0 <= i < PASSES ==> PassTyped(data, i, w, h, bpp, types[i])
    else types == [LineTypes(data, LineBytes(w, bpp), h)]
  }

  predicate Choice(types: seq<byte>, h: nat) {
    |types| == h && forall y :: 0 <= y < h ==> types[y] <= 4
  }

  /** Pixels in image order and in interlaced data. */
  ghost predicate SameImage(image: seq<bit>, passes: seq<bit>, w: nat, h: nat, bpp: nat) {
    forall u, v :: 0 <= u < w && 0 <= v < h ==> SamePixel(image, passes, u, v, w, h, bpp)
  }

  /** Filtered data of a whole image, interlaced or not, stand for these pixels. */
  ghost predicate StandsFor(data: seq<byte>, image: seq<bit>, w: nat, h: nat, bpp: nat, interlace: bool) {
    if interlace then
      exists s ::
        && (forall i :: 0 <= i < PASSES ==> PassWritten(data, s, i, w, h, bpp))
        && SameImage(image, s, w, h, bpp)
    else
      && |data| == Times(h, LineBytes(w, bpp) + 1) && TypesOk(data, LineBytes(w, bpp), h)
      && BitsOfImage(w, h, bpp) <= |image| && PixelsOf(data, w, h, bpp) == image[..BitsOfImage(w, h, bpp)]
  }

  lemma ImageLines(w: nat, h: nat, bpp: nat)
    ensures Times(h, Times(w, bpp)) == BitsOfImage(w, h, bpp)
  {
    TimesAssociate(h, w, bpp);
  }

  method PreProcessInterlaced(input: array<byte>, w: nat, h: nat, bpp: nat, types: seq<seq<byte>>) returns (out: array<byte>)
    requires bpp > 0 && (bpp < 8 || bpp % 8 == 0) && 8 * input.Length >= BitsOfImage(w, h, bpp)
    requires |types| == PASSES && forall i :: 0 <= i < PASSES ==> Choice(types[i], PassH(i, w, h))
    ensures fresh(out) && out.Length == FilterStart(PASSES, w, h, bpp)
    ensures StandsFor(out[..], Stream(input[..]), w, h, bpp, true) && TypesAre(out[..], w, h, bpp, true, types)
  {
    hide Stream, Times, FilterStart, PassStart, PaddedStart, PassW, PassH, PassWritten, PassTyped, SameImage, TypesOk, PixelsOf, Replaced, LineBytes;
    out := new byte[FilterStart(PASSES, w, h, bpp)];
    var adam7 := new byte[PassStart(PASSES, w, h, bpp)];
    Adam7Interlace(adam7, input, w, h, bpp);
    ghost var s := Stream(adam7[..]);
    assert SameImage(Stream(input[..]), s, w, h, bpp) by { FoldSame(Stream(input[..]), s, w, h, bpp); }
    for i := 0 to PASSES
      invariant Stream(adam7[..]) == s
      invariant forall j :: 0 <= j < i ==> PassWritten(out[..], s, j, w, h, bpp) && PassTyped(out[..], j, w, h, bpp, types[j])
    {
      WritePass(out, adam7, i, w, h, bpp, types, s);
    }
  }

  lemma FoldSame(image: seq<bit>, passes: seq<bit>, w: nat, h: nat, bpp: nat)
    requires forall u, v :: 0 <= u < w && 0 <= v < h ==> SamePixel(image, passes, u, v, w, h, bpp)
    ensures SameImage(image, passes, w, h, bpp)
  {
    hide SamePixel;
  }

  lemma PassRoom(i: nat, w: nat, h: nat, bpp: nat)
    requires i < PASSES
    ensures 8 * PassStart(i, w, h, bpp) + Times(PassH(i, w, h), LineBits(i, w, h, bpp)) <= 8 * PassStart(PASSES, w, h, bpp)
    ensures FilterStart(i, w, h, bpp) + Times(PassH(i, w, h), PassBytes(i, w, h, bpp) + 1)
         == FilterStart(i + 1, w, h, bpp) <= FilterStart(PASSES, w, h, bpp)
    ensures PaddedStart(i, w, h, bpp) + Times(PassH(i, w, h), PassBytes(i, w, h, bpp)) == PaddedStart(i + 1, w, h, bpp)
    ensures PaddedStart(i + 1, w, h, bpp) <= FilterStart(i + 1, w, h, bpp)
    ensures PassStart(i, w, h, bpp) <= PaddedStart(i, w, h, bpp) <= FilterStart(i, w, h, bpp)
    ensures bpp % 8 == 0 ==> PassStart(i, w, h, bpp) == PaddedStart(i, w, h, bpp)
    ensures PassH(i, w, h) > 0 ==> PassW(i, w, h) > 0
  {
    hide Times;
    StartsGrow(i + 1, PASSES, w, h, bpp);
    StartsOrdered(i, w, h, bpp);
    StartsOrdered(i + 1, w, h, bpp);
  }

  method WritePass(out: array<byte>, adam7: array<byte>, i: nat, w: nat, h: nat, bpp: nat, types: seq<seq<byte>>, ghost s: seq<bit>)
    requires i < PASSES == |types| && out != adam7 && bpp > 0 && (bpp < 8 || bpp % 8 == 0) && Choice(types[i], PassH(i, w, h))
    requires out.Length == FilterStart(PASSES, w, h, bpp) && adam7.Length == PassStart(PASSES, w, h, bpp)
    requires s == Stream(adam7[..])
    requires forall j :: 0 <= j < i ==> PassWritten(out[..], s, j, w, h, bpp) && PassTyped(out[..], j, w, h, bpp, types[j])
    modifies out
    ensures forall j :: 0 <= j <= i ==> PassWritten(out[..], s, j, w, h, bpp) && PassTyped(out[..], j, w, h, bpp, types[j])
  {
    hide Stream, Times, FilterStart, PassStart, PaddedStart, PassW, PassH, PassWritten, TypesOk, LineTypes, PixelsOf, Replaced, LineBytes;
    ghost var before := out[..];
    PassRoom(i, w, h, bpp);
    LineFits(PassW(i, w, h), bpp);
    var n := if bpp < 8 then PassStart(i, w, h, bpp) else PaddedStart(i, w, h, bpp);
    FilterPadded(out, FilterStart(i, w, h, bpp), adam7, n, PassW(i, w, h), PassH(i, w, h), bpp, types[i], bpp < 8);
    ghost var data :|
      && |data| == Times(PassH(i, w, h), PassBytes(i, w, h, bpp) + 1) && TypesOk(data, PassBytes(i, w, h, bpp), PassH(i, w, h))
      && LineTypes(data, PassBytes(i, w, h, bpp), PassH(i, w, h)) == types[i]
      && PixelsOf(data, PassW(i, w, h), PassH(i, w, h), bpp) == s[8 * n..8 * n + Times(PassH(i, w, h), LineBits(i, w, h, bpp))]
      && Replaced(out[..], before, FilterStart(i, w, h, bpp), data);
    PassJustWritten(out[..], before, s, i, w, h, bpp, data);
    forall j | 0 <= j < i
      ensures PassWritten(out[..], s, j, w, h, bpp) && PassTyped(out[..], j, w, h, bpp, types[j])
    {
      PassWrittenKept(before, out[..], s, j, i, w, h, bpp, data);
    }
  }

  /** Filtered, padded and possibly interlaced scanlines of the image; the filter of each
      line is given. */
  method PreProcessScanlines(input: array<byte>, w: nat, h: nat, bpp: nat, interlace: bool, types: seq<seq<byte>>) returns (out: array<byte>)
    requires bpp > 0 && (bpp < 8 || bpp % 8 == 0) && w > 0 && 8 * input.Length >= BitsOfImage(w, h, bpp)
    requires if interlace then |types| == PASSES && forall i :: 0 <= i < PASSES ==> Choice(types[i], PassH(i, w, h))
             else |types| == 1 && Choice(types[0], h)
    ensures fresh(out)
    ensures out.Length == if interlace then FilterStart(PASSES, w, h, bpp) else Times(h, LineBytes(w, bpp) + 1)
    ensures StandsFor(out[..], Stream(input[..]), w, h, bpp, interlace) && TypesAre(out[..], w, h, bpp, interlace, types)
  {
    hide Stream, Times, FilterStart, PassH, TypesOk, LineTypes, PassTyped, PixelsOf, Replaced, LineBytes, StandsFor, PassWritten, SameImage;
    if !interlace {
      var linebytes := LineBytes(w, bpp);
      TimesMore(h, linebytes);
      out := new byte[h + Times(h, linebytes)];
      ghost var before := out[..];
      LineFits(w, bpp);
      ImageLines(w, h, bpp);
      FilterPadded(out, 0, input, 0, w, h, bpp, types[0], bpp < 8 && Times(w, bpp) != 8 * linebytes);
      ghost var data :|
        && |data| == Times(h, linebytes + 1) && TypesOk(data, linebytes, h) && LineTypes(data, linebytes, h) == types[0]
        && PixelsOf(data, w, h, bpp) == Stream(input[..])[8 * 0..8 * 0 + Times(h, Times(w, bpp))]
        && Replaced(out[..], before, 0, data);
      ReplacedAll(out[..], before, data);
      PlainStandsFor(out[..], Stream(input[..]), w, h, bpp);
    } else {
      out := PreProcessInterlaced(input, w, h, bpp, types);
    }
  }

  lemma PlainStandsFor(data: seq<byte>, image: seq<bit>, w: nat, h: nat, bpp: nat)
    requires |data| == Times(h, LineBytes(w, bpp) + 1) && TypesOk(data, LineBytes(w, bpp), h)
    requires BitsOfImage(w, h, bpp) <= |image| && PixelsOf(data, w, h, bpp) == image[0..BitsOfImage(w, h, bpp)]
    ensures StandsFor(data, image, w, h, bpp, false)
  {
    hide Times, PixelsOf, TypesOk;
    assert image[0..BitsOfImage(w, h, bpp)] == image[..BitsOfImage(w, h, bpp)];
  }

  // ----- After decompression

  /** Pixel (u, v) of the image comes from its place in its pass of the filtered data. */
  ghost predicate PixelFrom(image: seq<bit>, data: seq<byte>, u: nat, v: nat, w: nat, h: nat, bpp: nat) {
    var i := PassOf(u, v);
    && FilterStart(i + 1, w, h, bpp) <= |data|
    && Copied(image, ImageAt(u, v, w, bpp), PassPixels(data, i, w, h, bpp),
              Times(Index(YOf(u, v), PassW(i, w, h), XOf(u, v)), bpp), bpp)
  }

  /** What the scanlines decode to, or error 36 for an unknown filter type. */
  ghost predicate Decoded(error: nat, image: seq<bit>, data: seq<byte>, w: nat, h: nat, bpp: nat, interlace: bool)
    requires |data| == if interlace then FilterStart(PASSES, w, h, bpp) else Times(h, LineBytes(w, bpp) + 1)
  {
    if interlace then
      && (error == if AllTypesOk(data, PASSES, w, h, bpp) then 0 else 36)
      && (error == 0 ==> forall u, v :: 0 <= u < w && 0 <= v < h ==> PixelFrom(image, data, u, v, w, h, bpp))
    else
      && (error == if TypesOk(data, LineBytes(w, bpp), h) then 0 else 36)
      && (error == 0 ==> BitsOfImage(w, h, bpp) <= |image| && image[..BitsOfImage(w, h, bpp)] == PixelsOf(data, w, h, bpp))
  }

  /** The filter types of the first n passes are known ones. */
  ghost predicate AllTypesOk(data: seq<byte>, n: nat, w: nat, h: nat, bpp: nat) {
    n <= PASSES ==> forall i :: 0 <= i < n ==> PassTypesOk(data, i, w, h, bpp)
  }

  predicate PassTypesOk(data: seq<byte>, i: nat, w: nat, h: nat, bpp: nat) {
    FilterStart(i + 1, w, h, bpp) <= |data| && TypesOk(PassData(data, i, w, h, bpp), PassBytes(i, w, h, bpp), PassH(i, w, h))
  }

  /** The buffer while the passes are unpacked inside it: those before i are done, the
      data of the others have not been touched. */
  ghost predicate Unpacking(mem: seq<byte>, data: seq<byte>, i: nat, w: nat, h: nat, bpp: nat) {
    && i <= PASSES && |mem| == |data| == FilterStart(PASSES, w, h, bpp) && FilterStart(i, w, h, bpp) <= |data|
    && mem[FilterStart(i, w, h, bpp)..] == data[FilterStart(i, w, h, bpp)..]
    && forall j :: 0 <= j < i ==> PassUnpacked(Stream(mem), data, j, w, h, bpp)
  }

  predicate PassUnpacked(s: seq<bit>, data: seq<byte>, j: nat, w: nat, h: nat, bpp: nat) {
    FilterStart(j + 1, w, h, bpp) <= |data| && PassHolds(s, PassPixels(data, j, w, h, bpp), j, w, h, bpp)
  }

  lemma PassDataUntouched(mem: seq<byte>, data: seq<byte>, i: nat, w: nat, h: nat, bpp: nat)
    requires i < PASSES && Unpacking(mem, data, i, w, h, bpp)
    ensures FilterStart(i + 1, w, h, bpp) <= |mem| && PassData(mem, i, w, h, bpp) == PassData(data, i, w, h, bpp)
  {
    hide FilterStart, PassUnpacked, Stream;
    PassRoom(i, w, h, bpp);
    var a, b := FilterStart(i, w, h, bpp), FilterStart(i + 1, w, h, bpp);
    assert mem[a..b] == mem[a..][..b - a] == data[a..][..b - a] == data[a..b];
  }

  /** Writing bits between the start of the packed pass and the end of its padded lines
      disturbs neither earlier passes nor later data. */
  lemma PassMoved(s: seq<bit>, before: seq<bit>, at: nat, more: seq<bit>, data: seq<byte>, i: nat, w: nat, h: nat, bpp: nat)
    requires i < PASSES && Replaced(s, before, at, more) && 8 * PassStart(i, w, h, bpp) <= at
    requires forall j :: 0 <= j < i ==> PassUnpacked(before, data, j, w, h, bpp)
    ensures forall j :: 0 <= j < i ==> PassUnpacked(s, data, j, w, h, bpp)
  {
    hide FilterStart, PassStart, PassPixels, Times, PassW, PassH;
    forall j | 0 <= j < i
      ensures PassUnpacked(s, data, j, w, h, bpp)
    {
      assert PassUnpacked(before, data, j, w, h, bpp);
      StartsGrow(j + 1, i, w, h, bpp);
      PackedInside(j, w, h, bpp);
      var p, n := 8 * PassStart(j, w, h, bpp), Times(PassH(j, w, h), LineBits(j, w, h, bpp));
      assert s[..at] == before[..at];
      assert s[p..p + n] == s[..at][p..p + n] == before[p..p + n];
    }
  }

  lemma PackedInside(j: nat, w: nat, h: nat, bpp: nat)
    ensures 8 * PassStart(j, w, h, bpp) + Times(PassH(j, w, h), LineBits(j, w, h, bpp)) <= 8 * PassStart(j + 1, w, h, bpp)
  {
    hide Times, PassW, PassH;
  }

  lemma StreamBehind(mem: seq<byte>, before: seq<byte>, n: nat)
    requires |mem| == |before| && n <= |mem| && Stream(mem)[8 * n..] == Stream(before)[8 * n..]
    ensures mem[n..] == before[n..]
  {
    hide Stream;
    var m := |mem|;
    StreamSlice(mem, n, m);
    StreamSlice(before, n, m);
    assert mem[n..m] == mem[n..] && before[n..m] == before[n..];
    assert Stream(mem)[8 * n..8 * m] == Stream(mem)[8 * n..] && Stream(before)[8 * n..8 * m] == Stream(before)[8 * n..];
    StreamInjective(mem[n..], before[n..]);
  }

  /** One pass is unpacked in place. */
  method UnpackPass(mem: array<byte>, i: nat, w: nat, h: nat, bpp: nat, ghost data: seq<byte>) returns (error: nat)
    requires i < PASSES && bpp > 0 && (bpp < 8 || bpp % 8 == 0) && Unpacking(mem[..], data, i, w, h, bpp)
    modifies mem
    ensures error == if PassTypesOk(data, i, w, h, bpp) then 0 else 36
    ensures error == 0 ==> Unpacking(mem[..], data, i + 1, w, h, bpp)
  {
    hide Stream, Times, FilterStart, PassStart, PaddedStart, PassW, PassH, TypesOk, Replaced, LineBytes, PassUnpacked, Unfiltered, Unpadded;
    var pw, ph := PassW(i, w, h), PassH(i, w, h);
    var lb, lbits := PassBytes(i, w, h, bpp), LineBits(i, w, h, bpp);
    var fs, pads, ps := FilterStart(i, w, h, bpp), PaddedStart(i, w, h, bpp), PassStart(i, w, h, bpp);
    ghost var before, s0 := mem[..], Stream(mem[..]);
    PassRoom(i, w, h, bpp);
    PassDataUntouched(before, data, i, w, h, bpp);
    ghost var d := PassData(data, i, w, h, bpp);
    assert mem[fs..fs + Times(ph, lb + 1)] == d;
    error := Unfilter(mem, pads, mem, fs, pw, ph, bpp);
    if error != 0 {
      return;
    }
    ghost var rows := Unfiltered(d, lb, ByteWidth(bpp), [], ph);
    ghost var mem1, s1 := mem[..], Stream(mem[..]);
    PixelsOfSize(d, pw, ph, bpp);
    ReplacedBits(mem1, before, pads, rows);
    PassMoved(s1, s0, 8 * pads, Stream(rows), data, i, w, h, bpp);
    ReplacedParts(mem1, before, pads, rows);
    LineFits(pw, bpp);
    TimesEight(ph, lb);
    if bpp < 8 {
      RowsInStream(mem1, rows, pads, 8 * lb, ph);
      PackedIsShorter(ph, lbits);
      RemovePaddingBits(mem, ps, mem, pads, lbits, 8 * lb, ph);
      PassMoved(Stream(mem[..]), s1, 8 * ps, PixelsOf(d, pw, ph, bpp), data, i, w, h, bpp);
      ReplacedParts(Stream(mem[..]), s1, 8 * ps, PixelsOf(d, pw, ph, bpp));
      NowUnpacked(Stream(mem[..]), data, i, w, h, bpp);
      PassInPlace(mem[..], mem1, before, data, i, w, h, bpp);
    } else {
      RowsInStream(mem1, rows, pads, 8 * lb, ph);
      NowUnpacked(s1, data, i, w, h, bpp);
      PassInPlace(mem[..], mem1, before, data, i, w, h, bpp);
    }
  }

  lemma NowUnpacked(s: seq<bit>, data: seq<byte>, i: nat, w: nat, h: nat, bpp: nat)
    requires FilterStart(i + 1, w, h, bpp) <= |data|
    requires PassHolds(s, PassPixels(data, i, w, h, bpp), i, w, h, bpp)
    ensures PassUnpacked(s, data, i, w, h, bpp)
  {
  }

  lemma RowsInStream(mem: seq<byte>, rows: seq<byte>, o: nat, il: nat, h: nat)
    requires o + |rows| <= |mem| && mem[o..o + |rows|] == rows && Times(h, il) == 8 * |rows|
    ensures 8 * o + Times(h, il) <= 8 * |mem| && Stream(mem)[8 * o..8 * o + Times(h, il)] == Stream(rows)
  {
    StreamSlice(mem, o, o + |rows|);
  }

  lemma PassInPlace(mem: seq<byte>, mem1: seq<byte>, before: seq<byte>, data: seq<byte>, i: nat, w: nat, h: nat, bpp: nat)
    requires i < PASSES && Unpacking(before, data, i, w, h, bpp) && |mem| == |mem1| == |before|
    requires PaddedStart(i + 1, w, h, bpp) <= |before| && mem1[PaddedStart(i + 1, w, h, bpp)..] == before[PaddedStart(i + 1, w, h, bpp)..]
    requires Stream(mem)[8 * PaddedStart(i + 1, w, h, bpp)..] == Stream(mem1)[8 * PaddedStart(i + 1, w, h, bpp)..]
    requires forall j :: 0 <= j < i ==> PassUnpacked(Stream(mem), data, j, w, h, bpp)
    requires PassUnpacked(Stream(mem), data, i, w, h, bpp)
    ensures Unpacking(mem, data, i + 1, w, h, bpp)
  {
    hide Stream, FilterStart, PaddedStart, PassUnpacked;
    PassRoom(i, w, h, bpp);
    var n, a, b := PaddedStart(i + 1, w, h, bpp), FilterStart(i, w, h, bpp), FilterStart(i + 1, w, h, bpp);
    StreamBehind(mem, mem1, n);
    assert mem[b..] == mem[n..][b - n..] == before[n..][b - n..] == before[b..];
    assert before[b..] == before[a..][b - a..] == data[a..][b - a..] == data[b..];
  }

  method PostProcessInterlaced(out: array<byte>, input: array<byte>, w: nat, h: nat, bpp: nat) returns (error: nat)
    requires out != input && bpp > 0 && (bpp < 8 || bpp % 8 == 0)
    requires input.Length == FilterStart(PASSES, w, h, bpp) && 8 * out.Length >= BitsOfImage(w, h, bpp)
    modifies out, input
    ensures Decoded(error, Stream(out[..]), old(input[..]), w, h, bpp, true)
  {
    hide Stream, Times, FilterStart, PassStart, PassW, PassH, TypesOk, PixelsOf, LineBytes, Unpacking, PassTypesOk, SamePixel, PixelFrom;
    ghost var data := input[..];
    StartUnpacking(data, w, h, bpp);
    for i := 0 to PASSES
      invariant Unpacking(input[..], data, i, w, h, bpp)
      invariant forall j :: 0 <= j < i ==> PassTypesOk(data, j, w, h, bpp)
    {
      error := UnpackPass(input, i, w, h, bpp, data);
      if error != 0 {
        return;
      }
    }
    StartsOrdered(PASSES, w, h, bpp);
    ghost var mem := input[..];
    Adam7Deinterlace(out, input, w, h, bpp);
    assert input[..] == mem;
    forall u, v | 0 <= u < w && 0 <= v < h
      ensures PixelFrom(Stream(out[..]), data, u, v, w, h, bpp)
    {
      PixelIsFrom(Stream(out[..]), mem, data, u, v, w, h, bpp);
    }
    error := 0;
  }

  lemma StartUnpacking(data: seq<byte>, w: nat, h: nat, bpp: nat)
    requires |data| == FilterStart(PASSES, w, h, bpp)
    ensures Unpacking(data, data, 0, w, h, bpp)
  {
    assert FilterStart(0, w, h, bpp) == 0;
    StartsGrow(0, PASSES, w, h, bpp);
  }

  /** A pixel that came from the packed passes comes from the filtered data. */
  lemma PixelIsFrom(image: seq<bit>, mem: seq<byte>, data: seq<byte>, u: nat, v: nat, w: nat, h: nat, bpp: nat)
    requires Unpacking(mem, data, PASSES, w, h, bpp) && u < w && v < h && SamePixel(image, Stream(mem), u, v, w, h, bpp)
    ensures PixelFrom(image, data, u, v, w, h, bpp)
  {
    hide Stream, Times, FilterStart, PassStart, PassW, PassH, PixelsOf, ImageAt, PassOf, XOf, YOf, ColumnOf, RowOf;
    var i, x, y := PassOf(u, v), XOf(u, v), YOf(u, v);
    PixelInPass(u, v, w, h);
    assert PassUnpacked(Stream(mem), data, i, w, h, bpp);
    PassInside(i, x, y, w, h, bpp);
    var p, n := 8 * PassStart(i, w, h, bpp), Times(PassH(i, w, h), LineBits(i, w, h, bpp));
    var q := Times(Index(y, PassW(i, w, h), x), bpp);
    SliceOfSlice(Stream(mem), p, p + n, q, q + bpp);
  }

  /** Scanlines back to an image; the scanline buffer is overwritten on the way. */
  method PostProcessScanlines(out: array<byte>, input: array<byte>, w: nat, h: nat, bpp: nat, interlace: bool) returns (error: nat)
    requires out != input && w > 0 && (bpp < 8 || bpp % 8 == 0)
    requires input.Length == if interlace then FilterStart(PASSES, w, h, bpp) else Times(h, LineBytes(w, bpp) + 1)
    requires 8 * out.Length >= BitsOfImage(w, h, bpp)
    modifies out, input
    ensures bpp == 0 ==> error == 31
    ensures bpp > 0 ==> Decoded(error, Stream(out[..]), old(input[..]), w, h, bpp, interlace)
  {
    hide Stream, Times, FilterStart, TypesOk, LineBytes, Unfiltered, Unpadded, Replaced;
    if bpp == 0 {
      return 31;
    }
    if !interlace {
      ghost var data, before := input[..], out[..];
      var linebytes := LineBytes(w, bpp);
      assert input[0..Times(h, linebytes + 1)] == data;
      LineFits(w, bpp);
      ImageLines(w, h, bpp);
      TimesEight(h, linebytes);
      PixelsOfSize(data, w, h, bpp);
      PackedIsShorter(h, Times(w, bpp));
      if bpp < 8 && Times(w, bpp) != 8 * linebytes {
        TimesMore(h, linebytes);
        error := Unfilter(input, 0, input, 0, w, h, bpp);
        if error != 0 {
          return;
        }
        ghost var rows, was := Unfiltered(data, linebytes, ByteWidth(bpp), [], h), Stream(out[..]);
        ReplacedParts(input[..], data, 0, rows);
        RowsInStream(input[..], rows, 0, 8 * linebytes, h);
        RemovePaddingBits(out, 0, input, 0, Times(w, bpp), 8 * linebytes, h);
        ReplacedParts(Stream(out[..]), was, 0, PixelsOf(data, w, h, bpp));
      } else {
        error := Unfilter(out, 0, input, 0, w, h, bpp);
        if error != 0 {
          return;
        }
        ghost var rows := Unfiltered(data, linebytes, ByteWidth(bpp), [], h);
        ReplacedBits(out[..], before, 0, rows);
        ReplacedParts(Stream(out[..]), Stream(before), 0, PixelsOf(data, w, h, bpp));
      }
      assert Stream(out[..])[0..0 + BitsOfImage(w, h, bpp)] == Stream(out[..])[..BitsOfImage(w, h, bpp)];
    } else {
      error := PostProcessInterlaced(out, input, w, h, bpp);
    }
  }

  // ----- Round trip

  lemma PassesGood(data: seq<byte>, s: seq<bit>, w: nat, h: nat, bpp: nat)
    requires forall i :: 0 <= i < PASSES ==> PassWritten(data, s, i, w, h, bpp)
    ensures AllTypesOk(data, PASSES, w, h, bpp)
  {
    hide FilterStart, PassHolds, PassPixels, TypesOk, PassW, PassH;
    forall i | 0 <= i < PASSES
      ensures PassTypesOk(data, i, w, h, bpp)
    {
      assert PassWritten(data, s, i, w, h, bpp);
    }
  }

  /** The pixel that went into the scanlines is the one that came out. */
  lemma PixelRestored(image: seq<bit>, data: seq<byte>, s: seq<bit>, image': seq<bit>, u: nat, v: nat, w: nat, h: nat, bpp: nat)
    requires u < w && v < h && PassWritten(data, s, PassOf(u, v), w, h, bpp)
    requires SamePixel(image, s, u, v, w, h, bpp) && PixelFrom(image', data, u, v, w, h, bpp)
    ensures Copied(image', ImageAt(u, v, w, bpp), image, ImageAt(u, v, w, bpp), bpp)
  {
    hide Times, FilterStart, PassStart, PassW, PassH, PixelsOf, ImageAt, PassOf, XOf, YOf, ColumnOf, RowOf, TypesOk;
    var i, x, y := PassOf(u, v), XOf(u, v), YOf(u, v);
    PixelInPass(u, v, w, h);
    PassInside(i, x, y, w, h, bpp);
    var p, n := 8 * PassStart(i, w, h, bpp), Times(PassH(i, w, h), LineBits(i, w, h, bpp));
    var q := Times(Index(y, PassW(i, w, h), x), bpp);
    SliceOfSlice(s, p, p + n, q, q + bpp);
  }

  /** Bit k of an image belongs to a pixel. */
  lemma PixelOfBit(k: nat, w: nat, h: nat, bpp: nat) returns (u: nat, v: nat)
    requires k < BitsOfImage(w, h, bpp)
    ensures u < w && v < h && ImageAt(u, v, w, bpp) <= k < ImageAt(u, v, w, bpp) + bpp
  {
    DivideBelow(k, Times(h, w), bpp);
    var p := k / bpp;
    DivideBelow(p, h, w);
    u, v := p % w, p / w;
    assert p == Times(v, w) + u;
  }

  lemma DivideBelow(k: nat, n: nat, d: nat)
    requires k < Times(n, d)
    ensures d > 0 && k / d < n && Times(k / d, d) <= k < Times(k / d, d) + d
  {
    if d == 0 {
      TimesZero(n);
    } else {
      MulOrder(n - 1, k / d, d);
    }
  }

  lemma ImageRestored(a: seq<bit>, b: seq<bit>, w: nat, h: nat, bpp: nat)
    requires BitsOfImage(w, h, bpp) <= |a| && BitsOfImage(w, h, bpp) <= |b|
    requires forall u, v :: 0 <= u < w && 0 <= v < h ==> Copied(a, ImageAt(u, v, w, bpp), b, ImageAt(u, v, w, bpp), bpp)
    ensures a[..BitsOfImage(w, h, bpp)] == b[..BitsOfImage(w, h, bpp)]
  {
    hide BitsOfImage, ImageAt;
    var n := BitsOfImage(w, h, bpp);
    forall k | 0 <= k < n
      ensures a[k] == b[k]
    {
      var u, v := PixelOfBit(k, w, h, bpp);
      var p := ImageAt(u, v, w, bpp);
      assert Copied(a, p, b, p, bpp);
      assert a[k] == a[p..p + bpp][k - p] == b[p..p + bpp][k - p] == b[k];
    }
  }

  /** What the decoder makes of the encoder's scanlines is the image. */
  lemma ScanlinesDecode(error: nat, data: seq<byte>, image: seq<bit>, image': seq<bit>, w: nat, h: nat, bpp: nat, interlace: bool)
    requires StandsFor(data, image, w, h, bpp, interlace) && bpp > 0
    requires BitsOfImage(w, h, bpp) <= |image| && BitsOfImage(w, h, bpp) <= |image'|
    requires |data| == if interlace then FilterStart(PASSES, w, h, bpp) else Times(h, LineBytes(w, bpp) + 1)
    requires Decoded(error, image', data, w, h, bpp, interlace)
    ensures error == 0 && image'[..BitsOfImage(w, h, bpp)] == image[..BitsOfImage(w, h, bpp)]
  {
    hide BitsOfImage, ImageAt, Times, FilterStart, PixelsOf, TypesOk, LineBytes, PassWritten, SamePixel, PixelFrom, PassOf, XOf, YOf, Copied;
    if interlace {
      var s :| (forall i :: 0 <= i < PASSES ==> PassWritten(data, s, i, w, h, bpp)) && SameImage(image, s, w, h, bpp);
      PassesGood(data, s, w, h, bpp);
      forall u, v | 0 <= u < w && 0 <= v < h
        ensures Copied(image', ImageAt(u, v, w, bpp), image, ImageAt(u, v, w, bpp), bpp)
      {
        PixelRestored(image, data, s, image', u, v, w, h, bpp);
      }
      ImageRestored(image', image, w, h, bpp);
    }
  }

  /** For every size, pixel width, interlace mode and choice of filters. */
  method ScanlinesThereAndBack(input: array<byte>, w: nat, h: nat, bpp: nat, interlace: bool, types: seq<seq<byte>>)
    returns (error: nat, result: array<byte>)
    requires bpp > 0 && (bpp < 8 || bpp % 8 == 0) && w > 0 && 8 * input.Length >= BitsOfImage(w, h, bpp)
    requires if interlace then |types| == PASSES && forall i :: 0 <= i < PASSES ==> Choice(types[i], PassH(i, w, h))
             else |types| == 1 && Choice(types[0], h)
    ensures error == 0 && result.Length == (BitsOfImage(w, h, bpp) + 7) / 8
    ensures Stream(result[..])[..BitsOfImage(w, h, bpp)] == Stream(input[..])[..BitsOfImage(w, h, bpp)]
  {
    hide BitsOfImage, Stream, Times, FilterStart, PassH, LineBytes, StandsFor, Decoded;
    var scanlines := PreProcessScanlines(input, w, h, bpp, interlace, types);
    result := new byte[(BitsOfImage(w, h, bpp) + 7) / 8];
    ghost var data := scanlines[..];
    error := PostProcessScanlines(result, scanlines, w, h, bpp, interlace);
    ScanlinesDecode(error, data, Stream(input[..]), Stream(result[..]), w, h, bpp, interlace);
  }
}
