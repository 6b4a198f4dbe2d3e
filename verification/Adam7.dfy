/** Adam7 interlacing (RFC 2083 section 2.6). */
module Adam7 {
  import opened Bits
  import opened Buffers
  import opened FilterImage

  const PASSES: nat := 7

  /** First column, first row, column step and row step of each pass. */
  function IX(i: nat): (x: nat)
    ensures x < DX(i)
  {
    if i == 1 then 4 else if i == 3 then 2 else if i == 5 then 1 else 0
  }

  function IY(i: nat): (y: nat)
    ensures y < DY(i)
  {
    if i == 2 then 4 else if i == 4 then 2 else if i == 6 then 1 else 0
  }

  function DX(i: nat): (d: nat)
    ensures d > 0
  {
    if i <= 1 then 8 else if i <= 3 then 4 else if i <= 5 then 2 else 1
  }

  function DY(i: nat): (d: nat)
    ensures d > 0
  {
    if i <= 2 then 8 else if i <= 4 then 4 else 2
  }

  // ----- Size of the passes

  function Columns(i: nat, w: nat): nat {
    (w + DX(i) - IX(i) - 1) / DX(i)
  }

  function Rows(i: nat, h: nat): nat {
    (h + DY(i) - IY(i) - 1) / DY(i)
  }

  /** A pass without rows has no columns either, and the other way round. */
  function PassW(i: nat, w: nat, h: nat): nat {
    if Rows(i, h) == 0 then 0 else Columns(i, w)
  }

  function PassH(i: nat, w: nat, h: nat): nat {
    if Columns(i, w) == 0 then 0 else Rows(i, h)
  }

  /** The pass of the pixel in column u and row v. */
  function PassOf(u: nat, v: nat): (i: nat)
    ensures i < PASSES
  {
    if v % 2 == 1 then 6
    else if u % 2 == 1 then 5
    else if v % 4 == 2 then 4
    else if u % 4 == 2 then 3
    else if v % 8 == 4 then 2
    else if u % 8 == 4 then 1
    else 0
  }

  /** Its column and row inside the pass. */
  function XOf(u: nat, v: nat): nat {
    var i := PassOf(u, v);
    if u < IX(i) then 0 else (u - IX(i)) / DX(i)
  }

  function YOf(u: nat, v: nat): nat {
    var i := PassOf(u, v);
    if v < IY(i) then 0 else (v - IY(i)) / DY(i)
  }

  /** Column and row in the image of a pixel of pass i. */
  function ColumnOf(i: nat, x: nat): nat {
    IX(i) + x * DX(i)
  }

  function RowOf(i: nat, y: nat): nat {
    IY(i) + y * DY(i)
  }

  lemma ColumnInside(i: nat, x: nat, w: nat)
    requires i < PASSES
    ensures x < Columns(i, w) <==> ColumnOf(i, x) < w
  {
  }

  lemma RowInside(i: nat, y: nat, h: nat)
    requires i < PASSES
    ensures y < Rows(i, h) <==> RowOf(i, y) < h
  {
  }

  lemma Residues(a: nat, r: nat, d: nat)
    requires (d == 1 || d == 2 || d == 4 || d == 8) && r < d
    ensures (a * d + r) / d == a
    ensures d % 2 == 0 ==> (a * d + r) % 2 == r % 2
    ensures d % 4 == 0 ==> (a * d + r) % 4 == r % 4
    ensures d == 8 ==> (a * d + r) % 8 == r
  {
    if d == 8 {
      Residues8(a, r);
    } else if d == 4 {
      Residues4(a, r);
    } else if d == 2 {
      assert (2 * a + r) / 2 == a && (2 * a + r) % 2 == r;
    }
  }

  lemma Residues8(a: nat, r: nat)
    requires r < 8
    ensures (8 * a + r) / 8 == a && (8 * a + r) % 8 == r && (8 * a + r) % 4 == r % 4 && (8 * a + r) % 2 == r % 2
  {
    MultipleOfFour(2 * a, r);
    MultipleOfTwo(4 * a, r);
  }

  lemma MultipleOfFour(b: nat, r: nat)
    ensures (4 * b + r) % 4 == r % 4
  {
  }

  lemma MultipleOfTwo(b: nat, r: nat)
    ensures (2 * b + r) % 2 == r % 2
  {
  }

  lemma Residues4(a: nat, r: nat)
    requires r < 4
    ensures (4 * a + r) / 4 == a && (4 * a + r) % 4 == r && (4 * a + r) % 2 == r % 2
  {
  }

  /** The passes cover the image: each pixel lies in its pass. */
  lemma PixelInPass(u: nat, v: nat, w: nat, h: nat)
    requires u < w && v < h
    ensures
      var i, x, y := PassOf(u, v), XOf(u, v), YOf(u, v);
      x < PassW(i, w, h) && y < PassH(i, w, h) && ColumnOf(i, x) == u && RowOf(i, y) == v
  {
    var i, x, y := PassOf(u, v), XOf(u, v), YOf(u, v);
    Steps(u, v);
    ColumnInside(i, x, w);
    RowInside(i, y, h);
  }

  lemma Steps(u: nat, v: nat)
    ensures
      var i := PassOf(u, v);
      ColumnOf(i, XOf(u, v)) == u && RowOf(i, YOf(u, v)) == v
  {
    var i, x, y := PassOf(u, v), XOf(u, v), YOf(u, v);
    assert u % DX(i) == IX(i) && v % DY(i) == IY(i) by { PassResidues(u, v); }
    Back(u, IX(i), DX(i));
    Back(v, IY(i), DY(i));
  }

  lemma PassResidues(u: nat, v: nat)
    ensures u % DX(PassOf(u, v)) == IX(PassOf(u, v)) && v % DY(PassOf(u, v)) == IY(PassOf(u, v))
  {
    Halves(u);
    Halves(v);
  }

  lemma Halves(u: nat)
    ensures u % 8 == u % 4 || u % 8 == u % 4 + 4
    ensures u % 4 == u % 2 || u % 4 == u % 2 + 2
    ensures u % 1 == 0
  {
    var q, r := u / 8, u % 8;
    assert u == q * 8 + r;
    Residues(q, r, 8);
  }

  lemma Back(u: nat, r: nat, d: nat)
    requires d > 0 && u % d == r
    ensures u >= r && r + (u - r) / d * d == u
  {
    var q := u / d;
    assert u == q * d + r;
    ModUnique(u - r, q, 0, d);
  }

  /** And they do not overlap: a pixel of a pass lies in the image and in no other pass. */
  lemma PassPixel(i: nat, x: nat, y: nat, w: nat, h: nat)
    requires i < PASSES && x < PassW(i, w, h) && y < PassH(i, w, h)
    ensures
      var u, v := ColumnOf(i, x), RowOf(i, y);
      u < w && v < h && PassOf(u, v) == i && XOf(u, v) == x && YOf(u, v) == y
  {
    ColumnInside(i, x, w);
    RowInside(i, y, h);
    OnlyPass(i, x, y);
  }

  lemma OnlyPass(i: nat, x: nat, y: nat)
    requires i < PASSES
    ensures
      var u, v := ColumnOf(i, x), RowOf(i, y);
      PassOf(u, v) == i && XOf(u, v) == x && YOf(u, v) == y
  {
    Residues(x, IX(i), DX(i));
    Residues(y, IY(i), DY(i));
    Forward(x, IX(i), DX(i));
    Forward(y, IY(i), DY(i));
  }

  lemma Forward(x: nat, r: nat, d: nat)
    requires d > 0
    ensures (r + x * d - r) / d == x
  {
    ModUnique(x * d, x, 0, d);
  }

  // ----- Where the passes lie

  /** Bits of one line of a pass. */
  function LineBits(i: nat, w: nat, h: nat, bpp: nat): nat {
    Times(PassW(i, w, h), bpp)
  }

  function PassBytes(i: nat, w: nat, h: nat, bpp: nat): nat {
    LineBytes(PassW(i, w, h), bpp)
  }

  /** Start of pass i with filter types and padded lines. */
  function FilterStart(i: nat, w: nat, h: nat, bpp: nat): nat {
    if i == 0 then 0
    else FilterStart(i - 1, w, h, bpp) + Times(PassH(i - 1, w, h), PassBytes(i - 1, w, h, bpp) + 1)
  }

  /** Start of pass i without filter types. */
  function PaddedStart(i: nat, w: nat, h: nat, bpp: nat): nat {
    if i == 0 then 0
    else PaddedStart(i - 1, w, h, bpp) + Times(PassH(i - 1, w, h), PassBytes(i - 1, w, h, bpp))
  }

  /** Start of pass i when only the end of each pass is padded. */
  function PassStart(i: nat, w: nat, h: nat, bpp: nat): nat {
    if i == 0 then 0
    else PassStart(i - 1, w, h, bpp) + (Times(PassH(i - 1, w, h), LineBits(i - 1, w, h, bpp)) + 7) / 8
  }

  /** Lines of `bits` bits need no more bytes together than each on its own; just as
      many if they end on byte boundaries. */
  lemma {:induction false} PackedIsShorter(h: nat, bits: nat)
    ensures Times(h, bits) <= 8 * Times(h, (bits + 7) / 8)
    ensures bits % 8 == 0 ==> Times(h, bits) == 8 * Times(h, (bits + 7) / 8)
    decreases h
  {
    if h > 0 {
      PackedIsShorter(h - 1, bits);
      TimesNext(h - 1, bits);
      TimesNext(h - 1, (bits + 7) / 8);
    } else {
      TimesZero(bits);
    }
  }

  /** Lines of whole bytes: one to eight bits per pixel may need padding, more do not. */
  lemma WholeBytes(w: nat, bpp: nat)
    requires bpp % 8 == 0
    ensures Times(w, bpp) % 8 == 0
  {
    var k := bpp / 8;
    assert w * (8 * k) == 8 * (w * k);
  }

  lemma {:induction false} StartsOrdered(i: nat, w: nat, h: nat, bpp: nat)
    ensures PassStart(i, w, h, bpp) <= PaddedStart(i, w, h, bpp) <= FilterStart(i, w, h, bpp)
    ensures bpp % 8 == 0 ==> PassStart(i, w, h, bpp) == PaddedStart(i, w, h, bpp)
  {
    hide Times, PassW, PassH;
    if i > 0 {
      StartsOrdered(i - 1, w, h, bpp);
      var ph, bits, bytes := PassH(i - 1, w, h), LineBits(i - 1, w, h, bpp), PassBytes(i - 1, w, h, bpp);
      PackedIsShorter(ph, bits);
      TimesMore(ph, bytes);
      if bpp % 8 == 0 {
        WholeBytes(PassW(i - 1, w, h), bpp);
      }
    }
  }

  lemma {:induction false} StartsGrow(i: nat, j: nat, w: nat, h: nat, bpp: nat)
    requires i <= j
    ensures FilterStart(i, w, h, bpp) <= FilterStart(j, w, h, bpp)
    ensures PaddedStart(i, w, h, bpp) <= PaddedStart(j, w, h, bpp)
    ensures PassStart(i, w, h, bpp) <= PassStart(j, w, h, bpp)
    decreases j
  {
    hide Times, PassW, PassH;
    if i < j {
      StartsGrow(i, j - 1, w, h, bpp);
    }
  }

  // ----- The size the decoder predicts

  function PassSize(w: nat, h: nat, bpp: nat): nat {
    RawSizeIdat(w, h, bpp)
  }

  /** The sum of the sizes of the passes that have columns. */
  function ExpectedSize(w: nat, h: nat, bpp: nat): nat {
    PassSize((w + 7) / 8, (h + 7) / 8, bpp)
    + (if w > 4 then PassSize((w + 3) / 8, (h + 7) / 8, bpp) else 0)
    + PassSize((w + 3) / 4, (h + 3) / 8, bpp)
    + (if w > 2 then PassSize((w + 1) / 4, (h + 3) / 4, bpp) else 0)
    + PassSize((w + 1) / 2, (h + 1) / 4, bpp)
    + (if w > 1 then PassSize(w / 2, (h + 1) / 2, bpp) else 0)
    + PassSize(w, h / 2, bpp)
  }

  lemma SizeOfPass(i: nat, w: nat, h: nat, bpp: nat)
    requires i < PASSES && w > 0
    ensures FilterStart(i + 1, w, h, bpp) - FilterStart(i, w, h, bpp)
      == if Columns(i, w) == 0 then 0 else PassSize(Columns(i, w), Rows(i, h), bpp)
  {
    hide Times, Columns, Rows;
    RawSizeIsLines(Columns(i, w), Rows(i, h), bpp);
    TimesZero(PassBytes(i, w, h, bpp) + 1);
    TimesZero(LineBytes(Columns(i, w), bpp) + 1);
  }

  /** The prediction is the size of the interlaced data. */
  lemma ExpectedIsActual(w: nat, h: nat, bpp: nat)
    requires w > 0
    ensures ExpectedSize(w, h, bpp) == FilterStart(PASSES, w, h, bpp)
  {
    hide FilterStart, RawSizeIdat, Columns, Rows;
    Dimensions(w, h);
    assert FilterStart(0, w, h, bpp) == 0 by { NoPass(w, h, bpp); }
    SizeOfPass(0, w, h, bpp);
    SizeOfPass(1, w, h, bpp);
    SizeOfPass(2, w, h, bpp);
    SizeOfPass(3, w, h, bpp);
    SizeOfPass(4, w, h, bpp);
    SizeOfPass(5, w, h, bpp);
    SizeOfPass(6, w, h, bpp);
  }

  lemma Dimensions(w: nat, h: nat)
    requires w > 0
    ensures Columns(0, w) == (w + 7) / 8 > 0 && Columns(1, w) == (w + 3) / 8 && (Columns(1, w) == 0 <==> w <= 4)
    ensures Columns(2, w) == (w + 3) / 4 > 0 && Columns(3, w) == (w + 1) / 4 && (Columns(3, w) == 0 <==> w <= 2)
    ensures Columns(4, w) == (w + 1) / 2 > 0 && Columns(5, w) == w / 2 && (Columns(5, w) == 0 <==> w <= 1)
    ensures Columns(6, w) == w
    ensures Rows(0, h) == Rows(1, h) == (h + 7) / 8 && Rows(2, h) == (h + 3) / 8 && Rows(3, h) == (h + 3) / 4
    ensures Rows(4, h) == (h + 1) / 4 && Rows(5, h) == (h + 1) / 2 && Rows(6, h) == h / 2
  {
  }

  lemma NoPass(w: nat, h: nat, bpp: nat)
    ensures FilterStart(0, w, h, bpp) == 0
  {
  }

  // ----- Positions of pixels, in bits

  /** Position of column x of line y with n pixels per line. */
  function Index(y: nat, n: nat, x: nat): nat {
    Times(y, n) + x
  }

  lemma IndexOrdered(y: nat, x: nat, y': nat, x': nat, n: nat)
    requires x < n && (y < y' || (y == y' && x < x'))
    ensures Index(y, n, x) < Index(y', n, x')
  {
    hide Times;
    if y < y' {
      TimesMonotone(y + 1, y', n);
      TimesNext(y, n);
    }
  }

  lemma IndexBits(a: nat, b: nat, bpp: nat)
    requires a < b
    ensures Times(a, bpp) + bpp <= Times(b, bpp)
  {
    TimesMonotone(a + 1, b, bpp);
    TimesNext(a, bpp);
  }

  function ImageAt(u: nat, v: nat, w: nat, bpp: nat): nat {
    Times(Index(v, w, u), bpp)
  }

  function PassAt(i: nat, x: nat, y: nat, w: nat, h: nat, bpp: nat): nat {
    8 * PassStart(i, w, h, bpp) + Times(Index(y, PassW(i, w, h), x), bpp)
  }

  lemma ImageInside(u: nat, v: nat, w: nat, h: nat, bpp: nat)
    requires u < w && v < h
    ensures ImageAt(u, v, w, bpp) + bpp <= Times(Times(h, w), bpp)
  {
    hide Times;
    TimesNext(v, w);
    TimesMonotone(v + 1, h, w);
    IndexBits(Index(v, w, u), Times(h, w), bpp);
  }

  lemma ImageApart(u: nat, v: nat, u': nat, v': nat, w: nat, bpp: nat)
    requires u < w && u' < w && (u != u' || v != v')
    ensures ImageAt(u, v, w, bpp) + bpp <= ImageAt(u', v', w, bpp) || ImageAt(u', v', w, bpp) + bpp <= ImageAt(u, v, w, bpp)
  {
    hide Index, Times;
    if v < v' || (v == v' && u < u') {
      IndexOrdered(v, u, v', u', w);
      IndexBits(Index(v, w, u), Index(v', w, u'), bpp);
    } else {
      IndexOrdered(v', u', v, u, w);
      IndexBits(Index(v', w, u'), Index(v, w, u), bpp);
    }
  }

  /** A pixel lies inside its pass. */
  lemma PassInside(i: nat, x: nat, y: nat, w: nat, h: nat, bpp: nat)
    requires i < PASSES && x < PassW(i, w, h) && y < PassH(i, w, h)
    ensures PassAt(i, x, y, w, h, bpp) + bpp <= 8 * PassStart(i, w, h, bpp) + Times(PassH(i, w, h), LineBits(i, w, h, bpp))
    ensures PassAt(i, x, y, w, h, bpp) + bpp <= 8 * PassStart(i + 1, w, h, bpp)
  {
    hide Times, PassW, PassH;
    var pw, ph := PassW(i, w, h), PassH(i, w, h);
    TimesNext(y, pw);
    TimesMonotone(y + 1, ph, pw);
    IndexBits(Index(y, pw, x), Times(ph, pw), bpp);
    TimesAssociate(ph, pw, bpp);
  }

  lemma PassApart(i: nat, x: nat, y: nat, i': nat, x': nat, y': nat, w: nat, h: nat, bpp: nat)
    requires i < PASSES && x < PassW(i, w, h) && y < PassH(i, w, h)
    requires i' < PASSES && x' < PassW(i', w, h) && y' < PassH(i', w, h)
    requires i != i' || x != x' || y != y'
    ensures
      var a, b := PassAt(i, x, y, w, h, bpp), PassAt(i', x', y', w, h, bpp);
      a + bpp <= b || b + bpp <= a
  {
    hide Index, Times, PassW, PassH, PassStart;
    PassInside(i, x, y, w, h, bpp);
    PassInside(i', x', y', w, h, bpp);
    var pw := PassW(i, w, h);
    if i < i' {
      StartsGrow(i + 1, i', w, h, bpp);
    } else if i' < i {
      StartsGrow(i' + 1, i, w, h, bpp);
    } else if y < y' || (y == y' && x < x') {
      IndexOrdered(y, x, y', x', pw);
      IndexBits(Index(y, pw, x), Index(y', pw, x'), bpp);
    } else {
      IndexOrdered(y', x', y, x, pw);
      IndexBits(Index(y', pw, x'), Index(y, pw, x), bpp);
    }
  }

  // ----- Reordering

  /** n bits of the input at c have been copied to a. */
  predicate Copied(out: seq<bit>, a: nat, input: seq<bit>, c: nat, n: nat) {
    a + n <= |out| && c + n <= |input| && out[a..a + n] == input[c..c + n]
  }

  lemma CopiedKept(out: seq<bit>, a: nat, input: seq<bit>, c: nat, n: nat, out': seq<bit>, at: nat, more: seq<bit>)
    requires Copied(out, a, input, c, n) && Replaced(out', out, at, more) && (a + n <= at || at + |more| <= a)
    ensures Copied(out', a, input, c, n)
  {
    if a + n <= at {
      assert out'[a..a + n] == out[a..a + n];
    } else {
      ReplacedBehind(out', out, at, more, a, a + n);
    }
  }

  datatype Geometry = Geometry(w: nat, h: nat, bpp: nat, interlace: bool)

  predicate InPass(g: Geometry, i: nat, x: nat, y: nat) {
    i < PASSES && x < PassW(i, g.w, g.h) && y < PassH(i, g.w, g.h)
  }

  function InImage(g: Geometry, i: nat, x: nat, y: nat): nat {
    ImageAt(ColumnOf(i, x), RowOf(i, y), g.w, g.bpp)
  }

  /** Interlacing goes from the image to the passes, deinterlacing the other way. */
  function From(g: Geometry, i: nat, x: nat, y: nat): nat {
    if g.interlace then InImage(g, i, x, y) else PassAt(i, x, y, g.w, g.h, g.bpp)
  }

  function To(g: Geometry, i: nat, x: nat, y: nat): nat {
    if g.interlace then PassAt(i, x, y, g.w, g.h, g.bpp) else InImage(g, i, x, y)
  }

  lemma ToApart(g: Geometry, i: nat, x: nat, y: nat, i': nat, x': nat, y': nat)
    requires InPass(g, i, x, y) && InPass(g, i', x', y') && (i != i' || x != x' || y != y')
    ensures To(g, i, x, y) + g.bpp <= To(g, i', x', y') || To(g, i', x', y') + g.bpp <= To(g, i, x, y)
  {
    hide PassW, PassH, ImageAt, PassAt, PassOf, XOf, YOf, ColumnOf, RowOf;
    if g.interlace {
      PassApart(i, x, y, i', x', y', g.w, g.h, g.bpp);
    } else {
      PassPixel(i, x, y, g.w, g.h);
      PassPixel(i', x', y', g.w, g.h);
      ImageApart(ColumnOf(i, x), RowOf(i, y), ColumnOf(i', x'), RowOf(i', y'), g.w, g.bpp);
    }
  }

  predicate PixelDone(out: seq<bit>, input: seq<bit>, g: Geometry, i: nat, x: nat, y: nat) {
    Copied(out, To(g, i, x, y), input, From(g, i, x, y), g.bpp)
  }

  predicate Earlier(j: nat, y': nat, x': nat, i: nat, y: nat, x: nat) {
    j < i || (j == i && (y' < y || (y' == y && x' < x)))
  }

  /** All pixels before (i, y, x), in order of passes, lines and columns, are in place. */
  ghost predicate DoneUpTo(out: seq<bit>, input: seq<bit>, g: Geometry, i: nat, y: nat, x: nat) {
    forall j, x', y' :: InPass(g, j, x', y') && Earlier(j, y', x', i, y, x) ==> PixelDone(out, input, g, j, x', y')
  }

  lemma DoneStep(out: seq<bit>, input: seq<bit>, g: Geometry, i: nat, y: nat, x: nat, out': seq<bit>)
    requires DoneUpTo(out, input, g, i, y, x) && InPass(g, i, x, y)
    requires From(g, i, x, y) + g.bpp <= |input|
    requires Replaced(out', out, To(g, i, x, y), input[From(g, i, x, y)..From(g, i, x, y) + g.bpp])
    ensures DoneUpTo(out', input, g, i, y, x + 1)
  {
    hide To, From, Copied, Replaced, PassW, PassH;
    var a, c := To(g, i, x, y), From(g, i, x, y);
    forall j, x', y' | InPass(g, j, x', y') && Earlier(j, y', x', i, y, x + 1)
      ensures PixelDone(out', input, g, j, x', y')
    {
      if j == i && x' == x && y' == y {
        JustCopied(out, out', a, input, c, g.bpp);
      } else {
        assert PixelDone(out, input, g, j, x', y');
        ToApart(g, j, x', y', i, x, y);
        CopiedKept(out, To(g, j, x', y'), input, From(g, j, x', y'), g.bpp, out', a, input[c..c + g.bpp]);
      }
    }
  }

  lemma JustCopied(out: seq<bit>, out': seq<bit>, a: nat, input: seq<bit>, c: nat, n: nat)
    requires c + n <= |input| && Replaced(out', out, a, input[c..c + n])
    ensures Copied(out', a, input, c, n)
  {
    ReplacedParts(out', out, a, input[c..c + n]);
  }

  lemma NextLine(out: seq<bit>, input: seq<bit>, g: Geometry, i: nat, y: nat, x: nat)
    requires DoneUpTo(out, input, g, i, y, x) && x == PassW(i, g.w, g.h)
    ensures DoneUpTo(out, input, g, i, y + 1, 0)
  {
    hide PixelDone, PassW, PassH;
    forall j, x', y' | InPass(g, j, x', y') && Earlier(j, y', x', i, y + 1, 0)
      ensures PixelDone(out, input, g, j, x', y')
    {
      assert Earlier(j, y', x', i, y, x);
    }
  }

  lemma NextPass(out: seq<bit>, input: seq<bit>, g: Geometry, i: nat, y: nat)
    requires DoneUpTo(out, input, g, i, y, 0) && y == PassH(i, g.w, g.h)
    ensures DoneUpTo(out, input, g, i + 1, 0, 0)
  {
    hide PixelDone, PassW, PassH;
    forall j, x', y' | InPass(g, j, x', y') && Earlier(j, y', x', i + 1, 0, 0)
      ensures PixelDone(out, input, g, j, x', y')
    {
      assert Earlier(j, y', x', i, y, 0);
    }
  }
}
