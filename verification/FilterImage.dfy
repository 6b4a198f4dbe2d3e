/** Filtering and unfiltering all lines of an image. */
module FilterImage {
  import opened Bits
  import opened Filters
  import opened Buffers

  // ----- Sizes

  /** Bytes of one line without its filter type. */
  function LineBytes(w: nat, bpp: nat): nat {
    (Times(w, bpp) + 7) / 8
  }

  /** Size of h lines with their filter types, computed without the product of width
      and bits per pixel. */
  function RawSizeIdat(w: nat, h: nat, bpp: nat): nat {
    h * (w / 8 * bpp + 1 + (w % 8 * bpp + 7) / 8)
  }

  lemma RawSizeIsLines(w: nat, h: nat, bpp: nat)
    ensures RawSizeIdat(w, h, bpp) == Times(h, LineBytes(w, bpp) + 1)
  {
    var q, r := w / 8, w % 8;
    assert w * bpp == 8 * (q * bpp) + r * bpp by {
      assert w == 8 * q + r;
    }
  }

  lemma TimesAtLeast(w: nat, k: nat)
    requires w > 0
    ensures Times(w, k) >= k
  {
    assert w * k == (w - 1) * k + k;
  }

  function ByteWidth(bpp: nat): nat {
    (bpp + 7) / 8
  }

  lemma LineNotShort(w: nat, bpp: nat)
    requires w > 0 && bpp > 0
    ensures 0 < ByteWidth(bpp) <= LineBytes(w, bpp)
  {
    TimesAtLeast(w, bpp);
  }

  // ----- Unfilter

  ghost predicate UnfilterState(data: seq<byte>, lb: nat, bw: nat, h: nat, y: nat, done: seq<byte>, prev: seq<byte>, rest: seq<byte>) {
    && y <= h && |rest| == Times(h - y, lb + 1) && |done| == Times(y, lb)
    && Unfiltered(data, lb, bw, [], h) == done + Unfiltered(rest, lb, bw, prev, h - y)
    && (TypesOk(data, lb, h) <==> TypesOk(rest, lb, h - y))
    && (if y == 0 then prev == [] else lb <= |done| && done[|done| - lb..] == prev)
  }

  lemma UnfilterStart(data: seq<byte>, lb: nat, bw: nat, h: nat)
    requires |data| == Times(h, lb + 1)
    ensures UnfilterState(data, lb, bw, h, 0, [], [], data)
  {
    TimesZero(lb);
  }

  lemma UnfilterStep(data: seq<byte>, lb: nat, bw: nat, h: nat, y: nat, done: seq<byte>, prev: seq<byte>, rest: seq<byte>, line: seq<byte>)
    requires UnfilterState(data, lb, bw, h, y, done, prev, rest) && y < h && |rest| >= lb + 1 && rest[0] <= 4
    requires line == Recon(rest[1..lb + 1], prev, bw, rest[0], lb)
    ensures UnfilterState(data, lb, bw, h, y + 1, done + line, line, rest[lb + 1..])
  {
    hide Recon, Times;
    TimesNext(h - y - 1, lb + 1);
    TimesNext(y, lb);
    var more := Unfiltered(rest[lb + 1..], lb, bw, line, h - y - 1);
    assert done + (line + more) == done + line + more;
  }

  lemma UnfilterNextLine(data: seq<byte>, lb: nat, bw: nat, h: nat, y: nat, done: seq<byte>, prev: seq<byte>, rest: seq<byte>)
    requires UnfilterState(data, lb, bw, h, y, done, prev, rest) && y < h
    ensures |rest| >= lb + 1 && |done| + lb <= Times(h, lb)
    ensures rest[0] > 4 ==> !TypesOk(data, lb, h)
  {
    hide Times, Unfiltered;
    TimesNext(h - y - 1, lb + 1);
    TimesNext(y, lb);
    TimesMonotone(y + 1, h, lb);
  }

  lemma UnfilterEnd(data: seq<byte>, lb: nat, bw: nat, h: nat, done: seq<byte>, prev: seq<byte>, rest: seq<byte>)
    requires UnfilterState(data, lb, bw, h, h, done, prev, rest)
    ensures done == Unfiltered(data, lb, bw, [], h) && TypesOk(data, lb, h)
  {
  }

  /** An image to unfilter: its data lie at n of one buffer and go to o of another, or
      of the same one, which then does not start behind the data. */
  datatype Image = Image(before: seq<byte>, data: seq<byte>, o: nat, n: nat, lb: nat, bw: nat, h: nat, same: bool)

  predicate ImageOk(m: Image) {
    && (m.h > 0 ==> 0 < m.bw <= m.lb) && |m.data| == Times(m.h, m.lb + 1) && m.o + Times(m.h, m.lb) <= |m.before|
    && (m.same ==> m.o <= m.n && m.n + |m.data| <= |m.before| && m.before[m.n..m.n + |m.data|] == m.data)
  }

  /** The state before line y; the data are read from `index` on. */
  ghost predicate AtRow(out: seq<byte>, input: seq<byte>, m: Image, y: nat, done: seq<byte>, prev: seq<byte>, index: nat) {
    && ImageOk(m) && y <= m.h && index == Times(y, m.lb + 1) <= |m.data| && |done| == Times(y, m.lb) <= index
    && Replaced(out, m.before, m.o, done)
    && UnfilterState(m.data, m.lb, m.bw, m.h, y, done, prev, m.data[index..])
    && m.n + |m.data| <= |input| && (if m.same then input == out else input[m.n..m.n + |m.data|] == m.data)
  }

  /** The unread data are still in the input buffer. */
  lemma StillThere(out: seq<byte>, input: seq<byte>, m: Image, y: nat, done: seq<byte>, prev: seq<byte>, index: nat, j: nat)
    requires AtRow(out, input, m, y, done, prev, index) && index <= j <= |m.data|
    ensures input[m.n + index..m.n + j] == m.data[index..j]
  {
    hide UnfilterState, Times;
    var a, b := m.n, m.n + |m.data|;
    if m.same {
      ReplacedBehind(out, m.before, m.o, done, a + index, a + j);
      SliceOfSlice(m.before, a, b, index, j);
    } else {
      SliceOfSlice(input, a, b, index, j);
    }
  }

  function RowPlace(m: Image, y: nat, done: seq<byte>, index: nat): Place {
    Place(m.o + |done|, m.n + index + 1, if y == 0 then -1 else m.o + |done| - m.lb, m.bw, m.lb)
  }

  lemma RowBytes(out: seq<byte>, input: seq<byte>, m: Image, y: nat, done: seq<byte>, prev: seq<byte>, index: nat)
    requires AtRow(out, input, m, y, done, prev, index) && index + m.lb + 1 <= |m.data|
    ensures m.n + index + 1 + m.lb <= |input| && input[m.n + index] == m.data[index]
    ensures input[m.n + index + 1..m.n + index + 1 + m.lb] == m.data[index + 1..index + m.lb + 1]
  {
    hide UnfilterState, Times, Replaced;
    var lb := m.lb;
    var from, to := m.n + index, m.n + index + 1 + lb;
    StillThere(out, input, m, y, done, prev, index, index + 1 + lb);
    var x, d := input[from..to], m.data[index..index + 1 + lb];
    assert input[from] == x[0] == d[0] == m.data[index];
    assert input[from + 1..to] == x[1..] == d[1..] == m.data[index + 1..index + lb + 1];
  }

  lemma RowFits(out: seq<byte>, input: seq<byte>, m: Image, y: nat, done: seq<byte>, prev: seq<byte>, index: nat)
    requires AtRow(out, input, m, y, done, prev, index)
    ensures |out| == |m.before| && |done| <= index && m.o + |done| <= |out|
    ensures m.same ==> input == out && m.o <= m.n
    ensures if y == 0 then prev == []
            else m.lb <= |done| && out[m.o + |done| - m.lb..m.o + |done|] == prev
  {
    hide Times;
    UnfilterPrev(m.data, m.lb, m.bw, m.h, y, done, prev, m.data[index..]);
    if y > 0 {
      PrevPlace(out, m.before, m.o, done, m.lb);
    }
  }

  /** Everything that unfiltering the next line needs. */
  lemma RowReady(out: seq<byte>, input: seq<byte>, m: Image, y: nat, done: seq<byte>, prev: seq<byte>, index: nat)
    requires AtRow(out, input, m, y, done, prev, index) && y < m.h
    ensures index + m.lb + 1 <= |m.data| && m.n + index < |input| && input[m.n + index] == m.data[index]
    ensures Fits(input, m.same, RowPlace(m, y, done, index), Job(out, m.data[index + 1..index + m.lb + 1], prev, m.data[index]))
    ensures m.data[index] > 4 ==> !TypesOk(m.data, m.lb, m.h)
  {
    hide UnfilterState, Times, TypesOk, Replaced;
    UnfilterNextLine(m.data, m.lb, m.bw, m.h, y, done, prev, m.data[index..]);
    RowBytes(out, input, m, y, done, prev, index);
    RowFits(out, input, m, y, done, prev, index);
  }

  lemma RowStep(out: seq<byte>, input: seq<byte>, m: Image, y: nat, done: seq<byte>, prev: seq<byte>, index: nat,
                out': seq<byte>, input': seq<byte>, line: seq<byte>)
    requires AtRow(out, input, m, y, done, prev, index) && y < m.h && index + m.lb + 1 <= |m.data| && m.data[index] <= 4
    requires Partly(out', RowPlace(m, y, done, index), Job(out, m.data[index + 1..index + m.lb + 1], prev, m.data[index]), m.lb)
    requires input' == if m.same then out' else input
    requires line == Recon(m.data[index + 1..index + m.lb + 1], prev, m.bw, m.data[index], m.lb)
    ensures AtRow(out', input', m, y + 1, done + line, line, index + m.lb + 1)
  {
    hide UnfilterState, Times, Recon, Replaced;
    var rest, lb := m.data[index..], m.lb;
    RowHasRoom(out, m, done, y);
    ReplacedMore(out, m.before, m.o, done, out', line);
    assert rest[1..lb + 1] == m.data[index + 1..index + lb + 1];
    assert rest[lb + 1..] == m.data[index + lb + 1..];
    UnfilterStep(m.data, lb, m.bw, m.h, y, done, prev, rest, line);
    TimesNext(y, lb);
    TimesNext(y, lb + 1);
  }

  lemma RowHasRoom(out: seq<byte>, m: Image, done: seq<byte>, y: nat)
    requires ImageOk(m) && Replaced(out, m.before, m.o, done) && |done| == Times(y, m.lb) && y < m.h
    ensures |out| == |m.before| && m.o + |done| + m.lb <= |out|
  {
    hide Times;
    TimesNext(y, m.lb);
    TimesMonotone(y + 1, m.h, m.lb);
  }

  lemma PrevPlace(out: seq<byte>, before: seq<byte>, o: nat, done: seq<byte>, lb: nat)
    requires Replaced(out, before, o, done) && lb <= |done|
    ensures o + |done| <= |out| && out[o + |done| - lb..o + |done|] == done[|done| - lb..]
  {
  }

  lemma RowStart(out: seq<byte>, input: seq<byte>, m: Image)
    requires ImageOk(m) && out == m.before && m.n + |m.data| <= |input| && input[m.n..m.n + |m.data|] == m.data
    requires m.same ==> input == out
    ensures AtRow(out, input, m, 0, [], [], 0)
  {
    hide Unfiltered;
    TimesZero(m.lb);
    TimesZero(m.lb + 1);
    ReplacedNothing(m.before, m.o);
    UnfilterStart(m.data, m.lb, m.bw, m.h);
    assert m.data[0..] == m.data;
  }

  lemma RowEnd(out: seq<byte>, input: seq<byte>, m: Image, done: seq<byte>, prev: seq<byte>, index: nat)
    requires AtRow(out, input, m, m.h, done, prev, index)
    ensures Replaced(out, m.before, m.o, Unfiltered(m.data, m.lb, m.bw, [], m.h)) && TypesOk(m.data, m.lb, m.h)
  {
    hide Unfiltered, Times, Replaced;
    UnfilterEnd(m.data, m.lb, m.bw, m.h, done, prev, m.data[index..]);
  }

  lemma RowIndices(out: seq<byte>, input: seq<byte>, m: Image, y: nat, done: seq<byte>, prev: seq<byte>, index: nat)
    requires AtRow(out, input, m, y, done, prev, index)
    ensures Times(m.lb, y) == |done| && Times(1 + m.lb, y) == index
  {
    TimesSwap(m.lb, y);
    TimesSwap(1 + m.lb, y);
  }

  lemma GoodImage(m: Image)
    requires (m.h > 0 ==> 0 < m.bw <= m.lb) && |m.data| == Times(m.h, m.lb + 1) && m.o + Times(m.h, m.lb) <= |m.before|
    requires m.same ==> m.o <= m.n && m.n + |m.data| <= |m.before| && m.before[m.n..m.n + |m.data|] == m.data
    ensures ImageOk(m)
  {
  }

  lemma PlaceOfRow(m: Image, y: nat, done: seq<byte>, index: nat, prevline: int)
    requires prevline == if y == 0 then -1 else m.o + |done| - m.lb
    ensures RowPlace(m, y, done, index) == Place(m.o + |done|, m.n + index + 1, prevline, m.bw, m.lb)
  {
  }

  /** Unfilters the image at n of the input to o of the output.  Both may be the same
      buffer if the output does not start behind the input. */
  method Unfilter(out: array<byte>, o: nat, input: array<byte>, n: nat, w: nat, h: nat, bpp: nat) returns (error: nat)
    requires bpp > 0 && (h > 0 ==> w > 0) && (out == input ==> o <= n)
    requires o + Times(h, LineBytes(w, bpp)) <= out.Length
    requires n + Times(h, LineBytes(w, bpp) + 1) <= input.Length
    modifies out
    ensures
      var data := old(input[n..n + Times(h, LineBytes(w, bpp) + 1)]);
      && (error == if TypesOk(data, LineBytes(w, bpp), h) then 0 else 36)
      && (error == 0 ==> Replaced(out[..], old(out[..]), o, Unfiltered(data, LineBytes(w, bpp), ByteWidth(bpp), [], h)))
  {
    hide *;
    var bytewidth := ByteWidth(bpp);
    RawSizeIsLines(w, 1, bpp);
    TimesOne(LineBytes(w, bpp) + 1);
    var linebytes := RawSizeIdat(w, 1, bpp) - 1;
    if w > 0 {
      LineNotShort(w, bpp);
    }
    ghost var m := Image(out[..], input[n..n + Times(h, linebytes + 1)], o, n, linebytes, bytewidth, h, out == input);
    assert input[..][n..n + |m.data|] == m.data;
    GoodImage(m);
    RowStart(out[..], input[..], m);
    ghost var done: seq<byte>, prev: seq<byte>, index: nat := [], [], 0;
    var prevline := -1;
    for y := 0 to h
      invariant AtRow(out[..], input[..], m, y, done, prev, index)
      invariant prevline == if y == 0 then -1 else o + |done| - linebytes
    {
      var outindex, inindex := Times(linebytes, y), Times(1 + linebytes, y);
      RowIndices(out[..], input[..], m, y, done, prev, index);
      RowReady(out[..], input[..], m, y, done, prev, index);
      var filterType := input[n + inindex];
      ghost var g := Job(out[..], m.data[index + 1..index + linebytes + 1], prev, filterType);
      ghost var was := input[..];
      ghost var q := Place(o + outindex, n + inindex + 1, prevline, bytewidth, linebytes);
      PlaceOfRow(m, y, done, index, prevline);
      error := UnfilterScanline(out, input, Place(o + outindex, n + inindex + 1, prevline, bytewidth, linebytes), filterType, g);
      assert input[..] == if m.same then out[..] else was;
      if error != 0 {
        return;
      }
      ghost var line := Recon(g.line, prev, bytewidth, filterType, linebytes);
      RowStep(g.before, was, m, y, done, prev, index, out[..], input[..], line);
      done, prev, index := done + line, line, index + linebytes + 1;
      prevline := o + outindex;
    }
    RowEnd(out[..], input[..], m, done, prev, index);
    error := 0;
  }

  lemma UnfilterPrev(data: seq<byte>, lb: nat, bw: nat, h: nat, y: nat, done: seq<byte>, prev: seq<byte>, rest: seq<byte>)
    requires UnfilterState(data, lb, bw, h, y, done, prev, rest)
    ensures if y == 0 then prev == [] else lb <= |done| && done[|done| - lb..] == prev
  {
  }

  // ----- Filter

  /** What was in the place of the filtered rows. */
  function OldRows(before: seq<byte>, o: nat, lb: nat, types: seq<byte>): (was: seq<byte>)
    requires o + Times(|types|, lb + 1) <= |before|
    ensures |was| == Times(|types|, lb + 1)
  {
    before[o..o + Times(|types|, lb + 1)]
  }

  /** The state before line y is filtered: `pos` bytes of the image are behind it. */
  ghost predicate FilterAt(out: seq<byte>, before: seq<byte>, o: nat, image: seq<byte>, lb: nat, bw: nat, types: seq<byte>,
                           y: nat, done: seq<byte>, prev: seq<byte>, pos: nat) {
    && y <= |types| && pos == Times(y, lb) <= |image| == Times(|types|, lb) && |done| == Times(y, lb + 1)
    && (|types| > 0 ==> 0 < bw <= lb) && o + Times(|types|, lb + 1) <= |before|
    && Replaced(out, before, o, done)
    && RowsOver(image, lb, bw, [], types, OldRows(before, o, lb, types))
       == done + RowsOver(image[pos..], lb, bw, prev, types[y..], OldRows(before, o, lb, types)[|done|..])
    && (if y == 0 then prev == [] else lb <= pos && image[pos - lb..pos] == prev)
  }

  lemma FilterBegins(out: seq<byte>, o: nat, image: seq<byte>, lb: nat, bw: nat, types: seq<byte>)
    requires |image| == Times(|types|, lb) && (|types| > 0 ==> 0 < bw <= lb) && o + Times(|types|, lb + 1) <= |out|
    ensures FilterAt(out, out, o, image, lb, bw, types, 0, [], [], 0)
  {
    hide RowsOver;
    TimesZero(lb);
    TimesZero(lb + 1);
    ReplacedNothing(out, o);
    assert image[0..] == image && types[0..] == types && OldRows(out, o, lb, types)[0..] == OldRows(out, o, lb, types);
  }

  lemma FilterLineReady(out: seq<byte>, before: seq<byte>, o: nat, image: seq<byte>, lb: nat, bw: nat, types: seq<byte>,
                        y: nat, done: seq<byte>, prev: seq<byte>, pos: nat, input: seq<byte>, n: nat)
    requires FilterAt(out, before, o, image, lb, bw, types, y, done, prev, pos) && y < |types|
    requires n + |image| <= |input| && input[n..n + |image|] == image
    ensures pos + lb <= |image| && |out| == |before| && o + |done| + lb + 1 <= |out|
    ensures
      forall out' :: |out'| == |out| ==>
        Source(input, Place(o + |done| + 1, n + pos, if y == 0 then -1 else n + pos - lb, bw, lb),
               Job(out', image[pos..pos + lb], prev, types[y]))
  {
    hide RowsOver, Times;
    TimesNext(y, lb);
    TimesNext(y, lb + 1);
    TimesMonotone(y + 1, |types|, lb);
    TimesMonotone(y + 1, |types|, lb + 1);
    SliceOfSlice(input, n, n + |image|, pos, pos + lb);
    if y > 0 {
      SliceOfSlice(input, n, n + |image|, pos - lb, pos);
    }
  }

  /** What line y becomes, given what is in its place. */
  function LineMade(out: seq<byte>, p: nat, line: seq<byte>, prev: seq<byte>, bw: nat, t: byte): seq<byte>
    requires p + |line| + 1 <= |out|
  {
    LineOver(line, prev, bw, t, out[p + 1..p + 1 + |line|])
  }

  /** The line has been filtered, or left alone. */
  ghost predicate LineDone(out: seq<byte>, out': seq<byte>, p: nat, line: seq<byte>, prev: seq<byte>, bw: nat, t: byte) {
    && p + |line| + 1 <= |out|
    && if t <= 4 then Filtered(out', Place(p + 1, 0, 0, bw, |line|), Job(out[p := t], line, prev, t), |line|)
       else out' == out[p := t]
  }

  lemma FilterStep(out: seq<byte>, before: seq<byte>, o: nat, image: seq<byte>, lb: nat, bw: nat, types: seq<byte>,
                   y: nat, done: seq<byte>, prev: seq<byte>, pos: nat, out': seq<byte>)
    requires FilterAt(out, before, o, image, lb, bw, types, y, done, prev, pos) && y < |types| && pos + lb <= |image|
    requires |out| == |before| && o + |done| + lb + 1 <= |out|
    requires LineDone(out, out', o + |done|, image[pos..pos + lb], prev, bw, types[y])
    ensures
      var line := image[pos..pos + lb];
      var f := LineMade(out, o + |done|, line, prev, bw, types[y]);
      FilterAt(out', before, o, image, lb, bw, types, y + 1, done + ([types[y]] + f), line, pos + lb)
  {
    hide Times, FilterLine, RowsOver, Replaced, LineDone, LineOver, OldRows;
    var line, t := image[pos..pos + lb], types[y];
    var f := LineMade(out, o + |done|, line, prev, bw, t);
    var rows := OldRows(before, o, lb, types);
    TimesNext(y, lb);
    TimesNext(y, lb + 1);
    TimesMonotone(y + 1, |types|, lb);
    TimesMonotone(y + 1, |types|, lb + 1);
    LineWritten(out, o + |done|, line, prev, bw, t, f, out');
    ReplacedMore(out, before, o, done, out', [t] + f);
    StillOld(out, before, o, done, lb, types);
    RowsOverStep(image[pos..], lb, bw, prev, types[y..], rows[|done|..], done);
    assert image[pos..][..lb] == line && image[pos..][lb..] == image[pos + lb..] && types[y..][1..] == types[y + 1..];
    assert rows[|done|..][lb + 1..] == rows[|done| + lb + 1..];
  }

  /** Behind the rows that are done, the old bytes are still there. */
  lemma StillOld(out: seq<byte>, before: seq<byte>, o: nat, done: seq<byte>, lb: nat, types: seq<byte>)
    requires Replaced(out, before, o, done) && o + Times(|types|, lb + 1) <= |before| && |done| + lb + 1 <= Times(|types|, lb + 1)
    ensures |out| == |before|
    ensures out[o + |done| + 1..o + |done| + 1 + lb] == OldRows(before, o, lb, types)[|done|..][1..lb + 1]
  {
    hide Times;
    assert out[o + |done|..] == before[o + |done|..];
    assert out[o + |done| + 1..o + |done| + 1 + lb] == out[o + |done|..][1..lb + 1];
    assert before[o + |done|..][1..lb + 1] == before[o + |done| + 1..o + |done| + lb + 1];
    var rows, d := OldRows(before, o, lb, types), |done|;
    SliceOfSlice(before, o, o + |rows|, d + 1, d + lb + 1);
    assert rows[d..][1..lb + 1] == rows[d + 1..d + lb + 1];
  }

  lemma RowsOverStep(rest: seq<byte>, lb: nat, bw: nat, prev: seq<byte>, types: seq<byte>, was: seq<byte>, done: seq<byte>)
    requires types != [] && lb <= |rest| && lb + 1 <= |was|
    ensures done + RowsOver(rest, lb, bw, prev, types, was)
         == done + ([types[0]] + LineOver(rest[..lb], prev, bw, types[0], was[1..lb + 1]))
            + RowsOver(rest[lb..], lb, bw, rest[..lb], types[1..], was[lb + 1..])
  {
    hide LineOver;
  }

  lemma LineWritten(out: seq<byte>, p: nat, line: seq<byte>, prev: seq<byte>, bw: nat, t: byte, f: seq<byte>, out': seq<byte>)
    requires LineDone(out, out', p, line, prev, bw, t) && f == LineMade(out, p, line, prev, bw, t)
    ensures |f| == |line| && out' == out[..p] + ([t] + f) + out[p + 1 + |f|..]
  {
    hide FilterLine;
    if t <= 4 {
      FilterWritten(out, p, t, f, out');
    } else {
      assert out[p := t] == out[..p] + ([t] + f) + out[p + 1 + |f|..];
    }
  }

  lemma FilterWritten(out: seq<byte>, p: nat, t: byte, f: seq<byte>, out': seq<byte>)
    requires p + 1 + |f| <= |out|
    requires out' == out[p := t][..p + 1] + f[..|f|] + out[p := t][p + 1 + |f|..]
    ensures out' == out[..p] + ([t] + f) + out[p + 1 + |f|..]
  {
    assert out[p := t][..p + 1] == out[..p] + [t];
    assert out[p := t][p + 1 + |f|..] == out[p + 1 + |f|..];
    assert f[..|f|] == f;
  }

  lemma FilterEnd(out: seq<byte>, before: seq<byte>, o: nat, image: seq<byte>, lb: nat, bw: nat, types: seq<byte>,
                  done: seq<byte>, prev: seq<byte>, pos: nat)
    requires FilterAt(out, before, o, image, lb, bw, types, |types|, done, prev, pos)
    ensures o + Times(|types|, lb + 1) <= |before|
    ensures Replaced(out, before, o, RowsOver(image, lb, bw, [], types, OldRows(before, o, lb, types)))
  {
    assert types[|types|..] == [];
  }

  /** Filters the image at n of the input to o of the output, line y with types[y]; a line
      with a type above 4 gets its type and is not written. */
  method Filter(out: array<byte>, o: nat, input: array<byte>, n: nat, w: nat, h: nat, bpp: nat, types: seq<byte>)
    returns (error: nat)
    requires out != input && |types| == h && (h > 0 ==> w > 0)
    requires n + Times(h, LineBytes(w, bpp)) <= input.Length
    requires o + Times(h, LineBytes(w, bpp) + 1) <= out.Length
    modifies out
    ensures error == if bpp == 0 then 31 else 0
    ensures error == 0 ==>
      Replaced(out[..], old(out[..]), o,
               RowsOver(input[n..n + Times(h, LineBytes(w, bpp))], LineBytes(w, bpp), ByteWidth(bpp), [], types,
                        OldRows(old(out[..]), o, LineBytes(w, bpp), types)))
    ensures error == 0 && (forall y :: 0 <= y < h ==> types[y] <= 4) ==>
      Replaced(out[..], old(out[..]), o,
               FilterRows(input[n..n + Times(h, LineBytes(w, bpp))], LineBytes(w, bpp), ByteWidth(bpp), [], types))
  {
    hide Times, Replaced, FilterAt, FilterRows, RowsOver, LineOver, LineMade, LineDone, FilterLine, LineBytes, Source, Filtered, OldRows;
    var bytewidth := ByteWidth(bpp);
    RawSizeIsLines(w, 1, bpp);
    TimesOne(LineBytes(w, bpp) + 1);
    var linebytes := RawSizeIdat(w, 1, bpp) - 1;
    if bpp == 0 {
      return 31;
    }
    if w > 0 {
      LineNotShort(w, bpp);
    }
    ghost var before, image := out[..], input[n..n + Times(h, linebytes)];
    assert input[..][n..n + |image|] == image;
    FilterBegins(before, o, image, linebytes, bytewidth, types);
    ghost var done: seq<byte>, prev: seq<byte>, pos: nat := [], [], 0;
    var prevline := -1;
    for y := 0 to h
      invariant FilterAt(out[..], before, o, image, linebytes, bytewidth, types, y, done, prev, pos)
      invariant prevline == if y == 0 then -1 else n + pos - linebytes
    {
      var outindex, inindex := Times(1 + linebytes, y), Times(linebytes, y);
      FilterIndices(out[..], before, o, image, linebytes, bytewidth, types, y, done, prev, pos);
      FilterLineReady(out[..], before, o, image, linebytes, bytewidth, types, y, done, prev, pos, input[..], n);
      ghost var was := out[..];
      out[o + outindex] := types[y];
      assert out[..] == was[o + outindex := types[y]];
      ghost var g := Job(out[..], image[pos..pos + linebytes], prev, types[y]);
      FilterScanline(out, input, Place(o + outindex + 1, n + inindex, prevline, bytewidth, linebytes), types[y], g);
      LineIsDone(was, out[..], o + outindex, n + inindex, prevline, bytewidth, linebytes, types[y], g);
      FilterStep(was, before, o, image, linebytes, bytewidth, types, y, done, prev, pos, out[..]);
      done := done + ([types[y]] + LineMade(was, o + outindex, g.line, prev, bytewidth, types[y]));
      prev, pos := g.line, pos + linebytes;
      prevline := n + inindex;
    }
    FilterEnd(out[..], before, o, image, linebytes, bytewidth, types, done, prev, pos);
    if forall y :: 0 <= y < h ==> types[y] <= 4 {
      RowsOverAre(image, linebytes, bytewidth, [], types, OldRows(before, o, linebytes, types));
    }
    error := 0;
  }

  lemma FilterIndices(out: seq<byte>, before: seq<byte>, o: nat, image: seq<byte>, lb: nat, bw: nat, types: seq<byte>,
                      y: nat, done: seq<byte>, prev: seq<byte>, pos: nat)
    requires FilterAt(out, before, o, image, lb, bw, types, y, done, prev, pos)
    ensures Times(lb, y) == pos && Times(1 + lb, y) == |done|
  {
    TimesSwap(lb, y);
    TimesSwap(1 + lb, y);
  }

  /** Where the line came from does not matter for what has been written. */
  lemma LineIsDone(was: seq<byte>, out: seq<byte>, p: nat, n: nat, q: int, bw: nat, length: nat, t: byte, g: Job)
    requires p + length + 1 <= |was| && |g.line| == length && g == Job(was[p := t], g.line, g.prev, t)
    requires if t <= 4 then Filtered(out, Place(p + 1, n, q, bw, length), g, length) else out == was[p := t]
    ensures LineDone(was, out, p, g.line, g.prev, bw, t)
  {
    hide FilterLine;
  }
}
