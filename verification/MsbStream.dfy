/** Bits of a byte buffer, the most significant bit of each byte first, as PNG packs
    pixels; and the padding bits at the end of scanlines. */
module MsbStream {
  import opened Bits
  import opened Buffers

  // ----- Single bits

  /** All bits of the bytes in order. */
  function Stream(mem: seq<byte>): (s: seq<bit>)
    ensures |s| == 8 * |mem|
    ensures forall p :: 0 <= p < |s| ==> s[p] == BitOf(mem[p / 8], 7 - p % 8)
  {
    seq(8 * |mem|, p requires 0 <= p < 8 * |mem| => BitOf(mem[p / 8], 7 - p % 8))
  }

  lemma StreamAt(data: seq<byte>, p: nat)
    requires p < 8 * |data|
    ensures Stream(data)[p] as nat == data[p / 8] as nat / Pow2(7 - p % 8) % 2
  {
    ShrIsDiv(data[p / 8], 7 - p % 8);
  }

  lemma {:induction false} BitOfOr(a: nat, b: nat, j: nat)
    ensures BitOf(BitOr(a, b), j) == if BitOf(a, j) == 1 || BitOf(b, j) == 1 then 1 else 0
    decreases j
  {
    if a == 0 {
      ShrOfZero(j);
    } else if b == 0 {
      ShrOfZero(j);
    } else if j > 0 {
      BitOfOr(a / 2, b / 2, j - 1);
    }
  }

  lemma {:induction false} BitOfAnd(a: nat, b: nat, j: nat)
    ensures BitOf(BitAnd(a, b), j) == if BitOf(a, j) == 1 && BitOf(b, j) == 1 then 1 else 0
    decreases j
  {
    if a == 0 || b == 0 {
      ShrOfZero(j);
    } else if j > 0 {
      BitOfAnd(a / 2, b / 2, j - 1);
    }
  }

  lemma {:induction false} BitOfOne(k: nat, j: nat)
    ensures BitOf(Shl(1, k), j) == if j == k then 1 else 0
    decreases j
  {
    if j > 0 {
      if k > 0 {
        BitOfOne(k - 1, j - 1);
      } else {
        ShrOfZero(j - 1);
      }
    }
  }

  lemma {:induction false} BitOfShl(v: nat, sh: nat, k: nat)
    ensures BitOf(Shl(v, sh), k) == if k < sh then 0 else BitOf(v, k - sh)
    decreases k
  {
    if sh > 0 && k > 0 {
      BitOfShl(v, sh - 1, k - 1);
    }
  }

  lemma {:induction false} BitOfSmall(v: nat, n: nat, k: nat)
    requires v < Pow2(n) && n <= k
    ensures BitOf(v, k) == 0
    decreases n
  {
    if n > 0 {
      BitOfSmall(v / 2, n - 1, k - 1);
    } else {
      ShrOfZero(k);
    }
  }

  /** The complement within n bits. */
  lemma {:induction false} BitOfNot(v: nat, n: nat, j: nat)
    requires v < Pow2(n) && j < n
    ensures BitOf(Pow2(n) - 1 - v, j) == 1 - BitOf(v, j)
    decreases j
  {
    if j > 0 {
      BitOfNot(v / 2, n - 1, j - 1);
      assert (Pow2(n) - 1 - v) / 2 == Pow2(n - 1) - 1 - v / 2;
    }
  }

  lemma {:induction false} SameBits(a: nat, b: nat, n: nat)
    requires a < Pow2(n) && b < Pow2(n) && forall j :: 0 <= j < n ==> BitOf(a, j) == BitOf(b, j)
    ensures a == b
    decreases n
  {
    if n > 0 {
      assert BitOf(a, 0) == BitOf(b, 0);
      forall j | 0 <= j < n - 1
        ensures BitOf(a / 2, j) == BitOf(b / 2, j)
      {
        var i := j + 1;
        assert BitOf(a, i) == BitOf(b, i);
      }
      SameBits(a / 2, b / 2, n - 1);
    }
  }

  lemma {:induction false} OrBound(a: nat, b: nat, n: nat)
    requires a < Pow2(n) && b < Pow2(n)
    ensures BitOr(a, b) < Pow2(n)
    decreases n
  {
    if a != 0 && b != 0 {
      OrBound(a / 2, b / 2, n - 1);
    }
  }

  lemma {:induction false} AndBound(a: nat, b: nat)
    ensures BitAnd(a, b) <= a
  {
    if a != 0 && b != 0 {
      AndBound(a / 2, b / 2);
    }
  }

  /** Bit k of a byte cleared or set by masking. */
  function WithBit(x: byte, k: nat, b: bit): (y: byte)
    requires k < 8
  {
    var mask := Shl(1, k) % 256;
    if b == 0 then BitAnd(x, 255 - mask) % 256 else BitOr(x, mask) % 256
  }

  lemma WithBitBits(x: byte, k: nat, b: bit, j: nat)
    requires k < 8 && j < 8
    ensures Shl(1, k) < 256 && BitOf(WithBit(x, k, b), j) == if j == k then b else BitOf(x, j)
  {
    hide BitAnd, BitOr, BitOf, Shl;
    Pow2Values();
    ShlOne(k);
    assert Shl(1, k) < 256 by { Pow2Strict(k, 8); }
    BitOfOne(k, j);
    if b == 0 {
      AndBound(x, 255 - Shl(1, k));
      BitOfAnd(x, 255 - Shl(1, k), j);
      BitOfNot(Shl(1, k), 8, j);
    } else {
      OrBound(x, Shl(1, k), 8);
      BitOfOr(x, Shl(1, k), j);
    }
  }

  lemma {:induction false} Pow2Strict(a: nat, b: nat)
    requires a < b
    ensures Pow2(a) < Pow2(b)
  {
    Pow2Monotone(a, b - 1);
  }

  method ReadBit(mem: array<byte>, bp: nat) returns (b: bit)
    requires bp < 8 * mem.Length
    ensures b == Stream(mem[..])[bp]
  {
    b := Shr(mem[bp / 8], 7 - bp % 8) % 2;
  }

  lemma StreamUpdate(mem: seq<byte>, bp: nat, b: bit)
    requires bp < 8 * |mem|
    ensures Stream(mem[bp / 8 := WithBit(mem[bp / 8], 7 - bp % 8, b)]) == Stream(mem)[bp := b]
  {
    hide WithBit, BitOf;
    var i, k := bp / 8, 7 - bp % 8;
    var s, t := Stream(mem[i := WithBit(mem[i], k, b)]), Stream(mem)[bp := b];
    forall p | 0 <= p < |s|
      ensures s[p] == t[p]
    {
      if p / 8 == i {
        WithBitBits(mem[i], k, b, 7 - p % 8);
      }
    }
  }

  method SetBit(mem: array<byte>, bp: nat, b: bit)
    requires bp < 8 * mem.Length
    modifies mem
    ensures Stream(mem[..]) == old(Stream(mem[..]))[bp := b]
  {
    hide WithBit, Stream;
    ghost var was := mem[..];
    StreamUpdate(was, bp, b);
    mem[bp / 8] := WithBit(mem[bp / 8], 7 - bp % 8, b);
    assert mem[..] == was[bp / 8 := WithBit(was[bp / 8], 7 - bp % 8, b)];
  }

  lemma StreamSlice(mem: seq<byte>, i: nat, j: nat)
    requires i <= j <= |mem|
    ensures Stream(mem[i..j]) == Stream(mem)[8 * i..8 * j]
  {
    hide BitOf;
    var s, t := Stream(mem[i..j]), Stream(mem)[8 * i..8 * j];
    forall p | 0 <= p < |s|
      ensures s[p] == t[p]
    {
      assert (8 * i + p) / 8 == i + p / 8 && (8 * i + p) % 8 == p % 8;
    }
  }

  /** The bits of a buffer determine it. */
  lemma StreamInjective(a: seq<byte>, b: seq<byte>)
    requires Stream(a) == Stream(b)
    ensures a == b
  {
    assert |a| == |b|;
    forall i | 0 <= i < |a|
      ensures a[i] == b[i]
    {
      assert Pow2(8) == 256;
      forall j | 0 <= j < 8
        ensures BitOf(a[i], j) == BitOf(b[i], j)
      {
        var p := 8 * i + (7 - j);
        assert Stream(a)[p] == Stream(b)[p];
        assert p / 8 == i && 7 - p % 8 == j;
      }
      SameBits(a[i], b[i], 8);
    }
  }

  // ----- Padding bits

  /** h lines of il bits, of which only the first ol are kept. */
  function Unpadded(s: seq<bit>, ol: nat, il: nat, h: nat): (r: seq<bit>)
    decreases h
  {
    if h == 0 || |s| < il || il < ol then [] else s[..ol] + Unpadded(s[il..], ol, il, h - 1)
  }

  /** h lines of il bits, filled up with zeros to ol bits each. */
  function Padded(s: seq<bit>, ol: nat, il: nat, h: nat): (r: seq<bit>)
    decreases h
  {
    if h == 0 || |s| < il || ol < il then [] else s[..il] + Zeros(ol - il) + Padded(s[il..], ol, il, h - 1)
  }

  lemma {:induction false} UnpaddedPadded(s: seq<bit>, long: nat, short: nat, h: nat)
    requires short <= long && |s| == Times(h, short)
    ensures |Padded(s, long, short, h)| == Times(h, long)
    ensures Unpadded(Padded(s, long, short, h), short, long, h) == s
    decreases h
  {
    hide Times;
    if h == 0 {
      TimesZero(long);
      TimesZero(short);
    } else {
      TimesNext(h - 1, long);
      TimesNext(h - 1, short);
      UnpaddedPadded(s[short..], long, short, h - 1);
      var line, rest := s[..short] + Zeros(long - short), Padded(s[short..], long, short, h - 1);
      assert (line + rest)[..short] == s[..short] && (line + rest)[long..] == rest;
      assert s == s[..short] + s[short..];
    }
  }

  /** State while lines are moved to o: the bits still to read lie at `ibp`. */
  ghost predicate Moving(out: seq<bit>, input: seq<bit>, same: bool, before: seq<bit>, src: seq<bit>, o: nat, n: nat,
                         done: seq<bit>, k: nat) {
    && k <= |src| && n + |src| <= |input| && |done| <= k
    && Replaced(out, before, o, done)
    && (if same then input == out && o <= n && n + |src| <= |before| && before[n..n + |src|] == src
        else input[n..n + |src|] == src)
  }

  lemma MovingRead(out: seq<bit>, input: seq<bit>, same: bool, before: seq<bit>, src: seq<bit>, o: nat, n: nat, done: seq<bit>, k: nat)
    requires Moving(out, input, same, before, src, o, n, done, k) && k < |src|
    ensures n + k < |input| && input[n + k] == src[k] && |done| <= k && |out| == |before|
  {
    if same {
      ReplacedBehind(out, before, o, done, n + k, n + k + 1);
      assert out[n + k] == out[n + k..n + k + 1][0];
      assert before[n + k] == before[n..n + |src|][k];
    } else {
      assert input[n + k] == input[n..n + |src|][k];
    }
  }

  lemma MovingStep(out: seq<bit>, input: seq<bit>, same: bool, before: seq<bit>, src: seq<bit>, o: nat, n: nat, done: seq<bit>, k: nat,
                   k': nat, b: bit, out': seq<bit>, input': seq<bit>)
    requires Moving(out, input, same, before, src, o, n, done, k) && |done| < k' <= |src| && o + |done| < |before|
    requires out' == out[o + |done| := b] && input' == if same then out' else input
    ensures Moving(out', input', same, before, src, o, n, done + [b], k')
  {
    ReplacedOne(out, before, o, done, b);
  }

  lemma MovingSkip(out: seq<bit>, input: seq<bit>, same: bool, before: seq<bit>, src: seq<bit>, o: nat, n: nat, done: seq<bit>, k: nat,
                   k': nat)
    requires Moving(out, input, same, before, src, o, n, done, k) && k <= k' <= |src|
    ensures Moving(out, input, same, before, src, o, n, done, k')
  {
  }

  lemma MovingStart(out: seq<bit>, input: seq<bit>, same: bool, src: seq<bit>, o: nat, n: nat)
    requires o <= |out| && n + |src| <= |input| && input[n..n + |src|] == src && (same ==> input == out && o <= n)
    ensures Moving(out, input, same, out, src, o, n, [], 0)
  {
  }

  /** The lines still to come. */
  ghost predicate LinesLeft(src: seq<bit>, ol: nat, il: nat, h: nat, y: nat, done: seq<bit>, k: nat) {
    && y <= h && k == Times(y, il) <= |src| == Times(h, il) && |done| == Times(y, ol) && ol <= il
    && Unpadded(src, ol, il, h) == done + Unpadded(src[k..], ol, il, h - y)
  }

  lemma LinesStart(src: seq<bit>, ol: nat, il: nat, h: nat)
    requires |src| == Times(h, il) && ol <= il
    ensures LinesLeft(src, ol, il, h, 0, [], 0)
  {
    hide Unpadded;
    TimesZero(il);
    TimesZero(ol);
    assert src[0..] == src;
  }

  lemma LinesNext(src: seq<bit>, ol: nat, il: nat, h: nat, y: nat, done: seq<bit>, k: nat)
    requires LinesLeft(src, ol, il, h, y, done, k) && y < h
    ensures k + il <= |src| && |done| + ol <= Times(h, ol)
    ensures LinesLeft(src, ol, il, h, y + 1, done + src[k..k + ol], k + il)
  {
    hide Times;
    TimesNext(y, il);
    TimesNext(y, ol);
    TimesMonotone(y + 1, h, il);
    TimesMonotone(y + 1, h, ol);
    var rest := src[k..];
    assert rest[..ol] == src[k..k + ol] && rest[il..] == src[k + il..];
    var more := Unpadded(src[k + il..], ol, il, h - y - 1);
    assert Unpadded(rest, ol, il, h - y) == src[k..k + ol] + more;
    assert done + (src[k..k + ol] + more) == done + src[k..k + ol] + more;
  }

  /** Copies num bits one by one. */
  method MoveBits(out: array<byte>, input: array<byte>, obp: nat, ibp: nat, num: nat,
                  ghost before: seq<bit>, ghost src: seq<bit>, ghost o: nat, ghost n: nat, ghost done: seq<bit>, ghost k: nat)
    requires Moving(Stream(out[..]), Stream(input[..]), out == input, before, src, o, n, done, k)
    requires ibp == n + k && obp == o + |done| && k + num <= |src| && obp + num <= |before|
    modifies out
    ensures Moving(Stream(out[..]), Stream(input[..]), out == input, before, src, o, n, done + src[k..k + num], k + num)
  {
    hide Stream, Moving;
    assert done + src[k..k] == done;
    for x := 0 to num
      invariant Moving(Stream(out[..]), Stream(input[..]), out == input, before, src, o, n, done + src[k..k + x], k + x)
    {
      ghost var s, t, part := Stream(out[..]), Stream(input[..]), done + src[k..k + x];
      MovingRead(s, t, out == input, before, src, o, n, part, k + x);
      var bit := ReadBit(input, ibp + x);
      SetBit(out, obp + x, bit);
      MovingStep(s, t, out == input, before, src, o, n, part, k + x, k + x + 1, bit, Stream(out[..]), Stream(input[..]));
      assert done + src[k..k + x + 1] == part + [bit];
    }
  }

  /** Moves the first olinebits bits of each line of ilinebits bits; the bits may move
      down inside one buffer. */
  method RemovePaddingBits(out: array<byte>, o: nat, input: array<byte>, n: nat, olinebits: nat, ilinebits: nat, h: nat)
    requires olinebits <= ilinebits && (out == input ==> o <= n)
    requires 8 * o + Times(h, olinebits) <= 8 * out.Length && 8 * n + Times(h, ilinebits) <= 8 * input.Length
    modifies out
    ensures
      var src := old(Stream(input[..]))[8 * n..8 * n + Times(h, ilinebits)];
      Replaced(Stream(out[..]), old(Stream(out[..])), 8 * o, Unpadded(src, olinebits, ilinebits, h))
  {
    hide Stream, Unpadded, Moving, LinesLeft, Times, Replaced;
    ghost var before, same := Stream(out[..]), out == input;
    ghost var src := Stream(input[..])[8 * n..8 * n + Times(h, ilinebits)];
    var diff := ilinebits - olinebits;
    var ibp, obp := 8 * n, 8 * o;
    ghost var done: seq<bit>, k: nat := [], 0;
    MovingStart(before, Stream(input[..]), same, src, 8 * o, 8 * n);
    LinesStart(src, olinebits, ilinebits, h);
    for y := 0 to h
      invariant ibp == 8 * n + k && obp == 8 * o + |done|
      invariant Moving(Stream(out[..]), Stream(input[..]), same, before, src, 8 * o, 8 * n, done, k)
      invariant LinesLeft(src, olinebits, ilinebits, h, y, done, k)
    {
      LinesNext(src, olinebits, ilinebits, h, y, done, k);
      MoveBits(out, input, obp, ibp, olinebits, before, src, 8 * o, 8 * n, done, k);
      done := done + src[k..k + olinebits];
      obp := obp + olinebits;
      ibp := ibp + olinebits + diff;
      MovingSkip(Stream(out[..]), Stream(input[..]), same, before, src, 8 * o, 8 * n, done, k + olinebits, k + ilinebits);
      k := k + ilinebits;
    }
    MovingDone(Stream(out[..]), Stream(input[..]), same, before, src, 8 * o, 8 * n, done, k, olinebits, ilinebits, h);
  }

  lemma MovingDone(out: seq<bit>, input: seq<bit>, same: bool, before: seq<bit>, src: seq<bit>, o: nat, n: nat, done: seq<bit>, k: nat,
                   ol: nat, il: nat, h: nat)
    requires Moving(out, input, same, before, src, o, n, done, k) && LinesLeft(src, ol, il, h, h, done, k)
    ensures Replaced(out, before, o, Unpadded(src, ol, il, h))
  {
    assert Unpadded(src, ol, il, h) == done;
  }

  /** The lines still to come when lines are filled up with zeros. */
  ghost predicate LinesToPad(src: seq<bit>, ol: nat, il: nat, h: nat, y: nat, done: seq<bit>, k: nat) {
    && y <= h && k == Times(y, il) <= |src| == Times(h, il) && |done| == Times(y, ol) && il <= ol
    && Padded(src, ol, il, h) == done + Padded(src[k..], ol, il, h - y)
  }

  lemma PaddingStart(src: seq<bit>, ol: nat, il: nat, h: nat)
    requires |src| == Times(h, il) && il <= ol
    ensures LinesToPad(src, ol, il, h, 0, [], 0)
  {
    hide Padded;
    TimesZero(il);
    TimesZero(ol);
    assert src[0..] == src;
  }

  lemma PaddingNext(src: seq<bit>, ol: nat, il: nat, h: nat, y: nat, done: seq<bit>, k: nat)
    requires LinesToPad(src, ol, il, h, y, done, k) && y < h
    ensures k + il <= |src| && |done| + ol <= Times(h, ol)
    ensures LinesToPad(src, ol, il, h, y + 1, done + src[k..k + il] + Zeros(ol - il), k + il)
  {
    hide Times;
    TimesNext(y, il);
    TimesNext(y, ol);
    TimesMonotone(y + 1, h, il);
    TimesMonotone(y + 1, h, ol);
    var rest := src[k..];
    assert rest[..il] == src[k..k + il] && rest[il..] == src[k + il..];
    var line, zeros, more := src[k..k + il], Zeros(ol - il), Padded(src[k + il..], ol, il, h - y - 1);
    assert Padded(rest, ol, il, h - y) == line + zeros + more;
    assert done + (line + zeros + more) == done + line + zeros + more;
  }

  /** Writes num zero bits. */
  method PutZeros(out: array<byte>, obp: nat, num: nat, ghost before: seq<bit>, ghost o: nat, ghost done: seq<bit>)
    requires Replaced(Stream(out[..]), before, o, done) && obp == o + |done| && obp + num <= |before|
    modifies out
    ensures Replaced(Stream(out[..]), before, o, done + Zeros(num))
  {
    hide Stream, Replaced;
    assert done + Zeros(0) == done;
    for x := 0 to num
      invariant Replaced(Stream(out[..]), before, o, done + Zeros(x))
    {
      ReplacedOne(Stream(out[..]), before, o, done + Zeros(x), 0);
      SetBit(out, obp + x, 0);
      assert done + Zeros(x + 1) == done + Zeros(x) + [0];
    }
  }

  method PadLine(out: array<byte>, obp: nat, input: array<byte>, ibp: nat, num: nat, diff: nat, ghost before: seq<bit>, ghost done: seq<bit>)
    requires out != input && ibp + num <= 8 * input.Length && obp == |done| && obp + num + diff <= |before|
    requires Replaced(Stream(out[..]), before, 0, done)
    modifies out
    ensures Replaced(Stream(out[..]), before, 0, done + Stream(input[..])[ibp..ibp + num] + Zeros(diff))
  {
    hide Stream, Replaced;
    ghost var was, line := Stream(out[..]), Stream(input[..])[ibp..ibp + num];
    assert |was| == |before| by { ReplacedParts(was, before, 0, done); }
    CopyBits(out, obp, input, ibp, num);
    MoreReplaced(was, before, done, Stream(out[..]), line);
    PutZeros(out, obp + num, diff, before, 0, done + line);
  }

  /** Fills every line of ilinebits bits up to olinebits bits. */
  method AddPaddingBits(out: array<byte>, input: array<byte>, n: nat, olinebits: nat, ilinebits: nat, h: nat)
    requires ilinebits <= olinebits && out != input
    requires Times(h, olinebits) <= 8 * out.Length && 8 * n + Times(h, ilinebits) <= 8 * input.Length
    modifies out
    ensures
      var src := Stream(input[..])[8 * n..8 * n + Times(h, ilinebits)];
      Replaced(Stream(out[..]), old(Stream(out[..])), 0, Padded(src, olinebits, ilinebits, h))
  {
    hide Stream, Padded, LinesToPad, Times, Replaced, Zeros;
    ghost var before := Stream(out[..]);
    ghost var src := Stream(input[..])[8 * n..8 * n + Times(h, ilinebits)];
    var diff := olinebits - ilinebits;
    var obp, ibp := 0, 8 * n;
    ghost var done: seq<bit>, k: nat := [], 0;
    ReplacedNothing(before, 0);
    PaddingStart(src, olinebits, ilinebits, h);
    for y := 0 to h
      invariant ibp == 8 * n + k && obp == |done|
      invariant Replaced(Stream(out[..]), before, 0, done)
      invariant LinesToPad(src, olinebits, ilinebits, h, y, done, k)
    {
      PaddingNext(src, olinebits, ilinebits, h, y, done, k);
      SliceOfSlice(Stream(input[..]), 8 * n, 8 * n + |src|, k, k + ilinebits);
      PadLine(out, obp, input, ibp, ilinebits, diff, before, done);
      done := done + src[k..k + ilinebits] + Zeros(diff);
      obp, ibp, k := obp + olinebits, ibp + ilinebits, k + ilinebits;
    }
    PaddingDone(src, olinebits, ilinebits, h, done, k);
  }

  lemma MoreReplaced(out: seq<bit>, before: seq<bit>, done: seq<bit>, out': seq<bit>, more: seq<bit>)
    requires Replaced(out, before, 0, done) && |done| + |more| <= |before| && Replaced(out', out, |done|, more)
    ensures Replaced(out', before, 0, done + more)
  {
    ReplacedMore(out, before, 0, done, out', more);
  }

  lemma PaddingDone(src: seq<bit>, ol: nat, il: nat, h: nat, done: seq<bit>, k: nat)
    requires LinesToPad(src, ol, il, h, h, done, k)
    ensures done == Padded(src, ol, il, h)
  {
  }

  /** Copies num bits into another buffer. */
  method CopyBits(out: array<byte>, obp: nat, input: array<byte>, ibp: nat, num: nat)
    requires out != input && ibp + num <= 8 * input.Length && obp + num <= 8 * out.Length
    modifies out
    ensures Replaced(Stream(out[..]), old(Stream(out[..])), obp, Stream(input[..])[ibp..ibp + num])
  {
    hide Stream, Replaced;
    ghost var before, s := Stream(out[..]), Stream(input[..]);
    ReplacedNothing(before, obp);
    assert s[ibp..ibp] == [];
    for x := 0 to num
      invariant Replaced(Stream(out[..]), before, obp, s[ibp..ibp + x])
    {
      ReplacedOne(Stream(out[..]), before, obp, s[ibp..ibp + x], s[ibp + x]);
      var bit := ReadBit(input, ibp + x);
      SetBit(out, obp + x, bit);
      assert s[ibp..ibp + x + 1] == s[ibp..ibp + x] + [bit];
    }
  }

  lemma StreamConcat(a: seq<byte>, b: seq<byte>)
    ensures Stream(a + b) == Stream(a) + Stream(b)
  {
    hide BitOf;
    var s, t := Stream(a + b), Stream(a) + Stream(b);
    forall p | 0 <= p < |s|
      ensures s[p] == t[p]
    {
      if p >= 8 * |a| {
        var q := p - 8 * |a|;
        assert p / 8 == |a| + q / 8 && p % 8 == q % 8;
      }
    }
  }

  /** Replacing bytes replaces their bits. */
  lemma ReplacedBits(out: seq<byte>, before: seq<byte>, o: nat, done: seq<byte>)
    requires Replaced(out, before, o, done)
    ensures Replaced(Stream(out), Stream(before), 8 * o, Stream(done))
  {
    hide Stream;
    var x, z := before[..o], before[o + |done|..];
    StreamConcat(x + done, z);
    StreamConcat(x, done);
    assert before[0..o] == x && before[o + |done|..|before|] == z;
    StreamSlice(before, 0, o);
    StreamSlice(before, o + |done|, |before|);
    var s := Stream(before);
    assert s[0..8 * o] == s[..8 * o] && s[8 * (o + |done|)..8 * |before|] == s[8 * (o + |done|)..];
  }
}
