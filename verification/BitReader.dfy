/** The bit reader of the decoder: a byte string, a bit position that may run
    past the end, and a 32-bit look-ahead buffer. */
module BitReader {
  import opened Bits

  /** The 32-bit word formed by n bytes, first byte lowest. */
  function LoadBytes(d: seq<byte>): nat {
    if d == [] then 0
    else BitOr(LoadBytes(d[..|d| - 1]), Shl(d[|d| - 1], 8 * (|d| - 1)))
  }

  lemma {:induction false} LoadBytesValue(d: seq<byte>)
    ensures LoadBytes(d) == Val(BytesBits(d))
    decreases |d|
  {
    if d != [] {
      var init, last := d[..|d| - 1], d[|d| - 1];
      LoadBytesValue(init);
      ValBound(BytesBits(init));
      OrDisjoint(Val(BytesBits(init)), 8 * |init|, last);
      assert d == init + [last];
      BytesBitsConcat(init, [last]);
      BytesBitsOne(last);
      ValOfByte(last);
      ValConcat(BytesBits(init), LsbBits(last, 8));
    }
  }

  lemma ValOfByte(x: byte)
    ensures Val(LsbBits(x, 8)) == x
  {
    assert Pow2(8) == 256;
    ValOfSmall(x, 8);
  }

  lemma ValPadded(b: seq<bit>, m: nat)
    ensures Val(b + Zeros(m)) == Val(b)
  {
    ValConcat(b, Zeros(m));
    ValZeros(m);
    ShlZero(|b|);
  }

  lemma SubWindow(s: seq<bit>, i: nat, n: nat, r: nat)
    requires i + n <= |s| && r <= n
    ensures s[i..][..n][r..] == Slice(s, i + r, n - r)
  {
  }

  /** The window loaded at byte `start`, shifted down to bit position bp, holds
      the stream from bp on. */
  lemma WindowInside(data: seq<byte>, bp: nat, start: nat, r: nat, n: nat)
    requires bp == 8 * start + r && r < 8
    requires start + n <= |data| && n > 0
    ensures Shr(LoadBytes(data[start..start + n]), r) == Val(Slice(BytesBits(data), bp, 8 * n - r))
  {
    hide BytesBits, LoadBytes, Shr, Val, Slice, Low;
    var d := data[start..start + n];
    var s := BytesBits(data);
    LoadBytesValue(d);
    ValSplit(BytesBits(d), r);
    BytesBitsSplit(data, start);
    assert d == data[start..][..n];
    BytesBitsSplit(data[start..], n);
    SubWindow(s, 8 * start, 8 * n, r);
  }

  /** Past the end of the data the window reads as zeros, for any width. */
  lemma WindowAtEnd(data: seq<byte>, bp: nat, start: nat, r: nat, n: nat, width: nat)
    requires bp == 8 * start + r && r < 8
    requires start + n >= |data| && width >= 8 * n
    ensures Shr(LoadBytes(data[if start < |data| then start else |data|..]), r) == Val(Slice(BytesBits(data), bp, width))
  {
    var s := BytesBits(data);
    if start < |data| {
      var d := data[start..];
      var rest := 8 * |d| - r;
      assert data[start..start + |d|] == d;
      WindowInside(data, bp, start, r, |d|);
      assert bp + rest == |s|;
      PastEnd(s, bp, rest, width);
      ValPadded(Slice(s, bp, rest), width - rest);
    } else {
      assert data[|data|..] == [];
      ShrOfZero(r);
      assert Slice(s, bp, width) == Zeros(width);
      ValZeros(width);
    }
  }

  lemma PastEnd(s: seq<bit>, bp: nat, rest: nat, width: nat)
    requires bp + rest == |s| && rest <= width
    ensures Slice(s, bp, width) == Slice(s, bp, rest) + Zeros(width - rest)
  {
  }

  /** The fifth byte: the part of it that is shifted out at the top is lost. */
  lemma {:induction false} LowOfShl(v: nat, j: nat, m: nat)
    ensures Low(Shl(v, j), j + m) == Shl(Low(v, m), j)
  {
    if j > 0 {
      LowOfShl(v, j - 1, m);
    }
  }

  lemma ByteSlice(data: seq<byte>, i: nat, r: nat)
    requires i < |data| && r <= 8
    ensures Slice(BytesBits(data), 8 * i, r) == LsbBits(data[i], r)
  {
    forall j | 0 <= j < r
      ensures Slice(BytesBits(data), 8 * i, r)[j] == LsbBits(data[i], r)[j]
    {
      if r < 8 || j < 8 {
        assert (8 * i + j) / 8 == i && (8 * i + j) % 8 == j;
      }
    }
  }

  lemma TopBits(x: nat, a: nat, b: nat, r: nat, n: nat)
    requires a + b + r == n
    ensures Low(Shl(Shl(x, a), b), n) == Shl(Low(x, r), a + b)
  {
    ShlShl(x, a, b);
    LowOfShl(x, a + b, r);
  }

  lemma FifthByte(data: seq<byte>, bp: nat, start: nat, r: nat, w: nat)
    requires bp == 8 * start + r && r < 8 && start + 4 < |data| && w == 32 - r
    ensures BitOr(Val(Slice(BytesBits(data), bp, w)), Shl(Low(data[start + 4], r), w)) == Val(Slice(BytesBits(data), bp, w + r))
  {
    var s, x := BytesBits(data), data[start + 4];
    var lo, hi := Slice(s, bp, w), LsbBits(x, r);
    ValBound(lo);
    OrDisjoint(Val(lo), w, Low(x, r));
    ValOfLsbBits(x, r);
    SliceSplit(s, bp, w, r);
    assert bp + w == 8 * (start + 4);
    ByteSlice(data, start + 4, r);
    ValConcat(lo, hi);
    assert Slice(s, bp, w + r) == lo + hi;
  }

  /** Five bytes for 32 bits: four are or-ed together and shifted down, the
      fifth fills the gap this leaves at the top of the word. */
  function Window32(data: seq<byte>, start: nat, r: nat): nat
    requires start + 4 < |data| && r < 8
  {
    BitOr(Shr(LoadBytes(data[start..start + 4]), r), Low(Shl(Shl(data[start + 4], 24), 8 - r), 32))
  }

  lemma Window32Correct(data: seq<byte>, bp: nat, start: nat, r: nat)
    requires bp == 8 * start + r && r < 8 && start + 4 < |data|
    ensures Window32(data, start, r) == Val(Slice(BytesBits(data), bp, 32))
  {
    var w, x := 32 - r, data[start + 4];
    WindowInside(data, bp, start, r, 4);
    FifthByte(data, bp, start, r, w);
    TopBits(x, 24, 8 - r, r, 32);
    calc {
      Window32(data, start, r);
      BitOr(Val(Slice(BytesBits(data), bp, w)), Shl(Low(x, r), w));
      Val(Slice(BytesBits(data), bp, w + r));
    }
  }

  class BitReader {
    const data: seq<byte>
    const size: nat
    const bitsize: nat
    var bp: nat
    var buffer: nat
    ghost var avail: nat   // how many bits of the buffer are known to be stream bits

    ghost predicate Valid()
      reads this
    {
      && size == |data|
      && bitsize == 8 * size
      && (avail > 0 ==> buffer == Val(Slice(Stream(), bp, avail)))
    }

    ghost function Stream(): seq<bit> {
      BytesBits(data)
    }

    constructor (input: seq<byte>)
      ensures Valid() && data == input && bp == 0
    {
      data := input;
      size := |input|;
      bitsize := 8 * |input|;
      bp := 0;
      buffer := 0;
      avail := 0;
    }

    /** Common part of ensureBits9, 17 and 25: with one byte more than k bytes at
        hand the window is loaded unconditionally, otherwise byte by byte. */
    method Ensure(k: nat, nbits: nat) returns (ok: bool)
      requires Valid() && 1 <= k <= 3 && nbits <= 8 * k + 1
      modifies this`buffer, this`avail
      ensures Valid() && avail >= 8 * k + 1
      ensures ok <==> bp + nbits <= bitsize
    {
      hide Slice, Val, BytesBits, Shr, LoadBytes;
      var start := bp / 8;
      if start + k < size {
        WindowInside(data, bp, start, bp % 8, k + 1);
        buffer := LoadBytes(data[start..start + k + 1]);
        buffer := Shr(buffer, bp % 8);
        avail := 8 * (k + 1) - bp % 8;
        return true;
      } else {
        WindowAtEnd(data, bp, start, bp % 8, k, 32);
        buffer := LoadBytes(data[if start < size then start else size..]);
        buffer := Shr(buffer, bp % 8);
        avail := 32;
        return bp + nbits <= bitsize;
      }
    }

    method EnsureBits9(nbits: nat) returns (ok: bool)
      requires Valid() && nbits <= 9
      modifies this`buffer, this`avail
      ensures Valid() && avail >= 9
      ensures ok <==> bp + nbits <= bitsize
    {
      ok := Ensure(1, nbits);
    }

    method EnsureBits17(nbits: nat) returns (ok: bool)
      requires Valid() && nbits <= 17
      modifies this`buffer, this`avail
      ensures Valid() && avail >= 17
      ensures ok <==> bp + nbits <= bitsize
    {
      ok := Ensure(2, nbits);
    }

    method EnsureBits25(nbits: nat) returns (ok: bool)
      requires Valid() && nbits <= 25
      modifies this`buffer, this`avail
      ensures Valid() && avail >= 25
      ensures ok <==> bp + nbits <= bitsize
    {
      ok := Ensure(3, nbits);
    }

    method EnsureBits32(nbits: nat) returns (ok: bool)
      requires Valid() && nbits <= 32
      modifies this`buffer, this`avail
      ensures Valid() && avail >= 32
      ensures ok <==> bp + nbits <= bitsize
    {
      hide Slice, Val, BytesBits, Shr, LoadBytes, Window32;
      var start := bp / 8;
      if start + 4 < size {
        Window32Correct(data, bp, start, bp % 8);
        buffer := Window32(data, start, bp % 8);
        avail := 32;
        return true;
      } else {
        WindowAtEnd(data, bp, start, bp % 8, 4, 32);
        buffer := LoadBytes(data[if start < size then start else size..]);
        buffer := Shr(buffer, bp % 8);
        avail := 32;
        return bp + nbits <= bitsize;
      }
    }

    /** The mask limits the width to 31 bits. */
    method PeekBits(nbits: nat) returns (v: nat)
      requires Valid() && nbits <= 31 && nbits <= avail
      ensures v == Val(Slice(Stream(), bp, nbits))
    {
      AndMask(buffer, nbits);
      ValSplit(Slice(Stream(), bp, avail), nbits);
      SliceSplit(Stream(), bp, nbits, avail - nbits);
      v := BitAnd(buffer, Pow2(nbits) - 1);
    }

    method AdvanceBits(nbits: nat)
      requires Valid() && nbits <= avail
      modifies this
      ensures Valid() && bp == old(bp) + nbits && avail == old(avail) - nbits
    {
      hide Slice, Val, BytesBits, Shr, Low;
      ghost var b := Slice(Stream(), bp, avail);
      ValSplit(b, nbits);
      SliceSplit(Stream(), bp, nbits, avail - nbits);
      assert avail > 0 ==> Shr(buffer, nbits) == Val(Slice(Stream(), bp + nbits, avail - nbits));
      buffer := Shr(buffer, nbits);
      bp := bp + nbits;
      avail := avail - nbits;
    }

    /** Moves to another position; what is buffered does not belong to it. */
    method JumpTo(pos: nat)
      requires Valid()
      modifies this
      ensures Valid() && bp == pos
    {
      bp := pos;
      avail := 0;
    }

    method ReadBits(nbits: nat) returns (v: nat)
      requires Valid() && nbits <= 31 && nbits <= avail
      modifies this
      ensures Valid() && bp == old(bp) + nbits && avail == old(avail) - nbits
      ensures v == Val(Slice(Stream(), old(bp), nbits))
    {
      v := PeekBits(nbits);
      AdvanceBits(nbits);
    }
  }
}
