/** The bit writer of the encoder: a byte vector that grows by one byte whenever
    a bit is written on a byte boundary. */
module BitWriter {
  import opened Bits

  /** The bytes hold the bits, with zeros filling the last byte. */
  ghost predicate Encodes(body: seq<byte>, bits: seq<bit>) {
    BytesBits(body) == bits + Zeros(PadTo8(|bits|))
  }

  lemma ValWithBit(low: seq<bit>, b: bit, m: nat)
    ensures Val(low + [b] + Zeros(m)) == Val(low) + Shl(b, |low|)
  {
    var rest: seq<bit> := [b] + Zeros(m);
    assert low + [b] + Zeros(m) == low + rest;
    assert rest[1..] == Zeros(m);
    ValZeros(m);
    assert Val(rest) == b;
    ValConcat(low, rest);
  }

  /** Or-ing a value into the last, partly filled byte. */
  lemma OrIntoLast(low: seq<bit>, k: nat, x: byte, v: nat)
    requires k < 8 && |low| == k && LsbBits(x, 8) == low + Zeros(8 - k)
    ensures LsbBits(BitOr(x, Shl(v, k)) % 256, 8) == low + LsbBits(v, 8 - k)
  {
    hide LsbBits, BitOr, Shl, Shr, Low, Zeros;
    assert Pow2(8) == 256;
    ValOfSmall(x, 8);
    LowIsValue(low, 8 - k);
    ValBound(low);
    OrDisjoint(x, k, v);
    var y, hi := low + LsbBits(v, 8 - k), Shr(v, 8 - k);
    ValConcat(low, LsbBits(v, 8 - k));
    ValOfLsbBits(v, 8 - k);
    LowHigh(v, 8 - k);
    ShlAdd(Low(v, 8 - k), Shl(hi, 8 - k), k);
    ShlShl(hi, 8 - k, k);
    ValBound(y);
    SplitSum(Val(y), hi, 8);
    LowIsMod(BitOr(x, Shl(v, k)), 8);
    LsbBitsOfVal(y);
  }

  lemma LowIsValue(low: seq<bit>, m: nat)
    ensures Val(low + Zeros(m)) == Val(low)
  {
    ValConcat(low, Zeros(m));
    ValZeros(m);
    ShlZero(|low|);
  }

  /** Nothing but the lowest bit of the value gets into the byte. */
  lemma OneBitExactly(v: nat, m: nat)
    requires m > 0
    ensures LsbBits(v, m) == [v % 2] + Zeros(m - 1) <==> Low(v, m) < 2
    ensures v < 2 ==> Low(v, m) < 2
  {
    hide LsbBits, Low, Zeros;
    var b: seq<bit> := [v % 2] + Zeros(m - 1);
    ValWithBit([], v % 2, m - 1);
    assert [] + [v % 2] + Zeros(m - 1) == b;
    ValOfLsbBits(v, m);
    LowParity(v, m);
    if Low(v, m) < 2 {
      ValInjective(LsbBits(v, m), b);
    }
    assert Pow2(1) == 2;
    Pow2Monotone(1, m);
    if v < 2 {
      LowOfSmall(v, m);
    }
  }

  lemma LowParity(v: nat, m: nat)
    requires m > 0
    ensures Low(v, m) % 2 == v % 2
  {
  }

  lemma LastByte(body: seq<byte>)
    requires body != []
    ensures BytesBits(body) == BytesBits(body[..|body| - 1]) + LsbBits(body[|body| - 1], 8)
  {
    var last := body[|body| - 1];
    assert body == body[..|body| - 1] + [last];
    BytesBitsConcat(body[..|body| - 1], [last]);
    BytesBitsOne(last);
  }

  lemma ZeroByte()
    ensures LsbBits(0, 8) == Zeros(8)
  {
    LsbBitsOfVal(Zeros(8));
    ValZeros(8);
  }

  /** `low` is the used part of the last byte before the write. */
  lemma LastByteUsed(body: seq<byte>, bits: seq<bit>)
    requires Encodes(body, bits)
    requires |bits| % 8 != 0
    ensures body != []
    ensures BytesBits(body[..|body| - 1]) == bits[..|bits| - |bits| % 8]
    ensures LsbBits(body[|body| - 1], 8) == bits[|bits| - |bits| % 8..] + Zeros(8 - |bits| % 8)
  {
    var k := |bits| % 8;
    var all := bits + Zeros(8 - k);
    assert BytesBits(body) == all && |all| == 8 * |body|;
    assert 8 * (|body| - 1) == |bits| - k;
    LastByte(body);
    assert all[..|bits| - k] == bits[..|bits| - k];
    assert all[|bits| - k..] == bits[|bits| - k..] + Zeros(8 - k);
  }

  lemma LastByteCorrect(body: seq<byte>, bits: seq<bit>, v: nat) returns (last: byte)
    requires Encodes(body, bits)
    ensures |bits| % 8 != 0 ==> body != []
    ensures last == if |bits| % 8 == 0 then 0 else body[|body| - 1]
    ensures
      var full := if |bits| % 8 == 0 then body else body[..|body| - 1];
      BytesBits(full + [BitOr(last, Shl(v, |bits| % 8)) % 256]) == bits + LsbBits(v, 8 - |bits| % 8)
  {
    hide BytesBits, LsbBits, BitOr, Shl;
    var k := |bits| % 8;
    var full: seq<byte>, low: seq<bit> := body, [];
    last := 0;
    if k == 0 {
      ZeroByte();
      assert [] + Zeros(8) == Zeros(8);
      assert bits[|bits|..] == [] && bits[..|bits|] == bits;
    } else {
      LastByteUsed(body, bits);
      full, low := body[..|body| - 1], bits[|bits| - k..];
      last := body[|body| - 1];
    }
    OrIntoLast(low, k, last, v);
    var next := full + [BitOr(last, Shl(v, k)) % 256];
    LastByte(next);
    assert next[..|next| - 1] == full;
    assert bits[..|bits| - k] + (bits[|bits| - k..] + LsbBits(v, 8 - k)) == bits + LsbBits(v, 8 - k);
  }

  lemma PadAfter(n: nat)
    ensures PadTo8(n + 1) == 7 - n % 8
  {
  }

  lemma WrapAround(bp: byte, n: nat)
    requires bp % 8 == n % 8
    ensures ((bp + 1) % 256) % 8 == (n + 1) % 8
  {
  }

  /** The vector after one more bit: on a byte boundary a zero byte is appended
      first, then the value is or-ed into the last byte. */
  function PutBit(data: seq<byte>, bp: byte, v: nat): (d: seq<byte>)
    requires bp % 8 != 0 ==> data != []
    ensures bp % 8 == 0 ==> |d| == |data| + 1
    ensures bp % 8 != 0 ==> |d| == |data|
  {
    var grown: seq<byte> := if bp % 8 == 0 then data + [0] else data;
    var last := BitOr(grown[|grown| - 1], Shl(v, bp % 8)) % 256;
    grown[..|grown| - 1] + [last]
  }

  /** The stream grows by the lowest bit of the value exactly if no other bit of it gets
      into the byte. */
  lemma PutBitCorrect(data: seq<byte>, start: nat, bp: byte, bits: seq<bit>, v: nat)
    requires start <= |data| && Encodes(data[start..], bits) && bp % 8 == |bits| % 8
    ensures bp % 8 != 0 ==> |data| > start
    ensures
      var d := PutBit(data, bp, v);
      d[..start] == data[..start] && start <= |d| && (Encodes(d[start..], bits + [v % 2]) <==> Low(v, 8 - bp % 8) < 2)
    ensures v < 2 ==> Low(v, 8 - bp % 8) < 2
  {
    hide BytesBits, BitOr, Shl, Zeros, Low, LsbBits;
    var last := LastByteCorrect(data[start..], bits, v);
    var d, k := PutBit(data, bp, v), bp % 8;
    var end := BitOr(last, Shl(v, k)) % 256;
    if k == 0 {
      assert d == data + [end];
      assert d[start..] == data[start..] + [end];
    } else {
      var body := data[start..];
      assert body[|body| - 1] == data[|data| - 1];
      assert d[start..] == body[..|body| - 1] + [end];
    }
    OneBitExactly(v, 8 - k);
    PadAfter(|bits|);
    BehindBits(bits, LsbBits(v, 8 - k), v % 2, Zeros(7 - k));
  }

  lemma BehindBits(bits: seq<bit>, more: seq<bit>, b: bit, rest: seq<bit>)
    ensures bits + more == bits + [b] + rest <==> more == [b] + rest
  {
    assert bits + [b] + rest == bits + ([b] + rest);
    assert (bits + more)[|bits|..] == more && (bits + ([b] + rest))[|bits|..] == [b] + rest;
  }

  lemma OneBitField(v: nat)
    ensures LsbBits(v, 1) == [v % 2]
  {
  }

  lemma NextBit(before: seq<bit>, field: seq<bit>, i: nat)
    requires i < |field|
    ensures before + field[..i] + [field[i]] == before + field[..i + 1]
  {
    assert field[..i + 1] == field[..i] + [field[i]];
  }

  class BitWriter {
    var data: seq<byte>
    var bp: byte               // bit position, wraps around at 256
    ghost const start: nat     // number of bytes present before this writer
    ghost var bits: seq<bit>   // everything written so far

    ghost predicate Valid()
      reads this
    {
      && start <= |data|
      && bp % 8 == |bits| % 8
      && Encodes(data[start..], bits)
    }

    constructor (out: seq<byte>)
      ensures Valid() && data == out && bits == [] && start == |out|
    {
      data := out;
      bp := 0;
      start := |out|;
      bits := [];
    }

    /** Writes the lowest bit of the value; the value should have no other. */
    method WriteBit(v: nat)
      requires Valid()
      modifies this
      ensures v < 2 ==> Valid()
      ensures Valid() <==> Low(v, 8 - |old(bits)| % 8) < 2
      ensures bits == old(bits) + [v % 2]
      ensures start <= |data| && data[..start] == old(data[..start])
    {
      hide Encodes, PutBit, Low;
      PutBitCorrect(data, start, bp, bits, v);
      WrapAround(bp, |bits|);
      data := PutBit(data, bp, v);
      bits := bits + [v % 2];
      bp := (bp + 1) % 256;
    }

    /** The least significant bit of the value goes first.  The value of a one-bit field
        is not masked: other bits of it spoil the stream exactly if they get into the
        byte. */
    method WriteBits(value: nat, nbits: nat)
      requires Valid()
      modifies this
      ensures nbits != 1 || value < 2 ==> Valid()
      ensures nbits == 1 ==> (Valid() <==> Low(value, 8 - |old(bits)| % 8) < 2)
      ensures bits == old(bits) + LsbBits(value, nbits)
      ensures start <= |data| && data[..start] == old(data[..start])
    {
      hide Low, Encodes;
      if nbits == 1 {
        WriteBit(value);
        OneBitField(value);
      } else {
        ghost var field := LsbBits(value, nbits);
        for i := 0 to nbits
          invariant Valid()
          invariant bits == old(bits) + field[..i]
          invariant data[..start] == old(data[..start])
        {
          NextBit(old(bits), field, i);
          WriteBit(Shr(value, i) % 2);
        }
        assert field[..nbits] == field;
      }
    }

    /** For Huffman codes: the most significant bit of the value goes first. */
    method WriteBitsReversed(value: nat, nbits: nat)
      requires Valid()
      modifies this
      ensures Valid()
      ensures bits == old(bits) + MsbBits(value, nbits)
      ensures data[..start] == old(data[..start])
    {
      hide Low, Encodes;
      ghost var field := MsbBits(value, nbits);
      for i := 0 to nbits
        invariant Valid()
        invariant bits == old(bits) + field[..i]
        invariant data[..start] == old(data[..start])
      {
        NextBit(old(bits), field, i);
        assert field[i] == Shr(value, nbits - 1 - i) % 2;
        WriteBit(Shr(value, nbits - 1 - i) % 2);
      }
      assert field[..nbits] == field;
    }
  }
}
