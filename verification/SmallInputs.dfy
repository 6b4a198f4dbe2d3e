/** What the shortest inputs inflate to: where the end of the input decides. */
module SmallInputs {
  import opened Bits
  import opened CanonicalCode
  import opened HuffmanTable
  import opened DeflateFormat
  import opened InflateSpec
  import opened FormatDecodes
  import opened FormatAccepted

  lemma {:induction false} NoneOfLength(lens: Lengths, l: nat, n: nat)
    requires n <= |lens| && forall i :: 0 <= i < n ==> lens[i] != l
    ensures Count(lens, l, n) == 0
  {
    if n > 0 {
      NoneOfLength(lens, l, n - 1);
    }
  }

  lemma {:induction false} FirstOfShortest(lens: Lengths, l: nat)
    requires forall i :: 0 <= i < |lens| ==> lens[i] >= l
    ensures NextCode(lens, l) == 0
  {
    if l > 1 {
      FirstOfShortest(lens, l - 1);
      NoneOfLength(lens, l - 1, |lens|);
    }
  }

  /** The end code of the fixed tree is seven zeros. */
  lemma FixedEndCode()
    ensures CodeBits(FixedLL(), ENDCODE) == Zeros(7)
  {
    FirstOfShortest(FixedLL(), 7);
    NoneOfLength(FixedLL(), 7, ENDCODE);
    BitsOfZero(7);
  }

  /** The header bits of the first block are the low bits of the first byte. */
  lemma FirstHeader(data: seq<byte>)
    requires data != []
    ensures Next(BytesBits(data), 0, 1) == data[0] % 2 && Next(BytesBits(data), 1, 2) == data[0] / 2 % 4
  {
    var s, x := BytesBits(data), data[0];
    assert s[0] == x % 2 && s[1] == x / 2 % 2 && s[2] == x / 2 / 2 % 2 by {
      assert Shr(x, 2) == Shr(x / 2, 1);
    }
    ValTwo(Slice(s, 1, 2));
    ValOne(Slice(s, 0, 1));
  }

  lemma ValOne(b: seq<bit>)
    requires |b| == 1
    ensures Val(b) == b[0]
  {
    assert b[1..] == [];
  }

  lemma ValTwo(b: seq<bit>)
    requires |b| == 2
    ensures Val(b) == b[0] + 2 * (b[1] as nat)
  {
    ValOne(b[1..]);
  }

  /** All that remains of a byte behind the block header is zeros exactly if the byte is
      less than 8. */
  lemma ZerosBehindHeader(x: byte)
    ensures Slice(BytesBits([x]), 3, 7) == Zeros(7) <==> x < 8
  {
    hide Val, LsbBits;
    var s := BytesBits([x]);
    BytesBitsOne(x);
    assert Pow2(3) == 8 && Pow2(8) == 256;
    ValOfSmall(x, 8);
    ValSplit(s, 3);
    ShrIsDiv(x, 3);
    var high, seven := s[3..], Slice(s, 3, 7);
    assert seven[..5] == high && seven[5..] == Zeros(2);
    ValZeros(5);
    if x < 8 {
      ValInjective(high, Zeros(5));
      assert seven == high + Zeros(2) == Zeros(7);
    }
    if seven == Zeros(7) {
      assert high == Zeros(5);
    }
  }

  /** One byte behind the header of a fixed block holds at most the end code. */
  lemma FixedByte(x: byte, out: seq<byte>, limit: nat)
    ensures
      var r := InflateTokens(FixedLL(), FixedD(), BytesBits([x]), 3, out, limit);
      if x < 8 then r == Success(10, out) else r.Failure?
  {
    hide FixedLL, FixedD, ValidTree, SymbolAt, CodeBits, LengthExtra, DistanceExtra, ReadDistance, BytesBits, Fits, Apply, Slice;
    var ll, s := FixedLL(), BytesBits([x]);
    ZerosBehindHeader(x);
    FixedEndCode();
    FixedLengths();
    if x < 8 {
      FixedTreesValid();
      SymbolAtUnique(ll, s, 3, ENDCODE);
    } else {
      var c := SymbolAt(ll, s, 3);
      if c != INVALIDSYMBOL {
        SymbolBits(ll, s, 3);
      }
      assert c != ENDCODE;
    }
  }

  lemma FixedLengths()
    ensures |FixedLL()| == 288 && FixedLL()[ENDCODE] == 7 && forall i :: 0 <= i < 288 ==> FixedLL()[i] >= 7
  {
  }

  /** Just one input of one byte inflates: the final fixed block with nothing in it, and
      the last two bits of its end code lie behind the input. */
  lemma OneByteInflates(x: byte, out: seq<byte>, settings: Settings)
    ensures
      var r := Inflate([x], out, settings);
      if x == 3 && !TooLarge(out, settings.maxOutputSize) then r == Success(10, out) else r.Failure?
  {
    hide InflateTokens, ReadTrees, TooLarge, BytesBits, Next;
    FirstHeader([x]);
    FixedByte(x, out, settings.maxOutputSize);
    TreesNeedMore([x]);
    assert InflateFrom([x], 10, out, settings) == Failure(52);
  }

  lemma TreesNeedMore(data: seq<byte>)
    requires |data| == 1
    ensures ReadTrees(BytesBits(data), 3).Failure?
  {
  }

  lemma EndCodePastTheEnd()
    ensures Inflate([3], [], Settings(false, 0)) == Success(10, [])
  {
    hide Inflate;
    OneByteInflates(3, [], Settings(false, 0));
  }

  /** An empty stored block is refused at the end of the input, and accepted with
      another byte behind it. */
  lemma EmptyStoredBlock(x: byte)
    ensures Inflate([1, 0, 0, 255, 255], [], Settings(false, 0)) == Failure(52)
    ensures Inflate([1, 0, 0, 255, 255, x], [], Settings(false, 0)) == Success(40, [])
  {
    EmptyStored([1, 0, 0, 255, 255], Settings(false, 0));
    EmptyStored([1, 0, 0, 255, 255, x], Settings(false, 0));
  }

  lemma EmptyStored(data: seq<byte>, settings: Settings)
    requires |data| >= 5 && data[..5] == [1, 0, 0, 255, 255]
    ensures Inflate(data, [], settings) == if |data| == 5 then Failure(52) else Success(40, [])
  {
    hide BytesBits, Next, InflateBlock;
    assert data[0] == 1 && data[1] == 0 && data[2] == 0 && data[3] == 255 && data[4] == 255 by {
      assert data[0] == data[..5][0] && data[1] == data[..5][1] && data[2] == data[..5][2];
      assert data[3] == data[..5][3] && data[4] == data[..5][4];
    }
    FirstHeader(data);
    EmptyStoredBody(data, settings);
  }

  lemma EmptyStoredBody(data: seq<byte>, settings: Settings)
    requires |data| >= 5 && data[1] == 0 && data[2] == 0 && data[3] == 255 && data[4] == 255
    ensures InflateBlock(data, 3, 0, [], settings) == if |data| == 5 then Failure(52) else Success(40, [])
  {
    hide BytesBits, Next, InflateHuffman;
    assert InflateStored(data, 3, [], settings.ignoreNlen) == if |data| == 5 then Failure(52) else Success(40, []);
  }
}
