/** The zlib container of RFC 1950 around a deflate stream. */
module Zlib {
  import opened Bits
  import opened Outcomes
  import opened DeflateFormat
  import opened InflateSpec
  import opened ByteVectors
  import opened SmallInputs
  import opened Deflate
  import opened DeflateStream
  import opened Inflate
  import opened RoundTrip
  import opened Adler32
  import Rfc1950
  import Rfc1951
  import Conformance

  // ----- 32-bit integers, most significant byte first

  function Read32(b: seq<byte>): (v: nat)
    requires |b| == 4
    ensures v < WORD
  {
    65536 * Word16(b[1], b[0]) + Word16(b[3], b[2])
  }

  function Bytes32(v: nat): (b: seq<byte>)
    ensures |b| == 4
  {
    [v / 0x1000000 % 256, v / 0x10000 % 256, v / 0x100 % 256, v % 256]
  }

  lemma ReadBytes32(v: nat)
    requires v < WORD
    ensures Read32(Bytes32(v)) == v
  {
    var a, b, c := v / 0x1000000, v / 0x10000, v / 0x100;
    assert v == 0x100 * c + v % 0x100;
    assert c / 0x100 == b && b / 0x100 == a;
    assert c == 0x100 * b + c % 0x100 && b == 0x100 * a + b % 0x100;
    assert a < 0x100 && a % 0x100 == a;
  }

  // ----- Decompression

  /** The first check the two header bytes fail: size, divisibility by 31, method
      and window, preset dictionary. */
  function HeaderError(input: seq<byte>): nat {
    if |input| < 2 then 53
    else if Word16(input[1], input[0]) % 31 != 0 then 24
    else if input[0] % 16 != 8 || input[0] / 16 > 7 then 25
    else if input[1] / 32 % 2 != 0 then 26
    else 0
  }

  /** The two bytes pass exactly if they are a header of RFC 1950. */
  lemma HeaderExactly(input: seq<byte>)
    ensures HeaderError(input) == 0 <==> |input| >= 2 && Rfc1950.GoodHeader(input[0], input[1])
  {
    if |input| >= 2 {
      var x, y := input[0], input[1];
      if HeaderError(input) == 0 {
        assert Rfc1950.IsHeader(x, y, x / 16, y / 64, y % 32);
      }
    }
  }

  lemma Read32Conforms(b: seq<byte>)
    requires |b| == 4
    ensures Rfc1950.IsTrailer(b, Read32(b))
  {
  }

  lemma HeaderFields(x: byte)
    ensures BitAnd(x, 15) == x % 16
    ensures BitAnd(Shr(x, 4), 15) == x / 16
    ensures BitAnd(Shr(x, 5), 1) == x / 32 % 2
  {
    hide BitAnd, Shr, Low;
    assert Pow2(4) == 16 && Pow2(1) == 2 && Pow2(5) == 32;
    AndMask(x, 4);
    AndMask(Shr(x, 4), 4);
    AndMask(Shr(x, 5), 1);
    ShrIsDiv(x, 4);
    ShrIsDiv(x, 5);
    ShrIsDiv(Shr(x, 4), 4);
    ShrIsDiv(Shr(x, 5), 1);
  }

  datatype ZlibSettings = ZlibSettings(inflate: Settings, ignoreAdler32: bool)

  /** The checksum is read before the first byte of the input for just one input behind a
      good header; its stream is the shortest one there is. */
  predicate ChecksumBefore(input: seq<byte>, out: seq<byte>, settings: ZlibSettings) {
    && HeaderError(input) == 0 && |input| == 3 && input[2] == 3
    && !settings.ignoreAdler32 && !TooLarge(out, settings.inflate.maxOutputSize)
  }

  predicate BadChecksum(input: seq<byte>, data: seq<byte>) {
    |input| >= 4 && Adler(1, data) != Read32(input[|input| - 4..])
  }

  method ZlibDecompressv(out: ByteVector, input: seq<byte>, settings: ZlibSettings) returns (outcome: Outcome)
    modifies out
    ensures HeaderError(input) != 0 ==> outcome == Returns(HeaderError(input))
    ensures HeaderError(input) == 0 ==>
      match InflateSpec.Inflate(input[2..], old(out.data), settings.inflate)
      case Failure(e) => outcome == Returns(e)
      case Success(_, data) =>
        && out.data == data
        && outcome == if ChecksumBefore(input, old(out.data), settings) then Undefined
                      else Returns(if !settings.ignoreAdler32 && BadChecksum(input, data) then 58 else 0)
    ensures outcome.Undefined? <==> ChecksumBefore(input, old(out.data), settings)
  {
    hide InflateFrom, Adler, TooLarge, BitAnd, Shr, Read32;
    if |input| < 2 {
      return Returns(53);
    }
    if Word16(input[1], input[0]) % 31 != 0 {
      return Returns(24);
    }
    HeaderFields(input[0]);
    HeaderFields(input[1]);
    var cm, cinfo, fdict := BitAnd(input[0], 15), BitAnd(Shr(input[0], 4), 15), BitAnd(Shr(input[1], 5), 1);
    if cm != 8 || cinfo > 7 {
      return Returns(25);
    }
    if fdict != 0 {
      return Returns(26);
    }
    if |input| < 4 {
      BodyOfShortInput(input, out.data, settings.inflate);
    }
    var error := Inflatev(out, input[2..], settings.inflate);
    if error != 0 {
      return Returns(error);
    }
    if !settings.ignoreAdler32 {
      if |input| < 4 {
        return Undefined;
      }
      var adler := Read32(input[|input| - 4..]);
      var checksum := UpdateAdler32(1, out.data);
      if checksum != adler {
        return Returns(58);
      }
    }
    return Returns(0);
  }

  lemma BodyOfShortInput(input: seq<byte>, out: seq<byte>, settings: Settings)
    requires 2 <= |input| < 4
    ensures InflateSpec.Inflate(input[2..], out, settings).Success? <==>
      |input| == 3 && input[2] == 3 && !TooLarge(out, settings.maxOutputSize)
  {
    hide InflateFrom, TooLarge;
    if |input| == 2 {
      NothingInflates(out, settings);
      assert input[2..] == [];
    } else {
      OneByteInflates(input[2], out, settings);
      assert input[2..] == [input[2]];
    }
  }

  lemma ChecksumBeforeInput()
    ensures ChecksumBefore([0x78, 0x01, 0x03], [], ZlibSettings(Settings(false, 0), false))
  {
  }

  // ----- Compression

  /** Header bytes, deflate stream, checksum of the data. */
  ghost predicate ZlibStream(z: seq<byte>, bs: seq<Block>, data: seq<byte>) {
    && |z| >= 6
    && z[0] % 16 == 8 && z[0] / 16 == 7                        // deflate, window of 32768
    && Word16(z[1], z[0]) % 31 == 0 && z[1] / 32 % 2 == 0     // check bits, no dictionary
    && Compressed(z[2..|z| - 4], bs, data)
    && z[|z| - 4..] == Bytes32(Adler(1, data))
  }

  /** The empty input has no blocks of type 0: header and checksum only. */
  method ZlibCompress(input: seq<byte>, settings: CompressSettings) returns (outcome: Outcome, out: seq<byte>, ghost bs: seq<Block>)
    ensures outcome == CompressOutcome(input, settings)
    ensures HasStream(input, settings) ==> ZlibStream(out, bs, input) && out[..2] == [0x78, 0x01]
    ensures !HasStream(input, settings) ==> out == if outcome == Returns(0) then [0x78, 0x01, 0, 0, 0, 1] else []
  {
    hide Compressed, WindowError, Adler, StoredBlocks, BlocksFor;
    var deflated := new ByteVector([]);
    outcome, bs := Deflatev(deflated, input, settings);
    out := [];
    if outcome == Returns(0) {
      var adler := UpdateAdler32(1, input);
      var cmf: nat, flevel: nat, fdict: nat := 120, 0, 0;
      var cmfflg := 256 * cmf + fdict * 32 + flevel * 64;
      var fcheck := 31 - cmfflg % 31;
      cmfflg := cmfflg + fcheck;
      assert cmfflg == 30721;
      var body := deflated.data;
      assert body[0..] == body;
      out := [cmfflg / 256, cmfflg % 256] + body + Bytes32(adler);
      assert out[2..|out| - 4] == body && out[|out| - 4..] == Bytes32(adler);
      AdlerOfNothing();
    }
  }

  // ----- Round trip

  /** The decoder accepts every such stream, checksum included. */
  lemma ZlibStreamInflates(z: seq<byte>, bs: seq<Block>, data: seq<byte>, settings: Settings)
    requires ZlibStream(z, bs, data)
    ensures HeaderError(z) == 0
    ensures
      var r := InflateSpec.Inflate(z[2..], [], settings);
      if TooLarge(data, settings.maxOutputSize) then r == Failure(109) else r.Success? && r.value == data
    ensures Read32(z[|z| - 4..]) == Adler(1, data)
  {
    hide Compressed, InflateFrom, TooLarge, Adler;
    CompressedInflates(z[2..|z| - 4], z[|z| - 4..], bs, data, settings);
    assert z[2..] == z[2..|z| - 4] + z[|z| - 4..];
    AdlerBound(data);
    ReadBytes32(Adler(1, data));
  }

  /** Such a stream is what the standards ask for: the header of RFC 1950, a stream of RFC
      1951 that means the data, and their checksum. */
  lemma ZlibConforms(z: seq<byte>, bs: seq<Block>, data: seq<byte>) returns (bits: seq<bit>, v: nat)
    requires ZlibStream(z, bs, data)
    ensures Rfc1950.GoodHeader(z[0], z[1])
    ensures Rfc1951.RfcBits(bs, 0, bits) && Rfc1951.StreamMeans([], bs, data)
    ensures Conformance.Filled(Rfc1951.DataBits(z[2..|z| - 4]), bits)
    ensures Rfc1950.IsTrailer(z[|z| - 4..], v) && Rfc1950.IsAdler(data, v)
  {
    hide Compressed, Adler, InflateFrom, TooLarge, Bytes32, Rfc1950.GoodHeader, Rfc1950.IsAdler, Rfc1950.IsTrailer;
    HeaderExactly(z);
    bits := Conformance.CompressedIsStandard(z[2..|z| - 4], bs, data);
    v := Adler(1, data);
    AdlerConforms(data);
    ZlibStreamInflates(z, bs, data, Settings(false, 0));
    Read32Conforms(z[|z| - 4..]);
  }

  lemma AdlerOfNothing()
    ensures Adler(1, []) == 1
  {
  }

  lemma AdlerBound(data: seq<byte>)
    ensures Adler(1, data) < WORD
  {
    hide ByteSum, RunningSum, Mod;
  }

  method ZlibCompressThenDecompress(input: seq<byte>, compress: CompressSettings, settings: ZlibSettings)
    returns (outcome: Outcome, result: seq<byte>)
    ensures outcome == RoundTripOutcome(input, compress, settings.inflate.maxOutputSize)
    ensures outcome == Returns(0) ==> result == input
  {
    hide ZlibStream, TooLarge, Adler, WindowError, InflateFrom;
    var z;
    ghost var bs;
    result := [];
    outcome, z, bs := ZlibCompress(input, compress);
    if outcome == Returns(0) {
      if HasStream(input, compress) {
        ZlibStreamInflates(z, bs, input, settings.inflate);
        ZlibSize(z, bs, input);
      } else {
        ChecksumAlone(settings.inflate);
      }
      var out := new ByteVector([]);
      outcome := ZlibDecompressv(out, z, settings);
      result := out.data;
    }
  }

  /** The checksum of nothing is no stream: its first byte starts a stored block with no
      room for its length. */
  lemma ChecksumAlone(settings: Settings)
    ensures
      var z := [0x78, 0x01, 0, 0, 0, 1];
      HeaderError(z) == 0 && InflateSpec.Inflate(z[2..], [], settings) == Failure(52)
  {
    hide BytesBits, Next, InflateHuffman;
    var z := [0x78, 0x01, 0, 0, 0, 1];
    assert z[2..] == [0, 0, 0, 1];
    FirstHeader([0, 0, 0, 1]);
  }

  lemma ZlibSize(z: seq<byte>, bs: seq<Block>, data: seq<byte>)
    requires ZlibStream(z, bs, data)
    ensures |z| >= 6
  {
  }
}
