/** Decompressing what the compressor wrote gives the input back. */
module RoundTrip {
  import opened Bits
  import opened Outcomes
  import opened DeflateFormat
  import opened InflateSpec
  import opened ByteVectors
  import opened FormatDecodes
  import opened OutputLimit
  import opened Deflate
  import opened DeflateStream
  import opened Inflate

  /** Every output of the compressor decodes to the data it was made from, whatever
      follows it, unless these are larger than the limit. */
  lemma CompressedInflates(body: seq<byte>, rest: seq<byte>, bs: seq<Block>, data: seq<byte>, settings: Settings)
    requires Compressed(body, bs, data)
    ensures
      var r := InflateSpec.Inflate(body + rest, [], settings);
      if TooLarge(data, settings.maxOutputSize) then r == Failure(109) else r.Success? && r.value == data
  {
    hide Compressed, InflateFrom;
    InflatesWithoutLimit(body, rest, bs, data, settings.(maxOutputSize := 0));
    LimitCutsOff(body + rest, 0, [], settings);
  }

  lemma InflatesWithoutLimit(body: seq<byte>, rest: seq<byte>, bs: seq<Block>, data: seq<byte>, settings: Settings)
    requires Compressed(body, bs, data) && !TooLarge(data, settings.maxOutputSize)
    ensures
      var r := InflateSpec.Inflate(body + rest, [], settings);
      r.Success? && r.value == data
  {
    hide BytesBits, StreamBits, StreamPresent, StreamExpandable, ExpandStream, InflateFrom, ValidBlock;
    BytesBitsConcat(body, rest);
    var s, b := BytesBits(body + rest), StreamBits(bs, 0);
    assert s == b + Zeros(PadTo8(|b|)) + BytesBits(rest);
    assert s[0..|b|] == b;
    assert Proper(bs[|bs| - 1]);
    HereIsPresent(s, 0, bs);
    StreamDecodes(body + rest, 0, bs, [], settings);
  }

  lemma NothingInflates(out: seq<byte>, settings: Settings)
    ensures InflateSpec.Inflate([], out, settings) == Failure(52)
  {
  }

  /** What comes of compressing the input and decompressing the result: nothing is wrong
      if the encoder makes a stream and the input is within the decoder's limit.  The empty
      output for an empty input of type 0 is refused. */
  function RoundTripOutcome(input: seq<byte>, compress: CompressSettings, limit: nat): Outcome {
    if CompressOutcome(input, compress) != Returns(0) then CompressOutcome(input, compress)
    else if !HasStream(input, compress) then Returns(52)
    else if TooLarge(input, limit) then Returns(109)
    else Returns(0)
  }

  /** For every input, block type, window size and matching parameters and every limit of
      the decoder. */
  method DeflateThenInflate(input: seq<byte>, compress: CompressSettings, settings: Settings)
    returns (outcome: Outcome, result: seq<byte>)
    ensures outcome == RoundTripOutcome(input, compress, settings.maxOutputSize)
    ensures outcome == Returns(0) ==> result == input
  {
    hide Compressed, TooLarge, InflateFrom, WindowError, StoredBlocks, BlocksFor;
    var compressed := new ByteVector([]);
    result := [];
    ghost var bs;
    outcome, bs := Deflatev(compressed, input, compress);
    if outcome == Returns(0) {
      assert compressed.data[0..] == compressed.data;
      if HasStream(input, compress) {
        CompressedInflates(compressed.data, [], bs, input, settings);
        assert compressed.data + [] == compressed.data;
      } else {
        NothingInflates([], settings);
      }
      var out := new ByteVector([]);
      var error := Inflatev(out, compressed.data, settings);
      outcome := Returns(error);
      result := out.data;
    }
  }
}
