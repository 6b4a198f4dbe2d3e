/** The program and RFC 1951: all streams of the standard are read, all streams written are
    of the standard, and what else is read shows in five ways. */
module Conformance {
  import opened Bits
  import opened CanonicalCode
  import opened DeflateFormat
  import opened InflateSpec
  import opened FormatDecodes
  import opened FormatAccepted
  import opened Rfc1951
  import opened StrictFormat
  import opened DeflateStream

  /** What is accepted means its output, and is a stream of the standard exactly if its
      blocks are strict. */
  lemma AcceptedExactly(data: seq<byte>, pos: nat, bs: seq<Block>, out: seq<byte>, settings: Settings, p: nat, v: seq<byte>)
    requires Reads(data, pos, bs, out, settings, p, v)
    ensures InflateFrom(data, pos, out, settings) == Success(p, v) && StreamMeans(out, bs, v)
    ensures RfcBits(bs, pos, Slice(DataBits(data), pos, p - pos)) <==> AllStrict(bs)
  {
    hide InflateFrom, StreamPresent, StreamBits, StreamExpandable, ExpandStream, Refused, TooLarge, AllStrict, BytesBits, DataBits,
         RfcBits, StreamMeans, Slice;
    DataBitsAre(data);
    InflatesExactly(data, pos, out, settings, p, v);
    PastTheEnd(data, pos, bs, out, settings, p, v);
    StreamExactly(bs, pos, StreamBits(bs, pos));
    StreamMeansExpand(out, bs, v);
  }

  /** All of a stream but its end code is in the input, it reaches back no farther than the
      output, and its output is within the limit. */
  ghost predicate Readable(data: seq<byte>, pos: nat, bs: seq<Block>, out: seq<byte>, settings: Settings)
    requires ValidStream(bs)
  {
    && StreamPresent(BytesBits(data), pos, bs)
    && StreamExpandable(out, bs) && !TooLarge(ExpandStream(out, bs), settings.maxOutputSize)
  }

  /** The end code of a stream of the standard may also go on past the end of the input. */
  lemma CutOffIsRead(data: seq<byte>, pos: nat, bs: seq<Block>, bits: seq<bit>, out: seq<byte>, settings: Settings)
    requires RfcBits(bs, pos, bits)
    ensures ValidStream(bs)
    ensures Readable(data, pos, bs, out, settings) ==>
      InflateFrom(data, pos, out, settings) ==
      if Refused(data, pos, bs) then Failure(52) else Success(pos + |bits|, ExpandStream(out, bs))
  {
    hide InflateFrom, StreamPresent, StreamBits, StreamExpandable, ExpandStream, Refused, TooLarge, RfcBits, BytesBits;
    StreamExactly(bs, pos, bits);
    StrictIsChecked(bs);
    if Readable(data, pos, bs, out, settings) {
      StreamDecodes(data, pos, bs, out, settings);
    }
  }

  /** The stream ends the input with a stored block of no bytes. */
  predicate EndsEmpty(data: seq<byte>, bs: seq<Block>, end: nat) {
    bs != [] && bs[|bs| - 1].Stored? && bs[|bs| - 1].data == [] && end == 8 * |data|
  }

  /** A stream of the standard, anywhere in the input, is read to its end and gives what it
      means, whatever the settings, except that an output above the limit and an empty
      stored block at the end of the input are refused. */
  lemma StandardIsRead(data: seq<byte>, pos: nat, bs: seq<Block>, bits: seq<bit>, out: seq<byte>, settings: Settings, v: seq<byte>)
    requires RfcBits(bs, pos, bits) && Here(DataBits(data), pos, bits) && StreamMeans(out, bs, v)
    requires settings.maxOutputSize == 0 || |v| <= settings.maxOutputSize
    ensures InflateFrom(data, pos, out, settings) ==
            if EndsEmpty(data, bs, pos + |bits|) then Failure(52) else Success(pos + |bits|, v)
  {
    hide InflateFrom, StreamPresent, StreamBits, StreamExpandable, ExpandStream, RfcBits, StreamMeans, BytesBits, DataBits, Here;
    DataBitsAre(data);
    StreamExactly(bs, pos, bits);
    StreamMeansExpand(out, bs, v);
    HereIsPresent(BytesBits(data), pos, bs);
    CutOffIsRead(data, pos, bs, bits, out, settings);
  }

  lemma StrictIsChecked(bs: seq<Block>)
    requires ValidStream(bs) && AllStrict(bs)
    ensures AllChecked(bs)
  {
    hide ValidBlock;
  }

  /** s is these bits, and zeros that fill the last byte. */
  predicate Filled(s: seq<bit>, bits: seq<bit>) {
    && |bits| <= |s| < |bits| + 8 && s[..|bits|] == bits
    && forall i :: |bits| <= i < |s| ==> s[i] == 0
  }

  /** What the compressor writes is a stream of the standard that means the data. */
  lemma CompressedIsStandard(body: seq<byte>, bs: seq<Block>, data: seq<byte>) returns (bits: seq<bit>)
    requires Compressed(body, bs, data)
    ensures RfcBits(bs, 0, bits) && StreamMeans([], bs, data)
    ensures Filled(DataBits(body), bits)
  {
    hide StreamBits, StreamExpandable, ExpandStream, ValidBlock, Strict, RfcBits, StreamMeans, BytesBits, DataBits;
    bits := StreamBits(bs, 0);
    assert forall i :: 0 <= i < |bs| ==> Proper(bs[i]);
    StreamExactly(bs, 0, bits);
    StreamMeansExpand([], bs, data);
    DataBitsAre(body);
  }

  // ----- Every stream has an input

  function BytesOf(s: seq<bit>): (data: seq<byte>) {
    if s == [] then []
    else if |s| < 8 then ByteBound(s); [Val(s)]
    else ByteBound(s[..8]); [Val(s[..8])] + BytesOf(s[8..])
  }

  lemma ByteBound(b: seq<bit>)
    requires |b| <= 8
    ensures Val(b) < 256
  {
    ValBound(b);
    Pow2Monotone(|b|, 8);
    assert Pow2(8) == 256;
  }

  lemma {:induction false} BytesOfHere(s: seq<bit>)
    ensures Here(BytesBits(BytesOf(s)), 0, s)
  {
    hide BytesBits, Val;
    var data := BytesOf(s);
    if s == [] {
    } else if |s| < 8 {
      ByteBound(s);
      ValZeros(8 - |s|);
      ValConcat(s, Zeros(8 - |s|));
      ShlZero(|s|);
      LsbBitsOfVal(s + Zeros(8 - |s|));
      BytesBitsOne(Val(s));
      assert BytesBits(data) == s + Zeros(8 - |s|);
    } else {
      var b := s[..8];
      ByteBound(b);
      LsbBitsOfVal(b);
      BytesBitsOne(Val(b));
      BytesOfHere(s[8..]);
      BytesBitsConcat([Val(b)], BytesOf(s[8..]));
      var rest := BytesBits(BytesOf(s[8..]));
      assert BytesBits(data) == b + rest && rest[..|s| - 8] == s[8..];
      assert (b + rest)[..|s|] == b + rest[..|s| - 8] == s;
    }
  }

  /** The input is read as this block alone. */
  ghost predicate ReadsBlock(data: seq<byte>, b: Block, settings: Settings)
    requires ValidBlock(b) && BlockExpandable([], b)
  {
    && Reads(data, 0, [b], [], settings, 3 + |BodyBits(b, 3)|, ExpandBlock([], b))
    && Inflate(data, [], settings) == Success(3 + |BodyBits(b, 3)|, ExpandBlock([], b))
  }

  ghost predicate Accepted(b: Block, settings: Settings) {
    ValidBlock(b) && BlockExpandable([], b) && exists data: seq<byte> :: ReadsBlock(data, b, settings)
  }

  lemma SomeInput(b: Block, settings: Settings)
    requires ValidBlock(b) && BlockExpandable([], b) && (settings.ignoreNlen || Checked(b)) && settings.maxOutputSize == 0
    ensures Accepted(b, settings)
  {
    hide ValidBlock, BlockExpandable, ExpandBlock, BodyBits, BytesBits, BlockPresent, Reads, Here, InflateFrom;
    var s := BlockBits(b, true, 0);
    var data := BytesOf(s) + [0];
    BytesOfHere(s);
    BytesBitsConcat(BytesOf(s), [0]);
    LongerHere(BytesBits(BytesOf(s)), BytesBits([0]), s);
    BlockIsPresent(BytesBits(data), 0, b, true);
    HereInside(BytesBits(BytesOf(s)), 0, s);
    NotAtEnd(b, 3 + |BodyBits(b, 3)|, data);
    assert !TooLarge(ExpandBlock([], b), settings.maxOutputSize);
    OneBlock(data, 0, b, [], settings);
    InflatesExactly(data, 0, [], settings, 3 + |BodyBits(b, 3)|, ExpandBlock([], b));
    assert ReadsBlock(data, b, settings);
  }

  lemma LongerHere(s: seq<bit>, t: seq<bit>, b: seq<bit>)
    requires Here(s, 0, b)
    ensures Here(s + t, 0, b)
  {
    assert (s + t)[..|b|] == s[..|b|];
  }

  // ----- What is read beyond the standard

  /** The standard has no bits for this block. */
  ghost predicate NotStandard(b: Block) {
    forall pos: nat, bits: seq<bit> :: !RfcBody(b, pos, bits)
  }

  lemma NeverStandard(b: Block)
    requires ValidBlock(b) ==> !Strict(b)
    ensures NotStandard(b)
  {
    hide RfcBody, ValidBlock, Strict;
    forall pos: nat, bits: seq<bit>
      ensures !RfcBody(b, pos, bits)
    {
      BlockExactly(b, pos, bits);
    }
  }

  lemma OddLengthIsRead()
    ensures
      var b := Fixed([Literal(0), Match(27, 31, 0, 0)]);
      NotStandard(b) && Accepted(b, Settings(false, 0)) && Length(b.ts[1]) == 258
  {
    hide FixedLL, FixedD, Accepted, CopyBack;
    var ts := [Literal(0), Match(27, 31, 0, 0)];
    Powers();
    FixedHasCodes(ts);
    assert OddLength(ts[1]);
    assert ts[1..][0] == ts[1] && ts[1..][1..] == [];
    assert Expandable(Apply([], ts[0]), ts[1..]) by {
      assert Expandable(Apply(Apply([], ts[0]), ts[1]), []);
    }
    NeverStandard(Fixed(ts));
    SomeInput(Fixed(ts), Settings(false, 0));
  }

  lemma WrongCheckIsRead()
    ensures var b := Stored([], 0, 0); NotStandard(b) && Accepted(b, Settings(true, 0))
  {
    hide Accepted;
    NeverStandard(Stored([], 0, 0));
    SomeInput(Stored([], 0, 0), Settings(true, 0));
  }

  lemma {:induction false} WidthSkip(lens: Lengths, i: nat, j: nat)
    requires i <= j <= |lens| && forall k :: i <= k < j ==> lens[k] == 0
    ensures WidthSum(lens, LONGEST, j) == WidthSum(lens, LONGEST, i)
  {
    if i < j {
      WidthSkip(lens, i, j - 1);
    }
  }

  lemma WidthStart(lens: Lengths)
    ensures WidthSum(lens, LONGEST, 0) == 0
  {
  }

  lemma WidthStep(lens: Lengths, i: nat)
    requires i < |lens| && lens[i] > 0
    ensures WidthSum(lens, LONGEST, i + 1) == WidthSum(lens, LONGEST, i) + Pow2(LONGEST - lens[i])
  {
  }

  lemma TwoOneBitCodes(lens: Lengths, a: nat, b: nat)
    requires a < b < |lens| && lens[a] == 1 && lens[b] == 1
    requires forall i :: 0 <= i < |lens| && i != a && i != b ==> lens[i] == 0
    ensures Complete(lens)
  {
    hide Kraft, WidthSum;
    WidthStart(lens);
    WidthSkip(lens, 0, a);
    WidthStep(lens, a);
    WidthSkip(lens, a + 1, b);
    WidthStep(lens, b);
    WidthSkip(lens, b + 1, |lens|);
    KraftIsSum(lens);
    assert Pow2(LONGEST) == 2 * Pow2(LONGEST - 1);
  }

  lemma OneAndTwoBits(lens: Lengths, a: nat, b: nat, c: nat)
    requires a < b < c < |lens| && lens[a] == 2 && lens[b] == 2 && lens[c] == 1
    requires forall i :: 0 <= i < |lens| && i != a && i != b && i != c ==> lens[i] == 0
    ensures Complete(lens)
  {
    hide Kraft, WidthSum;
    WidthStart(lens);
    WidthSkip(lens, 0, a);
    WidthStep(lens, a);
    WidthSkip(lens, a + 1, b);
    WidthStep(lens, b);
    WidthSkip(lens, b + 1, c);
    WidthStep(lens, c);
    WidthSkip(lens, c + 1, |lens|);
    KraftIsSum(lens);
    assert Pow2(LONGEST) == 2 * Pow2(LONGEST - 1) == 4 * Pow2(LONGEST - 2);
  }

  lemma ExpandStep(acc: Lengths, r: Run, rest: seq<Run>)
    requires ValidRun(r) && !r.Repeat? && RunsExpandable(ApplyRun(acc, r), rest)
    ensures RunsExpandable(acc, [r] + rest) && ExpandRuns(acc, [r] + rest) == ExpandRuns(ApplyRun(acc, r), rest)
  {
    assert ([r] + rest)[1..] == rest;
  }

  /** Codes for the run symbols a and b, which are 0, 1 or 2, and for long runs of zeros. */
  function RunCode(a: nat, b: nat): (cl: Lengths)
    requires a < b <= 2
    ensures |cl| == 19 && forall i :: 0 <= i < 19 ==> cl[i] == if i == a || i == b then 2 else if i == 18 then 1 else 0
  {
    seq(19, i => if i == a || i == b then 2 else if i == 18 then 1 else 0)
  }

  lemma RunCodeIsGood(a: nat, b: nat)
    requires a < b <= 2
    ensures Complete(RunCode(a, b)) && forall i :: 18 <= i < 19 ==> RunCode(a, b)[CLCL_ORDER[i]] == 0
  {
    OneAndTwoBits(RunCode(a, b), a, b, 18);
  }

  /** A block without tokens whose header has these runs. */
  function EmptyBlock(hlit: nat, cl: Lengths, rs: seq<Run>): Block {
    Dynamic(Header(hlit, 1, 18, cl, rs), [])
  }

  lemma EmptyBlockIsRead(hlit: nat, cl: Lengths, rs: seq<Run>, ll: Lengths, v: nat)
    requires 257 <= hlit <= 288 && |ll| == hlit && v <= LONGEST && |cl| == 19 && Complete(cl)
    requires (forall i :: 0 <= i < 19 ==> cl[i] <= 7) && cl[CLCL_ORDER[18]] == 0
    requires RunsCodable(cl, rs) && RunsExpandable([], rs) && ExpandRuns([], rs) == ll + [v]
    requires ValidTree(Pad(ll, 288)) && ll[ENDCODE] > 0
    ensures
      var b := EmptyBlock(hlit, cl, rs);
      ValidBlock(b) && HeaderLL(b.header) == Pad(ll, 288) && HeaderD(b.header) == Pad([v], 32) && Accepted(b, Settings(false, 0))
  {
    hide Kraft, RunsExpandable, ExpandRuns, RunsCodable, NumPresent, Accepted;
    var b := EmptyBlock(hlit, cl, rs);
    assert (ll + [v])[..hlit] == ll && (ll + [v])[hlit..] == [v];
    DistanceIsValid(v);
    SomeInput(b, Settings(false, 0));
  }

  lemma DistanceIsValid(v: nat)
    requires v <= LONGEST
    ensures ValidTree(Pad([v], 32)) && (v > 0 ==> Alone(Pad([v], 32), 0))
  {
    hide Kraft;
    var d := Pad([v], 32);
    if v == 0 {
      NoCodesPresent(d, 32);
    } else {
      AloneIsValid(d, 0);
    }
  }

  /** 287 literal and length codes. */
  lemma LongCodesAreRead() returns (b: Block)
    ensures b.Dynamic? && b.header.hlit == 287 && NotStandard(b) && Accepted(b, Settings(false, 0))
  {
    hide Complete, Accepted, ValidTree, RunsExpandable, ExpandRuns, ValidBlock;
    var x, y, z: Lengths := seq(138, _ => 0), seq(118, _ => 0), seq(29, _ => 0);
    var ll: Lengths := x + y + [1] + z + [1];
    var cl := RunCode(0, 1);
    var rs := [ZeroRun(138), ZeroRun(118), Len(1), ZeroRun(29), Len(1), Len(0)];
    ExpandSix(x, y, z);
    RunCodeIsGood(0, 1);
    TwoOneBitCodes(Pad(ll, 288), 256, 286);
    CompleteIsValid(Pad(ll, 288));
    EmptyBlockIsRead(287, cl, rs, ll, 0);
    b := EmptyBlock(287, cl, rs);
    NeverStandard(b);
  }

  lemma ExpandSix(x: Lengths, y: Lengths, z: Lengths)
    requires x == seq(138, _ => 0) && y == seq(118, _ => 0) && z == seq(29, _ => 0)
    ensures
      var rs := [ZeroRun(138), ZeroRun(118), Len(1), ZeroRun(29), Len(1), Len(0)];
      RunsExpandable([], rs) && ExpandRuns([], rs) == x + y + [1] + z + [1] + [0]
  {
    var a: Lengths := x + y + [1];
    assert [] + x == x;
    assert RunsExpandable(a + z + [1] + [0], []);
    ExpandStep(a + z + [1], Len(0), []);
    ExpandStep(a + z, Len(1), [Len(0)]);
    ExpandStep(a, ZeroRun(29), [Len(1), Len(0)]);
    ExpandStep(x + y, Len(1), [ZeroRun(29), Len(1), Len(0)]);
    ExpandStep(x, ZeroRun(118), [Len(1), ZeroRun(29), Len(1), Len(0)]);
    ExpandStep([], ZeroRun(138), [ZeroRun(118), Len(1), ZeroRun(29), Len(1), Len(0)]);
  }

  /** A tree that has the end code only. */
  lemma EndAloneIsRead() returns (b: Block)
    ensures b.Dynamic? && ValidBlock(b) && Alone(HeaderLL(b.header), ENDCODE) && NotStandard(b) && Accepted(b, Settings(false, 0))
  {
    hide Complete, Accepted, ValidTree, RunsExpandable, ExpandRuns, ValidBlock;
    var x, y: Lengths := seq(138, _ => 0), seq(118, _ => 0);
    var ll: Lengths := x + y + [1];
    var cl := RunCode(0, 1);
    var rs := [ZeroRun(138), ZeroRun(118), Len(1), Len(0)];
    ExpandFour(x, y);
    RunCodeIsGood(0, 1);
    AloneIsValid(Pad(ll, 288), ENDCODE);
    EmptyBlockIsRead(257, cl, rs, ll, 0);
    b := EmptyBlock(257, cl, rs);
    NeverStandard(b);
  }

  lemma ExpandFour(x: Lengths, y: Lengths)
    requires x == seq(138, _ => 0) && y == seq(118, _ => 0)
    ensures
      var rs := [ZeroRun(138), ZeroRun(118), Len(1), Len(0)];
      RunsExpandable([], rs) && ExpandRuns([], rs) == x + y + [1] + [0]
  {
    assert [] + x == x;
    assert RunsExpandable(x + y + [1] + [0], []);
    ExpandStep(x + y + [1], Len(0), []);
    ExpandStep(x + y, Len(1), [Len(0)]);
    ExpandStep(x, ZeroRun(118), [Len(1), Len(0)]);
    ExpandStep([], ZeroRun(138), [ZeroRun(118), Len(1), Len(0)]);
  }

  /** A single distance code of two bits. */
  lemma LoneDistanceIsRead() returns (b: Block)
    ensures b.Dynamic? && ValidBlock(b) && LoneLong(HeaderD(b.header)) && NotStandard(b) && Accepted(b, Settings(false, 0))
  {
    hide Complete, Accepted, ValidTree, RunsExpandable, ExpandRuns, ValidBlock;
    var x, y: Lengths := seq(138, _ => 0), seq(117, _ => 0);
    var ll: Lengths := [1] + x + y + [1];
    var cl := RunCode(1, 2);
    var rs := [Len(1), ZeroRun(138), ZeroRun(117), Len(1), Len(2)];
    ExpandFive(x, y);
    RunCodeIsGood(1, 2);
    TwoOneBitCodes(Pad(ll, 288), 0, 256);
    CompleteIsValid(Pad(ll, 288));
    DistanceIsValid(2);
    EmptyBlockIsRead(257, cl, rs, ll, 2);
    b := EmptyBlock(257, cl, rs);
    assert Pad([2], 32)[0] == 2;
    NeverStandard(b);
  }

  lemma ExpandFive(x: Lengths, y: Lengths)
    requires x == seq(138, _ => 0) && y == seq(117, _ => 0)
    ensures
      var rs := [Len(1), ZeroRun(138), ZeroRun(117), Len(1), Len(2)];
      RunsExpandable([], rs) && ExpandRuns([], rs) == [1] + x + y + [1] + [2]
  {
    var a: Lengths := [1];
    assert [] + a == a;
    assert RunsExpandable(a + x + y + [1] + [2], []);
    ExpandStep(a + x + y + [1], Len(2), []);
    ExpandStep(a + x + y, Len(1), [Len(2)]);
    ExpandStep(a + x, ZeroRun(117), [Len(1), Len(2)]);
    ExpandStep(a, ZeroRun(138), [ZeroRun(117), Len(1), Len(2)]);
    ExpandStep([], Len(1), [ZeroRun(138), ZeroRun(117), Len(1), Len(2)]);
  }
}
