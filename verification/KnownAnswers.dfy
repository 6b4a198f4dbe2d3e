/** Codes and streams whose values RFC 1951 lists or that are worked out bit by bit. */
module KnownAnswers {
  import opened Bits
  import opened CanonicalCode
  import opened DeflateFormat
  import opened InflateSpec
  import opened Rfc1951
  import opened StrictFormat
  import opened Conformance

  // ----- Codes

  /** What symbols of the same length v take, none of which lies on both sides of n. */
  lemma {:induction false} TakenRange(lens: Lengths, l: nat, n: nat, i: nat, j: nat, v: nat)
    requires i <= j <= |lens| && (j <= n || n <= i)
    requires forall k :: i <= k < j ==> lens[k] == v
    ensures Taken(lens, l, n, j) ==
            Taken(lens, l, n, i) + if 0 < v < l || (v == l && j <= n) then (j - i) * Pow2(l - v) else 0
    decreases j - i
  {
    hide Pow2;
    if i < j {
      TakenRange(lens, l, n, i, j - 1, v);
      assert lens[j - 1] == v;
      if 0 < v <= l {
        var c := Pow2(l - v);
        assert (j - i) * c == (j - 1 - i) * c + c;
      }
    }
  }

  function Clamp(n: nat, low: nat, high: nat): (m: nat)
    requires low <= high
    ensures low <= m <= high
  {
    if n < low then low else if n > high then high else n
  }

  lemma TakenAround(lens: Lengths, l: nat, n: nat, i: nat, j: nat, v: nat)
    requires i <= j <= |lens| && v > 0 && l > 0 && forall k :: i <= k < j ==> lens[k] == v
    ensures Taken(lens, l, n, j) ==
            Taken(lens, l, n, i)
            + if v < l then (j - i) * Pow2(l - v) else if v == l then Clamp(n, i, j) - i else 0
  {
    assert Pow2(0) == 1;
    hide Taken, Pow2;
    var m := Clamp(n, i, j);
    TakenRange(lens, l, n, i, m, v);
    TakenRange(lens, l, n, m, j, v);
    if v < l {
      var c := Pow2(l - v);
      assert (m - i) * c + (j - m) * c == (j - i) * c;
    } else if v == l {
      assert Pow2(l - v) == 1;
    }
  }

  lemma NothingTaken(lens: Lengths, l: nat, n: nat)
    ensures Taken(lens, l, n, 0) == 0
  {
  }

  /** The fixed codes as section 3.2.6 lists them. */
  function FixedCode(n: nat): nat
    requires n < 288
  {
    if n < 144 then 48 + n else if n < 256 then 400 + (n - 144) else if n < 280 then n - 256 else 192 + (n - 280)
  }

  function FixedLength(n: nat): nat
    requires n < 288
  {
    if n < 144 then 8 else if n < 256 then 9 else if n < 280 then 7 else 8
  }

  lemma FixedCodesAre(n: nat)
    requires n < 288
    ensures CodeBits(FixedLL(), n) == CodeField(FixedCode(n), FixedLength(n))
  {
    FixedTreesAre();
    FixedTaken(RfcFixedLL(), n);
    hide CodeField, Taken;
    CodeOfIs(RfcFixedLL(), n);
  }

  lemma FixedTaken(lens: Lengths, n: nat)
    requires n < 288 && |lens| == 288 && forall i :: 0 <= i < 288 ==> lens[i] == FixedLength(i)
    ensures Taken(lens, FixedLength(n), n, 288) == FixedCode(n)
  {
    assert Pow2(1) == 2 && Pow2(2) == 4;
    hide Taken, Pow2;
    var l := FixedLength(n);
    NothingTaken(lens, l, n);
    TakenAround(lens, l, n, 0, 144, 8);
    TakenAround(lens, l, n, 144, 256, 9);
    TakenAround(lens, l, n, 256, 280, 7);
    TakenAround(lens, l, n, 280, 288, 8);
  }

  /** The example of section 3.2.2: codes for the letters A to H. */
  const LETTERS: Lengths := [3, 3, 3, 3, 3, 2, 4, 4]

  function LetterCode(n: nat): nat
    requires n < 8
  {
    if n < 5 then 2 + n else if n == 5 then 0 else 8 + n
  }

  lemma LettersAre(n: nat)
    requires n < 8
    ensures CodeBits(LETTERS, n) == CodeField(LetterCode(n), LETTERS[n])
  {
    LetterTaken(n);
    hide CodeField, Taken;
    CodeOfIs(LETTERS, n);
  }

  lemma LetterTaken(n: nat)
    requires n < 8
    ensures Taken(LETTERS, LETTERS[n], n, 8) == LetterCode(n)
  {
    assert Pow2(1) == 2 && Pow2(2) == 4;
    hide Taken, Pow2;
    var l := LETTERS[n];
    NothingTaken(LETTERS, l, n);
    TakenAround(LETTERS, l, n, 0, 5, 3);
    TakenAround(LETTERS, l, n, 5, 6, 2);
    TakenAround(LETTERS, l, n, 6, 8, 4);
  }

  // ----- Streams

  lemma StoredByteIsRead(settings: Settings)
    requires settings.maxOutputSize == 0
    ensures InflateFrom([1, 1, 0, 254, 255, 65], 0, [], settings) == Success(48, [65])
  {
    hide InflateFrom, DataBits, Field;
    var data: seq<byte> := [1, 1, 0, 254, 255, 65];
    var bs := [Stored([65], 0, 65534)];
    var body := Field(0, 5) + Field(1, 16) + Field(65534, 16) + DataBits([65]);
    var bits := Field(1, 1) + Field(0, 2) + body + [];
    StoredBits(bits);
    assert RfcBody(bs[0], 3, body);
    assert FirstBlock(bs, 0, bits, body, []);
    assert BlockMeans([], bs[0], [65]) && StreamMeans([65], bs[1..], [65]);
    StandardIsRead(data, 0, bs, bits, [], settings, [65]);
  }

  lemma StoredBits(bits: seq<bit>)
    requires bits == Field(1, 1) + Field(0, 2) + (Field(0, 5) + Field(1, 16) + Field(65534, 16) + DataBits([65])) + []
    ensures bits == DataBits([1, 1, 0, 254, 255, 65])
  {
    hide Field;
    FirstByte();
    WordOne();
    WordInverted();
  }

  lemma FirstByte()
    ensures Field(1, 1) + Field(0, 2) + Field(0, 5) == Field(1, 8)
  {
    Powers();
  }

  lemma WordOne()
    ensures Field(1, 16) == Field(1, 8) + Field(0, 8)
  {
    Powers();
    assert Pow2(14) == 16384 && Pow2(15) == 32768;
  }

  lemma WordInverted()
    ensures Field(65534, 16) == Field(254, 8) + Field(255, 8)
  {
    Powers();
    assert Pow2(14) == 16384 && Pow2(15) == 32768;
  }

  /** A literal and a match of length 9 at distance 1, in a block with fixed codes. */
  lemma TenLettersAreRead(settings: Settings)
    requires settings.maxOutputSize == 0
    ensures InflateFrom([75, 132, 3, 0], 0, [], settings) == Success(30, [97] + seq(9, _ => 97))
  {
    hide InflateFrom, HasCodes, RfcTokensBits, TokenMeans, DataBits, Field, RfcFixedLL, RfcFixedD;
    var data: seq<byte> := [75, 132, 3, 0];
    var ts := [Literal(97), Match(6, 0, 0, 0)];
    var bs := [Fixed(ts)];
    FixedMatch();
    var body := RfcTokensBits(RfcFixedLL(), RfcFixedD(), ts);
    var bits := Field(1, 1) + Field(1, 2) + body + [];
    TenBits();
    assert RfcBody(bs[0], 3, body);
    assert FirstBlock(bs, 0, bits, body, []);
    TenMean();
    assert BlockMeans([], bs[0], [97] + seq(9, _ => 97)) && StreamMeans([97] + seq(9, _ => 97), bs[1..], [97] + seq(9, _ => 97));
    StandardIsRead(data, 0, bs, bits, [], settings, [97] + seq(9, _ => 97));
  }

  lemma FixedMatch()
    ensures
      var ts := [Literal(97), Match(6, 0, 0, 0)];
      && HasCodes(RfcFixedLL(), RfcFixedD(), ts)
      && RfcTokensBits(RfcFixedLL(), RfcFixedD(), ts)
         == CodeField(145, 8) + (CodeField(7, 7) + [] + CodeField(0, 5) + []) + CodeField(0, 7)
  {
    var ts := [Literal(97), Match(6, 0, 0, 0)];
    var ll, d := RfcFixedLL(), RfcFixedD();
    assert HasCodes(ll, d, ts);
    FixedTaken(ll, 97);
    FixedTaken(ll, 263);
    FixedTaken(ll, 256);
    NothingTaken(d, 5, 0);
    TakenRange(d, 5, 0, 0, 32, 5);
    hide CodeField, RfcFixedLL, RfcFixedD, Taken, HasCodes;
    assert Field(0, 0) == [];
    assert ts[1..] == [ts[1]] && ts[1..][1..] == [];
    assert RfcTokensBits(ll, d, []) == CodeField(0, 7);
    assert RfcTokensBits(ll, d, ts[1..]) == (CodeField(7, 7) + [] + CodeField(0, 5) + []) + CodeField(0, 7);
  }

  lemma TenBits()
    ensures
      var bits := Field(1, 1) + Field(1, 2) + (CodeField(145, 8) + (CodeField(7, 7) + [] + CodeField(0, 5) + []) + CodeField(0, 7)) + [];
      |bits| == 30 && Here(DataBits([75, 132, 3, 0]), 0, bits)
  {
    FirstBits();
    LaterBits();
    hide Field, CodeField;
    DataBitsOne(75);
  }

  lemma FirstBits()
    ensures Field(1, 1) == [1] && Field(1, 2) == [1, 0]
    ensures CodeField(145, 8) == [1, 0, 0, 1, 0, 0, 0, 1] && CodeField(7, 7) == [0, 0, 0, 0, 1, 1, 1]
    ensures CodeField(0, 5) == [0, 0, 0, 0, 0] && CodeField(0, 7) == [0, 0, 0, 0, 0, 0, 0]
  {
    Powers();
  }

  lemma LaterBits()
    ensures Field(75, 8) == [1, 1, 0, 1, 0, 0, 1, 0] && Field(132, 8) == [0, 0, 1, 0, 0, 0, 0, 1]
    ensures Field(3, 8) == [1, 1, 0, 0, 0, 0, 0, 0] && Field(0, 8) == [0, 0, 0, 0, 0, 0, 0, 0]
  {
    Powers();
  }

  lemma DataBitsOne(b: byte)
    ensures DataBits([b]) == Field(b, 8)
  {
  }

  lemma TenMean()
    ensures TokensMean([], [Literal(97), Match(6, 0, 0, 0)], [97] + seq(9, _ => 97))
  {
    var ts := [Literal(97), Match(6, 0, 0, 0)];
    var v: seq<byte> := [97] + seq(9, _ => 97);
    assert TokenMeans([], ts[0], [97]);
    assert TokenMeans([97], ts[1], v);
    assert TokensMean(v, ts[1..][1..], v);
    assert TokensMean([97], ts[1..], v);
  }
}
