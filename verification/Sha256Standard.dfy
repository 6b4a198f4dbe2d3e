/** The digest of the hasher is the digest of FIPS 180-4. */
module Sha256Standard {
  import opened Bits
  import opened Sha256Words
  import opened Sha256
  import opened Sha256Conforms
  import opened Sha256Constants
  import opened PrimeList
  import Fips180

  /** The state before each block and after the last one. */
  function States(h: seq<word>, data: seq<byte>): (hs: seq<seq<nat>>)
    requires |h| == 8
    ensures |hs| == |data| / 64 + 1 && hs[0] == h
    decreases |data|
  {
    if |data| < 64 then [h] else [h] + States(Compress(h, data[..64]), data[64..])
  }

  lemma {:induction false} StatesChain(h: seq<word>, data: seq<byte>)
    requires |h| == 8
    ensures |K| == 64 && Fips180.Chain(K, data, States(h, data))
    ensures States(h, data)[|data| / 64] == Absorb(h, data)
    decreases |data|
  {
    hide Compress, Fips180.Hashes, K;
    SixtyFour();
    var hs := States(h, data);
    if |data| >= 64 {
      var next, more := Compress(h, data[..64]), data[64..];
      StatesChain(next, more);
      CompressConforms(h, data[..64]);
      assert data[64 * 0..64 * 0 + 64] == data[..64];
      forall i | 0 <= i < |hs|
        ensures |hs[i]| == 8
      {
        assert i > 0 ==> hs[i] == States(next, more)[i - 1];
      }
      forall i | 0 <= i < |hs| - 1
        ensures Fips180.Hashes(K, hs[i], data[64 * i..64 * i + 64], hs[i + 1])
      {
        if i > 0 {
          assert more[64 * (i - 1)..64 * (i - 1) + 64] == data[64 * i..64 * i + 64];
          assert hs[i] == States(next, more)[i - 1] && hs[i + 1] == States(next, more)[i];
        }
      }
    }
  }

  lemma {:induction false} BigEndianOf(v: nat, n: nat)
    ensures Fips180.BigEndian(BigEndianBytes(v, n)) == v % Power256(n)
    decreases n
  {
    hide Times;
    if n > 0 {
      var b := BigEndianBytes(v / 256, n - 1);
      BytesNext(v, n);
      assert (b + [v % 256])[..n - 1] == b;
      BigEndianOf(v / 256, n - 1);
      ByteMod(v, Power256(n - 1));
    }
  }

  function Power256(n: nat): (p: nat)
    ensures p > 0
  {
    if n == 0 then 1 else 256 * Power256(n - 1)
  }

  lemma ByteMod(v: nat, b: nat)
    requires b > 0
    ensures v % (256 * b) == v % 256 + 256 * (v / 256 % b)
  {
    hide Times;
    var q, r := v / 256 / b, v / 256 % b;
    DivTimes(v / 256, b);
    TimesAssociate(q, 256, b);
    TimesAssociate(256, q, b);
    TimesSwap(q, 256);
    TimesIs(256, b);
    TimesIs(256, Times(q, b));
    TimesUnique(v, q, v % 256 + 256 * r, 256 * b);
  }

  lemma PaddingConforms(msg: seq<byte>)
    ensures Fips180.IsPadding(msg, Padded(msg))
  {
    hide BigEndianBytes, Fips180.BigEndian;
    var p, len := Padded(msg), BigEndianBytes(8 * |msg|, 8);
    var n := PadZeros(|msg|);
    assert |p| == |msg| + 1 + n + 8;
    assert p[..|msg|] == msg && p[|msg|] == 0x80 && p[|p| - 8..] == len;
    forall i | |msg| < i < |p| - 8
      ensures p[i] == 0
    {
      assert p[i] == ZeroBytes(n)[i - |msg| - 1];
    }
    BigEndianOf(8 * |msg|, 8);
    EightBytes();
  }

  lemma EightBytes()
    ensures Power256(4) == TWO32 && Power256(8) == TWO32 * TWO32
  {
    assert Power256(2) == 0x10000;
    assert Power256(4) == 0x1_0000_0000;
    assert Power256(6) == 0x1_0000_0000_0000;
  }

  lemma {:induction false} WordBytesAt(h: seq<word>, i: nat)
    requires i < |h|
    ensures WordBytes(h)[4 * i..4 * i + 4] == BigEndianBytes(h[i], 4)
    decreases |h|
  {
    hide BigEndianBytes;
    var n := |h| - 1;
    var a, b := WordBytes(h[..n]), BigEndianBytes(h[n], 4);
    if i < n {
      WordBytesAt(h[..n], i);
      assert (a + b)[4 * i..4 * i + 4] == a[4 * i..4 * i + 4];
    } else {
      assert (a + b)[4 * n..4 * n + 4] == b;
    }
  }

  lemma WordConformsAt(h: seq<word>, i: nat)
    requires i < |h|
    ensures Fips180.BigEndian(WordBytes(h)[4 * i..4 * i + 4]) == h[i]
  {
    hide *;
    WordBytesAt(h, i);
    BigEndianOf(h[i], 4);
    EightBytes();
    MaskWord(h[i]);
    MaskIs(h[i]);
  }

  lemma MaskIs(x: nat)
    ensures Mask32(x) == x % TWO32
  {
  }

  lemma ConstantsAre()
    ensures Fips180.RoundConstants(K) && Fips180.InitialHash(INITIAL)
  {
    hide K, INITIAL, PRIMES, Fips180.FirstPrimes, Fips180.CubeRootBits, Fips180.SquareRootBits;
    ConstantsConform();
    assert Fips180.CubeRoots(PRIMES, K);
    FirstEight();
    assert Fips180.SquareRoots(PRIMES[..8], INITIAL);
  }

  lemma FirstEight()
    ensures |PRIMES| == 64 && Fips180.FirstPrimes(PRIMES[..8])
  {
    hide PRIMES, Primes.Prime;
    PrimesAreFirst();
    forall p: nat | p <= PRIMES[7] && Primes.Prime(p)
      ensures p in PRIMES[..8]
    {
      var i :| 0 <= i < 64 && PRIMES[i] == p;
      assert PRIMES[i] <= PRIMES[7];
      assert i <= 7;
      assert PRIMES[..8][i] == p;
    }
  }

  /** All of it: constants, padding, blocks and the order of the bytes. */
  lemma DigestConforms(msg: seq<byte>)
    ensures Fips180.IsDigest(msg, Digest(msg))
  {
    hide K, INITIAL, Fips180.RoundConstants, Fips180.InitialHash, Fips180.IsPadding, Fips180.Chain, Absorb, WordBytes, Padded;
    ConstantsAre();
    InitialSize();
    var p := Padded(msg);
    PaddingConforms(msg);
    StatesChain(INITIAL, p);
    var h, hs := Absorb(INITIAL, p), States(INITIAL, p);
    forall i | 0 <= i < 8
      ensures Fips180.BigEndian(WordBytes(h)[4 * i..4 * i + 4]) == h[i]
    {
      WordConformsAt(h, i);
    }
    assert Fips180.DigestBy(msg, Digest(msg), K, p, hs);
  }

  lemma InitialSize()
    ensures |INITIAL| == 8
  {
  }
}
