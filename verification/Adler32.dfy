/** The Adler-32 checksum of RFC 1950. */
module Adler32 {
  import opened Bits
  import opened Primes
  import opened PrimeList
  import Rfc1950

  const BASE: nat := 65521
  const NMAX: nat := 5552
  const WORD: nat := 0x1_0000_0000

  // ----- Definition: a sum of bytes and the sum of its intermediate values

  /** Reduction modulo the largest prime below 65536. */
  function Mod(a: nat): (r: nat)
    ensures r < BASE
  {
    a % BASE
  }

  lemma ModSum(a: nat, a': nat, b: nat, b': nat)
    requires Mod(a) == Mod(a') && Mod(b) == Mod(b')
    ensures Mod(a + b) == Mod(a' + b')
  {
    ModSplit(a, b);
    ModSplit(a', b');
  }

  lemma ModSplit(a: nat, b: nat)
    ensures Mod(a + b) == Mod(Mod(a) + Mod(b))
  {
  }

  lemma ModMod(a: nat)
    ensures Mod(Mod(a)) == Mod(a) && (a < BASE ==> Mod(a) == a)
  {
  }

  function ByteSum(s1: nat, data: seq<byte>): nat {
    if data == [] then s1 else ByteSum(s1, data[..|data| - 1]) + data[|data| - 1]
  }

  function RunningSum(s1: nat, s2: nat, data: seq<byte>): nat {
    if data == [] then s2 else RunningSum(s1, s2, data[..|data| - 1]) + ByteSum(s1, data)
  }

  /** The checksum continued over the data; without data it stays as it is. */
  function Adler(adler: nat, data: seq<byte>): nat {
    var s1, s2 := adler % 65536, adler / 65536;
    if data == [] then adler
    else Mod(RunningSum(s1, s2, data)) * 65536 + Mod(ByteSum(s1, data))
  }

  lemma {:induction false} SumsConcat(s1: nat, s2: nat, a: seq<byte>, b: seq<byte>)
    ensures ByteSum(s1, a + b) == ByteSum(ByteSum(s1, a), b)
    ensures RunningSum(s1, s2, a + b) == RunningSum(ByteSum(s1, a), RunningSum(s1, s2, a), b)
    decreases |b|
  {
    if b == [] {
      assert a + b == a;
    } else {
      assert (a + b)[..|a + b| - 1] == a + b[..|b| - 1];
      SumsConcat(s1, s2, a, b[..|b| - 1]);
    }
  }

  /** The start values matter only modulo the base. */
  lemma {:induction false} SumsModulo(s1: nat, s2: nat, t1: nat, t2: nat, data: seq<byte>)
    requires Mod(s1) == Mod(t1) && Mod(s2) == Mod(t2)
    ensures Mod(ByteSum(s1, data)) == Mod(ByteSum(t1, data))
    ensures Mod(RunningSum(s1, s2, data)) == Mod(RunningSum(t1, t2, data))
    decreases |data|
  {
    hide Mod;
    if data != [] {
      var init, x := data[..|data| - 1], data[|data| - 1];
      SumsModulo(s1, s2, t1, t2, init);
      ModSum(ByteSum(s1, init), ByteSum(t1, init), x, x);
      ModSum(RunningSum(s1, s2, init), RunningSum(t1, t2, init), ByteSum(s1, data), ByteSum(t1, data));
    }
  }

  /** Checksumming piece by piece is checksumming the whole. */
  lemma AdlerConcat(adler: nat, a: seq<byte>, b: seq<byte>)
    requires adler < WORD
    ensures Adler(adler, a + b) == Adler(Adler(adler, a), b)
  {
    hide ByteSum, RunningSum, Mod;
    var s1, s2 := adler % 65536, adler / 65536;
    SumsConcat(s1, s2, a, b);
    if a == [] {
      assert a + b == b;
    } else if b == [] {
      assert a + b == a;
    } else {
      var m := Adler(adler, a);
      assert m % 65536 == Mod(ByteSum(s1, a)) && m / 65536 == Mod(RunningSum(s1, s2, a));
      ModMod(ByteSum(s1, a));
      ModMod(RunningSum(s1, s2, a));
      SumsModulo(ByteSum(s1, a), RunningSum(s1, s2, a), m % 65536, m / 65536, b);
    }
  }

  /** Reducing after every byte gives the same checksum. */
  function AdlerByByte(s1: nat, s2: nat, data: seq<byte>): (nat, nat) {
    if data == [] then (s1, s2)
    else
      var (p1, p2) := AdlerByByte(s1, s2, data[..|data| - 1]);
      var n1 := Mod(p1 + data[|data| - 1]);
      (n1, Mod(p2 + n1))
  }

  lemma {:induction false} ByByteIsAdler(s1: nat, s2: nat, data: seq<byte>)
    requires data != []
    ensures AdlerByByte(s1, s2, data) == (Mod(ByteSum(s1, data)), Mod(RunningSum(s1, s2, data)))
    decreases |data|
  {
    hide Mod;
    var init, x := data[..|data| - 1], data[|data| - 1];
    var p := AdlerByByte(s1, s2, init);
    if |data| > 1 {
      ByByteIsAdler(s1, s2, init);
      ModMod(ByteSum(s1, init));
      ModMod(RunningSum(s1, s2, init));
    }
    ModSum(p.0, ByteSum(s1, init), x, x);
    ModMod(p.0 + x);
    ModSum(p.1, RunningSum(s1, s2, init), Mod(p.0 + x), ByteSum(s1, data));
  }

  // ----- The code

  /** Addition of 32-bit unsigned integers. */
  function Add32(a: nat, b: nat): nat {
    (a + b) % WORD
  }

  /** The largest sums that n bytes can lead to. */
  lemma {:induction false} SumsBound(s1: nat, s2: nat, data: seq<byte>)
    requires s1 < 65536 && s2 < 65536
    ensures ByteSum(s1, data) <= 65535 + 255 * |data|
    ensures 2 * RunningSum(s1, s2, data) <= 131070 + 131070 * |data| + 255 * (|data| * (|data| + 1))
    decreases |data|
  {
    if data != [] {
      SumsBound(s1, s2, data[..|data| - 1]);
      var n := |data|;
      assert n * (n + 1) == (n - 1) * n + 2 * n;
    }
  }

  lemma TriangleBound(n: nat)
    requires n <= NMAX
    ensures n * (n + 1) <= NMAX * (NMAX + 1)
  {
    var d := NMAX - n;
    assert NMAX * (NMAX + 1) == (n + d) * (n + d + 1) == n * (n + 1) + d * (2 * n + d + 1);
  }

  /** 5552 bytes never overflow 32 bits. */
  lemma NoOverflow(s1: nat, s2: nat, data: seq<byte>)
    requires s1 < 65536 && s2 < 65536 && |data| <= NMAX
    ensures ByteSum(s1, data) < WORD && RunningSum(s1, s2, data) < WORD
  {
    SumsBound(s1, s2, data);
    TriangleBound(|data|);
  }

  /** A run of up to 5552 bytes without a reduction. */
  method AddRun(s1: nat, s2: nat, data: seq<byte>) returns (t1: nat, t2: nat)
    requires s1 < 65536 && s2 < 65536 && |data| <= NMAX
    ensures t1 == ByteSum(s1, data) && t2 == RunningSum(s1, s2, data)
  {
    t1, t2 := s1, s2;
    for i := 0 to |data|
      invariant t1 == ByteSum(s1, data[..i]) && t2 == RunningSum(s1, s2, data[..i])
    {
      assert data[..i + 1][..i] == data[..i];
      NoOverflow(s1, s2, data[..i + 1]);
      t1 := Add32(t1, data[i]);
      t2 := Add32(t2, t1);
    }
    assert data[..|data|] == data;
  }

  method UpdateAdler32(adler: nat, data: seq<byte>) returns (result: nat)
    requires adler < WORD
    ensures result == Adler(adler, data)
    ensures adler == 1 ==> Rfc1950.IsAdler(data, result)
  {
    hide ByteSum, RunningSum, Shr, Low, Shl, Mod, Rfc1950.IsAdler;
    AdlerConforms(data);
    Split(adler);
    var s1: nat, s2: nat := Low(adler, 16), Shr(adler, 16);
    ghost var a1, a2 := s1, s2;
    var done: nat, len: nat := 0, |data|;
    assert data[..0] == [];
    StartSums(a1, a2);
    while len != 0
      invariant done + len == |data| && s1 < 65536 && s2 < 65536
      invariant Mod(s1) == Mod(ByteSum(a1, data[..done])) && Mod(s2) == Mod(RunningSum(a1, a2, data[..done]))
      invariant done == 0 ==> s1 == a1 && s2 == a2
      invariant done > 0 ==> s1 < BASE && s2 < BASE
      decreases len
    {
      var amount := if len > NMAX then NMAX else len;
      len := len - amount;
      ghost var before, run := data[..done], data[done..done + amount];
      ghost var p1, p2 := ByteSum(a1, before), RunningSum(a1, a2, before);
      SumsModulo(s1, s2, p1, p2, run);
      SumsConcat(a1, a2, before, run);
      assert before + run == data[..done + amount];
      s1, s2 := AddRun(s1, s2, data[done..done + amount]);
      ModMod(s1);
      ModMod(s2);
      s1 := Mod(s1);
      s2 := Mod(s2);
      done := done + amount;
    }
    assert data[..|data|] == data;
    ModMod(s1);
    ModMod(s2);
    Join(s1, s2);
    result := BitOr(s1, Shl(s2, 16));
  }

  lemma StartSums(s1: nat, s2: nat)
    ensures ByteSum(s1, []) == s1 && RunningSum(s1, s2, []) == s2
  {
  }

  lemma Split(adler: nat)
    requires adler < WORD
    ensures Low(adler, 16) == adler % 65536 < 65536 && Shr(adler, 16) == adler / 65536 < 65536
  {
    hide Low, Shr;
    Pow2Values();
    ShrIsDiv(adler, 16);
  }

  lemma Join(s1: nat, s2: nat)
    requires s1 < 65536
    ensures BitOr(s1, Shl(s2, 16)) == s2 * 65536 + s1
  {
    Pow2Values();
    OrDisjoint(s1, 16, s2);
    ShlBySixteen(s2);
  }

  // ----- The standard

  lemma {:induction false} TotalEnd(data: seq<byte>, x: byte)
    ensures Rfc1950.Total(data + [x]) == Rfc1950.Total(data) + x
    ensures Rfc1950.Weighted(data + [x]) == Rfc1950.Weighted(data) + Rfc1950.Total(data) + x
  {
    if data == [] {
      assert [x][1..] == [];
      assert Rfc1950.Total([]) == 0 && Rfc1950.Weighted([]) == 0;
    } else {
      var rest := data[1..];
      assert (data + [x])[1..] == rest + [x];
      TotalEnd(rest, x);
      assert (|data| + 1) * data[0] == |data| * data[0] + data[0];
    }
  }

  lemma {:induction false} SumsConform(data: seq<byte>)
    ensures ByteSum(1, data) == 1 + Rfc1950.Total(data)
    ensures RunningSum(1, 0, data) == |data| + Rfc1950.Weighted(data)
    decreases |data|
  {
    if data != [] {
      var init, x := data[..|data| - 1], data[|data| - 1];
      SumsConform(init);
      TotalEnd(init, x);
      assert init + [x] == data;
    }
  }

  // ----- The base is the largest prime below 65536

  lemma Remainders0()
    ensures BASE % PRIMES[0] != 0 && BASE % PRIMES[1] != 0 && BASE % PRIMES[2] != 0 && BASE % PRIMES[3] != 0
    ensures BASE % PRIMES[4] != 0 && BASE % PRIMES[5] != 0 && BASE % PRIMES[6] != 0 && BASE % PRIMES[7] != 0
  {
  }

  lemma Remainders8()
    ensures BASE % PRIMES[8] != 0 && BASE % PRIMES[9] != 0 && BASE % PRIMES[10] != 0 && BASE % PRIMES[11] != 0
    ensures BASE % PRIMES[12] != 0 && BASE % PRIMES[13] != 0 && BASE % PRIMES[14] != 0 && BASE % PRIMES[15] != 0
  {
  }

  lemma Remainders16()
    ensures BASE % PRIMES[16] != 0 && BASE % PRIMES[17] != 0 && BASE % PRIMES[18] != 0 && BASE % PRIMES[19] != 0
    ensures BASE % PRIMES[20] != 0 && BASE % PRIMES[21] != 0 && BASE % PRIMES[22] != 0 && BASE % PRIMES[23] != 0
  {
  }

  lemma Remainders24()
    ensures BASE % PRIMES[24] != 0 && BASE % PRIMES[25] != 0 && BASE % PRIMES[26] != 0 && BASE % PRIMES[27] != 0
    ensures BASE % PRIMES[28] != 0 && BASE % PRIMES[29] != 0 && BASE % PRIMES[30] != 0 && BASE % PRIMES[31] != 0
  {
  }

  lemma Remainders32()
    ensures BASE % PRIMES[32] != 0 && BASE % PRIMES[33] != 0 && BASE % PRIMES[34] != 0 && BASE % PRIMES[35] != 0
    ensures BASE % PRIMES[36] != 0 && BASE % PRIMES[37] != 0 && BASE % PRIMES[38] != 0 && BASE % PRIMES[39] != 0
  {
  }

  lemma Remainders40()
    ensures BASE % PRIMES[40] != 0 && BASE % PRIMES[41] != 0 && BASE % PRIMES[42] != 0 && BASE % PRIMES[43] != 0
    ensures BASE % PRIMES[44] != 0 && BASE % PRIMES[45] != 0 && BASE % PRIMES[46] != 0 && BASE % PRIMES[47] != 0
  {
  }

  lemma Remainders48()
    ensures BASE % PRIMES[48] != 0 && BASE % PRIMES[49] != 0 && BASE % PRIMES[50] != 0 && BASE % PRIMES[51] != 0
    ensures BASE % PRIMES[52] != 0 && BASE % PRIMES[53] != 0 && BASE % PRIMES[54] != 0 && BASE % PRIMES[55] != 0
  {
  }

  lemma Remainders56()
    ensures BASE % PRIMES[56] != 0 && BASE % PRIMES[57] != 0 && BASE % PRIMES[58] != 0 && BASE % PRIMES[59] != 0
    ensures BASE % PRIMES[60] != 0 && BASE % PRIMES[61] != 0 && BASE % PRIMES[62] != 0 && BASE % PRIMES[63] != 0
  {
  }

  lemma NoListedDivisor(i: nat)
    requires i < 64
    ensures |PRIMES| == 64 && PRIMES[i] > 0 && BASE % PRIMES[i] != 0
  {
    hide PRIMES;
    PrimesSize();
    PrimesPositive(i);
    Remainders0();
    Remainders8();
    Remainders16();
    Remainders24();
    Remainders32();
    Remainders40();
    Remainders48();
    Remainders56();
  }

  lemma PrimesPositive(i: nat)
    requires i < 64
    ensures |PRIMES| == 64 && PRIMES[i] > 0
  {
    hide PRIMES;
    PrimesSize();
    FirstIsTwo();
    if i > 0 {
      LaterIsLarger(0, i);
    }
  }

  lemma FirstIsTwo()
    ensures |PRIMES| == 64 && PRIMES[0] == 2
  {
  }

  lemma BaseConforms()
    ensures Rfc1950.AdlerBase(BASE)
  {
    hide Prime, PRIMES;
    PrimesSize();
    forall i | 0 <= i < 64
      ensures PRIMES[i] > 0 && BASE % PRIMES[i] != 0
    {
      NoListedDivisor(i);
    }
    PrimeByList(BASE);
    Composite(65522, 2);
    Composite(65523, 3);
    Composite(65524, 2);
    Composite(65525, 5);
    Composite(65526, 2);
    Composite(65527, 7);
    Composite(65528, 2);
    Composite(65529, 3);
    Composite(65530, 2);
    Composite(65531, 19);
    Composite(65532, 2);
    Composite(65533, 13);
    Composite(65534, 2);
    Composite(65535, 3);
  }

  /** The checksum is the one of RFC 1950. */
  lemma AdlerConforms(data: seq<byte>)
    ensures Rfc1950.IsAdler(data, Adler(1, data))
  {
    hide Rfc1950.AdlerBase, Rfc1950.Total, Rfc1950.Weighted, ByteSum, RunningSum;
    BaseConforms();
    SumsConform(data);
    if data == [] {
      NoBytes();
    }
    assert Rfc1950.AdlerBy(data, Adler(1, data), BASE);
  }

  lemma NoBytes()
    ensures Rfc1950.Total([]) == 0 && Rfc1950.Weighted([]) == 0
  {
  }

  /** The letters abc. */
  lemma KnownChecksum()
    ensures Adler(1, [0x61, 0x62, 0x63]) == 0x024d0127
  {
    var d: seq<byte> := [0x61, 0x62, 0x63];
    assert d[..2] == [0x61, 0x62] && d[..2][..1] == [0x61] && d[..2][..1][..0] == [];
    assert ByteSum(1, [0x61]) == 98 && RunningSum(1, 0, [0x61]) == 98;
    assert ByteSum(1, d[..2]) == 196 && RunningSum(1, 0, d[..2]) == 294;
  }
}
