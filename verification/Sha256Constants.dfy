/** Where the numbers in SHA-256 come from: the digits of roots of primes. */
module Sha256Constants {
  import opened Primes
  import opened PrimeList
  import opened Sha256Words
  import opened Fips180

  lemma PrimesAreFirst()
    ensures |PRIMES| == 64 && FirstPrimes(PRIMES)
  {
    hide Prime;
    forall n: nat | n <= 311
      ensures Prime(n) <==> n in PRIMES
    {
      PrimesListed(n);
    }
    forall i, j | 0 <= i < j < 64
      ensures PRIMES[i] < PRIMES[j]
    {
      LaterIsLarger(i, j);
    }
    LastPrime();
  }

  // ----- Roots

  lemma Roots0()
    ensures CubeRootBits(PRIMES[0], K[0])
    ensures CubeRootBits(PRIMES[1], K[1])
    ensures CubeRootBits(PRIMES[2], K[2])
    ensures CubeRootBits(PRIMES[3], K[3])
    ensures CubeRootBits(PRIMES[4], K[4])
    ensures CubeRootBits(PRIMES[5], K[5])
    ensures CubeRootBits(PRIMES[6], K[6])
    ensures CubeRootBits(PRIMES[7], K[7])
  {
    assert PRIMES[0] == 2 && K[0] == 0x428a2f98 && IsCubeRoot(2, 0x428a2f98, 1);
    assert PRIMES[1] == 3 && K[1] == 0x71374491 && IsCubeRoot(3, 0x71374491, 1);
    assert PRIMES[2] == 5 && K[2] == 0xb5c0fbcf && IsCubeRoot(5, 0xb5c0fbcf, 1);
    assert PRIMES[3] == 7 && K[3] == 0xe9b5dba5 && IsCubeRoot(7, 0xe9b5dba5, 1);
    assert PRIMES[4] == 11 && K[4] == 0x3956c25b && IsCubeRoot(11, 0x3956c25b, 2);
    assert PRIMES[5] == 13 && K[5] == 0x59f111f1 && IsCubeRoot(13, 0x59f111f1, 2);
    assert PRIMES[6] == 17 && K[6] == 0x923f82a4 && IsCubeRoot(17, 0x923f82a4, 2);
    assert PRIMES[7] == 19 && K[7] == 0xab1c5ed5 && IsCubeRoot(19, 0xab1c5ed5, 2);
  }

  lemma Roots8()
    ensures CubeRootBits(PRIMES[8], K[8])
    ensures CubeRootBits(PRIMES[9], K[9])
    ensures CubeRootBits(PRIMES[10], K[10])
    ensures CubeRootBits(PRIMES[11], K[11])
    ensures CubeRootBits(PRIMES[12], K[12])
    ensures CubeRootBits(PRIMES[13], K[13])
    ensures CubeRootBits(PRIMES[14], K[14])
    ensures CubeRootBits(PRIMES[15], K[15])
  {
    assert PRIMES[8] == 23 && K[8] == 0xd807aa98 && IsCubeRoot(23, 0xd807aa98, 2);
    assert PRIMES[9] == 29 && K[9] == 0x12835b01 && IsCubeRoot(29, 0x12835b01, 3);
    assert PRIMES[10] == 31 && K[10] == 0x243185be && IsCubeRoot(31, 0x243185be, 3);
    assert PRIMES[11] == 37 && K[11] == 0x550c7dc3 && IsCubeRoot(37, 0x550c7dc3, 3);
    assert PRIMES[12] == 41 && K[12] == 0x72be5d74 && IsCubeRoot(41, 0x72be5d74, 3);
    assert PRIMES[13] == 43 && K[13] == 0x80deb1fe && IsCubeRoot(43, 0x80deb1fe, 3);
    assert PRIMES[14] == 47 && K[14] == 0x9bdc06a7 && IsCubeRoot(47, 0x9bdc06a7, 3);
    assert PRIMES[15] == 53 && K[15] == 0xc19bf174 && IsCubeRoot(53, 0xc19bf174, 3);
  }

  lemma Roots16()
    ensures CubeRootBits(PRIMES[16], K[16])
    ensures CubeRootBits(PRIMES[17], K[17])
    ensures CubeRootBits(PRIMES[18], K[18])
    ensures CubeRootBits(PRIMES[19], K[19])
    ensures CubeRootBits(PRIMES[20], K[20])
    ensures CubeRootBits(PRIMES[21], K[21])
    ensures CubeRootBits(PRIMES[22], K[22])
    ensures CubeRootBits(PRIMES[23], K[23])
  {
    assert PRIMES[16] == 59 && K[16] == 0xe49b69c1 && IsCubeRoot(59, 0xe49b69c1, 3);
    assert PRIMES[17] == 61 && K[17] == 0xefbe4786 && IsCubeRoot(61, 0xefbe4786, 3);
    assert PRIMES[18] == 67 && K[18] == 0x0fc19dc6 && IsCubeRoot(67, 0x0fc19dc6, 4);
    assert PRIMES[19] == 71 && K[19] == 0x240ca1cc && IsCubeRoot(71, 0x240ca1cc, 4);
    assert PRIMES[20] == 73 && K[20] == 0x2de92c6f && IsCubeRoot(73, 0x2de92c6f, 4);
    assert PRIMES[21] == 79 && K[21] == 0x4a7484aa && IsCubeRoot(79, 0x4a7484aa, 4);
    assert PRIMES[22] == 83 && K[22] == 0x5cb0a9dc && IsCubeRoot(83, 0x5cb0a9dc, 4);
    assert PRIMES[23] == 89 && K[23] == 0x76f988da && IsCubeRoot(89, 0x76f988da, 4);
  }

  lemma Roots24()
    ensures CubeRootBits(PRIMES[24], K[24])
    ensures CubeRootBits(PRIMES[25], K[25])
    ensures CubeRootBits(PRIMES[26], K[26])
    ensures CubeRootBits(PRIMES[27], K[27])
    ensures CubeRootBits(PRIMES[28], K[28])
    ensures CubeRootBits(PRIMES[29], K[29])
    ensures CubeRootBits(PRIMES[30], K[30])
    ensures CubeRootBits(PRIMES[31], K[31])
  {
    assert PRIMES[24] == 97 && K[24] == 0x983e5152 && IsCubeRoot(97, 0x983e5152, 4);
    assert PRIMES[25] == 101 && K[25] == 0xa831c66d && IsCubeRoot(101, 0xa831c66d, 4);
    assert PRIMES[26] == 103 && K[26] == 0xb00327c8 && IsCubeRoot(103, 0xb00327c8, 4);
    assert PRIMES[27] == 107 && K[27] == 0xbf597fc7 && IsCubeRoot(107, 0xbf597fc7, 4);
    assert PRIMES[28] == 109 && K[28] == 0xc6e00bf3 && IsCubeRoot(109, 0xc6e00bf3, 4);
    assert PRIMES[29] == 113 && K[29] == 0xd5a79147 && IsCubeRoot(113, 0xd5a79147, 4);
    assert PRIMES[30] == 127 && K[30] == 0x06ca6351 && IsCubeRoot(127, 0x06ca6351, 5);
    assert PRIMES[31] == 131 && K[31] == 0x14292967 && IsCubeRoot(131, 0x14292967, 5);
  }

  lemma Roots32()
    ensures CubeRootBits(PRIMES[32], K[32])
    ensures CubeRootBits(PRIMES[33], K[33])
    ensures CubeRootBits(PRIMES[34], K[34])
    ensures CubeRootBits(PRIMES[35], K[35])
    ensures CubeRootBits(PRIMES[36], K[36])
    ensures CubeRootBits(PRIMES[37], K[37])
    ensures CubeRootBits(PRIMES[38], K[38])
    ensures CubeRootBits(PRIMES[39], K[39])
  {
    assert PRIMES[32] == 137 && K[32] == 0x27b70a85 && IsCubeRoot(137, 0x27b70a85, 5);
    assert PRIMES[33] == 139 && K[33] == 0x2e1b2138 && IsCubeRoot(139, 0x2e1b2138, 5);
    assert PRIMES[34] == 149 && K[34] == 0x4d2c6dfc && IsCubeRoot(149, 0x4d2c6dfc, 5);
    assert PRIMES[35] == 151 && K[35] == 0x53380d13 && IsCubeRoot(151, 0x53380d13, 5);
    assert PRIMES[36] == 157 && K[36] == 0x650a7354 && IsCubeRoot(157, 0x650a7354, 5);
    assert PRIMES[37] == 163 && K[37] == 0x766a0abb && IsCubeRoot(163, 0x766a0abb, 5);
    assert PRIMES[38] == 167 && K[38] == 0x81c2c92e && IsCubeRoot(167, 0x81c2c92e, 5);
    assert PRIMES[39] == 173 && K[39] == 0x92722c85 && IsCubeRoot(173, 0x92722c85, 5);
  }

  lemma Roots40()
    ensures CubeRootBits(PRIMES[40], K[40])
    ensures CubeRootBits(PRIMES[41], K[41])
    ensures CubeRootBits(PRIMES[42], K[42])
    ensures CubeRootBits(PRIMES[43], K[43])
    ensures CubeRootBits(PRIMES[44], K[44])
    ensures CubeRootBits(PRIMES[45], K[45])
    ensures CubeRootBits(PRIMES[46], K[46])
    ensures CubeRootBits(PRIMES[47], K[47])
  {
    assert PRIMES[40] == 179 && K[40] == 0xa2bfe8a1 && IsCubeRoot(179, 0xa2bfe8a1, 5);
    assert PRIMES[41] == 181 && K[41] == 0xa81a664b && IsCubeRoot(181, 0xa81a664b, 5);
    assert PRIMES[42] == 191 && K[42] == 0xc24b8b70 && IsCubeRoot(191, 0xc24b8b70, 5);
    assert PRIMES[43] == 193 && K[43] == 0xc76c51a3 && IsCubeRoot(193, 0xc76c51a3, 5);
    assert PRIMES[44] == 197 && K[44] == 0xd192e819 && IsCubeRoot(197, 0xd192e819, 5);
    assert PRIMES[45] == 199 && K[45] == 0xd6990624 && IsCubeRoot(199, 0xd6990624, 5);
    assert PRIMES[46] == 211 && K[46] == 0xf40e3585 && IsCubeRoot(211, 0xf40e3585, 5);
    assert PRIMES[47] == 223 && K[47] == 0x106aa070 && IsCubeRoot(223, 0x106aa070, 6);
  }

  lemma Roots48()
    ensures CubeRootBits(PRIMES[48], K[48])
    ensures CubeRootBits(PRIMES[49], K[49])
    ensures CubeRootBits(PRIMES[50], K[50])
    ensures CubeRootBits(PRIMES[51], K[51])
    ensures CubeRootBits(PRIMES[52], K[52])
    ensures CubeRootBits(PRIMES[53], K[53])
    ensures CubeRootBits(PRIMES[54], K[54])
    ensures CubeRootBits(PRIMES[55], K[55])
  {
    assert PRIMES[48] == 227 && K[48] == 0x19a4c116 && IsCubeRoot(227, 0x19a4c116, 6);
    assert PRIMES[49] == 229 && K[49] == 0x1e376c08 && IsCubeRoot(229, 0x1e376c08, 6);
    assert PRIMES[50] == 233 && K[50] == 0x2748774c && IsCubeRoot(233, 0x2748774c, 6);
    assert PRIMES[51] == 239 && K[51] == 0x34b0bcb5 && IsCubeRoot(239, 0x34b0bcb5, 6);
    assert PRIMES[52] == 241 && K[52] == 0x391c0cb3 && IsCubeRoot(241, 0x391c0cb3, 6);
    assert PRIMES[53] == 251 && K[53] == 0x4ed8aa4a && IsCubeRoot(251, 0x4ed8aa4a, 6);
    assert PRIMES[54] == 257 && K[54] == 0x5b9cca4f && IsCubeRoot(257, 0x5b9cca4f, 6);
    assert PRIMES[55] == 263 && K[55] == 0x682e6ff3 && IsCubeRoot(263, 0x682e6ff3, 6);
  }

  lemma Roots56()
    ensures CubeRootBits(PRIMES[56], K[56])
    ensures CubeRootBits(PRIMES[57], K[57])
    ensures CubeRootBits(PRIMES[58], K[58])
    ensures CubeRootBits(PRIMES[59], K[59])
    ensures CubeRootBits(PRIMES[60], K[60])
    ensures CubeRootBits(PRIMES[61], K[61])
    ensures CubeRootBits(PRIMES[62], K[62])
    ensures CubeRootBits(PRIMES[63], K[63])
  {
    assert PRIMES[56] == 269 && K[56] == 0x748f82ee && IsCubeRoot(269, 0x748f82ee, 6);
    assert PRIMES[57] == 271 && K[57] == 0x78a5636f && IsCubeRoot(271, 0x78a5636f, 6);
    assert PRIMES[58] == 277 && K[58] == 0x84c87814 && IsCubeRoot(277, 0x84c87814, 6);
    assert PRIMES[59] == 281 && K[59] == 0x8cc70208 && IsCubeRoot(281, 0x8cc70208, 6);
    assert PRIMES[60] == 283 && K[60] == 0x90befffa && IsCubeRoot(283, 0x90befffa, 6);
    assert PRIMES[61] == 293 && K[61] == 0xa4506ceb && IsCubeRoot(293, 0xa4506ceb, 6);
    assert PRIMES[62] == 307 && K[62] == 0xbef9a3f7 && IsCubeRoot(307, 0xbef9a3f7, 6);
    assert PRIMES[63] == 311 && K[63] == 0xc67178f2 && IsCubeRoot(311, 0xc67178f2, 6);
  }

  lemma SquareRoots()
    ensures SquareRootBits(PRIMES[0], INITIAL[0])
    ensures SquareRootBits(PRIMES[1], INITIAL[1])
    ensures SquareRootBits(PRIMES[2], INITIAL[2])
    ensures SquareRootBits(PRIMES[3], INITIAL[3])
    ensures SquareRootBits(PRIMES[4], INITIAL[4])
    ensures SquareRootBits(PRIMES[5], INITIAL[5])
    ensures SquareRootBits(PRIMES[6], INITIAL[6])
    ensures SquareRootBits(PRIMES[7], INITIAL[7])
  {
    assert PRIMES[0] == 2 && INITIAL[0] == 0x6a09e667 && IsSquareRoot(2, 0x6a09e667, 1);
    assert PRIMES[1] == 3 && INITIAL[1] == 0xbb67ae85 && IsSquareRoot(3, 0xbb67ae85, 1);
    assert PRIMES[2] == 5 && INITIAL[2] == 0x3c6ef372 && IsSquareRoot(5, 0x3c6ef372, 2);
    assert PRIMES[3] == 7 && INITIAL[3] == 0xa54ff53a && IsSquareRoot(7, 0xa54ff53a, 2);
    assert PRIMES[4] == 11 && INITIAL[4] == 0x510e527f && IsSquareRoot(11, 0x510e527f, 3);
    assert PRIMES[5] == 13 && INITIAL[5] == 0x9b05688c && IsSquareRoot(13, 0x9b05688c, 3);
    assert PRIMES[6] == 17 && INITIAL[6] == 0x1f83d9ab && IsSquareRoot(17, 0x1f83d9ab, 4);
    assert PRIMES[7] == 19 && INITIAL[7] == 0x5be0cd19 && IsSquareRoot(19, 0x5be0cd19, 4);
  }

  /** The round constants are the first 32 bits of the fractional parts of the cube roots
      of the first 64 primes, those of the initial hash value of the square roots of the
      first eight. */
  lemma ConstantsConform()
    ensures |PRIMES| == |K| == 64 && |INITIAL| == 8 && FirstPrimes(PRIMES)
    ensures forall t :: 0 <= t < 64 ==> CubeRootBits(PRIMES[t], K[t])
    ensures forall t :: 0 <= t < 8 ==> SquareRootBits(PRIMES[t], INITIAL[t])
  {
    PrimesAreFirst();
    Sizes();
    forall t | 0 <= t < 64
      ensures CubeRootBits(PRIMES[t], K[t])
    {
      CubeRootAt(t);
    }
    forall t | 0 <= t < 8
      ensures SquareRootBits(PRIMES[t], INITIAL[t])
    {
      SquareRootAt(t);
    }
  }

  lemma Sizes()
    ensures |PRIMES| == |K| == 64 && |INITIAL| == 8
  {
  }

  lemma CubeRootAt(t: nat)
    requires t < 64
    ensures |PRIMES| == |K| == 64 && CubeRootBits(PRIMES[t], K[t])
  {
    hide PRIMES, K, CubeRootBits;
    Sizes();
    Roots0();
    Roots8();
    Roots16();
    Roots24();
    Roots32();
    Roots40();
    Roots48();
    Roots56();
  }

  lemma SquareRootAt(t: nat)
    requires t < 8
    ensures |PRIMES| == 64 && |INITIAL| == 8 && SquareRootBits(PRIMES[t], INITIAL[t])
  {
    hide PRIMES, INITIAL, SquareRootBits;
    Sizes();
    SquareRoots();
  }
}
