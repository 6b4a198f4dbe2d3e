/** What FIPS 180-4 says of SHA-256, bit by bit and word by word.  Nothing of the program
    is used here but powers of two. */
module Fips180 {
  import opened Bits
  import opened Primes

  const WORDS: nat := 0x1_0000_0000

  /** Bit i of a number, the lowest one first. */
  function Bit(x: nat, i: nat): nat {
    x / Pow2(i) % 2
  }

  // ----- Functions (section 4.1.2)

  /** The bitwise sum of x rotated to the right by a, b and c. */
  ghost predicate RotationSum(y: nat, x: nat, a: nat, b: nat, c: nat) {
    y < WORDS && forall i :: 0 <= i < 32 ==> Bit(y, i) == (Bit(x, (i + a) % 32) + Bit(x, (i + b) % 32) + Bit(x, (i + c) % 32)) % 2
  }

  /** The same with a shift by c in place of the third rotation. */
  ghost predicate ShiftSum(y: nat, x: nat, a: nat, b: nat, c: nat) {
    && y < WORDS
    && forall i :: 0 <= i < 32 ==>
      Bit(y, i) == (Bit(x, (i + a) % 32) + Bit(x, (i + b) % 32) + (if i + c < 32 then Bit(x, i + c) else 0)) % 2
  }

  /** The bits of x choose between those of y and z. */
  ghost predicate Choice(r: nat, x: nat, y: nat, z: nat) {
    r < WORDS && forall i :: 0 <= i < 32 ==> Bit(r, i) == if Bit(x, i) == 1 then Bit(y, i) else Bit(z, i)
  }

  /** Each bit is the one that two of the three have. */
  ghost predicate Majority(r: nat, x: nat, y: nat, z: nat) {
    r < WORDS && forall i :: 0 <= i < 32 ==> Bit(r, i) == if Bit(x, i) + Bit(y, i) + Bit(z, i) >= 2 then 1 else 0
  }

  // ----- Primes and roots (sections 4.2.2 and 5.3.3)

  /** All primes up to the last one of the list, in ascending order. */
  ghost predicate FirstPrimes(ps: seq<nat>) {
    && (forall i :: 0 <= i < |ps| ==> Prime(ps[i]))
    && (forall i, j :: 0 <= i < j < |ps| ==> ps[i] < ps[j])
    && forall p: nat :: |ps| > 0 && p <= ps[|ps| - 1] && Prime(p) ==> p in ps
  }

  /** The first 32 bits of the fractional part of the cube root of p. */
  ghost predicate CubeRootBits(p: nat, bits: nat) {
    exists whole: nat :: IsCubeRoot(p, bits, whole)
  }

  predicate IsCubeRoot(p: nat, bits: nat, whole: nat) {
    var n := WORDS * whole + bits;
    bits < WORDS && n * n * n <= p * (WORDS * WORDS * WORDS) < (n + 1) * (n + 1) * (n + 1)
  }

  ghost predicate SquareRootBits(p: nat, bits: nat) {
    exists whole: nat :: IsSquareRoot(p, bits, whole)
  }

  predicate IsSquareRoot(p: nat, bits: nat, whole: nat) {
    var n := WORDS * whole + bits;
    bits < WORDS && n * n <= p * (WORDS * WORDS) < (n + 1) * (n + 1)
  }

  // ----- One block (section 6.2.2)

  /** The message schedule of a block. */
  ghost predicate IsSchedule(block: seq<byte>, W: seq<nat>)
    requires |block| == 64
  {
    && |W| == 64
    && (forall t :: 0 <= t < 16 ==>
      W[t] == 0x1000000 * (block[4 * t] as nat) + 0x10000 * (block[4 * t + 1] as nat)
              + 0x100 * (block[4 * t + 2] as nat) + block[4 * t + 3])
    && forall t :: 16 <= t < 64 ==> NextWord(W, t)
  }

  ghost predicate NextWord(W: seq<nat>, t: nat)
    requires 16 <= t < |W|
  {
    exists s0: nat, s1: nat :: WordSum(W, t, s0, s1)
  }

  ghost predicate WordSum(W: seq<nat>, t: nat, s0: nat, s1: nat)
    requires 16 <= t < |W|
  {
    && ShiftSum(s0, W[t - 15], 7, 18, 3) && ShiftSum(s1, W[t - 2], 17, 19, 10)
    && W[t] == (s1 + W[t - 7] + s0 + W[t - 16]) % WORDS
  }

  /** The values that working variables a and e take, oldest first: at step t the others
      are the three values before. */
  ghost predicate NextStep(A: seq<nat>, E: seq<nat>, K: seq<nat>, W: seq<nat>, t: nat)
    requires t + 4 < |A| == |E| && t < |K| && t < |W|
  {
    exists s0: nat, s1: nat, ch: nat, maj: nat :: StepSum(A, E, K, W, t, s0, s1, ch, maj)
  }

  ghost predicate StepSum(A: seq<nat>, E: seq<nat>, K: seq<nat>, W: seq<nat>, t: nat, s0: nat, s1: nat, ch: nat, maj: nat)
    requires t + 4 < |A| == |E| && t < |K| && t < |W|
  {
    && RotationSum(s0, A[t + 3], 2, 13, 22) && RotationSum(s1, E[t + 3], 6, 11, 25)
    && Choice(ch, E[t + 3], E[t + 2], E[t + 1]) && Majority(maj, A[t + 3], A[t + 2], A[t + 1])
    && A[t + 4] == (E[t] + s1 + ch + K[t] + W[t] + s0 + maj) % WORDS
    && E[t + 4] == (A[t] + E[t] + s1 + ch + K[t] + W[t]) % WORDS
  }

  /** One block takes the hash value h to r. */
  ghost predicate Hashes(K: seq<nat>, h: seq<nat>, block: seq<byte>, r: seq<nat>)
    requires |block| == 64 && |K| == 64 && |h| == |r| == 8
  {
    exists W: seq<nat>, A: seq<nat>, E: seq<nat> :: HashesBy(K, h, block, r, W, A, E)
  }

  ghost predicate HashesBy(K: seq<nat>, h: seq<nat>, block: seq<byte>, r: seq<nat>, W: seq<nat>, A: seq<nat>, E: seq<nat>)
    requires |block| == 64 && |K| == 64 && |h| == |r| == 8
  {
    && IsSchedule(block, W) && |A| == |E| == 68
    && A[3] == h[0] && A[2] == h[1] && A[1] == h[2] && A[0] == h[3]
    && E[3] == h[4] && E[2] == h[5] && E[1] == h[6] && E[0] == h[7]
    && (forall t :: 0 <= t < 64 ==> NextStep(A, E, K, W, t))
    && r[0] == (h[0] + A[67]) % WORDS && r[1] == (h[1] + A[66]) % WORDS
    && r[2] == (h[2] + A[65]) % WORDS && r[3] == (h[3] + A[64]) % WORDS
    && r[4] == (h[4] + E[67]) % WORDS && r[5] == (h[5] + E[66]) % WORDS
    && r[6] == (h[6] + E[65]) % WORDS && r[7] == (h[7] + E[64]) % WORDS
  }

  // ----- Constants (sections 4.2.2 and 5.3.3)

  ghost predicate CubeRoots(ps: seq<nat>, K: seq<nat>) {
    |ps| == |K| && FirstPrimes(ps) && forall t :: 0 <= t < |K| ==> CubeRootBits(ps[t], K[t])
  }

  ghost predicate SquareRoots(ps: seq<nat>, h: seq<nat>) {
    |ps| == |h| && FirstPrimes(ps) && forall t :: 0 <= t < |h| ==> SquareRootBits(ps[t], h[t])
  }

  ghost predicate RoundConstants(K: seq<nat>) {
    |K| == 64 && exists ps: seq<nat> :: CubeRoots(ps, K)
  }

  ghost predicate InitialHash(h: seq<nat>) {
    |h| == 8 && exists ps: seq<nat> :: SquareRoots(ps, h)
  }

  // ----- Messages (sections 5.1.1, 5.2.1 and 6.2.2)

  /** A number from its bytes, the highest one first. */
  function BigEndian(b: seq<byte>): nat {
    if b == [] then 0 else 256 * BigEndian(b[..|b| - 1]) + b[|b| - 1]
  }

  /** A one bit, the fewest zeros that fill a block but for eight bytes, and the length of
      the message in bits. */
  ghost predicate IsPadding(msg: seq<byte>, p: seq<byte>) {
    && |p| % 64 == 0 && |msg| + 9 <= |p| < |msg| + 9 + 64
    && p[..|msg|] == msg && p[|msg|] == 0x80 && (forall i :: |msg| < i < |p| - 8 ==> p[i] == 0)
    && BigEndian(p[|p| - 8..]) == 8 * |msg| % (WORDS * WORDS)
  }

  /** The hash values block after block. */
  ghost predicate Chain(K: seq<nat>, p: seq<byte>, hs: seq<seq<nat>>)
    requires |K| == 64
  {
    && |hs| == |p| / 64 + 1 && (forall i :: 0 <= i < |hs| ==> |hs[i]| == 8)
    && forall i :: 0 <= i < |hs| - 1 ==> Hashes(K, hs[i], p[64 * i..64 * i + 64], hs[i + 1])
  }

  ghost predicate DigestBy(msg: seq<byte>, d: seq<byte>, K: seq<nat>, p: seq<byte>, hs: seq<seq<nat>>) {
    && RoundConstants(K) && IsPadding(msg, p) && Chain(K, p, hs) && InitialHash(hs[0])
    && |d| == 32 && forall i :: 0 <= i < 8 ==> BigEndian(d[4 * i..4 * i + 4]) == hs[|hs| - 1][i]
  }

  /** d is the digest of the message. */
  ghost predicate IsDigest(msg: seq<byte>, d: seq<byte>) {
    exists K: seq<nat>, p: seq<byte>, hs: seq<seq<nat>> :: DigestBy(msg, d, K, p, hs)
  }
}
