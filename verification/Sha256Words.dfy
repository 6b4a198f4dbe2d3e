/** The functions and the compression step of SHA-256 (FIPS 180-4 sections 4.1.2, 4.2.2
    and 6.2.2) on 32-bit words, and the same step on machine words that are at least
    that wide and masked where needed. */
module Sha256Words {
  import opened Bits
  import opened MsbStream

  const TWO32: nat := 0x1_0000_0000

  type word = n: nat | n < 0x1_0000_0000

  /** The round constants, in two halves. */
  const K: seq<word> := FIRSTK + SECONDK

  const FIRSTK: seq<word> := [
    0x428a2f98, 0x71374491, 0xb5c0fbcf, 0xe9b5dba5, 0x3956c25b, 0x59f111f1, 0x923f82a4, 0xab1c5ed5,
    0xd807aa98, 0x12835b01, 0x243185be, 0x550c7dc3, 0x72be5d74, 0x80deb1fe, 0x9bdc06a7, 0xc19bf174,
    0xe49b69c1, 0xefbe4786, 0x0fc19dc6, 0x240ca1cc, 0x2de92c6f, 0x4a7484aa, 0x5cb0a9dc, 0x76f988da,
    0x983e5152, 0xa831c66d, 0xb00327c8, 0xbf597fc7, 0xc6e00bf3, 0xd5a79147, 0x06ca6351, 0x14292967]

  const SECONDK: seq<word> := [
    0x27b70a85, 0x2e1b2138, 0x4d2c6dfc, 0x53380d13, 0x650a7354, 0x766a0abb, 0x81c2c92e, 0x92722c85,
    0xa2bfe8a1, 0xa81a664b, 0xc24b8b70, 0xc76c51a3, 0xd192e819, 0xd6990624, 0xf40e3585, 0x106aa070,
    0x19a4c116, 0x1e376c08, 0x2748774c, 0x34b0bcb5, 0x391c0cb3, 0x4ed8aa4a, 0x5b9cca4f, 0x682e6ff3,
    0x748f82ee, 0x78a5636f, 0x84c87814, 0x8cc70208, 0x90befffa, 0xa4506ceb, 0xbef9a3f7, 0xc67178f2]

  const INITIAL: seq<word> := [
    0x6a09e667, 0xbb67ae85, 0x3c6ef372, 0xa54ff53a, 0x510e527f, 0x9b05688c, 0x1f83d9ab, 0x5be0cd19]

  // ----- 32-bit words

  lemma Two32()
    ensures Pow2(32) == TWO32
  {
    Pow2Values();
    assert Pow2(20) == 16 * Pow2(16);
    assert Pow2(24) == 16 * Pow2(20);
    assert Pow2(28) == 16 * Pow2(24);
    assert Pow2(32) == 16 * Pow2(28);
  }

  function Xor(x: word, y: word): word {
    Two32();
    XorBound(x, y, 32);
    BitXor(x, y)
  }

  function And(x: word, y: word): word {
    AndBound(x, y);
    BitAnd(x, y)
  }

  function Not(x: word): word {
    TWO32 - 1 - x
  }

  /** Left shift; bits beyond 32 are lost. */
  function ShiftLeft(x: word, n: nat): word {
    Two32();
    LowBound(Shl(x, n), 32);
    Low(Shl(x, n), 32)
  }

  lemma {:induction false} ShrSmaller(x: nat, n: nat)
    ensures Shr(x, n) <= x
    decreases n
  {
    if n > 0 {
      ShrSmaller(x / 2, n - 1);
    }
  }

  function ShiftRight(x: word, n: nat): word {
    ShrSmaller(x, n);
    Shr(x, n)
  }

  /** Rotation to the right. */
  function Rotr(x: word, n: nat): word
    requires n < 32
  {
    Two32();
    OrBound(ShiftRight(x, n), ShiftLeft(x, 32 - n), 32);
    BitOr(ShiftRight(x, n), ShiftLeft(x, 32 - n))
  }

  function Ch(x: word, y: word, z: word): word {
    Xor(And(x, y), And(Not(x), z))
  }

  function Maj(x: word, y: word, z: word): word {
    Xor(Xor(And(x, y), And(x, z)), And(y, z))
  }

  function BSig0(x: word): word {
    Xor(Xor(Rotr(x, 2), Rotr(x, 13)), Rotr(x, 22))
  }

  function BSig1(x: word): word {
    Xor(Xor(Rotr(x, 6), Rotr(x, 11)), Rotr(x, 25))
  }

  function SSig0(x: word): word {
    Xor(Xor(Rotr(x, 7), Rotr(x, 18)), ShiftRight(x, 3))
  }

  function SSig1(x: word): word {
    Xor(Xor(Rotr(x, 17), Rotr(x, 19)), ShiftRight(x, 10))
  }

  /** Addition modulo 2^32. */
  function Add(x: word, y: word): word {
    (x + y) % TWO32
  }

  // ----- Compression of one block

  function BigEndian(b: seq<byte>, i: nat): word
    requires i + 4 <= |b|
  {
    0x1000000 * (b[i] as nat) + 0x10000 * (b[i + 1] as nat) + 0x100 * (b[i + 2] as nat) + b[i + 3]
  }

  /** Word t of the message schedule. */
  function Schedule(block: seq<byte>, t: nat): word
    requires |block| == 64 && t < 64
  {
    if t < 16 then BigEndian(block, 4 * t)
    else
      Add(Add(Add(SSig1(Schedule(block, t - 2)), Schedule(block, t - 7)), SSig0(Schedule(block, t - 15))),
          Schedule(block, t - 16))
  }

  datatype Vars = Vars(a: word, b: word, c: word, d: word, e: word, f: word, g: word, h: word)

  function Round(v: Vars, k: word, w: word): Vars {
    var t1 := Add(Add(Add(Add(v.h, BSig1(v.e)), Ch(v.e, v.f, v.g)), k), w);
    var t2 := Add(BSig0(v.a), Maj(v.a, v.b, v.c));
    Vars(Add(t1, t2), v.a, v.b, v.c, Add(v.d, t1), v.e, v.f, v.g)
  }

  function Rounds(v: Vars, block: seq<byte>, t: nat): Vars
    requires |block| == 64 && t <= 64
  {
    if t == 0 then v else Round(Rounds(v, block, t - 1), K[t - 1], Schedule(block, t - 1))
  }

  function VarsOf(h: seq<word>): Vars
    requires |h| == 8
  {
    Vars(h[0], h[1], h[2], h[3], h[4], h[5], h[6], h[7])
  }

  function Compress(h: seq<word>, block: seq<byte>): (r: seq<word>)
    requires |h| == 8 && |block| == 64
    ensures |r| == 8
  {
    var v := Rounds(VarsOf(h), block, 64);
    [Add(h[0], v.a), Add(h[1], v.b), Add(h[2], v.c), Add(h[3], v.d),
     Add(h[4], v.e), Add(h[5], v.f), Add(h[6], v.g), Add(h[7], v.h)]
  }

  // ----- Machine words

  /** A machine word holds numbers below `wide`, a multiple of 2^32; results wrap around. */
  predicate Wide(wide: nat) {
    wide > 0 && wide % TWO32 == 0
  }

  function Wrap(x: nat, wide: nat): (r: nat)
    requires wide > 0
    ensures r < wide
  {
    x % wide
  }

  function Mask32(x: nat): word {
    x % TWO32
  }

  /** Masking undoes the wrap-around. */
  lemma MaskWrap(x: nat, wide: nat)
    requires Wide(wide)
    ensures Mask32(Wrap(x, wide)) == Mask32(x)
  {
    hide Times;
    var k := wide / TWO32;
    var q, r := x / wide, x % wide;
    DivTimes(wide, TWO32);
    DivTimes(x, wide);
    TimesAssociate(q, k, TWO32);
    TimesIs(Times(q, k), TWO32);
    MaskAdd(Times(q, k), r);
  }

  lemma MaskAdd(q: nat, r: nat)
    ensures Mask32(q * TWO32 + r) == Mask32(r)
  {
  }

  lemma WideAtLeast(wide: nat)
    requires Wide(wide)
    ensures wide >= TWO32
  {
  }

  lemma MaskSum(a: nat, b: nat)
    ensures Mask32(a + b) == Mask32(Mask32(a) + b) == Mask32(Mask32(a) + Mask32(b))
  {
  }

  /** Addition of machine words. */
  function Plus(x: nat, y: nat, wide: nat): nat
    requires wide > 0
  {
    Wrap(x + y, wide)
  }

  /** Adding machine words and masking the result is addition modulo 2^32. */
  lemma MaskAddition(x: nat, y: nat, wide: nat)
    requires Wide(wide)
    ensures Mask32(Plus(x, y, wide)) == Add(Mask32(x), Mask32(y))
  {
    hide Wide;
    MaskWrap(x + y, wide);
    MaskSum(x, y);
  }

  lemma {:induction false} LowOfOr(a: nat, b: nat, n: nat)
    ensures Low(BitOr(a, b), n) == BitOr(Low(a, n), Low(b, n))
    decreases n
  {
    if n > 0 {
      if a == 0 {
        LowZero(n);
      } else if b == 0 {
        LowZero(n);
      } else {
        LowOfOr(a / 2, b / 2, n - 1);
      }
    }
  }

  lemma {:induction false} LowOfAnd(a: nat, b: nat, n: nat)
    ensures Low(BitAnd(a, b), n) == BitAnd(Low(a, n), Low(b, n))
    decreases n
  {
    if n > 0 {
      if a == 0 || b == 0 {
        LowZero(n);
      } else {
        LowOfAnd(a / 2, b / 2, n - 1);
      }
    }
  }

  lemma {:induction false} LowZero(n: nat)
    ensures Low(0, n) == 0
    decreases n
  {
    if n > 0 {
      LowZero(n - 1);
    }
  }

  lemma MaskIsLow(x: nat)
    ensures Mask32(x) == Low(x, 32) && (x < TWO32 ==> Mask32(x) == x)
  {
    hide Low;
    Two32();
    LowIsMod(x, 32);
  }

  /** The complement of a machine word has more ones than that of a 32-bit word; the
      mask with z removes them. */
  function WideCh(x: word, y: word, z: word, wide: nat): nat
    requires Wide(wide)
  {
    WideAtLeast(wide);
    BitXor(BitAnd(x, y), BitAnd(wide - 1 - x, z))
  }

  lemma WideChIsCh(x: word, y: word, z: word, wide: nat)
    requires Wide(wide)
    ensures WideCh(x, y, z, wide) == Ch(x, y, z)
  {
    hide BitAnd, BitXor, Low;
    WideAtLeast(wide);
    var v: nat := wide - 1 - x;
    assert Mask32(v) == Not(x) by {
      var k := wide / TWO32 - 1;
      assert v == k * TWO32 + (TWO32 - 1 - x);
    }
    MaskIsLow(v);
    MaskIsLow(z);
    LowOfAnd(v, z, 32);
    AndBoundRight(v, z);
    MaskIsLow(BitAnd(v, z));
  }

  lemma {:induction false} AndBoundRight(a: nat, b: nat)
    ensures BitAnd(a, b) <= b
  {
    if a != 0 && b != 0 {
      AndBoundRight(a / 2, b / 2);
    }
  }

  /** Rotation on machine words: the bits shifted out on the left are masked away. */
  function WideRotr(x: word, n: nat, wide: nat): word
    requires Wide(wide) && n < 32
  {
    Mask32(BitOr(Shr(x, n), Wrap(Shl(x, 32 - n), wide)))
  }

  lemma WideRotrIsRotr(x: word, n: nat, wide: nat)
    requires Wide(wide) && n < 32
    ensures WideRotr(x, n, wide) == Rotr(x, n)
  {
    hide BitOr, Low, Shl, Shr;
    WideAtLeast(wide);
    var a, b := Shr(x, n), Shl(x, 32 - n);
    ShrSmaller(x, n);
    MaskIsLow(BitOr(a, Wrap(b, wide)));
    LowOfOr(a, Wrap(b, wide), 32);
    MaskIsLow(a);
    MaskIsLow(Wrap(b, wide));
    MaskWrap(b, wide);
    MaskIsLow(b);
  }

  function WideBSig0(x: word, wide: nat): nat
    requires Wide(wide)
  {
    BitXor(BitXor(WideRotr(x, 2, wide), WideRotr(x, 13, wide)), WideRotr(x, 22, wide))
  }

  function WideBSig1(x: word, wide: nat): nat
    requires Wide(wide)
  {
    BitXor(BitXor(WideRotr(x, 6, wide), WideRotr(x, 11, wide)), WideRotr(x, 25, wide))
  }

  function WideSSig0(x: word, wide: nat): nat
    requires Wide(wide)
  {
    BitXor(BitXor(WideRotr(x, 7, wide), WideRotr(x, 18, wide)), Shr(x, 3))
  }

  function WideSSig1(x: word, wide: nat): nat
    requires Wide(wide)
  {
    BitXor(BitXor(WideRotr(x, 17, wide), WideRotr(x, 19, wide)), Shr(x, 10))
  }

  lemma WideSigmas(x: word, wide: nat)
    requires Wide(wide)
    ensures WideBSig0(x, wide) == BSig0(x) && WideBSig1(x, wide) == BSig1(x)
    ensures WideSSig0(x, wide) == SSig0(x) && WideSSig1(x, wide) == SSig1(x)
  {
    hide Wide, WideRotr, Rotr, BitXor, Shr;
    WideRotrIsRotr(x, 2, wide);
    WideRotrIsRotr(x, 6, wide);
    WideRotrIsRotr(x, 7, wide);
    WideRotrIsRotr(x, 11, wide);
    WideRotrIsRotr(x, 13, wide);
    WideRotrIsRotr(x, 17, wide);
    WideRotrIsRotr(x, 18, wide);
    WideRotrIsRotr(x, 19, wide);
    WideRotrIsRotr(x, 22, wide);
    WideRotrIsRotr(x, 25, wide);
  }

  function WideMaj(x: word, y: word, z: word): nat {
    BitXor(BitXor(BitAnd(x, y), BitAnd(x, z)), BitAnd(y, z))
  }

  lemma {:induction false} OrCommutes(a: nat, b: nat)
    ensures BitOr(a, b) == BitOr(b, a)
    decreases a + b
  {
    if a != 0 && b != 0 {
      OrCommutes(a / 2, b / 2);
    }
  }

  lemma ShlBound(x: byte, k: nat)
    ensures Shl(x, k) < Pow2(8 + k)
  {
    Pow2Values();
    ShlPow(x, 8, k);
  }

  /** Four bytes or-ed together, the first one highest. */
  lemma OrBytes(a: byte, b: byte, c: byte, d: byte)
    ensures BitOr(BitOr(BitOr(Shl(a, 24), Shl(b, 16)), Shl(c, 8)), d)
         == 0x1000000 * (a as nat) + 0x10000 * (b as nat) + 0x100 * (c as nat) + d
  {
    hide BitOr, Shl;
    Pow2Values();
    var ab, abc := 256 * (a as nat) + b, 65536 * (a as nat) + 256 * (b as nat) + c;
    ShlShl(a, 8, 16);
    ShlByEight(a);
    assert Shl(a, 24) == Shl(256 * (a as nat), 16);
    ShlBound(b, 16);
    OrCommutes(Shl(a, 24), Shl(b, 16));
    OrDisjoint(Shl(b, 16), 24, a);
    ShlAdd(256 * (a as nat), b, 16);
    assert BitOr(Shl(a, 24), Shl(b, 16)) == Shl(ab, 16);
    ShlBound(c, 8);
    OrCommutes(Shl(ab, 16), Shl(c, 8));
    OrDisjoint(Shl(c, 8), 16, ab);
    ShlShl(ab, 8, 8);
    ShlByEight(ab);
    ShlAdd(256 * ab, c, 8);
    assert BitOr(Shl(ab, 16), Shl(c, 8)) == Shl(abc, 8);
    OrCommutes(Shl(abc, 8), d);
    OrDisjoint(d, 8, abc);
    ShlByEight(abc);
  }
}
