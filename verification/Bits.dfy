/** Bits, bytes and the numbers they stand for.

    A bit stream is a sequence of bits, first bit first.  `Val` reads a group of
    bits with the least significant bit first, as RFC 1951 section 3.1.1 packs
    every field except Huffman codes; `MsbBits` lists the bits of a Huffman code,
    most significant first. */
module Bits {

  type byte = n: nat | n < 256
  type bit = n: nat | n < 2

  function Pow2(n: nat): (p: nat)
    ensures p > 0
  {
    if n == 0 then 1 else 2 * Pow2(n - 1)
  }

  lemma Powers()
    ensures Pow2(0) == 1 && Pow2(1) == 2 && Pow2(2) == 4 && Pow2(3) == 8 && Pow2(4) == 16 && Pow2(5) == 32 && Pow2(6) == 64
    ensures Pow2(7) == 128 && Pow2(8) == 256 && Pow2(9) == 512 && Pow2(10) == 1024 && Pow2(11) == 2048 && Pow2(12) == 4096
    ensures Pow2(13) == 8192
  {
  }

  lemma Pow2Values()
    ensures Pow2(5) == 32 && Pow2(8) == 256 && Pow2(9) == 512 && Pow2(15) == 32768 && Pow2(16) == 65536
  {
    assert Pow2(4) == 16;
    assert Pow2(8) == 16 * Pow2(4);
    assert Pow2(12) == 16 * Pow2(8);
    assert Pow2(16) == 16 * Pow2(12);
  }

  lemma {:induction false} Pow2Monotone(a: nat, b: nat)
    requires a <= b
    ensures Pow2(a) <= Pow2(b)
  {
    if a < b {
      Pow2Monotone(a, b - 1);
    }
  }

  // ----- Shifts and masks of unsigned numbers

  function Shl(v: nat, k: nat): nat {
    if k == 0 then v else 2 * Shl(v, k - 1)
  }

  function Shr(v: nat, k: nat): nat
    decreases k
  {
    if k == 0 then v else Shr(v / 2, k - 1)
  }

  /** The k low bits of v as a number. */
  function Low(v: nat, k: nat): nat
    decreases k
  {
    if k == 0 then 0 else v % 2 + 2 * Low(v / 2, k - 1)
  }

  lemma {:induction false} ShlOne(k: nat)
    ensures Shl(1, k) == Pow2(k)
  {
    if k > 0 {
      ShlOne(k - 1);
    }
  }

  lemma {:induction false} ShlZero(k: nat)
    ensures Shl(0, k) == 0
  {
    if k > 0 {
      ShlZero(k - 1);
    }
  }

  lemma {:induction false} ShlAdd(a: nat, b: nat, k: nat)
    ensures Shl(a + b, k) == Shl(a, k) + Shl(b, k)
  {
    if k > 0 {
      ShlAdd(a, b, k - 1);
    }
  }

  lemma {:induction false} ShlShl(v: nat, j: nat, k: nat)
    ensures Shl(Shl(v, j), k) == Shl(v, j + k)
  {
    if k > 0 {
      ShlShl(v, j, k - 1);
    }
  }

  lemma ShlByEight(v: nat)
    ensures Shl(v, 8) == 256 * v
  {
    assert Shl(v, 1) == 2 * v;
    assert Shl(v, 2) == 2 * Shl(v, 1);
    assert Shl(v, 4) == 4 * Shl(v, 2);
    assert Shl(v, 6) == 4 * Shl(v, 4);
    assert Shl(v, 8) == 4 * Shl(v, 6);
  }

  lemma ShlBySixteen(v: nat)
    ensures Shl(v, 16) == 65536 * v
  {
    ShlByEight(v);
    ShlByEight(Shl(v, 8));
    ShlShl(v, 8, 8);
  }

  lemma {:induction false} ShrShr(v: nat, j: nat, k: nat)
    ensures Shr(Shr(v, j), k) == Shr(v, j + k)
    decreases j
  {
    if j > 0 {
      ShrShr(v / 2, j - 1, k);
    }
  }

  lemma {:induction false} ShrOfZero(k: nat)
    ensures Shr(0, k) == 0
  {
    if k > 0 {
      ShrOfZero(k - 1);
    }
  }

  lemma {:induction false} ShlPow(x: nat, n: nat, k: nat)
    requires x < Pow2(n)
    ensures Shl(x, k) < Pow2(n + k)
    decreases k
  {
    if k > 0 {
      ShlPow(x, n, k - 1);
      assert n + k == n + (k - 1) + 1;
    }
  }

  lemma {:induction false} LowBound(v: nat, k: nat)
    ensures Low(v, k) < Pow2(k)
    decreases k
  {
    if k > 0 {
      LowBound(v / 2, k - 1);
    }
  }

  lemma {:induction false} LowOfSmall(v: nat, k: nat)
    requires v < Pow2(k)
    ensures Low(v, k) == v
    decreases k
  {
    if k > 0 {
      LowOfSmall(v / 2, k - 1);
    }
  }

  /** A number is its low k bits plus the rest shifted back up. */
  lemma {:induction false} LowHigh(v: nat, k: nat)
    ensures v == Low(v, k) + Shl(Shr(v, k), k)
    decreases k
  {
    if k > 0 {
      LowHigh(v / 2, k - 1);
    }
  }

  lemma {:induction false} SplitSum(lo: nat, hi: nat, k: nat)
    requires lo < Pow2(k)
    ensures Low(lo + Shl(hi, k), k) == lo && Shr(lo + Shl(hi, k), k) == hi
    decreases k
  {
    if k > 0 {
      var v := lo + Shl(hi, k);
      assert v / 2 == lo / 2 + Shl(hi, k - 1) && v % 2 == lo % 2;
      SplitSum(lo / 2, hi, k - 1);
    }
  }

  lemma {:induction false} ShrBound(v: nat, k: nat, n: nat)
    requires v < Pow2(k + n)
    ensures Shr(v, k) < Pow2(n)
    decreases k
  {
    if k > 0 {
      ShrBound(v / 2, k - 1, n);
    }
  }

  lemma {:induction false} SumBound(lo: nat, hi: nat, k: nat, n: nat)
    requires lo < Pow2(k) && hi < Pow2(n)
    ensures lo + Shl(hi, k) < Pow2(k + n)
    decreases k
  {
    if k > 0 {
      SumBound(lo / 2, hi, k - 1, n);
    }
  }

  /** Multiplication, for proofs that only need to step from one multiple to the next. */
  function Times(n: nat, k: nat): nat {
    n * k
  }

  lemma TimesZero(k: nat)
    ensures Times(0, k) == 0 && Times(k, 0) == 0
  {
  }

  lemma TimesNext(n: nat, k: nat)
    ensures Times(n + 1, k) == Times(n, k) + k
  {
  }

  lemma TimesOne(k: nat)
    ensures Times(1, k) == k
  {
  }

  lemma {:induction false} TimesMonotone(a: nat, b: nat, k: nat)
    requires a <= b
    ensures Times(a, k) <= Times(b, k)
    decreases b
  {
    if a < b {
      TimesMonotone(a, b - 1, k);
      TimesNext(b - 1, k);
    }
  }

  lemma TimesSwap(a: nat, b: nat)
    ensures Times(a, b) == Times(b, a)
  {
  }

  lemma TimesMore(y: nat, k: nat)
    ensures Times(y, k + 1) == Times(y, k) + y
  {
  }

  // ----- Shifts as multiplication and division

  lemma MulOrder(a: int, b: int, w: nat)
    ensures a < b ==> a * w + w <= b * w
  {
    if a < b {
      var d: nat := b - a - 1;
      assert 0 <= d * w;
      assert b == a + 1 + d;
      assert b * w == a * w + w + d * w;
    }
  }

  lemma ModUnique(a: nat, q: nat, r: nat, w: nat)
    requires 0 < w && r < w && a == q * w + r
    ensures a % w == r && a / w == q
  {
    var q', r' := a / w, a % w;
    assert a == q' * w + r';
    MulOrder(q, q', w);
    MulOrder(q', q, w);
  }

  lemma {:induction false} LowIsMod(a: nat, k: nat)
    ensures Low(a, k) == a % Pow2(k)
    decreases k
  {
    if k == 0 {
      assert a % 1 == 0;
    } else {
      LowIsMod(a / 2, k - 1);
      HalfMod(a, Pow2(k - 1));
    }
  }

  lemma TimesAssociate(a: nat, b: nat, c: nat)
    ensures Times(a, Times(b, c)) == Times(Times(a, b), c)
  {
    assert a * (b * c) == a * b * c;
  }

  lemma TimesIs(a: nat, b: nat)
    ensures Times(a, b) == a * b
  {
  }

  lemma DivTimes(m: nat, b: nat)
    requires b > 0
    ensures m == Times(m / b, b) + m % b && m % b < b
  {
  }

  lemma TimesPlus(p: nat, q: nat, b: nat)
    ensures Times(p + q, b) == Times(p, b) + Times(q, b)
  {
  }

  /** Reducing a summand first does not matter. */
  lemma ModAdd(m: nat, n: nat, b: nat)
    requires b > 0
    ensures (m % b + n) % b == (m + n) % b
  {
    hide Times;
    var q, r := m / b, m % b;
    var p, s := (r + n) / b, (r + n) % b;
    DivTimes(m, b);
    DivTimes(r + n, b);
    TimesPlus(q, p, b);
    TimesUnique(m + n, q + p, s, b);
  }

  lemma TimesUnique(a: nat, q: nat, r: nat, b: nat)
    requires 0 < b && r < b && a == Times(q, b) + r
    ensures a % b == r && a / b == q
  {
    ModUnique(a, q, r, b);
  }

  lemma HalfMod(a: nat, p: nat)
    requires p > 0
    ensures a % (2 * p) == a % 2 + 2 * (a / 2 % p)
  {
    var h := a / 2;
    var q, r := h / p, h % p;
    assert h == q * p + r;
    assert q * (2 * p) == 2 * (q * p);
    ModUnique(a, q, a % 2 + 2 * r, 2 * p);
  }

  lemma {:induction false} ShlIsMul(v: nat, k: nat)
    ensures Shl(v, k) == v * Pow2(k)
  {
    if k > 0 {
      ShlIsMul(v, k - 1);
      var p := Pow2(k - 1);
      assert v * (2 * p) == 2 * (v * p);
    }
  }

  lemma ShrIsDiv(v: nat, k: nat)
    ensures Shr(v, k) == v / Pow2(k) && Low(v, k) == v % Pow2(k)
  {
    LowHigh(v, k);
    LowBound(v, k);
    ShlIsMul(Shr(v, k), k);
    ModUnique(v, Shr(v, k), Low(v, k), Pow2(k));
  }

  // ----- Groups of bits, least significant bit first

  function Val(b: seq<bit>): nat {
    if b == [] then 0 else b[0] + 2 * Val(b[1..])
  }

  /** Bit i of the binary representation of v. */
  function BitOf(v: nat, i: nat): bit {
    Shr(v, i) % 2
  }

  /** The n low bits of v, least significant first. */
  function LsbBits(v: nat, n: nat): (b: seq<bit>)
    ensures |b| == n && forall i :: 0 <= i < n ==> b[i] == BitOf(v, i)
  {
    seq(n, i requires 0 <= i < n => BitOf(v, i))
  }

  /** The n low bits of v, most significant first. */
  function MsbBits(v: nat, n: nat): (b: seq<bit>)
    ensures |b| == n && forall i :: 0 <= i < n ==> b[i] == BitOf(v, n - 1 - i)
  {
    seq(n, i requires 0 <= i < n => BitOf(v, n - 1 - i))
  }

  function Zeros(n: nat): (b: seq<bit>)
    ensures |b| == n && forall i :: 0 <= i < n ==> b[i] == 0
  {
    seq(n, _ => 0)
  }

  lemma LsbBitsOfZero(n: nat)
    ensures LsbBits(0, n) == Zeros(n)
  {
    forall i | 0 <= i < n
      ensures BitOf(0, i) == 0
    {
      ShrOfZero(i);
    }
  }

  lemma {:induction false} ValBound(b: seq<bit>)
    ensures Val(b) < Pow2(|b|)
  {
    if b != [] {
      ValBound(b[1..]);
    }
  }

  lemma {:induction false} ValOfLsbBits(v: nat, n: nat)
    ensures Val(LsbBits(v, n)) == Low(v, n)
    decreases n
  {
    if n > 0 {
      ValOfLsbBits(v / 2, n - 1);
      assert LsbBits(v, n)[1..] == LsbBits(v / 2, n - 1);
    }
  }

  lemma ValOfSmall(v: nat, n: nat)
    requires v < Pow2(n)
    ensures Val(LsbBits(v, n)) == v
  {
    ValOfLsbBits(v, n);
    LowOfSmall(v, n);
  }

  lemma {:induction false} LsbBitsOfVal(b: seq<bit>)
    ensures LsbBits(Val(b), |b|) == b
  {
    if b != [] {
      LsbBitsOfVal(b[1..]);
      assert Val(b) / 2 == Val(b[1..]);
      var c := LsbBits(Val(b), |b|);
      assert c[0] == b[0];
      assert c[1..] == LsbBits(Val(b[1..]), |b| - 1);
      assert c == [c[0]] + c[1..];
    }
  }

  lemma ValInjective(a: seq<bit>, b: seq<bit>)
    requires |a| == |b| && Val(a) == Val(b)
    ensures a == b
  {
    LsbBitsOfVal(a);
    LsbBitsOfVal(b);
  }

  lemma {:induction false} ValConcat(a: seq<bit>, b: seq<bit>)
    ensures Val(a + b) == Val(a) + Shl(Val(b), |a|)
  {
    if a == [] {
      assert a + b == b;
    } else {
      ValConcat(a[1..], b);
      assert (a + b)[1..] == a[1..] + b;
    }
  }

  lemma {:induction false} ValSplit(b: seq<bit>, n: nat)
    requires n <= |b|
    ensures Low(Val(b), n) == Val(b[..n])
    ensures Shr(Val(b), n) == Val(b[n..])
    decreases n
  {
    if n > 0 {
      ValSplit(b[1..], n - 1);
      assert Val(b) / 2 == Val(b[1..]);
      assert b[..n][1..] == b[1..][..n - 1];
      assert b[1..][n - 1..] == b[n..];
    }
  }

  lemma {:induction false} ValZeros(n: nat)
    ensures Val(Zeros(n)) == 0
  {
    if n > 0 {
      assert Zeros(n)[1..] == Zeros(n - 1);
      ValZeros(n - 1);
    }
  }

  // ----- Groups of bits, most significant first

  /** The number whose binary digits, most significant first, are b. */
  function MsbVal(b: seq<bit>): nat {
    if b == [] then 0 else 2 * MsbVal(b[..|b| - 1]) + b[|b| - 1]
  }

  lemma {:induction false} MsbValBound(b: seq<bit>)
    ensures MsbVal(b) < Pow2(|b|)
    decreases |b|
  {
    if b != [] {
      MsbValBound(b[..|b| - 1]);
    }
  }

  lemma {:induction false} MsbValOfBits(v: nat, n: nat)
    ensures MsbVal(MsbBits(v, n)) == Low(v, n)
    decreases n
  {
    if n > 0 {
      MsbValOfBits(v / 2, n - 1);
      var b := MsbBits(v, n);
      assert b[..n - 1] == MsbBits(v / 2, n - 1);
      assert b[n - 1] == BitOf(v, 0);
    }
  }

  lemma {:induction false} MsbBitsOfVal(b: seq<bit>)
    ensures MsbBits(MsbVal(b), |b|) == b
    decreases |b|
  {
    if b != [] {
      var init := b[..|b| - 1];
      MsbBitsOfVal(init);
      assert MsbVal(b) / 2 == MsbVal(init);
      var c := MsbBits(MsbVal(b), |b|);
      assert c[..|b| - 1] == MsbBits(MsbVal(init), |b| - 1);
      assert c == c[..|b| - 1] + [c[|b| - 1]];
      assert b == init + [b[|b| - 1]];
    }
  }

  lemma {:induction false} MsbValConcat(a: seq<bit>, b: seq<bit>)
    ensures MsbVal(a + b) == Shl(MsbVal(a), |b|) + MsbVal(b)
    decreases |b|
  {
    if b == [] {
      assert a + b == a;
    } else {
      MsbValConcat(a, b[..|b| - 1]);
      assert (a + b)[..|a + b| - 1] == a + b[..|b| - 1];
    }
  }

  // ----- Bitwise operators on unsigned numbers

  function BitOr(a: nat, b: nat): nat
    decreases a + b
  {
    if a == 0 then b else if b == 0 then a
    else (if a % 2 == 1 || b % 2 == 1 then 1 else 0) + 2 * BitOr(a / 2, b / 2)
  }

  function BitAnd(a: nat, b: nat): nat
    decreases a + b
  {
    if a == 0 || b == 0 then 0
    else (if a % 2 == 1 && b % 2 == 1 then 1 else 0) + 2 * BitAnd(a / 2, b / 2)
  }

  function BitXor(a: nat, b: nat): nat
    decreases a + b
  {
    if a == 0 then b else if b == 0 then a
    else (if a % 2 != b % 2 then 1 else 0) + 2 * BitXor(a / 2, b / 2)
  }

  /** Or-ing values that share no bit position adds them. */
  lemma {:induction false} OrDisjoint(a: nat, k: nat, hi: nat)
    requires a < Pow2(k)
    ensures BitOr(a, Shl(hi, k)) == a + Shl(hi, k)
    decreases k
  {
    if k > 0 {
      OrDisjoint(a / 2, k - 1, hi);
    }
  }

  /** Masking with a power of two minus one keeps the low bits. */
  lemma {:induction false} AndMask(a: nat, k: nat)
    ensures BitAnd(a, Pow2(k) - 1) == Low(a, k)
    decreases k
  {
    if k > 0 {
      AndMask(a / 2, k - 1);
      var p := Pow2(k - 1);
      assert (2 * p - 1) / 2 == p - 1 && (2 * p - 1) % 2 == 1;
      if a == 0 {
        LowOfSmall(0, k);
      }
    }
  }

  /** `w & (w - 1) == 0` is the usual test for a power of two. */
  lemma {:induction false} PowerOfTwoTest(w: nat) returns (k: nat)
    requires w > 0 && BitAnd(w, w - 1) == 0
    ensures w == Pow2(k)
  {
    if w == 1 {
      k := 0;
    } else {
      if w % 2 == 1 {
        assert (w - 1) / 2 == w / 2;
        AndSelf(w / 2);
        assert false;
      }
      assert (w - 1) / 2 == w / 2 - 1;
      k := PowerOfTwoTest(w / 2);
      k := k + 1;
    }
  }

  lemma {:induction false} AndSelf(a: nat)
    ensures BitAnd(a, a) == a
  {
    if a > 0 {
      AndSelf(a / 2);
    }
  }

  lemma {:induction false} XorBound(a: nat, b: nat, k: nat)
    requires a < Pow2(k) && b < Pow2(k)
    ensures BitXor(a, b) < Pow2(k)
    decreases k
  {
    if a != 0 && b != 0 {
      XorBound(a / 2, b / 2, k - 1);
    }
  }

  // ----- Byte strings as bit streams

  function BytesBits(data: seq<byte>): (b: seq<bit>)
    ensures |b| == 8 * |data|
  {
    seq(8 * |data|, i requires 0 <= i < 8 * |data| => BitOf(data[i / 8], i % 8))
  }

  /** Bits needed to fill the last byte of a stream of n bits. */
  function PadTo8(n: nat): (p: nat)
    ensures p < 8 && (n + p) % 8 == 0
  {
    (8 - n % 8) % 8
  }

  lemma BytesBitsConcat(a: seq<byte>, b: seq<byte>)
    ensures BytesBits(a + b) == BytesBits(a) + BytesBits(b)
  {
    var l, r := BytesBits(a + b), BytesBits(a) + BytesBits(b);
    forall i | 0 <= i < |l|
      ensures l[i] == r[i]
    {
      if i < 8 * |a| {
        assert (a + b)[i / 8] == a[i / 8];
      } else {
        var j := i - 8 * |a|;
        assert i / 8 == |a| + j / 8 && i % 8 == j % 8;
        assert (a + b)[i / 8] == b[j / 8];
      }
    }
  }

  lemma BytesBitsOne(x: byte)
    ensures BytesBits([x]) == LsbBits(x, 8)
  {
  }

  lemma BytesBitsSplit(data: seq<byte>, i: nat)
    requires i <= |data|
    ensures BytesBits(data)[..8 * i] == BytesBits(data[..i])
    ensures BytesBits(data)[8 * i..] == BytesBits(data[i..])
  {
    assert data == data[..i] + data[i..];
    BytesBitsConcat(data[..i], data[i..]);
  }

  // ----- Reading from a stream that is followed by zeros

  /** The n bits from `pos` on; past the end of the stream every bit reads as 0. */
  function Slice(s: seq<bit>, pos: nat, n: nat): (b: seq<bit>)
    ensures |b| == n
    ensures forall i :: 0 <= i < n ==> b[i] == if pos + i < |s| then s[pos + i] else 0
  {
    seq(n, i requires 0 <= i < n => if pos + i < |s| then s[pos + i] else 0)
  }

  lemma SliceSplit(s: seq<bit>, pos: nat, a: nat, b: nat)
    ensures Slice(s, pos, a + b) == Slice(s, pos, a) + Slice(s, pos + a, b)
    ensures Slice(s, pos, a + b)[..a] == Slice(s, pos, a)
    ensures Slice(s, pos, a + b)[a..] == Slice(s, pos + a, b)
  {
  }

  /** The stream has exactly the bits b at position pos. */
  predicate Here(s: seq<bit>, pos: nat, b: seq<bit>) {
    pos + |b| <= |s| && s[pos..pos + |b|] == b
  }

  lemma HereSplit(s: seq<bit>, pos: nat, a: seq<bit>, b: seq<bit>)
    requires Here(s, pos, a + b)
    ensures Here(s, pos, a) && Here(s, pos + |a|, b)
  {
    var t := s[pos..pos + |a + b|];
    assert t[..|a|] == a;
    assert t[|a|..] == b;
    assert s[pos..pos + |a|] == t[..|a|];
    assert s[pos + |a|..pos + |a| + |b|] == t[|a|..];
  }

  lemma HereSlice(s: seq<bit>, pos: nat, b: seq<bit>)
    requires Here(s, pos, b)
    ensures Slice(s, pos, |b|) == b
  {
    forall i | 0 <= i < |b|
      ensures Slice(s, pos, |b|)[i] == b[i]
    {
      assert s[pos..pos + |b|][i] == s[pos + i];
    }
  }
}
