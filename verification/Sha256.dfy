/** Streaming SHA-256. */
module Sha256 {
  import opened Bits
  import opened Sha256Words
  import Sha256Conforms
  import Fips180

  // ----- One block

  /** The sum the round starts with, on machine words. */
  function Temp1(v: Vars, k: word, w: word, wide: nat): nat
    requires Wide(wide)
  {
    Plus(Plus(Plus(Plus(v.h, WideBSig1(v.e, wide), wide), WideCh(v.e, v.f, v.g, wide), wide), k, wide), w, wide)
  }

  function Temp2(v: Vars, wide: nat): nat
    requires Wide(wide)
  {
    Plus(WideBSig0(v.a, wide), WideMaj(v.a, v.b, v.c), wide)
  }

  lemma MaskWord(x: word)
    ensures Mask32(x) == x
  {
  }

  /** A round on masked machine words is a round modulo 2^32. */
  lemma RoundMasked(v: Vars, k: word, w: word, wide: nat)
    requires Wide(wide)
    ensures
      var t1, t2 := Temp1(v, k, w, wide), Temp2(v, wide);
      var n := Round(v, k, w);
      Mask32(Plus(t1, t2, wide)) == n.a && Mask32(Plus(v.d, t1, wide)) == n.e
  {
    hide Plus, Mask32, WideBSig0, WideBSig1, WideCh, BSig0, BSig1, Ch, Maj, Add;
    WideAtLeast(wide);
    WideSigmas(v.e, wide);
    WideSigmas(v.a, wide);
    WideChIsCh(v.e, v.f, v.g, wide);
    MajIsMaj(v.a, v.b, v.c);
    var t1, t2 := Temp1(v, k, w, wide), Temp2(v, wide);
    var s0 := Plus(v.h, BSig1(v.e), wide);
    var s1 := Plus(s0, Ch(v.e, v.f, v.g), wide);
    var s2 := Plus(s1, k, wide);
    assert t1 == Plus(s2, w, wide);
    assert t2 == Plus(BSig0(v.a), Maj(v.a, v.b, v.c), wide);
    AddWord(v.h, BSig1(v.e), wide);
    AddWord(s0, Ch(v.e, v.f, v.g), wide);
    AddWord(s1, k, wide);
    AddWord(s2, w, wide);
    AddWord(BSig0(v.a), Maj(v.a, v.b, v.c), wide);
    MaskWord(v.h);
    MaskWord(BSig0(v.a));
    MaskWord(v.d);
    MaskAddition(t1, t2, wide);
    MaskAddition(v.d, t1, wide);
  }

  lemma MajIsMaj(x: word, y: word, z: word)
    ensures WideMaj(x, y, z) == Maj(x, y, z)
  {
  }

  lemma AddWord(x: nat, y: word, wide: nat)
    requires Wide(wide)
    ensures Mask32(Plus(x, y, wide)) == Add(Mask32(x), y)
  {
    hide Plus;
    MaskAddition(x, y, wide);
    MaskWord(y);
  }

  /** A word of the schedule from the four earlier ones it depends on. */
  function NextWord(w2: word, w7: word, w15: word, w16: word, wide: nat): word
    requires Wide(wide)
  {
    Mask32(Plus(Plus(Plus(WideSSig1(w2, wide), w7, wide), WideSSig0(w15, wide), wide), w16, wide))
  }

  lemma ScheduleMasked(block: seq<byte>, t: nat, wide: nat)
    requires |block| == 64 && 16 <= t < 64 && Wide(wide)
    ensures NextWord(Schedule(block, t - 2), Schedule(block, t - 7), Schedule(block, t - 15), Schedule(block, t - 16), wide)
         == Schedule(block, t)
  {
    hide Plus, Mask32, WideSSig0, WideSSig1, SSig0, SSig1, Add;
    WideAtLeast(wide);
    var a, b, c, d := Schedule(block, t - 2), Schedule(block, t - 7), Schedule(block, t - 15), Schedule(block, t - 16);
    WideSigmas(a, wide);
    WideSigmas(c, wide);
    var s0 := Plus(SSig1(a), b, wide);
    var s1 := Plus(s0, SSig0(c), wide);
    AddWord(SSig1(a), b, wide);
    AddWord(s0, SSig0(c), wide);
    AddWord(s1, d, wide);
    MaskWord(SSig1(a));
  }

  function OrWord(a: byte, b: byte, c: byte, d: byte): word {
    OrBytes(a, b, c, d);
    BitOr(BitOr(BitOr(Shl(a, 24), Shl(b, 16)), Shl(c, 8)), d)
  }

  lemma FirstWords(block: seq<byte>, t: nat)
    requires |block| == 64 && t < 16
    ensures OrWord(block[4 * t], block[4 * t + 1], block[4 * t + 2], block[4 * t + 3]) == Schedule(block, t)
  {
    hide BitOr, Shl;
    OrBytes(block[4 * t], block[4 * t + 1], block[4 * t + 2], block[4 * t + 3]);
  }

  /** The message schedule. */
  method ExpandBlock(block: seq<byte>, wide: nat) returns (w: array<word>)
    requires |block| == 64 && Wide(wide)
    ensures fresh(w) && w.Length == 64 && forall t :: 0 <= t < 64 ==> w[t] == Schedule(block, t)
  {
    hide OrWord, NextWord, Schedule;
    w := new word[64](_ => 0);
    for i := 0 to 16
      invariant forall t :: 0 <= t < i ==> w[t] == Schedule(block, t)
    {
      FirstWords(block, i);
      w[i] := OrWord(block[4 * i], block[4 * i + 1], block[4 * i + 2], block[4 * i + 3]);
    }
    for i := 16 to 64
      invariant forall t :: 0 <= t < i ==> w[t] == Schedule(block, t)
    {
      ScheduleMasked(block, i, wide);
      w[i] := NextWord(w[i - 2], w[i - 7], w[i - 15], w[i - 16], wide);
    }
  }

  /** Compresses one block into the state. */
  method HashBlock(digest: array<word>, block: seq<byte>, wide: nat)
    requires digest.Length == 8 && |block| == 64 && Wide(wide)
    modifies digest
    ensures digest[..] == Compress(old(digest[..]), block)
    ensures |K| == 64 && Fips180.Hashes(K, old(digest[..]), block, digest[..])
  {
    hide Fips180.Hashes, Round, Schedule, Temp1, Temp2, Plus, Mask32, Add;
    WideAtLeast(wide);
    var w := ExpandBlock(block, wide);
    ghost var h0 := digest[..];
    ghost var v0 := VarsOf(h0);
    var a, b, c, d := digest[0], digest[1], digest[2], digest[3];
    var e, f, g, h := digest[4], digest[5], digest[6], digest[7];
    for i := 0 to 64
      invariant digest[..] == h0 && forall t :: 0 <= t < 64 ==> w[t] == Schedule(block, t)
      invariant Vars(a, b, c, d, e, f, g, h) == Rounds(v0, block, i)
    {
      ghost var v := Vars(a, b, c, d, e, f, g, h);
      assert w[i] == Schedule(block, i) && Rounds(v0, block, i + 1) == Round(v, K[i], w[i]);
      RoundMasked(v, K[i], w[i], wide);
      Sha256Conforms.RoundMoves(v, K[i], w[i]);
      var temp1 := Temp1(Vars(a, b, c, d, e, f, g, h), K[i], w[i], wide);
      var temp2 := Temp2(Vars(a, b, c, d, e, f, g, h), wide);
      h := g;
      g := f;
      f := e;
      e := Mask32(Plus(d, temp1, wide));
      d := c;
      c := b;
      b := a;
      a := Mask32(Plus(temp1, temp2, wide));
    }
    AddMasked(h0[0], a, wide);
    AddMasked(h0[1], b, wide);
    AddMasked(h0[2], c, wide);
    AddMasked(h0[3], d, wide);
    AddMasked(h0[4], e, wide);
    AddMasked(h0[5], f, wide);
    AddMasked(h0[6], g, wide);
    AddMasked(h0[7], h, wide);
    digest[0] := Mask32(Plus(digest[0], a, wide));
    digest[1] := Mask32(Plus(digest[1], b, wide));
    digest[2] := Mask32(Plus(digest[2], c, wide));
    digest[3] := Mask32(Plus(digest[3], d, wide));
    digest[4] := Mask32(Plus(digest[4], e, wide));
    digest[5] := Mask32(Plus(digest[5], f, wide));
    digest[6] := Mask32(Plus(digest[6], g, wide));
    digest[7] := Mask32(Plus(digest[7], h, wide));
    assert digest[..] == Compress(h0, block);
    Sha256Conforms.CompressConforms(h0, block);
  }

  lemma AddMasked(x: word, y: word, wide: nat)
    requires Wide(wide)
    ensures Mask32(Plus(x, y, wide)) == Add(x, y)
  {
    hide Plus;
    AddWord(x, y, wide);
    MaskWord(x);
  }

  // ----- The padded message (FIPS 180-4 section 5.1.1)

  function ZeroBytes(n: nat): (z: seq<byte>)
    ensures |z| == n
  {
    seq(n, _ => 0)
  }

  /** The fewest zero bytes that leave room for the length in a whole number of blocks. */
  function PadZeros(n: nat): (k: nat)
    ensures k < 64 && (n + 1 + k + 8) % 64 == 0
  {
    if n % 64 <= 55 then 55 - n % 64 else 119 - n % 64
  }

  /** v in n bytes, the highest one first. */
  function BigEndianBytes(v: nat, n: nat): (b: seq<byte>)
    ensures |b| == n
  {
    if n == 0 then [] else BigEndianBytes(v / 256, n - 1) + [v % 256]
  }

  /** The message, a one bit, zeros, and eight times the count as a 64-bit number. */
  function PaddedAs(msg: seq<byte>, count: nat): (p: seq<byte>)
    ensures |p| % 64 == 0
  {
    msg + [0x80] + ZeroBytes(PadZeros(|msg|)) + BigEndianBytes(8 * count, 8)
  }

  /** The padding of the standard counts the bits of the message. */
  function Padded(msg: seq<byte>): (p: seq<byte>)
    ensures |p| % 64 == 0
  {
    PaddedAs(msg, |msg|)
  }

  /** All whole blocks of the data compressed into the state. */
  function Absorb(h: seq<word>, data: seq<byte>): (r: seq<word>)
    requires |h| == 8
    ensures |r| == 8
    decreases |data|
  {
    if |data| < 64 then h else Absorb(Compress(h, data[..64]), data[64..])
  }

  function WordBytes(h: seq<word>): (b: seq<byte>)
    ensures |b| == 4 * |h|
  {
    if h == [] then [] else WordBytes(h[..|h| - 1]) + BigEndianBytes(h[|h| - 1], 4)
  }

  function Digest(msg: seq<byte>): (d: seq<byte>)
    ensures |d| == 32
  {
    WordBytes(Absorb(INITIAL, Padded(msg)))
  }

  lemma {:induction false} AbsorbConcat(h: seq<word>, a: seq<byte>, b: seq<byte>)
    requires |h| == 8 && |a| % 64 == 0
    ensures Absorb(h, a + b) == Absorb(Absorb(h, a), b)
    decreases |a|
  {
    hide Compress;
    if a == [] {
      assert a + b == b;
    } else {
      assert (a + b)[..64] == a[..64] && (a + b)[64..] == a[64..] + b;
      AbsorbConcat(Compress(h, a[..64]), a[64..], b);
    }
  }

  // ----- The length counter

  /** The number that digits of 16 bits stand for, lowest digit first. */
  function Number(d: seq<nat>): nat {
    if d == [] then 0 else d[0] + 65536 * Number(d[1..])
  }

  /** 2 to the power of 16 n. */
  function Base(n: nat): (b: nat)
    ensures b > 0
  {
    if n == 0 then 1 else 65536 * Base(n - 1)
  }

  lemma BaseNext(n: nat)
    ensures Base(n + 1) == 65536 * Base(n) && Base(0) == 1
  {
  }

  lemma NumberNext(d: seq<nat>)
    requires d != []
    ensures Number(d) == d[0] + 65536 * Number(d[1..]) && Number([]) == 0
  {
  }

  function AddDigits(d: seq<nat>, n: nat): (r: seq<nat>)
    ensures |r| == |d|
    decreases |d|
  {
    if d == [] then []
    else
      var s := d[0] + n;
      if s < 65536 then [s] + d[1..] else [s % 65536] + AddDigits(d[1..], s / 65536)
  }

  predicate Digits(d: seq<nat>) {
    forall i :: 0 <= i < |d| ==> d[i] < 65536
  }

  lemma {:induction false} AddDigitsOk(d: seq<nat>, n: nat)
    requires Digits(d)
    ensures Digits(AddDigits(d, n)) && Number(AddDigits(d, n)) == (Number(d) + n) % Base(|d|)
    decreases |d|
  {
    hide Base, Number;
    NumberBound(d);
    if d == [] {
      BaseNext(0);
      assert n % 1 == 0;
      NoNumber();
    } else {
      var s := d[0] + n;
      var rest, b, r := d[1..], Base(|d| - 1), AddDigits(d, n);
      BaseNext(|d| - 1);
      NumberNext(d);
      NumberNext(r);
      if s < 65536 {
        NumberBound(r);
        assert r[1..] == rest;
      } else {
        var c := s / 65536;
        AddDigitsOk(rest, c);
        assert r[1..] == AddDigits(rest, c);
        DigitMod(s % 65536, Number(rest) + c, b);
        assert s == s % 65536 + 65536 * c;
      }
    }
  }

  lemma NoNumber()
    ensures Number([]) == 0
  {
  }

  lemma DigitMod(x: nat, v: nat, b: nat)
    requires x < 65536 && b > 0
    ensures (x + 65536 * v) % (65536 * b) == x + 65536 * (v % b)
  {
    hide Times;
    var q, r, d := v / b, v % b, 65536 * b;
    DivTimes(v, b);
    TimesAssociate(q, 65536, b);
    TimesAssociate(65536, q, b);
    TimesSwap(q, 65536);
    TimesIs(65536, b);
    TimesIs(65536, Times(q, b));
    assert Times(q, d) == 65536 * Times(q, b);
    TimesUnique(x + 65536 * v, q, x + 65536 * r, d);
  }

  lemma {:induction false} NumberBound(d: seq<nat>)
    requires Digits(d)
    ensures Number(d) < Base(|d|) && Number(d) % Base(|d|) == Number(d)
    decreases |d|
  {
    hide Base, Number;
    if d == [] {
      BaseNext(0);
      NoNumber();
    } else {
      NumberBound(d[1..]);
      BaseNext(|d| - 1);
      NumberNext(d);
    }
    SmallMod(Number(d), Base(|d|));
  }

  lemma SmallMod(x: nat, m: nat)
    requires x < m
    ensures x % m == x
  {
  }

  lemma {:induction false} NumberInjective(a: seq<nat>, b: seq<nat>)
    requires Digits(a) && Digits(b) && |a| == |b| && Number(a) == Number(b)
    ensures a == b
  {
    if a != [] {
      NumberInjective(a[1..], b[1..]);
      assert a == [a[0]] + a[1..] && b == [b[0]] + b[1..];
    }
  }

  /** Three bits to the left, across digits. */
  function ShiftDigits(d: seq<nat>, carry: nat): (r: seq<nat>)
    ensures |r| == |d|
    decreases |d|
  {
    if d == [] then [] else [(8 * d[0] + carry) % 65536] + ShiftDigits(d[1..], d[0] / 8192)
  }

  lemma {:induction false} ShiftDigitsOk(d: seq<nat>, carry: nat)
    requires Digits(d) && carry < 8
    ensures Digits(ShiftDigits(d, carry)) && Number(ShiftDigits(d, carry)) == (8 * Number(d) + carry) % Base(|d|)
    decreases |d|
  {
    hide Base, Number;
    if d == [] {
      BaseNext(0);
      assert carry % 1 == 0;
      NoNumber();
    } else {
      var b, r := Base(|d| - 1), ShiftDigits(d, carry);
      var c, x := d[0] / 8192, (8 * d[0] + carry) % 65536;
      BaseNext(|d| - 1);
      NumberNext(d);
      NumberNext(r);
      ShiftOne(d[0], carry);
      ShiftDigitsOk(d[1..], c);
      assert r[1..] == ShiftDigits(d[1..], c);
      var v := Number(d[1..]);
      DigitMod(x, 8 * v + c, b);
      assert 8 * (d[0] + 65536 * v) + carry == x + 65536 * (8 * v + c);
    }
  }

  lemma ShiftOne(x: nat, carry: nat)
    requires x < 65536 && carry < 8
    ensures x / 8192 < 8 && 8 * x + carry == (8 * x + carry) % 65536 + 65536 * (x / 8192)
  {
  }

  /** The digits, highest first, two bytes each, are the number in big-endian order. */
  function DigitBytes(d: seq<nat>): (b: seq<byte>)
    ensures |b| == 2 * |d|
  {
    if d == [] then [] else DigitBytes(d[1..]) + [d[0] / 256 % 256, d[0] % 256]
  }

  lemma {:induction false} DigitBytesOk(d: seq<nat>)
    requires Digits(d)
    ensures DigitBytes(d) == BigEndianBytes(Number(d), 2 * |d|)
    decreases |d|
  {
    hide BigEndianBytes, Number;
    if d == [] {
      NoBytes(Number(d));
    } else {
      DigitBytesOk(d[1..]);
      NumberNext(d);
      TwoBytes(d[0], Number(d[1..]), |d|);
    }
  }

  lemma NoBytes(v: nat)
    ensures BigEndianBytes(v, 0) == []
  {
  }

  /** A number with lowest digit x, as bytes. */
  lemma TwoBytes(x: nat, v: nat, n: nat)
    requires n > 0 && x < 65536
    ensures BigEndianBytes(x + 65536 * v, 2 * n) == BigEndianBytes(v, 2 * (n - 1)) + [x / 256 % 256, x % 256]
  {
    var u, m := x + 65536 * v, 2 * n;
    assert u / 256 == x / 256 + 256 * v && u % 256 == x % 256;
    assert x / 256 < 256;
    assert (x / 256 + 256 * v) / 256 == v && (x / 256 + 256 * v) % 256 == x / 256;
    BytesNext(u, m);
    BytesNext(u / 256, m - 1);
  }

  lemma BytesNext(v: nat, n: nat)
    requires n > 0
    ensures BigEndianBytes(v, n) == BigEndianBytes(v / 256, n - 1) + [v % 256]
  {
  }

  lemma {:induction false} BytesInjective(u: nat, v: nat, n: nat)
    requires BigEndianBytes(u, 2 * n) == BigEndianBytes(v, 2 * n)
    ensures u % Base(n) == v % Base(n)
    decreases n
  {
    hide BigEndianBytes, Base;
    if n == 0 {
      BaseNext(0);
      assert u % 1 == v % 1;
    } else {
      var x, y, b := u % 65536, v % 65536, Base(n - 1);
      BaseNext(n - 1);
      DigitMod(x, u / 65536, b);
      DigitMod(y, v / 65536, b);
      TwoBytes(x, u / 65536, n);
      TwoBytes(y, v / 65536, n);
      var p, q := BigEndianBytes(u / 65536, 2 * (n - 1)), BigEndianBytes(v / 65536, 2 * (n - 1));
      SameEnds(p, q, [x / 256 % 256, x % 256], [y / 256 % 256, y % 256]);
      assert x / 256 < 256 && y / 256 < 256;
      BytesInjective(u / 65536, v / 65536, n - 1);
    }
  }

  lemma SameEnds(p: seq<byte>, q: seq<byte>, x: seq<byte>, y: seq<byte>)
    requires p + x == q + y && |x| == |y| == 2
    ensures p == q && x[0] == y[0] && x[1] == y[1]
  {
    var n := |p|;
    assert |p + x| == |q + y|;
    assert (p + x)[..n] == p && (q + y)[..n] == q;
    assert (p + x)[n] == x[0] && (q + y)[n] == y[0] && (p + x)[n + 1] == x[1] && (q + y)[n + 1] == y[1];
  }

  /** A wrong count gives the right padding exactly if the bit lengths agree in 64 bits. */
  lemma PaddedExactly(msg: seq<byte>, count: nat)
    ensures PaddedAs(msg, count) == Padded(msg) <==> 8 * count % Base(4) == 8 * |msg| % Base(4)
  {
    hide BigEndianBytes, Base;
    var front := msg + [0x80] + ZeroBytes(PadZeros(|msg|));
    var b, c := BigEndianBytes(8 * |msg|, 8), BigEndianBytes(8 * count, 8);
    assert PaddedAs(msg, count)[|front|..] == c && Padded(msg)[|front|..] == b;
    if b == c {
      BytesInjective(8 * count, 8 * |msg|, 4);
    }
    BytesModulo(8 * count, 4);
    BytesModulo(8 * |msg|, 4);
  }

  /** Different messages have different paddings, below the length where bit lengths wrap
      around. */
  lemma PaddedInjective(a: seq<byte>, b: seq<byte>)
    requires |a| < 0x2000_0000_0000_0000 && |b| < 0x2000_0000_0000_0000 && Padded(a) == Padded(b)
    ensures a == b
  {
    hide BigEndianBytes, Base;
    var x, y := BigEndianBytes(8 * |a|, 8), BigEndianBytes(8 * |b|, 8);
    var n := |Padded(a)|;
    assert Padded(a)[n - 8..] == x && Padded(b)[n - 8..] == y;
    BytesInjective(8 * |a|, 8 * |b|, 4);
    BaseValue();
    SmallMod(8 * |a|, Base(4));
    SmallMod(8 * |b|, Base(4));
    assert Padded(a)[..|a|] == a && Padded(b)[..|b|] == b;
  }

  lemma BaseValue()
    ensures Base(4) == 0x1_0000_0000_0000_0000
  {
    assert Base(0) == 1 && Base(1) == 65536 && Base(2) == 0x1_0000_0000 && Base(3) == 0x1_0000_0000_0000;
  }

  lemma {:induction false} BytesModulo(v: nat, n: nat)
    ensures BigEndianBytes(v % Base(n), 2 * n) == BigEndianBytes(v, 2 * n)
    decreases n
  {
    hide BigEndianBytes, Base;
    if n == 0 {
      NoBytes(v);
      NoBytes(v % Base(0));
    } else {
      var x, w, b := v % 65536, v / 65536, Base(n - 1);
      BaseNext(n - 1);
      DigitMod(x, w, b);
      TwoBytes(x, w, n);
      TwoBytes(x, w % b, n);
      BytesModulo(w, n - 1);
    }
  }
}
