/** The hasher computes what FIPS 180-4 says. */
module Sha256Conforms {
  import opened Bits
  import opened MsbStream
  import opened Sha256Words
  import Fips180

  // ----- Bits of words

  lemma BitIs(x: nat, i: nat)
    ensures Fips180.Bit(x, i) == BitOf(x, i)
  {
    hide Shr;
    ShrIsDiv(x, i);
  }

  lemma {:induction false} BitOfXor(a: nat, b: nat, j: nat)
    ensures BitOf(BitXor(a, b), j) == if BitOf(a, j) != BitOf(b, j) then 1 else 0
    decreases j
  {
    if a == 0 {
      ShrOfZero(j);
    } else if b == 0 {
      ShrOfZero(j);
    } else if j > 0 {
      BitOfXor(a / 2, b / 2, j - 1);
    }
  }

  lemma BitOfShr(x: nat, n: nat, i: nat)
    ensures BitOf(Shr(x, n), i) == BitOf(x, i + n)
  {
    hide Shr;
    ShrShr(x, n, i);
  }

  lemma {:induction false} BitOfLow(x: nat, n: nat, i: nat)
    requires i < n
    ensures BitOf(Low(x, n), i) == BitOf(x, i)
    decreases i
  {
    if i > 0 {
      BitOfLow(x / 2, n - 1, i - 1);
    }
  }

  lemma BitOfWord(x: word, i: nat)
    ensures i >= 32 ==> BitOf(x, i) == 0
  {
    hide BitOf;
    Two32();
    if i >= 32 {
      BitOfSmall(x, 32, i);
    }
  }

  lemma BitOfRotr(x: word, n: nat, i: nat)
    requires 0 < n < 32 && i < 32
    ensures BitOf(Rotr(x, n), i) == BitOf(x, (i + n) % 32)
  {
    hide BitOf, BitOr, Shr, Shl, Low;
    BitOfOr(ShiftRight(x, n), ShiftLeft(x, 32 - n), i);
    BitOfShr(x, n, i);
    BitOfLow(Shl(x, 32 - n), 32, i);
    BitOfShl(x, 32 - n, i);
    BitOfWord(x, i + n);
    assert BitOf(ShiftLeft(x, 32 - n), i) == if i < 32 - n then 0 else BitOf(x, i - (32 - n));
  }

  lemma BitOfXor3(a: word, b: word, c: word, i: nat)
    ensures BitOf(Xor(Xor(a, b), c), i) == (BitOf(a, i) + BitOf(b, i) + BitOf(c, i)) % 2
  {
    hide BitOf, BitXor;
    BitOfXor(a, b, i);
    BitOfXor(Xor(a, b), c, i);
  }

  lemma RotationsAdd(x: word, a: nat, b: nat, c: nat)
    requires 0 < a < 32 && 0 < b < 32 && 0 < c < 32
    ensures Fips180.RotationSum(Xor(Xor(Rotr(x, a), Rotr(x, b)), Rotr(x, c)), x, a, b, c)
  {
    hide BitOf, Fips180.Bit, Xor, Rotr;
    var y := Xor(Xor(Rotr(x, a), Rotr(x, b)), Rotr(x, c));
    forall i | 0 <= i < 32
      ensures Fips180.Bit(y, i)
        == (Fips180.Bit(x, (i + a) % 32) + Fips180.Bit(x, (i + b) % 32) + Fips180.Bit(x, (i + c) % 32)) % 2
    {
      BitIs(y, i);
      BitIs(x, (i + a) % 32);
      BitIs(x, (i + b) % 32);
      BitIs(x, (i + c) % 32);
      BitOfXor3(Rotr(x, a), Rotr(x, b), Rotr(x, c), i);
      BitOfRotr(x, a, i);
      BitOfRotr(x, b, i);
      BitOfRotr(x, c, i);
    }
  }

  lemma ShiftsAdd(x: word, a: nat, b: nat, c: nat)
    requires 0 < a < 32 && 0 < b < 32
    ensures Fips180.ShiftSum(Xor(Xor(Rotr(x, a), Rotr(x, b)), ShiftRight(x, c)), x, a, b, c)
  {
    hide BitOf, Fips180.Bit, Xor, Rotr, Shr;
    var y := Xor(Xor(Rotr(x, a), Rotr(x, b)), ShiftRight(x, c));
    forall i | 0 <= i < 32
      ensures Fips180.Bit(y, i)
        == (Fips180.Bit(x, (i + a) % 32) + Fips180.Bit(x, (i + b) % 32) + (if i + c < 32 then Fips180.Bit(x, i + c) else 0)) % 2
    {
      BitIs(y, i);
      BitIs(x, (i + a) % 32);
      BitIs(x, (i + b) % 32);
      BitIs(x, i + c);
      BitOfXor3(Rotr(x, a), Rotr(x, b), ShiftRight(x, c), i);
      BitOfRotr(x, a, i);
      BitOfRotr(x, b, i);
      BitOfShr(x, c, i);
      BitOfWord(x, i + c);
    }
  }

  lemma SigmasConform(x: word)
    ensures Fips180.RotationSum(BSig0(x), x, 2, 13, 22) && Fips180.RotationSum(BSig1(x), x, 6, 11, 25)
    ensures Fips180.ShiftSum(SSig0(x), x, 7, 18, 3) && Fips180.ShiftSum(SSig1(x), x, 17, 19, 10)
  {
    hide Fips180.RotationSum, Fips180.ShiftSum, Xor, Rotr, ShiftRight;
    RotationsAdd(x, 2, 13, 22);
    RotationsAdd(x, 6, 11, 25);
    ShiftsAdd(x, 7, 18, 3);
    ShiftsAdd(x, 17, 19, 10);
  }

  lemma BitOfComplement(x: word, i: nat)
    requires i < 32
    ensures BitOf(Not(x), i) == 1 - BitOf(x, i)
  {
    hide BitOf;
    Two32();
    BitOfNot(x, 32, i);
  }

  lemma ChConforms(x: word, y: word, z: word)
    ensures Fips180.Choice(Ch(x, y, z), x, y, z)
  {
    hide BitOf, Fips180.Bit, BitXor, BitAnd;
    var r := Ch(x, y, z);
    forall i | 0 <= i < 32
      ensures Fips180.Bit(r, i) == if Fips180.Bit(x, i) == 1 then Fips180.Bit(y, i) else Fips180.Bit(z, i)
    {
      BitIs(r, i);
      BitIs(x, i);
      BitIs(y, i);
      BitIs(z, i);
      BitOfXor(And(x, y), And(Not(x), z), i);
      BitOfAnd(x, y, i);
      BitOfAnd(Not(x), z, i);
      BitOfComplement(x, i);
    }
  }

  lemma MajConforms(x: word, y: word, z: word)
    ensures Fips180.Majority(Maj(x, y, z), x, y, z)
  {
    hide BitOf, Fips180.Bit, BitXor, BitAnd, Xor, And;
    var r := Maj(x, y, z);
    forall i | 0 <= i < 32
      ensures Fips180.Bit(r, i) == if Fips180.Bit(x, i) + Fips180.Bit(y, i) + Fips180.Bit(z, i) >= 2 then 1 else 0
    {
      BitIs(r, i);
      BitIs(x, i);
      BitIs(y, i);
      BitIs(z, i);
      BitOfXor3(And(x, y), And(x, z), And(y, z), i);
      AndBits(x, y, i);
      AndBits(x, z, i);
      AndBits(y, z, i);
    }
  }

  lemma AndBits(x: word, y: word, i: nat)
    ensures BitOf(And(x, y), i) == if BitOf(x, i) == 1 && BitOf(y, i) == 1 then 1 else 0
  {
    hide BitOf, BitAnd;
    BitOfAnd(x, y, i);
  }

  // ----- One block

  lemma AddFour(a: word, b: word, c: word, d: word)
    ensures Add(Add(Add(a, b), c), d) == (a + b + c + d) % Fips180.WORDS
  {
    AddMod(a + b, c);
    AddMod(a + b + c, d);
  }

  lemma AddFive(a: word, b: word, c: word, d: word, e: word)
    ensures Add(Add(Add(Add(a, b), c), d), e) == (a + b + c + d + e) % Fips180.WORDS
  {
    AddFour(a, b, c, d);
    AddMod(a + b + c + d, e);
  }

  lemma AddMod(a: nat, b: nat)
    ensures (a % Fips180.WORDS + b) % Fips180.WORDS == (a + b) % Fips180.WORDS
  {
  }

  lemma WordConforms(block: seq<byte>, W: seq<nat>, t: nat)
    requires |block| == 64 && |W| == 64 && (forall i :: 0 <= i < 64 ==> W[i] == Schedule(block, i)) && 16 <= t < 64
    ensures Fips180.NextWord(W, t)
  {
    hide *;
    var a, b, c, d := Schedule(block, t - 2), Schedule(block, t - 7), Schedule(block, t - 15), Schedule(block, t - 16);
    assert W[t - 2] == a && W[t - 7] == b && W[t - 15] == c && W[t - 16] == d && W[t] == Schedule(block, t);
    SigmasConform(a);
    SigmasConform(c);
    AddFour(SSig1(a), b, SSig0(c), d);
    ScheduleNext(block, t);
    WordSumFrom(W, t, SSig0(c), SSig1(a));
  }

  lemma WordSumFrom(W: seq<nat>, t: nat, s0: nat, s1: nat)
    requires 16 <= t < |W| && Fips180.ShiftSum(s0, W[t - 15], 7, 18, 3) && Fips180.ShiftSum(s1, W[t - 2], 17, 19, 10)
    requires W[t] == (s1 + W[t - 7] + s0 + W[t - 16]) % Fips180.WORDS
    ensures Fips180.NextWord(W, t)
  {
    hide Fips180.ShiftSum;
    assert Fips180.WordSum(W, t, s0, s1);
  }

  lemma ScheduleNext(block: seq<byte>, t: nat)
    requires |block| == 64 && 16 <= t < 64
    ensures Schedule(block, t)
      == Add(Add(Add(SSig1(Schedule(block, t - 2)), Schedule(block, t - 7)), SSig0(Schedule(block, t - 15))), Schedule(block, t - 16))
  {
  }

  function Words(block: seq<byte>): (W: seq<nat>)
    requires |block| == 64
    ensures |W| == 64 && forall i :: 0 <= i < 64 ==> W[i] == Schedule(block, i)
  {
    seq(64, t requires 0 <= t < 64 => Schedule(block, t))
  }

  lemma ScheduleConforms(block: seq<byte>)
    requires |block| == 64
    ensures Fips180.IsSchedule(block, Words(block))
  {
    hide Fips180.NextWord;
    var W := Words(block);
    forall t | 16 <= t < 64
      ensures Fips180.NextWord(W, t)
    {
      WordConforms(block, W, t);
    }
  }

  /** The values of variable a, oldest first, and of e. */
  function ValuesA(v: Vars, block: seq<byte>): (A: seq<nat>)
    requires |block| == 64
    ensures |A| == 68
  {
    [v.d, v.c, v.b] + seq(65, t requires 0 <= t < 65 => Rounds(v, block, t).a)
  }

  function ValuesE(v: Vars, block: seq<byte>): (E: seq<nat>)
    requires |block| == 64
    ensures |E| == 68
  {
    [v.h, v.g, v.f] + seq(65, t requires 0 <= t < 65 => Rounds(v, block, t).e)
  }

  lemma ValuesAt(v: Vars, block: seq<byte>, t: nat)
    requires |block| == 64 && t <= 64
    ensures ValuesA(v, block)[t + 3] == Rounds(v, block, t).a && ValuesE(v, block)[t + 3] == Rounds(v, block, t).e
    ensures ValuesA(v, block)[0] == v.d && ValuesA(v, block)[1] == v.c && ValuesA(v, block)[2] == v.b
    ensures ValuesE(v, block)[0] == v.h && ValuesE(v, block)[1] == v.g && ValuesE(v, block)[2] == v.f
  {
    hide Rounds;
  }

  /** The other variables are earlier values of a and e. */
  lemma {:induction false} VariablesMove(v: Vars, block: seq<byte>, t: nat)
    requires |block| == 64 && t <= 64
    ensures
      var r, A, E := Rounds(v, block, t), ValuesA(v, block), ValuesE(v, block);
      && r.a == A[t + 3] && r.b == A[t + 2] && r.c == A[t + 1] && r.d == A[t]
      && r.e == E[t + 3] && r.f == E[t + 2] && r.g == E[t + 1] && r.h == E[t]
  {
    hide Round, Schedule, ValuesA, ValuesE;
    ValuesAt(v, block, t);
    if t > 0 {
      VariablesMove(v, block, t - 1);
      RoundMoves(Rounds(v, block, t - 1), K[t - 1], Schedule(block, t - 1));
    }
  }

  lemma RoundMoves(v: Vars, k: word, w: word)
    ensures
      var n := Round(v, k, w);
      n.b == v.a && n.c == v.b && n.d == v.c && n.f == v.e && n.g == v.f && n.h == v.g
  {
  }

  lemma RoundSums(v: Vars, k: word, w: word)
    ensures
      var n, s0, s1, ch, maj := Round(v, k, w), BSig0(v.a), BSig1(v.e), Ch(v.e, v.f, v.g), Maj(v.a, v.b, v.c);
      && n.a == (v.h + s1 + ch + k + w + s0 + maj) % Fips180.WORDS
      && n.e == (v.d + v.h + s1 + ch + k + w) % Fips180.WORDS
  {
    hide BSig0, BSig1, Ch, Maj;
    var s0, s1, ch, maj := BSig0(v.a), BSig1(v.e), Ch(v.e, v.f, v.g), Maj(v.a, v.b, v.c);
    var t1: nat := v.h + s1 + ch + k + w;
    var t2: nat := (s0 as nat) + maj;
    AddFive(v.h, s1, ch, k, w);
    AddMod(t1, t2 % Fips180.WORDS);
    AddMod(t2, t1);
    AddMod(t1, v.d);
  }

  lemma StepConforms(v: Vars, block: seq<byte>, t: nat)
    requires |block| == 64 && t < 64
    ensures Fips180.NextStep(ValuesA(v, block), ValuesE(v, block), K, Words(block), t)
  {
    hide *;
    var r, w := Rounds(v, block, t), Schedule(block, t);
    VariablesMove(v, block, t);
    SigmasConform(r.a);
    SigmasConform(r.e);
    ChConforms(r.e, r.f, r.g);
    MajConforms(r.a, r.b, r.c);
    SixtyFour();
    RoundSums(r, K[t], w);
    NextRound(v, block, t);
    ValuesAt(v, block, t + 1);
    StepSumFrom(ValuesA(v, block), ValuesE(v, block), K, Words(block), t,
                BSig0(r.a), BSig1(r.e), Ch(r.e, r.f, r.g), Maj(r.a, r.b, r.c));
  }

  lemma SixtyFour()
    ensures |K| == 64
  {
  }

  lemma StepSumFrom(A: seq<nat>, E: seq<nat>, k: seq<nat>, W: seq<nat>, t: nat, s0: nat, s1: nat, ch: nat, maj: nat)
    requires t + 4 < |A| == |E| && t < |k| && t < |W|
    requires Fips180.RotationSum(s0, A[t + 3], 2, 13, 22) && Fips180.RotationSum(s1, E[t + 3], 6, 11, 25)
    requires Fips180.Choice(ch, E[t + 3], E[t + 2], E[t + 1]) && Fips180.Majority(maj, A[t + 3], A[t + 2], A[t + 1])
    requires A[t + 4] == (E[t] + s1 + ch + k[t] + W[t] + s0 + maj) % Fips180.WORDS
    requires E[t + 4] == (A[t] + E[t] + s1 + ch + k[t] + W[t]) % Fips180.WORDS
    ensures Fips180.NextStep(A, E, k, W, t)
  {
    hide Fips180.RotationSum, Fips180.Choice, Fips180.Majority;
    assert Fips180.StepSum(A, E, k, W, t, s0, s1, ch, maj);
  }

  lemma NextRound(v: Vars, block: seq<byte>, t: nat)
    requires |block| == 64 && t < 64
    ensures Rounds(v, block, t + 1) == Round(Rounds(v, block, t), K[t], Schedule(block, t))
  {
    hide Round, Schedule;
  }

  /** The compression function is that of section 6.2.2. */
  lemma CompressConforms(h: seq<word>, block: seq<byte>)
    requires |h| == 8 && |block| == 64
    ensures Fips180.Hashes(K, h, block, Compress(h, block))
  {
    hide Rounds, Schedule, Fips180.NextStep, Fips180.IsSchedule, ValuesA, ValuesE, Words;
    var v := VarsOf(h);
    var W, A, E := Words(block), ValuesA(v, block), ValuesE(v, block);
    ScheduleConforms(block);
    forall t | 0 <= t < 64
      ensures Fips180.NextStep(A, E, K, W, t)
    {
      StepConforms(v, block, t);
    }
    VariablesMove(v, block, 0);
    VariablesMove(v, block, 64);
    StartsWith(v, block);
    assert Fips180.HashesBy(K, h, block, Compress(h, block), W, A, E);
  }

  lemma StartsWith(v: Vars, block: seq<byte>)
    requires |block| == 64
    ensures Rounds(v, block, 0) == v
  {
  }
}
