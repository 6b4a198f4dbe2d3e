/** The hash object that takes a message piece by piece. */
module Sha256Stream {
  import opened Bits
  import opened Outcomes
  import opened Buffers
  import opened Sha256Words
  import opened Sha256
  import Sha256Standard
  import Fips180

  /** A whole number of blocks, then what has not filled a block yet. */
  ghost predicate Split(message: seq<byte>, rest: seq<byte>) {
    |rest| < 64 && |rest| <= |message| && (|message| - |rest|) % 64 == 0 && message[|message| - |rest|..] == rest
  }

  lemma SplitAbsorb(message: seq<byte>, rest: seq<byte>, more: seq<byte>)
    requires Split(message, rest)
    ensures Absorb(INITIAL, message + more) == Absorb(Absorb(INITIAL, message), rest + more)
  {
    hide Absorb;
    var n := |message| - |rest|;
    var full := message[..n];
    assert message == full + rest;
    assert message + more == full + (rest + more);
    AbsorbConcat(INITIAL, full, rest + more);
    AbsorbConcat(INITIAL, full, rest);
    ShortAbsorb(Absorb(INITIAL, full), rest);
  }

  lemma ShortAbsorb(h: seq<word>, rest: seq<byte>)
    requires |h| == 8 && |rest| < 64
    ensures Absorb(h, rest) == h
  {
  }

  lemma AbsorbBlock(h: seq<word>, data: seq<byte>)
    requires |h| == 8 && |data| >= 64
    ensures Absorb(h, data) == Absorb(Compress(h, data[..64]), data[64..])
  {
  }

  lemma OneBlock(h: seq<word>, block: seq<byte>)
    requires |h| == 8 && |block| == 64
    ensures Absorb(h, block) == Compress(h, block)
  {
    assert block[..64] == block && block[64..] == [];
  }

  class HashOneByOne {
    const wide: nat                 // number of values of a machine word
    var buffer: seq<byte>
    const digits: array<nat>        // length in bytes, 16 bits each, lowest first
    const h: array<word>
    ghost var message: seq<byte>    // everything processed so far

    ghost predicate Shape()
    {
      Wide(wide) && digits.Length == 4 && h.Length == 8 && (digits as object) != h
    }

    /** The message is absorbed; the digits may have lost count. */
    ghost predicate Held()
      reads this, digits, h
    {
      && Shape()
      && Split(message, buffer) && h[..] == Absorb(INITIAL, message)
      && Digits(digits[..])
    }

    ghost predicate Valid()
      reads this, digits, h
    {
      Held() && Number(digits[..]) == |message| % Base(4)
    }

    constructor (machineWord: nat)
      requires Wide(machineWord)
      ensures Valid() && message == [] && fresh(digits) && fresh(h) && wide == machineWord
    {
      wide := machineWord;
      buffer := [];
      digits := new nat[4](_ => 0);
      h := new word[8](i requires 0 <= i < 8 => INITIAL[i]);
      message := [];
      new;
      assert h[..] == INITIAL;
      ShortAbsorb(INITIAL, []);
      assert digits[..] == [0, 0, 0, 0];
      ZeroNumber();
    }

    /** Adds to the length, with carries, modulo 2^64; what wraps around in the lowest
        digit, a machine word, is lost. */
    method AddToDataLength(n: nat)
      requires Shape() && Digits(digits[..]) && n < wide
      modifies digits
      ensures Digits(digits[..])
      ensures Lost(Number(old(digits[..])), n, wide) <= Number(old(digits[..])) + n
      ensures Number(digits[..]) == (Number(old(digits[..])) + n - Lost(Number(old(digits[..])), n, wide)) % Base(4)
    {
      hide Number, Base, AddDigits, Digits, Wide, Adding, Lost;
      ghost var done: seq<nat> := [];
      ghost var d, m := LowestDigit(digits[..], n, wide);
      AddDigitsOk(d, m);
      var carry := 0;
      digits[0] := (digits[0] + n) % wide;
      ghost var e: seq<nat> := digits[..];
      AddingStart(d, e, m);
      var i := 0;
      while i < 4
        invariant 0 <= i <= 4 && |done| == i && Adding(digits[..], d, e, m, done, carry)
        decreases 4 - i
      {
        ghost var was: seq<nat> := digits[..];
        var sum := digits[i] + carry;
        if sum < 65536 {
          digits[i] := sum;
          AddingLast(was, digits[..], d, e, m, done, carry);
          return;
        }
        var low: nat := sum % 65536;
        digits[i] := low;
        AddingNext(was, digits[..], d, e, m, done, carry);
        carry := sum / 65536;
        done := done + [low];
        i := i + 1;
      }
      AddingEnd(digits[..], d, e, m, done, carry);
    }

    /** Compresses the whole blocks in the buffer and keeps the rest. */
    method CompressBuffer() returns (ghost i: nat)
      requires Shape()
      modifies this`buffer, h
      ensures i % 64 == 0 && i <= |old(buffer)| && buffer == old(buffer)[i..] && |buffer| < 64
      ensures h[..] == Absorb(old(h[..]), old(buffer))
    {
      hide Wide, Absorb, Compress;
      ghost var h0 := h[..];
      var n := 0;
      assert buffer[0..] == buffer;
      while n + 64 <= |buffer|
        invariant buffer == old(buffer) && n % 64 == 0 && n <= |buffer|
        invariant Absorb(h0, buffer) == Absorb(h[..], buffer[n..])
      {
        AbsorbBlock(h[..], buffer[n..]);
        assert buffer[n..][..64] == buffer[n..n + 64];
        assert buffer[n..][64..] == buffer[n + 64..];
        HashBlock(h, buffer[n..n + 64], wide);
        n := n + 64;
      }
      ShortAbsorb(h[..], buffer[n..]);
      buffer := buffer[n..];
      i := n;
    }

    /** Takes the next piece of the message.  The count stays right exactly if what is lost
        of it is a multiple of 2^64, which is always so for machine words of 64 bits. */
    method Process(data: seq<byte>)
      requires Held()
      modifies this`buffer, this`message, digits, h
      ensures Held() && message == old(message) + data
      ensures Lost(Number(old(digits[..])), |data|, wide) <= Number(old(digits[..])) + |data|
      ensures Number(digits[..]) == (Number(old(digits[..])) + |data| - Lost(Number(old(digits[..])), |data|, wide)) % Base(4)
      ensures old(Valid()) ==> (Valid() <==> Lost(|old(message)|, |data|, wide) % Base(4) == 0)
    {
      hide Number, Base, Digits, Wide, Absorb, Compress, Split, Lost;
      ghost var m, rest, c := message, buffer, Number(digits[..]);
      SplitAbsorb(m, rest, data);
      WordSize(wide);
      LostTogether(c, |data|, wide);
      CountKept(c, |m|, |data|, wide);
      AddToDataLength(|data| % wide);
      buffer := buffer + data;
      ghost var i := CompressBuffer();
      message := message + data;
      SplitAfter(m, rest, data, i);
    }

    /** The counted length in bits as eight bytes, modulo 2^64, the highest byte first. */
    method WriteDataBitLength(temp: array<byte>, at: nat)
      requires Shape() && Digits(digits[..]) && at + 8 <= temp.Length
      modifies temp
      ensures Replaced(temp[..], old(temp[..]), at, BigEndianBytes(8 * Number(digits[..]), 8))
    {
      hide Number, Base, Digits, Wide, ShiftDigits, BigEndianBytes, DigitBytes, Replaced;
      ghost var before, d := temp[..], digits[..];
      var bits := ShiftLength();
      var k, i := at, 3;
      WriteStart(bits, before, at);
      while i >= 0
        invariant -1 <= i <= 3 && k == at + 2 * (3 - i)
        invariant Replaced(temp[..], before, at, DigitBytes(bits[i + 1..]))
        decreases i + 1
      {
        ghost var was := temp[..];
        temp[k] := bits[i] / 256 % 256;
        temp[k + 1] := bits[i] % 256;
        WriteDigit(bits, before, at, i, k, was, temp[..]);
        i := i - 1;
        k := k + 2;
      }
      assert bits[0..] == bits;
      BitLength(d);
    }

    method ShiftLength() returns (bits: seq<nat>)
      requires Shape() && Digits(digits[..])
      ensures bits == ShiftDigits(digits[..], 0)
    {
      hide Digits, Wide, ShiftDigits, Replaced, BitOr, Shl, Shr;
      ghost var d: seq<nat>, done: seq<nat> := digits[..], [];
      var a := new nat[4](i requires 0 <= i < 4 reads this, digits requires Shape() => digits[i]);
      var carry: nat := 0;
      assert a[..] == d && d[0..] == d;
      ReplacedNothing(d, 0);
      for i := 0 to 4
        invariant carry < 8 && |done| == i && Replaced(a[..], d, 0, done)
        invariant ShiftDigits(d, 0) == done + ShiftDigits(d[i..], carry)
      {
        ghost var was: seq<nat> := a[..];
        var beforeVal := a[i];
        ReplacedAt(was, d, 0, done, i);
        DigitBound(d, i);
        ShiftOr(beforeVal, carry);
        ShiftStep(d, i, carry);
        var low: nat := BitOr(carry, Shl(beforeVal, 3)) % 65536;
        assert low == (8 * d[i] + carry) % 65536;
        ReplacedOne(was, d, 0, done, low);
        carry := Shr(beforeVal, 13) % 65536;
        done := done + [low];
        a[i] := low;
      }
      bits := a[..];
      NoShift(carry);
      assert d[4..] == [];
      ReplacedParts(bits, d, 0, done);
    }

    /** What is left of the message, a one bit, zeros. */
    method FirstBlock() returns (temp: array<byte>)
      requires |buffer| < 64
      ensures fresh(temp) && temp[..] == buffer + [0x80] + ZeroBytes(63 - |buffer|)
    {
      var remains := |buffer|;
      temp := new byte[64](_ => 0);
      forall i | 0 <= i < remains {
        temp[i] := buffer[i];
      }
      temp[remains] := 0x80;
      forall i | remains < i < 64 {
        temp[i] := 0;
      }
    }

    /** Pads the message and compresses the last one or two blocks. */
    method Finish()
      requires Held()
      modifies h
      ensures h[..] == Absorb(INITIAL, PaddedAs(message, Number(digits[..])))
      ensures old(Valid()) ==> h[..] == Absorb(INITIAL, Padded(message))
    {
      hide Number, Base, Digits, Wide, Absorb, Compress, Split, BigEndianBytes, Replaced;
      ghost var count := Number(digits[..]);
      ghost var pad: seq<byte> := [0x80] + ZeroBytes(PadZeros(|message|)) + BigEndianBytes(8 * count, 8);
      CountModulo(message, |message|);
      SplitAbsorb(message, buffer, pad);
      SplitFacts(message, buffer);
      assert PaddedAs(message, count) == message + pad;
      var remains := |buffer|;
      ghost var h0 := h[..];
      var temp := FirstBlock();
      ghost var first, d := temp[..], digits[..];
      if remains > 55 {
        HashBlock(h, temp[..], wide);
        assert digits[..] == d;
        forall i | 0 <= i < 60 {
          temp[i] := 0;
        }
        ghost var was := temp[..];
        assert was[..56] == ZeroBytes(56);
        assert digits[..] == d;
        WriteDataBitLength(temp, 56);
        TwoLastBlocks(h0, buffer, first, was, temp[..], |message|, count);
        assert h[..] == Compress(h0, first);
        assert Compress(h[..], temp[..]) == Absorb(h0, buffer + pad);
      } else {
        WriteDataBitLength(temp, 56);
        OneLastBlock(h0, buffer, first, temp[..], |message|, count);
        assert h[..] == h0;
        assert Compress(h[..], temp[..]) == Absorb(h0, buffer + pad);
      }
      assert temp.Length == 64;
      ghost var h1, last := h[..], temp[..];
      assert Compress(h1, last) == Absorb(h0, buffer + pad);
      HashBlock(h, temp[..], wide);
    }

    /** The state as bytes, as many as fit. */
    method GetHashBytes(out: array<byte>)
      requires Shape()
      modifies out
      requires (out as object) != h
      ensures
        var n := if out.Length < 32 then out.Length else 32;
        out[0..n] == WordBytes(h[..])[..n] && out[n..] == old(out[..])[n..]
    {
      hide Wide, WordBytes, Replaced;
      ghost var before: seq<byte>, all: seq<byte> := out[..], WordBytes(h[..]);
      var first := 0;
      ReplacedNothing(before, 0);
      assert all[..0] == [];
      for k := 0 to 8
        invariant first == if 4 * k < out.Length then 4 * k else out.Length
        invariant Replaced(out[..], before, 0, all[..first])
      {
        first := PutWord(out, first, k, before, all);
      }
      ReplacedParts(out[..], before, 0, all[..first]);
    }

    /** The bytes of word k, as many as fit. */
    method PutWord(out: array<byte>, start: nat, k: nat, ghost before: seq<byte>, ghost all: seq<byte>) returns (first: nat)
      requires Shape() && (out as object) != h && k < 8 && all == WordBytes(h[..])
      requires start == if 4 * k < out.Length then 4 * k else out.Length
      requires |before| == out.Length && Replaced(out[..], before, 0, all[..start])
      modifies out
      ensures first == if 4 * (k + 1) < out.Length then 4 * (k + 1) else out.Length
      ensures first <= |all| && Replaced(out[..], before, 0, all[..first])
    {
      hide Wide, WordBytes, Replaced, Shr;
      first := start;
      var i := 0;
      while i < 4 && first != out.Length
        invariant 0 <= i <= 4 && first == (if 4 * k + i < out.Length then 4 * k + i else out.Length)
        invariant Replaced(out[..], before, 0, all[..first])
      {
        var v: byte := Shr(h[k], 24 - 8 * i) % 256;
        ghost var was: seq<byte> := out[..];
        WordByte(h[..], k, i);
        out[first] := v;
        PrefixGrows(was, out[..], before, all, first, v);
        first := first + 1;
        i := i + 1;
      }
    }
  }

  /** The digest of a message that comes in one piece. */
  method Hash256AtOnce(data: seq<byte>, machineWord: nat) returns (digest: array<byte>)
    requires Wide(machineWord)
    ensures digest[..] == WordBytes(Absorb(INITIAL, PaddedAs(data, |data| % machineWord)))
    ensures 8 * (|data| % machineWord) % Base(4) == 8 * |data| % Base(4) ==>
      digest[..] == Digest(data) && Fips180.IsDigest(data, digest[..])
  {
    hide Absorb, Split, Wide, PaddedAs, Padded, WordBytes, Lost, Number, Base;
    var hasher := new HashOneByOne(machineWord);
    WordSize(machineWord);
    CountAtOnce(|data|, machineWord);
    hasher.Process(data);
    assert [] + data == data;
    CountModulo(data, |data| % machineWord);
    PaddedExactly(data, |data| % machineWord);
    Sha256Standard.DigestConforms(data);
    hasher.Finish();
    digest := new byte[32](_ => 0);
    hasher.GetHashBytes(digest);
    assert digest[0..32] == digest[..] && WordBytes(hasher.h[..])[..32] == WordBytes(hasher.h[..]);
  }

  lemma CountAtOnce(n: nat, wide: nat)
    requires wide > 0
    ensures n - Lost(0, n, wide) == n % wide && 0 % Base(4) == 0
  {
    DivTimes(n, wide);
  }

  /** One round of reading a piece and processing it.  Without room in the buffer it
      leaves the position and everything the hasher holds as they are. */
  method HashRound(hasher: HashOneByOne, data: seq<byte>, first: nat, bufferSize: nat) returns (next: nat)
    requires first < |data| && hasher.Valid() && hasher.message == data[..first] && bufferSize < 0x8000_0000
    modifies hasher`buffer, hasher`message, hasher.digits, hasher.h
    ensures hasher.Valid() && first <= next <= |data| && hasher.message == data[..next]
    ensures next == first <==> bufferSize == 0
    ensures bufferSize == 0 ==>
      hasher.buffer == old(hasher.buffer) && hasher.digits[..] == old(hasher.digits[..]) && hasher.h[..] == old(hasher.h[..])
  {
    hide Absorb, Split, Wide, Lost, Number, Digits;
    ghost var rest, d := hasher.buffer, hasher.digits[..];
    var size := if |data| - first < bufferSize then |data| - first else bufferSize;
    NothingLost(first, size, hasher.wide);
    hasher.Process(data[first..first + size]);
    next := first + size;
    assert data[..first] + data[first..next] == data[..next];
    if bufferSize == 0 {
      SplitUnique(data[..first], rest, hasher.buffer);
      NumberInjective(d, hasher.digits[..]);
    }
  }

  lemma SplitUnique(message: seq<byte>, a: seq<byte>, b: seq<byte>)
    requires Split(message, a) && Split(message, b)
    ensures a == b
  {
    SplitFacts(message, a);
    SplitFacts(message, b);
  }

  /** The digest of a message that comes in pieces of at most bufferSize bytes; without
      room for a byte the loop never ends. */
  method Hash256(data: seq<byte>, bufferSize: nat, machineWord: nat) returns (outcome: Outcome, digest: array<byte>)
    requires Wide(machineWord) && bufferSize < 0x8000_0000
    ensures outcome == if bufferSize == 0 && data != [] then Endless else Returns(0)
    ensures outcome == Returns(0) ==> digest[..] == Digest(data) && Fips180.IsDigest(data, digest[..])
  {
    hide Absorb, Split, Wide, Padded, PaddedAs, WordBytes, Lost, Number, Digits;
    var hasher := new HashOneByOne(machineWord);
    digest := new byte[32](_ => 0);
    var first := 0;
    assert data[..0] == [];
    while first != |data|
      invariant first <= |data| && hasher.Valid() && hasher.message == data[..first]
      invariant fresh(hasher) && fresh(hasher.digits) && fresh(hasher.h) && (first > 0 ==> bufferSize > 0)
      decreases |data| - first
    {
      var next := HashRound(hasher, data, first, bufferSize);
      if next == first {
        return Endless, digest;
      }
      first := next;
    }
    outcome := Returns(0);
    Sha256Standard.DigestConforms(data);
    assert data[..|data|] == data;
    hasher.Finish();
    hasher.GetHashBytes(digest);
    assert digest[0..32] == digest[..] && WordBytes(hasher.h[..])[..32] == WordBytes(hasher.h[..]);
  }

  /** A machine word of 64 bits, or a multiple of that, loses nothing that counts. */
  lemma WideWordsCount(m: nat, k: nat, wide: nat)
    requires wide > 0 && wide % Base(4) == 0
    ensures Lost(m, k, wide) % Base(4) == 0
  {
    hide Base, Times;
    var q, j := (m % 65536 + k) / wide, wide / Base(4);
    DivTimes(wide, Base(4));
    TimesAssociate(q, j, Base(4));
    TimesUnique(Times(q, wide), Times(q, j), 0, Base(4));
  }

  /** A machine word of 32 bits loses count with the first piece of 2^32 bytes. */
  lemma NarrowWordsLoseCount()
    ensures Wide(0x1_0000_0000) && Lost(0, 0x1_0000_0000, 0x1_0000_0000) % Base(4) != 0
  {
    hide Base;
    BaseValue();
    TimesOne(0x1_0000_0000);
  }

  lemma NothingLost(m: nat, k: nat, wide: nat)
    requires Wide(wide) && k < 0x8000_0000
    ensures Lost(m, k, wide) == 0 && 0 % Base(4) == 0
  {
    hide Base;
    WordSize(wide);
    assert (m % 65536 + k) / wide == 0;
  }

  lemma PrefixGrows(was: seq<byte>, now: seq<byte>, before: seq<byte>, all: seq<byte>, k: nat, v: byte)
    requires k < |all| && k < |was| == |before| && v == all[k] && now == was[k := v] && Replaced(was, before, 0, all[..k])
    ensures Replaced(now, before, 0, all[..k + 1])
  {
    hide Replaced;
    ReplacedOne(was, before, 0, all[..k], v);
    assert all[..k + 1] == all[..k] + [v];
  }

  lemma SplitFacts(message: seq<byte>, rest: seq<byte>)
    requires Split(message, rest)
    ensures |rest| < 64 && |message| % 64 == |rest|
  {
    var k := (|message| - |rest|) / 64;
    assert |message| == k * 64 + |rest|;
  }

  lemma DigitBound(d: seq<nat>, i: nat)
    requires Digits(d) && i < |d|
    ensures d[i] < 65536
  {
  }

  lemma ShiftOr(x: nat, carry: nat)
    requires x < 65536 && carry < 8
    ensures BitOr(carry, Shl(x, 3)) == 8 * x + carry && Shr(x, 13) == x / 8192 < 8
  {
    hide BitOr, Shl, Shr;
    assert Pow2(3) == 8;
    OrDisjoint(carry, 3, x);
    ShlIsMul(x, 3);
    ShrIsDiv(x, 13);
    Pow2Values();
    assert Pow2(13) == 16 * Pow2(9);
  }

  lemma ShiftStep(d: seq<nat>, i: nat, carry: nat)
    requires i < |d|
    ensures ShiftDigits(d[i..], carry) == [(8 * d[i] + carry) % 65536] + ShiftDigits(d[i + 1..], d[i] / 8192)
  {
    assert d[i..][0] == d[i] && d[i..][1..] == d[i + 1..];
  }

  lemma NoShift(carry: nat)
    ensures ShiftDigits([], carry) == []
  {
  }

  lemma WriteStart(bits: seq<nat>, before: seq<byte>, at: nat)
    requires |bits| == 4 && at <= |before|
    ensures Replaced(before, before, at, DigitBytes(bits[4..]))
  {
    assert DigitBytes(bits[4..]) == [];
    ReplacedNothing(before, at);
  }

  lemma WriteDigit(bits: seq<nat>, before: seq<byte>, at: nat, i: nat, k: nat, was: seq<byte>, now: seq<byte>)
    requires i < |bits| == 4 && k == at + 2 * (3 - i) && at + 8 <= |before| == |was|
    requires Replaced(was, before, at, DigitBytes(bits[i + 1..]))
    requires now == was[k := bits[i] / 256 % 256][k + 1 := bits[i] % 256]
    ensures Replaced(now, before, at, DigitBytes(bits[i..]))
  {
    hide DigitBytes, Replaced;
    var x, y: byte, z: byte := DigitBytes(bits[i + 1..]), bits[i] / 256 % 256, bits[i] % 256;
    DigitBytesNext(bits, i);
    ReplacedOne(was, before, at, x, y);
    ReplacedOne(was[k := y], before, at, x + [y], z);
    assert x + [y] + [z] == x + [y, z];
  }

  lemma DigitBytesNext(bits: seq<nat>, i: nat)
    requires i < |bits|
    ensures DigitBytes(bits[i..]) == DigitBytes(bits[i + 1..]) + [bits[i] / 256 % 256, bits[i] % 256]
  {
    assert bits[i..][0] == bits[i] && bits[i..][1..] == bits[i + 1..];
  }

  lemma BitLength(d: seq<nat>)
    requires |d| == 4 && Digits(d)
    ensures DigitBytes(ShiftDigits(d, 0)) == BigEndianBytes(8 * Number(d), 8)
  {
    hide Digits, Base, Number, BigEndianBytes, DigitBytes, ShiftDigits;
    NumberBound(d);
    ShiftDigitsOk(d, 0);
    DigitBytesOk(ShiftDigits(d, 0));
    EightTimes(Number(d), Base(4));
    BytesModulo(8 * Number(d), 4);
  }

  /** A count modulo 2^64 is as good as the count. */
  lemma CountModulo(message: seq<byte>, n: nat)
    ensures PaddedAs(message, n % Base(4)) == PaddedAs(message, n)
  {
    hide Base, BigEndianBytes;
    EightTimes(n, Base(4));
    BytesModulo(8 * n, 4);
    BytesModulo(8 * (n % Base(4)), 4);
  }

  /** What wraps around when a piece of k bytes is added to a count of c. */
  function Lost(c: nat, k: nat, wide: nat): nat
    requires wide > 0
  {
    Times((c % 65536 + k) / wide, wide)
  }

  lemma WordSize(wide: nat)
    requires Wide(wide)
    ensures wide >= TWO32
  {
  }

  lemma LostFits(c: nat, k: nat, wide: nat)
    requires wide > 0
    ensures Lost(c, k, wide) <= c + k
  {
    hide Times;
    DivTimes(c % 65536 + k, wide);
  }

  /** The word that is added is the length of the piece without the multiples of a
      machine word. */
  lemma LostTogether(c: nat, k: nat, wide: nat)
    requires wide > 0
    ensures Lost(c, k % wide, wide) <= c + k % wide && Lost(c, k, wide) <= c + k
    ensures c + k % wide - Lost(c, k % wide, wide) == c + k - Lost(c, k, wide)
  {
    hide Times;
    var d, q, n := c % 65536, k / wide, k % wide;
    LostFits(c, k, wide);
    LostFits(c, n, wide);
    DivTimes(k, wide);
    DivTimes(d + n, wide);
    var p := (d + n) / wide;
    TimesPlus(q, p, wide);
    TimesUnique(d + k, q + p, (d + n) % wide, wide);
  }

  lemma CountKept(c: nat, m: nat, k: nat, wide: nat)
    requires wide > 0
    ensures Lost(c, k, wide) <= c + k
    ensures c == m % Base(4) ==> Lost(m, k, wide) == Lost(c, k, wide)
    ensures c == m % Base(4) ==>
      ((c + k - Lost(c, k, wide)) % Base(4) == (m + k) % Base(4) <==> Lost(m, k, wide) % Base(4) == 0)
  {
    hide Base, Lost;
    LostFits(c, k, wide);
    if c == m % Base(4) {
      LowDigit(m);
      assert Lost(m, k, wide) == Lost(c, k, wide) by { SameLost(c, m, k, wide); }
      LengthAfter(m, k);
      ModDrop(c + k, Lost(c, k, wide), Base(4));
    }
  }

  lemma SameLost(c: nat, m: nat, k: nat, wide: nat)
    requires wide > 0 && c % 65536 == m % 65536
    ensures Lost(c, k, wide) == Lost(m, k, wide)
  {
  }

  lemma LowDigit(m: nat)
    ensures m % Base(4) % 65536 == m % 65536
  {
    hide Base;
    BaseNext(3);
    DigitMod(m % 65536, m / 65536, Base(3));
  }

  /** Taking something away keeps the remainder exactly if it is a multiple. */
  lemma ModDrop(a: nat, l: nat, b: nat)
    requires l <= a && b > 0
    ensures (a - l) % b == a % b <==> l % b == 0
  {
    hide Times;
    var p, q := (a - l) / b, a / b;
    DivTimes(a - l, b);
    DivTimes(a, b);
    DivTimes(l, b);
    if l % b == 0 {
      TimesPlus(p, l / b, b);
      TimesUnique(a, p + l / b, (a - l) % b, b);
    }
    if (a - l) % b == a % b {
      assert p <= q by {
        if q < p {
          TimesMonotone(q + 1, p, b);
          TimesNext(q, b);
        }
      }
      TimesPlus(p, q - p, b);
      TimesUnique(l, q - p, 0, b);
    }
  }

  /** The lowest digit after the addition, as a digit sum without loss. */
  lemma LowestDigit(d: seq<nat>, n: nat, wide: nat) returns (e: seq<nat>, m: nat)
    requires |d| == 4 && Digits(d) && Wide(wide) && n < wide
    ensures |e| == 4 && Digits(e) && d[0 := (d[0] + n) % wide] == e[0 := e[0] + m]
    ensures Lost(Number(d), n, wide) <= Number(d) + n && Number(e) + m == Number(d) + n - Lost(Number(d), n, wide)
  {
    hide Times, Number;
    LostFits(Number(d), n, wide);
    NumberNext(d);
    DivTimes(d[0] + n, wide);
    if d[0] + n < wide {
      e, m := d, n;
      TimesZero(wide);
      TimesUnique(d[0] + n, 0, d[0] + n, wide);
    } else {
      e, m := d[0 := 0], d[0] + n - wide;
      NumberNext(e);
      assert e[1..] == d[1..];
      TimesOne(wide);
      TimesUnique(d[0] + n, 1, m, wide);
    }
  }

  lemma EightTimes(n: nat, b: nat)
    requires b > 0
    ensures (8 * (n % b)) % b == (8 * n) % b
  {
    hide Times;
    var q, r := n / b, n % b;
    var p, s := 8 * r / b, 8 * r % b;
    DivTimes(n, b);
    DivTimes(8 * r, b);
    TimesAssociate(8, q, b);
    TimesPlus(Times(8, q), p, b);
    assert Times(8, Times(q, b)) == 8 * Times(q, b) by { TimesIs(8, Times(q, b)); }
    TimesUnique(8 * n, Times(8, q) + p, s, b);
  }

  lemma OneLastBlock(h: seq<word>, rest: seq<byte>, was: seq<byte>, block: seq<byte>, n: nat, count: nat)
    requires |h| == 8 && |rest| <= 55 && n % 64 == |rest| && was == rest + [0x80] + ZeroBytes(63 - |rest|)
    requires Replaced(block, was, 56, BigEndianBytes(8 * count, 8))
    ensures |block| == 64
    ensures Compress(h, block) == Absorb(h, rest + ([0x80] + ZeroBytes(PadZeros(n)) + BigEndianBytes(8 * count, 8)))
  {
    hide Absorb, Compress, BigEndianBytes;
    var len := BigEndianBytes(8 * count, 8);
    assert was[..56] == rest + [0x80] + ZeroBytes(55 - |rest|);
    assert block == was[..56] + len;
    assert block == rest + ([0x80] + ZeroBytes(PadZeros(n)) + len);
    OneBlock(h, block);
  }

  lemma TwoLastBlocks(h: seq<word>, rest: seq<byte>, first: seq<byte>, was: seq<byte>, second: seq<byte>, n: nat, count: nat)
    requires |h| == 8 && 55 < |rest| < 64 && n % 64 == |rest| && first == rest + [0x80] + ZeroBytes(63 - |rest|)
    requires |was| == 64 && was[..56] == ZeroBytes(56) && Replaced(second, was, 56, BigEndianBytes(8 * count, 8))
    ensures |first| == |second| == 64
    ensures Compress(Compress(h, first), second)
         == Absorb(h, rest + ([0x80] + ZeroBytes(PadZeros(n)) + BigEndianBytes(8 * count, 8)))
  {
    hide Absorb, Compress, BigEndianBytes;
    var len := BigEndianBytes(8 * count, 8);
    assert second == ZeroBytes(56) + len;
    var all := rest + ([0x80] + ZeroBytes(PadZeros(n)) + len);
    assert ZeroBytes(PadZeros(n)) == ZeroBytes(63 - |rest|) + ZeroBytes(56);
    assert all == first + second;
    assert all[..64] == first && all[64..] == second;
    AbsorbBlock(h, all);
    OneBlock(Compress(h, first), second);
  }

  lemma {:induction false} WordByte(h: seq<word>, k: nat, i: nat)
    requires k < |h| && i < 4
    ensures WordBytes(h)[4 * k + i] == Shr(h[k], 24 - 8 * i) % 256
    decreases |h|
  {
    var init, last := h[..|h| - 1], h[|h| - 1];
    if k < |h| - 1 {
      WordByte(init, k, i);
    } else {
      hide BigEndianBytes, Shr;
      assert WordBytes(h) == WordBytes(init) + BigEndianBytes(last, 4);
      assert WordBytes(h)[4 * k + i] == BigEndianBytes(last, 4)[i];
      ByteOfWord(last, i);
    }
  }

  lemma ByteOfWord(v: word, i: nat)
    requires i < 4
    ensures BigEndianBytes(v, 4)[i] == Shr(v, 24 - 8 * i) % 256
  {
    hide BigEndianBytes, Shr;
    FourBytes(v);
    PowersOfBytes();
    ShrIsDiv(v, 24 - 8 * i);
    if i == 3 {
      assert v / 1 == v;
    }
  }

  lemma PowersOfBytes()
    ensures Pow2(8) == 256 && Pow2(16) == 65536 && Pow2(24) == 16777216 && Pow2(0) == 1
  {
    Pow2Values();
    assert Pow2(20) == 16 * Pow2(16);
    assert Pow2(24) == 16 * Pow2(20);
  }

  lemma FourBytes(v: nat)
    requires v < 0x1_0000_0000
    ensures BigEndianBytes(v, 4) == [v / 16777216 % 256, v / 65536 % 256, v / 256 % 256, v % 256]
  {
    BytesNext(v, 4);
    BytesNext(v / 256, 3);
    BytesNext(v / 256 / 256, 2);
    BytesNext(v / 256 / 256 / 256, 1);
    NoBytes(v / 256 / 256 / 256 / 256);
    assert v / 256 / 256 == v / 65536 && v / 256 / 256 / 256 == v / 16777216;
  }

  /** The digits before |done| are final, `carry` is still to be added behind them. */
  ghost predicate Adding(now: seq<nat>, d: seq<nat>, e: seq<nat>, n: nat, done: seq<nat>, carry: nat) {
    |done| <= |e| && Replaced(now, e, 0, done) && AddDigits(d, n) == done + AddDigits(e[|done|..], carry)
  }

  lemma AddingStart(d: seq<nat>, e: seq<nat>, n: nat)
    requires d != [] && e == d[0 := d[0] + n]
    ensures Adding(e, d, e, n, [], 0)
  {
    hide AddDigits;
    FirstDigit(d, e, n);
    ReplacedNothing(e, 0);
  }

  lemma AddingLast(was: seq<nat>, now: seq<nat>, d: seq<nat>, e: seq<nat>, n: nat, done: seq<nat>, carry: nat)
    requires Adding(was, d, e, n, done, carry) && |done| < |was| && was[|done|] + carry < 65536
    requires now == was[|done| := was[|done|] + carry]
    ensures now == AddDigits(d, n)
  {
    hide AddDigits, Replaced;
    var i := |done|;
    ReplacedParts(was, e, 0, done);
    ReplacedAt(was, e, 0, done, i);
    NextDigit(e, i, carry);
    var sum := was[i] + carry;
    ReplacedOne(was, e, 0, done, sum);
    ReplacedEnd(now, e, done, sum);
  }

  lemma AddingNext(was: seq<nat>, now: seq<nat>, d: seq<nat>, e: seq<nat>, n: nat, done: seq<nat>, carry: nat)
    requires Adding(was, d, e, n, done, carry) && |done| < |was| && was[|done|] + carry >= 65536
    requires now == was[|done| := (was[|done|] + carry) % 65536]
    ensures Adding(now, d, e, n, done + [(was[|done|] + carry) % 65536], (was[|done|] + carry) / 65536)
  {
    hide AddDigits, Replaced;
    var i := |done|;
    ReplacedParts(was, e, 0, done);
    ReplacedAt(was, e, 0, done, i);
    NextDigit(e, i, carry);
    var low: nat, high := (was[i] + carry) % 65536, (was[i] + carry) / 65536;
    ReplacedOne(was, e, 0, done, low);
    assert done + ([low] + AddDigits(e[i + 1..], high)) == done + [low] + AddDigits(e[i + 1..], high);
  }

  lemma AddingEnd(now: seq<nat>, d: seq<nat>, e: seq<nat>, n: nat, done: seq<nat>, carry: nat)
    requires Adding(now, d, e, n, done, carry) && |done| == |now|
    ensures now == AddDigits(d, n)
  {
    hide AddDigits, Replaced;
    ReplacedParts(now, e, 0, done);
    NoDigits(carry);
    assert e[|done|..] == [] && done + [] == done;
    ReplacedAll(now, e, done);
  }

  lemma FirstDigit(d: seq<nat>, e: seq<nat>, n: nat)
    requires d != [] && e == d[0 := d[0] + n]
    ensures AddDigits(d, n) == e[..0] + AddDigits(e[0..], 0)
  {
    assert e[0..] == e && e[1..] == d[1..];
  }

  lemma NextDigit(e: seq<nat>, i: nat, carry: nat)
    requires i < |e|
    ensures
      var s := e[i] + carry;
      AddDigits(e[i..], carry) == if s < 65536 then [s] + e[i + 1..] else [s % 65536] + AddDigits(e[i + 1..], s / 65536)
  {
    assert e[i..][0] == e[i] && e[i..][1..] == e[i + 1..];
  }

  lemma NoDigits(carry: nat)
    ensures AddDigits([], carry) == []
  {
  }

  lemma LengthAfter(m: nat, n: nat)
    ensures (m % Base(4) + n) % Base(4) == (m + n) % Base(4)
  {
    hide Base;
    ModAdd(m, n, Base(4));
  }

  lemma SplitAfter(m: seq<byte>, rest: seq<byte>, data: seq<byte>, i: nat)
    requires Split(m, rest) && i % 64 == 0 && i <= |rest + data| && |rest + data| - i < 64
    ensures Split(m + data, (rest + data)[i..])
  {
    var n := |m| - |rest|;
    assert m == m[..n] + rest;
    assert (m + data)[n + i..] == (rest + data)[i..];
  }

  lemma ZeroNumber()
    ensures Number([0, 0, 0, 0]) == 0 && 0 % Base(4) == 0
  {
    assert Number([0]) == 0 + 65536 * Number([0][1..]);
    assert [0, 0][1..] == [0] && [0, 0, 0][1..] == [0, 0] && [0, 0, 0, 0][1..] == [0, 0, 0];
    assert Number([0, 0]) == 0 && Number([0, 0, 0]) == 0;
  }
}
