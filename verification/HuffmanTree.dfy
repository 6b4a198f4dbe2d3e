/** The Huffman tree object: canonical codes for writing, a two-level table for
    reading. */
module HuffmanTree {
  import opened Bits
  import opened CanonicalCode
  import opened HuffmanTable
  import BR = BitReader

  const MAXSYMBOLS: nat := 288

  /** codes[i] holds, in its low bits, the canonical code of symbol i. */
  ghost predicate CodesOk(lens: Lengths, codes: seq<nat>) {
    |codes| == |lens| && forall i :: 0 <= i < |lens| ==> CodeOk(lens, i, codes[i])
  }

  predicate CodeOk(lens: Lengths, i: nat, code: nat)
    requires i < |lens|
  {
    lens[i] > 0 ==> code == Low(Code(lens, i), lens[i])
  }

  lemma CodeOkBits(lens: Lengths, i: nat, code: nat)
    requires i < |lens| && CodeOk(lens, i, code) && lens[i] > 0
    ensures MsbBits(code, lens[i]) == CodeBits(lens, i)
  {
    var c, l := Code(lens, i), lens[i];
    var x, y := MsbBits(Low(c, l), l), MsbBits(c, l);
    LowHigh(c, l);
    forall j | 0 <= j < l
      ensures x[j] == y[j]
    {
      BitOfSum(Shr(c, l), Low(c, l), l, l - 1 - j);
    }
  }

  method ReverseBits(bits: nat, num: nat) returns (result: nat)
    ensures result == Val(MsbBits(bits, num))
  {
    result := 0;
    ghost var b := MsbBits(bits, num);
    for i := 0 to num
      invariant result == Val(b[..i])
    {
      assert b[..i + 1] == b[..i] + [b[i]];
      ValBound(b[..i]);
      ValConcat(b[..i], [b[i]]);
      assert Val([b[i]]) == b[i];
      OrDisjoint(result, i, b[i]);
      result := BitOr(result, Shl(Shr(bits, num - i - 1) % 2, i));
    }
    assert b[..num] == b;
  }

  /** The top m bits of an l-bit code are the first m bits of the stream. */
  lemma TopBitsAreHead(v: nat, l: nat, m: nat)
    requires l >= m
    ensures MsbBits(Shr(v, l - m), m) == MsbBits(v, l)[..m]
  {
    var x, y := MsbBits(Shr(v, l - m), m), MsbBits(v, l);
    forall i | 0 <= i < m
      ensures x[i] == y[i]
    {
      ShrShr(v, l - m, m - 1 - i);
    }
  }

  lemma HeadBound(lens: Lengths, i: nat)
    requires Long(lens, i)
    ensures Head(lens, i) < HEADSIZE
  {
    Pow2Values();
    ValBound(CodeBits(lens, i)[..FIRSTBITS]);
  }

  /** The longest code length below each first-level slot. */
  method ComputeMaxLens(lens: Lengths, codes: seq<nat>) returns (maxlens: array<nat>)
    requires CodesOk(lens, codes)
    ensures fresh(maxlens) && MaxLens(lens, maxlens[..])
  {
    maxlens := new nat[HEADSIZE](_ => 0);
    for i := 0 to |lens|
      invariant forall idx :: 0 <= idx < HEADSIZE ==> IsMaxLen(lens, i, idx, maxlens[idx])
    {
      var l := lens[i];
      ghost var before := maxlens[..];
      ghost var n := i + 1;
      if l > FIRSTBITS {
        assert CodeOk(lens, i, codes[i]);
        CodeOkBits(lens, i, codes[i]);
        TopBitsAreHead(codes[i], l, FIRSTBITS);
        HeadBound(lens, i);
        var index := ReverseBits(Shr(codes[i], l - FIRSTBITS), FIRSTBITS);
        maxlens[index] := if maxlens[index] > l then maxlens[index] else l;
      }
      forall idx | 0 <= idx < HEADSIZE
        ensures IsMaxLen(lens, n, idx, maxlens[idx])
      {
        assert IsMaxLen(lens, i, idx, before[idx]);
        MaxLenStep(lens, i, idx, before[idx], maxlens[idx]);
      }
    }
  }

  lemma MaxLenStep(lens: Lengths, i: nat, idx: nat, m: nat, m': nat)
    requires i < |lens| && IsMaxLen(lens, i, idx, m)
    requires if Long(lens, i) && Head(lens, i) == idx then m' == (if m > lens[i] then m else lens[i]) else m' == m
    ensures IsMaxLen(lens, i + 1, idx, m')
  {
    if m' != 0 {
      if m' == m {
        var j :| 0 <= j < i && Long(lens, j) && Head(lens, j) == idx && lens[j] == m;
        assert 0 <= j < i + 1 && Long(lens, j) && Head(lens, j) == idx && lens[j] == m';
      } else {
        assert 0 <= i < i + 1 && Long(lens, i) && Head(lens, i) == idx && lens[i] == m';
      }
    }
  }

  /** Enters (len, sym) wherever the l bits of rev come first.  With `check` an
      entry that is already used is a conflict. */
  method FillEntries(tl: array<nat>, tv: array<nat>, base: nat, total: nat, rev: nat, l: nat,
                     len: nat, sym: nat, check: bool) returns (ok: bool)
    requires tl != tv && tl.Length == tv.Length
    requires base + Pow2(total) <= tl.Length && l <= total && rev < Pow2(l)
    requires len != UNUSED
    modifies tl, tv
    ensures ok ==> Entered(old(tl[..]), old(tv[..]), tl[..], tv[..], base, total, rev, l, len, sym)
    ensures ok && check ==> forall a :: 0 <= a < tl.Length && Entry(a, base, total, rev, l) ==> old(tl[a]) == UNUSED
    ensures !ok ==> check && exists a :: 0 <= a < tl.Length && Entry(a, base, total, rev, l) && old(tl[a]) != UNUSED
  {
    ghost var tl0, tv0 := tl[..], tv[..];
    var num := Pow2(total - l);
    for j := 0 to num
      invariant forall a :: 0 <= a < tl.Length && Entry(a, base, total, rev, l) && Shr(a - base, l) < j ==>
                  tl[a] == len && tv[a] == sym && (check ==> tl0[a] == UNUSED)
      invariant forall a :: 0 <= a < tl.Length && !(Entry(a, base, total, rev, l) && Shr(a - base, l) < j) ==>
                  tl[a] == tl0[a] && tv[a] == tv0[a]
    {
      OrDisjoint(rev, l, j);
      SplitSum(rev, j, l);
      SumBound(rev, j, l, total - l);
      var index := base + BitOr(rev, Shl(j, l));
      assert Entry(index, base, total, rev, l) && Shr(index - base, l) == j;
      if check && tl[index] != UNUSED {
        return false;
      }
      forall a | 0 <= a < tl.Length && Entry(a, base, total, rev, l) && Shr(a - base, l) == j
        ensures a == index
      {
        LowHigh(a - base, l);
      }
      tl[index] := len;
      tv[index] := sym;
    }
    forall a | 0 <= a < tl.Length && Entry(a, base, total, rev, l)
      ensures Shr(a - base, l) < num
    {
      ShrBound(a - base, l, total - l);
    }
    return true;
  }

  /** The first level with its pointers, everything else unused. */
  method InitTable(ghost lens: Lengths, maxlens: array<nat>) returns (tl: array<nat>, tv: array<nat>)
    requires MaxLens(lens, maxlens[..])
    ensures fresh(tl) && fresh(tv) && tl != tv
    ensures Filled(lens, maxlens[..], tl[..], tv[..], 0)
  {
    hide IsMaxLen;
    ghost var ml := maxlens[..];
    var size := HEADSIZE;
    for i := 0 to HEADSIZE
      invariant size == Ptr(ml, i)
    {
      if maxlens[i] > FIRSTBITS {
        size := size + Pow2(maxlens[i] - FIRSTBITS);
      }
    }
    tl := new nat[size](_ => UNUSED);
    tv := new nat[size];
    var pointer := HEADSIZE;
    for i := 0 to HEADSIZE
      invariant maxlens[..] == ml
      invariant pointer == Ptr(ml, i)
      invariant forall idx :: 0 <= idx < i ==> HeadSlot(lens, ml, tl[..], tv[..], 0, idx)
      invariant forall a :: i <= a < size ==> tl[a] == UNUSED
    {
      var l := maxlens[i];
      ghost var tl0, tv0 := tl[..], tv[..];
      assert Ptr(ml, i + 1) == Ptr(ml, i) + SubSize(l);
      if l > FIRSTBITS {
        tl[i] := l;
        tv[i] := pointer;
        pointer := pointer + Pow2(l - FIRSTBITS);
      }
      forall idx | 0 <= idx < i + 1
        ensures HeadSlot(lens, ml, tl[..], tv[..], 0, idx)
      {
        if idx < i {
          assert HeadSlot(lens, ml, tl0, tv0, 0, idx);
        }
      }
    }
    InitFilled(lens, ml, tl[..], tv[..]);
  }

  lemma InitFilled(lens: Lengths, ml: seq<nat>, tl: seq<nat>, tv: seq<nat>)
    requires Shape(lens, ml, tl, tv) && HeadSlots(lens, ml, tl, tv, 0)
    requires forall a :: HEADSIZE <= a < |tl| ==> tl[a] == UNUSED
    ensures Filled(lens, ml, tl, tv, 0)
  {
    forall idx, k | 0 <= idx < HEADSIZE && InSub(ml, idx, k) && Addr(ml, idx, k) < |tl|
      ensures SubSlot(lens, tl, tv, 0, Addr(ml, idx, k), idx, k)
    {
      AddrInside(ml, idx, k);
    }
  }

  /** Enters a code of at most nine bits. */
  method EnterShortSymbol(lens: Lengths, reverse: nat, ghost ml: seq<nat>, tl: array<nat>, tv: array<nat>, i: nat)
    returns (ok: bool)
    requires tl != tv && Filled(lens, ml, tl[..], tv[..], i)
    requires Short(lens, i) && reverse == Val(CodeBits(lens, i))
    modifies tl, tv
    ensures ok ==> Filled(lens, ml, tl[..], tv[..], i + 1)
    ensures !ok ==> !ValidTree(lens)
  {
    ghost var tl0, tv0 := tl[..], tv[..];
    ValBound(CodeBits(lens, i));
    Pow2Values();
    ok := FillEntries(tl, tv, 0, FIRSTBITS, reverse, lens[i], lens[i], i, true);
    if ok {
      EnterShort(lens, ml, tl0, tv0, tl[..], tv[..], i);
    } else {
      ghost var a :| 0 <= a < |tl0| && Entry(a, 0, FIRSTBITS, reverse, lens[i]) && tl0[a] != UNUSED;
      ConflictForbidden(lens, ml, tl0, tv0, i, a);
    }
  }

  lemma LongReverse(lens: Lengths, i: nat)
    requires Long(lens, i)
    ensures
      var reverse := Val(CodeBits(lens, i));
      && BitAnd(reverse, Pow2(FIRSTBITS) - 1) == Head(lens, i)
      && Shr(reverse, FIRSTBITS) == Tail(lens, i) < Pow2(lens[i] - FIRSTBITS)
  {
    var c := CodeBits(lens, i);
    ValSplit(c, FIRSTBITS);
    AndMask(Val(c), FIRSTBITS);
    ValBound(c[FIRSTBITS..]);
  }

  /** Enters a longer code through the pointer of its first nine bits.  The
      pointer is never missing and its table never too small, so this step has no
      conflict to report. */
  method EnterLongSymbol(lens: Lengths, reverse: nat, ghost ml: seq<nat>, tl: array<nat>, tv: array<nat>, i: nat)
    requires tl != tv && Filled(lens, ml, tl[..], tv[..], i)
    requires Long(lens, i) && reverse == Val(CodeBits(lens, i))
    modifies tl, tv
    ensures Filled(lens, ml, tl[..], tv[..], i + 1)
  {
    hide Ptr, Val, CodeBits, Entered, BitAnd, Low, Shr, HeadSlots, SubSlots, ShortsEntered, LongsEntered, IsMaxLen;
    ghost var tl0, tv0 := tl[..], tv[..];
    LongReverse(lens, i);
    LongSlot(lens, ml, tl0, tv0, i);
    var index := BitAnd(reverse, Pow2(FIRSTBITS) - 1);
    var maxlen := tl[index];
    var tablelen := maxlen - FIRSTBITS;
    var start := tv[index];
    assert index == Head(lens, i);
    assert lens[i] <= maxlen == ml[index] && start == Ptr(ml, index);
    assert start + Pow2(tablelen) <= tl.Length;
    var ok := FillEntries(tl, tv, start, tablelen, Shr(reverse, FIRSTBITS), lens[i] - FIRSTBITS, lens[i], i, false);
    EnterLong(lens, ml, tl0, tv0, tl[..], tv[..], i);
  }

  method EnterSymbol(lens: Lengths, codes: seq<nat>, ghost ml: seq<nat>, tl: array<nat>, tv: array<nat>, i: nat)
    returns (ok: bool)
    requires CodesOk(lens, codes) && tl != tv && i < |lens|
    requires Filled(lens, ml, tl[..], tv[..], i)
    modifies tl, tv
    ensures ok ==> Filled(lens, ml, tl[..], tv[..], i + 1)
    ensures !ok ==> !ValidTree(lens)
  {
    ok := true;
    var reverse := ReverseBits(codes[i], lens[i]);
    assert CodeOk(lens, i, codes[i]);
    if lens[i] != 0 {
      CodeOkBits(lens, i, codes[i]);
    }
    if lens[i] == 0 {
      SkipAbsent(lens, ml, tl[..], tv[..], i);
    } else if lens[i] <= FIRSTBITS {
      ok := EnterShortSymbol(lens, reverse, ml, tl, tv, i);
    } else {
      EnterLongSymbol(lens, reverse, ml, tl, tv, i);
    }
  }

  /** Enters all symbols; false on a conflict. */
  method FillTable(lens: Lengths, codes: seq<nat>, ghost ml: seq<nat>, tl: array<nat>, tv: array<nat>)
    returns (ok: bool, numpresent: nat)
    requires CodesOk(lens, codes) && tl != tv
    requires Filled(lens, ml, tl[..], tv[..], 0)
    modifies tl, tv
    ensures ok ==> Filled(lens, ml, tl[..], tv[..], |lens|) && numpresent == NumPresent(lens)
    ensures !ok ==> !ValidTree(lens)
  {
    numpresent := 0;
    ok := true;
    for i := 0 to |lens|
      invariant Filled(lens, ml, tl[..], tv[..], i)
      invariant numpresent == i - Count(lens, 0, i)
      invariant ok
    {
      if lens[i] != 0 {
        numpresent := numpresent + 1;
      }
      ok := EnterSymbol(lens, codes, ml, tl, tv, i);
      if !ok {
        return;
      }
    }
  }

  lemma SkipAbsent(lens: Lengths, ml: seq<nat>, tl: seq<nat>, tv: seq<nat>, i: nat)
    requires i < |lens| && lens[i] == 0 && Filled(lens, ml, tl, tv, i)
    ensures Filled(lens, ml, tl, tv, i + 1)
  {
    var n := i + 1;
    forall idx | 0 <= idx < HEADSIZE
      ensures HeadSlot(lens, ml, tl, tv, n, idx)
    {
      assert HeadSlot(lens, ml, tl, tv, i, idx);
    }
    forall idx, k | 0 <= idx < HEADSIZE && InSub(ml, idx, k) && Addr(ml, idx, k) < |tl|
      ensures SubSlot(lens, tl, tv, n, Addr(ml, idx, k), idx, k)
    {
      assert SubSlot(lens, tl, tv, i, Addr(ml, idx, k), idx, k);
    }
  }

  /** A long symbol finds the pointer to a second-level table that is big enough. */
  lemma LongSlot(lens: Lengths, ml: seq<nat>, tl: seq<nat>, tv: seq<nat>, i: nat)
    requires Filled(lens, ml, tl, tv, i) && Long(lens, i)
    ensures
      var h := Head(lens, i);
      && h < HEADSIZE && tl[h] == ml[h] && lens[i] <= ml[h] <= LONGEST
      && tv[h] == Ptr(ml, h) && tv[h] + Pow2(ml[h] - FIRSTBITS) <= |tl|
  {
    var h := Head(lens, i);
    HeadBound(lens, i);
    MaxLenBound(lens, ml, i);
    assert HeadSlot(lens, ml, tl, tv, i, h);
    PtrMonotone(ml, h + 1, HEADSIZE);
  }

  /** The last step: unused entries are an error unless the tree has fewer than
      two symbols; then they become the invalid symbol. */
  method CloseTable(lens: Lengths, ghost ml: seq<nat>, tl: array<nat>, tv: array<nat>, numpresent: nat) returns (ok: bool)
    requires tl != tv && Filled(lens, ml, tl[..], tv[..], |lens|) && numpresent == NumPresent(lens)
    requires |lens| <= MAXSYMBOLS
    modifies tl, tv
    ensures ok <==> ValidTree(lens)
    ensures ok ==> Closed(old(tl[..]), old(tv[..]), tl[..], tv[..])
  {
    ghost var tl0, tv0 := tl[..], tv[..];
    if numpresent < 2 {
      for i := 0 to tl.Length
        invariant forall a :: i <= a < tl.Length ==> tl[a] == tl0[a] && tv[a] == tv0[a]
        invariant forall a :: 0 <= a < i ==>
                    if tl0[a] == UNUSED then tl[a] == (if a < HEADSIZE then 1 else FIRSTBITS + 1) && tv[a] == INVALIDSYMBOL
                    else tl[a] == tl0[a] && tv[a] == tv0[a]
      {
        if tl[i] == UNUSED {
          tl[i] := if i < HEADSIZE then 1 else FIRSTBITS + 1;
          tv[i] := INVALIDSYMBOL;
        }
      }
    } else {
      for i := 0 to tl.Length
        invariant forall a :: 0 <= a < i ==> tl[a] != UNUSED
      {
        if tl[i] == UNUSED {
          HoleForbidden(lens, ml, tl0, tv0, i);
          return false;
        }
      }
      AcceptedIsValid(lens, ml, tl0, tv0);
    }
    return true;
  }

  lemma {:induction false} BitOfSum(z: nat, c: nat, l: nat, j: nat)
    requires j < l
    ensures BitOf(Shl(z, l) + c, j) == BitOf(c, j)
    decreases j
  {
    if j > 0 {
      assert (Shl(z, l) + c) / 2 == Shl(z, l - 1) + c / 2;
      BitOfSum(z, c / 2, l - 1, j - 1);
    }
  }

  /** A multiple of 2^l does not touch the low l bits. */
  lemma {:induction false} LowOfSum(z: nat, c: nat, l: nat)
    ensures Low(Shl(z, l) + c, l) == Low(c, l)
    decreases l
  {
    if l > 0 {
      assert (Shl(z, l) + c) / 2 == Shl(z, l - 1) + c / 2;
      LowOfSum(z, c / 2, l - 1);
    }
  }

  /** The next code of length l when the first n symbols have theirs: symbols of
      length 0 were counted as well, which adds a multiple of 2^l. */
  predicate NextOk(lens: Lengths, n: nat, l: nat, v: nat)
    requires n <= |lens|
  {
    v == Shl(Count(lens, 0, |lens|), l) + NextCode(lens, l) + Count(lens, l, n)
  }

  lemma MaskedNextCode(lens: Lengths, n: nat, x: nat)
    requires n < |lens| && NextOk(lens, n, lens[n], x)
    ensures CodeOk(lens, n, BitAnd(x, Pow2(lens[n]) - 1))
  {
    AndMask(x, lens[n]);
    LowOfSum(Count(lens, 0, |lens|), Code(lens, n), lens[n]);
  }

  method CountLengths(lens: Lengths, maxbitlen: nat) returns (blcount: seq<nat>)
    requires maxbitlen <= LONGEST
    requires forall i :: 0 <= i < |lens| ==> lens[i] <= maxbitlen
    ensures |blcount| == maxbitlen + 1
    ensures forall l :: 0 <= l <= maxbitlen ==> blcount[l] == Count(lens, l, |lens|)
  {
    var a := new nat[maxbitlen + 1](_ => 0);
    for n := 0 to |lens|
      invariant forall l :: 0 <= l <= maxbitlen ==> a[l] == Count(lens, l, n)
    {
      a[lens[n]] := a[lens[n]] + 1;
    }
    blcount := a[..];
  }

  lemma NextCodeStep(lens: Lengths, l: nat)
    requires l >= 1
    ensures
      var z := Count(lens, 0, |lens|);
      Shl(z, l) + NextCode(lens, l) ==
      if l == 1 then 2 * z else 2 * (Shl(z, l - 1) + NextCode(lens, l - 1) + Count(lens, l - 1, |lens|))
  {
    var z := Count(lens, 0, |lens|);
    assert Shl(z, l) == 2 * Shl(z, l - 1);
  }

  method FirstCodes(lens: Lengths, blcount: seq<nat>, maxbitlen: nat) returns (nextcode: array<nat>)
    requires maxbitlen <= LONGEST && |blcount| == maxbitlen + 1
    requires forall l :: 0 <= l <= maxbitlen ==> blcount[l] == Count(lens, l, |lens|)
    ensures fresh(nextcode) && nextcode.Length == maxbitlen + 1
    ensures forall l :: 1 <= l <= maxbitlen ==> NextOk(lens, 0, l, nextcode[l])
  {
    nextcode := new nat[maxbitlen + 1](_ => 0);
    for bits := 1 to maxbitlen + 1
      invariant nextcode[0] == 0
      invariant forall l :: 1 <= l < bits ==> NextOk(lens, 0, l, nextcode[l])
    {
      NextCodeStep(lens, bits);
      nextcode[bits] := 2 * (nextcode[bits - 1] + blcount[bits - 1]);
    }
  }

  /** Codes by counting lengths; the mask takes away what the symbols of length 0 added. */
  method ComputeCodes(lens: Lengths, maxbitlen: nat) returns (codes: seq<nat>)
    requires maxbitlen <= LONGEST
    requires forall i :: 0 <= i < |lens| ==> lens[i] <= maxbitlen
    ensures CodesOk(lens, codes)
  {
    var blcount := CountLengths(lens, maxbitlen);
    var nextcode := FirstCodes(lens, blcount, maxbitlen);
    var c := new nat[|lens|];
    for n := 0 to |lens|
      invariant forall l :: 1 <= l <= maxbitlen ==> NextOk(lens, n, l, nextcode[l])
      invariant forall i :: 0 <= i < n ==> CodeOk(lens, i, c[i])
    {
      ghost var before := nextcode[..];
      var l := lens[n];
      if l != 0 {
        MaskedNextCode(lens, n, nextcode[l]);
        c[n] := BitAnd(nextcode[l], Pow2(l) - 1);
        nextcode[l] := nextcode[l] + 1;
      }
      forall k | 1 <= k <= maxbitlen
        ensures NextOk(lens, n + 1, k, nextcode[k])
      {
        assert NextOk(lens, n, k, before[k]);
      }
    }
    codes := c[..];
  }

  class HuffmanTree {
    var codes: seq<nat>
    var lengths: Lengths
    var maxbitlen: nat
    var numcodes: nat
    var tableLen: seq<nat>
    var tableValue: seq<nat>
    ghost var ml: seq<nat>    // longest length per slot, and the table before it was closed
    ghost var tl0: seq<nat>
    ghost var tv0: seq<nat>

    ghost predicate Ready()
      reads this
    {
      && numcodes == |lengths| <= MAXSYMBOLS
      && ValidTree(lengths)
      && CodesOk(lengths, codes)
      && Filled(lengths, ml, tl0, tv0, |lengths|)
      && Closed(tl0, tv0, tableLen, tableValue)
    }

    constructor ()
    {
      codes, lengths, tableLen, tableValue := [], [], [], [];
      maxbitlen, numcodes := 0, 0;
    }

    method MakeTable() returns (error: nat)
      requires numcodes == |lengths| <= MAXSYMBOLS && CodesOk(lengths, codes)
      modifies this`tableLen, this`tableValue, this`ml, this`tl0, this`tv0
      ensures error == if ValidTree(lengths) then 0 else 55
      ensures error == 0 ==> Ready()
    {
      var maxlens := ComputeMaxLens(lengths, codes);
      var tl, tv := InitTable(lengths, maxlens);
      ml := maxlens[..];
      var ok, numpresent := FillTable(lengths, codes, ml, tl, tv);
      if !ok {
        return 55;
      }
      tl0, tv0 := tl[..], tv[..];
      ok := CloseTable(lengths, ml, tl, tv, numpresent);
      if !ok {
        return 55;
      }
      tableLen, tableValue := tl[..], tv[..];
      return 0;
    }

    method MakeFromLengths2() returns (error: nat)
      requires numcodes == |lengths| <= MAXSYMBOLS && maxbitlen <= LONGEST
      requires forall i :: 0 <= i < |lengths| ==> lengths[i] <= maxbitlen
      modifies this`codes, this`tableLen, this`tableValue, this`ml, this`tl0, this`tv0
      ensures error == if ValidTree(lengths) then 0 else 55
      ensures error == 0 ==> Ready()
    {
      codes := ComputeCodes(lengths, maxbitlen);
      error := MakeTable();
    }

    method MakeFromLengths(bitlen: seq<nat>, maxbits: nat) returns (error: nat)
      requires |bitlen| <= MAXSYMBOLS && maxbits <= LONGEST
      requires forall i :: 0 <= i < |bitlen| ==> bitlen[i] <= maxbits
      modifies this
      ensures lengths == bitlen
      ensures error == if ValidTree(bitlen) then 0 else 55
      ensures error == 0 ==> Ready()
    {
      lengths := bitlen;
      numcodes := |bitlen|;
      maxbitlen := maxbits;
      error := MakeFromLengths2();
    }

    /** The reader must hold at least 15 ensured bits. */
    method DecodeSymbol(reader: BR.BitReader) returns (symbol: nat)
      requires Ready() && reader.Valid() && reader.avail >= LONGEST
      modifies reader
      ensures reader.Valid()
      ensures symbol == SymbolAt(lengths, reader.Stream(), old(reader.bp))
      ensures symbol != INVALIDSYMBOL ==> symbol < |lengths| && lengths[symbol] > 0 && reader.bp == old(reader.bp) + lengths[symbol]
      ensures reader.bp <= old(reader.bp) + LONGEST
      ensures reader.avail == old(reader.avail) - (reader.bp - old(reader.bp))
    {
      hide Slice, Val, BytesBits, Filled, Closed, ValidTree, SymbolAt, CodesOk;
      ghost var s, pos := reader.Stream(), reader.bp;
      LookupShort(lengths, ml, tl0, tv0, tableLen, tableValue, s, pos);
      var code := reader.PeekBits(FIRSTBITS);
      assert code == Val(Slice(s, pos, FIRSTBITS));
      var l := tableLen[code];
      var value := tableValue[code];
      if l <= FIRSTBITS {
        reader.AdvanceBits(l);
        return value;
      } else {
        ghost var a := LookupLong(lengths, ml, tl0, tv0, tableLen, tableValue, s, pos, code);
        reader.AdvanceBits(FIRSTBITS);
        var rest := reader.PeekBits(l - FIRSTBITS);
        var index2 := value + rest;
        assert index2 == a;
        reader.AdvanceBits(tableLen[index2] - FIRSTBITS);
        return tableValue[index2];
      }
    }
  }
}
