/** What the two-level decoding table of a Huffman tree holds.

    The first level is indexed by the next nine stream bits.  A code of at most
    nine bits fills every slot that starts with it; longer codes that share their
    first nine bits share a second-level table, indexed by the bits that follow. */
module HuffmanTable {
  import opened Bits
  import opened CanonicalCode

  const FIRSTBITS: nat := 9
  const HEADSIZE: nat := 512
  const UNUSED: nat := 16
  const INVALIDSYMBOL: nat := 65535

  predicate Short(lens: Lengths, i: nat) {
    i < |lens| && 1 <= lens[i] <= FIRSTBITS
  }

  predicate Long(lens: Lengths, i: nat) {
    i < |lens| && lens[i] > FIRSTBITS
  }

  function Head(lens: Lengths, i: nat): nat
    requires Long(lens, i)
  {
    Val(CodeBits(lens, i)[..FIRSTBITS])
  }

  function Tail(lens: Lengths, i: nat): nat
    requires Long(lens, i)
  {
    Val(CodeBits(lens, i)[FIRSTBITS..])
  }

  /** The first-level slot idx starts with the code of i. */
  predicate ShortFits(lens: Lengths, i: nat, idx: nat) {
    Short(lens, i) && Low(idx, lens[i]) == Val(CodeBits(lens, i))
  }

  /** Entry k of the second-level table of slot idx starts with the code of i. */
  predicate LongFits(lens: Lengths, i: nat, idx: nat, k: nat) {
    Long(lens, i) && Head(lens, i) == idx && Low(k, lens[i] - FIRSTBITS) == Tail(lens, i)
  }

  /** m is the longest length among the first n symbols that belong to slot idx. */
  ghost predicate IsMaxLen(lens: Lengths, n: nat, idx: nat, m: nat) {
    && (forall i :: 0 <= i < n && Long(lens, i) && Head(lens, i) == idx ==> lens[i] <= m)
    && (m == 0 || exists i :: 0 <= i < n && Long(lens, i) && Head(lens, i) == idx && lens[i] == m)
  }

  ghost predicate MaxLens(lens: Lengths, ml: seq<nat>) {
    |ml| == HEADSIZE && forall idx :: 0 <= idx < HEADSIZE ==> IsMaxLen(lens, |lens|, idx, ml[idx])
  }

  function SubSize(m: nat): nat {
    if m > FIRSTBITS then Pow2(m - FIRSTBITS) else 0
  }

  /** Where the second-level table of slot i starts; slot 512 gives the total size. */
  function Ptr(ml: seq<nat>, i: nat): (p: nat)
    requires i <= |ml|
    ensures p >= HEADSIZE
  {
    if i == 0 then HEADSIZE else Ptr(ml, i - 1) + SubSize(ml[i - 1])
  }

  lemma {:induction false} PtrMonotone(ml: seq<nat>, i: nat, j: nat)
    requires i <= j <= |ml|
    ensures Ptr(ml, i) <= Ptr(ml, j)
    decreases j
  {
    if i < j {
      PtrMonotone(ml, i, j - 1);
    }
  }

  /** Address of entry k of the second-level table of slot idx. */
  function Addr(ml: seq<nat>, idx: nat, k: nat): nat
    requires idx <= |ml|
  {
    Ptr(ml, idx) + k
  }

  predicate InSub(ml: seq<nat>, idx: nat, k: nat) {
    idx < |ml| && k < SubSize(ml[idx])
  }

  lemma AddrInside(ml: seq<nat>, idx: nat, k: nat)
    requires InSub(ml, idx, k)
    ensures HEADSIZE <= Addr(ml, idx, k) < Ptr(ml, |ml|)
  {
    PtrMonotone(ml, idx + 1, |ml|);
  }

  lemma AddrInjective(ml: seq<nat>, i: nat, k: nat, j: nat, h: nat)
    requires InSub(ml, i, k) && InSub(ml, j, h) && Addr(ml, i, k) == Addr(ml, j, h)
    ensures i == j && k == h
  {
    if i < j {
      PtrMonotone(ml, i + 1, j);
    } else if j < i {
      PtrMonotone(ml, j + 1, i);
    }
  }

  // ----- The table while the first n symbols have been entered

  ghost predicate HeadSlot(lens: Lengths, ml: seq<nat>, tl: seq<nat>, tv: seq<nat>, n: nat, idx: nat)
    requires idx < |ml| && idx < |tl| && idx < |tv|
  {
    if ml[idx] > FIRSTBITS then tl[idx] == ml[idx] && tv[idx] == Ptr(ml, idx)
    else tl[idx] == UNUSED || (tv[idx] < n && ShortFits(lens, tv[idx], idx) && tl[idx] == lens[tv[idx]])
  }

  ghost predicate SubSlot(lens: Lengths, tl: seq<nat>, tv: seq<nat>, n: nat, a: nat, idx: nat, k: nat)
    requires a < |tl| && a < |tv|
  {
    tl[a] == UNUSED || (tv[a] < n && LongFits(lens, tv[a], idx, k) && tl[a] == lens[tv[a]])
  }

  ghost predicate Shape(lens: Lengths, ml: seq<nat>, tl: seq<nat>, tv: seq<nat>) {
    MaxLens(lens, ml) && |tl| == |tv| == Ptr(ml, HEADSIZE)
  }

  ghost predicate HeadSlots(lens: Lengths, ml: seq<nat>, tl: seq<nat>, tv: seq<nat>, n: nat)
    requires Shape(lens, ml, tl, tv)
  {
    forall idx :: 0 <= idx < HEADSIZE ==> HeadSlot(lens, ml, tl, tv, n, idx)
  }

  ghost predicate SubSlots(lens: Lengths, ml: seq<nat>, tl: seq<nat>, tv: seq<nat>, n: nat)
    requires Shape(lens, ml, tl, tv)
  {
    forall idx, k :: 0 <= idx < HEADSIZE && InSub(ml, idx, k) && Addr(ml, idx, k) < |tl| ==>
      SubSlot(lens, tl, tv, n, Addr(ml, idx, k), idx, k)
  }

  ghost predicate ShortsEntered(lens: Lengths, tl: seq<nat>, tv: seq<nat>, n: nat)
    requires |tl| >= HEADSIZE && |tv| >= HEADSIZE
  {
    forall i, idx :: 0 <= i < n && 0 <= idx < HEADSIZE && ShortFits(lens, i, idx) ==>
      tl[idx] == lens[i] && tv[idx] == i
  }

  ghost predicate LongsEntered(lens: Lengths, ml: seq<nat>, tl: seq<nat>, n: nat) {
    forall i, idx, k :: 0 <= i < n && InSub(ml, idx, k) && Addr(ml, idx, k) < |tl| && LongFits(lens, i, idx, k) ==>
      tl[Addr(ml, idx, k)] != UNUSED
  }

  ghost predicate Filled(lens: Lengths, ml: seq<nat>, tl: seq<nat>, tv: seq<nat>, n: nat) {
    && Shape(lens, ml, tl, tv)
    && HeadSlots(lens, ml, tl, tv, n)
    && SubSlots(lens, ml, tl, tv, n)
    && ShortsEntered(lens, tl, tv, n)
    && LongsEntered(lens, ml, tl, n)
  }

  // ----- Entering one symbol

  predicate InRange(a: nat, base: nat, total: nat) {
    base <= a < base + Pow2(total)
  }

  /** The entries of a (sub)table of 2^total entries at `base` that start with the
      l bits of value rev. */
  predicate Entry(a: nat, base: nat, total: nat, rev: nat, l: nat) {
    InRange(a, base, total) && Low(a - base, l) == rev
  }

  /** All these entries, and no others, now hold (len, sym). */
  ghost predicate Entered(tl: seq<nat>, tv: seq<nat>, tl': seq<nat>, tv': seq<nat>,
                          base: nat, total: nat, rev: nat, l: nat, len: nat, sym: nat) {
    && |tl'| == |tl| && |tv'| == |tv| && |tl| == |tv|
    && (forall a :: 0 <= a < |tl| && Entry(a, base, total, rev, l) ==> tl'[a] == len && tv'[a] == sym)
    && (forall a :: 0 <= a < |tl| && !Entry(a, base, total, rev, l) ==> tl'[a] == tl[a] && tv'[a] == tv[a])
  }

  lemma EnterShort(lens: Lengths, ml: seq<nat>, tl: seq<nat>, tv: seq<nat>, tl': seq<nat>, tv': seq<nat>, i: nat)
    requires Filled(lens, ml, tl, tv, i) && Short(lens, i)
    requires Entered(tl, tv, tl', tv', 0, FIRSTBITS, Val(CodeBits(lens, i)), lens[i], lens[i], i)
    requires forall a :: 0 <= a < |tl| && Entry(a, 0, FIRSTBITS, Val(CodeBits(lens, i)), lens[i]) ==> tl[a] == UNUSED
    ensures Filled(lens, ml, tl', tv', i + 1)
  {
    Pow2Values();
    var n := i + 1;
    forall idx | 0 <= idx < HEADSIZE
      ensures HeadSlot(lens, ml, tl', tv', n, idx)
    {
      assert HeadSlot(lens, ml, tl, tv, i, idx);
      assert Entry(idx, 0, FIRSTBITS, Val(CodeBits(lens, i)), lens[i]) <==> ShortFits(lens, i, idx);
      assert ml[idx] <= LONGEST;
    }
    forall idx, k | 0 <= idx < HEADSIZE && InSub(ml, idx, k) && Addr(ml, idx, k) < |tl'|
      ensures SubSlot(lens, tl', tv', i + 1, Addr(ml, idx, k), idx, k)
    {
      AddrInside(ml, idx, k);
      assert SubSlot(lens, tl, tv, i, Addr(ml, idx, k), idx, k);
    }
    forall j, idx | 0 <= j < i + 1 && 0 <= idx < HEADSIZE && ShortFits(lens, j, idx)
      ensures tl'[idx] == lens[j] && tv'[idx] == j
    {
      assert Entry(idx, 0, FIRSTBITS, Val(CodeBits(lens, i)), lens[i]) <==> ShortFits(lens, i, idx);
    }
    forall j, idx, k | 0 <= j < i + 1 && InSub(ml, idx, k) && Addr(ml, idx, k) < |tl'| && LongFits(lens, j, idx, k)
      ensures tl'[Addr(ml, idx, k)] != UNUSED
    {
      AddrInside(ml, idx, k);
      assert j != i;
    }
  }

  lemma EnterLong(lens: Lengths, ml: seq<nat>, tl: seq<nat>, tv: seq<nat>, tl': seq<nat>, tv': seq<nat>, i: nat)
    requires Filled(lens, ml, tl, tv, i) && Long(lens, i) && Head(lens, i) < HEADSIZE
    requires ml[Head(lens, i)] >= lens[i]
    requires Entered(tl, tv, tl', tv', Ptr(ml, Head(lens, i)), ml[Head(lens, i)] - FIRSTBITS,
                     Tail(lens, i), lens[i] - FIRSTBITS, lens[i], i)
    ensures Filled(lens, ml, tl', tv', i + 1)
  {
    var h := Head(lens, i);
    var base, total, l := Ptr(ml, h), ml[h] - FIRSTBITS, lens[i] - FIRSTBITS;
    var n := i + 1;
    forall idx | 0 <= idx < HEADSIZE
      ensures HeadSlot(lens, ml, tl', tv', n, idx)
    {
      assert HeadSlot(lens, ml, tl, tv, i, idx);
      assert !Entry(idx, base, total, Tail(lens, i), l);
    }
    forall idx, k | 0 <= idx < HEADSIZE && InSub(ml, idx, k) && Addr(ml, idx, k) < |tl'|
      ensures SubSlot(lens, tl', tv', i + 1, Addr(ml, idx, k), idx, k)
      ensures LongFits(lens, i, idx, k) ==> Entry(Addr(ml, idx, k), base, total, Tail(lens, i), l)
    {
      EntryIsSub(ml, h, idx, k, Tail(lens, i), l);
      assert SubSlot(lens, tl, tv, i, Addr(ml, idx, k), idx, k);
    }
    forall j, idx | 0 <= j < i + 1 && 0 <= idx < HEADSIZE && ShortFits(lens, j, idx)
      ensures tl'[idx] == lens[j] && tv'[idx] == j
    {
      assert j != i;
      assert !Entry(idx, base, total, Tail(lens, i), l);
    }
    forall j, idx, k | 0 <= j < i + 1 && InSub(ml, idx, k) && Addr(ml, idx, k) < |tl'| && LongFits(lens, j, idx, k)
      ensures tl'[Addr(ml, idx, k)] != UNUSED
    {
      var a := Addr(ml, idx, k);
      if j == i {
        assert Entry(a, base, total, Tail(lens, i), l);
      } else if Entry(a, base, total, Tail(lens, i), l) {
        assert tl'[a] == lens[i];
      }
    }
  }

  /** The entries written for a long symbol lie in the table of its own slot. */
  lemma EntryIsSub(ml: seq<nat>, h: nat, idx: nat, k: nat, rev: nat, l: nat)
    requires h < |ml| && ml[h] > FIRSTBITS && InSub(ml, idx, k)
    ensures Entry(Addr(ml, idx, k), Ptr(ml, h), ml[h] - FIRSTBITS, rev, l) <==> idx == h && Low(k, l) == rev
  {
    hide Ptr, Low;
    var a := Addr(ml, idx, k);
    if InRange(a, Ptr(ml, h), ml[h] - FIRSTBITS) {
      AddrInjective(ml, idx, k, h, a - Ptr(ml, h));
    }
  }

  // ----- Slots against stream bits

  /** The stream whose next nine bits address slot idx. */
  lemma SlotBits(idx: nat)
    requires idx < HEADSIZE
    ensures Val(Slice(LsbBits(idx, FIRSTBITS), 0, FIRSTBITS)) == idx
  {
    Pow2Values();
    var b := LsbBits(idx, FIRSTBITS);
    ValOfSmall(idx, FIRSTBITS);
    assert Slice(b, 0, FIRSTBITS) == b;
  }

  lemma SlotBound(s: seq<bit>, pos: nat)
    ensures Val(Slice(s, pos, FIRSTBITS)) < HEADSIZE
  {
    Pow2Values();
    ValBound(Slice(s, pos, FIRSTBITS));
  }

  lemma ShortMatch(lens: Lengths, i: nat, s: seq<bit>, pos: nat)
    requires Short(lens, i)
    ensures ShortFits(lens, i, Val(Slice(s, pos, FIRSTBITS))) <==> Matches(lens, i, s, pos)
  {
    var l := lens[i];
    var b := Slice(s, pos, FIRSTBITS);
    ValSplit(b, l);
    SliceSplit(s, pos, l, FIRSTBITS - l);
    if Val(b[..l]) == Val(CodeBits(lens, i)) {
      ValInjective(b[..l], CodeBits(lens, i));
    }
  }

  lemma LongMatch(lens: Lengths, i: nat, s: seq<bit>, pos: nat, w: nat)
    requires Long(lens, i) && lens[i] <= FIRSTBITS + w
    ensures LongFits(lens, i, Val(Slice(s, pos, FIRSTBITS)), Val(Slice(s, pos + FIRSTBITS, w)))
       <==> Matches(lens, i, s, pos)
  {
    var c, l := CodeBits(lens, i), lens[i] - FIRSTBITS;
    var hd, tl := Slice(s, pos, FIRSTBITS), Slice(s, pos + FIRSTBITS, w);
    ValSplit(tl, l);
    SliceSplit(s, pos + FIRSTBITS, l, w - l);
    SliceSplit(s, pos, FIRSTBITS, l);
    assert c == c[..FIRSTBITS] + c[FIRSTBITS..];
    assert Slice(s, pos, lens[i]) == hd + tl[..l];
    if Val(c[..FIRSTBITS]) == Val(hd) && Val(c[FIRSTBITS..]) == Val(tl[..l]) {
      ValInjective(c[..FIRSTBITS], hd);
      ValInjective(c[FIRSTBITS..], tl[..l]);
    }
    if Matches(lens, i, s, pos) {
      assert (hd + tl[..l])[..FIRSTBITS] == hd;
      assert (hd + tl[..l])[FIRSTBITS..] == tl[..l];
    }
  }

  lemma LongHead(lens: Lengths, i: nat, s: seq<bit>, pos: nat)
    requires Long(lens, i) && Matches(lens, i, s, pos)
    ensures Head(lens, i) == Val(Slice(s, pos, FIRSTBITS))
  {
    LongMatch(lens, i, s, pos, lens[i] - FIRSTBITS);
  }

  // ----- Error 55 is reported exactly for the trees deflate forbids

  /** A short code that meets a used slot shares a prefix with another code. */
  lemma ConflictForbidden(lens: Lengths, ml: seq<nat>, tl: seq<nat>, tv: seq<nat>, i: nat, idx: nat)
    requires Filled(lens, ml, tl, tv, i) && idx < HEADSIZE
    requires ShortFits(lens, i, idx) && tl[idx] != UNUSED
    ensures !ValidTree(lens)
  {
    assert HeadSlot(lens, ml, tl, tv, i, idx);
    if ValidTree(lens) {
      if ml[idx] > FIRSTBITS {
        assert IsMaxLen(lens, |lens|, idx, ml[idx]);
        var m :| 0 <= m < |lens| && Long(lens, m) && Head(lens, m) == idx;
        var s := CodeBits(lens, m);
        assert Slice(s, 0, lens[m]) == s;
        LongHead(lens, m, s, 0);
        ShortMatch(lens, i, s, 0);
        PrefixFree(lens, s, 0, i, m);
      } else {
        var s := LsbBits(idx, FIRSTBITS);
        SlotBits(idx);
        ShortMatch(lens, i, s, 0);
        ShortMatch(lens, tv[idx], s, 0);
        PrefixFree(lens, s, 0, i, tv[idx]);
      }
    }
  }

  lemma {:induction false} FindSub(ml: seq<nat>, n: nat, a: nat) returns (idx: nat, k: nat)
    requires n <= |ml| && HEADSIZE <= a < Ptr(ml, n)
    ensures idx < n && InSub(ml, idx, k) && Addr(ml, idx, k) == a
  {
    if a < Ptr(ml, n - 1) {
      idx, k := FindSub(ml, n - 1, a);
    } else {
      idx, k := n - 1, a - Ptr(ml, n - 1);
    }
  }

  lemma MaxLenBound(lens: Lengths, ml: seq<nat>, i: nat)
    requires MaxLens(lens, ml) && Long(lens, i) && Head(lens, i) < HEADSIZE
    ensures lens[i] <= ml[Head(lens, i)] <= LONGEST
  {
    var h := Head(lens, i);
    assert IsMaxLen(lens, |lens|, h, ml[h]);
  }

  /** What a complete set of codes enters for the stream s. */
  lemma CompleteFills(lens: Lengths, ml: seq<nat>, tl: seq<nat>, tv: seq<nat>, s: seq<bit>, pos: nat)
    requires Filled(lens, ml, tl, tv, |lens|) && Complete(lens)
    ensures
      var idx := Val(Slice(s, pos, FIRSTBITS));
      && idx < HEADSIZE && tl[idx] != UNUSED
      && (ml[idx] > FIRSTBITS ==>
           var k := Val(Slice(s, pos + FIRSTBITS, ml[idx] - FIRSTBITS));
           InSub(ml, idx, k) && Addr(ml, idx, k) < |tl| && tl[Addr(ml, idx, k)] != UNUSED)
  {
    var idx := Val(Slice(s, pos, FIRSTBITS));
    SlotBound(s, pos);
    assert HeadSlot(lens, ml, tl, tv, |lens|, idx);
    assert IsMaxLen(lens, |lens|, idx, ml[idx]);
    var i := SomeMatch(lens, s, pos);
    if Short(lens, i) {
      ShortMatch(lens, i, s, pos);
    } else {
      LongHead(lens, i, s, pos);
      MaxLenBound(lens, ml, i);
      var w := ml[idx] - FIRSTBITS;
      var k := Val(Slice(s, pos + FIRSTBITS, w));
      ValBound(Slice(s, pos + FIRSTBITS, w));
      LongMatch(lens, i, s, pos, w);
      AddrInside(ml, idx, k);
    }
  }

  lemma HoleForbidden(lens: Lengths, ml: seq<nat>, tl: seq<nat>, tv: seq<nat>, a: nat)
    requires Filled(lens, ml, tl, tv, |lens|) && a < |tl| && tl[a] == UNUSED
    ensures !Complete(lens)
  {
    hide Complete, HeadSlots, SubSlots, ShortsEntered, LongsEntered, Ptr, Val, IsMaxLen;
    if Complete(lens) {
      if a < HEADSIZE {
        SlotBits(a);
        CompleteFills(lens, ml, tl, tv, LsbBits(a, FIRSTBITS), 0);
      } else {
        var idx, k := FindSub(ml, HEADSIZE, a);
        var w := ml[idx] - FIRSTBITS;
        var s := LsbBits(idx, FIRSTBITS) + LsbBits(k, w);
        SlotBits(idx);
        assert Slice(s, 0, FIRSTBITS) == Slice(LsbBits(idx, FIRSTBITS), 0, FIRSTBITS);
        assert Slice(s, FIRSTBITS, w) == LsbBits(k, w);
        ValOfSmall(k, w);
        CompleteFills(lens, ml, tl, tv, s, 0);
      }
    }
  }

  predicate NoHole(tl: seq<nat>) {
    forall a :: 0 <= a < |tl| ==> tl[a] != UNUSED
  }

  /** A table without holes decodes any bits. */
  lemma NoHoleMatches(lens: Lengths, ml: seq<nat>, tl: seq<nat>, tv: seq<nat>, s: seq<bit>) returns (i: nat)
    requires Filled(lens, ml, tl, tv, |lens|) && NoHole(tl)
    ensures Matches(lens, i, s, 0)
  {
    var idx := Val(Slice(s, 0, FIRSTBITS));
    SlotBound(s, 0);
    assert HeadSlot(lens, ml, tl, tv, |lens|, idx);
    if ml[idx] > FIRSTBITS {
      var w := ml[idx] - FIRSTBITS;
      var k := Val(Slice(s, FIRSTBITS, w));
      ValBound(Slice(s, FIRSTBITS, w));
      AddrInside(ml, idx, k);
      assert SubSlot(lens, tl, tv, |lens|, Addr(ml, idx, k), idx, k);
      i := tv[Addr(ml, idx, k)];
      MaxLenBound(lens, ml, i);
      LongMatch(lens, i, s, 0, w);
    } else {
      i := tv[idx];
      ShortMatch(lens, i, s, 0);
    }
  }

  /** An oversubscribed set cannot pass the conflict checks, although overlaps
      inside a second-level table are never looked for. */
  lemma OverSubscribedConflict(lens: Lengths, ml: seq<nat>, tl: seq<nat>, tv: seq<nat>)
    requires Filled(lens, ml, tl, tv, |lens|) && |lens| <= 288
    ensures Kraft(lens) <= Pow2(LONGEST)
  {
    if Kraft(lens) > Pow2(LONGEST) {
      var i, m := OverSubscribed(lens);
      var s: seq<bit> := Zeros(LONGEST);
      assert Slice(s, 0, lens[i]) == Zeros(lens[i]) && Slice(s, 0, lens[m]) == Zeros(lens[m]);
      var idx := Val(Slice(s, 0, FIRSTBITS));
      SlotBound(s, 0);
      ShortMatch(lens, i, s, 0);
      assert HeadSlot(lens, ml, tl, tv, |lens|, idx);
      if Short(lens, m) {
        ShortMatch(lens, m, s, 0);
      } else {
        LongHead(lens, m, s, 0);
        MaxLenBound(lens, ml, m);
      }
    }
  }

  lemma AcceptedIsValid(lens: Lengths, ml: seq<nat>, tl: seq<nat>, tv: seq<nat>)
    requires Filled(lens, ml, tl, tv, |lens|) && |lens| <= 288
    requires NumPresent(lens) >= 2 ==> NoHole(tl)
    ensures ValidTree(lens)
  {
    OverSubscribedConflict(lens, ml, tl, tv);
    if NumPresent(lens) >= 2 && Kraft(lens) < Pow2(LONGEST) {
      UnderSubscribed(lens);
      var i := NoHoleMatches(lens, ml, tl, tv, Ones(LONGEST));
    }
  }

  // ----- Decoding with the finished table

  /** Unused entries have become the invalid symbol, with a length that selects
      the right level. */
  ghost predicate Closed(tl0: seq<nat>, tv0: seq<nat>, tl: seq<nat>, tv: seq<nat>) {
    && |tl| == |tl0| && |tv| == |tv0| && |tl| == |tv|
    && forall a :: 0 <= a < |tl| ==>
         if tl0[a] == UNUSED then tl[a] == (if a < HEADSIZE then 1 else FIRSTBITS + 1) && tv[a] == INVALIDSYMBOL
         else tl[a] == tl0[a] && tv[a] == tv0[a]
  }

  /** The symbol whose code comes next, or INVALIDSYMBOL when there is none. */
  ghost function SymbolAt(lens: Lengths, s: seq<bit>, pos: nat): (n: nat)
    ensures n != INVALIDSYMBOL ==> n < |lens| && lens[n] > 0
  {
    if exists n: nat :: Matches(lens, n, s, pos) then
      var n: nat :| Matches(lens, n, s, pos); n
    else INVALIDSYMBOL
  }

  lemma SymbolAtUnique(lens: Lengths, s: seq<bit>, pos: nat, n: nat)
    requires ValidTree(lens) && Matches(lens, n, s, pos)
    ensures SymbolAt(lens, s, pos) == n
  {
    PrefixFree(lens, s, pos, n, SymbolAt(lens, s, pos));
  }

  /** First level: a length of at most nine bits ends the search. */
  lemma LookupShort(lens: Lengths, ml: seq<nat>, tl0: seq<nat>, tv0: seq<nat>, tl: seq<nat>, tv: seq<nat>,
      s: seq<bit>, pos: nat)
    requires Filled(lens, ml, tl0, tv0, |lens|) && Closed(tl0, tv0, tl, tv)
    requires ValidTree(lens) && |lens| <= 288
    ensures
      var idx := Val(Slice(s, pos, FIRSTBITS));
      && idx < HEADSIZE && HEADSIZE <= |tl| == |tv|
      && (tl[idx] <= FIRSTBITS ==>
           && tv[idx] == SymbolAt(lens, s, pos)
           && (tv[idx] != INVALIDSYMBOL ==> tv[idx] < |lens| && tl[idx] == lens[tv[idx]]))
  {
    var idx := Val(Slice(s, pos, FIRSTBITS));
    SlotBound(s, pos);
    assert HeadSlot(lens, ml, tl0, tv0, |lens|, idx);
    if tl[idx] <= FIRSTBITS {
      if tl0[idx] == UNUSED {
        forall n | Matches(lens, n, s, pos)
          ensures false
        {
          if Short(lens, n) {
            ShortMatch(lens, n, s, pos);
          } else {
            LongHead(lens, n, s, pos);
            MaxLenBound(lens, ml, n);
          }
        }
      } else {
        ShortMatch(lens, tv[idx], s, pos);
        SymbolAtUnique(lens, s, pos, tv[idx]);
      }
    }
  }

  lemma UnusedSubEntry(lens: Lengths, ml: seq<nat>, tl: seq<nat>, tv: seq<nat>, s: seq<bit>, pos: nat, n: nat, k: nat)
    requires Filled(lens, ml, tl, tv, |lens|) && Matches(lens, n, s, pos)
    requires var idx := Val(Slice(s, pos, FIRSTBITS));
             && idx < HEADSIZE && ml[idx] > FIRSTBITS
             && k == Val(Slice(s, pos + FIRSTBITS, ml[idx] - FIRSTBITS))
             && InSub(ml, idx, k) && Addr(ml, idx, k) < |tl|
    ensures tl[Addr(ml, Val(Slice(s, pos, FIRSTBITS)), k)] != UNUSED
  {
    var idx := Val(Slice(s, pos, FIRSTBITS));
    assert HeadSlot(lens, ml, tl, tv, |lens|, idx);
    if Short(lens, n) {
      ShortMatch(lens, n, s, pos);
    } else {
      LongHead(lens, n, s, pos);
      MaxLenBound(lens, ml, n);
      LongMatch(lens, n, s, pos, ml[idx] - FIRSTBITS);
    }
  }

  lemma SubEntry(lens: Lengths, ml: seq<nat>, tl: seq<nat>, tv: seq<nat>, s: seq<bit>, pos: nat) returns (a: nat)
    requires Filled(lens, ml, tl, tv, |lens|) && ValidTree(lens) && |lens| <= 288
    requires var idx := Val(Slice(s, pos, FIRSTBITS)); idx < HEADSIZE && ml[idx] > FIRSTBITS
    ensures
      var idx := Val(Slice(s, pos, FIRSTBITS));
      && ml[idx] <= LONGEST
      && a == Ptr(ml, idx) + Val(Slice(s, pos + FIRSTBITS, ml[idx] - FIRSTBITS))
      && HEADSIZE <= a < |tl|
    ensures tl[a] == UNUSED ==> SymbolAt(lens, s, pos) == INVALIDSYMBOL
    ensures tl[a] != UNUSED ==> tv[a] == SymbolAt(lens, s, pos) && tv[a] < |lens| && FIRSTBITS < tl[a] == lens[tv[a]]
  {
    hide Val, Slice, Ptr, CodeBits, Complete, ShortsEntered, LongsEntered;
    var idx := Val(Slice(s, pos, FIRSTBITS));
    assert IsMaxLen(lens, |lens|, idx, ml[idx]);
    var w := ml[idx] - FIRSTBITS;
    var k := Val(Slice(s, pos + FIRSTBITS, w));
    ValBound(Slice(s, pos + FIRSTBITS, w));
    AddrInside(ml, idx, k);
    a := Addr(ml, idx, k);
    if tl[a] == UNUSED {
      if n: nat :| Matches(lens, n, s, pos) {
        UnusedSubEntry(lens, ml, tl, tv, s, pos, n, k);
      }
    } else {
      assert SubSlot(lens, tl, tv, |lens|, a, idx, k);
      MaxLenBound(lens, ml, tv[a]);
      LongMatch(lens, tv[a], s, pos, w);
      SymbolAtUnique(lens, s, pos, tv[a]);
    }
  }

  /** Second level: the entry is found and settles the symbol. */
  lemma LookupLong(lens: Lengths, ml: seq<nat>, tl0: seq<nat>, tv0: seq<nat>, tl: seq<nat>, tv: seq<nat>,
      s: seq<bit>, pos: nat, idx: nat) returns (a: nat)
    requires Filled(lens, ml, tl0, tv0, |lens|) && Closed(tl0, tv0, tl, tv)
    requires ValidTree(lens) && |lens| <= 288
    requires idx == Val(Slice(s, pos, FIRSTBITS)) && idx < HEADSIZE
    requires tl[idx] > FIRSTBITS
    ensures tl[idx] <= LONGEST && a == tv[idx] + Val(Slice(s, pos + FIRSTBITS, tl[idx] - FIRSTBITS))
    ensures a < |tl| && FIRSTBITS < tl[a] <= LONGEST
    ensures tv[a] == SymbolAt(lens, s, pos)
    ensures tv[a] != INVALIDSYMBOL ==> tv[a] < |lens| && tl[a] == lens[tv[a]]
  {
    assert HeadSlot(lens, ml, tl0, tv0, |lens|, idx);
    assert IsMaxLen(lens, |lens|, idx, ml[idx]);
    assert ml[idx] > FIRSTBITS && tl0[idx] != UNUSED;
    a := SubEntry(lens, ml, tl0, tv0, s, pos);
  }
}
