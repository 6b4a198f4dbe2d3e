/** Lz77 encoding with hash chains and lazy matching. */
module Lz77 {
  import opened Bits
  import opened DeflateFormat
  import opened HashChain

  // ----- Matches

  predicate SameBack(data: seq<byte>, i: nat, d: nat) {
    d <= i < |data| && data[i] == data[i - d]
  }

  /** From pos on, n bytes repeat those d places back. */
  predicate Repeats(data: seq<byte>, pos: nat, d: nat, n: nat) {
    forall i :: pos <= i < pos + n ==> SameBack(data, i, d)
  }

  /** Copying back from where the data repeats gives the data. */
  lemma {:induction false} CopyRepeats(data: seq<byte>, pos: nat, d: nat, n: nat)
    requires 0 < d <= pos && pos + n <= |data| && Repeats(data, pos, d, n)
    ensures CopyBack(data[..pos], d, n) == data[..pos + n]
    decreases n
  {
    if n > 0 {
      assert SameBack(data, pos, d);
      assert data[..pos] + [data[..pos][pos - d]] == data[..pos + 1];
      CopyRepeats(data, pos + 1, d, n - 1);
    }
  }

  /** Both stretches start with zeros, so they agree on the shorter one of them. */
  lemma ZerosRepeat(data: seq<byte>, pos: nat, d: nat, z: nat, numzeros: nat)
    requires d <= pos && ZerosFrom(data, pos - d, z) && ZerosFrom(data, pos, numzeros)
    ensures Repeats(data, pos, d, if z > numzeros then numzeros else z)
  {
    var n := if z > numzeros then numzeros else z;
    forall i | pos <= i < pos + n
      ensures SameBack(data, i, d)
    {
      assert data[i] == 0 && data[i - d] == 0;
    }
  }

  /** A match the inflater can carry out: not before the start of the data, within
      the window and at most 258 bytes long. */
  ghost predicate MatchOk(data: seq<byte>, size: nat, w: nat, pos: nat, length: nat, offset: nat) {
    length > 0 ==>
      0 < offset <= pos && offset < w && length <= MAXLENGTH && pos + length <= size <= |data|
      && Repeats(data, pos, offset, length)
  }

  method CompareBack(data: seq<byte>, pos: nat, offset: nat, limit: nat, skip: nat) returns (length: nat)
    requires offset <= pos && pos + skip <= limit <= |data| && Repeats(data, pos, offset, skip)
    ensures skip <= length && pos + length <= limit && Repeats(data, pos, offset, length)
    ensures pos + length == limit || data[pos + length] != data[pos + length - offset]
  {
    length := skip;
    while pos + length != limit && data[pos + length] == data[pos + length - offset]
      invariant skip <= length && pos + length <= limit && Repeats(data, pos, offset, length)
    {
      length := length + 1;
    }
  }

  lemma ChainFact(chain: seq<int>, w: nat, n: nat, s: nat)
    requires Links(chain, w, n) && SlotUsed(s, w, n)
    ensures SlotUsed(chain[s], w, n)
  {
  }

  lemma StreakFact(zeros: seq<int>, data: seq<byte>, w: nat, pos: nat, s: nat)
    requires Streaks(zeros, data, w, pos + 1) && SlotUsed(s, w, pos + 1)
    ensures
      var d := Offset(SlotOf(pos, w), s, w);
      d <= pos && 0 <= zeros[s] && ZerosFrom(data, pos - d, zeros[s])
  {
    hide Latest, SlotOf, ZerosFrom;
    OffsetIsLatest(pos, s, w);
    assert StreakOk(zeros[s], data, s, w, pos + 1);
  }

  // ----- The search

  /** From pos on, exactly n bytes agree with those d places back, or all up to the limit. */
  predicate Agree(data: seq<byte>, pos: nat, d: nat, limit: nat, n: nat) {
    && 0 < d <= pos && pos + n <= limit <= |data| && Repeats(data, pos, d, n)
    && (pos + n == limit || data[pos + n] != data[pos + n - d])
  }

  lemma AgreeUnique(data: seq<byte>, pos: nat, d: nat, limit: nat, n: nat, m: nat)
    requires Agree(data, pos, d, limit, n) && Agree(data, pos, d, limit, m)
    ensures n == m
  {
    assert n < m ==> SameBack(data, pos + n, d);
    assert m < n ==> SameBack(data, pos + m, d);
  }

  /** The match is a longest one among the positions looked at. */
  ghost predicate Longest(data: seq<byte>, pos: nat, w: nat, limit: nat, seen: seq<int>, length: nat, offset: nat)
    requires w > 0
  {
    && (forall i, n: nat {:trigger Agree(data, pos, OffsetOf(pos, seen[i], w), limit, n)} ::
          0 <= i < |seen| && Agree(data, pos, OffsetOf(pos, seen[i], w), limit, n) ==> n <= length)
    && (length > 0 ==> Agree(data, pos, offset, limit, length) && exists i :: 0 <= i < |seen| && OffsetOf(pos, seen[i], w) == offset)
  }

  /** How far back a slot is. */
  function OffsetOf(pos: nat, s: int, w: nat): nat
    requires w > 0
  {
    if 0 <= s < w then Offset(SlotOf(pos, w), s, w) else 0
  }

  /** Where the search goes after slot s: once the match found is longer than the run of
      zeros at its start, only positions with as long a run can be better. */
  function NextSlot(chain: seq<int>, chainz: seq<int>, numzeros: nat, length: nat, s: int): int
    requires 0 <= s < |chain| == |chainz|
  {
    if numzeros >= 3 && length > numzeros then chainz[s] else chain[s]
  }

  /** The slots looked at follow one another on the chains. */
  ghost predicate OnChains(chain: seq<int>, chainz: seq<int>, start: int, seen: seq<int>)
    requires |chain| == |chainz|
  {
    && (forall i :: 0 <= i < |seen| ==> 0 <= seen[i] < |chain|)
    && (seen != [] ==> seen[0] == start)
    && forall i :: 0 < i < |seen| ==> seen[i] == chain[seen[i - 1]] || seen[i] == chainz[seen[i - 1]]
  }

  /** The only reasons to stop: enough positions, a nice match, the end of a chain, an
      entry that is out of date, or once round the window. */
  ghost predicate SearchOver(chain: seq<int>, chainz: seq<int>, zeros: seq<int>, val: seq<int>, pos: nat, w: nat, seen: seq<int>,
                             length: nat, hashval: nat, numzeros: nat, maxchainlength: nat, nicematch: nat)
    requires |chain| == |chainz| == |zeros| == |val| == w > 0 && forall i :: 0 <= i < |seen| ==> 0 <= seen[i] < w
  {
    || |seen| == maxchainlength
    || (seen != [] &&
        var s := seen[|seen| - 1];
        var next := NextSlot(chain, chainz, numzeros, length, s);
        || length >= nicematch
        || chain[s] == s
        || OffsetOf(pos, next, w) < OffsetOf(pos, s, w)
        || (0 <= next < w && if numzeros >= 3 && length > numzeros then zeros[next] != numzeros else val[next] != hashval))
  }

  lemma SawOne(data: seq<byte>, pos: nat, w: nat, limit: nat, seen: seq<int>, length: nat, offset: nat, s: int, n: nat)
    requires w > 0 && Longest(data, pos, w, limit, seen, length, offset) && 0 <= s < w
    requires OffsetOf(pos, s, w) > 0 ==> Agree(data, pos, OffsetOf(pos, s, w), limit, n)
    ensures
      var found := OffsetOf(pos, s, w) > 0 && n > length;
      Longest(data, pos, w, limit, seen + [s], if found then n else length, if found then OffsetOf(pos, s, w) else offset)
  {
    hide Repeats, SlotOf;
    var d := OffsetOf(pos, s, w);
    var found := d > 0 && n > length;
    var seen' := seen + [s];
    forall i, m: nat | 0 <= i < |seen'| && Agree(data, pos, OffsetOf(pos, seen'[i], w), limit, m)
      ensures m <= if found then n else length
    {
      if i == |seen| {
        AgreeUnique(data, pos, d, limit, n, m);
      } else {
        assert seen'[i] == seen[i];
      }
    }
    if found {
      assert seen'[|seen|] == s;
    } else if length > 0 {
      var i :| 0 <= i < |seen| && OffsetOf(pos, seen[i], w) == offset;
      assert seen'[i] == seen[i];
    }
  }

  lemma OnChainsNext(chain: seq<int>, chainz: seq<int>, start: int, seen: seq<int>, s: int)
    requires |chain| == |chainz| && OnChains(chain, chainz, start, seen) && 0 <= s < |chain|
    requires if seen == [] then s == start else s == chain[seen[|seen| - 1]] || s == chainz[seen[|seen| - 1]]
    ensures OnChains(chain, chainz, start, seen + [s])
  {
  }

  /** How far the data agrees with what lies currentOffset back.  Zeros that both are
      known to start with are not compared again. */
  method MatchLength(hash: Hash, data: seq<byte>, size: nat, pos: nat, hashpos: nat, currentOffset: nat, numzeros: nat, limit: nat)
    returns (length: nat)
    requires hash.Valid(data) && hash.written == pos + 1 && hash.w > 0 && SlotUsed(hashpos, hash.w, pos + 1)
    requires currentOffset == OffsetOf(pos, hashpos, hash.w) > 0 && pos < size <= |data|
    requires limit == (if size < pos + MAXLENGTH then size else pos + MAXLENGTH) && RunOk(data, size, pos, numzeros)
    ensures Agree(data, pos, currentOffset, limit, length)
  {
    hide Heads, Links, Streaks, Latest, SlotOf, Repeats, ZerosFrom;
    StreakFact(hash.zeros[..], data, hash.w, pos, hashpos);
    var skip := 0;
    if numzeros >= 3 {
      skip := hash.zeros[hashpos];
      if skip > numzeros {
        skip := numzeros;
      }
      ZerosRepeat(data, pos, currentOffset, hash.zeros[hashpos], numzeros);
    } else {
      NothingRepeats(data, pos, currentOffset);
    }
    length := CompareBack(data, pos, currentOffset, limit, skip);
  }

  /** The search so far: slot hashpos is the next to look at. */
  ghost predicate Searching(data: seq<byte>, pos: nat, w: nat, limit: nat, chain: seq<int>, chainz: seq<int>, start: int, seen: seq<int>,
                            length: nat, offset: nat, numzeros: nat, hashpos: int, prevOffset: nat)
    requires w > 0 && |chain| == |chainz| == w
  {
    && OnChains(chain, chainz, start, seen) && Longest(data, pos, w, limit, seen, length, offset) && 0 <= hashpos < w
    && (if seen == [] then hashpos == start && prevOffset == 0
        else prevOffset == OffsetOf(pos, seen[|seen| - 1], w) && hashpos == NextSlot(chain, chainz, numzeros, length, seen[|seen| - 1]))
  }

  lemma Look(data: seq<byte>, pos: nat, w: nat, limit: nat, chain: seq<int>, chainz: seq<int>, start: int, seen: seq<int>,
             length: nat, offset: nat, numzeros: nat, hashpos: int, prevOffset: nat, n: nat)
    requires w > 0 && |chain| == |chainz| == w
    requires Searching(data, pos, w, limit, chain, chainz, start, seen, length, offset, numzeros, hashpos, prevOffset)
    requires OffsetOf(pos, hashpos, w) > 0 ==> Agree(data, pos, OffsetOf(pos, hashpos, w), limit, n)
    ensures
      var found := OffsetOf(pos, hashpos, w) > 0 && n > length;
      && OnChains(chain, chainz, start, seen + [hashpos])
      && Longest(data, pos, w, limit, seen + [hashpos], if found then n else length, if found then OffsetOf(pos, hashpos, w) else offset)
  {
    hide OnChains, Longest, Agree;
    SawOne(data, pos, w, limit, seen, length, offset, hashpos, n);
    SeenInside(chain, chainz, start, seen);
    OnChainsNext(chain, chainz, start, seen, hashpos);
  }

  lemma MatchFound(data: seq<byte>, size: nat, w: nat, pos: nat, limit: nat, length: nat, offset: nat)
    requires Agree(data, pos, offset, limit, length) && offset < w && limit <= size && limit <= pos + MAXLENGTH && size <= |data|
    ensures MatchOk(data, size, w, pos, length, offset)
  {
    hide Repeats;
  }

  /** Follows the hash chain of position pos and takes the longest match; `seen` are the
      slots looked at. */
  method LongestMatch(hash: Hash, data: seq<byte>, size: nat, pos: nat, hashval: nat, numzeros: nat,
                      maxchainlength: nat, nicematch: nat)
    returns (length: nat, offset: nat, ghost seen: seq<int>)
    requires hash.Valid(data) && hash.written == pos + 1 && pos < size <= |data|
    requires hash.w > 0 && BitAnd(hash.w, hash.w - 1) == 0
    requires RunOk(data, size, pos, numzeros)
    ensures MatchOk(data, size, hash.w, pos, length, offset)
    ensures OnChains(hash.chain[..], hash.chainz[..], hash.chain[SlotOf(pos, hash.w)], seen)
    ensures Longest(data, pos, hash.w, if size < pos + MAXLENGTH then size else pos + MAXLENGTH, seen, length, offset)
    ensures SearchOver(hash.chain[..], hash.chainz[..], hash.zeros[..], hash.val[..], pos, hash.w, seen,
                       length, hashval, numzeros, maxchainlength, nicematch)
  {
    hide Heads, Links, Streaks, Latest, SlotOf, ZerosFrom, BitAnd, OnChains, Longest, Agree, MatchOk;
    var w := hash.w;
    SlotByMask(pos, w);
    SlotOfPosition(pos, w);
    var wpos := BitAnd(pos, w - 1);
    length, offset, seen := 0, 0, [];
    ghost var chain, chainz := hash.chain[..], hash.chainz[..];
    ChainFact(chain, w, pos + 1, wpos);
    var hashpos := hash.chain[wpos];
    ghost var start := hashpos;
    var limit := if size < pos + MAXLENGTH then size else pos + MAXLENGTH;
    NothingSeen(chain, chainz, start, data, pos, w, limit);
    NoMatch(data, size, w, pos);
    var prevOffset, chainlength := 0, 0;
    while chainlength < maxchainlength
      invariant SlotUsed(hashpos, w, pos + 1) && chainlength == |seen| <= maxchainlength
      invariant MatchOk(data, size, w, pos, length, offset)
      invariant Searching(data, pos, w, limit, chain, chainz, start, seen, length, offset, numzeros, hashpos, prevOffset)
    {
      chainlength := chainlength + 1;
      var currentOffset := if hashpos <= wpos then wpos - hashpos else wpos - hashpos + w;
      SeenInside(chain, chainz, start, seen);
      if currentOffset < prevOffset {
        break;
      }
      ghost var seen0, length0, offset0, prev0 := seen, length, offset, prevOffset;
      prevOffset := currentOffset;
      seen := seen + [hashpos];
      if currentOffset > 0 {
        var currentLength := MatchLength(hash, data, size, pos, hashpos, currentOffset, numzeros, limit);
        Look(data, pos, w, limit, chain, chainz, start, seen0, length0, offset0, numzeros, hashpos, prev0, currentLength);
        if currentLength > length {
          length, offset := currentLength, currentOffset;
          MatchFound(data, size, w, pos, limit, length, offset);
          if currentLength >= nicematch {
            break;
          }
        }
      } else {
        Look(data, pos, w, limit, chain, chainz, start, seen0, length0, offset0, numzeros, hashpos, prev0, 0);
      }
      ChainFact(chain, w, pos + 1, hashpos);
      if hashpos == hash.chain[hashpos] {
        break;
      }
      if numzeros >= 3 && length > numzeros {
        ChainFact(chainz, w, pos + 1, hashpos);
        hashpos := hash.chainz[hashpos];
        if hash.zeros[hashpos] != numzeros {
          break;
        }
      } else {
        hashpos := hash.chain[hashpos];
        if hash.val[hashpos] != hashval {
          break;
        }
      }
    }
    SeenInside(chain, chainz, start, seen);
  }

  lemma NoMatch(data: seq<byte>, size: nat, w: nat, pos: nat)
    ensures MatchOk(data, size, w, pos, 0, 0)
  {
  }

  lemma SeenInside(chain: seq<int>, chainz: seq<int>, start: int, seen: seq<int>)
    requires |chain| == |chainz| && OnChains(chain, chainz, start, seen)
    ensures forall i :: 0 <= i < |seen| ==> 0 <= seen[i] < |chain|
  {
  }

  lemma NothingSeen(chain: seq<int>, chainz: seq<int>, start: int, data: seq<byte>, pos: nat, w: nat, limit: nat)
    requires |chain| == |chainz| && w > 0
    ensures OnChains(chain, chainz, start, []) && Longest(data, pos, w, limit, [], 0, 0)
  {
  }

  lemma NothingRepeats(data: seq<byte>, pos: nat, d: nat)
    ensures Repeats(data, pos, d, 0)
  {
  }

  // ----- Symbols of a match

  predicate Increasing(a: seq<nat>) {
    forall i, j :: 0 <= i < j < |a| ==> a[i] < a[j]
  }

  /** Binary search for the last entry that does not exceed the value; 0 if all do. */
  method SearchCodeIndex(a: seq<nat>, value: nat) returns (index: nat)
    requires a != [] && Increasing(a)
    ensures index < |a|
    ensures value >= a[0] ==> a[index] <= value && (index + 1 < |a| ==> value < a[index + 1])
    ensures value < a[0] ==> index == 0
  {
    var left, right := 1, |a| - 1;
    while left <= right
      invariant 1 <= left <= right + 1 <= |a|
      invariant forall i :: 1 <= i < left ==> a[i] < value
      invariant forall i :: right < i < |a| ==> a[i] >= value
    {
      var mid := (left + right) / 2;
      if a[mid] >= value {
        right := mid - 1;
      } else {
        left := mid + 1;
      }
    }
    if left >= |a| || a[left] > value {
      left := left - 1;
    }
    index := left;
  }

  /** The extra bits of a code reach up to the base value of the next code. */
  lemma LengthGap(c: nat)
    requires c + 1 < NUMLENGTHCODES
    ensures LengthBase(c) < LengthBase(c + 1) <= LengthBase(c) + Pow2(LengthExtra(c))
  {
    assert Pow2(1) == 2 && Pow2(2) == 4 && Pow2(3) == 8 && Pow2(4) == 16 && Pow2(5) == 32;
  }

  lemma DistanceGap(c: nat)
    requires c + 1 < NUMDISTANCECODES
    ensures DistanceBase(c) < DistanceBase(c + 1) <= DistanceBase(c) + Pow2(DistanceExtra(c))
  {
    assert Pow2(1) == 2 && Pow2(2) == 4 && Pow2(3) == 8 && Pow2(4) == 16 && Pow2(5) == 32;
    assert Pow2(6) == 64 && Pow2(7) == 128 && Pow2(8) == 256 && Pow2(9) == 512;
    assert Pow2(10) == 2 * Pow2(9) && Pow2(11) == 2 * Pow2(10) && Pow2(12) == 2 * Pow2(11) && Pow2(13) == 2 * Pow2(12);
  }

  lemma {:induction false} LengthsAscend(i: nat, j: nat)
    requires i < j < NUMLENGTHCODES
    ensures LengthBase(i) < LengthBase(j)
    decreases j
  {
    hide LengthBase;
    LengthGap(j - 1);
    if i < j - 1 {
      LengthsAscend(i, j - 1);
    }
  }

  lemma {:induction false} DistancesAscend(i: nat, j: nat)
    requires i < j < NUMDISTANCECODES
    ensures DistanceBase(i) < DistanceBase(j)
    decreases j
  {
    hide DistanceBase;
    DistanceGap(j - 1);
    if i < j - 1 {
      DistancesAscend(i, j - 1);
    }
  }

  lemma TablesAscend()
    ensures |LENGTHBASE| == NUMLENGTHCODES && Increasing(LENGTHBASE)
    ensures |DISTANCEBASE| == NUMDISTANCECODES && Increasing(DISTANCEBASE)
  {
    forall i, j | 0 <= i < j < NUMLENGTHCODES
      ensures LENGTHBASE[i] < LENGTHBASE[j]
    {
      LengthsAscend(i, j);
      assert LENGTHBASE[i] == LengthBase(i) && LENGTHBASE[j] == LengthBase(j);
    }
    forall i, j | 0 <= i < j < NUMDISTANCECODES
      ensures DISTANCEBASE[i] < DISTANCEBASE[j]
    {
      DistancesAscend(i, j);
      assert DISTANCEBASE[i] == DistanceBase(i) && DISTANCEBASE[j] == DistanceBase(j);
    }
  }

  /** The integers that stand for the tokens in the vector the encoder fills. */
  function Symbols(t: Token): (v: seq<nat>) {
    match t
    case Literal(b) => [b]
    case Match(lcode, lextra, dcode, dextra) => [FIRSTLENGTHCODE + lcode, lextra, dcode, dextra]
  }

  function AllSymbols(ts: seq<Token>): (v: seq<nat>) {
    if ts == [] then [] else AllSymbols(ts[..|ts| - 1]) + Symbols(ts[|ts| - 1])
  }

  method LengthDistance(length: nat, distance: nat) returns (lcode: nat, lextra: nat, dcode: nat, dextra: nat)
    requires 3 <= length <= MAXLENGTH && 1 <= distance <= 32768
    ensures
      var t := Match(lcode, lextra, dcode, dextra);
      ValidToken(t) && !OddLength(t) && Length(t) == length && Distance(t) == distance
  {
    hide Increasing;
    TablesAscend();
    lcode := SearchCodeIndex(LENGTHBASE, length);
    dcode := SearchCodeIndex(DISTANCEBASE, distance);
    LengthCode(lcode, length);
    DistanceCode(dcode, distance);
    lextra := length - LENGTHBASE[lcode];
    dextra := distance - DISTANCEBASE[dcode];
  }

  lemma LengthCode(c: nat, length: nat)
    requires |LENGTHBASE| == NUMLENGTHCODES && c < NUMLENGTHCODES && 3 <= length <= MAXLENGTH
    requires LENGTHBASE[0] <= length ==> LENGTHBASE[c] <= length && (c + 1 < NUMLENGTHCODES ==> length < LENGTHBASE[c + 1])
    ensures LENGTHBASE[c] == LengthBase(c) <= length < LengthBase(c) + Pow2(LengthExtra(c))
    ensures c == 27 ==> length - LengthBase(c) < 31
  {
    assert LENGTHBASE[0] == 3 && LENGTHBASE[28] == 258;
    if c + 1 < NUMLENGTHCODES {
      LengthGap(c);
    }
  }

  lemma DistanceCode(c: nat, distance: nat)
    requires |DISTANCEBASE| == NUMDISTANCECODES && c < NUMDISTANCECODES && 1 <= distance <= 32768
    requires DISTANCEBASE[0] <= distance ==>
      DISTANCEBASE[c] <= distance && (c + 1 < NUMDISTANCECODES ==> distance < DISTANCEBASE[c + 1])
    ensures DISTANCEBASE[c] == DistanceBase(c) <= distance < DistanceBase(c) + Pow2(DistanceExtra(c))
  {
    assert DISTANCEBASE[0] == 1 && DISTANCEBASE[29] == 24577 && DISTANCEEXTRA[29] == 13;
    if c + 1 < NUMDISTANCECODES {
      DistanceGap(c);
    } else {
      assert Pow2(13) == 8192;
    }
  }

  // ----- The encoder

  /** Behind data[..inpos] the tokens decode to data[inpos..end]. */
  ghost predicate Encoded(data: seq<byte>, inpos: nat, ts: seq<Token>, end: nat) {
    && inpos <= end <= |data|
    && Expandable(data[..inpos], ts) && Expand(data[..inpos], ts) == data[..end]
    && NoOddLength(ts) && forall i :: 0 <= i < |ts| ==> ValidToken(ts[i])
  }

  lemma LiteralEncoded(data: seq<byte>, inpos: nat, ts: seq<Token>, end: nat)
    requires Encoded(data, inpos, ts, end) && end < |data|
    ensures Encoded(data, inpos, ts + [Literal(data[end])], end + 1)
  {
    ExpandAppend(data[..inpos], ts, Literal(data[end]));
    assert data[..end] + [data[end]] == data[..end + 1];
  }

  lemma MatchEncoded(data: seq<byte>, inpos: nat, ts: seq<Token>, end: nat, t: Token)
    requires Encoded(data, inpos, ts, end) && t.Match? && ValidToken(t) && !OddLength(t)
    requires Distance(t) <= end && end + Length(t) <= |data| && Repeats(data, end, Distance(t), Length(t))
    ensures Encoded(data, inpos, ts + [t], end + Length(t))
  {
    hide Repeats;
    ExpandAppend(data[..inpos], ts, t);
    CopyRepeats(data, end, Distance(t), Length(t));
  }

  lemma SymbolsAppend(ts: seq<Token>, t: Token)
    ensures AllSymbols(ts + [t]) == AllSymbols(ts) + Symbols(t)
  {
    assert (ts + [t])[..|ts|] == ts;
  }

  /** The vector holds tokens that decode to data[inpos..end]. */
  ghost predicate Emitted(data: seq<byte>, inpos: nat, ts: seq<Token>, values: seq<nat>, end: nat) {
    values == AllSymbols(ts) && Encoded(data, inpos, ts, end)
  }

  lemma EmitLiteral(data: seq<byte>, inpos: nat, ts: seq<Token>, values: seq<nat>, end: nat)
    requires Emitted(data, inpos, ts, values, end) && end < |data|
    ensures Emitted(data, inpos, ts + [Literal(data[end])], values + [data[end]], end + 1)
  {
    hide Encoded, AllSymbols;
    LiteralEncoded(data, inpos, ts, end);
    SymbolsAppend(ts, Literal(data[end]));
  }

  lemma EmitMatch(data: seq<byte>, inpos: nat, ts: seq<Token>, values: seq<nat>, end: nat, t: Token)
    requires Emitted(data, inpos, ts, values, end) && t.Match? && ValidToken(t) && !OddLength(t)
    requires Distance(t) <= end && end + Length(t) <= |data| && Repeats(data, end, Distance(t), Length(t))
    ensures Emitted(data, inpos, ts + [t], values + Symbols(t), end + Length(t))
  {
    hide Encoded, AllSymbols, Repeats;
    MatchEncoded(data, inpos, ts, end, t);
    SymbolsAppend(ts, t);
  }

  /** Matches reach back less than the window, are as long as was asked for, and the
      shortest ones are not far. */
  predicate Allowed(t: Token, w: nat, minmatch: nat) {
    t.Match? ==> ValidToken(t) && Length(t) >= 3 && Length(t) >= minmatch && Distance(t) < w && (Length(t) == 3 ==> Distance(t) <= 4096)
  }

  ghost predicate AllAllowed(ts: seq<Token>, w: nat, minmatch: nat) {
    forall i :: 0 <= i < |ts| ==> Allowed(ts[i], w, minmatch)
  }

  lemma OneMoreAllowed(ts: seq<Token>, t: Token, w: nat, minmatch: nat)
    requires AllAllowed(ts, w, minmatch) && Allowed(t, w, minmatch)
    ensures AllAllowed(ts + [t], w, minmatch)
  {
  }

  /** Appends a match as a pair, or the first byte of a match that is too short, or
      not worth its distance, as a literal. */
  method Emit(hash: Hash, data: seq<byte>, ghost inpos: nat, insize: nat, pos: nat, length: nat, offset: nat,
              minmatch: nat, numzeros: nat, values: seq<nat>, ghost ts: seq<Token>)
    returns (end: nat, n: nat, values': seq<nat>, ghost ts': seq<Token>)
    requires hash.Valid(data) && GoodWindow(hash.w) && hash.w <= 32768 && pos < insize <= |data|
    requires pos < hash.written <= pos + 2 && hash.written <= insize
    requires RunOk(data, insize, hash.written - 1, numzeros)
    requires MatchOk(data, insize, hash.w, pos, length, offset)
    requires Emitted(data, inpos, ts, values, pos) && AllAllowed(ts, hash.w, minmatch)
    modifies hash, hash.Buffers()
    ensures hash.Valid(data) && pos < end <= hash.written <= end + 1 && hash.written <= insize
    ensures RunOk(data, insize, hash.written - 1, n)
    ensures Emitted(data, inpos, ts', values', end) && AllAllowed(ts', hash.w, minmatch)
  {
    hide Emitted, RunOk, Repeats, BitAnd, Pow2, Heads, Links, Streaks, AllAllowed;
    if length < 3 || length < minmatch || (length == 3 && offset > 4096) {
      EmitLiteral(data, inpos, ts, values, pos);
      OneMoreAllowed(ts, Literal(data[pos]), hash.w, minmatch);
      return pos + 1, numzeros, values + [data[pos]], ts + [Literal(data[pos])];
    }
    assert offset <= hash.w;
    var lcode, lextra, dcode, dextra := LengthDistance(length, offset);
    ghost var t := Match(lcode, lextra, dcode, dextra);
    EmitMatch(data, inpos, ts, values, pos, t);
    OneMoreAllowed(ts, t, hash.w, minmatch);
    values', ts' := values + [FIRSTLENGTHCODE + lcode, lextra, dcode, dextra], ts + [t];
    n := EnterMatch(hash, data, insize, pos, length, numzeros);
    end := pos + length;
  }

  ghost predicate GoodWindow(w: nat) {
    w > 0 && BitAnd(w, w - 1) == 0
  }

  /** Enters position pos into the hash chains. */
  method Enter(hash: Hash, data: seq<byte>, size: nat, pos: nat, numzeros: nat) returns (hashval: nat, n: nat)
    requires hash.Valid(data) && GoodWindow(hash.w) && pos < size <= |data|
    requires hash.written == pos || hash.written == pos + 1
    requires RunOk(data, size, hash.written - 1, numzeros)
    modifies hash, hash.Buffers()
    ensures hash.Valid(data) && hash.written == pos + 1
    ensures hashval < HASHVALUES && n <= MAXLENGTH && RunOk(data, size, pos, n)
  {
    hide Heads, Links, Streaks, BitAnd;
    SlotByMask(pos, hash.w);
    var wpos := BitAnd(pos, hash.w - 1);
    hashval := GetHash(data, size, pos);
    n := NextZeros(data, size, pos, hashval, hash.written - 1, numzeros);
    hash.Update(data, pos, wpos, hashval, n);
  }

  /** Enters the positions behind the first one of a match. */
  method EnterMatch(hash: Hash, data: seq<byte>, size: nat, pos: nat, length: nat, numzeros: nat) returns (n: nat)
    requires hash.Valid(data) && GoodWindow(hash.w) && 3 <= length && pos + length <= size <= |data|
    requires hash.written == pos + 1 || hash.written == pos + 2
    requires RunOk(data, size, hash.written - 1, numzeros)
    modifies hash, hash.Buffers()
    ensures hash.Valid(data) && hash.written == pos + length
    ensures RunOk(data, size, hash.written - 1, n)
  {
    hide RunOk;
    n := numzeros;
    for i := 1 to length
      invariant hash.Valid(data)
      invariant hash.written == pos + i || (i <= 2 && hash.written == pos + i + 1) || (i <= 2 && hash.written == pos + 2)
      invariant RunOk(data, size, hash.written - 1, n)
    {
      var hashval;
      hashval, n := Enter(hash, data, size, pos + i, n);
    }
  }

  /** Encodes data[inpos..insize]; the positions before inpos are in the hash chains.
      Neither a lazy match at position 0 (error 81) nor an offset beyond the window
      (error 86) can occur. */
  method EncodeLZ77(hash: Hash, data: seq<byte>, inpos: nat, insize: nat, windowsize: nat,
                    minmatch: nat, nicematch: nat, lazymatching: bool)
    returns (error: nat, values: seq<nat>, ghost ts: seq<Token>)
    requires hash.Valid(data) && hash.w == windowsize && hash.written == inpos <= insize <= |data|
    modifies hash, hash.Buffers()
    ensures hash.Valid(data)
    ensures error ==
      if windowsize == 0 || windowsize > 32768 then 60 else if BitAnd(windowsize, windowsize - 1) != 0 then 90 else 0
    ensures error == 0 ==>
      hash.written == insize && Emitted(data, inpos, ts, values, insize) && AllAllowed(ts, windowsize, minmatch)
  {
    hide Emitted, RunOk, MatchOk, BitAnd, OnChains, Longest, SearchOver, AllAllowed;
    error, values, ts := 0, [], [];
    if windowsize == 0 || windowsize > 32768 {
      return 60, [], [];
    }
    if BitAnd(windowsize, windowsize - 1) != 0 {
      return 90, [], [];
    }
    var maxchainlength := if windowsize >= 8192 then windowsize else windowsize / 8;
    var maxlazymatch := if windowsize >= 8192 then MAXLENGTH else 64;
    var nice := if nicematch > MAXLENGTH then MAXLENGTH else nicematch;
    var numzeros, pos := 0, inpos;
    var lazy, lazylength: nat, lazyoffset: nat := false, 0, 0;
    NothingEncoded(data, inpos);
    NoneAllowed(windowsize, minmatch);
    NoZeros(data, insize, inpos - 1);
    while pos < insize
      invariant hash.Valid(data) && inpos <= pos <= insize
      invariant pos <= hash.written <= insize && hash.written <= pos + 1
      invariant RunOk(data, insize, hash.written - 1, numzeros)
      invariant lazy ==> lazymatching && pos > inpos && hash.written == pos && lazylength >= 3
      invariant lazy ==> MatchOk(data, insize, windowsize, pos - 1, lazylength, lazyoffset)
      invariant lazy ==> pos + 2 <= insize
      invariant Emitted(data, inpos, ts, values, if lazy then pos - 1 else pos) && AllAllowed(ts, windowsize, minmatch)
      decreases insize - pos + (if lazy then 1 else 0), if lazy then 0 else 1
    {
      var hashval;
      hashval, numzeros := Enter(hash, data, insize, pos, numzeros);
      var length, offset, _ := LongestMatch(hash, data, insize, pos, hashval, numzeros, maxchainlength, nice);
      if lazymatching {
        if !lazy && length >= 3 && length <= maxlazymatch && length < MAXLENGTH {
          lazy, lazylength, lazyoffset := true, length, offset;
          MatchFits(data, insize, windowsize, pos, length, offset);
          pos := pos + 1;
          continue;
        }
        if lazy {
          lazy := false;
          assert pos != 0;
          if length > lazylength + 1 {
            EmitLiteral(data, inpos, ts, values, pos - 1);
            OneMoreAllowed(ts, Literal(data[pos - 1]), windowsize, minmatch);
            values := values + [data[pos - 1]];
            ts := ts + [Literal(data[pos - 1])];
          } else {
            length, offset := lazylength, lazyoffset;
            hash.Forget(data, hashval, numzeros);
            pos := pos - 1;
          }
        }
      }
      pos, numzeros, values, ts := Emit(hash, data, inpos, insize, pos, length, offset, minmatch, numzeros, values, ts);
    }
  }

  lemma NoneAllowed(w: nat, minmatch: nat)
    ensures AllAllowed([], w, minmatch)
  {
  }

  lemma NothingEncoded(data: seq<byte>, inpos: nat)
    requires inpos <= |data|
    ensures Emitted(data, inpos, [], [], inpos)
  {
  }

  lemma NoZeros(data: seq<byte>, size: nat, pos: int)
    ensures RunOk(data, size, pos, 0)
  {
  }

  lemma MatchFits(data: seq<byte>, size: nat, w: nat, pos: nat, length: nat, offset: nat)
    requires MatchOk(data, size, w, pos, length, offset)
    ensures length > 0 ==> 0 < offset <= pos && offset < w && length <= MAXLENGTH && pos + length <= size <= |data|
    ensures length > 0 ==> Repeats(data, pos, offset, length)
  {
  }
}
