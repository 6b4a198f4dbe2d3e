/** The hash chains of the encoder: circular buffers over the last `w` positions of
    the data, one list of positions per hash value and one per length of a run of
    zeros. */
module HashChain {
  import opened Bits

  const MAXLENGTH: nat := 258
  const HASHVALUES: nat := 65536
  const NONE: int := -1

  // ----- Positions and slots

  /** The bytes from q on start with n zeros. */
  predicate ZerosFrom(data: seq<byte>, q: nat, n: nat) {
    q + n <= |data| && forall i :: q <= i < q + n ==> data[i] == 0
  }

  /** The slot of position p in a window of w positions. */
  function SlotOf(p: nat, w: nat): (s: nat)
    requires w > 0
    ensures s < w && (p < w ==> s == p)
  {
    p % w
  }

  /** The last of the positions 0 to n - 1 that belongs to slot s. */
  function Latest(s: nat, n: nat, w: nat): (q: nat)
    requires s < n && s < w
    ensures q < n && SlotOf(q, w) == s
    decreases n
  {
    if SlotOf(n - 1, w) == s then n - 1
    else
      assert n - 1 != s;
      Latest(s, n - 1, w)
  }

  /** The slot of a position less than w behind p. */
  lemma NearPositions(p: nat, d: nat, w: nat)
    requires 0 < d < w
    ensures SlotOf(p + d, w) != SlotOf(p, w)
    ensures SlotOf(p + d, w) == if SlotOf(p, w) + d < w then SlotOf(p, w) + d else SlotOf(p, w) + d - w
  {
    hide Times;
    var q, r := p / w, p % w;
    DivTimes(p, w);
    if r + d < w {
      TimesUnique(p + d, q, r + d, w);
    } else {
      TimesNext(q, w);
      TimesUnique(p + d, q + 1, r + d - w, w);
    }
  }

  lemma {:induction false} LatestIs(s: nat, n: nat, w: nat, q: nat)
    requires s < n && s < w && q < n <= q + w && SlotOf(q, w) == s
    ensures Latest(s, n, w) == q
    decreases n
  {
    hide SlotOf;
    if q < n - 1 {
      NearPositions(q, n - 1 - q, w);
      LatestIs(s, n - 1, w, q);
    }
  }

  /** How far back the position in slot s is, seen from slot wpos. */
  function Offset(wpos: nat, s: nat, w: nat): (d: nat)
    requires wpos < w && s < w
    ensures d < w
  {
    if s <= wpos then wpos - s else wpos - s + w
  }

  lemma OffsetIsLatest(pos: nat, s: nat, w: nat)
    requires s < w && s <= pos
    ensures var d := Offset(SlotOf(pos, w), s, w); d <= pos && Latest(s, pos + 1, w) == pos - d
  {
    hide SlotOf, Latest;
    var d := Offset(SlotOf(pos, w), s, w);
    var q := pos - d;
    if d > 0 {
      NearPositions(q, d, w);
    }
    LatestIs(s, pos + 1, w, q);
  }

  /** In a window whose size is a power of two, masking gives the slot. */
  lemma SlotByMask(pos: nat, w: nat)
    requires w > 0 && BitAnd(w, w - 1) == 0
    ensures BitAnd(pos, w - 1) == SlotOf(pos, w)
  {
    var k := PowerOfTwoTest(w);
    AndMask(pos, k);
    LowIsMod(pos, k);
  }

  // ----- What the buffers promise after the positions 0 to n - 1

  predicate SlotUsed(s: int, w: nat, n: nat) {
    0 <= s < w && s < n
  }

  ghost predicate Heads(head: seq<int>, w: nat, n: nat) {
    forall h :: 0 <= h < |head| ==> head[h] == NONE || SlotUsed(head[h], w, n)
  }

  ghost predicate Links(chain: seq<int>, w: nat, n: nat) {
    |chain| == w && forall s :: 0 <= s < w ==> chain[s] == s || SlotUsed(chain[s], w, n)
  }

  /** The zeros of a slot never exceed the run of zeros at its latest position. */
  ghost predicate Streaks(zeros: seq<int>, data: seq<byte>, w: nat, n: nat) {
    |zeros| == w && forall s :: 0 <= s < w && s < n ==> StreakOk(zeros[s], data, s, w, n)
  }

  ghost predicate StreakOk(z: int, data: seq<byte>, s: nat, w: nat, n: nat)
    requires s < n && s < w
  {
    0 <= z <= MAXLENGTH && ZerosFrom(data, Latest(s, n, w), z)
  }

  lemma LinksNext(chain: seq<int>, w: nat, n: nat, n': nat, s: nat, c: int)
    requires Links(chain, w, n) && n <= n' && s < w && (c == chain[s] || SlotUsed(c, w, n))
    ensures Links(chain[s := c], w, n')
  {
  }

  lemma HeadsNext(head: seq<int>, w: nat, n: nat, n': nat, h: nat, c: int)
    requires Heads(head, w, n) && n <= n' && h < |head| && (c == NONE || SlotUsed(c, w, n'))
    ensures Heads(head[h := c], w, n')
  {
  }

  lemma StreaksNext(zeros: seq<int>, data: seq<byte>, w: nat, n: nat, pos: nat, z: nat)
    requires Streaks(zeros, data, w, n) && w > 0 && (n == pos || n == pos + 1)
    requires z <= MAXLENGTH && ZerosFrom(data, pos, z)
    ensures Streaks(zeros[SlotOf(pos, w) := z], data, w, pos + 1)
  {
    var zeros' := zeros[SlotOf(pos, w) := z];
    forall s | 0 <= s < w && s < pos + 1
      ensures StreakOk(zeros'[s], data, s, w, pos + 1)
    {
      if s != SlotOf(pos, w) {
        assert StreakOk(zeros[s], data, s, w, n);
        assert Latest(s, pos + 1, w) == Latest(s, n, w);
      }
    }
  }

  // ----- Hash values and runs of zeros

  /** Exclusive or of up to three bytes, cut to 16 bits. */
  method GetHash(data: seq<byte>, size: nat, pos: nat) returns (result: nat)
    requires size <= |data|
    ensures result < HASHVALUES
  {
    result := 0;
    if pos + 2 < size {
      result := BitXor(result, data[pos]);
      result := BitXor(result, Shl(data[pos + 1], 4));
      result := BitXor(result, Shl(data[pos + 2], 8));
    } else {
      if pos >= size {
        return 0;
      }
      var amount := size - pos;
      for i := 0 to amount {
        result := BitXor(result, Shl(data[pos + i], i * 8));
      }
    }
    HashMask(result);
    result := BitAnd(result, HASHVALUES - 1);
  }

  lemma HashMask(v: nat)
    ensures BitAnd(v, HASHVALUES - 1) < HASHVALUES
  {
    Pow2Values();
    AndMask(v, 16);
    LowBound(v, 16);
  }

  /** The run of zeros from pos on, counted up to the longest length of a match. */
  method CountZeros(data: seq<byte>, size: nat, pos: nat) returns (n: nat)
    requires pos <= size <= |data|
    ensures n <= MAXLENGTH && pos + n <= size && ZerosFrom(data, pos, n)
    ensures n == MAXLENGTH || pos + n == size || data[pos + n] != 0
  {
    var end := if pos + MAXLENGTH > size then size else pos + MAXLENGTH;
    n := 0;
    while pos + n != end && data[pos + n] == 0
      invariant pos + n <= end && ZerosFrom(data, pos, n)
    {
      n := n + 1;
    }
  }

  /** The run of zeros at pos that the encoder works with, from the one at the
      position entered last: `last` is pos - 1, or pos when it is entered again. */
  ghost predicate RunOk(data: seq<byte>, size: nat, pos: int, n: nat) {
    n == 0 || (0 <= pos && n <= MAXLENGTH && pos + n <= size <= |data| && ZerosFrom(data, pos, n))
  }

  method NextZeros(data: seq<byte>, size: nat, pos: nat, hashval: nat, ghost last: int, numzeros: nat) returns (n: nat)
    requires pos < size <= |data| && (last == pos - 1 || last == pos) && RunOk(data, size, last, numzeros)
    ensures RunOk(data, size, pos, n)
  {
    n := numzeros;
    if hashval == 0 {
      if n == 0 {
        n := CountZeros(data, size, pos);
      } else if pos + n > size || data[pos + n - 1] != 0 {
        n := n - 1;
      }
    } else {
      n := 0;
    }
  }

  class Hash {
    const w: nat
    const head: array<int>     // hash value to slot
    const chain: array<int>    // slot to previous slot
    const val: array<int>      // slot to hash value
    const headz: array<int>    // length of a run of zeros to slot
    const chainz: array<int>   // slot to previous slot with as many zeros
    const zeros: array<int>    // slot to length of its run of zeros
    ghost var written: nat     // positions 0 to written - 1 have been entered

    ghost predicate Shape()
    {
      && head.Length == HASHVALUES && headz.Length == MAXLENGTH + 1
      && chain.Length == val.Length == chainz.Length == zeros.Length == w
      && head != chain && head != val && head != headz && head != chainz && head != zeros
      && chain != val && chain != headz && chain != chainz && chain != zeros
      && val != headz && val != chainz && val != zeros
      && headz != chainz && headz != zeros && chainz != zeros
    }

    ghost predicate Valid(data: seq<byte>)
      reads this, head, chain, headz, chainz, zeros
    {
      && Shape() && written <= |data|
      && Heads(head[..], w, written) && Links(chain[..], w, written)
      && Heads(headz[..], w, written) && Links(chainz[..], w, written)
      && Streaks(zeros[..], data, w, written)
    }

    ghost function Buffers(): set<object>
    {
      {head, chain, val, headz, chainz, zeros}
    }

    constructor (windowsize: nat)
      ensures forall data :: Valid(data)
      ensures w == windowsize && written == 0
      ensures fresh(head) && fresh(chain) && fresh(val) && fresh(headz) && fresh(chainz) && fresh(zeros)
    {
      w := windowsize;
      head := new int[HASHVALUES](_ => NONE);
      val := new int[windowsize](_ => NONE);
      chain := new int[windowsize](i => i);
      headz := new int[MAXLENGTH + 1](_ => NONE);
      chainz := new int[windowsize](i => i);
      zeros := new int[windowsize](_ => 0);
      written := 0;
    }

    /** Enters position pos, the next one or the last one again. */
    method Update(data: seq<byte>, pos: nat, wpos: nat, hashval: nat, numzeros: nat)
      requires Valid(data) && w > 0 && wpos == SlotOf(pos, w) && pos < |data|
      requires written == pos || written == pos + 1
      requires hashval < HASHVALUES && numzeros <= MAXLENGTH && ZerosFrom(data, pos, numzeros)
      modifies this`written, head, chain, val, headz, chainz, zeros
      ensures Valid(data) && written == pos + 1
      ensures val[..] == old(val[..])[wpos := hashval] && zeros[..] == old(zeros[..])[wpos := numzeros]
      ensures head[..] == old(head[..])[hashval := wpos] && headz[..] == old(headz[..])[numzeros := wpos]
      ensures chain[..] == old(if head[hashval] != NONE then chain[..][wpos := head[hashval]] else chain[..])
      ensures chainz[..] == old(if headz[numzeros] != NONE then chainz[..][wpos := headz[numzeros]] else chainz[..])
    {
      hide Heads, Links, Streaks;
      assert wpos < w;
      ghost var h0, c0, hz0, cz0, z0 := head[..], chain[..], headz[..], chainz[..], zeros[..];
      HeadFact(h0, w, written, hashval);
      HeadFact(hz0, w, written, numzeros);
      SlotOfPosition(pos, w);
      val[wpos] := hashval;
      if head[hashval] != NONE {
        chain[wpos] := head[hashval];
      }
      head[hashval] := wpos;
      zeros[wpos] := numzeros;
      if headz[numzeros] != NONE {
        chainz[wpos] := headz[numzeros];
      }
      headz[numzeros] := wpos;
      assert head[..] == h0[hashval := wpos] && headz[..] == hz0[numzeros := wpos];
      assert chain[..] == c0[wpos := chain[wpos]] && chainz[..] == cz0[wpos := chainz[wpos]];
      assert zeros[..] == z0[wpos := numzeros];
      HeadsNext(h0, w, written, pos + 1, hashval, wpos);
      HeadsNext(hz0, w, written, pos + 1, numzeros, wpos);
      LinksNext(c0, w, written, pos + 1, wpos, chain[wpos]);
      LinksNext(cz0, w, written, pos + 1, wpos, chainz[wpos]);
      StreaksNext(z0, data, w, written, pos, numzeros);
      written := pos + 1;
    }

    /** Before the last position is entered again, its lists must not point to it. */
    method Forget(ghost data: seq<byte>, hashval: nat, numzeros: nat)
      requires Valid(data) && hashval < HASHVALUES && numzeros <= MAXLENGTH
      modifies head, headz
      ensures Valid(data) && head[..] == old(head[..])[hashval := NONE] && headz[..] == old(headz[..])[numzeros := NONE]
    {
      hide Heads, Links, Streaks;
      ghost var h0, hz0 := head[..], headz[..];
      head[hashval] := NONE;
      headz[numzeros] := NONE;
      assert head[..] == h0[hashval := NONE] && headz[..] == hz0[numzeros := NONE];
      HeadsNext(h0, w, written, written, hashval, NONE);
      HeadsNext(hz0, w, written, written, numzeros, NONE);
    }
  }

  lemma HeadFact(head: seq<int>, w: nat, n: nat, h: nat)
    requires Heads(head, w, n) && h < |head|
    ensures head[h] == NONE || SlotUsed(head[h], w, n)
  {
  }

  lemma SlotOfPosition(pos: nat, w: nat)
    requires w > 0
    ensures SlotUsed(SlotOf(pos, w), w, pos + 1)
  {
  }
}
