/** Facts about the bits of the compressed format that the encoder needs: codes do
    not depend on absent symbols at the end, and bits are appended piece by piece. */
module DeflateBits {
  import opened Bits
  import opened CanonicalCode
  import opened DeflateFormat

  // ----- Absent symbols at the end

  lemma {:induction false} PadCount(lens: Lengths, m: nat, l: nat, n: nat)
    requires |lens| <= m && l > 0 && n <= m
    ensures Count(Pad(lens, m), l, n) == Count(lens, l, if n <= |lens| then n else |lens|)
  {
    if n > 0 {
      PadCount(lens, m, l, n - 1);
    }
  }

  lemma {:induction false} PadNextCode(lens: Lengths, m: nat, l: nat)
    requires |lens| <= m
    ensures NextCode(Pad(lens, m), l) == NextCode(lens, l)
  {
    if l > 1 {
      PadNextCode(lens, m, l - 1);
      PadCount(lens, m, l - 1, m);
    }
  }

  /** Zero lengths at the end leave the codes of all present symbols unchanged. */
  lemma PadKeepsCode(lens: Lengths, m: nat, s: nat)
    requires |lens| <= m && s < |lens| && lens[s] > 0
    ensures CodeBits(Pad(lens, m), s) == CodeBits(lens, s)
  {
    PadNextCode(lens, m, lens[s]);
    PadCount(lens, m, lens[s], s);
  }

  lemma {:induction false} PadWidthSum(lens: Lengths, m: nat, n: nat)
    requires |lens| <= m && n <= m
    ensures WidthSum(Pad(lens, m), LONGEST, n) == WidthSum(lens, LONGEST, if n <= |lens| then n else |lens|)
  {
    if n > 0 {
      PadWidthSum(lens, m, n - 1);
    }
  }

  lemma PadKeepsKraft(lens: Lengths, m: nat)
    requires |lens| <= m
    ensures Kraft(Pad(lens, m)) == Kraft(lens)
  {
    hide Kraft, WidthSum;
    KraftIsSum(lens);
    KraftIsSum(Pad(lens, m));
    PadWidthSum(lens, m, m);
  }

  // ----- One more token, one more run

  lemma {:induction false} TokensBitsAppend(ll: Lengths, d: Lengths, ts: seq<Token>, t: Token)
    requires AllCodable(ll, d, ts) && ValidToken(t) && Codable(ll, d, t)
    ensures AllCodable(ll, d, ts + [t])
    ensures TokensBits(ll, d, ts + [t]) == TokensBits(ll, d, ts) + TokenBits(ll, d, t)
  {
    hide TokenBits, Codable, ValidToken;
    if ts == [] {
      assert ([] + [t])[1..] == [];
    } else {
      TokensBitsAppend(ll, d, ts[1..], t);
      assert (ts + [t])[1..] == ts[1..] + [t];
    }
  }

  lemma {:induction false} RunsBitsAppend(cl: Lengths, rs: seq<Run>, r: Run)
    requires RunsCodable(cl, rs) && ValidRun(r) && cl[RunSymbol(r)] > 0
    ensures RunsCodable(cl, rs + [r]) && RunsBits(cl, rs + [r]) == RunsBits(cl, rs) + RunBits(cl, r)
  {
    hide RunBits, RunSymbol, ValidRun;
    if rs == [] {
      assert ([] + [r])[1..] == [];
    } else {
      RunsBitsAppend(cl, rs[1..], r);
      assert (rs + [r])[1..] == rs[1..] + [r];
    }
  }

  // ----- One more block

  ghost predicate AllBlocksValid(bs: seq<Block>) {
    forall i :: 0 <= i < |bs| ==> ValidBlock(bs[i])
  }

  /** The bits of blocks that are followed by others. */
  ghost function OpenBits(bs: seq<Block>, pos: nat): seq<bit>
    requires AllBlocksValid(bs)
    decreases |bs|
  {
    if bs == [] then []
    else var b := BlockBits(bs[0], false, pos); b + OpenBits(bs[1..], pos + |b|)
  }

  lemma {:induction false} OpenBitsAppend(bs: seq<Block>, b: Block, pos: nat)
    requires AllBlocksValid(bs) && ValidBlock(b)
    ensures AllBlocksValid(bs + [b])
    ensures OpenBits(bs + [b], pos) == OpenBits(bs, pos) + BlockBits(b, false, pos + |OpenBits(bs, pos)|)
    decreases |bs|
  {
    hide BlockBits, ValidBlock;
    if bs == [] {
      assert ([] + [b])[1..] == [];
    } else {
      var p := pos + |BlockBits(bs[0], false, pos)|;
      OpenBitsAppend(bs[1..], b, p);
      assert (bs + [b])[1..] == bs[1..] + [b];
      assert pos + |OpenBits(bs, pos)| == p + |OpenBits(bs[1..], p)|;
    }
  }

  lemma {:induction false} CloseStream(bs: seq<Block>, b: Block, pos: nat)
    requires AllBlocksValid(bs) && ValidBlock(b)
    ensures ValidStream(bs + [b])
    ensures StreamBits(bs + [b], pos) == OpenBits(bs, pos) + BlockBits(b, true, pos + |OpenBits(bs, pos)|)
    decreases |bs|
  {
    hide BlockBits, ValidBlock;
    if bs == [] {
      assert ([] + [b])[0] == b;
    } else {
      var p := pos + |BlockBits(bs[0], false, pos)|;
      CloseStream(bs[1..], b, p);
      assert (bs + [b])[1..] == bs[1..] + [b];
      assert pos + |OpenBits(bs, pos)| == p + |OpenBits(bs[1..], p)|;
    }
  }

  lemma {:induction false} ExpandStreamAppend(out: seq<byte>, bs: seq<Block>, b: Block)
    requires StreamExpandable(out, bs) && BlockExpandable(ExpandStream(out, bs), b)
    ensures StreamExpandable(out, bs + [b])
    ensures ExpandStream(out, bs + [b]) == ExpandBlock(ExpandStream(out, bs), b)
    decreases |bs|
  {
    hide BlockExpandable, ExpandBlock;
    if bs == [] {
      assert ([] + [b])[1..] == [];
      assert StreamExpandable(ExpandBlock(out, b), []);
    } else {
      ExpandStreamAppend(ExpandBlock(out, bs[0]), bs[1..], b);
      assert (bs + [b])[1..] == bs[1..] + [b];
    }
  }
}
