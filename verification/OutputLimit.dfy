/** What a limit on the output does: it cuts off with error 109 what grows too large, and
    nothing else. */
module OutputLimit {
  import opened Bits
  import opened CanonicalCode
  import opened DeflateFormat
  import opened InflateSpec

  /** The result u that there is without a limit becomes r. */
  predicate Capped(u: Result<seq<byte>>, r: Result<seq<byte>>, limit: nat) {
    if u.Failure? then r == u || r == Failure(109)
    else r == if TooLarge(u.value, limit) then Failure(109) else u
  }

  lemma {:induction false} TokensCapped(ll: Lengths, d: Lengths, s: seq<bit>, pos: nat, out: seq<byte>, limit: nat)
    requires pos <= |s| && !TooLarge(out, limit)
    ensures Capped(InflateTokens(ll, d, s, pos, out, 0), InflateTokens(ll, d, s, pos, out, limit), limit)
    decreases |s| - pos
  {
    hide ReadToken, Fits, Apply;
    var r := ReadToken(ll, d, s, pos);
    if r.Read? && Fits(out, r.t) && r.pos <= |s| && !TooLarge(Apply(out, r.t), limit) {
      TokensCapped(ll, d, s, r.pos, Apply(out, r.t), limit);
    }
  }

  lemma BlockCapped(data: seq<byte>, pos: nat, btype: nat, out: seq<byte>, settings: Settings)
    requires pos <= 8 * |data| && !TooLarge(out, settings.maxOutputSize)
    ensures Capped(InflateBlock(data, pos, btype, out, settings.(maxOutputSize := 0)),
                   InflateBlock(data, pos, btype, out, settings), settings.maxOutputSize)
  {
    hide BytesBits, InflateTokens, InflateStored, ReadTrees;
    var s, limit := BytesBits(data), settings.maxOutputSize;
    if btype == 1 {
      TokensCapped(FixedLL(), FixedD(), s, pos, out, limit);
    } else {
      match ReadTrees(s, pos)
      case Failure(_) =>
      case Success(p, trees) => TokensCapped(trees.ll, trees.d, s, p, out, limit);
    }
  }

  /** An output that is too large is refused with 109; one that is not comes out as it does
      without a limit; and a stream with an error has that error, or 109. */
  lemma {:induction false} LimitCutsOff(data: seq<byte>, pos: nat, out: seq<byte>, settings: Settings)
    requires !TooLarge(out, settings.maxOutputSize)
    ensures Capped(InflateFrom(data, pos, out, settings.(maxOutputSize := 0)),
                   InflateFrom(data, pos, out, settings), settings.maxOutputSize)
    decreases if pos <= 8 * |data| then 8 * |data| - pos else 0
  {
    hide BytesBits, InflateBlock, Next;
    var s := BytesBits(data);
    if pos + 3 <= |s| {
      var btype := Next(s, pos + 1, 2);
      BlockCapped(data, pos + 3, btype, out, settings);
      var u := InflateBlock(data, pos + 3, btype, out, settings.(maxOutputSize := 0));
      if u.Success? && !TooLarge(u.value, settings.maxOutputSize) {
        LimitCutsOff(data, u.pos, u.value, settings);
      }
    }
  }
}
