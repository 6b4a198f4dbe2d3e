/** The scanline filters of RFC 2083 section 6 and their inverses, which may work in
    place. */
module Filters {
  import opened Bits

  // ----- Predictors

  function Abs(x: int): nat {
    if x < 0 then -x else x
  }

  /** The predictor as the code computes it. */
  function PaethPredictor(a: byte, b: byte, c: byte): byte {
    var pa, pb, pc := Abs(b - c), Abs(a - c), Abs(a + b - c - c);
    var (a', pa') := if pb < pa then (b, pb) else (a, pa);
    if pc < pa' then c else a'
  }

  /** The predictor of RFC 2083 section 6.6. */
  function Paeth(a: byte, b: byte, c: byte): byte {
    var p: int := a as int + b as int - c as int;
    var pa, pb, pc := Abs(p - a), Abs(p - b), Abs(p - c);
    if pa <= pb && pa <= pc then a else if pb <= pc then b else c
  }

  lemma PaethAgrees(a: byte, b: byte, c: byte)
    ensures PaethPredictor(a, b, c) == Paeth(a, b, c)
  {
  }

  lemma PaethOfOne(x: byte)
    ensures Paeth(0, x, 0) == x && Paeth(x, 0, 0) == x
  {
  }

  /** Prediction of a byte from the bytes to the left, above, and above left. */
  function Predict(filter: nat, a: byte, b: byte, c: byte): byte {
    if filter == 1 then a
    else if filter == 2 then b
    else if filter == 3 then (a as nat + b as nat) / 2
    else if filter == 4 then Paeth(a, b, c)
    else 0
  }

  // ----- Lines

  /** Bytes outside of a line, or of a line that does not exist, count as zero. */
  function At(line: seq<byte>, i: int): byte {
    if 0 <= i < |line| then line[i] else 0
  }

  function FilterLine(line: seq<byte>, prev: seq<byte>, bw: nat, filter: nat): (r: seq<byte>)
    ensures |r| == |line|
  {
    seq(|line|, i requires 0 <= i < |line| =>
      (line[i] as int - Predict(filter, At(line, i - bw), At(prev, i), At(prev, i - bw))) % 256)
  }

  /** The first n bytes of the line that was filtered. */
  function Recon(line: seq<byte>, prev: seq<byte>, bw: nat, filter: nat, n: nat): (r: seq<byte>)
    requires n <= |line|
    ensures |r| == n
    decreases n, 0
  {
    if n == 0 then [] else Recon(line, prev, bw, filter, n - 1) + [ReconByte(line, prev, bw, filter, n - 1)]
  }

  function ReconByte(line: seq<byte>, prev: seq<byte>, bw: nat, filter: nat, i: nat): byte
    requires i < |line|
    decreases i, 1
  {
    var r := Recon(line, prev, bw, filter, i);
    (line[i] as nat + Predict(filter, At(r, i - bw), At(prev, i), At(prev, i - bw))) % 256
  }

  lemma SubtractAdd(x: byte, p: byte)
    ensures ((x as int - p) % 256 + p) % 256 == x
  {
  }

  /** Every filter can be undone. */
  lemma {:induction false} ReconFilter(line: seq<byte>, prev: seq<byte>, bw: nat, filter: nat, n: nat)
    requires n <= |line| && bw > 0
    ensures Recon(FilterLine(line, prev, bw, filter), prev, bw, filter, n) == line[..n]
  {
    hide Predict;
    if n > 0 {
      ReconFilter(line, prev, bw, filter, n - 1);
      assert At(line[..n - 1], n - 1 - bw) == At(line, n - 1 - bw);
      SubtractAdd(line[n - 1], Predict(filter, At(line, n - 1 - bw), At(prev, n - 1), At(prev, n - 1 - bw)));
    }
  }

  lemma {:induction false} ReconPrefix(line: seq<byte>, prev: seq<byte>, bw: nat, filter: nat, i: nat, k: nat)
    requires i <= k <= |line|
    ensures Recon(line, prev, bw, filter, k)[..i] == Recon(line, prev, bw, filter, i)
    decreases k
  {
    if i < k {
      ReconPrefix(line, prev, bw, filter, i, k - 1);
    }
  }

  // ----- Undoing a filter in a buffer

  /** Where the lines are: the result at o, the filtered line at n, and, unless p is
      negative, the line above in the result buffer at p. */
  datatype Place = Place(o: nat, n: nat, p: int, bw: nat, length: nat)

  /** What to reconstruct: the buffer before, the filtered line, the line above. */
  datatype Job = Job(before: seq<byte>, line: seq<byte>, prev: seq<byte>, filter: nat)

  /** The first i bytes have been reconstructed; nothing else in the buffer has changed. */
  ghost predicate Partly(out: seq<byte>, q: Place, g: Job, i: nat) {
    && i <= q.length == |g.line| && q.o + q.length <= |g.before|
    && out == g.before[..q.o] + Recon(g.line, g.prev, q.bw, g.filter, i) + g.before[q.o + i..]
  }

  /** The buffers hold what the job says; they may be the same buffer, with the result
      not behind the filtered line. */
  ghost predicate Fits(input: seq<byte>, same: bool, q: Place, g: Job) {
    && 0 < q.bw <= q.length == |g.line|
    && q.o + q.length <= |g.before| && q.n + q.length <= |input| && input[q.n..q.n + q.length] == g.line
    && (same ==> input == g.before && q.o <= q.n)
    && (if q.p < 0 then g.prev == [] else q.p + q.length <= q.o && g.before[q.p..q.p + q.length] == g.prev)
  }

  lemma StartLine(q: Place, g: Job)
    requires |g.line| == q.length && q.o + q.length <= |g.before|
    ensures Partly(g.before, q, g, 0)
  {
  }

  /** What a loop reads at position k once i <= k bytes have been reconstructed. */
  lemma Neighbours(out: seq<byte>, input: seq<byte>, same: bool, q: Place, g: Job, i: nat, k: nat)
    requires Partly(out, q, g, i) && Fits(input, same, q, g) && i <= k < q.length
    ensures |out| == |g.before|
    ensures q.bw <= k < i + q.bw ==> out[q.o + k - q.bw] == At(Recon(g.line, g.prev, q.bw, g.filter, k), k - q.bw)
    ensures q.p >= 0 ==> out[q.p + k] == At(g.prev, k) && (k >= q.bw ==> out[q.p + k - q.bw] == At(g.prev, k - q.bw))
    ensures (if same then out else input)[q.n + k] == g.line[k]
  {
    hide Partly, Recon, Fits, At;
    PartlyShape(out, q, g, i);
    assert q.o + q.length <= |g.before| && (same ==> input == g.before && q.o <= q.n) by { FitsShape(input, same, q, g); }
    if q.bw <= k < i + q.bw {
      ToTheLeft(out, q, g, i, k);
    }
    FitsShape(input, same, q, g);
    if q.p >= 0 {
      Above(out, q, g, i, k);
      if k >= q.bw {
        Above(out, q, g, i, k - q.bw);
      }
    }
    InSlice(input, q.n, q.length, k);
    if same {
      PartlyBehind(out, q, g, i, q.n + k);
    }
  }

  lemma PartlyShape(out: seq<byte>, q: Place, g: Job, i: nat)
    requires Partly(out, q, g, i)
    ensures |out| == |g.before| && i <= q.length == |g.line| && q.o + q.length <= |g.before|
  {
    hide Recon;
  }

  lemma FitsShape(input: seq<byte>, same: bool, q: Place, g: Job)
    requires Fits(input, same, q, g)
    ensures 0 < q.bw <= q.length == |g.line| && q.o + q.length <= |g.before|
    ensures q.n + q.length <= |input| && input[q.n..q.n + q.length] == g.line
    ensures same ==> input == g.before && q.o <= q.n
    ensures q.p >= 0 ==> q.p + q.length <= q.o && g.before[q.p..q.p + q.length] == g.prev
    ensures q.p < 0 ==> g.prev == []
  {
  }

  lemma ToTheLeft(out: seq<byte>, q: Place, g: Job, i: nat, k: nat)
    requires Partly(out, q, g, i) && q.bw <= k < i + q.bw && i <= k < q.length && |out| == |g.before|
    ensures out[q.o + k - q.bw] == At(Recon(g.line, g.prev, q.bw, g.filter, k), k - q.bw)
  {
    hide Recon;
    var r := Recon(g.line, g.prev, q.bw, g.filter, i);
    ReconPrefix(g.line, g.prev, q.bw, g.filter, i, k);
    InMiddle(g.before[..q.o], r, g.before[q.o + i..], k - q.bw);
  }

  lemma Above(out: seq<byte>, q: Place, g: Job, i: nat, k: nat)
    requires Partly(out, q, g, i) && k < q.length && |out| == |g.before| && q.o + q.length <= |out|
    requires q.p >= 0 && q.p + q.length <= q.o && g.before[q.p..q.p + q.length] == g.prev
    ensures out[q.p + k] == At(g.prev, k)
  {
    hide Recon;
    InFront(out, g.before, q.o, q.p + k);
    InSlice(g.before, q.p, q.length, k);
  }

  lemma PartlyBehind(out: seq<byte>, q: Place, g: Job, i: nat, k: nat)
    requires Partly(out, q, g, i) && q.o + i <= k < |g.before| == |out|
    ensures out[k] == g.before[k]
  {
    hide Recon;
    Behind(g.before[..q.o] + Recon(g.line, g.prev, q.bw, g.filter, i), g.before, q.o + i, k);
  }

  lemma InMiddle(x: seq<byte>, y: seq<byte>, z: seq<byte>, k: nat)
    requires k < |y|
    ensures (x + y + z)[|x| + k] == y[k]
  {
  }

  lemma InFront(out: seq<byte>, b: seq<byte>, n: nat, k: nat)
    requires k < n <= |b| && n <= |out| && out[..n] == b[..n]
    ensures out[k] == b[k]
  {
    assert out[..n][k] == b[..n][k];
  }

  lemma InSlice(b: seq<byte>, p: nat, n: nat, k: nat)
    requires p + n <= |b| && k < n
    ensures b[p..p + n][k] == b[p + k]
  {
  }

  lemma Behind(x: seq<byte>, b: seq<byte>, n: nat, k: nat)
    requires |x| == n <= k < |b|
    ensures (x + b[n..])[k] == b[k]
  {
  }

  /** The byte at position k of the result, from what the buffers hold. */
  lemma Look(out: array<byte>, input: array<byte>, q: Place, g: Job, i: nat, k: nat)
    requires Partly(out[..], q, g, i) && i <= k < q.length
    requires Fits(if out == input then g.before else input[..], out == input, q, g)
    ensures q.o + q.length <= out.Length && q.n + q.length <= input.Length && (q.p >= 0 ==> q.p + q.length <= out.Length)
    ensures k < i + q.bw ==>
      ReconByte(g.line, g.prev, q.bw, g.filter, k)
      == (input[q.n + k] as nat
          + Predict(g.filter, if k >= q.bw then out[q.o + k - q.bw] else 0, if q.p >= 0 then out[q.p + k] else 0,
                    if q.p >= 0 && k >= q.bw then out[q.p + k - q.bw] else 0)) % 256
  {
    hide Partly, Recon, Predict;
    assert |out[..]| == out.Length;
    Neighbours(out[..], if out == input then g.before else input[..], out == input, q, g, i, k);
  }

  /** Stores the next reconstructed byte. */
  method Store(out: array<byte>, q: Place, i: nat, v: nat, ghost g: Job)
    requires i < q.length && Partly(out[..], q, g, i)
    requires v % 256 == ReconByte(g.line, g.prev, q.bw, g.filter, i)
    modifies out
    ensures Partly(out[..], q, g, i + 1)
  {
    ghost var was := out[..];
    var x: byte := v % 256;
    out[q.o + i] := x;
    assert out[..] == was[q.o + i := x];
    assert g.before[q.o + i..] == [g.before[q.o + i]] + g.before[q.o + i + 1..];
  }

  /** Part of a line: from i to j, whatever the loop in between. */
  ghost predicate Ahead(out: seq<byte>, input: seq<byte>, same: bool, q: Place, g: Job, i: nat, filter: nat) {
    Partly(out, q, g, i) && Fits(if same then g.before else input, same, q, g) && g.filter == filter
  }

  /** The filters that predict zero, or do so for the first bytes of a line. */
  predicate PredictsZero(filter: nat, p: int, first: bool) {
    filter == 0 || (filter == 1 && first) || (filter == 2 && p < 0) || (filter >= 3 && p < 0 && first)
  }

  /** Bytes without a prediction: the first ones of the line, or all. */
  method CopyBytes(out: array<byte>, input: array<byte>, q: Place, to: nat, ghost g: Job)
    requires Ahead(out[..], input[..], out == input, q, g, 0, g.filter) && to <= q.length
    requires PredictsZero(g.filter, q.p, to <= q.bw)
    modifies out
    ensures Ahead(out[..], input[..], out == input, q, g, to, g.filter)
  {
    hide Partly, Recon, Paeth;
    PaethOfOne(0);
    for i := 0 to to
      invariant Ahead(out[..], input[..], out == input, q, g, i, g.filter)
    {
      Look(out, input, q, g, i, i);
      Store(out, q, i, input[q.n + i], g);
    }
  }

  /** The rest of a line in which only the byte to the left counts. */
  method AddLeft(out: array<byte>, input: array<byte>, q: Place, ghost g: Job)
    requires Ahead(out[..], input[..], out == input, q, g, q.bw, g.filter)
    requires g.filter == 1 || (g.filter == 4 && q.p < 0)
    modifies out
    ensures Ahead(out[..], input[..], out == input, q, g, q.length, g.filter)
  {
    hide Partly, Recon, Paeth;
    for i := q.bw to q.length
      invariant Ahead(out[..], input[..], out == input, q, g, i, g.filter)
    {
      Look(out, input, q, g, i, i);
      PaethOfOne(out[q.o + i - q.bw]);
      Store(out, q, i, input[q.n + i] as nat + out[q.o + i - q.bw], g);
    }
  }

  /** Bytes for which only the byte above counts. */
  method AddAbove(out: array<byte>, input: array<byte>, q: Place, to: nat, ghost g: Job)
    requires Ahead(out[..], input[..], out == input, q, g, 0, g.filter) && to <= q.length
    requires q.p >= 0 && (g.filter == 2 || (g.filter == 4 && to <= q.bw))
    modifies out
    ensures Ahead(out[..], input[..], out == input, q, g, to, g.filter)
  {
    hide Partly, Recon, Paeth;
    for i := 0 to to
      invariant Ahead(out[..], input[..], out == input, q, g, i, g.filter)
    {
      Look(out, input, q, g, i, i);
      PaethOfOne(out[q.p + i]);
      Store(out, q, i, input[q.n + i] as nat + out[q.p + i], g);
    }
  }

  method AverageAbove(out: array<byte>, input: array<byte>, q: Place, ghost g: Job)
    requires Ahead(out[..], input[..], out == input, q, g, 0, 3) && q.p >= 0
    modifies out
    ensures Ahead(out[..], input[..], out == input, q, g, q.length, 3)
  {
    hide Partly, Recon, Paeth;
    for i := 0 to q.bw
      invariant Ahead(out[..], input[..], out == input, q, g, i, 3)
    {
      Look(out, input, q, g, i, i);
      Store(out, q, i, input[q.n + i] as nat + out[q.p + i] / 2, g);
    }
    for i := q.bw to q.length
      invariant Ahead(out[..], input[..], out == input, q, g, i, 3)
    {
      Look(out, input, q, g, i, i);
      Store(out, q, i, input[q.n + i] as nat + (out[q.o + i - q.bw] as nat + out[q.p + i]) / 2, g);
    }
  }

  method AverageLeft(out: array<byte>, input: array<byte>, q: Place, ghost g: Job)
    requires Ahead(out[..], input[..], out == input, q, g, 0, 3) && q.p < 0
    modifies out
    ensures Ahead(out[..], input[..], out == input, q, g, q.length, 3)
  {
    hide Partly, Recon, Paeth;
    CopyBytes(out, input, q, q.bw, g);
    for i := q.bw to q.length
      invariant Ahead(out[..], input[..], out == input, q, g, i, 3)
    {
      Look(out, input, q, g, i, i);
      Store(out, q, i, input[q.n + i] as nat + out[q.o + i - q.bw] / 2, g);
    }
  }

  method PaethFour(out: array<byte>, input: array<byte>, q: Place, ghost g: Job) returns (i: nat)
    requires Ahead(out[..], input[..], out == input, q, g, q.bw, 4) && q.p >= 0 && q.bw >= 4
    modifies out
    ensures q.bw <= i <= q.length && Ahead(out[..], input[..], out == input, q, g, i, 4)
  {
    hide Partly, Recon, Paeth, PaethPredictor;
    i := q.bw;
    while i + 3 < q.length
      invariant q.bw <= i <= q.length && Ahead(out[..], input[..], out == input, q, g, i, 4)
    {
      var v0 := PaethAt(out, input, q, i, i, g);
      var v1 := PaethAt(out, input, q, i, i + 1, g);
      var v2 := PaethAt(out, input, q, i, i + 2, g);
      var v3 := PaethAt(out, input, q, i, i + 3, g);
      Store(out, q, i, v0, g);
      Store(out, q, i + 1, v1, g);
      Store(out, q, i + 2, v2, g);
      Store(out, q, i + 3, v3, g);
      i := i + 4;
    }
  }

  /** The value for position k, read when only i bytes are there yet. */
  method PaethAt(out: array<byte>, input: array<byte>, q: Place, ghost i: nat, k: nat, ghost g: Job) returns (v: nat)
    requires Ahead(out[..], input[..], out == input, q, g, i, 4) && q.p >= 0
    requires q.bw <= i <= k < q.length && k < i + q.bw
    ensures v % 256 == ReconByte(g.line, g.prev, q.bw, 4, k)
  {
    hide Partly, Recon, Paeth, PaethPredictor;
    var j := k - q.bw;
    Look(out, input, q, g, i, k);
    PaethAgrees(out[q.o + j], out[q.p + k], out[q.p + j]);
    v := input[q.n + k] as nat + PaethPredictor(out[q.o + j], out[q.p + k], out[q.p + j]);
  }

  method PaethThree(out: array<byte>, input: array<byte>, q: Place, ghost g: Job) returns (i: nat)
    requires Ahead(out[..], input[..], out == input, q, g, q.bw, 4) && q.p >= 0 && q.bw >= 3
    modifies out
    ensures q.bw <= i <= q.length && Ahead(out[..], input[..], out == input, q, g, i, 4)
  {
    hide Partly, Recon, Paeth, PaethPredictor;
    i := q.bw;
    while i + 2 < q.length
      invariant q.bw <= i <= q.length && Ahead(out[..], input[..], out == input, q, g, i, 4)
    {
      var v0 := PaethAt(out, input, q, i, i, g);
      var v1 := PaethAt(out, input, q, i, i + 1, g);
      var v2 := PaethAt(out, input, q, i, i + 2, g);
      Store(out, q, i, v0, g);
      Store(out, q, i + 1, v1, g);
      Store(out, q, i + 2, v2, g);
      i := i + 3;
    }
  }

  method PaethTwo(out: array<byte>, input: array<byte>, q: Place, ghost g: Job) returns (i: nat)
    requires Ahead(out[..], input[..], out == input, q, g, q.bw, 4) && q.p >= 0 && q.bw >= 2
    modifies out
    ensures q.bw <= i <= q.length && Ahead(out[..], input[..], out == input, q, g, i, 4)
  {
    hide Partly, Recon, Paeth, PaethPredictor;
    i := q.bw;
    while i + 1 < q.length
      invariant q.bw <= i <= q.length && Ahead(out[..], input[..], out == input, q, g, i, 4)
    {
      var v0 := PaethAt(out, input, q, i, i, g);
      var v1 := PaethAt(out, input, q, i, i + 1, g);
      Store(out, q, i, v0, g);
      Store(out, q, i + 1, v1, g);
      i := i + 2;
    }
  }

  /** Filter type 4 with a line above: groups of four, three or two bytes do not depend
      on each other, as far as a pixel has that many bytes. */
  method PaethLine(out: array<byte>, input: array<byte>, q: Place, ghost g: Job)
    requires Ahead(out[..], input[..], out == input, q, g, 0, 4) && q.p >= 0
    modifies out
    ensures Ahead(out[..], input[..], out == input, q, g, q.length, 4)
  {
    hide Partly, Recon, Paeth, PaethPredictor;
    AddAbove(out, input, q, q.bw, g);
    var i := q.bw;
    if q.bw >= 4 {
      i := PaethFour(out, input, q, g);
    } else if q.bw >= 3 {
      i := PaethThree(out, input, q, g);
    } else if q.bw >= 2 {
      i := PaethTwo(out, input, q, g);
    }
    while i < q.length
      invariant q.bw <= i <= q.length && Ahead(out[..], input[..], out == input, q, g, i, 4)
    {
      var v := PaethAt(out, input, q, i, i, g);
      Store(out, q, i, v, g);
      i := i + 1;
    }
  }

  /** Reconstructs one line; error 36 for an unknown filter type. */
  method UnfilterScanline(out: array<byte>, input: array<byte>, q: Place, filterType: nat, ghost g: Job) returns (error: nat)
    requires g.before == out[..] && g.filter == filterType && Fits(input[..], out == input, q, g)
    modifies out
    ensures error == if filterType <= 4 then 0 else 36
    ensures error == 0 ==> Partly(out[..], q, g, q.length)
    ensures error != 0 ==> out[..] == old(out[..])
  {
    hide Partly, Recon, Paeth, PaethPredictor;
    StartLine(q, g);
    if filterType == 0 {
      CopyBytes(out, input, q, q.length, g);
    } else if filterType == 1 {
      CopyBytes(out, input, q, q.bw, g);
      AddLeft(out, input, q, g);
    } else if filterType == 2 {
      if q.p >= 0 {
        AddAbove(out, input, q, q.length, g);
      } else {
        CopyBytes(out, input, q, q.length, g);
      }
    } else if filterType == 3 {
      if q.p >= 0 {
        AverageAbove(out, input, q, g);
      } else {
        AverageLeft(out, input, q, g);
      }
    } else if filterType == 4 {
      if q.p >= 0 {
        PaethLine(out, input, q, g);
      } else {
        CopyBytes(out, input, q, q.bw, g);
        AddLeft(out, input, q, g);
      }
    } else {
      return 36;
    }
    return 0;
  }

  // ----- Filtering a line into another buffer

  /** The first i bytes of the filtered line are in place. */
  ghost predicate Filtered(out: seq<byte>, q: Place, g: Job, i: nat) {
    && i <= q.length == |g.line| && q.o + q.length <= |g.before|
    && out == g.before[..q.o] + FilterLine(g.line, g.prev, q.bw, g.filter)[..i] + g.before[q.o + i..]
  }

  /** The line lies at n of the input, the line above at p unless p is negative. */
  ghost predicate Source(input: seq<byte>, q: Place, g: Job) {
    && 0 < q.bw <= q.length == |g.line|
    && q.o + q.length <= |g.before| && q.n + q.length <= |input| && input[q.n..q.n + q.length] == g.line
    && (if q.p < 0 then g.prev == [] else q.p + q.length <= |input| && input[q.p..q.p + q.length] == g.prev)
  }

  lemma AtSlice(s: seq<byte>, p: nat, line: seq<byte>, k: int)
    requires p + |line| <= |s| && s[p..p + |line|] == line && k < |line|
    ensures At(line, k) == if k >= 0 then s[p + k] else 0
  {
    if k >= 0 {
      InSlice(s, p, |line|, k);
    }
  }

  lemma LookSource(input: array<byte>, q: Place, g: Job, i: nat)
    requires Source(input[..], q, g) && i < q.length
    ensures q.n + q.length <= input.Length && (q.p >= 0 ==> q.p + q.length <= input.Length)
    ensures FilterLine(g.line, g.prev, q.bw, g.filter)[i]
      == (input[q.n + i] as int
          - Predict(g.filter, if i >= q.bw then input[q.n + i - q.bw] else 0, if q.p >= 0 then input[q.p + i] else 0,
                    if q.p >= 0 && i >= q.bw then input[q.p + i - q.bw] else 0)) % 256
  {
    hide Predict, At;
    var s := input[..];
    AtSlice(s, q.n, g.line, i);
    AtSlice(s, q.n, g.line, i - q.bw);
    assert At(g.line, i) == g.line[i] by { InLine(g.line, i); }
    if q.p >= 0 {
      assert |g.prev| == q.length;
      AtSlice(s, q.p, g.prev, i);
      AtSlice(s, q.p, g.prev, i - q.bw);
    } else {
      NoLine(i);
      NoLine(i - q.bw);
    }
  }

  lemma InLine(line: seq<byte>, i: nat)
    requires i < |line|
    ensures At(line, i) == line[i]
  {
  }

  lemma NoLine(i: int)
    ensures At([], i) == 0
  {
  }

  method StoreFiltered(out: array<byte>, q: Place, i: nat, v: int, ghost g: Job)
    requires i < q.length && Filtered(out[..], q, g, i)
    requires v % 256 == FilterLine(g.line, g.prev, q.bw, g.filter)[i]
    modifies out
    ensures Filtered(out[..], q, g, i + 1)
  {
    hide FilterLine;
    ghost var was, f := out[..], FilterLine(g.line, g.prev, q.bw, g.filter);
    var x: byte := v % 256;
    out[q.o + i] := x;
    assert out[..] == was[q.o + i := x];
    assert g.before[q.o + i..] == [g.before[q.o + i]] + g.before[q.o + i + 1..];
    assert f[..i + 1] == f[..i] + [x];
  }

  ghost predicate Filtering(out: seq<byte>, input: seq<byte>, q: Place, g: Job, i: nat, filter: nat) {
    Filtered(out, q, g, i) && Source(input, q, g) && g.filter == filter
  }

  method KeepBytes(out: array<byte>, input: array<byte>, q: Place, to: nat, ghost g: Job)
    requires out != input && Filtering(out[..], input[..], q, g, 0, g.filter) && to <= q.length
    requires PredictsZero(g.filter, q.p, to <= q.bw)
    modifies out
    ensures Filtering(out[..], input[..], q, g, to, g.filter)
  {
    hide Filtered, FilterLine, Paeth;
    PaethOfOne(0);
    for i := 0 to to
      invariant Filtering(out[..], input[..], q, g, i, g.filter)
    {
      LookSource(input, q, g, i);
      StoreFiltered(out, q, i, input[q.n + i], g);
    }
  }

  method SubtractLeft(out: array<byte>, input: array<byte>, q: Place, ghost g: Job)
    requires out != input && Filtering(out[..], input[..], q, g, q.bw, g.filter)
    requires g.filter == 1 || (g.filter == 4 && q.p < 0)
    modifies out
    ensures Filtering(out[..], input[..], q, g, q.length, g.filter)
  {
    hide Filtered, FilterLine, Paeth;
    for i := q.bw to q.length
      invariant Filtering(out[..], input[..], q, g, i, g.filter)
    {
      LookSource(input, q, g, i);
      PaethOfOne(input[q.n + i - q.bw]);
      StoreFiltered(out, q, i, input[q.n + i] as int - input[q.n + i - q.bw], g);
    }
  }

  method SubtractAbove(out: array<byte>, input: array<byte>, q: Place, to: nat, ghost g: Job)
    requires out != input && Filtering(out[..], input[..], q, g, 0, g.filter) && to <= q.length
    requires q.p >= 0 && (g.filter == 2 || (g.filter == 4 && to <= q.bw))
    modifies out
    ensures Filtering(out[..], input[..], q, g, to, g.filter)
  {
    hide Filtered, FilterLine, Paeth;
    for i := 0 to to
      invariant Filtering(out[..], input[..], q, g, i, g.filter)
    {
      LookSource(input, q, g, i);
      PaethOfOne(input[q.p + i]);
      StoreFiltered(out, q, i, input[q.n + i] as int - input[q.p + i], g);
    }
  }

  method SubtractAverage(out: array<byte>, input: array<byte>, q: Place, ghost g: Job)
    requires out != input && Filtering(out[..], input[..], q, g, 0, 3)
    modifies out
    ensures Filtering(out[..], input[..], q, g, q.length, 3)
  {
    hide Filtered, FilterLine, Paeth;
    if q.p >= 0 {
      for i := 0 to q.bw
        invariant Filtering(out[..], input[..], q, g, i, 3)
      {
        LookSource(input, q, g, i);
        StoreFiltered(out, q, i, input[q.n + i] as int - input[q.p + i] / 2, g);
      }
      for i := q.bw to q.length
        invariant Filtering(out[..], input[..], q, g, i, 3)
      {
        LookSource(input, q, g, i);
        StoreFiltered(out, q, i, input[q.n + i] as int - (input[q.n + i - q.bw] as nat + input[q.p + i]) / 2, g);
      }
    } else {
      KeepBytes(out, input, q, q.bw, g);
      for i := q.bw to q.length
        invariant Filtering(out[..], input[..], q, g, i, 3)
      {
        LookSource(input, q, g, i);
        StoreFiltered(out, q, i, input[q.n + i] as int - input[q.n + i - q.bw] / 2, g);
      }
    }
  }

  method SubtractPaeth(out: array<byte>, input: array<byte>, q: Place, ghost g: Job)
    requires out != input && Filtering(out[..], input[..], q, g, 0, 4)
    modifies out
    ensures Filtering(out[..], input[..], q, g, q.length, 4)
  {
    hide Filtered, FilterLine, Paeth, PaethPredictor;
    if q.p >= 0 {
      SubtractAbove(out, input, q, q.bw, g);
      for i := q.bw to q.length
        invariant Filtering(out[..], input[..], q, g, i, 4)
      {
        LookSource(input, q, g, i);
        var a, b, c := input[q.n + i - q.bw], input[q.p + i], input[q.p + i - q.bw];
        PaethAgrees(a, b, c);
        StoreFiltered(out, q, i, input[q.n + i] as int - PaethPredictor(a, b, c), g);
      }
    } else {
      KeepBytes(out, input, q, q.bw, g);
      SubtractLeft(out, input, q, g);
    }
  }

  /** Filters one line; an unknown filter type writes nothing. */
  method FilterScanline(out: array<byte>, input: array<byte>, q: Place, filterType: nat, ghost g: Job)
    requires out != input && g.before == out[..] && g.filter == filterType && Source(input[..], q, g)
    modifies out
    ensures filterType <= 4 ==> Filtered(out[..], q, g, q.length)
    ensures filterType > 4 ==> out[..] == old(out[..])
  {
    hide FilterLine, Paeth, PaethPredictor;
    assert Filtered(out[..], q, g, 0);
    if filterType == 0 {
      KeepBytes(out, input, q, q.length, g);
    } else if filterType == 1 {
      KeepBytes(out, input, q, q.bw, g);
      SubtractLeft(out, input, q, g);
    } else if filterType == 2 {
      if q.p >= 0 {
        SubtractAbove(out, input, q, q.length, g);
      } else {
        KeepBytes(out, input, q, q.length, g);
      }
    } else if filterType == 3 {
      SubtractAverage(out, input, q, g);
    } else if filterType == 4 {
      SubtractPaeth(out, input, q, g);
    }
  }

  // ----- Images

  /** The image behind lines of lb bytes, each with its filter type in front. */
  function Unfiltered(data: seq<byte>, lb: nat, bw: nat, prev: seq<byte>, h: nat): (r: seq<byte>)
    decreases h
  {
    if h == 0 || |data| < lb + 1 then []
    else
      var line := Recon(data[1..lb + 1], prev, bw, data[0], lb);
      line + Unfiltered(data[lb + 1..], lb, bw, line, h - 1)
  }

  predicate TypesOk(data: seq<byte>, lb: nat, h: nat)
    decreases h
  {
    h == 0 || |data| < lb + 1 || (data[0] <= 4 && TypesOk(data[lb + 1..], lb, h - 1))
  }

  /** The filter types of the lines. */
  function LineTypes(data: seq<byte>, lb: nat, h: nat): (types: seq<byte>)
    decreases h
  {
    if h == 0 || |data| < lb + 1 then [] else [data[0]] + LineTypes(data[lb + 1..], lb, h - 1)
  }

  /** The lines of an image, each filtered as its type says. */
  function FilterRows(image: seq<byte>, lb: nat, bw: nat, prev: seq<byte>, types: seq<byte>): (r: seq<byte>)
    decreases |types|
  {
    if types == [] || |image| < lb then []
    else [types[0]] + FilterLine(image[..lb], prev, bw, types[0]) + FilterRows(image[lb..], lb, bw, image[..lb], types[1..])
  }

  /** The same for any types: above 4 nothing is written, and the line keeps what was in
      its place. */
  function RowsOver(image: seq<byte>, lb: nat, bw: nat, prev: seq<byte>, types: seq<byte>, was: seq<byte>): (r: seq<byte>)
    decreases |types|
  {
    if types == [] || |image| < lb || |was| < lb + 1 then []
    else
      [types[0]] + LineOver(image[..lb], prev, bw, types[0], was[1..lb + 1])
        + RowsOver(image[lb..], lb, bw, image[..lb], types[1..], was[lb + 1..])
  }

  function LineOver(line: seq<byte>, prev: seq<byte>, bw: nat, filter: nat, was: seq<byte>): seq<byte> {
    if filter <= 4 then FilterLine(line, prev, bw, filter) else was
  }

  lemma {:induction false} RowsOverAre(image: seq<byte>, lb: nat, bw: nat, prev: seq<byte>, types: seq<byte>, was: seq<byte>)
    requires |image| == Times(|types|, lb) && |was| == Times(|types|, lb + 1) && forall i :: 0 <= i < |types| ==> types[i] <= 4
    ensures RowsOver(image, lb, bw, prev, types, was) == FilterRows(image, lb, bw, prev, types)
    decreases |types|
  {
    hide Times, FilterLine;
    if types != [] {
      TimesNext(|types| - 1, lb);
      TimesNext(|types| - 1, lb + 1);
      RowsOverAre(image[lb..], lb, bw, image[..lb], types[1..], was[lb + 1..]);
    }
  }

  lemma {:induction false} UnfilterFilter(image: seq<byte>, lb: nat, bw: nat, prev: seq<byte>, types: seq<byte>)
    requires bw > 0 && |image| == Times(|types|, lb) && forall i :: 0 <= i < |types| ==> types[i] <= 4
    ensures |FilterRows(image, lb, bw, prev, types)| == Times(|types|, lb + 1)
    ensures TypesOk(FilterRows(image, lb, bw, prev, types), lb, |types|)
    ensures LineTypes(FilterRows(image, lb, bw, prev, types), lb, |types|) == types
    ensures Unfiltered(FilterRows(image, lb, bw, prev, types), lb, bw, prev, |types|) == image
    decreases |types|
  {
    hide Times, Recon, FilterLine;
    var n := |types|;
    if n == 0 {
      TimesZero(lb);
      TimesZero(lb + 1);
    } else {
      TimesNext(n - 1, lb);
      TimesNext(n - 1, lb + 1);
      var line, rest := image[..lb], image[lb..];
      UnfilterFilter(rest, lb, bw, line, types[1..]);
      var f, data := FilterLine(line, prev, bw, types[0]), FilterRows(image, lb, bw, prev, types);
      var more := FilterRows(rest, lb, bw, line, types[1..]);
      assert data == [types[0]] + f + more;
      assert data[1..lb + 1] == f && data[lb + 1..] == more;
      ReconFilter(line, prev, bw, types[0], lb);
      assert line[..lb] == line;
      assert image == line + rest;
    }
  }
}
