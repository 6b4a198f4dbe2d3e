/** The filters of the program are those of RFC 2083. */
module FilterConforms {
  import opened Bits
  import opened Filters
  import Rfc2083

  // ----- Lines

  lemma PredictConforms(t: byte, a: byte, b: byte, c: byte)
    requires t <= 4
    ensures Rfc2083.Predicted(t, a, b, c, Predict(t, a, b, c))
  {
  }

  /** Unlike the prediction of another filter, it is the only one. */
  lemma PredictedOnce(t: byte, a: byte, b: byte, c: byte, p: byte)
    requires Rfc2083.Predicted(t, a, b, c, p)
    ensures t <= 4 && p == Predict(t, a, b, c)
  {
  }

  lemma TakenBySubtracting(v: byte, p: byte)
    ensures Rfc2083.Taken(v, (v as int - p) % 256) == p
  {
  }

  lemma TakenByAdding(x: byte, p: byte)
    ensures Rfc2083.Taken((x as nat + p) % 256, x) == p
  {
  }

  lemma FilterLineConforms(line: seq<byte>, prev: seq<byte>, bw: nat, t: byte)
    requires t <= 4
    ensures Rfc2083.FilteredLine(line, prev, bw, t, FilterLine(line, prev, bw, t))
  {
    hide Predict, Rfc2083.Predicted, Rfc2083.Taken;
    var raw := FilterLine(line, prev, bw, t);
    forall i | 0 <= i < |line|
      ensures Rfc2083.FilteredByte(line, prev, bw, t, raw, i)
    {
      var p := Predict(t, At(line, i - bw), At(prev, i), At(prev, i - bw));
      PredictConforms(t, At(line, i - bw), At(prev, i), At(prev, i - bw));
      TakenBySubtracting(line[i], p);
    }
  }

  lemma ReconConforms(raw: seq<byte>, prev: seq<byte>, bw: nat, t: byte)
    requires t <= 4 && bw > 0
    ensures Rfc2083.FilteredLine(Recon(raw, prev, bw, t, |raw|), prev, bw, t, raw)
  {
    hide Predict, Rfc2083.Taken;
    var line := Recon(raw, prev, bw, t, |raw|);
    forall i | 0 <= i < |raw|
      ensures Rfc2083.FilteredByte(line, prev, bw, t, raw, i)
    {
      ReconAt(raw, prev, bw, t, i);
      PredictConforms(t, At(line, i - bw), At(prev, i), At(prev, i - bw));
      TakenByAdding(raw[i], Predict(t, At(line, i - bw), At(prev, i), At(prev, i - bw)));
    }
  }

  /** The standard leaves no choice: this line is the only one. */
  lemma {:induction false} OnlyRecon(line: seq<byte>, prev: seq<byte>, bw: nat, t: byte, raw: seq<byte>, n: nat)
    requires Rfc2083.FilteredLine(line, prev, bw, t, raw) && bw > 0 && n <= |line|
    ensures line[..n] == Recon(raw, prev, bw, t, n)
  {
    hide Predict;
    if n > 0 {
      var i := n - 1;
      OnlyRecon(line, prev, bw, t, raw, i);
      assert Rfc2083.FilteredByte(line, prev, bw, t, raw, i);
      PredictedOnce(t, At(line, i - bw), At(prev, i), At(prev, i - bw), Rfc2083.Taken(line[i], raw[i]));
      assert At(line[..i], i - bw) == At(line, i - bw);
      AddTaken(line[i], raw[i]);
    }
  }

  lemma AddTaken(v: byte, x: byte)
    ensures (x as nat + Rfc2083.Taken(v, x)) % 256 == v
  {
  }

  lemma ReconAt(raw: seq<byte>, prev: seq<byte>, bw: nat, t: byte, i: nat)
    requires i < |raw| && bw > 0
    ensures
      var line := Recon(raw, prev, bw, t, |raw|);
      line[i] == (raw[i] as nat + Predict(t, At(line, i - bw), At(prev, i), At(prev, i - bw))) % 256
  {
    hide Predict;
    var line := Recon(raw, prev, bw, t, |raw|);
    ReconPrefix(raw, prev, bw, t, i, |raw|);
    ReconPrefix(raw, prev, bw, t, i + 1, |raw|);
    var r := Recon(raw, prev, bw, t, i);
    assert line[i] == line[..i + 1][i] == ReconByte(raw, prev, bw, t, i);
    if i >= bw {
      assert line[i - bw] == line[..i][i - bw] == r[i - bw];
    }
  }

  // ----- All lines

  lemma LineFirst(rows: seq<byte>, n: nat)
    requires n <= |rows|
    ensures Rfc2083.Line(rows, n, 0) == rows[..n] && Rfc2083.Line(rows, n, -1) == []
  {
  }

  lemma LineLater(rows: seq<byte>, n: nat, h: nat, y: nat)
    requires y + 1 < h && |rows| == h * n
    ensures n <= |rows| && Rfc2083.Line(rows, n, y + 1) == Rfc2083.Line(rows[n..], n, y)
  {
    var k := y * n;
    assert (y + 1) * n == k + n && (y + 2) * n == k + 2 * n && n <= (y + 2) * n <= h * n;
    assert rows[n..][k..k + n] == rows[k + n..k + 2 * n];
  }

  lemma Sizes(h: nat, n: nat)
    requires h > 0
    ensures n <= h * n && (h - 1) * n == h * n - n
  {
  }

  /** The line before the first one. */
  function Prior(rows: seq<byte>, n: nat, y: nat, prev: seq<byte>): seq<byte> {
    if y == 0 then prev else Rfc2083.Line(rows, n, y - 1)
  }

  ghost predicate RowsFrom(data: seq<byte>, rows: seq<byte>, n: nat, bw: nat, h: nat, prev: seq<byte>) {
    && |data| == h * (n + 1) && |rows| == h * n
    && forall y :: 0 <= y < h ==>
         Rfc2083.FilteredRow(Rfc2083.Line(data, n + 1, y), Rfc2083.Line(rows, n, y), Prior(rows, n, y, prev), bw)
  }

  lemma NextRow(data: seq<byte>, rows: seq<byte>, n: nat, bw: nat, h: nat, prev: seq<byte>)
    requires h > 0 && |data| == h * (n + 1) && |rows| == h * n && n <= |rows| && n + 1 <= |data|
    requires Rfc2083.FilteredRow(data[..n + 1], rows[..n], prev, bw)
    requires RowsFrom(data[n + 1..], rows[n..], n, bw, h - 1, rows[..n])
    ensures RowsFrom(data, rows, n, bw, h, prev)
  {
    hide Rfc2083.FilteredRow, Rfc2083.Line;
    LineFirst(data, n + 1);
    LineFirst(rows, n);
    forall y | 0 <= y < h
      ensures Rfc2083.FilteredRow(Rfc2083.Line(data, n + 1, y), Rfc2083.Line(rows, n, y), Prior(rows, n, y, prev), bw)
    {
      if y > 0 {
        LineLater(data, n + 1, h, y - 1);
        LineLater(rows, n, h, y - 1);
        if y > 1 {
          LineLater(rows, n, h, y - 2);
        }
      }
    }
  }

  lemma {:induction false} UnfilteredRows(data: seq<byte>, n: nat, bw: nat, prev: seq<byte>, h: nat)
    requires |data| == h * (n + 1) && TypesOk(data, n, h) && bw > 0
    ensures RowsFrom(data, Unfiltered(data, n, bw, prev, h), n, bw, h, prev)
    decreases h
  {
    hide Recon, RowsFrom;
    if h == 0 {
      assert RowsFrom(data, [], n, bw, h, prev) by { NoRows(data, n, bw, prev); }
    } else {
      Sizes(h, n + 1);
      Sizes(h, n);
      var line := Recon(data[1..n + 1], prev, bw, data[0], n);
      var rest := Unfiltered(data[n + 1..], n, bw, line, h - 1);
      UnfilteredRows(data[n + 1..], n, bw, line, h - 1);
      assert |rest| == (h - 1) * n by { RowsSize(data[n + 1..], rest, n, bw, h - 1, line); }
      assert data[..n + 1][1..] == data[1..n + 1];
      ReconConforms(data[1..n + 1], prev, bw, data[0]);
      assert (line + rest)[..n] == line && (line + rest)[n..] == rest;
      NextRow(data, line + rest, n, bw, h, prev);
    }
  }

  lemma NoRows(data: seq<byte>, n: nat, bw: nat, prev: seq<byte>)
    requires data == []
    ensures RowsFrom(data, [], n, bw, 0, prev)
  {
  }

  lemma RowsSize(data: seq<byte>, rows: seq<byte>, n: nat, bw: nat, h: nat, prev: seq<byte>)
    requires RowsFrom(data, rows, n, bw, h, prev)
    ensures |rows| == h * n && |data| == h * (n + 1)
  {
  }

  lemma {:induction false} FilteredRows(rows: seq<byte>, n: nat, bw: nat, prev: seq<byte>, types: seq<byte>)
    requires |rows| == |types| * n && forall y :: 0 <= y < |types| ==> types[y] <= 4
    ensures RowsFrom(FilterRows(rows, n, bw, prev, types), rows, n, bw, |types|, prev)
    decreases |types|
  {
    hide FilterLine, RowsFrom;
    var h := |types|;
    if h == 0 {
      NoRows([], n, bw, prev);
    } else {
      Sizes(h, n + 1);
      Sizes(h, n);
      var line := rows[..n];
      var raw := FilterLine(line, prev, bw, types[0]);
      var rest := FilterRows(rows[n..], n, bw, line, types[1..]);
      FilteredRows(rows[n..], n, bw, line, types[1..]);
      RowsSize(rest, rows[n..], n, bw, h - 1, line);
      FilterLineConforms(line, prev, bw, types[0]);
      var data := [types[0]] + raw + rest;
      assert data[..n + 1] == [types[0]] + raw && data[n + 1..] == rest;
      assert data[..n + 1][1..] == raw;
      NextRow(data, rows, n, bw, h, prev);
    }
  }

  lemma RowsAreLines(data: seq<byte>, rows: seq<byte>, n: nat, bw: nat, h: nat)
    requires RowsFrom(data, rows, n, bw, h, [])
    ensures Rfc2083.FilteredLines(data, rows, n, bw, h)
  {
    hide Rfc2083.FilteredRow;
    forall y | 0 <= y < h
      ensures Prior(rows, n, y, []) == Rfc2083.Line(rows, n, y - 1)
    {
    }
  }

  /** Whatever the filter types, the lines that are written stand for the image. */
  lemma FilterConforms(image: seq<byte>, n: nat, bw: nat, types: seq<byte>)
    requires |image| == |types| * n && forall y :: 0 <= y < |types| ==> types[y] <= 4
    ensures Rfc2083.FilteredLines(FilterRows(image, n, bw, [], types), image, n, bw, |types|)
  {
    FilteredRows(image, n, bw, [], types);
    RowsAreLines(FilterRows(image, n, bw, [], types), image, n, bw, |types|);
  }

  /** And the lines that are read are those the data stand for. */
  lemma UnfilterConforms(data: seq<byte>, n: nat, bw: nat, h: nat)
    requires |data| == h * (n + 1) && TypesOk(data, n, h) && bw > 0
    ensures Rfc2083.FilteredLines(data, Unfiltered(data, n, bw, [], h), n, bw, h)
  {
    UnfilteredRows(data, n, bw, [], h);
    RowsAreLines(data, Unfiltered(data, n, bw, [], h), n, bw, h);
  }
}
