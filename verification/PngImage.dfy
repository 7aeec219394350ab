/** Building a PNG image from its inflated data: unfiltering row by row, then expanding small samples in place. */
module PngImage {
  import opened Basics
  import opened PngFilter
  import opened PngRows
  import opened PngExpand

  datatype Format = Format(x: nat, y: nat, imgN: nat, outN: nat, depth: nat, color: nat)

  predicate FormatOk(f: Format)
  {
    f.x > 0 && f.y > 0 && 1 <= f.imgN <= 4 && (f.outN == f.imgN || f.outN == f.imgN + 1) &&
    (SmallDepth(f.depth) || f.depth == 8 || f.depth == 16) &&
    (SmallDepth(f.depth) && f.outN != f.imgN ==> f.imgN == 1 || f.imgN == 3)
  }

  function Bytes(f: Format): nat { if f.depth == 16 then 2 else 1 }

  /** The bytes of a pixel in the data, and in the output. */
  function Fb(f: Format): nat { f.imgN * Bytes(f) }

  function Ob(f: Format): nat { f.outN * Bytes(f) }

  /** The distance of the left neighbour in the data. */
  function StepOf(f: Format): nat { if SmallDepth(f.depth) then 1 else Fb(f) }

  /** The bytes of a row in the data, and in the output. */
  function Width(f: Format): nat { (f.imgN * f.x * f.depth + 7) / 8 }

  function Stride(f: Format): nat { Mul(f.x, Ob(f)) }

  predicate SideBySide(f: Format)
  {
    SmallDepth(f.depth) || f.imgN == f.outN
  }

  /** Small samples must not make a row wider than its pixels. */
  predicate WidthOk(f: Format)
  {
    SmallDepth(f.depth) ==> Width(f) <= f.x
  }

  lemma {:induction false} MulAtLeast(n: nat, k: nat)
    requires k > 0
    ensures Mul(n, k) >= n && (n > 0 ==> Mul(n, k) >= k)
    decreases n
  {
    if n > 0 {
      MulAtLeast(n - 1, k);
    }
  }

  lemma WidthOf8(t: nat)
    ensures (t * 8 + 7) / 8 == t && (t * 16 + 7) / 8 == 2 * t
  {
  }

  lemma Sizes(f: Format)
    requires FormatOk(f) && WidthOk(f)
    ensures 0 < StepOf(f) <= Width(f) <= Stride(f)
    ensures !SmallDepth(f.depth) ==> Width(f) == Mul(f.x, Fb(f)) && 0 < Fb(f) <= Ob(f)
    ensures !SmallDepth(f.depth) && f.imgN == f.outN ==> Width(f) == Stride(f)
    ensures !SideBySide(f) ==> Ob(f) == Fb(f) + 1 || Ob(f) == Fb(f) + 2
  {
    hide Mul, Width, Fb, Ob;
    PixelSizes(f);
    if SmallDepth(f.depth) {
      SmallSizes(f);
    } else {
      LargeSizes(f);
      MulWider(f.x, Fb(f), Ob(f));
    }
  }

  lemma PixelSizes(f: Format)
    requires FormatOk(f)
    ensures 0 < Fb(f) <= Ob(f) && (f.imgN == f.outN ==> Fb(f) == Ob(f))
    ensures f.imgN != f.outN ==> Ob(f) == Fb(f) + Bytes(f)
  {
  }

  lemma SmallSizes(f: Format)
    requires FormatOk(f) && WidthOk(f) && SmallDepth(f.depth)
    ensures 0 < Width(f) <= Stride(f)
  {
    hide Mul, Ob;
    PixelSizes(f);
    MulAtLeast(f.x, Ob(f));
    SmallWidth(f.imgN * f.x, f.depth);
    AtLeastOne(f.imgN, f.x);
  }

  lemma LargeSizes(f: Format)
    requires FormatOk(f) && !SmallDepth(f.depth)
    ensures Width(f) == Mul(f.x, Fb(f)) && Fb(f) <= Width(f)
  {
    hide Mul;
    WidthOf8(f.imgN * f.x);
    MulIsTimes(f.x, Fb(f));
    Reorder(f.x, f.imgN, Bytes(f));
    PixelSizes(f);
    MulAtLeast(f.x, Fb(f));
  }

  lemma AtLeastOne(a: nat, b: nat)
    requires a >= 1 && b >= 1
    ensures a * b >= 1
  {
  }

  lemma Reorder(x: nat, n: nat, b: nat)
    requires b == 1 || b == 2
    ensures x * (n * b) == b * (n * x)
  {
  }

  lemma {:induction false} MulWider(n: nat, k: nat, m: nat)
    requires k <= m
    ensures Mul(n, k) <= Mul(n, m)
    decreases n
  {
    if n > 0 {
      MulWider(n - 1, k, m);
    }
  }

  /** A row of small samples takes the bytes its samples take. */
  lemma SmallWidth(n: nat, depth: nat)
    requires SmallDepth(depth)
    ensures (n * depth + 7) / 8 == PackedSize(n, PerByte(depth)) && (n > 0 ==> PackedSize(n, PerByte(depth)) > 0)
  {
    if depth == 4 {
      assert (n * 4 + 7) / 8 == (n + 1) / 2;
    } else if depth == 2 {
      assert (n * 2 + 7) / 8 == (n + 3) / 4;
    }
  }

  // ---------- what the data mean ----------

  function BlankRow(n: nat): (r: Row)
    ensures |r| == n && forall i :: 0 <= i < n ==> r[i] == 0
  {
    seq(n, _ => 0)
  }

  /** The rows that the data hold: each a filter and its bytes, filtered against the row above. */
  function RowsOf(raw: Row, y: nat, width: nat, step: nat, prior: Row): (r: Option<seq<Row>>)
    requires 0 < step && |prior| == width
    ensures r.Some? ==> |r.value| == y && forall i :: 0 <= i < y ==> |r.value[i]| == width
    decreases y
  {
    if y == 0 then Some([])
    else if |raw| < width + 1 || raw[0] > 4 then None
    else
      var row := Unfiltered(raw[0], raw[1..width + 1], prior, step);
      var rest := RowsOf(raw[width + 1..], y - 1, width, step, row);
      if rest.None? then None else Some([row] + rest.value)
  }

  /** Filtered data for given rows, with a filter chosen for every row. */
  function Encoded(rows: seq<Row>, filters: seq<nat>, width: nat, step: nat, prior: Row): Row
    requires 0 < step && |prior| == width && |filters| == |rows|
    requires forall i :: 0 <= i < |rows| ==> |rows[i]| == width && filters[i] <= 4
    decreases |rows|
  {
    if rows == [] then []
    else
      [filters[0]] + (Filtered(filters[0], rows[0], prior, step) + Encoded(rows[1..], filters[1..], width, step, rows[0]))
  }

  /** Decoding undoes encoding, for all rows and every choice of filters; what follows the data does not matter. */
  lemma {:induction false} RowsRoundTrip(rows: seq<Row>, filters: seq<nat>, width: nat, step: nat, prior: Row, more: Row)
    requires 0 < step && |prior| == width && |filters| == |rows|
    requires forall i :: 0 <= i < |rows| ==> |rows[i]| == width && filters[i] <= 4
    ensures RowsOf(Encoded(rows, filters, width, step, prior) + more, |rows|, width, step, prior) == Some(rows)
    decreases |rows|
  {
    hide Filtered, Unfiltered;
    if rows != [] {
      var f, rest := Filtered(filters[0], rows[0], prior, step), Encoded(rows[1..], filters[1..], width, step, rows[0]);
      var raw := [filters[0]] + (f + rest) + more;
      assert raw[0] == filters[0] && raw[1..width + 1] == f && raw[width + 1..] == rest + more;
      assert Encoded(rows, filters, width, step, prior) + more == raw;
      UnfilterInverts(filters[0], rows[0], prior, step);
      RowsRoundTrip(rows[1..], filters[1..], width, step, rows[0], more);
      assert rows == [rows[0]] + rows[1..];
    }
  }

  // ---------- the rows in the output ----------

  /** The bytes of a row in the output before small samples are expanded. */
  ghost predicate RowOk(f: Format, s: Row, row: Row)
  {
    |s| == Stride(f) && |row| == Width(f) <= |s| &&
    if SideBySide(f) then s[|s| - Width(f)..] == row else SpreadRow(s, row, f.x, Fb(f), Ob(f))
  }

  ghost predicate Image(f: Format, s: Row, rows: seq<Row>)
    decreases |rows|
  {
    if rows == [] then s == []
    else
      var n := |s| - Stride(f);
      n >= 0 && RowOk(f, s[n..], rows[|rows| - 1]) && Image(f, s[..n], rows[..|rows| - 1])
  }

  lemma ImageAppend(f: Format, s: Row, rows: seq<Row>, t: Row, row: Row)
    requires Image(f, s, rows) && RowOk(f, t, row)
    ensures Image(f, s + t, rows + [row])
  {
    hide RowOk, Stride;
    assert |t| == Stride(f) by {
      RowSize(f, t, row);
    }
    assert (s + t)[|s|..] == t && (s + t)[..|s|] == s;
    assert (rows + [row])[..|rows|] == rows;
  }

  lemma RowSize(f: Format, t: Row, row: Row)
    requires RowOk(f, t, row)
    ensures |t| == Stride(f) && |row| == Width(f)
  {
  }

  /** The row above in the output is the row before; above the first there are zeros. */
  ghost predicate PriorOk(f: Format, s: Row, base: nat, first: bool, prior: Row)
  {
    |prior| == Width(f) &&
    if first then forall i :: 0 <= i < |prior| ==> prior[i] == 0
    else Stride(f) <= base <= |s| && RowOk(f, s[base - Stride(f)..base], prior)
  }

  /** Rebuilds one row. */
  method BuildRow(out: array<Byte>, f: Format, base: nat, data: Row, filter: nat, first: bool, ghost prior: Row, stride: nat)
    requires FormatOk(f) && WidthOk(f) && stride == Stride(f) && base + stride <= out.Length
    requires filter <= 4 && |data| == Width(f) && PriorOk(f, out[..], base, first, prior)
    modifies out
    ensures 0 < StepOf(f) && |prior| == |data|
    ensures Same(out[..], old(out[..]), base, base + stride)
    ensures RowOk(f, out[base..base + stride], Unfiltered(filter, data, prior, StepOf(f)))
  {
    hide Unfiltered, Same, SpreadRow, Mul, Width, Fb, Ob, Above, AboveSpread, RowOk, PriorOk, Stride, StepOf;
    Sizes(f);
    PriorSize(f, out[..], base, first, prior);
    if SmallDepth(f.depth) || f.imgN == f.outN {
      BuildPacked(out, f, base, data, filter, first, prior, stride);
    } else {
      BuildSpread(out, f, base, data, filter, first, prior, stride);
    }
  }

  lemma PriorSize(f: Format, s: Row, base: nat, first: bool, prior: Row)
    requires PriorOk(f, s, base, first, prior)
    ensures |prior| == Width(f)
  {
  }

  method BuildPacked(out: array<Byte>, f: Format, base: nat, data: Row, filter: nat, first: bool, ghost prior: Row,
                     stride: nat)
    requires SideBySide(f) && 0 < StepOf(f) <= Width(f) <= stride && stride == Stride(f) && base + stride <= out.Length
    requires filter <= 4 && |data| == |prior| == Width(f) && PriorOk(f, out[..], base, first, prior)
    modifies out
    ensures Same(out[..], old(out[..]), base, base + stride)
    ensures RowOk(f, out[base..base + stride], Unfiltered(filter, data, prior, StepOf(f)))
  {
    hide Unfiltered, Same, SpreadRow, Mul, Width, Above, PriorOk, Stride, StepOf;
    ghost var before := out[..];
    var pad := stride - Width(f);
    AbovePacked(f, before, base, first, prior, pad);
    RebuildPacked(out, base + pad, stride, data, StepOf(f), filter, first, prior);
    Wider(out[..], before, base + pad, base + pad + Width(f), base, base + stride);
    ghost var t := out[base..base + stride];
    assert t[|t| - Width(f)..] == out[base + pad..base + stride];
  }

  method BuildSpread(out: array<Byte>, f: Format, base: nat, data: Row, filter: nat, first: bool, ghost prior: Row,
                     stride: nat)
    requires !SideBySide(f) && FormatOk(f) && WidthOk(f) && stride == Stride(f) && base + stride <= out.Length
    requires filter <= 4 && |data| == |prior| == Width(f) && PriorOk(f, out[..], base, first, prior)
    requires 0 < StepOf(f)
    modifies out
    ensures Same(out[..], old(out[..]), base, base + stride)
    ensures RowOk(f, out[base..base + stride], Unfiltered(filter, data, prior, StepOf(f)))
  {
    hide Unfiltered, Same, SpreadRow, Mul, Width, Fb, Ob, AboveSpread, PriorOk;
    Sizes(f);
    AboveSpreads(f, out[..], base, first, prior);
    RebuildSpread(out, base, f.x, data, Fb(f), Ob(f), filter, first, prior, stride);
  }

  lemma AbovePacked(f: Format, s: Row, base: nat, first: bool, prior: Row, pad: nat)
    requires PriorOk(f, s, base, first, prior) && SideBySide(f) && Width(f) <= Stride(f) && pad == Stride(f) - Width(f)
    requires base + Stride(f) <= |s|
    ensures Above(s, base + pad, Stride(f), first, prior)
  {
    hide Width, Stride;
    if !first {
      var t := s[base - Stride(f)..base];
      assert t[|t| - Width(f)..] == s[base - Width(f)..base];
    }
  }

  lemma AboveSpreads(f: Format, s: Row, base: nat, first: bool, prior: Row)
    requires PriorOk(f, s, base, first, prior) && !SideBySide(f) && base + Stride(f) <= |s|
    requires Width(f) == Mul(f.x, Fb(f))
    ensures AboveSpread(s, base, f.x, Fb(f), Ob(f), first, prior)
  {
    hide Width, Fb, Ob, Colors, Alpha, Mul;
  }

  // ---------- all rows ----------

  function Prepended(rows: seq<Row>, rest: Option<seq<Row>>): Option<seq<Row>>
  {
    if rest.None? then None else Some(rows + rest.value)
  }

  /** One step of reading rows. */
  lemma RowsNext(raw: Row, y: nat, width: nat, step: nat, prior: Row, rows: seq<Row>)
    requires 0 < step && |prior| == width && y > 0
    ensures Prepended(rows, RowsOf(raw, y, width, step, prior)) ==
            if |raw| < width + 1 || raw[0] > 4 then None
            else
              var row := Unfiltered(raw[0], raw[1..width + 1], prior, step);
              Prepended(rows + [row], RowsOf(raw[width + 1..], y - 1, width, step, row))
  {
    hide Unfiltered;
    if |raw| >= width + 1 && raw[0] <= 4 {
      var row := Unfiltered(raw[0], raw[1..width + 1], prior, step);
      var rest := RowsOf(raw[width + 1..], y - 1, width, step, row);
      if rest.Some? {
        assert rows + ([row] + rest.value) == rows + [row] + rest.value;
      }
    }
  }

  lemma RowsEnd(raw: Row, width: nat, step: nat, prior: Row, rows: seq<Row>)
    requires 0 < step && |prior| == width
    ensures Prepended(rows, RowsOf(raw, 0, width, step, prior)) == Some(rows)
    ensures forall y :: Prepended([], RowsOf(raw, y, width, step, prior)) == RowsOf(raw, y, width, step, prior)
  {
    assert rows + [] == rows;
    forall y: nat
      ensures Prepended([], RowsOf(raw, y, width, step, prior)) == RowsOf(raw, y, width, step, prior)
    {
      var r := RowsOf(raw, y, width, step, prior);
      if r.Some? {
        assert [] + r.value == r.value;
      }
    }
  }

  /** The data are long enough. */
  lemma {:induction false} RowsNeed(raw: Row, y: nat, width: nat, step: nat, prior: Row)
    requires 0 < step && |prior| == width && RowsOf(raw, y, width, step, prior).Some?
    ensures |raw| >= Mul(y, width + 1)
    decreases y
  {
    hide Unfiltered;
    if y > 0 {
      RowsNeed(raw[width + 1..], y - 1, width, step, Unfiltered(raw[0], raw[1..width + 1], prior, step));
    }
  }

  /** The state between two rows: j rows are built, the data from rp on are still to be read. */
  ghost predicate Between(f: Format, s: Row, raw: Row, j: nat, rp: nat, rows: seq<Row>, prior: Row, all: Option<seq<Row>>)
  {
    0 < StepOf(f) && |prior| == Width(f) && j <= f.y && |rows| == j && rp <= |raw| && Mul(j, Stride(f)) <= |s| &&
    Image(f, s[..Mul(j, Stride(f))], rows) && PriorOk(f, s, Mul(j, Stride(f)), j == 0, prior) &&
    all == Prepended(rows, RowsOf(raw[rp..], f.y - j, Width(f), StepOf(f), prior))
  }

  lemma BetweenStart(f: Format, s: Row, raw: Row)
    requires 0 < StepOf(f)
    ensures Between(f, s, raw, 0, 0, [], BlankRow(Width(f)), RowsOf(raw, f.y, Width(f), StepOf(f), BlankRow(Width(f))))
  {
    hide Width, StepOf, Stride, RowsOf, RowOk;
    RowsEnd(raw, Width(f), StepOf(f), BlankRow(Width(f)), []);
    assert raw[0..] == raw;
    NoPixels(Stride(f));
    assert s[..0] == [];
  }

  lemma BetweenNext(f: Format, now: Row, before: Row, raw: Row, j: nat, rp: nat, rows: seq<Row>, prior: Row,
                    all: Option<seq<Row>>, row: Row)
    requires Between(f, before, raw, j, rp, rows, prior, all) && j < f.y && rp + Width(f) + 1 <= |raw| && raw[rp] <= 4
    requires row == Unfiltered(raw[rp], raw[rp + 1..rp + Width(f) + 1], prior, StepOf(f))
    requires var base := Mul(j, Stride(f));
             base + Stride(f) <= |now| && Same(now, before, base, base + Stride(f)) && RowOk(f, now[base..base + Stride(f)], row)
    ensures Between(f, now, raw, j + 1, rp + Width(f) + 1, rows + [row], row, all)
  {
    hide Width, StepOf, Stride, RowsOf, RowOk, Image, Unfiltered, Mul, Prepended;
    var base, t := Mul(j, Stride(f)), raw[rp..];
    MulNext(j + 1, Stride(f));
    RowsNext(t, f.y - j, Width(f), StepOf(f), prior, rows);
    assert t[0] == raw[rp] && t[1..Width(f) + 1] == raw[rp + 1..rp + Width(f) + 1];
    assert t[Width(f) + 1..] == raw[rp + Width(f) + 1..];
    RowSize(f, now[base..base + Stride(f)], row);
    assert now[..base] == before[..base];
    assert now[..base + Stride(f)] == now[..base] + now[base..base + Stride(f)];
    ImageAppend(f, now[..base], rows, now[base..base + Stride(f)], row);
  }

  /** Reads and builds all rows; fails at the first filter above 4. */
  method BuildRows(out: array<Byte>, f: Format, raw: Row) returns (ok: bool, ghost rows: seq<Row>)
    requires FormatOk(f) && WidthOk(f) && out.Length == Mul(f.y, Stride(f)) && |raw| >= Mul(f.y, Width(f) + 1)
    modifies out
    ensures 0 < StepOf(f)
    ensures var all := RowsOf(raw, f.y, Width(f), StepOf(f), BlankRow(Width(f)));
            if ok then all == Some(rows) && Image(f, out[..], rows) else all == None
  {
    hide Width, StepOf, Stride, RowsOf, RowOk, Image, Unfiltered, Mul, Prepended, Same, PriorOk;
    Sizes(f);
    var stride, width := Stride(f), Width(f);
    ghost var prior := BlankRow(width);
    ghost var all := RowsOf(raw, f.y, width, StepOf(f), prior);
    rows := [];
    BetweenStart(f, out[..], raw);
    NoPixels(stride);
    NoPixels(width + 1);
    var j, base, rp := 0, 0, 0;
    while j < f.y
      invariant 0 <= j <= f.y && base == Mul(j, stride) && rp == Mul(j, width + 1)
      invariant Between(f, out[..], raw, j, rp, rows, prior, all)
    {
      MulGrows(j, f.y, stride);
      MulGrows(j, f.y, width + 1);
      RowsNext(raw[rp..], f.y - j, width, StepOf(f), prior, rows);
      var filter := raw[rp];
      if filter > 4 {
        return false, rows;
      }
      ghost var before := out[..];
      BuildRow(out, f, base, raw[rp + 1..rp + width + 1], filter, j == 0, prior, stride);
      ghost var row := Unfiltered(filter, raw[rp + 1..rp + width + 1], prior, StepOf(f));
      assert out[base..base + stride] == out[..][base..base + stride];
      BetweenNext(f, out[..], before, raw, j, rp, rows, prior, all, row);
      rows, prior := rows + [row], row;
      j, base, rp := j + 1, base + stride, rp + width + 1;
      MulNext(j, stride);
      MulNext(j, width + 1);
    }
    RowsEnd(raw[rp..], width, StepOf(f), prior, rows);
    assert out[..][..base] == out[..];
    return true, rows;
  }

  // ---------- expanding small samples ----------

  /** Gray samples are scaled to the range of a byte; palette indices are not. */
  function Scale(f: Format): nat
    requires SmallDepth(f.depth)
  {
    if f.color == 0 then DepthScale(f.depth) else 1
  }

  lemma SmallFacts(f: Format)
    requires FormatOk(f) && WidthOk(f) && SmallDepth(f.depth)
    ensures PackedSize(Mul(f.x, f.imgN), PerByte(f.depth)) == Width(f) <= Stride(f)
    ensures Fb(f) == f.imgN && Ob(f) == f.outN && Stride(f) == Mul(f.x, f.outN) && Mul(f.x, f.imgN) <= Mul(f.x, f.outN)
  {
    hide Mul, PackedSize, PerByte;
    Sizes(f);
    MulIsTimes(f.x, f.imgN);
    SmallWidth(f.imgN * f.x, f.depth);
    MulWider(f.x, f.imgN, f.outN);
    Swap(f.x, f.imgN);
  }

  lemma Swap(a: nat, b: nat)
    ensures a * b == b * a
  {
  }

  /** The finished bytes of a row: as rebuilt, or one byte per sample, with an opaque alpha channel if there is room. */
  ghost predicate FinalRow(f: Format, s: Row, row: Row)
  {
    if !SmallDepth(f.depth) then RowOk(f, s, row)
    else
      PackedSize(Mul(f.x, f.imgN), PerByte(f.depth)) <= |row| && |s| == Stride(f) &&
      var samples := Unpacked(row, Mul(f.x, f.imgN), f.depth, Scale(f));
      if f.imgN == f.outN then s == samples else SpreadRow(s, samples, f.x, f.imgN, f.outN)
  }

  ghost predicate FinalImage(f: Format, s: Row, rows: seq<Row>)
    decreases |rows|
  {
    if rows == [] then s == []
    else
      var n := |s| - Stride(f);
      n >= 0 && FinalRow(f, s[n..], rows[|rows| - 1]) && FinalImage(f, s[..n], rows[..|rows| - 1])
  }

  lemma FinalAppend(f: Format, s: Row, rows: seq<Row>, t: Row, row: Row)
    requires FinalImage(f, s, rows) && FinalRow(f, t, row) && |t| == Stride(f)
    ensures FinalImage(f, s + t, rows + [row])
  {
    hide FinalRow, Stride;
    assert (s + t)[|s|..] == t && (s + t)[..|s|] == s;
    assert (rows + [row])[..|rows|] == rows;
  }

  method ExpandImageRow(out: array<Byte>, f: Format, base: nat, stride: nat, ghost row: Row)
    requires FormatOk(f) && WidthOk(f) && SmallDepth(f.depth) && stride == Stride(f) && base + stride <= out.Length
    requires RowOk(f, out[base..base + stride], row)
    modifies out
    ensures Same(out[..], old(out[..]), base, base + stride)
    ensures FinalRow(f, out[base..base + stride], row)
  {
    hide Mul, PackedSize, PerByte, Same, Unpacked, SpreadRow, Width;
    SmallFacts(f);
    ghost var before := out[..];
    ghost var t := out[base..base + stride];
    assert t[|t| - Width(f)..] == out[base + stride - Width(f)..base + stride];
    var n := Mul(f.x, f.imgN);
    ExpandRow(out, base, stride, n, f.depth, Scale(f));
    if f.imgN != f.outN {
      ghost var mid := out[..];
      InsertAlpha(out, base, f.x, f.imgN);
      SameBoth(before, mid, out[..], base, base + stride);
    }
  }

  /** Row j of an image. */
  lemma {:induction false} ImageAt(f: Format, s: Row, rows: seq<Row>, j: nat)
    requires Image(f, s, rows) && j < |rows|
    ensures |s| == Mul(|rows|, Stride(f)) && Mul(j, Stride(f)) + Stride(f) <= |s|
    ensures RowOk(f, s[Mul(j, Stride(f))..Mul(j, Stride(f)) + Stride(f)], rows[j])
    decreases |rows|
  {
    hide Mul, Stride, RowOk;
    var n := |rows| - 1;
    var before := |s| - Stride(f);
    ImageSize(f, s[..before], rows[..n]);
    MulNext(|rows|, Stride(f));
    if j < n {
      ImageAt(f, s[..before], rows[..n], j);
      var lo := Mul(j, Stride(f));
      assert s[..before][lo..lo + Stride(f)] == s[lo..lo + Stride(f)];
    } else {
      assert s[before..] == s[before..before + Stride(f)];
    }
  }

  lemma {:induction false} ImageSize(f: Format, s: Row, rows: seq<Row>)
    requires Image(f, s, rows)
    ensures |s| == Mul(|rows|, Stride(f))
    decreases |rows|
  {
    hide Mul, Stride, RowOk;
    if rows == [] {
      NoPixels(Stride(f));
    } else {
      ImageSize(f, s[..|s| - Stride(f)], rows[..|rows| - 1]);
      MulNext(|rows|, Stride(f));
    }
  }

  method ExpandImage(out: array<Byte>, f: Format, ghost rows: seq<Row>)
    requires FormatOk(f) && WidthOk(f) && SmallDepth(f.depth) && |rows| == f.y && Image(f, out[..], rows)
    modifies out
    ensures FinalImage(f, out[..], rows)
  {
    hide Mul, Stride, RowOk, Image, FinalRow, Same, FinalImage;
    ghost var s := out[..];
    ImageSize(f, s, rows);
    NoPixels(Stride(f));
    FinalNone(f);
    assert s[..0] == [] && rows[..0] == [];
    var stride, j, base := Stride(f), 0, 0;
    while j < f.y
      invariant 0 <= j <= f.y && base == Mul(j, stride) && base <= out.Length
      invariant out[base..] == s[base..] && FinalImage(f, out[..base], rows[..j])
    {
      ImageAt(f, s, rows, j);
      ghost var now := out[..];
      assert out[base..base + stride] == s[base..base + stride] by {
        TailSame(now, s, base, base + stride);
        assert now[base..base + stride] == out[base..base + stride];
      }
      ExpandImageRow(out, f, base, stride, rows[j]);
      OneFinal(f, out[..], now, s, base, rows, j);
      j, base := j + 1, base + stride;
      MulNext(j, stride);
    }
    assert out[..base] == out[..] && rows[..j] == rows;
  }

  lemma OneFinal(f: Format, now: Row, before: Row, s: Row, base: nat, rows: seq<Row>, j: nat)
    requires base + Stride(f) <= |before| == |s| && j < |rows| && Same(now, before, base, base + Stride(f))
    requires before[base..] == s[base..] && FinalImage(f, before[..base], rows[..j])
    requires FinalRow(f, now[base..base + Stride(f)], rows[j])
    ensures now[base + Stride(f)..] == s[base + Stride(f)..] && FinalImage(f, now[..base + Stride(f)], rows[..j + 1])
  {
    hide Mul, Stride, FinalRow, FinalImage;
    var k := Stride(f);
    assert now[base + k..] == before[base + k..] == before[base..][k..] == s[base..][k..] == s[base + k..];
    assert now[..base + k] == before[..base] + now[base..base + k];
    assert rows[..j + 1] == rows[..j] + [rows[j]];
    FinalAppend(f, before[..base], rows[..j], now[base..base + k], rows[j]);
  }

  lemma FinalNone(f: Format)
    ensures FinalImage(f, [], [])
  {
  }

  lemma {:induction false} FinalOfImage(f: Format, s: Row, rows: seq<Row>)
    requires Image(f, s, rows) && !SmallDepth(f.depth)
    ensures FinalImage(f, s, rows)
    decreases |rows|
  {
    hide RowOk, Stride;
    if rows != [] {
      FinalOfImage(f, s[..|s| - Stride(f)], rows[..|rows| - 1]);
    }
  }

  /** The rows the data hold, if the image can be built from them. */
  function Decoded(f: Format, raw: Row): Option<seq<Row>>
    requires FormatOk(f)
  {
    if !WidthOk(f) then None
    else
      Sizes(f);
      RowsOf(raw, f.y, Width(f), StepOf(f), BlankRow(Width(f)))
  }

  // ---------- the order of bytes in the machine ----------

  /** The two bytes of every pair exchanged. */
  function Swapped(s: Row): (r: Row)
    ensures |r| == |s|
  {
    seq(|s|, i requires 0 <= i < |s| => if i % 2 == 1 then s[i - 1] else if i + 1 < |s| then s[i + 1] else s[i])
  }

  lemma SwappedTwice(s: Row)
    requires |s| % 2 == 0
    ensures Swapped(Swapped(s)) == s
  {
  }

  lemma SwappedAt(s: Row)
    requires |s| % 2 == 0
    ensures forall i: nat :: 2 * i + 1 < |s| ==> Swapped(s)[2 * i] == s[2 * i + 1] && Swapped(s)[2 * i + 1] == s[2 * i]
  {
  }

  /** Bytes of an image in the machine, in the order of the file: a machine may keep the low byte of a 16-bit sample first. */
  function Ordered(f: Format, s: Row, little: bool): (r: Row)
    ensures |r| == |s|
  {
    if f.depth == 16 && little then Swapped(s) else s
  }

  /** Stores each pair of bytes, high byte first, as a 16-bit number of the machine. */
  method ToNative(out: array<Byte>, n: nat, little: bool)
    requires out.Length == 2 * n
    modifies out
    ensures out[..] == if little then Swapped(old(out[..])) else old(out[..])
  {
    hide Swapped;
    ghost var goal := if little then Swapped(out[..]) else out[..];
    SwappedAt(out[..]);
    var i := 0;
    while i < n
      invariant 0 <= i <= n
      invariant forall k :: 0 <= k < 2 * i ==> out[k] == goal[k]
      invariant forall k :: 2 * i <= k < out.Length ==> out[k] == old(out[k])
    {
      var hi: nat, lo: nat := out[2 * i], out[2 * i + 1];
      var v := hi * 256 + lo;
      if little {
        out[2 * i], out[2 * i + 1] := v % 256, v / 256;
      } else {
        out[2 * i], out[2 * i + 1] := v / 256, v % 256;
      }
      i := i + 1;
    }
  }

  lemma Pairs(f: Format)
    requires f.depth == 16
    ensures Mul(f.y, Stride(f)) == 2 * Mul(f.y, Mul(f.x, f.outN))
  {
    hide Mul;
    MulTwice(f.x, f.outN);
    MulTwice(f.y, Mul(f.x, f.outN));
  }

  lemma {:induction false} MulTwice(n: nat, k: nat)
    ensures Mul(n, k * 2) == 2 * Mul(n, k) && Mul(n, 2 * k) == 2 * Mul(n, k)
    decreases n
  {
    if n > 0 {
      MulTwice(n - 1, k);
    }
  }

  /** Builds the image from its inflated data. It succeeds exactly if the data hold the rows (and small samples do not make
      a row wider than its pixels), and then the output holds those rows: their bytes as they are, or one byte per sample,
      with an opaque alpha channel where the output has one more; 16-bit samples in the order of the machine. */
  method CreateImageRaw(f: Format, raw: Row, little: bool) returns (ok: bool, out: array<Byte>, ghost rows: seq<Row>)
    requires FormatOk(f)
    ensures fresh(out) && out.Length == Mul(f.y, Stride(f))
    ensures if ok then Decoded(f, raw) == Some(rows) && FinalImage(f, Ordered(f, out[..], little), rows)
            else Decoded(f, raw) == None
  {
    hide Mul, Stride, Width, RowsOf, FinalImage, Image, StepOf, Swapped;
    out := new Byte[Mul(f.y, Stride(f))];
    rows := [];
    if !WidthOk(f) {
      return false, out, rows;
    }
    Sizes(f);
    if |raw| < Mul(f.y, Width(f) + 1) {
      TooShort(f, raw);
      return false, out, rows;
    }
    ok, rows := BuildRows(out, f, raw);
    if ok {
      if SmallDepth(f.depth) {
        ExpandImage(out, f, rows);
      } else {
        FinalOfImage(f, out[..], rows);
        if f.depth == 16 {
          Pairs(f);
          SwappedTwice(out[..]);
          ToNative(out, Mul(f.y, Mul(f.x, f.outN)), little);
        }
      }
    }
  }

  lemma TooShort(f: Format, raw: Row)
    requires 0 < StepOf(f) && |raw| < Mul(f.y, Width(f) + 1)
    ensures RowsOf(raw, f.y, Width(f), StepOf(f), BlankRow(Width(f))) == None
  {
    hide Mul, Width, StepOf, RowsOf;
    if RowsOf(raw, f.y, Width(f), StepOf(f), BlankRow(Width(f))).Some? {
      RowsNeed(raw, f.y, Width(f), StepOf(f), BlankRow(Width(f)));
    }
  }
}
