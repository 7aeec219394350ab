/** What PNG data mean byte by byte (RFC 2083): the filters, the passes and the samples, in other words than those in which
    the decoder and the encoder share them. */
module PngFormat {
  import opened Basics
  import opened PngFilter
  import opened PngRows
  import opened PngExpand
  import opened PngImage
  import opened PngInterlace
  import opened PngPixels

  // ---------- filters ----------

  /** The byte that a pixel of bpp bytes has to its left; zero at the edge. */
  function LeftOf(row: Row, i: nat, bpp: nat): Byte
    requires i < |row| && bpp > 0
  {
    if i < bpp then 0 else row[i - bpp]
  }

  /** Section 6 of RFC 2083 on the rebuilt bytes. Filter 0 leaves a byte, filter 1 adds the one to the left, filter 2 the
      one above, filter 3 the mean of both, rounded down, and filter 4 whichever is nearest to left + above - upper left:
      the left one unless another is nearer, then the one above unless the upper left one is nearer. */
  ghost predicate Rebuilt(filter: nat, raw: nat, left: nat, above: nat, corner: nat, byte: nat)
  {
    (filter == 0 ==> byte == raw) &&
    (filter == 1 ==> byte == (raw + left) % 256) &&
    (filter == 2 ==> byte == (raw + above) % 256) &&
    (filter == 3 ==> forall m: nat :: Mean(m, left, above) ==> byte == (raw + m) % 256) &&
    (filter == 4 ==> byte == (raw + Nearest(left, above, corner)) % 256)
  }

  /** The mean of two bytes, rounded down. */
  ghost predicate Mean(m: nat, left: nat, above: nat)
  {
    2 * m == left + above || 2 * m + 1 == left + above
  }

  /** The three distances are those of left + above - upper left. */
  function Nearest(left: nat, above: nat, corner: nat): nat
  {
    var a, b, c := Abs(above - corner), Abs(left - corner), Abs(left + above - corner - corner);
    if b < a || c < a then (if c < b then corner else above) else left
  }

  lemma RestoredIs(filter: nat, raw: Byte, left: Byte, above: Byte, corner: Byte)
    requires filter <= 4
    ensures Rebuilt(filter, raw, left, above, corner, Restored(filter, raw, left, above, corner))
  {
    hide Nearest, Mean, Restored;
    RestoredOthers(raw, left, above, corner);
    forall m: nat | Mean(m, left, above)
      ensures Restored(3, raw, left, above, corner) == (raw + m) % 256
    {
      RestoredMean(raw, left, above, corner, m);
    }
  }

  lemma RestoredOthers(raw: Byte, left: Byte, above: Byte, corner: Byte)
    ensures Restored(0, raw, left, above, corner) == raw
    ensures Restored(1, raw, left, above, corner) == (raw + left) % 256
    ensures Restored(2, raw, left, above, corner) == (raw + above) % 256
    ensures Restored(4, raw, left, above, corner) == (raw + Nearest(left, above, corner)) % 256
  {
    hide Nearest, Paeth;
    NearestIs(left, above, corner);
  }

  lemma RestoredMean(raw: Byte, left: Byte, above: Byte, corner: Byte, m: nat)
    requires Mean(m, left, above)
    ensures Restored(3, raw, left, above, corner) == (raw + m) % 256
  {
    Floor(left + above, m);
  }

  lemma Floor(sum: nat, m: nat)
    requires 2 * m == sum || 2 * m + 1 == sum
    ensures sum / 2 == m
  {
  }

  lemma NearestIs(left: Byte, above: Byte, corner: Byte)
    ensures Nearest(left, above, corner) == Paeth(left, above, corner)
  {
  }

  lemma {:induction false} RebuiltAt(filter: nat, raw: Row, prior: Row, bpp: nat, i: nat)
    requires bpp > 0 && |raw| <= |prior| && i < |raw| && filter <= 4
    ensures var row := Unfiltered(filter, raw, prior, bpp);
            Rebuilt(filter, raw[i], LeftOf(row, i, bpp), prior[i], LeftOf(prior, i, bpp), row[i])
    decreases |raw|
  {
    hide Restored, Rebuilt;
    var n := |raw| - 1;
    var row := Unfiltered(filter, raw[..n], prior, bpp);
    assert Unfiltered(filter, raw, prior, bpp)[..n] == row;
    if i < n {
      RebuiltAt(filter, raw[..n], prior, bpp, i);
    } else {
      RestoredIs(filter, raw[n], Before(row, n, bpp), prior[n], Before(prior, n, bpp));
    }
  }

  /** Whether byte i of row y stands as the filter before its row says, with the given row above the first one. */
  ghost predicate ByteRebuilt(raw: Row, rows: seq<Row>, width: nat, bpp: nat, prior: Row, y: nat, i: nat)
    requires y < |rows| && i < width && bpp > 0 && |prior| == width && forall j :: 0 <= j < |rows| ==> |rows[j]| == width
  {
    var at, above := Mul(y, width + 1), ([prior] + rows)[y];
    at + 1 + i < |raw| && raw[at] <= 4 &&
    Rebuilt(raw[at], raw[at + 1 + i], LeftOf(rows[y], i, bpp), above[i], LeftOf(above, i, bpp), rows[y][i])
  }

  lemma FirstRow(raw: Row, rows: seq<Row>, width: nat, bpp: nat, prior: Row)
    requires bpp > 0 && |prior| == width && RowsOf(raw, |rows|, width, bpp, prior) == Some(rows) && rows != []
    ensures |raw| > width && raw[0] <= 4 && rows[0] == Unfiltered(raw[0], raw[1..width + 1], prior, bpp)
    ensures RowsOf(raw[width + 1..], |rows[1..]|, width, bpp, rows[0]) == Some(rows[1..])
  {
    hide Unfiltered;
  }

  lemma FirstRebuilt(raw: Row, rows: seq<Row>, width: nat, bpp: nat, prior: Row, i: nat)
    requires bpp > 0 && |prior| == width && RowsOf(raw, |rows|, width, bpp, prior) == Some(rows) && rows != [] && i < width
    ensures ByteRebuilt(raw, rows, width, bpp, prior, 0, i)
  {
    hide Rebuilt, Unfiltered, RowsOf;
    FirstRow(raw, rows, width, bpp, prior);
    RebuiltAt(raw[0], raw[1..width + 1], prior, bpp, i);
  }

  lemma LaterRebuilt(raw: Row, rows: seq<Row>, width: nat, bpp: nat, prior: Row, y: nat, i: nat)
    requires bpp > 0 && |prior| == width && 0 < y < |rows| && i < width && |raw| > width
    requires forall j :: 0 <= j < |rows| ==> |rows[j]| == width
    requires ByteRebuilt(raw[width + 1..], rows[1..], width, bpp, rows[0], y - 1, i)
    ensures ByteRebuilt(raw, rows, width, bpp, prior, y, i)
  {
    hide Rebuilt;
    MulNext(y, width + 1);
    assert ([prior] + rows)[y] == ([rows[0]] + rows[1..])[y - 1];
  }

  lemma {:induction false} RowsRebuilt(raw: Row, rows: seq<Row>, width: nat, bpp: nat, prior: Row, y: nat, i: nat)
    requires bpp > 0 && |prior| == width && RowsOf(raw, |rows|, width, bpp, prior) == Some(rows) && y < |rows| && i < width
    ensures ByteRebuilt(raw, rows, width, bpp, prior, y, i)
    decreases y
  {
    hide ByteRebuilt, RowsOf;
    if y == 0 {
      FirstRebuilt(raw, rows, width, bpp, prior, i);
    } else {
      FirstRow(raw, rows, width, bpp, prior);
      RowsRebuilt(raw[width + 1..], rows[1..], width, bpp, rows[0], y - 1, i);
      LaterRebuilt(raw, rows, width, bpp, prior, y, i);
    }
  }

  /** All bytes of the rows that the decoder finds are those of the standard, over a first row of zeros; the left
      neighbour is a whole pixel back, or one byte back for samples smaller than a byte. */
  lemma DataRebuilt(f: Format, raw: Row, rows: seq<Row>, bpp: nat, y: nat, i: nat)
    requires FormatOk(f) && Decoded(f, raw) == Some(rows) && y < f.y && i < Width(f)
    requires if f.depth < 8 then bpp == 1 else 8 * bpp == f.imgN * f.depth
    ensures |rows| == f.y && forall j :: 0 <= j < f.y ==> |rows[j]| == Width(f)
    ensures bpp > 0 && ByteRebuilt(raw, rows, Width(f), bpp, seq(Width(f), k => 0), y, i)
  {
    hide ByteRebuilt, RowsOf, Width;
    Sizes(f);
    StepIs(f, bpp);
    assert BlankRow(Width(f)) == seq(Width(f), k => 0);
    RowsRebuilt(raw, rows, Width(f), bpp, BlankRow(Width(f)), y, i);
  }

  lemma StepIs(f: Format, bpp: nat)
    requires FormatOk(f) && if f.depth < 8 then bpp == 1 else 8 * bpp == f.imgN * f.depth
    ensures StepOf(f) == bpp
  {
  }

  lemma OneByte(filter: nat, b: Byte, up: Byte)
    ensures Unfiltered(filter, [b], [up], 1) == [Restored(filter, b, 0, up, 0)]
  {
    hide Restored;
    assert [b][..0] == [];
  }

  lemma OneRow(filter: nat, b: Byte, more: Row, y: nat, up: Byte)
    requires filter <= 4 && y > 0
    ensures var row: Row := [Restored(filter, b, 0, up, 0)];
            var rest := RowsOf(more, y - 1, 1, 1, row);
            RowsOf([filter, b] + more, y, 1, 1, [up]) == if rest.None? then None else Some([row] + rest.value)
  {
    hide Restored, Unfiltered;
    OneByte(filter, b, up);
    var raw := [filter, b] + more;
    assert raw[1..2] == [b] && raw[2..] == more;
  }

  /** A column of two grey pixels, the second under the mean filter: half of the one above, rounded down, is added. */
  lemma GreyColumn(a: Byte, b: Byte)
    ensures var f := Format(1, 2, 1, 1, 8, 0);
            FormatOk(f) && Decoded(f, [0, a, 3, b]) == Some([[a], [(b + a / 2) % 256]])
  {
    hide RowsOf;
    var f := Format(1, 2, 1, 1, 8, 0);
    assert Width(f) == 1 && BlankRow(1) == [0];
    OneRow(0, a, [3, b], 2, 0);
    OneRow(3, b, [], 1, a);
    var last: Row, none: seq<Row> := [(b + a / 2) % 256], [];
    assert [3, b] == [3, b] + [] && [last] + none == [last];
    assert Restored(0, a, 0, 0, 0) == a && Restored(3, b, 0, a, 0) == last[0];
    NoRows([], last);
    assert RowsOf([3, b], 1, 1, 1, [a]) == Some([last]);
    assert [0, a, 3, b] == [0, a] + [3, b] && [[a]] + [last] == [[a], last];
  }

  lemma NoRows(raw: Row, prior: Row)
    requires |prior| == 1
    ensures RowsOf(raw, 0, 1, 1, prior) == Some([])
  {
  }

  /** The rows of unfiltered data: a zero before each. */
  function Plain(rows: seq<Row>): Row
  {
    if rows == [] then [] else [0] + rows[0] + Plain(rows[1..])
  }

  lemma UnfilteredRow(row: Row, prior: Row, bpp: nat)
    requires bpp > 0 && |row| <= |prior|
    ensures Unfiltered(0, row, prior, bpp) == row
  {
    forall i | 0 <= i < |row|
      ensures Unfiltered(0, row, prior, bpp)[i] == row[i]
    {
      RebuiltAt(0, row, prior, bpp, i);
    }
  }

  /** They are read as they stand. */
  lemma {:induction false} PlainRowsRead(rows: seq<Row>, width: nat, step: nat, prior: Row)
    requires step > 0 && |prior| == width && forall i :: 0 <= i < |rows| ==> |rows[i]| == width
    ensures RowsOf(Plain(rows), |rows|, width, step, prior) == Some(rows)
    decreases |rows|
  {
    hide Unfiltered;
    if rows != [] {
      var raw := Plain(rows);
      assert raw == [0] + (rows[0] + Plain(rows[1..]));
      assert raw[1..width + 1] == rows[0] && raw[width + 1..] == Plain(rows[1..]);
      UnfilteredRow(rows[0], prior, step);
      PlainRowsRead(rows[1..], width, step, rows[0]);
      assert rows == [rows[0]] + rows[1..];
    }
  }

  // ---------- widths and samples ----------

  /** A row takes as many bytes as its bits need. */
  lemma WidthIsLeast(f: Format)
    ensures 8 * Width(f) >= f.imgN * f.x * f.depth > 8 * (Width(f) - 1)
  {
  }

  /** The scale takes the largest sample to 255. */
  lemma FullScale(depth: nat)
    requires SmallDepth(depth)
    ensures DepthScale(depth) * (if depth == 1 then 1 else if depth == 2 then 3 else 15) == 255
    ensures PerByte(depth) * depth == 8
  {
  }

  /** Grey samples that are smaller than a byte come out in proportion, the largest one as 255; palette indices come out as
      they are. */
  lemma SmallShown(f: Format, v: Pixel, c: nat)
    requires FormatOk(f) && SmallDepth(f.depth) && PixelOk(f, v) && c < f.imgN
    ensures |Shown(f, v)| == f.outN && Levels(f.depth) > 1
    ensures f.color == 0 ==> Proportional(Shown(f, v)[c], v[c], Levels(f.depth))
    ensures f.color != 0 ==> Shown(f, v)[c] == v[c]
  {
    PixelSizes(f);
  }

  predicate Proportional(byte: nat, sample: nat, levels: nat)
  {
    byte * (levels - 1) == 255 * sample
  }

  /** Eight-bit colour pixels come out with a fourth byte 255, 16-bit ones with two such bytes; 16-bit samples have their
      higher byte first. */
  lemma AlphaBytes(f: Format, row: Row, i: nat)
    requires FormatOk(f) && WidthOk(f) && |row| == Width(f) && i < f.x && f.imgN == 3 && f.outN == 4
    ensures f.depth == 8 ==>
              Mul(i, 3) + 3 <= |row| && OutPixel(f, row, i) == row[Mul(i, 3)..Mul(i, 3) + 3] + [255]
    ensures f.depth == 16 ==>
              Mul(i, 6) + 6 <= |row| && OutPixel(f, row, i) == row[Mul(i, 6)..Mul(i, 6) + 6] + [255, 255]
  {
    hide Mul, Width, Unpacked;
    PixelFits(f, i);
  }

  /** In the machine the first byte of a 16-bit sample counts 256 times as much as the second, or the other way round. */
  lemma MachineNumber(f: Format, s: Row, k: nat, little: bool)
    requires f.depth == 16 && |s| % 2 == 0 && 2 * k + 1 < |s|
    ensures Number(Ordered(f, s, little), k, little) == Number(s, k, false)
  {
    SwappedAt(s);
  }

  /** The k-th number of two bytes. */
  function Number(s: Row, k: nat, little: bool): nat
    requires 2 * k + 1 < |s|
  {
    var a: nat, b: nat := s[2 * k], s[2 * k + 1];
    if little then a + 256 * b else 256 * a + b
  }

  /** Samples of two bytes have the higher one first; of smaller ones, the first stands at the high end of its byte. */
  lemma SamplesPacked(a: nat, b: nat)
    requires a < 16 && b < 16
    ensures DataRow(16, [256 * a + b]) == [a, b] && DataRow(8, [a]) == [a] && DataRow(4, [a, b]) == [16 * a + b]
    ensures DataRow(4, [a]) == [16 * a]
    ensures a < 4 && b < 4 ==> DataRow(2, [a, b]) == [64 * a + 16 * b]
    ensures a < 2 && b < 2 ==> DataRow(1, [a, b]) == [128 * a + 64 * b]
  {
  }

  // ---------- passes ----------

  /** Section 2.6 of RFC 2083: the passes of a square of eight by eight pixels, counted from zero. */
  const ADAM7: seq<seq<nat>> := [
    [0, 5, 3, 5, 1, 5, 3, 5],
    [6, 6, 6, 6, 6, 6, 6, 6],
    [4, 5, 4, 5, 4, 5, 4, 5],
    [6, 6, 6, 6, 6, 6, 6, 6],
    [2, 5, 3, 5, 2, 5, 3, 5],
    [6, 6, 6, 6, 6, 6, 6, 6],
    [4, 5, 4, 5, 4, 5, 4, 5],
    [6, 6, 6, 6, 6, 6, 6, 6]]

  lemma Half(q: nat, r: nat)
    requires r < 2
    ensures (2 * q + r) % 2 == r
  {
  }

  lemma OddOf(n: nat)
    ensures Odd(n) <==> n % 8 == 1 || n % 8 == 3 || n % 8 == 5 || n % 8 == 7
  {
    var q, r := n / 8, n % 8;
    Half(4 * q + r / 2, r % 2);
  }

  lemma TwoOf(n: nat)
    ensures TwoOfFour(n) <==> n % 8 == 2 || n % 8 == 6
  {
    var q, r := n / 8, n % 8;
    if r < 4 {
      Fourth(2 * q, r);
    } else {
      Fourth(2 * q + 1, r - 4);
    }
  }

  lemma Remainders(n: nat)
    ensures Odd(n) <==> n % 8 == 1 || n % 8 == 3 || n % 8 == 5 || n % 8 == 7
    ensures TwoOfFour(n) <==> n % 8 == 2 || n % 8 == 6
    ensures FourOfEight(n) <==> n % 8 == 4
  {
    hide Odd, TwoOfFour;
    OddOf(n);
    TwoOf(n);
  }

  /** The pass of every pixel is the one in the square, and within it the pixels keep their order. */
  lemma PassInSquare(x: nat, y: nat)
    ensures PassOf(x, y) == ADAM7[y % 8][x % 8]
  {
    hide Odd, TwoOfFour, FourOfEight;
    Remainders(x);
    Remainders(y);
    var c, r := x % 8, y % 8;
    assert r == 0 || r == 1 || r == 2 || r == 3 || r == 4 || r == 5 || r == 6 || r == 7;
    assert c == 0 || c == 1 || c == 2 || c == 3 || c == 4 || c == 5 || c == 6 || c == 7;
  }
  lemma PassOrder(p: nat, i: nat)
    requires p < 7
    ensures X(p, i) < X(p, i + 1) && Y(p, i) < Y(p, i + 1)
  {
  }

  /** Pixels are numbered row by row. */
  lemma RowMajor(x: nat, y: nat, w: nat)
    ensures Flat(0, 0, w) == 0 && Flat(x + 1, y, w) == Flat(x, y, w) + 1 && Flat(0, y + 1, w) == Flat(0, y, w) + w
  {
  }

  /** Small samples are refused exactly when a pixel takes more than a byte. */
  lemma SmallPixels(f: Format)
    requires FormatOk(f)
    ensures WidthOk(f) <==> f.depth >= 8 || f.imgN * f.depth <= 8
  {
  }
}
