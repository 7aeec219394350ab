/** The order in which a GIF frame's pixels arrive (Appendix E of GIF89a), and what painting in that order yields. */
module GifRows {
  import opened Basics
  import opened Bits

  // ---------- row order ----------

  /** Rows y, y + step, ... below h. */
  function PassRows(y: nat, step: nat, h: nat): seq<nat>
    requires step > 0
    decreases h - y
  {
    if y >= h then [] else [y] + PassRows(y + step, step, h)
  }

  /** The passes still to come: with `parse` left, the next one takes every 2^parse-th row from 2^parse / 2. */
  function LaterPasses(parse: nat, h: nat): seq<nat>
  {
    if parse == 0 then [] else PassRows(Pow2(parse - 1), Pow2(parse), h) + LaterPasses(parse - 1, h)
  }

  /** Every 8th row from 0, every 8th from 4, every 4th from 2, every 2nd from 1. */
  function InterlacedRows(h: nat): seq<nat>
  {
    PassRows(0, 8, h) + (PassRows(4, 8, h) + (PassRows(2, 4, h) + PassRows(1, 2, h)))
  }

  function RowOrder(interlaced: bool, h: nat): seq<nat>
  {
    if interlaced then InterlacedRows(h) else PassRows(0, 1, h)
  }

  lemma InterlacedIsPasses(h: nat)
    ensures InterlacedRows(h) == PassRows(0, 8, h) + LaterPasses(3, h)
  {
    Pow2Values();
    var r1 := PassRows(1, 2, h);
    assert LaterPasses(0, h) == [];
    assert LaterPasses(1, h) == r1 + [] == r1;
    assert LaterPasses(2, h) == PassRows(2, 4, h) + r1;
    assert LaterPasses(3, h) == PassRows(4, 8, h) + (PassRows(2, 4, h) + r1);
  }

  lemma {:induction false} PassLength(y: nat, step: nat, h: nat)
    requires step > 0
    ensures y >= h ==> |PassRows(y, step, h)| == 0
    ensures y < h ==> h - y <= |PassRows(y, step, h)| * step < h - y + step
    decreases h - y
  {
    if y < h {
      PassLength(y + step, step, h);
      var n := |PassRows(y + step, step, h)|;
      assert (n + 1) * step == n * step + step;
    }
  }

  lemma {:induction false} PassAt(y: nat, step: nat, h: nat, k: nat)
    requires step > 0 && k < |PassRows(y, step, h)|
    ensures PassRows(y, step, h)[k] == y + k * step < h
    decreases h - y
  {
    if k > 0 {
      PassAt(y + step, step, h, k - 1);
      assert k * step == (k - 1) * step + step;
    }
  }

  /** Rows in the first n of the four passes. */
  function Before(n: nat, h: nat): nat
    requires n <= 3
  {
    if n == 0 then 0
    else if n == 1 then |PassRows(0, 8, h)|
    else if n == 2 then |PassRows(0, 8, h)| + |PassRows(4, 8, h)|
    else |PassRows(0, 8, h)| + |PassRows(4, 8, h)| + |PassRows(2, 4, h)|
  }

  function PassStart(n: nat): nat
  {
    if n == 0 then 0 else if n == 1 then 4 else if n == 2 then 2 else 1
  }

  function PassStep(n: nat): (s: nat)
    ensures s > 0
  {
    if n <= 1 then 8 else if n == 2 then 4 else 2
  }

  function Pass(n: nat, h: nat): seq<nat>
  {
    PassRows(PassStart(n), PassStep(n), h)
  }

  /** The pass that takes row y, and its place there. */
  function PassOf(y: nat): (n: nat)
    ensures n <= 3
  {
    if y % 8 == 0 then 0 else if y % 8 == 4 then 1 else if y % 4 == 2 then 2 else 3
  }

  function PlaceInPass(y: nat): nat
  {
    if PassOf(y) <= 1 then y / 8 else if PassOf(y) == 2 then y / 4 else y / 2
  }

  lemma RowSplit(y: nat)
    ensures y == PassStart(PassOf(y)) + PlaceInPass(y) * PassStep(PassOf(y))
  {
    var n := PassOf(y);
    if n <= 1 {
      assert y == 8 * (y / 8) + y % 8;
    } else if n == 2 {
      assert y == 4 * (y / 4) + y % 4;
    } else {
      OddRow(y);
    }
  }

  lemma OddRow(y: nat)
    requires PassOf(y) == 3
    ensures y == 2 * (y / 2) + 1
  {
    if y % 2 == 0 {
      EvenRow(y);
      if y % 4 == 0 {
        FourthRow(y);
      }
    }
  }

  lemma EvenRow(y: nat)
    requires y % 2 == 0
    ensures y % 4 == 0 || y % 4 == 2
  {
  }

  lemma FourthRow(y: nat)
    requires y % 4 == 0
    ensures y % 8 == 0 || y % 8 == 4
  {
  }

  lemma RowJoin(n: nat, k: nat)
    requires n <= 3
    ensures PassOf(PassStart(n) + k * PassStep(n)) == n && PlaceInPass(PassStart(n) + k * PassStep(n)) == k
  {
    hide PassOf, PlaceInPass;
    if n == 0 {
      Eights(k);
    } else if n == 1 {
      Eights(k);
    } else if n == 2 {
      Fours(k);
    } else {
      Twos(k);
    }
  }

  lemma Eights(k: nat)
    ensures PassOf(8 * k) == 0 && PlaceInPass(8 * k) == k && PassOf(4 + 8 * k) == 1 && PlaceInPass(4 + 8 * k) == k
  {
    Eighth(k, 0);
    Eighth(k, 4);
  }

  lemma Fours(k: nat)
    ensures PassOf(2 + 4 * k) == 2 && PlaceInPass(2 + 4 * k) == k
  {
  }

  lemma Twos(k: nat)
    ensures PassOf(1 + 2 * k) == 3 && PlaceInPass(1 + 2 * k) == k
  {
  }

  /** Where row y comes in the order. */
  function RowIndex(interlaced: bool, h: nat, y: nat): nat
  {
    if interlaced then Before(PassOf(y), h) + PlaceInPass(y) else y
  }

  /** Indexing four sequences laid end to end. */
  lemma FourParts(a: seq<nat>, b: seq<nat>, c: seq<nat>, d: seq<nat>, i: nat)
    ensures i < |a| ==> (a + (b + (c + d)))[i] == a[i]
    ensures i < |b| ==> (a + (b + (c + d)))[|a| + i] == b[i]
    ensures i < |c| ==> (a + (b + (c + d)))[|a| + |b| + i] == c[i]
    ensures i < |d| ==> (a + (b + (c + d)))[|a| + |b| + |c| + i] == d[i]
  {
  }

  /** The k-th row of pass n stands behind the earlier passes. */
  lemma PassPlaces(h: nat, n: nat, k: nat)
    requires n <= 3 && k < |Pass(n, h)|
    ensures Before(n, h) + k < |InterlacedRows(h)|
    ensures InterlacedRows(h)[Before(n, h) + k] == PassStart(n) + k * PassStep(n) < h
  {
    hide PassRows;
    FourParts(PassRows(0, 8, h), PassRows(4, 8, h), PassRows(2, 4, h), PassRows(1, 2, h), k);
    PassAt(PassStart(n), PassStep(n), h, k);
  }

  lemma PassReaches(y: nat, step: nat, h: nat, k: nat)
    requires step > 0 && y + k * step < h
    ensures k < |PassRows(y, step, h)|
  {
    var n := |PassRows(y, step, h)|;
    PassLength(y, step, h);
    MulLess(k, n, step);
  }

  lemma MulLess(k: nat, n: nat, step: nat)
    requires k * step < n * step
    ensures k < n
  {
  }

  /** Every row of the frame has its place in the order... */
  lemma EveryRowComes(interlaced: bool, h: nat, y: nat)
    requires y < h
    ensures RowIndex(interlaced, h, y) < |RowOrder(interlaced, h)|
    ensures RowOrder(interlaced, h)[RowIndex(interlaced, h, y)] == y
  {
    hide PassRows, InterlacedRows, Before, PassOf, PlaceInPass, PassStart, PassStep;
    if interlaced {
      RowSplit(y);
      PassReaches(PassStart(PassOf(y)), PassStep(PassOf(y)), h, PlaceInPass(y));
      PassPlaces(h, PassOf(y), PlaceInPass(y));
    } else {
      PassReaches(0, 1, h, y);
      PassAt(0, 1, h, y);
    }
  }

  /** ...and every place in the order is a different row of the frame. */
  lemma EveryPlaceIsARow(interlaced: bool, h: nat, i: nat)
    requires i < |RowOrder(interlaced, h)|
    ensures RowOrder(interlaced, h)[i] < h && RowIndex(interlaced, h, RowOrder(interlaced, h)[i]) == i
  {
    hide PassRows, InterlacedRows, Before, PassOf, PlaceInPass, PassStart, PassStep;
    if interlaced {
      var n := PassAtPlace(h, i);
      var k := i - Before(n, h);
      PassPlaces(h, n, k);
      RowJoin(n, k);
    } else {
      PassAt(0, 1, h, i);
    }
  }

  lemma PassAtPlace(h: nat, i: nat) returns (n: nat)
    requires i < |InterlacedRows(h)|
    ensures n <= 3 && Before(n, h) <= i < Before(n, h) + |Pass(n, h)|
  {
    hide PassRows;
    n := if i < Before(1, h) then 0 else if i < Before(2, h) then 1 else if i < Before(3, h) then 2 else 3;
  }

  lemma PassCounts(h: nat)
    ensures |PassRows(0, 8, h)| == (h + 7) / 8 && |PassRows(4, 8, h)| == (h + 3) / 8
    ensures |PassRows(2, 4, h)| == (h + 1) / 4 && |PassRows(1, 2, h)| == h / 2
  {
    hide PassRows;
    PassLength(0, 8, h);
    PassLength(4, 8, h);
    PassLength(2, 4, h);
    PassLength(1, 2, h);
  }

  lemma CountsAddUp(h: nat)
    ensures (h + 7) / 8 + (h + 3) / 8 + (h + 1) / 4 + h / 2 == h
  {
    var q, r := h / 8, h % 8;
    assert h == 8 * q + r;
    assert (h + 7) / 8 == q + (r + 7) / 8 && (h + 3) / 8 == q + (r + 3) / 8;
    assert (h + 1) / 4 == 2 * q + (r + 1) / 4 && h / 2 == 4 * q + r / 2;
  }

  /** The order has as many places as the frame has rows. */
  lemma RowCount(interlaced: bool, h: nat)
    ensures |RowOrder(interlaced, h)| == h
  {
    hide PassRows;
    PassLength(0, 1, h);
    PassCounts(h);
    CountsAddUp(h);
  }

  lemma OrderDistinct(interlaced: bool, h: nat)
    ensures Distinct(RowOrder(interlaced, h))
  {
    var rows := RowOrder(interlaced, h);
    forall i, j | 0 <= i < j < |rows|
      ensures rows[i] != rows[j]
    {
      EveryPlaceIsARow(interlaced, h, i);
      EveryPlaceIsARow(interlaced, h, j);
    }
  }

  // ---------- painting ----------

  /** A frame of w by h pixels at (left, top) in an image `width` pixels wide; four bytes a pixel. */
  datatype Frame = Frame(width: nat, height: nat, left: nat, top: nat, w: nat, h: nat)

  predicate FrameOk(f: Frame)
  {
    f.left + f.w <= f.width && f.top + f.h <= f.height
  }

  /** Pixel number of column x, row y of the frame. */
  function PixelAt(f: Frame, x: nat, y: nat): nat
  {
    (f.top + y) * f.width + (f.left + x)
  }

  lemma PixelInImage(f: Frame, x: nat, y: nat)
    requires FrameOk(f) && x < f.w && y < f.h
    ensures PixelAt(f, x, y) < f.width * f.height
  {
    NextLine(f.top + y, f.height, f.width);
  }

  lemma NextLine(a: nat, b: nat, w: nat)
    requires a < b
    ensures a * w + w <= b * w
  {
    var d := b - a - 1;
    assert b == a + 1 + d;
    assert b * w == a * w + w + d * w;
  }

  lemma PixelsDiffer(f: Frame, x: nat, y: nat, x': nat, y': nat)
    requires FrameOk(f) && x < f.w && x' < f.w && (x, y) != (x', y')
    ensures PixelAt(f, x, y) != PixelAt(f, x', y')
  {
    var a, b := f.top + y, f.top + y';
    if a < b {
      NextLine(a, b, f.width);
    } else if b < a {
      NextLine(b, a, f.width);
    }
  }

  /** A colour table: red, green, blue and alpha of each index. */
  ghost predicate ColorTable(colors: seq<Byte>)
  {
    |colors| == 1024
  }

  /** Whether index c shows at all. */
  predicate Opaque(colors: seq<Byte>, c: Byte)
    requires |colors| == 1024
  {
    colors[4 * c + 3] > 128
  }

  function Color(colors: seq<Byte>, c: Byte): (r: seq<Byte>)
    requires |colors| == 1024
    ensures |r| == 4
  {
    [colors[4 * c + 2], colors[4 * c + 1], colors[4 * c], colors[4 * c + 3]]
  }

  /** The image and the per-pixel marks of what this frame touched. */
  datatype Canvas = Canvas(img: seq<Byte>, hist: seq<Byte>)

  /** Pixel p is marked, and painted unless its colour is transparent. */
  function Put(colors: seq<Byte>, v: Canvas, p: nat, c: Byte): (r: Canvas)
    requires |colors| == 1024 && 4 * p + 4 <= |v.img| && p < |v.hist|
    ensures |r.img| == |v.img| && |r.hist| == |v.hist|
  {
    Canvas(if Opaque(colors, c) then v.img[..4 * p] + Color(colors, c) + v.img[4 * p + 4..] else v.img, v.hist[p := 1])
  }

  /** Colour and mark of one pixel. */
  function PixelOf(v: Canvas, p: nat): (seq<Byte>, Byte)
    requires 4 * p + 4 <= |v.img| && p < |v.hist|
  {
    (v.img[4 * p..4 * p + 4], v.hist[p])
  }

  lemma Splice(img: seq<Byte>, k: nat, c: seq<Byte>, m: nat)
    requires |c| == 4 && k + 4 <= |img| && m + 4 <= |img|
    ensures var r := img[..k] + c + img[k + 4..];
            (m == k ==> r[m..m + 4] == c) && (m + 4 <= k || k + 4 <= m ==> r[m..m + 4] == img[m..m + 4])
  {
  }

  lemma PutAt(colors: seq<Byte>, v: Canvas, p: nat, c: Byte, q: nat)
    requires |colors| == 1024 && 4 * p + 4 <= |v.img| && 4 * q + 4 <= |v.img| && p < |v.hist| && q < |v.hist|
    ensures PixelOf(Put(colors, v, p, c), q)
            == if q != p then PixelOf(v, q) else (if Opaque(colors, c) then Color(colors, c) else PixelOf(v, q).0, 1)
  {
    hide Color, Opaque;
    Splice(v.img, 4 * p, Color(colors, c), 4 * q);
  }

  ghost predicate CanvasOf(f: Frame, v: Canvas)
  {
    |v.img| == 4 * (f.width * f.height) && |v.hist| == f.width * f.height
  }

  /** The rows still to paint are rows of the frame. */
  ghost predicate RowsOk(f: Frame, rows: seq<nat>)
  {
    forall i :: 0 <= i < |rows| ==> rows[i] < f.h
  }

  /** Paint indices s from column x of the first of `rows`; what is left when the rows are full is dropped. */
  ghost function Paint(f: Frame, colors: seq<Byte>, v: Canvas, rows: seq<nat>, x: nat, s: seq<Byte>): (r: Canvas)
    requires FrameOk(f) && ColorTable(colors) && CanvasOf(f, v) && RowsOk(f, rows) && (rows != [] ==> x < f.w)
    ensures CanvasOf(f, r)
    decreases |s|
  {
    if s == [] || rows == [] then v
    else
      PixelInImage(f, x, rows[0]);
      var next := Put(colors, v, PixelAt(f, x, rows[0]), s[0]);
      if x + 1 < f.w then Paint(f, colors, next, rows, x + 1, s[1..])
      else Paint(f, colors, next, rows[1..], 0, s[1..])
  }

  /** Rows left and column after n indices. */
  function Moved(w: nat, rows: seq<nat>, x: nat, n: nat): (r: (seq<nat>, nat))
    requires rows != [] ==> x < w
    ensures r.0 != [] ==> r.1 < w
    decreases n
  {
    if n == 0 || rows == [] then (rows, x)
    else if x + 1 < w then Moved(w, rows, x + 1, n - 1)
    else Moved(w, rows[1..], 0, n - 1)
  }

  lemma {:induction false} MovedRowsOk(f: Frame, rows: seq<nat>, x: nat, n: nat)
    requires RowsOk(f, rows) && (rows != [] ==> x < f.w)
    ensures RowsOk(f, Moved(f.w, rows, x, n).0)
    decreases n
  {
    if n > 0 && rows != [] {
      if x + 1 < f.w {
        MovedRowsOk(f, rows, x + 1, n - 1);
      } else {
        MovedRowsOk(f, rows[1..], 0, n - 1);
      }
    }
  }

  lemma {:induction false} MovedAppend(w: nat, rows: seq<nat>, x: nat, m: nat, n: nat)
    requires rows != [] ==> x < w
    ensures var r := Moved(w, rows, x, m); Moved(w, rows, x, m + n) == Moved(w, r.0, r.1, n)
    decreases m
  {
    if m > 0 && rows != [] {
      if x + 1 < w {
        MovedAppend(w, rows, x + 1, m - 1, n);
      } else {
        MovedAppend(w, rows[1..], 0, m - 1, n);
      }
    }
  }

  /** Painting s and then t is painting s + t. */
  lemma {:induction false} PaintAppend(f: Frame, colors: seq<Byte>, v: Canvas, rows: seq<nat>, x: nat, s: seq<Byte>, t: seq<Byte>)
    requires FrameOk(f) && ColorTable(colors) && CanvasOf(f, v) && RowsOk(f, rows) && (rows != [] ==> x < f.w)
    ensures RowsOk(f, Moved(f.w, rows, x, |s|).0)
    ensures var m := Moved(f.w, rows, x, |s|);
            Paint(f, colors, v, rows, x, s + t) == Paint(f, colors, Paint(f, colors, v, rows, x, s), m.0, m.1, t)
    decreases |s|
  {
    hide PixelAt, Put, CanvasOf, FrameOk;
    MovedRowsOk(f, rows, x, |s|);
    if s == [] {
      assert s + t == t;
    } else if rows != [] {
      PixelInImage(f, x, rows[0]);
      CanvasSizes(f, v);
      var next := Put(colors, v, PixelAt(f, x, rows[0]), s[0]);
      PutKeeps(f, colors, v, PixelAt(f, x, rows[0]), s[0]);
      assert (s + t)[1..] == s[1..] + t;
      if x + 1 < f.w {
        PaintAppend(f, colors, next, rows, x + 1, s[1..], t);
      } else {
        PaintAppend(f, colors, next, rows[1..], 0, s[1..], t);
      }
    }
  }

  lemma CanvasSizes(f: Frame, v: Canvas)
    requires CanvasOf(f, v)
    ensures |v.img| == 4 * (f.width * f.height) && |v.hist| == f.width * f.height
  {
  }

  lemma PutKeeps(f: Frame, colors: seq<Byte>, v: Canvas, p: nat, c: Byte)
    requires ColorTable(colors) && CanvasOf(f, v) && p < f.width * f.height
    ensures |colors| == 1024 && CanvasOf(f, Put(colors, v, p, c))
  {
  }

  ghost predicate Distinct(rows: seq<nat>)
  {
    forall i, j :: 0 <= i < j < |rows| ==> rows[i] != rows[j]
  }

  /** How many indices after the cursor (row 0, column x) pixel (row k, column px) is painted. */
  function Offset(w: nat, x: nat, k: nat, px: nat): int
  {
    k * w + px - x
  }

  /** Each pixel ahead of the cursor gets exactly the index at its offset, and keeps it. */
  lemma {:induction false} PaintedPixel(f: Frame, colors: seq<Byte>, v: Canvas, rows: seq<nat>, x: nat, s: seq<Byte>,
                                        k: nat, px: nat)
    requires FrameOk(f) && ColorTable(colors) && CanvasOf(f, v) && RowsOk(f, rows) && Distinct(rows) && x < f.w
    requires k < |rows| && px < f.w
    ensures PixelAt(f, px, rows[k]) < f.width * f.height
    ensures var p := PixelAt(f, px, rows[k]); var i := Offset(f.w, x, k, px);
            PixelOf(Paint(f, colors, v, rows, x, s), p)
            == if 0 <= i < |s| then (if Opaque(colors, s[i]) then Color(colors, s[i]) else PixelOf(v, p).0, 1)
               else PixelOf(v, p)
    decreases |s|
  {
    hide PixelAt, Put, Color, Opaque, PixelOf, CanvasOf;
    PixelInImage(f, px, rows[k]);
    CanvasSizes(f, v);
    if s != [] {
      var q := PixelAt(f, x, rows[0]);
      var p := PixelAt(f, px, rows[k]);
      PixelInImage(f, x, rows[0]);
      var next := Put(colors, v, q, s[0]);
      assert CanvasOf(f, next) by { PutKeeps(f, colors, v, q, s[0]); }
      PutAt(colors, v, q, s[0], p);
      if (px, rows[k]) != (x, rows[0]) {
        PixelsDiffer(f, px, rows[k], x, rows[0]);
      }
      OffsetFacts(f.w, x, k, px);
      if x + 1 < f.w {
        PaintedPixel(f, colors, next, rows, x + 1, s[1..], k, px);
      } else if k > 0 {
        PaintedPixel(f, colors, next, rows[1..], 0, s[1..], k - 1, px);
      } else {
        PaintedElsewhere(f, colors, next, rows[1..], 0, s[1..], p, px, rows[0]);
      }
    }
  }

  lemma OffsetFacts(w: nat, x: nat, k: nat, px: nat)
    requires x < w && px < w
    ensures Offset(w, x, k, px) == 0 <==> k == 0 && px == x
    ensures Offset(w, x + 1, k, px) == Offset(w, x, k, px) - 1
    ensures k > 0 && x + 1 == w ==> Offset(w, 0, k - 1, px) == Offset(w, x, k, px) - 1
    ensures k == 0 && x + 1 == w && px != x ==> Offset(w, x, k, px) < 0
  {
    if k > 0 {
      assert k * w == (k - 1) * w + w;
      assert (k - 1) * w >= 0;
    }
  }

  /** Pixel p is none of those in the given rows of the frame. */
  ghost predicate Elsewhere(f: Frame, rows: seq<nat>, p: nat)
  {
    forall i, x :: 0 <= i < |rows| && 0 <= x < f.w ==> PixelAt(f, x, rows[i]) != p
  }

  /** Pixels outside the rows are left alone: other rows, and everything outside the frame. */
  lemma {:induction false} PaintedOutside(f: Frame, colors: seq<Byte>, v: Canvas, rows: seq<nat>, x: nat, s: seq<Byte>, p: nat)
    requires FrameOk(f) && ColorTable(colors) && CanvasOf(f, v) && RowsOk(f, rows) && (rows != [] ==> x < f.w)
    requires p < f.width * f.height && Elsewhere(f, rows, p)
    ensures PixelOf(Paint(f, colors, v, rows, x, s), p) == PixelOf(v, p)
    decreases |s|
  {
    hide PixelAt, Put, Color, Opaque, PixelOf, CanvasOf;
    CanvasSizes(f, v);
    if s != [] && rows != [] {
      var q := PixelAt(f, x, rows[0]);
      PixelInImage(f, x, rows[0]);
      var next := Put(colors, v, q, s[0]);
      assert CanvasOf(f, next) by { PutKeeps(f, colors, v, q, s[0]); }
      PutAt(colors, v, q, s[0], p);
      if x + 1 < f.w {
        PaintedOutside(f, colors, next, rows, x + 1, s[1..], p);
      } else {
        PaintedOutside(f, colors, next, rows[1..], 0, s[1..], p);
      }
    }
  }

  lemma PaintedElsewhere(f: Frame, colors: seq<Byte>, v: Canvas, rows: seq<nat>, x: nat, s: seq<Byte>, p: nat, px: nat, y: nat)
    requires FrameOk(f) && ColorTable(colors) && CanvasOf(f, v) && RowsOk(f, rows) && (rows != [] ==> x < f.w)
    requires px < f.w && p == PixelAt(f, px, y) < f.width * f.height && forall i :: 0 <= i < |rows| ==> rows[i] != y
    ensures PixelOf(Paint(f, colors, v, rows, x, s), p) == PixelOf(v, p)
  {
    hide PixelAt, Paint, CanvasOf, PixelOf;
    forall i, x' | 0 <= i < |rows| && 0 <= x' < f.w
      ensures PixelAt(f, x', rows[i]) != p
    {
      PixelsDiffer(f, px, y, x', rows[i]);
    }
    PaintedOutside(f, colors, v, rows, x, s, p);
  }

  /** A pixel of the canvas when index i of the image is painted on it, if there is one: it takes the colour of the index
      if that is opaque, and is marked in any case. */
  function Shown(colors: seq<Byte>, v: Canvas, p: nat, s: seq<Byte>, i: nat): (seq<Byte>, Byte)
    requires |colors| == 1024 && 4 * p + 4 <= |v.img| && p < |v.hist|
  {
    if i < |s| then (if Opaque(colors, s[i]) then Color(colors, s[i]) else PixelOf(v, p).0, 1) else PixelOf(v, p)
  }

  /** A frame painted from its first pixel: pixel (px, y) shows the index that comes at its place in the row order,
      whichever order is used, and no pixel is painted twice. */
  lemma FramePixel(f: Frame, colors: seq<Byte>, v: Canvas, interlaced: bool, s: seq<Byte>, px: nat, y: nat)
    requires FrameOk(f) && ColorTable(colors) && CanvasOf(f, v) && px < f.w && y < f.h
    ensures RowsOk(f, RowOrder(interlaced, f.h)) && PixelAt(f, px, y) < f.width * f.height
    ensures PixelOf(Paint(f, colors, v, RowOrder(interlaced, f.h), 0, s), PixelAt(f, px, y)) ==
            Shown(colors, v, PixelAt(f, px, y), s, RowIndex(interlaced, f.h, y) * f.w + px)
  {
    hide PixelAt, Paint, CanvasOf, PixelOf, RowIndex, RowOrder, Color, Opaque;
    OrderRowsOk(f, interlaced);
    OrderDistinct(interlaced, f.h);
    EveryRowComes(interlaced, f.h, y);
    PaintedPixel(f, colors, v, RowOrder(interlaced, f.h), 0, s, RowIndex(interlaced, f.h, y), px);
  }

  lemma OrderRowsOk(f: Frame, interlaced: bool)
    ensures RowsOk(f, RowOrder(interlaced, f.h))
  {
    forall i | 0 <= i < |RowOrder(interlaced, f.h)|
      ensures RowOrder(interlaced, f.h)[i] < f.h
    {
      EveryPlaceIsARow(interlaced, f.h, i);
    }
  }
}
