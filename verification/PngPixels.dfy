/** The pixels of a PNG image: what an output pixel is made of, and an image's way through the seven passes and back. */
module PngPixels {
  import opened Basics
  import opened PngFilter
  import opened PngRows
  import opened PngExpand
  import opened PngImage
  import opened PngInterlace

  // ---------- the pixels of a row ----------

  function Opaque(n: nat): (r: Row)
    ensures |r| == n && forall i :: 0 <= i < n ==> r[i] == 255
  {
    seq(n, _ => 255)
  }

  lemma PixelFits(f: Format, i: nat)
    requires FormatOk(f) && WidthOk(f) && i < f.x
    ensures Fb(f) <= Ob(f)
    ensures SmallDepth(f.depth) ==>
              PackedSize(Mul(f.x, f.imgN), PerByte(f.depth)) == Width(f) && Mul(i, f.imgN) + f.imgN <= Mul(f.x, f.imgN)
    ensures !SmallDepth(f.depth) ==> Mul(i, Fb(f)) + Fb(f) <= Width(f)
  {
    hide Mul, Width;
    PixelSizes(f);
    Sizes(f);
    MulGrows(i, f.x, f.imgN);
    MulGrows(i, f.x, Fb(f));
    if SmallDepth(f.depth) {
      SmallFacts(f);
    }
  }

  /** Pixel i of a row of data in the output: its bytes, or one byte for each small sample, and an opaque alpha. */
  function OutPixel(f: Format, row: Row, i: nat): Row
    requires FormatOk(f) && WidthOk(f) && |row| == Width(f) && i < f.x
  {
    PixelFits(f, i);
    (if SmallDepth(f.depth) then
       Unpacked(row, Mul(f.x, f.imgN), f.depth, Scale(f))[Mul(i, f.imgN)..Mul(i, f.imgN) + f.imgN]
     else row[Mul(i, Fb(f))..Mul(i, Fb(f)) + Fb(f)])
    + Opaque(Ob(f) - Fb(f))
  }

  lemma {:induction false} ColorsAt(s: Row, row: Row, x: nat, fb: nat, ob: nat, i: nat)
    requires Colors(s, row, x, fb, ob) && fb <= ob && i < x
    ensures Mul(i, ob) + ob <= |s| && Mul(i, fb) + fb <= |row|
    ensures s[Mul(i, ob)..Mul(i, ob) + fb] == row[Mul(i, fb)..Mul(i, fb) + fb]
    decreases x
  {
    hide Mul;
    ColorsSize(s, row, x, fb, ob);
    MulNext(x, ob);
    MulNext(x, fb);
    if i < x - 1 {
      ColorsAt(s[..|s| - ob], row[..|row| - fb], x - 1, fb, ob, i);
      var a, b := Mul(i, ob), Mul(i, fb);
      assert s[..|s| - ob][a..a + fb] == s[a..a + fb] && row[..|row| - fb][b..b + fb] == row[b..b + fb];
    }
  }

  lemma {:induction false} AlphaAt(s: Row, x: nat, at: nat, ob: nat, i: nat)
    requires Alpha(s, x, at, ob) && at < ob && i < x
    ensures Mul(i, ob) + ob <= |s| && s[Mul(i, ob) + at] == 255
    decreases x
  {
    hide Mul;
    AlphaSize(s, x, at, ob);
    MulNext(x, ob);
    if i < x - 1 {
      AlphaAt(s[..|s| - ob], x - 1, at, ob, i);
    }
  }

  /** A pixel with an alpha channel. */
  lemma SpreadPixelAt(s: Row, row: Row, x: nat, fb: nat, ob: nat, i: nat)
    requires SpreadRow(s, row, x, fb, ob) && (ob == fb + 1 || ob == fb + 2) && i < x
    ensures Mul(i, ob) + ob <= |s| && Mul(i, fb) + fb <= |row|
    ensures s[Mul(i, ob)..Mul(i, ob) + ob] == row[Mul(i, fb)..Mul(i, fb) + fb] + Opaque(ob - fb)
  {
    hide Mul, Colors, Alpha;
    ColorsAt(s, row, x, fb, ob, i);
    AlphaAt(s, x, fb, ob, i);
    if ob == fb + 2 {
      AlphaAt(s, x, fb + 1, ob, i);
    }
    var a := Mul(i, ob);
    TwoParts(s, a, fb, ob);
    assert s[a + fb..a + ob] == Opaque(ob - fb);
  }

  lemma TwoParts(s: Row, a: nat, n: nat, m: nat)
    requires n <= m && a + m <= |s|
    ensures s[a..a + m] == s[a..a + n] + s[a + n..a + m]
  {
  }

  lemma RowPixel(f: Format, s: Row, row: Row, i: nat)
    requires FormatOk(f) && WidthOk(f) && |row| == Width(f) && i < f.x && FinalRow(f, s, row)
    ensures Mul(i, Ob(f)) + Ob(f) <= |s| && s[Mul(i, Ob(f))..Mul(i, Ob(f)) + Ob(f)] == OutPixel(f, row, i)
  {
    hide Mul, Width, SpreadRow, Unpacked, PackedSize, Fb, Ob;
    PixelFits(f, i);
    PixelSizes(f);
    Sizes(f);
    MulGrows(i, f.x, Ob(f));
    var a := Mul(i, Ob(f));
    if SmallDepth(f.depth) {
      SmallFacts(f);
      var samples := Unpacked(row, Mul(f.x, f.imgN), f.depth, Scale(f));
      if f.imgN == f.outN {
        assert s[a..a + Ob(f)] == s[a..a + Ob(f)] + Opaque(0);
      } else {
        SpreadPixelAt(s, samples, f.x, f.imgN, f.outN, i);
      }
    } else if f.imgN == f.outN {
      assert s[|s| - Width(f)..] == s;
      assert s[a..a + Ob(f)] == s[a..a + Ob(f)] + Opaque(0);
    } else {
      SpreadPixelAt(s, row, f.x, Fb(f), Ob(f), i);
    }
  }

  // ---------- the pixels of an image ----------

  lemma {:induction false} FinalSize(f: Format, s: Row, rows: seq<Row>)
    requires FinalImage(f, s, rows)
    ensures |s| == Mul(|rows|, Stride(f))
    decreases |rows|
  {
    hide Mul, Stride, FinalRow;
    if rows == [] {
      NoPixels(Stride(f));
    } else {
      FinalSize(f, s[..|s| - Stride(f)], rows[..|rows| - 1]);
      MulNext(|rows|, Stride(f));
    }
  }

  lemma FinalSplit(f: Format, s: Row, rows: seq<Row>) returns (before: nat)
    requires FinalImage(f, s, rows) && rows != []
    ensures before + Stride(f) == |s| && FinalImage(f, s[..before], rows[..|rows| - 1])
    ensures FinalRow(f, s[before..before + Stride(f)], rows[|rows| - 1])
  {
    hide Stride, FinalRow;
    before := |s| - Stride(f);
    assert s[before..] == s[before..before + Stride(f)];
  }

  lemma {:induction false} FinalAt(f: Format, s: Row, rows: seq<Row>, j: nat)
    requires FinalImage(f, s, rows) && j < |rows|
    ensures Mul(j, Stride(f)) + Stride(f) <= |s|
    ensures FinalRow(f, s[Mul(j, Stride(f))..Mul(j, Stride(f)) + Stride(f)], rows[j])
    decreases |rows|
  {
    hide Mul, Stride, FinalRow, FinalImage;
    var n, k := |rows| - 1, Stride(f);
    var before := FinalSplit(f, s, rows);
    FinalSize(f, s[..before], rows[..n]);
    MulNext(|rows|, k);
    if j < n {
      FinalAt(f, s[..before], rows[..n], j);
      InFront(s, Mul(j, k), k, before);
    }
  }

  lemma SliceOfSlice(s: Row, a: nat, n: nat, b: nat, m: nat)
    requires a + n <= |s| && b + m <= n
    ensures s[a..a + n][b..b + m] == s[a + b..a + b + m]
  {
    var t, u := s[a..a + n], s[a..a + n][b..b + m];
    assert forall k :: 0 <= k < m ==> u[k] == t[b + k] == s[a + b + k];
  }

  /** Every pixel of a finished image, in the order of the file. */
  lemma ImagePixel(f: Format, s: Row, rows: seq<Row>, i: nat, j: nat)
    requires FormatOk(f) && WidthOk(f) && FinalImage(f, s, rows) && i < f.x && j < |rows| && |rows[j]| == Width(f)
    ensures PixelBytes(s, Flat(i, j, f.x), Ob(f)) == OutPixel(f, rows[j], i)
  {
    hide Mul, FinalRow, FinalImage, Ob, OutPixel, Width, WidthOk, FormatOk;
    FinalAt(f, s, rows, j);
    FinalSize(f, s, rows);
    var a, b := Mul(j, Stride(f)), Mul(i, Ob(f));
    RowPixel(f, s[a..a + Stride(f)], rows[j], i);
    MulAdd(Mul(j, f.x), i, Ob(f));
    MulAssoc(j, f.x, Ob(f));
    PixelThere(i, j, f.x, |rows|, Ob(f));
    SliceOfSlice(s, a, Stride(f), b, Ob(f));
  }

  lemma SwappedSlice(s: Row, a: nat, b: nat)
    requires a <= b <= |s| && a % 2 == 0 && b % 2 == 0
    ensures Swapped(s)[a..b] == Swapped(s[a..b])
  {
  }

  lemma MulEven(n: nat, k: nat)
    requires k % 2 == 0
    ensures Mul(n, k) % 2 == 0
  {
    hide Mul;
    MulTwice(n, k / 2);
    assert k == 2 * (k / 2);
  }

  /** The order of bytes is that of each pixel. */
  lemma OrderedPixel(f: Format, s: Row, n: nat, little: bool)
    requires FormatOk(f)
    ensures PixelBytes(Ordered(f, s, little), n, Ob(f)) == Ordered(f, PixelBytes(s, n, Ob(f)), little)
  {
    hide Mul, Swapped;
    if f.depth == 16 && Mul(n, Ob(f)) + Ob(f) <= |s| {
      MulEven(n, Ob(f));
      SwappedSlice(s, Mul(n, Ob(f)), Mul(n, Ob(f)) + Ob(f));
    }
  }

  // ---------- the pixels of an interlaced image ----------

  lemma PassPlace(f: Format, x: nat, y: nat)
    requires FormatOk(f) && x < f.x && y < f.y
    ensures var p := PassOf(x, y);
            !EmptyPass(f, p) && 0 <= Col(p, x) < PassFormat(f, p).x && 0 <= Line(p, y) < PassFormat(f, p).y &&
            FormatOk(PassFormat(f, p)) && Ob(PassFormat(f, p)) == Ob(f)
  {
    hide Col, Line, PassOf, PassWidth, PassHeight;
    PixelCovered(f.x, f.y, x, y);
    PassOk(f, PassOf(x, y));
  }

  predicate AllWide(rows: seq<Row>, width: nat)
  {
    forall j :: 0 <= j < |rows| ==> |rows[j]| == width
  }

  /** What the data of a pass hold. */
  lemma {:induction false} PassRowsAt(f: Format, p: nat, raw: Row, q: nat)
    requires FormatOk(f) && p <= q < 7 && PassesFrom(f, p, raw).Some? && !EmptyPass(f, q)
    ensures var rows := PassesFrom(f, p, raw).value;
            |rows| == 7 - p && WidthOk(PassFormat(f, q)) && |rows[q - p]| == PassFormat(f, q).y &&
            AllWide(rows[q - p], Width(PassFormat(f, q)))
    decreases 7 - p
  {
    hide PassWidth, PassHeight, Width, Mul;
    PassCount(f, p, raw);
    if EmptyPass(f, p) {
      PassRowsAt(f, p + 1, raw, q);
    } else {
      PassOk(f, p);
      DecodedNeeds(PassFormat(f, p), raw);
      DecodedRows(PassFormat(f, p), raw);
      if p < q {
        PassRowsAt(f, p + 1, raw[PassLength(f, p)..], q);
      }
    }
  }

  lemma {:induction false} PassCount(f: Format, p: nat, raw: Row)
    requires FormatOk(f) && p <= 7 && PassesFrom(f, p, raw).Some?
    ensures |PassesFrom(f, p, raw).value| == 7 - p
    decreases 7 - p
  {
    hide PassWidth, PassHeight, Decoded, Mul, Width;
    if p < 7 {
      if EmptyPass(f, p) {
        PassCount(f, p + 1, raw);
      } else {
        PassOk(f, p);
        DecodedNeeds(PassFormat(f, p), raw);
        PassCount(f, p + 1, raw[PassLength(f, p)..]);
      }
    }
  }

  lemma DecodedRows(f: Format, raw: Row)
    requires FormatOk(f) && Decoded(f, raw).Some?
    ensures WidthOk(f) && |Decoded(f, raw).value| == f.y
    ensures AllWide(Decoded(f, raw).value, Width(f))
  {
    hide Mul, Width, RowsOf, StepOf;
    Sizes(f);
  }

  /** Every pixel of an assembled image has the bytes of the format, and is the pixel of its pass. */
  lemma InterlacedPixel(f: Format, raw: Row, final: seq<Row>, images: seq<Row>, passes: seq<seq<Row>>, little: bool, x: nat, y: nat)
    requires FormatOk(f) && PassesFrom(f, 0, raw) == Some(passes) && PassesOk(f, images, passes, little)
    requires |images| == 7 && Assembled(final, images, f.x, f.y, Ob(f)) && x < f.x && y < f.y
    ensures Flat(x, y, f.x) < |final| && |final[Flat(x, y, f.x)]| == Ob(f)
    ensures var p := PassOf(x, y);
            var g := PassFormat(f, p);
            FormatOk(g) && WidthOk(g) && 0 <= Col(p, x) < g.x && 0 <= Line(p, y) < |passes[p]| &&
            |passes[p][Line(p, y)]| == Width(g) &&
            Ordered(f, final[Flat(x, y, f.x)], little) == OutPixel(g, passes[p][Line(p, y)], Col(p, x))
  {
    hide Col, Line, PassOf, PassWidth, PassHeight, Flat, Mul, Width, FinalImage, OutPixel, Swapped, PassesFrom, Ob, PixelBytes, Ordered;
    var p := PassOf(x, y);
    PassPlace(f, x, y);
    PassRowsAt(f, 0, raw, p);
    var g := PassFormat(f, p);
    ImagePixel(g, Ordered(f, images[p], little), passes[p], Col(p, x), Line(p, y));
    OrderedPixel(f, images[p], Flat(Col(p, x), Line(p, y), g.x), little);
    PixelSize(g, passes[p][Line(p, y)], Col(p, x));
    OrderedSize(f, final[Flat(x, y, f.x)], little);
  }

  lemma OrderedSize(f: Format, s: Row, little: bool)
    ensures |Ordered(f, s, little)| == |s|
  {
  }

  lemma PixelSize(f: Format, row: Row, i: nat)
    requires FormatOk(f) && WidthOk(f) && |row| == Width(f) && i < f.x
    ensures |OutPixel(f, row, i)| == Ob(f)
  {
    hide Mul, Width, Unpacked;
    PixelFits(f, i);
  }

  // ---------- from samples to data ----------

  /** How many values a sample can have. */
  function Levels(depth: nat): nat
  {
    if depth == 1 then 2 else if depth == 2 then 4 else if depth == 4 then 16 else if depth == 8 then 256 else 65536
  }

  predicate Below(samples: seq<nat>, n: nat)
  {
    forall k :: 0 <= k < |samples| ==> samples[k] < n
  }

  function Get(samples: seq<nat>, k: nat): nat
  {
    if k < |samples| then samples[k] else 0
  }

  /** The samples from k on, packed into one byte, the first at its high end. */
  function PackedByte(samples: seq<nat>, depth: nat, k: nat): Byte
    requires SmallDepth(depth) && Below(samples, Levels(depth))
  {
    if depth == 4 then 16 * Get(samples, k) + Get(samples, k + 1)
    else if depth == 2 then
      64 * Get(samples, k) + 16 * Get(samples, k + 1) + 4 * Get(samples, k + 2) + Get(samples, k + 3)
    else
      128 * Get(samples, k) + 64 * Get(samples, k + 1) + 32 * Get(samples, k + 2) + 16 * Get(samples, k + 3)
      + 8 * Get(samples, k + 4) + 4 * Get(samples, k + 5) + 2 * Get(samples, k + 6) + Get(samples, k + 7)
  }

  /** The samples of a row as the data hold them. */
  function DataRow(depth: nat, samples: seq<nat>): Row
    requires (SmallDepth(depth) || depth == 8 || depth == 16) && Below(samples, Levels(depth))
  {
    if depth == 16 then
      seq(2 * |samples|, i requires 0 <= i < 2 * |samples| => if i % 2 == 0 then samples[i / 2] / 256 else samples[i / 2] % 256)
    else if depth == 8 then seq(|samples|, i requires 0 <= i < |samples| => samples[i])
    else seq(PackedSize(|samples|, PerByte(depth)), t requires 0 <= t => PackedByte(samples, depth, t * PerByte(depth)))
  }

  /** A packed byte gives its samples back. */
  lemma SampleOfPacked(samples: seq<nat>, depth: nat, k: nat, i: nat)
    requires SmallDepth(depth) && Below(samples, Levels(depth)) && i < PerByte(depth)
    ensures Sample(PackedByte(samples, depth, k), depth, i) == Get(samples, k + i)
  {
    hide Get;
    GetBelow(samples, Levels(depth));
    if depth == 4 {
      FourBits(Get(samples, k), Get(samples, k + 1));
    } else if depth == 2 {
      TwoBits(Get(samples, k), Get(samples, k + 1), Get(samples, k + 2), Get(samples, k + 3));
    } else {
      OneBits(Get(samples, k), Get(samples, k + 1), Get(samples, k + 2), Get(samples, k + 3),
              Get(samples, k + 4), Get(samples, k + 5), Get(samples, k + 6), Get(samples, k + 7));
    }
  }

  lemma GetBelow(samples: seq<nat>, n: nat)
    requires Below(samples, n) && n > 0
    ensures forall i: nat :: Get(samples, i) < n
  {
  }

  lemma FourBits(a: nat, b: nat)
    requires a < 16 && b < 16
    ensures (16 * a + b) / 16 == a && (16 * a + b) % 16 == b
  {
  }

  lemma TwoBits(a: nat, b: nat, c: nat, d: nat)
    requires a < 4 && b < 4 && c < 4 && d < 4
    ensures var v := 64 * a + 16 * b + 4 * c + d;
            v / 64 == a && v / 16 % 4 == b && v / 4 % 4 == c && v % 4 == d
  {
    var v := 64 * a + 16 * b + 4 * c + d;
    assert v / 16 == 4 * a + b && v / 4 == 16 * a + 4 * b + c;
  }

  lemma OneBits(a: nat, b: nat, c: nat, d: nat, e: nat, f: nat, g: nat, h: nat)
    requires a < 2 && b < 2 && c < 2 && d < 2 && e < 2 && f < 2 && g < 2 && h < 2
    ensures var v := 128 * a + 64 * b + 32 * c + 16 * d + 8 * e + 4 * f + 2 * g + h;
            v / 128 == a && v / 64 % 2 == b && v / 32 % 2 == c && v / 16 % 2 == d &&
            v / 8 % 2 == e && v / 4 % 2 == f && v / 2 % 2 == g && v % 2 == h
  {
    var v := 128 * a + 64 * b + 32 * c + 16 * d + 8 * e + 4 * f + 2 * g + h;
    assert v / 64 == 2 * a + b && v / 32 == 4 * a + 2 * b + c && v / 16 == 8 * a + 4 * b + 2 * c + d;
    assert v / 8 == 16 * a + 8 * b + 4 * c + 2 * d + e && v / 4 == 32 * a + 16 * b + 8 * c + 4 * d + 2 * e + f;
    assert v / 2 == 64 * a + 32 * b + 16 * c + 8 * d + 4 * e + 2 * f + g;
  }

  lemma {:induction false} UnpackedAt(packed: Row, n: nat, depth: nat, scale: nat, k: nat)
    requires SmallDepth(depth) && ScaleFits(scale, depth) && PackedSize(n, PerByte(depth)) <= |packed| && k < n
    ensures k / PerByte(depth) < |packed|
    ensures Unpacked(packed, n, depth, scale)[k] == Scaled(scale, packed[k / PerByte(depth)], depth, k % PerByte(depth))
    decreases n
  {
    hide Scaled;
    LastByte(n, PerByte(depth));
    LastByte(k + 1, PerByte(depth));
    SizeGrows(k + 1, n, PerByte(depth));
    if k < n - 1 {
      UnpackedAt(packed, n - 1, depth, scale, k);
    }
  }

  /** Small samples come back scaled. */
  lemma UnpackedData(samples: seq<nat>, depth: nat, scale: nat, k: nat)
    requires SmallDepth(depth) && ScaleFits(scale, depth) && Below(samples, Levels(depth)) && k < |samples|
    ensures Unpacked(DataRow(depth, samples), |samples|, depth, scale)[k] == scale * samples[k]
  {
    hide PackedByte, Sample, Unpacked;
    var per := PerByte(depth);
    UnpackedAt(DataRow(depth, samples), |samples|, depth, scale, k);
    SampleOfPacked(samples, depth, k / per * per, k % per);
    DivMod(k, per);
  }

  lemma DivMod(k: nat, per: nat)
    requires per == 2 || per == 4 || per == 8
    ensures k / per * per + k % per == k
  {
  }

  // ---------- pixels ----------

  /** A pixel is its samples. */
  type Pixel = seq<nat>

  predicate PixelOk(f: Format, v: Pixel)
  {
    |v| == f.imgN && Below(v, Levels(f.depth))
  }

  /** A pixel in the output. */
  function Shown(f: Format, v: Pixel): Row
    requires FormatOk(f) && PixelOk(f, v)
  {
    PixelSizes(f);
    SampleBytes(f, v) + Opaque(Ob(f) - Fb(f))
  }

  function SampleBytes(f: Format, v: Pixel): Row
    requires FormatOk(f) && PixelOk(f, v)
  {
    if f.depth == 16 then DataRow(16, v)
    else if f.depth == 8 then DataRow(8, v)
    else seq(|v|, i requires 0 <= i < |v| => ScaledValue(f, v[i]))
  }

  function ScaledValue(f: Format, v: nat): Byte
    requires SmallDepth(f.depth) && v < Levels(f.depth)
  {
    Scale(f) * v
  }

  /** The samples of a row of pixels. */
  function Flattened(pixels: seq<Pixel>): seq<nat>
  {
    if pixels == [] then [] else Flattened(pixels[..|pixels| - 1]) + pixels[|pixels| - 1]
  }

  predicate RowOfPixels(f: Format, pixels: seq<Pixel>)
  {
    |pixels| == f.x && forall i :: 0 <= i < |pixels| ==> PixelOk(f, pixels[i])
  }

  lemma OnePixelMore(s: seq<nat>, v: Pixel, a: nat, n: nat)
    requires a + n <= |s|
    ensures (s + v)[a..a + n] == s[a..a + n] && (s + v)[|s|..|s| + |v|] == v
  {
  }

  lemma {:induction false} FlattenedAt(f: Format, pixels: seq<Pixel>, i: nat)
    requires forall k :: 0 <= k < |pixels| ==> PixelOk(f, pixels[k])
    ensures |Flattened(pixels)| == Mul(|pixels|, f.imgN) && Below(Flattened(pixels), Levels(f.depth))
    ensures i < |pixels| ==>
              Mul(i, f.imgN) + f.imgN <= |Flattened(pixels)| &&
              Flattened(pixels)[Mul(i, f.imgN)..Mul(i, f.imgN) + f.imgN] == pixels[i]
    decreases |pixels|
  {
    hide Mul;
    if pixels == [] {
      NoPixels(f.imgN);
    } else {
      var n := |pixels| - 1;
      MulNext(|pixels|, f.imgN);
      FlattenedAt(f, pixels[..n], i);
      OnePixelMore(Flattened(pixels[..n]), pixels[n], if i < n then Mul(i, f.imgN) else 0, if i < n then f.imgN else 0);
    }
  }

  /** A row of pixels as the data hold it. */
  function RowData(f: Format, pixels: seq<Pixel>): (r: Row)
    requires FormatOk(f) && RowOfPixels(f, pixels)
    ensures WidthOk(f) ==> |r| == Width(f)
  {
    FlattenedAt(f, pixels, 0);
    RowDataSize(f, Flattened(pixels));
    DataRow(f.depth, Flattened(pixels))
  }

  lemma RowDataSize(f: Format, samples: seq<nat>)
    requires FormatOk(f) && |samples| == Mul(f.x, f.imgN) && Below(samples, Levels(f.depth))
    ensures WidthOk(f) ==> |DataRow(f.depth, samples)| == Width(f)
  {
    hide Mul, Width, PackedByte, PackedSize;
    if WidthOk(f) {
      if SmallDepth(f.depth) {
        SmallFacts(f);
      } else {
        Sizes(f);
        MulTwice(f.x, f.imgN);
      }
    }
  }

  lemma Halves(a: nat, i: nat)
    ensures (2 * a + i) / 2 == a + i / 2 && (2 * a + i) % 2 == i % 2
  {
  }

  lemma WideSlice(samples: seq<nat>, a: nat, n: nat)
    requires a + n <= |samples| && Below(samples, 65536)
    ensures DataRow(16, samples)[2 * a..2 * a + 2 * n] == DataRow(16, samples[a..a + n])
  {
    var s, t := DataRow(16, samples)[2 * a..2 * a + 2 * n], DataRow(16, samples[a..a + n]);
    forall i | 0 <= i < 2 * n
      ensures s[i] == t[i]
    {
      Halves(a, i);
      assert s[i] == DataRow(16, samples)[2 * a + i];
      assert samples[a..a + n][i / 2] == samples[a + i / 2];
    }
  }

  lemma SmallShows(f: Format, samples: seq<nat>, a: nat, v: Pixel)
    requires FormatOk(f) && SmallDepth(f.depth) && Below(samples, Levels(f.depth)) && PixelOk(f, v)
    requires a + f.imgN <= |samples| && samples[a..a + f.imgN] == v
    ensures PackedSize(|samples|, PerByte(f.depth)) <= |DataRow(f.depth, samples)|
    ensures Unpacked(DataRow(f.depth, samples), |samples|, f.depth, Scale(f))[a..a + f.imgN] == SampleBytes(f, v)
  {
    hide Unpacked, PackedByte, PackedSize;
    var u := Unpacked(DataRow(f.depth, samples), |samples|, f.depth, Scale(f));
    forall c | 0 <= c < f.imgN
      ensures u[a..a + f.imgN][c] == ScaledValue(f, v[c])
    {
      UnpackedData(samples, f.depth, Scale(f), a + c);
      assert v[c] == samples[a + c];
    }
  }

  lemma LargeShows(f: Format, samples: seq<nat>, i: nat, v: Pixel)
    requires FormatOk(f) && (f.depth == 8 || f.depth == 16) && Below(samples, Levels(f.depth)) && PixelOk(f, v)
    requires var a := Mul(i, f.imgN); a + f.imgN <= |samples| && samples[a..a + f.imgN] == v
    ensures Mul(i, Fb(f)) + Fb(f) <= |DataRow(f.depth, samples)|
    ensures DataRow(f.depth, samples)[Mul(i, Fb(f))..Mul(i, Fb(f)) + Fb(f)] == SampleBytes(f, v)
  {
    hide Mul;
    var a := Mul(i, f.imgN);
    if f.depth == 16 {
      MulTwice(i, f.imgN);
      WideSlice(samples, a, f.imgN);
    } else {
      assert DataRow(8, samples)[a..a + f.imgN] == DataRow(8, v);
    }
  }

  /** Every pixel of a row of data is shown as it was. */
  lemma RowShows(f: Format, pixels: seq<Pixel>, i: nat)
    requires FormatOk(f) && WidthOk(f) && RowOfPixels(f, pixels) && i < f.x
    ensures OutPixel(f, RowData(f, pixels), i) == Shown(f, pixels[i])
  {
    hide Mul, Width, Unpacked, Flattened, DataRow, SampleBytes, Opaque, Scale, PackedSize, Fb, Ob;
    FlattenedAt(f, pixels, i);
    PixelFits(f, i);
    PixelSizes(f);
    if SmallDepth(f.depth) {
      SmallShows(f, Flattened(pixels), Mul(i, f.imgN), pixels[i]);
    } else {
      LargeShows(f, Flattened(pixels), i, pixels[i]);
    }
  }

  // ---------- an image and its passes ----------

  /** An image: rows of pixels. */
  type Picture = seq<seq<Pixel>>

  predicate PictureOk(f: Format, pic: Picture)
  {
    |pic| == f.y && forall y :: 0 <= y < |pic| ==> RowOfPixels(f, pic[y])
  }

  function PixelOfPass(f: Format, pic: Picture, p: nat, i: nat, j: nat): Pixel
    requires FormatOk(f) && PictureOk(f, pic) && p < 7 && i < PassWidth(p, f.x) && j < PassHeight(p, f.y)
  {
    PassInside(f.x, f.y, p, i, j);
    pic[Y(p, j)][X(p, i)]
  }

  /** Row j of pass p. */
  function RowOfPass(f: Format, pic: Picture, p: nat, j: nat): (r: seq<Pixel>)
    requires FormatOk(f) && PictureOk(f, pic) && p < 7 && j < PassHeight(p, f.y)
    ensures RowOfPixels(PassFormat(f, p), r)
  {
    var r := seq(PassWidth(p, f.x), i requires 0 <= i < PassWidth(p, f.x) => PixelOfPass(f, pic, p, i, j));
    PassPixelsOk(f, pic, p, j, r);
    r
  }

  lemma PassPixelsOk(f: Format, pic: Picture, p: nat, j: nat, r: seq<Pixel>)
    requires FormatOk(f) && PictureOk(f, pic) && p < 7 && j < PassHeight(p, f.y) && |r| == PassWidth(p, f.x)
    requires forall i :: 0 <= i < |r| ==> r[i] == PixelOfPass(f, pic, p, i, j)
    ensures RowOfPixels(PassFormat(f, p), r)
  {
    hide PassWidth, PassHeight, X, Y;
    forall i | 0 <= i < |r|
      ensures PixelOk(PassFormat(f, p), r[i])
    {
      PassInside(f.x, f.y, p, i, j);
      assert RowOfPixels(f, pic[Y(p, j)]);
    }
  }

  /** The rows of data of pass p. */
  function DataOfPass(f: Format, pic: Picture, p: nat): (r: seq<Row>)
    requires FormatOk(f) && PictureOk(f, pic) && p < 7
    ensures EmptyPass(f, p) ==> r == []
    ensures !EmptyPass(f, p) ==> FormatOk(PassFormat(f, p)) && |r| == PassHeight(p, f.y)
    ensures !EmptyPass(f, p) ==> forall j :: 0 <= j < |r| ==> r[j] == RowData(PassFormat(f, p), RowOfPass(f, pic, p, j))
  {
    if EmptyPass(f, p) then []
    else
      PassOk(f, p);
      seq(PassHeight(p, f.y), j requires 0 <= j < PassHeight(p, f.y) => RowData(PassFormat(f, p), RowOfPass(f, pic, p, j)))
  }

  function DataOfPasses(f: Format, pic: Picture): (r: seq<seq<Row>>)
    requires FormatOk(f) && PictureOk(f, pic)
    ensures |r| == 7 && forall p :: 0 <= p < 7 ==> r[p] == DataOfPass(f, pic, p)
  {
    seq(7, p requires 0 <= p < 7 => DataOfPass(f, pic, p))
  }

  /** A filter for every row of every pass; and small samples do not make the rows of a pass wider than its pixels. */
  predicate FiltersOk(f: Format, filters: seq<seq<nat>>)
    requires FormatOk(f)
  {
    |filters| == 7 &&
    forall p :: 0 <= p < 7 && !EmptyPass(f, p) ==>
      WidthOk(PassFormat(f, p)) && |filters[p]| == PassHeight(p, f.y) && Below(filters[p], 5)
  }

  lemma PassesFit(f: Format, pic: Picture, filters: seq<seq<nat>>)
    requires FormatOk(f) && PictureOk(f, pic) && FiltersOk(f, filters)
    ensures AllFit(f, DataOfPasses(f, pic), filters)
  {
    hide PassWidth, PassHeight, Width, RowData, RowOfPass, PictureOk;
    var passes := DataOfPasses(f, pic);
    forall p | 0 <= p < 7
      ensures if EmptyPass(f, p) then passes[p] == []
              else FormatOk(PassFormat(f, p)) && Fits(PassFormat(f, p), passes[p], filters[p])
    {
    }
  }

  /** The data of an interlaced image. */
  function InterlacedData(f: Format, pic: Picture, filters: seq<seq<nat>>): Row
    requires FormatOk(f) && PictureOk(f, pic) && FiltersOk(f, filters)
  {
    PassesFit(f, pic, filters);
    AllPasses(f, DataOfPasses(f, pic), filters, 0)
  }

  /** An image split into its seven passes, packed and filtered in any way, comes back pixel by pixel: given its data, with
      anything behind them, CreateInterlaced succeeds, and whatever it returns shows at (x, y) the pixel at (x, y). */
  lemma InterlacedRoundTrip(f: Format, pic: Picture, filters: seq<seq<nat>>, more: Row, final: seq<Row>, images: seq<Row>,
                            passes: seq<seq<Row>>, little: bool, x: nat, y: nat)
    requires FormatOk(f) && PictureOk(f, pic) && FiltersOk(f, filters) && x < f.x && y < f.y
    ensures PassesFrom(f, 0, InterlacedData(f, pic, filters) + more).Some?
    ensures PassesFrom(f, 0, InterlacedData(f, pic, filters) + more) == Some(passes) &&
            PassesOk(f, images, passes, little) && |images| == 7 && Assembled(final, images, f.x, f.y, Ob(f)) ==>
              Flat(x, y, f.x) < |final| && Ordered(f, final[Flat(x, y, f.x)], little) == Shown(f, pic[y][x])
  {
    hide Col, Line, PassOf, PassWidth, PassHeight, Flat, Mul, Width, OutPixel, Swapped, PassesFrom, Ob, Ordered;
    hide RowData, RowOfPass, AllPasses, PassesOk, Assembled, X, Y;
    var raw := InterlacedData(f, pic, filters) + more;
    PassesFit(f, pic, filters);
    PassesRoundTrip(f, DataOfPasses(f, pic), filters, 0, more);
    assert DataOfPasses(f, pic)[0..] == DataOfPasses(f, pic);
    if PassesFrom(f, 0, raw) == Some(passes) && PassesOk(f, images, passes, little) && |images| == 7 &&
       Assembled(final, images, f.x, f.y, Ob(f)) {
      InterlacedPixel(f, raw, final, images, passes, little, x, y);
      var p := PassOf(x, y);
      PassPlace(f, x, y);
      PixelCovered(f.x, f.y, x, y);
      RowShows(PassFormat(f, p), RowOfPass(f, pic, p, Line(p, y)), Col(p, x));
      SamePixel(f, pic, p, Col(p, x), Line(p, y));
    }
  }

  lemma SamePixel(f: Format, pic: Picture, p: nat, i: nat, j: nat)
    requires FormatOk(f) && PictureOk(f, pic) && p < 7 && i < PassWidth(p, f.x) && j < PassHeight(p, f.y)
    requires FormatOk(PassFormat(f, p))
    ensures X(p, i) < f.x && Y(p, j) < f.y
    ensures PixelOk(f, pic[Y(p, j)][X(p, i)]) && PixelOk(PassFormat(f, p), RowOfPass(f, pic, p, j)[i])
    ensures Shown(PassFormat(f, p), RowOfPass(f, pic, p, j)[i]) == Shown(f, pic[Y(p, j)][X(p, i)])
  {
    hide PassWidth, PassHeight, X, Y;
    PassInside(f.x, f.y, p, i, j);
  }

  // ---------- an image without passes ----------

  function PlainRows(f: Format, pic: Picture): (r: seq<Row>)
    requires FormatOk(f) && PictureOk(f, pic)
    ensures |r| == f.y && forall j :: 0 <= j < |r| ==> r[j] == RowData(f, pic[j])
  {
    seq(f.y, j requires 0 <= j < f.y => RowData(f, pic[j]))
  }

  lemma PlainFits(f: Format, pic: Picture, filters: seq<nat>)
    requires FormatOk(f) && WidthOk(f) && PictureOk(f, pic) && |filters| == f.y && Below(filters, 5)
    ensures Fits(f, PlainRows(f, pic), filters)
  {
    hide RowData, Width;
  }

  /** The data of an image that is not interlaced. */
  function PlainData(f: Format, pic: Picture, filters: seq<nat>): Row
    requires FormatOk(f) && WidthOk(f) && PictureOk(f, pic) && |filters| == f.y && Below(filters, 5)
  {
    PlainFits(f, pic, filters);
    OnePass(f, PlainRows(f, pic), filters)
  }

  /** The same without passes: packed and filtered in any way, an image comes back pixel by pixel. */
  lemma PlainRoundTrip(f: Format, pic: Picture, filters: seq<nat>, more: Row, out: Row, rows: seq<Row>, little: bool, x: nat, y: nat)
    requires FormatOk(f) && WidthOk(f) && PictureOk(f, pic) && |filters| == f.y && Below(filters, 5) && x < f.x && y < f.y
    ensures Decoded(f, PlainData(f, pic, filters) + more).Some?
    ensures Decoded(f, PlainData(f, pic, filters) + more) == Some(rows) && FinalImage(f, Ordered(f, out, little), rows) ==>
              Ordered(f, PixelBytes(out, Flat(x, y, f.x), Ob(f)), little) == Shown(f, pic[y][x])
  {
    hide Flat, Mul, Width, OutPixel, Swapped, Decoded, Ob, RowData, FinalImage, OnePass, PixelBytes;
    PlainFits(f, pic, filters);
    OnePassDecoded(f, PlainRows(f, pic), filters, more);
    if Decoded(f, PlainData(f, pic, filters) + more) == Some(rows) && FinalImage(f, Ordered(f, out, little), rows) {
      ImagePixel(f, Ordered(f, out, little), rows, x, y);
      OrderedPixel(f, out, Flat(x, y, f.x), little);
      RowShows(f, pic[y], x);
    }
  }
}
