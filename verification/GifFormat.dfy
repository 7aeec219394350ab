/** What GIF frames look like in bytes: colours, row order and codes, in other words than those of the decoder. */
module GifFormat {
  import opened Basics
  import opened Bits
  import opened BitStream
  import opened GifBlocks
  import opened GifCode
  import opened GifRows
  import opened Gif

  // ---------- colours ----------

  /** Pixel number k of an image of four bytes a pixel shows index c of a table: red, green, blue and alpha, from the blue,
      green and red of the table; an index with an alpha of at most 128, such as the zero of a transparent one, leaves it as
      it was. It is marked in any case. */
  ghost predicate ShowsIndex(now: seq<Byte>, before: seq<Byte>, marks: seq<Byte>, k: int, colors: seq<Byte>, c: Byte)
  {
    |colors| == 1024 && 0 <= k && 4 * k + 4 <= |now| == |before| && k < |marks| && marks[k] == 1 &&
    (colors[4 * c + 3] > 128 ==>
       now[4 * k] == colors[4 * c + 2] && now[4 * k + 1] == colors[4 * c + 1] && now[4 * k + 2] == colors[4 * c] &&
       now[4 * k + 3] == colors[4 * c + 3]) &&
    (colors[4 * c + 3] <= 128 ==> now[4 * k..4 * k + 4] == before[4 * k..4 * k + 4])
  }

  /** The row of a frame that comes n-th: with interlacing every eighth row from 0, then every eighth from 4, every fourth
      from 2, and every other one from 1. */
  predicate ComesAs(interlaced: bool, h: nat, y: nat, n: nat)
  {
    if !interlaced then n == y
    else if y % 8 == 0 then n == y / 8
    else if y % 8 == 4 then n == (h + 7) / 8 + y / 8
    else if y % 4 == 2 then n == (h + 7) / 8 + (h + 3) / 8 + y / 4
    else n == (h + 7) / 8 + (h + 3) / 8 + (h + 1) / 4 + y / 2
  }

  lemma RowComesAs(interlaced: bool, h: nat, y: nat)
    requires y < h
    ensures ComesAs(interlaced, h, y, RowIndex(interlaced, h, y))
    ensures RowIndex(interlaced, h, y) < h
  {
    hide PassRows;
    PassCounts(h);
    EveryRowComes(interlaced, h, y);
    RowCount(interlaced, h);
  }

  lemma FourBytes(s: seq<Byte>, k: nat)
    requires 4 * k + 4 <= |s|
    ensures var t := s[4 * k..4 * k + 4];
            t[0] == s[4 * k] && t[1] == s[4 * k + 1] && t[2] == s[4 * k + 2] && t[3] == s[4 * k + 3]
  {
  }

  lemma SameTurn(interlaced: bool, h: nat, y: nat, m: nat, n: nat)
    requires ComesAs(interlaced, h, y, m) && ComesAs(interlaced, h, y, n)
    ensures m == n
  {
  }

  /** A pixel of a frame whose row comes n-th shows its index, if there is one. */
  ghost predicate PixelShows(f: Frame, colors: seq<Byte>, interlaced: bool, now: seq<Byte>, before: seq<Byte>, marks: seq<Byte>,
                             s: seq<Byte>, px: nat, y: nat, n: nat)
  {
    var i: int := n * f.w + px;
    px < f.w && y < f.h && ComesAs(interlaced, f.h, y, n) && 0 <= i < |s| ==>
      ShowsIndex(now, before, marks, (f.top + y) * f.width + f.left + px, colors, s[i])
  }

  ghost predicate FrameShows(f: Frame, colors: seq<Byte>, interlaced: bool, now: seq<Byte>, before: seq<Byte>, marks: seq<Byte>,
                             s: seq<Byte>)
  {
    forall px, y, n :: PixelShows(f, colors, interlaced, now, before, marks, s, px, y, n)
  }

  lemma Painted(f: Frame, colors: seq<Byte>, v: Canvas, interlaced: bool, s: seq<Byte>, px: nat, y: nat, n: nat)
    requires FrameOk(f) && ColorTable(colors) && CanvasOf(f, v) && f.w > 0 && RowsOk(f, RowOrder(interlaced, f.h))
    ensures var r := Paint(f, colors, v, RowOrder(interlaced, f.h), 0, s);
            PixelShows(f, colors, interlaced, r.img, v.img, r.hist, s, px, y, n)
  {
    hide Paint, RowIndex, RowOrder, ComesAs;
    if px < f.w && y < f.h && ComesAs(interlaced, f.h, y, n) && n * f.w + px < |s| {
      RowComesAs(interlaced, f.h, y);
      SameTurn(interlaced, f.h, y, n, RowIndex(interlaced, f.h, y));
      FramePixel(f, colors, v, interlaced, s, px, y);
      var r, k := Paint(f, colors, v, RowOrder(interlaced, f.h), 0, s), PixelAt(f, px, y);
      assert PixelOf(r, k).0 == r.img[4 * k..4 * k + 4] && PixelOf(v, k).0 == v.img[4 * k..4 * k + 4];
      FourBytes(r.img, k);
    }
  }

  lemma AllPainted(f: Frame, colors: seq<Byte>, v: Canvas, interlaced: bool, s: seq<Byte>)
    requires FrameOk(f) && ColorTable(colors) && CanvasOf(f, v)
    ensures f.w > 0 ==>
              RowsOk(f, RowOrder(interlaced, f.h)) &&
              var r := Paint(f, colors, v, RowOrder(interlaced, f.h), 0, s);
              FrameShows(f, colors, interlaced, r.img, v.img, r.hist, s)
    ensures f.w == 0 ==> FrameShows(f, colors, interlaced, v.img, v.img, v.hist, s)
  {
    hide Paint, RowOrder;
    if f.w > 0 {
      OrderRowsOk(f, interlaced);
      hide PixelShows;
      var r := Paint(f, colors, v, RowOrder(interlaced, f.h), 0, s);
      forall px: nat, y: nat, n: nat
        ensures PixelShows(f, colors, interlaced, r.img, v.img, r.hist, s, px, y, n)
      {
        Painted(f, colors, v, interlaced, s, px, y, n);
      }
    }
  }

  /** Decodes the raster of a frame onto an image: then every pixel of the frame shows its index, byte by byte. */
  method DrawFrame(data: seq<Byte>, start: nat, colors: seq<Byte>, ghost f: Frame, gw: nat, x: nat, y: nat, w: nat, h: nat,
                   interlaced: bool, img: array<Byte>, hist: array<Byte>) returns (ok: bool, ghost indices: seq<Byte>)
    requires f.width == gw && f.left == x && f.top == y && f.w == w && f.h == h
    requires FrameOk(f) && ColorTable(colors) && img != hist
    requires img.Length == 4 * (f.width * f.height) && hist.Length == f.width * f.height
    modifies img, hist
    ensures ok ==> FrameShows(f, colors, interlaced, img[..], old(img[..]), hist[..], indices)
    ensures ok && start < |data| ==>
              var cs := data[start];
              StateOk(cs, Start(cs)) && Decode(cs, Start(cs), Payload(data, start + 1), 0, []) == Image(indices)
  {
    hide Paint, Decode, StateOk, Start, RowOrder, FrameShows, Moved, RowsOk, FrameOk;
    ghost var before := Canvas(img[..], hist[..]);
    var g := new Gif(data, start, colors, f, gw, x, y, w, h, interlaced, img, hist);
    ghost var rows := g.Rows();
    ok, indices := g.ProcessGifRaster();
    if ok {
      AllPainted(f, colors, before, interlaced, indices);
      NoRows(f, colors, before, indices);
    }
  }

  lemma NoRows(f: Frame, colors: seq<Byte>, v: Canvas, s: seq<Byte>)
    requires FrameOk(f) && ColorTable(colors) && CanvasOf(f, v)
    ensures RowsOk(f, []) && Paint(f, colors, v, [], 0, s) == v
  {
  }

  // ---------- codes ----------

  /** A code that gives a string, and the next code is read. */
  lemma OneCode(cs: nat, s: State, data: seq<Byte>, p: nat, sofar: seq<Byte>, code: nat)
    requires StateOk(cs, s) && p + s.size <= 8 * |data| && Window(data, p, s.size) == code
    requires DecodeCode(cs, s, code).Go?
    ensures var g := DecodeCode(cs, s, code);
            Decode(cs, s, data, p, sofar) == Decode(cs, g.state, data, p + s.size, sofar + g.out)
  {
    hide DecodeCode, StateOk;
  }

  /** Before the first clear code no other code is accepted than the end. */
  lemma ClearComesFirst(cs: nat, data: seq<Byte>)
    requires cs <= 12 && cs + 1 <= 8 * |data|
    ensures StateOk(cs, Start(cs))
    ensures var code := Window(data, 0, cs + 1);
            code != Pow2(cs) && code != Pow2(cs) + 1 ==> Decode(cs, Start(cs), data, 0, []).Corrupt?
  {
    InitialOk(cs);
    hide Window, Initial;
  }

  /** The n-th code behind a clear code, counted from zero, is written in the fewest bits that can hold the last entry that the
      decoder has not entered yet, at least cs + 1 and at most twelve. */
  lemma WidthIs(cs: nat, n: nat)
    requires 2 <= cs <= 8
    ensures var w, next := Width(cs, n), Pow2(cs) + 2 + (if n == 0 then 0 else n - 1);
            cs + 1 <= w <= 12 && (w < 12 ==> next < Pow2(w)) && (w > cs + 1 ==> next >= Pow2(w - 1))
  {
    hide Fit, Pow2;
    FitIsLeast(cs + 1, Pow2(cs) + 2 + (if n == 0 then 0 else n - 1));
  }

  lemma {:induction false} FitIsLeast(w: nat, code: nat)
    requires w <= 12
    ensures w <= Fit(w, code) <= 12 && (Fit(w, code) < 12 ==> code < Pow2(Fit(w, code)))
    ensures Fit(w, code) > w ==> code >= Pow2(Fit(w, code) - 1)
    decreases 12 - w
  {
    if code >= Pow2(w) && w < 12 {
      FitIsLeast(w + 1, code);
    }
  }

  /** A string code behind another one is refused when the table has 8192 entries, and not before. */
  lemma TableFull(cs: nat, s: State, code: nat)
    requires StateOk(cs, s) && !s.closed && s.prev >= 0 && code != Pow2(cs) && code != Pow2(cs) + 1 && code <= |s.table|
    ensures DecodeCode(cs, s, code).Bad? <==> |s.table| >= 8192
  {
  }

  /** The state after the clear code and n single indices, the last one being `last`. */
  ghost predicate Singly(s: State, n: nat, last: Byte)
  {
    StateOk(2, s) && !s.closed && |s.table| == (if n == 0 then 6 else 5 + n) && s.size == (if n < 3 then 3 else 4) && n <= 4 &&
    s.prev == (if n == 0 then -1 else last) && forall i: Byte :: i < 4 ==> s.table[i] == [i]
  }

  lemma Lows()
    ensures Low(6, 3) == 6 && Low(7, 3) == 7 && Low(8, 3) == 0 && Low(9, 4) == 9 && Pow2(2) == 4
  {
  }

  lemma NextSingle(s: State, n: nat, last: Byte, c: Byte)
    requires Singly(s, n, last) && c < 4 && n < 4
    ensures var r := DecodeCode(2, s, c); r.Go? && r.out == [c] && Singly(r.state, n + 1, c)
  {
    Lows();
    hide Low, Pow2;
  }

  lemma ClearsFirst()
    ensures StateOk(2, Start(2)) && var r := DecodeCode(2, Start(2), 4); r.Go? && r.out == [] && Singly(r.state, 0, 0)
  {
    InitialOk(2);
    Lows();
    hide Low, Pow2;
  }

  ghost function FourCodes(a: Byte, b: Byte, c: Byte, d: Byte): seq<bool>
  {
    LsbBits(4, 3) + (LsbBits(a, 3) + (LsbBits(b, 3) + (LsbBits(c, 3) + (LsbBits(d, 4) + LsbBits(5, 4)))))
  }

  lemma CodesRead(a: Byte, b: Byte, c: Byte, d: Byte, data: seq<Byte>)
    requires a < 4 && b < 4 && c < 4 && d < 4 && Carries(data, 0, FourCodes(a, b, c, d))
    ensures Window(data, 0, 3) == 4 && Window(data, 3, 3) == a && Window(data, 6, 3) == b && Window(data, 9, 3) == c
    ensures Window(data, 12, 4) == d && Window(data, 16, 4) == 5
  {
    hide Carries, Window, LsbBits;
    Pow2Values();
    var d5 := LsbBits(d, 4) + LsbBits(5, 4);
    var c5 := LsbBits(c, 3) + d5;
    var b5 := LsbBits(b, 3) + c5;
    CarriesParts(data, 0, LsbBits(4, 3), LsbBits(a, 3) + b5);
    CarriesParts(data, 3, LsbBits(a, 3), b5);
    CarriesParts(data, 6, LsbBits(b, 3), c5);
    CarriesParts(data, 9, LsbBits(c, 3), d5);
    CarriesParts(data, 12, LsbBits(d, 4), LsbBits(5, 4));
    ReadLsb(data, 0, 4, 3);
    ReadLsb(data, 3, a, 3);
    ReadLsb(data, 6, b, 3);
    ReadLsb(data, 9, c, 3);
    ReadLsb(data, 12, d, 4);
    ReadLsb(data, 16, 5, 4);
  }

  /** Four indices below four, each by its own code, in bits, the lower ones first: the clear code 4 and three codes of three
      bits; then the table holds eight entries, and the last code and the end, 5, have four bits. */
  lemma FourIndices(a: Byte, b: Byte, c: Byte, d: Byte, data: seq<Byte>)
    requires a < 4 && b < 4 && c < 4 && d < 4 && |data| >= 3 && Carries(data, 0, FourCodes(a, b, c, d))
    ensures StateOk(2, Start(2)) && Decode(2, Start(2), data, 0, []) == Image([a, b, c, d])
  {
    hide Carries, Window, FourCodes, Decode, DecodeCode;
    CodesRead(a, b, c, d, data);
    var none: seq<Byte> := [];
    assert none + [] == [] && none + [a] == [a] && [a] + [b] == [a, b] && [a, b] + [c] == [a, b, c];
    assert [a, b, c] + [d] == [a, b, c, d];
    ClearsFirst();
    OneCode(2, Start(2), data, 0, [], 4);
    var s0 := DecodeCode(2, Start(2), 4).state;
    NextSingle(s0, 0, 0, a);
    OneCode(2, s0, data, 3, [], a);
    var s1 := DecodeCode(2, s0, a).state;
    NextSingle(s1, 1, a, b);
    OneCode(2, s1, data, 6, [a], b);
    var s2 := DecodeCode(2, s1, b).state;
    NextSingle(s2, 2, b, c);
    OneCode(2, s2, data, 9, [a, b], c);
    var s3 := DecodeCode(2, s2, c).state;
    NextSingle(s3, 3, c, d);
    OneCode(2, s3, data, 12, [a, b, c], d);
    EndCode(DecodeCode(2, s3, d).state, 4, d, data, 16, [a, b, c, d]);
  }

  lemma EndCode(s: State, n: nat, last: Byte, data: seq<Byte>, p: nat, sofar: seq<Byte>)
    requires Singly(s, n, last) && p + s.size <= 8 * |data| && Window(data, p, s.size) == 5
    ensures Decode(2, s, data, p, sofar) == Image(sofar)
  {
    hide Window;
    Lows();
  }

  /** One pixel in a file: the size of the indices, one sub-block of two bytes, and its terminator. */
  lemma OnePixel(c: Byte, input: seq<Byte>, start: nat, tail: seq<Byte>)
    requires c < 4 && start <= |input| && input[start..] == [2, 68 + 8 * c, 1, 0] + tail
    ensures StateOk(2, Start(2)) && Decode(2, Start(2), Payload(input, start), 0, []) == Image([c])
  {
    hide Decode, DecodeCode, Payload, Window, Slice;
    var data := [68 + 8 * c, 1];
    assert [data][1..] == [] && Framed([data]) == [2] + data + [0];
    FramedPayload(input, start, [data], tail);
    assert Joined([data]) == data;
    OnePixelCodes(c);
    var none: seq<Byte> := [];
    assert none + [] == [] && none + [c] == [c];
    ClearsFirst();
    OneCode(2, Start(2), data, 0, [], 4);
    var s0 := DecodeCode(2, Start(2), 4).state;
    NextSingle(s0, 0, 0, c);
    OneCode(2, s0, data, 3, [], c);
    EndCode(DecodeCode(2, s0, c).state, 1, c, data, 6, [c]);
  }

  lemma OnePixelCodes(c: Byte)
    requires c < 4
    ensures var data := [68 + 8 * c, 1];
            Window(data, 0, 3) == 4 && Window(data, 3, 3) == c && Window(data, 6, 3) == 5
  {
    hide Window, Bit, Low, Shr, Shl;
    var data := [68 + 8 * c, 1];
    WindowOfByte(data, 0);
    EightTimes(8 + c);
    Join(8 + c, 4, 3);
    WindowSplit(data, 0, 3, 5);
    EightTimes(1);
    Join(1, c, 3);
    WindowSplit(data, 3, 3, 2);
    LastBit(data);
    WindowJoin(data, 6, 2, 1);
  }

  lemma EightTimes(n: nat)
    ensures Shl(n, 3) == 8 * n && Pow2(3) == 8
  {
    ShlIsMul(n, 3);
    Pow2Values();
  }

  lemma LastBit(data: seq<Byte>)
    requires |data| == 2 && data[1] == 1
    ensures Window(data, 8, 1) == 1 && Shl(1, 2) == 4
  {
    assert BitAt(data, 8);
    assert Window(data, 9, 0) == 0;
  }
}
