/** The GIF raster decoder: sub-block reader, LZW tables, and the cursor that places pixels. */
module Gif {
  import opened Basics
  import opened Bits
  import opened BitStream
  import opened GifBlocks
  import opened GifCode
  import opened GifRows

  /** A table entry: the code of all but its last index (-1 if there is none), its first and its last index. */
  datatype Code = Code(prefix: int, first: Byte, suffix: Byte)

  /** Codes other than clear and end stand for strings. */
  predicate Live(cs: nat, i: int)
  {
    i != Pow2(cs) && i != Pow2(cs) + 1
  }

  /** The entry spells s, through a smaller live code. */
  ghost predicate Spells(cs: nat, c: Code, i: nat, table: seq<seq<Byte>>)
    requires i < |table|
  {
    var s := table[i];
    s != [] && c.first == s[0] && c.suffix == s[|s| - 1] &&
    if c.prefix < 0 then c.prefix == -1 && |s| == 1
    else c.prefix < i && Live(cs, c.prefix) && table[c.prefix] == s[..|s| - 1]
  }

  /** The array spells the table; entries beyond it may be stale. */
  ghost predicate Dict(cs: nat, codes: seq<Code>, table: seq<seq<Byte>>)
  {
    |table| <= |codes| && forall i :: 0 <= i < |table| && Live(cs, i) ==> Spells(cs, codes[i], i, table)
  }

  lemma DictAt(cs: nat, codes: seq<Code>, table: seq<seq<Byte>>, i: nat)
    requires Dict(cs, codes, table) && i < |table| && Live(cs, i)
    ensures i < |codes| && Spells(cs, codes[i], i, table)
  {
  }

  /** Entering a string under the next code. */
  lemma DictAdd(cs: nat, codes: seq<Code>, table: seq<seq<Byte>>, prev: nat, b: Byte)
    requires Dict(cs, codes, table) && |table| < |codes| && prev < |table| && Live(cs, prev)
    ensures prev < |codes|
    ensures Dict(cs, codes[|table| := Code(prev, codes[prev].first, b)], table + [table[prev] + [b]])
  {
    DictAt(cs, codes, table, prev);
    var n := |table|;
    var codes' := codes[n := Code(prev, codes[prev].first, b)];
    var table' := table + [table[prev] + [b]];
    forall i | 0 <= i < |table'| && Live(cs, i)
      ensures Spells(cs, codes'[i], i, table')
    {
      if i < n {
        DictAt(cs, codes, table, i);
        SpellsLater(cs, codes[i], i, table, table[prev] + [b]);
      } else {
        assert table'[n][..|table'[n]| - 1] == table[prev];
      }
    }
  }

  lemma SpellsLater(cs: nat, c: Code, i: nat, table: seq<seq<Byte>>, s: seq<Byte>)
    requires i < |table| && Spells(cs, c, i, table)
    ensures Spells(cs, c, i, table + [s])
  {
  }

  /** A shorter table is spelled by the same entries. */
  lemma DictInitial(cs: nat, codes: seq<Code>)
    requires Pow2(cs) + 2 <= |codes|
    requires forall i :: 0 <= i < Pow2(cs) ==> codes[i] == Code(-1, i % 256, i % 256)
    ensures Dict(cs, codes, Initial(cs))
  {
  }

  ghost predicate InitialEntries(cs: nat, codes: seq<Code>)
  {
    Pow2(cs) + 2 <= |codes| && forall i :: 0 <= i < Pow2(cs) ==> codes[i] == Code(-1, i % 256, i % 256)
  }

  lemma MulOrder(a: nat, b: nat, c: nat)
    requires c > 0
    ensures a * c >= b * c <==> a >= b
  {
  }

  lemma NoLaterPasses(h: nat)
    ensures LaterPasses(0, h) == []
  {
  }

  lemma MulHalf(n: nat, c: nat)
    requires n > 0
    ensures Shl(1, n) * c / 2 == Pow2(n - 1) * c
  {
    ShlIsMul(1, n);
    assert Pow2(n) * c == 2 * (Pow2(n - 1) * c);
  }

  class Gif {
    const input: seq<Byte>
    var at: nat
    const color_table: seq<Byte>
    const out: array<Byte>
    const history: array<Byte>
    const codes: array<Code>
    const line_size: nat
    const start_x: nat
    const start_y: nat
    const max_x: nat
    const max_y: nat
    var cur_x: nat
    var cur_y: nat
    var step: nat
    var parse: nat
    ghost const f: Frame

    /** Cursor position within the frame, in pixels. */
    ghost var row: nat
    ghost var col: nat
    ghost var rowStep: nat

    ghost predicate Geometry()
    {
      FrameOk(f) && ColorTable(color_table) && line_size == 4 * f.width && start_x == 4 * f.left &&
      start_y == f.top * line_size && max_x == start_x + 4 * f.w && max_y == start_y + f.h * line_size &&
      out.Length == 4 * (f.width * f.height) && history.Length == f.width * f.height && codes.Length == MAX_CODES &&
      out != history && codes as object != out && codes as object != history
    }

    ghost predicate Cursor()
      reads `cur_x, `cur_y, `step, `parse, `row, `col, `rowStep
    {
      Geometry() && rowStep > 0 && parse <= 3 && (row < f.h ==> col < f.w) &&
      step == rowStep * line_size && cur_y == start_y + row * line_size && cur_x == start_x + 4 * col
    }

    /** The rows still to paint, the current one first. */
    ghost function Rows(): seq<nat>
      requires rowStep > 0
      reads `parse, `row, `rowStep
    {
      if row >= f.h then [] else PassRows(row, rowStep, f.h) + LaterPasses(parse, f.h)
    }

    ghost function View(): Canvas
      reads out, history
    {
      Canvas(out[..], history[..])
    }

    /** Frame geometry as set up from an image descriptor. */
    constructor (data: seq<Byte>, start: nat, colors: seq<Byte>, ghost frame: Frame, gw: nat, x: nat, y: nat, w: nat, h: nat,
                 interlaced: bool, img: array<Byte>, hist: array<Byte>)
      requires frame.width == gw && frame.left == x && frame.top == y && frame.w == w && frame.h == h
      requires FrameOk(frame) && ColorTable(colors) && img != hist
      requires img.Length == 4 * (frame.width * frame.height) && hist.Length == frame.width * frame.height
      ensures Cursor() && f == frame && input == data && at == start && color_table == colors && out == img && history == hist
      ensures Rows() == (if w == 0 then [] else RowOrder(interlaced, h)) && col == 0
      ensures fresh(codes)
    {
      input, at, color_table, out, history := data, start, colors, img, hist;
      codes := new Code[MAX_CODES](_ => Code(-1, 0, 0));
      f := frame;
      var ls := gw * 4;
      line_size, start_x, start_y, max_x := ls, x * 4, y * ls, x * 4 + w * 4;
      var bottom := y * ls + h * ls;
      max_y := bottom;
      cur_x := x * 4;
      cur_y := if w == 0 then bottom else y * ls;
      step := if interlaced then 8 * ls else ls;
      parse := if interlaced then 3 else 0;
      row, col, rowStep := if w == 0 then h else 0, 0, if interlaced then 8 else 1;
      new;
      InterlacedIsPasses(h);
    }

    /** Start the next interlace pass. */
    method NextPass()
      requires Cursor() && row >= f.h && parse > 0 && col < f.w
      modifies `cur_y, `step, `parse, `row, `rowStep
      ensures Cursor() && parse == old(parse) - 1
      ensures PassRows(row, rowStep, f.h) + LaterPasses(parse, f.h) == LaterPasses(old(parse), f.h)
    {
      hide FrameOk, ColorTable, PassRows;
      MulHalf(parse, line_size);
      ShlIsMul(1, parse);
      step := Shl(1, parse) * line_size;
      cur_y := start_y + step / 2;
      row, rowStep := Pow2(parse - 1), Pow2(parse);
      parse := parse - 1;
    }

    /** Comparing byte offsets is comparing rows. */
    lemma RowsFromBytes()
      requires Geometry() && f.w > 0 && cur_y == start_y + row * line_size
      ensures cur_y >= max_y <==> row >= f.h
    {
      MulOrder(row, f.h, line_size);
    }

    /** Move to the next row, or to the next interlace pass that has any. */
    method NextRow()
      requires Cursor() && row < f.h && col + 1 == f.w
      modifies `cur_x, `cur_y, `step, `parse, `row, `col, `rowStep
      ensures Cursor() && col == 0 && Rows() == old(Rows())[1..]
    {
      hide FrameOk, ColorTable, LaterPasses;
      ghost var rest := PassRows(row + rowStep, rowStep, f.h) + LaterPasses(parse, f.h);
      assert Rows() == [row] + rest;
      cur_x := start_x;
      AddRows(row, rowStep);
      cur_y := cur_y + step;
      row, col := row + rowStep, 0;
      RowsFromBytes();
      while cur_y >= max_y && parse > 0
        invariant Cursor() && col == 0 && f.w > 0
        invariant cur_y >= max_y <==> row >= f.h
        invariant rest == PassRows(row, rowStep, f.h) + LaterPasses(parse, f.h)
        decreases parse
      {
        NextPass();
        RowsFromBytes();
      }
      NoLaterPasses(f.h);
    }

    lemma AddRows(a: nat, b: nat)
      ensures (a + b) * line_size == a * line_size + b * line_size
    {
    }

    // ---------- pixels ----------

    /** Byte index of the cursor's pixel. */
    lemma CursorIndex()
      requires Cursor() && row < f.h
      ensures FrameOk(f) && PixelAt(f, col, row) < f.width * f.height
      ensures cur_x + cur_y == 4 * PixelAt(f, col, row)
    {
      hide ColorTable, PassRows, LaterPasses;
      PixelInImage(f, col, row);
      CursorArithmetic(f.top, row, f.width, f.left + col);
    }

    /** Write the four bytes of a pixel. */
    method WriteColor(idx: nat, k: nat)
      requires idx + 4 <= out.Length && k + 4 <= |color_table|
      modifies out
      ensures out[..] == old(out[..])[..idx] + [color_table[k + 2], color_table[k + 1], color_table[k], color_table[k + 3]]
                         + old(out[..])[idx + 4..]
    {
      out[idx] := color_table[k + 2];
      out[idx + 1] := color_table[k + 1];
      out[idx + 2] := color_table[k];
      out[idx + 3] := color_table[k + 3];
    }

    /** Store one pixel and mark it. */
    method StorePixel(ghost p: nat, idx: nat, c: Byte)
      requires Geometry() && p < f.width * f.height && idx == 4 * p
      modifies out, history
      ensures View() == Put(color_table, old(View()), p, c)
    {
      hide FrameOk;
      ghost var v := View();
      assert out.Length == 4 * history.Length;
      history[idx / 4] := 1;
      assert history[..] == v.hist[p := 1] && out[..] == v.img;
      if color_table[4 * c + 3] > 128 {
        WriteColor(idx, 4 * c);
        assert history[..] == v.hist[p := 1];
      }
    }

    /** Draw one index at the cursor and advance it; past the last row nothing is drawn. */
    method EmitPixel(c: Byte)
      requires Cursor()
      modifies out, history, `cur_x, `cur_y, `step, `parse, `row, `col, `rowStep
      ensures Cursor() && RowsOk(f, old(Rows())) && CanvasOf(f, old(View()))
      ensures View() == Paint(f, color_table, old(View()), old(Rows()), old(col), [c])
      ensures (Rows(), col) == Moved(f.w, old(Rows()), old(col), 1)
    {
      hide FrameOk, PassRows, LaterPasses, PixelAt, Put;
      RowsAhead();
      NoRowsLeft();
      if cur_y >= max_y {
        return;
      }
      ghost var v, rows, x := View(), Rows(), col;
      CursorIndex();
      OneMore(f, color_table, v, rows, x, c);
      StorePixel(PixelAt(f, col, row), cur_x + cur_y, c);
      ColumnsFromBytes();
      if cur_x + 4 >= max_x {
        NextRow();
      } else {
        cur_x, col := cur_x + 4, col + 1;
      }
    }

    lemma ColumnsFromBytes()
      requires Cursor()
      ensures cur_x + 4 >= max_x <==> col + 1 >= f.w
    {
    }

    lemma NoRowsLeft()
      requires Cursor()
      ensures cur_y >= max_y <==> Rows() == []
      ensures row < f.h ==> Rows() != [] && Rows()[0] == row && col < f.w
    {
      if row < f.h {
        RowsFromBytes();
      } else {
        RowsPast(row, f.h, line_size);
      }
    }

    lemma RowsAhead()
      requires Cursor()
      ensures RowsOk(f, Rows()) && CanvasOf(f, View())
    {
      AllRowsOk(f, row, rowStep, parse);
    }

    /** The canvas and cursor are those after painting s from the given start. */
    ghost predicate Drawn(v: Canvas, rows: seq<nat>, x: nat, s: seq<Byte>)
      reads `parse, `row, `col, `rowStep, out, history
    {
      rowStep > 0 && FrameOk(f) && ColorTable(color_table) && CanvasOf(f, v) && RowsOk(f, rows) &&
      (rows != [] ==> x < f.w) && View() == Paint(f, color_table, v, rows, x, s) && (Rows(), col) == Moved(f.w, rows, x, |s|)
    }

    /** Draw index c after s has been drawn. */
    method DrawPixel(c: Byte, ghost v: Canvas, ghost rows: seq<nat>, ghost x: nat, ghost s: seq<Byte>)
      requires Cursor() && Drawn(v, rows, x, s)
      modifies out, history, `cur_x, `cur_y, `step, `parse, `row, `col, `rowStep
      ensures Cursor() && Drawn(v, rows, x, s + [c])
    {
      hide FrameOk, ColorTable, CanvasOf, RowsOk, Rows, View, Paint, Moved;
      PaintAppend(f, color_table, v, rows, x, s, [c]);
      MovedAppend(f.w, rows, x, |s|, 1);
      EmitPixel(c);
    }

    /** Draw the string of a code, first index first, by following the prefixes. */
    method OutGifCode(code: nat, ghost cs: nat, ghost table: seq<seq<Byte>>,
                      ghost v: Canvas, ghost rows: seq<nat>, ghost x: nat, ghost s: seq<Byte>)
      requires Cursor() && Dict(cs, codes[..], table) && code < |table| && Live(cs, code) && Drawn(v, rows, x, s)
      modifies out, history, `cur_x, `cur_y, `step, `parse, `row, `col, `rowStep
      ensures Cursor() && Drawn(v, rows, x, s + table[code])
      decreases code
    {
      hide Dict, Cursor, Geometry, Drawn, View;
      DictAt(cs, codes[..], table, code);
      CodesApart();
      var c := codes[code];
      ghost var t := s;
      if c.prefix >= 0 {
        OutGifCode(c.prefix, cs, table, v, rows, x, s);
        t := s + table[c.prefix];
      }
      assert t + [c.suffix] == s + table[code];
      DrawPixel(c.suffix, v, rows, x, t);
    }

    lemma CodesApart()
      requires Cursor()
      ensures codes as object != out && codes as object != history && codes.Length == MAX_CODES && Geometry() && rowStep > 0
    {
    }

    // ---------- codes ----------

    /** Entries for the single indices. */
    method InitCodes(cs: nat, clear: nat)
      requires Geometry() && cs <= 12 && clear == Pow2(cs)
      modifies codes
      ensures InitialEntries(cs, codes[..])
    {
      Pow2Values();
      Pow2Monotone(cs, 12);
      for i := 0 to clear
        invariant forall j :: 0 <= j < i ==> codes[j] == Code(-1, j % 256, j % 256)
      {
        codes[i] := Code(-1, i % 256, i % 256);
      }
    }

    /** Enter the previous string extended by the first index of the current one. */
    method AddEntry(avail: nat, oldcode: nat, code: nat, ghost cs: nat, ghost s: State)
      requires Geometry() && InStepWith(cs, s, avail) && s.prev == oldcode && Live(cs, oldcode)
      requires avail < MAX_CODES && code <= avail && Live(cs, code)
      modifies codes
      ensures oldcode < |s.table| == avail && s.table[oldcode] != [] && (code < avail ==> s.table[code] != [])
      ensures InStepWith(cs, State(s.size, s.table + [Entered(s, code)], s.prev, s.closed), avail + 1)
    {
      hide Spells, Initial, Dict;
      ghost var cs0, first := codes[..], codes[oldcode].first;
      EntryFacts(cs, cs0, s, code);
      DictAdd(cs, cs0, s.table, oldcode, if code == avail then first else cs0[code].first);
      codes[avail] := codes[avail].(prefix := oldcode);
      codes[avail] := codes[avail].(first := codes[oldcode].first);
      if code == avail + 1 {
        assert false; // the code following the new entry is never accepted here
      }
      codes[avail] := codes[avail].(suffix := codes[code].first);
      assert codes[..] == cs0[avail := Code(oldcode, first, if code == avail then first else cs0[code].first)];
    }

    /** The code array spells the decoder's table, which ends at avail; the single-index entries are intact. */
    ghost predicate InStepWith(cs: nat, s: State, avail: nat)
      reads codes
    {
      StateOk(cs, s) && |s.table| == avail && Dict(cs, codes[..], s.table) && InitialEntries(cs, codes[..])
    }

    /** A code that stands for a string: enter the pending string, draw, widen the codes when the table fills them. */
    method StringCode(code: nat, codesize: nat, avail: nat, oldcode: int, ghost cs: nat, ghost s: State,
                      ghost v: Canvas, ghost rows: seq<nat>, ghost x: nat, ghost sofar: seq<Byte>)
      returns (ok: bool, size: nat, next: nat, ghost t: State)
      requires Cursor() && InStepWith(cs, s, avail) && s == State(codesize, s.table, oldcode, false)
      requires code <= avail && Live(cs, code) && (oldcode >= 0 ==> Live(cs, oldcode)) && Drawn(v, rows, x, sofar)
      modifies codes, out, history, `cur_x, `cur_y, `step, `parse, `row, `col, `rowStep
      ensures !ok ==> DecodeCode(cs, s, code).Bad?
      ensures ok ==> Cursor() && InStepWith(cs, t, next) && t == State(size, t.table, code, false)
      ensures ok ==> code < |t.table| && DecodeCode(cs, s, code) == Go(t, t.table[code])
      ensures ok ==> Drawn(v, rows, x, sofar + t.table[code])
    {
      hide Cursor, Geometry, Spells, Dict, Initial, InitialEntries, Paint, Rows, View, Moved, Entered, Drawn;
      CodesApart();
      ok, size, next, t := false, codesize, avail, s;
      if oldcode >= 0 {
        if avail + 1 > MAX_CODES {
          return;
        }
        AddEntry(avail, oldcode, code, cs, s);
        next := avail + 1;
        t := State(codesize, s.table + [Entered(s, code)], oldcode, false);
      } else if code == avail {
        return;
      }
      OutGifCode(code, cs, t.table, v, rows, x, sofar);
      AndMask(next, codesize);
      ShlIsMul(1, codesize);
      if BitAnd(next, Shl(1, codesize) - 1) == 0 && next <= 0xFFF {
        size := codesize + 1;
      }
      t := State(size, t.table, code, false);
      ok := true;
    }

    /** Act on one code: clear, end, string, or corrupt data. */
    method CodeStep(code: nat, clear: nat, codesize: nat, avail: nat, oldcode: int, first: bool, cs: nat, ghost s: State,
                    ghost v: Canvas, ghost rows: seq<nat>, ghost x: nat, ghost sofar: seq<Byte>)
      returns (verdict: Verdict, size: nat, next: nat, prev: int, closed: bool, ghost t: State, ghost seen: seq<Byte>)
      requires Cursor() && InStepWith(cs, s, avail) && s == State(codesize, s.table, oldcode, first)
      requires clear == Pow2(cs) && (oldcode >= 0 ==> Live(cs, oldcode)) && Drawn(v, rows, x, sofar)
      modifies codes, out, history, `cur_x, `cur_y, `step, `parse, `row, `col, `rowStep
      ensures verdict.Failed? <==> DecodeCode(cs, s, code).Bad?
      ensures verdict.Finished? <==> DecodeCode(cs, s, code).Stop?
      ensures !verdict.Failed? ==> Cursor() && Drawn(v, rows, x, seen)
      ensures verdict.Finished? ==> seen == sofar
      ensures verdict.Continue? ==> InStepWith(cs, t, next) && t == State(size, t.table, prev, closed)
      ensures verdict.Continue? ==> prev >= 0 ==> Live(cs, prev)
      ensures verdict.Continue? ==> var r := DecodeCode(cs, s, code); r.Go? && r.state == t && seen == sofar + r.out
    {
      hide Cursor, Drawn, Initial, Dict, InitialEntries, Entered, Grown, StateOk;
      verdict, size, next, prev, closed, t, seen := Failed, codesize, avail, oldcode, first, s, sofar;
      if code == clear {
        verdict, size, next, prev, closed := Continue, cs + 1, clear + 2, -1, false;
        t := State(cs + 1, Initial(cs), -1, false);
        Cleared(cs, s, avail);
        seen := sofar + [];
        assert seen == sofar;
      } else if code == clear + 1 {
        verdict := Finished;
      } else if code <= avail {
        if first {
          return;
        }
        var ok;
        ok, size, next, t := StringCode(code, codesize, avail, oldcode, cs, s, v, rows, x, sofar);
        if ok {
          verdict, prev, closed := Continue, code, false;
          seen := sofar + t.table[code];
        }
      }
    }

    lemma Cleared(cs: nat, s: State, avail: nat)
      requires InStepWith(cs, s, avail)
      ensures InStepWith(cs, State(cs + 1, Initial(cs), -1, false), Pow2(cs) + 2)
    {
      hide Initial, Spells;
      InitialOk(cs);
      DictInitial(cs, codes[..]);
    }

    // ---------- input ----------

    method Get8() returns (b: Byte)
      modifies `at
      ensures b == ByteAt(input, old(at))
      ensures at == if old(at) < |input| then old(at) + 1 else old(at)
    {
      if at >= |input| {
        return 0;
      }
      b := input[at];
      at := at + 1;
    }

    /** The next data byte, opening a new sub-block when the current one is used up. */
    method DataByte(len: nat, ghost end: nat) returns (more: bool, b: Byte, left: nat)
      requires SameEnd(input, at + len, end)
      modifies `at
      ensures more ==> SameEnd(input, at + left, end)
      ensures !more ==> Remaining(input, old(at), len) == [] && left == 0 && AtEnd(input, at, end)
      ensures more ==> Remaining(input, old(at), len) == [b] + Remaining(input, at, left)
    {
      hide Payload, ChainEnd, Slice;
      more, b, left := true, 0, len;
      if len == 0 {
        NewBlock(input, at, end);
        var n := Get8();
        if n == 0 {
          more := false;
          return;
        }
        left := n;
      }
      TakeByte(input, at, left);
      TakeEnd(input, at, left, end);
      b := Get8();
      left := left - 1;
    }

    /** Skip to the end of the sub-blocks. */
    method SkipBlocks(len: nat, ghost end: nat)
      requires SameEnd(input, at + len, end)
      modifies `at
      ensures AtEnd(input, at, end)
    {
      hide ChainEnd, SameEnd, AtEnd, Remaining;
      at := at + len;
      NewBlock(input, at, end);
      var n := Get8();
      while n > 0
        invariant if n > 0 then at <= |input| && SameEnd(input, at + n, end) else AtEnd(input, at, end)
        decreases |input| - at
      {
        at := at + n;
        NewBlock(input, at, end);
        n := Get8();
      }
    }

    /** Take the next code out of the bit buffer. */
    lemma TakeCode(data: seq<Byte>, p: nat, bits: nat, valid_bits: nat, codesize: nat)
      requires bits == Window(data, p, valid_bits) && codesize <= valid_bits
      ensures Shl(1, codesize) > 0 && BitAnd(bits, Shl(1, codesize) - 1) == Window(data, p, codesize)
      ensures Shr(bits, codesize) == Window(data, p + codesize, valid_bits - codesize)
    {
      ShlIsMul(1, codesize);
      AndMask(bits, codesize);
      WindowSplit(data, p, codesize, valid_bits - codesize);
    }

    /** Put one more byte on top of the bit buffer. */
    lemma PutByte(data: seq<Byte>, p: nat, bits: nat, valid_bits: nat, k: nat, b: Byte)
      requires bits == Window(data, p, valid_bits) && p + valid_bits == 8 * k && k < |data| && b == data[k]
      ensures BitOr(bits, Shl(b, valid_bits)) == Window(data, p, valid_bits + 8)
    {
      hide Window;
      WindowJoin(data, p, valid_bits, 8);
      WindowOfByte(data, k);
      OrShifted(bits, b, valid_bits);
    }

    /** Decode one raster: the frame ends up painted with exactly the indices the data encodes, in the frame's row
        order, and reading stops right behind the sub-blocks; corrupt data is refused. */
    method ProcessGifRaster() returns (ok: bool, ghost indices: seq<Byte>)
      requires Cursor()
      modifies `at, codes, out, history, `cur_x, `cur_y, `step, `parse, `row, `col, `rowStep
      ensures var cs := ByteAt(input, old(at)); var start := if old(at) < |input| then old(at) + 1 else old(at);
              if cs > 12 then !ok
              else
                StateOk(cs, Start(cs)) &&
                (if ok then Decode(cs, Start(cs), Payload(input, start), 0, []) == Image(indices) &&
                            Drawn(old(View()), old(Rows()), old(col), indices) &&
                            AtEnd(input, at, ChainEnd(input, start))
                 else Decode(cs, Start(cs), Payload(input, start), 0, []).Corrupt?)
    {
      hide Cursor, Drawn, Initial, Dict, InitialEntries, StateOk, DecodeCode, Payload, ChainEnd, Decode, InStepWith;
      indices := [];
      CodesApart();
      ghost var v, rows, x := View(), Rows(), col;
      StartDrawn();
      var lzw_cs := Get8();
      if lzw_cs > 12 {
        return false, [];
      }
      var clear := Shl(1, lzw_cs);
      ShlIsMul(1, lzw_cs);
      InitCodes(lzw_cs, clear);
      StartInStep(lzw_cs);
      ok, indices := RasterLoop(lzw_cs, clear, v, rows, x);
    }

    /** The code loop. */
    method RasterLoop(lzw_cs: nat, clear: nat, ghost v: Canvas, ghost rows: seq<nat>, ghost x: nat)
      returns (ok: bool, ghost indices: seq<Byte>)
      requires Cursor() && Drawn(v, rows, x, []) && lzw_cs <= 12 && clear == Pow2(lzw_cs)
      requires InStepWith(lzw_cs, Start(lzw_cs), clear + 2) && StateOk(lzw_cs, Start(lzw_cs))
      modifies `at, codes, out, history, `cur_x, `cur_y, `step, `parse, `row, `col, `rowStep
      ensures ok ==> Decode(lzw_cs, Start(lzw_cs), Payload(input, old(at)), 0, []) == Image(indices)
      ensures ok ==> Drawn(v, rows, x, indices) && AtEnd(input, at, ChainEnd(input, old(at)))
      ensures !ok ==> Decode(lzw_cs, Start(lzw_cs), Payload(input, old(at)), 0, []).Corrupt?
    {
      hide Cursor, Drawn, Initial, StateOk, DecodeCode, Payload, ChainEnd, Slice, Window, InStepWith, Low;
      hide BitAnd, BitOr, Shl, Shr, AtEnd, SameEnd, Live;
      StepIsOk(lzw_cs);
      indices := [];
      CodesApart();
      ghost var data, end := Payload(input, at), ChainEnd(input, at);
      var first, codesize: nat, avail: nat, oldcode := true, lzw_cs + 1, clear + 2, -1;
      ghost var s := Start(lzw_cs);
      ghost var goal := Decode(lzw_cs, s, data, 0, []);
      var bits: nat, valid_bits: nat, len: nat := 0, 0, 0;
      ghost var k: nat, p: nat := 0, 0;
      NoBits(data);
      NothingSliced(input, at);
      SameStart(input, at);
      while true
        invariant Cursor() && Drawn(v, rows, x, indices)
        invariant InStepWith(lzw_cs, s, avail) && s == State(codesize, s.table, oldcode, first)
        invariant oldcode >= 0 ==> Live(lzw_cs, oldcode)
        invariant StateOk(lzw_cs, s) && codesize > 0 && goal == Decode(lzw_cs, s, data, p, indices)
        invariant k <= |data| && data[k..] == Remaining(input, at, len) && SameEnd(input, at + len, end)
        invariant p + valid_bits == 8 * k && bits == Window(data, p, valid_bits)
        decreases 16 * |data| - 8 * k - p
      {
        if valid_bits < codesize {
          var more, b;
          more, b, len := DataByte(len, end);
          if !more {
            return true, indices;
          }
          PutByte(data, p, bits, valid_bits, k, b);
          bits := BitOr(bits, Shl(b, valid_bits));
          valid_bits, k := valid_bits + 8, k + 1;
        } else {
          TakeCode(data, p, bits, valid_bits, codesize);
          var code := BitAnd(bits, Shl(1, codesize) - 1);
          bits := Shr(bits, codesize);
          valid_bits, p := valid_bits - codesize, p + codesize;
          var verdict;
          verdict, codesize, avail, oldcode, first, s, indices :=
            CodeStep(code, clear, codesize, avail, oldcode, first, lzw_cs, s, v, rows, x, indices);
          if verdict.Failed? {
            return false, indices;
          }
          if verdict.Finished? {
            SkipBlocks(len, end);
            return true, indices;
          }
          StepIsOk(lzw_cs);
        }
      }
    }

    /** A state in step with the code array is well formed. */
    lemma StepIsOk(cs: nat)
      ensures forall s, n :: InStepWith(cs, s, n) ==> StateOk(cs, s) && s.size > 0
    {
    }

    lemma NoBits(data: seq<Byte>)
      ensures Window(data, 0, 0) == 0
    {
    }

    lemma StartDrawn()
      requires Cursor()
      ensures Drawn(View(), Rows(), col, [])
    {
      RowsAhead();
    }

    lemma StartInStep(cs: nat)
      requires cs <= 12 && InitialEntries(cs, codes[..])
      ensures InStepWith(cs, Start(cs), Pow2(cs) + 2) && StateOk(cs, Start(cs))
    {
    }
  }

  /** What acting on one code led to. */
  datatype Verdict = Continue | Finished | Failed

  /** The sub-blocks from i end where they should; positions past the end of input are alike. */
  ghost predicate SameEnd(input: seq<Byte>, i: nat, end: nat)
  {
    AtEnd(input, ChainEnd(input, i), end)
  }

  ghost predicate AtEnd(input: seq<Byte>, i: nat, end: nat)
  {
    i == end || (i >= |input| && end >= |input|)
  }

  lemma SameStart(input: seq<Byte>, i: nat)
    ensures SameEnd(input, i, ChainEnd(input, i))
  {
  }

  lemma NewBlock(input: seq<Byte>, i: nat, end: nat)
    requires SameEnd(input, i, end)
    ensures var n := ByteAt(input, i); var j := if i < |input| then i + 1 else i;
            Remaining(input, i, 0) == (if n == 0 then [] else Remaining(input, j, n)) &&
            (if n == 0 then AtEnd(input, j, end) else i < |input| && SameEnd(input, j + n, end))
  {
    hide Slice, ChainEnd, Payload;
    NothingSliced(input, i);
    if i < |input| && input[i] > 0 {
      Unfold(input, i, input[i]);
    } else {
      ChainOver(input, i);
    }
  }

  /** The chain ends at an empty sub-block, or at the end of the input. */
  lemma ChainOver(input: seq<Byte>, i: nat)
    requires i >= |input| || input[i] == 0
    ensures ChainEnd(input, i) == (if i < |input| then i + 1 else i) && Payload(input, i) == []
  {
  }

  lemma NothingSliced(input: seq<Byte>, i: nat)
    ensures Slice(input, i, 0) == []
  {
  }

  lemma TakeEnd(input: seq<Byte>, i: nat, n: nat, end: nat)
    requires n > 0 && SameEnd(input, i + n, end)
    ensures var j := if i < |input| then i + 1 else i; SameEnd(input, j + n - 1, end)
  {
  }

  lemma EntryFacts(cs: nat, codes: seq<Code>, s: State, code: nat)
    requires StateOk(cs, s) && Dict(cs, codes, s.table) && 0 <= s.prev && Live(cs, s.prev)
    requires code <= |s.table| && Live(cs, code)
    ensures s.prev < |s.table| && s.table[s.prev] != [] && (code < |s.table| ==> s.table[code] != [])
    ensures s.prev < |codes| && codes[s.prev].first == s.table[s.prev][0]
    ensures code < |s.table| ==> code < |codes| && codes[code].first == s.table[code][0]
  {
    DictAt(cs, codes, s.table, s.prev);
    if code < |s.table| {
      DictAt(cs, codes, s.table, code);
    }
  }

  lemma CursorArithmetic(top: nat, row: nat, width: nat, x: nat)
    ensures 4 * x + (top * (4 * width) + row * (4 * width)) == 4 * ((top + row) * width + x)
  {
    assert (top + row) * width == top * width + row * width;
  }

  lemma RowsPast(row: nat, h: nat, ls: nat)
    requires row >= h
    ensures row * ls >= h * ls
  {
  }

  lemma {:induction false} PassRowsOk(f: Frame, y: nat, step: nat)
    requires step > 0
    ensures RowsOk(f, PassRows(y, step, f.h))
    decreases f.h - y
  {
    if y < f.h {
      PassRowsOk(f, y + step, step);
    }
  }

  lemma {:induction false} LaterRowsOk(f: Frame, parse: nat)
    ensures RowsOk(f, LaterPasses(parse, f.h))
  {
    hide PassRows;
    if parse > 0 {
      LaterRowsOk(f, parse - 1);
      PassRowsOk(f, Pow2(parse - 1), Pow2(parse));
    }
  }

  lemma AllRowsOk(f: Frame, row: nat, step: nat, parse: nat)
    requires step > 0
    ensures RowsOk(f, PassRows(row, step, f.h) + LaterPasses(parse, f.h))
  {
    hide PassRows, LaterPasses;
    PassRowsOk(f, row, step);
    LaterRowsOk(f, parse);
  }

  /** Painting a single index. */
  lemma OneMore(f: Frame, colors: seq<Byte>, v: Canvas, rows: seq<nat>, x: nat, c: Byte)
    requires FrameOk(f) && ColorTable(colors) && CanvasOf(f, v) && RowsOk(f, rows) && rows != [] && x < f.w
    ensures PixelAt(f, x, rows[0]) < f.width * f.height
    ensures Paint(f, colors, v, rows, x, [c]) == Put(colors, v, PixelAt(f, x, rows[0]), c)
    ensures Moved(f.w, rows, x, 1) == if x + 1 < f.w then (rows, x + 1) else (rows[1..], 0)
  {
    hide PixelAt, Put;
    PixelInImage(f, x, rows[0]);
  }
}
