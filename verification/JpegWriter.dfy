/** The JPEG writer: how a block of coefficients is printed. */
module JpegWriter {
  import opened Basics
  import opened Bits
  import opened Canonical
  import opened JpegTable
  import opened JpegBits
  import opened JpegReader
  import opened JpegPiece
  import opened JpegBlock
  import opened JpegSink

  // ---------- writing a block ----------

  /** The coefficients q, in zigzag order, are blank from place i up to place n. */
  predicate Blank(q: seq<int>, i: nat, n: nat)
    requires n <= |q|
  {
    forall x :: i <= x < n ==> q[x] == 0
  }

  /** What is read are the coefficients q from place k on. */
  ghost predicate Encodes(read: seq<Coefficient>, q: seq<int>, k: nat)
    requires |q| == 64
    decreases |read|
  {
    if k >= 64 then k == 64 && read == []
    else
      read != [] &&
      match read[0]
      case Value(run, v) => k + run < 64 && Blank(q, k, k + run) && q[k + run] == v && Encodes(read[1..], q, k + run + 1)
      case SkipSixteen => k + 16 <= 64 && Blank(q, k, k + 16) && Encodes(read[1..], q, k + 16)
      case EndOfBlock => |read| == 1 && Blank(q, k, 64)
      case Bad => false
  }

  lemma {:induction false} EncodesComplete(read: seq<Coefficient>, q: seq<int>, k: nat)
    requires |q| == 64 && Encodes(read, q, k)
    ensures Complete(k, read)
    decreases |read|
  {
    if k < 64 {
      match read[0]
      case Value(run, _) => EncodesComplete(read[1..], q, k + run + 1);
      case SkipSixteen => EncodesComplete(read[1..], q, k + 16);
      case EndOfBlock =>
    }
  }

  /** Drawn into blank entries, they stand there in natural order, dequantised; the other entries stay. */
  lemma {:induction false} EncodedIsDrawn(block: seq<int>, read: seq<Coefficient>, q: seq<int>, k: nat, dequant: seq<nat>,
                                          i: nat)
    requires |block| == |q| == |dequant| == 64 && Runs(read) && Encodes(read, q, k) && i < 64
    requires Dezigzag(i) < 64 && (i >= k ==> block[Dezigzag(i)] == 0)
    ensures var at := Dezigzag(i);
            Drawn(block, k, read, dequant)[at] == if i < k then block[at] else Short(q[i] * dequant[at])
    decreases |read|
  {
    hide Dezigzag;
    assert i >= k && q[i] == 0 ==> Short(q[i] * dequant[Dezigzag(i)]) == 0;
    if k < 64 {
      match read[0]
      case Value(run, v) =>
        ZigzagOnce(i);
        ZigzagOnce(k + run);
        var zig := Dezigzag(k + run);
        EncodedIsDrawn(block[zig := Short(v * dequant[zig])], read[1..], q, k + run + 1, dequant, i);
      case SkipSixteen =>
        EncodedIsDrawn(block, read[1..], q, k + 16, dequant, i);
      case EndOfBlock =>
    }
  }

  /** The number of bits of a value (section F.1.2.1.2 of ITU-T T.81). */
  function SizeOf(v: nat): (n: nat)
    ensures v < Pow2(n) && (n > 0 ==> v >= Pow2(n - 1))
  {
    if v == 0 then 0 else SizeOf(v / 2) + 1
  }

  /** The bits of a value: a negative one is written one below its complement. */
  function RawOf(v: int): (raw: nat)
    ensures raw < Pow2(SizeOf(Abs(v))) && Extended(raw, SizeOf(Abs(v))) == v
  {
    if v < 0 then v + Pow2(SizeOf(-v)) - 1 else v
  }

  /** The place of the first coefficient from k on that is not zero. */
  function FirstUsed(q: seq<int>, k: nat): (n: nat)
    requires k <= |q|
    ensures k <= n <= |q| && Blank(q, k, n) && (n < |q| ==> q[n] != 0)
    decreases |q| - k
  {
    if k == |q| || q[k] != 0 then k else FirstUsed(q, k + 1)
  }

  lemma {:induction false} SizeBelow(v: nat, n: nat)
    requires v < Pow2(n)
    ensures SizeOf(v) <= n && (v > 0 ==> SizeOf(v) > 0)
  {
    if v > 0 {
      SizeBelow(v / 2, n - 1);
    }
  }

  /** All coefficients behind the first one have at most so many bits. */
  predicate Bounded(q: seq<int>, most: nat)
  {
    forall i :: 1 <= i < |q| ==> Abs(q[i]) < Pow2(most)
  }

  /** The index leads to the symbols of a block: the end, sixteen zeros, and a run with each size that can be. */
  ghost predicate Indexes(index: seq<nat>, lens: seq<nat>, values: seq<nat>, most: nat)
  {
    |index| == 256 && |lens| <= 256 == |values| &&
    forall rs :: 0 <= rs < 256 && (rs % 16 == 0 ==> rs == 0 || rs == 0xf0) && rs % 16 <= most ==>
      index[rs] < |lens| && values[index[rs]] == rs
  }

  /** The symbol of a run and the size of the value behind it. */
  function RunSize(run: nat, v: int): (rs: nat)
    requires run < 16 && Abs(v) < Pow2(15)
    ensures rs < 256
  {
    SizeBelow(Abs(v), 15);
    16 * run + SizeOf(Abs(v))
  }

  /** The pieces of a block: runs of zeros with the value behind them, and the end where only zeros are left. The symbols
      are found in an index. */
  function Pieces(q: seq<int>, k: nat, index: seq<nat>): seq<Piece>
    requires |q| == 64 && 1 <= k <= 64 && |index| == 256 && Bounded(q, 15)
    decreases 64 - k
  {
    var n := FirstUsed(q, k);
    if k == 64 then []
    else if n == 64 then [Piece(index[0], 0)]
    else if n - k >= 16 then [Piece(index[0xf0], 0)] + Pieces(q, k + 16, index)
    else [Piece(index[RunSize(n - k, q[n])], RawOf(q[n]))] + Pieces(q, n + 1, index)
  }

  lemma ValuePiece(index: seq<nat>, lens: seq<nat>, values: seq<nat>, most: nat, run: nat, v: int) returns (p: Piece)
    requires Indexes(index, lens, values, most) && most <= 15 && run < 16 && v != 0
    requires Abs(v) < Pow2(most) && Abs(v) < Pow2(15)
    ensures p == Piece(index[RunSize(run, v)], RawOf(v))
    ensures PieceOk(lens, values, p) && Meaning(values, p) == Value(run, v)
  {
    hide SizeOf, Extended, RawOf, Pow2;
    SizeBelow(Abs(v), most);
    var n := SizeOf(Abs(v));
    var rs := 16 * run + n;
    p := Piece(index[rs], RawOf(v));
    assert rs % 16 == n && rs / 16 == run;
  }

  lemma MeaningsOfMore(lens: seq<nat>, values: seq<nat>, p: Piece, ps: seq<Piece>)
    requires PieceOk(lens, values, p) && PiecesOk(lens, values, ps)
    ensures PiecesOk(lens, values, [p] + ps)
    ensures Meanings(lens, values, [p] + ps) == [Meaning(values, p)] + Meanings(lens, values, ps)
    ensures Meanings(lens, values, [p] + ps)[1..] == Meanings(lens, values, ps)
  {
    hide PieceOk, Meaning;
  }

  /** The first coefficient from place k on, with those from place next on behind it. */
  ghost predicate Leads(c: Coefficient, q: seq<int>, k: nat, next: nat)
    requires |q| == 64
  {
    k < next <= 64 &&
    match c
    case Value(run, v) => next == k + run + 1 && Blank(q, k, k + run) && q[k + run] == v
    case SkipSixteen => next == k + 16 && Blank(q, k, next)
    case EndOfBlock => next == 64 && Blank(q, k, 64)
    case Bad => false
  }

  lemma EncodesMore(c: Coefficient, read: seq<Coefficient>, q: seq<int>, k: nat, next: nat)
    requires |q| == 64 && Leads(c, q, k, next) && Encodes(read, q, next)
    ensures Encodes([c] + read, q, k)
  {
    assert ([c] + read)[1..] == read;
  }

  lemma FirstPiece(q: seq<int>, k: nat, index: seq<nat>, lens: seq<nat>, values: seq<nat>, most: nat)
    returns (p: Piece, next: nat)
    requires |q| == 64 && 1 <= k < 64 && most <= 15 && Bounded(q, most) && Bounded(q, 15) && Indexes(index, lens, values, most)
    ensures PieceOk(lens, values, p) && Leads(Meaning(values, p), q, k, next)
    ensures Pieces(q, k, index) == [p] + Pieces(q, next, index)
  {
    hide PieceOk, Meaning, Extended, SizeOf, RawOf, Pow2, Indexes, RunSize, Abs, Pieces, FirstUsed, Leads, Bounded;
    IndexSize(index, lens, values, most);
    PlainSymbols(index, lens, values, most);
    var n := FirstUsed(q, k);
    PiecesStart(q, k, index);
    if n == 64 {
      p, next := Piece(index[0], 0), 64;
      BlankLeads(q, k);
    } else if n - k >= 16 {
      p, next := Piece(index[0xf0], 0), k + 16;
      BlankLeads(q, k);
    } else {
      HasBits(q, n, most);
      p := ValuePiece(index, lens, values, most, n - k, q[n]);
      next := n + 1;
      BlankLeads(q, k);
    }
  }

  lemma HasBits(q: seq<int>, n: nat, most: nat)
    requires 1 <= n < |q| && Bounded(q, most) && Bounded(q, 15)
    ensures Abs(q[n]) < Pow2(most) && Abs(q[n]) < Pow2(15)
  {
  }

  /** The blanks up to the next coefficient are a run, sixteen zeros, or the end. */
  lemma BlankLeads(q: seq<int>, k: nat)
    requires |q| == 64 && k < 64
    ensures var n := FirstUsed(q, k);
            if n == 64 then Leads(EndOfBlock, q, k, 64)
            else if n - k >= 16 then Leads(SkipSixteen, q, k, k + 16)
            else q[n] != 0 && Leads(Value(n - k, q[n]), q, k, n + 1)
  {
    hide FirstUsed;
  }

  lemma PiecesStart(q: seq<int>, k: nat, index: seq<nat>)
    requires |q| == 64 && 1 <= k < 64 && |index| == 256 && Bounded(q, 15)
    ensures var n := FirstUsed(q, k);
            if n == 64 then Pieces(q, k, index) == [Piece(index[0], 0)] + Pieces(q, 64, index)
            else if n - k >= 16 then Pieces(q, k, index) == [Piece(index[0xf0], 0)] + Pieces(q, k + 16, index)
            else (HasBits(q, n, 15);
                  Pieces(q, k, index) == [Piece(index[RunSize(n - k, q[n])], RawOf(q[n]))] + Pieces(q, n + 1, index))
  {
    hide FirstUsed, Extended, SizeOf, RawOf, Pow2, RunSize, Abs;
    if FirstUsed(q, k) == 64 {
      assert Pieces(q, 64, index) == [];
    }
  }

  /** The pieces of a block stand for its coefficients. */
  lemma {:induction false} PiecesEncode(q: seq<int>, k: nat, index: seq<nat>, lens: seq<nat>, values: seq<nat>, most: nat)
    requires |q| == 64 && 1 <= k <= 64 && most <= 15 && Bounded(q, most) && Bounded(q, 15)
    requires Indexes(index, lens, values, most)
    ensures PiecesOk(lens, values, Pieces(q, k, index))
    ensures Encodes(Meanings(lens, values, Pieces(q, k, index)), q, k)
    decreases 64 - k
  {
    if k < 64 {
      hide Pieces, Encodes, PieceOk, Meaning, Meanings, Bounded, Indexes;
      IndexSize(index, lens, values, most);
      var p, next := FirstPiece(q, k, index, lens, values, most);
      PiecesEncode(q, next, index, lens, values, most);
      MeaningsOfMore(lens, values, p, Pieces(q, next, index));
      EncodesMore(Meaning(values, p), Meanings(lens, values, Pieces(q, next, index)), q, k, next);
    }
  }

  lemma PlainSymbols(index: seq<nat>, lens: seq<nat>, values: seq<nat>, most: nat)
    requires Indexes(index, lens, values, most)
    ensures |index| == 256
    ensures var p := Piece(index[0], 0); PieceOk(lens, values, p) && Meaning(values, p) == EndOfBlock
    ensures var p := Piece(index[0xf0], 0); PieceOk(lens, values, p) && Meaning(values, p) == SkipSixteen
  {
  }

  lemma IndexSize(index: seq<nat>, lens: seq<nat>, values: seq<nat>, most: nat)
    requires Indexes(index, lens, values, most)
    ensures |index| == 256
  {
  }

  // ---------- the tables of the writer ----------

  /** An entry of the writer's table is the code of the symbol with this value, and its length. */
  ghost predicate Entry(ht: seq<(nat, nat)>, index: seq<nat>, lens: seq<nat>, values: seq<nat>, rs: nat)
  {
    rs < |index| == |ht| && index[rs] < |lens| <= |values| && values[index[rs]] == rs &&
    ht[rs] == (Code(lens, index[rs]), lens[index[rs]])
  }

  /** The table holds the symbols of a block. */
  ghost predicate AcTable(ht: seq<(nat, nat)>, index: seq<nat>, lens: seq<nat>, values: seq<nat>, most: nat)
  {
    |ht| == |index| == 256 && |lens| <= 256 == |values| && Sorted(lens) && Kraft(lens) &&
    forall rs :: 0 <= rs < 256 && (rs % 16 == 0 ==> rs == 0 || rs == 0xf0) && rs % 16 <= most ==>
      Entry(ht, index, lens, values, rs)
  }

  /** The table holds the sizes of a difference. */
  ghost predicate DcTable(ht: seq<(nat, nat)>, index: seq<nat>, lens: seq<nat>, values: seq<nat>, most: nat)
  {
    |ht| == |index| == 256 && |lens| <= 256 == |values| && Sorted(lens) && Kraft(lens) && most <= 15 &&
    forall size :: 0 <= size <= most ==> Entry(ht, index, lens, values, size)
  }

  lemma AcIndexes(ht: seq<(nat, nat)>, index: seq<nat>, lens: seq<nat>, values: seq<nat>, most: nat)
    requires AcTable(ht, index, lens, values, most)
    ensures Indexes(index, lens, values, most)
  {
    forall rs | 0 <= rs < 256 && (rs % 16 == 0 ==> rs == 0 || rs == 0xf0) && rs % 16 <= most
      ensures index[rs] < |lens| && values[index[rs]] == rs
    {
      assert Entry(ht, index, lens, values, rs);
    }
  }

  /** The bits of a value and their number. */
  method CalcBits(val: int) returns (bits: nat, size: nat)
    ensures size == if val == 0 then 1 else SizeOf(Abs(val))
    ensures val != 0 && size <= 16 ==> bits == RawOf(val)
  {
    hide Extended, Pow2;
    var tmp: nat := Abs(val) / 2;
    size := 1;
    assert SizeOf(Abs(val)) == if val == 0 then 0 else 1 + SizeOf(tmp);
    while tmp != 0
      invariant if val == 0 then size == 1 && tmp == 0 else SizeOf(Abs(val)) == size + SizeOf(tmp)
    {
      tmp := tmp / 2;
      size := size + 1;
    }
    var v := if val < 0 then val - 1 else val;
    bits := v % Pow2(size) % 0x1_0000;
    if val != 0 {
      Masked(val);
      if size <= 16 {
        Pow2Values();
        Pow2Monotone(size, 16);
      }
    }
  }

  lemma Masked(val: int)
    requires val != 0
    ensures (if val < 0 then val - 1 else val) % Pow2(SizeOf(Abs(val))) == RawOf(val)
  {
    var m := Pow2(SizeOf(Abs(val)));
    hide SizeOf, Pow2, Extended;
    Remainder(if val < 0 then val - 1 else val, m);
  }

  lemma Remainder(x: int, m: int)
    requires -m <= x < m
    ensures x % m == if x < 0 then x + m else x
  {
  }

  /** Writes an entry of the table and then the bits of a value. */
  method WritePiece(sink: BitSink, ht: seq<(nat, nat)>, rs: nat, raw: nat, ghost index: seq<nat>, ghost lens: seq<nat>,
                    ghost values: seq<nat>)
    requires sink.Valid() && Sorted(lens) && Kraft(lens) && |lens| <= 256 == |values| && Entry(ht, index, lens, values, rs)
    requires raw < Pow2(rs % 16)
    modifies sink
    ensures sink.Valid() && PieceOk(lens, values, Piece(index[rs], raw))
    ensures sink.Contents() == old(sink.Contents()) + PieceBits(lens, values, Piece(index[rs], raw))
  {
    hide Kraft, Code, Held, BitsOf, BitSink.Contents, Pow2;
    CodeFits(lens, index[rs]);
    sink.WriteBits(ht[rs].0, ht[rs].1);
    if rs % 16 != 0 {
      sink.WriteBits(raw, rs % 16);
    }
  }

  // ---------- writing a block ----------

  /** The bits of the coefficients from place k on. */
  ghost function BitsFrom(q: seq<int>, k: nat, index: seq<nat>, lens: seq<nat>, values: seq<nat>): seq<bool>
    requires |q| == 64 && 1 <= k <= 64 && |index| == 256 && Bounded(q, 15) && PiecesOk(lens, values, Pieces(q, k, index))
  {
    PiecesBits(lens, values, Pieces(q, k, index))
  }

  lemma FirstIs(q: seq<int>, k: nat, n: nat)
    requires k <= n <= |q| && Blank(q, k, n) && (n < |q| ==> q[n] != 0)
    ensures FirstUsed(q, k) == n
  {
  }

  /** The bits of the next piece come first. */
  lemma NextPiece(q: seq<int>, k: nat, n: nat, index: seq<nat>, lens: seq<nat>, values: seq<nat>, most: nat)
    returns (p: Piece, next: nat)
    requires |q| == 64 && 1 <= k <= n <= 64 && k < 64 && Blank(q, k, n) && (n < 64 ==> q[n] != 0)
    requires most <= 15 && Bounded(q, most) && Bounded(q, 15) && Indexes(index, lens, values, most)
    ensures if n == 64 then p == Piece(index[0], 0) && next == 64
            else if n - k >= 16 then p == Piece(index[0xf0], 0) && next == k + 16
            else p == Piece(index[RunSize(n - k, q[n])], RawOf(q[n])) && next == n + 1
    ensures PieceOk(lens, values, p)
    ensures PiecesOk(lens, values, Pieces(q, k, index)) && PiecesOk(lens, values, Pieces(q, next, index))
    ensures BitsFrom(q, k, index, lens, values) == PieceBits(lens, values, p) + BitsFrom(q, next, index, lens, values)
  {
    hide PieceOk, Meaning, Extended, SizeOf, RawOf, Pow2, Indexes, RunSize, Abs, PieceBits;
    FirstIs(q, k, n);
    PiecesEncode(q, k, index, lens, values, most);
    IndexSize(index, lens, values, most);
    next := if n == 64 then 64 else if n - k >= 16 then k + 16 else n + 1;
    PiecesEncode(q, next, index, lens, values, most);
    p := Pieces(q, k, index)[0];
    assert Pieces(q, k, index) == [p] + Pieces(q, next, index);
    assert ([p] + Pieces(q, next, index))[1..] == Pieces(q, next, index);
  }

  lemma RunSizeParts(run: nat, v: int, most: nat)
    requires run < 16 && v != 0 && Abs(v) < Pow2(most) && most <= 15 && Abs(v) < Pow2(15)
    ensures var size := SizeOf(Abs(v)); RunSize(run, v) == 16 * run + size && 1 <= RunSize(run, v) % 16 == size <= most
  {
    hide SizeOf, Pow2;
    SizeBelow(Abs(v), most);
  }

  /** Ends a block in which only zeros are left. */
  method WriteEnd(sink: BitSink, du: seq<int>, ghost k: nat, ht: seq<(nat, nat)>, ghost index: seq<nat>, ghost lens: seq<nat>,
                  ghost values: seq<nat>, ghost most: nat)
    requires sink.Valid() && |du| == 64 && AcTable(ht, index, lens, values, most)
    requires most <= 15 && Bounded(du, most) && Bounded(du, 15) && 1 <= k < 64 && Blank(du, k, 64)
    modifies sink
    ensures sink.Valid() && PiecesOk(lens, values, Pieces(du, k, index))
    ensures sink.Contents() == old(sink.Contents()) + BitsFrom(du, k, index, lens, values)
  {
    hide Kraft, Code, BitSink.Contents, Held, Unused, Stuffed, Pow2, Sorted, Indexes, PieceOk, PieceBits, RunSize, Bounded, Entry,
         FirstUsed;
    AcIndexes(ht, index, lens, values, most);
    ghost var p, next := NextPiece(du, k, 64, index, lens, values, most);
    NothingLeft(du, index, lens, values);
    OneValue();
    WritePiece(sink, ht, 0, 0, index, lens, values);
  }

  lemma NothingLeft(du: seq<int>, index: seq<nat>, lens: seq<nat>, values: seq<nat>)
    requires |du| == 64 && |index| == 256 && Bounded(du, 15)
    ensures PiecesOk(lens, values, Pieces(du, 64, index)) && BitsFrom(du, 64, index, lens, values) == []
  {
  }

  /** Writes sixteen zeros as often as they stand before place i. */
  method WriteBlanks(sink: BitSink, du: seq<int>, start: nat, i: nat, ht: seq<(nat, nat)>, ghost index: seq<nat>,
                     ghost lens: seq<nat>, ghost values: seq<nat>, ghost most: nat) returns (ghost k: nat)
    requires sink.Valid() && |du| == 64 && AcTable(ht, index, lens, values, most)
    requires most <= 15 && Bounded(du, most) && Bounded(du, 15) && 1 <= start <= i < 64 && du[i] != 0 && Blank(du, start, i)
    requires PiecesOk(lens, values, Pieces(du, start, index))
    modifies sink
    ensures sink.Valid() && start <= k <= i && i - k == (i - start) % 16 && PiecesOk(lens, values, Pieces(du, k, index))
    ensures sink.Contents() + BitsFrom(du, k, index, lens, values) ==
            old(sink.Contents()) + BitsFrom(du, start, index, lens, values)
  {
    hide Kraft, Code, BitSink.Contents, Held, Unused, Stuffed, Pow2, Sorted, Indexes, Pieces, PiecesOk, PieceOk, PieceBits,
         RunSize, Entry, FirstUsed, BitsFrom, SizeOf, RawOf;
    AcIndexes(ht, index, lens, values, most);
    ghost var all := sink.Contents() + BitsFrom(du, start, index, lens, values);
    k := start;
    OneValue();
    for m := 0 to (i - start) / 16
      invariant k == start + 16 * m && sink.Valid() && PiecesOk(lens, values, Pieces(du, k, index))
      invariant sink.Contents() + BitsFrom(du, k, index, lens, values) == all
    {
      ghost var p, after := NextPiece(du, k, i, index, lens, values, most);
      ghost var before, left := sink.Contents(), BitsFrom(du, after, index, lens, values);
      WritePiece(sink, ht, 0xf0, 0, index, lens, values);
      assert before + (PieceBits(lens, values, p) + left) == before + PieceBits(lens, values, p) + left;
      k := after;
    }
  }

  /** Writes the next run of zeros and the value behind it. */
  method WriteRun(sink: BitSink, du: seq<int>, start: nat, end: nat, ht: seq<(nat, nat)>, ghost index: seq<nat>,
                  ghost lens: seq<nat>, ghost values: seq<nat>, ghost most: nat) returns (next: nat)
    requires sink.Valid() && |du| == 64 && AcTable(ht, index, lens, values, most)
    requires most <= 15 && Bounded(du, most) && Bounded(du, 15) && 1 <= start <= end < 64 && du[end] != 0
    requires PiecesOk(lens, values, Pieces(du, start, index))
    modifies sink
    ensures sink.Valid() && start < next <= end + 1 && PiecesOk(lens, values, Pieces(du, next, index))
    ensures sink.Contents() + BitsFrom(du, next, index, lens, values) ==
            old(sink.Contents()) + BitsFrom(du, start, index, lens, values)
  {
    hide Kraft, Code, BitSink.Contents, Held, Unused, Stuffed, Pow2, Sorted, Indexes, Pieces, PiecesOk, PieceOk, PieceBits,
         RunSize, Entry, FirstUsed, BitsFrom, SizeOf, RawOf;
    AcIndexes(ht, index, lens, values, most);
    ghost var all := sink.Contents() + BitsFrom(du, start, index, lens, values);
    var i := start;
    while du[i] == 0 && i <= end
      invariant start <= i <= end && Blank(du, start, i)
    {
      i := i + 1;
    }
    var nrzeroes := i - start;
    ghost var k := start;
    if nrzeroes >= 16 {
      k := WriteBlanks(sink, du, start, i, ht, index, lens, values, most);
      nrzeroes := nrzeroes % 16;
    }
    var bits, size := CalcBits(du[i]);
    ghost var p, after := NextPiece(du, k, i, index, lens, values, most);
    ghost var before, left := sink.Contents(), BitsFrom(du, after, index, lens, values);
    RunSizeParts(nrzeroes, du[i], most);
    WritePiece(sink, ht, 16 * nrzeroes + size, bits, index, lens, values);
    assert before + (PieceBits(lens, values, p) + left) == before + PieceBits(lens, values, p) + left;
    next := i + 1;
  }

  /** Writes the coefficients behind the first one of a block: the pieces that the decoder reads. */
  method WriteAc(sink: BitSink, du: seq<int>, ht: seq<(nat, nat)>, ghost index: seq<nat>, ghost lens: seq<nat>,
                 ghost values: seq<nat>, ghost most: nat)
    requires sink.Valid() && |du| == 64 && AcTable(ht, index, lens, values, most)
    requires most <= 15 && Bounded(du, most) && Bounded(du, 15)
    modifies sink
    ensures sink.Valid() && PiecesOk(lens, values, Pieces(du, 1, index))
    ensures sink.Contents() == old(sink.Contents()) + PiecesBits(lens, values, Pieces(du, 1, index))
  {
    hide Kraft, Code, BitSink.Contents, Held, Unused, Stuffed, Pow2, Sorted, Indexes, Pieces, PiecesOk, PieceOk, PieceBits,
         RunSize, Bounded, Encodes;
    ghost var start, all := sink.Contents(), [];
    AcIndexes(ht, index, lens, values, most);
    PiecesEncode(du, 1, index, lens, values, most);
    all := start + BitsFrom(du, 1, index, lens, values);
    var end := 63;
    while end > 0 && du[end] == 0
      invariant 0 <= end <= 63 && Blank(du, end + 1, 64)
    {
      end := end - 1;
    }
    if end == 0 {
      WriteEnd(sink, du, 1, ht, index, lens, values, most);
      return;
    }
    var i := 1;
    while i <= end
      invariant 1 <= i <= end + 1 && sink.Valid() && PiecesOk(lens, values, Pieces(du, i, index))
      invariant sink.Contents() + BitsFrom(du, i, index, lens, values) == all
    {
      i := WriteRun(sink, du, i, end, ht, index, lens, values, most);
    }
    if end != 63 {
      WriteEnd(sink, du, end + 1, ht, index, lens, values, most);
    } else {
      NothingLeft(du, index, lens, values);
    }
  }

  /** A code of the writer: where each symbol stands in it, and the largest size of a value that it is used for. */
  datatype Coding = Coding(index: seq<nat>, lens: seq<nat>, values: seq<nat>, most: nat)

  /** The piece of the first coefficient: its difference to that of the block before. */
  function DcPiece(diff: int, index: seq<nat>): Piece
    requires SizeOf(Abs(diff)) < |index|
  {
    Piece(index[SizeOf(Abs(diff))], RawOf(diff))
  }

  /** The block fits the codes. */
  ghost predicate Codable(d: Coding, a: Coding, q: seq<int>, pred: int)
  {
    |q| == 64 && d.most <= 15 && Abs(q[0] - pred) < Pow2(d.most) && a.most <= 15 && Bounded(q, a.most) && Bounded(q, 15) &&
    |d.index| == 256 && Indexes(a.index, a.lens, a.values, a.most) && |d.lens| <= 256 == |d.values| &&
    forall size :: 0 <= size <= d.most ==> d.index[size] < |d.lens| && d.values[d.index[size]] == size
  }

  lemma BlockOk(d: Coding, a: Coding, q: seq<int>, pred: int)
    requires Codable(d, a, q, pred)
    ensures |a.index| == 256 && SizeOf(Abs(q[0] - pred)) <= d.most
    ensures PieceOk(d.lens, d.values, DcPiece(q[0] - pred, d.index))
    ensures d.values[DcPiece(q[0] - pred, d.index).sym] == SizeOf(Abs(q[0] - pred)) <= 15
    ensures PiecesOk(a.lens, a.values, Pieces(q, 1, a.index))
    ensures Encodes(Meanings(a.lens, a.values, Pieces(q, 1, a.index)), q, 1)
  {
    hide Encodes, Meanings, Pieces, PiecesOk, Bounded, Indexes, Extended, SizeOf, Pow2, RawOf;
    SizeBelow(Abs(q[0] - pred), d.most);
    PiecesEncode(q, 1, a.index, a.lens, a.values, a.most);
    IndexSize(a.index, a.lens, a.values, a.most);
  }

  /** The bits of a block. */
  ghost function BlockBits(d: Coding, a: Coding, q: seq<int>, pred: int): seq<bool>
    requires Codable(d, a, q, pred)
  {
    BlockOk(d, a, q, pred);
    PieceBits(d.lens, d.values, DcPiece(q[0] - pred, d.index)) + PiecesBits(a.lens, a.values, Pieces(q, 1, a.index))
  }

  /** Writes a block of quantised coefficients in zigzag order. */
  method ProcessDu(sink: BitSink, du: seq<int>, dc: int, htdc: seq<(nat, nat)>, htac: seq<(nat, nat)>, ghost d: Coding,
                   ghost a: Coding) returns (last: int)
    requires sink.Valid() && Codable(d, a, du, dc)
    requires DcTable(htdc, d.index, d.lens, d.values, d.most) && AcTable(htac, a.index, a.lens, a.values, a.most)
    modifies sink
    ensures sink.Valid() && last == du[0]
    ensures sink.Contents() == old(sink.Contents()) + BlockBits(d, a, du, dc)
  {
    hide Kraft, Code, BitSink.Contents, Held, Unused, Stuffed, Pow2, Sorted, Indexes, Pieces, PiecesOk, PieceOk, PieceBits,
         Bounded, Entry, SizeOf, RawOf, AcTable, Encodes, PiecesBits, Meanings;
    BlockOk(d, a, du, dc);
    var diff := du[0] - dc;
    ghost var start := sink.Contents();
    if diff == 0 {
      NoSizeAtAll();
      WritePiece(sink, htdc, 0, 0, d.index, d.lens, d.values);
    } else {
      var bits, size := CalcBits(diff);
      WritePiece(sink, htdc, size, bits, d.index, d.lens, d.values);
    }
    ghost var first := PieceBits(d.lens, d.values, DcPiece(diff, d.index));
    ghost var others := PiecesBits(a.lens, a.values, Pieces(du, 1, a.index));
    WriteAc(sink, du, htac, a.index, a.lens, a.values, a.most);
    assert start + first + others == start + (first + others);
    last := du[0];
  }

  lemma NoSizeAtAll()
    ensures Abs(0) == 0 && SizeOf(0) == 0 && RawOf(0) == 0 && Pow2(0) == 1
  {
  }
}
