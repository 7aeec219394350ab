/** The coefficients of a JPEG block: the zigzag order, the loop that reads them, and the first one. */
module JpegBlock {
  import opened Basics
  import opened Bits
  import opened Canonical
  import opened JpegTable
  import opened JpegBits
  import opened JpegReader
  import opened JpegPiece

  // ---------- the coefficients of a block ----------

  /** The zigzag order by rows of eight: where each place of the order stands in a block. */
  const DEZIGZAG_ROWS: seq<seq<nat>> := [
    [0, 1, 8, 16, 9, 2, 3, 10],
    [17, 24, 32, 25, 18, 11, 4, 5],
    [12, 19, 26, 33, 40, 48, 41, 34],
    [27, 20, 13, 6, 7, 14, 21, 28],
    [35, 42, 49, 56, 57, 50, 43, 36],
    [29, 22, 15, 23, 30, 37, 44, 51],
    [58, 59, 52, 45, 38, 31, 39, 46],
    [53, 60, 61, 54, 47, 55, 62, 63]]

  /** Its inverse: the place of each entry of a block in the order. */
  const ZIGZAG_ROWS: seq<seq<nat>> := [
    [0, 1, 5, 6, 14, 15, 27, 28],
    [2, 4, 7, 13, 16, 26, 29, 42],
    [3, 8, 12, 17, 25, 30, 41, 43],
    [9, 11, 18, 24, 31, 40, 44, 53],
    [10, 19, 23, 32, 39, 45, 52, 54],
    [20, 22, 33, 38, 46, 51, 55, 60],
    [21, 34, 37, 47, 50, 56, 59, 61],
    [35, 36, 48, 49, 57, 58, 62, 63]]

  /** The entry at a place of the order; corrupt data may run up to 15 places past the end. */
  function Dezigzag(k: nat): nat
    requires k < 79
  {
    if k < 64 then DEZIGZAG_ROWS[k / 8][k % 8] else 63
  }

  predicate Inverse(k: nat)
    requires k < 64
  {
    var at := DEZIGZAG_ROWS[k / 8][k % 8];
    at < 64 && ZIGZAG_ROWS[at / 8][at % 8] == k && (k > 0 ==> at > 0)
  }

  lemma FirstRows()
    ensures forall k :: 0 <= k < 16 ==> Inverse(k)
  {
    assert Inverse(0) && Inverse(1) && Inverse(2) && Inverse(3) && Inverse(4) && Inverse(5) && Inverse(6) && Inverse(7);
    assert Inverse(8) && Inverse(9) && Inverse(10) && Inverse(11) && Inverse(12) && Inverse(13) && Inverse(14) && Inverse(15);
  }

  lemma SecondRows()
    ensures forall k :: 16 <= k < 32 ==> Inverse(k)
  {
    assert Inverse(16) && Inverse(17) && Inverse(18) && Inverse(19) && Inverse(20) && Inverse(21) && Inverse(22) && Inverse(23);
    assert Inverse(24) && Inverse(25) && Inverse(26) && Inverse(27) && Inverse(28) && Inverse(29) && Inverse(30) && Inverse(31);
  }

  lemma ThirdRows()
    ensures forall k :: 32 <= k < 48 ==> Inverse(k)
  {
    assert Inverse(32) && Inverse(33) && Inverse(34) && Inverse(35) && Inverse(36) && Inverse(37) && Inverse(38) && Inverse(39);
    assert Inverse(40) && Inverse(41) && Inverse(42) && Inverse(43) && Inverse(44) && Inverse(45) && Inverse(46) && Inverse(47);
  }

  lemma LastRows()
    ensures forall k :: 48 <= k < 64 ==> Inverse(k)
  {
    assert Inverse(48) && Inverse(49) && Inverse(50) && Inverse(51) && Inverse(52) && Inverse(53) && Inverse(54) && Inverse(55);
    assert Inverse(56) && Inverse(57) && Inverse(58) && Inverse(59) && Inverse(60) && Inverse(61) && Inverse(62) && Inverse(63);
  }

  /** Every place of the order stands inside the block, no two of the 64 at the same entry. */
  lemma ZigzagOnce(k: nat)
    requires k < 79
    ensures Dezigzag(k) < 64 && (k > 0 ==> Dezigzag(k) > 0)
    ensures k < 64 ==> ZIGZAG_ROWS[Dezigzag(k) / 8][Dezigzag(k) % 8] == k
  {
    FirstRows();
    SecondRows();
    ThirdRows();
    LastRows();
    assert k < 64 ==> Inverse(k);
  }

  /** A number stored in 16 bits. */
  function Short(x: int): int
  {
    (x + 0x8000) % 0x1_0000 - 0x8000
  }

  ghost predicate Runs(read: seq<Coefficient>)
  {
    forall i :: 0 <= i < |read| ==> Sound(read[i])
  }

  /** The place behind the coefficients that were read from place k on; the end of the block is behind all places. */
  ghost function PlaceAfter(k: nat, read: seq<Coefficient>): nat
    decreases |read|
  {
    if read == [] || k >= 64 then k
    else match read[0]
      case Value(run, _) => PlaceAfter(k + run + 1, read[1..])
      case SkipSixteen => PlaceAfter(k + 16, read[1..])
      case _ => 64
  }

  /** The block with the coefficients that were read from place k on in their entries, dequantised. */
  ghost function Drawn(block: seq<int>, k: nat, read: seq<Coefficient>, dequant: seq<nat>): (r: seq<int>)
    requires |block| == 64 == |dequant| && Runs(read)
    ensures |r| == 64
    decreases |read|
  {
    if read == [] || k >= 64 then block
    else match read[0]
      case Value(run, v) =>
        ZigzagOnce(k + run);
        var zig := Dezigzag(k + run);
        Drawn(block[zig := Short(v * dequant[zig])], k + run + 1, read[1..], dequant)
      case SkipSixteen => Drawn(block, k + 16, read[1..], dequant)
      case _ => block
  }

  lemma {:induction false} OneMore(block: seq<int>, k: nat, read: seq<Coefficient>, c: Coefficient, dequant: seq<nat>)
    requires |block| == 64 == |dequant| && Runs(read) && Sound(c) && PlaceAfter(k, read) < 64
    ensures PlaceAfter(k, read + [c]) == PlaceAfter(PlaceAfter(k, read), [c])
    ensures Drawn(block, k, read + [c], dequant) == Drawn(Drawn(block, k, read, dequant), PlaceAfter(k, read), [c], dequant)
    decreases |read|
  {
    hide Dezigzag, Short;
    if read == [] {
      assert read + [c] == [c];
    } else {
      assert (read + [c])[1..] == read[1..] + [c] && (read + [c])[0] == read[0];
      match read[0]
      case Value(run, v) =>
        ZigzagOnce(k + run);
        var zig := Dezigzag(k + run);
        OneMore(block[zig := Short(v * dequant[zig])], k + run + 1, read[1..], c, dequant);
      case SkipSixteen =>
        OneMore(block, k + 16, read[1..], c, dequant);
      case _ =>
    }
  }

  // ---------- the loop ----------

  /** What the rounds read. */
  ghost predicate Reads(lens: seq<nat>, values: seq<nat>, rounds: seq<Round>, read: seq<Coefficient>)
  {
    |rounds| == |read| &&
    forall i :: 0 <= i < |rounds| ==> RoundOk(lens, values, rounds[i]) && read[i] == RoundMeaning(values, rounds[i])
  }

  /** The bits the rounds took. */
  ghost function RoundsBits(lens: seq<nat>, values: seq<nat>, rounds: seq<Round>): seq<bool>
    requires forall i :: 0 <= i < |rounds| ==> RoundOk(lens, values, rounds[i])
  {
    if rounds == [] then []
    else RoundsBits(lens, values, rounds[..|rounds| - 1]) + RoundBits(lens, values, rounds[|rounds| - 1])
  }

  lemma OneMoreRound(lens: seq<nat>, values: seq<nat>, rounds: seq<Round>, read: seq<Coefficient>, r: Round, c: Coefficient,
                     start: seq<bool>, z1: nat, z2: nat, mid: seq<bool>, after: seq<bool>)
    requires Reads(lens, values, rounds, read) && RoundOk(lens, values, r) && c == RoundMeaning(values, r)
    requires start + Zeros(z1) == RoundsBits(lens, values, rounds) + mid
    requires mid + Zeros(z2) == RoundBits(lens, values, r) + after
    ensures Reads(lens, values, rounds + [r], read + [c])
    ensures start + Zeros(z1 + z2) == RoundsBits(lens, values, rounds + [r]) + after
  {
    hide RoundBits, RoundOk, RoundMeaning;
    assert (rounds + [r])[..|rounds|] == rounds;
    MoreZeros(start, z1, z2);
    ghost var bits, last := RoundsBits(lens, values, rounds), RoundBits(lens, values, r);
    assert bits + mid + Zeros(z2) == bits + (mid + Zeros(z2));
    assert bits + (last + after) == bits + last + after;
  }

  /** The bits of a list of pieces. */
  ghost function PiecesBits(lens: seq<nat>, values: seq<nat>, ps: seq<Piece>): seq<bool>
    requires PiecesOk(lens, values, ps)
  {
    if ps == [] then [] else PieceBits(lens, values, ps[0]) + PiecesBits(lens, values, ps[1..])
  }

  ghost predicate PiecesOk(lens: seq<nat>, values: seq<nat>, ps: seq<Piece>)
  {
    forall i :: 0 <= i < |ps| ==> PieceOk(lens, values, ps[i])
  }

  ghost function Meanings(lens: seq<nat>, values: seq<nat>, ps: seq<Piece>): seq<Coefficient>
    requires PiecesOk(lens, values, ps)
  {
    seq(|ps|, i requires 0 <= i < |ps| => Meaning(values, ps[i]))
  }

  /** The pieces fill the block from place k on, with nothing behind its end. */
  ghost predicate Complete(k: nat, read: seq<Coefficient>)
    decreases |read|
  {
    if k >= 64 then read == []
    else
      read != [] &&
      match read[0]
      case Value(run, _) => Complete(k + run + 1, read[1..])
      case SkipSixteen => Complete(k + 16, read[1..])
      case EndOfBlock => |read| == 1
      case Bad => false
  }

  /** Bits that start with a written block. */
  ghost predicate Written(lens: seq<nat>, values: seq<nat>, k: nat, ps: seq<Piece>, rest: seq<bool>, bits: seq<bool>)
  {
    PiecesOk(lens, values, ps) && Complete(k, Meanings(lens, values, ps)) && bits == PiecesBits(lens, values, ps) + rest
  }

  /** The part of a written block that is left when some coefficients have been read. */
  ghost predicate WrittenLeft(lens: seq<nat>, values: seq<nat>, k: nat, ps: seq<Piece>, read: seq<Coefficient>,
                              left: seq<Piece>, rest: seq<bool>, bits: seq<bool>)
  {
    PiecesOk(lens, values, ps) && Written(lens, values, k, left, rest, bits) &&
    Meanings(lens, values, ps) == read + Meanings(lens, values, left)
  }

  /** The first of the pieces that are left stands at the front. */
  lemma WrittenFirst(lens: seq<nat>, values: seq<nat>, k: nat, ps: seq<Piece>, read: seq<Coefficient>, left: seq<Piece>,
                     rest: seq<bool>, bits: seq<bool>) returns (p: Piece, tail: seq<bool>)
    requires k < 64 && WrittenLeft(lens, values, k, ps, read, left, rest, bits)
    ensures left != [] && p == left[0] && PiecesOk(lens, values, left[1..])
    ensures PieceOk(lens, values, p) && bits == PieceBits(lens, values, p) + tail
    ensures tail == PiecesBits(lens, values, left[1..]) + rest
  {
    hide PieceBits, Meaning;
    p, tail := left[0], PiecesBits(lens, values, left[1..]) + rest;
  }

  /** When it has been read, the others are left. */
  lemma WrittenNext(lens: seq<nat>, values: seq<nat>, k: nat, ps: seq<Piece>, read: seq<Coefficient>, left: seq<Piece>,
                    rest: seq<bool>, zeros: nat, more: nat, bits: seq<bool>, after: seq<bool>)
    requires k < 64 && WrittenLeft(lens, values, k, ps, read, left, rest + Zeros(zeros), bits)
    requires left != [] && PiecesOk(lens, values, left[1..])
    requires after == PiecesBits(lens, values, left[1..]) + (rest + Zeros(zeros)) + Zeros(more)
    ensures PieceOk(lens, values, left[0])
    ensures var c := Meaning(values, left[0]);
            WrittenLeft(lens, values, PlaceAfter(k, [c]), ps, read + [c], left[1..], rest + Zeros(zeros + more), after)
  {
    hide PieceBits, Meaning;
    var c, all, others := Meaning(values, left[0]), Meanings(lens, values, left), Meanings(lens, values, left[1..]);
    assert all == [c] + others && all[1..] == others && [c][0] == c;
    assert read + all == read + [c] + others;
    MoreZeros(rest, zeros, more);
    var bits1 := PiecesBits(lens, values, left[1..]);
    assert bits1 + (rest + Zeros(zeros)) + Zeros(more) == bits1 + (rest + Zeros(zeros) + Zeros(more));
  }

  lemma WrittenAll(lens: seq<nat>, values: seq<nat>, k: nat, ps: seq<Piece>, read: seq<Coefficient>, left: seq<Piece>,
                   rest: seq<bool>, bits: seq<bool>)
    requires k >= 64 && WrittenLeft(lens, values, k, ps, read, left, rest, bits)
    ensures read == Meanings(lens, values, ps) && bits == rest
  {
    assert |Meanings(lens, values, left)| == |left|;
  }

  lemma DrawnOne(block: seq<int>, k: nat, c: Coefficient, dequant: seq<nat>)
    requires |block| == 64 == |dequant| && k < 64 && Sound(c)
    ensures PlaceAfter(k, [c]) == match c case Value(run, _) => k + run + 1 case SkipSixteen => k + 16 case _ => 64
    ensures c.Value? ==>
              var zig := Dezigzag(k + c.run);
              zig < 64 && Drawn(block, k, [c], dequant) == block[zig := Short(c.value * dequant[zig])]
    ensures !c.Value? ==> Drawn(block, k, [c], dequant) == block
  {
    assert [c][0] == c;
    if c.Value? {
      ZigzagOnce(k + c.run);
    }
  }

  /** Decodes the coefficients behind the first one of a block. Every round takes the bits it reads its coefficient from;
      it fails only where no code stands, or where an entry of the fast table spans more bits than are left. If a written
      block stands there, exactly its coefficients are read, and no bit behind it is taken. */
  method DecodeAc(j: Reader, h: JHuffman, fastAc: array<int>, data: array<int>, dequant: seq<nat>,
                  ghost lens: seq<nat>, ghost ps: seq<Piece>, ghost rest: seq<bool>)
    returns (ok: bool, ghost rounds: seq<Round>, ghost read: seq<Coefficient>, ghost zeros: nat, ghost stuck: seq<bool>)
    requires j.Valid() && h.Holds(lens) && Accelerable(lens) && Bytes(h.values[..]) && fastAc.Length == FAST_SIZE
    requires forall i :: 0 <= i < FAST_SIZE ==> fastAc[i] == FastAcValue(lens, h.values[..], i)
    requires data.Length == 64 == |dequant| && data != fastAc && data != h.delta
    modifies j, data
    ensures Reads(lens, h.values[..], rounds, read) && Runs(read) && ok == (PlaceAfter(1, read) >= 64)
    ensures data[..] == Drawn(old(data[..]), 1, read, dequant)
    ensures old(j.Ahead()) + Zeros(zeros) == RoundsBits(lens, h.values[..], rounds) + stuck
    ensures ok ==> j.Valid() && j.Ahead() == stuck && j.Refilled(old(j.nomore), old(j.pos), zeros)
    ensures !ok ==>
              (exists more :: NoneStarts(lens, stuck + Zeros(more))) ||
              (j.Valid() && j.nomore && j.Ahead() == stuck && j.Overrun(lens, h.values[..]))
    ensures forall i :: 0 <= i < |rounds| && rounds[i].cut ==> j.nomore && !old(j.nomore)
    ensures Written(lens, h.values[..], 1, ps, rest, old(j.Ahead())) ==>
              ok && read == Meanings(lens, h.values[..], ps) && stuck == rest + Zeros(zeros)
  {
    hide Kraft, Levels, FastTable, Sorted, Reader.Ahead, Reader.Valid, PieceBits, PieceOk, RoundOk, RoundBits, RoundMeaning,
         Meaning, NoneStarts, Reader.Overrun, MarkerEnds, FastAcValue, Drawn, PlaceAfter, RoundsBits, Short, Dezigzag,
         Written, WrittenLeft;
    ghost var values, was, pos0, start, block := h.values[..], j.nomore, j.pos, j.Ahead(), data[..];
    ghost var written, left := Written(lens, values, 1, ps, rest, start), ps;
    var k := 1;
    rounds, read, zeros, stuck := [], [], 0, start;
    NothingRead(lens, values, block, dequant, start, ps, rest);
    while k < 64
      invariant 1 <= k < 80
      invariant h.values[..] == values && j.Valid() && stuck == j.Ahead()
      invariant Reads(lens, values, rounds, read) && Runs(read) && k == PlaceAfter(1, read)
      invariant data[..] == Drawn(block, 1, read, dequant)
      invariant start + Zeros(zeros) == RoundsBits(lens, values, rounds) + stuck
      invariant j.Refilled(was, pos0, zeros)
      invariant forall i :: 0 <= i < |rounds| && rounds[i].cut ==> j.nomore && !was
      invariant written ==> WrittenLeft(lens, values, k, ps, read, left, rest + Zeros(zeros), stuck)
    {
      ghost var p, tail := Piece(0, 0), [];
      if written {
        p, tail := WrittenFirst(lens, values, k, ps, read, left, rest + Zeros(zeros), stuck);
      }
      var found;
      ghost var r, more;
      found, r, more := NextRound(j, h, fastAc, lens, written, p, tail);
      if found == Bad {
        return false, rounds, read, zeros, stuck;
      }
      if written {
        WrittenNext(lens, values, k, ps, read, left, rest, zeros, more, stuck, j.Ahead());
        left := left[1..];
      }
      OneMoreRound(lens, values, rounds, read, r, found, start, zeros, more, stuck, j.Ahead());
      OneMore(block, 1, read, found, dequant);
      DrawnOne(data[..], k, found, dequant);
      assert [found][0] == found;
      rounds, read, zeros, stuck := rounds + [r], read + [found], zeros + more, j.Ahead();
      match found
      case EndOfBlock =>
        if written {
          WrittenAll(lens, values, 64, ps, read, left, rest + Zeros(zeros), stuck);
        }
        return true, rounds, read, zeros, stuck;
      case SkipSixteen =>
        k := k + 16;
      case Value(run, value) =>
        k := k + run;
        var zig := Dezigzag(k);
        data[zig] := Short(value * dequant[zig]);
        k := k + 1;
    }
    ok := true;
    if written {
      WrittenAll(lens, values, k, ps, read, left, rest + Zeros(zeros), stuck);
    }
  }

  lemma NothingRead(lens: seq<nat>, values: seq<nat>, block: seq<int>, dequant: seq<nat>, start: seq<bool>, ps: seq<Piece>,
                    rest: seq<bool>)
    requires |block| == 64 == |dequant|
    ensures Reads(lens, values, [], []) && Runs([]) && PlaceAfter(1, []) == 1 && Drawn(block, 1, [], dequant) == block
    ensures start + Zeros(0) == RoundsBits(lens, values, []) + start
    ensures Written(lens, values, 1, ps, rest, start) ==> WrittenLeft(lens, values, 1, ps, [], ps, rest + Zeros(0), start)
  {
    assert rest + Zeros(0) == rest;
  }

  // ---------- the first coefficient ----------

  /** Division that truncates toward zero. */
  function Quotient(a: int, b: int): int
    requires b != 0
  {
    if (a >= 0) == (b > 0) then Abs(a) / Abs(b) else -(Abs(a) / Abs(b))
  }

  /** Does a sum fit into 32 bits? */
  function AddIntsValid(a: int, b: int): (r: bool)
    requires -0x8000_0000 <= a < 0x8000_0000 && -0x8000_0000 <= b < 0x8000_0000
    ensures r <==> -0x8000_0000 <= a + b < 0x8000_0000
  {
    if (a >= 0) != (b >= 0) then true
    else if a < 0 && b < 0 then a >= -0x8000_0000 - b
    else a <= 0x7fff_ffff - b
  }

  /** The test whether a product of two shorts overflows. */
  function Mul2ShortsValid(a: int, b: int): bool
  {
    if b == 0 || b == -1 then true
    else if (a >= 0) == (b >= 0) then a <= Quotient(0x7fff, b)
    else if b < 0 then a <= Quotient(-0x8000, b)
    else a >= Quotient(-0x8000, b)
  }

  lemma QuotientBound(a: nat, b: nat, c: nat)
    requires b > 0
    ensures a <= c / b <==> a * b <= c
  {
    if a <= c / b {
      assert a * b <= c / b * b;
    } else {
      assert a * b >= (c / b + 1) * b;
    }
  }

  /** It is right unless both are negative: then it compares the wrong way round, and with -1 it does not look. */
  lemma MulTestExactly(a: int, b: int)
    requires -0x8000 <= a < 0x8000 && -0x8000 <= b < 0x8000
    ensures (Mul2ShortsValid(a, b) <==> -0x8000 <= a * b < 0x8000) <==>
            !(a < 0 && b < -1 && a != Quotient(0x7fff, b)) && !(a == -0x8000 && b == -1)
  {
    if b != 0 {
      var c := if (a >= 0) == (b >= 0) then 0x7fff else 0x8000;
      QuotientBound(Abs(a), Abs(b), c);
      assert a * b == if (a >= 0) == (b >= 0) then Abs(a) * Abs(b) else -(Abs(a) * Abs(b));
    }
  }

  function Difference(c: Coefficient): int
  {
    if c.Value? then c.value else 0
  }

  /** No code for the size of a value starts the bits. */
  ghost predicate NoSize(lens: seq<nat>, values: seq<nat>, bits: seq<bool>)
    requires |lens| <= |values|
  {
    forall sym :: 0 <= sym < |lens| && Starts(lens, sym, bits) ==> values[sym] > 15
  }

  /** Decodes the symbol of the first coefficient and receives its value: none if the symbol is not the size of one. */
  method DcRound(j: Reader, h: JHuffman, ghost lens: seq<nat>, ghost given: bool, ghost p: Piece, ghost tail: seq<bool>)
    returns (t: int, diff: int, ghost r: Round, ghost zeros: nat)
    requires j.Valid() && h.Holds(lens) && Accelerable(lens) && Bytes(h.values[..])
    requires given ==> PieceOk(lens, h.values[..], p) && j.Ahead() == PieceBits(lens, h.values[..], p) + tail
    modifies j
    ensures t < 0 || t > 15 ==> NoSize(lens, h.values[..], old(j.Ahead()) + Zeros(zeros))
    ensures 0 <= t <= 15 ==>
              j.Valid() && RoundOk(lens, h.values[..], r) && t == h.values[r.piece.sym] &&
              diff == Difference(RoundMeaning(h.values[..], r)) &&
              old(j.Ahead()) + Zeros(zeros) == RoundBits(lens, h.values[..], r) + j.Ahead() &&
              (r.cut ==> j.nomore && !old(j.nomore))
    ensures j.Refilled(old(j.nomore), old(j.pos), zeros)
    ensures given && h.values[p.sym] <= 15 ==>
              0 <= t <= 15 && RoundMeaning(h.values[..], r) == Meaning(h.values[..], p) && j.Ahead() == tail + Zeros(zeros)
  {
    hide Kraft, Levels, FastTable, Sorted, Reader.Ahead, Reader.Valid, Read, PieceBits, RoundOk, RoundBits, Code, NoneStarts,
         MarkerEnds, Extended, RoundMeaning, Meaning, Bytes;
    ghost var values, before := h.values[..], j.Ahead();
    ghost var sym, raw, more := 0, 0, 0;
    t, sym, zeros := j.HuffDecodeNext(h, lens);
    diff, r := 0, Round(p, false);
    if t < 0 || t > 15 {
      Mistaken(lens, values, before + Zeros(zeros), t, sym);
      if given {
        assert before + Zeros(zeros) == PieceBits(lens, values, p) + (tail + Zeros(zeros));
        PieceStarts(lens, values, p, before + Zeros(zeros));
      }
      return;
    }
    ghost var mid := j.Ahead();
    ghost var found := EndOfBlock;
    if t == 0 {
      ReadPlain(found, lens, values, sym, before + Zeros(zeros), mid);
    } else {
      ghost var nomore0, pos0 := j.nomore, j.pos;
      diff, raw, more := j.ReceiveNext(t);
      found := Value(0, diff);
      if j.MarkerFound(nomore0, pos0, more) && j.Ahead() == mid && |mid| < t && diff == 0 {
        assert before + Zeros(0) == before;
        assert CutOff(found, lens, values, sym, before, mid);
      } else {
        ReadValue(found, lens, values, sym, raw, before, zeros, more, mid, j.Ahead());
      }
    }
    zeros := zeros + more;
    r := RoundTaken(lens, values, found, sym, raw, zeros, before, j.Ahead());
    if given {
      Outcome(j, lens, values, found, sym, raw, zeros, p, tail, before);
    }
  }

  lemma Mistaken(lens: seq<nat>, values: seq<nat>, bits: seq<bool>, t: int, sym: int)
    requires Sorted(lens) && Kraft(lens) && |lens| <= |values|
    requires t < 0 ==> NoneStarts(lens, bits)
    requires t >= 0 ==> 0 <= sym < |lens| && t == values[sym] > 15 && Starts(lens, sym, bits)
    ensures NoSize(lens, values, bits)
  {
    hide Kraft, Starts, Sorted;
    forall s | 0 <= s < |lens| && Starts(lens, s, bits)
      ensures values[s] > 15
    {
      if t >= 0 {
        PrefixFree(lens, s, sym, bits);
      }
    }
  }

  lemma DifferenceBelow(lens: seq<nat>, values: seq<nat>, r: Round)
    requires RoundOk(lens, values, r)
    ensures -0x8000 <= Difference(RoundMeaning(values, r)) < 0x8000
  {
    Pow2Values();
    Pow2Monotone(values[r.piece.sym] % 16, 15);
  }

  /** What becomes of the prediction and of the first entry. */
  ghost predicate Merged(pred: int, step: nat, diff: int, ok: bool, dc: int)
  {
    var fits := -0x8000_0000 <= pred + diff < 0x8000_0000;
    dc == (if fits then pred + diff else pred) && ok == (fits && Mul2ShortsValid(Short(dc), Short(step)))
  }

  /** The failing case is one that the decoder meets: with a step of 0xfffe, a first coefficient of -2 is refused although
      the product is 4. */
  lemma MulTestReached()
    ensures Short(-2) == Short(0xfffe) == -2 && Merged(0, 0xfffe, -2, false, -2)
  {
  }

  /** Decodes the first coefficient: a difference to that of the block before. */
  method DecodeDc(j: Reader, h: JHuffman, pred: int, step: nat, ghost lens: seq<nat>, ghost given: bool, ghost p: Piece,
                  ghost tail: seq<bool>)
    returns (t: int, ok: bool, dc: int, ghost r: Round, ghost zeros: nat)
    requires j.Valid() && h.Holds(lens) && Accelerable(lens) && Bytes(h.values[..])
    requires -0x8000_0000 <= pred < 0x8000_0000
    requires given ==> PieceOk(lens, h.values[..], p) && j.Ahead() == PieceBits(lens, h.values[..], p) + tail
    modifies j
    ensures t < 0 || t > 15 ==> NoSize(lens, h.values[..], old(j.Ahead()) + Zeros(zeros)) && !ok && dc == pred
    ensures 0 <= t <= 15 ==>
              j.Valid() && RoundOk(lens, h.values[..], r) && t == h.values[r.piece.sym] &&
              old(j.Ahead()) + Zeros(zeros) == RoundBits(lens, h.values[..], r) + j.Ahead() &&
              (r.cut ==> j.nomore && !old(j.nomore)) &&
              Merged(pred, step, Difference(RoundMeaning(h.values[..], r)), ok, dc)
    ensures j.Refilled(old(j.nomore), old(j.pos), zeros)
    ensures given && h.values[p.sym] <= 15 ==>
              0 <= t <= 15 && RoundMeaning(h.values[..], r) == Meaning(h.values[..], p) && j.Ahead() == tail + Zeros(zeros)
  {
    hide Kraft, Levels, FastTable, Sorted, Reader.Ahead, Reader.Valid, PieceBits, PieceOk, RoundBits, NoneStarts,
         NoSize, Reader.Refilled, Mul2ShortsValid, Short, Meaning, Bytes;
    var diff;
    t, diff, r, zeros := DcRound(j, h, lens, given, p, tail);
    ok, dc := false, pred;
    if t < 0 || t > 15 {
      return;
    }
    DifferenceBelow(lens, h.values[..], r);
    if !AddIntsValid(pred, diff) {
      return;
    }
    dc := pred + diff;
    ok := Mul2ShortsValid(Short(dc), Short(step));
  }

  // ---------- a block ----------

  /** Bits that start with a written block: the piece of its first coefficient, then the pieces of the others. */
  ghost predicate BlockStands(dl: seq<nat>, dv: seq<nat>, al: seq<nat>, av: seq<nat>, p: Piece, ps: seq<Piece>,
                              rest: seq<bool>, bits: seq<bool>)
  {
    PieceOk(dl, dv, p) && dv[p.sym] <= 15 && PiecesOk(al, av, ps) && Complete(1, Meanings(al, av, ps)) &&
    bits == PieceBits(dl, dv, p) + (PiecesBits(al, av, ps) + rest)
  }

  /** A block that is blank but for its first entry. */
  function FirstOnly(v: int): (block: seq<int>)
    ensures |block| == 64 && block[0] == v && forall at :: 1 <= at < 64 ==> block[at] == 0
  {
    seq(64, at => if at == 0 then v else 0)
  }

  method StartBlock(data: array<int>, v: int)
    requires data.Length == 64
    modifies data
    ensures data[..] == FirstOnly(v)
  {
    forall at | 0 <= at < 64 {
      data[at] := 0;
    }
    data[0] := v;
  }

  lemma SymbolThere(lens: seq<nat>, values: seq<nat>, p: Piece)
    requires PieceOk(lens, values, p)
    ensures p.sym < |lens| <= |values|
  {
  }

  lemma NoRounds(lens: seq<nat>, values: seq<nat>)
    ensures Reads(lens, values, [], []) && RoundsBits(lens, values, []) == []
  {
  }

  /** Decodes a block. It fails only where no code stands for the size of the first coefficient, where the first
      coefficient overflows, or where DecodeAc fails. If a written block stands there, exactly its coefficients are read,
      no bit behind it is taken, and only an overflow of the first coefficient refuses it. */
  method DecodeBlock(j: Reader, hdc: JHuffman, hac: JHuffman, fastAc: array<int>, data: array<int>, dequant: seq<nat>,
                     pred: int, ghost dl: seq<nat>, ghost al: seq<nat>, ghost p: Piece, ghost ps: seq<Piece>,
                     ghost rest: seq<bool>)
    returns (ok: bool, dc: int, ghost r: Round, ghost rounds: seq<Round>, ghost read: seq<Coefficient>, ghost zeros: nat,
             ghost stuck: seq<bool>)
    requires j.Valid() && hdc.Holds(dl) && hac.Holds(al) && Accelerable(dl) && Accelerable(al)
    requires Bytes(hdc.values[..]) && Bytes(hac.values[..]) && fastAc.Length == FAST_SIZE
    requires forall i :: 0 <= i < FAST_SIZE ==> fastAc[i] == FastAcValue(al, hac.values[..], i)
    requires data.Length == 64 == |dequant| && data != fastAc && data != hdc.delta && data != hac.delta
    requires -0x8000_0000 <= pred < 0x8000_0000
    modifies j, data
    ensures ok ==>
              RoundOk(dl, hdc.values[..], r) && hdc.values[r.piece.sym] <= 15 && Reads(al, hac.values[..], rounds, read) &&
              old(j.Ahead()) + Zeros(zeros) ==
              RoundBits(dl, hdc.values[..], r) + RoundsBits(al, hac.values[..], rounds) + stuck &&
              Merged(pred, dequant[0], Difference(RoundMeaning(hdc.values[..], r)), true, dc) &&
              Runs(read) && PlaceAfter(1, read) >= 64 &&
              data[..] == Drawn(FirstOnly(Short(dc * dequant[0])), 1, read, dequant) &&
              j.Valid() && j.Ahead() == stuck && j.Refilled(old(j.nomore), old(j.pos), zeros)
    ensures !ok ==>
              NoSize(dl, hdc.values[..], old(j.Ahead()) + Zeros(zeros)) ||
              (RoundOk(dl, hdc.values[..], r) && hdc.values[r.piece.sym] <= 15 && Reads(al, hac.values[..], rounds, read) &&
               old(j.Ahead()) + Zeros(zeros) ==
               RoundBits(dl, hdc.values[..], r) + RoundsBits(al, hac.values[..], rounds) + stuck &&
               (Merged(pred, dequant[0], Difference(RoundMeaning(hdc.values[..], r)), false, dc) ||
                (exists more :: NoneStarts(al, stuck + Zeros(more))) ||
                (j.Valid() && j.nomore && j.Ahead() == stuck && j.Overrun(al, hac.values[..]))))
    ensures BlockStands(dl, hdc.values[..], al, hac.values[..], p, ps, rest, old(j.Ahead())) ==>
              Merged(pred, dequant[0], Difference(Meaning(hdc.values[..], p)), ok, dc) &&
              (ok ==> read == Meanings(al, hac.values[..], ps) && stuck == rest + Zeros(zeros))
  {
    hide Kraft, Levels, FastTable, Sorted, Reader.Ahead, Reader.Valid, PieceBits, PieceOk, RoundOk, RoundBits, RoundMeaning,
         Meaning, NoneStarts, NoSize, Reader.Overrun, MarkerEnds, FastAcValue, Drawn, PlaceAfter, RoundsBits, Short, Dezigzag,
         PiecesBits, PiecesOk, Complete, Meanings, Merged, Accelerable, Bytes, JHuffman.Holds, Runs;
    ghost var before, was, pos0, dv, av := j.Ahead(), j.nomore, j.pos, hdc.values[..], hac.values[..];
    ghost var stands := BlockStands(dl, dv, al, av, p, ps, rest, before);
    ghost var tail := if stands then PiecesBits(al, av, ps) + rest else [];
    if stands {
      SymbolThere(dl, dv, p);
      assert hdc.values[p.sym] <= 15;
    }
    var t;
    t, ok, dc, r, zeros := DecodeDc(j, hdc, pred, dequant[0], dl, stands, p, tail);
    rounds, read, stuck := [], [], if 0 <= t <= 15 then j.Ahead() else [];
    NoRounds(al, av);
    if !ok {
      return;
    }
    StartBlock(data, Short(dc * dequant[0]));
    ghost var more, mid := 0, j.Ahead();
    if stands {
      assert mid == PiecesBits(al, av, ps) + (rest + Zeros(zeros));
    }
    ok, rounds, read, more, stuck := DecodeAc(j, hac, fastAc, data, dequant, al, ps, rest + Zeros(zeros));
    TwoParts(before, zeros, more, RoundBits(dl, dv, r), mid, RoundsBits(al, av, rounds), stuck);
    MoreZeros(rest, zeros, more);
    zeros := zeros + more;
  }

  lemma TwoParts(before: seq<bool>, z1: nat, z2: nat, first: seq<bool>, mid: seq<bool>, others: seq<bool>, after: seq<bool>)
    requires before + Zeros(z1) == first + mid && mid + Zeros(z2) == others + after
    ensures before + Zeros(z1 + z2) == first + others + after
  {
    MoreZeros(before, z1, z2);
    assert first + mid + Zeros(z2) == first + (mid + Zeros(z2));
    assert first + others + after == first + (others + after);
  }
}
