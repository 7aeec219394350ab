/** What a JPEG scan means in numbers: the order of the coefficients, their values and their bits (ITU-T T.81), in other
    words than those in which the decoder and the writer share them. */
module JpegFormat {
  import opened Basics
  import opened Bits
  import opened BitStream
  import opened Canonical
  import opened JpegTable
  import opened JpegBits
  import opened JpegReader
  import opened JpegPiece
  import opened JpegBlock
  import opened JpegSink
  import opened JpegWriter
  import opened JpegTables
  import opened JpegRoundTrip
  import opened JpegStandard

  // ---------- the order of the coefficients ----------

  /** One step of the zigzag: up to the right on the even diagonals, down to the left on the odd ones; at an edge, along it
      to the next diagonal. */
  predicate Continues(at: nat, next: nat)
  {
    var r, c, y, x := at / 8, at % 8, next / 8, next % 8;
    next < 64 &&
    if (r + c) % 2 == 0 then
      if c == 7 then y == r + 1 && x == c
      else if r == 0 then y == r && x == c + 1
      else y == r - 1 && x == c + 1
    else
      if r == 7 then y == r && x == c + 1
      else if c == 0 then y == r + 1 && x == c
      else y == r + 1 && x == c - 1
  }

  predicate Turns(k: nat)
    requires k < 63
  {
    var n := k + 1;
    Continues(DEZIGZAG_ROWS[k / 8][k % 8], DEZIGZAG_ROWS[n / 8][n % 8])
  }

  lemma FirstTurns()
    ensures forall k :: 0 <= k < 8 ==> Turns(k)
  {
    hide Continues;
    FirstSteps();
    assert Turns(0) && Turns(1) && Turns(2) && Turns(3);
    assert Turns(4) && Turns(5) && Turns(6) && Turns(7);
  }

  lemma FirstSteps()
    ensures Continues(0, 1) && Continues(1, 8) && Continues(8, 16) && Continues(16, 9)
    ensures Continues(9, 2) && Continues(2, 3) && Continues(3, 10) && Continues(10, 17)
  {
  }

  lemma SecondTurns()
    ensures forall k :: 8 <= k < 16 ==> Turns(k)
  {
    assert Turns(8) && Turns(9) && Turns(10) && Turns(11);
    assert Turns(12) && Turns(13) && Turns(14) && Turns(15);
  }

  lemma ThirdTurns()
    ensures forall k :: 16 <= k < 24 ==> Turns(k)
  {
    assert Turns(16) && Turns(17) && Turns(18) && Turns(19);
    assert Turns(20) && Turns(21) && Turns(22) && Turns(23);
  }

  lemma FourthTurns()
    ensures forall k :: 24 <= k < 32 ==> Turns(k)
  {
    assert Turns(24) && Turns(25) && Turns(26) && Turns(27);
    assert Turns(28) && Turns(29) && Turns(30) && Turns(31);
  }

  lemma FifthTurns()
    ensures forall k :: 32 <= k < 40 ==> Turns(k)
  {
    assert Turns(32) && Turns(33) && Turns(34) && Turns(35);
    assert Turns(36) && Turns(37) && Turns(38) && Turns(39);
  }

  lemma SixthTurns()
    ensures forall k :: 40 <= k < 48 ==> Turns(k)
  {
    assert Turns(40) && Turns(41) && Turns(42) && Turns(43);
    assert Turns(44) && Turns(45) && Turns(46) && Turns(47);
  }

  lemma SeventhTurns()
    ensures forall k :: 48 <= k < 56 ==> Turns(k)
  {
    assert Turns(48) && Turns(49) && Turns(50) && Turns(51);
    assert Turns(52) && Turns(53) && Turns(54) && Turns(55);
  }

  lemma LastTurns()
    ensures forall k :: 56 <= k < 63 ==> Turns(k)
  {
    assert Turns(56) && Turns(57) && Turns(58) && Turns(59);
    assert Turns(60) && Turns(61) && Turns(62);
  }

  /** The order starts at the top left and continues along the diagonals; what is read behind its end goes to the last
      place. */
  lemma ZigzagContinues(k: nat)
    requires k < 78
    ensures Dezigzag(0) == 0
    ensures if k < 63 then Continues(Dezigzag(k), Dezigzag(k + 1)) else Dezigzag(k + 1) == 63
  {
    FirstTurns();
    SecondTurns();
    ThirdTurns();
    FourthTurns();
    FifthTurns();
    SixthTurns();
    SeventhTurns();
    LastTurns();
    assert k < 63 ==> Turns(k);
  }

  lemma OneWay(at: nat, a: nat, b: nat)
    requires Continues(at, a) && Continues(at, b)
    ensures a == b
  {
    assert a == 8 * (a / 8) + a % 8 && b == 8 * (b / 8) + b % 8;
  }

  /** No other order does. */
  lemma {:induction false} ZigzagUnique(order: seq<nat>, k: nat)
    requires |order| == 64 && order[0] == 0 && forall i :: 0 <= i < 63 ==> Continues(order[i], order[i + 1])
    requires k < 64
    ensures order[k] == Dezigzag(k)
    decreases k
  {
    hide Continues, Dezigzag;
    if k == 0 {
      ZigzagContinues(0);
    } else {
      ZigzagUnique(order, k - 1);
      ZigzagContinues(k - 1);
      OneWay(order[k - 1], order[k], Dezigzag(k));
    }
  }

  // ---------- values and bits ----------

  /** Table F.1 of ITU-T T.81: the n bits of a value count up from 1 - 2^n to -2^(n - 1), and then from 2^(n - 1) on. */
  lemma ValuesOfSize(n: nat, v: nat)
    requires n > 0 && v < Pow2(n)
    ensures Pow2(n - 1) > 0
    ensures Extended(0, n) == 1 - Pow2(n) && Extended(Pow2(n - 1) - 1, n) == 0 - Pow2(n - 1)
    ensures Extended(Pow2(n - 1), n) == Pow2(n - 1) && Extended(Pow2(n) - 1, n) == Pow2(n) - 1
    ensures v + 1 < Pow2(n) && v + 1 != Pow2(n - 1) ==> Extended(v + 1, n) == Extended(v, n) + 1
  {
    assert Pow2(n) == 2 * Pow2(n - 1) && Pow2(n - 1) > 0;
  }

  /** The high half of a symbol counts the zeros before a value, the low half its bits; 0xf0 are sixteen zeros, and the
      other symbols without bits end the block. */
  lemma SymbolMeans(values: seq<nat>, p: Piece, run: nat, size: nat)
    requires p.sym < |values| && values[p.sym] == 16 * run + size && run < 16 && size < 16
    ensures size > 0 ==> Meaning(values, p) == Value(run, Extended(p.raw, size))
    ensures size == 0 ==> Meaning(values, p) == if run == 15 then SkipSixteen else EndOfBlock
  {
    assert (16 * run + size) / 16 == run && (16 * run + size) % 16 == size;
  }

  /** A product is stored as it is in the range of 16 bits, and 65536 apart outside. */
  lemma SixteenBits(x: int)
    ensures -32768 <= Short(x) <= 32767
    ensures -32768 <= x <= 32767 ==> Short(x) == x
    ensures Short(x + 65536) == Short(x)
  {
  }

  /** Behind every 0xff of a segment stands a zero, and nothing else is put in. */
  lemma {:induction false} StuffedSafe(bytes: seq<Byte>, i: nat)
    requires i < |Stuffed(bytes)| && Stuffed(bytes)[i] == 0xff
    ensures i + 1 < |Stuffed(bytes)| && Stuffed(bytes)[i + 1] == 0
  {
    var n := if bytes[0] == 0xff then 2 else 1;
    if i >= n {
      StuffedSafe(bytes[1..], i - n);
    }
  }

  lemma {:induction false} PlainUnstuffed(bytes: seq<Byte>)
    requires forall i :: 0 <= i < |bytes| ==> bytes[i] != 0xff
    ensures Stuffed(bytes) == bytes
  {
    if bytes != [] {
      PlainUnstuffed(bytes[1..]);
    }
  }

  /** The bits of a number, the highest first. */
  lemma HighestFirst()
    ensures MsbBits(4, 3) == [true, false, false] && MsbBits(5, 3) == [true, false, true]
    ensures MsbBits(10, 4) == [true, false, true, false] && MsbBits(0, 2) == [false, false]
    ensures MsbBits(2, 3) == [false, true, false] && MsbBits(0, 1) == [false] && MsbBits(1, 1) == [true]
  {
  }
  /** The bits of a piece are the entry of the writer's table and the bits of the value. */
  lemma PieceStands(t: Table, most: nat, rs: nat, raw: nat)
    requires Leveled(t) && rs < 256 && raw < Pow2(rs % 16)
    requires var k := CodingOf(t, most);
             |k.lens| <= 256 && Entry(JpegStandard.Written(t), k.index, k.lens, k.values, rs)
    ensures var k := CodingOf(t, most);
            var p := Piece(k.index[rs], raw);
            PieceOk(k.lens, k.values, p) &&
            PieceBits(k.lens, k.values, p) == MsbBits(ValueAt(t.codes, rs), ValueAt(t.sizes, rs)) + MsbBits(raw, rs % 16)
  {
    hide Leveled, ValueAt, MsbBits, Pow2;
  }

  /** The bits 00 for a first coefficient that did not change, 010 1 for one more and 010 0 for one less; then 100 101 for a
      five right behind it, and 1010 for the end. */
  function SmallBits(change: int): seq<bool>
  {
    (if change == 0 then [false, false] else [false, true, false] + [change > 0]) +
    ([true, false, false] + [true, false, true] + [true, false, true, false])
  }

  lemma SmallPieces(q: seq<int>, index: seq<nat>)
    requires |q| == 64 && q[1] == 5 && Blank(q, 2, 64) && |index| == 256 && Bounded(q, 15)
    ensures Pieces(q, 1, index) == [Piece(index[3], 5), Piece(index[0], 0)]
  {
    FirstIs(q, 1, 1);
    FirstIs(q, 2, 64);
    assert SizeOf(5) == 3 by { assert SizeOf(1) == 1 && SizeOf(2) == 2; }
    assert Pieces(q, 64, index) == [];
    assert Pieces(q, 2, index) == [Piece(index[0], 0)];
  }

  /** A table with a code of n bits for a symbol. */
  ghost predicate HasCode(t: Table, most: nat, rs: nat, code: nat, n: nat)
    requires Leveled(t)
  {
    var k := CodingOf(t, most);
    |k.lens| <= 256 && Entry(JpegStandard.Written(t), k.index, k.lens, k.values, rs) &&
    ValueAt(t.codes, rs) == code && ValueAt(t.sizes, rs) == n
  }

  /** The codes that a small block needs. */
  ghost predicate SmallCodes(dc: Table, ac: Table)
  {
    Leveled(dc) && Leveled(ac) && HasCode(dc, 11, 0, 0, 2) && HasCode(dc, 11, 1, 2, 3) &&
    HasCode(ac, 10, 3, 4, 3) && HasCode(ac, 10, 0, 10, 4)
  }

  lemma SmallTables()
    ensures Canonic(LUM_DC, LUM_AC) && SmallCodes(LUM_DC, LUM_AC)
  {
    hide Leveled, PlaceOf, SymbolAt, Lens, JpegStandard.Written, Entry, Sorted, Kraft, ValueAt;
    StandardTables();
    SmallValues();
  }

  lemma SmallValues()
    ensures ValueAt(LUM_DC.codes, 0) == 0 && ValueAt(LUM_DC.sizes, 0) == 2
    ensures ValueAt(LUM_DC.codes, 1) == 2 && ValueAt(LUM_DC.sizes, 1) == 3
    ensures ValueAt(LUM_AC.codes, 3) == 4 && ValueAt(LUM_AC.sizes, 3) == 3
    ensures ValueAt(LUM_AC.codes, 0) == 10 && ValueAt(LUM_AC.sizes, 0) == 4
  {
  }

  lemma SmallDc(change: int, index: seq<nat>)
    requires -1 <= change <= 1 && |index| == 256
    ensures SizeOf(Abs(change)) == Abs(change)
    ensures DcPiece(change, index) == Piece(index[Abs(change)], if change > 0 then 1 else 0)
  {
    assert SizeOf(1) == 1 && SizeOf(0) == 0;
    Pow2Values();
  }

  /** The bits of the first coefficient. */
  lemma SmallFirst(t: Table, change: int)
    requires -1 <= change <= 1 && Leveled(t) && HasCode(t, 11, 0, 0, 2) && HasCode(t, 11, 1, 2, 3)
    ensures var d := CodingOf(t, 11);
            |d.index| == 256 && SizeOf(Abs(change)) < 256 && PieceOk(d.lens, d.values, DcPiece(change, d.index)) &&
            PieceBits(d.lens, d.values, DcPiece(change, d.index)) ==
            if change == 0 then [false, false] else [false, true, false] + [change > 0]
  {
    hide Leveled, JpegStandard.Written, Entry, PieceBits, PieceOk, Pow2, SizeOf, MsbBits, ValueAt, PlaceOf, SymbolAt, Lens;
    Pow2Values();
    HighestFirst();
    SmallDc(change, CodingOf(t, 11).index);
    PieceStands(t, 11, Abs(change), if change > 0 then 1 else 0);
  }

  /** The bits behind it. */
  lemma SmallRest(t: Table, q: seq<int>, index: seq<nat>)
    requires |q| == 64 && q[1] == 5 && Blank(q, 2, 64) && Bounded(q, 15)
    requires Leveled(t) && HasCode(t, 10, 3, 4, 3) && HasCode(t, 10, 0, 10, 4) && index == CodingOf(t, 10).index
    ensures |index| == 256
    ensures var a := CodingOf(t, 10);
            PiecesOk(a.lens, a.values, Pieces(q, 1, index)) &&
            PiecesBits(a.lens, a.values, Pieces(q, 1, index)) ==
            [true, false, false] + [true, false, true] + [true, false, true, false]
  {
    hide Leveled, JpegStandard.Written, Entry, PieceBits, PieceOk, Pow2, MsbBits, ValueAt, PlaceOf, SymbolAt, Lens, Pieces,
         PiecesBits, Bounded;
    var a := CodingOf(t, 10);
    Pow2Values();
    HighestFirst();
    SmallPieces(q, index);
    PieceStands(t, 10, 3, 5);
    PieceStands(t, 10, 0, 0);
    TwoPieces(a.lens, a.values, Piece(index[3], 5), Piece(index[0], 0));
  }

  lemma SmallIn(dc: Table, ac: Table, q: seq<int>, pred: int)
    requires Canonic(dc, ac) && SmallCodes(dc, ac)
    requires |q| == 64 && -1 <= q[0] - pred <= 1 && q[1] == 5 && Blank(q, 2, 64)
    ensures var d, a := CodingOf(dc, 11), CodingOf(ac, 10);
            Codable(d, a, q, pred) && BlockBits(d, a, q, pred) == SmallBits(q[0] - pred)
  {
    hide Leveled, CodingOf, DcTable, AcTable, PieceBits, Pieces, PieceOk, SizeOf, PiecesBits, HasCode;
    var d, a := CodingOf(dc, 11), CodingOf(ac, 10);
    BlockCodable(dc, ac, q, pred);
    BlockOk(d, a, q, pred);
    SmallFirst(dc, q[0] - pred);
    SmallRest(ac, q, a.index);
  }

  lemma SmallBlock(q: seq<int>, pred: int)
    requires |q| == 64 && -1 <= q[0] - pred <= 1 && q[1] == 5 && Blank(q, 2, 64)
    ensures Canonic(LUM_DC, LUM_AC)
    ensures var d, a := CodingOf(LUM_DC, 11), CodingOf(LUM_AC, 10);
            Codable(d, a, q, pred) && BlockBits(d, a, q, pred) == SmallBits(q[0] - pred)
  {
    hide Leveled, CodingOf, Codable, BlockBits, SmallCodes;
    SmallTables();
    SmallIn(LUM_DC, LUM_AC, q, pred);
  }

  lemma TwoPieces(lens: seq<nat>, values: seq<nat>, p: Piece, r: Piece)
    requires PieceOk(lens, values, p) && PieceOk(lens, values, r)
    ensures PiecesBits(lens, values, [p, r]) == PieceBits(lens, values, p) + PieceBits(lens, values, r)
  {
    hide PieceBits;
    assert [p, r][1..] == [r] && [r][1..] == [];
    assert PiecesBits(lens, values, [r]) == PieceBits(lens, values, r) + PiecesBits(lens, values, []);
  }
  lemma ByteIs(b: Byte, c: Byte)
    requires MsbBits(b, 8) == MsbBits(c, 8)
    ensures b == c
  {
    hide Bit;
    Pow2Values();
    forall i: nat | i < 8
      ensures Bit(b, i) == Bit(c, i)
    {
      assert MsbBits(b, 8)[7 - i] == MsbBits(c, 8)[7 - i];
    }
    SameBits(b, c, 8);
  }

  lemma SmallPayload(payload: seq<Byte>, ones: nat)
    requires BitsOf(payload) == SmallBits(0) + AllOnes(ones) && ones < 8
    ensures payload == [0x25, 0xaf]
  {
    hide Bit;
    BitsOfLength(payload);
    assert |payload| == 2 && ones == 4;
    var last := payload[1..];
    assert BitsOf(payload) == MsbBits(payload[0], 8) + BitsOf(last);
    assert BitsOf(last) == MsbBits(last[0], 8) + BitsOf(last[1..]) && last[1..] == [];
    SmallBytes();
    assert MsbBits(payload[0], 8) == BitsOf(payload)[..8] == MsbBits(0x25, 8);
    assert MsbBits(payload[1], 8) == BitsOf(payload)[8..] == MsbBits(0xaf, 8);
    ByteIs(payload[0], 0x25);
    ByteIs(payload[1], 0xaf);
  }

  lemma SmallBytes()
    ensures SmallBits(0) + AllOnes(4) == MsbBits(0x25, 8) + MsbBits(0xaf, 8)
  {
    hide MsbBits;
    FirstByte();
    LastByte();
  }

  lemma FirstByte()
    ensures MsbBits(0x25, 8) == [false, false, true, false, false, true, false, true]
  {
    assert Bit(0x25, 0) && !Bit(0x25, 1) && Bit(0x25, 2) && !Bit(0x25, 3);
    assert !Bit(0x25, 4) && Bit(0x25, 5) && !Bit(0x25, 6) && !Bit(0x25, 7);
  }

  lemma LastByte()
    ensures MsbBits(0xaf, 8) == [true, false, true, false, true, true, true, true]
  {
    assert Bit(0xaf, 0) && Bit(0xaf, 1) && Bit(0xaf, 2) && Bit(0xaf, 3);
    assert !Bit(0xaf, 4) && Bit(0xaf, 5) && !Bit(0xaf, 6) && Bit(0xaf, 7);
  }

  /** The scan of this block alone is, with the marker behind it, four bytes. */
  method SmallScan(q: seq<int>) returns (data: seq<Byte>)
    requires |q| == 64 && q[0] == 0 && q[1] == 5 && Blank(q, 2, 64)
    ensures data == [0x25, 0xaf, 0xff, 0xd9]
  {
    hide Leveled, CodingOf, PlainScan, DcTable, AcTable, WriterTables, ScanCodable;
    StandardTables();
    WriterTablesStand();
    var units := [Unit(0, q)];
    SmallUnits(q);
    UnitsCodable(units, [0, 0, 0], DcCodings(), AcCodings());
    assert seq(3, _ => 0) == [0, 0, 0];
    ghost var payload, ones;
    data, payload, ones := WriteScan(units, WriterTables(), DcCodings(), AcCodings());
    SmallScanBits(q);
    SmallPayload(payload, ones);
    PlainUnstuffed(payload);
  }

  lemma SmallUnits(q: seq<int>)
    requires |q| == 64 && q[0] == 0 && q[1] == 5 && Blank(q, 2, 64)
    ensures PlainScan([Unit(0, q)], [0, 0, 0])
  {
    assert [Unit(0, q)][1..] == [];
  }

  lemma SmallScanBits(q: seq<int>)
    requires |q| == 64 && q[0] == 0 && q[1] == 5 && Blank(q, 2, 64)
    requires Leveled(LUM_DC) && Leveled(LUM_AC) && Leveled(CHROM_DC) && Leveled(CHROM_AC)
    requires ScanCodable([Unit(0, q)], [0, 0, 0], DcCodings(), AcCodings())
    ensures ScanBits([Unit(0, q)], [0, 0, 0], DcCodings(), AcCodings()) == SmallBits(0)
  {
    hide Leveled, CodingOf, Codable, BlockBits;
    SmallBlock(q, 0);
    assert [Unit(0, q)][1..] == [];
  }
}
