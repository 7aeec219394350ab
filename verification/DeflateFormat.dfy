/** What DEFLATE and zlib streams look like in bytes: the tables and constants of RFC 1950 and RFC 1951, each in other words
    than those in which the decoder and the writer share them. */
module DeflateFormat {
  import opened Basics
  import opened Bits
  import opened BitStream
  import opened Canonical
  import opened ZBits
  import opened Deflate
  import opened DeflateWriter
  import opened ZlibDecode

  // ---------- the zlib header ----------

  /** The second bytes that go with each first byte up to a window of 32K. */
  predicate Permitted(cmf: Byte, flg: Byte)
  {
    match cmf
    case 0x08 => flg == 0x1d || flg == 0x5b || flg == 0x99 || flg == 0xd7
    case 0x18 => flg == 0x19 || flg == 0x57 || flg == 0x95 || flg == 0xd3
    case 0x28 => flg == 0x15 || flg == 0x53 || flg == 0x91 || flg == 0xcf
    case 0x38 => flg == 0x11 || flg == 0x4f || flg == 0x8d || flg == 0xcb
    case 0x48 => flg == 0x0d || flg == 0x4b || flg == 0x89 || flg == 0xc7
    case 0x58 => flg == 0x09 || flg == 0x47 || flg == 0x85 || flg == 0xc3
    case 0x68 => flg == 0x05 || flg == 0x43 || flg == 0x81 || flg == 0xde
    case 0x78 => flg == 0x01 || flg == 0x5e || flg == 0x9c || flg == 0xda
    case _ => false
  }

  lemma FifthBit(x: nat)
    ensures Bit(x, 5) <==> x / 32 % 2 == 1
  {
    assert Bit(x, 5) == Bit(x / 2, 4) == Bit(x / 2 / 2, 3) == Bit(x / 2 / 2 / 2, 2);
    assert Bit(x / 2 / 2 / 2, 2) == Bit(x / 2 / 2 / 2 / 2, 1) == Bit(x / 2 / 2 / 2 / 2 / 2, 0);
    assert x / 2 / 2 / 2 / 2 / 2 == x / 32;
  }

  lemma LowFour(x: nat)
    ensures Low(x, 4) == x % 16
  {
    Join(x / 16, x % 16, 4);
    Pow2Values();
    ShlIsMul(x / 16, 4);
    assert x == Shl(x / 16, 4) + x % 16;
  }

  /** A header is accepted if something follows it, the method is 8, no dictionary is preset, and the two bytes, the first
      one higher, are a multiple of 31. */
  lemma HeaderAccepted(cmf: Byte, flg: Byte, rest: seq<Byte>)
    ensures ZlibHeader([cmf, flg] + rest) <==>
            rest != [] && cmf % 16 == 8 && flg / 32 % 2 == 0 && 31 * ((256 * cmf + flg) / 31) == 256 * cmf + flg
  {
    FifthBit(flg);
    LowFour(cmf);
  }

  /** For the eight window sizes these are four second bytes each. */
  lemma HeaderTable(cmf: Byte, flg: Byte, rest: seq<Byte>)
    requires cmf < 0x80
    ensures ZlibHeader([cmf, flg] + rest) <==> rest != [] && Permitted(cmf, flg)
  {
    hide ZlibHeader;
    HeaderAccepted(cmf, flg, rest);
    if cmf % 16 == 8 {
      EightWindows(cmf);
      Window08(flg);
      Window18(flg);
      Window28(flg);
      Window38(flg);
      Window48(flg);
      Window58(flg);
      Window68(flg);
      Window78(flg);
    }
  }

  lemma EightWindows(cmf: Byte)
    requires cmf < 0x80 && cmf % 16 == 8
    ensures cmf == 0x08 || cmf == 0x18 || cmf == 0x28 || cmf == 0x38 || cmf == 0x48 || cmf == 0x58 || cmf == 0x68 || cmf == 0x78
  {
  }

  lemma Window08(flg: Byte)
    ensures flg / 32 % 2 == 0 && 31 * ((256 * 0x08 + flg) / 31) == 256 * 0x08 + flg <==> Permitted(0x08, flg)
  {
  }

  lemma Window18(flg: Byte)
    ensures flg / 32 % 2 == 0 && 31 * ((256 * 0x18 + flg) / 31) == 256 * 0x18 + flg <==> Permitted(0x18, flg)
  {
  }

  lemma Window28(flg: Byte)
    ensures flg / 32 % 2 == 0 && 31 * ((256 * 0x28 + flg) / 31) == 256 * 0x28 + flg <==> Permitted(0x28, flg)
  {
  }

  lemma Window38(flg: Byte)
    ensures flg / 32 % 2 == 0 && 31 * ((256 * 0x38 + flg) / 31) == 256 * 0x38 + flg <==> Permitted(0x38, flg)
  {
  }

  lemma Window48(flg: Byte)
    ensures flg / 32 % 2 == 0 && 31 * ((256 * 0x48 + flg) / 31) == 256 * 0x48 + flg <==> Permitted(0x48, flg)
  {
  }

  lemma Window58(flg: Byte)
    ensures flg / 32 % 2 == 0 && 31 * ((256 * 0x58 + flg) / 31) == 256 * 0x58 + flg <==> Permitted(0x58, flg)
  {
  }

  lemma Window68(flg: Byte)
    ensures flg / 32 % 2 == 0 && 31 * ((256 * 0x68 + flg) / 31) == 256 * 0x68 + flg <==> Permitted(0x68, flg)
  {
  }

  lemma Window78(flg: Byte)
    ensures flg / 32 % 2 == 0 && 31 * ((256 * 0x78 + flg) / 31) == 256 * 0x78 + flg <==> Permitted(0x78, flg)
  {
  }

  /** No header that announces a preset dictionary is accepted. */
  lemma NoDictionary(cmf: Byte, flg: Byte, rest: seq<Byte>)
    requires flg / 32 % 2 == 1
    ensures !ZlibHeader([cmf, flg] + rest)
  {
    HeaderAccepted(cmf, flg, rest);
  }

  /** A compressor's stream behind one of the permitted headers, such as the usual 78 9C, is inflated to its expansion. */
  lemma ZlibStreamIsInflated(cmf: Byte, flg: Byte, blocks: seq<Block>, tail: seq<Byte>, cap: nat, r: Option<seq<Byte>>)
    requires Permitted(cmf, flg) && |tail| >= 2
    requires AllOk(blocks, 16) && BlocksApply(blocks, []) && |ExpandBlocks(blocks, [])| <= cap
    requires Inflated([cmf, flg] + Pack(StreamBits(blocks, 16)) + tail, true, cap, r)
    ensures r == Some(ExpandBlocks(blocks, []))
  {
    hide Permitted, StreamBits, AllOk, BlocksApply, ExpandBlocks, Inflated, ZlibHeader, Pack;
    var packed := Pack(StreamBits(blocks, 16));
    assert [cmf, flg] + packed + tail == [cmf, flg] + (packed + tail);
    PermittedSmall(cmf, flg);
    HeaderTable(cmf, flg, packed + tail);
    SerializedIsInflated([cmf, flg], blocks, tail, true, cap, r);
  }

  lemma PermittedSmall(cmf: Byte, flg: Byte)
    requires Permitted(cmf, flg)
    ensures cmf < 0x80
  {
  }

  // ---------- lengths and distances ----------

  /** The lengths of the symbols follow each other without a gap from 3 on, and the last symbol is for 258 alone. */
  lemma LengthsFollow(i: nat)
    requires i < 29
    ensures LengthBase(0) == 3 && LengthBase(28) == 258 && LengthExtra(28) == 0
    ensures i < 27 ==> LengthBase(i + 1) == LengthBase(i) + Pow2(LengthExtra(i))
    ensures i < 8 ==> LengthExtra(i) == 0
    ensures 4 <= i < 24 ==> LengthExtra(i + 4) == LengthExtra(i) + 1
  {
    Pow2Values();
  }

  lemma DistanceGaps(i: nat)
    requires i < 30
    ensures DistBase(0) == 1 && DistBase(29) + Pow2(DistExtra(29)) == 32769
    ensures i < 29 ==> DistBase(i + 1) == DistBase(i) + Pow2(DistExtra(i))
  {
    Pow2Values();
  }

  lemma DistanceExtras(i: nat)
    requires i < 30
    ensures i < 4 ==> DistExtra(i) == 0
    ensures 2 <= i < 28 ==> DistExtra(i + 2) == DistExtra(i) + 1
  {
  }

  /** So do the distances from 1 up to 32768. */
  lemma DistancesFollow(i: nat)
    requires i < 30
    ensures DistBase(0) == 1 && DistBase(29) + Pow2(DistExtra(29)) == 32769
    ensures i < 29 ==> DistBase(i + 1) == DistBase(i) + Pow2(DistExtra(i))
    ensures i < 4 ==> DistExtra(i) == 0
    ensures 2 <= i < 28 ==> DistExtra(i + 2) == DistExtra(i) + 1
  {
    hide DistBase, DistExtra, Pow2;
    DistanceGaps(i);
    DistanceExtras(i);
  }

  /** Every length has a symbol and extra bits. */
  lemma EveryLength(n: nat) returns (i: nat, e: nat)
    requires 3 <= n <= 258
    ensures i < 29 && e < Pow2(LengthExtra(i)) && n == LengthBase(i) + e
  {
    i := 28;
    while LengthBase(i) > n
      invariant i < 29 && (i < 28 ==> n < LengthBase(i + 1))
      decreases i
    {
      LengthsFollow(i);
      i := i - 1;
    }
    LengthsFollow(i);
    e := n - LengthBase(i);
  }

  /** Every distance, too. */
  lemma EveryDistance(n: nat) returns (i: nat, e: nat)
    requires 1 <= n <= 32768
    ensures i < 30 && e < Pow2(DistExtra(i)) && n == DistBase(i) + e
  {
    i := 29;
    while DistBase(i) > n
      invariant i < 30 && (i < 29 ==> n < DistBase(i + 1))
      decreases i
    {
      DistancesFollow(i);
      i := i - 1;
    }
    DistancesFollow(i);
    e := n - DistBase(i);
  }

  /** The last two literal/length symbols and distance symbols of the fixed code stand for nothing. */
  lemma UnusedSymbols(data: seq<Byte>, llens: seq<nat>, dlens: seq<nat>, p: nat, out: seq<Byte>, cap: nat)
    ensures Symbol(llens, data, p) == 286 || Symbol(llens, data, p) == 287 ==> Tokens(data, llens, dlens, p, out, cap) == Fail
    ensures Symbol(dlens, data, p) == 30 || Symbol(dlens, data, p) == 31 ==> DistanceAt(data, dlens, p) == NoDistance
  {
  }

  // ---------- code lengths ----------

  /** First the three repetitions and zero are sent, then the lengths by their distance from 8, longer ones first. */
  lemma OrderByDistance(i: nat)
    requires i < 19
    ensures i < 3 ==> LengthOrder(i) == 16 + i
    ensures i == 3 ==> LengthOrder(i) == 0
    ensures i >= 4 ==> Abs(LengthOrder(i) - 8) == (i - 3) / 2 && (LengthOrder(i) < 8 <==> i % 2 == 1)
  {
  }

  /** Lengths up to 15 stand for themselves; 16 repeats the last length three to six times, 17 gives three to ten zeros, 18
      eleven to 138. */
  lemma Repetitions(data: seq<Byte>, q: nat, room: nat, sofar: seq<nat>, c: nat)
    requires room >= 138 && c < 19
    ensures c < 16 ==> RunOf(data, c, q, room, sofar) == Run(1, c, q)
    ensures c == 16 ==>
              RunOf(data, c, q, room, sofar) ==
              if sofar == [] then BadRun else Run(3 + Window(data, q, 2), sofar[|sofar| - 1], q + 2)
    ensures c == 17 ==> RunOf(data, c, q, room, sofar) == Run(3 + Window(data, q, 3), 0, q + 3)
    ensures c == 18 ==> RunOf(data, c, q, room, sofar) == Run(11 + Window(data, q, 7), 0, q + 7)
  {
    Pow2Values();
    hide Window;
  }

  /** A dynamic block announces 257 and more literal/length codes in five bits, then one and more distance codes in five. */
  lemma AnnouncedCounts(data: seq<Byte>, p: nat)
    ensures var h := DynamicHeader(data, p);
            h.Header? ==> |h.llens| == 257 + Window(data, p, 5) && |h.dlens| == 1 + Window(data, p + 5, 5)
  {
    hide Window, ReadLengths, CodeLengthLengths, Kraft;
    HclenRange(data, p + 10);
  }

  lemma {:induction false} SentAt(data: seq<Byte>, p: nat, n: nat, i: nat)
    requires n <= 19 && i < 19
    ensures CodeLengthLengths(data, p, n)[LengthOrder(i)] == if i < n then Window(data, p + 3 * i, 3) else 0
  {
    hide Window;
    if n > 0 {
      SentAt(data, p, n - 1, i);
      OrderByDistance(i);
      OrderByDistance(n - 1);
    }
  }

  /** It says in four bits how many lengths of the code length code follow, four and more; they have three bits each, and
      those not sent are zero. */
  lemma AnnouncedLengths(data: seq<Byte>, p: nat) returns (clens: seq<nat>, n: nat)
    ensures n == 4 + Window(data, p + 10, 4) <= 19 && |clens| == 19
    ensures forall i :: 0 <= i < 19 ==> clens[LengthOrder(i)] == if i < n then Window(data, p + 14 + 3 * i, 3) else 0
    ensures DynamicLengths(data, p) ==
            if !Kraft(clens) then BadLengths
            else ReadLengths(data, clens, p + 14 + 3 * n, 258 + Window(data, p, 5) + Window(data, p + 5, 5), [])
  {
    hide Window, ReadLengths, CodeLengthLengths, Kraft, LengthOrder;
    HclenRange(data, p + 10);
    n := Window(data, p + 10, 4) + 4;
    clens := CodeLengthLengths(data, p + 14, n);
    forall i | 0 <= i < 19
      ensures clens[LengthOrder(i)] == if i < n then Window(data, p + 14 + 3 * i, 3) else 0
    {
      SentAt(data, p + 14, n, i);
    }
  }

  // ---------- the fixed code ----------

  /** The fixed literal/length code as the table of section 3.2.6 of RFC 1951 has it. */
  function FixedCode(sym: nat): (nat, nat)
  {
    if sym <= 143 then (0x30 + sym, 8)
    else if sym <= 255 then (0x190 + (sym - 144), 9)
    else if sym <= 279 then (sym - 256, 7)
    else (0xc0 + (sym - 280), 8)
  }

  lemma {:induction false} CountRun(lens: seq<nat>, s: nat, m: nat, n: nat, v: nat)
    requires m <= n <= |lens| && forall i :: m <= i < n ==> lens[i] == v
    ensures Count(lens, s, n) == Count(lens, s, m) + if v == s then n - m else 0
    decreases n
  {
    if m < n {
      CountRun(lens, s, m, n - 1, v);
    }
  }

  lemma FixedCounts(l: seq<nat>, s: nat, sym: nat)
    requires l == FixedLiteralLengths() && sym <= 288
    ensures |l| == 288
    ensures Count(l, s, sym) ==
            if s == 8 then (if sym <= 144 then sym else if sym <= 280 then 144 else 144 + (sym - 280))
            else if s == 9 then (if sym <= 144 then 0 else if sym <= 256 then sym - 144 else 112)
            else if s == 7 then (if sym <= 256 then 0 else if sym <= 280 then sym - 256 else 24)
            else 0
  {
    hide Count, FixedLength;
    FixedRuns(l);
    assert Count(l, s, 0) == 0 by {
      NothingCounted(l, s);
    }
    CountRun(l, s, 0, if sym < 144 then sym else 144, 8);
    if sym > 144 {
      CountRun(l, s, 144, if sym < 256 then sym else 256, 9);
    }
    if sym > 256 {
      CountRun(l, s, 256, if sym < 280 then sym else 280, 7);
    }
    if sym > 280 {
      CountRun(l, s, 280, sym, 8);
    }
  }

  lemma NothingCounted(l: seq<nat>, s: nat)
    ensures Count(l, s, 0) == 0
  {
  }

  lemma FixedStarts(l: seq<nat>)
    requires l == FixedLiteralLengths()
    ensures FirstCode(l, 7) == 0 && FirstCode(l, 8) == 0x30 && FirstCode(l, 9) == 0x190
  {
    hide Count;
    forall s: nat
      ensures Used(l, s) == if s == 7 then 24 else if s == 8 then 152 else if s == 9 then 112 else 0
    {
      FixedCounts(l, s, 288);
    }
    assert FirstCode(l, 1) == 0 && FirstCode(l, 2) == 0 && FirstCode(l, 3) == 0 && FirstCode(l, 4) == 0;
    assert FirstCode(l, 5) == 0 && FirstCode(l, 6) == 0 && FirstCode(l, 7) == 0 && FirstCode(l, 8) == 48;
  }

  /** The canonical codes of the fixed lengths are those of the table. */
  lemma FixedCodesAre(sym: nat)
    requires sym < 288
    ensures var l := FixedLiteralLengths(); |l| == 288 && (Code(l, sym), l[sym]) == FixedCode(sym)
  {
    hide Count, FirstCode;
    var l := FixedLiteralLengths();
    FixedStarts(l);
    FixedCounts(l, l[sym], sym);
  }

  /** A fixed distance code is the number of its symbol in five bits. */
  lemma FixedDistancesAre(sym: nat)
    requires sym < 30
    ensures var d := FixedDistanceLengths(); sym < |d| && Code(d, sym) == sym && d[sym] == 5
  {
    var d := FixedDistanceLengths();
    forall s: nat, n: nat | n <= 32
      ensures Count(d, s, n) == if s == 5 then n else 0
    {
      CountRun(d, s, 0, n, 5);
    }
    hide Count;
    assert FirstCode(d, 3) == 0;
    assert FirstCode(d, 5) == 0;
  }

  // ---------- blocks in bytes ----------

  /** A stored block in bytes: 1, the length and its complement, each with the lower byte first, then the bytes. */
  lemma StoredStream(x: seq<Byte>, tail: seq<Byte>, cap: nat)
    requires |x| < 0x1_0000 && |x| <= cap
    ensures var n := |x|; var data := [1, n % 256, n / 256, 255 - n % 256, 255 - n / 256] + x + tail;
            Blocks(data, 0, [], cap) == Done(x, 8 * (5 + n))
  {
    hide Window, Kraft, Tokens;
    var n := |x|;
    var data := [1, n % 256, n / 256, 255 - n % 256, 255 - n / 256] + x + tail;
    FirstThreeBits(data);
    assert ByteAt(data, 1) == n % 256 && ByteAt(data, 2) == n / 256;
    assert ByteAt(data, 3) == 255 - n % 256 && ByteAt(data, 4) == 255 - n / 256;
    assert data[5..5 + n] == x && [] + x == x;
    assert Aligned(3) == 1;
    assert Stored(data, 3, [], cap) == Done(x, 8 * (5 + n));
  }

  lemma FirstThreeBits(data: seq<Byte>)
    requires data != [] && data[0] == 1
    ensures Window(data, 0, 1) == 1 && Window(data, 1, 2) == 0
  {
    assert BitAt(data, 0) && !BitAt(data, 1) && !BitAt(data, 2);
    assert Window(data, 2, 1) == 0;
  }

  /** The code of a byte, by the table. */
  function ByteBits(b: Byte): seq<bool>
  {
    MsbBits(FixedCode(b).0, FixedCode(b).1)
  }

  function TextBits(text: seq<Byte>): seq<bool>
  {
    if text == [] then [false, false, false, false, false, false, false] else ByteBits(text[0]) + TextBits(text[1..])
  }

  function Literals(text: seq<Byte>): (items: seq<Item>)
    ensures |items| == |text| && forall i :: 0 <= i < |text| ==> items[i] == Literal(text[i])
  {
    if text == [] then [] else [Literal(text[0])] + Literals(text[1..])
  }

  lemma FixedEncodable(text: seq<Byte>)
    ensures AllEncodable(Literals(text), FixedLiteralLengths(), FixedDistanceLengths())
  {
    hide Code, FixedLiteralLengths;
    forall sym: nat | sym < 288
      ensures Coded(FixedLiteralLengths(), sym)
    {
      FixedCodesAre(sym);
    }
  }

  lemma {:induction false} TextItems(text: seq<Byte>)
    ensures AllEncodable(Literals(text), FixedLiteralLengths(), FixedDistanceLengths())
    ensures ItemsBits(Literals(text), FixedLiteralLengths(), FixedDistanceLengths()) == TextBits(text)
    decreases |text|
  {
    hide Code, FixedLiteralLengths, FixedDistanceLengths, MsbBits, AllEncodable;
    FixedEncodable(text);
    if text == [] {
      FixedCodesAre(256);
      EndBits();
    } else {
      FixedCodesAre(text[0]);
      TextItems(text[1..]);
      FixedEncodable(text[1..]);
    }
  }

  lemma EndBits()
    ensures MsbBits(0, 7) == [false, false, false, false, false, false, false]
  {
    forall i: nat
      ensures !Bit(0, i)
    {
      BitOfZero(i);
    }
  }

  lemma {:induction false} TextApplies(text: seq<Byte>, out: seq<Byte>)
    ensures AllApply(Literals(text), out) && Expand(Literals(text), out) == out + text
    decreases |text|
  {
    if text == [] {
      assert out + text == out;
    } else {
      TextApplies(text[1..], out + [text[0]]);
      assert out + [text[0]] + text[1..] == out + text;
    }
  }

  /** A text without repetitions in a fixed block, bit by bit: one for the last block, the kind 01 with its lower bit first,
      the codes of the table with their higher bits first, and seven zeros. */
  lemma FixedText(text: seq<Byte>, data: seq<Byte>, cap: nat)
    requires var bits := [true, true, false] + TextBits(text); Carries(data, 0, bits) && |bits| <= 8 * |data|
    requires |text| <= cap
    ensures Blocks(data, 0, [], cap) == Done(text, 3 + |TextBits(text)|)
  {
    hide Blocks, TextBits, Carries, ItemsBits, AllEncodable, AllApply, Expand, FixedLiteralLengths, FixedDistanceLengths;
    var block := FixedBlock(Literals(text));
    TextItems(text);
    TextApplies(text, []);
    assert [] + text == text;
    assert BodyBits(block, 3) == TextBits(text);
    OneBlock(block, data, cap);
  }

  lemma OneBlock(block: Block, data: seq<Byte>, cap: nat)
    requires block.FixedBlock? && BlockOk(block, 3) && BlockApplies(block, [])
    requires var bits := [true, true, false] + BodyBits(block, 3); Carries(data, 0, bits) && |bits| <= 8 * |data|
    requires |ApplyBlock(block, [])| <= cap
    ensures Blocks(data, 0, [], cap) == Done(ApplyBlock(block, []), 3 + |BodyBits(block, 3)|)
  {
    hide Blocks, Carries, BodyBits, BlockOk, BlockApplies, ApplyBlock;
    assert LsbBits(1, 1) == [true] && LsbBits(1, 2) == [true, false];
    assert [true] + ([true, false] + BodyBits(block, 3)) == [true, true, false] + BodyBits(block, 3);
    assert ExpandBlocks([block], []) == ApplyBlock(block, []);
    assert AllOk([block], 0);
    StreamDecodes([block], data, 0, [], cap);
  }

  /** A block of the fourth kind is refused. */
  lemma FourthKind(data: seq<Byte>, p: nat, out: seq<Byte>, cap: nat)
    requires p < 8 * |data| && Window(data, p + 1, 2) == 3
    ensures Blocks(data, p, out, cap).Fail?
  {
    hide Window;
  }

  /** The letter a, as compressors write it. */
  lemma KnownStream(tail: seq<Byte>)
    ensures Blocks([0x4b, 0x04, 0x00] + tail, 0, [], 1) == Done([0x61], 18)
  {
    hide Blocks;
    var data := [0x4b, 0x04, 0x00] + tail;
    var f, t := false, true;
    assert ByteBits(0x61) == [t, f, f, t, f, f, f, t] by {
      BitsOf91();
    }
    assert [0x61][1..] == [];
    var code, end := ByteBits(0x61), TextBits([]);
    assert TextBits([0x61]) == code + end;
    assert [t, t, f] + (code + end) == [t, t, f, t, f, f, t, f, f, f, t, f, f, f, f, f, f, f];
    LetterCarries(data);
    FixedText([0x61], data, 1);
  }

  lemma BitsOf91()
    ensures MsbBits(0x91, 8) == [true, false, false, true, false, false, false, true]
  {
    assert Bit(0x91, 0) && !Bit(0x91, 1) && !Bit(0x91, 2) && !Bit(0x91, 3);
    assert Bit(0x91, 4) && !Bit(0x91, 5) && !Bit(0x91, 6) && Bit(0x91, 7);
  }

  lemma LetterCarries(data: seq<Byte>)
    requires |data| >= 3 && data[0] == 0x4b && data[1] == 0x04 && data[2] == 0x00
    ensures var f, t := false, true; Carries(data, 0, [t, t, f, t, f, f, t, f, f, f, t, f, f, f, f, f, f, f])
  {
    assert Bit(0x4b, 0) && Bit(0x4b, 1) && !Bit(0x4b, 2) && Bit(0x4b, 3);
    assert !Bit(0x4b, 4) && !Bit(0x4b, 5) && Bit(0x4b, 6) && !Bit(0x4b, 7);
    assert !Bit(4, 0) && !Bit(4, 1) && Bit(4, 2) && !Bit(4, 3) && !Bit(4, 4) && !Bit(4, 5) && !Bit(4, 6) && !Bit(4, 7);
    assert !Bit(0, 0) && !Bit(0, 1);
  }
}
