/** The inflater's entry points, and what they do to streams a compressor wrote. */
module ZlibDecode {
  import opened Basics
  import opened BitStream
  import opened Canonical
  import opened Deflate
  import opened DeflateFeed
  import opened DeflateWriter
  import opened DeflateLanguage
  import opened Inflate

  function FirstBit(parse_header: bool): nat
  {
    if parse_header then 16 else 0
  }

  /** The reservoir is never out of input before a code. */
  ghost predicate Fed(buffer: seq<Byte>, parse_header: bool, cap: nat)
  {
    BlocksFeed(buffer, FirstBit(parse_header), FirstBit(parse_header) / 8, [], cap).Loaded?
  }

  /** What comes out, given room for cap bytes: what RFC 1951 prescribes, if the header is right and the reservoir is fed. */
  ghost predicate Inflated(buffer: seq<Byte>, parse_header: bool, cap: nat, r: Option<seq<Byte>>)
  {
    var b := Blocks(buffer, FirstBit(parse_header), [], cap);
    r == if (parse_header ==> ZlibHeader(buffer)) && b.Done? && Fed(buffer, parse_header, cap) then Some(b.out) else None
  }

  /** Decode into a buffer that starts at initial_size bytes and grows. */
  method DecodeMalloc(buffer: seq<Byte>, initial_size: nat, parse_header: bool) returns (r: Option<seq<Byte>>)
    requires 1 <= initial_size <= 0x7FFF_FFFF
    ensures Inflated(buffer, parse_header, GrowthLimit(initial_size), r)
  {
    hide Blocks, GrowthLimit, ZlibHeader, BlocksFeed;
    var a := new ZBuf(buffer, initial_size, true);
    assert a.Contents() == [];
    var ok := a.ParseZlib(parse_header);
    r := if ok then Some(a.zout_start[..a.zout]) else None;
  }

  /** Decode into a buffer of fixed size. */
  method DecodeBuffer(buffer: seq<Byte>, olen: nat, parse_header: bool) returns (r: Option<seq<Byte>>)
    requires olen <= 0x7FFF_FFFF
    ensures Inflated(buffer, parse_header, olen, r)
  {
    hide Blocks, ZlibHeader, BlocksFeed;
    var a := new ZBuf(buffer, olen, false);
    assert a.Contents() == [];
    var ok := a.ParseZlib(parse_header);
    r := if ok then Some(a.zout_start[..a.zout]) else None;
  }

  /** A growing buffer holds any output up to two gigabytes. */
  lemma {:induction false} GrowthCovers(capacity: nat)
    requires 1 <= capacity
    ensures GrowthLimit(capacity) >= 0x8000_0000
    decreases UINT_MAX - capacity
  {
    if capacity <= UINT_MAX / 2 {
      GrowthCovers(2 * capacity);
    }
  }

  // ---------- streams written by a compressor ----------

  lemma PrefixedCarries(front: seq<Byte>, bits: seq<bool>, tail: seq<Byte>)
    ensures Carries(front + Pack(bits) + tail, 8 * |front|, bits)
  {
    hide Pack;
    var data := front + Pack(bits) + tail;
    PackedCarries(bits, tail);
    forall i: nat | i < |bits|
      ensures BitAt(data, 8 * |front| + i) == bits[i]
    {
      assert BitAt(Pack(bits) + tail, 0 + i) == bits[i];
      assert data == front + (Pack(bits) + tail);
      FrontBits(front, Pack(bits) + tail, i);
    }
  }

  lemma FrontBits(front: seq<Byte>, data: seq<Byte>, i: nat)
    ensures BitAt(front + data, 8 * |front| + i) == BitAt(data, i)
  {
    var k := |front|;
    assert (8 * k + i) / 8 == k + i / 8 && (8 * k + i) % 8 == i % 8;
  }

  /** Every list of stored, fixed and dynamic blocks, packed into bytes behind the right header and followed by at
      least two more bytes, is inflated to its LZ77 expansion, memory permitting. */
  lemma SerializedIsInflated(front: seq<Byte>, blocks: seq<Block>, tail: seq<Byte>, parse_header: bool, cap: nat,
                             r: Option<seq<Byte>>)
    requires 8 * |front| == FirstBit(parse_header) && |tail| >= 2
    requires AllOk(blocks, 8 * |front|) && BlocksApply(blocks, []) && |ExpandBlocks(blocks, [])| <= cap
    requires parse_header ==> ZlibHeader(front + Pack(StreamBits(blocks, 8 * |front|)) + tail)
    requires Inflated(front + Pack(StreamBits(blocks, 8 * |front|)) + tail, parse_header, cap, r)
    ensures r == Some(ExpandBlocks(blocks, []))
  {
    hide Blocks, StreamBits, AllOk, BlocksApply, Pack, Carries, ZlibHeader, ExpandBlocks, BlocksFeed;
    var p := 8 * |front|;
    var bits := StreamBits(blocks, p);
    var data := front + Pack(bits) + tail;
    PrefixedCarries(front, bits, tail);
    StreamDecodes(blocks, data, p, [], cap);
    BlocksFed(data, p, p / 8, [], cap);
  }

  /** With fewer bytes behind it, or none, such a stream is inflated to its expansion if and only if the reservoir is fed. */
  lemma SerializedAtEnd(buffer: seq<Byte>, blocks: seq<Block>, parse_header: bool, cap: nat, r: Option<seq<Byte>>)
    requires var p := FirstBit(parse_header);
             AllOk(blocks, p) && Carries(buffer, p, StreamBits(blocks, p)) && p + |StreamBits(blocks, p)| <= 8 * |buffer|
    requires BlocksApply(blocks, []) && |ExpandBlocks(blocks, [])| <= cap && (parse_header ==> ZlibHeader(buffer))
    requires Inflated(buffer, parse_header, cap, r)
    ensures r == if Fed(buffer, parse_header, cap) then Some(ExpandBlocks(blocks, [])) else None
  {
    hide Blocks, StreamBits, AllOk, BlocksApply, Carries, ZlibHeader, ExpandBlocks, BlocksFeed;
    StreamDecodes(blocks, buffer, FirstBit(parse_header), [], cap);
  }

  /** Whatever is inflated was such a list of blocks, which the input carries; of the zeros behind it at most 4568 bits are
      taken for part of it. */
  lemma InflatedIsSerialized(buffer: seq<Byte>, parse_header: bool, cap: nat, r: Option<seq<Byte>>)
    returns (blocks: seq<Block>)
    requires Inflated(buffer, parse_header, cap, r) && r.Some?
    ensures AllOk(blocks, FirstBit(parse_header)) && BlocksApply(blocks, [])
    ensures Carries(buffer, FirstBit(parse_header), StreamBits(blocks, FirstBit(parse_header)))
    ensures FirstBit(parse_header) + |StreamBits(blocks, FirstBit(parse_header))| <= 8 * |buffer| + 4568
    ensures r.value == ExpandBlocks(blocks, []) && Fed(buffer, parse_header, cap)
  {
    hide Blocks, StreamBits, AllOk, BlocksApply, Carries, ZlibHeader, ExpandBlocks, BlocksFeed;
    BlocksEndSoon(buffer, FirstBit(parse_header), [], cap);
    blocks := ParseStream(buffer, FirstBit(parse_header), [], cap);
  }

  /** A stream of blocks has one meaning. */
  lemma StreamUnambiguous(data: seq<Byte>, p: nat, a: seq<Block>, b: seq<Block>)
    requires AllOk(a, p) && Carries(data, p, StreamBits(a, p)) && p + |StreamBits(a, p)| <= 8 * |data| && BlocksApply(a, [])
    requires AllOk(b, p) && Carries(data, p, StreamBits(b, p)) && p + |StreamBits(b, p)| <= 8 * |data| && BlocksApply(b, [])
    ensures ExpandBlocks(a, []) == ExpandBlocks(b, []) && |StreamBits(a, p)| == |StreamBits(b, p)|
  {
    hide Blocks, StreamBits, AllOk, BlocksApply, Carries, ExpandBlocks;
    var cap := |ExpandBlocks(a, [])| + |ExpandBlocks(b, [])|;
    StreamDecodes(a, data, p, [], cap);
    StreamDecodes(b, data, p, [], cap);
  }

  // ---------- a stream with nothing behind it ----------

  ghost function TwoLiterals(a: Byte, b: Byte): seq<Block>
  {
    [FixedBlock([Literal(a), Literal(b)])]
  }

  lemma FixedCodes(a: Byte)
    requires a < 144
    ensures var l, d := FixedLiteralLengths(), FixedDistanceLengths();
            Encodable(Literal(a), l, d) && |ItemBits(Literal(a), l, d)| == 8 && l[a] == 8 && Kraft(l) && Kraft(d) &&
            Coded(l, 256) && |SymbolBits(l, 256)| == 7
  {
    hide Code, FixedLiteralLengths, FixedDistanceLengths, Kraft;
    FixedLiteralKraft();
    FixedDistanceKraft();
    FixedSizes(a);
  }

  lemma FixedSizes(a: Byte)
    requires a < 144
    ensures var l := FixedLiteralLengths(); |l| > 256 && l[a] == 8 && l[256] == 7
  {
  }

  /** The bits of the two literals and the end of the block. */
  ghost function TwoBits(a: Byte, b: Byte): (r: seq<bool>)
    requires a < 144 && b < 144
    ensures |r| == 23
  {
    var l, d := FixedLiteralLengths(), FixedDistanceLengths();
    FixedCodes(a);
    FixedCodes(b);
    ItemBits(Literal(a), l, d) + (ItemBits(Literal(b), l, d) + SymbolBits(l, 256))
  }

  lemma TwoLiteralsOk(a: Byte, b: Byte)
    requires a < 144 && b < 144
    ensures AllOk(TwoLiterals(a, b), 0) && BlocksApply(TwoLiterals(a, b), []) && ExpandBlocks(TwoLiterals(a, b), []) == [a, b]
    ensures StreamBits(TwoLiterals(a, b), 0) == LsbBits(1, 1) + (LsbBits(1, 2) + TwoBits(a, b))
  {
    hide ItemBits, SymbolBits, LsbBits, FixedLiteralLengths, FixedDistanceLengths, Kraft;
    FixedCodes(a);
    FixedCodes(b);
    var items := [Literal(a), Literal(b)];
    assert items[1..] == [Literal(b)] && items[1..][1..] == [];
    var l, d := FixedLiteralLengths(), FixedDistanceLengths();
    assert AllEncodable(items, l, d) && AllEncodable(items[1..], l, d) && AllEncodable([], l, d);
    assert ItemsBits([], l, d) == SymbolBits(l, 256);
    assert ItemsBits(items[1..], l, d) == ItemBits(Literal(b), l, d) + ItemsBits([], l, d);
    assert ItemsBits(items, l, d) == ItemBits(Literal(a), l, d) + ItemsBits(items[1..], l, d);
    TwoLiteralsExpand(a, b);
  }

  lemma TwoLiteralsExpand(a: Byte, b: Byte)
    ensures BlocksApply(TwoLiterals(a, b), []) && ExpandBlocks(TwoLiterals(a, b), []) == [a, b]
  {
    var items := [Literal(a), Literal(b)];
    assert items[1..] == [Literal(b)] && items[1..][1..] == [];
    assert AllApply([], [a, b]) && Expand([], [a, b]) == [a, b];
    assert Apply(Literal(a), []) == [a] && Apply(Literal(b), [a]) == [a, b];
    assert AllApply(items[1..], [a]) && Expand(items[1..], [a]) == [a, b];
    assert AllApply(items, []) && Expand(items, []) == [a, b];
    assert TwoLiterals(a, b)[1..] == [];
    assert BlocksApply([], [a, b]) && ExpandBlocks([], [a, b]) == [a, b];
  }

  /** Every stream of two literals in a fixed block is complete in four bytes; but with nothing behind it the reservoir is
      starved before the end of the block, although the code is there, and the stream is refused. */
  lemma RefusedAtEnd(a: Byte, b: Byte, cap: nat) returns (buffer: seq<Byte>)
    requires a < 144 && b < 144 && cap >= 2
    ensures AllOk(TwoLiterals(a, b), 0) && buffer == Pack(StreamBits(TwoLiterals(a, b), 0)) && |buffer| == 4
    ensures Blocks(buffer, 0, [], cap) == Done([a, b], 26) && !Fed(buffer, false, cap)
  {
    hide Blocks, StreamBits, BlocksApply, ExpandBlocks, Pack, Carries, BlocksFeed, TwoLiterals, TwoBits, AllOk, Window;
    hide TokensFeed, FixedLiteralLengths, FixedDistanceLengths, LsbBits;
    TwoLiteralsOk(a, b);
    var bits := StreamBits(TwoLiterals(a, b), 0);
    buffer := Pack(bits);
    PackedCarries(bits, []);
    assert Pack(bits) + [] == buffer && |bits| == 26;
    StreamDecodes(TwoLiterals(a, b), buffer, 0, [], cap);
    HeaderDecodes(1, 1, TwoBits(a, b), buffer, 0);
    TwoStarved(a, b, buffer, cap);
    FirstStarved(buffer, cap);
  }

  /** The reservoir holds four bytes: enough for both literals, but not for 16 bits behind them. */
  lemma TwoStarved(a: Byte, b: Byte, buffer: seq<Byte>, cap: nat)
    requires a < 144 && b < 144 && cap >= 2 && |buffer| == 4 && Carries(buffer, 3, TwoBits(a, b))
    ensures TokensFeed(buffer, FixedLiteralLengths(), FixedDistanceLengths(), 3, 4, [], cap).Starved?
  {
    hide ItemBits, SymbolBits, FixedLiteralLengths, FixedDistanceLengths, Kraft, Carries, Token, Encodable;
    var l, d := FixedLiteralLengths(), FixedDistanceLengths();
    FixedCodes(a);
    FixedCodes(b);
    CarriesParts(buffer, 3, ItemBits(Literal(a), l, d), ItemBits(Literal(b), l, d) + SymbolBits(l, 256));
    CarriesParts(buffer, 11, ItemBits(Literal(b), l, d), SymbolBits(l, 256));
    LiteralFed(a, l, d, buffer, 3, [], cap);
    LiteralFed(b, l, d, buffer, 11, [a], cap);
    assert BeforeCode(buffer, 19, 4).Starved?;
    assert TokenFeed(buffer, l, d, 19, 4).Starved?;
    assert TokensFeed(buffer, l, d, 19, 4, [a, b], cap).Starved?;
    assert [a] + [b] == [a, b] && [] + [a] == [a];
    assert TokensFeed(buffer, l, d, 11, 4, [a], cap) == TokensFeed(buffer, l, d, 19, 4, [a, b], cap);
  }

  lemma LiteralFed(c: Byte, l: seq<nat>, d: seq<nat>, buffer: seq<Byte>, p: nat, out: seq<Byte>, cap: nat)
    requires c < 144 && l == FixedLiteralLengths() && d == FixedDistanceLengths() && |out| < cap && p <= 16
    requires Encodable(Literal(c), l, d) && Carries(buffer, p, ItemBits(Literal(c), l, d))
    ensures Token(buffer, l, d, p, out, cap) == Next(out + [c], p + 8) && TokenFeed(buffer, l, d, p, 4) == Loaded(4)
  {
    hide FixedLiteralLengths, FixedDistanceLengths, Kraft, Carries, Token, Code;
    FixedCodes(c);
    ItemDecodes(Literal(c), l, d, buffer, p, out, cap);
    SymbolDecodes(l, c, buffer, p);
  }

  lemma FirstStarved(buffer: seq<Byte>, cap: nat)
    requires |buffer| == 4 && Window(buffer, 0, 1) == 1 && Window(buffer, 1, 2) == 1
    requires TokensFeed(buffer, FixedLiteralLengths(), FixedDistanceLengths(), 3, 4, [], cap).Starved?
    ensures BlocksFeed(buffer, 0, 0, [], cap).Starved?
  {
    hide TokensFeed, FixedLiteralLengths, FixedDistanceLengths, Window, BlockBody;
    assert Received(1, Received(0, 0, 1), 2) == 4;
  }
}
