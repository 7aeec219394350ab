/** A DEFLATE serializer (section 3.2 of RFC 1951), and the proof that decoding undoes it. */
module DeflateWriter {
  import opened Basics
  import opened Bits
  import opened BitStream
  import opened Canonical
  import opened ZBits
  import opened Deflate

  // ---------- symbols and tokens ----------

  /** sym has a code. */
  ghost predicate Coded(lens: seq<nat>, sym: nat)
  {
    sym < |lens| && 1 <= lens[sym] <= 16
  }

  function SymbolBits(lens: seq<nat>, sym: nat): seq<bool>
    requires sym < |lens|
  {
    MsbBits(Code(lens, sym), lens[sym])
  }

  /** The code of sym at position p is decoded as sym. */
  lemma SymbolDecodes(lens: seq<nat>, sym: nat, data: seq<Byte>, p: nat)
    requires Kraft(lens) && Coded(lens, sym) && Carries(data, p, SymbolBits(lens, sym))
    ensures Symbol(lens, data, p) == sym
  {
    hide Kraft;
    var s := lens[sym];
    CodeFits(lens, sym);
    ReadMsb(data, p, Code(lens, sym), s);
    MsbPrefix(data, p, s, 16 - s);
    SymbolIs(lens, data, p, sym);
  }

  /** What a compressor emits: a byte, or a length and a distance, each as a symbol with extra bits. */
  datatype Item = Literal(b: Byte) | Reference(lsym: nat, lextra: nat, dsym: nat, dextra: nat)

  predicate ItemOk(t: Item)
  {
    t.Reference? ==>
      257 <= t.lsym < 286 && t.lextra < Pow2(LengthExtra(t.lsym - 257)) &&
      t.dsym < 30 && t.dextra < Pow2(DistExtra(t.dsym))
  }

  function Length(t: Item): nat
    requires t.Reference? && ItemOk(t)
  {
    LengthBase(t.lsym - 257) + t.lextra
  }

  function Dist(t: Item): (d: nat)
    requires t.Reference? && ItemOk(t)
    ensures d >= 1
  {
    DistBase(t.dsym) + t.dextra
  }

  /** The item's symbols have codes. */
  ghost predicate Encodable(t: Item, llens: seq<nat>, dlens: seq<nat>)
  {
    ItemOk(t) &&
    match t
    case Literal(b) => Coded(llens, b)
    case Reference(l, _, d, _) => Coded(llens, l) && Coded(dlens, d)
  }

  function DistanceBits(t: Item, dlens: seq<nat>): seq<bool>
    requires t.Reference? && ItemOk(t) && t.dsym < |dlens|
  {
    SymbolBits(dlens, t.dsym) + LsbBits(t.dextra, DistExtra(t.dsym))
  }

  ghost function ItemBits(t: Item, llens: seq<nat>, dlens: seq<nat>): seq<bool>
    requires Encodable(t, llens, dlens)
  {
    match t
    case Literal(b) => SymbolBits(llens, b)
    case Reference(l, e, _, _) =>
      SymbolBits(llens, l) + (LsbBits(e, LengthExtra(l - 257)) + DistanceBits(t, dlens))
  }

  /** The item may be applied to `out`: its distance reaches back no further than the start. */
  predicate Applies(t: Item, out: seq<Byte>)
  {
    ItemOk(t) && (t.Reference? ==> Dist(t) <= |out|)
  }

  function Apply(t: Item, out: seq<Byte>): (r: seq<Byte>)
    requires Applies(t, out)
    ensures |r| > |out|
  {
    match t
    case Literal(b) => out + [b]
    case Reference(_, _, _, _) => Copy(out, Length(t), Dist(t))
  }

  lemma DistanceDecodes(t: Item, dlens: seq<nat>, data: seq<Byte>, p: nat)
    requires t.Reference? && ItemOk(t) && Kraft(dlens) && Coded(dlens, t.dsym) && Carries(data, p, DistanceBits(t, dlens))
    ensures DistanceAt(data, dlens, p) == Distance(Dist(t), p + |DistanceBits(t, dlens)|)
  {
    hide Kraft, DistBase, DistExtra, Carries, Code;
    var a, b := SymbolBits(dlens, t.dsym), LsbBits(t.dextra, DistExtra(t.dsym));
    CarriesParts(data, p, a, b);
    SymbolDecodes(dlens, t.dsym, data, p);
    ReadLsb(data, p + |a|, t.dextra, DistExtra(t.dsym));
  }

  lemma ReferenceDecodes(t: Item, llens: seq<nat>, dlens: seq<nat>, data: seq<Byte>, p: nat)
    requires t.Reference? && Encodable(t, llens, dlens) && Kraft(llens) && Kraft(dlens)
    requires Carries(data, p, ItemBits(t, llens, dlens))
    ensures Symbol(llens, data, p) == t.lsym
    ensures MatchAt(data, dlens, t.lsym, p + llens[t.lsym]) == Match(Length(t), Dist(t), p + |ItemBits(t, llens, dlens)|)
  {
    hide Kraft, LengthBase, LengthExtra, DistanceBits, Carries, Code, Symbol, Window, DistanceAt, Dist, LsbBits, Pow2;
    var a := SymbolBits(llens, t.lsym);
    var b := LsbBits(t.lextra, LengthExtra(t.lsym - 257));
    var c := DistanceBits(t, dlens);
    CarriesParts(data, p, a, b + c);
    CarriesParts(data, p + |a|, b, c);
    SymbolDecodes(llens, t.lsym, data, p);
    ReadLsb(data, p + |a|, t.lextra, LengthExtra(t.lsym - 257));
    DistanceDecodes(t, dlens, data, p + |a| + |b|);
  }

  /** An item at position p is decoded to its effect. */
  lemma ItemDecodes(t: Item, llens: seq<nat>, dlens: seq<nat>, data: seq<Byte>, p: nat, out: seq<Byte>, cap: nat)
    requires Encodable(t, llens, dlens) && Kraft(llens) && Kraft(dlens)
    requires Carries(data, p, ItemBits(t, llens, dlens))
    requires Applies(t, out) && |Apply(t, out)| <= cap
    ensures Token(data, llens, dlens, p, out, cap) == Next(Apply(t, out), p + |ItemBits(t, llens, dlens)|)
  {
    hide Kraft, LengthBase, LengthExtra, DistanceBits, Carries, Code, MatchAt, Symbol, Copy, Length, Dist;
    match t
    case Literal(b) => SymbolDecodes(llens, b, data, p);
    case Reference(_, _, _, _) =>
      ReferenceDecodes(t, llens, dlens, data, p);
      MatchApplies(t, llens, dlens, data, p, out, cap);
  }

  lemma MatchApplies(t: Item, llens: seq<nat>, dlens: seq<nat>, data: seq<Byte>, p: nat, out: seq<Byte>, cap: nat)
    requires t.Reference? && ItemOk(t) && t.lsym < |llens| && Symbol(llens, data, p) == t.lsym
    requires MatchAt(data, dlens, t.lsym, p + llens[t.lsym]).Match?
    requires MatchAt(data, dlens, t.lsym, p + llens[t.lsym]).len == Length(t)
    requires MatchAt(data, dlens, t.lsym, p + llens[t.lsym]).dist == Dist(t)
    requires Applies(t, out) && |Apply(t, out)| <= cap
    ensures Token(data, llens, dlens, p, out, cap) ==
            Next(Apply(t, out), MatchAt(data, dlens, t.lsym, p + llens[t.lsym]).end)
  {
    hide MatchAt, Symbol, LengthBase, LengthExtra, Length, Dist;
  }

  ghost predicate AllEncodable(items: seq<Item>, llens: seq<nat>, dlens: seq<nat>)
  {
    Coded(llens, 256) && forall i :: 0 <= i < |items| ==> Encodable(items[i], llens, dlens)
  }

  /** All items, then the end-of-block symbol. */
  ghost function ItemsBits(items: seq<Item>, llens: seq<nat>, dlens: seq<nat>): seq<bool>
    requires AllEncodable(items, llens, dlens)
  {
    if items == [] then SymbolBits(llens, 256)
    else ItemBits(items[0], llens, dlens) + ItemsBits(items[1..], llens, dlens)
  }

  predicate AllApply(items: seq<Item>, out: seq<Byte>)
  {
    items == [] || (Applies(items[0], out) && AllApply(items[1..], Apply(items[0], out)))
  }

  /** The LZ77 expansion of the items after `out`. */
  function Expand(items: seq<Item>, out: seq<Byte>): (r: seq<Byte>)
    requires AllApply(items, out)
    ensures |r| >= |out|
  {
    if items == [] then out else Expand(items[1..], Apply(items[0], out))
  }

  lemma {:induction false} ItemsDecode(items: seq<Item>, llens: seq<nat>, dlens: seq<nat>, data: seq<Byte>, p: nat,
                                       out: seq<Byte>, cap: nat)
    requires AllEncodable(items, llens, dlens) && Kraft(llens) && Kraft(dlens)
    requires Carries(data, p, ItemsBits(items, llens, dlens))
    requires AllApply(items, out) && |Expand(items, out)| <= cap
    ensures Tokens(data, llens, dlens, p, out, cap)
            == Done(Expand(items, out), p + |ItemsBits(items, llens, dlens)|)
    decreases items
  {
    hide Kraft, Carries, Code, ItemBits, Token, Encodable, Applies, Apply;
    if items == [] {
      SymbolDecodes(llens, 256, data, p);
      EndDecodes(data, llens, dlens, p, out, cap);
    } else {
      var a, b := ItemBits(items[0], llens, dlens), ItemsBits(items[1..], llens, dlens);
      CarriesParts(data, p, a, b);
      ItemDecodes(items[0], llens, dlens, data, p, out, cap);
      ItemsDecode(items[1..], llens, dlens, data, p + |a|, Apply(items[0], out), cap);
    }
  }

  lemma EndDecodes(data: seq<Byte>, llens: seq<nat>, dlens: seq<nat>, p: nat, out: seq<Byte>, cap: nat)
    requires Symbol(llens, data, p) == 256
    ensures Token(data, llens, dlens, p, out, cap) == EndOfBlock(p + llens[256])
  {
  }

  // ---------- dynamic code lengths ----------

  /** One symbol of the run-length code: a length, or a repetition with its extra bits. */
  datatype RunOp = Plain(c: nat) | Repetition(c: nat, extra: nat)

  predicate RunOk(r: RunOp)
  {
    match r
    case Plain(c) => c < 16
    case Repetition(c, e) => 16 <= c <= 18 && e < Pow2(RunBits(c))
  }

  function RunCount(r: RunOp): (n: nat)
    requires RunOk(r)
    ensures n > 0
  {
    if r.Plain? then 1 else RunBase(r.c) + r.extra
  }

  /** Only repeating the previous length needs one. */
  predicate RunApplies(r: RunOp, sofar: seq<nat>)
  {
    RunOk(r) && (r.c == 16 ==> |sofar| > 0)
  }

  function ApplyRun(r: RunOp, sofar: seq<nat>): seq<nat>
    requires RunApplies(r, sofar)
  {
    sofar + Fill(RunCount(r), if r.Plain? then r.c else if r.c == 16 then sofar[|sofar| - 1] else 0)
  }

  predicate RunsApply(ops: seq<RunOp>, sofar: seq<nat>)
  {
    ops == [] || (RunApplies(ops[0], sofar) && RunsApply(ops[1..], ApplyRun(ops[0], sofar)))
  }

  function ApplyRuns(ops: seq<RunOp>, sofar: seq<nat>): (r: seq<nat>)
    requires RunsApply(ops, sofar)
    ensures |r| >= |sofar| && (ops != [] ==> |r| > |sofar|)
  {
    if ops == [] then sofar else ApplyRuns(ops[1..], ApplyRun(ops[0], sofar))
  }

  function RunOpBits(r: RunOp, clens: seq<nat>): seq<bool>
    requires RunOk(r) && r.c < |clens|
  {
    SymbolBits(clens, r.c) + (if r.Plain? then [] else LsbBits(r.extra, RunBits(r.c)))
  }

  ghost predicate AllCoded(ops: seq<RunOp>, clens: seq<nat>)
  {
    forall i :: 0 <= i < |ops| ==> RunOk(ops[i]) && Coded(clens, ops[i].c)
  }

  ghost function RunsBits(ops: seq<RunOp>, clens: seq<nat>): seq<bool>
    requires AllCoded(ops, clens)
  {
    if ops == [] then [] else RunOpBits(ops[0], clens) + RunsBits(ops[1..], clens)
  }

  lemma RunDecodes(r: RunOp, clens: seq<nat>, data: seq<Byte>, p: nat, room: nat, sofar: seq<nat>)
    requires RunApplies(r, sofar) && Kraft(clens) && Coded(clens, r.c) && Carries(data, p, RunOpBits(r, clens))
    requires 0 < RunCount(r) <= room
    ensures var t := RunAt(data, clens, p, room, sofar);
            t.Run? && t.end == p + |RunOpBits(r, clens)| && sofar + Fill(t.count, t.length) == ApplyRun(r, sofar)
  {
    hide Kraft, Carries, Code;
    var a := SymbolBits(clens, r.c);
    var b := if r.Plain? then [] else LsbBits(r.extra, RunBits(r.c));
    CarriesParts(data, p, a, b);
    SymbolDecodes(clens, r.c, data, p);
    if r.Repetition? {
      ReadLsb(data, p + |a|, r.extra, RunBits(r.c));
    }
  }

  lemma {:induction false} RunsDecode(ops: seq<RunOp>, clens: seq<nat>, data: seq<Byte>, p: nat, n: nat, sofar: seq<nat>)
    requires AllCoded(ops, clens) && Kraft(clens) && RunsApply(ops, sofar) && |ApplyRuns(ops, sofar)| == n
    requires Carries(data, p, RunsBits(ops, clens))
    ensures ReadLengths(data, clens, p, n, sofar) == Lens(ApplyRuns(ops, sofar), p + |RunsBits(ops, clens)|)
    decreases ops
  {
    hide Kraft, Carries, Code, RunOpBits, RunAt, ApplyRun, RunOk;
    if ops != [] {
      var a, b := RunOpBits(ops[0], clens), RunsBits(ops[1..], clens);
      var next := ApplyRun(ops[0], sofar);
      RunLonger(ops[0], sofar);
      CarriesParts(data, p, a, b);
      RunDecodes(ops[0], clens, data, p, n - |sofar|, sofar);
      RunsDecode(ops[1..], clens, data, p + |a|, n, next);
    }
  }

  lemma RunLonger(r: RunOp, sofar: seq<nat>)
    requires RunApplies(r, sofar)
    ensures |ApplyRun(r, sofar)| == |sofar| + RunCount(r)
  {
  }

  /** The code-length code's lengths, as sent. */
  ghost predicate SentOk(sent: seq<nat>)
  {
    4 <= |sent| <= 19 && forall i :: 0 <= i < |sent| ==> sent[i] < 8
  }

  function SentBits(sent: seq<nat>, n: nat): (s: seq<bool>)
    requires n <= |sent|
    ensures |s| == 3 * n
  {
    if n == 0 then [] else SentBits(sent, n - 1) + LsbBits(sent[n - 1], 3)
  }

  /** The lengths in symbol order. */
  function Placed(sent: seq<nat>, n: nat): (s: seq<nat>)
    requires n <= |sent| && n <= 19
    ensures |s| == 19
  {
    if n == 0 then Fill(19, 0) else Placed(sent, n - 1)[LengthOrder(n - 1) := sent[n - 1]]
  }

  lemma {:induction false} SentDecodes(sent: seq<nat>, n: nat, data: seq<Byte>, p: nat)
    requires SentOk(sent) && n <= |sent| && Carries(data, p, SentBits(sent, n))
    ensures CodeLengthLengths(data, p, n) == Placed(sent, n)
  {
    hide Carries, LengthOrder;
    if n > 0 {
      CarriesParts(data, p, SentBits(sent, n - 1), LsbBits(sent[n - 1], 3));
      SentDecodes(sent, n - 1, data, p);
      Pow2Values();
      ReadLsb(data, p + 3 * (n - 1), sent[n - 1], 3);
    }
  }

  datatype Dynamic = Dynamic(hlit: nat, hdist: nat, sent: seq<nat>, ops: seq<RunOp>)

  ghost predicate DynamicOk(h: Dynamic)
  {
    257 <= h.hlit < 289 && 1 <= h.hdist < 33 && SentOk(h.sent) &&
    Kraft(Placed(h.sent, |h.sent|)) && AllCoded(h.ops, Placed(h.sent, |h.sent|)) &&
    RunsApply(h.ops, []) && |ApplyRuns(h.ops, [])| == h.hlit + h.hdist &&
    Kraft(ApplyRuns(h.ops, [])[..h.hlit]) && Kraft(ApplyRuns(h.ops, [])[h.hlit..])
  }

  ghost function DynamicBits(h: Dynamic): seq<bool>
    requires DynamicOk(h)
  {
    LsbBits(h.hlit - 257, 5) + (LsbBits(h.hdist - 1, 5) + (LsbBits(|h.sent| - 4, 4) +
      (SentBits(h.sent, |h.sent|) + RunsBits(h.ops, Placed(h.sent, |h.sent|)))))
  }

  ghost function LiteralLengths(h: Dynamic): seq<nat>
    requires DynamicOk(h)
  {
    ApplyRuns(h.ops, [])[..h.hlit]
  }

  ghost function DistanceLengths(h: Dynamic): seq<nat>
    requires DynamicOk(h)
  {
    ApplyRuns(h.ops, [])[h.hlit..]
  }

  /** The three counts at the front of a dynamic block. */
  lemma CountsDecode(h: Dynamic, rest: seq<bool>, data: seq<Byte>, p: nat)
    requires 257 <= h.hlit < 289 && 1 <= h.hdist < 33 && SentOk(h.sent)
    requires Carries(data, p, LsbBits(h.hlit - 257, 5) + (LsbBits(h.hdist - 1, 5) + (LsbBits(|h.sent| - 4, 4) + rest)))
    ensures LiteralCount(data, p) == h.hlit && Window(data, p + 5, 5) + 1 == h.hdist
    ensures Window(data, p + 10, 4) + 4 == |h.sent| && Carries(data, p + 14, rest)
  {
    hide Carries, Window;
    var a, b, c := LsbBits(h.hlit - 257, 5), LsbBits(h.hdist - 1, 5), LsbBits(|h.sent| - 4, 4);
    Pow2Values();
    CarriesParts(data, p, a, b + (c + rest));
    CarriesParts(data, p + 5, b, c + rest);
    CarriesParts(data, p + 10, c, rest);
    ReadLsb(data, p, h.hlit - 257, 5);
    ReadLsb(data, p + 5, h.hdist - 1, 5);
    ReadLsb(data, p + 10, |h.sent| - 4, 4);
    assert LiteralCount(data, p) == Window(data, p, 5) + 257;
  }

  lemma DynamicDecodes(h: Dynamic, data: seq<Byte>, p: nat)
    requires DynamicOk(h) && Carries(data, p, DynamicBits(h))
    ensures DynamicHeader(data, p) == Header(LiteralLengths(h), DistanceLengths(h), p + |DynamicBits(h)|)
  {
    hide Carries, Window, Kraft, CodeLengthLengths, ReadLengths, LiteralCount, AllCoded, RunsApply, ApplyRuns, RunsBits;
    var n := |h.sent|;
    var clens := Placed(h.sent, n);
    var s, r := SentBits(h.sent, n), RunsBits(h.ops, clens);
    CountsDecode(h, s + r, data, p);
    CarriesParts(data, p + 14, s, r);
    SentDecodes(h.sent, n, data, p + 14);
    RunsDecode(h.ops, clens, data, p + 14 + 3 * n, h.hlit + h.hdist, []);
  }

  // ---------- blocks ----------

  datatype Block =
    | StoredBlock(pad: seq<bool>, bytes: seq<Byte>)
    | FixedBlock(items: seq<Item>)
    | DynamicBlock(h: Dynamic, items: seq<Item>)

  /** The block can be written at bit p, after its three header bits. */
  ghost predicate BlockOk(b: Block, p: nat)
  {
    match b
    case StoredBlock(pad, bytes) => p + |pad| == 8 * Aligned(p) && |bytes| < 0x10000
    case FixedBlock(items) => AllEncodable(items, FixedLiteralLengths(), FixedDistanceLengths())
    case DynamicBlock(h, items) => DynamicOk(h) && AllEncodable(items, LiteralLengths(h), DistanceLengths(h))
  }

  function BytesBits(bytes: seq<Byte>, n: nat): (s: seq<bool>)
    requires n <= |bytes|
    ensures |s| == 8 * n
  {
    if n == 0 then [] else BytesBits(bytes, n - 1) + LsbBits(bytes[n - 1], 8)
  }

  function BlockKind(b: Block): nat
  {
    match b
    case StoredBlock(_, _) => 0
    case FixedBlock(_) => 1
    case DynamicBlock(_, _) => 2
  }

  ghost function BodyBits(b: Block, p: nat): seq<bool>
    requires BlockOk(b, p)
  {
    match b
    case StoredBlock(pad, bytes) =>
      pad + (LsbBits(|bytes|, 16) + (LsbBits(0xFFFF - |bytes|, 16) + BytesBits(bytes, |bytes|)))
    case FixedBlock(items) => ItemsBits(items, FixedLiteralLengths(), FixedDistanceLengths())
    case DynamicBlock(h, items) => DynamicBits(h) + ItemsBits(items, LiteralLengths(h), DistanceLengths(h))
  }

  predicate BlockApplies(b: Block, out: seq<Byte>)
  {
    b.StoredBlock? || AllApply(b.items, out)
  }

  function ApplyBlock(b: Block, out: seq<Byte>): (r: seq<Byte>)
    requires BlockApplies(b, out)
    ensures |r| >= |out|
  {
    if b.StoredBlock? then out + b.bytes else Expand(b.items, out)
  }

  lemma {:induction false} BytesDecode(bytes: seq<Byte>, n: nat, data: seq<Byte>, a: nat)
    requires n <= |bytes| && Carries(data, 8 * a, BytesBits(bytes, n)) && a + n <= |data|
    ensures data[a..a + n] == bytes[..n]
  {
    hide Carries;
    if n > 0 {
      CarriesParts(data, 8 * a, BytesBits(bytes, n - 1), LsbBits(bytes[n - 1], 8));
      BytesDecode(bytes, n - 1, data, a);
      ByteDecodes(bytes[n - 1], data, a + n - 1);
      assert data[a..a + n] == data[a..a + (n - 1)] + [data[a + n - 1]];
    }
  }

  lemma ByteDecodes(b: Byte, data: seq<Byte>, r: nat)
    requires Carries(data, 8 * r, LsbBits(b, 8))
    ensures ByteAt(data, r) == b
  {
    Pow2Values();
    ReadLsb(data, 8 * r, b, 8);
    NextByte(data, r);
  }

  lemma NumberDecodes(v: nat, data: seq<Byte>, r: nat)
    requires v < 0x10000 && Carries(data, 8 * r, LsbBits(v, 16))
    ensures Bytes16(data, r) == v
  {
    Pow2Values();
    ReadLsb(data, 8 * r, v, 16);
    WindowJoin(data, 8 * r, 8, 8);
    NextByte(data, r);
    NextByte(data, r + 1);
    ShlIsMul(Window(data, 8 * r + 8, 8), 8);
  }

  lemma StoredDecodes(pad: seq<bool>, bytes: seq<Byte>, data: seq<Byte>, p: nat, out: seq<Byte>, cap: nat)
    requires BlockOk(StoredBlock(pad, bytes), p) && Carries(data, p, BodyBits(StoredBlock(pad, bytes), p))
    requires p + |BodyBits(StoredBlock(pad, bytes), p)| <= 8 * |data| && |out| + |bytes| <= cap
    ensures Stored(data, p, out, cap) == Done(out + bytes, p + |BodyBits(StoredBlock(pad, bytes), p)|)
  {
    hide Carries, Bytes16, BytesBits;
    var n, a := |bytes|, Aligned(p);
    var x, y, z := LsbBits(n, 16), LsbBits(0xFFFF - n, 16), BytesBits(bytes, n);
    CarriesParts(data, p, pad, x + (y + z));
    CarriesParts(data, 8 * a, x, y + z);
    CarriesParts(data, 8 * a + 16, y, z);
    NumberDecodes(n, data, a);
    NumberDecodes(0xFFFF - n, data, a + 2);
    BytesDecode(bytes, n, data, a + 4);
  }

  /** A serialized block body is decoded to its effect. */
  lemma BodyDecodes(b: Block, data: seq<Byte>, p: nat, out: seq<Byte>, cap: nat)
    requires BlockOk(b, p) && Carries(data, p, BodyBits(b, p)) && p + |BodyBits(b, p)| <= 8 * |data|
    requires BlockApplies(b, out) && |ApplyBlock(b, out)| <= cap
    ensures BlockBody(data, BlockKind(b), p, out, cap) == Done(ApplyBlock(b, out), p + |BodyBits(b, p)|)
  {
    hide Carries, Stored, Kraft, FixedLiteralLengths, FixedDistanceLengths, DynamicBits, DynamicHeader, Tokens, ItemsBits;
    hide LiteralLengths, DistanceLengths, Expand, AllApply;
    match b
    case StoredBlock(pad, bytes) =>
      StoredDecodes(pad, bytes, data, p, out, cap);
    case FixedBlock(items) =>
      FixedLiteralKraft();
      FixedDistanceKraft();
      ItemsDecode(items, FixedLiteralLengths(), FixedDistanceLengths(), data, p, out, cap);
    case DynamicBlock(h, items) =>
      CarriesParts(data, p, DynamicBits(h), ItemsBits(items, LiteralLengths(h), DistanceLengths(h)));
      DynamicDecodes(h, data, p);
      DynamicKraft(h);
      ItemsDecode(items, LiteralLengths(h), DistanceLengths(h), data, p + |DynamicBits(h)|, out, cap);
  }

  lemma DynamicKraft(h: Dynamic)
    requires DynamicOk(h)
    ensures Kraft(LiteralLengths(h)) && Kraft(DistanceLengths(h))
  {
  }

  ghost predicate AllOk(blocks: seq<Block>, p: nat)
    decreases |blocks|
  {
    blocks != [] && BlockOk(blocks[0], p + 3) &&
    (|blocks| > 1 ==> AllOk(blocks[1..], p + 3 + |BodyBits(blocks[0], p + 3)|))
  }

  /** The whole stream at position p: every block behind its final flag and kind, the last one flagged. */
  ghost function StreamBits(blocks: seq<Block>, p: nat): seq<bool>
    requires AllOk(blocks, p)
    decreases |blocks|
  {
    hide BodyBits, BlockOk;
    var b := blocks[0];
    var body := BodyBits(b, p + 3);
    if |blocks| == 1 then LsbBits(1, 1) + (LsbBits(BlockKind(b), 2) + body)
    else LsbBits(0, 1) + (LsbBits(BlockKind(b), 2) + (body + StreamBits(blocks[1..], p + 3 + |body|)))
  }

  predicate BlocksApply(blocks: seq<Block>, out: seq<Byte>)
  {
    blocks == [] || (BlockApplies(blocks[0], out) && BlocksApply(blocks[1..], ApplyBlock(blocks[0], out)))
  }

  /** What the stream means. */
  function ExpandBlocks(blocks: seq<Block>, out: seq<Byte>): (r: seq<Byte>)
    requires BlocksApply(blocks, out)
    ensures |r| >= |out|
  {
    if blocks == [] then out else ExpandBlocks(blocks[1..], ApplyBlock(blocks[0], out))
  }

  lemma HeaderDecodes(f: nat, kind: nat, rest: seq<bool>, data: seq<Byte>, p: nat)
    requires f < 2 && kind < 4 && Carries(data, p, LsbBits(f, 1) + (LsbBits(kind, 2) + rest))
    ensures Window(data, p, 1) == f && Window(data, p + 1, 2) == kind && Carries(data, p + 3, rest)
  {
    hide Carries, Window;
    Pow2Values();
    CarriesParts(data, p, LsbBits(f, 1), LsbBits(kind, 2) + rest);
    CarriesParts(data, p + 1, LsbBits(kind, 2), rest);
    ReadLsb(data, p, f, 1);
    ReadLsb(data, p + 1, kind, 2);
  }

  /** Decoding undoes serialization, for every list of stored, fixed and dynamic blocks. */
  lemma {:induction false} StreamDecodes(blocks: seq<Block>, data: seq<Byte>, p: nat, out: seq<Byte>, cap: nat)
    requires AllOk(blocks, p) && Carries(data, p, StreamBits(blocks, p))
    requires p + |StreamBits(blocks, p)| <= 8 * |data|
    requires BlocksApply(blocks, out) && |ExpandBlocks(blocks, out)| <= cap
    ensures Blocks(data, p, out, cap) == Done(ExpandBlocks(blocks, out), p + |StreamBits(blocks, p)|)
    decreases |blocks|
  {
    hide Carries, BodyBits, BlockBody, BlockOk, Window, ApplyBlock, BlockApplies;
    var b := blocks[0];
    var body := BodyBits(b, p + 3);
    var next := ApplyBlock(b, out);
    if |blocks| == 1 {
      HeaderDecodes(1, BlockKind(b), body, data, p);
      assert ExpandBlocks(blocks, out) == next;
      BodyDecodes(b, data, p + 3, out, cap);
    } else {
      var rest := StreamBits(blocks[1..], p + 3 + |body|);
      HeaderDecodes(0, BlockKind(b), body + rest, data, p);
      CarriesParts(data, p + 3, body, rest);
      BodyDecodes(b, data, p + 3, out, cap);
      StreamDecodes(blocks[1..], data, p + 3 + |body|, next, cap);
    }
  }

  /** A stream packed into bytes, whatever follows it, is decoded to its expansion. */
  lemma RoundTrip(blocks: seq<Block>, tail: seq<Byte>, cap: nat)
    requires AllOk(blocks, 0) && BlocksApply(blocks, []) && |ExpandBlocks(blocks, [])| <= cap
    ensures Blocks(Pack(StreamBits(blocks, 0)) + tail, 0, [], cap)
            == Done(ExpandBlocks(blocks, []), |StreamBits(blocks, 0)|)
  {
    hide Blocks, StreamBits, AllOk, BlocksApply, Pack, Carries;
    PackedCarries(StreamBits(blocks, 0), tail);
    StreamDecodes(blocks, Pack(StreamBits(blocks, 0)) + tail, 0, [], cap);
  }
}
