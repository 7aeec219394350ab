/** The converse of the round trip: whatever the decoder accepts is the serialization of some list of blocks. */
module DeflateLanguage {
  import opened Basics
  import opened Bits
  import opened BitStream
  import opened Canonical
  import opened ZBits
  import opened Deflate
  import opened DeflateWriter

  lemma CarriesJoin(data: seq<Byte>, p: nat, a: seq<bool>, b: seq<bool>)
    requires Carries(data, p, a) && Carries(data, p + |a|, b)
    ensures Carries(data, p, a + b)
  {
    forall i: nat | i < |a + b|
      ensures BitAt(data, p + i) == (a + b)[i]
    {
      if i >= |a| {
        assert BitAt(data, p + |a| + (i - |a|)) == b[i - |a|];
      }
    }
  }

  lemma WindowCarries(data: seq<Byte>, p: nat, n: nat)
    ensures Carries(data, p, LsbBits(Window(data, p, n), n))
  {
    forall i: nat | i < n
      ensures BitAt(data, p + i) == LsbBits(Window(data, p, n), n)[i]
    {
      BitOfWindow(data, p, n, i);
    }
  }

  lemma MsbCarries(data: seq<Byte>, p: nat, n: nat)
    ensures Carries(data, p, MsbBits(Msb(data, p, n), n))
  {
    forall i: nat | i < n
      ensures BitAt(data, p + i) == MsbBits(Msb(data, p, n), n)[i]
    {
      ReverseOfWindow(data, p, n, n);
      BitOfReverse(Window(data, p, n), n, n - 1 - i);
      BitOfWindow(data, p, n, i);
    }
  }

  /** A decoded symbol's code stands in the input. */
  lemma SymbolCarries(lens: seq<nat>, data: seq<Byte>, p: nat)
    ensures var sym := Symbol(lens, data, p);
            sym >= 0 ==> Coded(lens, sym) && Carries(data, p, SymbolBits(lens, sym))
  {
    hide Symbol, Carries;
    var sym := Symbol(lens, data, p);
    SymbolMatches(lens, data, p);
    if sym >= 0 {
      MsbPrefix(data, p, lens[sym], 16 - lens[sym]);
      MsbCarries(data, p, lens[sym]);
    }
  }

  lemma ParseDistance(data: seq<Byte>, dlens: seq<nat>, p: nat, l: nat, e: nat) returns (t: Item)
    requires DistanceAt(data, dlens, p).Distance? && 257 <= l < 286 && e < Pow2(LengthExtra(l - 257))
    ensures t.Reference? && t.lsym == l && t.lextra == e && ItemOk(t) && Coded(dlens, t.dsym)
    ensures Carries(data, p, DistanceBits(t, dlens))
    ensures DistanceAt(data, dlens, p) == Distance(Dist(t), p + |DistanceBits(t, dlens)|)
  {
    hide Carries, Code, DistBase, DistExtra, Symbol, Window, LengthExtra;
    var d := Symbol(dlens, data, p);
    SymbolCarries(dlens, data, p);
    var q := p + dlens[d];
    t := Reference(l, e, d, Window(data, q, DistExtra(d)));
    WindowCarries(data, q, DistExtra(d));
    CarriesJoin(data, p, SymbolBits(dlens, d), LsbBits(t.dextra, DistExtra(d)));
  }

  /** Every token that yields output is an encoded item. */
  lemma ParseItem(data: seq<Byte>, llens: seq<nat>, dlens: seq<nat>, p: nat, out: seq<Byte>, cap: nat) returns (t: Item)
    requires Token(data, llens, dlens, p, out, cap).Next?
    ensures Encodable(t, llens, dlens) && Carries(data, p, ItemBits(t, llens, dlens))
    ensures Applies(t, out)
    ensures Token(data, llens, dlens, p, out, cap) == Next(Apply(t, out), p + |ItemBits(t, llens, dlens)|)
  {
    hide Carries, Code, LengthBase, LengthExtra, Symbol, Window, DistanceBits, DistanceAt;
    var z := Symbol(llens, data, p);
    SymbolCarries(llens, data, p);
    if z < 256 {
      t := Literal(z);
    } else {
      t := ParseReference(data, llens, dlens, p, out, cap);
    }
  }

  lemma ParseReference(data: seq<Byte>, llens: seq<nat>, dlens: seq<nat>, p: nat, out: seq<Byte>, cap: nat)
    returns (t: Item)
    requires Token(data, llens, dlens, p, out, cap).Next? && Symbol(llens, data, p) >= 256
    ensures Encodable(t, llens, dlens) && Carries(data, p, ItemBits(t, llens, dlens))
    ensures Applies(t, out)
    ensures Token(data, llens, dlens, p, out, cap) == Next(Apply(t, out), p + |ItemBits(t, llens, dlens)|)
  {
    hide Carries, Code, LengthBase, LengthExtra, Symbol, Window, DistanceBits, DistanceAt, SymbolBits;
    var z := Symbol(llens, data, p);
    SymbolCarries(llens, data, p);
    var q := p + llens[z];
    var n := LengthExtra(z - 257);
    t := ParseDistance(data, dlens, q + n, z, Window(data, q, n));
    WindowCarries(data, q, n);
    CarriesJoin(data, q, LsbBits(t.lextra, n), DistanceBits(t, dlens));
    SymbolLength(llens, z);
    CarriesJoin(data, p, SymbolBits(llens, z), LsbBits(t.lextra, n) + DistanceBits(t, dlens));
  }

  lemma SymbolLength(lens: seq<nat>, sym: nat)
    requires Coded(lens, sym)
    ensures |SymbolBits(lens, sym)| == lens[sym]
  {
  }

  lemma {:induction false} ParseItems(data: seq<Byte>, llens: seq<nat>, dlens: seq<nat>, p: nat, out: seq<Byte>, cap: nat)
    returns (items: seq<Item>)
    requires Tokens(data, llens, dlens, p, out, cap).Done?
    ensures AllEncodable(items, llens, dlens) && Carries(data, p, ItemsBits(items, llens, dlens))
    ensures AllApply(items, out)
    ensures Tokens(data, llens, dlens, p, out, cap) == Done(Expand(items, out), p + |ItemsBits(items, llens, dlens)|)
    decreases cap - |out|
  {
    hide Carries, Code, Symbol, ItemBits, TokenOf, Apply, Applies;
    var t := Token(data, llens, dlens, p, out, cap);
    if t.EndOfBlock? {
      items := [];
      EndIsSymbol(data, llens, dlens, p, out, cap);
      SymbolCarries(llens, data, p);
    } else {
      var first := ParseItem(data, llens, dlens, p, out, cap);
      var rest := ParseItems(data, llens, dlens, t.end, t.out, cap);
      items := [first] + rest;
      assert items[1..] == rest;
      assert AllEncodable(items, llens, dlens);
      CarriesJoin(data, p, ItemBits(first, llens, dlens), ItemsBits(rest, llens, dlens));
    }
  }

  lemma EndIsSymbol(data: seq<Byte>, llens: seq<nat>, dlens: seq<nat>, p: nat, out: seq<Byte>, cap: nat)
    requires Token(data, llens, dlens, p, out, cap).EndOfBlock?
    ensures Symbol(llens, data, p) == 256 && Token(data, llens, dlens, p, out, cap).end == p + llens[256]
  {
  }

  // ---------- dynamic code lengths ----------

  lemma ParseRun(data: seq<Byte>, clens: seq<nat>, p: nat, room: nat, sofar: seq<nat>) returns (r: RunOp)
    requires room > 0 && RunAt(data, clens, p, room, sofar).Run?
    ensures RunApplies(r, sofar) && Coded(clens, r.c) && Carries(data, p, RunOpBits(r, clens))
    ensures var t := RunAt(data, clens, p, room, sofar);
            t.end == p + |RunOpBits(r, clens)| && sofar + Fill(t.count, t.length) == ApplyRun(r, sofar)
  {
    hide Carries, Code, Symbol, Window;
    var c := Symbol(clens, data, p);
    SymbolCarries(clens, data, p);
    if c < 16 {
      r := Plain(c);
      assert RunOpBits(r, clens) == SymbolBits(clens, c);
    } else {
      var q := p + clens[c];
      r := Repetition(c, Window(data, q, RunBits(c)));
      WindowCarries(data, q, RunBits(c));
      CarriesJoin(data, p, SymbolBits(clens, c), LsbBits(r.extra, RunBits(c)));
    }
  }

  lemma {:induction false} ParseRuns(data: seq<Byte>, clens: seq<nat>, p: nat, n: nat, sofar: seq<nat>)
    returns (ops: seq<RunOp>)
    requires |sofar| <= n && ReadLengths(data, clens, p, n, sofar).Lens?
    ensures AllCoded(ops, clens) && RunsApply(ops, sofar) && Carries(data, p, RunsBits(ops, clens))
    ensures ReadLengths(data, clens, p, n, sofar) == Lens(ApplyRuns(ops, sofar), p + |RunsBits(ops, clens)|)
    decreases n - |sofar|
  {
    hide Carries, Code, Symbol, RunOpBits, RunAt, ApplyRun, RunOk;
    if |sofar| == n {
      ops := [];
      NothingCarried(data, p);
    } else {
      var t := RunAt(data, clens, p, n - |sofar|, sofar);
      var first := ParseRun(data, clens, p, n - |sofar|, sofar);
      var rest := ParseRuns(data, clens, t.end, n, sofar + Fill(t.count, t.length));
      ops := [first] + rest;
      assert ops[1..] == rest;
      CarriesJoin(data, p, RunOpBits(first, clens), RunsBits(rest, clens));
    }
  }

  lemma NothingCarried(data: seq<Byte>, p: nat)
    ensures Carries(data, p, [])
  {
  }

  lemma {:induction false} ParseSent(data: seq<Byte>, p: nat, n: nat) returns (sent: seq<nat>)
    requires n <= 19
    ensures |sent| == n && (forall i :: 0 <= i < n ==> sent[i] < 8)
    ensures Carries(data, p, SentBits(sent, n)) && Placed(sent, n) == CodeLengthLengths(data, p, n)
  {
    hide Carries, LengthOrder, Window;
    if n == 0 {
      sent := [];
      NothingCarried(data, p);
    } else {
      var init := ParseSent(data, p, n - 1);
      var s := Window(data, p + 3 * (n - 1), 3);
      Pow2Values();
      sent := init + [s];
      SentPrefix(init, s, n - 1);
      WindowCarries(data, p + 3 * (n - 1), 3);
      CarriesJoin(data, p, SentBits(init, n - 1), LsbBits(s, 3));
    }
  }

  lemma {:induction false} SentPrefix(init: seq<nat>, s: nat, n: nat)
    requires n <= |init| && n <= 19
    ensures SentBits(init + [s], n) == SentBits(init, n) && Placed(init + [s], n) == Placed(init, n)
  {
    hide LengthOrder;
    if n > 0 {
      SentPrefix(init, s, n - 1);
    }
  }

  lemma ParseDynamic(data: seq<Byte>, p: nat) returns (h: Dynamic)
    requires DynamicHeader(data, p).Header?
    ensures DynamicOk(h) && Carries(data, p, DynamicBits(h))
    ensures DynamicHeader(data, p) == Header(LiteralLengths(h), DistanceLengths(h), p + |DynamicBits(h)|)
  {
    hide Carries, Window, Kraft, CodeLengthLengths, ReadLengths, AllCoded, RunsApply, ApplyRuns, RunsBits;
    HclenRange(data, p);
    HclenRange(data, p + 5);
    HclenRange(data, p + 10);
    var hlit, hdist, hclen := LiteralCount(data, p), Window(data, p + 5, 5) + 1, Window(data, p + 10, 4) + 4;
    var sent := ParseSent(data, p + 14, hclen);
    var clens := CodeLengthLengths(data, p + 14, hclen);
    var ops := ParseRuns(data, clens, p + 14 + 3 * hclen, hlit + hdist, []);
    h := Dynamic(hlit, hdist, sent, ops);
    CarriesJoin(data, p + 14, SentBits(sent, hclen), RunsBits(ops, clens));
    JoinCounts(data, p, SentBits(sent, hclen) + RunsBits(ops, clens));
  }

  lemma JoinCounts(data: seq<Byte>, p: nat, rest: seq<bool>)
    requires Carries(data, p + 14, rest)
    ensures Carries(data, p, LsbBits(Window(data, p, 5), 5) +
              (LsbBits(Window(data, p + 5, 5), 5) + (LsbBits(Window(data, p + 10, 4), 4) + rest)))
  {
    hide Carries, Window;
    var a, b, c := LsbBits(Window(data, p, 5), 5), LsbBits(Window(data, p + 5, 5), 5), LsbBits(Window(data, p + 10, 4), 4);
    WindowCarries(data, p, 5);
    WindowCarries(data, p + 5, 5);
    WindowCarries(data, p + 10, 4);
    CarriesJoin(data, p + 10, c, rest);
    CarriesJoin(data, p + 5, b, c + rest);
    CarriesJoin(data, p, a, b + (c + rest));
  }

  // ---------- blocks ----------

  lemma NumberCarries(data: seq<Byte>, r: nat)
    ensures Bytes16(data, r) < 0x10000 && Carries(data, 8 * r, LsbBits(Bytes16(data, r), 16))
  {
    hide Carries;
    Pow2Values();
    WindowJoin(data, 8 * r, 8, 8);
    NextByte(data, r);
    NextByte(data, r + 1);
    ShlIsMul(Window(data, 8 * r + 8, 8), 8);
    WindowCarries(data, 8 * r, 16);
  }

  lemma {:induction false} BytesCarry(data: seq<Byte>, a: nat, bytes: seq<Byte>, n: nat)
    requires n <= |bytes| && a + |bytes| <= |data| && bytes == data[a..a + |bytes|]
    ensures Carries(data, 8 * a, BytesBits(bytes, n))
  {
    hide Carries;
    if n == 0 {
      NothingCarried(data, 8 * a);
    } else {
      BytesCarry(data, a, bytes, n - 1);
      NextByte(data, a + n - 1);
      WindowCarries(data, 8 * (a + n - 1), 8);
      CarriesJoin(data, 8 * a, BytesBits(bytes, n - 1), LsbBits(bytes[n - 1], 8));
    }
  }

  lemma ParseStored(data: seq<Byte>, p: nat, out: seq<Byte>, cap: nat) returns (b: Block)
    requires Stored(data, p, out, cap).Done?
    ensures b.StoredBlock? && BlockOk(b, p) && Carries(data, p, BodyBits(b, p))
    ensures Stored(data, p, out, cap) == Done(out + b.bytes, p + |BodyBits(b, p)|)
  {
    hide Carries, Bytes16, BytesBits;
    var a := Aligned(p);
    var n := Bytes16(data, a);
    var pad := PadBits(data, p, 8 * a - p);
    var bytes := data[a + 4..a + 4 + n];
    b := StoredBlock(pad, bytes);
    var x, y, z := LsbBits(n, 16), LsbBits(0xFFFF - n, 16), BytesBits(bytes, n);
    NumberCarries(data, a);
    NumberCarries(data, a + 2);
    BytesCarry(data, a + 4, bytes, n);
    CarriesJoin(data, 8 * a + 16, y, z);
    CarriesJoin(data, 8 * a, x, y + z);
    CarriesJoin(data, p, pad, x + (y + z));
  }

  ghost function PadBits(data: seq<Byte>, p: nat, n: nat): (s: seq<bool>)
    ensures |s| == n && Carries(data, p, s)
  {
    seq(n, i requires 0 <= i => BitAt(data, p + i))
  }

  lemma ParseBody(data: seq<Byte>, kind: nat, p: nat, out: seq<Byte>, cap: nat) returns (b: Block)
    requires BlockBody(data, kind, p, out, cap).Done?
    ensures BlockKind(b) == kind && BlockOk(b, p) && Carries(data, p, BodyBits(b, p)) && BlockApplies(b, out)
    ensures BlockBody(data, kind, p, out, cap) == Done(ApplyBlock(b, out), p + |BodyBits(b, p)|)
  {
    hide Carries, Stored, FixedLiteralLengths, FixedDistanceLengths, DynamicBits, DynamicHeader, Tokens, ItemsBits;
    hide LiteralLengths, DistanceLengths, Expand, AllApply, DynamicOk;
    if kind == 0 {
      b := ParseStored(data, p, out, cap);
    } else if kind == 1 {
      var items := ParseItems(data, FixedLiteralLengths(), FixedDistanceLengths(), p, out, cap);
      b := FixedBlock(items);
    } else {
      var h := ParseDynamic(data, p);
      var items := ParseItems(data, LiteralLengths(h), DistanceLengths(h), p + |DynamicBits(h)|, out, cap);
      b := DynamicBlock(h, items);
      CarriesJoin(data, p, DynamicBits(h), ItemsBits(items, LiteralLengths(h), DistanceLengths(h)));
    }
  }

  lemma JoinHeader(data: seq<Byte>, p: nat, rest: seq<bool>)
    requires Carries(data, p + 3, rest)
    ensures Carries(data, p, LsbBits(Window(data, p, 1), 1) + (LsbBits(Window(data, p + 1, 2), 2) + rest))
  {
    hide Carries, Window;
    WindowCarries(data, p, 1);
    WindowCarries(data, p + 1, 2);
    CarriesJoin(data, p + 1, LsbBits(Window(data, p + 1, 2), 2), rest);
    CarriesJoin(data, p, LsbBits(Window(data, p, 1), 1), LsbBits(Window(data, p + 1, 2), 2) + rest);
  }

  lemma FinalFlag(data: seq<Byte>, p: nat)
    ensures Window(data, p, 1) < 2
  {
    Pow2Values();
  }

  /** Every accepted stream is a serialized list of blocks, and its output is their expansion. */
  lemma {:induction false} ParseStream(data: seq<Byte>, p: nat, out: seq<Byte>, cap: nat) returns (blocks: seq<Block>)
    requires Blocks(data, p, out, cap).Done?
    ensures AllOk(blocks, p) && Carries(data, p, StreamBits(blocks, p)) && BlocksApply(blocks, out)
    ensures Blocks(data, p, out, cap) == Done(ExpandBlocks(blocks, out), p + |StreamBits(blocks, p)|)
    decreases 8 * |data| - p
  {
    hide Carries, BodyBits, BlockBody, BlockOk, Window, ApplyBlock, BlockApplies;
    var r := BlockBody(data, Window(data, p + 1, 2), p + 3, out, cap);
    var b := ParseBody(data, Window(data, p + 1, 2), p + 3, out, cap);
    var body := BodyBits(b, p + 3);
    FinalFlag(data, p);
    if Window(data, p, 1) == 1 {
      blocks := [b];
      JoinHeader(data, p, body);
      assert ExpandBlocks(blocks, out) == ApplyBlock(b, out);
    } else {
      var rest := ParseStream(data, r.end, r.out, cap);
      blocks := [b] + rest;
      assert blocks[1..] == rest;
      CarriesJoin(data, p + 3, body, StreamBits(rest, r.end));
      JoinHeader(data, p, body + StreamBits(rest, r.end));
    }
  }
}
