/** How far ahead of its position the inflater has read: whether it is out of input before a code. The source asks for 16
    bits before every code, and gives up if fewer are in the reservoir and no byte of input is left. */
module DeflateFeed {
  import opened Basics
  import opened BitStream
  import opened Canonical
  import opened HuffmanTable
  import opened ZBits
  import opened Deflate

  /** Out of input; or so many bytes are read, counting the zeros behind the input. */
  datatype Feed = Starved | Loaded(bytes: nat)

  /** The bytes read after a refill at bit p: more than 24 bits are ahead then. */
  function Refilled(p: nat, l: nat): nat
  {
    var ahead := 8 * l - p;
    if ahead > 24 then l else l + (24 - ahead) / 8 + 1
  }

  lemma RefillStep(p: nat, l: nat)
    requires 8 * l - p <= 24
    ensures Refilled(p, l) == if 8 * (l + 1) - p > 24 then l + 1 else Refilled(p, l + 1)
  {
    var a := 24 - (8 * l - p);
    assert a >= 8 ==> a / 8 == (a - 8) / 8 + 1;
  }

  /** After n bits are received from bit p on. */
  function Received(p: nat, l: nat, n: nat): nat
  {
    if 8 * l - p < n then Refilled(p, l) else l
  }

  /** Before a code is decoded at bit p. */
  function BeforeCode(data: seq<Byte>, p: nat, l: nat): Feed
  {
    if 8 * l - p >= 16 then Loaded(l) else if l >= |data| then Starved else Loaded(Refilled(p, l))
  }

  ghost function DistanceFeed(data: seq<Byte>, dlens: seq<nat>, p: nat, l: nat): Feed
  {
    var f := BeforeCode(data, p, l);
    var d := Symbol(dlens, data, p);
    if f.Starved? || d < 0 || d >= 30 then f else Loaded(Received(p + dlens[d], f.bytes, DistExtra(d)))
  }

  /** A length symbol z was read just before p. */
  ghost function MatchFeed(data: seq<Byte>, dlens: seq<nat>, z: nat, p: nat, l: nat): Feed
    requires 257 <= z < 286
  {
    var le := LengthExtra(z - 257);
    DistanceFeed(data, dlens, p + le, Received(p, l, le))
  }

  ghost function SymbolFeed(data: seq<Byte>, dlens: seq<nat>, z: nat, q: nat, l: nat): Feed
  {
    if 257 <= z < 286 then MatchFeed(data, dlens, z, q, l) else Loaded(l)
  }

  ghost function TokenFeed(data: seq<Byte>, llens: seq<nat>, dlens: seq<nat>, p: nat, l: nat): Feed
  {
    var f := BeforeCode(data, p, l);
    var z := Symbol(llens, data, p);
    if f.Starved? || z < 0 then f else SymbolFeed(data, dlens, z, p + llens[z], f.bytes)
  }

  lemma TokenFeedSplit(data: seq<Byte>, llens: seq<nat>, dlens: seq<nat>, p: nat, l: nat, out: seq<Byte>, cap: nat)
    ensures var f := BeforeCode(data, p, l);
            var z := Symbol(llens, data, p);
            (f.Starved? ==> TokenFeed(data, llens, dlens, p, l).Starved?) &&
            (z < 0 ==> Token(data, llens, dlens, p, out, cap).BadToken?) &&
            (f.Loaded? && z >= 0 ==>
               TokenFeed(data, llens, dlens, p, l) == SymbolFeed(data, dlens, z, p + llens[z], f.bytes) &&
               Token(data, llens, dlens, p, out, cap) == TokenOf(data, dlens, z, p + llens[z], out, cap))
  {
    hide Symbol, BeforeCode, SymbolFeed, TokenOf;
  }

  ghost function TokensFeed(data: seq<Byte>, llens: seq<nat>, dlens: seq<nat>, p: nat, l: nat, out: seq<Byte>, cap: nat): Feed
    decreases cap - |out|
  {
    var f := TokenFeed(data, llens, dlens, p, l);
    var t := Token(data, llens, dlens, p, out, cap);
    if f.Starved? || !t.Next? then f else TokensFeed(data, llens, dlens, t.end, f.bytes, t.out, cap)
  }

  /** One run of the run-length code; symbol c, read just before q, has extra bits. */
  function ExtraFeed(c: nat, q: nat, l: nat): Feed
  {
    if 16 <= c <= 18 then Loaded(Received(q, l, RunBits(c))) else Loaded(l)
  }

  ghost function RunFeed(data: seq<Byte>, clens: seq<nat>, p: nat, l: nat): Feed
  {
    var f := BeforeCode(data, p, l);
    var c := Symbol(clens, data, p);
    if f.Starved? || c < 0 then f else ExtraFeed(c, p + clens[c], f.bytes)
  }

  ghost function LengthsFeed(data: seq<Byte>, clens: seq<nat>, p: nat, l: nat, n: nat, sofar: seq<nat>): Feed
    requires |sofar| <= n
    decreases n - |sofar|
  {
    if |sofar| == n then Loaded(l)
    else
      var f := RunFeed(data, clens, p, l);
      var r := RunAt(data, clens, p, n - |sofar|, sofar);
      if f.Starved? || r.BadRun? then f else LengthsFeed(data, clens, r.end, f.bytes, n, sofar + Fill(r.count, r.length))
  }

  /** After n three-bit numbers. */
  function ThreesFeed(p: nat, l: nat, n: nat): nat
    decreases n, p
  {
    if n == 0 then l else Received(p + 3 * (n - 1), ThreesFeed(p, l, n - 1), 3)
  }

  /** After the three counts of a dynamic header. */
  function CountsFeed(p: nat, l: nat): nat
  {
    Received(p + 10, Received(p + 5, Received(p, l, 5), 5), 4)
  }

  ghost function HeaderFeed(data: seq<Byte>, p: nat, l: nat): Feed
  {
    var hdist := Window(data, p + 5, 5) + 1;
    var hclen := Window(data, p + 10, 4) + 4;
    HclenRange(data, p + 10);
    var clens := CodeLengthLengths(data, p + 14, hclen);
    var l4 := ThreesFeed(p + 14, CountsFeed(p, l), hclen);
    if !Kraft(clens) then Loaded(l4)
    else LengthsFeed(data, clens, p + 14 + 3 * hclen, l4, LiteralCount(data, p) + hdist, [])
  }

  ghost function DynamicFeed(data: seq<Byte>, p: nat, l: nat, out: seq<Byte>, cap: nat): Feed
  {
    var f := HeaderFeed(data, p, l);
    var h := DynamicHeader(data, p);
    if f.Starved? || h.BadHeader? then f else TokensFeed(data, h.llens, h.dlens, h.end, f.bytes, out, cap)
  }

  /** Behind a stored block the reservoir is empty. */
  ghost function BodyFeed(data: seq<Byte>, kind: nat, p: nat, l: nat, out: seq<Byte>, cap: nat): Feed
  {
    if kind == 0 then
      var r := Stored(data, p, out, cap);
      Loaded(if r.Done? then r.end / 8 else l)
    else if kind == 1 then TokensFeed(data, FixedLiteralLengths(), FixedDistanceLengths(), p, l, out, cap)
    else if kind == 2 then DynamicFeed(data, p, l, out, cap)
    else Loaded(l)
  }

  ghost function BlockFeed(data: seq<Byte>, p: nat, l: nat, out: seq<Byte>, cap: nat): Feed
  {
    BodyFeed(data, Window(data, p + 1, 2), p + 3, Received(p + 1, Received(p, l, 1), 2), out, cap)
  }

  /** All blocks from bit p on. */
  ghost function BlocksFeed(data: seq<Byte>, p: nat, l: nat, out: seq<Byte>, cap: nat): Feed
    decreases 8 * |data| - p
  {
    if p >= 8 * |data| then Loaded(l)
    else
      var f := BlockFeed(data, p, l, out, cap);
      var r := BlockBody(data, Window(data, p + 1, 2), p + 3, out, cap);
      if f.Starved? || r.Fail? || Window(data, p, 1) == 1 || r.end <= p then f
      else BlocksFeed(data, r.end, f.bytes, r.out, cap)
  }

  // ---------- 16 more bits are enough ----------

  lemma TokenFed(data: seq<Byte>, llens: seq<nat>, dlens: seq<nat>, p: nat, l: nat, out: seq<Byte>, cap: nat)
    requires var t := Token(data, llens, dlens, p, out, cap); !t.BadToken? && t.end + 16 <= 8 * |data|
    ensures TokenFeed(data, llens, dlens, p, l).Loaded?
  {
    hide Symbol, Window, LengthBase, DistBase;
  }

  lemma {:induction false} TokensFed(data: seq<Byte>, llens: seq<nat>, dlens: seq<nat>, p: nat, l: nat, out: seq<Byte>, cap: nat)
    requires var r := Tokens(data, llens, dlens, p, out, cap); r.Done? && r.end + 16 <= 8 * |data|
    ensures TokensFeed(data, llens, dlens, p, l, out, cap).Loaded?
    decreases cap - |out|
  {
    hide Token, TokenFeed;
    TokensEnd(data, llens, dlens, p, out, cap);
    TokenFed(data, llens, dlens, p, l, out, cap);
    var t := Token(data, llens, dlens, p, out, cap);
    if t.Next? {
      TokensFed(data, llens, dlens, t.end, TokenFeed(data, llens, dlens, p, l).bytes, t.out, cap);
    }
  }

  lemma {:induction false} LengthsFed(data: seq<Byte>, clens: seq<nat>, p: nat, l: nat, n: nat, sofar: seq<nat>)
    requires |sofar| <= n
    requires var r := ReadLengths(data, clens, p, n, sofar); r.Lens? && r.end + 16 <= 8 * |data|
    ensures LengthsFeed(data, clens, p, l, n, sofar).Loaded?
    decreases n - |sofar|
  {
    hide Symbol, RunAt;
    if |sofar| < n {
      var r := RunAt(data, clens, p, n - |sofar|, sofar);
      var f := RunFeed(data, clens, p, l);
      LengthsFed(data, clens, r.end, if f.Loaded? then f.bytes else 0, n, sofar + Fill(r.count, r.length));
    }
  }

  lemma BodyFed(data: seq<Byte>, kind: nat, p: nat, l: nat, out: seq<Byte>, cap: nat)
    requires var r := BlockBody(data, kind, p, out, cap); r.Done? && r.end + 16 <= 8 * |data|
    ensures BodyFeed(data, kind, p, l, out, cap).Loaded?
  {
    hide Tokens, TokensFeed, ReadLengths, LengthsFeed, CodeLengthLengths, Kraft, Window, Received;
    if kind == 1 {
      TokensFed(data, FixedLiteralLengths(), FixedDistanceLengths(), p, l, out, cap);
    } else if kind == 2 {
      DynamicBlockEnd(data, p, out, cap);
      HeaderFed(data, p, l);
      var h := DynamicHeader(data, p);
      TokensFed(data, h.llens, h.dlens, h.end, HeaderFeed(data, p, l).bytes, out, cap);
    }
  }

  lemma HeaderFed(data: seq<Byte>, p: nat, l: nat)
    requires var h := DynamicHeader(data, p); h.Header? && h.end + 16 <= 8 * |data|
    ensures HeaderFeed(data, p, l).Loaded?
  {
    hide ReadLengths, LengthsFeed, CodeLengthLengths, Kraft, Window, Received;
    var hdist := Window(data, p + 5, 5) + 1;
    var hclen := Window(data, p + 10, 4) + 4;
    HclenRange(data, p + 10);
    LengthsFed(data, CodeLengthLengths(data, p + 14, hclen), p + 14 + 3 * hclen,
               ThreesFeed(p + 14, CountsFeed(p, l), hclen), LiteralCount(data, p) + hdist, []);
  }

  /** A stream with 16 more bits behind it is never starved, however far ahead the reservoir was. */
  lemma {:induction false} BlocksFed(data: seq<Byte>, p: nat, l: nat, out: seq<Byte>, cap: nat)
    requires var r := Blocks(data, p, out, cap); r.Done? && r.end + 16 <= 8 * |data|
    ensures BlocksFeed(data, p, l, out, cap).Loaded?
    decreases 8 * |data| - p
  {
    hide BlockBody, BodyFeed, Window;
    var r := BlockBody(data, Window(data, p + 1, 2), p + 3, out, cap);
    if Window(data, p, 1) != 1 {
      BlocksEnd(data, r.end, r.out, cap);
    }
    BodyFed(data, Window(data, p + 1, 2), p + 3, Received(p + 1, Received(p, l, 1), 2), out, cap);
    if Window(data, p, 1) != 1 {
      BlocksFed(data, r.end, BlockFeed(data, p, l, out, cap).bytes, r.out, cap);
    }
  }

  // ---------- how far behind the input an accepted stream can end ----------

  lemma ZerosBehind(data: seq<Byte>, p: nat, q: nat, n: nat)
    requires p >= 8 * |data| && q >= 8 * |data|
    ensures Msb(data, p, n) == Msb(data, q, n)
    decreases n
  {
    if n > 0 {
      ZerosBehind(data, p, q, n - 1);
    }
  }

  /** Behind the input there are only zeros, so every symbol there is the same. */
  lemma SameSymbol(lens: seq<nat>, data: seq<Byte>, p: nat, q: nat)
    requires p >= 8 * |data| && q >= 8 * |data|
    ensures Symbol(lens, data, p) == Symbol(lens, data, q)
  {
    ZerosBehind(data, p, q, 16);
  }

  lemma TokenEndsSoon(data: seq<Byte>, llens: seq<nat>, dlens: seq<nat>, p: nat, out: seq<Byte>, cap: nat)
    requires CodeLengths(llens) && CodeLengths(dlens)
    ensures var t := Token(data, llens, dlens, p, out, cap);
            (t.EndOfBlock? ==> Symbol(llens, data, p) == 256 && p <= t.end <= p + 15) &&
            (t.Next? ==> Symbol(llens, data, p) != 256 && p <= t.end <= p + 48)
  {
    hide Symbol, Window, LengthBase, DistBase;
  }

  lemma {:induction false} TokensEndSoon(data: seq<Byte>, llens: seq<nat>, dlens: seq<nat>, p: nat, out: seq<Byte>, cap: nat)
    requires CodeLengths(llens) && CodeLengths(dlens) && Tokens(data, llens, dlens, p, out, cap).Done?
    ensures var r := Tokens(data, llens, dlens, p, out, cap);
            if p >= 8 * |data| then Symbol(llens, data, p) == 256 && r.end <= p + 15 else r.end <= 8 * |data| + 62
    decreases cap - |out|
  {
    hide Token, Symbol;
    var t := Token(data, llens, dlens, p, out, cap);
    TokenEndsSoon(data, llens, dlens, p, out, cap);
    if t.Next? {
      TokensEndSoon(data, llens, dlens, t.end, t.out, cap);
      if p >= 8 * |data| {
        SameSymbol(llens, data, p, t.end);
      }
    }
  }

  lemma RunEndsSoon(data: seq<Byte>, clens: seq<nat>, p: nat, room: nat, sofar: seq<nat>)
    requires room > 0 && forall i :: 0 <= i < |clens| ==> clens[i] <= 7
    ensures var r := RunAt(data, clens, p, room, sofar); r.Run? ==> p <= r.end <= p + 14
  {
    hide Symbol, Window;
  }

  lemma {:induction false} LengthsEndSoon(data: seq<Byte>, clens: seq<nat>, p: nat, n: nat, sofar: seq<nat>)
    requires |sofar| <= n && forall i :: 0 <= i < |clens| ==> clens[i] <= 7
    ensures var r := ReadLengths(data, clens, p, n, sofar); r.Lens? ==> r.end <= p + 14 * (n - |sofar|)
    decreases n - |sofar|
  {
    hide RunAt;
    if |sofar| < n {
      RunEndsSoon(data, clens, p, n - |sofar|, sofar);
      var r := RunAt(data, clens, p, n - |sofar|, sofar);
      if r.Run? {
        LengthsEndSoon(data, clens, r.end, n, sofar + Fill(r.count, r.length));
      }
    }
  }

  lemma HeaderEndsSoon(data: seq<Byte>, p: nat)
    ensures var h := DynamicHeader(data, p);
            h.Header? ==> h.end <= p + 4551 && CodeLengths(h.llens) && CodeLengths(h.dlens)
  {
    hide ReadLengths, CodeLengthLengths, Kraft, Window, CodeLengths;
    var hdist := Window(data, p + 5, 5) + 1;
    var hclen := Window(data, p + 10, 4) + 4;
    HclenRange(data, p);
    HclenRange(data, p + 5);
    HclenRange(data, p + 10);
    DynamicLengthsRange(data, p);
    LengthsEndSoon(data, CodeLengthLengths(data, p + 14, hclen), p + 14 + 3 * hclen, LiteralCount(data, p) + hdist, []);
  }

  lemma BodyEndsSoon(data: seq<Byte>, kind: nat, p: nat, out: seq<Byte>, cap: nat)
    requires p <= 8 * |data| + 2
    ensures var r := BlockBody(data, kind, p, out, cap); r.Done? ==> r.end <= 8 * |data| + 4568
  {
    hide Tokens, DynamicHeader, CodeLengths, Bytes16, Symbol, FixedLiteralLengths, FixedDistanceLengths;
    var r := BlockBody(data, kind, p, out, cap);
    if r.Done? && kind == 1 {
      FixedLiteralKraft();
      FixedDistanceKraft();
      TokensEndSoon(data, FixedLiteralLengths(), FixedDistanceLengths(), p, out, cap);
    } else if r.Done? && kind == 2 {
      var h := DynamicHeader(data, p);
      HeaderEndsSoon(data, p);
      TokensEndSoon(data, h.llens, h.dlens, h.end, out, cap);
    }
  }

  /** However many zeros a decoder might read behind the input, no stream ends more than 4568 bits behind it: there every
      symbol is the same, so the first one must end the block. */
  lemma {:induction false} BlocksEndSoon(data: seq<Byte>, p: nat, out: seq<Byte>, cap: nat)
    ensures var r := Blocks(data, p, out, cap); r.Done? ==> r.end <= 8 * |data| + 4568
    decreases 8 * |data| - p
  {
    hide BlockBody, Window;
    if p < 8 * |data| {
      BodyEndsSoon(data, Window(data, p + 1, 2), p + 3, out, cap);
      var r := BlockBody(data, Window(data, p + 1, 2), p + 3, out, cap);
      if r.Done? && Window(data, p, 1) != 1 && r.end > p {
        BlocksEndSoon(data, r.end, r.out, cap);
      }
    }
  }
}
