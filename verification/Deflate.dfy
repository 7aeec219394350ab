/** RFC 1951 as a function from bit strings to output: what an inflater has to compute. */
module Deflate {
  import opened Basics
  import opened Bits
  import opened BitStream
  import opened Canonical
  import opened HuffmanTable
  import opened ZBits

  /** Match length codes 257.. (section 3.2.5 of RFC 1951): groups of four with one more extra bit each. */
  function LengthExtra(i: nat): (b: nat)
    requires i < 29
    ensures b <= 5
  {
    if i < 8 || i == 28 then 0 else i / 4 - 1
  }

  function LengthBase(i: nat): (b: nat)
    requires i < 29
    ensures b >= 3
  {
    if i < 8 then 3 + i
    else if i < 12 then 11 + 2 * (i - 8)
    else if i < 16 then 19 + 4 * (i - 12)
    else if i < 20 then 35 + 8 * (i - 16)
    else if i < 24 then 67 + 16 * (i - 20)
    else if i < 28 then 131 + 32 * (i - 24)
    else 258
  }

  /** Distance codes: groups of two. */
  function DistExtra(i: nat): (b: nat)
    requires i < 30
    ensures b <= 13
  {
    if i < 4 then 0 else i / 2 - 1
  }

  function DistBase(i: nat): (b: nat)
    requires i < 30
    ensures b >= 1
  {
    if i < 4 then 1 + i
    else if i < 6 then 5 + 2 * (i - 4)
    else if i < 8 then 9 + 4 * (i - 6)
    else if i < 10 then 17 + 8 * (i - 8)
    else if i < 12 then 33 + 16 * (i - 10)
    else if i < 14 then 65 + 32 * (i - 12)
    else if i < 16 then 129 + 64 * (i - 14)
    else if i < 18 then 257 + 128 * (i - 16)
    else if i < 20 then 513 + 256 * (i - 18)
    else if i < 22 then 1025 + 512 * (i - 20)
    else if i < 24 then 2049 + 1024 * (i - 22)
    else if i < 26 then 4097 + 2048 * (i - 24)
    else if i < 28 then 8193 + 4096 * (i - 26)
    else 16385 + 8192 * (i - 28)
  }

  /** Output and end position, or failure. */
  datatype Outcome = Fail | Done(out: seq<Byte>, end: nat)

  /** LZ77 copying: append the byte `dist` back, `len` times over. */
  function Copy(out: seq<Byte>, len: nat, dist: nat): (r: seq<Byte>)
    requires 1 <= dist <= |out|
    ensures |r| == |out| + len
    decreases len
  {
    if len == 0 then out else Copy(out + [out[|out| - dist]], len - 1, dist)
  }

  lemma {:induction false} CopyKeepsPrefix(out: seq<Byte>, len: nat, dist: nat)
    requires 1 <= dist <= |out|
    ensures Copy(out, len, dist)[..|out|] == out
    decreases len
  {
    if len > 0 {
      CopyKeepsPrefix(out + [out[|out| - dist]], len - 1, dist);
      assert Copy(out, len, dist)[..|out|] == Copy(out, len, dist)[..|out| + 1][..|out|];
    }
  }

  /** The LZ77 definition: every copied byte equals the byte `dist` before it, also when the two overlap. */
  lemma {:induction false} CopyIsLz77(out: seq<Byte>, len: nat, dist: nat, i: nat)
    requires 1 <= dist <= |out| && i < len
    ensures Copy(out, len, dist)[|out| + i] == Copy(out, len, dist)[|out| + i - dist]
    decreases len
  {
    var next := out + [out[|out| - dist]];
    CopyKeepsPrefix(next, len - 1, dist);
    var r := Copy(out, len, dist);
    if i > 0 {
      CopyIsLz77(next, len - 1, dist, i - 1);
    } else {
      assert r[|out|] == r[..|out| + 1][|out|];
      assert r[|out| - dist] == r[..|out| + 1][|out| - dist];
    }
  }

  // ---------- compressed blocks ----------

  /** A distance or a whole match with the position after it, or failure. */
  datatype DistanceResult = NoDistance | Distance(dist: nat, end: nat)
  datatype MatchResult = NoMatch | Match(len: nat, dist: nat, end: nat)

  ghost function DistanceAt(data: seq<Byte>, dlens: seq<nat>, p: nat): (r: DistanceResult)
    ensures r.Distance? ==> r.end >= p && r.dist >= 1
  {
    var d := Symbol(dlens, data, p);
    if d < 0 then NoDistance else DistanceOf(data, d, p + dlens[d])
  }

  /** The distance of symbol d, read just before q. */
  ghost function DistanceOf(data: seq<Byte>, d: nat, q: nat): (r: DistanceResult)
    ensures r.Distance? ==> r.end >= q && r.dist >= 1
  {
    if d >= 30 then NoDistance else Distance(DistBase(d) + Window(data, q, DistExtra(d)), q + DistExtra(d))
  }

  /** A length symbol z was read just before p: its extra bits, then the distance. */
  ghost function MatchAt(data: seq<Byte>, dlens: seq<nat>, z: nat, p: nat): (r: MatchResult)
    requires 257 <= z < 286
    ensures r.Match? ==> r.end >= p && r.len >= 3 && r.dist >= 1
  {
    var le := LengthExtra(z - 257);
    var d := DistanceAt(data, dlens, p + le);
    if d.NoDistance? then NoMatch else Match(LengthBase(z - 257) + Window(data, p, le), d.dist, d.end)
  }

  /** The effect of one token: it ends the block, or yields more output. */
  datatype TokenResult = BadToken | EndOfBlock(end: nat) | Next(out: seq<Byte>, end: nat)

  /** The token of length symbol z, read just before q. */
  ghost function MatchToken(data: seq<Byte>, dlens: seq<nat>, z: nat, q: nat, out: seq<Byte>, cap: nat): (r: TokenResult)
    requires 257 <= z < 286
    ensures !r.BadToken? ==> r.end >= q
    ensures r.Next? ==> |out| < |r.out| <= cap
    ensures !r.EndOfBlock?
  {
    var m := MatchAt(data, dlens, z, q);
    if m.NoMatch? || m.dist > |out| || |out| + m.len > cap then BadToken
    else Next(Copy(out, m.len, m.dist), m.end)
  }

  /** The token of literal/length symbol z, read just before q. */
  ghost function TokenOf(data: seq<Byte>, dlens: seq<nat>, z: nat, q: nat, out: seq<Byte>, cap: nat): (r: TokenResult)
    ensures !r.BadToken? ==> r.end >= q
    ensures r.Next? ==> |out| < |r.out| <= cap
  {
    if z < 256 then
      if |out| + 1 > cap then BadToken else Next(out + [z], q)
    else if z == 256 then EndOfBlock(q)
    else if z >= 286 then BadToken
    else MatchToken(data, dlens, z, q, out, cap)
  }

  ghost function Token(data: seq<Byte>, llens: seq<nat>, dlens: seq<nat>, p: nat, out: seq<Byte>, cap: nat): (r: TokenResult)
    ensures !r.BadToken? ==> r.end >= p
    ensures r.Next? ==> |out| < |r.out| <= cap
  {
    var z := Symbol(llens, data, p);
    if z < 0 then BadToken else TokenOf(data, dlens, z, p + llens[z], out, cap)
  }

  /** The tokens from p up to the end-of-block symbol, applied to `out`; at most cap bytes may be written. */
  ghost function Tokens(data: seq<Byte>, llens: seq<nat>, dlens: seq<nat>, p: nat, out: seq<Byte>, cap: nat): (r: Outcome)
    decreases cap - |out|
  {
    match Token(data, llens, dlens, p, out, cap)
    case BadToken => Fail
    case EndOfBlock(q) => Done(out, q)
    case Next(out', q) => Tokens(data, llens, dlens, q, out', cap)
  }

  // ---------- dynamic code lengths ----------

  datatype LengthsResult = BadLengths | Lens(lens: seq<nat>, end: nat)

  /** Repeat count of a run-length symbol and the width of its extra bits. */
  function RunBits(c: nat): nat
    requires 16 <= c <= 18
  {
    if c == 16 then 2 else if c == 17 then 3 else 7
  }

  function RunBase(c: nat): nat
    requires 16 <= c <= 18
  {
    if c == 18 then 11 else 3
  }

  function Fill(n: nat, v: nat): (s: seq<nat>)
    ensures |s| == n
  {
    seq(n, _ => v)
  }

  /** One symbol of the run-length code: so many copies of a length, or failure. */
  datatype RunResult = BadRun | Run(count: nat, length: nat, end: nat)

  /** The run of symbol c, read just before q, with `room` lengths still to come. */
  ghost function RunOf(data: seq<Byte>, c: nat, q: nat, room: nat, sofar: seq<nat>): (r: RunResult)
    ensures r.Run? ==> r.end >= q
  {
    if c >= 19 then BadRun
    else if c < 16 then Run(1, c, q)
    else
      var count := RunBase(c) + Window(data, q, RunBits(c));
      if (c == 16 && |sofar| == 0) || room < count then BadRun
      else Run(count, if c == 16 then sofar[|sofar| - 1] else 0, q + RunBits(c))
  }

  ghost function RunAt(data: seq<Byte>, clens: seq<nat>, p: nat, room: nat, sofar: seq<nat>): (r: RunResult)
    requires room > 0
    ensures r.Run? ==> r.end >= p && 0 < r.count <= room
  {
    var c := Symbol(clens, data, p);
    if c < 0 then BadRun else RunOf(data, c, p + clens[c], room, sofar)
  }

  /** Run-length coded lengths from p until there are n of them. */
  ghost function ReadLengths(data: seq<Byte>, clens: seq<nat>, p: nat, n: nat, sofar: seq<nat>): (r: LengthsResult)
    requires |sofar| <= n
    ensures r.Lens? ==> |r.lens| == n && r.end >= p
    decreases n - |sofar|
  {
    if |sofar| == n then Lens(sofar, p)
    else
      match RunAt(data, clens, p, n - |sofar|, sofar)
      case BadRun => BadLengths
      case Run(count, v, q) => ReadLengths(data, clens, q, n, sofar + Fill(count, v))
  }

  /** The order in which the lengths of the code-length code are sent. */
  function LengthOrder(i: nat): (k: nat)
    requires i < 19
    ensures k < 19
  {
    if i < 3 then 16 + i else if i == 3 then 0 else if i % 2 == 0 then 6 + i / 2 else 9 - i / 2
  }

  /** The first n three-bit lengths of the code-length code, in their transmission order. */
  ghost function CodeLengthLengths(data: seq<Byte>, p: nat, n: nat): (r: seq<nat>)
    requires n <= 19
    ensures |r| == 19 && forall i :: 0 <= i < 19 ==> r[i] <= 7
  {
    if n == 0 then Fill(19, 0)
    else CodeLengthLengths(data, p, n - 1)[LengthOrder(n - 1) := Window(data, p + 3 * (n - 1), 3)]
  }

  datatype HeaderResult = BadHeader | Header(llens: seq<nat>, dlens: seq<nat>, end: nat)

  /** Number of literal/length codes announced at p. */
  ghost function LiteralCount(data: seq<Byte>, p: nat): nat
  {
    Window(data, p, 5) + 257
  }

  /** All code lengths of a dynamic block, literal/length codes first. */
  ghost function DynamicLengths(data: seq<Byte>, p: nat): (r: LengthsResult)
    ensures r.Lens? ==> |r.lens| > LiteralCount(data, p)
  {
    var hdist := Window(data, p + 5, 5) + 1;
    var hclen := Window(data, p + 10, 4) + 4;
    HclenRange(data, p + 10);
    var clens := CodeLengthLengths(data, p + 14, hclen);
    if !Kraft(clens) then BadLengths
    else ReadLengths(data, clens, p + 14 + 3 * hclen, LiteralCount(data, p) + hdist, [])
  }

  lemma HclenRange(data: seq<Byte>, p: nat)
    ensures Window(data, p, 4) < 16 && Window(data, p, 5) < 32
  {
    Pow2Values();
  }

  ghost function DynamicHeader(data: seq<Byte>, p: nat): HeaderResult
  {
    var hlit := LiteralCount(data, p);
    var r := DynamicLengths(data, p);
    if r.BadLengths? || !Kraft(r.lens[..hlit]) || !Kraft(r.lens[hlit..]) then BadHeader
    else Header(r.lens[..hlit], r.lens[hlit..], r.end)
  }

  lemma {:induction false} ReadLengthsRange(data: seq<Byte>, clens: seq<nat>, p: nat, n: nat, sofar: seq<nat>)
    requires |sofar| <= n && forall i :: 0 <= i < |sofar| ==> sofar[i] <= 15
    ensures var r := ReadLengths(data, clens, p, n, sofar);
            r.Lens? ==> forall i :: 0 <= i < n ==> r.lens[i] <= 15
    decreases n - |sofar|
  {
    if |sofar| < n {
      var r := RunAt(data, clens, p, n - |sofar|, sofar);
      if r.Run? {
        ReadLengthsRange(data, clens, r.end, n, sofar + Fill(r.count, r.length));
      }
    }
  }

  lemma DynamicLengthsRange(data: seq<Byte>, p: nat)
    ensures var r := DynamicLengths(data, p); var hlit := LiteralCount(data, p);
            r.Lens? ==> CodeLengths(r.lens[..hlit]) && CodeLengths(r.lens[hlit..])
  {
    hide Kraft, CodeLengthLengths, ReadLengths, Window;
    var hdist := Window(data, p + 5, 5) + 1;
    var hclen := Window(data, p + 10, 4) + 4;
    HclenRange(data, p + 10);
    HclenRange(data, p);
    HclenRange(data, p + 5);
    var clens := CodeLengthLengths(data, p + 14, hclen);
    ReadLengthsRange(data, clens, p + 14 + 3 * hclen, LiteralCount(data, p) + hdist, []);
  }

  // ---------- blocks ----------

  function Bytes16(data: seq<Byte>, i: nat): nat
  {
    ByteAt(data, i + 1) * 256 + ByteAt(data, i)
  }

  /** The first byte boundary at or after bit p. */
  function Aligned(p: nat): nat
  {
    (p + 7) / 8
  }

  /** A stored block: length, complemented length, then the bytes themselves. */
  function Stored(data: seq<Byte>, p: nat, out: seq<Byte>, cap: nat): Outcome
  {
    var a := Aligned(p);
    var len := Bytes16(data, a);
    if Bytes16(data, a + 2) != 0xFFFF - len || a + 4 + len > |data| || |out| + len > cap then Fail
    else Done(out + data[a + 4..a + 4 + len], 8 * (a + 4 + len))
  }

  function FixedLength(i: nat): nat
  {
    if i < 144 then 8 else if i < 256 then 9 else if i < 280 then 7 else 8
  }

  function FixedLiteralLengths(): seq<nat>
  {
    seq(NUM_SYMBOLS, i requires 0 <= i => FixedLength(i))
  }

  function FixedDistanceLengths(): seq<nat>
  {
    seq(32, _ => 5)
  }

  ghost function BlockBody(data: seq<Byte>, kind: nat, p: nat, out: seq<Byte>, cap: nat): Outcome
  {
    if kind == 0 then Stored(data, p, out, cap)
    else if kind == 1 then Tokens(data, FixedLiteralLengths(), FixedDistanceLengths(), p, out, cap)
    else if kind == 2 then
      var h := DynamicHeader(data, p);
      if h.BadHeader? then Fail else Tokens(data, h.llens, h.dlens, h.end, out, cap)
    else Fail
  }

  /** All blocks from p up to and including the one marked final. */
  ghost function Blocks(data: seq<Byte>, p: nat, out: seq<Byte>, cap: nat): Outcome
    decreases 8 * |data| - p
  {
    if p >= 8 * |data| then Fail
    else
      var r := BlockBody(data, Window(data, p + 1, 2), p + 3, out, cap);
      if r.Fail? || Window(data, p, 1) == 1 then r
      else if r.end <= p then Fail
      else Blocks(data, r.end, r.out, cap)
  }

  lemma {:induction false} TokensEnd(data: seq<Byte>, llens: seq<nat>, dlens: seq<nat>, p: nat, out: seq<Byte>, cap: nat)
    ensures var t := Token(data, llens, dlens, p, out, cap);
            var r := Tokens(data, llens, dlens, p, out, cap);
            r.Done? ==> !t.BadToken? && r.end >= t.end >= p && |out| <= |r.out|
    decreases cap - |out|
  {
    var t := Token(data, llens, dlens, p, out, cap);
    if t.Next? {
      TokensEnd(data, llens, dlens, t.end, t.out, cap);
    }
  }

  lemma BlockEnd(data: seq<Byte>, kind: nat, p: nat, out: seq<Byte>, cap: nat)
    ensures var r := BlockBody(data, kind, p, out, cap); r.Done? ==> r.end >= p
  {
    if kind == 1 {
      TokensEnd(data, FixedLiteralLengths(), FixedDistanceLengths(), p, out, cap);
    } else if kind == 2 {
      var h := DynamicHeader(data, p);
      if h.Header? {
        TokensEnd(data, h.llens, h.dlens, h.end, out, cap);
      }
    }
  }

  lemma DynamicBlockEnd(data: seq<Byte>, p: nat, out: seq<Byte>, cap: nat)
    ensures var h := DynamicHeader(data, p); var r := BlockBody(data, 2, p, out, cap);
            r.Done? ==> h.Header? && r.end >= h.end
  {
    var h := DynamicHeader(data, p);
    if h.Header? {
      TokensEnd(data, h.llens, h.dlens, h.end, out, cap);
    }
  }

  lemma {:induction false} BlocksEnd(data: seq<Byte>, p: nat, out: seq<Byte>, cap: nat)
    ensures var r := Blocks(data, p, out, cap); r.Done? ==> r.end > p
    decreases 8 * |data| - p
  {
    if p < 8 * |data| {
      BlockEnd(data, Window(data, p + 1, 2), p + 3, out, cap);
      var r := BlockBody(data, Window(data, p + 1, 2), p + 3, out, cap);
      if r.Done? && Window(data, p, 1) != 1 {
        BlocksEnd(data, r.end, r.out, cap);
      }
    }
  }

  /** Past the end of input every block reads as a stored block with a bad length. */
  lemma NoBlockPastEnd(data: seq<Byte>, p: nat, out: seq<Byte>, cap: nat)
    requires p >= 8 * |data|
    ensures BlockBody(data, Window(data, p + 1, 2), p + 3, out, cap).Fail?
  {
    WindowPastEnd(data, p + 1, 2);
  }

  /** A header that runs past the end never announces a length that fits. */
  lemma StoredPastEnd(data: seq<Byte>, a: nat)
    requires a + 4 > |data| && Bytes16(data, a + 2) == 0xFFFF - Bytes16(data, a)
    ensures Bytes16(data, a) > 0
  {
  }

  /** The two-byte zlib header (section 2.2 of RFC 1950) with at least one byte after it. */
  predicate ZlibHeader(data: seq<Byte>)
  {
    |data| >= 3 && Low(data[0], 4) == 8 && !Bit(data[1], 5) && HeaderCheck(data[0], data[1])
  }

  predicate HeaderCheck(cmf: nat, flg: nat)
  {
    (cmf * 256 + flg) % 31 == 0
  }

  // ---------- the fixed codes satisfy Kraft's inequality ----------

  lemma OneMoreTime(a: nat, b: nat)
    requires a > 0
    ensures a * b == (a - 1) * b + b
  {
  }

  lemma {:induction false} KraftRun(lens: seq<nat>, m: nat, n: nat, v: nat)
    requires m <= n <= |lens| && 1 <= v <= 16 && forall i :: m <= i < n ==> lens[i] == v
    ensures KraftSum(lens, 16, n) == KraftSum(lens, 16, m) + (n - m) * Pow2(16 - v)
    decreases n
  {
    if m < n {
      KraftRun(lens, m, n - 1, v);
      OneMoreTime(n - m, Pow2(16 - v));
    }
  }

  lemma FixedShapeKraft(l: seq<nat>)
    requires |l| == 288 && forall i :: 0 <= i < 288 ==> l[i] == FixedLength(i)
    ensures Kraft(l)
  {
    hide KraftSum, FixedLength;
    FixedRuns(l);
    KraftRun(l, 0, 144, 8);
    KraftRun(l, 144, 256, 9);
    KraftRun(l, 256, 280, 7);
    KraftRun(l, 280, 288, 8);
    NothingSummed(l);
    Pow2Values();
  }

  lemma FixedRuns(l: seq<nat>)
    requires |l| == 288 && forall i :: 0 <= i < 288 ==> l[i] == FixedLength(i)
    ensures (forall i :: 0 <= i < 144 ==> l[i] == 8) && (forall i :: 144 <= i < 256 ==> l[i] == 9)
    ensures (forall i :: 256 <= i < 280 ==> l[i] == 7) && (forall i :: 280 <= i < 288 ==> l[i] == 8)
  {
  }

  lemma NothingSummed(l: seq<nat>)
    ensures KraftSum(l, 16, 0) == 0
  {
  }

  lemma FixedLiteralKraft()
    ensures CodeLengths(FixedLiteralLengths()) && Kraft(FixedLiteralLengths())
  {
    FixedShapeKraft(FixedLiteralLengths());
  }

  lemma FixedDistanceKraft()
    ensures CodeLengths(FixedDistanceLengths()) && Kraft(FixedDistanceLengths())
  {
    KraftRun(FixedDistanceLengths(), 0, 32, 5);
    Pow2Values();
  }
}
