/** The zlib inflater: bit reservoir, Huffman decoding, match copying and a growing output buffer. */
module Inflate {
  import opened Basics
  import opened Bits
  import opened BitStream
  import opened Canonical
  import opened HuffmanTable
  import opened ZBits
  import opened Deflate
  import opened DeflateFeed

  const UINT_MAX: nat := 0xFFFF_FFFF

  const LENGTH_BASE: seq<nat> := [
    3, 4, 5, 6, 7, 8, 9, 10, 11, 13, 15, 17, 19, 23, 27, 31, 35, 43, 51, 59,
    67, 83, 99, 115, 131, 163, 195, 227, 258, 0, 0]
  const LENGTH_EXTRA: seq<nat> := [
    0, 0, 0, 0, 0, 0, 0, 0, 1, 1, 1, 1, 2, 2, 2, 2, 3, 3, 3, 3, 4, 4, 4, 4, 5, 5, 5, 5, 0, 0, 0]
  const DIST_BASE: seq<nat> := [
    1, 2, 3, 4, 5, 7, 9, 13, 17, 25, 33, 49, 65, 97, 129, 193,
    257, 385, 513, 769, 1025, 1537, 2049, 3073, 4097, 6145, 8193, 12289, 16385, 24577, 0, 0]
  const DIST_EXTRA: seq<nat> := [
    0, 0, 0, 0, 1, 1, 2, 2, 3, 3, 4, 4, 5, 5, 6, 6, 7, 7, 8, 8, 9, 9, 10, 10, 11, 11, 12, 12, 13, 13]

  const LENGTH_ORDER: seq<nat> := [16, 17, 18, 0, 8, 7, 9, 6, 10, 5, 11, 4, 12, 3, 13, 2, 14, 1, 15]

  lemma LengthTables(i: nat)
    requires i < 29
    ensures LENGTH_BASE[i] == LengthBase(i) && LENGTH_EXTRA[i] == LengthExtra(i)
  {
  }

  lemma DistanceTables(i: nat)
    requires i < 30
    ensures DIST_BASE[i] == DistBase(i) && DIST_EXTRA[i] == DistExtra(i)
  {
  }

  lemma OrderTable(i: nat)
    requires i < 19
    ensures LENGTH_ORDER[i] == LengthOrder(i)
  {
  }

  method OrderEntry(i: nat) returns (k: nat)
    requires i < 19
    ensures k == LengthOrder(i)
  {
    OrderTable(i);
    k := LENGTH_ORDER[i];
  }

  method LengthEntry(i: nat) returns (base: nat, extra: nat)
    requires i < 29
    ensures base == LengthBase(i) && extra == LengthExtra(i)
  {
    LengthTables(i);
    base, extra := LENGTH_BASE[i], LENGTH_EXTRA[i];
  }

  method DistanceEntry(i: nat) returns (base: nat, extra: nat)
    requires i < 30
    ensures base == DistBase(i) && extra == DistExtra(i)
  {
    DistanceTables(i);
    base, extra := DIST_BASE[i], DIST_EXTRA[i];
  }

  /** Capacity reached by doubling until the next doubling would overflow 32 bits. */
  function GrowthLimit(capacity: nat): (r: nat)
    requires capacity >= 1
    ensures r >= capacity
    decreases UINT_MAX - capacity
  {
    if capacity > UINT_MAX / 2 then capacity else GrowthLimit(2 * capacity)
  }

  class ZBuf {
    const input: seq<Byte>
    var zbuffer: nat
    var num_bits: nat
    var code_buffer: nat
    var zout_start: array<Byte>
    var zout: nat
    const z_expandable: bool
    const z_length: ZHuffman
    const z_distance: ZHuffman

    /** Bits consumed, and bytes taken into the reservoir counting the zeros read past the end. */
    ghost var pos: nat
    ghost var loaded: nat

    /** The reservoir holds the next num_bits bits of input. */
    ghost predicate Reservoir()
      reads this
    {
      zbuffer == (if loaded < |input| then loaded else |input|) && num_bits <= 32 &&
      pos + num_bits == 8 * loaded && code_buffer == Window(input, pos, num_bits)
    }

    /** The tables and the output buffer are separate objects. */
    ghost predicate Separate()
      reads `zout_start
    {
      z_length.Shape() && z_distance.Shape() && z_length.Arrays() !! z_distance.Arrays() &&
      zout_start !in z_length.Arrays() && zout_start !in z_distance.Arrays()
    }

    ghost predicate Valid()
      reads this
    {
      Reservoir() && Separate() && zout <= zout_start.Length <= UINT_MAX && (z_expandable ==> zout_start.Length >= 1)
    }

    ghost function Contents(): seq<Byte>
      requires zout <= zout_start.Length
      reads this, zout_start
    {
      zout_start[..zout]
    }

    /** The most output that can ever be held. */
    ghost function Cap(): nat
      requires z_expandable ==> zout_start.Length >= 1
      reads `zout_start
    {
      if z_expandable then GrowthLimit(zout_start.Length) else zout_start.Length
    }

    constructor (data: seq<Byte>, olen: nat, expandable: bool)
      requires olen <= 0x7FFF_FFFF && (expandable ==> olen >= 1)
      ensures Valid() && input == data && z_expandable == expandable
      ensures zbuffer == 0 && zout == 0 && zout_start.Length == olen
      ensures fresh(zout_start) && fresh(z_length.Arrays()) && fresh(z_distance.Arrays())
    {
      input := data;
      zbuffer, num_bits, code_buffer, pos, loaded := 0, 0, 0, 0, 0;
      z_expandable := expandable;
      zout_start := new Byte[olen];
      zout := 0;
      z_length := new ZHuffman();
      z_distance := new ZHuffman();
    }

    predicate Eof()
      reads this
    {
      zbuffer >= |input|
    }

    method Get8() returns (b: Byte)
      requires zbuffer <= |input|
      modifies `zbuffer
      ensures b == if old(zbuffer) < |input| then input[old(zbuffer)] else 0
      ensures zbuffer == if old(zbuffer) < |input| then old(zbuffer) + 1 else old(zbuffer)
    {
      if Eof() {
        return 0;
      }
      b := input[zbuffer];
      zbuffer := zbuffer + 1;
    }

    /** Refill; the guard on stray high bits never fires. */
    method FillBits()
      requires Reservoir() && num_bits <= 24
      modifies `zbuffer, `loaded, `code_buffer, `num_bits
      ensures Reservoir() && num_bits > 24 && loaded == Refilled(pos, old(loaded))
    {
      hide Window, BitOr, Shl;
      while true
        invariant Reservoir() && num_bits <= 24 && Refilled(pos, loaded) == Refilled(pos, old(loaded))
        decreases 24 - num_bits
      {
        RefillStep(pos, loaded);
        ShlIsMul(1, num_bits);
        if code_buffer >= Shl(1, num_bits) {
          assert false;
        }
        var b := Get8();
        FillStep(input, pos, num_bits, loaded, b);
        code_buffer := BitOr(code_buffer, Shl(b, num_bits));
        num_bits := num_bits + 8;
        loaded := loaded + 1;
        if num_bits > 24 {
          break;
        }
      }
    }

    /** Drop n bits. */
    method Consume(n: nat)
      requires Reservoir() && n <= num_bits
      modifies `code_buffer, `num_bits, `pos
      ensures Reservoir() && pos == old(pos) + n && num_bits == old(num_bits) - n
    {
      LowOfWindow(input, pos, num_bits, n);
      code_buffer := Shr(code_buffer, n);
      num_bits := num_bits - n;
      pos := pos + n;
    }

    /** Read n bits, lowest first. */
    method Receive(n: nat) returns (k: nat)
      requires Reservoir() && n <= 16
      modifies `zbuffer, `loaded, `code_buffer, `num_bits, `pos
      ensures Reservoir() && pos == old(pos) + n && loaded == Received(old(pos), old(loaded), n)
      ensures k == Window(input, old(pos), n)
    {
      if num_bits < n {
        FillBits();
      }
      AndMask(code_buffer, n);
      ShlIsMul(1, n);
      LowOfWindow(input, pos, num_bits, n);
      k := BitAnd(code_buffer, Shl(1, n) - 1);
      Consume(n);
    }

    /** The length whose limits enclose the 16-bit window, 16 if there is none. */
    method SlowLength(z: ZHuffman, ghost lens: seq<nat>, k: nat) returns (s: nat)
      requires z.Holds(lens) && Limit(lens, ZFAST_BITS) <= k < Pow2(16)
      ensures ZFAST_BITS < s <= 16 && k >= Limit(lens, s - 1)
      ensures s < 16 ==> k < Limit(lens, s)
    {
      Pow2Values();
      s := ZFAST_BITS + 1;
      while k >= z.maxcode[s]
        invariant ZFAST_BITS < s <= 16 && k >= Limit(lens, s - 1)
        decreases 16 - s
      {
        s := s + 1;
      }
    }

    /** Sorted position of the code of length s that starts the window, and the symbol there. */
    method SlowSymbol(z: ZHuffman, ghost lens: seq<nat>, k: nat, s: nat) returns (r: int)
      requires z.Holds(lens) && k == Msb(input, pos, 16)
      requires 1 <= s <= 15 && Limit(lens, s - 1) <= k < Limit(lens, s)
      ensures r >= 0 && r == Symbol(lens, input, pos) && lens[r] == s
    {
      SlowPath(lens, z.size[..], z.value[..], input, pos, s);
      var b := Shr(k, 16 - s) - z.firstcode[s] + z.firstsymbol[s];
      if b >= NUM_SYMBOLS {
        assert false;
      }
      if z.size[b] != s {
        assert false;
      }
      r := z.value[b];
    }

    /** Decode a code the lookup table does not resolve. */
    method DecodeSlow(z: ZHuffman, ghost lens: seq<nat>) returns (r: int)
      requires Reservoir() && z.Holds(lens) && num_bits >= 16
      requires Msb(input, pos, 16) >= Limit(lens, ZFAST_BITS)
      modifies `code_buffer, `num_bits, `pos
      ensures Reservoir() && r == Symbol(lens, input, old(pos))
      ensures pos == if r >= 0 then old(pos) + lens[r] else old(pos)
    {
      var k := BitReverse(code_buffer, 16);
      WindowReversed(input, pos, num_bits);
      var s := SlowLength(z, lens, k);
      if s >= 16 {
        NoCode(lens, input, pos);
        return -1;
      }
      r := SlowSymbol(z, lens, k, s);
      Consume(s);
    }

    /** The lookup table's entry for the next nine bits. */
    method FastEntry(z: ZHuffman, ghost lens: seq<nat>) returns (b: nat)
      requires Reservoir() && z.Holds(lens) && num_bits >= 16
      ensures b == FastValue(lens, |lens|, Window(input, pos, ZFAST_BITS))
    {
      LowOfWindow(input, pos, num_bits, ZFAST_BITS);
      AndMask(code_buffer, ZFAST_BITS);
      Pow2Values();
      b := z.fast[BitAnd(code_buffer, ZFAST_SIZE - 1)];
    }

    /** Unpack a filled lookup entry: symbol in the low 9 bits, code length above. */
    method DecodeFast(ghost lens: seq<nat>, b: nat) returns (r: int)
      requires Reservoir() && CodeLengths(lens) && Kraft(lens) && num_bits >= 16
      requires b != 0 && b == FastValue(lens, |lens|, Window(input, pos, ZFAST_BITS))
      modifies `code_buffer, `num_bits, `pos
      ensures Reservoir() && r >= 0
      ensures r == Symbol(lens, input, old(pos)) && pos == old(pos) + lens[r]
    {
      FastPath(lens, input, pos);
      AndMask(b, 9);
      MaskValue();
      r := BitAnd(b, 511);
      Consume(Shr(b, 9));
    }

    /** The symbol at the current position, or -1; also -1 if fewer than 16 bits are in the reservoir and no byte of input
        is left. */
    method Decode(z: ZHuffman, ghost lens: seq<nat>) returns (r: int)
      requires Reservoir() && z.Holds(lens)
      modifies `zbuffer, `loaded, `code_buffer, `num_bits, `pos
      ensures Reservoir()
      ensures var f := BeforeCode(input, old(pos), old(loaded));
              if f.Starved? then r == -1 else r == Symbol(lens, input, old(pos)) && loaded == f.bytes
      ensures pos == if r >= 0 then old(pos) + lens[r] else old(pos)
    {
      if num_bits < 16 {
        if Eof() {
          return -1;
        }
        FillBits();
      }
      var b := FastEntry(z, lens);
      if b != 0 {
        r := DecodeFast(lens, b);
        return;
      }
      FastMiss(lens, input, pos);
      r := DecodeSlow(z, lens);
    }

    // ---------- output ----------

    /** Make room for n more bytes after position `at`, doubling the buffer; the written prefix is kept. */
    method Zexpand(at: nat, n: nat) returns (ok: bool)
      requires Separate() && at <= zout_start.Length <= UINT_MAX && at + n > zout_start.Length
      requires z_expandable ==> zout_start.Length >= 1
      modifies `zout, `zout_start
      ensures zout == at
      ensures ok <==> at + n <= old(Cap())
      ensures !ok ==> zout_start == old(zout_start)
      ensures ok ==> fresh(zout_start) && Separate() && at + n <= zout_start.Length <= UINT_MAX
      ensures ok ==> zout_start[..at] == old(zout_start[..at])
      ensures ok ==> z_expandable && Cap() == old(Cap())
    {
      zout := at;
      if !z_expandable {
        return false;
      }
      var limit := zout_start.Length;
      GrowthBound(limit);
      if UINT_MAX - at < n {
        return false;
      }
      while at + n > limit
        invariant 1 <= limit <= UINT_MAX && limit >= zout_start.Length
        invariant GrowthLimit(limit) == Cap()
        decreases UINT_MAX - limit
      {
        if limit > UINT_MAX / 2 {
          return false;
        }
        limit := limit * 2;
      }
      var q := Realloc(limit);
      assert q[..at] == zout_start[..at];
      zout_start := q;
      ok := true;
    }

    /** A larger buffer with the old contents in front. */
    method Realloc(limit: nat) returns (q: array<Byte>)
      requires limit >= zout_start.Length
      ensures fresh(q) && q.Length == limit
      ensures q[..zout_start.Length] == zout_start[..]
    {
      q := new Byte[limit](_ => 0);
      forall i | 0 <= i < zout_start.Length {
        q[i] := zout_start[i];
      }
    }

    /** Append one byte. */
    method PutLiteral(at: nat, b: Byte) returns (ok: bool, next: nat)
      requires Valid() && at <= zout_start.Length
      modifies `zout, `zout_start, zout_start
      ensures Valid() && (zout_start == old(zout_start) || fresh(zout_start)) && Cap() == old(Cap())
      ensures ok <==> at + 1 <= Cap()
      ensures ok ==> next == at + 1 <= zout_start.Length && zout_start[..next] == old(zout_start[..at]) + [b]
    {
      next := at;
      CapCovers();
      if at >= zout_start.Length {
        ok := Zexpand(at, 1);
        if !ok {
          return;
        }
      }
      zout_start[at] := b;
      ok, next := true, at + 1;
    }

    lemma CapCovers()
      requires z_expandable ==> zout_start.Length >= 1
      ensures zout_start.Length <= Cap()
    {
    }

    /** The byte-by-byte copy of an overlapping match, with the shortcut for runs of one byte. */
    method CopyBytes(at: nat, len: nat, dist: nat)
      requires Separate() && 1 <= dist <= at && at + len <= zout_start.Length
      modifies zout_start
      ensures zout_start[..at + len] == Copy(old(zout_start[..at]), len, dist)
    {
      ghost var goal := Copy(zout_start[..at], len, dist);
      var o, n := at, len;
      if dist == 1 {
        var v := zout_start[at - 1];
        while n > 0
          invariant at <= o <= at + len && o + n == at + len
          invariant zout_start[o - 1] == v && goal == Copy(zout_start[..o], n, dist)
        {
          ghost var before := zout_start[..o];
          zout_start[o] := v;
          assert zout_start[..o + 1] == before + [v];
          o, n := o + 1, n - 1;
        }
      } else {
        var p := at - dist;
        while n > 0
          invariant at <= o <= at + len && o + n == at + len && p == o - dist
          invariant goal == Copy(zout_start[..o], n, dist)
        {
          ghost var before := zout_start[..o];
          zout_start[o] := zout_start[p];
          assert zout_start[..o + 1] == before + [before[p]];
          o, p, n := o + 1, p + 1, n - 1;
        }
      }
    }

    /** Append a match. */
    method PutMatch(at: nat, len: nat, dist: nat) returns (ok: bool, next: nat)
      requires Valid() && 1 <= dist <= at <= zout_start.Length
      modifies `zout, `zout_start, zout_start
      ensures Valid() && (zout_start == old(zout_start) || fresh(zout_start)) && Cap() == old(Cap())
      ensures ok <==> at + len <= Cap()
      ensures ok ==> next == at + len <= zout_start.Length
      ensures ok ==> zout_start[..next] == Copy(old(zout_start[..at]), len, dist)
    {
      next := at;
      CapCovers();
      if at + len > zout_start.Length {
        ok := Zexpand(at, len);
        if !ok {
          return;
        }
      }
      CopyBytes(at, len, dist);
      ok, next := true, at + len;
    }

    // ---------- blocks ----------

    /** Base and extra bits of distance symbol d. */
    method FinishDistance(d: nat) returns (dist: nat)
      requires Reservoir() && d < 30
      modifies `zbuffer, `loaded, `code_buffer, `num_bits, `pos
      ensures Reservoir() && DistanceOf(input, d, old(pos)) == Distance(dist, pos)
      ensures loaded == Received(old(pos), old(loaded), DistExtra(d))
    {
      var base, extra := DistanceEntry(d);
      var more := Receive(extra);
      dist := base + more;
    }

    /** The distance that follows a length whose extra bits end here. */
    method ReadDistance(ghost dlens: seq<nat>) returns (ok: bool, dist: nat)
      requires Reservoir() && z_distance.Holds(dlens)
      modifies `zbuffer, `loaded, `code_buffer, `num_bits, `pos
      ensures Reservoir()
      ensures var d := DistanceAt(input, dlens, old(pos)); var f := DistanceFeed(input, dlens, old(pos), old(loaded));
              if ok then d == Distance(dist, pos) && f == Loaded(loaded) else d.NoDistance? || f.Starved?
    {
      hide ZHuffman.Holds, Reservoir, Received, BeforeCode, Symbol;
      assert this !in z_distance.Arrays();
      var d := Decode(z_distance, dlens);
      if d < 0 || d >= 30 {
        return false, 0;
      }
      dist := FinishDistance(d);
      ok := true;
    }

    /** The rest of a match after length symbol z. */
    method ReadMatch(z: nat, ghost dlens: seq<nat>) returns (ok: bool, len: nat, dist: nat)
      requires Reservoir() && z_distance.Holds(dlens) && 257 <= z < 286
      modifies `zbuffer, `loaded, `code_buffer, `num_bits, `pos
      ensures Reservoir()
      ensures var m := MatchAt(input, dlens, z, old(pos)); var f := MatchFeed(input, dlens, z, old(pos), old(loaded));
              if ok then m == Match(len, dist, pos) && f == Loaded(loaded) else m.NoMatch? || f.Starved?
    {
      hide ZHuffman.Holds, LengthBase, LengthExtra, Window, DistanceAt, Reservoir, Received, DistanceFeed;
      assert this !in z_distance.Arrays();
      var base, extra := LengthEntry(z - 257);
      var more := Receive(extra);
      len := base + more;
      ok, dist := ReadDistance(dlens);
    }

    /** Read the rest of a match after length symbol z and append it. */
    method MatchStep(z: nat, at: nat, ghost dlens: seq<nat>) returns (ok: bool, next: nat)
      requires Valid() && at <= zout_start.Length && z_distance.Holds(dlens) && 257 <= z < 286
      modifies `zbuffer, `loaded, `code_buffer, `num_bits, `pos, `zout, `zout_start, zout_start
      ensures Valid() && (zout_start == old(zout_start) || fresh(zout_start)) && Cap() == old(Cap())
      ensures var m := MatchAt(input, dlens, z, old(pos)); var f := MatchFeed(input, dlens, z, old(pos), old(loaded));
              if ok then m.Match? && m.end == pos && m.dist <= at && next == at + m.len <= zout_start.Length &&
                         zout_start[..next] == Copy(old(zout_start[..at]), m.len, m.dist) && f == Loaded(loaded)
              else m.NoMatch? || m.dist > at || at + m.len > Cap() || f.Starved?
    {
      hide MatchFeed, MatchAt;
      next := at;
      var len, dist;
      ok, len, dist := ReadMatch(z, dlens);
      if ok {
        if at < dist {
          return false, at;
        }
        ok, next := PutMatch(at, len, dist);
      }
    }

    /** Apply the token that starts with symbol z. */
    method ApplySymbol(z: nat, at: nat, ghost dlens: seq<nat>) returns (ok: bool, more: bool, next: nat)
      requires Valid() && z_distance.Holds(dlens) && at <= zout_start.Length
      modifies `zbuffer, `loaded, `code_buffer, `num_bits, `pos, `zout, `zout_start, zout_start
      ensures Valid() && (zout_start == old(zout_start) || fresh(zout_start)) && Cap() == old(Cap())
      ensures ok ==> next <= zout_start.Length
      ensures ok && !more ==> next == at && zout_start[..at] == old(zout_start[..at])
      ensures var t := old(TokenOf(input, dlens, z, pos, zout_start[..at], Cap()));
              var f := SymbolFeed(input, dlens, z, old(pos), old(loaded));
              if !ok then t.BadToken? || f.Starved?
              else f == Loaded(loaded) && if more then t == Next(zout_start[..next], pos) else t == EndOfBlock(pos)
    {
      hide MatchFeed, MatchAt;
      ok, more, next := false, true, at;
      if z < 256 {
        ok, next := PutLiteral(at, z);
      } else if z == 256 {
        ok, more := true, false;
      } else if z < 286 {
        ok, next := MatchStep(z, at, dlens);
      }
    }

    /** Read one token and apply it. */
    method TokenStep(at: nat, ghost llens: seq<nat>, ghost dlens: seq<nat>) returns (ok: bool, more: bool, next: nat)
      requires Valid() && z_length.Holds(llens) && z_distance.Holds(dlens) && at <= zout_start.Length
      modifies `zbuffer, `loaded, `code_buffer, `num_bits, `pos, `zout, `zout_start, zout_start
      ensures Valid() && (zout_start == old(zout_start) || fresh(zout_start)) && Cap() == old(Cap())
      ensures ok ==> next <= zout_start.Length
      ensures ok && !more ==> next == at && zout_start[..at] == old(zout_start[..at])
      ensures var t := old(Token(input, llens, dlens, pos, zout_start[..at], Cap()));
              var f := TokenFeed(input, llens, dlens, old(pos), old(loaded));
              if !ok then t.BadToken? || f.Starved?
              else f == Loaded(loaded) && if more then t == Next(zout_start[..next], pos) else t == EndOfBlock(pos)
    {
      hide SymbolFeed, BeforeCode, TokenFeed, Token, TokenOf, Symbol, Reservoir, ZHuffman.Holds;
      ok, more, next := false, true, at;
      ghost var out, cap := zout_start[..at], Cap();
      TokenFeedSplit(input, llens, dlens, pos, loaded, out, cap);
      var z := Decode(z_length, llens);
      if z >= 0 {
        assert zout_start[..at] == out && Cap() == cap;
        ok, more, next := ApplySymbol(z, at, dlens);
      }
    }

    /** One compressed block: succeeds exactly if section 3.2.3 of RFC 1951 gives it a meaning and the reservoir is never
        starved before a code. */
    method ParseHuffmanBlock(ghost llens: seq<nat>, ghost dlens: seq<nat>) returns (ok: bool)
      requires Valid() && z_length.Holds(llens) && z_distance.Holds(dlens)
      modifies `zbuffer, `loaded, `code_buffer, `num_bits, `pos, `zout, `zout_start, zout_start
      ensures Valid() && (zout_start == old(zout_start) || fresh(zout_start)) && Cap() == old(Cap())
      ensures var r := old(Tokens(input, llens, dlens, pos, Contents(), Cap()));
              var f := old(TokensFeed(input, llens, dlens, pos, loaded, Contents(), Cap()));
              if ok then r == Done(Contents(), pos) && f == Loaded(loaded) else r.Fail? || f.Starved?
    {
      hide ZHuffman.Holds, Token, TokenFeed;
      ghost var goal := Tokens(input, llens, dlens, pos, Contents(), Cap());
      ghost var feed := TokensFeed(input, llens, dlens, pos, loaded, Contents(), Cap());
      var at := zout;
      while true
        invariant Valid() && at <= zout_start.Length && Cap() == old(Cap())
        invariant zout_start == old(zout_start) || fresh(zout_start)
        invariant z_length.Holds(llens) && z_distance.Holds(dlens)
        invariant goal == Tokens(input, llens, dlens, pos, zout_start[..at], Cap())
        invariant feed == TokensFeed(input, llens, dlens, pos, loaded, zout_start[..at], Cap())
        decreases Cap() - at
      {
        var more, next;
        ok, more, next := TokenStep(at, llens, dlens);
        if !ok {
          return;
        }
        if !more {
          zout := at;
          return;
        }
        at := next;
      }
    }

    // ---------- dynamic code lengths ----------

    /** The lengths of the code-length code. */
    method ReadCodeLengthLengths(hclen: nat) returns (sizes: seq<nat>)
      requires Reservoir() && hclen <= 19
      modifies `zbuffer, `loaded, `code_buffer, `num_bits, `pos
      ensures Reservoir() && pos == old(pos) + 3 * hclen && loaded == ThreesFeed(old(pos), old(loaded), hclen)
      ensures sizes == CodeLengthLengths(input, old(pos), hclen)
    {
      hide Reservoir, Received, Window, LengthOrder;
      var codelength_sizes := new nat[19](_ => 0);
      assert codelength_sizes[..] == Fill(19, 0);
      for i := 0 to hclen
        invariant Reservoir() && pos == old(pos) + 3 * i && loaded == ThreesFeed(old(pos), old(loaded), i)
        invariant codelength_sizes[..] == CodeLengthLengths(input, old(pos), i)
      {
        var s := Receive(3);
        var k := OrderEntry(i);
        codelength_sizes[k] := s;
      }
      sizes := codelength_sizes[..];
    }

    /** The run of symbol c. */
    method ReadRun(c: nat, ghost sofar: seq<nat>, room: nat, n: nat, last: nat) returns (ok: bool, count: nat, fill: nat)
      requires Reservoir() && n == |sofar| && (n > 0 ==> last == sofar[n - 1])
      modifies `zbuffer, `loaded, `code_buffer, `num_bits, `pos
      ensures Reservoir()
      ensures RunOf(input, c, old(pos), room, sofar) == if ok then Run(count, fill, pos) else BadRun
      ensures ExtraFeed(c, old(pos), old(loaded)) == Loaded(loaded)
    {
      ok, count, fill := false, 1, c;
      if c >= 19 {
        return;
      }
      if c < 16 {
        ok := true;
        return;
      }
      var more := Receive(RunBits(c));
      count, fill := RunBase(c) + more, if c == 16 then last else 0;
      ok := !(c == 16 && n == 0) && count <= room;
    }

    /** The next run of the run-length code. */
    method RunStep(z: ZHuffman, ghost clens: seq<nat>, ghost sofar: seq<nat>, room: nat, n: nat, last: nat)
      returns (ok: bool, count: nat, fill: nat)
      requires Reservoir() && z.Holds(clens) && n == |sofar| && (n > 0 ==> last == sofar[n - 1]) && room > 0
      modifies `zbuffer, `loaded, `code_buffer, `num_bits, `pos
      ensures Reservoir()
      ensures var r := RunAt(input, clens, old(pos), room, sofar); var f := RunFeed(input, clens, old(pos), old(loaded));
              if ok then r == Run(count, fill, pos) && f == Loaded(loaded) else r.BadRun? || f.Starved?
    {
      hide ZHuffman.Holds, RunOf, Reservoir, Symbol, BeforeCode, ExtraFeed;
      assert this !in z.Arrays();
      ok, count, fill := false, 0, 0;
      var c := Decode(z, clens);
      if c >= 0 {
        ok, count, fill := ReadRun(c, sofar, room, n, last);
      }
    }

    /** Undo the run-length coding of ntot code lengths. */
    method ReadCodeLengths(z: ZHuffman, ghost clens: seq<nat>, ntot: nat) returns (ok: bool, lencodes: seq<nat>)
      requires Reservoir() && z.Holds(clens) && ntot <= 320
      modifies `zbuffer, `loaded, `code_buffer, `num_bits, `pos
      ensures Reservoir()
      ensures var r := ReadLengths(input, clens, old(pos), ntot, []);
              var f := LengthsFeed(input, clens, old(pos), old(loaded), ntot, []);
              if ok then r == Lens(lencodes, pos) && f == Loaded(loaded) else r.BadLengths? || f.Starved?
    {
      hide ZHuffman.Holds, RunAt, RunFeed;
      assert this !in z.Arrays();
      ghost var goal := ReadLengths(input, clens, pos, ntot, []);
      ghost var feed := LengthsFeed(input, clens, pos, loaded, ntot, []);
      var codes := new nat[455](_ => 0);
      assert codes[..0] == [];
      var n := 0;
      while n < ntot
        invariant Reservoir() && z.Holds(clens) && 0 <= n <= ntot
        invariant goal == ReadLengths(input, clens, pos, ntot, codes[..n])
        invariant feed == LengthsFeed(input, clens, pos, loaded, ntot, codes[..n])
      {
        ghost var sofar := codes[..n];
        var ok', count, fill := RunStep(z, clens, sofar, ntot - n, n, if n > 0 then codes[n - 1] else 0);
        if !ok' {
          return false, [];
        }
        forall i | n <= i < n + count {
          codes[i] := fill;
        }
        assert codes[..n + count] == sofar + Fill(count, fill);
        n := n + count;
      }
      ok, lencodes := true, codes[..n];
    }

    /** Read all code lengths of a dynamic block. */
    method ReadDynamicLengths() returns (ok: bool, lencodes: seq<nat>, hlit: nat)
      requires Reservoir()
      modifies `zbuffer, `loaded, `code_buffer, `num_bits, `pos
      ensures Reservoir() && hlit == LiteralCount(input, old(pos))
      ensures var r := DynamicLengths(input, old(pos)); var f := HeaderFeed(input, old(pos), old(loaded));
              if ok then r == Lens(lencodes, pos) && f == Loaded(loaded) else r.BadLengths? || f.Starved?
    {
      hide Reservoir, ZHuffman.Holds, Kraft, ReadLengths, CodeLengthLengths, Window, LengthsFeed, Received, ThreesFeed;
      ok, lencodes := false, [];
      HclenRange(input, pos);
      HclenRange(input, pos + 5);
      HclenRange(input, pos + 10);
      hlit := Receive(5);
      var hdist := Receive(5);
      var hclen := Receive(4);
      hlit, hdist, hclen := hlit + 257, hdist + 1, hclen + 4;
      var codelength_sizes := ReadCodeLengthLengths(hclen);
      var z_codelength := new ZHuffman();
      var built := z_codelength.Build(codelength_sizes);
      if built {
        ok, lencodes := ReadCodeLengths(z_codelength, codelength_sizes, hlit + hdist);
      }
    }

    /** Rebuild both tables from the transmitted lengths. */
    method ComputeHuffmanCodes() returns (ok: bool, ghost llens: seq<nat>, ghost dlens: seq<nat>)
      requires Valid()
      modifies `zbuffer, `loaded, `code_buffer, `num_bits, `pos, z_length.Arrays(), z_distance.Arrays()
      ensures Valid()
      ensures ok ==> z_length.Holds(llens) && z_distance.Holds(dlens)
      ensures var h := DynamicHeader(input, old(pos)); var f := HeaderFeed(input, old(pos), old(loaded));
              if ok then h == Header(llens, dlens, pos) && f == Loaded(loaded) else h.BadHeader? || f.Starved?
    {
      hide ZHuffman.Holds, Kraft, DynamicLengths, LiteralCount, CodeLengths, HeaderFeed;
      llens, dlens := [], [];
      DynamicLengthsRange(input, pos);
      var lencodes, hlit;
      ok, lencodes, hlit := ReadDynamicLengths();
      if ok {
        ok, llens, dlens := BuildBoth(lencodes, hlit);
      }
    }

    /** Build the literal/length table and then the distance table. */
    method BuildBoth(lencodes: seq<nat>, hlit: nat) returns (ok: bool, ghost llens: seq<nat>, ghost dlens: seq<nat>)
      requires Separate() && hlit <= |lencodes|
      requires CodeLengths(lencodes[..hlit]) && CodeLengths(lencodes[hlit..])
      modifies z_length.Arrays(), z_distance.Arrays()
      ensures llens == lencodes[..hlit] && dlens == lencodes[hlit..]
      ensures ok <==> Kraft(llens) && Kraft(dlens)
      ensures ok ==> z_length.Holds(llens) && z_distance.Holds(dlens)
    {
      hide ZHuffman.Holds, Kraft, CodeLengths;
      llens, dlens := lencodes[..hlit], lencodes[hlit..];
      ok := z_length.Build(lencodes[..hlit]);
      if ok {
        ok := z_distance.Build(lencodes[hlit..]);
      }
    }

    // ---------- stored blocks ----------

    /** Discard bits up to the next byte boundary. */
    method AlignToByte()
      requires Reservoir()
      modifies `zbuffer, `loaded, `code_buffer, `num_bits, `pos
      ensures Reservoir() && num_bits % 8 == 0 && pos == 8 * Aligned(old(pos))
    {
      hide Window, Aligned, Received;
      AlignBits(pos, num_bits, loaded);
      ghost var a := Aligned(pos);
      var n := num_bits % 8;
      if n != 0 {
        var _ := Receive(n);
      }
      WholeBytes(a, num_bits, loaded);
    }

    /** The whole bytes left in the reservoir become the first header bytes. */
    method DrainInto(header: array<nat>, ghost a: nat) returns (k: nat)
      requires Reservoir() && num_bits % 8 == 0 && pos == 8 * a && header.Length == 4
      modifies `code_buffer, `num_bits, `pos, header
      ensures Reservoir() && num_bits == 0 && k <= 4 && pos == 8 * (a + k)
      ensures forall i :: 0 <= i < k ==> header[i] == ByteAt(input, a + i)
    {
      k := 0;
      FourBytes();
      hide Reservoir;
      ghost var m := num_bits / 8;
      while num_bits > 0
        invariant Reservoir() && num_bits == 8 * m && 0 <= m && k + m <= 4 && pos == 8 * (a + k)
        invariant forall i :: 0 <= i < k ==> header[i] == ByteAt(input, a + i)
        decreases m
      {
        ByteNumber(a + k);
        DrainOne(header, k);
        k := k + 1;
        m := m - 1;
      }
    }

    lemma FourBytes()
      requires Reservoir()
      ensures 0 <= num_bits <= 32
    {
    }

    method DrainOne(header: array<nat>, k: nat)
      requires Reservoir() && num_bits >= 8 && pos % 8 == 0 && k < header.Length
      modifies `code_buffer, `num_bits, `pos, header
      ensures Reservoir() && num_bits == old(num_bits) - 8 && pos == old(pos) + 8
      ensures header[..] == old(header[..])[k := ByteAt(input, old(pos) / 8)]
    {
      hide Reservoir;
      var b := TopByte();
      header[k] := b;
    }

    /** The four header bytes: first those already in the reservoir, then from the input. */
    method StoredHeader() returns (header: array<nat>)
      requires Reservoir()
      modifies `zbuffer, `loaded, `code_buffer, `num_bits, `pos
      ensures Reservoir() && num_bits == 0 && pos == 8 * (Aligned(old(pos)) + 4)
      ensures fresh(header) && header.Length == 4
      ensures forall i :: 0 <= i < 4 ==> header[i] == ByteAt(input, Aligned(old(pos)) + i)
    {
      hide Reservoir;
      ghost var a := Aligned(pos);
      header := new nat[4];
      AlignToByte();
      var k := DrainInto(header, a);
      while k < 4
        invariant Reservoir() && num_bits == 0 && k <= 4 && pos == 8 * (a + k)
        invariant forall i :: 0 <= i < k ==> header[i] == ByteAt(input, a + i)
      {
        var b := NextWhole();
        header[k] := b;
        ByteNumber(a + k);
        k := k + 1;
      }
    }

    /** The next input byte, past an empty reservoir. */
    method NextWhole() returns (b: nat)
      requires Reservoir() && num_bits == 0 && pos % 8 == 0
      modifies `zbuffer, `loaded, `pos
      ensures Reservoir() && num_bits == 0 && pos == old(pos) + 8
      ensures b == ByteAt(input, old(pos) / 8)
    {
      b := Get8();
      loaded, pos := loaded + 1, pos + 8;
    }

    /** Take one whole byte out of the reservoir. */
    method TopByte() returns (b: nat)
      requires Reservoir() && num_bits >= 8 && pos % 8 == 0
      modifies `code_buffer, `num_bits, `pos
      ensures Reservoir() && pos == old(pos) + 8 && num_bits == old(num_bits) - 8
      ensures b == ByteAt(input, old(pos) / 8)
    {
      hide Window, BitAnd;
      AndMask(code_buffer, 8);
      Pow2Values();
      LowOfWindow(input, pos, num_bits, 8);
      NextByte(input, pos / 8);
      b := BitAnd(code_buffer, 255);
      Consume(8);
    }

    /** Length and complement of a stored block, as 16-bit numbers. */
    method StoredLength() returns (len: nat, nlen: nat)
      requires Reservoir()
      modifies `zbuffer, `loaded, `code_buffer, `num_bits, `pos
      ensures Reservoir() && num_bits == 0 && pos == 8 * (Aligned(old(pos)) + 4)
      ensures len == Bytes16(input, Aligned(old(pos))) && nlen == Bytes16(input, Aligned(old(pos)) + 2)
    {
      var header := StoredHeader();
      len := header[1] * 256 + header[0];
      nlen := header[3] * 256 + header[2];
    }

    /** Copy len input bytes behind the output. */
    method CopySlice(len: nat)
      requires zbuffer + len <= |input| && zout + len <= zout_start.Length
      modifies `zout, zout_start
      ensures zout == old(zout) + len && Contents() == old(Contents()) + input[zbuffer..zbuffer + len]
    {
      forall i | 0 <= i < len {
        zout_start[zout + i] := input[zbuffer + i];
      }
      zout := zout + len;
    }

    /** Copy len input bytes to the output. */
    method CopyStored(len: nat) returns (ok: bool)
      requires Valid() && num_bits == 0 && pos == 8 * zbuffer && zbuffer + len <= |input|
      modifies `zbuffer, `loaded, `pos, `zout, `zout_start, zout_start
      ensures Valid() && (zout_start == old(zout_start) || fresh(zout_start)) && Cap() == old(Cap())
      ensures ok <==> old(zout) + len <= Cap()
      ensures ok ==> pos == old(pos) + 8 * len && loaded == pos / 8
      ensures ok ==> Contents() == old(Contents()) + input[old(zbuffer)..old(zbuffer) + len]
    {
      hide Window;
      CapCovers();
      if zout + len > zout_start.Length {
        ok := Zexpand(zout, len);
        if !ok {
          return;
        }
      }
      CopySlice(len);
      NoWindow(input, pos);
      NoWindow(input, pos + 8 * len);
      zbuffer, loaded, pos := zbuffer + len, loaded + len, pos + 8 * len;
      ok := true;
    }

    /** A stored block: succeeds exactly when its length checks out, its bytes are there and the output has room. */
    method ParseUncompressedBlock() returns (ok: bool)
      requires Valid()
      modifies `zbuffer, `loaded, `code_buffer, `num_bits, `pos, `zout, `zout_start, zout_start
      ensures Valid() && (zout_start == old(zout_start) || fresh(zout_start)) && Cap() == old(Cap())
      ensures old(Stored(input, pos, Contents(), Cap())) == if ok then Done(Contents(), pos) else Fail
      ensures ok ==> loaded == pos / 8
    {
      hide Bytes16, Aligned;
      ghost var a := Aligned(pos);
      var len, nlen := StoredLength();
      Complement16(input, a);
      if nlen != BitXor(len, 0xFFFF) {
        return false;
      }
      if a + 4 > |input| {
        StoredPastEnd(input, a);
      }
      if zbuffer + len > |input| {
        return false;
      }
      ok := CopyStored(len);
    }

    /** One block of the given kind. */
    method ParseBlock(kind: nat) returns (ok: bool)
      requires Valid() && kind < 4
      modifies `zbuffer, `loaded, `code_buffer, `num_bits, `pos, `zout, `zout_start
      modifies zout_start, z_length.Arrays(), z_distance.Arrays()
      ensures Valid() && (zout_start == old(zout_start) || fresh(zout_start)) && Cap() == old(Cap())
      ensures var r := old(BlockBody(input, kind, pos, Contents(), Cap()));
              var f := old(BodyFeed(input, kind, pos, loaded, Contents(), Cap()));
              if ok then r == Done(Contents(), pos) && f == Loaded(loaded) else r.Fail? || f.Starved?
    {
      hide Reservoir, ZHuffman.Holds, Tokens, DynamicHeader, Stored, Kraft, CodeLengths, TokensFeed, HeaderFeed;
      hide FixedLiteralLengths, FixedDistanceLengths;
      ghost var out := Contents();
      ghost var llens, dlens := FixedLiteralLengths(), FixedDistanceLengths();
      if kind == 0 {
        ok := ParseUncompressedBlock();
      } else if kind == 3 {
        return false;
      } else {
        if kind == 1 {
          ok := BuildFixed();
        } else {
          ok, llens, dlens := ComputeHuffmanCodes();
        }
        if ok {
          assert Contents() == out;
          ok := ParseHuffmanBlock(llens, dlens);
        }
      }
    }

    /** Tables for the fixed codes. */
    method BuildFixed() returns (ok: bool)
      requires Separate()
      modifies z_length.Arrays(), z_distance.Arrays()
      ensures ok && z_length.Holds(FixedLiteralLengths()) && z_distance.Holds(FixedDistanceLengths())
    {
      hide ZHuffman.Holds, Kraft, CodeLengths, FixedLiteralLengths, FixedDistanceLengths;
      FixedLiteralKraft();
      FixedDistanceKraft();
      ok := z_length.Build(FixedLiteralLengths());
      if !ok {
        return;
      }
      ok := z_distance.Build(FixedDistanceLengths());
    }

    /** The two header bytes of a zlib stream. */
    method ParseZlibHeader() returns (ok: bool)
      requires zbuffer == 0
      modifies `zbuffer
      ensures ok <==> ZlibHeader(input)
      ensures ok ==> zbuffer == 2 < |input|
    {
      hide HeaderCheck, Bit, BitAnd;
      var cmf: nat := Get8();
      AndMask(cmf, 4);
      Pow2Values();
      var cm := BitAnd(cmf, 15);
      var flg: nat := Get8();
      FlagBit(flg);
      if Eof() || !HeaderCheck(cmf, flg) || BitAnd(flg, 32) != 0 {
        return false;
      }
      ok := cm == 8;
    }

    /** Header bits and body of one block. */
    method BlockStep() returns (ok: bool, final: bool)
      requires Valid()
      modifies `zbuffer, `loaded, `code_buffer, `num_bits, `pos, `zout, `zout_start
      modifies zout_start, z_length.Arrays(), z_distance.Arrays()
      ensures Valid() && (zout_start == old(zout_start) || fresh(zout_start)) && Cap() == old(Cap())
      ensures final <==> Window(input, old(pos), 1) == 1
      ensures var r := old(BlockBody(input, Window(input, pos + 1, 2), pos + 3, Contents(), Cap()));
              var f := old(BlockFeed(input, pos, loaded, Contents(), Cap()));
              if ok then r == Done(Contents(), pos) && f == Loaded(loaded) else r.Fail? || f.Starved?
    {
      hide BlockBody, Reservoir, Window, BodyFeed, Received;
      ghost var out := Contents();
      KindRange(input, pos + 1);
      var f := Receive(1);
      final := f == 1;
      var kind := Receive(2);
      assert Contents() == out;
      ok := ParseBlock(kind);
    }

    /** All blocks up to and including the final one. */
    method ParseBlocks() returns (ok: bool)
      requires Valid()
      modifies `zbuffer, `loaded, `code_buffer, `num_bits, `pos, `zout, `zout_start
      modifies zout_start, z_length.Arrays(), z_distance.Arrays()
      ensures Valid() && Cap() == old(Cap())
      ensures var r := old(Blocks(input, pos, Contents(), Cap()));
              var f := old(BlocksFeed(input, pos, loaded, Contents(), Cap()));
              if ok then r == Done(Contents(), pos) && f == Loaded(loaded) else r.Fail? || f.Starved?
    {
      hide BlockBody, Reservoir, BlockFeed, Window;
      ghost var goal := Blocks(input, pos, Contents(), Cap());
      ghost var feed := BlocksFeed(input, pos, loaded, Contents(), Cap());
      while true
        invariant Valid() && Cap() == old(Cap())
        invariant zout_start == old(zout_start) || fresh(zout_start)
        invariant goal == Blocks(input, pos, Contents(), Cap())
        invariant feed == BlocksFeed(input, pos, loaded, Contents(), Cap())
        decreases 8 * |input| - pos
      {
        BlocksStep(input, pos, Contents(), Cap());
        var final;
        ok, final := BlockStep();
        if !ok || final {
          return;
        }
      }
    }

    /** Inflate a whole stream. It succeeds exactly if the header is right, RFC 1951 gives the input, read as if zeros
        followed it, a meaning that fits, and the reservoir is never starved before a code; the output is that meaning. */
    method ParseZlib(parse_header: bool) returns (ok: bool)
      requires Valid() && zbuffer == 0
      modifies this, zout_start, z_length.Arrays(), z_distance.Arrays()
      ensures ok ==> Valid() && Cap() == old(Cap())
      ensures var first := if parse_header then 2 else 0;
              var r := old(Blocks(input, 8 * first, Contents(), Cap()));
              var f := old(BlocksFeed(input, 8 * first, first, Contents(), Cap()));
              (ok <==> (parse_header ==> ZlibHeader(input)) && r.Done? && f.Loaded?) && (ok ==> r == Done(Contents(), pos))
    {
      hide Blocks, ZlibHeader, Reservoir, BlocksFeed;
      ghost var out := Contents();
      if parse_header {
        ok := ParseZlibHeader();
        if !ok {
          return;
        }
      }
      ClearBits();
      assert Contents() == out;
      ok := ParseBlocks();
    }

    /** Start with an empty reservoir at the next input byte. */
    method ClearBits()
      requires zbuffer <= |input| && Separate() && zout <= zout_start.Length <= UINT_MAX
      requires z_expandable ==> zout_start.Length >= 1
      modifies `num_bits, `code_buffer, `pos, `loaded
      ensures Valid() && pos == 8 * zbuffer && loaded == zbuffer
    {
      num_bits, code_buffer := 0, 0;
      pos, loaded := 8 * zbuffer, zbuffer;
    }
  }

  lemma ByteNumber(n: nat)
    ensures 8 * n % 8 == 0 && 8 * n / 8 == n && 8 * n + 8 == 8 * (n + 1)
  {
  }

  lemma KindRange(data: seq<Byte>, p: nat)
    ensures Window(data, p, 2) < 4
  {
    Pow2Values();
  }

  /** One step of the block sequence. */
  lemma BlocksStep(data: seq<Byte>, p: nat, out: seq<Byte>, cap: nat)
    ensures var r := BlockBody(data, Window(data, p + 1, 2), p + 3, out, cap);
            var b := Blocks(data, p, out, cap);
            (r.Fail? ==> b.Fail?) &&
            (b.Done? ==> b.end >= r.end) &&
            (r.Done? ==> (p < 8 * |data| && r.end > p &&
                          b == if Window(data, p, 1) == 1 then r else Blocks(data, r.end, r.out, cap)))
  {
    hide BlockBody, Window;
    var kind := Window(data, p + 1, 2);
    BlockEnd(data, kind, p + 3, out, cap);
    var r := BlockBody(data, kind, p + 3, out, cap);
    if p >= 8 * |data| {
      NoBlockPastEnd(data, p, out, cap);
    } else if r.Done? {
      BlocksEnd(data, r.end, r.out, cap);
    }
  }

  lemma Complement16(data: seq<Byte>, a: nat)
    ensures Bytes16(data, a) < 0x10000 && BitXor(Bytes16(data, a), 0xFFFF) == 0xFFFF - Bytes16(data, a)
  {
    Pow2Values();
    XorOnes(Bytes16(data, a), 16);
  }

  lemma FlagBit(flg: nat)
    ensures BitAnd(flg, 32) == 0 <==> !Bit(flg, 5)
  {
    Pow2Values();
    AndOneBit(flg, 5);
  }

  /** Dropping the odd bits of the reservoir reaches the next byte boundary. */
  lemma AlignBits(p: nat, n: nat, bytes: nat)
    requires p + n == 8 * bytes
    ensures p + n % 8 == 8 * Aligned(p)
  {
    assert p == 8 * bytes - n == 8 * (bytes - n / 8) - n % 8;
  }

  lemma WholeBytes(a: nat, n: nat, bytes: nat)
    requires 8 * a + n == 8 * bytes
    ensures n % 8 == 0
  {
    assert n == 8 * (bytes - a);
  }

  lemma {:induction false} GrowthBound(capacity: nat)
    requires 1 <= capacity <= UINT_MAX
    ensures GrowthLimit(capacity) <= UINT_MAX
    decreases UINT_MAX - capacity
  {
    if capacity <= UINT_MAX / 2 {
      GrowthBound(2 * capacity);
    }
  }
}
