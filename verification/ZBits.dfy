/** The inflater's bit reservoir and its Huffman decoder, against the bit string they read. */
module ZBits {
  import opened Basics
  import opened Bits
  import opened BitStream
  import opened Canonical
  import opened HuffmanTable

  /** The symbol whose code stands at position p, or -1 if there is none. */
  ghost function Symbol(lens: seq<nat>, data: seq<Byte>, p: nat): (r: int)
    ensures -1 <= r < |lens|
  {
    SymbolOf(lens, Msb(data, p, 16))
  }

  lemma SymbolMatches(lens: seq<nat>, data: seq<Byte>, p: nat)
    ensures var r := Symbol(lens, data, p); r >= 0 ==> Matches(lens, r, Msb(data, p, 16))
  {
  }

  /** The symbol found is the only one whose code starts the window. */
  lemma SymbolIs(lens: seq<nat>, data: seq<Byte>, p: nat, sym: nat)
    requires Matches(lens, sym, Msb(data, p, 16))
    ensures Symbol(lens, data, p) == sym
  {
    SymbolOfIs(lens, Msb(data, p, 16), sym);
  }

  // ---------- facts about one lookup ----------

  lemma ReverseTwice(x: nat, n: nat)
    requires x < Pow2(n)
    ensures Reverse(Reverse(x, n), n) == x
  {
    forall i: nat | i < n
      ensures Bit(Reverse(Reverse(x, n), n), i) == Bit(x, i)
    {
      BitOfReverse(Reverse(x, n), n, i);
      BitOfReverse(x, n, n - 1 - i);
    }
    SameBits(Reverse(Reverse(x, n), n), x, n);
  }

  lemma LowOfWindow(data: seq<Byte>, p: nat, n: nat, m: nat)
    requires m <= n
    ensures Low(Window(data, p, n), m) == Window(data, p, m)
    ensures Shr(Window(data, p, n), m) == Window(data, p + m, n - m)
  {
    WindowSplit(data, p, m, n - m);
  }

  /** A lookup slot is hit by exactly the short codes that start the window. */
  lemma FastHitIsMatch(lens: seq<nat>, sym: nat, data: seq<Byte>, p: nat)
    requires Kraft(lens) && sym < |lens| && 1 <= lens[sym] <= ZFAST_BITS
    ensures FastHit(lens, sym, Window(data, p, ZFAST_BITS)) <==> Matches(lens, sym, Msb(data, p, 16))
  {
    var s := lens[sym];
    var c := Code(lens, sym);
    LowOfWindow(data, p, ZFAST_BITS, s);
    ReverseOfWindow(data, p, s, s);
    MsbPrefix(data, p, s, 16 - s);
    CodeFits(lens, sym);
    ReverseTwice(c, s);
    ReverseTwice(Window(data, p, s), s);
  }

  /** A filled slot names the symbol at p. */
  lemma FastPath(lens: seq<nat>, data: seq<Byte>, p: nat)
    requires CodeLengths(lens) && Kraft(lens)
    requires FastValue(lens, |lens|, Window(data, p, ZFAST_BITS)) != 0
    ensures var b := FastValue(lens, |lens|, Window(data, p, ZFAST_BITS));
            var sym := Symbol(lens, data, p);
            sym >= 0 && Low(b, 9) == sym && Shr(b, 9) == lens[sym] <= ZFAST_BITS
  {
    var sym := FastValueHit(lens, |lens|, Window(data, p, ZFAST_BITS));
    FastHitIsMatch(lens, sym, data, p);
    SymbolIs(lens, data, p, sym);
    EntryParts(lens[sym], sym);
  }

  lemma EntryParts(s: nat, sym: nat)
    requires sym < 512
    ensures Low(Entry(s, sym), 9) == sym && Shr(Entry(s, sym), 9) == s
  {
    Pow2Values();
    ShlIsMul(s, 9);
    Join(s, sym, 9);
  }

  /** An empty slot means that no code of at most 9 bits starts the window. */
  lemma FastMiss(lens: seq<nat>, data: seq<Byte>, p: nat)
    requires CodeLengths(lens) && Kraft(lens)
    requires FastValue(lens, |lens|, Window(data, p, ZFAST_BITS)) == 0
    ensures Msb(data, p, 16) >= Limit(lens, ZFAST_BITS)
  {
    var k := Msb(data, p, 16);
    if k < Limit(lens, ZFAST_BITS) {
      var s := Level(lens, k, ZFAST_BITS);
      var sym := Located(lens, s, k);
      FastHitIsMatch(lens, sym, data, p);
      FastValueMiss(lens, |lens|, Window(data, p, ZFAST_BITS), sym);
    }
  }

  /** The least length whose limit exceeds k. */
  ghost function {:induction false} Level(lens: seq<nat>, k: nat, top: nat): (s: nat)
    requires top <= 16 && k < Limit(lens, top)
    ensures 1 <= s <= top && Limit(lens, s - 1) <= k < Limit(lens, s)
    decreases top
  {
    LimitIsKraftSum(lens, 0);
    KraftSumZero(lens, |lens|);
    assert top > 0;
    if k < Limit(lens, top - 1) then Level(lens, k, top - 1) else top
  }

  /** Beyond the limit of 15 bits there is no code. */
  lemma NoCode(lens: seq<nat>, data: seq<Byte>, p: nat)
    requires CodeLengths(lens) && Msb(data, p, 16) >= Limit(lens, 15)
    ensures Symbol(lens, data, p) == -1
  {
    var sym := Symbol(lens, data, p);
    if sym >= 0 {
      SymbolMatches(lens, data, p);
      MatchWithinLimits(lens, sym, Msb(data, p, 16));
      LimitMonotone(lens, lens[sym], 15);
    }
  }

  /** Between two limits the sorted tables name the symbol at p; its length and position checks succeed. */
  lemma SlowPath(lens: seq<nat>, size: seq<nat>, value: seq<nat>, data: seq<Byte>, p: nat, s: nat)
    requires CodeLengths(lens) && Kraft(lens) && SortedTable(lens, size, value, |lens|)
    requires 1 <= s <= 15 && Limit(lens, s - 1) <= Msb(data, p, 16) < Limit(lens, s)
    ensures var b := Shr(Msb(data, p, 16), 16 - s) - FirstCode(lens, s) + FirstIndex(lens, s);
            var sym := Symbol(lens, data, p);
            0 <= b < NUM_SYMBOLS && sym >= 0 && size[b] == s == lens[sym] && value[b] == sym
  {
    var sym := Located(lens, s, Msb(data, p, 16));
    SymbolIs(lens, data, p, sym);
  }

  /** Adding one byte, zero past the end, extends the window by eight bits. */
  lemma FillStep(data: seq<Byte>, p: nat, n: nat, r: nat, b: Byte)
    requires p + n == 8 * r && b == if r < |data| then data[r] else 0
    ensures BitOr(Window(data, p, n), Shl(b, n)) == Window(data, p, n + 8)
  {
    WindowJoin(data, p, n, 8);
    OrShifted(Window(data, p, n), b, n);
    NextByte(data, r);
  }

  lemma NextByte(data: seq<Byte>, r: nat)
    ensures Window(data, 8 * r, 8) == if r < |data| then data[r] else 0
  {
    if r < |data| {
      WindowOfByte(data, r);
    } else {
      WindowPastEnd(data, 8 * r, 8);
    }
  }

  lemma MaskValue()
    ensures Pow2(9) - 1 == 511
  {
    Pow2Values();
  }

  lemma WindowReversed(data: seq<Byte>, p: nat, n: nat)
    requires n >= 16
    ensures BitReverse(Window(data, p, n), 16) == Msb(data, p, 16)
  {
    BitReverse16IsReverse(Window(data, p, n));
    ReverseOfWindow(data, p, n, 16);
  }
}
