/** The JPEG bit reservoir: decoding a Huffman code, receiving a value, and the table that does both at once. */
module JpegBits {
  import opened Bits
  import opened Canonical
  import opened JpegTable

  /** The bits that are valid stand at the top of a 32-bit buffer. */
  datatype Reservoir = Reservoir(buffer: nat, bits: int)

  /** What reading from the reservoir gives, and what is left. */
  datatype Reading = Reading(value: int, rest: Reservoir)

  predicate Wide(r: Reservoir)
  {
    r.buffer < Pow2(32)
  }

  /** n bits taken off the top. */
  function Dropped(r: Reservoir, n: nat): Reservoir
    requires n <= 32
  {
    Reservoir(Shl(Low(r.buffer, 32 - n), n), r.bits - n)
  }

  lemma DroppedWide(r: Reservoir, n: nat)
    requires n <= 32
    ensures Wide(Dropped(r, n))
  {
    LowOfShl(r.buffer, n, 32);
  }

  lemma DroppedTwice(r: Reservoir, a: nat, b: nat)
    requires a + b <= 32
    ensures Dropped(Dropped(r, a), b) == Dropped(r, a + b)
  {
    LowOfShl(Low(r.buffer, 32 - a), a, 32 - b);
    LowLow(r.buffer, 32 - a - b, 32 - a);
    ShlShl(Low(r.buffer, 32 - a - b), a, b);
  }

  // ---------- what decoding means ----------

  /** The symbol whose code stands at the top, or -1; its code is taken off if all of it is valid. When there is no code
      sixteen bits are given up. */
  ghost function Decoded(lens: seq<nat>, values: seq<nat>, r: Reservoir): Reading
    requires |lens| <= |values| && forall i :: 0 <= i < |lens| ==> lens[i] <= 16
  {
    var sym := SymbolOf(lens, Shr(r.buffer, 16));
    if sym < 0 then Reading(-1, r.(bits := r.bits - 16))
    else if lens[sym] > r.bits then Reading(-1, r)
    else Reading(values[sym], Dropped(r, lens[sym]))
  }

  /** A value of n bits: with a leading one it stands for itself, with a leading zero for a negative number (section F.2.2.1
      of ITU-T T.81). */
  function Extended(v: nat, n: nat): int
  {
    if n > 0 && v < Pow2(n - 1) then v - Pow2(n) + 1 else v
  }

  function Received(r: Reservoir, n: nat): Reading
    requires n <= 32
  {
    Reading(Extended(Shr(r.buffer, 32 - n), n), Dropped(r, n))
  }

  // ---------- the decoder ----------

  /** A filled slot names the symbol at the top. */
  lemma FastFound(lens: seq<nat>, w: nat)
    requires Sorted(lens) && |lens| <= 256 && FastValue(lens, |lens|, Shr(w, 7)) < 255
    ensures var sym := FastValue(lens, |lens|, Shr(w, 7));
            sym < |lens| && SymbolOf(lens, w) == sym && lens[sym] <= FAST_BITS
  {
    var sym := FastValue(lens, |lens|, Shr(w, 7));
    FastValueHit(lens, |lens|, Shr(w, 7));
    HitIsMatch(lens, sym, w);
    SymbolOfIs(lens, w, sym);
  }

  /** Below a limit a window starts with a code of at most that length. */
  lemma {:induction false} BelowLimit(lens: seq<nat>, s: nat, w: nat) returns (sym: nat)
    requires 1 <= s <= 16 && w < Limit(lens, s)
    ensures Matches(lens, sym, w) && lens[sym] <= s
    decreases s
  {
    if s > 1 && w < Limit(lens, s - 1) {
      sym := BelowLimit(lens, s - 1, w);
    } else {
      LimitIsKraftSum(lens, 0);
      KraftSumZero(lens, |lens|);
      sym := Located(lens, s, w);
    }
  }

  /** An empty slot means that no short code stands at the top. */
  lemma FastMissed(lens: seq<nat>, w: nat)
    requires Sorted(lens) && |lens| <= 256 && Accelerable(lens) && FastValue(lens, |lens|, Shr(w, 7)) == 255
    ensures Limit(lens, FAST_BITS) <= w
  {
    if w < Limit(lens, FAST_BITS) {
      var sym := BelowLimit(lens, FAST_BITS, w);
      HitIsMatch(lens, sym, w);
      FastValueMiss(lens, |lens|, Shr(w, 7), sym);
    }
  }

  /** The slow path finds the symbol by its length. */
  lemma SlowFound(lens: seq<nat>, k: nat, w: nat)
    requires Sorted(lens) && 1 <= k <= 16 && Limit(lens, k - 1) <= w < Limit(lens, k)
    ensures var c := Shr(w, 16 - k) + FirstIndex(lens, k) - FirstCode(lens, k);
            0 <= c < |lens| && SymbolOf(lens, w) == c && lens[c] == k
  {
    var sym := Located(lens, k, w);
    SymbolOfIs(lens, w, sym);
    SortedIndex(lens, sym);
  }

  lemma NoCode(lens: seq<nat>, w: nat)
    requires w >= Limit(lens, 16)
    ensures SymbolOf(lens, w) == -1
  {
    if SymbolOf(lens, w) >= 0 {
      var sym := SymbolOf(lens, w);
      MatchWithinLimits(lens, sym, w);
      LimitMonotone(lens, lens[sym], 16);
    }
  }

  lemma TopBits(r: Reservoir)
    requires Wide(r)
    ensures Shr(r.buffer, 16) < Pow2(16) && Low(Shr(r.buffer, 23), 9) == Shr(Shr(r.buffer, 16), 7)
    ensures Shr(r.buffer, 23) < FAST_SIZE
  {
    ShrBound(r.buffer, 16, 16);
    ShrBound(r.buffer, 23, 9);
    LowIs(Shr(r.buffer, 23), 9);
    ShrShr(r.buffer, 16, 7);
    Pow2Values();
  }

  lemma TopCode(r: Reservoir, k: nat)
    requires Wide(r) && 1 <= k <= 16
    ensures Low(Shr(r.buffer, 32 - k), k) == Shr(Shr(r.buffer, 16), 16 - k)
  {
    ShrShr(r.buffer, 16, 16 - k);
    ShrBound(r.buffer, 32 - k, k);
    LowIs(Shr(r.buffer, 32 - k), k);
  }

  // ---------- two paths ----------

  /** The first length from k on whose limit is above the window; 17 if there is none. */
  function SlowLength(lens: seq<nat>, w: nat, k: nat): (s: nat)
    requires k <= 17
    ensures k <= s <= 17
    decreases 17 - k
  {
    if k == 17 || w < Limit(lens, k) then k else SlowLength(lens, w, k + 1)
  }

  /** The long codes: compare with the limits, then look the symbol up by its place. */
  function SlowPath(lens: seq<nat>, values: seq<nat>, r: Reservoir): Reading
    requires |values| == 256
  {
    var w := Shr(r.buffer, 16);
    var k := SlowLength(lens, w, FAST_BITS + 1);
    if k == 17 then Reading(-1, r.(bits := r.bits - 16))
    else if k > r.bits then Reading(-1, r)
    else
      var c := Shr(w, 16 - k) + (FirstIndex(lens, k) - FirstCode(lens, k));
      if c < 0 || c >= 256 then Reading(-1, r) else Reading(values[c], Dropped(r, k))
  }

  /** The short codes by the lookup table, the others by the limits. */
  function TwoPaths(lens: seq<nat>, values: seq<nat>, r: Reservoir): Reading
    requires Sorted(lens) && |lens| <= 256 && |values| == 256
  {
    var sym := FastValue(lens, |lens|, Shr(r.buffer, 23));
    if sym < 255 then
      FastValueHit(lens, |lens|, Shr(r.buffer, 23));
      if lens[sym] > r.bits then Reading(-1, r) else Reading(values[sym], Dropped(r, lens[sym]))
    else SlowPath(lens, values, r)
  }

  method SlowDecode(h: JHuffman, r: Reservoir, ghost lens: seq<nat>) returns (v: int, rest: Reservoir)
    requires h.Holds(lens) && Wide(r)
    ensures Reading(v, rest) == SlowPath(lens, h.values[..], r)
  {
    hide Limit, Kraft, FastTable, Sorted, FirstIndex, FirstCode;
    TopBits(r);
    var temp := Shr(r.buffer, 16);
    var k := FAST_BITS + 1;
    Pow2Values();
    while temp >= h.maxcode[k]
      invariant 10 <= k <= 17 && SlowLength(lens, temp, k) == SlowLength(lens, temp, 10)
      decreases 17 - k
    {
      assert k < 17 ==> h.maxcode[k] == h.maxcode[..][k];
      k := k + 1;
    }
    if k == 17 {
      return -1, r.(bits := r.bits - 16);
    }
    assert h.maxcode[k] == h.maxcode[..][k] && h.delta[k] == h.delta[..][k];
    TopCode(r, k);
    if k > r.bits {
      return -1, r;
    }
    var c := Low(Shr(r.buffer, 32 - k), k) + h.delta[k];
    if c < 0 || c >= 256 {
      return -1, r;
    }
    return h.values[c], Dropped(r, k);
  }

  /** Decodes one symbol. */
  method HuffDecode(h: JHuffman, r: Reservoir, ghost lens: seq<nat>) returns (v: int, rest: Reservoir)
    requires h.Holds(lens) && Wide(r)
    ensures Reading(v, rest) == TwoPaths(lens, h.values[..], r)
  {
    hide Limit, Kraft, Sorted, Levels, SlowPath;
    TopBits(r);
    var c := Low(Shr(r.buffer, 23), 9);
    var k := h.fast[c];
    ShrShr(r.buffer, 16, 7);
    assert k == h.fast[..][c] == FastValue(lens, |lens|, c);
    if k < 255 {
      FastValueHit(lens, |lens|, c);
      var s := h.size[k];
      assert s == h.size[..|lens|][k] == lens[k];
      if s > r.bits {
        return -1, r;
      }
      return h.values[k], Dropped(r, s);
    }
    v, rest := SlowDecode(h, r, lens);
  }

  lemma {:induction false} SlowLengthIs(lens: seq<nat>, w: nat, k: nat)
    requires 1 <= k <= 17 && Limit(lens, k - 1) <= w
    ensures var s := SlowLength(lens, w, k); Limit(lens, s - 1) <= w && (s < 17 ==> w < Limit(lens, s))
    decreases 17 - k
  {
    if k < 17 && w >= Limit(lens, k) {
      SlowLengthIs(lens, w, k + 1);
    }
  }

  /** The slow path is canonical decoding when no short code stands at the top. */
  lemma SlowIsCanonical(lens: seq<nat>, values: seq<nat>, r: Reservoir)
    requires Sorted(lens) && |lens| <= 256 && |values| == 256 && Limit(lens, FAST_BITS) <= Shr(r.buffer, 16)
    ensures SlowPath(lens, values, r) == Decoded(lens, values, r)
  {
    hide Limit, SymbolOf, Sorted, FirstIndex, FirstCode, Dropped, Shr;
    var w := Shr(r.buffer, 16);
    var k := SlowLength(lens, w, FAST_BITS + 1);
    SlowLengthIs(lens, w, FAST_BITS + 1);
    if k == 17 {
      NoCode(lens, w);
    } else {
      SlowFound(lens, k, w);
    }
  }

  /** Both paths together are canonical decoding, for every window, */
  lemma PathsAreCanonical(lens: seq<nat>, values: seq<nat>, r: Reservoir)
    requires Sorted(lens) && |lens| <= 256 && |values| == 256 && Accelerable(lens)
    ensures TwoPaths(lens, values, r) == Decoded(lens, values, r)
  {
    hide Limit, SymbolOf, Dropped, SlowPath, Accelerable, Shr;
    var w := Shr(r.buffer, 16);
    assert Shr(r.buffer, 23) == Shr(w, 7) by {
      ShrShr(r.buffer, 16, 7);
    }
    NotAbove(lens, |lens|, Shr(w, 7));
    if FastValue(lens, |lens|, Shr(w, 7)) < 255 {
      FastFound(lens, w);
    } else {
      FastMissed(lens, w);
      SlowIsCanonical(lens, values, r);
    }
  }

  /** and only then: if the last of 256 codes is short, its own code is not decoded. */
  lemma LastCodeLost(lens: seq<nat>, values: seq<nat>) returns (r: Reservoir)
    requires Sorted(lens) && |lens| <= 256 && |values| == 256 && Kraft(lens) && !Accelerable(lens)
    ensures Wide(r) && r.bits == 32 && TwoPaths(lens, values, r) != Decoded(lens, values, r)
  {
    var len := lens[255];
    var code := Code(lens, 255);
    r := Reservoir(Shl(code, 32 - len), 32);
    CodeFits(lens, 255);
    EndFromLimit(code, len, 32 - len);
    LastAtTop(lens, r);
    hide Limit, SymbolOf, Shr, Shl, Kraft, Sorted, Code;
    assert FastValue(lens, 256, Shr(r.buffer, 23)) == 255;
    assert SymbolOf(lens, Shr(r.buffer, 16)) == 255;
    assert TwoPaths(lens, values, r) == SlowPath(lens, values, r);
  }

  lemma LastAtTop(lens: seq<nat>, r: Reservoir)
    requires Sorted(lens) && |lens| == 256 && Kraft(lens) && lens[255] <= FAST_BITS
    requires r.buffer == Shl(Code(lens, 255), 32 - lens[255])
    ensures Shr(r.buffer, 16) == Shl(Code(lens, 255), 16 - lens[255])
    ensures Wide(r) && SymbolOf(lens, Shr(r.buffer, 16)) == 255
    ensures FastValue(lens, 256, Shr(r.buffer, 23)) == 255
  {
    var len, code := lens[255], Code(lens, 255);
    CodeFits(lens, 255);
    ShlIsBelow(code, 32 - len, len);
    ShrDown(code, 32 - len, 16);
    ShrDown(code, 16 - len, 16 - len);
    ShrShr(r.buffer, 16, 7);
    assert Matches(lens, 255, Shr(r.buffer, 16));
    SymbolOfIs(lens, Shr(r.buffer, 16), 255);
    HitIsMatch(lens, 255, Shr(r.buffer, 16));
  }

  lemma ShlIsBelow(x: nat, n: nat, m: nat)
    requires x < Pow2(m)
    ensures Shl(x, n) < Pow2(m + n)
  {
    ShlBelow(x, 0, n, m);
  }

  lemma {:induction false} ShrDown(x: nat, a: nat, b: nat)
    requires b <= a
    ensures Shr(Shl(x, a), b) == Shl(x, a - b)
    decreases b
  {
    if b > 0 {
      assert Shl(x, a) / 2 == Shl(x, a - 1);
      ShrDown(x, a - 1, b - 1);
    }
  }

  lemma {:induction false} NotAbove(lens: seq<nat>, n: nat, t: nat)
    requires n <= |lens| <= 256
    ensures FastValue(lens, n, t) <= 255
    decreases n
  {
    if n > 0 {
      NotAbove(lens, n - 1, t);
    }
  }

  // ---------- receive and extend ----------

  /** The sign bit is the top bit of the value. */
  lemma SignBit(r: Reservoir, n: nat)
    requires Wide(r) && 1 <= n <= 15
    ensures Shr(r.buffer, 31) <= 1
    ensures Shr(r.buffer, 31) == 0 <==> Shr(r.buffer, 32 - n) < Pow2(n - 1)
  {
    ShrBound(r.buffer, 31, 1);
    ShrShr(r.buffer, 32 - n, n - 1);
    ShrLess(Shr(r.buffer, 32 - n), 1, n - 1);
    ShlIsMul(1, n - 1);
    Pow2Values();
  }

  /** The n top bits rotated to the bottom. */
  lemma Rotated(r: Reservoir, n: nat)
    requires Wide(r) && n <= 16
    ensures var k := Shl(Low(r.buffer, 32 - n), n) + Shr(r.buffer, 32 - n);
            Low(k, n) == Shr(r.buffer, 32 - n) && k - Low(k, n) == Dropped(r, n).buffer
  {
    ShrBound(r.buffer, 32 - n, n);
    Join(Low(r.buffer, 32 - n), Shr(r.buffer, 32 - n), n);
  }

  /** Takes n bits and extends them; with too few bits it gives zero and takes none. */
  method ExtendReceive(r: Reservoir, n: nat) returns (v: int, rest: Reservoir)
    requires Wide(r) && n <= 15
    ensures Reading(v, rest) == if r.bits < n then Reading(0, r) else Received(r, n)
  {
    hide Low, Shr, Shl, BitAnd, Pow2;
    if r.bits < n {
      return 0, r;
    }
    var sgn := Shr(r.buffer, 31);
    var k := Shl(Low(r.buffer, 32 - n), n) + Shr(r.buffer, 32 - n);
    Rotated(r, n);
    AndMask(k, n);
    var low := BitAnd(k, Pow2(n) - 1);
    rest := Reservoir(k - low, r.bits - n);
    if n > 0 {
      SignBit(r, n);
    } else {
      ShrBound(r.buffer, 32, 0);
      OneValue();
    }
    v := low + if sgn == 0 then 1 - Pow2(n) else 0;
  }

  lemma OneValue()
    ensures Pow2(0) == 1
  {
  }

  // ---------- both at once ----------

  /** The entry for a window of nine bits: if a code and the value behind it fit into them, and the value into a byte, then
      value, run and total length; else zero. */
  function FastAcValue(lens: seq<nat>, values: seq<nat>, i: nat): int
    requires |lens| <= |values|
  {
    var sym := FastValue(lens, |lens|, i);
    if sym >= |lens| || sym >= 255 then 0
    else
      var run, mag, len := values[sym] / 16, values[sym] % 16, lens[sym];
      if mag == 0 || len + mag > FAST_BITS then 0
      else
        var v := Extended(Shr(Low(Shl(i, len), FAST_BITS), FAST_BITS - mag), mag);
        if -128 <= v <= 127 then v * 256 + run * 16 + (len + mag) else 0
  }

  predicate Bytes(values: seq<nat>)
  {
    |values| == 256 && forall i :: 0 <= i < 256 ==> values[i] < 256
  }

  method FastAcEntry(h: JHuffman, i: nat, ghost lens: seq<nat>) returns (e: int)
    requires h.Holds(lens) && i < FAST_SIZE
    ensures e == FastAcValue(lens, h.values[..], i)
  {
    hide Kraft, Sorted, Levels, Extended;
    var fast := h.fast[i];
    assert fast == h.fast[..][i] == FastValue(lens, |lens|, i);
    e := 0;
    if fast < 255 {
      FastValueHit(lens, |lens|, i);
      var rs := h.values[fast];
      var run, magbits, len := rs / 16, rs % 16, h.size[fast];
      assert len == h.size[..|lens|][fast] == lens[fast];
      if magbits != 0 && len + magbits <= FAST_BITS {
        var k: int := Shr(Low(Shl(i, len), FAST_BITS), FAST_BITS - magbits);
        var m := Pow2(magbits - 1);
        ExtendedIs(k, magbits);
        if k < m {
          k := k - Pow2(magbits) + 1;
        }
        if -128 <= k <= 127 {
          e := k * 256 + run * 16 + (len + magbits);
        }
      }
    } else {
      NotAbove(lens, |lens|, i);
    }
  }

  lemma ExtendedIs(v: nat, n: nat)
    requires n > 0
    ensures Extended(v, n) == if v < Pow2(n - 1) then v - Pow2(n) + 1 else v
  {
  }

  /** Fills the table that decodes short codes together with the value behind them. */
  method BuildFastAc(h: JHuffman, fastAc: array<int>, ghost lens: seq<nat>)
    requires h.Holds(lens) && fastAc.Length == FAST_SIZE && fastAc != h.delta
    modifies fastAc
    ensures forall i :: 0 <= i < FAST_SIZE ==> fastAc[i] == FastAcValue(lens, h.values[..], i)
  {
    hide FastAcValue, Kraft, Sorted, Levels, FastTable;
    ghost var values := h.values[..];
    for i := 0 to FAST_SIZE
      invariant h.Holds(lens) && h.values[..] == values
      invariant forall k :: 0 <= k < i ==> fastAc[k] == FastAcValue(lens, values, k)
    {
      fastAc[i] := FastAcEntry(h, i, lens);
    }
  }

  /** The magnitude bits in a nine-bit window are the top bits behind the code. */
  lemma Magnitude(r: Reservoir, len: nat, mag: nat)
    requires Wide(r) && len + mag <= FAST_BITS
    ensures Shr(Low(Shl(Shr(r.buffer, 23), len), FAST_BITS), FAST_BITS - mag) == Shr(Dropped(r, len).buffer, 32 - mag)
  {
    hide Low, Shr, Shl;
    var i := Shr(r.buffer, 23);
    LowOfShl(i, len, FAST_BITS);
    ShrOfShl(Low(i, FAST_BITS - len), len, FAST_BITS - mag);
    ShrOfLow(i, FAST_BITS - len, FAST_BITS - mag - len);
    ShrShr(r.buffer, 23, FAST_BITS - mag - len);
    ShrOfShl(Low(r.buffer, 32 - len), len, 32 - mag);
    ShrOfLow(r.buffer, 32 - len, 32 - mag - len);
  }

  lemma Parts(v: int, run: nat, s: nat)
    requires run < 16 && s < 16
    ensures var e := v * 256 + run * 16 + s; e / 256 == v && e / 16 % 16 == run && e % 16 == s
  {
    var e := v * 256 + run * 16 + s;
    assert e / 16 == v * 16 + run;
  }

  /** An entry that is not zero gives the same run, value and number of bits as decoding a symbol and then receiving its
      value, if that many bits are valid. */
  lemma FastAcAgrees(lens: seq<nat>, values: seq<nat>, r: Reservoir)
    requires Sorted(lens) && |lens| <= 256 && Bytes(values) && Wide(r)
    requires var e := FastAcValue(lens, values, Shr(r.buffer, 23)); e != 0 && e % 16 <= r.bits
    ensures var e := FastAcValue(lens, values, Shr(r.buffer, 23));
            var d := Decoded(lens, values, r);
            d.value >= 0 && d.value % 16 != 0 && d.value / 16 == e / 16 % 16 &&
            0 <= d.value % 16 <= d.rest.bits && 0 <= e % 16 <= 32 &&
            Received(d.rest, d.value % 16) == Reading(e / 256, Dropped(r, e % 16))
  {
    hide Shr, Low, Shl, SymbolOf, Extended, FastValue, Sorted, Dropped;
    var i, w := Shr(r.buffer, 23), Shr(r.buffer, 16);
    assert i == Shr(w, 7) by {
      ShrShr(r.buffer, 16, 7);
    }
    FastFound(lens, w);
    var sym := FastValue(lens, |lens|, i);
    var run, mag, len := values[sym] / 16, values[sym] % 16, lens[sym];
    Magnitude(r, len, mag);
    Parts(Extended(Shr(Low(Shl(i, len), FAST_BITS), FAST_BITS - mag), mag), run, len + mag);
    DroppedTwice(r, len, mag);
    DroppedBits(r, len);
  }

  lemma DroppedBits(r: Reservoir, n: nat)
    requires n <= 32
    ensures Dropped(r, n).bits == r.bits - n
  {
  }

  /** Which entries are not zero: exactly the short codes whose value fits with them into nine bits, and into a byte. */
  lemma FastAcFilled(lens: seq<nat>, values: seq<nat>, r: Reservoir)
    requires Sorted(lens) && |lens| <= 256 && Accelerable(lens) && Bytes(values) && Wide(r)
    ensures FastAcValue(lens, values, Shr(r.buffer, 23)) != 0 <==>
            var sym := SymbolOf(lens, Shr(r.buffer, 16));
            sym >= 0 && values[sym] % 16 != 0 && lens[sym] + values[sym] % 16 <= FAST_BITS &&
            -128 <= Extended(Shr(Dropped(r, lens[sym]).buffer, 32 - values[sym] % 16), values[sym] % 16) <= 127
  {
    hide Shr, Low, Shl, SymbolOf, Extended, FastValue, Sorted, Dropped, Limit;
    var i, w := Shr(r.buffer, 23), Shr(r.buffer, 16);
    assert i == Shr(w, 7) by {
      ShrShr(r.buffer, 16, 7);
    }
    var sym := FastValue(lens, |lens|, i);
    NotAbove(lens, |lens|, i);
    if sym < 255 {
      FastFound(lens, w);
      var mag := values[sym] % 16;
      if mag != 0 && lens[sym] + mag <= FAST_BITS {
        Magnitude(r, lens[sym], mag);
        var v := Extended(Shr(Low(Shl(i, lens[sym]), FAST_BITS), FAST_BITS - mag), mag);
        Parts(v, values[sym] / 16, lens[sym] + mag);
      }
    } else {
      FastMissed(lens, w);
      LongIfAny(lens, w);
    }
  }

  /** Behind the limit of the short codes only long ones match. */
  lemma LongIfAny(lens: seq<nat>, w: nat)
    requires Limit(lens, FAST_BITS) <= w && Sorted(lens)
    ensures SymbolOf(lens, w) >= 0 ==> lens[SymbolOf(lens, w)] > FAST_BITS
  {
    var sym := SymbolOf(lens, w);
    if sym >= 0 {
      MatchWithinLimits(lens, sym, w);
      if lens[sym] <= FAST_BITS {
        LimitMonotone(lens, lens[sym], FAST_BITS);
      }
    }
  }

  /** An entry spans at most nine bits. */
  lemma FastAcShort(lens: seq<nat>, values: seq<nat>, i: nat)
    requires Sorted(lens) && |lens| <= 256 && Bytes(values)
    ensures 0 <= FastAcValue(lens, values, i) % 16 <= FAST_BITS
  {
    hide Shr, Low, Shl, Extended, FastValue, Sorted;
    var sym := FastValue(lens, |lens|, i);
    if sym < |lens| && sym < 255 {
      var mag, len := values[sym] % 16, lens[sym];
      if mag != 0 && len + mag <= FAST_BITS {
        Parts(Extended(Shr(Low(Shl(i, len), FAST_BITS), FAST_BITS - mag), mag), values[sym] / 16, len + mag);
      }
    }
  }
}
