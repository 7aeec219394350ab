/** The DEFLATE Huffman decoder tables: a 9-bit lookup for short codes and per-length limits for long ones. */
module HuffmanTable {
  import opened Bits
  import opened Canonical

  const ZFAST_BITS: nat := 9
  const ZFAST_SIZE: nat := 512
  const NUM_SYMBOLS: nat := 288

  /** What a caller may pass: at most 288 lengths of at most 15 bits. */
  ghost predicate CodeLengths(lens: seq<nat>)
  {
    |lens| <= NUM_SYMBOLS && forall i :: 0 <= i < |lens| ==> lens[i] <= 15
  }

  // ---------- the fast table ----------

  /** Lookup index j ends in the bit-reversed code of sym. */
  predicate FastHit(lens: seq<nat>, sym: nat, j: nat)
    requires sym < |lens|
  {
    1 <= lens[sym] <= ZFAST_BITS && Low(j, lens[sym]) == Reverse(Code(lens, sym), lens[sym])
  }

  /** A table entry packs the code length above the symbol. */
  function Entry(s: nat, sym: nat): nat
  {
    s * 512 + sym
  }

  /** Contents of lookup slot j once the first n symbols are entered. */
  function FastValue(lens: seq<nat>, n: nat, j: nat): nat
    requires n <= |lens|
  {
    if n == 0 then 0
    else if FastHit(lens, n - 1, j) then Entry(lens[n - 1], n - 1)
    else FastValue(lens, n - 1, j)
  }

  ghost predicate FastTable(lens: seq<nat>, fast: seq<nat>, n: nat)
    requires n <= |lens|
  {
    |fast| == ZFAST_SIZE && forall j :: 0 <= j < ZFAST_SIZE ==> fast[j] == FastValue(lens, n, j)
  }

  lemma {:induction false} FastValueHit(lens: seq<nat>, n: nat, j: nat) returns (sym: nat)
    requires n <= |lens| && FastValue(lens, n, j) != 0
    ensures sym < n && FastHit(lens, sym, j) && FastValue(lens, n, j) == Entry(lens[sym], sym)
  {
    if FastHit(lens, n - 1, j) {
      sym := n - 1;
    } else {
      sym := FastValueHit(lens, n - 1, j);
    }
  }

  lemma {:induction false} FastValueMiss(lens: seq<nat>, n: nat, j: nat, sym: nat)
    requires sym < n <= |lens| && FastValue(lens, n, j) == 0
    ensures !FastHit(lens, sym, j)
  {
    if sym < n - 1 {
      FastValueMiss(lens, n - 1, j, sym);
    }
  }

  // ---------- the tables for long codes ----------

  ghost predicate LevelTable(lens: seq<nat>, firstcode: seq<nat>, firstsymbol: seq<nat>, maxcode: seq<nat>, n: nat)
    requires n <= 16
  {
    |firstcode| == 16 && |firstsymbol| == 16 && |maxcode| == 17 &&
    forall s :: 1 <= s < n ==>
      firstcode[s] == FirstCode(lens, s) && firstsymbol[s] == FirstIndex(lens, s) && maxcode[s] == Limit(lens, s)
  }

  ghost predicate SortedTable(lens: seq<nat>, size: seq<nat>, value: seq<nat>, n: nat)
    requires n <= |lens|
  {
    |size| == NUM_SYMBOLS && |value| == NUM_SYMBOLS &&
    forall sym :: 0 <= sym < n && lens[sym] > 0 ==>
      Index(lens, sym) < NUM_SYMBOLS && size[Index(lens, sym)] == lens[sym] && value[Index(lens, sym)] == sym
  }

  lemma SortedTableStep(lens: seq<nat>, size: seq<nat>, value: seq<nat>, n: nat)
    requires n < |lens| <= NUM_SYMBOLS && SortedTable(lens, size, value, n)
    ensures lens[n] == 0 ==> SortedTable(lens, size, value, n + 1)
    ensures lens[n] > 0 ==> Index(lens, n) < NUM_SYMBOLS
    ensures lens[n] > 0 ==> SortedTable(lens, size[Index(lens, n) := lens[n]], value[Index(lens, n) := n], n + 1)
  {
    if lens[n] > 0 {
      IndexBound(lens, n);
      forall sym | 0 <= sym < n && lens[sym] > 0
        ensures Index(lens, sym) != Index(lens, n)
      {
        IndexInjective(lens, sym, n);
      }
    }
  }

  lemma LowStep(j: nat, s: nat)
    ensures Low(j + Pow2(s), s) == Low(j, s)
  {
    ShiftAndLow(j, s);
    ShlAdd(Shr(j, s), 1, s);
    ShlIsMul(1, s);
    Join(Shr(j, s), Low(j, s), s);
    Join(Shr(j, s) + 1, Low(j, s), s);
  }

  lemma {:induction false} ShiftAndLow(j: nat, s: nat)
    ensures j == Shl(Shr(j, s), s) + Low(j, s)
  {
    if s > 0 {
      ShiftAndLow(j / 2, s - 1);
    }
  }

  lemma {:induction false} ShlGap(a: nat, b: nat, s: nat)
    requires Shl(a, s) < Shl(b, s)
    ensures Shl(a, s) + Pow2(s) <= Shl(b, s)
  {
    if s > 0 {
      ShlGap(a, b, s - 1);
    }
  }

  /** Slots with the same low s bits are at least 2^s apart. */
  lemma LowGap(j: nat, t: nat, s: nat)
    requires j < t && Low(t, s) == Low(j, s)
    ensures j + Pow2(s) <= t
  {
    ShiftAndLow(j, s);
    ShiftAndLow(t, s);
    ShlGap(Shr(j, s), Shr(t, s), s);
  }

  lemma {:induction false} LowAtMost(t: nat, s: nat)
    ensures Low(t, s) <= t
  {
    if s > 0 {
      LowAtMost(t / 2, s - 1);
    }
  }

  class ZHuffman {
    const fast: array<nat>
    const firstcode: array<nat>
    const maxcode: array<nat>
    const firstsymbol: array<nat>
    const size: array<nat>
    const value: array<nat>

    ghost function Arrays(): set<object>
    {
      {fast, firstcode, maxcode, firstsymbol, size, value}
    }

    ghost predicate Shape()
    {
      fast.Length == ZFAST_SIZE && firstcode.Length == 16 && maxcode.Length == 17 && firstsymbol.Length == 16 &&
      size.Length == NUM_SYMBOLS && value.Length == NUM_SYMBOLS &&
      fast != firstcode && fast != maxcode && fast != firstsymbol && fast != size && fast != value &&
      firstcode != maxcode && firstcode != firstsymbol && firstcode != size && firstcode != value &&
      maxcode != firstsymbol && maxcode != size && maxcode != value &&
      firstsymbol != size && firstsymbol != value && size != value
    }

    /** The tables decode exactly the canonical code with these lengths. */
    ghost predicate Holds(lens: seq<nat>)
      reads Arrays()
    {
      Shape() && CodeLengths(lens) && Kraft(lens) &&
      FastTable(lens, fast[..], |lens|) &&
      LevelTable(lens, firstcode[..], firstsymbol[..], maxcode[..], 16) && maxcode[16] == 0x10000 &&
      SortedTable(lens, size[..], value[..], |lens|)
    }

    constructor ()
      ensures Shape() && fresh(Arrays())
    {
      fast := new nat[ZFAST_SIZE];
      firstcode := new nat[16];
      maxcode := new nat[17];
      firstsymbol := new nat[16];
      size := new nat[NUM_SYMBOLS];
      value := new nat[NUM_SYMBOLS];
    }

    /** Enter one code in every lookup slot whose low s bits spell it. */
    method FillFast(s: nat, rev: nat, fastv: nat)
      requires fast.Length == ZFAST_SIZE && s <= ZFAST_BITS && rev < Pow2(s)
      modifies fast
      ensures forall t :: 0 <= t < ZFAST_SIZE ==> fast[t] == if Low(t, s) == rev then fastv else old(fast[t])
    {
      var j := rev;
      LowIs(rev, s);
      forall t | 0 <= t < rev
        ensures Low(t, s) != rev
      {
        LowAtMost(t, s);
      }
      while j < ZFAST_SIZE
        invariant Low(j, s) == rev
        invariant forall t :: 0 <= t < ZFAST_SIZE ==>
          fast[t] == if t < j && Low(t, s) == rev then fastv else old(fast[t])
      {
        fast[j] := fastv;
        forall t | j < t < ZFAST_SIZE && Low(t, s) == rev
          ensures j + Pow2(s) <= t
        {
          LowGap(j, t, s);
        }
        LowStep(j, s);
        j := j + Pow2(s);
      }
    }

    /** Count the symbols of each length; length 0 is not a code. */
    method CountSizes(sizelist: seq<nat>) returns (sizes: array<nat>)
      requires CodeLengths(sizelist)
      ensures fresh(sizes) && sizes.Length == 17
      ensures forall s :: 0 <= s < 17 ==> sizes[s] == Used(sizelist, s)
    {
      sizes := new nat[17](_ => 0);
      for i := 0 to |sizelist|
        invariant forall s :: 0 <= s < 17 ==> sizes[s] == Count(sizelist, s, i)
      {
        sizes[sizelist[i]] := sizes[sizelist[i]] + 1;
      }
      sizes[0] := 0;
    }

    /** Record the first code, first sorted position and limit of length i. */
    method SetLevel(i: nat, code: nat, k: nat, n: nat, next_code: array<nat>)
      requires Shape() && next_code.Length == 16 && next_code !in Arrays() && 1 <= i < 16
      modifies firstcode, firstsymbol, maxcode, next_code
      ensures next_code[..] == old(next_code[..])[i := code]
      ensures firstcode[..] == old(firstcode[..])[i := Low(code, 16)]
      ensures firstsymbol[..] == old(firstsymbol[..])[i := Low(k, 16)]
      ensures maxcode[..] == old(maxcode[..])[i := Shl(code + n, 16 - i)]
    {
      next_code[i] := code;
      firstcode[i] := Low(code, 16);
      firstsymbol[i] := Low(k, 16);
      maxcode[i] := Shl(code + n, 16 - i);
    }

    /** Hand out the first code of each length in turn; fails when a used length runs past its 2^s codes. */
    method AssignCodes(sizelist: seq<nat>, sizes: array<nat>, next_code: array<nat>) returns (ok: bool)
      requires Shape() && CodeLengths(sizelist) && sizes.Length == 17 && next_code.Length == 16
      requires forall s :: 0 <= s < 17 ==> sizes[s] == Used(sizelist, s)
      requires next_code !in Arrays() && sizes !in Arrays() && sizes != next_code
      modifies firstcode, firstsymbol, maxcode, next_code
      ensures ok <==> forall s :: 1 <= s <= 15 ==> Fits(sizelist, s)
      ensures ok ==> LevelTable(sizelist, firstcode[..], firstsymbol[..], maxcode[..], 16)
      ensures ok ==> NextCodes(sizelist, next_code[..], 0)
    {
      hide Levels, Fits, LevelTable, NextCodes, Shl, Low;
      var code, k := 0, 0;
      NoLevels(sizelist, firstcode[..], firstsymbol[..], maxcode[..], next_code[..]);
      for i := 1 to 16
        invariant forall s :: 1 <= s < i ==> Fits(sizelist, s)
        invariant code == FirstCode(sizelist, i) && k == FirstIndex(sizelist, i)
        invariant Levels(sizelist, firstcode[..], firstsymbol[..], maxcode[..], next_code[..], i)
      {
        if sizes[i] > 0 && code + sizes[i] - 1 >= Shl(1, i) {
          NotFits(sizelist, i);
          return false;
        }
        FitsNow(sizelist, i);
        CodeRange(sizelist, i);
        LevelsExtend(sizelist, firstcode[..], firstsymbol[..], maxcode[..], next_code[..], i,
                     code, k, Shl(code + sizes[i], 16 - i));
        SetLevel(i, code, k, sizes[i], next_code);
        code := 2 * (code + sizes[i]);
        k := k + sizes[i];
      }
      LevelsDone(sizelist, firstcode[..], firstsymbol[..], maxcode[..], next_code[..]);
      ok := true;
    }

    /** Enter symbol i of length s at its sorted position. */
    method PlaceSymbol(i: nat, s: nat, c: nat)
      requires Shape() && c < NUM_SYMBOLS
      modifies size, value
      ensures size[..] == old(size[..])[c := s]
      ensures value[..] == old(value[..])[c := i]
    {
      size[c] := s;
      value[c] := i;
    }

    /** Enter the code of symbol i in the lookup table when it is short. */
    method PlaceFast(sizelist: seq<nat>, i: nat, code: nat)
      requires Shape() && CodeLengths(sizelist) && Kraft(sizelist) && i < |sizelist| && sizelist[i] > 0
      requires code == Code(sizelist, i)
      requires FastTable(sizelist, fast[..], i)
      modifies fast
      ensures FastTable(sizelist, fast[..], i + 1)
    {
      var s := sizelist[i];
      var fastv := Low(BitOr(i, Shl(s, 9)), 16);
      EntryBits(s, i);
      if s <= ZFAST_BITS {
        CodeFits(sizelist, i);
        BitReverseIsReverse(code, s);
        FillFast(s, BitReverse(code, s), fastv);
      }
    }

    /** Enter every symbol in the sorted tables and, when its code is short, in the lookup table. */
    method FillSymbols(sizelist: seq<nat>, next_code: array<nat>)
      requires Shape() && CodeLengths(sizelist) && Kraft(sizelist) && next_code.Length == 16
      requires next_code !in Arrays()
      requires LevelTable(sizelist, firstcode[..], firstsymbol[..], maxcode[..], 16)
      requires NextCodes(sizelist, next_code[..], 0)
      requires FastTable(sizelist, fast[..], 0)
      modifies fast, size, value, next_code
      ensures FastTable(sizelist, fast[..], |sizelist|)
      ensures SortedTable(sizelist, size[..], value[..], |sizelist|)
    {
      ghost var fc, fs := firstcode[..], firstsymbol[..];
      for i := 0 to |sizelist|
        invariant firstcode[..] == fc && firstsymbol[..] == fs
        invariant FastTable(sizelist, fast[..], i)
        invariant SortedTable(sizelist, size[..], value[..], i)
        invariant NextCodes(sizelist, next_code[..], i)
      {
        SortedTableStep(sizelist, size[..], value[..], i);
        NextCodesStep(sizelist, next_code[..], i);
        var s := sizelist[i];
        if s > 0 {
          var c := next_code[s] - firstcode[s] + firstsymbol[s];
          PlaceSymbol(i, s, c);
          PlaceFast(sizelist, i, next_code[s]);
          next_code[s] := next_code[s] + 1;
        }
      }
    }

    /** Accepts exactly the code lengths that satisfy Kraft's inequality. */
    method Build(sizelist: seq<nat>) returns (ok: bool)
      requires Shape() && CodeLengths(sizelist)
      modifies Arrays()
      ensures ok <==> Kraft(sizelist)
      ensures ok ==> Holds(sizelist)
    {
      hide LevelTable, NextCodes, FastTable, SortedTable, Fits, Kraft;
      FitsIsKraft(sizelist, 15);
      var sizes := CountSizes(sizelist);
      forall j | 0 <= j < ZFAST_SIZE {
        fast[j] := 0;
      }
      for i := 1 to 16
        invariant forall j :: 0 <= j < ZFAST_SIZE ==> fast[j] == 0
        invariant forall s :: 0 <= s < 17 ==> sizes[s] == Used(sizelist, s)
      {
        if sizes[i] > Shl(1, i) {
          NotFits(sizelist, i);
          return false;
        }
      }
      EmptyFast(sizelist, fast[..]);
      var next_code := new nat[16];
      ok := AssignCodes(sizelist, sizes, next_code);
      if ok {
        LevelTop(sizelist, firstcode[..], firstsymbol[..], maxcode[..], 0x10000);
        ghost var below := maxcode[..];
        maxcode[16] := 0x10000;
        assert maxcode[..] == below[16 := 0x10000];
        FillSymbols(sizelist, next_code);
      }
    }
  }

  /** State of code assignment before length n is handled. */
  ghost predicate Levels(lens: seq<nat>, fc: seq<nat>, fs: seq<nat>, mc: seq<nat>, nc: seq<nat>, n: nat)
    requires n <= 16
  {
    LevelTable(lens, fc, fs, mc, n) && |nc| == 16 &&
    forall s :: 1 <= s < n ==> Fits(lens, s) && nc[s] == FirstCode(lens, s)
  }

  lemma LevelTop(lens: seq<nat>, fc: seq<nat>, fs: seq<nat>, mc: seq<nat>, top: nat)
    requires LevelTable(lens, fc, fs, mc, 16)
    ensures LevelTable(lens, fc, fs, mc[16 := top], 16)
  {
  }

  lemma EmptyFast(lens: seq<nat>, fast: seq<nat>)
    requires |fast| == ZFAST_SIZE && forall j :: 0 <= j < ZFAST_SIZE ==> fast[j] == 0
    ensures FastTable(lens, fast, 0)
  {
  }

  lemma NoLevels(lens: seq<nat>, fc: seq<nat>, fs: seq<nat>, mc: seq<nat>, nc: seq<nat>)
    requires |fc| == 16 && |fs| == 16 && |mc| == 17 && |nc| == 16
    ensures Levels(lens, fc, fs, mc, nc, 1) && FirstCode(lens, 1) == 0 && FirstIndex(lens, 1) == 0
  {
  }

  lemma LevelsExtend(lens: seq<nat>, fc: seq<nat>, fs: seq<nat>, mc: seq<nat>, nc: seq<nat>, i: nat,
                     f: nat, x: nat, m: nat)
    requires 1 <= i <= 15 && Levels(lens, fc, fs, mc, nc, i) && Fits(lens, i)
    requires f == FirstCode(lens, i) && x == FirstIndex(lens, i) && m == Limit(lens, i)
    ensures Levels(lens, fc[i := f], fs[i := x], mc[i := m], nc[i := f], i + 1)
  {
  }

  lemma LevelsDone(lens: seq<nat>, fc: seq<nat>, fs: seq<nat>, mc: seq<nat>, nc: seq<nat>)
    requires Levels(lens, fc, fs, mc, nc, 16)
    ensures NextCodes(lens, nc, 0) && LevelTable(lens, fc, fs, mc, 16)
    ensures forall s :: 1 <= s <= 15 ==> Fits(lens, s)
  {
  }

  /** The next free code of each length once the first n symbols have theirs. */
  ghost predicate NextCodes(lens: seq<nat>, nc: seq<nat>, n: nat)
    requires n <= |lens|
  {
    |nc| == 16 && forall s :: 1 <= s < 16 ==> nc[s] == FirstCode(lens, s) + Count(lens, s, n)
  }

  lemma NextCodesStep(lens: seq<nat>, nc: seq<nat>, i: nat)
    requires CodeLengths(lens) && i < |lens| && NextCodes(lens, nc, i)
    ensures lens[i] == 0 ==> NextCodes(lens, nc, i + 1)
    ensures lens[i] > 0 ==> nc[lens[i]] == Code(lens, i)
    ensures lens[i] > 0 ==> NextCodes(lens, nc[lens[i] := nc[lens[i]] + 1], i + 1)
  {
  }

  lemma NotFits(lens: seq<nat>, s: nat)
    requires Used(lens, s) > 0 && (FirstCode(lens, s) + Used(lens, s) > Shl(1, s) || Used(lens, s) > Shl(1, s))
    ensures !Fits(lens, s)
  {
    ShlIsMul(1, s);
  }

  lemma FitsNow(lens: seq<nat>, s: nat)
    requires Used(lens, s) > 0 ==> FirstCode(lens, s) + Used(lens, s) <= Shl(1, s)
    ensures Fits(lens, s)
  {
    ShlIsMul(1, s);
  }

  lemma CodeRange(lens: seq<nat>, s: nat)
    requires CodeLengths(lens) && 1 <= s <= 15 && forall t :: 1 <= t < s ==> Fits(lens, t)
    ensures Low(FirstCode(lens, s), 16) == FirstCode(lens, s)
    ensures Low(FirstIndex(lens, s), 16) == FirstIndex(lens, s)
  {
    FitsBoundsLimit(lens, s - 1);
    EndFromLimit(EndCode(lens, s - 1), s - 1, 17 - s);
    Pow2Monotone(s, 15);
    Pow2Values();
    FirstIndexIsCount(lens, s - 1);
    LowIs(FirstCode(lens, s), 16);
    LowIs(FirstIndex(lens, s), 16);
  }

  lemma EntryBits(s: nat, i: nat)
    requires s <= 15 && i < 512
    ensures Low(BitOr(i, Shl(s, 9)), 16) == Entry(s, i)
  {
    Pow2Values();
    OrShifted(i, s, 9);
    ShlIsMul(s, 9);
    LowIs(Entry(s, i), 16);
  }
}
