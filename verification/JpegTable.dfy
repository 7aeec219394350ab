/** The JPEG Huffman tables: codes in the order of Annex C of ITU-T T.81, a 9-bit lookup, and per-length limits. */
module JpegTable {
  import opened Bits
  import opened Canonical

  const FAST_BITS: nat := 9
  const FAST_SIZE: nat := 512

  // ---------- the list of code lengths ----------

  function Copies(s: nat, n: nat): (r: seq<nat>)
    ensures |r| == n && forall i :: 0 <= i < n ==> r[i] == s
  {
    seq(n, _ => s)
  }

  /** The lengths of all codes of at most n bits: counts[0] ones, counts[1] twos, and so on. */
  function SizeList(counts: seq<nat>, n: nat): seq<nat>
    requires n <= |counts|
  {
    if n == 0 then [] else SizeList(counts, n - 1) + Copies(n, counts[n - 1])
  }

  /** Lengths in increasing order, as the symbols of a JPEG table have them. */
  predicate Sorted(lens: seq<nat>)
  {
    (forall i :: 0 <= i < |lens| ==> 1 <= lens[i] <= 16) && (forall i, j :: 0 <= i <= j < |lens| ==> lens[i] <= lens[j])
  }

  lemma {:induction false} SizeListSorted(counts: seq<nat>, n: nat)
    requires n <= |counts| && n <= 16
    ensures Sorted(SizeList(counts, n)) && forall i :: 0 <= i < |SizeList(counts, n)| ==> SizeList(counts, n)[i] <= n
    decreases n
  {
    if n > 0 {
      SizeListSorted(counts, n - 1);
    }
  }

  /** In an increasing list all codes before place i are at most as long. */
  lemma {:induction false} CountBefore(lens: seq<nat>, s: nat, i: nat)
    requires Sorted(lens) && i <= |lens| && forall k :: 0 <= k < i ==> lens[k] <= s
    ensures CountUpTo(lens, s, i) == i
    decreases i
  {
    if i > 0 {
      CountBefore(lens, s, i - 1);
    }
  }

  lemma {:induction false} NoneAfter(lens: seq<nat>, s: nat, i: nat, n: nat)
    requires Sorted(lens) && i <= n <= |lens| && forall k :: i <= k < n ==> lens[k] > s
    ensures CountUpTo(lens, s, n) == CountUpTo(lens, s, i)
    decreases n
  {
    if i < n {
      NoneAfter(lens, s, i, n - 1);
    }
  }

  /** In an increasing list a symbol's sorted position is its own place. */
  lemma SortedIndex(lens: seq<nat>, i: nat)
    requires Sorted(lens) && i < |lens|
    ensures Index(lens, i) == i
  {
    var s := lens[i];
    FirstIndexIsCount(lens, s - 1);
    assert FirstIndex(lens, s) == CountUpTo(lens, s - 1, |lens|);
    NoneAfter(lens, s - 1, i, |lens|);
    CountUpToLevel(lens, s, i);
    CountBefore(lens, s, i);
  }

  /** Where the codes of s bits end and longer ones begin. */
  lemma LevelEnds(lens: seq<nat>, s: nat, k: nat)
    requires Sorted(lens) && k <= |lens| && s >= 1
    requires (forall i :: 0 <= i < k ==> lens[i] <= s) && (forall i :: k <= i < |lens| ==> lens[i] > s)
    ensures FirstIndex(lens, s + 1) == k
  {
    FirstIndexIsCount(lens, s);
    NoneAfter(lens, s, k, |lens|);
    CountBefore(lens, s, k);
  }

  // ---------- the fast table ----------

  /** Slot t starts with the code of sym. */
  predicate Hit(lens: seq<nat>, sym: nat, t: nat)
    requires sym < |lens|
  {
    1 <= lens[sym] <= FAST_BITS && Shr(t, FAST_BITS - lens[sym]) == Code(lens, sym)
  }

  /** Contents of slot t once the first n symbols are entered; 255 means none. */
  function FastValue(lens: seq<nat>, n: nat, t: nat): nat
    requires n <= |lens|
  {
    if n == 0 then 255 else if Hit(lens, n - 1, t) then n - 1 else FastValue(lens, n - 1, t)
  }

  ghost predicate FastTable(lens: seq<nat>, fast: seq<nat>, n: nat)
    requires n <= |lens|
  {
    |fast| == FAST_SIZE && forall t :: 0 <= t < FAST_SIZE ==> fast[t] == FastValue(lens, n, t)
  }

  lemma {:induction false} FastValueHit(lens: seq<nat>, n: nat, t: nat)
    requires n <= |lens| <= 256 && FastValue(lens, n, t) < 255
    ensures FastValue(lens, n, t) < n && Hit(lens, FastValue(lens, n, t), t)
    decreases n
  {
    if n > 0 && !Hit(lens, n - 1, t) {
      FastValueHit(lens, n - 1, t);
    }
  }

  lemma {:induction false} FastValueMiss(lens: seq<nat>, n: nat, t: nat, sym: nat)
    requires sym < n <= |lens| <= 256 && FastValue(lens, n, t) == 255 && Hit(lens, sym, t)
    ensures n == 256 && Hit(lens, 255, t)
    decreases n
  {
    if !Hit(lens, n - 1, t) {
      FastValueMiss(lens, n - 1, t, sym);
    }
  }

  /** A slot is hit by exactly the short codes that start the window above it. */
  lemma HitIsMatch(lens: seq<nat>, sym: nat, w: nat)
    requires sym < |lens| && 1 <= lens[sym] <= FAST_BITS
    ensures Hit(lens, sym, Shr(w, 7)) <==> Matches(lens, sym, w)
  {
    ShrShr(w, 7, FAST_BITS - lens[sym]);
  }

  /** The slots that start with a code are consecutive. */
  lemma ShrRange(t: nat, n: nat, c: nat)
    ensures Shr(t, n) == c <==> Shl(c, n) <= t < Shl(c, n) + Pow2(n)
  {
    ShrLess(t, c, n);
    ShrLess(t, c + 1, n);
    ShlAdd(c, 1, n);
    ShlIsMul(1, n);
  }

  /** The value 255 marks an empty slot, so the lookup can hold every short code only if the last of 256 codes is long. */
  predicate Accelerable(lens: seq<nat>)
  {
    |lens| == 256 ==> lens[255] > FAST_BITS
  }

  lemma {:induction false} SizeListGrows(counts: seq<nat>, m: nat, n: nat)
    requires m <= n <= |counts|
    ensures SizeList(counts, m) <= SizeList(counts, n)
    decreases n
  {
    if m < n {
      SizeListGrows(counts, m, n - 1);
    }
  }

  /** The tables of the levels below n. */
  ghost predicate Levels(lens: seq<nat>, delta: seq<int>, maxcode: seq<nat>, n: nat)
  {
    |delta| == 17 && |maxcode| == 18 && n <= 17 &&
    forall s :: 1 <= s < n ==> delta[s] == FirstIndex(lens, s) - FirstCode(lens, s) && maxcode[s] == Limit(lens, s)
  }

  /** The symbols before k have codes shorter than j bits, the others have not. */
  ghost predicate Parted(lens: seq<nat>, j: nat, k: nat)
  {
    k <= |lens| && (forall i :: 0 <= i < k ==> lens[i] < j) && (forall i :: k <= i < |lens| ==> lens[i] >= j)
  }

  /** The codes of the first n symbols, as 16-bit numbers. */
  ghost predicate Codes(lens: seq<nat>, code: seq<nat>, n: nat)
  {
    |code| == 256 && n <= |lens| && n <= 256 && forall i :: 0 <= i < n ==> code[i] == Low(Code(lens, i), 16)
  }

  class JHuffman {
    const fast: array<nat>
    const code: array<nat>
    const values: array<nat>
    const size: array<nat>
    const maxcode: array<nat>
    const delta: array<int>

    ghost predicate Shape()
    {
      fast.Length == FAST_SIZE && code.Length == 256 && values.Length == 256 && size.Length == 257 &&
      maxcode.Length == 18 && delta.Length == 17 &&
      fast != code && fast != values && fast != size && fast != maxcode &&
      code != values && code != size && code != maxcode && values != size && values != maxcode && size != maxcode
    }

    constructor ()
      ensures Shape() && fresh(fast) && fresh(code) && fresh(values) && fresh(size) && fresh(maxcode) && fresh(delta)
    {
      fast := new nat[FAST_SIZE];
      code := new nat[256];
      values := new nat[256];
      size := new nat[257];
      maxcode := new nat[18];
      delta := new int[17];
    }

    /** The table decodes the canonical code with these lengths. */
    ghost predicate Holds(lens: seq<nat>)
      reads fast, size, maxcode, delta
    {
      Shape() && Sorted(lens) && |lens| <= 256 && Kraft(lens) && size[..|lens|] == lens &&
      FastTable(lens, fast[..], |lens|) && Levels(lens, delta[..], maxcode[..], 17) && maxcode[17] == 0xffff_ffff
    }

    /** Hands out the codes length by length; fails when a used length runs past its 2^j codes. */
    method AssignCodes(ghost lens: seq<nat>) returns (ok: bool)
      requires Shape() && Sorted(lens) && |lens| <= 256 && size[..|lens|] == lens && size[|lens|] == 0
      modifies code, delta, maxcode
      ensures ok <==> Kraft(lens)
      ensures ok ==> Levels(lens, delta[..], maxcode[..], 17) && maxcode[17] == 0xffff_ffff
      ensures ok ==> Codes(lens, code[..], |lens|)
    {
      hide Codes, Levels, Fits, Parted, Sorted, Kraft, FirstIndex, FirstCode;
      LevelsStart(lens, delta[..], maxcode[..], code[..]);
      var c, k := 0, 0;
      for j := 1 to 17
        invariant size[..|lens|] == lens && size[|lens|] == 0
        invariant k == FirstIndex(lens, j) <= |lens| && c == FirstCode(lens, j)
        invariant Codes(lens, code[..], k) && Levels(lens, delta[..], maxcode[..], j) && Parted(lens, j, k)
        invariant forall s :: 1 <= s < j ==> Fits(lens, s)
      {
        ok, k, c := Level(lens, j, k, c);
        if !ok {
          SomeTooFull(lens, j);
          return;
        }
      }
      AllFit(lens);
      AllLevels(lens, delta[..], maxcode[..], k);
      maxcode[17] := 0xffff_ffff;
      ok := true;
    }

    /** One length: its delta, its codes, its limit. */
    method Level(ghost lens: seq<nat>, j: nat, k0: nat, c0: nat) returns (ok: bool, k: nat, c: nat)
      requires Shape() && Sorted(lens) && |lens| <= 256 && size[..|lens|] == lens && size[|lens|] == 0
      requires 1 <= j <= 16 && k0 == FirstIndex(lens, j) <= |lens| && c0 == FirstCode(lens, j)
      requires Codes(lens, code[..], k0) && Levels(lens, delta[..], maxcode[..], j) && Parted(lens, j, k0)
      modifies code, delta, maxcode
      ensures ok <==> Fits(lens, j)
      ensures k == FirstIndex(lens, j + 1) <= |lens| && Codes(lens, code[..], k) && Parted(lens, j + 1, k)
      ensures ok ==> c == FirstCode(lens, j + 1) && Levels(lens, delta[..], maxcode[..], j + 1)
    {
      hide Codes, Levels, Fits, Parted;
      ghost var delta0, maxcode0, size0 := delta[..], maxcode[..], size[..];
      assert |maxcode0| == 18 && |delta0| == 17;
      var used := size[k0] == j;
      delta[j] := k0 - c0;
      assert delta[..] == delta0[j := k0 - c0];
      k, c := AssignLevel(lens, j, k0, c0);
      if used && c - 1 >= Pow2(j) {
        LevelTooFull(lens, j, size0, k0, k);
        return false, k, c;
      }
      LevelFits(lens, j, size0, k0, k, c);
      maxcode[j] := Shl(c, 16 - j);
      assert maxcode[..] == maxcode0[j := Shl(c, 16 - j)];
      LevelsNext(lens, delta0, maxcode0, j, k0 - c0, Shl(c, 16 - j));
      c := 2 * c;
      ok := true;
    }

    /** Enters symbol i in every slot that starts with its code. */
    method FillSlots(i: nat, c: nat, m: nat)
      requires Shape() && c + m <= FAST_SIZE
      modifies fast
      ensures forall t :: 0 <= t < FAST_SIZE ==> fast[t] == if c <= t < c + m then i else old(fast[t])
    {
      var j := 0;
      while j < m
        invariant 0 <= j <= m
        invariant forall t :: 0 <= t < FAST_SIZE ==> fast[t] == if c <= t < c + j then i else old(fast[t])
      {
        fast[c + j] := i;
        j := j + 1;
      }
    }

    /** The lookup table: 255 everywhere, then symbol by symbol. */
    method FillFast(ghost lens: seq<nat>, n: nat)
      requires Shape() && Sorted(lens) && n == |lens| <= 256 && Kraft(lens)
      requires size[..n] == lens && Codes(lens, code[..], n)
      modifies fast
      ensures FastTable(lens, fast[..], n)
    {
      hide Sorted, Codes, Kraft, FastTable;
      ghost var codes := code[..];
      forall t | 0 <= t < FAST_SIZE {
        fast[t] := 255;
      }
      FastEmpty(lens, fast[..]);
      for i := 0 to n
        invariant FastTable(lens, fast[..], i) && code[..] == codes && size[..n] == lens
      {
        assert size[i] == size[..n][i] == lens[i];
        ghost var before := fast[..];
        var s := size[i];
        if s <= FAST_BITS {
          ShortCode(lens, codes, i);
          assert code[i] == codes[i];
          var c := Shl(code[i], FAST_BITS - s);
          var m := Pow2(FAST_BITS - s);
          FillSlots(i, c, m);
        }
        FastNext(lens, before, fast[..], i);
      }
    }

    /** Builds the tables from the number of codes of each length. It accepts exactly the counts of at most 256 codes that
        satisfy Kraft's inequality. */
    method Build(counts: seq<nat>) returns (ok: bool)
      requires Shape() && |counts| == 16
      modifies fast, code, size, maxcode, delta
      ensures ok <==> |SizeList(counts, 16)| <= 256 && Kraft(SizeList(counts, 16))
      ensures ok ==> Holds(SizeList(counts, 16))
    {
      hide Sorted, Codes, Kraft, FastTable, Levels, SizeList;
      SizeListSorted(counts, 16);
      ghost var lens := SizeList(counts, 16);
      var k: nat;
      ok, k := BuildSizes(counts);
      if !ok {
        return;
      }
      ok := AssignCodes(lens);
      if !ok {
        return;
      }
      FillFast(lens, k);
    }

    /** Lists the length of every code, in increasing order; fails if there are more than 256. */
    method BuildSizes(counts: seq<nat>) returns (ok: bool, k: nat)
      requires Shape() && |counts| == 16
      modifies size
      ensures ok <==> |SizeList(counts, 16)| <= 256
      ensures ok ==> k == |SizeList(counts, 16)| && size[..k] == SizeList(counts, 16) && size[k] == 0
    {
      k := 0;
      var i := 0;
      while i < 16
        invariant 0 <= i <= 16 && k <= 256 && size[..k] == SizeList(counts, i)
      {
        var j := 0;
        while j < counts[i]
          invariant 0 <= j <= counts[i] && k <= 256 && size[..k] == SizeList(counts, i) + Copies(i + 1, j)
        {
          size[k] := i + 1;
          k := k + 1;
          assert size[..k] == SizeList(counts, i) + Copies(i + 1, j + 1);
          if k >= 257 {
            TooMany(counts, i, j + 1);
            return false, k;
          }
          j := j + 1;
        }
        i := i + 1;
      }
      size[k] := 0;
      return true, k;
    }

    lemma TooMany(counts: seq<nat>, i: nat, j: nat)
      requires |counts| == 16 && i < 16 && j <= counts[i] && |SizeList(counts, i)| + j > 256
      ensures |SizeList(counts, 16)| > 256
    {
      SizeListGrows(counts, i + 1, 16);
    }

    /** The codes of one length, from symbol k on. */
    method AssignLevel(ghost lens: seq<nat>, j: nat, k0: nat, code0: nat) returns (k: nat, c: nat)
      requires Shape() && Sorted(lens) && |lens| <= 256 && size[..|lens|] == lens && size[|lens|] == 0
      requires 1 <= j <= 16 && k0 == FirstIndex(lens, j) <= |lens| && code0 == FirstCode(lens, j)
      requires Codes(lens, code[..], k0) && Parted(lens, j, k0)
      modifies code
      ensures k0 <= k <= |lens| && Codes(lens, code[..], k) && c == EndCode(lens, j) && k == FirstIndex(lens, j + 1)
      ensures Parted(lens, j + 1, k)
      ensures Used(lens, j) == k - k0
    {
      hide Sorted, Codes;
      k, c := k0, code0;
      while size[k] == j
        invariant k0 <= k <= |lens| && c == code0 + (k - k0) && Codes(lens, code[..], k)
        invariant forall i :: k0 <= i < k ==> lens[i] == j
        decreases |lens| - k
      {
        assert size[k] == if k < |lens| then lens[k] else 0 by {
          assert k < |lens| ==> size[..|lens|][k] == lens[k];
        }
        CodeNext(lens, code[..], k, j, c);
        code[k] := Low(c, 16);
        k, c := k + 1, c + 1;
      }
      assert k < |lens| ==> size[..|lens|][k] == lens[k];
      Beyond(lens, j, k);
      LevelDone(lens, j, k);
    }
  }

  lemma FastEmpty(lens: seq<nat>, fast: seq<nat>)
    requires |fast| == FAST_SIZE && forall t :: 0 <= t < FAST_SIZE ==> fast[t] == 255
    ensures FastTable(lens, fast, 0)
  {
  }

  lemma ShortCode(lens: seq<nat>, code: seq<nat>, i: nat)
    requires Sorted(lens) && |lens| <= 256 && Kraft(lens) && Codes(lens, code, |lens|) && i < |lens| && lens[i] <= FAST_BITS
    ensures 1 <= lens[i] && code[i] == Code(lens, i)
    ensures Shl(code[i], FAST_BITS - lens[i]) + Pow2(FAST_BITS - lens[i]) <= FAST_SIZE
  {
    hide Code, Kraft, Shl, Low, Pow2;
    var s := lens[i];
    CodeFits(lens, i);
    Pow2Monotone(s, 16);
    LowIs(Code(lens, i), 16);
    ShlAdd(Code(lens, i), 1, FAST_BITS - s);
    ShlIsMul(1, FAST_BITS - s);
    EndFromLimit(Code(lens, i) + 1, s, FAST_BITS - s);
    Pow2Values();
  }

  lemma FastNext(lens: seq<nat>, before: seq<nat>, now: seq<nat>, i: nat)
    requires Sorted(lens) && i < |lens| && FastTable(lens, before, i) && |now| == FAST_SIZE
    requires forall t :: 0 <= t < FAST_SIZE ==>
               now[t] == if lens[i] <= FAST_BITS &&
                            Shl(Code(lens, i), FAST_BITS - lens[i]) <= t
                              < Shl(Code(lens, i), FAST_BITS - lens[i]) + Pow2(FAST_BITS - lens[i])
                         then i else before[t]
    ensures FastTable(lens, now, i + 1)
  {
    forall t | 0 <= t < FAST_SIZE
      ensures now[t] == FastValue(lens, i + 1, t)
    {
      if lens[i] <= FAST_BITS {
        ShrRange(t, FAST_BITS - lens[i], Code(lens, i));
      }
    }
  }

  lemma LevelsStart(lens: seq<nat>, delta: seq<int>, maxcode: seq<nat>, code: seq<nat>)
    requires Sorted(lens) && |delta| == 17 && |maxcode| == 18 && |code| == 256
    ensures Levels(lens, delta, maxcode, 1) && Codes(lens, code, 0)
    ensures FirstIndex(lens, 1) == 0 && FirstCode(lens, 1) == 0
    ensures Parted(lens, 1, 0)
  {
  }

  lemma LevelTooFull(lens: seq<nat>, j: nat, size: seq<nat>, k0: nat, k: nat)
    requires Used(lens, j) == k - k0 && k0 <= k && 1 <= j <= 16
    requires |size| == 257 && |lens| <= 256 && size[..|lens|] == lens && size[|lens|] == 0 && k0 <= |lens| && size[k0] == j
    requires EndCode(lens, j) > Pow2(j) && k0 == FirstIndex(lens, j) && Sorted(lens)
    ensures !Fits(lens, j)
  {
    assert k0 < |lens| && lens[k0] == size[..|lens|][k0] == j;
    CountMonotone(lens, j, k0 + 1, |lens|);
  }

  lemma LevelFits(lens: seq<nat>, j: nat, size: seq<nat>, k0: nat, k: nat, c: nat)
    requires Used(lens, j) == k - k0 && k0 <= k && 1 <= j <= 16 && c == EndCode(lens, j)
    requires |size| == 257 && |lens| <= 256 && size[..|lens|] == lens && k0 <= k <= |lens|
    requires size[k0] == j ==> c - 1 < Pow2(j)
    requires Parted(lens, j, k0) && Parted(lens, j + 1, k)
    ensures Fits(lens, j)
  {
    if k > k0 {
      assert size[..|lens|][k0] == lens[k0] == j;
    }
  }

  lemma LevelsNext(lens: seq<nat>, delta: seq<int>, maxcode: seq<nat>, j: nat, d: int, m: nat)
    requires 1 <= j <= 16 && Levels(lens, delta, maxcode, j)
    requires d == FirstIndex(lens, j) - FirstCode(lens, j) && m == Limit(lens, j)
    ensures Levels(lens, delta[j := d], maxcode[j := m], j + 1)
  {
  }

  lemma AllLevels(lens: seq<nat>, delta: seq<int>, maxcode: seq<nat>, k: nat)
    requires Levels(lens, delta, maxcode, 17) && k == FirstIndex(lens, 17) && Sorted(lens)
    ensures k == |lens| && Levels(lens, delta, maxcode[17 := 0xffff_ffff], 17)
  {
    FirstIndexIsCount(lens, 16);
    CountBefore(lens, 16, |lens|);
  }

  lemma SomeTooFull(lens: seq<nat>, j: nat)
    requires 1 <= j <= 16 && !Fits(lens, j) && Sorted(lens)
    ensures !Kraft(lens)
  {
    FitsIsKraft(lens, 16);
  }

  lemma AllFit(lens: seq<nat>)
    requires Sorted(lens) && forall s :: 1 <= s < 17 ==> Fits(lens, s)
    ensures Kraft(lens)
  {
    FitsIsKraft(lens, 16);
  }

  lemma Beyond(lens: seq<nat>, j: nat, k: nat)
    requires Sorted(lens) && k <= |lens| && (k < |lens| ==> lens[k] > j)
    ensures forall i :: k <= i < |lens| ==> lens[i] > j
  {
  }

  lemma CodeNext(lens: seq<nat>, code: seq<nat>, k: nat, j: nat, c: nat)
    requires Sorted(lens) && k < |lens| <= 256 && lens[k] == j && Codes(lens, code, k)
    requires c == FirstCode(lens, j) + (k - FirstIndex(lens, j))
    ensures c == Code(lens, k) && Codes(lens, code[k := Low(c, 16)], k + 1)
  {
    SortedIndex(lens, k);
  }

  lemma LevelDone(lens: seq<nat>, j: nat, k: nat)
    requires Sorted(lens) && 1 <= j && k <= |lens|
    requires (forall i :: 0 <= i < k ==> lens[i] <= j) && (forall i :: k <= i < |lens| ==> lens[i] > j)
    ensures k == FirstIndex(lens, j + 1)
    ensures k == FirstIndex(lens, j) + Used(lens, j)
  {
    LevelEnds(lens, j, k);
  }
}
