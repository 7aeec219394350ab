/** Canonical prefix codes: codes of one length are consecutive in symbol order, and each length starts
    where the shorter ones ended (section 3.2.2 of RFC 1951; Annex C of ITU-T T.81). */
module Canonical {
  import opened Bits

  /** How many of the first n symbols have length s; 0 means that a symbol has no code. */
  function Count(lens: seq<nat>, s: nat, n: nat): (c: nat)
    requires n <= |lens|
    ensures c <= n
  {
    if n == 0 then 0 else Count(lens, s, n - 1) + (if lens[n - 1] == s then 1 else 0)
  }

  function Used(lens: seq<nat>, s: nat): nat
  {
    if s == 0 then 0 else Count(lens, s, |lens|)
  }

  function FirstCode(lens: seq<nat>, s: nat): nat
  {
    if s == 0 then 0 else 2 * (FirstCode(lens, s - 1) + Used(lens, s - 1))
  }

  /** One more than the last code of length s. */
  function EndCode(lens: seq<nat>, s: nat): nat
  {
    FirstCode(lens, s) + Used(lens, s)
  }

  /** Position of the first symbol of length s when symbols are sorted by length. */
  function FirstIndex(lens: seq<nat>, s: nat): nat
  {
    if s == 0 then 0 else FirstIndex(lens, s - 1) + Used(lens, s - 1)
  }

  function Rank(lens: seq<nat>, sym: nat): nat
    requires sym < |lens|
  {
    Count(lens, lens[sym], sym)
  }

  function Code(lens: seq<nat>, sym: nat): nat
    requires sym < |lens|
  {
    FirstCode(lens, lens[sym]) + Rank(lens, sym)
  }

  function Index(lens: seq<nat>, sym: nat): nat
    requires sym < |lens|
  {
    FirstIndex(lens, lens[sym]) + Rank(lens, sym)
  }

  /** EndCode(s) shifted up to 16 bits: windows below it start with a code of at most s bits. */
  function Limit(lens: seq<nat>, s: nat): nat
    requires s <= 16
  {
    Shl(EndCode(lens, s), 16 - s)
  }

  /** The code of sym is a prefix of the 16-bit window k. */
  ghost predicate Matches(lens: seq<nat>, sym: nat, k: nat)
  {
    sym < |lens| && 1 <= lens[sym] <= 16 && Shr(k, 16 - lens[sym]) == Code(lens, sym)
  }

  // ---------- the Kraft sum ----------

  /** Sum of 2^(16 - length) over the first n symbols whose length is between 1 and s. */
  function KraftSum(lens: seq<nat>, s: nat, n: nat): nat
    requires n <= |lens| && s <= 16
  {
    if n == 0 then 0
    else KraftSum(lens, s, n - 1) + (if 1 <= lens[n - 1] <= s then Pow2(16 - lens[n - 1]) else 0)
  }

  /** Kraft's inequality: the sum of 2^-length over all codes is at most 1. */
  predicate Kraft(lens: seq<nat>)
  {
    KraftSum(lens, 16, |lens|) <= Pow2(16)
  }

  lemma {:induction false} KraftSumLevel(lens: seq<nat>, s: nat, n: nat)
    requires n <= |lens| && 1 <= s <= 16
    ensures KraftSum(lens, s, n) == KraftSum(lens, s - 1, n) + Shl(Count(lens, s, n), 16 - s)
  {
    ShlIsMul(0, 16 - s);
    if n > 0 {
      KraftSumLevel(lens, s, n - 1);
      ShlAdd(Count(lens, s, n - 1), 1, 16 - s);
      ShlIsMul(1, 16 - s);
    }
  }

  lemma {:induction false} KraftSumZero(lens: seq<nat>, n: nat)
    requires n <= |lens|
    ensures KraftSum(lens, 0, n) == 0
  {
    if n > 0 {
      KraftSumZero(lens, n - 1);
    }
  }

  /** The limits are the partial Kraft sums. */
  lemma {:induction false} LimitIsKraftSum(lens: seq<nat>, s: nat)
    requires s <= 16
    ensures Limit(lens, s) == KraftSum(lens, s, |lens|)
  {
    if s == 0 {
      KraftSumZero(lens, |lens|);
      ShlIsMul(0, 16);
    } else {
      LimitIsKraftSum(lens, s - 1);
      KraftSumLevel(lens, s, |lens|);
      LimitStep(lens, s);
    }
  }

  lemma LimitStep(lens: seq<nat>, s: nat)
    requires 1 <= s <= 16
    ensures Shl(FirstCode(lens, s), 16 - s) == Limit(lens, s - 1)
    ensures Limit(lens, s) == Limit(lens, s - 1) + Shl(Used(lens, s), 16 - s)
  {
    ShlAdd(FirstCode(lens, s), Used(lens, s), 16 - s);
    ShlShl(EndCode(lens, s - 1), 1, 16 - s);
    assert Shl(EndCode(lens, s - 1), 1) == FirstCode(lens, s);
  }

  lemma {:induction false} LimitMonotone(lens: seq<nat>, s: nat, t: nat)
    requires s <= t <= 16
    ensures Limit(lens, s) <= Limit(lens, t)
    decreases t
  {
    if s < t {
      LimitMonotone(lens, s, t - 1);
      LimitStep(lens, t);
    }
  }

  /** Under Kraft's inequality no length runs out of codes. */
  lemma KraftBoundsCodes(lens: seq<nat>, s: nat)
    requires Kraft(lens) && s <= 16
    ensures Limit(lens, s) <= Pow2(16)
    ensures EndCode(lens, s) <= Pow2(s)
  {
    LimitIsKraftSum(lens, 16);
    LimitMonotone(lens, s, 16);
    EndFromLimit(EndCode(lens, s), s, 16 - s);
  }

  lemma {:induction false} EndFromLimit(c: nat, s: nat, n: nat)
    ensures Shl(c, n) <= Pow2(s + n) <==> c <= Pow2(s)
    decreases n
  {
    if n > 0 {
      EndFromLimit(c, s, n - 1);
    }
  }

  /** The per-length test made while codes are handed out: a used length ends within its 2^s codes. */
  ghost predicate Fits(lens: seq<nat>, s: nat)
  {
    Used(lens, s) > 0 ==> EndCode(lens, s) <= Pow2(s)
  }

  /** Testing only the used lengths is testing Kraft's inequality. */
  lemma FitsIsKraft(lens: seq<nat>, top: nat)
    requires top <= 16 && (forall i :: 0 <= i < |lens| ==> lens[i] <= top)
    ensures (forall s :: 1 <= s <= top ==> Fits(lens, s)) <==> Kraft(lens)
  {
    if Kraft(lens) {
      forall s | 1 <= s <= top
        ensures Fits(lens, s)
      {
        KraftBoundsCodes(lens, s);
      }
    }
    if forall s :: 1 <= s <= top ==> Fits(lens, s) {
      FitsBoundsLimit(lens, top);
      NoneAbove(lens, top, 16, |lens|);
      LimitIsKraftSum(lens, top);
    }
  }

  lemma {:induction false} FitsBoundsLimit(lens: seq<nat>, s: nat)
    requires s <= 16 && forall t :: 1 <= t <= s ==> Fits(lens, t)
    ensures Limit(lens, s) <= Pow2(16)
  {
    if s == 0 {
      ShlIsMul(0, 16);
    } else {
      FitsBoundsLimit(lens, s - 1);
      LimitStep(lens, s);
      assert Fits(lens, s);
      if Used(lens, s) == 0 {
        ShlIsMul(0, 16 - s);
      } else {
        EndFromLimit(EndCode(lens, s), s, 16 - s);
      }
    }
  }

  lemma {:induction false} NoneAbove(lens: seq<nat>, top: nat, s: nat, n: nat)
    requires top <= s <= 16 && n <= |lens|
    requires forall i :: 0 <= i < |lens| ==> lens[i] <= top
    ensures KraftSum(lens, s, n) == KraftSum(lens, top, n)
  {
    if n > 0 {
      NoneAbove(lens, top, s, n - 1);
    }
  }

  // ---------- decoding is unambiguous and complete ----------

  lemma {:induction false} CountMonotone(lens: seq<nat>, s: nat, m: nat, n: nat)
    requires m <= n <= |lens|
    ensures Count(lens, s, m) <= Count(lens, s, n)
    decreases n
  {
    if m < n {
      CountMonotone(lens, s, m, n - 1);
    }
  }

  lemma RankIncreases(lens: seq<nat>, a: nat, n: nat)
    requires a < n <= |lens|
    ensures Rank(lens, a) < Count(lens, lens[a], n)
  {
    CountMonotone(lens, lens[a], a + 1, n);
  }

  /** The symbol of length s and rank r. */
  ghost function {:induction false} Nth(lens: seq<nat>, s: nat, r: nat, n: nat): (sym: nat)
    requires n <= |lens| && r < Count(lens, s, n)
    ensures sym < n && lens[sym] == s && Rank(lens, sym) == r
    decreases n
  {
    if lens[n - 1] == s && Count(lens, s, n - 1) == r then n - 1 else Nth(lens, s, r, n - 1)
  }

  lemma MatchWithinLimits(lens: seq<nat>, sym: nat, k: nat)
    requires Matches(lens, sym, k)
    ensures Limit(lens, lens[sym] - 1) <= k < Limit(lens, lens[sym])
  {
    var s := lens[sym];
    RankIncreases(lens, sym, |lens|);
    LimitStep(lens, s);
    ShrLess(k, EndCode(lens, s), 16 - s);
    ShrLess(k, FirstCode(lens, s), 16 - s);
  }

  /** No window starts with the codes of two symbols. */
  lemma MatchUnique(lens: seq<nat>, a: nat, b: nat, k: nat)
    requires Matches(lens, a, k) && Matches(lens, b, k)
    ensures a == b
  {
    MatchWithinLimits(lens, a, k);
    MatchWithinLimits(lens, b, k);
    if lens[a] < lens[b] {
      LimitMonotone(lens, lens[a], lens[b] - 1);
    } else if lens[b] < lens[a] {
      LimitMonotone(lens, lens[b], lens[a] - 1);
    } else if a < b {
      RankIncreases(lens, a, b);
    } else if b < a {
      RankIncreases(lens, b, a);
    }
  }

  /** The symbol whose code the window starts with, or -1 if there is none. */
  ghost function SymbolOf(lens: seq<nat>, k: nat): (r: int)
    ensures -1 <= r < |lens|
  {
    if exists sym: nat :: Matches(lens, sym, k) then
      var sym: nat :| Matches(lens, sym, k); sym
    else -1
  }

  /** The symbol found is the only one whose code starts the window. */
  lemma SymbolOfIs(lens: seq<nat>, k: nat, sym: nat)
    requires Matches(lens, sym, k)
    ensures SymbolOf(lens, k) == sym
  {
    MatchUnique(lens, sym, SymbolOf(lens, k), k);
  }

  /** A window between two limits starts with a code of that length, found by its rank. */
  ghost function Located(lens: seq<nat>, s: nat, k: nat): (sym: nat)
    requires 1 <= s <= 16 && Limit(lens, s - 1) <= k < Limit(lens, s)
    ensures Matches(lens, sym, k) && lens[sym] == s
    ensures Index(lens, sym) == Shr(k, 16 - s) - FirstCode(lens, s) + FirstIndex(lens, s)
  {
    LimitStep(lens, s);
    ShrLess(k, EndCode(lens, s), 16 - s);
    ShrLess(k, FirstCode(lens, s), 16 - s);
    Nth(lens, s, Shr(k, 16 - s) - FirstCode(lens, s), |lens|)
  }

  lemma CodeFits(lens: seq<nat>, sym: nat)
    requires Kraft(lens) && sym < |lens| && 1 <= lens[sym] <= 16
    ensures Code(lens, sym) < Pow2(lens[sym])
  {
    RankIncreases(lens, sym, |lens|);
    KraftBoundsCodes(lens, lens[sym]);
  }

  // ---------- sorted positions ----------

  lemma {:induction false} FirstIndexMonotone(lens: seq<nat>, s: nat, t: nat)
    requires s < t
    ensures FirstIndex(lens, s) + Used(lens, s) <= FirstIndex(lens, t)
    decreases t
  {
    if s < t - 1 {
      FirstIndexMonotone(lens, s, t - 1);
    }
  }

  lemma IndexInjective(lens: seq<nat>, a: nat, b: nat)
    requires a < |lens| && b < |lens| && lens[a] >= 1 && lens[b] >= 1 && a != b
    ensures Index(lens, a) != Index(lens, b)
  {
    RankIncreases(lens, a, |lens|);
    RankIncreases(lens, b, |lens|);
    if lens[a] < lens[b] {
      FirstIndexMonotone(lens, lens[a], lens[b]);
    } else if lens[b] < lens[a] {
      FirstIndexMonotone(lens, lens[b], lens[a]);
    } else if a < b {
      RankIncreases(lens, a, b);
    } else {
      RankIncreases(lens, b, a);
    }
  }

  /** Symbols among the first n with length between 1 and s. */
  function CountUpTo(lens: seq<nat>, s: nat, n: nat): (c: nat)
    requires n <= |lens|
    ensures c <= n
  {
    if n == 0 then 0 else CountUpTo(lens, s, n - 1) + (if 1 <= lens[n - 1] <= s then 1 else 0)
  }

  lemma {:induction false} CountUpToLevel(lens: seq<nat>, s: nat, n: nat)
    requires n <= |lens| && s >= 1
    ensures CountUpTo(lens, s, n) == CountUpTo(lens, s - 1, n) + Count(lens, s, n)
  {
    if n > 0 {
      CountUpToLevel(lens, s, n - 1);
    }
  }

  lemma {:induction false} CountUpToZero(lens: seq<nat>, n: nat)
    requires n <= |lens|
    ensures CountUpTo(lens, 0, n) == 0
  {
    if n > 0 {
      CountUpToZero(lens, n - 1);
    }
  }

  lemma {:induction false} FirstIndexIsCount(lens: seq<nat>, s: nat)
    ensures FirstIndex(lens, s) + Used(lens, s) == CountUpTo(lens, s, |lens|)
  {
    if s == 0 {
      CountUpToZero(lens, |lens|);
    } else {
      FirstIndexIsCount(lens, s - 1);
      CountUpToLevel(lens, s, |lens|);
    }
  }

  /** Sorted positions stay below the number of symbols. */
  lemma IndexBound(lens: seq<nat>, sym: nat)
    requires sym < |lens| && lens[sym] >= 1
    ensures Index(lens, sym) < |lens|
  {
    RankIncreases(lens, sym, |lens|);
    FirstIndexIsCount(lens, lens[sym]);
  }
}
