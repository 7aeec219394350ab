/** Unsigned integers as bit strings: shifts, masks and bit reversal, defined one bit at a time. */
module Bits {
  function Pow2(n: nat): (r: nat)
    ensures r > 0
  {
    if n == 0 then 1 else 2 * Pow2(n - 1)
  }

  /** x << n without truncation. */
  function Shl(x: nat, n: nat): nat
  {
    if n == 0 then x else 2 * Shl(x, n - 1)
  }

  /** x >> n. */
  function Shr(x: nat, n: nat): nat
  {
    if n == 0 then x else Shr(x / 2, n - 1)
  }

  /** The low n bits of x. */
  function Low(x: nat, n: nat): (r: nat)
    ensures r < Pow2(n)
  {
    if n == 0 then 0 else x % 2 + 2 * Low(x / 2, n - 1)
  }

  lemma Pow2Values()
    ensures Pow2(0) == 1 && Pow2(1) == 2 && Pow2(2) == 4 && Pow2(3) == 8 && Pow2(4) == 16 && Pow2(5) == 32
    ensures Pow2(6) == 64 && Pow2(7) == 128 && Pow2(8) == 256 && Pow2(9) == 512 && Pow2(10) == 1024
    ensures Pow2(11) == 2048 && Pow2(12) == 4096 && Pow2(13) == 8192 && Pow2(14) == 16384
    ensures Pow2(15) == 32768 && Pow2(16) == 65536 && Pow2(24) == 0x100_0000 && Pow2(32) == 0x1_0000_0000
  {
  }

  lemma {:induction false} Pow2Monotone(m: nat, n: nat)
    requires m <= n
    ensures Pow2(m) <= Pow2(n)
    decreases n
  {
    if m < n {
      Pow2Monotone(m, n - 1);
    }
  }

  // ---------- shifts ----------

  lemma {:induction false} ShlIsMul(x: nat, n: nat)
    ensures Shl(x, n) == x * Pow2(n)
  {
    if n > 0 {
      ShlIsMul(x, n - 1);
      assert x * (2 * Pow2(n - 1)) == 2 * (x * Pow2(n - 1));
    }
  }

  lemma {:induction false} ShlAdd(x: nat, y: nat, n: nat)
    ensures Shl(x + y, n) == Shl(x, n) + Shl(y, n)
  {
    if n > 0 {
      ShlAdd(x, y, n - 1);
    }
  }

  lemma {:induction false} ShlShl(x: nat, m: nat, n: nat)
    ensures Shl(Shl(x, m), n) == Shl(x, m + n)
  {
    if n > 0 {
      ShlShl(x, m, n - 1);
    }
  }

  lemma {:induction false} ShrShr(x: nat, m: nat, n: nat)
    ensures Shr(Shr(x, m), n) == Shr(x, m + n)
    decreases m
  {
    if m > 0 {
      ShrShr(x / 2, m - 1, n);
    }
  }

  /** Comparing a window with a pre-shifted code is comparing the shifted window with the code. */
  lemma {:induction false} ShrLess(k: nat, c: nat, n: nat)
    ensures Shr(k, n) < c <==> k < Shl(c, n)
    decreases n
  {
    if n > 0 {
      ShrLess(k / 2, c, n - 1);
    }
  }

  lemma {:induction false} ShrBound(x: nat, n: nat, m: nat)
    requires x < Pow2(n + m)
    ensures Shr(x, n) < Pow2(m)
    decreases n
  {
    if n > 0 {
      ShrBound(x / 2, n - 1, m);
    }
  }

  /** Filling in the low end: (h << n) + l is h above and l below. */
  lemma {:induction false} Join(h: nat, l: nat, n: nat)
    requires l < Pow2(n)
    ensures Shr(Shl(h, n) + l, n) == h
    ensures Low(Shl(h, n) + l, n) == l
    decreases n
  {
    if n > 0 {
      assert (2 * Shl(h, n - 1) + l) / 2 == Shl(h, n - 1) + l / 2;
      Join(h, l / 2, n - 1);
    }
  }

  lemma {:induction false} ShlBelow(h: nat, l: nat, n: nat, m: nat)
    requires h < Pow2(m) && l < Pow2(n)
    ensures Shl(h, n) + l < Pow2(m + n)
    decreases n
  {
    if n > 0 {
      ShlBelow(h, l / 2, n - 1, m);
    }
  }

  // ---------- single bits and masks ----------

  predicate Bit(x: nat, i: nat)
  {
    if i == 0 then x % 2 == 1 else Bit(x / 2, i - 1)
  }

  function BitAnd(x: nat, y: nat): nat
  {
    if x == 0 || y == 0 then 0
    else 2 * BitAnd(x / 2, y / 2) + (if x % 2 == 1 && y % 2 == 1 then 1 else 0)
  }

  function BitOr(x: nat, y: nat): nat
  {
    if x == 0 then y else if y == 0 then x
    else 2 * BitOr(x / 2, y / 2) + (if x % 2 == 1 || y % 2 == 1 then 1 else 0)
  }

  function BitXor(x: nat, y: nat): nat
  {
    if x == 0 then y else if y == 0 then x
    else 2 * BitXor(x / 2, y / 2) + (if x % 2 != y % 2 then 1 else 0)
  }

  /** Xor with n ones complements the low n bits. */
  lemma {:induction false} XorOnes(x: nat, n: nat)
    requires x < Pow2(n)
    ensures BitXor(x, Pow2(n) - 1) == Pow2(n) - 1 - x
  {
    if x != 0 && n > 0 {
      XorOnes(x / 2, n - 1);
      assert (2 * Pow2(n - 1) - 1) / 2 == Pow2(n - 1) - 1;
    }
  }

  lemma {:induction false} BitOfZero(i: nat)
    ensures !Bit(0, i)
  {
    if i > 0 {
      BitOfZero(i - 1);
    }
  }

  lemma {:induction false} BitOfAnd(x: nat, y: nat, i: nat)
    ensures Bit(BitAnd(x, y), i) <==> Bit(x, i) && Bit(y, i)
    decreases i
  {
    BitOfZero(i);
    if x != 0 && y != 0 && i > 0 {
      BitOfAnd(x / 2, y / 2, i - 1);
    }
  }

  lemma {:induction false} BitOfOr(x: nat, y: nat, i: nat)
    ensures Bit(BitOr(x, y), i) <==> Bit(x, i) || Bit(y, i)
    decreases i
  {
    BitOfZero(i);
    if x != 0 && y != 0 && i > 0 {
      BitOfOr(x / 2, y / 2, i - 1);
    }
  }

  lemma {:induction false} BitOfShr(x: nat, k: nat, i: nat)
    ensures Bit(Shr(x, k), i) == Bit(x, i + k)
    decreases k
  {
    if k > 0 {
      BitOfShr(x / 2, k - 1, i);
    }
  }

  lemma {:induction false} BitOfShl(x: nat, k: nat, i: nat)
    ensures Bit(Shl(x, k), i) <==> i >= k && Bit(x, i - k)
    decreases k
  {
    if k > 0 && i > 0 {
      BitOfShl(x, k - 1, i - 1);
    }
  }

  lemma {:induction false} BitOfLow(x: nat, n: nat, i: nat)
    requires i < n
    ensures Bit(Low(x, n), i) == Bit(x, i)
    decreases i
  {
    if i > 0 {
      BitOfLow(x / 2, n - 1, i - 1);
    }
  }

  lemma {:induction false} LowIs(x: nat, n: nat)
    requires x < Pow2(n)
    ensures Low(x, n) == x
  {
    if n > 0 {
      LowIs(x / 2, n - 1);
    }
  }

  lemma {:induction false} LowLow(x: nat, m: nat, n: nat)
    requires m <= n
    ensures Low(Low(x, n), m) == Low(x, m)
    decreases m
  {
    if m > 0 {
      LowLow(x / 2, m - 1, n - 1);
    }
  }

  lemma {:induction false} ShrOfShl(x: nat, a: nat, b: nat)
    requires a <= b
    ensures Shr(Shl(x, a), b) == Shr(x, b - a)
    decreases a
  {
    if a > 0 {
      ShrOfShl(x, a - 1, b - 1);
    }
  }

  lemma {:induction false} ShrOfLow(x: nat, n: nat, k: nat)
    requires k <= n
    ensures Shr(Low(x, n), k) == Low(Shr(x, k), n - k)
    decreases k
  {
    if k > 0 {
      assert Low(x, n) / 2 == Low(x / 2, n - 1);
      ShrOfLow(x / 2, n - 1, k - 1);
    }
  }

  lemma {:induction false} LowOfShl(x: nat, a: nat, n: nat)
    requires a <= n
    ensures Low(Shl(x, a), n) == Shl(Low(x, n - a), a)
    decreases a
  {
    if a > 0 {
      LowOfShl(x, a - 1, n - 1);
    }
  }

  /** Masking with 2^n - 1 keeps the low n bits. */
  lemma {:induction false} AndMask(x: nat, n: nat)
    ensures BitAnd(x, Pow2(n) - 1) == Low(x, n)
    decreases n
  {
    if x == 0 {
      LowOfZero(n);
    } else if n > 0 {
      AndMask(x / 2, n - 1);
      var p := Pow2(n - 1);
      assert (2 * p - 1) / 2 == p - 1 && (2 * p - 1) % 2 == 1;
    }
  }

  lemma {:induction false} AndOneBit(x: nat, n: nat)
    ensures BitAnd(x, Pow2(n)) == if Bit(x, n) then Pow2(n) else 0
  {
    if x == 0 {
      BitOfZero(n);
    } else if n > 0 {
      AndOneBit(x / 2, n - 1);
    }
  }

  lemma {:induction false} LowOfZero(n: nat)
    ensures Low(0, n) == 0
  {
    if n > 0 {
      LowOfZero(n - 1);
    }
  }

  /** Or-ing in bits above those of x adds them. */
  lemma {:induction false} OrShifted(x: nat, y: nat, n: nat)
    requires x < Pow2(n)
    ensures BitOr(x, Shl(y, n)) == x + Shl(y, n)
    decreases n
  {
    if x != 0 && n > 0 {
      OrShifted(x / 2, y, n - 1);
    }
  }

  /** Numbers below 2^n are determined by their low n bits. */
  lemma {:induction false} SameBits(x: nat, y: nat, n: nat)
    requires x < Pow2(n) && y < Pow2(n)
    requires forall i: nat | i < n :: Bit(x, i) == Bit(y, i)
    ensures x == y
  {
    if n > 0 {
      assert Bit(x, 0) == Bit(y, 0);
      forall i: nat | i < n - 1
        ensures Bit(x / 2, i) == Bit(y / 2, i)
      {
        assert Bit(x, i + 1) == Bit(y, i + 1);
      }
      SameBits(x / 2, y / 2, n - 1);
    }
  }

  // ---------- bit reversal ----------

  /** The low n bits of x in the opposite order. */
  function Reverse(x: nat, n: nat): (r: nat)
    ensures r < Pow2(n)
  {
    if n == 0 then 0 else 2 * Reverse(x, n - 1) + (if Bit(x, n - 1) then 1 else 0)
  }

  lemma {:induction false} BitOfReverse(x: nat, n: nat, i: nat)
    requires i < n
    ensures Bit(Reverse(x, n), i) == Bit(x, n - 1 - i)
  {
    if i > 0 {
      BitOfReverse(x, n - 1, i - 1);
    }
  }

  lemma {:induction false} HighBitsClear(x: nat, n: nat, i: nat)
    requires x < Pow2(n) && i >= n
    ensures !Bit(x, i)
    decreases n
  {
    if n == 0 {
      BitOfZero(i);
    } else {
      HighBitsClear(x / 2, n - 1, i - 1);
    }
  }

  /** Reversing n bits is reversing n + m bits and dropping the low m of the result. */
  lemma ReverseShr(x: nat, n: nat, m: nat)
    requires x < Pow2(n)
    ensures Shr(Reverse(x, n + m), m) == Reverse(x, n)
  {
    ShrBound(Reverse(x, n + m), m, n);
    forall i: nat | i < n
      ensures Bit(Shr(Reverse(x, n + m), m), i) == Bit(Reverse(x, n), i)
    {
      BitOfShr(Reverse(x, n + m), m, i);
      BitOfReverse(x, n + m, i + m);
      BitOfReverse(x, n, i);
    }
    SameBits(Shr(Reverse(x, n + m), m), Reverse(x, n), n);
  }

  /** Swap neighbouring fields of w bits: (n & hi) >> w | (n & lo) << w. */
  function SwapFields(n: nat, hi: nat, lo: nat, w: nat): nat
  {
    BitOr(Shr(BitAnd(n, hi), w), Shl(BitAnd(n, lo), w))
  }

  function BitReverse16(n: nat): nat
  {
    var n1 := SwapFields(n, 0xAAAA, 0x5555, 1);
    var n2 := SwapFields(n1, 0xCCCC, 0x3333, 2);
    var n3 := SwapFields(n2, 0xF0F0, 0x0F0F, 4);
    SwapFields(n3, 0xFF00, 0x00FF, 8)
  }

  function BitReverse(v: nat, bits: nat): nat
    requires bits <= 16
  {
    Shr(BitReverse16(v), 16 - bits)
  }

  lemma SwapFieldsBit(n: nat, hi: nat, lo: nat, w: nat, i: nat)
    ensures Bit(SwapFields(n, hi, lo, w), i) <==>
            (Bit(n, i + w) && Bit(hi, i + w)) || (i >= w && Bit(n, i - w) && Bit(lo, i - w))
  {
    BitOfOr(Shr(BitAnd(n, hi), w), Shl(BitAnd(n, lo), w), i);
    BitOfShr(BitAnd(n, hi), w, i);
    BitOfAnd(n, hi, i + w);
    BitOfShl(BitAnd(n, lo), w, i);
    if i >= w {
      BitOfAnd(n, lo, i - w);
    }
  }

  lemma {:induction false} AndBelow(x: nat, y: nat, n: nat)
    requires y < Pow2(n)
    ensures BitAnd(x, y) < Pow2(n)
    decreases n
  {
    if x != 0 && y != 0 {
      AndBelow(x / 2, y / 2, n - 1);
    }
  }

  lemma {:induction false} OrBelow(x: nat, y: nat, n: nat)
    requires x < Pow2(n) && y < Pow2(n)
    ensures BitOr(x, y) < Pow2(n)
    decreases n
  {
    if x != 0 && y != 0 {
      OrBelow(x / 2, y / 2, n - 1);
    }
  }

  /** The w-bit field m repeated k times. */
  function Repeat(m: nat, w: nat, k: nat): nat
  {
    if k == 0 then 0 else Shl(Repeat(m, w, k - 1), w) + m
  }

  lemma OneField(q: nat, w: nat, r: nat)
    requires q > 0
    ensures q * w + r == (q - 1) * w + r + w
  {
  }

  lemma {:induction false} BitBelow(h: nat, l: nat, n: nat, i: nat)
    requires i < n
    ensures Bit(Shl(h, n) + l, i) == Bit(l, i)
  {
    if i > 0 {
      assert (2 * Shl(h, n - 1) + l) / 2 == Shl(h, n - 1) + l / 2;
      BitBelow(h, l / 2, n - 1, i - 1);
    }
  }

  lemma {:induction false} RepeatBit(m: nat, w: nat, k: nat, q: nat, r: nat)
    requires m < Pow2(w) && r < w
    ensures Bit(Repeat(m, w, k), q * w + r) <==> q < k && Bit(m, r)
    decreases k
  {
    hide Bit, Shl, Shr, Low;
    if k == 0 {
      BitOfZero(q * w + r);
    } else if q == 0 {
      BitBelow(Repeat(m, w, k - 1), m, w, r);
    } else {
      Join(Repeat(m, w, k - 1), m, w);
      OneField(q, w, r);
      BitOfShr(Repeat(m, w, k), w, (q - 1) * w + r);
      RepeatBit(m, w, k - 1, q - 1, r);
    }
  }

  /** Each pair of masks selects the upper and the lower half of every field of 2, 4, 8 or 16 bits. */
  lemma FieldMask1(i: nat)
    ensures Bit(0xAAAA, i) <==> i < 16 && i % 2 == 1
    ensures Bit(0x5555, i) <==> i < 16 && i % 2 == 0
  {
    OddMask(i);
    EvenMask(i);
  }

  lemma OddMask(i: nat)
    ensures Bit(0xAAAA, i) <==> i < 16 && i % 2 == 1
  {
    RepeatBit(2, 2, 8, i / 2, i % 2);
    assert Repeat(2, 2, 8) == 0xAAAA;
  }

  lemma EvenMask(i: nat)
    ensures Bit(0x5555, i) <==> i < 16 && i % 2 == 0
  {
    RepeatBit(1, 2, 8, i / 2, i % 2);
    assert Repeat(1, 2, 8) == 0x5555;
  }

  lemma FieldMask2(i: nat)
    ensures Bit(0xCCCC, i) <==> i < 16 && i / 2 % 2 == 1
    ensures Bit(0x3333, i) <==> i < 16 && i / 2 % 2 == 0
  {
    RepeatBit(12, 4, 4, i / 4, i % 4);
    RepeatBit(3, 4, 4, i / 4, i % 4);
    assert Repeat(12, 4, 4) == 0xCCCC && Repeat(3, 4, 4) == 0x3333;
    assert Bit(3, 0) && Bit(3, 1) && !Bit(3, 2) && !Bit(3, 3);
    assert !Bit(12, 0) && !Bit(12, 1) && Bit(12, 2) && Bit(12, 3);
  }

  lemma FieldMask4(i: nat)
    ensures Bit(0xF0F0, i) <==> i < 16 && i / 4 % 2 == 1
    ensures Bit(0x0F0F, i) <==> i < 16 && i / 4 % 2 == 0
  {
    RepeatBit(0xF0, 8, 2, i / 8, i % 8);
    RepeatBit(0x0F, 8, 2, i / 8, i % 8);
    assert Repeat(0xF0, 8, 2) == 0xF0F0 && Repeat(0x0F, 8, 2) == 0x0F0F;
    OnesBit(4, 0, i % 8);
    OnesBit(4, 4, i % 8);
  }

  lemma FieldMask8(i: nat)
    ensures Bit(0xFF00, i) <==> i < 16 && i / 8 % 2 == 1
    ensures Bit(0x00FF, i) <==> i < 16 && i / 8 % 2 == 0
  {
    OnesBit(8, 0, i);
    OnesBit(8, 8, i);
  }

  lemma {:induction false} OnesBit(w: nat, k: nat, i: nat)
    ensures Bit(Shl(Pow2(w) - 1, k), i) <==> k <= i < k + w
    decreases w + i
  {
    BitOfShl(Pow2(w) - 1, k, i);
    if i >= k {
      Ones(w, i - k);
    }
  }

  lemma {:induction false} Ones(w: nat, i: nat)
    ensures Bit(Pow2(w) - 1, i) <==> i < w
  {
    if w == 0 {
      BitOfZero(i);
    } else if i > 0 {
      assert (2 * Pow2(w - 1) - 1) / 2 == Pow2(w - 1) - 1;
      Ones(w - 1, i - 1);
    }
  }

  lemma SwapFieldsBelow(n: nat, hi: nat, lo: nat, w: nat)
    requires w <= 8 && hi < Pow2(16) && lo < Pow2(16 - w)
    ensures SwapFields(n, hi, lo, w) < Pow2(16)
  {
    AndBelow(n, hi, 16);
    ShrBound(BitAnd(n, hi), w, 16 - w);
    Pow2Monotone(16 - w, 16);
    AndBelow(n, lo, 16 - w);
    ShlBelow(BitAnd(n, lo), 0, w, 16 - w);
    OrBelow(Shr(BitAnd(n, hi), w), Shl(BitAnd(n, lo), w), 16);
  }

  /** One round of the reversal moves the halves of every field past each other. */
  function Partner(i: nat, w: nat): nat
    requires 0 < w <= 8
  {
    if i / w % 2 == 0 then i + w else if i >= w then i - w else 0
  }

  lemma Round1(n: nat, i: nat)
    requires i < 16
    ensures Bit(SwapFields(n, 0xAAAA, 0x5555, 1), i) == Bit(n, Partner(i, 1))
  {
    SwapFieldsBit(n, 0xAAAA, 0x5555, 1, i);
    FieldMask1(i + 1);
    if i >= 1 { FieldMask1(i - 1); }
  }

  lemma Round2(n: nat, i: nat)
    requires i < 16
    ensures Bit(SwapFields(n, 0xCCCC, 0x3333, 2), i) == Bit(n, Partner(i, 2))
  {
    SwapFieldsBit(n, 0xCCCC, 0x3333, 2, i);
    FieldMask2(i + 2);
    if i >= 2 { FieldMask2(i - 2); }
  }

  lemma Round4(n: nat, i: nat)
    requires i < 16
    ensures Bit(SwapFields(n, 0xF0F0, 0x0F0F, 4), i) == Bit(n, Partner(i, 4))
  {
    SwapFieldsBit(n, 0xF0F0, 0x0F0F, 4, i);
    FieldMask4(i + 4);
    if i >= 4 { FieldMask4(i - 4); }
  }

  lemma Round8(n: nat, i: nat)
    requires i < 16
    ensures Bit(SwapFields(n, 0xFF00, 0x00FF, 8), i) == Bit(n, Partner(i, 8))
  {
    SwapFieldsBit(n, 0xFF00, 0x00FF, 8, i);
    FieldMask8(i + 8);
    if i >= 8 { FieldMask8(i - 8); }
  }

  lemma Partners(i: nat)
    requires i < 16
    ensures Partner(i, 8) < 16 && Partner(Partner(i, 8), 4) < 16 && Partner(Partner(Partner(i, 8), 4), 2) < 16
    ensures Partner(Partner(Partner(Partner(i, 8), 4), 2), 1) == 15 - i
  {
    assert i == 0 || i == 1 || i == 2 || i == 3 || i == 4 || i == 5 || i == 6 || i == 7 ||
           i == 8 || i == 9 || i == 10 || i == 11 || i == 12 || i == 13 || i == 14 || i == 15;
  }

  lemma BitReverse16Bit(n: nat, i: nat)
    requires i < 16
    ensures Bit(BitReverse16(n), i) == Bit(n, 15 - i)
  {
    hide SwapFields, Bit;
    Partners(i);
    var n1 := SwapFields(n, 0xAAAA, 0x5555, 1);
    var n2 := SwapFields(n1, 0xCCCC, 0x3333, 2);
    var n3 := SwapFields(n2, 0xF0F0, 0x0F0F, 4);
    var i3 := Partner(i, 8);
    var i2 := Partner(i3, 4);
    var i1 := Partner(i2, 2);
    Round8(n3, i);
    Round4(n2, i3);
    Round2(n1, i2);
    Round1(n, i1);
  }

  /** The four mask-and-shift rounds reverse the low 16 bits. */
  lemma BitReverse16IsReverse(n: nat)
    ensures BitReverse16(n) == Reverse(n, 16)
  {
    Pow2Values();
    var n1 := SwapFields(n, 0xAAAA, 0x5555, 1);
    var n2 := SwapFields(n1, 0xCCCC, 0x3333, 2);
    SwapFieldsBelow(SwapFields(n2, 0xF0F0, 0x0F0F, 4), 0xFF00, 0x00FF, 8);
    forall i: nat | i < 16
      ensures Bit(BitReverse16(n), i) == Bit(Reverse(n, 16), i)
    {
      BitReverse16Bit(n, i);
      BitOfReverse(n, 16, i);
    }
    SameBits(BitReverse16(n), Reverse(n, 16), 16);
  }

  lemma BitReverseIsReverse(v: nat, bits: nat)
    requires bits <= 16 && v < Pow2(bits)
    ensures BitReverse(v, bits) == Reverse(v, bits)
  {
    BitReverse16IsReverse(v);
    ReverseShr(v, bits, 16 - bits);
  }
}
