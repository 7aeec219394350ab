/** A byte sequence read as a string of bits, lowest bit of each byte first, zero past the end. */
module BitStream {
  import opened Basics
  import opened Bits

  /** Reading past the end yields zeros. */
  function ByteAt(data: seq<Byte>, i: nat): Byte
  {
    if i < |data| then data[i] else 0
  }

  predicate BitAt(data: seq<Byte>, i: nat)
  {
    i / 8 < |data| && Bit(data[i / 8], i % 8)
  }

  function BitValue(b: bool): nat
  {
    if b then 1 else 0
  }

  /** The n bits at position p, the first bit being the lowest. */
  function Window(data: seq<Byte>, p: nat, n: nat): (w: nat)
    ensures w < Pow2(n)
    decreases n, data
  {
    if n == 0 then 0 else BitValue(BitAt(data, p)) + 2 * Window(data, p + 1, n - 1)
  }

  /** The n bits at position p, the first bit being the highest. */
  function Msb(data: seq<Byte>, p: nat, n: nat): (w: nat)
    ensures w < Pow2(n)
  {
    if n == 0 then 0 else 2 * Msb(data, p, n - 1) + BitValue(BitAt(data, p + n - 1))
  }

  lemma NoWindow(data: seq<Byte>, p: nat)
    ensures Window(data, p, 0) == 0
  {
  }

  lemma {:induction false} WindowJoin(data: seq<Byte>, p: nat, m: nat, n: nat)
    ensures Window(data, p, m + n) == Window(data, p, m) + Shl(Window(data, p + m, n), m)
    decreases m
  {
    if m > 0 {
      WindowJoin(data, p + 1, m - 1, n);
      assert p + 1 + (m - 1) == p + m;
    }
  }

  /** Dropping m bits of a window moves it m bits forward. */
  lemma WindowSplit(data: seq<Byte>, p: nat, m: nat, n: nat)
    ensures Low(Window(data, p, m + n), m) == Window(data, p, m)
    ensures Shr(Window(data, p, m + n), m) == Window(data, p + m, n)
  {
    WindowJoin(data, p, m, n);
    Join(Window(data, p + m, n), Window(data, p, m), m);
  }

  lemma {:induction false} WindowTail(data: seq<Byte>, r: nat, k: nat)
    requires k <= 8 && r < |data|
    ensures Window(data, 8 * r + k, 8 - k) == Shr(data[r], k)
    decreases 8 - k
  {
    if k == 8 {
      ShrBound(data[r], 8, 0);
    } else {
      WindowTail(data, r, k + 1);
      ShrShr(data[r], k, 1);
      BitOfShr(data[r], k, 0);
      assert Shr(Shr(data[r], k), 1) == Shr(data[r], k) / 2;
    }
  }

  lemma WindowOfByte(data: seq<Byte>, r: nat)
    requires r < |data|
    ensures Window(data, 8 * r, 8) == data[r]
  {
    WindowTail(data, r, 0);
  }

  lemma {:induction false} WindowPastEnd(data: seq<Byte>, p: nat, n: nat)
    requires p >= 8 * |data|
    ensures Window(data, p, n) == 0
    decreases n
  {
    if n > 0 {
      WindowPastEnd(data, p + 1, n - 1);
    }
  }

  lemma {:induction false} BitOfWindow(data: seq<Byte>, p: nat, n: nat, i: nat)
    requires i < n
    ensures Bit(Window(data, p, n), i) == BitAt(data, p + i)
    decreases i
  {
    if i > 0 {
      BitOfWindow(data, p + 1, n - 1, i - 1);
      assert Window(data, p, n) / 2 == Window(data, p + 1, n - 1);
    }
  }

  lemma {:induction false} ReverseOfWindow(data: seq<Byte>, p: nat, w: nat, n: nat)
    requires n <= w
    ensures Reverse(Window(data, p, w), n) == Msb(data, p, n)
    decreases n
  {
    if n > 0 {
      ReverseOfWindow(data, p, w, n - 1);
      BitOfWindow(data, p, w, n - 1);
    }
  }

  lemma {:induction false} MsbPrefix(data: seq<Byte>, p: nat, n: nat, m: nat)
    ensures Shr(Msb(data, p, n + m), m) == Msb(data, p, n)
    decreases m
  {
    if m > 0 {
      MsbPrefix(data, p, n, m - 1);
      assert Msb(data, p, n + m) / 2 == Msb(data, p, n + m - 1);
    }
  }

  // ---------- writing ----------

  /** The bit string `bits` stands at position p. */
  ghost predicate Carries(data: seq<Byte>, p: nat, bits: seq<bool>)
  {
    forall i: nat | i < |bits| :: BitAt(data, p + i) == bits[i]
  }

  lemma CarriesParts(data: seq<Byte>, p: nat, a: seq<bool>, b: seq<bool>)
    requires Carries(data, p, a + b)
    ensures Carries(data, p, a) && Carries(data, p + |a|, b)
  {
    forall i: nat | i < |a|
      ensures BitAt(data, p + i) == a[i]
    {
      assert (a + b)[i] == a[i];
    }
    forall i: nat | i < |b|
      ensures BitAt(data, p + |a| + i) == b[i]
    {
      assert BitAt(data, p + (|a| + i)) == (a + b)[|a| + i];
      assert p + (|a| + i) == p + |a| + i;
    }
  }

  /** v in n bits, lowest first, as DEFLATE packs everything but Huffman codes. */
  function LsbBits(v: nat, n: nat): (s: seq<bool>)
    ensures |s| == n
  {
    seq(n, i requires 0 <= i < n => Bit(v, i))
  }

  /** v in n bits, highest first, as DEFLATE packs Huffman codes. */
  function MsbBits(v: nat, n: nat): (s: seq<bool>)
    ensures |s| == n
  {
    seq(n, i requires 0 <= i < n => Bit(v, n - 1 - i))
  }

  lemma ReadLsb(data: seq<Byte>, p: nat, v: nat, n: nat)
    requires v < Pow2(n) && Carries(data, p, LsbBits(v, n))
    ensures Window(data, p, n) == v
  {
    forall i: nat | i < n
      ensures Bit(Window(data, p, n), i) == Bit(v, i)
    {
      BitOfWindow(data, p, n, i);
      assert BitAt(data, p + i) == LsbBits(v, n)[i];
    }
    SameBits(Window(data, p, n), v, n);
  }

  lemma ReadMsb(data: seq<Byte>, p: nat, v: nat, n: nat)
    requires v < Pow2(n) && Carries(data, p, MsbBits(v, n))
    ensures Msb(data, p, n) == v
  {
    hide Msb, Bit, Window, Reverse, BitAt, Pow2;
    ReverseOfWindow(data, p, n, n);
    forall i: nat | i < n
      ensures Bit(Msb(data, p, n), i) == Bit(v, i)
    {
      BitOfReverse(Window(data, p, n), n, i);
      BitOfWindow(data, p, n, n - 1 - i);
      assert BitAt(data, p + (n - 1 - i)) == MsbBits(v, n)[n - 1 - i];
    }
    SameBits(Msb(data, p, n), v, n);
  }

  // ---------- packing bits into bytes ----------

  /** Bits packed into bytes, lowest first, padded with zeros. */
  function Pack(bits: seq<bool>): (r: seq<Byte>)
    ensures 8 * |r| >= |bits| && 8 * |r| < |bits| + 8
  {
    if |bits| == 0 then []
    else if |bits| < 8 then [Number(bits)]
    else [Number(bits[..8])] + Pack(bits[8..])
  }

  function Number(bits: seq<bool>): (n: nat)
    requires |bits| <= 8
    ensures n < Pow2(|bits|)
    ensures n < 256
  {
    Pow2Values();
    Pow2Monotone(|bits|, 8);
    if |bits| == 0 then 0 else BitValue(bits[0]) + 2 * Number(bits[1..])
  }

  lemma {:induction false} NumberBit(bits: seq<bool>, i: nat)
    requires i < |bits| <= 8
    ensures Bit(Number(bits), i) == bits[i]
  {
    if i > 0 {
      NumberBit(bits[1..], i - 1);
      assert Number(bits) / 2 == Number(bits[1..]);
    }
  }

  lemma {:induction false} PackCarries(bits: seq<bool>, tail: seq<Byte>, i: nat)
    requires i < |bits|
    ensures BitAt(Pack(bits) + tail, i) == bits[i]
    decreases |bits|
  {
    hide Bit, Number;
    if |bits| < 8 {
      NumberBit(bits, i);
      BitAtFront(Number(bits), [] + tail, i);
      assert Pack(bits) + tail == [Number(bits)] + ([] + tail);
    } else {
      var front, rest := Number(bits[..8]), Pack(bits[8..]) + tail;
      assert Pack(bits) + tail == [front] + rest;
      BitAtFront(front, rest, i);
      if i < 8 {
        NumberBit(bits[..8], i);
      } else {
        PackCarries(bits[8..], tail, i - 8);
      }
    }
  }

  lemma BitAtFront(b: Byte, rest: seq<Byte>, i: nat)
    ensures BitAt([b] + rest, i) == if i < 8 then Bit(b, i) else BitAt(rest, i - 8)
  {
    hide Bit;
    if i >= 8 {
      assert i / 8 == (i - 8) / 8 + 1 && i % 8 == (i - 8) % 8;
    }
  }

  lemma PackedCarries(bits: seq<bool>, tail: seq<Byte>)
    ensures Carries(Pack(bits) + tail, 0, bits)
  {
    hide Pack;
    forall i: nat | i < |bits|
      ensures BitAt(Pack(bits) + tail, 0 + i) == bits[i]
    {
      PackCarries(bits, tail, i);
    }
  }
}
