/** Writing an entropy-coded JPEG segment: codes go into a bit buffer, whole bytes go out stuffed. */
module JpegSink {
  import opened Basics
  import opened Bits
  import opened BitStream
  import opened JpegReader

  // ---------- stuffing ----------

  /** Every 0xff byte is followed by a zero (section B.1.1.5 of ITU-T T.81). */
  function Stuffed(bytes: seq<Byte>): seq<Byte>
  {
    if bytes == [] then [] else (if bytes[0] == 0xff then [0xff, 0] else [bytes[0]]) + Stuffed(bytes[1..])
  }

  lemma {:induction false} StuffedMore(bytes: seq<Byte>, b: Byte)
    ensures Stuffed(bytes + [b]) == Stuffed(bytes) + if b == 0xff then [0xff, 0] else [b]
  {
    if bytes == [] {
      assert bytes + [b] == [b] && Stuffed([b]) == (if b == 0xff then [0xff, 0] else [b]) + Stuffed([]);
    } else {
      assert (bytes + [b])[1..] == bytes[1..] + [b];
      StuffedMore(bytes[1..], b);
    }
  }

  lemma {:induction false} BitsOfMore(bytes: seq<Byte>, b: Byte)
    ensures BitsOf(bytes + [b]) == BitsOf(bytes) + MsbBits(b, 8)
  {
    if bytes == [] {
      assert bytes + [b] == [b] && BitsOf([b]) == MsbBits(b, 8) + [];
    } else {
      assert (bytes + [b])[1..] == bytes[1..] + [b];
      BitsOfMore(bytes[1..], b);
    }
  }

  /** Unstuffing gives the bytes that were stuffed, up to the marker behind them. */
  lemma {:induction false} SegmentOfStuffed(data: seq<Byte>, pos: nat, bytes: seq<Byte>, mark: Byte, behind: seq<Byte>)
    requires pos <= |data| && data[pos..] == Stuffed(bytes) + [0xff, mark] + behind && mark != 0 && mark != 0xff
    ensures SegmentFrom(data, pos) == bytes && MarkerEnds(data, pos)
    decreases |bytes|
  {
    var tail := Stuffed(bytes) + [0xff, mark] + behind;
    assert data[pos] == tail[0] && data[pos + 1] == tail[1];
    if bytes != [] {
      var n := if bytes[0] == 0xff then 2 else 1;
      assert tail[n..] == Stuffed(bytes[1..]) + [0xff, mark] + behind;
      assert data[pos + n..] == data[pos..][n..];
      SegmentOfStuffed(data, pos + n, bytes[1..], mark, behind);
    }
  }

  // ---------- the bit buffer ----------

  /** The first bits of the 24 that the buffer holds. */
  function Held(buffer: nat, n: nat): (s: seq<bool>)
    requires n <= 24
  {
    seq(n, i requires 0 <= i < n => Bit(buffer, 23 - i))
  }

  ghost predicate Unused(buffer: nat, n: nat)
    requires n <= 24
  {
    forall i: nat :: i < 24 - n ==> !Bit(buffer, i)
  }

  /** A code put in behind the bits that are held. */
  lemma HeldGrows(buffer: nat, n: nat, code: nat, len: nat)
    requires n + len <= 24 && code < Pow2(len) && Unused(buffer, n)
    ensures var g := BitOr(buffer, Shl(code, 24 - n - len));
            Unused(g, n + len) && Held(g, n + len) == Held(buffer, n) + MsbBits(code, len)
  {
    hide BitOr, Shl, Bit;
    var low := 24 - n - len;
    var g := BitOr(buffer, Shl(code, low));
    forall i: nat
      ensures Bit(g, i) == (Bit(buffer, i) || (i >= low && Bit(code, i - low)))
      ensures i >= low + len ==> Bit(g, i) == Bit(buffer, i)
    {
      BitOfOr(buffer, Shl(code, low), i);
      BitOfShl(code, low, i);
      if i >= low + len {
        HighBitsClear(code, len, i - low);
      }
    }
    var t, u := Held(g, n + len), Held(buffer, n) + MsbBits(code, len);
    forall i: nat | i < n + len
      ensures t[i] == u[i]
    {
      if i < n {
        assert 23 - i >= low + len;
      } else {
        assert u[i] == MsbBits(code, len)[i - n] == Bit(code, 23 - i - low);
        assert !Bit(buffer, 23 - i);
      }
    }
  }

  /** A byte taken out at the front. */
  lemma HeldShrinks(buffer: nat, n: nat)
    requires 8 <= n <= 24 && Unused(buffer, n)
    ensures var rest := Low(Shl(buffer, 8), 32);
            Unused(rest, n - 8) && Held(buffer, n) == MsbBits(Low(Shr(buffer, 16), 8), 8) + Held(rest, n - 8)
  {
    hide Low, Shl, Shr, Bit;
    var c, rest := Low(Shr(buffer, 16), 8), Low(Shl(buffer, 8), 32);
    forall i: nat | i < 32
      ensures Bit(rest, i) <==> i >= 8 && Bit(buffer, i - 8)
    {
      BitOfLow(Shl(buffer, 8), 32, i);
      BitOfShl(buffer, 8, i);
    }
    var t, u := Held(buffer, n), MsbBits(c, 8) + Held(rest, n - 8);
    forall i: nat | i < n
      ensures t[i] == u[i]
    {
      if i < 8 {
        BitOfLow(Shr(buffer, 16), 8, 7 - i);
        BitOfShr(buffer, 16, 7 - i);
        assert u[i] == MsbBits(c, 8)[i];
      } else {
        assert u[i] == Held(rest, n - 8)[i - 8];
      }
    }
  }

  class BitSink {
    var out: seq<Byte>
    var bitBuf: nat
    var bitCnt: nat
    ghost var payload: seq<Byte>

    ghost predicate Valid()
      reads this
    {
      bitCnt < 8 && bitBuf < Pow2(32) && Unused(bitBuf, bitCnt) && out == Stuffed(payload)
    }

    /** The bits that were written. */
    ghost function Contents(): seq<bool>
      requires bitCnt <= 24
      reads this
    {
      BitsOf(payload) + Held(bitBuf, bitCnt)
    }

    constructor ()
      ensures Valid() && Contents() == []
    {
      out, bitBuf, bitCnt, payload := [], 0, 0, [];
      new;
      forall i: nat
        ensures !Bit(0, i)
      {
        BitOfZero(i);
      }
    }

    /** Writes the bits of a code; whole bytes go out, stuffed. */
    method WriteBits(code: nat, len: nat)
      requires Valid() && len <= 16 && code < Pow2(len)
      modifies this
      ensures Valid() && Contents() == old(Contents()) + MsbBits(code, len) && old(payload) <= payload
    {
      hide Held, Unused, BitOr, Shl, Shr, Low, Pow2, BitsOf, Stuffed, MsbBits;
      ghost var before := Contents();
      HeldGrows(bitBuf, bitCnt, code, len);
      BufferBelow(bitBuf, code, 24 - bitCnt - len, len);
      assert BitsOf(payload) + (Held(bitBuf, bitCnt) + MsbBits(code, len)) == before + MsbBits(code, len);
      bitCnt := bitCnt + len;
      bitBuf := BitOr(bitBuf, Shl(code, 24 - bitCnt));
      while bitCnt >= 8
        invariant bitCnt <= 24 && bitBuf < Pow2(32) && Unused(bitBuf, bitCnt) && out == Stuffed(payload)
        invariant Contents() == before + MsbBits(code, len) && old(payload) <= payload
      {
        HeldShrinks(bitBuf, bitCnt);
        ByteBelow();
        var c := Low(Shr(bitBuf, 16), 8);
        StuffedMore(payload, c);
        BitsOfMore(payload, c);
        ghost var rest := Low(Shl(bitBuf, 8), 32);
        assert BitsOf(payload) + MsbBits(c, 8) + Held(rest, bitCnt - 8) == BitsOf(payload) + Held(bitBuf, bitCnt);
        out := out + [c];
        if c == 0xff {
          out := out + [0];
        }
        payload := payload + [c];
        bitBuf := Low(Shl(bitBuf, 8), 32);
        bitCnt := bitCnt - 8;
      }
    }

    /** Fills the last byte with ones and puts the marker that ends the image behind it. */
    method Finish() returns (data: seq<Byte>, ghost ones: nat)
      requires Valid()
      modifies this
      ensures data == Stuffed(payload) + [0xff, 0xd9] && ones < 8
      ensures BitsOf(payload) == old(Contents()) + AllOnes(ones)
    {
      hide Held, BitsOf, Stuffed, Unused;
      ghost var bytes, before := payload, Contents();
      BitsOfLength(payload);
      HeldLength(bitBuf, bitCnt);
      SevenOnes();
      WriteBits(0x7f, 7);
      BitsOfLength(payload);
      HeldLength(bitBuf, bitCnt);
      data := out + [0xff, 0xd9];
      ones := 8 * |payload| - |before|;
      FrontOf(before, BitsOf(payload), Held(bitBuf, bitCnt), ones);
    }
  }

  function AllOnes(n: nat): (s: seq<bool>)
    ensures |s| == n
  {
    seq(n, _ => true)
  }

  lemma FrontOf(before: seq<bool>, bits: seq<bool>, held: seq<bool>, n: nat)
    requires bits + held == before + AllOnes(7) && n <= 7 && |bits| == |before| + n
    ensures bits == before + AllOnes(n)
  {
    assert bits == (bits + held)[..|bits|];
  }

  lemma SevenOnes()
    ensures MsbBits(0x7f, 7) == AllOnes(7) && 0x7f < Pow2(7)
  {
    forall i: nat | i < 7
      ensures Bit(0x7f, i)
    {
      Pow2Values();
      Ones(7, i);
    }
    Pow2Values();
  }

  lemma {:induction false} BitsOfLength(bytes: seq<Byte>)
    ensures |BitsOf(bytes)| == 8 * |bytes|
  {
    if bytes != [] {
      BitsOfLength(bytes[1..]);
    }
  }

  lemma HeldLength(buffer: nat, n: nat)
    requires n <= 24
    ensures |Held(buffer, n)| == n
  {
  }

  lemma ByteBelow()
    ensures Pow2(8) == 256
  {
    Pow2Values();
  }

  lemma BufferBelow(buffer: nat, code: nat, low: nat, len: nat)
    requires buffer < Pow2(32) && code < Pow2(len) && low + len <= 24
    ensures BitOr(buffer, Shl(code, low)) < Pow2(32)
  {
    ShlBelow(code, 0, low, len);
    Pow2Monotone(low + len, 32);
    OrBelow(buffer, Shl(code, low), 32);
  }
}
