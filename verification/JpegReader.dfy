/** Reading an entropy-coded JPEG segment: bytes are unstuffed into the reservoir until a marker ends them. */
module JpegReader {
  import opened Basics
  import opened Bits
  import opened BitStream
  import opened Canonical
  import opened JpegTable
  import opened JpegBits

  // ---------- the bits of a segment ----------

  /** What stands at a position of the data: a byte of the segment, or the marker that ends it. */
  datatype Item = Entropy(byte: Byte, next: nat) | Mark(code: Byte, next: nat)

  /** A byte; zero behind the end of the data. */
  function Get8(data: seq<Byte>, pos: nat): (Byte, nat)
  {
    if pos < |data| then (data[pos], pos + 1) else (0, pos)
  }

  /** Behind a 0xff: other 0xff bytes are skipped. */
  function SkipFill(data: seq<Byte>, pos: nat): (r: (Byte, nat))
    requires pos <= |data|
    ensures pos <= r.1 <= |data| && r.0 != 0xff
    decreases |data| - pos
  {
    var (c, next) := Get8(data, pos);
    if c == 0xff then SkipFill(data, next) else (c, next)
  }

  /** A 0xff byte of the segment is followed by a zero; anything else behind it is a marker (section B.1.1.5 of ITU-T T.81). */
  function ItemAt(data: seq<Byte>, pos: nat): (r: Item)
    requires pos <= |data|
    ensures pos <= r.next <= |data| && (pos < |data| ==> pos < r.next)
  {
    var (b, next) := Get8(data, pos);
    if b != 0xff then Entropy(b, next)
    else
      var (c, after) := SkipFill(data, next);
      if c != 0 then Mark(c, after) else Entropy(b, after)
  }

  /** The bytes of the segment from pos on. */
  function SegmentFrom(data: seq<Byte>, pos: nat): seq<Byte>
    requires pos <= |data|
    decreases |data| - pos
  {
    if pos == |data| then []
    else
      match ItemAt(data, pos)
      case Entropy(b, next) => [b] + SegmentFrom(data, next)
      case Mark(_, _) => []
  }

  /** Is the segment from pos on ended by a marker, or by the end of the data? */
  predicate MarkerEnds(data: seq<Byte>, pos: nat)
    decreases |data| - pos
  {
    pos < |data| &&
    match ItemAt(data, pos)
    case Entropy(_, next) => MarkerEnds(data, next)
    case Mark(_, _) => true
  }

  function BitsOf(bytes: seq<Byte>): seq<bool>
  {
    if bytes == [] then [] else MsbBits(bytes[0], 8) + BitsOf(bytes[1..])
  }

  function Zeros(n: nat): (s: seq<bool>)
    ensures |s| == n && forall i :: 0 <= i < n ==> !s[i]
  {
    seq(n, _ => false)
  }

  // ---------- the top of the buffer ----------

  function Top(buffer: nat, n: nat): (s: seq<bool>)
    requires n <= 32
    ensures |s| == n && forall i :: 0 <= i < n ==> s[i] == Bit(buffer, 31 - i)
  {
    seq(n, i requires 0 <= i < n => Bit(buffer, 31 - i))
  }

  /** The bits that are not valid are zero. */
  ghost predicate Clean(buffer: nat, n: nat)
    requires n <= 32
  {
    forall i: nat :: i < 32 - n ==> !Bit(buffer, i)
  }

  /** A byte put in below the valid bits. */
  lemma TopGrows(buffer: nat, n: nat, b: Byte)
    requires n <= 24 && Clean(buffer, n) && buffer < Pow2(32)
    ensures var g := BitOr(buffer, Shl(b, 24 - n));
            g < Pow2(32) && Clean(g, n + 8) && Top(g, n + 8) == Top(buffer, n) + MsbBits(b, 8)
  {
    hide BitOr, Shl, Bit, Top, Clean;
    var g := BitOr(buffer, Shl(b, 24 - n));
    GrowsBelow(buffer, n, b);
    forall i: nat
      ensures Bit(g, i) == (Bit(buffer, i) || (i >= 24 - n && Bit(b, i - (24 - n))))
    {
      BitOfOr(buffer, Shl(b, 24 - n), i);
      BitOfShl(b, 24 - n, i);
    }
    CleanGrown(buffer, n, b, g);
    TopGrown(buffer, n, b, g);
  }

  lemma GrowsBelow(buffer: nat, n: nat, b: Byte)
    requires n <= 24 && buffer < Pow2(32)
    ensures BitOr(buffer, Shl(b, 24 - n)) < Pow2(32)
  {
    Pow2Values();
    ShlBelow(b, 0, 24 - n, 8);
    Pow2Monotone(32 - n, 32);
    OrBelow(buffer, Shl(b, 24 - n), 32);
  }

  lemma CleanGrown(buffer: nat, n: nat, b: Byte, g: nat)
    requires n <= 24 && Clean(buffer, n)
    requires forall i: nat :: Bit(g, i) == (Bit(buffer, i) || (i >= 24 - n && Bit(b, i - (24 - n))))
    ensures Clean(g, n + 8)
  {
    hide Bit;
  }

  lemma TopGrown(buffer: nat, n: nat, b: Byte, g: nat)
    requires n <= 24 && Clean(buffer, n)
    requires forall i: nat :: Bit(g, i) == (Bit(buffer, i) || (i >= 24 - n && Bit(b, i - (24 - n))))
    ensures Top(g, n + 8) == Top(buffer, n) + MsbBits(b, 8)
  {
    hide Bit;
    var t, u := Top(g, n + 8), Top(buffer, n) + MsbBits(b, 8);
    forall i: nat | i < n + 8
      ensures t[i] == u[i]
    {
      if i < n {
        assert u[i] == Bit(buffer, 31 - i);
        ByteBits(b, 7 + n - i);
      } else {
        assert u[i] == MsbBits(b, 8)[i - n] == Bit(b, 7 - (i - n));
        assert !Bit(buffer, 31 - i);
      }
    }
  }

  lemma ByteBits(b: Byte, i: nat)
    requires i >= 8
    ensures !Bit(b, i)
  {
    Pow2Values();
    HighBitsClear(b, 8, i);
  }

  /** Bits taken off the top. */
  lemma TopDrops(r: Reservoir, n: nat)
    requires n <= r.bits <= 32 && Clean(r.buffer, r.bits)
    ensures Clean(Dropped(r, n).buffer, r.bits - n)
    ensures Top(r.buffer, r.bits) == Top(r.buffer, n) + Top(Dropped(r, n).buffer, r.bits - n)
  {
    var l := Low(r.buffer, 32 - n);
    forall i: nat | i < 32
      ensures Bit(Shl(l, n), i) == (i >= n && Bit(r.buffer, i - n))
    {
      BitOfShl(l, n, i);
      if i >= n {
        BitOfLow(r.buffer, 32 - n, i - n);
      }
    }
  }

  /** The top bits spell a code. */
  lemma TopSpells(buffer: nat, n: nat, code: nat)
    requires 1 <= n <= 16 && Shr(Shr(buffer, 16), 16 - n) == code
    ensures Top(buffer, n) == MsbBits(code, n)
  {
    ShrShr(buffer, 16, 16 - n);
    var t, u := Top(buffer, n), MsbBits(code, n);
    forall i: nat | i < n
      ensures t[i] == u[i]
    {
      BitOfShr(buffer, 32 - n, n - 1 - i);
    }
  }

  class Reader {
    const data: seq<Byte>
    var pos: nat
    var codeBuffer: nat
    var codeBits: int
    var nomore: bool
    var marker: nat

    /** The reservoir, were so many of its bits valid. */
    ghost predicate Filled(bits: int)
      reads this
    {
      pos <= |data| && 0 <= bits <= 32 && codeBuffer < Pow2(32) && Clean(codeBuffer, bits)
    }

    /** The bits to come: those in the reservoir, then those of the rest of the segment. */
    ghost function Coming(bits: int): seq<bool>
      requires Filled(bits)
      reads this
    {
      Top(codeBuffer, bits) + if nomore then [] else BitsOf(SegmentFrom(data, pos))
    }

    ghost predicate Valid()
      reads this
    {
      Filled(codeBits)
    }

    ghost function Ahead(): seq<bool>
      requires Valid()
      reads this
    {
      Coming(codeBits)
    }

    constructor (input: seq<Byte>)
      ensures Valid() && data == input && Ahead() == BitsOf(SegmentFrom(input, 0)) && !nomore
    {
      data := input;
      pos, codeBuffer, codeBits := 0, 0, 0;
      nomore, marker := false, 0;
      new;
      Nothing();
      assert Top(0, 0) + BitsOf(SegmentFrom(data, 0)) == BitsOf(SegmentFrom(data, 0));
    }

    static lemma Nothing()
      ensures Clean(0, 0)
    {
      forall i: nat
        ensures !Bit(0, i)
      {
        BitOfZero(i);
      }
    }

    method ReadByte() returns (b: Byte)
      requires pos <= |data|
      modifies this`pos
      ensures (b, pos) == Get8(data, old(pos)) && pos <= |data|
    {
      if pos < |data| {
        b := data[pos];
        pos := pos + 1;
      } else {
        b := 0;
      }
    }

    /** The next byte of the segment, or the marker. */
    method Fetch() returns (found: bool, b: Byte)
      requires pos <= |data|
      modifies this`pos, this`marker, this`nomore
      ensures pos <= |data|
      ensures old(nomore) ==> found && b == 0 && nomore && pos == old(pos)
      ensures !old(nomore) ==>
                match ItemAt(data, old(pos))
                case Entropy(e, next) => found && b == e && pos == next && !nomore && marker == old(marker)
                case Mark(m, next) => !found && marker == m && pos == next && nomore
    {
      if nomore {
        b := 0;
      } else {
        b := ReadByte();
      }
      if b == 0xff {
        var c := ReadByte();
        while c == 0xff
          invariant pos <= |data| && nomore == old(nomore) && marker == old(marker)
          invariant SkipFill(data, Get8(data, old(pos)).1) == if c == 0xff then SkipFill(data, pos) else (c, pos)
          decreases |data| - pos, c
        {
          c := ReadByte();
        }
        if c != 0 {
          marker := c;
          nomore := true;
          return false, b;
        }
      }
      return true, b;
    }

    /** Adds a byte below the valid bits. */
    method Put(b: Byte)
      requires pos <= |data| && 0 <= codeBits <= 24 && codeBuffer < Pow2(32) && Clean(codeBuffer, codeBits)
      modifies this`codeBuffer, this`codeBits
      ensures Valid() && codeBits == old(codeBits) + 8
      ensures Top(codeBuffer, codeBits) == Top(old(codeBuffer), old(codeBits)) + MsbBits(b, 8)
    {
      hide Clean, Top;
      TopGrows(codeBuffer, codeBits, b);
      codeBuffer := BitOr(codeBuffer, Shl(b, 24 - codeBits));
      codeBits := codeBits + 8;
    }

    /** One round of refilling: the bits to come stay the same, but for zeros added behind the end of the segment. */
    method GrowOnce() returns (found: bool, ghost zeros: nat)
      requires Valid() && codeBits <= 24
      modifies this
      ensures Valid() && Ahead() == old(Ahead()) + Zeros(zeros)
      ensures if found then codeBits == old(codeBits) + 8 && nomore == old(nomore)
              else codeBits == old(codeBits) && nomore && !old(nomore) && zeros == 0 && MarkerEnds(data, old(pos))
      ensures zeros > 0 ==> nomore || pos == |data|
      ensures found && !nomore ==> (MarkerEnds(data, old(pos)) <==> MarkerEnds(data, pos))
      ensures found && !nomore && old(pos) == |data| ==> pos == |data|
    {
      hide Clean, Top, BitsOf, ItemAt;
      ghost var top, rest, was := Top(codeBuffer, codeBits), BitsOf(SegmentFrom(data, pos)), nomore;
      NextBits(data, pos);
      AtEnd(data);
      var b: Byte;
      ghost var pos0 := pos;
      found, b := Fetch();
      zeros := 0;
      if found {
        Put(b);
        if was {
          zeros := 8;
          ZeroByte();
          assert top + MsbBits(0, 8) + [] == top + [] + Zeros(8);
        } else if pos0 == |data| {
          zeros := 8;
          ZeroByte();
          assert top + MsbBits(0, 8) + [] == top + [] + Zeros(8);
        } else {
          assert top + MsbBits(b, 8) + BitsOf(SegmentFrom(data, pos)) == top + rest + Zeros(0);
        }
      } else {
        assert top + [] == top + rest + Zeros(0);
      }
    }

    /** Refills the reservoir until more than 24 bits are valid, or the marker that ends the segment is found. Zeros are
        added only once the rest of the segment is empty. */
    method GrowBuffer() returns (ghost zeros: nat)
      requires Valid() && codeBits <= 24
      modifies this
      ensures Valid() && Ahead() == old(Ahead()) + Zeros(zeros)
      ensures codeBits > 24 || MarkerFound(old(nomore), old(pos), zeros)
      ensures Refilled(old(nomore), old(pos), zeros)
      ensures zeros > 0 ==> |Ahead()| == codeBits
    {
      hide Valid, Ahead, MarkerEnds;
      ghost var start, pos0, was := Ahead(), pos, nomore;
      var found: bool;
      found, zeros := GrowOnce();
      if !found {
        return;
      }
      while codeBits <= 24
        invariant Valid() && Ahead() == start + Zeros(zeros) && nomore == was
        invariant zeros > 0 ==> nomore || pos == |data|
        invariant !nomore ==> (MarkerEnds(data, pos0) <==> MarkerEnds(data, pos))
        decreases 24 - codeBits
      {
        if zeros > 0 && !nomore {
          NoMarkerAtEnd();
        }
        ghost var more;
        found, more := GrowOnce();
        MoreZeros(start, zeros, more);
        zeros := zeros + more;
        if !found {
          return;
        }
      }
      if zeros > 0 {
        NothingBehind();
        NoMarkerAtEnd();
      }
    }

    /** What refilling does about the end of the segment: the marker is noticed only if there is one, and zeros are added
        only behind it or behind the end of the data. */
    ghost predicate Refilled(was: bool, pos0: nat, zeros: nat)
      reads this
    {
      (was ==> nomore) && (nomore ==> was || MarkerEnds(data, pos0)) &&
      (!nomore ==> (MarkerEnds(data, pos0) <==> MarkerEnds(data, pos))) &&
      (zeros > 0 ==> nomore || !MarkerEnds(data, pos0))
    }

    /** This call found the marker that ends the segment, and added no zeros. */
    ghost predicate MarkerFound(was: bool, pos0: nat, zeros: nat)
      reads this
    {
      nomore && !was && zeros == 0 && MarkerEnds(data, pos0)
    }

    lemma NoMarkerAtEnd()
      ensures !MarkerEnds(data, |data|)
    {
    }

    lemma NothingBehind()
      requires Valid() && (nomore || pos == |data|)
      ensures |Ahead()| == codeBits
    {
    }

    function Held(): Reservoir
      reads this
    {
      Reservoir(codeBuffer, codeBits)
    }

    /** Decodes a symbol from the reservoir: the one whose code stands at the top, if all of it is valid. */
    method DecodeHeld(h: JHuffman, ghost lens: seq<nat>) returns (v: int, ghost sym: int)
      requires Valid() && h.Holds(lens) && Accelerable(lens) && (codeBits >= 16 || nomore)
      modifies this`codeBuffer, this`codeBits
      ensures v >= 0 ==>
                Valid() && 0 <= sym < |lens| && v == h.values[sym] &&
                old(Ahead()) == MsbBits(Code(lens, sym), lens[sym]) + Ahead()
      ensures v < 0 ==> NoneStarts(lens, old(Ahead())) && codeBuffer == old(codeBuffer)
      ensures v < 0 ==> sym == SymbolOf(lens, Shr(codeBuffer, 16))
      ensures v < 0 ==> codeBits == old(codeBits) - if sym < 0 then 16 else 0
    {
      hide Kraft, Levels, FastTable, SymbolOf, Clean, TwoPaths, Top, Dropped, BitsOf, SegmentFrom, NoneStarts;
      var r := Held();
      ghost var w := Shr(codeBuffer, 16);
      sym := SymbolOf(lens, w);
      PathsAreCanonical(lens, h.values[..], r);
      var rest: Reservoir;
      v, rest := HuffDecode(h, r, lens);
      ghost var more := if nomore then [] else BitsOf(SegmentFrom(data, pos));
      if v >= 0 {
        TakenOff(lens, r, sym);
        ghost var code, left := MsbBits(Code(lens, sym), lens[sym]), Top(rest.buffer, rest.bits);
        assert code + left + more == code + (left + more);
      } else {
        NoStart(lens, r, sym, more);
      }
      codeBuffer, codeBits := rest.buffer, rest.bits;
    }

    /** Decodes a symbol off the segment, refilling the reservoir first. The bits to come, with zeros behind the end of the
        segment, were the symbol's code followed by the bits to come now; it fails exactly if they start with no code.
        Then they stay, but where no code can follow at all sixteen of them are given up. */
    method HuffDecodeNext(h: JHuffman, ghost lens: seq<nat>) returns (v: int, ghost sym: int, ghost zeros: nat)
      requires Valid() && h.Holds(lens) && Accelerable(lens)
      modifies this
      ensures v >= 0 ==>
                Valid() && 0 <= sym < |lens| && v == h.values[sym] &&
                old(Ahead()) + Zeros(zeros) == MsbBits(Code(lens, sym), lens[sym]) + Ahead()
      ensures v < 0 ==> NoneStarts(lens, old(Ahead()) + Zeros(zeros))
      ensures v < 0 ==>
                var bits := codeBits + if sym < 0 then 16 else 0;
                Filled(bits) && Coming(bits) == old(Ahead()) + Zeros(zeros) && sym == SymbolOf(lens, Shr(codeBuffer, 16)) &&
                (bits >= 16 || MarkerFound(old(nomore), old(pos), zeros))
      ensures Refilled(old(nomore), old(pos), zeros)
      ensures zeros > 0 ==> old(codeBits) < 16 && |old(Ahead())| + zeros <= 32
    {
      hide Kraft, Levels, FastTable, Sorted, Clean, Top, BitsOf, SegmentFrom, NoneStarts, MarkerEnds;
      zeros := 0;
      assert Ahead() + Zeros(0) == Ahead();
      if codeBits < 16 {
        zeros := GrowBuffer();
      }
      v, sym := DecodeHeld(h, lens);
    }

    /** Receives a value of n bits from the reservoir. */
    method ReceiveHeld(n: nat) returns (v: int, ghost raw: nat)
      requires Valid() && 1 <= n <= 15
      modifies this`codeBuffer, this`codeBits
      ensures Valid()
      ensures old(codeBits) < n ==> v == 0 && codeBits == old(codeBits) && Ahead() == old(Ahead())
      ensures old(codeBits) >= n ==>
                raw < Pow2(n) && v == Extended(raw, n) && old(Ahead()) == MsbBits(raw, n) + Ahead()
    {
      hide Clean, Top, Dropped, BitsOf, SegmentFrom, Extended;
      var r := Held();
      raw := Shr(codeBuffer, 32 - n);
      var rest: Reservoir;
      v, rest := ExtendReceive(r, n);
      if r.bits >= n {
        NumberOff(r, n);
        ghost var more := if nomore then [] else BitsOf(SegmentFrom(data, pos));
        assert MsbBits(raw, n) + Top(rest.buffer, rest.bits) + more == MsbBits(raw, n) + (Top(rest.buffer, rest.bits) + more);
      }
      codeBuffer, codeBits := rest.buffer, rest.bits;
    }

    /** Receives a value of n bits off the segment, refilling the reservoir first. Only if this call finds the marker that
        ends the segment, and fewer than n bits are left before it, it gives zero and takes none. */
    method ReceiveNext(n: nat) returns (v: int, ghost raw: nat, ghost zeros: nat)
      requires Valid() && 1 <= n <= 15
      modifies this
      ensures Valid()
      ensures (raw < Pow2(n) && v == Extended(raw, n) && old(Ahead()) + Zeros(zeros) == MsbBits(raw, n) + Ahead())
              || (v == 0 && Ahead() == old(Ahead()) && |Ahead()| < n && MarkerFound(old(nomore), old(pos), zeros))
      ensures Refilled(old(nomore), old(pos), zeros)
      ensures zeros > 0 ==> old(codeBits) < n && |old(Ahead())| + zeros <= 32
    {
      hide Clean, Extended, MarkerEnds;
      zeros := 0;
      assert Ahead() + Zeros(0) == Ahead();
      if codeBits < n {
        zeros := GrowBuffer();
      }
      v, raw := ReceiveHeld(n);
    }

    /** The entry for the window at the top spans more bits than are valid. */
    ghost predicate Overrun(lens: seq<nat>, values: seq<nat>)
      requires |lens| <= |values|
      reads this
    {
      FastAcValue(lens, values, Shr(codeBuffer, 23)) != 0 && FastAcValue(lens, values, Shr(codeBuffer, 23)) % 16 > codeBits
    }

    /** Takes the code and the value that an entry gives at once. */
    method TakeEntry(e: int, ghost lens: seq<nat>, ghost values: seq<nat>)
      returns (found: Coefficient, ghost sym: nat, ghost raw: nat)
      requires Valid() && Sorted(lens) && |lens| <= 256 && Bytes(values)
      requires e == FastAcValue(lens, values, Shr(codeBuffer, 23)) && e != 0 && e % 16 <= codeBits
      modifies this`codeBuffer, this`codeBits
      ensures Valid() && found.Value? && Read(found, lens, values, sym, raw, old(Ahead()), Ahead())
    {
      hide Sorted, Top, Clean, Dropped, BitsOf, SegmentFrom, FastAcValue, CodeAndValue, Extended;
      var r := Held();
      found := Value(e / 16 % 16, e / 256);
      sym, raw := EntryTaken(lens, values, r, found);
      var rest := Dropped(r, e % 16);
      ghost var more := if nomore then [] else BitsOf(SegmentFrom(data, pos));
      ghost var front, left := CodeAndValue(lens, sym, raw, values[sym] % 16), Top(rest.buffer, rest.bits);
      assert front + left + more == front + (left + more);
      codeBuffer, codeBits := rest.buffer, rest.bits;
    }

    /** Decodes a symbol, then receives its value. */
    method SlowCoefficient(h: JHuffman, ghost lens: seq<nat>)
      returns (found: Coefficient, ghost sym: int, ghost raw: nat, ghost zeros: nat)
      requires Valid() && h.Holds(lens) && Accelerable(lens) && Bytes(h.values[..]) && (codeBits >= 16 || nomore)
      modifies this
      ensures found != Bad ==> Valid()
      ensures found != Bad ==>
                Read(found, lens, h.values[..], sym, raw, old(Ahead()) + Zeros(zeros), Ahead()) ||
                (CutOff(found, lens, h.values[..], sym, old(Ahead()), Ahead()) && MarkerFound(old(nomore), old(pos), zeros))
      ensures found == Bad ==> NoneStarts(lens, old(Ahead()) + Zeros(zeros)) && |old(Ahead())| + zeros >= 16
      ensures Refilled(old(nomore), old(pos), zeros)
    {
      hide Kraft, Levels, FastTable, Sorted, Clean, Coming, NoneStarts, MarkerEnds, Read, Code;
      ghost var before := Ahead();
      assert |before| >= codeBits by {
        Longer(codeBits);
      }
      var rs: int;
      rs, sym, zeros := HuffDecodeNext(h, lens);
      raw := 0;
      if rs < 0 {
        Longer(codeBits + if sym < 0 then 16 else 0);
        return Bad, sym, raw, zeros;
      }
      ghost var mid, values, nomore0, pos0 := Ahead(), h.values[..], nomore, pos;
      var s := rs % 16;
      if s == 0 {
        found := if rs == 0xf0 then SkipSixteen else EndOfBlock;
        ReadPlain(found, lens, values, sym, before + Zeros(zeros), mid);
        return;
      }
      var value: int;
      ghost var more;
      value, raw, more := ReceiveNext(s);
      found := Value(rs / 16, value);
      if MarkerFound(nomore0, pos0, more) && Ahead() == mid && |mid| < s && value == 0 {
        assert before + Zeros(0) == before;
        assert CutOff(found, lens, values, sym, before, mid);
      } else {
        ReadValue(found, lens, values, sym, raw, before, zeros, more, mid, Ahead());
      }
      zeros := zeros + more;
    }

    /** One round of the coefficient loop, with the table that does both at once where it can. The bits to come, with
        zeros behind the end of the segment, were the code of a symbol, then its value, then the bits to come now. Only a
        value that the marker cuts off is taken for zero. The round fails if no code stands there, or if an entry spans
        more bits than are left before the marker. */
    method NextCoefficient(h: JHuffman, fastAc: array<int>, ghost lens: seq<nat>)
      returns (found: Coefficient, ghost sym: int, ghost raw: nat, ghost zeros: nat)
      requires Valid() && h.Holds(lens) && Accelerable(lens) && Bytes(h.values[..]) && fastAc.Length == FAST_SIZE
      requires forall i :: 0 <= i < FAST_SIZE ==> fastAc[i] == FastAcValue(lens, h.values[..], i)
      modifies this
      ensures found != Bad ==> Valid()
      ensures found != Bad ==>
                Read(found, lens, h.values[..], sym, raw, old(Ahead()) + Zeros(zeros), Ahead()) ||
                (CutOff(found, lens, h.values[..], sym, old(Ahead()), Ahead()) && MarkerFound(old(nomore), old(pos), zeros))
      ensures found == Bad ==>
                (NoneStarts(lens, old(Ahead()) + Zeros(zeros)) && |old(Ahead())| + zeros >= 16) ||
                (Valid() && Ahead() == old(Ahead()) && Overrun(lens, h.values[..]) && MarkerFound(old(nomore), old(pos), zeros))
      ensures Refilled(old(nomore), old(pos), zeros)
    {
      hide Kraft, Levels, FastTable, Sorted, Clean, Coming, NoneStarts, MarkerEnds, Read, CutOff, Bytes;
      ghost var before := Ahead();
      ghost var first := 0;
      assert before + Zeros(0) == before;
      if codeBits < 16 {
        first := GrowBuffer();
      }
      sym, raw, zeros := 0, 0, first;
      var e := ReadEntry(fastAc);
      if e != 0 {
        if e % 16 > codeBits {
          return Bad, sym, raw, zeros;
        }
        found, sym, raw := TakeEntry(e, lens, h.values[..]);
        return;
      }
      ghost var more;
      found, sym, raw, more := SlowCoefficient(h, lens);
      MoreZeros(before, first, more);
      zeros := first + more;
    }

    /** An overrun means that the marker cuts the value off: with zeros behind the bits that are left, a code stands there
        whose value does not fit. */
    lemma OverrunIsCut(lens: seq<nat>, values: seq<nat>) returns (sym: nat)
      requires Valid() && nomore && Sorted(lens) && |lens| <= 256 && Accelerable(lens) && Bytes(values)
      requires Overrun(lens, values)
      ensures sym < |lens| && values[sym] % 16 != 0 && |Ahead()| < lens[sym] + values[sym] % 16 <= FAST_BITS
      ensures Starts(lens, sym, Ahead() + Zeros(FAST_BITS))
    {
      hide Clean, Extended, Code, Sorted, Accelerable, FastAcValue, SymbolOf, Starts, Shr, Top;
      var r := Held();
      FastAcFilled(lens, values, r);
      FastAcShort(lens, values, Shr(codeBuffer, 23));
      sym := SymbolOf(lens, Shr(codeBuffer, 16));
      ShrShr(codeBuffer, 16, 7);
      EntrySpan(lens, values, Shr(codeBuffer, 16));
      SymbolFits(lens, Shr(codeBuffer, 16));
      PaddedStart(lens, sym, r);
      assert Top(codeBuffer, codeBits) + [] == Top(codeBuffer, codeBits);
    }

    /** The entry for the nine bits at the top. */
    method ReadEntry(fastAc: array<int>) returns (e: int)
      requires Valid() && fastAc.Length == FAST_SIZE
      ensures Shr(codeBuffer, 23) < FAST_SIZE && e == fastAc[Shr(codeBuffer, 23)]
    {
      TopBits(Held());
      ShrShr(codeBuffer, 16, 7);
      e := fastAc[Low(Shr(codeBuffer, 23), 9)];
    }

    lemma Longer(bits: int)
      requires Filled(bits)
      ensures |Coming(bits)| >= bits
    {
    }
  }

  /** What one round of the coefficient loop finds. */
  datatype Coefficient = Bad | EndOfBlock | SkipSixteen | Value(run: nat, value: int)

  /** A coefficient with the run of the symbol and a value of its bits. */
  ghost predicate ValueOf(found: Coefficient, symbol: nat, raw: nat)
  {
    symbol % 16 != 0 && raw < Pow2(symbol % 16) && found == Value(symbol / 16, Extended(raw, symbol % 16))
  }

  /** The bits before were the code of a symbol and, if it has one, its value. */
  ghost predicate Read(found: Coefficient, lens: seq<nat>, values: seq<nat>, sym: int, raw: nat, before: seq<bool>, after: seq<bool>)
  {
    0 <= sym < |lens| <= |values| &&
    if values[sym] % 16 == 0 then
      found == (if values[sym] == 0xf0 then SkipSixteen else EndOfBlock) &&
      before == MsbBits(Code(lens, sym), lens[sym]) + after
    else
      ValueOf(found, values[sym], raw) && before == CodeAndValue(lens, sym, raw, values[sym] % 16) + after
  }

  /** The bits before were the code of a symbol with a value, but not all of the value: it is taken for zero. */
  ghost predicate CutOff(found: Coefficient, lens: seq<nat>, values: seq<nat>, sym: int, before: seq<bool>, after: seq<bool>)
  {
    0 <= sym < |lens| <= |values| && values[sym] % 16 != 0 && found == Value(values[sym] / 16, 0) &&
    before == MsbBits(Code(lens, sym), lens[sym]) + after && |after| < values[sym] % 16
  }

  lemma ReadPlain(found: Coefficient, lens: seq<nat>, values: seq<nat>, sym: int, before: seq<bool>, after: seq<bool>)
    requires 0 <= sym < |lens| <= |values| && values[sym] % 16 == 0
    requires found == if values[sym] == 0xf0 then SkipSixteen else EndOfBlock
    requires before == MsbBits(Code(lens, sym), lens[sym]) + after
    ensures Read(found, lens, values, sym, 0, before, after)
  {
  }

  lemma ReadValue(found: Coefficient, lens: seq<nat>, values: seq<nat>, sym: int, raw: nat,
                  start: seq<bool>, z1: nat, z2: nat, mid: seq<bool>, after: seq<bool>)
    requires 0 <= sym < |lens| <= |values| && values[sym] % 16 != 0 && found.Value? && found.run == values[sym] / 16
    requires start + Zeros(z1) == MsbBits(Code(lens, sym), lens[sym]) + mid
    requires var n := values[sym] % 16;
             raw < Pow2(n) && found.value == Extended(raw, n) && mid + Zeros(z2) == MsbBits(raw, n) + after
    ensures Read(found, lens, values, sym, raw, start + Zeros(z1 + z2), after)
  {
    hide Code, Extended;
    var n := values[sym] % 16;
    var code := MsbBits(Code(lens, sym), lens[sym]);
    MoreZeros(start, z1, z2);
    assert code + mid + Zeros(z2) == code + (mid + Zeros(z2));
    assert code + (MsbBits(raw, n) + after) == code + MsbBits(raw, n) + after;
  }

  ghost function CodeAndValue(lens: seq<nat>, sym: nat, raw: nat, n: nat): seq<bool>
    requires sym < |lens|
  {
    MsbBits(Code(lens, sym), lens[sym]) + MsbBits(raw, n)
  }

  /** An entry takes a code and its value off the top. */
  lemma EntryTaken(lens: seq<nat>, values: seq<nat>, r: Reservoir, found: Coefficient) returns (sym: nat, raw: nat)
    requires Sorted(lens) && |lens| <= 256 && Bytes(values) && Wide(r) && 0 <= r.bits <= 32 && Clean(r.buffer, r.bits)
    requires var e := FastAcValue(lens, values, Shr(r.buffer, 23));
             e != 0 && e % 16 <= r.bits && found == Value(e / 16 % 16, e / 256)
    ensures sym < |lens| && ValueOf(found, values[sym], raw)
    ensures var n := FastAcValue(lens, values, Shr(r.buffer, 23)) % 16;
            var d := Dropped(r, n);
            Top(r.buffer, r.bits) == CodeAndValue(lens, sym, raw, values[sym] % 16) + Top(d.buffer, r.bits - n) &&
            Clean(d.buffer, r.bits - n) && Wide(d) && d.bits == r.bits - n
  {
    hide Sorted, Top, Clean, Dropped, SymbolOf, Extended, FastAcValue, Code;
    FastAcAgrees(lens, values, r);
    FastAcShort(lens, values, Shr(r.buffer, 23));
    sym := SymbolOf(lens, Shr(r.buffer, 16));
    TakenOff(lens, r, sym);
    var mid := Dropped(r, lens[sym]);
    raw := Shr(mid.buffer, 32 - values[sym] % 16);
    NumberOff(mid, values[sym] % 16);
    DroppedBits(r, lens[sym]);
    var n := FastAcValue(lens, values, Shr(r.buffer, 23)) % 16;
    DroppedBits(r, n);
    var code, bits, left := MsbBits(Code(lens, sym), lens[sym]), MsbBits(raw, values[sym] % 16), Dropped(r, n);
    assert code + (bits + Top(left.buffer, r.bits - n)) == code + bits + Top(left.buffer, r.bits - n);
  }

  /** An entry that is not zero spans the code and the value. */
  lemma EntrySpan(lens: seq<nat>, values: seq<nat>, w: nat)
    requires Sorted(lens) && |lens| <= 256 && Bytes(values) && FastAcValue(lens, values, Shr(w, 7)) != 0
    ensures var sym := SymbolOf(lens, w);
            sym >= 0 && FastAcValue(lens, values, Shr(w, 7)) % 16 == lens[sym] + values[sym] % 16
  {
    hide Shr, Low, Shl, SymbolOf, Extended, FastValue, Sorted;
    FastFound(lens, w);
    var sym, i := FastValue(lens, |lens|, Shr(w, 7)), Shr(w, 7);
    var mag, len := values[sym] % 16, lens[sym];
    Parts(Extended(Shr(Low(Shl(i, len), FAST_BITS), FAST_BITS - mag), mag), values[sym] / 16, len + mag);
  }

  /** A code at the top stands at the front of the valid bits with zeros behind them. */
  lemma PaddedStart(lens: seq<nat>, sym: nat, r: Reservoir)
    requires Matches(lens, sym, Shr(r.buffer, 16)) && lens[sym] <= FAST_BITS && 0 <= r.bits <= 32 && Clean(r.buffer, r.bits)
    ensures Starts(lens, sym, Top(r.buffer, r.bits) + Zeros(FAST_BITS))
  {
    hide Code;
    var n := lens[sym];
    TopSpells(r.buffer, n, Code(lens, sym));
    var top := Top(r.buffer, n);
    assert forall i: nat :: i < n ==> top[i] == (Top(r.buffer, r.bits) + Zeros(FAST_BITS))[i];
  }

  // ---------- codes at the front of the bits to come ----------

  /** The code of a symbol stands at the front. */
  ghost predicate Starts(lens: seq<nat>, sym: nat, bits: seq<bool>)
    requires sym < |lens|
  {
    MsbBits(Code(lens, sym), lens[sym]) <= bits
  }

  ghost predicate NoneStarts(lens: seq<nat>, bits: seq<bool>)
  {
    forall sym :: 0 <= sym < |lens| ==> !Starts(lens, sym, bits)
  }

  lemma SameNumber(a: nat, b: nat, n: nat)
    requires a < Pow2(n) && b < Pow2(n) && MsbBits(a, n) == MsbBits(b, n)
    ensures a == b
  {
    hide Bit;
    forall i: nat | i < n
      ensures Bit(a, i) == Bit(b, i)
    {
      assert MsbBits(a, n)[n - 1 - i] == MsbBits(b, n)[n - 1 - i];
    }
    SameBits(a, b, n);
  }

  lemma TopPrefix(buffer: nat, m: nat, n: nat)
    requires m <= n <= 32
    ensures Top(buffer, n)[..m] == Top(buffer, m)
  {
  }

  /** A code at the front of the bits to come is a code at the top of the buffer. */
  lemma StartMatches(lens: seq<nat>, sym: nat, r: Reservoir, more: seq<bool>)
    requires Sorted(lens) && Kraft(lens) && sym < |lens| && Wide(r) && 0 <= r.bits <= 32 && (r.bits >= 16 || more == [])
    requires Starts(lens, sym, Top(r.buffer, r.bits) + more)
    ensures lens[sym] <= r.bits && Matches(lens, sym, Shr(r.buffer, 16))
  {
    hide Top, Code;
    var n, code := lens[sym], Code(lens, sym);
    var front := Top(r.buffer, r.bits) + more;
    assert MsbBits(code, n) == front[..n];
    assert front[..n] == Top(r.buffer, r.bits)[..n];
    TopPrefix(r.buffer, n, r.bits);
    var c := Shr(Shr(r.buffer, 16), 16 - n);
    TopSpells(r.buffer, n, c);
    ShrShr(r.buffer, 16, 16 - n);
    ShrBound(r.buffer, 32 - n, n);
    CodeFits(lens, sym);
    SameNumber(code, c, n);
  }

  /** No code is found in the reservoir: then none is at the front. */
  lemma NoStart(lens: seq<nat>, r: Reservoir, sym: int, more: seq<bool>)
    requires Sorted(lens) && Kraft(lens) && Wide(r) && 0 <= r.bits <= 32 && (r.bits >= 16 || more == [])
    requires sym == SymbolOf(lens, Shr(r.buffer, 16)) && (sym < 0 || lens[sym] > r.bits)
    ensures NoneStarts(lens, Top(r.buffer, r.bits) + more)
  {
    hide Top, Kraft, SymbolOf, Starts;
    var front := Top(r.buffer, r.bits) + more;
    forall s | 0 <= s < |lens|
      ensures !Starts(lens, s, front)
    {
      if Starts(lens, s, front) {
        StartMatches(lens, s, r, more);
        SymbolOfIs(lens, Shr(r.buffer, 16), s);
        assert false;
      }
    }
  }

  /** Bits taken off the top, as a number. */
  lemma NumberOff(r: Reservoir, n: nat)
    requires 1 <= n <= 15 && n <= r.bits <= 32 && Wide(r) && Clean(r.buffer, r.bits)
    ensures var raw := Shr(r.buffer, 32 - n);
            raw < Pow2(n) && Top(r.buffer, r.bits) == MsbBits(raw, n) + Top(Dropped(r, n).buffer, r.bits - n)
    ensures Clean(Dropped(r, n).buffer, r.bits - n) && Wide(Dropped(r, n)) && Dropped(r, n).bits == r.bits - n
  {
    hide Top, Clean;
    ShrBound(r.buffer, 32 - n, n);
    ShrShr(r.buffer, 16, 16 - n);
    TopSpells(r.buffer, n, Shr(r.buffer, 32 - n));
    TopDrops(r, n);
    DroppedWide(r, n);
  }

  /** A decoded code is taken off the top. */
  lemma TakenOff(lens: seq<nat>, r: Reservoir, sym: int)
    requires sym == SymbolOf(lens, Shr(r.buffer, 16)) && sym >= 0 && lens[sym] <= r.bits <= 32 && Wide(r)
    requires Clean(r.buffer, r.bits)
    ensures Top(r.buffer, r.bits) == MsbBits(Code(lens, sym), lens[sym]) + Top(Dropped(r, lens[sym]).buffer, r.bits - lens[sym])
    ensures Clean(Dropped(r, lens[sym]).buffer, r.bits - lens[sym]) && Wide(Dropped(r, lens[sym]))
    ensures Dropped(r, lens[sym]).bits == r.bits - lens[sym]
  {
    hide Top, Clean, Code;
    SymbolFits(lens, Shr(r.buffer, 16));
    TopSpells(r.buffer, lens[sym], Code(lens, sym));
    TopDrops(r, lens[sym]);
    DroppedWide(r, lens[sym]);
  }

  lemma NextBits(data: seq<Byte>, pos: nat)
    requires pos <= |data|
    ensures pos < |data| ==>
              match ItemAt(data, pos)
              case Entropy(b, next) => BitsOf(SegmentFrom(data, pos)) == MsbBits(b, 8) + BitsOf(SegmentFrom(data, next))
              case Mark(_, _) => BitsOf(SegmentFrom(data, pos)) == []
  {
    if pos < |data| && ItemAt(data, pos).Entropy? {
      var s := SegmentFrom(data, pos);
      assert s[1..] == SegmentFrom(data, ItemAt(data, pos).next);
    }
  }

  lemma AtEnd(data: seq<Byte>)
    ensures ItemAt(data, |data|) == Entropy(0, |data|) && BitsOf(SegmentFrom(data, |data|)) == []
  {
  }

  lemma ZeroByte()
    ensures MsbBits(0, 8) == Zeros(8)
  {
    var t := MsbBits(0, 8);
    forall i: nat | i < 8
      ensures !t[i]
    {
      BitOfZero(7 - i);
    }
  }

  lemma MoreZeros(s: seq<bool>, a: nat, b: nat)
    ensures s + Zeros(a) + Zeros(b) == s + Zeros(a + b)
  {
  }

  lemma SymbolFits(lens: seq<nat>, w: nat)
    requires SymbolOf(lens, w) >= 0
    ensures Matches(lens, SymbolOf(lens, w), w)
  {
  }
}
