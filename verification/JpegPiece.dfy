/** What one round of the coefficient loop takes off a JPEG segment: a code and its value, if that is what stands there. */
module JpegPiece {
  import opened Bits
  import opened BitStream
  import opened Canonical
  import opened JpegTable
  import opened JpegBits
  import opened JpegReader

  // ---------- codes are prefix free, as bit strings ----------

  /** The number whose bits these are, the highest first. */
  function FromBits(bits: seq<bool>): nat
  {
    if bits == [] then 0 else 2 * FromBits(bits[..|bits| - 1]) + if bits[|bits| - 1] then 1 else 0
  }

  lemma FromBitsSplit(bits: seq<bool>)
    requires bits != []
    ensures FromBits(bits) / 2 == FromBits(bits[..|bits| - 1]) && (FromBits(bits) % 2 == 1) == bits[|bits| - 1]
  {
  }

  lemma {:induction false} FromBitsBit(bits: seq<bool>, i: nat)
    requires i < |bits|
    ensures Bit(FromBits(bits), i) == bits[|bits| - 1 - i]
    decreases |bits|
  {
    hide FromBits;
    FromBitsSplit(bits);
    if i > 0 {
      FromBitsBit(bits[..|bits| - 1], i - 1);
    }
  }

  lemma {:induction false} FromBitsBelow(bits: seq<bool>)
    ensures FromBits(bits) < Pow2(|bits|)
    decreases |bits|
  {
    if bits != [] {
      FromBitsBelow(bits[..|bits| - 1]);
    }
  }

  lemma FrontBit(bits: seq<bool>, code: nat, n: nat, i: nat)
    requires |bits| == 16 && n <= 16 && MsbBits(code, n) <= bits && i < n
    ensures Bit(Shr(FromBits(bits), 16 - n), i) == Bit(code, i)
  {
    hide Bit, Shr, FromBits;
    BitOfShr(FromBits(bits), 16 - n, i);
    FromBitsBit(bits, i + (16 - n));
    assert MsbBits(code, n)[n - 1 - i] == bits[n - 1 - i];
  }

  /** A code at the front of 16 bits is at the top of their number. */
  lemma FrontIsTop(bits: seq<bool>, code: nat, n: nat)
    requires |bits| == 16 && n <= 16 && code < Pow2(n) && MsbBits(code, n) <= bits
    ensures Shr(FromBits(bits), 16 - n) == code
  {
    hide Bit, Shr, FromBits, MsbBits, Pow2;
    FromBitsBelow(bits);
    ShrBound(FromBits(bits), 16 - n, n);
    forall i: nat | i < n
      ensures Bit(Shr(FromBits(bits), 16 - n), i) == Bit(code, i)
    {
      FrontBit(bits, code, n, i);
    }
    SameBits(Shr(FromBits(bits), 16 - n), code, n);
  }

  /** No bits start with the codes of two symbols. */
  lemma PrefixFree(lens: seq<nat>, a: nat, b: nat, bits: seq<bool>)
    requires Sorted(lens) && Kraft(lens) && a < |lens| && b < |lens| && Starts(lens, a, bits) && Starts(lens, b, bits)
    ensures a == b
  {
    hide Code, FromBits, Kraft;
    var front := (bits + Zeros(16))[..16];
    CodeFits(lens, a);
    CodeFits(lens, b);
    FrontIsTop(front, Code(lens, a), lens[a]);
    FrontIsTop(front, Code(lens, b), lens[b]);
    MatchUnique(lens, a, b, FromBits(front));
  }

  // ---------- one coefficient ----------

  /** A symbol and the bits of its value. */
  datatype Piece = Piece(sym: nat, raw: nat)

  predicate PieceOk(lens: seq<nat>, values: seq<nat>, p: Piece)
  {
    p.sym < |lens| <= 256 == |values| && p.raw < Pow2(values[p.sym] % 16)
  }

  function PieceBits(lens: seq<nat>, values: seq<nat>, p: Piece): seq<bool>
    requires PieceOk(lens, values, p)
  {
    MsbBits(Code(lens, p.sym), lens[p.sym]) + MsbBits(p.raw, values[p.sym] % 16)
  }

  /** What a piece stands for. */
  function Meaning(values: seq<nat>, p: Piece): Coefficient
    requires p.sym < |values|
  {
    var s := values[p.sym];
    if s == 0xf0 then SkipSixteen else if s % 16 == 0 then EndOfBlock else Value(s / 16, Extended(p.raw, s % 16))
  }

  lemma PieceStarts(lens: seq<nat>, values: seq<nat>, p: Piece, bits: seq<bool>)
    requires PieceOk(lens, values, p) && PieceBits(lens, values, p) <= bits
    ensures Starts(lens, p.sym, bits) && |bits| >= lens[p.sym] + values[p.sym] % 16
  {
    hide Code;
    var code := MsbBits(Code(lens, p.sym), lens[p.sym]);
    assert code == PieceBits(lens, values, p)[..lens[p.sym]] == bits[..lens[p.sym]];
  }

  lemma SameValue(a: nat, b: nat, n: nat, x: seq<bool>, y: seq<bool>)
    requires a < Pow2(n) && b < Pow2(n) && MsbBits(a, n) + x == MsbBits(b, n) + y
    ensures a == b && x == y
  {
    var s, t := MsbBits(a, n) + x, MsbBits(b, n) + y;
    assert s[..n] == MsbBits(a, n) && t[..n] == MsbBits(b, n) && s[n..] == x && t[n..] == y;
    SameNumber(a, b, n);
  }

  /** What is read where a piece stands is that piece. */
  lemma ReadIsPiece(lens: seq<nat>, values: seq<nat>, found: Coefficient, sym: int, raw: nat, p: Piece, rest: seq<bool>,
                    after: seq<bool>)
    requires Sorted(lens) && Kraft(lens) && PieceOk(lens, values, p)
    requires Read(found, lens, values, sym, raw, PieceBits(lens, values, p) + rest, after)
    ensures found == Meaning(values, p) && after == rest
  {
    hide Code, Kraft, Extended;
    var before, n := PieceBits(lens, values, p) + rest, values[p.sym] % 16;
    PieceStarts(lens, values, p, before);
    var code := MsbBits(Code(lens, sym), lens[sym]);
    assert Starts(lens, sym, before) by {
      if values[sym] % 16 != 0 {
        assert code + MsbBits(raw, values[sym] % 16) + after == code + (MsbBits(raw, values[sym] % 16) + after);
      }
    }
    PrefixFree(lens, sym, p.sym, before);
    assert before == code + (MsbBits(p.raw, n) + rest);
    assert before[lens[sym]..] == MsbBits(p.raw, n) + rest;
    if n == 0 {
      assert MsbBits(p.raw, n) + rest == rest && (code + after)[lens[sym]..] == after;
    } else {
      assert (code + MsbBits(raw, n) + after)[lens[sym]..] == MsbBits(raw, n) + after;
      SameValue(raw, p.raw, n, after, rest);
    }
  }

  /** A piece that stands there is not cut off, */
  lemma NotCutOff(lens: seq<nat>, values: seq<nat>, found: Coefficient, sym: int, p: Piece, rest: seq<bool>, after: seq<bool>)
    requires Sorted(lens) && Kraft(lens) && PieceOk(lens, values, p)
    ensures !CutOff(found, lens, values, sym, PieceBits(lens, values, p) + rest, after)
  {
    hide Code, Kraft;
    var before := PieceBits(lens, values, p) + rest;
    if CutOff(found, lens, values, sym, before, after) {
      PieceStarts(lens, values, p, before);
      assert Starts(lens, sym, before);
      PrefixFree(lens, sym, p.sym, before);
      assert false;
    }
  }

  /** nor does its entry overrun the bits that are left. */
  lemma NoOverrun(j: Reader, lens: seq<nat>, values: seq<nat>, p: Piece, rest: seq<bool>)
    requires j.Valid() && j.nomore && Sorted(lens) && Kraft(lens) && Accelerable(lens) && Bytes(values)
    requires PieceOk(lens, values, p) && j.Ahead() == PieceBits(lens, values, p) + rest
    ensures !j.Overrun(lens, values)
  {
    hide Code, Kraft, Reader.Ahead, Reader.Valid, FastAcValue, Sorted, Starts, PieceBits;
    if j.Overrun(lens, values) {
      var sym := j.OverrunIsCut(lens, values);
      var padded := j.Ahead() + Zeros(FAST_BITS);
      PieceStarts(lens, values, p, j.Ahead());
      PieceStarts(lens, values, p, padded);
      PrefixFree(lens, sym, p.sym, padded);
      assert false;
    }
  }

  /** One round of the loop reads the piece that stands there, whichever table decodes it. */
  lemma Outcome(j: Reader, lens: seq<nat>, values: seq<nat>, found: Coefficient, sym: int, raw: nat, zeros: nat, p: Piece,
                rest: seq<bool>, before: seq<bool>)
    requires Sorted(lens) && Kraft(lens) && Accelerable(lens) && Bytes(values) && PieceOk(lens, values, p)
    requires before == PieceBits(lens, values, p) + rest
    requires found != Bad ==> j.Valid()
    requires found != Bad ==>
               Read(found, lens, values, sym, raw, before + Zeros(zeros), j.Ahead()) ||
               CutOff(found, lens, values, sym, before, j.Ahead())
    requires found == Bad ==>
               NoneStarts(lens, before + Zeros(zeros)) ||
               (j.Valid() && j.nomore && j.Ahead() == before && j.Overrun(lens, values))
    ensures found != Bad && found == Meaning(values, p) && j.Ahead() == rest + Zeros(zeros)
  {
    hide Kraft, Sorted, Reader.Ahead, Reader.Valid, Read, CutOff, PieceBits, Meaning, Reader.Overrun, FastAcValue;
    var bits := PieceBits(lens, values, p);
    assert before + Zeros(zeros) == bits + (rest + Zeros(zeros));
    if found == Bad {
      PieceStarts(lens, values, p, before + Zeros(zeros));
      if j.Valid() && j.nomore && j.Ahead() == before {
        NoOverrun(j, lens, values, p, rest);
      }
      assert false;
    } else {
      NotCutOff(lens, values, found, sym, p, rest, j.Ahead());
      ReadIsPiece(lens, values, found, sym, raw, p, rest + Zeros(zeros), j.Ahead());
    }
  }

  // ---------- one round ----------

  /** What a round of the loop took: a piece, or only its code where the marker cuts the value off. */
  datatype Round = Round(piece: Piece, cut: bool)

  ghost predicate RoundOk(lens: seq<nat>, values: seq<nat>, r: Round)
  {
    PieceOk(lens, values, r.piece) && (r.cut ==> values[r.piece.sym] % 16 != 0)
  }

  ghost function RoundBits(lens: seq<nat>, values: seq<nat>, r: Round): seq<bool>
    requires RoundOk(lens, values, r)
  {
    if r.cut then MsbBits(Code(lens, r.piece.sym), lens[r.piece.sym]) else PieceBits(lens, values, r.piece)
  }

  ghost function RoundMeaning(values: seq<nat>, r: Round): Coefficient
    requires r.piece.sym < |values|
  {
    if r.cut then Value(values[r.piece.sym] / 16, 0) else Meaning(values, r.piece)
  }

  /** A coefficient that a symbol can stand for. */
  ghost predicate Sound(c: Coefficient)
  {
    c != Bad && (c.Value? ==> c.run < 16)
  }

  /** A round that fails leaves the bits as they are; a round that does not fail took a piece or cut its value off. */
  lemma RoundTaken(lens: seq<nat>, values: seq<nat>, found: Coefficient, sym: int, raw: nat, zeros: nat,
                   before: seq<bool>, after: seq<bool>) returns (r: Round)
    requires |lens| <= 256 && Bytes(values)
    requires Read(found, lens, values, sym, raw, before + Zeros(zeros), after) ||
             (CutOff(found, lens, values, sym, before, after) && zeros == 0)
    ensures RoundOk(lens, values, r) && found == RoundMeaning(values, r) && Sound(found)
    ensures before + Zeros(zeros) == RoundBits(lens, values, r) + after
    ensures r.piece.sym == sym && (r.cut ==> !Read(found, lens, values, sym, raw, before + Zeros(zeros), after))
  {
    hide Code, Extended;
    if Read(found, lens, values, sym, raw, before + Zeros(zeros), after) {
      r := Round(Piece(sym, if values[sym] % 16 == 0 then 0 else raw), false);
      var code := MsbBits(Code(lens, sym), lens[sym]);
      assert values[sym] % 16 == 0 ==> code + MsbBits(0, 0) == code;
    } else {
      r := Round(Piece(sym, 0), true);
      assert before + Zeros(0) == before;
    }
  }

  /** One round of the loop. If a piece stands there, the round reads it. */
  method NextRound(j: Reader, h: JHuffman, fastAc: array<int>, ghost lens: seq<nat>, ghost given: bool, ghost p: Piece,
                   ghost tail: seq<bool>)
    returns (found: Coefficient, ghost r: Round, ghost zeros: nat)
    requires j.Valid() && h.Holds(lens) && Accelerable(lens) && Bytes(h.values[..]) && fastAc.Length == FAST_SIZE
    requires forall i :: 0 <= i < FAST_SIZE ==> fastAc[i] == FastAcValue(lens, h.values[..], i)
    requires given ==> PieceOk(lens, h.values[..], p) && j.Ahead() == PieceBits(lens, h.values[..], p) + tail
    modifies j
    ensures found != Bad ==>
              j.Valid() && RoundOk(lens, h.values[..], r) && found == RoundMeaning(h.values[..], r) && Sound(found) &&
              old(j.Ahead()) + Zeros(zeros) == RoundBits(lens, h.values[..], r) + j.Ahead() &&
              (r.cut ==> j.nomore && !old(j.nomore))
    ensures found == Bad ==>
              NoneStarts(lens, old(j.Ahead()) + Zeros(zeros)) ||
              (j.Valid() && j.nomore && j.Ahead() == old(j.Ahead()) && j.Overrun(lens, h.values[..]))
    ensures j.Refilled(old(j.nomore), old(j.pos), zeros)
    ensures given ==> found == Meaning(h.values[..], p) && found != Bad && j.Ahead() == tail + Zeros(zeros)
  {
    hide Kraft, Levels, FastTable, Sorted, Reader.Ahead, Reader.Valid, Read, CutOff, PieceBits, PieceOk, RoundOk, RoundBits,
         RoundMeaning, Meaning, NoneStarts, Reader.Overrun, Reader.Refilled, MarkerEnds, FastAcValue;
    ghost var values, before := h.values[..], j.Ahead();
    ghost var sym, raw;
    found, sym, raw, zeros := j.NextCoefficient(h, fastAc, lens);
    if given {
      Outcome(j, lens, values, found, sym, raw, zeros, p, tail, before);
    }
    r := Round(p, false);
    if found != Bad {
      r := RoundTaken(lens, values, found, sym, raw, zeros, before, j.Ahead());
    }
  }
}
