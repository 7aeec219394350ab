/** A JPEG scan: the blocks that the writer prints are the blocks that the decoder reads. */
module JpegRoundTrip {
  import opened Basics
  import opened Bits
  import opened Canonical
  import opened JpegTable
  import opened JpegBits
  import opened JpegReader
  import opened JpegPiece
  import opened JpegBlock
  import opened JpegSink
  import opened JpegWriter

  // ---------- one block ----------

  /** An entry that shows its coefficient, dequantised. */
  predicate Shows(block: seq<int>, q: seq<int>, dequant: seq<nat>, i: nat)
    requires |block| == |q| == |dequant| == 64 && i < 64
  {
    ZigzagOnce(i);
    block[Dezigzag(i)] == Short(q[i] * dequant[Dezigzag(i)])
  }

  /** The block with the coefficients q, which are in zigzag order, dequantised and in natural order. */
  predicate IsBlock(block: seq<int>, q: seq<int>, dequant: seq<nat>)
    requires |q| == |dequant| == 64
  {
    |block| == 64 && forall i :: 0 <= i < 64 ==> Shows(block, q, dequant, i)
  }

  lemma FirstStays()
    ensures Dezigzag(0) == 0
  {
  }

  lemma BlockIsDrawn(read: seq<Coefficient>, q: seq<int>, dequant: seq<nat>)
    requires |q| == |dequant| == 64 && Runs(read) && Encodes(read, q, 1)
    ensures IsBlock(Drawn(FirstOnly(Short(q[0] * dequant[0])), 1, read, dequant), q, dequant)
  {
    hide Dezigzag, Drawn, Encodes, Short;
    FirstStays();
    forall i | 0 <= i < 64
      ensures Shows(Drawn(FirstOnly(Short(q[0] * dequant[0])), 1, read, dequant), q, dequant, i)
    {
      ZigzagOnce(i);
      EncodedIsDrawn(FirstOnly(Short(q[0] * dequant[0])), read, q, 1, dequant, i);
    }
  }

  /** A component of the image as the decoder holds it. */
  datatype Component = Component(hdc: JHuffman, hac: JHuffman, fastAc: array<int>, dequant: seq<nat>)

  /** Its tables are those of these codes. */
  ghost predicate Ready(c: Component, d: Coding, a: Coding)
    reads c.hdc.fast, c.hdc.size, c.hdc.maxcode, c.hdc.delta, c.hac.fast, c.hac.size, c.hac.maxcode, c.hac.delta
    reads c.hdc.values, c.hac.values, c.fastAc
  {
    c.hdc.Holds(d.lens) && c.hac.Holds(a.lens) && Accelerable(d.lens) && Accelerable(a.lens) &&
    c.hdc.values[..] == d.values && c.hac.values[..] == a.values && Bytes(d.values) && Bytes(a.values) &&
    c.fastAc.Length == FAST_SIZE && |c.dequant| == 64 &&
    forall i :: 0 <= i < FAST_SIZE ==> c.fastAc[i] == FastAcValue(a.lens, a.values, i)
  }

  /** The block does not lie in its tables. */
  predicate Apart(data: array<int>, c: Component)
  {
    data != c.fastAc && data != c.hdc.delta && data != c.hac.delta
  }

  /** A written block is read back, whatever follows it, and no bit behind it is taken. It is refused only if the test for
      the overflow of its first coefficient says so. */
  method ReadBlock(j: Reader, c: Component, data: array<int>, pred: int, ghost d: Coding, ghost a: Coding, ghost q: seq<int>,
                   ghost rest: seq<bool>)
    returns (ok: bool, dc: int, ghost zeros: nat)
    requires j.Valid() && Ready(c, d, a) && Codable(d, a, q, pred) && j.Ahead() == BlockBits(d, a, q, pred) + rest
    requires data.Length == 64 && Apart(data, c)
    requires -0x8000_0000 <= pred < 0x8000_0000 && -0x8000_0000 <= q[0] < 0x8000_0000
    modifies j, data
    ensures ok == Mul2ShortsValid(Short(q[0]), Short(c.dequant[0]))
    ensures ok ==> dc == q[0] && IsBlock(data[..], q, c.dequant)
    ensures ok ==> j.Valid() && j.Ahead() == rest + Zeros(zeros) && j.Refilled(old(j.nomore), old(j.pos), zeros)
  {
    hide Reader.Ahead, Reader.Valid, Reader.Refilled, Reader.Overrun, FastAcValue, Drawn, PiecesBits, PieceBits, Meanings,
         Encodes, Complete, RoundsBits, Reads, NoneStarts, NoSize, Mul2ShortsValid, Short, IsBlock, PieceOk, PiecesOk, Indexes,
         Bounded, JHuffman.Holds, Accelerable, Bytes, PlaceAfter, Pieces, Kraft, Sorted, Code, SizeOf, RawOf, Pow2,
         RoundOk, RoundBits;
    BlockOk(d, a, q, pred);
    ghost var p, ps := DcPiece(q[0] - pred, d.index), Pieces(q, 1, a.index);
    EncodesComplete(Meanings(a.lens, a.values, ps), q, 1);
    DcMeaning(d, a, q, pred);
    ghost var first, others := PieceBits(d.lens, d.values, p), PiecesBits(a.lens, a.values, ps);
    assert first + others + rest == first + (others + rest);
    ghost var r, rounds, read, stuck;
    ok, dc, r, rounds, read, zeros, stuck :=
      DecodeBlock(j, c.hdc, c.hac, c.fastAc, data, c.dequant, pred, d.lens, a.lens, p, ps, rest);
    if ok {
      BlockIsDrawn(read, q, c.dequant);
    }
  }

  lemma DcMeaning(d: Coding, a: Coding, q: seq<int>, pred: int)
    requires Codable(d, a, q, pred)
    ensures SizeOf(Abs(q[0] - pred)) <= d.most <= 15 && DcPiece(q[0] - pred, d.index).sym < |d.values|
    ensures Difference(Meaning(d.values, DcPiece(q[0] - pred, d.index))) == q[0] - pred
  {
    hide Extended, RawOf, Pow2, PieceOk, Pieces, PiecesOk, Encodes, Meanings, Bounded, Indexes, SizeOf;
    BlockOk(d, a, q, pred);
    ZeroSize(q[0] - pred);
  }

  lemma ZeroSize(v: int)
    ensures SizeOf(Abs(v)) == 0 <==> v == 0
  {
  }

  // ---------- a scan ----------

  /** A block of a component, its coefficients in zigzag order. */
  datatype Unit = Unit(comp: nat, q: seq<int>)

  /** The tables of a component as the writer holds them. */
  datatype Tables = Tables(dc: seq<(nat, nat)>, ac: seq<(nat, nat)>)

  /** The blocks fit the codes of their components, where each component starts from its prediction. */
  ghost predicate ScanCodable(units: seq<Unit>, preds: seq<int>, ds: seq<Coding>, acs: seq<Coding>)
  {
    |preds| == |ds| == |acs| &&
    (units == [] ||
     var u := units[0];
     u.comp < |preds| && Codable(ds[u.comp], acs[u.comp], u.q, preds[u.comp]) && -0x8000_0000 <= u.q[0] < 0x8000_0000 &&
     ScanCodable(units[1..], preds[u.comp := u.q[0]], ds, acs))
  }

  ghost function ScanBits(units: seq<Unit>, preds: seq<int>, ds: seq<Coding>, acs: seq<Coding>): seq<bool>
    requires ScanCodable(units, preds, ds, acs)
  {
    if units == [] then []
    else
      var u := units[0];
      BlockBits(ds[u.comp], acs[u.comp], u.q, preds[u.comp]) + ScanBits(units[1..], preds[u.comp := u.q[0]], ds, acs)
  }

  /** The bits of the next block come first. */
  lemma NextUnit(units: seq<Unit>, preds: seq<int>, ds: seq<Coding>, acs: seq<Coding>)
    requires units != [] && ScanCodable(units, preds, ds, acs)
    ensures var u := units[0];
            u.comp < |preds| == |ds| == |acs| && Codable(ds[u.comp], acs[u.comp], u.q, preds[u.comp]) && u.q != [] &&
            ScanCodable(units[1..], preds[u.comp := u.q[0]], ds, acs) &&
            ScanBits(units, preds, ds, acs) ==
            BlockBits(ds[u.comp], acs[u.comp], u.q, preds[u.comp]) + ScanBits(units[1..], preds[u.comp := u.q[0]], ds, acs)
  {
    hide BlockBits;
  }

  lemma AllWritten(preds: seq<int>, ds: seq<Coding>, acs: seq<Coding>)
    requires ScanCodable([], preds, ds, acs)
    ensures ScanBits([], preds, ds, acs) == []
  {
  }

  /** Writes the blocks of all components as they come, and the marker that ends the image. */
  method WriteScan(units: seq<Unit>, tables: seq<Tables>, ghost ds: seq<Coding>, ghost acs: seq<Coding>)
    returns (data: seq<Byte>, ghost payload: seq<Byte>, ghost ones: nat)
    requires |tables| == |ds| == |acs| && ScanCodable(units, seq(|ds|, _ => 0), ds, acs)
    requires forall c :: 0 <= c < |ds| ==>
               DcTable(tables[c].dc, ds[c].index, ds[c].lens, ds[c].values, ds[c].most) &&
               AcTable(tables[c].ac, acs[c].index, acs[c].lens, acs[c].values, acs[c].most)
    ensures data == Stuffed(payload) + [0xff, 0xd9] && ones < 8
    ensures BitsOf(payload) == ScanBits(units, seq(|ds|, _ => 0), ds, acs) + AllOnes(ones)
  {
    hide BlockBits, Codable, DcTable, AcTable, Stuffed, BitsOf, Held, Unused, BitSink.Contents, ScanCodable, ScanBits;
    var sink := new BitSink();
    var preds := seq(|tables|, _ => 0);
    ghost var all, left := ScanBits(units, preds, ds, acs), units;
    assert preds == seq(|ds|, _ => 0);
    for n := 0 to |units|
      invariant sink.Valid() && left == units[n..] && |preds| == |tables|
      invariant ScanCodable(left, preds, ds, acs)
      invariant sink.Contents() + ScanBits(left, preds, ds, acs) == all
    {
      var u := units[n];
      assert left[0] == u && left[1..] == units[n + 1..];
      NextUnit(left, preds, ds, acs);
      ghost var before, first := sink.Contents(), BlockBits(ds[u.comp], acs[u.comp], u.q, preds[u.comp]);
      var last := ProcessDu(sink, u.q, preds[u.comp], tables[u.comp].dc, tables[u.comp].ac, ds[u.comp], acs[u.comp]);
      preds, left := preds[u.comp := last], left[1..];
      assert before + (first + ScanBits(left, preds, ds, acs)) == before + first + ScanBits(left, preds, ds, acs);
    }
    AllWritten(preds, ds, acs);
    data, ones := sink.Finish();
    payload := sink.payload;
  }

  /** Does the test for overflow pass for the first coefficient of a block? */
  ghost predicate Accepted(u: Unit, comps: seq<Component>)
    requires u.comp < |comps|
  {
    u.q != [] && comps[u.comp].dequant != [] && Mul2ShortsValid(Short(u.q[0]), Short(comps[u.comp].dequant[0]))
  }

  /** What is read is the block. */
  ghost predicate Same(block: seq<int>, u: Unit, comps: seq<Component>)
  {
    u.comp < |comps| && |u.q| == |comps[u.comp].dequant| == 64 && IsBlock(block, u.q, comps[u.comp].dequant)
  }

  /** Reads the next block of a scan. */
  method ReadUnit(j: Reader, comps: seq<Component>, data: array<int>, preds: seq<int>, c: nat, ghost units: seq<Unit>,
                  ghost ds: seq<Coding>, ghost acs: seq<Coding>, ghost rest: seq<bool>, ghost zeros: nat)
    returns (ok: bool, dc: int, ghost more: nat)
    requires j.Valid() && |comps| == |ds| == |acs| && ScanCodable(units, preds, ds, acs)
    requires units != [] && units[0].comp == c < |comps|
    requires j.Ahead() == ScanBits(units, preds, ds, acs) + (rest + Zeros(zeros))
    requires -0x8000_0000 <= preds[c] < 0x8000_0000
    requires forall c :: 0 <= c < |comps| ==> Ready(comps[c], ds[c], acs[c]) && Apart(data, comps[c])
    requires data.Length == 64
    modifies j, data
    ensures ok == Accepted(units[0], comps)
    ensures ok ==> |units[0].q| == 64 && dc == units[0].q[0] && -0x8000_0000 <= dc < 0x8000_0000
    ensures ok ==> Same(data[..], units[0], comps)
    ensures ok ==> ScanCodable(units[1..], preds[c := dc], ds, acs)
    ensures ok ==>
              j.Valid() && j.Ahead() == ScanBits(units[1..], preds[c := dc], ds, acs) + (rest + Zeros(zeros + more)) &&
              j.Refilled(old(j.nomore), old(j.pos), more)
    ensures forall c :: 0 <= c < |comps| ==> Ready(comps[c], ds[c], acs[c])
  {
    hide BlockBits, Ready, Codable, Reader.Ahead, Reader.Valid, Reader.Refilled, IsBlock, Mul2ShortsValid, Short;
    ghost var u := units[0];
    HasFirst(u, ds[c], acs[c], preds[c]);
    RightSteps(comps[c], ds[c], acs[c]);
    ghost var others := ScanBits(units[1..], preds[c := u.q[0]], ds, acs);
    ghost var first := BlockBits(ds[c], acs[c], u.q, preds[c]);
    assert first + others + (rest + Zeros(zeros)) == first + (others + (rest + Zeros(zeros)));
    ok, dc, more := ReadBlock(j, comps[c], data, preds[c], ds[c], acs[c], u.q, others + (rest + Zeros(zeros)));
    if ok {
      MoreZeros(rest, zeros, more);
      assert others + (rest + Zeros(zeros)) + Zeros(more) == others + (rest + Zeros(zeros) + Zeros(more));
    }
  }

  lemma HasFirst(u: Unit, d: Coding, a: Coding, pred: int)
    requires Codable(d, a, u.q, pred)
    ensures |u.q| == 64
  {
  }

  lemma RightSteps(c: Component, d: Coding, a: Coding)
    requires Ready(c, d, a)
    ensures |c.dequant| == 64
  {
  }

  /** Decodes the blocks of a scan as they come. If they were written, exactly they are read, unless the test for overflow
      refuses one of them. */
  method ReadScan(j: Reader, comps: seq<Component>, order: seq<nat>, ghost units: seq<Unit>, ghost ds: seq<Coding>,
                  ghost acs: seq<Coding>, ghost rest: seq<bool>)
    returns (ok: bool, blocks: seq<seq<int>>, ghost zeros: nat)
    requires j.Valid() && |comps| == |ds| == |acs| && ScanCodable(units, seq(|ds|, _ => 0), ds, acs)
    requires j.Ahead() == ScanBits(units, seq(|ds|, _ => 0), ds, acs) + rest
    requires |units| == |order| && forall n :: 0 <= n < |order| ==> units[n].comp == order[n] < |comps|
    requires forall c :: 0 <= c < |comps| ==> Ready(comps[c], ds[c], acs[c])
    modifies j
    ensures ok <==> forall n :: 0 <= n < |units| ==> Accepted(units[n], comps)
    ensures ok ==> |blocks| == |units| && forall n :: 0 <= n < |units| ==> Same(blocks[n], units[n], comps)
    ensures ok ==> j.Valid() && j.Ahead() == rest + Zeros(zeros) && j.Refilled(old(j.nomore), old(j.pos), zeros)
  {
    hide Reader.Ahead, Reader.Valid, ScanCodable, ScanBits, Ready, Accepted, Same, Short, Mul2ShortsValid, MarkerEnds;
    var data := new int[64];
    var preds := seq(|comps|, _ => 0);
    ghost var left, was, pos0 := units, j.nomore, j.pos;
    assert preds == seq(|ds|, _ => 0) && rest + Zeros(0) == rest;
    blocks, zeros := [], 0;
    forall c | 0 <= c < |comps|
      ensures Apart(data, comps[c])
    {
      var component := comps[c];
      assert old(Ready(component, ds[c], acs[c]));
    }
    assert forall c :: 0 <= c < |comps| ==> Ready(comps[c], ds[c], acs[c]);
    for n := 0 to |order|
      invariant j.Valid() && left == units[n..] && |preds| == |comps| && |blocks| == n
      invariant forall c :: 0 <= c < |preds| ==> -0x8000_0000 <= preds[c] < 0x8000_0000
      invariant forall c :: 0 <= c < |comps| ==> Ready(comps[c], ds[c], acs[c]) && Apart(data, comps[c])
      invariant ScanCodable(left, preds, ds, acs)
      invariant j.Ahead() == ScanBits(left, preds, ds, acs) + (rest + Zeros(zeros))
      invariant j.Refilled(was, pos0, zeros)
      invariant forall m :: 0 <= m < n ==> Accepted(units[m], comps) && Same(blocks[m], units[m], comps)
    {
      var c := order[n];
      assert left[0] == units[n] && left[1..] == units[n + 1..];
      var dc;
      ghost var more;
      ok, dc, more := ReadUnit(j, comps, data, preds, c, left, ds, acs, rest, zeros);
      if !ok {
        return;
      }
      preds, blocks, left, zeros := preds[c := dc], blocks + [data[..]], left[1..], zeros + more;
    }
    ok := true;
    AllWritten(preds, ds, acs);
  }

  /** What the writer prints is what the decoder reads, for every list of blocks of any components in any order; a scan is
      refused exactly if the test for overflow refuses one of its blocks. */
  method ScanRoundTrip(units: seq<Unit>, tables: seq<Tables>, comps: seq<Component>, order: seq<nat>,
                       ghost ds: seq<Coding>, ghost acs: seq<Coding>)
    returns (ok: bool, blocks: seq<seq<int>>)
    requires |tables| == |comps| == |ds| == |acs| && ScanCodable(units, seq(|ds|, _ => 0), ds, acs)
    requires forall c :: 0 <= c < |ds| ==>
               DcTable(tables[c].dc, ds[c].index, ds[c].lens, ds[c].values, ds[c].most) &&
               AcTable(tables[c].ac, acs[c].index, acs[c].lens, acs[c].values, acs[c].most)
    requires |units| == |order| && forall n :: 0 <= n < |order| ==> units[n].comp == order[n] < |comps|
    requires forall c :: 0 <= c < |comps| ==> Ready(comps[c], ds[c], acs[c])
    ensures ok <==> forall n :: 0 <= n < |units| ==> Accepted(units[n], comps)
    ensures ok ==> |blocks| == |units| && forall n :: 0 <= n < |units| ==> Same(blocks[n], units[n], comps)
  {
    hide ScanCodable, ScanBits, Accepted, Same, DcTable, AcTable, Reader.Ahead, Reader.Valid, Accelerable, Bytes, JHuffman.Holds;
    var data;
    ghost var payload, ones, zeros;
    data, payload, ones := WriteScan(units, tables, ds, acs);
    assert data[0..] == Stuffed(payload) + [0xff, 0xd9] + [];
    SegmentOfStuffed(data, 0, payload, 0xd9, []);
    var j := new Reader(data);
    forall c | 0 <= c < |comps|
      ensures Ready(comps[c], ds[c], acs[c])
    {
      var component := comps[c];
      assert old(Ready(component, ds[c], acs[c]));
    }
    ok, blocks, zeros := ReadScan(j, comps, order, units, ds, acs, AllOnes(ones));
  }
}
