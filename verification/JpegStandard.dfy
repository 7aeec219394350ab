/** A JPEG scan with the writer's own Huffman tables, decoded with tables that are built from the lists it prints. */
module JpegStandard {
  import opened Basics
  import opened Bits
  import opened Canonical
  import opened JpegTable
  import opened JpegBits
  import opened JpegWriter
  import opened JpegBlock
  import opened JpegTables
  import opened JpegRoundTrip

  // ---------- a table is canonical ----------

  ghost predicate Leveled(t: Table)
  {
    |t.counts| == |t.firsts| == |t.starts| == 16 && t.firsts[0] == t.starts[0] == 0 &&
    (forall n :: 1 <= n < 16 ==> Follows(t.counts, t.firsts, t.starts, n)) &&
    t.starts[15] + t.counts[15] <= 0x1_0000 && t.firsts[15] + t.counts[15] < 256
  }

  /** The symbol rs stands at the place to which its code belongs. */
  predicate Sits(t: Table, s: nat, rs: nat, c: nat, n: nat)
  {
    At(t.symbols, s, rs) && At(t.codes, rs, c) && At(t.sizes, rs, n) && InLevel(t.counts, t.firsts, t.starts, s, c, n)
  }

  ghost predicate Has(t: Table, rs: nat)
  {
    exists s, c, n :: Sits(t, s, rs, c, n)
  }

  ghost function Lens(t: Table): seq<nat>
    requires |t.counts| == 16
  {
    SizeList(t.counts, 16)
  }

  /** The levels of the table are those of the canonical code with its counts. */
  lemma {:induction false} LevelsAre(t: Table, n: nat)
    requires Leveled(t) && 1 <= n <= 16
    ensures FirstIndex(Lens(t), n) == t.firsts[n - 1] && FirstCode(Lens(t), n) == t.starts[n - 1]
    ensures Used(Lens(t), n) == t.counts[n - 1] && |SizeList(t.counts, n)| == t.firsts[n - 1] + t.counts[n - 1]
    decreases n
  {
    hide Sorted;
    SizeListSorted(t.counts, 16);
    LevelCut(t.counts, n);
    LevelCut(t.counts, n - 1);
    if n == 1 {
      assert FirstIndex(Lens(t), 1) == 0 && FirstCode(Lens(t), 1) == 0;
      assert |SizeList(t.counts, 1)| == t.counts[0];
    } else {
      LevelsAre(t, n - 1);
      assert Follows(t.counts, t.firsts, t.starts, n - 1);
    }
  }

  lemma {:induction false} LongerBehind(counts: seq<nat>, n: nat, m: nat)
    requires n <= m <= |counts|
    ensures SizeList(counts, n) <= SizeList(counts, m)
    ensures forall i :: |SizeList(counts, n)| <= i < |SizeList(counts, m)| ==> n < SizeList(counts, m)[i] <= m
    decreases m
  {
    if n < m {
      LongerBehind(counts, n, m - 1);
    }
  }

  /** The list of lengths is cut where the codes of n bits end. */
  lemma LevelCut(counts: seq<nat>, n: nat)
    requires |counts| == 16 && n <= 16
    ensures var lens := SizeList(counts, 16);
            SizeList(counts, n) <= lens && (n > 0 ==> FirstIndex(lens, n) + Used(lens, n) == |SizeList(counts, n)|)
  {
    hide Sorted, FirstIndex, Used;
    SizeListSorted(counts, 16);
    SizeListSorted(counts, n);
    LongerBehind(counts, n, 16);
    if n > 0 {
      LevelDone(SizeList(counts, 16), n, |SizeList(counts, n)|);
    }
  }

  lemma TableKraft(t: Table)
    requires Leveled(t)
    ensures Sorted(Lens(t)) && |Lens(t)| < 256 && Kraft(Lens(t))
  {
    var lens := Lens(t);
    SizeListSorted(t.counts, 16);
    LevelsAre(t, 16);
    LimitIsKraftSum(lens, 16);
    Pow2Values();
  }

  /** A symbol that stands where its code belongs has the canonical code. */
  lemma SymbolCode(t: Table, s: nat, c: nat, n: nat)
    requires Leveled(t) && InLevel(t.counts, t.firsts, t.starts, s, c, n)
    ensures s < |Lens(t)| && Lens(t)[s] == n && Code(Lens(t), s) == c
  {
    hide Follows, Sorted, FirstIndex, FirstCode, Used;
    LevelsAre(t, n);
    LongerBehind(t.counts, n - 1, n);
    LongerBehind(t.counts, n, 16);
    assert |SizeList(t.counts, n - 1)| == t.firsts[n - 1];
    SizeListSorted(t.counts, 16);
    SortedIndex(Lens(t), s);
  }

  // ---------- the tables as the writer and the decoder hold them ----------

  /** An entry; zero where there is none. */
  function ValueAt(rows: seq<seq<nat>>, i: nat): nat
  {
    if i / 16 < |rows| && i % 16 < |rows[i / 16]| then rows[i / 16][i % 16] else 0
  }

  function SymbolAt(t: Table, s: nat): Byte
  {
    if s / 16 < |t.symbols| && s % 16 < |t.symbols[s / 16]| then t.symbols[s / 16][s % 16] else 0
  }

  /** The place of a symbol, found by its code. */
  function PlaceOf(t: Table, rs: nat): nat
    requires Leveled(t)
  {
    var c, n := ValueAt(t.codes, rs), ValueAt(t.sizes, rs);
    if 1 <= n <= 16 && c >= t.starts[n - 1] then t.firsts[n - 1] + (c - t.starts[n - 1]) else 0
  }

  /** The writer's array. */
  function Written(t: Table): (ht: seq<(nat, nat)>)
    ensures |ht| == 256
  {
    seq(256, rs requires 0 <= rs => (ValueAt(t.codes, rs), ValueAt(t.sizes, rs)))
  }

  ghost function CodingOf(t: Table, most: nat): Coding
    requires Leveled(t)
  {
    Coding(seq(256, rs requires 0 <= rs => PlaceOf(t, rs)), Lens(t), seq(256, s requires 0 <= s => SymbolAt(t, s)), most)
  }

  lemma EntryStands(t: Table, rs: nat, most: nat)
    requires Leveled(t) && rs < 256 && Has(t, rs)
    ensures var k := CodingOf(t, most); Entry(Written(t), k.index, k.lens, k.values, rs)
  {
    hide Leveled, Code;
    var s: nat, c: nat, n: nat :| Sits(t, s, rs, c, n);
    SymbolCode(t, s, c, n);
    TableKraft(t);
    assert PlaceOf(t, rs) == s && Written(t)[rs] == (c, n);
  }

  lemma AcStands(t: Table)
    requires Leveled(t)
    requires forall rs :: 0 <= rs < 256 && (rs % 16 == 0 ==> rs == 0 || rs == 0xf0) && rs % 16 <= 10 ==> Has(t, rs)
    ensures var k := CodingOf(t, 10); AcTable(Written(t), k.index, k.lens, k.values, k.most)
  {
    hide Leveled, Has, Entry, Sorted, Kraft;
    TableKraft(t);
    forall rs | 0 <= rs < 256 && Has(t, rs)
      ensures var k := CodingOf(t, 10); Entry(Written(t), k.index, k.lens, k.values, rs)
    {
      EntryStands(t, rs, 10);
    }
  }

  lemma DcStands(t: Table)
    requires Leveled(t) && forall size :: 0 <= size <= 11 ==> Has(t, size)
    ensures var k := CodingOf(t, 11); DcTable(Written(t), k.index, k.lens, k.values, k.most)
  {
    hide Leveled, Has, Entry, Sorted, Kraft;
    TableKraft(t);
    forall size | 0 <= size <= 11
      ensures var k := CodingOf(t, 11); Entry(Written(t), k.index, k.lens, k.values, size)
    {
      EntryStands(t, size, 11);
    }
  }

  /** The tables of a component hold the canonical codes of their lists, for the symbols that a block needs. */
  ghost predicate Canonic(dc: Table, ac: Table)
  {
    Leveled(dc) && Leveled(ac) &&
    (var k := CodingOf(dc, 11); DcTable(Written(dc), k.index, k.lens, k.values, k.most)) &&
    (var k := CodingOf(ac, 10); AcTable(Written(ac), k.index, k.lens, k.values, k.most))
  }

  /** The four tables of the writer hold the canonical codes of the lists that are printed for the decoder. */
  lemma StandardTables()
    ensures Canonic(LUM_DC, LUM_AC) && Canonic(CHROM_DC, CHROM_AC)
  {
    hide Follows, Written, CodingOf, DcTable, AcTable, Leveled, Has;
    LumDcStands();
    LumAcStands();
    ChromDcStands();
    ChromAcStands();
    DcStands(LUM_DC);
    AcStands(LUM_AC);
    DcStands(CHROM_DC);
    AcStands(CHROM_AC);
  }

  lemma LumDcStands()
    ensures Leveled(LUM_DC)
    ensures forall rs :: 0 <= rs <= 11 ==> Has(LUM_DC, rs)
  {
    hide LumDcFollows, Follows, At, InLevel;
    LumDcLevels();
    LumDcEndLevels();
    LumDcAll();
    forall n | 1 <= n < 16
      ensures Follows(LUM_DC.counts, LUM_DC.firsts, LUM_DC.starts, n)
    {
      LumDcStep(n);
    }
    forall rs | LumDcHas(rs)
      ensures Has(LUM_DC, rs)
    {
      var s, c, n :| LumDcSits(s, rs, c, n);
      assert Sits(LUM_DC, s, rs, c, n);
    }
  }

  lemma LumDcStep(n: nat)
    requires LumDcFollows(n)
    ensures Follows(LUM_DC.counts, LUM_DC.firsts, LUM_DC.starts, n)
  {
    hide Follows;
  }

  lemma LumAcStands()
    ensures Leveled(LUM_AC)
    ensures forall rs :: 0 <= rs < 256 && (rs % 16 == 0 ==> rs == 0 || rs == 0xf0) && rs % 16 <= 10 ==> Has(LUM_AC, rs)
  {
    hide LumAcFollows, Follows, At, InLevel;
    LumAcLevels();
    LumAcEndLevels();
    LumAcAll();
    forall n | 1 <= n < 16
      ensures Follows(LUM_AC.counts, LUM_AC.firsts, LUM_AC.starts, n)
    {
      LumAcStep(n);
    }
    forall rs | LumAcHas(rs)
      ensures Has(LUM_AC, rs)
    {
      var s, c, n :| LumAcSits(s, rs, c, n);
      assert Sits(LUM_AC, s, rs, c, n);
    }
  }

  lemma LumAcStep(n: nat)
    requires LumAcFollows(n)
    ensures Follows(LUM_AC.counts, LUM_AC.firsts, LUM_AC.starts, n)
  {
    hide Follows;
  }

  lemma ChromDcStands()
    ensures Leveled(CHROM_DC)
    ensures forall rs :: 0 <= rs <= 11 ==> Has(CHROM_DC, rs)
  {
    hide ChromDcFollows, Follows, At, InLevel;
    ChromDcLevels();
    ChromDcEndLevels();
    ChromDcAll();
    forall n | 1 <= n < 16
      ensures Follows(CHROM_DC.counts, CHROM_DC.firsts, CHROM_DC.starts, n)
    {
      ChromDcStep(n);
    }
    forall rs | ChromDcHas(rs)
      ensures Has(CHROM_DC, rs)
    {
      var s, c, n :| ChromDcSits(s, rs, c, n);
      assert Sits(CHROM_DC, s, rs, c, n);
    }
  }

  lemma ChromDcStep(n: nat)
    requires ChromDcFollows(n)
    ensures Follows(CHROM_DC.counts, CHROM_DC.firsts, CHROM_DC.starts, n)
  {
    hide Follows;
  }

  lemma ChromAcStands()
    ensures Leveled(CHROM_AC)
    ensures forall rs :: 0 <= rs < 256 && (rs % 16 == 0 ==> rs == 0 || rs == 0xf0) && rs % 16 <= 10 ==> Has(CHROM_AC, rs)
  {
    hide ChromAcFollows, Follows, At, InLevel;
    ChromAcLevels();
    ChromAcEndLevels();
    ChromAcAll();
    forall n | 1 <= n < 16
      ensures Follows(CHROM_AC.counts, CHROM_AC.firsts, CHROM_AC.starts, n)
    {
      ChromAcStep(n);
    }
    forall rs | ChromAcHas(rs)
      ensures Has(CHROM_AC, rs)
    {
      var s, c, n :| ChromAcSits(s, rs, c, n);
      assert Sits(CHROM_AC, s, rs, c, n);
    }
  }

  lemma ChromAcStep(n: nat)
    requires ChromAcFollows(n)
    ensures Follows(CHROM_AC.counts, CHROM_AC.firsts, CHROM_AC.starts, n)
  {
    hide Follows;
  }

  // ---------- the decoder ----------

  /** Builds a table from the list that is printed for it. */
  method LoadTable(t: Table) returns (h: JHuffman)
    requires Leveled(t)
    ensures h.Holds(Lens(t)) && h.values[..] == seq(256, s requires 0 <= s => SymbolAt(t, s))
    ensures fresh(h) && fresh(h.fast) && fresh(h.size) && fresh(h.maxcode) && fresh(h.delta) && fresh(h.values)
  {
    hide Follows, SizeList, Sorted, Kraft, SymbolAt, JHuffman.Holds;
    TableKraft(t);
    h := new JHuffman();
    for s := 0 to 256
      invariant h.Shape() && forall k :: 0 <= k < s ==> h.values[k] == SymbolAt(t, k)
    {
      h.values[s] := SymbolAt(t, s);
    }
    ghost var values := h.values[..];
    var ok := h.Build(t.counts);
    assert h.values[..] == values;
  }

  method LoadComponent(dc: Table, ac: Table, dequant: seq<nat>) returns (c: Component)
    requires Leveled(dc) && Leveled(ac) && |dequant| == 64
    ensures Ready(c, CodingOf(dc, 11), CodingOf(ac, 10)) && c.dequant == dequant
  {
    hide Follows, JHuffman.Holds, FastAcValue, SymbolAt, Lens;
    TableKraft(dc);
    TableKraft(ac);
    var hdc := LoadTable(dc);
    var hac := LoadTable(ac);
    var fastAc := new int[FAST_SIZE];
    assert hac.Holds(Lens(ac)) && hdc.Holds(Lens(dc));
    BuildFastAc(hac, fastAc, Lens(ac));
    c := Component(hdc, hac, fastAc, dequant);
    assert hac.Holds(Lens(ac)) && hdc.Holds(Lens(dc));
  }

  // ---------- a scan ----------

  /** Blocks of three components that the standard codes can hold: differences of eleven bits, other coefficients of ten. */
  predicate PlainScan(units: seq<Unit>, preds: seq<int>)
  {
    |preds| == 3 &&
    (units == [] ||
     var u := units[0];
     u.comp < 3 && |u.q| == 64 && Abs(u.q[0] - preds[u.comp]) < 2048 && -0x8000_0000 <= u.q[0] < 0x8000_0000 &&
     (forall i :: 1 <= i < 64 ==> Abs(u.q[i]) < 1024) && PlainScan(units[1..], preds[u.comp := u.q[0]]))
  }

  lemma BlockCodable(dc: Table, ac: Table, q: seq<int>, pred: int)
    requires Canonic(dc, ac) && |q| == 64 && Abs(q[0] - pred) < 2048 && forall i :: 1 <= i < 64 ==> Abs(q[i]) < 1024
    ensures Codable(CodingOf(dc, 11), CodingOf(ac, 10), q, pred)
  {
    hide Leveled, Sorted, Kraft, Indexes, PlaceOf, SymbolAt, Lens, Code;
    var d, a := CodingOf(dc, 11), CodingOf(ac, 10);
    Pow2Values();
    AcIndexes(Written(ac), a.index, a.lens, a.values, a.most);
    forall size | 0 <= size <= 11
      ensures d.index[size] < |d.lens| && d.values[d.index[size]] == size
    {
      assert Entry(Written(dc), d.index, d.lens, d.values, size);
    }
  }

  lemma {:induction false} UnitsCodable(units: seq<Unit>, preds: seq<int>, ds: seq<Coding>, acs: seq<Coding>)
    requires PlainScan(units, preds) && Canonic(LUM_DC, LUM_AC) && Canonic(CHROM_DC, CHROM_AC)
    requires ds == [CodingOf(LUM_DC, 11), CodingOf(CHROM_DC, 11), CodingOf(CHROM_DC, 11)]
    requires acs == [CodingOf(LUM_AC, 10), CodingOf(CHROM_AC, 10), CodingOf(CHROM_AC, 10)]
    ensures ScanCodable(units, preds, ds, acs)
    decreases |units|
  {
    hide CodingOf, Codable, Canonic, Leveled;
    if units != [] {
      var u := units[0];
      if u.comp == 0 {
        BlockCodable(LUM_DC, LUM_AC, u.q, preds[u.comp]);
      } else {
        BlockCodable(CHROM_DC, CHROM_AC, u.q, preds[u.comp]);
      }
      UnitsCodable(units[1..], preds[u.comp := u.q[0]], ds, acs);
    }
  }

  /** The decoder's view of the three components. */
  predicate AcceptedBy(u: Unit, steps: seq<seq<nat>>)
  {
    u.comp < 3 == |steps| && u.q != [] && steps[u.comp] != [] && Mul2ShortsValid(Short(u.q[0]), Short(steps[u.comp][0]))
  }

  ghost predicate SameBlock(block: seq<int>, u: Unit, steps: seq<seq<nat>>)
  {
    u.comp < 3 == |steps| && |u.q| == |steps[u.comp]| == 64 && IsBlock(block, u.q, steps[u.comp])
  }

  /** The codes of the three components: brightness, and twice colour. */
  ghost function DcCodings(): seq<Coding>
    requires Leveled(LUM_DC) && Leveled(CHROM_DC)
  {
    [CodingOf(LUM_DC, 11), CodingOf(CHROM_DC, 11), CodingOf(CHROM_DC, 11)]
  }

  ghost function AcCodings(): seq<Coding>
    requires Leveled(LUM_AC) && Leveled(CHROM_AC)
  {
    [CodingOf(LUM_AC, 10), CodingOf(CHROM_AC, 10), CodingOf(CHROM_AC, 10)]
  }

  function WriterTables(): (tables: seq<Tables>)
    ensures |tables| == 3
  {
    var colour := Tables(Written(CHROM_DC), Written(CHROM_AC));
    [Tables(Written(LUM_DC), Written(LUM_AC)), colour, colour]
  }

  lemma WriterTablesStand()
    ensures Leveled(LUM_DC) && Leveled(LUM_AC) && Leveled(CHROM_DC) && Leveled(CHROM_AC)
    ensures |DcCodings()| == |AcCodings()| == 3
    ensures forall c :: 0 <= c < 3 ==>
              (var d := DcCodings()[c]; DcTable(WriterTables()[c].dc, d.index, d.lens, d.values, d.most)) &&
              (var a := AcCodings()[c]; AcTable(WriterTables()[c].ac, a.index, a.lens, a.values, a.most))
  {
    hide Leveled, CodingOf, DcTable, AcTable, Written;
    StandardTables();
  }

  /** The components as the decoder holds them; the two of colour share their tables. */
  method LoadComponents(steps: seq<seq<nat>>) returns (comps: seq<Component>)
    requires Leveled(LUM_DC) && Leveled(LUM_AC) && Leveled(CHROM_DC) && Leveled(CHROM_AC)
    requires |steps| == 3 && forall c :: 0 <= c < 3 ==> |steps[c]| == 64
    ensures |comps| == 3
    ensures forall c :: 0 <= c < 3 ==> Ready(comps[c], DcCodings()[c], AcCodings()[c]) && comps[c].dequant == steps[c]
  {
    hide Leveled, CodingOf, JHuffman.Holds, FastAcValue, Accelerable, Bytes;
    var y := LoadComponent(LUM_DC, LUM_AC, steps[0]);
    var u := LoadComponent(CHROM_DC, CHROM_AC, steps[1]);
    var v := Component(u.hdc, u.hac, u.fastAc, steps[2]);
    ghost var d, a := CodingOf(CHROM_DC, 11), CodingOf(CHROM_AC, 10);
    assert Ready(y, CodingOf(LUM_DC, 11), CodingOf(LUM_AC, 10));
    assert Ready(v, d, a);
    comps := [y, u, v];
  }

  lemma SameTests(units: seq<Unit>, comps: seq<Component>, steps: seq<seq<nat>>)
    requires |comps| == |steps| == 3 && forall c :: 0 <= c < 3 ==> comps[c].dequant == steps[c]
    requires forall n :: 0 <= n < |units| ==> units[n].comp < 3
    ensures forall n :: 0 <= n < |units| ==> (Accepted(units[n], comps) <==> AcceptedBy(units[n], steps))
    ensures forall n, block :: 0 <= n < |units| ==> (Same(block, units[n], comps) <==> SameBlock(block, units[n], steps))
  {
    hide IsBlock, Mul2ShortsValid, Short;
  }

  /** With the writer's own tables, and tables that the decoder builds from the lists it prints: every scan of blocks that
      the codes can hold is read back as it was written, unless the test for overflow refuses one of its blocks. */
  method StandardScan(units: seq<Unit>, order: seq<nat>, steps: seq<seq<nat>>) returns (ok: bool, blocks: seq<seq<int>>)
    requires PlainScan(units, [0, 0, 0]) && |steps| == 3 && forall c :: 0 <= c < 3 ==> |steps[c]| == 64
    requires |order| == |units| && forall n :: 0 <= n < |order| ==> order[n] == units[n].comp < 3
    ensures ok <==> forall n :: 0 <= n < |units| ==> AcceptedBy(units[n], steps)
    ensures ok ==> |blocks| == |units| && forall n :: 0 <= n < |units| ==> SameBlock(blocks[n], units[n], steps)
  {
    hide Leveled, PlainScan, DcTable, AcTable, WriterTables, ScanCodable, Accepted, Same, AcceptedBy, SameBlock, Ready;
    StandardTables();
    WriterTablesStand();
    UnitsCodable(units, [0, 0, 0], DcCodings(), AcCodings());
    assert seq(3, _ => 0) == [0, 0, 0];
    var comps := LoadComponents(steps);
    SameTests(units, comps, steps);
    ok, blocks := ScanRoundTrip(units, WriterTables(), comps, order, DcCodings(), AcCodings());
  }
}
