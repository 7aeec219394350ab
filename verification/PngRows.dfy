/** Rebuilding PNG rows in the output buffer, one row after the other, with or without room for an alpha channel. */
module PngRows {
  import opened Basics
  import opened PngFilter

  /** n * k. */
  function Mul(n: nat, k: nat): nat
  {
    if n == 0 then 0 else Mul(n - 1, k) + k
  }

  lemma {:induction false} MulIsTimes(n: nat, k: nat)
    ensures Mul(n, k) == n * k
    decreases n
  {
    if n > 0 {
      MulIsTimes(n - 1, k);
    }
  }

  lemma MulNext(i: nat, k: nat)
    requires i > 0
    ensures Mul(i, k) == Mul(i - 1, k) + k
  {
  }

  lemma {:induction false} MulGrows(a: nat, b: nat, k: nat)
    requires a < b
    ensures Mul(a, k) + k <= Mul(b, k)
    decreases b
  {
    if a + 1 < b {
      MulGrows(a, b - 1, k);
    }
  }

  // ---------- where the bytes of a row lie ----------

  /** The colour bytes of x pixels: the first `fb` of every `ob` bytes. */
  ghost predicate Colors(s: Row, row: Row, x: nat, fb: nat, ob: nat)
    decreases x
  {
    if x == 0 then s == [] && row == []
    else
      |s| >= ob && |row| >= fb && fb <= ob && s[|s| - ob..|s| - ob + fb] == row[|row| - fb..] &&
      Colors(s[..|s| - ob], row[..|row| - fb], x - 1, fb, ob)
  }

  /** The byte at place `at` of every pixel is 255. */
  ghost predicate Alpha(s: Row, x: nat, at: nat, ob: nat)
    decreases x
  {
    if x == 0 then s == []
    else |s| >= ob && at < ob && s[|s| - ob + at] == 255 && Alpha(s[..|s| - ob], x - 1, at, ob)
  }

  lemma AlphaAppend(s: Row, x: nat, at: nat, ob: nat, pixel: Row)
    requires Alpha(s, x, at, ob) && |pixel| == ob && at < ob && pixel[at] == 255
    ensures Alpha(s + pixel, x + 1, at, ob)
  {
    assert (s + pixel)[..|s|] == s;
  }

  lemma {:induction false} AlphaSize(s: Row, x: nat, at: nat, ob: nat)
    requires Alpha(s, x, at, ob)
    ensures |s| == Mul(x, ob)
    decreases x
  {
    if x > 0 {
      AlphaSize(s[..|s| - ob], x - 1, at, ob);
    }
  }

  /** Writing one alpha byte leaves the colours as they are, */
  lemma {:induction false} ColorsUpdate(s: Row, row: Row, x: nat, fb: nat, ob: nat, i: nat, off: nat, v: Byte)
    requires Colors(s, row, x, fb, ob) && i < x && fb <= off < ob
    ensures Mul(i, ob) + off < |s| && Colors(s[Mul(i, ob) + off := v], row, x, fb, ob)
    decreases x
  {
    hide Colors;
    ColorsSize(s, row, x, fb, ob);
    MulGrows(i, x, ob);
    var t := s[Mul(i, ob) + off := v];
    var n := |s| - ob;
    ColorsUnfold(s, row, x, fb, ob);
    ColorsUnfold(t, row, x, fb, ob);
    if i + 1 == x {
      assert t[..n] == s[..n] && t[n..n + fb] == s[n..n + fb];
    } else {
      MulGrows(i, x - 1, ob);
      ColorsUpdate(s[..n], row[..|row| - fb], x - 1, fb, ob, i, off, v);
      assert t[..n] == s[..n][Mul(i, ob) + off := v] && t[n..n + fb] == s[n..n + fb];
    }
  }

  /** and the other alpha bytes too. */
  lemma {:induction false} AlphaUpdate(s: Row, x: nat, at: nat, ob: nat, i: nat, off: nat)
    requires Alpha(s, x, at, ob) && i < x && off < ob
    ensures Mul(i, ob) + off < |s| && Alpha(s[Mul(i, ob) + off := 255], x, at, ob)
    decreases x
  {
    AlphaSize(s, x, at, ob);
    MulGrows(i, x, ob);
    var t := s[Mul(i, ob) + off := 255];
    var n := |s| - ob;
    if i + 1 == x {
      assert t[..n] == s[..n];
    } else {
      MulGrows(i, x - 1, ob);
      AlphaUpdate(s[..n], x - 1, at, ob, i, off);
      assert t[..n] == s[..n][Mul(i, ob) + off := 255];
    }
  }

  lemma ColorsAppend(s: Row, row: Row, x: nat, fb: nat, ob: nat, pixel: Row)
    requires Colors(s, row, x, fb, ob) && |pixel| == ob && fb <= ob
    ensures Colors(s + pixel, row + pixel[..fb], x + 1, fb, ob)
  {
    hide Colors;
    var t, r := s + pixel, row + pixel[..fb];
    assert t[..|t| - ob] == s && r[..|r| - fb] == row;
    assert t[|t| - ob..|t| - ob + fb] == pixel[..fb] == r[|r| - fb..];
    ColorsUnfold(t, r, x + 1, fb, ob);
  }

  lemma ColorsUnfold(s: Row, row: Row, x: nat, fb: nat, ob: nat)
    requires x > 0
    ensures Colors(s, row, x, fb, ob) <==>
            |s| >= ob && |row| >= fb && fb <= ob && s[|s| - ob..|s| - ob + fb] == row[|row| - fb..] &&
            Colors(s[..|s| - ob], row[..|row| - fb], x - 1, fb, ob)
  {
  }

  lemma {:induction false} ColorsSize(s: Row, row: Row, x: nat, fb: nat, ob: nat)
    requires Colors(s, row, x, fb, ob)
    ensures |s| == Mul(x, ob) && |row| == Mul(x, fb)
    decreases x
  {
    if x > 0 {
      ColorsSize(s[..|s| - ob], row[..|row| - fb], x - 1, fb, ob);
    }
  }

  /** The first i pixels. */
  lemma {:induction false} ColorsPrefix(s: Row, row: Row, x: nat, fb: nat, ob: nat, i: nat)
    requires Colors(s, row, x, fb, ob) && i <= x
    ensures |s| == Mul(x, ob) && |row| == Mul(x, fb) && Mul(i, ob) <= |s| && Mul(i, fb) <= |row|
    ensures Colors(s[..Mul(i, ob)], row[..Mul(i, fb)], i, fb, ob)
    decreases x
  {
    ColorsSize(s, row, x, fb, ob);
    if i < x {
      ColorsPrefix(s[..|s| - ob], row[..|row| - fb], x - 1, fb, ob, i);
      assert s[..|s| - ob][..Mul(i, ob)] == s[..Mul(i, ob)];
      assert row[..|row| - fb][..Mul(i, fb)] == row[..Mul(i, fb)];
    } else {
      assert s[..|s|] == s && row[..|row|] == row;
    }
  }

  // ---------- rows without a gap ----------

  /** The row above: zeros above the first row. */
  ghost predicate Above(out: Row, base: nat, stride: nat, first: bool, prior: Row)
  {
    if first then forall i :: 0 <= i < |prior| ==> prior[i] == 0
    else |prior| <= stride <= base <= |out| && prior == out[base - stride..base - stride + |prior|]
  }

  lemma UnfilterNext(filter: nat, data: Row, prior: Row, bpp: nat, k: nat)
    requires 0 < bpp && k < |data| <= |prior|
    ensures var row := Unfiltered(filter, data[..k], prior, bpp);
            Unfiltered(filter, data[..k + 1], prior, bpp) ==
            row + [Restored(filter, data[k], Before(row, k, bpp), prior[k], Before(prior, k, bpp))]
  {
    hide Restored;
    assert data[..k + 1][..k] == data[..k];
  }

  /** The next byte of a row, from the bytes in the buffer. */
  lemma PackedByte(filter: nat, first: bool, data: Row, prior: Row, fb: nat, k: nat, s: Row, base: nat, stride: nat)
    requires filter <= 4 && 0 < fb <= |data| == |prior| && k < |data| && base + k <= |s|
    requires Above(s, base, stride, first, prior) && s[base..base + k] == Unfiltered(filter, data[..k], prior, fb)
    ensures LooksUp(KindOf(filter, first)) ==> !first && |prior| <= stride <= base
    ensures var kind := KindOf(filter, first);
            var up := if LooksUp(kind) then s[base - stride + k] else 0;
            k < fb ==> Unfiltered(filter, data[..k + 1], prior, fb) == s[base..base + k] + [StartByte(kind, data[k], up)]
    ensures var kind := KindOf(filter, first);
            var up := if LooksUp(kind) then s[base - stride + k] else 0;
            k >= fb ==>
              var upLeft := if LooksUp(kind) then s[base - stride + k - fb] else 0;
              Unfiltered(filter, data[..k + 1], prior, fb)
              == s[base..base + k] + [NextByte(kind, data[k], s[base + k - fb], up, upLeft)]
  {
    hide Unfiltered, NextByte, StartByte, Restored, KindOf, LooksUp;
    var row := Unfiltered(filter, data[..k], prior, fb);
    UnfilterNext(filter, data, prior, fb, k);
    KindsAgree(filter, first, data[k], Before(row, k, fb), prior[k], Before(prior, k, fb));
    if !first {
      assert prior[k] == s[base - stride..base - stride + |prior|][k] == s[base - stride + k];
      assert k >= fb ==> prior[k - fb] == s[base - stride + (k - fb)];
    }
    assert k >= fb ==> row[k - fb] == s[base + (k - fb)];
  }

  lemma AboveKept(now: Row, before: Row, lo: nat, hi: nat, base: nat, stride: nat, first: bool, prior: Row)
    requires Same(now, before, lo, hi) && base <= lo && Above(before, base, stride, first, prior)
    ensures Above(now, base, stride, first, prior)
  {
    if !first {
      assert now[..lo][base - stride..base - stride + |prior|] == now[base - stride..base - stride + |prior|];
      assert before[..lo][base - stride..base - stride + |prior|] == before[base - stride..base - stride + |prior|];
    }
  }

  /** One byte written behind others. */
  lemma Written(now: Row, before: Row, lo: nat, at: nat, v: Byte)
    requires lo <= at < |before| && now == before[at := v]
    ensures now[lo..at + 1] == before[lo..at] + [v] && Same(now, before, at, at + 1)
  {
  }

  lemma SameTrans(a: Row, b: Row, c: Row, lo: nat, mid: nat, hi: nat)
    requires Same(b, a, lo, mid) && Same(c, b, mid, hi)
    ensures Same(c, a, lo, hi)
  {
    assert c[..lo] == c[..mid][..lo] && b[..lo] == b[..mid][..lo];
    assert b[hi..] == b[mid..][hi - mid..] && a[hi..] == a[mid..][hi - mid..];
  }

  method PackedStart(out: array<Byte>, base: nat, stride: nat, data: Row, fb: nat, filter: nat, first: bool,
                     ghost prior: Row, k: nat)
    requires filter <= 4 && 0 < fb <= |data| == |prior| && base + |data| <= out.Length && k < fb
    requires Above(out[..], base, stride, first, prior)
    requires out[base..base + k] == Unfiltered(filter, data[..k], prior, fb)
    modifies out
    ensures Same(out[..], old(out[..]), base + k, base + k + 1)
    ensures out[base..base + k + 1] == Unfiltered(filter, data[..k + 1], prior, fb)
  {
    hide Unfiltered, StartByte, KindOf, LooksUp, Above, Same;
    ghost var before := out[..];
    assert before[base..base + k] == out[base..base + k];
    PackedByte(filter, first, data, prior, fb, k, before, base, stride);
    var kind := KindOf(filter, first);
    var up := if LooksUp(kind) then out[base - stride + k] else 0;
    var v := StartByte(kind, data[k], up);
    out[base + k] := v;
    Written(out[..], before, base, base + k, v);
    assert out[..][base..base + k + 1] == out[base..base + k + 1];
  }

  method PackedNext(out: array<Byte>, base: nat, stride: nat, data: Row, fb: nat, filter: nat, first: bool,
                    ghost prior: Row, k: nat)
    requires filter <= 4 && 0 < fb <= |data| == |prior| && base + |data| <= out.Length && fb <= k < |data|
    requires Above(out[..], base, stride, first, prior)
    requires out[base..base + k] == Unfiltered(filter, data[..k], prior, fb)
    modifies out
    ensures Same(out[..], old(out[..]), base + k, base + k + 1)
    ensures out[base..base + k + 1] == Unfiltered(filter, data[..k + 1], prior, fb)
  {
    hide Unfiltered, NextByte, KindOf, LooksUp, Above, Same;
    ghost var before := out[..];
    assert before[base..base + k] == out[base..base + k];
    PackedByte(filter, first, data, prior, fb, k, before, base, stride);
    var kind := KindOf(filter, first);
    var up := if LooksUp(kind) then out[base - stride + k] else 0;
    var upLeft := if LooksUp(kind) then out[base - stride + k - fb] else 0;
    var v := NextByte(kind, data[k], out[base + k - fb], up, upLeft);
    out[base + k] := v;
    Written(out[..], before, base, base + k, v);
    assert out[..][base..base + k + 1] == out[base..base + k + 1];
  }

  /** Rebuilds the bytes of a row that lie side by side: first those of the first pixel, then the others. */
  method RebuildPacked(out: array<Byte>, base: nat, stride: nat, data: Row, fb: nat, filter: nat, first: bool,
                       ghost prior: Row)
    requires filter <= 4 && 0 < fb <= |data| == |prior| && base + |data| <= out.Length
    requires Above(out[..], base, stride, first, prior)
    modifies out
    ensures out[base..base + |data|] == Unfiltered(filter, data, prior, fb)
    ensures Same(out[..], old(out[..]), base, base + |data|)
  {
    hide Unfiltered, Above, Same;
    NothingYet(filter, data, prior, fb);
    ghost var before := out[..];
    assert Same(before, before, base, base) by {
      SameSelf(before, base);
    }
    var k := 0;
    while k < |data|
      invariant 0 <= k <= |data| && Same(out[..], before, base, base + k)
      invariant Above(out[..], base, stride, first, prior)
      invariant out[base..base + k] == Unfiltered(filter, data[..k], prior, fb)
    {
      ghost var now := out[..];
      if k < fb {
        PackedStart(out, base, stride, data, fb, filter, first, prior, k);
      } else {
        PackedNext(out, base, stride, data, fb, filter, first, prior, k);
      }
      AboveKept(out[..], now, base + k, base + k + 1, base, stride, first, prior);
      SameTrans(before, now, out[..], base, base + k, base + k + 1);
      k := k + 1;
    }
    assert data[..|data|] == data;
  }

  lemma SameSelf(s: Row, at: nat)
    requires at <= |s|
    ensures Same(s, s, at, at)
  {
  }

  lemma NothingYet(filter: nat, data: Row, prior: Row, fb: nat)
    requires 0 < fb && |data| <= |prior|
    ensures Unfiltered(filter, data[..0], prior, fb) == []
  {
  }

  /** Nothing changed outside lo..hi. */
  ghost predicate Same(now: Row, before: Row, lo: nat, hi: nat)
  {
    |now| == |before| && lo <= hi <= |now| && now[..lo] == before[..lo] && now[hi..] == before[hi..]
  }

  // ---------- rows with an alpha channel ----------

  ghost predicate LeftPixel(s: Row, cp: nat, fb: nat, ob: nat, row: Row)
  {
    row == [] ||
    (fb <= |row| && fb <= ob <= cp && cp <= |s| && s[cp - ob..cp - ob + fb] == row[|row| - fb..])
  }

  ghost predicate PixelsAbove(s: Row, cp: nat, stride: nat, fb: nat, ob: nat, prior: Row, m: nat)
  {
    stride <= cp && m + fb <= |prior| && cp - stride + fb <= |s| &&
    s[cp - stride..cp - stride + fb] == prior[m..m + fb] &&
    (m == 0 || (fb <= m && ob <= cp - stride && fb <= ob &&
                s[cp - stride - ob..cp - stride - ob + fb] == prior[m - fb..m]))
  }

  /** The neighbours of the pixel at cp, of which the row so far is `row`: the pixel to the left, and above it the two in
      the row before. */
  ghost predicate Neighbours(s: Row, cp: nat, stride: nat, fb: nat, ob: nat, first: bool, prior: Row, row: Row)
  {
    cp + ob <= |s| && 0 < fb <= ob <= stride && |row| + fb <= |prior| && LeftPixel(s, cp, fb, ob, row) &&
    if first then forall i :: 0 <= i < |prior| ==> prior[i] == 0
    else PixelsAbove(s, cp, stride, fb, ob, prior, |row|)
  }

  /** The next byte of a pixel, from the bytes in the buffer. */
  lemma SpreadByte(filter: nat, first: bool, data: Row, prior: Row, row: Row, fb: nat, ob: nat, k: nat, s: Row, cp: nat,
                   stride: nat)
    requires filter <= 4 && k < fb && |row| + fb <= |data| <= |prior|
    requires Neighbours(s, cp, stride, fb, ob, first, prior, row)
    requires row == Unfiltered(filter, data[..|row|], prior, fb)
    requires row + s[cp..cp + k] == Unfiltered(filter, data[..|row| + k], prior, fb)
    ensures LooksUp(KindOf(filter, first)) ==> !first && stride <= cp && (row == [] || stride + ob <= cp)
    ensures var kind := KindOf(filter, first);
            var up := if LooksUp(kind) then s[cp - stride + k] else 0;
            row == [] ==>
              Unfiltered(filter, data[..|row| + k + 1], prior, fb) == row + s[cp..cp + k] + [StartByte(kind, data[k], up)]
    ensures var kind := KindOf(filter, first);
            var up := if LooksUp(kind) then s[cp - stride + k] else 0;
            row != [] ==>
              var upLeft := if LooksUp(kind) then s[cp - stride - ob + k] else 0;
              Unfiltered(filter, data[..|row| + k + 1], prior, fb)
              == row + s[cp..cp + k] + [NextByte(kind, data[|row| + k], s[cp - ob + k], up, upLeft)]
  {
    hide Unfiltered, NextByte, StartByte, Restored, KindOf, LooksUp;
    var n := |row| + k;
    var sofar := row + s[cp..cp + k];
    UnfilterNext(filter, data, prior, fb, n);
    KindsAgree(filter, first, data[n], Before(sofar, n, fb), prior[n], Before(prior, n, fb));
    if !first {
      assert prior[n] == prior[|row|..|row| + fb][k] == s[cp - stride..cp - stride + fb][k] == s[cp - stride + k];
    }
    if row != [] {
      assert sofar[n - fb] == row[n - fb] == row[|row| - fb..][k] == s[cp - ob..cp - ob + fb][k] == s[cp - ob + k];
      if !first {
        assert prior[n - fb] == prior[|row| - fb..|row|][k] == s[cp - stride - ob + k];
      }
    }
  }

  lemma NeighboursKept(now: Row, before: Row, k: nat, cp: nat, stride: nat, fb: nat, ob: nat, first: bool, prior: Row,
                       row: Row)
    requires Neighbours(before, cp, stride, fb, ob, first, prior, row) && Same(now, before, cp, cp + k)
    ensures Neighbours(now, cp, stride, fb, ob, first, prior, row)
  {
    if row != [] {
      Kept(now, before, cp, cp - ob, cp - ob + fb);
    }
    if !first {
      Kept(now, before, cp, cp - stride, cp - stride + fb);
      if row != [] {
        Kept(now, before, cp, cp - stride - ob, cp - stride - ob + fb);
      }
    }
  }

  lemma Kept(now: Row, before: Row, lo: nat, i: nat, j: nat)
    requires lo <= |now| && lo <= |before| && now[..lo] == before[..lo] && i <= j <= lo
    ensures now[i..j] == before[i..j]
  {
    assert now[..lo][i..j] == now[i..j] && before[..lo][i..j] == before[i..j];
  }

  /** One colour byte. */
  method SpreadStep(out: array<Byte>, cp: nat, stride: nat, data: Row, fb: nat, ob: nat, filter: nat, first: bool,
                    ghost prior: Row, ghost row: Row, rp: nat, k: nat)
    requires filter <= 4 && k < fb && rp == |row| && rp + fb <= |data| <= |prior|
    requires Neighbours(out[..], cp, stride, fb, ob, first, prior, row)
    requires row == Unfiltered(filter, data[..rp], prior, fb)
    requires row + out[cp..cp + k] == Unfiltered(filter, data[..rp + k], prior, fb)
    modifies out
    ensures Same(out[..], old(out[..]), cp + k, cp + k + 1)
    ensures row + out[cp..cp + k + 1] == Unfiltered(filter, data[..rp + k + 1], prior, fb)
  {
    hide Unfiltered, NextByte, StartByte, KindOf, LooksUp, Same;
    ghost var before := out[..];
    assert before[cp..cp + k] == out[cp..cp + k];
    SpreadByte(filter, first, data, prior, row, fb, ob, k, before, cp, stride);
    var kind := KindOf(filter, first);
    var up := if LooksUp(kind) then out[cp - stride + k] else 0;
    var v: Byte;
    if rp == 0 {
      v := StartByte(kind, data[k], up);
    } else {
      var upLeft := if LooksUp(kind) then out[cp - stride - ob + k] else 0;
      v := NextByte(kind, data[rp + k], out[cp - ob + k], up, upLeft);
    }
    out[cp + k] := v;
    Written(out[..], before, cp, cp + k, v);
    assert out[..][cp..cp + k + 1] == out[cp..cp + k + 1];
    assert row + (before[cp..cp + k] + [v]) == row + before[cp..cp + k] + [v];
  }

  /** The colour bytes of one pixel. */
  method SpreadPixel(out: array<Byte>, cp: nat, stride: nat, data: Row, fb: nat, ob: nat, filter: nat, first: bool,
                     ghost prior: Row, ghost row: Row, rp: nat)
    requires filter <= 4 && rp == |row| && rp + fb <= |data| <= |prior|
    requires Neighbours(out[..], cp, stride, fb, ob, first, prior, row)
    requires row == Unfiltered(filter, data[..rp], prior, fb)
    modifies out
    ensures Same(out[..], old(out[..]), cp, cp + fb)
    ensures row + out[cp..cp + fb] == Unfiltered(filter, data[..rp + fb], prior, fb)
  {
    hide Unfiltered, Neighbours, Same;
    ghost var before := out[..];
    assert cp + ob <= out.Length && 0 < fb <= ob by {
      InBuffer(before, cp, stride, fb, ob, first, prior, row);
    }
    SameSelf(before, cp);
    var k := 0;
    while k < fb
      invariant 0 <= k <= fb && Same(out[..], before, cp, cp + k)
      invariant Neighbours(out[..], cp, stride, fb, ob, first, prior, row)
      invariant row + out[cp..cp + k] == Unfiltered(filter, data[..rp + k], prior, fb)
    {
      ghost var now := out[..];
      SpreadStep(out, cp, stride, data, fb, ob, filter, first, prior, row, rp, k);
      SameTrans(before, now, out[..], cp, cp + k, cp + k + 1);
      k := k + 1;
      NeighboursKept(out[..], before, k, cp, stride, fb, ob, first, prior, row);
    }
  }

  lemma InBuffer(s: Row, cp: nat, stride: nat, fb: nat, ob: nat, first: bool, prior: Row, row: Row)
    requires Neighbours(s, cp, stride, fb, ob, first, prior, row)
    ensures cp + ob <= |s| && 0 < fb <= ob
  {
  }

  /** A row of x pixels with an alpha channel. */
  ghost predicate SpreadRow(s: Row, row: Row, x: nat, fb: nat, ob: nat)
  {
    Colors(s, row, x, fb, ob) && Alpha(s, x, fb, ob) && (ob == fb + 2 ==> Alpha(s, x, fb + 1, ob))
  }

  /** The row above, pixel by pixel. */
  ghost predicate AboveSpread(s: Row, base: nat, x: nat, fb: nat, ob: nat, first: bool, prior: Row)
  {
    |prior| == Mul(x, fb) && base + Mul(x, ob) <= |s| &&
    if first then forall i :: 0 <= i < |prior| ==> prior[i] == 0
    else Mul(x, ob) <= base && Colors(s[base - Mul(x, ob)..base], prior, x, fb, ob)
  }

  lemma GetNeighbours(s: Row, base: nat, x: nat, i: nat, fb: nat, ob: nat, first: bool, prior: Row, row: Row)
    requires i < x && 0 < fb <= ob && AboveSpread(s, base, x, fb, ob, first, prior)
    requires base + Mul(i, ob) <= |s| && Colors(s[base..base + Mul(i, ob)], row, i, fb, ob)
    ensures |row| == Mul(i, fb) && |row| + fb <= |prior|
    ensures Neighbours(s, base + Mul(i, ob), Mul(x, ob), fb, ob, first, prior, row)
  {
    hide Colors, Mul, LeftPixel, PixelsAbove;
    var cp := base + Mul(i, ob);
    ColorsSize(s[base..cp], row, i, fb, ob);
    MulGrows(i, x, ob);
    MulGrows(i, x, fb);
    GetLeft(s, base, cp, row, i, fb, ob);
    if !first {
      GetAbove(s, base, x, i, fb, ob, prior);
    }
  }

  lemma GetLeft(s: Row, base: nat, cp: nat, row: Row, i: nat, fb: nat, ob: nat)
    requires base <= cp <= |s| && 0 < fb <= ob && Colors(s[base..cp], row, i, fb, ob)
    ensures LeftPixel(s, cp, fb, ob, row)
  {
    hide Colors, Mul;
    ColorsSize(s[base..cp], row, i, fb, ob);
    if i > 0 {
      LastPixel(s, base, cp, row, i, fb, ob);
    } else {
      NoPixels(fb);
    }
  }

  lemma GetAbove(s: Row, base: nat, x: nat, i: nat, fb: nat, ob: nat, prior: Row)
    requires i < x && 0 < fb <= ob && AboveSpread(s, base, x, fb, ob, false, prior)
    ensures PixelsAbove(s, base + Mul(i, ob), Mul(x, ob), fb, ob, prior, Mul(i, fb))
  {
    hide Colors, Mul;
    PixelAbove(s, base, x, i, fb, ob, prior);
    if i > 0 {
      MulNext(i, ob);
      MulNext(i, fb);
      PixelAbove(s, base, x, i - 1, fb, ob, prior);
    } else {
      NoPixels(fb);
    }
  }

  lemma NoPixels(k: nat)
    ensures Mul(0, k) == 0
  {
  }

  lemma LastPixel(s: Row, base: nat, cp: nat, row: Row, i: nat, fb: nat, ob: nat)
    requires base <= cp <= |s| && i > 0 && Colors(s[base..cp], row, i, fb, ob)
    ensures fb <= |row| && base + ob <= cp && s[cp - ob..cp - ob + fb] == row[|row| - fb..]
  {
    hide Colors;
    var t := s[base..cp];
    ColorsUnfold(t, row, i, fb, ob);
    assert t[|t| - ob..|t| - ob + fb] == s[cp - ob..cp - ob + fb];
  }

  lemma PixelAbove(s: Row, base: nat, x: nat, i: nat, fb: nat, ob: nat, prior: Row)
    requires i < x && 0 < fb <= ob && AboveSpread(s, base, x, fb, ob, false, prior)
    ensures var at, m := base - Mul(x, ob) + Mul(i, ob), Mul(i, fb);
            0 <= at && at + fb <= |s| && m + fb <= |prior| && s[at..at + fb] == prior[m..m + fb]
  {
    hide Colors, Mul;
    var stride := Mul(x, ob);
    var t := s[base - stride..base];
    PixelOf(t, prior, x, fb, ob, i);
    Sub(s, base - stride, base, Mul(i, ob), Mul(i, ob) + fb);
  }

  lemma Sub(s: Row, a: nat, b: nat, i: nat, j: nat)
    requires a <= b <= |s| && i <= j <= b - a
    ensures s[a..b][i..j] == s[a + i..a + j]
  {
    assert forall k :: 0 <= k < j - i ==> s[a..b][i..j][k] == s[a..b][i + k] == s[a + i + k] == s[a + i..a + j][k];
  }

  lemma InFront(s: Row, a: nat, n: nat, end: nat)
    requires a + n <= end <= |s|
    ensures s[..end][a..a + n] == s[a..a + n]
  {
  }

  /** Pixel i of a row. */
  lemma PixelOf(t: Row, row: Row, x: nat, fb: nat, ob: nat, i: nat)
    requires Colors(t, row, x, fb, ob) && i < x && fb <= ob
    ensures Mul(i, ob) + ob <= |t| && Mul(i, fb) + fb <= |row|
    ensures t[Mul(i, ob)..Mul(i, ob) + fb] == row[Mul(i, fb)..Mul(i, fb) + fb]
  {
    hide Colors, Mul;
    ColorsPrefix(t, row, x, fb, ob, i + 1);
    MulNext(i + 1, ob);
    MulNext(i + 1, fb);
    var a, b := Mul(i, ob), Mul(i, fb);
    var u, v := t[..a + ob], row[..b + fb];
    ColorsUnfold(u, v, i + 1, fb, ob);
    assert |u| - ob == a && |v| - fb == b;
    InFront(t, a, fb, a + ob);
    InFront(row, b, fb, b + fb);
    assert v[b..] == v[b..b + fb];
  }

  /** One pixel with its first alpha byte; `row` grows by the pixel's colours. */
  method SpreadOne(out: array<Byte>, base: nat, x: nat, data: Row, fb: nat, ob: nat, filter: nat, first: bool,
                   ghost prior: Row, stride: nat, i: nat, cp: nat, rp: nat)
    requires stride == Mul(x, ob)
    requires filter <= 4 && i < x && 0 < fb < ob && |data| == |prior| && cp == base + Mul(i, ob) && rp == Mul(i, fb)
    requires AboveSpread(out[..], base, x, fb, ob, first, prior) && rp <= |data| && cp <= out.Length
    requires Colors(out[base..cp], Unfiltered(filter, data[..rp], prior, fb), i, fb, ob)
    requires Alpha(out[base..cp], i, fb, ob)
    modifies out
    ensures cp + ob <= out.Length && rp + fb <= |data| && Same(out[..], old(out[..]), cp, cp + ob)
    ensures Colors(out[base..cp + ob], Unfiltered(filter, data[..rp + fb], prior, fb), i + 1, fb, ob)
    ensures Alpha(out[base..cp + ob], i + 1, fb, ob)
  {
    hide Unfiltered, Neighbours, Same, Colors, Alpha, AboveSpread, Mul;
    ghost var before := out[..];
    ghost var row := Unfiltered(filter, data[..rp], prior, fb);
    assert before[base..cp] == out[base..cp];
    GetNeighbours(before, base, x, i, fb, ob, first, prior, row);
    InBuffer(before, cp, Mul(x, ob), fb, ob, first, prior, row);
    SpreadPixel(out, cp, stride, data, fb, ob, filter, first, prior, row, rp);
    ghost var mid := out[..];
    ghost var colors := out[cp..cp + fb];
    out[cp + fb] := 255;
    PixelDone(out[..], mid, before, cp, fb, ob, colors);
    ghost var pixel := out[cp..cp + ob];
    assert out[base..cp] == before[base..cp] by {
      Kept(out[..], before, cp, base, cp);
    }
    assert out[base..cp + ob] == before[base..cp] + pixel;
    ColorsAppend(before[base..cp], row, i, fb, ob, pixel);
    AlphaAppend(before[base..cp], i, fb, ob, pixel);
  }

  lemma PixelDone(now: Row, mid: Row, before: Row, cp: nat, fb: nat, ob: nat, colors: Row)
    requires cp + ob <= |before| && fb < ob && Same(mid, before, cp, cp + fb) && colors == mid[cp..cp + fb]
    requires now == mid[cp + fb := 255]
    ensures Same(now, before, cp, cp + ob) && now[cp..cp + ob][..fb] == colors && now[cp..cp + ob][fb] == 255
    ensures |now| == |before| && now[..cp] == before[..cp]
  {
    assert now[cp + ob..] == mid[cp + fb..][ob - fb..] && before[cp + ob..] == before[cp + fb..][ob - fb..];
  }

  lemma AboveSpreadKept(now: Row, before: Row, lo: nat, hi: nat, base: nat, x: nat, fb: nat, ob: nat, first: bool, prior: Row)
    requires Same(now, before, lo, hi) && base <= lo && AboveSpread(before, base, x, fb, ob, first, prior)
    ensures AboveSpread(now, base, x, fb, ob, first, prior)
  {
    hide Colors, Mul;
    if !first {
      Kept(now, before, lo, base - Mul(x, ob), base);
    }
  }

  /** The pixels of a row, each with its first alpha byte. */
  method SpreadPixels(out: array<Byte>, base: nat, x: nat, data: Row, fb: nat, ob: nat, filter: nat, first: bool,
                      ghost prior: Row, stride: nat)
    requires stride == Mul(x, ob) && |data| == Mul(x, fb)
    requires filter <= 4 && 0 < fb < ob && |data| == |prior|
    requires AboveSpread(out[..], base, x, fb, ob, first, prior) && base + stride <= out.Length
    modifies out
    ensures Same(out[..], old(out[..]), base, base + stride)
    ensures Colors(out[base..base + stride], Unfiltered(filter, data, prior, fb), x, fb, ob)
    ensures Alpha(out[base..base + stride], x, fb, ob)
  {
    hide Unfiltered, Same, Colors, Alpha, AboveSpread, Mul;
    ghost var before := out[..];
    SameSelf(before, base);
    NothingYet(filter, data, prior, fb);
    NoPixels(fb);
    NoPixels(ob);
    NoColors(fb, ob);
    assert out[base..base] == [];
    var i, cp, rp := 0, base, 0;
    while i < x
      invariant 0 <= i <= x && cp == base + Mul(i, ob) && rp == Mul(i, fb) && cp <= out.Length && rp <= |data|
      invariant Same(out[..], before, base, cp)
      invariant AboveSpread(out[..], base, x, fb, ob, first, prior)
      invariant Colors(out[base..cp], Unfiltered(filter, data[..rp], prior, fb), i, fb, ob)
      invariant Alpha(out[base..cp], i, fb, ob)
    {
      ghost var now := out[..];
      SpreadOne(out, base, x, data, fb, ob, filter, first, prior, stride, i, cp, rp);
      AboveSpreadKept(out[..], now, cp, cp + ob, base, x, fb, ob, first, prior);
      SameTrans(before, now, out[..], base, cp, cp + ob);
      i, cp, rp := i + 1, cp + ob, rp + fb;
      MulNext(i, ob);
      MulNext(i, fb);
    }
    assert data[..|data|] == data;
  }

  lemma NoColors(fb: nat, ob: nat)
    ensures Colors([], [], 0, fb, ob) && Alpha([], 0, fb, ob)
  {
  }

  /** The second alpha byte of 16-bit samples. */
  method LowAlpha(out: array<Byte>, base: nat, x: nat, fb: nat, ob: nat, ghost row: Row, stride: nat)
    requires stride == Mul(x, ob) && 0 < fb && ob == fb + 2 && base + stride <= out.Length
    requires Colors(out[base..base + stride], row, x, fb, ob) && Alpha(out[base..base + stride], x, fb, ob)
    modifies out
    ensures Same(out[..], old(out[..]), base, base + stride)
    ensures Colors(out[base..base + stride], row, x, fb, ob) && Alpha(out[base..base + stride], x, fb, ob)
    ensures Alpha(out[base..base + stride], x, fb + 1, ob)
  {
    hide Same, Colors, Alpha, Mul;
    ghost var before := out[..];
    Same3(before, base, base + stride);
    NoPixels(ob);
    AlphaNone(fb + 1, ob);
    assert out[base..base] == [];
    var i, cp := 0, base;
    while i < x
      invariant 0 <= i <= x && cp == base + Mul(i, ob) <= base + stride
      invariant Same(out[..], before, base, base + stride)
      invariant Colors(out[base..base + stride], row, x, fb, ob) && Alpha(out[base..base + stride], x, fb, ob)
      invariant Alpha(out[base..cp], i, fb + 1, ob)
    {
      ghost var now := out[..];
      LowOne(out, base, x, fb, ob, row, stride, i, cp);
      SameBoth(before, now, out[..], base, base + stride);
      i, cp := i + 1, cp + ob;
      MulNext(i, ob);
    }
  }

  method LowOne(out: array<Byte>, base: nat, x: nat, fb: nat, ob: nat, ghost row: Row, stride: nat, i: nat, cp: nat)
    requires stride == Mul(x, ob) && 0 < fb && ob == fb + 2 && base + stride <= out.Length && i < x
    requires cp == base + Mul(i, ob) <= base + stride
    requires Colors(out[base..base + stride], row, x, fb, ob) && Alpha(out[base..base + stride], x, fb, ob)
    requires Alpha(out[base..cp], i, fb + 1, ob)
    modifies out
    ensures Same(out[..], old(out[..]), base, base + stride) && cp + ob <= base + stride
    ensures Colors(out[base..base + stride], row, x, fb, ob) && Alpha(out[base..base + stride], x, fb, ob)
    ensures Alpha(out[base..cp + ob], i + 1, fb + 1, ob)
  {
    hide Same, Colors, Alpha, Mul;
    ghost var now := out[..];
    assert now[base..base + stride] == out[base..base + stride] && now[base..cp] == out[base..cp];
    MulGrows(i, x, ob);
    out[cp + fb + 1] := 255;
    LowStep(out[..], now, base, x, fb, ob, row, stride, i);
    assert out[base..cp + ob] == out[..][base..cp + ob] && out[base..base + stride] == out[..][base..base + stride];
  }

  lemma LowStep(after: Row, now: Row, base: nat, x: nat, fb: nat, ob: nat, row: Row, stride: nat, i: nat)
    requires stride == Mul(x, ob) && 0 < fb && ob == fb + 2 && base + stride <= |now| && i < x && Mul(i, ob) + ob <= stride
    requires Colors(now[base..base + stride], row, x, fb, ob) && Alpha(now[base..base + stride], x, fb, ob)
    requires Alpha(now[base..base + Mul(i, ob)], i, fb + 1, ob)
    requires after == now[base + Mul(i, ob) + fb + 1 := 255]
    ensures Same(after, now, base, base + stride)
    ensures Colors(after[base..base + stride], row, x, fb, ob) && Alpha(after[base..base + stride], x, fb, ob)
    ensures Alpha(after[base..base + Mul(i, ob) + ob], i + 1, fb + 1, ob)
  {
    hide Same, Colors, Alpha, Mul;
    var s, at := now[base..base + stride], Mul(i, ob);
    LowDone(after, now, base, stride, at, fb, ob);
    ColorsUpdate(s, row, x, fb, ob, i, fb + 1, 255);
    AlphaUpdate(s, x, fb, ob, i, fb + 1);
    AlphaAppend(after[base..base + at], i, fb + 1, ob, after[base + at..base + at + ob]);
  }

  lemma LowDone(now: Row, before: Row, base: nat, stride: nat, at: nat, fb: nat, ob: nat)
    requires base + stride <= |before| && at + ob <= stride && ob == fb + 2
    requires now == before[base + at + fb + 1 := 255]
    ensures Same(now, before, base, base + stride)
    ensures now[base..base + stride] == before[base..base + stride][at + (fb + 1) := 255]
    ensures now[base..base + at] == before[base..base + at]
    ensures now[base..base + at + ob] == now[base..base + at] + now[base + at..base + at + ob]
    ensures now[base + at..base + at + ob][fb + 1] == 255
  {
  }

  lemma Same3(s: Row, lo: nat, hi: nat)
    requires lo <= hi <= |s|
    ensures Same(s, s, lo, hi)
  {
  }

  lemma AlphaNone(at: nat, ob: nat)
    ensures Alpha([], 0, at, ob)
  {
  }

  lemma Inside(now: Row, before: Row, lo: nat, hi: nat, at: nat, v: Byte)
    requires lo <= at < hi <= |before| && now == before[at := v]
    ensures Same(now, before, lo, hi)
  {
  }

  /** Rebuilds a row and gives it an opaque alpha channel. */
  method RebuildSpread(out: array<Byte>, base: nat, x: nat, data: Row, fb: nat, ob: nat, filter: nat, first: bool,
                       ghost prior: Row, stride: nat)
    requires stride == Mul(x, ob) && |data| == Mul(x, fb)
    requires filter <= 4 && 0 < fb && (ob == fb + 1 || ob == fb + 2) && |data| == |prior|
    requires AboveSpread(out[..], base, x, fb, ob, first, prior) && base + stride <= out.Length
    modifies out
    ensures Same(out[..], old(out[..]), base, base + stride)
    ensures SpreadRow(out[base..base + stride], Unfiltered(filter, data, prior, fb), x, fb, ob)
  {
    hide Unfiltered, Same, Colors, Alpha, AboveSpread, Mul;
    ghost var before := out[..];
    SpreadPixels(out, base, x, data, fb, ob, filter, first, prior, stride);
    if ob == fb + 2 {
      ghost var mid := out[..];
      LowAlpha(out, base, x, fb, ob, Unfiltered(filter, data, prior, fb), stride);
      SameBoth(before, mid, out[..], base, base + stride);
    }
  }

  lemma SameBoth(a: Row, b: Row, c: Row, lo: nat, hi: nat)
    requires Same(b, a, lo, hi) && Same(c, b, lo, hi)
    ensures Same(c, a, lo, hi)
  {
  }
}
