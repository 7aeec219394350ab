/** The row filters of PNG (section 6 of RFC 2083) and their inverse. */
module PngFilter {
  import opened Basics

  type Row = seq<Byte>

  /** The predictor of the fourth filter. */
  function Paeth(a: Byte, b: Byte, c: Byte): Byte
  {
    var p := a + b - c;
    var pa, pb, pc := Abs(p - a), Abs(p - b), Abs(p - c);
    if pa <= pb && pa <= pc then a else if pb <= pc then b else c
  }

  /** It is the neighbour nearest to left + up - upper left; of equally near ones, the first in that order. */
  lemma PaethNearest(a: Byte, b: Byte, c: Byte)
    ensures var p, r := a + b - c, Paeth(a, b, c);
            (r == a || r == b || r == c) &&
            Abs(p - r) <= Abs(p - a) && Abs(p - r) <= Abs(p - b) && Abs(p - r) <= Abs(p - c) &&
            (Abs(p - a) == Abs(p - r) ==> r == a) &&
            (Abs(p - b) == Abs(p - r) ==> r == a || r == b)
  {
  }

  /** What a filter predicts from the neighbours: left, up and upper left. */
  function Predicted(filter: nat, left: Byte, up: Byte, upLeft: Byte): Byte
  {
    if filter == 0 then 0
    else if filter == 1 then left
    else if filter == 2 then up
    else if filter == 3 then (left + up) / 2
    else Paeth(left, up, upLeft)
  }

  /** The byte `bpp` places before place n; zero before the start of the row. */
  function Before(s: Row, n: nat, bpp: nat): Byte
    requires 0 < bpp && n <= |s|
  {
    if n >= bpp then s[n - bpp] else 0
  }

  /** What the encoder stores: the differences from the predictions. */
  function Filtered(filter: nat, row: Row, prior: Row, bpp: nat): (raw: Row)
    requires 0 < bpp && |prior| == |row|
    ensures |raw| == |row|
    ensures forall n :: 0 <= n < |row| ==>
              raw[n] == (row[n] + 256 - Predicted(filter, Before(row, n, bpp), prior[n], Before(prior, n, bpp))) % 256
  {
    seq(|row|, n requires 0 <= n < |row| =>
      (row[n] + 256 - Predicted(filter, Before(row, n, bpp), prior[n], Before(prior, n, bpp))) % 256)
  }

  function Restored(filter: nat, raw: Byte, left: Byte, up: Byte, upLeft: Byte): Byte
  {
    (raw + Predicted(filter, left, up, upLeft)) % 256
  }

  /** The row rebuilt from left to right. */
  function Unfiltered(filter: nat, raw: Row, prior: Row, bpp: nat): (row: Row)
    requires 0 < bpp && |raw| <= |prior|
    ensures |row| == |raw|
    decreases |raw|
  {
    if raw == [] then []
    else
      var n := |raw| - 1;
      var row := Unfiltered(filter, raw[..n], prior, bpp);
      row + [Restored(filter, raw[n], Before(row, n, bpp), prior[n], Before(prior, n, bpp))]
  }

  lemma AddBack(row: Byte, p: Byte)
    ensures ((row + 256 - p) % 256 + p) % 256 == row
  {
    if row >= p {
      assert row + 256 - p == 256 + (row - p);
    }
  }

  lemma {:induction false} UnfilterPrefix(filter: nat, row: Row, prior: Row, bpp: nat, n: nat)
    requires 0 < bpp && |prior| == |row| && n <= |row|
    ensures Unfiltered(filter, Filtered(filter, row, prior, bpp)[..n], prior, bpp) == row[..n]
    decreases n
  {
    hide Predicted;
    if n > 0 {
      var raw := Filtered(filter, row, prior, bpp);
      UnfilterPrefix(filter, row, prior, bpp, n - 1);
      assert raw[..n][..n - 1] == raw[..n - 1];
      AddBack(row[n - 1], Predicted(filter, Before(row, n - 1, bpp), prior[n - 1], Before(prior, n - 1, bpp)));
      assert row[..n] == row[..n - 1] + [row[n - 1]];
    }
  }

  /** Unfiltering inverts filtering, for every filter and every pair of rows. */
  lemma UnfilterInverts(filter: nat, row: Row, prior: Row, bpp: nat)
    requires 0 < bpp && |prior| == |row|
    ensures Unfiltered(filter, Filtered(filter, row, prior, bpp), prior, bpp) == row
  {
    UnfilterPrefix(filter, row, prior, bpp, |row|);
    var raw := Filtered(filter, row, prior, bpp);
    assert raw[..|row|] == raw && row[..|row|] == row;
  }

  // ---------- the filters of the decoder ----------

  /** Two filters are added for the first row, where there is no row above. */
  datatype Kind = KNone | KSub | KUp | KAvg | KPaeth | KAvgFirst | KPaethFirst

  function KindOf(filter: nat, first: bool): Kind
    requires filter <= 4
  {
    if filter == 0 then KNone
    else if filter == 1 then KSub
    else if filter == 2 then (if first then KNone else KUp)
    else if filter == 3 then (if first then KAvgFirst else KAvg)
    else if first then KPaethFirst else KPaeth
  }

  /** Whether the row above is looked at. */
  predicate LooksUp(kind: Kind)
  {
    kind.KUp? || kind.KAvg? || kind.KPaeth?
  }

  /** A byte of the first pixel. */
  function StartByte(kind: Kind, raw: Byte, up: Byte): Byte
  {
    match kind
    case KNone => raw
    case KSub => raw
    case KUp => (raw + up) % 256
    case KAvg => (raw + up / 2) % 256
    case KPaeth => (raw + Paeth(0, up, 0)) % 256
    case KAvgFirst => raw
    case KPaethFirst => raw
  }

  /** Any other byte. */
  function NextByte(kind: Kind, raw: Byte, left: Byte, up: Byte, upLeft: Byte): Byte
  {
    match kind
    case KNone => raw
    case KSub => (raw + left) % 256
    case KUp => (raw + up) % 256
    case KAvg => (raw + (up + left) / 2) % 256
    case KPaeth => (raw + Paeth(left, up, upLeft)) % 256
    case KAvgFirst => (raw + left / 2) % 256
    case KPaethFirst => (raw + Paeth(left, 0, 0)) % 256
  }

  /** The decoder's cases, which look at the row above only where they must, agree with the filters; on the first row,
      where they never look, with the filters over a row of zeros. */
  lemma KindsAgree(filter: nat, first: bool, raw: Byte, left: Byte, up: Byte, upLeft: Byte)
    requires filter <= 4 && (first ==> up == 0 && upLeft == 0)
    ensures var kind := KindOf(filter, first);
            var u, v := if LooksUp(kind) then up else 0, if LooksUp(kind) then upLeft else 0;
            NextByte(kind, raw, left, u, v) == Restored(filter, raw, left, up, upLeft) &&
            StartByte(kind, raw, u) == Restored(filter, raw, 0, up, 0)
    ensures first ==> !LooksUp(KindOf(filter, first))
  {
    hide Paeth;
    PaethOfZeros();
    if first {
      FirstKind(filter, raw, left);
    } else {
      OtherKind(filter, raw, left, up, upLeft);
    }
  }

  lemma FirstKind(filter: nat, raw: Byte, left: Byte)
    requires filter <= 4
    ensures var kind := KindOf(filter, true);
            !LooksUp(kind) && NextByte(kind, raw, left, 0, 0) == Restored(filter, raw, left, 0, 0) &&
            StartByte(kind, raw, 0) == Restored(filter, raw, 0, 0, 0)
  {
    hide Paeth;
    PaethOfZeros();
  }

  lemma OtherKind(filter: nat, raw: Byte, left: Byte, up: Byte, upLeft: Byte)
    requires filter <= 4
    ensures var kind := KindOf(filter, false);
            var u, v := if LooksUp(kind) then up else 0, if LooksUp(kind) then upLeft else 0;
            NextByte(kind, raw, left, u, v) == Restored(filter, raw, left, up, upLeft) &&
            StartByte(kind, raw, u) == Restored(filter, raw, 0, up, 0)
  {
    hide Paeth;
  }

  lemma PaethOfZeros()
    ensures Paeth(0, 0, 0) == 0
  {
  }
}
