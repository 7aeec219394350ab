/** Adam7 interlacing (section 2.6 of RFC 2083): seven passes that cover the image, each pixel exactly once. */
module PngInterlace {
  import opened Basics
  import opened PngFilter
  import opened PngRows
  import opened PngImage

  // ---------- the passes ----------

  function XOrig(p: nat): nat { if p == 1 then 4 else if p == 3 then 2 else if p == 5 then 1 else 0 }

  function YOrig(p: nat): nat { if p == 2 then 4 else if p == 4 then 2 else if p == 6 then 1 else 0 }

  function XSpc(p: nat): (r: nat)
    ensures r > 0
  {
    if p <= 1 then 8 else if p <= 3 then 4 else if p <= 5 then 2 else 1
  }

  function YSpc(p: nat): (r: nat)
    ensures r > 0
  {
    if p <= 2 then 8 else if p <= 4 then 4 else 2
  }

  /** The size of a pass over n pixels: how many places orig + k * spc are below n. */
  function Count(n: nat, orig: nat, spc: nat): nat
    requires spc > 0 && n + spc >= orig + 1
  {
    (n - orig + spc - 1) / spc
  }

  lemma Enough(p: nat, n: nat)
    requires p < 7 && n > 0
    ensures n + XSpc(p) >= XOrig(p) + 1 && n + YSpc(p) >= YOrig(p) + 1
  {
  }

  function PassWidth(p: nat, w: nat): nat
    requires p < 7 && w > 0
  {
    Enough(p, w);
    Count(w, XOrig(p), XSpc(p))
  }

  function PassHeight(p: nat, h: nat): nat
    requires p < 7 && h > 0
  {
    Enough(p, h);
    Count(h, YOrig(p), YSpc(p))
  }

  predicate Odd(n: nat) { n % 2 == 1 }

  predicate TwoOfFour(n: nat) { n % 4 == 2 }

  predicate FourOfEight(n: nat) { n % 8 == 4 }

  /** The pass a pixel belongs to. */
  function PassOf(x: nat, y: nat): (p: nat)
    ensures p < 7
  {
    if Odd(y) then 6
    else if Odd(x) then 5
    else if TwoOfFour(y) then 4
    else if TwoOfFour(x) then 3
    else if FourOfEight(y) then 2
    else if FourOfEight(x) then 1
    else 0
  }

  function Col(p: nat, x: nat): int { (x as int - XOrig(p)) / XSpc(p) }

  function Line(p: nat, y: nat): int { (y as int - YOrig(p)) / YSpc(p) }

  /** Column i and row j of pass p, in the image. */
  function X(p: nat, i: nat): nat { i * XSpc(p) + XOrig(p) }

  function Y(p: nat, j: nat): nat { j * YSpc(p) + YOrig(p) }

  /** A place of a pass is below n exactly if its number is below the count. */
  lemma CountExact(n: nat, orig: nat, spc: nat, k: nat)
    requires (spc == 1 || spc == 2 || spc == 4 || spc == 8) && n + spc >= orig + 1
    ensures k < Count(n, orig, spc) <==> k * spc + orig < n
  {
    var m := n - orig + spc - 1;
    if spc == 1 {
    } else if spc == 2 {
      assert k < m / 2 <==> 2 * (k + 1) <= m;
    } else if spc == 4 {
      assert k < m / 4 <==> 4 * (k + 1) <= m;
    } else {
      assert k < m / 8 <==> 8 * (k + 1) <= m;
    }
  }

  /** Every place of a pass lies in the image, and belongs to that pass. */
  lemma PassInside(w: nat, h: nat, p: nat, i: nat, j: nat)
    requires w > 0 && h > 0 && p < 7 && i < PassWidth(p, w) && j < PassHeight(p, h)
    ensures X(p, i) < w && Y(p, j) < h && PassOf(X(p, i), Y(p, j)) == p && Col(p, X(p, i)) == i && Line(p, Y(p, j)) == j
  {
    Enough(p, w);
    Enough(p, h);
    CountExact(w, XOrig(p), XSpc(p), i);
    CountExact(h, YOrig(p), YSpc(p), j);
    PassOfPlace(p, i, j);
  }

  lemma Twos(k: nat)
    ensures !Odd(k * 2) && Odd(k * 2 + 1) && k * 2 / 2 == k
  {
  }

  lemma Fours(k: nat)
    ensures !Odd(k * 4) && !Odd(k * 4 + 2) && !TwoOfFour(k * 4) && TwoOfFour(k * 4 + 2) && k * 4 / 4 == k
  {
    hide Odd, TwoOfFour;
    FourPlaces(k);
    Fourth(k, 0);
    Fourth(k, 2);
    IsTwoOfFour(4 * k);
    IsTwoOfFour(4 * k + 2);
    Twos(k * 2);
    Twos(k * 2 + 1);
  }

  lemma FourPlaces(k: nat)
    ensures k * 4 == 4 * k == k * 2 * 2 && k * 4 + 2 == (k * 2 + 1) * 2
  {
  }

  lemma IsTwoOfFour(n: nat)
    ensures TwoOfFour(n) <==> n % 4 == 2
  {
  }

  lemma Eights(k: nat)
    ensures !Odd(k * 8) && !Odd(k * 8 + 4) && !TwoOfFour(k * 8) && !TwoOfFour(k * 8 + 4)
    ensures !FourOfEight(k * 8) && FourOfEight(k * 8 + 4) && k * 8 / 8 == k
  {
    hide Odd, TwoOfFour, FourOfEight;
    EightPlaces(k);
    Eighth(k, 0);
    Eighth(k, 4);
    IsFourOfEight(8 * k);
    IsFourOfEight(8 * k + 4);
    Fours(k * 2);
    Fours(k * 2 + 1);
  }

  lemma EightPlaces(k: nat)
    ensures k * 8 == 8 * k == k * 2 * 4 && k * 8 + 4 == (k * 2 + 1) * 4
  {
  }

  lemma IsFourOfEight(n: nat)
    ensures FourOfEight(n) <==> n % 8 == 4
  {
  }

  lemma XIs(p: nat, k: nat)
    requires p < 7
    ensures X(p, k) == if p == 0 then k * 8 else if p == 1 then k * 8 + 4 else if p == 2 then k * 4 else if p == 3 then k * 4 + 2
                       else if p == 4 then k * 2 else if p == 5 then k * 2 + 1 else k
  {
  }

  lemma YIs(p: nat, k: nat)
    requires p < 7
    ensures Y(p, k) == if p <= 1 then k * 8 else if p == 2 then k * 8 + 4 else if p == 3 then k * 4 else if p == 4 then k * 4 + 2
                       else if p == 5 then k * 2 else k * 2 + 1
  {
  }

  lemma ColIs(p: nat, x: nat)
    requires p < 7
    ensures Col(p, x) == if p == 0 then x / 8 else if p == 1 then (x - 4) / 8 else if p == 2 then x / 4
                         else if p == 3 then (x - 2) / 4 else if p == 4 then x / 2 else if p == 5 then (x - 1) / 2 else x
  {
  }

  lemma LineIs(p: nat, y: nat)
    requires p < 7
    ensures Line(p, y) == if p <= 1 then y / 8 else if p == 2 then (y - 4) / 8 else if p == 3 then y / 4
                          else if p == 4 then (y - 2) / 4 else if p == 5 then y / 2 else (y - 1) / 2
  {
  }

  lemma PassOfPlace(p: nat, i: nat, j: nat)
    requires p < 7
    ensures PassOf(X(p, i), Y(p, j)) == p && Col(p, X(p, i)) == i && Line(p, Y(p, j)) == j
  {
    hide Odd, TwoOfFour, FourOfEight, X, Y, Col, Line;
    XIs(p, i);
    YIs(p, j);
    ColIs(p, X(p, i));
    LineIs(p, Y(p, j));
    if p <= 2 {
      Eights(j);
      if p <= 1 {
        Eights(i);
      } else {
        Fours(i);
      }
    } else if p <= 4 {
      Fours(j);
      if p == 3 {
        Fours(i);
      } else {
        Twos(i);
      }
    } else {
      Twos(j);
      Twos(i);
    }
  }

  /** Every pixel of the image is a place of its pass. */
  lemma PixelCovered(w: nat, h: nat, x: nat, y: nat)
    requires x < w && y < h
    ensures var p := PassOf(x, y);
            0 <= Col(p, x) < PassWidth(p, w) && 0 <= Line(p, y) < PassHeight(p, h) &&
            X(p, Col(p, x)) == x && Y(p, Line(p, y)) == y
  {
    var p := PassOf(x, y);
    PlaceOfPass(x, y);
    Enough(p, w);
    Enough(p, h);
    CountExact(w, XOrig(p), XSpc(p), Col(p, x));
    CountExact(h, YOrig(p), YSpc(p), Line(p, y));
  }

  lemma EvenIs(n: nat)
    requires !Odd(n)
    ensures n == n / 2 * 2 && (TwoOfFour(n) ==> n >= 2 && n == (n - 2) / 4 * 4 + 2) && (!TwoOfFour(n) ==> n == n / 4 * 4)
  {
  }

  lemma OddIs(n: nat)
    requires Odd(n)
    ensures n >= 1 && n == (n - 1) / 2 * 2 + 1
  {
  }

  lemma FourfoldIs(n: nat)
    requires !Odd(n) && !TwoOfFour(n)
    ensures (FourOfEight(n) ==> n >= 4 && n == (n - 4) / 8 * 8 + 4) && (!FourOfEight(n) ==> n == n / 8 * 8)
  {
    EvenIs(n);
    var m := n / 4;
    assert n == 4 * m;
    EvenOrOdd(m);
  }

  lemma EvenOrOdd(m: nat)
    ensures (4 * m) % 8 == 4 || (4 * m) % 8 == 0
  {
    var h := m / 2;
    assert m == 2 * h || m == 2 * h + 1;
    assert m == 2 * h ==> 4 * m == 8 * h;
    assert m == 2 * h + 1 ==> 4 * m == 8 * h + 4;
  }

  lemma PlaceOfPass(x: nat, y: nat)
    ensures var p := PassOf(x, y);
            Col(p, x) >= 0 && Line(p, y) >= 0 && X(p, Col(p, x)) == x && Y(p, Line(p, y)) == y
  {
    hide Odd, TwoOfFour, FourOfEight, X, Y, Col, Line;
    var p := PassOf(x, y);
    ColIs(p, x);
    LineIs(p, y);
    XIs(p, if Col(p, x) >= 0 then Col(p, x) else 0);
    YIs(p, if Line(p, y) >= 0 then Line(p, y) else 0);
    if Odd(y) {
      OddIs(y);
    } else {
      EvenIs(y);
      if Odd(x) {
        OddIs(x);
      } else {
        EvenIs(x);
        if !TwoOfFour(y) {
          FourfoldIs(y);
          if !TwoOfFour(x) {
            FourfoldIs(x);
          }
        }
      }
    }
  }

  // ---------- scattering a pass ----------

  /** The place of a pixel in the image. */
  function Flat(x: nat, y: nat, w: nat): nat { Mul(y, w) + x }

  lemma FlatInside(x: nat, y: nat, w: nat, h: nat)
    requires x < w && y < h
    ensures Flat(x, y, w) < Mul(h, w)
  {
    hide Mul;
    MulGrows(y, h, w);
  }

  lemma FlatInjective(x: nat, y: nat, x2: nat, y2: nat, w: nat)
    requires x < w && x2 < w && Flat(x, y, w) == Flat(x2, y2, w)
    ensures x == x2 && y == y2
  {
    hide Mul;
    if y < y2 {
      MulGrows(y, y2, w);
    } else if y2 < y {
      MulGrows(y2, y, w);
    }
  }

  lemma {:induction false} MulAdd(a: nat, b: nat, k: nat)
    ensures Mul(a + b, k) == Mul(a, k) + Mul(b, k)
    decreases b
  {
    if b > 0 {
      MulAdd(a, b - 1, k);
    }
  }

  lemma {:induction false} MulAssoc(a: nat, b: nat, k: nat)
    ensures Mul(Mul(a, b), k) == Mul(a, Mul(b, k))
    decreases a
  {
    if a > 0 {
      MulAssoc(a - 1, b, k);
      MulAdd(Mul(a - 1, b), b, k);
    }
  }

  /** Pixel n of the bytes of an image. */
  function PixelBytes(s: Row, n: nat, ob: nat): Row
  {
    if Mul(n, ob) + ob <= |s| then s[Mul(n, ob)..Mul(n, ob) + ob] else []
  }

  lemma PixelThere(i: nat, j: nat, x: nat, y: nat, ob: nat)
    requires i < x && j < y
    ensures Mul(Flat(i, j, x), ob) + ob <= Mul(y, Mul(x, ob))
  {
    hide Mul;
    FlatInside(i, j, x, y);
    MulGrows(Flat(i, j, x), Mul(y, x), ob);
    MulAssoc(y, x, ob);
  }

  /** The pixel of an image that a pass gave it. */
  function FromPass(img: Row, p: nat, w: nat, x: nat, y: nat, ob: nat): Row
    requires w > 0 && p < 7
  {
    if Col(p, x) >= 0 && Line(p, y) >= 0 then PixelBytes(img, Flat(Col(p, x), Line(p, y), PassWidth(p, w)), ob) else []
  }

  predicate Taken(p: nat, x: nat, y: nat, i: nat, j: nat)
  {
    PassOf(x, y) == p && (Line(p, y) < j || (Line(p, y) == j && Col(p, x) < i))
  }

  /** Rows before j, and pixels before i of row j, of a pass are in place; nothing else changed. */
  ghost predicate Scattered(now: seq<Row>, before: seq<Row>, img: Row, p: nat, w: nat, h: nat, ob: nat, i: nat, j: nat)
  {
    w > 0 && p < 7 && |now| == |before| == Mul(h, w) &&
    forall x: nat, y: nat {:trigger Flat(x, y, w)} :: x < w && y < h ==>
      Flat(x, y, w) < |now| &&
      now[Flat(x, y, w)] == if Taken(p, x, y, i, j) then FromPass(img, p, w, x, y, ob) else before[Flat(x, y, w)]
  }

  lemma ScatterStart(s: seq<Row>, img: Row, p: nat, w: nat, h: nat, ob: nat)
    requires w > 0 && p < 7 && |s| == Mul(h, w)
    ensures Scattered(s, s, img, p, w, h, ob, 0, 0)
  {
    hide Mul, Col, Line, PassOf, FromPass, Flat;
    forall x: nat, y: nat {:trigger Flat(x, y, w)} | x < w && y < h
      ensures Flat(x, y, w) < |s| && !Taken(p, x, y, 0, 0)
    {
      FlatInside(x, y, w, h);
      PixelCovered(w, h, x, y);
    }
  }

  lemma ScatterStep(now: seq<Row>, mid: seq<Row>, before: seq<Row>, img: Row, p: nat, w: nat, h: nat, ob: nat, i: nat, j: nat)
    requires Scattered(mid, before, img, p, w, h, ob, i, j) && h > 0 && i < PassWidth(p, w) && j < PassHeight(p, h)
    requires Flat(X(p, i), Y(p, j), w) < |mid|
    requires now == mid[Flat(X(p, i), Y(p, j), w) := PixelBytes(img, Flat(i, j, PassWidth(p, w)), ob)]
    ensures Scattered(now, before, img, p, w, h, ob, i + 1, j)
  {
    hide Mul, Col, Line, PassOf, PixelBytes, Flat, X, Y, PassWidth, PassHeight;
    PassInside(w, h, p, i, j);
    forall x: nat, y: nat {:trigger Flat(x, y, w)} | x < w && y < h
      ensures Flat(x, y, w) < |now| &&
              now[Flat(x, y, w)] == if Taken(p, x, y, i + 1, j) then FromPass(img, p, w, x, y, ob) else before[Flat(x, y, w)]
    {
      if Flat(x, y, w) == Flat(X(p, i), Y(p, j), w) {
        FlatInjective(x, y, X(p, i), Y(p, j), w);
      } else {
        PixelCovered(w, h, x, y);
        assert Taken(p, x, y, i + 1, j) <==> Taken(p, x, y, i, j);
      }
    }
  }

  lemma ScatterRow(now: seq<Row>, before: seq<Row>, img: Row, p: nat, w: nat, h: nat, ob: nat, i: nat, j: nat)
    requires Scattered(now, before, img, p, w, h, ob, i, j) && i == PassWidth(p, w)
    ensures Scattered(now, before, img, p, w, h, ob, 0, j + 1)
  {
    hide Mul, Col, Line, PassOf, FromPass, Flat, PassWidth, PassHeight;
    forall x: nat, y: nat {:trigger Flat(x, y, w)} | x < w && y < h
      ensures Taken(p, x, y, 0, j + 1) <==> Taken(p, x, y, i, j)
    {
      PixelCovered(w, h, x, y);
    }
  }

  /** Copies the pixels of a pass to their places. */
  method ScatterPass(final: array<Row>, out: array<Byte>, p: nat, w: nat, h: nat, ob: nat)
    requires w > 0 && h > 0 && p < 7 && final.Length == Mul(h, w)
    requires out.Length == Mul(PassHeight(p, h), Mul(PassWidth(p, w), ob))
    modifies final
    ensures Scattered(final[..], old(final[..]), out[..], p, w, h, ob, 0, PassHeight(p, h))
  {
    hide Mul, Flat, X, Y, PassWidth, PassHeight, Scattered, PixelBytes;
    ghost var before, img := final[..], out[..];
    var x, y := PassWidth(p, w), PassHeight(p, h);
    ScatterStart(before, img, p, w, h, ob);
    var j := 0;
    while j < y
      invariant 0 <= j <= y && Scattered(final[..], before, img, p, w, h, ob, 0, j)
    {
      var i := 0;
      while i < x
        invariant 0 <= i <= x && Scattered(final[..], before, img, p, w, h, ob, i, j)
      {
        PassInside(w, h, p, i, j);
        FlatInside(X(p, i), Y(p, j), w, h);
        ghost var mid := final[..];
        final[Flat(X(p, i), Y(p, j), w)] := PixelBytes(out[..], Flat(i, j, x), ob);
        ScatterStep(final[..], mid, before, img, p, w, h, ob, i, j);
        i := i + 1;
      }
      ScatterRow(final[..], before, img, p, w, h, ob, i, j);
      j := j + 1;
    }
  }

  // ---------- all passes ----------

  /** Every pixel of the passes so far is in place. */
  ghost predicate Assembled(final: seq<Row>, images: seq<Row>, w: nat, h: nat, ob: nat)
  {
    w > 0 && |images| <= 7 && |final| == Mul(h, w) &&
    forall x: nat, y: nat {:trigger Flat(x, y, w)} :: x < w && y < h && PassOf(x, y) < |images| ==>
      Flat(x, y, w) < |final| && final[Flat(x, y, w)] == FromPass(images[PassOf(x, y)], PassOf(x, y), w, x, y, ob)
  }

  lemma AssembleMore(now: seq<Row>, before: seq<Row>, images: seq<Row>, img: Row, w: nat, h: nat, ob: nat)
    requires h > 0 && |images| < 7 && Assembled(before, images, w, h, ob)
    requires Scattered(now, before, img, |images|, w, h, ob, 0, PassHeight(|images|, h))
    ensures Assembled(now, images + [img], w, h, ob)
  {
    hide Mul, Col, Line, PassOf, FromPass, Flat, PassWidth, PassHeight;
    var p := |images|;
    forall x: nat, y: nat {:trigger Flat(x, y, w)} | x < w && y < h
      ensures Taken(p, x, y, 0, PassHeight(p, h)) <==> PassOf(x, y) == p
    {
      PixelCovered(w, h, x, y);
    }
  }

  /** A pass without places gives nothing. */
  lemma AssembleNothing(final: seq<Row>, images: seq<Row>, w: nat, h: nat, ob: nat)
    requires h > 0 && w > 0 && |images| < 7 && Assembled(final, images, w, h, ob)
    requires PassWidth(|images|, w) == 0 || PassHeight(|images|, h) == 0
    ensures Assembled(final, images + [[]], w, h, ob)
  {
    hide Mul, Col, Line, FromPass, Flat, PassWidth, PassHeight, PassOf;
    var p := |images|;
    forall x: nat, y: nat {:trigger Flat(x, y, w)} | x < w && y < h
      ensures PassOf(x, y) != p
    {
      PixelCovered(w, h, x, y);
    }
  }

  /** The format of a pass. */
  function PassFormat(f: Format, p: nat): Format
    requires FormatOk(f) && p < 7
  {
    f.(x := PassWidth(p, f.x), y := PassHeight(p, f.y))
  }

  predicate EmptyPass(f: Format, p: nat)
    requires FormatOk(f) && p < 7
  {
    PassWidth(p, f.x) == 0 || PassHeight(p, f.y) == 0
  }

  /** The bytes of data a pass takes. */
  function PassLength(f: Format, p: nat): nat
    requires FormatOk(f) && p < 7
  {
    Mul(PassHeight(p, f.y), Width(PassFormat(f, p)) + 1)
  }

  lemma PassOk(f: Format, p: nat)
    requires FormatOk(f) && p < 7 && !EmptyPass(f, p)
    ensures FormatOk(PassFormat(f, p))
  {
    hide PassWidth, PassHeight;
  }

  /** The rows of the passes from p on: each pass takes its share of the data and leaves the rest to the next. */
  function PassesFrom(f: Format, p: nat, raw: Row): Option<seq<seq<Row>>>
    requires FormatOk(f) && p <= 7
    decreases 7 - p, raw
  {
    if p == 7 then Some([])
    else if EmptyPass(f, p) then
      var rest := PassesFrom(f, p + 1, raw);
      if rest.None? then None else Some([[]] + rest.value)
    else
      PassOk(f, p);
      var rows := Decoded(PassFormat(f, p), raw);
      if rows.None? then None
      else
        DecodedNeeds(PassFormat(f, p), raw);
        var rest := PassesFrom(f, p + 1, raw[PassLength(f, p)..]);
        if rest.None? then None else Some([rows.value] + rest.value)
  }

  lemma DecodedNeeds(f: Format, raw: Row)
    requires FormatOk(f) && Decoded(f, raw).Some?
    ensures Mul(f.y, Width(f) + 1) <= |raw|
  {
    hide Mul, Width, RowsOf, StepOf;
    Sizes(f);
    RowsNeed(raw, f.y, Width(f), StepOf(f), BlankRow(Width(f)));
  }

  /** What a pass reads is what it takes: the data behind its share do not matter. */
  lemma {:induction false} RowsTake(raw: Row, y: nat, width: nat, step: nat, prior: Row)
    requires 0 < step && |prior| == width && Mul(y, width + 1) <= |raw|
    ensures RowsOf(raw, y, width, step, prior) == RowsOf(raw[..Mul(y, width + 1)], y, width, step, prior)
    decreases y
  {
    hide Unfiltered;
    if y > 0 && raw[0] <= 4 {
      var n := Mul(y, width + 1);
      var row := Unfiltered(raw[0], raw[1..width + 1], prior, step);
      assert raw[..n][1..width + 1] == raw[1..width + 1];
      assert raw[..n][width + 1..] == raw[width + 1..][..Mul(y - 1, width + 1)];
      RowsTake(raw[width + 1..], y - 1, width, step, row);
    }
  }

  function AllPrepended(done: seq<seq<Row>>, rest: Option<seq<seq<Row>>>): Option<seq<seq<Row>>>
  {
    if rest.None? then None else Some(done + rest.value)
  }

  lemma PassNext(f: Format, p: nat, raw: Row, done: seq<seq<Row>>)
    requires FormatOk(f) && p < 7
    ensures EmptyPass(f, p) ==>
              AllPrepended(done, PassesFrom(f, p, raw)) == AllPrepended(done + [[]], PassesFrom(f, p + 1, raw))
    ensures !EmptyPass(f, p) ==>
              FormatOk(PassFormat(f, p)) &&
              var rows := Decoded(PassFormat(f, p), raw);
              if rows.None? then PassesFrom(f, p, raw) == None
              else PassLength(f, p) <= |raw| &&
                   AllPrepended(done, PassesFrom(f, p, raw))
                   == AllPrepended(done + [rows.value], PassesFrom(f, p + 1, raw[PassLength(f, p)..]))
  {
    hide Decoded, Mul, Width, PassWidth, PassHeight;
    if EmptyPass(f, p) {
      Regroup(done, [], PassesFrom(f, p + 1, raw));
    } else {
      PassOk(f, p);
      var rows := Decoded(PassFormat(f, p), raw);
      if rows.Some? {
        DecodedNeeds(PassFormat(f, p), raw);
        Regroup(done, rows.value, PassesFrom(f, p + 1, raw[PassLength(f, p)..]));
      }
    }
  }

  lemma Regroup(done: seq<seq<Row>>, rows: seq<Row>, rest: Option<seq<seq<Row>>>)
    ensures rest.Some? ==> done + ([rows] + rest.value) == done + [rows] + rest.value
  {
  }

  /** What the images of the passes hold. */
  ghost predicate PassesOk(f: Format, images: seq<Row>, passes: seq<seq<Row>>, little: bool)
    requires FormatOk(f)
  {
    |images| == |passes| <= 7 &&
    forall p :: 0 <= p < |images| && !EmptyPass(f, p) ==> FinalImage(PassFormat(f, p), Ordered(f, images[p], little), passes[p])
  }

  /** Builds an interlaced image: reads the seven passes one after the other and puts every pixel in its place. It succeeds
      exactly if the data hold all passes; then pixel (x, y) of the result is the pixel of its pass. */
  method CreateInterlaced(f: Format, raw: Row, little: bool)
    returns (ok: bool, final: array<Row>, ghost images: seq<Row>, ghost passes: seq<seq<Row>>)
    requires FormatOk(f)
    ensures ok <==> PassesFrom(f, 0, raw).Some?
    ensures ok ==> PassesFrom(f, 0, raw) == Some(passes) && PassesOk(f, images, passes, little)
    ensures ok ==> |images| == 7 && Assembled(final[..], images, f.x, f.y, Ob(f))
  {
    hide PassesFrom, PassesOk, Assembled, Scattered, Mul, Decoded, FinalImage, Ob, PassWidth, PassHeight, PassLength, AllPrepended, Swapped;
    final := new Row[Mul(f.y, f.x)](_ => []);
    images, passes := [], [];
    NothingAssembled(final[..], f, little);
    AllStart(f, raw);
    var p: nat, at: nat := 0, 0;
    while p < 7
      invariant 0 <= p <= 7 && at <= |raw| && |images| == p && fresh(final) && final.Length == Mul(f.y, f.x)
      invariant PassesOk(f, images, passes, little) && Assembled(final[..], images, f.x, f.y, Ob(f))
      invariant PassesFrom(f, 0, raw) == AllPrepended(passes, PassesFrom(f, p, raw[at..]))
    {
      PassNext(f, p, raw[at..], passes);
      if EmptyPass(f, p) {
        AssembleNothing(final[..], images, f.x, f.y, Ob(f));
        OkMore(f, images, passes, [], [], little);
        images, passes := images + [[]], passes + [[]];
      } else {
        ghost var before := final[..];
        var out: array<Byte>;
        ghost var rows: seq<Row>;
        ok, out, rows := CreateImageRaw(PassFormat(f, p), raw[at..], little);
        assert ok ==> Ordered(PassFormat(f, p), out[..], little) == Ordered(f, out[..], little);
        assert final[..] == before;
        if !ok {
          NonePrepended(passes);
          return;
        }
        ScatterFormat(f, p);
        ScatterPass(final, out, p, f.x, f.y, Ob(f));
        AssembleMore(final[..], before, images, out[..], f.x, f.y, Ob(f));
        OkMore(f, images, passes, out[..], rows, little);
        images, passes := images + [out[..]], passes + [rows];
        assert raw[at..][PassLength(f, p)..] == raw[at + PassLength(f, p)..];
        at := at + PassLength(f, p);
      }
      p := p + 1;
    }
    AllEnd(f, raw[at..], passes);
    ok := true;
  }

  lemma ScatterFormat(f: Format, p: nat)
    requires FormatOk(f) && p < 7
    ensures Stride(PassFormat(f, p)) == Mul(PassWidth(p, f.x), Ob(f)) && PassFormat(f, p).y == PassHeight(p, f.y)
  {
    hide Mul, PassWidth, PassHeight;
  }

  lemma NothingAssembled(s: seq<Row>, f: Format, little: bool)
    requires FormatOk(f) && |s| == Mul(f.y, f.x)
    ensures Assembled(s, [], f.x, f.y, Ob(f)) && PassesOk(f, [], [], little)
  {
  }

  lemma AllStart(f: Format, raw: Row)
    requires FormatOk(f)
    ensures raw[0..] == raw && AllPrepended([], PassesFrom(f, 0, raw)) == PassesFrom(f, 0, raw)
  {
    hide PassesFrom;
    var r := PassesFrom(f, 0, raw);
    if r.Some? {
      assert [] + r.value == r.value;
    }
  }

  lemma AllEnd(f: Format, raw: Row, passes: seq<seq<Row>>)
    requires FormatOk(f)
    ensures AllPrepended(passes, PassesFrom(f, 7, raw)) == Some(passes)
  {
    assert passes + [] == passes;
  }

  lemma NonePrepended(passes: seq<seq<Row>>)
    ensures AllPrepended(passes, None) == None
  {
  }

  lemma OkMore(f: Format, images: seq<Row>, passes: seq<seq<Row>>, img: Row, rows: seq<Row>, little: bool)
    requires FormatOk(f) && PassesOk(f, images, passes, little) && |images| < 7
    requires !EmptyPass(f, |images|) ==> FinalImage(PassFormat(f, |images|), Ordered(f, img, little), rows)
    ensures PassesOk(f, images + [img], passes + [rows], little)
  {
    hide FinalImage, PassWidth, PassHeight, Ordered;
  }

  // ---------- decoding undoes encoding ----------

  /** Rows, and a filter for each, that fit a format. */
  predicate Fits(f: Format, rows: seq<Row>, filters: seq<nat>)
    requires FormatOk(f)
  {
    WidthOk(f) && |rows| == |filters| == f.y &&
    forall i :: 0 <= i < |rows| ==> |rows[i]| == Width(f) && filters[i] <= 4
  }

  predicate AllFit(f: Format, passes: seq<seq<Row>>, filters: seq<seq<nat>>)
    requires FormatOk(f)
  {
    |passes| == |filters| == 7 &&
    forall p :: 0 <= p < 7 ==>
      if EmptyPass(f, p) then passes[p] == []
      else PassOk(f, p); Fits(PassFormat(f, p), passes[p], filters[p])
  }

  function OnePass(f: Format, rows: seq<Row>, filters: seq<nat>): Row
    requires FormatOk(f) && Fits(f, rows, filters)
  {
    Sizes(f);
    Encoded(rows, filters, Width(f), StepOf(f), BlankRow(Width(f)))
  }

  function AllPasses(f: Format, passes: seq<seq<Row>>, filters: seq<seq<nat>>, p: nat): Row
    requires FormatOk(f) && AllFit(f, passes, filters) && p <= 7
    decreases 7 - p, f
  {
    if p == 7 then []
    else if EmptyPass(f, p) then AllPasses(f, passes, filters, p + 1)
    else
      PassOk(f, p);
      OnePass(PassFormat(f, p), passes[p], filters[p]) + AllPasses(f, passes, filters, p + 1)
  }

  lemma OnePassDecoded(f: Format, rows: seq<Row>, filters: seq<nat>, more: Row)
    requires FormatOk(f) && Fits(f, rows, filters)
    ensures |OnePass(f, rows, filters)| == Mul(f.y, Width(f) + 1)
    ensures Decoded(f, OnePass(f, rows, filters) + more) == Some(rows)
  {
    hide Mul, Width, RowsOf, StepOf, Encoded, Stride;
    Sizes(f);
    RowsRoundTrip(rows, filters, Width(f), StepOf(f), BlankRow(Width(f)), more);
    EncodedSize(rows, filters, Width(f), StepOf(f), BlankRow(Width(f)));
  }

  lemma {:induction false} EncodedSize(rows: seq<Row>, filters: seq<nat>, width: nat, step: nat, prior: Row)
    requires 0 < step && |prior| == width && |filters| == |rows|
    requires forall i :: 0 <= i < |rows| ==> |rows[i]| == width && filters[i] <= 4
    ensures |Encoded(rows, filters, width, step, prior)| == Mul(|rows|, width + 1)
    decreases |rows|
  {
    hide Filtered;
    if rows != [] {
      EncodedSize(rows[1..], filters[1..], width, step, rows[0]);
    }
  }

  /** The data of the seven passes, filtered in any way, are read back as the rows they were made from. */
  lemma {:induction false} PassesRoundTrip(f: Format, passes: seq<seq<Row>>, filters: seq<seq<nat>>, p: nat, more: Row)
    requires FormatOk(f) && AllFit(f, passes, filters) && p <= 7
    ensures PassesFrom(f, p, AllPasses(f, passes, filters, p) + more) == Some(passes[p..])
    decreases 7 - p
  {
    hide Mul, Width, Decoded, OnePass, Fits, PassWidth, PassHeight;
    if p < 7 {
      PassesRoundTrip(f, passes, filters, p + 1, more);
      assert passes[p..] == [passes[p]] + passes[p + 1..];
      if !EmptyPass(f, p) {
        PassOk(f, p);
        var a, b := OnePass(PassFormat(f, p), passes[p], filters[p]), AllPasses(f, passes, filters, p + 1);
        OnePassDecoded(PassFormat(f, p), passes[p], filters[p], b + more);
        assert a + b + more == a + (b + more);
        assert (a + (b + more))[|a|..] == b + more;
      }
    } else {
      assert passes[p..] == [];
    }
  }
}
