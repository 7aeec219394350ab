/** Expanding packed samples of 1, 2 or 4 bits to bytes in place, and inserting an alpha channel in place. */
module PngExpand {
  import opened Basics
  import opened PngFilter
  import opened PngRows

  predicate SmallDepth(depth: nat)
  {
    depth == 1 || depth == 2 || depth == 4
  }

  /** How many samples a byte holds. */
  function PerByte(depth: nat): (per: nat)
    requires SmallDepth(depth)
    ensures per == 2 || per == 4 || per == 8
  {
    if depth == 4 then 2 else if depth == 2 then 4 else 8
  }

  /** Samples of n bits up to 255. */
  function DepthScale(depth: nat): nat
    requires SmallDepth(depth)
  {
    if depth == 1 then 0xff else if depth == 2 then 0x55 else 0x11
  }

  /** How many bytes n samples take. */
  function PackedSize(n: nat, per: nat): nat
    requires per > 0
  {
    (n + per - 1) / per
  }

  /** The k-th sample of a byte, counted from its high end. */
  function Sample(b: Byte, depth: nat, k: nat): (v: nat)
    requires SmallDepth(depth) && k < PerByte(depth)
    ensures depth == 1 ==> v < 2
    ensures depth == 2 ==> v < 4
    ensures depth == 4 ==> v < 16
  {
    if depth == 4 then (if k == 0 then b / 16 else b % 16)
    else if depth == 2 then (if k == 0 then b / 64 else if k == 1 then b / 16 % 4 else if k == 2 then b / 4 % 4 else b % 4)
    else if k == 0 then b / 128 else if k == 1 then b / 64 % 2 else if k == 2 then b / 32 % 2 else if k == 3 then b / 16 % 2
    else if k == 4 then b / 8 % 2 else if k == 5 then b / 4 % 2 else if k == 6 then b / 2 % 2 else b % 2
  }

  predicate ScaleFits(scale: nat, depth: nat)
    requires SmallDepth(depth)
  {
    scale == 1 || scale == DepthScale(depth)
  }

  function Scaled(scale: nat, b: Byte, depth: nat, k: nat): Byte
    requires SmallDepth(depth) && k < PerByte(depth) && ScaleFits(scale, depth)
  {
    scale * Sample(b, depth, k)
  }

  /** Pure unpacking: sample i is sample i % per of byte i / per. */
  function Unpacked(packed: Row, n: nat, depth: nat, scale: nat): (r: Row)
    requires SmallDepth(depth) && ScaleFits(scale, depth) && PackedSize(n, PerByte(depth)) <= |packed|
    ensures |r| == n
    decreases n
  {
    if n == 0 then []
    else
      var per := PerByte(depth);
      LastByte(n, per);
      Unpacked(packed, n - 1, depth, scale) + [Scaled(scale, packed[(n - 1) / per], depth, (n - 1) % per)]
  }

  lemma LastByte(n: nat, per: nat)
    requires n > 0 && (per == 2 || per == 4 || per == 8)
    ensures PackedSize(n - 1, per) <= PackedSize(n, per) && (n - 1) / per < PackedSize(n, per)
  {
  }

  lemma Halves(b: nat)
    ensures b == 2 * (b / 2) + b % 2
  {
  }

  lemma Quarters(b: Byte)
    ensures b / 2 / 2 == b / 4 && b / 4 / 2 == b / 8 && b / 8 / 2 == b / 16 && b / 16 / 2 == b / 32
  {
  }

  lemma Eighths(b: Byte)
    ensures b / 32 / 2 == b / 64 && b / 64 / 2 == b / 128
  {
  }

  /** The samples of a byte make up the byte: unpacking loses nothing. */
  lemma SamplesRebuild(b: Byte)
    ensures b == 16 * Sample(b, 4, 0) + Sample(b, 4, 1)
    ensures b == 64 * Sample(b, 2, 0) + 16 * Sample(b, 2, 1) + 4 * Sample(b, 2, 2) + Sample(b, 2, 3)
    ensures b == 128 * Sample(b, 1, 0) + 64 * Sample(b, 1, 1) + 32 * Sample(b, 1, 2) + 16 * Sample(b, 1, 3)
               + 8 * Sample(b, 1, 4) + 4 * Sample(b, 1, 5) + 2 * Sample(b, 1, 6) + Sample(b, 1, 7)
  {
    Fours(b);
    Ones(b);
  }

  lemma Fours(b: Byte)
    ensures b == 16 * (b / 16) + b % 16 && b == 4 * (b / 4) + b % 4
    ensures b / 4 == 4 * (b / 16) + b / 4 % 4 && b / 16 == 4 * (b / 64) + b / 16 % 4
  {
    assert b / 4 / 4 == b / 16;
    assert b / 16 / 4 == b / 64;
  }

  lemma Ones(b: Byte)
    ensures b == 128 * (b / 128) + 64 * (b / 64 % 2) + 32 * (b / 32 % 2) + 16 * (b / 16 % 2)
               + 8 * (b / 8 % 2) + 4 * (b / 4 % 2) + 2 * (b / 2 % 2) + b % 2
  {
    Quarters(b);
    Eighths(b);
    Halves(b);
    Halves(b / 2);
    Halves(b / 4);
    Halves(b / 8);
    Halves(b / 16);
    Halves(b / 32);
    Halves(b / 64);
  }

  /** The k-th sample of byte t is written at or before that byte's own place, which lies `size` bytes before the end of
      the room; at its own place only if it is the last one needed of that byte. */
  lemma NeverAhead(n: nat, per: nat, room: nat, t: nat, k: nat)
    requires (per == 2 || per == 4 || per == 8) && n <= room && k < per && per * t + k < n
    ensures var size := PackedSize(n, per);
            t < size <= room && per * t + k <= room - size + t &&
            (per * t + k == room - size + t ==> k + 1 == per || per * t + k + 1 == n)
  {
    var size := PackedSize(n, per);
    if per == 2 {
      Rounds2(n);
    } else if per == 4 {
      Rounds4(n);
    } else {
      Rounds8(n);
    }
  }

  lemma Rounds2(n: nat)
    ensures n <= 2 * ((n + 1) / 2) <= n + 1
  {
  }

  lemma Rounds4(n: nat)
    ensures n <= 4 * ((n + 3) / 4) <= n + 3
  {
  }

  lemma Rounds8(n: nat)
    ensures n <= 8 * ((n + 7) / 8) <= n + 7
  {
  }

  lemma Place(t: nat, k: nat, per: nat)
    requires (per == 2 || per == 4 || per == 8) && k < per
    ensures (per * t + k) / per == t && (per * t + k) % per == k
  {
  }

  // ---------- in place ----------

  /** The packed bytes that are still needed lie untouched at the end of the room. */
  ghost predicate StillThere(s: Row, base: nat, room: nat, packed: Row, t: nat)
  {
    |packed| <= room && base + room <= |s| && t <= |packed| &&
    s[base + room - |packed| + t..base + room] == packed[t..]
  }

  /** One sample: read from the byte it is packed in, written at its own place. */
  method ExpandOne(out: array<Byte>, base: nat, room: nat, n: nat, depth: nat, scale: nat, ghost packed: Row, t: nat, k: nat)
    requires SmallDepth(depth) && ScaleFits(scale, depth) && |packed| == PackedSize(n, PerByte(depth)) && n <= room
    requires k < PerByte(depth) && PerByte(depth) * t + k < n && base + room <= out.Length
    requires StillThere(out[..], base, room, packed, t)
    requires out[base..base + PerByte(depth) * t + k] == Unpacked(packed, PerByte(depth) * t + k, depth, scale)
    modifies out
    ensures var i := PerByte(depth) * t + k; out[base..base + i + 1] == Unpacked(packed, i + 1, depth, scale)
    ensures Same(out[..], old(out[..]), base, base + room)
    ensures StillThere(out[..], base, room, packed,
              if k + 1 == PerByte(depth) || PerByte(depth) * t + k + 1 == n then t + 1 else t)
  {
    hide Sample, Unpacked, PackedSize;
    var per := PerByte(depth);
    var i := per * t + k;
    NeverAhead(n, per, room, t, k);
    ghost var size := |packed|;
    var at := base + room - PackedSize(n, per) + t;
    ghost var before := out[..];
    assert before[at] == packed[t] by {
      assert before[base + room - size + t..base + room][0] == packed[t..][0];
    }
    var v := Scaled(scale, out[at], depth, k);
    out[base + i] := v;
    Place(t, k, per);
    SizeGrows(i + 1, n, per);
    UnpackNext(packed, i, depth, scale);
    Written(out[..], before, base, base + i, v);
    assert out[base..base + i + 1] == out[..][base..base + i + 1] && before[base..base + i] == old(out[base..base + i]);
    Inside(out[..], before, base, base + room, base + i, v);
    ghost var u := if k + 1 == per || i + 1 == n then t + 1 else t;
    Behind(out[..], before, base, room, packed, t, u, base + i, v);
  }

  lemma SizeGrows(a: nat, b: nat, per: nat)
    requires a <= b && (per == 2 || per == 4 || per == 8)
    ensures PackedSize(a, per) <= PackedSize(b, per)
  {
  }

  lemma UnpackNext(packed: Row, i: nat, depth: nat, scale: nat)
    requires SmallDepth(depth) && ScaleFits(scale, depth) && PackedSize(i + 1, PerByte(depth)) <= |packed|
    ensures PackedSize(i, PerByte(depth)) <= |packed| && i / PerByte(depth) < |packed|
    ensures Unpacked(packed, i + 1, depth, scale) ==
            Unpacked(packed, i, depth, scale) + [Scaled(scale, packed[i / PerByte(depth)], depth, i % PerByte(depth))]
  {
    hide Sample, PackedSize;
    LastByte(i + 1, PerByte(depth));
  }

  lemma Behind(now: Row, before: Row, base: nat, room: nat, packed: Row, t: nat, u: nat, at: nat, v: Byte)
    requires StillThere(before, base, room, packed, t) && t <= u <= |packed| && at < base + room - |packed| + u
    requires now == before[at := v]
    ensures StillThere(now, base, room, packed, u)
  {
    var lo := base + room - |packed| + t;
    assert now[lo + (u - t)..base + room] == before[lo + (u - t)..base + room];
    assert before[lo + (u - t)..base + room] == before[lo..base + room][u - t..] == packed[t..][u - t..] == packed[u..];
  }

  /** Expands the n samples of a row, byte by byte from the left, the packed bytes lying at the right end of the room:
      the result is the pure unpacking of what lay there, and nothing outside the room changes. */
  method ExpandRow(out: array<Byte>, base: nat, room: nat, n: nat, depth: nat, scale: nat)
    requires SmallDepth(depth) && ScaleFits(scale, depth) && n <= room && base + room <= out.Length
    requires PackedSize(n, PerByte(depth)) <= room
    modifies out
    ensures var packed := old(out[base + room - PackedSize(n, PerByte(depth))..base + room]);
            out[base..base + n] == Unpacked(packed, n, depth, scale)
    ensures Same(out[..], old(out[..]), base, base + room)
  {
    hide Unpacked, PackedSize, Same, StillThere, ScaleFits;
    var per := PerByte(depth);
    ghost var before := out[..];
    assert before[base + room - PackedSize(n, per)..base + room] == out[base + room - PackedSize(n, per)..base + room];
    AllThere(before, base, room, PackedSize(n, per));
    ghost var packed := out[base + room - PackedSize(n, per)..base + room];
    Same3(before, base, base + room);
    NothingUnpacked(packed, n, depth, scale);
    var i, t := 0, 0;
    while i < n
      invariant 0 <= i <= n && 0 <= t && (i < n ==> i == per * t)
      invariant i < n ==> StillThere(out[..], base, room, packed, t)
      invariant PackedSize(i, per) <= |packed| && out[base..base + i] == Unpacked(packed, i, depth, scale)
      invariant Same(out[..], before, base, base + room)
    {
      var last := if n - i < per then n - i else per;
      ghost var now := out[..];
      i := ExpandByte(out, base, room, n, depth, scale, packed, t, last);
      SameBoth(before, now, out[..], base, base + room);
      SizeGrows(i, n, per);
      t := t + 1;
    }
  }

  lemma AllThere(s: Row, base: nat, room: nat, size: nat)
    requires size <= room && base + room <= |s|
    ensures StillThere(s, base, room, s[base + room - size..base + room], 0)
  {
    var packed := s[base + room - size..base + room];
    assert packed[0..] == packed;
  }

  lemma NothingUnpacked(packed: Row, n: nat, depth: nat, scale: nat)
    requires SmallDepth(depth) && ScaleFits(scale, depth)
    ensures PackedSize(0, PerByte(depth)) == 0 && Unpacked(packed, 0, depth, scale) == []
  {
  }

  /** The samples of byte t: all of them, or what is left of the row. */
  method ExpandByte(out: array<Byte>, base: nat, room: nat, n: nat, depth: nat, scale: nat, ghost packed: Row, t: nat,
                    last: nat) returns (i: nat)
    requires SmallDepth(depth) && ScaleFits(scale, depth) && |packed| == PackedSize(n, PerByte(depth)) && n <= room
    requires base + room <= out.Length && PerByte(depth) * t < n
    requires last == if n - PerByte(depth) * t < PerByte(depth) then n - PerByte(depth) * t else PerByte(depth)
    requires StillThere(out[..], base, room, packed, t)
    requires PackedSize(PerByte(depth) * t, PerByte(depth)) <= |packed|
    requires out[base..base + PerByte(depth) * t] == Unpacked(packed, PerByte(depth) * t, depth, scale)
    modifies out
    ensures i == PerByte(depth) * t + last && PackedSize(i, PerByte(depth)) <= |packed|
    ensures out[base..base + i] == Unpacked(packed, i, depth, scale)
    ensures Same(out[..], old(out[..]), base, base + room)
    ensures StillThere(out[..], base, room, packed, t + 1)
  {
    hide Unpacked, PackedSize, Same, StillThere;
    ghost var before := out[..];
    Same3(before, base, base + room);
    var per := PerByte(depth);
    i := per * t;
    var k := 0;
    while k < last
      invariant 0 <= k <= last && i == per * t + k && PackedSize(i, per) <= |packed|
      invariant out[base..base + i] == Unpacked(packed, i, depth, scale)
      invariant Same(out[..], before, base, base + room)
      invariant StillThere(out[..], base, room, packed, if k == last then t + 1 else t)
    {
      ghost var now := out[..];
      SizeGrows(i + 1, n, per);
      ExpandOne(out, base, room, n, depth, scale, packed, t, k);
      SameBoth(before, now, out[..], base, base + room);
      k, i := k + 1, i + 1;
    }
  }

  // ---------- inserting alpha ----------

  lemma {:induction false} ColorsPrepend(pixel: Row, s: Row, row: Row, x: nat, fb: nat, ob: nat)
    requires Colors(s, row, x, fb, ob) && |pixel| == ob && fb <= ob
    ensures Colors(pixel + s, pixel[..fb] + row, x + 1, fb, ob)
    decreases x
  {
    hide Colors;
    var t, r := pixel + s, pixel[..fb] + row;
    ColorsUnfold(t, r, x + 1, fb, ob);
    if x == 0 {
      EmptyColors(s, row, fb, ob);
      OnePixel(pixel, fb, ob);
      assert t == pixel && r == pixel[..fb];
    } else {
      ColorsUnfold(s, row, x, fb, ob);
      ColorsPrepend(pixel, s[..|s| - ob], row[..|row| - fb], x - 1, fb, ob);
      LastPart(pixel, s, ob, fb);
      LastPart(pixel[..fb], row, fb, fb);
    }
  }

  lemma OnePixel(pixel: Row, fb: nat, ob: nat)
    requires |pixel| == ob && fb <= ob
    ensures Colors(pixel, pixel[..fb], 1, fb, ob)
  {
    hide Colors;
    ColorsUnfold(pixel, pixel[..fb], 1, fb, ob);
    EmptyColors([], [], fb, ob);
    assert pixel[..0] == [] && pixel[..fb][..0] == [] && pixel[..fb][0..] == pixel[..fb];
  }

  lemma EmptyColors(s: Row, row: Row, fb: nat, ob: nat)
    ensures Colors(s, row, 0, fb, ob) <==> s == [] && row == []
  {
  }

  /** What stands at the end of a sum stands at the end of its last summand. */
  lemma LastPart(a: Row, s: Row, n: nat, m: nat)
    requires m <= n <= |s|
    ensures (a + s)[..|a + s| - n] == a + s[..|s| - n]
    ensures (a + s)[|a + s| - n..|a + s| - n + m] == s[|s| - n..|s| - n + m]
    ensures (a + s)[|a + s| - n..] == s[|s| - n..]
  {
  }

  lemma {:induction false} AlphaPrepend(pixel: Row, s: Row, x: nat, at: nat, ob: nat)
    requires Alpha(s, x, at, ob) && |pixel| == ob && at < ob && pixel[at] == 255
    ensures Alpha(pixel + s, x + 1, at, ob)
    decreases x
  {
    var t := pixel + s;
    if x == 0 {
      assert t == pixel && t[..0] == [];
      assert Alpha([], 0, at, ob);
    } else {
      var s1 := s[..|s| - ob];
      AlphaPrepend(pixel, s1, x - 1, at, ob);
      assert t[..|t| - ob] == pixel + s1;
    }
  }

  /** What is done so far: pixels q.. are spread, the samples of the pixels before q lie where they were. */
  ghost predicate HalfSpread(s: Row, base: nat, x: nat, n: nat, samples: Row, q: nat)
  {
    q <= x && |samples| == Mul(x, n) && Mul(q, n) <= |samples| && Mul(q, n + 1) <= Mul(x, n + 1) &&
    base + Mul(x, n + 1) <= |s| && base + Mul(q, n) <= |s| &&
    s[base..base + Mul(q, n)] == samples[..Mul(q, n)] &&
    SpreadRow(s[base + Mul(q, n + 1)..base + Mul(x, n + 1)], samples[Mul(q, n)..], x - q, n, n + 1)
  }

  /** The four writes of a pixel with three samples. */
  method AlphaColor(out: array<Byte>, base: nat, q: nat, ghost samples: Row)
    requires base + 4 * q + 4 <= out.Length && 3 * q + 3 <= |samples|
    requires out[base..base + 3 * q + 3] == samples[..3 * q + 3]
    modifies out
    ensures Same(out[..], old(out[..]), base + 4 * q, base + 4 * q + 4)
    ensures out[base + 4 * q..base + 4 * q + 4] == samples[3 * q..3 * q + 3] + [255]
  {
    hide Same;
    ghost var before := out[..];
    assert before[base..base + 3 * q + 3] == out[base..base + 3 * q + 3];
    ThreeThere(before, base, samples, q);
    out[base + q * 4 + 3] := 255;
    out[base + q * 4 + 2] := out[base + q * 3 + 2];
    out[base + q * 4 + 1] := out[base + q * 3 + 1];
    out[base + q * 4 + 0] := out[base + q * 3 + 0];
    FourWritten(out[..], before, base + 4 * q, samples[3 * q..3 * q + 3]);
    assert out[..][base + 4 * q..base + 4 * q + 4] == out[base + 4 * q..base + 4 * q + 4];
  }

  lemma ThreeThere(s: Row, base: nat, samples: Row, q: nat)
    requires base + 3 * q + 3 <= |s| && 3 * q + 3 <= |samples| && s[base..base + 3 * q + 3] == samples[..3 * q + 3]
    ensures s[base + 3 * q] == samples[3 * q] && s[base + 3 * q + 1] == samples[3 * q + 1]
    ensures s[base + 3 * q + 2] == samples[3 * q + 2]
  {
    var t := s[base..base + 3 * q + 3];
    assert t[3 * q] == samples[..3 * q + 3][3 * q] && t[3 * q + 1] == samples[..3 * q + 3][3 * q + 1];
    assert t[3 * q + 2] == samples[..3 * q + 3][3 * q + 2];
  }

  lemma FourWritten(now: Row, before: Row, at: nat, three: Row)
    requires at + 4 <= |before| && |three| == 3
    requires now == before[at + 3 := 255][at + 2 := three[2]][at + 1 := three[1]][at := three[0]]
    ensures Same(now, before, at, at + 4) && now[at..at + 4] == three + [255]
  {
  }

  lemma Three(s: Row, i: nat, t: Row, j: nat)
    requires i + 3 <= |s| && j + 3 <= |t| && s[i..i + 3] == t[j..j + 3]
    ensures s[i] == t[j] && s[i + 1] == t[j + 1] && s[i + 2] == t[j + 2]
  {
    assert s[i..i + 3][0] == t[j..j + 3][0] && s[i..i + 3][1] == t[j..j + 3][1] && s[i..i + 3][2] == t[j..j + 3][2];
  }

  /** The two writes of a pixel with one sample. */
  method AlphaGray(out: array<Byte>, base: nat, q: nat, ghost samples: Row)
    requires base + 2 * q + 2 <= out.Length && q + 1 <= |samples|
    requires out[base..base + q + 1] == samples[..q + 1]
    modifies out
    ensures Same(out[..], old(out[..]), base + 2 * q, base + 2 * q + 2)
    ensures out[base + 2 * q..base + 2 * q + 2] == samples[q..q + 1] + [255]
  {
    ghost var before := out[..];
    assert before[base..base + q + 1][q] == before[base + q] == samples[q];
    out[base + q * 2 + 1] := 255;
    out[base + q * 2 + 0] := out[base + q];
  }

  lemma SpreadMore(now: Row, before: Row, base: nat, x: nat, n: nat, samples: Row, q: nat, pixel: Row)
    requires q > 0 && n > 0 && HalfSpread(before, base, x, n, samples, q)
    requires base + Mul(q, n + 1) <= |before| && Mul(q, n) <= |samples|
    requires Same(now, before, base + Mul(q - 1, n + 1), base + Mul(q, n + 1))
    requires Mul(q - 1, n) <= Mul(q, n)
    requires pixel == now[base + Mul(q - 1, n + 1)..base + Mul(q, n + 1)] == samples[Mul(q - 1, n)..Mul(q, n)] + [255]
    requires |pixel| == n + 1
    ensures HalfSpread(now, base, x, n, samples, q - 1)
  {
    hide SpreadRow, Mul, Same;
    var lo, mid, hi := base + Mul(q - 1, n + 1), base + Mul(q, n + 1), base + Mul(x, n + 1);
    var a, b := Mul(q - 1, n), Mul(q, n);
    MulNext(q, n);
    MulNext(q, n + 1);
    MulShorter(q - 1, n);
    Pieces(now, before, base, lo, mid, hi, a, pixel);
    OneInFront(before[mid..hi], samples, a, b, x - q, n, pixel);
    assert before[base..base + b][..a] == before[base..base + a] && samples[..b][..a] == samples[..a];
  }

  /** One more pixel in front of those that are spread. */
  lemma OneInFront(rest: Row, samples: Row, a: nat, b: nat, k: nat, n: nat, pixel: Row)
    requires n > 0 && a + n == b <= |samples| && SpreadRow(rest, samples[b..], k, n, n + 1)
    requires pixel == samples[a..b] + [255]
    ensures SpreadRow(pixel + rest, samples[a..], k + 1, n, n + 1)
  {
    hide Colors, Alpha;
    assert pixel[..n] == samples[a..b];
    ColorsPrepend(pixel, rest, samples[b..], k, n, n + 1);
    AlphaPrepend(pixel, rest, k, n, n + 1);
    assert samples[a..] == pixel[..n] + samples[b..];
  }

  lemma {:induction false} MulShorter(q: nat, n: nat)
    ensures Mul(q, n) <= Mul(q, n + 1)
    decreases q
  {
    if q > 0 {
      MulShorter(q - 1, n);
    }
  }

  lemma Pieces(now: Row, before: Row, base: nat, lo: nat, mid: nat, hi: nat, a: nat, pixel: Row)
    requires base + a <= lo <= mid <= hi <= |before| && Same(now, before, lo, mid) && pixel == now[lo..mid]
    ensures |now| == |before| && now[lo..hi] == pixel + before[mid..hi] && now[base..base + a] == before[base..base + a]
  {
    TailSame(now, before, mid, hi);
    HeadSame(now, before, lo, base, base + a);
  }

  lemma TailSame(now: Row, before: Row, at: nat, hi: nat)
    requires |now| == |before| && at <= hi <= |now| && now[at..] == before[at..]
    ensures now[at..hi] == before[at..hi]
  {
    assert now[at..hi] == now[at..][..hi - at] && before[at..hi] == before[at..][..hi - at];
  }

  lemma HeadSame(now: Row, before: Row, lo: nat, i: nat, j: nat)
    requires i <= j <= lo <= |now| && lo <= |before| && now[..lo] == before[..lo]
    ensures now[i..j] == before[i..j]
  {
    Kept(now, before, lo, i, j);
  }

  lemma SpreadStart(s: Row, base: nat, x: nat, n: nat)
    requires base + Mul(x, n + 1) <= |s|
    ensures base + Mul(x, n) <= |s| && HalfSpread(s, base, x, n, s[base..base + Mul(x, n)], x)
  {
    hide Mul;
    MulShorter(x, n);
    var samples := s[base..base + Mul(x, n)];
    assert samples[Mul(x, n)..] == [] && samples[..Mul(x, n)] == samples;
    assert s[base + Mul(x, n + 1)..base + Mul(x, n + 1)] == [];
    NoColors(n, n + 1);
  }

  /** One round of the loop, for either number of samples. */
  method AlphaPixel(out: array<Byte>, base: nat, x: nat, n: nat, ghost samples: Row, q: nat)
    requires (n == 1 || n == 3) && 0 < q && HalfSpread(out[..], base, x, n, samples, q)
    modifies out
    ensures HalfSpread(out[..], base, x, n, samples, q - 1)
    ensures Same(out[..], old(out[..]), base, base + Mul(x, n + 1))
  {
    hide Same, HalfSpread, Mul, SpreadRow;
    ghost var now := out[..];
    SamplesThere(now, base, x, n, samples, q);
    assert out[base..base + Mul(q, n)] == now[base..base + Mul(q, n)];
    AlphaWrites(out, base, n, samples, q);
    ghost var lo, mid := base + Mul(q - 1, n + 1), base + Mul(q, n + 1);
    assert out[lo..mid] == out[..][lo..mid];
    SpreadMore(out[..], now, base, x, n, samples, q, out[lo..mid]);
    Wider(out[..], now, lo, mid, base, base + Mul(x, n + 1));
  }

  method AlphaWrites(out: array<Byte>, base: nat, n: nat, ghost samples: Row, q: nat)
    requires (n == 1 || n == 3) && 0 < q && base + Mul(q, n + 1) <= out.Length && Mul(q, n) <= |samples|
    requires base + Mul(q, n) <= out.Length && out[base..base + Mul(q, n)] == samples[..Mul(q, n)]
    modifies out
    ensures Mul(q - 1, n + 1) + n + 1 == Mul(q, n + 1) && Mul(q - 1, n) + n == Mul(q, n)
    ensures Same(out[..], old(out[..]), base + Mul(q - 1, n + 1), base + Mul(q, n + 1))
    ensures out[base + Mul(q - 1, n + 1)..base + Mul(q, n + 1)] == samples[Mul(q - 1, n)..Mul(q, n)] + [255]
  {
    hide Same, Mul;
    if n == 1 {
      GrayWrites(out, base, samples, q);
    } else {
      ColorWrites(out, base, samples, q);
    }
  }

  method GrayWrites(out: array<Byte>, base: nat, ghost samples: Row, q: nat)
    requires 0 < q && base + Mul(q, 2) <= out.Length && Mul(q, 1) <= |samples|
    requires base + Mul(q, 1) <= out.Length && out[base..base + Mul(q, 1)] == samples[..Mul(q, 1)]
    modifies out
    ensures Mul(q - 1, 2) + 2 == Mul(q, 2) && Mul(q - 1, 1) + 1 == Mul(q, 1)
    ensures Same(out[..], old(out[..]), base + Mul(q - 1, 2), base + Mul(q, 2))
    ensures out[base + Mul(q - 1, 2)..base + Mul(q, 2)] == samples[Mul(q - 1, 1)..Mul(q, 1)] + [255]
  {
    hide Same, Mul;
    Few(q);
    Few(q - 1);
    AlphaGray(out, base, q - 1, samples);
  }

  method ColorWrites(out: array<Byte>, base: nat, ghost samples: Row, q: nat)
    requires 0 < q && base + Mul(q, 4) <= out.Length && Mul(q, 3) <= |samples|
    requires base + Mul(q, 3) <= out.Length && out[base..base + Mul(q, 3)] == samples[..Mul(q, 3)]
    modifies out
    ensures Mul(q - 1, 4) + 4 == Mul(q, 4) && Mul(q - 1, 3) + 3 == Mul(q, 3)
    ensures Same(out[..], old(out[..]), base + Mul(q - 1, 4), base + Mul(q, 4))
    ensures out[base + Mul(q - 1, 4)..base + Mul(q, 4)] == samples[Mul(q - 1, 3)..Mul(q, 3)] + [255]
  {
    hide Same, Mul;
    Few(q);
    Few(q - 1);
    AlphaColor(out, base, q - 1, samples);
  }

  lemma Few(q: nat)
    ensures Mul(q, 1) == q && Mul(q, 2) == 2 * q && Mul(q, 3) == 3 * q && Mul(q, 4) == 4 * q
  {
    hide Mul;
    MulIsTimes(q, 1);
    MulIsTimes(q, 2);
    MulIsTimes(q, 3);
    MulIsTimes(q, 4);
  }

  /** Inserts an opaque alpha channel behind every pixel of a row, from the last pixel to the first, in place: every sample
      keeps its value. */
  method InsertAlpha(out: array<Byte>, base: nat, x: nat, n: nat)
    requires (n == 1 || n == 3) && base + Mul(x, n + 1) <= out.Length
    modifies out
    ensures base + Mul(x, n) <= out.Length
    ensures SpreadRow(out[base..base + Mul(x, n + 1)], old(out[base..base + Mul(x, n)]), x, n, n + 1)
    ensures Same(out[..], old(out[..]), base, base + Mul(x, n + 1))
  {
    hide Same, HalfSpread, SpreadRow, Mul;
    ghost var before := out[..];
    Same3(before, base, base + Mul(x, n + 1));
    SpreadStart(before, base, x, n);
    ghost var samples := before[base..base + Mul(x, n)];
    assert samples == out[base..base + Mul(x, n)];
    var q := x;
    while q > 0
      invariant 0 <= q <= x && HalfSpread(out[..], base, x, n, samples, q)
      invariant Same(out[..], before, base, base + Mul(x, n + 1))
    {
      ghost var now := out[..];
      AlphaPixel(out, base, x, n, samples, q);
      SameBoth(before, now, out[..], base, base + Mul(x, n + 1));
      q := q - 1;
    }
    SpreadDone(out[..], base, x, n, samples);
    assert out[..][base..base + Mul(x, n + 1)] == out[base..base + Mul(x, n + 1)];
  }

  lemma SamplesThere(s: Row, base: nat, x: nat, n: nat, samples: Row, q: nat)
    requires HalfSpread(s, base, x, n, samples, q)
    ensures q <= x && |samples| == Mul(x, n) && Mul(q, n) <= |samples| && base + Mul(q, n + 1) <= base + Mul(x, n + 1) <= |s|
    ensures base + Mul(q, n) <= |s| && s[base..base + Mul(q, n)] == samples[..Mul(q, n)]
  {
  }

  lemma SpreadDone(s: Row, base: nat, x: nat, n: nat, samples: Row)
    requires HalfSpread(s, base, x, n, samples, 0)
    ensures base + Mul(x, n + 1) <= |s| && SpreadRow(s[base..base + Mul(x, n + 1)], samples, x, n, n + 1)
  {
    hide SpreadRow;
    NoPixels(n);
    NoPixels(n + 1);
    assert samples[0..] == samples;
  }

  lemma Wider(now: Row, before: Row, lo: nat, hi: nat, lo2: nat, hi2: nat)
    requires Same(now, before, lo, hi) && lo2 <= lo && hi <= hi2 <= |now|
    ensures Same(now, before, lo2, hi2)
  {
    assert now[..lo2] == now[..lo][..lo2] && before[..lo2] == before[..lo][..lo2];
    assert now[hi2..] == now[hi..][hi2 - hi..] && before[hi2..] == before[hi..][hi2 - hi..];
  }
}
