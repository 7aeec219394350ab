/** The base64 encoder, whose 32-bit accumulator is never cleared, and the encoding of section 4 of RFC 4648. */
module Base64 {
  import opened Basics

  type Sextet = v: nat | v < 64

  /** The base64 alphabet. */
  function Letter(v: Sextet): char
  {
    if v < 26 then ('A' as nat + v) as char
    else if v < 52 then ('a' as nat + v - 26) as char
    else if v < 62 then ('0' as nat + v - 52) as char
    else if v == 62 then '+'
    else '/'
  }

  function Letters(v: seq<Sextet>): (s: string)
    ensures |s| == |v| && forall i :: 0 <= i < |v| ==> s[i] == Letter(v[i])
  {
    seq(|v|, i requires 0 <= i < |v| => Letter(v[i]))
  }

  // ---------- the encoding of RFC 4648 ----------

  /** The groups of six bits of three bytes. */
  function First(a: Byte): Sextet { a / 4 }

  function Second(a: Byte, b: Byte): Sextet { a % 4 * 16 + b / 16 }

  function Third(b: Byte, c: Byte): Sextet { b % 16 * 4 + c / 64 }

  function Fourth(c: Byte): Sextet { c % 64 }

  /** Three bytes are four groups of six bits. */
  function Triple(a: Byte, b: Byte, c: Byte): string
  {
    Letters([First(a), Second(a, b), Third(b, c), Fourth(c)])
  }

  /** The last one or two bytes, padded with zero bits and '='. */
  function Final(s: seq<Byte>): string
    requires |s| < 3
  {
    if |s| == 0 then []
    else if |s| == 1 then Letters([First(s[0]), Second(s[0], 0)]) + "=="
    else Letters([First(s[0]), Second(s[0], s[1]), Third(s[1], 0)]) + "="
  }

  function Encoded(s: seq<Byte>): string
  {
    if |s| < 3 then Final(s) else Triple(s[0], s[1], s[2]) + Encoded(s[3..])
  }

  /** Four letters for every three bytes or part thereof. */
  lemma {:induction false} EncodedLength(s: seq<Byte>)
    ensures |Encoded(s)| == 4 * ((|s| + 2) / 3)
    decreases |s|
  {
    hide Triple, Final;
    if |s| < 3 {
      FinalLength(s);
    } else {
      EncodedLength(s[3..]);
      TripleLength(s[0], s[1], s[2]);
      OneMore(|s| - 1);
    }
  }

  lemma FinalLength(s: seq<Byte>)
    requires |s| < 3
    ensures |Final(s)| == if s == [] then 0 else 4
  {
    hide Letter;
  }

  lemma TripleLength(a: Byte, b: Byte, c: Byte)
    ensures |Triple(a, b, c)| == 4
  {
    hide Letter;
  }

  lemma OneMore(n: nat)
    ensures (n + 3) / 3 == n / 3 + 1
  {
  }

  // ---------- a reference decoder ----------

  /** The value of a letter of the alphabet. */
  function Value(c: char): Sextet
  {
    if 'A' <= c <= 'Z' then c as nat - 'A' as nat
    else if 'a' <= c <= 'z' then c as nat - 'a' as nat + 26
    else if '0' <= c <= '9' then c as nat - '0' as nat + 52
    else if c == '+' then 62
    else 63
  }

  /** The bytes of four letters; '=' stands for a missing byte. */
  function Quad(a: char, b: char, c: char, d: char): seq<Byte>
  {
    var x, y, z, w := Value(a), Value(b), Value(c), Value(d);
    if c == '=' then [x * 4 + y / 16]
    else if d == '=' then [x * 4 + y / 16, y % 16 * 16 + z / 4]
    else [x * 4 + y / 16, y % 16 * 16 + z / 4, z % 4 * 64 + w]
  }

  function Decoded(s: string): seq<Byte>
  {
    if |s| < 4 then [] else Quad(s[0], s[1], s[2], s[3]) + Decoded(s[4..])
  }

  lemma LetterValue(v: Sextet)
    ensures Value(Letter(v)) == v && Letter(v) != '='
  {
  }

  lemma Split(q: nat, r: nat, k: nat)
    requires k == 4 || k == 16 || k == 64
    requires r < k
    ensures (q * k + r) / k == q && (q * k + r) % k == r
  {
  }

  lemma TripleDecoded(a: Byte, b: Byte, c: Byte)
    ensures var t := Triple(a, b, c); |t| == 4 && Quad(t[0], t[1], t[2], t[3]) == [a, b, c]
  {
    hide Letter, Quad, First, Second, Third, Fourth;
    QuadOf(First(a), Second(a, b), Third(b, c), Fourth(c));
    Rejoined(a, b, c);
  }

  lemma QuadOf(x: Sextet, y: Sextet, z: Sextet, w: Sextet)
    ensures Quad(Letter(x), Letter(y), Letter(z), Letter(w)) == [x * 4 + y / 16, y % 16 * 16 + z / 4, z % 4 * 64 + w]
  {
    hide Letter, Value;
    LetterValue(x);
    LetterValue(y);
    LetterValue(z);
    LetterValue(w);
  }

  lemma Rejoined(a: Byte, b: Byte, c: Byte)
    ensures var x, y, z, w := First(a), Second(a, b), Third(b, c), Fourth(c);
            x * 4 + y / 16 == a && y % 16 * 16 + z / 4 == b && z % 4 * 64 + w == c
  {
    Split(a % 4, b / 16, 16);
    Split(b % 16, c / 64, 4);
  }

  lemma FinalDecoded(s: seq<Byte>)
    requires |s| < 3
    ensures Decoded(Final(s)) == s
  {
    hide Letter, Value;
    if |s| > 0 {
      var t := Final(s);
      assert t[4..] == [];
      LetterValue(s[0] / 4);
      if |s| == 1 {
        LetterValue(s[0] % 4 * 16);
        Split(s[0] % 4, 0, 16);
        assert Quad(t[0], t[1], t[2], t[3]) == s;
      } else {
        LetterValue(s[0] % 4 * 16 + s[1] / 16);
        LetterValue(s[1] % 16 * 4);
        Split(s[0] % 4, s[1] / 16, 16);
        Split(s[1] % 16, 0, 4);
        assert Quad(t[0], t[1], t[2], t[3]) == s;
      }
    }
  }

  /** Decoding undoes encoding, for every sequence of bytes. */
  lemma {:induction false} DecodeEncoded(s: seq<Byte>)
    ensures Decoded(Encoded(s)) == s
    decreases |s|
  {
    hide Triple, Final, Quad;
    if |s| < 3 {
      FinalDecoded(s);
    } else {
      TripleDecoded(s[0], s[1], s[2]);
      DecodeEncoded(s[3..]);
      var t := Encoded(s);
      assert t[4..] == Encoded(s[3..]);
      assert s == [s[0], s[1], s[2]] + s[3..];
    }
  }

  // ---------- the encoder ----------

  /** Arithmetic on the C type int wraps. */
  function Wrap32(x: int): (r: int)
    ensures -0x8000_0000 <= r < 0x8000_0000
  {
    (x + 0x8000_0000) % 0x1_0000_0000 - 0x8000_0000
  }

  lemma By4096(q: int, r: nat)
    requires r < 4096
    ensures (4096 * q + r) % 4096 == r
  {
  }

  lemma By64(q: int, r: nat)
    requires r < 64
    ensures (64 * q + r) % 64 == r
  {
  }

  lemma WrapKeepsLow(x: int)
    ensures Wrap32(x) % 4096 == x % 4096
  {
    var y := x + 0x8000_0000;
    var w := Wrap32(x);
    var k := y / 0x1_0000_0000;
    assert x == w + 4096 * (0x10_0000 * k);
    By4096(w / 4096 + 0x10_0000 * k, w % 4096);
  }

  /** The low twelve bits after a byte is shifted in: four of the bits before it, and the byte. */
  lemma ShiftIn(val: int, c: Byte)
    ensures Wrap32(Wrap32(val * 256) + c) % 4096 == val % 16 * 256 + c
  {
    WrapKeepsLow(Wrap32(val * 256) + c);
    WrapKeepsLow(val * 256);
    Combine(val, Wrap32(val * 256), c);
  }

  lemma Combine(val: int, w: int, c: Byte)
    requires w % 4096 == val * 256 % 4096
    ensures (w + c) % 4096 == val % 16 * 256 + c
  {
    var q, t := val / 16, val % 16;
    assert val * 256 == 4096 * q + 256 * t;
    By4096(q, 256 * t);
    assert w % 4096 == 256 * t;
    var k := w / 4096;
    assert w + c == 4096 * k + (256 * t + c);
    By4096(k, 256 * t + c);
  }

  /** The six bits of a value that start at bit k. */
  function SixBits(val: int, k: nat): Sextet
    requires k == 0 || k == 2 || k == 4 || k == 6
  {
    (if k == 0 then val else if k == 2 then val / 4 else if k == 4 then val / 16 else val / 64) % 64
  }

  lemma OverFour(q: int, r: nat)
    requires r < 4
    ensures (4 * q + r) / 4 == q
  {
  }

  lemma OverSixteen(q: int, r: nat)
    requires r < 16
    ensures (16 * q + r) / 16 == q
  {
  }

  lemma OverSixtyFour(q: int, r: nat)
    requires r < 64
    ensures (64 * q + r) / 64 == q
  {
  }

  lemma Plus64(q: int, l: nat)
    ensures (64 * q + l) % 64 == l % 64
  {
    By64(q + l / 64, l % 64);
    assert 64 * q + l == 64 * (q + l / 64) + l % 64;
  }

  lemma Low4(h: int, l: nat)
    ensures (4096 * h + l) / 4 % 64 == l / 4 % 64
  {
    OverFour(1024 * h + l / 4, l % 4);
    assert 4096 * h + l == 4 * (1024 * h + l / 4) + l % 4;
    Plus64(16 * h, l / 4);
  }

  lemma Low16(h: int, l: nat)
    ensures (4096 * h + l) / 16 % 64 == l / 16 % 64
  {
    OverSixteen(256 * h + l / 16, l % 16);
    assert 4096 * h + l == 16 * (256 * h + l / 16) + l % 16;
    Plus64(4 * h, l / 16);
  }

  lemma Low64(h: int, l: nat)
    ensures (4096 * h + l) / 64 % 64 == l / 64 % 64
  {
    OverSixtyFour(64 * h + l / 64, l % 64);
    assert 4096 * h + l == 64 * (64 * h + l / 64) + l % 64;
    Plus64(h, l / 64);
  }

  lemma Low1(h: int, l: nat)
    ensures (4096 * h + l) % 64 == l % 64
  {
    Plus64(64 * h, l);
  }

  /** Only the low twelve bits matter. */
  lemma SixBitsLow(val: int, k: nat)
    requires k == 0 || k == 2 || k == 4 || k == 6
    ensures SixBits(val, k) == SixBits(val % 4096, k)
  {
    var h, l := val / 4096, val % 4096;
    assert val == 4096 * h + l;
    Low1(h, l);
    Low4(h, l);
    Low16(h, l);
    Low64(h, l);
  }

  /** The groups that can be cut from a value with these low bits. */
  lemma Cut(val: int, p: nat, c: Byte)
    requires p < 16 && val % 4096 == p * 256 + c
    ensures SixBits(val, 2) == c / 4 && SixBits(val, 4) == p % 4 * 16 + c / 16
    ensures SixBits(val, 6) == p * 4 + c / 64 && SixBits(val, 0) == c % 64
  {
    SixBitsLow(val, 0);
    SixBitsLow(val, 2);
    SixBitsLow(val, 4);
    SixBitsLow(val, 6);
    CutLow(p, c);
  }

  lemma CutLow(p: nat, c: Byte)
    requires p < 16
    ensures var v := p * 256 + c;
            SixBits(v, 2) == c / 4 && SixBits(v, 4) == p % 4 * 16 + c / 16 && SixBits(v, 6) == p * 4 + c / 64 &&
            SixBits(v, 0) == c % 64
  {
    CutFour(p, c);
    CutSixteen(p, c);
    assert (p * 256 + c) / 64 == 4 * p + c / 64;
  }

  lemma CutFour(p: nat, c: Byte)
    ensures (p * 256 + c) / 4 % 64 == c / 4 && (p * 256 + c) % 64 == c % 64
  {
    assert (p * 256 + c) / 4 == 64 * p + c / 4;
    By64(p, c / 4);
    assert p * 256 + c == 64 * (4 * p + c / 64) + c % 64;
    By64(4 * p + c / 64, c % 64);
  }

  lemma CutSixteen(p: nat, c: Byte)
    requires p < 16
    ensures (p * 256 + c) / 16 % 64 == p % 4 * 16 + c / 16
  {
    assert (p * 256 + c) / 16 == 64 * (p / 4) + (p % 4 * 16 + c / 16);
  }

  /** The groups at and below bit `valb`. */
  function Groups(val: int, valb: int): string
    requires valb == -6 || valb == -4 || valb == -2 || valb == 0 || valb == 2 || valb == 4 || valb == 6
  {
    if valb < 0 then [] else [Letter(SixBits(val, valb))] + Groups(val, valb - 6)
  }

  predicate Phase(valb: int)
  {
    valb == -6 || valb == -4 || valb == -2
  }

  /** Shifts a byte in and cuts the groups that have become complete. */
  method PushByte(val: int, valb: int, c: Byte, sofar: string) returns (v: int, b: int, out: string)
    requires Phase(valb)
    ensures v == Wrap32(Wrap32(val * 256) + c)
    ensures out == sofar + Groups(v, valb + 8) && b == if valb == -2 then -6 else valb + 2
  {
    hide Letter, SixBits, Wrap32;
    v := Wrap32(Wrap32(val * 256) + c);
    b := valb + 8;
    out := sofar;
    while b >= 0
      invariant Phase(b) || b == valb + 8 || (valb == -2 && b == 0)
      invariant out + Groups(v, b) == sofar + Groups(v, valb + 8)
      invariant b < 0 ==> b == if valb == -2 then -6 else valb + 2
    {
      ghost var before := out;
      out := out + [Letter(SixBits(v, b))];
      assert before + Groups(v, b) == out + Groups(v, b - 6);
      b := b - 6;
    }
  }

  /** The letters of the complete groups of six bits; two or four bits may be left over. */
  function Full(s: seq<Byte>): string
  {
    if |s| == 0 then []
    else if |s| == 1 then Letters([First(s[0])])
    else if |s| == 2 then Letters([First(s[0]), Second(s[0], s[1])])
    else Triple(s[0], s[1], s[2]) + Full(s[3..])
  }

  /** What one more byte adds, with r bytes since the last complete triple, the last of them `last`. */
  function Added(r: nat, last: Byte, c: Byte): string
  {
    if r == 0 then Letters([First(c)])
    else if r == 1 then Letters([Second(last, c)])
    else Letters([Third(last, c), Fourth(c)])
  }

  /** What the padding adds. */
  function Padding(r: nat, last: Byte): string
  {
    if r == 0 then []
    else if r == 1 then Letters([Second(last, 0)]) + "=="
    else Letters([Third(last, 0)]) + "="
  }

  function LastOf(s: seq<Byte>): Byte
  {
    if s == [] then 0 else s[|s| - 1]
  }

  lemma {:induction false} FullGrows(s: seq<Byte>, c: Byte)
    ensures Full(s + [c]) == Full(s) + Added(|s| % 3, LastOf(s), c)
    decreases |s|
  {
    hide Added, Triple;
    if |s| < 3 {
      FullGrowsShort(s, c);
    } else {
      FullGrows(s[3..], c);
      assert (s + [c])[3..] == s[3..] + [c];
      if |s| == 3 {
        AddedFirst(LastOf(s), LastOf(s[3..]), c);
      }
      var t := Triple(s[0], s[1], s[2]);
      assert t + (Full(s[3..]) + Added(|s| % 3, LastOf(s), c)) == t + Full(s[3..]) + Added(|s| % 3, LastOf(s), c);
    }
  }

  lemma AddedFirst(a: Byte, b: Byte, c: Byte)
    ensures Added(0, a, c) == Added(0, b, c) && Padding(0, a) == Padding(0, b)
  {
  }

  lemma LettersAppend(u: seq<Sextet>, v: seq<Sextet>)
    ensures Letters(u + v) == Letters(u) + Letters(v)
  {
    hide Letter;
  }

  lemma FullGrowsShort(s: seq<Byte>, c: Byte)
    requires |s| < 3
    ensures Full(s + [c]) == Full(s) + Added(|s|, LastOf(s), c)
  {
    hide Full, Letters, First, Second, Third, Fourth;
    FullUnfolds(s);
    FullUnfolds(s + [c]);
    if |s| == 0 {
      assert s + [c] == [c];
      assert [] + Letters([First(c)]) == Letters([First(c)]);
    } else if |s| == 1 {
      GrowOne(s[0], c);
    } else {
      GrowTwo(s[0], s[1], c);
    }
  }

  lemma FullUnfolds(s: seq<Byte>)
    requires |s| <= 3
    ensures Full(s) ==
            if |s| == 0 then []
            else if |s| == 1 then Letters([First(s[0])])
            else if |s| == 2 then Letters([First(s[0]), Second(s[0], s[1])])
            else Triple(s[0], s[1], s[2])
  {
    hide Letters, Triple;
    if |s| == 3 {
      assert s[3..] == [];
      assert Triple(s[0], s[1], s[2]) + [] == Triple(s[0], s[1], s[2]);
    }
  }

  lemma GrowOne(a: Byte, c: Byte)
    ensures Letters([First(a), Second(a, c)]) == Letters([First(a)]) + Letters([Second(a, c)])
  {
    hide Letters, First, Second;
    LettersAppend([First(a)], [Second(a, c)]);
    assert [First(a)] + [Second(a, c)] == [First(a), Second(a, c)];
  }

  lemma GrowTwo(a: Byte, b: Byte, c: Byte)
    ensures Triple(a, b, c) == Letters([First(a), Second(a, b)]) + Letters([Third(b, c), Fourth(c)])
  {
    hide Letters, First, Second, Third, Fourth;
    LettersAppend([First(a), Second(a, b)], [Third(b, c), Fourth(c)]);
    assert [First(a), Second(a, b)] + [Third(b, c), Fourth(c)] == [First(a), Second(a, b), Third(b, c), Fourth(c)];
  }

  /** What is left over, padded, completes the encoding. */
  lemma {:induction false} FullThenRest(s: seq<Byte>)
    ensures |Full(s)| % 4 == |s| % 3 && Encoded(s) == Full(s) + Padding(|s| % 3, LastOf(s))
    decreases |s|
  {
    hide Padding, Triple;
    if |s| < 3 {
      FullThenRestShort(s);
    } else {
      FullThenRest(s[3..]);
      FourMore(Full(s[3..]));
      if |s| == 3 {
        AddedFirst(LastOf(s), LastOf(s[3..]), 0);
      }
      var t := Triple(s[0], s[1], s[2]);
      TripleDecoded(s[0], s[1], s[2]);
      assert t + (Full(s[3..]) + Padding(|s| % 3, LastOf(s))) == t + Full(s[3..]) + Padding(|s| % 3, LastOf(s));
    }
  }

  lemma FourMore(s: string)
    ensures (4 + |s|) % 4 == |s| % 4
  {
  }

  lemma FullThenRestShort(s: seq<Byte>)
    requires |s| < 3
    ensures |Full(s)| % 4 == |s| && Encoded(s) == Full(s) + Padding(|s|, LastOf(s))
  {
    hide Letter, First, Second, Third, Fourth;
  }

  /** The groups cut after a byte are the ones the encoding is made of. */
  lemma GroupsAre(v: int, valb: int, last: Byte, c: Byte)
    requires Phase(valb) && v % 4096 == last % 16 * 256 + c
    ensures Groups(v, valb + 8) == Added((valb + 6) / 2, last, c)
  {
    hide Letter, SixBits;
    Cut(v, last % 16, c);
    assert last % 16 % 4 == last % 4;
    assert Groups(v, valb + 8) == [Letter(SixBits(v, valb + 8))] + Groups(v, valb + 2);
  }

  method Base64Encode(input: seq<Byte>) returns (out: string)
    ensures out == Encoded(input)
  {
    hide Encoded, Full, Letter, SixBits, Wrap32, Groups, Added, Padding;
    out := "";
    var val, valb := 0, -6;
    FullNone();
    for i := 0 to |input|
      invariant valb == 2 * (i % 3) - 6
      invariant val % 16 == LastOf(input[..i]) % 16
      invariant out == Full(input[..i])
    {
      var c := input[i];
      ShiftIn(val, c);
      LowFour(val % 16, c);
      FullGrows(input[..i], c);
      assert input[..i + 1] == input[..i] + [c];
      val, valb, out := PushByte(val, valb, c, out);
      GroupsAre(val, 2 * (i % 3) - 6, LastOf(input[..i]), c);
      LowAgain(val);
    }
    assert input[..|input|] == input;
    FullThenRest(input);
    out := Finish(val, valb, out, LastOf(input));
  }

  lemma FullNone()
    ensures Full([]) == []
  {
  }

  lemma LowFour(p: nat, c: Byte)
    requires p < 16
    ensures (p * 256 + c) % 16 == c % 16
  {
    assert p * 256 + c == 16 * (16 * p + c / 16) + c % 16;
    LowestFour(16 * p + c / 16, c % 16);
  }

  lemma LowAgain(val: int)
    ensures val % 4096 % 16 == val % 16
  {
    var q, r := val / 4096, val % 4096;
    var s, t := r / 16, r % 16;
    assert val == 16 * (256 * q + s) + t;
    LowestFour(256 * q + s, t);
  }

  lemma LowestFour(q: int, t: int)
    requires 0 <= t < 16
    ensures (16 * q + t) % 16 == t
  {
  }

  /** The bits left over, and the padding. */
  method Finish(val: int, valb: int, sofar: string, ghost last: Byte) returns (out: string)
    requires Phase(valb) && |sofar| % 4 == (valb + 6) / 2 && val % 16 == last % 16
    ensures out == sofar + Padding((valb + 6) / 2, last)
  {
    hide Letter, SixBits, Wrap32;
    out := sofar;
    if valb > -6 {
      LeftOver(val, last);
      out := out + [Letter(SixBits(Wrap32(val * 256), valb + 8))];
    }
    ghost var rest := out;
    var k := 0;
    while |out| % 4 != 0
      invariant k <= 2 && out == rest + "=="[..k]
      invariant |rest| % 4 == 0 ==> k == 0
      invariant |rest| % 4 == 3 ==> k <= 1
      invariant |rest| % 4 == 0 || |rest| % 4 == 3 || |rest| % 4 == 2
      decreases 3 - k
    {
      out := out + "=";
      assert "=="[..k + 1] == "=="[..k] + "=";
      k := k + 1;
    }
  }

  lemma LeftOver(val: int, last: Byte)
    requires val % 16 == last % 16
    ensures SixBits(Wrap32(val * 256), 4) == Second(last, 0) && SixBits(Wrap32(val * 256), 6) == Third(last, 0)
  {
    hide SixBits, Wrap32;
    WrapKeepsLow(val * 256);
    Combine(val, val * 256, 0);
    Cut(Wrap32(val * 256), last % 16, 0);
    assert last % 16 % 4 == last % 4;
  }
}
