/** Which parameters a query string can carry: keys are printed as they are, so a key must be one that parsing leaves alone. */
module QueryKeys {
  import opened HttpText
  import opened UrlCoding
  import opened QueryString

  // ---------- the weight of a text ----------

  /** Its length, where a plus counts twice: decoding never makes a text heavier. */
  function Weight(s: string): nat
  {
    if s == [] then 0 else (if s[0] == '+' then 2 else 1) + Weight(s[1..])
  }

  lemma {:induction false} WeightOfSum(a: string, b: string)
    ensures Weight(a + b) == Weight(a) + Weight(b)
    decreases |a|
  {
    if a == [] {
      assert a + b == b;
    } else {
      assert (a + b)[1..] == a[1..] + b;
      WeightOfSum(a[1..], b);
    }
  }

  lemma {:induction false} WeightBounds(s: string)
    ensures |s| <= Weight(s) <= 2 * |s|
    decreases |s|
  {
    if s != [] {
      WeightBounds(s[1..]);
    }
  }

  lemma {:induction false} WeightWithoutPlus(s: string)
    requires '+' !in s
    ensures Weight(s) == |s|
    decreases |s|
  {
    if s != [] {
      assert s[0] in s;
      WeightWithoutPlus(s[1..]);
    }
  }

  lemma CodePointLight(v: nat)
    ensures Weight(ToUtf8(v)) <= 4
  {
    var t := ToUtf8(v);
    WeightBounds(t);
    if |t| > 1 {
      WeightWithoutPlus(t);
    }
  }

  /** One step of decoding makes the text lighter, or leaves it as it is. */
  lemma DecodeOneLight(s: string)
    requires s != []
    ensures var (text, n) := DecodeOne(s, true); n <= |s| && (Weight(text) < Weight(s[..n]) || text == s[..n])
  {
    hide HexAt, ToUtf8;
    var (text, n) := DecodeOne(s, true);
    WeightBounds(s[..n]);
    WeightBounds(text);
    if n == 1 {
      assert s[..1] == [s[0]];
    } else if n == 6 {
      CodePointLight(HexAt(s, 2, 4).value);
    }
  }

  lemma {:induction false} DecodedLight(s: string)
    ensures Weight(Decoded(s, true)) < Weight(s) || Decoded(s, true) == s
    decreases |s|
  {
    hide DecodeOne;
    if s != [] {
      var (text, n) := DecodeOne(s, true);
      DecodeOneLight(s);
      DecodedLight(s[n..]);
      assert s == s[..n] + s[n..];
      WeightOfSum(s[..n], s[n..]);
      WeightOfSum(text, Decoded(s[n..], true));
    }
  }

  lemma {:induction false} TrimLight(s: string)
    ensures Weight(TrimBlanks(s)) < Weight(s) || TrimBlanks(s) == s
    decreases |s|
  {
    if s == [] {
    } else if IsSpaceOrTab(s[0]) {
      TrimLight(s[1..]);
    } else if IsSpaceOrTab(s[|s| - 1]) {
      var n := |s| - 1;
      TrimLight(s[..n]);
      assert s == s[..n] + [s[n]];
      WeightOfSum(s[..n], [s[n]]);
    }
  }

  // ---------- the weight of what is read ----------

  /** What the parts weigh when they have been decoded. */
  function Load(parts: seq<string>): nat
  {
    if parts == [] then 0 else Weight(Decoded(parts[0], true)) + Load(parts[1..])
  }

  lemma {:induction false} LoadOfSum(a: seq<string>, b: seq<string>)
    ensures Load(a + b) == Load(a) + Load(b)
    decreases |a|
  {
    if a == [] {
      assert a + b == b;
    } else {
      assert (a + b)[1..] == a[1..] + b;
      LoadOfSum(a[1..], b);
    }
  }

  /** A separator cuts the text, whatever stands before it. */
  lemma {:induction false} PiecesCut(a: string, d: char, rest: string, beg: nat, i: nat)
    requires beg <= i <= |a|
    ensures PiecesFrom(a + [d] + rest, d, beg, i) == PiecesFrom(a, d, beg, i) + Pieces(rest, d)
    decreases |a| - i
  {
    var s := a + [d] + rest;
    assert s[beg..i] == a[beg..i];
    if i == |a| {
      PiecesShift(a + [d], rest, d, 0, 0);
    } else if a[i] == d {
      PiecesCut(a, d, rest, i + 1, i + 1);
    } else {
      PiecesCut(a, d, rest, beg, i + 1);
    }
  }

  /** A text that comes back as a single part, as it is. */
  predicate Whole(s: string, d: char)
  {
    d !in s && Trimmed(s) && Decoded(s, true) == s
  }

  /** The parts between separators weigh less than the text, unless it is a single part that comes back as it is. */
  lemma {:induction false} PartsLight(s: string, d: char)
    ensures Load(Pieces(s, d)) < Weight(s) || (Load(Pieces(s, d)) == Weight(s) && Whole(s, d))
    decreases |s|
  {
    hide Pieces, Weight, TrimBlanks;
    if d in s {
      var i :| 0 <= i < |s| && s[i] == d;
      var a, b := s[..i], s[i + 1..];
      assert s == a + ([d] + b) && s == a + [d] + b;
      CutWeight(a, d, b);
      PiecesCutHere(a, d, b);
      LoadOfSum(Pieces(a, d), Pieces(b, d));
      PartsLight(a, d);
      PartsLight(b, d);
    } else {
      PiecesLast(s, d);
      TrimLight(s);
      DecodedLight(TrimBlanks(s));
      NoWeight();
      assert Load([TrimBlanks(s)]) == Weight(Decoded(TrimBlanks(s), true)) + Load([]);
    }
  }

  lemma NoWeight()
    ensures Weight([]) == 0 && Decoded([], true) == []
  {
  }

  lemma CutWeight(a: string, d: char, b: string)
    ensures Weight(a + [d] + b) > Weight(a) + Weight(b)
  {
    WeightOfSum(a + [d], b);
    WeightOfSum(a, [d]);
  }

  lemma PiecesCutHere(a: string, d: char, b: string)
    ensures Pieces(a + [d] + b, d) == Pieces(a, d) + Pieces(b, d)
  {
    PiecesCut(a, d, b, 0, 0);
  }

  /** What pieces weigh, each cut into key and value. */
  function Loads(pieces: seq<string>): nat
  {
    if pieces == [] then 0 else Loads(pieces[..|pieces| - 1]) + Load(Pieces(pieces[|pieces| - 1], '='))
  }

  lemma {:induction false} LoadsOfSum(a: seq<string>, b: seq<string>)
    ensures Loads(a + b) == Loads(a) + Loads(b)
    decreases |b|
  {
    if b == [] {
      assert a + b == a;
    } else {
      var n := |b| - 1;
      assert (a + b)[..|a| + n] == a + b[..n];
      LoadsOfSum(a, b[..n]);
    }
  }

  lemma LoadsOfCut(a: string, b: string)
    ensures Loads(Pieces(a + "&" + b, '&')) == Loads(Pieces(a, '&')) + Loads(Pieces(b, '&'))
  {
    PiecesCutHere(a, '&', b);
    LoadsOfSum(Pieces(a, '&'), Pieces(b, '&'));
  }

  lemma LoadsOfOne(s: string)
    requires '&' !in s
    ensures Loads(Pieces(s, '&')) == if TrimBlanks(s) == [] then 0 else Load(Pieces(TrimBlanks(s), '='))
  {
    hide Load;
    PiecesLast(s, '&');
    assert Loads([]) == 0;
  }

  lemma {:induction false} TextLight(s: string)
    ensures Loads(Pieces(s, '&')) <= Weight(s)
    decreases |s|
  {
    hide Pieces, Weight, TrimBlanks;
    if '&' in s {
      var i :| 0 <= i < |s| && s[i] == '&';
      var a, b := s[..i], s[i + 1..];
      assert s == a + "&" + b;
      LoadsOfCut(a, b);
      CutWeight(a, '&', b);
      TextLight(a);
      TextLight(b);
    } else {
      LoadsOfOne(s);
      TrimLight(s);
      PartsLight(TrimBlanks(s), '=');
    }
  }

  /** Only blanks before the text come off. */
  lemma {:induction false} TrimFront(k: string, rest: string) returns (left: string)
    requires rest != [] && Trimmed(rest)
    ensures TrimBlanks(k + rest) == left + rest && (left == k || Weight(left) < Weight(k))
    decreases |k|
  {
    if k == [] {
      left := k;
      assert k + rest == rest;
    } else if IsSpaceOrTab(k[0]) {
      left := TrimFront(k[1..], rest);
      assert (k + rest)[1..] == k[1..] + rest;
    } else {
      left := k;
      assert (k + rest)[|k + rest| - 1] == rest[|rest| - 1];
    }
  }

  /** A printed item weighs what its key and its value weigh, or less if its key does not come back as it is. */
  lemma {:induction false} ItemLight(kv: Pair)
    requires IsBytes(kv.1)
    ensures var load, full := Loads(Pieces(Item(kv), '&')), Weight(kv.0) + Weight(kv.1);
            load < full || (load == full && Whole(kv.0, '=') && '&' !in kv.0)
    decreases |kv.0|
  {
    hide Encoded, IsBytes, Pieces, Weight, TrimBlanks, Trimmed, Whole, Load;
    var k, e := kv.0, Encoded(kv.1);
    EncodedPiece(kv.1);
    if '&' in k {
      var i :| 0 <= i < |k| && k[i] == '&';
      var a, b := k[..i], k[i + 1..];
      assert k == a + "&" + b;
      assert Item(kv) == a + "&" + Item((b, kv.1));
      LoadsOfCut(a, Item((b, kv.1)));
      CutWeight(a, '&', b);
      TextLight(a);
      ItemLight((b, kv.1));
    } else {
      ValueLoad(kv.1);
      ValueTrimmed(e);
      var left := TrimFront(k, "=" + e);
      assert Item(kv) == k + ("=" + e) && left + ("=" + e) == left + ['='] + e;
      LoadsOfOne(Item(kv));
      PiecesCutHere(left, '=', e);
      LoadOfSum(Pieces(left, '='), Pieces(e, '='));
      PartsLight(left, '=');
    }
  }

  lemma ValueTrimmed(e: string)
    requires Trimmed(e)
    ensures Trimmed("=" + e)
  {
  }

  lemma ValueLoad(value: string)
    requires IsBytes(value)
    ensures Load(Pieces(Encoded(value), '=')) == Weight(value)
  {
    hide Encoded, IsBytes, Pieces, Trimmed;
    var e := Encoded(value);
    EncodedPiece(value);
    PiecesLast(e, '=');
    DecodeEncoded(value, true);
    assert Load([e]) == Weight(Decoded(e, true)) + Load([]);
  }

  // ---------- what is printed and what is read ----------

  function WeightOf(p: Params): nat
  {
    if p == [] then 0 else WeightOf(p[..|p| - 1]) + Weight(p[|p| - 1].0) + Weight(p[|p| - 1].1)
  }

  /** A key that comes back as it is if it is not empty. */
  predicate KeptKey(k: string)
  {
    Whole(k, '=') && '&' !in k
  }

  lemma {:induction false} PrintedLight(p: Params)
    requires ByteValues(p)
    ensures Loads(Pieces(Printed(p), '&')) <= WeightOf(p)
    ensures Loads(Pieces(Printed(p), '&')) == WeightOf(p) ==> forall i :: 0 <= i < |p| ==> KeptKey(p[i].0)
    decreases |p|
  {
    hide IsBytes, Pieces, Item, Weight, Whole, Printed;
    if p == [] {
      NothingPrinted();
      PiecesLast([], '&');
    } else {
      var n := |p| - 1;
      PrintedLight(p[..n]);
      ItemLight(p[n]);
      PrintedMore(p);
      if n > 0 {
        LoadsOfCut(Printed(p[..n]), Item(p[n]));
      }
    }
  }

  lemma PrintedMore(p: Params)
    requires ByteValues(p) && p != []
    ensures var n := |p| - 1; Printed(p) == if n == 0 then Item(p[n]) else Printed(p[..n]) + "&" + Item(p[n])
  {
    hide Encoded, IsBytes;
    var n := |p| - 1;
    assert p == p[..n] + [p[n]];
    PrintedGrows(p[..n], p[n]);
    assert Printed(p[..n]) + "&" + p[n].0 + "=" + Encoded(p[n].1) == Printed(p[..n]) + "&" + Item(p[n]);
    if n == 0 {
      NothingPrinted();
    }
  }

  lemma {:induction false} EmplaceWeight(p: Params, pair: Pair)
    ensures WeightOf(Emplace(p, pair)) == WeightOf(p) + Weight(pair.0) + Weight(pair.1)
    decreases |p|
  {
    hide Weight, AtMost;
    var n := |p| - 1;
    if p == [] || AtMost(p[n].0, pair.0) {
      assert (p + [pair])[..|p|] == p;
    } else {
      EmplaceWeight(p[..n], pair);
      var r := Emplace(p[..n], pair);
      assert (r + [p[n]])[..|r|] == r;
    }
  }

  lemma KeyValueLight(piece: string)
    ensures var kv := DecodePair(KeyValue(piece), Percent);
            Weight(kv.0) + Weight(kv.1) <= Load(Pieces(piece, '='))
  {
    hide Pieces, Weight, Decoded;
    var parts := Pieces(piece, '=');
    NoWeight();
    if |parts| == 1 {
      assert Load(parts) == Weight(Decoded(parts[0], true)) + Load([]);
    } else if |parts| >= 2 {
      LoadOfLast(parts[1..]);
    }
  }

  lemma LoadOfLast(parts: seq<string>)
    requires parts != []
    ensures Weight(Decoded(parts[|parts| - 1], true)) <= Load(parts)
  {
    hide Weight, Decoded;
    var n := |parts| - 1;
    assert parts == parts[..n] + [parts[n]];
    LoadOfSum(parts[..n], [parts[n]]);
  }

  /** What is read weighs no more than the pieces it was read from. */
  lemma {:induction false} ReadLight(pieces: seq<string>)
    ensures WeightOf(Inserted(Pairs(pieces), Percent)) <= Loads(pieces)
    decreases |pieces|
  {
    hide Pieces, Weight, Load, KeyValue, DecodePair, Emplace, WeightOf, Pairs, Inserted;
    if pieces == [] {
      NoPairs(Percent);
      assert WeightOf([]) == 0 by {
        NothingWeighs();
      }
    } else {
      var n := |pieces| - 1;
      ReadLight(pieces[..n]);
      assert pieces == pieces[..n] + [pieces[n]];
      PairsGrow(pieces[..n], pieces[n], Percent);
      KeyValueLight(pieces[n]);
      EmplaceWeight(Inserted(Pairs(pieces[..n]), Percent), DecodePair(KeyValue(pieces[n]), Percent));
    }
  }

  lemma NothingWeighs()
    ensures WeightOf([]) == 0
  {
  }

  // ---------- empty keys ----------

  lemma {:induction false} EmplaceHolds(p: Params, pair: Pair, kv: Pair)
    requires kv in Emplace(p, pair)
    ensures kv in p || kv == pair
    decreases |p|
  {
    hide AtMost;
    var n := |p| - 1;
    if !(p == [] || AtMost(p[n].0, pair.0)) && kv != p[n] {
      EmplaceHolds(p[..n], pair, kv);
    }
  }

  /** Every pair that is read comes from a piece with a key. */
  lemma {:induction false} ReadFrom(pieces: seq<string>, kv: Pair) returns (piece: string)
    requires kv in Inserted(Pairs(pieces), Percent)
    ensures piece in pieces && KeyValue(piece).0 != [] && kv == DecodePair(KeyValue(piece), Percent)
    decreases |pieces|
  {
    hide KeyValue, DecodePair, Emplace, Pairs, Inserted;
    if pieces == [] {
      NoPairs(Percent);
      assert false;
    } else {
      var n := |pieces| - 1;
      assert pieces == pieces[..n] + [pieces[n]];
      PairsGrow(pieces[..n], pieces[n], Percent);
      if kv in Inserted(Pairs(pieces[..n]), Percent) {
        piece := ReadFrom(pieces[..n], kv);
      } else {
        EmplaceHolds(Inserted(Pairs(pieces[..n]), Percent), DecodePair(KeyValue(pieces[n]), Percent), kv);
        piece := pieces[n];
      }
    }
  }

  /** An item whose key comes back as it is gives no empty key: without a key its value is taken for one. */
  lemma ItemKey(kv: Pair)
    requires KeptKey(kv.0) && IsBytes(kv.1)
    ensures KeyValue(Item(kv)).0 != [] ==> DecodePair(KeyValue(Item(kv)), Percent).0 != []
  {
    hide Encoded, IsBytes, Pieces, Decoded;
    EncodedPiece(kv.1);
    var k, e := kv.0, Encoded(kv.1);
    PiecesCutHere(k, '=', e);
    PiecesLast(k, '=');
    PiecesLast(e, '=');
    DecodeEncoded(kv.1, true);
    if k == [] {
      NothingEncoded();
    } else {
      PieceOfTrimmed(k);
    }
  }

  lemma NothingEncoded()
    ensures Encoded([]) == []
  {
  }

  lemma NoEmptyKey(p: Params, kv: Pair)
    requires ByteValues(p) && (forall i :: 0 <= i < |p| ==> KeptKey(p[i].0)) && kv in Parsed(Printed(p))
    ensures kv.0 != []
  {
    hide Item, KeyValue, DecodePair, Pieces, Join, Pairs, Inserted, Trimmed, IsBytes;
    forall i | 0 <= i < |p|
      ensures Items(p)[i] != [] && Trimmed(Items(p)[i]) && '&' !in Items(p)[i]
    {
      ItemClean(p[i]);
    }
    SplitJoin(Items(p), '&');
    var piece := ReadFrom(Items(p), kv);
    var i :| 0 <= i < |p| && Items(p)[i] == piece;
    ItemKey(p[i]);
  }

  /** The query string carries the parameters exactly if no pair is repeated and every key is one that parsing leaves
      alone. */
  lemma QueryExact(p: Params)
    requires SortedByKey(p) && ByteValues(p)
    ensures Parsed(Printed(p)) == p <==> NoRepeats(p) && PlainKeys(p)
  {
    hide SortedByKey, Printed, Parsed, Distinct, NoRepeats, WeightOf, Pieces, Loads, KeptKey;
    DistinctExact(p);
    if PlainKeys(p) {
      QueryRoundTrip(p);
    }
    if Parsed(Printed(p)) == p {
      PrintedLight(p);
      ReadLight(Pieces(Printed(p), '&'));
      ParsedIs(Printed(p));
      forall i | 0 <= i < |p|
        ensures PlainKey(p[i].0)
      {
        NoEmptyKey(p, p[i]);
        KeptIsPlain(p[i].0);
      }
    }
  }

  lemma ParsedIs(s: string)
    ensures Parsed(s) == Inserted(Pairs(Pieces(s, '&')), Percent)
  {
  }

  lemma KeptIsPlain(k: string)
    requires KeptKey(k) && k != []
    ensures PlainKey(k)
  {
  }
}
