/** Query strings: printing a multimap of parameters, and parsing it back. */
module QueryString {
  import opened HttpText
  import opened UrlCoding

  type Pair = (string, string)

  /** A multimap, in the order in which it is iterated: by key, equal keys in the order of insertion. */
  type Params = seq<Pair>

  /** The lexicographic order of keys. */
  predicate AtMost(a: string, b: string)
    decreases |a|
  {
    a == [] || (b != [] && (a[0] < b[0] || (a[0] == b[0] && AtMost(a[1..], b[1..]))))
  }

  predicate SortedByKey(p: Params)
  {
    forall i, j :: 0 <= i < j < |p| ==> AtMost(p[i].0, p[j].0)
  }

  /** Insertion into a multimap: behind everything with the same or a smaller key. */
  function Emplace(p: Params, pair: Pair): (r: Params)
    ensures |r| == |p| + 1
  {
    var n := |p| - 1;
    if p == [] || AtMost(p[n].0, pair.0) then p + [pair] else Emplace(p[..n], pair) + [p[n]]
  }

  lemma {:induction false} AtMostTotal(a: string, b: string)
    ensures AtMost(a, b) || AtMost(b, a)
    decreases |a|
  {
    if a != [] && b != [] {
      AtMostTotal(a[1..], b[1..]);
    }
  }

  lemma {:induction false} AtMostTrans(a: string, b: string, c: string)
    requires AtMost(a, b) && AtMost(b, c)
    ensures AtMost(a, c)
    decreases |a|
  {
    if a != [] && a[0] == b[0] == c[0] {
      AtMostTrans(a[1..], b[1..], c[1..]);
    }
  }

  /** Insertion keeps the order of the keys, loses nothing and adds only the new pair. */
  lemma {:induction false} EmplaceKeepsOrder(p: Params, pair: Pair)
    requires SortedByKey(p)
    ensures SortedByKey(Emplace(p, pair)) && multiset(Emplace(p, pair)) == multiset(p) + multiset{pair}
    decreases |p|
  {
    hide AtMost;
    if p != [] {
      var n := |p| - 1;
      assert p == p[..n] + [p[n]];
      if AtMost(p[n].0, pair.0) {
        forall i | 0 <= i < n
          ensures AtMost(p[i].0, pair.0)
        {
          AtMostTrans(p[i].0, p[n].0, pair.0);
        }
      } else {
        AtMostTotal(p[n].0, pair.0);
        EmplaceKeepsOrder(p[..n], pair);
        var r := Emplace(p[..n], pair);
        forall i | 0 <= i < |r|
          ensures AtMost(r[i].0, p[n].0)
        {
          assert r[i] in multiset(r);
          assert r[i] in p[..n] || r[i] == pair;
        }
      }
    }
  }

  // ---------- keys and values ----------

  /** The first piece between '=' signs is the key, the last of the others the value. */
  function KeyValue(kv: string): Pair
  {
    var pieces := Pieces(kv, '=');
    (if pieces == [] then [] else pieces[0], if |pieces| < 2 then [] else pieces[|pieces| - 1])
  }

  method SplitKeyValue(kv: string) returns (key: string, val: string)
    ensures (key, val) == KeyValue(kv)
  {
    var pieces := Split(kv, '=');
    NoEmptyPiece(kv, '=', 0, 0);
    key, val := [], [];
    for i := 0 to |pieces|
      invariant key == if i == 0 then [] else pieces[0]
      invariant val == if i < 2 then [] else pieces[i - 1]
    {
      if key == [] {
        key := pieces[i];
      } else {
        val := pieces[i];
      }
    }
  }

  lemma {:induction false} NoEmptyPiece(s: string, d: char, beg: nat, i: nat)
    requires beg <= i <= |s|
    ensures [] !in PiecesFrom(s, d, beg, i)
    decreases |s| - i
  {
    if i < |s| {
      NoEmptyPiece(s, d, i + 1, i + 1);
      NoEmptyPiece(s, d, beg, i + 1);
    }
  }

  /** The pairs of the pieces: repeated pieces and pieces without a key count for nothing. */
  function Pairs(pieces: seq<string>): seq<Pair>
  {
    if pieces == [] then []
    else
      var n := |pieces| - 1;
      var kv := KeyValue(pieces[n]);
      if pieces[n] in pieces[..n] || kv.0 == [] then Pairs(pieces[..n]) else Pairs(pieces[..n]) + [kv]
  }

  /** How keys and values are written: percent coded in a query string, between double quotes in a header field. */
  datatype Coding = Percent | Quotes

  function DecodePair(kv: Pair, coding: Coding): Pair
  {
    match coding
    case Percent => (Decoded(kv.0, true), Decoded(kv.1, true))
    case Quotes => (TrimDoubleQuotes(kv.0), TrimDoubleQuotes(kv.1))
  }

  function Inserted(pairs: seq<Pair>, coding: Coding): Params
  {
    if pairs == [] then []
    else Emplace(Inserted(pairs[..|pairs| - 1], coding), DecodePair(pairs[|pairs| - 1], coding))
  }

  function ParsedPairs(s: string, separator: char, coding: Coding): Params
  {
    Inserted(Pairs(Pieces(s, separator)), coding)
  }

  function Parsed(s: string): Params
  {
    ParsedPairs(s, '&', Percent)
  }

  method ParseQueryText(s: string) returns (params: Params)
    ensures params == Parsed(s)
  {
    params := ParsePairs(s, '&', Percent);
  }

  /** The parameters of a header field such as Content-Disposition. */
  method ParseDispositionParams(s: string) returns (params: Params)
    ensures params == ParsedPairs(s, ';', Quotes)
  {
    params := ParsePairs(s, ';', Quotes);
  }

  method ParsePairs(s: string, separator: char, coding: Coding) returns (params: Params)
    ensures params == ParsedPairs(s, separator, coding)
  {
    hide Pairs, Inserted, Pieces;
    params := [];
    var cache: set<string> := {};
    var pieces := Split(s, separator);
    NoPairs(coding);
    for i := 0 to |pieces|
      invariant forall kv :: kv in cache <==> kv in pieces[..i]
      invariant params == Inserted(Pairs(pieces[..i]), coding)
    {
      var kv := pieces[i];
      PairsGrow(pieces[..i], kv, coding);
      assert pieces[..i + 1] == pieces[..i] + [kv];
      if kv !in cache {
        cache := cache + {kv};
        params := AddPair(kv, params, coding);
      }
    }
    assert pieces[..|pieces|] == pieces;
  }

  lemma NoPairs(coding: Coding)
    ensures Inserted(Pairs([]), coding) == []
  {
  }

  function WithPair(kv: string, params: Params, coding: Coding): Params
  {
    if KeyValue(kv).0 == [] then params else Emplace(params, DecodePair(KeyValue(kv), coding))
  }

  /** What the parser does with a piece it has not seen. */
  method AddPair(kv: string, params: Params, coding: Coding) returns (r: Params)
    ensures r == WithPair(kv, params, coding)
  {
    hide KeyValue, Emplace, Decoded;
    r := params;
    var key, val := SplitKeyValue(kv);
    if key != [] {
      if coding == Percent {
        var k := DecodeUrl(key, true);
        var v := DecodeUrl(val, true);
        r := Emplace(r, (k, v));
      } else {
        r := Emplace(r, (TrimDoubleQuotes(key), TrimDoubleQuotes(val)));
      }
    }
  }

  lemma PairsGrow(pieces: seq<string>, kv: string, coding: Coding)
    ensures var was := Inserted(Pairs(pieces), coding);
            Inserted(Pairs(pieces + [kv]), coding) == if kv in pieces then was else WithPair(kv, was, coding)
  {
    hide KeyValue, Emplace, DecodePair;
    assert (pieces + [kv])[..|pieces|] == pieces;
    var before := Pairs(pieces);
    assert (before + [KeyValue(kv)])[..|before|] == before;
  }

  // ---------- printing ----------

  function Item(kv: Pair): string
    requires IsBytes(kv.1)
  {
    kv.0 + "=" + Encoded(kv.1)
  }

  predicate ByteValues(p: Params)
  {
    forall i :: 0 <= i < |p| ==> IsBytes(p[i].1)
  }

  function Items(p: Params): (r: seq<string>)
    requires ByteValues(p)
    ensures |r| == |p| && forall i :: 0 <= i < |p| ==> r[i] == Item(p[i])
  {
    if p == [] then [] else Items(p[..|p| - 1]) + [Item(p[|p| - 1])]
  }

  function Printed(p: Params): string
    requires ByteValues(p)
  {
    Join(Items(p), '&')
  }

  lemma PrintedGrows(p: Params, kv: Pair)
    requires ByteValues(p) && IsBytes(kv.1)
    ensures ByteValues(p + [kv])
    ensures Printed(p + [kv]) == Printed(p) + (if p == [] then [] else "&") + kv.0 + "=" + Encoded(kv.1)
  {
    hide Encoded, IsBytes;
    assert (p + [kv])[..|p|] == p;
    var items := Items(p);
    assert Items(p + [kv]) == items + [Item(kv)];
    if p != [] {
      JoinAppend(items, Item(kv), '&');
      assert Printed(p) + "&" + Item(kv) == Printed(p) + "&" + kv.0 + "=" + Encoded(kv.1);
    } else {
      assert [] + [] + Item(kv) == Item(kv);
    }
  }

  lemma NothingPrinted()
    ensures Printed([]) == []
  {
  }

  method ParamsToQueryStr(params: Params) returns (query: string)
    requires ByteValues(params)
    ensures query == Printed(params)
  {
    hide Printed, Encoded, IsBytes;
    query := [];
    NothingPrinted();
    for i := 0 to |params|
      invariant query == Printed(params[..i])
    {
      assert params[..i + 1] == params[..i] + [params[i]];
      PrintedGrows(params[..i], params[i]);
      if i != 0 {
        query := query + "&";
      }
      var v := EncodeQueryParam(params[i].1);
      query := query + params[i].0;
      query := query + "=";
      query := query + v;
    }
    assert params[..|params|] == params;
  }

  // ---------- round trip ----------

  /** A key that parsing leaves as it is. */
  predicate PlainKey(k: string)
  {
    k != [] && Trimmed(k) && '&' !in k && '=' !in k && Decoded(k, true) == k
  }

  predicate PlainKeys(p: Params)
  {
    forall i :: 0 <= i < |p| ==> PlainKey(p[i].0)
  }

  lemma EncodedPiece(value: string)
    requires IsBytes(value)
    ensures Piece(Encoded(value)) == if Encoded(value) == [] then [] else [Encoded(value)]
    ensures Trimmed(Encoded(value)) && '&' !in Encoded(value) && '=' !in Encoded(value)
  {
    hide Encoded;
    forall c | c in Encoded(value)
      ensures !IsSpaceOrTab(c) && c != '&' && c != '='
    {
      EncodedAlphabet(value, c);
    }
    if Encoded(value) != [] {
      PieceOfTrimmed(Encoded(value));
    }
  }

  /** A printed item is one clean piece. */
  lemma ItemClean(kv: Pair)
    requires Trimmed(kv.0) && '&' !in kv.0 && IsBytes(kv.1)
    ensures Item(kv) != [] && Trimmed(Item(kv)) && '&' !in Item(kv)
  {
    hide Encoded, IsBytes;
    EncodedPiece(kv.1);
    var e := Encoded(kv.1);
    var s := Item(kv);
    assert s[0] == if kv.0 == [] then '=' else kv.0[0];
    assert s[|s| - 1] == if e == [] then '=' else e[|e| - 1];
  }

  /** A printed item parses to the pair it was printed from. */
  lemma ItemParses(kv: Pair)
    requires PlainKey(kv.0) && IsBytes(kv.1)
    ensures KeyValue(Item(kv)).0 == kv.0 && DecodePair(KeyValue(Item(kv)), Percent) == kv
  {
    hide Encoded, IsBytes, Pieces, Decoded, Piece;
    EncodedPiece(kv.1);
    var e := Encoded(kv.1);
    PiecesJoin(kv.0, '=', e);
    PieceOfTrimmed(kv.0);
    PiecesLast(e, '=');
    assert Pieces(Item(kv), '=') == if e == [] then [kv.0] else [kv.0, e];
    DecodeEncoded(kv.1, true);
  }

  /** Without later repetitions. */
  function Distinct(p: Params): Params
  {
    if p == [] then []
    else
      var n := |p| - 1;
      if p[n] in p[..n] then Distinct(p[..n]) else Distinct(p[..n]) + [p[n]]
  }

  predicate NoRepeats(p: Params)
  {
    forall i, j :: 0 <= i < j < |p| ==> p[i] != p[j]
  }

  lemma SameItem(p: Params, i: nat, j: nat)
    requires ByteValues(p) && PlainKeys(p) && i < |p| && j < |p|
    ensures Items(p)[i] == Items(p)[j] ==> p[i] == p[j]
  {
    hide Item, KeyValue, DecodePair, PlainKey, IsBytes;
    ItemParses(p[i]);
    ItemParses(p[j]);
  }

  /** Parsing the printed items collects the distinct pairs. */
  lemma {:induction false} PairsOfItems(p: Params)
    requires ByteValues(p) && PlainKeys(p)
    ensures |Pairs(Items(p))| == |Distinct(p)|
    ensures forall i :: 0 <= i < |Distinct(p)| ==> DecodePair(Pairs(Items(p))[i], Percent) == Distinct(p)[i]
    decreases |p|
  {
    hide Item, KeyValue, DecodePair, PlainKey, IsBytes;
    if p != [] {
      var n := |p| - 1;
      PairsOfItems(p[..n]);
      ItemParses(p[n]);
      assert PlainKey(p[n].0) && p[n].0 != [] by {
        KeyThere(p[n].0);
      }
      RepeatedItem(p);
    }
  }

  lemma KeyThere(k: string)
    requires PlainKey(k)
    ensures k != []
  {
  }

  lemma RepeatedItem(p: Params)
    requires ByteValues(p) && PlainKeys(p) && p != []
    ensures var n := |p| - 1; Items(p)[n] in Items(p)[..n] <==> p[n] in p[..n]
    ensures var n := |p| - 1; Items(p)[..n] == Items(p[..n])
  {
    hide Item, PlainKey, IsBytes;
    var n := |p| - 1;
    if Items(p)[n] in Items(p)[..n] {
      var i :| 0 <= i < n && Items(p)[i] == Items(p)[n];
      SameItem(p, i, n);
      assert p[..n][i] == p[n];
    }
    if p[n] in p[..n] {
      var i :| 0 <= i < n && p[i] == p[n];
      assert Items(p)[..n][i] == Items(p)[n];
    }
  }

  lemma {:induction false} DistinctSorted(p: Params)
    requires SortedByKey(p)
    ensures SortedByKey(Distinct(p)) && |Distinct(p)| <= |p|
    ensures forall kv :: kv in Distinct(p) ==> kv in p
    decreases |p|
  {
    hide AtMost;
    if p != [] {
      var n := |p| - 1;
      DistinctSorted(p[..n]);
      forall kv | kv in Distinct(p[..n])
        ensures AtMost(kv.0, p[n].0)
      {
        var i :| 0 <= i < n && p[..n][i] == kv;
      }
    }
  }

  /** Inserting pairs that come in the order of their keys keeps that order. */
  lemma {:induction false} InsertSorted(pairs: seq<Pair>, p: Params)
    requires |pairs| == |p| && SortedByKey(p)
    requires forall i :: 0 <= i < |p| ==> DecodePair(pairs[i], Percent) == p[i]
    ensures Inserted(pairs, Percent) == p
    decreases |p|
  {
    hide AtMost, DecodePair;
    if p != [] {
      var n := |p| - 1;
      InsertSorted(pairs[..n], p[..n]);
      assert p == p[..n] + [p[n]];
    }
  }

  /** Parsing undoes printing, but for repeated pairs, which come back once. */
  lemma QueryRoundTrip(p: Params)
    requires SortedByKey(p) && ByteValues(p) && PlainKeys(p)
    ensures Parsed(Printed(p)) == Distinct(p)
  {
    hide Item, KeyValue, DecodePair, Pairs, Inserted, Distinct, Pieces, Join, Items, SortedByKey, Trimmed;
    forall i | 0 <= i < |p|
      ensures Items(p)[i] != [] && Trimmed(Items(p)[i]) && '&' !in Items(p)[i]
    {
      ItemClean(p[i]);
    }
    SplitJoin(Items(p), '&');
    PairsOfItems(p);
    DistinctSorted(p);
    InsertSorted(Pairs(Items(p)), Distinct(p));
  }

  lemma {:induction false} DistinctExact(p: Params)
    ensures |Distinct(p)| <= |p|
    ensures Distinct(p) == p <==> NoRepeats(p)
    decreases |p|
  {
    if p != [] {
      var n := |p| - 1;
      DistinctExact(p[..n]);
      assert p == p[..n] + [p[n]];
      if p[n] in p[..n] {
        var i :| 0 <= i < n && p[i] == p[n];
        assert |Distinct(p)| < |p|;
      } else {
        assert NoRepeats(p) <==> NoRepeats(p[..n]);
        assert Distinct(p)[..|Distinct(p)| - 1] == Distinct(p[..n]);
      }
    }
  }
}
