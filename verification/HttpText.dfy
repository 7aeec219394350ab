/** Text helpers shared by the HTTP code: trimming, splitting at a separator, searching. */
module HttpText {
  /** The longest header line the library accepts. */
  const HEADER_MAX_LENGTH: nat := 8192

  function Crlf(): string { "\r\n" }

  predicate IsSpaceOrTab(c: char)
  {
    c == ' ' || c == '\t'
  }

  /** A blank of the C library, and of its regular expressions. */
  predicate IsSpace(c: char)
  {
    c == ' ' || 9 as char <= c <= 13 as char
  }

  function Concat(parts: seq<string>): string
  {
    if parts == [] then [] else parts[0] + Concat(parts[1..])
  }

  predicate Blank(s: string)
  {
    forall i :: 0 <= i < |s| ==> IsSpaceOrTab(s[i])
  }

  /** No blank at either end. */
  predicate Trimmed(s: string)
  {
    s == [] || (!IsSpaceOrTab(s[0]) && !IsSpaceOrTab(s[|s| - 1]))
  }

  /** Without the blanks at the ends. */
  function TrimBlanks(s: string): (t: string)
    ensures Trimmed(t)
    ensures t != [] || Blank(s)
    decreases |s|
  {
    if s == [] then s
    else if IsSpaceOrTab(s[0]) then TrimBlanks(s[1..])
    else if IsSpaceOrTab(s[|s| - 1]) then TrimBlanks(s[..|s| - 1])
    else s
  }

  /** The two scans of the source: `left` moves up to the end of the text, `right` down to its start. */
  method Trim(s: string, left: nat, right: nat) returns (l: nat, r: nat)
    requires left <= right <= |s|
    ensures left <= l <= |s| && r <= right
    ensures Blank(s[left..l]) && (l < |s| ==> !IsSpaceOrTab(s[l]))
    ensures Blank(s[r..right]) && (r > 0 ==> !IsSpaceOrTab(s[r - 1]))
  {
    l, r := left, right;
    while l < |s| && IsSpaceOrTab(s[l])
      invariant left <= l <= |s| && Blank(s[left..l])
    {
      assert s[left..l + 1] == s[left..l] + [s[l]];
      l := l + 1;
    }
    while r > 0 && IsSpaceOrTab(s[r - 1])
      invariant r <= right && Blank(s[r..right])
    {
      assert s[r - 1..right] == [s[r - 1]] + s[r..right];
      r := r - 1;
    }
  }

  lemma TrimFirst(s: string, l: nat, r: nat)
    requires s != [] && l <= r <= |s| && Blank(s[..l]) && Blank(s[r..])
    ensures l > 0 ==> Blank(s[1..][..l - 1]) && Blank(s[1..][r - 1..]) && s[1..][l - 1..r - 1] == s[l..r]
    ensures l == r == 0 ==> Blank(s[1..][..0]) && Blank(s[1..][0..])
  {
    if l > 0 {
      assert s[1..][..l - 1] == s[..l][1..] && s[1..][r - 1..] == s[r..];
    }
  }

  lemma BlankEnds(s: string, l: nat, r: nat)
    requires l <= r <= |s| && Blank(s[..l]) && Blank(s[r..])
    ensures l > 0 ==> IsSpaceOrTab(s[0])
    ensures r < |s| ==> IsSpaceOrTab(s[|s| - 1])
  {
    assert l > 0 ==> s[..l][0] == s[0];
    assert r < |s| ==> s[r..][|s| - r - 1] == s[|s| - 1];
  }

  lemma TrimLast(s: string, l: nat, r: nat)
    requires l <= r < |s| && Blank(s[r..])
    ensures s[..|s| - 1][..l] == s[..l] && Blank(s[..|s| - 1][r..]) && s[..|s| - 1][l..r] == s[l..r]
  {
    assert s[..|s| - 1][r..] == s[r..][..|s| - 1 - r];
  }

  lemma {:induction false} TrimAgain(s: string, l: nat, r: nat)
    requires l <= r <= |s| && Blank(s[..l]) && Blank(s[r..])
    requires l < r ==> !IsSpaceOrTab(s[l]) && !IsSpaceOrTab(s[r - 1])
    ensures TrimBlanks(s) == s[l..r]
    decreases |s|
  {
    hide Blank;
    BlankEnds(s, l, r);
    if s == [] {
    } else if IsSpaceOrTab(s[0]) {
      TrimFirst(s, l, r);
      if l == 0 {
        TrimAgain(s[1..], 0, 0);
      } else {
        TrimAgain(s[1..], l - 1, r - 1);
      }
    } else if IsSpaceOrTab(s[|s| - 1]) {
      TrimLast(s, l, r);
      TrimAgain(s[..|s| - 1], l, r);
    }
  }

  /** What a trimmed stretch of text contributes: itself, unless it is blank. */
  function Piece(s: string): seq<string>
  {
    var t := TrimBlanks(s);
    if t == [] then [] else [t]
  }

  /** The stretches between separators, trimmed, blank ones dropped. `beg..i` is the stretch being scanned. */
  function PiecesFrom(s: string, d: char, beg: nat, i: nat): seq<string>
    requires beg <= i <= |s|
    decreases |s| - i
  {
    if i == |s| then Piece(s[beg..i])
    else if s[i] == d then Piece(s[beg..i]) + PiecesFrom(s, d, i + 1, i + 1)
    else PiecesFrom(s, d, beg, i + 1)
  }

  function Pieces(s: string, d: char): seq<string>
  {
    PiecesFrom(s, d, 0, 0)
  }

  lemma Slice(s: string, a: nat, b: nat, i: nat, j: nat)
    requires a <= b <= |s| && i <= j <= b - a
    ensures s[a..b][i..j] == s[a + i..a + j]
  {
    var m := s[a..b];
    assert forall k :: 0 <= k < j - i ==> m[i..j][k] == m[i + k] == s[a + i + k] == s[a + i..a + j][k];
  }

  lemma CutIs(s: string, beg: nat, i: nat, first: nat, second: nat)
    requires beg <= first < second <= i <= |s| && Blank(s[beg..first]) && Blank(s[second..i])
    requires !IsSpaceOrTab(s[first]) && !IsSpaceOrTab(s[second - 1])
    ensures Piece(s[beg..i]) == [s[first..second]]
  {
    hide Blank, TrimBlanks;
    var m := s[beg..i];
    Slice(s, beg, i, 0, first - beg);
    Slice(s, beg, i, second - beg, |m|);
    Slice(s, beg, i, first - beg, second - beg);
    assert m[..first - beg] == m[0..first - beg] && m[second - beg..] == m[second - beg..|m|];
    TrimAgain(m, first - beg, second - beg);
  }

  method CutPiece(s: string, beg: nat, i: nat, pieces: seq<string>) returns (r: seq<string>)
    requires beg <= i <= |s|
    ensures r == pieces + Piece(s[beg..i])
  {
    var first, second := Trim(s, beg, i);
    if first < second {
      assert first < i && second > beg;
      CutIs(s, beg, i, first, second);
      r := pieces + [s[first..second]];
    } else {
      AllBlank(s, beg, i, first, second);
      r := pieces;
    }
  }

  /** When the scans meet or cross, the stretch is blank. */
  lemma AllBlank(s: string, beg: nat, i: nat, first: nat, second: nat)
    requires beg <= i <= |s| && second <= i && beg <= first <= |s| && second <= first
    requires Blank(s[beg..first]) && Blank(s[second..i])
    ensures Piece(s[beg..i]) == []
  {
    var m := s[beg..i];
    forall k | 0 <= k < |m|
      ensures IsSpaceOrTab(m[k])
    {
      if beg + k < first {
        assert s[beg..first][k] == m[k];
      } else {
        assert s[second..i][beg + k - second] == m[k];
      }
    }
    TrimAgain(m, |m|, |m|);
  }

  method Split(s: string, d: char) returns (pieces: seq<string>)
    ensures pieces == Pieces(s, d)
  {
    pieces := [];
    var i: nat, beg: nat := 0, 0;
    while i < |s|
      invariant beg <= i <= |s|
      invariant pieces + PiecesFrom(s, d, beg, i) == Pieces(s, d)
    {
      if s[i] == d {
        ghost var before := pieces;
        pieces := CutPiece(s, beg, i, pieces);
        assert before + (Piece(s[beg..i]) + PiecesFrom(s, d, i + 1, i + 1)) == pieces + PiecesFrom(s, d, i + 1, i + 1);
        beg := i + 1;
      }
      i := i + 1;
    }
    if i != 0 {
      pieces := CutPiece(s, beg, i, pieces);
    } else {
      assert s[beg..i] == [];
    }
  }

  method TrimCopy(s: string) returns (t: string)
    ensures t == TrimBlanks(s)
  {
    var l, r := Trim(s, 0, |s|);
    assert s[0..l] == s[..l] && s[r..|s|] == s[r..] && s[0..|s|] == s;
    if l < r {
      TrimAgain(s, l, r);
      return s[l..r];
    } else {
      AllBlank(s, 0, |s|, l, r);
      return [];
    }
  }

  // ---------- splitting undoes joining ----------

  /** The text before the first separator is one piece; the rest follows. */
  lemma {:induction false} PiecesSkip(s: string, d: char, beg: nat, i: nat, j: nat)
    requires beg <= i <= j <= |s| && d !in s[i..j]
    ensures PiecesFrom(s, d, beg, i) == PiecesFrom(s, d, beg, j)
    decreases j - i
  {
    if i < j {
      assert s[i] in s[i..j];
      assert forall c :: c in s[i + 1..j] ==> c in s[i..j];
      PiecesSkip(s, d, beg, i + 1, j);
    }
  }

  /** What follows position k does not depend on what precedes it. */
  lemma {:induction false} PiecesShift(a: string, s: string, d: char, beg: nat, i: nat)
    requires beg <= i <= |s|
    ensures PiecesFrom(a + s, d, |a| + beg, |a| + i) == PiecesFrom(s, d, beg, i)
    decreases |s| - i
  {
    assert (a + s)[|a| + beg..|a| + i] == s[beg..i];
    if i < |s| {
      assert (a + s)[|a| + i] == s[i];
      PiecesShift(a, s, d, i + 1, i + 1);
      PiecesShift(a, s, d, beg, i + 1);
    }
  }

  lemma PiecesJoin(a: string, d: char, rest: string)
    requires d !in a
    ensures Pieces(a + [d] + rest, d) == Piece(a) + Pieces(rest, d)
  {
    var s := a + [d] + rest;
    var k := |a|;
    assert s[0..k] == a;
    PiecesSkip(s, d, 0, 0, k);
    assert s[k] == d;
    PiecesShift(a + [d], rest, d, 0, 0);
  }

  lemma PiecesLast(a: string, d: char)
    requires d !in a
    ensures Pieces(a, d) == Piece(a)
  {
    assert a[0..|a|] == a;
    PiecesSkip(a, d, 0, 0, |a|);
  }

  lemma PieceOfTrimmed(a: string)
    requires Trimmed(a) && a != []
    ensures Piece(a) == [a] && TrimBlanks(a) == a && Piece(" " + a) == [a] && TrimBlanks(" " + a) == a
  {
    assert (" " + a)[1..] == a;
  }

  function Join(parts: seq<string>, d: char): string
  {
    if parts == [] then []
    else if |parts| == 1 then parts[0]
    else parts[0] + [d] + Join(parts[1..], d)
  }

  lemma {:induction false} JoinAppend(parts: seq<string>, last: string, d: char)
    requires parts != []
    ensures Join(parts + [last], d) == Join(parts, d) + [d] + last
    decreases |parts|
  {
    var s := parts + [last];
    if |parts| == 1 {
      assert s[1..] == [last];
    } else {
      JoinAppend(parts[1..], last, d);
      assert s[1..] == parts[1..] + [last];
      assert parts[0] + [d] + (Join(parts[1..], d) + [d] + last) == parts[0] + [d] + Join(parts[1..], d) + [d] + last;
    }
  }

  /** Splitting finds exactly the separators: it undoes joining for parts that are trimmed, not empty, and free of the
      separator. */
  lemma {:induction false} SplitJoin(parts: seq<string>, d: char)
    requires forall i :: 0 <= i < |parts| ==> parts[i] != [] && Trimmed(parts[i]) && d !in parts[i]
    ensures Pieces(Join(parts, d), d) == parts
    decreases |parts|
  {
    if |parts| == 0 {
    } else if |parts| == 1 {
      PiecesLast(parts[0], d);
      PieceOfTrimmed(parts[0]);
    } else {
      PiecesJoin(parts[0], d, Join(parts[1..], d));
      PieceOfTrimmed(parts[0]);
      SplitJoin(parts[1..], d);
    }
  }

  /** Without a pair of double quotes around it. */
  function TrimDoubleQuotes(s: string): string
  {
    if |s| >= 2 && s[0] == '"' && s[|s| - 1] == '"' then s[1..|s| - 1] else s
  }

  lemma QuotesComeOff(s: string)
    ensures TrimDoubleQuotes("\"" + s + "\"") == s
  {
  }

  // ---------- searching ----------

  predicate At(s: string, i: nat, pattern: string)
  {
    i <= |s| && pattern <= s[i..]
  }

  /** The first place at or after i where the pattern occurs; the length of the text if there is none. */
  function FindFrom(s: string, pattern: string, i: nat): (r: nat)
    requires i <= |s|
    ensures i <= r <= |s|
    ensures r < |s| ==> At(s, r, pattern)
    ensures forall k :: i <= k < r ==> !At(s, k, pattern)
    decreases |s| - i
  {
    if i == |s| || At(s, i, pattern) then i else FindFrom(s, pattern, i + 1)
  }

  function Find(s: string, pattern: string): (r: nat)
    ensures r <= |s|
  {
    FindFrom(s, pattern, 0)
  }

  lemma FindUnique(s: string, pattern: string, k: nat)
    requires k <= |s| && (k < |s| ==> At(s, k, pattern))
    requires forall j: nat :: j < k ==> !At(s, j, pattern)
    ensures Find(s, pattern) == k
  {
  }

  function ToLower(c: char): char
  {
    if 'A' <= c <= 'Z' then (c as int + 32) as char else c
  }

  predicate SameIgnoringCase(a: string, b: string)
  {
    |a| == |b| && forall i :: 0 <= i < |a| ==> ToLower(a[i]) == ToLower(b[i])
  }

  predicate StartsIgnoringCase(a: string, b: string)
  {
    |a| >= |b| && SameIgnoringCase(a[..|b|], b)
  }

  method StartWithCaseIgnore(a: string, b: string) returns (r: bool)
    ensures r <==> StartsIgnoringCase(a, b)
  {
    if |a| < |b| {
      return false;
    }
    var i := 0;
    while i < |b|
      invariant 0 <= i <= |b|
      invariant forall k :: 0 <= k < i ==> ToLower(a[k]) == ToLower(b[k])
    {
      if ToLower(a[i]) != ToLower(b[i]) {
        assert a[..|b|][i] == a[i];
        return false;
      }
      i := i + 1;
    }
    return true;
  }
}
