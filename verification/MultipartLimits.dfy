/** How long the header lines of a written body may be: under every cut of the body, and in one piece. */
module MultipartLimits {
  import opened HttpText
  import opened MultipartForm
  import opened MultipartWriter
  import opened MultipartRoundTrip

  // ---------- the body in front of a header line, and from it on ----------

  function Before(items: seq<Item>, k: nat, n: nat, boundary: string): string
    requires k < |items| && n <= |Lines(items[k].file)|
  {
    Entries(items[..k], boundary) + OpeningLine(boundary) + Block(Lines(items[k].file)[..n])
  }

  function FromLine(items: seq<Item>, k: nat, n: nat, boundary: string): string
    requires k < |items| && n <= |Lines(items[k].file)|
  {
    Block(Lines(items[k].file)[n..]) + (Crlf() + ContentText(items, k, 0, boundary))
  }

  lemma FirstOfSlice(lines: seq<string>, n: nat)
    requires 0 < n <= |lines|
    ensures lines[..n][1..] == lines[1..][..n - 1] && lines[n..] == lines[1..][n - 1..] && lines[..n][0] == lines[0]
  {
  }

  lemma LineJoin(l: string, a: string, b: string)
    ensures l + (Crlf() + (a + b)) == l + (Crlf() + a) + b
  {
  }

  lemma {:induction false} BlockSplit(lines: seq<string>, n: nat)
    requires n <= |lines|
    ensures Block(lines) == Block(lines[..n]) + Block(lines[n..])
    decreases n
  {
    if n == 0 {
      assert lines[0..] == lines && lines[..0] == [];
    } else {
      BlockSplit(lines[1..], n - 1);
      FirstOfSlice(lines, n);
      LineJoin(lines[0], Block(lines[1..][..n - 1]), Block(lines[n..]));
    }
  }

  lemma BodySplit(items: seq<Item>, k: nat, n: nat, boundary: string)
    requires k < |items| && n <= |Lines(items[k].file)|
    ensures Serialized(items, boundary, true) == Before(items, k, n, boundary) + FromLine(items, k, n, boundary)
    ensures |Before(items, k, n, boundary)| >= |OpeningLine(boundary)|
  {
    hide Serialized, Entries, Lines, Block, ContentText;
    BodyIs(items, boundary);
    EntriesAre(items, k, boundary);
    BlockSplit(Lines(items[k].file), n);
    var b, r, z := Block(Lines(items[k].file)[..n]), Block(Lines(items[k].file)[n..]), Crlf() + ContentText(items, k, 0, boundary);
    assert Tail(items, k, boundary) == Crlf() + (b + r + z);
    Regrouped(Entries(items[..k], boundary), Dashes() + boundary, b, r, z);
  }

  lemma Regrouped(e: string, d: string, b: string, r: string, z: string)
    ensures e + (d + (Crlf() + (b + r + z))) == e + (d + Crlf()) + b + (r + z)
  {
    hide Crlf;
    var c := Crlf();
    assert e + (d + (c + (b + r + z))) == e + d + c + b + r + z;
    assert e + (d + c) + b + (r + z) == e + d + c + b + r + z;
  }

  lemma NextLine(items: seq<Item>, k: nat, n: nat, boundary: string)
    requires k < |items| && n < |Lines(items[k].file)|
    ensures var line := Lines(items[k].file)[n];
            FromLine(items, k, n, boundary) == line + (Crlf() + FromLine(items, k, n + 1, boundary))
  {
    hide Lines, ContentText;
    var lines, z := Lines(items[k].file), Crlf() + ContentText(items, k, 0, boundary);
    assert lines[n..][0] == lines[n] && lines[n..][1..] == lines[n + 1..];
    var b := Block(lines[n + 1..]);
    assert lines[n] + (Crlf() + b) + z == lines[n] + (Crlf() + (b + z));
  }

  lemma NoLineLeft(items: seq<Item>, k: nat, boundary: string)
    requires k < |items|
    ensures FromLine(items, k, |Lines(items[k].file)|, boundary) == Crlf() + ContentText(items, k, 0, boundary)
    ensures FromLine(items, k, 0, boundary) == EntryText(items, k, boundary)
  {
    hide Lines, ContentText;
    var lines := Lines(items[k].file);
    assert lines[|lines|..] == [] && lines[0..] == lines;
    assert [] + (Crlf() + ContentText(items, k, 0, boundary)) == Crlf() + ContentText(items, k, 0, boundary);
  }

  // ---------- lengths ----------

  lemma {:induction false} LineLengths(items: seq<Item>, k: nat, m: nat, n: nat, boundary: string)
    requires k < |items| && m <= n <= |Lines(items[k].file)|
    ensures |FromLine(items, k, m, boundary)| >= |FromLine(items, k, n, boundary)| > |ContentText(items, k, 0, boundary)|
    ensures m < n ==>
              |FromLine(items, k, m, boundary)| >= |Lines(items[k].file)[m]| + 2 + |FromLine(items, k, n, boundary)|
    decreases n - m
  {
    hide Lines, Block, ContentText;
    if m < n {
      NextLine(items, k, m, boundary);
      LineLengths(items, k, m + 1, n, boundary);
    }
  }

  lemma ContentLength(items: seq<Item>, k: nat, n: nat, boundary: string)
    requires k < |items| && n <= |items[k].content|
    ensures |ContentText(items, k, n, boundary)| == |items[k].content| - n + |Delimiter(boundary)| + |Tail(items, k + 1, boundary)|
  {
    hide Tail;
  }

  /** The rest of the body from an earlier boundary on is longer. */
  lemma {:induction false} TailLonger(items: seq<Item>, j: nat, k: nat, boundary: string)
    requires j <= k < |items|
    ensures |Tail(items, j, boundary)| >= 2 + |EntryText(items, k, boundary)|
    decreases k - j
  {
    hide EntryText, ContentText, Lines, Delimiter;
    if j < k {
      TailLonger(items, j + 1, k, boundary);
      NoLineLeft(items, j, boundary);
      LineLengths(items, j, 0, |Lines(items[j].file)|, boundary);
      ContentLength(items, j, 0, boundary);
    }
  }

  lemma {:induction false} TailShorter(items: seq<Item>, j: nat, k: nat, boundary: string)
    requires k < j <= |items|
    ensures |Tail(items, j, boundary)| < |ContentText(items, k, 0, boundary)|
    decreases |items| - k
  {
    hide EntryText, ContentText, Lines, Delimiter;
    ContentLength(items, k, 0, boundary);
    DelimiterLength(boundary);
    if k + 1 < j {
      TailShorter(items, j, k + 1, boundary);
      NoLineLeft(items, k + 1, boundary);
      LineLengths(items, k + 1, 0, |Lines(items[k + 1].file)|, boundary);
    }
  }

  lemma DelimiterLength(boundary: string)
    ensures |Delimiter(boundary)| == |boundary| + 4
  {
  }

  // ---------- where the parser stands behind a fragment that ends in front of a header line ----------

  /** It has consumed all of the fragment and is about to read the line. */
  lemma StandsAtLine(items: seq<Item>, boundary: string, q: Parser, j: nat, m: nat, k: nat, n: nat)
    requires ItemsOk(items, boundary) && k < |items| && n <= |Lines(items[k].file)|
    requires OnTheWay(items, boundary, q, j, m, FromLine(items, k, n, boundary)) && (q.rest == [] || Waits(boundary, q))
    ensures q.rest == [] && (q.phase.Entry? || q.phase.Headers?)
  {
    hide OnTheWay, Waits, Lines, ItemsOk;
    match q.phase
    case Boundary => NotAtBoundary(items, boundary, q, j, m, k, n);
    case Entry => EntryWaits(boundary, q);
    case Headers => AtHeaders(items, boundary, q, j, m, k, n);
    case Body => NotInBody(items, boundary, q, j, m, k, n);
    case Opening =>
      NeverOpening(items, boundary, q, j, m, FromLine(items, k, n, boundary));
      assert false;
  }

  lemma NotAtBoundary(items: seq<Item>, boundary: string, q: Parser, j: nat, m: nat, k: nat, n: nat)
    requires k < |items| && n <= |Lines(items[k].file)| && q.phase.Boundary?
    requires OnTheWay(items, boundary, q, j, m, FromLine(items, k, n, boundary))
    ensures !(q.rest == [] || Waits(boundary, q))
  {
    hide Lines, Tail, ContentText, EntryText, FromLine, Delivered, AfterLines;
    NoLineLeft(items, k, boundary);
    LineLengths(items, k, 0, n, boundary);
    if j <= k {
      TailLonger(items, j, k, boundary);
    } else {
      TailShorter(items, j, k, boundary);
      assert false;
    }
  }

  lemma EntryWaits(boundary: string, q: Parser)
    requires q.phase.Entry? && (q.rest == [] || Waits(boundary, q))
    ensures q.rest == []
  {
  }

  lemma AtHeaders(items: seq<Item>, boundary: string, q: Parser, j: nat, m: nat, k: nat, n: nat)
    requires ItemsOk(items, boundary) && k < |items| && n <= |Lines(items[k].file)| && q.phase.Headers?
    requires OnTheWay(items, boundary, q, j, m, FromLine(items, k, n, boundary)) && (q.rest == [] || Waits(boundary, q))
    ensures q.rest == []
  {
    hide Lines, Tail, ContentText, EntryText, FromLine, Delivered, AfterLines, ItemsOk, Find, Delimiter;
    InRange(items, boundary, q, j, m, FromLine(items, k, n, boundary));
    NextCrlf(items, boundary, q, j, m, FromLine(items, k, n, boundary));
    assert |q.rest| + |FromLine(items, k, n, boundary)| == |FromLine(items, j, m, boundary)| by {
      assert q.rest + FromLine(items, k, n, boundary) == FromLine(items, j, m, boundary) by {
        LinesAre(items, j, m, boundary);
      }
    }
    var last := |Lines(items[j].file)|;
    LineLengths(items, j, m, last, boundary);
    LineLengths(items, k, 0, n, boundary);
    NoLineLeft(items, k, boundary);
    if j < k {
      ContentLength(items, j, 0, boundary);
      TailLonger(items, j + 1, k, boundary);
    } else if j == k {
      if m < n {
        LineLengths(items, k, m, n, boundary);
      } else {
        LineLengths(items, k, n, m, boundary);
      }
    } else {
      EntryShorter(items, j, k, boundary);
      LineLengths(items, j, 0, m, boundary);
      assert false;
    }
  }

  lemma LinesAre(items: seq<Item>, j: nat, m: nat, boundary: string)
    requires j < |items| && m <= |Lines(items[j].file)|
    ensures FromLine(items, j, m, boundary) == Block(Lines(items[j].file)[m..]) + (Crlf() + ContentText(items, j, 0, boundary))
  {
  }

  /** The rest of the body from a later entry on is shorter. */
  lemma EntryShorter(items: seq<Item>, j: nat, k: nat, boundary: string)
    requires k < j < |items|
    ensures |FromLine(items, j, 0, boundary)| < |ContentText(items, k, 0, boundary)|
  {
    hide Lines, Tail, ContentText, EntryText, FromLine;
    NoLineLeft(items, j, boundary);
    TailShorter(items, j, k, boundary);
    TailLonger(items, j, j, boundary);
  }

  lemma NotInBody(items: seq<Item>, boundary: string, q: Parser, j: nat, m: nat, k: nat, n: nat)
    requires k < |items| && n <= |Lines(items[k].file)| && q.phase.Body?
    requires OnTheWay(items, boundary, q, j, m, FromLine(items, k, n, boundary))
    ensures !(q.rest == [] || Waits(boundary, q))
  {
    hide Lines, Tail, ContentText, EntryText, FromLine, Delivered, AfterLines, Delimiter;
    InContent(items, boundary, q, j, m, FromLine(items, k, n, boundary));
    ContentLength(items, j, m, boundary);
    ContentLength(items, j, 0, boundary);
    NoLineLeft(items, k, boundary);
    LineLengths(items, k, 0, n, boundary);
    if j < k {
      TailLonger(items, j + 1, k, boundary);
    } else {
      if j > k {
        EntryShorter(items, j, k, boundary);
        NoLineLeft(items, j, boundary);
        LineLengths(items, j, 0, |Lines(items[j].file)|, boundary);
      }
      assert false;
    }
  }

  // ---------- a long line is refused ----------

  /** Of a line of the limit and half its line end, no end is in sight. */
  lemma HalfLine(line: string)
    requires OneLine(line)
    ensures Find(line + "\r", Crlf()) == |line| + 1
  {
    hide Find, First;
    LineHasNoCrlf(line);
    FirstBehind(line, Crlf(), []);
    assert line + (Crlf() + []) == (line + "\r") + "\n";
    FindInPrefix(line + "\r", "\n", Crlf(), |line|);
  }

  lemma HalfLineRefused(boundary: string, accepts: Receiver, q: Parser, line: string)
    requires OneLine(line) && |line| >= HEADER_MAX_LENGTH
    requires q.rest == [] && (q.phase.Entry? || q.phase.Headers?)
    ensures !Parse(boundary, accepts, q, line + "\r").1
  {
    hide Find, FieldsStep;
    var p := q.(rest := q.rest + (line + "\r"));
    assert p.rest == line + "\r";
    if q.phase.Entry? {
      var r := p.(file := NoFile(), phase := Headers);
      assert StepOf(boundary, accepts, p) == Again(r);
      RefusedInHeaders(boundary, accepts, r, line);
    } else {
      RefusedInHeaders(boundary, accepts, p, line);
    }
  }

  lemma RefusedInHeaders(boundary: string, accepts: Receiver, p: Parser, line: string)
    requires OneLine(line) && |line| >= HEADER_MAX_LENGTH && p.phase.Headers? && p.rest == line + "\r"
    ensures !Loop(boundary, accepts, p).1
  {
    hide Find, FieldsStep;
    HalfLine(line);
    assert StepOf(boundary, accepts, p) == Return(p, false);
  }

  /** The same item with short header lines, n of them kept. */
  function Shortened(item: Item, n: nat): Item
  {
    Item(if n == 0 then NoFile() else item.file.(contentType := []), item.content)
  }

  lemma ShortenedOk(item: Item, n: nat, boundary: string)
    requires ItemOk(item, boundary) && n < |Lines(item.file)|
    requires forall j :: 0 <= j < n ==> |Lines(item.file)[j]| < HEADER_MAX_LENGTH
    ensures ItemOk(Shortened(item, n), boundary)
    ensures n <= |Lines(Shortened(item, n).file)| && Lines(Shortened(item, n).file)[..n] == Lines(item.file)[..n]
    ensures AllShort([Shortened(item, n)])
  {
    hide DispositionName, TypeName, FormDataTag, Absent;
    NamesShort();
  }

  lemma NamesShort()
    ensures |DispositionName()| == 20 && |FormDataTag()| == 10
  {
  }

  /** A body is refused if it is cut in front of the first line that is too long and between the CR and the LF behind it. */
  lemma LongLineRefused(items: seq<Item>, boundary: string, accepts: Receiver, k: nat, n: nat) returns (fragments: seq<string>)
    requires ItemsOk(items, boundary) && '\r' !in boundary && forall log :: accepts(log)
    requires k < |items| && n < |Lines(items[k].file)| && |Lines(items[k].file)[n]| >= HEADER_MAX_LENGTH
    requires AllShort(items[..k]) && forall j :: 0 <= j < n ==> |Lines(items[k].file)[j]| < HEADER_MAX_LENGTH
    ensures Cut(items, boundary, fragments) && !ParseAll(boundary, accepts, Start(), fragments).1
  {
    hide ItemsOk, AllShort, Lines, Serialized, Before, FromLine, Parse;
    var line := Lines(items[k].file)[n];
    var first, second, third := Before(items, k, n, boundary), line + "\r", "\n" + FromLine(items, k, n + 1, boundary);
    fragments := [first, second, third];
    CutThere(items, boundary, k, n);
    var q := ReachesLine(items, boundary, accepts, k, n);
    LineIsOne(items, boundary, k, n);
    HalfLineRefused(boundary, accepts, q, line);
    assert fragments[1..] == [second, third];
    assert !ParseAll(boundary, accepts, q, [second, third]).1;
  }

  lemma LineIsOne(items: seq<Item>, boundary: string, k: nat, n: nat)
    requires ItemsOk(items, boundary) && k < |items| && n < |Lines(items[k].file)|
    ensures OneLine(Lines(items[k].file)[n])
  {
    hide Lines, ItemOk;
    LinesGood(items[k], boundary);
  }

  lemma CutThere(items: seq<Item>, boundary: string, k: nat, n: nat)
    requires k < |items| && n < |Lines(items[k].file)|
    ensures Cut(items, boundary, [Before(items, k, n, boundary), Lines(items[k].file)[n] + "\r",
                                  "\n" + FromLine(items, k, n + 1, boundary)])
  {
    hide Serialized, Before, FromLine, Lines;
    BodySplit(items, k, n, boundary);
    NextLine(items, k, n, boundary);
    ThreeParts(Before(items, k, n, boundary), Lines(items[k].file)[n], FromLine(items, k, n + 1, boundary));
  }

  lemma ThreeParts(a: string, line: string, z: string)
    ensures Concat([a, line + "\r", "\n" + z]) == a + (line + (Crlf() + z))
  {
    var f := [a, line + "\r", "\n" + z];
    var g, h := [line + "\r", "\n" + z], ["\n" + z];
    assert f[1..] == g && g[1..] == h && h[1..] == [];
    assert Concat(h) == "\n" + z;
    assert Concat(g) == line + "\r" + ("\n" + z);
    assert Concat(f) == a + Concat(g);
    assert line + "\r" + ("\n" + z) == line + ("\r\n" + z);
  }

  /** The text in front of the line takes the parser to the line. */
  lemma ReachesLine(items: seq<Item>, boundary: string, accepts: Receiver, k: nat, n: nat) returns (q: Parser)
    requires ItemsOk(items, boundary) && '\r' !in boundary && forall log :: accepts(log)
    requires k < |items| && n < |Lines(items[k].file)|
    requires AllShort(items[..k]) && forall j :: 0 <= j < n ==> |Lines(items[k].file)[j]| < HEADER_MAX_LENGTH
    ensures Parse(boundary, accepts, Start(), Before(items, k, n, boundary)) == (q, true)
    ensures q.rest == [] && (q.phase.Entry? || q.phase.Headers?)
  {
    hide ItemOk, AllShort, Lines, Serialized, FromLine, Loop, OnTheWay, Finished, Waits;
    var others := items[..k] + [Shortened(items[k], n)];
    ShortenedOk(items[k], n, boundary);
    assert AllShort(others) by {
      ShortBoth(items[..k], Shortened(items[k], n));
    }
    assert others[..k] == items[..k] && others[k] == Shortened(items[k], n);
    var first, more := Before(others, k, n, boundary), FromLine(others, k, n, boundary);
    assert first == Before(items, k, n, boundary);
    BodySplit(others, k, n, boundary);
    var j, m := OpensThere(others, boundary, accepts, first, more);
    q := Parse(boundary, accepts, Start(), first).0;
    NotFinished(others, boundary, q, k, n);
    StandsAtLine(others, boundary, q, j, m, k, n);
  }

  lemma ShortBoth(items: seq<Item>, item: Item)
    requires AllShort(items) && AllShort([item])
    ensures AllShort(items + [item])
  {
    hide Lines;
    forall i, j | 0 <= i < |items + [item]| && 0 <= j < |Lines((items + [item])[i].file)|
      ensures |Lines((items + [item])[i].file)[j]| < HEADER_MAX_LENGTH
    {
      if i == |items| {
        assert [item][0] == item;
      }
    }
  }

  /** The first fragment, whatever it ends with. */
  lemma OpensThere(items: seq<Item>, boundary: string, accepts: Receiver, first: string, more: string) returns (j: nat, m: nat)
    requires items != [] && ItemsOk(items, boundary) && '\r' !in boundary && forall log :: accepts(log)
    requires |first| >= |OpeningLine(boundary)| && first + more == Serialized(items, boundary, true)
    requires AllShort(items) || (more == [] && FirstLinesFit(items))
    ensures var (q, ok) := Parse(boundary, accepts, Start(), first);
            ok && (Finished(items, q, more) || (OnTheWay(items, boundary, q, j, m, more) && (q.rest == [] || Waits(boundary, q)))) &&
            (more == [] ==> Finished(items, q, more))
  {
    hide OnTheWay, Finished, ItemsOk, Serialized, StepOf, OpeningStep, AllShort, FirstLinesFit, Waits;
    OpeningGood(items, boundary, accepts, first, more);
    var p := Start().(rest := first);
    var s := OpeningStep(boundary, p);
    assert Start().rest + first == first;
    OpeningFirst(boundary, accepts, p);
    StepShrinks(boundary, accepts, p);
    OpensEntry(boundary, p);
    j, m := LoopGood(items, boundary, accepts, s.p, 0, 0, more);
  }

  lemma OpensEntry(boundary: string, p: Parser)
    ensures OpeningStep(boundary, p).Again? ==> OpeningStep(boundary, p).p.phase.Entry?
  {
  }

  lemma NotFinished(items: seq<Item>, boundary: string, q: Parser, k: nat, n: nat)
    requires k < |items| && n <= |Lines(items[k].file)|
    ensures !Finished(items, q, FromLine(items, k, n, boundary))
  {
    hide Lines, ContentText, FromLine, Delivered;
    LineLengths(items, k, n, n, boundary);
    ContentLong(items, k, 0, boundary);
    var more := FromLine(items, k, n, boundary);
    assert forall i :: 0 <= i <= 2 ==> |Crlf()[i..]| <= 2;
    assert |q.rest + more| > 2;
  }

  /** The first line that is too long. */
  lemma {:induction false} FirstLong(items: seq<Item>) returns (k: nat, n: nat)
    requires !AllShort(items)
    ensures k < |items| && n < |Lines(items[k].file)| && |Lines(items[k].file)[n]| >= HEADER_MAX_LENGTH
    ensures AllShort(items[..k]) && forall j :: 0 <= j < n ==> |Lines(items[k].file)[j]| < HEADER_MAX_LENGTH
    decreases |items|
  {
    hide Lines;
    var last := |items| - 1;
    if AllShort(items[..last]) {
      k := last;
      n := 0;
      while n < |Lines(items[k].file)| && |Lines(items[k].file)[n]| < HEADER_MAX_LENGTH
        invariant n <= |Lines(items[k].file)|
        invariant forall j :: 0 <= j < n ==> |Lines(items[k].file)[j]| < HEADER_MAX_LENGTH
      {
        n := n + 1;
      }
    } else {
      k, n := FirstLong(items[..last]);
      assert items[..last][..k] == items[..k];
    }
  }

  /** The items are delivered under every cut that leaves the opening line whole if and only if every printed header line is
      shorter than the limit. */
  lemma EveryCut(items: seq<Item>, boundary: string, accepts: Receiver)
    requires items != [] && ItemsOk(items, boundary) && '\r' !in boundary && forall log :: accepts(log)
    ensures (forall fragments :: Cut(items, boundary, fragments) ==> Succeeds(items, boundary, accepts, fragments))
            <==> AllShort(items)
  {
    hide ItemsOk, AllShort, Cut, Lines;
    if AllShort(items) {
      forall fragments | Cut(items, boundary, fragments)
        ensures Succeeds(items, boundary, accepts, fragments)
      {
        MultipartRoundTrip.MultipartRoundTrip(items, boundary, accepts, fragments);
      }
    } else {
      var k, n := FirstLong(items);
      var fragments := LongLineRefused(items, boundary, accepts, k, n);
      assert !Succeeds(items, boundary, accepts, fragments);
    }
  }

  // ---------- the body in one piece ----------

  /** Some entry with a long first line is still to come. */
  predicate InFront(p: Parser, j: nat, n: nat, k: nat)
  {
    j <= k && (j == k ==> !p.phase.Body?) && (p.phase.Headers? ==> n == 0)
  }

  lemma {:induction false} LoopRefuses(items: seq<Item>, boundary: string, accepts: Receiver, p: Parser, j: nat, n: nat, k: nat)
    requires ItemsOk(items, boundary) && '\r' !in boundary && forall log :: accepts(log)
    requires k < |items| && |DispositionLine(items[k].file)| > HEADER_MAX_LENGTH && FirstLinesFit(items[..k])
    requires OnTheWay(items, boundary, p, j, n, []) && InFront(p, j, n, k)
    ensures !Loop(boundary, accepts, p).1
    decreases Left(p).0, Left(p).1
  {
    hide OnTheWay, ItemsOk, StepOf, FirstLinesFit, DispositionLine, TypeLine;
    Nonempty(items, boundary, p, j, n, []);
    assert p.rest + [] == p.rest;
    if p.phase.Headers? && j == k {
      FirstTooLong(items, boundary, accepts, p, k);
    } else {
      FirstFits(items, p, j, n, k);
      var a, b := StepGood(items, boundary, accepts, p, j, n, []);
      StepShrinks(boundary, accepts, p);
      LoopRefuses(items, boundary, accepts, StepOf(boundary, accepts, p).p, a, b, k);
    }
  }

  lemma FirstTooLong(items: seq<Item>, boundary: string, accepts: Receiver, p: Parser, k: nat)
    requires ItemsOk(items, boundary) && k < |items| && |DispositionLine(items[k].file)| > HEADER_MAX_LENGTH
    requires OnTheWay(items, boundary, p, k, 0, []) && p.phase.Headers?
    ensures StepOf(boundary, accepts, p) == Return(p, false)
  {
    hide OnTheWay, ItemsOk, Find, FieldsStep, DispositionLine, TypeLine;
    NextCrlf(items, boundary, p, k, 0, []);
    assert p.rest + [] == p.rest;
  }

  lemma FirstFits(items: seq<Item>, p: Parser, j: nat, n: nat, k: nat)
    requires k < |items| && FirstLinesFit(items[..k]) && InFront(p, j, n, k) && !(p.phase.Headers? && j == k)
    ensures RoomAt(items, p, j, n, [])
  {
    hide DispositionLine, TypeLine;
    if p.phase.Headers? {
      assert items[..k][j] == items[j];
    }
  }

  lemma {:induction false} FirstUnfit(items: seq<Item>) returns (k: nat)
    requires !FirstLinesFit(items)
    ensures k < |items| && |DispositionLine(items[k].file)| > HEADER_MAX_LENGTH && FirstLinesFit(items[..k])
    decreases |items|
  {
    hide DispositionLine;
    var last := |items| - 1;
    if FirstLinesFit(items[..last]) {
      k := last;
      assert forall i :: 0 <= i < last ==> items[..last][i] == items[i];
    } else {
      k := FirstUnfit(items[..last]);
      assert items[..last][..k] == items[..k];
    }
  }

  lemma OneFragment(body: string)
    ensures Concat([body]) == body && [body][1..] == [] && body + [] == body
  {
    assert Concat([]) == [];
  }

  /** In one piece the body is accepted, and all items delivered, if and only if no disposition line is longer than the limit:
      only the first line of each entry is measured, and one of exactly the limit passes. */
  lemma OnePiece(items: seq<Item>, boundary: string, accepts: Receiver)
    requires items != [] && ItemsOk(items, boundary) && '\r' !in boundary && forall log :: accepts(log)
    ensures Succeeds(items, boundary, accepts, [Serialized(items, boundary, true)]) <==> FirstLinesFit(items)
  {
    hide ItemsOk, FirstLinesFit, Serialized, OnTheWay, Finished, Parse, Waits, Delivered;
    var body := Serialized(items, boundary, true);
    OneFragment(body);
    LongEnough(items, boundary);
    if FirstLinesFit(items) {
      var _, _ := OpensThere(items, boundary, accepts, body, []);
      var q := Parse(boundary, accepts, Start(), body).0;
      FinishedMeans(items, q, []);
      assert ParseAll(boundary, accepts, q, []) == (q, true);
      assert ParseAll(boundary, accepts, Start(), [body]) == (q, true);
    } else {
      var k := FirstUnfit(items);
      Refused(items, boundary, accepts, k);
    }
  }

  lemma LongEnough(items: seq<Item>, boundary: string)
    requires items != []
    ensures |Serialized(items, boundary, true)| >= |OpeningLine(boundary)|
  {
    hide Serialized, OpeningLine;
    BodySplit(items, 0, 0, boundary);
  }

  lemma Refused(items: seq<Item>, boundary: string, accepts: Receiver, k: nat)
    requires ItemsOk(items, boundary) && '\r' !in boundary && forall log :: accepts(log)
    requires k < |items| && |DispositionLine(items[k].file)| > HEADER_MAX_LENGTH && FirstLinesFit(items[..k])
    ensures !Parse(boundary, accepts, Start(), Serialized(items, boundary, true)).1
  {
    hide ItemsOk, FirstLinesFit, Serialized, OnTheWay, StepOf, OpeningStep, DispositionLine;
    var body := Serialized(items, boundary, true);
    OneFragment(body);
    LongEnough(items, boundary);
    OpeningGood(items, boundary, accepts, body, []);
    var p := Start().(rest := body);
    assert Start().rest + body == body;
    OpeningFirst(boundary, accepts, p);
    OpensEntry(boundary, p);
    StepShrinks(boundary, accepts, p);
    LoopRefuses(items, boundary, accepts, OpeningStep(boundary, p).p, 0, 0, k);
  }
}
