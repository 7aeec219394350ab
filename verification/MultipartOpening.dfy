/** An opening line that breaks off at the end of the first fragment: the items are never delivered. */
module MultipartOpening {
  import opened HttpText
  import opened MultipartForm
  import opened MultipartWriter
  import opened MultipartRoundTrip
  import opened MultipartLimits

  /** The characters a client may choose for a boundary. */
  predicate BoundaryChars(boundary: string)
  {
    forall c :: c in boundary ==> 'a' <= c <= 'z' || 'A' <= c <= 'Z' || '0' <= c <= '9' || c == '-' || c == '_'
  }

  // ---------- ends of a text ----------

  predicate Ends(x: string, s: string)
  {
    |x| <= |s| && s[|s| - |x|..] == x
  }

  /** Of two ends of a text the shorter is an end of the longer. */
  lemma EndsBoth(x: string, y: string, s: string)
    requires Ends(x, s) && Ends(y, s) && |x| <= |y|
    ensures Ends(x, y)
  {
    assert s[|s| - |y|..][|y| - |x|..] == s[|s| - |x|..];
  }

  lemma EndsOfSum(x: string, a: string, b: string)
    requires Ends(x, a + b)
    ensures |x| <= |b| ==> Ends(x, b)
    ensures |x| > |b| ==> x == a[|a| + |b| - |x|..] + b
  {
    assert Ends(b, a + b);
    if |x| <= |b| {
      EndsBoth(x, b, a + b);
    }
  }

  lemma EndsDrop(x: string, s: string, n: nat)
    requires Ends(x, s) && n <= |x|
    ensures Ends(x[n..], s)
  {
    assert s[|s| - |x|..][n..] == s[|s| - |x[n..]|..];
  }

  // ---------- where a delimiter stands ----------

  /** A line end, header lines, the empty line, and what follows. */
  function Heading(lines: seq<string>, z: string): string
  {
    Crlf() + (Block(lines) + (Crlf() + z))
  }

  /** Header lines as they are printed: one line each, not starting with a dash. */
  predicate Plain(lines: seq<string>)
  {
    forall i :: 0 <= i < |lines| ==> lines[i] != [] && lines[i][0] != '-' && '\r' !in lines[i]
  }

  lemma HeadingNext(lines: seq<string>, z: string)
    requires lines != []
    ensures Heading(lines, z) == (Crlf() + lines[0]) + Heading(lines[1..], z)
  {
    var l, b, e := lines[0], Block(lines[1..]), Crlf() + z;
    assert l + (Crlf() + b) + e == l + (Crlf() + (b + e));
  }

  lemma HeadingLast(z: string)
    ensures Heading([], z) == "\r\n\r\n" + z
  {
  }

  /** In header lines no delimiter starts, unless it is at the empty line, with the content. */
  lemma {:induction false} DelimiterInHeading(boundary: string, lines: seq<string>, z: string, x: string)
    requires Plain(lines) && Ends(x, Heading(lines, z)) && Delimiter(boundary) <= x
    ensures |x| <= |z| + 2
    decreases |lines|
  {
    hide Heading, Delimiter;
    DelimiterShape(boundary, x);
    if lines == [] {
      HeadingLast(z);
      EndsOfSum(x, "\r\n\r\n", z);
      if |x| > |z| + 2 {
        NotInEnds(x, z);
        assert false;
      }
    } else {
      HeadingNext(lines, z);
      var a, h := Crlf() + lines[0], Heading(lines[1..], z);
      EndsOfSum(x, a, h);
      if |x| <= |h| {
        DelimiterInHeading(boundary, lines[1..], z, x);
      } else {
        NotInLine(x, lines[0], h);
        assert false;
      }
    }
  }

  lemma DelimiterShape(boundary: string, x: string)
    requires Delimiter(boundary) <= x
    ensures |x| > 2 && x[0] == '\r' && x[2] == '-'
  {
    assert Delimiter(boundary)[0] == '\r' && Delimiter(boundary)[2] == '-';
  }

  /** The empty line holds no dash. */
  lemma NotInEnds(x: string, z: string)
    requires |z| + 2 < |x| <= |z| + 4 && x == "\r\n\r\n"[4 + |z| - |x|..] + z
    ensures x[0] == '\r' ==> x[2] != '-'
  {
    var e := "\r\n\r\n";
    assert |x| == |z| + 4 ==> x[2] == e[2];
    assert |x| == |z| + 3 ==> x[0] == e[1];
  }

  /** Nor does a header line, where one could start a delimiter. */
  lemma NotInLine(x: string, line: string, h: string)
    requires line != [] && line[0] != '-' && '\r' !in line && |h| < |x| <= |line| + 2 + |h|
    requires x == (Crlf() + line)[|line| + 2 + |h| - |x|..] + h && |x| > 2
    ensures x[0] == '\r' ==> x[2] != '-'
  {
    var a, k := Crlf() + line, |line| + 2 + |h| - |x|;
    assert x[0] == a[k] && a[2] == line[0];
    assert k == 0 ==> x[2] == a[2];
    if k > 0 {
      LineInside(line, k);
    }
  }

  lemma LineInside(line: string, k: nat)
    requires 0 < k < |line| + 2 && '\r' !in line
    ensures (Crlf() + line)[k] != '\r'
  {
    assert k >= 2 ==> (Crlf() + line)[k] == line[k - 2];
  }

  /** The lines of an item are plain. */
  lemma LinesPlain(item: Item, boundary: string)
    requires ItemOk(item, boundary)
    ensures Plain(Lines(item.file))
  {
    hide ItemOk, Names;
    LinesGood(item, boundary);
    assert DispositionLine(item.file)[0] == 'C' && TypeLine(item.file)[0] == 'C';
  }

  lemma TailIsHeading(items: seq<Item>, k: nat, boundary: string)
    requires k < |items|
    ensures Tail(items, k, boundary) == Heading(Lines(items[k].file), ContentText(items, k, 0, boundary))
  {
    hide Lines, ContentText;
    assert EntryText(items, k, boundary) == Block(Lines(items[k].file)) + (Crlf() + ContentText(items, k, 0, boundary));
  }

  /** Behind the content of entry i: the next delimiter ends the content of a later entry, or starts at its empty line. */
  lemma DelimiterBehind(items: seq<Item>, boundary: string, i: nat, x: string)
    requires ItemsOk(items, boundary) && '\r' !in boundary && i < |items|
    requires Ends(x, Delimiter(boundary) + Tail(items, i + 1, boundary)) && Delimiter(boundary) <= x
    requires |x| < |Delimiter(boundary)| + |Tail(items, i + 1, boundary)|
    ensures i + 1 < |items| && |x| <= |ContentText(items, i + 1, 0, boundary)| + 2
  {
    hide Delimiter, Tail, ContentText, ItemOk, Heading, Lines;
    var d, t := Delimiter(boundary), Tail(items, i + 1, boundary);
    DelimiterStart(boundary);
    DelimiterLength(boundary);
    assert x[0] == d[0];
    assert d[0] == '\r' by {
      FirstChar(boundary);
    }
    EndsOfSum(x, d, t);
    if i + 1 == |items| {
      assert t == "--\r\n" by {
        LastTail(items, boundary);
      }
      assert false;
    } else {
      TailIsHeading(items, i + 1, boundary);
      LinesPlain(items[i + 1], boundary);
      DelimiterInHeading(boundary, Lines(items[i + 1].file), ContentText(items, i + 1, 0, boundary), x);
    }
  }

  lemma FirstChar(boundary: string)
    ensures Delimiter(boundary)[0] == '\r'
  {
  }

  lemma LastTail(items: seq<Item>, boundary: string)
    ensures Tail(items, |items|, boundary) == "--\r\n"
  {
  }

  // ---------- where an opening line stands ----------

  /** In header lines an opening line starts only if a line ends with the boundary. */
  lemma {:induction false} OpeningInHeading(boundary: string, lines: seq<string>, z: string, x: string) returns (i: nat)
    requires Plain(lines) && '\r' !in boundary && Ends(x, Heading(lines, z)) && OpeningLine(boundary) <= x
    ensures |x| <= |z| || (i < |lines| && Ends(Dashes() + boundary, lines[i]) &&
                           x == Dashes() + boundary + Heading(lines[i + 1..], z))
    decreases |lines|
  {
    hide Heading, OpeningLine, Plain, Ends;
    i := 0;
    if lines == [] {
      OpeningInEnds(boundary, z, x);
    } else {
      PlainFirst(lines);
      HeadingNext(lines, z);
      if |x| <= |Heading(lines[1..], z)| {
        EndsOfSum(x, Crlf() + lines[0], Heading(lines[1..], z));
        i := OpeningInHeading(boundary, lines[1..], z, x);
        i := i + 1;
        assert |x| > |z| ==> lines[1..][i - 1] == lines[i] && lines[1..][i..] == lines[i + 1..];
      } else {
        HeadingStart(lines[1..], z);
        OpeningInLine(boundary, lines[0], Heading(lines[1..], z), x);
      }
    }
  }

  lemma OpeningInEnds(boundary: string, z: string, x: string)
    requires Ends(x, Heading([], z)) && OpeningLine(boundary) <= x
    ensures |x| <= |z|
  {
    hide OpeningLine, Heading;
    OpeningShape(boundary, x);
    HeadingLast(z);
    var s := "\r\n\r\n" + z;
    assert x[0] == s[|s| - |x|];
  }

  lemma OpeningInLine(boundary: string, line: string, h: string, x: string)
    requires '\r' !in line && '\r' !in boundary && h != [] && h[0] == '\r' && |h| < |x|
    requires Ends(x, (Crlf() + line) + h) && OpeningLine(boundary) <= x
    ensures Ends(Dashes() + boundary, line) && x == Dashes() + boundary + h
  {
    hide OpeningLine;
    OpeningShape(boundary, x);
    var a, o := Crlf() + line, |line| + 2 + |h| - |x|;
    EndsOfSum(x, a, h);
    assert x[0] == a[o];
    LineBehind(line, o);
    LineCut(Dashes() + boundary, line[o - 2..], h, x);
  }

  lemma OpeningShape(boundary: string, x: string)
    requires OpeningLine(boundary) <= x
    ensures var b := Dashes() + boundary; |x| > |b| && x[0] == '-' && x[|b|] == '\r' && x[..|b|] == b
  {
    var b, o := Dashes() + boundary, OpeningLine(boundary);
    assert o[..|b|] == b && o[0] == '-' && o[|b|] == '\r';
  }

  lemma PlainFirst(lines: seq<string>)
    requires lines != [] && Plain(lines)
    ensures Plain(lines[1..]) && lines[0] != [] && '\r' !in lines[0]
  {
  }

  /** A dash behind a line end stands inside the line. */
  lemma LineBehind(line: string, o: nat)
    requires o < |line| + 2 && (Crlf() + line)[o] == '-'
    ensures o >= 2 && (Crlf() + line)[o..] == line[o - 2..]
  {
  }

  /** A line whose end is the first CR of a text. */
  lemma LineCut(b: string, l: string, h: string, x: string)
    requires x == l + h && '\r' !in l && '\r' !in b && |x| > |b| && x[..|b|] == b && x[|b|] == '\r' && h != [] && h[0] == '\r'
    ensures l == b
  {
    assert x[|l|] == h[0];
  }

  /** The last character of a disposition line is a quote. */
  lemma DispositionEnds(file: File, boundary: string)
    requires BoundaryChars(boundary)
    ensures !Ends(Dashes() + boundary, DispositionLine(file))
  {
    hide NameParam, DispositionName, FormDataTag;
    var n := Names(file);
    var front := DispositionName() + (" " + (FormDataTag() + " "));
    assert DispositionLine(file) == front + n;
    QuoteLast(file);
    var l, b := DispositionLine(file), Dashes() + boundary;
    assert l[|l| - 1] == '"';
    assert '"' !in b && b[|b| - 1] in b;
  }

  lemma QuoteLast(file: File)
    ensures Names(file) != [] && Names(file)[|Names(file)| - 1] == '"'
  {
    assert NameParam(file.name) == "name=\"" + file.name + ['"'];
    assert FilenameParam(file.filename) == "filename=\"" + file.filename + ['"'];
    if file.filename != [] {
      assert Names(file) == NameParam(file.name) + "; " + FilenameParam(file.filename);
    }
  }

  /** Behind its start the body holds an opening line only in or behind the first content, or at the end of the first type
      line. */
  lemma OpeningInside(items: seq<Item>, boundary: string, x: string)
    requires items != [] && ItemsOk(items, boundary) && BoundaryChars(boundary)
    requires Ends(x, Serialized(items, boundary, true)) && |x| < |Serialized(items, boundary, true)| && OpeningLine(boundary) <= x
    ensures var z := ContentText(items, 0, 0, boundary);
            |x| <= |z| || (items[0].file.contentType != [] && x == OpeningLine(boundary) + (Crlf() + z))
  {
    hide Serialized, Tail, ContentText, ItemOk, Heading, DispositionLine, TypeLine;
    var b, z := Dashes() + boundary, ContentText(items, 0, 0, boundary);
    assert '\r' !in boundary && '\r' !in b;
    BodyIs(items, boundary);
    TailIsHeading(items, 0, boundary);
    LinesPlain(items[0], boundary);
    var lines := Lines(items[0].file);
    var h := Heading(lines, z);
    EndsOfSum(x, b, h);
    assert h != [] && h[0] == '\r' by {
      HeadingStart(lines, z);
    }
    assert x[|b|] == '\r' && x[..|b|] == b by {
      assert OpeningLine(boundary)[..|b|] == b && OpeningLine(boundary)[|b|] == '\r';
    }
    if |x| > |h| {
      LineCut(b, b[|b| + |h| - |x|..], h, x);
      assert false;
    }
    var i := OpeningInHeading(boundary, lines, z, x);
    if |x| > |z| {
      DispositionEnds(items[0].file, boundary);
      assert i == 1 && lines[2..] == [];
      HeadingLast(z);
      assert b + ("\r\n\r\n" + z) == OpeningLine(boundary) + (Crlf() + z);
    }
  }

  lemma HeadingStart(lines: seq<string>, z: string)
    ensures Heading(lines, z) != [] && Heading(lines, z)[0] == '\r'
  {
  }

  // ---------- the parser is ahead of the body ----------

  /** What is delivered so far, while the content of the last item may still grow or is complete, can become the items. */
  ghost predicate Matching(items: seq<Item>, d: seq<Item>, open: bool)
  {
    |d| <= |items| && (forall i :: 0 <= i < |d| - 1 ==> d[i] == items[i]) &&
    (d != [] ==>
      var t := |d| - 1;
      d[t].file == items[t].file && if open then d[t].content <= items[t].content else d[t].content == items[t].content)
  }

  /** In front of the rest of the body stands a line feed. */
  predicate AfterLf(body: string, left: string)
  {
    |left| < |body| && body[|body| - |left| - 1] == '\n'
  }

  /** The last content, of which n bytes are delivered: not all of it, for the closing boundary is still to come, or it ends
      with a line feed that is not among those bytes. */
  predicate LastPart(item: Item, boundary: string, text: string, left: string)
  {
    |left| >= |boundary| + 8 ||
    (|left| + |text| == |boundary| + 6 && '\n' !in text && item.content != [] && item.content[|item.content| - 1] == '\n')
  }

  /** The type line was taken for part of an opening line. */
  predicate TypeLost(items: seq<Item>, boundary: string, p: Parser, left: string)
    requires items != []
  {
    p.log == [] && (p.phase.Entry? || (p.phase.Headers? && p.file == NoFile())) && items[0].file.contentType != [] &&
    left == Crlf() + ContentText(items, 0, 0, boundary)
  }

  /** With d delivered the parser is further in the body than it should be. */
  ghost predicate Ahead(items: seq<Item>, boundary: string, p: Parser, d: seq<Item>, left: string)
    requires items != []
  {
    match p.phase
    case Opening => false
    case Body =>
      0 < |d| <= |items| &&
      var t := |d| - 1;
      |left| + |d[t].content| < |ContentText(items, t, 0, boundary)| &&
      (t == |items| - 1 ==> LastPart(items[t], boundary, d[t].content, left))
    case _ =>
      |d| < |items| && (|left| < |ContentText(items, |d|, 0, boundary)| || TypeLost(items, boundary, p, left))
  }

  ghost predicate Astray(items: seq<Item>, boundary: string, p: Parser, more: string)
    requires items != []
  {
    Ends(p.rest + more, Serialized(items, boundary, true)) && !p.phase.Opening? &&
    (p.phase.Entry? || p.phase.Headers? ==> AfterLf(Serialized(items, boundary, true), p.rest + more)) &&
    (Matching(items, Delivered(p.log), p.phase.Body?) ==> Ahead(items, boundary, p, Delivered(p.log), p.rest + more))
  }

  /** A parser that is ahead has not delivered the items. */
  lemma AstrayDiffers(items: seq<Item>, boundary: string, p: Parser, more: string)
    requires items != [] && Astray(items, boundary, p, more)
    ensures Delivered(p.log) != items
  {
    hide ContentText, Serialized, Delivered;
    if Delivered(p.log) == items {
      var t := |items| - 1;
      assert Matching(items, items, p.phase.Body?);
      assert p.phase.Body?;
      LastLength(items, boundary);
    }
  }

  lemma LastLength(items: seq<Item>, boundary: string)
    requires items != []
    ensures |ContentText(items, |items| - 1, 0, boundary)| == |items[|items| - 1].content| + |boundary| + 8
  {
    hide Tail, Delimiter;
    ContentLength(items, |items| - 1, 0, boundary);
    DelimiterLength(boundary);
    LastTail(items, boundary);
  }

  // ---------- steps ----------

  lemma EntryAstray(items: seq<Item>, boundary: string, p: Parser, more: string)
    requires items != [] && Astray(items, boundary, p, more) && p.phase.Entry?
    ensures Astray(items, boundary, p.(file := NoFile(), phase := Headers), more)
  {
    hide ContentText, Serialized, Delivered, AfterLf;
  }

  /** The body ends with the closing boundary. */
  lemma BodyEnds(items: seq<Item>, boundary: string, k: nat)
    requires k < |items|
    ensures Ends(ContentText(items, k, 0, boundary), Serialized(items, boundary, true))
    ensures Ends(Delimiter(boundary) + Tail(items, k + 1, boundary), ContentText(items, k, 0, boundary))
    ensures Ends(Delimiter(boundary) + Tail(items, k + 1, boundary), Serialized(items, boundary, true))
  {
    hide Serialized, Tail, Delimiter, Before, Block, Lines;
    BodySplit(items, k, |Lines(items[k].file)|, boundary);
    NoLineLeft(items, k, boundary);
    var b, c := Before(items, k, |Lines(items[k].file)|, boundary), ContentText(items, k, 0, boundary);
    assert b + (Crlf() + c) == b + Crlf() + c;
    var d := Delimiter(boundary) + Tail(items, k + 1, boundary);
    assert c == items[k].content + d;
    assert b + Crlf() + (items[k].content + d) == b + Crlf() + items[k].content + d;
  }

  /** A line end taken off in front. */
  lemma LineTaken(body: string, rest: string, more: string, pos: nat)
    requires Ends(rest + more, body) && pos + 2 <= |rest| && At(rest, pos, Crlf())
    ensures Ends(rest[pos + 2..] + more, body) && AfterLf(body, rest[pos + 2..] + more)
  {
    var left := rest + more;
    assert rest[pos + 2..] + more == left[pos + 2..];
    EndsDrop(left, body, pos + 2);
    assert rest[pos..][1] == '\n';
    assert left[pos + 1] == rest[pos + 1] == rest[pos..][1];
    assert body[|body| - |left|..][pos + 1] == body[|body| - |left| + pos + 1];
  }

  /** One more content text, or the first, was there to match. */
  lemma MatchingBefore(items: seq<Item>, log: seq<Event>, e: Event, open: bool)
    requires Matching(items, Delivered(log + [e]), open) && (e.Content? ==> Delivered(log) != []) && (e.Header? ==> open)
    ensures Matching(items, Delivered(log), e.Content?)
  {
    hide Delivered, Matching;
    var d := Delivered(log);
    if e.Header? {
      DeliveredHeader(log, e.file);
      MatchingStart(items, d, Item(e.file, []), open);
    } else {
      var t := |d| - 1;
      assert d == d[..t] + [d[t]];
      DeliveredContent(log, d[..t], d[t], e.text);
      MatchingLess(items, d, e.text, open);
    }
  }

  lemma MatchingStart(items: seq<Item>, d: seq<Item>, next: Item, open: bool)
    requires Matching(items, d + [next], open) && open
    ensures Matching(items, d, false)
  {
    assert forall i :: 0 <= i < |d| ==> (d + [next])[i] == d[i];
  }

  lemma MatchingLess(items: seq<Item>, d: seq<Item>, text: string, open: bool)
    requires d != [] && var t := |d| - 1; Matching(items, d[..t] + [Item(d[t].file, d[t].content + text)], open)
    ensures Matching(items, d, true)
  {
    var t := |d| - 1;
    var n := d[..t] + [Item(d[t].file, d[t].content + text)];
    assert forall i :: 0 <= i < t ==> n[i] == d[i];
    assert n[t].content == d[t].content + text && n[t].file == d[t].file;
  }

  // the header

  lemma NoFieldIfLost(items: seq<Item>, boundary: string, p: Parser, more: string)
    requires items != [] && TypeLost(items, boundary, p, p.rest + more)
    ensures Find(p.rest, Crlf()) == if |p.rest| >= 2 then 0 else |p.rest|
  {
    hide ContentText;
    if |p.rest| >= 2 {
      assert (p.rest + more)[..2] == p.rest[..2];
      assert p.rest[0..] == p.rest;
      FindUnique(p.rest, Crlf(), 0);
    } else {
      NothingFound(p.rest, Crlf());
    }
  }

  lemma Hit(s: string, pattern: string)
    ensures Find(s, pattern) < |s| ==> At(s, Find(s, pattern), pattern) && Find(s, pattern) + |pattern| <= |s|
  {
  }

  lemma FieldAstray(items: seq<Item>, boundary: string, p: Parser, more: string, pos: nat)
    requires items != [] && Astray(items, boundary, p, more) && p.phase.Headers?
    requires pos == Find(p.rest, Crlf()) && 0 < pos && pos + 2 <= |p.rest|
    ensures Astray(items, boundary, TakeField(p, pos).0, more) && TakeField(p, pos).0.phase.Headers?
  {
    hide ContentText, Serialized, Delivered, HeaderField, Find, AfterLf;
    Hit(p.rest, Crlf());
    var q := TakeField(p, pos).0;
    LineTaken(Serialized(items, boundary, true), p.rest, more, pos);
    if TypeLost(items, boundary, p, p.rest + more) {
      NoFieldIfLost(items, boundary, p, more);
    }
  }

  /** The empty line. */
  lemma EntryDoneAstray(items: seq<Item>, boundary: string, accepts: Receiver, p: Parser, more: string)
    requires items != [] && ItemsOk(items, boundary) && '\r' !in boundary && forall log :: accepts(log)
    requires Astray(items, boundary, p, more) && p.phase.Headers? && |p.rest| >= 2 && Crlf() <= p.rest
    ensures Astray(items, boundary, EntryDone(accepts, p).p, more)
  {
    hide ContentText, Serialized, Delivered, ItemsOk, Ahead, LastPart;
    var q := EntryDone(accepts, p).p;
    assert p.rest[0..] == p.rest;
    LineTaken(Serialized(items, boundary, true), p.rest, more, 0);
    if Matching(items, Delivered(q.log), true) {
      MatchingBefore(items, p.log, Header(p.file), true);
      DeliveredHeader(p.log, p.file);
      EntryDoneAhead(items, boundary, accepts, p, more);
    }
  }

  lemma EntryDoneAhead(items: seq<Item>, boundary: string, accepts: Receiver, p: Parser, more: string)
    requires items != [] && ItemsOk(items, boundary) && '\r' !in boundary && forall log :: accepts(log)
    requires Astray(items, boundary, p, more) && p.phase.Headers? && |p.rest| >= 2 && Crlf() <= p.rest
    requires Ahead(items, boundary, p, Delivered(p.log), p.rest + more)
    requires Matching(items, Delivered(p.log) + [Item(p.file, [])], true)
    ensures Ahead(items, boundary, EntryDone(accepts, p).p, Delivered(p.log) + [Item(p.file, [])], p.rest[2..] + more)
  {
    hide ContentText, Serialized, Delivered, ItemsOk, LastPart;
    var d, t := Delivered(p.log), |Delivered(p.log)|;
    assert (d + [Item(p.file, [])])[t] == Item(p.file, []);
    if TypeLost(items, boundary, p, p.rest + more) {
      NothingDelivered();
      assert false;
    }
    if t == |items| - 1 {
      LastStarts(items, boundary, p, more);
    }
  }

  lemma NothingDelivered()
    ensures Delivered([]) == []
  {
  }

  /** Before the last content: the empty line is not behind it, and may be its own line end only behind a line feed. */
  lemma LastStarts(items: seq<Item>, boundary: string, p: Parser, more: string)
    requires items != [] && '\r' !in boundary && |p.rest| >= 2 && Crlf() <= p.rest
    requires var body := Serialized(items, boundary, true); Ends(p.rest + more, body) && AfterLf(body, p.rest + more)
    requires |p.rest + more| < |ContentText(items, |items| - 1, 0, boundary)|
    ensures LastPart(items[|items| - 1], boundary, [], p.rest[2..] + more)
  {
    hide ContentText, Serialized, Delimiter, Tail;
    var body, left, k := Serialized(items, boundary, true), p.rest + more, |items| - 1;
    assert left[0] == '\r' && left[1] == '\n';
    LastLength(items, boundary);
    BodyEnds(items, boundary, k);
    var c := ContentText(items, k, 0, boundary);
    LastContentIs(items, boundary);
    EndsBoth(left, c, body);
    var o := |c| - |left|;
    assert c[o - 1] == '\n' by {
      assert body[|body| - |c|..] == c;
      assert body[|body| - |left| - 1] == c[o - 1];
    }
    assert c[o] == left[0] && c[o + 1] == left[1];
    LastWhere(items[k].content, boundary, c, o);
  }

  lemma LastContentIs(items: seq<Item>, boundary: string)
    requires items != []
    ensures ContentText(items, |items| - 1, 0, boundary) == items[|items| - 1].content + ("\r\n--" + boundary + "--\r\n")
  {
    hide Tail, Delimiter;
    var c := items[|items| - 1].content;
    assert c[0..] == c;
    LastTail(items, boundary);
    DelimiterIs(boundary);
  }

  lemma DelimiterIs(boundary: string)
    ensures Delimiter(boundary) + "--\r\n" == "\r\n--" + boundary + "--\r\n"
  {
  }

  lemma LastWhere(content: string, boundary: string, c: string, o: nat)
    requires c == content + ("\r\n--" + boundary + "--\r\n") && '\r' !in boundary
    requires 0 < o && o + 1 < |c| && c[o - 1] == '\n' && c[o] == '\r' && c[o + 1] == '\n'
    ensures o + 2 <= |content| || (o == |content| && content[o - 1] == '\n')
  {
    var e := "\r\n--" + boundary + "--\r\n";
    assert forall i :: 4 <= i < 4 + |boundary| ==> e[i] == boundary[i - 4];
    assert forall i :: 0 <= i < |e| ==> c[|content| + i] == e[i];
  }

  lemma {:induction false} FieldsAstray(items: seq<Item>, boundary: string, accepts: Receiver, p: Parser, more: string)
    requires items != [] && ItemsOk(items, boundary) && '\r' !in boundary && forall log :: accepts(log)
    requires Astray(items, boundary, p, more) && p.phase.Headers?
    ensures Astray(items, boundary, FieldsStep(accepts, p).p, more)
    decreases |p.rest|
  {
    hide Astray, EntryDone, TakeField, ItemsOk;
    var pos := Find(p.rest, Crlf());
    if pos == 0 && p.rest != [] {
      assert p.rest[0..] == p.rest;
      EntryDoneAstray(items, boundary, accepts, p, more);
    } else if 0 < pos < |p.rest| {
      FieldAstray(items, boundary, p, more, pos);
      if TakeField(p, pos).1 {
        PhaseKept(p, pos);
        FieldsAstray(items, boundary, accepts, TakeField(p, pos).0, more);
      }
    }
  }

  // the content

  /** The end of a content that comes too late. */
  lemma LastContentAstray(items: seq<Item>, boundary: string, accepts: Receiver, p: Parser, more: string, pos: nat)
    requires items != [] && ItemsOk(items, boundary) && '\r' !in boundary && forall log :: accepts(log)
    requires Astray(items, boundary, p, more) && p.phase.Body?
    requires pos + |Delimiter(boundary)| <= |p.rest| && At(p.rest, pos, Delimiter(boundary))
    ensures Astray(items, boundary, LastContent(Delimiter(boundary), accepts, p, pos).p, more)
  {
    hide ContentText, Serialized, Delivered, ItemsOk, LastPart, Ahead, Delimiter;
    var q := LastContent(Delimiter(boundary), accepts, p, pos).p;
    var body, left := Serialized(items, boundary, true), p.rest + more;
    assert q.rest + more == left[pos + |Delimiter(boundary)|..];
    EndsDrop(left, body, pos + |Delimiter(boundary)|);
    if Matching(items, Delivered(q.log), false) {
      BodyHasItem(items, boundary, p, more, Content(p.rest[..pos]));
      LastContentAhead(items, boundary, accepts, p, more, pos);
    }
  }

  /** With content still growing, an item is there. */
  lemma BodyHasItem(items: seq<Item>, boundary: string, p: Parser, more: string, e: Event)
    requires items != [] && Astray(items, boundary, p, more) && p.phase.Body? && e.Content?
    requires Matching(items, Delivered(p.log + [e]), false) || Matching(items, Delivered(p.log + [e]), true)
    ensures Delivered(p.log) != [] && Ahead(items, boundary, p, Delivered(p.log), p.rest + more)
    ensures var d := Delivered(p.log); var t := |d| - 1;
            t < |items| && Delivered(p.log + [e]) == d[..t] + [Item(d[t].file, d[t].content + e.text)]
  {
    hide ContentText, Serialized, Delivered, LastPart;
    var d := Delivered(p.log);
    if d != [] {
      MatchingBefore(items, p.log, e, !Matching(items, Delivered(p.log + [e]), false));
      assert d == d[..|d| - 1] + [d[|d| - 1]];
      DeliveredContent(p.log, d[..|d| - 1], d[|d| - 1], e.text);
    }
  }

  lemma LastContentAhead(items: seq<Item>, boundary: string, accepts: Receiver, p: Parser, more: string, pos: nat)
    requires items != [] && ItemsOk(items, boundary) && '\r' !in boundary && forall log :: accepts(log)
    requires Ends(p.rest + more, Serialized(items, boundary, true)) && p.phase.Body?
    requires pos + |Delimiter(boundary)| <= |p.rest| && At(p.rest, pos, Delimiter(boundary))
    requires Delivered(p.log) != [] && Ahead(items, boundary, p, Delivered(p.log), p.rest + more)
    requires var d := Delivered(p.log); var t := |d| - 1;
             Matching(items, d[..t] + [Item(d[t].file, d[t].content + p.rest[..pos])], false)
    ensures var d := Delivered(p.log); var t := |d| - 1;
            Ahead(items, boundary, LastContent(Delimiter(boundary), accepts, p, pos).p,
                  d[..t] + [Item(d[t].file, d[t].content + p.rest[..pos])], p.rest[pos + |Delimiter(boundary)|..] + more)
  {
    hide ContentText, Serialized, Delivered, ItemsOk, LastPart, Delimiter, Tail;
    var d, t, left := Delivered(p.log), |Delivered(p.log)| - 1, p.rest + more;
    var n := d[..t] + [Item(d[t].file, d[t].content + p.rest[..pos])];
    LastReplaced(d, Item(d[t].file, d[t].content + p.rest[..pos]));
    assert n[t].content == d[t].content + p.rest[..pos] == items[t].content;
    var x := left[pos..];
    BodyEnds(items, boundary, t);
    ContentLength(items, t, 0, boundary);
    EndsDrop(left, Serialized(items, boundary, true), pos);
    EndsBoth(x, Delimiter(boundary) + Tail(items, t + 1, boundary), Serialized(items, boundary, true));
    assert Delimiter(boundary) <= x by {
      assert x == p.rest[pos..] + more;
    }
    DelimiterBehind(items, boundary, t, x);
    DelimiterLength(boundary);
  }

  /** Part of a content. */
  lemma SomeContentAstray(items: seq<Item>, boundary: string, accepts: Receiver, p: Parser, more: string)
    requires items != [] && ItemsOk(items, boundary) && '\r' !in boundary && forall log :: accepts(log)
    requires Astray(items, boundary, p, more) && p.phase.Body?
    requires |Delimiter(boundary)| < |p.rest| && Find(p.rest, Delimiter(boundary)) == |p.rest|
    ensures Astray(items, boundary, SomeContent(accepts, p, |p.rest| - |Delimiter(boundary)|).p, more)
  {
    hide ContentText, Serialized, Delivered, ItemsOk, LastPart, Delimiter, Find;
    var len := |p.rest| - |Delimiter(boundary)|;
    var q := SomeContent(accepts, p, len).p;
    var body, left := Serialized(items, boundary, true), p.rest + more;
    assert q.rest + more == left[len..];
    EndsDrop(left, body, len);
    if Matching(items, Delivered(q.log), true) {
      BodyHasItem(items, boundary, p, more, Content(p.rest[..len]));
      var d, t := Delivered(p.log), |Delivered(p.log)| - 1;
      LastReplaced(d, Item(d[t].file, d[t].content + p.rest[..len]));
      if t == |items| - 1 {
        LastPartKept(items, boundary, p, more, d[t].content);
      }
    }
  }

  lemma LastReplaced(d: seq<Item>, item: Item)
    requires d != []
    ensures (d[..|d| - 1] + [item])[|d| - 1] == item
  {
  }

  lemma EndsEither(x: string, a: string, e: string)
    requires Ends(x, a + e)
    ensures |x| <= |e| ==> Ends(x, e)
    ensures |x| > |e| ==> Ends(e, x)
  {
    EndsOfSum(x, a, e);
    if |x| > |e| {
      assert x[|x| - |e|..] == e;
    }
  }

  lemma LastPartKept(items: seq<Item>, boundary: string, p: Parser, more: string, text: string)
    requires items != [] && ItemsOk(items, boundary) && '\r' !in boundary
    requires Ends(p.rest + more, Serialized(items, boundary, true))
    requires |p.rest + more| + |text| < |ContentText(items, |items| - 1, 0, boundary)|
    requires |Delimiter(boundary)| < |p.rest| && Find(p.rest, Delimiter(boundary)) == |p.rest|
    requires LastPart(items[|items| - 1], boundary, text, p.rest + more)
    ensures var len := |p.rest| - |Delimiter(boundary)|;
            LastPart(items[|items| - 1], boundary, text + p.rest[..len], p.rest[len..] + more)
  {
    hide ContentText, Serialized, ItemsOk, Find, LastPart, Delimiter, Ends;
    var len, left := |p.rest| - |Delimiter(boundary)|, p.rest + more;
    var body, e := Serialized(items, boundary, true), "\r\n--" + boundary + "--\r\n";
    LastContentIs(items, boundary);
    BodyEnds(items, boundary, |items| - 1);
    EndsBoth(left, ContentText(items, |items| - 1, 0, boundary), body);
    DelimiterLength(boundary);
    EndsEither(left, items[|items| - 1].content, e);
    PartKept(items[|items| - 1], boundary, p.rest, more, text, e);
  }

  lemma PartKept(item: Item, boundary: string, rest: string, more: string, text: string, e: string)
    requires e == "\r\n--" + boundary + "--\r\n" && '\r' !in boundary
    requires |rest + more| <= |e| ==> Ends(rest + more, e)
    requires |rest + more| > |e| ==> Ends(e, rest + more)
    requires |boundary| + 4 < |rest| && Find(rest, Delimiter(boundary)) == |rest|
    requires LastPart(item, boundary, text, rest + more)
    ensures var len := |rest| - (|boundary| + 4); LastPart(item, boundary, text + rest[..len], rest[len..] + more)
  {
    hide Find, Delimiter;
    var len, left := |rest| - (|boundary| + 4), rest + more;
    DelimiterLength(boundary);
    if |left| < |e| {
      DashesOnly(boundary, rest, more, text, e, len);
    } else if |left| - len < |e| {
      ClosingInSight(boundary, rest, more, e);
      assert false;
    }
  }

  lemma DashesOnly(boundary: string, rest: string, more: string, text: string, e: string, len: nat)
    requires e == "\r\n--" + boundary + "--\r\n" && Ends(rest + more, e) && len <= |rest|
    requires |rest + more| + |text| == |boundary| + 6 && len + |text| <= 2
    ensures '\n' !in rest[..len]
  {
    var left := rest + more;
    assert forall i :: 0 <= i < len ==> rest[i] == left[i] == e[|e| - |left| + i];
    assert e[2] == '-' && e[3] == '-';
  }

  /** The closing boundary would have been found. */
  lemma ClosingInSight(boundary: string, rest: string, more: string, e: string)
    requires e == "\r\n--" + boundary + "--\r\n" && |rest + more| >= |e| && (rest + more)[|rest + more| - |e|..] == e
    requires |rest + more| - |e| + |Delimiter(boundary)| < |rest|
    ensures Find(rest, Delimiter(boundary)) < |rest|
  {
    hide Find;
    var o := |rest + more| - |e|;
    DelimiterIs(boundary);
    var d := Delimiter(boundary);
    assert d <= (rest + more)[o..] by {
      assert d + "--\r\n" == e;
    }
    AtInPrefix(rest, more, o, d);
    Found(rest, d, o);
  }

  lemma Found(s: string, pattern: string, o: nat)
    requires o < |s| && At(s, o, pattern)
    ensures Find(s, pattern) < |s|
  {
  }

  lemma BodyAstray(items: seq<Item>, boundary: string, accepts: Receiver, p: Parser, more: string)
    requires items != [] && ItemsOk(items, boundary) && '\r' !in boundary && forall log :: accepts(log)
    requires Astray(items, boundary, p, more) && p.phase.Body?
    ensures Astray(items, boundary, BodyStep(boundary, accepts, p).p, more)
  {
    hide Astray, LastContent, ItemsOk, Find, Delimiter;
    var pos := Find(p.rest, Delimiter(boundary));
    DelimiterLength(boundary);
    if |Delimiter(boundary)| <= |p.rest| {
      if pos < |p.rest| {
        Hit(p.rest, Delimiter(boundary));
        LastContentAstray(items, boundary, accepts, p, more, pos);
      } else if |Delimiter(boundary)| < |p.rest| {
        FindBelow(p.rest, Delimiter(boundary));
        SomeContentAstray(items, boundary, accepts, p, more);
      }
    }
  }

  lemma FindBelow(s: string, pattern: string)
    ensures Find(s, pattern) <= |s|
  {
  }

  lemma BoundaryAstray(items: seq<Item>, boundary: string, p: Parser, more: string)
    requires items != [] && Astray(items, boundary, p, more) && p.phase.Boundary?
    ensures Astray(items, boundary, BoundaryStep(p).p, more)
  {
    hide ContentText, Serialized, Delivered, AfterLf;
    var body, left := Serialized(items, boundary, true), p.rest + more;
    if |p.rest| >= 2 && Crlf() <= p.rest {
      assert p.rest[0..] == p.rest;
      LineTaken(body, p.rest, more, 0);
    } else if |p.rest| >= 2 && Dashes() <= p.rest {
      assert [] + more == left[|p.rest|..];
      EndsDrop(left, body, |p.rest|);
    }
  }

  lemma StepAstray(items: seq<Item>, boundary: string, accepts: Receiver, p: Parser, more: string)
    requires items != [] && ItemsOk(items, boundary) && '\r' !in boundary && forall log :: accepts(log)
    requires Astray(items, boundary, p, more)
    ensures Astray(items, boundary, StepOf(boundary, accepts, p).p, more)
  {
    hide FieldsStep, BodyStep, BoundaryStep, ItemsOk, Ahead, Matching, Delivered, AfterLf, Serialized, ContentText;
    match p.phase
    case Entry => EntryAstray(items, boundary, p, more);
    case Headers => FieldsAstray(items, boundary, accepts, p, more);
    case Body => BodyAstray(items, boundary, accepts, p, more);
    case Boundary => BoundaryAstray(items, boundary, p, more);
    case Opening => assert false;
  }

  lemma {:induction false} LoopAstray(items: seq<Item>, boundary: string, accepts: Receiver, p: Parser, more: string)
    requires items != [] && ItemsOk(items, boundary) && '\r' !in boundary && forall log :: accepts(log)
    requires Astray(items, boundary, p, more)
    ensures Astray(items, boundary, Loop(boundary, accepts, p).0, more)
    decreases Left(p).0, Left(p).1
  {
    hide Astray, StepOf, ItemsOk;
    if p.rest != [] {
      StepAstray(items, boundary, accepts, p, more);
      var s := StepOf(boundary, accepts, p);
      if s.Again? {
        StepShrinks(boundary, accepts, p);
        LoopAstray(items, boundary, accepts, s.p, more);
      }
    }
  }

  // ---------- the opening ----------

  /** Nothing is found yet, and the start of the body is gone. */
  ghost predicate Lost(items: seq<Item>, boundary: string, p: Parser, more: string)
  {
    p == Start() && Ends(more, Serialized(items, boundary, true)) && |more| < |Serialized(items, boundary, true)|
  }

  /** An opening line found after the start leads astray. */
  lemma FoundLate(items: seq<Item>, boundary: string, rest: string, more: string, pos: nat)
    requires items != [] && ItemsOk(items, boundary) && BoundaryChars(boundary)
    requires Ends(rest + more, Serialized(items, boundary, true)) && |rest + more| < |Serialized(items, boundary, true)|
    requires pos + |OpeningLine(boundary)| <= |rest| && At(rest, pos, OpeningLine(boundary))
    ensures Astray(items, boundary, Start().(rest := rest[pos..][|OpeningLine(boundary)|..], phase := Entry), more)
  {
    hide ContentText, Serialized, ItemsOk, OpeningLine;
    var line, left, body := OpeningLine(boundary), rest + more, Serialized(items, boundary, true);
    var x := left[pos..];
    EndsDrop(left, body, pos);
    assert line <= x by {
      assert x == rest[pos..] + more;
    }
    OpeningInside(items, boundary, x);
    var q := Start().(rest := rest[pos..][|line|..], phase := Entry);
    assert q.rest + more == x[|line|..];
    EndsDrop(x, body, |line|);
    LineFeedLast(boundary, body, x);
    NothingDelivered();
  }

  lemma LineFeedLast(boundary: string, body: string, x: string)
    requires Ends(x, body) && OpeningLine(boundary) <= x
    ensures |OpeningLine(boundary)| > 0 && AfterLf(body, x[|OpeningLine(boundary)|..])
  {
    var line := OpeningLine(boundary);
    assert line[|line| - 1] == '\n' == x[|line| - 1];
    assert body[|body| - |x|..][|line| - 1] == body[|body| - |x| + |line| - 1];
  }

  lemma ParseLost(items: seq<Item>, boundary: string, accepts: Receiver, p: Parser, fragment: string, more: string)
    requires items != [] && ItemsOk(items, boundary) && BoundaryChars(boundary) && forall log :: accepts(log)
    requires Lost(items, boundary, p, fragment + more)
    ensures var (q, ok) := Parse(boundary, accepts, p, fragment);
            Lost(items, boundary, q, more) || Astray(items, boundary, q, more)
  {
    hide Serialized, ItemsOk, Astray, Find, FieldsStep, BodyStep, BoundaryStep, OpeningLine, At;
    var r := Start().(rest := fragment);
    assert p.(rest := p.rest + fragment) == r;
    var body, line := Serialized(items, boundary, true), OpeningLine(boundary);
    var pos := Find(fragment, line);
    FindBelow(fragment, line);
    Hit(fragment, line);
    if pos < |fragment| {
      FoundLate(items, boundary, fragment, more, pos);
      AtMeans(fragment, pos, line);
      StepShrinks(boundary, accepts, r);
      LoopAstray(items, boundary, accepts, Start().(rest := fragment[pos..][|line|..], phase := Entry), more);
    } else {
      assert fragment[|fragment|..] == [];
      assert (fragment + more)[|fragment|..] == more;
      EndsDrop(fragment + more, body, |fragment|);
      OpeningLong(boundary);
      assert Loop(boundary, accepts, r) == (Start(), true);
    }
  }

  lemma AtMeans(s: string, i: nat, pattern: string)
    requires At(s, i, pattern)
    ensures i <= |s| && pattern <= s[i..]
  {
  }

  lemma OpeningLong(boundary: string)
    ensures |OpeningLine(boundary)| > 0
  {
  }

  lemma {:induction false} NeverDelivered(items: seq<Item>, boundary: string, accepts: Receiver, p: Parser, fragments: seq<string>)
    requires items != [] && ItemsOk(items, boundary) && BoundaryChars(boundary) && forall log :: accepts(log)
    requires Lost(items, boundary, p, Concat(fragments)) || Astray(items, boundary, p, Concat(fragments))
    ensures Delivered(ParseAll(boundary, accepts, p, fragments).0.log) != items
    decreases |fragments|
  {
    hide ItemsOk, Astray, Parse, Delivered, Serialized;
    assert '\r' !in boundary;
    if fragments == [] {
      StillDiffers(items, boundary, p, []);
    } else {
      var more := Concat(fragments[1..]);
      var (q, ok) := Parse(boundary, accepts, p, fragments[0]);
      if Lost(items, boundary, p, Concat(fragments)) {
        ParseLost(items, boundary, accepts, p, fragments[0], more);
      } else {
        ParseAstray(items, boundary, accepts, p, fragments[0], more);
      }
      if ok {
        NeverDelivered(items, boundary, accepts, q, fragments[1..]);
      } else {
        StillDiffers(items, boundary, q, more);
      }
    }
  }

  lemma StillDiffers(items: seq<Item>, boundary: string, p: Parser, more: string)
    requires items != [] && (Lost(items, boundary, p, more) || Astray(items, boundary, p, more))
    ensures Delivered(p.log) != items
  {
    hide Astray, Serialized;
    NothingDelivered();
    if Astray(items, boundary, p, more) {
      AstrayDiffers(items, boundary, p, more);
    }
  }

  lemma ParseAstray(items: seq<Item>, boundary: string, accepts: Receiver, p: Parser, fragment: string, more: string)
    requires items != [] && ItemsOk(items, boundary) && '\r' !in boundary && forall log :: accepts(log)
    requires Astray(items, boundary, p, fragment + more)
    ensures Astray(items, boundary, Parse(boundary, accepts, p, fragment).0, more)
  {
    hide ItemsOk, Loop, Ahead, Matching, Delivered, AfterLf, Serialized, ContentText;
    assert p.rest + (fragment + more) == p.rest + fragment + more;
    var r := p.(rest := p.rest + fragment);
    assert Astray(items, boundary, r, more) by {
      SameAhead(items, boundary, p, r, p.rest + (fragment + more));
    }
    LoopAstray(items, boundary, accepts, r, more);
  }

  lemma SameAhead(items: seq<Item>, boundary: string, p: Parser, r: Parser, left: string)
    requires items != [] && r == p.(rest := r.rest)
    ensures Ahead(items, boundary, p, Delivered(p.log), left) <==> Ahead(items, boundary, r, Delivered(r.log), left)
  {
    hide Delivered, ContentText;
  }

  /** For acceptable items with short header lines and a first fragment that is not empty: the body is valid and delivers
      exactly the items if and only if the first fragment holds the whole opening line. If it does not, the items are not
      delivered, whatever becomes of the rest. */
  lemma OpeningDecides(items: seq<Item>, boundary: string, accepts: Receiver, fragments: seq<string>)
    requires items != [] && ItemsOk(items, boundary) && BoundaryChars(boundary) && forall log :: accepts(log)
    requires Concat(fragments) == Serialized(items, boundary, true) && fragments != [] && fragments[0] != []
    ensures |fragments[0]| < |OpeningLine(boundary)| ==> Delivered(ParseAll(boundary, accepts, Start(), fragments).0.log) != items
    ensures AllShort(items) ==>
              (Succeeds(items, boundary, accepts, fragments) <==> |fragments[0]| >= |OpeningLine(boundary)|)
  {
    hide ItemsOk, ParseAll, Serialized, Delivered, AllShort;
    assert '\r' !in boundary;
    if |fragments[0]| < |OpeningLine(boundary)| {
      BreaksOff(items, boundary, fragments);
      BrokenOpeningIsLost(boundary, accepts, fragments[0], fragments[1..]);
      assert [fragments[0]] + fragments[1..] == fragments;
      NeverDelivered(items, boundary, accepts, Start(), fragments[1..]);
    } else if AllShort(items) {
      MultipartRoundTrip.MultipartRoundTrip(items, boundary, accepts, fragments);
    }
  }

  /** The first fragment is part of the opening line, and gone. */
  lemma BreaksOff(items: seq<Item>, boundary: string, fragments: seq<string>)
    requires items != [] && Concat(fragments) == Serialized(items, boundary, true) && fragments != [] && fragments[0] != []
    requires |fragments[0]| < |OpeningLine(boundary)|
    ensures fragments[0] < OpeningLine(boundary) && Lost(items, boundary, Start(), Concat(fragments[1..]))
  {
    hide Serialized, Tail;
    BodyIs(items, boundary);
    var f, body, line := fragments[0], Serialized(items, boundary, true), OpeningLine(boundary);
    assert line <= body by {
      TailStarts(items, boundary);
    }
    assert body == f + Concat(fragments[1..]);
    assert f == body[..|f|] == line[..|f|];
  }

  lemma TailStarts(items: seq<Item>, boundary: string)
    requires items != []
    ensures OpeningLine(boundary) <= Dashes() + boundary + Tail(items, 0, boundary)
  {
    hide EntryText;
    assert Tail(items, 0, boundary) == Crlf() + EntryText(items, 0, boundary);
    assert Dashes() + boundary + (Crlf() + EntryText(items, 0, boundary)) == OpeningLine(boundary) + EntryText(items, 0, boundary);
  }
}
