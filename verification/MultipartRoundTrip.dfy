/** The parser undoes the writer, however the body is cut into fragments. */
module MultipartRoundTrip {
  import opened Basics
  import opened HttpText
  import opened MultipartForm
  import opened MultipartWriter

  /** What an item must satisfy to survive: names without separators, a trimmed content type on one line, and content that
      does not hold the delimiter. */
  predicate ItemOk(item: Item, boundary: string)
  {
    CleanName(item.file.name) && CleanName(item.file.filename) &&
    Trimmed(item.file.contentType) && OneLine(item.file.contentType) &&
    Absent(item.content, Delimiter(boundary))
  }

  predicate Absent(s: string, pattern: string)
  {
    forall i: nat :: i < |s| ==> !At(s, i, pattern)
  }

  predicate ItemsOk(items: seq<Item>, boundary: string)
  {
    forall i :: 0 <= i < |items| ==> ItemOk(items[i], boundary)
  }

  /** Every printed header line is shorter than the limit. */
  predicate AllShort(items: seq<Item>)
  {
    forall i :: 0 <= i < |items| ==> forall j :: 0 <= j < |Lines(items[i].file)| ==> |Lines(items[i].file)[j]| < HEADER_MAX_LENGTH
  }

  /** The items a receiver puts together from what is reported. */
  function Delivered(log: seq<Event>): seq<Item>
  {
    if log == [] then []
    else
      var before := Delivered(log[..|log| - 1]);
      match log[|log| - 1]
      case Header(file) => before + [Item(file, [])]
      case Content(text) =>
        if before == [] then [] else
          var last := before[|before| - 1];
          before[..|before| - 1] + [Item(last.file, last.content + text)]
  }

  lemma DeliveredHeader(log: seq<Event>, file: File)
    ensures Delivered(log + [Header(file)]) == Delivered(log) + [Item(file, [])]
  {
    assert (log + [Header(file)])[..|log|] == log;
  }

  lemma DeliveredContent(log: seq<Event>, items: seq<Item>, item: Item, text: string)
    requires Delivered(log) == items + [item]
    ensures Delivered(log + [Content(text)]) == items + [Item(item.file, item.content + text)]
  {
    assert (log + [Content(text)])[..|log|] == log;
    assert (items + [item])[..|items|] == items;
  }

  // ---------- searching a prefix of a text ----------

  ghost predicate First(s: string, pattern: string, k: nat)
  {
    At(s, k, pattern) && forall j: nat :: j < k ==> !At(s, j, pattern)
  }

  lemma AtInPrefix(s: string, t: string, j: nat, pattern: string)
    requires j <= |s|
    ensures At(s, j, pattern) ==> At(s + t, j, pattern)
    ensures At(s + t, j, pattern) && j + |pattern| <= |s| ==> At(s, j, pattern)
  {
    assert (s + t)[j..] == s[j..] + t;
  }

  /** With only part of the text in sight, the search finds the first occurrence if all of it is in sight, else nothing. */
  lemma FindInPrefix(s: string, t: string, pattern: string, k: nat)
    requires pattern != [] && First(s + t, pattern, k)
    ensures Find(s, pattern) == if k + |pattern| <= |s| then k else |s|
  {
    hide At, Find;
    forall j: nat | j < k && j <= |s|
      ensures !At(s, j, pattern)
    {
      AtInPrefix(s, t, j, pattern);
    }
    if k + |pattern| <= |s| {
      AtInPrefix(s, t, k, pattern);
      FindUnique(s, pattern, k);
    } else {
      forall j: nat | k <= j < |s|
        ensures !At(s, j, pattern)
      {
        Longer(s, j, pattern, k);
      }
      FindUnique(s, pattern, |s|);
    }
  }

  lemma Longer(s: string, j: nat, pattern: string, k: nat)
    requires k <= j < |s| && k + |pattern| > |s|
    ensures !At(s, j, pattern)
  {
  }

  /** A pattern whose first character occurs in it only there, put behind a text that does not hold it, is found there. */
  lemma FirstBehind(a: string, pattern: string, z: string)
    requires pattern != [] && pattern[0] !in pattern[1..] && Absent(a, pattern)
    ensures First(a + (pattern + z), pattern, |a|)
  {
    var s := a + (pattern + z);
    assert s[|a|..] == pattern + z;
    forall j: nat | j < |a|
      ensures !At(s, j, pattern)
    {
      if j + |pattern| <= |a| {
        AtInPrefix(a, pattern + z, j, pattern);
      } else {
        Overlap(a, pattern, z, j);
      }
    }
  }

  lemma Overlap(a: string, pattern: string, z: string, j: nat)
    requires pattern != [] && pattern[0] !in pattern[1..] && j < |a| < j + |pattern|
    ensures !At(a + (pattern + z), j, pattern)
  {
    var s := a + (pattern + z);
    assert s[|a|] == pattern[0];
    assert pattern[1..][|a| - j - 1] == pattern[|a| - j];
    assert s[j..][|a| - j] == s[|a|];
  }

  lemma LineHasNoCrlf(line: string)
    requires OneLine(line)
    ensures Absent(line, Crlf()) && Crlf()[0] !in Crlf()[1..]
  {
  }

  lemma DelimiterStart(boundary: string)
    requires '\r' !in boundary
    ensures Delimiter(boundary) != [] && Delimiter(boundary)[0] !in Delimiter(boundary)[1..]
  {
    assert Delimiter(boundary)[1..] == "\n--" + boundary;
  }

  // ---------- what is still to come ----------

  /** What follows a boundary: the entries from k on. */
  function Tail(items: seq<Item>, k: nat, boundary: string): string
    requires k <= |items|
    decreases |items| - k, 2
  {
    if k == |items| then Dashes() + Crlf()
    else Crlf() + EntryText(items, k, boundary)
  }

  function EntryText(items: seq<Item>, k: nat, boundary: string): string
    requires k < |items|
    decreases |items| - k, 1
  {
    Block(Lines(items[k].file)) + (Crlf() + ContentText(items, k, 0, boundary))
  }

  /** The content of entry k without its first n bytes, and all that follows. */
  function ContentText(items: seq<Item>, k: nat, n: nat, boundary: string): string
    requires k < |items| && n <= |items[k].content|
    decreases |items| - k, 0
  {
    items[k].content[n..] + (Delimiter(boundary) + Tail(items, k + 1, boundary))
  }

  /** The file after these header lines. */
  function AfterLines(file: File, lines: seq<string>): Option<File>
    decreases |lines|
  {
    if lines == [] then Some(file)
    else
      var (f, ok) := HeaderField(file, lines[0]);
      if ok then AfterLines(f, lines[1..]) else None
  }

  predicate GoodLine(line: string)
  {
    line != [] && OneLine(line)
  }

  /** The parser is on its way: what is in the buffer and what is still to come make up the rest of the body, and the
      items before k are delivered. `n` header lines, or bytes of the content, of entry k are consumed. */
  ghost predicate OnTheWay(items: seq<Item>, boundary: string, p: Parser, k: nat, n: nat, more: string)
  {
    k <= |items| && !p.valid && (p.phase.Boundary? || k < |items|) &&
    match p.phase
    case Opening => false
    case Entry => Delivered(p.log) == items[..k] && p.rest + more == EntryText(items, k, boundary)
    case Headers =>
      Delivered(p.log) == items[..k] && n <= |Lines(items[k].file)| &&
      AfterLines(p.file, Lines(items[k].file)[n..]) == Some(items[k].file) &&
      p.rest + more == Block(Lines(items[k].file)[n..]) + (Crlf() + ContentText(items, k, 0, boundary))
    case Body =>
      n <= |items[k].content| &&
      Delivered(p.log) == items[..k] + [Item(items[k].file, items[k].content[..n])] &&
      p.rest + more == ContentText(items, k, n, boundary)
    case Boundary => Delivered(p.log) == items[..k] && p.rest + more == Tail(items, k, boundary)
  }

  /** The parser has seen the closing boundary; only the line end behind it may follow. */
  ghost predicate Finished(items: seq<Item>, p: Parser, more: string)
  {
    p.valid && Delivered(p.log) == items &&
    match p.phase
    case Boundary => exists i :: 0 <= i <= 2 && p.rest + more == Crlf()[i..]
    case Entry => p.rest + more == []
    case _ => false
  }

  /** The parser waits for the next fragment: the line, the delimiter or the dashes it looks for are not yet in sight. */
  predicate Waits(boundary: string, p: Parser)
  {
    match p.phase
    case Headers => Find(p.rest, Crlf()) == |p.rest|
    case Body => |p.rest| <= |Delimiter(boundary)|
    case Boundary => |p.rest| < 2
    case _ => p.rest == []
  }

  /** Where a step that goes on leads: the phase, the entry, and how much of it is consumed. */
  predicate Leads(items: seq<Item>, p: Parser, k: nat, q: Parser, j: nat, m: nat)
  {
    match p.phase
    case Entry => q.phase.Headers? && j == k && m == 0
    case Headers => q.phase.Body? && j == k && m == 0
    case Body => q.phase.Boundary? && j == k + 1 && m == 0
    case _ => if k < |items| then q.phase.Entry? && j == k && m == 0 else q.valid
  }

  // ---------- one step on the way ----------

  lemma Nonempty(items: seq<Item>, boundary: string, p: Parser, k: nat, n: nat, more: string)
    requires OnTheWay(items, boundary, p, k, n, more)
    ensures p.rest + more != []
  {
    hide Delivered, AfterLines, Lines, Block;
  }

  lemma EntryGood(items: seq<Item>, boundary: string, accepts: Receiver, p: Parser, k: nat, more: string)
    requires ItemsOk(items, boundary) && p.phase.Entry? && OnTheWay(items, boundary, p, k, 0, more)
    ensures var q := p.(file := NoFile(), phase := Headers); OnTheWay(items, boundary, q, k, 0, more)
  {
    hide Delivered, AfterLines, ItemOk, ContentText;
    var file := items[k].file;
    assert Lines(file)[0..] == Lines(file);
    LinesGood(items[k], boundary);
  }

  /** Reading all header lines of an item gives its file. */
  lemma LinesGood(item: Item, boundary: string)
    requires ItemOk(item, boundary)
    ensures AfterLines(NoFile(), Lines(item.file)) == Some(item.file)
    ensures forall i :: 0 <= i < |Lines(item.file)| ==> GoodLine(Lines(item.file)[i])
  {
    hide HeaderField, DispositionLine, TypeLine, Trimmed, CleanName, Absent, OneLine;
    var file := item.file;
    DispositionMeans(file);
    LinesClean(file);
    var f := File(file.name, file.filename, []);
    if file.contentType == [] {
      assert Lines(file) == [DispositionLine(file)];
      assert Lines(file)[1..] == [];
    } else {
      TypeMeans(f, file);
      assert Lines(file)[1..] == [TypeLine(file)];
      assert [TypeLine(file)][1..] == [];
      assert AfterLines(f, [TypeLine(file)]) == Some(file);
    }
  }

  lemma LinesClean(file: File)
    requires CleanName(file.name) && CleanName(file.filename) && OneLine(file.contentType)
    ensures OneLine(DispositionLine(file)) && OneLine(TypeLine(file))
    ensures DispositionLine(file) != [] && TypeLine(file) != []
  {
    hide CleanName, Names;
    NamesStart(file);
    TagsClean();
  }

  lemma TagsClean()
    ensures OneLine(DispositionName()) && OneLine(FormDataTag()) && OneLine(TypeName())
  {
  }

  /** The state after a step: still on the way, or finished. */
  ghost predicate Fine(items: seq<Item>, boundary: string, p: Parser, k: nat, n: nat, more: string)
  {
    OnTheWay(items, boundary, p, k, n, more) || Finished(items, p, more)
  }

  /** The empty line behind the header lines. */
  lemma EntryDoneGood(items: seq<Item>, boundary: string, accepts: Receiver, p: Parser, k: nat, n: nat, more: string)
    requires p.phase.Headers? && OnTheWay(items, boundary, p, k, n, more)
    requires n == |Lines(items[k].file)| && |p.rest| >= 2 && forall log :: accepts(log)
    ensures var s := EntryDone(accepts, p); s.Again? && s.p.phase.Body? && OnTheWay(items, boundary, s.p, k, 0, more)
  {
    hide Delivered, Lines, ContentText;
    var item := items[k];
    assert Lines(item.file)[n..] == [];
    DeliveredHeader(p.log, p.file);
    assert item.content[..0] == [];
    DropTwo(p.rest, more, ContentText(items, k, 0, boundary));
  }

  lemma DropTwo(rest: string, more: string, z: string)
    requires |rest| >= 2 && rest + more == [] + (Crlf() + z)
    ensures rest[2..] + more == z
  {
    assert (rest + more)[2..] == rest[2..] + more;
    assert ([] + (Crlf() + z))[2..] == z;
  }

  /** One header line. */
  lemma FieldGood(items: seq<Item>, boundary: string, p: Parser, k: nat, n: nat, more: string)
    requires p.phase.Headers? && OnTheWay(items, boundary, p, k, n, more)
    requires n < |Lines(items[k].file)| && |Lines(items[k].file)[n]| + 2 <= |p.rest|
    ensures var (q, ok) := TakeField(p, |Lines(items[k].file)[n]|);
            ok && OnTheWay(items, boundary, q, k, n + 1, more)
  {
    hide Delivered, Lines, ContentText, HeaderField;
    var ls := Lines(items[k].file)[n..];
    assert ls[0] == Lines(items[k].file)[n] && ls[1..] == Lines(items[k].file)[n + 1..];
    TakeLine(p.rest, more, ls[0], Block(ls[1..]), Crlf() + ContentText(items, k, 0, boundary));
  }

  lemma TakeLine(rest: string, more: string, line: string, b: string, z: string)
    requires |line| + 2 <= |rest| && rest + more == line + (Crlf() + b) + z
    ensures rest[..|line|] == line && rest[|line| + 2..] + more == b + z
  {
    var s := line + (Crlf() + b) + z;
    assert s[..|line|] == line;
    assert (rest + more)[..|line|] == rest[..|line|];
    assert s[|line| + 2..] == b + z;
    assert (rest + more)[|line| + 2..] == rest[|line| + 2..] + more;
  }

  /** Where the next line ends. */
  lemma NextCrlf(items: seq<Item>, boundary: string, p: Parser, k: nat, n: nat, more: string)
    requires ItemsOk(items, boundary) && p.phase.Headers? && OnTheWay(items, boundary, p, k, n, more)
    ensures var lines := Lines(items[k].file);
            var len := if n < |lines| then |lines[n]| else 0;
            Find(p.rest, Crlf()) == (if len + 2 <= |p.rest| then len else |p.rest|) &&
            |p.rest + more| > len + 2 && (n < |lines| ==> len > 0)
  {
    hide Delivered, Lines, ContentText, AfterLines, ItemOk, OneLine, Find, First;
    var lines := Lines(items[k].file);
    var z := ContentText(items, k, 0, boundary);
    ContentLong(items, k, 0, boundary);
    LinesGood(items[k], boundary);
    var line := if n < |lines| then lines[n] else [];
    assert OneLine(line) by {
      EmptyLine();
    }
    LineHasNoCrlf(line);
    if n < |lines| {
      assert lines[n..][0] == lines[n] && lines[n..][1..] == lines[n + 1..];
      var b := Block(lines[n + 1..]);
      assert line + (Crlf() + b) + (Crlf() + z) == line + (Crlf() + (b + (Crlf() + z)));
      FirstBehind(line, Crlf(), b + (Crlf() + z));
    } else {
      FirstBehind([], Crlf(), z);
    }
    FindInPrefix(p.rest, more, Crlf(), |line|);
  }

  lemma EmptyLine()
    ensures OneLine([])
  {
  }

  lemma ContentLong(items: seq<Item>, k: nat, n: nat, boundary: string)
    requires k < |items| && n <= |items[k].content|
    ensures |ContentText(items, k, n, boundary)| > 4
  {
  }

  /** The header line that comes next does not exceed the limit, nor does what is in sight of it. */
  ghost predicate RoomAt(items: seq<Item>, p: Parser, k: nat, n: nat, more: string)
  {
    p.phase.Headers? && k < |items| && n < |Lines(items[k].file)| ==>
      var len := |Lines(items[k].file)[n]|;
      len < HEADER_MAX_LENGTH || (more == [] && len == HEADER_MAX_LENGTH)
  }

  lemma {:induction false} FieldsGood(items: seq<Item>, boundary: string, accepts: Receiver, p: Parser, k: nat, n: nat, more: string)
    returns (m: nat)
    requires ItemsOk(items, boundary) && p.phase.Headers? && OnTheWay(items, boundary, p, k, n, more)
    requires forall log :: accepts(log)
    ensures var s := FieldsStep(accepts, p);
            OnTheWay(items, boundary, s.p, k, m, more) &&
            (if s.Return? then s.ok && more != [] && Waits(boundary, s.p) else s.p.phase.Body? && m == 0)
    decreases |p.rest|
  {
    hide OnTheWay, EntryDone, TakeField, Find, Lines, ItemsOk;
    assert k < |items| && n <= |Lines(items[k].file)| by {
      InRange(items, boundary, p, k, n, more);
    }
    NextCrlf(items, boundary, p, k, n, more);
    var pos := Find(p.rest, Crlf());
    if pos == |p.rest| {
      m := n;
    } else if n == |Lines(items[k].file)| {
      EntryDoneGood(items, boundary, accepts, p, k, n, more);
      m := 0;
    } else {
      FieldGood(items, boundary, p, k, n, more);
      PhaseKept(p, pos);
      m := FieldsGood(items, boundary, accepts, TakeField(p, pos).0, k, n + 1, more);
    }
  }

  lemma InRange(items: seq<Item>, boundary: string, p: Parser, k: nat, n: nat, more: string)
    requires p.phase.Headers? && OnTheWay(items, boundary, p, k, n, more)
    ensures k < |items| && n <= |Lines(items[k].file)|
  {
  }

  lemma PhaseKept(p: Parser, pos: nat)
    requires pos + 2 <= |p.rest| && TakeField(p, pos).1
    ensures TakeField(p, pos).0.phase == p.phase && |TakeField(p, pos).0.rest| < |p.rest|
  {
  }

  lemma HeadersGood(items: seq<Item>, boundary: string, accepts: Receiver, p: Parser, k: nat, n: nat, more: string)
    returns (m: nat)
    requires ItemsOk(items, boundary) && p.phase.Headers? && OnTheWay(items, boundary, p, k, n, more)
    requires RoomAt(items, p, k, n, more) && forall log :: accepts(log)
    ensures var s := HeadersStep(accepts, p);
            OnTheWay(items, boundary, s.p, k, m, more) &&
            (if s.Return? then s.ok && more != [] && Waits(boundary, s.p) else s.p.phase.Body? && m == 0)
  {
    hide OnTheWay, FieldsStep, Find, Lines, ItemsOk;
    InRange(items, boundary, p, k, n, more);
    NextCrlf(items, boundary, p, k, n, more);
    m := FieldsGood(items, boundary, accepts, p, k, n, more);
  }

  // ---------- the content ----------

  /** Where the content ends. */
  lemma NextDelimiter(items: seq<Item>, boundary: string, p: Parser, k: nat, n: nat, more: string)
    requires ItemsOk(items, boundary) && '\r' !in boundary && p.phase.Body? && OnTheWay(items, boundary, p, k, n, more)
    ensures var len, d := |items[k].content| - n, |Delimiter(boundary)|;
            Find(p.rest, Delimiter(boundary)) == (if len + d <= |p.rest| then len else |p.rest|) &&
            d > 0 && |p.rest + more| > len + d
  {
    hide Delivered, Delimiter, Find, First, Tail;
    var c := items[k].content;
    TailLong(items, k + 1, boundary);
    DelimiterStart(boundary);
    assert Absent(c[n..], Delimiter(boundary)) by {
      AbsentFrom(c, n, Delimiter(boundary));
    }
    FirstBehind(c[n..], Delimiter(boundary), Tail(items, k + 1, boundary));
    FindInPrefix(p.rest, more, Delimiter(boundary), |c| - n);
  }

  lemma TailLong(items: seq<Item>, k: nat, boundary: string)
    requires k <= |items|
    ensures |Tail(items, k, boundary)| > 2
  {
  }

  lemma AbsentFrom(s: string, n: nat, pattern: string)
    requires n <= |s| && Absent(s, pattern)
    ensures Absent(s[n..], pattern)
  {
    forall i: nat | i < |s| - n
      ensures !At(s[n..], i, pattern)
    {
      assert s[n..][i..] == s[n + i..];
      assert !At(s, n + i, pattern);
    }
  }

  lemma LastContentGood(items: seq<Item>, boundary: string, accepts: Receiver, p: Parser, k: nat, n: nat, more: string)
    requires p.phase.Body? && OnTheWay(items, boundary, p, k, n, more) && forall log :: accepts(log)
    requires |items[k].content| - n + |Delimiter(boundary)| <= |p.rest|
    ensures var s := LastContent(Delimiter(boundary), accepts, p, |items[k].content| - n);
            s.Again? && s.p.phase.Boundary? && OnTheWay(items, boundary, s.p, k + 1, 0, more)
  {
    hide Delivered, Delimiter, Tail;
    var item := items[k];
    var c := item.content[n..];
    var d := Delimiter(boundary);
    var z := Tail(items, k + 1, boundary);
    Apart(p.rest, more, c, d, z);
    DeliveredContent(p.log, items[..k], Item(item.file, item.content[..n]), c);
    assert item.content[..n] + c == item.content;
    assert items[..k + 1] == items[..k] + [Item(item.file, item.content)];
  }

  lemma Apart(rest: string, more: string, c: string, d: string, z: string)
    requires rest + more == c + (d + z) && |c| + |d| <= |rest|
    ensures rest[..|c|] == c && rest[|c| + |d|..] + more == z
  {
    assert (c + (d + z))[..|c|] == c && (c + (d + z))[|c| + |d|..] == z;
    assert (rest + more)[..|c|] == rest[..|c|];
    assert (rest + more)[|c| + |d|..] == rest[|c| + |d|..] + more;
  }

  lemma SomeContentGood(items: seq<Item>, boundary: string, accepts: Receiver, p: Parser, k: nat, n: nat, more: string, len: nat)
    requires p.phase.Body? && OnTheWay(items, boundary, p, k, n, more) && forall log :: accepts(log)
    requires len <= |p.rest| && n + len <= |items[k].content|
    ensures var s := SomeContent(accepts, p, len);
            s.Return? && s.ok && OnTheWay(items, boundary, s.p, k, n + len, more) &&
            s.p.phase.Body? && |s.p.rest| == |p.rest| - len
  {
    hide Delivered, Delimiter, Tail;
    if len > 0 {
      var item := items[k];
      var dz := Delimiter(boundary) + Tail(items, k + 1, boundary);
      Partly(p.rest, more, item.content, n, len, dz);
      DeliveredContent(p.log, items[..k], Item(item.file, item.content[..n]), p.rest[..len]);
    }
  }

  lemma Partly(rest: string, more: string, c: string, n: nat, len: nat, z: string)
    requires n + len <= |c| && len <= |rest| && rest + more == c[n..] + z
    ensures c[..n] + rest[..len] == c[..n + len] && rest[len..] + more == c[n + len..] + z
  {
    assert (rest + more)[..len] == rest[..len] && (c[n..] + z)[..len] == c[n..][..len];
    assert c[..n] + c[n..][..len] == c[..n + len];
    assert (rest + more)[len..] == rest[len..] + more && (c[n..] + z)[len..] == c[n + len..] + z;
  }

  lemma BodyGood(items: seq<Item>, boundary: string, accepts: Receiver, p: Parser, k: nat, n: nat, more: string)
    returns (j: nat, m: nat)
    requires ItemsOk(items, boundary) && '\r' !in boundary && p.phase.Body? && OnTheWay(items, boundary, p, k, n, more)
    requires forall log :: accepts(log)
    ensures var s := BodyStep(boundary, accepts, p);
            OnTheWay(items, boundary, s.p, j, m, more) &&
            (if s.Return? then s.ok && more != [] && Waits(boundary, s.p) else s.p.phase.Boundary? && j == k + 1 && m == 0)
  {
    hide OnTheWay, Delimiter, LastContent, SomeContent, Find, ItemsOk;
    InContent(items, boundary, p, k, n, more);
    NextDelimiter(items, boundary, p, k, n, more);
    var len, d := |items[k].content| - n, |Delimiter(boundary)|;
    if d > |p.rest| {
      j, m := k, n;
    } else if len + d <= |p.rest| {
      LastContentGood(items, boundary, accepts, p, k, n, more);
      j, m := k + 1, 0;
    } else {
      SomeContentGood(items, boundary, accepts, p, k, n, more, |p.rest| - d);
      j, m := k, n + (|p.rest| - d);
    }
  }

  lemma InContent(items: seq<Item>, boundary: string, p: Parser, k: nat, n: nat, more: string)
    requires p.phase.Body? && OnTheWay(items, boundary, p, k, n, more)
    ensures k < |items| && n <= |items[k].content|
  {
  }

  // ---------- behind a boundary ----------

  lemma BoundaryGood(items: seq<Item>, boundary: string, p: Parser, k: nat, n: nat, more: string)
    requires p.phase.Boundary? && OnTheWay(items, boundary, p, k, n, more)
    ensures var s := BoundaryStep(p);
            (s.Return? ==> s.ok && more != [] && OnTheWay(items, boundary, s.p, k, 0, more) && Waits(boundary, s.p)) &&
            (s.Again? ==> Fine(items, boundary, s.p, k, 0, more) &&
                          if k < |items| then s.p.phase.Entry? && OnTheWay(items, boundary, s.p, k, 0, more) else s.p.valid)
  {
    hide Delivered, EntryText;
    TailLong(items, k, boundary);
    if |p.rest| >= 2 {
      assert (p.rest + more)[..2] == p.rest[..2];
      if k == |items| {
        CloseGood(items, boundary, p, more);
      } else {
        assert p.rest[..2] == Crlf();
        assert Crlf() <= p.rest;
        DropTwo(p.rest, more, EntryText(items, k, boundary));
      }
    }
  }

  lemma CloseGood(items: seq<Item>, boundary: string, p: Parser, more: string)
    requires |p.rest| >= 2 && p.rest + more == Dashes() + Crlf()
    ensures Dashes() <= p.rest && !(Crlf() <= p.rest) && exists i :: 0 <= i <= 2 && [] + more == Crlf()[i..]
  {
    assert (p.rest + more)[..2] == p.rest[..2] == Dashes();
    assert p.rest[0] == p.rest[..2][0] == '-';
    var i := |p.rest| - 2;
    assert (p.rest + more)[|p.rest|..] == more;
    assert (Dashes() + Crlf())[|p.rest|..] == Crlf()[i..];
    assert [] + more == more;
  }

  // ---------- whole fragments ----------

  lemma StepGood(items: seq<Item>, boundary: string, accepts: Receiver, p: Parser, k: nat, n: nat, more: string)
    returns (j: nat, m: nat)
    requires ItemsOk(items, boundary) && '\r' !in boundary && OnTheWay(items, boundary, p, k, n, more)
    requires RoomAt(items, p, k, n, more) && forall log :: accepts(log)
    ensures var s := StepOf(boundary, accepts, p);
            Fine(items, boundary, s.p, j, m, more) &&
            if s.Return? then s.ok && more != [] && OnTheWay(items, boundary, s.p, j, m, more) && Waits(boundary, s.p)
            else Leads(items, p, k, s.p, j, m) && (k < |items| ==> OnTheWay(items, boundary, s.p, j, m, more))
  {
    hide OnTheWay, HeadersStep, BodyStep, BoundaryStep, Finished, ItemsOk;
    j, m := k, 0;
    match p.phase
    case Entry =>
      EntryAtStart(items, boundary, p, k, n, more);
      EntryGood(items, boundary, accepts, p, k, more);
    case Headers => m := HeadersGood(items, boundary, accepts, p, k, n, more);
    case Body => j, m := BodyGood(items, boundary, accepts, p, k, n, more);
    case Boundary => BoundaryGood(items, boundary, p, k, n, more);
    case Opening =>
      NeverOpening(items, boundary, p, k, n, more);
      assert false;
  }

  lemma EntryAtStart(items: seq<Item>, boundary: string, p: Parser, k: nat, n: nat, more: string)
    requires p.phase.Entry? && OnTheWay(items, boundary, p, k, n, more)
    ensures OnTheWay(items, boundary, p, k, 0, more)
  {
  }

  lemma NeverOpening(items: seq<Item>, boundary: string, p: Parser, k: nat, n: nat, more: string)
    requires OnTheWay(items, boundary, p, k, n, more)
    ensures !p.phase.Opening?
  {
  }

  /** All lines are short, or all that is left is in sight and no entry's first line, which alone is then measured, is
      longer than the limit. */
  ghost predicate Room(items: seq<Item>, p: Parser, n: nat, more: string)
  {
    AllShort(items) || (more == [] && FirstLinesFit(items) && (p.phase.Headers? ==> n == 0))
  }

  predicate FirstLinesFit(items: seq<Item>)
  {
    forall i :: 0 <= i < |items| ==> |DispositionLine(items[i].file)| <= HEADER_MAX_LENGTH
  }

  lemma RoomHere(items: seq<Item>, p: Parser, k: nat, n: nat, more: string)
    requires Room(items, p, n, more)
    ensures RoomAt(items, p, k, n, more)
  {
    hide DispositionLine, TypeLine;
  }

  lemma RoomNext(items: seq<Item>, boundary: string, p: Parser, k: nat, n: nat, q: Parser, j: nat, m: nat, more: string)
    requires Room(items, p, n, more) && OnTheWay(items, boundary, p, k, n, more)
    requires Fine(items, boundary, q, j, m, more) && Leads(items, p, k, q, j, m)
    ensures Finished(items, q, more) || Room(items, q, m, more)
  {
    hide AllShort, FirstLinesFit, EntryText, ContentText, Tail, AfterLines, Delivered, Finished;
  }

  /** On the way, the loop ends on the way with more to come, or finished. */
  lemma {:induction false} LoopGood(items: seq<Item>, boundary: string, accepts: Receiver, p: Parser, k: nat, n: nat, more: string)
    returns (j: nat, m: nat)
    requires ItemsOk(items, boundary) && '\r' !in boundary && Fine(items, boundary, p, k, n, more)
    requires (Finished(items, p, more) || Room(items, p, n, more)) && forall log :: accepts(log)
    ensures var (q, ok) := Loop(boundary, accepts, p);
            ok && Fine(items, boundary, q, j, m, more) && (more == [] ==> Finished(items, q, more)) &&
            (Finished(items, q, more) || q.rest == [] || Waits(boundary, q))
    decreases Left(p).0, Left(p).1
  {
    hide OnTheWay, StepOf, Finished, ItemsOk, Room, RoomAt, Waits, Leads;
    j, m := k, n;
    if Finished(items, p, more) {
      FinishedLoop(items, boundary, accepts, p, more);
    } else {
      Nonempty(items, boundary, p, k, n, more);
      if p.rest == [] {
        assert [] + more == more;
      } else {
        RoomHere(items, p, k, n, more);
        j, m := StepGood(items, boundary, accepts, p, k, n, more);
        var s := StepOf(boundary, accepts, p);
        if s.Again? {
          StepShrinks(boundary, accepts, p);
          RoomNext(items, boundary, p, k, n, s.p, j, m, more);
          j, m := LoopGood(items, boundary, accepts, s.p, j, m, more);
        }
      }
    }
  }

  /** Once finished, the line end behind the closing boundary changes nothing. */
  lemma FinishedLoop(items: seq<Item>, boundary: string, accepts: Receiver, p: Parser, more: string)
    requires Finished(items, p, more)
    ensures var (q, ok) := Loop(boundary, accepts, p); ok && Finished(items, q, more)
  {
    hide Delivered, Find, StepOf;
    if p.rest != [] {
      LineEnd(items, p, more);
      OnlyBoundaryStep(boundary, accepts, p);
      if |p.rest| >= 2 {
        var q := p.(rest := [], phase := Entry);
        assert q.rest + more == [];
        assert Loop(boundary, accepts, q) == (q, true);
      }
    }
  }

  /** What is left of the line end, cut anywhere. */
  lemma LineEnd(items: seq<Item>, p: Parser, more: string)
    requires Finished(items, p, more) && p.rest != []
    ensures p.phase.Boundary? && (|p.rest| >= 2 ==> p.rest == Crlf() && more == [])
  {
    hide Delivered;
    var i :| 0 <= i <= 2 && p.rest + more == Crlf()[i..];
    if |p.rest| >= 2 {
      TwoLeft(p.rest, more, i);
    }
  }

  lemma TwoLeft(rest: string, more: string, i: nat)
    requires i <= 2 <= |rest| && rest + more == Crlf()[i..]
    ensures rest == Crlf() && more == []
  {
    var both := rest + more;
    assert |both| == |rest| + |more| == 2 - i;
    assert i == 0 && more == [];
    assert both == rest && Crlf()[0..] == Crlf();
  }

  lemma OnlyBoundaryStep(boundary: string, accepts: Receiver, p: Parser)
    requires p.phase.Boundary? && (|p.rest| >= 2 ==> p.rest == Crlf())
    ensures StepOf(boundary, accepts, p) == if |p.rest| < 2 then Return(p, true) else Again(p.(rest := [], phase := Entry))
  {
    assert |p.rest| >= 2 ==> p.rest[2..] == [];
  }

  lemma MoreInBuffer(items: seq<Item>, boundary: string, p: Parser, k: nat, n: nat, fragment: string, more: string)
    requires Fine(items, boundary, p, k, n, fragment + more)
    ensures Fine(items, boundary, p.(rest := p.rest + fragment), k, n, more)
  {
    hide Delivered, AfterLines, Lines, Block, EntryText, ContentText, Tail;
    assert p.rest + (fragment + more) == p.rest + fragment + more;
  }

  lemma {:induction false} FragmentsGood(items: seq<Item>, boundary: string, accepts: Receiver, p: Parser, k: nat, n: nat,
      fragments: seq<string>)
    requires ItemsOk(items, boundary) && '\r' !in boundary && Fine(items, boundary, p, k, n, Concat(fragments))
    requires AllShort(items) && forall log :: accepts(log)
    requires fragments == [] ==> Finished(items, p, [])
    ensures var (q, ok) := ParseAll(boundary, accepts, p, fragments); ok && q.valid && Delivered(q.log) == items
    decreases |fragments|
  {
    hide OnTheWay, Finished, Loop, Delivered, ItemsOk, Fine, AllShort, Waits;
    if fragments == [] {
      FinishedMeans(items, p, []);
    } else {
      MoreInBuffer(items, boundary, p, k, n, fragments[0], Concat(fragments[1..]));
      var j, m := LoopGood(items, boundary, accepts, p.(rest := p.rest + fragments[0]), k, n, Concat(fragments[1..]));
      var q := Parse(boundary, accepts, p, fragments[0]).0;
      FragmentsGood(items, boundary, accepts, q, j, m, fragments[1..]);
    }
  }

  lemma FinishedMeans(items: seq<Item>, p: Parser, more: string)
    requires Finished(items, p, more)
    ensures p.valid && Delivered(p.log) == items
  {
  }

  // ---------- the whole body ----------

  /** The body is the opening boundary and what follows it. */
  lemma {:induction false} EntriesAre(items: seq<Item>, k: nat, boundary: string)
    requires k <= |items|
    ensures Entries(items[..k], boundary) + (Dashes() + boundary + Tail(items, k, boundary))
         == Dashes() + boundary + Tail(items, 0, boundary)
    decreases k
  {
    hide Lines, Delimiter, Finish, Block;
    if k == 0 {
      assert Entries(items[..0], boundary) == [];
    } else {
      EntriesAre(items, k - 1, boundary);
      assert items[..k][..k - 1] == items[..k - 1];
      var d := Dashes() + boundary;
      var begin := ItemBegin(items[k - 1], boundary);
      var c := items[k - 1].content;
      OneEntry(items, k - 1, boundary);
      Shift(Entries(items[..k - 1], boundary), begin, c, d, Tail(items, k, boundary));
    }
  }

  lemma Shift(e: string, begin: string, c: string, d: string, z: string)
    ensures e + (begin + (c + Crlf())) + (d + z) == e + (begin + (c + (Crlf() + (d + z))))
  {
  }

  lemma OneEntry(items: seq<Item>, k: nat, boundary: string)
    requires k < |items|
    ensures var d := Dashes() + boundary;
            ItemBegin(items[k], boundary) + (items[k].content + (Crlf() + (d + Tail(items, k + 1, boundary))))
            == d + Tail(items, k, boundary)
  {
    hide Lines, Block, Tail;
    var d, z, c := Dashes() + boundary, Tail(items, k + 1, boundary), items[k].content;
    TailIs(items, k, boundary);
    var b := Block(Lines(items[k].file));
    assert OpeningLine(boundary) == d + Crlf();
    Regroup(d, b, c, z);
  }

  lemma Regroup(d: string, b: string, c: string, z: string)
    ensures d + Crlf() + b + Crlf() + (c + (Crlf() + (d + z))) == d + (Crlf() + (b + (Crlf() + (c + (Crlf() + d + z)))))
  {
  }

  lemma TailIs(items: seq<Item>, k: nat, boundary: string)
    requires k < |items|
    ensures var d, z := Dashes() + boundary, Tail(items, k + 1, boundary);
            Tail(items, k, boundary)
            == Crlf() + (Block(Lines(items[k].file)) + (Crlf() + (items[k].content + (Crlf() + d + z))))
  {
    hide Lines, Block;
    var d, z := Dashes() + boundary, Tail(items, k + 1, boundary);
    assert Tail(items, k, boundary) == Crlf() + EntryText(items, k, boundary);
    assert EntryText(items, k, boundary) == Block(Lines(items[k].file)) + (Crlf() + ContentText(items, k, 0, boundary));
    assert ContentText(items, k, 0, boundary) == items[k].content[0..] + (Delimiter(boundary) + z);
    assert Delimiter(boundary) == Crlf() + d;
    assert items[k].content[0..] == items[k].content;
  }

  lemma BodyIs(items: seq<Item>, boundary: string)
    ensures Serialized(items, boundary, true) == Dashes() + boundary + Tail(items, 0, boundary)
  {
    hide Entries;
    EntriesAre(items, |items|, boundary);
    assert items[..|items|] == items;
    assert Finish(boundary) == Dashes() + boundary + Tail(items, |items|, boundary);
  }

  /** The first fragment holds the opening line: the parser is on its way. */
  lemma OpeningGood(items: seq<Item>, boundary: string, accepts: Receiver, first: string, more: string)
    requires items != [] && '\r' !in boundary && |first| >= |OpeningLine(boundary)|
    requires first + more == Serialized(items, boundary, true)
    ensures var s := OpeningStep(boundary, Start().(rest := first));
            s.Again? && OnTheWay(items, boundary, s.p, 0, 0, more)
  {
    hide Serialized, Find, EntryText, Lines, Block;
    BodyIs(items, boundary);
    var line := OpeningLine(boundary);
    var z := EntryText(items, 0, boundary);
    assert first + more == line + z by {
      assert Dashes() + boundary + (Crlf() + z) == line + z;
    }
    assert first[..|line|] == line && first[|line|..] + more == z by {
      assert (first + more)[..|line|] == first[..|line|] && (first + more)[|line|..] == first[|line|..] + more;
      assert (line + z)[..|line|] == line && (line + z)[|line|..] == z;
    }
    assert line <= first;
    assert first[0..] == first;
    FindUnique(first, line, 0);
    assert items[..0] == [];
  }

  /** A cut of the written body that leaves the opening line whole. */
  ghost predicate Cut(items: seq<Item>, boundary: string, fragments: seq<string>)
  {
    Concat(fragments) == Serialized(items, boundary, true) && fragments != [] && |fragments[0]| >= |OpeningLine(boundary)|
  }

  /** Every fragment is accepted, the body is valid, and the receiver is given exactly the items. */
  ghost predicate Succeeds(items: seq<Item>, boundary: string, accepts: Receiver, fragments: seq<string>)
  {
    var (q, ok) := ParseAll(boundary, accepts, Start(), fragments); ok && q.valid && Delivered(q.log) == items
  }

  /** The parser undoes the writer: for every non-empty list of acceptable items whose header lines are below the limit,
      however the body is cut into fragments, provided the first holds the whole opening line, the receiver is given
      exactly the items and the body is valid. */
  lemma MultipartRoundTrip(items: seq<Item>, boundary: string, accepts: Receiver, fragments: seq<string>)
    requires items != [] && ItemsOk(items, boundary) && '\r' !in boundary && forall log :: accepts(log)
    requires Cut(items, boundary, fragments) && AllShort(items)
    ensures Succeeds(items, boundary, accepts, fragments)
  {
    hide OnTheWay, Finished, Delivered, ItemsOk, Serialized, StepOf, OpeningStep, AllShort, Waits;
    var more := Concat(fragments[1..]);
    OpeningGood(items, boundary, accepts, fragments[0], more);
    var p := Start().(rest := fragments[0]);
    var s := OpeningStep(boundary, p);
    assert Start().rest + fragments[0] == fragments[0];
    assert StepOf(boundary, accepts, p) == s by {
      OpeningFirst(boundary, accepts, p);
    }
    StepShrinks(boundary, accepts, p);
    var j, m := LoopGood(items, boundary, accepts, s.p, 0, 0, more);
    FragmentsGood(items, boundary, accepts, Parse(boundary, accepts, Start(), fragments[0]).0, j, m, fragments[1..]);
  }

  lemma OpeningFirst(boundary: string, accepts: Receiver, p: Parser)
    requires p.phase.Opening?
    ensures StepOf(boundary, accepts, p) == OpeningStep(boundary, p)
  {
  }

  // ---------- where the round trip ends ----------

  /** The bytes a parser must have consumed to be where it is. */
  function Used(boundary: string, p: Parser): nat
  {
    if p.valid then 2 * |boundary| + 12
    else
      match p.phase
      case Opening => 0
      case Entry => |boundary| + 4
      case Headers => |boundary| + 4
      case Body => |boundary| + 6
      case Boundary => 2 * |boundary| + 10
  }

  lemma {:induction false} FieldsUse(boundary: string, accepts: Receiver, p: Parser)
    requires p.phase.Headers?
    ensures var q := FieldsStep(accepts, p).p; Used(boundary, q) + |q.rest| <= Used(boundary, p) + |p.rest|
    decreases |p.rest|
  {
    hide HeaderField;
    var pos := Find(p.rest, Crlf());
    if 0 < pos < |p.rest| && TakeField(p, pos).1 {
      FieldsUse(boundary, accepts, TakeField(p, pos).0);
    }
  }

  lemma StepUses(boundary: string, accepts: Receiver, p: Parser)
    ensures var q := StepOf(boundary, accepts, p).p; Used(boundary, q) + |q.rest| <= Used(boundary, p) + |p.rest|
  {
    hide FieldsStep;
    if p.phase.Headers? {
      FieldsUse(boundary, accepts, p);
    } else if p.phase.Body? {
      var d := Delimiter(boundary);
      assert |d| == |boundary| + 4;
      assert Find(p.rest, d) < |p.rest| ==> Find(p.rest, d) + |d| <= |p.rest|;
    }
  }

  lemma {:induction false} LoopUses(boundary: string, accepts: Receiver, p: Parser)
    ensures var q := Loop(boundary, accepts, p).0; Used(boundary, q) + |q.rest| <= Used(boundary, p) + |p.rest|
    decreases Left(p).0, Left(p).1
  {
    hide StepOf, Used;
    if p.rest != [] {
      StepUses(boundary, accepts, p);
      var s := StepOf(boundary, accepts, p);
      if s.Again? {
        StepShrinks(boundary, accepts, p);
        LoopUses(boundary, accepts, s.p);
      }
    }
  }

  lemma {:induction false} FragmentsUse(boundary: string, accepts: Receiver, p: Parser, fragments: seq<string>)
    ensures var q := ParseAll(boundary, accepts, p, fragments).0;
            Used(boundary, q) <= Used(boundary, p) + |p.rest| + |Concat(fragments)|
    decreases |fragments|
  {
    hide Loop, Used;
    if fragments != [] {
      LoopUses(boundary, accepts, p.(rest := p.rest + fragments[0]));
      UsedIgnoresRest(boundary, p, p.rest + fragments[0]);
      if Parse(boundary, accepts, p, fragments[0]).1 {
        FragmentsUse(boundary, accepts, Parse(boundary, accepts, p, fragments[0]).0, fragments[1..]);
      }
    }
  }

  lemma UsedIgnoresRest(boundary: string, p: Parser, rest: string)
    ensures Used(boundary, p.(rest := rest)) == Used(boundary, p)
  {
  }

  /** No body too short for an opening line, an empty line, a delimiter and two dashes is valid, whatever it holds. */
  lemma ShortBodyRefused(boundary: string, accepts: Receiver, fragments: seq<string>)
    requires |Concat(fragments)| < 2 * |boundary| + 12
    ensures !ParseAll(boundary, accepts, Start(), fragments).0.valid
  {
    hide ParseAll;
    FragmentsUse(boundary, accepts, Start(), fragments);
  }

  /** The written body of acceptable items is valid exactly if there is an item: a body without items is refused. */
  lemma ValidExactly(items: seq<Item>, boundary: string, accepts: Receiver, fragments: seq<string>)
    requires ItemsOk(items, boundary) && '\r' !in boundary && forall log :: accepts(log)
    requires Cut(items, boundary, fragments) && AllShort(items)
    ensures ParseAll(boundary, accepts, Start(), fragments).0.valid <==> items != []
  {
    hide ItemsOk, ParseAll, AllShort;
    if items == [] {
      assert Serialized(items, boundary, true) == [] + Finish(boundary);
      ShortBodyRefused(boundary, accepts, fragments);
    } else {
      hide Serialized;
      MultipartRoundTrip(items, boundary, accepts, fragments);
    }
  }

  /** A first fragment that breaks off inside the opening line is thrown away: the parser goes on as if it had not come. */
  lemma BrokenOpeningIsLost(boundary: string, accepts: Receiver, first: string, fragments: seq<string>)
    requires first < OpeningLine(boundary)
    ensures ParseAll(boundary, accepts, Start(), [first] + fragments) == ParseAll(boundary, accepts, Start(), fragments)
  {
    hide Find, At, FieldsStep, BodyStep, BoundaryStep;
    var p := Start().(rest := Start().rest + first);
    assert p.rest == first;
    NothingFound(first, OpeningLine(boundary));
    assert first[|first|..] == [];
    assert Loop(boundary, accepts, p) == (Start(), true);
    assert ([first] + fragments)[1..] == fragments;
  }

  lemma NothingFound(s: string, pattern: string)
    requires |s| < |pattern|
    ensures Find(s, pattern) == |s|
  {
    FindUnique(s, pattern, |s|);
  }
}
