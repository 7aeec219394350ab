/** Printing form data as a multipart body, and what the printed header lines mean to the parser. */
module MultipartWriter {
  import opened Basics
  import opened HttpText
  import opened QueryString
  import opened MultipartForm

  datatype Item = Item(file: File, content: string)

  function Quoted(s: string): string { "\"" + s + "\"" }

  function NameParam(name: string): string { "name" + ['='] + Quoted(name) }

  function FilenameParam(filename: string): string { "filename" + ['='] + Quoted(filename) }

  function Names(file: File): string
  {
    if file.filename == [] then NameParam(file.name)
    else NameParam(file.name) + [';'] + (" " + FilenameParam(file.filename))
  }

  function DispositionName(): string { "Content-Disposition:" }

  function TypeName(): string { "Content-Type:" }

  function DispositionLine(file: File): string
  {
    DispositionName() + (" " + (FormDataTag() + (" " + Names(file))))
  }

  function TypeLine(file: File): string
  {
    TypeName() + (" " + file.contentType)
  }

  /** The header lines of an entry. */
  function Lines(file: File): seq<string>
  {
    [DispositionLine(file)] + (if file.contentType == [] then [] else [TypeLine(file)])
  }

  function Block(lines: seq<string>): string
  {
    if lines == [] then [] else lines[0] + (Crlf() + Block(lines[1..]))
  }

  function ItemBegin(item: Item, boundary: string): string
  {
    OpeningLine(boundary) + Block(Lines(item.file)) + Crlf()
  }

  function Finish(boundary: string): string
  {
    Dashes() + boundary + Dashes() + Crlf()
  }

  function Entries(items: seq<Item>, boundary: string): string
  {
    if items == [] then []
    else
      var last := items[|items| - 1];
      Entries(items[..|items| - 1], boundary) + (ItemBegin(last, boundary) + (last.content + Crlf()))
  }

  function Serialized(items: seq<Item>, boundary: string, finish: bool): string
  {
    Entries(items, boundary) + if finish then Finish(boundary) else []
  }

  // ---------- the writer ----------

  method SerializeItemBegin(item: Item, boundary: string) returns (body: string)
    ensures body == ItemBegin(item, boundary)
  {
    body := "--" + boundary + "\r\n";
    ghost var start := body;
    body := body + "Content-Disposition:" + " " + "form-data;" + " ";
    ghost var tagged := body;
    body := body + "name=\"" + item.file.name + "\"";
    if item.file.filename != [] {
      body := body + "; filename=\"" + item.file.filename + "\"";
    }
    NamesText(tagged, item.file);
    DispositionText(start, item.file);
    body := body + "\r\n";
    if item.file.contentType != [] {
      body := body + "Content-Type: " + item.file.contentType + "\r\n";
    }
    BlockText(start, item.file);
    body := body + "\r\n";
  }

  lemma DispositionText(start: string, file: File)
    ensures start + DispositionLine(file) == start + DispositionName() + " " + FormDataTag() + " " + Names(file)
  {
    hide DispositionName, FormDataTag, Names;
    var d, f, n := DispositionName(), FormDataTag(), Names(file);
    assert start + d + " " + f + " " + n == start + (d + (" " + (f + (" " + n))));
  }

  lemma NamesText(start: string, file: File)
    ensures start + Names(file) ==
            var named := start + "name=\"" + file.name + "\"";
            if file.filename == [] then named else named + "; filename=\"" + file.filename + "\""
  {
    var n, f := NameParam(file.name), FilenameParam(file.filename);
    assert n == "name=\"" + (file.name + "\"");
    assert [';'] + (" " + f) == "; filename=\"" + (file.filename + "\"");
    assert start + (n + [';'] + (" " + f)) == start + n + ([';'] + (" " + f));
  }

  lemma BlockText(start: string, file: File)
    ensures start + Block(Lines(file)) ==
            var one := start + DispositionLine(file) + "\r\n";
            if file.contentType == [] then one else one + "Content-Type: " + file.contentType + "\r\n"
  {
    hide DispositionLine;
    var d := DispositionLine(file);
    if file.contentType == [] {
      assert Lines(file) == [d];
      assert Block([d]) == d + ("\r\n" + []);
    } else {
      var t := TypeLine(file);
      assert t == "Content-Type: " + file.contentType;
      assert Lines(file)[1..] == [t];
      assert Block([t]) == t + ("\r\n" + []);
      assert start + (d + ("\r\n" + (t + "\r\n"))) == start + d + "\r\n" + t + "\r\n";
    }
  }

  method SerializeFormdata(items: seq<Item>, boundary: string, finish: bool) returns (body: string)
    ensures body == Serialized(items, boundary, finish)
  {
    hide ItemBegin;
    body := "";
    for i := 0 to |items|
      invariant body == Entries(items[..i], boundary)
    {
      assert items[..i + 1][..i] == items[..i];
      ghost var before := body;
      var begin := SerializeItemBegin(items[i], boundary);
      body := body + begin;
      body := body + items[i].content + "\r\n";
      assert body == before + (begin + (items[i].content + "\r\n"));
    }
    assert items[..|items|] == items;
    if finish {
      body := body + ("--" + boundary + "--\r\n");
      assert "--" + boundary + "--\r\n" == Finish(boundary);
    }
  }

  // ---------- reading one line ----------

  lemma StartsWith(prefix: string, rest: string, tag: string)
    requires SameIgnoringCase(prefix, tag)
    ensures StartsIgnoringCase(prefix + rest, tag) && (prefix + rest)[|tag|..] == rest
  {
    assert (prefix + rest)[..|tag|] == prefix;
  }

  lemma TagNames()
    ensures SameIgnoringCase(DispositionName(), DispositionTag())
    ensures SameIgnoringCase(TypeName(), TypeTag())
    ensures SameIgnoringCase(FormDataTag(), FormDataTag())
  {
  }

  /** A disposition line is not taken for a content type. */
  lemma NotType(rest: string)
    ensures !StartsIgnoringCase(DispositionName() + rest, TypeTag())
  {
    var s := DispositionName() + rest;
    assert DispositionName()[8] == 'D' && TypeTag()[8] == 't';
    assert |TypeTag()| == 13;
    assert s[..13][8] == 'D';
  }

  predicate CleanName(s: string)
  {
    OneLine(s) && ';' !in s && '=' !in s
  }

  lemma SkipOne(s: string)
    requires s != [] && !IsSpace(s[0])
    ensures SkipSpaces(" " + s) == s
  {
    assert (" " + s)[1..] == s;
  }

  lemma FormDataStart(rest: string)
    ensures FormDataTag() + rest != [] && !IsSpace((FormDataTag() + rest)[0])
  {
  }

  lemma NamesStart(file: File)
    requires CleanName(file.name) && CleanName(file.filename)
    ensures Names(file) != [] && !IsSpace(Names(file)[0]) && OneLine(Names(file))
  {
    assert Names(file)[0] == 'n';
  }

  lemma ParametersRead(n: string)
    requires n != [] && !IsSpace(n[0]) && OneLine(n)
    ensures Disposition(DispositionName() + (" " + (FormDataTag() + (" " + n)))) == Some(n)
  {
    hide SkipSpaces, StartsIgnoringCase, SameIgnoringCase, OneLine, DispositionName, DispositionTag, FormDataTag;
    var a := FormDataTag() + (" " + n);
    TagNames();
    StartsWith(DispositionName(), " " + a, DispositionTag());
    FormDataStart(" " + n);
    SkipOne(a);
    StartsWith(FormDataTag(), " " + n, FormDataTag());
    SkipOne(n);
  }

  lemma DispositionRead(file: File)
    requires CleanName(file.name) && CleanName(file.filename)
    ensures Disposition(DispositionLine(file)) == Some(Names(file))
  {
    hide Names, CleanName, OneLine, Disposition;
    NamesStart(file);
    ParametersRead(Names(file));
  }

  /** One parameter: its key, and its value without the quotes. */
  lemma ParamRead(key: string, value: string)
    requires key != [] && Trimmed(key) && key[0] != '"' && ';' !in key && '=' !in key && CleanName(value)
    ensures var s := key + ['='] + Quoted(value);
            s != [] && Trimmed(s) && ';' !in s && KeyValue(s) == (key, Quoted(value)) &&
            DecodePair(KeyValue(s), Quotes) == (key, value)
  {
    hide Pieces, Piece;
    var s := key + ['='] + Quoted(value);
    PiecesJoin(key, '=', Quoted(value));
    PieceOfTrimmed(key);
    PiecesLast(Quoted(value), '=');
    PieceOfTrimmed(Quoted(value));
    assert Pieces(s, '=') == [key, Quoted(value)];
    QuotesComeOff(value);
  }

  lemma NameOnly(name: string)
    requires CleanName(name)
    ensures ParsedPairs(NameParam(name), ';', Quotes) == [("name", name)]
  {
    hide KeyValue, DecodePair, CleanName, Pieces, Piece, Quoted;
    ParamRead("name", name);
    var s := NameParam(name);
    PiecesLast(s, ';');
    PieceOfTrimmed(s);
    PairsOfOne(s);
  }

  lemma PairsOfOne(s: string)
    requires KeyValue(s).0 != []
    ensures Pairs([s]) == [KeyValue(s)]
    ensures Inserted([KeyValue(s)], Quotes) == [DecodePair(KeyValue(s), Quotes)]
  {
    hide KeyValue, DecodePair;
    assert [s][..0] == [];
    assert [KeyValue(s)][..0] == [];
  }

  lemma PairsOfTwo(s: string, t: string)
    requires s != t && KeyValue(s).0 != [] && KeyValue(t).0 != []
    requires !AtMost(DecodePair(KeyValue(s), Quotes).0, DecodePair(KeyValue(t), Quotes).0)
    ensures Inserted(Pairs([s, t]), Quotes) == [DecodePair(KeyValue(t), Quotes), DecodePair(KeyValue(s), Quotes)]
  {
    hide KeyValue, DecodePair, AtMost;
    PairsOfOne(s);
    assert [s, t][..1] == [s];
    assert Pairs([s, t]) == [KeyValue(s), KeyValue(t)];
    assert [KeyValue(s), KeyValue(t)][..1] == [KeyValue(s)];
    InsertBefore(DecodePair(KeyValue(s), Quotes), DecodePair(KeyValue(t), Quotes));
  }

  lemma InsertBefore(a: Pair, b: Pair)
    requires !AtMost(a.0, b.0)
    ensures Emplace([a], b) == [b, a]
  {
    hide AtMost;
    assert [a][..0] == [];
    assert Emplace([], b) == [b];
  }

  lemma NameAndFilename(name: string, filename: string)
    requires CleanName(name) && CleanName(filename)
    ensures ParsedPairs(NameParam(name) + [';'] + (" " + FilenameParam(filename)), ';', Quotes)
         == [("filename", filename), ("name", name)]
  {
    hide KeyValue, DecodePair, CleanName, Pieces, Piece, Quoted, Pairs, Inserted, TrimBlanks;
    var s, t := NameParam(name), FilenameParam(filename);
    ParamRead("name", name);
    ParamRead("filename", filename);
    PiecesJoin(s, ';', " " + t);
    PieceOfTrimmed(s);
    assert ';' !in " " + t;
    PiecesLast(" " + t, ';');
    PieceOfTrimmed(t);
    assert Pieces(s + [';'] + (" " + t), ';') == [s, t];
    assert s[0] != t[0];
    assert !AtMost("name", "filename");
    PairsOfTwo(s, t);
  }

  /** The disposition line gives the entry its names. */
  lemma DispositionMeans(file: File)
    requires CleanName(file.name) && CleanName(file.filename)
    ensures HeaderField(NoFile(), DispositionLine(file)) == (File(file.name, file.filename, []), true)
  {
    hide StartsIgnoringCase, Disposition, Names, WithNames, CleanName, ParsedPairs, DispositionName;
    DispositionRead(file);
    NotType(" " + (FormDataTag() + (" " + Names(file))));
    NamesFound(file);
  }

  lemma NamesFound(file: File)
    requires CleanName(file.name) && CleanName(file.filename)
    ensures WithNames(NoFile(), ParsedPairs(Names(file), ';', Quotes)) == (File(file.name, file.filename, []), true)
  {
    hide CleanName, ParsedPairs, Extended, NameParam, FilenameParam;
    if file.filename == [] {
      NameOnly(file.name);
      LookupOne(("name", file.name));
    } else {
      NameAndFilename(file.name, file.filename);
      LookupTwo(("filename", file.filename), ("name", file.name));
    }
  }

  lemma LookupOne(a: Pair)
    requires a.0 == "name"
    ensures Lookup([a], "name") == Some(a.1) && Lookup([a], "filename") == None && Lookup([a], "filename*") == None
  {
    assert |a.0| == 4 && |"filename"| == 8 && |"filename*"| == 9;
    assert [a][1..] == [];
  }

  lemma LookupTwo(a: Pair, b: Pair)
    requires a.0 == "filename" && b.0 == "name"
    ensures Lookup([a, b], "name") == Some(b.1) && Lookup([a, b], "filename") == Some(a.1)
    ensures Lookup([a, b], "filename*") == None
  {
    assert |b.0| == 4 && |a.0| == 8 && |"filename*"| == 9;
    LookupOne(b);
    assert [a, b][1..] == [b];
  }

  /** The type line gives it its content type. */
  lemma TypeMeans(before: File, file: File)
    requires Trimmed(file.contentType) && file.contentType != []
    ensures HeaderField(before, TypeLine(file)) == (before.(contentType := file.contentType), true)
  {
    hide StartsIgnoringCase, Disposition, WithNames, ParsedPairs, TrimBlanks, TypeTag, TypeName;
    TagNames();
    StartsWith(TypeName(), " " + file.contentType, TypeTag());
    PieceOfTrimmed(file.contentType);
  }
}
