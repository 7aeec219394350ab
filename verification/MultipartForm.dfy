/** The incremental multipart parser as a function of its state and the next fragment of the body. */
module MultipartForm {
  import opened Basics
  import opened HttpText
  import opened UrlCoding
  import opened QueryString

  datatype File = File(name: string, filename: string, contentType: string)

  /** What the parser reports: the header of an entry, then its content bit by bit. */
  datatype Event = Header(file: File) | Content(text: string)

  /** The receiver sees what was reported so far, the new report last, and may refuse to go on. */
  type Receiver = seq<Event> -> bool

  datatype Phase = Opening | Entry | Headers | Body | Boundary

  datatype Parser = Parser(phase: Phase, valid: bool, file: File, rest: string, log: seq<Event>)

  function Dashes(): string { "--" }

  function OpeningLine(boundary: string): string { Dashes() + boundary + Crlf() }

  function Delimiter(boundary: string): string { Crlf() + Dashes() + boundary }

  // ---------- header lines ----------

  function TypeTag(): string { "content-type:" }

  function DispositionTag(): string { "content-disposition:" }

  function FormDataTag(): string { "form-data;" }

  function Utf8Tag(): string { "utf-8''" }

  function SkipSpaces(s: string): string
  {
    if s != [] && IsSpace(s[0]) then SkipSpaces(s[1..]) else s
  }

  /** Matched by the dot of a regular expression throughout. */
  predicate OneLine(s: string)
  {
    '\r' !in s && '\n' !in s
  }

  /** The parameters of a form-data disposition header. */
  function Disposition(header: string): Option<string>
  {
    if !StartsIgnoringCase(header, DispositionTag()) then None
    else
      var a := SkipSpaces(header[|DispositionTag()|..]);
      if !StartsIgnoringCase(a, FormDataTag()) then None
      else
        var b := SkipSpaces(a[|FormDataTag()|..]);
        if OneLine(b) then Some(b) else None
  }

  /** The first value stored under a key. */
  function Lookup(params: Params, key: string): Option<string>
  {
    if params == [] then None else if params[0].0 == key then Some(params[0].1) else Lookup(params[1..], key)
  }

  /** The text of an extended parameter value; only UTF-8 is allowed. */
  function Extended(value: string): Option<string>
  {
    if StartsIgnoringCase(value, Utf8Tag()) && |value| > |Utf8Tag()| && OneLine(value[|Utf8Tag()|..])
    then Some(Decoded(value[|Utf8Tag()|..], false))
    else None
  }

  function WithNames(file: File, params: Params): (File, bool)
  {
    var name := Lookup(params, "name");
    if name.None? then (file, false)
    else
      var f1 := file.(name := name.value);
      var filename := Lookup(params, "filename");
      var f2 := if filename.Some? then f1.(filename := filename.value) else f1;
      var star := Lookup(params, "filename*");
      if star.None? then (f2, true)
      else
        var e := Extended(star.value);
        if e.Some? then (f2.(filename := e.value), true) else (f2, false)
  }

  /** What one header line tells about the entry, and whether it is acceptable. */
  function HeaderField(file: File, header: string): (File, bool)
  {
    if StartsIgnoringCase(header, TypeTag()) then
      (file.(contentType := TrimBlanks(header[|TypeTag()|..])), true)
    else
      var d := Disposition(header);
      if d.None? then (file, false) else WithNames(file, ParsedPairs(d.value, ';', Quotes))
  }

  // ---------- steps ----------

  /** One round of the loop: go round again, or return. */
  datatype Step = Again(p: Parser) | Return(p: Parser, ok: bool)

  function NoFile(): File
  {
    File([], [], [])
  }

  function OpeningStep(boundary: string, p: Parser): Step
  {
    var line := OpeningLine(boundary);
    var rest := p.rest[Find(p.rest, line)..];
    if |line| > |rest| then Return(p.(rest := rest), true)
    else if !(line <= rest) then Return(p.(rest := rest), false)
    else Again(p.(rest := rest[|line|..], phase := Entry))
  }

  /** The empty line: the header is complete. */
  function EntryDone(accepts: Receiver, p: Parser): Step
    requires |p.rest| >= 2
  {
    var q := p.(log := p.log + [Header(p.file)]);
    if !accepts(q.log) then Return(q.(valid := false), false) else Again(q.(rest := p.rest[2..], phase := Body))
  }

  /** A header line of `pos` bytes. */
  function TakeField(p: Parser, pos: nat): (Parser, bool)
    requires pos + 2 <= |p.rest|
  {
    var (file, ok) := HeaderField(p.file, p.rest[..pos]);
    if ok then (p.(file := file, rest := p.rest[pos + 2..]), true) else (p.(file := file, valid := false), false)
  }

  function FieldsStep(accepts: Receiver, p: Parser): Step
    decreases |p.rest|
  {
    var pos := Find(p.rest, Crlf());
    if pos == |p.rest| then Return(p, true)
    else if pos == 0 then EntryDone(accepts, p)
    else
      var (q, ok) := TakeField(p, pos);
      if ok then FieldsStep(accepts, q) else Return(q, false)
  }

  function HeadersStep(accepts: Receiver, p: Parser): Step
  {
    if Find(p.rest, Crlf()) > HEADER_MAX_LENGTH then Return(p, false) else FieldsStep(accepts, p)
  }

  /** The delimiter is in sight: the last part of the content. */
  function LastContent(delimiter: string, accepts: Receiver, p: Parser, pos: nat): Step
    requires pos + |delimiter| <= |p.rest|
  {
    var q := p.(log := p.log + [Content(p.rest[..pos])]);
    if !accepts(q.log) then Return(q.(valid := false), false)
    else Again(q.(rest := p.rest[pos + |delimiter|..], phase := Boundary))
  }

  /** No delimiter in sight: all but as many bytes as could be the start of one. */
  function SomeContent(accepts: Receiver, p: Parser, len: nat): Step
    requires len <= |p.rest|
  {
    if len == 0 then Return(p, true)
    else
      var q := p.(log := p.log + [Content(p.rest[..len])]);
      if !accepts(q.log) then Return(q.(valid := false), false) else Return(q.(rest := p.rest[len..]), true)
  }

  function BodyStep(boundary: string, accepts: Receiver, p: Parser): Step
  {
    var delimiter := Delimiter(boundary);
    if |delimiter| > |p.rest| then Return(p, true)
    else
      var pos := Find(p.rest, delimiter);
      if pos < |p.rest| then LastContent(delimiter, accepts, p, pos)
      else SomeContent(accepts, p, |p.rest| - |delimiter|)
  }

  function BoundaryStep(p: Parser): Step
  {
    if |p.rest| < 2 then Return(p, true)
    else if Crlf() <= p.rest then Again(p.(rest := p.rest[2..], phase := Entry))
    else if Dashes() <= p.rest then Again(p.(valid := true, rest := []))
    else Return(p, true)
  }

  function StepOf(boundary: string, accepts: Receiver, p: Parser): Step
  {
    match p.phase
    case Opening => OpeningStep(boundary, p)
    case Entry => Again(p.(file := NoFile(), phase := Headers))
    case Headers => HeadersStep(accepts, p)
    case Body => BodyStep(boundary, accepts, p)
    case Boundary => BoundaryStep(p)
  }

  /** What makes the loop end: the bytes left, and the phase where none is consumed. */
  function Left(p: Parser): (nat, nat)
  {
    (|p.rest|, if p.phase.Entry? then 1 else 0)
  }

  lemma {:induction false} FieldsShrink(accepts: Receiver, p: Parser)
    ensures FieldsStep(accepts, p).Again? ==> |FieldsStep(accepts, p).p.rest| < |p.rest|
    decreases |p.rest|
  {
    hide HeaderField;
    var pos := Find(p.rest, Crlf());
    if 0 < pos < |p.rest| {
      if TakeField(p, pos).1 {
        FieldsShrink(accepts, TakeField(p, pos).0);
      }
    }
  }

  lemma StepShrinks(boundary: string, accepts: Receiver, p: Parser)
    requires p.rest != [] && StepOf(boundary, accepts, p).Again?
    ensures var q := StepOf(boundary, accepts, p).p;
            Left(q).0 < Left(p).0 || (Left(q).0 == Left(p).0 && Left(q).1 < Left(p).1)
  {
    hide FieldsStep;
    FieldsShrink(accepts, p);
  }

  function Loop(boundary: string, accepts: Receiver, p: Parser): (Parser, bool)
    decreases Left(p).0, Left(p).1
  {
    if p.rest == [] then (p, true)
    else
      match StepOf(boundary, accepts, p)
      case Return(q, ok) => (q, ok)
      case Again(q) => StepShrinks(boundary, accepts, p); Loop(boundary, accepts, q)
  }

  /** Parsing one more fragment. */
  function Parse(boundary: string, accepts: Receiver, p: Parser, fragment: string): (Parser, bool)
  {
    Loop(boundary, accepts, p.(rest := p.rest + fragment))
  }

  function Start(): Parser
  {
    Parser(Opening, false, NoFile(), [], [])
  }

  /** The fragments of a body, one after the other, until one is refused. */
  function ParseAll(boundary: string, accepts: Receiver, p: Parser, fragments: seq<string>): (Parser, bool)
    decreases |fragments|
  {
    if fragments == [] then (p, true)
    else
      var (q, ok) := Parse(boundary, accepts, p, fragments[0]);
      if ok then ParseAll(boundary, accepts, q, fragments[1..]) else (q, false)
  }
  // ---------- what the receiver hears ----------

  /** Between p and q reports only come behind those that were accepted; one that was refused is the last, and the body is
      refused. */
  ghost predicate Heard(accepts: Receiver, p: Parser, q: Parser, ok: bool)
  {
    p.log <= q.log && (forall n :: |p.log| < n < |q.log| ==> accepts(q.log[..n])) &&
    (p.log != q.log && !accepts(q.log) ==> !ok && !q.valid)
  }

  lemma OneReport(accepts: Receiver, p: Parser, e: Event, q: Parser, ok: bool)
    requires q.log == p.log + [e] && (!accepts(q.log) ==> !ok && !q.valid)
    ensures Heard(accepts, p, q, ok)
  {
  }

  lemma NoReport(accepts: Receiver, p: Parser, q: Parser, ok: bool)
    requires q.log == p.log
    ensures Heard(accepts, p, q, ok)
  {
  }

  lemma HeardOn(accepts: Receiver, p: Parser, q: Parser, r: Parser, ok: bool)
    requires Heard(accepts, p, q, true) && Heard(accepts, q, r, ok)
    ensures Heard(accepts, p, r, ok)
  {
    forall n | |p.log| < n < |r.log|
      ensures accepts(r.log[..n])
    {
      assert n <= |q.log| ==> r.log[..n] == q.log[..n];
      assert q.log[..|q.log|] == q.log;
    }
  }

  lemma {:induction false} FieldsHeard(accepts: Receiver, p: Parser)
    ensures var s := FieldsStep(accepts, p); Heard(accepts, p, s.p, s.Again? || s.ok)
    decreases |p.rest|
  {
    hide HeaderField;
    var pos := Find(p.rest, Crlf());
    if pos == |p.rest| {
      NoReport(accepts, p, p, true);
    } else if pos == 0 {
      var s := EntryDone(accepts, p);
      OneReport(accepts, p, Header(p.file), s.p, s.Again? || s.ok);
    } else {
      var (q, ok) := TakeField(p, pos);
      NoReport(accepts, p, q, ok);
      if ok {
        FieldsHeard(accepts, q);
      }
    }
  }

  lemma BodyHeard(boundary: string, accepts: Receiver, p: Parser)
    ensures var s := BodyStep(boundary, accepts, p); Heard(accepts, p, s.p, s.Again? || s.ok)
  {
    hide Heard, Delimiter;
    var s := BodyStep(boundary, accepts, p);
    var pos := Find(p.rest, Delimiter(boundary));
    if s.p.log == p.log {
      NoReport(accepts, p, s.p, s.Again? || s.ok);
    } else {
      OneReport(accepts, p, s.p.log[|p.log|], s.p, s.Again? || s.ok);
    }
  }

  lemma StepHeard(boundary: string, accepts: Receiver, p: Parser)
    ensures var s := StepOf(boundary, accepts, p); Heard(accepts, p, s.p, s.Again? || s.ok)
  {
    hide Heard, FieldsStep, BodyStep;
    var s := StepOf(boundary, accepts, p);
    if p.phase.Body? {
      BodyHeard(boundary, accepts, p);
    } else if p.phase.Headers? && s == FieldsStep(accepts, p) {
      FieldsHeard(accepts, p);
    } else {
      NoReport(accepts, p, s.p, s.Again? || s.ok);
    }
  }

  lemma {:induction false} LoopHeard(boundary: string, accepts: Receiver, p: Parser)
    ensures var (q, ok) := Loop(boundary, accepts, p); Heard(accepts, p, q, ok)
    decreases Left(p).0, Left(p).1
  {
    hide Heard, StepOf;
    if p.rest == [] {
      NoReport(accepts, p, p, true);
    } else {
      StepHeard(boundary, accepts, p);
      var s := StepOf(boundary, accepts, p);
      if s.Again? {
        StepShrinks(boundary, accepts, p);
        LoopHeard(boundary, accepts, s.p);
        var (q, ok) := Loop(boundary, accepts, s.p);
        HeardOn(accepts, p, s.p, q, ok);
      }
    }
  }

  /** Under every cut of every body the receiver is asked after each report, nothing is reported behind one that it
      refused, and a body of which it refused a report is refused. */
  lemma {:induction false} RefusalStops(boundary: string, accepts: Receiver, p: Parser, fragments: seq<string>)
    ensures var (q, ok) := ParseAll(boundary, accepts, p, fragments); Heard(accepts, p, q, ok)
    decreases |fragments|
  {
    hide Heard, Loop;
    if fragments == [] {
      NoReport(accepts, p, p, true);
    } else {
      var start := p.(rest := p.rest + fragments[0]);
      LoopHeard(boundary, accepts, start);
      var (q, ok) := Parse(boundary, accepts, p, fragments[0]);
      SameLog(accepts, start, p, q, ok);
      if ok {
        RefusalStops(boundary, accepts, q, fragments[1..]);
        var (r, last) := ParseAll(boundary, accepts, q, fragments[1..]);
        HeardOn(accepts, p, q, r, last);
      }
    }
  }

  lemma SameLog(accepts: Receiver, p: Parser, p2: Parser, q: Parser, ok: bool)
    requires p.log == p2.log && Heard(accepts, p, q, ok)
    ensures Heard(accepts, p2, q, ok)
  {
  }
}
