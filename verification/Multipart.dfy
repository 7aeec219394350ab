/** The multipart parser of the server: a sliding window over a buffer that is filled fragment by fragment. */
module Multipart {
  import opened Basics
  import opened HttpText
  import opened UrlCoding
  import opened QueryString
  import opened MultipartForm

  class MultipartFormDataParser {
    var boundary: string
    var dashBoundaryCrlf: string
    var crlfDashBoundary: string
    var phase: Phase
    var isValid: bool
    var file: File
    var buf: array<char>
    var spos: nat
    var epos: nat
    // The callbacks: what they were given so far, and what they answer.
    var log: seq<Event>
    const accepts: Receiver

    ghost predicate Valid()
      reads this
    {
      spos <= epos <= buf.Length &&
      dashBoundaryCrlf == OpeningLine(boundary) && crlfDashBoundary == Delimiter(boundary)
    }

    /** The bytes not yet consumed. */
    ghost function Rest(): string
      requires Valid()
      reads this, buf
    {
      buf[spos..epos]
    }

    ghost function Value(): Parser
      requires Valid()
      reads this, buf
    {
      Parser(phase, isValid, file, Rest(), log)
    }

    constructor (theBoundary: string, receiver: Receiver)
      ensures Valid() && fresh(buf) && Value() == Start() && boundary == theBoundary && accepts == receiver
    {
      boundary := theBoundary;
      dashBoundaryCrlf := Dashes() + theBoundary + Crlf();
      crlfDashBoundary := Crlf() + Dashes() + theBoundary;
      phase := Opening;
      isValid := false;
      file := NoFile();
      buf := new char[0];
      spos, epos := 0, 0;
      log := [];
      accepts := receiver;
    }

    // ---------- buffer ----------

    method BufStartWith(at: nat, s: string) returns (r: bool)
      requires Valid() && spos <= at <= epos
      ensures r <==> At(Rest(), at - spos, s)
    {
      hide OpeningLine, Delimiter;
      ghost var rest, k := Rest(), at - spos;
      if epos - at < |s| {
        return false;
      }
      var i := 0;
      while i < |s|
        invariant 0 <= i <= |s|
        invariant forall j :: 0 <= j < i ==> rest[k + j] == s[j]
      {
        assert buf[at + i] == rest[k + i];
        if buf[at + i] != s[i] {
          Differs(rest, k, s, i);
          return false;
        }
        i := i + 1;
      }
      Agrees(rest, k, s);
      return true;
    }

    lemma Differs(rest: string, k: nat, s: string, i: nat)
      requires i < |s| && k + i < |rest| && rest[k + i] != s[i]
      ensures !At(rest, k, s)
    {
      assert rest[k..][i] == rest[k + i];
    }

    lemma Agrees(rest: string, k: nat, s: string)
      requires k + |s| <= |rest| && forall j :: 0 <= j < |s| ==> rest[k + j] == s[j]
      ensures At(rest, k, s)
    {
    }

    lemma NotHere(rest: string, k: nat, s: string)
      requires s != [] && k < |rest| && rest[k] != s[0]
      ensures !At(rest, k, s)
    {
    }

    method BufFind(s: string) returns (r: nat)
      requires Valid() && s != []
      ensures r == Find(Rest(), s)
    {
      hide OpeningLine, Delimiter, At;
      ghost var rest := Rest();
      var c := s[0];
      var off := spos;
      while off < epos
        invariant spos <= off <= epos
        invariant forall k: nat :: k < off - spos ==> !At(rest, k, s)
      {
        var pos := off;
        while pos < epos && buf[pos] != c
          invariant off <= pos <= epos
          invariant forall k: nat :: k < pos - spos ==> !At(rest, k, s)
        {
          NotHere(rest, pos - spos, s);
          pos := pos + 1;
        }
        if pos == epos {
          FindUnique(rest, s, |rest|);
          return epos - spos;
        }
        if |s| > epos - pos {
          TooLate(rest, pos - spos, s);
          FindUnique(rest, s, |rest|);
          return epos - spos;
        }
        var here := BufStartWith(pos, s);
        if here {
          FindUnique(rest, s, pos - spos);
          return pos - spos;
        }
        off := pos + 1;
      }
      FindUnique(rest, s, |rest|);
      return epos - spos;
    }

    lemma TooLate(rest: string, from: nat, s: string)
      requires from <= |rest| && |s| > |rest| - from
      ensures forall k: nat :: from <= k < |rest| ==> !At(rest, k, s)
    {
    }

    method BufErase(size: nat)
      requires Valid() && size <= |Rest()|
      modifies this`spos
      ensures Valid() && Rest() == old(Rest())[size..]
    {
      spos := spos + size;
    }

    /** Moves the bytes left to the front, makes room and adds the new ones. */
    method BufAppend(data: string)
      requires Valid()
      modifies this`spos, this`epos, this`buf, buf
      ensures Valid() && Rest() == old(Rest()) + data
      ensures buf == old(buf) || fresh(buf)
    {
      hide OpeningLine, Delimiter;
      ToFront();
      MakeRoom(epos + |data|);
      CopyIn(data);
      epos := epos + |data|;
    }

    /** Moves the bytes left to the front. */
    method ToFront()
      requires Valid()
      modifies this`spos, this`epos, buf
      ensures Valid() && spos == 0 && buf[..epos] == old(Rest())
    {
      hide OpeningLine, Delimiter;
      var remaining := epos - spos;
      if remaining > 0 && spos > 0 {
        MoveDown(remaining);
      }
      spos, epos := 0, remaining;
    }

    method MakeRoom(size: nat)
      requires epos <= size && epos <= buf.Length
      modifies this`buf
      ensures size <= buf.Length && buf[..epos] == old(buf[..epos])
      ensures buf == old(buf) || fresh(buf)
    {
      ghost var was := buf[..];
      if size > buf.Length {
        Resize(size);
        assert was[..epos] == buf[..|was|][..epos];
      }
    }

    method CopyIn(data: string)
      requires epos + |data| <= buf.Length
      modifies buf
      ensures buf[..epos + |data|] == old(buf[..epos]) + data
    {
      var i := 0;
      while i < |data|
        invariant 0 <= i <= |data|
        invariant buf[..epos + i] == old(buf[..epos]) + data[..i]
      {
        buf[epos + i] := data[i];
        assert buf[..epos + i + 1] == buf[..epos + i] + [data[i]];
        assert data[..i + 1] == data[..i] + [data[i]];
        i := i + 1;
      }
      assert data[..|data|] == data;
    }

    method MoveDown(remaining: nat)
      requires Valid() && remaining == epos - spos
      modifies buf
      ensures buf[..remaining] == old(buf[spos..epos])
    {
      hide OpeningLine, Delimiter;
      ghost var rest := buf[spos..epos];
      var i := 0;
      while i < remaining
        invariant 0 <= i <= remaining
        invariant forall k :: 0 <= k < i ==> buf[k] == rest[k]
        invariant forall k :: i <= k < remaining ==> buf[spos + k] == rest[k]
      {
        buf[i] := buf[spos + i];
        i := i + 1;
      }
      assert buf[..remaining] == rest;
    }

    method Resize(size: nat)
      requires size >= buf.Length
      modifies this`buf
      ensures fresh(buf) && buf.Length == size && buf[..old(buf.Length)] == old(buf[..])
    {
      var was := buf;
      var bigger := new char[size];
      for i := 0 to was.Length
        invariant bigger[..i] == was[..i]
      {
        bigger[i] := was[i];
      }
      assert was[..] == was[..was.Length];
      buf := bigger;
    }

    // ---------- header lines ----------

    method ParseNames(params: Params) returns (ok: bool)
      modifies this`file
      ensures (file, ok) == WithNames(old(file), params)
    {
      hide Lookup, Extended;
      var it := Lookup(params, "name");
      if it.None? {
        return false;
      }
      file := file.(name := it.value);
      it := Lookup(params, "filename");
      if it.Some? {
        file := file.(filename := it.value);
      }
      it := Lookup(params, "filename*");
      if it.Some? {
        var value := DecodeExtended(it.value);
        if value.None? {
          return false;
        }
        file := file.(filename := value.value);
      }
      return true;
    }

    static method DecodeExtended(value: string) returns (r: Option<string>)
      ensures r == Extended(value)
    {
      hide StartsIgnoringCase, OneLine, Decoded, Utf8Tag;
      var utf8 := StartWithCaseIgnore(value, Utf8Tag());
      if utf8 && |value| > |Utf8Tag()| && OneLine(value[|Utf8Tag()|..]) {
        var text := DecodeUrl(value[|Utf8Tag()|..], false);
        return Some(text);
      }
      return None;
    }

    /** One header line of an entry. */
    method ParseHeader(header: string) returns (ok: bool)
      modifies this`file
      ensures (file, ok) == HeaderField(old(file), header)
    {
      hide StartsIgnoringCase, WithNames, Disposition, ParsedPairs, TypeTag;
      var isType := StartWithCaseIgnore(header, TypeTag());
      if isType {
        Longer(header, TypeTag());
        var value := TrimCopy(header[|TypeTag()|..]);
        file := file.(contentType := value);
        return true;
      }
      var d := Disposition(header);
      if d.None? {
        return false;
      }
      var params := ParseDispositionParams(d.value);
      ok := ParseNames(params);
    }

    lemma Longer(a: string, b: string)
      requires StartsIgnoringCase(a, b)
      ensures |b| <= |a|
    {
    }

    // ---------- phases ----------

    /** The callback: reports an event and returns the receiver's answer. */
    method Report(e: Event) returns (ok: bool)
      modifies this`log
      ensures log == old(log) + [e] && ok == accepts(log)
    {
      log := log + [e];
      ok := accepts(log);
    }

    ghost predicate Did(step: Step, again: bool, ok: bool)
      requires Valid()
      reads this, buf
    {
      Value() == step.p && again == step.Again? && (step.Return? ==> ok == step.ok)
    }

    method ReadOpening() returns (again: bool, ok: bool)
      requires Valid()
      modifies this`spos, this`phase
      ensures Valid() && Did(old(OpeningStep(boundary, Value())), again, ok)
    {
      hide At;
      ghost var rest := Rest();
      LineThere(boundary);
      var pos := BufFind(dashBoundaryCrlf);
      BufErase(pos);
      if |dashBoundaryCrlf| > epos - spos {
        return false, true;
      }
      var here := BufStartWith(spos, dashBoundaryCrlf);
      FromStart(Rest(), dashBoundaryCrlf);
      if !here {
        return false, false;
      }
      BufErase(|dashBoundaryCrlf|);
      phase := Entry;
      return true, true;
    }

    lemma LineThere(b: string)
      ensures OpeningLine(b) != [] && Delimiter(b) != []
    {
    }

    lemma FromStart(rest: string, s: string)
      ensures At(rest, 0, s) <==> s <= rest
    {
      assert rest[0..] == rest;
    }

    method EndFields() returns (again: bool, ok: bool)
      requires Valid() && |Rest()| >= 2
      modifies this`spos, this`phase, this`isValid, this`log
      ensures Valid() && Did(old(EntryDone(accepts, Value())), again, ok)
    {
      hide OpeningLine, Delimiter;
      ok := Report(Header(file));
      if !ok {
        isValid := false;
        return false, false;
      }
      BufErase(2);
      phase := Body;
      return true, true;
    }

    method ReadField(pos: nat) returns (ok: bool)
      requires Valid() && pos + 2 <= |Rest()|
      modifies this`spos, this`file, this`isValid
      ensures Valid() && (Value(), ok) == old(TakeField(Value(), pos))
    {
      hide HeaderField, OpeningLine, Delimiter;
      var header := buf[spos..spos + pos];
      assert header == Rest()[..pos];
      ok := ParseHeader(header);
      if !ok {
        isValid := false;
        return false;
      }
      BufErase(pos + 2);
    }

    method ReadFields() returns (again: bool, ok: bool)
      requires Valid()
      modifies this`spos, this`phase, this`file, this`isValid, this`log
      ensures Valid() && Did(old(FieldsStep(accepts, Value())), again, ok)
    {
      hide TakeField, EntryDone, Find, OpeningLine, Delimiter;
      ghost var first := Value();
      var pos := BufFind(Crlf());
      while pos < epos - spos
        invariant Valid() && pos == Find(Rest(), Crlf()) && buf == old(buf)
        invariant FieldsStep(accepts, Value()) == FieldsStep(accepts, first)
        decreases epos - spos
      {
        CrlfAt(Rest());
        if pos == 0 {
          again, ok := EndFields();
          return;
        }
        FieldShrinks(Value(), pos);
        ok := ReadField(pos);
        if !ok {
          return false, false;
        }
        pos := BufFind(Crlf());
      }
      return false, true;
    }

    lemma FieldShrinks(p: Parser, pos: nat)
      requires pos + 2 <= |p.rest|
      ensures TakeField(p, pos).1 ==> |TakeField(p, pos).0.rest| < |p.rest|
    {
    }

    lemma CrlfAt(rest: string)
      ensures var pos := Find(rest, Crlf()); pos < |rest| ==> pos + 2 <= |rest|
    {
    }

    method ReadHeaders() returns (again: bool, ok: bool)
      requires Valid()
      modifies this`spos, this`phase, this`file, this`isValid, this`log
      ensures Valid() && Did(old(HeadersStep(accepts, Value())), again, ok)
    {
      hide FieldsStep, Find, OpeningLine, Delimiter;
      var pos := BufFind(Crlf());
      if pos > HEADER_MAX_LENGTH {
        return false, false;
      }
      again, ok := ReadFields();
    }

    method GiveLast(pos: nat) returns (again: bool, ok: bool)
      requires Valid() && pos + |crlfDashBoundary| <= |Rest()|
      modifies this`spos, this`phase, this`isValid, this`log
      ensures Valid() && Did(old(LastContent(Delimiter(boundary), accepts, Value(), pos)), again, ok)
    {
      hide OpeningLine, Delimiter;
      assert buf[spos..spos + pos] == Rest()[..pos];
      ok := Report(Content(buf[spos..spos + pos]));
      if !ok {
        isValid := false;
        return false, false;
      }
      BufErase(pos + |crlfDashBoundary|);
      phase := Boundary;
      return true, true;
    }

    method GiveSome(len: nat) returns (ok: bool)
      requires Valid() && len <= |Rest()|
      modifies this`spos, this`phase, this`isValid, this`log
      ensures Valid() && Did(old(SomeContent(accepts, Value(), len)), false, ok)
    {
      hide OpeningLine, Delimiter;
      if len > 0 {
        assert buf[spos..spos + len] == Rest()[..len];
        ok := Report(Content(buf[spos..spos + len]));
        if !ok {
          isValid := false;
          return false;
        }
        BufErase(len);
      }
      return true;
    }

    method ReadBody() returns (again: bool, ok: bool)
      requires Valid()
      modifies this`spos, this`phase, this`isValid, this`log
      ensures Valid() && Did(old(BodyStep(boundary, accepts, Value())), again, ok)
    {
      hide OpeningLine, Delimiter, LastContent, SomeContent;
      if |crlfDashBoundary| > epos - spos {
        return false, true;
      }
      LineThere(boundary);
      var pos := BufFind(crlfDashBoundary);
      if pos < epos - spos {
        again, ok := GiveLast(pos);
        return;
      }
      ok := GiveSome(epos - spos - |crlfDashBoundary|);
      return false, ok;
    }

    method ReadBoundary() returns (again: bool, ok: bool)
      requires Valid()
      modifies this`spos, this`phase, this`isValid
      ensures Valid() && Did(old(BoundaryStep(Value())), again, ok)
    {
      hide OpeningLine, Delimiter, At;
      if 2 > epos - spos {
        return false, true;
      }
      FromStart(Rest(), Crlf());
      FromStart(Rest(), Dashes());
      var crlf := BufStartWith(spos, Crlf());
      if crlf {
        BufErase(2);
        phase := Entry;
        return true, true;
      }
      var dashes := BufStartWith(spos, Dashes());
      if dashes {
        BufErase(2);
        isValid := true;
        BufErase(epos - spos);
        return true, true;
      }
      return false, true;
    }

    method Round() returns (again: bool, ok: bool)
      requires Valid()
      modifies this`spos, this`phase, this`file, this`isValid, this`log
      ensures Valid() && Did(old(StepOf(boundary, accepts, Value())), again, ok)
    {
      hide OpeningStep, HeadersStep, BodyStep, BoundaryStep, OpeningLine, Delimiter;
      match phase
      case Opening => again, ok := ReadOpening();
      case Entry =>
        file := NoFile();
        phase := Headers;
        again, ok := true, true;
      case Headers => again, ok := ReadHeaders();
      case Body => again, ok := ReadBody();
      case Boundary => again, ok := ReadBoundary();
    }

    /** Takes the next fragment of the body, and reports what has become complete. */
    method Parse(data: string) returns (ok: bool)
      requires Valid()
      modifies this, buf
      ensures Valid() && (buf == old(buf) || fresh(buf)) && boundary == old(boundary)
      ensures (Value(), ok) == old(MultipartForm.Parse(boundary, accepts, Value(), data))
    {
      hide StepOf, OpeningLine, Delimiter;
      BufAppend(data);
      ghost var first := Value();
      while epos - spos > 0
        invariant Valid() && boundary == old(boundary) && (buf == old(buf) || fresh(buf))
        invariant Loop(boundary, accepts, Value()) == Loop(boundary, accepts, first)
        decreases Left(Value()).0, Left(Value()).1
      {
        StepSmaller(boundary, accepts, Value());
        var again: bool;
        again, ok := Round();
        if !again {
          return;
        }
      }
      return true;
    }

    lemma StepSmaller(b: string, receiver: Receiver, p: Parser)
      requires p.rest != []
      ensures var s := StepOf(b, receiver, p); s.Again? ==>
                Left(s.p).0 < Left(p).0 || (Left(s.p).0 == Left(p).0 && Left(s.p).1 < Left(p).1)
    {
      if StepOf(b, receiver, p).Again? {
        StepShrinks(b, receiver, p);
      }
    }
  }

  /** Reading a multipart body that arrives in fragments: it is accepted if no fragment is refused and the closing
      boundary was seen. */
  method ReadContent(boundary: string, accepts: Receiver, fragments: seq<string>) returns (ok: bool, log: seq<Event>)
    ensures var r := ParseAll(boundary, accepts, Start(), fragments); ok == (r.1 && r.0.valid) && log == r.0.log
  {
    var parser := new MultipartFormDataParser(boundary, accepts);
    var i := 0;
    while i < |fragments|
      invariant 0 <= i <= |fragments| && parser.Valid() && fresh(parser) && fresh(parser.buf)
      invariant parser.boundary == boundary && parser.accepts == accepts
      invariant ParseAll(boundary, accepts, parser.Value(), fragments[i..])
             == ParseAll(boundary, accepts, Start(), fragments)
    {
      assert fragments[i..][0] == fragments[i] && fragments[i..][1..] == fragments[i + 1..];
      var good := parser.Parse(fragments[i]);
      if !good {
        return false, parser.log;
      }
      i := i + 1;
    }
    return parser.isValid, parser.log;
  }
}
