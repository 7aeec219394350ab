/** Reading and writing a chunked body: a stream of short reads, a line reader with a fixed and a growing buffer, and the
    sink that turns writes into chunks. */
module ChunkedIO {
  import opened Basics
  import opened HttpText
  import opened HeaderLine
  import opened Chunked

  const RECV_BUFSIZ: nat := 4096

  /** What a read brings: some bytes, nothing at the end of the text, or an error. */
  datatype ReadResult = Bytes(text: string) | Eof | Failed

  class Stream {
    const text: string
    const broken: bool
    var pos: nat

    ghost predicate Valid()
      reads this
    {
      pos <= |text|
    }

    constructor (data: string, fails: bool)
      ensures Valid() && pos == 0 && text == data && broken == fails
    {
      text := data;
      broken := fails;
      pos := 0;
    }

    /** Brings at least one byte while there is one, and no more than asked for. */
    method Read(size: nat) returns (r: ReadResult)
      requires Valid() && size > 0
      modifies this
      ensures Valid() && old(pos) <= pos
      ensures match r
              case Bytes(t) => 0 < |t| <= size && pos == old(pos) + |t| && t == text[old(pos)..pos]
              case Eof => pos == old(pos) == |text| && !broken
              case Failed => pos == old(pos) == |text| && broken
    {
      if pos == |text| {
        return if broken then Failed else Eof;
      }
      var most := if |text| - pos < size then |text| - pos else size;
      var n :| 1 <= n <= most;
      r := Bytes(text[pos..pos + n]);
      pos := pos + n;
    }
  }

  class LineReader {
    const strm: Stream
    const fixed: array<char>
    var used: nat
    var growable: string

    ghost predicate Valid()
      reads this, fixed
    {
      fixed.Length >= 2 && used < fixed.Length && (growable != [] ==> used == fixed.Length - 1) &&
      (used > 0 ==> fixed[used] == 0 as char)
    }

    /** The line read so far. */
    ghost function Line(): string
      requires Valid()
      reads this, fixed
    {
      if growable == [] then fixed[..used] else growable
    }

    constructor (stream: Stream, size: nat)
      requires size >= 2
      ensures Valid() && fresh(fixed) && strm == stream && Line() == []
    {
      strm := stream;
      fixed := new char[size];
      used := 0;
      growable := [];
    }

    /** What the pointer to the line shows: the bytes up to the first zero. */
    method Ptr() returns (r: string)
      requires Valid()
      ensures r == CStr(Line())
    {
      var text := Text();
      r := CStr(text);
    }

    method Text() returns (r: string)
      requires Valid()
      ensures r == Line()
    {
      r := if growable == [] then fixed[..used] else growable;
    }

    method Append(c: char)
      requires Valid()
      modifies this, fixed
      ensures Valid() && Line() == old(Line()) + [c]
    {
      if used < fixed.Length - 1 {
        fixed[used] := c;
        used := used + 1;
        fixed[used] := 0 as char;
        assert fixed[..used] == old(fixed[..used]) + [c];
      } else {
        if growable == [] {
          assert fixed[used] == 0 as char;
          growable := fixed[..used];
        }
        growable := growable + [c];
      }
    }

    lemma OneMoreChar(text: string, start: nat, at: nat, t: string)
      requires start <= at < |text| && |t| == 1 && t == text[at..at + 1]
      ensures text[start..at] + [t[0]] == text[start..at + 1] && t[0] == text[at]
    {
      assert t[0] == text[at..at + 1][0];
    }

    /** Reads a line, byte by byte. */
    method GetLine() returns (ok: bool)
      requires Valid() && strm.Valid()
      modifies this, fixed, strm
      ensures Valid() && strm.Valid() && old(strm.pos) <= strm.pos
      ensures var e := LineEnd(strm.text, old(strm.pos), strm.broken);
              ok == e.Some? && (ok ==> strm.pos == e.value && Line() == strm.text[old(strm.pos)..e.value])
    {
      used := 0;
      growable := [];
      var i: nat := 0;
      ghost var start := strm.pos;
      while true
        invariant Valid() && strm.Valid() && strm.pos == start + i && Line() == strm.text[start..strm.pos]
        invariant i > 0 ==> strm.pos < |strm.text| || !strm.broken || LineEnd(strm.text, start, strm.broken) == None
        invariant strm.pos < |strm.text| ==>
                    LineEnd(strm.text, start, strm.broken) == LineEnd(strm.text, strm.pos, strm.broken)
        invariant strm.pos == |strm.text| && i > 0 && !strm.broken ==>
                    LineEnd(strm.text, start, strm.broken) == Some(|strm.text|)
        decreases |strm.text| - strm.pos
      {
        ghost var at := strm.pos;
        var r := strm.Read(1);
        if r.Failed? {
          return false;
        }
        if r.Eof? {
          if i == 0 {
            return false;
          } else {
            break;
          }
        }
        var byte := r.text[0];
        OneMoreChar(strm.text, start, at, r.text);
        Append(byte);
        if byte == '\n' {
          break;
        }
        i := i + 1;
      }
      return true;
    }
  }

  // ---------- reading ----------

  /** The receiver of content sees what it was given so far, and may refuse to go on. */
  type Receiver = string -> bool

  /** Reads `len` bytes in blocks of whatever size the stream brings. */
  method ReadContentWithLength(strm: Stream, len: nat, accepts: Receiver, got: string) returns (ok: bool, payload: string)
    requires strm.Valid()
    modifies strm
    ensures strm.Valid() && old(strm.pos) <= strm.pos
    ensures payload == got + strm.text[old(strm.pos)..strm.pos] && strm.pos <= old(strm.pos) + len
    ensures ok ==> strm.pos == old(strm.pos) + len
    ensures !ok ==> (strm.pos == |strm.text| < old(strm.pos) + len) || (old(strm.pos) < strm.pos && !accepts(payload))
  {
    payload := got;
    var r: nat := 0;
    ghost var start := strm.pos;
    assert payload == got + strm.text[start..strm.pos];
    while r < len
      invariant r <= len && strm.Valid() && strm.pos == start + r
      invariant payload == got + strm.text[start..strm.pos]
    {
      var readLen := len - r;
      ghost var at := strm.pos;
      var n := strm.Read(if readLen < RECV_BUFSIZ then readLen else RECV_BUFSIZ);
      if !n.Bytes? {
        return false, payload;
      }
      assert strm.text[start..at] + strm.text[at..strm.pos] == strm.text[start..strm.pos];
      payload := payload + n.text;
      if !accepts(payload) {
        return false, payload;
      }
      r := r + |n.text|;
    }
    return true, payload;
  }

  /** The data of a chunk and the line end behind them. */
  method ReadChunk(reader: LineReader, len: nat, accepts: Receiver, got: string) returns (ok: bool, payload: string)
    requires reader.Valid() && reader.strm.Valid()
    modifies reader, reader.fixed, reader.strm
    ensures reader.Valid() && reader.strm.Valid()
    ensures var s, start := reader.strm, old(reader.strm.pos);
            payload <= got + DataAt(s.text, start, len) &&
            if ok then DataEnd(s.text, start, len, s.broken) == Some(s.pos) && payload == got + DataAt(s.text, start, len)
            else (DataEnd(s.text, start, len, s.broken) == None && payload == got + DataAt(s.text, start, len)) ||
                 (|payload| > |got| && !accepts(payload))
  {
    hide LineEnd, CStr;
    ok, payload := ReadContentWithLength(reader.strm, len, accepts, got);
    if !ok {
      return;
    }
    ok := reader.GetLine();
    if !ok {
      return;
    }
    var line := reader.Ptr();
    ok := line == Crlf();
  }

  function Prepended(payload: string, body: Option<Body>): Option<Body>
  {
    if body.None? then None else Some(body.value.(payload := payload + body.value.payload))
  }

  function WithTrailers(lines: seq<Field>, body: Option<Body>): Option<Body>
  {
    if body.None? then None else Some(body.value.(trailers := lines + body.value.trailers))
  }

  /** The reader holds the line that starts at `at`. */
  ghost predicate Holds(reader: LineReader, at: nat)
    requires reader.Valid()
    reads reader, reader.fixed, reader.strm
  {
    var s := reader.strm;
    at < s.pos <= |s.text| && LineEnd(s.text, at, s.broken) == Some(s.pos) && reader.Line() == s.text[at..s.pos]
  }

  /** The field on a trailer line; the source steps back over the line end, and finds nothing on a shorter line. */
  method ReadField(line: string) returns (fields: seq<Field>)
    ensures fields == FieldsOn(line)
  {
    fields := [];
    if |line| >= 2 {
      var f := ParseHeader(line[..|line| - 2]);
      if f.Some? {
        fields := [f.value];
      }
    }
  }

  method ReadTrailers(reader: LineReader) returns (ok: bool, trailers: seq<Field>)
    requires reader.Valid() && reader.strm.Valid()
    modifies reader, reader.fixed, reader.strm
    ensures reader.Valid() && reader.strm.Valid()
    ensures var s, start := reader.strm, old(reader.strm.pos);
            if ok then TrailerAt(s.text, start, s.broken) == Some(Body([], trailers, s.pos))
            else TrailerAt(s.text, start, s.broken) == None
  {
    hide LineEnd, CStr, WithTrailers, FieldsOn, TrailerAt;
    ghost var text, start, broken := reader.strm.text, reader.strm.pos, reader.strm.broken;
    trailers := [];
    ghost var at := start;
    PrependNothing(TrailerAt(text, start, broken));
    TrailerUnfolds(text, start, broken);
    ok := reader.GetLine();
    if !ok {
      return;
    }
    var line := reader.Ptr();
    while line != Crlf()
      invariant reader.Valid() && reader.strm.Valid() && at < reader.strm.pos && Holds(reader, at) && line == CStr(reader.Line())
      invariant TrailerAt(text, start, broken) == WithTrailers(trailers, TrailerAt(text, at, broken))
      decreases |text| - at
    {
      var whole := reader.Text();
      TrailerUnfolds(text, at, broken);
      TrailersGo(trailers, FieldsOn(whole), TrailerAt(text, reader.strm.pos, broken));
      if |whole| > HEADER_MAX_LENGTH {
        return false, trailers;
      }
      var fields := ReadField(whole);
      trailers := trailers + fields;
      at := reader.strm.pos;
      TrailerUnfolds(text, at, broken);
      TrailersGo(trailers, [], TrailerAt(text, at, broken));
      ok := reader.GetLine();
      if !ok {
        return;
      }
      line := reader.Ptr();
    }
    TrailerUnfolds(text, at, broken);
    PrependNothing(TrailerAt(text, at, broken));
    return true, trailers;
  }

  lemma TrailerUnfolds(text: string, at: nat, broken: bool)
    requires at <= |text|
    ensures var e := LineEnd(text, at, broken);
            TrailerAt(text, at, broken) ==
            if e.None? then None
            else if CStr(text[at..e.value]) == Crlf() then Some(Body([], [], e.value))
            else if e.value - at > HEADER_MAX_LENGTH then None
            else WithTrailers(FieldsOn(text[at..e.value]), TrailerAt(text, e.value, broken))
  {
    hide CStr, LineEnd, FieldsOn;
  }

  lemma TrailersGo(a: seq<Field>, b: seq<Field>, body: Option<Body>)
    ensures WithTrailers(a, WithTrailers(b, body)) == WithTrailers(a + b, body)
    ensures WithTrailers(a, None) == None
  {
    if body.Some? {
      assert a + (b + body.value.trailers) == a + b + body.value.trailers;
    }
  }

  lemma PayloadGoes(a: string, b: string, body: Option<Body>)
    ensures Prepended(a, Prepended(b, body)) == Prepended(a + b, body)
  {
    if body.Some? {
      assert a + (b + body.value.payload) == a + b + body.value.payload;
    }
  }

  lemma BodyUnfolds(text: string, at: nat, broken: bool)
    requires at <= |text|
    ensures var size := SizeLine(text, at, broken);
            if size.None? then BodyAt(text, at, broken) == None
            else if size.value.0 == 0 then BodyAt(text, at, broken) == TrailerAt(text, size.value.1, broken)
            else var end := DataEnd(text, size.value.1, size.value.0, broken);
                 if end.None? then BodyAt(text, at, broken) == None
                 else BodyAt(text, at, broken)
                      == Prepended(DataAt(text, size.value.1, size.value.0), BodyAt(text, end.value, broken))
  {
    hide SizeLine, DataEnd, TrailerAt;
  }

  lemma PayloadUnfolds(text: string, at: nat, broken: bool, sofar: string)
    requires at <= |text|
    ensures var size := SizeLine(text, at, broken);
            if size.None? || size.value.0 == 0 then sofar + PayloadAt(text, at, broken) == sofar
            else var (data, end) := (DataAt(text, size.value.1, size.value.0), DataEnd(text, size.value.1, size.value.0, broken));
                 sofar + data <= sofar + PayloadAt(text, at, broken) &&
                 sofar + PayloadAt(text, at, broken)
                 == if end.None? then sofar + data else sofar + data + PayloadAt(text, end.value, broken)
  {
    hide SizeLine, DataEnd, DataAt;
    var size := SizeLine(text, at, broken);
    if size.Some? && size.value.0 > 0 {
      var (data, end) := (DataAt(text, size.value.1, size.value.0), DataEnd(text, size.value.1, size.value.0, broken));
      if end.Some? {
        assert sofar + (data + PayloadAt(text, end.value, broken)) == sofar + data + PayloadAt(text, end.value, broken);
      } else {
        assert data + [] == data;
      }
    } else {
      assert sofar + [] == sofar;
    }
  }

  /** Reads the size on the line that the reader holds. */
  method ReadSize(reader: LineReader, ghost at: nat) returns (ok: bool, len: nat)
    requires reader.Valid() && Holds(reader, at)
    ensures var s := reader.strm;
            SizeLine(s.text, at, s.broken) == if ok then Some((len, s.pos)) else None
  {
    hide LineEnd, CStr, StrToUl;
    var line := reader.Ptr();
    var (chunkLen, found) := StrToUl(line);
    ok, len := found && chunkLen != ULONG_MAX, chunkLen;
  }

  /** The chunks from the one whose size line the reader holds on, up to the last. */
  method ReadChunks(reader: LineReader, accepts: Receiver, ghost start: nat) returns (ok: bool, payload: string)
    requires reader.Valid() && reader.strm.Valid() && Holds(reader, start)
    modifies reader, reader.fixed, reader.strm
    ensures reader.Valid() && reader.strm.Valid()
    ensures var s := reader.strm;
            payload <= PayloadAt(s.text, start, s.broken) &&
            if ok then BodyAt(s.text, start, s.broken) == Prepended(payload, TrailerAt(s.text, s.pos, s.broken)) &&
                       payload == PayloadAt(s.text, start, s.broken)
            else (BodyAt(s.text, start, s.broken) == None && payload == PayloadAt(s.text, start, s.broken)) ||
                 (payload != [] && !accepts(payload))
  {
    hide BodyAt, SizeLine, DataEnd, TrailerAt, LineEnd, Prepended, PayloadAt, DataAt;
    ghost var text, broken := reader.strm.text, reader.strm.broken;
    payload := [];
    ghost var at := start;
    PrependNothing(BodyAt(text, start, broken));
    while true
      invariant reader.Valid() && reader.strm.Valid() && Holds(reader, at)
      invariant BodyAt(text, start, broken) == Prepended(payload, BodyAt(text, at, broken))
      invariant PayloadAt(text, start, broken) == payload + PayloadAt(text, at, broken)
      decreases |text| - at
    {
      BodyUnfolds(text, at, broken);
      PayloadUnfolds(text, at, broken, payload);
      NonePrepended(payload);
      var chunkLen: nat;
      ok, chunkLen := ReadSize(reader, at);
      if !ok {
        return;
      }
      if chunkLen == 0 {
        return true, payload;
      }
      ghost var from, before := reader.strm.pos, payload;
      ok, payload := ReadChunk(reader, chunkLen, accepts, payload);
      if !ok {
        return;
      }
      PayloadGoes(before, DataAt(text, from, chunkLen), BodyAt(text, reader.strm.pos, broken));
      at := reader.strm.pos;
      ok := reader.GetLine();
      if !ok {
        NoLine(text, at, broken);
        NonePrepended(payload);
        return;
      }
    }
  }

  lemma NonePrepended(payload: string)
    ensures Prepended(payload, None) == None
  {
  }

  /** Reads a chunked body: what it delivers is what the text of chunks means, and it stops where that ends. It fails
      exactly if the text means nothing, when all data that could be read are delivered, or the receiver refuses part of
      them. */
  method ReadContentChunked(strm: Stream, accepts: Receiver) returns (ok: bool, payload: string, trailers: seq<Field>)
    requires strm.Valid()
    modifies strm
    ensures strm.Valid()
    ensures ok ==> BodyAt(strm.text, old(strm.pos), strm.broken) == Some(Body(payload, trailers, strm.pos))
    ensures payload <= PayloadAt(strm.text, old(strm.pos), strm.broken)
    ensures !ok ==>
              (BodyAt(strm.text, old(strm.pos), strm.broken) == None &&
               payload == PayloadAt(strm.text, old(strm.pos), strm.broken)) ||
              (payload != [] && !accepts(payload))
  {
    hide BodyAt, TrailerAt, LineEnd, Prepended, PayloadAt;
    payload, trailers := [], [];
    ghost var start := strm.pos;
    var reader := new LineReader(strm, 16);
    ok := reader.GetLine();
    if !ok {
      NoLine(strm.text, start, strm.broken);
      return;
    }
    ok, payload := ReadChunks(reader, accepts, start);
    if !ok {
      return;
    }
    PrependNothing(TrailerAt(strm.text, strm.pos, strm.broken));
    NonePrepended(payload);
    ok, trailers := ReadTrailers(reader);
  }

  lemma NoLine(text: string, at: nat, broken: bool)
    requires at <= |text| && LineEnd(text, at, broken) == None
    ensures BodyAt(text, at, broken) == None && PayloadAt(text, at, broken) == []
  {
  }

  lemma PrependNothing(body: Option<Body>)
    ensures Prepended([], body) == body && WithTrailers([], body) == body
    ensures body.Some? && body.value.payload == [] ==> forall p :: Prepended(p, body) == Some(body.value.(payload := p))
    ensures body.Some? && body.value.trailers == [] ==> forall t :: WithTrailers(t, body) == Some(body.value.(trailers := t))
  {
    if body.Some? {
      assert [] + body.value.payload == body.value.payload && [] + body.value.trailers == body.value.trailers;
      forall p: string
        ensures p + [] == p
      {
      }
      forall t: seq<Field>
        ensures t + [] == t
      {
      }
    }
  }
}
