/** The sink of a chunked response: a content provider is called again and again, and its writes go out as chunks. */
module ChunkedSink {
  import opened Basics
  import opened HttpText
  import opened HeaderLine
  import opened Chunked

  type Fields = seq<Field>

  /** What a provider does with the sink it is handed. */
  datatype Op = Write(data: string) | Done(fields: Fields)

  /** One call of the provider, and what it answers. */
  datatype Call = Call(ops: seq<Op>, goesOn: bool)

  datatype Error = Success | Canceled | WriteFailed

  /** The state of the sink; `out` is what the stream took. */
  datatype Sink = Sink(out: string, offset: nat, dataAvailable: bool, ok: bool)

  /** The stream: given what it took so far, whether it is writable, and whether it takes the next piece. */
  datatype Wire = Wire(writable: string -> bool, takes: (string, string) -> bool)

  function Sent(wire: Wire, s: Sink, data: string): Sink
  {
    if wire.takes(s.out, data) then s.(out := s.out + data) else s.(ok := false)
  }

  function Written(wire: Wire, s: Sink, d: string): Sink
  {
    if !s.ok then s
    else
      var t := s.(dataAvailable := |d| > 0, offset := s.offset + |d|);
      if d == [] then t
      else if !wire.writable(t.out) then t.(ok := false)
      else Sent(wire, t, Chunk(d))
  }

  function FieldsSent(wire: Wire, s: Sink, fields: Fields): Sink
  {
    if fields == [] then s
    else Sent(wire, FieldsSent(wire, s, fields[..|fields| - 1]), FieldLine(fields[|fields| - 1]))
  }

  function Ended(wire: Wire, s: Sink, fields: Fields): Sink
  {
    if !s.ok then s
    else Sent(wire, FieldsSent(wire, Sent(wire, s.(dataAvailable := false), "0\r\n"), fields), Crlf())
  }

  function AfterOp(wire: Wire, s: Sink, op: Op): Sink
  {
    match op
    case Write(d) => Written(wire, s, d)
    case Done(fields) => Ended(wire, s, fields)
  }

  function AfterOps(wire: Wire, s: Sink, ops: seq<Op>): Sink
    decreases |ops|
  {
    if ops == [] then s else AfterOps(wire, AfterOp(wire, s, ops[0]), ops[1..])
  }

  /** The loop over the provider: until no data are available, the server shuts down (the calls run out), or something
      fails. */
  function AfterCalls(wire: Wire, s: Sink, calls: seq<Call>): (Sink, Error)
    decreases |calls|
  {
    if !s.dataAvailable || calls == [] then (s, Success)
    else if !wire.writable(s.out) then (s, WriteFailed)
    else
      var t := AfterOps(wire, s, calls[0].ops);
      if !calls[0].goesOn then (t, Canceled)
      else if !t.ok then (t, WriteFailed)
      else AfterCalls(wire, t, calls[1..])
  }

  class DataSink {
    const wire: Wire
    var out: string
    var offset: nat
    var dataAvailable: bool
    var ok: bool

    ghost function Value(): Sink
      reads this
    {
      Sink(out, offset, dataAvailable, ok)
    }

    constructor (stream: Wire)
      ensures wire == stream && Value() == Sink([], 0, true, true)
    {
      wire := stream;
      out := [];
      offset := 0;
      dataAvailable, ok := true, true;
    }

    method Send(data: string)
      modifies this`out, this`ok
      ensures Value() == Sent(wire, old(Value()), data)
    {
      if wire.takes(out, data) {
        out := out + data;
      } else {
        ok := false;
      }
    }

    method Write(d: string) returns (r: bool)
      modifies this
      ensures Value() == Written(wire, old(Value()), d) && r == ok
    {
      hide Chunk, Sent;
      if ok {
        dataAvailable := |d| > 0;
        offset := offset + |d|;
        if d != [] {
          var size := FromIToHex(|d|);
          var chunk := size + "\r\n" + d + "\r\n";
          ChunkText(d, chunk);
          if !wire.writable(out) {
            ok := false;
          } else {
            Send(chunk);
          }
        }
      }
      return ok;
    }

    lemma ChunkText(d: string, chunk: string)
      requires chunk == Hex(|d|) + "\r\n" + d + "\r\n"
      ensures chunk == Chunk(d)
    {
    }

    method DoneWithTrailer(trailer: Fields)
      modifies this
      ensures Value() == Ended(wire, old(Value()), trailer)
    {
      hide Sent, FieldLine;
      if !ok {
        return;
      }
      dataAvailable := false;
      Send("0\r\n");
      ghost var start := Value();
      for i := 0 to |trailer|
        invariant Value() == FieldsSent(wire, start, trailer[..i])
      {
        assert trailer[..i + 1][..i] == trailer[..i];
        LineText(trailer[i]);
        Send(trailer[i].0 + ": " + trailer[i].1 + "\r\n");
      }
      assert trailer[..|trailer|] == trailer;
      Send("\r\n");
    }

    lemma LineText(field: Field)
      ensures FieldLine(field) == field.0 + ": " + field.1 + "\r\n"
    {
    }

    /** The provider does what its script says. */
    method Provide(ops: seq<Op>)
      modifies this
      ensures Value() == AfterOps(wire, old(Value()), ops)
    {
      hide AfterOp;
      ghost var start := Value();
      for i := 0 to |ops|
        invariant AfterOps(wire, Value(), ops[i..]) == AfterOps(wire, start, ops)
      {
        assert ops[i..][0] == ops[i] && ops[i..][1..] == ops[i + 1..];
        Perform(ops[i]);
      }
    }

    method Perform(op: Op)
      modifies this
      ensures Value() == AfterOp(wire, old(Value()), op)
    {
      hide Written, Ended;
      match op
      case Write(d) => var _ := Write(d);
      case Done(fields) => DoneWithTrailer(fields);
    }
  }

  method WriteContentChunked(wire: Wire, calls: seq<Call>) returns (out: string, error: Error)
    ensures var r := AfterCalls(wire, Sink([], 0, true, true), calls); out == r.0.out && error == r.1
  {
    hide AfterOps;
    var sink := new DataSink(wire);
    ghost var start := sink.Value();
    var i := 0;
    while sink.dataAvailable && i < |calls|
      invariant 0 <= i <= |calls| && sink.wire == wire && fresh(sink)
      invariant AfterCalls(wire, sink.Value(), calls[i..]) == AfterCalls(wire, start, calls)
    {
      assert calls[i..][0] == calls[i] && calls[i..][1..] == calls[i + 1..];
      if !wire.writable(sink.out) {
        return sink.out, WriteFailed;
      }
      sink.Provide(calls[i].ops);
      if !calls[i].goesOn {
        return sink.out, Canceled;
      } else if !sink.ok {
        return sink.out, WriteFailed;
      }
      i := i + 1;
    }
    return sink.out, Success;
  }

  // ---------- what goes out ----------

  ghost predicate Healthy(wire: Wire)
  {
    (forall out :: wire.writable(out)) && (forall out, data :: wire.takes(out, data))
  }

  function WriteOps(writes: seq<string>): (r: seq<Op>)
    ensures |r| == |writes| && forall i :: 0 <= i < |r| ==> r[i] == Write(writes[i])
  {
    seq(|writes|, i requires 0 <= i < |writes| => Write(writes[i]))
  }

  function AllOps(calls: seq<Call>): seq<Op>
  {
    if calls == [] then [] else calls[0].ops + AllOps(calls[1..])
  }

  predicate GoOn(calls: seq<Call>)
  {
    forall i :: 0 <= i < |calls| ==> calls[i].goesOn
  }

  lemma {:induction false} WritesGoOut(wire: Wire, s: Sink, writes: seq<string>)
    requires Healthy(wire) && s.ok && s.dataAvailable && WritesOk(writes)
    ensures var t := AfterOps(wire, s, WriteOps(writes)); t.ok && t.dataAvailable && t.out == s.out + Chunks(writes)
    decreases |writes|
  {
    hide Chunk;
    if writes == [] {
      assert s.out + [] == s.out;
    } else {
      var t := AfterOp(wire, s, Write(writes[0]));
      WritesGoOut(wire, t, writes[1..]);
      assert WriteOps(writes)[1..] == WriteOps(writes[1..]);
      assert s.out + Chunk(writes[0]) + Chunks(writes[1..]) == s.out + (Chunk(writes[0]) + Chunks(writes[1..]));
    }
  }

  lemma {:induction false} FieldsGoOut(wire: Wire, s: Sink, fields: Fields)
    requires Healthy(wire)
    ensures FieldsSent(wire, s, fields) == s.(out := s.out + FieldLines(fields))
    decreases |fields|
  {
    hide FieldLine;
    if fields == [] {
      assert s.out + [] == s.out;
    } else {
      var n := |fields| - 1;
      FieldsGoOut(wire, s, fields[..n]);
      assert s.out + FieldLines(fields[..n]) + FieldLine(fields[n]) == s.out + (FieldLines(fields[..n]) + FieldLine(fields[n]));
    }
  }

  lemma EndGoesOut(wire: Wire, s: Sink, fields: Fields)
    requires Healthy(wire) && s.ok
    ensures Ended(wire, s, fields) == s.(dataAvailable := false, out := s.out + LastChunk(fields))
  {
    hide FieldLines, FieldsSent;
    FieldsGoOut(wire, Sent(wire, s.(dataAvailable := false), "0\r\n"), fields);
    assert s.out + "0\r\n" + FieldLines(fields) + Crlf() == s.out + ("0\r\n" + FieldLines(fields) + Crlf());
  }

  lemma {:induction false} AfterBoth(wire: Wire, s: Sink, a: seq<Op>, b: seq<Op>)
    ensures AfterOps(wire, s, a + b) == AfterOps(wire, AfterOps(wire, s, a), b)
    decreases |a|
  {
    hide AfterOp;
    if a == [] {
      assert a + b == b;
    } else {
      assert (a + b)[1..] == a[1..] + b;
      AfterBoth(wire, AfterOp(wire, s, a[0]), a[1..], b);
    }
  }

  /** All at once: the writes and the end. */
  lemma AllGoesOut(wire: Wire, s: Sink, writes: seq<string>, fields: Fields)
    requires Healthy(wire) && s.ok && s.dataAvailable && WritesOk(writes)
    ensures var t := AfterOps(wire, s, WriteOps(writes) + [Done(fields)]);
            t.ok && !t.dataAvailable && t.out == s.out + (Chunks(writes) + LastChunk(fields))
  {
    hide WritesOk, Healthy, Chunks, LastChunk, Ended;
    WritesGoOut(wire, s, writes);
    AfterBoth(wire, s, WriteOps(writes), [Done(fields)]);
    var t := AfterOps(wire, s, WriteOps(writes));
    EndGoesOut(wire, t, fields);
    assert AfterOps(wire, t, [Done(fields)]) == Ended(wire, t, fields);
    assert s.out + Chunks(writes) + LastChunk(fields) == s.out + (Chunks(writes) + LastChunk(fields));
  }

  /** However the provider spreads its writes and the end over its calls, the same text goes out. */
  lemma {:induction false} CallsGoOut(wire: Wire, s: Sink, calls: seq<Call>, writes: seq<string>, fields: Fields)
    requires Healthy(wire) && s.ok && s.dataAvailable && WritesOk(writes) && GoOn(calls)
    requires AllOps(calls) == WriteOps(writes) + [Done(fields)]
    ensures var (t, error) := AfterCalls(wire, s, calls);
            error == Success && t.ok && t.out == s.out + (Chunks(writes) + LastChunk(fields))
    decreases |calls|
  {
    hide AfterOps, Chunks, LastChunk, AfterCalls;
    assert calls != [];
    assert wire.writable(s.out);
    CallUnfolds(wire, s, calls);
    var ops := calls[0].ops;
    var all := WriteOps(writes) + [Done(fields)];
    var n := |ops|;
    assert all[..n] == ops && all[n..] == AllOps(calls[1..]);
    if n <= |writes| {
      assert ops == WriteOps(writes[..n]) && all[n..] == WriteOps(writes[n..]) + [Done(fields)];
      WritesGoOut(wire, s, writes[..n]);
      CallsGoOut(wire, AfterOps(wire, s, ops), calls[1..], writes[n..], fields);
      ChunksSplit(writes, n);
      Associate(s.out, Chunks(writes[..n]), Chunks(writes[n..]), LastChunk(fields));
    } else {
      assert ops == all;
      AllGoesOut(wire, s, writes, fields);
      Stopped(wire, AfterOps(wire, s, ops), calls[1..]);
    }
  }

  lemma CallUnfolds(wire: Wire, s: Sink, calls: seq<Call>)
    requires s.dataAvailable && calls != [] && wire.writable(s.out) && calls[0].goesOn
    ensures var t := AfterOps(wire, s, calls[0].ops); t.ok ==> AfterCalls(wire, s, calls) == AfterCalls(wire, t, calls[1..])
  {
    hide AfterOps;
  }

  lemma Stopped(wire: Wire, s: Sink, calls: seq<Call>)
    requires !s.dataAvailable
    ensures AfterCalls(wire, s, calls) == (s, Success)
  {
  }

  lemma Associate(a: string, b: string, c: string, d: string)
    ensures a + b + (c + d) == a + (b + c + d)
  {
  }

  lemma {:induction false} ChunksSplit(writes: seq<string>, n: nat)
    requires n <= |writes|
    ensures Chunks(writes) == Chunks(writes[..n]) + Chunks(writes[n..])
    decreases n
  {
    hide Chunk;
    if n == 0 {
      assert writes[0..] == writes && writes[..0] == [];
      assert [] + Chunks(writes) == Chunks(writes);
    } else {
      ChunksSplit(writes[1..], n - 1);
      assert writes[1..][..n - 1] == writes[..n][1..] && writes[1..][n - 1..] == writes[n..];
      var a, b, c := Chunk(writes[0]), Chunks(writes[1..][..n - 1]), Chunks(writes[n..]);
      assert a + (b + c) == a + b + c;
    }
  }

  /** Transfer: what a provider writes is what the reader of the same stream delivers, and the reader stops right behind
      the terminator. */
  lemma ChunkedTransfer(wire: Wire, calls: seq<Call>, writes: seq<string>, fields: Fields, more: string, broken: bool)
    requires Healthy(wire) && WritesOk(writes) && FieldsOk(fields) && GoOn(calls)
    requires AllOps(calls) == WriteOps(writes) + [Done(fields)]
    ensures var out := AfterCalls(wire, Sink([], 0, true, true), calls).0.out;
            BodyAt(out + more, 0, broken) == Some(Body(Concat(writes), ReadBack(fields), |out|))
  {
    hide Healthy, WritesOk, FieldsOk, BodyAt, Chunks, LastChunk, AfterCalls;
    CallsGoOut(wire, Sink([], 0, true, true), calls, writes, fields);
    var t := Chunks(writes) + LastChunk(fields);
    assert [] + t == t;
    assert (t + more)[0..|t|] == t;
    ChunkedRoundTrip(t + more, 0, writes, fields, broken);
  }
}
