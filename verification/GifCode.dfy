/** The variable-length-code LZW of GIF89a (Appendix F): the decoder as a function, an encoder, and their round trip. */
module GifCode {
  import opened Basics
  import opened Bits
  import opened BitStream

  /** The decoder refuses to enter more codes than this. */
  const MAX_CODES: nat := 8192
  /** The encoder's table stops growing here; its codes have at most 12 bits. */
  const TABLE_SIZE: nat := 4096

  // ---------- decoder ----------

  /** Code strings by code number; the clear and end codes have empty strings. */
  function Initial(cs: nat): (d: seq<seq<Byte>>)
    ensures |d| == Pow2(cs) + 2
  {
    seq(Pow2(cs), i requires 0 <= i => [i % 256]) + [[], []]
  }

  /** Code size, table and previous code (-1 after a clear); `closed` until the first clear code. */
  datatype State = State(size: nat, table: seq<seq<Byte>>, prev: int, closed: bool)

  ghost predicate StateOk(cs: nat, s: State)
  {
    cs <= 12 && s.size > 0 && Pow2(cs) + 2 <= |s.table| && -1 <= s.prev < |s.table| &&
    (s.prev >= 0 ==> s.table[s.prev] != []) &&
    forall i :: 0 <= i < |s.table| && i != Pow2(cs) && i != Pow2(cs) + 1 ==> s.table[i] != []
  }

  function Start(cs: nat): State
  {
    State(cs + 1, Initial(cs), -1, true)
  }

  /** The code size grows when the table fills it, up to 12 bits. */
  function Grown(size: nat, entries: nat): nat
  {
    if Low(entries, size) == 0 && entries <= 0xFFF then size + 1 else size
  }

  datatype Step = Bad | Stop | Go(state: State, out: seq<Byte>)

  /** The string a code stands for when `prev` precedes it; the code one past the table repeats its first byte. */
  ghost function Entered(s: State, code: nat): (e: seq<Byte>)
    requires 0 <= s.prev < |s.table| && code <= |s.table| && s.table[s.prev] != []
    requires code < |s.table| ==> s.table[code] != []
  {
    s.table[s.prev] + [if code == |s.table| then s.table[s.prev][0] else s.table[code][0]]
  }

  /** One code: clear, end of information, or a string to emit. */
  ghost function DecodeCode(cs: nat, s: State, code: nat): (r: Step)
    requires StateOk(cs, s)
    ensures r.Go? ==> StateOk(cs, r.state)
  {
    if code == Pow2(cs) then
      InitialOk(cs);
      Go(State(cs + 1, Initial(cs), -1, false), [])
    else if code == Pow2(cs) + 1 then Stop
    else if code > |s.table| || s.closed then Bad
    else if s.prev >= 0 then
      if |s.table| >= MAX_CODES then Bad
      else
        var table := s.table + [Entered(s, code)];
        Go(State(Grown(s.size, |table|), table, code, false), table[code])
    else if code == |s.table| then Bad
    else Go(State(Grown(s.size, |s.table|), s.table, code, false), s.table[code])
  }

  lemma InitialOk(cs: nat)
    requires cs <= 12
    ensures StateOk(cs, Start(cs)) && StateOk(cs, State(cs + 1, Initial(cs), -1, false))
  {
  }

  /** Decoded indices, or failure. Running out of data also ends the image. */
  datatype Result = Corrupt | Image(indices: seq<Byte>)

  ghost function Decode(cs: nat, s: State, data: seq<Byte>, p: nat, sofar: seq<Byte>): Result
    requires StateOk(cs, s)
    decreases 8 * |data| - p
  {
    if p + s.size > 8 * |data| then Image(sofar)
    else
      match DecodeCode(cs, s, Window(data, p, s.size))
      case Bad => Corrupt
      case Stop => Image(sofar)
      case Go(next, out) => Decode(cs, next, data, p + s.size, sofar + out)
  }

  // ---------- encoder ----------

  /** What an encoder emits: a clear code, or the code of some table string that the remaining indices start with.
      The longest match is one choice among many. */
  datatype Action = Clear | Emit(code: nat)

  /** Width of the next code after n strings have been emitted since the last clear. */
  function Width(cs: nat, n: nat): (w: nat)
    requires 2 <= cs <= 8
  {
    Fit(cs + 1, Pow2(cs) + 2 + (if n == 0 then 0 else n - 1))
  }

  /** The least width from w up that holds the code, at most 12. */
  function Fit(w: nat, code: nat): (r: nat)
    requires w <= 12
    ensures w <= r <= 12 && (code < Pow2(r) || r == 12)
    decreases 12 - w
  {
    if code < Pow2(w) || w == 12 then w else Fit(w + 1, code)
  }

  /** Encoder state: its table, the indices still to encode, strings emitted since the last clear. */
  datatype Encoder = Encoder(table: seq<seq<Byte>>, rest: seq<Byte>, n: nat)

  predicate CanEmit(cs: nat, e: Encoder, a: Action)
  {
    a.Emit? ==> a.code < |e.table| && a.code != Pow2(cs) && a.code != Pow2(cs) + 1 && e.table[a.code] <= e.rest
  }

  /** After a string, the table gains that string with the next index, until it is full. */
  function Emitted(cs: nat, e: Encoder, a: Action): Encoder
    requires cs <= 8 && CanEmit(cs, e, a)
  {
    match a
    case Clear => Encoder(Initial(cs), e.rest, 0)
    case Emit(c) =>
      var rest := e.rest[|e.table[c]|..];
      Encoder(if rest == [] || |e.table| >= TABLE_SIZE then e.table else e.table + [e.table[c] + [rest[0]]], rest, e.n + 1)
  }

  predicate Encodes(cs: nat, e: Encoder, actions: seq<Action>)
    requires cs <= 8
    decreases |actions|
  {
    if actions == [] then e.rest == []
    else CanEmit(cs, e, actions[0]) && Encodes(cs, Emitted(cs, e, actions[0]), actions[1..])
  }

  /** Codes in their widths, then the end-of-information code. */
  function CodeBits(cs: nat, e: Encoder, actions: seq<Action>): seq<bool>
    requires 2 <= cs <= 8 && Encodes(cs, e, actions)
    decreases |actions|
  {
    if actions == [] then LsbBits(Pow2(cs) + 1, Width(cs, e.n))
    else
      LsbBits(if actions[0].Clear? then Pow2(cs) else actions[0].code, Width(cs, e.n))
      + CodeBits(cs, Emitted(cs, e, actions[0]), actions[1..])
  }

  /** No run of strings between clears is longer than the decoder's table allows. */
  predicate RunsFit(cs: nat, n: nat, actions: seq<Action>)
    decreases |actions|
  {
    actions == [] ||
    (match actions[0]
     case Clear => RunsFit(cs, 0, actions[1..])
     case Emit(_) => Pow2(cs) + 2 + n <= MAX_CODES && RunsFit(cs, n + 1, actions[1..]))
  }

  // ---------- the two tables agree ----------

  /** After n strings the decoder's table is one entry behind the encoder's, and that entry is determined by the
      previous string and the next index. */
  ghost predicate InStep(cs: nat, e: Encoder, s: State)
  {
    2 <= cs <= 8 && StateOk(cs, s) && !s.closed && Pow2(cs) + 2 <= |e.table| <= TABLE_SIZE &&
    s.size == Width(cs, e.n) &&
    |s.table| == Pow2(cs) + 2 + (if e.n == 0 then 0 else e.n - 1) &&
    (s.prev >= 0 <==> e.n > 0) &&
    (forall i :: 0 <= i < |e.table| && i < |s.table| ==> e.table[i] == s.table[i]) &&
    (e.rest != [] ==> |e.table| == (if e.n == 0 then |s.table| else if |s.table| < TABLE_SIZE then |s.table| + 1 else TABLE_SIZE)) &&
    |e.table| <= |s.table| + 1 &&
    (|e.table| == |s.table| + 1 ==> s.prev >= 0 && e.rest != [] && e.table[|s.table|] == s.table[s.prev] + [e.rest[0]])
  }

  lemma Doubled(w: nat)
    ensures Pow2(w + 1) == 2 * Pow2(w)
  {
  }

  lemma FitNext(w: nat, code: nat)
    requires w < 12 && Pow2(w) <= code < Pow2(w + 1)
    ensures Fit(w, code) == w + 1
  {
    hide Pow2;
  }

  lemma {:induction false} FitStep(w: nat, code: nat)
    requires w <= 12
    ensures Fit(w, code + 1) == if Fit(w, code) < 12 && code + 1 == Pow2(Fit(w, code)) then Fit(w, code) + 1 else Fit(w, code)
    decreases 12 - w
  {
    hide Pow2;
    if w < 12 {
      Doubled(w);
      if code >= Pow2(w) {
        FitStep(w + 1, code);
      } else if code + 1 == Pow2(w) {
        FitNext(w, code + 1);
      }
    }
  }

  lemma {:induction false} LowIsZero(x: nat, n: nat)
    requires 0 < x <= Pow2(n)
    ensures Low(x, n) == 0 <==> x == Pow2(n)
  {
    if n > 0 && x > 1 {
      LowIsZero(x / 2, n - 1);
    }
  }

  lemma BaseRange(cs: nat)
    requires 2 <= cs <= 8
    ensures 6 <= Pow2(cs) + 2 <= 258 && Pow2(cs) + 2 < Pow2(cs + 1) && cs + 1 <= 9
  {
    Pow2Values();
    Pow2Monotone(cs, 8);
    Pow2Monotone(2, cs);
  }

  /** The decoder widens its codes exactly when the encoder does. */
  lemma WidthsAgree(cs: nat, n: nat)
    requires 2 <= cs <= 8
    ensures Grown(Width(cs, n), Pow2(cs) + 2 + n) == Width(cs, n + 1)
  {
    hide Pow2, Low, Fit;
    BaseRange(cs);
    var base := Pow2(cs) + 2;
    if n == 0 {
      LowIs(base, cs + 1);
      FitFirst(cs + 1, base);
    } else {
      WidthStep(cs + 1, base + n - 1);
    }
  }

  lemma FitFirst(w: nat, code: nat)
    requires w <= 12 && code < Pow2(w)
    ensures Fit(w, code) == w
  {
  }

  lemma WidthStep(w: nat, code: nat)
    requires w <= 12 && code >= 1
    ensures Grown(Fit(w, code), code + 1) == Fit(w, code + 1)
  {
    hide Low;
    FitStep(w, code);
    var f := Fit(w, code);
    Pow2Values();
    if f == 12 {
      if code + 1 <= 0xFFF {
        LowIs(code + 1, 12);
      }
    } else {
      LowIsZero(code + 1, f);
      Pow2Monotone(f, 11);
    }
  }

  lemma ClearInStep(cs: nat, e: Encoder)
    requires 2 <= cs <= 8
    ensures InStep(cs, Emitted(cs, e, Clear), State(cs + 1, Initial(cs), -1, false))
  {
    InitialOk(cs);
    Pow2Values();
    Pow2Monotone(2, cs);
    Pow2Monotone(cs, 8);
  }

  /** The decoder's new entry for the string just named is the one the encoder made a step earlier. */
  lemma EntryAgrees(cs: nat, e: Encoder, s: State, c: nat)
    requires InStep(cs, e, s) && CanEmit(cs, e, Emit(c)) && s.prev >= 0
    ensures c <= |s.table| && e.rest != []
    ensures Entered(s, c) == s.table[s.prev] + [e.rest[0]]
    ensures (s.table + [Entered(s, c)])[c] == e.table[c]
  {
    assert e.table[c] != [];
    assert e.rest[0] == e.table[c][0];
    if c == |s.table| {
      assert e.table[c][0] == s.table[s.prev][0];
    }
  }

  /** The decoder's state after code c while its table has room. */
  ghost function After(s: State, c: nat): State
    requires 0 <= s.prev < |s.table| && c <= |s.table| && s.table[s.prev] != []
    requires c < |s.table| ==> s.table[c] != []
  {
    State(Grown(s.size, |s.table| + 1), s.table + [Entered(s, c)], c, false)
  }

  lemma LaterInStep(cs: nat, e: Encoder, s: State, c: nat)
    requires InStep(cs, e, s) && CanEmit(cs, e, Emit(c)) && s.prev >= 0
    requires c <= |s.table| && e.rest != []
    ensures cs <= 8 && InStep(cs, Emitted(cs, e, Emit(c)), After(s, c))
  {
    hide Grown, Width, Initial, Entered;
    EntryAgrees(cs, e, s, c);
    WidthsAgree(cs, e.n);
    GrownPositive(s.size, |s.table| + 1);
  }

  lemma GrownPositive(size: nat, entries: nat)
    requires size > 0
    ensures Grown(size, entries) > 0
  {
  }

  lemma FirstInStep(cs: nat, e: Encoder, s: State, c: nat)
    requires 2 <= cs <= 8 && InStep(cs, e, s) && CanEmit(cs, e, Emit(c)) && s.prev < 0
    ensures c < |s.table| && e.rest != []
    ensures InStep(cs, Emitted(cs, e, Emit(c)), State(Grown(s.size, |s.table|), s.table, c, false))
  {
    assert e.table[c] != [];
    WidthsAgree(cs, 0);
  }

  /** Decoding the code of a string yields that string and keeps the tables in step. */
  lemma EmitDecodes(cs: nat, e: Encoder, s: State, c: nat)
    requires 2 <= cs <= 8 && InStep(cs, e, s) && CanEmit(cs, e, Emit(c)) && Pow2(cs) + 2 + e.n <= MAX_CODES
    ensures var r := DecodeCode(cs, s, c);
            r.Go? && InStep(cs, Emitted(cs, e, Emit(c)), r.state) && r.out == e.table[c]
  {
    hide InStep, Grown, Width, Initial, Entered;
    InStepFacts(cs, e, s);
    if s.prev >= 0 {
      EntryAgrees(cs, e, s, c);
      LaterInStep(cs, e, s, c);
    } else {
      FirstInStep(cs, e, s, c);
      assert e.table[c] == s.table[c] by { InStepAt(cs, e, s, c); }
    }
  }

  lemma InStepFacts(cs: nat, e: Encoder, s: State)
    requires InStep(cs, e, s)
    ensures StateOk(cs, s) && !s.closed && |s.table| == Pow2(cs) + 2 + (if e.n == 0 then 0 else e.n - 1)
    ensures 2 <= cs <= 8 && (s.prev >= 0 <==> e.n > 0) && s.size == Width(cs, e.n)
  {
  }

  lemma InStepAt(cs: nat, e: Encoder, s: State, c: nat)
    requires InStep(cs, e, s) && c < |e.table| && c < |s.table|
    ensures e.table[c] == s.table[c]
  {
  }

  // ---------- round trip ----------

  lemma CodeFits(cs: nat, n: nat, code: nat)
    requires 2 <= cs <= 8 && code <= Pow2(cs) + 2 + (if n == 0 then 0 else n - 1) && code < TABLE_SIZE
    ensures code < Pow2(Width(cs, n))
  {
    Pow2Values();
    FitCovers(cs + 1, Pow2(cs) + 2 + (if n == 0 then 0 else n - 1), code);
  }

  lemma {:induction false} FitCovers(w: nat, top: nat, code: nat)
    requires w <= 12 && code <= top && code < TABLE_SIZE
    ensures code < Pow2(Fit(w, top))
    decreases 12 - w
  {
    Pow2Values();
    if !(top < Pow2(w) || w == 12) {
      FitCovers(w + 1, top, code);
    }
  }

  lemma EmitFits(cs: nat, e: Encoder, s: State, c: nat)
    requires 2 <= cs <= 8 && InStep(cs, e, s) && CanEmit(cs, e, Emit(c))
    ensures c < Pow2(Width(cs, e.n)) && e.rest != [] && e.table[c] != []
    ensures e.table[c] + Emitted(cs, e, Emit(c)).rest == e.rest
  {
    hide Width, Initial, InStep, StateOk;
    InStepFacts(cs, e, s);
    if s.prev >= 0 {
      LaterFacts(cs, e, s, c);
    } else {
      FirstFacts(cs, e, s, c);
    }
    CodeFits(cs, e.n, c);
  }

  lemma FirstFacts(cs: nat, e: Encoder, s: State, c: nat)
    requires InStep(cs, e, s) && CanEmit(cs, e, Emit(c)) && s.prev < 0
    ensures c < |s.table| && e.rest != [] && e.table[c] != [] && c < TABLE_SIZE
  {
  }

  lemma LaterFacts(cs: nat, e: Encoder, s: State, c: nat)
    requires InStep(cs, e, s) && CanEmit(cs, e, Emit(c)) && s.prev >= 0
    ensures c <= |s.table| && e.rest != [] && e.table[c] != [] && c < TABLE_SIZE
  {
  }

  lemma ClearDecodes(cs: nat, s: State)
    requires StateOk(cs, s)
    ensures DecodeCode(cs, s, Pow2(cs)) == Go(State(cs + 1, Initial(cs), -1, false), [])
    ensures DecodeCode(cs, s, Pow2(cs) + 1) == Stop
  {
  }

  /** The encoded actions stand in the data from position p on. */
  ghost predicate Stands(cs: nat, e: Encoder, data: seq<Byte>, p: nat, actions: seq<Action>)
  {
    2 <= cs <= 8 && Encodes(cs, e, actions) && Carries(data, p, CodeBits(cs, e, actions)) &&
    p + |CodeBits(cs, e, actions)| <= 8 * |data|
  }

  lemma EndStands(cs: nat, e: Encoder, data: seq<Byte>, p: nat)
    requires Stands(cs, e, data, p, [])
    ensures var w := Width(cs, e.n); p + w <= 8 * |data| && Window(data, p, w) == Pow2(cs) + 1 && e.rest == []
  {
    hide Carries, Width, Window;
    CodeFits(cs, e.n, Pow2(cs) + 1) by { EndCodeSmall(cs); }
    ReadLsb(data, p, Pow2(cs) + 1, Width(cs, e.n));
  }

  lemma ActionStands(cs: nat, e: Encoder, data: seq<Byte>, p: nat, actions: seq<Action>)
    requires actions != [] && Stands(cs, e, data, p, actions)
    requires actions[0].Emit? ==> actions[0].code < Pow2(Width(cs, e.n))
    ensures var w := Width(cs, e.n);
            p + w <= 8 * |data| && Window(data, p, w) == (if actions[0].Clear? then Pow2(cs) else actions[0].code) &&
            CanEmit(cs, e, actions[0]) && Stands(cs, Emitted(cs, e, actions[0]), data, p + w, actions[1..])
  {
    hide Carries, Width, Window, Emitted;
    var w := Width(cs, e.n);
    var code := if actions[0].Clear? then Pow2(cs) else actions[0].code;
    CodeFits(cs, e.n, Pow2(cs)) by { EndCodeSmall(cs); }
    CarriesParts(data, p, LsbBits(code, w), CodeBits(cs, Emitted(cs, e, actions[0]), actions[1..]));
    ReadLsb(data, p, code, w);
  }

  lemma ClearStep(cs: nat, e: Encoder, s: State, data: seq<Byte>, p: nat, sofar: seq<Byte>)
    requires 2 <= cs <= 8 && InStep(cs, e, s) && StateOk(cs, s)
    requires p + Width(cs, e.n) <= 8 * |data| && Window(data, p, Width(cs, e.n)) == Pow2(cs)
    ensures s.size > 0 && StateOk(cs, State(cs + 1, Initial(cs), -1, false))
    ensures Decode(cs, s, data, p, sofar) == Decode(cs, State(cs + 1, Initial(cs), -1, false), data, p + Width(cs, e.n), sofar)
  {
    hide InStep, StateOk, Width, DecodeCode, Initial, Window;
    InStepFacts(cs, e, s);
    ClearDecodes(cs, s);
    InitialOk(cs);
    SizePositive(cs, s);
    assert sofar + [] == sofar;
  }

  lemma SizePositive(cs: nat, s: State)
    requires StateOk(cs, s)
    ensures s.size > 0
  {
  }

  lemma EmitStep(cs: nat, e: Encoder, s: State, data: seq<Byte>, p: nat, sofar: seq<Byte>, c: nat) returns (next: State)
    requires 2 <= cs <= 8 && InStep(cs, e, s) && StateOk(cs, s) && CanEmit(cs, e, Emit(c)) && Pow2(cs) + 2 + e.n <= MAX_CODES
    requires p + Width(cs, e.n) <= 8 * |data| && Window(data, p, Width(cs, e.n)) == c
    ensures InStep(cs, Emitted(cs, e, Emit(c)), next) && StateOk(cs, next)
    ensures Decode(cs, s, data, p, sofar) == Decode(cs, next, data, p + Width(cs, e.n), sofar + e.table[c])
  {
    hide InStep, StateOk, Width, DecodeCode, Initial, Window, Emitted, CanEmit;
    InStepFacts(cs, e, s);
    SizePositive(cs, s);
    EmitDecodes(cs, e, s, c);
    var r := DecodeCode(cs, s, c);
    next := r.state;
    InStepFacts(cs, Emitted(cs, e, Emit(c)), next);
  }

  /** Decoding inverts encoding, for every encoder strategy, exactly when no run of strings outgrows the decoder. */
  lemma {:induction false} ActionsDecode(cs: nat, e: Encoder, s: State, data: seq<Byte>, p: nat, actions: seq<Action>,
                                         sofar: seq<Byte>)
    requires InStep(cs, e, s) && StateOk(cs, s) && Stands(cs, e, data, p, actions)
    ensures Decode(cs, s, data, p, sofar) == if RunsFit(cs, e.n, actions) then Image(sofar + e.rest) else Corrupt
    decreases |actions|
  {
    hide InStep, StateOk, Stands, Width, DecodeCode, Initial, Window, CanEmit;
    InStepFacts(cs, e, s);
    SizePositive(cs, s);
    var w := Width(cs, e.n);
    if actions == [] {
      EndStands(cs, e, data, p);
      ClearDecodes(cs, s);
      assert sofar + e.rest == sofar;
    } else if actions[0].Clear? {
      hide Decode;
      ActionStands(cs, e, data, p, actions);
      ClearStep(cs, e, s, data, p, sofar);
      ClearInStep(cs, e);
      ActionsDecode(cs, Emitted(cs, e, Clear), State(cs + 1, Initial(cs), -1, false), data, p + w, actions[1..], sofar);
    } else {
      var c := actions[0].code;
      FirstStands(cs, e, data, p, actions);
      EmitFits(cs, e, s, c);
      ActionStands(cs, e, data, p, actions);
      if Pow2(cs) + 2 + e.n <= MAX_CODES {
        hide Decode, Emitted;
        var next := EmitStep(cs, e, s, data, p, sofar, c);
        var e1 := Emitted(cs, e, Emit(c));
        CountUp(cs, e, c);
        ActionsDecode(cs, e1, next, data, p + w, actions[1..], sofar + e.table[c]);
        assert sofar + e.table[c] + e1.rest == sofar + (e.table[c] + e1.rest);
      } else {
        Overflow(cs, e, s, c);
      }
    }
  }

  lemma FirstStands(cs: nat, e: Encoder, data: seq<Byte>, p: nat, actions: seq<Action>)
    requires actions != [] && Stands(cs, e, data, p, actions)
    ensures CanEmit(cs, e, actions[0]) && (actions[0].Emit? ==> actions[0].code < |e.table|)
  {
  }

  lemma CountUp(cs: nat, e: Encoder, c: nat)
    requires cs <= 8 && CanEmit(cs, e, Emit(c))
    ensures Emitted(cs, e, Emit(c)).n == e.n + 1
  {
  }

  lemma EndCodeSmall(cs: nat)
    requires 2 <= cs <= 8
    ensures Pow2(cs) + 1 < TABLE_SIZE
  {
    Pow2Values();
    Pow2Monotone(cs, 8);
  }

  lemma Overflow(cs: nat, e: Encoder, s: State, c: nat)
    requires InStep(cs, e, s) && CanEmit(cs, e, Emit(c)) && Pow2(cs) + 2 + e.n > MAX_CODES
    ensures DecodeCode(cs, s, c) == Bad
  {
    hide Entered, Grown, InStep, Initial;
    InStepFacts(cs, e, s);
    EndCodeSmall(cs);
    LaterFacts(cs, e, s, c);
  }

  lemma FirstClear(cs: nat, data: seq<Byte>, p: nat)
    requires 2 <= cs <= 8 && Window(data, p, cs + 1) == Pow2(cs) && p + cs + 1 <= 8 * |data|
    ensures StateOk(cs, Start(cs)) && StateOk(cs, State(cs + 1, Initial(cs), -1, false))
    ensures Decode(cs, Start(cs), data, p, []) == Decode(cs, State(cs + 1, Initial(cs), -1, false), data, p + cs + 1, [])
  {
    hide StateOk, DecodeCode, Initial, Window;
    InitialOk(cs);
    ClearDecodes(cs, Start(cs));
    var sofar: seq<Byte> := [];
    assert sofar + [] == sofar;
  }

  /** A whole image: encoders open with a clear code. */
  lemma ImageDecodes(cs: nat, pixels: seq<Byte>, actions: seq<Action>, data: seq<Byte>, p: nat)
    requires 2 <= cs <= 8 && actions != [] && actions[0] == Clear
    requires Encodes(cs, Encoder(Initial(cs), pixels, 0), actions)
    requires Carries(data, p, CodeBits(cs, Encoder(Initial(cs), pixels, 0), actions))
    requires p + |CodeBits(cs, Encoder(Initial(cs), pixels, 0), actions)| <= 8 * |data|
    ensures StateOk(cs, Start(cs))
    ensures Decode(cs, Start(cs), data, p, []) == if RunsFit(cs, 0, actions) then Image(pixels) else Corrupt
  {
    hide InStep, Carries, StateOk, DecodeCode, Initial, Window, CodeBits, Decode, Width, Encodes;
    var e := Encoder(Initial(cs), pixels, 0);
    assert Stands(cs, e, data, p, actions);
    hide Stands;
    FirstWidth(cs);
    ActionStands(cs, e, data, p, actions);
    FirstClear(cs, data, p);
    ClearInStep(cs, e);
    ActionsDecode(cs, Emitted(cs, e, Clear), State(cs + 1, Initial(cs), -1, false), data, p + cs + 1, actions[1..], []);
    assert [] + pixels == pixels;
  }

  lemma FirstWidth(cs: nat)
    requires 2 <= cs <= 8
    ensures Width(cs, 0) == cs + 1
  {
    Pow2Monotone(2, cs);
    Pow2Values();
  }

  // ---------- the longest-match encoder of Appendix F ----------

  ghost predicate Singles(cs: nat, table: seq<seq<Byte>>)
  {
    cs <= 8 && Pow2(cs) + 2 <= |table| && forall i :: 0 <= i < Pow2(cs) ==> |table[i]| == 1 && table[i][0] == i
  }

  /** The code among the first n of the longest table string that `rest` starts with. */
  ghost function LongestMatch(cs: nat, table: seq<seq<Byte>>, rest: seq<Byte>, n: nat): (c: nat)
    requires Singles(cs, table) && Pow2(cs) <= n <= |table| && rest != [] && rest[0] < Pow2(cs)
    ensures c < n && c != Pow2(cs) && c != Pow2(cs) + 1 && table[c] <= rest && table[c] != []
    ensures forall i :: 0 <= i < n && i != Pow2(cs) && i != Pow2(cs) + 1 && table[i] <= rest ==> |table[i]| <= |table[c]|
    decreases n
  {
    if n == Pow2(cs) then rest[0]
    else
      var c := LongestMatch(cs, table, rest, n - 1);
      if n - 1 != Pow2(cs) && n - 1 != Pow2(cs) + 1 && table[n - 1] <= rest && |table[n - 1]| > |table[c]| then n - 1 else c
  }

  ghost predicate Pixels(cs: nat, pixels: seq<Byte>)
  {
    cs <= 8 && forall i :: 0 <= i < |pixels| ==> pixels[i] < Pow2(cs)
  }

  /** Longest matches, with a clear code whenever the table is full. */
  ghost function Greedy(cs: nat, e: Encoder): (actions: seq<Action>)
    requires Singles(cs, e.table) && Pixels(cs, e.rest)
    decreases |e.rest|, if |e.table| >= TABLE_SIZE then 1 else 0
  {
    if e.rest == [] then []
    else if |e.table| >= TABLE_SIZE then
      InitialSingles(cs);
      [Clear] + Greedy(cs, Emitted(cs, e, Clear))
    else
      var c := LongestMatch(cs, e.table, e.rest, |e.table|);
      EmittedSingles(cs, e, c);
      [Emit(c)] + Greedy(cs, Emitted(cs, e, Emit(c)))
  }

  lemma InitialSingles(cs: nat)
    requires cs <= 8
    ensures Singles(cs, Initial(cs)) && |Initial(cs)| < TABLE_SIZE
  {
    Pow2Values();
    Pow2Monotone(cs, 8);
  }

  lemma EmittedSingles(cs: nat, e: Encoder, c: nat)
    requires Singles(cs, e.table) && Pixels(cs, e.rest) && CanEmit(cs, e, Emit(c)) && e.table[c] != []
    ensures var next := Emitted(cs, e, Emit(c));
            Singles(cs, next.table) && Pixels(cs, next.rest) && |next.rest| < |e.rest|
  {
  }

  lemma Prepend(cs: nat, e: Encoder, a: Action, rest: seq<Action>)
    requires cs <= 8 && CanEmit(cs, e, a) && Encodes(cs, Emitted(cs, e, a), rest)
    requires RunsFit(cs, Emitted(cs, e, a).n, rest) && (a.Emit? ==> Pow2(cs) + 2 + e.n <= MAX_CODES)
    ensures Encodes(cs, e, [a] + rest) && RunsFit(cs, e.n, [a] + rest)
  {
    hide Initial;
    assert ([a] + rest)[1..] == rest;
  }

  lemma EmittedCount(cs: nat, e: Encoder, c: nat)
    requires cs <= 8 && CanEmit(cs, e, Emit(c)) && |e.table| == Pow2(cs) + 2 + e.n < TABLE_SIZE
    ensures var next := Emitted(cs, e, Emit(c));
            |next.table| <= TABLE_SIZE && (next.rest != [] ==> |next.table| == Pow2(cs) + 2 + next.n)
  {
  }

  /** The longest-match encoder encodes any image, and its runs always fit. */
  lemma {:induction false} GreedyEncodes(cs: nat, e: Encoder)
    requires Singles(cs, e.table) && Pixels(cs, e.rest) && |e.table| <= TABLE_SIZE
    requires e.rest != [] ==> |e.table| == Pow2(cs) + 2 + e.n
    ensures Encodes(cs, e, Greedy(cs, e)) && RunsFit(cs, e.n, Greedy(cs, e))
    decreases |e.rest|, if |e.table| >= TABLE_SIZE then 1 else 0
  {
    hide Initial, Emitted, Encodes, RunsFit, CanEmit;
    if e.rest == [] {
      NothingLeft(cs, e);
    } else if |e.table| >= TABLE_SIZE {
      InitialSingles(cs);
      ClearEncoder(cs, e);
      GreedyEncodes(cs, Emitted(cs, e, Clear));
      Prepend(cs, e, Clear, Greedy(cs, Emitted(cs, e, Clear)));
    } else {
      var c := LongestMatch(cs, e.table, e.rest, |e.table|);
      assert CanEmit(cs, e, Emit(c)) by { MatchEmits(cs, e, c); }
      EmittedSingles(cs, e, c);
      EmittedCount(cs, e, c);
      GreedyEncodes(cs, Emitted(cs, e, Emit(c)));
      Prepend(cs, e, Emit(c), Greedy(cs, Emitted(cs, e, Emit(c))));
    }
  }

  lemma NothingLeft(cs: nat, e: Encoder)
    requires cs <= 8 && e.rest == []
    ensures Encodes(cs, e, []) && RunsFit(cs, e.n, [])
  {
  }

  lemma ClearEncoder(cs: nat, e: Encoder)
    requires cs <= 8
    ensures CanEmit(cs, e, Clear) && Emitted(cs, e, Clear) == Encoder(Initial(cs), e.rest, 0)
  {
  }

  lemma MatchEmits(cs: nat, e: Encoder, c: nat)
    requires c < |e.table| && c != Pow2(cs) && c != Pow2(cs) + 1 && e.table[c] <= e.rest
    ensures CanEmit(cs, e, Emit(c))
  {
  }
}
