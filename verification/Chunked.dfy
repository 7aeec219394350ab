/** The chunked transfer coding (section 7.1 of RFC 9112): what is written, and what a text of chunks means. */
module Chunked {
  import opened Basics
  import opened HttpText
  import opened UrlCoding
  import opened HeaderLine

  const ULONG_MAX: nat := 0xFFFF_FFFF_FFFF_FFFF

  // ---------- numbers ----------

  function LowerHexDigit(d: nat): (c: char)
    requires d < 16
    ensures IsHex(c) == Some(d)
    ensures '0' <= c <= '9' || 'a' <= c <= 'f'
  {
    if d < 10 then ('0' as nat + d) as char else ('a' as nat + d - 10) as char
  }

  function Hex(n: nat): (s: string)
    ensures s != []
  {
    if n < 16 then [LowerHexDigit(n)] else Hex(n / 16) + [LowerHexDigit(n % 16)]
  }

  method FromIToHex(size: nat) returns (ret: string)
    ensures ret == Hex(size)
  {
    var n := size;
    ret := [LowerHexDigit(n % 16)];
    n := n / 16;
    assert n > 0 ==> Hex(size) == Hex(n) + ret;
    while n > 0
      invariant if n > 0 then Hex(size) == Hex(n) + ret else ret == Hex(size)
    {
      ghost var before := ret;
      ret := [LowerHexDigit(n % 16)] + ret;
      if n >= 16 {
        assert Hex(n) + before == Hex(n / 16) + ret;
      }
      n := n / 16;
    }
  }

  function SpacesEnd(s: string, i: nat): (e: nat)
    requires i <= |s|
    ensures i <= e <= |s|
    decreases |s| - i
  {
    if i < |s| && IsSpace(s[i]) then SpacesEnd(s, i + 1) else i
  }

  function DigitsEnd(s: string, i: nat): (e: nat)
    requires i <= |s|
    ensures i <= e <= |s| && AllHex(s[i..e])
    decreases |s| - i
  {
    if i < |s| && IsHex(s[i]).Some? then
      var e := DigitsEnd(s, i + 1);
      assert s[i..e] == [s[i]] + s[i + 1..e];
      e
    else i
  }

  /** The C library's strtoul with base 16 on a 64-bit unsigned long: blanks, a sign, an optional 0x, digits; too large
      a number gives the largest one. The value, and whether there was a number at all. */
  function StrToUl(s: string): (nat, bool)
  {
    var b := SpacesEnd(s, 0);
    var minus := b < |s| && s[b] == '-';
    var i := if b < |s| && (s[b] == '-' || s[b] == '+') then b + 1 else b;
    var j := if i + 2 < |s| && s[i] == '0' && (s[i + 1] == 'x' || s[i + 1] == 'X') && IsHex(s[i + 2]).Some? then i + 2 else i;
    var e := DigitsEnd(s, j);
    if e == j then (0, false)
    else
      var v := HexValue(s[j..e]);
      if v > ULONG_MAX then (ULONG_MAX, true)
      else if minus && v > 0 then (ULONG_MAX + 1 - v, true)
      else (v, true)
  }

  /** A C string ends at the first zero. */
  function CStr(s: string): string
  {
    if s == [] || s[0] == 0 as char then [] else [s[0]] + CStr(s[1..])
  }

  // ---------- what a text of chunks means ----------

  datatype Body = Body(payload: string, trailers: seq<Field>, next: nat)

  /** Where the line that starts at pos ends, behind its newline. At the end of the text the line ends too, unless the
      stream reports an error there. */
  function LineEnd(text: string, pos: nat, broken: bool): (r: Option<nat>)
    requires pos <= |text|
    ensures r.Some? ==> pos < r.value <= |text|
    decreases |text| - pos
  {
    if pos == |text| then None
    else if text[pos] == '\n' then Some(pos + 1)
    else if pos + 1 == |text| then (if broken then None else Some(pos + 1))
    else LineEnd(text, pos + 1, broken)
  }

  /** The field on a line without its line terminator, if there is one. */
  function FieldsOn(line: string): seq<Field>
  {
    if |line| < 2 then [] else
      var f := FieldOn(line[..|line| - 2]);
      if f.None? then [] else [f.value]
  }

  /** The fields on the lines behind the last chunk, up to an empty one. */
  function TrailerAt(text: string, pos: nat, broken: bool): Option<Body>
    requires pos <= |text|
    decreases |text| - pos
  {
    var e := LineEnd(text, pos, broken);
    if e.None? then None
    else if CStr(text[pos..e.value]) == Crlf() then Some(Body([], [], e.value))
    else if e.value - pos > HEADER_MAX_LENGTH then None
    else
      var rest := TrailerAt(text, e.value, broken);
      if rest.None? then None
      else Some(rest.value.(trailers := FieldsOn(text[pos..e.value]) + rest.value.trailers))
  }

  /** The chunk at pos: the length of its data and where they start. */
  function SizeLine(text: string, pos: nat, broken: bool): (r: Option<(nat, nat)>)
    requires pos <= |text|
    ensures r.Some? ==> pos < r.value.1 <= |text|
  {
    var e := LineEnd(text, pos, broken);
    if e.None? then None
    else
      var (len, found) := StrToUl(CStr(text[pos..e.value]));
      if !found || len == ULONG_MAX then None else Some((len, e.value))
  }

  /** Where the data of a chunk and the line end behind them end. */
  function DataEnd(text: string, start: nat, len: nat, broken: bool): (r: Option<nat>)
    requires start <= |text|
    ensures r.Some? ==> start + len < r.value <= |text|
  {
    if start + len > |text| then None
    else
      var e := LineEnd(text, start + len, broken);
      if e.Some? && CStr(text[start + len..e.value]) == Crlf() then e else None
  }

  /** A chunked body read from position pos. */
  function BodyAt(text: string, pos: nat, broken: bool): Option<Body>
    requires pos <= |text|
    decreases |text| - pos
  {
    var size := SizeLine(text, pos, broken);
    if size.None? then None
    else
      var (len, start) := size.value;
      if len == 0 then TrailerAt(text, start, broken)
      else
        var end := DataEnd(text, start, len, broken);
        if end.None? then None
        else
          var rest := BodyAt(text, end.value, broken);
          if rest.None? then None
          else Some(rest.value.(payload := text[start..start + len] + rest.value.payload))
  }

  /** The data of a chunk, as far as they are there. */
  function DataAt(text: string, start: nat, len: nat): string
    requires start <= |text|
  {
    if start + len <= |text| then text[start..start + len] else text[start..]
  }

  /** The data of the chunks from position pos on, as far as they can be read. */
  function PayloadAt(text: string, pos: nat, broken: bool): string
    requires pos <= |text|
    decreases |text| - pos
  {
    var size := SizeLine(text, pos, broken);
    if size.None? || size.value.0 == 0 then []
    else
      var (len, start) := size.value;
      var end := DataEnd(text, start, len, broken);
      DataAt(text, start, len) + if end.None? then [] else PayloadAt(text, end.value, broken)
  }

  // ---------- what is written ----------

  function Chunk(data: string): string
  {
    Hex(|data|) + Crlf() + data + Crlf()
  }

  function FieldLine(field: Field): string
  {
    Printed(field) + Crlf()
  }

  function FieldLines(fields: seq<Field>): string
  {
    if fields == [] then [] else FieldLines(fields[..|fields| - 1]) + FieldLine(fields[|fields| - 1])
  }

  function LastChunk(fields: seq<Field>): string
  {
    "0\r\n" + FieldLines(fields) + Crlf()
  }

  function Chunks(writes: seq<string>): string
  {
    if writes == [] then [] else Chunk(writes[0]) + Chunks(writes[1..])
  }

  // ---------- reading undoes writing ----------

  lemma {:induction false} HexRead(n: nat)
    ensures AllHex(Hex(n)) && HexValue(Hex(n)) == n && IsHex(Hex(n)[0]).Some?
    decreases n
  {
    if n < 16 {
      assert [LowerHexDigit(n)][..0] == [];
      assert HexValue(Hex(n)) == n;
    } else {
      HexRead(n / 16);
      var s := Hex(n);
      assert s[..|s| - 1] == Hex(n / 16);
    }
  }

  lemma {:induction false} DigitsEndAt(s: string, i: nat, e: nat)
    requires i <= e <= |s| && AllHex(s[i..e]) && (e < |s| ==> IsHex(s[e]).None?)
    ensures DigitsEnd(s, i) == e
    decreases e - i
  {
    if i < e {
      assert s[i..e][0] == s[i];
      assert s[i + 1..e] == s[i..e][1..];
      DigitsEndAt(s, i + 1, e);
    }
  }

  lemma DigitIsPlain(c: char)
    requires IsHex(c).Some?
    ensures !IsSpace(c) && c != '-' && c != '+' && c != 'x' && c != 'X' && c != '\n' && c != 0 as char
  {
  }

  /** Printed numbers are read back. */
  lemma HexInverted(n: nat)
    requires n <= ULONG_MAX
    ensures StrToUl(Hex(n) + Crlf()) == (n, true)
  {
    hide Hex, HexValue;
    HexRead(n);
    var h := Hex(n);
    var s := h + Crlf();
    DigitIsPlain(h[0]);
    if |h| > 1 {
      DigitIsPlain(h[1]);
    }
    assert SpacesEnd(s, 0) == 0;
    assert s[0..|h|] == h;
    DigitsEndAt(s, 0, |h|);
  }

  lemma {:induction false} NoZero(s: string)
    requires 0 as char !in s
    ensures CStr(s) == s
    decreases |s|
  {
    if s != [] {
      assert s[0] in s;
      NoZero(s[1..]);
    }
  }

  lemma {:induction false} LineEndAt(text: string, pos: nat, e: nat, broken: bool)
    requires pos < e <= |text| && text[e - 1] == '\n' && '\n' !in text[pos..e - 1]
    ensures LineEnd(text, pos, broken) == Some(e)
    decreases e - pos
  {
    if pos + 1 < e {
      assert text[pos..e - 1][0] == text[pos];
      assert text[pos + 1..e - 1] == text[pos..e - 1][1..];
      LineEndAt(text, pos + 1, e, broken);
    }
  }

  /** A line that stands at pos. */
  lemma LineThere(text: string, pos: nat, line: string, broken: bool)
    requires pos + |line| + 2 <= |text| && text[pos..pos + |line| + 2] == line + Crlf()
    requires '\n' !in line
    ensures LineEnd(text, pos, broken) == Some(pos + |line| + 2)
  {
    var e := pos + |line| + 2;
    var t := text[pos..e];
    assert text[e - 1] == t[|line| + 1] == '\n';
    assert text[pos..e - 1] == t[..|line| + 1] == line + "\r";
    LineEndAt(text, pos, e, broken);
  }

  lemma HexClean(n: nat)
    ensures '\n' !in Hex(n) && 0 as char !in Hex(n)
  {
    HexRead(n);
    forall i | 0 <= i < |Hex(n)|
      ensures Hex(n)[i] != '\n' && Hex(n)[i] != 0 as char
    {
      DigitIsPlain(Hex(n)[i]);
    }
  }

  lemma SizeThere(text: string, pos: nat, n: nat, broken: bool)
    requires n < ULONG_MAX
    requires pos + |Hex(n)| + 2 <= |text| && text[pos..pos + |Hex(n)| + 2] == Hex(n) + Crlf()
    ensures SizeLine(text, pos, broken) == Some((n, pos + |Hex(n)| + 2))
  {
    hide Hex, StrToUl, LineEnd, CStr;
    HexClean(n);
    LineThere(text, pos, Hex(n), broken);
    HexInverted(n);
    NoZero(Hex(n) + Crlf());
  }

  lemma CrlfThere(text: string, pos: nat, broken: bool)
    requires pos + 2 <= |text| && text[pos..pos + 2] == Crlf()
    ensures LineEnd(text, pos, broken) == Some(pos + 2) && CStr(text[pos..pos + 2]) == Crlf()
  {
    hide LineEnd;
    assert [] + Crlf() == Crlf();
    LineThere(text, pos, [], broken);
    NoZero(Crlf());
  }

  /** One chunk, and what follows it. */
  lemma ChunkThere(text: string, pos: nat, data: string, broken: bool)
    requires data != [] && |data| < ULONG_MAX
    requires pos + |Chunk(data)| <= |text| && text[pos..pos + |Chunk(data)|] == Chunk(data)
    ensures var rest := BodyAt(text, pos + |Chunk(data)|, broken);
            BodyAt(text, pos, broken) ==
            if rest.None? then None else Some(rest.value.(payload := data + rest.value.payload))
  {
    hide Hex, SizeLine, LineEnd, CStr, TrailerAt;
    var h := Hex(|data|);
    var c := Chunk(data);
    Part(text, pos, c, 0, |h| + 2);
    Part(text, pos, c, |h| + 2, |h| + 2 + |data|);
    Part(text, pos, c, |h| + 2 + |data|, |c|);
    assert c[0..|h| + 2] == h + Crlf() && c[|h| + 2..|h| + 2 + |data|] == data && c[|h| + 2 + |data|..|c|] == Crlf();
    SizeThere(text, pos, |data|, broken);
    CrlfThere(text, pos + |h| + 2 + |data|, broken);
  }

  lemma Part(text: string, pos: nat, c: string, i: nat, j: nat)
    requires pos + |c| <= |text| && text[pos..pos + |c|] == c && i <= j <= |c|
    ensures text[pos + i..pos + j] == c[i..j]
  {
    Slice(text, pos, pos + |c|, i, j);
  }

  /** A trailer field that keeps to its line. */
  predicate FieldOk(field: Field)
  {
    '\n' !in field.0 && '\n' !in field.1 && |FieldLine(field)| <= HEADER_MAX_LENGTH
  }

  predicate FieldsOk(fields: seq<Field>)
  {
    forall i :: 0 <= i < |fields| ==> FieldOk(fields[i])
  }

  /** What is read of printed fields. */
  function ReadBack(fields: seq<Field>): seq<Field>
  {
    if fields == [] then [] else FieldsOn(FieldLine(fields[0])) + ReadBack(fields[1..])
  }

  lemma {:induction false} FieldLinesFirst(fields: seq<Field>)
    requires fields != []
    ensures FieldLines(fields) == FieldLine(fields[0]) + FieldLines(fields[1..])
    decreases |fields|
  {
    hide FieldLine;
    var n := |fields| - 1;
    if n == 0 {
      assert fields[..0] == [] && fields[1..] == [];
    } else {
      FieldLinesFirst(fields[..n]);
      assert fields[..n][1..] == fields[1..][..n - 1];
      var a, b, c := FieldLine(fields[0]), FieldLines(fields[1..][..n - 1]), FieldLine(fields[n]);
      assert a + b + c == a + (b + c);
    }
  }

  /** A field line is never taken for the empty line. */
  lemma FieldNotEmpty(field: Field)
    requires FieldOk(field)
    ensures CStr(FieldLine(field)) != Crlf()
  {
    hide CStr;
    var s := FieldLine(field);
    CPrefix(s);
    if |field.0| == 0 {
      assert s[0] == ':';
    } else if |field.0| == 1 {
      assert s[1] == ':';
    } else {
      assert s[1] == field.0[1] && field.0[1] in field.0;
    }
  }

  lemma {:induction false} CPrefix(s: string)
    ensures CStr(s) <= s
    decreases |s|
  {
    if s != [] && s[0] != 0 as char {
      CPrefix(s[1..]);
    }
  }

  lemma FieldThere(text: string, pos: nat, field: Field, broken: bool)
    requires FieldOk(field)
    requires pos + |FieldLine(field)| <= |text| && text[pos..pos + |FieldLine(field)|] == FieldLine(field)
    ensures var rest := TrailerAt(text, pos + |FieldLine(field)|, broken);
            TrailerAt(text, pos, broken) ==
            if rest.None? then None
            else Some(rest.value.(trailers := FieldsOn(FieldLine(field)) + rest.value.trailers))
  {
    hide LineEnd, CStr, FieldsOn;
    LineThere(text, pos, Printed(field), broken);
    FieldNotEmpty(field);
  }

  lemma EmptyLineThere(text: string, pos: nat, broken: bool)
    requires pos + 2 <= |text| && text[pos..pos + 2] == Crlf()
    ensures TrailerAt(text, pos, broken) == Some(Body([], [], pos + 2))
  {
    hide CStr, LineEnd;
    CrlfThere(text, pos, broken);
  }

  lemma NoFields()
    ensures FieldLines([]) + Crlf() == Crlf()
  {
    assert [] + Crlf() == Crlf();
  }

  /** The trailer fields are read back, and reading stops behind the empty line. */
  lemma {:induction false} FieldsThere(text: string, pos: nat, fields: seq<Field>, broken: bool)
    requires FieldsOk(fields)
    requires var t := FieldLines(fields) + Crlf(); pos + |t| <= |text| && text[pos..pos + |t|] == t
    ensures var t := FieldLines(fields) + Crlf();
            TrailerAt(text, pos, broken) == Some(Body([], ReadBack(fields), pos + |t|))
    decreases |fields|
  {
    hide FieldLine, FieldOk, TrailerAt, FieldsOn, FieldLines;
    var t := FieldLines(fields) + Crlf();
    NoFields();
    if fields == [] {
      EmptyLineThere(text, pos, broken);
    } else {
      FieldLinesFirst(fields);
      var f, r := FieldLine(fields[0]), FieldLines(fields[1..]) + Crlf();
      assert t == f + r && t[0..|f|] == f && t[|f|..|t|] == r;
      Part(text, pos, t, 0, |f|);
      Part(text, pos, t, |f|, |t|);
      FieldThere(text, pos, fields[0], broken);
      FieldsThere(text, pos + |f|, fields[1..], broken);
    }
  }

  /** What can be written: every write is non-empty and its length below the largest unsigned long. */
  predicate WritesOk(writes: seq<string>)
  {
    forall i :: 0 <= i < |writes| ==> writes[i] != [] && |writes[i]| < ULONG_MAX
  }

  lemma LastThere(text: string, pos: nat, fields: seq<Field>, broken: bool)
    requires FieldsOk(fields)
    requires pos + |LastChunk(fields)| <= |text| && text[pos..pos + |LastChunk(fields)|] == LastChunk(fields)
    ensures BodyAt(text, pos, broken) == Some(Body([], ReadBack(fields), pos + |LastChunk(fields)|))
  {
    hide FieldsOk, FieldLines, SizeLine, TrailerAt;
    var c := LastChunk(fields);
    assert Hex(0) == "0" && "0" + Crlf() == "0\r\n";
    assert c == "0\r\n" + (FieldLines(fields) + Crlf());
    assert c[0..3] == "0\r\n" && c[3..|c|] == FieldLines(fields) + Crlf();
    Part(text, pos, c, 0, 3);
    Part(text, pos, c, 3, |c|);
    SizeThere(text, pos, 0, broken);
    FieldsThere(text, pos + 3, fields, broken);
  }

  /** Reading undoes writing: the payload is what was written, the trailer fields are read back, and reading stops right
      behind the terminator, whatever follows it. */
  lemma {:induction false} ChunkedRoundTrip(text: string, pos: nat, writes: seq<string>, fields: seq<Field>,
      broken: bool)
    requires WritesOk(writes) && FieldsOk(fields)
    requires var t := Chunks(writes) + LastChunk(fields); pos + |t| <= |text| && text[pos..pos + |t|] == t
    ensures var t := Chunks(writes) + LastChunk(fields);
            BodyAt(text, pos, broken) == Some(Body(Concat(writes), ReadBack(fields), pos + |t|))
    decreases |writes|
  {
    hide FieldsOk, Chunk, LastChunk, BodyAt;
    var t := Chunks(writes) + LastChunk(fields);
    if writes == [] {
      assert t == LastChunk(fields);
      LastThere(text, pos, fields, broken);
    } else {
      var c, r := Chunk(writes[0]), Chunks(writes[1..]) + LastChunk(fields);
      assert t == c + r && t[0..|c|] == c && t[|c|..|t|] == r;
      Part(text, pos, t, 0, |c|);
      Part(text, pos, t, |c|, |t|);
      ChunkThere(text, pos, writes[0], broken);
      ChunkedRoundTrip(text, pos + |c|, writes[1..], fields, broken);
    }
  }

  /** A key without a colon, and a value without blanks at its ends. */
  predicate Plain(field: Field)
  {
    ':' !in field.0 && field.1 != [] && Trimmed(field.1)
  }

  /** Trailer fields come back unchanged if and only if no value but that of a location looks percent-encoded. */
  lemma {:induction false} TrailersComeBack(fields: seq<Field>)
    requires forall i :: 0 <= i < |fields| ==> Plain(fields[i])
    ensures |ReadBack(fields)| == |fields|
    ensures ReadBack(fields) == fields <==>
            forall i :: 0 <= i < |fields| ==> SameIgnoringCase(fields[i].0, "Location") || !Escaped(fields[i].1)
    decreases |fields|
  {
    hide FieldOn, Printed, SameIgnoringCase, Escaped;
    if fields != [] {
      var f := fields[0];
      FieldSurvives(f);
      PrintedRead(f);
      assert (Printed(f) + Crlf())[..|Printed(f)|] == Printed(f);
      TrailersComeBack(fields[1..]);
      assert ReadBack(fields)[1..] == ReadBack(fields[1..]);
      assert forall i :: 0 <= i < |fields[1..]| ==> fields[1..][i] == fields[i + 1];
      assert fields == [f] + fields[1..];
      assert (forall i :: 0 <= i < |fields| ==> SameIgnoringCase(fields[i].0, "Location") || !Escaped(fields[i].1)) ==
             ((SameIgnoringCase(f.0, "Location") || !Escaped(f.1)) &&
              forall i :: 1 <= i < |fields| ==> SameIgnoringCase(fields[i].0, "Location") || !Escaped(fields[i].1));
    }
  }
}
