/** One header line: the key in front of the colon, the value behind it. */
module HeaderLine {
  import opened Basics
  import opened HttpText
  import opened UrlCoding

  type Field = (string, string)

  function BlanksBehindOff(s: string): (t: string)
    ensures t <= s && Blank(s[|t|..]) && (t != [] ==> !IsSpaceOrTab(t[|t| - 1]))
    decreases |s|
  {
    if s != [] && IsSpaceOrTab(s[|s| - 1]) then
      var t := BlanksBehindOff(s[..|s| - 1]);
      assert s[|t|..] == s[..|s| - 1][|t|..] + [s[|s| - 1]];
      t
    else s
  }

  function BlanksInFrontOff(s: string): (t: string)
    ensures |t| <= |s| && (t != [] ==> !IsSpaceOrTab(t[0]))
    decreases |s|
  {
    if s != [] && IsSpaceOrTab(s[0]) then BlanksInFrontOff(s[1..]) else s
  }

  /** The place of the first colon; the length of the text if there is none. */
  function Colon(s: string): (c: nat)
    ensures c <= |s| && (c < |s| ==> s[c] == ':') && ':' !in s[..c]
    decreases |s|
  {
    if s == [] || s[0] == ':' then 0
    else
      var c := Colon(s[1..]);
      assert s[..c + 1] == [s[0]] + s[1..][..c];
      c + 1
  }

  /** A value is percent-decoded, unless it is a location. */
  function ValueRead(key: string, value: string): string
  {
    if SameIgnoringCase(key, "Location") then value else Decoded(value, false)
  }

  /** The field on a line, if it has a colon and a value behind it. */
  function FieldOn(line: string): Option<Field>
  {
    var t := BlanksBehindOff(line);
    var c := Colon(t);
    if c == |t| then None
    else
      var v := BlanksInFrontOff(t[c + 1..]);
      if v == [] then None else Some((t[..c], ValueRead(t[..c], v)))
  }

  method CompareCaseIgnore(a: string, b: string) returns (r: bool)
    ensures r <==> SameIgnoringCase(a, b)
  {
    if |a| != |b| {
      return false;
    }
    for i := 0 to |b|
      invariant forall k :: 0 <= k < i ==> ToLower(a[k]) == ToLower(b[k])
    {
      if ToLower(a[i]) != ToLower(b[i]) {
        return false;
      }
    }
    return true;
  }

  /** Where the text ends without the blanks behind it. */
  method TextEnd(line: string) returns (end: nat)
    ensures end <= |line| && line[..end] == BlanksBehindOff(line)
  {
    end := |line|;
    assert line[..end] == line;
    while 0 < end && IsSpaceOrTab(line[end - 1])
      invariant end <= |line| && BlanksBehindOff(line[..end]) == BlanksBehindOff(line)
    {
      assert line[..end][..end - 1] == line[..end - 1];
      end := end - 1;
    }
  }

  method KeyEnd(line: string, end: nat) returns (p: nat)
    requires end <= |line|
    ensures p == Colon(line[..end])
  {
    p := 0;
    ghost var t := line[..end];
    assert t[0..] == t;
    while p < end && line[p] != ':'
      invariant p <= end && p + Colon(t[p..]) == Colon(t)
    {
      assert t[p..][1..] == t[p + 1..];
      p := p + 1;
    }
  }

  method ValueStart(line: string, from: nat, end: nat) returns (p: nat)
    requires from <= end <= |line|
    ensures p <= end && line[p..end] == BlanksInFrontOff(line[from..end])
  {
    p := from;
    while p < end && IsSpaceOrTab(line[p])
      invariant from <= p <= end && BlanksInFrontOff(line[p..end]) == BlanksInFrontOff(line[from..end])
    {
      assert line[p..end][1..] == line[p + 1..end];
      p := p + 1;
    }
  }

  method ParseHeader(line: string) returns (field: Option<Field>)
    ensures field == FieldOn(line)
  {
    hide Decoded, SameIgnoringCase, Colon, BlanksBehindOff, BlanksInFrontOff;
    var end := TextEnd(line);
    var keyEnd := KeyEnd(line, end);
    if keyEnd == end {
      return None;
    }
    assert line[..end][..keyEnd] == line[..keyEnd] && line[..end][keyEnd + 1..] == line[keyEnd + 1..end];
    var p := ValueStart(line, keyEnd + 1, end);
    if p < end {
      var key, v := line[..keyEnd], line[p..end];
      var location := CompareCaseIgnore(key, "Location");
      if !location {
        v := DecodeUrl(v, false);
      }
      return Some((key, v));
    }
    return None;
  }

  // ---------- reading what was printed ----------

  function Printed(field: Field): string
  {
    field.0 + ": " + field.1
  }

  lemma {:induction false} ColonAt(s: string, c: nat)
    requires c < |s| && s[c] == ':' && ':' !in s[..c]
    ensures Colon(s) == c
  {
    if c > 0 {
      assert s[0] in s[..c];
      assert s[1..][..c - 1] == s[..c][1..];
      ColonAt(s[1..], c - 1);
    }
  }

  /** A key without a colon and a value without blanks at its ends are found again; the value is decoded. */
  lemma PrintedRead(field: Field)
    requires ':' !in field.0 && field.1 != [] && Trimmed(field.1)
    ensures FieldOn(Printed(field)) == Some((field.0, ValueRead(field.0, field.1)))
  {
    hide ValueRead;
    var s, c, v := Printed(field), |field.0|, field.1;
    assert s[|s| - 1] == v[|v| - 1];
    assert s[..c] == field.0;
    ColonAt(s, c);
    assert s[c] == ':' && s[c + 1..] == " " + v && (" " + v)[1..] == v;
    assert BlanksInFrontOff(" " + v) == BlanksInFrontOff(v) == v;
    assert BlanksBehindOff(s) == s;
  }

  /** Somewhere in the value stands a percent sign with its digits. */
  predicate Escaped(value: string)
  {
    exists i :: 0 <= i < |value| && DecodeOne(value[i..], false).1 > 1
  }

  lemma OneShorter(s: string)
    requires s != []
    ensures var (text, n) := DecodeOne(s, false); |text| <= n && (n == 1 ==> text == [s[0]]) && (n > 1 ==> |text| < n)
  {
    hide HexAt;
  }

  lemma {:induction false} DecodedShorter(s: string)
    ensures |Decoded(s, false)| <= |s|
    ensures Decoded(s, false) == s <==> !Escaped(s)
    decreases |s|
  {
    hide DecodeOne;
    if s != [] {
      var (text, n) := DecodeOne(s, false);
      OneShorter(s);
      DecodedShorter(s[n..]);
      assert s[0..] == s;
      if n == 1 {
        assert s == [s[0]] + s[1..];
        EscapedLater(s);
        assert Decoded(s, false)[1..] == Decoded(s[1..], false);
      } else {
        assert |Decoded(s, false)| < |s|;
      }
    }
  }

  lemma EscapedLater(s: string)
    requires s != [] && DecodeOne(s, false).1 == 1
    ensures Escaped(s) <==> Escaped(s[1..])
  {
    hide DecodeOne;
    assert s[0..] == s;
    if Escaped(s) {
      var i :| 0 <= i < |s| && DecodeOne(s[i..], false).1 > 1;
      assert s[1..][i - 1..] == s[i..];
    }
    if Escaped(s[1..]) {
      var i :| 0 <= i < |s[1..]| && DecodeOne(s[1..][i..], false).1 > 1;
      assert s[1..][i..] == s[i + 1..];
    }
  }

  /** A printed field is read back unchanged if and only if it is a location or nothing in its value looks like an escape:
      values are decoded, but not encoded when they are printed. */
  lemma FieldSurvives(field: Field)
    requires ':' !in field.0 && field.1 != [] && Trimmed(field.1)
    ensures FieldOn(Printed(field)) == Some(field) <==> SameIgnoringCase(field.0, "Location") || !Escaped(field.1)
  {
    hide Decoded, Escaped;
    PrintedRead(field);
    DecodedShorter(field.1);
  }
}
