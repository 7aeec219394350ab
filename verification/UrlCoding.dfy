/** Percent coding of query parameters and the query string built from them. Bytes are the characters below 256. */
module UrlCoding {
  import opened Basics

  predicate IsByte(c: char)
  {
    c < 256 as char
  }

  predicate IsBytes(s: string)
  {
    forall i :: 0 <= i < |s| ==> IsByte(s[i])
  }

  // ---------- hexadecimal ----------

  /** The value of a hexadecimal digit. */
  function IsHex(c: char): (r: Option<nat>)
    ensures r.Some? ==> r.value < 16
  {
    if '0' <= c <= '9' then Some(c as nat - '0' as nat)
    else if 'A' <= c <= 'F' then Some(c as nat - 'A' as nat + 10)
    else if 'a' <= c <= 'f' then Some(c as nat - 'a' as nat + 10)
    else None
  }

  function HexDigit(d: nat): (c: char)
    requires d < 16
    ensures IsHex(c) == Some(d)
    ensures '0' <= c <= '9' || 'A' <= c <= 'F'
  {
    if d < 10 then ('0' as nat + d) as char else ('A' as nat + d - 10) as char
  }

  predicate AllHex(s: string)
  {
    forall i :: 0 <= i < |s| ==> IsHex(s[i]).Some?
  }

  /** The number a string of hexadecimal digits stands for. */
  function HexValue(s: string): nat
    requires AllHex(s)
  {
    if s == [] then 0 else 16 * HexValue(s[..|s| - 1]) + IsHex(s[|s| - 1]).value
  }

  /** `cnt` hexadecimal digits at position i, if they are there. */
  function HexAt(s: string, i: nat, cnt: nat): (r: Option<nat>)
  {
    if i + cnt <= |s| && AllHex(s[i..i + cnt]) then Some(HexValue(s[i..i + cnt])) else None
  }

  method FromHexToI(s: string, start: nat, count: nat) returns (r: Option<nat>)
    requires count > 0
    ensures r == HexAt(s, start, count)
  {
    if start >= |s| {
      return None;
    }
    var i, cnt, val: nat := start, count, 0;
    while cnt != 0
      invariant start <= i <= |s| && i + cnt == start + count
      invariant AllHex(s[start..i]) && val == HexValue(s[start..i])
      decreases cnt
    {
      if i == |s| {
        return None;
      }
      var v := IsHex(s[i]);
      if v.None? {
        NotHex(s, start, count, i);
        return None;
      }
      assert s[start..i + 1] == s[start..i] + [s[i]];
      val := val * 16 + v.value;
      i, cnt := i + 1, cnt - 1;
    }
    return Some(val);
  }

  lemma NotHex(s: string, start: nat, count: nat, i: nat)
    requires start <= i < start + count && i < |s| && IsHex(s[i]).None?
    ensures HexAt(s, start, count) == None
  {
    if start + count <= |s| {
      assert s[start..start + count][i - start] == s[i];
    }
  }

  lemma TwoDigits(a: nat, b: nat, rest: string)
    requires a < 16 && b < 16
    ensures HexAt(['%', HexDigit(a), HexDigit(b)] + rest, 1, 2) == Some(16 * a + b)
  {
    var s := ['%', HexDigit(a), HexDigit(b)] + rest;
    assert s[1..3] == [HexDigit(a), HexDigit(b)];
    assert s[1..3][..1] == [HexDigit(a)];
    assert [HexDigit(a)][..0] == [];
    assert HexValue([HexDigit(a)]) == a;
  }

  // ---------- UTF-8 ----------

  function CharOf(n: nat): char
    requires n < 256
  {
    n as char
  }

  function ToUtf8(code: nat): string
  {
    if code < 0x80 then [CharOf(code)]
    else if code < 0x800 then [CharOf(0xC0 + code / 64), CharOf(0x80 + code % 64)]
    else if 0xD800 <= code < 0xE000 then []
    else if code < 0x10000 then [CharOf(0xE0 + code / 64 / 64), CharOf(0x80 + code / 64 % 64), CharOf(0x80 + code % 64)]
    else if code < 0x110000 then
      [CharOf(0xF0 + code / 64 / 64 / 64), CharOf(0x80 + code / 64 / 64 % 64), CharOf(0x80 + code / 64 % 64),
       CharOf(0x80 + code % 64)]
    else []
  }

  /** The code point at the start of a UTF-8 text (section 3 of RFC 3629), read off the lead byte and the continuation
      bytes. */
  function FromUtf8(s: string): Option<nat>
  {
    if s == [] then None
    else
      var lead := s[0] as nat;
      if lead < 0x80 then Some(lead)
      else if |s| >= 2 && 0xC0 <= lead < 0xE0 then Some(64 * (lead - 0xC0) + s[1] as int % 64)
      else if |s| >= 3 && 0xE0 <= lead < 0xF0 then Some(64 * (64 * (lead - 0xE0) + s[1] as int % 64) + s[2] as int % 64)
      else if |s| >= 4 && 0xF0 <= lead < 0xF8 then
        Some(64 * (64 * (64 * (lead - 0xF0) + s[1] as int % 64) + s[2] as int % 64) + s[3] as int % 64)
      else None
  }

  lemma Continuation(n: nat)
    ensures CharOf(0x80 + n % 64) as int % 64 == n % 64
  {
  }

  lemma ThreeParts(n: nat)
    ensures n == 64 * (n / 64) + n % 64
  {
  }

  /** Every code point but the surrogates is written so that it can be read back; surrogates are dropped. */
  lemma Utf8RoundTrip(code: nat)
    requires code < 0x110000
    ensures FromUtf8(ToUtf8(code)) == if 0xD800 <= code < 0xE000 then None else Some(code)
  {
    ThreeParts(code);
    Continuation(code);
    if code < 0x800 {
    } else if code < 0x10000 {
      LongForm(code / 64);
    } else {
      LongForm(code / 64);
      LongForm(code / 64 / 64);
    }
  }

  lemma LongForm(n: nat)
    ensures n == 64 * (n / 64) + n % 64 && CharOf(0x80 + n % 64) as int % 64 == n % 64
  {
    ThreeParts(n);
    Continuation(n);
  }

  // ---------- encoding and decoding ----------

  predicate AlphaNumeric(c: char)
  {
    '0' <= c <= '9' || 'A' <= c <= 'Z' || 'a' <= c <= 'z'
  }

  /** The marks that stand for themselves. */
  predicate Mark(c: char)
  {
    c == '-' || c == '_' || c == '.' || c == '!' || c == '~' || c == '*' || c == '\'' || c == '(' || c == ')'
  }

  function EncodeByte(c: char): (r: string)
    requires IsByte(c)
  {
    if AlphaNumeric(c) || Mark(c) then [c] else ['%', HexDigit(c as nat / 16), HexDigit(c as nat % 16)]
  }

  function Encoded(value: string): string
    requires IsBytes(value)
  {
    if value == [] then [] else Encoded(value[..|value| - 1]) + EncodeByte(value[|value| - 1])
  }

  method EncodeQueryParam(value: string) returns (escaped: string)
    requires IsBytes(value)
    ensures escaped == Encoded(value)
  {
    escaped := [];
    for i := 0 to |value|
      invariant IsBytes(value[..i]) && escaped == Encoded(value[..i])
    {
      var c := value[i];
      assert value[..i + 1][..i] == value[..i];
      if AlphaNumeric(c) || Mark(c) {
        escaped := escaped + [c];
      } else {
        escaped := escaped + ['%', HexDigit(c as nat / 16), HexDigit(c as nat % 16)];
      }
    }
    assert value[..|value|] == value;
  }

  /** What the text at its first character decodes to, and how much of the text that takes. */
  function DecodeOne(s: string, plus: bool): (r: (string, nat))
    requires s != []
    ensures 0 < r.1 <= |s|
  {
    if s[0] == '%' && |s| > 1 then
      if s[1] == 'u' then
        var v := HexAt(s, 2, 4);
        if v.Some? then (ToUtf8(v.value), 6) else ([s[0]], 1)
      else
        var v := HexAt(s, 1, 2);
        if v.Some? then HexPair(s); ([CharOf(v.value)], 3) else ([s[0]], 1)
    else if plus && s[0] == '+' then ([' '], 1)
    else ([s[0]], 1)
  }

  lemma HexPair(s: string)
    requires HexAt(s, 1, 2).Some?
    ensures HexAt(s, 1, 2).value < 256
  {
    var t := s[1..3];
    assert t[..1][..0] == [];
    assert HexValue(t[..1]) == IsHex(t[0]).value;
  }

  function Decoded(s: string, plus: bool): string
    decreases |s|
  {
    if s == [] then []
    else
      var (text, n) := DecodeOne(s, plus);
      text + Decoded(s[n..], plus)
  }

  lemma NothingDecoded(plus: bool)
    ensures Decoded([], plus) == []
  {
  }

  lemma DecodedStep(s: string, i: nat, plus: bool, sofar: string)
    requires i < |s|
    ensures var (text, n) := DecodeOne(s[i..], plus);
            i + n <= |s| && sofar + Decoded(s[i..], plus) == sofar + text + Decoded(s[i + n..], plus)
  {
    hide DecodeOne;
    var (text, n) := DecodeOne(s[i..], plus);
    assert s[i..][n..] == s[i + n..];
    assert sofar + (text + Decoded(s[i + n..], plus)) == sofar + text + Decoded(s[i + n..], plus);
  }

  method DecodeUrl(s: string, plus: bool) returns (result: string)
    ensures result == Decoded(s, plus)
  {
    hide DecodeOne, Decoded;
    result := [];
    var i: nat := 0;
    assert s[i..] == s;
    NothingDecoded(plus);
    while i < |s|
      invariant i <= |s|
      invariant result + Decoded(s[i..], plus) == Decoded(s, plus)
    {
      DecodedStep(s, i, plus, result);
      result, i := DecodeNext(s, i, plus, result);
    }
    assert s[i..] == [];
  }

  /** One round of the decoding loop. */
  method DecodeNext(s: string, i: nat, plus: bool, sofar: string) returns (result: string, next: nat)
    requires i < |s|
    ensures result == sofar + DecodeOne(s[i..], plus).0 && next == i + DecodeOne(s[i..], plus).1
  {
    hide HexValue, AllHex, ToUtf8;
    result, next := sofar, i;
    if s[i] == '%' && i + 1 < |s| {
      if s[i + 1] == 'u' {
        var val := FromHexToI(s, i + 2, 4);
        HexShift(s, i, 2, 4);
        if val.Some? {
          var buff := ToUtf8(val.value);
          if |buff| > 0 {
            result := result + buff;
          }
          next := next + 5;
        } else {
          result := result + [s[i]];
        }
      } else {
        var val := FromHexToI(s, i + 1, 2);
        HexShift(s, i, 1, 2);
        if val.Some? {
          HexPair(s[i..]);
          result := result + [CharOf(val.value)];
          next := next + 2;
        } else {
          result := result + [s[i]];
        }
      }
    } else if plus && s[i] == '+' {
      result := result + [' '];
    } else {
      result := result + [s[i]];
    }
    next := next + 1;
  }

  lemma HexShift(s: string, i: nat, k: nat, cnt: nat)
    requires i <= |s|
    ensures HexAt(s[i..], k, cnt) == HexAt(s, i + k, cnt)
  {
    if i + k + cnt <= |s| {
      assert s[i..][k..k + cnt] == s[i + k..i + k + cnt];
    }
  }

  // ---------- decoding undoes encoding ----------

  /** An encoded byte decodes to that byte, whatever follows and whether or not plus means blank. */
  lemma DecodeEncodedByte(c: char, rest: string, plus: bool)
    requires IsByte(c)
    ensures Decoded(EncodeByte(c) + rest, plus) == [c] + Decoded(rest, plus)
  {
    hide HexValue, AllHex, HexAt, ToUtf8;
    var s := EncodeByte(c) + rest;
    if AlphaNumeric(c) || Mark(c) {
      assert s[1..] == rest;
    } else {
      TwoDigits(c as nat / 16, c as nat % 16, rest);
      assert s == ['%', HexDigit(c as nat / 16), HexDigit(c as nat % 16)] + rest;
      assert s[3..] == rest;
    }
  }

  lemma {:induction false} DecodeEncodedThen(value: string, rest: string, plus: bool)
    requires IsBytes(value)
    ensures Decoded(Encoded(value) + rest, plus) == value + Decoded(rest, plus)
    decreases |value|
  {
    hide Decoded, EncodeByte;
    if value == [] {
      assert [] + rest == rest;
    } else {
      var n := |value| - 1;
      DecodeEncodedThen(value[..n], EncodeByte(value[n]) + rest, plus);
      DecodeEncodedByte(value[n], rest, plus);
      assert Encoded(value[..n]) + EncodeByte(value[n]) + rest == Encoded(value[..n]) + (EncodeByte(value[n]) + rest);
    }
  }

  /** Decoding undoes encoding, for every text and in both plus modes. */
  lemma DecodeEncoded(value: string, plus: bool)
    requires IsBytes(value)
    ensures Decoded(Encoded(value), plus) == value
  {
    DecodeEncodedThen(value, [], plus);
    assert Encoded(value) + [] == Encoded(value);
  }

  /** An encoded text is made of unreserved characters and percent signs. */
  lemma {:induction false} EncodedAlphabet(value: string, c: char)
    requires IsBytes(value) && c in Encoded(value)
    ensures AlphaNumeric(c) || Mark(c) || c == '%'
    decreases |value|
  {
    var n := |value| - 1;
    if value != [] {
      if c in Encoded(value[..n]) {
        EncodedAlphabet(value[..n], c);
      }
    }
  }
}
