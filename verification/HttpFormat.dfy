/** What the texts of HTTP look like character by character: digits, escapes, blanks, pairs, sizes and names, in other words
    than those in which readers and writers share them. */
module HttpFormat {
  import opened Basics
  import opened HttpText
  import opened UrlCoding
  import opened QueryString
  import opened HeaderLine
  import opened Chunked
  import opened MultipartForm
  import opened MultipartWriter
  import Base64

  // ---------- digits ----------

  const UPPER: string := "0123456789ABCDEF"
  const LOWER: string := "0123456789abcdef"

  /** The character stands for the digit, in either case. */
  predicate Stands(c: char, d: nat)
  {
    d < 16 && (c == UPPER[d] || c == LOWER[d])
  }

  lemma DigitsAre(d: nat)
    requires d < 16
    ensures HexDigit(d) == UPPER[d] && LowerHexDigit(d) == LOWER[d]
  {
    assert d == 0 || d == 1 || d == 2 || d == 3 || d == 4 || d == 5 || d == 6 || d == 7
        || d == 8 || d == 9 || d == 10 || d == 11 || d == 12 || d == 13 || d == 14 || d == 15;
  }

  lemma UpperLower(d: nat)
    requires d < 16
    ensures IsHex(UPPER[d]) == IsHex(LOWER[d]) == Some(d)
  {
    assert d == 0 || d == 1 || d == 2 || d == 3 || d == 4 || d == 5 || d == 6 || d == 7
        || d == 8 || d == 9 || d == 10 || d == 11 || d == 12 || d == 13 || d == 14 || d == 15;
  }

  /** Exactly these 22 characters are digits. */
  lemma HexDigitsOnly(c: char, d: nat)
    ensures IsHex(c) == Some(d) <==> Stands(c, d)
  {
    if d < 16 {
      UpperLower(d);
      DigitsAre(d);
    }
  }

  /** No number is written with a zero in front. */
  lemma {:induction false} NoLeadingZero(n: nat)
    ensures Hex(n)[0] == '0' <==> n == 0
    decreases n
  {
    if n >= 16 {
      NoLeadingZero(n / 16);
    }
  }

  // ---------- percent coding ----------

  /** Letters, digits and nine marks stand for themselves; any other byte is a percent sign and its two digits. */
  lemma EncodedByteIs(c: char)
    requires IsByte(c)
    ensures EncodeByte(c) == [c] <==>
              'a' <= c <= 'z' || 'A' <= c <= 'Z' || '0' <= c <= '9' || c in "-_.!~*'()"
    ensures EncodeByte(c) != [c] ==>
              EncodeByte(c) == ['%', UPPER[c as nat / 16], UPPER[c as nat % 16]]
  {
    DigitsAre(c as nat / 16);
    DigitsAre(c as nat % 16);
  }

  /** A plus sign is a blank where plus means that, and itself elsewhere. */
  lemma PlusDecoded(rest: string)
    ensures Decoded("+" + rest, true) == " " + Decoded(rest, true)
    ensures Decoded("+" + rest, false) == "+" + Decoded(rest, false)
  {
    assert ("+" + rest)[1..] == rest;
  }

  /** Other characters are themselves, and so is a percent sign that cannot start an escape. */
  lemma OtherDecoded(c: char, rest: string, plus: bool)
    requires c != '+' && (c == '%' ==> rest == [] || (rest[0] != 'u' && IsHex(rest[0]).None?))
    ensures Decoded([c] + rest, plus) == [c] + Decoded(rest, plus)
  {
    var s := [c] + rest;
    assert s[1..] == rest;
    if c == '%' && rest != [] {
      assert |s| >= 3 ==> s[1..3][0] == rest[0];
      assert HexAt(s, 1, 2) == None;
    }
  }

  /** Two digits in either case behind a percent sign are a byte. */
  lemma EscapeDecoded(x: char, y: char, a: nat, b: nat, rest: string, plus: bool)
    requires Stands(x, a) && Stands(y, b)
    ensures Decoded(['%', x, y] + rest, plus) == [CharOf(16 * a + b)] + Decoded(rest, plus)
  {
    hide ToUtf8, Stands, HexAt;
    HexDigitsOnly(x, a);
    HexDigitsOnly(y, b);
    var s := ['%', x, y] + rest;
    TwoRead(s, a, b);
    DigitIsPlain(x);
    NoU(x);
    assert s[3..] == rest;
  }

  lemma NoU(x: char)
    requires IsHex(x).Some?
    ensures x != 'u'
  {
  }

  lemma TwoRead(s: string, a: nat, b: nat)
    requires |s| >= 3 && IsHex(s[1]) == Some(a) && IsHex(s[2]) == Some(b)
    ensures HexAt(s, 1, 2) == Some(16 * a + b)
  {
    hide IsHex;
    var t := s[1..3];
    assert t[..1] == [s[1]] && [s[1]][..0] == [];
    assert HexValue([s[1]]) == a;
  }

  lemma FourRead(s: string, a: nat, b: nat, c: nat, d: nat)
    requires |s| >= 6 && IsHex(s[2]) == Some(a) && IsHex(s[3]) == Some(b) && IsHex(s[4]) == Some(c) && IsHex(s[5]) == Some(d)
    ensures HexAt(s, 2, 4) == Some(4096 * a + 256 * b + 16 * c + d)
  {
    hide IsHex;
    var t := s[2..6];
    assert t[..3][..2] == t[..2] && t[..2][..1] == [s[2]] && [s[2]][..0] == [];
    assert HexValue([s[2]]) == a;
    assert HexValue(t[..2]) == 16 * a + b;
    assert HexValue(t[..3]) == 256 * a + 16 * b + c;
  }

  /** Four digits behind %u are a code point. */
  lemma UnitDecoded(s: string, a: nat, b: nat, c: nat, d: nat, plus: bool)
    requires |s| >= 6 && s[0] == '%' && s[1] == 'u'
    requires Stands(s[2], a) && Stands(s[3], b) && Stands(s[4], c) && Stands(s[5], d)
    ensures Decoded(s, plus) == ToUtf8(4096 * a + 256 * b + 16 * c + d) + Decoded(s[6..], plus)
  {
    hide ToUtf8, Stands, HexAt, IsHex;
    HexDigitsOnly(s[2], a);
    HexDigitsOnly(s[3], b);
    HexDigitsOnly(s[4], c);
    HexDigitsOnly(s[5], d);
    FourRead(s, a, b, c, d);
  }

  /** The ends of the ranges of section 3 of RFC 3629, the surrogates, and the euro sign. */
  lemma Utf8Examples()
    ensures ToUtf8(0x7f) == "\U{7f}" && ToUtf8(0x80) == "\U{c2}\U{80}"
    ensures ToUtf8(0x7ff) == "\U{df}\U{bf}" && ToUtf8(0x800) == "\U{e0}\U{a0}\U{80}"
    ensures ToUtf8(0x20ac) == "\U{e2}\U{82}\U{ac}"
    ensures ToUtf8(0xd800) == [] && ToUtf8(0xdfff) == [] && ToUtf8(0x110000) == []
    ensures ToUtf8(0xffff) == "\U{ef}\U{bf}\U{bf}" && ToUtf8(0x10000) == "\U{f0}\U{90}\U{80}\U{80}"
    ensures ToUtf8(0x10ffff) == "\U{f4}\U{8f}\U{bf}\U{bf}"
  {
  }

  // ---------- base64 ----------

  /** Table 1 of RFC 4648. */
  const ALPHABET: seq<string> := ["ABCDEFGHIJKLMNOP", "QRSTUVWXYZabcdef", "ghijklmnopqrstuv", "wxyz0123456789+/"]

  predicate Listed(v: Base64.Sextet)
  {
    Base64.Letter(v) == ALPHABET[v / 16][v % 16]
  }

  lemma FirstQuarter()
    ensures forall v :: 0 <= v < 16 ==> Listed(v)
  {
    assert Listed(0) && Listed(1) && Listed(2) && Listed(3) && Listed(4) && Listed(5) && Listed(6) && Listed(7);
    assert Listed(8) && Listed(9) && Listed(10) && Listed(11) && Listed(12) && Listed(13) && Listed(14) && Listed(15);
  }

  lemma SecondQuarter()
    ensures forall v :: 16 <= v < 32 ==> Listed(v)
  {
    assert Listed(16) && Listed(17) && Listed(18) && Listed(19) && Listed(20) && Listed(21) && Listed(22) && Listed(23);
    assert Listed(24) && Listed(25) && Listed(26) && Listed(27) && Listed(28) && Listed(29) && Listed(30) && Listed(31);
  }

  lemma ThirdQuarter()
    ensures forall v :: 32 <= v < 48 ==> Listed(v)
  {
    assert Listed(32) && Listed(33) && Listed(34) && Listed(35) && Listed(36) && Listed(37) && Listed(38) && Listed(39);
    assert Listed(40) && Listed(41) && Listed(42) && Listed(43) && Listed(44) && Listed(45) && Listed(46) && Listed(47);
  }

  lemma LastQuarter()
    ensures forall v :: 48 <= v < 64 ==> Listed(v)
  {
    assert Listed(48) && Listed(49) && Listed(50) && Listed(51) && Listed(52) && Listed(53) && Listed(54) && Listed(55);
    assert Listed(56) && Listed(57) && Listed(58) && Listed(59) && Listed(60) && Listed(61) && Listed(62) && Listed(63);
  }

  lemma AlphabetIs(v: Base64.Sextet)
    ensures Base64.Letter(v) == ALPHABET[v / 16][v % 16]
  {
    FirstQuarter();
    SecondQuarter();
    ThirdQuarter();
    LastQuarter();
    assert Listed(v);
  }

  /** Section 10 of RFC 4648, and the last two letters of the alphabet. */
  lemma Base64Examples()
    ensures Base64.Encoded([0x66]) == "Zg==" && Base64.Encoded([0x66, 0x6f]) == "Zm8="
    ensures Base64.Encoded([0x66, 0x6f, 0x6f]) == "Zm9v" && Base64.Encoded([0x66, 0x6f, 0x6f, 0x62]) == "Zm9vYg=="
    ensures Base64.Encoded([0xfb, 0xff, 0xbf]) == "+/+/"
  {
    assert Base64.Encoded([]) == [];
    var foo: seq<Byte> := [0x66, 0x6f, 0x6f, 0x62];
    assert foo[3..] == [0x62];
  }

  // ---------- blanks and case ----------

  lemma BlanksAre(c: char)
    ensures IsSpaceOrTab(c) <==> c == 32 as char || c == 9 as char
    ensures IsSpace(c) <==> c in [32 as char, 9 as char, 10 as char, 11 as char, 12 as char, 13 as char]
  {
  }

  predicate OnlyBlanks(s: string)
  {
    forall i :: 0 <= i < |s| ==> s[i] == ' ' || s[i] == 9 as char
  }

  predicate NoBlankEnds(s: string)
  {
    s != [] && s[0] != ' ' && s[0] != 9 as char && s[|s| - 1] != ' ' && s[|s| - 1] != 9 as char
  }

  /** Blanks and tabs around a text come off. */
  lemma BlanksComeOff(a: string, t: string, b: string)
    requires OnlyBlanks(a) && OnlyBlanks(b) && NoBlankEnds(t)
    ensures TrimBlanks(a + t + b) == t && TrimBlanks(a) == []
  {
    var s, l, r := a + t + b, |a|, |a| + |t|;
    assert s[..l] == a && s[r..] == b && s[l..r] == t;
    assert s[l] == t[0] && s[r - 1] == t[|t| - 1];
    TrimAgain(s, l, r);
    assert a[|a|..] == [] && a[..|a|] == a;
    TrimAgain(a, |a|, |a|);
  }

  /** Quotes come off in pairs only. */
  lemma SingleQuoteStays(s: string)
    requires s == "" || s == "\"" || s[0] != '"' || s[|s| - 1] != '"'
    ensures TrimDoubleQuotes(s) == s
  {
  }

  /** A C string ends in front of its first zero. */
  lemma {:induction false} StringEnds(a: string, b: string)
    requires 0 as char !in a
    ensures CStr(a + [0 as char] + b) == a
    decreases |a|
  {
    var s := a + [0 as char] + b;
    if a != [] {
      assert a[0] in a && s[1..] == a[1..] + [0 as char] + b;
      StringEnds(a[1..], b);
    }
  }

  /** Two characters are the same but for their case if they are the same or a letter in both cases. */
  lemma CasesAre(a: char, b: char)
    ensures ToLower(a) == ToLower(b) <==>
              a == b || ('A' <= a <= 'Z' && b as int == a as int + 32) || ('A' <= b <= 'Z' && a as int == b as int + 32)
  {
  }

  // ---------- pairs ----------

  /** The key is what stands before the first '=' sign, the value what stands behind the last. */
  lemma KeyAndValue(a: string, b: string, c: string)
    requires NoBlankEnds(a) && NoBlankEnds(b) && NoBlankEnds(c) && '=' !in a && '=' !in b && '=' !in c
    ensures KeyValue(a) == (a, "") && KeyValue(a + "=") == (a, "") && KeyValue("=" + a) == (a, "")
    ensures KeyValue(a + "=" + b) == (a, b)
    ensures KeyValue(a + "=" + (b + "=" + c)) == (a, c)
  {
    hide Pieces, Piece;
    PieceOfTrimmed(a);
    PieceOfTrimmed(b);
    PieceOfTrimmed(c);
    PiecesLast(a, '=');
    PiecesLast(b, '=');
    PiecesLast(c, '=');
    NoPiece();
    assert a + "=" == a + ['='] + "" && "=" + a == "" + ['='] + a;
    PiecesJoin(a, '=', "");
    PiecesJoin("", '=', a);
    PiecesJoin(a, '=', b);
    PiecesJoin(b, '=', c);
    PiecesJoin(a, '=', b + "=" + c);
  }

  lemma NoPiece()
    ensures Piece("") == [] && Pieces("", '=') == []
  {
    PiecesLast("", '=');
  }

  /** A pair of a query string is decoded on both sides, with plus signs as blanks. */
  lemma QueryPairRead(key: string, value: string)
    requires NoBlankEnds(key) && NoBlankEnds(value) && '=' !in key && '=' !in value && '&' !in key && '&' !in value
    ensures Parsed(key + "=" + value) == [(Decoded(key, true), Decoded(value, true))]
  {
    hide KeyValue, Decoded, Pieces, Piece;
    var s := key + "=" + value;
    KeyAndValue(key, value, value);
    PieceOfTrimmed(s);
    PiecesLast(s, '&');
    assert [s][..0] == [] && [KeyValue(s)][..0] == [];
    assert Pairs([s]) == [KeyValue(s)];
    assert Inserted([], Percent) == [];
  }

  /** Looking up a key gives the value of the first pair with that key. */
  lemma {:induction false} LookupFirst(params: Params, n: nat)
    requires n < |params| && forall i :: 0 <= i < n ==> params[i].0 != params[n].0
    ensures Lookup(params, params[n].0) == Some(params[n].1)
    decreases n
  {
    if n > 0 {
      LookupFirst(params[1..], n - 1);
    }
  }

  lemma {:induction false} LookupNone(params: Params, key: string)
    ensures Lookup(params, key) == None <==> forall i :: 0 <= i < |params| ==> params[i].0 != key
    decreases |params|
  {
    if params != [] {
      LookupNone(params[1..], key);
      assert forall i :: 0 <= i < |params[1..]| ==> params[1..][i] == params[i + 1];
    }
  }

  // ---------- sizes ----------

  predicate Sign(s: string)
  {
    s == "" || s == "+" || s == "-"
  }

  predicate Prefix(s: string)
  {
    s == "" || s == "0x" || s == "0X"
  }

  lemma {:induction false} SpacesStop(s: string, i: nat, e: nat)
    requires i <= e < |s| && (forall k :: i <= k < e ==> IsSpace(s[k])) && !IsSpace(s[e])
    ensures SpacesEnd(s, i) == e
    decreases e - i
  {
    if i < e {
      SpacesStop(s, i + 1, e);
    }
  }

  /** The number behind blanks, in front of its digits, up to their end. */
  function Read(digits: string, minus: bool): nat
    requires AllHex(digits)
  {
    var n := HexValue(digits);
    if n > 0xFFFF_FFFF_FFFF_FFFF then 0xFFFF_FFFF_FFFF_FFFF
    else if minus && n > 0 then 0x1_0000_0000_0000_0000 - n
    else n
  }

  lemma PartsRead(s: string, b: nat, i: nat, j: nat, e: nat)
    requires SpacesEnd(s, 0) == b < |s| && i == (if s[b] == '-' || s[b] == '+' then b + 1 else b) <= j < e <= |s|
    requires if i + 2 < |s| && s[i] == '0' && (s[i + 1] == 'x' || s[i + 1] == 'X') && IsHex(s[i + 2]).Some?
             then j == i + 2 else j == i
    requires DigitsEnd(s, j) == e
    ensures StrToUl(s) == (Read(s[j..e], s[b] == '-'), true)
  {
    hide IsHex, AllHex, HexValue;
  }

  /** What strtoul reads in base 16: blanks, a sign, 0x, the digits up to the first character that is none. A minus sign
      takes the number from 2^64, and a number above 2^64 - 1 becomes that. */
  lemma NumberRead(blanks: string, sign: string, prefix: string, digits: string, rest: string)
    requires (forall i :: 0 <= i < |blanks| ==> IsSpace(blanks[i])) && Sign(sign) && Prefix(prefix)
    requires digits != "" && AllHex(digits) && (rest != [] ==> IsHex(rest[0]).None? && rest[0] != 'x' && rest[0] != 'X')
    ensures StrToUl(blanks + sign + prefix + digits + rest) == (Read(digits, sign == "-"), true)
  {
    hide IsSpace, AllHex, HexValue, SpacesEnd, StrToUl, Read, Sign, Prefix, IsHex;
    var s := blanks + sign + prefix + digits + rest;
    var b := |blanks|;
    var i := b + |sign|;
    var j := i + |prefix|;
    var e := j + |digits|;
    assert s[j..e] == digits && s[i..j] == prefix && s[b..i] == sign && s[..b] == blanks;
    DigitIn(digits, 0);
    DigitsEndAt(s, j, e);
    FirstBehind(s, b, sign, prefix);
    SpacesStop(s, 0, b);
    if prefix == "" && |digits| > 1 {
      DigitIn(digits, 1);
      assert s[i + 1] == digits[1];
    }
    PartsRead(s, b, i, j, e);
  }

  lemma DigitIn(digits: string, i: nat)
    requires AllHex(digits) && i < |digits|
    ensures IsHex(digits[i]).Some? && digits[i] != 'x' && digits[i] != 'X' && digits[i] != '-' && digits[i] != '+'
    ensures !IsSpace(digits[i])
  {
  }

  lemma FirstBehind(s: string, b: nat, sign: string, prefix: string)
    requires b + |sign| + |prefix| < |s| && s[b..b + |sign|] == sign && Sign(sign)
    requires s[b + |sign|..b + |sign| + |prefix|] == prefix && Prefix(prefix)
    requires var c := s[b + |sign| + |prefix|]; !IsSpace(c) && c != '-' && c != '+'
    ensures !IsSpace(s[b]) && (s[b] == '-' <==> sign == "-") && (s[b] == '+' <==> sign == "+")
    ensures |sign| == if s[b] == '-' || s[b] == '+' then 1 else 0
    ensures prefix != "" ==>
              |prefix| == 2 && s[b + |sign|] == '0' && (s[b + |sign| + 1] == 'x' || s[b + |sign| + 1] == 'X')
  {
    var i := b + |sign|;
    if sign != "" {
      assert s[b] == s[b..i][0];
    }
    if prefix != "" {
      var p := s[i..i + |prefix|];
      assert s[i] == p[0] && s[i + 1] == p[1];
    }
  }

  /** An extension behind the size of a chunk is passed over; a size that does not fit is refused. */
  lemma ExtensionIgnored(n: nat, extension: string, rest: string, broken: bool)
    requires '\n' !in extension && 0 as char !in extension
    requires extension != "" ==> extension[0] == ';' || extension[0] == ' ' || extension[0] == 9 as char
    ensures SizeLine(Hex(n) + extension + "\r\n" + rest, 0, broken) ==
            if n < 0xFFFF_FFFF_FFFF_FFFF then Some((n, |Hex(n) + extension| + 2)) else None
  {
    hide Hex, StrToUl, LineEnd, CStr, HexValue, AllHex;
    var h := Hex(n);
    var line := h + extension;
    var text := line + "\r\n" + rest;
    HexClean(n);
    HexRead(n);
    assert text[0..|line| + 2] == line + "\r\n";
    LineThere(text, 0, line, broken);
    NoZero(line + "\r\n");
    var behind := extension + "\r\n";
    assert line + "\r\n" == "" + "" + "" + h + behind;
    assert behind[0] == if extension == "" then '\r' else extension[0];
    NumberRead("", "", "", h, behind);
  }
  /** A size line that does not start with a number is refused. */
  lemma NoSize(line: string, rest: string, broken: bool)
    requires '\n' !in line && (line != "" ==> NoNumber(line[0]))
    ensures SizeLine(line + "\r\n" + rest, 0, broken) == None
  {
    hide LineEnd, CStr;
    var text := line + "\r\n" + rest;
    assert text[0..|line| + 2] == line + "\r\n";
    LineThere(text, 0, line, broken);
    var s := CStr(line + "\r\n");
    CPrefix(line + "\r\n");
    NothingRead(s);
  }

  predicate NoNumber(c: char)
  {
    !IsSpace(c) && c != '-' && c != '+' && IsHex(c).None?
  }

  lemma NothingRead(s: string)
    requires s != "" ==> NoNumber(s[0]) || s == "\r" || s == "\r\n"
    ensures !StrToUl(s).1
  {
    if s != "" && !NoNumber(s[0]) {
      assert SpacesEnd(s, |s|) == |s|;
      assert |s| == 2 ==> SpacesEnd(s, 1) == 2;
    }
  }

  // ---------- names ----------

  /** An extended value is the text behind UTF-8'', in either case, with its escapes decoded; there must be some text, on
      one line. */
  lemma ExtendedRead(tag: string, value: string)
    requires SameIgnoringCase(tag, "UTF-8''")
    ensures Extended(tag + value) ==
            if value != "" && OneLine(value) then Some(Decoded(value, false)) else None
  {
    hide Decoded;
    LowerTag(tag);
    StartsWith(tag, value, Utf8Tag());
  }

  lemma LowerTag(tag: string)
    requires SameIgnoringCase(tag, "UTF-8''")
    ensures SameIgnoringCase(tag, Utf8Tag())
  {
    var upper, lower := "UTF-8''", Utf8Tag();
    assert ToLower(upper[0]) == lower[0] && ToLower(upper[1]) == lower[1] && ToLower(upper[2]) == lower[2];
  }

  /** Nothing else is an extended value. */
  lemma ExtendedOnly(value: string)
    requires Extended(value).Some?
    ensures |value| > 7 && SameIgnoringCase(value[..7], "UTF-8''")
  {
    var upper, lower := "UTF-8''", Utf8Tag();
    assert |lower| == 7;
    assert ToLower(upper[0]) == lower[0] && ToLower(upper[1]) == lower[1] && ToLower(upper[2]) == lower[2];
  }

  function StarParam(value: string): string { "filename*" + ['='] + value }

  predicate PlainValue(s: string)
  {
    CleanName(s) && NoBlankEnds(s) && s[0] != '"'
  }

  lemma StarRead(value: string)
    requires PlainValue(value)
    ensures var s := StarParam(value);
            s != [] && Trimmed(s) && ';' !in s && KeyValue(s) == ("filename*", value) &&
            DecodePair(KeyValue(s), Quotes) == ("filename*", value)
  {
    hide Pieces, Piece;
    var key := "filename*";
    PiecesJoin(key, '=', value);
    PieceOfTrimmed(key);
    PiecesLast(value, '=');
    PieceOfTrimmed(value);
    assert Pieces(StarParam(value), '=') == [key, value];
  }

  lemma ThreeOrders()
    ensures !AtMost("name", "filename") && !AtMost("name", "filename*") && AtMost("filename", "filename*")
  {
    var f, g := "filename", "filename*";
    assert f[1..] == "ilename" && g[1..] == "ilename*";
    assert AtMost("e", "e*") && AtMost("me", "me*") && AtMost("ame", "ame*") && AtMost("name", "name*");
    assert AtMost("ename", "ename*") && AtMost("lename", "lename*") && AtMost("ilename", "ilename*");
  }
  lemma InsertThird(a: Pair, b: Pair, c: Pair)
    requires AtMost(a.0, c.0) && !AtMost(b.0, c.0)
    ensures Emplace([a, b], c) == [a, c, b]
  {
    hide AtMost;
    assert [a, b][..1] == [a];
    assert Emplace([a], c) == [a, c];
  }

  /** The pairs of three parameters, in the order of their keys. */
  lemma ThreePairs(s: string, t: string, u: string)
    requires KeyValue(s).0 != [] && KeyValue(t).0 != [] && KeyValue(u).0 != [] && s != t && u !in [s, t]
    requires DecodePair(KeyValue(s), Quotes).0 == "name" && DecodePair(KeyValue(t), Quotes).0 == "filename"
    requires DecodePair(KeyValue(u), Quotes).0 == "filename*"
    ensures Inserted(Pairs([s, t, u]), Quotes) ==
            [DecodePair(KeyValue(t), Quotes), DecodePair(KeyValue(u), Quotes), DecodePair(KeyValue(s), Quotes)]
  {
    hide KeyValue, DecodePair, AtMost, Emplace;
    ThreeOrders();
    PairsOfTwo(s, t);
    assert [s, t, u][..2] == [s, t];
    var pairs := Pairs([s, t]);
    assert (pairs + [KeyValue(u)])[..|pairs|] == pairs;
    InsertThird(DecodePair(KeyValue(t), Quotes), DecodePair(KeyValue(s), Quotes), DecodePair(KeyValue(u), Quotes));
  }

  lemma ThreeParams(name: string, filename: string, value: string)
    requires CleanName(name) && CleanName(filename) && PlainValue(value)
    ensures var n := NameParam(name) + [';'] + (" " + (FilenameParam(filename) + [';'] + (" " + StarParam(value))));
            ParsedPairs(n, ';', Quotes) == [("filename", filename), ("filename*", value), ("name", name)]
  {
    hide KeyValue, DecodePair, CleanName, Pieces, Piece, Quoted, Pairs, Inserted, TrimBlanks, PlainValue, AtMost;
    var s, t, u := NameParam(name), FilenameParam(filename), StarParam(value);
    ParamRead("name", name);
    ParamRead("filename", filename);
    StarRead(value);
    PieceOfTrimmed(s);
    PieceOfTrimmed(t);
    PieceOfTrimmed(u);
    assert ';' !in " " + t && ';' !in " " + u;
    PiecesJoin(s, ';', " " + (t + [';'] + (" " + u)));
    assert " " + (t + [';'] + (" " + u)) == (" " + t) + [';'] + (" " + u);
    PiecesJoin(" " + t, ';', " " + u);
    PiecesLast(" " + u, ';');
    assert [s] + ([t] + [u]) == [s, t, u];
    assert s[0] == 'n' && t[0] == 'f' && u[0] == 'f' && t[8] == '=' && u[8] == '*';
    ThreePairs(s, t, u);
  }

  lemma ThreeLookups(name: string, filename: string, value: string)
    ensures var p := [("filename", filename), ("filename*", value), ("name", name)];
            Lookup(p, "name") == Some(name) && Lookup(p, "filename") == Some(filename) && Lookup(p, "filename*") == Some(value)
  {
    var p := [("filename", filename), ("filename*", value), ("name", name)];
    var q, r := p[1..], p[2..];
    assert |"name"| == 4 && |"filename"| == 8 && |"filename*"| == 9;
    assert q[1..] == r && q[0] == ("filename*", value) && r[0] == ("name", name);
    assert Lookup(r, "name") == Some(name);
    assert Lookup(q, "name") == Some(name) && Lookup(q, "filename*") == Some(value);
  }

  /** A form-data line with an extended filename: that one names the file, or the line is refused if it is not UTF-8. */
  lemma ExtendedNameWins(name: string, filename: string, value: string)
    requires CleanName(name) && CleanName(filename) && PlainValue(value)
    ensures HeaderField(NoFile(), DispositionName() + (" " + (FormDataTag() + (" " +
              (NameParam(name) + [';'] + (" " + (FilenameParam(filename) + [';'] + (" " + StarParam(value))))))))) ==
            if Extended(value).Some? then (File(name, Extended(value).value, []), true)
            else (File(name, filename, []), false)
  {
    hide StartsIgnoringCase, Disposition, CleanName, ParsedPairs, DispositionName, OneLine, Extended, PlainValue, Lookup;
    var n := NameParam(name) + [';'] + (" " + (FilenameParam(filename) + [';'] + (" " + StarParam(value))));
    assert n[0] == 'n';
    ThreeOnOneLine(name, filename, value);
    ParametersRead(n);
    NotType(" " + (FormDataTag() + (" " + n)));
    ThreeParams(name, filename, value);
    ThreeLookups(name, filename, value);
  }

  lemma ThreeOnOneLine(name: string, filename: string, value: string)
    requires CleanName(name) && CleanName(filename) && PlainValue(value)
    ensures OneLine(NameParam(name) + [';'] + (" " + (FilenameParam(filename) + [';'] + (" " + StarParam(value)))))
  {
    OneLineParam(name);
    OneLineParam(filename);
  }

  lemma OneLineParam(s: string)
    requires OneLine(s)
    ensures OneLine(NameParam(s)) && OneLine(FilenameParam(s)) && OneLine(StarParam(s))
  {
  }

  lemma {:induction false} SpacesSkipped(a: string, s: string)
    requires (forall i :: 0 <= i < |a| ==> IsSpace(a[i])) && (s != "" ==> !IsSpace(s[0]))
    ensures SkipSpaces(a + s) == s
    decreases |a|
  {
    if a == [] {
      assert a + s == s;
    } else {
      assert (a + s)[1..] == a[1..] + s;
      SpacesSkipped(a[1..], s);
    }
  }

  /** A disposition line, its words in any case and with any white space behind them. */
  lemma DispositionWords(field: string, a: string, kind: string, b: string, n: string)
    requires SameIgnoringCase(field, "Content-Disposition:") && SameIgnoringCase(kind, "form-data;")
    requires (forall i :: 0 <= i < |a| ==> IsSpace(a[i])) && (forall i :: 0 <= i < |b| ==> IsSpace(b[i]))
    requires n != "" ==> !IsSpace(n[0])
    ensures Disposition(field + (a + (kind + (b + n)))) == if '\r' in n || '\n' in n then None else Some(n)
  {
    hide SkipSpaces, IsSpace, StartsIgnoringCase, SameIgnoringCase;
    TagCases(field, kind);
    StartsWith(field, a + (kind + (b + n)), DispositionTag());
    SpacesSkipped(a, kind + (b + n));
    StartsWith(kind, b + n, FormDataTag());
    SpacesSkipped(b, n);
  }

  lemma TagCases(field: string, kind: string)
    requires SameIgnoringCase(field, "Content-Disposition:") && SameIgnoringCase(kind, "form-data;")
    ensures SameIgnoringCase(field, DispositionTag()) && SameIgnoringCase(kind, FormDataTag())
    ensures kind != "" && !IsSpace(kind[0])
  {
    var upper, lower := "Content-Disposition:", DispositionTag();
    assert ToLower(upper[0]) == lower[0] && ToLower(upper[8]) == lower[8];
    assert forall i :: 0 <= i < 20 && i != 0 && i != 8 ==> upper[i] == lower[i];
    assert ToLower(kind[0]) == 'f';
  }

  /** Any other line is refused, and so are a disposition without a name and what holds such a line. */
  lemma OtherLineRefused(accepts: Receiver, p: Parser, header: string, rest: string)
    requires header != "" && !StartsIgnoringCase(header, "content-type:")
    requires Disposition(header) == None || Lookup(ParsedPairs(Disposition(header).value, ';', Quotes), "name") == None
    requires p.rest == header + ("\r\n" + rest) && Find(p.rest, "\r\n") == |header|
    ensures var s := FieldsStep(accepts, p); s.Return? && !s.ok && !s.p.valid
  {
    hide Disposition, StartsIgnoringCase, Find, ParsedPairs, Lookup;
    assert p.rest[..|header|] == header;
  }

  /** A header line is refused when its end is not within the first 8192 bytes. */
  lemma HeaderLimit(accepts: Receiver, p: Parser)
    ensures Find(p.rest, "\r\n") > 8192 ==> HeadersStep(accepts, p) == Return(p, false)
    ensures Find(p.rest, "\r\n") <= 8192 ==> HeadersStep(accepts, p) == FieldsStep(accepts, p)
  {
    hide Find, FieldsStep;
  }

  // ---------- fields ----------

  lemma {:induction false} BehindOff(t: string, b: string)
    requires t != [] && !IsSpaceOrTab(t[|t| - 1]) && OnlyBlanks(b)
    ensures BlanksBehindOff(t + b) == t
    decreases |b|
  {
    if b == [] {
      assert t + b == t;
    } else {
      assert (t + b)[..|t + b| - 1] == t + b[..|b| - 1];
      BehindOff(t, b[..|b| - 1]);
    }
  }

  lemma {:induction false} FrontOff(a: string, t: string)
    requires t != [] && !IsSpaceOrTab(t[0]) && OnlyBlanks(a)
    ensures BlanksInFrontOff(a + t) == t
    decreases |a|
  {
    if a == [] {
      assert a + t == t;
    } else {
      assert (a + t)[1..] == a[1..] + t;
      FrontOff(a[1..], t);
    }
  }

  /** A header line: the key in front of the colon; the value without the blanks and tabs around it, decoded unless the key
      is that of a location in either case. */
  lemma FieldRead(key: string, a: string, value: string, b: string)
    requires ':' !in key && OnlyBlanks(a) && OnlyBlanks(b) && NoBlankEnds(value)
    ensures FieldOn(key + ":" + a + value + b) ==
            Some((key, if SameIgnoringCase(key, "location") then value else Decoded(value, false)))
  {
    hide Decoded, SameIgnoringCase, BlanksBehindOff, BlanksInFrontOff, Colon;
    var t, c := key + ":" + a + value, |key|;
    assert t[|t| - 1] == value[|value| - 1];
    BehindOff(t, b);
    assert t[..c] == key && t[c] == ':' && t[c + 1..] == a + value;
    ColonAt(t, c);
    FrontOff(a, value);
    LocationIs(key);
  }

  lemma LocationIs(key: string)
    ensures SameIgnoringCase(key, "Location") <==> SameIgnoringCase(key, "location")
  {
    var upper, lower := "Location", "location";
    assert ToLower(upper[0]) == lower[0] == ToLower(lower[0]);
    assert forall i :: 1 <= i < 8 ==> upper[i] == lower[i];
  }
}
