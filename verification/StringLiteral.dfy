// Printing a narrow character array as a C++ string literal, and reading such literals back.

/** The text of a printed literal, character by character and in numbers, without a printer. */
module LiteralText {

  /** A char, taken as unsigned. */
  type Code = c: int | 0 <= c < 256

  /** Printable ASCII, except the double quote and the backslash. */
  predicate PrintsPlain(c: Code) { 32 <= c <= 126 && c != 34 && c != 92 }

  /** What has neither a glyph nor a letter of its own. */
  predicate PrintsHex(c: Code) { 1 <= c <= 6 || 14 <= c <= 31 || 127 <= c }

  predicate IsHexDigitCode(c: Code) { 48 <= c <= 57 || 65 <= c <= 70 || 97 <= c <= 102 }

  /** The letter after the backslash. */
  predicate EscapeLetter(c: Code, x: char) {
    || (c == 0 && x == '0') || (c == 7 && x == 'a') || (c == 8 && x == 'b') || (c == 9 && x == 't')
    || (c == 10 && x == 'n') || (c == 11 && x == 'v') || (c == 12 && x == 'f') || (c == 13 && x == 'r')
    || (c == 34 && x == '"') || (c == 92 && x == '\\')
  }

  predicate UpperDigit(x: char, v: int) {
    ('0' <= x <= '9' && v == x as int - 48) || ('A' <= x <= 'F' && v == x as int - 55)
  }

  /** One or two upper-case hexadecimal digits, without a leading zero. */
  predicate UpperNumeral(d: string, c: Code) {
    || (|d| == 1 && UpperDigit(d[0], c))
    || (|d| == 2 && c >= 16 && UpperDigit(d[0], c / 16) && UpperDigit(d[1], c % 16))
  }

  predicate TextOf(c: Code, t: string) {
    if PrintsPlain(c) then t == [c as char]
    else if PrintsHex(c) then |t| >= 2 && t[0] == '\\' && t[1] == 'x' && UpperNumeral(t[2..], c)
    else |t| == 2 && t[0] == '\\' && EscapeLetter(c, t[1])
  }

  ghost predicate AreTexts(s: seq<Code>, texts: seq<string>) {
    |texts| == |s| && forall i :: 0 <= i < |s| ==> TextOf(s[i], texts[i])
  }

  /** The texts in a row, with a break exactly between a hex escape and a hex digit that follows it. */
  function WithBreaks(s: seq<Code>, texts: seq<string>): string
    requires |texts| == |s|
  {
    if s == [] then ""
    else
      texts[0] + (if |s| > 1 && PrintsHex(s[0]) && IsHexDigitCode(s[1]) then "\" \"" else "")
      + WithBreaks(s[1..], texts[1..])
  }

  /** `os` is the array as a string literal. */
  ghost predicate IsLiteralOf(s: seq<Code>, os: string) {
    exists texts :: AreTexts(s, texts) && os == "\"" + WithBreaks(s, texts) + "\""
  }

  lemma TextIsUnique(c: Code, t: string, u: string)
    requires TextOf(c, t) && TextOf(c, u)
    ensures t == u
  {
    if PrintsHex(c) {
      assert t == t[..2] + t[2..] && u == u[..2] + u[2..];
    }
  }

  /** An array has one literal only. */
  lemma LiteralIsUnique(s: seq<Code>, os: string, other: string)
    requires IsLiteralOf(s, os) && IsLiteralOf(s, other)
    ensures os == other
  {
    var texts :| AreTexts(s, texts) && os == "\"" + WithBreaks(s, texts) + "\"";
    var others :| AreTexts(s, others) && other == "\"" + WithBreaks(s, others) + "\"";
    forall i | 0 <= i < |s| ensures texts[i] == others[i] {
      TextIsUnique(s[i], texts[i], others[i]);
    }
    assert texts == others;
  }

  /** Characters that need no escape are printed as themselves. */
  lemma PlainLiteral(s: seq<Code>, os: string)
    requires IsLiteralOf(s, os) && forall i :: 0 <= i < |s| ==> PrintsPlain(s[i])
    ensures os == "\"" + seq(|s|, i requires 0 <= i < |s| => s[i] as char) + "\""
  {
    var texts :| AreTexts(s, texts) && os == "\"" + WithBreaks(s, texts) + "\"";
    PlainTexts(s, texts);
  }

  lemma {:induction false} PlainTexts(s: seq<Code>, texts: seq<string>)
    requires AreTexts(s, texts) && forall i :: 0 <= i < |s| ==> PrintsPlain(s[i])
    ensures WithBreaks(s, texts) == seq(|s|, i requires 0 <= i < |s| => s[i] as char)
  {
    if s != [] {
      assert TextOf(s[0], texts[0]);
      PlainTexts(s[1..], texts[1..]);
    }
  }
}

module LiteralPrinter {
  import opened LiteralText

  datatype CharFormat = AsIs | HexEscape | SpecialEscape

  datatype Printed = Printed(text: string, format: CharFormat)

  predicate IsPrintableAscii(c: Code) { 0x20 <= c <= 0x7E }

  predicate IsXDigit(c: Code) {
    '0' as int <= c <= '9' as int || 'a' as int <= c <= 'f' as int || 'A' as int <= c <= 'F' as int
  }

  function HexDigit(n: int): char
    requires 0 <= n < 16
  {
    "0123456789ABCDEF"[n]
  }

  /** `os << std::hex << std::uppercase << n`: no leading zeros. */
  function Hex(n: nat): string {
    if n < 16 then [HexDigit(n)] else Hex(n / 16) + [HexDigit(n % 16)]
  }

  /** The text of a character inside a character literal. */
  function CharLiteral(c: Code): Printed {
    if c == 0 then Printed("\\0", SpecialEscape)
    else if c == '\'' as int then Printed("\\'", SpecialEscape)
    else if c == '\\' as int then Printed("\\\\", SpecialEscape)
    else if c == 7 then Printed("\\a", SpecialEscape)
    else if c == 8 then Printed("\\b", SpecialEscape)
    else if c == 12 then Printed("\\f", SpecialEscape)
    else if c == 10 then Printed("\\n", SpecialEscape)
    else if c == 13 then Printed("\\r", SpecialEscape)
    else if c == 9 then Printed("\\t", SpecialEscape)
    else if c == 11 then Printed("\\v", SpecialEscape)
    else if IsPrintableAscii(c) then Printed([c as char], AsIs)
    else Printed("\\x" + Hex(c), HexEscape)
  }

  /** The text of a character inside a string literal. */
  function StringLiteral(c: Code): Printed {
    if c == '\'' as int then Printed("'", AsIs)
    else if c == '"' as int then Printed("\\\"", SpecialEscape)
    else CharLiteral(c)
  }

  /** What breaks a literal in two. */
  const BREAK: string := "\" \""

  function BreakBefore(c: Code, previousHex: bool): string {
    if previousHex && IsXDigit(c) then BREAK else ""
  }

  /** Everything between the opening and the closing quote. */
  function Body(s: seq<Code>, previousHex: bool): string {
    if s == [] then ""
    else BreakBefore(s[0], previousHex) + StringLiteral(s[0]).text
         + Body(s[1..], StringLiteral(s[0]).format == HexEscape)
  }

  function Print(s: seq<Code>): string {
    "\"" + Body(s, false) + "\""
  }

  predicate NeedsHex(c: Code) {
    StringLiteral(c).format == HexEscape
  }

  /** The text after one turn of the loop. */
  function Appended(os: string, c: Code, previousHex: bool): string {
    (if previousHex && IsXDigit(c) then os + BREAK else os) + StringLiteral(c).text
  }

  lemma BodyStep(os: string, s: seq<Code>, previousHex: bool)
    requires s != []
    ensures os + Body(s, previousHex) == Appended(os, s[0], previousHex) + Body(s[1..], NeedsHex(s[0]))
  {
    Regroup(os, BreakBefore(s[0], previousHex), StringLiteral(s[0]).text, Body(s[1..], NeedsHex(s[0])));
    assert os + "" == os;
  }

  lemma Regroup(a: string, b: string, c: string, d: string)
    ensures a + (b + c + d) == ((a + b) + c) + d
  {
  }

  /** Some of the first `n` characters needs a hex escape. */
  ghost predicate AnyHex(s: seq<Code>, n: nat)
    requires n <= |s|
  {
    exists i :: 0 <= i < n && NeedsHex(s[i])
  }

  lemma AnyHexNext(s: seq<Code>, n: nat)
    requires n < |s|
    ensures AnyHex(s, n + 1) <==> AnyHex(s, n) || NeedsHex(s[n])
  {
    assert NeedsHex(s[n]) ==> AnyHex(s, n + 1);
  }

  /** One turn of the loop. */
  method AppendCharacter(os: string, cur: Code, isPreviousHex: bool) returns (longer: string, isHex: bool)
    ensures longer == Appended(os, cur, isPreviousHex) && isHex == NeedsHex(cur)
  {
    var kQuoteBegin := "\"";
    longer := os;
    if isPreviousHex && IsXDigit(cur) {
      longer := longer + ("\" " + kQuoteBegin);
    }
    var printed := StringLiteral(cur);
    longer := longer + printed.text;
    isHex := printed.format == HexEscape;
  }

  method PrintCharsAsStringTo(begin: seq<Code>) returns (os: string, printFormat: CharFormat)
    ensures os == Print(begin)
    ensures printFormat == if AnyHex(begin, |begin|) then HexEscape else AsIs
    ensures IsLiteralOf(begin, os)
    ensures if exists i :: 0 <= i < |begin| && PrintsHex(begin[i]) then printFormat == HexEscape else printFormat == AsIs
  {
    PrintIsLiteral(begin);
    os := "\"";
    var isPreviousHex := false;
    printFormat := AsIs;
    assert begin[0..] == begin;
    for index := 0 to |begin|
      invariant os + Body(begin[index..], isPreviousHex) == "\"" + Body(begin, false)
      invariant printFormat == if AnyHex(begin, index) then HexEscape else AsIs
    {
      assert begin[index..][1..] == begin[index + 1..];
      BodyStep(os, begin[index..], isPreviousHex);
      os, isPreviousHex := AppendCharacter(os, begin[index], isPreviousHex);
      AnyHexNext(begin, index);
      if isPreviousHex {
        printFormat := HexEscape;
      }
    }
    assert begin[|begin|..] == [];
    os := os + "\"";
  }

  /** The text and the format of one character, in numbers. */
  lemma TextOfCharacter(c: Code)
    ensures TextOf(c, StringLiteral(c).text)
    ensures NeedsHex(c) <==> PrintsHex(c)
  {
    if PrintsHex(c) {
      HexIsUpperNumeral(c);
      assert ("\\x" + Hex(c))[2..] == Hex(c);
    }
  }

  lemma HexIsUpperNumeral(c: Code)
    ensures UpperNumeral(Hex(c), c)
  {
    UpperDigits(c % 16);
    if c >= 16 {
      UpperDigits(c / 16);
      assert Hex(c) == [HexDigit(c / 16), HexDigit(c % 16)];
    }
  }

  lemma UpperDigits(n: int)
    requires 0 <= n < 16
    ensures UpperDigit(HexDigit(n), n)
  {
  }

  function Texts(s: seq<Code>): (texts: seq<string>)
    ensures |texts| == |s|
  {
    seq(|s|, i requires 0 <= i < |s| => StringLiteral(s[i]).text)
  }

  /** The printer breaks before a digit, which is behind a hex escape. */
  lemma {:induction false} BodyIsTexts(s: seq<Code>, previousHex: bool)
    ensures Body(s, previousHex)
         == (if s != [] && previousHex && IsHexDigitCode(s[0]) then BREAK else "") + WithBreaks(s, Texts(s))
  {
    if s != [] {
      TextOfCharacter(s[0]);
      assert Texts(s)[1..] == Texts(s[1..]);
      BodyIsTexts(s[1..], NeedsHex(s[0]));
    }
  }

  lemma PrintIsLiteral(s: seq<Code>)
    ensures IsLiteralOf(s, Print(s))
  {
    forall i | 0 <= i < |s| ensures TextOf(s[i], Texts(s)[i]) {
      TextOfCharacter(s[i]);
    }
    BodyIsTexts(s, false);
    assert AreTexts(s, Texts(s));
    assert Body(s, false) == WithBreaks(s, Texts(s));
  }

  const NO_NUL: string := " (no terminating NUL)"

  /** UniversalPrintCharArray: a final NUL is implied, its absence is noted. */
  function PrintArray(s: seq<Code>): string {
    if s != [] && s[|s| - 1] == 0 then Print(s[..|s| - 1]) else Print(s) + NO_NUL
  }

  method UniversalPrintCharArray(begin: seq<Code>) returns (os: string)
    ensures os == PrintArray(begin)
    ensures begin != [] && begin[|begin| - 1] == 0 ==> IsLiteralOf(begin[..|begin| - 1], os)
    ensures begin == [] || begin[|begin| - 1] != 0 ==>
              exists literal :: IsLiteralOf(begin, literal) && os == literal + " (no terminating NUL)"
  {
    var len := |begin|;
    var format;
    if len > 0 && begin[len - 1] == 0 {
      os, format := PrintCharsAsStringTo(begin[..len - 1]);
      return;
    }
    os, format := PrintCharsAsStringTo(begin);
    assert IsLiteralOf(begin, os);
    os := os + NO_NUL;
  }
}

/** A reader of adjacent string literals: section 5.13.5 of ISO/IEC 14882:2017. */
module LiteralReader {
  import opened Wrappers

  predicate IsHexChar(c: char) {
    '0' <= c <= '9' || 'a' <= c <= 'f' || 'A' <= c <= 'F'
  }

  function HexCharValue(c: char): int
    requires IsHexChar(c)
  {
    if '0' <= c <= '9' then c as int - '0' as int
    else if 'a' <= c <= 'f' then c as int - 'a' as int + 10
    else c as int - 'A' as int + 10
  }

  predicate IsOctalChar(c: char) { '0' <= c <= '7' }

  /** The length of the longest run of hexadecimal digits at the front. */
  function HexRun(t: string): (n: nat)
    ensures n <= |t| && forall i :: 0 <= i < n ==> IsHexChar(t[i])
  {
    if t != [] && IsHexChar(t[0]) then 1 + HexRun(t[1..]) else 0
  }

  /** The same for octal digits, at most `max` of them. */
  function OctalRun(t: string, max: nat): (n: nat)
    ensures n <= |t| && forall i :: 0 <= i < n ==> IsOctalChar(t[i])
    ensures max > 0 && t != [] && IsOctalChar(t[0]) ==> n > 0
  {
    if max > 0 && t != [] && IsOctalChar(t[0]) then 1 + OctalRun(t[1..], max - 1) else 0
  }

  function HexValue(t: string, n: nat): int
    requires n <= |t| && forall i :: 0 <= i < n ==> IsHexChar(t[i])
  {
    if n == 0 then 0 else HexValue(t, n - 1) * 16 + HexCharValue(t[n - 1])
  }

  function OctalValue(t: string, n: nat): int
    requires n <= |t| && forall i :: 0 <= i < n ==> IsOctalChar(t[i])
  {
    if n == 0 then 0 else OctalValue(t, n - 1) * 8 + (t[n - 1] as int - '0' as int)
  }

  /** The value of a simple escape sequence. */
  function SimpleEscape(c: char): Option<int> {
    if c == '\'' || c == '"' || c == '?' || c == '\\' then Some(c as int)
    else if c == 'a' then Some(7) else if c == 'b' then Some(8) else if c == 'f' then Some(12)
    else if c == 'n' then Some(10) else if c == 'r' then Some(13) else if c == 't' then Some(9)
    else if c == 'v' then Some(11) else None
  }

  function SkipSpaces(t: string): (r: string)
    ensures |r| <= |t|
  {
    if t != [] && t[0] == ' ' then SkipSpaces(t[1..]) else t
  }

  function Prepend(v: int, r: Option<seq<int>>): Option<seq<int>> {
    if r.None? then None else Some([v] + r.value)
  }

  /**
    * The characters of the literal whose inside starts here, and of the literals adjacent to it. An
    * octal escape takes at most `maxOctal` digits: 3 by the standard. None means no such literal.
    */
  function ReadInside(t: string, maxOctal: nat): Option<seq<int>>
    requires maxOctal > 0
    decreases |t|
  {
    if t == [] || t[0] == '\n' then None
    else if t[0] == '"' then
      if t[1..] == [] then Some([])
      else
        var next := SkipSpaces(t[1..]);
        if next != [] && next[0] == '"' then ReadInside(next[1..], maxOctal) else None
    else if t[0] != '\\' then Prepend(t[0] as int, ReadInside(t[1..], maxOctal))
    else if |t| == 1 then None
    else if t[1] == 'x' then
      var n := HexRun(t[2..]);
      if n == 0 || HexValue(t[2..], n) > 255 then None
      else Prepend(HexValue(t[2..], n), ReadInside(t[2 + n..], maxOctal))
    else if IsOctalChar(t[1]) then
      var n := OctalRun(t[1..], maxOctal);
      if OctalValue(t[1..], n) > 255 then None
      else Prepend(OctalValue(t[1..], n), ReadInside(t[1 + n..], maxOctal))
    else if SimpleEscape(t[1]).Some? then
      Prepend(SimpleEscape(t[1]).value, ReadInside(t[2..], maxOctal))
    else None
  }

  function Read(t: string, maxOctal: nat): Option<seq<int>>
    requires maxOctal > 0
  {
    if t != [] && t[0] == '"' then ReadInside(t[1..], maxOctal) else None
  }
}

/** What reading a printed literal gives back. */
module LiteralRoundTrip {
  import opened Wrappers
  import opened LiteralText
  import opened LiteralPrinter
  import opened LiteralReader

  // ---- one character ----------------------------------------------------------------------------

  lemma HexOfByte(c: Code, rest: string)
    requires rest == [] || !IsHexChar(rest[0])
    ensures 1 <= |Hex(c)| <= 2 && HexRun(Hex(c) + rest) == |Hex(c)| && HexValue(Hex(c) + rest, |Hex(c)|) == c
  {
    if c < 16 {
      HexDigitReads(c);
      OneHexDigit(HexDigit(c), rest);
    } else {
      HexDigitReads(c / 16);
      HexDigitReads(c % 16);
      assert Hex(c) == [HexDigit(c / 16), HexDigit(c % 16)];
      TwoHexDigits(HexDigit(c / 16), HexDigit(c % 16), rest);
    }
  }

  lemma OneHexDigit(a: char, rest: string)
    requires IsHexChar(a) && (rest == [] || !IsHexChar(rest[0]))
    ensures HexRun([a] + rest) == 1 && HexValue([a] + rest, 1) == HexCharValue(a)
  {
    var t := [a] + rest;
    assert t[1..] == rest;
    assert HexValue(t, 1) == HexValue(t, 0) * 16 + HexCharValue(t[0]);
  }

  lemma TwoHexDigits(a: char, b: char, rest: string)
    requires IsHexChar(a) && IsHexChar(b) && (rest == [] || !IsHexChar(rest[0]))
    ensures HexRun([a, b] + rest) == 2 && HexValue([a, b] + rest, 2) == HexCharValue(a) * 16 + HexCharValue(b)
  {
    var t := [a, b] + rest;
    OneHexDigit(b, rest);
    assert t[1..] == [b] + rest;
    assert HexValue(t, 2) == HexValue(t, 1) * 16 + HexCharValue(t[1]);
    assert HexValue(t, 1) == HexValue(t, 0) * 16 + HexCharValue(t[0]);
  }

  lemma HexDigitReads(n: int)
    requires 0 <= n < 16
    ensures IsHexChar(HexDigit(n)) && HexCharValue(HexDigit(n)) == n
  {
  }

  lemma HexEscapeReads(c: Code, rest: string, maxOctal: nat)
    requires maxOctal > 0 && (rest == [] || !IsHexChar(rest[0]))
    ensures ReadInside("\\x" + Hex(c) + rest, maxOctal) == Prepend(c, ReadInside(rest, maxOctal))
  {
    var t := "\\x" + Hex(c) + rest;
    HexOfByte(c, rest);
    assert t[2..] == Hex(c) + rest && t[2 + |Hex(c)|..] == rest;
  }

  lemma PlainReads(c: char, rest: string, maxOctal: nat)
    requires maxOctal > 0 && c != '\n' && c != '"' && c != '\\'
    ensures ReadInside([c] + rest, maxOctal) == Prepend(c as int, ReadInside(rest, maxOctal))
  {
    assert ([c] + rest)[1..] == rest;
  }

  lemma SimpleEscapeReads(c: char, rest: string, maxOctal: nat)
    requires maxOctal > 0 && SimpleEscape(c).Some?
    ensures ReadInside(['\\', c] + rest, maxOctal) == Prepend(SimpleEscape(c).value, ReadInside(rest, maxOctal))
  {
    assert (['\\', c] + rest)[2..] == rest;
  }

  /** The three forms in which a character other than NUL is printed. */
  lemma FormsOfText(c: Code)
    requires c != 0
    ensures var p := StringLiteral(c);
            || (p.format == HexEscape && p.text == "\\x" + Hex(c))
            || (p.format == AsIs && p.text == [c as char] && c as char != '\n' && c as char != '"' && c as char != '\\')
            || (p.format == SpecialEscape && |p.text| == 2 && p.text[0] == '\\' && SimpleEscape(p.text[1]) == Some(c))
  {
  }

  /** A character other than NUL reads as itself, whatever follows (no digit, after a hex escape). */
  lemma CharacterReads(c: Code, rest: string, maxOctal: nat)
    requires maxOctal > 0 && c != 0
    requires StringLiteral(c).format == HexEscape ==> rest == [] || !IsHexChar(rest[0])
    ensures ReadInside(StringLiteral(c).text + rest, maxOctal) == Prepend(c, ReadInside(rest, maxOctal))
  {
    var text := StringLiteral(c).text;
    FormsOfText(c);
    match StringLiteral(c).format
    case HexEscape => HexEscapeReads(c, rest, maxOctal);
    case AsIs => PlainReads(c as char, rest, maxOctal);
    case SpecialEscape =>
      assert text == ['\\', text[1]];
      SimpleEscapeReads(text[1], rest, maxOctal);
  }

  lemma BreakReads(rest: string, maxOctal: nat)
    requires maxOctal > 0
    ensures ReadInside(BREAK + rest, maxOctal) == ReadInside(rest, maxOctal)
  {
    var t := BREAK + rest;
    assert t[1..] == " \"" + rest;
    assert t[1..][1..] == "\"" + rest;
    assert SkipSpaces(t[1..]) == "\"" + rest;
    assert ("\"" + rest)[1..] == rest;
  }

  /** After a hex escape the printer never goes on with a hexadecimal digit. */
  lemma NoDigitAfterHex(s: seq<Code>)
    ensures !IsHexChar((Body(s, true) + "\"")[0])
  {
    if s != [] {
      var text := StringLiteral(s[0]).text;
      assert text[0] == '\\' || text == [s[0] as char];
      assert Body(s, true)[0] == (BreakBefore(s[0], true) + text)[0];
    }
  }

  /** Reading resumes the same way whether or not the literal was broken. */
  lemma BreakIsTransparent(s: seq<Code>, maxOctal: nat)
    requires maxOctal > 0
    ensures ReadInside(Body(s, true) + "\"", maxOctal) == ReadInside(Body(s, false) + "\"", maxOctal)
  {
    if s != [] && IsXDigit(s[0]) {
      assert Body(s, true) + "\"" == BREAK + (Body(s, false) + "\"");
      BreakReads(Body(s, false) + "\"", maxOctal);
    } else {
      assert Body(s, true) == Body(s, false);
    }
  }

  lemma FirstCharacterSplits(s: seq<Code>)
    requires s != []
    ensures Body(s, false) + "\"" == StringLiteral(s[0]).text + (Body(s[1..], NeedsHex(s[0])) + "\"")
  {
    Regroup("", "", StringLiteral(s[0]).text, Body(s[1..], NeedsHex(s[0])));
    Regroup("", StringLiteral(s[0]).text, Body(s[1..], NeedsHex(s[0])), "\"");
    assert "" + StringLiteral(s[0]).text == StringLiteral(s[0]).text;
  }

  /** Reading the text of a nonempty array: its first character, then the rest. */
  lemma FirstCharacterReads(s: seq<Code>, maxOctal: nat)
    requires maxOctal > 0 && s != [] && s[0] != 0
    ensures ReadInside(Body(s, false) + "\"", maxOctal)
         == Prepend(s[0], ReadInside(Body(s[1..], false) + "\"", maxOctal))
  {
    var hex := NeedsHex(s[0]);
    var rest := Body(s[1..], hex) + "\"";
    FirstCharacterSplits(s);
    if hex {
      NoDigitAfterHex(s[1..]);
      BreakIsTransparent(s[1..], maxOctal);
    }
    CharacterReads(s[0], rest, maxOctal);
  }

  lemma EndReads(maxOctal: nat)
    requires maxOctal > 0
    ensures ReadInside(Body([], false) + "\"", maxOctal) == Some([])
  {
    assert Body([], false) + "\"" == "\"";
  }

  // ---- with \0 as a complete escape --------------------------------------------------------------

  /** A printed NUL reads as an octal escape, together with the digits that follow it. */
  lemma NulReads(rest: string, maxOctal: nat)
    requires maxOctal > 0
    ensures var k := OctalRun(rest, maxOctal - 1);
            && OctalRun("0" + rest, maxOctal) == 1 + k
            && ReadInside("\\0" + rest, maxOctal)
               == if OctalValue("0" + rest, 1 + k) > 255 then None
                  else Prepend(OctalValue("0" + rest, 1 + k), ReadInside(rest[k..], maxOctal))
  {
    var t := "\\0" + rest;
    var k := OctalRun(rest, maxOctal - 1);
    assert ("0" + rest)[1..] == rest;
    assert t[1..] == "0" + rest && t[1 + (1 + k)..] == rest[k..];
  }

  lemma NulBody(s: seq<Code>)
    requires s != [] && s[0] == 0
    ensures Body(s, false) + "\"" == "\\0" + (Body(s[1..], false) + "\"")
  {
  }

  lemma {:induction false} BodyReadsBack(s: seq<Code>)
    ensures ReadInside(Body(s, false) + "\"", 1) == Some(s)
  {
    if s == [] {
      EndReads(1);
    } else {
      BodyReadsBack(s[1..]);
      assert s == [s[0]] + s[1..];
      if s[0] == 0 {
        var rest := Body(s[1..], false) + "\"";
        NulBody(s);
        NulReads(rest, 1);
        assert rest[0..] == rest;
        assert OctalValue("0" + rest, 1) == OctalValue("0" + rest, 0) * 8 + 0;
      } else {
        FirstCharacterReads(s, 1);
      }
    }
  }

  /** Printing and reading back gives the original characters, if \0 counts as a complete escape. */
  lemma RoundTrip(s: seq<Code>)
    ensures Read(Print(s), 1) == Some(s)
  {
    assert Print(s)[1..] == Body(s, false) + "\"";
    BodyReadsBack(s);
  }

  lemma PrintIsInjective(s: seq<Code>, r: seq<Code>)
    requires Print(s) == Print(r)
    ensures s == r
  {
    RoundTrip(s);
    RoundTrip(r);
  }

  /** The same for whole arrays, with the note about a missing final NUL. */
  lemma PrintArrayIsInjective(s: seq<Code>, r: seq<Code>)
    requires PrintArray(s) == PrintArray(r)
    ensures s == r
  {
    var sNul, rNul := s != [] && s[|s| - 1] == 0, r != [] && r[|r| - 1] == 0;
    LastOfPrintArray(s);
    LastOfPrintArray(r);
    if sNul {
      PrintIsInjective(s[..|s| - 1], r[..|r| - 1]);
      assert s == s[..|s| - 1] + [0] && r == r[..|r| - 1] + [0];
    } else {
      assert Print(s) == PrintArray(s)[..|PrintArray(s)| - |NO_NUL|];
      assert Print(r) == PrintArray(r)[..|PrintArray(r)| - |NO_NUL|];
      PrintIsInjective(s, r);
    }
  }

  lemma LastOfPrintArray(s: seq<Code>)
    ensures PrintArray(s) != []
    ensures PrintArray(s)[|PrintArray(s)| - 1] == if s != [] && s[|s| - 1] == 0 then '"' else ')'
  {
  }

  // ---- by the standard: an octal escape takes up to three digits ----------------------------------

  predicate IsOctalCode(c: Code) { '0' as int <= c <= '7' as int }

  /** How many octal digits a NUL at the front swallows. */
  function Swallowed(s: seq<Code>): (n: nat)
    ensures n <= |s|
  {
    if s == [] || !IsOctalCode(s[0]) then 0
    else if s[1..] == [] || !IsOctalCode(s[1]) then 1 else 2
  }

  function SwallowedValue(s: seq<Code>): Code {
    match Swallowed(s)
    case 0 => 0
    case 1 => s[0] - '0' as int
    case _ => (s[0] - '0' as int) * 8 + (s[1] - '0' as int)
  }

  /** What a standard reader makes of the printed text: each NUL swallows the octal digits after it. */
  function Collapse(s: seq<Code>): seq<Code> {
    if s == [] then []
    else if s[0] == 0 then [SwallowedValue(s[1..])] + Collapse(s[1 + Swallowed(s[1..])..])
    else [s[0]] + Collapse(s[1..])
  }

  lemma OctalHead(s: seq<Code>)
    ensures var t := Body(s, false) + "\"";
            && (IsOctalChar(t[0]) <==> s != [] && IsOctalCode(s[0]))
            && (s != [] && IsOctalCode(s[0]) ==> t == [s[0] as char] + (Body(s[1..], false) + "\""))
  {
    if s != [] {
      var text := StringLiteral(s[0]).text;
      assert text[0] == '\\' || text == [s[0] as char];
      assert Body(s, false)[0] == text[0];
    }
  }

  /** The octal digits a standard reader finds after a printed NUL are those that follow it in the array. */
  lemma SwallowedDigits(s: seq<Code>)
    ensures var t := Body(s, false) + "\"";
            && OctalRun(t, 2) == Swallowed(s)
            && t[Swallowed(s)..] == Body(s[Swallowed(s)..], false) + "\""
            && OctalRun("0" + t, 3) == 1 + Swallowed(s)
            && OctalValue("0" + t, 1 + Swallowed(s)) == SwallowedValue(s)
  {
    var t := Body(s, false) + "\"";
    NulReads(t, 3);
    if Swallowed(s) == 0 {
      SwallowedNone(s);
    } else if Swallowed(s) == 1 {
      SwallowedFirst(s);
    } else {
      SwallowedFirst(s);
      SwallowedSecond(s);
    }
  }

  lemma SwallowedNone(s: seq<Code>)
    requires Swallowed(s) == 0
    ensures var t := Body(s, false) + "\"";
            && OctalRun(t, 2) == 0 && t[0..] == Body(s[0..], false) + "\""
            && OctalValue("0" + t, 1) == 0
  {
    var t := Body(s, false) + "\"";
    OctalHead(s);
    assert s[0..] == s && t[0..] == t;
    assert OctalValue("0" + t, 1) == OctalValue("0" + t, 0) * 8 + 0;
  }

  lemma SwallowedFirst(s: seq<Code>)
    requires Swallowed(s) >= 1
    ensures var t, t1 := Body(s, false) + "\"", Body(s[1..], false) + "\"";
            && t[1..] == t1 && t[0] == s[0] as char && OctalRun(t, 2) == 1 + OctalRun(t1, 1)
            && (OctalRun(t1, 1) == 1 <==> Swallowed(s) == 2)
            && OctalValue("0" + t, 2) == s[0] - '0' as int
  {
    var t := Body(s, false) + "\"";
    OctalHead(s);
    OctalHead(s[1..]);
    assert t[1..] == Body(s[1..], false) + "\"";
    OctalOfTwo("0" + t);
  }

  lemma OctalOfTwo(z: string)
    requires |z| >= 2 && z[0] == '0' && IsOctalChar(z[1])
    ensures OctalValue(z, 2) == z[1] as int - '0' as int
  {
    assert OctalValue(z, 1) == OctalValue(z, 0) * 8 + 0;
    assert OctalValue(z, 2) == OctalValue(z, 1) * 8 + (z[1] as int - '0' as int);
  }

  lemma OctalOfThree(z: string)
    requires |z| >= 3 && z[0] == '0' && IsOctalChar(z[1]) && IsOctalChar(z[2])
    ensures OctalValue(z, 3) == (z[1] as int - '0' as int) * 8 + (z[2] as int - '0' as int)
  {
    OctalOfTwo(z);
    assert OctalValue(z, 3) == OctalValue(z, 2) * 8 + (z[2] as int - '0' as int);
  }

  lemma SwallowedSecond(s: seq<Code>)
    requires Swallowed(s) == 2
    ensures var t := Body(s, false) + "\"";
            t[2..] == Body(s[2..], false) + "\"" && OctalRun("0" + t, 3) == 3
            && OctalValue("0" + t, 3) == (s[0] - '0' as int) * 8 + (s[1] - '0' as int)
  {
    var t, t1 := Body(s, false) + "\"", Body(s[1..], false) + "\"";
    SwallowedFirst(s);
    OctalHead(s[1..]);
    NulReads(t, 3);
    assert s[1..][1..] == s[2..] && t[2..] == t1[1..];
    assert ("0" + t)[2] == t1[0] && ("0" + t)[1] == t[0];
    OctalOfThree("0" + t);
  }

  lemma {:induction false} StandardBody(s: seq<Code>)
    ensures ReadInside(Body(s, false) + "\"", 3) == Some(Collapse(s))
    decreases |s|
  {
    if s == [] {
      EndReads(3);
    } else if s[0] == 0 {
      var k := Swallowed(s[1..]);
      NulBody(s);
      NulReads(Body(s[1..], false) + "\"", 3);
      SwallowedDigits(s[1..]);
      assert s[1..][k..] == s[1 + k..];
      StandardBody(s[1 + k..]);
    } else {
      FirstCharacterReads(s, 3);
      StandardBody(s[1..]);
    }
  }

  /** What a standard reader makes of every printed array. */
  lemma StandardReading(s: seq<Code>)
    ensures Read(Print(s), 3) == Some(Collapse(s))
  {
    assert Print(s)[1..] == Body(s, false) + "\"";
    StandardBody(s);
  }

  /** No NUL is immediately followed by an octal digit. */
  predicate NoNulBeforeOctal(s: seq<Code>) {
    forall i :: 0 <= i < |s| - 1 && s[i] == 0 ==> !IsOctalCode(s[i + 1])
  }

  lemma {:induction false} CollapseLength(s: seq<Code>)
    ensures |Collapse(s)| <= |s|
    decreases |s|
  {
    if s != [] {
      CollapseLength(if s[0] == 0 then s[1 + Swallowed(s[1..])..] else s[1..]);
    }
  }

  lemma {:induction false} CollapseIsIdentity(s: seq<Code>)
    ensures Collapse(s) == s <==> NoNulBeforeOctal(s)
    decreases |s|
  {
    if s != [] {
      CollapseLength(s);
      if s[0] == 0 && Swallowed(s[1..]) > 0 {
        CollapseLength(s[1 + Swallowed(s[1..])..]);
        assert s[0] == 0 && IsOctalCode(s[0 + 1]);
      } else {
        assert s[1 + 0..] == s[1..];
        CollapseIsIdentity(s[1..]);
        assert s == [s[0]] + s[1..];
        assert Collapse(s) == [s[0]] + Collapse(s[1..]);
        assert Collapse(s)[1..] == Collapse(s[1..]);
        NoNulTail(s);
      }
    }
  }

  lemma NoNulTail(s: seq<Code>)
    requires s != [] && (s[0] == 0 ==> Swallowed(s[1..]) == 0)
    ensures NoNulBeforeOctal(s) <==> NoNulBeforeOctal(s[1..])
  {
    var r := s[1..];
    if NoNulBeforeOctal(r) {
      forall i | 0 <= i < |s| - 1 && s[i] == 0 ensures !IsOctalCode(s[i + 1]) {
        if i > 0 {
          assert r[i - 1] == 0;
        } else {
          assert r[0] == s[1];
        }
      }
    }
    if NoNulBeforeOctal(s) {
      forall i | 0 <= i < |r| - 1 && r[i] == 0 ensures !IsOctalCode(r[i + 1]) {
        assert s[i + 1] == 0;
      }
    }
  }

  /**
    * By the standard the printed literal denotes the original characters exactly when no NUL is
    * immediately followed by an octal digit: the printer breaks a literal only after hex escapes.
    */
  lemma StandardRoundTripCondition(s: seq<Code>)
    ensures Read(Print(s), 3) == Some(s) <==> NoNulBeforeOctal(s)
  {
    StandardReading(s);
    CollapseIsIdentity(s);
  }

  lemma CollapseOfNulOne()
    ensures Collapse([0, '1' as int]) == [1]
  {
    var s: seq<Code> := [0, '1' as int];
    assert s[1..] == ['1' as int];
    assert Swallowed(s[1..]) == 1 && SwallowedValue(s[1..]) == 1;
    assert s[1 + 1..] == [];
    assert Collapse(s) == [1] + Collapse([]);
  }

  /** For instance NUL followed by '1' prints as one octal escape, for the character 1. */
  lemma NulThenDigitMisread()
    ensures Print([0, '1' as int]) == "\"\\01\""
    ensures Read(Print([0, '1' as int]), 3) == Some([1])
  {
    StandardReading([0, '1' as int]);
    CollapseOfNulOne();
    assert Body([0, '1' as int], false) == "\\0" + Body(['1' as int], false);
    assert Body(['1' as int], false) == "1" + Body([], false);
  }
}
