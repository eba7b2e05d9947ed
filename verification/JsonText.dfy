/**
 The lexical grammar of 3rdparty/rapidjson/reader.h as functions from the text still to be read to what
 was recognised and the text after it: white space, comments, strings and numbers.
 */
module JsonText {
  import opened Json
  import opened Streams
  import Utf8

  datatype Parsed<+T> = Failed | Parsed(value: T, rest: string)

  /** The parse flags. `toDouble` stands for the double arithmetic of the number parser and `internal::Strtod*`:
      what they make of a number that had a minus sign or not and is spelled so after it, again without a sign, or
      nothing when that exceeds the largest double. The sign matters: it decides where a big integer stops being
      exact, and with that where rounding starts. */
  datatype Flags = Flags(comments: bool, trailingCommas: bool, stopWhenDone: bool,
                         toDouble: (bool, string) -> Option<real>)

  // ---------------------------------------------------------------------------------------------
  // White space and comments
  // ---------------------------------------------------------------------------------------------

  predicate IsWhitespace(c: char) {
    c == ' ' || c == '\n' || c == '\r' || c == '\t'
  }

  /** `SkipWhitespace` */
  function Whitespace(s: string): (r: string)
    ensures |r| <= |s| && !IsWhitespace(Peek(r))
    decreases |s|
  {
    if IsWhitespace(Peek(s)) then Whitespace(s[1..]) else s
  }

  /** The text after the end of a block comment, if it ends. */
  function BlockComment(s: string): (r: Option<string>)
    ensures r.Some? ==> |r.value| < |s|
    decreases |s|
  {
    if Peek(s) == '\0' then None
    else if Peek(s) == '*' && Peek(s[1..]) == '/' then Some(s[2..])
    else BlockComment(s[1..])
  }

  /** The text after a line comment. */
  function LineComment(s: string): (r: string)
    ensures |r| <= |s|
    decreases |s|
  {
    if Peek(s) == '\0' then s
    else if s[0] == '\n' then s[1..]
    else LineComment(s[1..])
  }

  function Comments(s: string): (r: Option<string>)
    ensures r.Some? ==> |r.value| <= |s|
    decreases |s|
  {
    if Peek(s) != '/' then Some(s)
    else if Peek(s[1..]) == '*' then
      var end := BlockComment(s[2..]);
      if end.None? then None else Comments(Whitespace(end.value))
    else if Peek(s[1..]) == '/' then Comments(Whitespace(LineComment(s[2..])))
    else None
  }

  /** `SkipWhitespaceAndComments`; `None` is the syntax error of a malformed comment. */
  function Skip(f: Flags, s: string): (r: Option<string>)
    ensures r.Some? ==> |r.value| <= |s|
  {
    if f.comments then Comments(Whitespace(s)) else Some(Whitespace(s))
  }

  // ---------------------------------------------------------------------------------------------
  // Strings
  // ---------------------------------------------------------------------------------------------

  /** The table of single-character escapes; zero where there is none. */
  function Escape(c: char): char {
    match c
    case '\"' => '\"'
    case '/' => '/'
    case '\\' => '\\'
    case 'b' => 8 as char
    case 'f' => 12 as char
    case 'n' => '\n'
    case 'r' => '\r'
    case 't' => '\t'
    case _ => '\0'
  }

  predicate IsHexDigit(c: char) {
    '0' <= c <= '9' || 'A' <= c <= 'F' || 'a' <= c <= 'f'
  }

  function HexValue(c: char): (n: nat)
    requires IsHexDigit(c)
    ensures n < 16
  {
    if c <= '9' then c as int - '0' as int
    else if c <= 'F' then c as int - 'A' as int + 10
    else c as int - 'a' as int + 10
  }

  /** `ParseHex4` */
  function Hex4(s: string): (r: Option<nat>)
    ensures r.Some? ==> r.value < 0x10000 && |s| >= 4
  {
    if |s| < 4 || !IsHexDigit(s[0]) || !IsHexDigit(s[1]) || !IsHexDigit(s[2]) || !IsHexDigit(s[3]) then None
    else Some(((HexValue(s[0]) * 16 + HexValue(s[1])) * 16 + HexValue(s[2])) * 16 + HexValue(s[3]))
  }

  /** The code point of an escape `\uXXXX`, or of two that form a surrogate pair, after the first `\u`. */
  function UnicodeEscape(s: string): (r: Parsed<nat>)
    ensures r.Parsed? ==> r.value <= 0x10FFFF && |r.rest| < |s|
  {
    var high := Hex4(s);
    if high.None? then Failed
    else if !(0xD800 <= high.value <= 0xDBFF) then Parsed(high.value, s[4..])
    else if Peek(s[4..]) != '\\' || Peek(s[5..]) != 'u' then Failed
    else
      var low := Hex4(s[6..]);
      if low.None? || low.value < 0xDC00 || low.value > 0xDFFF then Failed
      else Parsed((high.value - 0xD800) * 0x400 + (low.value - 0xDC00) + 0x10000, s[10..])
  }

  /** `ParseStringToStream` after the opening quote, having written `text`. */
  function StringAt(s: string, text: string): (r: Parsed<string>)
    ensures r.Parsed? ==> |r.rest| < |s|
    decreases |s|
  {
    var c := Peek(s);
    if c == '\\' then
      var e := Peek(s[1..]);
      if Escape(e) != '\0' then StringAt(s[2..], text + [Escape(e)])
      else if e == 'u' then
        var u := UnicodeEscape(s[2..]);
        if u.Failed? then Failed else StringAt(u.rest, text + Utf8.Encoding(u.value))
      else Failed
    else if c == '\"' then Parsed(text, s[1..])
    else if c as int < 0x20 then Failed
    else StringAt(s[1..], text + [c])
  }

  // ---------------------------------------------------------------------------------------------
  // Numbers
  // ---------------------------------------------------------------------------------------------

  predicate IsDigit(c: char) {
    '0' <= c <= '9'
  }

  predicate AreDigits(ds: string) {
    forall i :: 0 <= i < |ds| ==> IsDigit(ds[i])
  }

  function Digit(c: char): (d: nat)
    requires IsDigit(c)
    ensures d < 10
  {
    c as int - '0' as int
  }

  /** The longest run of digits. */
  function Digits(s: string): (ds: string)
    ensures |ds| <= |s| && ds == s[..|ds|] && AreDigits(ds) && !IsDigit(Peek(s[|ds|..]))
    decreases |s|
  {
    if IsDigit(Peek(s)) then [s[0]] + Digits(s[1..]) else ""
  }

  /** The number that a decimal numeral denotes. */
  function Value(ds: string): nat
    requires AreDigits(ds)
    decreases |ds|
  {
    if ds == "" then 0 else Value(ds[..|ds| - 1]) * 10 + Digit(ds[|ds| - 1])
  }

  datatype Exponent = Exponent(minus: bool, digits: string)

  /** A number as it is spelled (section 6 of RFC 8259). */
  datatype Literal = Literal(minus: bool, digits: string, fraction: Option<string>, exponent: Option<Exponent>) {
    predicate Valid() {
      && AreDigits(digits) && digits != ""
      && (fraction.Some? ==> AreDigits(fraction.value) && fraction.value != "")
      && (exponent.Some? ==> AreDigits(exponent.value.digits) && exponent.value.digits != "")
    }

    predicate IsInteger() {
      fraction.None? && exponent.None?
    }
  }

  function IntegerAt(s: string): (r: Parsed<string>)
    ensures r.Parsed? ==> AreDigits(r.value) && r.value != "" && |r.rest| < |s|
  {
    if Peek(s) == '0' then Parsed("0", s[1..])
    else if IsDigit(Peek(s)) then var ds := Digits(s); Parsed(ds, s[|ds|..])
    else Failed
  }

  function FractionAt(s: string): (r: Parsed<Option<string>>)
    ensures r.Parsed? ==> |r.rest| <= |s|
    ensures r.Parsed? && r.value.Some? ==> AreDigits(r.value.value) && r.value.value != ""
  {
    if Peek(s) != '.' then Parsed(None, s)
    else
      var ds := Digits(s[1..]);
      if ds == "" then Failed else Parsed(Some(ds), s[1..][|ds|..])
  }

  function ExponentAt(s: string): (r: Parsed<Option<Exponent>>)
    ensures r.Parsed? ==> |r.rest| <= |s|
    ensures r.Parsed? && r.value.Some? ==> AreDigits(r.value.value.digits) && r.value.value.digits != ""
  {
    if Peek(s) != 'e' && Peek(s) != 'E' then Parsed(None, s)
    else
      var sign := Peek(s[1..]);
      var after := if sign == '+' || sign == '-' then s[2..] else s[1..];
      var ds := Digits(after);
      if ds == "" then Failed else Parsed(Some(Exponent(sign == '-', ds)), after[|ds|..])
  }

  function LiteralAt(s: string): (r: Parsed<Literal>)
    ensures r.Parsed? ==> r.value.Valid() && |r.rest| < |s|
  {
    var minus := Peek(s) == '-';
    var digits := IntegerAt(if minus then s[1..] else s);
    if digits.Failed? then Failed
    else
      var fraction := FractionAt(digits.rest);
      if fraction.Failed? then Failed
      else
        var exponent := ExponentAt(fraction.rest);
        if exponent.Failed? then Failed
        else Parsed(Literal(minus, digits.value, fraction.value, exponent.value), exponent.rest)
  }

  /** The event that an integer announces itself with, if it has an exact one. */
  function Exact(minus: bool, n: nat): Option<Number> {
    if minus then
      var negated := 0 - n;
      if n <= 0x8000_0000 then Some(Int(negated))
      else if n <= 0x8000_0000_0000_0000 then Some(Int64(negated))
      else None
    else
      if n <= 0xFFFF_FFFF then Some(Uint(n))
      else if n <= 0xFFFF_FFFF_FFFF_FFFF then Some(Uint64(n))
      else None
  }

  const FAST_PATH := 0x1F_FFFF_FFFF_FFFF

  /** `expFrac`: minus the number of fraction digits that enter the significand `i`, of which `digits`
      are significant so far. */
  function Scale(i: nat, digits: int, fraction: string): (e: int)
    requires AreDigits(fraction)
    ensures -|fraction| <= e <= 0
    decreases |fraction|
  {
    if fraction == "" then 0
    else if i > FAST_PATH then if digits < 17 then Scale(i, digits + 1, fraction[1..]) - 1 else 0
    else
      var j := i * 10 + Digit(fraction[0]);
      Scale(j, if j != 0 then digits + 1 else digits, fraction[1..]) - 1
  }

  function ScaleOf(l: Literal): (e: int)
    requires l.Valid()
    ensures e <= 0
  {
    if l.fraction.None? || Exact(l.minus, Value(l.digits)).None? then 0
    else Scale(Value(l.digits), |l.digits| - 1, l.fraction.value)
  }

  predicate ExponentTooBig(l: Literal)
    requires l.Valid()
  {
    l.exponent.Some? && !l.exponent.value.minus && Value(l.exponent.value.digits) > 308 - ScaleOf(l)
  }

  /** The number a literal denotes, spelled `text` after its sign; `None` is the error "number too big". */
  function Denoted(f: Flags, l: Literal, text: string): Option<Number>
    requires l.Valid()
  {
    var exact := Exact(l.minus, Value(l.digits));
    if l.IsInteger() && exact.Some? then exact
    else if ExponentTooBig(l) then None
    else
      var d := f.toDouble(l.minus, text);
      if d.None? then None else Some(Double(if l.minus then -d.value else d.value))
  }

  /** `ParseNumber` */
  function NumberAt(f: Flags, s: string): (r: Parsed<Number>)
    ensures r.Parsed? ==> |r.rest| < |s|
  {
    var l := LiteralAt(s);
    if l.Failed? then Failed
    else
      var unsigned := if l.value.minus then s[1..] else s;
      var n := Denoted(f, l.value, unsigned[..|unsigned| - |l.rest|]);
      if n.None? then Failed else Parsed(n.value, l.rest)
  }
}
