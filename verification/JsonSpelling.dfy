/**
 The strings of section 7 of RFC 8259 as sequences of pieces, each with its spelling and with the bytes it stands
 for, and that the scanner of 3rdparty/rapidjson/reader.h reads exactly these; and the numbers of section 6.
 */
module JsonSpelling {
  import opened Json
  import opened Streams
  import opened JsonText
  import opened Writer
  import Reader
  import Utf8
  import Utf16

  /** The letters of the short escapes, and the codes they stand for. */
  const SHORT_ESCAPES := "\"\\/bfnrt"
  const SHORT_CODES := [0x22, 0x5C, 0x2F, 0x08, 0x0C, 0x0A, 0x0D, 0x09]

  /** A piece of a string: a character that stands for itself, a short escape (by its position in the list), a code
      unit in four hexadecimal digits, or two of them that form a surrogate pair. */
  datatype Piece =
    | Plain(c: char)
    | Short(k: nat)
    | Unit(n: Utf16.Unit, digits: string)
    | Pair(high: Utf16.Unit, highDigits: string, low: Utf16.Unit, lowDigits: string)

  /** A hexadecimal digit of either case. */
  predicate Denotes(c: char, n: nat) {
    n < 16 && (c == "0123456789abcdef"[n] || c == "0123456789ABCDEF"[n])
  }

  predicate Numeral(digits: string, n: nat) {
    && |digits| == 4 && n < 0x10000
    && Denotes(digits[0], n / 4096) && Denotes(digits[1], n / 256 % 16)
    && Denotes(digits[2], n / 16 % 16) && Denotes(digits[3], n % 16)
  }

  predicate IsHighSurrogate(n: nat) {
    0xD800 <= n < 0xDC00
  }

  predicate ValidPiece(p: Piece) {
    match p
    case Plain(c) => c as int >= 0x20 && c as int != 0x22 && c as int != 0x5C
    case Short(k) => k < 8
    case Unit(n, digits) => Numeral(digits, n) && !IsHighSurrogate(n)
    case Pair(high, highDigits, low, lowDigits) =>
      && Numeral(highDigits, high) && Numeral(lowDigits, low)
      && IsHighSurrogate(high) && Utf16.Decode([high, low]).ok
  }

  function Spelling(p: Piece): (s: string)
    requires ValidPiece(p)
    ensures s != ""
  {
    match p
    case Plain(c) => [c]
    case Short(k) => ['\\', SHORT_ESCAPES[k]]
    case Unit(_, digits) => "\\u" + digits
    case Pair(_, highDigits, _, lowDigits) => "\\u" + highDigits + "\\u" + lowDigits
  }

  function Stands(p: Piece): string
    requires ValidPiece(p)
  {
    match p
    case Plain(c) => [c]
    case Short(k) => [SHORT_CODES[k] as char]
    case Unit(n, _) => Utf8.Encoding(n)
    case Pair(high, _, low, _) => Utf8.Encoding(Utf16.Decode([high, low]).codepoint)
  }

  lemma ShortEscape(c: char)
    ensures Escape(c) != '\0' <==> c in SHORT_ESCAPES
    ensures forall k :: 0 <= k < 8 ==> Escape(SHORT_ESCAPES[k]) == SHORT_CODES[k] as char
  {
    if Escape(c) != '\0' {
      assert c == SHORT_ESCAPES[0] || c == SHORT_ESCAPES[1] || c == SHORT_ESCAPES[2] || c == SHORT_ESCAPES[3]
             || c == SHORT_ESCAPES[4] || c == SHORT_ESCAPES[5] || c == SHORT_ESCAPES[6] || c == SHORT_ESCAPES[7];
    }
  }

  /** The writer's spelling of a character: a short escape if there is one, except of the solidus, four hexadecimal
      digits in capitals for any other control character, and otherwise the character itself. */
  lemma WriterSpells(c: char)
    ensures forall k :: 0 <= k < 8 && c as int == SHORT_CODES[k] != 0x2F ==> EscapedChar(c) == ['\\', SHORT_ESCAPES[k]]
    ensures c as int < 0x20 && c as int !in SHORT_CODES ==>
              EscapedChar(c) == "\\u00" + ["01"[c as int / 16], "0123456789ABCDEF"[c as int % 16]]
    ensures c as int >= 0x20 && (c as int !in SHORT_CODES || c == '/') ==> EscapedChar(c) == [c]
  {
    if c as int < 0x20 && c as int !in SHORT_CODES {
      NotShort(c as int);
    }
  }

  lemma NotShort(n: int)
    requires n !in SHORT_CODES
    ensures n != 8 && n != 9 && n != 10 && n != 12 && n != 13
  {
    assert SHORT_CODES[3] == 8 && SHORT_CODES[7] == 9 && SHORT_CODES[5] == 10 && SHORT_CODES[4] == 12;
    assert SHORT_CODES[6] == 13;
  }

  lemma HexDigitDenotes(c: char, n: nat)
    ensures Denotes(c, n) <==> IsHexDigit(c) && HexValue(c) == n
  {
    if n < 16 {
      LowerDigit(n);
      UpperDigit(n);
    }
  }

  lemma LowerDigit(n: nat)
    requires n < 16
    ensures "0123456789abcdef"[n] as int == if n < 10 then '0' as int + n else 'a' as int + (n - 10)
  {
  }

  lemma UpperDigit(n: nat)
    requires n < 16
    ensures "0123456789ABCDEF"[n] as int == if n < 10 then '0' as int + n else 'A' as int + (n - 10)
  {
  }

  lemma Hex4Numeral(s: string, n: nat)
    ensures Hex4(s) == Some(n) <==> |s| >= 4 && Numeral(s[..4], n)
  {
    hide Denotes, IsHexDigit, HexValue;
    if |s| >= 4 {
      HexDigitDenotes(s[0], n / 4096);
      HexDigitDenotes(s[1], n / 256 % 16);
      HexDigitDenotes(s[2], n / 16 % 16);
      HexDigitDenotes(s[3], n % 16);
    }
  }

  /** An escape is the code unit, or the code point of the pair, that its digits spell. */
  lemma UnitReads(p: Piece, rest: string)
    requires ValidPiece(p) && (p.Unit? || p.Pair?)
    ensures UnicodeEscape(Spelling(p)[2..] + rest)
            == Parsed(if p.Unit? then p.n else Utf16.Decode([p.high, p.low]).codepoint, rest)
  {
    hide Hex4, Numeral, UnicodeEscape, Utf16.Decode;
    match p
    case Unit(n, digits) =>
      NumeralLength(digits, n);
      assert Spelling(p)[2..] == digits;
      UnitEscape(n, digits, rest);
    case Pair(high, highDigits, low, lowDigits) =>
      NumeralLength(highDigits, high);
      NumeralLength(lowDigits, low);
      assert Spelling(p)[2..] + rest == highDigits + ("\\u" + (lowDigits + rest));
      PairEscape(high, highDigits, low, lowDigits, rest);
  }

  lemma UnitEscape(n: Utf16.Unit, digits: string, rest: string)
    requires Numeral(digits, n) && |digits| == 4 && !IsHighSurrogate(n)
    ensures UnicodeEscape(digits + rest) == Parsed(n, rest)
  {
    hide Hex4, Numeral;
    Hex4Numeral(digits + rest, n);
    assert (digits + rest)[..4] == digits && (digits + rest)[4..] == rest;
  }

  lemma PairEscape(high: Utf16.Unit, highDigits: string, low: Utf16.Unit, lowDigits: string, rest: string)
    requires Numeral(highDigits, high) && Numeral(lowDigits, low) && |highDigits| == |lowDigits| == 4
    requires IsHighSurrogate(high) && Utf16.Decode([high, low]).ok
    ensures UnicodeEscape(highDigits + ("\\u" + (lowDigits + rest)))
            == Parsed(Utf16.Decode([high, low]).codepoint, rest)
  {
    hide Hex4, Numeral, Utf16.Decode;
    var after := lowDigits + rest;
    PairSlices(highDigits, lowDigits, rest);
    Hex4Numeral(highDigits + ("\\u" + after), high);
    Hex4Numeral(after, low);
    PairDecodes(high, low);
  }

  lemma PairSlices(high: string, low: string, rest: string)
    requires |high| == |low| == 4
    ensures var after := low + rest; var s := high + ("\\u" + after);
            && |s| >= 10 && s[..4] == high && Peek(s[4..]) == '\\' && Peek(s[5..]) == 'u' && s[6..] == after
            && after[..4] == low && s[10..] == rest
  {
  }

  lemma NumeralLength(digits: string, n: nat)
    requires Numeral(digits, n)
    ensures |digits| == 4
  {
  }

  lemma PairDecodes(high: Utf16.Unit, low: Utf16.Unit)
    requires IsHighSurrogate(high)
    ensures Utf16.Decode([high, low]).ok <==> 0xDC00 <= low <= 0xDFFF
    ensures Utf16.Decode([high, low]).ok ==>
              Utf16.Decode([high, low]).codepoint == (high - 0xD800) * 0x400 + (low - 0xDC00) + 0x10000
  {
    assert [high, low][1..] == [low];
  }

  /** The scanner reads a piece as what it stands for. */
  lemma PieceReads(p: Piece, rest: string, text: string)
    requires ValidPiece(p)
    ensures StringAt(Spelling(p) + rest, text) == StringAt(rest, text + Stands(p))
  {
    hide StringAt, UnicodeEscape, Utf8.Encoding, Utf16.Decode, Numeral, Escape;
    var s := Spelling(p) + rest;
    match p
    case Plain(c) =>
      assert s[1..] == rest;
      PlainStep(s, text);
    case Short(k) =>
      ShortReads(k, rest, text);
    case _ =>
      UnitReads(p, rest);
      UnitSpelled(p, rest);
      ShortEscape('u');
      UnitStep(s, text);
  }

  lemma ShortReads(k: nat, rest: string, text: string)
    requires k < 8
    ensures StringAt(['\\', SHORT_ESCAPES[k]] + rest, text) == StringAt(rest, text + [SHORT_CODES[k] as char])
  {
    hide StringAt, Escape;
    var s := ['\\', SHORT_ESCAPES[k]] + rest;
    ShortEscape(SHORT_ESCAPES[k]);
    assert s[2..] == rest;
    ShortStep(s, text);
  }

  lemma UnitSpelled(p: Piece, rest: string)
    requires ValidPiece(p) && (p.Unit? || p.Pair?)
    ensures var s := Spelling(p) + rest;
            |Spelling(p)| >= 2 && |s| >= 2 && s[0] == '\\' && s[1] == 'u' && s[2..] == Spelling(p)[2..] + rest
  {
    hide Numeral, ValidPiece;
    assert |Spelling(p)| >= 2 && Spelling(p)[0] == '\\' && Spelling(p)[1] == 'u';
    hide Spelling;
    AfterTwo(Spelling(p), rest);
  }

  lemma AfterTwo(s: string, rest: string)
    requires |s| >= 2
    ensures (s + rest)[0] == s[0] && (s + rest)[1] == s[1] && (s + rest)[2..] == s[2..] + rest
  {
  }

  lemma PlainStep(s: string, text: string)
    requires s != "" && s[0] as int >= 0x20 && s[0] != '\"' && s[0] != '\\'
    ensures StringAt(s, text) == StringAt(s[1..], text + [s[0]])
  {
  }

  lemma ShortStep(s: string, text: string)
    requires |s| >= 2 && s[0] == '\\' && Escape(s[1]) != '\0'
    ensures StringAt(s, text) == StringAt(s[2..], text + [Escape(s[1])])
  {
    hide Escape;
  }

  lemma UnitStep(s: string, text: string)
    requires |s| >= 2 && s[0] == '\\' && s[1] == 'u' && Escape('u') == '\0' && UnicodeEscape(s[2..]).Parsed?
    ensures var u := UnicodeEscape(s[2..]); StringAt(s, text) == StringAt(u.rest, text + Utf8.Encoding(u.value))
  {
    hide Escape, UnicodeEscape, Utf8.Encoding;
  }

  /** What the scanner accepts starts with the closing quote or with a piece. */
  lemma PieceThere(s: string, text: string) returns (p: Piece, rest: string)
    requires StringAt(s, text).Parsed? && Peek(s) != '\"'
    ensures ValidPiece(p) && s == Spelling(p) + rest
  {
    hide UnicodeEscape, Utf8.Encoding, Utf16.Decode, Numeral, Escape;
    var c := Peek(s);
    if c != '\\' {
      p, rest := Plain(c), s[1..];
    } else {
      var e := Peek(s[1..]);
      ShortEscape(e);
      if e in SHORT_ESCAPES {
        var k :| 0 <= k < |SHORT_ESCAPES| && SHORT_ESCAPES[k] == e;
        p, rest := Short(k), s[2..];
        assert s == [s[0], s[1]] + s[2..];
      } else {
        p, rest := UnitThere(s[2..]);
        assert s == "\\u" + s[2..];
      }
    }
  }

  lemma UnitThere(s: string) returns (p: Piece, rest: string)
    requires UnicodeEscape(s).Parsed?
    ensures ValidPiece(p) && "\\u" + s == Spelling(p) + rest
  {
    hide Hex4, Numeral;
    var high := Hex4(s).value;
    Hex4Numeral(s, high);
    if !IsHighSurrogate(high) {
      p, rest := Unit(high, s[..4]), s[4..];
      assert s == s[..4] + s[4..];
    } else {
      var low := Hex4(s[6..]).value;
      Hex4Numeral(s[6..], low);
      PairDecodes(high, low);
      p, rest := Pair(high, s[..4], low, s[6..][..4]), s[10..];
      assert s == s[..4] + "\\u" + s[6..][..4] + s[10..];
    }
  }

  predicate ValidPieces(ps: seq<Piece>) {
    forall i :: 0 <= i < |ps| ==> ValidPiece(ps[i])
  }

  function SpellingAll(ps: seq<Piece>): string
    requires ValidPieces(ps)
  {
    if ps == [] then "" else Spelling(ps[0]) + SpellingAll(ps[1..])
  }

  function StandsAll(ps: seq<Piece>): string
    requires ValidPieces(ps)
  {
    if ps == [] then "" else Stands(ps[0]) + StandsAll(ps[1..])
  }

  lemma {:induction false} PiecesRead(ps: seq<Piece>, rest: string, text: string)
    requires ValidPieces(ps)
    ensures StringAt(SpellingAll(ps) + "\"" + rest, text) == Parsed(text + StandsAll(ps), rest)
    decreases |ps|
  {
    hide Spelling, Stands, StringAt, ValidPiece;
    if ps == [] {
      StringEnds(rest, text);
      assert SpellingAll(ps) + "\"" + rest == "\"" + rest && text + StandsAll(ps) == text;
    } else {
      var more := SpellingAll(ps[1..]) + "\"" + rest;
      PieceReads(ps[0], more, text);
      PiecesRead(ps[1..], rest, text + Stands(ps[0]));
      assert SpellingAll(ps) + "\"" + rest == Spelling(ps[0]) + more;
      assert text + StandsAll(ps) == text + Stands(ps[0]) + StandsAll(ps[1..]);
    }
  }

  lemma StringEnds(rest: string, text: string)
    ensures StringAt("\"" + rest, text) == Parsed(text, rest)
  {
    assert ("\"" + rest)[1..] == rest;
  }

  lemma {:induction false} PiecesThere(s: string, text: string) returns (ps: seq<Piece>)
    requires StringAt(s, text).Parsed?
    ensures ValidPieces(ps) && s == SpellingAll(ps) + "\"" + StringAt(s, text).rest
    decreases |s|
  {
    hide Spelling, ValidPiece, StringAt;
    if Peek(s) == '\"' {
      ps := [];
      StringEnds(s[1..], text);
      assert s == "\"" + s[1..] == SpellingAll(ps) + "\"" + s[1..];
    } else {
      var p, rest := PieceThere(s, text);
      PieceReads(p, rest, text);
      var more := PiecesThere(rest, text + Stands(p));
      ps := [p] + more;
      assert ps[1..] == more;
      assert s == Spelling(p) + (SpellingAll(more) + "\"" + StringAt(s, text).rest);
    }
  }

  /** The scanner accepts exactly the strings of pieces, up to the first closing quote, and makes of each piece what
      it stands for. */
  lemma StringsAreSpelled(s: string, t: string, rest: string)
    ensures StringAt(s, "") == Parsed(t, rest)
            <==> exists ps :: ValidPieces(ps) && s == SpellingAll(ps) + "\"" + rest && t == StandsAll(ps)
  {
    hide StringAt, ValidPieces, SpellingAll, StandsAll;
    if StringAt(s, "") == Parsed(t, rest) {
      var ps := PiecesThere(s, "");
      PiecesRead(ps, rest, "");
      assert "" + StandsAll(ps) == StandsAll(ps);
    }
    if ps :| ValidPieces(ps) && s == SpellingAll(ps) + "\"" + rest && t == StandsAll(ps) {
      PiecesRead(ps, rest, "");
      assert "" + StandsAll(ps) == StandsAll(ps);
    }
  }

  /** The escapes of a code unit sequence, in digits of any case. */
  predicate Escapes(units: seq<Utf16.Unit>, s: string)
    decreases |units|
  {
    if units == [] then s == ""
    else |s| >= 6 && s[..2] == "\\u" && Numeral(s[2..6], units[0]) && Escapes(units[1..], s[6..])
  }

  /** Any scalar value can be spelled by the escapes of its UTF-16 code units, and is read as its UTF-8 bytes. */
  lemma EscapedScalarReads(codepoint: nat, s: string, rest: string, text: string)
    requires Utf8.IsScalarValue(codepoint) && Escapes(Utf16.Encoding(codepoint), s)
    ensures StringAt(s + rest, text) == StringAt(rest, text + Utf8.Encoding(codepoint))
  {
    hide Utf8.Encoding, Numeral, StringAt;
    var units := Utf16.Encoding(codepoint);
    if |units| == 1 {
      assert s[6..] == "";
      var p := Unit(units[0], s[2..6]);
      assert s == s[..2] + s[2..6] + s[6..] == Spelling(p);
      PieceReads(p, rest, text);
    } else {
      var p := Pair(units[0], s[2..6], units[1], s[6..][2..6]);
      assert Escapes(units[1..], s[6..]) && Escapes(units[1..][1..], s[6..][6..]);
      assert units[1..][1..] == [];
      PairDecodes(units[0], units[1]);
      assert s[6..] == s[6..][..2] + s[6..][2..6] + s[6..][6..];
      assert s == s[..2] + s[2..6] + s[6..] == Spelling(p);
      PieceReads(p, rest, text);
    }
  }

  /** White space is what section 2 of RFC 8259 lists: space, horizontal tab, line feed and carriage return. */
  lemma WhitespaceMeans(c: char)
    ensures IsWhitespace(c) <==> c as int in {0x20, 0x09, 0x0A, 0x0D}
  {
  }

  // ---------------------------------------------------------------------------------------------
  // Numbers
  // ---------------------------------------------------------------------------------------------

  /** How a number is written (section 6 of RFC 8259): no leading zeros; the letter and the sign of an exponent are a
      matter of style. */
  predicate Writes(l: Literal, letter: char, sign: string) {
    && l.Valid() && (l.digits[0] == '0' ==> l.digits == "0")
    && (letter == 'e' || letter == 'E')
    && (l.exponent.Some? ==> if l.exponent.value.minus then sign == "-" else sign == "" || sign == "+")
  }

  function FractionText(l: Literal): string {
    if l.fraction.None? then "" else "." + l.fraction.value
  }

  function ExponentText(l: Literal, letter: char, sign: string): string {
    if l.exponent.None? then "" else [letter] + sign + l.exponent.value.digits
  }

  /** The text after the sign. */
  function UnsignedText(l: Literal, letter: char, sign: string): string {
    l.digits + FractionText(l) + ExponentText(l, letter, sign)
  }

  /** Any number is read whole, and is what it denotes: its exact value if it is an integer that fits, too big if its
      exponent is, and otherwise the double of its text, negated if there is a minus sign. */
  lemma LiteralReads(f: Flags, l: Literal, letter: char, sign: string, rest: string)
    requires Writes(l, letter, sign) && Delimited(rest)
    ensures NumberAt(f, (if l.minus then "-" else "") + UnsignedText(l, letter, sign) + rest)
            == var exact := Exact(l.minus, Value(l.digits));
               if l.fraction.None? && l.exponent.None? && exact.Some? then Parsed(exact.value, rest)
               else if l.exponent.Some? && !l.exponent.value.minus
                       && Value(l.exponent.value.digits) > 308 - ScaleOf(l) then Failed
               else match f.toDouble(l.minus, UnsignedText(l, letter, sign))
                    case None => Failed
                    case Some(d) => Parsed(Double(if l.minus then 0.0 - d else d), rest)
  {
    hide Value, IntegerAt, FractionAt, ExponentAt, LiteralAt, NumberAt, Denoted, Exact, ScaleOf, UnsignedText,
         FractionText, ExponentText, Writes, Delimited;
    var unsigned := UnsignedText(l, letter, sign);
    var s := (if l.minus then "-" else "") + unsigned + rest;
    WritesValid(l, letter, sign);
    SignThere(l, letter, sign, rest);
    PartsRead(l, letter, sign, rest);
    Reader.NumberParts(f, s);
    CutOff(unsigned, rest);
    LiteralDenoted(f, l, unsigned);
  }

  lemma CutOff(a: string, b: string)
    ensures (a + b)[..|a + b| - |b|] == a
  {
  }

  lemma WritesValid(l: Literal, letter: char, sign: string)
    requires Writes(l, letter, sign)
    ensures l.Valid()
  {
  }

  lemma SignThere(l: Literal, letter: char, sign: string, rest: string)
    requires Writes(l, letter, sign)
    ensures var s := (if l.minus then "-" else "") + UnsignedText(l, letter, sign) + rest;
            && (Peek(s) == '-' <==> l.minus)
            && (if l.minus then s[1..] else s) == UnsignedText(l, letter, sign) + rest
  {
    hide FractionText, ExponentText;
    var u := UnsignedText(l, letter, sign);
    assert u[0] == l.digits[0];
    assert ("-" + u + rest)[1..] == u + rest && "" + u + rest == u + rest;
  }

  lemma LiteralDenoted(f: Flags, l: Literal, text: string)
    requires l.Valid()
    ensures Denoted(f, Literal(l.minus, l.digits, l.fraction, l.exponent), text)
            == var exact := Exact(l.minus, Value(l.digits));
               if l.fraction.None? && l.exponent.None? && exact.Some? then exact
               else if l.exponent.Some? && !l.exponent.value.minus
                       && Value(l.exponent.value.digits) > 308 - ScaleOf(l) then None
               else match f.toDouble(l.minus, text)
                    case None => None
                    case Some(d) => Some(Double(if l.minus then 0.0 - d else d))
  {
    hide Value, Exact, ScaleOf;
  }

  /** The parts of a number are read one after the other. */
  lemma PartsRead(l: Literal, letter: char, sign: string, rest: string)
    requires Writes(l, letter, sign) && Delimited(rest)
    ensures var afterFraction := ExponentText(l, letter, sign) + rest;
            var afterInteger := FractionText(l) + afterFraction;
            && UnsignedText(l, letter, sign) + rest == l.digits + afterInteger
            && IntegerAt(l.digits + afterInteger) == Parsed(l.digits, afterInteger)
            && FractionAt(afterInteger) == Parsed(l.fraction, afterFraction)
            && ExponentAt(afterFraction) == Parsed(l.exponent, rest)
  {
    hide IntegerAt, FractionAt, ExponentAt, FractionText, ExponentText;
    var afterFraction := ExponentText(l, letter, sign) + rest;
    var afterInteger := FractionText(l) + afterFraction;
    ExponentRead(l, letter, sign, rest);
    FractionRead(l, afterFraction);
    IntegerRead(l.digits, afterInteger);
    assert UnsignedText(l, letter, sign) + rest == l.digits + afterInteger;
  }

  lemma ExponentRead(l: Literal, letter: char, sign: string, rest: string)
    requires Writes(l, letter, sign) && Delimited(rest)
    ensures var s := ExponentText(l, letter, sign) + rest;
            ExponentAt(s) == Parsed(l.exponent, rest) && !IsDigit(Peek(s)) && Peek(s) != '.'
  {
    hide Digits;
    if l.exponent.Some? {
      var ds := l.exponent.value.digits;
      var s := ExponentText(l, letter, sign) + rest;
      DigitsPrefix(ds, rest);
      assert (ds + rest)[|ds|..] == rest;
      assert s[1..] == sign + (ds + rest);
      assert sign != "" ==> s[2..] == ds + rest && s[1..][0] == sign[0];
      assert sign == "" ==> s[1..] == ds + rest && s[1..][0] == ds[0];
    } else {
      assert ExponentText(l, letter, sign) + rest == rest;
    }
  }

  lemma FractionRead(l: Literal, rest: string)
    requires l.Valid() && !IsDigit(Peek(rest)) && Peek(rest) != '.'
    ensures var s := FractionText(l) + rest; FractionAt(s) == Parsed(l.fraction, rest) && !IsDigit(Peek(s))
  {
    hide Digits;
    if l.fraction.Some? {
      var ds := l.fraction.value;
      DigitsPrefix(ds, rest);
      assert (FractionText(l) + rest)[1..] == ds + rest;
      assert (ds + rest)[|ds|..] == rest;
    } else {
      assert FractionText(l) + rest == rest;
    }
  }
}
