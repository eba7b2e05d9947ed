/**
 What `Writer` of 3rdparty/rapidjson/writer.h puts out for scalars, and the proof that the reader reads
 it back: strings with their escapes, integers, and the words `null`, `true` and `false`.
 */
module Writer {
  import opened Json
  import opened Streams
  import opened JsonText
  import opened JsonGrammar
  import opened Reader
  import Utf8

  // ---------------------------------------------------------------------------------------------
  // Strings
  // ---------------------------------------------------------------------------------------------

  function HexDigit(n: nat): (c: char)
    requires n < 16
    ensures IsHexDigit(c) && HexValue(c) == n
  {
    if n < 10 then ('0' as int + n) as char else ('A' as int + n - 10) as char
  }

  /** The table `escape`: zero where the character is written as it is. */
  function EscapeCode(c: char): char {
    if c == '\"' || c == '\\' then c
    else if c as int >= 0x20 then '\0'
    else if c as int == 8 then 'b'
    else if c == '\t' then 't'
    else if c == '\n' then 'n'
    else if c as int == 12 then 'f'
    else if c == '\r' then 'r'
    else 'u'
  }

  function EscapedChar(c: char): (s: string)
    ensures s != ""
  {
    var e := EscapeCode(c);
    if e == '\0' then [c]
    else if e == 'u' then ['\\', 'u', '0', '0', HexDigit(c as int / 16), HexDigit(c as int % 16)]
    else ['\\', e]
  }

  function EscapedText(s: string): string {
    if s == "" then "" else EscapedText(s[..|s| - 1]) + EscapedChar(s[|s| - 1])
  }

  /** `WriteString` */
  function Quoted(s: string): string {
    "\"" + EscapedText(s) + "\""
  }

  method WriteString(output: OutputStream, s: string)
    modifies output
    ensures output.text == old(output.text) + Quoted(s)
  {
    hide EscapedChar;
    output.Put('\"');
    for i := 0 to |s|
      invariant output.text == old(output.text) + "\"" + EscapedText(s[..i])
    {
      assert s[..i + 1][..i] == s[..i];
      WriteEscaped(output, s[i]);
    }
    assert s[..|s|] == s;
    output.Put('\"');
  }

  /** One turn of the loop of `WriteString` */
  method WriteEscaped(output: OutputStream, c: char)
    modifies output
    ensures output.text == old(output.text) + EscapedChar(c)
  {
    var e := EscapeCode(c);
    if e != '\0' {
      output.Put('\\');
      output.Put(e);
      if e == 'u' {
        output.Put('0');
        output.Put('0');
        output.Put(HexDigit(c as int / 16));
        output.Put(HexDigit(c as int % 16));
      }
    } else {
      output.Put(c);
    }
  }

  lemma ReadEscapedChar(c: char, rest: string, text: string)
    ensures StringAt(EscapedChar(c) + rest, text) == StringAt(rest, text + [c])
  {
    var s := EscapedChar(c) + rest;
    var e := EscapeCode(c);
    if e == '\0' {
      assert s[1..] == rest;
    } else if e == 'u' {
      HexDigitsReadBack(c, s[2..], rest);
      assert Utf8.Encoding(c as int) == [c];
    } else {
      assert s[2..] == rest;
    }
  }

  lemma HexDigitsReadBack(c: char, s: string, rest: string)
    requires (c as int) < 0x20
    requires s == ['0', '0', HexDigit(c as int / 16), HexDigit(c as int % 16)] + rest
    ensures UnicodeEscape(s) == Parsed(c as int, rest)
  {
    assert HexValue('0') == 0;
    assert s[4..] == rest;
  }

  lemma {:induction false} ReadEscapedText(s: string, rest: string, text: string)
    ensures StringAt(EscapedText(s) + rest, text) == StringAt(rest, text + s)
    decreases |s|
  {
    hide StringAt, EscapedChar;
    if s == "" {
      assert EscapedText(s) + rest == rest && text + s == text;
    } else {
      var front, last := s[..|s| - 1], s[|s| - 1];
      ReadEscapedText(front, EscapedChar(last) + rest, text);
      ReadEscapedChar(last, rest, text + front);
      assert EscapedText(s) + rest == EscapedText(front) + (EscapedChar(last) + rest);
      assert text + front + [last] == text + s;
    }
  }

  /** Any string, whatever its bytes, is read back from its quoted form. */
  lemma StringReadsBack(s: string, rest: string)
    ensures StringAt((Quoted(s) + rest)[1..], "") == Parsed(s, rest)
  {
    hide EscapedText;
    assert (Quoted(s) + rest)[1..] == EscapedText(s) + ("\"" + rest);
    ReadEscapedText(s, "\"" + rest, "");
    assert "" + s == s;
    assert ("\"" + rest)[1..] == rest;
  }

  // ---------------------------------------------------------------------------------------------
  // Integers
  // ---------------------------------------------------------------------------------------------

  /** The decimal numeral that `u32toa` and `u64toa` write. */
  function Decimal(n: nat): (ds: string)
    ensures AreDigits(ds) && ds != ""
  {
    if n < 10 then [('0' as int + n) as char] else Decimal(n / 10) + [('0' as int + n % 10) as char]
  }

  lemma {:induction false} DecimalValue(n: nat)
    ensures Value(Decimal(n)) == n
    ensures Decimal(n)[0] == '0' <==> n == 0
  {
    var ds := Decimal(n);
    if n < 10 {
      SmallNumerals(ds[0]);
    } else {
      DecimalValue(n / 10);
      assert ds[..|ds| - 1] == Decimal(n / 10);
    }
  }

  /** What may follow a number without becoming part of it. */
  predicate Delimited(rest: string) {
    !IsDigit(Peek(rest)) && Peek(rest) != '.' && Peek(rest) != 'e' && Peek(rest) != 'E'
  }

  lemma {:induction false} DigitsPrefix(ds: string, rest: string)
    requires AreDigits(ds) && !IsDigit(Peek(rest))
    ensures Digits(ds + rest) == ds
    decreases |ds|
  {
    if ds == "" {
      assert ds + rest == rest;
    } else {
      DigitsPrefix(ds[1..], rest);
      assert (ds + rest)[1..] == ds[1..] + rest;
    }
  }

  /** Every integer literal is one event, with its exact value in the narrowest type: `Uint` below 2^32,
      `Uint64` below 2^64, `Int` down to -2^31, `Int64` down to -2^63. Beyond those it is a double. */
  lemma IntegerLiterals(f: Flags, minus: bool, ds: string, rest: string)
    requires AreDigits(ds) && ds != "" && (ds[0] == '0' ==> ds == "0") && Delimited(rest)
    ensures NumberAt(f, (if minus then "-" else "") + ds + rest)
            == match Exact(minus, Value(ds))
               case Some(n) => Parsed(n, rest)
               case None => match f.toDouble(minus, ds)
                            case None => Failed
                            case Some(d) => Parsed(Double(if minus then -d else d), rest)
  {
    hide Value, IntegerAt, FractionAt, ExponentAt, LiteralAt, NumberAt, Denoted, Exact;
    var s := (if minus then "-" else "") + ds + rest;
    SignedDigits(minus, ds, rest);
    IntegerRead(ds, rest);
    NothingMore(rest);
    NumberParts(f, s);
    IntegerDenoted(f, minus, ds);
  }

  lemma SignedDigits(minus: bool, ds: string, rest: string)
    requires AreDigits(ds) && ds != ""
    ensures var s := (if minus then "-" else "") + ds + rest;
            && (Peek(s) == '-' <==> minus) && (if minus then s[1..] else s) == ds + rest
            && (ds + rest)[..|ds + rest| - |rest|] == ds
  {
  }

  lemma IntegerDenoted(f: Flags, minus: bool, ds: string)
    requires AreDigits(ds) && ds != ""
    ensures Denoted(f, Literal(minus, ds, None, None), ds)
            == match Exact(minus, Value(ds))
               case Some(n) => Some(n)
               case None => match f.toDouble(minus, ds)
                            case None => None
                            case Some(d) => Some(Double(if minus then -d else d))
  {
    hide Value, Exact;
  }

  lemma NothingMore(rest: string)
    requires Delimited(rest)
    ensures FractionAt(rest) == Parsed(None, rest) && ExponentAt(rest) == Parsed(None, rest)
  {
  }

  lemma IntegerRead(ds: string, rest: string)
    requires AreDigits(ds) && ds != "" && (ds[0] == '0' ==> ds == "0") && !IsDigit(Peek(rest))
    ensures IntegerAt(ds + rest) == Parsed(ds, rest)
  {
    hide Digits;
    DigitsPrefix(ds, rest);
    assert (ds + rest)[|ds|..] == rest;
  }

  /** The values that the number events can carry. */
  predicate InRange(n: Number) {
    match n
    case Int(i) => -0x8000_0000 <= i <= 0x7FFF_FFFF
    case Uint(i) => 0 <= i <= 0xFFFF_FFFF
    case Int64(i) => -0x8000_0000_0000_0000 <= i <= 0x7FFF_FFFF_FFFF_FFFF
    case Uint64(i) => 0 <= i <= 0xFFFF_FFFF_FFFF_FFFF
    case Double(_) => true
  }

  /** The values of number events fit their types. */
  predicate Fits(e: Event) {
    e.NumberEvent? ==> InRange(e.n)
  }

  predicate AllFit(es: seq<Event>) {
    forall i :: 0 <= i < |es| ==> Fits(es[i])
  }

  /** The event with which a reader announces the same number. */
  function Narrowed(n: Number): (m: Number)
    requires InRange(n)
    ensures InRange(m) && (n.Double? ==> m == n) && (!n.Double? ==> !m.Double? && m.i == n.i)
  {
    if n.Double? then n else if n.i < 0 then Exact(true, -n.i).value else Exact(false, n.i).value
  }

  /** `WriteInt`, `WriteUint`, `WriteInt64`, `WriteUint64` and `WriteDouble`; the text of a double is a
      parameter. */
  function NumberText(fromDouble: real -> string, n: Number): string
    requires InRange(n)
  {
    if n.Double? then fromDouble(n.d)
    else if n.i < 0 then "-" + Decimal(-n.i) else Decimal(n.i)
  }

  /** The text of a double is one that the reader takes back to the same double. */
  ghost predicate DoubleReadsBack(f: Flags, fromDouble: real -> string, d: real) {
    forall rest :: Delimited(rest) ==> NumberAt(f, fromDouble(d) + rest) == Parsed(Double(d), rest)
  }

  lemma NumberReadsBack(f: Flags, fromDouble: real -> string, n: Number, rest: string)
    requires InRange(n) && Delimited(rest) && (n.Double? ==> DoubleReadsBack(f, fromDouble, n.d))
    ensures NumberAt(f, NumberText(fromDouble, n) + rest) == Parsed(Narrowed(n), rest)
  {
    hide NumberAt, Decimal, Value;
    if !n.Double? {
      var m := if n.i < 0 then -n.i else n.i;
      DecimalValue(m);
      ZeroAlone(m);
      IntegerLiterals(f, n.i < 0, Decimal(m), rest);
      if n.i >= 0 {
        assert "" + Decimal(m) == Decimal(m);
      }
    }
  }

  lemma ZeroAlone(n: nat)
    ensures Decimal(n)[0] == '0' ==> Decimal(n) == "0"
  {
    DecimalValue(n);
  }

  /** A text that `NumberAt` accepts starts with a digit or a sign. */
  lemma NumberStart(f: Flags, s: string)
    requires NumberAt(f, s).Parsed?
    ensures Peek(s) == '-' || IsDigit(Peek(s))
  {
    hide Denoted;
  }

  // ---------------------------------------------------------------------------------------------
  // Scalars
  // ---------------------------------------------------------------------------------------------

  function ScalarText(fromDouble: real -> string, v: Json): string
    requires IsScalar(v) && (v.Num? ==> InRange(v.n))
  {
    match v
    case Null => "null"
    case Bool(b) => if b then "true" else "false"
    case Num(n) => NumberText(fromDouble, n)
    case Str(s) => Quoted(s)
  }

  function NarrowedScalar(v: Json): Json
    requires IsScalar(v) && (v.Num? ==> InRange(v.n))
  {
    if v.Num? then Num(Narrowed(v.n)) else v
  }

  lemma ScalarReadsBack(f: Flags, fromDouble: real -> string, v: Json, rest: string)
    requires IsScalar(v) && Delimited(rest)
    requires v.Num? ==> InRange(v.n) && (v.n.Double? ==> DoubleReadsBack(f, fromDouble, v.n.d))
    ensures ValueAt(f, ScalarText(fromDouble, v) + rest) == Parsed(NarrowedScalar(v), rest)
    ensures ScalarText(fromDouble, v) != "" ==> StartsValue(ScalarText(fromDouble, v)[0])
    ensures StartsValue(Peek(ScalarText(fromDouble, v) + rest))
  {
    hide NumberAt, StringAt, NumberText, ObjectAt, ArrayAt, Narrowed, Quoted, ValueAt, Delimited, EscapedText;
    match v
    case Null => WordsReadBack(f, rest);
    case Bool(b) => WordsReadBack(f, rest);
    case Num(n) =>
      NumberReadsBack(f, fromDouble, n, rest);
      NumberStart(f, NumberText(fromDouble, n) + rest);
      NumberIsValue(f, NumberText(fromDouble, n) + rest);
    case Str(t) =>
      StringReadsBack(t, rest);
      StringIsValue(f, t, rest);
  }

  lemma WordsReadBack(f: Flags, rest: string)
    ensures ValueAt(f, "null" + rest) == Parsed(Null, rest)
    ensures ValueAt(f, "true" + rest) == Parsed(Bool(true), rest)
    ensures ValueAt(f, "false" + rest) == Parsed(Bool(false), rest)
  {
    assert ("null" + rest)[4..] == rest && ("true" + rest)[4..] == rest && ("false" + rest)[5..] == rest;
  }

  lemma NumberIsValue(f: Flags, s: string)
    requires NumberAt(f, s).Parsed? && (Peek(s) == '-' || IsDigit(Peek(s)))
    ensures ValueAt(f, s) == Parsed(Num(NumberAt(f, s).value), NumberAt(f, s).rest)
  {
    hide NumberAt;
  }

  lemma StringIsValue(f: Flags, t: string, rest: string)
    requires StringAt((Quoted(t) + rest)[1..], "") == Parsed(t, rest)
    ensures Peek(Quoted(t) + rest) == '\"' && ValueAt(f, Quoted(t) + rest) == Parsed(Str(t), rest)
  {
    hide StringAt, EscapedText;
  }

  /** No white space, comment, closing bracket or end of text. */
  predicate StartsValue(c: char) {
    c == '-' || IsDigit(c) || c == '\"' || c == 'n' || c == 't' || c == 'f' || c == '[' || c == '{'
  }
}
