/**
 The text forms of a JSON Pointer (RFC 6901) in 3rdparty/rapidjson/pointer.h: the plain form, with `~0` and
 `~1` escapes, and the URI fragment form, percent-encoded as well. Parsing inverts printing.
 */
module PointerText {
  import opened Json
  import opened Streams
  import opened Utf8
  import opened JsonText
  import opened Writer
  import Reader

  const INVALID_INDEX := 0xFFFF_FFFF

  /** A token; its index is INVALID_INDEX unless the name spells one. */
  datatype Token = Token(name: string, index: nat)

  // ---------------------------------------------------------------------------------------------
  // Array indices
  // ---------------------------------------------------------------------------------------------

  /** The digits accumulated in 32 bits, unless one step makes the number smaller. */
  function Accumulate(digits: string, n: nat): (r: Option<nat>)
    requires AreDigits(digits) && n <= INVALID_INDEX
    ensures r.Some? ==> r.value <= INVALID_INDEX
    decreases |digits|
  {
    if digits == "" then Some(n)
    else
      var m := (n * 10 + Digit(digits[0])) % 0x1_0000_0000;
      if m < n then None else Accumulate(digits[1..], m)
  }

  function IndexOf(name: string): (n: nat)
    ensures n <= INVALID_INDEX
  {
    if AreDigits(name) && name != "" && (|name| == 1 || name[0] != '0') then
      var n := Accumulate(name, 0);
      if n.Some? then n.value else INVALID_INDEX
    else INVALID_INDEX
  }

  function Tokens(names: seq<string>): (tokens: seq<Token>)
    ensures |tokens| == |names|
  {
    seq(|names|, i requires 0 <= i < |names| => Token(names[i], IndexOf(names[i])))
  }

  // ---------------------------------------------------------------------------------------------
  // Percent encoding
  // ---------------------------------------------------------------------------------------------

  /** Section 2.3 of RFC 3986: every character but the unreserved ones. */
  predicate NeedPercentEncode(c: char) {
    !('0' <= c <= '9' || 'A' <= c <= 'Z' || 'a' <= c <= 'z' || c == '-' || c == '.' || c == '_' || c == '~')
  }

  /** A triplet `%XY` at the front of `s`. */
  predicate IsTriplet(s: string) {
    |s| >= 3 && s[0] == '%' && IsHexDigit(s[1]) && IsHexDigit(s[2])
  }

  function TripletByte(s: string): char
    requires IsTriplet(s)
  {
    (HexValue(s[1]) * 16 + HexValue(s[2])) as char
  }

  /** The bytes of all the triplets at the front of `s`. */
  function Triplets(s: string): (bytes: string)
    ensures 3 * |bytes| <= |s|
    decreases |s|
  {
    if IsTriplet(s) then [TripletByte(s)] + Triplets(s[3..]) else ""
  }

  function Percent(c: char): string
    requires c as int < 256
  {
    ['%', HexDigit(c as int / 16), HexDigit(c as int % 16)]
  }

  function PercentAll(bytes: string): (s: string)
    requires IsText(bytes)
    ensures |s| == 3 * |bytes|
  {
    if bytes == "" then "" else Percent(bytes[0]) + PercentAll(bytes[1..])
  }

  // ---------------------------------------------------------------------------------------------
  // Parsing
  // ---------------------------------------------------------------------------------------------

  /** One code point in percent encoding at the front of `s`, which must be well-formed UTF-8. */
  function PercentDecode(s: string): (r: Parsed<string>)
    ensures r.Parsed? ==> 1 <= |r.value| <= 4 && |r.rest| < |s|
  {
    var bytes := Triplets(s);
    if bytes == "" || !DecodeOne(bytes).ok then Failed
    else
      var n := Length(bytes);
      AcceptedBytes(bytes);
      Parsed(bytes[..n], s[3 * n..])
  }

  /** The decoder never accepts a sequence that goes on after the end. */
  lemma AcceptedBytes(bytes: string)
    requires bytes != "" && DecodeOne(bytes).ok
    ensures Length(bytes) <= |bytes|
  {
    hide Encoding, DecodeTail;
    EncodeInvertsDecode(bytes);
    ValidateAgrees(bytes, "");
    DecodeAdvances(bytes);
    var d := DecodeOne(bytes);
    assert |d.rest| == |bytes| - |Encoding(d.codepoint)|;
    EncodingLength(d.codepoint, d.rest);
  }

  lemma EncodingLength(codepoint: nat, rest: string)
    requires IsScalarValue(codepoint)
    ensures |Encoding(codepoint)| == Length(Encoding(codepoint) + rest)
  {
  }

  /** The characters of a name up to the next solidus, having read `name`. */
  function NameAt(s: string, fragment: bool, name: string): (r: Parsed<string>)
    ensures r.Parsed? ==> |r.rest| <= |s| && (r.rest == "" || r.rest[0] == '/')
    decreases |s|, 1
  {
    if s == "" || s[0] == '/' then Parsed(name, s)
    else if fragment && s[0] == '%' then
      var d := PercentDecode(s);
      if d.Failed? then Failed
      else if |d.value| > 1 then NameAt(d.rest, fragment, name + d.value)
      else Unescape(d.value[0], d.rest, fragment, name)
    else if fragment && NeedPercentEncode(s[0]) then Failed
    else Unescape(s[0], s[1..], fragment, name)
  }

  /** The character `c`, or the escape that it starts. */
  function Unescape(c: char, s: string, fragment: bool, name: string): (r: Parsed<string>)
    ensures r.Parsed? ==> |r.rest| <= |s| && (r.rest == "" || r.rest[0] == '/')
    decreases |s|, 2
  {
    if c != '~' then NameAt(s, fragment, name + [c])
    else if Peek(s) == '0' then NameAt(s[1..], fragment, name + "~")
    else if Peek(s) == '1' then NameAt(s[1..], fragment, name + "/")
    else Failed
  }

  function NamesAt(s: string, fragment: bool, names: seq<string>): Option<seq<string>>
    requires s == "" || s[0] == '/'
    decreases |s|
  {
    if s == "" then Some(names)
    else
      var name := NameAt(s[1..], fragment, "");
      if name.Failed? then None else NamesAt(name.rest, fragment, names + [name.value])
  }

  /** `GenericPointer::Parse` */
  function ParsePointer(source: string): Option<seq<Token>> {
    var fragment := Peek(source) == '#';
    var s := if fragment then source[1..] else source;
    if s != "" && s[0] != '/' then None
    else
      var names := NamesAt(s, fragment, []);
      if names.None? then None else Some(Tokens(names.value))
  }

  function Solidi(s: string): nat {
    if s == "" then 0 else (if s[0] == '/' then 1 else 0) + Solidi(s[1..])
  }

  /** A triplet holds no solidus. */
  lemma TripletSolidi(s: string)
    requires IsTriplet(s)
    ensures Solidi(s) == Solidi(s[3..])
  {
    assert s[1..][1..][1..] == s[3..];
    FirstSolidus(s);
    FirstSolidus(s[1..]);
    FirstSolidus(s[1..][1..]);
  }

  lemma {:induction false} TripletsSolidi(s: string, n: nat)
    requires n <= |Triplets(s)|
    ensures Solidi(s) == Solidi(s[3 * n..])
    decreases n
  {
    hide Solidi, IsTriplet;
    if n > 0 {
      TripletSolidi(s);
      TripletsSolidi(s[3..], n - 1);
      assert s[3..][3 * (n - 1)..] == s[3 * n..];
    } else {
      assert s[0..] == s;
    }
  }

  /** A name takes no solidus from the source. */
  lemma {:induction false} NameSolidi(s: string, fragment: bool, name: string)
    requires NameAt(s, fragment, name).Parsed?
    ensures Solidi(s) == Solidi(NameAt(s, fragment, name).rest)
    decreases |s|, 1
  {
    hide Solidi, DecodeOne, Triplets, NeedPercentEncode;
    if s != "" && s[0] != '/' {
      if fragment && s[0] == '%' {
        var d := PercentDecode(s);
        AcceptedBytes(Triplets(s));
        TripletsSolidi(s, |d.value|);
        if |d.value| > 1 {
          NameSolidi(d.rest, fragment, name + d.value);
        } else {
          UnescapeSolidi(d.value[0], d.rest, fragment, name);
        }
      } else {
        FirstSolidus(s);
        UnescapeSolidi(s[0], s[1..], fragment, name);
      }
    }
  }

  lemma {:induction false} UnescapeSolidi(c: char, s: string, fragment: bool, name: string)
    requires Unescape(c, s, fragment, name).Parsed?
    ensures Solidi(s) == Solidi(Unescape(c, s, fragment, name).rest)
    decreases |s|, 2
  {
    hide Solidi, NeedPercentEncode;
    if c != '~' {
      NameSolidi(s, fragment, name + [c]);
    } else {
      FirstSolidus(s);
      NameSolidi(s[1..], fragment, name + if s[0] == '0' then "~" else "/");
    }
  }

  lemma FirstSolidus(s: string)
    requires s != ""
    ensures Solidi(s) == (if s[0] == '/' then 1 else 0) + Solidi(s[1..])
  {
  }

  /** A pointer has as many tokens as its source has solidi. */
  lemma {:induction false} NamesSolidi(s: string, fragment: bool, names: seq<string>)
    requires s == "" || s[0] == '/'
    ensures NamesAt(s, fragment, names).Some? ==> |NamesAt(s, fragment, names).value| == |names| + Solidi(s)
    decreases |s|
  {
    hide NameAt;
    if s != "" {
      var name := NameAt(s[1..], fragment, "");
      if name.Parsed? {
        NameSolidi(s[1..], fragment, "");
        NamesSolidi(name.rest, fragment, names + [name.value]);
      }
    }
  }

  lemma TokenPerSolidus(source: string)
    requires ParsePointer(source).Some?
    ensures |ParsePointer(source).value| == Solidi(source)
  {
    hide NamesAt;
    var fragment := Peek(source) == '#';
    NamesSolidi(if fragment then source[1..] else source, fragment, []);
  }

  // ---------------------------------------------------------------------------------------------
  // Printing
  // ---------------------------------------------------------------------------------------------

  /** The characters of a name; `None` where it is no well-formed UTF-8 and must be percent-encoded. */
  function NameText(name: string, fragment: bool): Option<string>
    decreases |name|
  {
    if name == "" then Some("")
    else if name[0] == '~' then Prepend("~0", NameText(name[1..], fragment))
    else if name[0] == '/' then Prepend("~1", NameText(name[1..], fragment))
    else if fragment && NeedPercentEncode(name[0]) then
      var d := DecodeOne(name);
      DecodeAdvances(name);
      if !d.ok then None
      else
        EncodeInvertsDecode(name);
        Prepend(PercentAll(Encoding(d.codepoint)), NameText(d.rest, fragment))
    else Prepend([name[0]], NameText(name[1..], fragment))
  }

  function Prepend(s: string, t: Option<string>): Option<string> {
    if t.None? then None else Some(s + t.value)
  }

  function NamesText(tokens: seq<Token>, fragment: bool): Option<string> {
    if tokens == [] then Some("")
    else
      var first := NameText(tokens[0].name, fragment);
      if first.None? then None else Prepend("/" + first.value, NamesText(tokens[1..], fragment))
  }

  /** `Stringify` */
  function Stringify(tokens: seq<Token>, fragment: bool): Option<string> {
    Prepend(if fragment then "#" else "", NamesText(tokens, fragment))
  }

  // ---------------------------------------------------------------------------------------------
  // Round trips
  // ---------------------------------------------------------------------------------------------

  /** A text that ends a name. */
  predicate EndsName(s: string) {
    s == "" || s[0] == '/'
  }

  lemma TripletOfPercent(c: char, rest: string)
    requires c as int < 256
    ensures IsTriplet(Percent(c) + rest) && TripletByte(Percent(c) + rest) == c
    ensures (Percent(c) + rest)[3..] == rest
  {
  }

  /** The triplets of encoded bytes are the bytes, and then those of what follows. */
  lemma {:induction false} TripletsOfPercentAll(bytes: string, rest: string)
    requires IsText(bytes)
    ensures Triplets(PercentAll(bytes) + rest) == bytes + Triplets(rest)
  {
    hide Percent, TripletByte, IsTriplet;
    if bytes == "" {
      assert PercentAll(bytes) + rest == rest;
    } else {
      var more := PercentAll(bytes[1..]) + rest;
      assert PercentAll(bytes) + rest == Percent(bytes[0]) + more;
      TripletOfPercent(bytes[0], more);
      TripletsOfPercentAll(bytes[1..], rest);
    }
  }

  /** Percent-decoding inverts percent-encoding, one code point at a time. */
  lemma PercentDecodeInvertsEncode(codepoint: nat, rest: string)
    requires IsScalarValue(codepoint)
    ensures PercentDecode(PercentAll(Encoding(codepoint)) + rest) == Parsed(Encoding(codepoint), rest)
  {
    hide Encoding, PercentAll, Triplets, DecodeOne, Length;
    var bytes := Encoding(codepoint);
    TripletsOfPercentAll(bytes, rest);
    DecodeInvertsEncode(codepoint, Triplets(rest));
    EncodingLength(codepoint, Triplets(rest));
    assert (bytes + Triplets(rest))[..|bytes|] == bytes;
    assert (PercentAll(bytes) + rest)[3 * |bytes|..] == rest;
  }

  /** Reading one encoded code point of a name. */
  lemma ReadPercent(codepoint: nat, rest: string, name: string)
    requires IsScalarValue(codepoint) && codepoint != '~' as int
    ensures NameAt(PercentAll(Encoding(codepoint)) + rest, true, name) == NameAt(rest, true, name + Encoding(codepoint))
  {
    hide Encoding, PercentDecode, PercentAll, Triplets;
    var s := PercentAll(Encoding(codepoint)) + rest;
    PercentDecodeInvertsEncode(codepoint, rest);
    assert s[0] == '%' by { PercentStart(Encoding(codepoint), rest); }
    var bytes := Encoding(codepoint);
    if |bytes| == 1 {
      assert bytes == [bytes[0]];
      SingleByte(codepoint);
    }
  }

  lemma SingleByte(codepoint: nat)
    requires codepoint <= 0x10FFFF && |Encoding(codepoint)| == 1
    ensures Encoding(codepoint) == [codepoint as char]
  {
  }

  lemma PercentStart(bytes: string, rest: string)
    requires IsText(bytes) && bytes != ""
    ensures PercentAll(bytes) + rest != "" && (PercentAll(bytes) + rest)[0] == '%'
  {
  }

  lemma PlainStep(name: string, fragment: bool)
    requires name != "" && (fragment && name[0] != '/' ==> !NeedPercentEncode(name[0]))
    ensures NameText(name, fragment) == Prepend(PlainText(name[0]), NameText(name[1..], fragment))
  {
  }

  lemma PercentStep(name: string)
    requires name != "" && NeedPercentEncode(name[0]) && name[0] != '/' && NameText(name, true).Some?
    ensures var d := DecodeOne(name);
            && d.ok && IsScalarValue(d.codepoint) && d.codepoint != '~' as int
            && name == Encoding(d.codepoint) + d.rest
            && NameText(name, true) == Prepend(PercentAll(Encoding(d.codepoint)), NameText(d.rest, true))
  {
    hide DecodeOne, PercentAll;
    EncodeInvertsDecode(name);
  }

  /** What is printed for a name reads back as that name. */
  lemma {:induction false} ReadNameText(name: string, fragment: bool, rest: string, before: string)
    requires NameText(name, fragment).Some? && EndsName(rest)
    ensures NameAt(NameText(name, fragment).value + rest, fragment, before) == Parsed(before + name, rest)
    decreases |name|
  {
    hide DecodeOne, Encoding, PercentAll, PercentDecode, NeedPercentEncode, NameText, NameAt, PlainText;
    if name == "" {
      EmptyName(fragment, rest, before);
      assert before + name == before;
    } else if fragment && NeedPercentEncode(name[0]) && name[0] != '/' {
      var d := DecodeOne(name);
      PercentStep(name);
      var tail := NameText(d.rest, fragment).value + rest;
      ReadPercent(d.codepoint, tail, before);
      ReadNameText(d.rest, fragment, rest, before + Encoding(d.codepoint));
      assert NameText(name, fragment).value + rest == PercentAll(Encoding(d.codepoint)) + tail;
      assert before + Encoding(d.codepoint) + d.rest == before + name;
    } else {
      PlainStep(name, fragment);
      var tail := NameText(name[1..], fragment).value + rest;
      ReadNameText(name[1..], fragment, rest, before + [name[0]]);
      ReadPlain(name[0], fragment, tail, before);
      assert NameText(name, fragment).value + rest == PlainText(name[0]) + tail;
      assert before + [name[0]] + name[1..] == before + name;
    }
  }

  lemma EmptyName(fragment: bool, rest: string, before: string)
    requires EndsName(rest)
    ensures NameText("", fragment) == Some("") && NameAt("" + rest, fragment, before) == Parsed(before, rest)
  {
    assert "" + rest == rest;
  }

  /** How a character is printed that needs no percent encoding. */
  function PlainText(c: char): string {
    if c == '~' then "~0" else if c == '/' then "~1" else [c]
  }

  lemma ReadPlain(c: char, fragment: bool, rest: string, name: string)
    requires fragment && c != '/' ==> !NeedPercentEncode(c)
    ensures NameAt(PlainText(c) + rest, fragment, name) == NameAt(rest, fragment, name + [c])
  {
    hide PercentDecode;
    var s := PlainText(c) + rest;
    if c == '~' || c == '/' {
      assert s[1..][1..] == rest;
    } else {
      assert s[1..] == rest;
    }
  }

  function Names(tokens: seq<Token>): (names: seq<string>)
    ensures |names| == |tokens|
  {
    seq(|tokens|, i requires 0 <= i < |tokens| => tokens[i].name)
  }

  lemma {:induction false} ReadNamesText(tokens: seq<Token>, fragment: bool, names: seq<string>)
    requires NamesText(tokens, fragment).Some?
    ensures EndsName(NamesText(tokens, fragment).value)
    ensures NamesAt(NamesText(tokens, fragment).value, fragment, names)
            == Some(names + Names(tokens))
    decreases |tokens|
  {
    hide NameAt, NameText;
    var text := NamesText(tokens, fragment).value;
    if tokens == [] {
      assert names + Names(tokens) == names;
    } else {
      var first, more := NameText(tokens[0].name, fragment).value, NamesText(tokens[1..], fragment).value;
      ReadNamesText(tokens[1..], fragment, names + [tokens[0].name]);
      ReadNameText(tokens[0].name, fragment, more, "");
      assert text == "/" + first + more;
      assert text[1..] == first + more;
      assert "" + tokens[0].name == tokens[0].name;
      assert names + Names(tokens) == names + [tokens[0].name] + Names(tokens[1..]);
    }
  }

  /** Tokens as parsing makes them: the index is the one the name spells. */
  predicate Parsable(tokens: seq<Token>) {
    forall i :: 0 <= i < |tokens| ==> tokens[i].index == IndexOf(tokens[i].name)
  }

  lemma ParsedIsParsable(source: string)
    requires ParsePointer(source).Some?
    ensures Parsable(ParsePointer(source).value)
  {
    hide NamesAt, IndexOf;
  }

  /** Whatever can be printed parses back to the same tokens, in either form. */
  lemma ParseInvertsStringify(tokens: seq<Token>, fragment: bool)
    requires Parsable(tokens) && Stringify(tokens, fragment).Some?
    ensures ParsePointer(Stringify(tokens, fragment).value) == Some(tokens)
  {
    hide NamesText, NamesAt, IndexOf;
    ReadNamesText(tokens, fragment, []);
    var text := Stringify(tokens, fragment).value;
    var body := NamesText(tokens, fragment).value;
    assert if fragment then text[0] == '#' && text[1..] == body else text == body;
    assert [] + Names(tokens) == Names(tokens);
    assert Tokens(Names(tokens)) == tokens;
  }

  /** The plain form can always be printed. */
  lemma {:induction false} PlainNames(name: string)
    ensures NameText(name, false).Some?
    decreases |name|
  {
    if name != "" {
      PlainNames(name[1..]);
    }
  }

  lemma {:induction false} PlainAlwaysPrints(tokens: seq<Token>)
    ensures NamesText(tokens, false).Some? && Stringify(tokens, false).Some?
    decreases |tokens|
  {
    hide NameText;
    if tokens != [] {
      PlainNames(tokens[0].name);
      PlainAlwaysPrints(tokens[1..]);
    }
  }

  /** The fragment form can be printed exactly when every name is well-formed UTF-8. */
  lemma {:induction false} FragmentNames(name: string)
    ensures NameText(name, true).Some? <==> DecodeAll(name).ok
    decreases |name|
  {
    hide Encoding, DecodeTail, PercentAll;
    if name != "" {
      DecodeAdvances(name);
      if name[0] as int < 0x80 {
        assert DecodeOne(name) == Decoded(true, name[0] as int, name[1..]);
        FragmentNames(name[1..]);
      } else {
        if DecodeOne(name).ok {
          FragmentNames(DecodeOne(name).rest);
        }
      }
    }
  }

  lemma {:induction false} FragmentPrints(tokens: seq<Token>)
    ensures Stringify(tokens, true).Some? <==> forall i :: 0 <= i < |tokens| ==> DecodeAll(tokens[i].name).ok
    decreases |tokens|
  {
    hide NameText, DecodeAll;
    if tokens != [] {
      FragmentNames(tokens[0].name);
      FragmentPrints(tokens[1..]);
    }
  }

  /** Parsing what a parsed pointer prints gives that pointer again: in the plain form always, as a URI
      fragment when its names are UTF-8. */
  lemma PointerRoundTrip(source: string, fragment: bool)
    requires ParsePointer(source).Some?
    requires fragment ==> forall i :: 0 <= i < |ParsePointer(source).value| ==>
               DecodeAll(ParsePointer(source).value[i].name).ok
    ensures var p := ParsePointer(source);
            Stringify(p.value, fragment).Some? && ParsePointer(Stringify(p.value, fragment).value) == p
  {
    hide ParsePointer, Stringify, DecodeAll;
    var tokens := ParsePointer(source).value;
    ParsedIsParsable(source);
    if fragment {
      FragmentPrints(tokens);
    } else {
      PlainAlwaysPrints(tokens);
    }
    ParseInvertsStringify(tokens, fragment);
  }

  // ---------------------------------------------------------------------------------------------
  // Which names are indices, and which characters stand for themselves
  // ---------------------------------------------------------------------------------------------

  const TWO32 := 0x1_0000_0000

  /** One more digit makes the number smaller in 32 bits, which is all that the code looks for. */
  ghost predicate Falls(ds: string, k: int)
    requires AreDigits(ds)
  {
    0 <= k < |ds| && Value(ds[..k + 1]) % TWO32 < Value(ds[..k]) % TWO32
  }

  lemma Carried(n: nat, d: nat)
    ensures (n % TWO32 * 10 + d) % TWO32 == (n * 10 + d) % TWO32
  {
  }

  /** Accumulating the digits from the `k`-th on. */
  lemma {:induction false} AccumulateFrom(ds: string, k: nat)
    requires AreDigits(ds) && k <= |ds|
    ensures Accumulate(ds[k..], Value(ds[..k]) % TWO32)
            == if exists j :: k <= j < |ds| && Falls(ds, j) then None else Some(Value(ds) % TWO32)
    decreases |ds| - k
  {
    hide Value, Digit;
    if k == |ds| {
      assert ds[..k] == ds;
    } else {
      AccumulateFrom(ds, k + 1);
      Reader.NextDigit(ds, k);
      Carried(Value(ds[..k]), Digit(ds[k]));
      assert ds[k..][1..] == ds[k + 1..];
      var m := (Value(ds[..k]) % TWO32 * 10 + Digit(ds[k])) % TWO32;
      assert m == Value(ds[..k + 1]) % TWO32;
      if Falls(ds, k) {
        assert m < Value(ds[..k]) % TWO32;
      }
    }
  }

  /** The index of a numeral without leading zeros is its value in 32 bits, unless a step makes that smaller. */
  lemma IndexIsWrapped(ds: string)
    requires AreDigits(ds) && ds != "" && (|ds| == 1 || ds[0] != '0')
    ensures IndexOf(ds) == if exists k :: Falls(ds, k) then INVALID_INDEX else Value(ds) % TWO32
  {
    hide Accumulate, Value, Falls;
    AccumulateFrom(ds, 0);
    assert ds[0..] == ds && ds[..0] == "";
    NoDigits();
    if k :| Falls(ds, k) {
      FallsInside(ds, k);
    }
  }

  lemma FallsInside(ds: string, k: int)
    requires AreDigits(ds) && Falls(ds, k)
    ensures 0 <= k < |ds|
  {
  }

  lemma NeverFalls(ds: string, k: int)
    requires AreDigits(ds) && Value(ds) <= INVALID_INDEX
    ensures !Falls(ds, k)
  {
    hide Value;
    if 0 <= k < |ds| {
      Reader.ValueGrows(ds, k);
      Reader.ValueGrows(ds, k + 1);
      Reader.ValueGrows(ds[..k + 1], k);
      assert ds[..k + 1][..k] == ds[..k];
    }
  }

  /** A numeral without leading zeros is the index it spells, as long as that fits 32 bits. One that does not fit is
      no index exactly when a step makes the wrapped number smaller, or it ends up as the invalid index by itself. */
  lemma NumeralIsIndex(ds: string)
    requires AreDigits(ds) && ds != "" && (|ds| == 1 || ds[0] != '0')
    ensures Value(ds) <= INVALID_INDEX ==> IndexOf(ds) == Value(ds)
    ensures IndexOf(ds) == INVALID_INDEX <==> Value(ds) % TWO32 == INVALID_INDEX || exists k :: Falls(ds, k)
  {
    hide IndexOf, Value, Falls;
    IndexIsWrapped(ds);
    if Value(ds) <= INVALID_INDEX {
      forall k ensures !Falls(ds, k) {
        NeverFalls(ds, k);
      }
    }
  }

  const TEN_TO_TENTH := "10000000000"
  const PREFIXES := [0, 1, 10, 100, 1000, 10_000, 100_000, 1_000_000, 10_000_000, 100_000_000, 1_000_000_000,
                     10_000_000_000]

  lemma {:induction false} PrefixValue(k: nat)
    requires k <= 11
    ensures Value(TEN_TO_TENTH[..k]) == PREFIXES[k]
  {
    hide Value;
    if k == 0 {
      NoDigits();
    } else if k == 1 {
      Reader.SmallNumerals('1');
      assert TEN_TO_TENTH[..1] == "1";
    } else {
      PrefixValue(k - 1);
      Zero(TEN_TO_TENTH, k - 1);
    }
  }

  /** Ten to the tenth does not fit 32 bits, but no step makes its prefixes smaller: it is taken for another index. */
  lemma TooLargeYetAnIndex()
    ensures Value(TEN_TO_TENTH) > INVALID_INDEX && IndexOf(TEN_TO_TENTH) == 1_410_065_408
  {
    hide IndexOf, Value;
    forall k ensures !Falls(TEN_TO_TENTH, k) {
      if 0 <= k < 11 {
        PrefixValue(k);
        PrefixValue(k + 1);
      }
    }
    PrefixValue(11);
    assert TEN_TO_TENTH[..11] == TEN_TO_TENTH;
    hide Falls;
    IndexIsWrapped(TEN_TO_TENTH);
  }

  lemma Zero(ds: string, k: nat)
    requires AreDigits(ds) && k < |ds| && ds[k] == '0'
    ensures Value(ds[..k + 1]) == Value(ds[..k]) * 10
  {
    Reader.NextDigit(ds, k);
  }

  lemma NoDigits()
    ensures Value("") == 0
  {
  }

  /** Every number below the invalid index is spelled by its decimal numeral. */
  lemma DecimalIsIndex(n: nat)
    requires n <= INVALID_INDEX
    ensures IndexOf(Decimal(n)) == n
  {
    hide IndexOf, Value, Decimal;
    DecimalValue(n);
    ZeroAlone(n);
    NumeralIsIndex(Decimal(n));
  }

  /** Other names are no indices: empty ones, those with another character, and those with a leading zero. */
  lemma NameIsNoIndex(name: string)
    requires name == "" || (exists i :: 0 <= i < |name| && !('0' <= name[i] <= '9')) || (|name| > 1 && name[0] == '0')
    ensures IndexOf(name) == INVALID_INDEX
  {
  }

  /** The unreserved characters by their codes: digits, letters, "-", ".", "_" and "~". */
  lemma UnreservedMeans(c: char)
    ensures !NeedPercentEncode(c)
            <==> || 0x30 <= c as int <= 0x39 || 0x41 <= c as int <= 0x5A || 0x61 <= c as int <= 0x7A
                 || c as int in {0x2D, 0x2E, 0x5F, 0x7E}
  {
  }

  /** A text of unreserved characters and percent signs. */
  predicate InFragment(s: string) {
    forall i :: 0 <= i < |s| ==> s[i] == '%' || !NeedPercentEncode(s[i])
  }

  lemma {:induction false} PercentInFragment(bytes: string)
    requires IsText(bytes)
    ensures InFragment(PercentAll(bytes))
  {
    hide NeedPercentEncode;
    if bytes != "" {
      PercentInFragment(bytes[1..]);
      TripletInFragment(bytes[0]);
    }
  }

  lemma TripletInFragment(c: char)
    requires c as int < 256
    ensures InFragment(Percent(c))
  {
  }

  /** What is printed of a name in the fragment form may stand in a URI (section 2.3 of RFC 3986). */
  lemma {:induction false} FragmentAlphabet(name: string)
    requires NameText(name, true).Some?
    ensures InFragment(NameText(name, true).value)
    decreases |name|
  {
    hide NeedPercentEncode, DecodeOne, Encoding, PercentAll, NameText;
    if name == "" {
      EmptyName(true, "", "");
    } else if NeedPercentEncode(name[0]) && name[0] != '/' {
      PercentStep(name);
      var d := DecodeOne(name);
      FragmentAlphabet(d.rest);
      PercentInFragment(Encoding(d.codepoint));
    } else {
      PlainStep(name, true);
      FragmentAlphabet(name[1..]);
      PlainInFragment(name[0]);
    }
  }

  lemma PlainInFragment(c: char)
    requires c == '/' || !NeedPercentEncode(c)
    ensures InFragment(PlainText(c))
  {
  }
}
