/**
 `GenericPointer` of 3rdparty/rapidjson/pointer.h: parsing fills one buffer, of the length of the source,
 with the zero-terminated names of all tokens; the tokens point into it. Dafny checks every write against
 the bounds of the buffer and of the token array, on the paths that reject the source too.
 */
module Pointer {
  import opened Json
  import opened Streams
  import opened Utf8
  import opened JsonText
  import opened Writer
  import opened PointerText

  /** A token in the buffer: where its name starts and how long it is. */
  datatype RawToken = RawToken(name: nat, length: nat, index: nat)

  /** The names one after the other, each with its terminating zero. */
  function Flat(names: seq<string>): string {
    if names == [] then "" else Flat(names[..|names| - 1]) + names[|names| - 1] + "\0"
  }

  function Raw(names: seq<string>): (tokens: seq<RawToken>)
    ensures |tokens| == |names|
  {
    if names == [] then []
    else
      var last := |names| - 1;
      Raw(names[..last]) + [RawToken(|Flat(names[..last])|, |names[last]|, IndexOf(names[last]))]
  }

  /** What the tokens in a buffer stand for. */
  function Resolve(buffer: string, raw: seq<RawToken>): (tokens: seq<Token>)
    requires forall t <- raw :: t.name + t.length <= |buffer|
    ensures |tokens| == |raw|
  {
    seq(|raw|, i requires 0 <= i < |raw| => Token(buffer[raw[i].name..raw[i].name + raw[i].length], raw[i].index))
  }

  lemma {:induction false} RawResolves(names: seq<string>, more: string)
    ensures forall t <- Raw(names) ::
              t.name + t.length < |Flat(names)| && Flat(names)[t.name + t.length] == '\0'
    ensures Resolve(Flat(names) + more, Raw(names)) == Tokens(names)
  {
    hide IndexOf;
    if names != [] {
      var last := |names| - 1;
      var front := names[..last];
      var tail := names[last] + "\0" + more;
      RawResolves(front, tail);
      assert Flat(names) + more == Flat(front) + tail;
      assert (Flat(front) + tail)[|Flat(front)|..|Flat(front)| + |names[last]|] == names[last];
      assert Tokens(names) == Tokens(front) + [Token(names[last], IndexOf(names[last]))];
    }
  }

  // ---------------------------------------------------------------------------------------------
  // Decoding percent triplets into the buffer
  // ---------------------------------------------------------------------------------------------

  /** `PercentDecodeStream::Take` at position `at`: zero, and an invalid stream, where there is no triplet. */
  method TakePercent(source: string, at: nat) returns (c: char, next: nat, valid: bool)
    requires at <= |source|
    ensures at <= next <= |source| && valid == IsTriplet(source[at..])
    ensures if valid then c == TripletByte(source[at..]) && next == at + 3 else c == '\0'
  {
    next := at;
    if Peek(source[at..]) != '%' || at + 3 > |source| {
      return '\0', next, false;
    }
    next := next + 1;
    var value := 0;
    for j := 0 to 2
      invariant next == at + 1 + j
      invariant j >= 1 ==> IsHexDigit(source[at + 1])
      invariant j >= 2 ==> IsHexDigit(source[at + 2])
      invariant j == 1 ==> value == HexValue(source[at + 1])
      invariant j == 2 ==> value == HexValue(source[at + 1]) * 16 + HexValue(source[at + 2])
      invariant j == 0 ==> value == 0
    {
      var h := source[next];
      if !IsHexDigit(h) {
        return '\0', next, false;
      }
      value := value * 16 + HexValue(h);
      next := next + 1;
    }
    return value as char, next, true;
  }

  lemma {:induction false} TripletsAt(source: string, at: nat, k: nat)
    requires at <= |source| && k <= |Triplets(source[at..])|
    ensures at + 3 * k <= |source|
    ensures IsTriplet(source[at + 3 * k..]) <==> k < |Triplets(source[at..])|
    ensures k < |Triplets(source[at..])| ==> TripletByte(source[at + 3 * k..]) == Triplets(source[at..])[k]
    decreases k
  {
    hide IsTriplet, TripletByte;
    if k > 0 {
      TripletsAt(source, at + 3, k - 1);
      assert source[at..][3..] == source[at + 3..];
    }
  }

  lemma ValidateStep(masks: seq<nat>, k: nat, v: Validated)
    requires k < |masks| <= 3
    ensures ValidateTail(masks[..k + 1], v) == ValidateNext(ValidateTail(masks[..k], v), masks[k])
  {
    hide ValidateNext;
  }

  lemma ValidateNone(v: Validated)
    ensures ValidateTail([], v) == v
  {
  }

  lemma ZeroIsNoTail(mask: nat)
    ensures !InMask('\0', mask)
  {
  }

  /** `UTF8::Validate` from the percent stream at `at` into the buffer at `n`. At most four bytes are written,
      also when the sequence is rejected. */
  method ValidatePercent(source: string, at: nat, buffer: array<char>, n: nat)
    returns (ok: bool, next: nat, written: nat)
    requires n + 2 <= at < |source| <= buffer.Length
    modifies buffer
    ensures buffer[..n] == old(buffer[..n])
    ensures ok == PercentDecode(source[at..]).Parsed?
    ensures ok ==> var d := PercentDecode(source[at..]);
                   && at < next <= |source| && source[next..] == d.rest && next == at + 3 * written
                   && n + written <= buffer.Length && buffer[n..n + written] == d.value
  {
    hide InMask, Triplets, IsTriplet, TripletByte, DecodeOne, GetRange, ValidateTail, Masks, Taken;
    ghost var bytes := Triplets(source[at..]);
    var c, valid;
    TripletsAt(source, at, 0);
    c, next, valid := TakePercent(source, at);
    buffer[n] := c;
    written := 1;
    ok := valid;
    if valid {
      TripletThere(source[at..]);
      ValidateAgrees(bytes, "");
      assert c == bytes[0] && bytes[1..] == Rest(bytes);
      if c as int >= 0x80 {
        var masks := Masks(GetRange(c));
        ok, next, written :=
          ValidateTailBytes(source, at, masks, buffer, n, Validated(masks != [], "" + [c], Rest(bytes)));
      }
      if ok {
        assert source[at..][3 * written..] == source[next..];
      }
    }
  }

  /** The bytes after the leading one. */
  method ValidateTailBytes(source: string, at: nat, masks: seq<nat>, buffer: array<char>, n: nat, ghost v0: Validated)
    returns (ok: bool, next: nat, written: nat)
    requires n + 2 <= at && at + 3 <= |source| <= buffer.Length && |masks| <= 3
    requires v0.ok == (masks != []) && Triplets(source[at..]) != "" && v0.rest == Triplets(source[at..])[1..]
    requires buffer[n] == Triplets(source[at..])[0]
    modifies buffer
    ensures buffer[..n] == old(buffer[..n])
    ensures ok == ValidateTail(masks, v0).ok
    ensures ok ==> written == 1 + |masks| <= |Triplets(source[at..])| && next == at + 3 * written
                   && buffer[n..n + written] == Triplets(source[at..])[..written]
  {
    hide InMask, Triplets, IsTriplet, TripletByte, ValidateNext, ValidateTail;
    ghost var bytes := Triplets(source[at..]);
    ok, next, written := masks != [], at + 3, 1;
    var valid := true;
    ghost var v := v0;
    assert masks[..0] == [];
    ValidateNone(v0);
    for k := 0 to |masks|
      invariant buffer[..n] == old(buffer[..n]) && written == k + 1 && at <= next <= |source|
      invariant v == ValidateTail(masks[..k], v0)
      invariant if valid then && next == at + 3 * written && written <= |bytes| && ok == v.ok
                              && v.rest == bytes[written..] && buffer[n..n + written] == bytes[..written]
                else !ok && !v.ok
    {
      ValidateStep(masks, k, v0);
      ValidateNextOk(v, masks[k]);
      ZeroIsNoTail(masks[k]);
      v := ValidateNext(v, masks[k]);
      if valid {
        TripletsAt(source, at, written);
      }
      var c, there;
      c, next, there := TakePercent(source, next);
      buffer[n + written] := c;
      ok := ok && InMask(c, masks[k]);
      valid := valid && there;
      written := written + 1;
      assert valid ==> buffer[n..n + written] == bytes[..written];
    }
    assert masks[..|masks|] == masks;
    ok := ok && valid;
  }

  lemma TripletThere(s: string)
    requires IsTriplet(s)
    ensures Triplets(s) != "" && Triplets(s)[0] == TripletByte(s) && |s| >= 3
  {
  }

  lemma ValidateNextOk(v: Validated, mask: nat)
    ensures ValidateNext(v, mask).ok == (v.ok && InMask(Peek(v.rest), mask))
    ensures ValidateNext(v, mask).rest == Rest(v.rest)
  {
  }

  // ---------------------------------------------------------------------------------------------
  // The pointer object
  // ---------------------------------------------------------------------------------------------

  lemma NameHere(source: string, i: nat, fragment: bool, name: string)
    requires i <= |source|
    ensures i == |source| || source[i] == '/' ==> NameAt(source[i..], fragment, name) == Parsed(name, source[i..])
  {
    hide PercentDecode, NeedPercentEncode;
  }

  /** One turn of the name loop on a character that is no percent sign. */
  lemma CharacterHere(source: string, i: nat, fragment: bool, name: string)
    requires i < |source| && source[i] != '/' && !(fragment && source[i] == '%')
    ensures NameAt(source[i..], fragment, name)
            == if fragment && NeedPercentEncode(source[i]) then Failed
               else Unescape(source[i], source[i + 1..], fragment, name)
  {
    hide PercentDecode, NeedPercentEncode, Unescape;
    assert source[i..][1..] == source[i + 1..];
  }

  lemma PercentHere(source: string, i: nat, name: string)
    requires i < |source| && source[i] == '%'
    ensures NameAt(source[i..], true, name)
            == var d := PercentDecode(source[i..]);
               if d.Failed? then Failed
               else if |d.value| > 1 then NameAt(d.rest, true, name + d.value)
               else Unescape(d.value[0], d.rest, true, name)
  {
    hide PercentDecode, NeedPercentEncode, Unescape;
  }

  lemma DigitsSoFar(a: string, b: string)
    ensures AreDigits(a + b) == (AreDigits(a) && AreDigits(b))
  {
    if AreDigits(a + b) {
      assert forall k :: 0 <= k < |a| ==> a[k] == (a + b)[k];
      assert forall k :: 0 <= k < |b| ==> b[k] == (a + b)[|a| + k];
    }
  }

  /** A code point of several bytes is no digit. */
  lemma NoIndex(s: string)
    requires PercentDecode(s).Parsed? && |PercentDecode(s).value| > 1
    ensures !AreDigits(PercentDecode(s).value)
  {
    hide Triplets, DecodeOne;
  }

  /** Reading `c` and what it escapes leaves `rest` and has added `written` to the name. */
  predicate Escaped(c: char, s: string, fragment: bool, name: string, ok: bool, rest: string, written: char) {
    Unescape(c, s, fragment, name) == if ok then NameAt(rest, fragment, name + [written]) else Failed
  }

  /** What was put out so far, and what is still to come, make up the text. */
  predicate Prints(start: string, all: Option<string>, now: string, more: Option<string>) {
    if all.None? then more.None? else more.Some? && start + all.value == now + more.value
  }

  lemma TokensStep(tokens: seq<Token>, t: nat, fragment: bool)
    requires t < |tokens|
    ensures var first := NameText(tokens[t].name, fragment);
            NamesText(tokens[t..], fragment)
            == if first.None? then None else Prepend("/" + first.value, NamesText(tokens[t + 1..], fragment))
  {
    hide NameText;
    assert tokens[t..][1..] == tokens[t + 1..];
  }

  lemma NoTokens(fragment: bool)
    ensures NamesText([], fragment) == Some("")
  {
  }

  lemma ResolveAt(buffer: string, raw: seq<RawToken>, t: nat)
    requires forall t <- raw :: t.name + t.length <= |buffer|
    requires t < |raw|
    ensures raw[t] in raw && raw[t].name + raw[t].length <= |buffer|
            && Resolve(buffer, raw)[t].name == buffer[raw[t].name..raw[t].name + raw[t].length]
  {
  }

  /** The bytes of a code point at the front of a name are copied when they are well-formed. */
  lemma CodePointText(name: string)
    requires name != "" && NeedPercentEncode(name[0]) && name[0] != '/'
    ensures var n := Length(name); var d := DecodeOne(name);
            if d.ok then && n <= |name| && Taken(name, n) == name[..n] && d.rest == name[n..] && IsText(name[..n])
                         && NameText(name, true) == Prepend(PercentAll(name[..n]), NameText(name[n..], true))
            else NameText(name, true).None?
  {
    hide Encoding, DecodeOne, PercentAll;
    if DecodeOne(name).ok {
      AcceptedBytes(name);
      EncodeInvertsDecode(name);
      var d := DecodeOne(name);
      EncodingLength(d.codepoint, d.rest);
      assert name[..|Encoding(d.codepoint)|] == Encoding(d.codepoint);
      assert name[|Encoding(d.codepoint)|..] == d.rest;
      assert Taken(name, Length(name)) == name[..Length(name)];
    }
  }

  lemma NoNames()
    ensures Flat([]) == "" && Raw([]) == []
  {
  }

  lemma AppendName(names: seq<string>, name: string)
    ensures Flat(names + [name]) == Flat(names) + name + "\0"
    ensures Raw(names + [name]) == Raw(names) + [RawToken(|Flat(names)|, |name|, IndexOf(name))]
  {
    hide IndexOf;
    assert (names + [name])[..|names|] == names;
  }

  lemma NamesStep(source: string, i: nat, fragment: bool, names: seq<string>)
    requires i < |source| && source[i] == '/'
    ensures NamesAt(source[i..], fragment, names)
            == var name := NameAt(source[i + 1..], fragment, "");
               if name.Failed? then None else NamesAt(name.rest, fragment, names + [name.value])
  {
    hide NameAt;
    assert source[i..][1..] == source[i + 1..];
  }

  lemma SolidusAhead(source: string, i: nat)
    requires i < |source| && source[i] == '/'
    ensures Solidi(source[i..]) > 0
  {
  }

  lemma NamesEnd(source: string, fragment: bool, names: seq<string>)
    ensures source[|source|..] == "" && Solidi("") == 0
    ensures NamesAt(source[|source|..], fragment, names) == Some(names)
  {
    hide NameAt;
  }

  class GenericPointer {
    var nameBuffer: array<char>
    var tokens: array<RawToken>
    var tokenCount: nat
    var valid: bool

    constructor ()
      ensures fresh(nameBuffer) && fresh(tokens) && tokenCount == 0 && valid
    {
      nameBuffer := new char[0];
      tokens := new RawToken[0];
      tokenCount := 0;
      valid := true;
    }

    /** The buffer and the tokens of a parsed pointer fit together: each name lies in it and ends with a zero. */
    ghost predicate Valid()
      reads this, nameBuffer, tokens
    {
      && tokenCount == tokens.Length
      && forall t <- tokens[..] :: t.name + t.length < nameBuffer.Length && nameBuffer[t.name + t.length] == '\0'
    }

    function View(): (ts: seq<Token>)
      requires Valid()
      reads this, nameBuffer, tokens
    {
      Resolve(nameBuffer[..], tokens[..])
    }

    /** The escape sequence that `c` starts, or `c` itself. */
    method Escape(source: string, start: nat, c: char) returns (i: nat, written: char, ok: bool)
      requires start <= |source|
      ensures start <= i <= |source|
      ensures forall fragment, name :: Escaped(c, source[start..], fragment, name, ok, source[i..], written)
    {
      hide NameAt;
      i, written, ok := start, c, true;
      if c == '~' {
        if start == |source| {
          return i, written, false;
        }
        assert source[start..][1..] == source[start + 1..];
        if source[start] == '0' {
          written := '~';
        } else if source[start] == '1' {
          written := '/';
        } else {
          return i, written, false;
        }
        i := i + 1;
      }
    }

    /** One turn of the name loop: a character, an escape or a percent-encoded code point goes to the end of
        the name. */
    method ParseCharacter(source: string, start: nat, fragment: bool, n: nat, ghost name: string)
      returns (ok: bool, i: nat, end: nat, digit: bool, ghost added: string)
      requires start < |source| <= nameBuffer.Length && source[start] != '/'
      requires if fragment then n + 2 <= start else n + 1 <= start
      modifies nameBuffer
      ensures NameAt(source[start..], fragment, name)
              == if ok then NameAt(source[if start <= i <= |source| then i else 0..], fragment, name + added)
                  else Failed
      ensures ok ==> start < i <= |source| && n <= end && end - n <= i - start && end <= nameBuffer.Length
      ensures ok ==> nameBuffer[..end] == old(nameBuffer[..n]) + added && digit == AreDigits(added)
    {
      hide NameAt, PercentDecode, Unescape, NeedPercentEncode;
      var c := source[start];
      i, end, digit, ok, added := start + 1, n, false, true, "";
      if fragment && c == '%' {
        PercentHere(source, start, name);
        var written;
        ok, i, written := ValidatePercent(source, start, nameBuffer, n);
        if !ok {
          return;
        }
        if written > 1 {
          added := PercentDecode(source[start..]).value;
          NoIndex(source[start..]);
          end := n + written;
          assert nameBuffer[..end] == nameBuffer[..n] + nameBuffer[n..end];
          return;
        }
        c := nameBuffer[n];
      } else {
        CharacterHere(source, start, fragment, name);
        if fragment && NeedPercentEncode(c) {
          ok := false;
          return;
        }
      }
      var written;
      ghost var from := i;
      i, written, ok := Escape(source, i, c);
      assert Escaped(c, source[from..], fragment, name, ok, source[i..], written);
      if ok {
        digit := '0' <= written <= '9';
        added := [written];
        nameBuffer[n] := written;
        end := n + 1;
        assert nameBuffer[..end] == nameBuffer[..n] + [written];
      }
    }

    /** The loop over the characters of one token's name, from `start` on, into the buffer at `n`. */
    method ParseName(source: string, start: nat, fragment: bool, n: nat)
      returns (ok: bool, i: nat, end: nat, isNumber: bool)
      requires start <= |source| <= nameBuffer.Length
      requires if fragment then n + 2 <= start else n + 1 <= start
      modifies nameBuffer
      ensures ok == NameAt(source[start..], fragment, "").Parsed?
      ensures ok ==> var r := NameAt(source[start..], fragment, "");
              && start <= i <= |source| && source[i..] == r.rest && n <= end && end - n <= i - start
              && nameBuffer[..end] == old(nameBuffer[..n]) + r.value && isNumber == AreDigits(r.value)
    {
      hide NameAt;
      i, end, isNumber, ok := start, n, true, true;
      ghost var name := "";
      while i < |source| && source[i] != '/'
        invariant ok && start <= i <= |source| && n <= end && end - n <= i - start
        invariant nameBuffer[..end] == old(nameBuffer[..n]) + name
        invariant NameAt(source[i..], fragment, name) == NameAt(source[start..], fragment, "")
        invariant isNumber == AreDigits(name)
        decreases |source| - i
      {
        var digit;
        ghost var added;
        ok, i, end, digit, added := ParseCharacter(source, i, fragment, end, name);
        if !ok {
          return;
        }
        DigitsSoFar(name, added);
        isNumber := isNumber && digit;
        name := name + added;
      }
      NameHere(source, i, fragment, name);
    }

    /** Whether the digits at `n` spell an index, and which. */
    method ParseIndex(n: nat, length: nat, digits: bool) returns (index: nat)
      requires n + length <= nameBuffer.Length && digits == AreDigits(nameBuffer[n..n + length])
      ensures index == IndexOf(nameBuffer[n..n + length])
    {
      hide Digit;
      var isNumber := digits;
      if length == 0 || (isNumber && length > 1 && nameBuffer[n] == '0') {
        isNumber := false;
      }
      ghost var name := nameBuffer[n..n + length];
      var value := 0;
      if isNumber {
        var j := 0;
        assert name[0..] == name;
        while j < length
          invariant j <= length && value <= INVALID_INDEX && Accumulate(name[j..], value) == Accumulate(name, 0)
        {
          assert name[j..][0] == nameBuffer[n + j] && name[j..][1..] == name[j + 1..];
          var m := (value * 10 + Digit(nameBuffer[n + j])) % 0x1_0000_0000;
          if m < value {
            isNumber := false;
            break;
          }
          value := m;
          j := j + 1;
        }
      }
      index := if isNumber then value else INVALID_INDEX;
    }

    method CountSolidi(source: string) returns (count: nat)
      ensures count == Solidi(source)
    {
      count := 0;
      assert source[0..] == source;
      for s := 0 to |source|
        invariant count + Solidi(source[s..]) == Solidi(source)
      {
        assert source[s..][1..] == source[s + 1..];
        if source[s] == '/' {
          count := count + 1;
        }
      }
    }

    /** `Parse`: either the tokens of the source, one per solidus, or an error and no tokens. */
    method Parse(source: string)
      modifies this
      ensures Valid() && valid == ParsePointer(source).Some?
      ensures if valid then View() == ParsePointer(source).value && nameBuffer.Length == |source| else tokenCount == 0
      ensures fresh(nameBuffer) && fresh(tokens)
    {
      hide NameAt, NamesAt, Raw, Flat, Resolve, Solidi;
      tokenCount := CountSolidi(source);
      tokens := new RawToken[tokenCount];
      nameBuffer := new char[|source|];
      var fragment := Peek(source) == '#';
      var i := if fragment then 1 else 0;
      valid := true;
      if i != |source| && source[i] != '/' {
        valid := false;
      } else {
        if fragment {
          FirstSolidus(source);
        }
        assert source[i..] == if fragment then source[1..] else source;
        ParseTokens(source, i, fragment);
      }
      if !valid {
        nameBuffer := new char[0];
        tokens := new RawToken[0];
        tokenCount := 0;
      }
    }

    /** After the name of a token: its terminating zero, its index and its entry. */
    method FinishToken(token: nat, name: nat, end: nat, isNumber: bool, ghost names: seq<string>, ghost text: string)
      requires token < tokens.Length && name <= end < nameBuffer.Length && isNumber == AreDigits(text)
      requires name == |Flat(names)| && nameBuffer[..end] == Flat(names) + text && tokens[..token] == Raw(names)
      modifies tokens, nameBuffer
      ensures nameBuffer[..end + 1] == Flat(names + [text]) && tokens[..token + 1] == Raw(names + [text])
    {
      hide Raw, Flat, IndexOf, AreDigits;
      assert nameBuffer[name..end] == nameBuffer[..end][name..] == text;
      var index := ParseIndex(name, end - name, isNumber);
      nameBuffer[end] := '\0';
      assert nameBuffer[..end + 1] == nameBuffer[..end] + "\0";
      tokens[token] := RawToken(name, end - name, index);
      assert tokens[..token + 1] == tokens[..token] + [RawToken(name, end - name, index)];
      AppendName(names, text);
    }

    /** One token, from its solidus on, and where its name ends in the buffer. */
    method ParseToken(source: string, start: nat, fragment: bool, token: nat, name: nat, ghost names: seq<string>)
      returns (ok: bool, i: nat, end: nat, ghost text: string)
      requires start < |source| == nameBuffer.Length && source[start] == '/' && token < tokens.Length
      requires name <= start && (fragment ==> name + 1 <= start)
      requires nameBuffer[..name] == Flat(names) && tokens[..token] == Raw(names)
      modifies tokens, nameBuffer
      ensures ok <==> NameAt(source[start + 1..], fragment, "").Parsed?
      ensures ok ==>
                && start < i <= |source| && (i == |source| || source[i] == '/')
                && Solidi(source[start..]) == 1 + Solidi(source[i..])
                && NamesAt(source[start..], fragment, names) == NamesAt(source[i..], fragment, names + [text])
                && end < i && (fragment ==> end + 1 < i)
                && nameBuffer[..end + 1] == Flat(names + [text]) && tokens[..token + 1] == Raw(names + [text])
      ensures !ok ==> NamesAt(source[start..], fragment, names).None?
    {
      hide NameAt, NamesAt, Raw, Flat, Solidi, IndexOf, AreDigits;
      FirstSolidus(source[start..]);
      NamesStep(source, start, fragment, names);
      assert source[start..][1..] == source[start + 1..];
      var isNumber;
      ok, i, end, isNumber := ParseName(source, start + 1, fragment, name);
      if ok {
        NameSolidi(source[start + 1..], fragment, "");
        text := NameAt(source[start + 1..], fragment, "").value;
        FinishToken(token, name, end, isNumber, names, text);
      } else {
        text := "";
      }
    }

    /** The loop over the tokens. */
    method ParseTokens(source: string, start: nat, fragment: bool)
      requires start <= |source| && (start == |source| || source[start] == '/') && (fragment ==> start == 1)
      requires valid && tokenCount == tokens.Length == Solidi(source[start..]) && nameBuffer.Length == |source|
      modifies this`valid, tokens, nameBuffer
      ensures valid == NamesAt(source[start..], fragment, []).Some?
      ensures valid ==> Valid() && View() == Tokens(NamesAt(source[start..], fragment, []).value)
    {
      hide NameAt, NamesAt, Raw, Flat, Resolve, Solidi, Tokens;
      ghost var names: seq<string> := [];
      ghost var result := NamesAt(source[start..], fragment, []);
      NoNames();
      var i: nat, name: nat, token: nat := start, 0, 0;
      while i < |source|
        invariant valid && i <= |source| && (i == |source| || source[i] == '/')
        invariant name <= i && (fragment ==> name + 1 <= i)
        invariant token == |names| && token + Solidi(source[i..]) == tokens.Length
        invariant NamesAt(source[i..], fragment, names) == result
        invariant nameBuffer[..name] == Flat(names) && tokens[..token] == Raw(names)
        decreases |source| - i
      {
        SolidusAhead(source, i);
        var ok, end;
        ghost var text;
        ok, i, end, text := ParseToken(source, i, fragment, token, name, names);
        if !ok {
          valid := false;
          return;
        }
        names := names + [text];
        name := end + 1;
        token := token + 1;
      }
      NamesEnd(source, fragment, names);
      assert nameBuffer[..] == Flat(names) + nameBuffer[name..];
      assert tokens[..] == tokens[..token];
      RawResolves(names, nameBuffer[name..]);
    }

    /** `Stringify`: fails exactly where a name that must be percent-encoded is no UTF-8. */
    method Stringify(fragment: bool, output: OutputStream) returns (ok: bool)
      requires Valid()
      modifies output
      ensures match PointerText.Stringify(View(), fragment)
              case None => !ok
              case Some(text) => ok && output.text == old(output.text) + text
    {
      hide NamesText, NameText, Resolve;
      ghost var view := View();
      if fragment {
        output.Put('#');
      }
      ghost var start := output.text;
      assert view[0..] == view;
      for t := 0 to tokenCount
        invariant Valid() && View() == view
        invariant Prints(start, NamesText(view, fragment), output.text, NamesText(view[t..], fragment))
      {
        TokensStep(view, t, fragment);
        ResolveAt(nameBuffer[..], tokens[..], t);
        var end := tokens[t].name + tokens[t].length;
        ok := StringifyName(nameBuffer[tokens[t].name..end], nameBuffer[end..], fragment, output);
        if !ok {
          return;
        }
      }
      assert view[tokenCount..] == [];
      NoTokens(fragment);
      ghost var body := NamesText(view, fragment).value;
      assert start + body == output.text + "" == output.text;
      assert start + body == old(output.text) + ((if fragment then "#" else "") + body);
      ok := true;
    }

    /** One name; `behind` is what the buffer holds behind it, from its terminating zero on. */
    method StringifyName(name: string, behind: string, fragment: bool, output: OutputStream) returns (ok: bool)
      requires behind != "" && behind[0] == '\0'
      modifies output
      ensures match NameText(name, fragment)
              case None => !ok
              case Some(text) => ok && output.text == old(output.text) + "/" + text
    {
      hide NameText, DecodeOne, Encoding, PercentAll, PlainText;
      output.Put('/');
      ghost var start := output.text;
      var j := 0;
      assert name[0..] == name;
      while j < |name|
        invariant j <= |name|
        invariant Prints(start, NameText(name, fragment), output.text, NameText(name[j..], fragment))
      {
        var c := name[j];
        assert name[j..][1..] == name[j + 1..];
        if fragment && NeedPercentEncode(c) && c != '~' && c != '/' {
          var length;
          ok, length := StringifyCodePoint(name[j..], behind, output);
          if !ok {
            return;
          }
          assert name[j..][length..] == name[j + length..];
          j := j + length;
        } else {
          StringifyPlain(c, output);
          PlainStep(name[j..], fragment);
          j := j + 1;
        }
      }
      assert name[j..] == "";
      EmptyName(fragment, "", "");
      assert start + NameText(name, fragment).value == output.text + "" == output.text;
      ok := true;
    }

    method StringifyPlain(c: char, output: OutputStream)
      modifies output
      ensures output.text == old(output.text) + PlainText(c)
    {
      if c == '~' {
        output.Put('~');
        output.Put('0');
      } else if c == '/' {
        output.Put('~');
        output.Put('1');
      } else {
        output.Put(c);
      }
    }

    /** Transcode one code point through a `PercentEncodeStream`. The stream it is read from goes on behind the name. */
    method StringifyCodePoint(name: string, behind: string, output: OutputStream) returns (ok: bool, length: nat)
      requires name != "" && NeedPercentEncode(name[0]) && name[0] != '/' && behind != "" && behind[0] == '\0'
      modifies output
      ensures ok == DecodeOne(name).ok && 1 <= length
      ensures if ok then && length <= |name| && name[length..] == DecodeOne(name).rest && IsText(name[..length])
                         && NameText(name, true) == Prepend(PercentAll(name[..length]), NameText(name[length..], true))
                         && output.text == old(output.text) + PercentAll(name[..length])
              else NameText(name, true).None?
    {
      hide NameText, DecodeOne, Encoding, PercentAll;
      var source := new InputStream(name + behind);
      var target := new OutputStream();
      ok := Validate(source, target);
      ZeroEndsName(name, behind);
      ValidateAgrees(name + behind, "");
      CodePointText(name);
      length := |target.text|;
      if ok {
        assert target.text == "" + Taken(name + behind, length) == name[..length];
        PutPercent(target.text, output);
      }
    }

    method PutPercent(bytes: string, output: OutputStream)
      requires IsText(bytes)
      modifies output
      ensures output.text == old(output.text) + PercentAll(bytes)
    {
      hide Percent;
      assert bytes[0..] == bytes;
      for k := 0 to |bytes|
        invariant output.text + PercentAll(bytes[k..]) == old(output.text) + PercentAll(bytes)
      {
        assert bytes[k..][1..] == bytes[k + 1..];
        var u := bytes[k] as int;
        ghost var before := output.text;
        PutTriplet(bytes[k], output);
        assert before + PercentAll(bytes[k..]) == before + Percent(bytes[k]) + PercentAll(bytes[k + 1..]);
      }
    }

    method PutTriplet(c: char, output: OutputStream)
      requires c as int < 256
      modifies output
      ensures output.text == old(output.text) + Percent(c)
    {
      var u := c as int;
      output.Put('%');
      output.Put(HexDigit(u / 16));
      output.Put(HexDigit(u % 16));
    }
  }
}
