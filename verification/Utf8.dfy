/**
 `UTF8` of 3rdparty/rapidjson/encodings.h (section 4 of RFC 3629): the encoder, the decoder driven by a
 table of byte classes, and the validator.
 */
module Utf8 {
  import opened Streams

  /** A Unicode scalar value: a code point that is no surrogate. */
  predicate IsScalarValue(codepoint: nat) {
    codepoint <= 0x10FFFF && !(0xD800 <= codepoint <= 0xDFFF)
  }

  predicate IsText(s: string) {
    forall i :: 0 <= i < |s| ==> s[i] as int < 256
  }

  /** A continuation byte holding the low six bits of `n`. */
  function Tail(n: nat): char {
    (0x80 + n % 64) as char
  }

  /** The bytes of a code point. */
  function Encoding(codepoint: nat): (bytes: string)
    requires codepoint <= 0x10FFFF
    ensures 1 <= |bytes| <= 4 && IsText(bytes)
  {
    if codepoint <= 0x7F then [codepoint as char]
    else if codepoint <= 0x7FF then [(0xC0 + codepoint / 64) as char, Tail(codepoint)]
    else if codepoint <= 0xFFFF then [(0xE0 + codepoint / 4096) as char, Tail(codepoint / 64), Tail(codepoint)]
    else [(0xF0 + codepoint / 262144) as char, Tail(codepoint / 4096), Tail(codepoint / 64), Tail(codepoint)]
  }

  method Encode(output: OutputStream, codepoint: nat)
    requires codepoint <= 0x10FFFF
    modifies output
    ensures output.text == old(output.text) + Encoding(codepoint)
  {
    if codepoint <= 0x7F {
      output.Put(codepoint as char);
    } else if codepoint <= 0x7FF {
      output.Put((0xC0 + codepoint / 64) as char);
      output.Put(Tail(codepoint));
    } else if codepoint <= 0xFFFF {
      output.Put((0xE0 + codepoint / 4096) as char);
      output.Put(Tail(codepoint / 64));
      output.Put(Tail(codepoint));
    } else {
      output.Put((0xF0 + codepoint / 262144) as char);
      output.Put(Tail(codepoint / 4096));
      output.Put(Tail(codepoint / 64));
      output.Put(Tail(codepoint));
    }
  }

  // ---------------------------------------------------------------------------------------------
  // Byte classes
  // ---------------------------------------------------------------------------------------------

  /** The classes of bytes; the three kinds of continuation byte are bits, so that a mask can admit
      several of them. */
  function GetRange(c: char): nat {
    var b := c as int;
    if b < 0x80 then 0
    else if b < 0x90 then 0x10
    else if b < 0xA0 then 0x40
    else if b < 0xC0 then 0x20
    else if b < 0xC2 then 8
    else if b < 0xE0 then 2
    else if b == 0xE0 then 10
    else if b == 0xED then 4
    else if b < 0xF0 then 3
    else if b == 0xF0 then 11
    else if b < 0xF4 then 6
    else if b == 0xF4 then 5
    else 8
  }

  /** `GetRange(c) & mask` is not zero; no mask has bits below 0x10. */
  predicate InMask(c: char, mask: nat) {
    var range := GetRange(c);
    || (range == 0x10 && (mask / 0x10) % 2 == 1)
    || (range == 0x20 && (mask / 0x20) % 2 == 1)
    || (range == 0x40 && (mask / 0x40) % 2 == 1)
  }

  lemma MasksMean(c: char)
    ensures InMask(c, 0x70) <==> 0x80 <= c as int < 0xC0
    ensures InMask(c, 0x50) <==> 0x80 <= c as int < 0xA0
    ensures InMask(c, 0x10) <==> 0x80 <= c as int < 0x90
    ensures InMask(c, 0x20) <==> 0xA0 <= c as int < 0xC0
    ensures InMask(c, 0x60) <==> 0x90 <= c as int < 0xC0
  {
  }

  /** The masks that a sequence starting with a byte of this class applies to the bytes after it. */
  function Masks(range: nat): (masks: seq<nat>)
    ensures |masks| <= 3
  {
    if range == 2 then [0x70]
    else if range == 3 then [0x70, 0x70]
    else if range == 4 then [0x50, 0x70]
    else if range == 5 then [0x10, 0x70, 0x70]
    else if range == 6 then [0x70, 0x70, 0x70]
    else if range == 10 then [0x20, 0x70]
    else if range == 11 then [0x60, 0x70, 0x70]
    else []
  }

  /** `(0xFF >> type) & c`: the bits of the code point in a leading byte of this class. */
  function LeadingBits(range: nat, c: char): nat {
    var b := c as int;
    if range == 2 then b % 64
    else if range == 3 then b % 32
    else if range == 4 then b % 16
    else if range == 5 then b % 8
    else if range == 6 then b % 4
    else 0
  }

  // ---------------------------------------------------------------------------------------------
  // Decoding
  // ---------------------------------------------------------------------------------------------

  datatype Decoded = Decoded(ok: bool, codepoint: nat, rest: string)

  /** One byte after the leading one, tested against its mask. It is taken even when the test fails. */
  function DecodeNext(d: Decoded, mask: nat): Decoded {
    var c := Peek(d.rest);
    Decoded(d.ok && InMask(c, mask), d.codepoint * 64 + c as int % 64, Rest(d.rest))
  }

  function DecodeTail(masks: seq<nat>, d: Decoded): Decoded
    requires |masks| <= 3
  {
    if |masks| == 0 then d
    else if |masks| == 1 then DecodeNext(d, masks[0])
    else if |masks| == 2 then DecodeNext(DecodeNext(d, masks[0]), masks[1])
    else DecodeNext(DecodeNext(DecodeNext(d, masks[0]), masks[1]), masks[2])
  }

  function DecodeOne(s: string): Decoded {
    var c := Peek(s);
    var range := GetRange(c);
    if c as int < 0x80 then Decoded(true, c as int, Rest(s))
    else DecodeTail(Masks(range), Decoded(Masks(range) != [], LeadingBits(range, c), Rest(s)))
  }

  /** One continuation byte: copy it into the code point and test its class. */
  method DecodeByte(input: InputStream, codepoint: nat, result: bool, mask: nat) returns (cp: nat, ok: bool)
    modifies input
    ensures Decoded(ok, cp, input.src) == DecodeNext(Decoded(result, codepoint, old(input.src)), mask)
  {
    var c := input.Take();
    cp := codepoint * 64 + c as int % 64;
    ok := result && InMask(c, mask);
  }

  method Decode(input: InputStream) returns (ok: bool, codepoint: nat)
    modifies input
    ensures Decoded(ok, codepoint, input.src) == DecodeOne(old(input.src))
  {
    hide InMask;
    var c := input.Take();
    if c as int < 0x80 {
      return true, c as int;
    }
    var range := GetRange(c);
    codepoint := LeadingBits(range, c);
    ok := true;
    if range == 2 {
      codepoint, ok := DecodeByte(input, codepoint, ok, 0x70);
    } else if range == 3 {
      codepoint, ok := DecodeByte(input, codepoint, ok, 0x70);
      codepoint, ok := DecodeByte(input, codepoint, ok, 0x70);
    } else if range == 4 {
      codepoint, ok := DecodeByte(input, codepoint, ok, 0x50);
      codepoint, ok := DecodeByte(input, codepoint, ok, 0x70);
    } else if range == 5 {
      codepoint, ok := DecodeByte(input, codepoint, ok, 0x10);
      codepoint, ok := DecodeByte(input, codepoint, ok, 0x70);
      codepoint, ok := DecodeByte(input, codepoint, ok, 0x70);
    } else if range == 6 {
      codepoint, ok := DecodeByte(input, codepoint, ok, 0x70);
      codepoint, ok := DecodeByte(input, codepoint, ok, 0x70);
      codepoint, ok := DecodeByte(input, codepoint, ok, 0x70);
    } else if range == 10 {
      codepoint, ok := DecodeByte(input, codepoint, ok, 0x20);
      codepoint, ok := DecodeByte(input, codepoint, ok, 0x70);
    } else if range == 11 {
      codepoint, ok := DecodeByte(input, codepoint, ok, 0x60);
      codepoint, ok := DecodeByte(input, codepoint, ok, 0x70);
      codepoint, ok := DecodeByte(input, codepoint, ok, 0x70);
    } else {
      ok := false;
    }
  }

  // ---------------------------------------------------------------------------------------------
  // Validating
  // ---------------------------------------------------------------------------------------------

  datatype Validated = Validated(ok: bool, text: string, rest: string)

  /** One byte after the leading one: copied, and tested against its mask. */
  function ValidateNext(v: Validated, mask: nat): Validated {
    var c := Peek(v.rest);
    Validated(v.ok && InMask(c, mask), v.text + [c], Rest(v.rest))
  }

  function ValidateTail(masks: seq<nat>, v: Validated): Validated
    requires |masks| <= 3
  {
    if |masks| == 0 then v
    else if |masks| == 1 then ValidateNext(v, masks[0])
    else if |masks| == 2 then ValidateNext(ValidateNext(v, masks[0]), masks[1])
    else ValidateNext(ValidateNext(ValidateNext(v, masks[0]), masks[1]), masks[2])
  }

  /** Validating one code point of `s` while writing after `text`. */
  function ValidateOne(s: string, text: string): Validated {
    var c := Peek(s);
    if c as int < 0x80 then Validated(true, text + [c], Rest(s))
    else
      var masks := Masks(GetRange(c));
      ValidateTail(masks, Validated(masks != [], text + [c], Rest(s)))
  }

  method ValidateByte(input: InputStream, output: OutputStream, result: bool, mask: nat) returns (ok: bool)
    modifies input, output
    ensures Validated(ok, output.text, input.src)
            == ValidateNext(Validated(result, old(output.text), old(input.src)), mask)
  {
    var c := input.Take();
    output.Put(c);
    ok := result && InMask(c, mask);
  }

  method Validate(input: InputStream, output: OutputStream) returns (ok: bool)
    modifies input, output
    ensures Validated(ok, output.text, input.src) == ValidateOne(old(input.src), old(output.text))
  {
    hide InMask;
    var c := input.Take();
    output.Put(c);
    if c as int < 0x80 {
      return true;
    }
    ok := true;
    var range := GetRange(c);
    if range == 2 {
      ok := ValidateByte(input, output, ok, 0x70);
    } else if range == 3 {
      ok := ValidateByte(input, output, ok, 0x70);
      ok := ValidateByte(input, output, ok, 0x70);
    } else if range == 4 {
      ok := ValidateByte(input, output, ok, 0x50);
      ok := ValidateByte(input, output, ok, 0x70);
    } else if range == 5 {
      ok := ValidateByte(input, output, ok, 0x10);
      ok := ValidateByte(input, output, ok, 0x70);
      ok := ValidateByte(input, output, ok, 0x70);
    } else if range == 6 {
      ok := ValidateByte(input, output, ok, 0x70);
      ok := ValidateByte(input, output, ok, 0x70);
      ok := ValidateByte(input, output, ok, 0x70);
    } else if range == 10 {
      ok := ValidateByte(input, output, ok, 0x20);
      ok := ValidateByte(input, output, ok, 0x70);
    } else if range == 11 {
      ok := ValidateByte(input, output, ok, 0x60);
      ok := ValidateByte(input, output, ok, 0x70);
      ok := ValidateByte(input, output, ok, 0x70);
    } else {
      ok := false;
    }
  }

  // ---------------------------------------------------------------------------------------------
  // The encoder, the decoder and the validator agree
  // ---------------------------------------------------------------------------------------------

  /** The next `n` bytes as `Take` delivers them. */
  function Taken(s: string, n: nat): (t: string)
    ensures |t| == n
  {
    seq(n, i => if 0 <= i < |s| then s[i] else '\0')
  }

  /** How many bytes one call of the decoder or the validator takes. */
  function Length(s: string): (n: nat)
    ensures 1 <= n <= 4
  {
    if Peek(s) as int < 0x80 then 1 else 1 + |Masks(GetRange(Peek(s)))|
  }

  /** Where a stream stands after `n` bytes were taken. */
  function Skip(s: string, n: nat): string {
    s[if n <= |s| then n else |s|..]
  }

  /** A decoder of `name` and one of `name` with more text behind it, which starts with a zero, after `n` bytes. */
  predicate SameSoFar(name: string, behind: string, n: nat, d: Decoded, e: Decoded) {
    d.ok == e.ok
    && (d.ok ==> n <= |name| && d.codepoint == e.codepoint && d.rest == name[n..] && e.rest == name[n..] + behind)
  }

  lemma StepBefore(name: string, behind: string, n: nat, d: Decoded, e: Decoded, mask: nat)
    requires SameSoFar(name, behind, n, d, e) && behind != "" && behind[0] == '\0'
    ensures SameSoFar(name, behind, n + 1, DecodeNext(d, mask), DecodeNext(e, mask))
  {
    if d.ok && n < |name| {
      assert e.rest[1..] == name[n + 1..] + behind;
    }
  }

  /** A zero ends a name for the decoder: whatever is behind it, the outcome is that of the name alone, and a code
      point that is accepted lies in front of it. */
  lemma ZeroEndsName(name: string, behind: string)
    requires name != "" && behind != "" && behind[0] == '\0'
    ensures DecodeOne(name + behind).ok == DecodeOne(name).ok && Length(name + behind) == Length(name)
    ensures DecodeOne(name).ok ==>
              && Length(name) <= |name| && DecodeOne(name + behind).codepoint == DecodeOne(name).codepoint
              && DecodeOne(name + behind).rest == DecodeOne(name).rest + behind
  {
    hide DecodeNext, GetRange, Masks, LeadingBits;
    var c := name[0];
    var masks := Masks(GetRange(c));
    var bits := LeadingBits(GetRange(c), c);
    assert (name + behind)[1..] == name[1..] + behind;
    if c as int >= 0x80 {
      var d, e := Decoded(masks != [], bits, name[1..]), Decoded(masks != [], bits, name[1..] + behind);
      TailBefore(name, behind, d, e, masks);
    }
  }

  lemma TailBefore(name: string, behind: string, d: Decoded, e: Decoded, masks: seq<nat>)
    requires SameSoFar(name, behind, 1, d, e) && behind != "" && behind[0] == '\0' && |masks| <= 3
    ensures SameSoFar(name, behind, 1 + |masks|, DecodeTail(masks, d), DecodeTail(masks, e))
  {
    hide SameSoFar, DecodeNext;
    if |masks| >= 1 {
      StepBefore(name, behind, 1, d, e, masks[0]);
      var d1, e1 := DecodeNext(d, masks[0]), DecodeNext(e, masks[0]);
      if |masks| >= 2 {
        StepBefore(name, behind, 2, d1, e1, masks[1]);
        var d2, e2 := DecodeNext(d1, masks[1]), DecodeNext(e1, masks[1]);
        if |masks| == 3 {
          StepBefore(name, behind, 3, d2, e2, masks[2]);
        }
      }
    }
  }

  lemma TakeOneMore(s: string, n: nat)
    ensures Taken(s, n + 1) == Taken(s, n) + [Peek(Skip(s, n))]
    ensures Rest(Skip(s, n)) == Skip(s, n + 1)
  {
  }

  /** A decoder and a validator that took the same `n` bytes of `s`. */
  predicate InStep(s: string, n: nat, d: Decoded, v: Validated, text: string) {
    d.ok == v.ok && d.rest == v.rest == Skip(s, n) && v.text == text + Taken(s, n)
  }

  lemma StepTogether(s: string, n: nat, d: Decoded, v: Validated, text: string, mask: nat)
    requires InStep(s, n, d, v, text)
    ensures InStep(s, n + 1, DecodeNext(d, mask), ValidateNext(v, mask), text)
  {
    hide InMask;
    TakeOneMore(s, n);
    assert text + Taken(s, n) + [Peek(Skip(s, n))] == text + (Taken(s, n) + [Peek(Skip(s, n))]);
  }

  lemma TailTogether(s: string, n: nat, d: Decoded, v: Validated, text: string, masks: seq<nat>)
    requires InStep(s, n, d, v, text) && |masks| <= 3
    ensures InStep(s, n + |masks|, DecodeTail(masks, d), ValidateTail(masks, v), text)
  {
    hide InStep, DecodeNext, ValidateNext;
    if |masks| >= 1 {
      StepTogether(s, n, d, v, text, masks[0]);
      var d1, v1 := DecodeNext(d, masks[0]), ValidateNext(v, masks[0]);
      if |masks| >= 2 {
        StepTogether(s, n + 1, d1, v1, text, masks[1]);
        var d2, v2 := DecodeNext(d1, masks[1]), ValidateNext(v1, masks[1]);
        if |masks| >= 3 {
          StepTogether(s, n + 2, d2, v2, text, masks[2]);
        }
      }
    }
  }

  /** The validator accepts what the decoder accepts, stops where it stops, and copies exactly the bytes
      it takes, even those of a sequence it rejects. */
  lemma ValidateAgrees(s: string, text: string)
    ensures ValidateOne(s, text).ok == DecodeOne(s).ok
    ensures ValidateOne(s, text).rest == DecodeOne(s).rest == Skip(s, Length(s))
    ensures ValidateOne(s, text).text == text + Taken(s, Length(s))
  {
    hide DecodeTail, ValidateTail, Masks, GetRange;
    var c := Peek(s);
    TakeOneMore(s, 0);
    assert Taken(s, 0) == "" && Skip(s, 0) == s;
    if c as int >= 0x80 {
      var masks := Masks(GetRange(c));
      TailTogether(s, 1, Decoded(masks != [], LeadingBits(GetRange(c), c), Rest(s)),
                   Validated(masks != [], text + [c], Rest(s)), text, masks);
    }
  }

  lemma TailByte(n: nat)
    ensures 0x80 <= Tail(n) as int < 0xC0 && Tail(n) as int % 64 == n % 64
  {
  }

  /** The bytes after the leading one are the tails of the code point. */
  lemma DecodeTailByte(d: Decoded, n: nat, rest: string, mask: nat)
    requires d.rest == [Tail(n)] + rest && d.codepoint == n / 64
    ensures DecodeNext(d, mask) == Decoded(d.ok && InMask(Tail(n), mask), n, rest)
  {
    hide InMask;
    TailByte(n);
    assert d.rest[1..] == rest;
  }

  lemma DecodeTwo(codepoint: nat, rest: string)
    requires 0x80 <= codepoint <= 0x7FF
    ensures DecodeOne(Encoding(codepoint) + rest) == Decoded(true, codepoint, rest)
  {
    hide InMask, DecodeNext;
    var s := Encoding(codepoint) + rest;
    var lead := GetRange(s[0]);
    assert Rest(s) == [Tail(codepoint)] + rest;
    DecodeTailByte(Decoded(true, LeadingBits(lead, s[0]), Rest(s)), codepoint, rest, 0x70);
    MasksMean(Tail(codepoint));
  }

  lemma DecodeThree(codepoint: nat, rest: string)
    requires IsScalarValue(codepoint) && 0x800 <= codepoint <= 0xFFFF
    ensures DecodeOne(Encoding(codepoint) + rest) == Decoded(true, codepoint, rest)
  {
    hide InMask, DecodeNext;
    var s := Encoding(codepoint) + rest;
    var lead := GetRange(s[0]);
    var r1 := [Tail(codepoint)] + rest;
    assert Rest(s) == [Tail(codepoint / 64)] + r1;
    assert LeadingBits(lead, s[0]) == codepoint / 64 / 64;
    DecodeTailByte(Decoded(true, LeadingBits(lead, s[0]), Rest(s)), codepoint / 64, r1, Masks(lead)[0]);
    SecondOfThree(codepoint);
    DecodeTailByte(Decoded(true, codepoint / 64, r1), codepoint, rest, 0x70);
    MasksMean(Tail(codepoint));
  }

  lemma DecodeFour(codepoint: nat, rest: string)
    requires 0x10000 <= codepoint <= 0x10FFFF
    ensures DecodeOne(Encoding(codepoint) + rest) == Decoded(true, codepoint, rest)
  {
    hide InMask, DecodeNext;
    var s := Encoding(codepoint) + rest;
    var lead := GetRange(s[0]);
    var r2 := [Tail(codepoint)] + rest;
    var r1 := [Tail(codepoint / 64)] + r2;
    assert Rest(s) == [Tail(codepoint / 4096)] + r1;
    assert LeadingBits(lead, s[0]) == codepoint / 4096 / 64;
    DecodeTailByte(Decoded(true, LeadingBits(lead, s[0]), Rest(s)), codepoint / 4096, r1, Masks(lead)[0]);
    SecondOfFour(codepoint);
    DecodeTailByte(Decoded(true, codepoint / 4096, r1), codepoint / 64, r2, 0x70);
    DecodeTailByte(Decoded(true, codepoint / 64, r2), codepoint, rest, 0x70);
    MasksMean(Tail(codepoint / 64));
    MasksMean(Tail(codepoint));
  }

  /** `Decode` inverts `Encode`. */
  lemma DecodeInvertsEncode(codepoint: nat, rest: string)
    requires IsScalarValue(codepoint)
    ensures DecodeOne(Encoding(codepoint) + rest) == Decoded(true, codepoint, rest)
  {
    hide DecodeTail, Masks;
    if codepoint <= 0x7F {
      assert (Encoding(codepoint) + rest)[1..] == rest;
    } else if codepoint <= 0x7FF {
      DecodeTwo(codepoint, rest);
    } else if codepoint <= 0xFFFF {
      DecodeThree(codepoint, rest);
    } else {
      DecodeFour(codepoint, rest);
    }
  }

  /** The second byte of three or four passes the narrower mask that its leading byte sets. */
  lemma SecondOfThree(codepoint: nat)
    requires IsScalarValue(codepoint) && 0x800 <= codepoint <= 0xFFFF
    ensures InMask(Tail(codepoint / 64), Masks(GetRange(Encoding(codepoint)[0]))[0])
  {
    hide InMask;
    MasksMean(Tail(codepoint / 64));
  }

  lemma SecondOfFour(codepoint: nat)
    requires 0x10000 <= codepoint <= 0x10FFFF
    ensures InMask(Tail(codepoint / 4096), Masks(GetRange(Encoding(codepoint)[0]))[0])
  {
    hide InMask;
    MasksMean(Tail(codepoint / 4096));
  }

  /** An accepted byte after the leading one is the tail of the code point it completes. */
  lemma TailBack(d: Decoded, mask: nat)
    requires mask == 0x70 || mask == 0x50 || mask == 0x10 || mask == 0x20 || mask == 0x60
    requires DecodeNext(d, mask).ok
    ensures var n := DecodeNext(d, mask).codepoint;
            d.ok && d.rest == [Tail(n)] + DecodeNext(d, mask).rest && n / 64 == d.codepoint
            && InMask(Tail(n), mask)
  {
    hide InMask;
    MasksMean(Peek(d.rest));
    var c := Peek(d.rest) as int;
    assert Tail(d.codepoint * 64 + c % 64) as int == 0x80 + c % 64 == c;
  }

  lemma TwoBytesBack(s: string, d0: Decoded)
    requires s != "" && GetRange(s[0]) == 2 && d0 == Decoded(true, s[0] as int % 64, s[1..])
    requires DecodeNext(d0, 0x70).ok
    ensures var d := DecodeNext(d0, 0x70); IsScalarValue(d.codepoint) && s == Encoding(d.codepoint) + d.rest
  {
    hide InMask, DecodeNext;
    TailBack(d0, 0x70);
    var d := DecodeNext(d0, 0x70);
    assert s == [s[0]] + ([Tail(d.codepoint)] + d.rest);
  }

  lemma ThreeBytesBack(s: string, d0: Decoded, mask: nat)
    requires s != "" && var r := GetRange(s[0]); r in {3, 4, 10} && mask == Masks(r)[0]
    requires d0 == Decoded(true, LeadingBits(GetRange(s[0]), s[0]), s[1..])
    requires DecodeNext(DecodeNext(d0, mask), 0x70).ok
    ensures var d := DecodeNext(DecodeNext(d0, mask), 0x70);
            IsScalarValue(d.codepoint) && s == Encoding(d.codepoint) + d.rest
  {
    hide InMask, DecodeNext;
    var d1 := DecodeNext(d0, mask);
    var d := DecodeNext(d1, 0x70);
    TailBack(d1, 0x70);
    TailBack(d0, mask);
    MasksMean(Tail(d1.codepoint));
    TailByte(d1.codepoint);
    assert s == [s[0]] + ([Tail(d1.codepoint)] + ([Tail(d.codepoint)] + d.rest));
    assert d.codepoint / 4096 == d0.codepoint == s[0] as int - 0xE0;
    assert d1.codepoint == d0.codepoint * 64 + d1.codepoint % 64;
  }

  lemma FourBytesBack(s: string, d0: Decoded, mask: nat)
    requires s != "" && var r := GetRange(s[0]); r in {5, 6, 11} && mask == Masks(r)[0]
    requires d0 == Decoded(true, LeadingBits(GetRange(s[0]), s[0]), s[1..])
    requires DecodeNext(DecodeNext(DecodeNext(d0, mask), 0x70), 0x70).ok
    ensures var d := DecodeNext(DecodeNext(DecodeNext(d0, mask), 0x70), 0x70);
            IsScalarValue(d.codepoint) && s == Encoding(d.codepoint) + d.rest
  {
    hide InMask, DecodeNext;
    var d1 := DecodeNext(d0, mask);
    var d2 := DecodeNext(d1, 0x70);
    var d := DecodeNext(d2, 0x70);
    TailBack(d2, 0x70);
    TailBack(d1, 0x70);
    TailBack(d0, mask);
    MasksMean(Tail(d1.codepoint));
    TailByte(d1.codepoint);
    assert s == [s[0]] + ([Tail(d1.codepoint)] + ([Tail(d2.codepoint)] + ([Tail(d.codepoint)] + d.rest)));
    assert d.codepoint / 262144 == d0.codepoint == s[0] as int - 0xF0;
    assert d1.codepoint == d0.codepoint * 64 + d1.codepoint % 64;
  }

  /** Whatever `Decode` accepts is the encoding of its result. */
  lemma EncodeInvertsDecode(s: string)
    requires DecodeOne(s).ok && s != ""
    ensures var d := DecodeOne(s); IsScalarValue(d.codepoint) && s == Encoding(d.codepoint) + d.rest
  {
    hide InMask, DecodeNext, Encoding, GetRange, LeadingBits;
    var range := GetRange(s[0]);
    var d0 := Decoded(true, LeadingBits(range, s[0]), s[1..]);
    if s[0] as int < 0x80 {
      assert s == [s[0]] + s[1..];
      OneByteEncoding(s[0] as int);
    } else if range == 2 {
      LeadingOfTwo(s[0]);
      TwoBytesBack(s, d0);
    } else if range in {3, 4, 10} {
      ThreeBytesBack(s, d0, Masks(range)[0]);
    } else if range in {5, 6, 11} {
      FourBytesBack(s, d0, Masks(range)[0]);
    }
  }

  lemma OneByteEncoding(codepoint: nat)
    requires codepoint < 0x80
    ensures Encoding(codepoint) == [codepoint as char]
  {
  }

  lemma LeadingOfTwo(c: char)
    ensures LeadingBits(2, c) == c as int % 64
  {
  }

  // ---------------------------------------------------------------------------------------------
  // Sequences of code points
  // ---------------------------------------------------------------------------------------------

  predicate AreScalarValues(codepoints: seq<nat>) {
    forall i :: 0 <= i < |codepoints| ==> IsScalarValue(codepoints[i])
  }

  function EncodeAll(codepoints: seq<nat>): (s: string)
    requires forall i :: 0 <= i < |codepoints| ==> codepoints[i] <= 0x10FFFF
  {
    if codepoints == [] then "" else Encoding(codepoints[0]) + EncodeAll(codepoints[1..])
  }

  datatype Text = Text(ok: bool, codepoints: seq<nat>)

  lemma DecodeAdvances(s: string)
    requires s != ""
    ensures |DecodeOne(s).rest| < |s|
  {
    hide InMask, Masks;
  }

  /** Decoding until the end of the text. */
  function DecodeAll(s: string): Text
    decreases |s|
  {
    if s == "" then Text(true, [])
    else
      var d := DecodeOne(s);
      DecodeAdvances(s);
      if !d.ok then Text(false, [])
      else var t := DecodeAll(d.rest); Text(t.ok, [d.codepoint] + t.codepoints)
  }

  lemma {:induction false} DecodeAllInvertsEncodeAll(codepoints: seq<nat>)
    requires AreScalarValues(codepoints)
    ensures DecodeAll(EncodeAll(codepoints)) == Text(true, codepoints)
  {
    hide DecodeOne, Encoding;
    if codepoints != [] {
      DecodeInvertsEncode(codepoints[0], EncodeAll(codepoints[1..]));
      DecodeAllInvertsEncodeAll(codepoints[1..]);
    }
  }

  /** The well-formed texts are exactly the encodings of sequences of scalar values. */
  lemma {:induction false} EncodeAllInvertsDecodeAll(s: string)
    requires DecodeAll(s).ok
    ensures AreScalarValues(DecodeAll(s).codepoints)
    ensures s == EncodeAll(DecodeAll(s).codepoints)
    decreases |s|
  {
    hide DecodeOne, Encoding;
    if s != "" {
      DecodeAdvances(s);
      EncodeInvertsDecode(s);
      var d := DecodeOne(s);
      EncodeAllInvertsDecodeAll(d.rest);
      assert DecodeAll(s).codepoints[1..] == DecodeAll(d.rest).codepoints;
    }
  }
}
