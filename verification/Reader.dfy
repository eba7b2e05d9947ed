/**
 `GenericReader` of 3rdparty/rapidjson/reader.h: the object that reads a text, records the events it
 announces to its handler, and remembers whether a parse error occurred. `Parse` recurses, `IterativeParse`
 drives the automaton; both are proved against the grammar.
 */
module Reader {
  import opened Json
  import opened Streams
  import opened JsonText
  import opened JsonGrammar
  import A = JsonAutomaton
  import R = JsonReaders
  import Utf8

  type uint32 = n: int | 0 <= n <= 0xFFFF_FFFF
  type uint64 = n: int | 0 <= n <= 0xFFFF_FFFF_FFFF_FFFF

  predicate IsInt32(n: int) {
    -0x8000_0000 <= n <= 0x7FFF_FFFF
  }

  // ---------------------------------------------------------------------------------------------
  // Arithmetic of numerals
  // ---------------------------------------------------------------------------------------------

  lemma NextDigit(ds: string, k: nat)
    requires AreDigits(ds) && k < |ds|
    ensures Value(ds[..k + 1]) == Value(ds[..k]) * 10 + Digit(ds[k])
  {
    assert ds[..k + 1][..k] == ds[..k];
  }

  lemma {:induction false} ValueGrows(ds: string, k: nat)
    requires AreDigits(ds) && k <= |ds|
    ensures Value(ds[..k]) <= Value(ds)
    decreases |ds|
  {
    if k < |ds| {
      ValueGrows(ds[..|ds| - 1], k);
      assert ds[..|ds| - 1][..k] == ds[..k];
    } else {
      assert ds[..k] == ds;
    }
  }

  function Power10(n: nat): (p: nat)
    ensures p >= 1
  {
    if n == 0 then 1 else 10 * Power10(n - 1)
  }

  lemma {:induction false} ValueBound(ds: string)
    requires AreDigits(ds)
    ensures Value(ds) < Power10(|ds|)
    decreases |ds|
  {
    if ds != "" {
      ValueBound(ds[..|ds| - 1]);
    }
  }

  lemma {:induction false} Power10Grows(m: nat, n: nat)
    requires m <= n
    ensures Power10(m) <= Power10(n)
  {
    if m < n {
      Power10Grows(m, n - 1);
    }
  }

  lemma Power17()
    ensures Power10(17) == 100_000_000_000_000_000
  {
    assert Power10(3) == 1000 && Power10(6) == 1_000_000;
    assert Power10(9) == 1_000_000_000 && Power10(12) == 1_000_000_000_000;
    assert Power10(15) == 1_000_000_000_000_000;
  }

  /** A numeral of at least 10^17 has at least 18 digits. */
  lemma ManyDigits(ds: string)
    requires AreDigits(ds)
    ensures |ds| <= 17 ==> Value(ds) < 100_000_000_000_000_000
  {
    ValueBound(ds);
    Power17();
    if |ds| <= 17 {
      Power10Grows(|ds|, 17);
    }
  }

  lemma SmallNumerals(c: char)
    requires IsDigit(c)
    ensures Value("") == 0 && Value([c]) == Digit(c)
  {
    NextDigit([c], 0);
    assert [c][..0] == "" && [c][..1] == [c];
  }

  /** The digits at the front of `s`, of which `k` were consumed. */
  lemma DigitAhead(s: string, k: nat)
    requires k <= |Digits(s)|
    ensures IsDigit(Peek(s[k..])) <==> k < |Digits(s)|
    ensures k < |Digits(s)| ==> Peek(s[k..]) == Digits(s)[k] && s[k..] != "" && s[k..][1..] == s[k + 1..]
  {
  }

  /** The digits after a decimal point. */
  function FractionDigits(s: string): string {
    if Peek(s) == '.' then Digits(s[1..]) else ""
  }

  /** How many fraction digits the number at the front of `s` has. */
  function FractionLength(s: string): nat {
    var digits := IntegerAt(if Peek(s) == '-' then s[1..] else s);
    if digits.Failed? then 0 else |FractionDigits(digits.rest)|
  }

  /** Up to this many fraction digits no `int` of the number parser overflows. */
  const FRACTION_LIMIT := 200_000_000

  lemma NumberParts(f: Flags, s: string)
    ensures NumberAt(f, s) ==
            var minus := Peek(s) == '-';
            var unsigned := if minus then s[1..] else s;
            var i := IntegerAt(unsigned);
            if i.Failed? || FractionAt(i.rest).Failed? then Failed
            else
              var r := FractionAt(i.rest);
              var e := ExponentAt(r.rest);
              if e.Failed? then Failed
              else
                var n := Denoted(f, Literal(minus, i.value, r.value, e.value), unsigned[..|unsigned| - |e.rest|]);
                if n.None? then Failed else Parsed(n.value, e.rest)
  {
    hide IntegerAt, FractionAt, ExponentAt, Denoted;
  }

  lemma ScaleSlow(i: nat, digits: int, fraction: string)
    requires AreDigits(fraction) && fraction != "" && i <= FAST_PATH
    ensures var j := i * 10 + Digit(fraction[0]);
            Scale(i, digits, fraction) == Scale(j, if j != 0 then digits + 1 else digits, fraction[1..]) - 1
  {
  }

  lemma ScaleFast(i: nat, digits: int, fraction: string)
    requires AreDigits(fraction) && fraction != "" && i > FAST_PATH
    ensures Scale(i, digits, fraction)
            == if digits < 17 then Scale(i, digits + 1, fraction[1..]) - 1 else Scale(i, digits, fraction[1..])
  {
  }

  lemma ScaleOfNothing(i: nat, digits: int)
    ensures Scale(i, digits, "") == 0
  {
  }

  /** `n / 10`, truncated toward zero. */
  function TruncatedTenth(n: int): (r: int)
    ensures if n < 0 then n <= 10 * r < n + 10 else n - 10 < 10 * r <= n
  {
    if n < 0 then -(-n / 10) else n / 10
  }

  /** The bound from which on digits of a negative exponent are skipped. */
  function MaxExponent(expFrac: int): int {
    TruncatedTenth(expFrac + 2147483639)
  }

  /** The numeral, or its first prefix of more than `k` digits that exceeds `limit`. It is the numeral's value unless
      that exceeds the limit; then it exceeds the limit as well and is no larger. */
  function Clamped(ds: string, k: nat, limit: int): (n: nat)
    requires AreDigits(ds) && k <= |ds|
    requires k > 1 ==> Value(ds[..k]) <= limit
    ensures if Value(ds) <= limit then n == Value(ds) else limit < n <= Value(ds)
    decreases |ds| - k
  {
    ValueGrows(ds, k);
    if k == |ds| then
      assert ds[..k] == ds;
      Value(ds)
    else
      ValueGrows(ds, k + 1);
      if Value(ds[..k + 1]) > limit then Value(ds[..k + 1]) else Clamped(ds, k + 1, limit)
  }

  lemma ClampedStep(ds: string, k: nat, limit: int)
    requires AreDigits(ds) && k < |ds| && (k > 1 ==> Value(ds[..k]) <= limit)
    ensures Clamped(ds, k, limit)
            == if Value(ds[..k + 1]) > limit then Value(ds[..k + 1]) else Clamped(ds, k + 1, limit)
  {
    hide Value;
  }

  lemma ClampedEnd(ds: string, limit: int)
    requires AreDigits(ds) && (|ds| > 1 ==> Value(ds) <= limit)
    ensures ds[..|ds|] == ds && Clamped(ds, |ds|, limit) == Value(ds)
  {
    hide Value;
    assert ds[..|ds|] == ds;
  }

  /** The exponent that the parser goes on with: the one spelled, except that a negative one is clamped. */
  function ExponentOf(e: Option<Exponent>, expFrac: int): int
    requires e.Some? ==> AreDigits(e.value.digits) && e.value.digits != ""
  {
    if e.None? then 0
    else if e.value.minus then 0 - Clamped(e.value.digits, 1, MaxExponent(expFrac))
    else Value(e.value.digits)
  }

  /** The hexadecimal numeral in the first `n` characters. */
  function HexPrefix(s: string, n: nat): nat
    requires n <= |s| && forall k :: 0 <= k < n ==> IsHexDigit(s[k])
  {
    if n == 0 then 0 else HexPrefix(s, n - 1) * 16 + HexValue(s[n - 1])
  }

  lemma EscapeIsNoEnd()
    ensures Escape('\0') == '\0'
  {
  }

  /** One turn of the array loop. */
  lemma ElementsStep(f: Flags, s: string, es: seq<Json>)
    ensures ElementsAt(f, s, es) ==
            var v := ValueAt(f, s);
            if v.Failed? || Skip(f, v.rest).None? then Failed
            else
              var after := Skip(f, v.rest).value;
              if Peek(after) == ']' then Parsed(es + [v.value], after[1..])
              else if Peek(after) != ',' || Skip(f, after[1..]).None? then Failed
              else
                var next := Skip(f, after[1..]).value;
                if f.trailingCommas && Peek(next) == ']' then Parsed(es + [v.value], next[1..])
                else ElementsAt(f, next, es + [v.value])
  {
    hide ValueAt, Skip;
  }

  /** One turn of the object loop. */
  lemma MembersStep(f: Flags, s: string, ms: seq<Member>)
    ensures MembersAt(f, s, ms) ==
            var m := MemberAt(f, s);
            if m.Failed? then Failed
            else
              if Peek(m.rest) == '}' then Parsed(ms + [m.value], m.rest[1..])
              else if Peek(m.rest) != ',' || Skip(f, m.rest[1..]).None? then Failed
              else
                var next := Skip(f, m.rest[1..]).value;
                if f.trailingCommas && Peek(next) == '}' then Parsed(ms + [m.value], next[1..])
                else MembersAt(f, next, ms + [m.value])
  {
    hide MemberAt, Skip;
  }

  lemma QuoteIsString(c: char)
    ensures A.Tokenize(c).StringToken? ==> c == '\"'
  {
  }

  lemma CoherentStart()
    ensures A.Coherent(A.Start, [])
  {
  }

  lemma NoElements()
    ensures ElementEvents([]) == []
  {
  }

  lemma NoMembers()
    ensures MemberEvents([]) == []
  {
  }

  class GenericReader {
    const flags: Flags
    /** The text still to be read. */
    var src: string
    /** The events announced so far. */
    var events: seq<Event>
    var hasParseError: bool
    /** The automaton's stack. */
    var stack: seq<A.Frame>

    constructor (flags: Flags, text: string)
      ensures this.flags == flags && src == text && events == [] && !hasParseError && stack == []
    {
      this.flags := flags;
      src := text;
      events := [];
      hasParseError := false;
      stack := [];
    }

    method Take() returns (c: char)
      requires src != ""
      modifies this`src
      ensures c == old(src)[0] && src == old(src)[1..]
    {
      c := src[0];
      src := src[1..];
    }

    /** `Consume`: take the next character if it is the expected one. */
    method Consume(wanted: char) returns (ok: bool)
      requires wanted != '\0'
      modifies this`src
      ensures ok == (Peek(old(src)) == wanted)
      ensures src == if ok then old(src)[1..] else old(src)
    {
      ok := Peek(src) == wanted;
      if ok {
        src := src[1..];
      }
    }

    // -------------------------------------------------------------------------------------------
    // Numbers
    // -------------------------------------------------------------------------------------------

    /** The integer part: 32 bits, then 64 bits, then a double. */
    method ParseInteger(minus: bool)
      returns (i: uint32, i64: uint64, use64bit: bool, useDouble: bool, significandDigit: int)
      requires !hasParseError
      modifies this
      ensures events == old(events) && stack == old(stack)
      ensures hasParseError == IntegerAt(old(src)).Failed?
      ensures !hasParseError ==>
                var r := IntegerAt(old(src)); var n := Value(r.value);
                && src == r.rest
                && (Exact(minus, n).Some? ==> !useDouble && significandDigit == |r.value| - 1
                                              && n == if use64bit then i64 else i)
                && (Exact(minus, n).Some? ==> use64bit == (n > if minus then 0x8000_0000 else 0xFFFF_FFFF))
                && (Exact(minus, n).None? ==> useDouble && significandDigit >= 17)
    {
      hide Value, Digits, FractionAt, ExponentAt;
      i, i64, use64bit, useDouble, significandDigit := 0, 0, false, false, 0;
      ghost var start, ds := src, Digits(src);
      if Peek(src) == '0' {
        src := src[1..];
        SmallNumerals('0');
        assert "0" == ['0'];
      } else if IsDigit(Peek(src)) {
        ghost var k;
        k, i, use64bit, significandDigit := ParseInteger32(minus);
        if use64bit {
          k, i64, useDouble, significandDigit := ParseInteger64(minus, i, significandDigit, start, k);
        }
        // force double for a big integer
        SkipDigits(start, k);
      } else {
        hasParseError := true;
      }
    }

    /** Take the digits that are left of the numeral in `start`. */
    method SkipDigits(ghost start: string, ghost consumed: nat)
      requires consumed <= |Digits(start)| && src == start[consumed..]
      modifies this`src
      ensures src == start[|Digits(start)|..]
    {
      hide Digits;
      ghost var k: nat := consumed;
      while IsDigit(Peek(src))
        invariant k <= |Digits(start)| && src == start[k..]
        decreases |src|
      {
        DigitAhead(start, k);
        src := src[1..];
        k := k + 1;
      }
      DigitAhead(start, k);
    }

    method ParseInteger32(minus: bool) returns (ghost k: nat, i: uint32, use64bit: bool, significandDigit: int)
      requires IsDigit(Peek(src))
      modifies this`src
      ensures 1 <= k <= |Digits(old(src))| && src == old(src)[k..] && significandDigit == k - 1
      ensures i == Value(Digits(old(src))[..k]) && i <= if minus then 0x8000_0000 else 0xFFFF_FFFF
      ensures if use64bit then && k < |Digits(old(src))|
                               && Value(Digits(old(src))) > if minus then 0x8000_0000 else 0xFFFF_FFFF
              else k == |Digits(old(src))| && i == Value(Digits(old(src)))
    {
      hide Value, Digits;
      ghost var start, ds := src, Digits(src);
      DigitAhead(start, 0);
      var c := Take();
      SmallNumerals(c);
      i, use64bit, significandDigit, k := Digit(c), false, 0, 1;
      assert ds[..1] == [c];
      var limit, last := if minus then 214748364 else 429496729, if minus then '8' else '5';
      while IsDigit(Peek(src))
        invariant 1 <= k <= |ds| && src == start[k..] && i == Value(ds[..k]) && significandDigit == k - 1
        invariant i <= limit * 10 + Digit(last)
        invariant !use64bit
        decreases |src|
      {
        DigitAhead(start, k);
        NextDigit(ds, k);
        ValueGrows(ds, k + 1);
        if i >= limit && (i != limit || Peek(src) > last) {
          use64bit := true;
          break;
        }
        c := Take();
        i := i * 10 + Digit(c);
        significandDigit := significandDigit + 1;
        k := k + 1;
      }
      DigitAhead(start, k);
      assert k == |ds| ==> ds[..k] == ds;
    }

    method ParseInteger64(minus: bool, first: uint64, digits: int, ghost start: string, ghost consumed: nat)
      returns (ghost k: nat, i64: uint64, useDouble: bool, significandDigit: int)
      requires consumed <= |Digits(start)| && src == start[consumed..]
      requires first == Value(Digits(start)[..consumed]) && digits == consumed - 1
      requires first <= if minus then 0x8000_0000 else 0xFFFF_FFFF
      modifies this`src
      ensures k <= |Digits(start)| && src == start[k..]
      ensures useDouble ==> k < |Digits(start)| && significandDigit >= 17
      ensures !useDouble ==> k == |Digits(start)| && significandDigit == k - 1 && i64 == Value(Digits(start))
      ensures useDouble <==> Exact(minus, Value(Digits(start))).None?
    {
      hide Value, Digits;
      ghost var ds := Digits(start);
      i64, useDouble, significandDigit, k := first, false, digits, consumed;
      var limit: int := if minus then 0x0CCC_CCCC_CCCC_CCCC else 0x1999_9999_9999_9999;
      var last := if minus then '8' else '5';
      while IsDigit(Peek(src))
        invariant k <= |ds| && src == start[k..] && i64 == Value(ds[..k]) && significandDigit == k - 1
        invariant i64 <= limit * 10 + Digit(last)
        invariant !useDouble
        modifies this`src
        decreases |src|
      {
        DigitAhead(start, k);
        NextDigit(ds, k);
        ValueGrows(ds, k + 1);
        if i64 >= limit && (i64 != limit || Peek(src) > last) {
          ManyDigits(ds[..k]);
          useDouble := true;
          break;
        }
        var c := Take();
        i64 := i64 * 10 + Digit(c);
        significandDigit := significandDigit + 1;
        k := k + 1;
      }
      DigitAhead(start, k);
      assert k == |ds| ==> ds[..k] == ds;
    }

    /** The fraction: its digits enter the significand while that is below 2^53 or has less than 17 digits. */
    method ParseFraction(i: uint32, i64in: uint64, use64bit: bool, bigInteger: bool, digits: int)
      returns (useDouble: bool, expFrac: int, ghost fits: bool)
      requires !hasParseError && (bigInteger ==> digits >= 17)
      modifies this
      ensures events == old(events) && stack == old(stack)
      ensures hasParseError == FractionAt(old(src)).Failed?
      ensures !hasParseError ==>
                var r := FractionAt(old(src));
                && src == r.rest && useDouble == (bigInteger || r.value.Some?)
                && expFrac == (if r.value.None? || bigInteger then 0
                               else Scale(if use64bit then i64in else i, digits, r.value.value))
      ensures |FractionDigits(old(src))| <= FRACTION_LIMIT ==> fits && expFrac >= -FRACTION_LIMIT
    {
      hide Digits, Scale;
      useDouble, expFrac, fits := bigInteger, 0, true;
      var dot := Consume('.');
      if dot {
        DigitAhead(src, 0);
        if !IsDigit(Peek(src)) {
          hasParseError := true;
          return;
        }
        ghost var k, start := 0, src;
        var significandDigit, i64: uint64 := digits, i64in;
        if !useDouble {
          if !use64bit {
            i64 := i;
          }
          k, i64, expFrac, significandDigit, fits := ParseSlowFraction(i64, digits);
          useDouble := true;
        }
        expFrac, fits := ParseFastFraction(i64, expFrac, significandDigit, bigInteger, start, k, fits);
      }
    }

    /** While the significand is below 2^53 every digit enters it. */
    method ParseSlowFraction(i: uint64, digits: int)
      returns (ghost k: nat, i64: uint64, expFrac: int, significandDigit: int, ghost fits: bool)
      modifies this`src
      ensures k <= |Digits(old(src))| && src == old(src)[k..] && 0 - k <= expFrac <= 0
      ensures k < |Digits(old(src))| ==> i64 > FAST_PATH
      ensures Scale(i, digits, Digits(old(src))) == expFrac + Scale(i64, significandDigit, Digits(old(src))[k..])
      ensures |Digits(old(src))| <= FRACTION_LIMIT ==> fits
    {
      hide Digits, Scale;
      ghost var start, ds := src, Digits(src);
      k, i64, expFrac, significandDigit, fits := 0, i, 0, digits, true;
      assert ds[0..] == ds;
      while IsDigit(Peek(src))
        invariant k <= |ds| && src == start[k..] && 0 - k <= expFrac <= 0
        invariant |ds| <= FRACTION_LIMIT ==> fits
        invariant Scale(i, digits, ds) == expFrac + Scale(i64, significandDigit, ds[k..])
        decreases |src|
      {
        DigitAhead(start, k);
        if i64 > FAST_PATH {
          break;
        }
        ScaleSlow(i64, significandDigit, ds[k..]);
        assert ds[k..][1..] == ds[k + 1..];
        var c := Take();
        i64 := i64 * 10 + Digit(c);
        expFrac := expFrac - 1;
        fits := fits && IsInt32(expFrac);
        if i64 != 0 {
          significandDigit := significandDigit + 1;
        }
        k := k + 1;
      }
      DigitAhead(start, k);
    }

    /** From 2^53 on, digits count until 17 are significant; the others are skipped. */
    method ParseFastFraction(ghost i64: uint64, scaled: int, digits: int, bigInteger: bool,
                             ghost start: string, ghost consumed: nat, ghost fitted: bool)
      returns (expFrac: int, ghost fits: bool)
      requires consumed <= |Digits(start)| && src == start[consumed..] && 0 - consumed <= scaled <= 0
      requires if bigInteger then digits >= 17 && scaled == 0 else consumed < |Digits(start)| ==> i64 > FAST_PATH
      modifies this`src
      ensures src == start[|Digits(start)|..] && 0 - |Digits(start)| <= expFrac <= 0
      ensures expFrac == if bigInteger then 0 else scaled + Scale(i64, digits, Digits(start)[consumed..])
      ensures fitted && |Digits(start)| <= FRACTION_LIMIT ==> fits
    {
      hide Digits, Scale;
      ghost var ds := Digits(start);
      ghost var k: nat := consumed;
      expFrac, fits := scaled, fitted;
      var significandDigit := digits;
      while IsDigit(Peek(src))
        invariant k <= |ds| && src == start[k..] && 0 - k <= expFrac <= 0
        invariant fitted && |ds| <= FRACTION_LIMIT ==> fits
        invariant bigInteger ==> expFrac == 0 && significandDigit >= 17
        invariant scaled + Scale(i64, digits, ds[consumed..])
                  == expFrac + Scale(i64, significandDigit, ds[k..]) || bigInteger
        decreases |src|
      {
        DigitAhead(start, k);
        if !bigInteger {
          ScaleFast(i64, significandDigit, ds[k..]);
          assert ds[k..][1..] == ds[k + 1..];
        }
        if significandDigit < 17 {
          expFrac := expFrac - 1;
          fits := fits && IsInt32(expFrac);
          significandDigit := significandDigit + 1;
        }
        src := src[1..];
        k := k + 1;
      }
      DigitAhead(start, k);
      assert ds[k..] == "";
      ScaleOfNothing(i64, significandDigit);
    }

    /** The exponent: a positive one that would overflow a double is an error, a negative one saturates. */
    method ParseExponent(expFrac: int) returns (exp: int, present: bool, ghost fits: bool)
      requires !hasParseError && expFrac <= 0
      modifies this
      ensures events == old(events) && stack == old(stack)
      ensures var r := ExponentAt(old(src));
              && hasParseError == (r.Failed? || (r.value.Some? && !r.value.value.minus
                                                 && Value(r.value.value.digits) > 308 - expFrac))
              && (!hasParseError ==> src == r.rest && present == r.value.Some?)
      ensures !hasParseError ==> exp == ExponentOf(ExponentAt(old(src)).value, expFrac)
      ensures expFrac >= -FRACTION_LIMIT ==> fits && IsInt32(exp) && IsInt32(exp + expFrac)
    {
      hide Digits, Value, Clamped, TruncatedTenth;
      exp, present, fits := 0, false, true;
      var e := Consume('e');
      if !e {
        e := Consume('E');
      }
      if e {
        present := true;
        var expMinus := false;
        var plus := Consume('+');
        if !plus {
          expMinus := Consume('-');
        }
        DigitAhead(src, 0);
        if !IsDigit(Peek(src)) {
          hasParseError := true;
          return;
        }
        if expMinus {
          exp, fits := ParseNegativeExponent(expFrac);
        } else {
          exp, fits := ParsePositiveExponent(expFrac);
        }
      }
    }

    method ParseNegativeExponent(expFrac: int) returns (exp: int, ghost fits: bool)
      requires IsDigit(Peek(src)) && expFrac <= 0
      modifies this`src
      ensures src == old(src)[|Digits(old(src))|..]
      ensures exp == 0 - Clamped(Digits(old(src)), 1, MaxExponent(expFrac))
      ensures expFrac >= -FRACTION_LIMIT ==> fits && IsInt32(exp) && IsInt32(exp + expFrac)
    {
      hide Digits, Value, Clamped;
      ghost var start, ds := src, Digits(src);
      ghost var k: nat := 1;
      DigitAhead(start, 0);
      var c := Take();
      SmallNumerals(c);
      assert ds[..1] == [c];
      exp, fits := Digit(c), true;
      var maxExp := TruncatedTenth(expFrac + 2147483639);
      fits := fits && IsInt32(expFrac + 2147483639);
      ghost var stopped := false;
      while IsDigit(Peek(src))
        invariant 1 <= k <= |ds| && src == start[k..] && exp >= 0
        invariant if stopped then k == |ds| && exp == Clamped(ds, 1, maxExp)
                  else && exp == Value(ds[..k]) && (k > 1 ==> exp <= maxExp)
                       && Clamped(ds, 1, maxExp) == Clamped(ds, k, maxExp)
        invariant expFrac >= -FRACTION_LIMIT ==> fits && exp <= maxExp * 10 + 9
        decreases |src|
        modifies this`src
      {
        DigitAhead(start, k);
        NextDigit(ds, k);
        ClampedStep(ds, k, maxExp);
        fits := fits && IsInt32(exp * 10 + Digit(Peek(src)));
        c := Take();
        exp := exp * 10 + Digit(c);
        k := k + 1;
        if exp > maxExp {
          // consume the rest of the exponent
          SkipDigits(start, k);
          k := |ds|;
          stopped := true;
        }
      }
      DigitAhead(start, k);
      if !stopped {
        assert ds[..k] == ds;
        ClampedEnd(ds, maxExp);
      }
      exp := -exp;
    }

    method ParsePositiveExponent(expFrac: int) returns (exp: int, ghost fits: bool)
      requires !hasParseError && IsDigit(Peek(src)) && expFrac <= 0
      modifies this`src, this`hasParseError
      ensures hasParseError == (Value(Digits(old(src))) > 308 - expFrac)
      ensures !hasParseError ==> src == old(src)[|Digits(old(src))|..] && exp == Value(Digits(old(src)))
      ensures expFrac >= -FRACTION_LIMIT ==> fits && IsInt32(exp) && IsInt32(exp + expFrac)
    {
      hide Digits, Value;
      ghost var start, ds := src, Digits(src);
      ghost var k: nat := 1;
      DigitAhead(start, 0);
      var c := Take();
      SmallNumerals(c);
      assert ds[..1] == [c];
      exp, fits := Digit(c), true;
      var maxExp := 308 - expFrac;
      fits := fits && IsInt32(maxExp);
      while IsDigit(Peek(src))
        invariant k <= |ds| && src == start[k..] && exp == Value(ds[..k]) <= maxExp
        invariant !hasParseError && (expFrac >= -FRACTION_LIMIT ==> fits)
        decreases |src|
        modifies this`src, this`hasParseError
      {
        DigitAhead(start, k);
        NextDigit(ds, k);
        ValueGrows(ds, k + 1);
        fits := fits && IsInt32(exp * 10 + Digit(Peek(src)));
        c := Take();
        exp := exp * 10 + Digit(c);
        k := k + 1;
        if exp > maxExp {
          hasParseError := true;
          return;
        }
      }
      DigitAhead(start, k);
      assert ds[..k] == ds;
    }

    /** The number parser announces the number its literal denotes; for fractions of up to FRACTION_LIMIT
        digits none of its `int` computations overflows. */
    method ParseNumber() returns (ghost fits: bool)
      requires !hasParseError
      modifies this
      ensures stack == old(stack)
      ensures match NumberAt(flags, old(src))
              case Failed => hasParseError
              case Parsed(n, rest) => !hasParseError && src == rest && events == old(events) + [NumberEvent(n)]
      ensures FractionLength(old(src)) <= FRACTION_LIMIT ==> fits
    {
      hide Digits, Value, Scale, IntegerAt, FractionAt, ExponentAt, FractionDigits, LiteralAt, NumberAt;
      NumberParts(flags, src);
      fits := true;
      var minus := Consume('-');
      var unsigned := src;
      var i, i64, use64bit, bigInteger, significandDigit := ParseInteger(minus);
      if hasParseError {
        return;
      }
      ghost var afterInteger := src;
      var useDouble, expFrac;
      useDouble, expFrac, fits := ParseFraction(i, i64, use64bit, bigInteger, significandDigit);
      if hasParseError {
        return;
      }
      var exp, hasExponent;
      ghost var expFits;
      exp, hasExponent, expFits := ParseExponent(expFrac);
      fits := fits && expFits;
      if hasParseError {
        return;
      }
      useDouble := useDouble || hasExponent;
      if useDouble {
        fits := fits && IsInt32(exp + expFrac);
        var d := flags.toDouble(minus, unsigned[..|unsigned| - |src|]);
        if d.None? {
          hasParseError := true;
        } else {
          events := events + [NumberEvent(Double(if minus then -d.value else d.value))];
        }
      } else {
        var n: int := if use64bit then i64 else i;
        if use64bit {
          events := events + [NumberEvent(if minus then Int64(-n) else Uint64(n))];
        } else {
          events := events + [NumberEvent(if minus then Int(-n) else Uint(n))];
        }
      }
    }

    // -------------------------------------------------------------------------------------------
    // White space and comments
    // -------------------------------------------------------------------------------------------

    method SkipWhitespace()
      modifies this`src
      ensures src == Whitespace(old(src))
    {
      while IsWhitespace(Peek(src))
        invariant Whitespace(src) == Whitespace(old(src))
        decreases |src|
      {
        src := src[1..];
      }
    }

    method SkipWhitespaceAndComments()
      requires !hasParseError
      modifies this`src, this`hasParseError
      ensures match Skip(flags, old(src))
              case None => hasParseError
              case Some(rest) => !hasParseError && src == rest
    {
      hide BlockComment, LineComment, Whitespace;
      SkipWhitespace();
      if flags.comments {
        while Peek(src) == '/'
          invariant !hasParseError && Comments(src) == Comments(Whitespace(old(src)))
          decreases |src|
        {
          src := src[1..];
          var block := Consume('*');
          if block {
            SkipBlockComment();
            if hasParseError {
              return;
            }
          } else {
            var line := Consume('/');
            if !line {
              hasParseError := true;
              return;
            }
            SkipLineComment();
          }
          SkipWhitespace();
        }
      }
    }

    method SkipBlockComment()
      requires !hasParseError
      modifies this`src, this`hasParseError
      ensures match BlockComment(old(src))
              case None => hasParseError
              case Some(rest) => !hasParseError && src == rest
    {
      while true
        invariant !hasParseError && BlockComment(src) == BlockComment(old(src))
        decreases |src|
      {
        if Peek(src) == '\0' {
          hasParseError := true;
          return;
        }
        var star := Consume('*');
        if star {
          var slash := Consume('/');
          if slash {
            return;
          }
        } else {
          src := src[1..];
        }
      }
    }

    method SkipLineComment()
      modifies this`src
      ensures src == LineComment(old(src))
    {
      while Peek(src) != '\0'
        invariant LineComment(src) == LineComment(old(src))
        decreases |src|
      {
        var c := Take();
        if c == '\n' {
          return;
        }
      }
    }

    // -------------------------------------------------------------------------------------------
    // Strings
    // -------------------------------------------------------------------------------------------

    method ParseHex4() returns (codepoint: nat)
      requires !hasParseError
      modifies this`src, this`hasParseError
      ensures match Hex4(old(src))
              case None => hasParseError
              case Some(n) => !hasParseError && codepoint == n && src == old(src)[4..]
    {
      hide HexValue;
      ghost var start := src;
      codepoint := 0;
      for i := 0 to 4
        invariant !hasParseError && i <= |start| && src == start[i..]
        invariant forall k :: 0 <= k < i ==> IsHexDigit(start[k])
        invariant codepoint == HexPrefix(start, i)
      {
        if !IsHexDigit(Peek(src)) {
          hasParseError := true;
          return;
        }
        var c := Take();
        codepoint := codepoint * 16 + HexValue(c);
      }
      assert HexPrefix(start, 1) == HexValue(start[0]);
      assert HexPrefix(start, 2) == HexPrefix(start, 1) * 16 + HexValue(start[1]);
      assert HexPrefix(start, 3) == HexPrefix(start, 2) * 16 + HexValue(start[2]);
      assert HexPrefix(start, 4) == HexPrefix(start, 3) * 16 + HexValue(start[3]);
    }

    /** `ParseStringToStream` after the opening quote: the decoded text. */
    method ParseStringToStream() returns (text: string)
      requires !hasParseError
      modifies this`src, this`hasParseError
      ensures match StringAt(old(src), "")
              case Failed => hasParseError
              case Parsed(t, rest) => !hasParseError && text == t && src == rest
    {
      hide UnicodeEscape, Escape, Utf8.Encoding;
      text := "";
      while true
        invariant !hasParseError && StringAt(src, text) == StringAt(old(src), "")
        decreases |src|
      {
        var c := Peek(src);
        if c == '\\' {
          src := src[1..];
          var e := Peek(src);
          EscapeIsNoEnd();
          if Escape(e) != '\0' {
            src := src[1..];
            text := text + [Escape(e)];
          } else if e == 'u' {
            src := src[1..];
            var codepoint := ParseUnicodeEscape();
            if hasParseError {
              return;
            }
            text := text + Utf8.Encoding(codepoint);
          } else {
            hasParseError := true;
            return;
          }
        } else if c == '\"' {
          src := src[1..];
          return;
        } else if c as int < 0x20 {
          hasParseError := true;
          return;
        } else {
          src := src[1..];
          text := text + [c];
        }
      }
    }

    method ParseUnicodeEscape() returns (codepoint: nat)
      requires !hasParseError
      modifies this`src, this`hasParseError
      ensures match UnicodeEscape(old(src))
              case Failed => hasParseError
              case Parsed(n, rest) => !hasParseError && codepoint == n && src == rest
    {
      hide Hex4;
      ghost var start := src;
      codepoint := ParseHex4();
      if hasParseError {
        return;
      }
      if 0xD800 <= codepoint <= 0xDBFF {
        var backslash := Consume('\\');
        if !backslash {
          hasParseError := true;
          return;
        }
        var u := Consume('u');
        if !u {
          hasParseError := true;
          return;
        }
        assert src == start[6..];
        var codepoint2 := ParseHex4();
        if hasParseError {
          return;
        }
        if codepoint2 < 0xDC00 || codepoint2 > 0xDFFF {
          hasParseError := true;
          return;
        }
        codepoint := (codepoint - 0xD800) * 0x400 + (codepoint2 - 0xDC00) + 0x10000;
      }
    }

    method ParseString(isKey: bool)
      requires !hasParseError && Peek(src) == '\"'
      modifies this
      ensures stack == old(stack)
      ensures match StringAt(old(src)[1..], "")
              case Failed => hasParseError
              case Parsed(t, rest) =>
                !hasParseError && src == rest && events == old(events) + [if isKey then Key(t) else StringEvent(t)]
    {
      hide StringAt;
      src := src[1..];
      var text := ParseStringToStream();
      if !hasParseError {
        events := events + [if isKey then Key(text) else StringEvent(text)];
      }
    }

    // -------------------------------------------------------------------------------------------
    // The recursive reader
    // -------------------------------------------------------------------------------------------

    /** `ParseNull`, `ParseTrue` and `ParseFalse`: the letters of `word`, one by one. */
    method ParseWord(word: string, e: Event)
      requires !hasParseError && word != "" && Peek(src) == word[0]
      requires forall k :: 0 <= k < |word| ==> word[k] != '\0'
      modifies this
      ensures stack == old(stack)
      ensures if word <= old(src) then !hasParseError && src == old(src)[|word|..] && events == old(events) + [e]
              else hasParseError
    {
      ghost var start := src;
      src := src[1..];
      for i := 1 to |word|
        invariant !hasParseError && i <= |start| && src == start[i..] && word[..i] == start[..i]
        invariant stack == old(stack) && events == old(events)
      {
        var ok := Consume(word[i]);
        if !ok {
          hasParseError := true;
          assert word[i] != Peek(start[i..]);
          return;
        }
      }
      assert word[..|word|] == word;
      events := events + [e];
    }

    /** The values that are neither objects nor arrays. */
    method ParseScalar()
      requires !hasParseError && Peek(src) != '{' && Peek(src) != '['
      modifies this
      ensures stack == old(stack)
      ensures match ScalarAt(flags, old(src))
              case Failed => hasParseError
              case Parsed(v, rest) => !hasParseError && src == rest && events == old(events) + Events(v)
    {
      hide StringAt, NumberAt;
      match Peek(src)
      case 'n' => ParseWord("null", NullEvent);
      case 't' => ParseWord("true", BoolEvent(true));
      case 'f' => ParseWord("false", BoolEvent(false));
      case '\"' => ParseString(false);
      case _ => ghost var fits := ParseNumber();
    }

    method ParseValue()
      requires !hasParseError
      modifies this
      ensures stack == old(stack)
      ensures match ValueAt(flags, old(src))
              case Failed => hasParseError
              case Parsed(v, rest) => !hasParseError && src == rest && events == old(events) + Events(v)
      decreases |src|, 1
    {
      hide ScalarAt, ObjectAt, ArrayAt;
      if Peek(src) == '{' {
        ParseObject();
      } else if Peek(src) == '[' {
        ParseArray();
      } else {
        ParseScalar();
      }
    }

    method ParseObject()
      requires !hasParseError && Peek(src) == '{'
      modifies this
      ensures stack == old(stack)
      ensures match ObjectAt(flags, old(src)[1..])
              case Failed => hasParseError
              case Parsed(ms, rest) => !hasParseError && src == rest && events == old(events) + Events(Obj(ms))
      decreases |src|, 0
    {
      hide MembersAt, Skip, MemberEvents;
      src := src[1..];
      events := events + [StartObject];
      SkipWhitespaceAndComments();
      if hasParseError {
        return;
      }
      var empty := Consume('}');
      if empty {
        NoMembers();
        events := events + [EndObject(0)];
        return;
      }
      ghost var ms := ParseMembers();
      if !hasParseError {
        assert events == old(events) + Events(Obj(ms));
      }
    }

    /** The loop of `ParseObject` */
    method ParseMembers() returns (ghost ms: seq<Member>)
      requires !hasParseError
      modifies this
      ensures stack == old(stack)
      ensures match MembersAt(flags, old(src), [])
              case Failed => hasParseError
              case Parsed(all, rest) => !hasParseError && src == rest && ms == all
                                        && events == old(events) + MemberEvents(ms) + [EndObject(|ms|)]
      decreases |src|, 3
    {
      hide MembersAt, MemberAt, Skip, MemberEvents, Events;
      NoMembers();
      ms := [];
      var memberCount := 0;
      while true
        invariant !hasParseError && stack == old(stack) && memberCount == |ms| && |src| <= |old(src)|
        invariant MembersAt(flags, src, ms) == MembersAt(flags, old(src), [])
        invariant events == old(events) + MemberEvents(ms)
        decreases |src|
      {
        MembersStep(flags, src, ms);
        ghost var m := MemberAt(flags, src);
        ParseMember();
        if hasParseError {
          return;
        }
        memberCount := memberCount + 1;
        R.MemberEventsAppend(ms, m.value);
        ms := ms + [m.value];
        if Peek(src) == ',' {
          src := src[1..];
          SkipWhitespaceAndComments();
          if hasParseError {
            return;
          }
        } else if Peek(src) == '}' {
          src := src[1..];
          events := events + [EndObject(memberCount)];
          return;
        } else {
          hasParseError := true;
          return;
        }
        if flags.trailingCommas && Peek(src) == '}' {
          events := events + [EndObject(memberCount)];
          src := src[1..];
          return;
        }
      }
    }

    /** One turn of the loop of `ParseObject`, up to the white space after the member. */
    method ParseMember()
      requires !hasParseError
      modifies this
      ensures stack == old(stack)
      ensures match MemberAt(flags, old(src))
              case Failed => hasParseError
              case Parsed(m, rest) =>
                !hasParseError && src == rest && events == old(events) + [Key(m.name)] + Events(m.value)
      decreases |src|, 2
    {
      hide StringAt, ValueAt, Skip, Events, MemberAt;
      R.MemberParts(flags, src);
      if Peek(src) != '\"' {
        hasParseError := true;
        return;
      }
      ParseString(true);
      if hasParseError {
        return;
      }
      SkipWhitespaceAndComments();
      if hasParseError {
        return;
      }
      var colon := Consume(':');
      if !colon {
        hasParseError := true;
        return;
      }
      SkipWhitespaceAndComments();
      if hasParseError {
        return;
      }
      ParseValue();
      if hasParseError {
        return;
      }
      SkipWhitespaceAndComments();
    }

    method ParseArray()
      requires !hasParseError && Peek(src) == '['
      modifies this
      ensures stack == old(stack)
      ensures match ArrayAt(flags, old(src)[1..])
              case Failed => hasParseError
              case Parsed(es, rest) => !hasParseError && src == rest && events == old(events) + Events(Arr(es))
      decreases |src|, 0
    {
      hide ElementsAt, Skip, ElementEvents;
      src := src[1..];
      events := events + [StartArray];
      SkipWhitespaceAndComments();
      if hasParseError {
        return;
      }
      var empty := Consume(']');
      if empty {
        NoElements();
        events := events + [EndArray(0)];
        return;
      }
      ghost var es := ParseElements();
      if !hasParseError {
        assert events == old(events) + Events(Arr(es));
      }
    }

    /** The loop of `ParseArray` */
    method ParseElements() returns (ghost es: seq<Json>)
      requires !hasParseError
      modifies this
      ensures stack == old(stack)
      ensures match ElementsAt(flags, old(src), [])
              case Failed => hasParseError
              case Parsed(all, rest) => !hasParseError && src == rest && es == all
                                        && events == old(events) + ElementEvents(es) + [EndArray(|es|)]
      decreases |src|, 3
    {
      hide ElementsAt, ElementAt, ValueAt, Skip, ElementEvents, Events;
      NoElements();
      es := [];
      var elementCount := 0;
      while true
        invariant !hasParseError && stack == old(stack) && elementCount == |es| && |src| <= |old(src)|
        invariant ElementsAt(flags, src, es) == ElementsAt(flags, old(src), [])
        invariant events == old(events) + ElementEvents(es)
        decreases |src|
      {
        ElementsStep(flags, src, es);
        ghost var v := ValueAt(flags, src);
        ParseValue();
        if hasParseError {
          return;
        }
        elementCount := elementCount + 1;
        R.ElementEventsAppend(es, v.value);
        es := es + [v.value];
        SkipWhitespaceAndComments();
        if hasParseError {
          return;
        }
        var comma := Consume(',');
        if comma {
          SkipWhitespaceAndComments();
          if hasParseError {
            return;
          }
        } else {
          var close := Consume(']');
          if close {
            events := events + [EndArray(elementCount)];
          } else {
            hasParseError := true;
          }
          return;
        }
        if flags.trailingCommas && Peek(src) == ']' {
          events := events + [EndArray(elementCount)];
          src := src[1..];
          return;
        }
      }
    }

    /** `Parse` accepts exactly the documents of the grammar, and then announces their value; whatever the reader
        did before. */
    method Parse()
      modifies this
      ensures stack == []
      ensures match DocumentAt(flags, old(src))
              case Failed => hasParseError
              case Parsed(v, rest) => !hasParseError && src == rest && events == old(events) + Events(v)
    {
      hide DocumentAt, Events;
      hasParseError := false;
      ParseDocument();
      stack := [];
    }

    method ParseDocument()
      requires !hasParseError
      modifies this
      ensures match DocumentAt(flags, old(src))
              case Failed => hasParseError
              case Parsed(v, rest) => !hasParseError && src == rest && events == old(events) + Events(v)
    {
      hide ValueAt, Skip, Events;
      SkipWhitespaceAndComments();
      if hasParseError {
        return;
      }
      if Peek(src) == '\0' {
        hasParseError := true;
        return;
      }
      ParseValue();
      if hasParseError {
        return;
      }
      if !flags.stopWhenDone {
        SkipWhitespaceAndComments();
        if hasParseError {
          return;
        }
        if Peek(src) != '\0' {
          hasParseError := true;
        }
      }
    }

    // -------------------------------------------------------------------------------------------
    // The iterative reader
    // -------------------------------------------------------------------------------------------

    ghost function At(state: A.State): A.Config
      reads this
    {
      A.Config(state, stack, src, events)
    }

    /** `Transit` carries out the predicted step, or leaves the error state. */
    method Transit(state: A.State, token: A.Token, dst: A.State) returns (next: A.State)
      requires !hasParseError && src != "" && A.Coherent(state, stack)
      requires token == A.Tokenize(src[0]) && dst == A.Predict(state, token)
      modifies this
      ensures next.Error? == A.Transit(flags, old(At(state)), dst).state.Error?
      ensures !next.Error? ==> !hasParseError && At(next) == A.Transit(flags, old(At(state)), dst)
    {
      hide StringAt, ValueAt, A.Tokenize;
      match dst
      case ObjectInitial =>
        stack := stack + [A.Frame(A.Returning(state), 0)];
        events := events + [StartObject];
        src := src[1..];
        return dst;
      case ArrayInitial =>
        stack := stack + [A.Frame(A.Returning(state), 0)];
        events := events + [StartArray];
        src := src[1..];
        return dst;
      case MemberKey =>
        QuoteIsString(src[0]);
        ParseString(true);
        return if hasParseError then A.Error else dst;
      case KeyValueDelimiter =>
        src := src[1..];
        return dst;
      case MemberValue =>
        ParseValue();
        return if hasParseError then A.Error else dst;
      case ElementState =>
        ParseValue();
        return if hasParseError then A.Error else dst;
      case MemberDelimiter =>
        CountLast();
        return dst;
      case ElementDelimiter =>
        CountLast();
        return dst;
      case ObjectFinish =>
        next := Close(state, true);
      case ArrayFinish =>
        next := Close(state, false);
      case ValueState =>
        ParseValue();
        return if hasParseError then A.Error else A.Finish;
      case _ =>
        return A.Error;
    }

    method CountLast()
      requires src != "" && stack != []
      modifies this`src, this`stack
      ensures At(A.Finish) == A.Count(old(At(A.Finish)), A.Finish)
    {
      var top := |stack| - 1;
      src := src[1..];
      stack := stack[top := stack[top].(count := stack[top].count + 1)];
    }

    method Close(state: A.State, isObject: bool) returns (next: A.State)
      requires !hasParseError && src != "" && stack != []
      modifies this
      ensures next.Error? ==> A.TransitClose(flags, old(At(state)), isObject).state.Error?
      ensures !next.Error? ==> !hasParseError && At(next) == A.TransitClose(flags, old(At(state)), isObject)
    {
      if !flags.trailingCommas && if isObject then state.MemberDelimiter? else state.ElementDelimiter? {
        hasParseError := true;
        return A.Error;
      }
      var top := |stack| - 1;
      var c := stack[top].count;
      if if isObject then state.MemberValue? else state.ElementState? {
        c := c + 1;
      }
      next := stack[top].state;
      stack := stack[..top];
      if next.Start? {
        next := A.Finish;
      }
      events := events + [if isObject then EndObject(c) else EndArray(c)];
      src := src[1..];
    }

    /** `IterativeParse` has the contract of `Parse`. Both leave the stack empty, as they need it. */
    method IterativeParse()
      requires stack == []
      modifies this
      ensures stack == []
      ensures match DocumentAt(flags, old(src))
              case Failed => hasParseError
              case Parsed(v, rest) => !hasParseError && src == rest && events == old(events) + Events(v)
    {
      hide Skip, A.Transit, A.Predict, A.Tokenize, Events, DocumentAt, A.Coherent;
      R.ReadersAgree(flags, src, events);
      ghost var outcome := A.IterativeParse(flags, src, events);
      CoherentStart();
      hasParseError := false;
      var state := A.Start;
      SkipWhitespaceAndComments();
      if hasParseError {
        return;
      }
      while Peek(src) != '\0'
        invariant !hasParseError && A.Coherent(state, stack)
        invariant outcome == A.Run(flags, At(state))
        decreases |src|
      {
        var t := A.Tokenize(src[0]);
        var n := A.Predict(state, t);
        A.TransitKeeps(flags, At(state));
        var d := Transit(state, t, n);
        if d.Error? {
          hasParseError := true;
          break;
        }
        state := d;
        if flags.stopWhenDone && state.Finish? {
          break;
        }
        SkipWhitespaceAndComments();
        if hasParseError {
          break;
        }
      }
      if !state.Finish? {
        hasParseError := true;
      }
      stack := [];
    }
  }
}
