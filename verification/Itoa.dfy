/**
 The digit routines of 3rdparty/rapidjson/internal/itoa.h: integers are written in pairs of digits from a table,
 the leading zeros left out one by one. What they write is the decimal numeral, and it fits the buffers of the
 writer.
 */
module Itoa {
  import opened Json
  import opened Streams
  import opened JsonText
  import opened Writer

  const TEN4 := 10_000
  const TEN8 := 100_000_000
  const TEN16 := 10_000_000_000_000_000
  const TWO32 := 0x1_0000_0000
  const TWO64 := 0x1_0000_0000_0000_0000

  /** `cDigitsLut`: the tens digit of k at 2 k, the units digit behind it. */
  function Lut(i: nat): char
    requires i < 200
  {
    ('0' as int + if i % 2 == 0 then i / 2 / 10 else i / 2 % 10) as char
  }

  // ---------------------------------------------------------------------------------------------
  // Numerals in groups of digits
  // ---------------------------------------------------------------------------------------------

  function Unit(n: nat): char {
    ('0' as int + n % 10) as char
  }

  function Two(n: nat): string {
    [Unit(n / 10), Unit(n)]
  }

  /** Four digits, with leading zeros. */
  function Four(n: nat): string {
    Two(n / 100) + Two(n)
  }

  function Eight(n: nat): string {
    Four(n / TEN4) + Four(n)
  }

  lemma SplitTwo(n: nat)
    requires n >= 100
    ensures Decimal(n) == Decimal(n / 100) + Two(n)
  {
    assert Decimal(n) == Decimal(n / 10) + [Unit(n)];
    assert Decimal(n / 10) == Decimal(n / 10 / 10) + [Unit(n / 10)];
    assert n / 10 / 10 == n / 100;
  }

  lemma SplitFour(n: nat)
    requires n >= TEN4
    ensures Decimal(n) == Decimal(n / TEN4) + Four(n)
  {
    hide Decimal, Two;
    SplitTwo(n);
    SplitTwo(n / 100);
    FourDigits(n);
  }

  lemma SplitEight(n: nat)
    requires n >= TEN8
    ensures Decimal(n) == Decimal(n / TEN8) + Eight(n)
  {
    hide Decimal, Four;
    SplitFour(n);
    SplitFour(n / TEN4);
    EightDigits(n);
  }

  /** Groups of digits depend on the last digits alone. */
  lemma TwoOfRest(n: nat)
    ensures Two(n) == Two(n % 100)
  {
    var x, y := n / 10, n % 10;
    ByHundred(x / 10, 10 * (x % 10) + y);
    ByTen(x % 10, y);
  }

  lemma ByTen(q: nat, r: nat)
    requires r < 10
    ensures (10 * q + r) / 10 == q && (10 * q + r) % 10 == r
  {
  }

  lemma ByHundred(q: nat, r: nat)
    requires r < 100
    ensures (100 * q + r) / 100 == q && (100 * q + r) % 100 == r
  {
  }

  lemma ByTen4(q: nat, r: nat)
    requires r < TEN4
    ensures (TEN4 * q + r) / TEN4 == q && (TEN4 * q + r) % TEN4 == r
  {
  }

  lemma ByTen8(q: nat, r: nat)
    requires r < TEN8
    ensures (TEN8 * q + r) / TEN8 == q && (TEN8 * q + r) % TEN8 == r
  {
  }

  lemma FourOfRest(n: nat)
    ensures Four(n) == Four(n % TEN4)
  {
    hide Two;
    FourDigits(n);
    TwoOfRest(n);
    TwoOfRest(n % TEN4);
    TwoOfRest(n / 100);
  }

  lemma FourDigits(n: nat)
    ensures n % TEN4 % 100 == n % 100 && n % TEN4 / 100 == n / 100 % 100 && n / 100 / 100 == n / TEN4
  {
    var x, y := n / 100, n % 100;
    ByTen4(x / 100, 100 * (x % 100) + y);
    ByHundred(x % 100, y);
  }

  lemma EightOfRest(n: nat)
    ensures Eight(n) == Eight(n % TEN8)
  {
    hide Four;
    EightDigits(n);
    FourOfRest(n);
    FourOfRest(n % TEN8);
    FourOfRest(n / TEN4);
  }

  lemma EightDigits(n: nat)
    ensures n % TEN8 % TEN4 == n % TEN4 && n % TEN8 / TEN4 == n / TEN4 % TEN4 && n / TEN4 / TEN4 == n / TEN8
  {
    var x, y := n / TEN4, n % TEN4;
    ByTen8(x / TEN4, TEN4 * (x % TEN4) + y);
    ByTen4(x % TEN4, y);
  }

  /** Up to four digits without the leading zeros. */
  lemma UpToFour(n: nat)
    requires n < TEN4
    ensures Decimal(n)
            == (if n >= 1000 then [Unit(n / 100 / 10)] else "") + (if n >= 100 then [Unit(n / 100)] else "")
               + (if n >= 10 then [Unit(n / 10)] else "") + [Unit(n)]
  {
    if n >= 100 {
      SplitTwo(n);
    }
  }

  // ---------------------------------------------------------------------------------------------
  // The routines
  // ---------------------------------------------------------------------------------------------

  lemma LutPair(k: nat)
    requires k < 100
    ensures Lut(2 * k) == Unit(k / 10) && Lut(2 * k + 1) == Unit(k)
  {
  }

  lemma InUnits(n: nat, value: nat, unit: nat)
    requires unit > 0 && n * unit <= value < (n + 1) * unit
    ensures value >= 1000 * unit <==> n >= 1000
    ensures value >= 100 * unit <==> n >= 100
    ensures value >= 10 * unit <==> n >= 10
  {
    TimesUnit(n, value, unit, 1000);
    TimesUnit(n, value, unit, 100);
    TimesUnit(n, value, unit, 10);
  }

  lemma TimesUnit(n: nat, value: nat, unit: nat, k: nat)
    requires unit > 0 && n * unit <= value < (n + 1) * unit
    ensures value >= k * unit <==> n >= k
  {
    if n >= k {
      assert n * unit >= k * unit;
    } else {
      assert (n + 1) * unit <= k * unit;
    }
  }

  /** `*buffer++ = c` */
  method Put(buffer: array<char>, at: nat, c: char) returns (next: nat)
    requires at < buffer.Length
    modifies buffer
    ensures next == at + 1 && buffer[..next] == old(buffer[..at]) + [c]
  {
    buffer[at] := c;
    next := at + 1;
    assert buffer[..next] == buffer[..at] + [c];
  }

  method PutTwo(buffer: array<char>, at: nat, n: nat) returns (next: nat)
    requires at + 2 <= buffer.Length && n < 100
    modifies buffer
    ensures next == at + 2 && buffer[..next] == old(buffer[..at]) + Two(n)
  {
    hide Lut, Unit;
    LutPair(n);
    var d := 2 * n;
    next := Put(buffer, at, Lut(d));
    next := Put(buffer, next, Lut(d + 1));
  }

  method PutFour(buffer: array<char>, at: nat, n: nat) returns (next: nat)
    requires at + 4 <= buffer.Length && n < TEN4
    modifies buffer
    ensures next == at + 4 && buffer[..next] == old(buffer[..at]) + Four(n)
  {
    hide Two;
    next := PutTwo(buffer, at, n / 100);
    next := PutTwo(buffer, next, n % 100);
    TwoOfRest(n);
  }

  method PutEight(buffer: array<char>, at: nat, n: nat) returns (next: nat)
    requires at + 8 <= buffer.Length && n < TEN8
    modifies buffer
    ensures next == at + 8 && buffer[..next] == old(buffer[..at]) + Eight(n)
  {
    hide Four;
    next := PutFour(buffer, at, n / TEN4);
    next := PutFour(buffer, next, n % TEN4);
    FourOfRest(n);
  }

  /** Up to four digits; `value` is the whole number and `unit` what its last of these digits counts. */
  method PutLeadingFour(buffer: array<char>, at: nat, n: nat, value: nat, unit: nat) returns (next: nat)
    requires at + 4 <= buffer.Length && n < TEN4 && unit > 0 && n * unit <= value < (n + 1) * unit
    modifies buffer
    ensures at < next <= at + 4 && buffer[..next] == old(buffer[..at]) + Decimal(n)
  {
    hide Decimal;
    InUnits(n, value, unit);
    next := PutDigits(buffer, at, n, value >= 1000 * unit, value >= 100 * unit, value >= 10 * unit);
  }

  method PutDigits(buffer: array<char>, at: nat, n: nat, four: bool, three: bool, two: bool) returns (next: nat)
    requires at + 4 <= buffer.Length && n < TEN4
    requires four == (n >= 1000) && three == (n >= 100) && two == (n >= 10)
    modifies buffer
    ensures at < next <= at + 4 && buffer[..next] == old(buffer[..at]) + Decimal(n)
  {
    hide Decimal;
    UpToFour(n);
    TableDigits(n);
    var d1, d2 := 2 * (n / 100), 2 * (n % 100);
    next := at;
    if four {
      next := Put(buffer, next, Lut(d1));
    }
    if three {
      next := Put(buffer, next, Lut(d1 + 1));
    }
    if two {
      next := Put(buffer, next, Lut(d2));
    }
    next := Put(buffer, next, Lut(d2 + 1));
  }

  lemma TableDigits(n: nat)
    requires n < TEN4
    ensures var d1, d2 := 2 * (n / 100), 2 * (n % 100);
            && d1 < 199 && d2 < 199 && Lut(d1) == Unit(n / 100 / 10) && Lut(d1 + 1) == Unit(n / 100)
            && Lut(d2) == Unit(n / 10) && Lut(d2 + 1) == Unit(n)
  {
    hide Lut, Unit;
    LutPair(n / 100);
    LutPair(n % 100);
    TwoOfRest(n);
    assert Two(n)[0] == Two(n % 100)[0] && Two(n)[1] == Two(n % 100)[1];
  }

  /** Numbers of up to eight digits. */
  method PutLeadingEight(buffer: array<char>, at: nat, value: nat) returns (next: nat)
    requires at + 8 <= buffer.Length && value < TEN8
    modifies buffer
    ensures at < next <= at + 8 && buffer[..next] == old(buffer[..at]) + Decimal(value)
  {
    hide Decimal, Four;
    if value < TEN4 {
      next := PutLeadingFour(buffer, at, value, value, 1);
    } else {
      SplitFour(value);
      FourOfRest(value);
      next := PutLeadingFour(buffer, at, value / TEN4, value, TEN4);
      next := PutFour(buffer, next, value % TEN4);
    }
  }

  method U32toa(value: nat, buffer: array<char>, at: nat) returns (end: nat)
    requires value < TWO32 && at + 10 <= buffer.Length
    modifies buffer
    ensures at < end <= at + 10 && buffer[..end] == old(buffer[..at]) + Decimal(value)
  {
    hide Decimal, Eight;
    if value < TEN8 {
      end := PutLeadingEight(buffer, at, value);
    } else {
      SplitEight(value);
      EightOfRest(value);
      var a := value / TEN8;
      if a >= 10 {
        TwoDigits(a);
        end := PutTwo(buffer, at, a);
      } else {
        OneDigit(a);
        end := Put(buffer, at, ('0' as int + a) as char);
      }
      end := PutEight(buffer, end, value % TEN8);
    }
  }

  lemma OneDigit(a: nat)
    requires a < 10
    ensures Decimal(a) == [('0' as int + a) as char]
  {
  }

  lemma TwoDigits(a: nat)
    requires 10 <= a < 100
    ensures Decimal(a) == Two(a)
  {
  }

  /** Numbers of nine to sixteen digits: the upper half without leading zeros. */
  method PutUpperEight(buffer: array<char>, at: nat, v0: nat, value: nat) returns (next: nat)
    requires at + 8 <= buffer.Length && 0 < v0 < TEN8 && v0 == value / TEN8
    modifies buffer
    ensures at < next <= at + 8 && buffer[..next] == old(buffer[..at]) + Decimal(v0)
  {
    hide Decimal, Four;
    var b0, c0 := v0 / TEN4, v0 % TEN4;
    if value >= TEN8 * TEN4 {
      SplitFour(v0);
      FourOfRest(v0);
      next := PutLeadingFour(buffer, at, b0, value, TEN8 * TEN4);
      next := PutFour(buffer, next, c0);
    } else {
      next := PutLeadingFour(buffer, at, c0, value, TEN8);
    }
  }

  /** The first digits of numbers of seventeen digits and more. */
  method PutUppermost(buffer: array<char>, at: nat, a: nat) returns (next: nat)
    requires at + 4 <= buffer.Length && 0 < a < TEN4
    modifies buffer
    ensures at < next <= at + 4 && buffer[..next] == old(buffer[..at]) + Decimal(a)
  {
    hide Decimal;
    if a < 10 {
      OneDigit(a);
      next := Put(buffer, at, ('0' as int + a) as char);
    } else if a < 100 {
      TwoDigits(a);
      next := PutTwo(buffer, at, a);
    } else if a < 1000 {
      SplitTwo(a);
      OneDigit(a / 100);
      TwoOfRest(a);
      next := Put(buffer, at, ('0' as int + a / 100) as char);
      next := PutTwo(buffer, next, a % 100);
    } else {
      SplitTwo(a);
      TwoDigits(a / 100);
      next := PutFour(buffer, at, a);
    }
  }

  method U64toa(value: nat, buffer: array<char>, at: nat) returns (end: nat)
    requires value < TWO64 && at + 20 <= buffer.Length
    modifies buffer
    ensures at < end <= at + 20 && buffer[..end] == old(buffer[..at]) + Decimal(value)
  {
    hide Decimal, Eight;
    if value < TEN8 {
      end := PutLeadingEight(buffer, at, value);
    } else if value < TEN16 {
      SplitEight(value);
      EightOfRest(value);
      end := PutUpperEight(buffer, at, value / TEN8, value);
      end := PutEight(buffer, end, value % TEN8);
    } else {
      SplitSixteen(value);
      var rest := value % TEN16;
      end := PutUppermost(buffer, at, value / TEN16);
      end := PutEight(buffer, end, rest / TEN8);
      end := PutEight(buffer, end, rest % TEN8);
    }
  }

  lemma SplitSixteen(value: nat)
    requires value >= TEN16
    ensures var rest := value % TEN16;
            Decimal(value) == Decimal(value / TEN16) + (Eight(rest / TEN8) + Eight(rest % TEN8))
  {
    hide Decimal, Eight;
    SplitEight(value);
    SplitEight(value / TEN8);
    EightOfRest(value);
    EightOfRest(value / TEN8);
    assert value / TEN8 / TEN8 == value / TEN16;
    assert value % TEN16 / TEN8 == value / TEN8 % TEN8 && value % TEN16 % TEN8 == value % TEN8;
  }

  /** `~u + 1` negates the pattern of a negative number. */
  lemma Complement32(value: int)
    requires -TWO32 < value < TWO32
    ensures value % TWO32 == if value < 0 then value + TWO32 else value
    ensures value < 0 ==> (TWO32 - 1 - value % TWO32 + 1) % TWO32 == -value
  {
  }

  lemma Complement64(value: int)
    requires -TWO64 < value < TWO64
    ensures value % TWO64 == if value < 0 then value + TWO64 else value
    ensures value < 0 ==> (TWO64 - 1 - value % TWO64 + 1) % TWO64 == -value
  {
  }

  /** A signed number: the sign, and the two's complement of the pattern. */
  method I32toa(value: int, buffer: array<char>, at: nat) returns (end: nat)
    requires -0x8000_0000 <= value < 0x8000_0000 && at + 11 <= buffer.Length
    modifies buffer
    ensures at < end <= at + 11 && buffer[..end] == old(buffer[..at]) + SignedDecimal(value)
  {
    hide Decimal;
    Complement32(value);
    var u: nat := value % TWO32;
    end := at;
    if value < 0 {
      end := Put(buffer, end, '-');
      u := (TWO32 - 1 - u + 1) % TWO32;
    }
    end := U32toa(u, buffer, end);
  }

  method I64toa(value: int, buffer: array<char>, at: nat) returns (end: nat)
    requires -0x8000_0000_0000_0000 <= value < 0x8000_0000_0000_0000 && at + 21 <= buffer.Length
    modifies buffer
    ensures at < end <= at + 21 && buffer[..end] == old(buffer[..at]) + SignedDecimal(value)
  {
    hide Decimal;
    Complement64(value);
    var u: nat := value % TWO64;
    end := at;
    if value < 0 {
      end := Put(buffer, end, '-');
      u := (TWO64 - 1 - u + 1) % TWO64;
    }
    end := U64toa(u, buffer, end);
  }

  function SignedDecimal(value: int): string {
    if value < 0 then "-" + Decimal(-value) else Decimal(value)
  }

  /** The buffer of each width takes its longest numeral. */
  method Format(n: Number) returns (buffer: array<char>, end: nat)
    requires InRange(n) && !n.Double?
    ensures fresh(buffer) && end <= buffer.Length && buffer[..end] == SignedDecimal(n.i)
  {
    hide Decimal, SignedDecimal;
    match n {
      case Int(i) =>
        buffer := new char[11];
        end := I32toa(i, buffer, 0);
      case Uint(i) =>
        buffer := new char[10];
        end := U32toa(i, buffer, 0);
        Unsigned(i);
      case Int64(i) =>
        buffer := new char[21];
        end := I64toa(i, buffer, 0);
      case Uint64(i) =>
        buffer := new char[20];
        end := U64toa(i, buffer, 0);
        Unsigned(i);
    }
    assert buffer[..end] == "" + SignedDecimal(n.i) == SignedDecimal(n.i);
  }

  lemma Unsigned(i: nat)
    ensures SignedDecimal(i) == Decimal(i)
  {
  }

  /** `WriteInt`, `WriteUint`, `WriteInt64` and `WriteUint64`. */
  method WriteInteger(n: Number, output: OutputStream)
    requires InRange(n) && !n.Double?
    modifies output
    ensures output.text == old(output.text) + SignedDecimal(n.i)
  {
    hide SignedDecimal;
    var buffer, end := Format(n);
    ghost var digits := buffer[..end];
    for p := 0 to end
      invariant buffer[..end] == digits && output.text == old(output.text) + digits[..p]
    {
      output.Put(buffer[p]);
      assert digits[..p + 1] == digits[..p] + [buffer[..end][p]];
    }
    assert digits[..end] == digits;
  }

  /** That is the text from which the reader takes the number back. */
  lemma WrittenReadsBack(f: Flags, n: Number, rest: string)
    requires InRange(n) && !n.Double? && Delimited(rest)
    ensures NumberAt(f, SignedDecimal(n.i) + rest) == Parsed(Narrowed(n), rest)
  {
    hide NumberAt, Decimal;
    NumberReadsBack(f, d => "", n, rest);
  }
}
