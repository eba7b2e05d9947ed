/**
 What the hash codes of 3rdparty/rapidjson/schema.h can tell apart: the FNV-1a step is the multiplication by its
 prime modulo 2^64, which loses nothing, so that a single change to a value always changes its code.
 */
module HashCodes {
  import opened Bits
  import opened Json
  import opened Hasher

  const TWO64 := 0x1_0000_0000_0000_0000
  const PRIME := 0x100000001b3
  /** The inverse of the prime modulo 2^64. */
  const INVERSE := 0xce965057aff6957b

  // ---------------------------------------------------------------------------------------------
  // Words as numbers
  // ---------------------------------------------------------------------------------------------

  function Bit(b: bool): nat {
    if b then 1 else 0
  }

  /** The number whose bits these are, the lowest first. */
  function ToNat(w: Word): nat {
    if w == [] then 0 else ToNat(w[..|w| - 1]) + Bit(w[|w| - 1]) * Power2(|w| - 1)
  }

  lemma {:induction false} ToNatBound(w: Word)
    ensures ToNat(w) < Power2(|w|)
  {
    if w != [] {
      ToNatBound(w[..|w| - 1]);
    }
  }

  lemma {:induction false} PowerSum(m: nat, n: nat)
    ensures Power2(m + n) == Power2(m) * Power2(n)
  {
    if m > 0 {
      PowerSum(m - 1, n);
      Times(2, Power2(m - 1), Power2(n));
    }
  }

  lemma Times(a: int, b: int, c: int)
    ensures a * b * c == a * (b * c)
  {
  }

  lemma {:induction false} ToNatAppend(a: Word, b: Word)
    ensures ToNat(a + b) == ToNat(a) + Power2(|a|) * ToNat(b)
  {
    if b == [] {
      assert a + b == a;
    } else {
      var k := |b| - 1;
      assert (a + b)[..|a| + k] == a + b[..k];
      ToNatAppend(a, b[..k]);
      PowerSum(|a|, k);
      Distribute(Power2(|a|), ToNat(b[..k]), Bit(b[k]), Power2(k));
    }
  }

  lemma Distribute(p: int, x: int, b: int, q: int)
    ensures p * x + b * (p * q) == p * (x + b * q)
  {
  }

  lemma {:induction false} ToNatZeros(n: nat)
    ensures ToNat(Zeros(n)) == 0
  {
    if n > 0 {
      ToNatZeros(n - 1);
      assert Zeros(n)[..n - 1] == Zeros(n - 1);
    }
  }

  /** Words of one width with the same number are the same. */
  lemma {:induction false} ToNatIsInjective(a: Word, b: Word)
    requires |a| == |b| && ToNat(a) == ToNat(b)
    ensures a == b
  {
    if a != [] {
      var k := |a| - 1;
      ToNatBound(a[..k]);
      ToNatBound(b[..k]);
      assert a[k] == b[k];
      ToNatIsInjective(a[..k], b[..k]);
      assert a == a[..k] + [a[k]] && b == b[..k] + [b[k]];
    }
  }

  lemma {:induction false} ToNatOfNat(n: nat, w: nat)
    ensures ToNat(FromNat(n, w)) == n % Power2(w)
  {
    if w > 0 {
      ToNatOfNat(n, w - 1);
      assert FromNat(n, w)[..w - 1] == FromNat(n, w - 1);
      HighBit(n, Power2(w - 1));
    }
  }

  lemma HighBit(n: nat, p: nat)
    requires p > 0
    ensures n % (2 * p) == n % p + (n / p % 2) * p
  {
    var q, r := n / p, n % p;
    var h, b := q / 2, q % 2;
    assert n == p * (2 * h + b) + r;
    assert n == 2 * p * h + (b * p + r) by {
      assert p * (2 * h + b) == 2 * p * h + b * p;
    }
    assert b * p + r < 2 * p;
    Remainder(n, 2 * p, h, b * p + r);
  }

  lemma Remainder(n: int, d: int, q: int, r: int)
    requires d > 0 && n == d * q + r && 0 <= r < d
    ensures n % d == r && n / d == q
  {
    var e := n / d - q;
    assert d * e == r - n % d;
    if e > 0 {
      Multiple(d, e);
    } else if e < 0 {
      assert d * -e == -(d * e);
      Multiple(d, -e);
    }
  }

  lemma {:induction false} Multiple(d: nat, e: nat)
    requires e > 0
    ensures d * e >= d
  {
    if e > 1 {
      Multiple(d, e - 1);
      assert d * e == d * (e - 1) + d;
    }
  }

  /** The bits below position `i` and the carry out of them are the sum so far. */
  lemma {:induction false} AddPrefix(a: Word, b: Word, i: nat)
    requires |a| == |b| && i <= |a|
    ensures ToNat(Add(a, b)[..i]) + Bit(Carry(a, b, i)) * Power2(i) == ToNat(a[..i]) + ToNat(b[..i])
  {
    hide Power2;
    if i > 0 {
      AddPrefix(a, b, i - 1);
      assert Add(a, b)[..i][..i - 1] == Add(a, b)[..i - 1];
      assert a[..i][..i - 1] == a[..i - 1] && b[..i][..i - 1] == b[..i - 1];
      PowerOneMore(i - 1);
    }
  }

  lemma PowerOneMore(i: nat)
    ensures Power2(i + 1) == 2 * Power2(i)
  {
  }

  lemma AddMeans(a: Word, b: Word)
    requires |a| == |b|
    ensures ToNat(Add(a, b)) == (ToNat(a) + ToNat(b)) % Power2(|a|)
  {
    hide ToNat, Power2, Add, Carry;
    var sum := Add(a, b);
    AddPrefix(a, b, |a|);
    assert sum[..|a|] == sum && a[..|a|] == a && b[..|a|] == b;
    ToNatBound(sum);
    Remainder(ToNat(a) + ToNat(b), Power2(|a|), Bit(Carry(a, b, |a|)), ToNat(sum));
  }

  lemma ShlMeans(a: Word, n: nat)
    requires n <= |a|
    ensures ToNat(Shl(a, n)) == ToNat(a) * Power2(n) % Power2(|a|)
  {
    hide ToNat, Power2;
    var k := |a| - n;
    var low, high := ToNat(a[..k]), ToNat(a[k..]);
    assert a == a[..k] + a[k..];
    ToNatAppend(a[..k], a[k..]);
    ToNatAppend(Zeros(n), a[..k]);
    ToNatZeros(n);
    PowerSum(k, n);
    ToNatBound(Shl(a, n));
    Shifted(low, high, Power2(k), Power2(n));
    Remainder(ToNat(a) * Power2(n), Power2(|a|), high, ToNat(Shl(a, n)));
  }

  lemma Shifted(low: int, high: int, p: int, q: int)
    ensures (low + p * high) * q == p * q * high + q * low
  {
  }

  // ---------------------------------------------------------------------------------------------
  // The FNV-1a step
  // ---------------------------------------------------------------------------------------------

  lemma SmallPowers()
    ensures Power2(1) == 2 && Power2(4) == 16
  {
  }

  lemma Power64()
    ensures Power2(64) == TWO64 && Power2(40) == 0x100_0000_0000 && Power2(8) == 256 && Power2(7) == 128
    ensures Power2(5) == 32 && Power2(4) == 16 && Power2(1) == 2
  {
    hide Power2;
    SmallPowers();
    PowerOneMore(4);
    PowerOneMore(5);
    PowerOneMore(6);
    PowerOneMore(7);
    PowerSum(8, 8);
    PowerSum(16, 16);
    PowerSum(32, 32);
    PowerSum(32, 8);
  }

  /** One more summand of the product. */
  lemma AddShifted(x: Word64, k: nat, p: nat, s: Word64, m: nat)
    requires k <= 64 && Power2(k) == p && ToNat(s) == m % TWO64
    ensures ToNat(Add(Shl(x, k), s)) == (ToNat(x) * p + m) % TWO64
  {
    hide ToNat, Power2, Add, Shl;
    Power64();
    ShlMeans(x, k);
    AddMeans(Shl(x, k), s);
    SumModulo(ToNat(x) * p, m);
  }

  /** The step multiplies by the prime. */
  lemma HashMultiplies(h: Code, d: Code)
    ensures ToNat(Hash(h, d).word) == ToNat(Xor(h.word, d.word)) * PRIME % TWO64
  {
    hide ToNat, Power2, Add, Shl, Xor;
    var x := Xor(h.word, d.word);
    var n := ToNat(x);
    Power64();
    ToNatBound(x);
    var s1 := Add(Shl(x, 1), x);
    var s4 := Add(Shl(x, 4), s1);
    var s5 := Add(Shl(x, 5), s4);
    var s7 := Add(Shl(x, 7), s5);
    var s8 := Add(Shl(x, 8), s7);
    assert n % TWO64 == n;
    AddShifted(x, 1, 2, x, n);
    AddShifted(x, 4, 16, s1, 3 * n);
    AddShifted(x, 5, 32, s4, 19 * n);
    AddShifted(x, 7, 128, s5, 51 * n);
    AddShifted(x, 8, 256, s7, 179 * n);
    AddShifted(x, 40, 0x100_0000_0000, s8, 435 * n);
  }

  lemma SumModulo(a: nat, b: nat)
    ensures (a % TWO64 + b % TWO64) % TWO64 == (a + b) % TWO64
  {
  }

  /** Multiplying by the inverse takes the multiplication back. */
  lemma PrimeIsInvertible(x: nat, y: nat)
    requires x < TWO64 && y < TWO64 && x * PRIME % TWO64 == y * PRIME % TWO64
    ensures x == y
  {
    TakeBack(x);
    TakeBack(y);
  }

  lemma TakeBack(x: nat)
    requires x < TWO64
    ensures x * PRIME % TWO64 * INVERSE % TWO64 == x
  {
    var q, r := x * PRIME / TWO64, x * PRIME % TWO64;
    var k := PRIME * INVERSE / TWO64;
    assert PRIME * INVERSE == TWO64 * k + 1;
    assert r == x * PRIME - TWO64 * q;
    assert r * INVERSE == TWO64 * (x * k - q * INVERSE) + x;
    Remainder(r * INVERSE, TWO64, x * k - q * INVERSE, x);
  }

  /** The step loses neither of its arguments. */
  lemma HashIsInjective(h: Code, d: Code, g: Code, e: Code)
    requires Hash(h, d) == Hash(g, e)
    ensures Xor(h.word, d.word) == Xor(g.word, e.word)
    ensures h == g ==> d == e
    ensures d == e ==> h == g
  {
    hide Hash, ToNat, Xor;
    HashMultiplies(h, d);
    HashMultiplies(g, e);
    Power64();
    var x, y := Xor(h.word, d.word), Xor(g.word, e.word);
    ToNatBound(x);
    ToNatBound(y);
    PrimeIsInvertible(ToNat(x), ToNat(y));
    ToNatIsInjective(x, y);
    if h == g {
      XorComm(h.word, d.word);
      XorComm(g.word, e.word);
      XorCancel(d.word, e.word, h.word);
    }
    if d == e {
      XorCancel(h.word, g.word, d.word);
    }
  }

  lemma NumbersDiffer(m: nat, n: nat)
    requires m < TWO64 && n < TWO64 && FromNumber(m) == FromNumber(n)
    ensures m == n
  {
    hide ToNat, FromNat, Power2;
    Power64();
    ToNatOfNat(m, 64);
    ToNatOfNat(n, 64);
  }

  // ---------------------------------------------------------------------------------------------
  // Codes of values that differ in one place
  // ---------------------------------------------------------------------------------------------

  /** Two sequences that differ at position `k` and nowhere else. */
  predicate DifferAt<T(==)>(a: seq<T>, b: seq<T>, k: nat) {
    |a| == |b| && k < |a| && a[k] != b[k] && forall i :: 0 <= i < |a| && i != k ==> a[i] == b[i]
  }

  lemma SamePrefix<T>(a: seq<T>, b: seq<T>, k: nat)
    requires DifferAt(a, b, k)
    ensures a[..k] == b[..k]
  {
  }

  /** Bytes that differ in one place have different codes; so have equal bytes hashed from different codes. */
  lemma {:induction false} BytesSeen(h: Code, g: Code, a: seq<Octet>, b: seq<Octet>, k: nat)
    requires if h == g then DifferAt(a, b, k) else a == b
    ensures HashBytes(h, a) != HashBytes(g, b)
    decreases |a|
  {
    hide Hash, FromNumber;
    if a != [] {
      var n := |a| - 1;
      if HashBytes(h, a) == HashBytes(g, b) {
        HashIsInjective(HashBytes(h, a[..n]), FromNumber(a[n]), HashBytes(g, b[..n]), FromNumber(b[n]));
        if h == g && k == n {
          SamePrefix(a, b, n);
          NumbersDiffer(a[n], b[n]);
        } else {
          BytesSeen(h, g, a[..n], b[..n], k);
        }
      }
    }
  }

  /** Strings of one length that differ in one byte have different codes. */
  lemma StringsSeen(f: DoubleBytes, s: string, t: string, k: nat)
    requires DifferAt(s, t, k) && AreBytes(s, t, k)
    ensures ScalarCode(f, Str(s)) != ScalarCode(f, Str(t))
  {
    hide Hash, FromNumber, HashBytes;
    assert DifferAt(StringBytes(s), StringBytes(t), k);
    BytesSeen(Hash(FromNumber(0x84222325_cbf29ce4), StringType.Tag()),
              Hash(FromNumber(0x84222325_cbf29ce4), StringType.Tag()), StringBytes(s), StringBytes(t), k);
  }

  /** The types in the order of their enumeration. */
  const TYPES := [NullType, FalseType, TrueType, ObjectType, ArrayType, StringType, NumberType]

  lemma TagsInOrder(t: Type)
    ensures t.Number() < |TYPES| && TYPES[t.Number()] == t
  {
  }

  /** The number that bytes spell, the lowest first. */
  function Spelled(bytes: seq<Octet>): nat {
    if bytes == [] then 0 else bytes[0] + 256 * Spelled(bytes[1..])
  }

  lemma {:induction false} LittleEndianSpells(n: nat, width: nat)
    ensures Spelled(LittleEndian(n, width)) == n % Power2(8 * width)
  {
    if width > 0 {
      hide Power2;
      LittleEndianSpells(n / 256, width - 1);
      assert LittleEndian(n, width)[1..] == LittleEndian(n / 256, width - 1);
      PowerSum(8 * (width - 1), 8);
      Power64();
      NextByte(n, Power2(8 * (width - 1)));
    }
  }

  lemma NextByte(n: nat, p: nat)
    requires p > 0
    ensures n % (p * 256) == n % 256 + 256 * (n / 256 % p)
  {
    var m := n / 256;
    Times(m / p, p, 256);
    Remainder(n, p * 256, m / p, n % 256 + 256 * (m % p));
  }

  /** `t` is `d` without its fraction. */
  predicate Truncates(t: int, d: real) {
    if d < 0.0 then d <= t as real < d + 1.0 && t <= 0 else d - 1.0 < t as real <= d && t >= 0
  }

  lemma WrapMeans(t: int)
    requires -0x8000_0000_0000_0000 <= t < TWO64
    ensures Wrap(t) % TWO64 == if t < 0 then t + TWO64 else t
  {
  }

  lemma WordAndRest(f: DoubleBytes, t: int, d: real)
    ensures var bytes := LittleEndian(Wrap(t), 8) + f(d);
            && |bytes| >= 8 && bytes[8..] == f(d)
            && (-0x8000_0000_0000_0000 <= t < TWO64 ==> Spelled(bytes[..8]) == if t < 0 then t + TWO64 else t)
  {
    hide Power2, Wrap, LittleEndian;
    LittleEndianSpells(Wrap(t), 8);
    Power64();
    assert Spelled(LittleEndian(Wrap(t), 8)) == Wrap(t) % TWO64;
    var bytes := LittleEndian(Wrap(t), 8) + f(d);
    assert bytes[..8] == LittleEndian(Wrap(t), 8);
    if -0x8000_0000_0000_0000 <= t < TWO64 {
      WrapMeans(t);
    }
  }

  /** The hashed bytes of a number: eight that spell the whole number in two's complement, a double losing its
      fraction, and those of the number as a double. */
  lemma NumberBytesMean(f: DoubleBytes, n: Number, t: int)
    requires if n.Double? then Truncates(t, n.d) else t == n.i
    ensures var bytes := NumberBytes(f, n);
            && |bytes| >= 8 && bytes[8..] == f(if n.Double? then n.d else n.i as real)
            && (-0x8000_0000_0000_0000 <= t < TWO64 ==> Spelled(bytes[..8]) == if t < 0 then t + TWO64 else t)
  {
    hide LittleEndian, Power2, Wrap, Spelled;
    WordAndRest(f, t, if n.Double? then n.d else n.i as real);
  }

  /** Scalars without bytes are told apart by their types. */
  lemma TypesSeen(s: Type, t: Type)
    requires s != t
    ensures Scalar(s, []) != Scalar(t, [])
  {
    hide Hash, FromNumber;
    var basis := FromNumber(0x84222325_cbf29ce4);
    if Scalar(s, []) == Scalar(t, []) {
      HashIsInjective(basis, s.Tag(), basis, t.Tag());
      NumbersDiffer(s.Number(), t.Number());
    }
  }

  lemma {:induction false} ElementSeen(h: Code, g: Code, a: seq<Code>, b: seq<Code>, k: nat)
    requires if h == g then DifferAt(a, b, k) else a == b
    ensures FoldElements(h, a) != FoldElements(g, b)
    decreases |a|
  {
    hide Hash;
    if a != [] {
      var n := |a| - 1;
      if FoldElements(h, a) == FoldElements(g, b) {
        if h == g && k == n {
          SamePrefix(a, b, n);
        } else {
          ElementSeen(h, g, a[..n], b[..n], k);
        }
        HashIsInjective(FoldElements(h, a[..n]), a[n], FoldElements(g, b[..n]), b[n]);
      }
    }
  }

  lemma MixCancel(a: Code, b: Code, c: Code)
    requires Mix(a, c) == Mix(b, c)
    ensures a == b
  {
    hide Xor;
    XorCancel(a.word, b.word, c.word);
  }

  lemma MixCancelLeft(a: Code, b: Code, c: Code)
    requires Mix(c, a) == Mix(c, b)
    ensures a == b
  {
    hide Xor;
    XorComm(c.word, a.word);
    XorComm(c.word, b.word);
    XorCancel(a.word, b.word, c.word);
  }

  lemma {:induction false} MemberSeen(h: Code, a: seq<Code>, b: seq<Code>, k: nat)
    requires DifferAt(a, b, k)
    ensures XorAll(h, a) != XorAll(h, b)
    decreases |a|
  {
    hide Mix;
    if XorAll(h, a) == XorAll(h, b) {
      if k == 0 {
        assert a[1..] == b[1..];
        MixCancelLeft(a[0], b[0], XorAll(h, a[1..]));
      } else {
        assert DifferAt(a[1..], b[1..], k - 1);
        MemberSeen(h, a[1..], b[1..], k - 1);
        MixCancel(XorAll(h, a[1..]), XorAll(h, b[1..]), a[0]);
      }
    }
  }

  /** The two trees differ in one place: another byte of a string or member name, or another of the values without
      bytes. */
  ghost predicate OneChange(v: Json, w: Json)
    decreases v
  {
    match (v, w)
    case (Arr(vs), Arr(ws)) => exists k :: 0 <= k < |vs| && DifferAt(vs, ws, k) && OneChange(vs[k], ws[k])
    case (Obj(ms), Obj(ns)) =>
      exists k :: 0 <= k < |ms| && DifferAt(ms, ns, k)
                  && ((ms[k].name == ns[k].name && OneChange(ms[k].value, ns[k].value))
                      || (ms[k].value == ns[k].value && OneByte(ms[k].name, ns[k].name)))
    case (Str(s), Str(t)) => OneByte(s, t)
    case (_, _) => v != w && (v.Null? || v.Bool?) && (w.Null? || w.Bool?)
  }

  predicate AreBytes(s: string, t: string, k: nat) {
    k < |s| && k < |t| && s[k] as int < 256 && t[k] as int < 256
  }

  ghost predicate OneByte(s: string, t: string) {
    exists k: nat :: DifferAt(s, t, k) && AreBytes(s, t, k)
  }

  /** One change anywhere in a value changes its code. */
  lemma {:induction false} ChangeIsSeen(f: DoubleBytes, v: Json, w: Json)
    requires OneChange(v, w)
    ensures TreeCode(f, v) != TreeCode(f, w)
    decreases v
  {
    hide Hash, HashBytes, FromNumber, Scalar, FoldElements, FoldMembers, XorAll;
    match (v, w)
    case (Arr(vs), Arr(ws)) =>
      var k :| 0 <= k < |vs| && DifferAt(vs, ws, k) && OneChange(vs[k], ws[k]);
      ChangeIsSeen(f, vs[k], ws[k]);
      ElementCodesAt(f, vs);
      ElementCodesAt(f, ws);
      var h := Hash(ZERO, ArrayType.Tag());
      ElementSeen(h, h, ElementCodes(f, vs), ElementCodes(f, ws), k);
    case (Obj(ms), Obj(ns)) =>
      var k :| 0 <= k < |ms| && DifferAt(ms, ns, k)
               && ((ms[k].name == ns[k].name && OneChange(ms[k].value, ns[k].value))
                   || (ms[k].value == ns[k].value && OneByte(ms[k].name, ns[k].name)));
      var a, b := PairCodes(f, ms), PairCodes(f, ns);
      if ms[k].name == ns[k].name {
        ChangeIsSeen(f, ms[k].value, ns[k].value);
      } else {
        OneByteSeen(f, ms[k].name, ns[k].name);
      }
      PairSeen(f, ms[k], ns[k]);
      var h := Hash(ZERO, ObjectType.Tag());
      MemberSeen(h, a, b, k);
      FoldMembersIsXor(f, h, ms);
      FoldMembersIsXor(f, h, ns);
    case (Str(s), Str(t)) => OneByteSeen(f, s, t);
    case (_, _) =>
      TypesSeen(NullType, FalseType);
      TypesSeen(NullType, TrueType);
      TypesSeen(FalseType, TrueType);
  }

  lemma OneByteSeen(f: DoubleBytes, s: string, t: string)
    requires OneByte(s, t)
    ensures ScalarCode(f, Str(s)) != ScalarCode(f, Str(t))
  {
    hide ScalarCode, DifferAt;
    var k: nat :| DifferAt(s, t, k) && AreBytes(s, t, k);
    StringsSeen(f, s, t, k);
  }

  lemma PairSeen(f: DoubleBytes, m: Member, n: Member)
    requires if m.name == n.name then TreeCode(f, m.value) != TreeCode(f, n.value)
             else ScalarCode(f, Str(m.name)) != ScalarCode(f, Str(n.name)) && m.value == n.value
    ensures MemberCode(f, m) != MemberCode(f, n)
  {
    hide Hash, ScalarCode, TreeCode;
    if MemberCode(f, m) == MemberCode(f, n) {
      HashIsInjective(ScalarCode(f, Str(m.name)), TreeCode(f, m.value),
                      ScalarCode(f, Str(n.name)), TreeCode(f, n.value));
    }
  }
}
