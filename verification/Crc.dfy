/**
 The CRC engine of 3rdparty/FastCRC/FastCRCsw.cpp as mathematics: bit-at-a-time division by the
 generator polynomial, the lookup tables generated from it, and the proofs that table lookups,
 slicing-by-4 and byte-swapped registers all compute that division.
 */
module Crc {
  import opened Bits

  /** A CRC algorithm: bytes enter low bit first (`Reflected`) or high bit first (`MsbFirst`).
      The register is as wide as the generator polynomial. */
  datatype Algorithm = Reflected(poly: Word) | MsbFirst(poly: Word) {
    function Width(): nat { |poly| }
    predicate Valid() { Width() == 16 || Width() == 32 }
  }

  // ---------------------------------------------------------------------------------------------
  // Bit-at-a-time division
  // ---------------------------------------------------------------------------------------------

  /** One step of the division: shift one bit out and subtract the generator if it was set. */
  function DivideBit(a: Algorithm, c: Word): (d: Word)
    requires |c| == a.Width() > 0
    ensures |d| == |c|
  {
    var out := if a.Reflected? then c[0] else c[|c| - 1];
    var shifted := if a.Reflected? then Shr(c, 1) else Shl(c, 1);
    if out then Xor(shifted, a.poly) else shifted
  }

  function DivideBits(a: Algorithm, n: nat, c: Word): (d: Word)
    requires |c| == a.Width() > 0
    ensures |d| == |c|
  {
    if n == 0 then c else DivideBits(a, n - 1, DivideBit(a, c))
  }

  /** Where the bits of the next message byte meet the register. */
  function Align(a: Algorithm, b: Byte): (w: Word)
    requires a.Valid()
    ensures |w| == a.Width()
  {
    if a.Reflected? then b + Zeros(a.Width() - 8) else Zeros(a.Width() - 8) + b
  }

  function DivideByte(a: Algorithm, c: Word, b: Byte): (d: Word)
    requires a.Valid() && |c| == a.Width()
    ensures |d| == |c|
  {
    DivideBits(a, 8, Xor(c, Align(a, b)))
  }

  /** The register after dividing the whole message, starting from register `c`. */
  function Divide(a: Algorithm, c: Word, msg: seq<Byte>): (d: Word)
    requires a.Valid() && |c| == a.Width()
    ensures |d| == |c|
  {
    if msg == [] then c
    else DivideByte(a, Divide(a, c, msg[..|msg| - 1]), msg[|msg| - 1])
  }

  // ---------------------------------------------------------------------------------------------
  // Linearity over GF(2)
  // ---------------------------------------------------------------------------------------------

  /** The register after one step, bit by bit. */
  lemma ShiftedBits(a: Algorithm, c: Word)
    requires |c| == a.Width() > 0
    ensures forall i :: 0 <= i < |c| ==>
      DivideBit(a, c)[i] ==
        if a.Reflected? then (i + 1 < |c| && c[i + 1]) != (c[0] && a.poly[i])
        else (i > 0 && c[i - 1]) != (c[|c| - 1] && a.poly[i])
  {
  }

  lemma DivideBitIsLinear(a: Algorithm, c: Word, d: Word)
    requires |c| == |d| == a.Width() > 0
    ensures DivideBit(a, Xor(c, d)) == Xor(DivideBit(a, c), DivideBit(a, d))
  {
    hide Xor, Shr, Shl;
    var sum := DivideBit(a, Xor(c, d));
    var sums := Xor(DivideBit(a, c), DivideBit(a, d));
    ShiftedBits(a, Xor(c, d));
    ShiftedBits(a, c);
    ShiftedBits(a, d);
    forall i | 0 <= i < |c| ensures sum[i] == sums[i] {
    }
  }

  lemma {:induction false} DivideBitsIsLinear(a: Algorithm, n: nat, c: Word, d: Word)
    requires |c| == |d| == a.Width() > 0
    ensures DivideBits(a, n, Xor(c, d)) == Xor(DivideBits(a, n, c), DivideBits(a, n, d))
  {
    hide DivideBit, Xor;
    if n > 0 {
      DivideBitIsLinear(a, c, d);
      DivideBitsIsLinear(a, n - 1, DivideBit(a, c), DivideBit(a, d));
    }
  }

  ghost predicate ZeroIn(c: Word, lo: nat, hi: nat) {
    hi <= |c| && forall i :: lo <= i < hi ==> !c[i]
  }

  lemma ReflectedBitShifts(a: Algorithm, n: nat, c: Word)
    requires a.Reflected? && |c| == a.Width() && 0 < n <= |c| && ZeroIn(c, 0, n)
    ensures DivideBit(a, c) == Shr(c, 1) && ZeroIn(Shr(c, 1), 0, n - 1)
  {
  }

  lemma MsbBitShifts(a: Algorithm, n: nat, c: Word)
    requires a.MsbFirst? && |c| == a.Width() && 0 < n <= |c| && ZeroIn(c, |c| - n, |c|)
    ensures DivideBit(a, c) == Shl(c, 1) && ZeroIn(Shl(c, 1), |c| - (n - 1), |c|)
  {
  }

  /** Bits that do not reach the end of the register are only shifted. */
  lemma {:induction false} ReflectedBitsShift(a: Algorithm, n: nat, c: Word)
    requires a.Reflected? && |c| == a.Width() && n <= |c| && |c| > 0
    requires ZeroIn(c, 0, n)
    ensures DivideBits(a, n, c) == Shr(c, n)
  {
    hide DivideBit, Shr, ZeroIn;
    if n > 0 {
      ReflectedBitShifts(a, n, c);
      ReflectedBitsShift(a, n - 1, Shr(c, 1));
      ShrTwice(c, n);
    } else {
      ShiftNone(c);
    }
  }

  lemma {:induction false} MsbBitsShift(a: Algorithm, n: nat, c: Word)
    requires a.MsbFirst? && |c| == a.Width() && n <= |c| && |c| > 0
    requires ZeroIn(c, |c| - n, |c|)
    ensures DivideBits(a, n, c) == Shl(c, n)
  {
    hide DivideBit, Shl, ZeroIn;
    if n > 0 {
      MsbBitShifts(a, n, c);
      MsbBitsShift(a, n - 1, Shl(c, 1));
      ShlTwice(c, n);
    } else {
      ShiftNone(c);
    }
  }

  // ---------------------------------------------------------------------------------------------
  // The register as the code keeps it, and the lookup tables
  // ---------------------------------------------------------------------------------------------

  function Rev16(w: Word): (r: Word)
    requires |w| == 16
    ensures |r| == 16
  {
    w[8..] + w[..8]
  }

  function Rev32(w: Word): (r: Word)
    requires |w| == 32
    ensures |r| == 32
    ensures r[..8] == w[24..] && r[8..16] == w[16..24] && r[16..24] == w[8..16] && r[24..] == w[..8]
  {
    var v := w[16..] + w[..16];
    assert v[..8] == w[16..24] && v[8..16] == w[24..] && v[16..24] == w[..8] && v[24..] == w[8..16];
    (v[8..16] + v[..8]) + (v[24..] + v[16..24])
  }

  /** MSB-first algorithms run in a byte-swapped register. */
  function Stored(a: Algorithm, c: Word): (r: Word)
    requires a.Valid() && |c| == a.Width()
    ensures |r| == |c|
  {
    if a.Reflected? then c else if |c| == 16 then Rev16(c) else Rev32(c)
  }

  /** Row 0 of the lookup table: the register left by dividing the single byte `x`. */
  function Table0(a: Algorithm, x: Byte): (r: Word)
    requires a.Valid()
    ensures |r| == a.Width()
  {
    Stored(a, DivideByte(a, Zeros(a.Width()), x))
  }

  /** `(r >> 8) ^ table[r & 0xff]` */
  function Advance(a: Algorithm, r: Word): (q: Word)
    requires a.Valid() && |r| == a.Width()
    ensures |q| == |r|
  {
    Xor(Shr(r, 8), Table0(a, r[..8]))
  }

  /** Row `k` of the table; each row advances the one before it by one byte. */
  function Table(a: Algorithm, k: nat, x: Byte): (r: Word)
    requires a.Valid()
    ensures |r| == a.Width()
  {
    if k == 0 then Table0(a, x) else Advance(a, Table(a, k - 1, x))
  }

  /** `(r >> 8) ^ table[(r & 0xff) ^ b]`, the byte loop of every `_upd` method. */
  function TableStep(a: Algorithm, r: Word, b: Byte): (q: Word)
    requires a.Valid() && |r| == a.Width()
    ensures |q| == |r|
  {
    Xor(Shr(r, 8), Table0(a, Xor(r[..8], b)))
  }

  /** The table-driven register after a whole message. */
  function Feed(a: Algorithm, r: Word, msg: seq<Byte>): (q: Word)
    requires a.Valid() && |r| == a.Width()
    ensures |q| == |r|
  {
    if msg == [] then r
    else TableStep(a, Feed(a, r, msg[..|msg| - 1]), msg[|msg| - 1])
  }

  lemma FourBytes(x: Word, y: Word)
    requires |x| == |y| == 32
    requires x[..8] == y[..8] && x[8..16] == y[8..16] && x[16..24] == y[16..24] && x[24..] == y[24..]
    ensures x == y
  {
    assert x == x[..8] + x[8..16] + x[16..24] + x[24..];
    assert y == y[..8] + y[8..16] + y[16..24] + y[24..];
  }

  lemma XorSlice(c: Word, d: Word, lo: nat, hi: nat)
    requires |c| == |d| && lo <= hi <= |c|
    ensures Xor(c, d)[lo..hi] == Xor(c[lo..hi], d[lo..hi])
  {
  }

  lemma Rev32IsLinear(c: Word, d: Word)
    requires |c| == |d| == 32
    ensures Rev32(Xor(c, d)) == Xor(Rev32(c), Rev32(d))
  {
    var x, y := Rev32(Xor(c, d)), Xor(Rev32(c), Rev32(d));
    hide Xor;
    XorSlice(c, d, 0, 8);
    XorSlice(c, d, 8, 16);
    XorSlice(c, d, 16, 24);
    XorSlice(c, d, 24, 32);
    XorSlice(Rev32(c), Rev32(d), 0, 8);
    XorSlice(Rev32(c), Rev32(d), 8, 16);
    XorSlice(Rev32(c), Rev32(d), 16, 24);
    XorSlice(Rev32(c), Rev32(d), 24, 32);
    FourBytes(x, y);
  }

  lemma StoredIsLinear(a: Algorithm, c: Word, d: Word)
    requires a.Valid() && |c| == |d| == a.Width()
    ensures Stored(a, Xor(c, d)) == Xor(Stored(a, c), Stored(a, d))
  {
    if a.MsbFirst? {
      if |c| == 16 {
        assert Rev16(Xor(c, d)) == Xor(Rev16(c), Rev16(d));
      } else {
        Rev32IsLinear(c, d);
      }
    }
  }

  lemma StoredTwice(a: Algorithm, c: Word)
    requires a.Valid() && |c| == a.Width()
    ensures Stored(a, Stored(a, c)) == c
  {
  }

  /** A byte already in place at the outgoing end of an otherwise empty register. */
  lemma DivideAligned(a: Algorithm, x: Byte)
    requires a.Valid()
    ensures Stored(a, DivideBits(a, 8, Align(a, x))) == Table0(a, x)
  {
    hide DivideBits, Align;
    XorZero(Align(a, x));
  }

  lemma StoredShift(a: Algorithm, c: Word, rest: Word)
    requires a.Valid() && |c| == |rest| == a.Width()
    requires a.Reflected? ==> ZeroIn(rest, 0, 8) && rest[8..] == c[8..]
    requires a.MsbFirst? ==> ZeroIn(rest, |c| - 8, |c|) && rest[..|c| - 8] == c[..|c| - 8]
    ensures Stored(a, DivideBits(a, 8, rest)) == Shr(Stored(a, c), 8)
  {
    hide DivideBits;
    if a.Reflected? {
      ReflectedBitsShift(a, 8, rest);
    } else {
      MsbBitsShift(a, 8, rest);
      if |c| == 16 {
        assert Rev16(Shl(rest, 8)) == Shr(Rev16(c), 8);
      } else {
        var s := Shl(rest, 8);
        assert s == Zeros(8) + c[..24];
        assert s[24..] == c[16..24] && s[16..24] == c[8..16] && s[8..16] == c[..8] && s[..8] == Zeros(8);
        assert Rev32(s) == Shr(Rev32(c), 8);
      }
    }
  }

  /** The outgoing byte of the register, in both representations. */
  function OutgoingByte(a: Algorithm, c: Word): Byte
    requires a.Valid() && |c| == a.Width()
  {
    if a.Reflected? then c[..8] else c[|c| - 8..]
  }

  lemma OutgoingIsLow(a: Algorithm, c: Word)
    requires a.Valid() && |c| == a.Width()
    ensures Stored(a, c)[..8] == OutgoingByte(a, c)
  {
  }

  lemma AlignMeets(a: Algorithm, b: Byte)
    requires a.Valid()
    ensures forall i :: 0 <= i < 8 ==> Align(a, b)[if a.Reflected? then i else a.Width() - 8 + i] == b[i]
  {
  }

  lemma OutgoingByteStored(a: Algorithm, c: Word, b: Byte)
    requires a.Valid() && |c| == a.Width()
    ensures OutgoingByte(a, Xor(c, Align(a, b))) == Xor(Stored(a, c)[..8], b)
  {
    hide Xor, Stored, Align;
    OutgoingIsLow(a, c);
    var out := OutgoingByte(a, Xor(c, Align(a, b)));
    AlignMeets(a, b);
    forall i | 0 <= i < 8 ensures out[i] == (OutgoingByte(a, c)[i] != b[i]) {
      assert a.MsbFirst? ==> out[i] == Xor(c, Align(a, b))[|c| - 8 + i];
    }
  }

  /** The register without its outgoing byte. */
  function Remainder(a: Algorithm, c: Word): (r: Word)
    requires a.Valid() && |c| == a.Width()
    ensures |r| == |c|
  {
    if a.Reflected? then Zeros(8) + c[8..] else c[..|c| - 8] + Zeros(8)
  }

  lemma SplitRegister(a: Algorithm, c: Word)
    requires a.Valid() && |c| == a.Width()
    ensures c == Xor(Align(a, OutgoingByte(a, c)), Remainder(a, c))
  {
  }

  lemma RemainderShifts(a: Algorithm, c: Word, b: Byte)
    requires a.Valid() && |c| == a.Width()
    ensures Stored(a, DivideBits(a, 8, Remainder(a, Xor(c, Align(a, b))))) == Shr(Stored(a, c), 8)
  {
    hide DivideBits, Stored;
    StoredShift(a, c, Remainder(a, Xor(c, Align(a, b))));
  }

  /** One table lookup divides one byte. */
  lemma TableStepDivides(a: Algorithm, c: Word, b: Byte)
    requires a.Valid() && |c| == a.Width()
    ensures Stored(a, DivideByte(a, c, b)) == TableStep(a, Stored(a, c), b)
  {
    hide DivideBits, Stored, OutgoingByte, Remainder, Align, Xor, Table0, Shr;
    var x := Xor(c, Align(a, b));
    var byte := OutgoingByte(a, x);
    var top, rest := Align(a, byte), Remainder(a, x);
    SplitRegister(a, x);
    DivideBitsIsLinear(a, 8, top, rest);
    StoredIsLinear(a, DivideBits(a, 8, top), DivideBits(a, 8, rest));
    DivideAligned(a, byte);
    OutgoingByteStored(a, c, b);
    RemainderShifts(a, c, b);
    XorComm(Table0(a, byte), Shr(Stored(a, c), 8));
  }

  /** The table-driven byte loop is the bit-at-a-time division, in the stored register. */
  lemma {:induction false} FeedDivides(a: Algorithm, c: Word, msg: seq<Byte>)
    requires a.Valid() && |c| == a.Width()
    ensures Stored(a, Divide(a, c, msg)) == Feed(a, Stored(a, c), msg)
  {
    if msg != [] {
      FeedDivides(a, c, msg[..|msg| - 1]);
      TableStepDivides(a, Divide(a, c, msg[..|msg| - 1]), msg[|msg| - 1]);
    }
  }

  // ---------------------------------------------------------------------------------------------
  // Slicing by four
  // ---------------------------------------------------------------------------------------------

  lemma Table0IsLinear(a: Algorithm, x: Byte, y: Byte)
    requires a.Valid()
    ensures Table0(a, Xor(x, y)) == Xor(Table0(a, x), Table0(a, y))
  {
    var z := Zeros(a.Width());
    XorZero(Align(a, x));
    XorZero(Align(a, y));
    XorZero(Align(a, Xor(x, y)));
    assert Align(a, Xor(x, y)) == Xor(Align(a, x), Align(a, y));
    DivideBitsIsLinear(a, 8, Align(a, x), Align(a, y));
    StoredIsLinear(a, DivideBits(a, 8, Align(a, x)), DivideBits(a, 8, Align(a, y)));
  }

  lemma Table0OfZero(a: Algorithm)
    requires a.Valid()
    ensures Table0(a, Zeros(8)) == Zeros(a.Width())
  {
    Table0IsLinear(a, Zeros(8), Zeros(8));
    XorZero(Zeros(8));
    var t := Table0(a, Zeros(8));
    assert forall i :: 0 <= i < |t| ==> Xor(t, t)[i] == false;
  }

  lemma AdvanceIsLinear(a: Algorithm, r: Word, q: Word)
    requires a.Valid() && |r| == |q| == a.Width()
    ensures Advance(a, Xor(r, q)) == Xor(Advance(a, r), Advance(a, q))
  {
    assert Xor(r, q)[..8] == Xor(r[..8], q[..8]);
    Table0IsLinear(a, r[..8], q[..8]);
    ShrXor(r, q, 8);
    XorSwap(Shr(r, 8), Shr(q, 8), Table0(a, r[..8]), Table0(a, q[..8]));
  }

  function AdvanceN(a: Algorithm, n: nat, r: Word): (q: Word)
    requires a.Valid() && |r| == a.Width()
    ensures |q| == |r|
  {
    if n == 0 then r else Advance(a, AdvanceN(a, n - 1, r))
  }

  lemma {:induction false} AdvanceNIsLinear(a: Algorithm, n: nat, r: Word, q: Word)
    requires a.Valid() && |r| == |q| == a.Width()
    ensures AdvanceN(a, n, Xor(r, q)) == Xor(AdvanceN(a, n, r), AdvanceN(a, n, q))
  {
    hide Advance, Xor;
    if n > 0 {
      AdvanceNIsLinear(a, n - 1, r, q);
      AdvanceIsLinear(a, AdvanceN(a, n - 1, r), AdvanceN(a, n - 1, q));
    }
  }

  lemma {:induction false} AdvanceNFirst(a: Algorithm, n: nat, r: Word)
    requires a.Valid() && |r| == a.Width()
    ensures AdvanceN(a, n + 1, r) == AdvanceN(a, n, Advance(a, r))
  {
    hide Advance;
    if n > 0 {
      AdvanceNFirst(a, n - 1, r);
    }
  }

  function Pad(b: Word, w: nat): (r: Word)
    requires |b| <= w
    ensures |r| == w
  {
    b + Zeros(w - |b|)
  }

  /** Row `n` of the table is the single byte `x` advanced `n + 1` times. */
  lemma {:induction false} TableRow(a: Algorithm, n: nat, x: Byte)
    requires a.Valid()
    ensures AdvanceN(a, n + 1, Pad(x, a.Width())) == Table(a, n, x)
  {
    var w := a.Width();
    if n == 0 {
      assert Shr(Pad(x, w), 8) == Zeros(w);
      XorZero(Table0(a, x));
      assert AdvanceN(a, 1, Pad(x, w)) == Advance(a, AdvanceN(a, 0, Pad(x, w)));
    } else {
      TableRow(a, n - 1, x);
    }
  }

  lemma SplitLow(r: Word)
    requires |r| >= 8
    ensures r == Xor(Pad(r[..8], |r|), Zeros(8) + r[8..])
  {
  }

  lemma AdvanceShifted(a: Algorithm, r: Word)
    requires a.Valid() && |r| == a.Width()
    ensures Advance(a, Zeros(8) + r[8..]) == Shr(r, 8)
  {
    hide Table0;
    var high := Zeros(8) + r[8..];
    Table0OfZero(a);
    assert high[..8] == Zeros(8);
    XorZero(Shr(high, 8));
    assert Shr(high, 8) == Shr(r, 8);
  }

  /** The low byte of the register goes through one table row, the rest needs one step less. */
  lemma PeelByte(a: Algorithm, n: nat, r: Word)
    requires a.Valid() && |r| == a.Width()
    ensures AdvanceN(a, n + 1, r) == Xor(Table(a, n, r[..8]), AdvanceN(a, n, Shr(r, 8)))
  {
    hide Advance, AdvanceN, Table;
    var w := a.Width();
    var low, high := Pad(r[..8], w), Zeros(8) + r[8..];
    SplitLow(r);
    AdvanceNIsLinear(a, n + 1, low, high);
    TableRow(a, n, r[..8]);
    AdvanceNFirst(a, n, high);
    AdvanceShifted(a, r);
  }

  lemma {:induction false} AdvanceNOfZero(a: Algorithm, n: nat)
    requires a.Valid()
    ensures AdvanceN(a, n, Zeros(a.Width())) == Zeros(a.Width())
  {
    var z := Zeros(a.Width());
    hide Advance;
    if n > 0 {
      AdvanceNOfZero(a, n - 1);
      AdvanceShifted(a, z);
      assert z == Zeros(8) + z[8..] && Shr(z, 8) == z;
    }
  }

  function Concat(low: Word, high: Word): (w: Word)
    ensures |w| == |low| + |high|
  {
    low + high
  }

  /** Little-endian concatenation of bytes, as `load_u32_le` does for four. */
  function Load(bytes: seq<Byte>): (w: Word)
    ensures |w| == 8 * |bytes|
  {
    if bytes == [] then [] else Concat(Load(bytes[..|bytes| - 1]), bytes[|bytes| - 1])
  }

  /** Byte `b` in lane `n` of an otherwise empty register. */
  function Lane(b: Byte, n: nat, w: nat): (r: Word)
    requires 8 * n + 8 <= w
    ensures |r| == w
  {
    Zeros(8 * n) + b + Zeros(w - 8 * n - 8)
  }

  lemma LoadLast(bytes: seq<Byte>, w: nat)
    requires bytes != [] && 8 * |bytes| <= w
    ensures var n := |bytes| - 1;
            Pad(Load(bytes), w) == Xor(Pad(Load(bytes[..n]), w), Lane(bytes[n], n, w))
  {
    var n := |bytes| - 1;
    var front := Load(bytes[..n]);
    var b := bytes[n];
    var w0, w1, w2 := Pad(Load(bytes), w), Pad(front, w), Lane(b, n, w);
    hide Load;
    assert |front| == 8 * n;
    forall i | 0 <= i < w ensures w0[i] == Xor(w1, w2)[i] {
      if i < 8 * n {
      } else if i < 8 * n + 8 {
        assert w0[i] == b[i - 8 * n] && w2[i] == b[i - 8 * n] && !w1[i];
      } else {
      }
    }
  }

  lemma {:induction false} LaneReachesLowEnd(a: Algorithm, n: nat, b: Byte)
    requires a.Valid() && 8 * n + 8 <= a.Width()
    ensures AdvanceN(a, n, Lane(b, n, a.Width())) == Pad(b, a.Width())
  {
    hide Advance;
    var w := a.Width();
    if n == 0 {
      assert Lane(b, n, w) == Pad(b, w);
    } else {
      LaneReachesLowEnd(a, n - 1, b);
      AdvanceNFirst(a, n - 1, Lane(b, n, w));
      AdvanceShifted(a, Lane(b, n, w));
      assert Lane(b, n, w) == Zeros(8) + Lane(b, n, w)[8..];
      assert Shr(Lane(b, n, w), 8) == Lane(b, n - 1, w);
    }
  }

  lemma TableStepAsAdvance(a: Algorithm, r: Word, b: Byte)
    requires a.Valid() && |r| == a.Width()
    ensures TableStep(a, r, b) == Advance(a, Xor(r, Pad(b, |r|)))
  {
    hide Table0;
    var x := Xor(r, Pad(b, |r|));
    assert x[..8] == Xor(r[..8], b);
    assert Shr(x, 8) == Shr(r, 8);
  }

  /** As long as the bytes fit the register, they can all be added before advancing. */
  lemma {:induction false} FeedLoads(a: Algorithm, r: Word, bytes: seq<Byte>)
    requires a.Valid() && |r| == a.Width() && 8 * |bytes| <= |r|
    ensures Feed(a, r, bytes) == AdvanceN(a, |bytes|, Xor(r, Pad(Load(bytes), |r|)))
  {
    hide Advance, TableStep, Lane;
    var w := |r|;
    if bytes == [] {
      XorZero(r);
      assert Pad(Load(bytes), w) == Zeros(w);
    } else {
      hide Pad, Load, Xor;
      var n := |bytes| - 1;
      var before, last := Pad(Load(bytes[..n]), w), Lane(bytes[n], n, w);
      FeedLoads(a, r, bytes[..n]);
      TableStepAsAdvance(a, Feed(a, r, bytes[..n]), bytes[n]);
      LaneReachesLowEnd(a, n, bytes[n]);
      AdvanceNIsLinear(a, n, Xor(r, before), last);
      LoadLast(bytes, w);
      XorAssoc(r, before, last);
    }
  }

  /** The macro `crc_n4d`: four bytes through a 32-bit register with one lookup per table row. */
  function Slice32(a: Algorithm, crc: Word, data: Word): (q: Word)
    requires a.Valid() && |crc| == a.Width() == |data| == 32
    ensures |q| == 32
  {
    var c := Xor(crc, data);
    Xor(Xor(Table(a, 3, c[..8]), Table(a, 2, c[8..16])), Xor(Table(a, 1, c[16..24]), Table(a, 0, c[24..])))
  }

  /** The macro `crc_n4`: a 16-bit register; the upper half of the data meets the tables directly. */
  function Slice16(a: Algorithm, crc: Word, data: Word): (q: Word)
    requires a.Valid() && |crc| == a.Width() == 16 && |data| == 32
    ensures |q| == 16
  {
    var c := Xor(crc, data[..16]);
    Xor(Xor(Table(a, 3, c[..8]), Table(a, 2, c[8..])), Xor(Table(a, 1, data[16..24]), Table(a, 0, data[24..])))
  }

  /** The macro `crcsm_n4d`: the same with only the small table. */
  function SliceSmall(a: Algorithm, crc: Word, data: Word): (q: Word)
    requires a.Valid() && |crc| == a.Width() == |data| == 32
    ensures |q| == 32
  {
    Advance(a, Advance(a, Advance(a, Advance(a, Xor(crc, data)))))
  }

  lemma FourLanes(c: Word)
    requires |c| == 32
    ensures Shr(c, 8)[..8] == c[8..16]
    ensures Shr(Shr(c, 8), 8)[..8] == c[16..24]
    ensures Shr(Shr(Shr(c, 8), 8), 8)[..8] == c[24..]
    ensures Shr(Shr(Shr(Shr(c, 8), 8), 8), 8) == Zeros(32)
  {
  }

  lemma Slice32Feeds(a: Algorithm, r: Word, bytes: seq<Byte>)
    requires a.Valid() && |r| == a.Width() == 32 && |bytes| == 4
    ensures Slice32(a, r, Load(bytes)) == Feed(a, r, bytes)
  {
    hide Table, Feed, Load, Advance, AdvanceN, Xor;
    FeedLoads(a, r, bytes);
    assert Pad(Load(bytes), 32) == Load(bytes);
    PeelFour(a, Xor(r, Load(bytes)));
  }

  lemma PeelFour(a: Algorithm, c: Word)
    requires a.Valid() && |c| == a.Width() == 32
    ensures AdvanceN(a, 4, c) ==
            Xor(Xor(Table(a, 3, c[..8]), Table(a, 2, c[8..16])), Xor(Table(a, 1, c[16..24]), Table(a, 0, c[24..])))
  {
    hide Table, Advance, AdvanceN, Shr, Xor;
    var c1, c2, c3 := Shr(c, 8), Shr(Shr(c, 8), 8), Shr(Shr(Shr(c, 8), 8), 8);
    FourLanes(c);
    PeelByte(a, 3, c);
    PeelByte(a, 2, c1);
    PeelByte(a, 1, c2);
    PeelByte(a, 0, c3);
    AdvanceNOfZero(a, 0);
    var t3, t2, t1, t0 := Table(a, 3, c[..8]), Table(a, 2, c[8..16]), Table(a, 1, c[16..24]), Table(a, 0, c[24..]);
    XorZero(t0);
    XorAssoc(t3, t2, Xor(t1, t0));
  }

  lemma SliceSmallFeeds(a: Algorithm, r: Word, bytes: seq<Byte>)
    requires a.Valid() && |r| == a.Width() == 32 && |bytes| == 4
    ensures SliceSmall(a, r, Load(bytes)) == Feed(a, r, bytes)
  {
    FeedLoads(a, r, bytes);
    assert Pad(Load(bytes), 32) == Load(bytes);
    var c := Xor(r, Load(bytes));
    assert AdvanceN(a, 4, c) == Advance(a, AdvanceN(a, 3, c));
    assert AdvanceN(a, 3, c) == Advance(a, AdvanceN(a, 2, c));
    assert AdvanceN(a, 2, c) == Advance(a, AdvanceN(a, 1, c));
    assert AdvanceN(a, 1, c) == Advance(a, AdvanceN(a, 0, c));
  }

  lemma ShiftTwoBytes(r: Word)
    requires |r| == 16
    ensures Shr(r, 8)[..8] == r[8..] && Shr(Shr(r, 8), 8) == Zeros(16)
  {
  }

  /** Two bytes of a 16-bit register through two table rows starting at row `n`. */
  lemma PeelTwo(a: Algorithm, n: nat, r: Word)
    requires a.Valid() && |r| == a.Width() == 16
    ensures AdvanceN(a, n + 2, r) == Xor(Table(a, n + 1, r[..8]), Table(a, n, r[8..]))
  {
    hide Table, AdvanceN, Xor, Shr;
    PeelByte(a, n + 1, r);
    PeelByte(a, n, Shr(r, 8));
    ShiftTwoBytes(r);
    AdvanceNOfZero(a, n);
    XorZero(Table(a, n, r[8..]));
  }

  lemma PeelPairs(a: Algorithm, c: Word, high: Word)
    requires a.Valid() && |c| == |high| == a.Width() == 16
    ensures AdvanceN(a, 2, Xor(AdvanceN(a, 2, c), high)) ==
            Xor(Xor(Table(a, 3, c[..8]), Table(a, 2, c[8..])), Xor(Table(a, 1, high[..8]), Table(a, 0, high[8..])))
  {
    hide Table, AdvanceN, Xor;
    AdvanceNIsLinear(a, 2, AdvanceN(a, 2, c), high);
    AdvanceNAdds(a, 2, 2, c);
    PeelTwo(a, 2, c);
    PeelTwo(a, 0, high);
  }

  lemma {:induction false} AdvanceNAdds(a: Algorithm, m: nat, n: nat, r: Word)
    requires a.Valid() && |r| == a.Width()
    ensures AdvanceN(a, m, AdvanceN(a, n, r)) == AdvanceN(a, m + n, r)
  {
    hide Advance;
    if m > 0 {
      AdvanceNAdds(a, m - 1, n, r);
    }
  }

  lemma LoadHalves(bytes: seq<Byte>)
    requires |bytes| == 4
    ensures Load(bytes)[..16] == Load(bytes[..2]) == Pad(Load(bytes[..2]), 16)
    ensures Load(bytes)[16..24] == Load(bytes[2..])[..8]
    ensures Load(bytes)[24..] == Load(bytes[2..])[8..]
    ensures Load(bytes[2..]) == Pad(Load(bytes[2..]), 16)
  {
    LoadPair(bytes[..2]);
    LoadPair(bytes[2..]);
    LoadFour(bytes);
  }

  lemma Slice16Feeds(a: Algorithm, r: Word, bytes: seq<Byte>)
    requires a.Valid() && |r| == a.Width() == 16 && |bytes| == 4
    ensures Slice16(a, r, Load(bytes)) == Feed(a, r, bytes)
  {
    hide Table, Feed, Load, Advance, AdvanceN, Pad, Xor;
    var front, back := bytes[..2], bytes[2..];
    var low, high := Load(front), Load(back);
    assert bytes == front + back;
    FeedAppend(a, r, front, back);
    LoadHalves(bytes);
    FeedLoads(a, r, front);
    var c := Xor(r, low);
    FeedLoads(a, AdvanceN(a, 2, c), back);
    PeelPairs(a, c, high);
  }

  lemma LoadPair(bytes: seq<Byte>)
    requires |bytes| == 2
    ensures Load(bytes) == Concat(bytes[0], bytes[1])
  {
    assert bytes[..1][..0] == [];
    assert Load(bytes[..1]) == Load(bytes[..1][..0]) + bytes[0];
  }

  lemma LoadFour(bytes: seq<Byte>)
    requires |bytes| == 4
    ensures Load(bytes) == Concat(Concat(bytes[0], bytes[1]), Concat(bytes[2], bytes[3]))
  {
    LoadPair(bytes[..2]);
    assert bytes[..3][..2] == bytes[..2];
    assert Load(bytes[..3]) == Load(bytes[..2]) + bytes[2];
    assert Load(bytes) == Load(bytes[..3]) + bytes[3];
  }

  // ---------------------------------------------------------------------------------------------
  // Incremental updates
  // ---------------------------------------------------------------------------------------------

  lemma {:induction false} FeedAppend(a: Algorithm, r: Word, m: seq<Byte>, n: seq<Byte>)
    requires a.Valid() && |r| == a.Width()
    ensures Feed(a, r, m + n) == Feed(a, Feed(a, r, m), n)
  {
    hide TableStep;
    if n == [] {
      assert m + n == m;
    } else {
      var k := |n| - 1;
      assert (m + n)[..|m| + k] == m + n[..k];
      FeedAppend(a, r, m, n[..k]);
    }
  }

  function Flatten(chunks: seq<seq<Byte>>): seq<Byte> {
    if chunks == [] then [] else Flatten(chunks[..|chunks| - 1]) + chunks[|chunks| - 1]
  }

  // ---------------------------------------------------------------------------------------------
  // Burst detection
  // ---------------------------------------------------------------------------------------------

  /** The generator's constant coefficient is 1, so no step of the division loses information. */
  predicate Reversible(a: Algorithm) {
    a.Valid() && if a.Reflected? then a.poly[|a.poly| - 1] else a.poly[0]
  }

  lemma DivideBitIsInjective(a: Algorithm, c: Word, d: Word)
    requires Reversible(a) && |c| == |d| == a.Width()
    requires DivideBit(a, c) == DivideBit(a, d)
    ensures c == d
  {
    var w := |c|;
    var x, y := DivideBit(a, c), DivideBit(a, d);
    if a.Reflected? {
      assert x[w - 1] == c[0] && y[w - 1] == d[0];
      forall i | 1 <= i < w ensures c[i] == d[i] {
        assert x[i - 1] == (c[i] != (c[0] && a.poly[i - 1]));
        assert y[i - 1] == (d[i] != (d[0] && a.poly[i - 1]));
      }
    } else {
      assert x[0] == c[w - 1] && y[0] == d[w - 1];
      forall i | 0 <= i < w - 1 ensures c[i] == d[i] {
        assert x[i + 1] == (c[i] != (c[w - 1] && a.poly[i + 1]));
        assert y[i + 1] == (d[i] != (d[w - 1] && a.poly[i + 1]));
      }
    }
  }

  lemma {:induction false} DivideBitsIsInjective(a: Algorithm, n: nat, c: Word, d: Word)
    requires Reversible(a) && |c| == |d| == a.Width()
    requires DivideBits(a, n, c) == DivideBits(a, n, d)
    ensures c == d
  {
    if n > 0 {
      DivideBitsIsInjective(a, n - 1, DivideBit(a, c), DivideBit(a, d));
      DivideBitIsInjective(a, c, d);
    }
  }

  /** Distinct registers stay distinct while they divide the same bytes. */
  lemma {:induction false} FeedIsInjective(a: Algorithm, r: Word, q: Word, msg: seq<Byte>)
    requires Reversible(a) && |r| == |q| == a.Width()
    requires Feed(a, r, msg) == Feed(a, q, msg)
    ensures r == q
  {
    hide TableStep, DivideByte;
    if msg != [] {
      var front, b := msg[..|msg| - 1], msg[|msg| - 1];
      var r1, q1 := Feed(a, r, front), Feed(a, q, front);
      TableStepIsInjective(a, r1, q1, b);
      FeedIsInjective(a, r, q, front);
    }
  }

  lemma TableStepIsInjective(a: Algorithm, r: Word, q: Word, b: Byte)
    requires Reversible(a) && |r| == |q| == a.Width()
    requires TableStep(a, r, b) == TableStep(a, q, b)
    ensures r == q
  {
    hide TableStep, DivideBits, Stored;
    StoredTwice(a, r);
    StoredTwice(a, q);
    var c, d := Stored(a, r), Stored(a, q);
    TableStepDivides(a, c, b);
    TableStepDivides(a, d, b);
    StoredTwice(a, DivideByte(a, c, b));
    StoredTwice(a, DivideByte(a, d, b));
    DivideBitsIsInjective(a, 8, Xor(c, Align(a, b)), Xor(d, Align(a, b)));
    XorCancel(c, d, Align(a, b));
  }

  lemma {:induction false} LoadIsInjective(m: seq<Byte>, n: seq<Byte>)
    requires |m| == |n| && Load(m) == Load(n)
    ensures m == n
  {
    if m != [] {
      var k := |m| - 1;
      var x, y := Load(m[..k]), Load(n[..k]);
      assert Load(m)[..8 * k] == x && Load(n)[..8 * k] == y;
      assert Load(m)[8 * k..] == m[k] && Load(n)[8 * k..] == n[k];
      LoadIsInjective(m[..k], n[..k]);
      assert m == m[..k] + [m[k]] && n == n[..k] + [n[k]];
    }
  }

  lemma {:induction false} AdvanceNIsInjective(a: Algorithm, n: nat, r: Word, q: Word)
    requires Reversible(a) && |r| == |q| == a.Width()
    requires AdvanceN(a, n, r) == AdvanceN(a, n, q)
    ensures r == q
  {
    hide Advance, TableStep;
    if n > 0 {
      var r1, q1 := AdvanceN(a, n - 1, r), AdvanceN(a, n - 1, q);
      TableStepAsAdvance(a, r1, Zeros(8));
      TableStepAsAdvance(a, q1, Zeros(8));
      assert Pad(Zeros(8), |r|) == Zeros(|r|);
      XorZero(r1);
      XorZero(q1);
      TableStepIsInjective(a, r1, q1, Zeros(8));
      AdvanceNIsInjective(a, n - 1, r, q);
    }
  }

  /** Different bytes that fit the register together leave different registers. */
  lemma WindowIsInjective(a: Algorithm, r: Word, m: seq<Byte>, n: seq<Byte>)
    requires Reversible(a) && |r| == a.Width()
    requires |m| == |n| && 8 * |m| <= |r| && m != n
    ensures Feed(a, r, m) != Feed(a, r, n)
  {
    hide Feed, AdvanceN;
    if Feed(a, r, m) == Feed(a, r, n) {
      FeedLoads(a, r, m);
      FeedLoads(a, r, n);
      var x, y := Pad(Load(m), |r|), Pad(Load(n), |r|);
      AdvanceNIsInjective(a, |m|, Xor(r, x), Xor(r, y));
      XorComm(r, x);
      XorComm(r, y);
      XorCancel(x, y, r);
      assert Load(m) == x[..8 * |m|] && Load(n) == y[..8 * |m|];
      LoadIsInjective(m, n);
    }
  }

  /** Only the middle parts differ. */
  lemma BurstInParts(a: Algorithm, r: Word, front: seq<Byte>, x: seq<Byte>, y: seq<Byte>, back: seq<Byte>)
    requires Reversible(a) && |r| == a.Width() && |x| == |y| && 8 * |x| <= a.Width() && x != y
    ensures Feed(a, r, front + x + back) != Feed(a, r, front + y + back)
  {
    hide Feed;
    FeedAppend(a, r, front + x, back);
    FeedAppend(a, r, front + y, back);
    FeedAppend(a, r, front, x);
    FeedAppend(a, r, front, y);
    var q := Feed(a, r, front);
    WindowIsInjective(a, q, x, y);
    if Feed(a, Feed(a, q, x), back) == Feed(a, Feed(a, q, y), back) {
      FeedIsInjective(a, Feed(a, q, x), Feed(a, q, y), back);
    }
  }

  lemma InParts(m: seq<Byte>, lo: nat, hi: nat)
    requires lo <= hi <= |m|
    ensures m == m[..lo] + m[lo..hi] + m[hi..]
  {
  }

  /**
   Two different messages of the same length that agree outside a window no longer than the
   register get different CRCs, whatever the starting register: every such burst is detected.
   */
  lemma BurstIsDetected(a: Algorithm, c: Word, m: seq<Byte>, n: seq<Byte>, lo: nat, hi: nat)
    requires Reversible(a) && |c| == a.Width()
    requires |m| == |n| && lo <= hi <= |m| && 8 * (hi - lo) <= a.Width()
    requires m[..lo] == n[..lo] && m[hi..] == n[hi..] && m != n
    ensures Divide(a, c, m) != Divide(a, c, n)
  {
    hide Feed, Divide, Stored;
    FeedDivides(a, c, m);
    FeedDivides(a, c, n);
    InParts(m, lo, hi);
    InParts(n, lo, hi);
    BurstInParts(a, Stored(a, c), m[..lo], m[lo..hi], n[lo..hi], m[hi..]);
  }
}
