/**
 The classes of 3rdparty/FastCRC/FastCRCsw.cpp: a running `seed` advanced by update methods that
 walk the buffer in three loops, an alignment prologue, 16-byte blocks and a byte tail. The address
 of the buffer is a parameter because the prologue depends on it.
 */
module FastCrc {
  import opened Bits
  import opened Crc

  type Word16 = w: Word | |w| == 16 witness Zeros(16)
  type Word32 = w: Word | |w| == 32 witness Zeros(32)

  const CCITT := MsbFirst(FromNat(0x1021, 16))
  const MCRF4XX := Reflected(Mirror(FromNat(0x1021, 16)))
  const CRC32 := Reflected(Mirror(FromNat(0x04C11DB7, 32)))
  const CKSUM := MsbFirst(FromNat(0x04C11DB7, 32))
  const ONES16: Word16 := Not(Zeros(16))
  const ONES32: Word32 := Not(Zeros(32))

  lemma FeedNothing(a: Algorithm, r: Word, data: seq<Byte>)
    requires a.Valid() && |r| == a.Width()
    ensures Feed(a, r, data[..0]) == r
    ensures data[..|data|] == data
  {
  }

  lemma FeedOne(a: Algorithm, r: Word, data: seq<Byte>, i: nat)
    requires a.Valid() && |r| == a.Width() && i < |data|
    ensures Feed(a, r, data[..i + 1]) == TableStep(a, Feed(a, r, data[..i]), data[i])
  {
    hide TableStep;
    assert data[..i + 1][..i] == data[..i];
  }

  lemma FeedFour(a: Algorithm, r: Word, data: seq<Byte>, i: nat)
    requires a.Valid() && |r| == a.Width() && i + 4 <= |data|
    ensures Feed(a, r, data[..i + 4]) == Feed(a, Feed(a, r, data[..i]), data[i..i + 4])
  {
    hide Feed;
    assert data[..i + 4] == data[..i] + data[i..i + 4];
    FeedAppend(a, r, data[..i], data[i..i + 4]);
  }

  class FastCRC16 {
    var seed: Word16

    constructor ()
      ensures seed == Zeros(16)
    {
      seed := Zeros(16);
    }

    /** `crc_n4`: the next four bytes of the block, read as one word at an aligned address. */
    method Next(a: Algorithm, ghost start: Word16, crc: Word16, data: seq<Byte>, ghost address: nat, i: nat)
      returns (next: Word16)
      requires a.Valid() && a.Width() == 16 && i + 4 <= |data| && (address + i) % 4 == 0
      requires crc == Feed(a, start, data[..i])
      ensures next == Feed(a, start, data[..i + 4])
    {
      hide Feed, Slice16;
      FeedFour(a, start, data, i);
      Slice16Feeds(a, crc, data[i..i + 4]);
      next := Slice16(a, crc, Load(data[i..i + 4]));
    }

    /** The three loops of every 16-bit `_upd` method. */
    method Update(a: Algorithm, data: seq<Byte>, address: nat)
      requires a.Valid() && a.Width() == 16
      modifies this
      ensures seed == Feed(a, old(seed), data)
    {
      hide Feed, TableStep;
      ghost var start := seed;
      var crc := seed;
      var i := 0;
      FeedNothing(a, start, data);
      while (address + i) % 4 != 0 && i < |data|
        invariant i <= |data| && crc == Feed(a, start, data[..i])
        decreases |data| - i
      {
        FeedOne(a, start, data, i);
        crc := TableStep(a, crc, data[i]);
        i := i + 1;
      }
      while |data| - i >= 16
        invariant (address + i) % 4 == 0 || i == |data|
        invariant i <= |data| && crc == Feed(a, start, data[..i])
      {
        crc := Next(a, start, crc, data, address, i);
        crc := Next(a, start, crc, data, address, i + 4);
        crc := Next(a, start, crc, data, address, i + 8);
        crc := Next(a, start, crc, data, address, i + 12);
        i := i + 16;
      }
      while i < |data|
        invariant i <= |data| && crc == Feed(a, start, data[..i])
      {
        FeedOne(a, start, data, i);
        crc := TableStep(a, crc, data[i]);
        i := i + 1;
      }
      seed := crc;
    }

    /** MSB-first division by 0x1021, carried in a byte-swapped seed and swapped back on return. */
    method CcittUpd(data: seq<Byte>, address: nat) returns (crc: Word16)
      modifies this
      ensures crc == Divide(CCITT, Rev16(old(seed)), data)
      ensures Rev16(seed) == crc
    {
      hide Feed, Divide;
      FeedDivides(CCITT, Rev16(seed), data);
      StoredTwice(CCITT, seed);
      StoredTwice(CCITT, Divide(CCITT, Rev16(seed), data));
      Update(CCITT, data, address);
      crc := Rev16(seed);
    }

    method Ccitt(data: seq<Byte>, address: nat) returns (crc: Word16)
      modifies this
      ensures crc == Divide(CCITT, ONES16, data)
      ensures Rev16(seed) == crc
    {
      hide Divide;
      assert Rev16(ONES16) == ONES16;
      seed := ONES16;
      crc := CcittUpd(data, address);
    }

    /** Reflected division by 0x1021. */
    method Mcrf4xxUpd(data: seq<Byte>, address: nat) returns (crc: Word16)
      modifies this
      ensures crc == seed == Divide(MCRF4XX, old(seed), data)
    {
      hide Feed, Divide;
      FeedDivides(MCRF4XX, seed, data);
      Update(MCRF4XX, data, address);
      crc := seed;
    }

    /** Starts from 0, not from the 0xffff of the catalogued CRC-16/MCRF4XX. */
    method Mcrf4xx(data: seq<Byte>, address: nat) returns (crc: Word16)
      modifies this
      ensures crc == seed == Divide(MCRF4XX, Zeros(16), data)
    {
      seed := Zeros(16);
      crc := Mcrf4xxUpd(data, address);
    }
  }

  class FastCRC32 {
    var seed: Word32

    constructor ()
      ensures seed == Zeros(32)
    {
      seed := Zeros(32);
    }

    /** `crc_n4d` with the big table, `crcsm_n4d` with the small one; the word is read at an aligned
        address. */
    method Next(a: Algorithm, bigTables: bool, ghost start: Word32, crc: Word32, data: seq<Byte>,
                ghost address: nat, i: nat)
      returns (next: Word32)
      requires a.Valid() && a.Width() == 32 && i + 4 <= |data| && (address + i) % 4 == 0
      requires crc == Feed(a, start, data[..i])
      ensures next == Feed(a, start, data[..i + 4])
    {
      hide Feed, Slice32, SliceSmall;
      FeedFour(a, start, data, i);
      if bigTables {
        Slice32Feeds(a, crc, data[i..i + 4]);
        next := Slice32(a, crc, Load(data[i..i + 4]));
      } else {
        SliceSmallFeeds(a, crc, data[i..i + 4]);
        next := SliceSmall(a, crc, Load(data[i..i + 4]));
      }
    }

    /** The three loops of both 32-bit `_upd` methods, with either setting of `CRC_BIGTABLES`. */
    method Update(a: Algorithm, bigTables: bool, data: seq<Byte>, address: nat)
      requires a.Valid() && a.Width() == 32
      modifies this
      ensures seed == Feed(a, old(seed), data)
    {
      hide Feed, TableStep;
      ghost var start := seed;
      var crc := seed;
      var i := 0;
      FeedNothing(a, start, data);
      while (address + i) % 4 != 0 && i < |data|
        invariant i <= |data| && crc == Feed(a, start, data[..i])
        decreases |data| - i
      {
        FeedOne(a, start, data, i);
        crc := TableStep(a, crc, data[i]);
        i := i + 1;
      }
      while |data| - i >= 16
        invariant (address + i) % 4 == 0 || i == |data|
        invariant i <= |data| && crc == Feed(a, start, data[..i])
      {
        crc := Next(a, bigTables, start, crc, data, address, i);
        crc := Next(a, bigTables, start, crc, data, address, i + 4);
        crc := Next(a, bigTables, start, crc, data, address, i + 8);
        crc := Next(a, bigTables, start, crc, data, address, i + 12);
        i := i + 16;
      }
      while i < |data|
        invariant i <= |data| && crc == Feed(a, start, data[..i])
      {
        FeedOne(a, start, data, i);
        crc := TableStep(a, crc, data[i]);
        i := i + 1;
      }
      seed := crc;
    }

    /** Reflected division by 0x04C11DB7, complemented on return. */
    method Crc32Upd(bigTables: bool, data: seq<Byte>, address: nat) returns (crc: Word32)
      modifies this
      ensures seed == Divide(CRC32, old(seed), data)
      ensures crc == Not(seed)
    {
      hide Feed, Divide;
      FeedDivides(CRC32, seed, data);
      Update(CRC32, bigTables, data, address);
      crc := Not(seed);
    }

    method Crc32(bigTables: bool, data: seq<Byte>, address: nat) returns (crc: Word32)
      modifies this
      ensures seed == Divide(CRC32, ONES32, data)
      ensures crc == Not(seed)
    {
      seed := ONES32;
      crc := Crc32Upd(bigTables, data, address);
    }

    /** MSB-first division by 0x04C11DB7 in a byte-swapped seed, swapped and complemented on return. */
    method CksumUpd(bigTables: bool, data: seq<Byte>, address: nat) returns (crc: Word32)
      modifies this
      ensures Rev32(seed) == Divide(CKSUM, Rev32(old(seed)), data)
      ensures crc == Not(Rev32(seed))
    {
      hide Feed, Divide;
      FeedDivides(CKSUM, Rev32(seed), data);
      StoredTwice(CKSUM, seed);
      StoredTwice(CKSUM, Divide(CKSUM, Rev32(seed), data));
      Update(CKSUM, bigTables, data, address);
      crc := Not(Rev32(seed));
    }
  }

  // ---------------------------------------------------------------------------------------------
  // Incremental use and detection
  // ---------------------------------------------------------------------------------------------

  lemma {:induction false} DivideAppend(a: Algorithm, c: Word, m: seq<Byte>, n: seq<Byte>)
    requires a.Valid() && |c| == a.Width()
    ensures Divide(a, c, m + n) == Divide(a, Divide(a, c, m), n)
  {
    hide DivideByte;
    if n == [] {
      assert m + n == m;
    } else {
      var k := |n| - 1;
      assert (m + n)[..|m| + k] == m + n[..k];
      DivideAppend(a, c, m, n[..k]);
    }
  }

  /** Feeding a message chunk by chunk through `ccitt_upd`, each chunk at its own address, is one
      division of the whole message. */
  method CcittInChunks(crc16: FastCRC16, chunks: seq<seq<Byte>>, addresses: seq<nat>) returns (crc: Word16)
    requires |addresses| == |chunks|
    modifies crc16
    ensures crc == Divide(CCITT, ONES16, Flatten(chunks))
  {
    hide Divide;
    DivideNothing(CCITT, ONES16);
    crc := crc16.Ccitt([], 0);
    for i := 0 to |chunks|
      invariant crc == Rev16(crc16.seed) == Divide(CCITT, ONES16, Flatten(chunks[..i]))
    {
      crc := crc16.CcittUpd(chunks[i], addresses[i]);
      assert chunks[..i + 1][..i] == chunks[..i];
      DivideAppend(CCITT, ONES16, Flatten(chunks[..i]), chunks[i]);
    }
    assert chunks[..|chunks|] == chunks;
  }

  method Crc32InChunks(crc32: FastCRC32, bigTables: bool, chunks: seq<seq<Byte>>, addresses: seq<nat>)
    returns (crc: Word32)
    requires |addresses| == |chunks|
    modifies crc32
    ensures crc == Not(Divide(CRC32, ONES32, Flatten(chunks)))
  {
    hide Divide;
    DivideNothing(CRC32, ONES32);
    crc := crc32.Crc32(bigTables, [], 0);
    for i := 0 to |chunks|
      invariant crc == Not(crc32.seed) && crc32.seed == Divide(CRC32, ONES32, Flatten(chunks[..i]))
    {
      crc := crc32.Crc32Upd(bigTables, chunks[i], addresses[i]);
      assert chunks[..i + 1][..i] == chunks[..i];
      DivideAppend(CRC32, ONES32, Flatten(chunks[..i]), chunks[i]);
    }
    assert chunks[..|chunks|] == chunks;
  }

  lemma DivideNothing(a: Algorithm, c: Word)
    requires a.Valid() && |c| == a.Width()
    ensures Divide(a, c, []) == c
  {
  }

  lemma LowBit(n: nat, w: nat)
    requires w > 0
    ensures FromNat(n, w)[0] == (n % 2 == 1)
  {
  }

  /** The generators used by the SDK lose no information, so bursts up to the register width in any
      frame they protect are detected. */
  lemma GeneratorsAreReversible()
    ensures Reversible(CCITT) && Reversible(MCRF4XX) && Reversible(CRC32) && Reversible(CKSUM)
  {
    LowBit(0x1021, 16);
    LowBit(0x04C11DB7, 32);
    hide FromNat;
  }

  /** The frame check of a command packet, crc16 over the header and crc32 over the data, rejects
      any frame whose header differs inside two consecutive bytes or whose data differs inside four. */
  lemma FrameBurstIsDetected(m: seq<Byte>, n: seq<Byte>, lo: nat, hi: nat)
    requires |m| == |n| && lo <= hi <= |m| && m != n
    requires m[..lo] == n[..lo] && m[hi..] == n[hi..]
    ensures hi - lo <= 2 ==> Divide(CCITT, ONES16, m) != Divide(CCITT, ONES16, n)
    ensures hi - lo <= 4 ==> Not(Divide(CRC32, ONES32, m)) != Not(Divide(CRC32, ONES32, n))
  {
    hide Divide;
    GeneratorsAreReversible();
    if hi - lo <= 2 {
      BurstIsDetected(CCITT, ONES16, m, n, lo, hi);
    }
    if hi - lo <= 4 {
      BurstIsDetected(CRC32, ONES32, m, n, lo, hi);
      NotIsInjective(Divide(CRC32, ONES32, m), Divide(CRC32, ONES32, n));
    }
  }
}
