/**
 `MemoryPoolAllocator` of 3rdparty/rapidjson/allocators.h, on a machine whose `size_t` takes 8 bytes: memory
 comes from a list of chunks, of which only the first serves allocations.
 */
module Allocators {
  /** `sizeof(ChunkHeader)`, a multiple of 8 already */
  const HEADER := 24

  type Octet = b: nat | b < 256

  /** `RAPIDJSON_ALIGN` */
  function Align(n: nat): (m: nat)
    ensures n <= m < n + 8 && m % 8 == 0
  {
    (n + 7) / 8 * 8
  }

  // ---------------------------------------------------------------------------------------------
  // Chunks and blocks
  // ---------------------------------------------------------------------------------------------

  /** A chunk with its header at `address`; `capacity` and `size` do not count the header. */
  datatype Chunk = Chunk(address: nat, capacity: nat, size: nat) {
    function Data(): nat {
      address + HEADER
    }

    /** Where the next block of the chunk would start. */
    function Top(): nat {
      address + HEADER + size
    }

    function Bytes(): nat {
      HEADER + capacity
    }
  }

  /** The bytes `[a, a + m)` and `[b, b + n)` have none in common. */
  predicate Disjoint(a: nat, m: nat, b: nat, n: nat) {
    a + m <= b || b + n <= a
  }

  predicate Fits(c: Chunk, limit: nat) {
    c.address > 0 && c.size <= c.capacity && c.size % 8 == 0 && c.address + c.Bytes() <= limit
  }

  predicate AllFit(chunks: seq<Chunk>, limit: nat) {
    forall i :: 0 <= i < |chunks| ==> Fits(chunks[i], limit)
  }

  predicate Separate(chunks: seq<Chunk>) {
    forall i, j :: 0 <= i < j < |chunks| ==>
      Disjoint(chunks[i].address, chunks[i].Bytes(), chunks[j].address, chunks[j].Bytes())
  }

  /** All chunks are owned but the user's buffer, which can only be the last. */
  predicate Owned(chunks: seq<Chunk>, userBuffer: nat, outstanding: set<nat>) {
    && userBuffer !in outstanding
    && forall i :: 0 <= i < |chunks| ==>
         if chunks[i].address == userBuffer then i == |chunks| - 1 else chunks[i].address in outstanding
  }

  /** The base allocator has handed out nothing but the chunks. */
  predicate AllListed(chunks: seq<Chunk>, outstanding: set<nat>) {
    forall a <- outstanding :: exists i :: 0 <= i < |chunks| && chunks[i].address == a
  }

  /** A block is a multiple of 8 bytes in the used part of a chunk, a multiple of 8 bytes from its start. */
  predicate InChunk(c: Chunk, p: nat, n: nat) {
    n > 0 && n % 8 == 0 && c.Data() <= p && p + n <= c.Top() && (p - c.Data()) % 8 == 0
  }

  predicate InSome(chunks: seq<Chunk>, p: nat, n: nat) {
    exists i :: 0 <= i < |chunks| && InChunk(chunks[i], p, n)
  }

  /** The blocks handed out, by address. */
  type Blocks = map<nat, nat>

  predicate BlocksInside(chunks: seq<Chunk>, live: Blocks) {
    forall p <- live :: InSome(chunks, p, live[p])
  }

  predicate BlocksDisjoint(live: Blocks) {
    forall p, q :: p in live && q in live && p != q ==> Disjoint(p, live[p], q, live[q])
  }

  predicate Sound(chunks: seq<Chunk>, live: Blocks, limit: nat) {
    AllFit(chunks, limit) && Separate(chunks) && BlocksInside(chunks, live) && BlocksDisjoint(live)
  }

  // ---------------------------------------------------------------------------------------------
  // What keeps blocks apart
  // ---------------------------------------------------------------------------------------------

  /** What the base allocator may answer when asked for `n` bytes: nothing, or memory that is not in use. */
  predicate MayReturn(chunks: seq<Chunk>, outstanding: set<nat>, userBuffer: nat, limit: nat, base: nat, n: nat) {
    base == 0 ||
    (&& base + n <= limit && base != userBuffer && base !in outstanding
     && forall i :: 0 <= i < |chunks| ==> Disjoint(base, n, chunks[i].address, chunks[i].Bytes()))
  }

  lemma AddedChunkIsSeparate(chunks: seq<Chunk>, base: nat, capacity: nat)
    requires Separate(chunks)
    requires forall i :: 0 <= i < |chunks| ==> Disjoint(base, HEADER + capacity, chunks[i].address, chunks[i].Bytes())
    ensures Separate([Chunk(base, capacity, 0)] + chunks)
  {
    hide Disjoint;
  }

  lemma AddedChunkIsSound(chunks: seq<Chunk>, live: Blocks, limit: nat, base: nat, capacity: nat)
    requires Sound(chunks, live, limit) && 0 < base && base + HEADER + capacity <= limit
    requires forall i :: 0 <= i < |chunks| ==> Disjoint(base, HEADER + capacity, chunks[i].address, chunks[i].Bytes())
    ensures Sound([Chunk(base, capacity, 0)] + chunks, live, limit)
  {
    hide Disjoint, InChunk, BlocksDisjoint;
    var more := [Chunk(base, capacity, 0)] + chunks;
    assert forall i :: 0 < i < |more| ==> more[i] == chunks[i - 1];
    AddedChunkIsSeparate(chunks, base, capacity);
    forall p <- live ensures InSome(more, p, live[p]) {
      var i :| 0 <= i < |chunks| && InChunk(chunks[i], p, live[p]);
      assert more[i + 1] == chunks[i];
    }
  }

  /** The first chunk with `n` more bytes in use. */
  function Bumped(chunks: seq<Chunk>, n: nat): seq<Chunk>
    requires chunks != []
  {
    chunks[0 := chunks[0].(size := chunks[0].size + n)]
  }

  /** A block below the top of the first chunk, or in another one, has nothing in common with what is above. */
  lemma BlockBelowTop(chunks: seq<Chunk>, limit: nat, p: nat, n: nat, m: nat)
    requires AllFit(chunks, limit) && Separate(chunks) && chunks != [] && InSome(chunks, p, n)
    requires chunks[0].size + m <= chunks[0].capacity
    ensures Disjoint(p, n, chunks[0].Top(), m)
  {
    var i :| 0 <= i < |chunks| && InChunk(chunks[i], p, n);
    assert Fits(chunks[i], limit) && Fits(chunks[0], limit);
    if i > 0 {
      assert Disjoint(chunks[0].address, chunks[0].Bytes(), chunks[i].address, chunks[i].Bytes());
    }
  }

  lemma BumpKeepsInside(chunks: seq<Chunk>, p: nat, n: nat, m: nat)
    requires chunks != [] && InSome(chunks, p, n)
    ensures InSome(Bumped(chunks, m), p, n)
  {
    var i :| 0 <= i < |chunks| && InChunk(chunks[i], p, n);
    assert InChunk(Bumped(chunks, m)[i], p, n);
  }

  lemma BumpedFits(c: Chunk, limit: nat, m: nat)
    requires Fits(c, limit) && m % 8 == 0 && c.size + m <= c.capacity
    ensures Fits(c.(size := c.size + m), limit)
  {
  }

  lemma BumpKeepsChunks(chunks: seq<Chunk>, limit: nat, m: nat)
    requires AllFit(chunks, limit) && Separate(chunks) && chunks != []
    requires m % 8 == 0 && chunks[0].size + m <= chunks[0].capacity
    ensures AllFit(Bumped(chunks, m), limit) && Separate(Bumped(chunks, m))
  {
    hide Fits, Disjoint;
    var bumped := Bumped(chunks, m);
    forall i | 0 <= i < |bumped| ensures Fits(bumped[i], limit) {
      assert Fits(chunks[i], limit);
      BumpedFits(chunks[0], limit, m);
    }
    forall i, j | 0 <= i < j < |bumped|
      ensures Disjoint(bumped[i].address, bumped[i].Bytes(), bumped[j].address, bumped[j].Bytes())
    {
      assert Disjoint(chunks[i].address, chunks[i].Bytes(), chunks[j].address, chunks[j].Bytes());
    }
  }

  /** A new block at the top of the first chunk. */
  lemma NewBlockIsSound(chunks: seq<Chunk>, live: Blocks, limit: nat, n: nat)
    requires Sound(chunks, live, limit) && chunks != []
    requires n > 0 && n % 8 == 0 && chunks[0].size + n <= chunks[0].capacity
    ensures chunks[0].Top() !in live && Sound(Bumped(chunks, n), live[chunks[0].Top() := n], limit)
  {
    hide Separate, Disjoint, Fits;
    var top := chunks[0].Top();
    BumpKeepsChunks(chunks, limit, n);
    TopIsAligned(chunks, limit);
    forall p <- live ensures p != top && Disjoint(p, live[p], top, n) && Disjoint(top, n, p, live[p]) {
      BlockBelowTop(chunks, limit, p, live[p], n);
      NotSame(p, live[p], top, n);
      BumpKeepsInside(chunks, p, live[p], n);
    }
    forall p <- live ensures InSome(Bumped(chunks, n), p, live[p]) {
      BumpKeepsInside(chunks, p, live[p], n);
    }
    assert InChunk(Bumped(chunks, n)[0], top, n);
  }

  lemma TopIsAligned(chunks: seq<Chunk>, limit: nat)
    requires AllFit(chunks, limit) && chunks != []
    ensures (chunks[0].Top() - chunks[0].Data()) % 8 == 0
  {
    assert Fits(chunks[0], limit);
  }

  lemma NotSame(p: nat, m: nat, q: nat, n: nat)
    requires Disjoint(p, m, q, n) && n > 0
    ensures m > 0 ==> p != q
    ensures Disjoint(q, n, p, m)
  {
  }

  /** The block that ends at the top of the first chunk, by any account of its size up to the true one, is
      the last block of that chunk, and the account is the true size. */
  lemma LastBlock(chunks: seq<Chunk>, live: Blocks, limit: nat, p: nat, m: nat)
    requires Sound(chunks, live, limit) && chunks != [] && p in live && m <= live[p]
    requires p + m == chunks[0].Top()
    ensures m == live[p] && InChunk(chunks[0], p, m)
  {
    var i :| 0 <= i < |chunks| && InChunk(chunks[i], p, live[p]);
    BlockElsewhere(chunks, limit, i, p, live[p], m);
  }

  lemma BlockElsewhere(chunks: seq<Chunk>, limit: nat, i: nat, p: nat, n: nat, m: nat)
    requires AllFit(chunks, limit) && Separate(chunks) && i < |chunks| && InChunk(chunks[i], p, n) && m <= n
    ensures i > 0 ==> p + m != chunks[0].Top()
  {
    assert Fits(chunks[i], limit) && Fits(chunks[0], limit);
    assert i > 0 ==> Disjoint(chunks[0].address, chunks[0].Bytes(), chunks[i].address, chunks[i].Bytes());
  }

  lemma BlockIsSome(chunks: seq<Chunk>, p: nat, n: nat)
    requires InSome(chunks, p, n)
    ensures n > 0
  {
    var i :| 0 <= i < |chunks| && InChunk(chunks[i], p, n);
  }

  lemma GrownIsApart(p: nat, m: nat, more: nat, q: nat, n: nat)
    requires Disjoint(p, m, q, n) && Disjoint(q, n, p + m, more) && n > 0
    ensures Disjoint(p, m + more, q, n) && Disjoint(q, n, p, m + more)
  {
  }

  lemma GrownInChunk(c: Chunk, p: nat, m: nat, n: nat)
    requires InChunk(c, p, m) && p + m == c.Top() && n % 8 == 0
    ensures InChunk(c.(size := c.size + n), p, m + n)
  {
  }

  /** The last block grows in place. */
  lemma GrownBlockIsSound(chunks: seq<Chunk>, live: Blocks, limit: nat, p: nat, n: nat)
    requires Sound(chunks, live, limit) && chunks != [] && p in live && InChunk(chunks[0], p, live[p])
    requires p + live[p] == chunks[0].Top()
    requires n % 8 == 0 && chunks[0].size + n <= chunks[0].capacity
    ensures Sound(Bumped(chunks, n), live[p := live[p] + n], limit)
  {
    hide Separate, Fits, Disjoint, InChunk;
    BumpKeepsChunks(chunks, limit, n);
    forall q <- live ensures InSome(Bumped(chunks, n), q, live[q]) {
      BumpKeepsInside(chunks, q, live[q], n);
    }
    forall q <- live | q != p
      ensures Disjoint(p, live[p] + n, q, live[q]) && Disjoint(q, live[q], p, live[p] + n)
    {
      BlockBelowTop(chunks, limit, q, live[q], n);
      BlockIsSome(chunks, q, live[q]);
      GrownIsApart(p, live[p], n, q, live[q]);
    }
    GrownInChunk(chunks[0], p, live[p], n);
    assert Bumped(chunks, n)[0] == chunks[0].(size := chunks[0].size + n);
  }

  lemma AddedChunkIsOwned(chunks: seq<Chunk>, userBuffer: nat, outstanding: set<nat>, base: nat, capacity: nat)
    requires Owned(chunks, userBuffer, outstanding) && AllListed(chunks, outstanding) && base != userBuffer
    ensures Owned([Chunk(base, capacity, 0)] + chunks, userBuffer, outstanding + {base})
    ensures AllListed([Chunk(base, capacity, 0)] + chunks, outstanding + {base})
  {
    var more := [Chunk(base, capacity, 0)] + chunks;
    forall a <- outstanding + {base} ensures exists i :: 0 <= i < |more| && more[i].address == a {
      if a == base {
        assert more[0].address == a;
      } else {
        var i :| 0 <= i < |chunks| && chunks[i].address == a;
        assert more[i + 1].address == a;
      }
    }
  }

  lemma BumpKeepsOwners(chunks: seq<Chunk>, userBuffer: nat, outstanding: set<nat>, n: nat)
    requires Owned(chunks, userBuffer, outstanding) && AllListed(chunks, outstanding) && chunks != []
    ensures Owned(Bumped(chunks, n), userBuffer, outstanding) && AllListed(Bumped(chunks, n), outstanding)
  {
    var bumped := Bumped(chunks, n);
    assert forall i :: 0 <= i < |chunks| ==> bumped[i].address == chunks[i].address;
    forall a <- outstanding ensures exists i :: 0 <= i < |bumped| && bumped[i].address == a {
      var i :| 0 <= i < |chunks| && chunks[i].address == a;
      assert bumped[i].address == a;
    }
  }

  lemma LiveInMemory(chunks: seq<Chunk>, live: Blocks, limit: nat, p: nat)
    requires Sound(chunks, live, limit) && p in live
    ensures chunks != [] && p + live[p] <= limit
  {
    var i :| 0 <= i < |chunks| && InChunk(chunks[i], p, live[p]);
    assert Fits(chunks[i], limit);
  }

  lemma ApartInMemory(chunks: seq<Chunk>, live: Blocks, limit: nat, p: nat, q: nat)
    requires Sound(chunks, live, limit) && p in live && q in live && p != q
    ensures p + live[p] <= limit && q + live[q] <= limit && Disjoint(p, live[p], q, live[q])
  {
    LiveInMemory(chunks, live, limit, p);
    LiveInMemory(chunks, live, limit, q);
  }

  // ---------------------------------------------------------------------------------------------
  // Clearing
  // ---------------------------------------------------------------------------------------------

  /** What `Clear` keeps true of the chunks that are left. */
  predicate Clearing(chunks: seq<Chunk>, limit: nat, userBuffer: nat, outstanding: set<nat>) {
    && AllFit(chunks, limit) && Separate(chunks)
    && Owned(chunks, userBuffer, outstanding) && AllListed(chunks, outstanding)
  }

  lemma FirstIsApart(chunks: seq<Chunk>)
    requires Separate(chunks) && chunks != []
    ensures forall i :: 0 < i < |chunks| ==> chunks[i].address != chunks[0].address
  {
    forall i | 0 < i < |chunks| ensures chunks[i].address != chunks[0].address {
      assert Disjoint(chunks[0].address, chunks[0].Bytes(), chunks[i].address, chunks[i].Bytes());
    }
  }

  lemma LeftListed(chunks: seq<Chunk>, outstanding: set<nat>)
    requires AllListed(chunks, outstanding) && chunks != []
    ensures AllListed(chunks[1..], outstanding - {chunks[0].address})
  {
    var left := outstanding - {chunks[0].address};
    forall a <- left ensures exists i :: 0 <= i < |chunks| - 1 && chunks[1..][i].address == a {
      var i :| 0 <= i < |chunks| && chunks[i].address == a;
      assert chunks[1..][i - 1] == chunks[i];
    }
  }

  lemma LeftOwned(chunks: seq<Chunk>, userBuffer: nat, outstanding: set<nat>)
    requires Owned(chunks, userBuffer, outstanding) && chunks != []
    requires forall i :: 0 < i < |chunks| ==> chunks[i].address != chunks[0].address
    ensures Owned(chunks[1..], userBuffer, outstanding - {chunks[0].address})
  {
  }

  lemma LeftFit(chunks: seq<Chunk>, limit: nat)
    requires AllFit(chunks, limit) && Separate(chunks) && chunks != []
    ensures AllFit(chunks[1..], limit) && Separate(chunks[1..])
  {
    hide Fits, Disjoint;
  }

  /** Giving back the first chunk leaves the others owned, and nothing else outstanding. */
  lemma FreeFirst(chunks: seq<Chunk>, limit: nat, userBuffer: nat, outstanding: set<nat>)
    requires Clearing(chunks, limit, userBuffer, outstanding) && chunks != [] && chunks[0].address != userBuffer
    ensures chunks[0].address in outstanding
    ensures Clearing(chunks[1..], limit, userBuffer, outstanding - {chunks[0].address})
  {
    hide AllFit, Separate, AllListed;
    FirstIsApart(chunks);
    LeftFit(chunks, limit);
    LeftOwned(chunks, userBuffer, outstanding);
    LeftListed(chunks, outstanding);
  }

  /** Once the first chunk is the user's, or there is none, nothing is outstanding. */
  lemma NothingOutstanding(chunks: seq<Chunk>, userBuffer: nat, outstanding: set<nat>)
    requires Owned(chunks, userBuffer, outstanding) && AllListed(chunks, outstanding)
    requires chunks == [] || chunks[0].address == userBuffer
    ensures outstanding == {} && |chunks| <= 1
  {
    assert forall a :: a !in outstanding;
  }

  /** The chunks that `Clear` leaves: none, or the user's buffer. */
  function Cleared(chunks: seq<Chunk>): (cleared: seq<Chunk>)
    requires |chunks| <= 1
  {
    if chunks == [] then [] else [chunks[0].(size := 0)]
  }

  lemma StartClearing(chunks: seq<Chunk>, live: Blocks, limit: nat, userBuffer: nat, outstanding: set<nat>)
    requires Sound(chunks, live, limit) && Owned(chunks, userBuffer, outstanding) && AllListed(chunks, outstanding)
    ensures Clearing(chunks, limit, userBuffer, outstanding)
  {
    hide AllFit, Separate, Owned, AllListed;
  }

  lemma EndClearing(chunks: seq<Chunk>, limit: nat, userBuffer: nat, outstanding: set<nat>)
    requires Clearing(chunks, limit, userBuffer, outstanding) && (chunks == [] || chunks[0].address == userBuffer)
    ensures outstanding == {} && |chunks| <= 1
    ensures Sound(Cleared(chunks), map[], limit)
    ensures Owned(Cleared(chunks), userBuffer, {}) && AllListed(Cleared(chunks), {})
  {
    hide AllListed, Separate;
    NothingOutstanding(chunks, userBuffer, outstanding);
    ClearedIsSound(chunks, limit);
    NothingListed(Cleared(chunks));
  }

  lemma ClearedIsSound(chunks: seq<Chunk>, limit: nat)
    requires AllFit(chunks, limit) && |chunks| <= 1
    ensures Sound(Cleared(chunks), map[], limit)
  {
    assert chunks != [] ==> Fits(chunks[0], limit);
  }

  lemma NothingListed(chunks: seq<Chunk>)
    ensures AllListed(chunks, {})
  {
  }

  function Capacities(chunks: seq<Chunk>): nat {
    if chunks == [] then 0 else chunks[0].capacity + Capacities(chunks[1..])
  }

  function Sizes(chunks: seq<Chunk>): nat {
    if chunks == [] then 0 else chunks[0].size + Sizes(chunks[1..])
  }

  lemma {:induction false} SizesBelowCapacities(chunks: seq<Chunk>, limit: nat)
    requires AllFit(chunks, limit)
    ensures Sizes(chunks) <= Capacities(chunks)
  {
    if chunks != [] {
      assert Fits(chunks[0], limit);
      SizesBelowCapacities(chunks[1..], limit);
    }
  }

  // ---------------------------------------------------------------------------------------------
  // The allocator object
  // ---------------------------------------------------------------------------------------------

  class MemoryPoolAllocator {
    /** The bytes of the address space, by address. */
    const memory: array<Octet>
    const chunkCapacity: nat
    /** The address of the user's buffer, zero if there is none. */
    const userBuffer: nat
    /** The list of chunks, `chunkHead_` first. */
    var chunks: seq<Chunk>
    ghost var live: Blocks
    /** The addresses obtained from the base allocator and not yet given back. */
    ghost var outstanding: set<nat>

    ghost predicate Valid()
      reads this
    {
      && Sound(chunks, live, memory.Length)
      && Owned(chunks, userBuffer, outstanding) && AllListed(chunks, outstanding)
    }

    constructor (memory: array<Octet>, chunkSize: nat)
      ensures Valid() && chunks == [] && live == map[] && outstanding == {} && userBuffer == 0
      ensures this.memory == memory && chunkCapacity == chunkSize
    {
      this.memory := memory;
      chunkCapacity := chunkSize;
      userBuffer := 0;
      chunks, live, outstanding := [], map[], {};
    }

    constructor WithBuffer(memory: array<Octet>, buffer: nat, size: nat, chunkSize: nat)
      requires 0 < buffer && size > HEADER && buffer + size <= memory.Length
      ensures Valid() && chunks == [Chunk(buffer, size - HEADER, 0)] && live == map[] && outstanding == {}
      ensures this.memory == memory && chunkCapacity == chunkSize && userBuffer == buffer
    {
      this.memory := memory;
      chunkCapacity := chunkSize;
      userBuffer := buffer;
      chunks, live, outstanding := [Chunk(buffer, size - HEADER, 0)], map[], {};
    }

    ghost predicate Offered(base: nat, n: nat)
      reads this
    {
      MayReturn(chunks, outstanding, userBuffer, memory.Length, base, n)
    }

    /** `AddChunk`; `base` is what the base allocator returned. */
    method AddChunk(capacity: nat, base: nat) returns (ok: bool)
      requires Valid() && Offered(base, HEADER + capacity)
      modifies this
      ensures Valid() && live == old(live) && ok == (base != 0)
      ensures chunks == if ok then [Chunk(base, capacity, 0)] + old(chunks) else old(chunks)
      ensures outstanding == if ok then old(outstanding) + {base} else old(outstanding)
    {
      hide Separate, Fits;
      if base == 0 {
        return false;
      }
      AddedChunkIsSound(chunks, live, memory.Length, base, capacity);
      AddedChunkIsOwned(chunks, userBuffer, outstanding, base, capacity);
      chunks := [Chunk(base, capacity, 0)] + chunks;
      outstanding := outstanding + {base};
      return true;
    }

    /** Whether `n` more bytes need another chunk. */
    predicate Full(n: nat)
      reads this
    {
      chunks == [] || chunks[0].size + n > chunks[0].capacity
    }

    /** The capacity of the chunk that is added for `n` bytes. */
    function ChunkFor(n: nat): nat {
      if chunkCapacity > n then chunkCapacity else n
    }

    /** The chunks that serve the next `n` bytes. */
    function Serving(n: nat, base: nat): seq<Chunk>
      reads this
    {
      if Full(n) then [Chunk(base, ChunkFor(n), 0)] + chunks else chunks
    }

    /** `Malloc`: a new block at the top of the serving chunk. Null when nothing is asked for, or when a chunk is
        needed and not to be had; then nothing changes. */
    method Malloc(size: nat, base: nat) returns (p: nat)
      requires Valid() && Offered(base, HEADER + ChunkFor(Align(size)))
      modifies this
      ensures Valid() && (p == 0 <==> size == 0 || (old(Full(Align(size))) && base == 0))
      ensures p == 0 ==> live == old(live) && chunks == old(chunks) && outstanding == old(outstanding)
      ensures p != 0 ==>
                var n := Align(size);
                && p !in old(live) && live == old(live)[p := n]
                && p == old(Serving(n, base))[0].Top() && chunks == Bumped(old(Serving(n, base)), n)
                && outstanding == old(outstanding) + if old(Full(n)) then {base} else {}
    {
      hide Separate, Fits, BlocksInside, BlocksDisjoint, Owned, AllListed;
      if size == 0 {
        return 0;
      }
      var n := Align(size);
      if chunks == [] || chunks[0].size + n > chunks[0].capacity {
        var added := AddChunk(if chunkCapacity > n then chunkCapacity else n, base);
        if !added {
          return 0;
        }
      }
      p := chunks[0].address + HEADER + chunks[0].size;
      NewBlockIsSound(chunks, live, memory.Length, n);
      BumpKeepsOwners(chunks, userBuffer, outstanding, n);
      chunks := chunks[0 := chunks[0].(size := chunks[0].size + n)];
      live := live[p := n];
    }

    /** Whether the block at `p` can grow by `n` bytes where it is. */
    predicate CanGrow(p: nat, size: nat, n: nat)
      reads this
    {
      chunks != [] && p + size == chunks[0].Top() && chunks[0].size + n <= chunks[0].capacity
    }

    /** Whether `Realloc` needs a block elsewhere: there is none yet, or it must grow and cannot. */
    predicate Moves(p: nat, originalSize: nat, newSize: nat)
      reads this
    {
      var was, now := Align(originalSize), Align(newSize);
      p == 0 || (was < now && !CanGrow(p, was, now - was))
    }

    /** `Realloc`. A block may be presented with any size up to its true one. Shrinking changes nothing; only the
        last block of the head chunk grows in place; otherwise a new block gets the old one's bytes. */
    method Realloc(p: nat, originalSize: nat, newSize: nat, base: nat) returns (r: nat)
      requires Valid() && Offered(base, HEADER + ChunkFor(Align(newSize)))
      requires p != 0 ==> p in live && Align(originalSize) <= live[p]
      modifies this, memory
      ensures Valid()
      ensures r == 0 <==> newSize == 0 || (base == 0 && old(Moves(p, originalSize, newSize) && Full(Align(newSize))))
      ensures r == 0 ==> live == old(live) && chunks == old(chunks) && outstanding == old(outstanding)
                         && memory[..] == old(memory[..])
      ensures r != 0 && old(Moves(p, originalSize, newSize)) ==>
                var now := Align(newSize);
                && r !in old(live) && live == old(live)[r := now]
                && r == old(Serving(now, base))[0].Top() && chunks == Bumped(old(Serving(now, base)), now)
                && outstanding == old(outstanding) + if old(Full(now)) then {base} else {}
      ensures r != 0 && !old(Moves(p, originalSize, newSize)) ==>
                var was, now := Align(originalSize), Align(newSize);
                && r == p && outstanding == old(outstanding)
                && if was >= now then live == old(live) && chunks == old(chunks)
                   else was == old(live)[p] && live == old(live)[p := now]
                        && chunks == Bumped(old(chunks), now - was)
      ensures r != 0 && p != 0 && old(Moves(p, originalSize, newSize)) ==>
                var was := Align(originalSize);
                && p + was <= memory.Length && r + was <= memory.Length
                && memory[r..r + was] == old(memory[p..p + was])
                && forall a :: 0 <= a < memory.Length && !(r <= a < r + was) ==> memory[a] == old(memory[a])
      ensures p == 0 || !old(Moves(p, originalSize, newSize)) ==> memory[..] == old(memory[..])
    {
      hide Valid, Offered, Full;
      if p == 0 {
        r := Malloc(newSize, base);
        return;
      }
      if newSize == 0 {
        return 0;
      }
      var was, now := Align(originalSize), Align(newSize);
      if was >= now {
        return p;
      }
      ServedFrom(p);
      if p + was == chunks[0].address + HEADER + chunks[0].size {
        if chunks[0].size + (now - was) <= chunks[0].capacity {
          GrowInPlace(p, was, now);
          return p;
        }
      }
      r := MoveBlock(p, was, newSize, base);
    }

    lemma ServedFrom(p: nat)
      requires Valid() && p in live
      ensures chunks != [] && p + live[p] <= memory.Length
    {
      hide Sound;
      LiveInMemory(chunks, live, memory.Length, p);
    }

    method GrowInPlace(p: nat, was: nat, now: nat)
      requires Valid() && p in live && was <= live[p] && was < now && was % 8 == now % 8 == 0
      requires CanGrow(p, was, now - was)
      modifies this`chunks, this`live
      ensures Valid() && was == old(live)[p] && live == old(live)[p := now] && chunks == Bumped(old(chunks), now - was)
    {
      hide Sound, Separate, Fits, Owned, AllListed, InSome;
      var increment := now - was;
      LastBlock(chunks, live, memory.Length, p, was);
      GrownBlockIsSound(chunks, live, memory.Length, p, increment);
      BumpKeepsOwners(chunks, userBuffer, outstanding, increment);
      chunks := chunks[0 := chunks[0].(size := chunks[0].size + increment)];
      live := live[p := now];
    }

    /** A new block with the first `was` bytes of the one at `p`. */
    method MoveBlock(p: nat, was: nat, newSize: nat, base: nat) returns (r: nat)
      requires Valid() && Offered(base, HEADER + ChunkFor(Align(newSize)))
      requires p in live && was <= live[p] && was <= Align(newSize)
      modifies this, memory
      ensures Valid() && (r == 0 <==> newSize == 0 || (old(Full(Align(newSize))) && base == 0))
      ensures r == 0 ==> live == old(live) && chunks == old(chunks) && outstanding == old(outstanding)
                         && memory[..] == old(memory[..])
      ensures r != 0 ==>
                var now := Align(newSize);
                && r !in old(live) && live == old(live)[r := now]
                && r == old(Serving(now, base))[0].Top() && chunks == Bumped(old(Serving(now, base)), now)
                && outstanding == old(outstanding) + (if old(Full(now)) then {base} else {})
                && p + was <= memory.Length && r + was <= memory.Length
                && memory[r..r + was] == old(memory[p..p + was])
                && forall a :: 0 <= a < memory.Length && !(r <= a < r + was) ==> memory[a] == old(memory[a])
    {
      hide Sound, Owned, AllListed, Full, Offered;
      r := Malloc(newSize, base);
      if r != 0 {
        ApartInMemory(chunks, live, memory.Length, p, r);
        Copy(p, r, was);
      }
    }

    /** `memcpy` between blocks that do not overlap. */
    method Copy(from: nat, to: nat, n: nat)
      requires from + n <= memory.Length && to + n <= memory.Length && Disjoint(from, n, to, n)
      modifies memory
      ensures memory[to..to + n] == old(memory[from..from + n])
      ensures forall a :: 0 <= a < memory.Length && !(to <= a < to + n) ==> memory[a] == old(memory[a])
    {
      ghost var before := memory[..];
      for i := 0 to n
        invariant memory[to..to + i] == before[from..from + i]
        invariant forall a :: 0 <= a < memory.Length && !(to <= a < to + i) ==> memory[a] == before[a]
      {
        memory[to + i] := memory[from + i];
        assert memory[to..to + i + 1] == memory[to..to + i] + [before[from + i]];
      }
    }

    /** `BaseAllocator::Free`: only memory that is outstanding can be given back. */
    ghost method Free(address: nat)
      requires address in outstanding
      modifies this`outstanding
      ensures outstanding == old(outstanding) - {address}
    {
      outstanding := outstanding - {address};
    }

    /** `Clear` gives back every chunk it owns, once, and empties the user's buffer. */
    method Clear()
      requires Valid()
      modifies this
      ensures Valid() && live == map[] && outstanding == {}
      ensures var n := |old(chunks)|;
              if n > 0 && old(chunks)[n - 1].address == userBuffer then chunks == [old(chunks)[n - 1].(size := 0)]
              else chunks == []
    {
      hide Clearing, AllFit, Separate, Owned, AllListed, Sound;
      StartClearing(chunks, live, memory.Length, userBuffer, outstanding);
      live := map[];
      ghost var k := 0;
      assert chunks == chunks[0..];
      while chunks != [] && chunks[0].address != userBuffer
        invariant k <= |old(chunks)| && chunks == old(chunks)[k..] && live == map[]
        invariant Clearing(chunks, memory.Length, userBuffer, outstanding)
        invariant k > 0 ==> old(chunks)[k - 1].address != userBuffer
        decreases |chunks|
      {
        FreeFirst(chunks, memory.Length, userBuffer, outstanding);
        Free(chunks[0].address);
        chunks := chunks[1..];
        k := k + 1;
      }
      EndClearing(chunks, memory.Length, userBuffer, outstanding);
      ghost var rest := chunks;
      if chunks != [] {
        chunks := chunks[0 := chunks[0].(size := 0)];
      }
      assert chunks == Cleared(rest);
    }

    method Capacity() returns (capacity: nat)
      ensures capacity == Capacities(chunks)
    {
      capacity := 0;
      for i := 0 to |chunks|
        invariant capacity + Capacities(chunks[i..]) == Capacities(chunks)
      {
        capacity := capacity + chunks[i].capacity;
      }
    }

    method Size() returns (size: nat)
      requires Valid()
      ensures size == Sizes(chunks) <= Capacities(chunks)
    {
      hide Separate, Fits;
      SizesBelowCapacities(chunks, memory.Length);
      size := 0;
      for i := 0 to |chunks|
        invariant size + Sizes(chunks[i..]) == Sizes(chunks)
      {
        size := size + chunks[i].size;
      }
    }
  }
}
