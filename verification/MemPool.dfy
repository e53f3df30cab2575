/** The allocator of blocks of one size of src/dig_mem_pool.c. Addresses are numbers, 0 is NULL;
    `memory` holds the words that the pool itself reads back. */
module MemPool {
  import opened Powers
  import opened Sealing
  import opened Sequences

  const POINTER_SIZE := 8
  const DEFAULT_ELEM_COUNT := 20
  const WORD32 := 0x1_0000_0000

  /** `size | 7`, the bits of the alignment being those below 8. */
  function Or7(size: nat): nat {
    size / 8 * 8 + 7
  }

  function AlignPad(size: nat): nat
  {
    if size % POINTER_SIZE == 0 then 0 else Or7(size) + 1 - size
  }

  /** The padded size is the least multiple of the alignment that is large enough. */
  lemma AlignPadMeans(size: nat)
    ensures var padded := size + AlignPad(size);
      && padded % POINTER_SIZE == 0 && padded >= size
      && forall n: nat :: n % POINTER_SIZE == 0 && n >= size ==> n >= padded
  {
    var padded := size + AlignPad(size);
    forall n: nat | n % POINTER_SIZE == 0 && n >= size ensures n >= padded {
      assert n == 8 * (n / 8);
    }
  }

  // ---------- chunks and blocks ----------

  datatype Chunk = Chunk(base: nat, count: nat)

  function Product(count: nat, size: nat): nat {
    count * size
  }

  /** The address of the block behind `i` others. */
  function BlockAt(c: Chunk, size: nat, i: nat): nat {
    c.base + POINTER_SIZE + Product(i, size)
  }

  function End(c: Chunk, size: nat): nat {
    BlockAt(c, size, c.count)
  }

  /** What malloc is asked for: the product is taken in 32 bits. */
  function Asked(count: nat, size: nat): nat {
    POINTER_SIZE + Product(count, size) % WORD32
  }

  lemma ProductStep(i: nat, size: nat)
    ensures Product(i + 1, size) == Product(i, size) + size
  {
  }

  lemma {:induction false} ProductLess(i: nat, j: nat, size: nat)
    requires i < j
    ensures Product(i, size) + size <= Product(j, size)
    decreases j
  {
    ProductStep(j - 1, size);
    if i < j - 1 {
      ProductLess(i, j - 1, size);
    }
  }

  /** The blocks of a chunk lie in what malloc was asked for exactly when the product does not wrap. */
  lemma BlocksFitIff(c: Chunk, size: nat)
    requires size > 0
    ensures (forall i: nat :: i < c.count ==> BlockAt(c, size, i) + size <= c.base + Asked(c.count, size))
      <==> c.count * size < 0x1_0000_0000
    ensures Asked(c.count, size) == 8 + c.count * size % 0x1_0000_0000
    ensures forall i: nat :: i < c.count ==> BlockAt(c, size, i) == c.base + 8 + i * size
  {
    if Product(c.count, size) < WORD32 {
      forall i: nat | i < c.count ensures BlockAt(c, size, i) + size <= c.base + Asked(c.count, size) {
        ProductLess(i, c.count, size);
      }
    } else {
      assert c.count > 0;
      ProductStep(c.count - 1, size);
      assert BlockAt(c, size, c.count - 1) + size > c.base + Asked(c.count, size);
    }
  }

  /** The chunks do not overlap. */
  predicate Separate(chunks: seq<Chunk>, size: nat) {
    && (forall k :: 0 <= k < |chunks| ==> chunks[k].base > 0 && chunks[k].base % POINTER_SIZE == 0)
    && forall j, k :: 0 <= j < k < |chunks| ==> Clear(chunks[j], chunks[k], size)
  }

  predicate Clear(c: Chunk, d: Chunk, size: nat) {
    End(c, size) <= d.base || End(d, size) <= c.base
  }

  ghost predicate IsBlock(chunks: seq<Chunk>, size: nat, a: nat) {
    exists k: nat, i: nat :: k < |chunks| && i < chunks[k].count && a == BlockAt(chunks[k], size, i)
  }

  /** A block is aligned and lies in a chunk, behind its header. */
  lemma BlockIsInside(chunks: seq<Chunk>, size: nat, a: nat)
    requires Separate(chunks, size) && IsBlock(chunks, size, a) && size % POINTER_SIZE == 0
    ensures a > 0 && a % POINTER_SIZE == 0
    ensures exists k :: 0 <= k < |chunks| && chunks[k].base + POINTER_SIZE <= a && a + size <= End(chunks[k], size)
  {
    var k: nat, i: nat :| k < |chunks| && i < chunks[k].count && a == BlockAt(chunks[k], size, i);
    ProductLess(i, chunks[k].count, size);
    BlockIsAligned(chunks[k], size, i);
  }

  lemma BlockIsAligned(c: Chunk, size: nat, i: nat)
    requires c.base % POINTER_SIZE == 0 && size % POINTER_SIZE == 0
    ensures BlockAt(c, size, i) % POINTER_SIZE == 0
  {
    ProductAligned(i, size);
    var p := Product(i, size);
    assert (c.base + 8 + p) % 8 == 0;
  }

  lemma {:induction false} ProductAligned(i: nat, size: nat)
    requires size % POINTER_SIZE == 0
    ensures Product(i, size) % POINTER_SIZE == 0
  {
    if i > 0 {
      ProductAligned(i - 1, size);
      ProductStep(i - 1, size);
      var p := Product(i - 1, size);
      assert (p + size) % 8 == 0;
    }
  }

  /** Different blocks do not overlap. */
  lemma BlocksApart(chunks: seq<Chunk>, size: nat, a: nat, b: nat)
    requires Separate(chunks, size) && IsBlock(chunks, size, a) && IsBlock(chunks, size, b) && a != b
    ensures a + size <= b || b + size <= a
  {
    var k: nat, i: nat :| k < |chunks| && i < chunks[k].count && a == BlockAt(chunks[k], size, i);
    var l: nat, j: nat :| l < |chunks| && j < chunks[l].count && b == BlockAt(chunks[l], size, j);
    if k == l {
      if i < j { ProductLess(i, j, size); }
      if j < i { ProductLess(j, i, size); }
    } else {
      ProductLess(i, chunks[k].count, size);
      ProductLess(j, chunks[l].count, size);
      assert k < l ==> Clear(chunks[k], chunks[l], size);
      assert l < k ==> Clear(chunks[l], chunks[k], size);
    }
  }

  /** The word at `x` has no byte in the block at `a`. */
  predicate Outside(a: nat, size: nat, x: nat) {
    x + POINTER_SIZE <= a || a + size <= x
  }

  /** A block does not reach into the header of a chunk. */
  lemma BlockIsNoHeader(chunks: seq<Chunk>, size: nat, a: nat)
    requires Separate(chunks, size) && IsBlock(chunks, size, a) && size > 0
    ensures forall k :: 0 <= k < |chunks| ==> Outside(a, size, chunks[k].base) && chunks[k].base != a
  {
    var l: nat, j: nat :| l < |chunks| && j < chunks[l].count && a == BlockAt(chunks[l], size, j);
    ProductLess(j, chunks[l].count, size);
    forall k | 0 <= k < |chunks| ensures Outside(a, size, chunks[k].base) && chunks[k].base != a {
      assert k < l ==> Clear(chunks[k], chunks[l], size);
      assert l < k ==> Clear(chunks[l], chunks[k], size);
    }
  }

  /** A new chunk overlaps no block and no header of the old ones. */
  lemma NewChunkApart(chunks: seq<Chunk>, size: nat, c: Chunk, a: nat)
    requires forall k :: 0 <= k < |chunks| ==> Clear(c, chunks[k], size)
    requires IsBlock(chunks, size, a) && size > 0
    ensures a != c.base && forall i: nat :: i < c.count ==> BlockAt(c, size, i) != a
  {
    var l: nat, j: nat :| l < |chunks| && j < chunks[l].count && a == BlockAt(chunks[l], size, j);
    ProductLess(j, chunks[l].count, size);
    forall i: nat | i < c.count ensures BlockAt(c, size, i) != a {
      ProductLess(i, c.count, size);
    }
  }

  lemma SeparateMore(chunks: seq<Chunk>, size: nat, c: Chunk)
    requires Separate(chunks, size) && c.base > 0 && c.base % POINTER_SIZE == 0
    requires forall k :: 0 <= k < |chunks| ==> Clear(c, chunks[k], size)
    ensures Separate([c] + chunks, size)
    ensures forall k :: 0 <= k < |chunks| ==> chunks[k].base != c.base
  {
  }

  lemma MoreChunks(chunks: seq<Chunk>, size: nat, c: Chunk, a: nat)
    requires IsBlock(chunks, size, a)
    ensures IsBlock([c] + chunks, size, a)
  {
    var k: nat, i: nat :| k < |chunks| && i < chunks[k].count && a == BlockAt(chunks[k], size, i);
    assert ([c] + chunks)[k + 1] == chunks[k];
  }

  /** The free blocks and the outstanding ones are blocks, none is both, and they are `n`. */
  ghost predicate Accounted(chunks: seq<Chunk>, size: nat, spare: seq<nat>, outstanding: set<nat>, n: nat) {
    && Separate(chunks, size) && Distinct(spare)
    && (forall i :: 0 <= i < |spare| ==> IsBlock(chunks, size, spare[i]) && spare[i] !in outstanding)
    && (forall a :: a in outstanding ==> IsBlock(chunks, size, a))
    && |spare| + |outstanding| == n
  }

  /** The blocks of the chunk are neither free nor outstanding. */
  ghost predicate Unused(c: Chunk, from: nat, size: nat, spare: seq<nat>, outstanding: set<nat>) {
    forall j: nat :: from <= j < c.count ==> BlockAt(c, size, j) !in spare && BlockAt(c, size, j) !in outstanding
  }

  lemma AccountedMore(chunks: seq<Chunk>, size: nat, spare: seq<nat>, outstanding: set<nat>, n: nat, c: Chunk)
    requires Accounted(chunks, size, spare, outstanding, n) && size > 0 && c.base > 0 && c.base % POINTER_SIZE == 0
    requires forall k :: 0 <= k < |chunks| ==> Clear(c, chunks[k], size)
    ensures Accounted([c] + chunks, size, spare, outstanding, n) && Unused(c, 0, size, spare, outstanding)
    ensures c.base !in spare && forall k :: 0 <= k < |chunks| ==> chunks[k].base != c.base
  {
    SeparateMore(chunks, size, c);
    forall i | 0 <= i < |spare| ensures IsBlock([c] + chunks, size, spare[i]) && spare[i] != c.base {
      MoreChunks(chunks, size, c, spare[i]);
      NewChunkApart(chunks, size, c, spare[i]);
    }
    forall a | a in outstanding ensures IsBlock([c] + chunks, size, a) {
      MoreChunks(chunks, size, c, a);
    }
    forall j: nat | j < c.count ensures BlockAt(c, size, j) !in spare && BlockAt(c, size, j) !in outstanding {
      ChunkIsUnused(chunks, size, spare, outstanding, n, c, j);
    }
  }

  lemma ChunkIsUnused(chunks: seq<Chunk>, size: nat, spare: seq<nat>, outstanding: set<nat>, n: nat, c: Chunk, j: nat)
    requires Accounted(chunks, size, spare, outstanding, n) && size > 0 && j < c.count
    requires forall k :: 0 <= k < |chunks| ==> Clear(c, chunks[k], size)
    ensures BlockAt(c, size, j) !in spare && BlockAt(c, size, j) !in outstanding
  {
    var a := BlockAt(c, size, j);
    if a in spare || a in outstanding {
      NewChunkApart(chunks, size, c, a);
    }
  }

  /** The first free block is handed out. */
  lemma AccountedOut(chunks: seq<Chunk>, size: nat, spare: seq<nat>, outstanding: set<nat>, n: nat)
    requires Accounted(chunks, size, spare, outstanding, n) && spare != []
    ensures Accounted(chunks, size, spare[1..], outstanding + {spare[0]}, n)
  {
    assert forall i :: 0 <= i < |spare| - 1 ==> spare[1..][i] == spare[i + 1];
  }

  /** An outstanding block comes back. */
  lemma AccountedIn(chunks: seq<Chunk>, size: nat, spare: seq<nat>, outstanding: set<nat>, n: nat, a: nat)
    requires Accounted(chunks, size, spare, outstanding, n) && a in outstanding
    ensures a !in spare && Accounted(chunks, size, [a] + spare, outstanding - {a}, n)
  {
  }

  lemma AccountedFree(chunks: seq<Chunk>, size: nat, spare: seq<nat>, outstanding: set<nat>, n: nat, a: nat)
    requires Accounted(chunks, size, spare, outstanding, n) && IsBlock(chunks, size, a) && a !in spare
    requires a !in outstanding
    ensures Accounted(chunks, size, [a] + spare, outstanding, n + 1)
  {
  }

  /** What a size is padded to. */
  function PaddedSize(size: nat): nat {
    var least := if size > POINTER_SIZE then size else POINTER_SIZE;
    least + AlignPad(least)
  }

  function FirstCount(count: nat): nat {
    if count == 0 then DEFAULT_ELEM_COUNT else count
  }

  lemma TripledCount(initial: nat, growths: nat)
    ensures 3 * (initial * Pow3(growths)) == initial * Pow3(growths + 1)
  {
  }

  // ---------- lists through memory ----------

  /** The `count` blocks of the chunk at `base` stand in front of `rest` in the free list, the last one
      first, behind the header and one right after the other. */
  ghost predicate Threaded(spare: seq<nat>, base: nat, size: nat, count: nat, rest: seq<nat>) {
    && |spare| == count + |rest|
    && forall u :: Ask(OfCells, u) ==>
      && spare[count..] == rest
      && forall j :: 0 <= j < count ==> spare[j] == base + 8 + (count - 1 - j) * size
  }

  lemma ThreadedNone(spare: seq<nat>, base: nat, size: nat)
    ensures Threaded(spare, base, size, 0, spare)
  {
  }

  lemma ThreadedAt(spare: seq<nat>, base: nat, size: nat, count: nat, rest: seq<nat>, j: nat)
    requires Threaded(spare, base, size, count, rest) && j < count
    ensures spare[j] == base + 8 + (count - 1 - j) * size
  {
    assert Ask(OfCells, 0);
  }

  lemma ThreadedNext(spare: seq<nat>, base: nat, size: nat, i: nat, rest: seq<nat>, e: nat)
    requires Threaded(spare, base, size, i, rest) && e == BlockAt(Chunk(base, 0), size, i)
    ensures Threaded([e] + spare, base, size, i + 1, rest)
  {
    assert Ask(OfCells, 0);
    var s := [e] + spare;
    assert s[i + 1..] == spare[i..];
    forall j | 0 <= j < i + 1 ensures s[j] == base + 8 + (i + 1 - 1 - j) * size {
      if j > 0 {
        assert s[j] == spare[j - 1] && i - 1 - (j - 1) == i + 1 - 1 - j;
      }
    }
  }

  function First(s: seq<nat>): nat {
    if s == [] then 0 else s[0]
  }

  predicate Follows(memory: map<nat, nat>, s: seq<nat>, i: nat)
    requires i < |s|
  {
    s[i] in memory && memory[s[i]] == First(s[i + 1..])
  }

  /** The words at the addresses lead from one to the next, and at the end to NULL. */
  predicate ListIn(memory: map<nat, nat>, s: seq<nat>) {
    forall i :: 0 <= i < |s| ==> Follows(memory, s, i)
  }

  lemma ListPush(memory: map<nat, nat>, s: seq<nat>, e: nat)
    requires ListIn(memory, s) && e !in s
    ensures ListIn(memory[e := First(s)], [e] + s)
  {
    var m, r := memory[e := First(s)], [e] + s;
    forall i | 0 <= i < |r| ensures Follows(m, r, i) {
      if i > 0 {
        assert Follows(memory, s, i - 1) && r[i + 1..] == s[i..];
      } else {
        assert r[1..] == s;
      }
    }
  }

  lemma ListPop(memory: map<nat, nat>, s: seq<nat>)
    requires ListIn(memory, s) && s != []
    ensures s[0] in memory && memory[s[0]] == First(s[1..]) && ListIn(memory, s[1..])
  {
    assert Follows(memory, s, 0);
    forall i | 0 <= i < |s| - 1 ensures Follows(memory, s[1..], i) {
      assert Follows(memory, s, i + 1) && s[1..][i + 1..] == s[i + 2..];
    }
  }

  /** The words outside the block at `a` are in `after` what they were. */
  predicate SameOutside(memory: map<nat, nat>, after: map<nat, nat>, a: nat, size: nat) {
    forall x :: x in memory && Outside(a, size, x) ==> x in after && after[x] == memory[x]
  }

  lemma ListIsOutside(memory: map<nat, nat>, s: seq<nat>, after: map<nat, nat>, a: nat, size: nat)
    requires ListIn(memory, s) && SameOutside(memory, after, a, size)
    requires forall i :: 0 <= i < |s| ==> Outside(a, size, s[i])
    ensures ListIn(after, s)
  {
    forall i | 0 <= i < |s| ensures Follows(after, s, i) {
      assert Follows(memory, s, i) && Outside(a, size, s[i]);
    }
  }

  lemma ListKeeps(memory: map<nat, nat>, s: seq<nat>, e: nat, word: nat)
    requires ListIn(memory, s) && e !in s
    ensures ListIn(memory[e := word], s)
  {
    var m := memory[e := word];
    forall i | 0 <= i < |s| ensures Follows(m, s, i) {
      assert Follows(memory, s, i);
    }
  }

  function Bases(chunks: seq<Chunk>): (r: seq<nat>)
    ensures |r| == |chunks| && forall k :: 0 <= k < |r| ==> r[k] == chunks[k].base
  {
    if chunks == [] then [] else [chunks[0].base] + Bases(chunks[1..])
  }

  lemma BasesMore(chunks: seq<Chunk>, c: Chunk)
    ensures Bases([c] + chunks) == [c.base] + Bases(chunks)
  {
    assert ([c] + chunks)[1..] == chunks;
  }

  class MemPool {
    const elemSize: nat
    const needsAutoGrow: bool
    var elemCount: nat
    var freeList: nat
    var rawMemList: nat
    var memory: map<nat, nat>
    ghost var chunks: seq<Chunk>
    ghost var spare: seq<nat>
    ghost var outstanding: set<nat>
    /** The number of blocks at first, and how often the pool has grown since. */
    ghost var initial: nat
    ghost var growths: nat

    /** The free list runs through exactly `spare`, and the list of chunks through `chunks`. */
    ghost predicate Chained()
      reads `freeList, `rawMemList, `memory, `spare, `chunks
    {
      && freeList == First(spare) && rawMemList == First(Bases(chunks))
      && ListIn(memory, spare) && ListIn(memory, Bases(chunks))
    }

    ghost predicate Valid()
      reads this
    {
      && elemSize % POINTER_SIZE == 0 && elemSize >= POINTER_SIZE
      && elemCount == initial * Pow3(growths)
      && (forall u :: Ask(OfShape, u) ==> Chained())
      && forall u :: Ask(OfSlots, u) ==> Accounted(chunks, elemSize, spare, outstanding, elemCount)
    }

    /** An empty pool of blocks of at least `size` bytes, with its first blocks if malloc grants them. */
    constructor (size: nat, count: nat, needsAutoGrow: bool, base: nat)
      requires size < 0x7FFF_FFF8 && base % POINTER_SIZE == 0
      requires Product(FirstCount(count), PaddedSize(size)) < WORD32
      ensures Valid() && elemSize == PaddedSize(size) && this.needsAutoGrow == needsAutoGrow && outstanding == {}
      ensures elemSize >= size && elemSize >= 8 && elemSize % 8 == 0
      ensures forall n: nat :: n % 8 == 0 && n >= size && n >= 8 ==> n >= elemSize
      ensures elemCount == |spare| == (if base == 0 then 0 else if count == 0 then 20 else count)
      ensures base > 0 ==> chunks == [Chunk(base, elemCount)] && Threaded(spare, base, elemSize, elemCount, [])
      ensures initial == elemCount && growths == 0
    {
      var least := if size > POINTER_SIZE then size else POINTER_SIZE;
      elemSize := least + AlignPad(least);
      elemCount, freeList, rawMemList, memory := 0, 0, 0, map[];
      this.needsAutoGrow := needsAutoGrow;
      chunks, spare, outstanding, initial, growths := [], [], {}, 0, 0;
      new;
      AlignPadMeans(least);
      GrowNewMem(if count == 0 then DEFAULT_ELEM_COUNT else count, base);
      initial := elemCount;
    }

    /** What malloc promises of a piece of memory. */
    ghost predicate Granted(base: nat, count: nat)
      reads `chunks
    {
      base > 0 ==>
        && base % POINTER_SIZE == 0
        && forall k :: 0 <= k < |chunks| ==> Clear(Chunk(base, count), chunks[k], elemSize)
    }

    /** Outstanding blocks are aligned, lie in a chunk, and do not overlap each other or a free block. */
    lemma OutstandingApart(a: nat, b: nat)
      requires Valid() && a in outstanding && a != b && (b in outstanding || b in spare)
      ensures a % POINTER_SIZE == 0 && (a + elemSize <= b || b + elemSize <= a)
      ensures exists k ::
        && 0 <= k < |chunks| && chunks[k].base + 8 <= a
        && a + elemSize <= chunks[k].base + (8 + chunks[k].count * elemSize)
    {
      assert Ask(OfSlots, 0);
      BlocksApart(chunks, elemSize, a, b);
      BlockIsInside(chunks, elemSize, a);
    }

    lemma Conserved()
      requires Valid()
      ensures |spare| + |outstanding| == elemCount == initial * Pow3(growths)
    {
      assert Ask(OfSlots, 0);
    }

    /** The block at `e` becomes the first of the free list. */
    method Thread(e: nat)
      requires Chained() && e !in spare && e > 0 && forall k :: 0 <= k < |chunks| ==> chunks[k].base != e
      modifies `memory, `freeList, `spare
      ensures Chained() && spare == [e] + old(spare)
    {
      ListPush(memory, spare, e);
      ListKeeps(memory, Bases(chunks), e, freeList);
      memory := memory[e := freeList];
      freeList := e;
      spare := [e] + spare;
    }

    /** The blocks of the first chunk, which start at `raw`, go to the free list. */
    method FillFreeList(raw: nat, count: nat)
      requires Chained() && Accounted(chunks, elemSize, spare, outstanding, elemCount) && elemSize > 0
      requires chunks != [] && raw == chunks[0].base + POINTER_SIZE && count == chunks[0].count
      requires Unused(chunks[0], 0, elemSize, spare, outstanding)
      modifies `memory, `freeList, `spare
      ensures Chained() && Accounted(chunks, elemSize, spare, outstanding, elemCount + count)
      ensures Threaded(spare, chunks[0].base, elemSize, count, old(spare))
    {
      ThreadedNone(spare, chunks[0].base, elemSize);
      for i := 0 to count
        invariant Threaded(spare, chunks[0].base, elemSize, i, old(spare))
        invariant Chained() && Accounted(chunks, elemSize, spare, outstanding, elemCount + i)
        invariant Unused(chunks[0], i, elemSize, spare, outstanding)
      {
        FillOne(raw + i * elemSize, i, elemCount + i, old(spare));
      }
    }

    method FillOne(e: nat, ghost i: nat, ghost n: nat, ghost rest: seq<nat>)
      requires Chained() && Accounted(chunks, elemSize, spare, outstanding, n) && elemSize > 0
      requires chunks != [] && i < chunks[0].count && e == BlockAt(chunks[0], elemSize, i)
      requires Unused(chunks[0], i, elemSize, spare, outstanding)
      requires Threaded(spare, chunks[0].base, elemSize, i, rest)
      modifies `memory, `freeList, `spare
      ensures Chained() && Accounted(chunks, elemSize, spare, outstanding, n + 1)
      ensures Threaded(spare, chunks[0].base, elemSize, i + 1, rest)
      ensures Unused(chunks[0], i + 1, elemSize, spare, outstanding)
    {
      BlockIsNoHeader(chunks, elemSize, e);
      AccountedFree(chunks, elemSize, spare, outstanding, n, e);
      forall j: nat | i < j < chunks[0].count ensures BlockAt(chunks[0], elemSize, j) != e {
        ProductLess(i, j, elemSize);
      }
      ThreadedNext(spare, chunks[0].base, elemSize, i, rest, e);
      Thread(e);
    }

    /** A chunk of `count` blocks, if malloc grants one at `base`. */
    method GrowNewMem(count: nat, base: nat)
      requires Chained() && Accounted(chunks, elemSize, spare, outstanding, elemCount) && elemSize > 0
      requires Granted(base, count) && Product(count, elemSize) < WORD32
      modifies `memory, `freeList, `rawMemList, `elemCount, `chunks, `spare
      ensures Chained() && Accounted(chunks, elemSize, spare, outstanding, elemCount)
      ensures base == 0 ==> elemCount == old(elemCount) && chunks == old(chunks) && spare == old(spare)
      ensures base > 0 ==>
        && elemCount == old(elemCount) + count && chunks == [Chunk(base, count)] + old(chunks)
        && Threaded(spare, base, elemSize, count, old(spare))
    {
      if base == 0 {
        return;
      }
      AccountedMore(chunks, elemSize, spare, outstanding, elemCount, Chunk(base, count));
      PushChunk(base, count);
      FillFreeList(base + POINTER_SIZE, count);
      elemCount := elemCount + count;
    }

    /** The chunk becomes the first of the list of chunks. */
    method PushChunk(base: nat, ghost count: nat)
      requires Chained() && base > 0 && base !in spare && forall k :: 0 <= k < |chunks| ==> chunks[k].base != base
      modifies `memory, `rawMemList, `chunks
      ensures Chained() && chunks == [Chunk(base, count)] + old(chunks)
    {
      ListPush(memory, Bases(chunks), base);
      ListKeeps(memory, spare, base, rawMemList);
      BasesMore(chunks, Chunk(base, count));
      memory := memory[base := rawMemList];
      rawMemList := base;
      chunks := [Chunk(base, count)] + chunks;
    }

    lemma SpareIsPositive()
      requires Accounted(chunks, elemSize, spare, outstanding, elemCount) && elemSize % POINTER_SIZE == 0
      ensures spare != [] ==> spare[0] > 0
    {
      if spare != [] {
        BlockIsInside(chunks, elemSize, spare[0]);
      }
    }

    lemma FreeListSays()
      requires Valid()
      ensures (freeList == 0 <==> spare == []) && freeList == First(spare)
    {
      assert Ask(OfShape, 0);
      assert Ask(OfSlots, 0);
      SpareIsPositive();
    }

    /** The first block leaves the free list. */
    method Unthread() returns (e: nat)
      requires Chained() && spare != []
      modifies `freeList, `spare
      ensures Chained() && e == old(spare)[0] && spare == old(spare)[1..]
    {
      e := freeList;
      ListPop(memory, spare);
      freeList := memory[e];
      spare := spare[1..];
    }

    /** The first free block is handed out. */
    method Pop() returns (e: nat)
      requires Valid() && spare != []
      modifies `freeList, `spare, `outstanding
      ensures Valid() && e == old(spare)[0] && spare == old(spare)[1..]
      ensures e !in old(outstanding) && outstanding == old(outstanding) + {e}
    {
      assert Ask(OfShape, 0);
      assert Ask(OfSlots, 0);
      AccountedOut(chunks, elemSize, spare, outstanding, elemCount);
      e := Unthread();
      outstanding := outstanding + {e};
    }

    /** Twice as many new blocks as there are, if malloc grants them. */
    method Triple(base: nat)
      requires Valid() && Granted(base, 2 * elemCount) && Product(2 * elemCount, elemSize) < WORD32
      modifies `memory, `freeList, `rawMemList, `elemCount, `chunks, `spare, `growths
      ensures Valid() && elemCount == (if base > 0 then 3 * old(elemCount) else old(elemCount))
      ensures growths == old(growths) + if base > 0 then 1 else 0
      ensures base == 0 ==> spare == old(spare) && chunks == old(chunks)
      ensures base > 0 ==>
        && chunks == [Chunk(base, 2 * old(elemCount))] + old(chunks)
        && Threaded(spare, base, elemSize, 2 * old(elemCount), old(spare))
      ensures old(spare) == [] ==> |spare| == elemCount - old(elemCount)
    {
      assert Ask(OfShape, 0);
      assert Ask(OfSlots, 0);
      GrowNewMem(elemCount * 2, base);
      if base > 0 {
        growths := growths + 1;
        TripledCount(initial, growths - 1);
      }
    }

    /** A free block; the pool triples first if there is none and it may grow. `base` is what malloc
        answers if it is asked. */
    method Alloc(base: nat) returns (e: nat)
      requires Valid()
      requires spare == [] && needsAutoGrow ==>
        Granted(base, 2 * elemCount) && Product(2 * elemCount, elemSize) < WORD32
      modifies this
      ensures Valid()
      ensures e == 0 <==> old(spare) == [] && (!needsAutoGrow || base == 0 || old(elemCount) == 0)
      ensures e == 0 ==> outstanding == old(outstanding) && spare == []
      ensures e != 0 ==> e !in old(outstanding) && outstanding == old(outstanding) + {e}
      ensures old(spare) != [] ==> e == old(spare)[0] && spare == old(spare)[1..] && elemCount == old(elemCount)
      ensures elemCount == if old(spare) == [] && needsAutoGrow && base > 0 then 3 * old(elemCount) else old(elemCount)
      ensures old(spare) == [] && e != 0 ==>
        && chunks == [Chunk(base, 2 * old(elemCount))] + old(chunks)
        && e == base + 8 + (2 * old(elemCount) - 1) * elemSize
        && Threaded([e] + spare, base, elemSize, 2 * old(elemCount), [])
      ensures old(spare) != [] ==> chunks == old(chunks)
      ensures initial == old(initial)
      ensures growths == old(growths) + if old(spare) == [] && needsAutoGrow && base > 0 then 1 else 0
    {
      FreeListSays();
      if freeList == 0 && needsAutoGrow {
        ghost var n := 2 * elemCount;
        Triple(base);
        FreeListSays();
        if base > 0 && n > 0 {
          ThreadedAt(spare, base, elemSize, n, [], 0);
        }
      }
      e := 0;
      if freeList != 0 {
        ghost var was := spare;
        e := Pop();
        assert [e] + spare == was;
      }
    }

    /** An outstanding block goes back to the head of the free list. */
    method Free(e: nat)
      requires Valid() && e in outstanding
      modifies this
      ensures Valid() && outstanding == old(outstanding) - {e} && spare == [e] + old(spare)
      ensures elemCount == old(elemCount) && chunks == old(chunks) && initial == old(initial) && growths == old(growths)
    {
      assert Ask(OfShape, 0);
      assert Ask(OfSlots, 0);
      AccountedIn(chunks, elemSize, spare, outstanding, elemCount, e);
      BlockIsInside(chunks, elemSize, e);
      BlockIsNoHeader(chunks, elemSize, e);
      Thread(e);
      outstanding := outstanding - {e};
    }

    /** Whoever has a block may write to all of it: `after` is the memory then. No link of the free list
        and no header of a chunk is touched. */
    method Write(e: nat, after: map<nat, nat>)
      requires Valid() && e in outstanding && SameOutside(memory, after, e, elemSize)
      modifies `memory
      ensures Valid() && memory == after
    {
      assert Ask(OfShape, 0);
      assert Ask(OfSlots, 0);
      LinksAreOutside(e);
      ListIsOutside(memory, Bases(chunks), after, e, elemSize);
      ListIsOutside(memory, spare, after, e, elemSize);
      memory := after;
    }

    /** No header and no free block's link reaches into an outstanding block. */
    lemma LinksAreOutside(e: nat)
      requires Accounted(chunks, elemSize, spare, outstanding, elemCount) && e in outstanding
      requires elemSize >= POINTER_SIZE
      ensures forall k :: 0 <= k < |chunks| ==> Outside(e, elemSize, chunks[k].base)
      ensures forall i :: 0 <= i < |spare| ==> Outside(e, elemSize, spare[i])
    {
      BlockIsNoHeader(chunks, elemSize, e);
      forall i | 0 <= i < |spare| ensures Outside(e, elemSize, spare[i]) {
        BlocksApart(chunks, elemSize, e, spare[i]);
      }
    }
  }
}
