/**
 The allocator itself: headers stored in memory bytes, pointers that walk over them and four globals.
 Every call is proved to do to the bytes what the function of the same name does to the block list.
 */
module Allocators {
  import opened Bytes
  import opened Blocks
  import opened BlockFacts
  import opened HeapLaws
  import opened Vacancy
  import opened HeapRuns
  import opened Tiling
  import opened MemoryMap

  // ---------------------------------------------------------------- byte-level facts

  /** The three stores that split a block of `b.data` after its first `n` bytes. */
  lemma SplitBytes(m0: seq<byte>, m1: seq<byte>, m2: seq<byte>, m3: seq<byte>, a: nat, b: Block, n: nat)
    requires BlockAt(m0, a, b) && Splits(b, n)
    requires var r := a + HEADER + n;
      && SameOutside(m0, m1, r, r + 1) && m1[r] == 0
      && SameOutside(m1, m2, r + 8, r + 16) && SizeField(m2, r) == |b.data| - n - HEADER
    requires SameOutside(m2, m3, a + 8, a + 16) && SizeField(m3, a) == n
    ensures SameOutside(m0, m3, a, a + Extent(b))
    ensures BlockAt(m3, a, Block(b.used, b.data[..n]))
    ensures BlockAt(m3, a + HEADER + n, Block(false, b.data[n + HEADER..]))
  {
    var r, e := a + HEADER + n, a + Extent(b);
    SameSlice(m2, m3, a + 8, a + 16, r + 8, r + 16);
    assert m3[r + HEADER..e] == m0[r + HEADER..e];
    assert m3[a + HEADER..r] == m0[a + HEADER..r];
    SplitFront(m0, m3, a, b, n);
    SplitRest(m0, m3, a, b, n);
  }

  lemma SplitFront(m: seq<byte>, w: seq<byte>, a: nat, b: Block, n: nat)
    requires BlockAt(m, a, b) && Splits(b, n) && |w| == |m|
    requires w[a] == m[a] && SizeField(w, a) == n && w[a + HEADER..a + HEADER + n] == m[a + HEADER..a + HEADER + n]
    ensures BlockAt(w, a, Block(b.used, b.data[..n]))
  {
    SliceOfSlice(m, a + HEADER, a + Extent(b), 0, n);
    assert b.data[..n] == b.data[0..n];
  }

  lemma SplitRest(m: seq<byte>, w: seq<byte>, a: nat, b: Block, n: nat)
    requires BlockAt(m, a, b) && Splits(b, n) && |w| == |m|
    requires var r, e := a + HEADER + n, a + Extent(b);
      && w[r] == 0 && SizeField(w, r) == |b.data| - n - HEADER && w[r + HEADER..e] == m[r + HEADER..e]
    ensures BlockAt(w, a + HEADER + n, Block(false, b.data[n + HEADER..]))
  {
    SliceOfSlice(m, a + HEADER, a + Extent(b), n + HEADER, |b.data|);
    assert b.data[n + HEADER..] == b.data[n + HEADER..|b.data|];
  }

  /** The two stores that mark a block used and clear its first `clear` bytes. */
  lemma TakeBytes(m0: seq<byte>, m1: seq<byte>, m2: seq<byte>, a: nat, b: Block, clear: nat)
    requires BlockAt(m0, a, b) && clear <= |b.data|
    requires SameOutside(m0, m1, a, a + 1) && m1[a] == 1
    requires SameOutside(m1, m2, a + HEADER, a + HEADER + clear) && m2[a + HEADER..a + HEADER + clear] == Zeros(clear)
    ensures SameOutside(m0, m2, a, a + Extent(b))
    ensures BlockAt(m2, a, Block(true, Zeros(clear) + b.data[clear..]))
  {
    var c, e := a + HEADER + clear, a + Extent(b);
    SameSlice(m0, m1, a, a + 1, a + 8, a + 16);
    SameSlice(m1, m2, a + HEADER, c, a + 8, a + 16);
    SameSlice(m0, m1, a, a + 1, c, e);
    SameSlice(m1, m2, a + HEADER, c, c, e);
    SliceOfSlice(m0, a + HEADER, e, clear, |b.data|);
    assert b.data[clear..] == b.data[clear..|b.data|];
    assert m2[a + HEADER..e] == m2[a + HEADER..c] + m2[c..e];
  }

  /** Memory `m` and the globals `last_alloc` and `memory_used` hold the heap `h`. */
  ghost predicate Represents(m: seq<byte>, h: Heap, last: nat, used: nat) {
    && Inv(h)
    && Tiles(m, h.begin, h.blocks)
    && last == Last(h)
    && used == UsedBytes(h.blocks)
    && h.end <= |m| <= MAPPED_LIMIT
    && h.begin <= U64 - U32
  }

  /** The empty block list represents an untouched heap, provided that sums above its start do not wrap. */
  lemma NoBlocks(m: seq<byte>, a: nat, e: nat) returns (bs: seq<Block>)
    requires a % 16 == 0 && e <= |m| <= MAPPED_LIMIT
    ensures |bs| == 0 && (Represents(m, Heap(a, e, bs), a, 0) <==> a <= U64 - U32)
  {
    bs := [];
  }

  lemma KeptInv(m: seq<byte>, h: Heap, last: nat, used: nat)
    requires Represents(m, h, last, used)
    ensures Inv(h)
  {
  }

  lemma Reused(m: seq<byte>, w: seq<byte>, h: Heap, last: nat, used: nat, n: nat, whole: bool)
    requires Represents(m, h, last, used) && 0 < n && n % 16 == 0
    requires FirstFit(h.blocks, n) < |h.blocks|
    requires var i := FirstFit(h.blocks, n); var b := h.blocks[i]; var a := h.begin + Span(h.blocks[..i]);
      SameOutside(m, w, a, a + Extent(b)) && Tiles(w, a, Carve(b, n, if whole then |b.data| else n))
    ensures var b := h.blocks[FirstFit(h.blocks, n)];
      Represents(w, Place(h, n, whole).0, last, used + Extent(Carve(b, n, if whole then |b.data| else n)[0]))
    ensures Place(h, n, whole).0 == h.(blocks := Place(h, n, whole).0.blocks)
    ensures Place(h, n, whole).1 == PtrAt(h.begin, h.blocks, FirstFit(h.blocks, n))
    ensures SameOutside(m, w, h.begin, last)
  {
    hide Tiles, Span, UsedBytes, FreePairs, ContentsFrom;
    ReuseMeasures(h, n, whole);
    ReuseTiles(m, w, h, n, whole);
  }

  lemma Extended(m: seq<byte>, w: seq<byte>, h: Heap, last: nat, used: nat, n: nat, whole: bool)
    requires Represents(m, h, last, used) && 0 < h.begin && 0 < n && n % 16 == 0
    requires FirstFit(h.blocks, n) == |h.blocks| && last + n + HEADER < h.end
    requires SameOutside(m, w, last, last + HEADER + n) && BlockAt(w, last, Block(true, Zeros(n)))
    ensures Represents(w, Place(h, n, whole).0, last + n + HEADER, used + n + HEADER)
    ensures Place(h, n, whole).0 == h.(blocks := Place(h, n, whole).0.blocks)
    ensures Place(h, n, whole).1 == last + HEADER
    ensures SameOutside(m, w, h.begin, last + n + HEADER)
  {
    hide Tiles, Span, UsedBytes, FreePairs, ContentsFrom;
    ExtendMeasures(h, Block(true, Zeros(n)));
    ExtendTiles(m, w, h.begin, h.blocks, Block(true, Zeros(n)));
  }

  class Allocator {
    /** Physical memory, indexed by address. */
    const mem: array<byte>
    var heapBeginning: nat
    var heapEnd: nat
    var lastAlloc: nat
    var memoryUsed: nat
    ghost var blocks: seq<Block>

    ghost function State(): Heap
      reads this
    {
      Heap(heapBeginning, heapEnd, blocks)
    }

    /** The headers in memory tile `[heapBeginning, lastAlloc)` and `memoryUsed` counts the used blocks. */
    ghost predicate Valid()
      reads this, mem
    {
      Represents(mem[..], State(), lastAlloc, memoryUsed)
    }

    /** Before `memory_init` all four globals are zero. */
    constructor (memory: array<byte>)
      requires memory.Length <= MAPPED_LIMIT
      ensures mem == memory && Valid() && heapBeginning == 0 && heapEnd == 0 && |blocks| == 0
    {
      ghost var none := NoBlocks(memory[..], 0, 0);
      mem := memory;
      heapBeginning, heapEnd, lastAlloc, memoryUsed := 0, 0, 0, 0;
      blocks := none;
    }

    /**
     `memory_init`: an empty heap over a longest usable region at or above the floor. Without one, the heap
     takes 1 MiB from the floor, cut at the mapped limit.
     */
    method MemoryInit(kernelEnd: nat, mmap: seq<Entry>)
      requires mem.Length == MAPPED_LIMIT && kernelEnd < U64
      requires NoWrap(mmap) && |mmap| < 0x1_0000
      modifies this
      ensures |blocks| == 0 && memoryUsed == 0 && lastAlloc == heapBeginning
      ensures Valid() <==> heapBeginning <= 0xFFFF_FFFF_0000_0000
      ensures InRange(kernelEnd, mmap, heapBeginning, heapEnd)
    {
      heapBeginning, heapEnd := HeapRange(kernelEnd, mmap);
      lastAlloc := heapBeginning;
      memoryUsed := 0;
      ghost var none := NoBlocks(mem[..], heapBeginning, heapEnd);
      blocks := none;
    }

    // -------------------------------------------------------------- single stores

    function SizeAt(a: nat): nat
      requires a + HEADER <= mem.Length
      reads mem
    {
      SizeField(mem[..], a)
    }

    method StoreStatus(a: nat, status: byte)
      requires a < mem.Length
      modifies mem
      ensures mem[a] == status && SameOutside(old(mem[..]), mem[..], a, a + 1)
    {
      mem[a] := status;
    }

    method StoreSize(a: nat, size: nat)
      requires a + HEADER <= mem.Length && size < U64
      modifies mem
      ensures SizeField(mem[..], a) == size && SameOutside(old(mem[..]), mem[..], a + 8, a + 16)
    {
      var code := EncodeLE(size, 8);
      forall i | 0 <= i < 8 {
        mem[a + 8 + i] := code[i];
      }
      assert mem[..][a + 8..a + 16] == code;
      DecodeEncode64(size);
    }

    method Memset(a: nat, value: int, n: nat)
      requires a + n <= mem.Length
      modifies mem
      ensures mem[..][a..a + n] == Fill(n, value % 256) && SameOutside(old(mem[..]), mem[..], a, a + n)
    {
      for i := 0 to n
        invariant forall j :: a <= j < a + i ==> mem[j] == value % 256
        invariant forall j :: 0 <= j < mem.Length && !(a <= j < a + i) ==> mem[j] == old(mem[j])
      {
        mem[a + i] := value % 256;
      }
    }

    method Memcpy(dest: nat, src: nat, n: nat)
      requires dest + n <= mem.Length && src + n <= mem.Length
      modifies mem
      ensures ForwardCopy(old(mem[..]), mem[..], dest, src, n)
    {
      hide CopiedUpTo, ForwardCopy, From;
      ghost var m := mem[..];
      CopyStart(m, dest, src, n);
      for i := 0 to n
        invariant CopiedUpTo(m, mem[..], dest, src, n, i)
      {
        CopyStep(m, mem[..], dest, src, n, i);
        ghost var w := mem[..];
        mem[dest + i] := mem[src + i];
        assert mem[..] == w[dest + i := w[src + i]];
      }
      CopyDone(m, mem[..], dest, src, n);
    }

    // -------------------------------------------------------------- malloc and calloc

    /** Splits the block at `loc` after `n` payload bytes; the rest becomes a free block. */
    method SplitOff(loc: nat, n: nat, ghost b: Block)
      requires BlockAt(mem[..], loc, b) && Splits(b, n) && |b.data| < U64
      modifies mem
      ensures BlockAt(mem[..], loc, Block(b.used, b.data[..n]))
      ensures BlockAt(mem[..], loc + HEADER + n, Block(false, b.data[n + HEADER..]))
      ensures SameOutside(old(mem[..]), mem[..], loc, loc + Extent(b))
    {
      ghost var m0 := mem[..];
      var remainder := loc + HEADER + n;
      StoreStatus(remainder, 0);
      ghost var m1 := mem[..];
      assert m1[loc + 8..loc + 16] == m0[loc + 8..loc + 16];
      StoreSize(remainder, SizeAt(loc) - n - HEADER);
      ghost var m2 := mem[..];
      StoreSize(loc, n);
      SplitBytes(m0, m1, m2, mem[..], loc, b, n);
    }

    /** Marks the block at `loc` used and clears `clear` bytes of it. */
    method Take(loc: nat, clear: nat, ghost b: Block)
      requires BlockAt(mem[..], loc, b) && clear <= |b.data|
      modifies mem, `memoryUsed
      ensures BlockAt(mem[..], loc, Block(true, Zeros(clear) + b.data[clear..]))
      ensures SameOutside(old(mem[..]), mem[..], loc, loc + Extent(b))
      ensures memoryUsed == old(memoryUsed) + Extent(b)
    {
      ghost var m0 := mem[..];
      StoreStatus(loc, 1);
      ghost var m1 := mem[..];
      assert m1[loc + 8..loc + 16] == m0[loc + 8..loc + 16];
      memoryUsed := memoryUsed + SizeAt(loc) + HEADER;
      Memset(loc + HEADER, 0, clear);
      TakeBytes(m0, m1, mem[..], loc, b, clear);
    }

    /** Splits the block at `loc` and takes its first part, cleared. */
    method TakePart(loc: nat, n: nat, ghost b: Block)
      requires BlockAt(mem[..], loc, b) && Splits(b, n) && |b.data| < U64
      modifies mem, `memoryUsed
      ensures Tiles(mem[..], loc, [Block(true, Zeros(n)), Block(false, b.data[n + HEADER..])])
      ensures memoryUsed == old(memoryUsed) + HEADER + n
      ensures SameOutside(old(mem[..]), mem[..], loc, loc + Extent(b))
    {
      hide Tiles, BlockAt;
      SplitOff(loc, n, b);
      ghost var c, d, m1 := Block(b.used, b.data[..n]), Block(false, b.data[n + HEADER..]), mem[..];
      Take(loc, n, c);
      assert Zeros(n) + c.data[n..] == Zeros(n);
      BlockFrame(m1, mem[..], loc, loc + Extent(c), loc + Extent(c), d);
      TilesTwo(mem[..], loc, Block(true, Zeros(n)), d);
    }

    /** The bytes of the free block `b` at `loc` become those of `Carve`. */
    method TakeFree(loc: nat, n: nat, whole: bool, ghost b: Block)
      requires BlockAt(mem[..], loc, b) && n <= |b.data| < U64
      modifies mem, `memoryUsed
      ensures var mid := Carve(b, n, if whole then |b.data| else n);
        && Tiles(mem[..], loc, mid)
        && memoryUsed == old(memoryUsed) + Extent(mid[0])
      ensures SameOutside(old(mem[..]), mem[..], loc, loc + Extent(b))
    {
      hide Tiles, Span, UsedBytes, FreePairs, ContentsFrom;
      if SizeAt(loc) - n > HEADER {
        TakePart(loc, n, b);
      } else {
        Take(loc, if whole then SizeAt(loc) else n, b);
        ghost var clear := if whole then |b.data| else n;
        TilesOne(mem[..], loc, Block(true, Zeros(clear) + b.data[clear..]));
      }
    }

    /** The bytes and the counter after the free block `i` is taken; the ghost list follows in the caller. */
    method TakeFit(loc: nat, n: nat, whole: bool, ghost i: nat, ghost h: Heap)
      requires Represents(mem[..], h, lastAlloc, memoryUsed) && 0 < n && n % 16 == 0
      requires i == FirstFit(h.blocks, n) < |h.blocks| && loc == h.begin + Span(h.blocks[..i])
      modifies mem, `memoryUsed
      ensures Represents(mem[..], Place(h, n, whole).0, lastAlloc, memoryUsed)
      ensures SameOutside(old(mem[..]), mem[..], h.begin, lastAlloc)
    {
      hide Tiles, Span, UsedBytes, FreePairs, ContentsFrom;
      ghost var m0, used := mem[..], memoryUsed;
      TilesAt(m0, h.begin, h.blocks, i);
      TakeFree(loc, n, whole, h.blocks[i]);
      Reused(m0, mem[..], h, lastAlloc, used, n, whole);
    }

    /** The bytes and the globals after a new block is laid at the end. */
    method TakeEnd(loc: nat, n: nat, whole: bool, ghost h: Heap)
      requires Represents(mem[..], h, lastAlloc, memoryUsed) && 0 < h.begin && 0 < n <= U32 / 2 && n % 16 == 0
      requires FirstFit(h.blocks, n) == |h.blocks| && loc == lastAlloc && lastAlloc + n + HEADER < h.end
      modifies mem, `memoryUsed, `lastAlloc
      ensures Represents(mem[..], Place(h, n, whole).0, lastAlloc, memoryUsed)
      ensures SameOutside(old(mem[..]), mem[..], h.begin, lastAlloc)
      ensures lastAlloc == old(lastAlloc) + n + HEADER
    {
      hide Tiles, Span, UsedBytes, FreePairs, ContentsFrom;
      ghost var m0 := mem[..];
      LayBlock(loc, n);
      Extended(m0, mem[..], h, lastAlloc, memoryUsed, n, whole);
      lastAlloc := lastAlloc + n + HEADER;
      memoryUsed := memoryUsed + n + HEADER;
    }

    /** Takes the free block `i` at `loc` for `n` bytes. */
    method Reuse(loc: nat, n: nat, whole: bool, ghost i: nat) returns (ptr: nat)
      requires Valid() && 0 < n && n % 16 == 0
      requires i == FirstFit(blocks, n) < |blocks| && loc == heapBeginning + Span(blocks[..i])
      modifies mem, `memoryUsed, `blocks
      ensures Valid()
      ensures State() == Place(old(State()), n, whole).0 && ptr == Place(old(State()), n, whole).1
      ensures SameOutside(old(mem[..]), mem[..], heapBeginning, lastAlloc)
    {
      hide Tiles, Span, UsedBytes, FreePairs, ContentsFrom;
      TakeFit(loc, n, whole, i, State());
      blocks := Place(State(), n, whole).0.blocks;
      ptr := loc + HEADER;
    }

    /** Lays a new used block at the end, if there is room. */
    method Extend(loc: nat, n: nat, whole: bool) returns (ptr: nat)
      requires Valid() && 0 < heapBeginning && 0 < n <= U32 / 2 && n % 16 == 0
      requires FirstFit(blocks, n) == |blocks| && loc == lastAlloc
      modifies mem, `memoryUsed, `blocks, `lastAlloc
      ensures Valid()
      ensures State() == Place(old(State()), n, whole).0 && ptr == Place(old(State()), n, whole).1
      ensures SameOutside(old(mem[..]), mem[..], heapBeginning, lastAlloc)
    {
      hide Tiles, UsedBytes, FreePairs, ContentsFrom;
      if (lastAlloc + n + HEADER) % U64 >= heapEnd {
        return 0;
      }
      TakeEnd(loc, n, whole, State());
      blocks := Place(State(), n, whole).0.blocks;
      ptr := loc + HEADER;
    }

    method LayBlock(loc: nat, n: nat)
      requires loc + HEADER + n <= mem.Length && n < U64
      modifies mem
      ensures BlockAt(mem[..], loc, Block(true, Zeros(n)))
      ensures SameOutside(old(mem[..]), mem[..], loc, loc + HEADER + n)
    {
      StoreStatus(loc, 1);
      StoreSize(loc, n);
      ghost var m2 := mem[..];
      Memset(loc + HEADER, 0, n);
      assert mem[..][loc + 8..loc + 16] == m2[loc + 8..loc + 16];
    }

    /** The search loop that malloc.c and calloc.c both contain. */
    method PlaceAligned(n: nat, whole: bool) returns (ptr: nat)
      requires Valid() && 0 < heapBeginning && 0 < n <= U32 / 2 && n % 16 == 0
      modifies mem, `memoryUsed, `blocks, `lastAlloc
      ensures Valid()
      ensures State() == Place(old(State()), n, whole).0 && ptr == Place(old(State()), n, whole).1
      ensures SameOutside(old(mem[..]), mem[..], heapBeginning, lastAlloc)
    {
      hide Tiles, UsedBytes, FreePairs, ContentsFrom;
      var memoryLoc := heapBeginning;
      ghost var k := 0;
      while memoryLoc < lastAlloc
        invariant k <= FirstFit(blocks, n) && memoryLoc == heapBeginning + Span(blocks[..k])
        invariant Valid() && mem[..] == old(mem[..]) && State() == old(State())
        decreases |blocks| - k
      {
        WalkStep(k);
        if SizeAt(memoryLoc) == 0 {
          break;
        }
        if mem[memoryLoc] == 1 {
          memoryLoc := memoryLoc + SizeAt(memoryLoc) + HEADER;
          k := k + 1;
          continue;
        }
        if SizeAt(memoryLoc) >= n {
          ptr := Reuse(memoryLoc, n, whole, k);
          return;
        }
        memoryLoc := memoryLoc + SizeAt(memoryLoc) + HEADER;
        k := k + 1;
      }
      WalkEnd(k);
      ptr := Extend(memoryLoc, n, whole);
    }

    /** The header under the walking pointer is that of block `k`; its size is never zero. */
    lemma WalkStep(k: nat)
      requires Valid() && k <= |blocks| && heapBeginning + Span(blocks[..k]) < lastAlloc
      ensures k < |blocks| && BlockAt(mem[..], heapBeginning + Span(blocks[..k]), blocks[k])
      ensures Span(blocks[..k + 1]) == Span(blocks[..k]) + Extent(blocks[k])
      ensures |blocks[k].data| > 0
    {
      hide Tiles, Span, UsedBytes, FreePairs, ContentsFrom;
      assert blocks[..|blocks|] == blocks;
      TilesAt(mem[..], heapBeginning, blocks, k);
      assert GoodBlock(blocks[k]);
    }

    lemma WalkEnd(k: nat)
      requires Valid() && k <= |blocks| && heapBeginning + Span(blocks[..k]) >= lastAlloc
      ensures k == |blocks| && heapBeginning + Span(blocks[..k]) == lastAlloc
    {
      assert blocks[..|blocks|] == blocks;
      if k < |blocks| {
        SpanMono(blocks, k, |blocks|);
      }
    }

    method Malloc(size: nat) returns (ptr: nat)
      requires Valid() && size < U64
      modifies mem, `memoryUsed, `blocks, `lastAlloc
      ensures Valid()
      ensures State() == Blocks.Malloc(old(State()), size).0 && ptr == Blocks.Malloc(old(State()), size).1
      ensures SameOutside(old(mem[..]), mem[..], heapBeginning, lastAlloc)
    {
      hide Tiles, Span, UsedBytes, FreePairs, ContentsFrom;
      if size <= 0 || heapBeginning == 0 || size > INT_MAX - 15 {
        return 0;
      }
      ptr := PlaceAligned(AlignUp(size), true);
    }

    method Calloc(amount: nat, size: nat) returns (ptr: nat)
      requires Valid() && amount < U64 && size < U64
      modifies mem, `memoryUsed, `blocks, `lastAlloc
      ensures Valid()
      ensures State() == Blocks.Calloc(old(State()), amount, size).0
      ensures ptr == Blocks.Calloc(old(State()), amount, size).1
      ensures SameOutside(old(mem[..]), mem[..], heapBeginning, lastAlloc)
    {
      hide Tiles, Span, UsedBytes, FreePairs, ContentsFrom;
      if size <= 0 || amount <= 0 || size > SIZE_MAX / amount {
        return 0;
      }
      MulBounds(amount, size);
      if amount * size > INT_MAX - 15 || heapBeginning == 0 {
        return 0;
      }
      ptr := PlaceAligned(AlignUp(amount * size), false);
    }
    // -------------------------------------------------------------- free

    /** The predecessor of the header at `alloc`, found by walking from the start; 0 for the first block. */
    method FindBefore(alloc: nat, ghost bs: seq<Block>, ghost i: nat) returns (before: nat)
      requires Tiles(mem[..], heapBeginning, bs) && i < |bs| && alloc == heapBeginning + Span(bs[..i])
      ensures before == if i == 0 then 0 else heapBeginning + Span(bs[..i - 1])
    {
      hide Tiles, UsedBytes, FreePairs, ContentsFrom, Span;
      ghost var k := 0;
      TilesAt(mem[..], heapBeginning, bs, 0);
      NothingBefore(bs);
      var cur := heapBeginning;
      var next := cur + HEADER + SizeAt(cur);
      if cur == alloc {
        StartUnique(bs, i);
        return 0;
      }
      while next != alloc
        invariant k < i && cur == heapBeginning + Span(bs[..k]) && next == heapBeginning + Span(bs[..k + 1])
        decreases i - k
      {
        k := k + 1;
        cur := next;
        TilesAt(mem[..], heapBeginning, bs, k);
        next := cur + HEADER + SizeAt(cur);
      }
      if k + 1 < i {
        SpanMono(bs, k + 1, i);
      }
      before := cur;
    }

    /** Swallows the block after `i` if it is free. */
    method MergeNext(alloc: nat, ghost bs: seq<Block>, ghost i: nat)
      requires Tiles(mem[..], heapBeginning, bs) && i < |bs| && alloc == heapBeginning + Span(bs[..i])
      requires lastAlloc == heapBeginning + Span(bs) && !bs[i].used && mem.Length <= MAPPED_LIMIT
      modifies mem
      ensures HeaderAt(mem[..], alloc, false, Span(bs[i..MergeHi(bs, i)]) - HEADER)
      ensures SameOutside(old(mem[..]), mem[..], alloc + 8, alloc + 16)
    {
      hide Tiles, Span, UsedBytes, FreePairs, ContentsFrom;
      TilesAt(mem[..], heapBeginning, bs, i);
      NextBlock(bs, i);
      var next := alloc + HEADER + SizeAt(alloc);
      if next < lastAlloc {
        SecondHeader(mem[..], heapBeginning, bs, i + 1);
        if mem[next] == 0 {
          StoreSize(alloc, SizeAt(alloc) + HEADER + SizeAt(next));
        }
      }
    }

    /** Gives the free block of extent `e` at `alloc` to the block before it, if there is one and it is free. */
    method MergeBefore(alloc: nat, before: nat, ghost e: nat, ghost used: bool, ghost size: nat) returns (start: nat)
      requires HEADER <= e && alloc + e <= mem.Length <= MAPPED_LIMIT && HeaderAt(mem[..], alloc, false, e - HEADER)
      requires before != 0 ==> HeaderAt(mem[..], before, used, size) && before + HEADER + size == alloc
      modifies mem
      ensures start == if before != 0 && !used then before else alloc
      ensures HeaderAt(mem[..], start, false, alloc - start + e - HEADER)
      ensures SameOutside(old(mem[..]), mem[..], start, start + HEADER)
    {
      start := alloc;
      if before != 0 && mem[before] == 0 {
        StoreSize(before, SizeAt(before) + HEADER + SizeAt(alloc));
        start := before;
      }
    }

    /** Marks the used block `i` free and takes it out of the count. */
    method Unmark(alloc: nat, ghost h: Heap, ghost i: nat)
      requires Represents(mem[..], h, lastAlloc, memoryUsed)
      requires i < |h.blocks| && h.blocks[i].used && alloc == h.begin + Span(h.blocks[..i])
      modifies mem, `memoryUsed
      ensures Tiles(mem[..], h.begin, Released(h.blocks, i)) && Span(Released(h.blocks, i)) == Span(h.blocks)
      ensures Released(h.blocks, i)[..i] == h.blocks[..i]
      ensures SameOutside(old(mem[..]), mem[..], h.begin, lastAlloc)
      ensures old(memoryUsed) == memoryUsed + Extent(h.blocks[i])
    {
      hide Tiles, Span, UsedBytes, FreePairs, ContentsFrom;
      ghost var m0, b := mem[..], h.blocks[i];
      TilesAt(m0, h.begin, h.blocks, i);
      FreeAtSpan(h.blocks, i);
      StoreStatus(alloc, 0);
      ReleaseBlock(m0, mem[..], alloc, b);
      memoryUsed := memoryUsed - (HEADER + SizeAt(alloc));
      ReleaseTiles(m0, mem[..], h.begin, h.blocks, i);
      SpanUpdate(h.blocks, i, Block(false, b.data));
    }

    /** Rewrites the headers around the free block `i`: one header at `start` covers the merged stretch. */
    method MergeHeaders(alloc: nat, ghost bs: seq<Block>, ghost i: nat) returns (start: nat)
      requires Tiles(mem[..], heapBeginning, bs) && i < |bs| && alloc == heapBeginning + Span(bs[..i])
      requires lastAlloc == heapBeginning + Span(bs) && 0 < heapBeginning && !bs[i].used
      requires mem.Length <= MAPPED_LIMIT
      modifies mem
      ensures start == heapBeginning + Span(bs[..MergeLo(bs, i)])
      ensures Swollen(old(mem[..]), mem[..], start, Span(bs[MergeLo(bs, i)..MergeHi(bs, i)]))
    {
      hide Tiles, Span, UsedBytes, FreePairs, ContentsFrom;
      ghost var m, e := mem[..], Span(bs[i..MergeHi(bs, i)]);
      var before := FindBefore(alloc, bs, i);
      MergeNext(alloc, bs, i);
      ghost var m1, prev := mem[..], bs[if i == 0 then 0 else i - 1];
      HeaderBefore(m, m1, heapBeginning, bs, i);
      start := MergeBefore(alloc, before, e, prev.used, |prev.data|);
      SwollenAt(m, m1, mem[..], heapBeginning, bs, i);
    }

    /** Merges the free block `i` with its free neighbours and clears the result. */
    method Coalesce(alloc: nat, ghost bs: seq<Block>, ghost i: nat)
      requires Tiles(mem[..], heapBeginning, bs) && i < |bs| && alloc == heapBeginning + Span(bs[..i])
      requires lastAlloc == heapBeginning + Span(bs) && 0 < heapBeginning && !bs[i].used
      requires mem.Length <= MAPPED_LIMIT
      modifies mem
      ensures Tiles(mem[..], heapBeginning, FreeAt(bs, i))
      ensures SameOutside(old(mem[..]), mem[..], heapBeginning, lastAlloc)
      ensures alloc < mem.Length && mem[alloc] == 0
    {
      hide Tiles, Span, UsedBytes, FreePairs, ContentsFrom;
      ghost var m1 := mem[..];
      var start := MergeHeaders(alloc, bs, i);
      ghost var m2 := mem[..];
      ghost var e := Span(bs[MergeLo(bs, i)..MergeHi(bs, i)]);
      assert SizeAt(start) == e - HEADER;
      Memset(start + HEADER, 0, SizeAt(start));
      assert Clearing(m1, m2, mem[..], start, e);
      Freed(m1, m2, mem[..], heapBeginning, bs, i, alloc);
    }

    /** All stores of `free` for the used block `i`. */
    method Release(alloc: nat, ghost h: Heap, ghost i: nat)
      requires Represents(mem[..], h, lastAlloc, memoryUsed) && heapBeginning == h.begin
      requires i < |h.blocks| && h.blocks[i].used && alloc == h.begin + Span(h.blocks[..i])
      modifies mem, `memoryUsed
      ensures Represents(mem[..], h.(blocks := FreeAt(h.blocks, i)), lastAlloc, memoryUsed)
      ensures SameOutside(old(mem[..]), mem[..], h.begin, lastAlloc)
      ensures alloc < mem.Length && mem[alloc] == 0
    {
      hide Tiles, Span, UsedBytes, FreePairs, ContentsFrom;
      ghost var m0 := mem[..];
      Unmark(alloc, h, i);
      ghost var m1 := mem[..];
      Coalesce(alloc, Released(h.blocks, i), i);
      FreeRepresents(m0, m1, mem[..], h, i, lastAlloc, memoryUsed);
    }

    /** Null, live, or a pointer whose status byte reads 0 (as after a `free` of it). */
    ghost predicate MayFree(ptr: nat)
      reads this, mem
    {
      Live(State(), ptr) || Idle(ptr)
    }

    /** The calls of `free` that return at once. */
    ghost predicate Idle(ptr: nat)
      reads this, mem
    {
      ptr == 0 || (HEADER <= ptr < mem.Length + HEADER && mem[ptr - HEADER] == 0)
    }

    method Free(ptr: nat)
      requires MayFree(ptr) && (Valid() || Idle(ptr))
      modifies mem, `memoryUsed, `blocks
      ensures old(Valid()) ==> Valid() && State() == Blocks.Free(old(State()), ptr)
      ensures old(Valid() && Live(State(), ptr)) ==> Vacant(State(), ptr)
      ensures old(Idle(ptr)) ==> mem[..] == old(mem[..]) && memoryUsed == old(memoryUsed) && blocks == old(blocks)
      ensures Idle(ptr) && SameOutside(old(mem[..]), mem[..], heapBeginning, lastAlloc)
    {
      hide Tiles, Span, UsedBytes, FreePairs, ContentsFrom, Vacant;
      ghost var h, i := State(), Find(State(), ptr);
      if ptr == 0 {
        NullIsNotLive(h);
        LiveIsContents(h, 0);
        return;
      }
      if Valid() && Live(h, ptr) {
        LiveHeader(mem[..], h, ptr);
      }
      var alloc := ptr - HEADER;
      if mem[alloc] == 0 {
        return;
      }
      Release(alloc, h, i);
      FreedIsVacant(h, ptr);
      blocks := FreeAt(blocks, i);
    }

    // -------------------------------------------------------------- realloc and client stores

    /** The client's own stores: `s` at offset `k` of its payload at `p`. */
    method ClientStore(p: nat, k: nat, s: seq<byte>)
      requires Valid() && Live(State(), p) && k + |s| <= |blocks[Find(State(), p)].data|
      modifies mem, `blocks
      ensures Valid() && State() == Write(old(State()), p, k, s)
      ensures SameOutside(old(mem[..]), mem[..], p + k, p + k + |s|)
    {
      hide Tiles, Span, UsedBytes, FreePairs, ContentsFrom;
      ghost var h, m := State(), mem[..];
      StoreBounds(m, h, p, k, |s|, lastAlloc, memoryUsed);
      forall j | 0 <= j < |s| {
        mem[p + k + j] := s[j];
      }
      assert mem[..] == Splice(m, p + k, s);
      StoreRepresents(m, h, p, k, s, lastAlloc, memoryUsed);
      blocks := Write(h, p, k, s).blocks;
    }

    /** The headers of an in-place split. */
    method ShrinkHeaders(cur: nat, n: nat, ghost a: nat, ghost bs: seq<Block>, ghost i: nat)
      requires Tiles(mem[..], a, bs) && i < |bs| && Splits(bs[i], n) && |bs[i].data| < U64
      requires cur == a + Span(bs[..i])
      modifies mem
      ensures Tiles(mem[..], a, ShrinkAt(bs, i, n))
      ensures cur + n + 2 * HEADER <= mem.Length && SizeAt(cur + HEADER + n) == |bs[i].data| - n - HEADER
      ensures mem[cur] == old(mem[cur])
      ensures SameOutside(old(mem[..]), mem[..], a, a + Span(bs))
    {
      hide Tiles, Span, UsedBytes, FreePairs, ContentsFrom, BlockAt, SizeField, ShrinkAt;
      ghost var m, b := mem[..], bs[i];
      TilesAt(m, a, bs, i);
      SplitOff(cur, n, b);
      ShrinkTiles(m, mem[..], a, bs, i, n);
      HeaderOf(m, cur, b);
      HeaderOf(mem[..], cur, Block(b.used, b.data[..n]));
      HeaderOf(mem[..], cur + HEADER + n, Block(false, b.data[n + HEADER..]));
    }

    /** The bytes and the counter of an in-place split. The counter is right only for a used block. */
    method ShrinkBytes(cur: nat, n: nat, ghost h: Heap, ghost i: nat)
      requires Represents(mem[..], h, lastAlloc, memoryUsed) && i < |h.blocks|
      requires 0 < n && n % 16 == 0 && Splits(h.blocks[i], n) && cur == h.begin + Span(h.blocks[..i])
      modifies mem, `memoryUsed
      ensures Tiles(mem[..], h.begin, ShrinkAt(h.blocks, i, n))
      ensures memoryUsed == (old(memoryUsed) + n - |h.blocks[i].data|) % U64
      ensures h.blocks[i].used ==>
        Represents(mem[..], h.(blocks := ShrinkAt(h.blocks, i, n)), lastAlloc, memoryUsed)
      ensures cur < mem.Length && mem[cur] == old(mem[cur])
      ensures SameOutside(old(mem[..]), mem[..], h.begin, lastAlloc)
    {
      hide Tiles, Span, UsedBytes, FreePairs, ContentsFrom, ShrinkAt, SizeField;
      ghost var m, used := mem[..], memoryUsed;
      InMemory(m, h, i, lastAlloc, memoryUsed);
      ShrinkHeaders(cur, n, h.begin, h.blocks, i);
      memoryUsed := (memoryUsed - (SizeAt(cur + HEADER + n) + HEADER)) % U64;
      if h.blocks[i].used {
        ShrinkRepresents(m, mem[..], h, i, n, lastAlloc, used);
      }
    }

    /** The bytes and globals hold no heap any more. */
    ghost predicate Broken()
      reads this, mem
    {
      forall h: Heap :: h.begin == heapBeginning ==> !Represents(mem[..], h, lastAlloc, memoryUsed)
    }

    /** The returned pointer is not null, and not live in any heap the bytes and globals might still hold. */
    ghost predicate Lost(r: nat)
      reads this, mem
    {
      r != 0 && forall h: Heap ::
        h.begin == heapBeginning && Represents(mem[..], h, lastAlloc, memoryUsed) ==> !Live(h, r)
    }

    /** The in-place half of `realloc`, which does not look at the status: splits the tail off if it is worth a header. */
    method ShrinkInPlace(p: nat, n: nat)
      requires Valid() && 0 < n && n % 16 == 0
      requires var i := Find(State(), p); i < |blocks| && n <= |blocks[i].data|
      modifies mem, `blocks, `memoryUsed
      ensures Tiles(mem[..], heapBeginning, ShrinkAt(old(blocks), old(Find(State(), p)), n))
      ensures var b := old(blocks[Find(State(), p)]);
        memoryUsed == if Splits(b, n) then (old(memoryUsed) + n - |b.data|) % U64 else old(memoryUsed)
      ensures if old(Live(State(), p))
        then Valid() && State() == old(State()).(blocks := ShrinkAt(old(blocks), old(Find(State(), p)), n))
        else
          && Lost(p)
          && if Splits(old(blocks[Find(State(), p)]), n) then Broken() else Valid() && State() == old(State())
      ensures SameOutside(old(mem[..]), mem[..], heapBeginning, lastAlloc)
    {
      hide Tiles, Span, UsedBytes, FreePairs, ContentsFrom, IndexOf;
      ghost var h, i, m, used := State(), Find(State(), p), mem[..], memoryUsed;
      FoundHeader(m, h, p);
      if SizeAt(p - HEADER) - n > HEADER {
        ShrinkBytes(p - HEADER, n, h, i);
        if h.blocks[i].used {
          blocks := ShrinkAt(blocks, i, n);
        } else {
          DeadSplit(m, mem[..], h, i, n, lastAlloc, used);
        }
      }
      if !h.blocks[i].used {
        DeadHeader(mem[..], p);
      }
    }

    /**
     `realloc` of a null, live or vacant pointer. Unless a vacant one clashes, the bytes hold what `Blocks.Realloc`
     makes of the list. If it clashes, the returned pointer is not live: either no heap is left, or the heap is
     as it was, with the freed pointer still free.
     */
    method Realloc(ptr: nat, size: nat) returns (r: nat)
      requires Valid() && size < U64
      requires ptr == 0 || size > MAX_REQUEST || Live(State(), ptr) || Vacant(State(), ptr) || (size == 0 && Idle(ptr))
      modifies mem, `memoryUsed, `blocks, `lastAlloc
      ensures old(MayRealloc(State(), ptr, size)) ==>
        && Valid()
        && State() == Blocks.Realloc(old(State()), ptr, size).0 && r == Blocks.Realloc(old(State()), ptr, size).1
      ensures !old(MayRealloc(State(), ptr, size)) ==>
        Lost(r) && (Broken() || (Valid() && State() == old(State()) && r == ptr))
      ensures SameOutside(old(mem[..]), mem[..], heapBeginning, lastAlloc)
    {
      hide Tiles, Span, UsedBytes, FreePairs, ContentsFrom, IndexOf, Vacant, FirstFit, Represents;
      if ptr == 0 {
        return 0;
      }
      if size == 0 {
        if Vacant(State(), ptr) {
          VacantHeader(mem[..], State(), ptr, lastAlloc, memoryUsed);
        }
        Free(ptr);
        return 0;
      }
      if size > INT_MAX - 15 {
        return 0;
      }
      var n := AlignUp(size);
      OldHeader(mem[..], State(), ptr, lastAlloc, memoryUsed);
      if SizeAt(ptr - HEADER) >= n {
        ShrinkInPlace(ptr, n);
        return ptr;
      }
      r := Grow(ptr, n);
    }

    /** The moving half of `realloc`. */
    method Grow(ptr: nat, n: nat) returns (r: nat)
      requires Valid() && 0 < n <= MAX_REQUEST && n % 16 == 0
      requires Live(State(), ptr) || Vacant(State(), ptr)
      requires var i := Find(State(), ptr); i < |blocks| ==> |blocks[i].data| < n
      modifies mem, `memoryUsed, `blocks, `lastAlloc
      ensures old(Live(State(), ptr)) ==> var (h', q) := Blocks.Malloc(old(State()), n);
        && Valid() && r == q
        && State() == if q == 0 then h'
                      else Blocks.Free(Write(h', q, 0, old(blocks[Find(State(), ptr)].data)), ptr)
      ensures !old(Live(State(), ptr)) && !old(Clash(State(), ptr, n)) ==>
        && Valid() && State() == Blocks.Malloc(old(State()), n).0 && r == Blocks.Malloc(old(State()), n).1
      ensures !old(Live(State(), ptr)) && old(Clash(State(), ptr, n)) ==> r != 0 && Broken()
      ensures SameOutside(old(mem[..]), mem[..], heapBeginning, lastAlloc)
    {
      hide Tiles, Span, UsedBytes, FreePairs, ContentsFrom, IndexOf, Vacant, FirstFit, Clash, Represents;
      ghost var h := State();
      KeptInv(mem[..], h, lastAlloc, memoryUsed);
      r := Malloc(n);
      if r == 0 {
        if Clash(h, ptr, n) {
          ClashServed(h, ptr, n);
        }
        return;
      }
      MoveOver(ptr, r, n, h);
    }

    /** The last two calls of `realloc`, on the heap that `malloc` made of `h`. */
    method MoveOver(ptr: nat, r: nat, n: nat, ghost h: Heap)
      requires Served(mem[..], h, State(), ptr, r, n, lastAlloc, memoryUsed)
      modifies mem, `memoryUsed, `blocks
      ensures Live(h, ptr) ==>
        Valid() && State() == Blocks.Free(Write(old(State()), r, 0, h.blocks[Find(h, ptr)].data), ptr)
      ensures !Live(h, ptr) && !Clash(h, ptr, n) ==> Valid() && State() == old(State())
      ensures !Live(h, ptr) && Clash(h, ptr, n) ==> r != 0 && Broken()
      ensures SameOutside(old(mem[..]), mem[..], heapBeginning, lastAlloc)
    {
      hide Tiles, Span, UsedBytes, FreePairs, ContentsFrom, IndexOf, Vacant, FirstFit, Clash, Represents, Served;
      ghost var h1, m1 := State(), mem[..];
      ServedFacts(m1, h, h1, ptr, r, n, lastAlloc, memoryUsed);
      MoveBounds(m1, h, h1, ptr, r, n, lastAlloc, memoryUsed);
      Memcpy(r, ptr, SizeAt(ptr - HEADER));
      if Live(h, ptr) {
        LiveMoved(m1, mem[..], h, h1, ptr, r, n, lastAlloc, memoryUsed);
        blocks := Write(h1, r, 0, h.blocks[Find(h, ptr)].data).blocks;
      } else {
        VacantMoved(m1, mem[..], h, h1, ptr, r, n, lastAlloc, memoryUsed);
      }
      Free(ptr);
    }

    // -------------------------------------------------------------- whole runs

    method Perform(c: Call) returns (r: nat)
      requires Valid() && Allowed(State(), c) && FitsWord(c)
      modifies mem, `memoryUsed, `blocks, `lastAlloc
      ensures Valid() && State() == Apply(old(State()), c).0 && r == Apply(old(State()), c).1
    {
      hide Tiles, Span, UsedBytes, FreePairs, ContentsFrom;
      r := 0;
      match c
      case MallocCall(size) => r := Malloc(size);
      case CallocCall(amount, size) => r := Calloc(amount, size);
      case FreeCall(p) =>
        if Vacant(State(), p) {
          VacantHeader(mem[..], State(), p, lastAlloc, memoryUsed);
        }
        Free(p);
      case ReallocCall(p, size) => r := Realloc(p, size);
      case Store(p, k, s) => ClientStore(p, k, s);
    }

    /** Any run of allowed calls on the bytes is the same run on the block list, and ends in a valid heap. */
    method PerformAll(cs: seq<Call>)
      requires Valid() && AllowedRun(State(), cs) && forall i :: 0 <= i < |cs| ==> FitsWord(cs[i])
      modifies mem, `memoryUsed, `blocks, `lastAlloc
      ensures Valid() && State() == Run(old(State()), cs)
    {
      assert cs[0..] == cs;
      for i := 0 to |cs|
        invariant Valid() && AllowedRun(State(), cs[i..])
        invariant Run(State(), cs[i..]) == Run(old(State()), cs)
      {
        assert cs[i..][0] == cs[i] && cs[i..][1..] == cs[i + 1..];
        var _ := Perform(cs[i]);
      }
    }
  }

  lemma ExtendTiles(m: seq<byte>, w: seq<byte>, a: nat, bs: seq<Block>, b: Block)
    requires Tiles(m, a, bs) && SameOutside(m, w, a + Span(bs), a + Span(bs) + Extent(b))
    requires BlockAt(w, a + Span(bs), b)
    ensures Tiles(w, a, bs + [b])
    ensures SameOutside(m, w, a, a + Span(bs) + Extent(b))
  {
    hide Tiles, Span, UsedBytes, FreePairs, ContentsFrom;
    TilesFrame(m, w, a + Span(bs), a + Span(bs) + Extent(b), a, bs);
    TilesOne(w, a + Span(bs), b);
    TilesConcat(w, a, bs, [b]);
  }

  lemma ReuseTiles(m: seq<byte>, w: seq<byte>, h: Heap, n: nat, whole: bool)
    requires Inv(h) && 0 < n && n % 16 == 0 && FirstFit(h.blocks, n) < |h.blocks|
    requires Tiles(m, h.begin, h.blocks)
    requires var i := FirstFit(h.blocks, n); var b := h.blocks[i]; var a := h.begin + Span(h.blocks[..i]);
      SameOutside(m, w, a, a + Extent(b)) && Tiles(w, a, Carve(b, n, if whole then |b.data| else n))
    ensures Tiles(w, h.begin, Place(h, n, whole).0.blocks)
    ensures SameOutside(m, w, h.begin, Last(h))
  {
    hide Tiles, Span, UsedBytes, FreePairs, ContentsFrom;
    var i := FirstFit(h.blocks, n);
    var b, pre, post := h.blocks[i], h.blocks[..i], h.blocks[i + 1..];
    SplitAt(h.blocks, i);
    OneBlock(0, b);
    assert GoodBlock(b);
    CarveMeasures(0, b, n, if whole then |b.data| else n);
    TilesReplace(m, w, h.begin, pre, [b], Carve(b, n, if whole then |b.data| else n), post);
  }

  // ---------------------------------------------------------------- what free does to the bytes

  /** The list with block `i` marked free, before any merging. */
  ghost function Released(bs: seq<Block>, i: nat): seq<Block>
    requires i < |bs|
  {
    bs[i := Block(false, bs[i].data)]
  }

  lemma NothingBefore(bs: seq<Block>)
    ensures Span(bs[..0]) == 0
  {
  }

  lemma StartUnique(bs: seq<Block>, i: nat)
    requires i <= |bs| && Span(bs[..i]) == 0
    ensures i == 0
  {
    SpanBounds(bs[..i]);
  }

  lemma MergedInMemory(m: seq<byte>, a: nat, bs: seq<Block>, i: nat)
    requires Tiles(m, a, bs) && i < |bs|
    ensures var lo, hi := MergeLo(bs, i), MergeHi(bs, i);
      a + Span(bs[..lo]) + Span(bs[lo..hi]) <= |m|
  {
    hide Tiles, Span, UsedBytes, FreePairs, ContentsFrom;
    var lo, hi := MergeLo(bs, i), MergeHi(bs, i);
    StretchSpan(bs, lo, hi);
    PrefixSpan(bs, hi);
    TilesInBounds(m, a, bs);
  }

  lemma SecondHeader(m: seq<byte>, a: nat, bs: seq<Block>, i: nat)
    requires Tiles(m, a, bs) && i < |bs|
    ensures HeaderAt(m, a + Span(bs[..i]), bs[i].used, |bs[i].data|)
    ensures a + Span(bs[..i]) + Extent(bs[i]) <= |m|
  {
    TilesAt(m, a, bs, i);
  }

  lemma ReleaseBlock(m: seq<byte>, w: seq<byte>, at: nat, b: Block)
    requires BlockAt(m, at, b) && SameOutside(m, w, at, at + 1) && w[at] == 0
    ensures BlockAt(w, at, Block(false, b.data))
    ensures SameOutside(m, w, at, at + Extent(b))
  {
    assert w[at + 8..at + 16] == m[at + 8..at + 16];
    assert w[at + HEADER..at + Extent(b)] == m[at + HEADER..at + Extent(b)];
  }

  lemma ReleaseTiles(m: seq<byte>, w: seq<byte>, a: nat, bs: seq<Block>, i: nat)
    requires Tiles(m, a, bs) && i < |bs|
    requires SameOutside(m, w, a + Span(bs[..i]), a + Span(bs[..i]) + Extent(bs[i]))
    requires BlockAt(w, a + Span(bs[..i]), Block(false, bs[i].data))
    ensures Tiles(w, a, Released(bs, i))
  {
    hide Tiles, Span, UsedBytes, FreePairs, ContentsFrom;
    var b, c := bs[i], Block(false, bs[i].data);
    OneBlock(0, b);
    OneBlock(0, c);
    TilesOne(w, a + Span(bs[..i]), c);
    assert bs == bs[..i] + [b] + bs[i + 1..];
    assert Released(bs, i) == bs[..i] + [c] + bs[i + 1..];
    TilesReplace(m, w, a, bs[..i], [b], [c], bs[i + 1..]);
  }

  /** Marking a block free first does not change what merging makes of it. */
  lemma FreeAtReleased(bs: seq<Block>, i: nat)
    requires i < |bs|
    ensures FreeAt(Released(bs, i), i) == FreeAt(bs, i)
  {
    var rs, lo, hi := Released(bs, i), MergeLo(bs, i), MergeHi(bs, i);
    assert rs[lo..hi] == bs[lo..hi][i - lo := rs[i]];
    SpanUpdate(bs[lo..hi], i - lo, rs[i]);
    assert rs[..lo] == bs[..lo] && rs[hi..] == bs[hi..];
  }

  lemma SpanUpdate(bs: seq<Block>, i: nat, b: Block)
    requires i < |bs| && |b.data| == |bs[i].data|
    ensures Span(bs[i := b]) == Span(bs)
  {
    SplitAt(bs, i);
    assert bs[i := b] == bs[..i] + [b] + bs[i + 1..];
    ReplaceSpan(bs[..i], [bs[i]], [b], bs[i + 1..]);
    OneBlock(0, b);
    OneBlock(0, bs[i]);
  }

  /** One free header stands for `e` bytes from `at`; nothing else was touched. */
  ghost predicate Swollen(m1: seq<byte>, m2: seq<byte>, at: nat, e: nat) {
    && HEADER <= e && at + e <= |m1|
    && HeaderAt(m2, at, false, e - HEADER) && SameOutside(m1, m2, at, at + e)
  }

  ghost predicate Clearing(m1: seq<byte>, m2: seq<byte>, m3: seq<byte>, at: nat, e: nat) {
    && Swollen(m1, m2, at, e)
    && SameOutside(m2, m3, at + HEADER, at + e) && m3[at + HEADER..at + e] == Zeros(e - HEADER)
  }

  lemma HeaderBefore(m: seq<byte>, w: seq<byte>, a: nat, bs: seq<Block>, i: nat)
    requires Tiles(m, a, bs) && i < |bs|
    requires SameOutside(m, w, a + Span(bs[..i]) + 8, a + Span(bs[..i]) + 16)
    ensures i > 0 ==> HeaderAt(w, a + Span(bs[..i - 1]), bs[i - 1].used, |bs[i - 1].data|)
                      && Span(bs[..i - 1]) + Extent(bs[i - 1]) == Span(bs[..i])
    ensures HEADER <= Span(bs[i..MergeHi(bs, i)]) && a + Span(bs[..i]) + Span(bs[i..MergeHi(bs, i)]) <= |m|
  {
    hide Tiles, Span, UsedBytes, FreePairs, ContentsFrom;
    MergedExtent(bs, i);
    MergedInMemory(m, a, bs, i);
    if i > 0 {
      TilesAt(m, a, bs, i - 1);
      BlockFrame(m, w, a + Span(bs[..i]) + 8, a + Span(bs[..i]) + 16, a + Span(bs[..i - 1]), bs[i - 1]);
    }
  }

  lemma SwollenAt(m: seq<byte>, m1: seq<byte>, m2: seq<byte>, a: nat, bs: seq<Block>, i: nat)
    requires Tiles(m, a, bs) && i < |bs|
    requires SameOutside(m, m1, a + Span(bs[..i]) + 8, a + Span(bs[..i]) + 16)
    requires var at := a + Span(bs[..MergeLo(bs, i)]);
      && SameOutside(m1, m2, at, at + HEADER)
      && HeaderAt(m2, at, false, Span(bs[..i]) - Span(bs[..MergeLo(bs, i)]) + Span(bs[i..MergeHi(bs, i)]) - HEADER)
    ensures Swollen(m, m2, a + Span(bs[..MergeLo(bs, i)]), Span(bs[MergeLo(bs, i)..MergeHi(bs, i)]))
  {
    hide Tiles, Span, UsedBytes, FreePairs, ContentsFrom;
    MergedExtent(bs, i);
    MergedInMemory(m, a, bs, i);
  }

  lemma ClearedBlock(m1: seq<byte>, m2: seq<byte>, m3: seq<byte>, at: nat, e: nat)
    requires Clearing(m1, m2, m3, at, e)
    ensures BlockAt(m3, at, Block(false, Zeros(e - HEADER))) && SameOutside(m1, m3, at, at + e)
  {
    assert m3[at + 8..at + 16] == m2[at + 8..at + 16];
  }

  lemma FreedBytes(m1: seq<byte>, m2: seq<byte>, m3: seq<byte>, a: nat, bs: seq<Block>, i: nat)
    requires Tiles(m1, a, bs) && i < |bs|
    requires Clearing(m1, m2, m3, a + Span(bs[..MergeLo(bs, i)]), Span(bs[MergeLo(bs, i)..MergeHi(bs, i)]))
    ensures Tiles(m3, a, FreeAt(bs, i))
  {
    hide Tiles, Span, UsedBytes, FreePairs, ContentsFrom;
    var lo, hi := MergeLo(bs, i), MergeHi(bs, i);
    var mid := bs[lo..hi];
    ClearedBlock(m1, m2, m3, a + Span(bs[..lo]), Span(mid));
    assert bs == bs[..lo] + mid + bs[hi..];
    MergeTiles(m1, m3, a, bs[..lo], mid, bs[hi..]);
  }

  lemma FreedStatus(m1: seq<byte>, m2: seq<byte>, m3: seq<byte>, a: nat, bs: seq<Block>, i: nat)
    requires Tiles(m1, a, bs) && i < |bs|
    requires Clearing(m1, m2, m3, a + Span(bs[..MergeLo(bs, i)]), Span(bs[MergeLo(bs, i)..MergeHi(bs, i)]))
    ensures a + Span(bs[..i]) < |m3| && m3[a + Span(bs[..i])] == 0
    ensures SameOutside(m1, m3, a, a + Span(bs))
  {
    hide Tiles, Span, UsedBytes, FreePairs, ContentsFrom;
    var lo, hi := MergeLo(bs, i), MergeHi(bs, i);
    var at, e := a + Span(bs[..lo]), Span(bs[lo..hi]);
    ClearedBlock(m1, m2, m3, at, e);
    MergedExtent(bs, i);
    MergedInMemory(m1, a, bs, i);
    StretchSpan(bs, lo, hi);
    PrefixSpan(bs, hi);
    StatusCleared(m3, at, e, a + Span(bs[..i]));
  }

  lemma Freed(m1: seq<byte>, m2: seq<byte>, m3: seq<byte>, a: nat, bs: seq<Block>, i: nat, alloc: nat)
    requires Tiles(m1, a, bs) && i < |bs| && alloc == a + Span(bs[..i])
    requires Clearing(m1, m2, m3, a + Span(bs[..MergeLo(bs, i)]), Span(bs[MergeLo(bs, i)..MergeHi(bs, i)]))
    ensures Tiles(m3, a, FreeAt(bs, i))
    ensures alloc < |m3| && m3[alloc] == 0
    ensures SameOutside(m1, m3, a, a + Span(bs))
  {
    hide Tiles, Span, UsedBytes, FreePairs, ContentsFrom;
    FreedBytes(m1, m2, m3, a, bs, i);
    FreedStatus(m1, m2, m3, a, bs, i);
  }

  lemma MergeTiles(m: seq<byte>, w: seq<byte>, a: nat, pre: seq<Block>, mid: seq<Block>, post: seq<Block>)
    requires |mid| > 0 && Tiles(m, a, pre + mid + post)
    requires SameOutside(m, w, a + Span(pre), a + Span(pre) + Span(mid))
    requires BlockAt(w, a + Span(pre), Merged(mid))
    ensures Tiles(w, a, pre + [Merged(mid)] + post)
  {
    hide Tiles, Span, UsedBytes, FreePairs, ContentsFrom;
    TilesOne(w, a + Span(pre), Merged(mid));
    OneBlock(0, Merged(mid));
    TilesReplace(m, w, a, pre, mid, [Merged(mid)], post);
  }

  lemma StatusCleared(m: seq<byte>, at: nat, e: nat, alloc: nat)
    requires HEADER <= e && at + e <= |m| && m[at] == 0 && m[at + HEADER..at + e] == Zeros(e - HEADER)
    requires alloc == at || at + HEADER <= alloc < at + e
    ensures m[alloc] == 0
  {
    if alloc != at {
      assert m[alloc] == m[at + HEADER..at + e][alloc - at - HEADER];
    }
  }

  lemma FreeRepresents(m0: seq<byte>, m1: seq<byte>, m3: seq<byte>, h: Heap, i: nat, last: nat, used: nat)
    requires i < |h.blocks| && h.blocks[i].used
    requires Represents(m0, h, last, used + Extent(h.blocks[i]))
    requires SameOutside(m0, m1, h.begin, last) && SameOutside(m1, m3, h.begin, last)
    requires Tiles(m3, h.begin, FreeAt(Released(h.blocks, i), i))
    ensures Represents(m3, h.(blocks := FreeAt(h.blocks, i)), last, used)
    ensures SameOutside(m0, m3, h.begin, last)
  {
    hide Tiles, Span, UsedBytes, FreePairs, ContentsFrom;
    FreeAtReleased(h.blocks, i);
    FreeAtSpan(h.blocks, i);
    FreeAtGood(h.blocks, i);
  }

  lemma LiveHeader(m: seq<byte>, h: Heap, p: nat)
    requires Tiles(m, h.begin, h.blocks) && Live(h, p)
    ensures HEADER <= p && p - HEADER == h.begin + Span(h.blocks[..Find(h, p)])
    ensures BlockAt(m, p - HEADER, h.blocks[Find(h, p)])
  {
    hide Tiles, Span, UsedBytes, FreePairs, ContentsFrom;
    LiveIsContents(h, p);
    TilesAt(m, h.begin, h.blocks, Find(h, p));
  }

  // ---------------------------------------------------------------- what realloc and stores do to the bytes

  /** The sizes that a `size_t` can hold. */
  predicate FitsWord(c: Call) {
    match c
    case MallocCall(size) => size < U64
    case CallocCall(amount, size) => amount < U64 && size < U64
    case ReallocCall(_, size) => size < U64
    case _ => true
  }

  lemma StoreBounds(m: seq<byte>, h: Heap, p: nat, k: nat, n: nat, last: nat, used: nat)
    requires Represents(m, h, last, used) && Live(h, p) && k + n <= |h.blocks[Find(h, p)].data|
    ensures h.begin <= p && p + k + n <= last && last <= |m|
  {
    hide Tiles, Span, UsedBytes, FreePairs, ContentsFrom;
    LiveHeader(m, h, p);
    SplitAt(h.blocks, Find(h, p));
  }

  lemma LiveDisjoint(h: Heap, p: nat, q: nat)
    requires Live(h, p) && Live(h, q) && p != q
    ensures p + |h.blocks[Find(h, p)].data| <= q || q + |h.blocks[Find(h, q)].data| <= p
  {
    LiveIsContents(h, p);
    LiveIsContents(h, q);
    if p < q {
      Separation(h.begin, h.blocks, p, q);
    } else {
      Separation(h.begin, h.blocks, q, p);
    }
  }

  lemma CopyRepresents(m: seq<byte>, w: seq<byte>, h: Heap, dest: nat, src: nat, n: nat, last: nat, used: nat)
    requires Represents(m, h, last, used) && Live(h, dest) && Live(h, src)
    requires n == |h.blocks[Find(h, src)].data| <= |h.blocks[Find(h, dest)].data|
    requires dest + n <= |m| && src + n <= |m|
    requires dest != src && ForwardCopy(m, w, dest, src, n)
    ensures Represents(w, Write(h, dest, 0, h.blocks[Find(h, src)].data), last, used)
    ensures SameOutside(m, w, h.begin, last)
  {
    hide Tiles, Span, UsedBytes, FreePairs, ContentsFrom;
    hide IndexOf, Write, Splice, BlockAt, ForwardCopy, SameOutside;
    var b := h.blocks[Find(h, src)];
    StoreBounds(m, h, dest, 0, n, last, used);
    LiveDisjoint(h, dest, src);
    LiveHeader(m, h, src);
    CopySplice(m, w, dest, src, b);
    StoreRepresents(m, h, dest, 0, b.data, last, used);
    Wider(m, w, dest, dest + n, h.begin, last);
  }

  /** A copy of a payload that does not overlap it. */
  lemma CopySplice(m: seq<byte>, w: seq<byte>, dest: nat, src: nat, b: Block)
    requires HEADER <= src && BlockAt(m, src - HEADER, b) && dest + |b.data| <= |m|
    requires src + |b.data| <= dest || dest + |b.data| <= src
    requires ForwardCopy(m, w, dest, src, |b.data|)
    ensures w == Splice(m, dest, b.data)
  {
    hide HeaderAt, Splice;
    SpliceOf(m, w, dest, b.data);
  }

  lemma Wider(m: seq<byte>, w: seq<byte>, lo: nat, hi: nat, lo2: nat, hi2: nat)
    requires SameOutside(m, w, lo, hi) && lo2 <= lo && hi <= hi2
    ensures SameOutside(m, w, lo2, hi2)
  {
  }

  lemma SpliceOf(m: seq<byte>, w: seq<byte>, a: nat, s: seq<byte>)
    requires a + |s| <= |m| && SameOutside(m, w, a, a + |s|) && w[a..a + |s|] == s
    ensures w == Splice(m, a, s)
  {
    assert forall i :: a <= i < a + |s| ==> w[i] == w[a..a + |s|][i - a];
  }

  lemma StoredBlock(m: seq<byte>, at: nat, b: Block, k: nat, s: seq<byte>)
    requires BlockAt(m, at, b) && k + |s| <= |b.data|
    ensures BlockAt(Splice(m, at + HEADER + k, s), at, b.(data := Splice(b.data, k, s)))
    ensures SameOutside(m, Splice(m, at + HEADER + k, s), at, at + Extent(b))
    ensures SameOutside(m, Splice(m, at + HEADER + k, s), at + HEADER + k, at + HEADER + k + |s|)
  {
    hide Splice;
    var a, w := at + HEADER + k, Splice(m, at + HEADER + k, s);
    forall i | 0 <= i < |m|
      ensures w[i] == if a <= i < a + |s| then s[i - a] else m[i]
    {
      SpliceAt(m, a, s, i);
    }
    SameSlice(m, w, a, a + |s|, at + 8, at + 16);
    StoredData(m, w, at + HEADER, b.data, k, s);
  }

  lemma StoredData(m: seq<byte>, w: seq<byte>, p: nat, data: seq<byte>, k: nat, s: seq<byte>)
    requires p + |data| <= |m| && m[p..p + |data|] == data && k + |s| <= |data| && |w| == |m|
    requires forall i :: 0 <= i < |m| ==> w[i] == if p + k <= i < p + k + |s| then s[i - (p + k)] else m[i]
    ensures w[p..p + |data|] == Splice(data, k, s)
  {
    hide Splice;
    forall i | 0 <= i < |data|
      ensures w[p..p + |data|][i] == Splice(data, k, s)[i]
    {
      SpliceAt(data, k, s, i);
      assert data[i] == m[p + i] && w[p..p + |data|][i] == w[p + i];
    }
  }

  lemma StoreRepresents(m: seq<byte>, h: Heap, p: nat, k: nat, s: seq<byte>, last: nat, used: nat)
    requires Represents(m, h, last, used) && Live(h, p) && k + |s| <= |h.blocks[Find(h, p)].data|
    requires p + k + |s| <= |m|
    ensures Represents(Splice(m, p + k, s), Write(h, p, k, s), last, used)
    ensures SameOutside(m, Splice(m, p + k, s), p + k, p + k + |s|)
  {
    hide Tiles, Span, UsedBytes, FreePairs, ContentsFrom;
    var i := Find(h, p);
    var b, c := h.blocks[i], h.blocks[i].(data := Splice(h.blocks[i].data, k, s));
    LiveHeader(m, h, p);
    StoredBlock(m, p - HEADER, b, k, s);
    UpdateTiles(m, Splice(m, p + k, s), h.begin, h.blocks, i, c);
    UpdateAt(h.begin, h.blocks, i, c);
    assert GoodBlock(b);
  }

  lemma UpdateTiles(m: seq<byte>, w: seq<byte>, a: nat, bs: seq<Block>, i: nat, c: Block)
    requires Tiles(m, a, bs) && i < |bs| && |c.data| == |bs[i].data|
    requires SameOutside(m, w, a + Span(bs[..i]), a + Span(bs[..i]) + Extent(bs[i]))
    requires BlockAt(w, a + Span(bs[..i]), c)
    ensures Tiles(w, a, bs[i := c])
  {
    hide Tiles, Span, UsedBytes, FreePairs, ContentsFrom;
    OneBlock(0, bs[i]);
    OneBlock(0, c);
    TilesOne(w, a + Span(bs[..i]), c);
    assert bs == bs[..i] + [bs[i]] + bs[i + 1..];
    assert bs[i := c] == bs[..i] + [c] + bs[i + 1..];
    TilesReplace(m, w, a, bs[..i], [bs[i]], [c], bs[i + 1..]);
  }

  lemma InMemory(m: seq<byte>, h: Heap, i: nat, last: nat, used: nat)
    requires Represents(m, h, last, used) && i < |h.blocks|
    ensures |h.blocks[i].data| < U64
  {
    hide Tiles, Span, UsedBytes, FreePairs, ContentsFrom;
    TilesAt(m, h.begin, h.blocks, i);
  }

  lemma HeaderOf(m: seq<byte>, a: nat, b: Block)
    requires BlockAt(m, a, b)
    ensures a + HEADER + |b.data| <= |m| && m[a] == (if b.used then 1 else 0) && SizeField(m, a) == |b.data|
  {
  }

  lemma ShrinkTiles(m: seq<byte>, w: seq<byte>, a: nat, bs: seq<Block>, i: nat, n: nat)
    requires Tiles(m, a, bs) && i < |bs| && Splits(bs[i], n)
    requires var b, at := bs[i], a + Span(bs[..i]);
      && SameOutside(m, w, at, at + Extent(b))
      && BlockAt(w, at, Block(b.used, b.data[..n]))
      && BlockAt(w, at + HEADER + n, Block(false, b.data[n + HEADER..]))
    ensures Tiles(w, a, ShrinkAt(bs, i, n))
    ensures SameOutside(m, w, a, a + Span(bs))
  {
    hide Tiles, Span, UsedBytes, FreePairs, ContentsFrom;
    var b, at := bs[i], a + Span(bs[..i]);
    var c, d := Block(b.used, b.data[..n]), Block(false, b.data[n + HEADER..]);
    SplitAt(bs, i);
    OneBlock(0, b);
    TwoBlocks(0, c, d);
    TilesTwo(w, at, c, d);
    TilesReplace(m, w, a, bs[..i], [b], [c, d], bs[i + 1..]);
  }

  lemma ShrinkRepresents(m: seq<byte>, w: seq<byte>, h: Heap, i: nat, n: nat, last: nat, used: nat)
    requires Represents(m, h, last, used) && i < |h.blocks| && h.blocks[i].used
    requires 0 < n && n % 16 == 0 && Splits(h.blocks[i], n)
    requires |w| == |m| && Tiles(w, h.begin, ShrinkAt(h.blocks, i, n))
    ensures Represents(w, h.(blocks := ShrinkAt(h.blocks, i, n)), last, (used + n - |h.blocks[i].data|) % U64)
  {
    hide Tiles, Span, UsedBytes, FreePairs, ContentsFrom;
    ShrinkMeasures(h, i, n);
    SpanBounds(h.blocks);
  }

  /** A live pointer stays live, with its bytes, across an allocation. */
  lemma StillLive(h: Heap, h': Heap, p: nat, q: nat, n: nat)
    requires Live(h, p) && Allocated(h, h', n, q)
    ensures Live(h', p) && Live(h', q) && p != q
    ensures h'.blocks[Find(h', p)].data == h.blocks[Find(h, p)].data
    ensures |h'.blocks[Find(h', q)].data| >= n
  {
    hide Tiles, Span, UsedBytes, FreePairs, ContentsFrom;
    LiveIsContents(h, p);
    LiveIsContents(h', p);
    LiveIsContents(h', q);
  }

  // ---------------------------------------------------------------- what realloc does to a freed pointer

  lemma FoundHeader(m: seq<byte>, h: Heap, p: nat)
    requires Tiles(m, h.begin, h.blocks) && Find(h, p) < |h.blocks|
    ensures HEADER <= p && p - HEADER == h.begin + Span(h.blocks[..Find(h, p)])
    ensures BlockAt(m, p - HEADER, h.blocks[Find(h, p)])
  {
    hide Tiles, Span, UsedBytes, FreePairs, ContentsFrom, IndexOf;
    IndexOfSound(h.begin, h.blocks, p);
    TilesAt(m, h.begin, h.blocks, Find(h, p));
  }

  /** A pointer whose status byte reads 0 is live in no heap that the bytes hold. */
  lemma DeadHeader(m: seq<byte>, p: nat)
    requires HEADER <= p < |m| + HEADER && m[p - HEADER] == 0
    ensures forall h: Heap, last: nat, used: nat :: Represents(m, h, last, used) ==> !Live(h, p)
  {
    hide Tiles, Span, UsedBytes, FreePairs, ContentsFrom, IndexOf;
    forall h: Heap, last: nat, used: nat | Represents(m, h, last, used)
      ensures !Live(h, p)
    {
      if Live(h, p) {
        FoundHeader(m, h, p);
      }
    }
  }

  /** The in-place split of a free block leaves a counter that fits no heap. */
  lemma DeadSplit(m: seq<byte>, w: seq<byte>, h: Heap, i: nat, n: nat, last: nat, used: nat)
    requires Represents(m, h, last, used) && i < |h.blocks| && !h.blocks[i].used && Splits(h.blocks[i], n)
    requires Tiles(w, h.begin, ShrinkAt(h.blocks, i, n))
    ensures forall g: Heap ::
      Represents(w, g, last, (used + n - |h.blocks[i].data|) % U64) ==> g.begin != h.begin
  {
    hide Tiles, Span, UsedBytes, FreePairs, ContentsFrom, ShrinkAt;
    var d := |h.blocks[i].data| - n;
    ShrinkCount(h.blocks, i, n);
    InMemory(m, h, i, last, used);
    SpanBounds(h.blocks);
    assert (used - d) % U64 != used;
    forall g: Heap | Represents(w, g, last, (used + n - |h.blocks[i].data|) % U64)
      ensures g.begin != h.begin
    {
      if g.begin == h.begin {
        TilesUnique(w, h.begin, g.blocks, ShrinkAt(h.blocks, i, n));
      }
    }
  }

  /** The bytes and the globals determine the heap up to its end. */
  lemma RepresentsUnique(m: seq<byte>, h: Heap, g: Heap, last: nat, used: nat, used': nat)
    requires Represents(m, h, last, used) && Represents(m, g, last, used') && g.begin == h.begin
    ensures g.blocks == h.blocks && used' == used
  {
    hide Tiles, Span, UsedBytes;
    TilesUnique(m, h.begin, h.blocks, g.blocks);
  }

  /** How many bytes the header before the blank place `p` of block `k` claims. */
  ghost function Claim(h: Heap, p: nat, k: nat): nat
    requires k < |h.blocks|
  {
    if p == PtrAt(h.begin, h.blocks, k) then |h.blocks[k].data| else 0
  }

  /** What is read through a pointer to a blank place: status 0, a size, and as many zero bytes. */
  lemma BlankBytes(m: seq<byte>, h: Heap, p: nat, k: nat)
    requires Tiles(m, h.begin, h.blocks) && k < |h.blocks| && BlankAt(h, p, k)
    ensures HEADER <= p <= p + Claim(h, p, k) <= |m| && m[p - HEADER] == 0
    ensures SizeField(m, p - HEADER) == Claim(h, p, k)
    ensures m[p..p + Claim(h, p, k)] == Zeros(Claim(h, p, k))
  {
    hide Tiles, Span, UsedBytes, FreePairs, ContentsFrom, BlockAt, SizeField, BlankAt, Zeros;
    TilesAt(m, h.begin, h.blocks, k);
    BlankParts(h, p, k);
    BlankRead(m, PtrAt(h.begin, h.blocks, k), h.blocks[k], p);
  }

  lemma BlankParts(h: Heap, p: nat, k: nat)
    requires k < |h.blocks| && BlankAt(h, p, k)
    ensures var b, start := h.blocks[k], PtrAt(h.begin, h.blocks, k);
      && HEADER <= start <= p <= start + |b.data| && p % 16 == start % 16
      && b.data == Zeros(|b.data|) && (p == start ==> !b.used)
  {
    hide Span, Zeros;
  }

  lemma BlankRead(m: seq<byte>, start: nat, b: Block, p: nat)
    requires HEADER <= start <= p <= start + |b.data| && p % 16 == start % 16
    requires BlockAt(m, start - HEADER, b) && b.data == Zeros(|b.data|) && (p == start ==> !b.used)
    ensures var z := if p == start then |b.data| else 0;
      && HEADER <= p <= p + z <= |m| && m[p - HEADER] == 0
      && SizeField(m, p - HEADER) == z && m[p..p + z] == Zeros(z)
  {
    if p != start {
      hide SizeField;
      BlankHeader(m, start, |b.data|, p);
    }
  }

  lemma BlankHeader(m: seq<byte>, start: nat, size: nat, p: nat)
    requires start + size <= |m| && m[start..start + size] == Zeros(size)
    requires start < p <= start + size && p % 16 == start % 16
    ensures start <= p - HEADER && m[p - HEADER] == 0 && SizeField(m, p - HEADER) == 0
  {
    assert forall i :: start <= i < start + size ==> m[i] == m[start..start + size][i - start];
    DecodeZeros(m[p - 8..p]);
  }

  lemma VacantHeader(m: seq<byte>, h: Heap, p: nat, last: nat, used: nat)
    requires Represents(m, h, last, used) && Vacant(h, p)
    ensures HEADER <= p <= |m| && m[p - HEADER] == 0 && !Live(h, p)
    ensures SizeField(m, p - HEADER) == if Find(h, p) < |h.blocks| then |h.blocks[Find(h, p)].data| else 0
  {
    hide Tiles, Span, UsedBytes, FreePairs, ContentsFrom, IndexOf, BlankAt;
    var k: nat :| VacantAt(h, p, k);
    BlankBytes(m, h, p, k);
    BlankFind(h, p, k);
    VacantNotLive(h, p);
  }

  /** The size that `realloc` compares with the new one. */
  lemma OldHeader(m: seq<byte>, h: Heap, p: nat, last: nat, used: nat)
    requires Represents(m, h, last, used) && (Live(h, p) || Vacant(h, p))
    ensures HEADER <= p <= |m|
    ensures SizeField(m, p - HEADER) == if Find(h, p) < |h.blocks| then |h.blocks[Find(h, p)].data| else 0
  {
    hide Tiles, Span, UsedBytes, FreePairs, ContentsFrom, IndexOf, Vacant;
    if Live(h, p) {
      FoundHeader(m, h, p);
    } else {
      VacantHeader(m, h, p, last, used);
    }
  }

  lemma ClashServed(h: Heap, p: nat, n: nat)
    requires Inv(h) && Clash(h, p, n) && 0 < n <= MAX_REQUEST && n % 16 == 0
    requires var i := Find(h, p); i < |h.blocks| ==> |h.blocks[i].data| < n
    ensures Malloc(h, n).1 != 0
  {
    hide Span, UsedBytes, FreePairs, ContentsFrom, IndexOf;
    assert AlignUp(n) == n;
  }

  /** The state between the inner `malloc` of `realloc`, which gave `q`, and its `memcpy`. */
  ghost predicate Served(m: seq<byte>, h: Heap, h1: Heap, p: nat, q: nat, n: nat, last: nat, used: nat) {
    && Inv(h) && 0 < n <= MAX_REQUEST && n % 16 == 0
    && (Live(h, p) || Vacant(h, p)) && (Find(h, p) < |h.blocks| ==> |h.blocks[Find(h, p)].data| < n)
    && h1 == Malloc(h, n).0 && q == Malloc(h, n).1 != 0
    && Represents(m, h1, last, used)
  }

  lemma ServedFacts(m: seq<byte>, h: Heap, h1: Heap, p: nat, q: nat, n: nat, last: nat, used: nat)
    requires Served(m, h, h1, p, q, n, last, used)
    ensures q != 0 && h1.begin == h.begin && Represents(m, h1, last, used)
  {
    hide Tiles, Span, UsedBytes, FreePairs, ContentsFrom, IndexOf, Malloc, Vacant, Inv, Represents;
    MallocLaw(h, n);
  }

  lemma ServedLive(m: seq<byte>, h: Heap, h1: Heap, p: nat, q: nat, n: nat, last: nat, used: nat)
    requires Served(m, h, h1, p, q, n, last, used) && Live(h, p)
    ensures Live(h1, p) && Live(h1, q) && p != q && HEADER <= p <= |m|
    ensures var data := h.blocks[Find(h, p)].data;
      && h1.blocks[Find(h1, p)].data == data && SizeField(m, p - HEADER) == |data|
      && |data| < n <= |h1.blocks[Find(h1, q)].data|
      && q + |data| <= |m| && p + |data| <= |m|
  {
    hide Tiles, Span, UsedBytes, FreePairs, ContentsFrom, IndexOf, Malloc, Vacant, Inv;
    assert AlignUp(n) == n;
    MallocLaw(h, n);
    StillLive(h, h1, p, q, n);
    FoundHeader(m, h1, p);
    var z := |h.blocks[Find(h, p)].data|;
    StoreBounds(m, h1, p, 0, z, last, used);
    StoreBounds(m, h1, q, 0, z, last, used);
  }

  /** The new payload in memory: at least `n` zero bytes. */
  lemma ServedZeros(m: seq<byte>, h: Heap, h1: Heap, p: nat, q: nat, n: nat, last: nat, used: nat)
    requires Served(m, h, h1, p, q, n, last, used)
    ensures h.begin <= q && q + n <= last <= |m| && m[q..q + n] == Zeros(n)
  {
    hide Tiles, Span, UsedBytes, FreePairs, ContentsFrom, IndexOf, Malloc, Vacant, Inv;
    assert AlignUp(n) == n;
    MallocLaw(h, n);
    LiveIsContents(h1, q);
    var data := h1.blocks[Find(h1, q)].data;
    FoundHeader(m, h1, q);
    StoreBounds(m, h1, q, 0, n, last, used);
    SliceOfSlice(m, q, q + |data|, 0, n);
    assert data[0..n] == Zeros(n);
  }

  /** What is read through a vacant pointer after the inner `malloc`. */
  lemma ServedVacant(m: seq<byte>, h: Heap, h1: Heap, p: nat, q: nat, n: nat, last: nat, used: nat) returns (k: nat)
    requires Served(m, h, h1, p, q, n, last, used) && !Live(h, p)
    ensures k < |h1.blocks| && BlankAt(h1, p, k)
    ensures Clash(h, p, n) <==> Claim(h1, p, k) > n
    ensures Clash(h, p, n) ==> p == PtrAt(h1.begin, h1.blocks, k) && p == q + n + HEADER
  {
    hide Tiles, Span, UsedBytes, FreePairs, ContentsFrom, IndexOf, PtrAt, BlankAt, FirstFit;
    assert AlignUp(n) == n;
    var k0: nat :| VacantAt(h, p, k0);
    BlankFind(h, p, k0);
    k := BlankAfterPlace(h, p, k0, n);
  }

  lemma MoveBounds(m: seq<byte>, h: Heap, h1: Heap, p: nat, q: nat, n: nat, last: nat, used: nat)
    requires Served(m, h, h1, p, q, n, last, used)
    ensures HEADER <= p <= |m| && p + SizeField(m, p - HEADER) <= |m| && q + SizeField(m, p - HEADER) <= |m|
  {
    hide Tiles, Span, UsedBytes, FreePairs, ContentsFrom, IndexOf, PtrAt, BlankAt, Clash, Vacant, Malloc, Claim;
    if Live(h, p) {
      ServedLive(m, h, h1, p, q, n, last, used);
    } else {
      var k := ServedVacant(m, h, h1, p, q, n, last, used);
      BlankBytes(m, h1, p, k);
      ServedZeros(m, h, h1, p, q, n, last, used);
    }
  }

  lemma LiveMoved(m: seq<byte>, w: seq<byte>, h: Heap, h1: Heap, p: nat, q: nat, n: nat, last: nat, used: nat)
    requires Served(m, h, h1, p, q, n, last, used) && Live(h, p)
    requires HEADER <= p <= |m| && p + SizeField(m, p - HEADER) <= |m| && q + SizeField(m, p - HEADER) <= |m|
    requires ForwardCopy(m, w, q, p, SizeField(m, p - HEADER))
    ensures var h2 := Write(h1, q, 0, h.blocks[Find(h, p)].data);
      && Represents(w, h2, last, used) && Live(h2, p) && h2 == h1.(blocks := h2.blocks)
    ensures SameOutside(m, w, h.begin, last)
  {
    hide Tiles, Span, UsedBytes, FreePairs, ContentsFrom, IndexOf, PtrAt, Vacant, Malloc;
    ServedLive(m, h, h1, p, q, n, last, used);
    var data := h.blocks[Find(h, p)].data;
    CopyRepresents(m, w, h1, q, p, |data|, last, used);
    LiveIsContents(h1, q);
    LiveIsContents(h1, p);
    WriteLaw(h1, q, 0, data);
    LiveIsContents(Write(h1, q, 0, data), p);
    assert h1.begin == h.begin by { MallocLaw(h, n); }
  }

  lemma VacantMoved(m: seq<byte>, w: seq<byte>, h: Heap, h1: Heap, p: nat, q: nat, n: nat, last: nat, used: nat)
    requires Served(m, h, h1, p, q, n, last, used) && !Live(h, p)
    requires HEADER <= p <= |m| && p + SizeField(m, p - HEADER) <= |m| && q + SizeField(m, p - HEADER) <= |m|
    requires ForwardCopy(m, w, q, p, SizeField(m, p - HEADER))
    ensures SameOutside(m, w, h.begin, last) && w[p - HEADER] == 0
    ensures !Clash(h, p, n) ==> w == m
    ensures Clash(h, p, n) ==> forall g: Heap, u: nat :: Represents(w, g, last, u) ==> g.begin != h.begin
  {
    hide Tiles, Span, UsedBytes, FreePairs, ContentsFrom, IndexOf, PtrAt, BlankAt, Clash, Vacant, Malloc;
    var k := ServedVacant(m, h, h1, p, q, n, last, used);
    var z := Claim(h1, p, k);
    BlankBytes(m, h1, p, k);
    ServedZeros(m, h, h1, p, q, n, last, used);
    CopyZeros(m, w, q, p, z);
    SameZeros(m, w, q, z, n);
    if Clash(h, p, n) {
      ServedClash(m, w, h1, p, k, q, n, last, used);
      MallocLaw(h, n);
    }
  }

  lemma ServedClash(m: seq<byte>, w: seq<byte>, h: Heap, p: nat, k: nat, q: nat, n: nat, last: nat, used: nat)
    requires Represents(m, h, last, used) && k < |h.blocks|
    requires p == PtrAt(h.begin, h.blocks, k) == q + n + HEADER && 0 < n < |h.blocks[k].data| && n % 16 == 0
    requires var e := q + |h.blocks[k].data|;
      e <= |m| && SameOutside(m, w, q + n, e) && forall i :: q <= i < e ==> w[i] == 0
    ensures SameOutside(m, w, h.begin, last) && w[p - HEADER] == 0
    ensures forall g: Heap, u: nat :: Represents(w, g, last, u) ==> g.begin != h.begin
  {
    hide Tiles, Span, UsedBytes, FreePairs, ContentsFrom;
    assert GoodBlock(h.blocks[k]);
    Wiped(m, w, h, k, q, |h.blocks[k].data|, last, used);
  }

  lemma SameZeros(m: seq<byte>, w: seq<byte>, q: nat, z: nat, n: nat)
    requires q + n <= |m| && q + z <= |m| && m[q..q + n] == Zeros(n) && SameOutside(m, w, q, q + z)
    requires forall i :: q <= i < q + z ==> w[i] == 0
    ensures z <= n ==> w == m
    ensures z > n ==> SameOutside(m, w, q + n, q + z)
  {
    assert forall i :: q <= i < q + n ==> m[i] == m[q..q + n][i - q];
  }

  /** A copy that reaches over the header of block `k` leaves no heap that ends at `last`. */
  lemma Wiped(m: seq<byte>, w: seq<byte>, h: Heap, k: nat, q: nat, z: nat, last: nat, used: nat)
    requires Represents(m, h, last, used) && k < |h.blocks| && z == |h.blocks[k].data|
    requires var at := h.begin + Span(h.blocks[..k]);
      && q + HEADER <= at && at + HEADER <= q + z <= |m|
      && SameOutside(m, w, at, q + z) && forall i :: q <= i < q + z ==> w[i] == 0
    ensures SameOutside(m, w, h.begin, last)
    ensures forall g: Heap, u: nat :: Represents(w, g, last, u) ==> g.begin != h.begin
  {
    hide Tiles, Span, UsedBytes, FreePairs, ContentsFrom;
    var xs, at := h.blocks[..k], h.begin + Span(h.blocks[..k]);
    SplitAt(h.blocks, k);
    TilesInBounds(m, h.begin, h.blocks);
    assert Tiles(w, h.begin, xs) by {
      TilesSplit(m, h.begin, xs, [h.blocks[k]], h.blocks[k + 1..]);
      TilesFrame(m, w, at, q + z, h.begin, xs);
    }
    assert SizeField(w, at) == 0 by { DecodeZeros(w[at + 8..at + 16]); }
    forall g: Heap, u: nat | Represents(w, g, last, u)
      ensures g.begin != h.begin
    {
      if g.begin == h.begin {
        ZeroHeader(w, h.begin, xs, g.blocks);
      }
    }
  }
}
