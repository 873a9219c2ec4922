/**
 The allocator's heap seen as a list of blocks, and the four library calls as functions on it.

 A block is a 16-byte header (`status`, `size`) followed by its payload. Here the header's two
 fields are `used` and `|data|`, and the payload bytes are kept as well, so that an equation
 between block lists also says which payload bytes a call changed.
 */
module Blocks {
  import opened Bytes

  const HEADER: nat := 16
  const INT_MAX: nat := 0x7FFF_FFFF
  /** `INT_MAX - (ALLOC_ALIGN - 1)`: the largest request that is served. */
  const MAX_REQUEST: nat := INT_MAX - 15
  const SIZE_MAX: nat := U64 - 1

  /** ALIGN_UP: the least multiple of 16 at or above `x` (without wrap-around). */
  function AlignUp(x: nat): (r: nat)
    ensures r % 16 == 0 && x <= r < x + 16
  {
    (x + 15) / 16 * 16
  }

  datatype Block = Block(used: bool, data: seq<byte>)

  function Extent(b: Block): nat {
    HEADER + |b.data|
  }

  /** Bytes covered by a run of blocks, headers included. */
  function Span(bs: seq<Block>): nat {
    if |bs| == 0 then 0 else Extent(bs[0]) + Span(bs[1..])
  }

  /** Header plus payload bytes of the used blocks. */
  function UsedBytes(bs: seq<Block>): nat {
    if |bs| == 0 then 0 else (if bs[0].used then Extent(bs[0]) else 0) + UsedBytes(bs[1..])
  }

  predicate Joins(x: seq<Block>, y: seq<Block>) {
    |x| > 0 && |y| > 0 && !x[|x| - 1].used && !y[0].used
  }

  /** The number of neighbouring pairs of free blocks. */
  function FreePairs(bs: seq<Block>): nat {
    if |bs| == 0 then 0
    else (if Joins([bs[0]], bs[1..]) then 1 else 0) + FreePairs(bs[1..])
  }

  predicate GoodBlock(b: Block) {
    |b.data| > 0 && |b.data| % 16 == 0
  }

  predicate GoodBlocks(bs: seq<Block>) {
    forall i :: 0 <= i < |bs| ==> GoodBlock(bs[i])
  }

  /** The client's view: every live pointer with the bytes it owns. */
  ghost function ContentsFrom(a: nat, bs: seq<Block>): map<nat, seq<byte>>
    decreases bs
  {
    if |bs| == 0 then map[]
    else
      var rest := ContentsFrom(a + Extent(bs[0]), bs[1..]);
      if bs[0].used then rest[a + HEADER := bs[0].data] else rest
  }

  /** The block whose payload starts at `p`, found by walking from `a`; `|bs|` if there is none. */
  function IndexOf(a: nat, bs: seq<Block>, p: nat): (i: nat)
    ensures i <= |bs|
    decreases bs
  {
    if |bs| == 0 || p == a + HEADER then 0 else 1 + IndexOf(a + Extent(bs[0]), bs[1..], p)
  }

  /** Where the payload of block `i` starts. */
  function PtrAt(a: nat, bs: seq<Block>, i: nat): nat
    requires i <= |bs|
  {
    a + Span(bs[..i]) + HEADER
  }

  // ---------------------------------------------------------------- the state and the calls

  datatype Heap = Heap(begin: nat, end: nat, blocks: seq<Block>)

  function Last(h: Heap): nat {
    h.begin + Span(h.blocks)
  }

  ghost function Contents(h: Heap): map<nat, seq<byte>> {
    ContentsFrom(h.begin, h.blocks)
  }

  function Find(h: Heap, p: nat): (i: nat)
    ensures i <= |h.blocks|
  {
    IndexOf(h.begin, h.blocks, p)
  }

  predicate Live(h: Heap, p: nat) {
    Find(h, p) < |h.blocks| && h.blocks[Find(h, p)].used
  }

  /** What holds between calls. */
  predicate Inv(h: Heap) {
    && h.begin % 16 == 0
    && GoodBlocks(h.blocks)
    && (|h.blocks| > 0 ==> 0 < h.begin && Last(h) < h.end)
  }

  /** The lowest free block with room for `n` bytes; `|bs|` if there is none. */
  function FirstFit(bs: seq<Block>, n: nat): (i: nat)
    ensures i <= |bs|
    ensures forall j :: 0 <= j < i ==> bs[j].used || |bs[j].data| < n
    ensures i < |bs| ==> !bs[i].used && n <= |bs[i].data|
  {
    if |bs| == 0 || (!bs[0].used && n <= |bs[0].data|) then 0 else 1 + FirstFit(bs[1..], n)
  }

  /** A block is split only if the rest holds a header and at least one byte. */
  predicate Splits(b: Block, n: nat) {
    |b.data| > n + HEADER
  }

  /** A free block turned into a used one of `n` bytes; `clear` bytes are zeroed if it is taken whole. */
  function Carve(b: Block, n: nat, clear: nat): seq<Block>
    requires n <= |b.data| && clear <= |b.data|
  {
    if Splits(b, n) then [Block(true, Zeros(n)), Block(false, b.data[n + HEADER..])]
    else [Block(true, Zeros(clear) + b.data[clear..])]
  }

  /** First fit, or a new block at the end. `whole`: a reused block is cleared entirely. */
  function Place(h: Heap, n: nat, whole: bool): (Heap, nat)
  {
    var i := FirstFit(h.blocks, n);
    if i < |h.blocks| then
      var b := h.blocks[i];
      (h.(blocks := h.blocks[..i] + Carve(b, n, if whole then |b.data| else n) + h.blocks[i + 1..]),
       PtrAt(h.begin, h.blocks, i))
    else if Last(h) + n + HEADER >= h.end then (h, 0)
    else (h.(blocks := h.blocks + [Block(true, Zeros(n))]), Last(h) + HEADER)
  }

  function Malloc(h: Heap, size: nat): (Heap, nat) {
    if size == 0 || h.begin == 0 || size > MAX_REQUEST then (h, 0)
    else Place(h, AlignUp(size), true)
  }

  function Calloc(h: Heap, amount: nat, size: nat): (Heap, nat) {
    if size == 0 || amount == 0 || size > SIZE_MAX / amount || amount * size > MAX_REQUEST || h.begin == 0
    then (h, 0)
    else Place(h, AlignUp(amount * size), false)
  }

  /** The first block a freed block `i` is merged with ... */
  function MergeLo(bs: seq<Block>, i: nat): nat
    requires i < |bs|
  {
    if i > 0 && !bs[i - 1].used then i - 1 else i
  }

  /** ... and the end of the merged range. */
  function MergeHi(bs: seq<Block>, i: nat): nat
    requires i < |bs|
  {
    if i + 1 < |bs| && !bs[i + 1].used then i + 2 else i + 1
  }

  function Merged(bs: seq<Block>): Block
    requires |bs| > 0
  {
    Block(false, Zeros(Span(bs) - HEADER))
  }

  function FreeAt(bs: seq<Block>, i: nat): seq<Block>
    requires i < |bs|
  {
    var lo, hi := MergeLo(bs, i), MergeHi(bs, i);
    bs[..lo] + [Merged(bs[lo..hi])] + bs[hi..]
  }

  function Free(h: Heap, p: nat): Heap {
    if Live(h, p) then h.(blocks := FreeAt(h.blocks, Find(h, p))) else h
  }

  function ShrinkAt(bs: seq<Block>, i: nat, n: nat): seq<Block>
    requires i < |bs|
  {
    if Splits(bs[i], n) then
      bs[..i] + [Block(bs[i].used, bs[i].data[..n]), Block(false, bs[i].data[n + HEADER..])] + bs[i + 1..]
    else bs
  }

  /** The client's store of `s` at offset `k` of the payload at `p`; nothing happens outside a live payload. */
  function Write(h: Heap, p: nat, k: nat, s: seq<byte>): Heap {
    var i := Find(h, p);
    if Live(h, p) && k + |s| <= |h.blocks[i].data| then
      h.(blocks := h.blocks[i := h.blocks[i].(data := Splice(h.blocks[i].data, k, s))])
    else h
  }

  /** `p` is the payload of the all-zero free block `k`, or a 16-aligned place further into it. */
  ghost predicate VacantAt(h: Heap, p: nat, k: nat) {
    k < |h.blocks| && !h.blocks[k].used && BlankAt(h, p, k)
  }

  /** The 16 bytes before `p` are the header of block `k`, if that is free, or lie in its all-zero payload. */
  ghost predicate BlankAt(h: Heap, p: nat, k: nat)
    requires k < |h.blocks|
  {
    var b, start := h.blocks[k], PtrAt(h.begin, h.blocks, k);
    && b.data == Zeros(|b.data|)
    && start <= p <= start + |b.data| && p % 16 == start % 16
    && (p == start ==> !b.used)
  }

  /** Where a freed pointer points, until its block is taken again. */
  ghost predicate Vacant(h: Heap, p: nat) {
    exists k: nat :: VacantAt(h, p, k)
  }

  /**
   When `realloc` to `n` bytes goes wrong on a vacant pointer: its header still claims `n` bytes or more, or the
   inner `malloc` puts the header of a remainder of more than `n` bytes exactly where the header of `p` was.
   */
  predicate Clash(h: Heap, p: nat, n: nat) {
    var i, j := Find(h, p), FirstFit(h.blocks, n);
    || (i < |h.blocks| && |h.blocks[i].data| >= n)
    || (j < |h.blocks| && p == PtrAt(h.begin, h.blocks, j) + n + HEADER && |h.blocks[j].data| > n + HEADER + n)
  }

  /** The calls of `realloc` that return null or a live pointer of a heap that is still one. */
  ghost predicate MayRealloc(h: Heap, p: nat, size: nat) {
    p == 0 || size == 0 || size > MAX_REQUEST || Live(h, p) || (Vacant(h, p) && !Clash(h, p, AlignUp(size)))
  }

  function Realloc(h: Heap, p: nat, size: nat): (Heap, nat)
    requires MayRealloc(h, p, size)
  {
    if p == 0 then (h, 0)
    else if size == 0 then (Free(h, p), 0)
    else if size > MAX_REQUEST then (h, 0)
    else if !Live(h, p) then Malloc(h, AlignUp(size))
    else
      var n, i := AlignUp(size), Find(h, p);
      var data := h.blocks[i].data;
      if |data| >= n then (h.(blocks := ShrinkAt(h.blocks, i, n)), p)
      else
        var (h', q) := Malloc(h, n);
        if q == 0 then (h', 0) else (Free(Write(h', q, 0, data), p), q)
  }
}
