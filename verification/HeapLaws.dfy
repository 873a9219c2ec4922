/** What each library call does to the heap: the client's map, the invariant and the measures. */
module HeapLaws {
  import opened Bytes
  import opened Blocks
  import opened BlockFacts

  // ---------------------------------------------------------------- allocation

  /** What a successful allocation of `n` bytes at `p` amounts to. */
  ghost predicate Allocated(h: Heap, h': Heap, n: nat, p: nat) {
    && Inv(h')
    && p % 16 == 0 && p > 0 && p !in Contents(h) && p in Contents(h')
    && Contents(h') == Contents(h)[p := Contents(h')[p]]
    && n <= |Contents(h')[p]| <= n + HEADER
    && Contents(h')[p][..n] == Zeros(n)
    && UsedBytes(h'.blocks) == UsedBytes(h.blocks) + HEADER + |Contents(h')[p]|
    && FreePairs(h'.blocks) <= FreePairs(h.blocks)
    && h'.begin == h.begin && h'.end == h.end
  }

  lemma CarveMeasures(a: nat, b: Block, n: nat, clear: nat)
    requires !b.used && GoodBlock(b) && 0 < n <= |b.data| && n % 16 == 0 && n <= clear <= |b.data|
    ensures var mid := Carve(b, n, clear);
      && |mid| > 0 && GoodBlocks(mid) && mid[0].used
      && Span(mid) == Extent(b)
      && UsedBytes(mid) == HEADER + |mid[0].data|
      && FreePairs(mid) == 0
      && ContentsFrom(a, mid) == map[a + HEADER := mid[0].data]
      && n <= |mid[0].data| <= n + HEADER
      && mid[0].data[..n] == Zeros(n)
  {
    hide Span, UsedBytes, FreePairs, ContentsFrom;
    var mid := Carve(b, n, clear);
    OneBlock(a, mid[0]);
    if Splits(b, n) {
      OneBlock(a + Extent(mid[0]), mid[1]);
      TwoBlocks(a, mid[0], mid[1]);
      assert Zeros(n)[..n] == Zeros(n);
    } else {
      assert (Zeros(clear) + b.data[clear..])[..n] == Zeros(n);
    }
  }

  lemma ReuseMeasures(h: Heap, n: nat, whole: bool)
    requires Inv(h) && 0 < n && n % 16 == 0
    requires FirstFit(h.blocks, n) < |h.blocks|
    ensures var h' := Place(h, n, whole).0; var i := FirstFit(h.blocks, n);
      && Inv(h') && Last(h') == Last(h)
      && i < |h'.blocks|
      && UsedBytes(h'.blocks) == UsedBytes(h.blocks) + Extent(h'.blocks[i])
      && FreePairs(h'.blocks) <= FreePairs(h.blocks)
  {
    hide Span, UsedBytes, FreePairs, ContentsFrom;
    var i := FirstFit(h.blocks, n);
    var b, pre, post := h.blocks[i], h.blocks[..i], h.blocks[i + 1..];
    var clear := if whole then |b.data| else n;
    var mid := Carve(b, n, clear);
    SplitAt(h.blocks, i);
    assert GoodBlock(b);
    CarveMeasures(h.begin + Span(pre), b, n, clear);
    OneBlock(h.begin + Span(pre), b);
    ReplaceSpan(pre, [b], mid, post);
    ReplaceGood(pre, [b], mid, post);
    ReplacePairs(pre, [b], mid, post);
  }

  lemma CarveSome(b: Block, n: nat, clear: nat)
    requires n <= |b.data| && clear <= |b.data|
    ensures 1 <= |Carve(b, n, clear)| <= 2
  {
  }

  lemma CarveContents(a: nat, pre: seq<Block>, b: Block, post: seq<Block>, n: nat, clear: nat)
    requires !b.used && GoodBlock(b) && 0 < n <= |b.data| && n % 16 == 0 && n <= clear <= |b.data|
    ensures var p := a + Span(pre) + HEADER; var mid := Carve(b, n, clear);
      && p !in ContentsFrom(a, pre + [b] + post)
      && ContentsFrom(a, pre + mid + post) == ContentsFrom(a, pre + [b] + post)[p := mid[0].data]
  {
    hide Span, UsedBytes, FreePairs, ContentsFrom;
    var mid, p := Carve(b, n, clear), a + Span(pre) + HEADER;
    CarveMeasures(a + Span(pre), b, n, clear);
    OneBlock(a + Span(pre), b);
    ReplaceContents(a, pre, [b], mid, post);
    assert p in ContentsFrom(a + Span(pre), mid).Keys;
    assert ContentsFrom(a, pre + [b] + post) - {} == ContentsFrom(a, pre + [b] + post);
  }

  lemma ReuseContents(h: Heap, n: nat, whole: bool)
    requires Inv(h) && 0 < n && n % 16 == 0
    requires FirstFit(h.blocks, n) < |h.blocks|
    ensures var (h', p) := Place(h, n, whole); var i := FirstFit(h.blocks, n);
      && i < |h'.blocks|
      && p !in Contents(h) && Contents(h') == Contents(h)[p := h'.blocks[i].data]
  {
    hide Span, UsedBytes, FreePairs, ContentsFrom, Carve;
    var i := FirstFit(h.blocks, n);
    var b, pre, post := h.blocks[i], h.blocks[..i], h.blocks[i + 1..];
    assert h.blocks == pre + [b] + post;
    assert GoodBlock(b);
    var clear := if whole then |b.data| else n;
    CarveSome(b, n, clear);
    var mid := Carve(b, n, clear);
    assert (pre + mid + post)[i] == mid[0];
    CarveContents(h.begin, pre, b, post, n, clear);
  }

  lemma ReuseData(h: Heap, n: nat, whole: bool)
    requires Inv(h) && 0 < n && n % 16 == 0
    requires FirstFit(h.blocks, n) < |h.blocks|
    ensures var (h', p) := Place(h, n, whole); var i := FirstFit(h.blocks, n);
      && i < |h'.blocks|
      && n <= |h'.blocks[i].data| <= n + HEADER && h'.blocks[i].data[..n] == Zeros(n)
      && (whole ==> h'.blocks[i].data == Zeros(|h'.blocks[i].data|))
  {
    hide Span, UsedBytes, FreePairs, ContentsFrom;
    var i := FirstFit(h.blocks, n);
    var b := h.blocks[i];
    assert GoodBlock(b);
    CarveMeasures(0, b, n, if whole then |b.data| else n);
  }

  lemma PtrAtAligned(a: nat, bs: seq<Block>, i: nat)
    requires a % 16 == 0 && GoodBlocks(bs) && i <= |bs|
    ensures PtrAt(a, bs, i) % 16 == 0
  {
    hide Span, UsedBytes;
    var pre := bs[..i];
    assert GoodBlocks(pre);
    SpanBounds(pre);
  }

  lemma ReuseLaw(h: Heap, n: nat, whole: bool)
    requires Inv(h) && 0 < n && n % 16 == 0
    requires FirstFit(h.blocks, n) < |h.blocks|
    ensures var (h', p) := Place(h, n, whole);
      && Allocated(h, h', n, p) && Last(h') == Last(h)
      && (whole ==> Contents(h')[p] == Zeros(|Contents(h')[p]|))
  {
    hide Span, UsedBytes, FreePairs, ContentsFrom;
    ReuseMeasures(h, n, whole);
    ReuseContents(h, n, whole);
    ReuseData(h, n, whole);
    PtrAtAligned(h.begin, h.blocks, FirstFit(h.blocks, n));
  }

  lemma ExtendMeasures(h: Heap, b: Block)
    requires GoodBlocks(h.blocks) && GoodBlock(b) && b.used
    ensures var bs := h.blocks + [b];
      && GoodBlocks(bs) && Span(bs) == Span(h.blocks) + Extent(b)
      && UsedBytes(bs) == UsedBytes(h.blocks) + Extent(b) && FreePairs(bs) == FreePairs(h.blocks)
  {
    hide Span, UsedBytes, FreePairs, ContentsFrom;
    OneBlock(Last(h), b);
    SpanConcat(h.blocks, [b]);
    PairsConcat(h.blocks, [b]);
  }

  lemma ExtendContents(h: Heap, b: Block)
    requires b.used
    ensures Last(h) + HEADER !in Contents(h)
    ensures ContentsFrom(h.begin, h.blocks + [b]) == Contents(h)[Last(h) + HEADER := b.data]
  {
    hide Span, UsedBytes, FreePairs, ContentsFrom;
    OneBlock(Last(h), b);
    ContentsConcat(h.begin, h.blocks, [b]);
    ContentsBounds(h.begin, h.blocks);
  }

  lemma ExtendLaw(h: Heap, n: nat, whole: bool)
    requires Inv(h) && 0 < h.begin && 0 < n && n % 16 == 0
    requires FirstFit(h.blocks, n) == |h.blocks| && Last(h) + n + HEADER < h.end
    ensures var (h', p) := Place(h, n, whole);
      && Allocated(h, h', n, p) && Last(h') == Last(h) + HEADER + n
      && Contents(h')[p] == Zeros(n)
  {
    hide Span, UsedBytes, FreePairs, ContentsFrom;
    ExtendMeasures(h, Block(true, Zeros(n)));
    ExtendContents(h, Block(true, Zeros(n)));
    SpanBounds(h.blocks);
    assert Zeros(n)[..n] == Zeros(n);
  }

  /** Allocation fails only with the heap unchanged, and exactly if no free block fits and the end has no room. */
  lemma PlaceLaw(h: Heap, n: nat, whole: bool)
    requires Inv(h) && 0 < h.begin && 0 < n && n % 16 == 0
    ensures var (h', p) := Place(h, n, whole);
      && (p == 0 <==> (forall j :: 0 <= j < |h.blocks| ==> h.blocks[j].used || |h.blocks[j].data| < n)
                      && Last(h) + n + HEADER >= h.end)
      && (p == 0 ==> h' == h)
      && (p != 0 ==> Allocated(h, h', n, p) && (whole ==> Contents(h')[p] == Zeros(|Contents(h')[p]|)))
  {
    hide Span, UsedBytes, FreePairs, ContentsFrom;
    var i := FirstFit(h.blocks, n);
    if i < |h.blocks| {
      ReuseLaw(h, n, whole);
    } else if Last(h) + n + HEADER < h.end {
      ExtendLaw(h, n, whole);
    }
  }

  /** The heap can serve `n` bytes: some free block holds them, or they fit behind the last block with a header. */
  ghost predicate Fits(h: Heap, n: nat) {
    && h.begin != 0
    && ((exists i :: 0 <= i < |h.blocks| && !h.blocks[i].used && |h.blocks[i].data| >= n)
        || h.begin + Span(h.blocks) + n + 16 < h.end)
  }

  lemma PlaceNull(h: Heap, n: nat, whole: bool)
    requires Inv(h) && 0 < h.begin && 0 < n && n % 16 == 0
    ensures Place(h, n, whole).1 == 0 <==> !Fits(h, n)
  {
    hide Span, UsedBytes, FreePairs, ContentsFrom;
    PlaceLaw(h, n, whole);
  }

  /** The requests `malloc` looks at. */
  predicate Servable(h: Heap, size: nat) {
    0 < size <= MAX_REQUEST && h.begin != 0
  }

  lemma MallocLaw(h: Heap, size: nat)
    requires Inv(h)
    ensures var (h', p) := Malloc(h, size);
      && Inv(h')
      && (p == 0 <==> size == 0 || size > 0x7FFF_FFF0 || !Fits(h, AlignUp(size)))
      && (p == 0 ==> h' == h)
      && (p != 0 ==> Servable(h, size) && Allocated(h, h', AlignUp(size), p)
                     && Contents(h')[p] == Zeros(|Contents(h')[p]|))
  {
    hide Span, UsedBytes, FreePairs, ContentsFrom;
    if Servable(h, size) {
      PlaceLaw(h, AlignUp(size), true);
      PlaceNull(h, AlignUp(size), true);
    }
  }

  /** `malloc` takes the lowest free block that fits; it extends the heap only if there is none. */
  lemma FirstFitLaw(h: Heap, size: nat, i: nat)
    requires Inv(h) && Servable(h, size) && i < |h.blocks|
    requires !h.blocks[i].used && AlignUp(size) <= |h.blocks[i].data|
    requires forall j :: 0 <= j < i ==> h.blocks[j].used || |h.blocks[j].data| < AlignUp(size)
    ensures Malloc(h, size).1 == PtrAt(h.begin, h.blocks, i)
    ensures Last(Malloc(h, size).0) == Last(h)
    ensures Malloc(h, size).0.blocks[..i] == h.blocks[..i]
  {
    assert FirstFit(h.blocks, AlignUp(size)) == i;
    ReuseLaw(h, AlignUp(size), true);
  }

  /** Without a free block that fits, the new block is laid behind the last one and the others stay as they are. */
  lemma ExtendLawAt(h: Heap, size: nat)
    requires Inv(h) && h.begin != 0 && 0 < size <= 0x7FFF_FFF0
    requires forall i :: 0 <= i < |h.blocks| && !h.blocks[i].used ==> |h.blocks[i].data| < AlignUp(size)
    requires h.begin + Span(h.blocks) + AlignUp(size) + 16 < h.end
    ensures Malloc(h, size).1 == h.begin + Span(h.blocks) + 16
    ensures Last(Malloc(h, size).0) == Last(h) + 16 + AlignUp(size)
    ensures Malloc(h, size).0.blocks[..|h.blocks|] == h.blocks
  {
    hide Span, UsedBytes, FreePairs, ContentsFrom;
    assert FirstFit(h.blocks, AlignUp(size)) == |h.blocks|;
    ExtendLaw(h, AlignUp(size), true);
  }

  /** The block list without the payload bytes: what the headers say. */
  function Shape(bs: seq<Block>): (s: seq<(bool, nat)>)
    ensures |s| == |bs|
  {
    seq(|bs|, i requires 0 <= i < |bs| => (bs[i].used, |bs[i].data|))
  }

  /**
   `calloc(amount, size)` moves headers exactly as `malloc(amount * size)` does and returns the same pointer;
   a product that does not fit in 64 bits is refused; the requested bytes are zero.
   */
  lemma CallocLaw(h: Heap, amount: nat, size: nat)
    requires Inv(h)
    ensures var (h', p) := Calloc(h, amount, size);
      && Inv(h')
      && Shape(h'.blocks) == Shape(Malloc(h, amount * size).0.blocks)
      && p == Malloc(h, amount * size).1
      && (p == 0 <==> amount * size == 0 || amount * size > 0x7FFF_FFF0 || !Fits(h, AlignUp(amount * size)))
      && (p == 0 ==> h' == h)
      && (p != 0 ==> Allocated(h, h', AlignUp(amount * size), p))
  {
    var n := amount * size;
    if amount == 0 || size == 0 {
      assert n == 0;
    } else {
      MulBounds(amount, size);
      if Servable(h, n) {
        PlaceLaw(h, AlignUp(n), false);
        PlaceNull(h, AlignUp(n), false);
        CarveShape(h, AlignUp(n));
      }
    }
  }

  lemma MulBounds(amount: nat, size: nat)
    requires amount > 0 && size > 0
    ensures amount * size > 0
    ensures size > SIZE_MAX / amount ==> amount * size > SIZE_MAX
  {
    var q := SIZE_MAX / amount;
    assert SIZE_MAX < amount * (q + 1) by {
      assert SIZE_MAX == amount * q + SIZE_MAX % amount;
    }
    if size > q {
      assert amount * (q + 1) <= amount * size;
    }
  }

  lemma CarveShape(h: Heap, n: nat)
    ensures Shape(Place(h, n, true).0.blocks) == Shape(Place(h, n, false).0.blocks)
    ensures Place(h, n, true).1 == Place(h, n, false).1
  {
  }

  // ---------------------------------------------------------------- free

  /** The stretch that `free` merges holds one used block, the freed one. */
  lemma MidMeasures(a: nat, bs: seq<Block>, i: nat)
    requires i < |bs| && bs[i].used && GoodBlocks(bs)
    ensures var lo := MergeLo(bs, i); var mid := bs[lo..MergeHi(bs, i)];
      && UsedBytes(mid) == Extent(bs[i]) && FreePairs(mid) == 0
      && Span(mid) >= Extent(bs[i]) && Span(mid) % 16 == 0
      && ContentsFrom(a + Span(bs[..lo]), mid) == map[PtrAt(a, bs, i) := bs[i].data]
  {
    hide Span, UsedBytes, FreePairs, ContentsFrom, GoodBlock, GoodBlocks, MergeLo, MergeHi, PtrAt;
    MidParts(bs, i);
    var lo, hi := MergeLo(bs, i), MergeHi(bs, i);
    var left, right, a0 := bs[lo..i], bs[i + 1..hi], a + Span(bs[..lo]);
    assert PtrAt(a, bs, i) == a0 + Span(left) + HEADER by { MidPtr(a, bs, lo, i); }
    MidTail(a0 + Span(left), bs[i], right);
    MidPrepend(a0, left, [bs[i]] + right);
    SpanBounds(bs[lo..hi]);
  }

  lemma MidParts(bs: seq<Block>, i: nat)
    requires i < |bs| && GoodBlocks(bs)
    ensures var lo, hi := MergeLo(bs, i), MergeHi(bs, i);
      && lo <= i < hi <= |bs| && i - lo <= 1 && hi - i <= 2 && GoodBlocks(bs[lo..hi])
      && (lo < i ==> !bs[lo].used) && (hi > i + 1 ==> !bs[i + 1].used)
      && bs[lo..hi] == bs[lo..i] + ([bs[i]] + bs[i + 1..hi])
  {
    hide GoodBlock;
  }

  lemma MidPtr(a: nat, bs: seq<Block>, lo: nat, i: nat)
    requires lo <= i <= |bs|
    ensures PtrAt(a, bs, i) == a + Span(bs[..lo]) + Span(bs[lo..i]) + HEADER
  {
    hide Span;
    StretchSpan(bs, lo, i);
  }

  lemma MidTail(a: nat, b: Block, right: seq<Block>)
    requires b.used && |right| <= 1 && (|right| > 0 ==> !right[0].used)
    ensures UsedBytes([b] + right) == Extent(b) && FreePairs([b] + right) == 0
    ensures Span([b] + right) >= Extent(b)
    ensures ContentsFrom(a, [b] + right) == map[a + HEADER := b.data]
  {
    hide Span, UsedBytes, FreePairs, ContentsFrom;
    OneBlock(a, b);
    if |right| == 0 {
      assert [b] + right == [b];
    } else {
      assert [b] + right == [b, right[0]];
      TwoBlocks(a, b, right[0]);
      OneBlock(a + Extent(b), right[0]);
    }
  }

  lemma MidPrepend(a: nat, left: seq<Block>, rest: seq<Block>)
    requires |left| <= 1 && (|left| > 0 ==> !left[0].used)
    requires |rest| > 0 && rest[0].used
    ensures UsedBytes(left + rest) == UsedBytes(rest) && Span(left + rest) == Span(left) + Span(rest)
    ensures FreePairs(left + rest) == FreePairs(rest)
    ensures ContentsFrom(a, left + rest) == ContentsFrom(a + Span(left), rest)
  {
    if |left| == 0 {
      assert left + rest == rest;
    } else {
      assert left == [left[0]];
      OneBlock(a, left[0]);
      SpanConcat(left, rest);
      PairsConcat(left, rest);
      ContentsConcat(a, left, rest);
    }
  }

  lemma FreeAtPairs(bs: seq<Block>, i: nat)
    requires i < |bs| && bs[i].used && GoodBlocks(bs)
    ensures FreePairs(FreeAt(bs, i)) == FreePairs(bs)
  {
    hide Span, UsedBytes, FreePairs, ContentsFrom, GoodBlocks;
    var lo, hi := MergeLo(bs, i), MergeHi(bs, i);
    var pre, mid, post := bs[..lo], bs[lo..hi], bs[hi..];
    var b := Merged(mid);
    assert bs == pre + mid + post;
    assert FreePairs(mid) == 0 && FreePairs([b]) == 0 by {
      MidMeasures(0, bs, i);
      OneBlock(0, b);
    }
    assert Joins(pre, mid) == Joins(pre, [b]);
    assert Joins(mid, post) == Joins([b], post);
    ReplacePairs(pre, mid, [b], post);
  }

  lemma MergeSpan(pre: seq<Block>, mid: seq<Block>, post: seq<Block>)
    requires |mid| > 0
    ensures Span(pre + [Merged(mid)] + post) == Span(pre + mid + post)
    ensures UsedBytes(pre + [Merged(mid)] + post) + UsedBytes(mid) == UsedBytes(pre + mid + post)
  {
    hide Span, UsedBytes, FreePairs, ContentsFrom;
    OneBlock(0, Merged(mid));
    ReplaceSpan(pre, mid, [Merged(mid)], post);
  }

  lemma MergeParts(bs: seq<Block>, i: nat)
    requires i < |bs|
    ensures var lo, hi := MergeLo(bs, i), MergeHi(bs, i);
      && lo <= i < hi <= |bs|
      && bs == bs[..lo] + bs[lo..hi] + bs[hi..]
      && FreeAt(bs, i) == bs[..lo] + [Merged(bs[lo..hi])] + bs[hi..]
  {
  }

  lemma FreeAtSpan(bs: seq<Block>, i: nat)
    requires i < |bs| && bs[i].used && GoodBlocks(bs)
    ensures Span(FreeAt(bs, i)) == Span(bs)
    ensures UsedBytes(FreeAt(bs, i)) + Extent(bs[i]) == UsedBytes(bs)
  {
    hide Span, UsedBytes, FreePairs, ContentsFrom, GoodBlocks, MergeLo, MergeHi, Merged, FreeAt;
    MergeParts(bs, i);
    var lo, hi := MergeLo(bs, i), MergeHi(bs, i);
    MergeSpan(bs[..lo], bs[lo..hi], bs[hi..]);
    MidMeasures(0, bs, i);
  }

  lemma FreeAtGood(bs: seq<Block>, i: nat)
    requires i < |bs| && bs[i].used && GoodBlocks(bs)
    ensures GoodBlocks(FreeAt(bs, i))
  {
    hide Span, UsedBytes, FreePairs, ContentsFrom;
    var lo, hi := MergeLo(bs, i), MergeHi(bs, i);
    MidMeasures(0, bs, i);
    assert GoodBlock(bs[i]);
    assert GoodBlock(Merged(bs[lo..hi]));
  }

  lemma FreeContents(h: Heap, i: nat)
    requires Inv(h) && i < |h.blocks| && h.blocks[i].used
    ensures ContentsFrom(h.begin, FreeAt(h.blocks, i)) == Contents(h) - {PtrAt(h.begin, h.blocks, i)}
  {
    hide Span, UsedBytes, FreePairs, ContentsFrom;
    var bs := h.blocks;
    var lo, hi := MergeLo(bs, i), MergeHi(bs, i);
    var pre, mid, post := bs[..lo], bs[lo..hi], bs[hi..];
    assert bs == pre + mid + post;
    MidMeasures(h.begin, bs, i);
    OneBlock(h.begin + Span(pre), Merged(mid));
    ReplaceContents(h.begin, pre, mid, [Merged(mid)], post);
  }

  /** `free` of a live pointer takes away that pointer and nothing else, and creates no neighbouring free pair. */
  lemma FreeLaw(h: Heap, p: nat)
    requires Inv(h)
    ensures Inv(Free(h, p))
    ensures Contents(Free(h, p)) == Contents(h) - {p}
    ensures p in Contents(h) ==> UsedBytes(Free(h, p).blocks) + HEADER + |Contents(h)[p]| == UsedBytes(h.blocks)
    ensures FreePairs(Free(h, p).blocks) == FreePairs(h.blocks)
    ensures Last(Free(h, p)) == Last(h) && Free(h, p).begin == h.begin && Free(h, p).end == h.end
  {
    hide Span, UsedBytes, FreePairs, ContentsFrom;
    LiveIsContents(h, p);
    if Live(h, p) {
      FreeAtPairs(h.blocks, Find(h, p));
      FreeAtSpan(h.blocks, Find(h, p));
      FreeAtGood(h.blocks, Find(h, p));
      FreeContents(h, Find(h, p));
    }
  }

  // ---------------------------------------------------------------- client writes

  lemma UpdateAt(a: nat, bs: seq<Block>, i: nat, b: Block)
    requires i < |bs| && |b.data| == |bs[i].data| && b.used == bs[i].used
    ensures Span(bs[i := b]) == Span(bs) && UsedBytes(bs[i := b]) == UsedBytes(bs)
    ensures FreePairs(bs[i := b]) == FreePairs(bs)
    ensures b.used ==> ContentsFrom(a, bs[i := b]) == ContentsFrom(a, bs)[PtrAt(a, bs, i) := b.data]
  {
    hide Span, UsedBytes, FreePairs, ContentsFrom;
    var pre, post := bs[..i], bs[i + 1..];
    SplitAt(bs, i);
    assert bs[i := b] == pre + [b] + post;
    OneBlock(a + Span(pre), b);
    OneBlock(a + Span(pre), bs[i]);
    ReplaceSpan(pre, [bs[i]], [b], post);
    ReplacePairs(pre, [bs[i]], [b], post);
    ReplaceContents(a, pre, [bs[i]], [b], post);
  }

  lemma WriteLaw(h: Heap, p: nat, k: nat, s: seq<byte>)
    requires Inv(h)
    requires p in Contents(h) && k + |s| <= |Contents(h)[p]|
    ensures Inv(Write(h, p, k, s)) && Write(h, p, k, s).begin == h.begin && Write(h, p, k, s).end == h.end
    ensures Contents(Write(h, p, k, s)) == Contents(h)[p := Splice(Contents(h)[p], k, s)]
    ensures UsedBytes(Write(h, p, k, s).blocks) == UsedBytes(h.blocks)
    ensures FreePairs(Write(h, p, k, s).blocks) == FreePairs(h.blocks)
  {
    hide Span, UsedBytes, FreePairs, ContentsFrom;
    LiveIsContents(h, p);
    var i := Find(h, p);
    var b := h.blocks[i].(data := Splice(h.blocks[i].data, k, s));
    UpdateAt(h.begin, h.blocks, i, b);
    assert GoodBlock(h.blocks[i]);
  }

  // ---------------------------------------------------------------- realloc

  lemma ShrinkMeasures(h: Heap, i: nat, n: nat)
    requires Inv(h) && i < |h.blocks| && h.blocks[i].used && 0 < n && n % 16 == 0 && Splits(h.blocks[i], n)
    ensures var h' := h.(blocks := ShrinkAt(h.blocks, i, n));
      && Inv(h') && Last(h') == Last(h)
      && FreePairs(h'.blocks) <= FreePairs(h.blocks) + 1
      && UsedBytes(h'.blocks) + |h.blocks[i].data| == UsedBytes(h.blocks) + n
  {
    hide Span, UsedBytes, FreePairs, ContentsFrom;
    var b, pre, post := h.blocks[i], h.blocks[..i], h.blocks[i + 1..];
    var c, d := Block(true, b.data[..n]), Block(false, b.data[n + HEADER..]);
    assert GoodBlock(b);
    SplitAt(h.blocks, i);
    OneBlock(0, b);
    TwoBlocks(0, c, d);
    ReplaceSpan(pre, [b], [c, d], post);
    ReplaceGood(pre, [b], [c, d], post);
    ReplacePairs(pre, [b], [c, d], post);
  }

  lemma ShrinkContents(h: Heap, i: nat, n: nat)
    requires i < |h.blocks| && h.blocks[i].used && Splits(h.blocks[i], n)
    ensures ContentsFrom(h.begin, ShrinkAt(h.blocks, i, n))
         == Contents(h)[PtrAt(h.begin, h.blocks, i) := h.blocks[i].data[..n]]
  {
    hide Span, UsedBytes, FreePairs, ContentsFrom;
    var b, pre, post := h.blocks[i], h.blocks[..i], h.blocks[i + 1..];
    var c, d, a := Block(true, b.data[..n]), Block(false, b.data[n + HEADER..]), h.begin + Span(pre);
    SplitAt(h.blocks, i);
    OneBlock(a, b);
    OneBlock(a, c);
    OneBlock(a + Extent(c), d);
    TwoBlocks(a, c, d);
    ReplaceContents(h.begin, pre, [b], [c, d], post);
  }

  lemma ShrinkLaw(h: Heap, p: nat, n: nat)
    requires Inv(h) && Live(h, p) && 0 < n && n % 16 == 0
    ensures var i := Find(h, p); var h' := h.(blocks := ShrinkAt(h.blocks, i, n));
      && Inv(h') && Last(h') == Last(h) && p in Contents(h) && Contents(h)[p] == h.blocks[i].data
      && Contents(h') == Contents(h)[p := if Splits(h.blocks[i], n) then Contents(h)[p][..n] else Contents(h)[p]]
      && FreePairs(h'.blocks) <= FreePairs(h.blocks) + (if Splits(h.blocks[i], n) then 1 else 0)
      && UsedBytes(h'.blocks) + |Contents(h)[p]| == UsedBytes(h.blocks) + |Contents(h')[p]|
  {
    hide Span, UsedBytes, FreePairs, ContentsFrom;
    LiveIsContents(h, p);
    if Splits(h.blocks[Find(h, p)], n) {
      ShrinkMeasures(h, Find(h, p), n);
      ShrinkContents(h, Find(h, p), n);
    }
  }

  /**
   The counter update of the in-place split is right exactly for used blocks: `realloc` does not look at the
   status, so splitting a block that was freed takes its tail out of `memory_used` a second time.
   */
  lemma ShrinkCount(bs: seq<Block>, i: nat, n: nat)
    requires i < |bs| && Splits(bs[i], n)
    ensures UsedBytes(ShrinkAt(bs, i, n)) + (|bs[i].data| - n) == UsedBytes(bs) <==> bs[i].used
    ensures !bs[i].used ==> UsedBytes(ShrinkAt(bs, i, n)) == UsedBytes(bs)
    ensures Span(ShrinkAt(bs, i, n)) == Span(bs)
  {
    hide Span, UsedBytes, FreePairs, ContentsFrom;
    var b, pre, post := bs[i], bs[..i], bs[i + 1..];
    var c, d := Block(b.used, b.data[..n]), Block(false, b.data[n + HEADER..]);
    SplitAt(bs, i);
    OneBlock(0, b);
    TwoBlocks(0, c, d);
    ReplaceSpan(pre, [b], [c, d], post);
  }

  /** An in-place `realloc` that splits a free block off. */
  predicate SplitsInPlace(h: Heap, p: nat, size: nat) {
    p != 0 && 0 < size <= MAX_REQUEST && Live(h, p) && Splits(h.blocks[Find(h, p)], AlignUp(size))
  }

  /** The bytes `was`, cut or zero-extended to those of `now`. */
  ghost predicate Resized(was: seq<byte>, now: seq<byte>) {
    if |now| <= |was| then now == was[..|now|] else now == was + Zeros(|now| - |was|)
  }

  /** The bytes a client owns at `p`: none, unless `p` is live. */
  ghost function Owned(m: map<nat, seq<byte>>, p: nat): seq<byte> {
    if p in m then m[p] else []
  }

  /**
   `realloc` moves one client block: the other live payloads keep every byte, the moved one keeps its
   first bytes and grows by zeros, and a failed call leaves the heap as it was. A vacant pointer owns no bytes.
   A live block that is large enough stays in place; otherwise the call fails exactly if the heap has no room.
   */
  lemma ReallocLaw(h: Heap, p: nat, size: nat)
    requires Inv(h) && MayRealloc(h, p, size)
    ensures var (h', q) := Realloc(h, p, size);
      && Inv(h') && h'.begin == h.begin && h'.end == h.end
      && FreePairs(h'.blocks) <= FreePairs(h.blocks) + (if SplitsInPlace(h, p, size) then 1 else 0)
      && (q == 0 <==> p == 0 || size == 0 || size > 0x7FFF_FFF0
                      || (|Owned(Contents(h), p)| < AlignUp(size) && !Fits(h, AlignUp(size))))
      && (q != 0 && p in Contents(h) ==> (q == p <==> |Contents(h)[p]| >= AlignUp(size)))
      && (q == 0 ==> if p != 0 && size == 0 then Contents(h') == Contents(h) - {p} else h' == h)
      && (q != 0 ==>
            && p != 0 && q in Contents(h') && q % 16 == 0
            && q !in Contents(h) - {p}
            && Contents(h') == (Contents(h) - {p})[q := Contents(h')[q]]
            && AlignUp(size) <= |Contents(h')[q]| <= AlignUp(size) + 16
            && Resized(Owned(Contents(h), p), Contents(h')[q]))
  {
    hide Span, UsedBytes, FreePairs, ContentsFrom, Vacant, Clash, ShrinkAt, FreeAt, Malloc, Fits;
    LiveIsContents(h, p);
    FreeLaw(h, p);
    if p != 0 && 0 < size <= MAX_REQUEST {
      var n, i := AlignUp(size), Find(h, p);
      if !Live(h, p) {
        VacantRealloc(h, p, n);
      } else if |h.blocks[i].data| >= n {
        ShrinkLaw(h, p, n);
        PtrAligned(h, p);
      } else {
        GrowLaw(h, p, n);
      }
    }
  }

  lemma VacantRealloc(h: Heap, p: nat, n: nat)
    requires Inv(h) && p !in Contents(h) && 0 < n <= 0x7FFF_FFF0 && n % 16 == 0
    ensures var (h', q) := Malloc(h, n);
      && (q == 0 <==> !Fits(h, n))
      && Inv(h') && FreePairs(h'.blocks) <= FreePairs(h.blocks) && h'.begin == h.begin && h'.end == h.end
      && (q == 0 ==> h' == h)
      && (q != 0 ==>
            && q in Contents(h') && q % 16 == 0 && q !in Contents(h) - {p}
            && Contents(h') == (Contents(h) - {p})[q := Contents(h')[q]] && n <= |Contents(h')[q]| <= n + 16
            && Resized(Owned(Contents(h), p), Contents(h')[q]))
  {
    hide Span, UsedBytes, FreePairs, ContentsFrom, Malloc, Inv, Fits;
    assert AlignUp(n) == n;
    MallocLaw(h, n);
    assert Contents(h) - {p} == Contents(h);
  }

  lemma PtrAligned(h: Heap, p: nat)
    requires Inv(h) && Live(h, p)
    ensures p % 16 == 0 && p > 0
  {
    LiveIsContents(h, p);
    PtrAtAligned(h.begin, h.blocks, Find(h, p));
  }

  lemma GrowLaw(h: Heap, p: nat, n: nat)
    requires Inv(h) && p in Contents(h) && |Contents(h)[p]| < n <= MAX_REQUEST && n % 16 == 0
    ensures var (h1, q) := Malloc(h, n);
      && (q == 0 <==> !Fits(h, n))
      && (q == 0 ==> h1 == h)
      && (q != 0 ==> var h' := Free(Write(h1, q, 0, Contents(h)[p]), p);
            && Inv(h') && h'.begin == h.begin && h'.end == h.end && q % 16 == 0 && q !in Contents(h)
            && q in Contents(h') && n <= |Contents(h')[q]| <= n + 16
            && Contents(h') == (Contents(h) - {p})[q := Contents(h')[q]]
            && Resized(Contents(h)[p], Contents(h')[q])
            && FreePairs(h'.blocks) <= FreePairs(h.blocks))
  {
    hide Span, UsedBytes, FreePairs, ContentsFrom, Malloc, Write, Free, Live, Inv, Fits;
    assert AlignUp(n) == n;
    MallocLaw(h, n);
    var (h1, q) := Malloc(h, n);
    if q != 0 {
      var was, blank := Contents(h)[p], Contents(h1)[q];
      WriteLaw(h1, q, 0, was);
      FreeLaw(Write(h1, q, 0, was), p);
      assert Splice(blank, 0, was) == was + Zeros(|blank| - |was|);
    }
  }

  // ---------------------------------------------------------------- undo laws

  /** With no two free blocks in a row, `free` right after a `malloc` from a free block restores every header. */
  lemma UndoLaw(h: Heap, size: nat)
    requires Inv(h) && FreePairs(h.blocks) == 0 && Servable(h, size)
    requires FirstFit(h.blocks, AlignUp(size)) < |h.blocks|
    ensures var (h', p) := Malloc(h, size); Shape(Free(h', p).blocks) == Shape(h.blocks)
  {
    hide Span, UsedBytes, FreePairs, ContentsFrom, IndexOf, FreeAt, Shape;
    var n := AlignUp(size);
    var i := FirstFit(h.blocks, n);
    var pre, b, post := h.blocks[..i], h.blocks[i], h.blocks[i + 1..];
    var mid := Carve(b, n, |b.data|);
    var bs := pre + mid + post;
    assert Malloc(h, size).0 == h.(blocks := bs) && Malloc(h, size).1 == PtrAt(h.begin, h.blocks, i);
    assert |mid| > 0 && mid[0].used && GoodBlock(b);
    hide Malloc, Place, Carve, Splits;
    assert bs[..i] == pre && bs[i] == mid[0];
    IndexOfPtr(h.begin, bs, i);
    NeighboursUsed(h.blocks, i);
    RemergeShape(pre, b, post, n);
    assert h.blocks == pre + [b] + post;
  }

  /** Freeing what `Carve` took out of a free block between used neighbours gives the block back. */
  lemma RemergeShape(pre: seq<Block>, b: Block, post: seq<Block>, n: nat)
    requires !b.used && GoodBlock(b) && 0 < n <= |b.data| && n % 16 == 0
    requires |pre| > 0 ==> pre[|pre| - 1].used
    requires |post| > 0 ==> post[0].used
    ensures Shape(FreeAt(pre + Carve(b, n, |b.data|) + post, |pre|)) == Shape(pre + [b] + post)
  {
    hide Span, UsedBytes, FreePairs, ContentsFrom, Shape;
    var mid, i := Carve(b, n, |b.data|), |pre|;
    var bs := pre + mid + post;
    CarveMeasures(0, b, n, |b.data|);
    CarvedNeighbours(pre, mid, post);
    hide Carve, MergeLo, MergeHi;
    assert FreeAt(bs, i) == pre + [Merged(mid)] + post;
    SameShape(pre, b, Merged(mid), post);
  }

  lemma SameShape(pre: seq<Block>, b: Block, c: Block, post: seq<Block>)
    requires b.used == c.used && |b.data| == |c.data|
    ensures Shape(pre + [c] + post) == Shape(pre + [b] + post)
  {
  }

  /** A used block and its free rest between used neighbours are exactly what `free` merges. */
  lemma CarvedNeighbours(pre: seq<Block>, mid: seq<Block>, post: seq<Block>)
    requires |pre| > 0 ==> pre[|pre| - 1].used
    requires |post| > 0 ==> post[0].used
    requires 1 <= |mid| <= 2 && (|mid| == 2 ==> !mid[1].used)
    ensures var bs, i := pre + mid + post, |pre|;
      && MergeLo(bs, i) == i && MergeHi(bs, i) == i + |mid|
      && bs[..i] == pre && bs[i..i + |mid|] == mid && bs[i + |mid|..] == post
  {
  }

  lemma NeighboursUsed(bs: seq<Block>, i: nat)
    requires i < |bs| && !bs[i].used && FreePairs(bs) == 0
    ensures i > 0 ==> bs[i - 1].used
    ensures i + 1 < |bs| ==> bs[i + 1].used
  {
    SplitAt(bs, i);
    PairsThree(bs[..i], [bs[i]], bs[i + 1..]);
  }

  /** Freeing the same pointer twice in a row is freeing it once. */
  lemma FreeTwice(h: Heap, p: nat)
    requires Inv(h)
    ensures Free(Free(h, p), p) == Free(h, p)
  {
    FreeLaw(h, p);
    LiveIsContents(Free(h, p), p);
  }

  /** Live payloads lie inside the used range and overlap no other payload and no header of a live block. */
  lemma {:induction false} Separation(a: nat, bs: seq<Block>, p: nat, q: nat)
    requires p in ContentsFrom(a, bs) && q in ContentsFrom(a, bs) && p < q
    ensures a + HEADER <= p && p + |ContentsFrom(a, bs)[p]| + HEADER <= q
    ensures q + |ContentsFrom(a, bs)[q]| <= a + Span(bs)
    decreases bs
  {
    ContentsBounds(a, bs);
    ContentsBounds(a + Extent(bs[0]), bs[1..]);
    if p != a + HEADER {
      Separation(a + Extent(bs[0]), bs[1..], p, q);
    }
  }
}
