/** Whole runs of allocator calls and client stores, from any heap that satisfies the invariant. */
module HeapRuns {
  import opened Bytes
  import opened Blocks
  import opened BlockFacts
  import opened HeapLaws
  import opened Vacancy

  datatype Call =
    | MallocCall(size: nat)
    | CallocCall(amount: nat, size: nat)
    | FreeCall(p: nat)
    | ReallocCall(p: nat, size: nat)
    | Store(p: nat, k: nat, s: seq<byte>)

  /**
   The discipline of the callers: pointers are null, live, or freed and not taken again; `realloc` of a freed
   pointer also avoids the clash; stores stay inside the payload.
   */
  ghost predicate Allowed(h: Heap, c: Call) {
    match c
    case MallocCall(_) => true
    case CallocCall(_, _) => true
    case FreeCall(p) => p == 0 || Live(h, p) || Vacant(h, p)
    case ReallocCall(p, size) => (p == 0 || Live(h, p) || Vacant(h, p)) && MayRealloc(h, p, size)
    case Store(p, k, s) => Live(h, p) && k + |s| <= |h.blocks[Find(h, p)].data|
  }

  /** The new heap and the returned pointer (0 where nothing is returned). */
  function Apply(h: Heap, c: Call): (Heap, nat)
    requires Allowed(h, c)
  {
    match c
    case MallocCall(size) => Malloc(h, size)
    case CallocCall(amount, size) => Calloc(h, amount, size)
    case FreeCall(p) => (Free(h, p), 0)
    case ReallocCall(p, size) => Realloc(h, p, size)
    case Store(p, k, s) => (Write(h, p, k, s), 0)
  }

  ghost predicate AllowedRun(h: Heap, cs: seq<Call>)
    decreases cs
  {
    |cs| > 0 ==> Allowed(h, cs[0]) && AllowedRun(Apply(h, cs[0]).0, cs[1..])
  }

  function Run(h: Heap, cs: seq<Call>): Heap
    requires AllowedRun(h, cs)
    decreases cs
  {
    if |cs| == 0 then h else Run(Apply(h, cs[0]).0, cs[1..])
  }

  /** How many calls of the run were in-place shrinks that split a block. */
  function Shrinks(h: Heap, cs: seq<Call>): nat
    requires AllowedRun(h, cs)
    decreases cs
  {
    if |cs| == 0 then 0
    else
      (if cs[0].ReallocCall? && SplitsInPlace(h, cs[0].p, cs[0].size) then 1 else 0)
      + Shrinks(Apply(h, cs[0]).0, cs[1..])
  }

  /** A request that is refused whatever the heap looks like, or that finds no room. */
  ghost predicate Refused(size: nat, fits: nat -> bool) {
    size == 0 || size > 0x7FFF_FFF0 || !fits(AlignUp(size))
  }

  /** A payload of `size` bytes, rounded up, or 16 bytes more. */
  predicate SizedFor(data: seq<byte>, size: nat) {
    AlignUp(size) <= |data| <= AlignUp(size) + 16
  }

  /**
   The allocator as its clients see it: a finite map from pointers to bytes, and whether there is room for a number
   of bytes. A call returns null exactly if it is refused, or for want of room.
   */
  ghost predicate ClientStep(m: map<nat, seq<byte>>, fits: nat -> bool, c: Call, r: nat, m': map<nat, seq<byte>>) {
    match c
    case MallocCall(size) =>
      && (r == 0 <==> Refused(size, fits))
      && if r == 0 then m' == m
         else r !in m && r % 16 == 0 && r in m' && m' == m[r := m'[r]]
              && SizedFor(m'[r], size) && m'[r] == Zeros(|m'[r]|)
    case CallocCall(amount, size) =>
      && (r == 0 <==> Refused(amount * size, fits))
      && if r == 0 then m' == m
         else r !in m && r % 16 == 0 && r in m' && m' == m[r := m'[r]]
              && SizedFor(m'[r], amount * size) && m'[r][..amount * size] == Zeros(amount * size)
    case FreeCall(p) => m' == m - {p}
    case ReallocCall(p, size) =>
      && (r == 0 <==> p == 0 || size == 0 || size > 0x7FFF_FFF0
                      || (|Owned(m, p)| < AlignUp(size) && !fits(AlignUp(size))))
      && (r != 0 && p in m ==> (r == p <==> |m[p]| >= AlignUp(size)))
      && if r == 0 then m' == if size == 0 then m - {p} else m
         else r !in m - {p} && r % 16 == 0 && r in m' && m' == (m - {p})[r := m'[r]]
              && SizedFor(m'[r], size) && Resized(Owned(m, p), m'[r])
    case Store(p, k, s) => p in m && k + |s| <= |m[p]| && m' == m[p := Splice(m[p], k, s)]
  }

  /** Every call keeps the invariant and is a step of the client's map. */
  lemma StepRefines(h: Heap, c: Call)
    requires Inv(h) && Allowed(h, c)
    ensures var (h', r) := Apply(h, c);
      && Inv(h')
      && ClientStep(Contents(h), (n: nat) => Fits(h, n), c, r, Contents(h'))
      && FreePairs(h'.blocks)
           <= FreePairs(h.blocks) + (if c.ReallocCall? && SplitsInPlace(h, c.p, c.size) then 1 else 0)
      && h'.begin == h.begin && h'.end == h.end
  {
    hide Span, UsedBytes, FreePairs, ContentsFrom, Calloc, Inv, Shape, Malloc, Free, Realloc, Write, Vacant, Resized, Fits;
    match c
    case MallocCall(size) => MallocLaw(h, size);
    case CallocCall(amount, size) => CallocStep(h, amount, size);
    case FreeCall(p) => FreeLaw(h, p);
    case ReallocCall(p, size) =>
      ReallocLaw(h, p, size);
      NullIsNotLive(h);
    case Store(p, k, s) =>
      LiveIsContents(h, p);
      WriteLaw(h, p, k, s);
  }

  lemma CutZeros(s: seq<byte>, m: nat, n: nat)
    requires n <= m <= |s| && s[..m] == Zeros(m)
    ensures s[..n] == Zeros(n)
  {
    assert s[..n] == s[..m][..n];
  }

  lemma CallocStep(h: Heap, amount: nat, size: nat)
    requires Inv(h)
    ensures var (h', r) := Calloc(h, amount, size);
      && Inv(h') && FreePairs(h'.blocks) <= FreePairs(h.blocks)
      && h'.begin == h.begin && h'.end == h.end
      && ClientStep(Contents(h), (n: nat) => Fits(h, n), CallocCall(amount, size), r, Contents(h'))
  {
    hide Span, UsedBytes, FreePairs, ContentsFrom, Calloc, Inv, Shape, Malloc, Fits;
    CallocLaw(h, amount, size);
    var (h', r) := Calloc(h, amount, size);
    assert h'.begin == h.begin && h'.end == h.end;
    if r != 0 {
      CutZeros(Contents(h')[r], AlignUp(amount * size), amount * size);
    }
  }

  lemma NullIsNotLive(h: Heap)
    ensures 0 !in Contents(h) && Contents(h) - {0} == Contents(h)
  {
    ContentsBounds(h.begin, h.blocks);
  }

  /**
   After any run: block sizes are positive multiples of 16, the blocks end below `end`, and there are at most
   as many neighbouring free pairs as there were in-place shrinks.
   */
  lemma {:induction false} RunKeeps(h: Heap, cs: seq<Call>)
    requires Inv(h) && AllowedRun(h, cs)
    ensures Inv(Run(h, cs))
    ensures FreePairs(Run(h, cs).blocks) <= FreePairs(h.blocks) + Shrinks(h, cs)
    ensures Run(h, cs).begin == h.begin && Run(h, cs).end == h.end
    decreases cs
  {
    if |cs| > 0 {
      StepRefines(h, cs[0]);
      RunKeeps(Apply(h, cs[0]).0, cs[1..]);
    }
  }

  /** The pointer whose bytes the call may change or release. */
  predicate Touches(c: Call, p: nat) {
    match c
    case FreeCall(q) => q == p
    case ReallocCall(q, _) => q == p
    case Store(q, _, _) => q == p
    case _ => false
  }

  /** A payload that no call of the run names keeps its place and every byte. */
  lemma {:induction false} RunFrames(h: Heap, cs: seq<Call>, p: nat)
    requires Inv(h) && AllowedRun(h, cs) && p in Contents(h)
    requires forall i :: 0 <= i < |cs| ==> !Touches(cs[i], p)
    ensures p in Contents(Run(h, cs)) && Contents(Run(h, cs))[p] == Contents(h)[p]
    decreases cs
  {
    if |cs| > 0 {
      StepRefines(h, cs[0]);
      assert !Touches(cs[0], p);
      RunFrames(Apply(h, cs[0]).0, cs[1..], p);
    }
  }

  lemma AllFreeOneBlock(bs: seq<Block>)
    requires FreePairs(bs) == 0 && forall i :: 0 <= i < |bs| ==> !bs[i].used
    ensures |bs| <= 1
  {
  }

  /** A run from the empty heap without in-place shrinks that has released everything leaves at most one block. */
  lemma AllReleased(h: Heap, cs: seq<Call>)
    requires Inv(h) && |h.blocks| == 0 && AllowedRun(h, cs) && Shrinks(h, cs) == 0
    requires Contents(Run(h, cs)) == map[]
    ensures var bs := Run(h, cs).blocks;
      |bs| <= 1 && (|bs| == 1 ==> !bs[0].used && Extent(bs[0]) == Span(bs))
  {
    RunKeeps(h, cs);
    var h' := Run(h, cs);
    forall i | 0 <= i < |h'.blocks|
      ensures !h'.blocks[i].used
    {
      IndexOfPtr(h'.begin, h'.blocks, i);
      ContentsIndex(h'.begin, h'.blocks, PtrAt(h'.begin, h'.blocks, i));
    }
    AllFreeOneBlock(h'.blocks);
  }

  // ---------------------------------------------------------------- freed pointers in runs

  /**
   A freed pointer may be freed again, which changes nothing. It may be given to `realloc` for a new size exactly
   if the two failing shapes of the heap before the `free` are absent.
   */
  lemma FreedInRuns(h: Heap, p: nat, size: nat)
    requires Inv(h) && Live(h, p) && 0 < size <= MAX_REQUEST
    ensures var h' := Apply(h, FreeCall(p)).0;
      && Allowed(h', FreeCall(p)) && Apply(h', FreeCall(p)).0 == h'
      && Allowed(h', ReallocCall(p, 0)) && Apply(h', ReallocCall(p, 0)).0 == h'
    ensures var bs, i, n, h' := h.blocks, Find(h, p), AlignUp(size), Apply(h, FreeCall(p)).0;
      var s := Span(bs[i..MergeHi(bs, i)]) - HEADER;
      Allowed(h', ReallocCall(p, size)) <==>
        && !(MergeLo(bs, i) == i && s >= n)
        && !(MergeLo(bs, i) == i - 1 && FirstFit(h'.blocks, n) == i - 1 && n == |bs[i - 1].data| && s > n)
  {
    hide Span, UsedBytes, IndexOf, FreeAt, Clash, Vacant, MergeHi, FirstFit;
    FreedIsVacant(h, p);
    VacantNotLive(Free(h, p), p);
    ClashBeforeFree(h, p, AlignUp(size));
  }

  lemma RunCons(h: Heap, c: Call, cs: seq<Call>)
    requires Allowed(h, c) && AllowedRun(Apply(h, c).0, cs)
    ensures AllowedRun(h, [c] + cs) && Run(h, [c] + cs) == Run(Apply(h, c).0, cs)
    ensures Shrinks(h, [c] + cs)
         == (if c.ReallocCall? && SplitsInPlace(h, c.p, c.size) then 1 else 0) + Shrinks(Apply(h, c).0, cs)
  {
    hide Apply, SplitsInPlace, Allowed;
    assert ([c] + cs)[1..] == cs;
  }

  lemma RunOne(h: Heap, c: Call)
    requires Allowed(h, c)
    ensures AllowedRun(h, [c]) && Run(h, [c]) == Apply(h, c).0
    ensures Shrinks(h, [c]) == if c.ReallocCall? && SplitsInPlace(h, c.p, c.size) then 1 else 0
  {
    hide Apply, SplitsInPlace, Allowed;
    var rest := [c][1..];
    assert |rest| == 0;
    assert AllowedRun(Apply(h, c).0, rest) && Run(Apply(h, c).0, rest) == Apply(h, c).0;
  }

  /** Without free blocks, `malloc` appends. */
  lemma AppendStep(h: Heap, size: nat)
    requires Servable(h, size) && size % 16 == 0 && Last(h) + size + HEADER < h.end
    requires forall i :: 0 <= i < |h.blocks| ==> h.blocks[i].used
    ensures Malloc(h, size).0 == h.(blocks := h.blocks + [Block(true, Zeros(size))])
    ensures Malloc(h, size).1 == Last(h) + HEADER
  {
    assert AlignUp(size) == size;
  }

  function Used(n: nat): Block {
    Block(true, Zeros(n))
  }

  function Unused(n: nat): Block {
    Block(false, Zeros(n))
  }

  lemma EmptyStep(h: Heap, size: nat)
    requires 0 < h.begin && |h.blocks| == 0 && 0 < size <= MAX_REQUEST && size % 16 == 0
    requires h.begin + size + HEADER < h.end
    ensures Malloc(h, size).0 == h.(blocks := [Used(size)]) && Malloc(h, size).1 == h.begin + HEADER
  {
    AppendStep(h, size);
    assert h.blocks + [Used(size)] == [Used(size)];
  }

  /** The first two calls of both runs below. */
  lemma TwoAllocated(h: Heap, m: nat, n: nat)
    requires 0 < h.begin && |h.blocks| == 0 && 0 < m <= MAX_REQUEST && m % 16 == 0
    requires 0 < n <= MAX_REQUEST && n % 16 == 0 && h.begin + m + n + 2 * HEADER < h.end
    ensures var h1 := Malloc(h, m).0;
      && Malloc(h1, n).0 == h.(blocks := [Used(m), Used(n)]) && Malloc(h1, n).1 == h.begin + m + 2 * HEADER
  {
    EmptyStep(h, m);
    var h1 := Malloc(h, m).0;
    OneBlock(0, Used(m));
    AppendStep(h1, n);
    assert [Used(m)] + [Used(n)] == [Used(m), Used(n)];
  }

  /** Where the payloads of a short list are. */
  lemma ShortFind(a: nat, bs: seq<Block>)
    requires |bs| > 0
    ensures IndexOf(a, bs, a + HEADER) == 0
    ensures |bs| > 1 ==> IndexOf(a, bs, a + HEADER + Extent(bs[0])) == 1
  {
    assert bs[..0] == [] && (|bs| > 1 ==> bs[..1] == [bs[0]]);
    OneBlock(0, bs[0]);
    IndexOfPtr(a, bs, 0);
    if |bs| > 1 {
      IndexOfPtr(a, bs, 1);
    }
  }

  /** `free` of the first of three used blocks. */
  lemma FreeFirst(h: Heap, l: nat, m: nat, n: nat)
    requires h.blocks == [Used(l), Used(m), Used(n)]
    ensures Live(h, h.begin + HEADER)
    ensures Free(h, h.begin + HEADER) == h.(blocks := [Unused(l), Used(m), Used(n)])
  {
    ShortFind(h.begin, h.blocks);
    var bs := h.blocks;
    OneBlock(0, bs[0]);
    assert bs[0..1] == [bs[0]] && bs[..0] == [] && bs[1..] == [Used(m), Used(n)];
  }

  /** `free` of the block behind a free one. */
  lemma FreeSecond(h: Heap, l: nat, m: nat, n: nat)
    requires h.blocks == [Unused(l), Used(m), Used(n)]
    ensures Live(h, h.begin + 2 * HEADER + l)
    ensures Free(h, h.begin + 2 * HEADER + l) == h.(blocks := [Unused(l + HEADER + m), Used(n)])
  {
    ShortFind(h.begin, h.blocks);
    var bs := h.blocks;
    TwoBlocks(0, bs[0], bs[1]);
    assert bs[0..2] == [bs[0], bs[1]] && bs[..0] == [] && bs[2..] == [Used(n)];
  }

  lemma MergedClash(h: Heap, l: nat, m: nat, n: nat)
    requires Inv(h) && h.blocks == [Unused(l + HEADER + m), Used(n)] && l % 16 == 0 && l < m
    ensures var x := h.begin + 2 * HEADER + l; Vacant(h, x) && Clash(h, x, l)
  {
    hide IndexOf;
    assert h.blocks[..0] == [];
    assert FirstFit(h.blocks, l) == 0;
    assert VacantAt(h, h.begin + 2 * HEADER + l, 0);
  }

  /**
   A failing run: in every empty heap with room, three blocks of 32, 64 and 16 bytes are allocated and the first two
   freed; then `realloc` of the second to 32 bytes clashes.
   */
  lemma ClashRun(h: Heap)
    requires Inv(h) && |h.blocks| == 0 && 0 < h.begin && h.begin + 160 < h.end
    ensures var a, x := h.begin + 16, h.begin + 64;
      var cs := [MallocCall(32), MallocCall(64), MallocCall(16), FreeCall(a), FreeCall(x)];
      && AllowedRun(h, cs)
      && Vacant(Run(h, cs), x) && Clash(Run(h, cs), x, 32) && !Allowed(Run(h, cs), ReallocCall(x, 32))
  {
    hide IndexOf, Span, FreeAt, Vacant, Clash, Malloc, Free, Run, AllowedRun, Apply, Shrinks, UsedBytes, FreePairs;
    hide ContentsFrom, Live;
    var h1 := Malloc(h, 32).0;
    var h2 := Malloc(h1, 64).0;
    TwoAllocated(h, 32, 64);
    TwoBlocks(0, Used(32), Used(64));
    AppendStep(h2, 16);
    var h3 := Malloc(h2, 16).0;
    assert [Used(32), Used(64)] + [Used(16)] == [Used(32), Used(64), Used(16)];
    FreeFirst(h3, 32, 64, 16);
    var h4 := Free(h3, h.begin + 16);
    FreeSecond(h4, 32, 64, 16);
    var h5 := Free(h4, h.begin + 64);
    ClashCalls(h, h1, h2, h3, h4);
    RunKeeps(h, [MallocCall(32), MallocCall(64), MallocCall(16), FreeCall(h.begin + 16), FreeCall(h.begin + 64)]);
    MergedClash(h5, 32, 64, 16);
    VacantNotLive(h5, h.begin + 64);
  }

  lemma ClashCalls(h: Heap, h1: Heap, h2: Heap, h3: Heap, h4: Heap)
    requires h1 == Malloc(h, 32).0 && h2 == Malloc(h1, 64).0 && h3 == Malloc(h2, 16).0
    requires h4 == Free(h3, h.begin + 16) && Live(h3, h.begin + 16) && Live(h4, h.begin + 64)
    ensures var cs := [MallocCall(32), MallocCall(64), MallocCall(16), FreeCall(h.begin + 16), FreeCall(h.begin + 64)];
      AllowedRun(h, cs) && Run(h, cs) == Free(h4, h.begin + 64)
  {
    hide IndexOf, Malloc, Free, Live, Run, AllowedRun, Shrinks;
    var a, x := FreeCall(h.begin + 16), FreeCall(h.begin + 64);
    RunOne(h4, x);
    RunCons(h3, a, [x]);
    RunCons(h2, MallocCall(16), [a] + [x]);
    RunCons(h1, MallocCall(64), [MallocCall(16)] + ([a] + [x]));
    RunCons(h, MallocCall(32), [MallocCall(64)] + ([MallocCall(16)] + ([a] + [x])));
    assert [MallocCall(32)] + ([MallocCall(64)] + ([MallocCall(16)] + ([a] + [x])))
        == [MallocCall(32), MallocCall(64), MallocCall(16), a, x];
  }

  // ---------------------------------------------------------------- shrinking leaves neighbours unmerged

  lemma FreeLast(h: Heap, m: nat, n: nat)
    requires h.blocks == [Used(m), Used(n)]
    ensures Live(h, h.begin + 2 * HEADER + m)
    ensures Free(h, h.begin + 2 * HEADER + m) == h.(blocks := [Used(m), Unused(n)])
  {
    ShortFind(h.begin, h.blocks);
    var bs := h.blocks;
    OneBlock(0, bs[1]);
    assert bs[1..2] == [bs[1]] && bs[..1] == [bs[0]] && bs[2..] == [];
  }

  lemma ShrinkFirst(h: Heap)
    requires Inv(h) && h.blocks == [Used(64), Unused(16)]
    ensures var c := ReallocCall(h.begin + HEADER, 16);
      && Allowed(h, c) && SplitsInPlace(h, c.p, c.size)
      && FreePairs(h.blocks) == 0 && FreePairs(Apply(h, c).0.blocks) == 1
  {
    hide FreePairs, Span;
    ShortFind(h.begin, h.blocks);
    TwoBlocks(0, Used(64), Unused(16));
    var b, d := Block(true, Zeros(64)[..16]), Block(false, Zeros(64)[32..]);
    assert AlignUp(16) == 16;
    assert ShrinkAt(h.blocks, 0, 16) == [b] + [d, Unused(16)];
    PairsConcat([b], [d, Unused(16)]);
    TwoBlocks(0, d, Unused(16));
    OneBlock(0, b);
  }

  /**
   The bound of `RunKeeps` is reached: in every empty heap with room there is a run with one in-place shrink that
   ends with two free blocks in a row.
   */
  lemma ShrinkMakesPair(h: Heap)
    requires Inv(h) && |h.blocks| == 0 && 0 < h.begin && h.begin + 112 < h.end
    ensures var cs := [MallocCall(64), MallocCall(16), FreeCall(h.begin + 96), ReallocCall(h.begin + 16, 16)];
      AllowedRun(h, cs) && Shrinks(h, cs) == 1 && FreePairs(h.blocks) == 0 && FreePairs(Run(h, cs).blocks) == 1
  {
    hide IndexOf, FreeAt, Vacant, Clash, Malloc, Free, Realloc, FreePairs, Run, AllowedRun, Shrinks, SplitsInPlace, Span;
    hide ContentsFrom, Live, UsedBytes;
    var h1 := Malloc(h, 64).0;
    var h2 := Malloc(h1, 16).0;
    TwoAllocated(h, 64, 16);
    FreeLast(h2, 64, 16);
    var h3 := Free(h2, h.begin + 96);
    var f, r := FreeCall(h.begin + 96), ReallocCall(h.begin + 16, 16);
    MallocLaw(h, 64);
    MallocLaw(h1, 16);
    FreeLaw(h2, h.begin + 96);
    ShrinkFirst(h3);
    RunOne(h3, r);
    RunCons(h2, f, [r]);
    RunCons(h1, MallocCall(16), [f] + [r]);
    RunCons(h, MallocCall(64), [MallocCall(16)] + ([f] + [r]));
    assert [MallocCall(64)] + ([MallocCall(16)] + ([f] + [r])) == [MallocCall(64), MallocCall(16), f, r];
    NoPairs(h.blocks);
  }

  lemma NoPairs(bs: seq<Block>)
    requires |bs| == 0
    ensures FreePairs(bs) == 0
  {
  }
}
