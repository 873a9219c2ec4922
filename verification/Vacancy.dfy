/** Freed pointers: where they point once their blocks are merged, and when `realloc` of one goes wrong. */
module Vacancy {
  import opened Bytes
  import opened Blocks
  import opened BlockFacts
  import opened HeapLaws

  /** The payload of block `i` ends before the header of any later block `j`. */
  lemma Before(a: nat, bs: seq<Block>, i: nat, j: nat)
    requires i < j < |bs|
    ensures PtrAt(a, bs, i) + |bs[i].data| + HEADER <= PtrAt(a, bs, j)
  {
    hide Span, UsedBytes;
    PrefixStep(bs, i);
    if i + 1 < j {
      SpanMono(bs, i + 1, j);
    }
  }

  /** No header, of a used or a free block, overlaps a live payload. */
  lemma HeadersApart(h: Heap, p: nat, j: nat)
    requires p in Contents(h) && j < |h.blocks|
    ensures var header := h.begin + Span(h.blocks[..j]);
      header + HEADER <= p || p + |Contents(h)[p]| <= header
  {
    hide Span, UsedBytes, ContentsFrom;
    LiveIsContents(h, p);
    var i := Find(h, p);
    if i < j {
      Before(h.begin, h.blocks, i, j);
    } else if j < i {
      Before(h.begin, h.blocks, j, i);
    }
  }

  /** A place inside a payload, or at its end, belongs to one block only. */
  lemma InsideUnique(a: nat, bs: seq<Block>, i: nat, j: nat, p: nat)
    requires i < |bs| && j < |bs|
    requires PtrAt(a, bs, i) <= p <= PtrAt(a, bs, i) + |bs[i].data|
    requires PtrAt(a, bs, j) <= p <= PtrAt(a, bs, j) + |bs[j].data|
    ensures i == j
  {
    hide Span, PtrAt;
    if i < j {
      Before(a, bs, i, j);
    } else if j < i {
      Before(a, bs, j, i);
    }
  }

  lemma BlankFind(h: Heap, p: nat, k: nat)
    requires k < |h.blocks| && BlankAt(h, p, k)
    ensures Find(h, p) == if p == PtrAt(h.begin, h.blocks, k) then k else |h.blocks|
  {
    hide Span, PtrAt, IndexOf;
    var i := Find(h, p);
    IndexOfPtr(h.begin, h.blocks, k);
    IndexOfSound(h.begin, h.blocks, p);
    if i < |h.blocks| {
      InsideUnique(h.begin, h.blocks, i, k, p);
    }
  }

  lemma VacantNotLive(h: Heap, p: nat)
    requires Vacant(h, p)
    ensures !Live(h, p) && Free(h, p) == h && p != 0
  {
    hide Span, IndexOf, BlankAt;
    var k: nat :| VacantAt(h, p, k);
    BlankFind(h, p, k);
    BlankNotNull(h, p, k);
  }

  lemma BlankNotNull(h: Heap, p: nat, k: nat)
    requires k < |h.blocks| && BlankAt(h, p, k)
    ensures p >= HEADER
  {
  }

  // ---------------------------------------------------------------- right after free

  /** The list around the merged block. */
  lemma FreedPlace(bs: seq<Block>, i: nat)
    requires i < |bs|
    ensures var lo, fs := MergeLo(bs, i), FreeAt(bs, i);
      && lo < |fs| && fs[..lo] == bs[..lo] && fs[lo] == Merged(bs[lo..MergeHi(bs, i)])
  {
    hide Span;
  }

  lemma MergedData(bs: seq<Block>)
    requires |bs| > 0 && Span(bs) >= HEADER
    ensures Merged(bs).data == Zeros(Span(bs) - HEADER) && !Merged(bs).used
  {
  }

  /** A pointer that was just freed is vacant. */
  lemma FreedIsVacant(h: Heap, p: nat)
    requires Inv(h) && Live(h, p)
    ensures VacantAt(Free(h, p), p, MergeLo(h.blocks, Find(h, p)))
    ensures Vacant(Free(h, p), p)
  {
    hide Span, UsedBytes, IndexOf, FreeAt, Merged, MergeHi;
    var bs, i := h.blocks, Find(h, p);
    var lo, hi := MergeLo(bs, i), MergeHi(bs, i);
    IndexOfSound(h.begin, bs, p);
    FreedPlace(bs, i);
    MergedExtent(bs, i);
    assert lo <= i < hi <= |bs| by { MergeParts(bs, i); }
    MergedData(bs[lo..hi]);
    PtrAtAligned(h.begin, bs, i);
    PtrAtAligned(h.begin, bs, lo);
    assert PtrAt(h.begin, FreeAt(bs, i), lo) == PtrAt(h.begin, bs, lo);
  }

  /**
   When `realloc` of the pointer just freed goes wrong, in terms of the heap before the `free`: the block, merged
   with a free successor, stands alone and is large enough; or it was merged into a predecessor of exactly the new
   size that is now the first fit, and it was larger than that.
   */
  lemma ClashBeforeFree(h: Heap, p: nat, n: nat)
    requires Inv(h) && Live(h, p)
    ensures var bs, i := h.blocks, Find(h, p);
      var lo, s := MergeLo(bs, i), Span(bs[i..MergeHi(bs, i)]) - HEADER;
      Clash(Free(h, p), p, n) <==>
        || (lo == i && s >= n)
        || (lo == i - 1 && FirstFit(Free(h, p).blocks, n) == lo && n == |bs[lo].data| && s > n)
  {
    hide Span, UsedBytes, IndexOf, FreeAt, Merged, MergeHi, FirstFit, BlankAt;
    var bs, i := h.blocks, Find(h, p);
    var lo, hi := MergeLo(bs, i), MergeHi(bs, i);
    var fs := FreeAt(bs, i);
    var h', j := Free(h, p), FirstFit(fs, n);
    IndexOfSound(h.begin, bs, p);
    FreedPlace(bs, i);
    MergedExtent(bs, i);
    assert lo <= i < hi <= |bs| by { MergeParts(bs, i); }
    MergedData(bs[lo..hi]);
    FreedIsVacant(h, p);
    BlankFind(h', p, lo);
    assert PtrAt(h.begin, fs, lo) == PtrAt(h.begin, bs, lo);
    if j < |fs| && p == PtrAt(h.begin, fs, j) + n + HEADER && |fs[j].data| > n + HEADER + n {
      InsideUnique(h.begin, fs, j, lo, p);
    }
  }

  // ---------------------------------------------------------------- right after the inner malloc

  /** The parts of the list after a free block was taken. */
  lemma PlacedParts(h: Heap, n: nat)
    requires Inv(h) && 0 < n && n % 16 == 0 && FirstFit(h.blocks, n) < |h.blocks|
    ensures var j := FirstFit(h.blocks, n); var b := h.blocks[j]; var mid := Carve(b, n, |b.data|);
      && h.blocks == h.blocks[..j] + [b] + h.blocks[j + 1..]
      && Place(h, n, true).0 == h.(blocks := h.blocks[..j] + mid + h.blocks[j + 1..])
      && 1 <= |mid| <= 2 && Span(mid) == Span([b]) && GoodBlock(b)
  {
    hide Span, UsedBytes, FreePairs, ContentsFrom;
    var b := h.blocks[FirstFit(h.blocks, n)];
    assert GoodBlock(b);
    CarveMeasures(0, b, n, |b.data|);
    OneBlock(0, b);
  }

  lemma NotShifted(pre: seq<Block>, mid: seq<Block>, mid2: seq<Block>, post: seq<Block>, k: nat)
    requires k <= |pre|
    ensures var was, now := pre + mid + post, pre + mid2 + post;
      now[..k] == was[..k] && (k < |pre| ==> now[k] == was[k])
  {
  }

  /** Replacing a block by a stretch of the same extent moves no later block. */
  lemma Shifted(pre: seq<Block>, b: Block, mid: seq<Block>, post: seq<Block>, k: nat)
    requires 1 <= |mid| && Span(mid) == Span([b]) && |pre| < k < |pre| + 1 + |post|
    ensures var was, now, k' := pre + [b] + post, pre + mid + post, k + |mid| - 1;
      && k' < |now| && now[k'] == was[k] && Span(now[..k']) == Span(was[..k])
  {
    hide Span, UsedBytes;
    var part := post[..k - |pre| - 1];
    var was, now := pre + [b] + post, pre + mid + post;
    assert was[..k] == pre + [b] + part;
    assert now[..k + |mid| - 1] == pre + mid + part;
    ReplaceSpan(pre, [b], mid, part);
  }

  /** The blocks before the chosen one keep their places, and so do those behind it. */
  lemma PlacedPrefix(h: Heap, n: nat, k: nat)
    requires Inv(h) && 0 < n && n % 16 == 0 && FirstFit(h.blocks, n) < |h.blocks| && k < |h.blocks|
    ensures var j, h' := FirstFit(h.blocks, n), Place(h, n, true).0;
      var more := |h'.blocks| - |h.blocks|;
      && 0 <= more <= 1
      && (k <= j ==> h'.blocks[..k] == h.blocks[..k])
      && (k < j ==> h'.blocks[k] == h.blocks[k])
      && (k > j ==> h'.blocks[k + more] == h.blocks[k] && Span(h'.blocks[..k + more]) == Span(h.blocks[..k]))
  {
    hide Span, UsedBytes, FreePairs, ContentsFrom, Place, Carve;
    var j := FirstFit(h.blocks, n);
    PlacedParts(h, n);
    var b, pre, post := h.blocks[j], h.blocks[..j], h.blocks[j + 1..];
    var mid := Carve(b, n, |b.data|);
    assert |pre + mid + post| - |pre + [b] + post| == |mid| - 1;
    if k > j {
      Shifted(pre, b, mid, post, k);
    } else {
      NotShifted(pre, [b], mid, post, k);
    }
  }

  /** A vacant place in a block other than the chosen one is blank still. */
  lemma BlankElsewhere(h: Heap, p: nat, k: nat, n: nat) returns (k': nat)
    requires Inv(h) && VacantAt(h, p, k) && 0 < n && n % 16 == 0
    requires Place(h, n, true).1 != 0 && k != FirstFit(h.blocks, n)
    ensures var h' := Place(h, n, true).0;
      k' < |h'.blocks| && h'.blocks[k'] == h.blocks[k]
      && PtrAt(h'.begin, h'.blocks, k') == PtrAt(h.begin, h.blocks, k)
  {
    hide Span, UsedBytes, FreePairs, ContentsFrom, Carve, BlankAt;
    var h', j := Place(h, n, true).0, FirstFit(h.blocks, n);
    if j == |h.blocks| {
      k' := k;
      assert h'.blocks[..k] == h.blocks[..k];
    } else {
      PlacedPrefix(h, n, k);
      k' := if k < j then k else k + |h'.blocks| - |h.blocks|;
    }
  }

  /** A vacant place in the chosen block lies in the new payload, at its remainder, or inside that. */
  lemma BlankInside(h: Heap, p: nat, k: nat, n: nat) returns (k': nat)
    requires Inv(h) && VacantAt(h, p, k) && 0 < n && n % 16 == 0
    requires k == FirstFit(h.blocks, n) && p != PtrAt(h.begin, h.blocks, k)
    ensures var h' := Place(h, n, true).0;
      && k' < |h'.blocks| && BlankAt(h', p, k')
      && (p == PtrAt(h'.begin, h'.blocks, k') ==>
            p == PtrAt(h.begin, h.blocks, k) + n + HEADER && |h'.blocks[k'].data| == |h.blocks[k].data| - n - HEADER)
      && (p == PtrAt(h.begin, h.blocks, k) + n + HEADER && Splits(h.blocks[k], n) ==>
            p == PtrAt(h'.begin, h'.blocks, k'))
  {
    hide Span, UsedBytes, FreePairs, ContentsFrom;
    var h', b, start := Place(h, n, true).0, h.blocks[k], PtrAt(h.begin, h.blocks, k);
    PlacedPrefix(h, n, k);
    assert GoodBlock(b);
    if Splits(b, n) && p > start + n {
      k' := k + 1;
      PrefixStep(h'.blocks, k);
      assert b.data[n + HEADER..] == Zeros(|b.data| - n - HEADER);
      SixteenApart(start, n, p);
    } else {
      k' := k;
      assert Zeros(|b.data|) + b.data[|b.data|..] == Zeros(|b.data|);
    }
  }

  lemma SixteenApart(start: nat, n: nat, p: nat)
    requires p % 16 == start % 16 && n % 16 == 0 && p > start + n
    ensures p >= start + n + 16 && p % 16 == (start + n + HEADER) % 16
  {
  }

  /** After the inner `malloc` the header read through `p` is blank, and claims more than `n` bytes only in a clash. */
  lemma BlankAfterPlace(h: Heap, p: nat, k: nat, n: nat) returns (k': nat)
    requires Inv(h) && VacantAt(h, p, k) && 0 < n && n % 16 == 0 && Place(h, n, true).1 != 0
    requires p == PtrAt(h.begin, h.blocks, k) ==> |h.blocks[k].data| < n
    ensures var h' := Place(h, n, true).0;
      && k' < |h'.blocks| && BlankAt(h', p, k')
      && (Clash(h, p, n) <==> p == PtrAt(h'.begin, h'.blocks, k') && |h'.blocks[k'].data| > n)
  {
    hide Span, UsedBytes, FreePairs, ContentsFrom, Place, IndexOf, FirstFit, PtrAt;
    var j := FirstFit(h.blocks, n);
    BlankFind(h, p, k);
    if j < |h.blocks| && p == PtrAt(h.begin, h.blocks, j) + n + HEADER && |h.blocks[j].data| > n + HEADER + n {
      InsideUnique(h.begin, h.blocks, j, k, p);
    }
    if k == j {
      k' := BlankInside(h, p, k, n);
    } else {
      k' := BlankElsewhere(h, p, k, n);
    }
  }
}
