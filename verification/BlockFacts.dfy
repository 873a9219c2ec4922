/** How the measures of a block list behave when a stretch of it is replaced. */
module BlockFacts {
  import opened Bytes
  import opened Blocks

  lemma {:induction false} SpanConcat(x: seq<Block>, y: seq<Block>)
    ensures Span(x + y) == Span(x) + Span(y)
    ensures UsedBytes(x + y) == UsedBytes(x) + UsedBytes(y)
  {
    if |x| == 0 {
      assert x + y == y;
    } else {
      assert (x + y)[1..] == x[1..] + y;
      SpanConcat(x[1..], y);
    }
  }

  lemma SpanThree(x: seq<Block>, y: seq<Block>, z: seq<Block>)
    ensures Span(x + y + z) == Span(x) + Span(y) + Span(z)
    ensures UsedBytes(x + y + z) == UsedBytes(x) + UsedBytes(y) + UsedBytes(z)
  {
    hide Span, UsedBytes, ContentsFrom;
    SpanConcat(x + y, z);
    SpanConcat(x, y);
  }

  lemma {:induction false} SpanBounds(bs: seq<Block>)
    ensures UsedBytes(bs) <= Span(bs)
    ensures |bs| > 0 ==> Span(bs) >= HEADER
    ensures GoodBlocks(bs) ==> Span(bs) % 16 == 0
  {
    if |bs| > 0 {
      var b, rest := bs[0], bs[1..];
      assert Span(bs) == Extent(b) + Span(rest);
      assert UsedBytes(bs) == (if b.used then Extent(b) else 0) + UsedBytes(rest);
      hide Span, UsedBytes, GoodBlock;
      SpanBounds(rest);
      assert GoodBlocks(bs) ==> GoodBlock(b) && GoodBlocks(rest);
      GoodExtent(b);
    }
  }

  lemma GoodExtent(b: Block)
    ensures GoodBlock(b) ==> Extent(b) % 16 == 0
  {
  }

  /** Every live payload lies between the first header and the end of the blocks. */
  lemma {:induction false} PayloadBounds(a: nat, bs: seq<Block>, p: nat)
    requires p in ContentsFrom(a, bs)
    ensures a + HEADER <= p && p + |ContentsFrom(a, bs)[p]| <= a + Span(bs)
    decreases bs
  {
    if p in ContentsFrom(a + Extent(bs[0]), bs[1..]) {
      PayloadBounds(a + Extent(bs[0]), bs[1..], p);
    }
  }

  lemma ContentsBounds(a: nat, bs: seq<Block>)
    ensures forall p :: p in ContentsFrom(a, bs) ==>
      a + HEADER <= p && p + |ContentsFrom(a, bs)[p]| <= a + Span(bs)
  {
    forall p | p in ContentsFrom(a, bs)
      ensures a + HEADER <= p && p + |ContentsFrom(a, bs)[p]| <= a + Span(bs)
    {
      PayloadBounds(a, bs, p);
    }
  }

  lemma {:induction false} ContentsConcat(a: nat, x: seq<Block>, y: seq<Block>)
    ensures ContentsFrom(a, x + y) == ContentsFrom(a, x) + ContentsFrom(a + Span(x), y)
    decreases x
  {
    if |x| == 0 {
      assert x + y == y;
    } else {
      assert (x + y)[1..] == x[1..] + y;
      ContentsConcat(a + Extent(x[0]), x[1..], y);
      ContentsBounds(a + Span(x), y);
    }
  }

  lemma ContentsThree(a: nat, x: seq<Block>, y: seq<Block>, z: seq<Block>)
    ensures ContentsFrom(a, x + y + z)
         == ContentsFrom(a, x) + ContentsFrom(a + Span(x), y) + ContentsFrom(a + Span(x) + Span(y), z)
  {
    hide Span, UsedBytes, ContentsFrom;
    ContentsConcat(a, x + y, z);
    ContentsConcat(a, x, y);
    SpanConcat(x, y);
  }

  lemma {:induction false} PairsConcat(x: seq<Block>, y: seq<Block>)
    ensures FreePairs(x + y) == FreePairs(x) + FreePairs(y) + (if Joins(x, y) then 1 else 0)
  {
    if |x| == 0 {
      assert x + y == y;
    } else {
      assert (x + y)[1..] == x[1..] + y;
      PairsConcat(x[1..], y);
      assert Joins([x[0]], x[1..] + y) == if |x| == 1 then Joins(x, y) else Joins([x[0]], x[1..]);
      assert |x| > 1 ==> Joins(x, y) == Joins(x[1..], y);
    }
  }

  lemma PairsThree(x: seq<Block>, y: seq<Block>, z: seq<Block>)
    requires |y| > 0
    ensures FreePairs(x + y + z)
         == FreePairs(x) + FreePairs(y) + FreePairs(z)
            + (if Joins(x, y) then 1 else 0) + (if Joins(y, z) then 1 else 0)
  {
    hide FreePairs;
    PairsConcat(x + y, z);
    PairsConcat(x, y);
    assert (x + y)[|x + y| - 1] == y[|y| - 1];
  }

  lemma OneBlock(a: nat, b: Block)
    ensures Span([b]) == Extent(b) && FreePairs([b]) == 0
    ensures !b.used ==> UsedBytes([b]) == 0 && ContentsFrom(a, [b]) == map[]
    ensures b.used ==> UsedBytes([b]) == Extent(b) && ContentsFrom(a, [b]) == map[a + HEADER := b.data]
  {
    assert |[b][1..]| == 0;
  }

  lemma TwoBlocks(a: nat, b: Block, c: Block)
    ensures Span([b, c]) == Extent(b) + Extent(c)
    ensures UsedBytes([b, c]) == (if b.used then Extent(b) else 0) + (if c.used then Extent(c) else 0)
    ensures FreePairs([b, c]) == if !b.used && !c.used then 1 else 0
    ensures ContentsFrom(a, [b, c]) == ContentsFrom(a, [b]) + ContentsFrom(a + Extent(b), [c])
  {
    assert [b, c] == [b] + [c];
    OneBlock(a, b);
    OneBlock(a + Extent(b), c);
    SpanConcat([b], [c]);
    PairsConcat([b], [c]);
    ContentsConcat(a, [b], [c]);
  }

  lemma PrefixStep(bs: seq<Block>, i: nat)
    requires i < |bs|
    ensures Span(bs[..i + 1]) == Span(bs[..i]) + Extent(bs[i])
  {
    hide Span, UsedBytes;
    var pre, b := bs[..i], bs[i];
    assert bs[..i + 1] == pre + [b];
    OneBlock(0, b);
    SpanConcat(pre, [b]);
  }

  lemma SplitAt(bs: seq<Block>, i: nat)
    requires i < |bs|
    ensures bs == bs[..i] + [bs[i]] + bs[i + 1..]
    ensures Span(bs[..i]) + Extent(bs[i]) + Span(bs[i + 1..]) == Span(bs)
    ensures Span(bs[..i + 1]) == Span(bs[..i]) + Extent(bs[i])
  {
    hide Span, UsedBytes;
    var pre, b, post := bs[..i], bs[i], bs[i + 1..];
    assert bs == pre + [b] + post;
    OneBlock(0, b);
    SpanThree(pre, [b], post);
    PrefixStep(bs, i);
  }

  lemma {:induction false} SpanMono(bs: seq<Block>, i: nat, j: nat)
    requires i < j <= |bs|
    ensures Span(bs[..i]) + HEADER <= Span(bs[..j])
  {
    SplitAt(bs, j - 1);
    if i < j - 1 {
      SpanMono(bs, i, j - 1);
    }
  }

  lemma RestSpan(bs: seq<Block>)
    ensures Span(bs) > 0 <==> |bs| > 0
  {
  }

  lemma NextBlock(bs: seq<Block>, i: nat)
    requires i < |bs|
    ensures Span(bs[..i + 1]) == Span(bs[..i]) + Extent(bs[i])
    ensures Span(bs[..i + 1]) <= Span(bs)
    ensures Span(bs[..i + 1]) < Span(bs) <==> i + 1 < |bs|
    ensures Span(bs[i..i + 1]) == Extent(bs[i])
    ensures i + 1 < |bs| ==> Span(bs[i..i + 2]) == Extent(bs[i]) + Extent(bs[i + 1])
  {
    hide Span, UsedBytes, FreePairs, ContentsFrom;
    SplitAt(bs, i);
    RestSpan(bs[i + 1..]);
    assert bs[i..i + 1] == [bs[i]];
    OneBlock(0, bs[i]);
    if i + 1 < |bs| {
      assert bs[i..i + 2] == [bs[i], bs[i + 1]];
      TwoBlocks(0, bs[i], bs[i + 1]);
    }
  }

  lemma StretchSpan(bs: seq<Block>, lo: nat, hi: nat)
    requires lo <= hi <= |bs|
    ensures Span(bs[..hi]) == Span(bs[..lo]) + Span(bs[lo..hi])
  {
    assert bs[..hi] == bs[..lo] + bs[lo..hi];
    SpanConcat(bs[..lo], bs[lo..hi]);
  }

  lemma PrefixSpan(bs: seq<Block>, i: nat)
    requires i <= |bs|
    ensures Span(bs[..i]) <= Span(bs)
  {
    assert bs == bs[..i] + bs[i..];
    SpanConcat(bs[..i], bs[i..]);
  }

  /** Where the stretch that `free` merges starts and ends. */
  lemma MergedExtent(bs: seq<Block>, i: nat)
    requires i < |bs|
    ensures var lo, hi := MergeLo(bs, i), MergeHi(bs, i);
      && Span(bs[..i]) == Span(bs[..lo]) + Span(bs[lo..i])
      && Span(bs[lo..hi]) == Span(bs[lo..i]) + Span(bs[i..hi])
      && (lo < i ==> Span(bs[lo..i]) == Extent(bs[lo]))
      && (lo == i ==> Span(bs[lo..i]) == 0)
      && Span(bs[i..hi]) >= Extent(bs[i])
  {
    var lo, hi := MergeLo(bs, i), MergeHi(bs, i);
    StretchSpan(bs, lo, i);
    assert bs[lo..hi] == bs[lo..i] + bs[i..hi];
    SpanConcat(bs[lo..i], bs[i..hi]);
    NextBlock(bs, i);
    NextBlock(bs, lo);
  }

  // ---------------------------------------------------------------- replacing a stretch

  /** The stretch `mid` of `pre + mid + post` gives way to `mid2`, which covers the same bytes. */
  lemma ReplaceSpan(pre: seq<Block>, mid: seq<Block>, mid2: seq<Block>, post: seq<Block>)
    ensures Span(pre + mid2 + post) + Span(mid) == Span(pre + mid + post) + Span(mid2)
    ensures UsedBytes(pre + mid2 + post) + UsedBytes(mid) == UsedBytes(pre + mid + post) + UsedBytes(mid2)
  {
    hide Span, UsedBytes, ContentsFrom;
    SpanThree(pre, mid, post);
    SpanThree(pre, mid2, post);
  }

  lemma ReplacePairs(pre: seq<Block>, mid: seq<Block>, mid2: seq<Block>, post: seq<Block>)
    requires |mid| > 0 && |mid2| > 0
    ensures FreePairs(pre + mid2 + post) + FreePairs(mid)
              + (if Joins(pre, mid) then 1 else 0) + (if Joins(mid, post) then 1 else 0)
         == FreePairs(pre + mid + post) + FreePairs(mid2)
              + (if Joins(pre, mid2) then 1 else 0) + (if Joins(mid2, post) then 1 else 0)
  {
    hide FreePairs;
    PairsThree(pre, mid, post);
    PairsThree(pre, mid2, post);
  }

  lemma GoodConcat(x: seq<Block>, y: seq<Block>)
    ensures GoodBlocks(x + y) <==> GoodBlocks(x) && GoodBlocks(y)
  {
    if GoodBlocks(x + y) {
      assert forall i :: 0 <= i < |x| ==> x[i] == (x + y)[i];
      assert forall i :: 0 <= i < |y| ==> y[i] == (x + y)[|x| + i];
    }
  }

  lemma ReplaceGood(pre: seq<Block>, mid: seq<Block>, mid2: seq<Block>, post: seq<Block>)
    requires GoodBlocks(pre + mid + post) && GoodBlocks(mid2)
    ensures GoodBlocks(pre + mid2 + post) && GoodBlocks(mid)
  {
    GoodConcat(pre + mid, post);
    GoodConcat(pre, mid);
    GoodConcat(pre + mid2, post);
    GoodConcat(pre, mid2);
  }

  lemma ReplaceContents(a: nat, pre: seq<Block>, mid: seq<Block>, mid2: seq<Block>, post: seq<Block>)
    requires Span(mid) == Span(mid2)
    ensures var was, now := ContentsFrom(a + Span(pre), mid), ContentsFrom(a + Span(pre), mid2);
      && was.Keys <= ContentsFrom(a, pre + mid + post).Keys
      && now.Keys !! (ContentsFrom(a, pre + mid + post) - was.Keys).Keys
      && ContentsFrom(a, pre + mid2 + post) == (ContentsFrom(a, pre + mid + post) - was.Keys) + now
  {
    hide Span, UsedBytes, ContentsFrom;
    var lo := a + Span(pre);
    var hi := lo + Span(mid);
    ContentsThree(a, pre, mid, post);
    ContentsThree(a, pre, mid2, post);
    ContentsBounds(a, pre);
    ContentsBounds(lo, mid);
    ContentsBounds(lo, mid2);
    ContentsBounds(hi, post);
    DisjointMaps(ContentsFrom(a, pre), ContentsFrom(lo, mid), ContentsFrom(lo, mid2), ContentsFrom(hi, post), lo, hi);
  }

  lemma DisjointMaps(x: map<nat, seq<byte>>, y: map<nat, seq<byte>>, y2: map<nat, seq<byte>>,
                     z: map<nat, seq<byte>>, lo: nat, hi: nat)
    requires lo <= hi
    requires forall p :: p in x ==> p <= lo
    requires forall p :: p in y ==> lo < p <= hi
    requires forall p :: p in y2 ==> lo < p <= hi
    requires forall p :: p in z ==> hi < p
    ensures y.Keys <= (x + y + z).Keys
    ensures y2.Keys !! ((x + y + z) - y.Keys).Keys
    ensures x + y2 + z == ((x + y + z) - y.Keys) + y2
  {
  }

  // ---------------------------------------------------------------- pointers

  lemma {:induction false} IndexOfPtr(a: nat, bs: seq<Block>, i: nat)
    requires i < |bs|
    ensures IndexOf(a, bs, PtrAt(a, bs, i)) == i
    decreases bs
  {
    if i > 0 {
      assert bs[..i][1..] == bs[1..][..i - 1] && bs[..i][0] == bs[0];
      IndexOfPtr(a + Extent(bs[0]), bs[1..], i - 1);
    }
  }

  lemma {:induction false} IndexOfSound(a: nat, bs: seq<Block>, p: nat)
    ensures var i := IndexOf(a, bs, p); i < |bs| ==> p == PtrAt(a, bs, i)
    decreases bs
  {
    if |bs| > 0 && p != a + HEADER {
      IndexOfSound(a + Extent(bs[0]), bs[1..], p);
      var i := IndexOf(a, bs, p);
      if i < |bs| {
        assert bs[..i][1..] == bs[1..][..i - 1] && bs[..i][0] == bs[0];
      }
    }
  }

  /** A pointer is live exactly if the client's map holds it, and then with its block's bytes. */
  lemma {:induction false} ContentsIndex(a: nat, bs: seq<Block>, p: nat)
    ensures var i := IndexOf(a, bs, p);
      && (p in ContentsFrom(a, bs) <==> i < |bs| && bs[i].used)
      && (p in ContentsFrom(a, bs) ==> ContentsFrom(a, bs)[p] == bs[i].data)
    decreases bs
  {
    if |bs| > 0 {
      ContentsBounds(a + Extent(bs[0]), bs[1..]);
      ContentsIndex(a + Extent(bs[0]), bs[1..], p);
    }
  }

  lemma LiveIsContents(h: Heap, p: nat)
    ensures Live(h, p) <==> p in Contents(h)
    ensures Live(h, p) ==> Contents(h)[p] == h.blocks[Find(h, p)].data && p == PtrAt(h.begin, h.blocks, Find(h, p))
  {
    ContentsIndex(h.begin, h.blocks, p);
    IndexOfSound(h.begin, h.blocks, p);
  }
}
