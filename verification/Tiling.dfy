/** How a block list is laid out in memory bytes: header fields, then payload, block after block. */
module Tiling {
  import opened Bytes
  import opened Blocks
  import opened BlockFacts

  function SizeField(m: seq<byte>, a: nat): nat
    requires a + HEADER <= |m|
  {
    DecodeLE(m[a + 8..a + 16])
  }

  /** The header at `a` says `used` and `size`. Its padding bytes are free to hold anything. */
  ghost predicate HeaderAt(m: seq<byte>, a: nat, used: bool, size: int) {
    a + HEADER <= |m| && m[a] == (if used then 1 else 0) && SizeField(m, a) == size
  }

  /** The header's bytes: the status in the first one, the size in the last eight, lowest byte first. */
  lemma HeaderLayout(m: seq<byte>, a: nat, used: bool, size: int)
    ensures HeaderAt(m, a, used, size) <==>
      a + 16 <= |m| && m[a] == (if used then 1 else 0) && Word(m[a + 8..a + 16]) == size
  {
    hide DecodeLE, Word;
    if a + 16 <= |m| {
      DecodeEight(m[a + 8..a + 16]);
    }
  }

  ghost predicate BlockAt(m: seq<byte>, a: nat, b: Block) {
    a + Extent(b) <= |m| && HeaderAt(m, a, b.used, |b.data|) && m[a + HEADER..a + Extent(b)] == b.data
  }

  ghost predicate Tiles(m: seq<byte>, a: nat, bs: seq<Block>)
    decreases bs
  {
    |bs| > 0 ==> BlockAt(m, a, bs[0]) && Tiles(m, a + Extent(bs[0]), bs[1..])
  }

  lemma {:induction false} TilesConcat(m: seq<byte>, a: nat, x: seq<Block>, y: seq<Block>)
    ensures Tiles(m, a, x + y) <==> Tiles(m, a, x) && Tiles(m, a + Span(x), y)
    decreases x
  {
    if |x| == 0 {
      assert x + y == y;
    } else {
      assert (x + y)[1..] == x[1..] + y;
      TilesConcat(m, a + Extent(x[0]), x[1..], y);
    }
  }

  lemma TilesSplit(m: seq<byte>, a: nat, x: seq<Block>, y: seq<Block>, z: seq<Block>)
    requires Tiles(m, a, x + y + z)
    ensures Tiles(m, a, x) && Tiles(m, a + Span(x), y) && Tiles(m, a + Span(x) + Span(y), z)
  {
    hide Tiles, Span, UsedBytes;
    TilesConcat(m, a, x + y, z);
    TilesConcat(m, a, x, y);
    SpanConcat(x, y);
  }

  lemma TilesJoin(m: seq<byte>, a: nat, x: seq<Block>, y: seq<Block>, z: seq<Block>)
    requires Tiles(m, a, x) && Tiles(m, a + Span(x), y) && Tiles(m, a + Span(x) + Span(y), z)
    ensures Tiles(m, a, x + y + z)
  {
    hide Tiles, Span, UsedBytes;
    SpanConcat(x, y);
    TilesConcat(m, a, x, y);
    TilesConcat(m, a, x + y, z);
  }

  lemma BlockFrame(m: seq<byte>, w: seq<byte>, lo: nat, hi: nat, a: nat, b: Block)
    requires BlockAt(m, a, b) && SameOutside(m, w, lo, hi)
    requires a + Extent(b) <= lo || hi <= a
    ensures BlockAt(w, a, b)
  {
    SameSlice(m, w, lo, hi, a + 8, a + 16);
    SameSlice(m, w, lo, hi, a + HEADER, a + Extent(b));
  }

  /** Bytes outside a stretch of blocks do not matter to it. */
  lemma {:induction false} TilesFrame(m: seq<byte>, w: seq<byte>, lo: nat, hi: nat, a: nat, bs: seq<Block>)
    requires Tiles(m, a, bs) && SameOutside(m, w, lo, hi)
    requires a + Span(bs) <= lo || hi <= a
    ensures Tiles(w, a, bs)
    decreases bs
  {
    if |bs| > 0 {
      BlockFrame(m, w, lo, hi, a, bs[0]);
      TilesFrame(m, w, lo, hi, a + Extent(bs[0]), bs[1..]);
    }
  }

  lemma TilesAround(m: seq<byte>, w: seq<byte>, a: nat, pre: seq<Block>, mid: seq<Block>, post: seq<Block>)
    requires Tiles(m, a, pre + mid + post)
    requires SameOutside(m, w, a + Span(pre), a + Span(pre) + Span(mid))
    ensures Tiles(w, a, pre) && Tiles(w, a + Span(pre) + Span(mid), post)
  {
    hide Tiles, Span, UsedBytes;
    TilesSplit(m, a, pre, mid, post);
    TilesFrame(m, w, a + Span(pre), a + Span(pre) + Span(mid), a, pre);
    TilesFrame(m, w, a + Span(pre), a + Span(pre) + Span(mid), a + Span(pre) + Span(mid), post);
  }

  /** Rewriting the bytes of one stretch as another stretch of the same extent. */
  lemma TilesReplace(m: seq<byte>, w: seq<byte>, a: nat,
                     pre: seq<Block>, mid: seq<Block>, mid2: seq<Block>, post: seq<Block>)
    requires Tiles(m, a, pre + mid + post) && Span(mid) == Span(mid2)
    requires SameOutside(m, w, a + Span(pre), a + Span(pre) + Span(mid))
    requires Tiles(w, a + Span(pre), mid2)
    ensures Tiles(w, a, pre + mid2 + post)
  {
    hide Tiles, Span, UsedBytes;
    TilesAround(m, w, a, pre, mid, post);
    TilesJoin(w, a, pre, mid2, post);
  }

  lemma TilesAt(m: seq<byte>, a: nat, bs: seq<Block>, i: nat)
    requires Tiles(m, a, bs) && i < |bs|
    ensures BlockAt(m, a + Span(bs[..i]), bs[i])
    ensures Span(bs[..i + 1]) == Span(bs[..i]) + Extent(bs[i])
    ensures Span(bs[..i]) + Extent(bs[i]) <= Span(bs)
  {
    hide Span, UsedBytes, Tiles, BlockAt;
    SplitAt(bs, i);
    TilesSplit(m, a, bs[..i], [bs[i]], bs[i + 1..]);
    TilesOne(m, a + Span(bs[..i]), bs[i]);
  }

  lemma {:induction false} TilesInBounds(m: seq<byte>, a: nat, bs: seq<Block>)
    requires Tiles(m, a, bs) && |bs| > 0
    ensures a + Span(bs) <= |m|
    decreases bs
  {
    if |bs| == 1 {
      assert |bs[1..]| == 0;
    } else {
      TilesInBounds(m, a + Extent(bs[0]), bs[1..]);
    }
  }

  lemma TilesOne(m: seq<byte>, a: nat, b: Block)
    ensures Tiles(m, a, [b]) <==> BlockAt(m, a, b)
  {
    assert |[b][1..]| == 0;
  }

  lemma TilesTwo(m: seq<byte>, a: nat, b: Block, c: Block)
    ensures Tiles(m, a, [b, c]) <==> BlockAt(m, a, b) && BlockAt(m, a + Extent(b), c)
  {
    assert [b, c][1..] == [c];
    TilesOne(m, a + Extent(b), c);
  }

  /** No list of blocks with payloads goes past a header of size zero. */
  lemma {:induction false} ZeroHeader(m: seq<byte>, a: nat, xs: seq<Block>, ys: seq<Block>)
    requires Tiles(m, a, xs) && a + Span(xs) + HEADER <= |m| && SizeField(m, a + Span(xs)) == 0
    requires Tiles(m, a, ys) && GoodBlocks(ys)
    ensures Span(ys) <= Span(xs)
    decreases ys
  {
    if |ys| > 0 {
      assert GoodBlock(ys[0]);
      if |xs| > 0 {
        ZeroHeader(m, a + Extent(xs[0]), xs[1..], ys[1..]);
      }
    }
  }

  /** The bytes of a stretch determine its blocks. */
  lemma {:induction false} TilesUnique(m: seq<byte>, a: nat, xs: seq<Block>, ys: seq<Block>)
    requires Tiles(m, a, xs) && Tiles(m, a, ys) && Span(xs) == Span(ys)
    ensures xs == ys
    decreases xs
  {
    if |xs| > 0 {
      assert |ys| > 0 && xs[0] == ys[0];
      TilesUnique(m, a + Extent(xs[0]), xs[1..], ys[1..]);
      assert xs == [xs[0]] + xs[1..] && ys == [ys[0]] + ys[1..];
    }
  }
}
