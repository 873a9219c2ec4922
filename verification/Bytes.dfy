/** Bytes, little-endian integers and in-place writes, as the x86_64 target lays them out. */
module Bytes {

  type byte = x: int | 0 <= x < 256

  const U32 := 0x1_0000_0000
  const U64 := 0x1_0000_0000_0000_0000

  function Fill(n: nat, v: byte): (s: seq<byte>)
    ensures |s| == n && forall i :: 0 <= i < n ==> s[i] == v
  {
    seq(n, _ => v)
  }

  function Zeros(n: nat): (s: seq<byte>)
    ensures |s| == n && forall i :: 0 <= i < n ==> s[i] == 0
  {
    Fill(n, 0)
  }

  function Pow256(n: nat): (p: nat)
    ensures p > 0
  {
    if n == 0 then 1 else 256 * Pow256(n - 1)
  }

  lemma Pow256Constants()
    ensures Pow256(4) == U32 && Pow256(8) == U64
  {
    assert Pow256(3) == 0x100_0000;
    assert Pow256(4) == U32;
    assert Pow256(6) == 0x1_0000_0000_0000;
  }

  /** The `n` low bytes of `v`, least significant first. */
  function EncodeLE(v: nat, n: nat): (s: seq<byte>)
    ensures |s| == n
  {
    if n == 0 then [] else [v % 256] + EncodeLE(v / 256, n - 1)
  }

  function DecodeLE(s: seq<byte>): nat
  {
    if s == [] then 0 else s[0] + 256 * DecodeLE(s[1..])
  }

  /** The number in eight bytes, the first one lowest. */
  function Word(s: seq<byte>): nat
    requires |s| == 8
  {
    HalfWord(s[..4]) + 0x1_0000_0000 * HalfWord(s[4..])
  }

  /** The number in four bytes, the first one lowest. */
  function HalfWord(s: seq<byte>): nat
    requires |s| == 4
  {
    var a: nat, b: nat, c: nat, d: nat := s[0], s[1], s[2], s[3];
    a + 0x100 * b + 0x1_0000 * c + 0x100_0000 * d
  }

  lemma DecodeFour(s: seq<byte>)
    requires |s| == 4
    ensures DecodeLE(s) == HalfWord(s)
  {
    DecodeTwo(s);
    DecodeTwo(s[2..]);
    assert s[2..][2..] == [];
  }

  lemma DecodeTwo(s: seq<byte>)
    requires |s| >= 2
    ensures var a: nat, b: nat := s[0], s[1]; DecodeLE(s) == a + 0x100 * b + 0x1_0000 * DecodeLE(s[2..])
  {
    assert s[1..][1..] == s[2..];
  }

  lemma DecodeEight(s: seq<byte>)
    requires |s| == 8
    ensures DecodeLE(s) == Word(s)
  {
    hide DecodeLE;
    DecodeTwo(s);
    DecodeTwo(s[2..]);
    assert s[2..][2..] == s[4..];
    DecodeFour(s[4..]);
    assert s[..4][0] == s[0] && s[..4][1] == s[1] && s[..4][2] == s[2] && s[..4][3] == s[3];
  }

  /** What is loaded is what was stored, cut to the width of the field. */
  lemma {:induction false} DecodeEncode(v: nat, n: nat)
    requires v < Pow256(n)
    ensures DecodeLE(EncodeLE(v, n)) == v
  {
    if n > 0 {
      assert EncodeLE(v, n)[1..] == EncodeLE(v / 256, n - 1);
      DecodeEncode(v / 256, n - 1);
    }
  }

  lemma DecodeEncode64(v: nat)
    requires v < U64
    ensures DecodeLE(EncodeLE(v, 8)) == v
  {
    Pow256Constants();
    DecodeEncode(v, 8);
  }

  lemma DecodeEncode32(v: nat)
    requires v < U32
    ensures DecodeLE(EncodeLE(v, 4)) == v
  {
    Pow256Constants();
    DecodeEncode(v, 4);
  }

  /** `m` with the bytes from `a` on overwritten by `s`. */
  function Splice(m: seq<byte>, a: nat, s: seq<byte>): (r: seq<byte>)
    requires a + |s| <= |m|
    ensures |r| == |m|
  {
    m[..a] + s + m[a + |s|..]
  }

  lemma SpliceAt(m: seq<byte>, a: nat, s: seq<byte>, i: nat)
    requires a + |s| <= |m| && i < |m|
    ensures Splice(m, a, s)[i] == if a <= i < a + |s| then s[i - a] else m[i]
  {
  }

  /** `m` and `w` agree outside `[lo, hi)`. */
  ghost predicate SameOutside(m: seq<byte>, w: seq<byte>, lo: nat, hi: nat)
  {
    |m| == |w| && forall i :: 0 <= i < |m| && !(lo <= i < hi) ==> m[i] == w[i]
  }

  lemma SameSlice(m: seq<byte>, w: seq<byte>, lo: nat, hi: nat, a: nat, b: nat)
    requires SameOutside(m, w, lo, hi)
    requires a <= b <= |m| && (b <= lo || hi <= a)
    ensures m[a..b] == w[a..b]
  {
  }

  lemma SliceOfSlice(m: seq<byte>, a: nat, b: nat, i: nat, j: nat)
    requires a <= b <= |m| && i <= j <= b - a
    ensures m[a..b][i..j] == m[a + i..a + j]
  {
    var x, y := m[a..b], m[a + i..a + j];
    forall k | 0 <= k < j - i
      ensures x[i..j][k] == y[k]
    {
      assert x[i..j][k] == x[i + k] == m[a + (i + k)] == y[k];
    }
  }

  lemma {:induction false} DecodeZeros(s: seq<byte>)
    requires forall i :: 0 <= i < |s| ==> s[i] == 0
    ensures DecodeLE(s) == 0
  {
    if |s| > 0 {
      DecodeZeros(s[1..]);
    }
  }

  /**
   `n` bytes copied one by one in ascending order. If the source starts below the destination and reaches into it,
   the bytes before the destination repeat; otherwise the destination gets the old source bytes.
   */
  ghost predicate ForwardCopy(m: seq<byte>, w: seq<byte>, dest: nat, src: nat, n: nat)
    requires dest + n <= |m| && src + n <= |m|
  {
    && SameOutside(m, w, dest, dest + n)
    && if src < dest < src + n then
         forall i :: dest <= i < dest + n ==> w[i] == m[Origin(i, dest, src)]
       else w[dest..dest + n] == m[src..src + n]
  }

  /** The place below `dest` that is reached from `i` in steps of the distance. */
  function Origin(i: nat, dest: nat, src: nat): (o: nat)
    requires src < dest && src <= i
    ensures src <= o < dest
    decreases i
  {
    if i < dest then i else Origin(i - (dest - src), dest, src)
  }

  /** The loop after `i` of its `n` bytes. */
  ghost predicate CopiedUpTo(m: seq<byte>, w: seq<byte>, dest: nat, src: nat, n: nat, i: nat)
    requires i <= n && dest + n <= |m| && src + n <= |m|
  {
    && SameOutside(m, w, dest, dest + i)
    && forall j :: dest <= j < dest + i ==> w[j] == m[From(j, dest, src, n)]
  }

  function From(j: nat, dest: nat, src: nat, n: nat): (o: nat)
    requires dest <= j < dest + n
    ensures src <= o < src + n
  {
    if src < dest < src + n then Origin(j, dest, src) else j - dest + src
  }

  lemma CopyStart(m: seq<byte>, dest: nat, src: nat, n: nat)
    requires dest + n <= |m| && src + n <= |m|
    ensures CopiedUpTo(m, m, dest, src, n, 0)
  {
  }

  lemma CopyStep(m: seq<byte>, w: seq<byte>, dest: nat, src: nat, n: nat, i: nat)
    requires i < n && dest + n <= |m| && src + n <= |m| && CopiedUpTo(m, w, dest, src, n, i)
    ensures w[src + i] == m[From(dest + i, dest, src, n)]
    ensures CopiedUpTo(m, w[dest + i := w[src + i]], dest, src, n, i + 1)
  {
    if src < dest < src + n {
      assert Origin(dest + i, dest, src) == Origin(src + i, dest, src);
    }
    if dest <= src + i < dest + i {
      assert w[src + i] == m[From(src + i, dest, src, n)];
    } else {
      assert w[src + i] == m[src + i];
    }
  }

  lemma CopyDone(m: seq<byte>, w: seq<byte>, dest: nat, src: nat, n: nat)
    requires dest + n <= |m| && src + n <= |m| && CopiedUpTo(m, w, dest, src, n, n)
    ensures ForwardCopy(m, w, dest, src, n)
  {
  }

  /** Copying zeros gives zeros, overlap or not. */
  lemma CopyZeros(m: seq<byte>, w: seq<byte>, dest: nat, src: nat, n: nat)
    requires dest + n <= |m| && src + n <= |m| && ForwardCopy(m, w, dest, src, n)
    requires m[src..src + n] == Zeros(n)
    ensures forall i :: dest <= i < dest + n ==> w[i] == 0
  {
    forall i | dest <= i < dest + n
      ensures w[i] == 0
    {
      if src < dest < src + n {
        var o := Origin(i, dest, src);
        assert m[o] == m[src..src + n][o - src];
      } else {
        assert w[i] == w[dest..dest + n][i - dest];
      }
    }
  }
}
