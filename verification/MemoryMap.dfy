/** The choice of the heap region from the BIOS memory map. */
module MemoryMap {
  import opened Bytes
  import opened Blocks

  /** The first GiB is mapped by the boot loader. */
  const MAPPED_LIMIT: nat := 0x4000_0000
  const HEAP_MIN: nat := 0x80_0000
  const MMAP_USABLE: nat := 1

  datatype Entry = Entry(base: nat, length: nat, kind: nat)

  /** `base_addr + length` does not wrap around. */
  predicate NoWrap(mmap: seq<Entry>) {
    forall i :: 0 <= i < |mmap| ==> mmap[i].base + mmap[i].length < U64
  }

  /** The non-empty range `[lo, hi)` is usable memory of entry `e`, mapped, and not below `floor`. */
  predicate Usable(e: Entry, floor: nat, lo: nat, hi: nat) {
    e.kind == 1 && e.base <= lo < hi <= e.base + e.length && floor <= lo && hi <= 0x4000_0000
  }

  /** The lowest address the heap may take: a padded, aligned kernel end, but at least `HEAP_MIN`. */
  function Floor(kernelEnd: nat): (f: nat)
    ensures f % 16 == 0
    ensures kernelEnd <= 0x7F_F000 ==> f == 0x80_0000
    ensures 0x7F_F000 < kernelEnd < 0xFFFF_FFFF_FFFF_EFF1 ==> kernelEnd + 0x1000 <= f < kernelEnd + 0x1000 + 16
    ensures 0xFFFF_FFFF_FFFF_EFF1 <= kernelEnd < 0x1_0000_0000_0000_0000 ==> f == 0x80_0000
  {
    var f := AlignUp((kernelEnd + 0x1000) % U64) % U64;
    if f < HEAP_MIN then HEAP_MIN else f
  }

  /** No usable range of the entry is longer than `n`. */
  ghost predicate AtMost(e: Entry, floor: nat, n: nat) {
    forall lo: nat, hi: nat :: Usable(e, floor, lo, hi) ==> hi - lo <= n
  }

  /** `[base, end)` is usable memory of entry `i`, and longer than any such range of an earlier entry. */
  ghost predicate FirstLongest(mmap: seq<Entry>, floor: nat, i: int, base: nat, end: nat) {
    && 0 <= i < |mmap| && Usable(mmap[i], floor, base, end)
    && forall j, lo: nat, hi: nat :: 0 <= j < i && Usable(mmap[j], floor, lo, hi) ==> hi - lo < end - base
  }

  /** Some entry below `k` has the range `[base, end)` as the first one of its length. */
  ghost predicate FoundIn(mmap: seq<Entry>, k: nat, floor: nat, base: nat, end: nat) {
    exists i :: 0 <= i < k && FirstLongest(mmap, floor, i, base, end)
  }

  /** The usable part of one entry above the floor: a longest one, or length 0 if there is none. */
  method Clip(entry: Entry, floor: nat) returns (start: nat, length: nat)
    requires entry.base + entry.length < U64
    ensures length > 0 ==> Usable(entry, floor, start, start + length)
    ensures AtMost(entry, floor, length)
  {
    if entry.kind != MMAP_USABLE {
      return 0, 0;
    }
    start := entry.base;
    var end := (start + entry.length) % U64;
    assert end == start + entry.length;
    if start >= MAPPED_LIMIT {
      return 0, 0;
    }
    if end > MAPPED_LIMIT {
      end := MAPPED_LIMIT;
    }
    if end <= floor {
      return 0, 0;
    }
    if start < floor {
      start := floor;
    }
    length := end - start;
  }

  /** The longest usable range of the map; length 0 exactly if there is none. */
  method BestRegion(mmap: seq<Entry>, floor: nat) returns (base: nat, length: nat)
    requires NoWrap(mmap)
    ensures length > 0 ==> FoundIn(mmap, |mmap|, floor, base, base + length)
    ensures forall i, lo: nat, hi: nat :: 0 <= i < |mmap| && Usable(mmap[i], floor, lo, hi) ==> hi - lo <= length
  {
    base, length := 0, 0;
    for i := 0 to |mmap|
      invariant length > 0 ==> FoundIn(mmap, i, floor, base, base + length)
      invariant forall j :: 0 <= j < i ==> AtMost(mmap[j], floor, length)
    {
      var start, newLength := Clip(mmap[i], floor);
      if newLength > length {
        assert forall j, lo: nat, hi: nat :: 0 <= j < i && Usable(mmap[j], floor, lo, hi) ==> hi - lo < newLength by {
          assert forall j :: 0 <= j < i ==> AtMost(mmap[j], floor, length);
        }
        base, length := start, newLength;
        assert FirstLongest(mmap, floor, i, base, base + length);
      }
    }
    assert forall i :: 0 <= i < |mmap| ==> AtMost(mmap[i], floor, length);
  }

  /** The map has a usable range at or above the floor. */
  ghost predicate HasRange(mmap: seq<Entry>, floor: nat) {
    exists i, lo: nat, hi: nat :: 0 <= i < |mmap| && Usable(mmap[i], floor, lo, hi)
  }

  /** `[base, end)` is the first longest usable range of the map. */
  ghost predicate Longest(mmap: seq<Entry>, floor: nat, base: nat, end: nat) {
    && FoundIn(mmap, |mmap|, floor, base, end)
    && (forall i, lo: nat, hi: nat :: 0 <= i < |mmap| && Usable(mmap[i], floor, lo, hi) ==> hi - lo <= end - base)
  }

  /** 8 MiB, or the first multiple of 16 at or above 4 KiB behind the kernel, if that is higher and does not wrap. */
  predicate StartsAt(kernelEnd: nat, floor: nat) {
    if 0x7F_F000 < kernelEnd < 0xFFFF_FFFF_FFFF_EFF1
    then floor % 16 == 0 && kernelEnd + 0x1000 <= floor < kernelEnd + 0x1000 + 16
    else floor == 0x80_0000
  }

  /**
   The heap range: the aligned base and the end of a longest usable range at or above the floor. Without one, 1 MiB
   from the floor. Never beyond 1 GiB.
   */
  ghost predicate InRange(kernelEnd: nat, mmap: seq<Entry>, begin: nat, end: nat) {
    exists floor: nat :: StartsAt(kernelEnd, floor) && RangeAbove(floor, mmap, begin, end)
  }

  ghost predicate RangeAbove(floor: nat, mmap: seq<Entry>, begin: nat, end: nat) {
    && end <= 0x4000_0000
    && if HasRange(mmap, floor)
       then exists base: nat :: Longest(mmap, floor, base, end) && base <= begin < base + 16 && begin % 16 == 0
       else begin == floor && end == Capped((begin + 0x10_0000) % 0x1_0000_0000_0000_0000)
  }

  function Capped(end: nat): nat {
    if end > 0x4000_0000 then 0x4000_0000 else end
  }

  method HeapRange(kernelEnd: nat, mmap: seq<Entry>) returns (begin: nat, end: nat)
    requires kernelEnd < U64 && NoWrap(mmap)
    ensures InRange(kernelEnd, mmap, begin, end)
  {
    begin := AlignUp((kernelEnd + 0x1000) % U64) % U64;
    if begin < HEAP_MIN {
      begin := HEAP_MIN;
    }
    assert begin == Floor(kernelEnd);
    ghost var floor := begin;
    assert StartsAt(kernelEnd, floor);
    hide Floor, StartsAt;
    var bestBase, bestLen := BestRegion(mmap, begin);
    if bestLen == 0 {
      end := (begin + 0x10_0000) % U64;
    } else {
      assert Longest(mmap, begin, bestBase, bestBase + bestLen);
      begin := AlignUp(bestBase);
      end := bestBase + bestLen;
    }
    if end > MAPPED_LIMIT {
      end := MAPPED_LIMIT;
    }
    assert RangeAbove(floor, mmap, begin, end);
  }
}
