/** The physical frame allocator of `paging.h`: a bitmap with one bit per 4 KiB frame. */
module Frames {
  import opened Basics
  import opened Bits

  const PAGE_SIZE := 4096

  /** Contents of the managed memory: each frame, by address, as its table entries. */
  type Ram = map<nat, seq<nat>>

  /** What the allocator stands for: the set of free frames, by address, the memory it manages, and `free_count`. */
  datatype Pool = Pool(base: nat, nframes: nat, free: set<nat>, ram: Ram, count: nat)

  /** `free_count--` and `free_count++` on 32-bit words. */
  function Less(count: nat): nat {
    if count == 0 then U32 - 1 else count - 1
  }

  function More(count: nat): nat {
    if count == U32 - 1 then 0 else count + 1
  }

  ghost predicate Counted(p: Pool) {
    p.count == |p.free|
  }

  /** The number of bitmap words that the code initialises and scans: `(nframes + 31) / 32` on 32-bit words. */
  function WordCount(nframes: nat): nat {
    (nframes + 31) % U32 / 32
  }

  /** The most frames for which that is one bit a frame; above it the sum wraps. */
  const MAX_FRAMES: nat := U32 - 32

  lemma WordCountExact(nframes: nat)
    requires nframes < U32
    ensures WordCount(nframes) == (nframes + 31) / 32 <==> nframes <= MAX_FRAMES
    ensures nframes > MAX_FRAMES ==> WordCount(nframes) == 0
  {
  }

  function Addr(base: nat, i: nat): nat {
    base + i * PAGE_SIZE
  }

  function Addrs(base: nat, s: set<nat>): set<nat> {
    set i | i in s :: Addr(base, i)
  }

  lemma AddrsMembership(base: nat, s: set<nat>, i: nat)
    ensures Addr(base, i) in Addrs(base, s) <==> i in s
    ensures Addrs(base, s - {i}) == Addrs(base, s) - {Addr(base, i)}
    ensures Addrs(base, s + {i}) == Addrs(base, s) + {Addr(base, i)}
  {
    assert forall j: nat :: Addr(base, i) == Addr(base, j) ==> i == j;
  }

  /** The lowest index at or above `i` whose frame is free. */
  function FirstFree(base: nat, free: set<nat>, i: nat, n: nat): (r: nat)
    requires i <= n
    ensures i <= r <= n
    ensures r < n ==> Addr(base, r) in free
    ensures forall j | i <= j < r :: Addr(base, j) !in free
    decreases n - i
  {
    if i == n then n else if Addr(base, i) in free then i else FirstFree(base, free, i + 1, n)
  }

  lemma FirstFreeIs(base: nat, s: set<nat>, i: nat, n: nat, k: nat)
    requires i <= k <= n
    requires k < n ==> k in s
    requires forall j | i <= j < k :: j !in s
    ensures FirstFree(base, Addrs(base, s), i, n) == k
    decreases n - i
  {
    AddrsMembership(base, s, i);
    if i < k {
      FirstFreeIs(base, s, i + 1, n, k);
    }
  }

  /** The index the scan finds; a region too large for the word count is not scanned at all. */
  function Lowest(base: nat, free: set<nat>, n: nat): (i: nat)
    ensures i <= n
  {
    if n <= MAX_FRAMES then FirstFree(base, free, 0, n) else n
  }

  /** Hand out the lowest free frame with every entry zero; address 0 reports that none was found. */
  function Allocate(p: Pool, entries: nat): (r: (Pool, nat)) {
    var i := Lowest(p.base, p.free, p.nframes);
    if i == p.nframes then (p, 0)
    else
      var f := Addr(p.base, i);
      (p.(free := p.free - {f}, ram := p.ram[f := Repeat<nat>(entries, 0)], count := Less(p.count)), f)
  }

  lemma AllocateAt(base: nat, n: nat, s: set<nat>, ram: Ram, count: nat, entries: nat, i: nat)
    requires i < n && i == Lowest(base, Addrs(base, s), n)
    ensures Allocate(Pool(base, n, Addrs(base, s), ram, count), entries)
            == (Pool(base, n, Addrs(base, s - {i}), ram[Addr(base, i) := Repeat<nat>(entries, 0)], Less(count)),
                Addr(base, i))
  {
    AddrsMembership(base, s, i);
  }

  /** The frame index a freed address denotes; the C code keeps the low 32 bits of it. */
  function FreedIndex(base: nat, frame: nat): nat
    requires frame >= base
  {
    ((frame - base) / PAGE_SIZE) % U32
  }

  function Release(p: Pool, frame: nat): Pool {
    if frame < p.base || FreedIndex(p.base, frame) >= p.nframes then p
    else p.(free := p.free + {Addr(p.base, FreedIndex(p.base, frame))}, count := More(p.count))
  }

  lemma ReleaseAt(base: nat, n: nat, s: set<nat>, ram: Ram, count: nat, frame: nat)
    requires frame >= base && FreedIndex(base, frame) < n
    ensures var p, i := Pool(base, n, Addrs(base, s), ram, count), FreedIndex(base, frame);
            && Release(p, frame) == Pool(base, n, Addrs(base, s + {i}), ram, More(count))
            && (FreesAgain(p, frame) <==> i in s)
  {
    AddrsMembership(base, s, FreedIndex(base, frame));
  }

  /** The frames of the region, by address. */
  function Region(base: nat, n: nat): set<nat> {
    if n == 0 then {} else Region(base, n - 1) + {Addr(base, n - 1)}
  }

  lemma {:induction false} RegionHas(base: nat, n: nat, i: nat)
    requires i < n
    ensures Addr(base, i) in Region(base, n)
  {
    if i < n - 1 {
      RegionHas(base, n - 1, i);
    }
  }

  lemma {:induction false} RegionIndex(base: nat, n: nat, f: nat) returns (i: nat)
    requires f in Region(base, n)
    ensures i < n && f == Addr(base, i)
  {
    if f == Addr(base, n - 1) {
      i := n - 1;
    } else {
      i := RegionIndex(base, n - 1, f);
    }
  }

  lemma {:induction false} RegionSize(base: nat, n: nat)
    ensures |Region(base, n)| == n
  {
    if n > 0 {
      RegionSize(base, n - 1);
      if Addr(base, n - 1) in Region(base, n - 1) {
        var i := RegionIndex(base, n - 1, Addr(base, n - 1));
        assert false;
      }
    }
  }

  /** A free set with every index stands for the whole region. */
  lemma AllFree(base: nat, n: nat, s: set<nat>)
    requires forall i: nat :: i in s <==> i < n
    ensures Addrs(base, s) == Region(base, n)
  {
    forall f: nat ensures f in Addrs(base, s) <==> f in Region(base, n) {
      if f in Region(base, n) {
        var i := RegionIndex(base, n, f);
        assert i in s;
      }
      if f in Addrs(base, s) {
        var i :| i in s && f == Addr(base, i);
        RegionHas(base, n, i);
      }
    }
  }

  /** The address denotes a managed frame that is free already. */
  predicate FreesAgain(p: Pool, frame: nat) {
    frame >= p.base && FreedIndex(p.base, frame) < p.nframes && Addr(p.base, FreedIndex(p.base, frame)) in p.free
  }

  /**
   No frame is handed out twice, and address 0 comes back exactly when no frame is free or the region
   has more than 2^32 - 32 frames.
   */
  lemma AllocateIsExclusive(p: Pool, entries: nat)
    requires p.base > 0 && p.free <= Region(p.base, p.nframes)
    ensures var (p', f) := Allocate(p, entries);
            if p.free == {} || p.nframes > MAX_FRAMES then p' == p && f == 0
            else && f != 0 && f in p.free
                 && p' == p.(free := p.free - {f}, ram := p.ram[f := Repeat<nat>(entries, 0)], count := Less(p.count))
                 && |p'.free| == |p.free| - 1
    ensures Counted(p) ==> Counted(Allocate(p, entries).0)
  {
    if p.free != {} && p.nframes <= MAX_FRAMES {
      var f :| f in p.free;
      var j := RegionIndex(p.base, p.nframes, f);
      assert FirstFree(p.base, p.free, 0, p.nframes) <= j;
    }
  }

  /**
   A pool as `riv_pmm_init` leaves it, with `nframes` counted free, hands out a frame if and only if the
   region has at most 2^32 - 32 frames; above that the bitmap is neither set nor scanned.
   */
  lemma FreshHandsOut(base: nat, nframes: nat, free: set<nat>, ram: Ram, entries: nat)
    requires base > 0 && 0 < nframes < U32 && (nframes <= MAX_FRAMES ==> free == Region(base, nframes))
    ensures Allocate(Pool(base, nframes, free, ram, nframes), entries).1 != 0 <==> nframes <= MAX_FRAMES
  {
    if nframes <= MAX_FRAMES {
      RegionHas(base, nframes, 0);
      AllocateIsExclusive(Pool(base, nframes, free, ram, nframes), entries);
    }
  }

  /** 2^32 - 1 frames, all counted free, and none to be had. */
  lemma LargestRegion(base: nat, free: set<nat>, ram: Ram, entries: nat)
    ensures var p := Pool(base, 0xFFFF_FFFF, free, ram, 0xFFFF_FFFF);
            WordCount(0xFFFF_FFFF) == 0 && Allocate(p, entries) == (p, 0)
  {
  }

  /** The address lies in no frame of the region. */
  predicate Outside(p: Pool, frame: nat) {
    frame < p.base || (frame - p.base) / PAGE_SIZE >= p.nframes
  }

  /** The bytes that 2^32 frames take. */
  const SPAN: nat := 0x1000_0000_0000

  /**
   Releasing an address outside the region changes nothing if and only if it lies below the region or
   its distance from the base, modulo 2^44, is not that of a frame in the region.
   */
  lemma OutsideExact(p: Pool, frame: nat)
    requires Outside(p, frame)
    ensures Release(p, frame) == p <==> frame < p.base || (frame - p.base) % SPAN >= p.nframes * PAGE_SIZE
  {
    if frame >= p.base {
      var x := frame - p.base;
      SplitModulus(x, PAGE_SIZE, U32);
      assert FreedIndex(p.base, frame) == x / PAGE_SIZE % U32;
      assert x % SPAN == PAGE_SIZE * FreedIndex(p.base, frame) + x % PAGE_SIZE;
    }
  }

  /** 2^44 bytes above the base of a one-frame region: the frame that is in use becomes free. */
  lemma FarRelease(base: nat, ram: Ram)
    ensures var p := Pool(base, 1, {}, ram, 0);
            && Outside(p, base + SPAN) && Release(p, base + SPAN) == Pool(base, 1, {base}, ram, 1)
  {
    assert FreedIndex(base, base + SPAN) == 0;
    assert {} + {base} == {base};
  }

  /** Releasing keeps the count exact if and only if the frame was not free already. */
  lemma ReleaseCounts(p: Pool, frame: nat)
    requires Counted(p) && p.free <= Region(p.base, p.nframes) && p.nframes < U32
    ensures Counted(Release(p, frame)) <==> !FreesAgain(p, frame)
    ensures Release(p, frame).free <= Region(p.base, p.nframes)
  {
    RegionSize(p.base, p.nframes);
    SubsetSize(p.free, Region(p.base, p.nframes));
    if frame >= p.base && FreedIndex(p.base, frame) < p.nframes {
      var f := Addr(p.base, FreedIndex(p.base, frame));
      RegionHas(p.base, p.nframes, FreedIndex(p.base, frame));
      if f in p.free {
        assert p.free + {f} == p.free;
      } else {
        SubsetSize(p.free + {f}, Region(p.base, p.nframes));
      }
    }
  }

  /** One of two frames free, and freed again: the count says two. */
  lemma DoubleFree(ram: Ram)
    ensures var p := Pool(4096, 2, {4096}, ram, 1);
            && Counted(p) && FreesAgain(p, 4096)
            && Release(p, 4096) == Pool(4096, 2, {4096}, ram, 2) && !Counted(Release(p, 4096))
  {
    assert FreedIndex(4096, 4096) == 0;
    assert {4096} + {4096} == {4096};
  }

  lemma SubsetSize(s: set<nat>, t: set<nat>)
    requires s <= t
    ensures |s| <= |t|
  {
    assert t == s + (t - s);
  }

  /** The indices below `n` whose bit is set. */
  ghost function FreeBits(words: seq<nat>, n: nat): set<nat>
    requires |words| >= (n + 31) / 32
  {
    if n == 0 then {}
    else FreeBits(words, n - 1) + if TestBit(words[(n - 1) / 32], (n - 1) % 32) then {n - 1} else {}
  }

  lemma {:induction false} FreeBitsAre(words: seq<nat>, n: nat, i: nat)
    requires |words| >= (n + 31) / 32
    ensures i in FreeBits(words, n) <==> i < n && TestBit(words[i / 32], i % 32)
  {
    if n > 0 {
      FreeBitsAre(words, n - 1, i);
    }
  }

  lemma {:induction false} FreeBitsSize(words: seq<nat>, n: nat)
    requires |words| >= (n + 31) / 32
    ensures |FreeBits(words, n)| <= n
  {
    if n > 0 {
      FreeBitsSize(words, n - 1);
    }
  }

  lemma {:induction false} FullBitmap(words: seq<nat>, n: nat)
    requires |words| >= (n + 31) / 32 && forall w | 0 <= w < |words| :: words[w] == 0xFFFFFFFF
    ensures |FreeBits(words, n)| == n
    ensures forall i: nat :: i in FreeBits(words, n) <==> i < n
  {
    forall i: nat ensures i in FreeBits(words, n) <==> i < n {
      FullWord(words, n, i);
    }
    if n > 0 {
      FullBitmap(words, n - 1);
      FullWord(words, n, n - 1);
      assert FreeBits(words, n) == FreeBits(words, n - 1) + {n - 1};
    }
  }

  lemma FullWord(words: seq<nat>, n: nat, i: nat)
    requires |words| >= (n + 31) / 32 && forall w | 0 <= w < |words| :: words[w] == 0xFFFFFFFF
    ensures i in FreeBits(words, n) <==> i < n
  {
    hide FreeBits, TestBit;
    FreeBitsAre(words, n, i);
    WordAllOnes(i % 32);
  }

  lemma ZeroWord(words: seq<nat>, n: nat, w: nat)
    requires |words| == (n + 31) / 32 && w < |words| && words[w] == 0
    ensures forall i | 32 * w <= i < 32 * w + 32 :: i !in FreeBits(words, n)
  {
    forall i | 32 * w <= i < 32 * w + 32 ensures i !in FreeBits(words, n) {
      FreeBitsAre(words, n, i);
      ZeroHasNoBits(i % 32);
    }
  }

  lemma LowestInWord(words: seq<nat>, n: nat, w: nat, b: nat)
    requires |words| == (n + 31) / 32 && w < |words| && b < 32
    requires TestBit(words[w], b) && forall c | 0 <= c < b :: !TestBit(words[w], c)
    ensures forall i | 32 * w <= i < 32 * w + b :: i !in FreeBits(words, n)
    ensures 32 * w + b < n ==> 32 * w + b in FreeBits(words, n)
  {
    forall i | 32 * w <= i <= 32 * w + b ensures i in FreeBits(words, n) <==> i < n && i == 32 * w + b {
      FreeBitsAre(words, n, i);
      assert i / 32 == w && i % 32 == i - 32 * w;
    }
  }

  lemma ClearInWords(words: seq<nat>, n: nat, idx: nat)
    requires |words| == (n + 31) / 32 && idx < n && words[idx / 32] < U32
    ensures ClearBit(words[idx / 32], idx % 32) < U32
    ensures FreeBits(words[idx / 32 := ClearBit(words[idx / 32], idx % 32)], n) == FreeBits(words, n) - {idx}
  {
    var w, b := idx / 32, idx % 32;
    WordBitOps(words[w], b);
    var words' := words[w := ClearBit(words[w], b)];
    forall i: nat ensures i in FreeBits(words', n) <==> i != idx && i in FreeBits(words, n) {
      FreeBitsAre(words, n, i);
      FreeBitsAre(words', n, i);
      ClearBitEffect(words[w], b, i % 32);
      SameIndex(i, idx);
    }
  }

  lemma SetInWords(words: seq<nat>, n: nat, idx: nat)
    requires |words| == (n + 31) / 32 && idx < n && words[idx / 32] < U32
    ensures SetBit(words[idx / 32], idx % 32) < U32
    ensures var free' := FreeBits(words[idx / 32 := SetBit(words[idx / 32], idx % 32)], n);
            && free' == FreeBits(words, n) + {idx}
            && |free'| == |FreeBits(words, n)| + (if idx in FreeBits(words, n) then 0 else 1)
  {
    var w, b := idx / 32, idx % 32;
    WordBitOps(words[w], b);
    var words' := words[w := SetBit(words[w], b)];
    forall i: nat ensures i in FreeBits(words', n) <==> i == idx || i in FreeBits(words, n) {
      FreeBitsAre(words, n, i);
      FreeBitsAre(words', n, i);
      SetBitEffect(words[w], b, i % 32);
      SameIndex(i, idx);
    }
    assert FreeBits(words', n) == FreeBits(words, n) + {idx};
    assert idx in FreeBits(words, n) ==> FreeBits(words', n) == FreeBits(words, n);
  }

  lemma SameIndex(i: nat, j: nat)
    ensures i == j <==> i / 32 == j / 32 && i % 32 == j % 32
  {
  }

  class Pmm {
    var bitmap: array<nat>
    var base: nat
    var nframes: nat
    var freeCount: nat
    var ram: Ram

    ghost function FreeSet(): set<nat>
      reads this`bitmap, this`nframes, bitmap
      requires bitmap.Length == (nframes + 31) / 32
    {
      FreeBits(bitmap[..], nframes)
    }

    ghost function View(): Pool
      reads this, bitmap
      requires bitmap.Length == (nframes + 31) / 32
    {
      Pool(base, nframes, Addrs(base, FreeSet()), ram, freeCount)
    }

    ghost predicate Valid()
      reads this`bitmap, this`nframes, bitmap
    {
      && nframes < U32
      && bitmap.Length == (nframes + 31) / 32
      && (forall w | 0 <= w < bitmap.Length :: bitmap[w] < U32)
    }

    /**
     Every bit of the words beyond the last frame starts set too; allocation must not report them. With
     more than 2^32 - 32 frames the bitmap stays as it was, while all frames are counted free.
     */
    constructor (bitmap: array<nat>, base: nat, nframes: nat, ram: Ram)
      requires nframes < U32 && bitmap.Length == (nframes + 31) / 32
      requires forall w | 0 <= w < bitmap.Length :: bitmap[w] < U32
      modifies bitmap
      ensures Valid() && this.bitmap == bitmap && this.base == base && this.nframes == nframes
      ensures this.ram == ram && freeCount == nframes
      ensures nframes <= MAX_FRAMES ==>
                && View() == Pool(base, nframes, Region(base, nframes), ram, nframes) && Counted(View())
                && (forall i: nat :: i in FreeSet() <==> i < nframes)
                && freeCount == |FreeSet()|
      ensures nframes > MAX_FRAMES ==> bitmap[..] == old(bitmap[..])
    {
      hide FreeBits, Addrs, Region;
      this.bitmap, this.base, this.nframes := bitmap, base, nframes;
      this.freeCount, this.ram := nframes, ram;
      new;
      WordCountExact(nframes);
      for i := 0 to WordCount(nframes)
        modifies bitmap
        invariant forall w | 0 <= w < bitmap.Length :: bitmap[w] == if w < i then 0xFFFFFFFF else old(bitmap[w])
      {
        bitmap[i] := 0xFFFFFFFF;
      }
      if nframes <= MAX_FRAMES {
        FullBitmap(bitmap[..], nframes);
        AllFree(base, nframes, FreeSet());
        RegionSize(base, nframes);
      }
    }

    /** The word-by-word search for a free frame; `nframes` when none is found. */
    method Search() returns (idx: nat)
      requires Valid()
      ensures idx == Lowest(base, Addrs(base, FreeSet()), nframes)
      ensures idx < nframes ==> idx in FreeSet()
    {
      hide FreeBits, Addrs;
      WordCountExact(nframes);
      var words := WordCount(nframes);
      var w := 0;
      while w < words
        invariant 0 <= w <= words
        invariant forall i | 0 <= i < nframes && i < 32 * w :: i !in FreeSet()
      {
        if bitmap[w] != 0 {
          var b := CountTrailingZeros(bitmap[w]);
          WordCtz(bitmap[w]);
          idx := w * 32 + b;
          LowestInWord(bitmap[..], nframes, w, b);
          idx := if idx >= nframes then nframes else idx;
          FirstFreeIs(base, FreeSet(), 0, nframes, idx);
          return;
        }
        ZeroWord(bitmap[..], nframes, w);
        w := w + 1;
      }
      idx := nframes;
      if nframes <= MAX_FRAMES {
        FirstFreeIs(base, FreeSet(), 0, nframes, idx);
      }
    }

    method Alloc(entries: nat) returns (p: nat)
      requires Valid()
      modifies this`ram, this`freeCount, bitmap
      ensures Valid()
      ensures (View(), p) == Allocate(old(View()), entries)
      ensures old(freeCount) == |old(FreeSet())| ==> freeCount == |FreeSet()|
    {
      var idx := Search();
      if idx >= nframes { return 0; }
      AllocateAt(base, nframes, FreeSet(), ram, freeCount, entries, idx);
      TakeBit(idx);
      freeCount := Less(freeCount);
      p := Addr(base, idx);
      ram := ram[p := Repeat<nat>(entries, 0)];
    }

    /** `bitmap[idx >> 5] &= ~(1u << (idx & 31))` on a set bit. */
    method TakeBit(idx: nat)
      requires Valid() && idx in FreeSet()
      modifies bitmap
      ensures Valid()
      ensures FreeSet() == old(FreeSet()) - {idx}
      ensures |FreeSet()| == |old(FreeSet())| - 1
    {
      FreeBitsAre(bitmap[..], nframes, idx);
      ClearInWords(bitmap[..], nframes, idx);
      bitmap[idx / 32] := ClearBit(bitmap[idx / 32], idx % 32);
      assert bitmap[..] == old(bitmap[..])[idx / 32 := bitmap[idx / 32]];
    }

    /** `bitmap[idx >> 5] |= 1u << (idx & 31)` */
    method GiveBit(idx: nat)
      requires Valid() && idx < nframes
      modifies bitmap
      ensures Valid()
      ensures FreeSet() == old(FreeSet()) + {idx}
      ensures |FreeSet()| == |old(FreeSet())| + (if idx in old(FreeSet()) then 0 else 1)
    {
      SetInWords(bitmap[..], nframes, idx);
      bitmap[idx / 32] := SetBit(bitmap[idx / 32], idx % 32);
      assert bitmap[..] == old(bitmap[..])[idx / 32 := bitmap[idx / 32]];
    }

    /** The count stays exact unless the frame was free already. */
    method Free(frame: nat)
      requires Valid()
      modifies this`freeCount, bitmap
      ensures Valid()
      ensures View() == Release(old(View()), frame)
      ensures old(freeCount) == |old(FreeSet())| ==>
                (freeCount == |FreeSet()| <==> !FreesAgain(old(View()), frame))
    {
      if frame < base { return; }
      var idx := FreedIndex(base, frame);
      if idx >= nframes { return; }
      ReleaseAt(base, nframes, FreeSet(), ram, freeCount, frame);
      GiveBit(idx);
      FreeBitsSize(bitmap[..], nframes);
      freeCount := More(freeCount);
    }
  }
}
