/** The first-fit heap of `heap.h` as values: the list of blocks that tile the arena. */
module HeapSpec {
  import opened Basics

  /** `RIV_HEAP_HDR`: the header is 12 bytes with 32-bit words and 24 bytes with 64-bit words. */
  type Hdr = x: nat | x == 12 || x == 24 witness 24

  const ALIGN := 8

  function Word(hdr: Hdr): nat {
    if hdr == 12 then 0x1_0000_0000 else 0x1_0000_0000_0000_0000
  }

  datatype Block = Block(sz: nat, free: bool)

  /** `(sz + 7) & ~7` on unsigned words. */
  function Round(hdr: Hdr, sz: nat): nat {
    var x := (sz + ALIGN - 1) % Word(hdr);
    x - x % ALIGN
  }

  /** Rounding gives the least multiple of 8 that is big enough, exactly for requests that do not wrap. */
  lemma RoundExact(hdr: Hdr, sz: nat)
    requires sz < Word(hdr)
    ensures Round(hdr, sz) % ALIGN == 0
    ensures Round(hdr, sz) >= sz <==> sz <= Word(hdr) - ALIGN
    ensures sz <= Word(hdr) - ALIGN ==> Round(hdr, sz) < sz + ALIGN
    ensures sz > Word(hdr) - ALIGN ==> Round(hdr, sz) == 0
  {
  }

  /** `n - RIV_HEAP_HDR` on unsigned words. */
  function FirstSize(hdr: Hdr, n: nat): nat {
    (n - hdr) % Word(hdr)
  }

  /** The first block fits its arena if and only if the arena holds a header. */
  lemma FirstSizeExact(hdr: Hdr, n: nat)
    requires n < Word(hdr)
    ensures hdr + FirstSize(hdr, n) == n <==> hdr <= n
    ensures n < hdr ==> FirstSize(hdr, n) >= Word(hdr) - hdr
  {
  }

  /** Sixteen bytes and a header of twenty-four. */
  lemma ShortArena()
    ensures FirstSize(24, 16) == 0xFFFF_FFFF_FFFF_FFF8
  {
  }

  // ---------- the calls ----------

  predicate Fits(b: Block, need: nat) {
    b.free && b.sz >= need
  }

  function FirstFit(bs: seq<Block>, need: nat): (i: nat)
    ensures i <= |bs| && (i < |bs| ==> Fits(bs[i], need))
    ensures forall j | 0 <= j < i :: !Fits(bs[j], need)
  {
    if bs == [] || Fits(bs[0], need) then 0 else 1 + FirstFit(bs[1..], need)
  }

  /** The block found is used whole, or cut when what is left can hold a header and eight bytes more. */
  function Carve(hdr: Hdr, b: Block, need: nat): seq<Block>
    requires b.sz >= need
  {
    if b.sz >= need + hdr + ALIGN then [Block(need, false), Block(b.sz - need - hdr, true)] else [Block(b.sz, false)]
  }

  /** The blocks after a request for `need` rounded bytes. */
  function Alloc(hdr: Hdr, bs: seq<Block>, need: nat): Option<seq<Block>> {
    var i := FirstFit(bs, need);
    if i == |bs| then None else Some(bs[..i] + Carve(hdr, bs[i], need) + bs[i + 1..])
  }

  /** The single pass of `free`: a pair merges and the pass goes on behind it. */
  function Coalesce(hdr: Hdr, bs: seq<Block>): (r: seq<Block>)
    ensures bs == [] <==> r == []
    ensures bs != [] ==> r[0].free == bs[0].free
    decreases |bs|
  {
    if |bs| < 2 then bs
    else if bs[0].free && bs[1].free then
      [Block(bs[0].sz + hdr + bs[1].sz, true)] + Coalesce(hdr, bs[2..])
    else [bs[0]] + Coalesce(hdr, bs[1..])
  }

  function Freed(bs: seq<Block>, i: nat): seq<Block>
    requires i < |bs|
  {
    bs[i := bs[i].(free := true)]
  }

  // ---------- what the blocks amount to ----------

  /** The bytes the blocks occupy, headers included. */
  function Total(hdr: Hdr, bs: seq<Block>): nat {
    if bs == [] then 0 else hdr + bs[0].sz + Total(hdr, bs[1..])
  }

  /** The live payloads by address, for blocks that begin at `a`. */
  function Live(hdr: Hdr, a: nat, bs: seq<Block>): map<nat, nat>
    decreases |bs|
  {
    if bs == [] then map[]
    else
      var rest := Live(hdr, a + hdr + bs[0].sz, bs[1..]);
      if bs[0].free then rest else rest[a + hdr := bs[0].sz]
  }

  function Pair(b: Block, c: Block): nat {
    if b.free && c.free then 1 else 0
  }

  /** How many neighbouring blocks are both free. */
  function Pairs(bs: seq<Block>): nat {
    if |bs| < 2 then 0 else Pair(bs[0], bs[1]) + Pairs(bs[1..])
  }
}

/** Conservation, disjointness of live payloads and the fragmentation bound. */
module HeapLaws {
  import opened HeapSpec

  lemma {:induction false} TotalConcat(hdr: Hdr, x: seq<Block>, y: seq<Block>)
    ensures Total(hdr, x + y) == Total(hdr, x) + Total(hdr, y)
  {
    if x == [] {
      assert x + y == y;
    } else {
      assert (x + y)[1..] == x[1..] + y;
      TotalConcat(hdr, x[1..], y);
    }
  }

  lemma {:induction false} LiveConcat(hdr: Hdr, a: nat, x: seq<Block>, y: seq<Block>)
    ensures Live(hdr, a, x + y) == Live(hdr, a + Total(hdr, x), y) + Live(hdr, a, x)
    decreases |x|
  {
    if x == [] {
      assert x + y == y;
    } else {
      assert (x + y)[1..] == x[1..] + y;
      LiveConcat(hdr, a + hdr + x[0].sz, x[1..], y);
    }
  }

  /** The pair across the seam of two lists. */
  function Seam(x: seq<Block>, y: seq<Block>): nat {
    if x == [] || y == [] then 0 else Pair(x[|x| - 1], y[0])
  }

  lemma {:induction false} PairsConcat(x: seq<Block>, y: seq<Block>)
    ensures Pairs(x + y) == Pairs(x) + Pairs(y) + Seam(x, y)
  {
    if x == [] {
      assert x + y == y;
    } else {
      assert (x + y)[1..] == x[1..] + y;
      PairsConcat(x[1..], y);
    }
  }

  /** Live payloads lie inside the blocks, each behind its own header. */
  lemma {:induction false} LiveInside(hdr: Hdr, a: nat, bs: seq<Block>, p: nat)
    requires p in Live(hdr, a, bs)
    ensures a + hdr <= p && p + Live(hdr, a, bs)[p] <= a + Total(hdr, bs)
    decreases |bs|
  {
    var rest := Live(hdr, a + hdr + bs[0].sz, bs[1..]);
    if p in rest {
      LiveInside(hdr, a + hdr + bs[0].sz, bs[1..], p);
    }
  }

  /** Two live payloads never overlap, and a header stands between them. */
  lemma {:induction false} LiveDisjoint(hdr: Hdr, a: nat, bs: seq<Block>, p: nat, q: nat)
    requires p in Live(hdr, a, bs) && q in Live(hdr, a, bs) && p < q
    ensures p + Live(hdr, a, bs)[p] + hdr <= q
    decreases |bs|
  {
    var a' := a + hdr + bs[0].sz;
    var rest := Live(hdr, a', bs[1..]);
    if q in rest { LiveInside(hdr, a', bs[1..], q); }
    if p in rest { LiveInside(hdr, a', bs[1..], p); }
    if p in rest && q in rest {
      LiveDisjoint(hdr, a', bs[1..], p, q);
    }
  }

  // ---------- alloc ----------

  lemma Single(hdr: Hdr, a: nat, b: Block)
    ensures Total(hdr, [b]) == hdr + b.sz && Pairs([b]) == 0
    ensures Live(hdr, a, [b]) == if b.free then map[] else map[a + hdr := b.sz]
  {
    assert [b][1..] == [];
  }

  /** Cutting a free block: nothing is lost, its payload address is new, and no free pair appears. */
  lemma CarveLaws(hdr: Hdr, a: nat, b: Block, need: nat)
    requires b.free && b.sz >= need
    ensures var c := Carve(hdr, b, need);
            && c != [] && Total(hdr, c) == Total(hdr, [b])
            && Pairs(c) == 0 && !c[0].free && c[0].sz >= need
            && Live(hdr, a, c) == map[a + hdr := c[0].sz]
  {
    hide Total, Live, Pairs;
    var c := Carve(hdr, b, need);
    Single(hdr, a, b);
    Single(hdr, a, c[0]);
    if |c| == 2 {
      assert c == [c[0]] + [c[1]];
      TotalConcat(hdr, [c[0]], [c[1]]);
      PairsConcat([c[0]], [c[1]]);
      LiveConcat(hdr, a, [c[0]], [c[1]]);
      Single(hdr, a + hdr + c[0].sz, c[1]);
    } else {
      assert c == [c[0]];
    }
  }

  /** One payload more or less between those below and those above it. */
  lemma MapMiddle(above: map<nat, nat>, below: map<nat, nat>, p: nat, v: nat)
    requires p !in above && p !in below
    ensures above + (map[p := v] + below) == (above + (map[] + below))[p := v]
    ensures above + (map[] + below) == (above + (map[p := v] + below)) - {p}
    ensures p !in above + (map[] + below)
  {
  }

  /** The payload address of a block is live neither below nor above it. */
  lemma AddressNew(hdr: Hdr, a: nat, x: seq<Block>, k: nat, z: seq<Block>)
    ensures var m := a + Total(hdr, x);
            m + hdr !in Live(hdr, a, x) && m + hdr !in Live(hdr, m + hdr + k, z)
  {
    hide Total, Live;
    var m := a + Total(hdr, x);
    if m + hdr in Live(hdr, a, x) { LiveInside(hdr, a, x, m + hdr); assert false; }
    if m + hdr in Live(hdr, m + hdr + k, z) { LiveInside(hdr, m + hdr + k, z, m + hdr); assert false; }
  }

  /** Where the payload of the block found begins. */
  function AllocAt(hdr: Hdr, a: nat, bs: seq<Block>, need: nat): nat {
    a + Total(hdr, bs[..FirstFit(bs, need)]) + hdr
  }

  /** Block `i` is the first free one of at least `need` bytes, and what became of it. */
  ghost predicate Served(hdr: Hdr, bs: seq<Block>, r: seq<Block>, need: nat, i: nat) {
    && i < |bs| && i < |r| && bs[i].free && bs[i].sz >= need
    && (forall j | 0 <= j < i :: !(bs[j].free && bs[j].sz >= need))
    && r[..i] == bs[..i] && !r[i].free && need <= r[i].sz < need + hdr + ALIGN
    && (|| (r[i].sz == bs[i].sz && r[i + 1..] == bs[i + 1..])
        || (&& |r| == |bs| + 1 && r[i].sz == need && r[i + 2..] == bs[i + 1..]
            && r[i + 1].free && r[i + 1].sz >= ALIGN && r[i].sz + hdr + r[i + 1].sz == bs[i].sz))
  }

  /**
   Alloc fails exactly when no free block has the bytes. Otherwise it takes the first that has, and
   either all of it or just the bytes asked for, leaving a free block of eight bytes or more; it never
   gives away as much as a header and eight bytes.
   */
  lemma AllocExact(hdr: Hdr, bs: seq<Block>, need: nat)
    ensures Alloc(hdr, bs, need).None? <==> forall j | 0 <= j < |bs| :: !(bs[j].free && bs[j].sz >= need)
    ensures Alloc(hdr, bs, need).Some? ==> exists i: nat :: Served(hdr, bs, Alloc(hdr, bs, need).value, need, i)
  {
    var i := FirstFit(bs, need);
    assert forall j | 0 <= j < i :: !Fits(bs[j], need);
    if i < |bs| {
      assert Fits(bs[i], need);
      var r := Alloc(hdr, bs, need).value;
      assert Served(hdr, bs, r, need, i);
    }
  }

  /**
   `alloc` fails exactly when no free block fits; otherwise it adds one payload, big enough and at an
   address not live before, moves no other, loses no byte and makes no new pair of free neighbours.
   */
  lemma AllocLaws(hdr: Hdr, a: nat, bs: seq<Block>, need: nat)
    ensures Alloc(hdr, bs, need).None? <==> forall j | 0 <= j < |bs| :: !Fits(bs[j], need)
    ensures match Alloc(hdr, bs, need)
            case None => true
            case Some(r) =>
              var p := AllocAt(hdr, a, bs, need);
              && Total(hdr, r) == Total(hdr, bs)
              && Pairs(r) <= Pairs(bs)
              && p !in Live(hdr, a, bs)
              && p in Live(hdr, a, r) && Live(hdr, a, r)[p] >= need
              && Live(hdr, a, r) == Live(hdr, a, bs)[p := Live(hdr, a, r)[p]]
  {
    hide Total, Live, Pairs, Carve, FirstFit;
    var i := FirstFit(bs, need);
    if i < |bs| {
      assert bs == bs[..i] + [bs[i]] + bs[i + 1..];
      CarveIn(hdr, a, bs[..i], bs[i], bs[i + 1..], need);
    }
  }

  /** Cutting the block between `x` and `z`. */
  lemma CarveIn(hdr: Hdr, a: nat, x: seq<Block>, b: Block, z: seq<Block>, need: nat)
    requires b.free && b.sz >= need
    ensures var bs, r := x + [b] + z, x + Carve(hdr, b, need) + z;
            var p := a + Total(hdr, x) + hdr;
            && Total(hdr, r) == Total(hdr, bs)
            && Pairs(r) <= Pairs(bs)
            && p !in Live(hdr, a, bs)
            && p in Live(hdr, a, r) && Live(hdr, a, r)[p] >= need
            && Live(hdr, a, r) == Live(hdr, a, bs)[p := Live(hdr, a, r)[p]]
  {
    hide Total, Live, Pairs, Carve;
    var c := Carve(hdr, b, need);
    var m := a + Total(hdr, x);
    CarveLaws(hdr, m, b, need);
    Single(hdr, m, b);
    AddressNew(hdr, a, x, b.sz, z);
    Spread(hdr, a, x, [b], z);
    Spread(hdr, a, x, c, z);
    MapMiddle(Live(hdr, m + hdr + b.sz, z), Live(hdr, a, x), m + hdr, c[0].sz);
  }

  lemma Spread(hdr: Hdr, a: nat, x: seq<Block>, y: seq<Block>, z: seq<Block>)
    requires |y| > 0
    ensures Total(hdr, x + y + z) == Total(hdr, x) + Total(hdr, y) + Total(hdr, z)
    ensures Pairs(x + y + z) == Pairs(x) + Pairs(y) + Pairs(z) + Seam(x, y) + Seam(y, z)
    ensures var m := a + Total(hdr, x);
            Live(hdr, a, x + y + z) == Live(hdr, m + Total(hdr, y), z) + (Live(hdr, m, y) + Live(hdr, a, x))
  {
    hide Total, Live, Pairs;
    TotalConcat(hdr, x + y, z);
    TotalConcat(hdr, x, y);
    PairsConcat(x + y, z);
    PairsConcat(x, y);
    assert Seam(x + y, z) == Seam(y, z);
    LiveConcat(hdr, a, x + y, z);
    LiveConcat(hdr, a, x, y);
  }

  // ---------- free ----------

  /** One pass merges free neighbours without losing or moving a byte. */
  lemma {:induction false} CoalesceLaws(hdr: Hdr, a: nat, bs: seq<Block>)
    ensures Total(hdr, Coalesce(hdr, bs)) == Total(hdr, bs)
    ensures Live(hdr, a, Coalesce(hdr, bs)) == Live(hdr, a, bs)
    decreases |bs|
  {
    hide Total, Live;
    if |bs| >= 2 {
      var k := if bs[0].free && bs[1].free then 2 else 1;
      var rest := bs[k..];
      var first := if k == 2 then Block(bs[0].sz + hdr + bs[1].sz, true) else bs[0];
      Single(hdr, a, first);
      Single(hdr, a, bs[0]);
      Single(hdr, a + hdr + bs[0].sz, bs[1]);
      TotalConcat(hdr, [bs[0]], [bs[1]]);
      LiveConcat(hdr, a, [bs[0]], [bs[1]]);
      assert bs[..k] == if k == 2 then [bs[0]] + [bs[1]] else [bs[0]];
      assert bs == bs[..k] + rest;
      TotalConcat(hdr, bs[..k], rest);
      LiveConcat(hdr, a, bs[..k], rest);
      TotalConcat(hdr, [first], Coalesce(hdr, rest));
      LiveConcat(hdr, a, [first], Coalesce(hdr, rest));
      CoalesceLaws(hdr, a + hdr + first.sz, rest);
    }
  }

  /** One pass at least halves the number of pairs. */
  lemma {:induction false} CoalesceHalves(hdr: Hdr, bs: seq<Block>)
    ensures Pairs(Coalesce(hdr, bs)) <= Pairs(bs) / 2
    decreases |bs|
  {
    if |bs| >= 2 {
      var r := Coalesce(hdr, bs);
      if bs[0].free && bs[1].free {
        var rest := bs[2..];
        CoalesceHalves(hdr, rest);
        assert r[1..] == Coalesce(hdr, rest);
        assert bs[1..][1..] == rest && (rest != [] ==> bs[1..][1] == rest[0]);
      } else {
        CoalesceHalves(hdr, bs[1..]);
        assert r[1..] == Coalesce(hdr, bs[1..]);
      }
    }
  }

  /** Marking one block free takes its payload from the live ones and adds at most two pairs. */
  lemma FreedLaws(hdr: Hdr, a: nat, bs: seq<Block>, i: nat)
    requires i < |bs| && !bs[i].free
    ensures var r := Freed(bs, i);
            var p := a + Total(hdr, bs[..i]) + hdr;
            && Total(hdr, r) == Total(hdr, bs)
            && Pairs(r) <= Pairs(bs) + 2
            && Live(hdr, a, r) == Live(hdr, a, bs) - {p}
            && p in Live(hdr, a, bs)
  {
    hide Total, Live, Pairs;
    var x, b, z := bs[..i], bs[i], bs[i + 1..];
    var c := b.(free := true);
    var m := a + Total(hdr, x);
    assert bs == x + [b] + z && Freed(bs, i) == x + [c] + z;
    Spread(hdr, a, x, [b], z);
    Spread(hdr, a, x, [c], z);
    Single(hdr, m, b);
    Single(hdr, m, c);
    AddressNew(hdr, a, x, b.sz, z);
    MapMiddle(Live(hdr, m + hdr + b.sz, z), Live(hdr, a, x), m + hdr, b.sz);
  }

  /** Each live payload belongs to one block. */
  lemma {:induction false} LiveBlock(hdr: Hdr, a: nat, bs: seq<Block>, p: nat) returns (i: nat)
    requires p in Live(hdr, a, bs)
    ensures i < |bs| && !bs[i].free && p == a + Total(hdr, bs[..i]) + hdr && bs[i].sz == Live(hdr, a, bs)[p]
    decreases |bs|
  {
    var a' := a + hdr + bs[0].sz;
    var rest := Live(hdr, a', bs[1..]);
    if p in rest {
      LiveInside(hdr, a', bs[1..], p);
      i := LiveBlock(hdr, a', bs[1..], p);
      assert bs[1..][..i] == bs[..i + 1][1..];
      i := i + 1;
    } else {
      i := 0;
    }
  }

  lemma {:induction false} AllFreePairs(bs: seq<Block>)
    requires forall b | b in bs :: b.free
    requires bs != []
    ensures Pairs(bs) == |bs| - 1
  {
    if |bs| > 1 {
      AllFreePairs(bs[1..]);
    }
  }

  /** One pass over a run of three free blocks leaves two. */
  lemma RunOfThree(hdr: Hdr, x: nat, y: nat, z: nat)
    ensures Coalesce(hdr, [Block(x, true), Block(y, true), Block(z, true)]) ==
            [Block(x + hdr + y, true), Block(z, true)]
  {
    var bs := [Block(x, true), Block(y, true), Block(z, true)];
    assert bs[2..] == [Block(z, true)];
  }
}

/** Every run of `alloc` and of `free` on live payloads. */
module HeapRuns {
  import opened HeapSpec
  import opened HeapLaws

  /** Addresses are payload addresses; 0 is the null pointer. */
  datatype Call = AllocCall(sz: nat) | FreeCall(p: nat)

  /** The index of the block whose payload is at `p`, or the number of blocks. */
  function IndexOf(hdr: Hdr, a: nat, bs: seq<Block>, p: nat): (i: nat)
    ensures i <= |bs|
    ensures i < |bs| ==> p == a + Total(hdr, bs[..i]) + hdr
    decreases |bs|
  {
    if bs == [] then 0
    else if p == a + hdr then 0
    else
      var i := 1 + IndexOf(hdr, a + hdr + bs[0].sz, bs[1..], p);
      assert i < |bs| ==> bs[..i][1..] == bs[1..][..i - 1];
      i
  }

  function Step(hdr: Hdr, a: nat, bs: seq<Block>, c: Call): seq<Block> {
    match c
    case AllocCall(sz) => (match Alloc(hdr, bs, Round(hdr, sz)) case Some(r) => r case None => bs)
    case FreeCall(p) =>
      var i := IndexOf(hdr, a, bs, p);
      if p == 0 || i == |bs| then bs else Coalesce(hdr, Freed(bs, i))
  }

  /** Only a null pointer or a live payload is freed. */
  predicate Allowed(hdr: Hdr, a: nat, bs: seq<Block>, c: Call) {
    c.FreeCall? ==> c.p == 0 || c.p in Live(hdr, a, bs)
  }

  predicate Legal(hdr: Hdr, a: nat, bs: seq<Block>, calls: seq<Call>)
    decreases |calls|
  {
    calls == [] || (Allowed(hdr, a, bs, calls[0]) && Legal(hdr, a, Step(hdr, a, bs, calls[0]), calls[1..]))
  }

  function Run(hdr: Hdr, a: nat, bs: seq<Block>, calls: seq<Call>): seq<Block>
    decreases |calls|
  {
    if calls == [] then bs else Run(hdr, a, Step(hdr, a, bs, calls[0]), calls[1..])
  }

  /** The blocks tile an arena of `n` bytes and at most one pair of neighbours is free. */
  predicate Inv(hdr: Hdr, bs: seq<Block>, n: nat) {
    bs != [] && Total(hdr, bs) == n && Pairs(bs) <= 1
  }

  lemma {:induction false} IndexOfLive(hdr: Hdr, a: nat, bs: seq<Block>, i: nat)
    requires i < |bs|
    ensures IndexOf(hdr, a, bs, a + Total(hdr, bs[..i]) + hdr) == i
    decreases |bs|
  {
    if i > 0 {
      assert bs[..i][1..] == bs[1..][..i - 1];
      IndexOfLive(hdr, a + hdr + bs[0].sz, bs[1..], i - 1);
    } else {
      assert bs[..0] == [];
    }
  }

  /** What one free does: its own payload goes, every other stays where it is. */
  lemma FreeLaws(hdr: Hdr, a: nat, bs: seq<Block>, p: nat, n: nat)
    requires Inv(hdr, bs, n) && p in Live(hdr, a, bs)
    ensures var r := Step(hdr, a, bs, FreeCall(p));
            Inv(hdr, r, n) && Live(hdr, a, r) == Live(hdr, a, bs) - {p}
  {
    hide Total, Live, Pairs, Coalesce;
    var i := LiveBlock(hdr, a, bs, p);
    IndexOfLive(hdr, a, bs, i);
    FreedLaws(hdr, a, bs, i);
    CoalesceLaws(hdr, a, Freed(bs, i));
    CoalesceHalves(hdr, Freed(bs, i));
  }

  lemma StepKeeps(hdr: Hdr, a: nat, bs: seq<Block>, c: Call, n: nat)
    requires Inv(hdr, bs, n) && Allowed(hdr, a, bs, c)
    ensures Inv(hdr, Step(hdr, a, bs, c), n)
    ensures forall p | p in Live(hdr, a, bs) && c != FreeCall(p) ::
              && p in Live(hdr, a, Step(hdr, a, bs, c))
              && Live(hdr, a, Step(hdr, a, bs, c))[p] == Live(hdr, a, bs)[p]
  {
    hide Coalesce, Pairs, Live, Total;
    match c
    case AllocCall(sz) => AllocLaws(hdr, a, bs, Round(hdr, sz));
    case FreeCall(p) =>
      if p != 0 {
        FreeLaws(hdr, a, bs, p, n);
      }
  }

  /**
   In every reachable state the blocks tile the arena and there is at most one pair of adjacent free
   blocks; a payload stays live, in place and at its size until it is freed itself.
   */
  lemma {:induction false} RunSafe(hdr: Hdr, a: nat, bs: seq<Block>, calls: seq<Call>, n: nat, p: nat)
    requires Inv(hdr, bs, n) && Legal(hdr, a, bs, calls)
    ensures Inv(hdr, Run(hdr, a, bs, calls), n)
    ensures p in Live(hdr, a, bs) && FreeCall(p) !in calls ==>
              && p in Live(hdr, a, Run(hdr, a, bs, calls))
              && Live(hdr, a, Run(hdr, a, bs, calls))[p] == Live(hdr, a, bs)[p]
    decreases |calls|
  {
    hide Inv, Live, Step;
    if calls != [] {
      StepKeeps(hdr, a, bs, calls[0], n);
      RunSafe(hdr, a, Step(hdr, a, bs, calls[0]), calls[1..], n, p);
    }
  }

  /** `riv_heap_init`: one free block. */
  function Start(hdr: Hdr, n: nat): seq<Block>
    requires n >= hdr
  {
    [Block(n - hdr, true)]
  }

  lemma StartIsSafe(hdr: Hdr, n: nat)
    requires n >= hdr
    ensures Inv(hdr, Start(hdr, n), n) && forall a :: Live(hdr, a, Start(hdr, n)) == map[]
  {
    hide Total, Pairs, Live;
    forall a: nat ensures Live(hdr, a, Start(hdr, n)) == map[] {
      Single(hdr, a, Block(n - hdr, true));
    }
    Single(hdr, 0, Block(n - hdr, true));
  }

  lemma NothingLive(hdr: Hdr, a: nat, bs: seq<Block>)
    requires Live(hdr, a, bs) == map[]
    ensures forall b | b in bs :: b.free
  {
    forall i | 0 <= i < |bs| ensures bs[i].free {
      if !bs[i].free { FreedLaws(hdr, a, bs, i); assert false; }
    }
  }

  /** When everything has been freed, at most two blocks are left. */
  lemma AtMostTwoLeft(hdr: Hdr, a: nat, n: nat, calls: seq<Call>)
    requires n >= hdr && Legal(hdr, a, Start(hdr, n), calls)
    requires Live(hdr, a, Run(hdr, a, Start(hdr, n), calls)) == map[]
    ensures |Run(hdr, a, Start(hdr, n), calls)| <= 2
  {
    StartIsSafe(hdr, n);
    RunSafe(hdr, a, Start(hdr, n), calls, n, 0);
    var r := Run(hdr, a, Start(hdr, n), calls);
    NothingLive(hdr, a, r);
    AllFreePairs(r);
  }

  /** A request for 2^64 - 1 bytes rounds to nothing and is granted a payload of no bytes. */
  lemma HugeRequestGranted()
    ensures var bs := Start(24, 1000);
            var r := Step(24, 4096, bs, AllocCall(0xFFFF_FFFF_FFFF_FFFF));
            r == [Block(0, false), Block(952, true)] && Live(24, 4096, r) == map[4120 := 0]
  {
    var bs := Start(24, 1000);
    assert FirstFit(bs, 0) == 0;
    CarveLaws(24, 4096, bs[0], 0);
    assert Step(24, 4096, bs, AllocCall(0xFFFF_FFFF_FFFF_FFFF)) == Carve(24, bs[0], 0);
  }

  /** The bound is reached: two allocations freed in order leave a run of three that one pass does not clear. */
  lemma TwoLeft()
    ensures var calls := [AllocCall(8), AllocCall(8), FreeCall(4120), FreeCall(4152)];
            && Legal(24, 4096, Start(24, 1000), calls)
            && Live(24, 4096, Run(24, 4096, Start(24, 1000), calls)) == map[]
            && Run(24, 4096, Start(24, 1000), calls) == [Block(40, true), Block(912, true)]
  {
    hide Step, Allowed, Live;
    TwoLeftAllocs();
    TwoLeftFrees();
    var s0, s1 := Start(24, 1000), [Block(8, false), Block(944, true)];
    var s2 := [Block(8, false), Block(8, false), Block(912, true)];
    var s3 := [Block(8, true), Block(8, false), Block(912, true)];
    var s4 := [Block(40, true), Block(912, true)];
    var c3, c2, c1 := [FreeCall(4152)], [FreeCall(4120), FreeCall(4152)], [AllocCall(8), FreeCall(4120),
        FreeCall(4152)];
    assert c3[1..] == [] && c2[1..] == c3 && c1[1..] == c2;
    assert [AllocCall(8), AllocCall(8), FreeCall(4120), FreeCall(4152)][1..] == c1;
    assert Run(24, 4096, s3, c3) == s4 && Legal(24, 4096, s3, c3);
    assert Run(24, 4096, s2, c2) == s4 && Legal(24, 4096, s2, c2);
    assert Run(24, 4096, s1, c1) == s4 && Legal(24, 4096, s1, c1);
  }

  lemma TwoLeftAllocs()
    ensures var s1 := [Block(8, false), Block(944, true)];
            && Allowed(24, 4096, Start(24, 1000), AllocCall(8)) && Step(24, 4096, Start(24, 1000), AllocCall(8)) == s1
            && Allowed(24, 4096, s1, AllocCall(8))
            && Step(24, 4096, s1, AllocCall(8)) == [Block(8, false), Block(8, false), Block(912, true)]
  {
    var s1 := [Block(8, false), Block(944, true)];
    assert s1[1..] == [Block(944, true)];
    assert FirstFit(s1, 8) == 1;
  }

  lemma TwoLeftFrees()
    ensures var s2 := [Block(8, false), Block(8, false), Block(912, true)];
            var s3 := [Block(8, true), Block(8, false), Block(912, true)];
            var s4 := [Block(40, true), Block(912, true)];
            && Allowed(24, 4096, s2, FreeCall(4120)) && Step(24, 4096, s2, FreeCall(4120)) == s3
            && Allowed(24, 4096, s3, FreeCall(4152)) && Step(24, 4096, s3, FreeCall(4152)) == s4
            && Live(24, 4096, s4) == map[]
  {
    hide Live;
    var s2 := [Block(8, false), Block(8, false), Block(912, true)];
    var s3 := [Block(8, true), Block(8, false), Block(912, true)];
    IndexOfLive(24, 4096, s2, 0);
    FreedLaws(24, 4096, s2, 0);
    Total0(s2, s3);
    IndexOfLive(24, 4096, s3, 1);
    FreedLaws(24, 4096, s3, 1);
    RunOfThree(24, 8, 8, 912);
    assert s3[1..] == [Block(8, false), Block(912, true)];
    Single(24, 4096, Block(40, true));
    Single(24, 4160, Block(912, true));
    LiveConcat(24, 4096, [Block(40, true)], [Block(912, true)]);
  }

  lemma Total0(s2: seq<Block>, s3: seq<Block>)
    requires |s2| == 3 && |s3| == 3 && s3[0] == Block(8, true)
    ensures Total(24, s2[..0]) == 0 && Total(24, s3[..1]) == 32
  {
    assert s3[..1] == [Block(8, true)];
    Single(24, 0, Block(8, true));
  }
}

/** `heap.h` as code: headers in memory, linked in address order. */
module Heap {
  import opened HeapSpec
  import opened HeapLaws
  import opened HeapRuns

  datatype Header = Header(sz: nat, next: nat, free: bool)

  /** From address `a` the headers describe the blocks `bs`, each ending where the next begins. */
  ghost predicate Chain(hdr: Hdr, mem: map<nat, Header>, a: nat, bs: seq<Block>)
    decreases |bs|
  {
    && bs != [] && a in mem
    && mem[a] == Header(bs[0].sz, if |bs| == 1 then 0 else a + hdr + bs[0].sz, bs[0].free)
    && (|bs| > 1 ==> Chain(hdr, mem, a + hdr + bs[0].sz, bs[1..]))
  }

  ghost predicate Agree(m: map<nat, Header>, m': map<nat, Header>, lo: int, hi: int) {
    forall x: nat | lo <= x < hi && x in m :: x in m' && m'[x] == m[x]
  }

  /** Headers below a chain do not matter to it. */
  lemma {:induction false} ChainFrame(hdr: Hdr, m: map<nat, Header>, m': map<nat, Header>, a: nat, bs: seq<Block>)
    requires Chain(hdr, m, a, bs) && Agree(m, m', a, a + Total(hdr, bs))
    ensures Chain(hdr, m', a, bs)
    decreases |bs|
  {
    if |bs| > 1 {
      ChainFrame(hdr, m, m', a + hdr + bs[0].sz, bs[1..]);
    }
  }

  lemma {:induction false} ChainSuffix(hdr: Hdr, m: map<nat, Header>, a: nat, x: seq<Block>, y: seq<Block>)
    requires Chain(hdr, m, a, x + y) && y != []
    ensures Chain(hdr, m, a + Total(hdr, x), y)
    decreases |x|
  {
    if x == [] {
      assert x + y == y;
    } else {
      assert (x + y)[1..] == x[1..] + y;
      ChainSuffix(hdr, m, a + hdr + x[0].sz, x[1..], y);
    }
  }

  /** A new tail for a chain whose earlier headers are untouched. */
  lemma {:induction false} ChainSplice(
      hdr: Hdr, m: map<nat, Header>, m': map<nat, Header>, a: nat, x: seq<Block>, y: seq<Block>, y': seq<Block>)
    requires Chain(hdr, m, a, x + y) && y != [] && y' != []
    requires Agree(m, m', a, a + Total(hdr, x)) && Chain(hdr, m', a + Total(hdr, x), y')
    ensures Chain(hdr, m', a, x + y')
    decreases |x|
  {
    if x == [] {
      assert x + y' == y';
    } else {
      assert (x + y)[1..] == x[1..] + y && (x + y')[1..] == x[1..] + y';
      ChainSplice(hdr, m, m', a + hdr + x[0].sz, x[1..], y, y');
    }
  }

  lemma {:induction false} BlockWithin(hdr: Hdr, bs: seq<Block>, i: nat)
    requires i < |bs|
    ensures Total(hdr, bs[..i]) + hdr + bs[i].sz + Total(hdr, bs[i + 1..]) == Total(hdr, bs)
  {
    hide Total;
    assert bs == bs[..i] + [bs[i]] + bs[i + 1..];
    TotalConcat(hdr, bs[..i] + [bs[i]], bs[i + 1..]);
    TotalConcat(hdr, bs[..i], [bs[i]]);
    Single(hdr, 0, bs[i]);
  }

  class Heap {
    const hdr: Hdr
    const head: nat
    var mem: map<nat, Header>
    ghost var bs: seq<Block>
    ghost const n: nat

    ghost predicate Valid()
      reads this
    {
      head > 0 && n + ALIGN < Word(hdr) && Chain(hdr, mem, head, bs) && Inv(hdr, bs, n)
    }

    /** The payloads handed out, by address. */
    ghost function Payloads(): map<nat, nat>
      reads this
    {
      Live(hdr, head, bs)
    }

    /** `riv_heap_init`: the block tiles the arena if and only if the arena holds a header. */
    constructor (hdr: Hdr, base: nat, n: nat)
      requires ALIGN <= base && base + n < Word(hdr)
      ensures this.hdr == hdr && head == base && this.n == n
      ensures mem == map[base := Header(FirstSize(hdr, n), 0, true)] && Payloads() == map[]
      ensures Valid() <==> hdr <= n
      ensures hdr <= n ==> bs == Start(hdr, n)
    {
      this.hdr, head, this.n := hdr, base, n;
      mem := map[base := Header(FirstSize(hdr, n), 0, true)];
      bs := [Block(FirstSize(hdr, n), true)];
      new;
      FirstSizeExact(hdr, n);
      Single(hdr, base, bs[0]);
      if hdr <= n {
        StartIsSafe(hdr, n);
      }
    }

    /** Block `i` is at address `b`; past the last block the pointer is null. */
    ghost predicate At(b: nat, i: nat)
      reads this
    {
      && i <= |bs|
      && (if i == |bs| then b == 0
          else b == head + Total(hdr, bs[..i]) && Chain(hdr, mem, b, bs[i..]))
    }

    lemma AtNext(b: nat, i: nat)
      requires i < |bs| && At(b, i)
      ensures b in mem && mem[b].sz == bs[i].sz && mem[b].free == bs[i].free && At(mem[b].next, i + 1)
    {
      assert bs[i..][1..] == bs[i + 1..];
      assert bs[..i + 1] == bs[..i] + [bs[i]];
      TotalConcat(hdr, bs[..i], [bs[i]]);
      Single(hdr, 0, bs[i]);
    }

    method Alloc(size: nat) returns (p: nat)
      requires Valid() && size < Word(hdr)
      modifies this
      ensures Valid() && bs == Step(hdr, head, old(bs), AllocCall(size))
      ensures p == 0 <==> forall j | 0 <= j < |old(bs)| :: !Fits(old(bs)[j], Round(hdr, size))
      ensures p == 0 ==> Payloads() == old(Payloads())
      ensures p != 0 ==>
                && p !in old(Payloads()) && p in Payloads() && Payloads()[p] >= Round(hdr, size)
                && Payloads() == old(Payloads())[p := Payloads()[p]]
                && (Payloads()[p] >= size <==> size <= Word(hdr) - ALIGN)
    {
      hide Chain, Total, Live, Pairs, Carve, Word, FirstFit;
      RoundExact(hdr, size);
      var need := Round(hdr, size);
      AllocLaws(hdr, head, bs, need);
      StepKeeps(hdr, head, bs, AllocCall(size), n);
      ghost var i := FirstFit(bs, need);
      var b := Scan(need);
      if b == 0 { return 0; }
      Take(b, need, i);
      LiveInside(hdr, head, bs, b + hdr);
      return b + hdr;
    }

    /** The walk of `riv_heap_alloc` along the list, up to the first block that fits. */
    method Scan(need: nat) returns (b: nat)
      requires Valid()
      ensures At(b, FirstFit(bs, need))
    {
      hide Chain, Total, Live, Pairs, Word;
      b := head;
      ghost var i: nat := 0;
      assert bs[..0] == [] && bs[0..] == bs;
      NoBlocks(hdr);
      while b != 0
        invariant 0 <= i && At(b, i) && FirstFit(bs, need) == i + FirstFit(bs[i..], need)
        decreases |bs| - i
      {
        AtNext(b, i);
        assert bs[i..][1..] == bs[i + 1..] && bs[i..][0] == bs[i];
        if mem[b].free && mem[b].sz >= need { return; }
        b, i := mem[b].next, i + 1;
      }
    }

    /** `riv_heap_free` on the null pointer or on a live payload. */
    method Free(p: nat)
      requires Valid() && (p == 0 || p in Payloads())
      modifies this
      ensures Valid() && bs == Step(hdr, head, old(bs), FreeCall(p))
      ensures Payloads() == if p == 0 then old(Payloads()) else old(Payloads()) - {p}
    {
      hide Chain, Total, Live, Pairs, Coalesce, Word;
      if p == 0 { return; }
      FreeLaws(hdr, head, bs, p, n);
      ghost var i := LiveBlock(hdr, head, bs, p);
      IndexOfLive(hdr, head, bs, i);
      var b := p - hdr;
      ghost var x, y := bs[..i], bs[i + 1..];
      assert bs == x + ([bs[i]] + y);
      ChainSuffix(hdr, mem, head, x, [bs[i]] + y);
      FirstIs(hdr, mem, b, [bs[i]] + y);
      FlagSet(hdr, mem, b, bs[i], y, true);
      ghost var was := mem;
      mem := mem[b := mem[b].(free := true)];
      ChainSplice(hdr, was, mem, head, x, [bs[i]] + y, [bs[i].(free := true)] + y);
      bs := Freed(bs, i);
      assert bs == x + ([old(bs)[i].(free := true)] + y);
      Merge();
    }

    /** The coalescing pass of `riv_heap_free`. */
    method Merge()
      requires head > 0 && Chain(hdr, mem, head, bs)
      modifies this
      ensures Chain(hdr, mem, head, bs) && bs == Coalesce(hdr, old(bs))
    {
      hide Chain, Total, Coalesce, MergeHead;
      ghost var done: seq<Block>, rest: seq<Block> := [], bs;
      ghost var was := bs;
      var it: nat := head;
      NoBlocks(hdr);
      FirstIs(hdr, mem, head, bs);
      while it != 0
        invariant Chain(hdr, mem, head, bs) && bs == done + rest && Coalesce(hdr, was) == done + Coalesce(hdr, rest)
        invariant it == if rest == [] then 0 else head + Total(hdr, done)
        decreases |rest|
      {
        MergeStep(hdr, rest);
        MergeAt(it, done, rest);
        rest := MergeHead(hdr, rest);
        ChainSuffix(hdr, mem, head, done, rest);
        FirstIs(hdr, mem, it, rest);
        it := mem[it].next;
        TotalConcat(hdr, done, [rest[0]]);
        Single(hdr, 0, rest[0]);
        assert done + rest == (done + [rest[0]]) + rest[1..];
        done, rest := done + [rest[0]], rest[1..];
      }
      assert done + Coalesce(hdr, rest) == bs;
    }

    /** One turn of the pass: the block at `it` swallows its neighbour when both are free. */
    method MergeAt(it: nat, ghost done: seq<Block>, ghost rest: seq<Block>)
      requires Chain(hdr, mem, head, bs) && bs == done + rest && rest != [] && it == head + Total(hdr, done) && it > 0
      modifies this
      ensures Chain(hdr, mem, head, bs) && bs == done + MergeHead(hdr, rest)
    {
      hide Chain, Total;
      ChainSuffix(hdr, mem, head, done, rest);
      FirstIs(hdr, mem, it, rest);
      if |rest| > 1 { FirstIs(hdr, mem, mem[it].next, rest[1..]); }
      if mem[it].free && mem[it].next != 0 && mem[mem[it].next].free {
        ghost var m := Block(rest[0].sz + hdr + rest[1].sz, true);
        ghost var tail := rest[2..];
        assert rest == [rest[0], rest[1]] + tail;
        Merged(hdr, mem, it, rest[0], rest[1], tail);
        ghost var before := mem;
        var next := mem[it].next;
        mem := mem[it := Header(mem[it].sz + hdr + mem[next].sz, mem[next].next, mem[it].free)];
        ChainSplice(hdr, before, mem, head, done, rest, [m] + tail);
        bs := done + ([m] + tail);
      }
    }

    /** The part of `riv_heap_alloc` that changes memory: block `i` fits. */
    method Take(b: nat, need: nat, ghost i: nat)
      requires Valid() && i < |bs| && At(b, i) && bs[i].free && bs[i].sz >= need
      modifies this
      ensures bs == old(bs[..i] + Carve(hdr, bs[i], need) + bs[i + 1..])
      ensures Chain(hdr, mem, head, bs)
    {
      hide Chain, Total, Pairs, Word;
      ghost var x, y := bs[..i], bs[i..];
      ghost var was := mem;
      assert x + y == bs;
      AtNext(b, i);
      BlockWithin(hdr, bs, i);
      ghost var c := Carve(hdr, bs[i], need);
      ghost var rest := bs[i + 1..];
      assert y == [bs[i]] + rest;
      NoWrap(hdr, need + hdr + ALIGN);
      if mem[b].sz >= (need + hdr + ALIGN) % Word(hdr) {
        var m := b + hdr + need;
        var found := mem[b];
        mem := mem[m := Header(found.sz - need - hdr, found.next, true)];
        mem := mem[b := Header(need, m, found.free)];
      }
      mem := mem[b := mem[b].(free := false)];
      Rebuilt(was, mem, b, bs[i], c, rest, need);
      ChainSplice(hdr, was, mem, head, x, y, c + rest);
      bs := x + c + rest;
      assert bs == x + (c + rest);
    }

    /** The headers after the cut: the block's own, the new one if there is one, and the old tail. */
    lemma Rebuilt(was: map<nat, Header>, m: map<nat, Header>, b: nat, blk: Block, c: seq<Block>, rest: seq<Block>,
        need: nat)
      requires Chain(hdr, was, b, [blk] + rest) && blk.sz >= need && c == Carve(hdr, blk, need)
      requires if blk.sz >= need + hdr + ALIGN
               then m == was[b + hdr + need := Header(blk.sz - need - hdr, was[b].next, true)]
                            [b := Header(need, b + hdr + need, false)]
               else m == was[b := was[b].(free := false)]
      ensures Chain(hdr, m, b, c + rest)
    {
      assert ([blk] + rest)[1..] == rest;
      if rest != [] {
        ChainFrame(hdr, was, m, b + hdr + blk.sz, rest);
      }
      assert (c + rest)[1..] == c[1..] + rest;
      if |c| == 2 {
        assert (c + rest)[1..] == [c[1]] + rest && ([c[1]] + rest)[1..] == rest;
      }
    }
  }

  lemma FirstIs(hdr: Hdr, m: map<nat, Header>, a: nat, bs: seq<Block>)
    requires Chain(hdr, m, a, bs)
    ensures bs != [] && a in m && m[a].sz == bs[0].sz && m[a].free == bs[0].free
    ensures m[a].next == if |bs| == 1 then 0 else a + hdr + bs[0].sz
    ensures |bs| > 1 ==> Chain(hdr, m, m[a].next, bs[1..])
  {
  }

  function MergeHead(hdr: Hdr, bs: seq<Block>): seq<Block> {
    if |bs| > 1 && bs[0].free && bs[1].free
    then [Block(bs[0].sz + hdr + bs[1].sz, true)] + bs[2..]
    else bs
  }

  lemma MergeStep(hdr: Hdr, bs: seq<Block>)
    requires bs != []
    ensures var r := MergeHead(hdr, bs);
            r != [] && |r| <= |bs| && Coalesce(hdr, bs) == [r[0]] + Coalesce(hdr, r[1..])
  {
    if |bs| == 1 {
      assert bs[1..] == [];
    } else if bs[0].free && bs[1].free {
      assert MergeHead(hdr, bs)[1..] == bs[2..];
    }
  }

  /** Changing the flag of the first header. */
  lemma FlagSet(hdr: Hdr, m: map<nat, Header>, a: nat, b: Block, rest: seq<Block>, free: bool)
    requires Chain(hdr, m, a, [b] + rest)
    ensures Chain(hdr, m[a := m[a].(free := free)], a, [b.(free := free)] + rest)
  {
    var m' := m[a := m[a].(free := free)];
    assert ([b] + rest)[1..] == rest && ([b.(free := free)] + rest)[1..] == rest;
    if rest != [] {
      ChainFrame(hdr, m, m', a + hdr + b.sz, rest);
    }
  }

  /** The first header takes over its neighbour's block. */
  lemma Merged(hdr: Hdr, m: map<nat, Header>, a: nat, b: Block, c: Block, rest: seq<Block>)
    requires Chain(hdr, m, a, [b, c] + rest)
    ensures m[a].next in m
    ensures Chain(hdr, m[a := Header(b.sz + hdr + c.sz, m[m[a].next].next, b.free)], a,
                  [Block(b.sz + hdr + c.sz, b.free)] + rest)
  {
    var m' := m[a := Header(b.sz + hdr + c.sz, m[m[a].next].next, b.free)];
    assert ([b, c] + rest)[1..] == [c] + rest && ([c] + rest)[1..] == rest;
    assert ([Block(b.sz + hdr + c.sz, b.free)] + rest)[1..] == rest;
    if rest != [] {
      ChainFrame(hdr, m, m', a + hdr + b.sz + hdr + c.sz, rest);
    }
  }

  /** Bounded by the arena, the sizes compared do not wrap. */
  lemma NoWrap(hdr: Hdr, x: nat)
    requires x < Word(hdr)
    ensures x % Word(hdr) == x
  {
  }

  lemma NoBlocks(hdr: Hdr)
    ensures Total(hdr, []) == 0
  {
  }
}
