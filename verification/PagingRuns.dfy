/**
 Every run of the page-table calls over one pool: any number of page maps, created as the run goes,
 mixed with frames taken from and given back to the allocator and written by their holders.
 */
module PagingRuns {
  import opened Basics
  import opened Frames
  import opened PageTable
  import opened PageTree
  import opened PageMaps

  /** The pool, the roots of the page maps, and the frames the kernel took for itself. */
  datatype Kernel = Kernel(pool: Pool, roots: seq<nat>, held: set<nat>)

  datatype Call =
    | NewMap
    | Map(i: nat, vaddr: nat, paddr: nat, flags: Flags)
    | Unmap(i: nat, vaddr: nat)
    | TakeFrame
    | GiveFrame(frame: nat)
    | WriteFrame(frame: nat, entries: seq<nat>)

  /** The kernel passes page maps it has, addresses of the machine's width, and frames it holds. */
  predicate Allowed(a: Arch, k: Kernel, c: Call) {
    match c
    case Map(i, v, p, _) => i < |k.roots| && p < a.VaddrLimit()
    case Unmap(i, _) => i < |k.roots|
    case GiveFrame(f) => f in k.held
    case WriteFrame(f, es) => f in k.held && |es| == a.Radix()
    case _ => true
  }

  function Step(a: Arch, k: Kernel, c: Call): Kernel
    requires Allowed(a, k, c)
  {
    match c
    case NewMap =>
      var (p, f) := Allocate(k.pool, a.Radix());
      k.(pool := p, roots := if f == 0 then k.roots else k.roots + [f])
    case Map(i, v, p, flags) => k.(pool := MapPage(a, k.pool, k.roots[i], v, p, flags).0)
    case Unmap(i, v) => k.(pool := UnmapPage(a, k.pool, k.roots[i], v).0)
    case TakeFrame =>
      var (p, f) := Allocate(k.pool, a.Radix());
      k.(pool := p, held := if f == 0 then k.held else k.held + {f})
    case GiveFrame(f) => k.(pool := Release(k.pool, f), held := k.held - {f})
    case WriteFrame(f, es) => k.(pool := Overwrite(k.pool, f, es))
  }

  function Overwrite(p: Pool, f: nat, entries: seq<nat>): Pool {
    p.(ram := p.ram[f := entries])
  }

  ghost predicate Legal(a: Arch, k: Kernel, calls: seq<Call>)
    decreases |calls|
  {
    calls == [] || (Allowed(a, k, calls[0]) && Legal(a, Step(a, k, calls[0]), calls[1..]))
  }

  ghost function Run(a: Arch, k: Kernel, calls: seq<Call>): Kernel
    requires Legal(a, k, calls)
    decreases |calls|
  {
    if calls == [] then k else Run(a, Step(a, k, calls[0]), calls[1..])
  }

  // ---------- what the calls amount to ----------

  /** One plain map from virtual to physical pages for each page map. */
  type Mappings = seq<map<nat, nat>>

  /** What the plain map `m` of page map `i` is after a call. */
  function MapAfter(a: Arch, k: Kernel, c: Call, i: nat, m: map<nat, nat>): map<nat, nat>
    requires i < |k.roots|
  {
    match c
    case Map(j, v, p, flags) =>
      var page: nat := p / 4096 * 4096 % a.AddrLimit();
      if j == i && |k.pool.free| >= Missing(a, k.pool.ram, k.roots[i], a.Path(v), 0) then m[a.Page(v) := page] else m
    case Unmap(j, v) => if j == i then m - {a.Page(v)} else m
    case _ => m
  }

  /** A new page map is created empty, if there is a frame for it. */
  predicate Adds(k: Kernel, c: Call) {
    c.NewMap? && k.pool.free != {}
  }

  function MappingStep(a: Arch, k: Kernel, ms: Mappings, c: Call): (r: Mappings)
    requires |ms| == |k.roots|
    ensures |r| == |ms| + if Adds(k, c) then 1 else 0
    ensures forall i | 0 <= i < |ms| :: r[i] == MapAfter(a, k, c, i, ms[i])
    ensures Adds(k, c) ==> r[|ms|] == map[]
  {
    seq(|ms|, i requires 0 <= i < |ms| => MapAfter(a, k, c, i, ms[i])) + if Adds(k, c) then [map[]] else []
  }

  function Lookup(a: Arch, m: map<nat, nat>, v: nat): nat {
    if a.Page(v) in m then m[a.Page(v)] + v % 4096 else 0
  }

  /** `walk` in the page map at `root` reads the plain map `m`. */
  ghost predicate Translates(a: Arch, p: Pool, root: nat, m: map<nat, nat>) {
    forall v: nat :: WalkPage(a, p.ram, root, v) == Lookup(a, m, v)
  }

  ghost predicate Agree(a: Arch, k: Kernel, ms: Mappings) {
    |ms| == |k.roots| && forall i | 0 <= i < |ms| :: Translates(a, k.pool, k.roots[i], ms[i])
  }

  // ---------- the invariant ----------

  /** Frame `f` is a table of page map `i`. */
  ghost predicate Owns(a: Arch, k: Kernel, i: nat, f: nat) {
    i < |k.roots| && Table(a, k.pool, k.roots[i], f)
  }

  /** `f` is one of the frames that `riv_pmm_free` can name. */
  predicate Framed(p: Pool, f: nat) {
    f >= p.base && FreedIndex(p.base, f) < p.nframes && Addr(p.base, FreedIndex(p.base, f)) == f
  }

  /**
   Every frame of the region is free, held, or a table of exactly one page map, and only one of these,
   and `free_count` is the number of free frames.
   */
  ghost predicate Invariant(a: Arch, k: Kernel) {
    && ValidPool(a, k.pool) && Counted(k.pool)
    && (forall i | 0 <= i < |k.roots| :: WellFormed(a, k.pool, k.roots[i]))
    && (forall i: nat, j: nat, f: nat | Owns(a, k, i, f) && Owns(a, k, j, f) :: i == j)
    && k.held !! k.pool.free
    && (forall f: nat | f in k.held :: f in k.pool.ram && Framed(k.pool, f))
    && (forall i: nat, f: nat | Owns(a, k, i, f) :: f !in k.held)
    && (forall f: nat | f in k.pool.ram :: f in k.pool.free || f in k.held || exists i: nat :: Owns(a, k, i, f))
  }

  /** A step that leaves the tables of a page map alone leaves the page map alone. */
  lemma MapUntouched(a: Arch, p: Pool, p': Pool, root: nat)
    requires WellFormed(a, p, root) && ValidPool(a, p')
    requires forall g: nat | Table(a, p, root, g) :: g in p'.ram && p'.ram[g] == p.ram[g] && g !in p'.free
    ensures WellFormed(a, p', root)
    ensures forall g: nat :: Table(a, p', root, g) <==> Table(a, p, root, g)
    ensures forall m :: Translates(a, p, root, m) ==> Translates(a, p', root, m)
  {
    hide ValidPool;
    var tree, tree' := Tree(a, p.ram), Tree(a, p'.ram);
    assert forall g: nat | IsTable(a.Levels(), tree, root, g) :: Table(a, p, root, g);
    forall q | |q| <= a.Levels() ensures Descend(tree', root, q) == Descend(tree, root, q) {
      OtherFramesInvisible(a.Levels(), tree, tree', root, q);
    }
    SamePathsSameTables(a.Levels(), tree, tree', root);
    assert forall v: nat :: WalkPage(a, p'.ram, root, v) == WalkPage(a, p.ram, root, v);
  }

  /** A zeroed frame that is not free is a page map that translates nothing. */
  lemma EmptyMap(a: Arch, p: Pool, f: nat)
    requires ValidPool(a, p) && f in p.ram && f !in p.free && p.ram[f] == Repeat<nat>(a.Radix(), 0)
    ensures WellFormed(a, p, f) && Translates(a, p, f, map[])
    ensures forall g: nat :: Table(a, p, f, g) <==> g == f
  {
    var tree := Tree(a, p.ram);
    assert DecodeTable(a, p.ram[f]) == NoLinks(a.Radix());
    assert forall i: nat :: Child(tree, f, i).None?;
    forall q | q != [] ensures Descend(tree, f, q).None? {
      NothingBelow(tree, f, [], q);
    }
    assert LeadsTo(a.Levels(), tree, f, [], f);
    assert forall q, t: nat :: LeadsTo(a.Levels(), tree, f, q, t) ==> q == [] && t == f;
  }

  // ---------- one call ----------

  /** What one call keeps: the invariant, and each page map reads what its plain map has become. */
  ghost predicate Kept(a: Arch, k: Kernel, c: Call)
    requires Allowed(a, k, c)
  {
    var k' := Step(a, k, c);
    && Invariant(a, k')
    && k.roots <= k'.roots && |k'.roots| == |k.roots| + (if Adds(k, c) then 1 else 0)
    && (forall i: nat, m | i < |k.roots| && Translates(a, k.pool, k.roots[i], m) ::
          Translates(a, k'.pool, k.roots[i], MapAfter(a, k, c, i, m)))
    && (Adds(k, c) ==> Translates(a, k'.pool, k'.roots[|k.roots|], map[]))
  }

  /** The frames that page map `i` takes become its tables; nobody else's frames change. */
  lemma OthersUntouched(a: Arch, k: Kernel, i: nat, p: Pool, j: nat)
    requires Invariant(a, k) && i < |k.roots| && j < |k.roots| && i != j
    requires ValidPool(a, p) && Grows(a, k.pool, p, k.roots[i])
    ensures WellFormed(a, p, k.roots[j])
    ensures forall g: nat :: Table(a, p, k.roots[j], g) <==> Table(a, k.pool, k.roots[j], g)
    ensures forall m :: Translates(a, k.pool, k.roots[j], m) ==> Translates(a, p, k.roots[j], m)
  {
    hide Table, ValidPool, NoSharing, Translates;
    forall g: nat | Table(a, k.pool, k.roots[j], g)
      ensures g in p.ram && p.ram[g] == k.pool.ram[g] && g !in p.free
    {
      assert Owns(a, k, j, g);
      assert !Owns(a, k, i, g);
    }
    MapUntouched(a, k.pool, p, k.roots[j]);
  }

  lemma TreeGrown(a: Arch, k: Kernel, i: nat, p: Pool)
    requires Invariant(a, k) && i < |k.roots|
    requires WellFormed(a, p, k.roots[i]) && Grows(a, k.pool, p, k.roots[i]) && Counted(p)
    ensures Invariant(a, k.(pool := p))
    ensures forall j: nat, m | j < |k.roots| && j != i && Translates(a, k.pool, k.roots[j], m) ::
              Translates(a, p, k.roots[j], m)
  {
    hide Table, NoSharing, Translates, FreedIndex, Region;
    var k' := k.(pool := p);
    forall j: nat | j < |k.roots| && j != i
      ensures WellFormed(a, p, k.roots[j])
      ensures forall g: nat :: Table(a, p, k.roots[j], g) <==> Table(a, k.pool, k.roots[j], g)
      ensures forall m :: Translates(a, k.pool, k.roots[j], m) ==> Translates(a, p, k.roots[j], m)
    {
      OthersUntouched(a, k, i, p, j);
    }
    forall j: nat, f: nat ensures Owns(a, k', j, f) <==> Owns(a, k, j, f) || (j == i && f in k.pool.free - p.free) {
      assert j < |k.roots| ==> (Owns(a, k, j, f) <==> Table(a, k.pool, k.roots[j], f));
    }
    forall f: nat | f in p.ram ensures f in p.free || f in k.held || exists j: nat :: Owns(a, k', j, f) {
      if f in k.pool.free - p.free {
        assert Owns(a, k', i, f);
      } else if !(f in p.free || f in k.held) {
        var j: nat :| Owns(a, k, j, f);
        assert Owns(a, k', j, f);
      }
    }
    OwnersApart(a, k, k', i, k.pool.free - p.free);
  }

  /** Taking in frames that were free keeps the page maps apart. */
  lemma OwnersApart(a: Arch, k: Kernel, k': Kernel, i: nat, taken: set<nat>)
    requires Invariant(a, k) && taken <= k.pool.free
    requires forall j: nat, f: nat :: Owns(a, k', j, f) <==> Owns(a, k, j, f) || (j == i && f in taken)
    ensures forall j: nat, l: nat, f: nat | Owns(a, k', j, f) && Owns(a, k', l, f) :: j == l
    ensures forall j: nat, f: nat | Owns(a, k', j, f) :: f !in k.held
  {
    hide Table, NoSharing, ValidPool, Framed;
    assert forall j: nat, f: nat | Owns(a, k, j, f) :: f !in k.pool.free;
  }

  lemma MapKept(a: Arch, k: Kernel, i: nat, v: nat, paddr: nat, flags: Flags)
    requires Invariant(a, k) && Allowed(a, k, Map(i, v, paddr, flags))
    ensures Kept(a, k, Map(i, v, paddr, flags))
  {
    hide Table, NoSharing, Tree, MapPage, Missing, WalkPage, Grows, ValidPool, Framed;
    var root := k.roots[i];
    var p := MapPage(a, k.pool, root, v, paddr, flags).0;
    MapRefinesUpdate(a, k.pool, root, v, paddr, flags);
    TreeGrown(a, k, i, p);
  }

  lemma UnmapKept(a: Arch, k: Kernel, i: nat, v: nat)
    requires Invariant(a, k) && Allowed(a, k, Unmap(i, v))
    ensures Kept(a, k, Unmap(i, v))
  {
    hide Table, NoSharing, Tree, UnmapPage, WalkPage, Grows, ValidPool, Framed;
    var root := k.roots[i];
    UnmapRefinesRemoval(a, k.pool, root, v);
    UnmapCounts(a, k.pool, root, v);
    TreeGrown(a, k, i, UnmapPage(a, k.pool, root, v).0);
  }

  lemma UnmapCounts(a: Arch, p: Pool, root: nat, v: nat)
    requires Counted(p)
    ensures Counted(UnmapPage(a, p, root, v).0)
  {
    hide Tree, Descend;
  }

  /** A pool whose table frames are untouched keeps every page map. */
  lemma AllUntouched(a: Arch, k: Kernel, p: Pool)
    requires Invariant(a, k) && ValidPool(a, p)
    requires forall i: nat, g: nat | Owns(a, k, i, g) :: g in p.ram && p.ram[g] == k.pool.ram[g] && g !in p.free
    ensures forall i: nat | i < |k.roots| :: WellFormed(a, p, k.roots[i])
    ensures forall i: nat, f: nat :: Owns(a, k.(pool := p), i, f) <==> Owns(a, k, i, f)
    ensures forall i: nat, m | i < |k.roots| && Translates(a, k.pool, k.roots[i], m) :: Translates(a, p, k.roots[i], m)
  {
    hide Table, NoSharing, ValidPool, Translates, Framed;
    forall i: nat | i < |k.roots|
      ensures WellFormed(a, p, k.roots[i])
      ensures forall g: nat :: Table(a, p, k.roots[i], g) <==> Table(a, k.pool, k.roots[i], g)
      ensures forall m :: Translates(a, k.pool, k.roots[i], m) ==> Translates(a, p, k.roots[i], m)
    {
      assert forall g: nat | Table(a, k.pool, k.roots[i], g) :: Owns(a, k, i, g);
      MapUntouched(a, k.pool, p, k.roots[i]);
    }
  }

  /** The pool after `riv_pmm_alloc`. */
  lemma Taken(a: Arch, k: Kernel)
    requires Invariant(a, k)
    ensures var (p, f) := Allocate(k.pool, a.Radix());
            && ValidPool(a, p) && Counted(p) && (f == 0 <==> k.pool.free == {}) && (f == 0 ==> p == k.pool)
            && (f != 0 ==>
                  && f in k.pool.free && f in k.pool.ram && Framed(k.pool, f)
                  && p.base == k.pool.base && p.nframes == k.pool.nframes && p.free == k.pool.free - {f}
                  && p.ram == k.pool.ram[f := Repeat<nat>(a.Radix(), 0)])
  {
    hide Table, NoSharing, Allocate, FreedIndex;
    AllocateIsExclusive(k.pool, a.Radix());
    var (p, f) := Allocate(k.pool, a.Radix());
    if f != 0 {
      FreeIsFramed(k.pool, f);
    }
  }

  lemma FreeIsFramed(p: Pool, f: nat)
    requires f in Region(p.base, p.nframes) && p.nframes <= MAX_FRAMES
    ensures Framed(p, f)
  {
    var i := RegionIndex(p.base, p.nframes, f);
  }

  lemma NotFree(a: Arch, k: Kernel)
    requires Invariant(a, k)
    ensures forall i: nat, g: nat | Owns(a, k, i, g) :: g in k.pool.ram && g !in k.pool.free
  {
    hide Table, NoSharing, ValidPool, Framed;
  }

  lemma TakeKept(a: Arch, k: Kernel)
    requires Invariant(a, k)
    ensures Kept(a, k, TakeFrame)
  {
    hide Table, NoSharing, ValidPool, Allocate, WellFormed, Translates, Framed, Invariant, Owns;
    Taken(a, k);
    NotFree(a, k);
    var (p, f) := Allocate(k.pool, a.Radix());
    if f != 0 {
      AllUntouched(a, k, p);
      HeldTaken(a, k, p, f);
    }
  }

  /** A frame that was free and is now held. */
  lemma HeldTaken(a: Arch, k: Kernel, p: Pool, f: nat)
    requires Invariant(a, k) && ValidPool(a, p) && Counted(p) && f in k.pool.free && f in k.pool.ram
    requires Framed(k.pool, f) && p.base == k.pool.base && p.nframes == k.pool.nframes
    requires p.free == k.pool.free - {f} && p.ram.Keys == k.pool.ram.Keys
    requires forall i: nat | i < |k.roots| :: WellFormed(a, p, k.roots[i])
    requires forall i: nat, g: nat :: Owns(a, k.(pool := p), i, g) <==> Owns(a, k, i, g)
    ensures Invariant(a, Kernel(p, k.roots, k.held + {f}))
  {
    hide Table, NoSharing, ValidPool, FreedIndex;
    NotFree(a, k);
    var k' := Kernel(p, k.roots, k.held + {f});
    assert forall i: nat, g: nat :: Owns(a, k', i, g) <==> Owns(a, k.(pool := p), i, g);
    hide Owns, WellFormed;
    forall g: nat | g in p.ram ensures g in p.free || g in k'.held || exists i: nat :: Owns(a, k', i, g) {
      if !(g in p.free || g in k'.held) {
        var i: nat :| Owns(a, k, i, g);
        assert Owns(a, k', i, g);
      }
    }
  }

  lemma NewKept(a: Arch, k: Kernel)
    requires Invariant(a, k)
    ensures Kept(a, k, NewMap)
  {
    hide Table, NoSharing, ValidPool, Allocate, WellFormed, Translates, FreedIndex;
    Taken(a, k);
    NotFree(a, k);
    var (p, f) := Allocate(k.pool, a.Radix());
    if f != 0 {
      AllUntouched(a, k, p);
      EmptyMap(a, p, f);
      var k', n := Step(a, k, NewMap), |k.roots|;
      assert k'.roots == k.roots + [f];
      forall i: nat, g: nat ensures Owns(a, k', i, g) <==> Owns(a, k, i, g) || (i == n && g in {f}) {
        assert i < n ==> (Owns(a, k', i, g) <==> Owns(a, k.(pool := p), i, g));
      }
      OwnersApart(a, k, k', n, {f});
      NewPartition(a, k, k', f);
    }
  }

  lemma NewPartition(a: Arch, k: Kernel, k': Kernel, f: nat)
    requires Invariant(a, k) && f in k.pool.free && k'.held == k.held
    requires k'.pool.ram.Keys == k.pool.ram.Keys && k'.pool.free == k.pool.free - {f}
    requires forall i: nat, g: nat :: Owns(a, k', i, g) <==> Owns(a, k, i, g) || (i == |k.roots| && g in {f})
    ensures forall g: nat | g in k'.pool.ram :: g in k'.pool.free || g in k'.held || exists i: nat :: Owns(a, k', i, g)
  {
    hide Table, NoSharing, ValidPool, WellFormed, Framed;
    forall g: nat | g in k'.pool.ram
      ensures g in k'.pool.free || g in k'.held || exists i: nat :: Owns(a, k', i, g)
    {
      if g == f {
        assert Owns(a, k', |k.roots|, g);
      } else if !(g in k'.pool.free || g in k'.held) {
        var i: nat :| Owns(a, k, i, g);
        assert Owns(a, k', i, g);
      }
    }
  }

  /** Giving back a held frame frees it once, and the count grows by one. */
  lemma GiveKeeps(a: Arch, k: Kernel, f: nat)
    requires Invariant(a, k) && f in k.held
    ensures Kept(a, k, GiveFrame(f))
    ensures Step(a, k, GiveFrame(f)).pool == k.pool.(free := k.pool.free + {f}, count := |k.pool.free| + 1)
    ensures !FreesAgain(k.pool, f)
  {
    hide Table, NoSharing, WellFormed, Translates;
    ReleaseCounts(k.pool, f);
    var p := Release(k.pool, f);
    assert p == k.pool.(free := k.pool.free + {f}, count := More(k.pool.count));
    NotFree(a, k);
    AllUntouched(a, k, p);
    var k' := Step(a, k, GiveFrame(f));
    assert forall i: nat, g: nat :: Owns(a, k', i, g) <==> Owns(a, k, i, g);
  }

  /** What a holder writes into its own frame no page map ever reads. */
  lemma WriteKept(a: Arch, k: Kernel, f: nat, es: seq<nat>)
    requires Invariant(a, k) && Allowed(a, k, WriteFrame(f, es))
    ensures Kept(a, k, WriteFrame(f, es))
  {
    hide Table, NoSharing, WellFormed, Translates, FreedIndex;
    NotFree(a, k);
    var p := Overwrite(k.pool, f, es);
    AllUntouched(a, k, p);
    assert forall i: nat, g: nat :: Owns(a, k.(pool := p), i, g) <==> Owns(a, k, i, g);
  }

  /** One call keeps the invariant and changes the translations as it changes the plain maps. */
  lemma StepKept(a: Arch, k: Kernel, c: Call)
    requires Invariant(a, k) && Allowed(a, k, c)
    ensures Kept(a, k, c)
  {
    hide Invariant, Kept;
    match c
    case NewMap => NewKept(a, k);
    case Map(i, v, p, flags) => MapKept(a, k, i, v, p, flags);
    case Unmap(i, v) => UnmapKept(a, k, i, v);
    case TakeFrame => TakeKept(a, k);
    case GiveFrame(f) => GiveKeeps(a, k, f);
    case WriteFrame(f, es) => WriteKept(a, k, f, es);
  }

  lemma StepAgrees(a: Arch, k: Kernel, ms: Mappings, c: Call)
    requires Invariant(a, k) && Allowed(a, k, c) && Agree(a, k, ms)
    ensures Invariant(a, Step(a, k, c)) && Agree(a, Step(a, k, c), MappingStep(a, k, ms, c))
  {
    hide Invariant, Translates, Step, MapAfter;
    StepKept(a, k, c);
  }

  // ---------- whole runs ----------

  /** The plain maps after a run. */
  ghost function Mapped(a: Arch, k: Kernel, ms: Mappings, calls: seq<Call>): (r: Mappings)
    requires Invariant(a, k) && Legal(a, k, calls) && Agree(a, k, ms)
    ensures Agree(a, Run(a, k, calls), r)
    decreases |calls|
  {
    if calls == [] then ms
    else
      StepAgrees(a, k, ms, calls[0]);
      Mapped(a, Step(a, k, calls[0]), MappingStep(a, k, ms, calls[0]), calls[1..])
  }

  /**
   After any run every frame is free, held or a table of one page map, no table is shared, the count is
   exact, and `walk` of every address in every page map reads that page map's plain map.
   */
  lemma {:induction false} RunRefines(a: Arch, k: Kernel, ms: Mappings, calls: seq<Call>)
    requires Invariant(a, k) && Legal(a, k, calls) && Agree(a, k, ms)
    ensures var k' := Run(a, k, calls);
            var ms' := Mapped(a, k, ms, calls);
            && Invariant(a, k') && |ms'| == |k'.roots|
            && forall i: nat, v: nat | i < |ms'| ::
                 WalkPage(a, k'.pool.ram, k'.roots[i], v) == Lookup(a, ms'[i], v)
    decreases |calls|
  {
    hide Invariant, WalkPage;
    if calls != [] {
      StepAgrees(a, k, ms, calls[0]);
      RunRefines(a, Step(a, k, calls[0]), MappingStep(a, k, ms, calls[0]), calls[1..]);
    } else {
      assert forall i: nat | i < |ms| :: Translates(a, k.pool, k.roots[i], ms[i]);
    }
  }

  /** The call maps or unmaps in page map `i`. */
  predicate Concerns(c: Call, i: nat) {
    (c.Map? || c.Unmap?) && c.i == i
  }

  /** Page maps do not disturb each other: only its own calls change what a page map translates. */
  lemma {:induction false} Isolation(a: Arch, k: Kernel, calls: seq<Call>, i: nat, m: map<nat, nat>)
    requires Invariant(a, k) && Legal(a, k, calls) && i < |k.roots| && Translates(a, k.pool, k.roots[i], m)
    requires forall c | c in calls :: !Concerns(c, i)
    ensures var k' := Run(a, k, calls);
            i < |k'.roots| && k'.roots[i] == k.roots[i] && Translates(a, k'.pool, k'.roots[i], m)
    decreases |calls|
  {
    hide Invariant, Translates;
    if calls != [] {
      assert calls[0] in calls && forall c | c in calls[1..] :: c in calls;
      StepKept(a, k, calls[0]);
      assert MapAfter(a, k, calls[0], i, m) == m;
      Isolation(a, Step(a, k, calls[0]), calls[1..], i, m);
    }
  }

  // ---------- the start of a run ----------

  /** What `riv_pmm_init` leaves of a page-aligned region meets the demands of `riv_pgmap_init`. */
  lemma FreshPool(a: Arch, base: nat, nframes: nat, ram: Ram)
    requires 0 < base && base % PAGE_SIZE == 0 && 0 < nframes <= MAX_FRAMES && Addr(base, nframes) <= a.AddrLimit()
    requires ram.Keys == Region(base, nframes) && forall f | f in ram :: |ram[f]| == a.Radix()
    ensures var p := Pool(base, nframes, Region(base, nframes), ram, nframes);
            ValidPool(a, p) && Counted(p) && p.free == p.ram.Keys != {}
  {
    RegionSize(base, nframes);
    RegionHas(base, nframes, 0);
  }

  /** Such a pool without page maps satisfies the run invariant, and the first page map translates nothing. */
  lemma InitIsEmpty(a: Arch, p: Pool)
    requires ValidPool(a, p) && p.free == p.ram.Keys != {} && Counted(p)
    ensures Invariant(a, Kernel(p, [], {})) && Agree(a, Kernel(p, [], {}), [])
    ensures var (p', root) := Allocate(p, a.Radix());
            && root != 0 && Invariant(a, Kernel(p', [root], {}))
            && forall v: nat :: WalkPage(a, p'.ram, root, v) == 0
  {
    hide ValidPool, Allocate, Table;
    var k := Kernel(p, [], {});
    assert Invariant(a, k);
    Taken(a, k);
    NewKept(a, k);
    assert Step(a, k, NewMap).roots == [Allocate(p, a.Radix()).1];
  }
}
