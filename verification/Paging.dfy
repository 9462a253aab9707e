/** What `riv_pgmap_map`, `_walk` and `_unmap` of `paging.h` do to the frames and to the translation. */
module PageMaps {
  import opened Basics
  import opened Frames
  import opened PageTable
  import opened PageTree

  function Decode(a: Arch, e: nat): Option<nat> {
    if Present(e) then Some(a.Target(e)) else None
  }

  function DecodeTable(a: Arch, entries: seq<nat>): (r: seq<Option<nat>>)
    ensures |r| == |entries| && forall i | 0 <= i < |r| :: r[i] == Decode(a, entries[i])
  {
    seq(|entries|, i requires 0 <= i < |entries| => Decode(a, entries[i]))
  }

  /** The tree that the entries in memory encode. */
  function Tree(a: Arch, ram: Ram): Tables {
    map t | t in ram :: DecodeTable(a, ram[t])
  }

  function WriteEntry(ram: Ram, t: nat, i: nat, e: nat): Ram
    requires t in ram && i < |ram[t]|
  {
    var entries: seq<nat> := ram[t][i := e];
    ram[t := entries]
  }

  lemma TreeAfterWrite(a: Arch, ram: Ram, t: nat, i: nat, e: nat)
    requires t in ram && i < |ram[t]|
    ensures Tree(a, WriteEntry(ram, t, i, e)) == Link(Tree(a, ram), t, i, Decode(a, e))
  {
    var entries: seq<nat> := ram[t][i := e];
    assert DecodeTable(a, entries) == DecodeTable(a, ram[t])[i := Decode(a, e)];
  }

  function NoLinks(n: nat): (z: seq<Option<nat>>)
    ensures |z| == n && forall i | 0 <= i < n :: z[i] == None
  {
    seq(n, i => None)
  }

  lemma TreeAfterZeroing(a: Arch, ram: Ram, f: nat, n: nat)
    ensures Tree(a, ram[f := Repeat<nat>(n, 0)]) == Tree(a, ram)[f := NoLinks(n)]
  {
    assert DecodeTable(a, Repeat<nat>(n, 0)) == NoLinks(n);
  }

  /** The managed memory: page-aligned, above address 0, within reach of an entry, one table per frame. */
  ghost predicate ValidPool(a: Arch, p: Pool) {
    && 0 < p.base && p.base % PAGE_SIZE == 0 && Addr(p.base, p.nframes) <= a.AddrLimit() && p.nframes <= MAX_FRAMES
    && p.free <= p.ram.Keys == Region(p.base, p.nframes)
    && (forall f | f in p.ram :: |p.ram[f]| == a.Radix())
  }

  lemma FrameHeld(a: Arch, p: Pool, f: nat)
    requires ValidPool(a, p) && f in p.ram
    ensures a.Holds(f)
  {
    var i := RegionIndex(p.base, p.nframes, f);
  }

  ghost predicate Table(a: Arch, p: Pool, root: nat, f: nat) {
    IsTable(a.Levels(), Tree(a, p.ram), root, f)
  }

  /** The tree is a tree, and its tables are frames that are handed out. */
  ghost predicate WellFormed(a: Arch, p: Pool, root: nat) {
    && ValidPool(a, p)
    && NoSharing(a.Levels(), Tree(a, p.ram), root)
    && (forall f: nat | Table(a, p, root, f) :: f in p.ram && f !in p.free)
  }

  /** What a step does to the memory behind the tree: the frames it takes become tables, the rest is left alone. */
  ghost predicate Grows(a: Arch, p: Pool, p': Pool, root: nat) {
    && p'.base == p.base && p'.nframes == p.nframes && p'.free <= p.free && p'.ram.Keys == p.ram.Keys
    && (forall g: nat :: Table(a, p', root, g) <==> Table(a, p, root, g) || g in p.free - p'.free)
    && (forall g: nat | g in p.ram && g !in p.free && !Table(a, p, root, g) :: p'.ram[g] == p.ram[g])
  }

  ghost predicate SameTranslation(a: Arch, p: Pool, p': Pool, root: nat) {
    forall q | |q| == a.Levels() :: Descend(Tree(a, p'.ram), root, q) == Descend(Tree(a, p.ram), root, q)
  }

  lemma TableInRam(a: Arch, p: Pool, root: nat, q: seq<nat>)
    requires WellFormed(a, p, root) && |q| < a.Levels() && Descend(Tree(a, p.ram), root, q).Some?
    ensures var t := Descend(Tree(a, p.ram), root, q).value;
            && t in p.ram && |p.ram[t]| == a.Radix() && t !in p.free && t != 0
            && LeadsTo(a.Levels(), Tree(a, p.ram), root, q, t) && Table(a, p, root, t)
  {
    var t := Descend(Tree(a, p.ram), root, q).value;
    assert LeadsTo(a.Levels(), Tree(a, p.ram), root, q, t);
    FrameHeld(a, p, t);
  }

  /** Taking a frame from the pool leaves the tree as it was. */
  lemma AllocateKeepsTree(a: Arch, p: Pool, root: nat)
    requires WellFormed(a, p, root)
    ensures var (p1, f) := Allocate(p, a.Radix());
            && WellFormed(a, p1, root) && SameTranslation(a, p, p1, root)
            && (forall q | |q| < a.Levels() :: Descend(Tree(a, p1.ram), root, q) == Descend(Tree(a, p.ram), root, q))
            && (forall g: nat :: Table(a, p1, root, g) <==> Table(a, p, root, g))
            && (f == 0 <==> p.free == {}) && (f == 0 ==> p1 == p)
            && (f != 0 ==>
                  && f in p.free && !Table(a, p1, root, f)
                  && p1 == p.(free := p.free - {f}, ram := p.ram[f := Repeat<nat>(a.Radix(), 0)],
                      count := Less(p.count)))
  {
    var (p1, f) := Allocate(p, a.Radix());
    AllocateIsExclusive(p, a.Radix());
    if f != 0 {
      TreeAfterZeroing(a, p.ram, f, a.Radix());
      forall q | |q| <= a.Levels() ensures Descend(Tree(a, p1.ram), root, q) == Descend(Tree(a, p.ram), root, q) {
        OtherFrameInvisible(a.Levels(), Tree(a, p.ram), root, f, NoLinks(a.Radix()), q);
      }
      SamePathsSameTables(a.Levels(), Tree(a, p.ram), Tree(a, p1.ram), root);
    }
  }

  /** One level of the descent of `map`: follow entry `i` of table `t`, hanging a new table there if absent. */
  function Enter(a: Arch, p: Pool, t: nat, i: nat, user: bool): (Pool, nat)
    requires t in p.ram && i < |p.ram[t]|
  {
    if Present(p.ram[t][i]) then (p, a.Target(p.ram[t][i]))
    else
      var (p1, f) := Allocate(p, a.Radix());
      if f == 0 || t !in p1.ram || i >= |p1.ram[t]| then (p1, 0)
      else (p1.(ram := WriteEntry(p1.ram, t, i, a.TableEntry(f, user))), f)
  }

  /** `map` from table `t` at level `lvl` on; the flag is false when the frames run out. */
  function MapFrom(a: Arch, p: Pool, t: nat, path: seq<nat>, lvl: nat, leaf: nat, user: bool): (Pool, bool)
    requires |path| == a.Levels() && lvl < a.Levels()
    decreases a.Levels() - lvl
  {
    if t !in p.ram || path[lvl] >= |p.ram[t]| then (p, false)
    else if lvl == a.Levels() - 1 then (p.(ram := WriteEntry(p.ram, t, path[lvl], leaf)), true)
    else
      var (p', t') := Enter(a, p, t, path[lvl], user);
      if t' == 0 then (p', false) else MapFrom(a, p', t', path, lvl + 1, leaf, user)
  }

  /** Hanging a zeroed frame that is no table yet under an absent entry. */
  lemma HangFrame(a: Arch, p: Pool, root: nat, here: seq<nat>, t: nat, i: nat, f: nat, user: bool)
    requires WellFormed(a, p, root) && LeadsTo(a.Levels(), Tree(a, p.ram), root, here, t) && |here| + 1 < a.Levels()
    requires t in p.ram && i < |p.ram[t]| && !Present(p.ram[t][i])
    requires f in p.ram && f !in p.free && !Table(a, p, root, f) && p.ram[f] == Repeat<nat>(a.Radix(), 0)
    ensures var p2 := p.(ram := WriteEntry(p.ram, t, i, a.TableEntry(f, user)));
            && WellFormed(a, p2, root) && SameTranslation(a, p, p2, root)
            && LeadsTo(a.Levels(), Tree(a, p2.ram), root, here + [i], f)
            && (forall g: nat :: Table(a, p2, root, g) <==> g == f || Table(a, p, root, g))
  {
    FrameHeld(a, p, f);
    EntryDecodes(a, f, user);
    TreeAfterWrite(a, p.ram, t, i, a.TableEntry(f, user));
    assert forall j: nat :: Child(Tree(a, p.ram), f, j).None?;
    HangTable(a.Levels(), Tree(a, p.ram), root, here, t, i, f);
  }

  lemma EnterCorrect(a: Arch, p: Pool, root: nat, path: seq<nat>, lvl: nat, user: bool)
    requires WellFormed(a, p, root) && |path| == a.Levels() && a.ValidPath(path) && lvl < a.Levels() - 1
    requires Descend(Tree(a, p.ram), root, path[..lvl]).Some?
    ensures var t := Descend(Tree(a, p.ram), root, path[..lvl]).value;
            && t in p.ram && |p.ram[t]| == a.Radix()
            && var (p', t') := Enter(a, p, t, path[lvl], user);
            && WellFormed(a, p', root) && Grows(a, p, p', root) && SameTranslation(a, p, p', root)
            && (t' == 0 ==> p'.free == {})
            && (t' != 0 ==> Descend(Tree(a, p'.ram), root, path[..lvl + 1]) == Some(t'))
  {
    var here, i := path[..lvl], path[lvl];
    assert path[..lvl + 1] == here + [i];
    assert (here + [i])[..lvl] == here;
    var t := Descend(Tree(a, p.ram), root, here).value;
    TableInRam(a, p, root, here);
    if Present(p.ram[t][i]) {
      TableInRam(a, p, root, here + [i]);
    } else {
      EnterFresh(a, p, root, here, t, i, user);
    }
  }

  lemma EnterFresh(a: Arch, p: Pool, root: nat, here: seq<nat>, t: nat, i: nat, user: bool)
    requires WellFormed(a, p, root) && LeadsTo(a.Levels(), Tree(a, p.ram), root, here, t) && |here| + 1 < a.Levels()
    requires t in p.ram && t !in p.free && Table(a, p, root, t) && i < |p.ram[t]| && !Present(p.ram[t][i])
    ensures var (p', t') := Enter(a, p, t, i, user);
            && WellFormed(a, p', root) && Grows(a, p, p', root) && SameTranslation(a, p, p', root)
            && (t' == 0 ==> p'.free == {})
            && (t' != 0 ==> Descend(Tree(a, p'.ram), root, here + [i]) == Some(t'))
  {
    AllocateKeepsTree(a, p, root);
    var (p1, f) := Allocate(p, a.Radix());
    if f != 0 {
      HangTaken(a, p, p1, root, here, t, i, f, user);
    }
  }

  lemma HangTaken(a: Arch, p: Pool, p1: Pool, root: nat, here: seq<nat>, t: nat, i: nat, f: nat, user: bool)
    requires WellFormed(a, p1, root) && LeadsTo(a.Levels(), Tree(a, p.ram), root, here, t) && |here| + 1 < a.Levels()
    requires t in p.ram && t !in p.free && Table(a, p, root, t) && i < |p.ram[t]| && !Present(p.ram[t][i])
    requires f in p.free && f in p.ram
    requires p1 == p.(free := p.free - {f}, ram := p.ram[f := Repeat<nat>(a.Radix(), 0)], count := Less(p.count))
    requires SameTranslation(a, p, p1, root) && !Table(a, p1, root, f)
    requires forall g: nat :: Table(a, p1, root, g) <==> Table(a, p, root, g)
    requires Descend(Tree(a, p1.ram), root, here) == Descend(Tree(a, p.ram), root, here)
    ensures t in p1.ram && i < |p1.ram[t]|
    ensures var p2 := p1.(ram := WriteEntry(p1.ram, t, i, a.TableEntry(f, user)));
            && WellFormed(a, p2, root) && Grows(a, p, p2, root) && SameTranslation(a, p, p2, root)
            && Descend(Tree(a, p2.ram), root, here + [i]) == Some(f)
  {
    assert LeadsTo(a.Levels(), Tree(a, p1.ram), root, here, t);
    HangFrame(a, p1, root, here, t, i, f, user);
    TakenFrameGrows(a, p, p1.(ram := WriteEntry(p1.ram, t, i, a.TableEntry(f, user))), root, t, f);
  }

  lemma TakenFrameGrows(a: Arch, p: Pool, p2: Pool, root: nat, t: nat, f: nat)
    requires p2.base == p.base && p2.nframes == p.nframes && f in p.free && p2.free == p.free - {f}
    requires p2.ram.Keys == p.ram.Keys && Table(a, p, root, t)
    requires forall g: nat :: Table(a, p2, root, g) <==> g == f || Table(a, p, root, g)
    requires forall g: nat | g in p.ram && g != f && g != t :: p2.ram[g] == p.ram[g]
    ensures Grows(a, p, p2, root)
  {
  }

  /** One step of `MapFrom` from a table of a well-formed tree. */
  lemma MapStep(a: Arch, p: Pool, root: nat, t: nat, path: seq<nat>, lvl: nat, leaf: nat, user: bool)
    requires WellFormed(a, p, root) && |path| == a.Levels() && a.ValidPath(path) && lvl < a.Levels() - 1
    requires Descend(Tree(a, p.ram), root, path[..lvl]) == Some(t)
    ensures p.base > 0 && t in p.ram && |p.ram[t]| == a.Radix() && t !in p.free
    ensures var (p', t') := Enter(a, p, t, path[lvl], user);
            && MapFrom(a, p, t, path, lvl, leaf, user) ==
               (if t' == 0 then (p', false) else MapFrom(a, p', t', path, lvl + 1, leaf, user))
            && (t' != 0 ==> WellFormed(a, p', root) && Descend(Tree(a, p'.ram), root, path[..lvl + 1]) == Some(t'))
  {
    TableInRam(a, p, root, path[..lvl]);
    EnterCorrect(a, p, root, path, lvl, user);
  }

  /** The last step: the leaf write. */
  lemma MapEnd(a: Arch, p: Pool, root: nat, t: nat, path: seq<nat>, leaf: nat, user: bool)
    requires WellFormed(a, p, root) && |path| == a.Levels() && a.ValidPath(path)
    requires Descend(Tree(a, p.ram), root, path[..a.Levels() - 1]) == Some(t)
    ensures var n := a.Levels() - 1;
            && t in p.ram && |p.ram[t]| == a.Radix()
            && MapFrom(a, p, t, path, n, leaf, user) == (p.(ram := WriteEntry(p.ram, t, path[n], leaf)), true)
  {
    TableInRam(a, p, root, path[..a.Levels() - 1]);
  }

  /** The leaf write: the one translation it changes is the one of its own path. */
  lemma LeafWrite(a: Arch, p: Pool, root: nat, path: seq<nat>, e: nat)
    requires WellFormed(a, p, root) && |path| == a.Levels() && a.ValidPath(path)
    requires Descend(Tree(a, p.ram), root, path[..a.Levels() - 1]).Some?
    ensures var t, i := Descend(Tree(a, p.ram), root, path[..a.Levels() - 1]).value, path[a.Levels() - 1];
            && t in p.ram && |p.ram[t]| == a.Radix()
            && var p' := p.(ram := WriteEntry(p.ram, t, i, e));
            && WellFormed(a, p', root) && Grows(a, p, p', root)
            && (forall q | |q| == a.Levels() ::
                  Descend(Tree(a, p'.ram), root, q) ==
                  if q == path then Decode(a, e) else Descend(Tree(a, p.ram), root, q))
  {
    var n := a.Levels() - 1;
    var t := Descend(Tree(a, p.ram), root, path[..n]).value;
    TableInRam(a, p, root, path[..n]);
    TreeAfterWrite(a, p.ram, t, path[n], e);
    SetLeaf(a.Levels(), Tree(a, p.ram), root, path, t, Decode(a, e));
  }

  /** `map` keeps the tree well formed and changes no translation but the one it was asked to set. */
  lemma {:induction false} MapFromCorrect(a: Arch, p: Pool, root: nat, path: seq<nat>, lvl: nat, leaf: nat, user: bool)
    requires WellFormed(a, p, root) && |path| == a.Levels() && a.ValidPath(path) && lvl < a.Levels()
    requires Descend(Tree(a, p.ram), root, path[..lvl]).Some?
    ensures var (p', ok) := MapFrom(a, p, Descend(Tree(a, p.ram), root, path[..lvl]).value, path, lvl, leaf, user);
            && WellFormed(a, p', root) && Grows(a, p, p', root)
            && (!ok ==> p'.free == {})
            && (forall q | |q| == a.Levels() ::
                  Descend(Tree(a, p'.ram), root, q) ==
                  if ok && q == path then Decode(a, leaf) else Descend(Tree(a, p.ram), root, q))
    decreases a.Levels() - lvl
  {
    var t := Descend(Tree(a, p.ram), root, path[..lvl]).value;
    if lvl == a.Levels() - 1 {
      LeafWrite(a, p, root, path, leaf);
    } else {
      EnterCorrect(a, p, root, path, lvl, user);
      var (p1, t1) := Enter(a, p, t, path[lvl], user);
      if t1 != 0 {
        MapFromCorrect(a, p1, root, path, lvl + 1, leaf, user);
      }
    }
  }

  // ---------- when the frames suffice ----------

  /** How many tables the path lacks below level `lvl`. */
  function Missing(a: Arch, ram: Ram, root: nat, path: seq<nat>, lvl: nat): nat
    requires |path| == a.Levels() && lvl < a.Levels()
    decreases a.Levels() - lvl
  {
    if lvl == a.Levels() - 1 then 0
    else (if Descend(Tree(a, ram), root, path[..lvl + 1]).None? then 1 else 0) + Missing(a, ram, root, path, lvl + 1)
  }

  lemma MissingStep(a: Arch, ram: Ram, root: nat, path: seq<nat>, lvl: nat)
    requires |path| == a.Levels() && lvl < a.Levels()
    ensures Missing(a, ram, root, path, lvl) ==
            if lvl == a.Levels() - 1 then 0
            else
              (if Descend(Tree(a, ram), root, path[..lvl + 1]).None? then 1 else 0)
              + Missing(a, ram, root, path, lvl + 1)
  {
  }

  /** Below an absent table everything is absent. */
  lemma {:induction false} MissingBelow(a: Arch, ram: Ram, root: nat, path: seq<nat>, lvl: nat, k: nat)
    requires |path| == a.Levels() && k <= lvl + 1 && lvl < a.Levels()
    requires Descend(Tree(a, ram), root, path[..k]).None?
    ensures Missing(a, ram, root, path, lvl) == a.Levels() - 1 - lvl
    decreases a.Levels() - lvl
  {
    if lvl < a.Levels() - 1 {
      if k <= lvl {
        assert path[..lvl + 1][..k] == path[..k];
        NothingBelow(Tree(a, ram), root, path[..k], path[..lvl + 1]);
      }
      MissingBelow(a, ram, root, path, lvl + 1, k);
    }
  }

  /** A level whose table is absent takes one frame, and the table it gets is empty. */
  lemma EnterCounts(a: Arch, p: Pool, root: nat, path: seq<nat>, lvl: nat, user: bool)
    requires WellFormed(a, p, root) && |path| == a.Levels() && a.ValidPath(path) && lvl < a.Levels() - 1
    requires Descend(Tree(a, p.ram), root, path[..lvl]).Some?
    ensures var t := Descend(Tree(a, p.ram), root, path[..lvl]).value;
            && t in p.ram && path[lvl] < |p.ram[t]|
            && var (p', t') := Enter(a, p, t, path[lvl], user);
            && (Descend(Tree(a, p.ram), root, path[..lvl + 1]).Some? ==> p' == p && t' != 0)
            && (Descend(Tree(a, p.ram), root, path[..lvl + 1]).None? ==>
                  && (t' == 0 <==> p.free == {})
                  && (t' != 0 ==> |p'.free| == |p.free| - 1 && t' in p'.ram && p'.ram[t'] == Repeat<nat>(a.Radix(), 0)))
            && (Counted(p) ==> Counted(p'))
  {
    hide Enter, WellFormed, Descend;
    var here, i := path[..lvl], path[lvl];
    assert path[..lvl + 1] == here + [i];
    TableInRam(a, p, root, here);
    NextLevel(a, p, root, here, i);
    var t := Descend(Tree(a, p.ram), root, here).value;
    if Present(p.ram[t][i]) {
      TableInRam(a, p, root, here + [i]);
      EnterPresent(a, p, t, i, user);
    } else {
      EnterAbsent(a, p, root, t, i, user);
    }
  }

  lemma RootIs(a: Arch, p: Pool, root: nat)
    ensures Descend(Tree(a, p.ram), root, []) == Some(root)
  {
  }

  lemma NextLevel(a: Arch, p: Pool, root: nat, here: seq<nat>, i: nat)
    requires Descend(Tree(a, p.ram), root, here).Some?
    requires var t := Descend(Tree(a, p.ram), root, here).value; t in p.ram && i < |p.ram[t]|
    ensures Descend(Tree(a, p.ram), root, here + [i]) == Decode(a, p.ram[Descend(Tree(a, p.ram), root, here).value][i])
  {
    assert (here + [i])[..|here|] == here;
  }

  lemma EnterPresent(a: Arch, p: Pool, t: nat, i: nat, user: bool)
    requires t in p.ram && i < |p.ram[t]| && Present(p.ram[t][i])
    ensures Enter(a, p, t, i, user) == (p, a.Target(p.ram[t][i]))
  {
  }

  lemma EnterAbsent(a: Arch, p: Pool, root: nat, t: nat, i: nat, user: bool)
    requires WellFormed(a, p, root) && t in p.ram && t !in p.free && i < |p.ram[t]| && !Present(p.ram[t][i])
    ensures var (p', t') := Enter(a, p, t, i, user);
            && (t' == 0 <==> p.free == {})
            && (t' != 0 ==> |p'.free| == |p.free| - 1 && t' in p'.ram && p'.ram[t'] == Repeat<nat>(a.Radix(), 0))
            && (Counted(p) ==> Counted(p'))
  {
    hide Table, NoSharing, Region, Allocate, Repeat;
    AllocateIsExclusive(p, a.Radix());
  }

  /** Below a table without entries the path lacks every table. */
  lemma EmptyTableMisses(a: Arch, ram: Ram, root: nat, path: seq<nat>, lvl: nat, t: nat)
    requires |path| == a.Levels() && a.ValidPath(path) && 0 < lvl < a.Levels()
    requires Descend(Tree(a, ram), root, path[..lvl]) == Some(t) && t in ram && ram[t] == Repeat<nat>(a.Radix(), 0)
    ensures Missing(a, ram, root, path, lvl) == a.Levels() - 1 - lvl
  {
    if lvl < a.Levels() - 1 {
      assert path[..lvl + 1][..lvl] == path[..lvl];
      assert Child(Tree(a, ram), t, path[lvl]).None?;
      MissingBelow(a, ram, root, path, lvl, lvl + 1);
    }
  }

  /** From any level down, `map` succeeds if and only if there is a free frame for every table the path lacks. */
  lemma {:induction false} MapFromCounts(a: Arch, p: Pool, root: nat, path: seq<nat>, lvl: nat, leaf: nat, user: bool)
    requires WellFormed(a, p, root) && |path| == a.Levels() && a.ValidPath(path) && lvl < a.Levels()
    requires Descend(Tree(a, p.ram), root, path[..lvl]).Some?
    ensures var (p', ok) := MapFrom(a, p, Descend(Tree(a, p.ram), root, path[..lvl]).value, path, lvl, leaf, user);
            && (ok <==> |p.free| >= Missing(a, p.ram, root, path, lvl))
            && (ok ==> |p'.free| == |p.free| - Missing(a, p.ram, root, path, lvl))
            && (Counted(p) ==> Counted(p'))
    decreases a.Levels() - lvl
  {
    hide Enter, MapFrom, Tree, Descend, WellFormed, Missing;
    var t := Descend(Tree(a, p.ram), root, path[..lvl]).value;
    MissingStep(a, p.ram, root, path, lvl);
    if lvl == a.Levels() - 1 {
      MapEnd(a, p, root, t, path, leaf, user);
    } else {
      MapStep(a, p, root, t, path, lvl, leaf, user);
      EnterCounts(a, p, root, path, lvl, user);
      var (p1, t1) := Enter(a, p, t, path[lvl], user);
      if Descend(Tree(a, p.ram), root, path[..lvl + 1]).None? {
        MissingBelow(a, p.ram, root, path, lvl, lvl + 1);
        if t1 != 0 {
          EmptyTableMisses(a, p1.ram, root, path, lvl + 1, t1);
        }
      }
      if t1 != 0 {
        MapFromCounts(a, p1, root, path, lvl + 1, leaf, user);
      }
    }
  }

  function MapPage(a: Arch, p: Pool, root: nat, v: nat, paddr: nat, flags: Flags): (Pool, bool) {
    MapFrom(a, p, root, a.Path(v), 0, a.LeafEntry(paddr, flags), flags.user)
  }

  function UnmapPage(a: Arch, p: Pool, root: nat, v: nat): (Pool, bool) {
    var path, n := a.Path(v), a.Levels() - 1;
    var t := Descend(Tree(a, p.ram), root, path[..n]);
    if t.None? || t.value !in p.ram || path[n] >= |p.ram[t.value]| then (p, false)
    else (p.(ram := WriteEntry(p.ram, t.value, path[n], 0)), true)
  }

  /** The address `walk` returns; 0 stands for "not mapped". */
  function WalkPage(a: Arch, ram: Ram, root: nat, v: nat): nat {
    var page := Descend(Tree(a, ram), root, a.Path(v));
    if page.None? then 0 else page.value + v % 4096
  }

  /**
   A successful map sends every address of `v`'s page to the page of `paddr` and moves no other
   address; one that runs out of frames part way moves none at all. It succeeds if and only if there
   is a free frame for every table the path lacks, and it takes just those.
   */
  lemma MapRefinesUpdate(a: Arch, p: Pool, root: nat, v: nat, paddr: nat, flags: Flags)
    requires WellFormed(a, p, root) && paddr < a.VaddrLimit()
    ensures var (p', ok) := MapPage(a, p, root, v, paddr, flags);
            && WellFormed(a, p', root) && Grows(a, p, p', root)
            && (ok <==> |p.free| >= Missing(a, p.ram, root, a.Path(v), 0))
            && (if ok then |p'.free| == |p.free| - Missing(a, p.ram, root, a.Path(v), 0) else p'.free == {})
            && (Counted(p) ==> Counted(p'))
            && forall w: nat ::
                 WalkPage(a, p'.ram, root, w) ==
                 if ok && a.Page(w) == a.Page(v) then paddr / 4096 * 4096 % a.AddrLimit() + w % 4096
                 else WalkPage(a, p.ram, root, w)
  {
    hide MapFrom, Missing, Grows, NoSharing, IsTable, Table, ValidPool;
    LeafDecodes(a, paddr, flags);
    assert a.Path(v)[..0] == [];
    MapFromCorrect(a, p, root, a.Path(v), 0, a.LeafEntry(paddr, flags), flags.user);
    MapFromCounts(a, p, root, a.Path(v), 0, a.LeafEntry(paddr, flags), flags.user);
    forall w: nat ensures a.Path(w) == a.Path(v) <==> a.Page(w) == a.Page(v) {
      SamePathSamePage(a, w, v);
    }
  }

  /** Unmap takes away the one page it names; it succeeds exactly when a last-level table covers the address. */
  lemma UnmapRefinesRemoval(a: Arch, p: Pool, root: nat, v: nat)
    requires WellFormed(a, p, root)
    ensures var (p', ok) := UnmapPage(a, p, root, v);
            && WellFormed(a, p', root) && Grows(a, p, p', root)
            && (ok <==> Descend(Tree(a, p.ram), root, a.Path(v)[..a.Levels() - 1]).Some?)
            && (!ok ==> p' == p && Descend(Tree(a, p.ram), root, a.Path(v)).None?)
            && forall w: nat ::
                 WalkPage(a, p'.ram, root, w) == if a.Page(w) == a.Page(v) then 0 else WalkPage(a, p.ram, root, w)
  {
    var path, n := a.Path(v), a.Levels() - 1;
    var t := Descend(Tree(a, p.ram), root, path[..n]);
    assert path[..|path| - 1] == path[..n];
    if t.Some? {
      LeafWrite(a, p, root, path, 0);
    }
    forall w: nat ensures a.Path(w) == a.Path(v) <==> a.Page(w) == a.Page(v) {
      SamePathSamePage(a, w, v);
    }
  }

}

/** `riv_pgmap_map`, `_walk` and `_unmap` as they run, one class per architecture. */
module Paging {
  import opened Basics
  import PagingRuns
  import opened Frames
  import opened PageTable
  import opened PageTree
  import opened PageMaps

  /** The loop body of `map`: the next table, newly allocated if the entry is absent; 0 when frames run out. */
  method EnterTable(a: Arch, t: nat, i: nat, user: bool, pmm: Pmm) returns (next: nat)
    requires pmm.Valid() && t in pmm.ram && i < |pmm.ram[t]|
    requires pmm.base > 0 && t !in pmm.View().free
    modifies pmm, pmm.bitmap
    ensures pmm.bitmap == old(pmm.bitmap) && pmm.Valid()
    ensures (pmm.View(), next) == Enter(a, old(pmm.View()), t, i, user)
    ensures old(pmm.freeCount == |pmm.FreeSet()|) ==> pmm.freeCount == |pmm.FreeSet()|
  {
    hide FirstFree, Repeat, Less, Addrs, FreeBits;
    var e := pmm.ram[t][i];
    if !Present(e) {
      var f := pmm.Alloc(a.Radix());
      if f == 0 { return 0; }
      pmm.ram := WriteEntry(pmm.ram, t, i, a.TableEntry(f, user));
      next := f;
    } else {
      next := a.Target(e);
    }
  }

  /** `idx[4]` of the x86_64 code. */
  function X86Idx(v: nat): (r: seq<nat>)
    ensures |r| == 4
  {
    [v / 0x80_0000_0000 % 512, v / 0x4000_0000 % 512, v / 0x20_0000 % 512, v / 0x1000 % 512]
  }

  lemma IdxIsPath(v: nat)
    ensures X86Idx(v) == X86.Path(v) && X86.ValidPath(X86Idx(v))
  {
    X86Indices(v);
  }

  lemma Dead(a: Arch, ram: Ram, root: nat, path: seq<nat>, k: nat, n: nat)
    requires k <= n <= |path| && Descend(Tree(a, ram), root, path[..k]).None?
    ensures Descend(Tree(a, ram), root, path[..n]).None?
  {
    if k < n {
      assert path[..n][..k] == path[..k];
      NothingBelow(Tree(a, ram), root, path[..k], path[..n]);
    }
  }

  class X86PageMap {
    var pml4: nat

    constructor (pml4: nat)
      ensures this.pml4 == pml4
    {
      this.pml4 := pml4;
    }

    /** `riv_pgmap_init`: a zeroed frame is the root; on a pool just initialised, runs start from the empty map. */
    method Init(pmm: Pmm) returns (rc: int)
      requires pmm.Valid()
      modifies this, pmm, pmm.bitmap
      ensures pmm.bitmap == old(pmm.bitmap) && pmm.Valid()
      ensures var (p', f) := Allocate(old(pmm.View()), X86.Radix());
              && pmm.View() == p' && rc == (if f == 0 then -1 else 0)
              && pml4 == if f == 0 then old(pml4) else f
      ensures old(ValidPool(X86, pmm.View()) && pmm.View().free == pmm.ram.Keys != {} && Counted(pmm.View())) ==>
                && rc == 0 && PagingRuns.Invariant(X86, PagingRuns.Kernel(pmm.View(), [pml4], {}))
                && forall v: nat :: WalkPage(X86, pmm.ram, pml4, v) == 0
    {
      hide Allocate, ValidPool, Tree, WalkPage, PagingRuns.Invariant;
      ghost var p := pmm.View();
      if ValidPool(X86, p) && p.free == p.ram.Keys != {} && Counted(p) {
        PagingRuns.InitIsEmpty(X86, p);
      }
      var f := pmm.Alloc(X86.Radix());
      if f == 0 { return -1; }
      pml4 := f;
      return 0;
    }

    method Map(vaddr: nat, paddr: nat, flags: Flags, pmm: Pmm) returns (rc: int)
      requires pmm.Valid() && WellFormed(X86, pmm.View(), pml4)
      modifies pmm, pmm.bitmap
      ensures pmm.bitmap == old(pmm.bitmap) && pmm.Valid()
      ensures var (p', ok) := MapPage(X86, old(pmm.View()), pml4, vaddr, paddr, flags);
              pmm.View() == p' && rc == if ok then 0 else -1
      ensures old(pmm.freeCount == |pmm.FreeSet()|) ==> pmm.freeCount == |pmm.FreeSet()|
    {
      hide X86Idx;
      IdxIsPath(vaddr);
      var t := pml4;
      var idx := X86Idx(vaddr);
      ghost var leaf := X86.LeafEntry(paddr, flags);
      ghost var target := MapPage(X86, pmm.View(), pml4, vaddr, paddr, flags);
      assert idx[..0] == [];
      for lvl := 0 to 3
        invariant pmm.bitmap == old(pmm.bitmap) && pmm.Valid()
        invariant WellFormed(X86, pmm.View(), pml4)
        invariant Descend(Tree(X86, pmm.ram), pml4, idx[..lvl]) == Some(t)
        invariant MapFrom(X86, pmm.View(), t, idx, lvl, leaf, flags.user) == target
        invariant old(pmm.freeCount == |pmm.FreeSet()|) ==> pmm.freeCount == |pmm.FreeSet()|
      {
        MapStep(X86, pmm.View(), pml4, t, idx, lvl, leaf, flags.user);
        t := EnterTable(X86, t, idx[lvl], flags.user, pmm);
        if t == 0 { return -1; }
      }
      MapEnd(X86, pmm.View(), pml4, t, idx, leaf, flags.user);
      pmm.ram := WriteEntry(pmm.ram, t, idx[3], X86.LeafEntry(paddr, flags));
      rc := 0;
    }

    method Walk(vaddr: nat, pmm: Pmm) returns (paddr: nat)
      requires pmm.Valid() && WellFormed(X86, pmm.View(), pml4)
      ensures paddr == WalkPage(X86, pmm.ram, pml4, vaddr)
    {
      hide X86Idx;
      IdxIsPath(vaddr);
      var t := pml4;
      var idx := X86Idx(vaddr);
      assert idx[..0] == [];
      for lvl := 0 to 3
        invariant Descend(Tree(X86, pmm.ram), pml4, idx[..lvl]) == Some(t)
      {
        TableInRam(X86, pmm.View(), pml4, idx[..lvl]);
        assert idx[..lvl + 1] == idx[..lvl] + [idx[lvl]];
        var e := pmm.ram[t][idx[lvl]];
        if !Present(e) {
          Dead(X86, pmm.ram, pml4, idx, lvl + 1, 4);
          assert idx[..4] == idx;
          return 0;
        }
        t := X86.Target(e);
      }
      TableInRam(X86, pmm.View(), pml4, idx[..3]);
      assert idx == idx[..3] + [idx[3]];
      var leaf := pmm.ram[t][idx[3]];
      if !Present(leaf) { return 0; }
      paddr := X86.Target(leaf) + vaddr % 4096;
    }

    method Unmap(vaddr: nat, pmm: Pmm) returns (rc: int)
      requires pmm.Valid() && WellFormed(X86, pmm.View(), pml4)
      modifies pmm`ram
      ensures pmm.Valid()
      ensures var (p', ok) := UnmapPage(X86, old(pmm.View()), pml4, vaddr);
              pmm.View() == p' && rc == if ok then 0 else -1
    {
      hide X86Idx, WellFormed, Tree, Descend, FreeBits, Addrs;
      RootIs(X86, pmm.View(), pml4);
      IdxIsPath(vaddr);
      var t := pml4;
      var idx := X86Idx(vaddr);
      assert idx[..0] == [];
      for lvl := 0 to 3
        invariant pmm.ram == old(pmm.ram)
        invariant Descend(Tree(X86, pmm.ram), pml4, idx[..lvl]) == Some(t)
      {
        TableInRam(X86, pmm.View(), pml4, idx[..lvl]);
        assert idx[..lvl + 1] == idx[..lvl] + [idx[lvl]];
        NextLevel(X86, pmm.View(), pml4, idx[..lvl], idx[lvl]);
        var e := pmm.ram[t][idx[lvl]];
        if !Present(e) {
          Dead(X86, pmm.ram, pml4, idx, lvl + 1, 3);
          return -1;
        }
        t := X86.Target(e);
      }
      TableInRam(X86, pmm.View(), pml4, idx[..3]);
      pmm.ram := WriteEntry(pmm.ram, t, idx[3], 0);
      rc := 0;
    }
  }

  class Sv32PageMap {
    var root: nat

    constructor (root: nat)
      ensures this.root == root
    {
      this.root := root;
    }

    /** `riv_pgmap_init`: a zeroed frame is the root; on a pool just initialised, runs start from the empty map. */
    method Init(pmm: Pmm) returns (rc: int)
      requires pmm.Valid()
      modifies this, pmm, pmm.bitmap
      ensures pmm.bitmap == old(pmm.bitmap) && pmm.Valid()
      ensures var (p', f) := Allocate(old(pmm.View()), Sv32.Radix());
              && pmm.View() == p' && rc == (if f == 0 then -1 else 0)
              && root == if f == 0 then old(root) else f
      ensures old(ValidPool(Sv32, pmm.View()) && pmm.View().free == pmm.ram.Keys != {} && Counted(pmm.View())) ==>
                && rc == 0 && PagingRuns.Invariant(Sv32, PagingRuns.Kernel(pmm.View(), [root], {}))
                && forall v: nat :: WalkPage(Sv32, pmm.ram, root, v) == 0
    {
      hide Allocate, ValidPool, Tree, WalkPage, PagingRuns.Invariant;
      ghost var p := pmm.View();
      if ValidPool(Sv32, p) && p.free == p.ram.Keys != {} && Counted(p) {
        PagingRuns.InitIsEmpty(Sv32, p);
      }
      var f := pmm.Alloc(Sv32.Radix());
      if f == 0 { return -1; }
      root := f;
      return 0;
    }

    method Map(vaddr: nat, paddr: nat, flags: Flags, pmm: Pmm) returns (rc: int)
      requires pmm.Valid() && WellFormed(Sv32, pmm.View(), root)
      modifies pmm, pmm.bitmap
      ensures pmm.bitmap == old(pmm.bitmap) && pmm.Valid()
      ensures var (p', ok) := MapPage(Sv32, old(pmm.View()), root, vaddr, paddr, flags);
              pmm.View() == p' && rc == if ok then 0 else -1
      ensures old(pmm.freeCount == |pmm.FreeSet()|) ==> pmm.freeCount == |pmm.FreeSet()|
    {
      Sv32Indices(vaddr);
      var vpn1, vpn0 := vaddr / 0x40_0000 % 1024, vaddr / 0x1000 % 1024;
      ghost var path := Sv32.Path(vaddr);
      assert path[..0] == [];
      ghost var leaf := Sv32.LeafEntry(paddr, flags);
      MapStep(Sv32, pmm.View(), root, root, path, 0, leaf, flags.user);
      var pt := EnterTable(Sv32, root, vpn1, flags.user, pmm);
      if pt == 0 { return -1; }
      MapEnd(Sv32, pmm.View(), root, pt, path, leaf, flags.user);
      pmm.ram := WriteEntry(pmm.ram, pt, vpn0, Sv32.LeafEntry(paddr, flags));
      rc := 0;
    }

    method Walk(vaddr: nat, pmm: Pmm) returns (paddr: nat)
      requires pmm.Valid() && WellFormed(Sv32, pmm.View(), root)
      ensures paddr == WalkPage(Sv32, pmm.ram, root, vaddr)
    {
      Sv32Indices(vaddr);
      var vpn1, vpn0 := vaddr / 0x40_0000 % 1024, vaddr / 0x1000 % 1024;
      ghost var path := Sv32.Path(vaddr);
      TableInRam(Sv32, pmm.View(), root, path[..0]);
      assert path[..1][..0] == path[..0] && path[..|path| - 1] == path[..1];
      assert Descend(Tree(Sv32, pmm.ram), root, path[..1]) == Child(Tree(Sv32, pmm.ram), root, vpn1);
      var pde := pmm.ram[root][vpn1];
      if !Present(pde) { return 0; }
      var pt := Sv32.Target(pde);
      TableInRam(Sv32, pmm.View(), root, path[..1]);
      var leaf := pmm.ram[pt][vpn0];
      if !Present(leaf) { return 0; }
      paddr := Sv32.Target(leaf) + vaddr % 4096;
    }

    method Unmap(vaddr: nat, pmm: Pmm) returns (rc: int)
      requires pmm.Valid() && WellFormed(Sv32, pmm.View(), root)
      modifies pmm`ram
      ensures pmm.Valid()
      ensures var (p', ok) := UnmapPage(Sv32, old(pmm.View()), root, vaddr);
              pmm.View() == p' && rc == if ok then 0 else -1
    {
      Sv32Indices(vaddr);
      var vpn1, vpn0 := vaddr / 0x40_0000 % 1024, vaddr / 0x1000 % 1024;
      ghost var path := Sv32.Path(vaddr);
      TableInRam(Sv32, pmm.View(), root, path[..0]);
      assert path[..1][..0] == path[..0];
      var pde := pmm.ram[root][vpn1];
      if !Present(pde) { return -1; }
      var pt := Sv32.Target(pde);
      TableInRam(Sv32, pmm.View(), root, path[..1]);
      pmm.ram := WriteEntry(pmm.ram, pt, vpn0, 0);
      rc := 0;
    }
  }
}
