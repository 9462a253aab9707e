/** Page rights: which entries `riv_pgmap_map` and `_unmap` touch, and what their flag bits say to the processor. */
module PageRights {
  import opened Basics
  import opened Bits
  import opened Frames
  import opened PageTable
  import opened PageTree
  import opened PageMaps

  /** Entry `i` of the table at `t`; 0 where there is none. */
  function Slot(ram: Ram, t: Option<nat>, i: nat): nat {
    if t.Some? && t.value in ram && i < |ram[t.value]| then ram[t.value][i] else 0
  }

  /** The entry that a path ends in. */
  function EntryAt(a: Arch, ram: Ram, root: nat, q: seq<nat>): nat
    requires |q| > 0
  {
    Slot(ram, Descend(Tree(a, ram), root, q[..|q| - 1]), q[|q| - 1])
  }

  /** A path ends somewhere exactly when the entry it ends in is present. */
  lemma PresentIffReached(a: Arch, ram: Ram, root: nat, q: seq<nat>)
    requires |q| > 0
    ensures Descend(Tree(a, ram), root, q).Some? <==> Present(EntryAt(a, ram, root, q))
  {
  }

  lemma SlotAfterWrite(ram: Ram, t: nat, i: nat, e: nat, t': Option<nat>, j: nat)
    requires t in ram && i < |ram[t]|
    ensures Slot(WriteEntry(ram, t, i, e), t', j) == if t' == Some(t) && j == i then e else Slot(ram, t', j)
  {
  }

  lemma SameParts(q: seq<nat>, r: seq<nat>, i: nat)
    requires |q| > 0
    ensures q == r + [i] <==> q[..|q| - 1] == r && q[|q| - 1] == i
  {
  }

  /** Only one path leads to a table. */
  lemma OnlyPath(a: Arch, p: Pool, root: nat, q: seq<nat>, r: seq<nat>, t: nat)
    requires WellFormed(a, p, root) && LeadsTo(a.Levels(), Tree(a, p.ram), root, q, t)
    requires LeadsTo(a.Levels(), Tree(a, p.ram), root, r, t)
    ensures q == r
  {
  }

  /** Writing one entry of a last-level table. */
  lemma LeafEntries(a: Arch, p: Pool, root: nat, path: seq<nat>, e: nat, q: seq<nat>)
    requires WellFormed(a, p, root) && |path| == a.Levels() && a.ValidPath(path) && 0 < |q| <= a.Levels()
    requires Descend(Tree(a, p.ram), root, path[..a.Levels() - 1]).Some?
    ensures var t, i := Descend(Tree(a, p.ram), root, path[..a.Levels() - 1]).value, path[a.Levels() - 1];
            && t in p.ram && |p.ram[t]| == a.Radix()
            && EntryAt(a, WriteEntry(p.ram, t, i, e), root, q) == if q == path then e else EntryAt(a, p.ram, root, q)
  {
    hide Descend, WriteEntry, Slot, Table, NoSharing, Decode, Through;
    var n, r, j := a.Levels() - 1, q[..|q| - 1], q[|q| - 1];
    var t, i := Descend(Tree(a, p.ram), root, path[..n]).value, path[n];
    TableInRam(a, p, root, path[..n]);
    TreeAfterWrite(a, p.ram, t, i, e);
    Uncrossed(path[..n], i, r);
    LinkIsLocal(a.Levels(), Tree(a, p.ram), root, path[..n], t, i, Decode(a, e), r);
    SlotAfterWrite(p.ram, t, i, e, Descend(Tree(a, p.ram), root, r), j);
    SameParts(q, path[..n], i);
    assert path == path[..n] + [i];
    if Descend(Tree(a, p.ram), root, r) == Some(t) {
      OnlyPath(a, p, root, r, path[..n], t);
    }
  }

  lemma Uncrossed(p: seq<nat>, i: nat, q: seq<nat>)
    requires |q| <= |p|
    ensures !Through(p, i, q)
  {
  }

  lemma EmptySlot(ram: Ram, f: nat, n: nat, j: nat)
    requires f in ram && ram[f] == Repeat<nat>(n, 0)
    ensures Slot(ram, Some(f), j) == 0
  {
  }

  lemma NoChildren(a: Arch, ram: Ram, f: nat, n: nat)
    requires f in ram && ram[f] == Repeat<nat>(n, 0)
    ensures forall j: nat :: Child(Tree(a, ram), f, j).None?
  {
  }

  /** The paths after a zeroed table is hung: one more. */
  lemma HungPaths(a: Arch, p: Pool, root: nat, here: seq<nat>, t: nat, i: nat, f: nat, user: bool, r: seq<nat>)
    requires WellFormed(a, p, root) && LeadsTo(a.Levels(), Tree(a, p.ram), root, here, t) && |here| + 1 < a.Levels()
    requires t in p.ram && i < |p.ram[t]| && !Present(p.ram[t][i]) && |r| < a.Levels()
    requires f in p.ram && f !in p.free && !Table(a, p, root, f) && p.ram[f] == Repeat<nat>(a.Radix(), 0)
    ensures var d' := Descend(Tree(a, WriteEntry(p.ram, t, i, a.TableEntry(f, user))), root, r);
            && f != t
            && d' == if r == here + [i] then Some(f) else Descend(Tree(a, p.ram), root, r)
    ensures Descend(Tree(a, p.ram), root, here + [i]).None?
  {
    hide Descend, WriteEntry;
    FrameHeld(a, p, f);
    EntryDecodes(a, f, user);
    TreeAfterWrite(a, p.ram, t, i, a.TableEntry(f, user));
    NoChildren(a, p.ram, f, a.Radix());
    HangPaths(a.Levels(), Tree(a, p.ram), root, here, t, i, f);
  }

  /** Hanging a zeroed table sets the one entry it hangs from. */
  lemma HangEntries(a: Arch, p: Pool, root: nat, here: seq<nat>, t: nat, i: nat, f: nat, user: bool, q: seq<nat>)
    requires WellFormed(a, p, root) && LeadsTo(a.Levels(), Tree(a, p.ram), root, here, t) && |here| + 1 < a.Levels()
    requires t in p.ram && i < |p.ram[t]| && !Present(p.ram[t][i])
    requires f in p.ram && f !in p.free && !Table(a, p, root, f) && p.ram[f] == Repeat<nat>(a.Radix(), 0)
    requires 0 < |q| <= a.Levels()
    ensures EntryAt(a, WriteEntry(p.ram, t, i, a.TableEntry(f, user)), root, q)
            == if q == here + [i] then a.TableEntry(f, user) else EntryAt(a, p.ram, root, q)
  {
    hide Descend, Tree, WriteEntry, Slot, Table, WellFormed;
    var r, j := q[..|q| - 1], q[|q| - 1];
    var e := a.TableEntry(f, user);
    HungPaths(a, p, root, here, t, i, f, user, r);
    SameParts(q, here, i);
    if r == here + [i] {
      SlotAfterWrite(p.ram, t, i, e, Some(f), j);
      EmptySlot(p.ram, f, a.Radix(), j);
      NoSlot(p.ram, j);
    } else {
      SlotAfterWrite(p.ram, t, i, e, Descend(Tree(a, p.ram), root, r), j);
      if Descend(Tree(a, p.ram), root, r) == Some(t) {
        OnlyPath(a, p, root, r, here, t);
      }
    }
  }

  lemma NoSlot(ram: Ram, j: nat)
    ensures Slot(ram, None, j) == 0
  {
  }

  lemma AllocateEntries(a: Arch, p: Pool, root: nat, q: seq<nat>)
    requires WellFormed(a, p, root) && 0 < |q| <= a.Levels()
    ensures EntryAt(a, Allocate(p, a.Radix()).0.ram, root, q) == EntryAt(a, p.ram, root, q)
  {
    hide Descend, Tree, Allocate, WellFormed;
    AllocateKeepsTree(a, p, root);
    var r := q[..|q| - 1];
    if Descend(Tree(a, p.ram), root, r).Some? {
      TableInRam(a, p, root, r);
    }
  }

  /** An entry that points to a table made for a mapping with this user flag. */
  ghost predicate TableMade(a: Arch, e: nat, user: bool) {
    exists f: nat :: a.Holds(f) && e == a.TableEntry(f, user)
  }

  lemma EnterIs(a: Arch, p: Pool, t: nat, i: nat, user: bool)
    requires t in p.ram && i < |p.ram[t]|
    ensures Present(p.ram[t][i]) ==> Enter(a, p, t, i, user).0 == p
    ensures !Present(p.ram[t][i]) ==>
              var (p1, f) := Allocate(p, a.Radix());
              Enter(a, p, t, i, user) ==
              if f == 0 || t !in p1.ram || i >= |p1.ram[t]| then (p1, 0)
              else (p1.(ram := WriteEntry(p1.ram, t, i, a.TableEntry(f, user))), f)
  {
    hide Allocate, WriteEntry;
  }

  lemma EntryOf(a: Arch, p: Pool, root: nat, here: seq<nat>, i: nat)
    requires WellFormed(a, p, root) && |here| < a.Levels() && Descend(Tree(a, p.ram), root, here).Some? && i < a.Radix()
    ensures var t := Descend(Tree(a, p.ram), root, here).value;
            t in p.ram && i < |p.ram[t]| && EntryAt(a, p.ram, root, here + [i]) == p.ram[t][i]
  {
    hide Descend, Tree, WellFormed;
    TableInRam(a, p, root, here);
    SameParts(here + [i], here, i);
  }

  /** One level of the descent: it fills the entry on the path if that was absent and a frame is left. */
  lemma EnterEntries(a: Arch, p: Pool, root: nat, path: seq<nat>, lvl: nat, user: bool, q: seq<nat>)
    requires WellFormed(a, p, root) && |path| == a.Levels() && a.ValidPath(path) && lvl < a.Levels() - 1
    requires Descend(Tree(a, p.ram), root, path[..lvl]).Some? && 0 < |q| <= a.Levels()
    ensures var t := Descend(Tree(a, p.ram), root, path[..lvl]).value;
            && t in p.ram && path[lvl] < |p.ram[t]|
            && var (p', t') := Enter(a, p, t, path[lvl], user);
            && var e, e' := EntryAt(a, p.ram, root, q), EntryAt(a, p'.ram, root, q);
            if q == path[..lvl + 1] && !Present(e) && t' != 0 then TableMade(a, e', user) else e' == e
  {
    hide WellFormed, Table, Descend, Tree, Allocate, WriteEntry, EntryAt, Enter, Present, SameTranslation;
    var here, i := path[..lvl], path[lvl];
    assert path[..lvl + 1] == here + [i];
    TableInRam(a, p, root, here);
    EntryOf(a, p, root, here, i);
    var t := Descend(Tree(a, p.ram), root, here).value;
    EnterIs(a, p, t, i, user);
    if !Present(p.ram[t][i]) {
      AllocateKeepsTree(a, p, root);
      AllocateEntries(a, p, root, q);
      var (p1, f) := Allocate(p, a.Radix());
      if f != 0 {
        HangAllocated(a, p, p1, root, here, t, i, f, user, q);
      }
    }
  }

  lemma HangAllocated(a: Arch, p: Pool, p1: Pool, root: nat, here: seq<nat>, t: nat, i: nat, f: nat, user: bool,
                      q: seq<nat>)
    requires WellFormed(a, p, root) && WellFormed(a, p1, root)
    requires LeadsTo(a.Levels(), Tree(a, p.ram), root, here, t) && |here| + 1 < a.Levels()
    requires t in p.ram && t !in p.free && i < |p.ram[t]| && !Present(p.ram[t][i])
    requires f in p.free && 0 < |q| <= a.Levels() && !Table(a, p1, root, f)
    requires p1 == p.(free := p.free - {f}, ram := p.ram[f := Repeat<nat>(a.Radix(), 0)], count := Less(p.count))
    requires Descend(Tree(a, p1.ram), root, here) == Descend(Tree(a, p.ram), root, here)
    ensures t in p1.ram && i < |p1.ram[t]|
    ensures EntryAt(a, WriteEntry(p1.ram, t, i, a.TableEntry(f, user)), root, q)
            == if q == here + [i] then a.TableEntry(f, user) else EntryAt(a, p1.ram, root, q)
    ensures a.Holds(f)
  {
    FrameHeld(a, p1, f);
    assert LeadsTo(a.Levels(), Tree(a, p1.ram), root, here, t);
    HangEntries(a, p1, root, here, t, i, f, user, q);
  }

  // ---------- whole calls ----------

  /**
   What a map that starts at level `lvl` of its path does to the entry at `q`: it writes the leaf, fills
   the absent entries above it, and leaves every other entry alone.
   */
  ghost predicate Changes(a: Arch, path: seq<nat>, lvl: nat, q: seq<nat>, e: nat, e': nat, ok: bool, leaf: nat,
                          user: bool)
  {
    if q == path && ok then e' == leaf
    else if lvl < |q| < |path| && q <= path && !Present(e) then TableMade(a, e', user) || (!ok && e' == e)
    else e' == e
  }

  lemma {:induction false} MapEntries(a: Arch, p: Pool, root: nat, path: seq<nat>, lvl: nat, leaf: nat, user: bool,
                                      q: seq<nat>)
    requires WellFormed(a, p, root) && |path| == a.Levels() && a.ValidPath(path) && lvl < a.Levels()
    requires Descend(Tree(a, p.ram), root, path[..lvl]).Some? && 0 < |q| <= a.Levels()
    ensures var (p', ok) := MapFrom(a, p, Descend(Tree(a, p.ram), root, path[..lvl]).value, path, lvl, leaf, user);
            Changes(a, path, lvl, q, EntryAt(a, p.ram, root, q), EntryAt(a, p'.ram, root, q), ok, leaf, user)
    decreases a.Levels() - lvl
  {
    hide Enter, MapFrom, Tree, Descend, WellFormed, EntryAt, Present, TableMade;
    var t := Descend(Tree(a, p.ram), root, path[..lvl]).value;
    if lvl == a.Levels() - 1 {
      MapEnd(a, p, root, t, path, leaf, user);
      LeafEntries(a, p, root, path, leaf, q);
    } else {
      MapStep(a, p, root, t, path, lvl, leaf, user);
      EnterEntries(a, p, root, path, lvl, user, q);
      var (p1, t1) := Enter(a, p, t, path[lvl], user);
      if t1 != 0 {
        MapEntries(a, p1, root, path, lvl + 1, leaf, user, q);
        MadeIsPresent(a, EntryAt(a, p1.ram, root, q), user);
      }
    }
  }

  lemma MadeIsPresent(a: Arch, e: nat, user: bool)
    ensures TableMade(a, e, user) ==> Present(e)
  {
    if TableMade(a, e, user) {
      var f: nat :| a.Holds(f) && e == a.TableEntry(f, user);
      EntryDecodes(a, f, user);
    }
  }

  /** The leaf entry that translates `v`; 0 if no table covers it. */
  function LeafOf(a: Arch, ram: Ram, root: nat, v: nat): nat {
    EntryAt(a, ram, root, a.Path(v))
  }

  /** A map writes the leaf entry of its own page, if it succeeds, and the leaf entry of no other page. */
  lemma MapSetsLeaf(a: Arch, p: Pool, root: nat, v: nat, paddr: nat, flags: Flags, w: nat)
    requires WellFormed(a, p, root)
    ensures var (p', ok) := MapPage(a, p, root, v, paddr, flags);
            LeafOf(a, p'.ram, root, w) ==
            if ok && a.Page(w) == a.Page(v) then a.LeafEntry(paddr, flags) else LeafOf(a, p.ram, root, w)
  {
    hide MapFrom, WellFormed, EntryAt, Present;
    RootIs(a, p, root);
    assert a.Path(v)[..0] == [];
    MapEntries(a, p, root, a.Path(v), 0, a.LeafEntry(paddr, flags), flags.user, a.Path(w));
    SamePathSamePage(a, w, v);
  }

  /** An unmap clears the leaf entry of its own page and of no other. */
  lemma UnmapClearsLeaf(a: Arch, p: Pool, root: nat, v: nat, w: nat)
    requires WellFormed(a, p, root)
    ensures LeafOf(a, UnmapPage(a, p, root, v).0.ram, root, w) ==
            if a.Page(w) == a.Page(v) then 0 else LeafOf(a, p.ram, root, w)
  {
    hide Descend, Tree, WellFormed, WriteEntry, Slot;
    var path, n := a.Path(v), a.Levels() - 1;
    var t := Descend(Tree(a, p.ram), root, path[..n]);
    assert path[..|path| - 1] == path[..n];
    SamePathSamePage(a, w, v);
    if t.Some? {
      TableInRam(a, p, root, path[..n]);
      LeafEntries(a, p, root, path, 0, a.Path(w));
    } else {
      NoSlot(p.ram, path[n]);
    }
  }

  // ---------- what the bits say ----------

  /** The bit with mask `m`. */
  predicate Has(e: nat, m: nat)
    requires m > 0
  {
    e / m % 2 == 1
  }

  const X86_RW := 2
  const X86_US := 4
  const X86_G := 0x100
  const X86_NX := 0x8000_0000_0000_0000
  const RV_R := 2
  const RV_W := 4
  const RV_X := 8
  const RV_U := 16
  const RV_G := 32

  /** Adding a multiple of twice the mask does not touch the bit. */
  lemma AddedAbove(e: nat, m: nat, c: nat)
    requires m > 0
    ensures Has(e + 2 * c * m, m) <==> Has(e, m)
  {
    assert (e / m + 2 * c) * m == e / m * m + 2 * c * m;
    DivModUnique(e + 2 * c * m, m, e / m + 2 * c, e % m);
  }

  lemma Flipped(e: nat, m: nat)
    requires m > 0
    ensures Has(e + m, m) <==> !Has(e, m)
  {
    assert (e / m + 1) * m == e / m * m + m;
    DivModUnique(e + m, m, e / m + 1, e % m);
  }

  lemma LowX86(q: nat, flags: Flags)
    ensures var e := q * 4096 + flags.X86Low();
            && (Has(e, X86_RW) <==> flags.write) && (Has(e, X86_US) <==> flags.user)
            && (Has(e, X86_G) <==> flags.global)
  {
    hide Has;
    var low := flags.X86Low();
    AddedAbove(low, 2, q * 1024);
    AddedAbove(low, 4, q * 512);
    AddedAbove(low, 0x100, q * 8);
    LowBitsX86(flags);
  }

  lemma LowBitsX86(flags: Flags)
    ensures var e := flags.X86Low();
            && (Has(e, X86_RW) <==> flags.write) && (Has(e, X86_US) <==> flags.user)
            && (Has(e, X86_G) <==> flags.global)
  {
  }

  lemma AboveNx(e: nat)
    ensures var e' := e + X86_NX;
            && (Has(e', X86_RW) <==> Has(e, X86_RW)) && (Has(e', X86_US) <==> Has(e, X86_US))
            && (Has(e', X86_G) <==> Has(e, X86_G)) && (Has(e', X86_NX) <==> !Has(e, X86_NX))
  {
    hide Has;
    AddedAbove(e, 2, 0x2000_0000_0000_0000);
    AddedAbove(e, 4, 0x1000_0000_0000_0000);
    AddedAbove(e, 0x100, 0x40_0000_0000_0000);
    Flipped(e, X86_NX);
  }

  lemma TopBit(q: nat, low: nat)
    requires low < 4096
    ensures Has(q * 4096 + low, X86_NX) <==> Has(q * 4096, X86_NX)
  {
  }

  /**
   On x86_64 the leaf entry is writable, open to user mode, global and closed to execution exactly as
   the flags ask; an address with bit 63 set closes it to execution too.
   */
  lemma X86LeafRights(paddr: nat, flags: Flags)
    ensures var e := X86.LeafEntry(paddr, flags);
            && (Has(e, X86_RW) <==> flags.write) && (Has(e, X86_US) <==> flags.user)
            && (Has(e, X86_G) <==> flags.global)
            && (Has(e, X86_NX) <==> flags.nx || Has(paddr / 4096 * 4096, X86_NX))
  {
    hide Has;
    var x := paddr / 4096 * 4096 + flags.X86Low();
    LowX86(paddr / 4096, flags);
    TopBit(paddr / 4096, flags.X86Low());
    AboveNx(x);
    NxIs(x, flags.nx);
  }

  lemma NxIs(x: nat, nx: bool)
    ensures SetNx(x, nx) == if nx && !Has(x, X86_NX) then x + X86_NX else x
  {
  }

  /**
   On Sv32 the leaf entry is readable, and writable, open to user mode and global exactly as the flags
   ask. It is never executable, whatever the flags: the execute bit is not among those they translate to.
   */
  lemma Sv32LeafRights(paddr: nat, flags: Flags)
    ensures var e := Sv32.LeafEntry(paddr, flags);
            && Has(e, RV_R) && (Has(e, RV_W) <==> flags.write) && !Has(e, RV_X)
            && (Has(e, RV_U) <==> flags.user) && (Has(e, RV_G) <==> flags.global)
  {
    var q := paddr / 4096;
    DivModUnique(q * 1024, U32, q / 0x40_0000, q % 0x40_0000 * 1024);
    LowSv32(q % 0x40_0000, flags);
  }

  lemma LowSv32(q: nat, flags: Flags)
    ensures var e := q * 1024 + flags.Sv32Low();
            && Has(e, RV_R) && (Has(e, RV_W) <==> flags.write) && !Has(e, RV_X)
            && (Has(e, RV_U) <==> flags.user) && (Has(e, RV_G) <==> flags.global)
  {
    hide Has;
    var low := flags.Sv32Low();
    AddedAbove(low, 2, q * 256);
    AddedAbove(low, 4, q * 128);
    AddedAbove(low, 8, q * 64);
    AddedAbove(low, 16, q * 32);
    AddedAbove(low, 32, q * 16);
    LowBitsSv32(flags);
  }

  lemma LowBitsSv32(flags: Flags)
    ensures var e := flags.Sv32Low();
            && Has(e, RV_R) && (Has(e, RV_W) <==> flags.write) && !Has(e, RV_X)
            && (Has(e, RV_U) <==> flags.user) && (Has(e, RV_G) <==> flags.global)
  {
  }

  // ---------- what the processor allows on x86_64 ----------

  /** The two rights that every level of an x86_64 path must give: to write, and to be used in user mode. */
  datatype Right = ToWrite | ToUser {
    function Mask(): (m: nat)
      ensures m > 0
    {
      if ToWrite? then X86_RW else X86_US
    }

    /** What the flags of a mapping ask for. */
    predicate Asked(flags: Flags) {
      if ToWrite? then flags.write else flags.user
    }
  }

  predicate Open(e: nat, r: Right) {
    Present(e) && Has(e, r.Mask())
  }

  /** The x86_64 rule: the right extends to a page when every entry on its path is present and gives it. */
  ghost predicate Reaches(ram: Ram, root: nat, v: nat, r: Right) {
    forall k | 0 < k <= 4 :: Open(EntryAt(X86, ram, root, X86.Path(v)[..k]), r)
  }

  /** The tables that stand already on the way to a page give the right. */
  ghost predicate OpenAbove(ram: Ram, root: nat, v: nat, r: Right) {
    forall k | 0 < k < 4 ::
      var e := EntryAt(X86, ram, root, X86.Path(v)[..k]);
      Present(e) ==> Has(e, r.Mask())
  }

  /** A table made on the way can be written through, and used in user mode if the mapping asks for it. */
  lemma MadeOpen(e: nat, user: bool, r: Right)
    ensures TableMade(X86, e, user) ==> (Open(e, r) <==> r.ToWrite? || user)
  {
    if TableMade(X86, e, user) {
      MadeIsPresent(X86, e, user);
      var f: nat :| X86.Holds(f) && e == X86.TableEntry(f, user);
      MadeBits(f / 4096, user);
    }
  }

  lemma MadeBits(q: nat, user: bool)
    ensures Has(X86.TableEntry(q * 4096, user), X86_US) <==> user
    ensures Has(X86.TableEntry(q * 4096, user), X86_RW)
  {
    var b := if user then 1 else 0;
    var e := X86.TableEntry(q * 4096, user);
    assert e == (q * 1024 + b) * 4 + 3 && e == (q * 2048 + 2 * b + 1) * 2 + 1;
    DivModUnique(e, 4, q * 1024 + b, 3);
    DivModUnique(q * 1024 + b, 2, q * 512, b);
    DivModUnique(e, 2, q * 2048 + 2 * b + 1, 1);
    DivModUnique(q * 2048 + 2 * b + 1, 2, q * 1024 + b, 1);
  }

  lemma MapChanges(p: Pool, root: nat, v: nat, paddr: nat, flags: Flags, q: seq<nat>)
    requires WellFormed(X86, p, root) && 0 < |q| <= 4
    ensures var (p', ok) := MapPage(X86, p, root, v, paddr, flags);
            Changes(X86, X86.Path(v), 0, q, EntryAt(X86, p.ram, root, q), EntryAt(X86, p'.ram, root, q), ok,
                    X86.LeafEntry(paddr, flags), flags.user)
  {
    hide MapFrom, WellFormed, EntryAt, Changes;
    RootIs(X86, p, root);
    assert X86.Path(v)[..0] == [];
    MapEntries(X86, p, root, X86.Path(v), 0, X86.LeafEntry(paddr, flags), flags.user, q);
  }

  /** The entry at level `k` of a page that has just been mapped. */
  lemma EntryOpens(p: Pool, root: nat, v: nat, paddr: nat, flags: Flags, k: nat, r: Right)
    requires WellFormed(X86, p, root) && MapPage(X86, p, root, v, paddr, flags).1
    requires paddr < X86.VaddrLimit() && 0 < k <= 4
    ensures var e := EntryAt(X86, p.ram, root, X86.Path(v)[..k]);
            Open(EntryAt(X86, MapPage(X86, p, root, v, paddr, flags).0.ram, root, X86.Path(v)[..k]), r)
            <==> if k == 4 then r.Asked(flags) else if Present(e) then Has(e, r.Mask()) else r.ToWrite? || flags.user
  {
    hide WellFormed, EntryAt, TableMade, Present, Has, MapPage;
    var p', path := MapPage(X86, p, root, v, paddr, flags).0, X86.Path(v);
    MapChanges(p, root, v, paddr, flags, path[..k]);
    MadeOpen(EntryAt(X86, p'.ram, root, path[..k]), flags.user, r);
    assert path[..4] == path;
    X86LeafRights(paddr, flags);
    LeafDecodes(X86, paddr, flags);
  }

  /**
   A page that has just been mapped can be written, or used in user mode, if and only if the flags ask
   for it and every table that was there before the call gives that right.
   */
  lemma ReachesExact(p: Pool, root: nat, v: nat, paddr: nat, flags: Flags, r: Right)
    requires WellFormed(X86, p, root) && MapPage(X86, p, root, v, paddr, flags).1
    requires paddr < X86.VaddrLimit()
    ensures Reaches(MapPage(X86, p, root, v, paddr, flags).0.ram, root, v, r)
            <==> r.Asked(flags) && OpenAbove(p.ram, root, v, r)
  {
    hide WellFormed, EntryAt, Present, Has, MapPage;
    var p', path := MapPage(X86, p, root, v, paddr, flags).0, X86.Path(v);
    if r.Asked(flags) && OpenAbove(p.ram, root, v, r) {
      forall k | 0 < k <= 4 ensures Open(EntryAt(X86, p'.ram, root, path[..k]), r) {
        EntryOpens(p, root, v, paddr, flags, k, r);
      }
    }
    if Reaches(p'.ram, root, v, r) {
      assert Open(EntryAt(X86, p'.ram, root, path[..4]), r);
      EntryOpens(p, root, v, paddr, flags, 4, r);
      forall k | 0 < k < 4 && Present(EntryAt(X86, p.ram, root, path[..k]))
        ensures Has(EntryAt(X86, p.ram, root, path[..k]), r.Mask())
      {
        assert Open(EntryAt(X86, p'.ram, root, path[..k]), r);
        EntryOpens(p, root, v, paddr, flags, k, r);
      }
    }
  }

  lemma PrefixPresent(ram: Ram, root: nat, q: seq<nat>, k: nat)
    requires 0 < k <= |q| && Present(EntryAt(X86, ram, root, q))
    ensures Present(EntryAt(X86, ram, root, q[..k]))
  {
    hide EntryAt, Descend, Tree;
    PresentIffReached(X86, ram, root, q);
    PresentIffReached(X86, ram, root, q[..k]);
    assert q[..|q|] == q;
    if k < |q| && Descend(Tree(X86, ram), root, q[..k]).None? {
      NothingBelow(Tree(X86, ram), root, q[..k], q);
    }
  }

  /** No map changes what the processor allows on any other page. */
  lemma OthersReachAlike(p: Pool, root: nat, v: nat, paddr: nat, flags: Flags, w: nat, r: Right)
    requires WellFormed(X86, p, root) && X86.Page(w) != X86.Page(v)
    ensures Reaches(MapPage(X86, p, root, v, paddr, flags).0.ram, root, w, r) <==> Reaches(p.ram, root, w, r)
  {
    hide WellFormed, EntryAt, TableMade, Present, Has, MapPage;
    var p', path := MapPage(X86, p, root, v, paddr, flags).0, X86.Path(w);
    SamePathSamePage(X86, w, v);
    assert path[..4] == path;
    MapChanges(p, root, v, paddr, flags, path);
    if Present(EntryAt(X86, p.ram, root, path)) {
      forall k | 0 < k <= 4 ensures EntryAt(X86, p'.ram, root, path[..k]) == EntryAt(X86, p.ram, root, path[..k]) {
        PrefixPresent(p.ram, root, path, k);
        MapChanges(p, root, v, paddr, flags, path[..k]);
      }
    } else {
      assert !Open(EntryAt(X86, p.ram, root, path[..4]), r) && !Open(EntryAt(X86, p'.ram, root, path[..4]), r);
    }
  }

  /** A table made for a kernel page shuts user mode out of every page mapped under it later. */
  lemma KernelTableShuts(p: Pool, root: nat, v: nat, u: nat, paddr: nat, paddr': nat, flags: Flags, flags': Flags)
    requires WellFormed(X86, p, root) && paddr < X86.VaddrLimit() && paddr' < X86.VaddrLimit()
    requires X86.Path(u)[..3] == X86.Path(v)[..3] && !Present(EntryAt(X86, p.ram, root, X86.Path(v)[..3]))
    requires !flags.user && MapPage(X86, p, root, v, paddr, flags).1
    requires var p1 := MapPage(X86, p, root, v, paddr, flags).0;
             WellFormed(X86, p1, root) && MapPage(X86, p1, root, u, paddr', flags').1
    ensures var p1 := MapPage(X86, p, root, v, paddr, flags).0;
            !Reaches(MapPage(X86, p1, root, u, paddr', flags').0.ram, root, u, ToUser)
  {
    hide WellFormed, EntryAt, TableMade, Present, Has, MapPage, Reaches;
    var p1 := MapPage(X86, p, root, v, paddr, flags).0;
    var e := EntryAt(X86, p1.ram, root, X86.Path(u)[..3]);
    MapChanges(p, root, v, paddr, flags, X86.Path(v)[..3]);
    MadeOpen(e, false, ToUser);
    MadeIsPresent(X86, e, false);
    ReachesExact(p1, root, u, paddr', flags', ToUser);
  }

  lemma {:induction false} MissingBound(ram: Ram, root: nat, path: seq<nat>, lvl: nat)
    requires |path| == 4 && lvl < 4
    ensures Missing(X86, ram, root, path, lvl) <= 3 - lvl
    decreases 4 - lvl
  {
    hide Descend, Tree;
    if lvl < 3 {
      MissingBound(ram, root, path, lvl + 1);
    }
  }

  lemma Neighbours()
    ensures X86.Path(0)[..3] == X86.Path(0x1000)[..3] && X86.Page(0) != X86.Page(0x1000)
  {
    X86Indices(0);
    X86Indices(0x1000);
  }

  lemma MapWorks(p: Pool, root: nat, v: nat, paddr: nat, flags: Flags)
    requires WellFormed(X86, p, root) && paddr < X86.VaddrLimit() && |p.free| >= 3
    ensures var (p', ok) := MapPage(X86, p, root, v, paddr, flags);
            ok && WellFormed(X86, p', root) && |p'.free| >= |p.free| - 3
  {
    hide MapPage, WellFormed, Missing;
    MapRefinesUpdate(X86, p, root, v, paddr, flags);
    MissingBound(p.ram, root, X86.Path(v), 0);
  }

  lemma UserWalk(p: Pool, root: nat, flags: Flags)
    requires WellFormed(X86, p, root) && MapPage(X86, p, root, 0x1000, 0x20_1000, flags).1
    ensures WalkPage(X86, MapPage(X86, p, root, 0x1000, 0x20_1000, flags).0.ram, root, 0x1000) == 0x20_1000
  {
    hide MapPage, WellFormed, WalkPage, Missing;
    MapRefinesUpdate(X86, p, root, 0x1000, 0x20_1000, flags);
  }

  /** A kernel page at 0 and then a user page at 0x1000, in an address space with nothing mapped near 0. */
  lemma UserPageShutOut(p: Pool, root: nat)
    requires WellFormed(X86, p, root) && |p.free| >= 6
    requires !Present(EntryAt(X86, p.ram, root, X86.Path(0)[..3]))
    ensures var (p1, ok1) := MapPage(X86, p, root, 0, 0x20_0000, Flags(true, false, false, false));
            var (p2, ok2) := MapPage(X86, p1, root, 0x1000, 0x20_1000, Flags(true, true, false, false));
            && ok1 && ok2 && WalkPage(X86, p2.ram, root, 0x1000) == 0x20_1000
            && Has(LeafOf(X86, p2.ram, root, 0x1000), X86_US) && !Reaches(p2.ram, root, 0x1000, ToUser)
  {
    hide MapPage, WellFormed, EntryAt, Present, Has, Reaches, LeafOf, WalkPage;
    var kernel, user := Flags(true, false, false, false), Flags(true, true, false, false);
    var p1 := MapPage(X86, p, root, 0, 0x20_0000, kernel).0;
    Neighbours();
    MapWorks(p, root, 0, 0x20_0000, kernel);
    MapWorks(p1, root, 0x1000, 0x20_1000, user);
    KernelTableShuts(p, root, 0, 0x1000, 0x20_0000, 0x20_1000, kernel, user);
    MapSetsLeaf(X86, p1, root, 0x1000, 0x20_1000, user, 0x1000);
    X86LeafRights(0x20_1000, user);
    UserWalk(p1, root, user);
  }
}
