/** The two passes of `rivet-as` agree on the layout, and what follows for labels and for the image. */
module AsmTwoPass {
  import opened Basics
  import opened Words
  import opened AsmSpec
  import opened AsmLengths
  import X86 = X86Syntax
  import X86E = X86Encode
  import RvE = Rv32Encode

  // ---------- symbols ----------

  lemma {:induction false} FindExtends(t: seq<Symbol>, s: seq<Symbol>, n: string)
    requires t <= s && Find(t, n).Some?
    ensures Find(s, n) == Find(t, n)
    decreases |t|
  {
    assert t[0] == s[0];
    if t[0].name != n {
      FindExtends(t[1..], s[1..], n);
    }
  }

  lemma {:induction false} FindAppended(t: seq<Symbol>, n: string, v: bv32)
    requires Find(t, n).None?
    ensures Find(t + [Symbol(n, v)], n) == Some(v)
    decreases |t|
  {
    var s := t + [Symbol(n, v)];
    if t != [] {
      assert s[0] == t[0] && s[1..] == t[1..] + [Symbol(n, v)];
      FindAppended(t[1..], n, v);
    }
  }

  function Names(syms: seq<Symbol>): set<string> {
    set i | 0 <= i < |syms| :: syms[i].name
  }

  lemma {:induction false} FindIffNamed(syms: seq<Symbol>, n: string)
    ensures Find(syms, n).Some? <==> n in Names(syms)
    decreases |syms|
  {
    if syms != [] {
      FindIffNamed(syms[1..], n);
      assert Names(syms) == {syms[0].name} + Names(syms[1..]) by {
        assert forall i | 0 <= i < |syms| - 1 :: syms[1..][i] == syms[i + 1];
      }
    }
  }

  lemma NamesAppend(syms: seq<Symbol>, x: Symbol)
    ensures Names(syms + [x]) == Names(syms) + {x.name}
  {
    var s := syms + [x];
    assert forall i | 0 <= i < |syms| :: s[i] == syms[i];
    assert s[|syms|] == x;
  }

  /** The names a list of labels leaves in the table. */
  function StoredSet(labels: seq<string>): set<string> {
    set i | 0 <= i < |labels| :: Stored(labels[i])
  }

  lemma {:induction false} DefineAllNames(syms: seq<Symbol>, labels: seq<string>, v: bv32)
    requires DefineAll(syms, labels, v).Some?
    ensures syms <= DefineAll(syms, labels, v).value
    ensures Names(DefineAll(syms, labels, v).value) == Names(syms) + StoredSet(labels)
    decreases |labels|
  {
    if labels == [] {
      assert StoredSet(labels) == {};
    } else {
      var s1 := Define(syms, labels[0], v).value;
      NamesAppend(syms, Symbol(Stored(labels[0]), v));
      DefineAllNames(s1, labels[1..], v);
      assert StoredSet(labels) == {Stored(labels[0])} + StoredSet(labels[1..]) by {
        assert forall i | 0 <= i < |labels| - 1 :: labels[1..][i] == labels[i + 1];
      }
    }
  }

  /** A label of a line is found with the address the line has, provided its name fits the table. */
  lemma {:induction false} DefineAllFinds(syms: seq<Symbol>, labels: seq<string>, v: bv32, i: nat)
    requires DefineAll(syms, labels, v).Some? && i < |labels| && |labels[i]| <= NAME_CAP
    ensures Find(DefineAll(syms, labels, v).value, labels[i]) == Some(v)
    decreases |labels|
  {
    var s1 := Define(syms, labels[0], v).value;
    if i == 0 {
      FindAppended(syms, labels[0], v);
      DefineAllNames(s1, labels[1..], v);
      FindExtends(s1, DefineAll(syms, labels, v).value, labels[0]);
    } else {
      DefineAllFinds(s1, labels[1..], v, i - 1);
    }
  }

  // ---------- operands whose value decides the layout ----------

  function AtomExprs(atoms: seq<Atom>): (es: seq<Expr>)
    ensures |es| == |atoms| && forall i | 0 <= i < |atoms| :: es[i] == atoms[i].expr
  {
    seq(|atoms|, i requires 0 <= i < |atoms| => atoms[i].expr)
  }

  function ArgExprs(a: X86.Arg<Expr, seq<Atom>>): seq<Expr> {
    if a.M? then AtomExprs(a.mem.disp) else []
  }

  /** A displacement decides between 8 and 32 bits, the immediate of `mov reg, imm` between 32 and 64. */
  function X86LayoutExprs(st: X86Line): seq<Expr> {
    match st
    case Move(d, s) => ArgExprs(d) + ArgExprs(s) + (if d.R? && s.V? then [s.imm] else [])
    case Arith(_, d, s) => ArgExprs(d) + ArgExprs(s)
    case LoadAddress(_, m) => AtomExprs(m.disp)
    case _ => []
  }

  function LayoutExprs(b: Body, arch: Arch): seq<Expr> {
    match b
    case Org(e) => [e]
    case Fill(n, _) => [n]
    case Align(e) => [e]
    case P2Align(e) => [e]
    case Insn(x, _) => if arch.X86_64? && x.Some? then X86LayoutExprs(x.value) else []
    case _ => []
  }

  predicate Known(syms: seq<Symbol>, e: Expr) {
    e.Lit? || Find(syms, e.name).Some?
  }

  lemma KnownAgrees(t: seq<Symbol>, s: seq<Symbol>, e: Expr)
    requires t <= s && Known(t, e)
    ensures Eval(t, Collect, e) == Eval(s, Emit, e)
  {
    if e.Sym? {
      FindExtends(t, s, e.name);
    }
  }

  lemma {:induction false} AtomsAgree(t: seq<Symbol>, s: seq<Symbol>, atoms: seq<Atom>)
    requires t <= s && forall e | e in AtomExprs(atoms) :: Known(t, e)
    ensures EvalAtoms(t, Collect, atoms) == EvalAtoms(s, Emit, atoms)
    decreases |atoms|
  {
    hide Accumulate, Eval;
    if atoms != [] {
      var n := |atoms| - 1;
      var front := atoms[..n];
      assert AtomExprs(atoms)[n] == atoms[n].expr;
      KnownAgrees(t, s, atoms[n].expr);
      forall e | e in AtomExprs(front) ensures Known(t, e) {
        var i :| 0 <= i < n && AtomExprs(front)[i] == e;
        assert AtomExprs(atoms)[i] == e;
      }
      AtomsAgree(t, s, front);
    }
  }

  lemma ArgAgrees(t: seq<Symbol>, s: seq<Symbol>, a: X86.Arg<Expr, seq<Atom>>)
    requires t <= s && forall e | e in ArgExprs(a) :: Known(t, e)
    requires ResolveArg(t, Collect, a).Some? && ResolveArg(s, Emit, a).Some?
    ensures var x, y := ResolveArg(t, Collect, a).value, ResolveArg(s, Emit, a).value;
            (!a.V? ==> x == y) && (a.V? ==> x.V? && y.V?)
  {
    if a.M? {
      AtomsAgree(t, s, a.mem.disp);
    }
  }

  /** The number of bytes of an x86_64 statement depends on its layout operands alone. */
  lemma X86SameLength(t: seq<Symbol>, s: seq<Symbol>, st: X86Line, here: bv32)
    requires t <= s && forall e | e in X86LayoutExprs(st) :: Known(t, e)
    requires ResolveX86(t, Collect, st).Some? && ResolveX86(s, Emit, st).Some?
    ensures var x := X86E.Encode(ResolveX86(t, Collect, st).value, here);
            var y := X86E.Encode(ResolveX86(s, Emit, st).value, here);
            x.Some? && y.Some? ==> |x.value| == |y.value|
  {
    hide X86E.Encode, ResolveX86, SameTests, Twin, X86LayoutExprs;
    var x, y := ResolveX86(t, Collect, st).value, ResolveX86(s, Emit, st).value;
    KnownTests(t, s, st);
    if X86E.Encode(x, here).Some? && X86E.Encode(y, here).Some? {
      LineLengthExact(t, s, st, here);
    }
  }

  /** Known layout operands have the same value in both passes, so the encoder's tests come out alike. */
  lemma KnownTests(t: seq<Symbol>, s: seq<Symbol>, st: X86Line)
    requires t <= s && forall e | e in X86LayoutExprs(st) :: Known(t, e)
    requires ResolveX86(t, Collect, st).Some? && ResolveX86(s, Emit, st).Some?
    ensures var x, y := ResolveX86(t, Collect, st).value, ResolveX86(s, Emit, st).value; Twin(x, y) && SameTests(x, y)
  {
    hide Eval, EvalAtoms, SameDisp, ResolveArg, Twin;
    ResolvedTwins(t, s, Collect, Emit, st);
    if st.Move? || st.Arith? {
      assert forall i | i in ArgExprs(st.dst) || i in ArgExprs(st.src) :: i in X86LayoutExprs(st);
      ArgTests(t, s, st.dst);
      ArgTests(t, s, st.src);
      if st.Move? && st.dst.R? && st.src.V? {
        assert st.src.imm in X86LayoutExprs(st);
        ImmTests(t, s, st.src);
      }
    } else if st.LoadAddress? {
      AtomsAgree(t, s, st.mem.disp);
      SameDispSelf(ResolveMem(t, Collect, st.mem).value);
    }
  }

  lemma ArgTests(t: seq<Symbol>, s: seq<Symbol>, a: X86.Arg<Expr, seq<Atom>>)
    requires t <= s && forall e | e in ArgExprs(a) :: Known(t, e)
    requires ResolveArg(t, Collect, a).Some? && ResolveArg(s, Emit, a).Some?
    ensures SameDispArg(ResolveArg(t, Collect, a).value, ResolveArg(s, Emit, a).value)
    ensures var x := ResolveArg(t, Collect, a).value; (x.R? <==> a.R?) && (x.V? <==> a.V?)
  {
    hide Eval, EvalAtoms, X86E.Fits8;
    ArgAgrees(t, s, a);
  }

  lemma ImmTests(t: seq<Symbol>, s: seq<Symbol>, a: X86.Arg<Expr, seq<Atom>>)
    requires t <= s && a.V? && Known(t, a.imm)
    requires ResolveArg(t, Collect, a).Some? && ResolveArg(s, Emit, a).Some?
    ensures ResolveArg(t, Collect, a) == ResolveArg(s, Emit, a)
  {
    hide Eval;
    KnownAgrees(t, s, a.imm);
  }

  lemma SameDispSelf(m: X86.Mem<X86.Disp>)
    ensures SameDisp(m, m)
  {
  }

  lemma {:induction false} EvalAllLength(syms: seq<Symbol>, p: PassNo, es: seq<Expr>)
    requires EvalAll(syms, p, es).Some?
    ensures |EvalAll(syms, p, es).value| == |es|
    decreases |es|
  {
    if es != [] {
      EvalAllLength(syms, p, es[1..]);
    }
  }

  function ItemSize(w: Width): nat {
    match w case W8 => 1 case W16 => 2 case W32 => 4 case W64 => 8
  }

  lemma {:induction false} DataLength(w: Width, vs: seq<bv64>)
    ensures |DataBytes(w, vs)| == ItemSize(w) * |vs|
    decreases |vs|
  {
    if vs != [] {
      DataLength(w, vs[1..]);
    }
  }

  lemma InsnSameLength(t: seq<Symbol>, s: seq<Symbol>, arch: Arch, base: bv32, pc: nat, b: Body)
    requires pc <= MAX_PROG && t <= s && b.Insn? && forall e | e in LayoutExprs(b, arch) :: Known(t, e)
    requires InsnOut(t, Collect, arch, base, pc, b).Some? && InsnOut(s, Emit, arch, base, pc, b).Some?
    ensures |InsnOut(t, Collect, arch, base, pc, b).value.bytes| == |InsnOut(s, Emit, arch, base, pc, b).value.bytes|
  {
    hide X86E.Encode, RvE.EncodeWord, RvE.Expand, ResolveX86, ResolveRv, X86LayoutExprs, Address;
    if arch.X86_64? {
      X86SameLength(t, s, b.x86.value, Address(base, pc));
    }
  }

  /** If the layout operands of a line are known, both passes move the counter alike over it. */
  lemma SameLayout(t: seq<Symbol>, s: seq<Symbol>, arch: Arch, base: bv32, pc: nat, b: Body)
    requires pc <= MAX_PROG && t <= s && forall e | e in LayoutExprs(b, arch) :: Known(t, e)
    requires BodyOut(t, Collect, arch, base, pc, b).Some? && BodyOut(s, Emit, arch, base, pc, b).Some?
    ensures var x, y := BodyOut(t, Collect, arch, base, pc, b).value, BodyOut(s, Emit, arch, base, pc, b).value;
            |x.bytes| == |y.bytes| && x.next == y.next
  {
    hide InsnOut, Eval, EvalAll, DataBytes, AlignOut, OrgOut, OrgTarget, Unsigned32, Low8;
    match b
    case Org(e) => KnownAgrees(t, s, e);
    case Fill(n, _) => KnownAgrees(t, s, n);
    case Align(e) => KnownAgrees(t, s, e);
    case P2Align(e) => KnownAgrees(t, s, e);
    case Data(w, es) =>
      EvalAllLength(t, Collect, es);
      EvalAllLength(s, Emit, es);
      DataLength(w, EvalAll(t, Collect, es).value);
      DataLength(w, EvalAll(s, Emit, es).value);
    case Insn(_, _) => InsnSameLength(t, s, arch, base, pc, b);
    case _ =>
  }

  // ---------- programs whose layout is settled by earlier symbols ----------

  function ArchAfter(arch: Arch, b: Body): Arch {
    if b.SelectArch? then b.arch else arch
  }

  /** The table names that exist once the labels of a line are in. */
  function WithLabels(names: set<string>, ln: Line): set<string> {
    names + StoredSet(ln.labels)
  }

  function WithLine(names: set<string>, ln: Line): set<string> {
    WithLabels(names, ln) + (if ln.body.Equ? then {Stored(ln.body.name)} else {})
  }

  /** Layout-deciding operands are numbers or symbols defined on an earlier line or by a label of their own. */
  ghost predicate Settled(lines: seq<Line>, names: set<string>, arch: Arch)
    decreases |lines|
  {
    lines == [] ||
    (&& (forall e | e in LayoutExprs(lines[0].body, arch) :: e.Lit? || e.name in WithLabels(names, lines[0]))
     && Settled(lines[1..], WithLine(names, lines[0]), ArchAfter(arch, lines[0].body)))
  }

  /** No instruction comes before the first `.arch`. */
  ghost predicate SelectsFirst(lines: seq<Line>)
    decreases |lines|
  {
    lines == [] || lines[0].body.SelectArch? || (!lines[0].body.Insn? && SelectsFirst(lines[1..]))
  }

  function LastArch(arch: Arch, lines: seq<Line>): Arch
    decreases |lines|
  {
    if lines == [] then arch else LastArch(ArchAfter(arch, lines[0].body), lines[1..])
  }

  /** The backend in force at each instruction is the same in both passes, though `.arch` is not reset. */
  ghost predicate ArchStable(arch: Arch, lines: seq<Line>) {
    LastArch(arch, lines) == arch || SelectsFirst(lines)
  }

  // ---------- the backend in force at a line ----------

  lemma {:induction false} SelectedBefore(a: Arch, b: Arch, lines: seq<Line>, k: nat)
    requires SelectsFirst(lines) && k < |lines| && lines[k].body.Insn?
    ensures LastArch(a, lines[..k]) == LastArch(b, lines[..k])
    decreases |lines|
  {
    if k > 0 {
      assert lines[..k][0] == lines[0] && lines[..k][1..] == lines[1..][..k - 1];
      if !lines[0].body.SelectArch? {
        SelectedBefore(ArchAfter(a, lines[0].body), ArchAfter(b, lines[0].body), lines[1..], k - 1);
      }
    }
  }

  /** Without a selection ahead of it, some instruction runs under whatever backend the pass starts with. */
  lemma {:induction false} Unselected(lines: seq<Line>) returns (k: nat)
    requires !SelectsFirst(lines)
    ensures k < |lines| && lines[k].body.Insn? && forall a :: LastArch(a, lines[..k]) == a
    decreases |lines|
  {
    if lines[0].body.Insn? {
      k := 0;
    } else {
      k := Unselected(lines[1..]);
      assert lines[..k + 1][0] == lines[0] && lines[..k + 1][1..] == lines[1..][..k];
      k := k + 1;
    }
  }

  /**
   The second pass starts with the backend that the first left. Every instruction has the same backend
   in both passes if and only if that is the backend the first started with, or no instruction comes
   before the first `.arch`.
   */
  lemma ArchStableExact(arch: Arch, lines: seq<Line>)
    ensures ArchStable(arch, lines) <==>
              forall k | 0 <= k < |lines| && lines[k].body.Insn? ::
                LastArch(arch, lines[..k]) == LastArch(LastArch(arch, lines), lines[..k])
  {
    var last := LastArch(arch, lines);
    if ArchStable(arch, lines) && last != arch {
      forall k | 0 <= k < |lines| && lines[k].body.Insn?
        ensures LastArch(arch, lines[..k]) == LastArch(last, lines[..k])
      {
        SelectedBefore(arch, last, lines, k);
      }
    }
    if !ArchStable(arch, lines) {
      var k := Unselected(lines);
      assert LastArch(arch, lines[..k]) == arch && LastArch(last, lines[..k]) == last;
    }
  }

  lemma {:induction false} PassArch(p: PassNo, base: bv32, c: Cursor, lines: seq<Line>)
    requires c.pc <= MAX_PROG && Pass(p, base, c, lines).Some?
    ensures Pass(p, base, c, lines).value.end.arch == LastArch(c.arch, lines)
    decreases |lines|
  {
    hide BodyOut, AfterLabels, AfterEqu, Address;
    if lines != [] {
      PassArch(p, base, Process(p, base, c, lines[0]).value.0, lines[1..]);
    }
  }

  lemma CollectLine(base: bv32, c: Cursor, ln: Line)
    requires c.pc <= MAX_PROG && Process(Collect, base, c, ln).Some?
    ensures var syms := AfterLabels(c.syms, Collect, ln, Address(base, c.pc));
            && syms.Some? && c.syms <= syms.value && Names(syms.value) == WithLabels(Names(c.syms), ln)
            && var end := Process(Collect, base, c, ln).value.0.syms;
            && syms.value <= end && Names(end) == WithLine(Names(c.syms), ln)
  {
    hide BodyOut, Names, Find, Eval, Address;
    var here := Address(base, c.pc);
    DefineAllNames(c.syms, ln.labels, here);
    var syms := DefineAll(c.syms, ln.labels, here).value;
    if ln.body.Equ? {
      var v := Eval(syms, Collect, ln.body.expr).value;
      NamesAppend(syms, Symbol(Stored(ln.body.name), Low32(v)));
    }
  }

  lemma {:induction false} CollectGrows(base: bv32, c: Cursor, lines: seq<Line>)
    requires c.pc <= MAX_PROG && Pass(Collect, base, c, lines).Some?
    ensures c.syms <= Pass(Collect, base, c, lines).value.end.syms
    decreases |lines|
  {
    hide Process, Names, AfterLabels, WithLabels, WithLine;
    if lines != [] {
      CollectLine(base, c, lines[0]);
      CollectGrows(base, Process(Collect, base, c, lines[0]).value.0, lines[1..]);
    }
  }

  // ---------- agreement ----------

  predicate SameShape(a: seq<Write>, b: seq<Write>) {
    |a| == |b| && forall i | 0 <= i < |a| :: a[i].at == b[i].at && |a[i].bytes| == |b[i].bytes|
  }

  /** One line, processed in the collecting pass by `c` and in the emitting pass by `d`. */
  lemma LineAgrees(base: bv32, c: Cursor, d: Cursor, ln: Line)
    requires c.pc == d.pc <= MAX_PROG && (c.arch == d.arch || !ln.body.Insn?)
    requires Process(Collect, base, c, ln).Some? && Process(Emit, base, d, ln).Some?
    requires Process(Collect, base, c, ln).value.0.syms <= d.syms
    requires forall e | e in LayoutExprs(ln.body, c.arch) :: e.Lit? || e.name in WithLabels(Names(c.syms), ln)
    ensures var (c', w) := Process(Collect, base, c, ln).value;
            var (d', x) := Process(Emit, base, d, ln).value;
            && c'.pc == d'.pc && w.at == x.at && |w.bytes| == |x.bytes| && d'.syms == d.syms
            && c'.arch == ArchAfter(c.arch, ln.body) && d'.arch == ArchAfter(d.arch, ln.body)
  {
    hide BodyOut, Names, WithLabels, WithLine, LayoutExprs, Address, Eval, Define;
    CollectLine(base, c, ln);
    var t := AfterLabels(c.syms, Collect, ln, Address(base, c.pc)).value;
    forall e | e in LayoutExprs(ln.body, c.arch) ensures Known(t, e) {
      if e.Sym? {
        FindIffNamed(t, e.name);
      }
    }
    ArchIrrelevant(t, Collect, c.arch, d.arch, base, c.pc, ln.body);
    ArchIrrelevant(d.syms, Emit, c.arch, d.arch, base, c.pc, ln.body);
    SameLayout(t, d.syms, c.arch, base, c.pc, ln.body);
  }

  lemma ArchIrrelevant(syms: seq<Symbol>, p: PassNo, a: Arch, a': Arch, base: bv32, pc: nat, b: Body)
    requires pc <= MAX_PROG && (a == a' || !b.Insn?)
    ensures BodyOut(syms, p, a, base, pc, b) == BodyOut(syms, p, a', base, pc, b)
  {
    hide InsnOut, Eval, EvalAll, DataBytes, AlignOut, OrgOut, OrgTarget, Unsigned32;
  }

  /** Both passes reach the same counter at every line and write the same stretches. */
  lemma {:induction false} PassesAgree(base: bv32, c: Cursor, d: Cursor, lines: seq<Line>)
    requires c.pc == d.pc <= MAX_PROG && (c.arch == d.arch || SelectsFirst(lines))
    requires Pass(Collect, base, c, lines).Some? && Pass(Emit, base, d, lines).Some?
    requires d.syms == Pass(Collect, base, c, lines).value.end.syms
    requires Settled(lines, Names(c.syms), c.arch)
    ensures var r, q := Pass(Collect, base, c, lines).value, Pass(Emit, base, d, lines).value;
            && r.pcs == q.pcs && SameShape(r.writes, q.writes) && r.end.pc == q.end.pc && q.end.syms == d.syms
    decreases |lines|
  {
    hide Process, Names, LayoutExprs, WithLabels, WithLine;
    if lines != [] {
      var ln := lines[0];
      var (c', w) := Process(Collect, base, c, ln).value;
      var (d', x) := Process(Emit, base, d, ln).value;
      CollectGrows(base, c', lines[1..]);
      CollectLine(base, c, ln);
      LineAgrees(base, c, d, ln);
      PassesAgree(base, c', d', lines[1..]);
    }
  }

  // ---------- the image ----------

  /** Position `i` is written by one of the writes. */
  predicate Covered(writes: seq<Write>, i: nat) {
    exists k :: 0 <= k < |writes| && writes[k].at <= i < writes[k].at + |writes[k].bytes|
  }

  lemma ShapeCovers(a: seq<Write>, b: seq<Write>, i: nat)
    requires SameShape(a, b)
    ensures Covered(a, i) <==> Covered(b, i)
  {
  }

  lemma PutAt(buf: seq<byte>, w: Write, i: nat)
    requires w.at + |w.bytes| <= |buf| && i < |buf|
    ensures Put(buf, w)[i] == if w.at <= i < w.at + |w.bytes| then w.bytes[i - w.at] else buf[i]
  {
  }

  /** Where nothing is written the buffer stays; where something is, its former contents do not matter. */
  lemma {:induction false} ApplyAt(a: seq<byte>, b: seq<byte>, writes: seq<Write>, i: nat)
    requires |a| == |b| && Fit(writes, |a|) && i < |a|
    ensures !Covered(writes, i) ==> Apply(a, writes)[i] == a[i]
    ensures Covered(writes, i) || a[i] == b[i] ==> Apply(a, writes)[i] == Apply(b, writes)[i]
    decreases |writes|
  {
    if writes != [] {
      var w, rest := writes[0], writes[1..];
      assert Fit(rest, |a|);
      PutAt(a, w, i);
      PutAt(b, w, i);
      ApplyAt(Put(a, w), Put(b, w), rest, i);
      if Covered(rest, i) {
        var k :| 0 <= k < |rest| && rest[k].at <= i < rest[k].at + |rest[k].bytes|;
        assert writes[k + 1] == rest[k];
      }
      if Covered(writes, i) && !(w.at <= i < w.at + |w.bytes|) {
        var k :| 0 <= k < |writes| && writes[k].at <= i < writes[k].at + |writes[k].bytes|;
        assert rest[k - 1] == writes[k];
      }
    }
  }

  /** Writing over the first pass's output gives what the second pass alone gives on a clean buffer. */
  lemma RewriteErases(buf: seq<byte>, first: seq<Write>, second: seq<Write>)
    requires Fit(first, |buf|) && Fit(second, |buf|) && SameShape(first, second)
    ensures Apply(Apply(buf, first), second) == Apply(buf, second)
  {
    var once := Apply(buf, first);
    forall i | 0 <= i < |buf| ensures Apply(once, second)[i] == Apply(buf, second)[i] {
      ShapeCovers(first, second, i);
      ApplyAt(buf, buf, first, i);
      ApplyAt(once, buf, second, i);
    }
  }

  function HighWater(m: nat, writes: seq<Write>): nat
    decreases |writes|
  {
    if writes == [] then m else HighWater(Max(m, writes[0].at + |writes[0].bytes|), writes[1..])
  }

  lemma {:induction false} PassHighWater(p: PassNo, base: bv32, c: Cursor, lines: seq<Line>)
    requires c.pc <= MAX_PROG && Pass(p, base, c, lines).Some?
    ensures Pass(p, base, c, lines).value.end.maxPc == HighWater(c.maxPc, Pass(p, base, c, lines).value.writes)
    ensures Fit(Pass(p, base, c, lines).value.writes, MAX_PROG)
    decreases |lines|
  {
    hide BodyOut, AfterLabels, AfterEqu, Address;
    if lines != [] {
      PassHighWater(p, base, Process(p, base, c, lines[0]).value.0, lines[1..]);
    }
  }

  lemma {:induction false} HighWaterShape(m: nat, a: seq<Write>, b: seq<Write>)
    requires SameShape(a, b)
    ensures HighWater(m, a) == HighWater(m, b)
    decreases |a|
  {
    if a != [] {
      HighWaterShape(Max(m, a[0].at + |a[0].bytes|), a[1..], b[1..]);
    }
  }

  lemma {:induction false} HighWaterMonotone(m: nat, n: nat, a: seq<Write>)
    requires m <= n
    ensures m <= HighWater(m, a) <= HighWater(n, a)
    ensures n <= HighWater(m, a) ==> HighWater(n, a) == HighWater(m, a)
    decreases |a|
  {
    if a != [] {
      var t := a[0].at + |a[0].bytes|;
      HighWaterMonotone(Max(m, t), Max(n, t), a[1..]);
    }
  }

  /** The buffer `prog` after both passes. */
  ghost function Image(r: Assembly): seq<byte>
    requires Fit(r.collect.writes, MAX_PROG) && Fit(r.emit.writes, MAX_PROG)
  {
    Apply(Apply(Repeat<byte>(MAX_PROG, 0), r.collect.writes), r.emit.writes)
  }

  /**
   If layout-deciding operands use only numbers and earlier symbols and the backend is the same in
   both passes: every line starts at the same counter in both, the file size is the size the second
   pass alone reaches, and the image is what the second pass alone writes into a cleared buffer.
   */
  lemma TwoPassAgreement(base: bv32, arch: Arch, lines: seq<Line>)
    requires Assemble(base, arch, lines).Some?
    requires Settled(lines, {}, arch) && ArchStable(arch, lines)
    ensures var r := Assemble(base, arch, lines).value;
            && r.collect.pcs == r.emit.pcs && SameShape(r.collect.writes, r.emit.writes)
            && Fit(r.collect.writes, MAX_PROG) && Fit(r.emit.writes, MAX_PROG)
            && r.emit.end.syms == r.collect.end.syms
            && r.emit.end.maxPc == HighWater(0, r.emit.writes)
            && Image(r) == Apply(Repeat<byte>(MAX_PROG, 0), r.emit.writes)
  {
    hide Pass, Process, Settled, Names, Apply;
    var c := Cursor(0, 0, [], arch);
    var r := Assemble(base, arch, lines).value;
    var d := r.collect.end.(pc := 0);
    NoNames();
    PassArch(Collect, base, c, lines);
    PassesAgree(base, c, d, lines);
    ImageOf(base, arch, lines);
  }

  /** Passes that write the same stretches leave the size and the image of the second alone. */
  lemma ImageOf(base: bv32, arch: Arch, lines: seq<Line>)
    requires Assemble(base, arch, lines).Some?
    requires var r := Assemble(base, arch, lines).value; SameShape(r.collect.writes, r.emit.writes)
    ensures var r := Assemble(base, arch, lines).value;
            && Fit(r.collect.writes, MAX_PROG) && Fit(r.emit.writes, MAX_PROG)
            && r.emit.end.maxPc == HighWater(0, r.emit.writes)
            && Image(r) == Apply(Repeat<byte>(MAX_PROG, 0), r.emit.writes)
  {
    hide Pass, Process, Apply;
    var r := Assemble(base, arch, lines).value;
    var d := r.collect.end.(pc := 0);
    PassHighWater(Collect, base, Cursor(0, 0, [], arch), lines);
    PassHighWater(Emit, base, d, lines);
    HighWaterShape(0, r.collect.writes, r.emit.writes);
    HighWaterMonotone(0, d.maxPc, r.emit.writes);
    RewriteErases(Repeat<byte>(MAX_PROG, 0), r.collect.writes, r.emit.writes);
  }

  lemma NoNames()
    ensures Names([]) == {}
  {
  }

  // ---------- labels ----------

  /** Each label ends up in the table with the address of its line. */
  lemma {:induction false} LabelRecorded(base: bv32, c: Cursor, lines: seq<Line>, k: nat, i: nat)
    requires c.pc <= MAX_PROG && Pass(Collect, base, c, lines).Some?
    requires k < |lines| && i < |lines[k].labels| && |lines[k].labels[i]| <= NAME_CAP
    ensures var r := Pass(Collect, base, c, lines).value;
            r.pcs[k] <= MAX_PROG && Find(r.end.syms, lines[k].labels[i]) == Some(Address(base, r.pcs[k]))
    decreases |lines|
  {
    hide BodyOut, AfterEqu, Find, Names, Address, WithLabels, WithLine;
    var c' := Process(Collect, base, c, lines[0]).value.0;
    if k == 0 {
      CollectLine(base, c, lines[0]);
      CollectGrows(base, c', lines[1..]);
      DefineAllFinds(c.syms, lines[0].labels, Address(base, c.pc), i);
      FindExtends(AfterLabels(c.syms, Collect, lines[0], Address(base, c.pc)).value,
                  Pass(Collect, base, c, lines).value.end.syms, lines[0].labels[i]);
    } else {
      LabelRecorded(base, c', lines[1..], k - 1, i);
    }
  }

  /** The address recorded for a label is the address where its line's bytes land in the emitted image. */
  lemma LabelIsWhereBytesLand(base: bv32, arch: Arch, lines: seq<Line>, k: nat, i: nat)
    requires Assemble(base, arch, lines).Some? && Settled(lines, {}, arch) && ArchStable(arch, lines)
    requires k < |lines| && i < |lines[k].labels| && |lines[k].labels[i]| <= NAME_CAP
    ensures var r := Assemble(base, arch, lines).value;
            && r.emit.writes[k].at <= MAX_PROG
            && Find(r.emit.end.syms, lines[k].labels[i]) == Some(Address(base, r.emit.writes[k].at))
  {
    hide Pass, Process, Settled, Names, Find, Address;
    var c := Cursor(0, 0, [], arch);
    TwoPassAgreement(base, arch, lines);
    LabelRecorded(base, c, lines, k, i);
    WritesAtCounters(Collect, base, c, lines, k);
  }

  lemma {:induction false} WritesAtCounters(p: PassNo, base: bv32, c: Cursor, lines: seq<Line>, k: nat)
    requires c.pc <= MAX_PROG && Pass(p, base, c, lines).Some? && k < |lines|
    ensures Pass(p, base, c, lines).value.writes[k].at == Pass(p, base, c, lines).value.pcs[k]
    decreases |lines|
  {
    hide BodyOut, AfterLabels, AfterEqu, Address;
    if k > 0 {
      WritesAtCounters(p, base, Process(p, base, c, lines[0]).value.0, lines[1..], k - 1);
    }
  }
}
