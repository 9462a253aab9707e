/** Exactly when the two passes of `rivet-as` agree, line by line and for whole programs. */
module AsmExact {
  import opened Basics
  import opened Words
  import opened Bits
  import opened AsmSpec
  import opened AsmLengths
  import opened AsmTwoPass
  import X86E = X86Encode
  import RvE = Rv32Encode

  /** The value of an operand; an operand that is an error counts as 0. */
  function ValueOf(syms: seq<Symbol>, p: PassNo, e: Expr): bv64 {
    var v := Eval(syms, p, e);
    if v.Some? then v.value else 0
  }

  /** The zeros that an alignment to `a` takes at `pc`. */
  function Pad(pc: nat, a: nat): nat
    requires pc <= MAX_PROG
  {
    AlignPad(pc, if a < 1 then 1 else a)
  }

  /** `1u << log`, for the shifts that C defines. */
  function Shifted(v: bv64): nat {
    if Unsigned32(v) < 32 then Pow2(Unsigned32(v)) else 1
  }

  /** An x86_64 line has a size of its own; an RV32 line takes four bytes. */
  ghost predicate FourBytes(syms: seq<Symbol>, p: PassNo, st: X86Line) {
    var x := ResolveX86(syms, p, st);
    x.Some? && X86Size(x.value) == 4
  }

  /**
   What the first pass finds with symbols `t` and backend `a`, and the second with `s` and `a'`, decides
   the layout alike: the same target of `.org`, the same count, the same padding, and for instructions
   the same answers to the encoder's tests; where the backends differ, four bytes for x86_64.
   */
  ghost predicate Alike(t: seq<Symbol>, s: seq<Symbol>, a: Arch, a': Arch, base: bv32, pc: nat, b: Body)
    requires pc <= MAX_PROG
  {
    match b
    case Org(e) => OrgTarget(ValueOf(t, Collect, e), base) == OrgTarget(ValueOf(s, Emit, e), base)
    case Fill(n, _) => Unsigned32(ValueOf(t, Collect, n)) == Unsigned32(ValueOf(s, Emit, n))
    case Align(e) => Pad(pc, Unsigned32(ValueOf(t, Collect, e))) == Pad(pc, Unsigned32(ValueOf(s, Emit, e)))
    case P2Align(e) => Pad(pc, Shifted(ValueOf(t, Collect, e))) == Pad(pc, Shifted(ValueOf(s, Emit, e)))
    case Insn(st, _) =>
      if a.Riscv32? && a'.Riscv32? then true
      else if st.None? then false
      else if a.Riscv32? then FourBytes(s, Emit, st.value)
      else if a'.Riscv32? then FourBytes(t, Collect, st.value)
      else
        var x, y := ResolveX86(t, Collect, st.value), ResolveX86(s, Emit, st.value);
        x.Some? && y.Some? && Twin(x.value, y.value) && SameTests(x.value, y.value)
    case _ => true
  }

  lemma RvSize(syms: seq<Symbol>, p: PassNo, base: bv32, pc: nat, b: Body)
    requires pc <= MAX_PROG && b.Insn? && InsnOut(syms, p, Riscv32, base, pc, b).Some?
    ensures |InsnOut(syms, p, Riscv32, base, pc, b).value.bytes| == 4
  {
    hide RvE.EncodeWord, RvE.Expand, ResolveRv, Address;
  }

  lemma X86SizeOut(syms: seq<Symbol>, p: PassNo, base: bv32, pc: nat, b: Body)
    requires pc <= MAX_PROG && b.Insn? && InsnOut(syms, p, X86_64, base, pc, b).Some?
    ensures b.x86.Some? && ResolveX86(syms, p, b.x86.value).Some?
    ensures X86E.Encode(ResolveX86(syms, p, b.x86.value).value, Address(base, pc)).Some?
    ensures InsnOut(syms, p, X86_64, base, pc, b).value.bytes
            == X86E.Encode(ResolveX86(syms, p, b.x86.value).value, Address(base, pc)).value
    ensures |InsnOut(syms, p, X86_64, base, pc, b).value.bytes| == X86Size(ResolveX86(syms, p, b.x86.value).value)
  {
    hide X86E.Encode, ResolveX86, Address, X86Size;
    SizeIs(ResolveX86(syms, p, b.x86.value).value, Address(base, pc));
  }

  lemma InsnExact(t: seq<Symbol>, s: seq<Symbol>, a: Arch, a': Arch, base: bv32, pc: nat, b: Body)
    requires pc <= MAX_PROG && b.Insn?
    requires InsnOut(t, Collect, a, base, pc, b).Some? && InsnOut(s, Emit, a', base, pc, b).Some?
    ensures |InsnOut(t, Collect, a, base, pc, b).value.bytes| == |InsnOut(s, Emit, a', base, pc, b).value.bytes|
            <==> Alike(t, s, a, a', base, pc, b)
  {
    hide InsnOut, X86E.Encode, ResolveX86, Address, X86Size, Twin, SameTests;
    if a.X86_64? { X86SizeOut(t, Collect, base, pc, b); } else { RvSize(t, Collect, base, pc, b); }
    if a'.X86_64? { X86SizeOut(s, Emit, base, pc, b); } else { RvSize(s, Emit, base, pc, b); }
    if a.X86_64? && a'.X86_64? {
      LineLengthExact(t, s, b.x86.value, Address(base, pc));
    }
  }

  lemma DataAlike(t: seq<Symbol>, s: seq<Symbol>, w: Width, es: seq<Expr>)
    requires EvalAll(t, Collect, es).Some? && EvalAll(s, Emit, es).Some?
    ensures |DataBytes(w, EvalAll(t, Collect, es).value)| == |DataBytes(w, EvalAll(s, Emit, es).value)|
  {
    EvalAllLength(t, Collect, es);
    EvalAllLength(s, Emit, es);
    DataLength(w, EvalAll(t, Collect, es).value);
    DataLength(w, EvalAll(s, Emit, es).value);
  }

  /**
   For every directive and instruction: both passes leave the counter at the same place if and only
   if the line is alike.
   */
  lemma BodyExact(t: seq<Symbol>, s: seq<Symbol>, a: Arch, a': Arch, base: bv32, pc: nat, b: Body)
    requires pc <= MAX_PROG
    requires BodyOut(t, Collect, a, base, pc, b).Some? && BodyOut(s, Emit, a', base, pc, b).Some?
    ensures var x, y := BodyOut(t, Collect, a, base, pc, b).value, BodyOut(s, Emit, a', base, pc, b).value;
            && (x.next == y.next <==> Alike(t, s, a, a', base, pc, b))
            && (x.next == y.next ==> |x.bytes| == |y.bytes|)
  {
    hide InsnOut, Eval, EvalAll, DataBytes, AlignPad, OrgTarget, Unsigned32, Low8, Pow2, Repeat, Twin, SameTests,
         FourBytes;
    match b
    case Data(w, es) => DataAlike(t, s, w, es);
    case Insn(_, _) => InsnExact(t, s, a, a', base, pc, b);
    case _ =>
  }

  // ---------- whole programs ----------

  /**
   Every line is alike under the symbols and the backend the first pass has there, and under the final
   symbols `s` and the backend `a'` the second pass has there. The first pass alone decides this.
   */
  ghost predicate AllAlike(base: bv32, c: Cursor, s: seq<Symbol>, a': Arch, lines: seq<Line>)
    requires c.pc <= MAX_PROG
    decreases |lines|
  {
    lines == [] ||
    var t := AfterLabels(c.syms, Collect, lines[0], Address(base, c.pc));
    var r := Process(Collect, base, c, lines[0]);
    && t.Some? && r.Some?
    && Alike(t.value, s, c.arch, a', base, c.pc, lines[0].body)
    && AllAlike(base, r.value.0, s, ArchAfter(a', lines[0].body), lines[1..])
  }

  lemma LineExact(base: bv32, c: Cursor, d: Cursor, ln: Line)
    requires c.pc == d.pc <= MAX_PROG
    requires Process(Collect, base, c, ln).Some? && Process(Emit, base, d, ln).Some?
    ensures var (c', w) := Process(Collect, base, c, ln).value;
            var (d', x) := Process(Emit, base, d, ln).value;
            var t := AfterLabels(c.syms, Collect, ln, Address(base, c.pc));
            && t.Some? && (c'.pc == d'.pc <==> Alike(t.value, d.syms, c.arch, d.arch, base, c.pc, ln.body))
            && (c'.pc == d'.pc ==> |w.bytes| == |x.bytes|)
            && w.at == x.at == c.pc && d'.syms == d.syms && d'.arch == ArchAfter(d.arch, ln.body)
  {
    hide BodyOut, Alike, Address, DefineAll, Define, Eval;
    var t := AfterLabels(c.syms, Collect, ln, Address(base, c.pc)).value;
    BodyExact(t, d.syms, c.arch, d.arch, base, c.pc, ln.body);
  }

  /** Both passes reach the same counter at every line and at the end if and only if every line is alike. */
  lemma {:induction false} PassesExact(base: bv32, c: Cursor, d: Cursor, lines: seq<Line>)
    requires c.pc == d.pc <= MAX_PROG
    requires Pass(Collect, base, c, lines).Some? && Pass(Emit, base, d, lines).Some?
    ensures var r, q := Pass(Collect, base, c, lines).value, Pass(Emit, base, d, lines).value;
            && (r.pcs == q.pcs && r.end.pc == q.end.pc <==> AllAlike(base, c, d.syms, d.arch, lines))
            && (AllAlike(base, c, d.syms, d.arch, lines) ==> SameShape(r.writes, q.writes))
            && q.end.syms == d.syms
    decreases |lines|
  {
    hide Process, Alike, AfterLabels, Address;
    if lines != [] {
      var (c', w) := Process(Collect, base, c, lines[0]).value;
      var (d', x) := Process(Emit, base, d, lines[0]).value;
      LineExact(base, c, d, lines[0]);
      var r, q := Pass(Collect, base, c, lines).value, Pass(Emit, base, d, lines).value;
      if c'.pc == d'.pc {
        PassesExact(base, c', d', lines[1..]);
        var r', q' := Pass(Collect, base, c', lines[1..]).value, Pass(Emit, base, d', lines[1..]).value;
        assert r.pcs[1..] == r'.pcs && q.pcs[1..] == q'.pcs;
      } else {
        NextCounter(Collect, base, c', lines[1..]);
        NextCounter(Emit, base, d', lines[1..]);
        EmitKeepsSyms(base, d, lines);
        assert lines[1..] != [] ==> r.pcs[1] == c'.pc && q.pcs[1] == d'.pc;
      }
    }
  }

  lemma NextCounter(p: PassNo, base: bv32, c: Cursor, lines: seq<Line>)
    requires c.pc <= MAX_PROG && Pass(p, base, c, lines).Some?
    ensures var r := Pass(p, base, c, lines).value; if lines == [] then r.end.pc == c.pc else r.pcs[0] == c.pc
  {
    hide Process;
  }

  lemma {:induction false} EmitKeepsSyms(base: bv32, d: Cursor, lines: seq<Line>)
    requires d.pc <= MAX_PROG && Pass(Emit, base, d, lines).Some?
    ensures Pass(Emit, base, d, lines).value.end.syms == d.syms
    decreases |lines|
  {
    hide BodyOut, Address;
    if lines != [] {
      EmitKeepsSyms(base, Process(Emit, base, d, lines[0]).value.0, lines[1..]);
    }
  }

  /** The condition on a program: it assembles, and every line is alike in both passes. */
  ghost predicate Agrees(base: bv32, arch: Arch, lines: seq<Line>) {
    var r := Assemble(base, arch, lines);
    && r.Some?
    && AllAlike(base, Cursor(0, 0, [], arch), r.value.collect.end.syms, LastArch(arch, lines), lines)
  }

  /** For every program that assembles: the passes agree on every counter if and only if every line is alike. */
  lemma AgreementExact(base: bv32, arch: Arch, lines: seq<Line>)
    requires Assemble(base, arch, lines).Some?
    ensures var r := Assemble(base, arch, lines).value;
            r.collect.pcs == r.emit.pcs && r.collect.end.pc == r.emit.end.pc <==> Agrees(base, arch, lines)
  {
    hide Pass, AllAlike;
    var r := Assemble(base, arch, lines).value;
    PassArch(Collect, base, Cursor(0, 0, [], arch), lines);
    PassesExact(base, Cursor(0, 0, [], arch), r.collect.end.(pc := 0), lines);
  }

  /** And then the size and the image are what the second pass alone makes of a cleared buffer. */
  lemma AgreedImage(base: bv32, arch: Arch, lines: seq<Line>)
    requires Agrees(base, arch, lines)
    ensures var r := Assemble(base, arch, lines).value;
            && r.collect.pcs == r.emit.pcs && SameShape(r.collect.writes, r.emit.writes)
            && Fit(r.collect.writes, MAX_PROG) && Fit(r.emit.writes, MAX_PROG)
            && r.emit.end.syms == r.collect.end.syms
            && r.emit.end.maxPc == HighWater(0, r.emit.writes)
            && Image(r) == Apply(Repeat<byte>(MAX_PROG, 0), r.emit.writes)
  {
    hide Pass, AllAlike, Apply;
    var c, r := Cursor(0, 0, [], arch), Assemble(base, arch, lines).value;
    PassArch(Collect, base, c, lines);
    PassesExact(base, c, r.collect.end.(pc := 0), lines);
    ImageOf(base, arch, lines);
  }

  /** Numbers and earlier symbols in the layout operands, under a stable backend, are enough. */
  lemma SettledAgrees(base: bv32, arch: Arch, lines: seq<Line>)
    requires Assemble(base, arch, lines).Some? && Settled(lines, {}, arch) && ArchStable(arch, lines)
    ensures Agrees(base, arch, lines)
  {
    hide Pass, AllAlike, Settled, Names;
    var c, r := Cursor(0, 0, [], arch), Assemble(base, arch, lines).value;
    NoNames();
    PassArch(Collect, base, c, lines);
    PassesAgree(base, c, r.collect.end.(pc := 0), lines);
    PassesExact(base, c, r.collect.end.(pc := 0), lines);
  }

  /** In a program that agrees, a label is recorded where the bytes of its line land. */
  lemma LabelLands(base: bv32, arch: Arch, lines: seq<Line>, k: nat, i: nat)
    requires Agrees(base, arch, lines)
    requires k < |lines| && i < |lines[k].labels| && |lines[k].labels[i]| <= NAME_CAP
    ensures var r := Assemble(base, arch, lines).value;
            && r.emit.writes[k].at <= MAX_PROG
            && Find(r.emit.end.syms, lines[k].labels[i]) == Some(Address(base, r.emit.writes[k].at))
  {
    hide Pass, AllAlike, Find, Address, Apply;
    AgreedImage(base, arch, lines);
    LabelRecorded(base, Cursor(0, 0, [], arch), lines, k, i);
    WritesAtCounters(Collect, base, Cursor(0, 0, [], arch), lines, k);
  }
}
