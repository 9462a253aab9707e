/** From a source line to what the disassembler lists at its place in the output. */
module AsmListing {
  import opened Basics
  import Bits
  import opened Words
  import opened AsmSpec
  import opened AsmExact
  import opened AsmBranches
  import opened AsmNames
  import X86 = X86Syntax
  import X86E = X86Encode
  import X86D = X86Decode
  import X86R = X86RoundTrip
  import Rv = Rv32Syntax
  import RvE = Rv32Encode
  import RvD = Rv32Decode
  import RvR = Rv32RoundTrip

  // ---------- displacements ----------

  /** The sum, modulo 2^32, of the summands of a displacement that carry the given sign. */
  function Signed(p: Layout, atoms: seq<Atom>, negative: bool): bv32
    requires Laid(p)
  {
    if atoms == [] then 0
    else
      var last := atoms[|atoms| - 1];
      var rest := Signed(p, atoms[..|atoms| - 1], negative);
      if last.negative == negative then Plus(rest, Low32(Number(p, last.expr))) else rest
  }

  /** What was added less what was subtracted. */
  function Displacement(p: Layout, atoms: seq<Atom>): bv32
    requires Laid(p)
  {
    Distance(Signed(p, atoms, true), Signed(p, atoms, false))
  }

  // ---------- listings ----------

  function ShownMem(p: Layout, m: X86.Mem<seq<Atom>>): X86.Operand
    requires Laid(p)
  {
    X86.InMem(X86R.Seen(X86.Mem(m.base, m.index, m.scale, X86.Disp(m.disp != [], Displacement(p, m.disp)))))
  }

  /** `mov`; an immediate that fits 32 signed bits takes the short form. */
  function ShownMove(p: Layout, dst: X86.Arg<Expr, seq<Atom>>, src: X86.Arg<Expr, seq<Atom>>): Option<X86.Insn>
    requires Laid(p)
  {
    match (dst, src)
    case (R(d), R(s)) => Some(X86.LStore(X86.Mov, X86.InReg(d), s))
    case (R(d), M(m)) => Some(X86.LLoad(X86.Mov, d, ShownMem(p, m)))
    case (M(m), R(s)) => Some(X86.LStore(X86.Mov, ShownMem(p, m), s))
    case (M(m), V(e)) => Some(X86.LMovImm(ShownMem(p, m), Low32(Number(p, e))))
    case (R(d), V(e)) =>
      var v := Number(p, e);
      Some(if X86E.Fits32(v) then X86.LMovImm(X86.InReg(d), Low32(v)) else X86.LMovImm64(d, v))
    case _ => None
  }

  /** The arithmetic mnemonics; `test reg, [mem]` is listed with its operands exchanged. */
  function ShownArith(p: Layout, op: X86.Binary, dst: X86.Arg<Expr, seq<Atom>>, src: X86.Arg<Expr, seq<Atom>>)
    : Option<X86.Insn>
    requires Laid(p)
  {
    if op.Mov? || op.Lea? || op.Xchg? then None
    else
      match (dst, src)
      case (R(d), R(s)) => Some(X86.LStore(op, X86.InReg(d), s))
      case (R(d), M(m)) =>
        Some(if op.Test? then X86.LStore(op, ShownMem(p, m), d) else X86.LLoad(op, d, ShownMem(p, m)))
      case (M(m), R(s)) => Some(X86.LStore(op, ShownMem(p, m), s))
      case (R(d), V(e)) =>
        if op.Test? then None else Some(X86.LGroup32(X86.OfBinary(op), X86.InReg(d), Low32(Number(p, e))))
      case _ => None
  }

  /** The listing of an x86_64 line, from its own mnemonic, registers and operands; `None` if it is refused. */
  function X86Shown(p: Layout, st: X86Line): Option<X86.Insn>
    requires Laid(p)
  {
    match st
    case Plain(z) => Some(X86.LZero(z))
    case Int(e) => Some(X86.LInt(Low8(Number(p, e))))
    case Push(r) => Some(X86.LPush(r))
    case Pop(r) => Some(X86.LPop(r))
    case Move(dst, src) => ShownMove(p, dst, src)
    case Exchange(x, y) => Some(X86.LStore(X86.Xchg, X86.InReg(x), y))
    case Arith(op, dst, src) => ShownArith(p, op, dst, src)
    case LoadAddress(to, m) => Some(X86.LLoad(X86.Lea, to, ShownMem(p, m)))
    case Multiply(x, y) => Some(X86.LImul(x, y))
    case Unary(op, r) => Some(X86.LGroup(X86.OfUnary(op), X86.InReg(r)))
    case Shift(op, r, e) => Some(X86.LGroup8(X86.OfShift(op), X86.InReg(r), Low8(Number(p, e))))
    case Jump(e) => Some(X86.LJmp(Low32(Number(p, e))))
    case Call(e) => Some(X86.LCall(Low32(Number(p, e))))
    case JumpIf(cc, e) => Some(X86.LJcc(cc, Low32(Number(p, e))))
    case In(o) => Some(if o.None? then X86.LInDx else X86.LIn(Low8(Number(p, o.value))))
    case Out(o) => Some(if o.None? then X86.LOutDx else X86.LOut(Low8(Number(p, o.value))))
  }

  /** The listing of an RV32 line placed at `here`: each immediate as its field keeps it. */
  function RvShown(p: Layout, src: RvLine, here: bv32): Rv.Insn
    requires Laid(p)
  {
    match src
    case Real(OpR(op, rd, rs1, rs2)) => Rv.LOpR(Some(op), rd, rs1, rs2)
    case Real(OpI(op, rd, rs1, e)) =>
      var v := Low32(Number(p, e));
      Rv.LOpI(op, rd, rs1, if op.Slli? || op.Srli? || op.Srai? then v & 0x1F else RvR.Kept12(v))
    case Real(Load(op, rd, e, rs1)) => Rv.LLoad(Some(op), rd, RvR.Kept12(Low32(Number(p, e))), rs1)
    case Real(Store(op, rs2, e, rs1)) => Rv.LStore(Some(op), rs2, RvR.Kept12(Low32(Number(p, e))), rs1)
    case Real(Branch(op, rs1, rs2, e)) =>
      Rv.LBranch(Some(op), rs1, rs2, Plus(RvR.Kept13(Distance(here, Low32(Number(p, e)))), here))
    case Real(Jal(rd, e)) => Rv.LJal(rd, Plus(RvR.Kept21(Distance(here, Low32(Number(p, e)))), here))
    case Real(Jalr(rd, rs1, e)) => Rv.LJalr(rd, rs1, RvR.Kept12(Low32(Number(p, e))))
    case Real(Lui(rd, e)) => Rv.LLui(rd, Low32(Number(p, e)) & 0xF_FFFF)
    case Real(Auipc(rd, e)) => Rv.LAuipc(rd, Low32(Number(p, e)) & 0xF_FFFF)
    case Real(Ecall) => Rv.LEcall
    case Real(Ebreak) => Rv.LEbreak
    case Real(Fence(a, b)) => Rv.LFence(a, b)
    case Real(FenceI) => Rv.LFenceI
    case Nop => Rv.LOpI(Rv.Addi, 0, 0, 0)
    case Mv(rd, rs) => Rv.LOpI(Rv.Addi, rd, rs, 0)
    case Li(rd, e) => Rv.LOpI(Rv.Addi, rd, 0, RvR.Kept12(Low32(Number(p, e))))
    case J(e) => Rv.LJal(0, Plus(RvR.Kept21(Distance(here, Low32(Number(p, e)))), here))
    case Ret => Rv.LJalr(0, 1, 0)
  }

  // ---------- operands evaluate to what the text says ----------

  ghost predicate Reads(p: Layout, syms: seq<Symbol>)
    requires Laid(p)
  {
    forall n :: Find(syms, n) == Name(p, n)
  }

  lemma EvalReads(p: Layout, syms: seq<Symbol>, e: Expr)
    requires Laid(p) && Reads(p, syms)
    ensures Eval(syms, Emit, e) == if Defined(p, e) then Some(Number(p, e)) else None
  {
    hide Find, Name, Widen;
  }

  lemma Accumulated(a: bv32, n: bv32, negative: bool, v: bv64)
    ensures Accumulate(Distance(n, a), negative, v)
            == if negative then Distance(Plus(n, Low32(v)), a) else Distance(n, Plus(a, Low32(v)))
  {
    hide Low32, Plus, Distance;
    PlusLater(a, n, Low32(v));
    DistanceLater(a, n, Low32(v));
  }

  lemma NoDistance()
    ensures Distance(0, 0) == 0
  {
  }

  /** A displacement evaluates to the sum of its positive summands less the sum of its negative ones. */
  lemma {:induction false} DisplacementReads(p: Layout, syms: seq<Symbol>, atoms: seq<Atom>)
    requires Laid(p) && Reads(p, syms)
    ensures EvalAtoms(syms, Emit, atoms) ==
            if forall a | a in atoms :: Defined(p, a.expr) then Some(Displacement(p, atoms)) else None
    decreases |atoms|
  {
    hide Reads, Eval, Number, Defined, Accumulate, Plus, Distance, Low32;
    if atoms == [] {
      NoDistance();
    } else {
      var init, last := atoms[..|atoms| - 1], atoms[|atoms| - 1];
      assert atoms == init + [last];
      DisplacementReads(p, syms, init);
      EvalReads(p, syms, last.expr);
      Accumulated(Signed(p, init, false), Signed(p, init, true), last.negative, Number(p, last.expr));
    }
  }

  /** The same sum over the integers. */
  function SignedSum(p: Layout, atoms: seq<Atom>): int
    requires Laid(p)
  {
    if atoms == [] then 0
    else
      var last := atoms[|atoms| - 1];
      var v := Nat64(Number(p, last.expr));
      if last.negative then SignedSum(p, atoms[..|atoms| - 1]) - v else SignedSum(p, atoms[..|atoms| - 1]) + v
  }

  lemma ModSum(s: int, v: nat)
    ensures (s % 0x1_0000_0000 + v % 0x1_0000_0000) % 0x1_0000_0000 == (s + v) % 0x1_0000_0000
  {
  }

  lemma ModDifference(s: int, v: nat)
    ensures (s % 0x1_0000_0000 - v % 0x1_0000_0000) % 0x1_0000_0000 == (s - v) % 0x1_0000_0000
  {
    Bits.ModShift(s, v, 0x1_0000_0000);
  }

  lemma AccumulatedValue(d: bv32, negative: bool, v: bv64, s: int)
    requires Nat32(d) == s % 0x1_0000_0000
    ensures Nat32(Accumulate(d, negative, v)) == (if negative then s - Nat64(v) else s + Nat64(v)) % 0x1_0000_0000
  {
    hide Nat32, Nat64, Nat8, Nat16, Low8, Low16, Low32, Plus, Distance;
    LowValues(v);
    PlusValue(d, Low32(v));
    DistanceValue(Low32(v), d);
    ModSum(s, Nat64(v));
    ModDifference(s, Nat64(v));
  }

  lemma NoValue()
    ensures Nat32(0) == 0
  {
  }

  /** A displacement is the signed sum of its summands modulo 2^32. */
  lemma {:induction false} DisplacementValue(p: Layout, atoms: seq<Atom>)
    requires Laid(p)
    ensures Nat32(Displacement(p, atoms)) == SignedSum(p, atoms) % 0x1_0000_0000
    decreases |atoms|
  {
    hide Number, Accumulate, Plus, Distance, Low32, Nat32, Nat64;
    if atoms == [] {
      NoDistance();
      NoValue();
    } else {
      var init, last := atoms[..|atoms| - 1], atoms[|atoms| - 1];
      DisplacementValue(p, init);
      Accumulated(Signed(p, init, false), Signed(p, init, true), last.negative, Number(p, last.expr));
      AccumulatedValue(Displacement(p, init), last.negative, Number(p, last.expr), SignedSum(p, init));
    }
  }

  // ---------- lines ----------

  /** What `x86_parse_mem` makes of the scale: 1, 2, 4 or 8, and 1 without an index. */
  predicate ScaleParsed(m: X86.Mem<seq<Atom>>) {
    (m.scale == 1 || m.scale == 2 || m.scale == 4 || m.scale == 8) && (m.index.None? ==> m.scale == 1)
  }

  predicate ArgParsed(a: X86.Arg<Expr, seq<Atom>>) {
    a.M? ==> ScaleParsed(a.mem)
  }

  predicate LineParsed(st: X86Line) {
    match st
    case Move(dst, src) => ArgParsed(dst) && ArgParsed(src)
    case Arith(_, dst, src) => ArgParsed(dst) && ArgParsed(src)
    case LoadAddress(_, m) => ScaleParsed(m)
    case _ => true
  }

  lemma MemReads(p: Layout, syms: seq<Symbol>, m: X86.Mem<seq<Atom>>)
    requires Laid(p) && Reads(p, syms) && ResolveMem(syms, Emit, m).Some?
    ensures X86.InMem(X86R.Seen(ResolveMem(syms, Emit, m).value)) == ShownMem(p, m)
    ensures ScaleParsed(m) ==> X86R.Parsed(ResolveMem(syms, Emit, m).value)
  {
    hide Reads, Displacement, X86R.Seen;
    DisplacementReads(p, syms, m.disp);
  }

  lemma ArgReads(p: Layout, syms: seq<Symbol>, a: X86.Arg<Expr, seq<Atom>>)
    requires Laid(p) && Reads(p, syms) && ResolveArg(syms, Emit, a).Some?
    ensures var x := ResolveArg(syms, Emit, a).value;
            match a
            case R(r) => x == X86.R(r)
            case M(m) =>
              x.M? && X86.InMem(X86R.Seen(x.mem)) == ShownMem(p, m) && (ScaleParsed(m) ==> X86R.Parsed(x.mem))
            case V(e) => x == X86.V(Number(p, e))
  {
    hide Reads, Eval, ResolveMem, ShownMem, X86R.Seen, X86R.Parsed, Number;
    match a
    case R(_) =>
    case M(m) => MemReads(p, syms, m);
    case V(e) => EvalReads(p, syms, e);
  }

  /** Two-operand lines: what the encoder is given lists as the line says, and is refused when the line is. */
  lemma PairReads(p: Layout, syms: seq<Symbol>, st: X86Line, here: bv32)
    requires Laid(p) && Reads(p, syms) && (st.Move? || st.Arith?) && LineParsed(st)
    requires ResolveX86(syms, Emit, st).Some?
    ensures var x := ResolveX86(syms, Emit, st).value;
            && (X86E.Encode(x, here).Some? <==> X86Shown(p, st).Some?)
            && (X86R.MemOf(x).Some? ==> X86R.Parsed(X86R.MemOf(x).value))
            && (X86E.Encode(x, 0).Some? ==> X86Shown(p, st) == Some(X86R.Listed(x, true)))
  {
    hide Reads, ResolveArg, ScaleParsed, ShownMem, X86R.Seen, X86R.Parsed, X86E.Encode, X86E.Fits32, Number, Low32;
    var x := ResolveX86(syms, Emit, st).value;
    ArgReads(p, syms, st.dst);
    ArgReads(p, syms, st.src);
    X86R.RefusedExactly(x, here);
    X86R.RefusedExactly(x, 0);
  }

  /** Every x86_64 line. */
  lemma X86Reads(p: Layout, syms: seq<Symbol>, st: X86Line, here: bv32)
    requires Laid(p) && Reads(p, syms) && LineParsed(st)
    requires ResolveX86(syms, Emit, st).Some?
    ensures var x := ResolveX86(syms, Emit, st).value;
            && (X86E.Encode(x, here).Some? <==> X86Shown(p, st).Some?)
            && (X86R.MemOf(x).Some? ==> X86R.Parsed(X86R.MemOf(x).value))
            && (X86E.Encode(x, 0).Some? ==> X86Shown(p, st) == Some(X86R.Listed(x, true)))
  {
    if st.Move? || st.Arith? {
      PairReads(p, syms, st, here);
    } else {
      SingleReads(p, syms, st, here);
    }
  }

  lemma SingleReads(p: Layout, syms: seq<Symbol>, st: X86Line, here: bv32)
    requires Laid(p) && Reads(p, syms) && !st.Move? && !st.Arith? && LineParsed(st)
    requires ResolveX86(syms, Emit, st).Some?
    ensures var x := ResolveX86(syms, Emit, st).value;
            && (X86E.Encode(x, here).Some? <==> X86Shown(p, st).Some?)
            && (X86R.MemOf(x).Some? ==> X86R.Parsed(X86R.MemOf(x).value))
            && (X86E.Encode(x, 0).Some? ==> X86Shown(p, st) == Some(X86R.Listed(x, true)))
  {
    hide Reads, Eval, ResolveMem, ScaleParsed, ShownMem, X86R.Seen, X86R.Parsed, X86E.Encode, Number, Low32, Low8;
    var x := ResolveX86(syms, Emit, st).value;
    X86R.RefusedExactly(x, here);
    X86R.RefusedExactly(x, 0);
    match st
    case LoadAddress(_, m) => MemReads(p, syms, m);
    case Int(e) => EvalReads(p, syms, e);
    case Shift(_, _, e) => EvalReads(p, syms, e);
    case Jump(e) => EvalReads(p, syms, e);
    case Call(e) => EvalReads(p, syms, e);
    case JumpIf(_, e) => EvalReads(p, syms, e);
    case In(o) => if o.Some? { EvalReads(p, syms, o.value); }
    case Out(o) => if o.Some? { EvalReads(p, syms, o.value); }
    case _ =>
  }

  /** The immediate or target of an RV32 line, if it has one. */
  function RvOperand(src: RvLine): Option<Expr> {
    match src
    case Real(OpI(_, _, _, e)) => Some(e)
    case Real(Load(_, _, e, _)) => Some(e)
    case Real(Store(_, _, e, _)) => Some(e)
    case Real(Branch(_, _, _, e)) => Some(e)
    case Real(Jal(_, e)) => Some(e)
    case Real(Jalr(_, _, e)) => Some(e)
    case Real(Lui(_, e)) => Some(e)
    case Real(Auipc(_, e)) => Some(e)
    case Li(_, e) => Some(e)
    case J(e) => Some(e)
    case _ => None
  }

  lemma RvStmtReads(p: Layout, syms: seq<Symbol>, st: Rv.Stmt<Expr>, here: bv32)
    requires Laid(p) && Reads(p, syms) && ResolveRvStmt(syms, Emit, st).Some?
    ensures RvR.Listed(ResolveRvStmt(syms, Emit, st).value, here) == RvShown(p, Rv.Real(st), here)
  {
    hide Reads, Eval, Number, Low32, RvR.Kept12, RvR.Kept13, RvR.Kept21, Plus, Distance;
    if RvOperand(Rv.Real(st)).Some? {
      EvalReads(p, syms, RvOperand(Rv.Real(st)).value);
    }
  }

  lemma RvReads(p: Layout, syms: seq<Symbol>, src: RvLine, here: bv32)
    requires Laid(p) && Reads(p, syms) && ResolveRv(syms, Emit, src).Some?
    ensures RvR.ListedSource(ResolveRv(syms, Emit, src).value, here) == RvShown(p, src, here)
  {
    hide Reads, Eval, Number, Low32, RvR.Kept12, RvR.Kept13, RvR.Kept21, Plus, Distance;
    if RvOperand(src).Some? {
      EvalReads(p, syms, RvOperand(src).value);
    }
    if src.Real? {
      RvStmtReads(p, syms, src.st, here);
    }
  }

  // ---------- whole programs ----------

  /** Where the second pass places the lines of a program. */
  function PlacedAt(base: bv32, lines: seq<Line>, r: Assembly): Layout {
    Layout(base, lines, r.emit.pcs)
  }

  /** In a program whose passes agree, the second pass reads every name as the text and the placement give it. */
  lemma AgreedReads(base: bv32, arch: Arch, lines: seq<Line>)
    requires Agrees(base, arch, lines)
    ensures var r := Assemble(base, arch, lines).value;
            Laid(PlacedAt(base, lines, r)) && Reads(PlacedAt(base, lines, r), r.emit.end.syms)
  {
    hide Pass, AllAlike, Apply, Find, Name;
    var r := Assemble(base, arch, lines).value;
    AgreedImage(base, arch, lines);
    TableHoldsText(base, arch, lines, "");
    forall n ensures Find(r.emit.end.syms, n) == Name(PlacedAt(base, lines, r), n) {
      TableHoldsText(base, arch, lines, n);
    }
  }

  /**
   Every placed x86_64 instruction, decoded at its own address in the output, is listed with the mnemonic
   and registers of its line, each number as its value and each name as what the text makes it stand for.
   */
  lemma X86LineListed(base: bv32, arch: Arch, lines: seq<Line>, k: nat)
    requires Placed(base, arch, lines, k, X86_64) && lines[k].body.x86.Some? && LineParsed(lines[k].body.x86.value)
    ensures var r := Assemble(base, arch, lines).value;
            var p := PlacedAt(base, lines, r);
            && Laid(p) && Fit(r.collect.writes, MAX_PROG) && Fit(r.emit.writes, MAX_PROG)
            && r.emit.end.maxPc <= MAX_PROG && p.at[k] <= |Output(r)|
            && var d := X86D.Decode(Address(base, p.at[k]), Output(r)[p.at[k]..]);
            && d.Some? && X86Shown(p, lines[k].body.x86.value) == Some(d.value.0)
            && d.value.1 == |r.emit.writes[k].bytes|
  {
    hide Output, At, AllAlike, Untouched, Reads, LineParsed, X86D.Decode, X86E.Encode, X86R.Listed, X86R.Parsed,
         X86R.MemOf, ResolveX86, X86Shown, Address, Pass;
    var r := Assemble(base, arch, lines).value;
    var p := PlacedAt(base, lines, r);
    AgreedReads(base, arch, lines);
    LineInOutput(base, arch, lines, k);
    var here, line := Address(base, p.at[k]), lines[k].body.x86.value;
    var st := ResolveX86(r.emit.end.syms, Emit, line).value;
    X86Reads(p, r.emit.end.syms, line, here);
    X86R.StatementRoundTrip(here, Output(r)[p.at[k]..], st);
  }

  /** The same for every placed RV32 instruction; a branch out of reach is listed as its field keeps the distance. */
  lemma RvLineListed(base: bv32, arch: Arch, lines: seq<Line>, k: nat)
    requires Placed(base, arch, lines, k, Riscv32) && lines[k].body.rv.Some?
    ensures var r := Assemble(base, arch, lines).value;
            var p := PlacedAt(base, lines, r);
            && Laid(p) && Fit(r.collect.writes, MAX_PROG) && Fit(r.emit.writes, MAX_PROG)
            && r.emit.end.maxPc <= MAX_PROG && p.at[k] <= |Output(r)|
            && var here := Address(base, p.at[k]);
            RvD.Decode(here, Output(r)[p.at[k]..]) == Some((RvShown(p, lines[k].body.rv.value, here), 4))
  {
    hide Output, At, AllAlike, Untouched, Reads, RvD.Decode, RvE.Encode, RvR.ListedSource, ResolveRv, RvShown, Address,
         Pass;
    var r := Assemble(base, arch, lines).value;
    var p := PlacedAt(base, lines, r);
    AgreedReads(base, arch, lines);
    LineInOutput(base, arch, lines, k);
    var here, line := Address(base, p.at[k]), lines[k].body.rv.value;
    RvReads(p, r.emit.end.syms, line, here);
    RvR.StatementRoundTrip(here, Output(r)[p.at[k]..], ResolveRv(r.emit.end.syms, Emit, line).value);
  }
}
