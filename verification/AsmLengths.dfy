/** How many bytes an x86_64 line takes, and when two symbol tables give it the same number. */
module AsmLengths {
  import opened Words
  import opened AsmSpec
  import X86 = X86Syntax
  import X86E = X86Encode

  lemma MoveLength(r: X86.Reg, v: bv64, here: bv32)
    ensures var e := X86E.Encode(X86.Move(X86.R(r), X86.V(v)), here);
            e.Some? && |e.value| == if X86E.Fits32(v) then 7 else 10
  {
    hide Le32, Le64, Low32, X86E.ModRm, X86E.Hi, X86E.Fits32;
    RexWide(r);
    LeLengths(Low32(v), v);
  }

  lemma RexWide(r: X86.Reg)
    ensures |X86E.Rex(1, 0, 0, X86E.Hi(r))| == 1
  {
  }

  lemma LeLengths(d: bv32, v: bv64)
    ensures |Le32(d)| == 4 && |Le64(v)| == 8
  {
  }

  function DispSize(m: X86.Mem<X86.Disp>): nat {
    var mod := X86E.Mod(m);
    if X86E.HasSib(m) && mod == 0 && m.base.None? then 4 else if mod == 1 then 1 else if mod == 2 then 4 else 0
  }

  lemma MemFormSize(opcode: byte, reg: bv8, m: X86.Mem<X86.Disp>)
    ensures |X86E.MemForm(opcode, reg, m)| == 3 + (if X86E.HasSib(m) then 1 else 0) + DispSize(m)
  {
    hide X86E.ModRm, X86E.Sib, Le32, X86E.Mod, X86E.HasSib, X86E.Rex;
    LeLengths(m.disp.value, 0);
    assert |X86E.RexForMem(reg, m)| == 1 by { RexForMemSize(reg, m); }
  }

  lemma RexForMemSize(reg: bv8, m: X86.Mem<X86.Disp>)
    ensures |X86E.RexForMem(reg, m)| == 1
  {
  }

  /** The two memory operands differ at most in the value of their displacement. */
  predicate TwinMem(m: X86.Mem<X86.Disp>, n: X86.Mem<X86.Disp>) {
    m.base == n.base && m.index == n.index && m.scale == n.scale && m.disp.given == n.disp.given
  }

  predicate TwinArg(x: X86.Arg<bv64, X86.Disp>, y: X86.Arg<bv64, X86.Disp>) {
    match x
    case R(_) => y == x
    case M(m) => y.M? && TwinMem(m, y.mem)
    case V(_) => y.V?
  }

  /** What one line resolves to under two symbol tables: the same but for the values of immediates and displacements. */
  predicate Twin(x: X86.Concrete, y: X86.Concrete) {
    match x
    case Move(d, s) => y.Move? && TwinArg(d, y.dst) && TwinArg(s, y.src)
    case Arith(op, d, s) => y.Arith? && y.op == op && TwinArg(d, y.dst) && TwinArg(s, y.src)
    case LoadAddress(d, m) => y.LoadAddress? && y.to == d && TwinMem(m, y.mem)
    case Int(_) => y.Int?
    case Shift(op, r, _) => y.Shift? && y.sop == op && y.reg == r
    case Jump(_) => y.Jump?
    case Call(_) => y.Call?
    case JumpIf(cc, _) => y.JumpIf? && y.cc == cc
    case In(p) => y.In? && y.port.Some? == p.Some?
    case Out(p) => y.Out? && y.port.Some? == p.Some?
    case _ => y == x
  }

  lemma ResolvedArgTwins(t: seq<Symbol>, s: seq<Symbol>, p: PassNo, q: PassNo, a: X86.Arg<Expr, seq<Atom>>)
    requires ResolveArg(t, p, a).Some? && ResolveArg(s, q, a).Some?
    ensures TwinArg(ResolveArg(t, p, a).value, ResolveArg(s, q, a).value)
  {
    hide Eval, EvalAtoms;
  }

  lemma ResolvedTwins(t: seq<Symbol>, s: seq<Symbol>, p: PassNo, q: PassNo, st: X86Line)
    requires ResolveX86(t, p, st).Some? && ResolveX86(s, q, st).Some?
    ensures Twin(ResolveX86(t, p, st).value, ResolveX86(s, q, st).value)
  {
    hide Eval, EvalAtoms, ResolveArg, TwinArg;
    match st
    case Move(d, e) =>
      ResolvedArgTwins(t, s, p, q, d);
      ResolvedArgTwins(t, s, p, q, e);
    case Arith(_, d, e) =>
      ResolvedArgTwins(t, s, p, q, d);
      ResolvedArgTwins(t, s, p, q, e);
    case _ =>
  }

  /** A displacement that is written at all takes one byte or four, by its value. */
  predicate SameDisp(m: X86.Mem<X86.Disp>, n: X86.Mem<X86.Disp>) {
    m.disp.given ==> (X86E.Fits8(m.disp.value) <==> X86E.Fits8(n.disp.value))
  }

  predicate SameDispArg(x: X86.Arg<bv64, X86.Disp>, y: X86.Arg<bv64, X86.Disp>) {
    x.M? && y.M? ==> SameDisp(x.mem, y.mem)
  }

  /** The tests the encoder makes on values come out alike. */
  predicate SameTests(x: X86.Concrete, y: X86.Concrete)
    requires Twin(x, y)
  {
    match x
    case Move(d, s) =>
      && SameDispArg(d, y.dst) && SameDispArg(s, y.src)
      && (d.R? && s.V? ==> (X86E.Fits32(s.imm) <==> X86E.Fits32(y.src.imm)))
    case Arith(_, d, s) => SameDispArg(d, y.dst) && SameDispArg(s, y.src)
    case LoadAddress(_, m) => SameDisp(m, y.mem)
    case _ => true
  }

  /** An operand without a displacement counts as displacement 0, as `x86_parse_mem` leaves it. */
  predicate Zeroed(m: X86.Mem<X86.Disp>) {
    m.disp.given || m.disp.value == 0
  }

  /** For every base, index and scale, with or without either: the lengths agree exactly when the values fit alike. */
  lemma ForwardDispExact(opcode: byte, reg: bv8, m: X86.Mem<X86.Disp>, n: X86.Mem<X86.Disp>)
    requires TwinMem(m, n) && Zeroed(m) && Zeroed(n)
    ensures |X86E.MemForm(opcode, reg, m)| == |X86E.MemForm(opcode, reg, n)| <==> SameDisp(m, n)
  {
    hide X86E.MemForm, X86E.Fits8;
    MemFormSize(opcode, reg, m);
    MemFormSize(opcode, reg, n);
    FitsZero();
  }

  lemma FitsZero()
    ensures X86E.Fits8(0)
  {
  }

  predicate ZeroedSt(x: X86.Concrete) {
    match x
    case Move(d, s) => (d.M? ==> Zeroed(d.mem)) && (s.M? ==> Zeroed(s.mem))
    case Arith(_, d, s) => (d.M? ==> Zeroed(d.mem)) && (s.M? ==> Zeroed(s.mem))
    case LoadAddress(_, m) => Zeroed(m)
    case _ => true
  }

  // ---------- the size of every statement ----------

  function MemSize(m: X86.Mem<X86.Disp>): nat {
    3 + (if X86E.HasSib(m) then 1 else 0) + DispSize(m)
  }

  /** `op dst, src` without an immediate. */
  function PairSize(d: X86.Arg<bv64, X86.Disp>, s: X86.Arg<bv64, X86.Disp>): nat {
    if d.M? then MemSize(d.mem) else if s.M? then MemSize(s.mem) else 3
  }

  function X86Size(x: X86.Concrete): nat {
    match x
    case Plain(z) => if z.Sysret? then 3 else if z.Iretq? || z.Syscall? || z.Ud2? then 2 else 1
    case Int(_) => 2
    case Push(r) => if r >= 8 then 2 else 1
    case Pop(r) => if r >= 8 then 2 else 1
    case Move(d, s) =>
      if d.M? && s.V? then MemSize(d.mem) + 4
      else if d.R? && s.V? then (if X86E.Fits32(s.imm) then 7 else 10)
      else PairSize(d, s)
    case Exchange(_, _) => 3
    case Arith(_, d, s) => if d.R? && s.V? then 7 else PairSize(d, s)
    case LoadAddress(_, m) => MemSize(m)
    case Multiply(_, _) => 4
    case Unary(_, _) => 3
    case Shift(_, _, _) => 4
    case Jump(_) => 5
    case Call(_) => 5
    case JumpIf(_, _) => 6
    case In(p) => if p.None? then 1 else 2
    case Out(p) => if p.None? then 1 else 2
  }

  lemma RegFormSize(opcode: byte, reg: bv8, rm: bv8)
    ensures |X86E.RegForm(opcode, reg, rm)| == 3
  {
  }

  lemma DigitFormSize(opcode: byte, digit: bv8, r: X86.Reg, imm: seq<byte>)
    ensures |X86E.DigitForm(opcode, digit, r, imm)| == 3 + |imm|
  {
    hide X86E.ModRm, X86E.Rex, X86E.Hi;
    RexWide(r);
  }

  lemma PairIs(op: X86.Binary, d: X86.Arg<bv64, X86.Disp>, s: X86.Arg<bv64, X86.Disp>)
    requires X86E.EmitRmOrMr(op, d, s).Some?
    ensures |X86E.EmitRmOrMr(op, d, s).value| == PairSize(d, s)
  {
    hide X86E.MemForm, X86E.RegForm, X86E.MrOpcode, X86E.RmOpcode, DispSize, X86E.HasSib;
    match (d, s)
    case (R(r), R(q)) => RegFormSize(X86E.MrOpcode(op), q, r);
    case (R(r), M(m)) => MemFormSize(X86E.RmOpcode(op), r, m);
    case (M(m), R(r)) => MemFormSize(X86E.MrOpcode(op), r, m);
    case _ =>
  }

  lemma DataSize(x: X86.Concrete, here: bv32)
    requires (x.Move? || x.Arith? || x.LoadAddress?) && X86E.Encode(x, here).Some?
    ensures |X86E.Encode(x, here).value| == X86Size(x)
  {
    hide X86E.MemForm, X86E.EmitRmOrMr, X86E.DigitForm, X86E.Fits32, X86E.ArithDigit, X86E.IsArith, Low32, MemSize,
         PairSize;
    match x
    case Move(d, s) =>
      if d.R? && s.V? {
        MoveLength(d.reg, s.imm, here);
      } else if d.M? && s.V? {
        LeLengths(Low32(s.imm), 0);
        MemFormIs(0xC7, 0, d.mem);
      } else {
        PairIs(X86.Mov, d, s);
      }
    case Arith(op, d, s) =>
      if d.R? && s.V? {
        LeLengths(Low32(s.imm), 0);
        DigitFormSize(0x81, X86E.ArithDigit(op).value, d.reg, Le32(Low32(s.imm)));
      } else {
        PairIs(op, d, s);
      }
    case LoadAddress(r, m) => MemFormIs(0x8D, r, m);
  }

  lemma MemFormIs(opcode: byte, reg: bv8, m: X86.Mem<X86.Disp>)
    ensures |X86E.MemForm(opcode, reg, m)| == MemSize(m)
  {
    hide X86E.MemForm;
    MemFormSize(opcode, reg, m);
  }

  lemma RegisterSize(x: X86.Concrete, here: bv32)
    requires x.Push? || x.Pop? || x.Exchange? || x.Multiply? || x.Unary? || x.Shift?
    ensures X86E.Encode(x, here).Some? && |X86E.Encode(x, here).value| == X86Size(x)
  {
    hide X86E.DigitForm, X86E.RegForm, Low8;
    match x
    case Exchange(a, b) => RegFormSize(0x87, b, a);
    case Unary(op, r) =>
      var (g, digit) := X86E.UnaryGroup(op);
      DigitFormSize(if g.GrpFF? then 0xFF else 0xF7, digit, r, []);
    case Shift(op, r, v) => DigitFormSize(0xC1, X86E.ShiftDigit(op), r, [Low8(v)]);
    case _ =>
  }

  lemma ControlSize(x: X86.Concrete, here: bv32)
    requires x.Plain? || x.Int? || x.Jump? || x.Call? || x.JumpIf? || x.In? || x.Out?
    ensures X86E.Encode(x, here).Some? && |X86E.Encode(x, here).value| == X86Size(x)
  {
    hide Low8, Low32, Distance, After;
  }

  /** The number of bytes of every statement, wherever it is placed. */
  lemma SizeIs(x: X86.Concrete, here: bv32)
    requires X86E.Encode(x, here).Some?
    ensures |X86E.Encode(x, here).value| == X86Size(x)
  {
    hide X86E.Encode, X86Size;
    if x.Move? || x.Arith? || x.LoadAddress? {
      DataSize(x, here);
    } else if x.Plain? || x.Int? || x.Jump? || x.Call? || x.JumpIf? || x.In? || x.Out? {
      ControlSize(x, here);
    } else {
      RegisterSize(x, here);
    }
  }

  lemma TwinMemSizes(m: X86.Mem<X86.Disp>, n: X86.Mem<X86.Disp>)
    requires TwinMem(m, n) && Zeroed(m) && Zeroed(n)
    ensures MemSize(m) == MemSize(n) <==> SameDisp(m, n)
  {
    hide X86E.Fits8;
    FitsZero();
  }

  /**
   Two resolutions of one line have the same length exactly when the encoder's tests on their values
   come out alike.
   */
  lemma TwinLengths(x: X86.Concrete, y: X86.Concrete, here: bv32)
    requires Twin(x, y) && ZeroedSt(x) && ZeroedSt(y)
    requires X86E.Encode(x, here).Some? && X86E.Encode(y, here).Some?
    ensures |X86E.Encode(x, here).value| == |X86E.Encode(y, here).value| <==> SameTests(x, y)
  {
    hide X86E.Encode, MemSize, SameDisp, TwinMem, Zeroed, X86E.Fits32;
    SizeIs(x, here);
    SizeIs(y, here);
    if x.Move? || x.Arith? {
      NoTwoMemories(x, here);
      if x.dst.M? { TwinMemSizes(x.dst.mem, y.dst.mem); }
      if x.src.M? { TwinMemSizes(x.src.mem, y.src.mem); }
    } else if x.LoadAddress? {
      TwinMemSizes(x.mem, y.mem);
    }
  }

  lemma NoTwoMemories(x: X86.Concrete, here: bv32)
    requires (x.Move? || x.Arith?) && X86E.Encode(x, here).Some?
    ensures !(x.dst.M? && x.src.M?)
  {
    hide X86E.MemForm, X86E.RegForm, X86E.DigitForm, X86E.Fits32, X86E.Rex;
  }

  /**
   For every x86_64 line and any two symbol tables: both passes give it the same length if and only if
   its displacement fits a byte under both or neither, and its `mov reg, imm` value 32 bits under both or neither.
   */
  lemma LineLengthExact(t: seq<Symbol>, s: seq<Symbol>, st: X86Line, here: bv32)
    requires ResolveX86(t, Collect, st).Some? && ResolveX86(s, Emit, st).Some?
    requires X86E.Encode(ResolveX86(t, Collect, st).value, here).Some?
    requires X86E.Encode(ResolveX86(s, Emit, st).value, here).Some?
    ensures var x, y := ResolveX86(t, Collect, st).value, ResolveX86(s, Emit, st).value;
            Twin(x, y) && (|X86E.Encode(x, here).value| == |X86E.Encode(y, here).value| <==> SameTests(x, y))
  {
    hide X86E.Encode, Twin, SameTests;
    ResolvedTwins(t, s, Collect, Emit, st);
    ResolvedZeroed(t, Collect, st);
    ResolvedZeroed(s, Emit, st);
    TwinLengths(ResolveX86(t, Collect, st).value, ResolveX86(s, Emit, st).value, here);
  }

  lemma ResolvedZeroed(syms: seq<Symbol>, p: PassNo, st: X86Line)
    requires ResolveX86(syms, p, st).Some?
    ensures ZeroedSt(ResolveX86(syms, p, st).value)
  {
    hide Eval;
  }
}
