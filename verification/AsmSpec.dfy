/** Source lines of `rivet-as`, after tokenizing, and what one pass over them does. */
module AsmSpec {
  import opened Basics
  import opened Words
  import opened Bits
  import X86 = X86Syntax
  import X86E = X86Encode
  import Rv = Rv32Syntax
  import RvE = Rv32Encode

  const MAX_PROG: nat := 0x10_0000
  const MAX_SYM: nat := 2048
  const NAME_CAP: nat := 63

  /** An immediate: a number or a symbol. */
  datatype Expr = Lit(value: bv64) | Sym(name: string)

  /** A signed summand of a displacement. */
  datatype Atom = Atom(negative: bool, expr: Expr)

  type X86Line = X86.Stmt<Expr, seq<Atom>>
  type RvLine = Rv.Source<Expr>

  datatype Arch = X86_64 | Riscv32

  datatype Width = W8 | W16 | W32 | W64

  /** The part of a line after its labels. An instruction carries what each backend makes of its tokens. */
  datatype Body =
    | Nothing
    | Org(to: Expr)
    | Data(width: Width, items: seq<Expr>)
    | Fill(count: Expr, value: Expr)
    | Text(bytes: seq<byte>)
    | Align(to: Expr)
    | P2Align(log: Expr)
    | Equ(name: string, expr: Expr)
    | SelectArch(arch: Arch)
    | Insn(x86: Option<X86Line>, rv: Option<RvLine>)

  datatype Line = Line(labels: seq<string>, body: Body)

  datatype Symbol = Symbol(name: string, addr: bv32)

  /** First pass collects symbols, second pass emits. */
  datatype PassNo = Collect | Emit

  // ---------- symbol table ----------

  function Stored(n: string): string {
    if |n| <= NAME_CAP then n else n[..NAME_CAP]
  }

  function Find(syms: seq<Symbol>, n: string): Option<bv32> {
    if syms == [] then None else if syms[0].name == n then Some(syms[0].addr) else Find(syms[1..], n)
  }

  /** Enter a symbol in the collecting pass; a name that is found already is an error. */
  function Define(syms: seq<Symbol>, n: string, v: bv32): Option<seq<Symbol>> {
    if Find(syms, n).Some? || |syms| >= MAX_SYM then None else Some(syms + [Symbol(Stored(n), v)])
  }

  // ---------- immediates ----------

  /** `(riv_i64)symtab[i].addr` */
  function Widen(a: bv32): bv64 {
    a as bv64
  }

  /** An unknown symbol counts as 0 in the collecting pass and is an error in the emitting pass. */
  function Eval(syms: seq<Symbol>, p: PassNo, e: Expr): Option<bv64> {
    match e
    case Lit(v) => Some(v)
    case Sym(n) =>
      var a := Find(syms, n);
      if a.Some? then Some(Widen(a.value)) else if p.Collect? then Some(0) else None
  }

  function EvalAll(syms: seq<Symbol>, p: PassNo, es: seq<Expr>): Option<seq<bv64>> {
    if es == [] then Some([])
    else
      var v := Eval(syms, p, es[0]);
      var rest := EvalAll(syms, p, es[1..]);
      if v.None? || rest.None? then None else Some([v.value] + rest.value)
  }

  /** `disp += (riv_i32)(v * sign)` */
  function Accumulate(sum: bv32, negative: bool, v: bv64): bv32 {
    if negative then Distance(Low32(v), sum) else Plus(sum, Low32(v))
  }

  function EvalAtoms(syms: seq<Symbol>, p: PassNo, atoms: seq<Atom>): Option<bv32> {
    if atoms == [] then Some(0)
    else
      var sum := EvalAtoms(syms, p, atoms[..|atoms| - 1]);
      var last := atoms[|atoms| - 1];
      var v := Eval(syms, p, last.expr);
      if sum.None? || v.None? then None
      else Some(Accumulate(sum.value, last.negative, v.value))
  }

  // ---------- instructions with symbols resolved ----------

  function ResolveMem(syms: seq<Symbol>, p: PassNo, m: X86.Mem<seq<Atom>>): Option<X86.Mem<X86.Disp>> {
    var d := EvalAtoms(syms, p, m.disp);
    if d.None? then None else Some(X86.Mem(m.base, m.index, m.scale, X86.Disp(m.disp != [], d.value)))
  }

  function ResolveArg(syms: seq<Symbol>, p: PassNo, a: X86.Arg<Expr, seq<Atom>>): Option<X86.Arg<bv64, X86.Disp>> {
    match a
    case R(r) => Some(X86.R(r))
    case M(m) => var r := ResolveMem(syms, p, m); if r.None? then None else Some(X86.M(r.value))
    case V(e) => var v := Eval(syms, p, e); if v.None? then None else Some(X86.V(v.value))
  }

  function ResolveX86(syms: seq<Symbol>, p: PassNo, st: X86Line): Option<X86.Concrete> {
    match st
    case Plain(z) => Some(X86.Plain(z))
    case Int(e) => var v := Eval(syms, p, e); if v.None? then None else Some(X86.Int(v.value))
    case Push(r) => Some(X86.Push(r))
    case Pop(r) => Some(X86.Pop(r))
    case Move(d, s) =>
      var d', s' := ResolveArg(syms, p, d), ResolveArg(syms, p, s);
      if d'.None? || s'.None? then None else Some(X86.Move(d'.value, s'.value))
    case Exchange(x, y) => Some(X86.Exchange(x, y))
    case Arith(op, d, s) =>
      var d', s' := ResolveArg(syms, p, d), ResolveArg(syms, p, s);
      if d'.None? || s'.None? then None else Some(X86.Arith(op, d'.value, s'.value))
    case LoadAddress(d, m) =>
      var r := ResolveMem(syms, p, m);
      if r.None? then None else Some(X86.LoadAddress(d, r.value))
    case Multiply(x, y) => Some(X86.Multiply(x, y))
    case Unary(op, r) => Some(X86.Unary(op, r))
    case Shift(op, r, e) => var v := Eval(syms, p, e); if v.None? then None else Some(X86.Shift(op, r, v.value))
    case Jump(e) => var v := Eval(syms, p, e); if v.None? then None else Some(X86.Jump(v.value))
    case Call(e) => var v := Eval(syms, p, e); if v.None? then None else Some(X86.Call(v.value))
    case JumpIf(cc, e) => var v := Eval(syms, p, e); if v.None? then None else Some(X86.JumpIf(cc, v.value))
    case In(o) =>
      if o.None? then Some(X86.In(None))
      else var v := Eval(syms, p, o.value); if v.None? then None else Some(X86.In(Some(v.value)))
    case Out(o) =>
      if o.None? then Some(X86.Out(None))
      else var v := Eval(syms, p, o.value); if v.None? then None else Some(X86.Out(Some(v.value)))
  }

  function ResolveRvStmt(syms: seq<Symbol>, p: PassNo, st: Rv.Stmt<Expr>): Option<Rv.Stmt<bv64>> {
    match st
    case OpR(op, rd, rs1, rs2) => Some(Rv.OpR(op, rd, rs1, rs2))
    case OpI(op, rd, rs1, e) => var v := Eval(syms, p, e); if v.None? then None else Some(Rv.OpI(op, rd, rs1, v.value))
    case Load(op, rd, e, rs1) =>
      var v := Eval(syms, p, e);
      if v.None? then None else Some(Rv.Load(op, rd, v.value, rs1))
    case Store(op, rs2, e, rs1) =>
      var v := Eval(syms, p, e);
      if v.None? then None else Some(Rv.Store(op, rs2, v.value, rs1))
    case Branch(op, rs1, rs2, e) =>
      var v := Eval(syms, p, e);
      if v.None? then None else Some(Rv.Branch(op, rs1, rs2, v.value))
    case Jal(rd, e) => var v := Eval(syms, p, e); if v.None? then None else Some(Rv.Jal(rd, v.value))
    case Jalr(rd, rs1, e) => var v := Eval(syms, p, e); if v.None? then None else Some(Rv.Jalr(rd, rs1, v.value))
    case Lui(rd, e) => var v := Eval(syms, p, e); if v.None? then None else Some(Rv.Lui(rd, v.value))
    case Auipc(rd, e) => var v := Eval(syms, p, e); if v.None? then None else Some(Rv.Auipc(rd, v.value))
    case Ecall => Some(Rv.Ecall)
    case Ebreak => Some(Rv.Ebreak)
    case Fence(a, b) => Some(Rv.Fence(a, b))
    case FenceI => Some(Rv.FenceI)
  }

  function ResolveRv(syms: seq<Symbol>, p: PassNo, src: RvLine): Option<Rv.Source<bv64>> {
    match src
    case Real(st) => var r := ResolveRvStmt(syms, p, st); if r.None? then None else Some(Rv.Real(r.value))
    case Nop => Some(Rv.Nop)
    case Mv(rd, rs) => Some(Rv.Mv(rd, rs))
    case Li(rd, e) => var v := Eval(syms, p, e); if v.None? then None else Some(Rv.Li(rd, v.value))
    case J(e) => var v := Eval(syms, p, e); if v.None? then None else Some(Rv.J(v.value))
    case Ret => Some(Rv.Ret)
  }

  // ---------- one line ----------

  /** Absolute address of an offset: `riv_as_pc + riv_as_base` modulo 2^32. */
  function Address(base: bv32, pc: nat): bv32
    requires pc <= MAX_PROG
  {
    Plus(pc as bv32, base)
  }

  function ItemBytes(w: Width, v: bv64): seq<byte> {
    match w
    case W8 => [Low8(v)]
    case W16 => Le16(Low16(v))
    case W32 => Le32(Low32(v))
    case W64 => Le64(v)
  }

  function DataBytes(w: Width, vs: seq<bv64>): seq<byte> {
    if vs == [] then [] else ItemBytes(w, vs[0]) + DataBytes(w, vs[1..])
  }

  /** How many zero bytes `while (pc & (a - 1))` emits before it stops or the program is too large. */
  function AlignPad(pc: nat, a: nat): (k: nat)
    requires pc <= MAX_PROG && a > 0
    ensures pc + k <= MAX_PROG + 1
    decreases MAX_PROG - pc
  {
    if And(pc, a - 1) == 0 then 0 else if pc == MAX_PROG then 1 else 1 + AlignPad(pc + 1, a)
  }

  /** The bytes a line emits from `pc` on, and where the location counter stands afterwards. */
  datatype Out = Out(bytes: seq<byte>, next: nat)

  function Plainly(pc: nat, bytes: seq<byte>): (r: Option<Out>)
    ensures r.Some? && r.value == Out(bytes, pc + |bytes|)
  {
    Some(Out(bytes, pc + |bytes|))
  }

  function OrgOut(pc: nat, to: nat): (r: Out)
    ensures r.next <= pc + |r.bytes|
  {
    if pc < to then Out(Repeat<byte>(to - pc, 0), to) else Out([], to)
  }

  /** `(riv_u32)v` */
  function Unsigned32(v: bv64): nat {
    Low32(v) as nat
  }

  /** `(riv_u32)v - base` */
  function OrgTarget(v: bv64, base: bv32): nat {
    Distance(base, Low32(v)) as nat
  }

  function AlignOut(pc: nat, a: nat): (r: Option<Out>)
    requires pc <= MAX_PROG
    ensures r.Some? && r.value.next == pc + |r.value.bytes|
  {
    Plainly(pc, Repeat<byte>(AlignPad(pc, if a < 1 then 1 else a), 0))
  }

  function InsnOut(syms: seq<Symbol>, p: PassNo, arch: Arch, base: bv32, pc: nat, b: Body): (r: Option<Out>)
    requires b.Insn? && pc <= MAX_PROG
    ensures r.Some? ==> r.value.next == pc + |r.value.bytes|
  {
    if arch.X86_64? then
      if b.x86.None? then None
      else
        var st := ResolveX86(syms, p, b.x86.value);
        if st.None? then None
        else
          var e := X86E.Encode(st.value, Address(base, pc));
          if e.None? then None else Plainly(pc, e.value)
    else
      if b.rv.None? then None
      else
        var st := ResolveRv(syms, p, b.rv.value);
        if st.None? then None else Plainly(pc, RvE.Encode(st.value, Address(base, pc)))
  }

  /** Only `.org` can move the counter back; going forward, it emits as far as it goes. */
  function BodyOut(syms: seq<Symbol>, p: PassNo, arch: Arch, base: bv32, pc: nat, b: Body): (r: Option<Out>)
    requires pc <= MAX_PROG
    ensures r.Some? ==> r.value.next <= pc + |r.value.bytes|
    ensures r.Some? && !b.Org? ==> r.value.next == pc + |r.value.bytes|
  {
    match b
    case Nothing => Plainly(pc, [])
    case Org(e) =>
      var v := Eval(syms, p, e);
      if v.None? then None else Some(OrgOut(pc, OrgTarget(v.value, base)))
    case Data(w, es) =>
      var vs := EvalAll(syms, p, es);
      if vs.None? then None else Plainly(pc, DataBytes(w, vs.value))
    case Fill(n, v) =>
      var n', v' := Eval(syms, p, n), Eval(syms, p, v);
      if n'.None? || v'.None? then None else Plainly(pc, Repeat(Unsigned32(n'.value), Low8(v'.value)))
    case Text(bytes) => Plainly(pc, bytes)
    case Align(e) =>
      var v := Eval(syms, p, e);
      if v.None? then None else AlignOut(pc, Unsigned32(v.value))
    case P2Align(e) =>
      var v := Eval(syms, p, e);
      if v.None? || Unsigned32(v.value) >= 32 then None else AlignOut(pc, Pow2(Unsigned32(v.value)))
    case Equ(_, _) => Plainly(pc, [])
    case SelectArch(_) => Plainly(pc, [])
    case Insn(_, _) => InsnOut(syms, p, arch, base, pc, b)
  }

  // ---------- a pass ----------

  /** What a pass carries along besides the buffer. */
  datatype Cursor = Cursor(pc: nat, maxPc: nat, syms: seq<Symbol>, arch: Arch)

  datatype Write = Write(at: nat, bytes: seq<byte>)

  function DefineAll(syms: seq<Symbol>, labels: seq<string>, v: bv32): Option<seq<Symbol>>
    decreases |labels|
  {
    if labels == [] then Some(syms)
    else
      var s := Define(syms, labels[0], v);
      if s.None? then None else DefineAll(s.value, labels[1..], v)
  }

  /** The symbol table after the labels of a line; the emitting pass leaves it alone. */
  function AfterLabels(syms: seq<Symbol>, p: PassNo, ln: Line, here: bv32): Option<seq<Symbol>> {
    if p.Collect? then DefineAll(syms, ln.labels, here) else Some(syms)
  }

  function AfterEqu(syms: seq<Symbol>, p: PassNo, b: Body): Option<seq<Symbol>> {
    if p.Collect? && b.Equ? then
      var v := Eval(syms, p, b.expr);
      if v.None? then None else Define(syms, b.name, Low32(v.value))
    else Some(syms)
  }

  function Process(p: PassNo, base: bv32, c: Cursor, ln: Line): (r: Option<(Cursor, Write)>)
    requires c.pc <= MAX_PROG
    ensures r.Some? ==> r.value.0.pc <= MAX_PROG && r.value.1.at + |r.value.1.bytes| <= MAX_PROG
  {
    var syms := AfterLabels(c.syms, p, ln, Address(base, c.pc));
    if syms.None? then None
    else
      var out := BodyOut(syms.value, p, c.arch, base, c.pc, ln.body);
      var syms' := AfterEqu(syms.value, p, ln.body);
      if out.None? || syms'.None? || c.pc + |out.value.bytes| > MAX_PROG then None
      else
        var arch := if ln.body.SelectArch? then ln.body.arch else c.arch;
        Some((Cursor(out.value.next, Max(c.maxPc, c.pc + |out.value.bytes|), syms'.value, arch),
              Write(c.pc, out.value.bytes)))
  }

  /** A whole pass: the final cursor, the writes made, and the counter before each line. */
  datatype Run = Run(end: Cursor, writes: seq<Write>, pcs: seq<nat>)

  function Pass(p: PassNo, base: bv32, c: Cursor, lines: seq<Line>): (r: Option<Run>)
    requires c.pc <= MAX_PROG
    ensures r.Some? ==> |r.value.writes| == |r.value.pcs| == |lines|
    decreases |lines|
  {
    if lines == [] then Some(Run(c, [], []))
    else
      var r := Process(p, base, c, lines[0]);
      if r.None? then None
      else
        var rest := Pass(p, base, r.value.0, lines[1..]);
        if rest.None? then None
        else Some(Run(rest.value.end, [r.value.1] + rest.value.writes, [c.pc] + rest.value.pcs))
  }

  /** Both passes, as `main` runs them: the second starts from the symbols and the backend the first left. */
  datatype Assembly = Assembly(collect: Run, emit: Run)

  function Assemble(base: bv32, arch: Arch, lines: seq<Line>): Option<Assembly> {
    var first := Pass(Collect, base, Cursor(0, 0, [], arch), lines);
    if first.None? then None
    else
      var second := Pass(Emit, base, first.value.end.(pc := 0), lines);
      if second.None? then None else Some(Assembly(first.value, second.value))
  }

  // ---------- the buffer ----------

  function Put(buf: seq<byte>, w: Write): (r: seq<byte>)
    requires w.at + |w.bytes| <= |buf|
    ensures |r| == |buf|
  {
    Splice(buf, w.at, w.bytes)
  }

  ghost predicate Fit(writes: seq<Write>, n: nat) {
    forall i | 0 <= i < |writes| :: writes[i].at + |writes[i].bytes| <= n
  }

  function Apply(buf: seq<byte>, writes: seq<Write>): (r: seq<byte>)
    requires Fit(writes, |buf|)
    ensures |r| == |buf|
    decreases |writes|
  {
    if writes == [] then buf else Apply(Put(buf, writes[0]), writes[1..])
  }
}
