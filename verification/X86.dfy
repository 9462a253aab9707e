/** The x86_64 subset of the assembler and disassembler: statements, listed instructions, operands. */
module X86Syntax {
  import opened Basics
  import opened Words

  /** Register number: rax rcx rdx rbx rsp rbp rsi rdi r8..r15. */
  type Reg = r: bv8 | r < 16

  /** Condition code of a conditional jump: o no b ae e ne be a s ns p np l ge le g. */
  type Cond = c: bv8 | c < 16

  /** A memory operand `[base + index*scale + disp]`; `D` is what stands for the displacement. */
  datatype Mem<D> = Mem(base: Option<Reg>, index: Option<Reg>, scale: bv8, disp: D)

  /** Displacement as parsed: present or not, and its 32-bit value. */
  datatype Disp = Disp(given: bool, value: bv32)

  datatype Zero = Nop | Hlt | Int3 | Ret | Cli | Sti | Leave | Iretq | Syscall | Sysret | Ud2

  /** Two-operand mnemonics with a ModR/M byte. */
  datatype Binary = Mov | Lea | Xchg | Add | Or | And | Sub | Xor | Cmp | Test

  datatype UnaryOp = Inc | Dec | Not | Neg | Mul | Div | Idiv

  datatype ShiftOp = Shl | Shr | Sar

  datatype Arg<I, D> = R(reg: Reg) | M(mem: Mem<D>) | V(imm: I)

  /** A source statement; `I` stands for immediates and targets, `D` for displacements. */
  datatype Stmt<I, D> =
    | Plain(zero: Zero)
    | Int(imm: I)
    | Push(reg: Reg)
    | Pop(reg: Reg)
    | Move(dst: Arg<I, D>, src: Arg<I, D>)
    | Exchange(x: Reg, y: Reg)
    | Arith(op: Binary, dst: Arg<I, D>, src: Arg<I, D>)
    | LoadAddress(to: Reg, mem: Mem<D>)
    | Multiply(x: Reg, y: Reg)
    | Unary(uop: UnaryOp, reg: Reg)
    | Shift(sop: ShiftOp, reg: Reg, imm: I)
    | Jump(target: I)
    | Call(target: I)
    | JumpIf(cc: Cond, target: I)
    | In(port: Option<I>)
    | Out(port: Option<I>)

  type Concrete = Stmt<bv64, Disp>

  /** An operand in the r/m position of a listed instruction. */
  datatype Operand = InReg(reg: Reg) | InMem(mem: Mem<Disp>) | RipRelative(disp: bv32)

  /** Groups of the ModR/M opcodes whose mnemonic is the digit in the reg field. */
  datatype Group = Grp81 | GrpC1 | GrpF7 | GrpFF

  /** The names in the disassembler's digit tables; `Unnamed` is its question mark. */
  datatype Mnemonic =
    | OfBinary(op: Binary) | OfUnary(uop: UnaryOp) | OfShift(sop: ShiftOp)
    | Adc | Sbb | Rol | Ror | Rcl | Rcr | ImulRm | CallRm | CallFar | JmpRm | JmpFar | PushRm | Unnamed

  /** What the disassembler lists. */
  datatype Insn =
    | LZero(zero: Zero)
    | LInt(imm8: byte)
    | LIn(imm8: byte) | LOut(imm8: byte) | LInDx | LOutDx
    | LCall(target: bv32) | LJmp(target: bv32) | LJcc(cc: Cond, target: bv32)
    | LPush(reg: Reg) | LPop(reg: Reg)
    | LMovImm64(reg: Reg, imm64: bv64)
    | LImul(to: Reg, from: Reg)
    | LStore(op: Binary, rm: Operand, reg: Reg)
    | LLoad(op: Binary, reg: Reg, rm: Operand)
    | LMovImm(rm: Operand, imm32: bv32)
    | LGroup32(name: Mnemonic, rm: Operand, imm32: bv32)
    | LGroup8(name: Mnemonic, rm: Operand, imm8: byte)
    | LGroup(name: Mnemonic, rm: Operand)
    | LByte(op8: byte)
    | LByte0F(op8: byte)
}

/** The encoder of `x86_64_as.c`: the bytes a statement with resolved operands emits. */
module X86Encode {
  import opened Basics
  import opened Words
  import opened X86Syntax

  function Rex(w: bv8, r: bv8, x: bv8, b: bv8): (s: seq<byte>)
    requires w < 2 && r < 2 && x < 2 && b < 2
    ensures |s| <= 1
  {
    if w != 0 || r != 0 || x != 0 || b != 0 then [0x40 | (w << 3) | (r << 2) | (x << 1) | b] else []
  }

  function ModRm(mod: bv8, reg: bv8, rm: bv8): byte {
    (mod << 6) | ((reg & 7) << 3) | (rm & 7)
  }

  function Hi(r: bv8): (b: bv8)
    ensures b < 2
  {
    (r >> 3) & 1
  }

  function HiOf(r: Option<Reg>): (b: bv8)
    ensures b < 2
  {
    if r.Some? then Hi(r.value) else 0
  }

  /** The displacement fits a signed byte. */
  predicate Fits8(d: bv32) {
    d < 0x80 || d >= 0xFFFF_FF80
  }

  function ScaleBits(scale: bv8): bv8 {
    if scale == 1 then 0 else if scale == 2 then 1 else if scale == 4 then 2 else 3
  }

  /** The mod field: [rbp] and [r13] without displacement take a zero byte. */
  function Mod(m: Mem<Disp>): (mod: bv8)
    ensures mod < 3
  {
    var forced := m.base.Some? && m.base.value & 7 == 5;
    if !m.disp.given && !forced then 0 else if Fits8(m.disp.value) then 1 else 2
  }

  predicate HasSib(m: Mem<Disp>) {
    m.index.Some? || (m.base.Some? && m.base.value & 7 == 4)
  }

  function Sib(m: Mem<Disp>): byte {
    (ScaleBits(m.scale) << 6)
    | ((if m.index.Some? then m.index.value & 7 else 4) << 3)
    | (if m.base.Some? then m.base.value & 7 else 5)
  }

  function DispBytes(mod: bv8, d: bv32): seq<byte> {
    if mod == 1 then [(d & 0xFF) as bv8] else if mod == 2 then Le32(d) else []
  }

  /** ModR/M, SIB and displacement of a memory operand. */
  function EmitMem(reg: bv8, m: Mem<Disp>): (s: seq<byte>)
    ensures 1 <= |s| <= 6
  {
    var mod := Mod(m);
    if HasSib(m) then
      [ModRm(mod, reg, 4), Sib(m)]
      + (if mod == 0 && m.base.None? then Le32(m.disp.value) else DispBytes(mod, m.disp.value))
    else
      [ModRm(mod, reg, if m.base.Some? then m.base.value else 7)] + DispBytes(mod, m.disp.value)
  }

  function RexForMem(reg: bv8, m: Mem<Disp>): seq<byte> {
    Rex(1, Hi(reg), HiOf(m.index), HiOf(m.base))
  }

  /** REX.W, opcode and a memory operand with `reg` in the reg field. */
  function MemForm(opcode: byte, reg: bv8, m: Mem<Disp>): (s: seq<byte>)
    ensures 2 <= |s| <= 8
  {
    RexForMem(reg, m) + [opcode] + EmitMem(reg, m)
  }

  /** REX.W, opcode and two registers: `rm` is the r/m field. */
  function RegForm(opcode: byte, reg: bv8, rm: bv8): (s: seq<byte>)
    ensures 2 <= |s| <= 3
  {
    Rex(1, Hi(reg), 0, Hi(rm)) + [opcode, ModRm(3, reg, rm)]
  }

  /** REX.W, opcode, a register with a digit in the reg field, and an immediate. */
  function DigitForm(opcode: byte, digit: bv8, r: Reg, imm: seq<byte>): (s: seq<byte>)
    ensures 2 <= |s| <= 3 + |imm|
  {
    Rex(1, 0, 0, Hi(r)) + [opcode, ModRm(3, digit, r)] + imm
  }

  function ZeroBytes(z: Zero): seq<byte> {
    match z
    case Nop => [0x90]
    case Hlt => [0xF4]
    case Int3 => [0xCC]
    case Ret => [0xC3]
    case Cli => [0xFA]
    case Sti => [0xFB]
    case Leave => [0xC9]
    case Iretq => [0x48, 0xCF]
    case Syscall => [0x0F, 0x05]
    case Sysret => [0x48, 0x0F, 0x07]
    case Ud2 => [0x0F, 0x0B]
  }

  predicate IsArith(op: Binary) {
    op.Add? || op.Or? || op.And? || op.Sub? || op.Xor? || op.Cmp? || op.Test?
  }

  /** Opcode of the form `op r/m, reg`. */
  function MrOpcode(op: Binary): byte {
    match op
    case Mov => 0x89
    case Xchg => 0x87
    case Lea => 0x8D
    case Add => 0x01
    case Or => 0x09
    case And => 0x21
    case Sub => 0x29
    case Xor => 0x31
    case Cmp => 0x39
    case Test => 0x85
  }

  /** Opcode of the form `op reg, r/m`; `test` has no such form and reuses the other one. */
  function RmOpcode(op: Binary): byte {
    match op
    case Mov => 0x8B
    case Xchg => 0x87
    case Lea => 0x8D
    case Add => 0x03
    case Or => 0x0B
    case And => 0x23
    case Sub => 0x2B
    case Xor => 0x33
    case Cmp => 0x3B
    case Test => 0x85
  }

  /** The digit of the `0x81` group, for the mnemonics that take an immediate. */
  function ArithDigit(op: Binary): Option<bv8> {
    match op
    case Add => Some(0)
    case Or => Some(1)
    case And => Some(4)
    case Sub => Some(5)
    case Xor => Some(6)
    case Cmp => Some(7)
    case _ => None
  }

  function UnaryGroup(op: UnaryOp): (Group, bv8) {
    match op
    case Inc => (GrpFF, 0)
    case Dec => (GrpFF, 1)
    case Not => (GrpF7, 2)
    case Neg => (GrpF7, 3)
    case Mul => (GrpF7, 4)
    case Div => (GrpF7, 6)
    case Idiv => (GrpF7, 7)
  }

  function ShiftDigit(op: ShiftOp): bv8 {
    match op
    case Shl => 4
    case Shr => 5
    case Sar => 7
  }

  /** The immediate of `mov reg, imm` fits a signed 32-bit field. */
  predicate Fits32(v: bv64) {
    v < 0x8000_0000 || v >= 0xFFFF_FFFF_8000_0000
  }

  /** `op dst, src` with a register or memory on each side; two memory operands are an error. */
  function EmitRmOrMr(op: Binary, dst: Arg<bv64, Disp>, src: Arg<bv64, Disp>): Option<seq<byte>> {
    match (dst, src)
    case (R(d), R(s)) => Some(RegForm(MrOpcode(op), s, d))
    case (R(d), M(m)) => Some(MemForm(RmOpcode(op), d, m))
    case (M(m), R(s)) => Some(MemForm(MrOpcode(op), s, m))
    case _ => None
  }

  /**
   The bytes of a statement placed at absolute address `here`; `None` where the assembler stops with
   an error. A branch offset is the low 32 bits of the distance from the next instruction.
   */
  function Encode(st: Concrete, here: bv32): Option<seq<byte>> {
    match st
    case Plain(z) => Some(ZeroBytes(z))
    case Int(v) => Some([0xCD, Low8(v)])
    case Push(r) => Some((if r >= 8 then [0x41] else []) + [0x50 + (r & 7)])
    case Pop(r) => Some((if r >= 8 then [0x41] else []) + [0x58 + (r & 7)])
    case Move(dst, src) =>
      if dst.M? && src.V? then Some(MemForm(0xC7, 0, dst.mem) + Le32(Low32(src.imm)))
      else if dst.R? && src.V? then
        if Fits32(src.imm) then Some(DigitForm(0xC7, 0, dst.reg, Le32(Low32(src.imm))))
        else Some(Rex(1, 0, 0, Hi(dst.reg)) + [0xB8 + (dst.reg & 7)] + Le64(src.imm))
      else EmitRmOrMr(Mov, dst, src)
    case Exchange(x, y) => Some(RegForm(0x87, y, x))
    case Arith(op, dst, src) =>
      if !IsArith(op) then None
      else if dst.R? && src.V? then
        var d := ArithDigit(op);
        if d.None? then None
        else Some(DigitForm(0x81, d.value, dst.reg, Le32(Low32(src.imm))))
      else EmitRmOrMr(op, dst, src)
    case LoadAddress(d, m) => Some(MemForm(0x8D, d, m))
    case Multiply(d, s) => Some(Rex(1, Hi(d), 0, Hi(s)) + [0x0F, 0xAF, ModRm(3, d, s)])
    case Unary(op, r) =>
      var (g, digit) := UnaryGroup(op);
      Some(DigitForm(if g.GrpFF? then 0xFF else 0xF7, digit, r, []))
    case Shift(op, r, v) => Some(DigitForm(0xC1, ShiftDigit(op), r, [Low8(v)]))
    case Jump(t) => Some([0xE9] + Le32(Distance(After(here, 5), Low32(t))))
    case Call(t) => Some([0xE8] + Le32(Distance(After(here, 5), Low32(t))))
    case JumpIf(cc, t) => Some([0x0F, 0x80 + cc] + Le32(Distance(After(here, 6), Low32(t))))
    case In(p) => if p.None? then Some([0xEC]) else Some([0xE4, Low8(p.value)])
    case Out(p) => if p.None? then Some([0xEE]) else Some([0xE6, Low8(p.value)])
  }
}

/** The decoder of `x86_64_disas.c`, as a function of the bytes that remain. */
module X86Decode {
  import opened Basics
  import opened Words
  import opened X86Syntax

  function ZeroOf(op: byte): Option<Zero> {
    if op == 0x90 then Some(Nop) else if op == 0xF4 then Some(Hlt) else if op == 0xCC then Some(Int3)
    else if op == 0xC3 then Some(Ret) else if op == 0xFA then Some(Cli) else if op == 0xFB then Some(Sti)
    else if op == 0xC9 then Some(Leave) else if op == 0xCF then Some(Iretq) else None
  }

  /** How an opcode with a ModR/M byte reads its operands. */
  datatype Form = StoreForm(op: Binary) | LoadForm(op: Binary) | MovImmForm | GroupForm(group: Group)

  function FormOf(op: byte): Option<Form> {
    if op == 0x89 then Some(StoreForm(Mov)) else if op == 0x8B then Some(LoadForm(Mov))
    else if op == 0x8D then Some(LoadForm(Lea)) else if op == 0x87 then Some(StoreForm(Xchg))
    else if op == 0x01 then Some(StoreForm(Add)) else if op == 0x03 then Some(LoadForm(Add))
    else if op == 0x29 then Some(StoreForm(Sub)) else if op == 0x2B then Some(LoadForm(Sub))
    else if op == 0x21 then Some(StoreForm(And)) else if op == 0x23 then Some(LoadForm(And))
    else if op == 0x09 then Some(StoreForm(Or)) else if op == 0x0B then Some(LoadForm(Or))
    else if op == 0x31 then Some(StoreForm(Xor)) else if op == 0x33 then Some(LoadForm(Xor))
    else if op == 0x39 then Some(StoreForm(Cmp)) else if op == 0x3B then Some(LoadForm(Cmp))
    else if op == 0x85 then Some(StoreForm(Test))
    else if op == 0x81 then Some(GroupForm(Grp81)) else if op == 0xC7 then Some(MovImmForm)
    else if op == 0xC1 then Some(GroupForm(GrpC1)) else if op == 0xF7 then Some(GroupForm(GrpF7))
    else if op == 0xFF then Some(GroupForm(GrpFF)) else None
  }

  /** The digit tables. */
  function MnemonicOf(g: Group, digit: bv8): Mnemonic {
    match g
    case Grp81 =>
      if digit == 0 then OfBinary(Add) else if digit == 1 then OfBinary(Or)
      else if digit == 2 then Adc else if digit == 3 then Sbb
      else if digit == 4 then OfBinary(And) else if digit == 5 then OfBinary(Sub)
      else if digit == 6 then OfBinary(Xor) else OfBinary(Cmp)
    case GrpC1 =>
      if digit == 0 then Rol else if digit == 1 then Ror else if digit == 2 then Rcl else if digit == 3 then Rcr
      else if digit == 4 then OfShift(Shl) else if digit == 5 then OfShift(Shr)
      else if digit == 6 then Unnamed else OfShift(Sar)
    case GrpF7 =>
      if digit == 0 then OfBinary(Test) else if digit == 1 then Unnamed
      else if digit == 2 then OfUnary(Not) else if digit == 3 then OfUnary(Neg)
      else if digit == 4 then OfUnary(Mul) else if digit == 5 then ImulRm
      else if digit == 6 then OfUnary(Div) else OfUnary(Idiv)
    case GrpFF =>
      if digit == 0 then OfUnary(Inc) else if digit == 1 then OfUnary(Dec)
      else if digit == 2 then CallRm else if digit == 3 then CallFar
      else if digit == 4 then JmpRm else if digit == 5 then JmpFar
      else if digit == 6 then PushRm else Unnamed
  }

  /** A register from its low three bits and its REX bit. */
  function RegOf(low: bv8, high: bv8): Reg
    requires low < 8 && high < 2
  {
    low | (high << 3)
  }

  /** The displacement that follows: none, one signed byte, or 32 bits. */
  function ReadDisp(s: seq<byte>, k: nat, mod: bv8): Option<(Disp, nat)> {
    if mod == 1 then
      if k + 1 > |s| then None else Some((Disp(true, SignExtend8(s[k])), k + 1))
    else if mod == 2 then
      if k + 4 > |s| then None else Some((Disp(true, Read32(s, k)), k + 4))
    else Some((Disp(false, 0), k))
  }

  /** The memory operand whose SIB byte or displacement starts at `k`. */
  function ReadMem(s: seq<byte>, k: nat, mod: bv8, rm: bv8, rex: bv8): Option<(Operand, nat)>
    requires rm < 8
  {
    var b := rex & 1;
    if rm == 4 then
      if k + 1 > |s| then None
      else
        var sib := s[k];
        var scale: bv8 := 1 << ((sib >> 6) & 3);
        var si := (sib >> 3) & 7;
        var index := if si != 4 then Some(RegOf(si, (rex >> 1) & 1)) else None;
        if sib & 7 == 5 && mod == 0 then
          if k + 5 > |s| then None
          else Some((InMem(Mem(None, index, scale, Disp(true, Read32(s, k + 1)))), k + 5))
        else
          var d := ReadDisp(s, k + 1, mod);
          if d.None? then None
          else Some((InMem(Mem(Some(RegOf(sib & 7, b)), index, scale, d.value.0)), d.value.1))
    else if rm == 5 && mod == 0 then
      if k + 4 > |s| then None else Some((RipRelative(Read32(s, k)), k + 4))
    else
      var d := ReadDisp(s, k, mod);
      if d.None? then None
      else Some((InMem(Mem(Some(RegOf(rm, b)), None, 1, d.value.0)), d.value.1))
  }

  /** The r/m operand whose ModR/M byte stands at `k`. */
  function ReadOperand(s: seq<byte>, k: nat, rex: bv8): Option<(Operand, nat)>
    requires k < |s|
  {
    var mod, rm := (s[k] >> 6) & 3, s[k] & 7;
    if mod == 3 then Some((InReg(RegOf(rm, rex & 1)), k + 1)) else ReadMem(s, k + 1, mod, rm, rex)
  }

  /** What is listed once the r/m operand has been read up to `n`. */
  function Finished(s: seq<byte>, n: nat, f: Form, digit: bv8, reg: Reg, rm: Operand): Option<(Insn, nat)> {
    match f
    case StoreForm(op) => Some((LStore(op, rm, reg), n))
    case LoadForm(op) => Some((LLoad(op, reg, rm), n))
    case MovImmForm =>
      if n + 4 > |s| then None else Some((LMovImm(rm, Read32(s, n)), n + 4))
    case GroupForm(g) =>
      if g.Grp81? then
        if n + 4 > |s| then None else Some((LGroup32(MnemonicOf(g, digit), rm, Read32(s, n)), n + 4))
      else if g.GrpC1? then
        if n + 1 > |s| then None else Some((LGroup8(MnemonicOf(g, digit), rm, s[n]), n + 1))
      else Some((LGroup(MnemonicOf(g, digit), rm), n))
  }

  function ReadForm(s: seq<byte>, k: nat, rex: bv8, f: Form): Option<(Insn, nat)> {
    if k >= |s| then None
    else
      var digit := (s[k] >> 3) & 7;
      var reg := RegOf(digit, (rex >> 2) & 1);
      var o := ReadOperand(s, k, rex);
      if o.None? then None
      else
        Finished(s, o.value.1, f, digit, reg, o.value.0)
  }

  /** Where a branch lands: `pc + idx + off` modulo 2^32, `idx` counting the bytes read so far. */
  function Target(pc: bv32, idx: nat, off: bv32): bv32
    requires idx < 16
  {
    Plus(off, After(pc, idx))
  }

  /** The two-byte opcodes, from the byte after `0x0F`. */
  function Read0F(pc: bv32, s: seq<byte>, k: nat, rex: bv8): Option<(Insn, nat)>
    requires k <= 2
  {
    if k >= |s| then None
    else
      var o2 := s[k];
      if o2 == 0x05 then Some((LZero(Syscall), k + 1))
      else if o2 == 0x07 then Some((LZero(Sysret), k + 1))
      else if o2 == 0x0B then Some((LZero(Ud2), k + 1))
      else if 0x80 <= o2 <= 0x8F then
        if k + 5 > |s| then None else Some((LJcc(o2 - 0x80, Target(pc, k + 5, Read32(s, k + 1))), k + 5))
      else if o2 == 0xAF then
        if k + 2 > |s| then None
        else Some((LImul(RegOf((s[k + 1] >> 3) & 7, (rex >> 2) & 1), RegOf(s[k + 1] & 7, rex & 1)), k + 2))
      else Some((LByte0F(o2), k + 1))
  }

  /** The instruction whose opcode `op` was read just before `k`. */
  function ReadOpcode(pc: bv32, s: seq<byte>, k: nat, rex: bv8, op: byte): Option<(Insn, nat)>
    requires k <= 2
  {
    var z := ZeroOf(op);
    if z.Some? then Some((LZero(z.value), k))
    else if op == 0xCD || op == 0xE4 || op == 0xE6 then
      if k + 1 > |s| then None
      else Some((if op == 0xCD then LInt(s[k]) else if op == 0xE4 then LIn(s[k]) else LOut(s[k]), k + 1))
    else if op == 0xE8 || op == 0xE9 then
      if k + 4 > |s| then None
      else
        var t := Target(pc, k + 4, Read32(s, k));
        Some((if op == 0xE8 then LCall(t) else LJmp(t), k + 4))
    else if op == 0xEC then Some((LInDx, k))
    else if op == 0xEE then Some((LOutDx, k))
    else if 0x50 <= op <= 0x57 then Some((LPush(RegOf(op - 0x50, rex & 1)), k))
    else if 0x58 <= op <= 0x5F then Some((LPop(RegOf(op - 0x58, rex & 1)), k))
    else if rex & 8 != 0 && 0xB8 <= op <= 0xBF then
      if k + 8 > |s| then None else Some((LMovImm64(RegOf(op - 0xB8, rex & 1), Read64(s, k)), k + 8))
    else if op == 0x0F then Read0F(pc, s, k, rex)
    else
      var f := FormOf(op);
      if f.None? then Some((LByte(op), k)) else ReadForm(s, k, rex, f.value)
  }

  /** One instruction at address `pc` and the number of bytes it takes; `None` when bytes are missing. */
  function Decode(pc: bv32, s: seq<byte>): Option<(Insn, nat)> {
    if |s| < 1 then None
    else if s[0] & 0xF0 == 0x40 then
      if |s| < 2 then None else ReadOpcode(pc, s, 2, s[0], s[1])
    else ReadOpcode(pc, s, 1, 0, s[0])
  }
}
