/** RV32I and M in the assembler and disassembler: statements, listed instructions, the ISA table. */
module Rv32Syntax {
  import opened Basics

  /** Register number x0..x31. */
  type Reg = r: bv32 | r < 32

  datatype RegOp =
    | Add | Sub | Sll | Slt | Sltu | Xor | Srl | Sra | Or | And
    | Mul | Mulh | Mulhsu | Mulhu | Div | Divu | Rem | Remu

  datatype ImmOp = Addi | Slti | Sltiu | Xori | Ori | Andi | Slli | Srli | Srai

  datatype LoadOp = Lb | Lh | Lw | Lbu | Lhu

  datatype StoreOp = Sb | Sh | Sw

  datatype BranchOp = Beq | Bne | Blt | Bge | Bltu | Bgeu

  /** A 4-bit set of the fence flags i, o, r, w. */
  type FenceSet = f: bv32 | f < 16

  /** An instruction of the ISA table; `I` stands for immediates and targets. */
  datatype Stmt<I> =
    | OpR(rop: RegOp, rd: Reg, rs1: Reg, rs2: Reg)
    | OpI(iop: ImmOp, rd: Reg, rs1: Reg, imm: I)
    | Load(lop: LoadOp, rd: Reg, imm: I, rs1: Reg)
    | Store(sop: StoreOp, rs2: Reg, imm: I, rs1: Reg)
    | Branch(bop: BranchOp, rs1: Reg, rs2: Reg, target: I)
    | Jal(rd: Reg, target: I)
    | Jalr(rd: Reg, rs1: Reg, imm: I)
    | Lui(rd: Reg, imm: I)
    | Auipc(rd: Reg, imm: I)
    | Ecall
    | Ebreak
    | Fence(pred: FenceSet, succ: FenceSet)
    | FenceI

  /** A source statement: an instruction or one of the pseudo-instructions. */
  datatype Source<I> =
    | Real(st: Stmt<I>)
    | Nop
    | Mv(rd: Reg, rs: Reg)
    | Li(rd: Reg, imm: I)
    | J(target: I)
    | Ret

  /** What the disassembler lists; a mnemonic it does not know is `None`. */
  datatype Insn =
    | LOpR(rop: Option<RegOp>, rd: Reg, rs1: Reg, rs2: Reg)
    | LOpI(iop: ImmOp, rd: Reg, rs1: Reg, imm: bv32)
    | LLoad(lop: Option<LoadOp>, rd: Reg, imm: bv32, rs1: Reg)
    | LStore(sop: Option<StoreOp>, rs2: Reg, imm: bv32, rs1: Reg)
    | LBranch(bop: Option<BranchOp>, rs1: Reg, rs2: Reg, target: bv32)
    | LJal(rd: Reg, target: bv32)
    | LJalr(rd: Reg, rs1: Reg, imm: bv32)
    | LLui(rd: Reg, upper: bv32)
    | LAuipc(rd: Reg, upper: bv32)
    | LEcall
    | LEbreak
    | LFence(pred: FenceSet, succ: FenceSet)
    | LFenceI
    | LWord(word: bv32)

  // Columns funct3 and funct7 of the ISA table.

  function RegFields(op: RegOp): (bv32, bv32) {
    match op
    case Add => (0, 0x00) case Sub => (0, 0x20) case Sll => (1, 0x00) case Slt => (2, 0x00)
    case Sltu => (3, 0x00) case Xor => (4, 0x00) case Srl => (5, 0x00) case Sra => (5, 0x20)
    case Or => (6, 0x00) case And => (7, 0x00)
    case Mul => (0, 0x01) case Mulh => (1, 0x01) case Mulhsu => (2, 0x01) case Mulhu => (3, 0x01)
    case Div => (4, 0x01) case Divu => (5, 0x01) case Rem => (6, 0x01) case Remu => (7, 0x01)
  }

  predicate IsShift(op: ImmOp) {
    op.Slli? || op.Srli? || op.Srai?
  }

  function ImmFields(op: ImmOp): (bv32, bv32) {
    match op
    case Addi => (0, 0) case Slti => (2, 0) case Sltiu => (3, 0) case Xori => (4, 0) case Ori => (6, 0)
    case Andi => (7, 0) case Slli => (1, 0x00) case Srli => (5, 0x00) case Srai => (5, 0x20)
  }

  function LoadField(op: LoadOp): bv32 {
    match op case Lb => 0 case Lh => 1 case Lw => 2 case Lbu => 4 case Lhu => 5
  }

  function StoreField(op: StoreOp): bv32 {
    match op case Sb => 0 case Sh => 1 case Sw => 2
  }

  function BranchField(op: BranchOp): bv32 {
    match op case Beq => 0 case Bne => 1 case Blt => 4 case Bge => 5 case Bltu => 6 case Bgeu => 7
  }
}

/** The encoders of `riscv32_as.c`. */
module Rv32Encode {
  import opened Words
  import opened Rv32Syntax

  function EncR(rd: bv32, f3: bv32, rs1: bv32, rs2: bv32, f7: bv32, op: bv32): bv32 {
    (f7 << 25) | (rs2 << 20) | (rs1 << 15) | (f3 << 12) | (rd << 7) | op
  }

  function EncI(rd: bv32, f3: bv32, rs1: bv32, imm: bv32, op: bv32): bv32 {
    ((imm & 0xFFF) << 20) | (rs1 << 15) | (f3 << 12) | (rd << 7) | op
  }

  function EncShift(rd: bv32, f3: bv32, rs1: bv32, shamt: bv32, f7: bv32, op: bv32): bv32 {
    (f7 << 25) | ((shamt & 0x1F) << 20) | (rs1 << 15) | (f3 << 12) | (rd << 7) | op
  }

  function EncS(rs2: bv32, f3: bv32, rs1: bv32, imm: bv32, op: bv32): bv32 {
    var i := imm & 0xFFF;
    ((i >> 5) << 25) | (rs2 << 20) | (rs1 << 15) | (f3 << 12) | ((i & 0x1F) << 7) | op
  }

  function EncB(rs1: bv32, rs2: bv32, f3: bv32, off: bv32, op: bv32): bv32 {
    var i := off & 0x1FFE;
    (((i >> 12) & 1) << 31) | (((i >> 5) & 0x3F) << 25) | (rs2 << 20) | (rs1 << 15) | (f3 << 12)
    | (((i >> 1) & 0xF) << 8) | (((i >> 11) & 1) << 7) | op
  }

  function EncU(rd: bv32, imm: bv32, op: bv32): bv32 {
    (imm & 0xFFFF_F000) | (rd << 7) | op
  }

  function EncJ(rd: bv32, off: bv32, op: bv32): bv32 {
    var i := off & 0x1F_FFFE;
    (((i >> 20) & 1) << 31) | (((i >> 1) & 0x3FF) << 21) | (((i >> 11) & 1) << 20) | (((i >> 12) & 0xFF) << 12)
    | (rd << 7) | op
  }

  /** Pseudo-instructions are rewritten to the canonical form first. */
  function Expand(src: Source<bv64>): Stmt<bv64> {
    match src
    case Real(st) => st
    case Nop => OpI(Addi, 0, 0, 0)
    case Mv(rd, rs) => OpI(Addi, rd, rs, 0)
    case Li(rd, v) => OpI(Addi, rd, 0, v)
    case J(t) => Jal(0, t)
    case Ret => Jalr(0, 1, 0)
  }

  /** The word of a statement placed at absolute address `here`. */
  function EncodeWord(st: Stmt<bv64>, here: bv32): bv32 {
    match st
    case OpR(op, rd, rs1, rs2) => EncR(rd, RegFields(op).0, rs1, rs2, RegFields(op).1, 0x33)
    case OpI(op, rd, rs1, v) =>
      if IsShift(op) then EncShift(rd, ImmFields(op).0, rs1, Low32(v), ImmFields(op).1, 0x13)
      else EncI(rd, ImmFields(op).0, rs1, Low32(v), 0x13)
    case Load(op, rd, v, rs1) => EncI(rd, LoadField(op), rs1, Low32(v), 0x03)
    case Store(op, rs2, v, rs1) => EncS(rs2, StoreField(op), rs1, Low32(v), 0x23)
    case Branch(op, rs1, rs2, t) => EncB(rs1, rs2, BranchField(op), Distance(here, Low32(t)), 0x63)
    case Jal(rd, t) => EncJ(rd, Distance(here, Low32(t)), 0x6F)
    case Jalr(rd, rs1, v) => EncI(rd, 0, rs1, Low32(v), 0x67)
    case Lui(rd, v) => EncU(rd, Low32(v) << 12, 0x37)
    case Auipc(rd, v) => EncU(rd, Low32(v) << 12, 0x17)
    case Ecall => 0x73
    case Ebreak => (1 << 20) | 0x73
    case Fence(p, s) => (p << 24) | (s << 20) | 0x0F
    case FenceI => (1 << 12) | 0x0F
  }

  function Encode(src: Source<bv64>, here: bv32): seq<byte> {
    Le32(EncodeWord(Expand(src), here))
  }
}

/** The decoder of `riscv32_disas.c`. */
module Rv32Decode {
  import opened Basics
  import opened Words
  import opened Rv32Syntax

  /** The low `bits` bits as a signed number, for the widths the decoder uses. */
  function Sext(v: bv32, signBit: bv32): bv32 {
    (v ^ signBit) - signBit
  }

  function FieldI(w: bv32): bv32 {
    w >> 20
  }

  function ImmI(w: bv32): bv32 {
    Sext(FieldI(w), 0x800)
  }

  function FieldS(w: bv32): bv32 {
    ((w >> 25) << 5) | ((w >> 7) & 0x1F)
  }

  function ImmS(w: bv32): bv32 {
    Sext(FieldS(w), 0x800)
  }

  function FieldB(w: bv32): bv32 {
    (((w >> 31) & 1) << 12) | (((w >> 7) & 1) << 11) | (((w >> 25) & 0x3F) << 5) | (((w >> 8) & 0xF) << 1)
  }

  function OffB(w: bv32): bv32 {
    Sext(FieldB(w), 0x1000)
  }

  function FieldJ(w: bv32): bv32 {
    (((w >> 31) & 1) << 20) | (((w >> 12) & 0xFF) << 12) | (((w >> 20) & 1) << 11) | (((w >> 21) & 0x3FF) << 1)
  }

  function OffJ(w: bv32): bv32 {
    Sext(FieldJ(w), 0x10_0000)
  }

  function RegOpOf(f3: bv32, f7: bv32): Option<RegOp> {
    if f7 == 0x00 then
      if f3 == 0 then Some(Add) else if f3 == 1 then Some(Sll) else if f3 == 2 then Some(Slt)
      else if f3 == 3 then Some(Sltu) else if f3 == 4 then Some(Xor) else if f3 == 5 then Some(Srl)
      else if f3 == 6 then Some(Or) else if f3 == 7 then Some(And) else None
    else if f7 == 0x20 then
      if f3 == 0 then Some(Sub) else if f3 == 5 then Some(Sra) else None
    else if f7 == 0x01 then
      if f3 == 0 then Some(Mul) else if f3 == 1 then Some(Mulh) else if f3 == 2 then Some(Mulhsu)
      else if f3 == 3 then Some(Mulhu) else if f3 == 4 then Some(Div) else if f3 == 5 then Some(Divu)
      else if f3 == 6 then Some(Rem) else if f3 == 7 then Some(Remu) else None
    else None
  }

  function ImmOpOf(f3: bv32, f7: bv32): ImmOp {
    if f3 == 0 then Addi else if f3 == 2 then Slti else if f3 == 3 then Sltiu else if f3 == 4 then Xori
    else if f3 == 6 then Ori else if f3 == 7 then Andi else if f3 == 1 then Slli
    else if f7 == 0x20 then Srai else Srli
  }

  function LoadOpOf(f3: bv32): Option<LoadOp> {
    if f3 == 0 then Some(Lb) else if f3 == 1 then Some(Lh) else if f3 == 2 then Some(Lw)
    else if f3 == 4 then Some(Lbu) else if f3 == 5 then Some(Lhu) else None
  }

  function StoreOpOf(f3: bv32): Option<StoreOp> {
    if f3 == 0 then Some(Sb) else if f3 == 1 then Some(Sh) else if f3 == 2 then Some(Sw) else None
  }

  function BranchOpOf(f3: bv32): Option<BranchOp> {
    if f3 == 0 then Some(Beq) else if f3 == 1 then Some(Bne) else if f3 == 4 then Some(Blt)
    else if f3 == 5 then Some(Bge) else if f3 == 6 then Some(Bltu) else if f3 == 7 then Some(Bgeu) else None
  }

  function Op(w: bv32): bv32 { w & 0x7F }
  function Upper(w: bv32): bv32 { w >> 12 }
  function Top(w: bv32): bv32 { w >> 20 }
  function Pred(w: bv32): FenceSet { (w >> 24) & 0xF }
  function Succ(w: bv32): FenceSet { (w >> 20) & 0xF }
  function Rd(w: bv32): Reg { (w >> 7) & 0x1F }
  function F3(w: bv32): bv32 { (w >> 12) & 0x7 }
  function Rs1(w: bv32): Reg { (w >> 15) & 0x1F }
  function Rs2(w: bv32): Reg { (w >> 20) & 0x1F }
  function F7(w: bv32): bv32 { (w >> 25) & 0x7F }

  function DecodeWord(pc: bv32, w: bv32): Insn {
    var op := Op(w);
    if op == 0x33 then LOpR(RegOpOf(F3(w), F7(w)), Rd(w), Rs1(w), Rs2(w))
    else if op == 0x13 then
      var m := ImmOpOf(F3(w), F7(w));
      LOpI(m, Rd(w), Rs1(w), if IsShift(m) then ImmI(w) & 0x1F else ImmI(w))
    else if op == 0x03 then LLoad(LoadOpOf(F3(w)), Rd(w), ImmI(w), Rs1(w))
    else if op == 0x23 then LStore(StoreOpOf(F3(w)), Rs2(w), ImmS(w), Rs1(w))
    else if op == 0x63 then LBranch(BranchOpOf(F3(w)), Rs1(w), Rs2(w), Plus(OffB(w), pc))
    else if op == 0x6F then LJal(Rd(w), Plus(OffJ(w), pc))
    else if op == 0x67 then LJalr(Rd(w), Rs1(w), ImmI(w))
    else if op == 0x37 then LLui(Rd(w), Upper(w))
    else if op == 0x17 then LAuipc(Rd(w), Upper(w))
    else if op == 0x73 then if Top(w) != 0 then LEbreak else LEcall
    else if op == 0x0F then
      if F3(w) == 1 then LFenceI else LFence(Pred(w), Succ(w))
    else LWord(w)
  }

  /** One instruction at address `pc`; `None` when fewer than four bytes remain. */
  function Decode(pc: bv32, s: seq<byte>): Option<(Insn, nat)> {
    if |s| < 4 then None else Some((DecodeWord(pc, Read32(s, 0)), 4))
  }
}

/** Decoding an encoded word recovers the mnemonic and every operand. */
module Rv32RoundTrip {
  import opened Basics
  import opened Words
  import opened Rv32Syntax
  import opened Rv32Encode
  import opened Rv32Decode

  /** The 12-bit signed immediate that a 12-bit field keeps of a value. */
  function Kept12(v: bv32): bv32 {
    Sext(v & 0xFFF, 0x800)
  }

  /** The even 13-bit signed offset that a branch keeps of a distance. */
  function Kept13(v: bv32): bv32 {
    Sext(v & 0x1FFE, 0x1000)
  }

  /** The even 21-bit signed offset that a jump keeps of a distance. */
  function Kept21(v: bv32): bv32 {
    Sext(v & 0x1F_FFFE, 0x10_0000)
  }

  lemma RegWord(rd: Reg, f3: bv32, rs1: Reg, rs2: Reg, f7: bv32)
    requires f3 < 8 && f7 < 128
    ensures var w := EncR(rd, f3, rs1, rs2, f7, 0x33);
            Op(w) == 0x33 && Rd(w) == rd && F3(w) == f3 && Rs1(w) == rs1 && Rs2(w) == rs2 && F7(w) == f7
  {
  }

  lemma ImmWord(rd: Reg, f3: bv32, rs1: Reg, imm: bv32, op: bv32)
    requires f3 < 8 && op < 128
    ensures var w := EncI(rd, f3, rs1, imm, op);
            Op(w) == op && Rd(w) == rd && F3(w) == f3 && Rs1(w) == rs1 && FieldI(w) == imm & 0xFFF
  {
  }

  lemma ShiftWord(rd: Reg, f3: bv32, rs1: Reg, shamt: bv32, f7: bv32)
    requires f3 < 8 && f7 < 128
    ensures var w := EncShift(rd, f3, rs1, shamt, f7, 0x13);
            && Op(w) == 0x13 && Rd(w) == rd && F3(w) == f3 && Rs1(w) == rs1 && F7(w) == f7
            && ImmI(w) & 0x1F == shamt & 0x1F
  {
  }

  lemma StoreWord(rs2: Reg, f3: bv32, rs1: Reg, imm: bv32)
    requires f3 < 8
    ensures var w := EncS(rs2, f3, rs1, imm, 0x23);
            && Op(w) == 0x23 && Rs2(w) == rs2 && F3(w) == f3 && Rs1(w) == rs1
            && FieldS(w) == imm & 0xFFF
  {
  }

  lemma BranchWord(rs1: Reg, rs2: Reg, f3: bv32, off: bv32)
    requires f3 < 8
    ensures var w := EncB(rs1, rs2, f3, off, 0x63);
            && Op(w) == 0x63 && Rs2(w) == rs2 && F3(w) == f3 && Rs1(w) == rs1
            && FieldB(w) == off & 0x1FFE
  {
  }

  lemma JumpWord(rd: Reg, off: bv32)
    ensures var w := EncJ(rd, off, 0x6F);
            && Op(w) == 0x6F && Rd(w) == rd
            && FieldJ(w) == off & 0x1F_FFFE
  {
  }

  lemma UpperWord(rd: Reg, v: bv32, op: bv32)
    requires op < 128
    ensures var w := EncU(rd, v << 12, op); Op(w) == op && Rd(w) == rd && Upper(w) == v & 0xF_FFFF
  {
  }

  /** The listing of a statement placed at `here`. */
  function Listed(st: Stmt<bv64>, here: bv32): Insn {
    match st
    case OpR(op, rd, rs1, rs2) => LOpR(Some(op), rd, rs1, rs2)
    case OpI(op, rd, rs1, v) => LOpI(op, rd, rs1, if IsShift(op) then Low32(v) & 0x1F else Kept12(Low32(v)))
    case Load(op, rd, v, rs1) => LLoad(Some(op), rd, Kept12(Low32(v)), rs1)
    case Store(op, rs2, v, rs1) => LStore(Some(op), rs2, Kept12(Low32(v)), rs1)
    case Branch(op, rs1, rs2, t) => LBranch(Some(op), rs1, rs2, Plus(Kept13(Distance(here, Low32(t))), here))
    case Jal(rd, t) => LJal(rd, Plus(Kept21(Distance(here, Low32(t))), here))
    case Jalr(rd, rs1, v) => LJalr(rd, rs1, Kept12(Low32(v)))
    case Lui(rd, v) => LLui(rd, Low32(v) & 0xF_FFFF)
    case Auipc(rd, v) => LAuipc(rd, Low32(v) & 0xF_FFFF)
    case Ecall => LEcall
    case Ebreak => LEbreak
    case Fence(p, s) => LFence(p, s)
    case FenceI => LFenceI
  }

  lemma RegNames(op: RegOp)
    ensures RegFields(op).0 < 8 && RegFields(op).1 < 128 && RegOpOf(RegFields(op).0, RegFields(op).1) == Some(op)
  {
  }

  lemma ImmNames(op: ImmOp)
    ensures ImmFields(op).0 < 8 && ImmFields(op).1 < 128
    ensures IsShift(op) ==> ImmOpOf(ImmFields(op).0, ImmFields(op).1) == op
    ensures !IsShift(op) ==> forall f7 :: ImmOpOf(ImmFields(op).0, f7) == op
  {
  }

  lemma OtherNames(l: LoadOp, s: StoreOp, b: BranchOp)
    ensures LoadField(l) < 8 && LoadOpOf(LoadField(l)) == Some(l)
    ensures StoreField(s) < 8 && StoreOpOf(StoreField(s)) == Some(s)
    ensures BranchField(b) < 8 && BranchOpOf(BranchField(b)) == Some(b)
  {
  }

  /** The disassembler names a register operation exactly by the fields the assembler writes for it. */
  lemma RegNamesExact(f3: bv32, f7: bv32, op: RegOp)
    requires f3 < 8 && f7 < 128
    ensures RegOpOf(f3, f7) == Some(op) <==> RegFields(op) == (f3, f7)
  {
  }

  /** Likewise the loads, stores and branches. */
  lemma OtherNamesExact(f3: bv32, l: LoadOp, s: StoreOp, b: BranchOp)
    requires f3 < 8
    ensures LoadOpOf(f3) == Some(l) <==> LoadField(l) == f3
    ensures StoreOpOf(f3) == Some(s) <==> StoreField(s) == f3
    ensures BranchOpOf(f3) == Some(b) <==> BranchField(b) == f3
  {
  }

  lemma ArithWordRoundTrip(st: Stmt<bv64>, here: bv32)
    requires st.OpR? || st.OpI?
    ensures DecodeWord(here, EncodeWord(st, here)) == Listed(st, here)
  {
    hide DecodeWord, EncR, EncI, EncShift, FieldI, RegOpOf, ImmOpOf, RegFields, ImmFields, Op, Rd, F3, Rs1, Rs2, F7,
         Low32, Sext;
    DecodeArith(here, EncodeWord(st, here));
    match st
    case OpR(op, rd, rs1, rs2) =>
      RegNames(op);
      RegWord(rd, RegFields(op).0, rs1, rs2, RegFields(op).1);
    case OpI(op, rd, rs1, v) =>
      ImmNames(op);
      if IsShift(op) {
        ShiftWord(rd, ImmFields(op).0, rs1, Low32(v), ImmFields(op).1);
      } else {
        ImmWord(rd, ImmFields(op).0, rs1, Low32(v), 0x13);
      }
  }

  lemma MemoryWordRoundTrip(st: Stmt<bv64>, here: bv32)
    requires st.Load? || st.Store? || st.Jalr?
    ensures DecodeWord(here, EncodeWord(st, here)) == Listed(st, here)
  {
    hide DecodeWord, EncI, EncS, FieldI, FieldS, LoadOpOf, StoreOpOf, LoadField, StoreField, Plus, OffB, OffJ, Op,
         Rd, F3, Rs1, Rs2, F7, Low32, Sext;
    DecodeMemory(here, EncodeWord(st, here));
    match st
    case Load(op, rd, v, rs1) =>
      OtherNames(op, Sb, Beq);
      ImmWord(rd, LoadField(op), rs1, Low32(v), 0x03);
    case Store(op, rs2, v, rs1) =>
      OtherNames(Lb, op, Beq);
      StoreWord(rs2, StoreField(op), rs1, Low32(v));
    case Jalr(rd, rs1, v) =>
      ImmWord(rd, 0, rs1, Low32(v), 0x67);
  }

  lemma JumpWordRoundTrip(st: Stmt<bv64>, here: bv32)
    requires st.Branch? || st.Jal?
    ensures DecodeWord(here, EncodeWord(st, here)) == Listed(st, here)
  {
    hide DecodeWord, EncB, EncJ, FieldB, FieldJ, BranchOpOf, BranchField, Plus, Distance, ImmI, ImmS, Op, Rd, F3,
         Rs1, Rs2, F7, Low32, Sext;
    DecodeMemory(here, EncodeWord(st, here));
    match st
    case Branch(op, rs1, rs2, t) =>
      OtherNames(Lb, Sb, op);
      BranchWord(rs1, rs2, BranchField(op), Distance(here, Low32(t)));
    case Jal(rd, t) =>
      JumpWord(rd, Distance(here, Low32(t)));
  }

  lemma FenceWord(p: FenceSet, q: FenceSet)
    ensures var w: bv32 := (p << 24) | (q << 20) | 0x0F;
            Op(w) == 0x0F && F3(w) == 0 && Pred(w) == p && Succ(w) == q
  {
  }

  lemma SystemWords()
    ensures Op(0x73) == 0x73 && Top(0x73) == 0
    ensures var w: bv32 := (1 << 20) | 0x73; Op(w) == 0x73 && Top(w) != 0
    ensures var w: bv32 := (1 << 12) | 0x0F; Op(w) == 0x0F && F3(w) == 1
  {
  }

  lemma DecodeArith(pc: bv32, w: bv32)
    ensures Op(w) == 0x33 ==> DecodeWord(pc, w) == LOpR(RegOpOf(F3(w), F7(w)), Rd(w), Rs1(w), Rs2(w))
    ensures Op(w) == 0x13 ==>
              var m := ImmOpOf(F3(w), F7(w));
              DecodeWord(pc, w) == LOpI(m, Rd(w), Rs1(w), if IsShift(m) then ImmI(w) & 0x1F else ImmI(w))
  {
    hide Plus, Op, Rd, F3, Rs1, Rs2, F7, ImmI, ImmS, OffB, OffJ, RegOpOf, ImmOpOf;
  }

  lemma DecodeMemory(pc: bv32, w: bv32)
    ensures Op(w) == 0x03 ==> DecodeWord(pc, w) == LLoad(LoadOpOf(F3(w)), Rd(w), ImmI(w), Rs1(w))
    ensures Op(w) == 0x23 ==> DecodeWord(pc, w) == LStore(StoreOpOf(F3(w)), Rs2(w), ImmS(w), Rs1(w))
    ensures Op(w) == 0x67 ==> DecodeWord(pc, w) == LJalr(Rd(w), Rs1(w), ImmI(w))
    ensures Op(w) == 0x63 ==> DecodeWord(pc, w) == LBranch(BranchOpOf(F3(w)), Rs1(w), Rs2(w), Plus(OffB(w), pc))
    ensures Op(w) == 0x6F ==> DecodeWord(pc, w) == LJal(Rd(w), Plus(OffJ(w), pc))
  {
    hide Plus, Op, Rd, F3, Rs1, Rs2, F7, ImmI, ImmS, OffB, OffJ, LoadOpOf, StoreOpOf, BranchOpOf;
  }

  lemma DecodeUpper(pc: bv32, w: bv32)
    ensures Op(w) == 0x37 ==> DecodeWord(pc, w) == LLui(Rd(w), Upper(w))
    ensures Op(w) == 0x17 ==> DecodeWord(pc, w) == LAuipc(Rd(w), Upper(w))
    ensures Op(w) == 0x73 ==> DecodeWord(pc, w) == if Top(w) != 0 then LEbreak else LEcall
    ensures Op(w) == 0x0F ==> DecodeWord(pc, w) == if F3(w) == 1 then LFenceI else LFence(Pred(w), Succ(w))
  {
    hide Plus, Op, Upper, Top, Pred, Succ, Rd, F3, Rs1, Rs2, F7, ImmI, ImmS, OffB, OffJ;
  }

  lemma UpperWordRoundTrip(st: Stmt<bv64>, here: bv32)
    requires st.Lui? || st.Auipc?
    ensures DecodeWord(here, EncodeWord(st, here)) == Listed(st, here)
  {
    hide DecodeWord, EncU, Low32, Op, Upper, Rd, Top, Pred, Succ, F3;
    DecodeUpper(here, EncodeWord(st, here));
    UpperWord(st.rd, Low32(st.imm), if st.Lui? then 0x37 else 0x17);
  }

  lemma SystemWordRoundTrip(st: Stmt<bv64>, here: bv32)
    requires st.Ecall? || st.Ebreak? || st.Fence? || st.FenceI?
    ensures DecodeWord(here, EncodeWord(st, here)) == Listed(st, here)
  {
    hide DecodeWord, Op, Upper, Rd, Top, Pred, Succ, F3;
    DecodeUpper(here, EncodeWord(st, here));
    SystemWords();
    if st.Fence? {
      FenceWord(st.pred, st.succ);
    }
  }

  /** For every statement, decoding at its own address recovers the mnemonic and all operands. */
  lemma WordRoundTrip(st: Stmt<bv64>, here: bv32)
    ensures DecodeWord(here, EncodeWord(st, here)) == Listed(st, here)
  {
    hide DecodeWord, EncodeWord, Listed;
    if st.OpR? || st.OpI? {
      ArithWordRoundTrip(st, here);
    } else if st.Load? || st.Store? || st.Jalr? {
      MemoryWordRoundTrip(st, here);
    } else if st.Branch? || st.Jal? {
      JumpWordRoundTrip(st, here);
    } else if st.Lui? || st.Auipc? {
      UpperWordRoundTrip(st, here);
    } else {
      SystemWordRoundTrip(st, here);
    }
  }

  /** The listing of a source line: pseudo-instructions come back as what they stand for. */
  function ListedSource(src: Source<bv64>, here: bv32): Insn {
    match src
    case Real(st) => Listed(st, here)
    case Nop => LOpI(Addi, 0, 0, 0)
    case Mv(rd, rs) => LOpI(Addi, rd, rs, 0)
    case Li(rd, v) => LOpI(Addi, rd, 0, Kept12(Low32(v)))
    case J(t) => LJal(0, Plus(Kept21(Distance(here, Low32(t))), here))
    case Ret => LJalr(0, 1, 0)
  }

  lemma KeepsZero()
    ensures Kept12(Low32(0)) == 0
  {
    assert Low32(0) == 0;
    Sext12(0);
  }

  lemma PseudoListed(src: Source<bv64>, here: bv32)
    ensures Listed(Expand(src), here) == ListedSource(src, here)
  {
    hide Kept12, Kept21, Low32, Plus, Distance;
    KeepsZero();
  }

  /** Every source line, pseudo-instructions included, reads back from its four bytes whatever follows. */
  lemma StatementRoundTrip(pc: bv32, s: seq<byte>, src: Source<bv64>)
    requires At(s, 0, Encode(src, pc))
    ensures Decode(pc, s) == Some((ListedSource(src, pc), 4))
  {
    hide DecodeWord, EncodeWord, Listed, ListedSource, Expand;
    Read32At(s, 0, EncodeWord(Expand(src), pc));
    WordRoundTrip(Expand(src), pc);
    PseudoListed(src, pc);
  }

  // ---------- what the immediate fields keep ----------

  /** In -2048..2047: the bits from 11 up agree. */
  predicate Signed12(v: bv32) {
    v & 0xFFFF_F800 == 0 || v & 0xFFFF_F800 == 0xFFFF_F800
  }

  lemma Signed12Range(v: bv32)
    ensures Signed12(v) <==> v < 0x800 || v >= 0xFFFF_F800
  {
  }

  lemma Sext12(v: bv32)
    ensures v & 0x800 == 0 ==> Kept12(v) == v & 0xFFF
    ensures v & 0x800 != 0 ==> Kept12(v) == (v & 0xFFF) | 0xFFFF_F000
  {
    var x := v & 0xFFF;
    if v & 0x800 == 0 {
      assert x & 0xFFFF_F800 == 0;
    } else {
      assert x & 0xFFFF_F800 == 0x800;
    }
  }

  lemma Kept12Fits(v: bv32)
    ensures Signed12(Kept12(v)) && Kept12(v) & 0xFFF == v & 0xFFF
  {
    hide Kept12;
    Sext12(v);
  }

  lemma Kept12Only(v: bv32, k: bv32)
    requires Signed12(k) && k & 0xFFF == v & 0xFFF
    ensures k == Kept12(v)
  {
    hide Kept12;
    Sext12(v);
  }

  /** The field keeps the unique 12-bit signed value congruent to `v` modulo 2^12. */
  lemma Kept12Unique(v: bv32, k: bv32)
    ensures k == Kept12(v) <==> (k < 0x800 || k >= 0xFFFF_F800) && k & 0xFFF == v & 0xFFF
  {
    hide Kept12, Signed12;
    Signed12Range(k);
    Kept12Fits(v);
    if Signed12(k) && k & 0xFFF == v & 0xFFF {
      Kept12Only(v, k);
    }
  }

  /** Even and in -4096..4094. */
  predicate Branchable(v: bv32) {
    v & 0xFFFF_F001 == 0 || v & 0xFFFF_F001 == 0xFFFF_F000
  }

  lemma BranchableRange(v: bv32)
    ensures Branchable(v) <==> v & 1 == 0 && (v < 0x1000 || v >= 0xFFFF_F000)
  {
  }

  lemma Sext13(v: bv32)
    ensures v & 0x1000 == 0 ==> Kept13(v) == v & 0x1FFE
    ensures v & 0x1000 != 0 ==> Kept13(v) == (v & 0x1FFE) | 0xFFFF_E000
  {
    var x := v & 0x1FFE;
    if v & 0x1000 == 0 {
      assert x & 0xFFFF_F000 == 0;
    } else {
      assert x & 0xFFFF_F000 == 0x1000;
    }
  }

  lemma Kept13Fits(v: bv32)
    ensures Branchable(Kept13(v)) && Kept13(v) & 0x1FFE == v & 0x1FFE
  {
    hide Kept13;
    Sext13(v);
  }

  lemma Kept13Only(v: bv32, k: bv32)
    requires Branchable(k) && k & 0x1FFE == v & 0x1FFE
    ensures k == Kept13(v)
  {
    hide Kept13;
    Sext13(v);
  }

  /** The branch keeps the unique even in-range offset congruent, with bit 0 cleared, modulo 2^13. */
  lemma Kept13Unique(v: bv32, k: bv32)
    ensures k == Kept13(v) <==> Branchable(k) && k & 0x1FFE == v & 0x1FFE
    ensures Branchable(k) <==> k & 1 == 0 && (k < 0x1000 || k >= 0xFFFF_F000)
  {
    hide Kept13, Branchable;
    BranchableRange(k);
    Kept13Fits(v);
    if Branchable(k) && k & 0x1FFE == v & 0x1FFE {
      Kept13Only(v, k);
    }
  }

  /** Even and in -2^20..2^20-2. */
  predicate Jumpable(v: bv32) {
    v & 0xFFF0_0001 == 0 || v & 0xFFF0_0001 == 0xFFF0_0000
  }

  lemma JumpableRange(v: bv32)
    ensures Jumpable(v) <==> v & 1 == 0 && (v < 0x10_0000 || v >= 0xFFF0_0000)
  {
  }

  lemma Sext21(v: bv32)
    ensures v & 0x10_0000 == 0 ==> Kept21(v) == v & 0x1F_FFFE
    ensures v & 0x10_0000 != 0 ==> Kept21(v) == (v & 0x1F_FFFE) | 0xFFE0_0000
  {
    var x := v & 0x1F_FFFE;
    if v & 0x10_0000 == 0 {
      assert x & 0xFFF0_0000 == 0;
    } else {
      assert x & 0xFFF0_0000 == 0x10_0000;
    }
  }

  lemma Kept21Fits(v: bv32)
    ensures Jumpable(Kept21(v)) && Kept21(v) & 0x1F_FFFE == v & 0x1F_FFFE
  {
    hide Kept21;
    Sext21(v);
  }

  lemma Kept21Only(v: bv32, k: bv32)
    requires Jumpable(k) && k & 0x1F_FFFE == v & 0x1F_FFFE
    ensures k == Kept21(v)
  {
    hide Kept21, Jumpable;
    Sext21(v);
    if v & 0x10_0000 == 0 {
      ForwardJump(v, k);
    } else {
      BackwardJump(v, k);
    }
  }

  lemma ForwardJump(v: bv32, k: bv32)
    requires Jumpable(k) && k & 0x1F_FFFE == v & 0x1F_FFFE && v & 0x10_0000 == 0
    ensures k == v & 0x1F_FFFE
  {
    assert k & 0x10_0000 == 0;
    assert k & 0xFFF0_0001 == 0;
  }

  lemma BackwardJump(v: bv32, k: bv32)
    requires Jumpable(k) && k & 0x1F_FFFE == v & 0x1F_FFFE && v & 0x10_0000 != 0
    ensures k == (v & 0x1F_FFFE) | 0xFFE0_0000
  {
    assert k & 0x10_0000 != 0;
    assert k & 0xFFF0_0001 == 0xFFF0_0000;
  }

  /** The jump keeps the unique even in-range offset congruent, with bit 0 cleared, modulo 2^21. */
  lemma Kept21Unique(v: bv32, k: bv32)
    ensures k == Kept21(v) <==> Jumpable(k) && k & 0x1F_FFFE == v & 0x1F_FFFE
    ensures Jumpable(k) <==> k & 1 == 0 && (k < 0x10_0000 || k >= 0xFFF0_0000)
  {
    hide Kept21, Jumpable;
    JumpableRange(k);
    Kept21Fits(v);
    if Jumpable(k) && k & 0x1F_FFFE == v & 0x1F_FFFE {
      Kept21Only(v, k);
    }
  }

  lemma PlusInjective(a: bv32, b: bv32, h: bv32)
    requires Plus(a, h) == Plus(b, h)
    ensures a == b
  {
    hide Plus, Distance;
    DistanceBack(a, h);
    DistanceBack(b, h);
  }

  /** A branch is listed with its own target exactly when the distance fits its offset field. */
  lemma BranchTargetExact(here: bv32, target: bv32)
    ensures Plus(Kept13(Distance(here, target)), here) == target <==> Branchable(Distance(here, target))
    ensures Plus(Kept21(Distance(here, target)), here) == target <==> Jumpable(Distance(here, target))
  {
    hide Plus, Distance, Sext, Branchable, Jumpable;
    var d := Distance(here, target);
    DistanceLeads(here, target);
    Kept13Unique(d, d);
    Kept21Unique(d, d);
    if Plus(Kept13(d), here) == target {
      PlusInjective(Kept13(d), d, here);
    }
    if Plus(Kept21(d), here) == target {
      PlusInjective(Kept21(d), d, here);
    }
  }

  /** A `jal` from 0 over 2^20 bytes forward is listed, and jumps, 2^20 bytes back. */
  lemma FarJump(rd: Reg)
    ensures DecodeWord(0, EncodeWord(Jal(rd, 0x10_0000), 0)) == LJal(rd, 0xFFF0_0000)
  {
    hide DecodeWord, EncodeWord;
    WordRoundTrip(Jal(rd, 0x10_0000), 0);
    assert Distance(0, Low32(0x10_0000)) == 0x10_0000;
    Sext21(0x10_0000);
  }

  /** A branch from 0 over 2^12 bytes forward is listed, and branches, 2^12 bytes back. */
  lemma FarBranch(op: BranchOp, rs1: Reg, rs2: Reg)
    ensures DecodeWord(0, EncodeWord(Branch(op, rs1, rs2, 0x1000), 0)) == LBranch(Some(op), rs1, rs2, 0xFFFF_F000)
  {
    hide DecodeWord, EncodeWord;
    WordRoundTrip(Branch(op, rs1, rs2, 0x1000), 0);
    assert Distance(0, Low32(0x1000)) == 0x1000;
    Sext13(0x1000);
  }
}
