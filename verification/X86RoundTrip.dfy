/** The disassembler reads back what the assembler emits. */
module X86RoundTrip {
  import opened Basics
  import opened Words
  import opened X86Syntax
  import opened X86Encode
  import opened X86Decode

  /** What `x86_parse_mem` produces: a legal scale, 1 without an index, and value 0 without a displacement. */
  predicate Parsed(m: Mem<Disp>) {
    && (m.scale == 1 || m.scale == 2 || m.scale == 4 || m.scale == 8)
    && (m.index.None? ==> m.scale == 1)
    && (!m.disp.given ==> m.disp.value == 0)
  }

  /** The operands the emitter can express: an index other than rsp and r12; a base, or an index alone. */
  predicate Expressible(m: Mem<Disp>) {
    && (m.index.Some? ==> m.index.value & 7 != 4)
    && (m.base.Some? || (m.index.Some? && !m.disp.given))
  }

  /** The operand as listed: the zero displacements that the encoding forces are spelled out. */
  function Spelled(m: Mem<Disp>): Mem<Disp> {
    if !m.disp.given && (m.base.None? || m.base.value & 7 == 5) then m.(disp := Disp(true, 0)) else m
  }

  /**
   What the listing shows for any operand: rsp and r12 are lost as an index; without a base, the
   register is read as rdi or rbp unless the encoding is the index-only form.
   */
  function Seen(m: Mem<Disp>): Mem<Disp> {
    var disp := Disp(m.disp.given || (if m.base.None? then m.index.Some? else m.base.value & 7 == 5), m.disp.value);
    var index := if m.index.Some? && m.index.value & 7 != 4 then m.index else None;
    var base :=
      if m.base.Some? then m.base
      else if m.index.None? then Some(7)
      else if m.disp.given then Some(5)
      else None;
    Mem(base, index, m.scale, disp)
  }

  /** The listing shows the operand that was written exactly when the emitter can express it. */
  lemma SeenAsWritten(m: Mem<Disp>)
    requires Parsed(m)
    ensures Seen(m) == Spelled(m) <==> Expressible(m)
  {
  }

  lemma ModRmFields(mod: bv8, reg: bv8, rm: bv8)
    requires mod < 4
    ensures var b := ModRm(mod, reg, rm); (b >> 6) & 3 == mod && (b >> 3) & 7 == reg & 7 && b & 7 == rm & 7
  {
  }

  lemma SibFields(m: Mem<Disp>)
    requires Parsed(m)
    ensures var b := Sib(m);
            && (1 as bv8) << ((b >> 6) & 3) == m.scale
            && (b >> 3) & 7 == (if m.index.Some? then m.index.value & 7 else 4)
            && b & 7 == (if m.base.Some? then m.base.value & 7 else 5)
  {
  }

  lemma RegSplit(r: Reg)
    ensures RegOf(r & 7, Hi(r)) == r
  {
  }

  lemma Disp8(d: bv32)
    requires Fits8(d)
    ensures SignExtend8((d & 0xFF) as bv8) == d
  {
  }

  lemma DispReadBack(s: seq<byte>, k: nat, mod: bv8, d: bv32)
    requires mod < 3 && At(s, k, DispBytes(mod, d)) && (mod == 1 ==> Fits8(d)) && (mod == 0 ==> d == 0)
    ensures ReadDisp(s, k, mod) == Some((Disp(mod != 0, d), k + |DispBytes(mod, d)|))
  {
    if mod == 1 {
      AtByte(s, k, DispBytes(mod, d), 0);
      Disp8(d);
    } else if mod == 2 {
      Read32At(s, k, d);
    }
  }

  /** REX bits that go with a memory operand. */
  predicate RexFits(rex: bv8, m: Mem<Disp>) {
    rex & 1 == HiOf(m.base) && (rex >> 1) & 1 == HiOf(m.index)
  }

  lemma SibReadBack(s: seq<byte>, k: nat, reg: bv8, rex: bv8, m: Mem<Disp>)
    requires Parsed(m) && RexFits(rex, m) && HasSib(m) && At(s, k, EmitMem(reg, m))
    ensures ReadOperand(s, k, rex) == Some((InMem(Seen(m)), k + |EmitMem(reg, m)|))
  {
    hide Seen, ReadMem, RexFits, Sib, ModRm, RegOf, DispBytes, Mod, At, Parsed;
    var mod, v := Mod(m), m.disp.value;
    var head := [ModRm(mod, reg, 4), Sib(m)];
    var tail := if mod == 0 && m.base.None? then Le32(v) else DispBytes(mod, v);
    assert EmitMem(reg, m) == head + tail;
    AtConcat(s, k, head, tail);
    SibHead(s, k, mod, reg, rex, m);
    if mod == 0 && m.base.None? {
      SibAlone(s, k + 1, rex, m);
    } else {
      SibBased(s, k + 1, mod, rex, m);
    }
  }

  /** The first two bytes lead the decoder to the SIB operand. */
  lemma SibHead(s: seq<byte>, k: nat, mod: bv8, reg: bv8, rex: bv8, m: Mem<Disp>)
    requires mod < 3 && At(s, k, [ModRm(mod, reg, 4), Sib(m)])
    ensures k + 1 < |s| && s[k + 1] == Sib(m) && ReadOperand(s, k, rex) == ReadMem(s, k + 1, mod, 4, rex)
  {
    hide ReadMem, Sib, ModRm, RegOf;
    AtByte(s, k, [ModRm(mod, reg, 4), Sib(m)], 0);
    AtByte(s, k, [ModRm(mod, reg, 4), Sib(m)], 1);
    ModRmFields(mod, reg, 4);
  }

  lemma SibAlone(s: seq<byte>, k: nat, rex: bv8, m: Mem<Disp>)
    requires Parsed(m) && RexFits(rex, m) && HasSib(m) && m.base.None? && Mod(m) == 0
    requires k < |s| && s[k] == Sib(m) && At(s, k + 1, Le32(m.disp.value))
    ensures ReadMem(s, k, 0, 4, rex) == Some((InMem(Seen(m)), k + 1 + |Le32(m.disp.value)|))
  {
    hide Seen, ReadMem, RexFits, Sib, Parsed, Mod, Read32;
    Read32At(s, k + 1, m.disp.value);
    IndexOnly(s, k, rex, m);
  }

  lemma SibBased(s: seq<byte>, k: nat, mod: bv8, rex: bv8, m: Mem<Disp>)
    requires Parsed(m) && RexFits(rex, m) && HasSib(m) && mod == Mod(m) && !(mod == 0 && m.base.None?)
    requires k < |s| && s[k] == Sib(m) && At(s, k + 1, DispBytes(mod, m.disp.value))
    ensures ReadMem(s, k, mod, 4, rex) == Some((InMem(Seen(m)), k + 1 + |DispBytes(mod, m.disp.value)|))
  {
    hide Seen, ReadMem, RexFits, Sib, RegOf;
    DispReadBack(s, k + 1, mod, m.disp.value);
    WithBase(s, k, mod, rex, m, k + 1 + |DispBytes(mod, m.disp.value)|);
  }

  lemma IndexOnly(s: seq<byte>, k: nat, rex: bv8, m: Mem<Disp>)
    requires Parsed(m) && RexFits(rex, m) && HasSib(m) && m.base.None? && Mod(m) == 0
    requires k + 5 <= |s| && s[k] == Sib(m) && Read32(s, k + 1) == m.disp.value
    ensures ReadMem(s, k, 0, 4, rex) == Some((InMem(Seen(m)), k + 5))
  {
    SibFields(m);
    IndexReadBack(rex, m);
  }

  lemma WithBase(s: seq<byte>, k: nat, mod: bv8, rex: bv8, m: Mem<Disp>, n: nat)
    requires Parsed(m) && RexFits(rex, m) && HasSib(m) && (m.base.Some? || mod != 0) && Mod(m) == mod
    requires k < |s| && s[k] == Sib(m) && ReadDisp(s, k + 1, mod) == Some((Disp(mod != 0, m.disp.value), n))
    ensures ReadMem(s, k, mod, 4, rex) == Some((InMem(Seen(m)), n))
  {
    SibFields(m);
    IndexReadBack(rex, m);
    BaseReadBack(rex, m);
  }

  lemma IndexReadBack(rex: bv8, m: Mem<Disp>)
    requires Parsed(m) && RexFits(rex, m)
    ensures var si := (Sib(m) >> 3) & 7;
            (if si != 4 then Some(RegOf(si, (rex >> 1) & 1)) else None) == Seen(m).index
  {
    SibFields(m);
    if m.index.Some? { RegSplit(m.index.value); }
  }

  lemma BaseReadBack(rex: bv8, m: Mem<Disp>)
    requires Parsed(m) && RexFits(rex, m)
    ensures RegOf(Sib(m) & 7, rex & 1) == if m.base.Some? then m.base.value else 5
  {
    SibFields(m);
    if m.base.Some? { RegSplit(m.base.value); }
  }

  lemma PlainReadBack(s: seq<byte>, k: nat, reg: bv8, rex: bv8, m: Mem<Disp>)
    requires Parsed(m) && RexFits(rex, m) && !HasSib(m) && At(s, k, EmitMem(reg, m))
    ensures ReadOperand(s, k, rex) == Some((InMem(Seen(m)), k + |EmitMem(reg, m)|))
  {
    var mod, v := Mod(m), m.disp.value;
    var rm: bv8 := if m.base.Some? then m.base.value else 7;
    var head, tail := [ModRm(mod, reg, rm)], DispBytes(mod, v);
    assert EmitMem(reg, m) == head + tail;
    AtConcat(s, k, head, tail);
    AtByte(s, k, head, 0);
    ModRmFields(mod, reg, rm);
    if m.base.Some? { RegSplit(m.base.value); }
    DispReadBack(s, k + 1, mod, v);
  }

  /** ModR/M, SIB and displacement read back, for every base, index, scale and displacement. */
  lemma MemoryOperandRoundTrip(s: seq<byte>, k: nat, reg: bv8, rex: bv8, m: Mem<Disp>)
    requires Parsed(m) && RexFits(rex, m) && At(s, k, EmitMem(reg, m))
    ensures ReadOperand(s, k, rex) == Some((InMem(Seen(m)), k + |EmitMem(reg, m)|))
    ensures Expressible(m) <==> ReadOperand(s, k, rex) == Some((InMem(Spelled(m)), k + |EmitMem(reg, m)|))
    ensures (s[k] >> 3) & 7 == reg & 7
  {
    SeenAsWritten(m);
    if HasSib(m) {
      SibReadBack(s, k, reg, rex, m);
      AtByte(s, k, EmitMem(reg, m), 0);
      ModRmFields(Mod(m), reg, 4);
    } else {
      PlainReadBack(s, k, reg, rex, m);
      AtByte(s, k, EmitMem(reg, m), 0);
      ModRmFields(Mod(m), reg, if m.base.Some? then m.base.value else 7);
    }
  }

  // ---------- whole statements ----------

  /** The listing of a statement, with memory operands shown as the listing shows them or as written. */
  function Listed(st: Concrete, asSeen: bool): Insn
    requires Encode(st, 0).Some?
  {
    match st
    case Plain(z) => LZero(z)
    case Int(v) => LInt(Low8(v))
    case Push(r) => LPush(r)
    case Pop(r) => LPop(r)
    case Move(R(d), V(v)) => if Fits32(v) then LMovImm(InReg(d), Low32(v)) else LMovImm64(d, v)
    case Move(M(m), V(v)) => LMovImm(Shown(m, asSeen), Low32(v))
    case Move(dst, src) => ListedRmOrMr(Mov, dst, src, asSeen)
    case Exchange(x, y) => LStore(Xchg, InReg(x), y)
    case Arith(op, R(d), V(v)) => LGroup32(OfBinary(op), InReg(d), Low32(v))
    case Arith(op, dst, src) => ListedRmOrMr(op, dst, src, asSeen)
    case LoadAddress(d, m) => LLoad(Lea, d, Shown(m, asSeen))
    case Multiply(d, s) => LImul(d, s)
    case Unary(op, r) => LGroup(OfUnary(op), InReg(r))
    case Shift(op, r, v) => LGroup8(OfShift(op), InReg(r), Low8(v))
    case Jump(t) => LJmp(Low32(t))
    case Call(t) => LCall(Low32(t))
    case JumpIf(cc, t) => LJcc(cc, Low32(t))
    case In(p) => if p.None? then LInDx else LIn(Low8(p.value))
    case Out(p) => if p.None? then LOutDx else LOut(Low8(p.value))
  }

  function Shown(m: Mem<Disp>, asSeen: bool): Operand {
    InMem(if asSeen then Seen(m) else Spelled(m))
  }

  /** `test reg, [mem]` is listed with its operands exchanged: both orders have one encoding. */
  function ListedRmOrMr(op: Binary, dst: Arg<bv64, Disp>, src: Arg<bv64, Disp>, asSeen: bool): Insn
    requires EmitRmOrMr(op, dst, src).Some?
  {
    match (dst, src)
    case (R(d), R(s)) => LStore(op, InReg(d), s)
    case (R(d), M(m)) => if op.Test? then LStore(Test, Shown(m, asSeen), d) else LLoad(op, d, Shown(m, asSeen))
    case (M(m), R(s)) => LStore(op, Shown(m, asSeen), s)
  }

  /** The memory operand of a statement, if it has one. */
  function MemOf(st: Concrete): Option<Mem<Disp>> {
    match st
    case Move(dst, src) => if dst.M? then Some(dst.mem) else if src.M? then Some(src.mem) else None
    case Arith(_, dst, src) => if dst.M? then Some(dst.mem) else if src.M? then Some(src.mem) else None
    case LoadAddress(_, m) => Some(m)
    case _ => None
  }

  lemma RexBits(r: bv8, x: bv8, b: bv8)
    requires r < 2 && x < 2 && b < 2
    ensures |Rex(1, r, x, b)| == 1
    ensures var v := Rex(1, r, x, b)[0];
            v & 0xF0 == 0x40 && v & 8 != 0 && (v >> 2) & 1 == r && (v >> 1) & 1 == x && v & 1 == b
  {
  }

  /** A statement that starts with REX.W is decoded from its opcode on. */
  lemma RexThenOpcode(pc: bv32, s: seq<byte>, r: bv8, x: bv8, b: bv8, op: byte, tail: seq<byte>)
    requires r < 2 && x < 2 && b < 2 && At(s, 0, Rex(1, r, x, b) + [op] + tail)
    ensures |s| >= 2 && s[0] == Rex(1, r, x, b)[0] && s[1] == op && At(s, 2, tail)
    ensures Decode(pc, s) == ReadOpcode(pc, s, 2, s[0], op)
  {
    RexBits(r, x, b);
    AtConcat(s, 0, Rex(1, r, x, b) + [op], tail);
    AtConcat(s, 0, Rex(1, r, x, b), [op]);
    AtByte(s, 0, Rex(1, r, x, b), 0);
    AtByte(s, 1, [op], 0);
  }

  /** Opcodes of the ModR/M forms are not claimed by an earlier branch of the decoder. */
  lemma FormsReachModRm(pc: bv32, s: seq<byte>, k: nat, rex: bv8, op: byte)
    requires k <= 2 && FormOf(op).Some?
    ensures ReadOpcode(pc, s, k, rex, op) == ReadForm(s, k, rex, FormOf(op).value)
  {
    hide ReadForm, Read0F, RegOf, Read32, Read64, Target;
  }

  lemma MemFormReadBack(pc: bv32, s: seq<byte>, op: byte, reg: Reg, m: Mem<Disp>, imm: seq<byte>)
    requires Parsed(m) && FormOf(op).Some? && At(s, 0, MemForm(op, reg, m) + imm)
    ensures Decode(pc, s) == ReadForm(s, 2, s[0], FormOf(op).value)
    ensures var n := |MemForm(op, reg, m)|;
            && ReadOperand(s, 2, s[0]) == Some((InMem(Seen(m)), n)) && At(s, n, imm)
            && RegOf((s[2] >> 3) & 7, (s[0] >> 2) & 1) == reg
  {
    hide Decode, ReadOpcode;
    var (r, x, b) := (Hi(reg), HiOf(m.index), HiOf(m.base));
    var mem := EmitMem(reg, m);
    assert MemForm(op, reg, m) + imm == Rex(1, r, x, b) + [op] + (mem + imm);
    RexBits(r, x, b);
    RexThenOpcode(pc, s, r, x, b, op, mem + imm);
    FormsReachModRm(pc, s, 2, s[0], op);
    AtConcat(s, 2, mem, imm);
    MemoryOperandRoundTrip(s, 2, reg, s[0], m);
    RegSplit(reg);
  }

  lemma RegFormReadBack(pc: bv32, s: seq<byte>, op: byte, reg: bv8, rm: Reg, imm: seq<byte>)
    requires reg < 16 && FormOf(op).Some? && At(s, 0, Rex(1, Hi(reg), 0, Hi(rm)) + [op, ModRm(3, reg, rm)] + imm)
    ensures Decode(pc, s) == ReadForm(s, 2, s[0], FormOf(op).value)
    ensures ReadOperand(s, 2, s[0]) == Some((InReg(rm), 3)) && At(s, 3, imm)
    ensures RegOf((s[2] >> 3) & 7, (s[0] >> 2) & 1) == reg && (s[2] >> 3) & 7 == reg & 7
  {
    hide Decode, ReadOpcode;
    var tail := [ModRm(3, reg, rm)] + imm;
    assert Rex(1, Hi(reg), 0, Hi(rm)) + [op, ModRm(3, reg, rm)] + imm == Rex(1, Hi(reg), 0, Hi(rm)) + [op] + tail;
    RexBits(Hi(reg), 0, Hi(rm));
    RexThenOpcode(pc, s, Hi(reg), 0, Hi(rm), op, tail);
    FormsReachModRm(pc, s, 2, s[0], op);
    AtConcat(s, 2, [ModRm(3, reg, rm)], imm);
    AtByte(s, 2, [ModRm(3, reg, rm)], 0);
    ModRmFields(3, reg, rm);
    RegSplit(reg);
    RegSplit(rm);
  }

  lemma MrForms(op: Binary)
    requires !op.Lea?
    ensures FormOf(MrOpcode(op)) == Some(StoreForm(op))
  {
  }

  lemma RmForms(op: Binary)
    requires op.Mov? || op.Lea? || IsArith(op)
    ensures FormOf(RmOpcode(op)) == Some(if op.Test? then StoreForm(op) else LoadForm(op))
  {
  }

  /** An opcode is listed as `op r/m, reg` or `op reg, r/m` exactly if it is the one the assembler writes for it. */
  lemma FormsExact(b: byte, op: Binary)
    ensures FormOf(b) == Some(StoreForm(op)) <==> !op.Lea? && MrOpcode(op) == b
    ensures FormOf(b) == Some(LoadForm(op)) <==> !op.Test? && !op.Xchg? && RmOpcode(op) == b
  {
  }

  lemma StoreRegister(pc: bv32, s: seq<byte>, op: Binary, reg: Reg, rm: Reg)
    requires !op.Lea? && At(s, 0, RegForm(MrOpcode(op), reg, rm))
    ensures Decode(pc, s) == Some((LStore(op, InReg(rm), reg), |RegForm(MrOpcode(op), reg, rm)|))
  {
    hide Decode, ReadOpcode;
    var e := RegForm(MrOpcode(op), reg, rm);
    assert e + [] == e;
    MrForms(op);
    RexBits(Hi(reg), 0, Hi(rm));
    RegFormReadBack(pc, s, MrOpcode(op), reg, rm, []);
  }

  lemma StoreMemory(pc: bv32, s: seq<byte>, op: Binary, reg: Reg, m: Mem<Disp>)
    requires !op.Lea? && Parsed(m) && At(s, 0, MemForm(MrOpcode(op), reg, m))
    ensures Decode(pc, s) == Some((LStore(op, InMem(Seen(m)), reg), |MemForm(MrOpcode(op), reg, m)|))
  {
    hide Decode, ReadOpcode;
    var e := MemForm(MrOpcode(op), reg, m);
    assert e + [] == e;
    MrForms(op);
    MemFormReadBack(pc, s, MrOpcode(op), reg, m, []);
  }

  lemma LoadMemory(pc: bv32, s: seq<byte>, op: Binary, reg: Reg, m: Mem<Disp>)
    requires (op.Mov? || op.Lea? || IsArith(op)) && Parsed(m) && At(s, 0, MemForm(RmOpcode(op), reg, m))
    ensures Decode(pc, s) ==
            Some((if op.Test? then LStore(op, InMem(Seen(m)), reg) else LLoad(op, reg, InMem(Seen(m))),
                  |MemForm(RmOpcode(op), reg, m)|))
  {
    hide Decode, ReadOpcode;
    var e := MemForm(RmOpcode(op), reg, m);
    assert e + [] == e;
    RmForms(op);
    MemFormReadBack(pc, s, RmOpcode(op), reg, m, []);
  }

  lemma RmOrMrReadBack(pc: bv32, s: seq<byte>, op: Binary, dst: Arg<bv64, Disp>, src: Arg<bv64, Disp>)
    requires op.Mov? || IsArith(op)
    requires EmitRmOrMr(op, dst, src).Some? && At(s, 0, EmitRmOrMr(op, dst, src).value)
    requires (dst.M? ==> Parsed(dst.mem)) && (src.M? ==> Parsed(src.mem))
    ensures Decode(pc, s) == Some((ListedRmOrMr(op, dst, src, true), |EmitRmOrMr(op, dst, src).value|))
  {
    hide Decode, ReadOpcode;
    match (dst, src)
    case (R(d), R(x)) => StoreRegister(pc, s, op, x, d);
    case (R(d), M(m)) => LoadMemory(pc, s, op, d, m);
    case (M(m), R(x)) => StoreMemory(pc, s, op, x, m);
  }

  lemma MemoryImmediate(pc: bv32, s: seq<byte>, m: Mem<Disp>, v: bv32)
    requires Parsed(m) && At(s, 0, MemForm(0xC7, 0, m) + Le32(v))
    ensures Decode(pc, s) == Some((LMovImm(InMem(Seen(m)), v), |MemForm(0xC7, 0, m) + Le32(v)|))
  {
    hide Decode, ReadOpcode;
    MemFormReadBack(pc, s, 0xC7, 0, m, Le32(v));
    Read32At(s, |MemForm(0xC7, 0, m)|, v);
  }

  lemma DigitReadBack(pc: bv32, s: seq<byte>, op: byte, digit: bv8, r: Reg, imm: seq<byte>)
    requires digit < 8 && FormOf(op).Some? && At(s, 0, DigitForm(op, digit, r, imm))
    ensures |DigitForm(op, digit, r, imm)| == 3 + |imm| && |s| >= 3
    ensures Decode(pc, s) == ReadForm(s, 2, s[0], FormOf(op).value)
    ensures ReadOperand(s, 2, s[0]) == Some((InReg(r), 3)) && At(s, 3, imm) && (s[2] >> 3) & 7 == digit
  {
    hide Decode, ReadOpcode;
    assert Hi(digit) == 0 && digit & 7 == digit;
    RexBits(0, 0, Hi(r));
    RegFormReadBack(pc, s, op, digit, r, imm);
  }

  lemma RegisterImmediate(pc: bv32, s: seq<byte>, d: Reg, v: bv32)
    requires At(s, 0, DigitForm(0xC7, 0, d, Le32(v)))
    ensures Decode(pc, s) == Some((LMovImm(InReg(d), v), |DigitForm(0xC7, 0, d, Le32(v))|))
  {
    hide Decode, ReadOpcode;
    DigitReadBack(pc, s, 0xC7, 0, d, Le32(v));
    Read32At(s, 3, v);
  }

  lemma GroupImmediate(pc: bv32, s: seq<byte>, digit: bv8, d: Reg, v: bv32)
    requires digit < 8 && At(s, 0, DigitForm(0x81, digit, d, Le32(v)))
    ensures Decode(pc, s) ==
              Some((LGroup32(MnemonicOf(Grp81, digit), InReg(d), v), |DigitForm(0x81, digit, d, Le32(v))|))
  {
    hide Decode, ReadOpcode;
    DigitReadBack(pc, s, 0x81, digit, d, Le32(v));
    Read32At(s, 3, v);
  }

  lemma GroupByte(pc: bv32, s: seq<byte>, digit: bv8, d: Reg, v: byte)
    requires digit < 8 && At(s, 0, DigitForm(0xC1, digit, d, [v]))
    ensures Decode(pc, s) == Some((LGroup8(MnemonicOf(GrpC1, digit), InReg(d), v), |DigitForm(0xC1, digit, d, [v])|))
  {
    hide Decode, ReadOpcode;
    DigitReadBack(pc, s, 0xC1, digit, d, [v]);
    AtByte(s, 3, [v], 0);
  }

  lemma GroupAlone(pc: bv32, s: seq<byte>, g: Group, digit: bv8, d: Reg)
    requires digit < 8 && (g.GrpF7? || g.GrpFF?)
    requires At(s, 0, DigitForm(if g.GrpFF? then 0xFF else 0xF7, digit, d, []))
    ensures Decode(pc, s) ==
              Some((LGroup(MnemonicOf(g, digit), InReg(d)), |DigitForm(if g.GrpFF? then 0xFF else 0xF7, digit, d, [])|))
  {
    hide Decode, ReadOpcode;
    DigitReadBack(pc, s, if g.GrpFF? then 0xFF else 0xF7, digit, d, []);
  }

  /** Each digit the encoder writes is the one the decoder's tables name by the mnemonic that was written. */
  lemma DigitNames(op: Binary, u: UnaryOp, sh: ShiftOp)
    ensures ArithDigit(op).Some? ==> ArithDigit(op).value < 8 && MnemonicOf(Grp81, ArithDigit(op).value) == OfBinary(op)
    ensures var (g, d) := UnaryGroup(u); (g.GrpF7? || g.GrpFF?) && d < 8 && MnemonicOf(g, d) == OfUnary(u)
    ensures ShiftDigit(sh) < 8 && MnemonicOf(GrpC1, ShiftDigit(sh)) == OfShift(sh)
  {
  }

  lemma RegisterImmediate64(pc: bv32, s: seq<byte>, d: Reg, v: bv64)
    requires At(s, 0, Rex(1, 0, 0, Hi(d)) + [0xB8 + (d & 7)] + Le64(v))
    ensures Decode(pc, s) == Some((LMovImm64(d, v), |Rex(1, 0, 0, Hi(d)) + [0xB8 + (d & 7)] + Le64(v)|))
  {
    var op: byte := 0xB8 + (d & 7);
    RexBits(0, 0, Hi(d));
    RexThenOpcode(pc, s, 0, 0, Hi(d), op, Le64(v));
    Read64At(s, 2, v);
    assert 0xB8 <= op <= 0xBF && op - 0xB8 == d & 7;
    RegSplit(d);
  }

  lemma MultiplyReadBack(pc: bv32, s: seq<byte>, x: Reg, y: Reg)
    requires At(s, 0, Rex(1, Hi(x), 0, Hi(y)) + [0x0F, 0xAF, ModRm(3, x, y)])
    ensures Decode(pc, s) == Some((LImul(x, y), |Rex(1, Hi(x), 0, Hi(y)) + [0x0F, 0xAF, ModRm(3, x, y)]|))
  {
    var tail := [0xAF, ModRm(3, x, y)];
    assert Rex(1, Hi(x), 0, Hi(y)) + [0x0F, 0xAF, ModRm(3, x, y)] == Rex(1, Hi(x), 0, Hi(y)) + [0x0F] + tail;
    RexBits(Hi(x), 0, Hi(y));
    RexThenOpcode(pc, s, Hi(x), 0, Hi(y), 0x0F, tail);
    AtByte(s, 2, tail, 0);
    AtByte(s, 2, tail, 1);
    ModRmFields(3, x, y);
    RegSplit(x);
    RegSplit(y);
  }

  lemma NearReadBack(pc: bv32, s: seq<byte>, op: byte, t: bv32)
    requires (op == 0xE8 || op == 0xE9) && At(s, 0, [op] + Le32(Distance(After(pc, 5), t)))
    ensures Decode(pc, s) == Some((if op == 0xE8 then LCall(t) else LJmp(t), |[op] + Le32(Distance(After(pc, 5), t))|))
  {
    hide Plus, After, Distance, Read32, ReadForm, FormOf;
    AtConcat(s, 0, [op], Le32(Distance(After(pc, 5), t)));
    AtByte(s, 0, [op], 0);
    Read32At(s, 1, Distance(After(pc, 5), t));
    DistanceLeads(After(pc, 5), t);
  }

  lemma EscapeByte(pc: bv32, s: seq<byte>)
    requires |s| >= 1 && s[0] == 0x0F
    ensures Decode(pc, s) == Read0F(pc, s, 1, 0)
  {
    hide Read0F, ReadForm;
  }

  lemma JccReadBack(pc: bv32, s: seq<byte>, cc: Cond, t: bv32)
    requires At(s, 0, [0x0F, 0x80 + cc] + Le32(Distance(After(pc, 6), t)))
    ensures Decode(pc, s) == Some((LJcc(cc, t), |[0x0F, 0x80 + cc] + Le32(Distance(After(pc, 6), t))|))
  {
    hide Decode, ReadOpcode, Plus, After, Distance, Read32;
    var head := [0x0F, 0x80 + cc];
    AtConcat(s, 0, head, Le32(Distance(After(pc, 6), t)));
    AtByte(s, 0, head, 0);
    AtByte(s, 0, head, 1);
    EscapeByte(pc, s);
    Read32At(s, 2, Distance(After(pc, 6), t));
    DistanceLeads(After(pc, 6), t);
  }

  lemma PlainRead(pc: bv32, s: seq<byte>, z: Zero)
    requires At(s, 0, ZeroBytes(z))
    ensures Decode(pc, s) == Some((LZero(z), |ZeroBytes(z)|))
  {
    hide ReadForm, FormOf;
    var e := ZeroBytes(z);
    forall i | 0 <= i < |e| ensures s[i] == e[i] { AtByte(s, 0, e, i); }
  }

  lemma StackRead(pc: bv32, s: seq<byte>, r: Reg, base: byte)
    requires base == 0x50 || base == 0x58
    requires At(s, 0, (if r >= 8 then [0x41] else []) + [base + (r & 7)])
    ensures var code := (if r >= 8 then [0x41] else []) + [base + (r & 7)];
            Decode(pc, s) == Some((if base == 0x50 then LPush(r) else LPop(r), |code|))
  {
    hide ReadForm, FormOf;
    var e := (if r >= 8 then [0x41] else []) + [base + (r & 7)];
    forall i | 0 <= i < |e| ensures s[i] == e[i] { AtByte(s, 0, e, i); }
    RegSplit(r);
  }

  lemma BytePairRead(pc: bv32, s: seq<byte>, op: byte, v: byte)
    requires (op == 0xCD || op == 0xE4 || op == 0xE6) && At(s, 0, [op, v])
    ensures Decode(pc, s) == Some((if op == 0xCD then LInt(v) else if op == 0xE4 then LIn(v) else LOut(v), |[op, v]|))
  {
    hide ReadForm, FormOf;
    AtByte(s, 0, [op, v], 0);
    AtByte(s, 0, [op, v], 1);
  }

  lemma PortRead(pc: bv32, s: seq<byte>, op: byte)
    requires (op == 0xEC || op == 0xEE) && At(s, 0, [op])
    ensures Decode(pc, s) == Some((if op == 0xEC then LInDx else LOutDx, |[op]|))
  {
    hide ReadForm, FormOf;
    AtByte(s, 0, [op], 0);
  }

  lemma MoveRoundTrip(pc: bv32, s: seq<byte>, st: Concrete)
    requires (st.Move?) && Encode(st, pc).Some? && At(s, 0, Encode(st, pc).value)
    requires MemOf(st).Some? ==> Parsed(MemOf(st).value)
    ensures Encode(st, 0).Some? && Decode(pc, s) == Some((Listed(st, true), |Encode(st, pc).value|))
  {
    hide Decode, ReadOpcode, At, Rex, ModRm, MemForm, RegForm, DigitForm, Le32, Le64, Low32, Low8, Seen, Parsed,
         ZeroBytes, Distance, After;
    match st
    case Move(R(d), V(v)) =>
      if Fits32(v) { RegisterImmediate(pc, s, d, Low32(v)); } else { RegisterImmediate64(pc, s, d, v); }
    case Move(M(m), V(v)) => MemoryImmediate(pc, s, m, Low32(v));
    case Move(dst, src) => RmOrMrReadBack(pc, s, Mov, dst, src);
  }

  lemma ArithRoundTrip(pc: bv32, s: seq<byte>, st: Concrete)
    requires (st.Arith?) && Encode(st, pc).Some? && At(s, 0, Encode(st, pc).value)
    requires MemOf(st).Some? ==> Parsed(MemOf(st).value)
    ensures Encode(st, 0).Some? && Decode(pc, s) == Some((Listed(st, true), |Encode(st, pc).value|))
  {
    hide Decode, ReadOpcode, At, Rex, ModRm, MemForm, RegForm, DigitForm, Le32, Le64, Low32, Low8, Seen, Parsed,
         ZeroBytes, Distance, After;
    match st
    case Arith(op, R(d), V(v)) =>
      DigitNames(op, Inc, Shl);
      GroupImmediate(pc, s, ArithDigit(op).value, d, Low32(v));
    case Arith(op, dst, src) => RmOrMrReadBack(pc, s, op, dst, src);
  }

  lemma RegisterRoundTrip(pc: bv32, s: seq<byte>, st: Concrete)
    requires (st.LoadAddress? || st.Exchange? || st.Multiply? || st.Unary? || st.Shift? || st.Push? || st.Pop?)
             && Encode(st, pc).Some? && At(s, 0, Encode(st, pc).value)
    requires MemOf(st).Some? ==> Parsed(MemOf(st).value)
    ensures Encode(st, 0).Some? && Decode(pc, s) == Some((Listed(st, true), |Encode(st, pc).value|))
  {
    if st.Push? || st.Pop? {
      StackRoundTrip(pc, s, st);
    } else if st.LoadAddress? {
      AddressRoundTrip(pc, s, st);
    } else {
      OperandRoundTrip(pc, s, st);
    }
  }

  lemma StackRoundTrip(pc: bv32, s: seq<byte>, st: Concrete)
    requires (st.Push? || st.Pop?) && Encode(st, pc).Some? && At(s, 0, Encode(st, pc).value)
    ensures Encode(st, 0).Some? && Decode(pc, s) == Some((Listed(st, true), |Encode(st, pc).value|))
  {
    hide Decode, At;
    StackRead(pc, s, st.reg, if st.Push? then 0x50 else 0x58);
  }

  lemma AddressRoundTrip(pc: bv32, s: seq<byte>, st: Concrete)
    requires st.LoadAddress? && Encode(st, pc).Some? && At(s, 0, Encode(st, pc).value) && Parsed(st.mem)
    ensures Encode(st, 0).Some? && Decode(pc, s) == Some((Listed(st, true), |Encode(st, pc).value|))
  {
    hide Decode, At, MemForm, Seen, Parsed;
    LoadMemory(pc, s, Lea, st.to, st.mem);
  }

  lemma OperandRoundTrip(pc: bv32, s: seq<byte>, st: Concrete)
    requires (st.Exchange? || st.Multiply? || st.Unary? || st.Shift?) && Encode(st, pc).Some?
             && At(s, 0, Encode(st, pc).value)
    ensures Encode(st, 0).Some? && Decode(pc, s) == Some((Listed(st, true), |Encode(st, pc).value|))
  {
    hide Decode, ReadOpcode, At, Rex, ModRm, RegForm, DigitForm, Low8;
    match st
    case Exchange(x, y) => StoreRegister(pc, s, Xchg, y, x);
    case Multiply(x, y) => MultiplyReadBack(pc, s, x, y);
    case Unary(op, r) =>
      DigitNames(Add, op, Shl);
      GroupAlone(pc, s, UnaryGroup(op).0, UnaryGroup(op).1, r);
    case Shift(op, r, v) =>
      DigitNames(Add, Inc, op);
      GroupByte(pc, s, ShiftDigit(op), r, Low8(v));
  }

  lemma BranchRoundTrip(pc: bv32, s: seq<byte>, st: Concrete)
    requires (st.Jump? || st.Call? || st.JumpIf?) && Encode(st, pc).Some? && At(s, 0, Encode(st, pc).value)
    requires MemOf(st).Some? ==> Parsed(MemOf(st).value)
    ensures Encode(st, 0).Some? && Decode(pc, s) == Some((Listed(st, true), |Encode(st, pc).value|))
  {
    hide Decode, ReadOpcode, At, Rex, ModRm, MemForm, RegForm, DigitForm, Le32, Le64, Low32, Low8, Seen, Parsed,
         ZeroBytes, Distance, After;
    match st
    case Jump(t) => NearReadBack(pc, s, 0xE9, Low32(t));
    case Call(t) => NearReadBack(pc, s, 0xE8, Low32(t));
    case JumpIf(cc, t) => JccReadBack(pc, s, cc, Low32(t));
  }

  lemma ControlRoundTrip(pc: bv32, s: seq<byte>, st: Concrete)
    requires (st.Plain? || st.Int? || st.In? || st.Out?) && Encode(st, pc).Some? && At(s, 0, Encode(st, pc).value)
    requires MemOf(st).Some? ==> Parsed(MemOf(st).value)
    ensures Encode(st, 0).Some? && Decode(pc, s) == Some((Listed(st, true), |Encode(st, pc).value|))
  {
    hide Decode, ReadOpcode, At, Rex, ModRm, MemForm, RegForm, DigitForm, Le32, Le64, Low32, Low8, Seen, Parsed,
         ZeroBytes, Distance, After;
    match st
    case Plain(z) => PlainRead(pc, s, z);
    case Int(v) => BytePairRead(pc, s, 0xCD, Low8(v));
    case In(p) => if p.None? { PortRead(pc, s, 0xEC); } else { BytePairRead(pc, s, 0xE4, Low8(p.value)); }
    case Out(p) => if p.None? { PortRead(pc, s, 0xEE); } else { BytePairRead(pc, s, 0xE6, Low8(p.value)); }
  }

  /**
   Decoding at the address where a statement was placed consumes exactly the bytes it emitted,
   whatever follows, and lists it; branches list their target modulo 2^32.
   */
  lemma StatementRoundTrip(pc: bv32, s: seq<byte>, st: Concrete)
    requires Encode(st, pc).Some? && At(s, 0, Encode(st, pc).value)
    requires MemOf(st).Some? ==> Parsed(MemOf(st).value)
    ensures Encode(st, 0).Some? && Decode(pc, s) == Some((Listed(st, true), |Encode(st, pc).value|))
  {
    hide Decode, ReadOpcode, At, Encode, Listed, Parsed, MemOf;
    if st.Move? {
      MoveRoundTrip(pc, s, st);
    } else if st.Arith? {
      ArithRoundTrip(pc, s, st);
    } else if st.LoadAddress? || st.Exchange? || st.Multiply? || st.Unary? || st.Shift? || st.Push? || st.Pop? {
      RegisterRoundTrip(pc, s, st);
    } else if st.Jump? || st.Call? || st.JumpIf? {
      BranchRoundTrip(pc, s, st);
    } else {
      ControlRoundTrip(pc, s, st);
    }
  }

  /** The listing is what was written exactly when the memory operand, if any, can be expressed. */
  lemma ListedAsWritten(st: Concrete)
    requires Encode(st, 0).Some? && (MemOf(st).Some? ==> Parsed(MemOf(st).value))
    ensures Listed(st, true) == Listed(st, false) <==> (MemOf(st).Some? ==> Expressible(MemOf(st).value))
  {
    hide Seen, Spelled, Expressible, Parsed, MemForm, RegForm, DigitForm, Rex, ModRm, Le32, Le64, ZeroBytes;
    if MemOf(st).Some? {
      SeenAsWritten(MemOf(st).value);
    }
  }

  /** The assembler refuses exactly these statements. */
  predicate Refused(st: Concrete) {
    match st
    case Move(dst, src) => dst.V? || (dst.M? && src.M?)
    case Arith(op, dst, src) =>
      || op.Mov? || op.Lea? || op.Xchg?
      || dst.V? || (dst.M? && !src.R?)
      || (op.Test? && src.V?)
    case _ => false
  }

  lemma RefusedExactly(st: Concrete, here: bv32)
    ensures Encode(st, here).None? <==> Refused(st)
  {
    hide MemForm, RegForm, DigitForm, Rex, ModRm, Le32, Le64, ZeroBytes, Low32, Low8, Distance, After;
  }

  /** The sign extension the processor applies to a 32-bit immediate of a 64-bit move. */
  function SignExtend32(v: bv32): bv64 {
    if v & 0x8000_0000 != 0 then 0xFFFF_FFFF_0000_0000 | (v as bv64) else v as bv64
  }

  const FROM_31: bv64 := 0xFFFF_FFFF_8000_0000

  lemma SignBitKept(v: bv64)
    ensures Low32(v) & 0x8000_0000 != 0 <==> v & 0x8000_0000 != 0
  {
  }

  lemma FitsByMask(v: bv64)
    ensures Fits32(v) <==> v & FROM_31 == 0 || v & FROM_31 == FROM_31
  {
  }

  lemma ExtendedPlus(v: bv64)
    requires v & 0x8000_0000 == 0
    ensures Low32(v) as bv64 == v <==> v & FROM_31 == 0
  {
  }

  lemma ExtendedMinus(v: bv64)
    requires v & 0x8000_0000 != 0
    ensures 0xFFFF_FFFF_0000_0000 | (Low32(v) as bv64) == v <==> v & FROM_31 == FROM_31
  {
  }

  lemma OtherMask(v: bv64)
    ensures v & 0x8000_0000 == 0 ==> v & FROM_31 != FROM_31
    ensures v & 0x8000_0000 != 0 ==> v & FROM_31 != 0
  {
  }

  /** The short form of `mov reg, imm` is taken exactly when the processor then loads the number written. */
  lemma ShortMoveExact(v: bv64)
    ensures Fits32(v) <==> SignExtend32(Low32(v)) == v
  {
    hide Fits32, Low32;
    SignBitKept(v);
    FitsByMask(v);
    OtherMask(v);
    if v & 0x8000_0000 == 0 { ExtendedPlus(v); } else { ExtendedMinus(v); }
  }

  /** The one-byte displacement is taken exactly when its sign extension is the displacement written. */
  lemma ShortDisplacementExact(d: bv32)
    ensures Fits8(d) <==> SignExtend8((d & 0xFF) as bv8) == d
  {
  }

  /** Mod 0 with r/m 5 lists, relative to rip, the little-endian displacement that follows. */
  lemma RipRelativeListed(s: seq<byte>, k: nat, rex: bv8, d: bv32)
    requires k < |s| && (s[k] >> 6) & 3 == 0 && s[k] & 7 == 5 && At(s, k + 1, Le32(d))
    ensures ReadOperand(s, k, rex) == Some((RipRelative(d), k + 5))
  {
    hide Read32;
    Read32At(s, k + 1, d);
  }

  // ---------- operands that do not come back ----------

  /** `lea rax, m` is listed, whatever follows it, with what the listing shows of `m`. */
  lemma AddressListed(pc: bv32, s: seq<byte>, m: Mem<Disp>)
    requires Parsed(m) && At(s, 0, MemForm(0x8D, 0, m))
    ensures Decode(pc, s) == Some((LLoad(Lea, 0, InMem(Seen(m))), |MemForm(0x8D, 0, m)|))
  {
    hide Decode, At, MemForm, Seen;
    StatementRoundTrip(pc, s, LoadAddress(0, m));
  }

  /** `lea rax, [rax + rsp]` is listed without its index. */
  lemma RspIndexLost(pc: bv32, s: seq<byte>)
    requires At(s, 0, MemForm(0x8D, 0, Mem(Some(0), Some(4), 1, Disp(false, 0))))
    ensures Decode(pc, s).Some? && Decode(pc, s).value.0 == LLoad(Lea, 0, InMem(Mem(Some(0), None, 1, Disp(false, 0))))
  {
    hide Decode, At, MemForm;
    AddressListed(pc, s, Mem(Some(0), Some(4), 1, Disp(false, 0)));
  }

  /** So is `lea rax, [rax + r12*8]`, although its encoding is right. */
  lemma R12IndexLost(pc: bv32, s: seq<byte>)
    requires At(s, 0, MemForm(0x8D, 0, Mem(Some(0), Some(12), 8, Disp(false, 0))))
    ensures Decode(pc, s).Some? && Decode(pc, s).value.0 == LLoad(Lea, 0, InMem(Mem(Some(0), None, 8, Disp(false, 0))))
  {
    hide Decode, At, MemForm;
    AddressListed(pc, s, Mem(Some(0), Some(12), 8, Disp(false, 0)));
  }

  /** `lea rax, [0x1000]` comes back as `[rdi + 0x1000]`. */
  lemma BareDisplacementLost(pc: bv32, s: seq<byte>)
    requires At(s, 0, MemForm(0x8D, 0, Mem(None, None, 1, Disp(true, 0x1000))))
    ensures Decode(pc, s).Some?
              && Decode(pc, s).value.0 == LLoad(Lea, 0, InMem(Mem(Some(7), None, 1, Disp(true, 0x1000))))
  {
    hide Decode, At, MemForm;
    AddressListed(pc, s, Mem(None, None, 1, Disp(true, 0x1000)));
  }
}
