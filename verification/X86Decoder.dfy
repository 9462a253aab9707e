/** `x86_decode` as code: a cursor over the bytes and the mode flags that the prefix and the opcode set. */
module X86Decoder {
  import opened Basics
  import opened Words
  import opened X86Syntax
  import opened X86Decode

  lemma WideBit(rex: bv8)
    ensures (rex >> 3) & 1 != 0 <==> rex & 8 != 0
  {
  }

  lemma FormParts(s: seq<byte>, k: nat, rex: bv8, f: Form)
    ensures k >= |s| ==> ReadForm(s, k, rex, f) == None
    ensures k < |s| ==>
              var digit := (s[k] >> 3) & 7;
              ReadForm(s, k, rex, f) ==
              match ReadOperand(s, k, rex)
              case None => None
              case Some(o) => Finished(s, o.1, f, digit, RegOf(digit, (rex >> 2) & 1), o.0)
  {
    hide Read32, RegOf, ReadOperand;
  }

  /** The index register of a SIB byte; the value four stands for none, whatever REX.X says. */
  function SibIndex(sib: byte, rex: bv8): Option<Reg> {
    var si := (sib >> 3) & 7;
    if si != 4 then Some(RegOf(si, (rex >> 1) & 1)) else None
  }

  function SibScale(sib: byte): bv8 {
    1 << ((sib >> 6) & 3)
  }

  lemma SibParts(s: seq<byte>, k: nat, mod: bv8, rex: bv8)
    ensures k >= |s| ==> ReadMem(s, k, mod, 4, rex) == None
    ensures k < |s| ==>
              var index, scale, sb := SibIndex(s[k], rex), SibScale(s[k]), s[k] & 7;
              ReadMem(s, k, mod, 4, rex) ==
              if sb == 5 && mod == 0 then
                if k + 5 > |s| then None
                else Some((InMem(Mem(None, index, scale, Disp(true, Read32(s, k + 1)))), k + 5))
              else
                match ReadDisp(s, k + 1, mod)
                case None => None
                case Some(d) => Some((InMem(Mem(Some(RegOf(sb, rex & 1)), index, scale, d.0)), d.1))
  {
    hide Read32, RegOf, ReadDisp;
  }

  class Cursor {
    const bytes: seq<byte>
    var idx: nat
    var rex: bv8
    var w: bv8
    var r: bv8
    var b: bv8

    constructor (bytes: seq<byte>)
      ensures this.bytes == bytes && idx == 0 && rex == 0 && w == 0 && r == 0 && b == 0
    {
      this.bytes, idx := bytes, 0;
      rex, w, r, b := 0, 0, 0, 0;
    }

    /** The flags are the fields of the prefix; without one they are zero, and so is `rex`. */
    ghost predicate Flags()
      reads this
    {
      w == (rex >> 3) & 1 && r == (rex >> 2) & 1 && b == rex & 1
    }

    predicate Need(n: nat)
      reads this
    {
      idx + n <= |bytes|
    }

    method Imm32() returns (v: bv32)
      requires Need(4)
      modifies this`idx
      ensures v == Read32(bytes, old(idx)) && idx == old(idx) + 4
    {
      v := Read32(bytes, idx);
      idx := idx + 4;
    }

    /** The displacement that mod asks for. */
    method Displacement(mod: bv8) returns (d: Option<Disp>)
      modifies this`idx
      ensures ReadDisp(bytes, old(idx), mod) == if d.None? then None else Some((d.value, idx))
    {
      hide Read32, SignExtend8;
      var given, disp := false, 0 as bv32;
      if mod == 1 {
        if !Need(1) { return None; }
        disp, given := SignExtend8(bytes[idx]), true;
        idx := idx + 1;
      } else if mod == 2 {
        if !Need(4) { return None; }
        disp := Imm32();
        given := true;
      }
      return Some(Disp(given, disp));
    }

    /** The SIB byte and what follows it. */
    method Scaled(mod: bv8) returns (m: Option<Operand>)
      requires Flags()
      modifies this`idx
      ensures ReadMem(bytes, old(idx), mod, 4, rex) == if m.None? then None else Some((m.value, idx))
    {
      hide Read32, RegOf, ReadDisp, ReadMem, SibIndex, SibScale;
      SibParts(bytes, idx, mod, rex);
      if !Need(1) { return None; }
      var sib := bytes[idx];
      idx := idx + 1;
      var scale, index, sb := SibScale(sib), SibIndex(sib, rex), sib & 7;
      if sb == 5 && mod == 0 {
        if !Need(4) { return None; }
        var disp := Imm32();
        return Some(InMem(Mem(None, index, scale, Disp(true, disp))));
      }
      var base := RegOf(sb, b);
      var d := Displacement(mod);
      if d.None? { return None; }
      return Some(InMem(Mem(Some(base), index, scale, d.value)));
    }

    /** A memory operand: with SIB byte, relative to rip, or a base register. */
    method Memory(mod: bv8, rmf: bv8) returns (m: Option<Operand>)
      requires Flags() && rmf < 8
      modifies this`idx
      ensures ReadMem(bytes, old(idx), mod, rmf, rex) == if m.None? then None else Some((m.value, idx))
    {
      hide Read32, RegOf, ReadDisp;
      if rmf == 4 {
        m := Scaled(mod);
      } else if rmf == 5 && mod == 0 {
        if !Need(4) { return None; }
        var disp := Imm32();
        m := Some(RipRelative(disp));
      } else {
        var base := RegOf(rmf, b);
        var d := Displacement(mod);
        if d.None? { return None; }
        m := Some(InMem(Mem(Some(base), None, 1, d.value)));
      }
    }

    /** The ModR/M byte and the operand in its r/m field. */
    method RmOperand() returns (rm: Option<Operand>)
      requires Flags() && Need(1)
      modifies this`idx
      ensures ReadOperand(bytes, old(idx), rex) == if rm.None? then None else Some((rm.value, idx))
    {
      hide Read32, RegOf, ReadMem;
      var modrm := bytes[idx];
      idx := idx + 1;
      var mod, rmf := (modrm >> 6) & 3, modrm & 7;
      if mod != 3 {
        rm := Memory(mod, rmf);
      } else {
        rm := Some(InReg(RegOf(rmf, b)));
      }
    }

    /** The immediate that the flags ask for, and the order of the operands. */
    method Finish(form: Form, regf: bv8, reg: Reg, rm: Operand) returns (i: Option<Insn>)
      modifies this`idx
      ensures Finished(bytes, old(idx), form, regf, reg, rm) == if i.None? then None else Some((i.value, idx))
    {
      hide Read32, MnemonicOf;
      match form {
        case LoadForm(op) => i := Some(LLoad(op, reg, rm));
        case StoreForm(op) => i := Some(LStore(op, rm, reg));
        case MovImmForm =>
          if !Need(4) { return None; }
          var imm := Imm32();
          i := Some(LMovImm(rm, imm));
        case GroupForm(g) =>
          if g.Grp81? {
            if !Need(4) { return None; }
            var imm := Imm32();
            i := Some(LGroup32(MnemonicOf(g, regf), rm, imm));
          } else if g.GrpC1? {
            if !Need(1) { return None; }
            i := Some(LGroup8(MnemonicOf(g, regf), rm, bytes[idx]));
            idx := idx + 1;
          } else {
            i := Some(LGroup(MnemonicOf(g, regf), rm));
          }
      }
    }

    /** An opcode with a ModR/M byte; `form` holds the flags that the opcode sets. */
    method WithModRm(form: Form) returns (i: Option<Insn>)
      requires Flags()
      modifies this`idx
      ensures ReadForm(bytes, old(idx), rex, form) == if i.None? then None else Some((i.value, idx))
    {
      hide RegOf, ReadOperand, Finished, ReadForm;
      FormParts(bytes, idx, rex, form);
      if !Need(1) { return None; }
      var regf := (bytes[idx] >> 3) & 7;
      var reg := RegOf(regf, r);
      var rm := RmOperand();
      if rm.None? { return None; }
      i := Finish(form, regf, reg, rm.value);
    }

    /** The opcodes behind `0x0F`. */
    method TwoByte(pc: bv32) returns (i: Option<Insn>)
      requires Flags() && idx <= 2
      modifies this`idx
      ensures Read0F(pc, bytes, old(idx), rex) == if i.None? then None else Some((i.value, idx))
    {
      hide Read32, RegOf, Target;
      if !Need(1) { return None; }
      var o2 := bytes[idx];
      idx := idx + 1;
      if o2 == 0x05 { return Some(LZero(Syscall)); }
      if o2 == 0x07 { return Some(LZero(Sysret)); }
      if o2 == 0x0B { return Some(LZero(Ud2)); }
      if 0x80 <= o2 && o2 <= 0x8F {
        if !Need(4) { return None; }
        var off := Imm32();
        return Some(LJcc(o2 - 0x80, Target(pc, idx, off)));
      }
      if o2 == 0xAF {
        if !Need(1) { return None; }
        var mr := bytes[idx];
        idx := idx + 1;
        return Some(LImul(RegOf((mr >> 3) & 7, r), RegOf(mr & 7, b)));
      }
      return Some(LByte0F(o2));
    }

    /** Everything after the opcode byte. */
    method AfterOpcode(pc: bv32, op: byte) returns (i: Option<Insn>)
      requires Flags() && idx <= 2
      modifies this`idx
      ensures ReadOpcode(pc, bytes, old(idx), rex, op) == if i.None? then None else Some((i.value, idx))
    {
      hide Read32, Read64, RegOf, Target, ZeroOf, FormOf, ReadForm, Read0F;
      var z := ZeroOf(op);
      if z.Some? { return Some(LZero(z.value)); }
      if op == 0xCD || op == 0xE4 || op == 0xE6 {
        if !Need(1) { return None; }
        var imm := bytes[idx];
        idx := idx + 1;
        return Some(if op == 0xCD then LInt(imm) else if op == 0xE4 then LIn(imm) else LOut(imm));
      }
      if op == 0xE8 || op == 0xE9 {
        if !Need(4) { return None; }
        var off := Imm32();
        var t := Target(pc, idx, off);
        return Some(if op == 0xE8 then LCall(t) else LJmp(t));
      }
      if op == 0xEC { return Some(LInDx); }
      if op == 0xEE { return Some(LOutDx); }
      if 0x50 <= op && op <= 0x57 { return Some(LPush(RegOf(op - 0x50, b))); }
      if 0x58 <= op && op <= 0x5F { return Some(LPop(RegOf(op - 0x58, b))); }
      WideBit(rex);
      if w != 0 && 0xB8 <= op && op <= 0xBF {
        if !Need(8) { return None; }
        var v := Read64(bytes, idx);
        idx := idx + 8;
        return Some(LMovImm64(RegOf(op - 0xB8, b), v));
      }
      if op == 0x0F {
        i := TwoByte(pc);
        return;
      }
      var form := FormOf(op);
      if form.None? { return Some(LByte(op)); }
      i := WithModRm(form.value);
    }

    /** One instruction: the optional REX prefix sets the flags, then the opcode decides. */
    method Run(pc: bv32) returns (i: Option<Insn>)
      requires idx == 0 && rex == 0 && w == 0 && r == 0 && b == 0
      modifies this
      ensures Decode(pc, bytes) == if i.None? then None else Some((i.value, idx))
    {
      hide ReadOpcode;
      if |bytes| < 1 { return None; }
      if bytes[idx] & 0xF0 == 0x40 {
        rex := bytes[idx];
        idx := idx + 1;
        w, r, b := (rex >> 3) & 1, (rex >> 2) & 1, rex & 1;
        if idx >= |bytes| { return None; }
      }
      var op := bytes[idx];
      idx := idx + 1;
      i := AfterOpcode(pc, op);
    }
  }

  /** `x86_decode`: the instruction and the number of bytes it takes, or nothing when bytes are missing. */
  method DecodeNext(pc: bv32, bytes: seq<byte>) returns (d: Option<(Insn, nat)>)
    ensures d == Decode(pc, bytes)
  {
    hide Decode;
    var c := new Cursor(bytes);
    var i := c.Run(pc);
    d := if i.None? then None else Some((i.value, c.idx));
  }
}
