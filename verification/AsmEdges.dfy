/** Where the two passes of `rivet-as` stop agreeing: forward references that change a length, and a late `.arch`. */
module AsmEdges {
  import opened Basics
  import opened AsmSpec
  import opened AsmLengths
  import X86 = X86Syntax
  import X86E = X86Encode
  import Rv = Rv32Syntax
  import RvE = Rv32Encode

  // ---------- forward references, line by line ----------

  lemma WidenFits(a: bv32)
    ensures X86E.Fits32(Widen(a)) <==> a < 0x8000_0000
  {
  }

  /**
   `mov reg, sym` ahead of the symbol's definition has the same length in both passes exactly when
   the symbol's address is below 2^31.
   */
  lemma ForwardMoveExact(t: seq<Symbol>, s: seq<Symbol>, r: X86.Reg, n: string, here: bv32)
    requires Find(t, n).None? && Find(s, n).Some?
    ensures var st: X86Line := X86.Move(X86.R(r), X86.V(Sym(n)));
            var x, y := ResolveX86(t, Collect, st), ResolveX86(s, Emit, st);
            && x.Some? && y.Some?
            && X86E.Encode(x.value, here).Some? && X86E.Encode(y.value, here).Some?
            && (|X86E.Encode(x.value, here).value| == |X86E.Encode(y.value, here).value|
                <==> Find(s, n).value < 0x8000_0000)
  {
    hide X86E.Encode, X86E.Fits32, Widen, Find;
    MoveLength(r, 0, here);
    MoveLength(r, Widen(Find(s, n).value), here);
    WidenFits(Find(s, n).value);
    ZeroFits();
  }

  lemma ZeroFits()
    ensures X86E.Fits32(0)
  {
  }

  // ---------- a whole program ----------

  /** A forward `mov` and the label it names. */
  function ForwardMove(): seq<Line> {
    [Line([], Insn(Some(X86.Move(X86.R(0), X86.V(Sym("x")))), None)),
     Line(["x"], Insn(Some(X86.Plain(X86.Nop)), None))]
  }

  lemma PassTwo(p: PassNo, base: bv32, c: Cursor, a: Line, b: Line)
    requires c.pc <= MAX_PROG && Process(p, base, c, a).Some?
    requires Process(p, base, Process(p, base, c, a).value.0, b).Some?
    ensures var c1 := Process(p, base, c, a).value.0;
            var c2 := Process(p, base, c1, b).value.0;
            && Pass(p, base, c, [a, b]).Some?
            && Pass(p, base, c, [a, b]).value.end == c2 && Pass(p, base, c, [a, b]).value.pcs == [c.pc, c1.pc]
  {
    hide Process;
    var c1 := Process(p, base, c, a).value.0;
    var c2 := Process(p, base, c1, b).value.0;
    assert [a, b][1..] == [b] && [b][1..] == [];
    assert Pass(p, base, c2, []) == Some(Run(c2, [], []));
    assert Pass(p, base, c1, [b]).Some?;
    assert [c1.pc] + [] == [c1.pc] && [c.pc] + [c1.pc] == [c.pc, c1.pc];
  }

  /** The moving line: seven bytes or ten. */
  lemma MoveLine(p: PassNo, base: bv32, c: Cursor, v: bv64)
    requires c.pc == 0 && c.arch.X86_64? && Eval(c.syms, p, Sym("x")) == Some(v)
    ensures var r := Process(p, base, c, ForwardMove()[0]);
            && r.Some? && r.value.0.syms == c.syms && r.value.0.arch == c.arch
            && r.value.0.pc == if X86E.Fits32(v) then 7 else 10
  {
    hide X86E.Encode, X86E.Fits32, Eval, Address, Define;
    MoveLength(0, v, Address(base, 0));
  }

  lemma NopLine(p: PassNo, base: bv32, c: Cursor)
    requires c.pc < 100 && c.arch.X86_64?
    requires p.Collect? ==> c.syms == []
    ensures var r := Process(p, base, c, ForwardMove()[1]);
            && r.Some? && r.value.0.pc == c.pc + 1 && r.value.0.arch == c.arch
            && r.value.0.syms == if p.Collect? then [Symbol("x", Address(base, c.pc))] else c.syms
  {
    hide Address;
    assert ["x"][1..] == [];
  }

  /**
   At base 2^31 the first pass puts `x` seven bytes in and the second emits it ten bytes in: the
   recorded address is not where the statement's bytes land.
   */
  lemma ForwardMoveDisagrees()
    ensures var r := Assemble(0x8000_0000, X86_64, ForwardMove());
            && r.Some? && r.value.collect.pcs == [0, 7] && r.value.emit.pcs == [0, 10]
            && Find(r.value.emit.end.syms, "x") == Some(Address(0x8000_0000, 7))
  {
    hide Process, Pass, Address, X86E.Fits32;
    var base: bv32, c := 0x8000_0000, Cursor(0, 0, [], X86_64);
    var lines := ForwardMove();
    assert lines == [lines[0], lines[1]];
    ZeroFits();
    MoveLine(Collect, base, c, 0);
    var c1 := Process(Collect, base, c, lines[0]).value.0;
    NopLine(Collect, base, c1);
    PassTwo(Collect, base, c, lines[0], lines[1]);
    var d := Process(Collect, base, c1, lines[1]).value.0.(pc := 0);
    FarAddress();
    MoveLine(Emit, base, d, Widen(Address(base, 7)));
    NopLine(Emit, base, Process(Emit, base, d, lines[0]).value.0);
    PassTwo(Emit, base, d, lines[0], lines[1]);
  }

  lemma FarAddress()
    ensures !X86E.Fits32(Widen(Address(0x8000_0000, 7)))
  {
    assert Address(0x8000_0000, 7) == 0x8000_0007;
  }

  /** A forward displacement: `lea rax, [rbx + x]` and the label. */
  function ForwardDisp(): seq<Line> {
    [Line([], Insn(Some(X86.LoadAddress(0, X86.Mem(Some(3), None, 1, [Atom(false, Sym("x"))]))), None)),
     Line(["x"], Insn(Some(X86.Plain(X86.Nop)), None))]
  }

  lemma DispLine(p: PassNo, base: bv32, c: Cursor, v: bv64)
    requires c.pc == 0 && c.arch.X86_64? && Eval(c.syms, p, Sym("x")) == Some(v)
    ensures var r := Process(p, base, c, ForwardDisp()[0]);
            && r.Some? && r.value.0.syms == c.syms && r.value.0.arch == c.arch
            && r.value.0.pc == if X86E.Fits8(Accumulate(0, false, v)) then 4 else 7
  {
    hide X86E.MemForm, Eval, Address, Define, X86E.Fits8, Accumulate;
    var atoms := [Atom(false, Sym("x"))];
    assert atoms[..0] == [];
    assert EvalAtoms(c.syms, p, atoms) == Some(Accumulate(0, false, v));
    MemFormSize(0x8D, 0, X86.Mem(Some(3), None, 1, X86.Disp(true, Accumulate(0, false, v))));
  }

  /** At base 0x1000 the first pass puts `x` four bytes in and the second emits it seven bytes in. */
  lemma ForwardDispDisagrees()
    ensures var r := Assemble(0x1000, X86_64, ForwardDisp());
            && r.Some? && r.value.collect.pcs == [0, 4] && r.value.emit.pcs == [0, 7]
            && Find(r.value.emit.end.syms, "x") == Some(Address(0x1000, 4))
  {
    hide Process, Pass, Address, X86E.Fits8, Accumulate;
    var base: bv32, c := 0x1000, Cursor(0, 0, [], X86_64);
    var lines := ForwardDisp();
    assert lines == [lines[0], lines[1]] && lines[1] == ForwardMove()[1];
    NearAndFar();
    DispLine(Collect, base, c, 0);
    var c1 := Process(Collect, base, c, lines[0]).value.0;
    NopLine(Collect, base, c1);
    PassTwo(Collect, base, c, lines[0], lines[1]);
    var d := Process(Collect, base, c1, lines[1]).value.0.(pc := 0);
    DispLine(Emit, base, d, Widen(Address(base, 4)));
    NopLine(Emit, base, Process(Emit, base, d, lines[0]).value.0);
    PassTwo(Emit, base, d, lines[0], lines[1]);
  }

  lemma NearAndFar()
    ensures X86E.Fits8(Accumulate(0, false, 0)) && !X86E.Fits8(Accumulate(0, false, Widen(Address(0x1000, 4))))
  {
    assert Address(0x1000, 4) == 0x1004;
  }

  /** A forward count: `.zero x` and the label. */
  function ForwardFill(): seq<Line> {
    [Line([], Fill(Sym("x"), Lit(0))), Line(["x"], Insn(Some(X86.Plain(X86.Nop)), None))]
  }

  lemma FillLine(p: PassNo, base: bv32, c: Cursor, v: bv64)
    requires c.pc == 0 && Eval(c.syms, p, Sym("x")) == Some(v) && Unsigned32(v) <= MAX_PROG
    ensures var r := Process(p, base, c, ForwardFill()[0]);
            r.Some? && r.value.0.syms == c.syms && r.value.0.arch == c.arch && r.value.0.pc == Unsigned32(v)
  {
    hide Address, Unsigned32, Define, Eval, Repeat;
    assert Eval(c.syms, p, Lit(0)) == Some(0) by { LiteralIs(c.syms, p); }
  }

  lemma LiteralIs(syms: seq<Symbol>, p: PassNo)
    ensures Eval(syms, p, Lit(0)) == Some(0)
  {
  }

  /** At base 16 the first pass puts `x` at the start and the second emits it sixteen bytes in. */
  lemma ForwardFillDisagrees()
    ensures var r := Assemble(16, X86_64, ForwardFill());
            && r.Some? && r.value.collect.pcs == [0, 0] && r.value.emit.pcs == [0, 16]
            && Find(r.value.emit.end.syms, "x") == Some(Address(16, 0))
  {
    hide Process, Pass, Address, Unsigned32;
    var base: bv32, c := 16, Cursor(0, 0, [], X86_64);
    var lines := ForwardFill();
    assert lines == [lines[0], lines[1]] && lines[1] == ForwardMove()[1];
    Counts();
    FillLine(Collect, base, c, 0);
    var c1 := Process(Collect, base, c, lines[0]).value.0;
    NopLine(Collect, base, c1);
    PassTwo(Collect, base, c, lines[0], lines[1]);
    var d := Process(Collect, base, c1, lines[1]).value.0.(pc := 0);
    FillLine(Emit, base, d, Widen(Address(base, 0)));
    NopLine(Emit, base, Process(Emit, base, d, lines[0]).value.0);
    PassTwo(Emit, base, d, lines[0], lines[1]);
  }

  lemma Counts()
    ensures Unsigned32(0) == 0 && Unsigned32(Widen(Address(16, 0))) == 16
  {
    assert Address(16, 0) == 16;
  }

  // ---------- a late `.arch` ----------

  function LateArch(): seq<Line> {
    [Line([], Insn(Some(X86.Plain(X86.Nop)), Some(Rv.Nop))), Line([], SelectArch(Riscv32))]
  }

  lemma NopEither(p: PassNo, base: bv32, c: Cursor)
    requires c.pc == 0
    ensures var r := Process(p, base, c, LateArch()[0]);
            && r.Some? && r.value.0.pc == (if c.arch.X86_64? then 1 else 4)
            && r.value.0.syms == c.syms && r.value.0.arch == c.arch
  {
    hide Address, RvE.EncodeWord, RvE.Expand;
  }

  lemma SelectLine(p: PassNo, base: bv32, c: Cursor)
    requires c.pc <= MAX_PROG
    ensures var r := Process(p, base, c, LateArch()[1]);
            && r.Some? && r.value.0.pc == c.pc && r.value.0.syms == c.syms && r.value.0.arch == Riscv32
  {
  }

  /** An instruction before `.arch` is assembled for one backend in the first pass and for another in the second. */
  lemma LateArchDisagrees(base: bv32)
    ensures var r := Assemble(base, X86_64, LateArch());
            r.Some? && r.value.collect.pcs == [0, 1] && r.value.emit.pcs == [0, 4]
  {
    hide Process, Pass;
    var c := Cursor(0, 0, [], X86_64);
    var lines := LateArch();
    assert lines == [lines[0], lines[1]];
    NopEither(Collect, base, c);
    var c1 := Process(Collect, base, c, lines[0]).value.0;
    SelectLine(Collect, base, c1);
    PassTwo(Collect, base, c, lines[0], lines[1]);
    var d := Process(Collect, base, c1, lines[1]).value.0.(pc := 0);
    NopEither(Emit, base, d);
    SelectLine(Emit, base, Process(Emit, base, d, lines[0]).value.0);
    PassTwo(Emit, base, d, lines[0], lines[1]);
  }
}
