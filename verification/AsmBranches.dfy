/** From a branch in the source to the address the disassembler prints for it. */
module AsmBranches {
  import opened Basics
  import opened Words
  import opened AsmSpec
  import opened AsmTwoPass
  import opened AsmExact
  import X86 = X86Syntax
  import X86E = X86Encode
  import X86D = X86Decode
  import X86R = X86RoundTrip
  import Rv = Rv32Syntax
  import RvE = Rv32Encode
  import RvD = Rv32Decode
  import RvR = Rv32RoundTrip

  /** The file that `main` writes: the buffer up to the highest counter reached. */
  ghost function Output(r: Assembly): seq<byte>
    requires Fit(r.collect.writes, MAX_PROG) && Fit(r.emit.writes, MAX_PROG) && r.emit.end.maxPc <= MAX_PROG
  {
    Image(r)[..r.emit.end.maxPc]
  }

  /** No line after `k` writes over the bytes of line `k`. */
  predicate Untouched(writes: seq<Write>, k: nat)
    requires k < |writes|
  {
    forall j | k < j < |writes| ::
      writes[j].at + |writes[j].bytes| <= writes[k].at || writes[k].at + |writes[k].bytes| <= writes[j].at
  }

  lemma {:induction false} BytesRemain(buf: seq<byte>, writes: seq<Write>, k: nat)
    requires Fit(writes, |buf|) && k < |writes| && Untouched(writes, k)
    ensures At(Apply(buf, writes), writes[k].at, writes[k].bytes)
  {
    var w := writes[k];
    var after := Apply(buf, writes);
    forall i | 0 <= i < |w.bytes| ensures after[w.at + i] == w.bytes[i] {
      LastWriteWins(buf, writes, k, w.at + i);
    }
  }

  lemma {:induction false} LastWriteWins(buf: seq<byte>, writes: seq<Write>, k: nat, i: nat)
    requires Fit(writes, |buf|) && k < |writes| && Untouched(writes, k)
    requires writes[k].at <= i < writes[k].at + |writes[k].bytes|
    ensures Apply(buf, writes)[i] == writes[k].bytes[i - writes[k].at]
    decreases |writes|
  {
    var rest := writes[1..];
    assert Fit(rest, |buf|);
    if k == 0 {
      PutAt(buf, writes[0], i);
      assert !Covered(rest, i) by {
        assert forall j | 0 <= j < |rest| :: rest[j] == writes[j + 1];
      }
      ApplyAt(Put(buf, writes[0]), Put(buf, writes[0]), rest, i);
    } else {
      assert rest[k - 1] == writes[k];
      assert forall j | k - 1 < j < |rest| :: rest[j] == writes[j + 1];
      LastWriteWins(Put(buf, writes[0]), rest, k - 1, i);
    }
  }

  lemma {:induction false} WithinHighWater(m: nat, writes: seq<Write>, k: nat)
    requires k < |writes|
    ensures writes[k].at + |writes[k].bytes| <= HighWater(m, writes)
    decreases |writes|
  {
    var m' := Max(m, writes[0].at + |writes[0].bytes|);
    HighWaterMonotone(m', m', writes[1..]);
    if k > 0 {
      WithinHighWater(m', writes[1..], k - 1);
    }
  }

  lemma {:induction false} HighWaterBound(m: nat, writes: seq<Write>, n: nat)
    requires m <= n && Fit(writes, n)
    ensures HighWater(m, writes) <= n
    decreases |writes|
  {
    if writes != [] {
      HighWaterBound(Max(m, writes[0].at + |writes[0].bytes|), writes[1..], n);
    }
  }

  /** What the emitting pass writes for line `k`. */
  lemma {:induction false} EmittedBytes(base: bv32, d: Cursor, lines: seq<Line>, k: nat)
    requires d.pc <= MAX_PROG && Pass(Emit, base, d, lines).Some? && k < |lines|
    ensures var q := Pass(Emit, base, d, lines).value;
            && q.pcs[k] <= MAX_PROG && q.writes[k].at == q.pcs[k]
            && BodyOut(d.syms, Emit, LastArch(d.arch, lines[..k]), base, q.pcs[k], lines[k].body).Some?
            && q.writes[k].bytes ==
                BodyOut(d.syms, Emit, LastArch(d.arch, lines[..k]), base, q.pcs[k], lines[k].body).value.bytes
    decreases |lines|
  {
    hide BodyOut, Eval, Define, Address;
    if k > 0 {
      var d' := Process(Emit, base, d, lines[0]).value.0;
      assert lines[..k][0] == lines[0] && lines[..k][1..] == lines[1..][..k - 1];
      EmittedBytes(base, d', lines[1..], k - 1);
    }
  }

  /**
   A line the theorems speak of: in a program whose passes agree, an instruction that the second pass
   assembles with backend `on` and whose bytes no later line overwrites.
   */
  ghost predicate Placed(base: bv32, arch: Arch, lines: seq<Line>, k: nat, on: Arch) {
    && Agrees(base, arch, lines)
    && k < |lines| && lines[k].body.Insn? && LastArch(LastArch(arch, lines), lines[..k]) == on
    && Untouched(Assemble(base, arch, lines).value.emit.writes, k)
  }

  /** In a program whose passes agree, the bytes of a line that no later line overwrites stand at its own address. */
  lemma LineInOutput(base: bv32, arch: Arch, lines: seq<Line>, k: nat)
    requires Agrees(base, arch, lines) && k < |lines|
    requires Untouched(Assemble(base, arch, lines).value.emit.writes, k)
    ensures var r := Assemble(base, arch, lines).value;
            var on := LastArch(LastArch(arch, lines), lines[..k]);
            && Fit(r.collect.writes, MAX_PROG) && Fit(r.emit.writes, MAX_PROG) && r.emit.end.maxPc <= MAX_PROG
            && r.emit.writes[k].at == r.emit.pcs[k] <= |Output(r)|
            && var pc := r.emit.writes[k].at;
            && BodyOut(r.emit.end.syms, Emit, on, base, pc, lines[k].body).Some?
            && r.emit.writes[k].bytes == BodyOut(r.emit.end.syms, Emit, on, base, pc, lines[k].body).value.bytes
            && At(Output(r)[pc..], 0, r.emit.writes[k].bytes)
  {
    hide Pass, Process, AllAlike, Apply, Eval, BodyOut;
    var r := Assemble(base, arch, lines).value;
    var d := r.collect.end.(pc := 0);
    AgreedImage(base, arch, lines);
    PassArch(Collect, base, Cursor(0, 0, [], arch), lines);
    EmittedBytes(base, d, lines, k);
    BytesRemain(Repeat<byte>(MAX_PROG, 0), r.emit.writes, k);
    WithinHighWater(0, r.emit.writes, k);
    HighWaterBound(0, r.emit.writes, MAX_PROG);
    SliceAt(Image(r), r.emit.end.maxPc, r.emit.writes[k].at, r.emit.writes[k].bytes);
  }

  /** The bytes of a placed instruction stand in the output at its own address. */
  lemma InstructionInOutput(base: bv32, arch: Arch, lines: seq<Line>, k: nat, on: Arch)
    requires Placed(base, arch, lines, k, on)
    ensures var r := Assemble(base, arch, lines).value;
            && Fit(r.collect.writes, MAX_PROG) && Fit(r.emit.writes, MAX_PROG) && r.emit.end.maxPc <= MAX_PROG
            && r.emit.writes[k].at <= |Output(r)|
            && var pc := r.emit.writes[k].at;
            && InsnOut(r.emit.end.syms, Emit, on, base, pc, lines[k].body).Some?
            && r.emit.writes[k].bytes == InsnOut(r.emit.end.syms, Emit, on, base, pc, lines[k].body).value.bytes
            && At(Output(r)[pc..], 0, r.emit.writes[k].bytes)
  {
    hide Pass, Process, Agrees, Eval, InsnOut, Output, At, Untouched;
    LineInOutput(base, arch, lines, k);
  }

  lemma SliceAt(s: seq<byte>, n: nat, k: nat, piece: seq<byte>)
    requires At(s, k, piece) && k + |piece| <= n <= |s|
    ensures At(s[..n][k..], 0, piece)
  {
    assert s[..n][k..][0..|piece|] == s[k..k + |piece|];
  }

  lemma Widened(a: bv32)
    ensures Low32(Widen(a)) == a
  {
  }

  /** A label operand evaluates, in the emitting pass, to the address where the label's line lands. */
  lemma LabelValue(base: bv32, arch: Arch, lines: seq<Line>, j: nat, i: nat)
    requires Agrees(base, arch, lines)
    requires j < |lines| && i < |lines[j].labels| && |lines[j].labels[i]| <= NAME_CAP
    ensures var r := Assemble(base, arch, lines).value;
            && r.emit.writes[j].at <= MAX_PROG
            && var v := Eval(r.emit.end.syms, Emit, Sym(lines[j].labels[i]));
            v.Some? && Low32(v.value) == Address(base, r.emit.writes[j].at)
  {
    hide Low32, Widen, Address, Find, Pass, AllAlike;
    LabelLands(base, arch, lines, j, i);
    Widened(Address(base, Assemble(base, arch, lines).value.emit.writes[j].at));
  }

  /**
   A `jmp`, `call` or conditional jump to a label, decoded at its own address in the output, is listed
   with the label's address.
   */
  lemma X86BranchResolves(base: bv32, arch: Arch, lines: seq<Line>, k: nat, j: nat, i: nat)
    requires Placed(base, arch, lines, k, X86_64) && lines[k].body.x86.Some?
    requires j < |lines| && i < |lines[j].labels| && |lines[j].labels[i]| <= NAME_CAP
    requires var st := lines[k].body.x86.value;
             (st.Jump? || st.Call? || st.JumpIf?) && st.target == Sym(lines[j].labels[i])
    ensures var r := Assemble(base, arch, lines).value;
            var st := lines[k].body.x86.value;
            && Fit(r.collect.writes, MAX_PROG) && Fit(r.emit.writes, MAX_PROG) && r.emit.end.maxPc <= MAX_PROG
            && r.emit.writes[k].at <= |Output(r)| && r.emit.writes[j].at <= MAX_PROG
            && var d := X86D.Decode(Address(base, r.emit.writes[k].at), Output(r)[r.emit.writes[k].at..]);
            && var to := Address(base, r.emit.writes[j].at);
            && d.Some? && d.value.1 == |r.emit.writes[k].bytes|
            && d.value.0 == if st.Jump? then X86.LJmp(to) else if st.Call? then X86.LCall(to) else X86.LJcc(st.cc, to)
  {
    hide Output, At, X86D.Decode, X86E.Encode, Eval, Low32, Address, Pass, AllAlike, Apply;
    var r := Assemble(base, arch, lines).value;
    InstructionInOutput(base, arch, lines, k, X86_64);
    LabelValue(base, arch, lines, j, i);
    var pc := r.emit.writes[k].at;
    var st := ResolveX86(r.emit.end.syms, Emit, lines[k].body.x86.value).value;
    X86R.StatementRoundTrip(Address(base, pc), Output(r)[pc..], st);
  }

  /** The target operand of the RV32 jumps and branches. */
  function RvTarget(src: RvLine): Option<Expr> {
    match src
    case J(e) => Some(e)
    case Real(Jal(_, e)) => Some(e)
    case Real(Branch(_, _, _, e)) => Some(e)
    case _ => None
  }

  function ListedTarget(i: Rv.Insn): Option<bv32> {
    match i
    case LJal(_, t) => Some(t)
    case LBranch(_, _, _, t) => Some(t)
    case _ => None
  }

  predicate Reaches(src: RvLine, distance: bv32) {
    if src.Real? && src.st.Branch? then RvR.Branchable(distance) else RvR.Jumpable(distance)
  }

  /**
   An RV32 branch, `jal` or `j` to a label, decoded at its own address in the output, is listed with
   the label's address exactly when the distance fits its offset field.
   */
  lemma RvBranchResolves(base: bv32, arch: Arch, lines: seq<Line>, k: nat, j: nat, i: nat)
    requires Placed(base, arch, lines, k, Riscv32) && lines[k].body.rv.Some?
    requires j < |lines| && i < |lines[j].labels| && |lines[j].labels[i]| <= NAME_CAP
    requires RvTarget(lines[k].body.rv.value) == Some(Sym(lines[j].labels[i]))
    ensures var r := Assemble(base, arch, lines).value;
            && Fit(r.collect.writes, MAX_PROG) && Fit(r.emit.writes, MAX_PROG) && r.emit.end.maxPc <= MAX_PROG
            && r.emit.writes[k].at <= |Output(r)| && r.emit.writes[j].at <= MAX_PROG
            && var here, to := Address(base, r.emit.writes[k].at), Address(base, r.emit.writes[j].at);
            && var d := RvD.Decode(here, Output(r)[r.emit.writes[k].at..]);
            && d.Some? && d.value.1 == 4 && ListedTarget(d.value.0).Some?
            && (ListedTarget(d.value.0) == Some(to) <==> Reaches(lines[k].body.rv.value, Distance(here, to)))
  {
    hide Output, At, RvD.Decode, RvE.Encode, RvR.ListedSource, Eval, Low32, Address, Pass, AllAlike, Apply,
         RvTarget, ListedTarget, Reaches, ResolveRv, Distance;
    var r := Assemble(base, arch, lines).value;
    InstructionInOutput(base, arch, lines, k, Riscv32);
    LabelValue(base, arch, lines, j, i);
    var pc := r.emit.writes[k].at;
    var src := ResolveRv(r.emit.end.syms, Emit, lines[k].body.rv.value).value;
    RvR.StatementRoundTrip(Address(base, pc), Output(r)[pc..], src);
    RvListedTarget(r.emit.end.syms, lines[k].body.rv.value, Address(base, pc), Address(base, r.emit.writes[j].at));
  }

  lemma RvListedTarget(syms: seq<Symbol>, src: RvLine, here: bv32, to: bv32)
    requires RvTarget(src).Some? && ResolveRv(syms, Emit, src).Some?
    requires Eval(syms, Emit, RvTarget(src).value).Some? && Low32(Eval(syms, Emit, RvTarget(src).value).value) == to
    ensures var t := ListedTarget(RvR.ListedSource(ResolveRv(syms, Emit, src).value, here));
            t.Some? && (t == Some(to) <==> Reaches(src, Distance(here, to)))
  {
    hide Eval, Low32, RvR.Branchable, RvR.Jumpable, RvR.Kept12, RvR.Kept13, RvR.Kept21, Plus, Distance;
    RvR.BranchTargetExact(here, to);
  }
}
