/**
 The assembler of `rivet-as.c` as it runs: location counter, symbol table and program buffer, twice
 over the lines.
 */
module Assembler {
  import opened Basics
  import opened Words
  import opened Bits
  import opened AsmSpec
  import opened AsmTwoPass

  lemma PutGrows(buf: seq<byte>, at: nat, bytes: seq<byte>, b: byte)
    requires at + |bytes| < |buf|
    ensures Put(buf, Write(at, bytes))[at + |bytes| := b] == Put(buf, Write(at, bytes + [b]))
  {
  }

  lemma PutNothing(buf: seq<byte>, at: nat)
    requires at <= |buf|
    ensures Put(buf, Write(at, [])) == buf
  {
  }

  class Assembler {
    const base: bv32
    const prog: array<byte>
    var pc: nat
    var maxPc: nat
    var pass: PassNo
    var syms: seq<Symbol>
    var arch: Arch

    ghost predicate Valid()
      reads this`pc, this`maxPc
    {
      prog.Length == MAX_PROG && pc <= maxPc <= MAX_PROG
    }

    ghost function State(): Cursor
      reads this`pc, this`maxPc, this`syms, this`arch
    {
      Cursor(pc, maxPc, syms, arch)
    }

    constructor (base: bv32, arch: Arch)
      ensures Valid() && fresh(prog) && this.base == base && pass == Collect
      ensures State() == Cursor(0, 0, [], arch) && prog[..] == Repeat<byte>(MAX_PROG, 0)
    {
      this.base, this.arch := base, arch;
      pc, maxPc, pass, syms := 0, 0, Collect, [];
      prog := new byte[MAX_PROG](i => 0);
    }

    /** What emitting `bytes` from the counter on leaves behind. */
    twostate predicate Emitted(at: nat, bytes: seq<byte>)
      reads this`pc, this`maxPc, prog
    {
      && at + |bytes| <= prog.Length
      && prog[..] == Put(old(prog[..]), Write(at, bytes))
      && pc == at + |bytes| && maxPc == Max(old(maxPc), pc)
    }

    method EmitU8(b: byte) returns (ok: bool)
      requires Valid()
      modifies this`pc, this`maxPc, prog
      ensures Valid()
      ensures ok <==> old(pc) < MAX_PROG
      ensures ok ==> prog[..] == old(prog[..])[old(pc) := b] && pc == old(pc) + 1 && maxPc == Max(old(maxPc), pc)
      ensures !ok ==> prog[..] == old(prog[..]) && pc == old(pc) && maxPc == old(maxPc)
    {
      if pc >= MAX_PROG { return false; }
      prog[pc] := b;
      pc := pc + 1;
      if pc > maxPc { maxPc := pc; }
      ok := true;
    }

    /** Bytes one after the other; stops with an error at the end of the buffer. */
    method EmitBytes(bytes: seq<byte>) returns (ok: bool)
      requires Valid()
      modifies this`pc, this`maxPc, prog
      ensures Valid()
      ensures ok <==> old(pc) + |bytes| <= MAX_PROG
      ensures ok ==> Emitted(old(pc), bytes)
    {
      hide Put;
      PutNothing(prog[..], pc);
      assert bytes[..0] == [];
      for i := 0 to |bytes|
        invariant Valid() && old(pc) + i <= MAX_PROG && Emitted(old(pc), bytes[..i])
      {
        ok := EmitU8(bytes[i]);
        if !ok { return; }
        PutGrows(old(prog[..]), old(pc), bytes[..i], bytes[i]);
        assert bytes[..i + 1] == bytes[..i] + [bytes[i]];
      }
      assert bytes[..|bytes|] == bytes;
      ok := true;
    }

    /** `.zero`, and the zeros of `.org`: `n` copies of one byte. */
    method EmitRepeat(n: nat, b: byte) returns (ok: bool)
      requires Valid()
      modifies this`pc, this`maxPc, prog
      ensures Valid()
      ensures ok <==> old(pc) + n <= MAX_PROG
      ensures ok ==> Emitted(old(pc), Repeat(n, b))
    {
      hide Repeat, Put;
      PutNothing(prog[..], pc);
      RepeatNone(b);
      for i := 0 to n
        invariant Valid() && old(pc) + i <= MAX_PROG && Emitted(old(pc), Repeat(i, b))
      {
        ok := EmitU8(b);
        if !ok { return; }
        PutGrows(old(prog[..]), old(pc), Repeat(i, b), b);
        RepeatGrows(i, b);
      }
      ok := true;
    }

    /** `while (pc & (a - 1)) emit(0)` */
    method EmitAlign(a: nat) returns (ok: bool)
      requires Valid() && a > 0
      modifies this`pc, this`maxPc, prog
      ensures Valid()
      ensures ok <==> old(pc) + AlignPad(old(pc), a) <= MAX_PROG
      ensures ok ==> Emitted(old(pc), Repeat<byte>(AlignPad(old(pc), a), 0))
    {
      hide Repeat, Put;
      PutNothing(prog[..], pc);
      RepeatNone<byte>(0);
      ghost var k := 0;
      while And(pc, a - 1) != 0
        invariant Valid() && Emitted(old(pc), Repeat<byte>(k, 0))
        invariant AlignPad(old(pc), a) == k + AlignPad(pc, a)
        decreases MAX_PROG - pc
      {
        ok := EmitU8(0);
        if !ok { return; }
        PutGrows(old(prog[..]), old(pc), Repeat<byte>(k, 0), 0);
        RepeatGrows<byte>(k, 0);
        k := k + 1;
      }
      ok := true;
    }

    /** `.byte`, `.half`, `.word` and `.quad`: one immediate after the other. */
    method EmitData(w: Width, items: seq<Expr>) returns (ok: bool)
      requires Valid()
      modifies this`pc, this`maxPc, prog
      ensures Valid()
      ensures var vs := EvalAll(syms, pass, items);
              && (ok <==> vs.Some? && old(pc) + |DataBytes(w, vs.value)| <= MAX_PROG)
              && (ok ==> Emitted(old(pc), DataBytes(w, vs.value)))
    {
      hide Eval, ItemBytes, Put, DataBytes, EvalAll;
      PutNothing(prog[..], pc);
      ghost var done: seq<bv64> := [];
      NoData(w, syms, pass);
      assert items[..0] == [];
      for i := 0 to |items|
        invariant Valid() && EvalAll(syms, pass, items[..i]) == Some(done)
        invariant old(pc) + |DataBytes(w, done)| <= MAX_PROG && Emitted(old(pc), DataBytes(w, done))
      {
        EvalAllSnoc(syms, pass, items, i);
        var v := Eval(syms, pass, items[i]);
        if v.None? { return false; }
        DataSnoc(w, done, v.value);
        if EvalAll(syms, pass, items).Some? {
          DataPrefix(w, syms, pass, items, i + 1);
        }
        ghost var so := DataBytes(w, done);
        ok := EmitBytes(ItemBytes(w, v.value));
        if !ok { return; }
        PutTwice(old(prog[..]), old(pc), so, ItemBytes(w, v.value));
        done := done + [v.value];
      }
      assert items[..|items|] == items;
      ok := true;
    }

    /** `riv_as_sym_set` in the collecting pass. */
    method SetSymbol(n: string, v: bv32) returns (ok: bool)
      modifies this`syms
      ensures ok <==> Define(old(syms), n, v).Some?
      ensures syms == if ok then Define(old(syms), n, v).value else old(syms)
    {
      var i := Find(syms, n);
      if i.Some? || |syms| >= MAX_SYM { return false; }
      syms := syms + [Symbol(Stored(n), v)];
      ok := true;
    }

    method SetLabels(labels: seq<string>) returns (ok: bool)
      requires pc <= MAX_PROG
      modifies this`syms
      ensures ok <==> DefineAll(old(syms), labels, Address(base, pc)).Some?
      ensures ok ==> syms == DefineAll(old(syms), labels, Address(base, pc)).value
    {
      hide Address, Define;
      var i := 0;
      while i < |labels|
        invariant 0 <= i <= |labels|
        invariant DefineAll(syms, labels[i..], Address(base, pc)) == DefineAll(old(syms), labels, Address(base, pc))
      {
        assert labels[i..][0] == labels[i] && labels[i..][1..] == labels[i + 1..];
        ok := SetSymbol(labels[i], Address(base, pc));
        if !ok { return; }
        i := i + 1;
      }
      ok := true;
    }

    /** The body of a line: a directive or an instruction. */
    method ProcessBody(b: Body) returns (ok: bool)
      requires Valid()
      modifies this`pc, this`maxPc, prog
      ensures Valid()
      ensures var out := BodyOut(syms, pass, arch, base, old(pc), b);
              && (ok <==> out.Some? && old(pc) + |out.value.bytes| <= MAX_PROG)
              && (ok ==> && prog[..] == Put(old(prog[..]), Write(old(pc), out.value.bytes))
                         && pc == out.value.next && maxPc == Max(old(maxPc), old(pc) + |out.value.bytes|))
    {
      hide Eval, EvalAll, DataBytes, AlignPad, InsnOut, OrgTarget, Unsigned32, Pow2, Put;
      ok := true;
      match b
      case Org(e) =>
        var v := Eval(syms, pass, e);
        if v.None? { return false; }
        var newpc := OrgTarget(v.value, base);
        ok := EmitForward(newpc);
        if !ok { return; }
        pc := newpc;
      case Data(w, es) =>
        ok := EmitData(w, es);
      case Fill(n, v) =>
        var cnt, fill := Eval(syms, pass, n), Eval(syms, pass, v);
        if cnt.None? || fill.None? { return false; }
        ok := EmitRepeat(Unsigned32(cnt.value), Low8(fill.value));
      case Text(bytes) =>
        ok := EmitBytes(bytes);
      case Align(e) =>
        var v := Eval(syms, pass, e);
        if v.None? { return false; }
        var a := Unsigned32(v.value);
        ok := EmitAlign(if a < 1 then 1 else a);
      case P2Align(e) =>
        var v := Eval(syms, pass, e);
        if v.None? || Unsigned32(v.value) >= 32 { return false; }
        ok := EmitAlign(Pow2(Unsigned32(v.value)));
      case Insn(_, _) =>
        var out := InsnOut(syms, pass, arch, base, pc, b);
        if out.None? { return false; }
        ok := EmitBytes(out.value.bytes);
      case _ =>
        PutNothing(prog[..], pc);
    }

    /** `while (pc < newpc) emit(0)` */
    method EmitForward(newpc: nat) returns (ok: bool)
      requires Valid()
      modifies this`pc, this`maxPc, prog
      ensures Valid()
      ensures var out := OrgOut(old(pc), newpc);
              && (ok <==> old(pc) + |out.bytes| <= MAX_PROG)
              && (ok ==> prog[..] == Put(old(prog[..]), Write(old(pc), out.bytes)) && newpc <= pc
                         && maxPc == Max(old(maxPc), old(pc) + |out.bytes|))
    {
      hide Repeat, Put;
      PutNothing(prog[..], pc);
      RepeatNone<byte>(0);
      ghost var k := 0;
      while pc < newpc
        invariant Valid() && old(pc) + k == pc && (k > 0 ==> pc <= newpc) && Emitted(old(pc), Repeat<byte>(k, 0))
        decreases newpc - pc
      {
        ok := EmitU8(0);
        if !ok { return; }
        PutGrows(old(prog[..]), old(pc), Repeat<byte>(k, 0), 0);
        RepeatGrows<byte>(k, 0);
        k := k + 1;
      }
      ok := true;
    }

    /** One source line in the current pass. */
    method ProcessLine(ln: Line) returns (ok: bool)
      requires Valid()
      modifies this`pc, this`maxPc, this`syms, this`arch, prog
      ensures Valid()
      ensures var r := Process(pass, base, old(State()), ln);
              && (ok <==> r.Some?)
              && (ok ==> State() == r.value.0 && prog[..] == Put(old(prog[..]), r.value.1))
    {
      hide BodyOut, Put, Eval, DefineAll, Define, Address;
      if pass.Collect? {
        ok := SetLabels(ln.labels);
        if !ok { return; }
      }
      ghost var named := syms;
      ok := ProcessBody(ln.body);
      if !ok { return; }
      match ln.body
      case SelectArch(a) => arch := a;
      case Equ(n, e) =>
        if pass.Collect? {
          var v := Eval(syms, pass, e);
          if v.None? { return false; }
          ok := SetSymbol(n, Low32(v.value));
        }
      case _ =>
    }

    /** `assemble_file`: one pass over all lines, from counter 0. */
    method AssembleFile(lines: seq<Line>) returns (ok: bool)
      requires Valid()
      modifies this`pc, this`maxPc, this`syms, this`arch, prog
      ensures Valid()
      ensures var r := Pass(pass, base, old(State()).(pc := 0), lines);
              && (ok <==> r.Some?)
              && (ok ==> State() == r.value.end && Fit(r.value.writes, MAX_PROG)
                         && prog[..] == Apply(old(prog[..]), r.value.writes))
    {
      hide Process, Put;
      pc := 0;
      ghost var start := State();
      ghost var writes: seq<Write> := [];
      for i := 0 to |lines|
        invariant Valid() && Fit(writes, MAX_PROG)
        invariant prog[..] == Apply(old(prog[..]), writes)
        invariant Resumes(pass, base, start, lines, State(), lines[i..], writes)
      {
        assert lines[i..][0] == lines[i] && lines[i..][1..] == lines[i + 1..];
        ghost var r := Process(pass, base, State(), lines[i]);
        ghost var was := State();
        ResumeStep(pass, base, start, lines, was, lines[i..], writes);
        ok := ProcessLine(lines[i]);
        if !ok { return; }
        ApplySnoc(old(prog[..]), writes, r.value.1);
        writes := writes + [r.value.1];
      }
      assert lines[|lines|..] == [] && writes + [] == writes;
      ok := true;
    }

    /** `main`: both passes, then the bytes that go to the file. */
    method Assemble(lines: seq<Line>) returns (ok: bool, out: seq<byte>)
      requires Valid() && State() == Cursor(0, 0, [], arch) && prog[..] == Repeat<byte>(MAX_PROG, 0)
      modifies this, prog
      ensures var r := AsmSpec.Assemble(base, old(arch), lines);
              && (ok <==> r.Some?)
              && (ok ==> && Fit(r.value.collect.writes, MAX_PROG) && Fit(r.value.emit.writes, MAX_PROG)
                         && r.value.emit.end.maxPc <= MAX_PROG
                         && out == Image(r.value)[..r.value.emit.end.maxPc])
    {
      hide Pass, Apply;
      out := [];
      pass := Collect;
      ok := AssembleFile(lines);
      if !ok { return; }
      pass := Emit;
      ok := AssembleFile(lines);
      if !ok { return; }
      out := prog[..maxPc];
    }
  }

  /** A pass that started at `c` over `all` has made `writes` and goes on from `now` with `rest`. */
  ghost predicate Resumes(p: PassNo, base: bv32, c: Cursor, all: seq<Line>, now: Cursor, rest: seq<Line>,
      writes: seq<Write>) {
    && c.pc <= MAX_PROG && now.pc <= MAX_PROG
    && var whole, tail := Pass(p, base, c, all), Pass(p, base, now, rest);
    && (whole.Some? <==> tail.Some?)
    && (whole.Some? ==> whole.value.end == tail.value.end && whole.value.writes == writes + tail.value.writes)
  }

  lemma ResumeStep(p: PassNo, base: bv32, c: Cursor, all: seq<Line>, now: Cursor, rest: seq<Line>, writes: seq<Write>)
    requires Resumes(p, base, c, all, now, rest, writes) && rest != []
    ensures var r := Process(p, base, now, rest[0]);
            if r.Some? then Resumes(p, base, c, all, r.value.0, rest[1..], writes + [r.value.1])
            else Pass(p, base, c, all).None?
  {
    hide Process;
    var r := Process(p, base, now, rest[0]);
    if r.Some? && Pass(p, base, now, rest).Some? {
      var tail := Pass(p, base, r.value.0, rest[1..]).value;
      assert writes + ([r.value.1] + tail.writes) == (writes + [r.value.1]) + tail.writes;
    }
  }

  lemma {:induction false} ApplySnoc(buf: seq<byte>, writes: seq<Write>, w: Write)
    requires Fit(writes, |buf|) && w.at + |w.bytes| <= |buf|
    ensures Fit(writes + [w], |buf|) && Apply(buf, writes + [w]) == Put(Apply(buf, writes), w)
    decreases |writes|
  {
    var all := writes + [w];
    if writes == [] {
      assert all[1..] == [];
    } else {
      assert all[0] == writes[0] && all[1..] == writes[1..] + [w];
      ApplySnoc(Put(buf, writes[0]), writes[1..], w);
    }
  }

  lemma PutTwice(buf: seq<byte>, at: nat, a: seq<byte>, b: seq<byte>)
    requires at + |a| + |b| <= |buf|
    ensures Put(Put(buf, Write(at, a)), Write(at + |a|, b)) == Put(buf, Write(at, a + b))
  {
    SpliceTwice(buf, at, a, b);
  }

  lemma {:induction false} EvalAllConcat(syms: seq<Symbol>, p: PassNo, xs: seq<Expr>, ys: seq<Expr>)
    ensures var r := EvalAll(syms, p, xs + ys);
            var a, b := EvalAll(syms, p, xs), EvalAll(syms, p, ys);
            r == if a.Some? && b.Some? then Some(a.value + b.value) else None
    decreases |xs|
  {
    hide Eval;
    if xs == [] {
      assert xs + ys == ys;
      var b := EvalAll(syms, p, ys);
      assert b.Some? ==> [] + b.value == b.value;
    } else {
      assert (xs + ys)[0] == xs[0] && (xs + ys)[1..] == xs[1..] + ys;
      EvalAllConcat(syms, p, xs[1..], ys);
      var v, a, b := Eval(syms, p, xs[0]), EvalAll(syms, p, xs[1..]), EvalAll(syms, p, ys);
      if v.Some? && a.Some? && b.Some? {
        assert [v.value] + (a.value + b.value) == ([v.value] + a.value) + b.value;
      }
    }
  }

  lemma NoData(w: Width, syms: seq<Symbol>, p: PassNo)
    ensures EvalAll(syms, p, []) == Some([]) && DataBytes(w, []) == []
  {
  }

  lemma EvalAllOne(syms: seq<Symbol>, p: PassNo, e: Expr)
    ensures EvalAll(syms, p, [e]) ==
            if Eval(syms, p, e).Some? then Some([Eval(syms, p, e).value]) else None
  {
    hide Eval;
    assert [e][1..] == [];
    var none: seq<bv64> := [];
    assert EvalAll(syms, p, [e][1..]) == Some(none);
    assert Eval(syms, p, e).Some? ==> [Eval(syms, p, e).value] + none == [Eval(syms, p, e).value];
  }

  lemma EvalAllSnoc(syms: seq<Symbol>, p: PassNo, items: seq<Expr>, i: nat)
    requires i < |items|
    ensures var a, v := EvalAll(syms, p, items[..i]), Eval(syms, p, items[i]);
            && EvalAll(syms, p, items[..i + 1]) == (if a.Some? && v.Some? then Some(a.value + [v.value]) else None)
            && (v.None? ==> EvalAll(syms, p, items).None?)
  {
    assert items[..i + 1] == items[..i] + [items[i]];
    EvalAllConcat(syms, p, items[..i], [items[i]]);
    EvalAllOne(syms, p, items[i]);
    assert items == items[..i + 1] + items[i + 1..];
    EvalAllConcat(syms, p, items[..i + 1], items[i + 1..]);
  }

  lemma {:induction false} DataConcat(w: Width, xs: seq<bv64>, ys: seq<bv64>)
    ensures DataBytes(w, xs + ys) == DataBytes(w, xs) + DataBytes(w, ys)
    decreases |xs|
  {
    hide ItemBytes;
    if xs == [] {
      assert xs + ys == ys;
    } else {
      assert (xs + ys)[0] == xs[0] && (xs + ys)[1..] == xs[1..] + ys;
      DataConcat(w, xs[1..], ys);
    }
  }

  lemma DataSnoc(w: Width, xs: seq<bv64>, v: bv64)
    ensures DataBytes(w, xs + [v]) == DataBytes(w, xs) + ItemBytes(w, v)
  {
    hide ItemBytes;
    DataConcat(w, xs, [v]);
    assert [v][1..] == [];
  }

  /** The bytes of the first items are no more than the bytes of all. */
  lemma DataPrefix(w: Width, syms: seq<Symbol>, p: PassNo, items: seq<Expr>, i: nat)
    requires i <= |items| && EvalAll(syms, p, items).Some?
    ensures EvalAll(syms, p, items[..i]).Some?
    ensures |DataBytes(w, EvalAll(syms, p, items[..i]).value)| <= |DataBytes(w, EvalAll(syms, p, items).value)|
  {
    assert items == items[..i] + items[i..];
    EvalAllConcat(syms, p, items[..i], items[i..]);
    DataConcat(w, EvalAll(syms, p, items[..i]).value, EvalAll(syms, p, items[i..]).value);
  }
}
