/** What the names of a program stand for, read off its text and the place where each line lands. */
module AsmNames {
  import opened Basics
  import opened Words
  import opened AsmSpec

  /** A program at base address `base`, and the offset of each of its lines. */
  datatype Layout = Layout(base: bv32, lines: seq<Line>, at: seq<nat>)

  predicate Laid(p: Layout) {
    |p.at| == |p.lines| && forall k | 0 <= k < |p.at| :: p.at[k] <= MAX_PROG
  }

  /** The line has a label that the table, which keeps 63 characters, stores as `n`. */
  predicate Labels(ln: Line, n: string) {
    exists i | 0 <= i < |ln.labels| :: Stored(ln.labels[i]) == n
  }

  /** The value of `n` after the first `k` lines. A name stands for what the first line that gives it says. */
  function NameBefore(p: Layout, k: nat, n: string): Option<bv32>
    requires Laid(p) && k <= |p.lines|
    decreases k, 0
  {
    if k == 0 then None
    else
      var b := p.lines[k - 1].body;
      var v := NameWithin(p, k - 1, n);
      if v.None? && b.Equ? && Stored(b.name) == n then Some(Low32(EquNumber(p, k - 1, b.expr))) else v
  }

  /** The value of `n` after the labels of line `k`: each stands for the address of that line. */
  function NameWithin(p: Layout, k: nat, n: string): Option<bv32>
    requires Laid(p) && k < |p.lines|
    decreases k, 1
  {
    var v := NameBefore(p, k, n);
    if v.None? && Labels(p.lines[k], n) then Some(Address(p.base, p.at[k])) else v
  }

  /** The expression of an `.equ` at line `k`: a number, an earlier name, or 0 for a name that comes later. */
  function EquNumber(p: Layout, k: nat, e: Expr): bv64
    requires Laid(p) && k < |p.lines|
    decreases k, 2
  {
    match e
    case Lit(v) => v
    case Sym(n) => var v := NameWithin(p, k, n); if v.Some? then Widen(v.value) else 0
  }

  function Name(p: Layout, n: string): Option<bv32>
    requires Laid(p)
  {
    NameBefore(p, |p.lines|, n)
  }

  /** The number an operand stands for; a name without a definition stands for 0. */
  function Number(p: Layout, e: Expr): bv64
    requires Laid(p)
  {
    match e
    case Lit(v) => v
    case Sym(n) => var v := Name(p, n); if v.Some? then Widen(v.value) else 0
  }

  predicate Defined(p: Layout, e: Expr)
    requires Laid(p)
  {
    e.Lit? || Name(p, e.name).Some?
  }

  // ---------- the symbol table holds what the text says ----------

  lemma {:induction false} FindAppend(t: seq<Symbol>, x: Symbol, n: string)
    ensures Find(t + [x], n) ==
            if Find(t, n).Some? then Find(t, n) else if x.name == n then Some(x.addr) else None
    decreases |t|
  {
    var s := t + [x];
    if t != [] {
      assert s[0] == t[0] && s[1..] == t[1..] + [x];
      FindAppend(t[1..], x, n);
    }
  }

  lemma {:induction false} DefineAllFind(syms: seq<Symbol>, ln: Line, v: bv32, n: string)
    requires DefineAll(syms, ln.labels, v).Some?
    ensures Find(DefineAll(syms, ln.labels, v).value, n) ==
            if Find(syms, n).Some? then Find(syms, n) else if Labels(ln, n) then Some(v) else None
    decreases |ln.labels|
  {
    hide Find;
    if ln.labels != [] {
      var rest := ln.(labels := ln.labels[1..]);
      FindAppend(syms, Symbol(Stored(ln.labels[0]), v), n);
      DefineAllFind(Define(syms, ln.labels[0], v).value, rest, v, n);
      assert Labels(ln, n) <==> Stored(ln.labels[0]) == n || Labels(rest, n) by {
        assert forall i | 0 <= i < |rest.labels| :: rest.labels[i] == ln.labels[i + 1];
      }
    }
  }

  /** A table that agrees with the text before line `k`. */
  ghost predicate Holds(p: Layout, k: nat, syms: seq<Symbol>)
    requires Laid(p) && k <= |p.lines|
  {
    forall n :: Find(syms, n) == NameBefore(p, k, n)
  }

  lemma LabelsHold(p: Layout, k: nat, syms: seq<Symbol>, n: string)
    requires Laid(p) && k < |p.lines| && Holds(p, k, syms)
    requires DefineAll(syms, p.lines[k].labels, Address(p.base, p.at[k])).Some?
    ensures Find(DefineAll(syms, p.lines[k].labels, Address(p.base, p.at[k])).value, n) == NameWithin(p, k, n)
  {
    hide Find, DefineAll, Labels, Address;
    DefineAllFind(syms, p.lines[k], Address(p.base, p.at[k]), n);
  }

  lemma EquHolds(p: Layout, k: nat, syms: seq<Symbol>, e: Expr)
    requires Laid(p) && k < |p.lines| && forall n :: Find(syms, n) == NameWithin(p, k, n)
    ensures Eval(syms, Collect, e) == Some(EquNumber(p, k, e))
  {
    hide Find, NameWithin, Widen;
  }

  lemma LineHolds(p: Layout, k: nat, c: Cursor)
    requires Laid(p) && k < |p.lines| && Holds(p, k, c.syms) && c.pc == p.at[k]
    requires Process(Collect, p.base, c, p.lines[k]).Some?
    ensures Holds(p, k + 1, Process(Collect, p.base, c, p.lines[k]).value.0.syms)
  {
    hide Find, BodyOut, DefineAll, Address, Eval, NameWithin, EquNumber, Low32;
    var b := p.lines[k].body;
    var syms := DefineAll(c.syms, p.lines[k].labels, Address(p.base, p.at[k])).value;
    forall n ensures Find(syms, n) == NameWithin(p, k, n) { LabelsHold(p, k, c.syms, n); }
    if b.Equ? {
      EquHolds(p, k, syms, b.expr);
      var x := Symbol(Stored(b.name), Low32(EquNumber(p, k, b.expr)));
      forall n ensures Find(syms + [x], n) == NameBefore(p, k + 1, n) { FindAppend(syms, x, n); }
    }
  }

  lemma {:induction false} PassHolds(p: Layout, k: nat, c: Cursor)
    requires Laid(p) && k <= |p.lines| && Holds(p, k, c.syms) && c.pc <= MAX_PROG
    requires Pass(Collect, p.base, c, p.lines[k..]).Some?
    requires Pass(Collect, p.base, c, p.lines[k..]).value.pcs == p.at[k..]
    ensures Holds(p, |p.lines|, Pass(Collect, p.base, c, p.lines[k..]).value.end.syms)
    decreases |p.lines| - k
  {
    hide Process, Holds;
    if k < |p.lines| {
      var c' := Process(Collect, p.base, c, p.lines[k]).value.0;
      assert p.lines[k..][1..] == p.lines[k + 1..] && p.at[k..][1..] == p.at[k + 1..] && c.pc == p.at[k];
      LineHolds(p, k, c);
      PassHolds(p, k + 1, c');
    }
  }

  lemma {:induction false} CountersBounded(q: PassNo, base: bv32, c: Cursor, lines: seq<Line>)
    requires c.pc <= MAX_PROG && Pass(q, base, c, lines).Some?
    ensures forall k | 0 <= k < |lines| :: Pass(q, base, c, lines).value.pcs[k] <= MAX_PROG
    decreases |lines|
  {
    hide BodyOut, AfterLabels, AfterEqu, Address;
    if lines != [] {
      CountersBounded(q, base, Process(q, base, c, lines[0]).value.0, lines[1..]);
    }
  }

  /**
   For every program that assembles and every name, used or not: the table the second pass works with
   holds the value that the text gives the name, where the first pass placed the lines.
   */
  lemma TableHoldsText(base: bv32, arch: Arch, lines: seq<Line>, n: string)
    requires Assemble(base, arch, lines).Some?
    ensures var r := Assemble(base, arch, lines).value;
            var p := Layout(base, lines, r.collect.pcs);
            Laid(p) && Find(r.collect.end.syms, n) == Name(p, n)
  {
    hide Pass;
    var c, r := Cursor(0, 0, [], arch), Assemble(base, arch, lines).value;
    var p := Layout(base, lines, r.collect.pcs);
    CountersBounded(Collect, base, c, lines);
    assert lines[0..] == lines && r.collect.pcs[0..] == r.collect.pcs;
    PassHolds(p, 0, c);
  }

  // ---------- `.equ` ----------

  lemma {:induction false} NameStays(p: Layout, k: nat, m: nat, n: string)
    requires Laid(p) && k <= m <= |p.lines| && NameBefore(p, k, n).Some?
    ensures NameBefore(p, m, n) == NameBefore(p, k, n)
    decreases m - k
  {
    if k < m {
      NameStays(p, k, m - 1, n);
    }
  }

  /** An `.equ` that the first pass accepts names something that no earlier line has named. */
  lemma {:induction false} EquFresh(p: Layout, k: nat, c: Cursor, j: nat)
    requires Laid(p) && k <= j < |p.lines| && Holds(p, k, c.syms) && c.pc <= MAX_PROG
    requires Pass(Collect, p.base, c, p.lines[k..]).Some? && p.lines[j].body.Equ?
    requires Pass(Collect, p.base, c, p.lines[k..]).value.pcs == p.at[k..]
    ensures NameWithin(p, j, p.lines[j].body.name).None?
    decreases j - k
  {
    hide Holds, NameWithin, Find, BodyOut, DefineAll, Address, Eval;
    assert c.pc == p.at[k];
    if j == k {
      LabelsHold(p, k, c.syms, p.lines[k].body.name);
    } else {
      var c' := Process(Collect, p.base, c, p.lines[k]).value.0;
      assert p.lines[k..][1..] == p.lines[k + 1..] && p.at[k..][1..] == p.at[k + 1..];
      LineHolds(p, k, c);
      EquFresh(p, k + 1, c', j);
    }
  }

  /** In every program that assembles, the name of an `.equ` stands for the low 32 bits of its expression. */
  lemma EquNames(base: bv32, arch: Arch, lines: seq<Line>, k: nat)
    requires Assemble(base, arch, lines).Some?
    requires k < |lines| && lines[k].body.Equ? && |lines[k].body.name| <= NAME_CAP
    ensures var p := Layout(base, lines, Assemble(base, arch, lines).value.collect.pcs);
            Laid(p) && Name(p, lines[k].body.name) == Some(Low32(EquNumber(p, k, lines[k].body.expr)))
  {
    hide Pass, EquNumber, Low32;
    var c, r := Cursor(0, 0, [], arch), Assemble(base, arch, lines).value;
    var p := Layout(base, lines, r.collect.pcs);
    CountersBounded(Collect, base, c, lines);
    assert lines[0..] == lines && r.collect.pcs[0..] == r.collect.pcs;
    EquFresh(p, 0, c, k);
    NameStays(p, k + 1, |lines|, lines[k].body.name);
  }
}
