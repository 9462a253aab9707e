/** What the directives leave in the output, and where they move the location counter. */
module AsmData {
  import opened Basics
  import opened Bits
  import opened Words
  import opened AsmSpec
  import opened AsmTwoPass
  import opened AsmExact
  import opened AsmBranches
  import opened AsmNames
  import opened AsmListing

  // ---------- data items ----------

  /** A data item keeps its value modulo this. */
  function Modulus(w: Width): nat {
    match w case W8 => 0x100 case W16 => 0x1_0000 case W32 => 0x1_0000_0000 case W64 => 0x1_0000_0000_0000_0000
  }

  lemma Nat64Bound(v: bv64)
    ensures Nat64(v) < 0x1_0000_0000_0000_0000
  {
  }

  /** The bytes of an item spell its value modulo its width, least significant byte first. */
  lemma ItemValue(w: Width, v: bv64)
    ensures |ItemBytes(w, v)| == ItemSize(w) && LeValue(ItemBytes(w, v)) == Nat64(v) % Modulus(w)
  {
    hide LeValue, Nat8, Nat16, Nat32, Nat64, Low8, Low16, Low32;
    LowValues(v);
    match w
    case W8 => LeValue1(Low8(v));
    case W16 => Le16Value(Low16(v));
    case W32 => Le32Value(Low32(v));
    case W64 => Le64Value(v); Nat64Bound(v);
  }

  lemma {:induction false} EvalAllAt(syms: seq<Symbol>, q: PassNo, es: seq<Expr>, i: nat)
    requires EvalAll(syms, q, es).Some? && i < |es|
    ensures |EvalAll(syms, q, es).value| == |es| && Eval(syms, q, es[i]) == Some(EvalAll(syms, q, es).value[i])
    decreases |es|
  {
    hide Eval;
    EvalAllLength(syms, q, es);
    if i > 0 {
      EvalAllAt(syms, q, es[1..], i - 1);
    }
  }

  lemma {:induction false} ItemAt(w: Width, vs: seq<bv64>, i: nat)
    requires i < |vs|
    ensures At(DataBytes(w, vs), ItemSize(w) * i, ItemBytes(w, vs[i]))
    decreases |vs|
  {
    hide ItemBytes, LeValue, Nat64;
    ItemValue(w, vs[0]);
    var head, rest := ItemBytes(w, vs[0]), DataBytes(w, vs[1..]);
    if i == 0 {
      AtConcat(head + rest, 0, head, rest);
      assert (head + rest)[0..|head + rest|] == head + rest;
    } else {
      ItemAt(w, vs[1..], i - 1);
      assert ItemSize(w) * i == ItemSize(w) + ItemSize(w) * (i - 1);
      AtShifted(head, rest, ItemSize(w) * (i - 1), ItemBytes(w, vs[i]));
    }
  }

  lemma AtShifted(head: seq<byte>, rest: seq<byte>, k: nat, piece: seq<byte>)
    requires At(rest, k, piece)
    ensures At(head + rest, |head| + k, piece)
  {
    assert (head + rest)[|head| + k..|head| + k + |piece|] == rest[k..k + |piece|];
  }

  /** A piece of a piece that stands at the start of a tail. */
  lemma AtWithin(s: seq<byte>, pc: nat, whole: seq<byte>, k: nat, piece: seq<byte>)
    requires pc <= |s| && At(s[pc..], 0, whole) && At(whole, k, piece)
    ensures pc + k + |piece| <= |s| && s[pc + k..pc + k + |piece|] == piece
  {
    assert s[pc..][0..|whole|] == whole;
    assert s[pc + k..pc + k + |piece|] == whole[k..k + |piece|];
  }

  /** The line is the last to write where it stands, in a program whose passes agree. */
  ghost predicate Kept(base: bv32, arch: Arch, lines: seq<Line>, k: nat) {
    Agrees(base, arch, lines) && k < |lines| && Untouched(Assemble(base, arch, lines).value.emit.writes, k)
  }

  /** What the theorems below need about the program before they can speak of its output. */
  ghost predicate Ready(base: bv32, lines: seq<Line>, r: Assembly) {
    && Laid(PlacedAt(base, lines, r)) && Fit(r.collect.writes, MAX_PROG) && Fit(r.emit.writes, MAX_PROG)
    && r.emit.end.maxPc <= MAX_PROG
  }

  /** Item `i` of a `.byte`, `.half`, `.word` or `.quad` reads back from the output as its value modulo the width. */
  lemma DataItemInOutput(base: bv32, arch: Arch, lines: seq<Line>, k: nat, i: nat)
    requires Kept(base, arch, lines, k) && lines[k].body.Data? && i < |lines[k].body.items|
    ensures var r := Assemble(base, arch, lines).value;
            && Ready(base, lines, r)
            && var p, b := PlacedAt(base, lines, r), lines[k].body;
            && var from := p.at[k] + ItemSize(b.width) * i;
            && from + ItemSize(b.width) <= |Output(r)|
            && LeValue(Output(r)[from..from + ItemSize(b.width)]) == Nat64(Number(p, b.items[i])) % Modulus(b.width)
  {
    hide Pass, AllAlike, Untouched, Output, At, Reads, Number, LeValue, Nat64, Eval, EvalAll, DataBytes, ItemBytes,
         Modulus, ItemSize, Address;
    var r := Assemble(base, arch, lines).value;
    var p, b := PlacedAt(base, lines, r), lines[k].body;
    AgreedReads(base, arch, lines);
    LineInOutput(base, arch, lines, k);
    EvalAllAt(r.emit.end.syms, Emit, b.items, i);
    EvalReads(p, r.emit.end.syms, b.items[i]);
    var vs := EvalAll(r.emit.end.syms, Emit, b.items).value;
    ItemAt(b.width, vs, i);
    ItemValue(b.width, vs[i]);
    AtWithin(Output(r), p.at[k], DataBytes(b.width, vs), ItemSize(b.width) * i, ItemBytes(b.width, vs[i]));
  }

  /** `.zero` and `.skip` leave their count, modulo 2^32, of the low byte of their value. */
  lemma FillInOutput(base: bv32, arch: Arch, lines: seq<Line>, k: nat, j: nat)
    requires Kept(base, arch, lines, k) && lines[k].body.Fill?
    ensures var r := Assemble(base, arch, lines).value;
            && Ready(base, lines, r)
            && var p, b := PlacedAt(base, lines, r), lines[k].body;
            && var n := Nat64(Number(p, b.count)) % 0x1_0000_0000;
            && p.at[k] + n <= |Output(r)|
            && (j < n ==> Output(r)[p.at[k] + j] == Low8(Number(p, b.value)))
  {
    hide Pass, AllAlike, Untouched, Output, At, Reads, Number, Nat64, Eval, Low8, Low32, Repeat, Address;
    var r := Assemble(base, arch, lines).value;
    var p, b := PlacedAt(base, lines, r), lines[k].body;
    AgreedReads(base, arch, lines);
    LineInOutput(base, arch, lines, k);
    EvalReads(p, r.emit.end.syms, b.count);
    EvalReads(p, r.emit.end.syms, b.value);
    LowValues(Number(p, b.count));
    var n, v := Unsigned32(Number(p, b.count)), Low8(Number(p, b.value));
    RepeatedAt(Output(r), p.at[k], n, v, j);
  }

  lemma RepeatedAt(s: seq<byte>, pc: nat, n: nat, v: byte, j: nat)
    requires pc <= |s| && At(s[pc..], 0, Repeat(n, v))
    ensures pc + n <= |s| && (j < n ==> s[pc + j] == v)
  {
    assert s[pc..][0..n] == Repeat(n, v);
    if j < n {
      assert s[pc + j] == Repeat(n, v)[j];
    }
  }

  /** The bytes of a string stand in the output as the line has them. */
  lemma TextInOutput(base: bv32, arch: Arch, lines: seq<Line>, k: nat)
    requires Kept(base, arch, lines, k) && lines[k].body.Text?
    ensures var r := Assemble(base, arch, lines).value;
            && Ready(base, lines, r)
            && var at, b := PlacedAt(base, lines, r).at[k], lines[k].body.bytes;
            && at + |b| <= |Output(r)| && Output(r)[at..at + |b|] == b
  {
    hide Pass, AllAlike, Untouched, Output, Reads, Address;
    var r := Assemble(base, arch, lines).value;
    AgreedReads(base, arch, lines);
    LineInOutput(base, arch, lines, k);
    var b := lines[k].body.bytes;
    assert b[0..|b|] == b;
    AtWithin(Output(r), r.emit.pcs[k], b, 0, b);
  }

  // ---------- the location counter ----------

  /** The counter before line `k`, or at the end. */
  function Counter(r: Run, k: nat): nat
    requires k <= |r.pcs|
  {
    if k < |r.pcs| then r.pcs[k] else r.end.pc
  }

  lemma {:induction false} EmittedNext(base: bv32, d: Cursor, lines: seq<Line>, k: nat)
    requires d.pc <= MAX_PROG && Pass(Emit, base, d, lines).Some? && k < |lines|
    ensures var q := Pass(Emit, base, d, lines).value;
            && q.pcs[k] <= MAX_PROG
            && var out := BodyOut(d.syms, Emit, LastArch(d.arch, lines[..k]), base, q.pcs[k], lines[k].body);
            && out.Some? && Counter(q, k + 1) == out.value.next <= MAX_PROG
            && q.pcs[k] + |out.value.bytes| <= MAX_PROG
    decreases |lines|
  {
    hide BodyOut, Eval, Define, Address;
    var d' := Process(Emit, base, d, lines[0]).value.0;
    if k > 0 {
      assert lines[..k][0] == lines[0] && lines[..k][1..] == lines[1..][..k - 1];
      EmittedNext(base, d', lines[1..], k - 1);
    } else {
      NextCounter(Emit, base, d', lines[1..]);
    }
  }

  lemma BackToWord(w: bv32)
    ensures (w as nat) as bv32 == w
  {
  }

  lemma OrgAddress(base: bv32, v: bv64)
    requires OrgTarget(v, base) <= MAX_PROG
    ensures Address(base, OrgTarget(v, base)) == Low32(v)
  {
    hide Low32, Plus, Distance;
    BackToWord(Distance(base, Low32(v)));
    DistanceLeads(base, Low32(v));
  }

  /** The line after an `.org` lands at the address the directive names. */
  lemma OrgLands(base: bv32, arch: Arch, lines: seq<Line>, k: nat)
    requires Agrees(base, arch, lines) && k < |lines| && lines[k].body.Org?
    ensures var r := Assemble(base, arch, lines).value;
            var p := PlacedAt(base, lines, r);
            && Laid(p) && Counter(r.emit, k + 1) <= MAX_PROG
            && Address(base, Counter(r.emit, k + 1)) == Low32(Number(p, lines[k].body.to))
  {
    hide Pass, AllAlike, Reads, Number, Eval, Low32, Address, OrgTarget;
    var r := Assemble(base, arch, lines).value;
    var p := PlacedAt(base, lines, r);
    AgreedReads(base, arch, lines);
    EmittedNext(base, r.collect.end.(pc := 0), lines, k);
    EmitKeepsSyms(base, r.collect.end.(pc := 0), lines);
    EvalReads(p, r.emit.end.syms, lines[k].body.to);
    OrgAddress(base, Number(p, lines[k].body.to));
  }

  /** The bits under the mask `a - 1` are clear. */
  predicate Aligned(x: nat, a: nat)
    requires a > 0
  {
    And(x, a - 1) == 0
  }

  /** The padding of an alignment reaches the first aligned counter. */
  lemma {:induction false} AlignLeast(pc: nat, a: nat)
    requires pc <= MAX_PROG && a > 0 && pc + AlignPad(pc, a) <= MAX_PROG
    ensures Aligned(pc + AlignPad(pc, a), a)
    ensures forall x | pc <= x < pc + AlignPad(pc, a) :: !Aligned(x, a)
    decreases MAX_PROG - pc
  {
    hide And;
    if And(pc, a - 1) != 0 {
      AlignLeast(pc + 1, a);
    }
  }

  /** The alignment a directive asks for; `.align 0` counts as 1. */
  function Boundary(p: Layout, b: Body): (a: nat)
    requires Laid(p) && (b.Align? || b.P2Align?)
    ensures a > 0
  {
    if b.Align? then Max(1, Nat32(Low32(Number(p, b.to)))) else Pow2(Nat32(Low32(Number(p, b.log))))
  }

  /** The line after an alignment lands on the first counter, not before its own, that the mask accepts. */
  lemma AlignLands(base: bv32, arch: Arch, lines: seq<Line>, k: nat)
    requires Agrees(base, arch, lines) && k < |lines| && (lines[k].body.Align? || lines[k].body.P2Align?)
    ensures var r := Assemble(base, arch, lines).value;
            var p := PlacedAt(base, lines, r);
            && Laid(p)
            && var a, next := Boundary(p, lines[k].body), Counter(r.emit, k + 1);
            && p.at[k] <= next && Aligned(next, a)
            && forall x | p.at[k] <= x < next :: !Aligned(x, a)
  {
    hide Pass, AllAlike, Reads, Number, Eval, Low32, Address, AlignPad, And;
    var r := Assemble(base, arch, lines).value;
    var p, b := PlacedAt(base, lines, r), lines[k].body;
    AgreedReads(base, arch, lines);
    EmittedNext(base, r.collect.end.(pc := 0), lines, k);
    EmitKeepsSyms(base, r.collect.end.(pc := 0), lines);
    EvalReads(p, r.emit.end.syms, if b.Align? then b.to else b.log);
    AlignLeast(p.at[k], Boundary(p, b));
  }

  /** A `.p2align n` brings the counter to the next multiple of 2^n. */
  lemma P2AlignLands(base: bv32, arch: Arch, lines: seq<Line>, k: nat)
    requires Agrees(base, arch, lines) && k < |lines| && lines[k].body.P2Align?
    ensures var r := Assemble(base, arch, lines).value;
            var p := PlacedAt(base, lines, r);
            && Laid(p)
            && var a, next := Boundary(p, lines[k].body), Counter(r.emit, k + 1);
            && p.at[k] <= next < p.at[k] + a && next % a == 0
  {
    hide AllAlike, Pass, Number, Low32, And, Pow2, Aligned;
    AlignLands(base, arch, lines, k);
    var r := Assemble(base, arch, lines).value;
    var p := PlacedAt(base, lines, r);
    var n := Nat32(Low32(Number(p, lines[k].body.log)));
    MultipleReached(p.at[k], Counter(r.emit, k + 1), n);
  }

  lemma StepBack(x: int, m: nat)
    requires m > 0
    ensures (x - m) % m == x % m
  {
    ModShift(x, m, m);
  }

  lemma MultipleReached(pc: nat, next: nat, n: nat)
    requires pc <= next && Aligned(next, Pow2(n))
    requires forall x | pc <= x < next :: !Aligned(x, Pow2(n))
    ensures next % Pow2(n) == 0 && next < pc + Pow2(n)
  {
    hide And, Pow2;
    AndMaskIsMod(next, n);
    if next >= pc + Pow2(n) {
      assert !Aligned(next - Pow2(n), Pow2(n));
      AndMaskIsMod(next - Pow2(n), n);
      StepBack(next, Pow2(n));
    }
  }
}
