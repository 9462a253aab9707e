/** The linear sweep of `rivet-disas.c` over a flat binary, for any decoder. */
module Sweep {
  import opened Basics
  import opened Words

  /** One printed line: an instruction of `size` bytes, or a raw byte that no instruction starts with. */
  datatype Entry<L> = Line(pc: bv32, insn: L, size: nat) | RawByte(pc: bv32, value: byte)

  type Decoder<L> = (bv32, seq<byte>) -> Option<(L, nat)>

  /** The decoder takes at least one of the bytes that are left, and fewer than 16. */
  ghost predicate Progressive<L(!new)>(decode: Decoder<L>) {
    forall pc, s :: decode(pc, s).Some? ==> 0 < decode(pc, s).value.1 <= |s| && decode(pc, s).value.1 < 16
  }

  /** The listing of the bytes `s` that start at address `pc`. */
  function Listing<L(!new)>(decode: Decoder<L>, pc: bv32, s: seq<byte>): seq<Entry<L>>
    requires Progressive(decode)
    decreases |s|
  {
    if s == [] then []
    else
      var d := decode(pc, s);
      if d.None? then [RawByte(pc, s[0])] + Listing(decode, After(pc, 1), s[1..])
      else [Line(pc, d.value.0, d.value.1)] + Listing(decode, After(pc, d.value.1), s[d.value.1..])
  }

  method Disassemble<L(!new)>(decode: Decoder<L>, base: bv32, buf: seq<byte>) returns (out: seq<Entry<L>>)
    requires Progressive(decode)
    ensures out == Listing(decode, base, buf)
  {
    hide After, Listing, Progressive;
    var pc, i := base, 0;
    out := [];
    assert buf[0..] == buf;
    while i < |buf|
      invariant 0 <= i <= |buf|
      invariant out + Listing(decode, pc, buf[i..]) == Listing(decode, base, buf)
      decreases |buf| - i
    {
      var n := decode(pc, buf[i..]);
      ListingStep(decode, pc, buf, i, out);
      if n.None? {
        out := out + [RawByte(pc, buf[i])];
        i, pc := i + 1, After(pc, 1);
        continue;
      }
      out := out + [Line(pc, n.value.0, n.value.1)];
      i, pc := i + n.value.1, After(pc, n.value.1);
    }
    NothingListed(decode, pc);
    assert buf[i..] == [];
  }

  lemma NothingListed<L(!new)>(decode: Decoder<L>, pc: bv32)
    requires Progressive(decode)
    ensures Listing(decode, pc, []) == []
  {
  }

  /** One turn of the loop moves one entry from the bytes still to read to the output. */
  lemma ListingStep<L(!new)>(decode: Decoder<L>, pc: bv32, buf: seq<byte>, i: nat, out: seq<Entry<L>>)
    requires Progressive(decode) && i < |buf|
    ensures var n := decode(pc, buf[i..]);
            if n.None? then
              out + Listing(decode, pc, buf[i..])
              == (out + [RawByte(pc, buf[i])]) + Listing(decode, After(pc, 1), buf[i + 1..])
            else
              && 0 < n.value.1 <= |buf| - i && n.value.1 < 16
              && out + Listing(decode, pc, buf[i..])
                 == (out + [Line(pc, n.value.0, n.value.1)])
                    + Listing(decode, After(pc, n.value.1), buf[i + n.value.1..])
  {
    hide After;
    var n := decode(pc, buf[i..]);
    var k := if n.None? then 1 else n.value.1;
    assert buf[i..][k..] == buf[i + k..];
  }

  // ---------- the listing covers the file ----------

  function Size<L>(e: Entry<L>): nat {
    if e.Line? then e.size else 1
  }

  function Sizes<L>(es: seq<Entry<L>>): nat {
    if es == [] then 0 else Size(es[0]) + Sizes(es[1..])
  }

  /** The entry is what the decoder finds at offset `off`, or the byte there where it finds nothing. */
  ghost predicate Lists<L(!new)>(decode: Decoder<L>, e: Entry<L>, s: seq<byte>, off: nat)
    requires off <= |s|
  {
    && off < |s|
    && decode(e.pc, s[off..]) == (if e.Line? then Some((e.insn, e.size)) else None)
    && (e.RawByte? ==> e.value == s[off])
  }

  /**
   Each entry lists what stands where the ones before it end, its address follows from theirs, and
   together they cover every byte once.
   */
  lemma {:induction false} ListingTiles<L(!new)>(decode: Decoder<L>, pc: bv32, s: seq<byte>, k: nat)
    requires Progressive(decode) && k < |Listing(decode, pc, s)|
    ensures var es := Listing(decode, pc, s);
            && Sizes(es) == |s| && Sizes(es[..k]) <= |s| && Lists(decode, es[k], s, Sizes(es[..k]))
            && (k == 0 ==> es[k].pc == pc)
            && (k > 0 ==> Size(es[k - 1]) < 16 && es[k].pc == After(es[k - 1].pc, Size(es[k - 1])))
    decreases |s|
  {
    hide After, Listing, Progressive, Lists;
    AllListed(decode, pc, s);
    var n := FirstEntry(decode, pc, s);
    var es, rest := Listing(decode, pc, s), Listing(decode, After(pc, n), s[n..]);
    if k > 0 {
      ListingTiles(decode, After(pc, n), s[n..], k - 1);
      var off := Sizes(rest[..k - 1]);
      SizesStep(es[0], rest[..k - 1]);
      assert es[..k] == [es[0]] + rest[..k - 1];
      ListsFurther(decode, es[k], s, n, off);
    }
  }

  lemma FirstEntry<L(!new)>(decode: Decoder<L>, pc: bv32, s: seq<byte>) returns (n: nat)
    requires Progressive(decode) && Listing(decode, pc, s) != []
    ensures var es := Listing(decode, pc, s);
            && n == Size(es[0]) && 0 < n <= |s| && n < 16 && es[0].pc == pc && Lists(decode, es[0], s, 0)
            && es == [es[0]] + Listing(decode, After(pc, n), s[n..])
  {
    hide After;
    n := Size(Listing(decode, pc, s)[0]);
    assert s[0..] == s;
  }

  lemma SizesStep<L>(e: Entry<L>, es: seq<Entry<L>>)
    ensures Sizes([e] + es) == Size(e) + Sizes(es)
  {
    assert ([e] + es)[1..] == es;
  }

  lemma ListsFurther<L(!new)>(decode: Decoder<L>, e: Entry<L>, s: seq<byte>, n: nat, off: nat)
    requires n <= |s| && off <= |s[n..]| && Lists(decode, e, s[n..], off)
    ensures Lists(decode, e, s, n + off)
  {
    assert s[n..][off..] == s[n + off..];
  }

  lemma {:induction false} AllListed<L(!new)>(decode: Decoder<L>, pc: bv32, s: seq<byte>)
    requires Progressive(decode)
    ensures Sizes(Listing(decode, pc, s)) == |s|
    decreases |s|
  {
    hide After;
    if s != [] {
      var es := Listing(decode, pc, s);
      var n := Size(es[0]);
      assert es[1..] == Listing(decode, After(pc, n), s[n..]);
      AllListed(decode, After(pc, n), s[n..]);
    }
  }
}

/** The sweep over an x86_64 binary gives back the statements it was assembled from. */
module X86Sweep {
  import opened Basics
  import opened Words
  import opened X86Syntax
  import opened X86Encode
  import opened X86Decode
  import opened X86RoundTrip
  import opened Sweep

  lemma DispProgress(s: seq<byte>, k: nat, mod: bv8)
    requires k <= |s|
    ensures var d := ReadDisp(s, k, mod); d.Some? ==> k <= d.value.1 <= |s| && d.value.1 <= k + 4
  {
  }

  lemma OperandProgress(s: seq<byte>, k: nat, rex: bv8)
    requires k < |s|
    ensures var o := ReadOperand(s, k, rex); o.Some? ==> k < o.value.1 <= |s| && o.value.1 <= k + 6
  {
    hide RegOf, Read32;
    if k + 2 <= |s| {
      DispProgress(s, k + 2, (s[k] >> 6) & 3);
    }
    DispProgress(s, k + 1, (s[k] >> 6) & 3);
  }

  lemma FormProgress(s: seq<byte>, k: nat, rex: bv8, f: Form)
    ensures var d := ReadForm(s, k, rex, f); d.Some? ==> k < d.value.1 <= |s| && d.value.1 <= k + 10
  {
    hide RegOf, Read32, ReadOperand;
    if k < |s| {
      OperandProgress(s, k, rex);
    }
  }

  lemma OpcodeProgress(pc: bv32, s: seq<byte>, k: nat, rex: bv8, op: byte)
    requires 0 < k <= 2 && k <= |s|
    ensures var d := ReadOpcode(pc, s, k, rex, op); d.Some? ==> 0 < d.value.1 <= |s| && d.value.1 < 16
  {
    hide RegOf, Read32, Read64, ReadForm, FormOf, Target, ZeroOf;
    if FormOf(op).Some? {
      FormProgress(s, k, rex, FormOf(op).value);
    }
  }

  lemma DecodeProgress()
    ensures Progressive(Decode)
  {
    hide ReadOpcode;
    forall pc: bv32, s: seq<byte>
      ensures Decode(pc, s).Some? ==> 0 < Decode(pc, s).value.1 <= |s| && Decode(pc, s).value.1 < 16
    {
      if |s| >= 2 {
        OpcodeProgress(pc, s, 2, s[0], s[1]);
      }
      if |s| >= 1 {
        OpcodeProgress(pc, s, 1, 0, s[0]);
      }
    }
  }

  /** Every statement takes between 1 and 15 bytes. */
  lemma EncodeShort(st: Concrete, here: bv32)
    ensures Encode(st, here).Some? ==> 0 < |Encode(st, here).value| < 16
  {
    hide MemForm, RegForm, DigitForm, Rex, ModRm, After, Distance, Low32, Low8;
  }

  /** The bytes of a list of statements laid out one after the other from `pc`. */
  function EncodeAll(sts: seq<Concrete>, pc: bv32): Option<seq<byte>>
    decreases |sts|
  {
    if sts == [] then Some([])
    else
      var e := Encode(sts[0], pc);
      if e.None? then None
      else
        EncodeShort(sts[0], pc);
        var rest := EncodeAll(sts[1..], After(pc, |e.value|));
        if rest.None? then None else Some(e.value + rest.value)
  }

  function ExpectedListing(sts: seq<Concrete>, pc: bv32): seq<Entry<Insn>>
    requires EncodeAll(sts, pc).Some?
    decreases |sts|
  {
    if sts == [] then []
    else
      var n := |Encode(sts[0], pc).value|;
      EncodeShort(sts[0], pc);
      EncodableAnywhere(sts[0], pc, 0);
      [Line(pc, Listed(sts[0], true), n)] + ExpectedListing(sts[1..], After(pc, n))
  }

  /** Whether a statement can be assembled does not depend on its address. */
  lemma EncodableAnywhere(st: Concrete, a: bv32, b: bv32)
    ensures Encode(st, a).Some? <==> Encode(st, b).Some?
    ensures Encode(st, a).Some? ==> |Encode(st, a).value| == |Encode(st, b).value|
  {
    hide MemForm, RegForm, DigitForm, Rex, After, Distance, Le64;
  }

  /** The address after the statements. */
  function EndOf(sts: seq<Concrete>, pc: bv32): bv32
    requires EncodeAll(sts, pc).Some?
    decreases |sts|
  {
    if sts == [] then pc
    else
      EncodeShort(sts[0], pc);
      EndOf(sts[1..], After(pc, |Encode(sts[0], pc).value|))
  }

  /**
   The sweep recovers every statement and every boundary, for any list of statements and whatever
   bytes come after them.
   */
  lemma {:induction false} SweepInvertsAssembly(sts: seq<Concrete>, pc: bv32, rest: seq<byte>)
    requires EncodeAll(sts, pc).Some?
    requires forall st | st in sts :: MemOf(st).Some? ==> Parsed(MemOf(st).value)
    requires Progressive(Decode)
    ensures Listing(Decode, pc, EncodeAll(sts, pc).value + rest)
            == ExpectedListing(sts, pc) + Listing(Decode, EndOf(sts, pc), rest)
    decreases |sts|
  {
    hide Decode, Encode, Listed, MemOf, Parsed, After, Listing, Progressive;
    if sts == [] {
      assert [] + rest == rest;
    } else {
      assert sts[0] in sts && forall st | st in sts[1..] :: st in sts;
      EncodeShort(sts[0], pc);
      var e := Encode(sts[0], pc).value;
      var next := After(pc, |e|);
      var more := EncodeAll(sts[1..], next).value;
      Reassociate(e, more, rest);
      FirstLine(pc, sts[0], more + rest);
      SweepInvertsAssembly(sts[1..], next, rest);
      var line := [Line(pc, Listed(sts[0], true), |e|)];
      Reassociate(line, ExpectedListing(sts[1..], next), Listing(Decode, EndOf(sts, pc), rest));
    }
  }

  lemma Reassociate<T>(a: seq<T>, b: seq<T>, c: seq<T>)
    ensures (a + b) + c == a + (b + c)
  {
  }

  /** A statement followed by anything is listed first, and the sweep goes on right behind it. */
  lemma FirstLine(pc: bv32, st: Concrete, tail: seq<byte>)
    requires Encode(st, pc).Some? && (MemOf(st).Some? ==> Parsed(MemOf(st).value)) && Progressive(Decode)
    ensures Encode(st, 0).Some? && |Encode(st, pc).value| < 16
    ensures Listing(Decode, pc, Encode(st, pc).value + tail)
            == [Line(pc, Listed(st, true), |Encode(st, pc).value|)]
               + Listing(Decode, After(pc, |Encode(st, pc).value|), tail)
  {
    hide Decode, Encode, Listed, MemOf, Parsed, After;
    EncodeShort(st, pc);
    var e := Encode(st, pc).value;
    var s := e + tail;
    assert s[..|e|] == e && s[|e|..] == tail;
    assert At(s, 0, e);
    StatementRoundTrip(pc, s, st);
  }
}
