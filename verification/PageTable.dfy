/**
 The page tables of `paging.h`: the 4-level x86_64 tree and the 2-level Sv32 tree.

 A table is a frame of entries. A table is named by the path of indices that leads to it from the
 root, so the whole tree is the partial function `Descend` from paths to frame addresses, and a full
 path (one index per level) leads to the mapped physical page.
 */
module PageTable {
  import opened Basics
  import opened Bits

  datatype Arch = X86 | Sv32 {

    function Levels(): nat {
      if X86? then 4 else 2
    }

    function Radix(): nat {
      if X86? then 512 else 1024
    }

    /** Physical addresses that an entry can hold. */
    function AddrLimit(): nat {
      if X86? then 0x10_0000_0000_0000 else U32
    }

    /** Non-zero page-aligned addresses within that range. */
    predicate Holds(f: nat) {
      f % 4096 == 0 && 0 < f < AddrLimit()
    }

    /** One past the largest virtual address type value. */
    function VaddrLimit(): nat {
      if X86? then 0x1_0000_0000_0000_0000 else U32
    }

    /** The virtual page number that translation looks at: bits 47..12, or bits 31..12 on Sv32. */
    function Page(v: nat): nat {
      if X86? then v / 4096 % 0x10_0000_0000 else v / 4096 % 0x10_0000
    }

    /** The index into the table of each level, root first. */
    function Path(v: nat): (p: seq<nat>)
      ensures |p| == Levels() && ValidPath(p)
    {
      Digits(v / 4096, Levels())
    }

    /** The `k` low digits of `n` in the radix of the tables, highest first. */
    function Digits(n: nat, k: nat): (d: seq<nat>)
      ensures |d| == k && ValidPath(d)
    {
      if k == 0 then [] else Digits(High(n), k - 1) + [Low(n)]
    }

    function High(n: nat): nat {
      if X86? then n / 512 else n / 1024
    }

    function Low(n: nat): (d: nat)
      ensures d < Radix()
    {
      if X86? then n % 512 else n % 1024
    }

    predicate ValidPath(p: seq<nat>) {
      forall k | 0 <= k < |p| :: p[k] < Radix()
    }

    /** The address field of an entry. */
    function Target(e: nat): nat {
      if X86? then e / 4096 % 0x100_0000_0000 * 4096 else e / 1024 * 4096 % U32
    }

    /** The entry that points to the next-level table `f`. */
    function TableEntry(f: nat, user: bool): nat {
      if X86? then f + 1 + 2 + (if user then 4 else 0) else f / 4096 * 1024 + 1
    }

    /** The leaf entry for the page of `paddr`. */
    function LeafEntry(paddr: nat, flags: Flags): nat {
      if X86? then SetNx(paddr / 4096 * 4096 + flags.X86Low(), flags.nx)
      else paddr / 4096 * 1024 % U32 + flags.Sv32Low()
    }
  }

  datatype Flags = Flags(write: bool, user: bool, nx: bool, global: bool) {
    function X86Low(): (f: nat)
      ensures f % 2 == 1 && f < 4096
    {
      1 + (if write then 2 else 0) + (if user then 4 else 0) + (if global then 256 else 0)
    }

    function Sv32Low(): (f: nat)
      ensures f % 2 == 1 && f < 1024
    {
      1 + 2 + (if write then 4 else 0) + (if user then 16 else 0) + (if global then 32 else 0)
    }
  }

  /** `x | (1 << 63)` when `nx` is asked for. */
  function SetNx(x: nat, nx: bool): nat {
    if nx && x / 0x8000_0000_0000_0000 % 2 == 0 then x + 0x8000_0000_0000_0000 else x
  }

  predicate Present(e: nat) {
    e % 2 == 1
  }

  lemma {:induction false} DigitsDetermine(a: Arch, n: nat, m: nat, k: nat)
    ensures a.Digits(n, k) == a.Digits(m, k) <==> n % Pow(a.Radix(), k) == m % Pow(a.Radix(), k)
  {
    if k > 0 {
      var p := Pow(a.Radix(), k - 1);
      DigitsDetermine(a, a.High(n), a.High(m), k - 1);
      SplitModulus(n, a.Radix(), p);
      SplitModulus(m, a.Radix(), p);
      LowDigitUnique(a.High(n) % p, a.Low(n), a.High(m) % p, a.Low(m), a.Radix());
      assert a.Digits(n, k)[..k - 1] == a.Digits(a.High(n), k - 1) && a.Digits(n, k)[k - 1] == a.Low(n);
      assert a.Digits(m, k)[..k - 1] == a.Digits(a.High(m), k - 1) && a.Digits(m, k)[k - 1] == a.Low(m);
    }
  }

  function Pow(r: nat, k: nat): (p: nat)
    requires r > 0
    ensures p > 0
  {
    if k == 0 then 1 else (MulAtLeast(r, Pow(r, k - 1)); r * Pow(r, k - 1))
  }

  lemma LowDigitUnique(a: nat, b: nat, c: nat, d: nat, r: nat)
    requires b < r && d < r
    ensures r * a + b == r * c + d <==> a == c && b == d
  {
    if r * a + b == r * c + d {
      assert r * a == a * r && r * c == c * r;
      DivModUnique(r * a + b, r, a, b);
      DivModUnique(r * a + b, r, c, d);
    }
  }

  /** Two addresses take the same path exactly when they lie on the same virtual page. */
  lemma SamePathSamePage(a: Arch, v: nat, w: nat)
    ensures a.Path(v) == a.Path(w) <==> a.Page(v) == a.Page(w)
  {
    DigitsDetermine(a, v / 4096, w / 4096, a.Levels());
    assert Pow(512, 2) == 0x40000;
    assert Pow(512, 4) == 0x10_0000_0000;
    assert Pow(1024, 2) == 0x10_0000;
  }

  /** The shifts and masks of the x86_64 code pick the digits of the page number. */
  lemma X86Indices(v: nat)
    ensures X86.Path(v) == [v / 0x80_0000_0000 % 512, v / 0x4000_0000 % 512, v / 0x20_0000 % 512, v / 0x1000 % 512]
  {
    SplitModulus(v, 4096, 512);
    SplitModulus(v, 0x20_0000, 512);
    SplitModulus(v, 0x4000_0000, 512);
    var n := v / 4096;
    var h := n / 512 / 512;
    assert X86.Digits(h, 2) == [h / 512 % 512, h % 512];
    assert X86.Digits(n / 512, 3) == [h / 512 % 512, h % 512, n / 512 % 512];
  }

  lemma Sv32Indices(v: nat)
    ensures Sv32.Path(v) == [v / 0x40_0000 % 1024, v / 0x1000 % 1024]
  {
    SplitModulus(v, 4096, 1024);
    assert Sv32.Digits(v / 4096, 2) == Sv32.Digits(v / 4096 / 1024, 1) + [v / 4096 % 1024];
  }

  lemma X86Entry(q: nat, user: bool)
    requires q < 0x100_0000_0000
    ensures var e := X86.TableEntry(q * 4096, user); Present(e) && X86.Target(e) == q * 4096
  {
    var low := if user then 7 else 3;
    assert X86.TableEntry(q * 4096, user) == q * 4096 + low;
    DivModUnique(q * 4096 + low, 4096, q, low);
    DivModUnique(q * 4096 + low, 2, q * 2048 + low / 2, 1);
  }

  lemma Sv32Entry(q: nat, user: bool)
    requires q < 0x10_0000
    ensures var e := Sv32.TableEntry(q * 4096, user); Present(e) && Sv32.Target(e) == q * 4096
  {
    DivModUnique(q * 4096, 4096, q, 0);
    assert Sv32.TableEntry(q * 4096, user) == q * 1024 + 1;
    DivModUnique(q * 1024 + 1, 1024, q, 1);
    DivModUnique(q * 1024 + 1, 2, q * 512, 1);
  }

  lemma EntryDecodes(a: Arch, f: nat, user: bool)
    requires a.Holds(f)
    ensures Present(a.TableEntry(f, user)) && a.Target(a.TableEntry(f, user)) == f
  {
    match a
    case X86 => X86Entry(f / 4096, user);
    case Sv32 => Sv32Entry(f / 4096, user);
  }

  lemma AddressField(q: nat, low: nat, nx: bool)
    requires low < 4096
    ensures (q * 4096 + low + (if nx then 0x8000_0000_0000_0000 else 0)) / 4096 % 0x100_0000_0000 * 4096
            == q * 4096 % 0x10_0000_0000_0000
  {
    var top := if nx then 0x8_0000_0000_0000 else 0;
    var e := q * 4096 + low + (if nx then 0x8000_0000_0000_0000 else 0);
    DivModUnique(e, 4096, q + top, low);
    DivModUnique(q + top, 0x100_0000_0000, q / 0x100_0000_0000 + (if nx then 0x800 else 0), q % 0x100_0000_0000);
    DivModUnique(q * 4096, 0x10_0000_0000_0000, q / 0x100_0000_0000, q % 0x100_0000_0000 * 4096);
  }

  lemma X86Leaf(q: nat, low: nat, nx: bool)
    requires low < 4096 && low % 2 == 1
    ensures Present(SetNx(q * 4096 + low, nx))
    ensures X86.Target(SetNx(q * 4096 + low, nx)) == q * 4096 % 0x10_0000_0000_0000
  {
    var x := q * 4096 + low;
    var set63 := nx && x / 0x8000_0000_0000_0000 % 2 == 0;
    AddressField(q, low, set63);
    assert SetNx(x, nx) == x + (if set63 then 0x8000_0000_0000_0000 else 0);
  }

  lemma Sv32Leaf(q: nat, low: nat)
    requires low < 1024 && low % 2 == 1 && q < 0x10_0000
    ensures Present(q * 1024 % U32 + low)
    ensures Sv32.Target(q * 1024 % U32 + low) == q * 4096
  {
    DivModUnique(q * 1024, U32, 0, q * 1024);
    DivModUnique(q * 1024 + low, 1024, q, low);
    DivModUnique(q * 1024 + low, 2, q * 512 + low / 2, 1);
  }

  /** The leaf gives back the physical page; on x86_64 bits 52 and up of the address are dropped. */
  lemma LeafDecodes(a: Arch, paddr: nat, flags: Flags)
    requires paddr < a.VaddrLimit()
    ensures Present(a.LeafEntry(paddr, flags))
    ensures a.Target(a.LeafEntry(paddr, flags)) == paddr / 4096 * 4096 % a.AddrLimit()
  {
    match a
    case X86 => X86Leaf(paddr / 4096, flags.X86Low(), flags.nx);
    case Sv32 => Sv32Leaf(paddr / 4096, flags.Sv32Low());
  }
}
