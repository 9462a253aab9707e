/** What the parts of `Sha256Spec` mean: bytes as numbers, words bit by bit, and where the constants come from. */
module Sha256Meaning {
  import LE = Words
  import opened Sha256Laws
  import opened Sha256Spec

  // ---------- bytes ----------

  lemma ByteAsBits(a: Byte)
    ensures LE.Nat8(a as bv8) == a as nat
  {
  }

  lemma BitsAsByte(b: bv8)
    ensures (b as Byte) as nat == LE.Nat8(b)
  {
  }

  lemma ValueStep(s: seq<Byte>, b: Byte)
    ensures Value(s + [b]) == 256 * Value(s) + b as nat
  {
    assert (s + [b])[..|s|] == s;
  }

  lemma Value4(a: Byte, b: Byte, c: Byte, d: Byte)
    ensures Value([a, b, c, d])
            == 0x100_0000 * (a as nat) + 0x1_0000 * (b as nat) + 0x100 * (c as nat) + (d as nat)
  {
    assert [a, b, c, d] == (([] + [a]) + [b] + [c]) + [d];
    ValueStep([], a);
    ValueStep([] + [a], b);
    ValueStep([] + [a] + [b], c);
    ValueStep([] + [a] + [b] + [c], d);
  }

  lemma Joined(a: bv8, b: bv8, c: bv8, d: bv8)
    ensures LE.Nat32((a as Word << 24) | (b as Word << 16) | (c as Word << 8) | (d as Word))
            == 0x100_0000 * LE.Nat8(a) + 0x1_0000 * LE.Nat8(b) + 0x100 * LE.Nat8(c) + LE.Nat8(d)
  {
    var w := (a as Word << 24) | (b as Word << 16) | (c as Word << 8) | (d as Word);
    LE.Joined32(d, c, b, a, w);
  }

  /** A word of the message is the number its four bytes spell, most significant first. */
  lemma WordIsValue(a: Byte, b: Byte, c: Byte, d: Byte)
    ensures LE.Nat32(Be32(a, b, c, d)) == Value([a, b, c, d])
  {
    Joined(a as bv8, b as bv8, c as bv8, d as bv8);
    hide LE.Nat8, LE.Nat32, Value;
    ByteAsBits(a);
    ByteAsBits(b);
    ByteAsBits(c);
    ByteAsBits(d);
    Value4(a, b, c, d);
  }

  function ByteOf(w: Word, k: bv6): bv8
    requires k <= 24
  {
    ((w >> k) & 0xFF) as bv8
  }

  lemma LowIs(w: Word)
    ensures Low(w >> 24) as nat == LE.Nat8(ByteOf(w, 24)) && Low(w >> 16) as nat == LE.Nat8(ByteOf(w, 16))
    ensures Low(w >> 8) as nat == LE.Nat8(ByteOf(w, 8)) && Low(w) as nat == LE.Nat8(ByteOf(w, 0))
  {
    hide LE.Nat8;
    BitsAsByte(ByteOf(w, 24));
    BitsAsByte(ByteOf(w, 16));
    BitsAsByte(ByteOf(w, 8));
    BitsAsByte(ByteOf(w, 0));
  }

  lemma WordFromBytes(w: Word)
    ensures (ByteOf(w, 24) as Word << 24) | (ByteOf(w, 16) as Word << 16) | (ByteOf(w, 8) as Word << 8)
            | (ByteOf(w, 0) as Word) == w
  {
  }

  /** The four bytes written for a word spell it, most significant first. */
  lemma WordBytesValue(w: Word)
    ensures |WordBytes(w)| == 4 && Value(WordBytes(w)) == LE.Nat32(w)
  {
    hide LE.Nat8, LE.Nat32, Low, ByteOf, Value;
    WordFromBytes(w);
    Joined(ByteOf(w, 24), ByteOf(w, 16), ByteOf(w, 8), ByteOf(w, 0));
    LowIs(w);
    Value4(Low(w >> 24), Low(w >> 16), Low(w >> 8), Low(w));
  }

  lemma {:induction false} BytesAt(h: seq<Word>, i: nat)
    requires i < |h|
    ensures Bytes(h)[4 * i..4 * i + 4] == WordBytes(h[i])
  {
    hide WordBytes;
    var n := |h| - 1;
    assert |Bytes(h[..n])| == 4 * n;
    if i < n {
      BytesAt(h[..n], i);
      assert Bytes(h)[4 * i..4 * i + 4] == Bytes(h[..n])[4 * i..4 * i + 4];
    } else {
      assert Bytes(h)[4 * n..4 * n + 4] == WordBytes(h[n]);
    }
  }

  /** Bytes `4i` to `4i + 3` of the digest spell word `i` of the final hash. */
  lemma DigestSpells(m: seq<Byte>, i: nat)
    requires i < 8
    ensures |Digest(m)| == 32 && Value(Digest(m)[4 * i..4 * i + 4]) == LE.Nat32(Fold(H0, Pad(m))[i])
  {
    hide Fold, Bytes, WordBytes, Value, LE.Nat32, Pad;
    var h := Fold(H0, Pad(m));
    BytesAt(h, i);
    WordBytesValue(h[i]);
  }

  // ---------- sums ----------

  /** The sum of the words as numbers. */
  function Total(ws: seq<Word>): nat {
    if ws == [] then 0 else Total(ws[..|ws| - 1]) + LE.Nat32(ws[|ws| - 1])
  }

  lemma TotalStep(ws: seq<Word>, w: Word)
    ensures Total(ws + [w]) == Total(ws) + LE.Nat32(w)
  {
    hide LE.Nat32;
    assert (ws + [w])[..|ws|] == ws;
  }

  const M32 := 0x1_0000_0000

  /** `x` is the sum of `ws` modulo 2^32. */
  ghost predicate SumIs(x: Word, ws: seq<Word>) {
    LE.Nat32(x) == Total(ws) % M32
  }

  lemma SumFirst(x: Word)
    ensures SumIs(x, [x])
  {
    LE.Bounds(0, 0, x);
    hide LE.Nat32;
    assert [x] == [] + [x];
    TotalStep([], x);
  }

  lemma SumNext(x: Word, ws: seq<Word>, w: Word)
    requires SumIs(x, ws)
    ensures SumIs(Plus(x, w), ws + [w])
  {
    hide LE.Nat32, Total;
    LE.PlusValue(x, w);
    assert Plus(x, w) == LE.Plus(x, w);
    hide Plus, LE.Plus;
    TotalStep(ws, w);
    Carried(Total(ws), LE.Nat32(w));
  }

  lemma Carried(n: nat, k: nat)
    ensures (n % M32 + k) % M32 == (n + k) % M32
  {
  }

  lemma SumOf2(a: Word, b: Word)
    ensures SumIs(Plus(a, b), [a, b])
  {
    hide SumIs, Plus;
    assert [a, b] == [a] + [b];
    SumFirst(a);
    SumNext(a, [a], b);
  }

  lemma SumOf4(a: Word, b: Word, c: Word, d: Word)
    ensures SumIs(Plus(Plus(Plus(a, b), c), d), [a, b, c, d])
  {
    hide SumIs, Plus;
    assert [a, b, c] == [a, b] + [c] && [a, b, c, d] == [a, b, c] + [d];
    SumOf2(a, b);
    SumNext(Plus(a, b), [a, b], c);
    SumNext(Plus(Plus(a, b), c), [a, b, c], d);
  }

  /** Two sums added: the second as a whole. */
  lemma SumJoin(x: Word, xs: seq<Word>, y: Word, ys: seq<Word>)
    requires SumIs(x, xs) && SumIs(y, ys)
    ensures SumIs(Plus(x, y), xs + ys)
  {
    hide LE.Nat32, Total;
    LE.PlusValue(x, y);
    assert Plus(x, y) == LE.Plus(x, y);
    hide Plus, LE.Plus;
    TotalConcat(xs, ys);
    BothCarried(Total(xs), Total(ys));
  }

  lemma BothCarried(n: nat, k: nat)
    ensures (n % M32 + k % M32) % M32 == (n + k) % M32
  {
  }

  lemma {:induction false} TotalConcat(xs: seq<Word>, ys: seq<Word>)
    ensures Total(xs + ys) == Total(xs) + Total(ys)
    decreases |ys|
  {
    hide LE.Nat32;
    if ys == [] {
      assert xs + ys == xs;
    } else {
      var init, last := ys[..|ys| - 1], ys[|ys| - 1];
      assert xs + ys == (xs + init) + [last] && ys == init + [last];
      TotalStep(xs + init, last);
      TotalStep(init, last);
      TotalConcat(xs, init);
    }
  }

  /** What a round adds up for the new `e`, apart from `d`. */
  function Added(s: Vars, k: Word, w: Word): seq<Word> {
    [s.h, BigSigma1(s.e), Ch(s.e, s.f, s.g), k, w]
  }

  lemma T1Sum(s: Vars, k: Word, w: Word)
    ensures SumIs(T1(s, k, w), Added(s, k, w))
  {
    hide SumIs, Plus, BigSigma1, Ch;
    var a, b, c := s.h, BigSigma1(s.e), Ch(s.e, s.f, s.g);
    assert [a, b, c, k, w] == [a, b, c, k] + [w];
    SumOf4(a, b, c, k);
    SumNext(Plus(Plus(Plus(a, b), c), k), [a, b, c, k], w);
  }

  /**
   Section 6.2.2 of FIPS 180-4 in numbers: after a round, `a` and `e` are these sums modulo 2^32 and the
   other variables have moved down.
   */
  lemma RoundIs(s: Vars, k: Word, w: Word)
    ensures var x := Round(s, k, w);
            && SumIs(x.e, [s.d] + [s.h, BigSigma1(s.e), Ch(s.e, s.f, s.g), k, w])
            && SumIs(x.a, [s.h, BigSigma1(s.e), Ch(s.e, s.f, s.g), k, w] + [BigSigma0(s.a), Maj(s.a, s.b, s.c)])
            && x.b == s.a && x.c == s.b && x.d == s.c && x.f == s.e && x.g == s.f && x.h == s.g
  {
    hide SumIs, Plus, BigSigma0, BigSigma1, Ch, Maj, T1;
    T1Sum(s, k, w);
    SumFirst(s.d);
    SumOf2(BigSigma0(s.a), Maj(s.a, s.b, s.c));
    SumJoin(s.d, [s.d], T1(s, k, w), Added(s, k, w));
    SumJoin(T1(s, k, w), Added(s, k, w), T2(s), [BigSigma0(s.a), Maj(s.a, s.b, s.c)]);
  }

  /** A block adds each working variable, after sixty-four rounds, to its own hash word modulo 2^32. */
  lemma BlockIs(h: Hash, blk: seq<Byte>, i: nat)
    requires |blk| == 64 && i < 8
    ensures var v := Rounds(Load(h), Schedule(blk, 64), 64);
            SumIs(Block(h, blk)[i], [h[i], [v.a, v.b, v.c, v.d, v.e, v.f, v.g, v.h][i]])
  {
    hide SumIs, Plus, Rounds, Schedule;
    var v := Rounds(Load(h), Schedule(blk, 64), 64);
    SumOf2(h[i], [v.a, v.b, v.c, v.d, v.e, v.f, v.g, v.h][i]);
  }

  /** The schedule opens with the numbers the block spells and goes on by its recurrence. */
  lemma {:induction false} ScheduleIs(blk: seq<Byte>, t: nat, n: nat)
    requires |blk| == 64 && t < n <= 64
    ensures var w := Schedule(blk, n);
            if t < 16 then LE.Nat32(w[t]) == Value(blk[4 * t..4 * t + 4])
            else SumIs(w[t], [w[t - 16], SmallSigma0(w[t - 15]), w[t - 7], SmallSigma1(w[t - 2])])
    decreases n
  {
    hide Be32, Value, LE.Nat32, SumIs, Plus, SmallSigma0, SmallSigma1;
    if t < n - 1 {
      ScheduleIs(blk, t, n - 1);
    } else if t < 16 {
      var a, b, c, d := blk[4 * t], blk[4 * t + 1], blk[4 * t + 2], blk[4 * t + 3];
      WordIsValue(a, b, c, d);
      assert blk[4 * t..4 * t + 4] == [a, b, c, d];
    } else {
      var w := Schedule(blk, n);
      SumOf4(w[t - 16], SmallSigma0(w[t - 15]), w[t - 7], SmallSigma1(w[t - 2]));
    }
  }

  // ---------- rounds ----------

  /**
   The eight variables are two shift registers of four: a value of `a` comes out as `d` three rounds
   later, a value of `e` as `h`.
   */
  lemma ShiftRegisters(v: Vars, w: seq<Word>, t: nat)
    requires t + 3 <= |w| <= 64
    ensures var s, x, y, z := Rounds(v, w, t), Rounds(v, w, t + 1), Rounds(v, w, t + 2), Rounds(v, w, t + 3);
            && x.b == s.a && y.c == s.a && z.d == s.a
            && x.f == s.e && y.g == s.e && z.h == s.e
  {
    hide T1, T2, Plus;
    RoundsStep(v, w, t);
    RoundsStep(v, w, t + 1);
    RoundsStep(v, w, t + 2);
  }

  lemma RoundsStep(v: Vars, w: seq<Word>, t: nat)
    requires t + 1 <= |w| <= 64
    ensures Rounds(v, w, t + 1) == Round(Rounds(v, w, t), K[t], w[t])
  {
    hide Round;
  }

  // ---------- bits ----------

  /** Bit `j` of a word, counted from the least significant; `j + n` is taken modulo 32. */
  predicate Bit(v: Word, j: bv5) {
    v & (1 << j) != 0
  }

  lemma BitMask(j: bv5)
    ensures var m: Word := 1 << j; m != 0 && m & (m - 1) == 0
  {
  }

  lemma BitIs(v: Word, j: bv5)
    ensures Bit(v, j) <==> v & (1 << j) != 0
  {
  }

  lemma ChMask(x: Word, y: Word, z: Word, m: Word)
    requires m != 0 && m & (m - 1) == 0
    ensures ((x & y) ^ (!x & z)) & m != 0 <==> if x & m != 0 then y & m != 0 else z & m != 0
  {
  }

  lemma MajMask(x: Word, y: Word, z: Word, m: Word)
    requires m != 0 && m & (m - 1) == 0
    ensures ((x & y) ^ (x & z) ^ (y & z)) & m != 0 <==>
            || (x & m != 0 && y & m != 0) || (x & m != 0 && z & m != 0) || (y & m != 0 && z & m != 0)
  {
  }

  lemma XorMask(x: Word, y: Word, z: Word, m: Word)
    requires m != 0 && m & (m - 1) == 0
    ensures (x ^ y ^ z) & m != 0 <==> ((x & m != 0) <==> ((y & m != 0) <==> (z & m != 0)))
  {
  }

  lemma ChIs(x: Word, y: Word, z: Word, j: bv5)
    ensures Ch(x, y, z) & (1 << j) != 0 <==>
            if x & (1 << j) != 0 then y & (1 << j) != 0 else z & (1 << j) != 0
  {
    BitMask(j);
    var m: Word := 1 << j;
    ChMask(x, y, z, m);
  }

  lemma MajIs(x: Word, y: Word, z: Word, j: bv5)
    ensures var m: Word := 1 << j;
            Maj(x, y, z) & m != 0 <==>
            || (x & m != 0 && y & m != 0) || (x & m != 0 && z & m != 0) || (y & m != 0 && z & m != 0)
  {
    BitMask(j);
    var m: Word := 1 << j;
    MajMask(x, y, z, m);
  }

  /** `Ch` chooses: where `x` has a one, the bit of `y`, elsewhere the bit of `z`. */
  lemma ChBit(x: Word, y: Word, z: Word, j: bv5)
    ensures Bit(Ch(x, y, z), j) <==> if Bit(x, j) then Bit(y, j) else Bit(z, j)
  {
    hide Bit, Ch;
    ChIs(x, y, z, j);
    BitIs(x, j);
    BitIs(y, j);
    BitIs(z, j);
    BitIs(Ch(x, y, z), j);
  }

  /** `Maj` takes the majority of the three bits. */
  lemma MajBit(x: Word, y: Word, z: Word, j: bv5)
    ensures Bit(Maj(x, y, z), j) <==>
            (Bit(x, j) && Bit(y, j)) || (Bit(x, j) && Bit(z, j)) || (Bit(y, j) && Bit(z, j))
  {
    hide Bit, Maj;
    MajIs(x, y, z, j);
    BitIs(x, j);
    BitIs(y, j);
    BitIs(z, j);
    BitIs(Maj(x, y, z), j);
  }

  lemma Rotr2(x: Word, j: bv5)
    ensures Bit(Rotr(x, 2), j) <==> Bit(x, j + 2)
  {
  }

  lemma Rotr13(x: Word, j: bv5)
    ensures Bit(Rotr(x, 13), j) <==> Bit(x, j + 13)
  {
  }

  lemma Rotr22(x: Word, j: bv5)
    ensures Bit(Rotr(x, 22), j) <==> Bit(x, j + 22)
  {
  }

  lemma Rotr6(x: Word, j: bv5)
    ensures Bit(Rotr(x, 6), j) <==> Bit(x, j + 6)
  {
  }

  lemma Rotr11(x: Word, j: bv5)
    ensures Bit(Rotr(x, 11), j) <==> Bit(x, j + 11)
  {
  }

  lemma Rotr25(x: Word, j: bv5)
    ensures Bit(Rotr(x, 25), j) <==> Bit(x, j + 25)
  {
  }

  lemma Rotr7(x: Word, j: bv5)
    ensures Bit(Rotr(x, 7), j) <==> Bit(x, j + 7)
  {
  }

  lemma Rotr18(x: Word, j: bv5)
    ensures Bit(Rotr(x, 18), j) <==> Bit(x, j + 18)
  {
  }

  lemma Rotr17(x: Word, j: bv5)
    ensures Bit(Rotr(x, 17), j) <==> Bit(x, j + 17)
  {
  }

  lemma Rotr19(x: Word, j: bv5)
    ensures Bit(Rotr(x, 19), j) <==> Bit(x, j + 19)
  {
  }

  lemma Shifted3(x: Word, j: bv5)
    ensures Bit(x >> 3, j) <==> j < 29 && Bit(x, j + 3)
  {
  }

  lemma Shr3(x: Word, j: bv5)
    ensures Bit(Shr(x, 3), j) <==> j < 29 && Bit(x, j + 3)
  {
    hide Bit;
    Shifted3(x, j);
  }

  lemma Shifted10(x: Word, j: bv5)
    ensures Bit(x >> 10, j) <==> j < 22 && Bit(x, j + 10)
  {
  }

  lemma Shr10(x: Word, j: bv5)
    ensures Bit(Shr(x, 10), j) <==> j < 22 && Bit(x, j + 10)
  {
    hide Bit;
    Shifted10(x, j);
  }

  lemma XorBit(x: Word, y: Word, z: Word, j: bv5)
    ensures Bit(Xor(x, y, z), j) <==> (Bit(x, j) <==> (Bit(y, j) <==> Bit(z, j)))
  {
    BitMask(j);
    var m: Word := 1 << j;
    XorMask(x, y, z, m);
  }

  /** Bit `j` is the parity of bits `j + 2`, `j + 13` and `j + 22`, modulo 32. */
  lemma BigSigma0Bit(x: Word, j: bv5)
    ensures Bit(BigSigma0(x), j) <==> (Bit(x, j + 2) <==> (Bit(x, j + 13) <==> Bit(x, j + 22)))
  {
    hide Bit, Rotr, Shr, Xor;
    Rotr2(x, j);
    Rotr13(x, j);
    Rotr22(x, j);
    XorBit(Rotr(x, 2), Rotr(x, 13), Rotr(x, 22), j);
  }

  /** Bit `j` is the parity of bits `j + 6`, `j + 11` and `j + 25`, modulo 32. */
  lemma BigSigma1Bit(x: Word, j: bv5)
    ensures Bit(BigSigma1(x), j) <==> (Bit(x, j + 6) <==> (Bit(x, j + 11) <==> Bit(x, j + 25)))
  {
    hide Bit, Rotr, Shr, Xor;
    Rotr6(x, j);
    Rotr11(x, j);
    Rotr25(x, j);
    XorBit(Rotr(x, 6), Rotr(x, 11), Rotr(x, 25), j);
  }

  /** The same with a shift in place of one rotation: no bit comes around from below. */
  lemma SmallSigma0Bit(x: Word, j: bv5)
    ensures Bit(SmallSigma0(x), j) <==>
            (Bit(x, j + 7) <==> (Bit(x, j + 18) <==> (j < 29 && Bit(x, j + 3))))
  {
    hide Bit, Rotr, Shr, Xor;
    Rotr7(x, j);
    Rotr18(x, j);
    Shr3(x, j);
    XorBit(Rotr(x, 7), Rotr(x, 18), Shr(x, 3), j);
  }

  /** The same with a shift in place of one rotation: no bit comes around from below. */
  lemma SmallSigma1Bit(x: Word, j: bv5)
    ensures Bit(SmallSigma1(x), j) <==>
            (Bit(x, j + 17) <==> (Bit(x, j + 19) <==> (j < 22 && Bit(x, j + 10))))
  {
    hide Bit, Rotr, Shr, Xor;
    Rotr17(x, j);
    Rotr19(x, j);
    Shr10(x, j);
    XorBit(Rotr(x, 17), Rotr(x, 19), Shr(x, 10), j);
  }

  // ---------- constants ----------

  /** The first sixty-four primes. */
  const PRIMES: seq<nat> :=
    (([2, 3, 5, 7, 11, 13, 17, 19] + [23, 29, 31, 37, 41, 43, 47, 53])
     + ([59, 61, 67, 71, 73, 79, 83, 89] + [97, 101, 103, 107, 109, 113, 127, 131]))
    + (([137, 139, 149, 151, 157, 163, 167, 173] + [179, 181, 191, 193, 197, 199, 211, 223])
       + ([227, 229, 233, 239, 241, 251, 257, 263] + [269, 271, 277, 281, 283, 293, 307, 311]))

  /** `w` holds the first 32 bits of the fraction of the square root of `p`. */
  ghost predicate SquareRootBits(p: nat, w: Word) {
    exists a: nat :: IsSquareRoot(p, a, w)
  }

  predicate IsSquareRoot(p: nat, a: nat, w: Word) {
    var x := a * 0x1_0000_0000 + LE.Nat32(w);
    x * x <= p * 0x1_0000_0000_0000_0000 < (x + 1) * (x + 1)
  }

  /** The same for the cube root. */
  ghost predicate CubeRootBits(p: nat, w: Word) {
    exists a: nat :: IsCubeRoot(p, a, w)
  }

  predicate IsCubeRoot(p: nat, a: nat, w: Word) {
    var x := a * 0x1_0000_0000 + LE.Nat32(w);
    x * x * x <= p * 0x1_0000_0000_0000_0000_0000_0000 < (x + 1) * (x + 1) * (x + 1)
  }

  lemma CubeRoots0(t: nat)
    requires 0 <= t < 8
    ensures CubeRootBits(PRIMES[t], K[t])
  {
    match t
    case 0 => assert IsCubeRoot(PRIMES[0], 1, K[0]);
    case 1 => assert IsCubeRoot(PRIMES[1], 1, K[1]);
    case 2 => assert IsCubeRoot(PRIMES[2], 1, K[2]);
    case 3 => assert IsCubeRoot(PRIMES[3], 1, K[3]);
    case 4 => assert IsCubeRoot(PRIMES[4], 2, K[4]);
    case 5 => assert IsCubeRoot(PRIMES[5], 2, K[5]);
    case 6 => assert IsCubeRoot(PRIMES[6], 2, K[6]);
    case _ => assert IsCubeRoot(PRIMES[7], 2, K[7]);
  }

  lemma CubeRoots1(t: nat)
    requires 8 <= t < 16
    ensures CubeRootBits(PRIMES[t], K[t])
  {
    match t
    case 8 => assert IsCubeRoot(PRIMES[8], 2, K[8]);
    case 9 => assert IsCubeRoot(PRIMES[9], 3, K[9]);
    case 10 => assert IsCubeRoot(PRIMES[10], 3, K[10]);
    case 11 => assert IsCubeRoot(PRIMES[11], 3, K[11]);
    case 12 => assert IsCubeRoot(PRIMES[12], 3, K[12]);
    case 13 => assert IsCubeRoot(PRIMES[13], 3, K[13]);
    case 14 => assert IsCubeRoot(PRIMES[14], 3, K[14]);
    case _ => assert IsCubeRoot(PRIMES[15], 3, K[15]);
  }

  lemma CubeRoots2(t: nat)
    requires 16 <= t < 24
    ensures CubeRootBits(PRIMES[t], K[t])
  {
    match t
    case 16 => assert IsCubeRoot(PRIMES[16], 3, K[16]);
    case 17 => assert IsCubeRoot(PRIMES[17], 3, K[17]);
    case 18 => assert IsCubeRoot(PRIMES[18], 4, K[18]);
    case 19 => assert IsCubeRoot(PRIMES[19], 4, K[19]);
    case 20 => assert IsCubeRoot(PRIMES[20], 4, K[20]);
    case 21 => assert IsCubeRoot(PRIMES[21], 4, K[21]);
    case 22 => assert IsCubeRoot(PRIMES[22], 4, K[22]);
    case _ => assert IsCubeRoot(PRIMES[23], 4, K[23]);
  }

  lemma CubeRoots3(t: nat)
    requires 24 <= t < 32
    ensures CubeRootBits(PRIMES[t], K[t])
  {
    match t
    case 24 => assert IsCubeRoot(PRIMES[24], 4, K[24]);
    case 25 => assert IsCubeRoot(PRIMES[25], 4, K[25]);
    case 26 => assert IsCubeRoot(PRIMES[26], 4, K[26]);
    case 27 => assert IsCubeRoot(PRIMES[27], 4, K[27]);
    case 28 => assert IsCubeRoot(PRIMES[28], 4, K[28]);
    case 29 => assert IsCubeRoot(PRIMES[29], 4, K[29]);
    case 30 => assert IsCubeRoot(PRIMES[30], 5, K[30]);
    case _ => assert IsCubeRoot(PRIMES[31], 5, K[31]);
  }

  lemma CubeRoots4(t: nat)
    requires 32 <= t < 40
    ensures CubeRootBits(PRIMES[t], K[t])
  {
    match t
    case 32 => assert IsCubeRoot(PRIMES[32], 5, K[32]);
    case 33 => assert IsCubeRoot(PRIMES[33], 5, K[33]);
    case 34 => assert IsCubeRoot(PRIMES[34], 5, K[34]);
    case 35 => assert IsCubeRoot(PRIMES[35], 5, K[35]);
    case 36 => assert IsCubeRoot(PRIMES[36], 5, K[36]);
    case 37 => assert IsCubeRoot(PRIMES[37], 5, K[37]);
    case 38 => assert IsCubeRoot(PRIMES[38], 5, K[38]);
    case _ => assert IsCubeRoot(PRIMES[39], 5, K[39]);
  }

  lemma CubeRoots5(t: nat)
    requires 40 <= t < 48
    ensures CubeRootBits(PRIMES[t], K[t])
  {
    match t
    case 40 => assert IsCubeRoot(PRIMES[40], 5, K[40]);
    case 41 => assert IsCubeRoot(PRIMES[41], 5, K[41]);
    case 42 => assert IsCubeRoot(PRIMES[42], 5, K[42]);
    case 43 => assert IsCubeRoot(PRIMES[43], 5, K[43]);
    case 44 => assert IsCubeRoot(PRIMES[44], 5, K[44]);
    case 45 => assert IsCubeRoot(PRIMES[45], 5, K[45]);
    case 46 => assert IsCubeRoot(PRIMES[46], 5, K[46]);
    case _ => assert IsCubeRoot(PRIMES[47], 6, K[47]);
  }

  lemma CubeRoots6(t: nat)
    requires 48 <= t < 56
    ensures CubeRootBits(PRIMES[t], K[t])
  {
    match t
    case 48 => assert IsCubeRoot(PRIMES[48], 6, K[48]);
    case 49 => assert IsCubeRoot(PRIMES[49], 6, K[49]);
    case 50 => assert IsCubeRoot(PRIMES[50], 6, K[50]);
    case 51 => assert IsCubeRoot(PRIMES[51], 6, K[51]);
    case 52 => assert IsCubeRoot(PRIMES[52], 6, K[52]);
    case 53 => assert IsCubeRoot(PRIMES[53], 6, K[53]);
    case 54 => assert IsCubeRoot(PRIMES[54], 6, K[54]);
    case _ => assert IsCubeRoot(PRIMES[55], 6, K[55]);
  }

  lemma CubeRoots7(t: nat)
    requires 56 <= t < 64
    ensures CubeRootBits(PRIMES[t], K[t])
  {
    match t
    case 56 => assert IsCubeRoot(PRIMES[56], 6, K[56]);
    case 57 => assert IsCubeRoot(PRIMES[57], 6, K[57]);
    case 58 => assert IsCubeRoot(PRIMES[58], 6, K[58]);
    case 59 => assert IsCubeRoot(PRIMES[59], 6, K[59]);
    case 60 => assert IsCubeRoot(PRIMES[60], 6, K[60]);
    case 61 => assert IsCubeRoot(PRIMES[61], 6, K[61]);
    case 62 => assert IsCubeRoot(PRIMES[62], 6, K[62]);
    case _ => assert IsCubeRoot(PRIMES[63], 6, K[63]);
  }

  /** The initial hash is made of the fractions of the square roots of the first eight primes. */
  lemma InitialHashIs(i: nat)
    requires i < 8
    ensures SquareRootBits(PRIMES[i], H0[i])
  {
    assert IsSquareRoot(PRIMES[0], 1, H0[0]);
    assert IsSquareRoot(PRIMES[1], 1, H0[1]);
    assert IsSquareRoot(PRIMES[2], 2, H0[2]);
    assert IsSquareRoot(PRIMES[3], 2, H0[3]);
    assert IsSquareRoot(PRIMES[4], 3, H0[4]);
    assert IsSquareRoot(PRIMES[5], 3, H0[5]);
    assert IsSquareRoot(PRIMES[6], 4, H0[6]);
    assert IsSquareRoot(PRIMES[7], 4, H0[7]);
  }

  /** The round constants are the fractions of the cube roots of the first sixty-four primes. */
  lemma ConstantsAre(t: nat)
    requires t < 64
    ensures CubeRootBits(PRIMES[t], K[t])
  {
    hide CubeRootBits;
    match t / 8
    case 0 => CubeRoots0(t);
    case 1 => CubeRoots1(t);
    case 2 => CubeRoots2(t);
    case 3 => CubeRoots3(t);
    case 4 => CubeRoots4(t);
    case 5 => CubeRoots5(t);
    case 6 => CubeRoots6(t);
    case _ => CubeRoots7(t);
  }
}
