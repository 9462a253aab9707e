/** SHA-256 as FIPS 180-4 defines it: padding (section 5.1.1), the schedule and the rounds (section 6.2.2). */
module Sha256Spec {
  import opened Basics

  newtype Byte = x: int | 0 <= x < 256
  type Word = bv32

  /** The eight words of section 5.3.3. */
  const H0: seq<Word> := [
    0x6a09e667, 0xbb67ae85, 0x3c6ef372, 0xa54ff53a, 0x510e527f, 0x9b05688c, 0x1f83d9ab, 0x5be0cd19]

  /** The sixty-four constants of section 4.2.2. */
  const K: seq<Word> :=
    (([0x428a2f98, 0x71374491, 0xb5c0fbcf, 0xe9b5dba5, 0x3956c25b, 0x59f111f1, 0x923f82a4, 0xab1c5ed5]
      + [0xd807aa98, 0x12835b01, 0x243185be, 0x550c7dc3, 0x72be5d74, 0x80deb1fe, 0x9bdc06a7, 0xc19bf174])
     + ([0xe49b69c1, 0xefbe4786, 0x0fc19dc6, 0x240ca1cc, 0x2de92c6f, 0x4a7484aa, 0x5cb0a9dc, 0x76f988da]
        + [0x983e5152, 0xa831c66d, 0xb00327c8, 0xbf597fc7, 0xc6e00bf3, 0xd5a79147, 0x06ca6351, 0x14292967]))
    + (([0x27b70a85, 0x2e1b2138, 0x4d2c6dfc, 0x53380d13, 0x650a7354, 0x766a0abb, 0x81c2c92e, 0x92722c85]
        + [0xa2bfe8a1, 0xa81a664b, 0xc24b8b70, 0xc76c51a3, 0xd192e819, 0xd6990624, 0xf40e3585, 0x106aa070])
       + ([0x19a4c116, 0x1e376c08, 0x2748774c, 0x34b0bcb5, 0x391c0cb3, 0x4ed8aa4a, 0x5b9cca4f, 0x682e6ff3]
          + [0x748f82ee, 0x78a5636f, 0x84c87814, 0x8cc70208, 0x90befffa, 0xa4506ceb, 0xbef9a3f7, 0xc67178f2]))

  function Rotr(v: Word, n: bv6): Word
    requires 0 < n < 32
  {
    (v >> n) | (v << (32 - n))
  }

  function Shr(v: Word, n: bv6): Word
    requires n < 32
  {
    v >> n
  }

  function Xor(x: Word, y: Word, z: Word): Word { x ^ y ^ z }

  function BigSigma0(x: Word): Word { Xor(Rotr(x, 2), Rotr(x, 13), Rotr(x, 22)) }

  function BigSigma1(x: Word): Word { Xor(Rotr(x, 6), Rotr(x, 11), Rotr(x, 25)) }

  function SmallSigma0(x: Word): Word { Xor(Rotr(x, 7), Rotr(x, 18), Shr(x, 3)) }

  function SmallSigma1(x: Word): Word { Xor(Rotr(x, 17), Rotr(x, 19), Shr(x, 10)) }

  function Ch(x: Word, y: Word, z: Word): Word { (x & y) ^ (!x & z) }

  function Maj(x: Word, y: Word, z: Word): Word { (x & y) ^ (x & z) ^ (y & z) }

  /** Four bytes, most significant first. */
  function Be32(a: Byte, b: Byte, c: Byte, d: Byte): Word {
    (a as bv8 as Word << 24) | (b as bv8 as Word << 16) | (c as bv8 as Word << 8) | (d as bv8 as Word)
  }

  /** Addition modulo 2^32. */
  function Plus(x: Word, y: Word): Word { x + y }

  /** A new word of the message schedule. */
  function Expand(w16: Word, w15: Word, w7: Word, w2: Word): Word {
    Plus(Plus(Plus(w16, SmallSigma0(w15)), w7), SmallSigma1(w2))
  }

  /** The first `t` words of the message schedule. */
  function Schedule(blk: seq<Byte>, t: nat): (w: seq<Word>)
    requires |blk| == 64 && t <= 64
    ensures |w| == t
  {
    if t == 0 then []
    else
      var w := Schedule(blk, t - 1);
      var i := t - 1;
      w + [if i < 16 then Be32(blk[i * 4], blk[i * 4 + 1], blk[i * 4 + 2], blk[i * 4 + 3])
           else Expand(w[i - 16], w[i - 15], w[i - 7], w[i - 2])]
  }

  /** The working variables a, b, c, d, e, f, g, h. */
  datatype Vars = Vars(a: Word, b: Word, c: Word, d: Word, e: Word, f: Word, g: Word, h: Word)

  function T1(v: Vars, k: Word, w: Word): Word {
    Plus(Plus(Plus(Plus(v.h, BigSigma1(v.e)), Ch(v.e, v.f, v.g)), k), w)
  }

  function T2(v: Vars): Word {
    Plus(BigSigma0(v.a), Maj(v.a, v.b, v.c))
  }

  function Round(v: Vars, k: Word, w: Word): Vars {
    Vars(Plus(T1(v, k, w), T2(v)), v.a, v.b, v.c, Plus(v.d, T1(v, k, w)), v.e, v.f, v.g)
  }

  function Rounds(v: Vars, w: seq<Word>, t: nat): Vars
    requires t <= |w| <= 64
  {
    if t == 0 then v else Round(Rounds(v, w, t - 1), K[t - 1], w[t - 1])
  }

  type Hash = h: seq<Word> | |h| == 8 witness H0

  function Load(h: Hash): Vars {
    Vars(h[0], h[1], h[2], h[3], h[4], h[5], h[6], h[7])
  }

  function Words(v: Vars): (w: seq<Word>)
    ensures |w| == 8
  {
    [v.a, v.b, v.c, v.d, v.e, v.f, v.g, v.h]
  }

  function AddTo(h: Hash, v: Vars): Hash {
    seq(8, i requires 0 <= i < 8 => Plus(h[i], Words(v)[i]))
  }

  /** One block of the hash computation. */
  function Block(h: Hash, blk: seq<Byte>): Hash
    requires |blk| == 64
  {
    AddTo(h, Rounds(Load(h), Schedule(blk, 64), 64))
  }

  /** The hash after all the whole blocks of `m`. */
  function Fold(h: Hash, m: seq<Byte>): Hash
    decreases |m|
  {
    if |m| < 64 then h else Fold(Block(h, m[..64]), m[64..])
  }

  /** `n` in `k` bytes, most significant first, modulo 256^k. */
  function Be(n: nat, k: nat): (r: seq<Byte>)
    ensures |r| == k
  {
    if k == 0 then [] else Be(n / 256, k - 1) + [(n % 256) as Byte]
  }

  /** The least number of zero bytes that brings a message of `n` bytes and the marker to 56 modulo 64. */
  function ZeroCount(n: nat): (k: nat)
    ensures (n + 1 + k) % 64 == 56 && k < 64 && (n + 1 + k + 8) % 64 == 0
  {
    if n % 64 < 56 then 55 - n % 64 else 119 - n % 64
  }

  /** A one bit, zeros, and the length in bits as 64 bits; the standard asks for fewer than 2^64 bits. */
  function Pad(m: seq<Byte>): (r: seq<Byte>)
    ensures |r| % 64 == 0
  {
    m + [0x80] + Repeat<Byte>(ZeroCount(|m|), 0) + Be(8 * |m|, 8)
  }

  /** The cast to an unsigned byte. */
  function Low(w: Word): Byte {
    (w & 0xFF) as bv8 as Byte
  }

  function WordBytes(w: Word): seq<Byte> {
    [Low(w >> 24), Low(w >> 16), Low(w >> 8), Low(w)]
  }

  function Bytes(h: seq<Word>): (r: seq<Byte>)
    ensures |r| == 4 * |h|
  {
    if h == [] then [] else Bytes(h[..|h| - 1]) + WordBytes(h[|h| - 1])
  }

  function Digest(m: seq<Byte>): seq<Byte> {
    Bytes(Fold(H0, Pad(m)))
  }
}

/** Facts about the fold and the length field. */
module Sha256Laws {
  import opened Sha256Spec
  import Bits

  /** Folding in two stretches. */
  lemma {:induction false} FoldConcat(h: Hash, x: seq<Byte>, y: seq<Byte>)
    requires |x| % 64 == 0
    ensures Fold(h, x + y) == Fold(Fold(h, x), y)
    decreases |x|
  {
    hide Block;
    if x == [] {
      assert x + y == y;
    } else {
      assert (x + y)[..64] == x[..64] && (x + y)[64..] == x[64..] + y;
      FoldConcat(Block(h, x[..64]), x[64..], y);
    }
  }

  lemma FoldOne(h: Hash, x: seq<Byte>, blk: seq<Byte>)
    requires |x| % 64 == 0 && |blk| == 64
    ensures Fold(h, x + blk) == Block(Fold(h, x), blk)
  {
    hide Block;
    FoldConcat(h, x, blk);
    assert blk[..64] == blk && blk[64..] == [];
  }

  function Pow256(k: nat): (r: nat)
    ensures r > 0
  {
    if k == 0 then 1 else 256 * Pow256(k - 1)
  }

  /** Byte `j` of the big-endian form is what shifting right by whole bytes leaves. */
  lemma {:induction false} BeAt(n: nat, k: nat, j: nat)
    requires j < k
    ensures Be(n, k)[j] == ((n / Pow256(k - 1 - j)) % 256) as Byte
  {
    if j == k - 1 {
      assert Pow256(0) == 1;
    } else {
      BeAt(n / 256, k - 1, j);
      Bits.SplitModulus(n, 256, Pow256(k - 2 - j));
    }
  }

  /** Only the low bytes of the length matter. */
  lemma {:induction false} BeWraps(n: nat, k: nat)
    ensures Be(n, k) == Be(n % Pow256(k), k)
  {
    if k > 0 {
      var p := Pow256(k - 1);
      Bits.SplitModulus(n, 256, p);
      var r := n % (256 * p);
      assert r == 256 * (n / 256 % p) + n % 256;
      Bits.DivModUnique(r, 256, n / 256 % p, n % 256);
      BeWraps(n / 256, k - 1);
    }
  }

  function Value(s: seq<Byte>): nat {
    if s == [] then 0 else 256 * Value(s[..|s| - 1]) + s[|s| - 1] as nat
  }

  /** Read back, the length field is the length, for messages under 2^61 bytes. */
  lemma {:induction false} BeValue(n: nat, k: nat)
    requires n < Pow256(k)
    ensures Value(Be(n, k)) == n
  {
    if k > 0 {
      BeValue(n / 256, k - 1);
      assert Be(n, k)[..k - 1] == Be(n / 256, k - 1);
    }
  }

  lemma Pow256At8()
    ensures Pow256(8) == 0x1_0000_0000_0000_0000
  {
    assert Pow256(2) == 65536;
    assert Pow256(4) == 0x1_0000_0000;
    assert Pow256(6) == 0x1_0000_0000_0000;
  }

  /** The last eight bytes of the padded message give its length in bits. */
  lemma LengthField(m: seq<Byte>)
    requires |m| < 0x2000_0000_0000_0000
    ensures Value(Pad(m)[|Pad(m)| - 8..]) == 8 * |m|
  {
    Pow256At8();
    BeValue(8 * |m|, 8);
    assert Pad(m)[|Pad(m)| - 8..] == Be(8 * |m|, 8);
  }
}

/** `sha256.h` as code. */
module Sha256 {
  import opened Basics
  import Bits
  import opened Sha256Spec
  import opened Sha256Laws

  const U64 := 0x1_0000_0000_0000_0000

  lemma Counted(n: nat, k: nat)
    ensures (n % U64 + k) % U64 == (n + k) % U64
  {
  }

  /** The count wraps, and so does the length field, the same way. */
  lemma LengthWraps(n: nat)
    ensures Be(8 * n, 8) == Be(n % U64 * 8 % U64, 8)
  {
    hide Be, Pow256;
    Pow256At8();
    BeWraps(8 * n, 8);
    var q, r := n / U64, n % U64;
    assert n == q * U64 + r;
    Bits.DivModUnique(8 * n, U64, 8 * q + 8 * r / U64, 8 * r % U64);
  }

  lemma BytesStep(h: seq<Word>)
    requires h != []
    ensures Bytes(h) == Bytes(h[..|h| - 1]) + WordBytes(h[|h| - 1])
  {
  }

  /** After a short tail, the padding completes its block. */
  lemma PadShort(done: seq<Byte>, tail: seq<Byte>)
    requires |done| % 64 == 0 && |tail| < 56
    ensures Pad(done + tail) ==
            done + ((tail + [0x80] + Repeat<Byte>(55 - |tail|, 0)) + Be(8 * |done + tail|, 8))
  {
    hide Be, Repeat, ZeroCount;
    TailLength(|done|, |tail|);
    Regroup1(done, tail, [0x80], Repeat<Byte>(55 - |tail|, 0), Be(8 * |done + tail|, 8));
  }

  /** After a long one, it takes one block more. */
  lemma PadLong(done: seq<Byte>, tail: seq<Byte>)
    requires |done| % 64 == 0 && 56 <= |tail| < 64
    ensures Pad(done + tail) ==
            done + (tail + [0x80] + Repeat<Byte>(63 - |tail|, 0)) + (Repeat<Byte>(56, 0) + Be(8 * |done + tail|, 8))
  {
    hide Be, Repeat, ZeroCount;
    TailLength(|done|, |tail|);
    ZerosConcat(63 - |tail|, 56);
    Regroup2(done, tail, [0x80], Repeat<Byte>(63 - |tail|, 0), Repeat<Byte>(56, 0), Be(8 * |done + tail|, 8));
  }

  lemma TailLength(d: nat, n: nat)
    requires d % 64 == 0 && n < 64
    ensures (d + n) % 64 == n && ZeroCount(d + n) == if n < 56 then 55 - n else 119 - n
  {
  }

  lemma ZerosConcat(j: nat, k: nat)
    ensures Repeat<Byte>(j + k, 0) == Repeat<Byte>(j, 0) + Repeat<Byte>(k, 0)
  {
  }

  lemma Assoc(a: seq<Byte>, b: seq<Byte>, c: seq<Byte>)
    ensures a + (b + c) == (a + b) + c
  {
  }

  lemma Regroup1(a: seq<Byte>, b: seq<Byte>, c: seq<Byte>, d: seq<Byte>, e: seq<Byte>)
    ensures (a + b) + c + d + e == a + ((b + c + d) + e)
  {
  }

  lemma Regroup2(a: seq<Byte>, b: seq<Byte>, c: seq<Byte>, d: seq<Byte>, e: seq<Byte>, f: seq<Byte>)
    ensures (a + b) + c + (d + e) + f == a + (b + c + d) + (e + f)
  {
  }

  class Context {
    const h: array<Word>
    const buf: array<Byte>
    var total: nat
    var bufLen: nat
    /** The whole blocks absorbed so far. */
    ghost var done: seq<Byte>

    ghost predicate Shaped()
      reads this
    {
      h.Length == 8 && buf.Length == 64
    }

    /** The hash is that of the whole blocks, the buffer holds the rest, and the count is their length. */
    ghost predicate Valid()
      reads this, h, buf
    {
      && Shaped() && bufLen < 64 && |done| % 64 == 0
      && h[..] == Fold(H0, done) && total == (|done| + bufLen) % U64
    }

    /** Everything the updates have been given, in order. */
    ghost function Message(): seq<Byte>
      reads this, buf
      requires Shaped() && bufLen <= 64
    {
      done + buf[..bufLen]
    }

    /** `riv_sha256_init`. */
    constructor ()
      ensures Valid() && Message() == [] && fresh(h) && fresh(buf)
    {
      h, buf := new Word[8], new Byte[64];
      total, bufLen, done := 0, 0, [];
      new;
      var i := 0;
      while i < 8
        invariant 0 <= i <= 8 && forall k | 0 <= k < i :: h[k] == H0[k]
        modifies h
      {
        h[i] := H0[i];
        i := i + 1;
      }
      assert h[..] == H0;
    }

    /** The message schedule of `_riv_sha256_block`. */
    method Prepare() returns (w: array<Word>)
      requires Shaped()
      ensures fresh(w) && w[..] == Schedule(buf[..], 64)
    {
      hide Be32, Expand;
      w := new Word[64];
      ghost var blk := buf[..];
      var i := 0;
      while i < 64
        invariant 0 <= i <= 64 && w[..i] == Schedule(blk, i)
        modifies w
      {
        ghost var before := w[..i];
        if i < 16 {
          w[i] := Be32(buf[i * 4], buf[i * 4 + 1], buf[i * 4 + 2], buf[i * 4 + 3]);
        } else {
          assert before[i - 16] == w[i - 16] && before[i - 15] == w[i - 15];
          assert before[i - 7] == w[i - 7] && before[i - 2] == w[i - 2];
          w[i] := Expand(w[i - 16], w[i - 15], w[i - 7], w[i - 2]);
        }
        assert w[..i + 1] == before + [w[i]];
        i := i + 1;
      }
      assert w[..] == w[..64];
    }

    /** The sixty-four rounds of `_riv_sha256_block`. */
    method Mix(w: array<Word>) returns (v: Vars)
      requires Shaped() && w.Length == 64
      ensures v == Rounds(Load(h[..]), w[..], 64)
    {
      hide T1, T2, Plus;
      v := Vars(h[0], h[1], h[2], h[3], h[4], h[5], h[6], h[7]);
      ghost var ws := w[..];
      var i := 0;
      while i < 64
        invariant 0 <= i <= 64 && v == Rounds(Load(h[..]), ws, i)
      {
        var t1 := T1(v, K[i], w[i]);
        var t2 := T2(v);
        v := v.(h := v.g, g := v.f, f := v.e, e := Plus(v.d, t1));
        v := v.(d := v.c, c := v.b, b := v.a, a := Plus(t1, t2));
        i := i + 1;
      }
    }

    /** `_riv_sha256_block` on the full buffer. */
    method Compress()
      requires Shaped()
      modifies h
      ensures h[..] == Block(old(h[..]), buf[..])
    {
      hide Rounds, Schedule, Load, AddTo;
      var w := Prepare();
      var v := Mix(w);
      AddBack(v);
    }

    method AddBack(v: Vars)
      requires Shaped()
      modifies h
      ensures h[..] == AddTo(old(h[..]), v)
    {
      hide Plus, Words;
      var add := Words(v);
      var i := 0;
      while i < 8
        invariant 0 <= i <= 8
        invariant forall k | 0 <= k < 8 :: h[k] == if k < i then Plus(old(h[k]), add[k]) else old(h[k])
      {
        h[i] := Plus(h[i], add[i]);
        i := i + 1;
      }
    }

    /** A full buffer is hashed and emptied. */
    method Flush()
      requires Shaped() && bufLen == 64 && |done| % 64 == 0 && h[..] == Fold(H0, done)
      modifies this`bufLen, this`done, h
      ensures bufLen == 0 && done == old(done) + buf[..]
      ensures |done| % 64 == 0 && h[..] == Fold(H0, done)
    {
      hide Block;
      Compress();
      FoldOne(H0, done, buf[..]);
      done := done + buf[..];
      bufLen := 0;
    }

    /** `riv_memcpy` of as much of `data` as the buffer still takes. */
    method Copy(data: seq<Byte>, p: nat) returns (copy: nat)
      requires Shaped() && bufLen < 64 && p < |data|
      modifies this`bufLen, buf
      ensures 0 < copy && p + copy <= |data| && bufLen == old(bufLen) + copy <= 64
      ensures buf[..bufLen] == old(buf[..bufLen]) + data[p..p + copy]
    {
      copy := if 64 - bufLen > |data| - p then |data| - p else 64 - bufLen;
      forall k | 0 <= k < copy {
        buf[bufLen + k] := data[p + k];
      }
      bufLen := bufLen + copy;
    }

    /** `riv_sha256_update`. */
    method Update(data: seq<Byte>)
      requires Valid()
      modifies this, h, buf
      ensures Valid() && Message() == old(Message()) + data
    {
      hide Fold;
      ghost var was := Message();
      total := (total + |data|) % U64;
      Counted(|was|, |data|);
      ghost var count := total;
      var p := 0;
      while p < |data|
        invariant 0 <= p <= |data| && Shaped() && bufLen < 64 && |done| % 64 == 0 && h[..] == Fold(H0, done)
        invariant Message() == was + data[..p] && total == count
      {
        ghost var held := buf[..bufLen];
        var copy := Copy(data, p);
        Assoc(done, held, data[p..p + copy]);
        Assoc(was, data[..p], data[p..p + copy]);
        assert data[..p + copy] == data[..p] + data[p..p + copy];
        p := p + copy;
        assert Message() == was + data[..p];
        if bufLen == 64 {
          assert buf[..] == buf[..64];
          Flush();
          assert buf[..0] == [];
        }
      }
      assert data[..p] == data;
    }

    /** Zero bytes up to position `n` of the buffer. */
    method ZeroFill(n: nat)
      requires Shaped() && bufLen <= n <= 64
      modifies this`bufLen, buf
      ensures bufLen == n && buf[..n] == old(buf[..bufLen]) + Repeat<Byte>(n - old(bufLen), 0)
    {
      ghost var from := bufLen;
      while bufLen < n
        invariant from <= bufLen <= n && buf[..bufLen] == old(buf[..bufLen]) + Repeat<Byte>(bufLen - from, 0)
      {
        buf[bufLen] := 0;
        bufLen := bufLen + 1;
        assert buf[..bufLen] == buf[..bufLen - 1] + [0];
        assert Repeat<Byte>(bufLen - from, 0) == Repeat<Byte>(bufLen - 1 - from, 0) + [0];
      }
    }

    /** The eight length bytes at the end of the buffer, most significant first. */
    method PutLength(bits: nat)
      requires Shaped() && bufLen == 56
      modifies this`bufLen, buf
      ensures bufLen == 64 && buf[..] == old(buf[..56]) + Be(bits, 8)
    {
      hide Be;
      var i := 7;
      while i >= 0
        invariant -1 <= i <= 7 && bufLen == 63 - i
        invariant buf[..56] == old(buf[..56]) && forall j | 0 <= j < 7 - i :: buf[56 + j] == Be(bits, 8)[j]
      {
        BeAt(bits, 8, 7 - i);
        buf[bufLen] := ((bits / Pow256(i)) % 256) as Byte;
        bufLen := bufLen + 1;
        i := i - 1;
      }
      assert buf[..] == buf[..56] + buf[56..];
      assert buf[56..] == Be(bits, 8);
    }

    /** Zeros up to the length field, through a block of their own if the marker left no room for it. */
    method MakeRoom()
      requires Shaped() && bufLen <= 64 && |done| % 64 == 0 && h[..] == Fold(H0, done)
      modifies this`bufLen, this`done, h, buf
      ensures bufLen == 56 && |done| % 64 == 0 && h[..] == Fold(H0, done)
      ensures old(bufLen) <= 56 ==>
                done == old(done) && buf[..56] == old(buf[..bufLen]) + Repeat<Byte>(56 - old(bufLen), 0)
      ensures old(bufLen) > 56 ==>
                && done == old(done) + (old(buf[..bufLen]) + Repeat<Byte>(64 - old(bufLen), 0))
                && buf[..56] == Repeat<Byte>(56, 0)
    {
      hide Fold, Repeat;
      if bufLen > 56 {
        ZeroFill(64);
        assert buf[..] == buf[..64];
        Flush();
        assert buf[..0] == [];
      }
      ZeroFill(56);
    }

    /** `riv_sha256_final`: the digest of the whole message, in either branch. */
    method Final() returns (out: seq<Byte>)
      requires Valid()
      modifies this, h, buf
      ensures out == Digest(old(Message()))
    {
      hide Fold, Be, Bytes, WordBytes, Pad, Repeat;
      ghost var was, tail := done, buf[..bufLen];
      ghost var m := was + tail;
      if |tail| < 56 { PadShort(was, tail); } else { PadLong(was, tail); }
      var bits := total * 8 % U64;
      LengthWraps(|m|);
      buf[bufLen] := 0x80;
      bufLen := bufLen + 1;
      assert buf[..bufLen] == tail + [0x80];
      MakeRoom();
      PutLength(bits);
      Flush();
      assert done == Pad(m);
      out := HashBytes();
    }

    method HashBytes() returns (out: seq<Byte>)
      requires Shaped()
      ensures out == Bytes(h[..])
    {
      hide WordBytes;
      out := [];
      var i := 0;
      while i < 8
        invariant 0 <= i <= 8 && out == Bytes(h[..i])
      {
        assert h[..i + 1][..i] == h[..i];
        BytesStep(h[..i + 1]);
        out := out + WordBytes(h[i]);
        i := i + 1;
      }
      assert h[..8] == h[..];
    }
  }

  function Flatten(parts: seq<seq<Byte>>): seq<Byte> {
    if parts == [] then [] else Flatten(parts[..|parts| - 1]) + parts[|parts| - 1]
  }

  /** However a message is cut into updates, the digest is that of the whole message. */
  method DigestOfParts(parts: seq<seq<Byte>>) returns (out: seq<Byte>)
    ensures out == Digest(Flatten(parts))
  {
    hide Digest, Fold;
    var c := new Context();
    var i := 0;
    while i < |parts|
      invariant 0 <= i <= |parts| && c.Valid() && c.Message() == Flatten(parts[..i])
      invariant fresh(c) && fresh(c.h) && fresh(c.buf)
    {
      assert parts[..i + 1][..i] == parts[..i];
      c.Update(parts[i]);
      i := i + 1;
    }
    assert parts[..i] == parts;
    out := c.Final();
  }
}
