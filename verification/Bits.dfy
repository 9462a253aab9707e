/** Bit operations of the C sources on unsigned words, written out over natural numbers. */
module Bits {
  import opened Basics

  function Pow2(k: nat): (r: nat)
    ensures r > 0
  {
    if k == 0 then 1 else 2 * Pow2(k - 1)
  }

  /** Bit `b` of `x`, that is `(x >> b) & 1`. */
  predicate TestBit(x: nat, b: nat) {
    if b == 0 then x % 2 == 1 else TestBit(x / 2, b - 1)
  }

  /** `x | (1 << b)` */
  function SetBit(x: nat, b: nat): nat {
    if b == 0 then x - x % 2 + 1 else 2 * SetBit(x / 2, b - 1) + x % 2
  }

  /** `x & ~(1 << b)` */
  function ClearBit(x: nat, b: nat): nat {
    if b == 0 then x - x % 2 else 2 * ClearBit(x / 2, b - 1) + x % 2
  }

  /** `x & y` */
  function And(x: nat, y: nat): nat {
    if x == 0 then 0 else 2 * And(x / 2, y / 2) + if x % 2 == 1 && y % 2 == 1 then 1 else 0
  }

  lemma {:induction false} SetBitEffect(x: nat, b: nat, c: nat)
    ensures TestBit(SetBit(x, b), c) <==> c == b || TestBit(x, c)
  {
    if b > 0 && c > 0 {
      SetBitEffect(x / 2, b - 1, c - 1);
    }
  }

  lemma {:induction false} ClearBitEffect(x: nat, b: nat, c: nat)
    ensures TestBit(ClearBit(x, b), c) <==> c != b && TestBit(x, c)
  {
    if b > 0 && c > 0 {
      ClearBitEffect(x / 2, b - 1, c - 1);
    }
  }

  lemma {:induction false} BitOpsStayInWord(x: nat, b: nat, k: nat)
    requires b < k && x < Pow2(k)
    ensures SetBit(x, b) < Pow2(k) && ClearBit(x, b) < Pow2(k)
  {
    if b > 0 {
      BitOpsStayInWord(x / 2, b - 1, k - 1);
    }
  }

  lemma {:induction false} AllOnes(k: nat, b: nat)
    requires b < k
    ensures TestBit(Pow2(k) - 1, b)
  {
    if b > 0 {
      AllOnes(k - 1, b - 1);
    }
  }

  lemma {:induction false} ZeroHasNoBits(b: nat)
    ensures !TestBit(0, b)
  {
    if b > 0 {
      ZeroHasNoBits(b - 1);
    }
  }

  /** `__builtin_ctz`: the position of the lowest set bit. */
  function CountTrailingZeros(x: nat): (b: nat)
    requires x > 0
  {
    if x % 2 == 1 then 0 else 1 + CountTrailingZeros(x / 2)
  }

  lemma {:induction false} CtzIsLowestSetBit(x: nat, k: nat)
    requires 0 < x < Pow2(k)
    ensures CountTrailingZeros(x) < k
    ensures TestBit(x, CountTrailingZeros(x))
    ensures forall c | 0 <= c < CountTrailingZeros(x) :: !TestBit(x, c)
  {
    if x % 2 == 0 {
      CtzIsLowestSetBit(x / 2, k - 1);
      forall c | 0 <= c < CountTrailingZeros(x) ensures !TestBit(x, c) {
        assert c > 0 ==> TestBit(x, c) == TestBit(x / 2, c - 1);
      }
    }
  }

  /** Masking with `2^k - 1` keeps the remainder modulo `2^k`. */
  lemma {:induction false} AndMaskIsMod(x: nat, k: nat)
    ensures And(x, Pow2(k) - 1) == x % Pow2(k)
  {
    if x == 0 {
    } else if k == 0 {
      AndZero(x);
    } else {
      AndMaskIsMod(x / 2, k - 1);
      AndMaskStep(x, Pow2(k - 1));
    }
  }

  lemma AndMaskStep(x: nat, p: nat)
    requires x > 0 && p > 0 && And(x / 2, p - 1) == x / 2 % p
    ensures And(x, 2 * p - 1) == x % (2 * p)
  {
    SplitModulus(x, 2, p);
    assert (2 * p - 1) / 2 == p - 1 && (2 * p - 1) % 2 == 1;
  }

  lemma {:induction false} AndZero(x: nat)
    ensures And(x, 0) == 0
  {
    if x > 0 {
      AndZero(x / 2);
    }
  }

  /** Shifting in two steps, and the remainder by a product digit by digit. */
  lemma SplitModulus(x: nat, d: nat, p: nat)
    requires d > 0 && p > 0
    ensures d * p > 0
    ensures x / (d * p) == x / d / p
    ensures x % (d * p) == d * (x / d % p) + x % d
  {
    var q, r := x / d / p, x / d % p;
    assert x == d * (x / d) + x % d;
    assert x / d == p * q + r;
    calc {
      x;
      d * (p * q + r) + x % d;
      { assert d * (p * q + r) == d * (p * q) + d * r; assert d * (p * q) == (d * p) * q; }
      (d * p) * q + (d * r + x % d);
    }
    MulAtLeast(p, d);
    assert d * r + x % d < d * p by {
      MulAtLeast(p - r, d);
      assert d * p - d * r == (p - r) * d;
    }
    assert (d * p) * q == q * (d * p);
    DivModUnique(x, d * p, q, d * r + x % d);
  }

  lemma MulAtLeast(k: int, d: int)
    requires k >= 1 && d > 0
    ensures k * d >= d
  {
  }

  lemma DivModUnique(x: int, d: int, q: int, r: int)
    requires d > 0 && 0 <= r < d && x == q * d + r
    ensures x / d == q && x % d == r
  {
    var k := x / d - q;
    assert x == (x / d) * d + x % d;
    assert (x / d) * d == k * d + q * d;
    if k > 0 {
      MulAtLeast(k, d);
    } else if k < 0 {
      MulAtLeast(-k, d);
    }
  }

  /** Subtraction modulo `d`. */
  lemma ModShift(a: int, b: int, d: int)
    requires d > 0
    ensures (a % d - b % d) % d == (a - b) % d
  {
    var q := a / d - b / d;
    assert a - b == q * d + (a % d - b % d) by {
      assert (a / d - b / d) * d == a / d * d - b / d * d;
    }
    var x := a % d - b % d;
    assert x == x / d * d + x % d;
    assert a - b == (q + x / d) * d + x % d by { assert (q + x / d) * d == q * d + x / d * d; }
    DivModUnique(a - b, d, q + x / d, x % d);
  }

  /** The test `n != 0 && (n & (n - 1)) == 0` of the ring and the hash table. */
  predicate IsPow2(n: nat) {
    n != 0 && And(n, n - 1) == 0
  }

  /** The test accepts exactly the powers of two. */
  lemma IsPow2Exact(n: nat)
    ensures IsPow2(n) <==> exists k: nat :: n == Pow2(k)
  {
    if IsPow2(n) {
      IsPow2Log(n);
    }
    if k: nat :| n == Pow2(k) {
      Pow2Passes(k);
    }
  }

  function Log2(n: nat): nat
    requires n > 0
  {
    if n == 1 then 0 else 1 + Log2(n / 2)
  }

  lemma {:induction false} IsPow2Log(n: nat)
    requires IsPow2(n)
    ensures n == Pow2(Log2(n))
  {
    if n > 1 {
      AndSelf(n / 2);
      assert And(n, n - 1) == 2 * And(n / 2, (n - 1) / 2);
      assert n % 2 == 0;
      assert (n - 1) / 2 == n / 2 - 1;
      IsPow2Log(n / 2);
    }
  }

  lemma {:induction false} Pow2Passes(k: nat)
    ensures IsPow2(Pow2(k))
  {
    if k == 0 {
      assert And(1, 0) == 2 * And(0, 0) + 0;
    } else {
      Pow2Passes(k - 1);
      var p := Pow2(k - 1);
      assert (2 * p - 1) / 2 == p - 1;
      assert And(2 * p, 2 * p - 1) == 2 * And(p, p - 1);
    }
  }

  lemma {:induction false} AndSelf(x: nat)
    ensures And(x, x) == x
  {
    if x > 0 {
      AndSelf(x / 2);
    }
  }

  lemma Pow2At32()
    ensures Pow2(32) == U32
  {
    assert Pow2(8) == 256;
    assert Pow2(16) == 65536;
    assert Pow2(24) == 16777216;
  }

  lemma WordBitOps(x: nat, b: nat)
    requires b < 32 && x < U32
    ensures SetBit(x, b) < U32 && ClearBit(x, b) < U32
  {
    Pow2At32();
    BitOpsStayInWord(x, b, 32);
  }

  lemma WordCtz(x: nat)
    requires 0 < x < U32
    ensures CountTrailingZeros(x) < 32
    ensures TestBit(x, CountTrailingZeros(x))
    ensures forall c | 0 <= c < CountTrailingZeros(x) :: !TestBit(x, c)
  {
    Pow2At32();
    CtzIsLowestSetBit(x, 32);
  }

  lemma WordAllOnes(b: nat)
    requires b < 32
    ensures TestBit(0xFFFF_FFFF, b)
  {
    Pow2At32();
    AllOnes(32, b);
  }
}
