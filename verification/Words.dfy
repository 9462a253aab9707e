/** Little-endian machine words as byte sequences. */
module Words {

  type byte = bv8

  function Le16(v: bv16): seq<byte> {
    [(v & 0xFF) as bv8, ((v >> 8) & 0xFF) as bv8]
  }

  function Le32(v: bv32): seq<byte> {
    [(v & 0xFF) as bv8, ((v >> 8) & 0xFF) as bv8, ((v >> 16) & 0xFF) as bv8, ((v >> 24) & 0xFF) as bv8]
  }

  function Le64(v: bv64): seq<byte> {
    [(v & 0xFF) as bv8, ((v >> 8) & 0xFF) as bv8, ((v >> 16) & 0xFF) as bv8, ((v >> 24) & 0xFF) as bv8,
     ((v >> 32) & 0xFF) as bv8, ((v >> 40) & 0xFF) as bv8, ((v >> 48) & 0xFF) as bv8, ((v >> 56) & 0xFF) as bv8]
  }

  function Read32(s: seq<byte>, k: nat): bv32
    requires k + 4 <= |s|
  {
    (s[k] as bv32) | (s[k + 1] as bv32 << 8) | (s[k + 2] as bv32 << 16) | (s[k + 3] as bv32 << 24)
  }

  function Read64(s: seq<byte>, k: nat): bv64
    requires k + 8 <= |s|
  {
    (s[k] as bv64) | (s[k + 1] as bv64 << 8) | (s[k + 2] as bv64 << 16) | (s[k + 3] as bv64 << 24)
    | (s[k + 4] as bv64 << 32) | (s[k + 5] as bv64 << 40) | (s[k + 6] as bv64 << 48) | (s[k + 7] as bv64 << 56)
  }

  /** `(riv_i32)` of a 64-bit value. */
  function Low32(v: bv64): bv32 {
    (v & 0xFFFF_FFFF) as bv32
  }

  function Low8(v: bv64): byte {
    (v & 0xFF) as bv8
  }

  /** `(riv_i32)(signed char)b` */
  function SignExtend8(b: byte): bv32 {
    if b & 0x80 != 0 then 0xFFFF_FF00 | (b as bv32) else b as bv32
  }

  /** Addition modulo 2^32. */
  function Plus(a: bv32, b: bv32): bv32 {
    a + b
  }

  /** The displacement modulo 2^32 that leads from one address to the other. */
  function Distance(from: bv32, to: bv32): bv32 {
    to - from
  }

  lemma PlusDifference(from: bv32, to: bv32)
    ensures Plus(to - from, from) == to
  {
  }

  lemma DistanceLeads(from: bv32, to: bv32)
    ensures Plus(Distance(from, to), from) == to
  {
    PlusDifference(from, to);
    hide Plus;
    assert Distance(from, to) == to - from;
  }

  lemma DistanceOfSum(a: bv32, h: bv32)
    ensures Distance(h, a + h) == a
  {
  }

  lemma DistanceBack(a: bv32, h: bv32)
    ensures Distance(h, Plus(a, h)) == a
  {
    DistanceOfSum(a, h);
    hide Distance;
    assert Plus(a, h) == a + h;
  }

  lemma Regrouped(a: bv32, n: bv32, v: bv32)
    ensures (a - n) + v == (a + v) - n
  {
  }

  lemma TwoSteps(a: bv32, n: bv32, v: bv32)
    ensures Distance(v, a - n) == Distance(n + v, a)
  {
  }

  lemma Unfolded(n: bv32, a: bv32, v: bv32)
    ensures Distance(n, a) == a - n && Plus(n, v) == n + v
  {
  }

  lemma PlusLater(a: bv32, n: bv32, v: bv32)
    ensures Plus(Distance(n, a), v) == Distance(n, Plus(a, v))
  {
    Regrouped(a, n, v);
    assert Plus(a - n, v) == (a - n) + v;
    assert Distance(n, a + v) == (a + v) - n;
    assert Plus(a, v) == a + v;
    assert Distance(n, a) == a - n;
    hide Plus, Distance;
  }

  lemma DistanceLater(a: bv32, n: bv32, v: bv32)
    ensures Distance(v, Distance(n, a)) == Distance(Plus(n, v), a)
  {
    TwoSteps(a, n, v);
    hide Plus, Distance;
    assert Distance(n, a) == a - n && Plus(n, v) == n + v by { Unfolded(n, a, v); }
  }

  /** The address `n` bytes further on. */
  function After(pc: bv32, n: nat): bv32
    requires n < 16
  {
    pc + (n as bv32)
  }

  /** `piece` stands in `s` at offset `k`. */
  predicate At(s: seq<byte>, k: nat, piece: seq<byte>) {
    k + |piece| <= |s| && s[k..k + |piece|] == piece
  }

  lemma AtConcat(s: seq<byte>, k: nat, a: seq<byte>, b: seq<byte>)
    ensures At(s, k, a + b) <==> At(s, k, a) && At(s, k + |a|, b)
  {
    if k + |a| + |b| <= |s| {
      assert s[k..k + |a + b|] == s[k..k + |a|] + s[k + |a|..k + |a| + |b|];
      assert (a + b)[..|a|] == a && (a + b)[|a|..] == b;
    }
  }

  lemma AtByte(s: seq<byte>, k: nat, piece: seq<byte>, i: nat)
    requires At(s, k, piece) && i < |piece|
    ensures s[k + i] == piece[i]
  {
    assert s[k..k + |piece|][i] == piece[i];
  }

  lemma Read32At(s: seq<byte>, k: nat, v: bv32)
    requires At(s, k, Le32(v))
    ensures Read32(s, k) == v
  {
    var p := Le32(v);
    AtByte(s, k, p, 0); AtByte(s, k, p, 1); AtByte(s, k, p, 2); AtByte(s, k, p, 3);
  }

  lemma Read64At(s: seq<byte>, k: nat, v: bv64)
    requires At(s, k, Le64(v))
    ensures Read64(s, k) == v
  {
    var p := Le64(v);
    AtByte(s, k, p, 0); AtByte(s, k, p, 1); AtByte(s, k, p, 2); AtByte(s, k, p, 3);
    AtByte(s, k, p, 4); AtByte(s, k, p, 5); AtByte(s, k, p, 6); AtByte(s, k, p, 7);
  }

  // ---------- words as numbers ----------

  function Nat8(b: byte): nat { b as nat }

  function Nat16(v: bv16): nat { v as nat }

  function Nat32(v: bv32): nat { v as nat }

  function Nat64(v: bv64): nat { v as nat }

  /** The number that bytes spell, least significant first. */
  function LeValue(s: seq<byte>): nat {
    if s == [] then 0 else Nat8(s[0]) + 0x100 * LeValue(s[1..])
  }

  lemma LeValueStep(b: byte, s: seq<byte>)
    ensures LeValue([b] + s) == Nat8(b) + 0x100 * LeValue(s)
  {
    hide Nat8;
    assert ([b] + s)[1..] == s;
  }

  lemma LeValue1(a: byte)
    ensures LeValue([a]) == Nat8(a)
  {
    hide Nat8;
  }

  lemma LeValue2(a: byte, b: byte)
    ensures LeValue([a, b]) == Nat8(a) + 0x100 * Nat8(b)
  {
    hide Nat8;
    assert [a, b] == [a] + [b];
    LeValueStep(a, [b]);
  }

  lemma LeValue4(a: byte, b: byte, c: byte, d: byte)
    ensures LeValue([a, b, c, d]) == Nat8(a) + 0x100 * Nat8(b) + 0x1_0000 * Nat8(c) + 0x100_0000 * Nat8(d)
  {
    hide Nat8;
    LeValue2(c, d);
    assert [a, b, c, d] == [a] + ([b] + [c, d]);
    LeValueStep(b, [c, d]);
    LeValueStep(a, [b] + [c, d]);
  }

  lemma LeValueTwice(x: seq<byte>, y: seq<byte>)
    requires |x| == 4
    ensures LeValue(x + y) == LeValue(x) + 0x1_0000_0000 * LeValue(y)
  {
    hide LeValue, Nat8;
    var y1 := [x[3]] + y;
    var y2 := [x[2]] + y1;
    var y3 := [x[1]] + y2;
    LeValueStep(x[3], y);
    LeValueStep(x[2], y1);
    LeValueStep(x[1], y2);
    LeValueStep(x[0], y3);
    assert x + y == [x[0]] + y3;
    assert x == [x[0], x[1], x[2], x[3]];
    LeValue4(x[0], x[1], x[2], x[3]);
  }

  lemma Joined16(a: byte, b: byte, v: bv16)
    requires v == (a as bv16) | (b as bv16 << 8)
    ensures Nat16(v) == Nat8(a) + 0x100 * Nat8(b)
  {
  }

  lemma Joined32(a: byte, b: byte, c: byte, d: byte, v: bv32)
    requires v == (a as bv32) | (b as bv32 << 8) | (c as bv32 << 16) | (d as bv32 << 24)
    ensures Nat32(v) == Nat8(a) + 0x100 * Nat8(b) + 0x1_0000 * Nat8(c) + 0x100_0000 * Nat8(d)
  {
  }

  lemma Joined64(lo: bv32, hi: bv32, v: bv64)
    requires v == (lo as bv64) | (hi as bv64 << 32)
    ensures Nat64(v) == Nat32(lo) + 0x1_0000_0000 * Nat32(hi)
  {
  }

  lemma Le16Value(v: bv16)
    ensures LeValue(Le16(v)) == Nat16(v)
  {
    var p := Le16(v);
    Joined16(p[0], p[1], v);
    hide LeValue, Nat8, Nat16;
    LeValue2(p[0], p[1]);
  }

  lemma Le32Value(v: bv32)
    ensures LeValue(Le32(v)) == Nat32(v)
  {
    var p := Le32(v);
    Joined32(p[0], p[1], p[2], p[3], v);
    hide LeValue, Nat8, Nat32;
    LeValue4(p[0], p[1], p[2], p[3]);
  }

  function High32(v: bv64): bv32 {
    ((v >> 32) & 0xFFFF_FFFF) as bv32
  }

  lemma Halves(v: bv64)
    ensures Nat64(v) == Nat32(Low32(v)) + 0x1_0000_0000 * Nat32(High32(v))
  {
    hide Nat32, Nat64;
    Joined64(Low32(v), High32(v), v);
  }

  lemma LowBytes(v: bv64)
    ensures Le32(Low32(v)) == [(v & 0xFF) as bv8, ((v >> 8) & 0xFF) as bv8, ((v >> 16) & 0xFF) as bv8,
                               ((v >> 24) & 0xFF) as bv8]
  {
  }

  lemma HighBytes(v: bv64)
    ensures Le32(High32(v)) == [((v >> 32) & 0xFF) as bv8, ((v >> 40) & 0xFF) as bv8, ((v >> 48) & 0xFF) as bv8,
                                ((v >> 56) & 0xFF) as bv8]
  {
  }

  lemma Le64Halves(v: bv64)
    ensures Le64(v) == Le32(Low32(v)) + Le32(High32(v)) && |Le32(Low32(v))| == 4
  {
    hide Le32, Low32, High32;
    LowBytes(v);
    HighBytes(v);
  }

  lemma Le64Value(v: bv64)
    ensures LeValue(Le64(v)) == Nat64(v)
  {
    hide Le32, Le64, Low32, High32, LeValue, Nat32, Nat64;
    Le64Halves(v);
    Le32Value(Low32(v));
    Le32Value(High32(v));
    Halves(v);
    LeValueTwice(Le32(Low32(v)), Le32(High32(v)));
  }

  function Low16(v: bv64): bv16 {
    (v & 0xFFFF) as bv16
  }

  function Above16(v: bv64): bv48 {
    ((v >> 16) & 0xFFFF_FFFF_FFFF) as bv48
  }

  function Above8(v: bv64): bv56 {
    ((v >> 8) & 0xFF_FFFF_FFFF_FFFF) as bv56
  }

  function Nat48(v: bv48): nat { v as nat }

  function Nat56(v: bv56): nat { v as nat }

  lemma Split16(lo: bv16, hi: bv48, v: bv64)
    requires v == (lo as bv64) | (hi as bv64 << 16)
    ensures Nat64(v) == Nat16(lo) + 0x1_0000 * Nat48(hi)
  {
  }

  lemma Split8(lo: byte, hi: bv56, v: bv64)
    requires v == (lo as bv64) | (hi as bv64 << 8)
    ensures Nat64(v) == Nat8(lo) + 0x100 * Nat56(hi)
  {
  }

  lemma LowBits(v: bv64)
    ensures v == (Low16(v) as bv64) | (Above16(v) as bv64 << 16)
    ensures v == (Low8(v) as bv64) | (Above8(v) as bv64 << 8)
  {
  }

  lemma Remainders(lo: nat, hi: nat)
    ensures lo < 0x1_0000_0000 ==> (lo + 0x1_0000_0000 * hi) % 0x1_0000_0000 == lo
    ensures lo < 0x1_0000 ==> (lo + 0x1_0000 * hi) % 0x1_0000 == lo
    ensures lo < 0x100 ==> (lo + 0x100 * hi) % 0x100 == lo
  {
  }

  lemma Bounds(a: byte, b: bv16, c: bv32)
    ensures Nat8(a) < 0x100 && Nat16(b) < 0x1_0000 && Nat32(c) < 0x1_0000_0000
  {
  }

  /** The truncations are remainders. */
  lemma LowValues(v: bv64)
    ensures Nat8(Low8(v)) == Nat64(v) % 0x100
    ensures Nat16(Low16(v)) == Nat64(v) % 0x1_0000
    ensures Nat32(Low32(v)) == Nat64(v) % 0x1_0000_0000
  {
    hide Low8, Low16, Low32, Above8, Above16, High32, Nat8, Nat16, Nat32, Nat48, Nat56, Nat64;
    Bounds(Low8(v), Low16(v), Low32(v));
    LowBits(v);
    Split8(Low8(v), Above8(v), v);
    Split16(Low16(v), Above16(v), v);
    Halves(v);
    Remainders(Nat8(Low8(v)), Nat56(Above8(v)));
    Remainders(Nat16(Low16(v)), Nat48(Above16(v)));
    Remainders(Nat32(Low32(v)), Nat32(High32(v)));
  }

  function Nat33(v: bv33): nat { v as nat }

  function Wide(a: bv32, b: bv32): bv33 {
    (a as bv33) + (b as bv33)
  }

  lemma WideValue(a: bv32, b: bv32)
    ensures ((a as bv33) + (b as bv33)) as nat == (a as nat) + (b as nat)
  {
  }

  lemma WideIs(a: bv32, b: bv32)
    ensures Nat33(Wide(a, b)) == Nat32(a) + Nat32(b)
  {
    WideValue(a, b);
  }

  lemma Split33(lo: bv32, hi: bv1, v: bv33)
    requires v == (lo as bv33) | (hi as bv33 << 32)
    ensures Nat33(v) == Nat32(lo) + 0x1_0000_0000 * (hi as nat)
  {
  }

  lemma CarryOut(a: bv32, b: bv32)
    ensures (a as bv33) + (b as bv33) ==
            ((a + b) as bv33) | (((((a as bv33) + (b as bv33)) >> 32) & 1) as bv1 as bv33 << 32)
  {
  }

  lemma SumAndCarry(a: bv32, b: bv32) returns (carry: nat)
    ensures Nat33(Wide(a, b)) == Nat32(a + b) + 0x1_0000_0000 * carry
  {
    CarryOut(a, b);
    var hi := ((((a as bv33) + (b as bv33)) >> 32) & 1) as bv1;
    Split33(a + b, hi, (a as bv33) + (b as bv33));
    carry := hi as nat;
  }

  /** Addition of words is addition modulo 2^32. */
  lemma PlusValue(a: bv32, b: bv32)
    ensures Nat32(Plus(a, b)) == (Nat32(a) + Nat32(b)) % 0x1_0000_0000
  {
    hide Nat32, Nat33, Wide;
    WideIs(a, b);
    var carry := SumAndCarry(a, b);
    Bounds(0, 0, a + b);
    Remainders(Nat32(a + b), carry);
  }

  lemma Backwards(d: nat, f: nat, t: nat)
    requires d < 0x1_0000_0000 && t < 0x1_0000_0000 && (d + f) % 0x1_0000_0000 == t
    ensures d == (t - f) % 0x1_0000_0000
  {
  }

  /** And the distance is the difference modulo 2^32. */
  lemma DistanceValue(from: bv32, to: bv32)
    ensures Nat32(Distance(from, to)) == (Nat32(to) - Nat32(from)) % 0x1_0000_0000
  {
    hide Nat32, Plus, Distance;
    DistanceLeads(from, to);
    PlusValue(Distance(from, to), from);
    Bounds(0, 0, Distance(from, to));
    Bounds(0, 0, to);
    Backwards(Nat32(Distance(from, to)), Nat32(from), Nat32(to));
  }

  /** What `Read32` reads is the number the four bytes spell. */
  lemma Read32Value(s: seq<byte>, k: nat)
    requires k + 4 <= |s|
    ensures Nat32(Read32(s, k)) == LeValue(s[k..k + 4])
  {
    Joined32(s[k], s[k + 1], s[k + 2], s[k + 3], Read32(s, k));
    hide Nat8, Nat32, LeValue, Read32;
    assert s[k..k + 4] == [s[k], s[k + 1], s[k + 2], s[k + 3]];
    LeValue4(s[k], s[k + 1], s[k + 2], s[k + 3]);
  }
}
