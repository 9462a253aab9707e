/** The wrapping index arithmetic of `ring.h`. */
module RingIndex {
  import opened Basics
  import opened Bits

  /** C's `h - t` on 32-bit words. */
  function Minus(h: nat, t: nat): nat {
    (h - t) % U32
  }

  lemma ModTwice(x: nat, d: nat, p: nat)
    requires d > 0 && p > 0
    ensures d * p > 0 && x % (d * p) % d == x % d
  {
    SplitModulus(x, d, p);
    var r := x / d % p;
    DivModUnique(x % (d * p), d, r, x % d);
  }

  lemma {:induction false} Pow2Add(j: nat, k: nat)
    ensures Pow2(j + k) == Pow2(j) * Pow2(k)
  {
    if j > 0 {
      Pow2Add(j - 1, k);
    }
  }

  /** Masking a counter that has wrapped gives the slot of the counter that has not. */
  lemma SlotOf(n: nat, k: nat)
    requires k <= 32
    ensures And(n % U32, Pow2(k) - 1) == n % Pow2(k)
  {
    AndMaskIsMod(n % U32, k);
    Pow2Add(k, 32 - k);
    Pow2At32();
    ModTwice(n, Pow2(k), Pow2(32 - k));
  }

  /** The wrapped counters still measure the distance between the counters. */
  lemma DistanceKept(h: nat, t: nat)
    requires t <= h < t + U32
    ensures Minus(h % U32, t % U32) == h - t
    ensures h % U32 == t % U32 <==> h == t
  {
    ModShift(h, t, U32);
  }

  lemma Apart(a: nat, b: nat, d: nat)
    requires a < b < a + d
    ensures a % d != b % d
  {
    ModShift(b, a, d);
    DivModUnique(b - a, d, 0, b - a);
    DivModUnique(0, d, 0, 0);
  }

  lemma {:induction false} Pow2Grows(j: nat, k: nat)
    requires j <= k
    ensures Pow2(j) <= Pow2(k)
  {
    if j < k {
      Pow2Grows(j, k - 1);
    }
  }

  lemma CapacityBound(k: nat)
    requires k <= 31
    ensures 2 * Pow2(k) <= U32
  {
    Pow2Grows(k, 31);
    Pow2At32();
  }

  /** The capacities `riv_ring_init` accepts. */
  lemma Accepted(cap: nat) returns (k: nat)
    requires 0 < cap < U32 && IsPow2(cap)
    ensures k <= 31 && cap == Pow2(k)
  {
    IsPow2Log(cap);
    k := Log2(cap);
    if k > 31 {
      Pow2Grows(32, k);
      Pow2At32();
      assert false;
    }
  }

  lemma NextWraps(n: nat)
    ensures (n % U32 + 1) % U32 == (n + 1) % U32
  {
  }
}

/**
 One producer and one consumer sharing the ring, step by step: each load, buffer access and store
 of `riv_ring_push` and `riv_ring_pop` is one atomic step, and the steps interleave freely.
 */
module RingSteps {
  import opened Basics
  import opened Bits
  import opened RingIndex

  type Byte = bv8

  /** Where the producer is inside a push of `b`, with the locals it holds there. */
  datatype Producer = Idle | HaveHead(b: Byte, h: nat) | HaveRoom(b: Byte, h: nat) | Written(b: Byte, h: nat)

  /** Where the consumer is inside a pop. */
  datatype Consumer = Waiting | HaveTail(t: nat) | HaveByte(t: nat) | Taken(t: nat, b: Byte)

  /** The ring, both threads, and what their calls have pushed and popped so far. */
  datatype World = World(
    buf: seq<Byte>, mask: nat, head: nat, tail: nat,
    producer: Producer, consumer: Consumer,
    pushed: seq<Byte>, popped: seq<Byte>)

  datatype Action = Produce(b: Byte) | Consume

  function Start(buf: seq<Byte>, cap: nat): World
    requires cap > 0
  {
    World(buf, cap - 1, 0, 0, Idle, Waiting, [], [])
  }

  predicate Room(w: World, h: nat) {
    Minus(h, w.tail) <= w.mask
  }

  /** The slot index is masked; the guard keeps the step total when the buffer is not as long as the mask says. */
  function Store(w: World, i: nat, b: Byte): seq<Byte> {
    if i < |w.buf| then w.buf[i := b] else w.buf
  }

  function Load(w: World, i: nat): Byte {
    if i < |w.buf| then w.buf[i] else 0
  }

  /** The next step of `riv_ring_push`; from `Idle` a new push of `b` begins. */
  function ProducerStep(w: World, b: Byte): World {
    match w.producer
    case Idle => w.(producer := HaveHead(b, w.head))
    case HaveHead(b, h) => w.(producer := if Room(w, h) then HaveRoom(b, h) else Idle)
    case HaveRoom(b, h) => w.(buf := Store(w, And(h, w.mask), b), producer := Written(b, h))
    case Written(b, h) => w.(head := (h + 1) % U32, producer := Idle, pushed := w.pushed + [b])
  }

  /** The next step of `riv_ring_pop`. */
  function ConsumerStep(w: World): World {
    match w.consumer
    case Waiting => w.(consumer := HaveTail(w.tail))
    case HaveTail(t) => w.(consumer := if w.head == t then Waiting else HaveByte(t))
    case HaveByte(t) => w.(consumer := Taken(t, Load(w, And(t, w.mask))))
    case Taken(t, b) => w.(tail := (t + 1) % U32, consumer := Waiting, popped := w.popped + [b])
  }

  function Step(w: World, a: Action): World {
    match a
    case Produce(b) => ProducerStep(w, b)
    case Consume => ConsumerStep(w)
  }

  function Run(w: World, actions: seq<Action>): World
    decreases |actions|
  {
    if actions == [] then w else Run(Step(w, actions[0]), actions[1..])
  }

  // ---------- the invariant ----------

  ghost predicate Shape(w: World, k: nat) {
    && k <= 31 && |w.buf| == Pow2(k) && w.mask == Pow2(k) - 1
    && w.head == |w.pushed| % U32 && w.tail == |w.popped| % U32
    && |w.popped| <= |w.pushed| <= |w.popped| + Pow2(k)
  }

  /** Every byte pushed and not yet popped is in its slot. */
  ghost predicate Held(w: World) {
    |w.buf| > 0 && forall i | |w.popped| <= i < |w.pushed| :: w.buf[i % |w.buf|] == w.pushed[i]
  }

  ghost predicate ProducerOk(w: World) {
    match w.producer
    case Idle => true
    case HaveHead(b, h) => h == w.head
    case HaveRoom(b, h) => h == w.head && |w.pushed| < |w.popped| + |w.buf|
    case Written(b, h) =>
      && h == w.head && |w.pushed| < |w.popped| + |w.buf|
      && |w.buf| > 0 && w.buf[|w.pushed| % |w.buf|] == b
  }

  ghost predicate ConsumerOk(w: World) {
    match w.consumer
    case Waiting => true
    case HaveTail(t) => t == w.tail
    case HaveByte(t) => t == w.tail && |w.popped| < |w.pushed|
    case Taken(t, b) => t == w.tail && |w.popped| < |w.pushed| && b == w.pushed[|w.popped|]
  }

  ghost predicate Inv(w: World, k: nat) {
    Shape(w, k) && Held(w) && ProducerOk(w) && ConsumerOk(w) && w.popped <= w.pushed
  }

  /** What the test of `riv_ring_push` finds: room exactly when fewer than the capacity are unread. */
  lemma RoomExact(w: World, k: nat)
    requires Shape(w, k)
    ensures Room(w, w.head) <==> |w.pushed| < |w.popped| + |w.buf|
    ensures w.head == w.tail <==> |w.pushed| == |w.popped|
  {
    CapacityBound(k);
    DistanceKept(|w.pushed|, |w.popped|);
  }

  /** The slot the producer is about to write holds no byte that is still unread. */
  lemma NoOverwrite(w: World, k: nat, i: nat)
    requires Inv(w, k) && w.producer.HaveRoom? && |w.popped| <= i < |w.pushed|
    ensures And(w.producer.h, w.mask) != i % |w.buf|
    ensures And(w.producer.h, w.mask) == |w.pushed| % |w.buf|
  {
    SlotOf(|w.pushed|, k);
    Apart(i, |w.pushed|, |w.buf|);
  }

  lemma ProducerKeeps(w: World, b: Byte, k: nat)
    requires Inv(w, k)
    ensures Inv(ProducerStep(w, b), k)
  {
    hide And, Minus;
    RoomExact(w, k);
    match w.producer
    case Idle =>
    case HaveHead(b, h) =>
    case HaveRoom(b, h) => ProducerWrites(w, k);
    case Written(b, h) => NextWraps(|w.pushed|);
  }

  lemma ProducerWrites(w: World, k: nat)
    requires Inv(w, k) && w.producer.HaveRoom?
    ensures forall b :: Inv(ProducerStep(w, b), k)
  {
    hide And, Minus, Pow2;
    SlotOf(|w.pushed|, k);
    assert And(w.producer.h, w.mask) == |w.pushed| % |w.buf|;
    forall i | |w.popped| <= i < |w.pushed| ensures And(w.producer.h, w.mask) != i % |w.buf| {
      NoOverwrite(w, k, i);
    }
  }

  lemma ConsumerKeeps(w: World, k: nat)
    requires Inv(w, k)
    ensures Inv(ConsumerStep(w), k)
  {
    hide And, Minus;
    RoomExact(w, k);
    match w.consumer
    case Waiting =>
    case HaveTail(t) =>
    case HaveByte(t) => SlotOf(|w.popped|, k);
    case Taken(t, b) => NextWraps(|w.popped|);
  }

  /** Every interleaving, of any length: the indices may wrap any number of times. */
  lemma {:induction false} RunKeeps(w: World, actions: seq<Action>, k: nat)
    requires Inv(w, k)
    ensures Inv(Run(w, actions), k)
    decreases |actions|
  {
    hide Inv;
    if actions != [] {
      match actions[0] {
        case Produce(b) => ProducerKeeps(w, b, k);
        case Consume => ConsumerKeeps(w, k);
      }
      RunKeeps(Step(w, actions[0]), actions[1..], k);
    }
  }

  /**
   For every capacity `riv_ring_init` accepts and every interleaving from there: what was popped is
   a prefix of what was pushed, and no more than the capacity is ever waiting.
   */
  lemma FifoForAllInterleavings(buf: seq<Byte>, cap: nat, actions: seq<Action>)
    requires 0 < cap < U32 && IsPow2(cap) && |buf| == cap
    ensures var w := Run(Start(buf, cap), actions);
            && w.popped <= w.pushed
            && |w.pushed| - |w.popped| <= cap
            && forall i | |w.popped| <= i < |w.pushed| :: |w.buf| == cap && w.buf[i % cap] == w.pushed[i]
  {
    var k := Accepted(cap);
    assert Inv(Start(buf, cap), k);
    RunKeeps(Start(buf, cap), actions, k);
  }

  /**
   A push gives up exactly when the ring is full at the moment it reads `tail`, a pop when it is
   empty as it reads `head`.
   */
  lemma RefusedExactly(w: World, b: Byte, k: nat)
    requires Inv(w, k)
    ensures w.producer.HaveHead? ==>
              (ProducerStep(w, b).producer.Idle? <==> |w.pushed| - |w.popped| == |w.buf|)
    ensures w.consumer.HaveTail? ==>
              (ConsumerStep(w).consumer.Waiting? <==> |w.pushed| == |w.popped|)
  {
    RoomExact(w, k);
  }
}

/** `riv_ring_count` while the ring is in use: it loads `head` first and `tail` some steps later. */
module RingCount {
  import opened RingIndex
  import opened RingSteps

  /** One side alone moves only its own index. */
  lemma {:induction false} OneSided(w: World, actions: seq<Action>)
    ensures (forall a | a in actions :: a.Consume?) ==> Run(w, actions).pushed == w.pushed
    ensures (forall a | a in actions :: a.Produce?) ==> Run(w, actions).popped == w.popped
    decreases |actions|
  {
    if actions != [] {
      assert actions[0] in actions && forall a | a in actions[1..] :: a in actions;
      OneSided(Step(w, actions[0]), actions[1..]);
    }
  }

  /**
   The count is the distance from what was pushed at the first load to what was popped at the second,
   if and only if no byte pushed in between was popped in between. The producer, during whose call
   only pops can happen, reads what is waiting at its second load; the consumer, what was waiting at
   its first.
   */
  lemma CountExact(w: World, actions: seq<Action>, k: nat)
    requires Inv(w, k)
    ensures var v := Run(w, actions);
            var n := Minus(w.head, v.tail);
            && (n == |w.pushed| - |v.popped| <==> |v.popped| <= |w.pushed|)
            && ((forall a | a in actions :: a.Consume?) ==> n == |v.pushed| - |v.popped|)
            && ((forall a | a in actions :: a.Produce?) ==> n == |w.pushed| - |w.popped|)
  {
    hide Run, Minus;
    var v := Run(w, actions);
    RunKeeps(w, actions, k);
    PopsGrow(w, actions);
    OneSided(w, actions);
    CapacityBound(k);
    if |v.popped| <= |w.pushed| {
      DistanceKept(|w.pushed|, |v.popped|);
    }
  }

  lemma {:induction false} PopsGrow(w: World, actions: seq<Action>)
    ensures |Run(w, actions).popped| >= |w.popped|
    decreases |actions|
  {
    if actions != [] {
      PopsGrow(Step(w, actions[0]), actions[1..]);
    }
  }
}

/** `ring.h` as code: each call is one uninterrupted run of the steps above, and together they are a bounded queue. */
module RingBuffer {
  import opened Basics
  import opened Bits
  import opened RingIndex
  import opened RingSteps

  class Ring {
    const buf: array<Byte>
    const mask: nat
    var head: nat
    var tail: nat
    ghost var pushed: seq<Byte>
    ghost var popped: seq<Byte>
    ghost const k: nat

    constructor (buf: array<Byte>, ghost k: nat)
      requires k <= 31 && buf.Length == Pow2(k)
      ensures this.buf == buf && Valid() && Contents() == []
    {
      this.buf, mask, head, tail := buf, buf.Length - 1, 0, 0;
      this.k, pushed, popped := k, [], [];
    }

    /** `riv_ring_init`: refuses a capacity that is not a power of two. */
    static method Init(buf: array<Byte>) returns (r: Ring?)
      requires buf.Length < U32
      ensures r != null <==> IsPow2(buf.Length)
      ensures r != null ==> fresh(r) && r.buf == buf && r.Valid() && r.Contents() == []
    {
      if buf.Length == 0 || And(buf.Length, buf.Length - 1) != 0 { return null; }
      ghost var k := Accepted(buf.Length);
      r := new Ring(buf, k);
    }

    ghost function View(): World
      reads this, buf
    {
      World(buf[..], mask, head, tail, Idle, Waiting, pushed, popped)
    }

    ghost predicate Valid()
      reads this, buf
    {
      Inv(View(), k)
    }

    /** The bytes waiting, oldest first. */
    ghost function Contents(): (s: seq<Byte>)
      reads this, buf
      requires Valid()
      ensures |s| <= buf.Length
    {
      pushed[|popped|..]
    }

    method Count() returns (n: nat)
      requires Valid()
      ensures n == |Contents()|
    {
      CapacityBound(k);
      DistanceKept(|pushed|, |popped|);
      n := Minus(head, tail);
    }

    method Push(b: Byte) returns (ok: bool)
      requires Valid()
      modifies this`head, this`pushed, buf
      ensures Valid()
      ensures ok <==> |old(Contents())| < buf.Length
      ensures Contents() == if ok then old(Contents()) + [b] else old(Contents())
      ensures View() == Run(old(View()), seq(if ok then 4 else 2, i => Produce(b)))
    {
      hide And, Minus, Pow2;
      ghost var w := View();
      RoomExact(w, k);
      PushSteps(w, b);
      var h := head;
      var t := tail;
      if Minus(h, t) > mask { return false; }
      SlotOf(|pushed|, k);
      buf[And(h, mask)] := b;
      head := (h + 1) % U32;
      pushed := pushed + [b];
      RunKeeps(w, seq(4, i => Produce(b)), k);
      return true;
    }

    method Pop() returns (out: Byte, ok: bool)
      requires Valid()
      modifies this`tail, this`popped
      ensures Valid()
      ensures ok <==> old(Contents()) != []
      ensures if ok then [out] + Contents() == old(Contents()) else Contents() == old(Contents())
      ensures View() == Run(old(View()), seq(if ok then 4 else 2, i => Consume))
    {
      hide And, Minus, Pow2;
      ghost var w := View();
      RoomExact(w, k);
      PopSteps(w);
      var t := tail;
      var h := head;
      if h == t { return 0, false; }
      SlotOf(|popped|, k);
      out := buf[And(t, mask)];
      tail := (t + 1) % U32;
      popped := popped + [out];
      RunKeeps(w, seq(4, i => Consume), k);
      ok := true;
    }

    /** `riv_ring_write`: as many bytes as fit. */
    method Write(src: seq<Byte>) returns (n: nat)
      requires Valid()
      modifies this`head, this`pushed, buf
      ensures Valid() && n <= |src| && Contents() == old(Contents()) + src[..n]
      ensures n < |src| ==> |Contents()| == buf.Length
    {
      hide Inv, Run;
      n := 0;
      while n < |src|
        invariant Valid() && n <= |src| && Contents() == old(Contents()) + src[..n]
      {
        var ok := Push(src[n]);
        if !ok { break; }
        n := n + 1;
      }
    }

    /** `riv_ring_read`: as many bytes as are there. */
    method Read(n: nat) returns (dst: seq<Byte>)
      requires Valid()
      modifies this`tail, this`popped
      ensures Valid() && |dst| <= n && dst + Contents() == old(Contents())
      ensures |dst| < n ==> Contents() == []
    {
      hide Inv, Run;
      dst := [];
      while |dst| < n
        invariant Valid() && |dst| <= n && dst + Contents() == old(Contents())
      {
        ghost var before := Contents();
        var b, ok := Pop();
        if !ok { break; }
        assert (dst + [b]) + Contents() == dst + before;
        dst := dst + [b];
      }
    }
  }

  /** A push that nothing interrupts takes two steps when the ring is full and four when it is not. */
  lemma PushSteps(w: World, b: Byte)
    requires w.producer.Idle?
    ensures !Room(w, w.head) ==> Run(w, seq(2, i => Produce(b))) == w
    ensures Room(w, w.head) ==>
              Run(w, seq(4, i => Produce(b))) ==
              w.(buf := Store(w, And(w.head, w.mask), b), head := (w.head + 1) % U32, pushed := w.pushed + [b])
  {
    hide And, Minus, Room;
    var p := Produce(b);
    assert seq(2, i => p) == [p, p] && seq(4, i => p) == [p, p, p, p];
    var w1 := ProducerStep(w, b);
    var w2 := ProducerStep(w1, b);
    assert Room(w1, w.head) == Room(w, w.head) by { RoomSame(w, w1); }
    RunTwo(w, p, []);
    RunTwo(w, p, [p, p]);
    RunTwo(w2, p, []);
  }

  lemma PopSteps(w: World)
    requires w.consumer.Waiting?
    ensures w.head == w.tail ==> Run(w, seq(2, i => Consume)) == w
    ensures w.head != w.tail ==>
              Run(w, seq(4, i => Consume)) ==
              w.(tail := (w.tail + 1) % U32, popped := w.popped + [Load(w, And(w.tail, w.mask))])
  {
    hide And, Minus;
    var p := Consume;
    assert seq(2, i => p) == [p, p] && seq(4, i => p) == [p, p, p, p];
    RunTwo(w, p, []);
    RunTwo(w, p, [p, p]);
    RunTwo(ConsumerStep(ConsumerStep(w)), p, []);
  }

  lemma RoomSame(w: World, v: World)
    requires v.tail == w.tail && v.mask == w.mask
    ensures Room(v, w.head) == Room(w, w.head)
  {
  }

  lemma RunTwo(w: World, a: Action, rest: seq<Action>)
    ensures Run(w, [a, a] + rest) == Run(Step(Step(w, a), a), rest)
  {
    assert ([a, a] + rest)[1..] == [a] + rest && ([a] + rest)[1..] == rest;
  }
}
