/** The scheduler of `proc.h` and the wait queues of `waitq.h` over real linked lists. */
module Kernel {
  import opened Basics
  import opened Lists
  import opened SchedSpec
  import opened SchedInvariant
  import opened SchedRuns

  function LinkSeq(links: seq<Node>, s: seq<nat>): (r: seq<Node>)
    requires forall i | 0 <= i < |s| :: s[i] < |links|
    ensures |r| == |s| && forall i | 0 <= i < |s| :: r[i] == links[s[i]]
  {
    seq(|s|, i requires 0 <= i < |s| => links[s[i]])
  }

  /** The nodes of the process table and the queue heads are all different objects. */
  ghost predicate Separate(links: seq<Node>, heads: seq<Node>) {
    && (forall i, j | 0 <= i < j < |links| :: links[i] != links[j])
    && (forall i, j | 0 <= i < j < |heads| :: heads[i] != heads[j])
    && (forall i, j | 0 <= i < |links| && 0 <= j < |heads| :: links[i] != heads[j])
    && (forall i | 0 <= i < |links| :: links[i].owner == i)
  }

  ghost predicate OneQueue(s: Sched) {
    forall q: nat, r: nat, x: nat :: In(s, q, x) && In(s, r, x) ==> q == r
  }

  /** The nodes of queue `q` are not those of queue `r`, nor a head, nor the node of an unlinked process. */
  lemma NodesApart(links: seq<Node>, heads: seq<Node>, s: Sched, q: nat, r: nat, p: nat)
    requires Separate(links, heads) && |s.qs| == |heads| && InRange(s) && |s.state| == |links| && OneQueue(s)
    requires q < |heads| && r < |heads| && q != r && p < |links| && (In(s, r, p) || !Linked(s, p))
    ensures var nodes, others := LinkSeq(links, s.qs[q]), LinkSeq(links, s.qs[r]);
            && heads[q] !in others && heads[q] != links[p] && heads[q] != heads[r]
            && forall n | n in nodes :: n !in others && n != links[p] && n != heads[r]
  {
    var nodes, others := LinkSeq(links, s.qs[q]), LinkSeq(links, s.qs[r]);
    forall n | n in nodes ensures n !in others && n != links[p] && n != heads[r] {
      var i :| 0 <= i < |nodes| && nodes[i] == n;
      assert In(s, q, s.qs[q][i]) && !In(s, r, s.qs[q][i]);
    }
  }

  /** Taking the first process off queue `q`, or one process off whichever queue holds it, keeps the queues apart. */
  lemma StillApart(s: Sched, qs: seq<seq<nat>>)
    requires InRange(s) && OneQueue(s) && |qs| == |s.qs|
    requires forall q, x: nat | 0 <= q < |qs| && x in qs[q] :: x in s.qs[q]
    ensures InRange(s.(qs := qs)) && OneQueue(s.(qs := qs))
    ensures forall x: nat :: Linked(s.(qs := qs), x) ==> Linked(s, x)
  {
    var t := s.(qs := qs);
    forall q: nat, x: nat | In(t, q, x) ensures In(s, q, x) {
    }
    forall q, i | 0 <= q < |qs| && 0 <= i < |qs[q]| ensures qs[q][i] < |s.state| {
      assert In(s, q, qs[q][i]);
    }
  }

  lemma WithoutLacks(links: seq<Node>, h: Node, s: seq<nat>, i: nat)
    requires i < |s| && forall k | 0 <= k < |s| :: s[k] < |links|
    requires Distinct(h, LinkSeq(links, s))
    ensures s[i] !in Without(s, i)
    ensures forall x: nat :: x in Without(s, i) ==> x in s
  {
    var row := LinkSeq(links, s);
    assert forall k | 0 <= k < |row| && k != i :: row[k] != row[i];
  }

  /** Leaving out one process leaves out its node. */
  lemma LinkWithout(links: seq<Node>, s: seq<nat>, i: int)
    requires -1 <= i < |s| && forall k | 0 <= k < |s| :: s[k] < |links|
    ensures forall k | 0 <= k < |Without(s, i)| :: Without(s, i)[k] < |links|
    ensures forall x: nat | x in Without(s, i) :: x in s
    ensures LinkSeq(links, Without(s, i)) == Without(LinkSeq(links, s), i)
  {
  }

  class Kernel {
    const links: seq<Node>
    const heads: seq<Node>
    var state: seq<PState>
    var current: Option<nat>
    ghost var qs: seq<seq<nat>>

    ghost function View(): Sched
      reads this
    {
      Sched(state, qs, current)
    }

    /** Every queue is a ring of the nodes of its members, and no node is in two. */
    ghost predicate Wired()
      reads this, links, heads
    {
      && Separate(links, heads) && |state| == |links| && |qs| == |heads|
      && InRange(View()) && OneQueue(View())
      && (forall q | 0 <= q < |heads| :: Ring(heads[q], LinkSeq(links, qs[q])))
    }

    ghost predicate Valid()
      reads this, links, heads
    {
      && Wired() && Inv(View())
      && (current.Some? && !Linked(View(), current.value) ==> Detached(links[current.value]))
    }

    /** `RIV_PROC_DECLARE` and `riv_waitq_init`: zeroed slots, and queue heads linked to themselves. */
    constructor (slots: nat, queues: nat)
      requires queues > 0
      ensures Valid() && View() == Boot(slots, queues)
    {
      var ls: seq<Node>, hs: seq<Node> := [], [];
      while |ls| < slots
        invariant |ls| <= slots && (forall n | n in ls :: fresh(n)) && Separate(ls, hs)
      {
        var n := new Node(|ls|);
        ls := ls + [n];
      }
      while |hs| < queues
        invariant |ls| == slots && |hs| <= queues && (forall n | n in ls :: fresh(n)) && Separate(ls, hs)
        invariant forall n | n in hs :: fresh(n) && Ring(n, [])
      {
        var h := new Node(0);
        Init(h);
        hs := hs + [h];
      }
      links, heads, state, current := ls, hs, seq(slots, i => Unused), None;
      qs := seq(queues, i => []);
      new;
      BootIsSafe(slots, queues);
    }

    /** `riv_list_add_tail` on queue `q`: every other ring and every other detached node stays. */
    method LinkNode(q: nat, p: nat)
      requires Wired() && q < |heads| && p < |links| && !Linked(View(), p)
      modifies links, heads
      ensures Ring(heads[q], LinkSeq(links, qs[q] + [p]))
      ensures forall r | 0 <= r < |heads| && r != q :: Ring(heads[r], LinkSeq(links, qs[r]))
      ensures forall x: nat | x < |links| && x != p && !Linked(View(), x) && old(Detached(links[x])) ::
                Detached(links[x])
    {
      assert !In(View(), q, p);
      ghost var row := LinkSeq(links, qs[q]);
      assert links[p] !in row;
      AddTail(heads[q], links[p], row);
      assert LinkSeq(links, qs[q] + [p]) == row + [links[p]];
      forall r | 0 <= r < |heads| && r != q ensures Ring(heads[r], LinkSeq(links, qs[r])) {
        ghost var nodes := LinkSeq(links, qs[r]);
        assert old(Ring(heads[r], nodes));
        NodesApart(links, heads, View(), r, q, p);
        assert unchanged(heads[r]);
        assert forall n | n in nodes :: unchanged(n);
        assert forall i | 0 <= i <= |nodes| + 1 ::
                 Place(heads[r], nodes, i) == heads[r] || Place(heads[r], nodes, i) in nodes;
      }
      forall x: nat | x < |links| && x != p && !Linked(View(), x) && old(Detached(links[x]))
        ensures Detached(links[x])
      {
        assert !In(View(), q, x);
        assert links[x] !in row;
      }
    }

    /** Where the node of `p` is: at place `i` of queue `q`, or detached when `i` is -1. */
    ghost predicate At(p: nat, q: nat, i: int)
      reads this, links
    {
      && p < |links| && q < |qs| && -1 <= i < |qs[q]|
      && if i < 0 then !Linked(View(), p) && Detached(links[p]) else qs[q][i] == p
    }

    /** `riv_list_del` on the node of `p`. */
    method UnlinkNode(p: nat, ghost q: nat, ghost i: int)
      requires Wired() && At(p, q, i)
      modifies links, heads
      ensures forall r, x: nat | 0 <= r < |heads| && x in After(q, i)[r] :: x in qs[r]
      ensures forall r | 0 <= r < |heads| :: Ring(heads[r], LinkSeq(links, After(q, i)[r]))
      ensures Detached(links[p])
      ensures forall x: nat | x < |links| && !Linked(View(), x) && old(Detached(links[x])) :: Detached(links[x])
    {
      hide Without;
      ghost var row := LinkSeq(links, qs[q]);
      assert i < 0 || In(View(), q, p);
      assert !In(View(), q, p) ==> links[p] !in row;
      LinkWithout(links, qs[q], i);
      Delete(links[p], heads[q], row, i);
      forall r | 0 <= r < |heads| && r != q ensures Ring(heads[r], LinkSeq(links, qs[r])) {
        ghost var nodes := LinkSeq(links, qs[r]);
        assert old(Ring(heads[r], nodes));
        NodesApart(links, heads, View(), r, q, p);
        assert unchanged(heads[r]);
        assert forall n | n in nodes :: unchanged(n);
        assert forall k | 0 <= k <= |nodes| + 1 ::
                 Place(heads[r], nodes, k) == heads[r] || Place(heads[r], nodes, k) in nodes;
      }
      forall x: nat | x < |links| && !Linked(View(), x) && old(Detached(links[x])) ensures Detached(links[x]) {
        assert !In(View(), q, x);
        assert links[x] !in row;
      }
    }

    /** The queues without entry `i` of queue `q`. */
    ghost function After(q: nat, i: int): seq<seq<nat>>
      reads this
      requires q < |qs| && -1 <= i < |qs[q]|
    {
      qs[q := Without(qs[q], i)]
    }

    method Append(q: nat, p: nat)
      requires Wired() && q < |heads| && p < |links| && !Linked(View(), p)
      modifies this`qs, links, heads
      ensures Wired() && qs == Enqueue(old(qs), q, p)
      ensures forall x: nat | x < |links| && x != p && !old(Linked(View(), x)) && old(Detached(links[x])) ::
                Detached(links[x])
    {
      hide Ring;
      ghost var was := View();
      LinkNode(q, p);
      qs := Enqueue(qs, q, p);
      EnqueueIn(was, q, p);
      assert forall k: nat, x: nat :: In(View(), k, x) <==> In(was, k, x) || (k == q && x == p);
    }

    method Remove(p: nat, ghost q: nat, ghost i: int)
      requires Wired() && At(p, q, i)
      modifies this`qs, links, heads
      ensures Wired() && qs == old(After(q, i))
      ensures !Linked(View(), p) && Detached(links[p])
      ensures forall x: nat | x < |links| && !old(Linked(View(), x)) && old(Detached(links[x])) ::
                !Linked(View(), x) && Detached(links[x])
    {
      ghost var was := View();
      assert Distinct(heads[q], LinkSeq(links, qs[q]));
      if i >= 0 {
        WithoutLacks(links, heads[q], qs[q], i);
        assert In(was, q, p);
      }
      UnlinkNode(p, q, i);
      qs := After(q, i);
      StillApart(was, qs);
      forall k: nat ensures !In(View(), k, p) {
        assert k != q ==> !In(was, k, p);
      }
    }

    /** `riv_list_pop` and `riv_list_entry`: the process at the head of a queue that is not empty. */
    method Take(q: nat) returns (p: nat)
      requires Wired() && q < |heads| && qs[q] != []
      modifies this`qs, links, heads
      ensures Wired() && p == old(qs[q][0]) && qs == old(qs)[q := old(qs[q])[1..]]
      ensures !Linked(View(), p) && Detached(links[p])
      ensures forall x: nat | x < |links| && !old(Linked(View(), x)) && old(Detached(links[x])) ::
                !Linked(View(), x) && Detached(links[x])
    {
      FirstNode(heads[q], LinkSeq(links, qs[q]));
      p := heads[q].next.owner;
      Remove(p, q, 0);
      assert Without(old(qs[q]), 0) == old(qs[q])[1..];
    }

    /** `riv_proc_alloc`: the first unused slot. */
    method Alloc() returns (r: Option<nat>)
      requires Valid()
      modifies this`state
      ensures Valid() && View() == old(Step(View(), AllocCall))
      ensures match r
              case Some(p) => p < |state| && old(state[p]).Unused? && state[p].Ready? && !Linked(View(), p)
              case None => forall p | 0 <= p < |state| :: !state[p].Unused?
    {
      hide Ring;
      var i := 0;
      while i < |state| && !state[i].Unused?
        invariant 0 <= i <= |state| && FirstUnused(state, i) == FirstUnused(state, 0)
      {
        i := i + 1;
      }
      AllocKeeps(View());
      if i == |state| { return None; }
      ghost var was := View();
      state := state[i := PState.Ready];
      assert forall k: nat, x: nat :: In(View(), k, x) <==> In(was, k, x);
      return Some(i);
    }

    /** `riv_proc_ready`, also for the process a wake-up has just taken off its wait queue. */
    method Ready(p: nat)
      requires Wired() && p < |links| && !Linked(View(), p)
      modifies this`qs, this`state, links, heads
      ensures Wired() && View() == old(MakeReady(View(), p))
      ensures forall x: nat | x < |links| && x != p && !old(Linked(View(), x)) && old(Detached(links[x])) ::
                Detached(links[x])
      ensures old(Valid() && Allowed(View(), ReadyCall(p))) ==> Valid() && View() == old(Step(View(), ReadyCall(p)))
    {
      hide Ring;
      ghost var was := View();
      Append(0, p);
      state := state[p := PState.Ready];
      assert forall k: nat, x: nat :: In(View(), k, x) <==> In(was.(qs := qs), k, x);
      if old(Valid() && Allowed(View(), ReadyCall(p))) {
        ReadyKeeps(was, p);
      }
    }

    method SetState(p: nat, st: PState)
      requires Wired() && p < |links|
      modifies this`state
      ensures Wired() && state == old(state)[p := st]
      ensures forall x: nat :: Linked(View(), x) <==> old(Linked(View(), x))
    {
      hide Ring;
      ghost var was := View();
      state := state[p := st];
      SameQueues(was, View());
    }

    /** `riv_proc_yield`; all it needs is that a running process is on no queue. */
    method Yield() returns (next: Option<nat>)
      requires Wired() && (current.Some? && state[current.value].Running? ==> !Linked(View(), current.value))
      modifies this, links, heads
      ensures Wired() && View() == SchedSpec.Yield(old(View())) && next == current
      ensures old(Valid()) ==> Valid() && View() == old(Step(View(), YieldCall))
    {
      hide Ring, Inv, OneQueue, InRange, Separate;
      ghost var was := View();
      SpareRange(was);
      if old(Valid()) {
        YieldKeeps(was);
      }
      var e := IsEmpty(heads[0], LinkSeq(links, qs[0]));
      if e { return current; }
      if current.Some? && state[current.value].Running? {
        SetState(current.value, PState.Ready);
        Append(0, current.value);
      }
      Switch();
      return current;
    }

    /** The head of the run queue takes over. */
    method Switch()
      requires Wired() && qs[0] != []
      modifies this, links, heads
      ensures Wired()
      ensures var s := old(View());
              View() == Sched(s.state[s.qs[0][0] := PState.Running], s.qs[0 := s.qs[0][1..]], Some(s.qs[0][0]))
      ensures current.Some? && current.value < |links| && !Linked(View(), current.value)
                && Detached(links[current.value])
    {
      hide Ring, OneQueue, InRange, Separate;
      SpareRange(View());
      var n := Take(0);
      SetState(n, PState.Running);
      ghost var mid := View();
      current := Some(n);
      SameQueues(mid, View());
    }

    /** The guarded part of `riv_waitq_sleep`: the current process moves from wherever it is linked to queue `q`. */
    method Park(q: nat)
      requires Valid() && current.Some? && Allowed(View(), ParkCall(q))
      modifies this, links, heads
      ensures Valid() && View() == old(Step(View(), ParkCall(q)))
    {
      hide Ring, Inv, OneQueue, InRange, Linked, Separate, LinkSeq, Wired, Without, Unlink;
      ghost var was := View();
      SpareInv(was);
      SpareWired();
      PutToSleepKeeps(was, q);
      var p := current.value;
      ghost var r, i := Whereabouts(was, p);
      SetState(p, PState.Sleeping);
      Remove(p, r, i);
      SpareWired();
      Append(q, p);
      TailIsLinked(View(), q);
    }

    lemma SpareWired()
      requires Wired()
      ensures |state| == |links| && |qs| == |heads|
    {
    }

    /** `riv_waitq_sleep` with nothing in between. */
    method Sleep(q: nat)
      requires Valid() && Allowed(View(), ParkCall(q))
      modifies this, links, heads
      ensures Valid() && View() == old(SchedRuns.Sleep(View(), q))
    {
      hide Ring, Inv, OneQueue, InRange, Linked, PutToSleep;
      if current.None? { return; }
      ghost var was := View();
      Park(q);
      SpareInv(View());
      var _ := Yield();
    }

    /** `riv_waitq_wake_one`. */
    method WakeOne(q: nat) returns (woke: bool)
      requires Valid() && Allowed(View(), WakeCall(q))
      modifies this, links, heads
      ensures Valid() && View() == old(Step(View(), WakeCall(q)))
      ensures woke <==> old(qs[q]) != []
    {
      hide Ring, Inv, OneQueue, InRange;
      ghost var was := View();
      SpareInv(was);
      WakeOneKeeps(was, q);
      var e := IsEmpty(heads[q], LinkSeq(links, qs[q]));
      if e { return false; }
      var p := Take(q);
      Ready(p);
      StillLinked(was, View(), q);
      return true;
    }

    /** `riv_waitq_wake_all`. */
    method WakeAll(q: nat) returns (n: nat)
      requires Valid() && Allowed(View(), WakeCall(q))
      modifies this, links, heads
      ensures Valid() && View() == old(SchedRuns.WakeAll(View(), q))
      ensures n == |old(qs[q])| && qs[q] == []
    {
      hide Ring, Inv, OneQueue, InRange;
      ghost var was := View();
      n := 0;
      WakeAllKeeps(was, q);
      var more := true;
      while more
        invariant Valid() && 0 < q < |qs| && SchedRuns.WakeAll(View(), q) == SchedRuns.WakeAll(was, q)
        invariant n + |qs[q]| == |was.qs[q]| && (!more ==> qs[q] == [])
        decreases more, |qs[q]|
      {
        more := WakeOne(q);
        if more { n := n + 1; }
      }
    }

    /** The write at the head of `riv_proc_exit`: it leaves a sound state if and only if the process was running. */
    method Die()
      requires Valid()
      modifies this`state
      ensures Wired() && View() == old(SchedSpec.Die(View()))
      ensures current.Some? && old(!state[current.value].Zombie?) ==>
                (Inv(View()) <==> old(state[current.value].Running?))
      ensures old(current.None? || state[current.value].Running?) ==> Valid() && View() == old(Step(View(), DieCall))
    {
      hide Ring, OneQueue, InRange;
      ghost var was := View();
      SpareInv(was);
      if current.None? { return; }
      if !state[current.value].Zombie? {
        DieExact(was);
      }
      SetState(current.value, PState.Zombie);
    }

    /** `riv_proc_exit` up to its first yield, from any sound state. */
    method Exit()
      requires Valid()
      modifies this, links, heads
      ensures Wired() && View() == SchedSpec.Yield(SchedSpec.Die(old(View())))
      ensures old(current.None? || state[current.value].Running?) ==> Valid()
    {
      hide Ring, Inv, OneQueue, Separate, Linked;
      SpareInv(View());
      Die();
      SpareRange(View());
      var _ := Yield();
    }
  }

  lemma SpareRange(s: Sched)
    requires InRange(s)
    ensures |s.qs| > 0 && (s.current.Some? ==> s.current.value < |s.state|)
    ensures forall i | 0 <= i < |s.qs[0]| :: s.qs[0][i] < |s.state|
  {
  }

  lemma SpareInv(s: Sched)
    requires Inv(s)
    ensures InRange(s) && |s.qs| > 0 && (s.current.Some? ==> s.current.value < |s.state|)
    ensures s.current.Some? && s.state[s.current.value].Running? ==> !Linked(s, s.current.value)
    ensures s.qs[0] != [] ==> s.qs[0][0] < |s.state|
  {
  }

  lemma TailIsLinked(s: Sched, q: nat)
    requires q < |s.qs| && s.qs[q] != []
    ensures Linked(s, s.qs[q][|s.qs[q]| - 1])
  {
    assert In(s, q, s.qs[q][|s.qs[q]| - 1]);
  }

  /** Waking takes no process off the queues. */
  lemma StillLinked(s: Sched, t: Sched, q: nat)
    requires InRange(s) && q < |s.qs| && s.qs[q] != [] && t == SchedSpec.WakeOne(s, q) && q > 0
    ensures forall x: nat :: Linked(s, x) ==> Linked(t, x)
    ensures Linked(t, s.qs[q][0])
  {
    var p := s.qs[q][0];
    assert In(t, 0, p) by { assert t.qs[0][|s.qs[0]|] == p; }
    forall x: nat | Linked(s, x) && x != p ensures Linked(t, x) {
      var k: nat :| In(s, k, x);
      assert s.qs[q] == [p] + s.qs[q][1..];
      assert In(t, k, x);
    }
  }

  lemma SameQueues(s: Sched, t: Sched)
    requires s.qs == t.qs && |s.state| == |t.state| && InRange(s) && OneQueue(s)
    requires t.current.Some? ==> t.current.value < |t.state|
    ensures InRange(t) && OneQueue(t)
    ensures forall x: nat :: Linked(s, x) <==> Linked(t, x)
  {
    assert forall k: nat, x: nat :: In(s, k, x) <==> In(t, k, x);
  }

  /** A queue and a place in it for a linked process, and place -1 for one that is not. */
  lemma Whereabouts(s: Sched, p: nat) returns (q: nat, i: int)
    requires Inv(s)
    ensures q < |s.qs| && -1 <= i < |s.qs[q]|
    ensures if Linked(s, p) then i >= 0 && s.qs[q][i] == p else i == -1
    ensures Unlink(s.qs, p) == s.qs[q := Without(s.qs[q], i)]
  {
    if Linked(s, p) {
      q :| In(s, q, p);
      i :| 0 <= i < |s.qs[q]| && s.qs[q][i] == p;
      RemoveAt(s.qs[q], i, p);
      forall r | 0 <= r < |s.qs| && r != q ensures SchedSpec.Remove(s.qs[r], p) == s.qs[r] {
        assert !In(s, r, p);
      }
    } else {
      q, i := 0, -1;
      forall r | 0 <= r < |s.qs| ensures SchedSpec.Remove(s.qs[r], p) == s.qs[r] {
        assert !In(s, r, p);
      }
    }
  }

  lemma {:induction false} RemoveAt(s: seq<nat>, i: nat, p: nat)
    requires i < |s| && s[i] == p && forall k | 0 <= k < i :: s[k] != p
    ensures SchedSpec.Remove(s, p) == s[..i] + s[i + 1..]
  {
    if i > 0 {
      var t := s[1..];
      RemoveAt(t, i - 1, p);
      assert [s[0]] + (t[..i - 1] + t[i..]) == s[..i] + s[i + 1..];
    }
  }
}
