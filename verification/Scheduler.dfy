/** The process states and queues of `proc.h` and `waitq.h` as values: what each call does to them. */
module SchedSpec {
  import opened Basics

  datatype PState = Unused | Ready | Running | Sleeping | Zombie

  /** Process slots by number; queue 0 is the run queue, the others are wait queues. */
  datatype Sched = Sched(state: seq<PState>, qs: seq<seq<nat>>, current: Option<nat>)

  // ---------- queues ----------

  predicate In(s: Sched, q: nat, p: nat) {
    q < |s.qs| && p in s.qs[q]
  }

  ghost predicate Linked(s: Sched, p: nat) {
    exists q: nat :: In(s, q, p)
  }

  predicate NoDup(s: seq<nat>) {
    forall i, j | 0 <= i < j < |s| :: s[i] != s[j]
  }

  function Remove(s: seq<nat>, p: nat): (r: seq<nat>)
    ensures p !in s ==> r == s
  {
    if s == [] then [] else if s[0] == p then s[1..] else [s[0]] + Remove(s[1..], p)
  }

  /** `riv_list_del`: take the process out of whatever queue it is in. */
  function Unlink(qs: seq<seq<nat>>, p: nat): (r: seq<seq<nat>>)
    ensures |r| == |qs| && forall q | 0 <= q < |qs| :: r[q] == Remove(qs[q], p)
  {
    seq(|qs|, q requires 0 <= q < |qs| => Remove(qs[q], p))
  }

  function Enqueue(qs: seq<seq<nat>>, q: nat, p: nat): seq<seq<nat>>
    requires q < |qs|
  {
    qs[q := qs[q] + [p]]
  }

  // ---------- calls ----------

  function FirstUnused(state: seq<PState>, i: nat): (r: nat)
    requires i <= |state|
    ensures i <= r <= |state|
    ensures r < |state| ==> state[r].Unused?
    ensures forall j | i <= j < r :: !state[j].Unused?
    decreases |state| - i
  {
    if i == |state| || state[i].Unused? then i else FirstUnused(state, i + 1)
  }

  function Alloc(s: Sched): Sched {
    var i := FirstUnused(s.state, 0);
    if i == |s.state| then s else s.(state := s.state[i := Ready])
  }

  function MakeReady(s: Sched, p: nat): Sched
    requires p < |s.state| && |s.qs| > 0
  {
    s.(state := s.state[p := Ready], qs := Enqueue(s.qs, 0, p))
  }

  ghost predicate InRange(s: Sched) {
    && |s.qs| > 0
    && (forall q, i | 0 <= q < |s.qs| && 0 <= i < |s.qs[q]| :: s.qs[q][i] < |s.state|)
    && (s.current.Some? ==> s.current.value < |s.state|)
  }

  /** The current process goes to the tail if it still runs, and the head of the run queue takes over. */
  function Yield(s: Sched): Sched
    requires InRange(s)
  {
    if s.qs[0] == [] then s
    else
      var s1 := if s.current.Some? && s.state[s.current.value].Running? then MakeReady(s, s.current.value) else s;
      var n := s1.qs[0][0];
      Sched(s1.state[n := Running], s1.qs[0 := s1.qs[0][1..]], Some(n))
  }

  function PutToSleep(s: Sched, q: nat): Sched
    requires InRange(s) && q < |s.qs| && s.current.Some?
  {
    var p := s.current.value;
    s.(state := s.state[p := Sleeping], qs := Enqueue(Unlink(s.qs, p), q, p))
  }

  function WakeOne(s: Sched, q: nat): Sched
    requires InRange(s) && q < |s.qs|
  {
    if s.qs[q] == [] then s else MakeReady(s.(qs := s.qs[q := s.qs[q][1..]]), s.qs[q][0])
  }

  /** Mark the current process dead; the loop of yields that follows is a sequence of `Yield` calls. */
  function Die(s: Sched): Sched
    requires InRange(s)
  {
    if s.current.None? then s else s.(state := s.state[s.current.value := Zombie])
  }
}

/** The scheduler invariant, which calls keep it, and that the run queue is fair. */
module SchedInvariant {
  import opened Basics
  import opened SchedSpec

  /**
   What a process that is current can be: running off the queues, or still queued after a sleep that
   did not switch.
   */
  ghost predicate CurrentOk(s: Sched, c: nat)
    requires c < |s.state|
  {
    match s.state[c]
    case Running => !Linked(s, c)
    case Ready => In(s, 0, c)
    case Sleeping => Linked(s, c)
    case Zombie => !Linked(s, c)
    case Unused => false
  }

  /**
   Each process is linked at most once; run-queue members are ready, wait-queue members sleep, so
   a zombie is in no queue; only the current process runs.
   */
  ghost predicate Inv(s: Sched) {
    && InRange(s)
    && (forall q | 0 <= q < |s.qs| :: NoDup(s.qs[q]))
    && (forall q: nat, r: nat, p: nat :: In(s, q, p) && In(s, r, p) ==> q == r)
    && (forall q: nat, p: nat :: In(s, q, p) ==> s.state[p] == if q == 0 then Ready else Sleeping)
    && (forall p: nat | p < |s.state| && s.state[p].Running? :: s.current == Some(p))
    && (s.current.Some? ==> CurrentOk(s, s.current.value))
  }

  lemma EnqueueIn(s: Sched, q: nat, p: nat)
    requires q < |s.qs|
    ensures var s' := s.(qs := Enqueue(s.qs, q, p));
            forall k: nat, x: nat :: In(s', k, x) <==> In(s, k, x) || (k == q && x == p)
    ensures NoDup(s.qs[q]) && p !in s.qs[q] ==> NoDup(Enqueue(s.qs, q, p)[q])
  {
  }

  lemma MakeReadyKeeps(s: Sched, p: nat)
    requires Inv(s) && p < |s.state| && !Linked(s, p) && !s.state[p].Running? && s.current != Some(p)
    ensures Inv(MakeReady(s, p))
  {
    EnqueueIn(s, 0, p);
    assert !In(s, 0, p);
    var s' := MakeReady(s, p);
    assert forall k: nat, x: nat :: In(s', k, x) <==> In(s, k, x) || (k == 0 && x == p);
    if s.current.Some? {
      var c := s.current.value;
      assert Linked(s, c) ==> Linked(s', c) by {
        if q: nat :| In(s, q, c) { assert In(s', q, c); }
      }
    }
  }

  lemma DequeueIn(s: Sched, q: nat)
    requires q < |s.qs| && s.qs[q] != [] && NoDup(s.qs[q])
    ensures var s' := s.(qs := s.qs[q := s.qs[q][1..]]);
            forall k: nat, x: nat :: In(s', k, x) <==> In(s, k, x) && !(k == q && x == s.qs[q][0])
    ensures NoDup(s.qs[q][1..])
  {
    var s' := s.(qs := s.qs[q := s.qs[q][1..]]);
    var was := s.qs[q];
    assert forall x: nat :: x in was <==> x == was[0] || x in was[1..] by {
      assert was == [was[0]] + was[1..];
    }
    assert was[0] !in was[1..];
  }

  /** The head of the run queue takes over from a current process that is off the queues or queued. */
  lemma SwitchKeeps(s: Sched)
    requires Inv(s) && s.qs[0] != []
    requires s.current.Some? ==> !s.state[s.current.value].Running?
    ensures Inv(Sched(s.state[s.qs[0][0] := Running], s.qs[0 := s.qs[0][1..]], Some(s.qs[0][0])))
  {
    var n := s.qs[0][0];
    assert In(s, 0, n);
    DequeueIn(s, 0);
    var s1 := s.(qs := s.qs[0 := s.qs[0][1..]]);
    var s' := Sched(s.state[n := Running], s.qs[0 := s.qs[0][1..]], Some(n));
    assert forall k: nat, x: nat :: In(s', k, x) <==> In(s1, k, x);
    assert !Linked(s', n);
  }

  /** The first half of a switch: a running process goes to the tail of the run queue. */
  lemma StepAsideKeeps(s: Sched)
    requires Inv(s) && s.current.Some? && s.state[s.current.value].Running?
    ensures Inv(MakeReady(s, s.current.value))
  {
    var c := s.current.value;
    EnqueueIn(s, 0, c);
    assert !In(s, 0, c);
    var s' := MakeReady(s, c);
    assert forall k: nat, x: nat :: In(s', k, x) <==> In(s, k, x) || (k == 0 && x == c);
  }

  lemma YieldKeeps(s: Sched)
    requires Inv(s)
    ensures Inv(Yield(s))
  {
    if s.qs[0] != [] {
      if s.current.Some? && s.state[s.current.value].Running? {
        StepAsideKeeps(s);
        SwitchKeeps(MakeReady(s, s.current.value));
      } else {
        SwitchKeeps(s);
      }
    }
  }

  lemma {:induction false} RemoveIs(s: seq<nat>, p: nat)
    requires NoDup(s)
    ensures NoDup(Remove(s, p))
    ensures forall x: nat :: x in Remove(s, p) <==> x in s && x != p
  {
    if s != [] {
      assert s == [s[0]] + s[1..];
      assert s[0] !in s[1..];
      RemoveIs(s[1..], p);
    }
  }

  lemma UnlinkIn(s: Sched, p: nat)
    requires forall q | 0 <= q < |s.qs| :: NoDup(s.qs[q])
    ensures var s' := s.(qs := Unlink(s.qs, p));
            && (forall q | 0 <= q < |s'.qs| :: NoDup(s'.qs[q]))
            && (forall k: nat, x: nat :: In(s', k, x) <==> In(s, k, x) && x != p)
  {
    forall q | 0 <= q < |s.qs| ensures NoDup(Unlink(s.qs, p)[q]) {
      RemoveIs(s.qs[q], p);
    }
    forall k: nat, x: nat ensures In(s.(qs := Unlink(s.qs, p)), k, x) <==> In(s, k, x) && x != p {
      if k < |s.qs| {
        RemoveIs(s.qs[k], p);
      }
    }
  }

  /** Going to sleep moves the process from wherever it is linked to the tail of a wait queue. */
  lemma PutToSleepKeeps(s: Sched, q: nat)
    requires Inv(s) && 0 < q < |s.qs| && s.current.Some? && !s.state[s.current.value].Zombie?
    ensures Inv(PutToSleep(s, q))
  {
    var p := s.current.value;
    var s1 := s.(qs := Unlink(s.qs, p));
    UnlinkIn(s, p);
    EnqueueIn(s1, q, p);
    var s2 := s1.(qs := Enqueue(s1.qs, q, p));
    var s' := PutToSleep(s, q);
    assert forall k: nat, x: nat :: In(s', k, x) <==> In(s2, k, x);
    assert !In(s1, q, p) && In(s', q, p);
    forall k, i | 0 <= k < |s'.qs| && 0 <= i < |s'.qs[k]| ensures s'.qs[k][i] < |s'.state| {
      assert In(s', k, s'.qs[k][i]);
    }
    assert forall x: nat | x < |s.state| && s.state[x].Running? :: x == p;
  }

  /** Waking moves the head of a wait queue to the tail of the run queue. */
  lemma WakeOneKeeps(s: Sched, q: nat)
    requires Inv(s) && 0 < q < |s.qs|
    ensures Inv(WakeOne(s, q))
  {
    if s.qs[q] != [] {
      var p := s.qs[q][0];
      assert In(s, q, p);
      DequeueIn(s, q);
      var s1 := s.(qs := s.qs[q := s.qs[q][1..]]);
      EnqueueIn(s1, 0, p);
      assert !In(s1, 0, p);
      var s2 := s1.(qs := Enqueue(s1.qs, 0, p));
      var s' := WakeOne(s, q);
      assert forall k: nat, x: nat :: In(s', k, x) <==> In(s2, k, x);
      if s.current.Some? && s.current.value != p {
        var c := s.current.value;
        assert Linked(s, c) ==> Linked(s', c) by {
          if k: nat :| In(s, k, c) { assert In(s', k, c); }
        }
      }
    }
  }

  lemma AllocKeeps(s: Sched)
    requires Inv(s)
    ensures Inv(Alloc(s))
  {
    var s' := Alloc(s);
    assert forall k: nat, x: nat :: In(s', k, x) <==> In(s, k, x);
    assert forall p: nat :: Linked(s', p) <==> Linked(s, p);
  }

  /** A slot is taken exactly when one is unused: the lowest, which becomes ready; nothing else changes. */
  lemma AllocExact(s: Sched)
    ensures Alloc(s) == s <==> forall i | 0 <= i < |s.state| :: !s.state[i].Unused?
    ensures forall i | 0 <= i < |s.state| && s.state[i].Unused? && (forall j | 0 <= j < i :: !s.state[j].Unused?) ::
              Alloc(s) == s.(state := s.state[i := Ready])
  {
    var i := FirstUnused(s.state, 0);
    if i < |s.state| {
      assert Alloc(s).state[i] != s.state[i];
    }
  }

  /**
   Marking the current process dead leaves it a zombie that no queue holds exactly when it was
   running. After a sleep that found the run queue empty it is still queued, and then it is not.
   */
  lemma DieExact(s: Sched)
    requires Inv(s) && s.current.Some? && !s.state[s.current.value].Zombie?
    ensures Inv(Die(s)) <==> s.state[s.current.value].Running?
  {
    var c := s.current.value;
    var s' := Die(s);
    assert forall k: nat, x: nat :: In(s', k, x) <==> In(s, k, x);
    assert forall p: nat :: Linked(s', p) <==> Linked(s, p);
  }
}

/** Every run of the scheduler's calls. */
module SchedRuns {
  import opened Basics
  import opened SchedSpec
  import opened SchedInvariant

  /**
   The guarded bodies, one call each. `ParkCall` is the guarded part of `riv_waitq_sleep` and `DieCall`
   the unguarded write at the head of `riv_proc_exit`; the yield that follows either is a call of its
   own, so that interrupts may wake, make ready or switch in between.
   */
  datatype Call =
    | AllocCall
    | ReadyCall(p: nat)
    | YieldCall
    | ParkCall(q: nat)
    | WakeCall(q: nat)
    | DieCall

  /** `riv_waitq_wake_all`: wake until the queue is empty. */
  ghost function WakeAll(s: Sched, q: nat): (r: Sched)
    requires Inv(s) && 0 < q < |s.qs|
    ensures |r.qs| == |s.qs|
    decreases |s.qs[q]|
  {
    if s.qs[q] == [] then s
    else
      WakeOneKeeps(s, q);
      WakeAll(WakeOne(s, q), q)
  }

  /**
   What the callers owe: `ready` is for a process that is allocated and not queued yet, only a live
   process sleeps, and only a running one exits.
   */
  ghost predicate Allowed(s: Sched, c: Call)
    requires Inv(s)
  {
    match c
    case ReadyCall(p) => p < |s.state| && s.state[p].Ready? && !Linked(s, p)
    case ParkCall(q) => 0 < q < |s.qs| && (s.current.Some? ==> !s.state[s.current.value].Zombie?)
    case WakeCall(q) => 0 < q < |s.qs|
    case DieCall => s.current.Some? ==> s.state[s.current.value].Running?
    case _ => true
  }

  ghost function Step(s: Sched, c: Call): Sched
    requires Inv(s) && Allowed(s, c)
  {
    match c
    case AllocCall => Alloc(s)
    case ReadyCall(p) => MakeReady(s, p)
    case YieldCall => Yield(s)
    case ParkCall(q) => if s.current.None? then s else PutToSleep(s, q)
    case WakeCall(q) => WakeOne(s, q)
    case DieCall => Die(s)
  }

  /** `riv_waitq_sleep` undisturbed: nothing without a current process. */
  ghost function Sleep(s: Sched, q: nat): Sched
    requires Inv(s) && Allowed(s, ParkCall(q))
  {
    if s.current.None? then s else (PutToSleepKeeps(s, q); Yield(PutToSleep(s, q)))
  }

  lemma {:induction false} WakeAllKeeps(s: Sched, q: nat)
    requires Inv(s) && 0 < q < |s.qs|
    ensures Inv(WakeAll(s, q)) && WakeAll(s, q).qs[q] == []
    decreases |s.qs[q]|
  {
    if s.qs[q] != [] {
      WakeOneKeeps(s, q);
      WakeAllKeeps(WakeOne(s, q), q);
    }
  }

  lemma StepKeeps(s: Sched, c: Call)
    requires Inv(s) && Allowed(s, c)
    ensures Inv(Step(s, c))
  {
    hide Inv, Linked, Yield, PutToSleep, WakeOne, Alloc;
    match c
    case AllocCall => AllocKeeps(s);
    case ReadyCall(p) => ReadyKeeps(s, p);
    case YieldCall => YieldKeeps(s);
    case ParkCall(q) =>
      if s.current.Some? {
        PutToSleepKeeps(s, q);
      }
    case WakeCall(q) => WakeOneKeeps(s, q);
    case DieCall =>
      if s.current.Some? {
        SleepableCurrent(s);
        DieExact(s);
      }
  }

  lemma SleepableCurrent(s: Sched)
    requires Inv(s)
    ensures InRange(s)
  {
  }

  lemma CurrentReadyIsQueued(s: Sched)
    requires Inv(s)
    ensures s.current.Some? && s.state[s.current.value].Ready? ==> Linked(s, s.current.value)
  {
  }

  lemma ReadyKeeps(s: Sched, p: nat)
    requires Inv(s) && Allowed(s, ReadyCall(p))
    ensures Inv(MakeReady(s, p))
  {
    CurrentReadyIsQueued(s);
    MakeReadyKeeps(s, p);
  }

  ghost predicate Legal(s: Sched, calls: seq<Call>)
    requires Inv(s)
    decreases |calls|
  {
    calls == [] ||
    (Allowed(s, calls[0]) && (StepKeeps(s, calls[0]); Legal(Step(s, calls[0]), calls[1..])))
  }

  ghost function Run(s: Sched, calls: seq<Call>): Sched
    requires Inv(s) && Legal(s, calls)
    decreases |calls|
  {
    if calls == [] then s else (StepKeeps(s, calls[0]); Run(Step(s, calls[0]), calls[1..]))
  }

  // ---------- a zombie stays one ----------

  lemma YieldLeaves(s: Sched, p: nat)
    requires Inv(s) && p < |s.state| && s.state[p].Zombie?
    ensures p < |Yield(s).state| && Yield(s).state[p].Zombie?
  {
    if s.qs[0] != [] {
      assert In(s, 0, s.qs[0][0]);
    }
  }

  lemma StepLeaves(s: Sched, c: Call, p: nat)
    requires Inv(s) && Allowed(s, c) && p < |s.state| && s.state[p].Zombie?
    ensures p < |Step(s, c).state| && Step(s, c).state[p].Zombie?
  {
    match c
    case AllocCall =>
    case ReadyCall(_) =>
    case YieldCall => YieldLeaves(s, p);
    case ParkCall(q) =>
    case WakeCall(q) =>
      if s.qs[q] != [] {
        assert In(s, q, s.qs[q][0]);
      }
    case DieCall =>
  }

  /** In every run the invariant holds throughout, and a zombie never becomes anything else. */
  lemma {:induction false} RunSafe(s: Sched, calls: seq<Call>, p: nat)
    requires Inv(s) && Legal(s, calls)
    ensures Inv(Run(s, calls))
    ensures p < |s.state| && s.state[p].Zombie? ==>
              p < |Run(s, calls).state| && Run(s, calls).state[p].Zombie? && !Linked(Run(s, calls), p)
    decreases |calls|
  {
    if calls != [] {
      StepKeeps(s, calls[0]);
      if p < |s.state| && s.state[p].Zombie? {
        StepLeaves(s, calls[0], p);
      }
      RunSafe(Step(s, calls[0]), calls[1..], p);
    }
  }

  // ---------- no process is lost ----------

  ghost predicate Waiting(s: Sched, p: nat) {
    exists q: nat :: 0 < q && In(s, q, p)
  }

  /** `p` runs, or is ready on the run queue, or sleeps on a wait queue, or is dead. */
  ghost predicate Accounted(s: Sched, p: nat) {
    && p < |s.state|
    && match s.state[p]
       case Running => s.current == Some(p)
       case Ready => In(s, 0, p)
       case Sleeping => Waiting(s, p)
       case Zombie => true
       case Unused => false
  }

  lemma YieldAccounts(s: Sched, p: nat)
    requires Inv(s) && Accounted(s, p)
    ensures Accounted(Yield(s), p)
  {
    if s.qs[0] != [] {
      var s1 := if s.current.Some? && s.state[s.current.value].Running? then MakeReady(s, s.current.value) else s;
      assert In(s, 0, s.qs[0][0]);
      if s.state[p].Sleeping? {
        var q: nat :| 0 < q && In(s, q, p);
        assert In(Yield(s), q, p);
      } else if !s.state[p].Zombie? {
        EnqueueIn(s, 0, p);
        assert In(s1, 0, p) && s1.qs[0] == [s1.qs[0][0]] + s1.qs[0][1..];
      }
    }
  }

  lemma ParkAccounts(s: Sched, q: nat, p: nat)
    requires Inv(s) && Accounted(s, p) && 0 < q < |s.qs| && s.current.Some?
    ensures Accounted(PutToSleep(s, q), p)
  {
    var c := s.current.value;
    var s1 := s.(qs := Unlink(s.qs, c));
    UnlinkIn(s, c);
    EnqueueIn(s1, q, c);
    var s' := PutToSleep(s, q);
    assert forall k: nat, x: nat :: In(s', k, x) <==> In(s1.(qs := Enqueue(s1.qs, q, c)), k, x);
    if p == c {
      assert In(s', q, p);
    } else if s.state[p].Sleeping? {
      var k: nat :| 0 < k && In(s, k, p);
      assert In(s', k, p);
    }
  }

  lemma WakeAccounts(s: Sched, q: nat, p: nat)
    requires Inv(s) && Accounted(s, p) && 0 < q < |s.qs|
    ensures Accounted(WakeOne(s, q), p)
  {
    if s.qs[q] != [] {
      var h := s.qs[q][0];
      assert In(s, q, h);
      var s' := WakeOne(s, q);
      assert s'.qs[0] == s.qs[0] + [h] && s'.qs[0][|s.qs[0]|] == h;
      if p != h && s.state[p].Sleeping? {
        var k: nat :| 0 < k && In(s, k, p);
        DequeueIn(s, q);
        assert In(s.(qs := s.qs[q := s.qs[q][1..]]), k, p);
        assert In(s', k, p);
      }
    }
  }

  lemma StepAccounts(s: Sched, c: Call, p: nat)
    requires Inv(s) && Allowed(s, c) && (Accounted(s, p) || c == ReadyCall(p))
    ensures Accounted(Step(s, c), p)
  {
    match c
    case YieldCall => YieldAccounts(s, p);
    case ParkCall(q) => if s.current.Some? { ParkAccounts(s, q, p); }
    case WakeCall(q) => WakeAccounts(s, q, p);
    case ReadyCall(x) =>
      if x == p {
        assert Step(s, c).qs[0][|s.qs[0]|] == p;
      } else {
        WaitingStays(s, Step(s, c), p);
      }
    case AllocCall => WaitingStays(s, Step(s, c), p);
    case DieCall => WaitingStays(s, Step(s, c), p);
  }

  lemma WaitingStays(s: Sched, s': Sched, p: nat)
    requires |s'.qs| == |s.qs| && forall q | 0 < q < |s.qs| :: s'.qs[q] == s.qs[q]
    ensures Waiting(s, p) ==> Waiting(s', p)
  {
    if q: nat :| 0 < q && In(s, q, p) {
      assert In(s', q, p);
    }
  }

  /** From the call that makes it ready on, a process is accounted for after every run. */
  lemma {:induction false} NeverLost(s: Sched, calls: seq<Call>, p: nat)
    requires Inv(s) && Legal(s, calls) && (Accounted(s, p) || ReadyCall(p) in calls)
    ensures Accounted(Run(s, calls), p)
    decreases |calls|
  {
    hide Inv, Allowed, Step, Accounted;
    if calls != [] {
      StepKeeps(s, calls[0]);
      if Accounted(s, p) || calls[0] == ReadyCall(p) {
        StepAccounts(s, calls[0], p);
      } else {
        assert ReadyCall(p) in calls[1..];
      }
      NeverLost(Step(s, calls[0]), calls[1..], p);
    }
  }

  // ---------- sleepers wake in order ----------

  /** Waking everyone puts the sleepers behind the run queue in the order of their queue. */
  lemma {:induction false} WakeAllInOrder(s: Sched, q: nat)
    requires Inv(s) && 0 < q < |s.qs|
    ensures WakeAll(s, q).qs == s.qs[0 := s.qs[0] + s.qs[q]][q := []]
    ensures WakeAll(s, q).current == s.current
    decreases |s.qs[q]|
  {
    hide Inv;
    if s.qs[q] == [] {
      assert s.qs[0] + [] == s.qs[0];
    } else {
      SleepableCurrent(s);
      WakeOneKeeps(s, q);
      WakeAllInOrder(WakeOne(s, q), q);
      assert (s.qs[0] + [s.qs[q][0]]) + s.qs[q][1..] == s.qs[0] + s.qs[q];
    }
  }

  /** An undisturbed `wake_all` is a run of as many wake-ups as there are sleepers. */
  lemma {:induction false} WakeAllIsRun(s: Sched, q: nat)
    requires Inv(s) && 0 < q < |s.qs|
    ensures var calls := seq(|s.qs[q]|, i => WakeCall(q)); Legal(s, calls) && Run(s, calls) == WakeAll(s, q)
    decreases |s.qs[q]|
  {
    hide Inv;
    var calls := seq(|s.qs[q]|, i => WakeCall(q));
    if s.qs[q] != [] {
      SleepableCurrent(s);
      WakeOneKeeps(s, q);
      WakeAllIsRun(WakeOne(s, q), q);
      assert calls[1..] == seq(|s.qs[q]| - 1, i => WakeCall(q));
    }
  }

  /**
   No wake-up is lost: one that arrives between the queue insertion of a sleep and its yield finds the
   sleeper and puts it, ready, on the run queue, where fairness takes over.
   */
  lemma NoLostWakeUp(s: Sched, q: nat)
    requires Inv(s) && Allowed(s, ParkCall(q)) && s.current.Some?
    ensures Inv(Step(s, ParkCall(q)))
    ensures var r := WakeAll(Step(s, ParkCall(q)), q);
            Inv(r) && In(r, 0, s.current.value) && r.state[s.current.value].Ready?
  {
    hide Inv;
    SleepableCurrent(s);
    StepKeeps(s, ParkCall(q));
    var p := Step(s, ParkCall(q));
    WakeAllInOrder(p, q);
    WakeAllKeeps(p, q);
    var r := WakeAll(p, q);
    var n := |p.qs[q]| - 1;
    assert p.qs[q][n] == s.current.value;
    assert r.qs[0][|p.qs[0]| + n] == s.current.value;
    QueuedIsReady(r, s.current.value);
  }

  lemma QueuedIsReady(s: Sched, p: nat)
    requires Inv(s) && In(s, 0, p)
    ensures p < |s.state| && s.state[p].Ready?
  {
  }

  // ---------- fairness ----------

  /** `p` waits in the run queue behind at most `k` others. */
  predicate Behind(s: Sched, p: nat, k: nat)
    requires |s.qs| > 0
  {
    exists i: nat :: i <= k && i < |s.qs[0]| && s.qs[0][i] == p
  }

  function CountYields(calls: seq<Call>): nat {
    if calls == [] then 0 else (if calls[0].YieldCall? then 1 else 0) + CountYields(calls[1..])
  }

  lemma YieldAdvances(s: Sched, p: nat, k: nat)
    requires InRange(s) && Behind(s, p, k)
    ensures Yield(s).current == Some(p) || (k > 0 && |Yield(s).qs| > 0 && Behind(Yield(s), p, k - 1))
  {
    var i: nat :| i <= k && i < |s.qs[0]| && s.qs[0][i] == p;
    if i > 0 {
      assert Yield(s).qs[0][i - 1] == p;
    }
  }

  lemma {:induction false} RemoveShifts(s: seq<nat>, x: nat, p: nat, i: nat) returns (j: nat)
    requires i < |s| && s[i] == p && p != x
    ensures j <= i && j < |Remove(s, x)| && Remove(s, x)[j] == p
  {
    if s[0] == x {
      j := i - 1;
    } else if i == 0 {
      j := 0;
    } else {
      j := RemoveShifts(s[1..], x, p, i - 1);
      j := j + 1;
    }
  }

  lemma SleepKeepsPlace(s: Sched, q: nat, p: nat, k: nat)
    requires InRange(s) && 0 < q < |s.qs| && s.current.Some? && s.current.value != p && Behind(s, p, k)
    ensures |PutToSleep(s, q).qs| > 0 && Behind(PutToSleep(s, q), p, k)
  {
    var i: nat :| i <= k && i < |s.qs[0]| && s.qs[0][i] == p;
    var j := RemoveShifts(s.qs[0], s.current.value, p, i);
    assert PutToSleep(s, q).qs[0][j] == p;
  }

  lemma WakeKeepsPlace(s: Sched, q: nat, p: nat, k: nat)
    requires InRange(s) && 0 < q < |s.qs| && Behind(s, p, k)
    ensures |WakeOne(s, q).qs| > 0 && Behind(WakeOne(s, q), p, k)
  {
    var i: nat :| i <= k && i < |s.qs[0]| && s.qs[0][i] == p;
    assert WakeOne(s, q).qs[0][i] == p;
  }

  /** A call either makes `p` current or leaves it no farther back, one place nearer if it switches. */
  lemma StepAdvances(s: Sched, c: Call, p: nat, k: nat)
    requires Inv(s) && Allowed(s, c) && Behind(s, p, k) && s.current != Some(p)
    ensures var s' := Step(s, c);
            && |s'.qs| > 0
            && (s'.current == Some(p)
                || (c.YieldCall? && k > 0 && Behind(s', p, k - 1))
                || (!c.YieldCall? && Behind(s', p, k)))
  {
    var i: nat :| i <= k && i < |s.qs[0]| && s.qs[0][i] == p;
    match c
    case AllocCall =>
    case ReadyCall(x) => assert Step(s, c).qs[0][i] == p;
    case YieldCall => YieldAdvances(s, p, k);
    case ParkCall(q) =>
      if s.current.Some? {
        SleepKeepsPlace(s, q, p, k);
      }
    case WakeCall(q) => WakeKeepsPlace(s, q, p, k);
    case DieCall => assert Behind(Die(s), p, k);
  }

  /**
   A process at position `k` of the run queue becomes current within `k + 1` switches, whatever
   ready, wake, park and die calls come in between.
   */
  lemma {:induction false} Fairness(s: Sched, calls: seq<Call>, p: nat, k: nat) returns (m: nat)
    requires Inv(s) && Legal(s, calls) && Behind(s, p, k) && CountYields(calls) > k
    ensures m <= |calls| && Legal(s, calls[..m]) && Run(s, calls[..m]).current == Some(p)
    decreases |calls|
  {
    if s.current == Some(p) {
      m := 0;
    } else {
      var c := calls[0];
      var s' := Step(s, c);
      StepKeeps(s, c);
      StepAdvances(s, c, p, k);
      if s'.current == Some(p) {
        m := 1;
      } else {
        m := Fairness(s', calls[1..], p, if c.YieldCall? then k - 1 else k);
        m := m + 1;
      }
      if m > 0 {
        assert calls[..m][0] == c && calls[..m][1..] == calls[1..][..m - 1];
      }
    }
  }

  // ---------- wait queues are served in order ----------

  /** `p` sleeps on queue `q` behind at most `k` others. */
  predicate Waits(s: Sched, q: nat, p: nat, k: nat) {
    q < |s.qs| && exists i: nat :: i <= k && i < |s.qs[q]| && s.qs[q][i] == p
  }

  /** The call puts `p` to sleep: `p` is the current process and parks. */
  predicate Parks(s: Sched, c: Call, p: nat) {
    c.ParkCall? && s.current == Some(p)
  }

  function CountWakes(calls: seq<Call>, q: nat): nat {
    if calls == [] then 0 else (if calls[0] == WakeCall(q) then 1 else 0) + CountWakes(calls[1..], q)
  }

  /** Where the entries of queue `q` go when another process parks: no farther back, and in the same order. */
  lemma ParkShifts(s: Sched, r: nat, q: nat, p: nat, i: nat) returns (j: nat)
    requires InRange(s) && r < |s.qs| && q < |s.qs| && s.current.Some? && s.current.value != p
    requires i < |s.qs[q]| && s.qs[q][i] == p
    ensures q < |PutToSleep(s, r).qs| && j <= i && j < |PutToSleep(s, r).qs[q]| && PutToSleep(s, r).qs[q][j] == p
  {
    j := RemoveShifts(s.qs[q], s.current.value, p, i);
  }

  lemma ParkKeepsWaiting(s: Sched, r: nat, q: nat, p: nat, k: nat)
    requires InRange(s) && r < |s.qs| && s.current.Some? && s.current.value != p && Waits(s, q, p, k)
    ensures Waits(PutToSleep(s, r), q, p, k)
  {
    var i: nat :| i <= k && i < |s.qs[q]| && s.qs[q][i] == p;
    var j := ParkShifts(s, r, q, p, i);
  }

  lemma WakeBrings(s: Sched, q: nat, p: nat, k: nat)
    requires Inv(s) && 0 < q && Waits(s, q, p, k)
    ensures var s' := WakeOne(s, q);
            Woken(s', p) || (k > 0 && Waits(s', q, p, k - 1))
  {
    var i: nat :| i <= k && i < |s.qs[q]| && s.qs[q][i] == p;
    var s' := WakeOne(s, q);
    if i == 0 {
      assert s'.qs[0][|s.qs[0]|] == p;
    } else {
      assert s'.qs[q][i - 1] == p;
    }
  }

  /** `p` is ready on the run queue. */
  predicate Woken(s: Sched, p: nat) {
    p < |s.state| && s.state[p].Ready? && In(s, 0, p)
  }

  /** Unless it parks itself anew, a call leaves a sleeper no farther back, and a wake-up brings it one nearer. */
  lemma StepNearer(s: Sched, c: Call, q: nat, p: nat, k: nat)
    requires Inv(s) && Allowed(s, c) && 0 < q && Waits(s, q, p, k) && !Parks(s, c, p)
    ensures var s' := Step(s, c);
            if c == WakeCall(q) then Woken(s', p) || (k > 0 && Waits(s', q, p, k - 1)) else Waits(s', q, p, k)
  {
    hide Inv, Linked, Woken;
    SleepableCurrent(s);
    var i: nat :| i <= k && i < |s.qs[q]| && s.qs[q][i] == p;
    match c
    case ParkCall(r) => if s.current.Some? { ParkKeepsWaiting(s, r, q, p, k); }
    case WakeCall(r) => if r == q { WakeBrings(s, q, p, k); } else { assert Step(s, c).qs[q] == s.qs[q]; }
    case _ => assert Step(s, c).qs[q] == s.qs[q];
  }

  /**
   A process that sleeps on `q` behind `k` others is on the run queue by the wake-up number `k + 1` of
   that queue, whatever else happens, unless it is still current and parks itself anew first.
   */
  lemma {:induction false} WokenByTurn(s: Sched, calls: seq<Call>, q: nat, p: nat, k: nat) returns (m: nat)
    requires Inv(s) && Legal(s, calls) && 0 < q && Waits(s, q, p, k) && CountWakes(calls, q) > k
    ensures m <= |calls| && Legal(s, calls[..m]) && CountWakes(calls[..m], q) <= k + 1
    ensures Woken(Run(s, calls[..m]), p) || (m < |calls| && Parks(Run(s, calls[..m]), calls[m], p))
    decreases |calls|
  {
    hide Inv, Allowed, Step, Waits, Woken, Parks;
    var c := calls[0];
    if Parks(s, c, p) {
      m := 0;
      assert calls[..0] == [];
    } else {
      StepKeeps(s, c);
      StepNearer(s, c, q, p, k);
      var s' := Step(s, c);
      if Woken(s', p) {
        m := 1;
      } else {
        m := WokenByTurn(s', calls[1..], q, p, if c == WakeCall(q) then k - 1 else k);
        m := m + 1;
      }
      assert calls[..m][0] == c && calls[..m][1..] == calls[1..][..m - 1];
    }
  }

  lemma ParksBehind(s: Sched, q: nat)
    requires InRange(s) && q < |s.qs| && s.current.Some?
    ensures var p := s.current.value; Waits(PutToSleep(s, q), q, p, |Remove(s.qs[q], p)|)
  {
    var p := s.current.value;
    assert PutToSleep(s, q).qs[q][|Remove(s.qs[q], p)|] == p;
  }

  lemma {:induction false} NoDupBound(s: seq<nat>, n: nat)
    requires NoDup(s) && forall i | 0 <= i < |s| :: s[i] < n
    ensures |s| <= n
    decreases n
  {
    assert |s| > 0 ==> s[0] < n;
    if n > 0 {
      RemoveIs(s, n - 1);
      var r := Remove(s, n - 1);
      RemoveLength(s, n - 1);
      assert forall i | 0 <= i < |r| :: r[i] in r;
      NoDupBound(r, n - 1);
    }
  }

  lemma {:induction false} RemoveLength(s: seq<nat>, p: nat)
    ensures |s| - 1 <= |Remove(s, p)| <= |s|
  {
    if s != [] && s[0] != p {
      RemoveLength(s[1..], p);
    }
  }

  lemma {:induction false} LegalSplit(s: Sched, a: seq<Call>, b: seq<Call>)
    requires Inv(s)
    ensures Legal(s, a + b) <==> Legal(s, a) && Inv(Run(s, a)) && Legal(Run(s, a), b)
    ensures Legal(s, a + b) ==> Run(s, a + b) == Run(Run(s, a), b)
    decreases |a|
  {
    hide Inv, Allowed, Step;
    if a == [] {
      assert a + b == b;
    } else {
      assert (a + b)[0] == a[0] && (a + b)[1..] == a[1..] + b;
      if Allowed(s, a[0]) {
        StepKeeps(s, a[0]);
        LegalSplit(Step(s, a[0]), a[1..], b);
      }
    }
  }

  lemma {:induction false} SlotsStay(s: Sched, calls: seq<Call>)
    requires Inv(s) && Legal(s, calls)
    ensures |Run(s, calls).state| == |s.state|
    decreases |calls|
  {
    hide Inv;
    if calls != [] {
      SleepableCurrent(s);
      StepKeeps(s, calls[0]);
      SlotsStay(Step(s, calls[0]), calls[1..]);
    }
  }

  /** A woken process stands in a run queue no longer than there are slots. */
  lemma WokenIsNear(s: Sched, p: nat)
    requires Inv(s) && Woken(s, p)
    ensures |s.state| > 0 && Behind(s, p, |s.state| - 1)
  {
    var i: nat :| i < |s.qs[0]| && s.qs[0][i] == p;
    NoDupBound(s.qs[0], |s.state|);
  }

  lemma {:induction false} CountYieldsConcat(a: seq<Call>, b: seq<Call>)
    ensures CountYields(a + b) == CountYields(a) + CountYields(b)
    decreases |a|
  {
    if a == [] {
      assert a + b == b;
    } else {
      assert (a + b)[0] == a[0] && (a + b)[1..] == a[1..] + b;
      CountYieldsConcat(a[1..], b);
    }
  }

  /**
   A process that parks on `q` behind `k` sleepers runs again: `k + 1` wake-ups of the queue, and after
   them as many switches as there are process slots, suffice, whatever other calls come in between. The
   one exception is a process that was never switched away from and parks itself anew.
   */
  lemma SleeperRuns(s: Sched, q: nat, a: seq<Call>, b: seq<Call>) returns (w: nat, m: nat)
    requires Inv(s) && Allowed(s, ParkCall(q)) && s.current.Some?
    requires Inv(Step(s, ParkCall(q))) && Legal(Step(s, ParkCall(q)), a + b)
    requires CountWakes(a, q) > |Remove(s.qs[q], s.current.value)| && CountYields(b) >= |s.state|
    ensures var t, p := Step(s, ParkCall(q)), s.current.value;
            && w <= |a| && Legal(t, a[..w])
            && (|| (w < |a| && Parks(Run(t, a[..w]), a[w], p))
                || (Woken(Run(t, a[..w]), p) && w <= m <= |a + b| && Legal(t, (a + b)[..m])
                    && Run(t, (a + b)[..m]).current == Some(p)))
  {
    hide Inv, Legal, Run, Parks, Waits;
    SleepableCurrent(s);
    var t, p := Step(s, ParkCall(q)), s.current.value;
    ParksBehind(s, q);
    LegalSplit(t, a, b);
    w := WokenByTurn(t, a, q, p, |Remove(s.qs[q], p)|);
    m := w;
    if Woken(Run(t, a[..w]), p) {
      var rest := a[w..] + b;
      assert a + b == a[..w] + rest;
      LegalSplit(t, a[..w], rest);
      var u := Run(t, a[..w]);
      SlotsStay(t, a[..w]);
      WokenIsNear(u, p);
      CountYieldsConcat(a[w..], b);
      var n := Fairness(u, rest, p, |s.state| - 1);
      m := w + n;
      assert (a + b)[..m] == a[..w] + rest[..n];
      LegalSplit(t, a[..w], rest[..n]);
    }
  }

  /** `x` stands before `y` in queue `q`. */
  predicate Ahead(s: Sched, q: nat, x: nat, y: nat) {
    q < |s.qs| && exists i: nat, j: nat :: i < j < |s.qs[q]| && s.qs[q][i] == x && s.qs[q][j] == y
  }

  lemma {:induction false} RemoveKeepsOrder(s: seq<nat>, z: nat, i: nat, j: nat) returns (i': nat, j': nat)
    requires i < j < |s| && s[i] != z && s[j] != z
    ensures i' < j' < |Remove(s, z)| && Remove(s, z)[i'] == s[i] && Remove(s, z)[j'] == s[j]
  {
    if s[0] == z {
      i', j' := i - 1, j - 1;
    } else if i == 0 {
      i' := 0;
      j' := RemoveShifts(s[1..], z, s[j], j - 1);
      j' := j' + 1;
    } else {
      i', j' := RemoveKeepsOrder(s[1..], z, i - 1, j - 1);
      i', j' := i' + 1, j' + 1;
    }
  }

  lemma ParkKeepsOrder(s: Sched, r: nat, q: nat, x: nat, y: nat)
    requires InRange(s) && r < |s.qs| && Ahead(s, q, x, y)
    requires s.current.Some? && s.current.value != x && s.current.value != y
    ensures Ahead(PutToSleep(s, r), q, x, y)
  {
    var i: nat, j: nat :| i < j < |s.qs[q]| && s.qs[q][i] == x && s.qs[q][j] == y;
    var i', j' := RemoveKeepsOrder(s.qs[q], s.current.value, i, j);
    assert PutToSleep(s, r).qs[q][i'] == x && PutToSleep(s, r).qs[q][j'] == y;
  }

  lemma WakeKeepsOrder(s: Sched, q: nat, x: nat, y: nat)
    requires Inv(s) && 0 < q && Ahead(s, q, x, y)
    ensures Ahead(WakeOne(s, q), q, x, y) || (Woken(WakeOne(s, q), x) && In(WakeOne(s, q), q, y))
  {
    var i: nat, j: nat :| i < j < |s.qs[q]| && s.qs[q][i] == x && s.qs[q][j] == y;
    var s' := WakeOne(s, q);
    assert s'.qs[q][j - 1] == y;
    if i == 0 {
      assert s'.qs[0][|s.qs[0]|] == x;
    } else {
      assert s'.qs[q][i - 1] == x;
    }
  }

  /** A process that sleeps and is not current does not become current. */
  lemma SleeperNotCurrent(s: Sched, c: Call, q: nat, x: nat)
    requires Inv(s) && Allowed(s, c) && 0 < q && In(s, q, x) && s.current != Some(x)
    ensures Step(s, c).current != Some(x)
  {
    if c.YieldCall? && s.qs[0] != [] {
      assert In(s, 0, s.qs[0][0]);
    }
  }

  lemma StepInOrder(s: Sched, c: Call, q: nat, x: nat, y: nat)
    requires Inv(s) && Allowed(s, c) && 0 < q && Ahead(s, q, x, y) && !Parks(s, c, x) && !Parks(s, c, y)
    ensures var s' := Step(s, c); Ahead(s', q, x, y) || (Woken(s', x) && In(s', q, y))
  {
    hide Inv, Linked, Woken;
    SleepableCurrent(s);
    match c
    case ParkCall(r) => if s.current.Some? { ParkKeepsOrder(s, r, q, x, y); }
    case WakeCall(r) => if r == q { WakeKeepsOrder(s, q, x, y); } else { assert Step(s, c).qs[q] == s.qs[q]; }
    case _ => assert Step(s, c).qs[q] == s.qs[q];
  }

  /** In none of the calls does `p` put itself to sleep. */
  ghost predicate NeverParks(s: Sched, calls: seq<Call>, p: nat)
    requires Inv(s) && Legal(s, calls)
    decreases |calls|
  {
    calls == [] ||
    (!Parks(s, calls[0], p) && (StepKeeps(s, calls[0]); NeverParks(Step(s, calls[0]), calls[1..], p)))
  }

  /** `p` sleeps before, between and after the calls. */
  ghost predicate Sleeps(s: Sched, calls: seq<Call>, p: nat)
    requires Inv(s) && Legal(s, calls)
    decreases |calls|
  {
    && p < |s.state| && s.state[p].Sleeping?
    && (calls == [] || (StepKeeps(s, calls[0]); Sleeps(Step(s, calls[0]), calls[1..], p)))
  }

  lemma {:induction false} OrderKept(s: Sched, calls: seq<Call>, q: nat, x: nat, y: nat) returns (m: nat)
    requires Inv(s) && Legal(s, calls) && 0 < q && Ahead(s, q, x, y) && s.current != Some(x)
    requires NeverParks(s, calls, y)
    requires y < |Run(s, calls).state| && !Run(s, calls).state[y].Sleeping?
    ensures m <= |calls| && Legal(s, calls[..m])
    ensures var t := Run(s, calls[..m]); Woken(t, x) && y < |t.state| && t.state[y].Sleeping?
    decreases |calls|
  {
    hide Allowed, Step, Woken;
    var i: nat, j: nat :| i < j < |s.qs[q]| && s.qs[q][i] == x && s.qs[q][j] == y;
    assert In(s, q, x) && In(s, q, y);
    hide Inv;
    var c := calls[0];
    StepKeeps(s, c);
    var s' := Step(s, c);
    StepInOrder(s, c, q, x, y);
    SleeperNotCurrent(s, c, q, x);
    if Woken(s', x) && In(s', q, y) {
      WaiterSleeps(s', q, y);
      m := 1;
    } else {
      m := OrderKept(s', calls[1..], q, x, y);
      m := m + 1;
    }
    assert calls[..m][0] == c && calls[..m][1..] == calls[1..][..m - 1];
  }

  lemma WaiterSleeps(s: Sched, q: nat, p: nat)
    requires Inv(s) && 0 < q && In(s, q, p)
    ensures p < |s.state| && s.state[p].Sleeping?
  {
  }

  lemma StaysQueued(s: Sched, c: Call, q: nat, x: nat)
    requires Inv(s) && Allowed(s, c) && 0 < q && In(s, q, x) && !Parks(s, c, x)
    requires x < |Step(s, c).state| && Step(s, c).state[x].Sleeping?
    ensures In(Step(s, c), q, x)
  {
    var i: nat :| i < |s.qs[q]| && s.qs[q][i] == x;
    hide Woken;
    assert Waits(s, q, x, i);
    StepNearer(s, c, q, x, i);
    WokenIsReady(Step(s, c), x);
  }

  lemma WokenIsReady(s: Sched, p: nat)
    ensures Woken(s, p) ==> p < |s.state| && s.state[p].Ready?
  {
  }

  lemma {:induction false} SleeperQueued(s: Sched, calls: seq<Call>, q: nat, x: nat)
    requires Inv(s) && Legal(s, calls) && 0 < q && In(s, q, x) && NeverParks(s, calls, x) && Sleeps(s, calls, x)
    ensures In(Run(s, calls), q, x)
    decreases |calls|
  {
    hide Inv, Allowed, Step, In, Parks;
    if calls != [] {
      StepKeeps(s, calls[0]);
      StaysQueued(s, calls[0], q, x);
      SleeperQueued(Step(s, calls[0]), calls[1..], q, x);
    }
  }

  lemma ParksLast(s: Sched, q: nat, x: nat)
    requires InRange(s) && q < |s.qs| && s.current.Some? && s.current.value != x && In(s, q, x)
    ensures Ahead(PutToSleep(s, q), q, x, s.current.value)
  {
    var i: nat :| i < |s.qs[q]| && s.qs[q][i] == x;
    var j := RemoveShifts(s.qs[q], s.current.value, x, i);
    var s', n := PutToSleep(s, q), |Remove(s.qs[q], s.current.value)|;
    assert s'.qs[q][j] == x && s'.qs[q][n] == s.current.value && j < n;
  }

  /**
   First in, first out, told by the calls alone. `x` parks on `q`; while it sleeps on, `y` parks on `q`.
   If, without having parked anew, `y` is awake after some further calls, then at an earlier point of
   them `x` was on the run queue and `y` was still asleep.
   */
  lemma WokenInOrder(s: Sched, q: nat, a: seq<Call>, b: seq<Call>) returns (m: nat)
    requires Inv(s) && Allowed(s, ParkCall(q)) && s.current.Some?
    requires Inv(Step(s, ParkCall(q))) && Legal(Step(s, ParkCall(q)), a)
    requires NeverParks(Step(s, ParkCall(q)), a, s.current.value) && Sleeps(Step(s, ParkCall(q)), a, s.current.value)
    requires var t := Run(Step(s, ParkCall(q)), a);
             && Inv(t) && t.current.Some? && t.current != s.current && Allowed(t, ParkCall(q))
             && var u := Step(t, ParkCall(q));
             && Inv(u) && Legal(u, b) && NeverParks(u, b, t.current.value)
             && t.current.value < |Run(u, b).state| && !Run(u, b).state[t.current.value].Sleeping?
    ensures var t := Run(Step(s, ParkCall(q)), a);
            var u := Step(t, ParkCall(q));
            && m < |b| && Legal(u, b[..m])
            && var v := Run(u, b[..m]);
            Woken(v, s.current.value) && t.current.value < |v.state| && v.state[t.current.value].Sleeping?
  {
    hide Inv, Legal, Run, NeverParks, Sleeps, Woken;
    SleepableCurrent(s);
    var x := s.current.value;
    var s1 := Step(s, ParkCall(q));
    ParksBehind(s, q);
    SleeperQueued(s1, a, q, x);
    var t := Run(s1, a);
    SleepableCurrent(t);
    ParksLast(t, q, x);
    m := OrderKept(Step(t, ParkCall(q)), b, q, x, t.current.value);
    assert b[..|b|] == b;
  }

  // ---------- the sleep that does not switch ----------

  /** The table at boot: every slot unused, all queues empty, nobody running. */
  function Boot(slots: nat, queues: nat): Sched {
    Sched(seq(slots, i => Unused), seq(queues, i => []), None)
  }

  lemma BootIsSafe(slots: nat, queues: nat)
    requires queues > 0
    ensures Inv(Boot(slots, queues))
  {
  }

  /** A single process that sleeps with nothing else to run keeps running while it is queued. */
  lemma LonelySleep()
    ensures var s := Boot(64, 2);
            var calls := [AllocCall, ReadyCall(0), YieldCall, ParkCall(1), YieldCall];
            Inv(s) && Legal(s, calls) && Run(s, calls) == Asleep() && Inv(Asleep())
  {
    hide Inv, Step, Allowed, Asleep, Boot;
    var s, d := Boot(64, 2), Asleep();
    var a, b, c := LonelyStart();
    LonelyPark(c, d);
    RunUnfolds(d, YieldCall, []);
    RunUnfolds(c, ParkCall(1), [YieldCall]);
    RunUnfolds(b, YieldCall, [ParkCall(1), YieldCall]);
    RunUnfolds(a, ReadyCall(0), [YieldCall, ParkCall(1), YieldCall]);
    RunUnfolds(s, AllocCall, [ReadyCall(0), YieldCall, ParkCall(1), YieldCall]);
  }

  lemma LonelyStart() returns (a: Sched, b: Sched, c: Sched)
    ensures var s := Boot(64, 2);
            && Inv(s) && Allowed(s, AllocCall) && Step(s, AllocCall) == a
            && Inv(a) && Allowed(a, ReadyCall(0)) && Step(a, ReadyCall(0)) == b
            && Inv(b) && Allowed(b, YieldCall) && Step(b, YieldCall) == c
            && Inv(c) && c == Sched(seq(64, i => Unused)[0 := Running], [[], []], Some(0))
  {
    var s := Boot(64, 2);
    var none: seq<nat> := [];
    BootIsSafe(64, 2);
    a := Sched(s.state[0 := Ready], [none, none], None);
    b := Sched(a.state, [[0], none], None);
    c := Sched(a.state[0 := Running], [none, none], Some(0));
    assert Step(s, AllocCall) == a;
    StepKeeps(s, AllocCall);
    assert forall q: nat :: !In(a, q, 0);
    assert Step(a, ReadyCall(0)) == b by { assert none + [0] == [0]; }
    StepKeeps(a, ReadyCall(0));
    assert Step(b, YieldCall) == c by { assert [0][1..] == none; }
    StepKeeps(b, YieldCall);
  }

  lemma LonelyPark(c: Sched, d: Sched)
    requires Inv(c) && c == Sched(seq(64, i => Unused)[0 := Running], [[], []], Some(0)) && d == Asleep()
    ensures Allowed(c, ParkCall(1)) && Step(c, ParkCall(1)) == d && Inv(d) && Step(d, YieldCall) == d
  {
    var none: seq<nat> := [];
    assert Unlink(c.qs, 0) == [none, none];
    assert none + [0] == [0];
    StepKeeps(c, ParkCall(1));
  }

  lemma RunUnfolds(s: Sched, c: Call, rest: seq<Call>)
    requires Inv(s) && Allowed(s, c) && Inv(Step(s, c)) && Legal(Step(s, c), rest)
    ensures Legal(s, [c] + rest) && Run(s, [c] + rest) == Run(Step(s, c), rest)
  {
    assert ([c] + rest)[1..] == rest;
  }

  /** Process 0 is current and waits in queue 1 at the same time. */
  function Asleep(): Sched {
    Sched(seq(64, i => Unused)[0 := Sleeping], [[], [0]], Some(0))
  }

  /** If it exits in that state, a later wake-up makes the zombie ready and the next switch runs it again. */
  lemma ZombieRevived()
    ensures var dead := Die(Asleep());
            && dead.state[0] == Zombie && In(dead, 1, 0)
            && var woken := WakeOne(Yield(dead), 1);
            InRange(woken) && Yield(woken).state[0] == Running && Yield(woken).current == Some(0)
  {
    hide Inv;
    var none: seq<nat> := [];
    var dead := Die(Asleep());
    var woken := Sched(dead.state[0 := Ready], [[0], none], Some(0));
    assert WakeOne(dead, 1) == woken by {
      assert [0][1..] == none && none + [0] == [0];
    }
  }
}
