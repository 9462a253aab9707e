/** The periodic scheduler of `task.h`: wrapping tick counters against an unbounded clock. */
module TaskSpec {
  import opened Basics

  const HALF := 0x8000_0000

  datatype Task = Task(period: nat, next: nat, enabled: bool)

  /** `(riv_i32)(now - next) >= 0` on 32-bit words. */
  predicate Due(now: nat, next: nat) {
    (now - next) % U32 < HALF
  }

  /** One task's part of `riv_sched_run` at tick count `now`. */
  function Poll(t: Task, now: nat): Task {
    if t.enabled && Due(now, t.next) then t.(next := (now + t.period) % U32) else t
  }

  /** The polls, on an unbounded clock, at which a task runs. */
  function Fires(t: Task, polls: seq<nat>): seq<nat>
    decreases |polls|
  {
    if polls == [] then []
    else
      var now := polls[0] % U32;
      (if t.enabled && Due(now, t.next) then [polls[0]] else []) + Fires(Poll(t, now), polls[1..])
  }

  /** The same schedule kept with unbounded numbers: run at the first poll from `due` on, then `period` later. */
  function Ideal(period: nat, due: nat, polls: seq<nat>): seq<nat>
    decreases |polls|
  {
    if polls == [] then []
    else if polls[0] >= due then [polls[0]] + Ideal(period, polls[0] + period, polls[1..])
    else Ideal(period, due, polls[1..])
  }
}

module TaskLaws {
  import opened Basics
  import opened Bits
  import opened TaskSpec

  /** The comparison looks at the lateness modulo 2^32 alone. */
  lemma DueIs(now: nat, due: nat)
    ensures Due(now % U32, due % U32) <==> (now - due) % U32 < HALF
  {
    ModShift(now, due, U32);
  }

  /**
   For all times: a task that is late is seen to be due if and only if its lateness, modulo 2^32, is
   below 2^31; one that is early is seen to be early if and only if the time left, modulo 2^32, is
   between 1 and 2^31.
   */
  lemma DueExact(now: nat, due: nat)
    ensures now >= due ==> (Due(now % U32, due % U32) <==> (now - due) % U32 < HALF)
    ensures now < due ==> (!Due(now % U32, due % U32) <==> 1 <= (due - now) % U32 <= HALF)
  {
    DueIs(now, due);
    if now < due {
      NegMod(due - now);
    }
  }

  lemma NegMod(x: int)
    ensures (-x) % U32 == if x % U32 == 0 then 0 else U32 - x % U32
  {
    var q, r := x / U32, x % U32;
    assert x == q * U32 + r;
    if r == 0 {
      DivModUnique(-x, U32, -q, 0);
    } else {
      DivModUnique(-x, U32, -q - 1, U32 - r);
    }
  }

  /** Less than half the range apart, the comparison gives the order of the unbounded times. */
  lemma DueInRange(now: nat, due: nat)
    requires -HALF <= now - due < HALF
    ensures Due(now % U32, due % U32) <==> now >= due
  {
    DueExact(now, due);
    if now >= due { Small(now - due); } else { Small(due - now); }
  }

  lemma Small(x: int)
    requires 0 <= x < U32
    ensures x % U32 == x
  {
  }

  /** A task that has just been re-armed runs again at the same tick if and only if its period is 0 or above 2^31. */
  lemma RunsAtOnce(now: nat, period: nat)
    requires period < U32
    ensures Due(now % U32, (now + period) % U32) <==> period == 0 || period > HALF
  {
    DueIs(now, now + period);
    NegMod(period);
    Small(period);
  }

  /** Polled 2^31 ticks after it was due, a task is passed over; polled 2^32 ticks after, it runs. */
  lemma LateTask()
    ensures var t := Task(10, 10, true);
            && Fires(t, [10 + HALF]) == [] && Ideal(10, 10, [10 + HALF]) == [10 + HALF]
            && Fires(t, [10 + U32]) == [10 + U32]
  {
    DueExact(10 + HALF, 10);
    DueExact(10 + U32, 10);
    var t := Task(10, 10, true);
    assert [10 + HALF][1..] == [] && [10 + U32][1..] == [];
    assert Fires(Poll(t, (10 + HALF) % U32), []) == [] && Fires(Poll(t, (10 + U32) % U32), []) == [];
    assert Ideal(10, 10 + HALF + 10, []) == [];
  }

  /** Polls come in order, the first at most `gap` after `from`, each next one at most `gap` later. */
  predicate Spaced(polls: seq<nat>, from: nat, gap: nat)
    decreases |polls|
  {
    polls == [] || (from <= polls[0] <= from + gap && Spaced(polls[1..], polls[0], gap))
  }

  /**
   Polled at least every `gap` ticks, with `gap` below and the period at most half the counter's
   range, the wrapping scheduler runs the task at exactly the polls the unbounded one does.
   */
  lemma {:induction false} FiresIdeally(t: Task, due: nat, polls: seq<nat>, from: nat, gap: nat)
    requires t.enabled && t.period <= HALF && gap < HALF && t.next == due % U32
    requires from <= due <= from + t.period && Spaced(polls, from, gap)
    ensures Fires(t, polls) == Ideal(t.period, due, polls)
    decreases |polls|
  {
    if polls != [] {
      var now := polls[0];
      DueInRange(now, due);
      if now >= due {
        NextDue(now, t.period);
        FiresIdeally(Poll(t, now % U32), now + t.period, polls[1..], now, gap);
      } else {
        FiresIdeally(t, due, polls[1..], now, gap);
        assert [] + Fires(t, polls[1..]) == Fires(t, polls[1..]);
      }
    }
  }

  lemma NextDue(now: nat, period: nat)
    ensures (now % U32 + period) % U32 == (now + period) % U32
  {
  }

  /** A task runs no sooner than it is due, and no later than one gap after; from then on the period counts anew. */
  predicate Punctual(fires: seq<nat>, due: nat, period: nat, gap: nat)
    decreases |fires|
  {
    fires == [] || (due <= fires[0] <= due + gap && Punctual(fires[1..], fires[0] + period, period, gap))
  }

  lemma {:induction false} IdealPunctual(period: nat, due: nat, polls: seq<nat>, from: nat, gap: nat)
    requires Spaced(polls, from, gap) && from <= due
    ensures Punctual(Ideal(period, due, polls), due, period, gap)
    decreases |polls|
  {
    if polls != [] {
      var now := polls[0];
      if now >= due {
        IdealPunctual(period, now + period, polls[1..], now, gap);
        var r := Ideal(period, now + period, polls[1..]);
        assert ([now] + r)[1..] == r;
      } else {
        IdealPunctual(period, due, polls[1..], now, gap);
      }
    }
  }

  /** Once a poll has reached the due time, the task has run. */
  lemma {:induction false} IdealRuns(period: nat, due: nat, polls: seq<nat>)
    requires polls != [] && polls[|polls| - 1] >= due
    ensures Ideal(period, due, polls) != []
  {
    if polls[0] < due {
      IdealRuns(period, due, polls[1..]);
    }
  }

  /** Across any number of wraps, runs are between one period and one period plus one gap apart. */
  lemma RunsArePeriodic(period: nat, polls: seq<nat>, gap: nat)
    requires period <= HALF && gap < HALF && Spaced(polls, 0, gap)
    ensures Punctual(Fires(Task(period, period, true), polls), period, period, gap)
  {
    assert period % U32 == period;
    FiresIdeally(Task(period, period, true), period, polls, 0, gap);
    IdealPunctual(period, period, polls, 0, gap);
  }
}

/** `task.h` as code. */
module TaskScheduler {
  import opened Basics
  import opened TaskSpec
  import opened TaskLaws

  /** The tasks that `riv_sched_run` calls, in table order. */
  function DueTasks(ts: seq<Task>, now: nat): seq<nat> {
    if ts == [] then []
    else
      var n := |ts| - 1;
      DueTasks(ts[..n], now) + if ts[n].enabled && Due(now, ts[n].next) then [n] else []
  }

  /** Exactly the enabled tasks that are due run, each once. */
  lemma {:induction false} DueTasksExact(ts: seq<Task>, now: nat, i: nat)
    ensures i in DueTasks(ts, now) <==> i < |ts| && ts[i].enabled && Due(now, ts[i].next)
    ensures forall a, b | 0 <= a < b < |DueTasks(ts, now)| :: DueTasks(ts, now)[a] < DueTasks(ts, now)[b]
    ensures forall a | 0 <= a < |DueTasks(ts, now)| :: DueTasks(ts, now)[a] < |ts|
  {
    if ts != [] {
      DueTasksExact(ts[..|ts| - 1], now, i);
    }
  }

  /** Whether a task is called at the unbounded time `time`. */
  predicate Called(t: Task, time: nat) {
    t.enabled && Due(time % U32, t.next)
  }

  function Polled(t: Task, time: nat): Task {
    Poll(t, time % U32)
  }

  /**
   An enabled task waits for a due time at most one period, itself at most half the counter's range,
   after the last poll.
   */
  predicate Waiting(t: Task, due: nat, polled: nat) {
    t.enabled ==> t.period <= HALF && t.next == due % U32 && polled <= due <= polled + t.period
  }

  function Rearmed(t: Task, due: nat, time: nat): nat {
    if t.enabled && due <= time then time + t.period else due
  }

  /** A poll less than half the range after the last calls the task exactly when its time has come. */
  lemma PolledInTime(t: Task, due: nat, polled: nat, time: nat)
    requires Waiting(t, due, polled) && polled <= time < polled + HALF
    ensures Called(t, time) <==> t.enabled && due <= time
    ensures Waiting(Polled(t, time), Rearmed(t, due, time), time)
    ensures Polled(t, time).period == t.period && Polled(t, time).enabled == t.enabled
  {
    if t.enabled {
      DueInRange(time, due);
      NextDue(time, t.period);
    }
  }

  ghost predicate AllWaiting(ts: seq<Task>, due: seq<nat>, polled: nat) {
    |due| == |ts| && forall i | 0 <= i < |ts| :: Waiting(ts[i], due[i], polled)
  }

  /** The due times after a poll at `time`. */
  ghost function RearmAll(ts: seq<Task>, due: seq<nat>, time: nat): (r: seq<nat>)
    requires |due| == |ts|
    ensures |r| == |ts| && forall i | 0 <= i < |ts| :: r[i] == Rearmed(ts[i], due[i], time)
  {
    seq(|ts|, i requires 0 <= i < |ts| => Rearmed(ts[i], due[i], time))
  }

  lemma AllPolledInTime(ts: seq<Task>, due: seq<nat>, polled: nat, time: nat, after: seq<Task>)
    requires AllWaiting(ts, due, polled) && polled <= time < polled + HALF
    requires |after| == |ts| && forall i | 0 <= i < |ts| :: after[i] == Polled(ts[i], time)
    ensures forall i: nat :: i in DueTasks(ts, time % U32) <==> i < |ts| && ts[i].enabled && due[i] <= time
    ensures AllWaiting(after, RearmAll(ts, due, time), time)
  {
    hide Waiting, Polled, Rearmed, Due, DueTasks;
    forall i: nat ensures i in DueTasks(ts, time % U32) <==> i < |ts| && ts[i].enabled && due[i] <= time {
      DueTasksExact(ts, time % U32, i);
      if i < |ts| {
        PolledInTime(ts[i], due[i], polled, time);
      }
    }
    forall i | 0 <= i < |ts| ensures Waiting(after[i], RearmAll(ts, due, time)[i], time) {
      PolledInTime(ts[i], due[i], polled, time);
    }
  }

  class Scheduler {
    const tasks: array<Task>
    var ticks: nat
    /** The ticks since the start, when each task is due and when the tasks were last polled, on an unbounded clock. */
    ghost var time: nat
    ghost var due: seq<nat>
    ghost var polled: nat

    /** The counter is the clock modulo 2^32. */
    ghost predicate Valid()
      reads this
    {
      ticks == time % U32 && polled <= time && |due| == tasks.Length
    }

    ghost predicate OnTime()
      reads this, tasks
    {
      Valid() && AllWaiting(tasks[..], due, polled)
    }

    /** `riv_sched_init`. */
    constructor (tasks: array<Task>)
      modifies tasks
      ensures this.tasks == tasks && time == 0 && polled == 0 && Valid()
      ensures forall i | 0 <= i < tasks.Length :: tasks[i] == Task(old(tasks[i].period), old(tasks[i].period), true)
      ensures (forall i | 0 <= i < tasks.Length :: old(tasks[i].period) <= HALF) ==>
                OnTime() && forall i | 0 <= i < tasks.Length :: due[i] == tasks[i].period
    {
      this.tasks, ticks := tasks, 0;
      time, polled := 0, 0;
      due := seq(tasks.Length, i requires 0 <= i < tasks.Length reads tasks => tasks[i].period);
      new;
      var i := 0;
      while i < tasks.Length
        invariant 0 <= i <= tasks.Length
        invariant forall k | 0 <= k < tasks.Length ::
                    tasks[k] == if k < i then Task(old(tasks[k].period), old(tasks[k].period), true) else old(tasks[k])
        modifies tasks
      {
        tasks[i] := tasks[i].(next := tasks[i].period, enabled := true);
        i := i + 1;
      }
    }

    /** `riv_sched_tick`: the clock advances by one, however often the counter has wrapped. */
    method Tick()
      requires Valid()
      modifies this`ticks, this`time
      ensures Valid() && time == old(time) + 1
      ensures old(OnTime()) ==> OnTime()
    {
      NextDueIs(time);
      ticks := (ticks + 1) % U32;
      time := time + 1;
    }

    /**
     `riv_sched_run`; the result lists the tasks called. Polled less than half the counter's range after
     the last poll, it calls exactly the enabled tasks whose time has come, and each is due again one
     period later.
     */
    method Run() returns (ran: seq<nat>)
      requires Valid()
      modifies this`due, this`polled, tasks
      ensures Valid() && polled == time && due == RearmAll(old(tasks[..]), old(due), time)
      ensures forall i | 0 <= i < tasks.Length :: tasks[i] == Poll(old(tasks[i]), ticks)
      ensures ran == DueTasks(old(tasks[..]), ticks)
      ensures old(OnTime()) && time - old(polled) < HALF ==>
                && OnTime()
                && forall i: nat :: i in ran <==> i < tasks.Length && old(tasks[..])[i].enabled && old(due)[i] <= time
    {
      hide Due, Poll, Waiting, Rearmed;
      ghost var was := tasks[..];
      ran := Sweep();
      if old(OnTime()) && time - polled < HALF {
        AllPolledInTime(was, due, polled, time, tasks[..]);
      }
      due := RearmAll(was, due, time);
      polled := time;
    }

    /** The loop of `riv_sched_run`. */
    method Sweep() returns (ran: seq<nat>)
      modifies tasks
      ensures forall i | 0 <= i < tasks.Length :: tasks[i] == Poll(old(tasks[i]), ticks)
      ensures ran == DueTasks(old(tasks[..]), ticks)
    {
      hide Due;
      var now := ticks;
      ghost var was := tasks[..];
      ran := [];
      var i := 0;
      while i < tasks.Length
        invariant 0 <= i <= tasks.Length && ran == DueTasks(was[..i], now)
        invariant forall k | 0 <= k < tasks.Length :: tasks[k] == if k < i then Poll(was[k], now) else was[k]
      {
        assert was[..i + 1][..i] == was[..i];
        if tasks[i].enabled && Due(now, tasks[i].next) {
          tasks[i] := tasks[i].(next := (now + tasks[i].period) % U32);
          ran := ran + [i];
        }
        i := i + 1;
      }
      assert was[..i] == was;
    }
  }

  lemma NextDueIs(time: nat)
    ensures (time % U32 + 1) % U32 == (time + 1) % U32
  {
  }
}
