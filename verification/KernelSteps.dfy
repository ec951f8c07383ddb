/** The kernel's calls as steps from one state to the next (task.c, time.c, event.c, sem.c, core.c; arch.c,
    SysTick_Handler).  A call, a tick, and a scheduling decision with its context switch are each one step. */
module KernelSteps {
  import opened Lists
  import opened TaskList
  import opened DeltaList
  import opened DeltaLinks
  import opened ReadyList
  import opened KernelState

  /** No ready task is more urgent than the running one. */
  ghost predicate Settled(s: Sys) {
    s.running < |s.prio| && forall t | t in s.ready :: t < |s.prio| && s.prio[s.running] <= s.prio[t]
  }

  /** What holds between the changes of a call and its scheduling decision. */
  ghost predicate Poised(s: Sys) {
    && Sound(s)
    && (s.state[0].TaskReady? || s.state[0].TaskRunning?)
    && (s.state[s.running].TaskRunning? || (s.lock == 0 && s.schedReq))
    && (Settled(s) || s.schedReq)
    && (s.lock == 0 ==> !s.timeReq)
  }

  /** The invariant: every task in its place, the running task running, and no ready task above it unless
      the application holds the scheduler locked. */
  ghost predicate Inv(s: Sys) {
    Poised(s) && s.state[s.running].TaskRunning? && (s.lock == 0 ==> Settled(s))
  }

  /** The semaphores' counters stay. */
  ghost predicate SameUnits(s: Sys, r: Sys) {
    r.counter == s.counter && r.sems == s.sems && |r.waits| == |s.waits|
  }

  /** The head of the ready list becomes the running task. */
  ghost function Switched(s: Sys, x: nat): Sys
    requires x < |s.state| && x in s.ready
  {
    s.(state := s.state[x := TaskRunning], ready := RemoveAt(s.ready, IndexOf(s.ready, x)), running := x)
  }

  /** Schedule.  `slice` tells whether the running task's time slice is over. */
  ghost function Scheduled(s: Sys, slice: bool): (r: Sys)
    requires Sound(s)
    ensures SameUnits(s, r)
  {
    PlacedAt(s, s.running);
    if s.ready == [] then s
    else
      var x, q := s.ready[0], s.(schedReq := false);
      assert x in s.ready;
      if !s.state[s.running].TaskRunning? then Switched(q, x)
      else if s.prio[x] < s.prio[s.running] || (s.prio[x] == s.prio[s.running] && slice) then
        HeadStays(s, x);
        Switched(Admitted(q, s.running), x)
      else q
  }

  lemma HeadStays(s: Sys, x: nat)
    requires Sound(s) && s.ready != [] && x == s.ready[0] && s.prio[x] <= s.prio[s.running]
    ensures var r := TaskList.Insert(s.prio, s.ready, s.running);
            r[0] == x && x in r && forall t | t in r :: t < |s.prio| && s.prio[x] <= s.prio[t]
  {
    InsertIsStable(s.prio, s.ready, s.running);
    PlaceSplits(s.prio, s.ready, s.prio[s.running], 0);
    var k, r := Place(s.prio, s.ready, s.prio[s.running], 0), TaskList.Insert(s.prio, s.ready, s.running);
    assert r[0] == x;
    forall t | t in r ensures t < |s.prio| && s.prio[x] <= s.prio[t] {
      var i :| 0 <= i < |r| && r[i] == t;
      assert i > 0 ==> s.prio[r[0]] <= s.prio[r[i]];
    }
  }

  lemma SwitchSound(s: Sys, x: nat)
    requires Sound(s) && x < |s.state| && x in s.ready && !s.state[s.running].TaskRunning?
    ensures Sound(Switched(s, x))
  {
    var k, r := IndexOf(s.ready, x), Switched(s, x);
    InTableRemove(|s.state|, s.ready, k);
    RemoveKeepsOrder(s.prio, s.ready, k);
    PlacedAt(s, x);
    forall t | 0 <= t < |r.state| ensures Fits(r, t) {
      PlacedAt(s, t);
    }
  }

  lemma RunningIsLoose(s: Sys)
    requires Sound(s) && s.state[s.running].TaskRunning?
    ensures Loose(s, s.running)
  {
    PlacedAt(s, s.running);
  }

  lemma ScheduleSound(s: Sys, slice: bool)
    requires Sound(s)
    ensures Sound(Scheduled(s, slice))
  {
    if s.ready != [] {
      PlacedAt(s, s.running);
      var x, q := s.ready[0], s.(schedReq := false);
      assert x in s.ready && Sound(q) by { FlagsSound(s, q); }
      if !s.state[s.running].TaskRunning? {
        SwitchSound(q, x);
      } else if s.prio[x] < s.prio[s.running] || (s.prio[x] == s.prio[s.running] && slice) {
        HeadStays(s, x);
        RunningIsLoose(q);
        AdmitSound(q, s.running);
        SwitchSound(Admitted(q, s.running), x);
      }
    }
  }

  /** The scheduler's flags and the lock do not matter for places. */
  lemma FlagsSound(s: Sys, q: Sys)
    requires Sound(s) && q == s.(schedReq := q.schedReq, timeReq := q.timeReq, lock := q.lock, counter := s.counter)
    ensures Sound(q)
  {
    forall t | 0 <= t < |q.state| ensures Fits(q, t) {
      PlacedAt(s, t);
    }
  }

  /** OsSchedUnlock at the end of a call: the scheduler decides unless the application holds a lock. */
  ghost function Left(s: Sys, slice: bool): (r: Sys)
    requires Sound(s)
    ensures SameUnits(s, r)
  {
    if s.lock == 0 && s.schedReq then Scheduled(s, slice) else s
  }

  lemma IdleIsReady(s: Sys)
    requires Poised(s) && s.ready == []
    ensures s.state[s.running].TaskRunning?
  {
    PlacedAt(s, 0);
    PlacedAt(s, s.running);
  }

  lemma HeadIsFirst(s: Sys)
    requires Sound(s) && s.ready != []
    ensures s.ready[0] in s.ready && forall t | t in s.ready :: t < |s.prio| && s.prio[s.ready[0]] <= s.prio[t]
  {
    forall t | t in s.ready ensures t < |s.prio| && s.prio[s.ready[0]] <= s.prio[t] {
      var i :| 0 <= i < |s.ready| && s.ready[i] == t;
      assert i > 0 ==> s.prio[s.ready[0]] <= s.prio[s.ready[i]];
    }
  }

  /** After an unlocked decision no ready task is more urgent than the running one. */
  lemma ScheduleSettles(s: Sys, slice: bool)
    requires Poised(s) && s.lock == 0
    ensures Inv(Scheduled(s, slice)) && Settled(Scheduled(s, slice))
  {
    hide Sound, Insert, RemoveAt, Settled;
    ScheduleSound(s, slice);
    InShape(s);
    SoundAt(s, s.running);
    SoundAt(s, 0);
    HoldsSettled(s);
    if s.ready == [] {
      IdleIsReady(s);
    } else {
      HeadIsFirst(s);
      var x, q := s.ready[0], s.(schedReq := false);
      if !s.state[s.running].TaskRunning? {
        SwitchSettles(q, x);
      } else if s.prio[x] < s.prio[s.running] || (s.prio[x] == s.prio[s.running] && slice) {
        HeadStays(s, x);
        FlagsSound(s, q);
        AdmittedApart(q);
        SwitchSettles(Admitted(q, s.running), x);
      }
    }
  }

  lemma InShape(s: Sys)
    requires Sound(s)
    ensures Shape(s)
  {
  }

  lemma SoundAt(s: Sys, t: nat)
    requires Sound(s) && t < |s.state|
    ensures Shape(s) && Fits(s, t) && Known(s.prio, s.ready) && InTable(|s.state|, s.ready)
  {
    PlacedAt(s, t);
  }

  lemma HoldsSettled(s: Sys)
    requires Sound(s)
    ensures s.ready == [] ==> Settled(s)
    ensures forall q: Sys | q.ready == s.ready && q.prio == s.prio && q.running == s.running :: Settled(q) == Settled(s)
    ensures s.ready != [] && s.prio[s.running] <= s.prio[s.ready[0]] ==> Settled(s)
  {
    if s.ready != [] {
      HeadIsFirst(s);
    }
  }

  lemma SwitchSettles(s: Sys, x: nat)
    requires x < |s.state| == |s.prio| && x in s.ready && Distinct(s.ready)
    requires forall t | t in s.ready :: t < |s.prio| && s.prio[x] <= s.prio[t]
    ensures Settled(Switched(s, x))
  {
    DistinctRemove(s.ready, IndexOf(s.ready, x));
  }

  lemma AdmittedApart(s: Sys)
    requires Sound(s) && s.state[s.running].TaskRunning?
    ensures Distinct(Admitted(s, s.running).ready)
  {
    RunningIsLoose(s);
    AdmitSound(s, s.running);
  }

  lemma LeaveSettles(s: Sys, slice: bool)
    requires Poised(s)
    ensures Inv(Left(s, slice))
  {
    if s.lock == 0 && s.schedReq {
      ScheduleSettles(s, slice);
    }
  }

  /** A more urgent arrival asks for a decision. */
  lemma AdmitPoised(s: Sys, t: nat)
    requires Poised(s) && Loose(s, t) && t != s.running
    ensures Poised(Admitted(s, t))
  {
    hide Sound, Insert, Settled;
    AdmitSound(s, t);
    SoundAt(s, t);
    SoundAt(s, 0);
    SoundAt(s, s.running);
    var r := Admitted(s, t);
    if Settled(s) && !r.schedReq {
      AdmitSettled(s, t);
    }
  }

  lemma AdmitSettled(s: Sys, t: nat)
    requires Sound(s) && Loose(s, t) && Settled(s) && !Admitted(s, t).schedReq && t != s.running
    ensures Settled(Admitted(s, t))
  {
    AdmitSound(s, t);
    var r := Admitted(s, t);
    InsertIsStable(s.prio, s.ready, t);
    assert s.ready != [] && r.ready[0] == s.ready[0] && s.ready[0] in s.ready;
    HoldsSettled(r);
  }

  /** A waiting task leaves the lists it waits in. */
  ghost function Detached(s: Sys, t: nat): (r: Sys)
    requires Sound(s) && t < |s.state| && s.state[t].TaskWaiting?
    ensures Sound(r) && Loose(r, t) && r.state == s.state && r.ready == s.ready && r.prio == s.prio
    ensures SameUnits(s, r) && r.running == s.running && r.lock == s.lock && r.schedReq == s.schedReq && r.timeReq == s.timeReq
  {
    PlacedAt(s, t);
    var a := if s.event[t] != INVALID_ID then UnawaitSound(s, t); Unawaited(s, t) else s;
    PlacedAt(a, t);
    if a.tick[t] != INVALID_VALUE then UndelaySound(a, t); Undelayed(a, t) else a
  }

  /** A waiting task becomes ready: EventTaskToRdy and the loop of TimeDispose. */
  ghost function Roused(s: Sys, t: nat): (r: Sys)
    requires Sound(s) && t < |s.state| && s.state[t].TaskWaiting?
    ensures Sound(r) && SameUnits(s, r) && r.prio == s.prio
  {
    var d := Detached(s, t);
    PlacedAt(d, t);
    AdmitSound(d, t);
    Admitted(d, t)
  }

  lemma RousePoised(s: Sys, t: nat)
    requires Poised(s) && t < |s.state| && s.state[t].TaskWaiting? && s.state[s.running].TaskRunning?
    ensures Poised(Roused(s, t)) && Roused(s, t).state[s.running].TaskRunning?
  {
    AdmitPoised(Detached(s, t), t);
  }

  /** The head of the delay list waits, with no ticks left. */
  ghost predicate HeadDue(s: Sys)
    requires Shape(s)
  {
    s.delay != [] && s.tick[s.delay[0]] == 0
  }

  lemma HeadWaits(s: Sys)
    requires Sound(s) && s.delay != []
    ensures s.delay[0] < |s.state| && s.state[s.delay[0]].TaskWaiting?
    ensures |Roused(s, s.delay[0]).delay| == |s.delay| - 1
  {
    var t := s.delay[0];
    assert t in s.delay;
    PlacedAt(s, t);
  }

  /** TimeDispose: every due task becomes ready. */
  ghost function Disposed(s: Sys): (r: Sys)
    requires Sound(s)
    ensures Sound(r) && SameUnits(s, r)
    decreases |s.delay|
  {
    if HeadDue(s) then HeadWaits(s); Disposed(Roused(s, s.delay[0])) else s
  }

  lemma {:induction false} DisposePoised(s: Sys)
    requires Poised(s) && s.state[s.running].TaskRunning?
    ensures Poised(Disposed(s)) && Disposed(s).state[Disposed(s).running].TaskRunning?
    decreases |s.delay|
  {
    if HeadDue(s) {
      HeadWaits(s);
      RousePoised(s, s.delay[0]);
      DisposePoised(Roused(s, s.delay[0]));
    }
  }
}
