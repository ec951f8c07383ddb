/** Runs of kernel calls: over every run each task stays in exactly one place, the running task is never
    outranked while the scheduler is unlocked, and no semaphore unit is lost (task.c, time.c, event.c,
    sem.c, core.c; arch.c, SysTick_Handler). */
module KernelCalls {
  import opened Lists
  import opened TaskList
  import opened DeltaList
  import opened DeltaLinks
  import opened ReadyList
  import opened KernelState
  import opened KernelSteps
  import DelayRuns

  datatype Status = Ok | CreateFail | InvalidId | ProtectedTask | InLock | AlreadyWaiting | NotWaiting | WaitOther
                  | InvalidParameter | SemEmpty | SemFull

  /** A change that adds no ready task without asking for a decision. */
  lemma KeepsPoised(s: Sys, r: Sys)
    requires Poised(s) && Sound(r) && r.running == s.running && r.lock == s.lock && r.timeReq == s.timeReq
    requires r.state[0] == s.state[0] && (s.schedReq ==> r.schedReq)
    requires r.state[r.running] == s.state[r.running] || (s.lock == 0 && r.schedReq)
    requires r.schedReq || r.prio[s.running] == s.prio[s.running]
    requires r.schedReq || forall x | x in r.ready :: x in s.ready && x < |s.prio| && x < |r.prio| && r.prio[x] == s.prio[x]
    ensures Poised(r)
  {
  }

  /** CoCreateTask: a free table entry, waiting with priority `p`. */
  ghost function Fresh(s: Sys, p: nat): Sys
    requires Shape(s) && s.free != []
  {
    var t := s.free[0];
    s.(free := s.free[1..], state := s.state[t := TaskWaiting], prio := s.prio[t := p])
  }

  lemma FreshSound(s: Sys, p: nat)
    requires Sound(s) && s.free != []
    ensures Sound(Fresh(s, p)) && Loose(Fresh(s, p), s.free[0]) && s.free[0] !in s.ready
  {
    var t, r := s.free[0], Fresh(s, p);
    assert t in s.free && RemoveAt(s.free, 0) == s.free[1..];
    PlacedAt(s, t);
    InTableRemove(|s.state|, s.free, 0);
    SortedWithout(s.prio, s.ready, t, p);
    forall e | 0 <= e < |s.waits| ensures !s.sems[e].fifo ==> SortedBy(r.prio, s.waits[e]) {
      if !s.sems[e].fifo {
        SortedWithout(s.prio, s.waits[e], t, p);
      }
    }
    forall x | 0 <= x < |r.state| ensures Fits(r, x) {
      PlacedAt(s, x);
    }
  }

  ghost function Created(s: Sys, p: nat, waiting: bool, slice: bool): (r: Sys)
    requires Inv(s)
    ensures Inv(r) && SameUnits(s, r)
  {
    if s.free == [] then s
    else
      FreshSound(s, p);
      FreshInv(s, p);
      if waiting then Fresh(s, p)
      else
        AdmitPoised(Fresh(s, p), s.free[0]);
        LeaveSettles(Admitted(Fresh(s, p), s.free[0]), slice);
        Left(Admitted(Fresh(s, p), s.free[0]), slice)
  }

  lemma FreshInv(s: Sys, p: nat)
    requires Inv(s) && s.free != [] && Sound(Fresh(s, p))
    ensures Inv(Fresh(s, p)) && s.free[0] != s.running && s.free[0] < |s.state|
    ensures Known(Fresh(s, p).prio, Fresh(s, p).ready)
  {
    var t := s.free[0];
    assert t in s.free;
    PlacedAt(s, t);
    PlacedAt(Fresh(s, p), t);
    assert t !in s.ready;
  }

  function SuspendStatus(s: Sys, t: nat): Status {
    if t == 0 then ProtectedTask
    else if t >= |s.state| || s.state[t].TaskDormant? then InvalidId
    else if s.lock != 0 then InLock
    else if s.state[t].TaskWaiting? then AlreadyWaiting
    else Ok
  }

  /** CoSuspendTask. */
  ghost function Suspended(s: Sys, t: nat, slice: bool): (r: Sys)
    requires Inv(s)
    ensures Inv(r) && SameUnits(s, r)
  {
    if SuspendStatus(s, t) != Ok then s
    else
      PlacedAt(s, t);
      var a := if t != s.running then Unreadied(s, t, TaskWaiting)
               else s.(state := s.state[t := TaskWaiting], schedReq := true);
      SuspendPoised(s, t);
      LeaveSettles(a, slice);
      Left(a, slice)
  }

  lemma SuspendPoised(s: Sys, t: nat)
    requires Inv(s) && SuspendStatus(s, t) == Ok
    ensures if t != s.running then t in s.ready && Poised(Unreadied(s, t, TaskWaiting))
            else Poised(s.(state := s.state[t := TaskWaiting], schedReq := true))
  {
    PlacedAt(s, t);
    if t != s.running {
      UnreadySound(s, t, TaskWaiting);
      DistinctRemove(s.ready, IndexOf(s.ready, t));
      KeepsPoised(s, Unreadied(s, t, TaskWaiting));
    } else {
      var r := s.(state := s.state[t := TaskWaiting], schedReq := true);
      StopSound(s, r);
      KeepsPoised(s, r);
    }
  }

  /** The running task stops running. */
  lemma StopSound(s: Sys, r: Sys)
    requires Sound(s) && s.state[s.running].TaskRunning?
    requires r == s.(state := s.state[s.running := TaskWaiting], schedReq := true)
    ensures Sound(r) && Loose(r, s.running)
  {
    PlacedAt(s, s.running);
    forall x | 0 <= x < |r.state| ensures Fits(r, x) {
      PlacedAt(s, x);
    }
  }

  function DeleteStatus(s: Sys, t: nat): Status {
    if t >= |s.state| || s.state[t].TaskDormant? then InvalidId
    else if t == 0 then ProtectedTask
    else if s.state[t].TaskRunning? && s.lock != 0 then InLock
    else Ok
  }

  /** The entry goes back to the free list. */
  ghost function Buried(s: Sys, t: nat): Sys
    requires t < |s.state|
  {
    s.(state := s.state[t := TaskDormant], free := [t] + s.free, schedReq := true)
  }

  lemma BurySound(s: Sys, t: nat)
    requires Sound(s) && Loose(s, t)
    ensures Sound(Buried(s, t))
  {
    PlacedAt(s, t);
    assert [t] + s.free == InsertAt(s.free, 0, t);
    InTableInsert(|s.state|, s.free, 0, t);
    var r := Buried(s, t);
    forall x | 0 <= x < |r.state| ensures Fits(r, x) {
      PlacedAt(s, x);
    }
  }

  /** What CoDelTask takes the task out of before it frees the entry. */
  ghost function Withdrawn(s: Sys, t: nat): (r: Sys)
    requires Inv(s) && DeleteStatus(s, t) == Ok
    ensures Sound(r) && Loose(r, t) && SameUnits(s, r) && r.running == s.running && r.lock == s.lock && r.timeReq == s.timeReq
    ensures r.prio == s.prio && |r.state| == |s.state| && r.state[0] == s.state[0]
    ensures t != s.running ==> r.state[s.running] == s.state[s.running]
  {
    PlacedAt(s, t);
    if s.state[t].TaskReady? then UnreadySound(s, t, TaskWaiting); Unreadied(s, t, TaskWaiting)
    else if s.state[t].TaskWaiting? then Detached(s, t)
    else s
  }

  /** CoDelTask, for a task that holds and awaits no mutex. */
  ghost function Deleted(s: Sys, t: nat, slice: bool): (r: Sys)
    requires Inv(s)
    ensures Inv(r) && SameUnits(s, r)
  {
    if DeleteStatus(s, t) != Ok then s
    else
      BurySound(Withdrawn(s, t), t);
      KeepsPoised(s, Buried(Withdrawn(s, t), t));
      LeaveSettles(Buried(Withdrawn(s, t), t), slice);
      Left(Buried(Withdrawn(s, t), t), slice)
  }

  function AwakeStatus(s: Sys, t: nat): Status
    requires |s.state| == |s.tick| == |s.event|
  {
    if t == 0 then ProtectedTask
    else if t >= |s.state| || s.state[t].TaskDormant? then InvalidId
    else if !s.state[t].TaskWaiting? then NotWaiting
    else if s.tick[t] != INVALID_VALUE || s.event[t] != INVALID_ID then WaitOther
    else Ok
  }

  /** CoAwakeTask. */
  ghost function Awoken(s: Sys, t: nat, slice: bool): (r: Sys)
    requires Inv(s)
    ensures Inv(r) && SameUnits(s, r)
  {
    if AwakeStatus(s, t) != Ok then s
    else
      PlacedAt(s, t);
      AdmitPoised(s, t);
      LeaveSettles(Admitted(s, t), slice);
      Left(Admitted(s, t), slice)
  }

  function DelayStatus(s: Sys, n: Tick): Status {
    if n == INVALID_VALUE then InvalidParameter
    else if n == 0 then Ok
    else if s.lock != 0 then InLock
    else Ok
  }

  /** CoTickDelay, called by a task other than the idle one. */
  ghost function Delayed(s: Sys, n: Tick, slice: bool): (r: Sys)
    requires Inv(s) && s.running != 0 && (DelayStatus(s, n) == Ok && n > 0 ==> InTime(s, n))
    ensures Inv(r) && SameUnits(s, r)
  {
    if DelayStatus(s, n) != Ok || n == 0 then s
    else
      RunningIsLoose(s);
      DelaySound(s, s.running, n);
      KeepsPoised(s, Delaying(s, s.running, n));
      LeaveSettles(Delaying(s, s.running, n), slice);
      Left(Delaying(s, s.running, n), slice)
  }

  function PendStatus(s: Sys, e: nat): Status {
    if e >= |s.waits| then InvalidId
    else if s.lock != 0 then InLock
    else Ok
  }

  /** A semaphore unit taken or given back. */
  ghost function Counted(s: Sys, e: nat, c: nat): Sys
    requires e < |s.counter|
  {
    s.(counter := s.counter[e := c])
  }

  lemma CountPoised(s: Sys, e: nat, c: nat)
    requires Poised(s) && e < |s.waits| && c <= s.sems[e].max && (c > 0 ==> s.waits[e] == [])
    ensures Poised(Counted(s, e, c))
  {
    var r := Counted(s, e, c);
    forall x | 0 <= x < |r.state| ensures Fits(r, x) {
      PlacedAt(s, x);
    }
    KeepsPoised(s, r);
  }

  /** CoPendSem, called by a task other than the idle one. */
  ghost function Pended(s: Sys, e: nat, timeout: Tick, slice: bool): (r: Sys)
    requires Inv(s) && s.running != 0
    requires PendStatus(s, e) == Ok && s.counter[e] == 0 && timeout > 0 ==> InTime(s, timeout)
    ensures Inv(r) && r.sems == s.sems && |r.waits| == |s.waits|
    ensures r.counter == if PendStatus(s, e) == Ok && s.counter[e] > 0 then s.counter[e := s.counter[e] - 1] else s.counter
  {
    if PendStatus(s, e) != Ok then s
    else if s.counter[e] > 0 then
      CountPoised(s, e, s.counter[e] - 1);
      LeaveSettles(Counted(s, e, s.counter[e] - 1), slice);
      Left(Counted(s, e, s.counter[e] - 1), slice)
    else
      AwaitPoised(s, e, timeout);
      LeaveSettles(Delaying(Awaiting(s, e, s.running), s.running, timeout), slice);
      Left(Delaying(Awaiting(s, e, s.running), s.running, timeout), slice)
  }

  lemma AwaitPoised(s: Sys, e: nat, timeout: Tick)
    requires Inv(s) && s.running != 0 && (timeout > 0 ==> InTime(s, timeout)) && PendStatus(s, e) == Ok && s.counter[e] == 0
    ensures Sound(Awaiting(s, e, s.running)) && Poised(Delaying(Awaiting(s, e, s.running), s.running, timeout))
  {
    RunningIsLoose(s);
    AwaitSound(s, e, s.running);
    DelaySound(Awaiting(s, e, s.running), s.running, timeout);
    KeepsPoised(s, Delaying(Awaiting(s, e, s.running), s.running, timeout));
  }

  function AcceptStatus(s: Sys, e: nat): Status
    requires |s.counter| == |s.waits|
  {
    if e >= |s.waits| then InvalidId else if s.counter[e] > 0 then Ok else SemEmpty
  }

  /** CoAcceptSem. */
  ghost function Accepted(s: Sys, e: nat, slice: bool): (r: Sys)
    requires Inv(s)
    ensures Inv(r) && r.sems == s.sems && |r.waits| == |s.waits|
    ensures r.counter == if AcceptStatus(s, e) == Ok then s.counter[e := s.counter[e] - 1] else s.counter
  {
    if AcceptStatus(s, e) == InvalidId then s
    else if AcceptStatus(s, e) == SemEmpty then LeaveSettles(s, slice); Left(s, slice)
    else
      CountPoised(s, e, s.counter[e] - 1);
      LeaveSettles(Counted(s, e, s.counter[e] - 1), slice);
      Left(Counted(s, e, s.counter[e] - 1), slice)
  }

  function PostStatus(s: Sys, e: nat): Status
    requires |s.counter| == |s.waits| == |s.sems|
  {
    if e >= |s.waits| then InvalidId else if s.counter[e] == s.sems[e].max then SemFull else Ok
  }

  /** CoPostSem. */
  ghost function Posted(s: Sys, e: nat, slice: bool): (r: Sys)
    requires Inv(s)
    ensures Inv(r) && r.sems == s.sems && |r.waits| == |s.waits|
    ensures r.counter == if PostStatus(s, e) == Ok && s.waits[e] == [] then s.counter[e := s.counter[e] + 1] else s.counter
  {
    if PostStatus(s, e) != Ok then s
    else if s.waits[e] == [] then
      CountPoised(s, e, s.counter[e] + 1);
      LeaveSettles(Counted(s, e, s.counter[e] + 1), slice);
      Left(Counted(s, e, s.counter[e] + 1), slice)
    else
      FirstWaits(s, e);
      RousePoised(s, s.waits[e][0]);
      LeaveSettles(Roused(s, s.waits[e][0]), slice);
      Left(Roused(s, s.waits[e][0]), slice)
  }

  lemma FirstWaits(s: Sys, e: nat)
    requires Sound(s) && e < |s.waits| && s.waits[e] != []
    ensures s.waits[e][0] < |s.state| && s.state[s.waits[e][0]].TaskWaiting? && s.event[s.waits[e][0]] == e
  {
    assert s.waits[e][0] in s.waits[e];
    PlacedAt(s, s.waits[e][0]);
  }

  /** The tick of the delay list, before due tasks are made ready. */
  ghost function Counting(s: Sys): Sys
    requires Shape(s)
  {
    if s.delay == [] then s
    else
      var h := s.delay[0];
      s.(tick := s.tick[h := if s.tick[h] > 1 then s.tick[h] - 1 else 0])
  }

  lemma CountingPoised(s: Sys)
    requires Inv(s)
    ensures Poised(Counting(s)) && Counting(s).state[s.running].TaskRunning?
  {
    if s.delay != [] {
      var h, r := s.delay[0], Counting(s);
      assert h in s.delay;
      TimelyIs(s);
      BriefValid(s.tick, s.delay, s.horizon);
      BriefTick(s.tick, s.delay, r.tick[h], s.horizon);
      TimelyIs(r);
      forall x | 0 <= x < |r.state| ensures Fits(r, x) {
        PlacedAt(s, x);
      }
      KeepsPoised(s, r);
    }
  }

  lemma BriefTick(tick: seq<Tick>, l: seq<nat>, v: Tick, h: nat)
    requires Brief(tick, l, h) && l != [] && Distinct(l) && v <= tick[l[0]]
    ensures Brief(tick[l[0] := v], l, h)
  {
    var ds, es := Deltas(tick, l), Deltas(tick[l[0] := v], l);
    assert es == ds[0 := v];
    forall i | 0 <= i < |l| ensures Due(es, i) < h {
      DelayRuns.SumHead(ds, v, i + 1);
      assert Due(ds, i) < h;
    }
  }

  /** SysTick_Handler: under a lock of the application the due tasks stay in the delay list and the
      disposal is asked for. */
  ghost function Ticked(s: Sys, slice: bool): (r: Sys)
    requires Inv(s)
    ensures Inv(r) && SameUnits(s, r)
  {
    CountingPoised(s);
    var a := Counting(s);
    var due := a.delay != [] && a.tick[a.delay[0]] == 0;
    DisposePoised(a);
    var b := if !due then a else if s.lock > 0 then a.(timeReq := true) else Disposed(a);
    AskPoised(a);
    AskPoised(b);
    LeaveSettles(b.(schedReq := true), slice);
    Left(b.(schedReq := true), slice)
  }

  lemma AskPoised(s: Sys)
    requires Poised(s)
    ensures Poised(s.(schedReq := true)) && (s.lock > 0 ==> Poised(s.(timeReq := true)))
  {
    FlagsSound(s, s.(schedReq := true));
    FlagsSound(s, s.(timeReq := true));
  }

  /** CoSchedLock. */
  ghost function Locked(s: Sys): (r: Sys)
    requires Inv(s)
    ensures Inv(r) && SameUnits(s, r)
  {
    FlagsSound(s, s.(lock := s.lock + 1));
    s.(lock := s.lock + 1)
  }

  /** CoSchedUnlock: the last lock's end serves the request for disposal first. */
  ghost function Unlocked(s: Sys, slice: bool): (r: Sys)
    requires Inv(s) && s.lock > 0
    ensures Inv(r) && SameUnits(s, r)
  {
    if s.lock > 1 then FlagsSound(s, s.(lock := s.lock - 1)); s.(lock := s.lock - 1)
    else
      var a := s.(lock := 0, timeReq := false);
      FlagsSound(s, a);
      DisposePoised(a);
      var b := if s.timeReq then Disposed(a) else a;
      LeaveSettles(b, slice);
      Left(b, slice)
  }
}
