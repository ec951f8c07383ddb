/** The kernel's calls on the task table and its linked lists (task.c, time.c, event.c, sem.c, core.c;
    arch.c, SysTick_Handler), each proved to make the step KernelCalls describes. */
module Kernel {
  import opened Lists
  import opened TaskList
  import opened DeltaList
  import opened DeltaLinks
  import DelayList
  import opened ReadyList
  import opened EventLists
  import opened KernelState
  import opened KernelSteps
  import opened KernelCalls
  import KernelRuns

  class Scheduler {
    const rdy: LinearReady
    const dly: DeltaQueue
    const evt: WaitLists
    const sems: seq<Semaphore>
    var state: seq<TaskState>
    var event: seq<int>
    var free: seq<nat>
    var counter: seq<nat>
    var running: nat
    var lock: nat
    var timeReq: bool
    ghost const horizon: nat

    ghost predicate Valid()
      reads this, rdy, dly, evt
    {
      && rdy.Valid() && dly.Valid() && evt.Valid()
      && |rdy.prio| == |dly.cnt| == |evt.waitNext| == |state| == |event|
      && |evt.lists| == |counter| == |sems|
    }

    ghost function Now(): Sys
      reads this, rdy, dly, evt
    {
      Sys(state, rdy.prio, dly.cnt, event, free, rdy.list, dly.list, evt.lists, counter, sems,
          running, lock, rdy.schedReq, timeReq, horizon)
    }

    lemma Parts()
      requires Valid()
      ensures rdy.Valid() && dly.Valid() && evt.Valid()
      ensures |rdy.prio| == |dly.cnt| == |evt.waitNext| == |state| == |event|
      ensures |evt.lists| == |counter| == |sems|
    {
    }

    lemma NowIs()
      ensures Now() == Sys(state, rdy.prio, dly.cnt, event, free, rdy.list, dly.list, evt.lists, counter, sems,
                           running, lock, rdy.schedReq, timeReq, horizon)
    {
    }

    lemma Intro()
      requires rdy.Valid() && dly.Valid() && evt.Valid()
      requires |rdy.prio| == |dly.cnt| == |evt.waitNext| == |state| == |event|
      requires |evt.lists| == |counter| == |sems|
      ensures Valid()
    {
    }

    /** The system as CoStartOS finds it, with the idle task running. */
    constructor (n: nat, idle: nat, semaphores: seq<Semaphore>, c: seq<nat>, ghost h: nat)
      requires 0 < n && |c| == |semaphores|
      ensures Valid() && fresh(rdy) && fresh(dly) && fresh(evt)
      ensures Now() == KernelRuns.Started(n, idle, semaphores, c, h)
    {
      rdy := new LinearReady(seq(n, i => idle));
      dly := new DeltaQueue(n);
      evt := new WaitLists(n, |semaphores|);
      sems := semaphores;
      counter := c;
      state := seq(n, i => if i == 0 then TaskRunning else TaskDormant);
      event := seq(n, i => INVALID_ID);
      free := seq(n - 1, i => i + 1);
      running, lock, timeReq := 0, 0, false;
      horizon := h;
      new;
      dly.cnt := seq(n, i => INVALID_VALUE);
    }

    /** InsertToTCBRdyList. */
    method Admit(t: nat)
      requires Valid() && Sound(Now()) && Loose(Now(), t)
      modifies this`state, rdy
      ensures Valid() && Now() == Admitted(old(Now()), t)
    {
      hide *;
      Parts();
      NowIs();
      ghost var s := Now();
      LooseIs(s, t);
      AdmittedIs(s, t);
      state := state[t := TaskReady];
      rdy.Insert(t);
      SameLength(rdy);
      Intro();
      NowIs();
    }

    /** RemoveFromTCBRdyList, and the state the task gets. */
    method Unready(t: nat, next: TaskState)
      requires Valid() && t < |state| && t in rdy.list
      modifies this`state, rdy
      ensures Valid() && Now() == Unreadied(old(Now()), t, next)
    {
      hide *;
      Parts();
      NowIs();
      UnreadiedIs(Now(), t, next);
      rdy.Remove(t);
      state := state[t := next];
      Intro();
      NowIs();
    }

    /** TaskSchedReq. */
    method Ask(on: bool)
      requires Valid()
      modifies rdy`schedReq
      ensures Valid() && Now() == old(Now()).(schedReq := on)
    {
      rdy.schedReq := on;
    }

    /** InsertDelayList. */
    method StartDelay(t: nat, n: Tick)
      requires Valid() && Shape(Now()) && t < |state| && t !in dly.list
      modifies this`state, rdy`schedReq, dly
      ensures Valid() && Now() == Delaying(old(Now()), t, n)
    {
      hide *;
      Parts();
      NowIs();
      DelayingIs(Now(), t, n);
      CountsAre(dly);
      if n == 0 {
        return;
      }
      dly.Insert(t, n);
      state := state[t := TaskWaiting];
      Intro();
      NowIs();
      Ask(true);
    }

    /** RemoveDelayList. */
    method StopDelay(t: nat)
      requires Valid() && Shape(Now()) && t < |state| && t in dly.list
      modifies dly
      ensures Valid() && Now() == Undelayed(old(Now()), t)
    {
      hide *;
      Parts();
      NowIs();
      ghost var k := IndexOf(dly.list, t);
      UndelayedIs(Now(), t);
      CountsAre(dly);
      dly.Unlink(t, k);
      Recounted(dly, t, INVALID_VALUE);
      Intro();
      NowIs();
    }

    /** EventTaskToWait. */
    method Await(e: nat, t: nat)
      requires Valid() && Shape(Now()) && t < |state| && e < |sems| && Nowhere(evt.lists, t)
      modifies this`state, this`event, rdy`schedReq, evt
      ensures Valid() && Now() == Awaiting(old(Now()), e, t)
    {
      hide *;
      Parts();
      NowIs();
      AwaitingIs(Now(), e, t);
      event := event[t := e];
      if sems[e].fifo {
        evt.Append(e, t);
      } else {
        evt.InsertByPriority(e, t, rdy.prio);
      }
      state := state[t := TaskWaiting];
      WaitsLength(evt);
      Intro();
      NowIs();
      Ask(true);
    }

    /** RemoveEventWaittingList. */
    method Unawait(t: nat)
      requires Valid() && Shape(Now()) && t < |state| && 0 <= event[t] < |sems| && t in evt.lists[event[t]]
      modifies this`event, evt
      ensures Valid() && Now() == Unawaited(old(Now()), t)
    {
      hide *;
      Parts();
      NowIs();
      UnawaitedIs(Now(), t);
      evt.Drop(event[t], t, IndexOf(evt.lists[event[t]], t));
      event := event[t := INVALID_ID];
      Intro();
      NowIs();
    }

    /** Lines 309-320 of event.c: the first waiting task leaves the list. */
    method TakeWaiter(e: nat) returns (t: nat)
      requires Valid() && Shape(Now()) && e < |sems| && evt.lists[e] != []
      requires evt.lists[e][0] < |state| && event[evt.lists[e][0]] == e
      modifies this`event, evt
      ensures Valid() && t == old(evt.lists)[e][0] && t < |state| && t in old(evt.lists)[e]
      ensures Now() == Unawaited(old(Now()), t)
    {
      hide *;
      Parts();
      NowIs();
      WaitersApart(Now(), e);
      UnawaitedIs(Now(), evt.lists[e][0]);
      t := evt.TakeFirst(e);
      event := event[t := INVALID_ID];
      Intro();
      NowIs();
    }

    /** The chosen task leaves the ready list and runs, the context switch included. */
    method SwitchTo(x: nat)
      requires Valid() && x < |state| && x in rdy.list
      modifies this`state, this`running, rdy
      ensures Valid() && Now() == Switched(old(Now()), x)
    {
      hide *;
      Parts();
      NowIs();
      SwitchedIs(Now(), x);
      rdy.Remove(x);
      state := state[x := TaskRunning];
      running := x;
      Intro();
      NowIs();
    }

    /** Schedule. */
    method Schedule(slice: bool)
      requires Valid() && Sound(Now())
      modifies this`state, this`running, rdy
      ensures Valid() && Now() == Scheduled(old(Now()), slice)
    {
      hide *;
      Parts();
      NowIs();
      ghost var s := Now();
      HeadOfReady(rdy);
      ScheduledIs(s, slice);
      if rdy.head == NIL {
        return;
      }
      var x := rdy.head;
      Ask(false);
      NowIs();
      if state[running] != TaskRunning {
        SwitchTo(x);
      } else if rdy.prio[x] < rdy.prio[running] || (rdy.prio[x] == rdy.prio[running] && slice) {
        Admit(running);
        NowIs();
        SwitchTo(x);
      }
    }

    /** OsSchedUnlock at the end of a call. */
    method Leave(slice: bool)
      requires Valid() && Sound(Now())
      modifies this`state, this`running, rdy
      ensures Valid() && Now() == Left(old(Now()), slice)
    {
      hide *;
      NowIs();
      LeftIs(Now(), slice);
      if lock == 0 {
        if rdy.schedReq {
          Schedule(slice);
        }
      }
    }

    /** A waiting task leaves the lists it waits in. */
    method Detach(t: nat)
      requires Valid() && Sound(Now()) && t < |state| && state[t].TaskWaiting?
      modifies this`event, dly, evt
      ensures Valid() && Now() == Detached(old(Now()), t) && Sound(Now()) && Loose(Now(), t)
    {
      hide *;
      Parts();
      NowIs();
      DetachedIs(Now(), t);
      if event[t] != INVALID_ID {
        Unawait(t);
      }
      Parts();
      NowIs();
      if dly.cnt[t] != INVALID_VALUE {
        StopDelay(t);
      }
    }

    /** Lines 303-361 of event.c, for a semaphore that tasks wait for. */
    method WakeFirst(e: nat)
      requires Valid() && Sound(Now()) && e < |sems| && evt.lists[e] != []
      modifies this`state, this`event, rdy, dly, evt
      ensures Valid() && old(evt.lists)[e][0] < |old(state)| && old(state)[old(evt.lists)[e][0]].TaskWaiting?
      ensures Now() == Roused(old(Now()), old(evt.lists)[e][0])
    {
      hide *;
      Parts();
      NowIs();
      ghost var s := Now();
      InShape(s);
      FirstWaits(s, e);
      DetachedIs(s, evt.lists[e][0]);
      RousedIs(s, evt.lists[e][0]);
      WaitingFor(s, e);
      var t := TakeWaiter(e);
      Parts();
      NowIs();
      if dly.cnt[t] != INVALID_VALUE {
        StopDelay(t);
      }
      Admit(t);
    }

    /** The head of the delay list, which is due, leaves it (lines 335-345 of time.c). */
    method PopDelay() returns (t: nat)
      requires Valid() && Shape(Now()) && dly.list != [] && dly.list[0] < |dly.cnt| && dly.cnt[dly.list[0]] == 0
      modifies dly
      ensures Valid() && t == old(dly.list)[0] && t < |state| && t in old(dly.list) && Now() == Undelayed(old(Now()), t)
    {
      hide *;
      Parts();
      NowIs();
      CountsAre(dly);
      DelayList.FirstCount(dly.cnt, dly.list);
      DelayList.StateIs(dly);
      ghost var l, c := dly.list, dly.cnt;
      FirstApart(Now());
      UndelayedIs(Now(), l[0]);
      t := DelayList.PopDue(dly);
      PopIsRemoval(c, l, dly.cnt);
      Intro();
      NowIs();
    }

    /** TimeDispose: each due task leaves the list of its event and the delay list and becomes ready. */
    method TimeDispose()
      requires Valid() && Sound(Now())
      modifies this`state, this`event, rdy, dly, evt
      ensures Valid() && Now() == Disposed(old(Now()))
    {
      hide *;
      ghost var s := Now();
      while dly.head != NIL
        invariant Valid() && Sound(Now()) && Disposed(Now()) == Disposed(s)
        invariant unchanged(this`free) && unchanged(this`counter) && unchanged(this`running) && unchanged(this`lock)
        invariant unchanged(this`timeReq)
        decreases |dly.list|
      {
        Parts();
        NowIs();
        ghost var u := Now();
        HeadOfDelay(dly);
        InShape(u);
        HeadWaitsIn(u);
        DisposedIs(u);
        var t := dly.head;
        if dly.cnt[t] != 0 {
          break;
        }
        DetachedIs(u, t);
        RousedIs(u, t);
        if event[t] != INVALID_ID {
          Unawait(t);
        }
        Parts();
        NowIs();
        InShape(Now());
        HeadWaitsIn(Now());
        t := PopDelay();
        NowIs();
        Admit(t);
        NowIs();
      }
      Parts();
      NowIs();
      HeadOfDelay(dly);
      InShape(Now());
      DisposedIs(Now());
    }

    /** CreateTask, with its arguments checked: the priority, and whether the task starts waiting. */
    method CreateTask(p: nat, waiting: bool, slice: bool) returns (r: Status, id: nat)
      requires Valid() && Inv(Now())
      modifies this`state, this`free, this`running, rdy
      ensures Valid() && Inv(Now()) && Now() == Created(old(Now()), p, waiting, slice)
      ensures r == (if old(free) == [] then CreateFail else Ok) && (r == Ok ==> id == old(free)[0])
    {
      hide *;
      Parts();
      NowIs();
      CreatedIs(Now(), p, waiting, slice);
      if free == [] {
        return CreateFail, 0;
      }
      var t := free[0];
      free := free[1..];
      state := state[t := TaskWaiting];
      rdy.Reprioritize(t, p);
      Intro();
      NowIs();
      if !waiting {
        Admit(t);
        NowIs();
        Leave(slice);
      }
      return Ok, t;
    }

    /** CoDelTask, for a task that holds and awaits no mutex. */
    method DelTask(t: nat, slice: bool) returns (r: Status)
      requires Valid() && Inv(Now())
      modifies this`state, this`event, this`free, this`running, rdy, dly, evt
      ensures Valid() && Inv(Now()) && Now() == Deleted(old(Now()), t, slice) && r == DeleteStatus(old(Now()), t)
    {
      hide *;
      Parts();
      NowIs();
      DeletedIs(Now(), t, slice);
      if t >= |state| || state[t] == TaskDormant {
        return InvalidId;
      }
      if t == 0 {
        return ProtectedTask;
      }
      if state[t] == TaskRunning && lock != 0 {
        return InLock;
      }
      if state[t] == TaskReady {
        Unready(t, TaskWaiting);
      } else if state[t] == TaskWaiting {
        Detach(t);
      }
      NowIs();
      Parts();
      ghost var u := Now();
      BuriedIs(u, t);
      state := state[t := TaskDormant];
      free := [t] + free;
      NowIs();
      Intro();
      Ask(true);
      NowIs();
      Leave(slice);
      return Ok;
    }

    /** CoSuspendTask. */
    method SuspendTask(t: nat, slice: bool) returns (r: Status)
      requires Valid() && Inv(Now())
      modifies this`state, this`running, rdy
      ensures Valid() && Inv(Now()) && Now() == Suspended(old(Now()), t, slice) && r == SuspendStatus(old(Now()), t)
    {
      hide *;
      Parts();
      NowIs();
      SuspendedIs(Now(), t, slice);
      if t == 0 {
        return ProtectedTask;
      }
      if t >= |state| || state[t] == TaskDormant {
        return InvalidId;
      }
      if lock != 0 {
        return InLock;
      }
      if state[t] == TaskWaiting {
        return AlreadyWaiting;
      }
      if t != running {
        Unready(t, TaskWaiting);
      } else {
        state := state[t := TaskWaiting];
        Intro();
        NowIs();
        Ask(true);
      }
      NowIs();
      Leave(slice);
      return Ok;
    }

    /** CoAwakeTask. */
    method AwakeTask(t: nat, slice: bool) returns (r: Status)
      requires Valid() && Inv(Now())
      modifies this`state, this`running, rdy
      ensures Valid() && Inv(Now()) && Now() == Awoken(old(Now()), t, slice)
      ensures |old(Now()).state| == |old(Now()).tick| == |old(Now()).event| && r == AwakeStatus(old(Now()), t)
    {
      hide *;
      Parts();
      NowIs();
      AwokenIs(Now(), t, slice);
      if t == 0 {
        return ProtectedTask;
      }
      if t >= |state| || state[t] == TaskDormant {
        return InvalidId;
      }
      if state[t] != TaskWaiting {
        return NotWaiting;
      }
      if dly.cnt[t] != INVALID_VALUE || event[t] != INVALID_ID {
        return WaitOther;
      }
      Admit(t);
      NowIs();
      Leave(slice);
      return Ok;
    }

    /** CoTickDelay, called by a task other than the idle one. */
    method TickDelay(n: Tick, slice: bool) returns (r: Status)
      requires Valid() && Inv(Now()) && running != 0 && (DelayStatus(Now(), n) == Ok && n > 0 ==> InTime(Now(), n))
      modifies this`state, this`running, rdy, dly
      ensures Valid() && Inv(Now()) && Now() == Delayed(old(Now()), n, slice) && r == DelayStatus(old(Now()), n)
    {
      hide *;
      Parts();
      NowIs();
      DelayedIs(Now(), n, slice);
      if n == INVALID_VALUE {
        return InvalidParameter;
      }
      if n == 0 {
        return Ok;
      }
      if lock != 0 {
        return InLock;
      }
      StartDelay(running, n);
      NowIs();
      Leave(slice);
      return Ok;
    }

    /** CoPendSem, called by a task other than the idle one; `blocked` tells that the task now waits. */
    method PendSem(e: nat, timeout: Tick, slice: bool) returns (r: Status, blocked: bool)
      requires Valid() && Inv(Now()) && running != 0
      requires PendStatus(Now(), e) == Ok && counter[e] == 0 && timeout > 0 ==> InTime(Now(), timeout)
      modifies this`state, this`event, this`counter, this`running, rdy, dly, evt
      ensures Valid() && Inv(Now()) && Now() == Pended(old(Now()), e, timeout, slice) && r == PendStatus(old(Now()), e)
      ensures blocked <==> r == Ok && e < |old(counter)| && old(counter)[e] == 0
    {
      hide *;
      Parts();
      NowIs();
      PendedIs(Now(), e, timeout, slice);
      if e >= |sems| {
        return InvalidId, false;
      }
      if lock != 0 {
        return InLock, false;
      }
      if counter[e] > 0 {
        Count(e, counter[e] - 1);
        blocked := false;
      } else {
        Await(e, running);
        NowIs();
        if timeout != 0 {
          StartDelay(running, timeout);
        }
        blocked := true;
      }
      NowIs();
      Leave(slice);
      r := Ok;
    }

    /** The counter of a semaphore changes. */
    method Count(e: nat, c: nat)
      requires Valid() && e < |counter|
      modifies this`counter
      ensures Valid() && e < |old(Now()).counter| && Now() == Counted(old(Now()), e, c)
    {
      counter := counter[e := c];
    }

    /** CoAcceptSem. */
    method AcceptSem(e: nat, slice: bool) returns (r: Status)
      requires Valid() && Inv(Now())
      modifies this`state, this`counter, this`running, rdy
      ensures Valid() && Inv(Now()) && Now() == Accepted(old(Now()), e, slice)
      ensures |old(Now()).counter| == |old(Now()).waits| && r == AcceptStatus(old(Now()), e)
    {
      hide *;
      Parts();
      NowIs();
      AcceptedIs(Now(), e, slice);
      if e >= |sems| {
        return InvalidId;
      }
      if counter[e] > 0 {
        Count(e, counter[e] - 1);
        r := Ok;
      } else {
        r := SemEmpty;
      }
      NowIs();
      Leave(slice);
    }

    /** CoPostSem. */
    method PostSem(e: nat, slice: bool) returns (r: Status)
      requires Valid() && Inv(Now())
      modifies this`state, this`event, this`counter, this`running, rdy, dly, evt
      ensures Valid() && Inv(Now()) && Now() == Posted(old(Now()), e, slice)
      ensures |old(Now()).counter| == |old(Now()).waits| == |sems| && r == PostStatus(old(Now()), e)
    {
      hide *;
      Parts();
      NowIs();
      PostedIs(Now(), e, slice);
      if e >= |sems| {
        return InvalidId;
      }
      if counter[e] == sems[e].max {
        return SemFull;
      }
      HeadOfWaits(evt, e);
      if evt.first[e] == NIL {
        Count(e, counter[e] + 1);
      } else {
        WakeFirst(e);
      }
      NowIs();
      Leave(slice);
      return Ok;
    }

    /** SysTick_Handler and isr_TimeDispose, as far as the delay list goes. */
    method SysTick(slice: bool)
      requires Valid() && Inv(Now())
      modifies this`state, this`event, this`running, this`timeReq, rdy, dly, evt
      ensures Valid() && Inv(Now()) && Now() == Ticked(old(Now()), slice)
    {
      hide *;
      Parts();
      NowIs();
      ghost var s := Now();
      TickedIs(s, slice);
      HeadOfDelay(dly);
      if dly.head != NIL {
        var h := dly.head;
        if dly.cnt[h] > 1 {
          Recounted(dly, h, dly.cnt[h] - 1);
          Intro();
          NowIs();
        } else {
          Recounted(dly, h, 0);
          Intro();
          NowIs();
          if lock > 0 {
            timeReq := true;
            Parts();
            Intro();
          } else {
            TimeDispose();
          }
        }
      }
      NowIs();
      Ask(true);
      NowIs();
      Leave(slice);
    }

    /** CoSchedLock. */
    method SchedLock()
      requires Valid() && Inv(Now())
      modifies this`lock
      ensures Valid() && Inv(Now()) && Now() == Locked(old(Now()))
    {
      ghost var s := Locked(Now());
      lock := lock + 1;
      assert Now() == s;
    }

    /** CoSchedUnlock, by the holder of a lock. */
    method SchedUnlock(slice: bool)
      requires Valid() && Inv(Now()) && lock > 0
      modifies this`state, this`event, this`running, this`lock, this`timeReq, rdy, dly, evt
      ensures Valid() && Inv(Now()) && Now() == Unlocked(old(Now()), slice)
    {
      hide *;
      Parts();
      NowIs();
      UnlockedIs(Now(), slice);
      lock := lock - 1;
      Parts();
      Intro();
      NowIs();
      if lock == 0 {
        if timeReq {
          timeReq := false;
          Parts();
          Intro();
          NowIs();
          TimeDispose();
        }
        NowIs();
        Leave(slice);
      }
    }
  }

  lemma SameLength(q: LinearReady)
    requires q.Valid()
    ensures Known(q.prio, q.list)
  {
  }

  lemma LooseIs(s: Sys, t: nat)
    requires Sound(s) && Loose(s, t)
    ensures Shape(s) && t < |s.state| == |s.prio| && t !in s.ready && t !in s.delay && t !in s.free && Nowhere(s.waits, t)
    ensures Known(s.prio, s.ready)
  {
    PlacedAt(s, t);
  }

  lemma AdmittedIs(s: Sys, t: nat)
    requires |s.state| == |s.prio| && t < |s.state| && Known(s.prio, s.ready)
    ensures Admitted(s, t) == s.(state := s.state[t := TaskReady], ready := TaskList.Insert(s.prio, s.ready, t),
                                 schedReq := s.schedReq || TaskList.Insert(s.prio, s.ready, t)[0] == t)
  {
  }

  lemma UnreadiedIs(s: Sys, t: nat, next: TaskState)
    requires t < |s.state| && t in s.ready
    ensures Unreadied(s, t, next) == s.(state := s.state[t := next], ready := RemoveAt(s.ready, IndexOf(s.ready, t)))
  {
  }

  lemma DelayingIs(s: Sys, t: nat, n: Tick)
    requires Shape(s) && t < |s.state|
    ensures |s.tick| == |s.state| && InTable(|s.tick|, s.delay) && forall i | 0 <= i < |s.delay| :: s.delay[i] < |s.tick|
    ensures Delaying(s, t, n) == if n == 0 then s else
              s.(state := s.state[t := TaskWaiting], schedReq := true,
                 delay := InsertAt(s.delay, Stop(Deltas(s.tick, s.delay), n, 0), t), tick := CountsIn(s.tick, s.delay, t, n))
  {
  }

  lemma UndelayedIs(s: Sys, t: nat)
    requires Shape(s) && t < |s.state| && t in s.delay
    ensures |s.tick| == |s.state| && forall i | 0 <= i < |s.delay| :: s.delay[i] < |s.tick|
    ensures var k := IndexOf(s.delay, t);
            Undelayed(s, t) == s.(delay := RemoveAt(s.delay, k), tick := CountsOut(s.tick, s.delay, k)[t := INVALID_VALUE])
  {
  }

  lemma AwaitingIs(s: Sys, e: nat, t: nat)
    requires Shape(s) && t < |s.state| && e < |s.waits|
    ensures |s.sems| == |s.waits| && |s.prio| == |s.event| == |s.state| && Known(s.prio, s.waits[e])
    ensures var l := s.waits[e];
            Awaiting(s, e, t) == s.(state := s.state[t := TaskWaiting], event := s.event[t := e], schedReq := true,
              waits := s.waits[e := if s.sems[e].fifo then InsertAt(l, |l|, t) else TaskList.Insert(s.prio, l, t)])
  {
  }

  lemma UnawaitedIs(s: Sys, t: nat)
    requires Shape(s) && t < |s.state| && 0 <= s.event[t] < |s.waits| && t in s.waits[s.event[t]]
    ensures var l := s.waits[s.event[t]];
            Unawaited(s, t) == s.(event := s.event[t := INVALID_ID], waits := s.waits[s.event[t] := RemoveAt(l, IndexOf(l, t))])
  {
  }

  lemma CountsAre(q: DeltaQueue)
    requires q.Valid()
    ensures (forall i | 0 <= i < |q.list| :: q.list[i] < |q.cnt|) && q.Counts() == Deltas(q.cnt, q.list)
  {
    q.Facts();
  }

  lemma WaitsLength(q: WaitLists)
    requires q.Valid()
    ensures |q.first| == |q.lists|
  {
  }

  lemma WaitersApart(s: Sys, e: nat)
    requires Shape(s) && e < |s.waits| && s.waits[e] != []
    ensures IndexOf(s.waits[e], s.waits[e][0]) == 0 && s.waits[e][0] in s.waits[e]
  {
    KernelRuns.FirstIndex(s.waits[e]);
  }

  lemma SwitchedIs(s: Sys, x: nat)
    requires x < |s.state| && x in s.ready
    ensures Switched(s, x) == s.(state := s.state[x := TaskRunning], ready := RemoveAt(s.ready, IndexOf(s.ready, x)), running := x)
  {
  }

  lemma HeadOfDelay(q: DeltaQueue)
    requires q.Valid()
    ensures q.head == (if q.list == [] then NIL else q.list[0]) && NIL == -1
  {
  }

  lemma ScheduledIs(s: Sys, slice: bool)
    requires Sound(s)
    ensures s.running < |s.state| == |s.prio| && (s.ready == [] ==> Scheduled(s, slice) == s)
    ensures s.ready != [] ==>
      var x, q := s.ready[0], s.(schedReq := false);
      && x in s.ready && x < |s.state| && Sound(q) && Known(q.prio, q.ready)
      && Scheduled(s, slice) ==
           if !s.state[s.running].TaskRunning? then Switched(q, x)
           else if s.prio[x] < s.prio[s.running] || (s.prio[x] == s.prio[s.running] && slice) then
             HeadStays(s, x);
             Switched(Admitted(q, s.running), x)
           else q
    ensures s.ready != [] && s.state[s.running].TaskRunning? && s.prio[s.ready[0]] <= s.prio[s.running] ==>
      && Loose(s.(schedReq := false), s.running)
      && s.ready[0] in Admitted(s.(schedReq := false), s.running).ready
      && |Admitted(s.(schedReq := false), s.running).state| == |s.state|
  {
    PlacedAt(s, s.running);
    if s.ready != [] {
      assert s.ready[0] in s.ready;
      FlagsSound(s, s.(schedReq := false));
      if s.state[s.running].TaskRunning? && s.prio[s.ready[0]] <= s.prio[s.running] {
        RunningIsLoose(s.(schedReq := false));
        HeadStays(s, s.ready[0]);
      }
    }
  }

  lemma LeftIs(s: Sys, slice: bool)
    requires Sound(s)
    ensures Left(s, slice) == if s.lock == 0 && s.schedReq then Scheduled(s, slice) else s
  {
  }

  lemma DetachedIs(s: Sys, t: nat)
    requires Sound(s) && t < |s.state| && s.state[t].TaskWaiting?
    ensures Shape(s) && (s.event[t] != INVALID_ID ==> 0 <= s.event[t] < |s.waits| == |s.sems| && t in s.waits[s.event[t]])
    ensures var a := if s.event[t] != INVALID_ID then Unawaited(s, t) else s;
            && Sound(a) && Shape(a) && |a.tick| == |a.state| == |s.state| && a.tick == s.tick && a.delay == s.delay
            && (t in a.delay <==> a.tick[t] != INVALID_VALUE)
            && Detached(s, t) == if a.tick[t] != INVALID_VALUE then Undelayed(a, t) else a
    ensures Sound(Detached(s, t)) && Loose(Detached(s, t), t)
  {
    PlacedAt(s, t);
    if s.event[t] != INVALID_ID {
      UnawaitSound(s, t);
      PlacedAt(Unawaited(s, t), t);
    }
  }

  lemma RousedIs(s: Sys, t: nat)
    requires Sound(s) && t < |s.state| && s.state[t].TaskWaiting?
    ensures var d := Detached(s, t);
            Sound(d) && Loose(d, t) && |d.state| == |d.prio| && Known(d.prio, d.ready) && Roused(s, t) == Admitted(d, t)
    ensures Sound(Roused(s, t))
  {
    PlacedAt(Detached(s, t), t);
  }

  lemma WaitingFor(s: Sys, e: nat)
    requires Sound(s) && e < |s.waits| && s.waits[e] != []
    ensures s.event[s.waits[e][0]] == e && e < INVALID_ID
  {
    FirstWaits(s, e);
  }

  lemma FirstApart(s: Sys)
    requires Shape(s) && s.delay != []
    ensures IndexOf(s.delay, s.delay[0]) == 0 && s.delay[0] in s.delay && s.delay[0] < |s.state| && Distinct(s.delay)
  {
    KernelRuns.FirstIndex(s.delay);
  }

  /** Taking out a count of 0 changes no other. */
  lemma PopIsRemoval(cnt: seq<Tick>, l: seq<nat>, c: seq<Tick>)
    requires l != [] && (forall i | 0 <= i < |l| :: l[i] < |cnt|) && cnt[l[0]] == 0 && |c| == |cnt| && Distinct(l)
    requires c[l[0]] == INVALID_VALUE && forall x | 0 <= x < |cnt| && x != l[0] :: c[x] == cnt[x]
    ensures c == CountsOut(cnt, l, 0)[l[0] := INVALID_VALUE] && l[1..] == RemoveAt(l, 0)
  {
  }

  lemma HeadWaitsIn(s: Sys)
    requires Sound(s)
    ensures s.delay != [] ==>
      s.delay[0] < |s.state| == |s.tick| && s.state[s.delay[0]].TaskWaiting? && s.tick[s.delay[0]] != INVALID_VALUE
  {
    if s.delay != [] {
      assert s.delay[0] in s.delay;
      PlacedAt(s, s.delay[0]);
    }
  }

  lemma DisposedIs(s: Sys)
    requires Sound(s)
    ensures s.delay == [] ==> Disposed(s) == s
    ensures s.delay != [] ==>
      var t := s.delay[0];
      && t < |s.state| == |s.tick| && s.state[t].TaskWaiting? && |Roused(s, t).delay| == |s.delay| - 1
      && Disposed(s) == if s.tick[t] == 0 then Disposed(Roused(s, t)) else s
  {
    if s.delay != [] {
      HeadWaits(s);
    }
  }

  lemma BuriedIs(s: Sys, t: nat)
    requires t < |s.state|
    ensures Buried(s, t) == s.(state := s.state[t := TaskDormant], free := [t] + s.free, schedReq := true)
  {
  }

  lemma CreatedIs(s: Sys, p: nat, waiting: bool, slice: bool)
    requires Inv(s)
    ensures Inv(Created(s, p, waiting, slice)) && (s.free == [] ==> Created(s, p, waiting, slice) == s)
    ensures s.free != [] ==>
      var t, f := s.free[0], Fresh(s, p);
      && t < |s.state| == |s.prio| && t !in s.ready && Sound(f) && Loose(f, t)
      && f == s.(free := s.free[1..], state := s.state[t := TaskWaiting], prio := s.prio[t := p])
      && |f.state| == |f.prio| && Known(f.prio, f.ready) && Sound(Admitted(f, t))
      && Created(s, p, waiting, slice) == if waiting then f else Left(Admitted(f, t), slice)
  {
    if s.free != [] {
      FreshSound(s, p);
      FreshInv(s, p);
      AdmitPoised(Fresh(s, p), s.free[0]);
    }
  }

  lemma SuspendedIs(s: Sys, t: nat, slice: bool)
    requires Inv(s)
    ensures Inv(Suspended(s, t, slice)) && |s.state| > 0 && s.running < |s.state|
    ensures SuspendStatus(s, t) == if t == 0 then ProtectedTask
                                   else if t >= |s.state| || s.state[t] == TaskDormant then InvalidId
                                   else if s.lock != 0 then InLock
                                   else if s.state[t] == TaskWaiting then AlreadyWaiting else Ok
    ensures SuspendStatus(s, t) != Ok ==> Suspended(s, t, slice) == s
    ensures SuspendStatus(s, t) == Ok ==>
      && t < |s.state| && (t != s.running ==> t in s.ready)
      && var a := if t != s.running then Unreadied(s, t, TaskWaiting)
                  else s.(state := s.state[t := TaskWaiting], schedReq := true);
         Sound(a) && Suspended(s, t, slice) == Left(a, slice)
  {
    if SuspendStatus(s, t) == Ok {
      SuspendPoised(s, t);
    }
  }

  lemma DeletedIs(s: Sys, t: nat, slice: bool)
    requires Inv(s)
    ensures Inv(Deleted(s, t, slice))
    ensures DeleteStatus(s, t) == if t >= |s.state| || s.state[t] == TaskDormant then InvalidId
                                  else if t == 0 then ProtectedTask
                                  else if s.state[t] == TaskRunning && s.lock != 0 then InLock else Ok
    ensures DeleteStatus(s, t) != Ok ==> Deleted(s, t, slice) == s
    ensures Sound(s) && (DeleteStatus(s, t) == Ok ==>
      && t < |s.state| && (s.state[t] == TaskReady ==> t in s.ready)
      && var w := if s.state[t] == TaskReady then Unreadied(s, t, TaskWaiting)
                  else if s.state[t] == TaskWaiting then Detached(s, t) else s;
         t < |w.state| && Sound(Buried(w, t)) && Deleted(s, t, slice) == Left(Buried(w, t), slice))
  {
    if DeleteStatus(s, t) == Ok {
      PlacedAt(s, t);
      BurySound(Withdrawn(s, t), t);
    }
  }

  lemma AwokenIs(s: Sys, t: nat, slice: bool)
    requires Inv(s)
    ensures Inv(Awoken(s, t, slice)) && |s.state| == |s.tick| == |s.event|
    ensures AwakeStatus(s, t) == if t == 0 then ProtectedTask
                                 else if t >= |s.state| || s.state[t] == TaskDormant then InvalidId
                                 else if s.state[t] != TaskWaiting then NotWaiting
                                 else if s.tick[t] != INVALID_VALUE || s.event[t] != INVALID_ID then WaitOther else Ok
    ensures AwakeStatus(s, t) != Ok ==> Awoken(s, t, slice) == s
    ensures AwakeStatus(s, t) == Ok ==>
      && Sound(s) && Loose(s, t) && |s.state| == |s.prio| && t < |s.state| && Known(s.prio, s.ready)
      && Sound(Admitted(s, t)) && Awoken(s, t, slice) == Left(Admitted(s, t), slice)
  {
    if AwakeStatus(s, t) == Ok {
      PlacedAt(s, t);
      AdmitPoised(s, t);
    }
  }

  lemma DelayedIs(s: Sys, n: Tick, slice: bool)
    requires Inv(s) && s.running != 0 && (DelayStatus(s, n) == Ok && n > 0 ==> InTime(s, n))
    ensures Inv(Delayed(s, n, slice))
    ensures DelayStatus(s, n) == if n == INVALID_VALUE then InvalidParameter else if n == 0 then Ok
                                 else if s.lock != 0 then InLock else Ok
    ensures DelayStatus(s, n) != Ok || n == 0 ==> Delayed(s, n, slice) == s
    ensures Shape(s) && s.running < |s.state| && (DelayStatus(s, n) == Ok && n != 0 ==>
      && s.running !in s.delay && Sound(Delaying(s, s.running, n))
      && Delayed(s, n, slice) == Left(Delaying(s, s.running, n), slice))
  {
    if DelayStatus(s, n) == Ok && n != 0 {
      RunningIsLoose(s);
      LooseIs(s, s.running);
      DelaySound(s, s.running, n);
    }
  }

  lemma CountedIs(s: Sys, e: nat, c: nat)
    requires Inv(s) && e < |s.waits| && c <= s.sems[e].max && (c > 0 ==> s.waits[e] == [])
    ensures Sound(Counted(s, e, c))
  {
    CountPoised(s, e, c);
  }

  lemma PendedIs(s: Sys, e: nat, timeout: Tick, slice: bool)
    requires Inv(s) && s.running != 0
    requires PendStatus(s, e) == Ok && s.counter[e] == 0 && timeout > 0 ==> InTime(s, timeout)
    ensures Inv(Pended(s, e, timeout, slice)) && Shape(s) && s.running < |s.state| && |s.counter| == |s.waits|
    ensures PendStatus(s, e) == if e >= |s.waits| then InvalidId else if s.lock != 0 then InLock else Ok
    ensures PendStatus(s, e) != Ok ==> Pended(s, e, timeout, slice) == s
    ensures PendStatus(s, e) == Ok && s.counter[e] > 0 ==>
      Sound(Counted(s, e, s.counter[e] - 1)) && Pended(s, e, timeout, slice) == Left(Counted(s, e, s.counter[e] - 1), slice)
    ensures PendStatus(s, e) == Ok && s.counter[e] == 0 ==>
      && Nowhere(s.waits, s.running)
      && var a := Awaiting(s, e, s.running);
         && Shape(a) && s.running < |a.state| && s.running !in a.delay && Sound(Delaying(a, s.running, timeout))
         && (timeout == 0 ==> Delaying(a, s.running, timeout) == a)
         && Pended(s, e, timeout, slice) == Left(Delaying(a, s.running, timeout), slice)
  {
    if PendStatus(s, e) == Ok {
      if s.counter[e] > 0 {
        CountedIs(s, e, s.counter[e] - 1);
      } else {
        RunningIsLoose(s);
        LooseIs(s, s.running);
        AwaitPoised(s, e, timeout);
      }
    }
  }

  lemma AcceptedIs(s: Sys, e: nat, slice: bool)
    requires Inv(s)
    ensures Inv(Accepted(s, e, slice)) && |s.counter| == |s.waits| && Sound(s)
    ensures AcceptStatus(s, e) == if e >= |s.waits| then InvalidId else if s.counter[e] > 0 then Ok else SemEmpty
    ensures AcceptStatus(s, e) == InvalidId ==> Accepted(s, e, slice) == s
    ensures AcceptStatus(s, e) == SemEmpty ==> Accepted(s, e, slice) == Left(s, slice)
    ensures AcceptStatus(s, e) == Ok ==>
      && s.counter[e] > 0 && Sound(Counted(s, e, s.counter[e] - 1))
      && Accepted(s, e, slice) == Left(Counted(s, e, s.counter[e] - 1), slice)
  {
    if AcceptStatus(s, e) == Ok {
      CountedIs(s, e, s.counter[e] - 1);
    }
  }

  lemma PostedIs(s: Sys, e: nat, slice: bool)
    requires Inv(s)
    ensures Inv(Posted(s, e, slice)) && |s.counter| == |s.waits| == |s.sems| && Sound(s)
    ensures PostStatus(s, e) == if e >= |s.waits| then InvalidId
                                else if s.counter[e] == s.sems[e].max then SemFull else Ok
    ensures PostStatus(s, e) != Ok ==> Posted(s, e, slice) == s
    ensures PostStatus(s, e) == Ok && s.waits[e] == [] ==>
      Sound(Counted(s, e, s.counter[e] + 1)) && Posted(s, e, slice) == Left(Counted(s, e, s.counter[e] + 1), slice)
    ensures PostStatus(s, e) == Ok && s.waits[e] != [] ==>
      && s.waits[e][0] < |s.state| && s.state[s.waits[e][0]].TaskWaiting? && Sound(Roused(s, s.waits[e][0]))
      && Posted(s, e, slice) == Left(Roused(s, s.waits[e][0]), slice)
  {
    if PostStatus(s, e) == Ok {
      if s.waits[e] == [] {
        CountedIs(s, e, s.counter[e] + 1);
      } else {
        FirstWaits(s, e);
      }
    }
  }

  lemma TickedIs(s: Sys, slice: bool)
    requires Inv(s)
    ensures Inv(Ticked(s, slice)) && Shape(s) && |s.tick| == |s.state| && (s.delay != [] ==> s.delay[0] < |s.tick|)
    ensures s.delay == [] ==> Sound(s.(schedReq := true)) && Ticked(s, slice) == Left(s.(schedReq := true), slice)
    ensures s.delay != [] ==>
      var h := s.delay[0];
      var v: Tick := if s.tick[h] > 1 then s.tick[h] - 1 else 0;
      var a := s.(tick := s.tick[h := v]);
      && Sound(a)
      && var b := if s.tick[h] > 1 then a else if s.lock > 0 then a.(timeReq := true) else Disposed(a);
         Sound(b.(schedReq := true)) && Ticked(s, slice) == Left(b.(schedReq := true), slice)
  {
    hide Placed, Ordered, Timely, Settled, Disposed;
    InShape(s);
    CountingPoised(s);
    DisposePoised(Counting(s));
    AskPoised(Counting(s));
    AskPoised(Disposed(Counting(s)));
    if s.lock > 0 {
      AskPoised(Counting(s).(timeReq := true));
    }
    if s.delay != [] {
      assert s.delay[0] in s.delay;
    }
  }

  lemma UnlockedIs(s: Sys, slice: bool)
    requires Inv(s) && s.lock > 0
    ensures Inv(Unlocked(s, slice))
    ensures s.lock > 1 ==> Unlocked(s, slice) == s.(lock := s.lock - 1)
    ensures s.lock == 1 ==>
      var a := s.(lock := 0, timeReq := false);
      Sound(a) && var b := if s.timeReq then Disposed(a) else a;
                  Sound(b) && Unlocked(s, slice) == Left(b, slice)
  {
    FlagsSound(s, s.(lock := 0, timeReq := false));
  }

  lemma HeadOfWaits(q: WaitLists, e: nat)
    requires q.Valid() && e < |q.lists|
    ensures e < |q.first| == |q.lists| && (q.first[e] == NIL <==> q.lists[e] == [])
  {
    q.Facts(e);
  }

  /** The count of one task changes; the links stay. */
  method Recounted(q: DeltaQueue, t: nat, v: Tick)
    requires q.Valid() && t < |q.cnt|
    modifies q`cnt
    ensures q.Valid() && q.cnt == old(q.cnt)[t := v]
  {
    q.cnt := q.cnt[t := v];
  }
}
