/** What each kernel call does, in terms of what can be seen of the tasks: which are dormant, which are active
    (ready or running), and for what and how long the others wait (task.c, time.c, event.c, sem.c, core.c;
    arch.c, SysTick_Handler). */
module KernelEffects {
  import opened Lists
  import opened TaskList
  import opened DeltaList
  import opened DeltaLinks
  import opened ReadyList
  import opened KernelState
  import opened KernelSteps
  import opened KernelCalls

  datatype Ticks = Unlimited | In(n: nat)

  /** A task is neither dormant nor active while it waits; `event` is what it waits for, and `left` the ticks
      until it stops waiting. */
  datatype Seen = Seen(dormant: bool, active: bool, prio: nat, event: int, left: Ticks)

  ghost function TicksLeft(s: Sys, x: nat): Ticks
    requires Shape(s)
  {
    if x in s.delay then In(Due(Deltas(s.tick, s.delay), IndexOf(s.delay, x))) else Unlimited
  }

  ghost function See(s: Sys, x: nat): Seen
    requires Shape(s) && x < |s.state|
  {
    Seen(s.state[x].TaskDormant?, s.state[x].TaskReady? || s.state[x].TaskRunning?, s.prio[x], s.event[x], TicksLeft(s, x))
  }

  /** Nothing is seen to change but task `t`, if there is one of that number. */
  ghost predicate SeesSame(s: Sys, r: Sys, t: nat)
    requires Shape(s) && Shape(r)
  {
    |r.state| == |s.state| && forall x | 0 <= x < |s.state| && x != t :: See(r, x) == See(s, x)
  }

  /** The free entries, waiting lists, semaphores and locks stay. */
  ghost predicate RestSame(s: Sys, r: Sys) {
    r.free == s.free && r.waits == s.waits && r.counter == s.counter && r.sems == s.sems && r.lock == s.lock
  }

  lemma SameDelay(s: Sys, r: Sys, x: nat)
    requires Shape(s) && Shape(r) && x < |s.state| == |r.state| && r.delay == s.delay && r.tick == s.tick
    requires r.prio[x] == s.prio[x] && r.event[x] == s.event[x]
    requires s.state[x].TaskDormant? == r.state[x].TaskDormant?
    requires (s.state[x].TaskReady? || s.state[x].TaskRunning?) == (r.state[x].TaskReady? || r.state[x].TaskRunning?)
    ensures See(r, x) == See(s, x)
  {
  }

  /** A scheduling decision exchanges ready and running tasks only. */
  lemma DecisionSeesSame(s: Sys, slice: bool)
    requires Sound(s)
    ensures Shape(Left(s, slice)) && SeesSame(s, Left(s, slice), |s.state|) && RestSame(s, Left(s, slice))
  {
    hide *;
    var r := Left(s, slice);
    DecisionParts(s, slice);
    InShape(s);
    InShape(r);
    LengthsIs(s);
    forall x | 0 <= x < |s.state| ensures See(r, x) == See(s, x) {
      SameDelay(s, r, x);
    }
    SeesSameIntro(s, r, |s.state|);
  }

  lemma LengthsIs(s: Sys)
    requires Shape(s)
    ensures |s.state| == |s.prio| == |s.event| == |s.tick|
  {
  }

  /** The fields a decision leaves, and the tasks it exchanges. */
  lemma DecisionParts(s: Sys, slice: bool)
    requires Sound(s)
    ensures var r := Left(s, slice);
            && Sound(r) && r == s.(state := r.state, ready := r.ready, running := r.running, schedReq := r.schedReq)
            && |r.state| == |s.state|
            && forall x | 0 <= x < |s.state| ::
                 && s.state[x].TaskDormant? == r.state[x].TaskDormant?
                 && (s.state[x].TaskReady? || s.state[x].TaskRunning?) == (r.state[x].TaskReady? || r.state[x].TaskRunning?)
  {
    if s.lock == 0 && s.schedReq {
      ScheduleSound(s, slice);
      PlacedAt(s, s.running);
      if s.ready != [] {
        PlacedAt(s, s.ready[0]);
        assert s.ready[0] in s.ready;
      }
    }
    hide Sound;
  }

  lemma IndexIs(l: seq<nat>, k: nat)
    requires Distinct(l) && k < |l|
    ensures l[k] in l && IndexOf(l, l[k]) == k
  {
  }

  /** A task keeps its place, or moves up by one, when another is inserted. */
  lemma IndexAfterInsert(l: seq<nat>, k: nat, t: nat, x: nat)
    requires Distinct(l) && k <= |l| && t !in l
    ensures t in InsertAt(l, k, t) && IndexOf(InsertAt(l, k, t), t) == k
    ensures x in l ==> x in InsertAt(l, k, t)
                       && IndexOf(InsertAt(l, k, t), x) == if IndexOf(l, x) < k then IndexOf(l, x) else IndexOf(l, x) + 1
    ensures x in InsertAt(l, k, t) ==> x in l || x == t
  {
    DistinctInsert(l, k, t);
    var r := InsertAt(l, k, t);
    IndexIs(r, k);
    if x in l {
      var i := IndexOf(l, x);
      IndexIs(r, if i < k then i else i + 1);
    }
  }

  lemma IndexAfterRemove(l: seq<nat>, k: nat, x: nat)
    requires Distinct(l) && k < |l|
    ensures x in RemoveAt(l, k) <==> x in l && x != l[k]
    ensures x in RemoveAt(l, k) ==>
              IndexOf(RemoveAt(l, k), x) == if IndexOf(l, x) < k then IndexOf(l, x) else IndexOf(l, x) - 1
    ensures x in RemoveAt(l, k) ==> IndexOf(l, x) != k
  {
    DistinctRemove(l, k);
    if x in l && x != l[k] {
      var i := IndexOf(l, x);
      IndexIs(RemoveAt(l, k), if i < k then i else i - 1);
    }
  }

  /** InsertToTCBRdyList makes the task active. */
  lemma AdmitSees(s: Sys, t: nat)
    requires Sound(s) && Loose(s, t)
    ensures var r := Admitted(s, t);
            Shape(r) && SeesSame(s, r, t) && RestSame(s, r) && See(r, t) == See(s, t).(dormant := false, active := true)
  {
    AdmitSound(s, t);
    PlacedAt(s, t);
    var r := Admitted(s, t);
    forall x | 0 <= x < |s.state| && x != t ensures See(r, x) == See(s, x) {
      SameDelay(s, r, x);
    }
  }

  /** RemoveFromTCBRdyList takes it out of the active ones. */
  lemma UnreadySees(s: Sys, t: nat)
    requires Sound(s) && t < |s.state| && t in s.ready
    ensures var r := Unreadied(s, t, TaskWaiting);
            Shape(r) && SeesSame(s, r, t) && RestSame(s, r) && See(r, t) == See(s, t).(active := false)
  {
    UnreadySound(s, t, TaskWaiting);
    PlacedAt(s, t);
    var r := Unreadied(s, t, TaskWaiting);
    forall x | 0 <= x < |s.state| && x != t ensures See(r, x) == See(s, x) {
      SameDelay(s, r, x);
    }
  }

  /** InsertDelayList gives the task exactly its ticks, and every other delayed task keeps its own. */
  lemma DelaySees(s: Sys, t: nat, n: Tick)
    requires Sound(s) && t < |s.state| && !s.state[t].TaskReady? && !s.state[t].TaskDormant? && s.tick[t] == INVALID_VALUE
    requires 0 < n && InTime(s, n)
    ensures var r := Delaying(s, t, n);
            && Shape(r) && SeesSame(s, r, t) && RestSame(s, r)
            && See(r, t) == See(s, t).(active := false, left := In(n))
  {
    hide *;
    InShape(s);
    DelayDistinct(s);
    DelaySound(s, t, n);
    WaitsForNothing(s, t);
    DelayDues(s, t, n);
    var r, k := Delaying(s, t, n), Stop(Deltas(s.tick, s.delay), n, 0);
    InShape(r);
    IndexAfterInsert(s.delay, k, t, t);
    SeeIs(s, t);
    SeeIs(r, t);
    forall x | 0 <= x < |s.state| && x != t ensures See(r, x) == See(s, x) {
      IndexAfterInsert(s.delay, k, t, x);
      SeeIs(s, x);
      SeeIs(r, x);
    }
    SeesSameIntro(s, r, t);
  }

  lemma SeeIs(s: Sys, x: nat)
    requires Shape(s) && x < |s.state|
    ensures |s.state| == |s.prio| == |s.event|
    ensures x in s.delay ==> IndexOf(s.delay, x) < |Deltas(s.tick, s.delay)| == |s.delay|
    ensures See(s, x) == Seen(s.state[x].TaskDormant?, s.state[x].TaskReady? || s.state[x].TaskRunning?, s.prio[x], s.event[x],
                              if x in s.delay then In(Due(Deltas(s.tick, s.delay), IndexOf(s.delay, x))) else Unlimited)
  {
  }

  lemma SeesSameIntro(s: Sys, r: Sys, t: nat)
    requires Shape(s) && Shape(r) && |r.state| == |s.state| && forall x | 0 <= x < |s.state| && x != t :: See(r, x) == See(s, x)
    requires r.free == s.free && r.waits == s.waits && r.counter == s.counter && r.sems == s.sems && r.lock == s.lock
    ensures SeesSame(s, r, t) && RestSame(s, r)
  {
  }

  lemma DelayDistinct(s: Sys)
    requires Shape(s)
    ensures Distinct(s.delay) && forall i | 0 <= i < |s.delay| :: s.delay[i] < |s.tick|
  {
  }

  lemma WaitsForNothing(s: Sys, t: nat)
    requires Sound(s) && t < |s.state|
    ensures t !in s.delay <==> s.tick[t] == INVALID_VALUE
    ensures |s.tick| == |s.state|
  {
    PlacedAt(s, t);
  }

  /** The list and the due times after a delay. */
  lemma DelayDues(s: Sys, t: nat, n: Tick)
    requires Sound(s) && t < |s.state| && t !in s.delay && 0 < n && InTime(s, n)
    ensures var r, k := Delaying(s, t, n), Stop(Deltas(s.tick, s.delay), n, 0);
            && k <= |s.delay| && r.delay == InsertAt(s.delay, k, t)
            && r == s.(state := s.state[t := TaskWaiting], schedReq := true, delay := r.delay, tick := r.tick)
            && |Deltas(r.tick, r.delay)| == |s.delay| + 1 && |Deltas(s.tick, s.delay)| == |s.delay|
            && Due(Deltas(r.tick, r.delay), k) == n
            && forall i | 0 <= i < |s.delay| ::
                 Due(Deltas(r.tick, r.delay), if i < k then i else i + 1) == Due(Deltas(s.tick, s.delay), i)
  {
    TimelyIs(s);
    BriefInsert(s.tick, s.delay, t, n, s.horizon);
    DeltasLength(s.tick, s.delay);
  }

  /** RemoveDelayList: the task has no ticks to wait for, and every other delayed task keeps its own. */
  lemma UndelaySees(s: Sys, t: nat)
    requires Sound(s) && t < |s.state| && t in s.delay
    ensures var r := Undelayed(s, t);
            Shape(r) && SeesSame(s, r, t) && RestSame(s, r) && See(r, t) == See(s, t).(left := Unlimited)
  {
    hide *;
    InShape(s);
    DelayDistinct(s);
    UndelaySound(s, t);
    UndelayDues(s, t);
    var r, k := Undelayed(s, t), IndexOf(s.delay, t);
    InShape(r);
    IndexAfterRemove(s.delay, k, t);
    SeeIs(s, t);
    SeeIs(r, t);
    forall x | 0 <= x < |s.state| && x != t ensures See(r, x) == See(s, x) {
      IndexAfterRemove(s.delay, k, x);
      SeeIs(s, x);
      SeeIs(r, x);
    }
    SeesSameIntro(s, r, t);
  }

  /** The list and the due times after a task left the delay list. */
  lemma UndelayDues(s: Sys, t: nat)
    requires Sound(s) && t < |s.state| && t in s.delay
    ensures var r, k := Undelayed(s, t), IndexOf(s.delay, t);
            && k < |s.delay| && s.delay[k] == t && r.delay == RemoveAt(s.delay, k)
            && r == s.(delay := r.delay, tick := r.tick)
            && |Deltas(r.tick, r.delay)| == |s.delay| - 1 && |Deltas(s.tick, s.delay)| == |s.delay|
            && forall i | 0 <= i < |s.delay| && i != k ::
                 Due(Deltas(r.tick, r.delay), if i < k then i else i - 1) == Due(Deltas(s.tick, s.delay), i)
  {
    TimelyIs(s);
    BriefRemove(s.tick, s.delay, IndexOf(s.delay, t), s.horizon);
    DeltasLength(s.tick, s.delay);
  }

  /** From `l` to `r` task `t` takes its turn: behind all others, or behind exactly those as urgent. */
  ghost predicate TookTurn(s: Sys, l: seq<nat>, r: seq<nat>, t: nat, fifo: bool)
    requires Known(s.prio, l) && t < |s.prio|
  {
    exists k | 0 <= k <= |l| ::
      && r == l[..k] + [t] + l[k..] && (fifo ==> k == |l|)
      && (!fifo ==> forall j | 0 <= j < |l| :: s.prio[l[j]] <= s.prio[t] <==> j < k)
  }

  /** `r` is `l` without task `t`. */
  ghost predicate Without(l: seq<nat>, r: seq<nat>, t: nat) {
    exists k | 0 <= k < |l| :: l[k] == t && r == l[..k] + l[k + 1..]
  }

  /** EventTaskToWait: the task waits for the event, in its turn. */
  lemma AwaitSees(s: Sys, e: nat, t: nat)
    requires Sound(s) && t < |s.state| && !s.state[t].TaskReady? && !s.state[t].TaskDormant? && s.event[t] == INVALID_ID
    requires e < |s.waits| && s.counter[e] == 0
    ensures var r := Awaiting(s, e, t);
            && Shape(r) && SeesSame(s, r, t) && See(r, t) == See(s, t).(active := false, event := e)
            && r.free == s.free && r.counter == s.counter && r.sems == s.sems && r.lock == s.lock
            && r.waits == s.waits[e := r.waits[e]]
            && Known(s.prio, s.waits[e]) && TookTurn(s, s.waits[e], r.waits[e], t, s.sems[e].fifo)
  {
    AwaitSound(s, e, t);
    PlacedAt(s, t);
    var l, r := s.waits[e], Awaiting(s, e, t);
    ListFits(|s.state|, l, s.prio);
    var k := if s.sems[e].fifo then |l| else Place(s.prio, l, s.prio[t], 0);
    if !s.sems[e].fifo {
      PlaceSplits(s.prio, l, s.prio[t], 0);
    }
    assert r.waits[e] == l[..k] + [t] + l[k..];
    hide Sound;
    forall x | 0 <= x < |s.state| && x != t ensures See(r, x) == See(s, x) {
      SameDelay(s, r, x);
    }
  }

  /** RemoveEventWaittingList: the task waits for no event, and the others keep their turns. */
  lemma UnawaitSees(s: Sys, t: nat)
    requires Sound(s) && t < |s.state| && s.event[t] != INVALID_ID
    ensures 0 <= s.event[t] < |s.waits| && t in s.waits[s.event[t]]
    ensures var e, r := s.event[t], Unawaited(s, t);
            && Shape(r) && SeesSame(s, r, t) && See(r, t) == See(s, t).(event := INVALID_ID)
            && r.free == s.free && r.counter == s.counter && r.sems == s.sems && r.lock == s.lock
            && r.waits == s.waits[e := r.waits[e]] && Without(s.waits[e], r.waits[e], t)
  {
    UnawaitSound(s, t);
    var r, l := Unawaited(s, t), s.waits[s.event[t]];
    var k := IndexOf(l, t);
    assert r.waits[s.event[t]] == l[..k] + l[k + 1..];
    hide Sound;
    forall x | 0 <= x < |s.state| && x != t ensures See(r, x) == See(s, x) {
      SameDelay(s, r, x);
    }
  }

  /** CoSuspendTask refuses the idle task, numbers of no task, locked schedulers and waiting tasks, in this order;
      else the active task waits for nothing in particular. */
  lemma SuspendEffect(s: Sys, t: nat, slice: bool)
    requires Inv(s)
    ensures Shape(s) && SuspendStatus(s, t) ==
            if t == 0 then ProtectedTask
            else if t >= |s.state| || See(s, t).dormant then InvalidId
            else if s.lock > 0 then InLock
            else if !See(s, t).active then AlreadyWaiting
            else Ok
    ensures var r := Suspended(s, t, slice);
            && (SuspendStatus(s, t) != Ok ==> r == s)
            && (SuspendStatus(s, t) == Ok ==>
                  Shape(r) && SeesSame(s, r, t) && RestSame(s, r) && See(r, t) == See(s, t).(active := false))
  {
    if SuspendStatus(s, t) == Ok {
      PlacedAt(s, t);
      SuspendPoised(s, t);
      if t != s.running {
        UnreadySees(s, t);
        Decided(s, Unreadied(s, t, TaskWaiting), t, slice);
      } else {
        StopSees(s);
        Decided(s, s.(state := s.state[t := TaskWaiting], schedReq := true), t, slice);
      }
    }
  }

  /** What is seen before a scheduling decision is seen after it. */
  lemma Decided(s: Sys, a: Sys, t: nat, slice: bool)
    requires Sound(a) && Shape(s) && t < |s.state| && SeesSame(s, a, t)
    ensures var r := Left(a, slice); Shape(r) && SeesSame(s, r, t) && RestSame(a, r) && See(r, t) == See(a, t)
  {
    DecisionSeesSame(a, slice);
  }

  lemma StopSees(s: Sys)
    requires Sound(s) && s.state[s.running].TaskRunning?
    ensures var r := s.(state := s.state[s.running := TaskWaiting], schedReq := true);
            && Shape(r) && SeesSame(s, r, s.running) && RestSame(s, r)
            && See(r, s.running) == See(s, s.running).(active := false)
  {
    StopSound(s, s.(state := s.state[s.running := TaskWaiting], schedReq := true));
  }

  /** CoAwakeTask refuses the idle task, numbers of no task, active tasks and those that wait for an event or for
      ticks; else the task becomes active. */
  lemma AwakeEffect(s: Sys, t: nat, slice: bool)
    requires Inv(s)
    ensures Shape(s) && |s.state| == |s.tick| == |s.event| && AwakeStatus(s, t) ==
            if t == 0 then ProtectedTask
            else if t >= |s.state| || See(s, t).dormant then InvalidId
            else if See(s, t).active then NotWaiting
            else if See(s, t).left != Unlimited || See(s, t).event != 0xFF then WaitOther
            else Ok
    ensures var r := Awoken(s, t, slice);
            && (AwakeStatus(s, t) != Ok ==> r == s)
            && (AwakeStatus(s, t) == Ok ==>
                  Shape(r) && SeesSame(s, r, t) && RestSame(s, r) && See(r, t) == See(s, t).(active := true))
  {
    if t < |s.state| {
      PlacedAt(s, t);
    }
    if AwakeStatus(s, t) == Ok {
      AdmitPoised(s, t);
      AdmitSees(s, t);
      Decided(s, Admitted(s, t), t, slice);
    }
  }

  /** CoCreateTask takes the first free entry, if there is one, for a task of the priority asked for that is
      active, or waits for nothing in particular. */
  lemma CreateEffect(s: Sys, p: nat, waiting: bool, slice: bool)
    requires Inv(s)
    ensures var r := Created(s, p, waiting, slice);
            && Shape(s) && Shape(r)
            && if s.free == [] then r == s
               else
                 && s.free[0] < |s.state| && SeesSame(s, r, s.free[0]) && s.free == [s.free[0]] + r.free
                 && r.waits == s.waits && r.counter == s.counter && r.lock == s.lock
                 && See(r, s.free[0]) == Seen(false, !waiting, p, 0xFF, Unlimited)
  {
    if s.free != [] {
      FreshSound(s, p);
      FreshInv(s, p);
      FreshSees(s, p);
      if !waiting {
        AdmitPoised(Fresh(s, p), s.free[0]);
        AdmitSees(Fresh(s, p), s.free[0]);
        Decided(s, Admitted(Fresh(s, p), s.free[0]), s.free[0], slice);
      }
    }
  }

  lemma FreshSees(s: Sys, p: nat)
    requires Sound(s) && s.free != []
    ensures var t, r := s.free[0], Fresh(s, p);
            && Shape(s) && t < |s.state| && Shape(r) && SeesSame(s, r, t) && See(r, t) == Seen(false, false, p, 0xFF, Unlimited)
  {
    var t, r := s.free[0], Fresh(s, p);
    FreshSound(s, p);
    assert t in s.free;
    PlacedAt(s, t);
    hide Sound;
    forall x | 0 <= x < |s.state| && x != t ensures See(r, x) == See(s, x) {
      SameDelay(s, r, x);
    }
  }

  /** Task `t` leaves the list of the event it waits for, if any; all lists keep their order. */
  ghost predicate LeavesWaits(s: Sys, r: Sys, t: nat)
    requires Shape(s) && t < |s.state|
  {
    && |r.waits| == |s.waits|
    && forall e | 0 <= e < |s.waits| ::
         if s.event[t] == e then Without(s.waits[e], r.waits[e], t) else r.waits[e] == s.waits[e]
  }

  /** A waiting task that leaves the lists it waits in waits for nothing in particular. */
  lemma DetachSees(s: Sys, t: nat)
    requires Sound(s) && t < |s.state| && s.state[t].TaskWaiting?
    ensures var r := Detached(s, t);
            && Shape(s) && Shape(r) && SeesSame(s, r, t) && LeavesWaits(s, r, t)
            && r.free == s.free && r.counter == s.counter && r.sems == s.sems && r.lock == s.lock
            && See(r, t) == See(s, t).(event := 0xFF, left := Unlimited)
  {
    PlacedAt(s, t);
    var a := if s.event[t] != INVALID_ID then Unawaited(s, t) else s;
    if s.event[t] != INVALID_ID {
      UnawaitSound(s, t);
      UnawaitSees(s, t);
    }
    PlacedAt(a, t);
    if a.tick[t] != INVALID_VALUE {
      UndelaySees(a, t);
    }
    hide Sound;
  }

  /** A waiting task that is roused is active and waits for nothing. */
  lemma RouseSees(s: Sys, t: nat)
    requires Sound(s) && t < |s.state| && s.state[t].TaskWaiting?
    ensures var r := Roused(s, t);
            && Shape(s) && Shape(r) && SeesSame(s, r, t) && LeavesWaits(s, r, t)
            && r.free == s.free && r.counter == s.counter && r.sems == s.sems && r.lock == s.lock
            && See(r, t) == See(s, t).(active := true, event := 0xFF, left := Unlimited)
  {
    DetachSees(s, t);
    PlacedAt(s, t);
    PlacedAt(Detached(s, t), t);
    AdmitSees(Detached(s, t), t);
    hide Sound;
  }

  /** CoDelTask refuses numbers of no task, the idle task, and the running task of a locked scheduler; else the
      task's entry is the first free one, and the task waits for nothing. */
  lemma DeleteEffect(s: Sys, t: nat, slice: bool)
    requires Inv(s)
    ensures Shape(s) && DeleteStatus(s, t) ==
            if t >= |s.state| || See(s, t).dormant then InvalidId
            else if t == 0 then ProtectedTask
            else if t == s.running && s.lock > 0 then InLock
            else Ok
    ensures var r := Deleted(s, t, slice);
            && (DeleteStatus(s, t) != Ok ==> r == s)
            && (DeleteStatus(s, t) == Ok ==>
                  && Shape(r) && SeesSame(s, r, t) && LeavesWaits(s, r, t)
                  && r.free == [t] + s.free && r.counter == s.counter && r.sems == s.sems && r.lock == s.lock
                  && See(r, t) == Seen(true, false, s.prio[t], 0xFF, Unlimited))
  {
    if t < |s.state| {
      PlacedAt(s, t);
    }
    if DeleteStatus(s, t) == Ok {
      WithdrawSees(s, t);
      var w := Withdrawn(s, t);
      BurySound(w, t);
      KeepsPoised(s, Buried(w, t));
      BurySees(w, t);
      DecisionSeesSame(Buried(w, t), slice);
    }
  }

  lemma WithdrawSees(s: Sys, t: nat)
    requires Inv(s) && DeleteStatus(s, t) == Ok
    ensures var r := Withdrawn(s, t);
            && Shape(s) && Shape(r) && SeesSame(s, r, t) && LeavesWaits(s, r, t)
            && r.free == s.free && r.counter == s.counter && r.sems == s.sems && r.lock == s.lock
  {
    PlacedAt(s, t);
    if s.state[t].TaskReady? {
      UnreadySees(s, t);
    } else if s.state[t].TaskWaiting? {
      DetachSees(s, t);
    }
  }

  lemma BurySees(s: Sys, t: nat)
    requires Sound(s) && Loose(s, t)
    ensures var r := Buried(s, t);
            && Shape(s) && Shape(r) && SeesSame(s, r, t) && r.free == [t] + s.free
            && r.waits == s.waits && r.counter == s.counter && r.sems == s.sems && r.lock == s.lock
            && See(r, t) == Seen(true, false, s.prio[t], 0xFF, Unlimited)
  {
    BurySound(s, t);
    PlacedAt(s, t);
    var r := Buried(s, t);
    hide Sound;
    forall x | 0 <= x < |s.state| && x != t ensures See(r, x) == See(s, x) {
      SameDelay(s, r, x);
    }
  }

  /** CoTickDelay refuses 0xFFFFFFFF and locked schedulers; else the running task waits exactly the ticks. */
  lemma DelayEffect(s: Sys, n: Tick, slice: bool)
    requires Inv(s) && s.running != 0 && (DelayStatus(s, n) == Ok && n > 0 ==> InTime(s, n))
    ensures DelayStatus(s, n) == if n == 0xFFFF_FFFF then InvalidParameter else if n > 0 && s.lock > 0 then InLock else Ok
    ensures var r := Delayed(s, n, slice);
            && Shape(s) && (DelayStatus(s, n) != Ok || n == 0 ==> r == s)
            && (DelayStatus(s, n) == Ok && n > 0 ==>
                  && Shape(r) && SeesSame(s, r, s.running) && RestSame(s, r)
                  && See(r, s.running) == See(s, s.running).(active := false, left := In(n)))
  {
    if DelayStatus(s, n) == Ok && n > 0 {
      RunningIsLoose(s);
      DelaySound(s, s.running, n);
      DelaySees(s, s.running, n);
      Decided(s, Delaying(s, s.running, n), s.running, slice);
    }
  }

  /** CoPendSem refuses numbers of no semaphore and locked schedulers; else it takes a unit if there is one, and
      otherwise the running task waits for the semaphore in its turn, for the timeout or without limit. */
  lemma PendEffect(s: Sys, e: nat, timeout: Tick, slice: bool)
    requires Inv(s) && s.running != 0
    requires PendStatus(s, e) == Ok && s.counter[e] == 0 && timeout > 0 ==> InTime(s, timeout)
    ensures Shape(s) && PendStatus(s, e) == if e >= |s.sems| then InvalidId else if s.lock > 0 then InLock else Ok
    ensures var r := Pended(s, e, timeout, slice);
            && Shape(r) && r.sems == s.sems && r.lock == s.lock && r.free == s.free
            && (PendStatus(s, e) != Ok ==> r == s)
            && (PendStatus(s, e) == Ok && s.counter[e] > 0 ==>
                  SeesSame(s, r, |s.state|) && r.waits == s.waits && r.counter == s.counter[e := s.counter[e] - 1])
            && (PendStatus(s, e) == Ok && s.counter[e] == 0 ==>
                  && SeesSame(s, r, s.running) && r.counter == s.counter && r.waits == s.waits[e := r.waits[e]]
                  && Known(s.prio, s.waits[e]) && TookTurn(s, s.waits[e], r.waits[e], s.running, s.sems[e].fifo)
                  && See(r, s.running) == See(s, s.running).(active := false, event := e,
                                                            left := if timeout > 0 then In(timeout) else Unlimited))
  {
    if PendStatus(s, e) == Ok {
      if s.counter[e] > 0 {
        PendTakes(s, e, timeout, slice);
      } else {
        PendWaits(s, e, timeout, slice);
      }
    }
    hide Sound, Pended, SeesSame, See, TookTurn;
  }

  lemma PendTakes(s: Sys, e: nat, timeout: Tick, slice: bool)
    requires Inv(s) && s.running != 0 && PendStatus(s, e) == Ok && s.counter[e] > 0
    ensures var r := Pended(s, e, timeout, slice);
            && Shape(s) && Shape(r) && SeesSame(s, r, |s.state|) && r.sems == s.sems && r.lock == s.lock && r.free == s.free
            && r.waits == s.waits && r.counter == s.counter[e := s.counter[e] - 1]
  {
    CountPoised(s, e, s.counter[e] - 1);
    CountSees(s, e, s.counter[e] - 1);
    DecisionSeesSame(Counted(s, e, s.counter[e] - 1), slice);
    hide Sound, See;
  }

  lemma PendWaits(s: Sys, e: nat, timeout: Tick, slice: bool)
    requires Inv(s) && s.running != 0 && PendStatus(s, e) == Ok && s.counter[e] == 0 && (timeout > 0 ==> InTime(s, timeout))
    ensures var r := Pended(s, e, timeout, slice);
            && Shape(s) && Shape(r) && SeesSame(s, r, s.running) && r.sems == s.sems && r.lock == s.lock && r.free == s.free
            && r.counter == s.counter && r.waits == s.waits[e := r.waits[e]]
            && Known(s.prio, s.waits[e]) && TookTurn(s, s.waits[e], r.waits[e], s.running, s.sems[e].fifo)
            && See(r, s.running) == See(s, s.running).(active := false, event := e,
                                                      left := if timeout > 0 then In(timeout) else Unlimited)
  {
    hide *;
    PendParts(s, e, timeout, slice);
    AwaitSees(s, e, s.running);
    var a := Awaiting(s, e, s.running);
    if timeout > 0 {
      DelaySees(a, s.running, timeout);
    }
    NoDelay(a, s.running, timeout);
    DecisionSeesSame(Delaying(a, s.running, timeout), slice);
    PendSeen(s, a, Delaying(a, s.running, timeout), Left(Delaying(a, s.running, timeout), slice));
  }

  /** The parts of a pend that waits. */
  lemma PendParts(s: Sys, e: nat, timeout: Tick, slice: bool)
    requires Inv(s) && s.running != 0 && PendStatus(s, e) == Ok && s.counter[e] == 0 && (timeout > 0 ==> InTime(s, timeout))
    ensures var t, a := s.running, Awaiting(s, e, s.running);
            && Shape(s) && Sound(s) && t < |s.state| && !s.state[t].TaskReady? && !s.state[t].TaskDormant?
            && s.event[t] == INVALID_ID && See(s, t).left == Unlimited && e < |s.waits|
            && Shape(a) && Sound(a) && t < |a.state| && !a.state[t].TaskReady? && !a.state[t].TaskDormant?
            && a.tick[t] == INVALID_VALUE && (timeout > 0 ==> InTime(a, timeout))
            && Sound(Delaying(a, t, timeout)) && Pended(s, e, timeout, slice) == Left(Delaying(a, t, timeout), slice)
  {
    RunningIsLoose(s);
    AwaitPoised(s, e, timeout);
    SeesTicks(s, s.running);
    hide Brief, InTable, SortedBy;
  }

  /** What is seen over the three parts. */
  lemma PendSeen(s: Sys, a: Sys, b: Sys, r: Sys)
    requires Shape(s) && Shape(a) && Shape(b) && Shape(r) && s.running < |s.state|
    requires SeesSame(s, a, s.running) && (b == a || (SeesSame(a, b, s.running) && RestSame(a, b)))
    requires SeesSame(b, r, |b.state|) && RestSame(b, r)
    ensures SeesSame(s, r, s.running) && |b.state| == |r.state| == |s.state| && See(r, s.running) == See(b, s.running)
    ensures r.free == a.free && r.waits == a.waits && r.counter == a.counter && r.sems == a.sems && r.lock == a.lock
  {
    hide Shape, See;
  }

  lemma NoDelay(a: Sys, t: nat, timeout: Tick)
    requires Shape(a) && t < |a.state|
    ensures timeout == 0 ==> Delaying(a, t, timeout) == a
  {
  }

  lemma SeesTicks(s: Sys, t: nat)
    requires Sound(s) && Loose(s, t)
    ensures Shape(s) && See(s, t).left == Unlimited
  {
    PlacedAt(s, t);
  }

  lemma CountSees(s: Sys, e: nat, c: nat)
    requires Sound(s) && e < |s.waits| && c <= s.sems[e].max && (c > 0 ==> s.waits[e] == [])
    ensures var r := Counted(s, e, c);
            Shape(s) && Shape(r) && SeesSame(s, r, |s.state|) && r == s.(counter := s.counter[e := c])
  {
    var r := Counted(s, e, c);
    assert Shape(r);
    hide Sound;
    forall x | 0 <= x < |s.state| ensures See(r, x) == See(s, x) {
      SameDelay(s, r, x);
    }
  }

  /** CoAcceptSem takes a unit when there is one, and never makes a task wait. */
  lemma AcceptEffect(s: Sys, e: nat, slice: bool)
    requires Inv(s)
    ensures |s.counter| == |s.waits| == |s.sems|
    ensures AcceptStatus(s, e) == if e >= |s.sems| then InvalidId else if s.counter[e] > 0 then Ok else SemEmpty
    ensures var r := Accepted(s, e, slice);
            && Shape(s) && Shape(r) && SeesSame(s, r, |s.state|)
            && r.free == s.free && r.waits == s.waits && r.sems == s.sems && r.lock == s.lock
            && r.counter == if AcceptStatus(s, e) == Ok then s.counter[e := s.counter[e] - 1] else s.counter
  {
    if AcceptStatus(s, e) == SemEmpty {
      DecisionSeesSame(s, slice);
    } else if AcceptStatus(s, e) == Ok {
      CountPoised(s, e, s.counter[e] - 1);
      CountSees(s, e, s.counter[e] - 1);
      DecisionSeesSame(Counted(s, e, s.counter[e] - 1), slice);
    }
  }

  /** CoPostSem refuses a semaphore at its maximum; else the first waiting task becomes active and the others keep
      their turns, or with nobody waiting there is one unit more. */
  lemma PostEffect(s: Sys, e: nat, slice: bool)
    requires Inv(s)
    ensures |s.counter| == |s.waits| == |s.sems|
    ensures PostStatus(s, e) == if e >= |s.sems| then InvalidId else if s.counter[e] == s.sems[e].max then SemFull else Ok
    ensures var r := Posted(s, e, slice);
            && Shape(s) && Shape(r) && r.free == s.free && r.sems == s.sems && r.lock == s.lock
            && (PostStatus(s, e) != Ok ==> r == s)
            && (PostStatus(s, e) == Ok && s.waits[e] == [] ==>
                  SeesSame(s, r, |s.state|) && r.waits == s.waits && r.counter == s.counter[e := s.counter[e] + 1])
            && (PostStatus(s, e) == Ok && s.waits[e] != [] ==>
                  var t := s.waits[e][0];
                  && t < |s.state| && SeesSame(s, r, t) && r.counter == s.counter
                  && |r.waits| == |s.waits| && s.waits[e] == [t] + r.waits[e]
                  && (forall i | 0 <= i < |s.waits| && i != e :: r.waits[i] == s.waits[i])
                  && See(r, t) == See(s, t).(active := true, event := 0xFF, left := Unlimited))
  {
    if PostStatus(s, e) == Ok {
      if s.waits[e] == [] {
        CountPoised(s, e, s.counter[e] + 1);
        CountSees(s, e, s.counter[e] + 1);
        DecisionSeesSame(Counted(s, e, s.counter[e] + 1), slice);
      } else {
        FirstWaits(s, e);
        var t := s.waits[e][0];
        RousePoised(s, t);
        RouseSees(s, t);
        FirstLeaves(s, Roused(s, t), e);
        DecisionSeesSame(Roused(s, t), slice);
      }
    }
  }

  lemma FirstLeaves(s: Sys, r: Sys, e: nat)
    requires Shape(s) && e < |s.waits| && s.waits[e] != [] && s.waits[e][0] < |s.state| && s.event[s.waits[e][0]] == e
    requires LeavesWaits(s, r, s.waits[e][0])
    ensures |r.waits| == |s.waits| && s.waits[e] == [s.waits[e][0]] + r.waits[e]
    ensures forall i | 0 <= i < |s.waits| && i != e :: r.waits[i] == s.waits[i]
  {
    var l := s.waits[e];
    var k :| 0 <= k < |l| && l[k] == l[0] && r.waits[e] == l[..k] + l[k + 1..];
    assert k == 0;
  }

  /** The lock counts, and nothing else is seen to change. */
  lemma LockEffect(s: Sys)
    requires Inv(s)
    ensures var r := Locked(s);
            && Shape(s) && Shape(r) && SeesSame(s, r, |s.state|)
            && r.free == s.free && r.waits == s.waits && r.counter == s.counter && r.sems == s.sems
            && r.lock == s.lock + 1 && r.running == s.running && r.ready == s.ready
  {
    var r := Locked(s);
    hide Sound;
    forall x | 0 <= x < |s.state| ensures See(r, x) == See(s, x) {
      SameDelay(s, r, x);
    }
  }

  /** The elements of a list that are not in a set, in their order. */
  ghost function Filter(l: seq<nat>, gone: set<nat>): seq<nat> {
    if l == [] then [] else (if l[0] in gone then [] else [l[0]]) + Filter(l[1..], gone)
  }

  lemma {:induction false} FilterNone(l: seq<nat>, gone: set<nat>)
    requires forall i | 0 <= i < |l| :: l[i] !in gone
    ensures Filter(l, gone) == l
  {
    if l != [] {
      FilterNone(l[1..], gone);
    }
  }

  lemma {:induction false} FilterSame(l: seq<nat>, gone: set<nat>, fewer: set<nat>)
    requires forall i | 0 <= i < |l| :: l[i] in gone <==> l[i] in fewer
    ensures Filter(l, gone) == Filter(l, fewer)
  {
    if l != [] {
      FilterSame(l[1..], gone, fewer);
    }
  }

  /** Taking out one that is to go first. */
  lemma {:induction false} FilterWithout(l: seq<nat>, k: nat, gone: set<nat>)
    requires k < |l| && Distinct(l) && l[k] in gone
    ensures Filter(l[..k] + l[k + 1..], gone - {l[k]}) == Filter(l, gone)
  {
    var r := l[..k] + l[k + 1..];
    if k == 0 {
      assert r == l[1..];
      FilterSame(l[1..], gone, gone - {l[0]});
    } else {
      assert l[1..][k - 1] == l[k];
      FilterWithout(l[1..], k - 1, gone);
      assert r[1..] == l[1..][..k - 1] + l[1..][k..];
      assert r[0] == l[0] != l[k];
    }
  }

  /** The tasks with exactly `d` ticks left to wait. */
  ghost function DueIn(s: Sys, d: nat): set<nat>
    requires Shape(s)
  {
    set x | 0 <= x < |s.state| && TicksLeft(s, x) == In(d)
  }

  ghost function DueTasks(s: Sys): set<nat>
    requires Shape(s)
  {
    DueIn(s, 0)
  }

  ghost function Woken(a: Seen): Seen {
    if a.left == In(0) then a.(active := true, event := 0xFF, left := Unlimited) else a
  }

  /** With a head that is not due, nobody is. */
  lemma NobodyDue(s: Sys)
    requires Sound(s) && !HeadDue(s)
    ensures DueTasks(s) == {}
  {
    forall x | 0 <= x < |s.state| ensures TicksLeft(s, x) != In(0) {
      if x in s.delay {
        FirstIsLeast(s, IndexOf(s.delay, x));
      }
    }
  }

  lemma FirstIsLeast(s: Sys, i: nat)
    requires Sound(s) && i < |s.delay|
    ensures s.delay[0] < |s.tick| && |Deltas(s.tick, s.delay)| == |s.delay|
    ensures s.tick[s.delay[0]] <= Due(Deltas(s.tick, s.delay), i)
    ensures Due(Deltas(s.tick, s.delay), 0) == s.tick[s.delay[0]]
  {
    DelayDistinct(s);
    DeltasLength(s.tick, s.delay);
    var ds := Deltas(s.tick, s.delay);
    DueIs(ds, 0);
    FirstSums(ds, 0);
    FirstSums(ds, i);
  }

  /** Disposal rouses exactly the tasks with no ticks left; the lists of waiting tasks lose those and keep their
      order. */
  lemma {:induction false} DisposeEffect(s: Sys)
    requires Sound(s) && s.state[s.running].TaskRunning?
    ensures var r := Disposed(s);
            && Shape(s) && Shape(r) && |r.state| == |s.state| && |r.waits| == |s.waits|
            && r.free == s.free && r.counter == s.counter && r.sems == s.sems && r.lock == s.lock
            && (forall x | 0 <= x < |s.state| :: See(r, x) == Woken(See(s, x)))
            && forall e | 0 <= e < |s.waits| :: r.waits[e] == Filter(s.waits[e], DueTasks(s))
    decreases |s.delay|
  {
    hide Sound, Disposed, See, Filter, DueIn, HeadDue;
    DisposedStep(s);
    if HeadDue(s) {
      var h := s.delay[0];
      var a := Roused(s, h);
      DisposeEffect(a);
      DueAfter(s, a, h);
      forall e | 0 <= e < |s.waits| ensures Disposed(s).waits[e] == Filter(s.waits[e], DueTasks(s)) {
        WaitsAfter(s, a, h, e);
      }
      forall x | 0 <= x < |s.state| ensures See(Disposed(s), x) == Woken(See(s, x)) {
        assert x != h ==> See(a, x) == See(s, x);
      }
    } else {
      NothingWoken(s);
    }
  }

  /** The head of the list, when it is due, and what is left to do after it. */
  lemma DisposedStep(s: Sys)
    requires Sound(s) && s.state[s.running].TaskRunning?
    ensures Shape(s)
    ensures !HeadDue(s) ==> Disposed(s) == s
    ensures HeadDue(s) ==>
              && s.delay != []
              && var h := s.delay[0];
              && h < |s.state| && s.state[h].TaskWaiting? && TicksLeft(s, h) == In(0)
              && var a := Roused(s, h);
                 && Sound(a) && Shape(a) && a.state[a.running].TaskRunning? && |a.delay| < |s.delay| && Disposed(s) == Disposed(a)
                 && SeesSame(s, a, h) && LeavesWaits(s, a, h)
                 && a.free == s.free && a.counter == s.counter && a.sems == s.sems && a.lock == s.lock
                 && See(a, h) == See(s, h).(active := true, event := 0xFF, left := Unlimited) && See(s, h).left == In(0)
  {
    if HeadDue(s) {
      var h := s.delay[0];
      HeadWaits(s);
      HeadIsDue(s);
      RouseSees(s, h);
      PlacedAt(s, h);
    }
    hide Sound, SeesSame, LeavesWaits;
  }

  lemma HeadIsDue(s: Sys)
    requires Sound(s) && HeadDue(s)
    ensures s.delay[0] < |s.state| && TicksLeft(s, s.delay[0]) == In(0)
  {
    FirstIsLeast(s, 0);
    IndexIs(s.delay, 0);
  }

  lemma DueAfter(s: Sys, a: Sys, h: nat)
    requires Shape(s) && Shape(a) && h < |s.state| && SeesSame(s, a, h) && See(a, h).left == Unlimited && TicksLeft(s, h) == In(0)
    ensures DueTasks(a) == DueTasks(s) - {h} && h in DueTasks(s)
  {
    forall x | 0 <= x < |s.state| && x != h ensures TicksLeft(a, x) == TicksLeft(s, x) {
      assert See(a, x) == See(s, x);
    }
  }

  lemma WaitsAfter(s: Sys, a: Sys, h: nat, e: nat)
    requires Sound(s) && Shape(a) && h < |s.state| && LeavesWaits(s, a, h) && e < |s.waits|
    requires DueTasks(a) == DueTasks(s) - {h} && h in DueTasks(s)
    ensures e < |a.waits| && Filter(a.waits[e], DueTasks(a)) == Filter(s.waits[e], DueTasks(s))
  {
    PlacedAt(s, h);
    var l := s.waits[e];
    if s.event[h] == e {
      var k :| 0 <= k < |l| && l[k] == h && a.waits[e] == l[..k] + l[k + 1..];
      FilterWithout(l, k, DueTasks(s));
    } else {
      FilterSame(l, DueTasks(s), DueTasks(a));
    }
  }

  ghost function Later(a: Seen, d: nat): Seen {
    if a.left.In? then a.(left := In(if a.left.n >= d then a.left.n - d else 0)) else a
  }

  /** A tick is counted unless tasks that are due have been put off. */
  ghost function TickCounts(s: Sys): nat
    requires Shape(s)
  {
    if DueTasks(s) == {} then 1 else 0
  }

  lemma HeadDueIs(s: Sys)
    requires Sound(s)
    ensures HeadDue(s) <==> DueTasks(s) != {}
  {
    if HeadDue(s) {
      HeadIsDue(s);
      assert s.delay[0] in DueTasks(s);
    } else {
      NobodyDue(s);
    }
  }

  /** The tick of the delay list takes one tick from every delayed task. */
  lemma CountingSees(s: Sys)
    requires Sound(s) && Sound(Counting(s))
    ensures var r, d := Counting(s), TickCounts(s);
            && Shape(s) && Shape(r) && r == s.(tick := r.tick) && |r.tick| == |s.tick|
            && (forall x | 0 <= x < |s.state| :: See(r, x) == Later(See(s, x), d))
            && DueTasks(r) == DueIn(s, d)
  {
    HeadDueIs(s);
    var r, d := Counting(s), TickCounts(s);
    if s.delay != [] {
      forall i | 0 <= i < |s.delay| ensures Due(Deltas(r.tick, r.delay), i) == Due(Deltas(s.tick, s.delay), i) - d >= 0 {
        CountingDue(s, i);
      }
    }
    hide Sound, Due, Deltas;
    forall x | 0 <= x < |s.state| ensures See(r, x) == Later(See(s, x), d) && (TicksLeft(r, x) == In(0) <==> TicksLeft(s, x) == In(d)) {
    }
  }

  lemma CountingDue(s: Sys, i: nat)
    requires Sound(s) && Sound(Counting(s)) && i < |s.delay|
    ensures var r, d := Counting(s), if HeadDue(s) then 0 else 1;
            && |Deltas(r.tick, r.delay)| == |Deltas(s.tick, s.delay)| == |s.delay|
            && Due(Deltas(r.tick, r.delay), i) == Due(Deltas(s.tick, s.delay), i) - d
  {
    FirstIsLeast(s, i);
    var r, h := Counting(s), s.delay[0];
    var ds, v := Deltas(s.tick, s.delay), r.tick[h];
    assert Deltas(r.tick, r.delay) == ds[0 := v];
    DelayRuns.SumHead(ds, v, i + 1);
  }

  /** From `s` to `r` `d` ticks have passed: every delayed task has that many less, and without a lock of the
      application those with none left are active and have left all lists.  Under a lock they stay, and the
      disposal is asked for. */
  ghost predicate TickSeen(s: Sys, r: Sys, d: nat)
    requires Shape(s) && Shape(r)
  {
    && |r.state| == |s.state| && |r.waits| == |s.waits|
    && r.free == s.free && r.counter == s.counter && r.sems == s.sems && r.lock == s.lock
    && (s.lock == 0 ==>
          && (forall x | 0 <= x < |s.state| :: See(r, x) == Woken(Later(See(s, x), d)))
          && forall e | 0 <= e < |s.waits| :: r.waits[e] == Filter(s.waits[e], DueIn(s, d)))
    && (s.lock > 0 ==>
          && (forall x | 0 <= x < |s.state| :: See(r, x) == Later(See(s, x), d))
          && r.waits == s.waits && r.timeReq == (s.timeReq || DueIn(s, d) != {}))
  }

  /** SysTick_Handler: every delayed task has one tick less, and those with none left become active.  Under a lock of
      the application they stay, the disposal is asked for, and later ticks are not counted until it is served. */
  lemma TickEffect(s: Sys, slice: bool)
    requires Inv(s)
    ensures Shape(s) && Shape(Ticked(s, slice)) && TickSeen(s, Ticked(s, slice), TickCounts(s))
  {
    TickParts(s, slice);
    hide *;
    CountingSees(s);
    var a := Counting(s);
    HeadDueIs(a);
    DisposeEffect(a);
    if !HeadDue(a) {
      NothingWoken(a);
    }
    var b := if !HeadDue(a) then a else if s.lock > 0 then a.(timeReq := true) else Disposed(a);
    FlagsSee(a, b, slice);
    SeesSameAll(a, b);
    TickIntro(s, a, b, Ticked(s, slice));
  }

  lemma TickIntro(s: Sys, a: Sys, b: Sys, r: Sys)
    requires Shape(s) && Shape(a) && Shape(b) && Shape(r) && a == s.(tick := a.tick)
    requires forall x | 0 <= x < |s.state| :: See(a, x) == Later(See(s, x), TickCounts(s))
    requires DueTasks(a) == DueIn(s, TickCounts(s)) && (HeadDue(a) <==> DueTasks(a) != {})
    requires SeesSame(b, r, |b.state|) && RestSame(b, r) && r.timeReq == b.timeReq
    requires |b.state| == |s.state| && |b.waits| == |s.waits|
    requires b.free == s.free && b.counter == s.counter && b.sems == s.sems && b.lock == s.lock
    requires s.lock == 0 ==> forall x | 0 <= x < |s.state| :: See(b, x) == Woken(See(a, x))
    requires s.lock == 0 ==> forall e | 0 <= e < |s.waits| :: b.waits[e] == Filter(a.waits[e], DueTasks(a))
    requires s.lock > 0 ==> SeesSame(a, b, |a.state|) && b.waits == a.waits && b.timeReq == (a.timeReq || HeadDue(a))
    ensures TickSeen(s, r, TickCounts(s))
  {
    hide Shape, See, Filter, DueIn, HeadDue, TickCounts, Woken, Later;
  }

  lemma SeesSameAll(s: Sys, r: Sys)
    requires Shape(s) && Shape(r)
    ensures s == r ==> SeesSame(s, r, |s.state|)
    ensures SeesSame(s, r, |s.state|) ==> |r.state| == |s.state|
    ensures RestSame(s, r) ==> r.free == s.free && r.waits == s.waits && r.counter == s.counter && r.sems == s.sems && r.lock == s.lock
  {
  }

  /** The parts of a tick. */
  lemma TickParts(s: Sys, slice: bool)
    requires Inv(s)
    ensures Sound(Counting(s))
    ensures var a := Counting(s);
            var b := if !HeadDue(a) then a else if s.lock > 0 then a.(timeReq := true) else Disposed(a);
            && Sound(s) && Sound(a) && a.state[a.running].TaskRunning? && a.lock == s.lock && a.timeReq == s.timeReq
            && Poised(b) && Poised(b.(schedReq := true)) && Ticked(s, slice) == Left(b.(schedReq := true), slice)
  {
    CountingPoised(s);
    var a := Counting(s);
    DisposePoised(a);
    var b := if !HeadDue(a) then a else if s.lock > 0 then a.(timeReq := true) else Disposed(a);
    AskPoised(a);
    AskPoised(b);
    hide Sound, Poised;
  }

  lemma NothingWoken(s: Sys)
    requires Sound(s) && !HeadDue(s)
    ensures Shape(s) && (forall x | 0 <= x < |s.state| :: Woken(See(s, x)) == See(s, x))
    ensures forall e | 0 <= e < |s.waits| :: Filter(s.waits[e], DueTasks(s)) == s.waits[e]
  {
    NobodyDue(s);
    forall x | 0 <= x < |s.state| ensures Woken(See(s, x)) == See(s, x) {
      assert x !in DueTasks(s);
    }
    forall e | 0 <= e < |s.waits| ensures Filter(s.waits[e], DueTasks(s)) == s.waits[e] {
      FilterNone(s.waits[e], {});
    }
  }

  /** The requests are not seen, nor is the decision. */
  lemma FlagsSee(a: Sys, b: Sys, slice: bool)
    requires Sound(a) && Poised(b) && Poised(b.(schedReq := true))
    ensures var r := Left(b.(schedReq := true), slice);
            && Shape(b) && Shape(r) && SeesSame(b, r, |b.state|) && RestSame(b, r) && r.timeReq == b.timeReq
    ensures b == a.(timeReq := b.timeReq) ==> Shape(a) && SeesSame(a, b, |a.state|) && RestSame(a, b)
  {
    var q := b.(schedReq := true);
    DecisionSeesSame(q, slice);
    hide Sound;
    forall x | 0 <= x < |b.state| ensures See(q, x) == See(b, x) {
      SameDelay(b, q, x);
    }
    if b == a.(timeReq := b.timeReq) {
      forall x | 0 <= x < |a.state| ensures See(b, x) == See(a, x) {
        SameDelay(a, b, x);
      }
    }
  }

  /** CoSchedUnlock: one lock less; the last one's end rouses the tasks whose disposal was put off. */
  lemma UnlockEffect(s: Sys, slice: bool)
    requires Inv(s) && s.lock > 0
    ensures var r := Unlocked(s, slice);
            && Shape(s) && Shape(r) && |r.state| == |s.state| && |r.waits| == |s.waits|
            && r.free == s.free && r.counter == s.counter && r.sems == s.sems && r.lock == s.lock - 1
            && (s.lock == 1 && s.timeReq ==>
                  && (forall x | 0 <= x < |s.state| :: See(r, x) == Woken(See(s, x)))
                  && forall e | 0 <= e < |s.waits| :: r.waits[e] == Filter(s.waits[e], DueTasks(s)))
            && (s.lock > 1 || !s.timeReq ==> r.waits == s.waits && forall x | 0 <= x < |s.state| :: See(r, x) == See(s, x))
  {
    if s.lock > 1 {
      LockSees(s, s.(lock := s.lock - 1));
    } else {
      var a := s.(lock := 0, timeReq := false);
      LockSees(s, a);
      DisposePoised(a);
      DisposeEffect(a);
      var b := if s.timeReq then Disposed(a) else a;
      DecisionSeesSame(b, slice);
      hide Sound, Disposed, Inv, Poised;
    }
  }

  lemma LockSees(s: Sys, r: Sys)
    requires Sound(s) && r == s.(lock := r.lock, timeReq := r.timeReq)
    ensures Sound(r) && Shape(s) && Shape(r) && SeesSame(s, r, |s.state|) && DueTasks(r) == DueTasks(s)
  {
    FlagsSound(s, r);
    hide Sound;
    forall x | 0 <= x < |s.state| ensures See(r, x) == See(s, x) {
      SameDelay(s, r, x);
    }
  }

  /** The scheduler's decision.  The running task goes on while it is in state running and no ready task goes before
      it: a more urgent one, or one as urgent when its time slice is over.  Otherwise the head of the ready
      list runs, and a task that was still running goes behind exactly the ready ones as urgent as itself. */
  lemma ScheduleDecides(s: Sys, slice: bool)
    requires Sound(s)
    ensures var r, c, l := Scheduled(s, slice), s.running, s.ready;
            && Known(s.prio, l) && c < |s.prio|
            && var still := s.state[c].TaskRunning?;
               if l == [] || (still && s.prio[c] <= s.prio[l[0]] && !(slice && s.prio[c] == s.prio[l[0]]))
               then r.running == c && r.ready == l && r.state == s.state
               else
                 && r.running == l[0] && l[0] < |s.state| == |r.state| && r.state[l[0]].TaskRunning?
                 && if still then TookTurn(s, l[1..], r.ready, c, false) && r.state[c].TaskReady? else r.ready == l[1..]
  {
    PlacedAt(s, s.running);
    ListFits(|s.state|, s.ready, s.prio);
    if s.ready != [] {
      var x, q, c := s.ready[0], s.(schedReq := false), s.running;
      IndexIs(s.ready, 0);
      if s.state[c].TaskRunning? && (s.prio[x] < s.prio[c] || (s.prio[x] == s.prio[c] && slice)) {
        BehindHead(s);
      } else {
        assert RemoveAt(s.ready, 0) == s.ready[1..];
      }
    }
  }

  lemma BehindHead(s: Sys)
    requires Sound(s) && s.ready != [] && s.state[s.running].TaskRunning?
    requires s.ready[0] < |s.prio| && s.running < |s.prio| && s.prio[s.ready[0]] <= s.prio[s.running]
    ensures var l, x, c := s.ready, s.ready[0], s.running;
            && Known(s.prio, l) && x in TaskList.Insert(s.prio, l, c) && c != x
            && var r := RemoveAt(TaskList.Insert(s.prio, l, c), IndexOf(TaskList.Insert(s.prio, l, c), x));
               Known(s.prio, l[1..]) && TookTurn(s, l[1..], r, c, false)
  {
    PlacedAt(s, s.running);
    ListFits(|s.state|, s.ready, s.prio);
    ReadyDistinct(s);
    BehindFirst(s, s.ready, s.running);
  }

  lemma ReadyDistinct(s: Sys)
    requires Sound(s)
    ensures Distinct(s.ready) && SortedBy(s.prio, s.ready)
  {
  }

  lemma BehindFirst(s: Sys, l: seq<nat>, c: nat)
    requires SortedBy(s.prio, l) && Distinct(l) && l != [] && c !in l && c < |s.prio| && s.prio[l[0]] <= s.prio[c]
    ensures Known(s.prio, l) && l[0] in TaskList.Insert(s.prio, l, c) && c != l[0]
    ensures var i := TaskList.Insert(s.prio, l, c);
            Known(s.prio, l[1..]) && TookTurn(s, l[1..], RemoveAt(i, IndexOf(i, l[0])), c, false)
  {
    var k := Place(s.prio, l, s.prio[c], 0);
    PlaceSplits(s.prio, l, s.prio[c], 0);
    DistinctInsert(l, k, c);
    var i := InsertAt(l, k, c);
    IndexIs(i, 0);
    IndexIs(l, 0);
    assert k > 0 && i[0] == l[0];
    hide SortedBy, Place, Distinct;
    TailSplit(l, k, c);
  }

  lemma TailSplit(l: seq<nat>, k: nat, c: nat)
    requires 0 < k <= |l|
    ensures RemoveAt(InsertAt(l, k, c), 0) == l[1..][..k - 1] + [c] + l[1..][k - 1..]
  {
  }
}
