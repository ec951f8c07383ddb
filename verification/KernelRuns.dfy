/** Every run of kernel calls (task.c, time.c, event.c, sem.c, core.c; arch.c): places, scheduling and
    semaphore units. */
module KernelRuns {
  import opened Lists
  import opened TaskList
  import opened DeltaList
  import opened DeltaLinks
  import opened ReadyList
  import opened KernelState
  import opened KernelSteps
  import opened KernelCalls
  import TimerRuns

  datatype Call =
    | Create(p: nat, waiting: bool) | Delete(t: nat) | Suspend(t: nat) | Awake(t: nat) | Delay(n: Tick)
    | Pend(e: nat, timeout: Tick) | Accept(e: nat) | Post(e: nat) | SysTick | Lock | Unlock

  /** A call, and whether the running task's time slice is over when it ends. */
  datatype Event = Event(call: Call, slice: bool)

  /** What the kernel asks of its callers: the idle task neither delays nor pends, a time that goes into the
      delay list is one the search there reads right, and a lock is released by its holder. */
  ghost predicate Allowed(s: Sys, c: Call)
    requires Inv(s)
  {
    match c
    case Delay(n) => s.running != 0 && (DelayStatus(s, n) == Ok && n > 0 ==> InTime(s, n))
    case Pend(e, timeout) =>
      s.running != 0 && (PendStatus(s, e) == Ok && s.counter[e] == 0 && timeout > 0 ==> InTime(s, timeout))
    case Unlock => s.lock > 0
    case _ => true
  }

  /** While the application keeps to times below 2^31, every one of them is read right. */
  lemma ShortTimesAllowed(s: Sys, c: Call)
    requires Inv(s) && s.horizon <= HALF
    requires c.Delay? ==> s.running != 0 && (c.n < s.horizon || c.n == INVALID_VALUE)
    requires c.Pend? ==> s.running != 0 && c.timeout < s.horizon
    requires c.Unlock? ==> s.lock > 0
    ensures Allowed(s, c)
  {
    match c
    case Delay(n) =>
      if n < s.horizon {
        ShortIsInTime(s, n);
      }
    case Pend(_, timeout) => ShortIsInTime(s, timeout);
    case _ =>
  }

  ghost function Step(s: Sys, v: Event): (r: Sys)
    requires Inv(s) && Allowed(s, v.call)
    ensures Inv(r)
  {
    match v.call
    case Create(p, waiting) => Created(s, p, waiting, v.slice)
    case Delete(t) => Deleted(s, t, v.slice)
    case Suspend(t) => Suspended(s, t, v.slice)
    case Awake(t) => Awoken(s, t, v.slice)
    case Delay(n) => Delayed(s, n, v.slice)
    case Pend(e, timeout) => Pended(s, e, timeout, v.slice)
    case Accept(e) => Accepted(s, e, v.slice)
    case Post(e) => Posted(s, e, v.slice)
    case SysTick => Ticked(s, v.slice)
    case Lock => Locked(s)
    case Unlock => Unlocked(s, v.slice)
  }

  ghost predicate AllowedRun(s: Sys, vs: seq<Event>)
    requires Inv(s)
    decreases |vs|
  {
    vs == [] || (Allowed(s, vs[0].call) && AllowedRun(Step(s, vs[0]), vs[1..]))
  }

  ghost function Run(s: Sys, vs: seq<Event>): (r: Sys)
    requires Inv(s) && AllowedRun(s, vs)
    ensures Inv(r)
    decreases |vs|
  {
    if vs == [] then s else Run(Step(s, vs[0]), vs[1..])
  }

  /** The task table when CoStartOS hands over to the idle task: all other entries free. */
  ghost function Started(n: nat, idle: nat, sems: seq<Semaphore>, counter: seq<nat>, horizon: nat): Sys
    requires 0 < n
  {
    Sys(seq(n, i => if i == 0 then TaskRunning else TaskDormant), seq(n, i => idle), seq(n, i => INVALID_VALUE),
        seq(n, i => INVALID_ID), seq(n - 1, i => i + 1), [], [], seq(|sems|, i => []),
        counter, sems, 0, 0, false, false, horizon)
  }

  lemma StartedInv(n: nat, idle: nat, sems: seq<Semaphore>, counter: seq<nat>, horizon: nat)
    requires 0 < n && horizon <= INVALID_VALUE && |counter| == |sems| <= INVALID_ID && forall e | 0 <= e < |sems| :: counter[e] <= sems[e].max
    ensures Inv(Started(n, idle, sems, counter, horizon))
  {
    var s := Started(n, idle, sems, counter, horizon);
    forall t | 0 <= t < n ensures Fits(s, t) {
      if t > 0 {
        assert s.free[t - 1] == t;
      }
    }
    assert Shape(s);
  }

  /** How many of the four places hold task `t`. */
  ghost function Places(s: Sys, t: nat): nat
    requires t < |s.state|
  {
    (if t in s.free then 1 else 0) + (if t in s.ready then 1 else 0) + (if t == s.running then 1 else 0)
      + (if s.state[t].TaskWaiting? then 1 else 0)
  }

  /** Task `t` is in exactly one place; it is in the delay list exactly when its delay count is valid and in
      the list of exactly the event it names, both only while it waits. */
  ghost predicate InOnePlace(s: Sys, t: nat)
    requires Shape(s) && t < |s.state|
  {
    && Places(s, t) == 1
    && (t in s.delay <==> s.tick[t] != INVALID_VALUE)
    && (t in s.delay || s.event[t] != INVALID_ID ==> s.state[t].TaskWaiting?)
    && (s.event[t] != INVALID_ID ==> 0 <= s.event[t] < |s.waits|)
    && forall e | 0 <= e < |s.waits| :: t in s.waits[e] <==> s.event[t] == e
  }

  lemma OnePlace(s: Sys, t: nat)
    requires Inv(s) && t < |s.state|
    ensures InOnePlace(s, t)
  {
    PlacedAt(s, t);
    assert t == s.running ==> s.state[t].TaskRunning?;
  }

  /** In every state of every run each task is in exactly one place, and no ready task is more urgent than
      the running one unless the application holds the scheduler locked. */
  lemma EveryTaskInOnePlace(s: Sys, vs: seq<Event>)
    requires Inv(s) && AllowedRun(s, vs)
    ensures var r := Run(s, vs);
            && Shape(r) && r.state[r.running].TaskRunning? && SortedBy(r.prio, r.ready)
            && (forall t | 0 <= t < |r.state| :: InOnePlace(r, t))
            && (r.lock == 0 ==> forall t | t in r.ready :: t < |r.prio| && r.prio[r.running] <= r.prio[t])
  {
    var r := Run(s, vs);
    forall t | 0 <= t < |r.state| ensures InOnePlace(r, t) {
      OnePlace(r, t);
    }
  }

  /** What a call takes from semaphore `e`: a pend or accept that finds a unit, a post that serves a waiter. */
  ghost function Takes(s: Sys, c: Call, e: nat): nat
    requires Inv(s) && e < |s.waits|
  {
    match c
    case Pend(i, _) => if i == e && PendStatus(s, e) == Ok && s.counter[e] > 0 then 1 else 0
    case Accept(i) => if i == e && AcceptStatus(s, e) == Ok then 1 else 0
    case Post(i) => if i == e && PostStatus(s, e) == Ok && s.waits[e] != [] then 1 else 0
    case _ => 0
  }

  ghost function Gives(s: Sys, c: Call, e: nat): nat
    requires Inv(s) && e < |s.waits|
  {
    if c == Post(e) && PostStatus(s, e) == Ok then 1 else 0
  }

  lemma StepCounts(s: Sys, v: Event, e: nat)
    requires Inv(s) && Allowed(s, v.call) && e < |s.waits|
    ensures var r := Step(s, v);
            && |r.waits| == |s.waits| && r.sems == s.sems && e < |r.counter|
            && r.counter[e] + Takes(s, v.call, e) == s.counter[e] + Gives(s, v.call, e)
  {
    hide Inv, Created, Deleted, Suspended, Awoken, Delayed, Pended, Accepted, Posted, Ticked, Locked, Unlocked;
    UnitsInShape(s);
  }

  lemma UnitsInShape(s: Sys)
    requires Inv(s)
    ensures |s.counter| == |s.waits| == |s.sems|
  {
  }

  ghost function Taken(s: Sys, vs: seq<Event>, e: nat): nat
    requires Inv(s) && AllowedRun(s, vs) && e < |s.waits|
    decreases |vs|
  {
    if vs == [] then 0
    else
      StepCounts(s, vs[0], e);
      Takes(s, vs[0].call, e) + Taken(Step(s, vs[0]), vs[1..], e)
  }

  ghost function Given(s: Sys, vs: seq<Event>, e: nat): nat
    requires Inv(s) && AllowedRun(s, vs) && e < |s.waits|
    decreases |vs|
  {
    if vs == [] then 0
    else
      StepCounts(s, vs[0], e);
      Gives(s, vs[0].call, e) + Given(Step(s, vs[0]), vs[1..], e)
  }

  /** Over every run, timeouts, deletions and scheduling included: the units a semaphore started with and
      those posted are the units taken and those left, never more than its maximum, and tasks wait only
      when none is left. */
  lemma {:induction false} UnitsConserved(s: Sys, vs: seq<Event>, e: nat)
    requires Inv(s) && AllowedRun(s, vs) && e < |s.waits|
    ensures var r := Run(s, vs);
            && e < |r.counter| == |r.waits| && r.sems == s.sems && e < |r.sems|
            && s.counter[e] + Given(s, vs, e) == Taken(s, vs, e) + r.counter[e]
            && r.counter[e] <= r.sems[e].max && (r.waits[e] != [] ==> r.counter[e] == 0)
    decreases |vs|
  {
    hide Inv, Step, Takes, Gives;
    if vs == [] {
      UnitsInBounds(s, e);
    } else {
      StepCounts(s, vs[0], e);
      UnitsConserved(Step(s, vs[0]), vs[1..], e);
    }
  }

  lemma UnitsInBounds(s: Sys, e: nat)
    requires Inv(s) && e < |s.waits|
    ensures e < |s.counter| == |s.waits| == |s.sems| && s.counter[e] <= s.sems[e].max
    ensures s.waits[e] != [] ==> s.counter[e] == 0
  {
  }

  /** A post serves the task that came first, or the first among the most urgent ones; it becomes ready, and
      perhaps runs at once, and the others keep their turn. */
  lemma PostServesTheFirst(s: Sys, e: nat, slice: bool)
    requires Inv(s) && PostStatus(s, e) == Ok && s.waits[e] != []
    ensures var x, r := s.waits[e][0], Posted(s, e, slice);
            && r.waits == s.waits[e := s.waits[e][1..]]
            && (x in r.ready || x == r.running) && x !in r.delay
            && (!s.sems[e].fifo ==> forall t | t in s.waits[e] :: t < |s.prio| && x < |s.prio| && s.prio[x] <= s.prio[t])
  {
    FirstWaits(s, e);
    var x, l := s.waits[e][0], s.waits[e];
    PlacedAt(s, x);
    FirstIndex(l);
    RousePoised(s, x);
    AdmittedIn(s, x);
    ScheduleKeeps(Roused(s, x), slice, x);
    if !s.sems[e].fifo {
      forall t | t in l ensures t < |s.prio| && s.prio[x] <= s.prio[t] {
        var i :| 0 <= i < |l| && l[i] == t;
        assert i > 0 ==> s.prio[l[0]] <= s.prio[l[i]];
      }
    }
  }

  lemma FirstIndex(l: seq<nat>)
    requires l != [] && Distinct(l)
    ensures IndexOf(l, l[0]) == 0 && RemoveAt(l, 0) == l[1..]
  {
  }

  lemma AdmittedIn(s: Sys, x: nat)
    requires Sound(s) && x < |s.state| && s.state[x].TaskWaiting?
    ensures x in Roused(s, x).ready && x !in Roused(s, x).delay
  {
    PlacedAt(Roused(s, x), x);
  }

  lemma ScheduleKeeps(s: Sys, slice: bool, x: nat)
    requires Sound(s) && x in s.ready && x !in s.delay
    ensures x in Left(s, slice).ready || x == Left(s, slice).running
    ensures x !in Left(s, slice).delay && Left(s, slice).waits == s.waits
  {
    ScheduleSound(s, slice);
    assert x < |s.state| by {
      var i :| 0 <= i < |s.ready| && s.ready[i] == x;
    }
    PlacedAt(s, x);
    PlacedAt(Left(s, slice), x);
  }

  /** `k` ticks of the delay list. */
  ghost function CountingFor(s: Sys, k: nat): (r: Sys)
    requires Shape(s)
    ensures Shape(r)
    decreases k
  {
    if k == 0 then s else CountingFor(Counting(s), k - 1)
  }

  lemma {:induction false} CountingHead(s: Sys, k: nat)
    requires Shape(s) && s.delay != [] && k < s.tick[s.delay[0]]
    ensures CountingFor(s, k) == s.(tick := s.tick[s.delay[0] := s.tick[s.delay[0]] - k])
    decreases k
  {
    if k > 0 {
      CountingHead(Counting(s), k - 1);
    }
  }

  /** In `n` ticks nothing becomes due; and when task `t` then leaves the delay list, task `a` stays in there
      with the very count that marks a task as not being in there. */
  ghost predicate LostAfter(s: Sys, n: nat, t: nat, a: nat)
    requires Shape(s)
  {
    var u := CountingFor(s, n);
    && (forall k | 0 <= k <= n :: !HeadDue(CountingFor(s, k)))
    && t < |u.state| && t in u.delay
    && var v := Undelayed(u, t);
       Shape(v) && a < |v.state| && a in v.delay && v.tick[a] == INVALID_VALUE && !Fits(v, a)
  }

  /** What a time out of reach does: with one task due in d ticks, another one's timeout of d + 2^31 ticks
      or more goes before it, so that the first one is not made ready on time, and after d + 1 ticks a post
      to the other one puts the delay list at odds with the counts. */
  lemma FarTimeoutLosesTask(s: Sys, a: nat, t: nat, n: Tick)
    requires Shape(s) && s.delay == [a] && a < |s.tick| && t < |s.state| && t != a
    requires s.tick[a] + HALF <= n < INVALID_VALUE
    ensures Shape(Delaying(s, t, n)) && Delaying(s, t, n).delay == [t, a]
    ensures LostAfter(Delaying(s, t, n), s.tick[a] + 1, t, a)
  {
    hide *;
    OneWaits(s, a);
    var d, r := s.tick[a], Delaying(s, t, n);
    FarInsertion(s, a, t, n);
    LastOfTwo(d, n);
    QuietTicks(r, t, d + 1);
    var u := CountingFor(r, d + 1);
    FirstRemoved(u, t, a);
    NotFitting(Undelayed(u, t), a);
    LostIntro(r, d + 1, t, a);
  }

  lemma LostIntro(s: Sys, n: nat, t: nat, a: nat)
    requires Shape(s) && forall k | 0 <= k <= n :: !HeadDue(CountingFor(s, k))
    requires var u := CountingFor(s, n);
             && t < |u.state| && t in u.delay
             && var v := Undelayed(u, t);
                Shape(v) && v.delay == [a] && a < |v.state| && v.tick[a] == INVALID_VALUE && !Fits(v, a)
    ensures LostAfter(s, n, t, a)
  {
  }

  lemma OneWaits(s: Sys, a: nat)
    requires Shape(s) && s.delay == [a]
    ensures a < |s.state| == |s.tick| == |s.event|
  {
    assert s.delay[0] == a;
  }

  lemma QuietTicks(s: Sys, h: nat, n: nat)
    requires Shape(s) && s.delay != [] && h == s.delay[0] && h < |s.tick| && n < s.tick[h]
    ensures CountingFor(s, n) == s.(tick := s.tick[h := s.tick[h] - n])
    ensures forall k | 0 <= k <= n :: !HeadDue(CountingFor(s, k))
  {
    CountingHead(s, n);
    forall k | 0 <= k <= n ensures !HeadDue(CountingFor(s, k)) {
      CountingHead(s, k);
    }
  }

  lemma FirstRemoved(s: Sys, t: nat, a: nat)
    requires Shape(s) && s.delay == [t, a]
    ensures t < |s.state| == |s.tick| && a < |s.state| && t in s.delay
    ensures var r := Undelayed(s, t);
            Shape(r) && r.delay == [a] && r.tick[a] == (s.tick[a] + s.tick[t]) % U32 && |r.state| == |s.state|
  {
    assert s.delay[0] == t && s.delay[1] == a;
    PairRemoved(s.tick, t, a);
  }

  lemma NotFitting(s: Sys, a: nat)
    requires Shape(s) && s.delay == [a] && a < |s.state| == |s.tick| == |s.event| && s.tick[a] == INVALID_VALUE
    ensures !Fits(s, a)
  {
    assert s.delay[0] == a;
  }

  lemma FarInsertion(s: Sys, a: nat, t: nat, n: Tick)
    requires Shape(s) && s.delay == [a] && a < |s.tick| && t < |s.state| && t != a && s.tick[a] + HALF <= n
    ensures var r := Delaying(s, t, n);
            && Shape(r) && r.delay == [t, a] && |r.state| == |s.state|
            && r.tick[t] == n && r.tick[a] == (s.tick[a] - n) % U32
  {
    var ds := [s.tick[a]];
    DueIs(ds, 0);
    FirstSums(ds, 0);
    SignedFar(n - s.tick[a]);
    assert Stop(ds, n, 0) == 0;
    TimerRuns.SignedMod(n - s.tick[a], s.tick[a]);
    InsertedBefore(s, a, t, n);
  }

  lemma InsertedBefore(s: Sys, a: nat, t: nat, n: Tick)
    requires Shape(s) && s.delay == [a] && a < |s.tick| && t < |s.state| && t != a && 0 < n
    requires var ds := [s.tick[a]]; Stop(ds, n, 0) == 0 && NewCount(ds, n) == n
    ensures var r := Delaying(s, t, n);
            && Shape(r) && r.delay == [t, a] && |r.state| == |s.state|
            && r.tick[t] == n && r.tick[a] == (s.tick[a] - n) % U32
  {
    assert Deltas(s.tick, s.delay) == [s.tick[a]];
    assert InsertAt([a], 0, t) == [t, a];
    CountsInIs(s.tick, s.delay, t, n);
    CountsBeforeIs(s.tick, s.delay, t, 0, n);
    hide Stop, NewCount;
  }

  lemma PairRemoved(tick: seq<Tick>, t: nat, a: nat)
    requires t < |tick| && a < |tick| && t != a
    ensures IndexOf([t, a], t) == 0 && RemoveAt([t, a], 0) == [a] && CountsOut(tick, [t, a], 0)[t := INVALID_VALUE][a] == (tick[a] + tick[t]) % U32
  {
    assert [t, a][1] == a;
  }

  lemma LastOfTwo(d: nat, n: Tick)
    requires d + HALF <= n
    ensures d + 1 < n && ((d - n) % U32 + (n - (d + 1))) % U32 == INVALID_VALUE
  {
  }

  /** A timeout leaves every delay count valid unless it is the very value that marks an invalid one, which
      CoTickDelay rejects and CoPendSem does not. */
  lemma TimeoutsStayValid(tick: seq<Tick>, l: seq<nat>, t: nat, n: Tick)
    requires Brief(tick, l, HALF) && Distinct(l) && t < |tick| && t !in l && 0 < n
    ensures var c := CountsIn(tick, l, t, n);
            (c[t] != INVALID_VALUE && forall x | x in l :: x < |c| && c[x] != INVALID_VALUE) <==> n != INVALID_VALUE
  {
    var ds, c := Deltas(tick, l), CountsIn(tick, l, t, n);
    var k, v := Stop(ds, n, 0), NewCount(ds, n);
    BriefValid(tick, l, HALF);
    CountsInIs(tick, l, t, n);
    CountsBeforeIs(tick, l, t, k, v);
    DeltasLength(tick, l);
    NewCountValid(ds, n);
    hide *;
    ValidIs();
    if k < |l| {
      assert l[k] in l;
    }
  }

  lemma ValidIs()
    ensures INVALID_VALUE == 0xFFFF_FFFF && HALF == 0x8000_0000 && U32 == 0x1_0000_0000
  {
  }

  lemma NewCountValid(ds: seq<Tick>, n: Tick)
    requires 0 < n && forall i | 0 <= i < |ds| :: Due(ds, i) < HALF
    ensures var k, v := Stop(ds, n, 0), NewCount(ds, n);
            && (v != INVALID_VALUE <==> n != INVALID_VALUE)
            && (k < |ds| ==> Plus(ds[k], -(v as int)) != INVALID_VALUE)
  {
    var k, v := Stop(ds, n, 0), NewCount(ds, n);
    if ds != [] {
      StopReads(ds, n, 0);
      CountMod(ds, n, k);
      var rest := n - Sum(ds, k);
      if k == 0 {
        assert Sum(ds, 0) == 0;
      } else {
        assert Due(ds, 0) < HALF && Due(ds, k - 1) == Sum(ds, k);
      }
      if k < |ds| {
        assert Sum(ds, k + 1) == Sum(ds, k) + ds[k];
        NextMod(ds[k], v, rest);
      }
    }
  }

  /** What the search read: nothing negative before its stop, a negative difference there. */
  lemma {:induction false} StopReads(ds: seq<Tick>, n: Tick, k: nat)
    requires k <= |ds|
    ensures var r := Stop(ds, n, k);
            && (forall i | k <= i < r :: Signed(n - Due(ds, i)) >= 0)
            && (r < |ds| ==> Signed(n - Due(ds, r)) < 0)
    decreases |ds| - k
  {
    if k < |ds| && Signed(n - Due(ds, k)) >= 0 {
      StopReads(ds, n, k + 1);
    }
  }

  lemma CountMod(ds: seq<Tick>, n: Tick, k: nat)
    requires ds != [] && k == Stop(ds, n, 0)
    ensures NewCount(ds, n) == (n - Sum(ds, k)) % U32
  {
    if k < |ds| {
      assert Due(ds, k) == Sum(ds, k) + ds[k];
      TimerRuns.SignedMod(n - Due(ds, k), ds[k]);
    } else {
      TimerRuns.SignedMod(n - Sum(ds, k), 0);
    }
  }

  lemma NextMod(d: Tick, v: Tick, rest: int)
    requires v == rest % U32 && Signed(rest - d) < 0
    ensures Plus(d, -(v as int)) != INVALID_VALUE
  {
  }
}
