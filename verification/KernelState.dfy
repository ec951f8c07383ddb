/** Where every task is: the state of the task table and its lists, and the moves the kernel makes with
    them (task.c, time.c, event.c). */
module KernelState {
  import opened Lists
  import opened TaskList
  import opened DeltaList
  import opened DeltaLinks
  import opened ReadyList

  const INVALID_ID: int := 0xFF

  datatype TaskState = TaskReady | TaskRunning | TaskWaiting | TaskDormant

  datatype Semaphore = Semaphore(max: nat, fifo: bool)

  /** The fields of the task table, its lists from head to tail, and the scheduler's variables.
      `lock` counts the locks held by the application; all its delays and timeouts end within `horizon`. */
  datatype Sys = Sys(state: seq<TaskState>, prio: seq<nat>, tick: seq<Tick>, event: seq<int>,
                     free: seq<nat>, ready: seq<nat>, delay: seq<nat>, waits: seq<seq<nat>>,
                     counter: seq<nat>, sems: seq<Semaphore>,
                     running: nat, lock: nat, schedReq: bool, timeReq: bool, horizon: nat)

  ghost predicate InTable(n: nat, l: seq<nat>) {
    Distinct(l) && forall i | 0 <= i < |l| :: l[i] < n
  }

  ghost predicate Shape(s: Sys) {
    && |s.state| == |s.prio| == |s.tick| == |s.event|
    && |s.waits| == |s.counter| == |s.sems| <= INVALID_ID
    && InTable(|s.state|, s.free) && InTable(|s.state|, s.ready) && InTable(|s.state|, s.delay)
    && s.running < |s.state|
    && forall e | 0 <= e < |s.waits| :: InTable(|s.state|, s.waits[e])
  }

  /** The state of task `t` agrees with the lists it is in, its delay count with the delay list and its
      event with the lists of waiting tasks. */
  ghost predicate Fits(s: Sys, t: nat)
    requires |s.state| == |s.tick| == |s.event| && t < |s.state|
  {
    && (s.state[t].TaskReady? <==> t in s.ready)
    && (s.state[t].TaskDormant? <==> t in s.free)
    && (s.state[t].TaskRunning? ==> t == s.running)
    && (t in s.delay <==> s.tick[t] != INVALID_VALUE)
    && (t in s.delay || s.event[t] != INVALID_ID ==> s.state[t].TaskWaiting?)
    && (s.event[t] == INVALID_ID || 0 <= s.event[t] < |s.waits|)
    && forall e | 0 <= e < |s.waits| :: t in s.waits[e] <==> s.event[t] == e
  }

  ghost predicate Placed(s: Sys) {
    Shape(s) && forall t | 0 <= t < |s.state| :: Fits(s, t)
  }

  /** The ready list and the lists sorted by priority are in order, and tasks wait only for semaphores
      that are used up. */
  ghost predicate Ordered(s: Sys)
    requires Shape(s)
  {
    && SortedBy(s.prio, s.ready)
    && forall e | 0 <= e < |s.waits| ::
      && s.counter[e] <= s.sems[e].max
      && (s.waits[e] != [] ==> s.counter[e] == 0)
      && (!s.sems[e].fifo ==> SortedBy(s.prio, s.waits[e]))
  }

  /** No task waits longer than the application said, nor as long as the invalid count. */
  ghost predicate Timely(s: Sys)
    requires Shape(s)
  {
    Brief(s.tick, s.delay, s.horizon)
  }

  /** A time the signed search of the delay list reads right. */
  ghost predicate InTime(s: Sys, n: Tick)
    requires Shape(s)
  {
    n < s.horizon && InReach(Deltas(s.tick, s.delay), n)
  }

  /** While no time reaches 2^31, every such time is. */
  lemma ShortIsInTime(s: Sys, n: Tick)
    requires Sound(s) && n < s.horizon <= HALF
    ensures InTime(s, n)
  {
    DeltasLength(s.tick, s.delay);
    SmallTimesInReach(Deltas(s.tick, s.delay), n);
  }

  ghost predicate Sound(s: Sys) {
    Placed(s) && Ordered(s) && Timely(s)
  }

  /** Task `t` is in no list. */
  ghost predicate Loose(s: Sys, t: nat)
    requires Shape(s)
  {
    && t < |s.state| && !s.state[t].TaskReady? && !s.state[t].TaskDormant?
    && s.tick[t] == INVALID_VALUE && s.event[t] == INVALID_ID
  }

  /** InsertToTCBRdyList. */
  ghost function Admitted(s: Sys, t: nat): Sys
    requires |s.state| == |s.prio| && t < |s.state| && Known(s.prio, s.ready)
  {
    s.(state := s.state[t := TaskReady], ready := TaskList.Insert(s.prio, s.ready, t),
       schedReq := s.schedReq || TaskList.Insert(s.prio, s.ready, t)[0] == t)
  }

  /** RemoveFromTCBRdyList, with the state the task gets next. */
  ghost function Unreadied(s: Sys, t: nat, next: TaskState): Sys
    requires t < |s.state| && t in s.ready
  {
    s.(state := s.state[t := next], ready := RemoveAt(s.ready, IndexOf(s.ready, t)))
  }

  /** InsertDelayList. */
  ghost function Delaying(s: Sys, t: nat, n: Tick): Sys
    requires Shape(s) && t < |s.state|
  {
    if n == 0 then s
    else
      s.(state := s.state[t := TaskWaiting], schedReq := true,
         delay := InsertAt(s.delay, Stop(Deltas(s.tick, s.delay), n, 0), t),
         tick := CountsIn(s.tick, s.delay, t, n))
  }

  /** RemoveDelayList. */
  ghost function Undelayed(s: Sys, t: nat): Sys
    requires Shape(s) && t < |s.state| && t in s.delay
  {
    var k := IndexOf(s.delay, t);
    s.(delay := RemoveAt(s.delay, k), tick := CountsOut(s.tick, s.delay, k)[t := INVALID_VALUE])
  }

  /** EventTaskToWait. */
  ghost function Awaiting(s: Sys, e: nat, t: nat): Sys
    requires Shape(s) && t < |s.state| && e < |s.waits|
  {
    s.(state := s.state[t := TaskWaiting], event := s.event[t := e], schedReq := true,
       waits := s.waits[e := Enqueued(s, e, t)])
  }

  ghost function Enqueued(s: Sys, e: nat, t: nat): seq<nat>
    requires Shape(s) && t < |s.state| && e < |s.waits|
  {
    var l := s.waits[e];
    if s.sems[e].fifo then InsertAt(l, |l|, t) else TaskList.Insert(s.prio, l, t)
  }

  /** RemoveEventWaittingList. */
  ghost function Unawaited(s: Sys, t: nat): Sys
    requires Shape(s) && t < |s.state| && 0 <= s.event[t] < |s.waits| && t in s.waits[s.event[t]]
  {
    var l := s.waits[s.event[t]];
    s.(event := s.event[t := INVALID_ID], waits := s.waits[s.event[t] := RemoveAt(l, IndexOf(l, t))])
  }

  lemma PlacedAt(s: Sys, t: nat)
    requires Placed(s) && t < |s.state|
    ensures Shape(s) && Fits(s, t) && Known(s.prio, s.ready)
  {
  }

  lemma ListFits(n: nat, l: seq<nat>, prio: seq<nat>)
    requires InTable(n, l) && n == |prio|
    ensures Known(prio, l) && forall x | x in l :: x < n
  {
  }

  lemma InTableInsert(n: nat, l: seq<nat>, k: nat, t: nat)
    requires InTable(n, l) && k <= |l| && t < n && t !in l
    ensures InTable(n, InsertAt(l, k, t)) && forall x :: x in InsertAt(l, k, t) <==> x in l || x == t
  {
    DistinctInsert(l, k, t);
  }

  lemma InTableRemove(n: nat, l: seq<nat>, k: nat)
    requires InTable(n, l) && k < |l|
    ensures InTable(n, RemoveAt(l, k)) && forall x :: x in RemoveAt(l, k) <==> x in l && x != l[k]
  {
    DistinctRemove(l, k);
  }

  /** A task in no list goes into the ready list. */
  lemma AdmitSound(s: Sys, t: nat)
    requires Sound(s) && Loose(s, t)
    ensures Sound(Admitted(s, t))
  {
    PlacedAt(s, t);
    var k, r := Place(s.prio, s.ready, s.prio[t], 0), Admitted(s, t);
    InTableInsert(|s.state|, s.ready, k, t);
    InsertIsStable(s.prio, s.ready, t);
    forall x | 0 <= x < |r.state| ensures Fits(r, x) {
      PlacedAt(s, x);
    }
  }

  lemma UnreadySound(s: Sys, t: nat, next: TaskState)
    requires Sound(s) && t < |s.state| && t in s.ready && (next.TaskWaiting? || (next.TaskRunning? && t == s.running))
    ensures Sound(Unreadied(s, t, next)) && Loose(Unreadied(s, t, next), t)
  {
    var k, r := IndexOf(s.ready, t), Unreadied(s, t, next);
    InTableRemove(|s.state|, s.ready, k);
    RemoveKeepsOrder(s.prio, s.ready, k);
    PlacedAt(s, t);
    forall x | 0 <= x < |r.state| ensures Fits(r, x) {
      PlacedAt(s, x);
    }
  }

  ghost predicate Brief(tick: seq<Tick>, l: seq<nat>, h: nat) {
    && h <= INVALID_VALUE && (forall i | 0 <= i < |l| :: l[i] < |tick|)
    && forall i | 0 <= i < |l| :: Due(Deltas(tick, l), i) < h
  }

  /** Counts below the horizon are valid ones. */
  lemma BriefValid(tick: seq<Tick>, l: seq<nat>, h: nat)
    requires Brief(tick, l, h)
    ensures forall x | x in l :: x < |tick| && tick[x] < h <= INVALID_VALUE
  {
    forall x | x in l ensures x < |tick| && tick[x] < h {
      var i :| 0 <= i < |l| && l[i] == x;
      DueOrder(Deltas(tick, l), i, i);
    }
  }

  lemma BriefInsert(tick: seq<Tick>, l: seq<nat>, t: nat, n: Tick, h: nat)
    requires Brief(tick, l, h) && Distinct(l) && t < |tick| && t !in l && 0 < n < h && InReach(Deltas(tick, l), n)
    ensures var k, c := Stop(Deltas(tick, l), n, 0), CountsIn(tick, l, t, n);
            && Brief(c, InsertAt(l, k, t), h) && Due(Deltas(c, InsertAt(l, k, t)), k) == n
            && (forall x | 0 <= x < |tick| && x !in l && x != t :: c[x] == tick[x])
            && forall i | 0 <= i < |l| :: Due(Deltas(c, InsertAt(l, k, t)), if i < k then i else i + 1) == Due(Deltas(tick, l), i)
  {
    hide *;
    BriefIs(tick, l, h);
    var ds := Deltas(tick, l);
    var k, v, c := Stop(ds, n, 0), NewCount(ds, n), CountsIn(tick, l, t, n);
    DeltasLength(tick, l);
    InsertInTime(ds, n, h);
    CountsInIs(tick, l, t, n);
    CountsBeforeIs(tick, l, t, k, v);
    PlusMinus(tick, l, k, v);
    DeltasInserted(tick, l, k, t, v, c);
    assert k < |l| ==> l[k] in l;
    BriefIs(c, InsertAt(l, k, t), h);
  }

  lemma DeltasLength(tick: seq<Tick>, l: seq<nat>)
    requires forall i | 0 <= i < |l| :: l[i] < |tick|
    ensures |Deltas(tick, l)| == |l|
  {
  }

  lemma BriefIs(tick: seq<Tick>, l: seq<nat>, h: nat)
    ensures Brief(tick, l, h) <==>
            && h <= INVALID_VALUE && (forall i | 0 <= i < |l| :: l[i] < |tick|)
            && forall i | 0 <= i < |l| :: Due(Deltas(tick, l), i) < h
    ensures INVALID_VALUE == 0xFFFF_FFFF && U32 == 0x1_0000_0000
  {
  }

  /** Inserting a time in reach keeps the others and the horizon. */
  lemma InsertInTime(ds: seq<Tick>, n: Tick, h: nat)
    requires 0 < n < h && InReach(ds, n) && forall i | 0 <= i < |ds| :: Due(ds, i) < h
    ensures var k := Stop(ds, n, 0);
            var es := InsertDeltas(ds, k, NewCount(ds, n));
            && |es| == |ds| + 1 && Due(es, k) == n
            && (forall i | 0 <= i < |es| :: Due(es, i) < h)
            && forall i | 0 <= i < |ds| :: Due(es, if i < k then i else i + 1) == Due(ds, i)
  {
    hide *;
    InReachIsExact(ds, n);
    ExactGives(ds, n);
    var k := Stop(ds, n, 0);
    var es := InsertDeltas(ds, k, NewCount(ds, n));
    forall i | 0 <= i < |es| ensures Due(es, i) < h {
      if i != k {
        var j := if i < k then i else i - 1;
        assert Due(es, if j < k then j else j + 1) == Due(ds, j);
      }
    }
  }

  lemma PlusMinus(tick: seq<Tick>, l: seq<nat>, k: nat, v: Tick)
    requires (forall i | 0 <= i < |l| :: l[i] < |tick|)
    ensures k < |l| ==> Plus(tick[l[k]], -(v as int)) == (tick[l[k]] - v) % U32
  {
  }

  lemma BriefRemove(tick: seq<Tick>, l: seq<nat>, k: nat, h: nat)
    requires Brief(tick, l, h) && Distinct(l) && k < |l|
    ensures var c := CountsOut(tick, l, k)[l[k] := INVALID_VALUE];
            && Brief(c, RemoveAt(l, k), h)
            && (forall x | 0 <= x < |tick| && x !in l :: c[x] == tick[x])
            && forall i | 0 <= i < |l| && i != k ::
                 Due(Deltas(c, RemoveAt(l, k)), if i < k then i else i - 1) == Due(Deltas(tick, l), i)
  {
    hide *;
    BriefIs(tick, l, h);
    DeltasLength(tick, l);
    var ds, c := Deltas(tick, l), CountsOut(tick, l, k)[l[k] := INVALID_VALUE];
    CountsOutIs(tick, l, k);
    if k + 1 < |l| {
      DueOrder(ds, k, k + 1);
    }
    NextNotSame(tick, l, k);
    DeltasRemoved(tick, l, k, c);
    RemovedExactly(ds, k);
    var r, es := RemoveAt(l, k), RemoveDeltas(ds, k);
    forall i | 0 <= i < |es| ensures Due(es, i) < h {
      var j := if i < k then i else i + 1;
      assert Due(es, if j < k then j else j - 1) == Due(ds, j);
    }
    BriefIs(c, r, h);
  }

  /** The entry behind position `k` is another task, and its count the sum of the two. */
  lemma NextNotSame(tick: seq<Tick>, l: seq<nat>, k: nat)
    requires Distinct(l) && k < |l| && forall i | 0 <= i < |l| :: l[i] < |tick|
    ensures l[k] in l
    ensures k + 1 < |l| ==> l[k + 1] != l[k] && l[k + 1] in l && Plus(tick[l[k + 1]], tick[l[k]]) == (tick[l[k + 1]] + tick[l[k]]) % U32
  {
  }

  lemma RemovedExactly(ds: seq<Tick>, k: nat)
    requires k < |ds| && (k + 1 < |ds| ==> ds[k] + ds[k + 1] < U32)
    ensures |RemoveDeltas(ds, k)| == |ds| - 1
    ensures forall i | 0 <= i < |ds| && i != k :: Due(RemoveDeltas(ds, k), if i < k then i else i - 1) == Due(ds, i)
  {
    SumRemove(ds, k, 0);
    forall i | 0 <= i < |ds| && i != k ensures Due(RemoveDeltas(ds, k), if i < k then i else i - 1) == Due(ds, i) {
      RemoveIsExact(ds, k, i);
    }
  }

  lemma TimelyIs(s: Sys)
    requires Shape(s)
    ensures Timely(s) <==> Brief(s.tick, s.delay, s.horizon)
  {
  }

  /** A task that is in neither the ready nor the delay list starts a delay. */
  lemma DelaySound(s: Sys, t: nat, n: Tick)
    requires Sound(s) && t < |s.state| && !s.state[t].TaskReady? && !s.state[t].TaskDormant? && s.tick[t] == INVALID_VALUE
    requires n > 0 ==> InTime(s, n)
    ensures Sound(Delaying(s, t, n))
  {
    if n > 0 {
      PlacedAt(s, t);
      TimelyIs(s);
      var k, r := Stop(Deltas(s.tick, s.delay), n, 0), Delaying(s, t, n);
      InTableInsert(|s.state|, s.delay, k, t);
      BriefInsert(s.tick, s.delay, t, n, s.horizon);
      BriefValid(r.tick, r.delay, s.horizon);
      DelayFits(s, t, r);
      TimelyIs(r);
    }
  }

  lemma DelayFits(s: Sys, t: nat, r: Sys)
    requires Sound(s) && t < |s.state| && !s.state[t].TaskReady? && !s.state[t].TaskDormant? && s.tick[t] == INVALID_VALUE
    requires r == s.(state := s.state[t := TaskWaiting], schedReq := true, delay := r.delay, tick := r.tick)
    requires InTable(|s.state|, r.delay) && (forall x :: x in r.delay <==> x in s.delay || x == t) && |r.tick| == |s.tick|
    requires (forall x | x in r.delay :: x < |r.tick| && r.tick[x] < INVALID_VALUE)
    requires forall x | 0 <= x < |s.tick| && x !in s.delay && x != t :: r.tick[x] == s.tick[x]
    ensures Placed(r) && Ordered(r)
  {
    forall x | 0 <= x < |r.state| ensures Fits(r, x) {
      PlacedAt(s, x);
    }
  }

  lemma UndelaySound(s: Sys, t: nat)
    requires Sound(s) && t < |s.state| && t in s.delay
    ensures Sound(Undelayed(s, t)) && Undelayed(s, t).tick[t] == INVALID_VALUE
  {
    var k, r := IndexOf(s.delay, t), Undelayed(s, t);
    TimelyIs(s);
    InTableRemove(|s.state|, s.delay, k);
    BriefRemove(s.tick, s.delay, k, s.horizon);
    BriefValid(s.tick, s.delay, s.horizon);
    BriefValid(r.tick, r.delay, s.horizon);
    UndelayFits(s, t, r);
    TimelyIs(r);
  }

  lemma UndelayFits(s: Sys, t: nat, r: Sys)
    requires Sound(s) && t < |s.state| && t in s.delay && r == s.(delay := r.delay, tick := r.tick)
    requires InTable(|s.state|, r.delay) && (forall x :: x in r.delay <==> x in s.delay && x != t) && |r.tick| == |s.tick|
    requires (forall x | x in r.delay :: x < |r.tick| && r.tick[x] < INVALID_VALUE) && r.tick[t] == INVALID_VALUE
    requires forall x | 0 <= x < |s.tick| && x !in s.delay :: r.tick[x] == s.tick[x]
    ensures Placed(r) && Ordered(r)
  {
    forall x | 0 <= x < |r.state| ensures Fits(r, x) {
      PlacedAt(s, x);
    }
  }

  /** A task that is in neither the ready list nor a list of waiting tasks waits for a semaphore that is
      used up. */
  lemma AwaitSound(s: Sys, e: nat, t: nat)
    requires Sound(s) && t < |s.state| && !s.state[t].TaskReady? && !s.state[t].TaskDormant? && s.event[t] == INVALID_ID
    requires e < |s.waits| && s.counter[e] == 0
    ensures Sound(Awaiting(s, e, t))
  {
    PlacedAt(s, t);
    var l, r := s.waits[e], Awaiting(s, e, t);
    ListFits(|s.state|, l, s.prio);
    InTableInsert(|s.state|, l, if s.sems[e].fifo then |l| else Place(s.prio, l, s.prio[t], 0), t);
    if !s.sems[e].fifo {
      InsertIsStable(s.prio, l, t);
    }
    AwaitFits(s, e, t, r);
  }

  lemma AwaitFits(s: Sys, e: nat, t: nat, r: Sys)
    requires Sound(s) && t < |s.state| && !s.state[t].TaskReady? && !s.state[t].TaskDormant? && s.event[t] == INVALID_ID
    requires e < |s.waits| && s.counter[e] == 0
    requires |r.waits| == |s.waits| && r.waits == s.waits[e := r.waits[e]]
    requires r == s.(state := s.state[t := TaskWaiting], event := s.event[t := e], schedReq := true, waits := r.waits)
    requires InTable(|s.state|, r.waits[e]) && forall x :: x in r.waits[e] <==> x in s.waits[e] || x == t
    requires !s.sems[e].fifo ==> SortedBy(s.prio, r.waits[e])
    ensures Sound(r)
  {
    hide InTable, SortedBy, Brief;
    forall x | 0 <= x < |r.state| ensures Fits(r, x) {
      PlacedAt(s, x);
    }
  }

  lemma UnawaitSound(s: Sys, t: nat)
    requires Sound(s) && t < |s.state| && s.event[t] != INVALID_ID
    ensures 0 <= s.event[t] < |s.waits| && t in s.waits[s.event[t]]
    ensures Sound(Unawaited(s, t)) && Unawaited(s, t).event[t] == INVALID_ID
  {
    PlacedAt(s, t);
    var l, r := s.waits[s.event[t]], Unawaited(s, t);
    InTableRemove(|s.state|, l, IndexOf(l, t));
    ListFits(|s.state|, l, s.prio);
    if !s.sems[s.event[t]].fifo {
      RemoveKeepsOrder(s.prio, l, IndexOf(l, t));
    }
    forall x | 0 <= x < |r.state| ensures Fits(r, x) {
      PlacedAt(s, x);
    }
  }
}
