/** The delay list over time (time.c, TimeDispose and isr_TimeDispose; arch.c, SysTick_Handler): a task
    delayed by n ticks becomes ready at exactly the n-th tick when no disposal is put off, and never
    earlier. */
module DelayRuns {
  import opened Lists
  import opened TaskList
  import opened DeltaList

  /** The listed tasks and their counts. */
  datatype Waiting = Waiting(l: seq<nat>, ds: seq<Tick>)

  ghost predicate Sound(w: Waiting) {
    |w.l| == |w.ds| && Distinct(w.l)
  }

  /** The leading entries that are due. */
  function Zeros(ds: seq<Tick>): (z: nat)
    ensures z <= |ds| && (forall i | 0 <= i < z :: ds[i] == 0) && (z < |ds| ==> ds[z] != 0)
  {
    if ds == [] || ds[0] != 0 then 0 else 1 + Zeros(ds[1..])
  }

  function Disposed(w: Waiting): Waiting
    requires |w.l| == |w.ds|
  {
    var z := Zeros(w.ds);
    Waiting(w.l[z..], w.ds[z..])
  }

  /** Lines 61-78 of arch.c: only the first count goes down; at 0 the due tasks are made ready, unless
      the scheduler is locked. */
  function Ticked(w: Waiting, locked: bool): Waiting
    requires |w.l| == |w.ds|
  {
    if w.ds == [] then w
    else if w.ds[0] > 1 then w.(ds := w.ds[0 := w.ds[0] - 1])
    else
      var z := w.(ds := w.ds[0 := 0]);
      if locked then z else Disposed(z)
  }

  datatype DelayOp = Delay(t: nat, n: Tick) | Cancel(k: nat) | TickStep(locked: bool) | Service

  ghost predicate Allowed(w: Waiting, op: DelayOp) {
    && |w.l| == |w.ds|
    && match op
       case Delay(t, n) => t !in w.l && 0 < n && InReach(w.ds, n)
       case Cancel(k) => k < |w.l| && (k + 1 < |w.l| ==> w.ds[k] + w.ds[k + 1] < U32)
       case TickStep(_) => true
       case Service => true
  }

  ghost function Step(w: Waiting, op: DelayOp): Waiting
    requires Allowed(w, op)
  {
    match op
    case Delay(t, n) =>
      var k := Stop(w.ds, n, 0);
      Waiting(InsertAt(w.l, k, t), InsertDeltas(w.ds, k, NewCount(w.ds, n)))
    case Cancel(k) => Waiting(RemoveAt(w.l, k), RemoveDeltas(w.ds, k))
    case TickStep(locked) => Ticked(w, locked)
    case Service => Disposed(w)
  }

  /** The task and its remaining ticks are in the list. */
  ghost predicate Holds(w: Waiting, x: nat, r: nat) {
    exists i | 0 <= i < |w.l| && i < |w.ds| :: w.l[i] == x && Due(w.ds, i) == r
  }

  lemma HoldsAt(w: Waiting, x: nat, i: nat)
    requires i < |w.l| && i < |w.ds| && w.l[i] == x
    ensures Holds(w, x, Due(w.ds, i))
  {
  }

  lemma {:induction false} SumDropsZeros(ds: seq<Tick>, z: nat, i: nat)
    requires z <= i <= |ds| && forall j | 0 <= j < z :: ds[j] == 0
    ensures Sum(ds[z..], i - z) == Sum(ds, i)
    decreases i
  {
    if i == z {
      ZeroSum(ds, z);
    } else {
      SumDropsZeros(ds, z, i - 1);
    }
  }

  lemma {:induction false} ZeroSum(ds: seq<Tick>, z: nat)
    requires z <= |ds| && forall j | 0 <= j < z :: ds[j] == 0
    ensures Sum(ds, z) == 0
  {
    if z > 0 {
      ZeroSum(ds, z - 1);
    }
  }

  lemma {:induction false} SumHead(ds: seq<Tick>, v: Tick, i: nat)
    requires 0 < i <= |ds|
    ensures Sum(ds[0 := v], i) == Sum(ds, i) - ds[0] + v
    decreases i
  {
    if i > 1 {
      SumHead(ds, v, i - 1);
    } else {
      assert Sum(ds, 1) == Sum(ds, 0) + ds[0];
      assert Sum(ds[0 := v], 1) == Sum(ds[0 := v], 0) + v;
    }
  }

  /** Making the due tasks ready removes exactly those with no ticks left. */
  lemma DisposeTask(w: Waiting, x: nat, i: nat)
    requires Sound(w) && i < |w.l| && w.l[i] == x
    ensures Sound(Disposed(w))
    ensures Due(w.ds, i) > 0 ==> Holds(Disposed(w), x, Due(w.ds, i))
    ensures Due(w.ds, i) == 0 ==> x !in Disposed(w).l
  {
    var z, e := Zeros(w.ds), Disposed(w);
    if i < z {
      ZeroSum(w.ds, i + 1);
      forall j | 0 <= j < |e.l| ensures e.l[j] != x {
        assert e.l[j] == w.l[z + j];
      }
    } else {
      SumDropsZeros(w.ds, z, i + 1);
      assert e.l[i - z] == x;
      SumMono(w.ds, z + 1, i + 1);
      assert Due(e.ds, i - z) == Due(w.ds, i);
    }
  }

  /** One tick.  The first count is positive unless an earlier disposal was put off. */
  lemma TickTask(w: Waiting, locked: bool, x: nat, i: nat)
    requires Sound(w) && i < |w.l| && w.l[i] == x
    ensures Sound(Ticked(w, locked))
    ensures var r, e := Due(w.ds, i), Ticked(w, locked);
            && (w.ds[0] > 0 && (locked || r > 1) ==> r > 0 && Holds(e, x, r - 1))
            && (w.ds[0] > 0 && !locked && r <= 1 ==> r == 1 && x !in e.l)
            && (w.ds[0] == 0 && (locked || r > 0) ==> Holds(e, x, r))
            && (w.ds[0] == 0 && !locked && r == 0 ==> x !in e.l)
  {
    SumMono(w.ds, 1, i + 1);
    assert Sum(w.ds, 1) == Sum(w.ds, 0) + w.ds[0];
    var v: Tick := if w.ds[0] > 1 then w.ds[0] - 1 else 0;
    SumHead(w.ds, v, i + 1);
    var z := w.(ds := w.ds[0 := v]);
    HoldsAt(z, x, i);
    if w.ds[0] <= 1 && !locked {
      DisposeTask(z, x, i);
    }
  }

  lemma DelayTask(w: Waiting, t: nat, n: Tick, x: nat, i: nat)
    requires Sound(w) && Allowed(w, Delay(t, n)) && i < |w.l| && w.l[i] == x
    ensures Sound(Step(w, Delay(t, n))) && Holds(Step(w, Delay(t, n)), x, Due(w.ds, i))
  {
    InReachIsExact(w.ds, n);
    var k, e := Stop(w.ds, n, 0), Step(w, Delay(t, n));
    DistinctInsert(w.l, k, t);
    HoldsAt(e, x, if i < k then i else i + 1);
  }

  /** A delay of n ticks gives the task exactly n ticks. */
  lemma DelayGivesTicks(w: Waiting, t: nat, n: Tick)
    requires Sound(w) && Allowed(w, Delay(t, n))
    ensures Sound(Step(w, Delay(t, n))) && Holds(Step(w, Delay(t, n)), t, n)
  {
    InReachIsExact(w.ds, n);
    var k, e := Stop(w.ds, n, 0), Step(w, Delay(t, n));
    DistinctInsert(w.l, k, t);
    HoldsAt(e, t, k);
  }

  lemma CancelTask(w: Waiting, k: nat, x: nat, i: nat)
    requires Sound(w) && Allowed(w, Cancel(k)) && i < |w.l| && w.l[i] == x && i != k
    ensures Sound(Step(w, Cancel(k))) && Holds(Step(w, Cancel(k)), x, Due(w.ds, i))
  {
    RemoveIsExact(w.ds, k, i);
    DistinctRemove(w.l, k);
    HoldsAt(Step(w, Cancel(k)), x, if i < k then i else i - 1);
  }

  /** The operation is about other tasks than `x`. */
  ghost predicate LeavesAlone(w: Waiting, op: DelayOp, x: nat) {
    match op
    case Delay(t, _) => t != x
    case Cancel(k) => k < |w.l| ==> w.l[k] != x
    case _ => true
  }

  ghost predicate AllowedRun(w: Waiting, ops: seq<DelayOp>, x: nat)
    decreases |ops|
  {
    ops == [] || (Allowed(w, ops[0]) && LeavesAlone(w, ops[0], x) && AllowedRun(Step(w, ops[0]), ops[1..], x))
  }

  ghost function Run(w: Waiting, ops: seq<DelayOp>, x: nat): Waiting
    requires AllowedRun(w, ops, x)
    decreases |ops|
  {
    if ops == [] then w else Run(Step(w, ops[0]), ops[1..], x)
  }

  function Ticks(ops: seq<DelayOp>): nat {
    if ops == [] then 0 else (if ops[0].TickStep? then 1 else 0) + Ticks(ops[1..])
  }

  /** The task has at least `r` ticks to wait. */
  ghost predicate AtLeast(w: Waiting, x: nat, r: int) {
    exists s: nat :: Holds(w, x, s) && s >= r
  }

  lemma AtLeastIntro(w: Waiting, x: nat, s: nat, r: int)
    requires Holds(w, x, s) && s >= r
    ensures AtLeast(w, x, r)
  {
  }

  lemma StepKeepsSound(w: Waiting, op: DelayOp)
    requires Sound(w) && Allowed(w, op)
    ensures Sound(Step(w, op))
  {
    match op
    case Delay(t, n) => DelayGivesTicks(w, t, n);
    case Cancel(k) => DistinctRemove(w.l, k);
    case TickStep(locked) =>
    case Service =>
  }

  lemma StaysOut(w: Waiting, op: DelayOp, x: nat)
    requires Sound(w) && Allowed(w, op) && LeavesAlone(w, op, x) && x !in w.l
    ensures x !in Step(w, op).l
  {
    match op
    case Delay(t, n) => DistinctInsert(w.l, Stop(w.ds, n, 0), t);
    case Cancel(k) => DistinctRemove(w.l, k);
    case TickStep(locked) =>
    case Service =>
  }

  /** What one operation does to a waiting task. */
  lemma StepTask(w: Waiting, op: DelayOp, x: nat, r: nat)
    requires Sound(w) && Allowed(w, op) && LeavesAlone(w, op, x) && Holds(w, x, r)
    ensures Sound(Step(w, op))
    ensures var e, d := Step(w, op), if op.TickStep? then 1 else 0;
            && (AtLeast(e, x, r - d) || (x !in e.l && r <= d))
            && (w.ds != [] && w.ds[0] > 0 && (op.TickStep? ==> !op.locked) ==>
                  if r > d then Holds(e, x, r - d) else x !in e.l)
  {
    hide *;
    var i, e := Entry(w, x, r), Step(w, op);
    StepIs(w, op, x, i);
    match op
    case Delay(t, n) =>
      DelayTask(w, t, n, x, i);
      AtLeastIntro(e, x, r, r);
    case Cancel(k) =>
      CancelTask(w, k, x, i);
      AtLeastIntro(e, x, r, r);
    case TickStep(locked) =>
      TickTask(w, locked, x, i);
      if Holds(e, x, r) { AtLeastIntro(e, x, r, r - 1); }
      if r > 0 && Holds(e, x, r - 1) { AtLeastIntro(e, x, r - 1, r - 1); }
    case Service =>
      DisposeTask(w, x, i);
      if Holds(e, x, r) { AtLeastIntro(e, x, r, r); }
  }

  /** Where a waiting task stands in the list. */
  ghost function Entry(w: Waiting, x: nat, r: nat): (i: nat)
    requires Sound(w) && Holds(w, x, r)
    ensures i < |w.l| == |w.ds| && w.l[i] == x && Due(w.ds, i) == r && w.ds[0] <= r
  {
    var i :| 0 <= i < |w.l| && w.l[i] == x && Due(w.ds, i) == r;
    SumMono(w.ds, 1, i + 1);
    assert Sum(w.ds, 1) == Sum(w.ds, 0) + w.ds[0];
    i
  }

  lemma StepIs(w: Waiting, op: DelayOp, x: nat, i: nat)
    requires Allowed(w, op) && LeavesAlone(w, op, x) && i < |w.l| && w.l[i] == x
    ensures |w.l| == |w.ds| && (op.Cancel? ==> op.k < |w.l| && op.k != i)
    ensures op.TickStep? ==> Step(w, op) == Ticked(w, op.locked)
    ensures op.Service? ==> Step(w, op) == Disposed(w)
  {
  }

  /** The task still has at least `r` ticks to wait, or none of them and has left the list. */
  ghost predicate Pending(w: Waiting, x: nat, r: int) {
    AtLeast(w, x, r) || (x !in w.l && r <= 0)
  }

  lemma StepPending(w: Waiting, op: DelayOp, x: nat, r: int)
    requires Sound(w) && Allowed(w, op) && LeavesAlone(w, op, x) && Pending(w, x, r)
    ensures Sound(Step(w, op)) && Pending(Step(w, op), x, r - if op.TickStep? then 1 else 0)
  {
    hide Step, Allowed, Holds, Sound;
    StepKeepsSound(w, op);
    if AtLeast(w, x, r) {
      var s := SomeTicks(w, x, r);
      StepTask(w, op, x, s);
      var left: int := s;
      LessStill(Step(w, op), x, left - (if op.TickStep? then 1 else 0), r - if op.TickStep? then 1 else 0);
    } else {
      StaysOut(w, op, x);
    }
  }

  lemma {:induction false} RunPending(w: Waiting, ops: seq<DelayOp>, x: nat, r: int)
    requires Sound(w) && AllowedRun(w, ops, x) && Pending(w, x, r)
    ensures Pending(Run(w, ops, x), x, r - Ticks(ops))
    decreases |ops|
  {
    hide Step, Allowed, Pending, Sound, LeavesAlone;
    if ops != [] {
      StepPending(w, ops[0], x, r);
      RunPending(Step(w, ops[0]), ops[1..], x, r - if ops[0].TickStep? then 1 else 0);
    }
  }

  /** In no run does a task become ready before its ticks have passed. */
  lemma NeverEarly(w: Waiting, ops: seq<DelayOp>, x: nat, r: nat)
    requires Sound(w) && AllowedRun(w, ops, x) && Holds(w, x, r)
    ensures Ticks(ops) < r ==> AtLeast(Run(w, ops, x), x, r - Ticks(ops))
  {
    hide *;
    AtLeastIntro(w, x, r, r);
    PendingIs(w, x, r);
    RunPending(w, ops, x, r);
    PendingIs(Run(w, ops, x), x, r - Ticks(ops));
  }

  lemma PendingIs(w: Waiting, x: nat, r: int)
    ensures Pending(w, x, r) <==> AtLeast(w, x, r) || (x !in w.l && r <= 0)
  {
  }

  lemma SomeTicks(w: Waiting, x: nat, r: int) returns (s: nat)
    requires AtLeast(w, x, r)
    ensures Holds(w, x, s) && s >= r
  {
    s :| Holds(w, x, s) && s >= r;
  }

  lemma LessStill(w: Waiting, x: nat, a: int, b: int)
    requires b <= a
    ensures AtLeast(w, x, a) ==> AtLeast(w, x, b)
  {
    if AtLeast(w, x, a) {
      var s := SomeTicks(w, x, a);
      AtLeastIntro(w, x, s, b);
    }
  }

  /** No entry is due: nothing was put off. */
  ghost predicate NoneDue(w: Waiting) {
    w.ds != [] ==> w.ds[0] > 0
  }

  lemma StepKeepsNoneDue(w: Waiting, op: DelayOp)
    requires Sound(w) && Allowed(w, op) && NoneDue(w) && (op.TickStep? ==> !op.locked)
    ensures NoneDue(Step(w, op))
  {
    match op
    case Delay(t, n) =>
      StopInReach(w.ds, n, 0);
      InReachIsExact(w.ds, n);
      var k, v := Stop(w.ds, n, 0), NewCount(w.ds, n);
      if k == 0 {
        var es := InsertDeltas(w.ds, 0, v);
        assert Sum(es, 1) == Sum(es, 0) + es[0];
      }
    case Cancel(k) =>
    case TickStep(locked) =>
    case Service =>
  }

  ghost predicate NeverLocked(ops: seq<DelayOp>) {
    forall i | 0 <= i < |ops| :: ops[i].TickStep? ==> !ops[i].locked
  }

  /** The task has exactly `r` ticks to wait, or has left the list. */
  ghost predicate OnTime(w: Waiting, x: nat, r: int) {
    if r > 0 then Holds(w, x, r) else x !in w.l
  }

  lemma StepOnTime(w: Waiting, op: DelayOp, x: nat, r: int)
    requires Sound(w) && Allowed(w, op) && LeavesAlone(w, op, x) && NoneDue(w) && OnTime(w, x, r)
    requires op.TickStep? ==> !op.locked
    ensures Sound(Step(w, op)) && NoneDue(Step(w, op)) && OnTime(Step(w, op), x, r - if op.TickStep? then 1 else 0)
  {
    hide Step, Allowed, Holds, NoneDue, Sound;
    StepKeepsSound(w, op);
    StepKeepsNoneDue(w, op);
    if r > 0 {
      NotDueYet(w, x, r);
      StepTask(w, op, x, r);
    } else {
      StaysOut(w, op, x);
    }
  }

  lemma {:induction false} RunOnTime(w: Waiting, ops: seq<DelayOp>, x: nat, r: int)
    requires Sound(w) && AllowedRun(w, ops, x) && NoneDue(w) && NeverLocked(ops) && OnTime(w, x, r)
    ensures OnTime(Run(w, ops, x), x, r - Ticks(ops))
    decreases |ops|
  {
    hide Step, Allowed, OnTime, Sound, LeavesAlone, NoneDue;
    if ops != [] {
      assert ops[0].TickStep? ==> !ops[0].locked;
      StepOnTime(w, ops[0], x, r);
      RunOnTime(Step(w, ops[0]), ops[1..], x, r - if ops[0].TickStep? then 1 else 0);
    }
  }

  /** When no tick finds the scheduler locked, a task with r ticks to wait leaves the list at exactly
      the r-th tick. */
  lemma ExactlyOnTime(w: Waiting, ops: seq<DelayOp>, x: nat, r: nat)
    requires Sound(w) && AllowedRun(w, ops, x) && NoneDue(w) && NeverLocked(ops) && Holds(w, x, r)
    ensures var e := Run(w, ops, x);
            if Ticks(ops) < r then Holds(e, x, r - Ticks(ops)) else x !in e.l
  {
    hide *;
    NotDueYet(w, x, r);
    OnTimeIs(w, x, r);
    RunOnTime(w, ops, x, r);
    OnTimeIs(Run(w, ops, x), x, r - Ticks(ops));
  }

  lemma OnTimeIs(w: Waiting, x: nat, r: int)
    ensures OnTime(w, x, r) <==> if r > 0 then Holds(w, x, r) else x !in w.l
  {
  }

  lemma NotDueYet(w: Waiting, x: nat, r: nat)
    requires Sound(w) && NoneDue(w) && Holds(w, x, r)
    ensures r > 0 && w.ds != [] && w.ds[0] > 0
  {
    var i :| 0 <= i < |w.l| && w.l[i] == x && Due(w.ds, i) == r;
    SumMono(w.ds, 1, i + 1);
    assert Sum(w.ds, 1) == Sum(w.ds, 0) + w.ds[0];
  }
}
