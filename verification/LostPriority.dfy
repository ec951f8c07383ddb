/** What becomes of priorities when mutexes are handed on (mutex.c, CoLeaveMutexSection): when the new
    owner gets the urgency of those that wait, and a run that leaves a task with a foreign priority. */
module LostPriority {
  import opened TaskList
  import opened ReadyList
  import opened KernelState
  import opened MutexRuns

  /** `p` is the smallest priority value among the tasks `l`. */
  ghost predicate IsLeast(prio: seq<nat>, l: seq<nat>, p: nat)
    requires Known(prio, l)
  {
    (exists j | 0 <= j < |l| :: prio[l[j]] == p) && forall j | 0 <= j < |l| :: p <= prio[l[j]]
  }

  lemma {:induction false} BestAttained(prio: seq<nat>, l: seq<nat>, i: nat, p: nat, top: int)
    requires i <= |l| && Known(prio, l)
    ensures var b := Best(prio, l, i, p, top).0; b == p || exists j | 0 <= j < |l| :: prio[l[j]] == b
    decreases |l| - i
  {
    if i < |l| {
      if prio[l[i]] < p {
        BestAttained(prio, l, i + 1, prio[l[i]], l[i]);
      } else {
        BestAttained(prio, l, i + 1, p, top);
      }
    }
  }

  /** Lines 226-246: the new owner gets the smallest priority value among the waiting tasks exactly when
      hipriTaskID names the former owner, or the former owner's own priority is that value. */
  lemma HandOverIsLeastIff(s: Locks, m: nat)
    requires LocksInv(s) && m < |s.table| && s.table[m].occupied && s.table[m].waiting != []
    ensures var x, r := s.table[m], LeftMutex(s, m);
            && Known(s.prio, x.waiting) && 0 <= x.owner < |s.prio| == |r.prio| && x.waiting[0] < |s.prio|
            && (IsLeast(s.prio, x.waiting, r.prio[x.waiting[0]])
                <==> x.top == x.owner || IsLeast(s.prio, x.waiting, s.prio[x.owner]))
  {
    MutexAt(s, m);
    var x, r := s.table[m], LeftMutex(s, m);
    var o: nat, w := x.owner, x.waiting[0];
    assert w in x.waiting;
    RestoreKeeps(s.(mutexID := s.mutexID[o := INVALID_ID]), o, x.original);
    if x.top == o {
      BestAttained(s.prio, x.waiting, 0, s.prio[w], x.top);
    }
  }

  /** Whom the scan names: nobody new when the first task is the most urgent, else the first of the most urgent. */
  lemma {:induction false} BestNames(prio: seq<nat>, l: seq<nat>, i: nat, p: nat, top: int)
    requires i <= |l| && Known(prio, l)
    ensures var b := Best(prio, l, i, p, top);
            if b.0 == p then b.1 == top
            else exists j | i <= j < |l| :: l[j] == b.1 && prio[l[j]] == b.0 < p && forall x | i <= x < j :: b.0 < prio[l[x]]
    decreases |l| - i
  {
    if i < |l| {
      if prio[l[i]] < p {
        BestNames(prio, l, i + 1, prio[l[i]], l[i]);
        var b := Best(prio, l, i + 1, prio[l[i]], l[i]);
        if b.0 != prio[l[i]] {
          var j :| i + 1 <= j < |l| && l[j] == b.1 && prio[l[j]] == b.0 < prio[l[i]] && forall x | i + 1 <= x < j :: b.0 < prio[l[x]];
          assert forall x | i <= x < j :: b.0 < prio[l[x]];
        }
      } else {
        BestNames(prio, l, i + 1, p, top);
        var b := Best(prio, l, i + 1, p, top);
        if b.0 != p {
          var j :| i + 1 <= j < |l| && l[j] == b.1 && prio[l[j]] == b.0 < p && forall x | i + 1 <= x < j :: b.0 < prio[l[x]];
          assert forall x | i <= x < j :: b.0 < prio[l[x]];
        }
      }
    }
  }

  /** Lines 226-253: after a hand-over hipriTaskID names whom it named, the former owner included, unless it named
      the former owner and the new one is not the most urgent of those that waited; then it names the first of
      the most urgent. */
  lemma HandOverNames(s: Locks, m: nat)
    requires LocksInv(s) && m < |s.table| && s.table[m].occupied && s.table[m].waiting != []
    ensures var x, r := s.table[m], LeftMutex(s, m);
            && Known(s.prio, x.waiting) && m < |r.table|
            && if x.top != x.owner || IsLeast(s.prio, x.waiting, s.prio[x.waiting[0]]) then r.table[m].top == x.top
               else exists j | 0 <= j < |x.waiting| ::
                      && x.waiting[j] == r.table[m].top && IsLeast(s.prio, x.waiting, s.prio[x.waiting[j]])
                      && forall i | 0 <= i < j :: s.prio[x.waiting[j]] < s.prio[x.waiting[i]]
  {
    MutexAt(s, m);
    var x, r := s.table[m], LeftMutex(s, m);
    LeaveHandsOver(s, m);
    if x.top == x.owner {
      var w := x.waiting[0];
      assert w in x.waiting;
      BestNames(s.prio, x.waiting, 0, s.prio[w], x.top);
      BestAttained(s.prio, x.waiting, 0, s.prio[w], x.top);
      hide LocksInv, HandedOver, MutexOk;
    }
  }

  /** One run behind another. */
  lemma {:induction false} RunsJoin(s: Locks, a: seq<LockOp>, b: seq<LockOp>)
    requires LocksInv(s) && LockRun(s, a) && LockRun(AfterRun(s, a), b)
    ensures LockRun(s, a + b) && AfterRun(s, a + b) == AfterRun(AfterRun(s, a), b)
    decreases |a|
  {
    hide LocksInv, LockAllowed, LockStep;
    if a == [] {
      assert a + b == b;
    } else {
      RunsJoin(LockStep(s, a[0]), a[1..], b);
      assert (a + b)[0] == a[0] && (a + b)[1..] == a[1..] + b;
    }
  }

  lemma OneStep(s: Locks, op: LockOp, r: Locks)
    requires LocksInv(s) && LockAllowed(s, op) && LockStep(s, op) == r
    ensures LockRun(s, [op]) && AfterRun(s, [op]) == r
  {
    hide LocksInv, LockAllowed, LockStep;
    assert [op][1..] == [];
  }

  /** The run `a` leads from `s` to `r`. */
  ghost predicate Leads(s: Locks, a: seq<LockOp>, r: Locks) {
    LocksInv(s) && LockRun(s, a) && AfterRun(s, a) == r
  }

  lemma LeadsOn(s: Locks, a: seq<LockOp>, q: Locks, op: LockOp, r: Locks)
    requires Leads(s, a, q) && LockAllowed(q, op) && LockStep(q, op) == r
    ensures Leads(s, a + [op], r) && LocksInv(r)
  {
    OneStep(q, op, r);
    RunsJoin(s, a, [op]);
  }

  /** Only the idle task runs, and all others sleep or wait; there is one mutex. */
  ghost predicate AtRest(s: Locks) {
    && LocksInv(s) && s.running == 0 && s.ready == [] && |s.table| == 1 && s.mutexID[0] == INVALID_ID
  }

  /** Task `t` wakes up and runs. */
  lemma Comes(s: Locks, t: nat)
    requires AtRest(s) && 0 < t < |s.prio| && t !in s.table[0].waiting
    ensures Leads(s, [Wake(t), Dispatch(true)], s.(running := t, ready := [0]))
    ensures LocksInv(s.(running := t, ready := [0]))
  {
    var q, r := s.(ready := [t]), s.(running := t, ready := [0]);
    NamesNone(s, 0, 0);
    assert LockAllowed(s, Wake(t));
    assert LockStep(s, Wake(t)) == q by { IntoEmpty(s.prio, t); }
    OneStep(s, Wake(t), q);
    assert LockAllowed(q, Dispatch(true));
    assert LockStep(q, Dispatch(true)) == r by { IntoEmpty(s.prio, 0); assert RemoveAt([t], 0) == []; }
    LeadsOn(s, [Wake(t)], q, Dispatch(true), r);
    assert [Wake(t)] + [Dispatch(true)] == [Wake(t), Dispatch(true)];
  }

  lemma IntoEmpty(prio: seq<nat>, t: nat)
    requires t < |prio|
    ensures TaskList.Insert(prio, [], t) == [t]
  {
  }

  function EnterOps(t: nat): seq<LockOp> {
    [Wake(t), Dispatch(true), Enter(0), Dispatch(false)]
  }

  function LeaveOps(t: nat): seq<LockOp> {
    [Wake(t), Dispatch(true), Leave(0), Dispatch(false), Dispatch(false)]
  }

  /** Task `t` comes, takes the mutex or waits for it, and nobody needs to be raised. */
  lemma ComesToEnter(s: Locks, t: nat)
    requires AtRest(s) && 0 < t < |s.prio| && s.mutexID[t] == INVALID_ID
    requires var x := s.table[0]; x.occupied && 0 <= x.owner < |s.prio| ==> s.prio[x.owner] <= s.prio[t]
    ensures var x := s.table[0];
            var y := if x.occupied then x.(waiting := x.waiting + [t]) else Mutex(true, t, s.prio[t], t, []);
            var r := s.(mutexID := s.mutexID[t := 0], table := [y]);
            Leads(s, EnterOps(t), r) && AtRest(r)
  {
    hide *;
    RestFacts(s);
    NamesNone(s, t, 0);
    Comes(s, t);
    var q := s.(running := t, ready := [0]);
    var x := s.table[0];
    var y := if x.occupied then x.(waiting := x.waiting + [t]) else Mutex(true, t, s.prio[t], t, []);
    var r := s.(mutexID := s.mutexID[t := 0], table := [y]);
    var u := r.(running := t, ready := [0]);
    EntersAt(q, t);
    LeadsOn(s, [Wake(t), Dispatch(true)], q, Enter(0), u);
    HeadRuns(u, 0, []);
    LeadsOn(s, [Wake(t), Dispatch(true)] + [Enter(0)], u, Dispatch(false), r);
    EnterOpsIs(t);
    RestIntro(r);
  }

  lemma EnterOpsIs(t: nat)
    ensures [Wake(t), Dispatch(true)] + [Enter(0)] + [Dispatch(false)] == EnterOps(t)
  {
  }

  lemma RestFacts(s: Locks)
    requires AtRest(s)
    ensures LocksInv(s) && s.running == 0 && s.ready == [] && |s.table| == 1 && 0 < |s.mutexID| == |s.prio|
    ensures s.mutexID[0] == INVALID_ID && Known(s.prio, s.table[0].waiting)
  {
    MutexAt(s, 0);
  }

  /** The entry itself. */
  lemma EntersAt(q: Locks, t: nat)
    requires LocksInv(q) && |q.table| == 1 && q.running == t < |q.prio| == |q.mutexID| && q.mutexID[t] == INVALID_ID
    requires var x := q.table[0]; x.occupied && 0 <= x.owner < |q.prio| ==> q.prio[x.owner] <= q.prio[t]
    ensures LockAllowed(q, Enter(0))
    ensures var x := q.table[0];
            var y := if x.occupied then x.(waiting := x.waiting + [t]) else Mutex(true, t, q.prio[t], t, []);
            LockStep(q, Enter(0)) == q.(mutexID := q.mutexID[t := 0], table := [y])
  {
    MutexAt(q, 0);
  }

  /** The owner `t`, never raised, comes and leaves the mutex to the only waiting task, which runs in turn
      and goes to sleep.  hipriTaskID keeps the task it named. */
  lemma ComesToLeave(s: Locks, t: nat, w: nat, p: nat)
    requires AtRest(s) && 0 < t < |s.prio| && 0 < w < |s.prio| && t != w
    requires var x := s.table[0]; x.occupied && x.owner == t && x.waiting == [w] && x.original == s.prio[t]
    requires p == (if s.table[0].top == t then s.prio[w] else s.prio[t]) && p < s.prio[0]
    ensures var x := s.table[0];
            var r := s.(prio := s.prio[w := p], mutexID := s.mutexID[t := INVALID_ID],
                        table := [Mutex(true, w, s.prio[w], x.top, [])]);
            Leads(s, LeaveOps(t), r) && AtRest(r)
  {
    hide *;
    RestsWith(s, t, w);
    Comes(s, t);
    var x := s.table[0];
    var q := s.(running := t, ready := [0]);
    var v := s.(prio := s.prio[w := p], mutexID := s.mutexID[t := INVALID_ID], table := [Mutex(true, w, s.prio[w], x.top, [])]);
    var u, z := v.(running := t, ready := [w, 0]), v.(running := w, ready := [0]);
    LeavesTo(q, t, w, p);
    LeadsOn(s, [Wake(t), Dispatch(true)], q, Leave(0), u);
    assert [Wake(t), Dispatch(true)] + [Leave(0)] == [Wake(t), Dispatch(true), Leave(0)];
    HeadRuns(u, w, [0]);
    LeadsOn(s, [Wake(t), Dispatch(true), Leave(0)], u, Dispatch(false), z);
    assert [Wake(t), Dispatch(true), Leave(0)] + [Dispatch(false)] == [Wake(t), Dispatch(true), Leave(0), Dispatch(false)];
    HeadRuns(z, 0, []);
    LeadsOn(s, [Wake(t), Dispatch(true), Leave(0), Dispatch(false)], z, Dispatch(false), v);
    LeaveOpsIs(t);
    RestIntro(v);
  }

  lemma RestsWith(s: Locks, t: nat, w: nat)
    requires AtRest(s) && s.table[0].occupied && s.table[0].owner == t && s.table[0].waiting == [w] && t != w
    ensures LocksInv(s) && s.running == 0 && s.ready == [] && |s.table| == 1 && s.mutexID[0] == INVALID_ID
    ensures 0 < |s.mutexID| == |s.prio| && t !in s.table[0].waiting
  {
  }

  lemma RestIntro(s: Locks)
    requires LocksInv(s) && s.running == 0 && s.ready == [] && |s.table| == 1 && |s.mutexID| > 0 && s.mutexID[0] == INVALID_ID
    ensures AtRest(s)
  {
  }

  lemma LeaveOpsIs(t: nat)
    ensures [Wake(t), Dispatch(true), Leave(0), Dispatch(false)] + [Dispatch(false)] == LeaveOps(t)
  {
  }

  /** The running task stops and the head of the ready list runs. */
  lemma HeadRuns(s: Locks, t: nat, rest: seq<nat>)
    requires LocksInv(s) && s.ready == [t] + rest
    ensures LockAllowed(s, Dispatch(false)) && LockStep(s, Dispatch(false)) == s.(running := t, ready := rest)
  {
    assert RemoveAt([t] + rest, 0) == rest;
  }

  /** The hand-over itself. */
  lemma LeavesTo(q: Locks, t: nat, w: nat, p: nat)
    requires LocksInv(q) && |q.table| == 1 && q.running == t < |q.prio| && w < |q.prio| && q.ready == [0] && t != w
    requires var x := q.table[0]; x.occupied && x.owner == t && x.waiting == [w] && x.original == q.prio[t]
    requires p == (if q.table[0].top == t then q.prio[w] else q.prio[t]) && p < q.prio[0]
    ensures LockAllowed(q, Leave(0))
    ensures LockStep(q, Leave(0))
            == q.(prio := q.prio[w := p], mutexID := q.mutexID[t := INVALID_ID], ready := [w, 0],
                  table := [Mutex(true, w, q.prio[w], q.table[0].top, [])])
  {
    var x := q.table[0];
    MutexAt(q, 0);
    assert w in x.waiting;
    OnlyOne(q.prio, w, x.top);
    BeforeIdle(q.prio[w := p], w);
    assert [w][1..] == [];
  }

  lemma OnlyOne(prio: seq<nat>, w: nat, top: int)
    requires w < |prio|
    ensures Best(prio, [w], 0, prio[w], top) == (prio[w], top)
  {
    assert Best(prio, [w], 1, prio[w], top) == (prio[w], top);
  }

  lemma BeforeIdle(prio: seq<nat>, w: nat)
    requires w < |prio| && prio[w] < prio[0]
    ensures TaskList.Insert(prio, [0], w) == [w, 0]
  {
  }

  /** The last user comes and leaves. */
  lemma ComesLast(s: Locks, t: nat)
    requires AtRest(s) && 0 < t < |s.prio|
    requires var x := s.table[0]; x.occupied && x.owner == t && x.waiting == []
    ensures var r := s.(running := t, ready := [0], mutexID := s.mutexID[t := INVALID_ID],
                        table := [s.table[0].(occupied := false, owner := INVALID_ID)]);
            Leads(s, [Wake(t), Dispatch(true), Leave(0)], r)
  {
    MutexAt(s, 0);
    Comes(s, t);
    var q := s.(running := t, ready := [0]);
    var r := q.(mutexID := s.mutexID[t := INVALID_ID], table := [s.table[0].(occupied := false, owner := INVALID_ID)]);
    assert LockStep(q, Leave(0)) == r;
    LeadsOn(s, [Wake(t), Dispatch(true)], q, Leave(0), r);
    assert [Wake(t), Dispatch(true)] + [Leave(0)] == [Wake(t), Dispatch(true), Leave(0)];
  }

  lemma LeadsFurther(s: Locks, a: seq<LockOp>, q: Locks, b: seq<LockOp>, r: Locks)
    requires Leads(s, a, q) && Leads(q, b, r)
    ensures Leads(s, a + b, r)
  {
    RunsJoin(s, a, b);
  }

  /** The idle task and tasks of priority 5, 7 and 9 with one mutex: the last one's priority, the mutex
      each names, and the mutex. */
  ghost function Rests(p: nat, ids: seq<int>, x: Mutex): Locks {
    Locks([64, 5, 7, p], [64, 5, 7, 9], [], 0, ids, [x])
  }

  lemma RestsIs(p: nat, ids: seq<int>, x: Mutex)
    ensures Rests(p, ids, x) == Locks([64, 5, 7, p], [64, 5, 7, 9], [], 0, ids, [x]) && INVALID_ID == N
  {
  }

  /** Each takes the mutex in order, leaving it when only the next one waits. */
  function InOrder(): seq<LockOp> {
    EnterOps(1) + EnterOps(2) + LeaveOps(1) + EnterOps(3) + LeaveOps(2) + [Wake(3), Dispatch(true), Leave(0)]
  }

  const N: int := INVALID_ID

  lemma SetInFour<T>(a: T, b: T, c: T, d: T, x: T)
    ensures [a, b, c, d][1 := x] == [a, x, c, d] && [a, b, c, d][2 := x] == [a, b, x, d]
    ensures [a, b, c, d][3 := x] == [a, b, c, x]
  {
  }

  lemma FirstTakes()
    ensures var r := Rests(9, [N, 0, N, N], Mutex(true, 1, 5, 1, []));
            Leads(Initially([64, 5, 7, 9], 1), EnterOps(1), r) && AtRest(r)
  {
    hide *;
    var s := Initially([64, 5, 7, 9], 1);
    StartIs();
    RestIntro(s);
    RestsIs(9, [N, 0, N, N], Mutex(true, 1, 5, 1, []));
    ComesToEnter(s, 1);
    assert s.mutexID[1 := 0] == [N, 0, N, N];
  }

  lemma StartIs()
    ensures var s := Initially([64, 5, 7, 9], 1);
            && LocksInv(s) && s == Locks([64, 5, 7, 9], [64, 5, 7, 9], [], 0, [N, N, N, N], [Mutex(false, N, 0, N, [])])
            && INVALID_ID == N
  {
    InitiallyInv([64, 5, 7, 9], 1);
    hide LocksInv;
    var s := Initially([64, 5, 7, 9], 1);
    assert s.mutexID == [N, N, N, N];
    assert s.table == [Mutex(false, N, 0, N, [])];
  }

  lemma SecondWaits()
    requires AtRest(Rests(9, [N, 0, N, N], Mutex(true, 1, 5, 1, [])))
    ensures var r := Rests(9, [N, 0, 0, N], Mutex(true, 1, 5, 1, [2]));
            Leads(Rests(9, [N, 0, N, N], Mutex(true, 1, 5, 1, [])), EnterOps(2), r) && AtRest(r)
  {
    var s := Rests(9, [N, 0, N, N], Mutex(true, 1, 5, 1, []));
    hide *;
    RestsIs(9, [N, 0, N, N], Mutex(true, 1, 5, 1, []));
    RestsIs(9, [N, 0, 0, N], Mutex(true, 1, 5, 1, [2]));
    SetInFour(N, 0, N, N, 0);
    ComesToEnter(s, 2);
    assert s.table[0].waiting + [2] == [2];
  }

  lemma FirstLeaves()
    requires AtRest(Rests(9, [N, 0, 0, N], Mutex(true, 1, 5, 1, [2])))
    ensures var r := Rests(9, [N, N, 0, N], Mutex(true, 2, 7, 1, []));
            Leads(Rests(9, [N, 0, 0, N], Mutex(true, 1, 5, 1, [2])), LeaveOps(1), r) && AtRest(r)
  {
    var s := Rests(9, [N, 0, 0, N], Mutex(true, 1, 5, 1, [2]));
    hide *;
    RestsIs(9, [N, 0, 0, N], Mutex(true, 1, 5, 1, [2]));
    RestsIs(9, [N, N, 0, N], Mutex(true, 2, 7, 1, []));
    SetInFour(N, 0, 0, N, N);
    SetInFour(64, 5, 7, 9, 7);
    ComesToLeave(s, 1, 2, 7);
  }

  lemma ThirdWaits()
    requires AtRest(Rests(9, [N, N, 0, N], Mutex(true, 2, 7, 1, [])))
    ensures var r := Rests(9, [N, N, 0, 0], Mutex(true, 2, 7, 1, [3]));
            Leads(Rests(9, [N, N, 0, N], Mutex(true, 2, 7, 1, [])), EnterOps(3), r) && AtRest(r)
  {
    var s := Rests(9, [N, N, 0, N], Mutex(true, 2, 7, 1, []));
    hide *;
    RestsIs(9, [N, N, 0, N], Mutex(true, 2, 7, 1, []));
    RestsIs(9, [N, N, 0, 0], Mutex(true, 2, 7, 1, [3]));
    SetInFour(N, N, 0, N, 0);
    ComesToEnter(s, 3);
    assert s.table[0].waiting + [3] == [3];
  }

  lemma SecondLeaves()
    requires AtRest(Rests(9, [N, N, 0, 0], Mutex(true, 2, 7, 1, [3])))
    ensures var r := Rests(7, [N, N, N, 0], Mutex(true, 3, 9, 1, []));
            Leads(Rests(9, [N, N, 0, 0], Mutex(true, 2, 7, 1, [3])), LeaveOps(2), r) && AtRest(r)
  {
    var s := Rests(9, [N, N, 0, 0], Mutex(true, 2, 7, 1, [3]));
    hide *;
    RestsIs(9, [N, N, 0, 0], Mutex(true, 2, 7, 1, [3]));
    RestsIs(7, [N, N, N, 0], Mutex(true, 3, 9, 1, []));
    SetInFour(N, N, 0, 0, N);
    SetInFour(64, 5, 7, 9, 7);
    ComesToLeave(s, 2, 3, 7);
  }

  /** The system at the end: nobody names the mutex, which is free, and the third task has priority 7. */
  ghost function Ended(): Locks {
    Rests(7, [N, N, N, N], Mutex(false, N, 9, 1, [])).(running := 3, ready := [0])
  }

  lemma EndedIs()
    ensures Ended() == Locks([64, 5, 7, 7], [64, 5, 7, 9], [0], 3, [N, N, N, N], [Mutex(false, N, 9, 1, [])])
  {
  }

  lemma ThirdLeaves()
    requires AtRest(Rests(7, [N, N, N, 0], Mutex(true, 3, 9, 1, [])))
    ensures Leads(Rests(7, [N, N, N, 0], Mutex(true, 3, 9, 1, [])), [Wake(3), Dispatch(true), Leave(0)], Ended())
  {
    var s := Rests(7, [N, N, N, 0], Mutex(true, 3, 9, 1, []));
    hide *;
    RestsIs(7, [N, N, N, 0], Mutex(true, 3, 9, 1, []));
    RestsIs(7, [N, N, N, N], Mutex(false, N, 9, 1, []));
    EndedIs();
    SetInFour(N, N, N, 0, N);
    ComesLast(s, 3);
  }

  /** A run in which no owner is ever raised and a task still ends up with a priority that is not its own:
      hipriTaskID goes on naming the first owner, so the second one hands its own priority to the third,
      which keeps it when it leaves as the last. */
  lemma PriorityNotGivenBack()
    ensures Leads(Initially([64, 5, 7, 9], 1), InOrder(), Ended())
    ensures Ended().base[3] == 9 && Ended().prio[3] == 7 && Ended().mutexID[3] == INVALID_ID
    ensures !Ended().table[0].occupied && Ended().table[0].waiting == []
  {
    hide *;
    FirstTakes();
    SecondWaits();
    FirstLeaves();
    ThirdWaits();
    SecondLeaves();
    ThirdLeaves();
    EndedIs();
    InOrderIs();
    SixVisits(Initially([64, 5, 7, 9], 1),
              EnterOps(1), Rests(9, [N, 0, N, N], Mutex(true, 1, 5, 1, [])),
              EnterOps(2), Rests(9, [N, 0, 0, N], Mutex(true, 1, 5, 1, [2])),
              LeaveOps(1), Rests(9, [N, N, 0, N], Mutex(true, 2, 7, 1, [])),
              EnterOps(3), Rests(9, [N, N, 0, 0], Mutex(true, 2, 7, 1, [3])),
              LeaveOps(2), Rests(7, [N, N, N, 0], Mutex(true, 3, 9, 1, [])),
              [Wake(3), Dispatch(true), Leave(0)], Ended());
  }

  lemma SixVisits(s: Locks, a: seq<LockOp>, s1: Locks, b: seq<LockOp>, s2: Locks, c: seq<LockOp>, s3: Locks,
                  d: seq<LockOp>, s4: Locks, e: seq<LockOp>, s5: Locks, f: seq<LockOp>, s6: Locks)
    requires Leads(s, a, s1) && Leads(s1, b, s2) && Leads(s2, c, s3) && Leads(s3, d, s4) && Leads(s4, e, s5) && Leads(s5, f, s6)
    ensures Leads(s, a + b + c + d + e + f, s6)
  {
    hide *;
    LeadsFurther(s, a, s1, b, s2);
    LeadsFurther(s, a + b, s2, c, s3);
    LeadsFurther(s, a + b + c, s3, d, s4);
    LeadsFurther(s, a + b + c + d, s4, e, s5);
    LeadsFurther(s, a + b + c + d + e, s5, f, s6);
  }

  lemma InOrderIs()
    ensures InOrder() == EnterOps(1) + EnterOps(2) + LeaveOps(1) + EnterOps(3) + LeaveOps(2) + [Wake(3), Dispatch(true), Leave(0)]
    ensures INVALID_ID == N
  {
  }
}
