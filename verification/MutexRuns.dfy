/** Mutexes with raised owners (mutex.c, CoEnterMutexSection and CoLeaveMutexSection; task.c,
    CoSetPriority): over every run each occupied mutex has one owner, no waiting task is more urgent than
    it, and waiting tasks become owners in the order they came. */
module MutexRuns {
  import opened Lists
  import opened TaskList
  import opened ReadyList
  import opened KernelState

  /** `owner` is taskID, `original` originalPrio and `top` hipriTaskID. */
  datatype Mutex = Mutex(occupied: bool, owner: int, original: nat, top: int, waiting: seq<nat>)

  /** Priorities now and as created, the ready list, the running task, and the mutex each task holds or
      waits for. */
  datatype Locks = Locks(prio: seq<nat>, base: seq<nat>, ready: seq<nat>, running: nat, mutexID: seq<int>, table: seq<Mutex>)

  /** The priorities of the waiting tasks from position `i` on, against the best so far: the smallest value,
      and the task hipriTaskID names in the end. */
  function Best(prio: seq<nat>, l: seq<nat>, i: nat, p: nat, top: int): (r: (nat, int))
    requires i <= |l| && Known(prio, l)
    ensures r.0 <= p && (forall j | i <= j < |l| :: r.0 <= prio[l[j]])
    decreases |l| - i
  {
    if i == |l| then (p, top)
    else if prio[l[i]] < p then Best(prio, l, i + 1, prio[l[i]], l[i])
    else Best(prio, l, i + 1, p, top)
  }

  /** The ready list after the priority of task `o` changed. */
  ghost function Requeued(prio: seq<nat>, ready: seq<nat>, o: nat): seq<nat>
    requires o < |prio| && Known(prio, ready)
  {
    if o in ready then TaskList.Insert(prio, RemoveAt(ready, IndexOf(ready, o)), o) else ready
  }

  ghost predicate Fields(s: Locks) {
    && s.running < |s.prio| == |s.base| == |s.mutexID| <= INVALID_ID && |s.table| <= INVALID_ID
    && InTable(|s.prio|, s.ready)
    && forall m | 0 <= m < |s.table| :: InTable(|s.prio|, s.table[m].waiting)
  }

  /** Mutex `m` is occupied exactly when it has an owner; its owner and the waiting tasks name it and are
      apart, a free one is not waited for, and the owner is at least as urgent as on entry and as every
      waiting task. */
  ghost predicate MutexOk(s: Locks, m: nat)
    requires Fields(s) && m < |s.table|
  {
    var x := s.table[m];
    && (x.occupied <==> 0 <= x.owner < |s.prio|)
    && (!x.occupied ==> x.owner == INVALID_ID && x.waiting == [])
    && (x.occupied ==>
          && s.mutexID[x.owner] == m && x.owner !in x.waiting && s.prio[x.owner] <= x.original <= s.base[x.owner]
          && forall w | w in x.waiting :: s.prio[x.owner] <= s.prio[w])
    && forall w | w in x.waiting :: w < |s.prio| && s.mutexID[w] == m && w !in s.ready
  }

  /** A task names the mutex it owns or waits for, and is never less urgent than it was created. */
  ghost predicate TaskOk(s: Locks, t: nat)
    requires Fields(s) && t < |s.prio|
  {
    && s.prio[t] <= s.base[t]
    && (s.mutexID[t] == INVALID_ID || 0 <= s.mutexID[t] < |s.table|)
    && (s.mutexID[t] != INVALID_ID ==> s.table[s.mutexID[t]].owner == t || t in s.table[s.mutexID[t]].waiting)
  }

  ghost predicate LocksInv(s: Locks) {
    && Fields(s) && SortedBy(s.prio, s.ready) && s.running !in s.ready
    && (forall m | 0 <= m < |s.table| :: MutexOk(s, m))
    && forall t | 0 <= t < |s.prio| :: TaskOk(s, t)
  }

  /** No task has run yet but the idle one, and every mutex is free. */
  ghost function Initially(priorities: seq<nat>, mutexes: nat): Locks
    requires 0 < |priorities|
  {
    Locks(priorities, priorities, [], 0, seq(|priorities|, i => INVALID_ID),
          seq(mutexes, i => Mutex(false, INVALID_ID, 0, INVALID_ID, [])))
  }

  lemma InitiallyInv(priorities: seq<nat>, mutexes: nat)
    requires 0 < |priorities| <= INVALID_ID && mutexes <= INVALID_ID
    ensures LocksInv(Initially(priorities, mutexes))
  {
  }

  /** The running task waits for a mutex. */
  ghost predicate Blocked(s: Locks)
    requires Fields(s)
  {
    exists m | 0 <= m < |s.table| :: s.running in s.table[m].waiting
  }

  /** The owner gets the priority of a more urgent task that comes to wait. */
  ghost function Raised(s: Locks, o: nat, p: nat): Locks
    requires o < |s.prio| && Known(s.prio, s.ready)
  {
    var prio := s.prio[o := p];
    s.(prio := prio, ready := Requeued(prio, s.ready, o))
  }

  /** CoSetPriority, for a task that names no mutex. */
  ghost function Restored(s: Locks, o: nat, p: nat): Locks
    requires o < |s.prio| && Known(s.prio, s.ready)
  {
    if o == 0 || s.prio[o] == p then s else Raised(s, o, p)
  }

  /** CoEnterMutexSection by the running task. */
  ghost function Entered(s: Locks, m: nat): Locks
    requires LocksInv(s) && m < |s.table|
  {
    var t, x := s.running, s.table[m];
    var u := s.(mutexID := s.mutexID[t := m]);
    if !x.occupied then
      u.(table := s.table[m := Mutex(true, t, s.prio[t], t, x.waiting)])
    else
      MutexAt(s, m);
      var raise := s.prio[x.owner] > s.prio[t];
      var v := if raise then Raised(u, x.owner, s.prio[t]) else u;
      v.(table := s.table[m := x.(top := if raise then t else x.top, waiting := x.waiting + [t])])
  }

  /** CoLeaveMutexSection for an occupied mutex. */
  ghost function LeftMutex(s: Locks, m: nat): Locks
    requires LocksInv(s) && m < |s.table| && s.table[m].occupied
  {
    MutexAt(s, m);
    var x := s.table[m];
    var o: nat := x.owner;
    var u := s.(mutexID := s.mutexID[o := INVALID_ID]);
    if x.waiting == [] then
      u.(table := s.table[m := x.(occupied := false, owner := INVALID_ID)])
    else
      var w := x.waiting[0];
      var best := if x.top == o then Best(s.prio, x.waiting, 0, s.prio[w], x.top) else (s.prio[o], x.top);
      var v := Restored(u, o, x.original);
      assert w in x.waiting;
      var prio := v.prio[w := best.0];
      assert Known(prio, v.ready);
      v.(prio := prio, ready := TaskList.Insert(prio, v.ready, w),
         table := s.table[m := Mutex(true, w, s.prio[w], best.1, x.waiting[1..])])
  }

  lemma MutexAt(s: Locks, m: nat)
    requires LocksInv(s) && m < |s.table|
    ensures MutexOk(s, m) && InTable(|s.prio|, s.table[m].waiting) && Known(s.prio, s.table[m].waiting) && Known(s.prio, s.ready)
  {
  }

  lemma TaskAt(s: Locks, t: nat)
    requires LocksInv(s) && t < |s.prio|
    ensures TaskOk(s, t)
  {
  }

  /** A task that names no mutex owns none and waits for none. */
  lemma NamesNone(s: Locks, t: nat, m: nat)
    requires LocksInv(s) && t < |s.prio| && s.mutexID[t] == INVALID_ID && m < |s.table|
    ensures t !in s.table[m].waiting && s.table[m].owner != t
  {
    MutexAt(s, m);
  }

  lemma RequeueKeeps(prio: seq<nat>, ready: seq<nat>, o: nat, p: nat)
    requires InTable(|prio|, ready) && SortedBy(prio, ready) && o < |prio|
    ensures var q := prio[o := p];
            && Known(q, ready)
            && var r := Requeued(q, ready, o);
               InTable(|prio|, r) && SortedBy(q, r) && forall x :: x in r <==> x in ready
  {
    var q := prio[o := p];
    if o in ready {
      var k := IndexOf(ready, o);
      var rest := RemoveAt(ready, k);
      InTableRemove(|prio|, ready, k);
      RemoveKeepsOrder(prio, ready, k);
      SortedWithout(prio, rest, o, p);
      InsertIsStable(q, rest, o);
      InTableInsert(|prio|, rest, Place(q, rest, q[o], 0), o);
    } else {
      SortedWithout(prio, ready, o, p);
    }
  }

  /** The ready list after CoSetPriority. */
  lemma RestoreKeeps(s: Locks, o: nat, p: nat)
    requires InTable(|s.prio|, s.ready) && SortedBy(s.prio, s.ready) && o < |s.prio|
    ensures var r := Restored(s, o, p);
            && r == s.(prio := r.prio, ready := r.ready) && |r.prio| == |s.prio| && InTable(|s.prio|, r.ready)
            && SortedBy(r.prio, r.ready) && (forall x :: x in r.ready <==> x in s.ready)
            && (forall x | 0 <= x < |s.prio| && x != o :: r.prio[x] == s.prio[x])
            && (r.prio[o] == p || (o == 0 && r.prio[o] == s.prio[o]))
  {
    if o != 0 && s.prio[o] != p {
      RequeueKeeps(s.prio, s.ready, o, p);
    }
  }

  /** A change that concerns the owner and the waiting tasks of mutex `m` only leaves the others right. */
  lemma OthersOk(s: Locks, r: Locks, m: nat, i: nat)
    requires LocksInv(s) && Fields(r) && m < |s.table| == |r.table| && i < |s.table| && i != m && r.table[i] == s.table[i]
    requires r.base == s.base && |r.prio| == |s.prio|
    requires forall x | 0 <= x < |s.prio| && s.mutexID[x] == i ::
               r.prio[x] == s.prio[x] && r.mutexID[x] == i && (x in r.ready ==> x in s.ready)
    ensures MutexOk(r, i)
  {
    MutexAt(s, i);
  }

  /** The parts of an entry by task `t`. */
  ghost predicate Came(s: Locks, m: nat, t: nat, r: Locks)
    requires Fields(s) && m < |s.table| && t < |s.prio|
  {
    var x := s.table[m];
    && r.base == s.base && r.running == s.running && r.mutexID == s.mutexID[t := m] && |r.prio| == |s.prio|
    && |r.table| == |s.table| && r.table == s.table[m := r.table[m]] && r.table[m].occupied
    && InTable(|s.prio|, r.ready) && SortedBy(r.prio, r.ready) && (forall y :: y in r.ready <==> y in s.ready)
    && if !x.occupied then
         r.prio == s.prio && r.table[m].owner == t && r.table[m].top == t && r.table[m].original == s.prio[t] && r.table[m].waiting == x.waiting
       else
         && 0 <= x.owner < |s.prio| && r.table[m].owner == x.owner && r.table[m].original == x.original
         && r.table[m].waiting == x.waiting + [t]
         && r.table[m].top == (if s.prio[x.owner] > s.prio[t] then t else x.top)
         && r.prio == s.prio[x.owner := if s.prio[x.owner] > s.prio[t] then s.prio[t] else s.prio[x.owner]]
  }

  /** A free mutex gets the running task as its owner; at an occupied one the task waits behind the others,
      and the owner becomes as urgent as the task if it was not. */
  lemma EnterQueues(s: Locks, m: nat)
    requires LocksInv(s) && m < |s.table|
    ensures Came(s, m, s.running, Entered(s, m))
  {
    var t, x := s.running, s.table[m];
    MutexAt(s, m);
    if x.occupied && s.prio[x.owner] > s.prio[t] {
      RequeueKeeps(s.prio, s.ready, x.owner, s.prio[t]);
    }
  }

  /** Entering keeps the invariant. */
  lemma EnterKeeps(s: Locks, m: nat)
    requires LocksInv(s) && m < |s.table| && s.mutexID[s.running] == INVALID_ID
    ensures LocksInv(Entered(s, m))
  {
    EnterQueues(s, m);
    AfterEntry(s, m, s.running, Entered(s, m));
  }

  lemma AfterEntry(s: Locks, m: nat, t: nat, r: Locks)
    requires LocksInv(s) && m < |s.table| && t == s.running && s.mutexID[t] == INVALID_ID && Came(s, m, t, r)
    ensures LocksInv(r)
  {
    var x := s.table[m];
    MutexAt(s, m);
    TaskAt(s, t);
    NamesNone(s, t, m);
    assert x.waiting + [t] == InsertAt(x.waiting, |x.waiting|, t);
    InTableInsert(|s.prio|, x.waiting, |x.waiting|, t);
    hide InsertAt, RemoveAt, Insert, SortedBy, Distinct, LocksInv;
    forall i | 0 <= i < |r.table| && i != m ensures MutexOk(r, i) {
      OthersOk(s, r, m, i);
    }
    forall y | 0 <= y < |r.prio| ensures TaskOk(r, y) {
      TaskAt(s, y);
    }
    LocksIntro(r, m);
  }

  lemma LocksIntro(s: Locks, m: nat)
    requires Fields(s) && SortedBy(s.prio, s.ready) && s.running !in s.ready && m < |s.table| && MutexOk(s, m)
    requires forall i | 0 <= i < |s.table| && i != m :: MutexOk(s, i)
    requires forall t | 0 <= t < |s.prio| :: TaskOk(s, t)
    ensures LocksInv(s)
  {
  }

  /** The parts of a hand-over from `o` to `w`. */
  ghost predicate HandedOver(s: Locks, m: nat, r: Locks)
    requires Fields(s) && m < |s.table|
  {
    var x := s.table[m];
    && x.waiting != [] && 0 <= x.owner < |s.prio|
    && var o: nat, w := x.owner, x.waiting[0];
       && w < |s.prio| == |r.prio| && r.base == s.base && r.running == s.running
       && r.mutexID == s.mutexID[o := INVALID_ID]
       && |r.table| == |s.table| && r.table == s.table[m := r.table[m]]
       && r.table[m].occupied && r.table[m].owner == w && r.table[m].original == s.prio[w]
       && r.table[m].waiting == x.waiting[1..]
       && InTable(|s.prio|, r.ready) && SortedBy(r.prio, r.ready)
       && (forall y :: y in r.ready <==> y in s.ready || y == w)
       && (forall y | 0 <= y < |s.prio| && y != o && y != w :: r.prio[y] == s.prio[y])
       && r.prio[w] <= s.prio[w] && (forall y | y in x.waiting :: y < |s.prio| && r.prio[w] <= s.prio[y])
       && (r.prio[o] == x.original || (o == 0 && r.prio[o] == s.prio[o]))
  }

  /** A mutex that tasks wait for goes to the first of them, with a priority as urgent as its own and as
      that of every other waiting task; the former owner gets back the priority it came with. */
  lemma LeaveHandsOver(s: Locks, m: nat)
    requires LocksInv(s) && m < |s.table| && s.table[m].occupied && s.table[m].waiting != []
    ensures HandedOver(s, m, LeftMutex(s, m))
  {
    MutexAt(s, m);
    var x := s.table[m];
    var o: nat, w := x.owner, x.waiting[0];
    assert w in x.waiting;
    var u := s.(mutexID := s.mutexID[o := INVALID_ID]);
    RestoreKeeps(u, o, x.original);
    var best := if x.top == o then Best(s.prio, x.waiting, 0, s.prio[w], x.top) else (s.prio[o], x.top);
    assert forall y | y in x.waiting :: best.0 <= s.prio[y];
    var v := Restored(u, o, x.original);
    assert w !in v.ready && w != o;
    SortedWithout(v.prio, v.ready, w, best.0);
    var prio := v.prio[w := best.0];
    InsertIsStable(prio, v.ready, w);
    InTableInsert(|prio|, v.ready, Place(prio, v.ready, prio[w], 0), w);
  }

  /** Leaving keeps the invariant. */
  lemma LeaveKeeps(s: Locks, m: nat)
    requires LocksInv(s) && m < |s.table| && s.table[m].occupied && !Blocked(s)
    ensures LocksInv(LeftMutex(s, m))
  {
    var x, r := s.table[m], LeftMutex(s, m);
    MutexAt(s, m);
    if x.waiting != [] {
      LeaveHandsOver(s, m);
      AfterHandOver(s, m, r);
    } else {
      hide InsertAt, RemoveAt, Insert, SortedBy, Distinct;
      forall i | 0 <= i < |r.table| ensures MutexOk(r, i) {
        MutexAt(s, i);
      }
      forall y | 0 <= y < |r.prio| ensures TaskOk(r, y) {
        TaskAt(s, y);
      }
    }
  }

  lemma AfterHandOver(s: Locks, m: nat, r: Locks)
    requires LocksInv(s) && m < |s.table| && s.table[m].occupied && !Blocked(s) && HandedOver(s, m, r)
    ensures LocksInv(r)
  {
    MutexAt(s, m);
    var x := s.table[m];
    var o: nat, w := x.owner, x.waiting[0];
    assert w in x.waiting && RemoveAt(x.waiting, 0) == x.waiting[1..];
    InTableRemove(|s.prio|, x.waiting, 0);
    TaskAt(s, o);
    TaskAt(s, w);
    hide InsertAt, RemoveAt, Insert, SortedBy, Distinct, LocksInv;
    forall i | 0 <= i < |r.table| && i != m ensures MutexOk(r, i) {
      OthersOk(s, r, m, i);
    }
    forall y | 0 <= y < |r.prio| ensures TaskOk(r, y) {
      TaskAt(s, y);
    }
    LocksIntro(r, m);
  }

  /** The former owner has the priority it came with exactly when it never lost it or a task was waiting: no
      priority is given back when the last mutex user leaves. */
  lemma LeaveRestoresIff(s: Locks, m: nat)
    requires LocksInv(s) && m < |s.table| && s.table[m].occupied && s.table[m].owner != 0
    ensures var x, r := s.table[m], LeftMutex(s, m);
            && 0 <= x.owner < |s.prio| == |r.prio|
            && (r.prio[x.owner] == x.original <==> s.prio[x.owner] == x.original || x.waiting != [])
  {
    MutexAt(s, m);
    if s.table[m].waiting != [] {
      LeaveHandsOver(s, m);
    }
  }

  /** The head of the ready list runs next; the running task goes back to the ready list, or sleeps or
      waits for a mutex. */
  ghost function Dispatched(s: Locks, back: bool): Locks
    requires LocksInv(s) && s.ready != []
  {
    ListFits(|s.prio|, s.ready, s.prio);
    InTableRemove(|s.prio|, s.ready, 0);
    ListFits(|s.prio|, RemoveAt(s.ready, 0), s.prio);
    var rest := RemoveAt(s.ready, 0);
    s.(running := s.ready[0], ready := if back then TaskList.Insert(s.prio, rest, s.running) else rest)
  }

  lemma DispatchKeeps(s: Locks, back: bool)
    requires LocksInv(s) && s.ready != [] && (back ==> !Blocked(s))
    ensures LocksInv(Dispatched(s, back))
  {
    var r, rest := Dispatched(s, back), RemoveAt(s.ready, 0);
    assert s.ready[0] in s.ready;
    InTableRemove(|s.prio|, s.ready, 0);
    RemoveKeepsOrder(s.prio, s.ready, 0);
    if back {
      InTableInsert(|s.prio|, rest, Place(s.prio, rest, s.prio[s.running], 0), s.running);
      InsertIsStable(s.prio, rest, s.running);
    }
    forall i | 0 <= i < |r.table| ensures MutexOk(r, i) {
      MutexAt(s, i);
    }
    forall y | 0 <= y < |r.prio| ensures TaskOk(r, y) {
      TaskAt(s, y);
    }
  }

  /** A sleeping task becomes ready. */
  ghost function Woken(s: Locks, t: nat): Locks
    requires LocksInv(s) && t < |s.prio|
  {
    ListFits(|s.prio|, s.ready, s.prio);
    s.(ready := TaskList.Insert(s.prio, s.ready, t))
  }

  lemma WakeKeeps(s: Locks, t: nat)
    requires LocksInv(s) && t < |s.prio| && t != s.running && t !in s.ready
    requires forall m | 0 <= m < |s.table| :: t !in s.table[m].waiting
    ensures LocksInv(Woken(s, t))
  {
    var r := Woken(s, t);
    ListFits(|s.prio|, s.ready, s.prio);
    InTableInsert(|s.prio|, s.ready, Place(s.prio, s.ready, s.prio[t], 0), t);
    InsertIsStable(s.prio, s.ready, t);
    forall i | 0 <= i < |r.table| ensures MutexOk(r, i) {
      MutexAt(s, i);
    }
    forall y | 0 <= y < |r.prio| ensures TaskOk(r, y) {
      TaskAt(s, y);
    }
  }

  datatype LockOp = Enter(m: nat) | Leave(m: nat) | Dispatch(back: bool) | Wake(t: nat)

  /** A task that waits does not run on, and a task enters a mutex only when it names none. */
  ghost predicate LockAllowed(s: Locks, op: LockOp)
    requires LocksInv(s)
  {
    match op
    case Enter(m) => m < |s.table| && s.mutexID[s.running] == INVALID_ID
    case Leave(m) => m < |s.table| && s.table[m].occupied && !Blocked(s)
    case Dispatch(back) => s.ready != [] && (back ==> !Blocked(s))
    case Wake(t) => t < |s.prio| && t != s.running && t !in s.ready && forall m | 0 <= m < |s.table| :: t !in s.table[m].waiting
  }

  ghost function LockStep(s: Locks, op: LockOp): (r: Locks)
    requires LocksInv(s) && LockAllowed(s, op)
    ensures LocksInv(r)
  {
    match op
    case Enter(m) => EnterKeeps(s, m); Entered(s, m)
    case Leave(m) => LeaveKeeps(s, m); LeftMutex(s, m)
    case Dispatch(back) => DispatchKeeps(s, back); Dispatched(s, back)
    case Wake(t) => WakeKeeps(s, t); Woken(s, t)
  }

  ghost predicate LockRun(s: Locks, ops: seq<LockOp>)
    requires LocksInv(s)
    decreases |ops|
  {
    ops == [] || (LockAllowed(s, ops[0]) && LockRun(LockStep(s, ops[0]), ops[1..]))
  }

  ghost function AfterRun(s: Locks, ops: seq<LockOp>): (r: Locks)
    requires LocksInv(s) && LockRun(s, ops)
    ensures LocksInv(r)
    decreases |ops|
  {
    if ops == [] then s else AfterRun(LockStep(s, ops[0]), ops[1..])
  }

  /** The mutex is occupied exactly when it has an owner, and then no waiting task is more urgent than that. */
  ghost predicate WellOwned(s: Locks, m: nat)
    requires Fields(s) && m < |s.table|
  {
    var x := s.table[m];
    && (x.occupied <==> 0 <= x.owner < |s.prio|)
    && (x.waiting != [] ==> x.occupied)
    && forall w | w in x.waiting && x.occupied :: w < |s.prio| && w != x.owner && w !in s.ready && s.prio[x.owner] <= s.prio[w]
  }

  lemma WellOwnedAt(s: Locks, m: nat)
    requires LocksInv(s) && m < |s.table|
    ensures WellOwned(s, m) && (s.table[m].occupied ==> 0 <= s.table[m].owner < |s.prio| && s.mutexID[s.table[m].owner] == m)
  {
    MutexAt(s, m);
  }

  /** In every state of every run: an occupied mutex has exactly one owner, which owns no other; no waiting
      task is more urgent than the owner; and no task is less urgent than it was created. */
  lemma EveryMutexIsSound(s: Locks, ops: seq<LockOp>)
    requires LocksInv(s) && LockRun(s, ops)
    ensures var r := AfterRun(s, ops);
            && Fields(r)
            && (forall m | 0 <= m < |r.table| :: WellOwned(r, m))
            && (forall m, n | 0 <= m < |r.table| && 0 <= n < |r.table| && r.table[m].occupied
                              && r.table[m].owner == r.table[n].owner :: m == n)
            && forall t | 0 <= t < |r.prio| :: r.prio[t] <= r.base[t]
  {
    var r := AfterRun(s, ops);
    FieldsOf(r);
    hide LocksInv, LockRun, AfterRun, Fields, WellOwned;
    forall m | 0 <= m < |r.table| ensures WellOwned(r, m) {
      WellOwnedAt(r, m);
    }
    forall m, n | 0 <= m < |r.table| && 0 <= n < |r.table| && r.table[m].occupied && r.table[m].owner == r.table[n].owner
      ensures m == n
    {
      OneMutex(r, m, n);
    }
    forall t | 0 <= t < |r.prio| ensures r.prio[t] <= r.base[t] {
      TaskAt(r, t);
    }
  }

  lemma OneMutex(s: Locks, m: nat, n: nat)
    requires LocksInv(s) && m < |s.table| && n < |s.table| && s.table[m].occupied && s.table[m].owner == s.table[n].owner
    ensures m == n
  {
    MutexAt(s, m);
    MutexAt(s, n);
  }

  lemma FieldsOf(s: Locks)
    requires LocksInv(s)
    ensures Fields(s) && |s.base| == |s.prio|
  {
  }

  ghost function Arrival(s: Locks, op: LockOp, m: nat): seq<nat> {
    if op == Enter(m) then [s.running] else []
  }

  /** The task that becomes owner of mutex `m` in this step. */
  ghost function NewOwner(s: Locks, op: LockOp, m: nat): seq<nat>
    requires m < |s.table|
  {
    if op == Enter(m) && !s.table[m].occupied then [s.running]
    else if op == Leave(m) && s.table[m].waiting != [] then [s.table[m].waiting[0]]
    else []
  }

  lemma EnterInTurn(s: Locks, i: nat, m: nat)
    requires LocksInv(s) && i < |s.table| && m < |s.table|
    ensures var r := Entered(s, i);
            && |r.table| == |s.table|
            && s.table[m].waiting + Arrival(s, Enter(i), m) == NewOwner(s, Enter(i), m) + r.table[m].waiting
  {
    MutexAt(s, i);
    EnterQueues(s, i);
    hide Entered, LocksInv, MutexOk;
  }

  /** What leaving does to the table: a mutex without waiting tasks becomes free. */
  lemma TableAfterLeave(s: Locks, i: nat)
    requires LocksInv(s) && i < |s.table| && s.table[i].occupied
    ensures var x, r := s.table[i], LeftMutex(s, i);
            && |r.table| == |s.table| && r.table == s.table[i := r.table[i]]
            && r.table[i].waiting == if x.waiting == [] then [] else x.waiting[1..]
  {
    if s.table[i].waiting != [] {
      LeaveHandsOver(s, i);
    }
  }

  lemma LeaveInTurn(s: Locks, i: nat, m: nat)
    requires LocksInv(s) && i < |s.table| && m < |s.table| && s.table[i].occupied
    ensures var r := LeftMutex(s, i);
            && |r.table| == |s.table|
            && s.table[m].waiting + Arrival(s, Leave(i), m) == NewOwner(s, Leave(i), m) + r.table[m].waiting
  {
    hide LeftMutex, LocksInv;
    TableAfterLeave(s, i);
    var x, y := s.table[m].waiting, LeftMutex(s, i).table[m].waiting;
    if i == m && x != [] {
      assert x == [x[0]] + x[1..];
    }
  }

  lemma StepInTurn(s: Locks, op: LockOp, m: nat)
    requires LocksInv(s) && LockAllowed(s, op) && m < |s.table|
    ensures var r := LockStep(s, op);
            && |r.table| == |s.table|
            && s.table[m].waiting + Arrival(s, op, m) == NewOwner(s, op, m) + r.table[m].waiting
  {
    hide Entered, LeftMutex, LocksInv, Arrival, NewOwner;
    match op
    case Enter(i) => EnterInTurn(s, i, m);
    case Leave(i) => LeaveInTurn(s, i, m);
    case Dispatch(back) => NoneInTurn(s, op, m);
    case Wake(t) => NoneInTurn(s, op, m);
  }

  lemma NoneInTurn(s: Locks, op: LockOp, m: nat)
    requires m < |s.table| && (op.Dispatch? || op.Wake?)
    ensures s.table[m].waiting + Arrival(s, op, m) == NewOwner(s, op, m) + s.table[m].waiting
  {
  }

  ghost function Arrivals(s: Locks, ops: seq<LockOp>, m: nat): seq<nat>
    requires LocksInv(s) && LockRun(s, ops) && m < |s.table|
    decreases |ops|
  {
    if ops == [] then []
    else
      StepInTurn(s, ops[0], m);
      Arrival(s, ops[0], m) + Arrivals(LockStep(s, ops[0]), ops[1..], m)
  }

  ghost function Owners(s: Locks, ops: seq<LockOp>, m: nat): seq<nat>
    requires LocksInv(s) && LockRun(s, ops) && m < |s.table|
    decreases |ops|
  {
    if ops == [] then []
    else
      StepInTurn(s, ops[0], m);
      NewOwner(s, ops[0], m) + Owners(LockStep(s, ops[0]), ops[1..], m)
  }

  /** Over every run the tasks become owners in the order in which they came, and those that still wait are
      the last ones to have come. */
  lemma {:induction false} OwnersInOrderOfArrival(s: Locks, ops: seq<LockOp>, m: nat)
    requires LocksInv(s) && LockRun(s, ops) && m < |s.table|
    ensures m < |AfterRun(s, ops).table|
    ensures s.table[m].waiting + Arrivals(s, ops, m) == Owners(s, ops, m) + AfterRun(s, ops).table[m].waiting
    decreases |ops|
  {
    hide LocksInv, LockAllowed, LockStep, Arrival, NewOwner;
    if ops != [] {
      var r := LockStep(s, ops[0]);
      StepInTurn(s, ops[0], m);
      OwnersInOrderOfArrival(r, ops[1..], m);
      Rejoin(s.table[m].waiting, Arrival(s, ops[0], m), Arrivals(r, ops[1..], m), NewOwner(s, ops[0], m), r.table[m].waiting,
             Owners(r, ops[1..], m), AfterRun(r, ops[1..]).table[m].waiting);
    }
  }
}
