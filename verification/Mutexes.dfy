/** CoEnterMutexSection, CoLeaveMutexSection, CoSetPriority and the scheduler's decision on the mutex table
    and the linked ready list (mutex.c, task.c), each proved to make the step MutexRuns describes. */
module Mutexes {
  import opened Lists
  import opened TaskList
  import opened ReadyList
  import opened KernelState
  import opened KernelCalls
  import opened MutexRuns

  class MutexTable {
    const rdy: LinearReady
    ghost const base: seq<nat>
    var state: seq<TaskState>
    var mutexID: seq<int>
    var table: seq<Mutex>
    var running: nat

    ghost predicate Valid()
      reads this, rdy
    {
      && rdy.Valid() && |rdy.prio| == |state| == |mutexID|
      && forall t | 0 <= t < |state| :: state[t].TaskReady? <==> t in rdy.list
    }

    /** What every call keeps: a task that waits for a mutex is not in state running. */
    ghost predicate Sound()
      reads this, rdy
    {
      Valid() && LocksInv(Now()) && (Blocked(Now()) ==> state[running] != TaskRunning)
    }

    ghost function Now(): Locks
      reads this, rdy
    {
      Locks(rdy.prio, base, rdy.list, running, mutexID, table)
    }

    constructor (priorities: seq<nat>, mutexes: nat)
      requires 0 < |priorities| <= INVALID_ID && mutexes <= INVALID_ID
      ensures Sound() && fresh(rdy) && Now() == Initially(priorities, mutexes)
    {
      rdy := new LinearReady(priorities);
      base := priorities;
      state := seq(|priorities|, i => if i == 0 then TaskRunning else TaskWaiting);
      mutexID := seq(|priorities|, i => INVALID_ID);
      table := seq(mutexes, i => Mutex(false, INVALID_ID, 0, INVALID_ID, []));
      running := 0;
      new;
      InitiallyInv(priorities, mutexes);
    }

    lemma Parts()
      requires Valid()
      ensures rdy.Valid() && |rdy.prio| == |state| == |mutexID| && Known(rdy.prio, rdy.list) && Distinct(rdy.list)
      ensures Now() == Locks(rdy.prio, base, rdy.list, running, mutexID, table)
      ensures forall t | 0 <= t < |state| :: state[t].TaskReady? <==> t in rdy.list
    {
    }

    lemma Intro()
      requires rdy.Valid() && |rdy.prio| == |state| == |mutexID|
      requires forall t | 0 <= t < |state| :: state[t].TaskReady? <==> t in rdy.list
      ensures Valid() && Now() == Locks(rdy.prio, base, rdy.list, running, mutexID, table)
    {
    }

    /** A new priority, and with it a new place in the ready list. */
    method ChangePriority(o: nat, p: nat)
      requires Valid() && o < |state|
      modifies rdy
      ensures Valid() && Known(old(rdy.prio), old(rdy.list)) && Now() == Raised(old(Now()), o, p)
    {
      hide *;
      Parts();
      RaisedIs(Now(), o, p);
      ghost var l := rdy.list;
      if state[o] == TaskReady {
        Moved(rdy.prio, l, o, p);
        rdy.Remove(o);
        rdy.Reprioritize(o, p);
        rdy.Insert(o);
      } else {
        rdy.Reprioritize(o, p);
      }
      Intro();
    }

    /** Lines 586-648 of task.c, for a task that names no mutex. */
    method SetPriority(o: nat, p: nat)
      requires Valid() && o < |state|
      modifies rdy
      ensures Valid() && Known(old(rdy.prio), old(rdy.list)) && Now() == Restored(old(Now()), o, p)
    {
      hide *;
      Parts();
      RestoredIs(Now(), o, p);
      if o == 0 {
        return;
      }
      if rdy.prio[o] != p {
        ChangePriority(o, p);
      }
    }

    /** CoEnterMutexSection by the running task. */
    method EnterMutexSection(m: nat, locked: bool) returns (r: Status)
      requires Valid() && LocksInv(Now()) && mutexID[running] == INVALID_ID
      modifies this`state, this`mutexID, this`table, rdy
      ensures Sound() && Valid() && LocksInv(Now()) && r == if locked then InLock else if m >= |old(table)| then InvalidId else Ok
      ensures r != Ok ==> Now() == old(Now())
      ensures r == Ok ==> m < |old(table)| && Now() == Entered(old(Now()), m)
    {
      hide *;
      Parts();
      ghost var s := Now();
      NotBlocked(s);
      if locked {
        SoundIntro();
        return InLock;
      }
      if m >= |table| {
        SoundIntro();
        return InvalidId;
      }
      EnterBlocks(s, m);
      EnteredIs(s, m);
      EnterKeeps(s, m);
      var t := running;
      mutexID := mutexID[t := m];
      if !table[m].occupied {
        table := table[m := Mutex(true, t, rdy.prio[t], t, table[m].waiting)];
        Intro();
      } else {
        var o := table[m].owner;
        Intro();
        var top := table[m].top;
        if rdy.prio[o] > rdy.prio[t] {
          ChangePriority(o, rdy.prio[t]);
          top := t;
        }
        Parts();
        NotReady(s);
        RaisedReady(s, o, s.prio[t]);
        state := state[t := TaskWaiting];
        table := table[m := table[m].(top := top, waiting := table[m].waiting + [t])];
        Intro();
      }
      SoundIntro();
      return Ok;
    }

    /** Lines 233-243 of mutex.c: the smallest priority value among the waiting tasks. */
    method FindBest(m: nat) returns (p: nat, top: int)
      requires Valid() && m < |table| && table[m].waiting != [] && Known(rdy.prio, table[m].waiting)
      ensures (p, top) == Best(rdy.prio, table[m].waiting, 0, rdy.prio[table[m].waiting[0]], table[m].top)
    {
      hide *;
      var l := table[m].waiting;
      KnownAt(rdy.prio, l);
      p, top := rdy.prio[l[0]], table[m].top;
      var i := 0;
      while i < |l|
        invariant 0 <= i <= |l|
        invariant Best(rdy.prio, l, 0, rdy.prio[l[0]], table[m].top) == Best(rdy.prio, l, i, p, top)
      {
        BestStep(rdy.prio, l, i, p, top);
        if rdy.prio[l[i]] < p {
          p := rdy.prio[l[i]];
          top := l[i];
        }
        i := i + 1;
      }
      BestEnds(rdy.prio, l, p, top);
    }

    /** CoLeaveMutexSection for an occupied mutex. */
    method LeaveMutexSection(m: nat) returns (r: Status)
      requires Valid() && LocksInv(Now()) && !Blocked(Now()) && (m < |table| ==> table[m].occupied)
      modifies this`state, this`mutexID, this`table, rdy
      ensures Sound() && Valid() && LocksInv(Now()) && r == if m >= |old(table)| then InvalidId else Ok
      ensures r != Ok ==> Now() == old(Now())
      ensures r == Ok ==> m < |old(table)| && Now() == LeftMutex(old(Now()), m)
    {
      hide *;
      Parts();
      ghost var s := Now();
      if m >= |table| {
        SoundIntro();
        return InvalidId;
      }
      LeaveUnblocked(s, m);
      LeftMutexIs(s, m);
      LeaveKeeps(s, m);
      var o := table[m].owner;
      mutexID := mutexID[o := INVALID_ID];
      if table[m].waiting == [] {
        table := table[m := table[m].(occupied := false, owner := INVALID_ID)];
        Intro();
        SoundIntro();
        return Ok;
      }
      Intro();
      var w := table[m].waiting[0];
      var p, top;
      if table[m].top == o {
        p, top := FindBest(m);
      } else {
        p, top := rdy.prio[o], table[m].top;
      }
      ghost var u := Now();
      SetPriority(o, table[m].original);
      Parts();
      RestoredReady(u, o, table[m].original);
      HeirApart(s, m);
      table := table[m := Mutex(true, w, rdy.prio[w], top, table[m].waiting[1..])];
      rdy.Reprioritize(w, p);
      rdy.Insert(w);
      AddedReady(rdy.prio, Restored(u, o, s.table[m].original).ready, w);
      state := state[w := TaskReady];
      Intro();
      SoundIntro();
      return Ok;
    }

    /** Schedule: when the running task sleeps or waits, the head of the ready list runs; otherwise it runs
        in place of a less urgent task, or of one as urgent whose time slice is over. */
    method Schedule(slice: bool)
      requires Sound()
      modifies this`state, this`running, rdy
      ensures Sound() && Valid()
      ensures var s := old(Now());
              var back := old(state[running]) == TaskRunning;
              var next := s.ready != [] && Known(s.prio, s.ready)
                          && (back ==> s.prio[s.ready[0]] < s.prio[s.running]
                                       || (s.prio[s.ready[0]] == s.prio[s.running] && slice));
              if next then LocksInv(s) && s.ready != [] && Now() == Dispatched(s, back)
              else Now() == s && state == old(state)
    {
      hide *;
      SoundFacts();
      Parts();
      HeadOfReady(rdy);
      ghost var s := Now();
      if rdy.head == NIL {
        return;
      }
      var x := rdy.head;
      if state[running] != TaskRunning {
        DispatchedIs(s, false);
        Unlink(x);
      } else if rdy.prio[x] < rdy.prio[running] || (rdy.prio[x] == rdy.prio[running] && slice) {
        DispatchedIs(s, true);
        NotReady(s);
        PutBackBehind(s.prio, s.ready, s.running);
        rdy.Insert(running);
        state := state[running := TaskReady];
        AddedReady(s.prio, s.ready, s.running);
        Intro();
        Unlink(x);
      } else {
        return;
      }
      SoundIntro();
    }

    /** The head of the ready list leaves it and runs. */
    method Unlink(x: nat)
      requires Valid() && rdy.list != [] && x == rdy.list[0] && x < |state|
      modifies this`state, this`running, rdy
      ensures Valid() && running == x && Now() == old(Now()).(running := x, ready := RemoveAt(old(rdy.list), 0))
      ensures state == old(state)[x := TaskRunning]
    {
      hide *;
      Parts();
      HeadGone(rdy.list);
      DistinctRemove(rdy.list, 0);
      rdy.Remove(x);
      state := state[x := TaskRunning];
      running := x;
      Intro();
    }

    /** The running task goes to sleep; the next decision lets another run. */
    method Sleep()
      requires Sound()
      modifies this`state
      ensures Sound() && Now() == old(Now()) && state == old(state)[running := TaskWaiting]
    {
      hide *;
      SoundFacts();
      Parts();
      NotReady(Now());
      state := state[running := TaskWaiting];
      Intro();
      SoundIntro();
    }

    /** A sleeping task becomes ready. */
    method Wake(t: nat)
      requires Sound() && t < |state| && t != running && t !in rdy.list
      requires forall m | 0 <= m < |table| :: t !in table[m].waiting
      modifies this`state, rdy
      ensures Sound() && LocksInv(old(Now())) && Now() == Woken(old(Now()), t) && state == old(state)[t := TaskReady]
    {
      hide *;
      SoundFacts();
      Parts();
      ghost var s := Now();
      WakeKeeps(s, t);
      WokenIs(s, t);
      rdy.Insert(t);
      state := state[t := TaskReady];
      AddedReady(s.prio, s.ready, t);
      Intro();
      SoundIntro();
    }

    lemma SoundFacts()
      requires Sound()
      ensures Valid() && LocksInv(Now()) && running < |state| && Fields(Now())
      ensures Blocked(Now()) ==> state[running] != TaskRunning
    {
    }

    lemma SoundIntro()
      requires Valid() && LocksInv(Now()) && (Blocked(Now()) ==> state[running] != TaskRunning)
      ensures Sound()
    {
    }
  }

  lemma RaisedIs(s: Locks, o: nat, p: nat)
    requires o < |s.prio| && Known(s.prio, s.ready)
    ensures var q := s.prio[o := p];
            && Known(q, s.ready) && (o in s.ready ==> Known(q, RemoveAt(s.ready, IndexOf(s.ready, o))))
            && Raised(s, o, p) == s.(prio := q,
                 ready := if o in s.ready then TaskList.Insert(q, RemoveAt(s.ready, IndexOf(s.ready, o)), o) else s.ready)
  {
  }

  lemma RestoredIs(s: Locks, o: nat, p: nat)
    requires o < |s.prio| && Known(s.prio, s.ready)
    ensures Restored(s, o, p) == if o == 0 || s.prio[o] == p then s else Raised(s, o, p)
  {
  }

  /** A task that is taken out and put back is the only one that moves. */
  lemma Moved(prio: seq<nat>, l: seq<nat>, o: nat, p: nat)
    requires Known(prio, l) && Distinct(l) && o in l && o < |prio|
    ensures var q, rest := prio[o := p], RemoveAt(l, IndexOf(l, o));
            && o !in rest && Known(q, rest) && Known(prio, rest) && forall x :: x in TaskList.Insert(q, rest, o) <==> x in l
  {
    var q, rest := prio[o := p], RemoveAt(l, IndexOf(l, o));
    DistinctRemove(l, IndexOf(l, o));
    DistinctInsert(rest, Place(q, rest, q[o], 0), o);
  }

  lemma EnteredIs(s: Locks, m: nat)
    requires LocksInv(s) && m < |s.table|
    ensures s.running < |s.prio| == |s.mutexID| && Known(s.prio, s.ready)
    ensures var t, x := s.running, s.table[m];
            var u := s.(mutexID := s.mutexID[t := m]);
            && (!x.occupied ==> Entered(s, m) == u.(table := s.table[m := Mutex(true, t, s.prio[t], t, x.waiting)]))
            && (x.occupied ==>
                  && 0 <= x.owner < |s.prio|
                  && var raise := s.prio[x.owner] > s.prio[t];
                     var v := if raise then Raised(u, x.owner, s.prio[t]) else u;
                     Entered(s, m) == v.(table := s.table[m := x.(top := if raise then t else x.top, waiting := x.waiting + [t])]))
  {
    MutexAt(s, m);
  }

  lemma LeftMutexIs(s: Locks, m: nat)
    requires LocksInv(s) && m < |s.table| && s.table[m].occupied
    ensures 0 <= s.table[m].owner < |s.prio| == |s.mutexID| && Known(s.prio, s.ready) && Known(s.prio, s.table[m].waiting)
    ensures InTable(|s.prio|, s.ready) && SortedBy(s.prio, s.ready)
    ensures var x := s.table[m];
            var o: nat := x.owner;
            var u := s.(mutexID := s.mutexID[o := INVALID_ID]);
            && (x.waiting == [] ==> LeftMutex(s, m) == u.(table := s.table[m := x.(occupied := false, owner := INVALID_ID)]))
            && (x.waiting != [] ==>
                  && x.waiting[0] < |s.prio|
                  && var w := x.waiting[0];
                     var best := if x.top == o then Best(s.prio, x.waiting, 0, s.prio[w], x.top) else (s.prio[o], x.top);
                     var v := Restored(u, o, x.original);
                     && w < |v.prio| && Known(v.prio[w := best.0], v.ready)
                     && LeftMutex(s, m) == v.(prio := v.prio[w := best.0], ready := TaskList.Insert(v.prio[w := best.0], v.ready, w),
                          table := s.table[m := Mutex(true, w, s.prio[w], best.1, x.waiting[1..])]))
  {
    MutexAt(s, m);
    if s.table[m].waiting != [] {
      assert s.table[m].waiting[0] in s.table[m].waiting;
      var o: nat := s.table[m].owner;
      RestoreKeeps(s.(mutexID := s.mutexID[o := INVALID_ID]), o, s.table[m].original);
    }
  }

  /** The running task is not in the ready list. */
  lemma NotReady(s: Locks)
    requires LocksInv(s)
    ensures s.running !in s.ready
  {
  }

  lemma RaisedReady(s: Locks, o: nat, p: nat)
    requires LocksInv(s) && o < |s.prio| && Known(s.prio, s.ready)
    ensures forall x :: x in Raised(s, o, p).ready <==> x in s.ready
  {
    RequeueKeeps(s.prio, s.ready, o, p);
  }

  lemma RestoredReady(s: Locks, o: nat, p: nat)
    requires InTable(|s.prio|, s.ready) && SortedBy(s.prio, s.ready) && o < |s.prio|
    ensures Known(s.prio, s.ready) && |Restored(s, o, p).prio| == |s.prio|
    ensures forall x :: x in Restored(s, o, p).ready <==> x in s.ready
    ensures forall x | 0 <= x < |s.prio| && x != o :: Restored(s, o, p).prio[x] == s.prio[x]
  {
    RestoreKeeps(s, o, p);
  }

  lemma AddedReady(prio: seq<nat>, l: seq<nat>, w: nat)
    requires Known(prio, l) && w < |prio| && Distinct(l) && w !in l
    ensures forall x :: x in TaskList.Insert(prio, l, w) <==> x in l || x == w
  {
    DistinctInsert(l, Place(prio, l, prio[w], 0), w);
  }

  lemma HeirApart(s: Locks, m: nat)
    requires LocksInv(s) && m < |s.table| && s.table[m].occupied && s.table[m].waiting != []
    ensures var w := s.table[m].waiting[0]; w < |s.prio| && w !in s.ready && w != s.table[m].owner
  {
    MutexAt(s, m);
    assert s.table[m].waiting[0] in s.table[m].waiting;
  }

  lemma KnownAt(prio: seq<nat>, l: seq<nat>)
    requires Known(prio, l)
    ensures forall i | 0 <= i < |l| :: l[i] < |prio|
  {
  }

  lemma BestStep(prio: seq<nat>, l: seq<nat>, i: nat, p: nat, top: int)
    requires i < |l| && Known(prio, l)
    ensures Best(prio, l, i, p, top) == if prio[l[i]] < p then Best(prio, l, i + 1, prio[l[i]], l[i]) else Best(prio, l, i + 1, p, top)
  {
  }

  lemma BestEnds(prio: seq<nat>, l: seq<nat>, p: nat, top: int)
    requires Known(prio, l)
    ensures Best(prio, l, |l|, p, top) == (p, top)
  {
  }

  lemma HeadGone(l: seq<nat>)
    requires l != [] && Distinct(l)
    ensures l[0] in l && IndexOf(l, l[0]) == 0
  {
  }

  /** A task that is put back behind the head before the head leaves goes where it would go afterwards. */
  lemma PutBackBehind(prio: seq<nat>, l: seq<nat>, t: nat)
    requires SortedBy(prio, l) && l != [] && t < |prio| && prio[l[0]] <= prio[t]
    ensures Known(prio, l) && Known(prio, RemoveAt(l, 0)) && TaskList.Insert(prio, l, t) != []
    ensures TaskList.Insert(prio, l, t)[0] == l[0]
    ensures RemoveAt(TaskList.Insert(prio, l, t), 0) == TaskList.Insert(prio, RemoveAt(l, 0), t)
  {
    PlaceBehind(prio, l, t);
    hide SortedBy, Place;
    HeadRemains(l, Place(prio, l, prio[t], 0), t);
  }

  lemma PlaceBehind(prio: seq<nat>, l: seq<nat>, t: nat)
    requires SortedBy(prio, l) && l != [] && t < |prio| && prio[l[0]] <= prio[t]
    ensures Known(prio, l) && Known(prio, RemoveAt(l, 0))
    ensures 0 < Place(prio, l, prio[t], 0) == Place(prio, RemoveAt(l, 0), prio[t], 0) + 1
  {
    var k := Place(prio, l, prio[t], 0);
    PlaceSplits(prio, l, prio[t], 0);
    hide SortedBy;
    assert k > 0;
    PlaceIs(prio, RemoveAt(l, 0), prio[t], 0, k - 1);
  }

  lemma HeadRemains(l: seq<nat>, k: nat, t: nat)
    requires 0 < k <= |l|
    ensures RemoveAt(InsertAt(l, k, t), 0) == InsertAt(RemoveAt(l, 0), k - 1, t) && InsertAt(l, k, t)[0] == l[0]
  {
  }

  lemma DispatchedIs(s: Locks, back: bool)
    requires LocksInv(s) && s.ready != [] && (back ==> !Blocked(s))
    ensures Known(s.prio, s.ready) && Known(s.prio, RemoveAt(s.ready, 0)) && s.running < |s.prio| && SortedBy(s.prio, s.ready)
    ensures var rest := RemoveAt(s.ready, 0); var r := Dispatched(s, back);
            && r == s.(running := s.ready[0], ready := if back then TaskList.Insert(s.prio, rest, s.running) else rest)
            && LocksInv(r) && Fields(r) && !Blocked(r)
  {
    DispatchKeeps(s, back);
    var r := Dispatched(s, back);
    assert s.ready[0] in s.ready;
    forall m | 0 <= m < |r.table| ensures r.running !in r.table[m].waiting {
      MutexAt(s, m);
    }
  }

  lemma WokenIs(s: Locks, t: nat)
    requires LocksInv(s) && t < |s.prio| && t != s.running && LocksInv(Woken(s, t))
    ensures Known(s.prio, s.ready) && Distinct(s.ready) && Woken(s, t) == s.(ready := TaskList.Insert(s.prio, s.ready, t))
    ensures Fields(s) && Fields(Woken(s, t)) && (Blocked(Woken(s, t)) <==> Blocked(s))
  {
  }

  /** A task that names no mutex waits for none. */
  lemma NotBlocked(s: Locks)
    requires LocksInv(s) && s.mutexID[s.running] == INVALID_ID
    ensures Fields(s) && s.running < |s.prio| && !Blocked(s)
  {
    forall m | 0 <= m < |s.table| ensures s.running !in s.table[m].waiting {
      NamesNone(s, s.running, m);
    }
  }

  lemma EnterBlocks(s: Locks, m: nat)
    requires LocksInv(s) && m < |s.table| && s.mutexID[s.running] == INVALID_ID
    ensures Fields(Entered(s, m)) && (Blocked(Entered(s, m)) ==> s.table[m].occupied)
  {
    EnterKeeps(s, m);
    EnterQueues(s, m);
    NotBlocked(s);
    MutexAt(s, m);
    var r := Entered(s, m);
    if !s.table[m].occupied {
      forall i | 0 <= i < |r.table| ensures r.running !in r.table[i].waiting {
      }
    }
  }

  lemma LeaveUnblocked(s: Locks, m: nat)
    requires LocksInv(s) && m < |s.table| && s.table[m].occupied && !Blocked(s)
    ensures Fields(LeftMutex(s, m)) && !Blocked(LeftMutex(s, m)) && LeftMutex(s, m).running == s.running
  {
    LeaveKeeps(s, m);
    TableAfterLeave(s, m);
    if s.table[m].waiting != [] {
      LeaveHandsOver(s, m);
    }
    var r := LeftMutex(s, m);
    forall i | 0 <= i < |r.table| ensures r.running !in r.table[i].waiting {
      assert s.running !in s.table[i].waiting;
    }
  }
}
