/** The two configurations of the ready list side by side: over every run of task creation, insertion,
    removal and deletion they hold the same list in the same links. */
module ReadyRuns {
  import opened TaskList
  import opened ReadyList
  import opened ReadyIndex

  datatype ReadyOp = Create(t: nat, p: nat) | Insert(t: nat) | Remove(t: nat) | Delete(t: nat)

  ghost predicate Allowed(prio: seq<nat>, l: seq<nat>, live: set<nat>, op: ReadyOp) {
    match op
    case Create(t, _) => t < |prio| && t !in live
    case Insert(t) => t in live && t !in l
    case Remove(t) => t in l
    case Delete(t) => t in live && t !in l
  }

  /** What one operation makes of the ready list. */
  ghost function StepList(prio: seq<nat>, l: seq<nat>, op: ReadyOp): seq<nat>
    requires Known(prio, l) && (op.Insert? ==> op.t < |prio|) && (op.Remove? ==> op.t in l)
  {
    match op
    case Insert(t) => TaskList.Insert(prio, l, t)
    case Remove(t) => RemoveAt(l, IndexOf(l, t))
    case _ => l
  }

  ghost function StepPrio(prio: seq<nat>, op: ReadyOp): seq<nat> {
    if op.Create? && op.t < |prio| then prio[op.t := op.p] else prio
  }

  ghost function StepLive(live: set<nat>, op: ReadyOp): set<nat> {
    match op
    case Create(t, _) => live + {t}
    case Delete(t) => live - {t}
    case _ => live
  }

  /** Every operation of the run is allowed where it happens. */
  ghost predicate AllowedRun(prio: seq<nat>, l: seq<nat>, live: set<nat>, ops: seq<ReadyOp>)
    decreases |ops|
  {
    ops == [] ||
    (&& Allowed(prio, l, live, ops[0]) && Known(prio, l) && (forall x | x in live :: x < |prio|)
     && AllowedRun(StepPrio(prio, ops[0]), StepList(prio, l, ops[0]), StepLive(live, ops[0]), ops[1..]))
  }

  /** The list determines the links. */
  lemma OneThreading(prio: seq<nat>, l: seq<nat>, n: seq<int>, p: seq<int>, h: int, n2: seq<int>, p2: seq<int>, h2: int)
    requires Ready(prio, n, p, h, l) && Ready(prio, n2, p2, h2, l)
    ensures n == n2 && p == p2 && h == h2
  {
    forall x | 0 <= x < |prio| ensures n[x] == n2[x] && p[x] == p2[x] {
      if x in l {
        var k :| 0 <= k < |l| && l[k] == x;
        LinksAt(n, p, l, k);
        LinksAt(n2, p2, l, k);
      }
    }
  }

  /** One operation in both configurations. */
  method StepBoth(q: LinearReady, x: IndexedReady, op: ReadyOp)
    requires q.Valid() && x.Valid() && q.prio == x.prio && q.list == x.list && Allowed(x.prio, x.list, x.live, op)
    modifies q, x
    ensures q.Valid() && x.Valid() && q.prio == x.prio == StepPrio(old(x.prio), op)
    ensures Known(old(x.prio), old(x.list)) && (forall y | y in old(x.live) :: y < |x.prio|)
    ensures q.list == x.list == StepList(old(x.prio), old(x.list), op) && x.live == StepLive(old(x.live), op)
    ensures (q.schedReq <==> old(q.schedReq) || (op.Insert? && x.list[0] == op.t))
    ensures (x.schedReq <==> old(x.schedReq) || (op.Insert? && x.list[0] == op.t))
  {
    hide *;
    LiveBounds(x);
    StepIs(x.prio, x.list, x.live, op);
    match op
    case Create(t, p) =>
      q.Reprioritize(t, p);
      x.Reprioritize(t, p);
      x.ActiveTaskPri(p, t);
    case Insert(t) =>
      q.Insert(t);
      x.Insert(t);
    case Remove(t) =>
      q.Remove(t);
      x.Remove(t);
    case Delete(t) =>
      x.DeleteTaskPri(x.prio[t], t);
  }

  lemma StepIs(prio: seq<nat>, l: seq<nat>, live: set<nat>, op: ReadyOp)
    requires Allowed(prio, l, live, op) && Known(prio, l)
    requires (forall y | y in l :: y in live) && forall y | y in live :: y < |prio|
    ensures op.t < |prio|
    ensures op.Create? ==> op.t !in live && op.t !in l && StepPrio(prio, op) == prio[op.t := op.p]
    ensures op.Create? ==> StepLive(live, op) == live + {op.t} && StepList(prio, l, op) == l
    ensures op.Insert? ==> op.t in live && op.t !in l && StepList(prio, l, op) == TaskList.Insert(prio, l, op.t)
    ensures op.Remove? ==> op.t in l && StepList(prio, l, op) == RemoveAt(l, IndexOf(l, op.t))
    ensures op.Delete? ==> op.t in live && op.t !in l && StepLive(live, op) == live - {op.t} && StepList(prio, l, op) == l
    ensures !op.Create? ==> StepPrio(prio, op) == prio
    ensures op.Insert? || op.Remove? ==> StepLive(live, op) == live
  {
  }

  lemma LiveBounds(x: IndexedReady)
    requires x.Valid()
    ensures Known(x.prio, x.list) && (forall y | y in x.live :: y < |x.prio|) && forall y | y in x.list :: y in x.live
  {
  }

  /** The binary-scheduling index refines the linear ready list over every run. */
  method RunBoth(q: LinearReady, x: IndexedReady, ops: seq<ReadyOp>)
    requires q.Valid() && x.Valid() && q.prio == x.prio && q.list == x.list && q.schedReq == x.schedReq
    requires AllowedRun(x.prio, x.list, x.live, ops)
    modifies q, x
    ensures q.Valid() && x.Valid() && q.list == x.list && q.schedReq == x.schedReq
    ensures q.next == x.next && q.prev == x.prev && q.head == x.head
    ensures SortedBy(q.prio, q.list)
  {
    var i := 0;
    while i < |ops|
      invariant i <= |ops| && q.Valid() && x.Valid() && q.prio == x.prio && q.list == x.list && q.schedReq == x.schedReq
      invariant AllowedRun(x.prio, x.list, x.live, ops[i..])
    {
      hide Ready, Registered, Pointers, StepList, StepPrio, StepLive, Allowed;
      assert ops[i..][0] == ops[i] && ops[i..][1..] == ops[i + 1..];
      StepBoth(q, x, ops[i]);
      i := i + 1;
    }
    OneThreading(q.prio, q.list, q.next, q.prev, q.head, x.next, x.prev, x.head);
  }
}
