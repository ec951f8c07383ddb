/** The ready list kept in priority order by linear search (task.c, InsertToTCBRdyList and
    RemoveFromTCBRdyList in the order-list configuration). */
module ReadyList {
  import opened TaskList

  /** TCBRdy and the links of a table in which only ready tasks are linked. */
  ghost predicate Ready(prio: seq<nat>, next: seq<int>, prev: seq<int>, head: int, l: seq<nat>) {
    && |next| == |prev| == |prio|
    && Threaded(next, prev, l) && head == Head(l) && SortedBy(prio, l)
    && forall t | 0 <= t < |prio| && t !in l :: next[t] == NIL && prev[t] == NIL
  }

  lemma ReadyFacts(prio: seq<nat>, next: seq<int>, prev: seq<int>, head: int, l: seq<nat>)
    requires Ready(prio, next, prev, head, l)
    ensures |next| == |prev| == |prio| && head == Head(l) && SortedBy(prio, l) && Known(prio, l) && Threaded(next, prev, l)
    ensures forall t | 0 <= t < |prio| && t !in l :: next[t] == NIL && prev[t] == NIL
  {
  }

  lemma ReadyAfterInsert(prio: seq<nat>, next: seq<int>, prev: seq<int>, head: int, l: seq<nat>, t: nat,
                         n: seq<int>, p: seq<int>, h: int)
    requires Ready(prio, next, prev, head, l) && t < |prio| && t !in l && |n| == |p| == |next|
    requires var k := Place(prio, l, prio[t], 0);
             && n[t] == After(l, k) && p[t] == Before(l, k) && h == (if k == 0 then t else head)
             && (forall x | 0 <= x < |next| && x != t :: n[x] == if k > 0 && x == l[k - 1] then t else next[x])
             && forall x | 0 <= x < |next| && x != t :: p[x] == if k < |l| && x == l[k] then t else prev[x]
    ensures Ready(prio, n, p, h, Insert(prio, l, t)) && t in Insert(prio, l, t)
    ensures forall x :: x in Insert(prio, l, t) <==> x in l || x == t
  {
    hide *;
    ReadyFacts(prio, next, prev, head, l);
    var k := Place(prio, l, prio[t], 0);
    InsertIs(prio, l, t);
    InsertIsStable(prio, l, t);
    ThreadIn(next, prev, l, k, t, n, p);
    HeadInserted(l, k, t);
    assert (k > 0 ==> l[k - 1] in l) && (k < |l| ==> l[k] in l);
    OutsideClean(next, prev, l, Insert(prio, l, t), t, n, p);
    ReadyIntro(prio, n, p, h, Insert(prio, l, t));
  }

  lemma ReadyIntro(prio: seq<nat>, next: seq<int>, prev: seq<int>, head: int, l: seq<nat>)
    requires |next| == |prev| == |prio| && head == Head(l) && SortedBy(prio, l) && Threaded(next, prev, l)
    requires forall t | 0 <= t < |prio| && t !in l :: next[t] == NIL && prev[t] == NIL
    ensures Ready(prio, next, prev, head, l)
  {
  }

  lemma InsertIs(prio: seq<nat>, l: seq<nat>, t: nat)
    requires Known(prio, l) && t < |prio|
    ensures Insert(prio, l, t) == InsertAt(l, Place(prio, l, prio[t], 0), t)
  {
  }

  /** Tasks outside the changed list keep null links. */
  lemma OutsideClean(next: seq<int>, prev: seq<int>, l: seq<nat>, r: seq<nat>, t: nat, n: seq<int>, p: seq<int>)
    requires |n| == |p| == |next| == |prev| && t < |next|
    requires forall x | 0 <= x < |next| && x !in l :: next[x] == NIL && prev[x] == NIL
    requires forall x | 0 <= x < |next| && x !in l && x != t :: n[x] == next[x] && p[x] == prev[x]
    requires forall x :: x in r <==> x in l || x == t
    ensures forall x | 0 <= x < |next| && x !in r :: n[x] == NIL && p[x] == NIL
  {
  }

  lemma ReadyAfterRemove(prio: seq<nat>, next: seq<int>, prev: seq<int>, head: int, l: seq<nat>, k: nat,
                         n: seq<int>, p: seq<int>, h: int)
    requires Ready(prio, next, prev, head, l) && k < |l| && |n| == |p| == |next|
    requires n[l[k]] == NIL && p[l[k]] == NIL && h == (if k == 0 then After(l, 1) else head)
    requires forall x | 0 <= x < |next| && x != l[k] ::
               n[x] == if k > 0 && x == l[k - 1] then After(l, k + 1) else next[x]
    requires forall x | 0 <= x < |next| && x != l[k] ::
               p[x] == if k + 1 < |l| && x == l[k + 1] then Before(l, k) else prev[x]
    ensures Ready(prio, n, p, h, RemoveAt(l, k))
    ensures forall x :: x in RemoveAt(l, k) <==> x in l && x != l[k]
  {
    hide *;
    ReadyFacts(prio, next, prev, head, l);
    ThreadOut(next, prev, l, k, n, p);
    RemoveKeepsOrder(prio, l, k);
    HeadRemoved(l, k);
    assert (k > 0 ==> l[k - 1] in l) && (k + 1 < |l| ==> l[k + 1] in l) && l[k] in l;
    StillClean(next, prev, l, RemoveAt(l, k), l[k], n, p);
    ReadyIntro(prio, n, p, h, RemoveAt(l, k));
  }

  lemma StillClean(next: seq<int>, prev: seq<int>, l: seq<nat>, r: seq<nat>, t: nat, n: seq<int>, p: seq<int>)
    requires |n| == |p| == |next| == |prev| && t < |next| && n[t] == NIL && p[t] == NIL
    requires forall x | 0 <= x < |next| && x !in l :: next[x] == NIL && prev[x] == NIL
    requires forall x | 0 <= x < |next| && x !in l && x != t :: n[x] == next[x] && p[x] == prev[x]
    requires forall x :: x in r <==> x in l && x != t
    ensures forall x | 0 <= x < |next| && x !in r :: n[x] == NIL && p[x] == NIL
  {
  }

  lemma FirstAfter(l: seq<nat>, k: nat, t: nat)
    requires k <= |l| && t !in l
    ensures InsertAt(l, k, t)[0] == t <==> k == 0
  {
    assert k > 0 ==> l[0] in l;
  }

  lemma PlaceAtHead(prio: seq<nat>, l: seq<nat>, p: nat)
    requires Known(prio, l)
    ensures Place(prio, l, p, 0) == 0 <==> l == [] || p < prio[l[0]]
  {
  }

  /** Position of a task in the list. */
  ghost function IndexOf(l: seq<nat>, t: nat): (k: nat)
    requires t in l
    ensures k < |l| && l[k] == t
  {
    var k :| 0 <= k < |l| && l[k] == t; k
  }

  class LinearReady {
    var prio: seq<nat>
    var next: seq<int>
    var prev: seq<int>
    var head: int
    var schedReq: bool
    ghost var list: seq<nat>

    ghost predicate Valid()
      reads this
    {
      Ready(prio, next, prev, head, list)
    }

    constructor (priorities: seq<nat>)
      ensures Valid() && list == [] && prio == priorities && !schedReq
    {
      prio := priorities;
      next := seq(|priorities|, i => NIL);
      prev := seq(|priorities|, i => NIL);
      head, schedReq, list := NIL, false, [];
    }

    /** Lines 459-466: the last task of a smaller or equal priority value, and the one behind it. */
    method FindPlace(t: nat) returns (ptcb: nat, pn: int, ghost k: nat)
      requires Valid() && t < |prio| && list != [] && prio[list[0]] <= prio[t]
      ensures 0 < k <= |list| && ptcb == list[k - 1] && pn == After(list, k) && k == Place(prio, list, prio[t], 0)
    {
      hide Ready, Threaded, SortedBy, Known, Place, InsertAt, Head, After, Before, TaskList.Insert;
      ReadyFacts(prio, next, prev, head, list);
      LinksAt(next, prev, list, 0);
      HeadIs(list);
      Around(list, 1);
      ptcb := head;
      pn := next[ptcb];
      k := 1;
      while pn != NIL
        invariant 1 <= k <= |list| && ptcb == list[k - 1] && pn == After(list, k)
        invariant forall j | 0 <= j < k :: prio[list[j]] <= prio[t]
        decreases |list| - k
      {
        Around(list, k);
        if prio[t] < prio[pn] {
          break;
        }
        LinksAt(next, prev, list, k);
        ptcb := pn;
        pn := next[pn];
        k := k + 1;
      }
      Around(list, k);
      PlaceIs(prio, list, prio[t], 0, k);
    }

    /** Lines 443-474: after the last task of a smaller or equal priority value. */
    method Insert(t: nat)
      requires Valid() && t < |prio| && t !in list
      modifies this
      ensures Valid() && prio == old(prio) && list == TaskList.Insert(prio, old(list), t)
      ensures schedReq == (old(schedReq) || list[0] == t)
    {
      hide Ready, Threaded, SortedBy, Known, Place, InsertAt, Head, After, Before, TaskList.Insert;
      ReadyFacts(prio, next, prev, head, list);
      ghost var l, n, p, h := list, next, prev, head;
      PlaceAtHead(prio, l, prio[t]);
      InsertIs(prio, l, t);
      HeadIs(l);
      var ptcb := head;
      if ptcb == NIL {
        schedReq := true;
        head := t;
      } else if prio[t] < prio[ptcb] {
        schedReq := true;
        next := next[t := ptcb];
        prev := prev[ptcb := t];
        head := t;
      } else {
        var pn;
        ghost var k;
        ptcb, pn, k := FindPlace(t);
        Around(l, k);
        DistinctNear(n, p, l, k);
        next := next[t := pn];
        next := next[ptcb := t];
        prev := prev[t := ptcb];
        if pn != NIL {
          prev := prev[pn := t];
        }
        assert l[k - 1] in l && (k < |l| ==> l[k] in l);
      }
      FirstAfter(l, Place(prio, l, prio[t], 0), t);
      Around(l, Place(prio, l, prio[t], 0));
      ReadyAfterInsert(prio, n, p, h, l, t, next, prev, head);
      list := TaskList.Insert(prio, l, t);
    }

    /** Lines 503-546. */
    method Remove(t: nat)
      requires Valid() && t in list
      modifies this
      ensures Valid() && prio == old(prio) && schedReq == old(schedReq)
      ensures list == RemoveAt(old(list), IndexOf(old(list), t))
    {
      hide Ready, Threaded, SortedBy;
      ReadyFacts(prio, next, prev, head, list);
      ghost var l, n, p, h := list, next, prev, head;
      ghost var k := IndexOf(l, t);
      LinksAt(next, prev, l, k);
      DistinctNear(next, prev, l, k);
      DistinctNear(next, prev, l, k + 1);
      if next[t] == NIL && prev[t] == NIL {
        head := NIL;
      } else if prev[t] == NIL {
        head := next[t];
        next := next[t := NIL];
        prev := prev[head := NIL];
      } else if next[t] == NIL {
        next := next[prev[t] := NIL];
        prev := prev[t := NIL];
      } else {
        next := next[prev[t] := next[t]];
        prev := prev[next[t] := prev[t]];
        next := next[t := NIL];
        prev := prev[t := NIL];
      }
      ReadyAfterRemove(prio, n, p, h, l, k, next, prev, head);
      list := RemoveAt(l, k);
    }

    /** A new priority for a task that is not in the list. */
    method Reprioritize(t: nat, p: nat)
      requires Valid() && t < |prio| && t !in list
      modifies this`prio
      ensures Valid() && prio == old(prio)[t := p]
    {
      SortedWithout(prio, list, t, p);
      prio := prio[t := p];
    }
  }

  /** Neighbours in a list are different tasks. */
  lemma DistinctNear(next: seq<int>, prev: seq<int>, l: seq<nat>, k: nat)
    requires Threaded(next, prev, l) && k <= |l|
    ensures 0 < k < |l| ==> l[k - 1] != l[k]
    ensures 1 < k ==> l[k - 2] != l[k - 1]
  {
  }

  lemma HeadOfReady(q: LinearReady)
    requires q.Valid()
    ensures q.head == (if q.list == [] then NIL else q.list[0]) && NIL == -1
  {
  }
}
