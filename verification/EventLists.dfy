/** The lists of tasks waiting for events, threaded through the waitNext and waitPrev links of the task
    table (event.c). */
module EventLists {
  import opened Lists
  import opened TaskList

  ghost predicate Apart(lists: seq<seq<nat>>) {
    forall a, b, x | 0 <= a < |lists| && 0 <= b < |lists| && x in lists[a] && x in lists[b] :: a == b
  }

  /** Every list is threaded, no task is in two, and a task in none has null links. */
  ghost predicate Waits(next: seq<int>, prev: seq<int>, first: seq<int>, lists: seq<seq<nat>>) {
    && |next| == |prev| && |first| == |lists| && Apart(lists)
    && (forall a | 0 <= a < |lists| :: Threaded(next, prev, lists[a]) && first[a] == Head(lists[a]))
    && forall t | 0 <= t < |next| && Nowhere(lists, t) :: next[t] == NIL && prev[t] == NIL
  }

  ghost predicate Nowhere(lists: seq<seq<nat>>, t: nat) {
    forall a | 0 <= a < |lists| :: t !in lists[a]
  }

  lemma WaitsFacts(next: seq<int>, prev: seq<int>, first: seq<int>, lists: seq<seq<nat>>, e: nat)
    requires Waits(next, prev, first, lists) && e < |lists|
    ensures |next| == |prev| && |first| == |lists| && Threaded(next, prev, lists[e]) && first[e] == Head(lists[e])
    ensures Distinct(lists[e]) && forall i | 0 <= i < |lists[e]| :: lists[e][i] < |next|
    ensures forall t | 0 <= t < |next| && Nowhere(lists, t) :: next[t] == NIL && prev[t] == NIL
  {
  }

  /** One list changes, and with it only the links of its own tasks. */
  lemma WaitsChanged(next: seq<int>, prev: seq<int>, first: seq<int>, lists: seq<seq<nat>>, e: nat, l: seq<nat>, t: nat,
                     n: seq<int>, p: seq<int>, f: seq<int>)
    requires Waits(next, prev, first, lists) && e < |lists| && |n| == |p| == |next|
    requires Threaded(n, p, l) && f == first[e := Head(l)]
    requires Nowhere(lists[e := []], t)
    requires forall x | x in l :: x in lists[e] || x == t
    requires forall x | 0 <= x < |next| && x !in lists[e] && x != t :: n[x] == next[x] && p[x] == prev[x]
    requires forall x | 0 <= x < |next| && x !in l && (x in lists[e] || x == t) :: n[x] == NIL && p[x] == NIL
    ensures Waits(n, p, f, lists[e := l])
  {
    var r, m := lists[e := l], lists[e];
    hide Threaded;
    forall a, b, x | 0 <= a < |r| && 0 <= b < |r| && x in r[a] && x in r[b] ensures a == b {
      assert a != e && b == e ==> x in m || x == t;
      assert a == e && b != e ==> x in m || x == t;
      assert a != e ==> lists[e := []][a] == lists[a];
      assert b != e ==> lists[e := []][b] == lists[b];
    }
    forall a | 0 <= a < |r| ensures Threaded(n, p, r[a]) && f[a] == Head(r[a]) {
      if a != e {
        OtherList(next, prev, lists, e, a, t, n, p);
      }
    }
    forall x | 0 <= x < |next| && Nowhere(r, x) ensures n[x] == NIL && p[x] == NIL {
      assert x !in r[e];
      if x !in lists[e] && x != t {
        assert Nowhere(lists, x) by {
          forall a | 0 <= a < |lists| ensures x !in lists[a] {
            assert a != e ==> r[a] == lists[a];
          }
        }
      }
    }
  }

  lemma OtherList(next: seq<int>, prev: seq<int>, lists: seq<seq<nat>>, e: nat, a: nat, t: nat, n: seq<int>, p: seq<int>)
    requires Apart(lists) && e < |lists| && a < |lists| && a != e && Threaded(next, prev, lists[a])
    requires Nowhere(lists[e := []], t) && |n| == |p| == |next|
    requires forall x | 0 <= x < |next| && x !in lists[e] && x != t :: n[x] == next[x] && p[x] == prev[x]
    ensures Threaded(n, p, lists[a])
  {
    assert lists[e := []][a] == lists[a];
    forall x | x in lists[a] ensures x < |next| && n[x] == next[x] && p[x] == prev[x] {
      var i :| 0 <= i < |lists[a]| && lists[a][i] == x;
    }
    ThreadFrame(next, prev, lists[a], n, p);
  }

  lemma WaitsAfterInsert(next: seq<int>, prev: seq<int>, first: seq<int>, lists: seq<seq<nat>>, e: nat, k: nat, t: nat,
                         n: seq<int>, p: seq<int>, f: seq<int>)
    requires Waits(next, prev, first, lists) && e < |lists| && k <= |lists[e]| && t < |next|
    requires Nowhere(lists, t) && |n| == |p| == |next|
    requires var l := lists[e];
             && n[t] == After(l, k) && p[t] == Before(l, k) && f == (if k == 0 then first[e := t] else first)
             && (forall x | 0 <= x < |next| && x != t :: n[x] == if k > 0 && x == l[k - 1] then t else next[x])
             && forall x | 0 <= x < |next| && x != t :: p[x] == if k < |l| && x == l[k] then t else prev[x]
    ensures Waits(n, p, f, lists[e := InsertAt(lists[e], k, t)])
  {
    hide *;
    var l := lists[e];
    WaitsFacts(next, prev, first, lists, e);
    NowhereIs(lists, t, e);
    ThreadIn(next, prev, l, k, t, n, p);
    HeadInserted(l, k, t);
    assert (k > 0 ==> l[k - 1] in l) && (k < |l| ==> l[k] in l);
    var r := InsertAt(l, k, t);
    SameHead(first, e, f, if k == 0 then t else Head(l));
    WaitsChanged(next, prev, first, lists, e, r, t, n, p, f);
  }

  lemma SameHead(first: seq<int>, e: nat, f: seq<int>, h: int)
    requires e < |first| == |f| && f[e] == h && forall a | 0 <= a < |f| && a != e :: f[a] == first[a]
    ensures f == first[e := h]
  {
  }

  lemma NowhereIs(lists: seq<seq<nat>>, t: nat, e: nat)
    requires e < |lists|
    ensures Nowhere(lists, t) <==> t !in lists[e] && Nowhere(lists[e := []], t)
  {
    if t !in lists[e] && Nowhere(lists[e := []], t) {
      forall a | 0 <= a < |lists| ensures t !in lists[a] {
        assert a != e ==> lists[e := []][a] == lists[a];
      }
    }
  }

  lemma WaitsAfterRemove(next: seq<int>, prev: seq<int>, first: seq<int>, lists: seq<seq<nat>>, e: nat, k: nat,
                         n: seq<int>, p: seq<int>, f: seq<int>)
    requires Waits(next, prev, first, lists) && e < |lists| && k < |lists[e]|
    requires |n| == |p| == |next| && lists[e][k] < |next|
    requires var l := lists[e];
             && n[l[k]] == NIL && p[l[k]] == NIL && f == (if k == 0 then first[e := After(l, 1)] else first)
             && (forall x | 0 <= x < |next| && x != l[k] :: n[x] == if k > 0 && x == l[k - 1] then After(l, k + 1) else next[x])
             && forall x | 0 <= x < |next| && x != l[k] :: p[x] == if k + 1 < |l| && x == l[k + 1] then Before(l, k) else prev[x]
    ensures Waits(n, p, f, lists[e := RemoveAt(lists[e], k)])
  {
    hide *;
    var l := lists[e];
    var t := l[k];
    WaitsFacts(next, prev, first, lists, e);
    ThreadOut(next, prev, l, k, n, p);
    HeadRemoved(l, k);
    assert (k > 0 ==> l[k - 1] in l) && (k + 1 < |l| ==> l[k + 1] in l) && t in l;
    var r := RemoveAt(l, k);
    SameHead(first, e, f, if k == 0 then After(l, 1) else Head(l));
    InOneOnly(next, prev, first, lists, e, t);
    WaitsChanged(next, prev, first, lists, e, r, t, n, p, f);
  }

  lemma InOneOnly(next: seq<int>, prev: seq<int>, first: seq<int>, lists: seq<seq<nat>>, e: nat, t: nat)
    requires Waits(next, prev, first, lists) && e < |lists| && t in lists[e]
    ensures Nowhere(lists[e := []], t)
  {
    var r := lists[e := []];
    forall a | 0 <= a < |r| ensures t !in r[a] {
      assert a != e ==> r[a] == lists[a];
    }
  }

  class WaitLists {
    var waitNext: seq<int>
    var waitPrev: seq<int>
    var first: seq<int>
    ghost var lists: seq<seq<nat>>

    ghost predicate Valid()
      reads this
    {
      Waits(waitNext, waitPrev, first, lists)
    }

    constructor (tasks: nat, events: nat)
      ensures Valid() && |waitNext| == tasks && lists == seq(events, i => [])
    {
      waitNext, waitPrev := seq(tasks, i => NIL), seq(tasks, i => NIL);
      first := seq(events, i => NIL);
      lists := seq(events, i => []);
    }

    lemma Facts(e: nat)
      requires Valid() && e < |lists|
      ensures Waits(waitNext, waitPrev, first, lists)
      ensures |waitNext| == |waitPrev| && |first| == |lists| && Threaded(waitNext, waitPrev, lists[e])
      ensures first[e] == Head(lists[e]) && Distinct(lists[e])
      ensures forall i | 0 <= i < |lists[e]| :: lists[e][i] < |waitNext|
      ensures forall t | 0 <= t < |waitNext| && Nowhere(lists, t) :: waitNext[t] == NIL && waitPrev[t] == NIL
    {
      WaitsFacts(waitNext, waitPrev, first, lists, e);
    }

    lemma Intro()
      requires Waits(waitNext, waitPrev, first, lists)
      ensures Valid()
    {
    }

    /** Lines 229-244 of event.c: to the end of a first-come list. */
    method Append(e: nat, t: nat)
      requires Valid() && e < |lists| && t < |waitNext| && Nowhere(lists, t)
      modifies this
      ensures Valid() && |waitNext| == |old(waitNext)|
      ensures lists == old(lists)[e := InsertAt(old(lists)[e], |old(lists)[e]|, t)]
    {
      hide *;
      Facts(e);
      NowhereIs(lists, t, e);
      ghost var n, p, f, l := waitNext, waitPrev, first, lists[e];
      Around(l, |l|);
      if first[e] == NIL {
        first := first[e := t];
      } else {
        Around(l, 0);
        var q := first[e];
        ghost var k := 0;
        while waitNext[q] != NIL
          invariant 0 <= k < |l| && q == l[k] && 0 <= q < |waitNext|
          decreases |l| - k
          modifies {}
        {
          LinksAt(waitNext, waitPrev, l, k);
          Around(l, k + 1);
          q := waitNext[q];
          k := k + 1;
        }
        LinksAt(waitNext, waitPrev, l, k);
        Around(l, k + 1);
        assert l[k] in l;
        waitNext := waitNext[q := t];
        waitPrev := waitPrev[t := q];
      }
      WaitsAfterInsert(n, p, f, lists, e, |l|, t, waitNext, waitPrev, first);
      lists := lists[e := InsertAt(l, |l|, t)];
      Intro();
    }

    /** Lines 250-283: into a list in order of priority. */
    method InsertByPriority(e: nat, t: nat, prio: seq<nat>)
      requires Valid() && e < |lists| && t < |waitNext| == |prio| && Nowhere(lists, t) && Known(prio, lists[e])
      modifies this
      ensures Valid() && |waitNext| == |old(waitNext)|
      ensures Known(prio, old(lists)[e]) && lists == old(lists)[e := TaskList.Insert(prio, old(lists)[e], t)]
    {
      hide *;
      Facts(e);
      NowhereIs(lists, t, e);
      ghost var n, p, f, l := waitNext, waitPrev, first, lists[e];
      ghost var k := Place(prio, l, prio[t], 0);
      Around(l, 0);
      PlacedFirst(prio, l, prio[t]);
      InsertIs(prio, l, t);
      if first[e] == NIL {
        first := first[e := t];
      } else if prio[first[e]] > prio[t] {
        var q := first[e];
        first := first[e := t];
        waitNext := waitNext[t := q];
        waitPrev := waitPrev[q := t];
        assert l[0] in l;
      } else {
        var q, q2;
        ghost var i;
        q, q2, i := FindPlace(e, t, prio);
        Around(l, i);
        Neighbours(l, i);
        assert l[i - 1] in l && (i < |l| ==> l[i] in l);
        waitNext := waitNext[q := t];
        waitPrev := waitPrev[t := q];
        waitNext := waitNext[t := q2];
        if q2 != NIL {
          waitPrev := waitPrev[q2 := t];
        }
      }
      Around(l, k);
      WaitsAfterInsert(n, p, f, lists, e, k, t, waitNext, waitPrev, first);
      lists := lists[e := TaskList.Insert(prio, l, t)];
      Intro();
    }

    /** Lines 263-274: behind the last waiting task of a smaller or equal priority value. */
    method FindPlace(e: nat, t: nat, prio: seq<nat>) returns (q: nat, q2: int, ghost k: nat)
      requires Valid() && e < |lists| && t < |waitNext| == |prio| && Known(prio, lists[e])
      requires lists[e] != [] && prio[lists[e][0]] <= prio[t]
      ensures 0 < k <= |lists[e]| && k == Place(prio, lists[e], prio[t], 0)
      ensures q == lists[e][k - 1] && q2 == After(lists[e], k)
    {
      hide *;
      Facts(e);
      ghost var l := lists[e];
      LinksAt(waitNext, waitPrev, l, 0);
      Around(l, 0);
      Around(l, 1);
      q := first[e];
      q2 := waitNext[q];
      k := 1;
      while q2 != NIL
        invariant 1 <= k <= |l| && q == l[k - 1] && q2 == After(l, k)
        invariant forall j | 0 <= j < k :: prio[l[j]] <= prio[t]
        decreases |l| - k
      {
        Around(l, k);
        if prio[q2] > prio[t] {
          break;
        }
        LinksAt(waitNext, waitPrev, l, k);
        q := q2;
        q2 := waitNext[q2];
        k := k + 1;
      }
      Around(l, k);
      PlaceIs(prio, l, prio[t], 0, k);
    }

    /** Lines 309-320: the first waiting task leaves the list. */
    method TakeFirst(e: nat) returns (t: nat)
      requires Valid() && e < |lists| && lists[e] != []
      modifies this
      ensures Valid() && |waitNext| == |old(waitNext)|
      ensures t == old(lists)[e][0] && t < |waitNext| && lists == old(lists)[e := RemoveAt(old(lists)[e], 0)]
    {
      hide *;
      Facts(e);
      ghost var n, p, f, l := waitNext, waitPrev, first, lists[e];
      LinksAt(waitNext, waitPrev, l, 0);
      Around(l, 0);
      Around(l, 1);
      Neighbours(l, 0);
      t := first[e];
      first := first[e := waitNext[t]];
      if first[e] != NIL {
        waitPrev := waitPrev[first[e] := NIL];
      }
      waitNext := waitNext[t := NIL];
      WaitsAfterRemove(n, p, f, lists, e, 0, waitNext, waitPrev, first);
      lists := lists[e := RemoveAt(l, 0)];
      Intro();
    }

    /** Lines 377-407: a task leaves the list wherever it stands. */
    method Drop(e: nat, t: nat, ghost k: nat)
      requires Valid() && e < |lists| && k < |lists[e]| && lists[e][k] == t
      modifies this
      ensures Valid() && |waitNext| == |old(waitNext)| && lists == old(lists)[e := RemoveAt(old(lists)[e], k)]
    {
      hide *;
      Facts(e);
      ghost var n, p, f, l := waitNext, waitPrev, first, lists[e];
      LinksAt(waitNext, waitPrev, l, k);
      Around(l, 0);
      Around(l, k);
      Around(l, k + 1);
      SecondIs(l);
      Neighbours(l, k);
      if waitNext[t] == NIL && waitPrev[t] == NIL {
        first := first[e := NIL];
      } else if waitPrev[t] == NIL {
        waitPrev := waitPrev[waitNext[t] := NIL];
        first := first[e := waitNext[t]];
        waitNext := waitNext[t := NIL];
      } else if waitNext[t] == NIL {
        waitNext := waitNext[waitPrev[t] := NIL];
        waitPrev := waitPrev[t := NIL];
      } else {
        waitNext := waitNext[waitPrev[t] := waitNext[t]];
        waitPrev := waitPrev[waitNext[t] := waitPrev[t]];
        waitPrev := waitPrev[t := NIL];
        waitNext := waitNext[t := NIL];
      }
      WaitsAfterRemove(n, p, f, lists, e, k, waitNext, waitPrev, first);
      lists := lists[e := RemoveAt(l, k)];
      Intro();
    }
  }

  lemma SecondIs(l: seq<nat>)
    ensures l != [] ==> After(l, 1) == if |l| == 1 then NIL else l[1]
  {
  }

  lemma Neighbours(l: seq<nat>, k: nat)
    requires Distinct(l) && k <= |l|
    ensures 0 < k < |l| ==> l[k - 1] != l[k]
    ensures k + 1 < |l| ==> l[k + 1] != l[k]
    ensures k > 0 && k + 1 < |l| ==> l[k - 1] != l[k + 1]
  {
  }

  lemma InsertIs(prio: seq<nat>, l: seq<nat>, t: nat)
    requires Known(prio, l) && t < |prio|
    ensures TaskList.Insert(prio, l, t) == InsertAt(l, Place(prio, l, prio[t], 0), t)
  {
  }

  lemma PlacedFirst(prio: seq<nat>, l: seq<nat>, p: nat)
    requires Known(prio, l)
    ensures forall i | 0 <= i < |l| :: l[i] < |prio|
    ensures Place(prio, l, p, 0) == 0 <==> l == [] || p < prio[l[0]]
  {
  }
}
