/** The binary-scheduling ready list (task.c with CFG_ORDER_LIST_SCHEDULE_EN == 0): a table of the
    priorities in use, the last ready task of each and a bitmap find the place in the list. */
module ReadyIndex {
  import opened Lists
  import opened TaskList
  import opened ReadyList
  import opened ReadyBits
  import opened ReadySearch

  /** `r` is the last task of priority `p` in the list, or INVALID when there is none. */
  ghost predicate IsLast(prio: seq<nat>, l: seq<nat>, p: nat, r: nat)
    requires Known(prio, l)
  {
    if r == INVALID then forall i | 0 <= i < |l| :: prio[l[i]] != p
    else exists i | 0 <= i < |l| :: l[i] == r && prio[l[i]] == p && forall j | i < j < |l| :: prio[l[j]] != p
  }

  ghost function Of(prio: seq<nat>, live: set<nat>, p: nat): set<nat> {
    set x | x in live && x < |prio| && prio[x] == p
  }

  /** The priority table: the priorities of the existing tasks in increasing order, each with the
      number of tasks that have it. */
  ghost predicate Registered(prio: seq<nat>, live: set<nat>, active: seq<nat>, num: seq<nat>, n: nat) {
    && |active| == |num| == |prio| && n <= |prio| && Ascending(active, n)
    && (forall i | 0 <= i < n :: num[i] == |Of(prio, live, active[i])| && num[i] > 0)
    && forall x | x in live :: x < |prio| && exists i | 0 <= i < n :: active[i] == prio[x]
  }

  /** The last ready task of each priority, and the bitmap of those that have one. */
  ghost predicate Pointers(prio: seq<nat>, l: seq<nat>, active: seq<nat>, rdy: seq<nat>, n: nat, info: seq<bv32>) {
    && Known(prio, l) && n <= |active| == |rdy| == |prio| <= INVALID && |prio| <= 32 * |info|
    && (forall i | 0 <= i < n :: IsLast(prio, l, active[i], rdy[i]))
    && Mapped(info, rdy, n)
  }

  /** A task of another priority does not change which task is the last of a priority. */
  lemma LastKept(prio: seq<nat>, l: seq<nat>, k: nat, t: nat, p: nat, r: nat)
    requires Known(prio, l) && k <= |l| && t < |prio| <= INVALID && p != prio[t] && IsLast(prio, l, p, r)
    ensures Known(prio, InsertAt(l, k, t)) && IsLast(prio, InsertAt(l, k, t), p, r)
  {
    var u := InsertAt(l, k, t);
    if r != INVALID {
      var i :| 0 <= i < |l| && l[i] == r && prio[l[i]] == p && forall j | i < j < |l| :: prio[l[j]] != p;
      assert u[if i < k then i else i + 1] == r;
    }
  }

  lemma LastNew(prio: seq<nat>, l: seq<nat>, k: nat, t: nat)
    requires Known(prio, l) && k <= |l| && t < |prio| <= INVALID && forall j | k <= j < |l| :: prio[l[j]] != prio[t]
    ensures Known(prio, InsertAt(l, k, t)) && IsLast(prio, InsertAt(l, k, t), prio[t], t)
  {
    assert InsertAt(l, k, t)[k] == t;
  }

  lemma LastAfterInsert(prio: seq<nat>, l: seq<nat>, t: nat, p: nat, r: nat)
    requires SortedBy(prio, l) && t < |prio| <= INVALID && IsLast(prio, l, p, r)
    ensures Known(prio, Insert(prio, l, t))
    ensures IsLast(prio, Insert(prio, l, t), p, if p == prio[t] then t else r)
  {
    var k := Place(prio, l, prio[t], 0);
    InsertIs(prio, l, t);
    PlaceSplits(prio, l, prio[t], 0);
    hide InsertAt, IsLast, Place, Insert;
    if p == prio[t] {
      LastNew(prio, l, k, t);
    } else {
      LastKept(prio, l, k, t, p, r);
    }
  }

  /** Taking out a task of another priority, or one that is not the last of its own. */
  lemma LastStays(prio: seq<nat>, l: seq<nat>, k: nat, p: nat, r: nat)
    requires SortedBy(prio, l) && Distinct(l) && k < |l| && IsLast(prio, l, p, r)
    requires p != prio[l[k]] || (k + 1 < |l| && prio[l[k + 1]] == p)
    ensures Known(prio, RemoveAt(l, k)) && IsLast(prio, RemoveAt(l, k), p, r)
  {
    var u := RemoveAt(l, k);
    if r == INVALID {
      forall j | 0 <= j < |u| ensures prio[u[j]] != p {
        assert u[j] == l[if j < k then j else j + 1];
      }
    } else {
      var i :| 0 <= i < |l| && l[i] == r && prio[l[i]] == p && forall j | i < j < |l| :: prio[l[j]] != p;
      assert i != k;
      var m := if i < k then i else i - 1;
      assert u[m] == r;
      forall j | m < j < |u| ensures prio[u[j]] != p {
        assert u[j] == l[if j < k then j else j + 1];
      }
    }
  }

  /** Taking out the last task of a priority leaves the one before it, if it has that priority. */
  lemma LastGoes(prio: seq<nat>, l: seq<nat>, k: nat, r: nat)
    requires SortedBy(prio, l) && Distinct(l) && k < |l| && |prio| <= INVALID && IsLast(prio, l, prio[l[k]], r)
    requires k + 1 < |l| ==> prio[l[k + 1]] != prio[l[k]]
    ensures Known(prio, RemoveAt(l, k))
    ensures var q := prio[l[k]];
            IsLast(prio, RemoveAt(l, k), q, if k > 0 && prio[l[k - 1]] == q then l[k - 1] else INVALID)
  {
    var u, q := RemoveAt(l, k), prio[l[k]];
    forall j | k < j < |l| ensures q < prio[l[j]] {
      assert prio[l[k + 1]] <= prio[l[j]];
    }
    if k > 0 && prio[l[k - 1]] == q {
      assert u[k - 1] == l[k - 1];
      forall j | k - 1 < j < |u| ensures prio[u[j]] != q {
        assert u[j] == l[j + 1];
      }
    } else {
      forall j | 0 <= j < |u| ensures prio[u[j]] != q {
        if j < k {
          assert prio[u[j]] <= prio[l[k - 1]] < q;
        } else {
          assert u[j] == l[j + 1];
        }
      }
    }
  }

  /** The last task of a priority after the task at position `k` is taken out. */
  lemma LastAfterRemove(prio: seq<nat>, l: seq<nat>, k: nat, p: nat, r: nat)
    requires SortedBy(prio, l) && Distinct(l) && k < |l| && |prio| <= INVALID && IsLast(prio, l, p, r)
    ensures Known(prio, RemoveAt(l, k))
    ensures var q := prio[l[k]];
            var s := if p != q || (k + 1 < |l| && prio[l[k + 1]] == q) then r
                     else if k > 0 && prio[l[k - 1]] == q then l[k - 1]
                     else INVALID;
            IsLast(prio, RemoveAt(l, k), p, s)
  {
    if p != prio[l[k]] || (k + 1 < |l| && prio[l[k + 1]] == p) {
      LastStays(prio, l, k, p, r);
    } else {
      LastGoes(prio, l, k, r);
    }
  }

  /** The task the index names is the one the linear search stops behind. */
  lemma IndexFindsPlace(prio: seq<nat>, l: seq<nat>, live: set<nat>, active: seq<nat>, num: seq<nat>, rdy: seq<nat>,
                        n: nat, info: seq<bv32>, t: nat, s: nat, r: nat)
    requires Registered(prio, live, active, num, n) && Pointers(prio, l, active, rdy, n, info) && SortedBy(prio, l)
    requires (forall x | x in l :: x in live) && t < |prio| && s < n && active[s] == prio[t]
    requires if BitAt(info, s) then r == s else Nearest(info, s, r)
    ensures var k := Place(prio, l, prio[t], 0);
            if r == INVALID then k == 0 else r < n && k > 0 && rdy[r] == l[k - 1]
  {
    hide *;
    Sizes(prio, l, live, active, num, rdy, n, info);
    SortedIs(prio, l);
    var k := Place(prio, l, prio[t], 0);
    PlaceSplits(prio, l, prio[t], 0);
    NamedBit(info, s, r);
    if r != INVALID {
      PointerAt(prio, l, active, rdy, n, info, r);
      SlotOrder(prio, live, active, num, n, r, s);
      var i := SomePosition(prio, l, active[r], rdy[r]);
      assert i < k;
    }
    if k > 0 {
      assert l[k - 1] in l;
      var j := SlotOf(prio, live, active, num, n, l[k - 1]);
      SlotOrder(prio, live, active, num, n, s, j);
      PointerAt(prio, l, active, rdy, n, info, j);
      NamedBefore(prio, l, k, active[j], rdy[j]);
      if r != INVALID {
        SlotOrder(prio, live, active, num, n, j, r);
      }
    }
  }

  lemma SortedIs(prio: seq<nat>, l: seq<nat>)
    requires SortedBy(prio, l)
    ensures Known(prio, l) && (forall i | 0 <= i < |l| :: l[i] < |prio|)
    ensures forall i, j | 0 <= i < j < |l| :: prio[l[i]] <= prio[l[j]]
  {
  }

  /** The bit found: the highest one set at or below `s`. */
  lemma NamedBit(info: seq<bv32>, s: nat, r: nat)
    requires (if BitAt(info, s) then r == s else Nearest(info, s, r)) && s < INVALID
    ensures r == INVALID ==> forall x | 0 <= x <= s :: !BitAt(info, x)
    ensures r != INVALID ==> r <= s && BitAt(info, r) && forall x | r < x <= s :: !BitAt(info, x)
  {
  }

  lemma PointerAt(prio: seq<nat>, l: seq<nat>, active: seq<nat>, rdy: seq<nat>, n: nat, info: seq<bv32>, i: nat)
    requires Pointers(prio, l, active, rdy, n, info) && i < n
    ensures n <= |active| == |rdy| && Known(prio, l) && IsLast(prio, l, active[i], rdy[i])
    ensures BitAt(info, i) <==> rdy[i] != INVALID
  {
  }

  lemma SlotOrder(prio: seq<nat>, live: set<nat>, active: seq<nat>, num: seq<nat>, n: nat, i: nat, j: nat)
    requires Registered(prio, live, active, num, n) && i < n && j < n
    ensures n <= |active| && (i < j <==> active[i] < active[j])
  {
  }

  lemma SlotOf(prio: seq<nat>, live: set<nat>, active: seq<nat>, num: seq<nat>, n: nat, x: nat) returns (i: nat)
    requires Registered(prio, live, active, num, n) && x in live
    ensures x < |prio| && i < n <= |active| && active[i] == prio[x]
  {
    i :| 0 <= i < n && active[i] == prio[x];
  }

  lemma SomePosition(prio: seq<nat>, l: seq<nat>, p: nat, r: nat) returns (i: nat)
    requires Known(prio, l) && IsLast(prio, l, p, r) && r != INVALID
    ensures i < |l| && l[i] < |prio| && prio[l[i]] == p
  {
    i :| 0 <= i < |l| && l[i] == r && prio[l[i]] == p && forall j | i < j < |l| :: prio[l[j]] != p;
  }

  /** The task before the place is the last of its priority. */
  lemma NamedBefore(prio: seq<nat>, l: seq<nat>, k: nat, p: nat, r: nat)
    requires SortedBy(prio, l) && 0 < k <= |l| && prio[l[k - 1]] == p && IsLast(prio, l, p, r)
    requires k < |l| ==> p < prio[l[k]]
    ensures r != INVALID && r == l[k - 1]
  {
  }

  /** The pointers after a task of the priority in slot `s` was inserted. */
  lemma PointersAfterInsert(prio: seq<nat>, l: seq<nat>, active: seq<nat>, rdy: seq<nat>, n: nat, info: seq<bv32>,
                            t: nat, s: nat, rdy2: seq<nat>, info2: seq<bv32>)
    requires Pointers(prio, l, active, rdy, n, info) && SortedBy(prio, l) && Ascending(active, n)
    requires t < |prio| && s < n && active[s] == prio[t] && rdy2 == rdy[s := t]
    requires info2 == (if BitAt(info, s) then info else SetStatus(info, s, true))
    ensures Pointers(prio, Insert(prio, l, t), active, rdy2, n, info2)
  {
    LastAfterInsert(prio, l, t, prio[t], rdy[s]);
    hide IsLast, Insert, SetStatus, BitAt, SortedBy;
    forall i | 0 <= i < n
      ensures IsLast(prio, Insert(prio, l, t), active[i], rdy2[i])
      ensures BitAt(info2, i) <==> rdy2[i] != INVALID
    {
      LastAfterInsert(prio, l, t, active[i], rdy[i]);
      if !BitAt(info, s) {
        StatusSet(info, s, true, i);
      }
      assert i != s ==> active[i] != active[s];
    }
  }

  lemma PointersAfterRemove(prio: seq<nat>, l: seq<nat>, active: seq<nat>, rdy: seq<nat>, n: nat, info: seq<bv32>,
                            k: nat, s: nat, rdy2: seq<nat>, info2: seq<bv32>)
    requires Pointers(prio, l, active, rdy, n, info) && SortedBy(prio, l) && Distinct(l) && Ascending(active, n)
    requires k < |l| && s < n && active[s] == prio[l[k]]
    requires var q := prio[l[k]];
             if k + 1 < |l| && prio[l[k + 1]] == q then rdy2 == rdy && info2 == info
             else if k > 0 && prio[l[k - 1]] == q then rdy2 == rdy[s := l[k - 1]] && info2 == info
             else rdy2 == rdy[s := INVALID] && info2 == SetStatus(info, s, false)
    ensures Pointers(prio, RemoveAt(l, k), active, rdy2, n, info2)
  {
    LastAfterRemove(prio, l, k, prio[l[k]], rdy[s]);
    assert rdy[s] != INVALID;
    hide IsLast, RemoveAt, SetStatus, BitAt, SortedBy;
    forall i | 0 <= i < n
      ensures IsLast(prio, RemoveAt(l, k), active[i], rdy2[i])
      ensures BitAt(info2, i) <==> rdy2[i] != INVALID
    {
      LastAfterRemove(prio, l, k, active[i], rdy[i]);
      StatusSet(info, s, false, i);
      assert i != s ==> active[i] != active[s];
    }
  }

  lemma Slot(prio: seq<nat>, l: seq<nat>, live: set<nat>, active: seq<nat>, num: seq<nat>, rdy: seq<nat>, n: nat,
             info: seq<bv32>, t: nat)
    requires Registered(prio, live, active, num, n) && Pointers(prio, l, active, rdy, n, info) && t in live
    ensures t < |prio| == |rdy| <= INVALID && n <= |prio| && |active| == |prio|
    ensures exists i | 0 <= i < n :: active[i] == prio[t]
  {
  }

  lemma SlotBound(prio: seq<nat>, l: seq<nat>, active: seq<nat>, rdy: seq<nat>, n: nat, info: seq<bv32>, s: nat)
    requires Pointers(prio, l, active, rdy, n, info)
    ensures s < n ==> s / 32 < |info| && s < INVALID
  {
  }

  lemma Sizes(prio: seq<nat>, l: seq<nat>, live: set<nat>, active: seq<nat>, num: seq<nat>, rdy: seq<nat>, n: nat,
              info: seq<bv32>)
    requires Registered(prio, live, active, num, n) && Pointers(prio, l, active, rdy, n, info)
    ensures |active| == |num| == |rdy| == |prio| <= INVALID && n <= |prio| <= 32 * |info|
    ensures forall x | x in live :: x < |prio|
  {
  }

  lemma NotListed(l: seq<nat>, live: set<nat>, t: nat)
    requires (forall x | x in l :: x in live) && t !in live
    ensures forall x | x in l :: x in live + {t}
    ensures t !in l
  {
  }

  lemma WithoutTask(l: seq<nat>, live: set<nat>, t: nat)
    requires (forall x | x in l :: x in live) && t !in l
    ensures forall x | x in l :: x in live - {t}
  {
  }

  lemma PointersIntro(prio: seq<nat>, l: seq<nat>, active: seq<nat>, rdy: seq<nat>, n: nat, info: seq<bv32>)
    requires Known(prio, l) && n <= |active| == |rdy| == |prio| <= INVALID && |prio| <= 32 * |info|
    requires (forall i | 0 <= i < n :: IsLast(prio, l, active[i], rdy[i])) && Mapped(info, rdy, n)
    ensures Pointers(prio, l, active, rdy, n, info)
  {
  }

  ghost predicate SomeoneHas(prio: seq<nat>, live: set<nat>, p: nat) {
    exists x :: x in live && x < |prio| && prio[x] == p
  }

  /** Different priorities need different tasks. */
  lemma {:induction false} SlotsHaveTasks(prio: seq<nat>, live: set<nat>, active: seq<nat>, n: nat)
    requires Ascending(active, n)
    requires forall i | 0 <= i < n :: SomeoneHas(prio, live, active[i])
    ensures n <= |live|
  {
    if n > 0 {
      assert SomeoneHas(prio, live, active[n - 1]);
      var x :| x in live && x < |prio| && prio[x] == active[n - 1];
      var rest := live - {x};
      forall i | 0 <= i < n - 1 ensures SomeoneHas(prio, rest, active[i]) {
        assert SomeoneHas(prio, live, active[i]);
        var y :| y in live && y < |prio| && prio[y] == active[i];
        assert y in rest;
      }
      SlotsHaveTasks(prio, rest, active, n - 1);
    }
  }

  lemma {:induction false} BoundedSet(s: set<nat>, m: nat)
    requires forall x | x in s :: x < m
    ensures |s| <= m
  {
    if m > 0 {
      BoundedSet(s - {m - 1}, m - 1);
    } else {
      assert s == {};
    }
  }

  /** The table has a slot left for the priority of a task that does not exist yet. */
  lemma RoomForOne(prio: seq<nat>, live: set<nat>, active: seq<nat>, num: seq<nat>, n: nat, t: nat)
    requires Registered(prio, live, active, num, n) && t < |prio| && t !in live
    ensures n < |prio|
  {
    hide Of;
    forall i | 0 <= i < n ensures SomeoneHas(prio, live, active[i]) {
      SomeTask(prio, live, active[i]);
    }
    SlotsHaveTasks(prio, live, active, n);
    BoundedSet(live + {t}, |prio|);
  }

  lemma SomeTask(prio: seq<nat>, live: set<nat>, p: nat)
    requires |Of(prio, live, p)| > 0
    ensures SomeoneHas(prio, live, p)
  {
    assert Of(prio, live, p) != {};
    var x :| x in Of(prio, live, p);
  }

  /** Adding a task changes only the count of its priority. */
  lemma CountsWith(prio: seq<nat>, live: set<nat>, t: nat, p: nat)
    requires t < |prio| && t !in live
    ensures |Of(prio, live + {t}, p)| == |Of(prio, live, p)| + if p == prio[t] then 1 else 0
  {
    if p == prio[t] {
      assert Of(prio, live + {t}, p) == Of(prio, live, p) + {t};
    } else {
      assert Of(prio, live + {t}, p) == Of(prio, live, p);
    }
  }

  lemma OneMore(prio: seq<nat>, live: set<nat>, active: seq<nat>, num: seq<nat>, n: nat, s: nat, t: nat, num2: seq<nat>)
    requires Registered(prio, live, active, num, n) && t < |prio| && t !in live
    requires s < n && active[s] == prio[t] && num2 == num[s := num[s] + 1]
    ensures Registered(prio, live + {t}, active, num2, n)
  {
    hide Of;
    forall i | 0 <= i < n ensures num2[i] == |Of(prio, live + {t}, active[i])| {
      CountsWith(prio, live, t, active[i]);
      assert i != s ==> active[i] != active[s];
    }
  }

  lemma OneLess(prio: seq<nat>, live: set<nat>, active: seq<nat>, num: seq<nat>, n: nat, s: nat, t: nat)
    requires Registered(prio, live, active, num, n) && t in live && s < n && active[s] == prio[t]
    ensures num[s] > 0
    ensures num[s] > 1 ==> Registered(prio, live - {t}, active, num[s := num[s] - 1], n)
  {
    var rest := live - {t};
    assert rest + {t} == live;
    hide Of;
    var num2 := num[s := if num[s] > 0 then num[s] - 1 else 0];
    forall i | 0 <= i < n ensures num2[i] == |Of(prio, rest, active[i])| {
      CountsWith(prio, rest, t, active[i]);
      assert i != s ==> active[i] != active[s];
    }
  }

  /** `a` with `v` put in at slot `s` of its first `n`, the ones behind moved up. */
  function OpenAt(a: seq<nat>, s: nat, n: nat, v: nat): (r: seq<nat>)
    requires s <= n < |a|
    ensures |r| == |a|
  {
    a[..s] + [v] + a[s..n] + a[n + 1..]
  }

  function CloseAt(a: seq<nat>, s: nat, n: nat): (r: seq<nat>)
    requires s < n <= |a|
    ensures |r| == |a|
  {
    a[..s] + a[s + 1..n] + a[n - 1..]
  }

  /** The arrays while their upper slots are moved up, and down. */
  ghost function Raised(a: seq<nat>, num: nat, n: nat): (r: seq<nat>)
    requires num <= n < |a|
    ensures |r| == |a|
  {
    a[..num + 1] + a[num..n] + a[n + 1..]
  }

  ghost function Lowered(a: seq<nat>, s: nat, num: nat): (r: seq<nat>)
    requires s <= num < |a|
    ensures |r| == |a|
  {
    a[..s] + a[s + 1..num + 1] + a[num..]
  }

  lemma RaiseStart(a: seq<nat>, n: nat)
    requires n < |a|
    ensures Raised(a, n, n) == a
  {
  }

  lemma RaiseStep(a: seq<nat>, num: nat, n: nat)
    requires 0 < num <= n < |a|
    ensures Raised(a, num, n)[num := Raised(a, num, n)[num - 1]] == Raised(a, num - 1, n)
  {
  }

  lemma RaiseEnd(a: seq<nat>, s: nat, n: nat, v: nat)
    requires s <= n < |a|
    ensures Raised(a, s, n)[s := v] == OpenAt(a, s, n, v)
  {
  }

  lemma LowerStart(a: seq<nat>, s: nat)
    requires s < |a|
    ensures Lowered(a, s, s) == a
  {
  }

  lemma LowerStep(a: seq<nat>, s: nat, num: nat)
    requires s <= num && num + 1 < |a|
    ensures Lowered(a, s, num)[num := Lowered(a, s, num)[num + 1]] == Lowered(a, s, num + 1)
  {
  }

  lemma LowerEnd(a: seq<nat>, s: nat, n: nat)
    requires s < n <= |a|
    ensures Lowered(a, s, n - 1) == CloseAt(a, s, n)
  {
  }

  lemma OpenIndex(a: seq<nat>, s: nat, n: nat, v: nat, i: nat)
    requires s <= n < |a| && i <= n
    ensures OpenAt(a, s, n, v)[i] == if i < s then a[i] else if i == s then v else a[i - 1]
  {
  }

  lemma CloseIndex(a: seq<nat>, s: nat, n: nat, i: nat)
    requires s < n <= |a| && i < n - 1
    ensures CloseAt(a, s, n)[i] == if i < s then a[i] else a[i + 1]
  {
  }

  lemma NobodyHas(prio: seq<nat>, live: set<nat>, a: seq<nat>, n: nat, p: nat)
    requires n <= |a| && (forall x | x in live :: x < |prio| && exists i | 0 <= i < n :: a[i] == prio[x])
    requires forall i | 0 <= i < n :: a[i] != p
    ensures |Of(prio, live, p)| == 0 && forall x | x in live :: prio[x] != p
  {
    forall x | x in live ensures prio[x] != p {
      var i :| 0 <= i < n && a[i] == prio[x];
    }
    assert Of(prio, live, p) == {};
  }

  /** The priorities stay in order with a new one in slot `s`. */
  lemma OpenAscends(a: seq<nat>, n: nat, s: nat, p: nat)
    requires Ascending(a, n) && s <= n < |a|
    requires (forall i | 0 <= i < s :: a[i] < p) && forall i | s <= i < n :: p < a[i]
    ensures Ascending(OpenAt(a, s, n, p), n + 1)
  {
    var a2 := OpenAt(a, s, n, p);
    hide OpenAt;
    forall i, j | 0 <= i < j < n + 1 ensures a2[i] < a2[j] {
      OpenIndex(a, s, n, p, i);
      OpenIndex(a, s, n, p, j);
    }
  }

  /** The count of each slot after a new one was opened. */
  lemma OpenCounts(prio: seq<nat>, live: set<nat>, a: seq<nat>, c: seq<nat>, n: nat, s: nat, t: nat, i: nat)
    requires Registered(prio, live, a, c, n) && t < |prio| && t !in live && s <= n < |prio| && i < n + 1
    requires (forall k | 0 <= k < s :: a[k] < prio[t]) && forall k | s <= k < n :: prio[t] < a[k]
    requires |Of(prio, live, prio[t])| == 0
    ensures var a2, c2 := OpenAt(a, s, n, prio[t]), OpenAt(c, s, n, 1);
            c2[i] == |Of(prio, live + {t}, a2[i])| && c2[i] > 0
  {
    hide Of, OpenAt, Ascending;
    OpenIndex(a, s, n, prio[t], i);
    OpenIndex(c, s, n, 1, i);
    CountsWith(prio, live, t, OpenAt(a, s, n, prio[t])[i]);
  }

  lemma OpenSlots(prio: seq<nat>, live: set<nat>, a: seq<nat>, n: nat, s: nat, t: nat, x: nat)
    requires s <= n < |a| && t < |prio| && x < |prio|
    requires x == t || exists i | 0 <= i < n :: a[i] == prio[x]
    ensures exists i | 0 <= i < n + 1 :: OpenAt(a, s, n, prio[t])[i] == prio[x]
  {
    if x == t {
      OpenIndex(a, s, n, prio[t], s);
    } else {
      var i :| 0 <= i < n && a[i] == prio[x];
      OpenIndex(a, s, n, prio[t], if i < s then i else i + 1);
    }
  }

  /** A new slot `s` for the priority of a new task. */
  lemma OpenRegistered(prio: seq<nat>, live: set<nat>, a: seq<nat>, c: seq<nat>, n: nat, s: nat, t: nat)
    requires Registered(prio, live, a, c, n) && t < |prio| && t !in live && s <= n < |prio|
    requires (forall i | 0 <= i < s :: a[i] < prio[t]) && forall i | s <= i < n :: prio[t] < a[i]
    ensures Registered(prio, live + {t}, OpenAt(a, s, n, prio[t]), OpenAt(c, s, n, 1), n + 1)
  {
    NobodyHas(prio, live, a, n, prio[t]);
    OpenAscends(a, n, s, prio[t]);
    hide Of, OpenAt, Ascending;
    forall i | 0 <= i < n + 1
      ensures OpenAt(c, s, n, 1)[i] == |Of(prio, live + {t}, OpenAt(a, s, n, prio[t])[i])| && OpenAt(c, s, n, 1)[i] > 0
    {
      OpenCounts(prio, live, a, c, n, s, t, i);
    }
    forall x | x in live + {t} ensures x < |prio| && exists i | 0 <= i < n + 1 :: OpenAt(a, s, n, prio[t])[i] == prio[x] {
      OpenSlots(prio, live, a, n, s, t, x);
    }
  }

  lemma OpenPointers(prio: seq<nat>, l: seq<nat>, live: set<nat>, a: seq<nat>, c: seq<nat>, r: seq<nat>, n: nat,
                     info: seq<bv32>, s: nat, t: nat)
    requires Pointers(prio, l, a, r, n, info) && Registered(prio, live, a, c, n) && t < |prio| && s <= n < |prio|
    requires forall x | x in l :: x in live
    requires (forall i | 0 <= i < s :: a[i] < prio[t]) && forall i | s <= i < n :: prio[t] < a[i]
    ensures var a2, r2 := OpenAt(a, s, n, prio[t]), OpenAt(r, s, n, INVALID);
            Mapped(info, r2, s) && s / 32 < |info| && forall i | 0 <= i < n + 1 :: IsLast(prio, l, a2[i], r2[i])
  {
    var a2, r2 := OpenAt(a, s, n, prio[t]), OpenAt(r, s, n, INVALID);
    NobodyHas(prio, live, a, n, prio[t]);
    forall i | 0 <= i < |l| ensures prio[l[i]] != prio[t] {
      assert l[i] in l;
    }
    assert IsLast(prio, l, prio[t], INVALID);
    hide IsLast, OpenAt, Registered;
    forall i | 0 <= i < n + 1 ensures IsLast(prio, l, a2[i], r2[i]) {
      OpenIndex(a, s, n, prio[t], i);
      OpenIndex(r, s, n, INVALID, i);
    }
    forall i | 0 <= i < s ensures BitAt(info, i) <==> r2[i] != INVALID {
      OpenIndex(r, s, n, INVALID, i);
    }
  }

  /** Slot `s` goes with the last task of its priority. */
  lemma CloseRegistered(prio: seq<nat>, live: set<nat>, a: seq<nat>, c: seq<nat>, n: nat, s: nat, t: nat)
    requires Registered(prio, live, a, c, n) && t in live && s < n && a[s] == prio[t] && c[s] == 1
    ensures Registered(prio, live - {t}, CloseAt(a, s, n), CloseAt(c[s := 0], s, n), n - 1)
  {
    var rest, a2, c2 := live - {t}, CloseAt(a, s, n), CloseAt(c[s := 0], s, n);
    assert rest + {t} == live;
    CountsWith(prio, rest, t, prio[t]);
    NoneLeft(prio, rest, prio[t]);
    hide Of, CloseAt;
    forall x | x in rest ensures x < |prio| && exists i | 0 <= i < n - 1 :: a2[i] == prio[x] {
      var i :| 0 <= i < n && a[i] == prio[x];
      CloseIndex(a, s, n, if i < s then i else i - 1);
    }
    forall i | 0 <= i < n - 1 ensures c2[i] == |Of(prio, rest, a2[i])| && c2[i] > 0 {
      CloseIndex(a, s, n, i);
      CloseIndex(c[s := 0], s, n, i);
      CountsWith(prio, rest, t, a2[i]);
    }
    forall i, j | 0 <= i < j < n - 1 ensures a2[i] < a2[j] {
      CloseIndex(a, s, n, i);
      CloseIndex(a, s, n, j);
    }
  }

  lemma NoneLeft(prio: seq<nat>, live: set<nat>, p: nat)
    requires |Of(prio, live, p)| == 0
    ensures forall x | x in live && x < |prio| :: prio[x] != p
  {
    forall x | x in live && x < |prio| ensures prio[x] != p {
      assert x !in Of(prio, live, p);
    }
  }

  lemma ClosePointers(prio: seq<nat>, l: seq<nat>, a: seq<nat>, r: seq<nat>, n: nat, info: seq<bv32>, s: nat)
    requires Pointers(prio, l, a, r, n, info) && s < n
    ensures var a2, r2 := CloseAt(a, s, n), CloseAt(r, s, n);
            Mapped(info, r2, s) && s / 32 < |info| && forall i | 0 <= i < n - 1 :: IsLast(prio, l, a2[i], r2[i])
  {
    var a2, r2 := CloseAt(a, s, n), CloseAt(r, s, n);
    hide IsLast, CloseAt;
    forall i | 0 <= i < n - 1 ensures IsLast(prio, l, a2[i], r2[i]) {
      CloseIndex(a, s, n, i);
      CloseIndex(r, s, n, i);
    }
    forall i | 0 <= i < s ensures BitAt(info, i) <==> r2[i] != INVALID {
      if i < n - 1 {
        CloseIndex(r, s, n, i);
      }
    }
  }

  /** The priority of an entry that is no task does not matter. */
  lemma OutsidePriority(prio: seq<nat>, next: seq<int>, prev: seq<int>, head: int, l: seq<nat>, live: set<nat>,
                        active: seq<nat>, num: seq<nat>, rdy: seq<nat>, n: nat, info: seq<bv32>, t: nat, p: nat)
    requires Ready(prio, next, prev, head, l) && Registered(prio, live, active, num, n)
    requires Pointers(prio, l, active, rdy, n, info) && t < |prio| && t !in live && t !in l
    ensures var q := prio[t := p];
            Ready(q, next, prev, head, l) && Registered(q, live, active, num, n) && Pointers(q, l, active, rdy, n, info)
  {
    ReadyOutside(prio, next, prev, head, l, t, p);
    RegisteredOutside(prio, live, active, num, n, t, p);
    PointersOutside(prio, l, active, rdy, n, info, t, p);
  }

  lemma ReadyOutside(prio: seq<nat>, next: seq<int>, prev: seq<int>, head: int, l: seq<nat>, t: nat, p: nat)
    requires Ready(prio, next, prev, head, l) && t < |prio| && t !in l
    ensures Ready(prio[t := p], next, prev, head, l)
  {
    SortedWithout(prio, l, t, p);
    hide Threaded, SortedBy;
  }

  lemma RegisteredOutside(prio: seq<nat>, live: set<nat>, active: seq<nat>, num: seq<nat>, n: nat, t: nat, p: nat)
    requires Registered(prio, live, active, num, n) && t < |prio| && t !in live
    ensures Registered(prio[t := p], live, active, num, n)
  {
    forall x ensures Of(prio[t := p], live, x) == Of(prio, live, x) {
    }
    hide Of;
  }

  lemma PointersOutside(prio: seq<nat>, l: seq<nat>, active: seq<nat>, rdy: seq<nat>, n: nat, info: seq<bv32>, t: nat, p: nat)
    requires Pointers(prio, l, active, rdy, n, info) && t < |prio| && t !in l
    ensures Pointers(prio[t := p], l, active, rdy, n, info)
  {
    hide Mapped, IsLast;
    assert forall i | 0 <= i < |l| :: l[i] in l;
    forall i | 0 <= i < n ensures IsLast(prio[t := p], l, active[i], rdy[i]) {
      LastOutside(prio, l, active[i], rdy[i], t, p);
    }
  }

  lemma LastOutside(prio: seq<nat>, l: seq<nat>, x: nat, r: nat, t: nat, p: nat)
    requires Known(prio, l) && IsLast(prio, l, x, r) && t < |prio| && t !in l
    ensures Known(prio[t := p], l) && IsLast(prio[t := p], l, x, r)
  {
    assert forall i | 0 <= i < |l| :: l[i] in l && prio[t := p][l[i]] == prio[l[i]];
  }

  class IndexedReady {
    var prio: seq<nat>
    var next: seq<int>
    var prev: seq<int>
    var head: int
    var schedReq: bool
    var activePri: seq<nat>
    var taskNum: seq<nat>
    var rdyPri: seq<nat>
    var info: seq<bv32>
    var priNum: nat
    ghost var list: seq<nat>
    ghost var live: set<nat>

    ghost predicate Valid()
      reads this
    {
      && Ready(prio, next, prev, head, list) && (forall x | x in list :: x in live)
      && Registered(prio, live, activePri, taskNum, priNum)
      && Pointers(prio, list, activePri, rdyPri, priNum, info)
    }

    /** No task exists and no priority is in use. */
    constructor (priorities: seq<nat>)
      requires |priorities| < INVALID
      ensures Valid() && list == [] && live == {} && prio == priorities && !schedReq
    {
      var n := |priorities|;
      prio, next, prev := priorities, seq(n, i => NIL), seq(n, i => NIL);
      activePri, taskNum, rdyPri := seq(n, i => INVALID), seq(n, i => 0), seq(n, i => INVALID);
      info := seq((n + 31) / 32, i => 0);
      head, schedReq, priNum, list, live := NIL, false, 0, [], {};
    }

    /** A table entry that is no task gets the priority of the task to be created. */
    method Reprioritize(t: nat, p: nat)
      requires Valid() && t < |prio| && t !in live
      modifies this`prio
      ensures Valid() && prio == old(prio)[t := p]
    {
      hide *;
      Facts();
      NotListed(list, live, t);
      OutsidePriority(prio, next, prev, head, list, live, activePri, taskNum, rdyPri, priNum, info, t, p);
      prio := prio[t := p];
      Intro();
    }

    /** Lines 400-431: the task to insert behind, from the index. */
    method FindBefore(t: nat) returns (r: nat, s: nat, ready: bool)
      requires Valid() && t in live && t !in list
      ensures s < priNum && activePri[s] == prio[t] && ready == BitAt(info, s)
      ensures |rdyPri| == |prio| && priNum <= |prio| && Known(prio, list) && t < |prio| <= INVALID
      ensures s / 32 < |info| && Ascending(activePri, priNum)
      ensures var k := Place(prio, list, prio[t], 0);
              if r == INVALID then k == 0 && !ready else r < priNum && k > 0 && rdyPri[r] == list[k - 1]
    {
      hide *;
      Facts();
      Slot(prio, list, live, activePri, taskNum, rdyPri, priNum, info, t);
      var found;
      found, s := GetPriSeqNum(activePri, priNum, prio[t]);
      SlotBound(prio, list, activePri, rdyPri, priNum, info, s);
      ready := BitAt(info, s);
      if ready {
        r := s;
      } else {
        r := GetRdyPriSeqNum(info, s);
      }
      IndexFindsPlace(prio, list, live, activePri, taskNum, rdyPri, priNum, info, t, s, r);
    }

    /** Lines 411-440: link the task in behind `ptcb`, or at the head. */
    method Link(t: nat, ptcb: int, ghost l: seq<nat>, ghost k: nat)
      requires Ready(prio, next, prev, head, l) && t < |prio| && t !in l && k == Place(prio, l, prio[t], 0)
      requires ptcb == Before(l, k)
      modifies this`next, this`prev, this`head, this`schedReq
      ensures Ready(prio, next, prev, head, TaskList.Insert(prio, l, t))
      ensures schedReq == (old(schedReq) || k == 0)
    {
      hide *;
      ReadyFacts(prio, next, prev, head, l);
      ghost var n, p, h := next, prev, head;
      HeadIs(l);
      Around(l, k);
      if ptcb == NIL {
        schedReq := true;
        if head == NIL {
          head := t;
        } else {
          next := next[t := head];
          prev := prev[head := t];
          head := t;
        }
      } else {
        LinksAt(n, p, l, k - 1);
        DistinctNear(n, p, l, k);
        var pn := next[ptcb];
        next := next[t := pn];
        next := next[ptcb := t];
        prev := prev[t := ptcb];
        if pn != NIL {
          prev := prev[pn := t];
        }
        assert l[k - 1] in l && (k < |l| ==> l[k] in l);
      }
      ReadyAfterInsert(prio, n, p, h, l, t, next, prev, head);
    }

    lemma Facts()
      requires Valid()
      ensures Ready(prio, next, prev, head, list) && Known(prio, list) && SortedBy(prio, list)
      ensures forall x | x in list :: x in live
      ensures Registered(prio, live, activePri, taskNum, priNum)
      ensures Pointers(prio, list, activePri, rdyPri, priNum, info)
      ensures Ascending(activePri, priNum)
    {
    }

    lemma Intro()
      requires Ready(prio, next, prev, head, list) && forall x | x in list :: x in live
      requires Registered(prio, live, activePri, taskNum, priNum)
      requires Pointers(prio, list, activePri, rdyPri, priNum, info)
      ensures Valid()
    {
    }

    /** Lines 377-440: the index variant inserts the task exactly where the linear search
        does. */
    method Insert(t: nat)
      requires Valid() && t in live && t !in list
      modifies this
      ensures Valid() && prio == old(prio) && live == old(live)
      ensures Known(prio, old(list)) && t < |prio| && list == TaskList.Insert(prio, old(list), t)
      ensures schedReq == (old(schedReq) || list[0] == t)
    {
      hide *;
      Facts();
      ghost var l, rd, inf := list, rdyPri, info;
      var r, s, ready := FindBefore(t);
      ghost var k := Place(prio, l, prio[t], 0);
      InsertIs(prio, l, t);
      FirstAfter(l, k, t);
      Around(l, k);
      DistinctInsertMembers(prio, l, t);
      var ptcb := if r == INVALID then NIL else rdyPri[r];
      rdyPri := rdyPri[s := t];
      if !ready {
        info := SetStatus(info, s, true);
      }
      Link(t, ptcb, l, k);
      PointersAfterInsert(prio, l, activePri, rd, priNum, inf, t, s, rdyPri, info);
      list := TaskList.Insert(prio, l, t);
      Intro();
    }

    /** Lines 301-310: the larger priorities move up by one slot, and the new one has a task but no ready one. */
    method OpenSlot(s: nat, pri: nat)
      requires s <= priNum < |activePri| == |taskNum| == |rdyPri|
      modifies this`activePri, this`taskNum, this`rdyPri, this`priNum
      ensures priNum == old(priNum) + 1
      ensures s <= old(priNum) < |old(activePri)| == |old(taskNum)| == |old(rdyPri)|
      ensures activePri == OpenAt(old(activePri), s, old(priNum), pri)
      ensures taskNum == OpenAt(old(taskNum), s, old(priNum), 1) && rdyPri == OpenAt(old(rdyPri), s, old(priNum), INVALID)
    {
      hide *;
      ghost var a, c, r, n := activePri, taskNum, rdyPri, priNum;
      RaiseStart(a, n);
      RaiseStart(c, n);
      RaiseStart(r, n);
      var num := priNum;
      while num > s
        modifies this`activePri, this`taskNum, this`rdyPri
        invariant s <= num <= n
        invariant activePri == Raised(a, num, n) && taskNum == Raised(c, num, n) && rdyPri == Raised(r, num, n)
      {
        RaiseStep(a, num, n);
        RaiseStep(c, num, n);
        RaiseStep(r, num, n);
        activePri := activePri[num := activePri[num - 1]];
        taskNum := taskNum[num := taskNum[num - 1]];
        rdyPri := rdyPri[num := rdyPri[num - 1]];
        num := num - 1;
      }
      RaiseEnd(a, s, n, pri);
      RaiseEnd(c, s, n, 1);
      RaiseEnd(r, s, n, INVALID);
      activePri := activePri[s := pri];
      taskNum := taskNum[s := 1];
      rdyPri := rdyPri[s := INVALID];
      priNum := priNum + 1;
    }

    /** Lines 296-317, for a task about to exist with the priority it has in the table: register the
        priority, moving the larger ones up by one slot. */
    method ActiveTaskPri(pri: nat, ghost t: nat)
      requires Valid() && t < |prio| && t !in live && prio[t] == pri
      modifies this
      ensures Valid() && live == old(live) + {t} && list == old(list) && prio == old(prio)
      ensures next == old(next) && prev == old(prev) && head == old(head) && schedReq == old(schedReq)
    {
      hide *;
      Facts();
      Sizes(prio, list, live, activePri, taskNum, rdyPri, priNum, info);
      NotListed(list, live, t);
      ghost var a, c, r, n, inf := activePri, taskNum, rdyPri, priNum, info;
      var found, s := GetPriSeqNum(activePri, priNum, pri);
      if !found {
        RoomForOne(prio, live, a, c, n, t);
        OpenSlot(s, pri);
        OpenRegistered(prio, live, a, c, n, s, t);
        OpenPointers(prio, list, live, a, c, r, n, inf, s, t);
        info := PrioRemap(info, rdyPri, priNum, s);
        PointersIntro(prio, list, activePri, rdyPri, priNum, info);
      } else {
        taskNum := taskNum[s := taskNum[s] + 1];
        OneMore(prio, live, a, c, n, s, t, taskNum);
      }
      live := live + {t};
      Intro();
    }

    /** Lines 343-349: the larger priorities move down by one slot. */
    method CloseSlot(s: nat)
      requires s < priNum <= |activePri| == |taskNum| == |rdyPri|
      modifies this`activePri, this`taskNum, this`rdyPri, this`priNum
      ensures priNum == old(priNum) - 1
      ensures s < old(priNum) <= |old(activePri)| == |old(taskNum)| == |old(rdyPri)|
      ensures activePri == CloseAt(old(activePri), s, old(priNum)) && taskNum == CloseAt(old(taskNum), s, old(priNum))
      ensures rdyPri == CloseAt(old(rdyPri), s, old(priNum))
    {
      hide *;
      ghost var a, c, r, n := activePri, taskNum, rdyPri, priNum;
      LowerStart(a, s);
      LowerStart(c, s);
      LowerStart(r, s);
      var num := s;
      while num < priNum - 1
        modifies this`activePri, this`taskNum, this`rdyPri
        invariant s <= num <= n - 1
        invariant activePri == Lowered(a, s, num) && taskNum == Lowered(c, s, num) && rdyPri == Lowered(r, s, num)
      {
        LowerStep(a, s, num);
        LowerStep(c, s, num);
        LowerStep(r, s, num);
        activePri := activePri[num := activePri[num + 1]];
        taskNum := taskNum[num := taskNum[num + 1]];
        rdyPri := rdyPri[num := rdyPri[num + 1]];
        num := num + 1;
      }
      LowerEnd(a, s, n);
      LowerEnd(c, s, n);
      LowerEnd(r, s, n);
      priNum := priNum - 1;
    }

    /** Lines 335-352, for a task outside the list: the priority goes with its last task, and the larger
        ones move down by one slot. */
    method DeleteTaskPri(pri: nat, ghost t: nat)
      requires Valid() && t in live && t !in list && t < |prio| && prio[t] == pri
      modifies this
      ensures Valid() && live == old(live) - {t} && list == old(list) && prio == old(prio)
      ensures next == old(next) && prev == old(prev) && head == old(head) && schedReq == old(schedReq)
    {
      hide *;
      Facts();
      Sizes(prio, list, live, activePri, taskNum, rdyPri, priNum, info);
      Slot(prio, list, live, activePri, taskNum, rdyPri, priNum, info, t);
      ghost var a, c, r, n, inf := activePri, taskNum, rdyPri, priNum, info;
      var found, s := GetPriSeqNum(activePri, priNum, pri);
      SlotBound(prio, list, activePri, rdyPri, priNum, info, s);
      OneLess(prio, live, a, c, n, s, t);
      taskNum := taskNum[s := taskNum[s] - 1];
      if taskNum[s] == 0 {
        CloseSlot(s);
        CloseRegistered(prio, live, a, c, n, s, t);
        ClosePointers(prio, list, a, r, n, inf, s);
        info := PrioRemap(info, rdyPri, priNum, s);
        PointersIntro(prio, list, activePri, rdyPri, priNum, info);
      }
      live := live - {t};
      WithoutTask(list, old(live), t);
      Intro();
    }

    /** Lines 503-546: the links, and whether the priority lost its last task or got another one. */
    method Unlink(t: nat, ghost l: seq<nat>, ghost k: nat) returns (isChange: bool, last: int)
      requires Ready(prio, next, prev, head, l) && k < |l| && l[k] == t
      modifies this`next, this`prev, this`head
      ensures Ready(prio, next, prev, head, RemoveAt(l, k)) && Known(prio, l)
      ensures var q := prio[t];
              if k + 1 < |l| && prio[l[k + 1]] == q then !isChange && last == NIL
              else if k > 0 && prio[l[k - 1]] == q then !isChange && last == l[k - 1] && last != NIL
              else isChange && last == NIL
    {
      hide *;
      ReadyFacts(prio, next, prev, head, l);
      ghost var n, p, h := next, prev, head;
      LinksAt(next, prev, l, k);
      DistinctNear(next, prev, l, k);
      DistinctNear(next, prev, l, k + 1);
      Around(l, k);
      Around(l, k + 1);
      AfterFirst(l);
      NeighboursOrdered(prio, l, k);
      isChange, last := false, NIL;
      if next[t] == NIL && prev[t] == NIL {
        head := NIL;
        isChange := true;
      } else if prev[t] == NIL {
        head := next[t];
        next := next[t := NIL];
        prev := prev[head := NIL];
        if prio[head] != prio[t] {
          isChange := true;
        }
      } else if next[t] == NIL {
        if prio[prev[t]] != prio[t] {
          isChange := true;
        } else {
          last := prev[t];
        }
        next := next[prev[t] := NIL];
        prev := prev[t := NIL];
      } else {
        if prio[prev[t]] != prio[t] && prio[next[t]] != prio[t] {
          isChange := true;
        } else if prio[prev[t]] == prio[t] && prio[next[t]] != prio[t] {
          last := prev[t];
        }
        next := next[prev[t] := next[t]];
        prev := prev[next[t] := prev[t]];
        next := next[t := NIL];
        prev := prev[t := NIL];
      }
      ReadyAfterRemove(prio, n, p, h, l, k, next, prev, head);
    }

    /** Lines 491-554. */
    method Remove(t: nat)
      requires Valid() && t in list
      modifies this
      ensures Valid() && prio == old(prio) && live == old(live) && schedReq == old(schedReq)
      ensures list == RemoveAt(old(list), IndexOf(old(list), t))
    {
      hide *;
      Facts();
      ghost var l, rd, inf := list, rdyPri, info;
      ghost var k := IndexOf(l, t);
      Slot(prio, l, live, activePri, taskNum, rdyPri, priNum, info, t);
      var found, s := GetPriSeqNum(activePri, priNum, prio[t]);
      SlotBound(prio, l, activePri, rdyPri, priNum, info, s);
      OneOfEach(prio, next, prev, head, l);
      var isChange, last := Unlink(t, l, k);
      if last != NIL {
        rdyPri := rdyPri[s := last];
      }
      if isChange {
        rdyPri := rdyPri[s := INVALID];
        info := SetStatus(info, s, false);
      }
      PointersAfterRemove(prio, l, activePri, rd, priNum, inf, k, s, rdyPri, info);
      list := RemoveAt(l, k);
      RemovedMembers(l, k);
      Intro();
    }
  }

  lemma AfterFirst(l: seq<nat>)
    ensures l != [] ==> After(l, 1) == if |l| == 1 then NIL else l[1]
  {
  }

  /** In a sorted list a task between two others has their priority if they agree. */
  lemma NeighboursOrdered(prio: seq<nat>, l: seq<nat>, k: nat)
    requires SortedBy(prio, l) && k < |l|
    ensures k > 0 ==> prio[l[k - 1]] <= prio[l[k]]
    ensures k + 1 < |l| ==> prio[l[k]] <= prio[l[k + 1]]
  {
  }

  lemma OneOfEach(prio: seq<nat>, next: seq<int>, prev: seq<int>, head: int, l: seq<nat>)
    requires Ready(prio, next, prev, head, l)
    ensures Distinct(l)
  {
  }

  lemma RemovedMembers(l: seq<nat>, k: nat)
    requires k < |l|
    ensures forall x | x in RemoveAt(l, k) :: x in l
  {
    forall x | x in RemoveAt(l, k) ensures x in l {
      var i :| 0 <= i < |RemoveAt(l, k)| && RemoveAt(l, k)[i] == x;
      assert l[if i < k then i else i + 1] == x;
    }
  }

  lemma DistinctInsertMembers(prio: seq<nat>, l: seq<nat>, t: nat)
    requires Known(prio, l) && t < |prio|
    ensures forall x :: x in TaskList.Insert(prio, l, t) <==> x in l || x == t
  {
    var k, r := Place(prio, l, prio[t], 0), Insert(prio, l, t);
    forall x ensures x in r <==> x in l || x == t {
      if x in l {
        var i :| 0 <= i < |l| && l[i] == x;
        assert r[if i < k then i else i + 1] == x;
      }
      assert r[k] == t;
    }
  }
}
