/** Delta lists threaded through the links of a table (time.c over the task table, timer.c over the
    timer table; both files hold the same code). */
module DeltaLinks {
  import opened Lists
  import opened TaskList
  import opened DeltaList

  /** The counts of the listed entries, in order. */
  ghost function Deltas(cnt: seq<Tick>, l: seq<nat>): (ds: seq<Tick>)
    requires forall i | 0 <= i < |l| :: l[i] < |cnt|
    ensures |ds| == |l| && forall i | 0 <= i < |l| :: ds[i] == cnt[l[i]]
  {
    seq(|l|, i requires 0 <= i < |l| => cnt[l[i]])
  }

  ghost predicate Linked(next: seq<int>, prev: seq<int>, cnt: seq<Tick>, head: int, l: seq<nat>) {
    && |next| == |prev| == |cnt| && Threaded(next, prev, l) && head == Head(l)
    && forall t | 0 <= t < |cnt| && t !in l :: next[t] == NIL && prev[t] == NIL
  }

  lemma LinkedFacts(next: seq<int>, prev: seq<int>, cnt: seq<Tick>, head: int, l: seq<nat>)
    requires Linked(next, prev, cnt, head, l)
    ensures |next| == |prev| == |cnt| && Threaded(next, prev, l) && head == Head(l) && Distinct(l)
    ensures forall i | 0 <= i < |l| :: l[i] < |cnt|
    ensures forall t | 0 <= t < |cnt| && t !in l :: next[t] == NIL && prev[t] == NIL
    ensures head == NIL <==> l == []
  {
  }

  lemma LinkedIntro(next: seq<int>, prev: seq<int>, cnt: seq<Tick>, head: int, l: seq<nat>)
    requires |next| == |prev| == |cnt| && Threaded(next, prev, l) && head == Head(l)
    requires forall t | 0 <= t < |cnt| && t !in l :: next[t] == NIL && prev[t] == NIL
    ensures Linked(next, prev, cnt, head, l)
  {
  }

  lemma LinkedAfterInsert(next: seq<int>, prev: seq<int>, cnt: seq<Tick>, head: int, l: seq<nat>, k: nat, t: nat,
                          n: seq<int>, p: seq<int>, c: seq<Tick>, h: int)
    requires Linked(next, prev, cnt, head, l) && k <= |l| && t < |cnt| && t !in l && |n| == |p| == |c| == |cnt|
    requires n[t] == After(l, k) && p[t] == Before(l, k) && h == (if k == 0 then t else head)
    requires forall x | 0 <= x < |n| && x != t :: n[x] == if k > 0 && x == l[k - 1] then t else next[x]
    requires forall x | 0 <= x < |n| && x != t :: p[x] == if k < |l| && x == l[k] then t else prev[x]
    ensures Linked(n, p, c, h, InsertAt(l, k, t))
  {
    hide *;
    LinkedFacts(next, prev, cnt, head, l);
    ThreadIn(next, prev, l, k, t, n, p);
    HeadInserted(l, k, t);
    assert (k > 0 ==> l[k - 1] in l) && (k < |l| ==> l[k] in l);
    CleanOutside(next, prev, l, InsertAt(l, k, t), t, n, p);
    LinkedIntro(n, p, c, h, InsertAt(l, k, t));
  }

  lemma LinkedAfterRemove(next: seq<int>, prev: seq<int>, cnt: seq<Tick>, head: int, l: seq<nat>, k: nat,
                          n: seq<int>, p: seq<int>, c: seq<Tick>, h: int)
    requires Linked(next, prev, cnt, head, l) && k < |l| && |n| == |p| == |c| == |cnt| && l[k] < |cnt|
    requires n[l[k]] == NIL && p[l[k]] == NIL && h == (if k == 0 then After(l, 1) else head)
    requires forall x | 0 <= x < |n| && x != l[k] :: n[x] == if k > 0 && x == l[k - 1] then After(l, k + 1) else next[x]
    requires forall x | 0 <= x < |n| && x != l[k] :: p[x] == if k + 1 < |l| && x == l[k + 1] then Before(l, k) else prev[x]
    ensures Linked(n, p, c, h, RemoveAt(l, k))
  {
    hide *;
    LinkedFacts(next, prev, cnt, head, l);
    ThreadOut(next, prev, l, k, n, p);
    HeadRemoved(l, k);
    assert (k > 0 ==> l[k - 1] in l) && (k + 1 < |l| ==> l[k + 1] in l) && l[k] in l;
    CleanWithout(next, prev, l, RemoveAt(l, k), l[k], n, p);
    LinkedIntro(n, p, c, h, RemoveAt(l, k));
  }

  lemma CleanOutside(next: seq<int>, prev: seq<int>, l: seq<nat>, r: seq<nat>, t: nat, n: seq<int>, p: seq<int>)
    requires |n| == |p| == |next| == |prev|
    requires forall x | 0 <= x < |next| && x !in l :: next[x] == NIL && prev[x] == NIL
    requires forall x | 0 <= x < |next| && x !in l && x != t :: n[x] == next[x] && p[x] == prev[x]
    requires forall x :: x in r <==> x in l || x == t
    ensures forall x | 0 <= x < |next| && x !in r :: n[x] == NIL && p[x] == NIL
  {
  }

  lemma CleanWithout(next: seq<int>, prev: seq<int>, l: seq<nat>, r: seq<nat>, t: nat, n: seq<int>, p: seq<int>)
    requires |n| == |p| == |next| == |prev| && t < |next| && n[t] == NIL && p[t] == NIL
    requires forall x | 0 <= x < |next| && x !in l :: next[x] == NIL && prev[x] == NIL
    requires forall x | 0 <= x < |next| && x !in l && x != t :: n[x] == next[x] && p[x] == prev[x]
    requires forall x :: x in r <==> x in l && x != t
    ensures forall x | 0 <= x < |next| && x !in r :: n[x] == NIL && p[x] == NIL
  {
  }

  lemma Neighbours(l: seq<nat>, k: nat)
    requires Distinct(l) && k < |l|
    ensures k > 0 ==> l[k - 1] != l[k]
    ensures k + 1 < |l| ==> l[k + 1] != l[k]
    ensures k > 0 && k + 1 < |l| ==> l[k - 1] != l[k + 1]
  {
  }

  /** The counts after an insertion. */
  lemma InsertDeltasAt(ds: seq<Tick>, k: nat, v: Tick)
    requires k <= |ds|
    ensures var b := InsertDeltas(ds, k, v);
            && |b| == |ds| + 1 && b[k] == v && (forall i | 0 <= i < k :: b[i] == ds[i])
            && (k < |ds| ==> b[k + 1] == (ds[k] - v) % U32) && forall i | k + 1 < i <= |ds| :: b[i] == ds[i - 1]
  {
  }

  lemma DeltasInserted(cnt: seq<Tick>, l: seq<nat>, k: nat, t: nat, v: Tick, c: seq<Tick>)
    requires (forall i | 0 <= i < |l| :: l[i] < |cnt|) && t < |cnt| == |c| && t !in l && Distinct(l) && k <= |l|
    requires c == if k < |l| then cnt[t := v][l[k] := (cnt[l[k]] - v) % U32] else cnt[t := v]
    ensures (forall i | 0 <= i <= |l| :: InsertAt(l, k, t)[i] < |c|)
    ensures Deltas(c, InsertAt(l, k, t)) == InsertDeltas(Deltas(cnt, l), k, v)
  {
    var r := InsertAt(l, k, t);
    var ds := Deltas(cnt, l);
    var a, b := Deltas(c, r), InsertDeltas(ds, k, v);
    InsertDeltasAt(ds, k, v);
    hide InsertAt, InsertDeltas;
    forall i | 0 <= i < |a| ensures a[i] == b[i] {
      if i != k {
        var j := if i < k then i else i - 1;
        assert r[i] == l[j] && l[j] in l && l[j] != t && ds[j] == cnt[l[j]];
        if i != k + 1 {
          assert k < |l| ==> l[j] != l[k];
        }
      }
    }
  }

  lemma DeltasRemoved(cnt: seq<Tick>, l: seq<nat>, k: nat, c: seq<Tick>)
    requires (forall i | 0 <= i < |l| :: l[i] < |cnt|) && |c| == |cnt| && Distinct(l) && k < |l|
    requires forall x | 0 <= x < |cnt| && x != l[k] ::
               c[x] == if k + 1 < |l| && x == l[k + 1] then (cnt[x] + cnt[l[k]]) % U32 else cnt[x]
    ensures forall i | 0 <= i < |l| - 1 :: RemoveAt(l, k)[i] < |c|
    ensures Deltas(c, RemoveAt(l, k)) == RemoveDeltas(Deltas(cnt, l), k)
  {
    var r := RemoveAt(l, k);
    var a, b := Deltas(c, r), RemoveDeltas(Deltas(cnt, l), k);
    forall i | 0 <= i < |a| ensures a[i] == b[i] {
      var j := if i < k then i else i + 1;
      assert r[i] == l[j];
    }
  }

  /** The table of counts after an insertion of entry `t`. */
  ghost function CountsIn(cnt: seq<Tick>, l: seq<nat>, t: nat, ticks: Tick): (c: seq<Tick>)
    requires (forall i | 0 <= i < |l| :: l[i] < |cnt|) && t < |cnt|
    ensures |c| == |cnt|
  {
    var k, v := Stop(Deltas(cnt, l), ticks, 0), NewCount(Deltas(cnt, l), ticks);
    CountsBefore(cnt, l, t, k, v)
  }

  ghost function CountsBefore(cnt: seq<Tick>, l: seq<nat>, t: nat, k: nat, v: Tick): (c: seq<Tick>)
    requires (forall i | 0 <= i < |l| :: l[i] < |cnt|) && t < |cnt|
    ensures |c| == |cnt|
  {
    if k < |l| then cnt[t := v][l[k] := Plus(cnt[l[k]], -(v as int))] else cnt[t := v]
  }

  /** The table of counts after position `k` left the list. */
  ghost function CountsOut(cnt: seq<Tick>, l: seq<nat>, k: nat): (c: seq<Tick>)
    requires (forall i | 0 <= i < |l| :: l[i] < |cnt|) && k < |l|
    ensures |c| == |cnt|
  {
    if k + 1 < |l| then cnt[l[k + 1] := Plus(cnt[l[k + 1]], cnt[l[k]])] else cnt
  }

  lemma CountsBeforeIs(cnt: seq<Tick>, l: seq<nat>, t: nat, k: nat, v: Tick)
    requires (forall i | 0 <= i < |l| :: l[i] < |cnt|) && t < |cnt|
    ensures CountsBefore(cnt, l, t, k, v) == if k < |l| then cnt[t := v][l[k] := Plus(cnt[l[k]], -(v as int))] else cnt[t := v]
    ensures t !in l ==> k < |l| ==> l[k] != t
  {
  }

  lemma CountsOutIs(cnt: seq<Tick>, l: seq<nat>, k: nat)
    requires (forall i | 0 <= i < |l| :: l[i] < |cnt|) && k < |l|
    ensures CountsOut(cnt, l, k) == if k + 1 < |l| then cnt[l[k + 1] := Plus(cnt[l[k + 1]], cnt[l[k]])] else cnt
  {
  }

  lemma CountsInIs(cnt: seq<Tick>, l: seq<nat>, t: nat, ticks: Tick)
    requires (forall i | 0 <= i < |l| :: l[i] < |cnt|) && t < |cnt|
    ensures CountsIn(cnt, l, t, ticks)
         == CountsBefore(cnt, l, t, Stop(Deltas(cnt, l), ticks, 0), NewCount(Deltas(cnt, l), ticks))
  {
  }

  class DeltaQueue {
    var next: seq<int>
    var prev: seq<int>
    var cnt: seq<Tick>
    var head: int
    ghost var list: seq<nat>

    ghost predicate Valid()
      reads this
    {
      Linked(next, prev, cnt, head, list)
    }

    ghost function Counts(): seq<Tick>
      requires Valid()
      reads this
    {
      Deltas(cnt, list)
    }

    constructor (n: nat)
      ensures Valid() && list == [] && |cnt| == n
    {
      next, prev, cnt := seq(n, i => NIL), seq(n, i => NIL), seq(n, i => 0);
      head, list := NIL, [];
    }

    /** The search of lines 55-92 of time.c and 60-98 of timer.c: the entry the signed difference goes
        negative at, or the last one. */
    method Search(ticks: Tick) returns (at: nat, delta: int, ghost k: nat)
      requires Valid() && list != []
      ensures k == Stop(Counts(), ticks, 0)
      ensures at == list[if k < |list| then k else |list| - 1] && at < |cnt|
      ensures delta == if k < |list| then Signed(ticks - Due(Counts(), k)) else Signed(ticks - Sum(Counts(), k))
      ensures delta < 0 <==> k < |list|
    {
      hide Linked, Threaded, Sum, Signed;
      LinkedFacts(next, prev, cnt, head, list);
      ghost var ds := Counts();
      Around(list, 0);
      at := head;
      SumStart(ds);
      k := 0;
      delta := SignedOf(ticks);
      while true
        invariant k < |list| && at == list[k] && at < |cnt|
        invariant Stop(ds, ticks, 0) == Stop(ds, ticks, k) && delta == Signed(ticks - Sum(ds, k))
        decreases |list| - k
      {
        SumNext(ds, k, ticks);
        delta := SignedOf(delta - cnt[at]);
        if delta < 0 {
          return;
        }
        LinksAt(next, prev, list, k);
        Around(list, k + 1);
        k := k + 1;
        if next[at] == NIL {
          return;
        }
        at := next[at];
      }
    }

    lemma Facts()
      requires Valid()
      ensures Linked(next, prev, cnt, head, list) && Counts() == Deltas(cnt, list)
      ensures |next| == |prev| == |cnt| && Threaded(next, prev, list) && head == Head(list) && Distinct(list)
      ensures (forall i | 0 <= i < |list| :: list[i] < |cnt|) && (head == NIL <==> list == [])
      ensures forall t | 0 <= t < |cnt| && t !in list :: next[t] == NIL && prev[t] == NIL
    {
      LinkedFacts(next, prev, cnt, head, list);
    }

    lemma Intro()
      requires Linked(next, prev, cnt, head, list)
      ensures Valid() && (forall i | 0 <= i < |list| :: list[i] < |cnt|) && Counts() == Deltas(cnt, list)
    {
    }

    /** Lines 66-81 of time.c and 70-86 of timer.c: put the entry before entry `at`. */
    method LinkBefore(t: nat, at: nat, delta: int, ghost k: nat)
      requires Valid() && t < |cnt| && t !in list && k < |list| && at == list[k] && at < |cnt|
      modifies this
      ensures Valid() && |cnt| == |old(cnt)| && list == InsertAt(old(list), k, t)
      ensures k < |old(Counts())|
      ensures Counts() == InsertDeltas(old(Counts()), k, Plus(old(Counts())[k], delta))
      ensures (forall i | 0 <= i < |old(list)| :: old(list)[i] < |old(cnt)|)
      ensures cnt == CountsBefore(old(cnt), old(list), t, k, Plus(old(Counts())[k], delta))
    {
      hide *;
      Facts();
      CountsBeforeIs(cnt, list, t, k, Plus(Counts()[k], delta));
      ghost var l, n, p, c, h := list, next, prev, cnt, head;
      LinksAt(next, prev, l, k);
      Around(l, k);
      Neighbours(l, k);
      assert l[k] in l && (k > 0 ==> l[k - 1] in l);
      if prev[at] != NIL {
        next := next[prev[at] := t];
        prev := prev[t := prev[at]];
        next := next[t := at];
        prev := prev[at := t];
      } else {
        next := next[t := head];
        prev := prev[head := t];
        head := t;
      }
      var v: int := Plus(cnt[next[t]], delta);
      cnt := cnt[t := v];
      cnt := cnt[next[t] := Plus(cnt[next[t]], -v)];
      LinkedAfterInsert(n, p, c, h, l, k, t, next, prev, cnt, head);
      DeltasInserted(c, l, k, t, Plus(c[l[k]], delta), cnt);
      list := InsertAt(l, k, t);
      Intro();
    }

    /** Lines 84-90 of time.c and 89-96 of timer.c: put the entry behind the last entry `at`. */
    method LinkLast(t: nat, at: nat, v: Tick)
      requires Valid() && t < |cnt| && t !in list && list != [] && at == list[|list| - 1] && at < |cnt|
      modifies this
      ensures Valid() && |cnt| == |old(cnt)| && list == InsertAt(old(list), |old(list)|, t)
      ensures Counts() == InsertDeltas(old(Counts()), |old(list)|, v)
      ensures (forall i | 0 <= i < |old(list)| :: old(list)[i] < |old(cnt)|)
      ensures cnt == CountsBefore(old(cnt), old(list), t, |old(list)|, v)
    {
      hide *;
      Facts();
      CountsBeforeIs(cnt, list, t, |list|, v);
      ghost var l, n, p, c, h := list, next, prev, cnt, head;
      LinksAt(next, prev, l, |l| - 1);
      Around(l, |l|);
      assert l[|l| - 1] in l;
      prev := prev[t := at];
      next := next[at := t];
      cnt := cnt[t := v];
      LinkedAfterInsert(n, p, c, h, l, |l|, t, next, prev, cnt, head);
      DeltasInserted(c, l, |l|, t, v, cnt);
      list := InsertAt(l, |l|, t);
      Intro();
    }

    /** Lines 47-51 of time.c and 54-57 of timer.c: the first entry of an empty list. */
    method LinkFirst(t: nat, v: Tick)
      requires Valid() && t < |cnt| && list == []
      modifies this
      ensures Valid() && |cnt| == |old(cnt)| && list == InsertAt([], 0, t) && Counts() == InsertDeltas([], 0, v)
      ensures cnt == CountsBefore(old(cnt), [], t, 0, v)
    {
      hide *;
      Facts();
      CountsBeforeIs(cnt, [], t, 0, v);
      ghost var l, n, p, c, h := list, next, prev, cnt, head;
      Around(l, 0);
      cnt := cnt[t := v];
      head := t;
      LinkedAfterInsert(n, p, c, h, l, 0, t, next, prev, cnt, head);
      DeltasInserted(c, l, 0, t, v, cnt);
      NoDeltas(c, l);
      list := InsertAt(l, 0, t);
      Intro();
    }

    /** Lines 40-97 of time.c and 41-101 of timer.c. */
    method Insert(t: nat, ticks: Tick)
      requires Valid() && t < |cnt| && t !in list
      modifies this
      ensures Valid() && |cnt| == |old(cnt)|
      ensures ticks == 0 ==> list == old(list) && cnt == old(cnt) && head == old(head)
      ensures ticks > 0 ==>
                var k := Stop(old(Counts()), ticks, 0);
                && list == InsertAt(old(list), k, t)
                && Counts() == InsertDeltas(old(Counts()), k, NewCount(old(Counts()), ticks))
      ensures (forall i | 0 <= i < |old(list)| :: old(list)[i] < |old(cnt)|)
      ensures ticks > 0 ==> cnt == CountsIn(old(cnt), old(list), t, ticks)
    {
      hide *;
      Facts();
      CountsInIs(cnt, list, t, ticks);
      if ticks == 0 {
        return;
      }
      ghost var ds := Counts();
      EmptyStop(ds, ticks);
      if head == NIL {
        LinkFirst(t, ticks);
      } else {
        var at, delta;
        ghost var k;
        at, delta, k := Search(ticks);
        CountIs(ds, ticks);
        if delta < 0 {
          LinkBefore(t, at, delta, k);
        } else {
          LinkLast(t, at, Plus(delta, 0));
        }
      }
    }

    /** Lines 111-140 of time.c and 115-150 of timer.c, for the entry at position `k`. */
    method Unlink(t: nat, ghost k: nat)
      requires Valid() && k < |list| && list[k] == t && t < |cnt|
      modifies this
      ensures Valid() && |cnt| == |old(cnt)| && list == RemoveAt(old(list), k)
      ensures k < |old(Counts())| && Counts() == RemoveDeltas(old(Counts()), k)
      ensures (forall i | 0 <= i < |old(list)| :: old(list)[i] < |old(cnt)|) && cnt == CountsOut(old(cnt), old(list), k)
    {
      hide *;
      Facts();
      ghost var l, n, p, c, h := list, next, prev, cnt, head;
      LinksAt(next, prev, l, k);
      Neighbours(l, k);
      Around(l, k);
      Around(l, k + 1);
      SecondIs(l);
      if prev[t] == NIL && next[t] == NIL {
        head := NIL;
      } else if prev[t] == NIL {
        head := next[t];
        cnt := cnt[next[t] := Plus(cnt[next[t]], cnt[t])];
        prev := prev[next[t] := NIL];
        next := next[t := NIL];
      } else if next[t] == NIL {
        next := next[prev[t] := NIL];
        prev := prev[t := NIL];
      } else {
        next := next[prev[t] := next[t]];
        prev := prev[next[t] := prev[t]];
        cnt := cnt[next[t] := Plus(cnt[next[t]], cnt[t])];
        next := next[t := NIL];
        prev := prev[t := NIL];
      }
      LinkedAfterRemove(n, p, c, h, l, k, next, prev, cnt, head);
      DeltasRemoved(c, l, k, cnt);
      CountsOutIs(c, l, k);
      list := RemoveAt(l, k);
      Intro();
    }
  }

  /** The sum as a 32-bit number. */
  function Plus(x: int, y: int): (u: Tick)
    ensures u == (x + y) % U32
  {
    (x + y) % U32
  }

  lemma NoDeltas(cnt: seq<Tick>, l: seq<nat>)
    requires l == []
    ensures Deltas(cnt, l) == []
  {
  }

  lemma EmptyStop(ds: seq<Tick>, ticks: Tick)
    ensures ds == [] ==> Stop(ds, ticks, 0) == 0 && NewCount(ds, ticks) == ticks
  {
  }

  lemma CountIs(ds: seq<Tick>, ticks: Tick)
    requires ds != []
    ensures var k := Stop(ds, ticks, 0);
            NewCount(ds, ticks) == if k == |ds| then Signed(ticks - Sum(ds, k)) % U32
                                   else (ds[k] + Signed(ticks - Due(ds, k))) % U32
  {
  }

  lemma SecondIs(l: seq<nat>)
    ensures l != [] ==> After(l, 1) == if |l| == 1 then NIL else l[1]
  {
  }

  function SignedOf(x: int): (s: int)
    ensures s == Signed(x)
  {
    Signed(x)
  }

  lemma SumStart(ds: seq<Tick>)
    ensures Sum(ds, 0) == 0
  {
  }

  /** Subtracting one more count, as 32-bit numbers. */
  lemma SumNext(ds: seq<Tick>, k: nat, ticks: int)
    requires k < |ds|
    ensures Signed(Signed(ticks - Sum(ds, k)) - ds[k]) == Signed(ticks - Due(ds, k))
    ensures Due(ds, k) == Sum(ds, k + 1)
  {
  }
}
