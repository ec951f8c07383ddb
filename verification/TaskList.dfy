/** Lists threaded through the TCBnext and TCBprev links of the task table (task.c, time.c), and the
    priority order of the ready list. */
module TaskList {
  import opened Lists

  const NIL: int := -1

  /** `l` is threaded through the links, both ways, and ended by null links. */
  ghost predicate Threaded(next: seq<int>, prev: seq<int>, l: seq<nat>) {
    && |next| == |prev| && Distinct(l)
    && (forall i | 0 <= i < |l| :: l[i] < |next|)
    && (forall i, j | 0 <= i < j < |l| && j == i + 1 :: next[l[i]] == l[j] && prev[l[j]] == l[i])
    && (l != [] ==> prev[l[0]] == NIL && next[l[|l| - 1]] == NIL)
  }

  ghost predicate Free(next: seq<int>, prev: seq<int>, t: nat) {
    t < |next| == |prev| && next[t] == NIL && prev[t] == NIL
  }

  function Head(l: seq<nat>): int {
    if l == [] then NIL else l[0]
  }

  function InsertAt(l: seq<nat>, k: nat, t: nat): (r: seq<nat>)
    requires k <= |l|
    ensures |r| == |l| + 1 && r[k] == t
    ensures forall i | 0 <= i < |r| :: r[i] == if i < k then l[i] else if i == k then t else l[i - 1]
  {
    l[..k] + [t] + l[k..]
  }

  function RemoveAt(l: seq<nat>, k: nat): (r: seq<nat>)
    requires k < |l|
    ensures |r| == |l| - 1
    ensures forall i | 0 <= i < |r| :: r[i] == if i < k then l[i] else l[i + 1]
  {
    l[..k] + l[k + 1..]
  }

  /** The neighbours of position `k`. */
  function Before(l: seq<nat>, k: nat): int
    requires k <= |l|
  {
    if k == 0 then NIL else l[k - 1]
  }

  function After(l: seq<nat>, k: nat): int
    requires k <= |l|
  {
    if k == |l| then NIL else l[k]
  }

  lemma HeadIs(l: seq<nat>)
    ensures Head(l) == if l == [] then NIL else l[0]
    ensures (Head(l) == NIL <==> l == []) && NIL == -1
  {
  }

  lemma HeadInserted(l: seq<nat>, k: nat, t: nat)
    requires k <= |l|
    ensures Head(InsertAt(l, k, t)) == if k == 0 then t else Head(l)
  {
  }

  lemma HeadRemoved(l: seq<nat>, k: nat)
    requires k < |l|
    ensures Head(RemoveAt(l, k)) == if k == 0 then After(l, 1) else Head(l)
  {
  }

  lemma Around(l: seq<nat>, k: nat)
    requires k <= |l|
    ensures Before(l, k) == if k == 0 then NIL else l[k - 1]
    ensures After(l, k) == if k == |l| then NIL else l[k]
    ensures (Before(l, k) == NIL <==> k == 0) && (After(l, k) == NIL <==> k == |l|)
    ensures Head(l) == (if l == [] then NIL else l[0]) && (Head(l) == NIL <==> l == []) && NIL == -1
  {
  }

  lemma DistinctInsert(l: seq<nat>, k: nat, t: nat)
    requires Distinct(l) && k <= |l| && t !in l
    ensures Distinct(InsertAt(l, k, t))
    ensures forall x :: x in InsertAt(l, k, t) <==> x in l || x == t
  {
    var r := InsertAt(l, k, t);
    forall x ensures x in r <==> x in l || x == t {
      if x in l {
        var i :| 0 <= i < |l| && l[i] == x;
        assert r[if i < k then i else i + 1] == x;
      }
    }
  }

  lemma DistinctRemove(l: seq<nat>, k: nat)
    requires Distinct(l) && k < |l|
    ensures Distinct(RemoveAt(l, k))
    ensures forall x :: x in RemoveAt(l, k) <==> x in l && x != l[k]
  {
    var r := RemoveAt(l, k);
    forall x ensures x in r <==> x in l && x != l[k] {
      if x in l && x != l[k] {
        var i :| 0 <= i < |l| && l[i] == x;
        assert r[if i < k then i else i - 1] == x;
      }
    }
  }

  /** Setting the four links around position `k` threads `t` in there. */
  lemma ThreadIn(next: seq<int>, prev: seq<int>, l: seq<nat>, k: nat, t: nat, n: seq<int>, p: seq<int>)
    requires Threaded(next, prev, l) && k <= |l| && t !in l && t < |next| && |n| == |p| == |next|
    requires n[t] == After(l, k) && p[t] == Before(l, k)
    requires forall x | 0 <= x < |next| && x != t :: n[x] == if k > 0 && x == l[k - 1] then t else next[x]
    requires forall x | 0 <= x < |next| && x != t :: p[x] == if k < |l| && x == l[k] then t else prev[x]
    ensures Threaded(n, p, InsertAt(l, k, t))
    ensures forall x :: x in InsertAt(l, k, t) <==> x in l || x == t
  {
    DistinctInsert(l, k, t);
    var r := InsertAt(l, k, t);
    forall i, j | 0 <= i < j < |r| && j == i + 1 ensures n[r[i]] == r[j] && p[r[j]] == r[i] {
      if i + 1 < k || k < i {
        var a := if i < k then i else i - 1;
        assert next[l[a]] == l[a + 1] && prev[l[a + 1]] == l[a];
      }
    }
  }

  /** Bridging the neighbours of position `k` takes its task out. */
  lemma ThreadOut(next: seq<int>, prev: seq<int>, l: seq<nat>, k: nat, n: seq<int>, p: seq<int>)
    requires Threaded(next, prev, l) && k < |l| && |n| == |p| == |next|
    requires forall x | 0 <= x < |next| && x != l[k] ::
               n[x] == if k > 0 && x == l[k - 1] then After(l, k + 1) else next[x]
    requires forall x | 0 <= x < |next| && x != l[k] ::
               p[x] == if k + 1 < |l| && x == l[k + 1] then Before(l, k) else prev[x]
    ensures Threaded(n, p, RemoveAt(l, k))
    ensures forall x :: x in RemoveAt(l, k) <==> x in l && x != l[k]
  {
    DistinctRemove(l, k);
    var r := RemoveAt(l, k);
    forall i, j | 0 <= i < j < |r| && j == i + 1 ensures n[r[i]] == r[j] && p[r[j]] == r[i] {
      if i + 1 != k {
        var a := if i < k then i else i + 1;
        assert next[l[a]] == l[a + 1] && prev[l[a + 1]] == l[a];
      }
    }
  }

  /** Links of other tasks do not matter. */
  lemma ThreadFrame(next: seq<int>, prev: seq<int>, l: seq<nat>, n: seq<int>, p: seq<int>)
    requires Threaded(next, prev, l) && |n| == |p| == |next|
    requires forall x | x in l :: x < |next| && n[x] == next[x] && p[x] == prev[x]
    ensures Threaded(n, p, l)
  {
    forall i, j | 0 <= i < j < |l| && j == i + 1 ensures n[l[i]] == l[j] && p[l[j]] == l[i] {
      assert l[i] in l && l[j] in l;
    }
    if l != [] {
      assert l[0] in l && l[|l| - 1] in l;
    }
  }

  /** The links of the task at position `k`. */
  lemma LinksAt(next: seq<int>, prev: seq<int>, l: seq<nat>, k: nat)
    requires Threaded(next, prev, l) && k < |l|
    ensures l[k] < |next| && next[l[k]] == After(l, k + 1) && prev[l[k]] == Before(l, k)
    ensures k > 0 ==> l[k - 1] < |next|
    ensures k + 1 < |l| ==> l[k + 1] < |next|
  {
    if k + 1 < |l| {
      assert next[l[k]] == l[k + 1];
    }
    if k > 0 {
      assert prev[l[k]] == l[k - 1];
    }
  }

  predicate Known(prio: seq<nat>, l: seq<nat>) {
    forall i | 0 <= i < |l| :: l[i] < |prio|
  }

  ghost predicate SortedBy(prio: seq<nat>, l: seq<nat>) {
    Known(prio, l) && forall i, j | 0 <= i < j < |l| :: prio[l[i]] <= prio[l[j]]
  }

  /** Where a task of priority `p` belongs: before the first one of a larger value. */
  function Place(prio: seq<nat>, l: seq<nat>, p: nat, i: nat): (k: nat)
    requires i <= |l| && Known(prio, l)
    ensures i <= k <= |l|
    decreases |l| - i
  {
    if i == |l| || p < prio[l[i]] then i else Place(prio, l, p, i + 1)
  }

  function Insert(prio: seq<nat>, l: seq<nat>, t: nat): seq<nat>
    requires t < |prio| && Known(prio, l)
  {
    InsertAt(l, Place(prio, l, prio[t], 0), t)
  }

  /** In a sorted list everything up to the place is of at most the priority value, the rest above. */
  lemma {:induction false} PlaceSplits(prio: seq<nat>, l: seq<nat>, p: nat, i: nat)
    requires SortedBy(prio, l) && i <= |l| && Known(prio, l)
    requires forall j | 0 <= j < i :: prio[l[j]] <= p
    ensures var k := Place(prio, l, p, i);
            && (forall j | 0 <= j < k :: prio[l[j]] <= p)
            && forall j | k <= j < |l| :: p < prio[l[j]]
    decreases |l| - i
  {
    if i < |l| && prio[l[i]] <= p {
      PlaceSplits(prio, l, p, i + 1);
    }
  }

  /** The place found from position `i` on is the first one with a larger value. */
  lemma {:induction false} PlaceIs(prio: seq<nat>, l: seq<nat>, p: nat, i: nat, k: nat)
    requires Known(prio, l) && i <= k <= |l|
    requires forall j | i <= j < k :: prio[l[j]] <= p
    requires k < |l| ==> p < prio[l[k]]
    ensures Place(prio, l, p, i) == k
    decreases k - i
  {
    if i < k {
      PlaceIs(prio, l, p, i + 1, k);
    }
  }

  /** Inserting keeps the priority order, and tasks of one priority stay in order of arrival. */
  lemma InsertIsStable(prio: seq<nat>, l: seq<nat>, t: nat)
    requires SortedBy(prio, l) && t < |prio| && Known(prio, l)
    ensures SortedBy(prio, Insert(prio, l, t))
    ensures var r, k := Insert(prio, l, t), Place(prio, l, prio[t], 0);
            && r[k] == t
            && (forall j | 0 <= j < k :: r[j] == l[j] && prio[l[j]] <= prio[t])
            && forall j | k <= j < |l| :: r[j + 1] == l[j] && prio[t] < prio[l[j]]
  {
    PlaceSplits(prio, l, prio[t], 0);
  }

  lemma RemoveKeepsOrder(prio: seq<nat>, l: seq<nat>, k: nat)
    requires SortedBy(prio, l) && k < |l|
    ensures SortedBy(prio, RemoveAt(l, k))
  {
  }

  /** The priority of a task outside the list does not matter. */
  lemma SortedWithout(prio: seq<nat>, l: seq<nat>, t: nat, p: nat)
    requires SortedBy(prio, l) && t < |prio| && t !in l
    ensures SortedBy(prio[t := p], l)
  {
  }

  /** Two steps of a conservation law in a row. */
  lemma Rejoin<T>(a: seq<T>, b: seq<T>, c: seq<T>, d: seq<T>, e: seq<T>, f: seq<T>, g: seq<T>)
    requires a + b == d + e && e + c == f + g
    ensures a + (b + c) == (d + f) + g
  {
    assert a + (b + c) == (a + b) + c;
    assert (d + e) + c == d + (e + c);
    assert d + (f + g) == (d + f) + g;
  }
}
