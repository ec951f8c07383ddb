/** The ready list and the delay list share the TCBnext and TCBprev links of one task table (task.c,
    time.c).  The kernel's invariant keeps the two lists apart, so one pair of tables threads both and is
    null elsewhere; every move sets only the links around its own place in that pair. */
module LinkSharing {
  import opened Lists
  import opened TaskList
  import opened DeltaList
  import opened DeltaLinks
  import opened ReadyList
  import opened KernelState
  import opened Kernel

  /** One pair of tables threads the lists `l` and `m`, which have no task in common, and holds null links
      for all other tasks. */
  ghost predicate Shared(next: seq<int>, prev: seq<int>, l: seq<nat>, m: seq<nat>) {
    && Threaded(next, prev, l) && Threaded(next, prev, m) && (forall x | x in l :: x !in m)
    && forall x | 0 <= x < |next| && x !in l && x !in m :: next[x] == NIL && prev[x] == NIL
  }

  lemma SharedSwaps(next: seq<int>, prev: seq<int>, l: seq<nat>, m: seq<nat>)
    requires Shared(next, prev, l, m)
    ensures Shared(next, prev, m, l)
  {
  }

  /** The lists determine the tables. */
  lemma OneLinking(next: seq<int>, prev: seq<int>, n: seq<int>, p: seq<int>, l: seq<nat>, m: seq<nat>)
    requires Shared(next, prev, l, m) && Shared(n, p, l, m) && |n| == |next|
    ensures n == next && p == prev
  {
    hide Threaded;
    SameLengths(next, prev, l);
    SameLengths(n, p, l);
    forall x | 0 <= x < |next| ensures n[x] == next[x] && p[x] == prev[x] {
      if x in l {
        LinksDetermined(next, prev, n, p, l, x);
      } else if x in m {
        LinksDetermined(next, prev, n, p, m, x);
      }
    }
  }

  lemma SameLengths(next: seq<int>, prev: seq<int>, l: seq<nat>)
    requires Threaded(next, prev, l)
    ensures |next| == |prev|
  {
  }

  lemma LinksDetermined(next: seq<int>, prev: seq<int>, n: seq<int>, p: seq<int>, l: seq<nat>, x: nat)
    requires Threaded(next, prev, l) && Threaded(n, p, l) && x in l
    ensures x < |next| == |prev| && x < |n| == |p| && n[x] == next[x] && p[x] == prev[x]
  {
    var k :| 0 <= k < |l| && l[k] == x;
    LinksAt(next, prev, l, k);
    LinksAt(n, p, l, k);
  }

  /** The links an insertion of `t` at place `k` sets. */
  ghost predicate SetAround(next: seq<int>, prev: seq<int>, l: seq<nat>, k: nat, t: nat, n: seq<int>, p: seq<int>)
    requires k <= |l| && |n| == |p| == |next| == |prev| && t < |next|
  {
    && n[t] == After(l, k) && p[t] == Before(l, k)
    && (forall x | 0 <= x < |next| && x != t :: n[x] == if k > 0 && x == l[k - 1] then t else next[x])
    && forall x | 0 <= x < |next| && x != t :: p[x] == if k < |l| && x == l[k] then t else prev[x]
  }

  /** The links a removal from place `k` sets. */
  ghost predicate ClearedAround(next: seq<int>, prev: seq<int>, l: seq<nat>, k: nat, n: seq<int>, p: seq<int>)
    requires k < |l| && |n| == |p| == |next| == |prev| && l[k] < |next|
  {
    && n[l[k]] == NIL && p[l[k]] == NIL
    && (forall x | 0 <= x < |next| && x != l[k] :: n[x] == if k > 0 && x == l[k - 1] then After(l, k + 1) else next[x])
    && forall x | 0 <= x < |next| && x != l[k] :: p[x] == if k + 1 < |l| && x == l[k + 1] then Before(l, k) else prev[x]
  }

  /** Threading a task of neither list into one of them leaves the other threaded and all others null. */
  lemma InsertLeavesOthers(next: seq<int>, prev: seq<int>, l: seq<nat>, m: seq<nat>, k: nat, t: nat, n: seq<int>, p: seq<int>)
    requires Shared(next, prev, l, m) && |n| == |p| == |next| == |prev|
    requires k <= |l| && t < |next| && t !in l && t !in m && SetAround(next, prev, l, k, t, n, p)
    ensures Shared(n, p, InsertAt(l, k, t), m)
  {
    ThreadIn(next, prev, l, k, t, n, p);
    assert (k > 0 ==> l[k - 1] in l) && (k < |l| ==> l[k] in l);
    forall x | x in m ensures x < |next| && n[x] == next[x] && p[x] == prev[x] {
      var i :| 0 <= i < |m| && m[i] == x;
    }
    ThreadFrame(next, prev, m, n, p);
  }

  /** Taking a task out of one of them leaves its links null, the other list threaded and all others null. */
  lemma RemoveLeavesOthers(next: seq<int>, prev: seq<int>, l: seq<nat>, m: seq<nat>, k: nat, n: seq<int>, p: seq<int>)
    requires Shared(next, prev, l, m) && |n| == |p| == |next| == |prev|
    requires k < |l| && l[k] < |next| && ClearedAround(next, prev, l, k, n, p)
    ensures Shared(n, p, RemoveAt(l, k), m)
  {
    ThreadOut(next, prev, l, k, n, p);
    assert l[k] in l && (k > 0 ==> l[k - 1] in l) && (k + 1 < |l| ==> l[k + 1] in l);
    forall x | x in m ensures x < |next| && n[x] == next[x] && p[x] == prev[x] {
      var i :| 0 <= i < |m| && m[i] == x;
    }
    ThreadFrame(next, prev, m, n, p);
  }

  /** The tables of the system thread its ready list and its delay list. */
  ghost predicate SharesLinks(s: Sys, next: seq<int>, prev: seq<int>) {
    |next| == |prev| == |s.state| && Shared(next, prev, s.ready, s.delay)
  }

  /** InsertToTCBRdyList in the shared tables. */
  lemma AdmitLinked(s: Sys, t: nat, next: seq<int>, prev: seq<int>, n: seq<int>, p: seq<int>)
    requires Sound(s) && Loose(s, t) && SharesLinks(s, next, prev) && |n| == |p| == |next| && Known(s.prio, s.ready) && t < |s.prio|
    requires SetAround(next, prev, s.ready, Place(s.prio, s.ready, s.prio[t], 0), t, n, p)
    ensures SharesLinks(Admitted(s, t), n, p)
  {
    PlacedAt(s, t);
    InsertLeavesOthers(next, prev, s.ready, s.delay, Place(s.prio, s.ready, s.prio[t], 0), t, n, p);
  }

  /** RemoveFromTCBRdyList. */
  lemma UnreadyLinked(s: Sys, t: nat, state: TaskState, next: seq<int>, prev: seq<int>, n: seq<int>, p: seq<int>)
    requires Sound(s) && t < |s.state| && t in s.ready && SharesLinks(s, next, prev) && |n| == |p| == |next|
    requires ClearedAround(next, prev, s.ready, IndexOf(s.ready, t), n, p)
    ensures SharesLinks(Unreadied(s, t, state), n, p)
  {
    RemoveLeavesOthers(next, prev, s.ready, s.delay, IndexOf(s.ready, t), n, p);
  }

  /** InsertDelayList. */
  lemma DelayLinked(s: Sys, t: nat, d: Tick, next: seq<int>, prev: seq<int>, n: seq<int>, p: seq<int>)
    requires Sound(s) && t < |s.state| && t !in s.ready && t !in s.delay && 0 < d
    requires SharesLinks(s, next, prev) && |n| == |p| == |next| && |Deltas(s.tick, s.delay)| == |s.delay|
    requires SetAround(next, prev, s.delay, Stop(Deltas(s.tick, s.delay), d, 0), t, n, p)
    ensures SharesLinks(Delaying(s, t, d), n, p)
  {
    SharedSwaps(next, prev, s.ready, s.delay);
    InsertLeavesOthers(next, prev, s.delay, s.ready, Stop(Deltas(s.tick, s.delay), d, 0), t, n, p);
    SharedSwaps(n, p, Delaying(s, t, d).delay, s.ready);
  }

  /** RemoveDelayList. */
  lemma UndelayLinked(s: Sys, t: nat, next: seq<int>, prev: seq<int>, n: seq<int>, p: seq<int>)
    requires Sound(s) && t < |s.state| && t in s.delay && SharesLinks(s, next, prev) && |n| == |p| == |next|
    requires ClearedAround(next, prev, s.delay, IndexOf(s.delay, t), n, p)
    ensures SharesLinks(Undelayed(s, t), n, p)
  {
    SharedSwaps(next, prev, s.ready, s.delay);
    RemoveLeavesOthers(next, prev, s.delay, s.ready, IndexOf(s.delay, t), n, p);
    SharedSwaps(n, p, Undelayed(s, t).delay, s.ready);
  }

  /** The links of the tasks in `l` from one table, all others from another. */
  ghost function Merged(l: seq<nat>, a: seq<int>, b: seq<int>): (r: seq<int>)
    requires |a| == |b|
    ensures |r| == |a| && forall x | 0 <= x < |r| :: r[x] == if x in l then a[x] else b[x]
  {
    seq(|a|, x requires 0 <= x < |a| => if x in l then a[x] else b[x])
  }

  /** The two tables of links the scheduler keeps for the two lists are one: merged they thread both lists
      and are null elsewhere. */
  lemma SchedulerShares(k: Scheduler)
    requires k.Valid() && Sound(k.Now())
    ensures |k.rdy.next| == |k.dly.next| && |k.rdy.prev| == |k.dly.prev|
    ensures SharesLinks(k.Now(), Merged(k.rdy.list, k.rdy.next, k.dly.next), Merged(k.rdy.list, k.rdy.prev, k.dly.prev))
  {
    k.NowIs();
    var s := k.Now();
    forall x | x in s.ready ensures x !in s.delay {
      NotInBoth(s, x);
    }
    MergedShares(k.rdy.next, k.rdy.prev, k.dly.next, k.dly.prev, s.ready, s.delay);
  }

  lemma NotInBoth(s: Sys, x: nat)
    requires Sound(s) && x in s.ready
    ensures x !in s.delay
  {
    ListFits(|s.state|, s.ready, s.prio);
    PlacedAt(s, x);
  }

  lemma MergedShares(rn: seq<int>, rp: seq<int>, dn: seq<int>, dp: seq<int>, l: seq<nat>, m: seq<nat>)
    requires Threaded(rn, rp, l) && Threaded(dn, dp, m) && |rn| == |dn| && forall x | x in l :: x !in m
    requires forall x | 0 <= x < |dn| && x !in m :: dn[x] == NIL && dp[x] == NIL
    ensures |rp| == |dp| && Shared(Merged(l, rn, dn), Merged(l, rp, dp), l, m)
  {
    var n, p := Merged(l, rn, dn), Merged(l, rp, dp);
    forall x | x in l ensures x < |rn| {
      var i :| 0 <= i < |l| && l[i] == x;
    }
    forall x | x in m ensures x < |rn| {
      var i :| 0 <= i < |m| && m[i] == x;
    }
    ThreadFrame(rn, rp, l, n, p);
    ThreadFrame(dn, dp, m, n, p);
  }

  /** Tables that thread both lists are those two merged, whatever moves led there: setting the links
      around one place in the shared tables comes to the same as in the scheduler's own. */
  lemma SharedAreMerged(k: Scheduler, next: seq<int>, prev: seq<int>)
    requires k.Valid() && Sound(k.Now()) && SharesLinks(k.Now(), next, prev)
    ensures |k.rdy.next| == |k.dly.next| && |k.rdy.prev| == |k.dly.prev|
    ensures next == Merged(k.rdy.list, k.rdy.next, k.dly.next) && prev == Merged(k.rdy.list, k.rdy.prev, k.dly.prev)
  {
    SchedulerShares(k);
    k.NowIs();
    OneLinking(next, prev, Merged(k.rdy.list, k.rdy.next, k.dly.next), Merged(k.rdy.list, k.rdy.prev, k.dly.prev),
               k.rdy.list, k.dly.list);
  }
}
