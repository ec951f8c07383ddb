/** Timers over time (timer.c, TmrDispose; arch.c, SysTick_Handler): disposal ends although periodic
    timers go back into the list, and a periodic timer fires at its count and every reload after it. */
module TimerRuns {
  import opened Lists
  import opened TaskList
  import opened DeltaList
  import opened DelayRuns

  /** What the timers are set to. */
  datatype Setting = Setting(periodic: bool, reload: Tick)

  /** Positive reloads. */
  ghost predicate Sane(ts: seq<Setting>) {
    forall i | 0 <= i < |ts| :: ts[i].periodic ==> 0 < ts[i].reload
  }

  /** Times and reloads are short enough for the signed search. */
  ghost predicate Short(w: Waiting, ts: seq<Setting>) {
    && Sound(w) && Sane(ts) && (forall i | 0 <= i < |ts| :: ts[i].periodic ==> ts[i].reload < HALF)
    && (forall i | 0 <= i < |w.l| :: w.l[i] < |ts|)
    && forall i | 0 <= i < |w.ds| :: Due(w.ds, i) < HALF
  }

  ghost function Inserted(w: Waiting, t: nat, n: Tick): Waiting
    requires |w.l| == |w.ds|
  {
    var k := Stop(w.ds, n, 0);
    Waiting(InsertAt(w.l, k, t), InsertDeltas(w.ds, k, NewCount(w.ds, n)))
  }

  /** A positive count is never inserted among the entries that are due. */
  lemma {:induction false} StopBehindZeros(ds: seq<Tick>, n: Tick, k: nat)
    requires k <= Zeros(ds) && 0 < n
    ensures Stop(ds, n, k) < Zeros(ds) ==> n >= HALF && Stop(ds, n, k) == k
    decreases |ds| - k
  {
    if k < Zeros(ds) {
      ZeroSum(ds, k + 1);
      if n < HALF {
        SignedSmall(n);
        StopBehindZeros(ds, n, k + 1);
      } else {
        SignedFar(n);
      }
    }
  }

  lemma ZerosIs(ds: seq<Tick>, z: nat)
    requires z <= |ds| && (forall i | 0 <= i < z :: ds[i] == 0) && (z < |ds| ==> ds[z] != 0)
    ensures Zeros(ds) == z
  {
  }

  /** Inserting a positive count never lengthens the due prefix: a count below 2^31 goes behind it, and a
      larger one before it, if there is one. */
  lemma InsertKeepsZeros(ds: seq<Tick>, n: Tick)
    requires 0 < n
    ensures var k, z := Stop(ds, n, 0), Zeros(ds);
            var es := InsertDeltas(ds, k, NewCount(ds, n));
            && |es| == |ds| + 1
            && if n < HALF || z == 0 then z <= k && Zeros(es) == z else Zeros(es) == 0
  {
    var k, z := Stop(ds, n, 0), Zeros(ds);
    var v := NewCount(ds, n);
    var es := InsertDeltas(ds, k, v);
    InsertedSize(ds, k, v);
    StopBehindZeros(ds, n, 0);
    if n >= HALF && z > 0 {
      SignedFar(n);
      ZeroSum(ds, 1);
      assert Due(ds, 0) == 0;
      assert k == 0;
      ZerosIs(es, 0);
    } else if k == z {
      ZeroSum(ds, z);
      CountAtPrefix(ds, n);
      ZerosIs(es, z);
    } else {
      assert es[z] == ds[z];
      ZerosIs(es, z);
    }
  }

  lemma CountAtPrefix(ds: seq<Tick>, n: Tick)
    requires Stop(ds, n, 0) == Zeros(ds) && Sum(ds, Zeros(ds)) == 0
    ensures NewCount(ds, n) == n
  {
    var z := Zeros(ds);
    if z < |ds| {
      assert Due(ds, z) == ds[z];
      hide Stop, Zeros, Sum, Due;
      SignedMod(n - ds[z], ds[z]);
    } else {
      SignedMod(n, 0);
    }
  }

  lemma SignedMod(x: int, a: int)
    ensures Signed(x) % U32 == x % U32
    ensures (a + Signed(x)) % U32 == (a + x) % U32
  {
  }

  /** Lines 394-420: every due timer fires; a periodic one goes back with its reload. */
  ghost function FireAll(w: Waiting, ts: seq<Setting>): (r: (Waiting, seq<nat>))
    requires |w.l| == |w.ds| && (forall i | 0 <= i < |w.l| :: w.l[i] < |ts|) && Sane(ts)
    decreases Zeros(w.ds)
  {
    if w.ds == [] || w.ds[0] != 0 then (w, [])
    else
      var x := w.l[0];
      var w1 := Waiting(w.l[1..], w.ds[1..]);
      if ts[x].periodic then
        InsertKeepsZeros(w1.ds, ts[x].reload);
        InsertedIn(w1, ts, x, ts[x].reload);
        var r := FireAll(Inserted(w1, x, ts[x].reload), ts);
        (r.0, [x] + r.1)
      else
        var r := FireAll(w1, ts);
        (r.0, [x] + r.1)
  }

  /** Of the timers that are due, all but the last one have reloads below 2^31. */
  ghost predicate FrontShort(w: Waiting, ts: seq<Setting>)
    requires |w.l| == |w.ds| && forall i | 0 <= i < |w.l| :: w.l[i] < |ts|
  {
    forall i | 0 <= i < Zeros(w.ds) - 1 :: ts[w.l[i]].periodic ==> ts[w.l[i]].reload < HALF
  }

  /** A disposal fires all the timers that are due, in order and each once, exactly when no due timer but
      the last goes back with a reload of 2^31 or more: such a reload is taken for a time long past, goes in
      front of the timers still to fire, and ends the disposal. */
  lemma {:induction false} FiresAllDueIff(w: Waiting, ts: seq<Setting>)
    requires |w.l| == |w.ds| && (forall i | 0 <= i < |w.l| :: w.l[i] < |ts|) && Sane(ts)
    ensures FireAll(w, ts).1 == w.l[..Zeros(w.ds)] <==> FrontShort(w, ts)
    decreases Zeros(w.ds)
  {
    hide *;
    NoneLeft(w, ts);
    if Zeros(w.ds) > 0 {
      var w2 := AfterFirst(w, ts);
      FireFirst(w, ts);
      FiresAllDueIff(w2, ts);
      FirstInFront(w, ts, w2, FireAll(w2, ts).1);
    }
  }

  /** The list after the first due timer has fired. */
  ghost function AfterFirst(w: Waiting, ts: seq<Setting>): Waiting
    requires |w.l| == |w.ds| && (forall i | 0 <= i < |w.l| :: w.l[i] < |ts|) && Zeros(w.ds) > 0
  {
    var w1 := Waiting(w.l[1..], w.ds[1..]);
    if ts[w.l[0]].periodic then Inserted(w1, w.l[0], ts[w.l[0]].reload) else w1
  }

  lemma NoneLeft(w: Waiting, ts: seq<Setting>)
    requires |w.l| == |w.ds| && (forall i | 0 <= i < |w.l| :: w.l[i] < |ts|) && Sane(ts)
    ensures Zeros(w.ds) <= |w.ds| && (Zeros(w.ds) == 0 ==> FireAll(w, ts) == (w, []) && FrontShort(w, ts))
    ensures w.l[..0] == []
  {
  }

  lemma FireFirst(w: Waiting, ts: seq<Setting>)
    requires |w.l| == |w.ds| && (forall i | 0 <= i < |w.l| :: w.l[i] < |ts|) && Sane(ts) && Zeros(w.ds) > 0
    ensures var x, e, z := w.l[0], AfterFirst(w, ts), Zeros(w.ds) - 1;
            && |e.l| == |e.ds| && (forall i | 0 <= i < |e.l| :: e.l[i] < |ts|)
            && FireAll(w, ts).1 == [x] + FireAll(e, ts).1
            && if ts[x].periodic && ts[x].reload >= HALF && z > 0 then Zeros(e.ds) == 0
               else Zeros(e.ds) == z && z <= |w.l[1..]| && e.l[..z] == w.l[1..][..z]
  {
    var x, w1 := w.l[0], Waiting(w.l[1..], w.ds[1..]);
    if ts[x].periodic {
      InsertKeepsZeros(w1.ds, ts[x].reload);
      InsertedIn(w1, ts, x, ts[x].reload);
    }
  }

  lemma FirstInFront(w: Waiting, ts: seq<Setting>, e: Waiting, g: seq<nat>)
    requires |w.l| == |w.ds| && (forall i | 0 <= i < |w.l| :: w.l[i] < |ts|) && Zeros(w.ds) > 0
    requires |e.l| == |e.ds| && (forall i | 0 <= i < |e.l| :: e.l[i] < |ts|)
    requires var x, z := w.l[0], Zeros(w.ds) - 1;
             if ts[x].periodic && ts[x].reload >= HALF && z > 0 then Zeros(e.ds) == 0
             else Zeros(e.ds) == z && z <= |w.l[1..]| && e.l[..z] == w.l[1..][..z]
    requires g == e.l[..Zeros(e.ds)] <==> FrontShort(e, ts)
    ensures [w.l[0]] + g == w.l[..Zeros(w.ds)] <==> FrontShort(w, ts)
  {
    hide Zeros;
    var x, z := w.l[0], Zeros(w.ds) - 1;
    var front := w.l[1..][..z];
    assert w.l[..z + 1] == [x] + front;
    assert ([x] + g)[1..] == g && ([x] + front)[1..] == front;
    if !(ts[x].periodic && ts[x].reload >= HALF && z > 0) {
      FrontStep(w, ts, e);
    } else {
      assert |g| != z;
    }
  }

  lemma FrontStep(w: Waiting, ts: seq<Setting>, w2: Waiting)
    requires |w.l| == |w.ds| && forall i | 0 <= i < |w.l| :: w.l[i] < |ts|
    requires |w2.l| == |w2.ds| && forall i | 0 <= i < |w2.l| :: w2.l[i] < |ts|
    requires Zeros(w.ds) == 1 + Zeros(w2.ds) && w2.l[..Zeros(w2.ds)] == w.l[1..][..Zeros(w2.ds)]
    requires Zeros(w.ds) > 1 && ts[w.l[0]].periodic ==> ts[w.l[0]].reload < HALF
    ensures FrontShort(w, ts) <==> FrontShort(w2, ts)
  {
    var z := Zeros(w2.ds);
    hide Zeros;
    assert forall i | 0 <= i < z :: w2.l[..z][i] == w2.l[i] && w.l[1..][..z][i] == w.l[i + 1];
    if FrontShort(w, ts) {
      forall i | 0 <= i && i + 1 < z ensures ts[w2.l[i]].periodic ==> ts[w2.l[i]].reload < HALF {
        assert w2.l[i] == w.l[i + 1];
      }
    }
    if FrontShort(w2, ts) {
      forall i | 0 <= i < z ensures ts[w.l[i]].periodic ==> ts[w.l[i]].reload < HALF {
        if i > 0 {
          assert w2.l[i - 1] == w.l[i];
        }
      }
    }
  }

  lemma InsertedIn(w: Waiting, ts: seq<Setting>, t: nat, n: Tick)
    requires |w.l| == |w.ds| && (forall i | 0 <= i < |w.l| :: w.l[i] < |ts|) && t < |ts|
    ensures forall i | 0 <= i < |Inserted(w, t, n).l| :: Inserted(w, t, n).l[i] < |ts|
  {
  }

  lemma ShortInReach(w: Waiting, ts: seq<Setting>, n: Tick)
    requires Short(w, ts) && n < HALF
    ensures InReach(w.ds, n)
  {
    SmallTimesInReach(w.ds, n);
  }

  lemma DueAt(w: Waiting, x: nat, r: nat, i: nat)
    requires Sound(w) && Holds(w, x, r) && i < |w.l| && w.l[i] == x
    ensures Due(w.ds, i) == r
  {
  }

  /** The head, which is due, leaves. */
  lemma HeadGone(w: Waiting, ts: seq<Setting>)
    requires Short(w, ts) && w.ds != [] && w.ds[0] == 0
    ensures var w1 := Waiting(w.l[1..], w.ds[1..]);
            && Short(w1, ts) && w.l[0] !in w1.l && Zeros(w.ds) == 1 + Zeros(w1.ds)
            && forall y, r | Holds(w, y, r) && y != w.l[0] :: Holds(w1, y, r)
  {
    var w1 := Waiting(w.l[1..], w.ds[1..]);
    forall i | 0 <= i < |w1.ds| ensures Due(w1.ds, i) == Due(w.ds, i + 1) {
      SumDropsZeros(w.ds, 1, i + 2);
    }
    forall y, r | Holds(w, y, r) && y != w.l[0] ensures Holds(w1, y, r) {
      var i :| 0 <= i < |w.l| && w.l[i] == y && Due(w.ds, i) == r;
      HoldsAt(w1, y, i - 1);
    }
  }

  /** A timer goes in with `n` ticks; the others keep theirs. */
  lemma InsertTimer(w: Waiting, ts: seq<Setting>, t: nat, n: Tick)
    requires Short(w, ts) && t < |ts| && t !in w.l && 0 < n < HALF
    ensures Short(Inserted(w, t, n), ts) && Holds(Inserted(w, t, n), t, n)
    ensures Zeros(Inserted(w, t, n).ds) <= Zeros(w.ds)
    ensures forall y :: y in Inserted(w, t, n).l <==> y in w.l || y == t
    ensures forall y, r | Holds(w, y, r) :: Holds(Inserted(w, t, n), y, r)
  {
    ShortInReach(w, ts, n);
    InReachIsExact(w.ds, n);
    InsertKeepsZeros(w.ds, n);
    var k := Stop(w.ds, n, 0);
    DistinctInsert(w.l, k, t);
    InsertedEntries(w, t, n, k);
    InsertedShort(w, ts, t, n, k);
    hide InsertAt, InsertDeltas, Stop, NewCount, Due, Short;
    forall y, r | Holds(w, y, r) ensures Holds(Inserted(w, t, n), y, r) {
      InsertedHolds(w, t, n, k, y, r);
    }
  }

  lemma InsertedEntries(w: Waiting, t: nat, n: Tick, k: nat)
    requires Sound(w) && Exact(w.ds, n) && k == Stop(w.ds, n, 0)
    ensures Holds(Inserted(w, t, n), t, n)
  {
    HoldsAt(Inserted(w, t, n), t, k);
  }

  lemma InsertedHolds(w: Waiting, t: nat, n: Tick, k: nat, y: nat, r: nat)
    requires Sound(w) && Exact(w.ds, n) && k == Stop(w.ds, n, 0) && Holds(w, y, r)
    ensures Holds(Inserted(w, t, n), y, r)
  {
    var i :| 0 <= i < |w.l| && w.l[i] == y && Due(w.ds, i) == r;
    HoldsAt(Inserted(w, t, n), y, if i < k then i else i + 1);
  }

  lemma InsertedShort(w: Waiting, ts: seq<Setting>, t: nat, n: Tick, k: nat)
    requires Short(w, ts) && Exact(w.ds, n) && k == Stop(w.ds, n, 0) && t < |ts| && n < HALF
    requires Distinct(InsertAt(w.l, k, t))
    ensures Short(Inserted(w, t, n), ts)
  {
    var e := Inserted(w, t, n);
    hide InsertDeltas, Stop, NewCount, Sum;
    assert |e.ds| == |w.ds| + 1 by { InsertedSize(w.ds, k, NewCount(w.ds, n)); }
    forall i | 0 <= i < |e.ds| ensures Due(e.ds, i) < HALF {
      if i != k {
        var j := if i < k then i else i - 1;
        assert Due(e.ds, if j < k then j else j + 1) == Due(w.ds, j);
      }
    }
  }

  lemma InsertedSize(ds: seq<Tick>, k: nat, v: Tick)
    requires k <= |ds|
    ensures |InsertDeltas(ds, k, v)| == |ds| + 1
  {
  }

  function Times(l: seq<nat>, y: nat): nat {
    if l == [] then 0 else (if l[0] == y then 1 else 0) + Times(l[1..], y)
  }

  /** After firing, a periodic timer waits a full reload and any other is out of the list. */
  ghost predicate Rearmed(ts: seq<Setting>, y: nat, e: Waiting) {
    y < |ts| && if ts[y].periodic then Holds(e, y, ts[y].reload) else y !in e.l
  }

  /** From `w` to `e`, firing the timers of `f`: `y` fires once if it was due and not otherwise, and keeps
      its time if it was not. */
  ghost predicate FiredRight(w: Waiting, ts: seq<Setting>, y: nat, e: Waiting, f: seq<nat>) {
    && Short(e, ts) && NoneDue(e)
    && (y !in w.l ==> y !in e.l && Times(f, y) == 0)
    && (forall d | Holds(w, y, d) && d > 0 :: Holds(e, y, d) && Times(f, y) == 0)
    && (Holds(w, y, 0) ==> Times(f, y) == 1 && Rearmed(ts, y, e))
  }

  /** A disposal fires exactly the timers that are due, each once; the periodic ones wait a full reload
      afterwards, the others are out, and no other timer's time changes. */
  lemma {:induction false} FireEffect(w: Waiting, ts: seq<Setting>, y: nat)
    requires Short(w, ts)
    ensures FiredRight(w, ts, y, FireAll(w, ts).0, FireAll(w, ts).1)
    decreases Zeros(w.ds)
  {
    if w.ds == [] || w.ds[0] != 0 {
      if Holds(w, y, 0) {
        NotDueYet(w, y, 0);
      }
    } else {
      var x, w1 := w.l[0], Waiting(w.l[1..], w.ds[1..]);
      HeadGone(w, ts);
      assert Due(w.ds, 0) == 0 by { assert Sum(w.ds, 1) == Sum(w.ds, 0) + w.ds[0]; }
      var w2 := if ts[x].periodic then Inserted(w1, x, ts[x].reload) else w1;
      if ts[x].periodic {
        InsertTimer(w1, ts, x, ts[x].reload);
      }
      FireEffect(w2, ts, y);
      FireRest(w, ts, w2, y, FireAll(w2, ts).0, FireAll(w2, ts).1);
    }
  }

  /** Putting one fired timer in front. */
  lemma FireRest(w: Waiting, ts: seq<Setting>, w2: Waiting, y: nat, e: Waiting, f: seq<nat>)
    requires Short(w, ts) && w.ds != [] && w.ds[0] == 0 && Due(w.ds, 0) == 0
    requires Rearmed(ts, w.l[0], w2) && Sane(ts)
    requires forall z, r | Holds(w, z, r) && z != w.l[0] :: Holds(w2, z, r)
    requires y !in w.l ==> y !in w2.l
    requires FiredRight(w2, ts, y, e, f)
    ensures FiredRight(w, ts, y, e, [w.l[0]] + f)
  {
    var x := w.l[0];
    assert ([x] + f)[1..] == f;
    HoldsAt(w, x, 0);
    forall d | Holds(w, x, d) ensures d == 0 {
      DueAt(w, x, d, 0);
    }
  }

  datatype TimerOp = TimerTick(locked: bool) | Start(t: nat, n: Tick) | Halt(k: nat) | Serve

  /** Lines 80-92 of arch.c. */
  ghost function TimerTicked(w: Waiting, ts: seq<Setting>, locked: bool): (r: (Waiting, seq<nat>))
    requires |w.l| == |w.ds| && (forall i | 0 <= i < |w.l| :: w.l[i] < |ts|) && Sane(ts)
  {
    if w.ds == [] then (w, [])
    else if w.ds[0] > 1 then (w.(ds := w.ds[0 := w.ds[0] - 1]), [])
    else
      var z := w.(ds := w.ds[0 := 0]);
      if locked then (z, []) else FireAll(z, ts)
  }

  ghost predicate TimerAllowed(w: Waiting, ts: seq<Setting>, op: TimerOp, x: nat) {
    && Short(w, ts)
    && match op
       case TimerTick(_) => true
       case Start(t, n) => t < |ts| && t !in w.l && 0 < n < HALF && t != x
       case Halt(k) => k < |w.l| && w.l[k] != x
       case Serve => true
  }

  /** The list after an operation and the timers it fires. */
  ghost function TimerStep(w: Waiting, ts: seq<Setting>, op: TimerOp, x: nat): (Waiting, seq<nat>)
    requires TimerAllowed(w, ts, op, x)
  {
    match op
    case TimerTick(locked) => TimerTicked(w, ts, locked)
    case Start(t, n) => (Inserted(w, t, n), [])
    case Halt(k) => (Waiting(RemoveAt(w.l, k), RemoveDeltas(w.ds, k)), [])
    case Serve => FireAll(w, ts)
  }

  lemma HaltOther(w: Waiting, ts: seq<Setting>, k: nat, x: nat, r: nat)
    requires TimerAllowed(w, ts, Halt(k), x) && Holds(w, x, r) && NoneDue(w)
    ensures var e := Waiting(RemoveAt(w.l, k), RemoveDeltas(w.ds, k));
            Short(e, ts) && NoneDue(e) && Holds(e, x, r)
  {
    NoWrap(w, ts, k);
    HaltHolds(w, k, x, r);
    HaltShort(w, ts, k);
  }

  lemma NoWrap(w: Waiting, ts: seq<Setting>, k: nat)
    requires Short(w, ts) && k < |w.ds|
    ensures k + 1 < |w.ds| ==> w.ds[k] + w.ds[k + 1] < U32
  {
    if k + 1 < |w.ds| {
      DueOrder(w.ds, k, k + 1);
      assert Due(w.ds, k + 1) < HALF;
    }
  }

  lemma HaltHolds(w: Waiting, k: nat, x: nat, r: nat)
    requires Sound(w) && k < |w.l| && w.l[k] != x && Holds(w, x, r) && (k + 1 < |w.ds| ==> w.ds[k] + w.ds[k + 1] < U32)
    ensures Holds(Waiting(RemoveAt(w.l, k), RemoveDeltas(w.ds, k)), x, r)
  {
    var e := Waiting(RemoveAt(w.l, k), RemoveDeltas(w.ds, k));
    var i :| 0 <= i < |w.l| && w.l[i] == x && Due(w.ds, i) == r;
    RemoveIsExact(w.ds, k, i);
    HoldsAt(e, x, if i < k then i else i - 1);
  }

  lemma HaltShort(w: Waiting, ts: seq<Setting>, k: nat)
    requires Short(w, ts) && NoneDue(w) && k < |w.l| && (k + 1 < |w.ds| ==> w.ds[k] + w.ds[k + 1] < U32)
    ensures var e := Waiting(RemoveAt(w.l, k), RemoveDeltas(w.ds, k)); Short(e, ts) && NoneDue(e)
  {
    var e := Waiting(RemoveAt(w.l, k), RemoveDeltas(w.ds, k));
    DistinctRemove(w.l, k);
    assert NoneDue(e);
    RemovedSize(w.ds, k);
    hide RemoveDeltas, Sum, Due;
    forall j | 0 <= j < |e.ds| ensures Due(e.ds, j) < HALF {
      var m := if j < k then j else j + 1;
      RemoveIsExact(w.ds, k, m);
      assert Due(w.ds, m) < HALF;
    }
  }

  lemma RemovedSize(ds: seq<Tick>, k: nat)
    requires k < |ds|
    ensures |RemoveDeltas(ds, k)| == |ds| - 1
  {
  }

  /** One unlocked tick of a timer with `r` ticks to go. */
  lemma TickTimer(w: Waiting, ts: seq<Setting>, x: nat, r: nat)
    requires Short(w, ts) && NoneDue(w) && Holds(w, x, r)
    ensures var e := TimerTicked(w, ts, false);
            && Short(e.0, ts) && NoneDue(e.0)
            && (r > 1 ==> Holds(e.0, x, r - 1) && Times(e.1, x) == 0)
            && (r == 1 ==> Times(e.1, x) == 1 && Rearmed(ts, x, e.0))
  {
    hide *;
    ShortSound(w, ts);
    NotDueYet(w, x, r);
    OneLess(w, ts, x, r);
    var z := Waiting(w.l, w.ds[0 := w.ds[0] - 1]);
    ShortSound(z, ts);
    TimerTickIs(w, ts, false);
    if w.ds[0] > 1 {
      NoneDueIs(z);
      NotDueYet(z, x, r - 1);
      NoTimes(x);
    } else {
      FireEffect(z, ts, x);
      FiredRightAt(z, ts, x, r - 1, FireAll(z, ts).0, FireAll(z, ts).1);
    }
  }

  /** A tick under a lock fires nothing, and still takes one tick from every timer unless the first one is
      already due. */
  lemma LockedTickTimer(w: Waiting, ts: seq<Setting>, x: nat, r: nat)
    requires Short(w, ts) && Holds(w, x, r)
    ensures var e := TimerTicked(w, ts, true);
            && e.1 == [] && e.0.l == w.l && |w.ds| > 0
            && if w.ds[0] > 0 then r > 0 && Holds(e.0, x, r - 1) else Holds(e.0, x, r)
  {
    ShortSound(w, ts);
    if w.ds[0] > 0 {
      NotDueYet(w, x, r);
      OneLess(w, ts, x, r);
    } else {
      assert w.ds[0 := 0] == w.ds;
    }
  }

  lemma TimerTickIs(w: Waiting, ts: seq<Setting>, locked: bool)
    requires Sane(ts) && |w.l| == |w.ds| && forall i | 0 <= i < |w.l| :: w.l[i] < |ts|
    ensures TimerTicked(w, ts, locked) ==
            if w.ds == [] then (w, [])
            else if w.ds[0] > 1 then (Waiting(w.l, w.ds[0 := w.ds[0] - 1]), [])
            else if locked then (Waiting(w.l, w.ds[0 := 0]), []) else FireAll(Waiting(w.l, w.ds[0 := 0]), ts)
  {
  }

  /** The first count less one takes one tick from every timer. */
  lemma OneLess(w: Waiting, ts: seq<Setting>, x: nat, r: nat)
    requires Short(w, ts) && Holds(w, x, r) && r > 0 && w.ds != [] && w.ds[0] > 0
    ensures var z := Waiting(w.l, w.ds[0 := w.ds[0] - 1]); Short(z, ts) && Holds(z, x, r - 1)
  {
    var i :| 0 <= i < |w.l| && w.l[i] == x && Due(w.ds, i) == r;
    var z := Waiting(w.l, w.ds[0 := w.ds[0] - 1]);
    hide Sum;
    forall j | 0 <= j < |z.ds| ensures Due(z.ds, j) < HALF {
      SumHead(w.ds, w.ds[0] - 1, j + 1);
      assert Due(w.ds, j) < HALF;
    }
    SumHead(w.ds, w.ds[0] - 1, i + 1);
    HoldsAt(z, x, i);
  }

  lemma NoneDueIs(w: Waiting)
    ensures NoneDue(w) <==> (w.ds != [] ==> w.ds[0] > 0)
  {
  }

  lemma NoTimes(x: nat)
    ensures Times([], x) == 0
  {
  }

  lemma FiredRightAt(w: Waiting, ts: seq<Setting>, y: nat, d: nat, e: Waiting, f: seq<nat>)
    requires FiredRight(w, ts, y, e, f) && Holds(w, y, d)
    ensures Short(e, ts) && NoneDue(e)
    ensures d > 0 ==> Holds(e, y, d) && Times(f, y) == 0
    ensures d == 0 ==> Times(f, y) == 1 && Rearmed(ts, y, e)
  {
  }

  ghost predicate TimerRun(w: Waiting, ts: seq<Setting>, ops: seq<TimerOp>, x: nat)
    decreases |ops|
  {
    ops == [] || (TimerAllowed(w, ts, ops[0], x) && TimerRun(TimerStep(w, ts, ops[0], x).0, ts, ops[1..], x))
  }

  /** For each tick of a run, how often it fires timer `x`. */
  ghost function Firings(w: Waiting, ts: seq<Setting>, ops: seq<TimerOp>, x: nat): seq<nat>
    requires TimerRun(w, ts, ops, x)
    decreases |ops|
  {
    if ops == [] then []
    else
      var e := TimerStep(w, ts, ops[0], x);
      (if ops[0].TimerTick? then [Times(e.1, x)] else []) + Firings(e.0, ts, ops[1..], x)
  }

  ghost predicate NotDeferred(ops: seq<TimerOp>) {
    forall i | 0 <= i < |ops| :: ops[i].TimerTick? ==> !ops[i].locked
  }

  /** Tick number `n` is one at which a timer with `r` ticks to go and reload `p` is due. */
  predicate DueTick(n: nat, r: nat, p: nat)
    requires 0 < p
  {
    n >= r && (n - r) % p == 0
  }

  lemma NextPeriod(n: nat, p: nat)
    requires 0 < n && 0 < p
    ensures n % p == 0 <==> n >= p && (n - p) % p == 0
  {
    if n >= p {
      assert n == p * (n / p) + n % p;
      PeriodBack(n, p, n / p);
    }
  }

  lemma PeriodBack(n: nat, p: nat, q: nat)
    requires 0 < p <= n && q == n / p
    ensures (n - p) % p == n % p
  {
    assert n == p * q + n % p;
    assert n - p == p * (q - 1) + n % p;
    Remainder(n - p, p, q - 1, n % p);
  }

  lemma Remainder(n: nat, p: nat, q: int, r: nat)
    requires r < p && n == p * q + r
    ensures n % p == r
  {
    var d := n / p - q;
    assert p * d == p * (n / p) - p * q;
    assert n == p * (n / p) + n % p;
    Multiples(p, d);
  }

  lemma Multiples(p: nat, d: int)
    ensures d >= 1 ==> p <= p * d
    ensures d <= -1 ==> p * d + p <= 0
  {
    if d >= 1 {
      assert p * d == p + p * (d - 1);
    }
    if d <= -1 {
      assert p * d == p * (d + 1) - p;
    }
  }

  /** A step of the run that is no tick leaves the timer its time. */
  lemma OtherStep(w: Waiting, ts: seq<Setting>, op: TimerOp, x: nat, r: nat)
    requires TimerAllowed(w, ts, op, x) && NoneDue(w) && Holds(w, x, r) && !op.TimerTick?
    ensures var e := TimerStep(w, ts, op, x).0; Short(e, ts) && NoneDue(e) && Holds(e, x, r)
  {
    match op
    case Start(t, n) =>
      InsertTimer(w, ts, t, n);
      ShortInReach(w, ts, n);
      StepKeepsNoneDue(w, Delay(t, n));
    case Halt(k) => HaltOther(w, ts, k, x, r);
    case Serve =>
  }

  lemma FiringsOf(w: Waiting, ts: seq<Setting>, ops: seq<TimerOp>, x: nat)
    requires TimerRun(w, ts, ops, x) && ops != []
    ensures TimerAllowed(w, ts, ops[0], x) && TimerRun(TimerStep(w, ts, ops[0], x).0, ts, ops[1..], x)
    ensures var e := TimerStep(w, ts, ops[0], x);
            Firings(w, ts, ops, x) == (if ops[0].TimerTick? then [Times(e.1, x)] else []) + Firings(e.0, ts, ops[1..], x)
  {
  }

  /** Over every run without a deferred tick, a periodic timer fires at exactly the ticks r, r + reload,
      r + 2 * reload and so on, once at each. */
  lemma {:induction false} PeriodicFiresOnTime(w: Waiting, ts: seq<Setting>, ops: seq<TimerOp>, x: nat, r: nat)
    requires TimerRun(w, ts, ops, x) && NotDeferred(ops) && Short(w, ts) && NoneDue(w) && Holds(w, x, r)
    requires x < |ts| && ts[x].periodic && 0 < ts[x].reload
    ensures var f := Firings(w, ts, ops, x);
            forall n | 0 <= n < |f| :: f[n] == if DueTick(n + 1, r, ts[x].reload) then 1 else 0
    decreases |ops|
  {
    hide *;
    if ops != [] {
      ShortSound(w, ts);
      NotDueYet(w, x, r);
      FiringsOf(w, ts, ops, x);
      RestNotDeferred(ops);
      var e := TimerStep(w, ts, ops[0], x);
      if ops[0].TimerTick? {
        TickStepIs(w, ts, ops[0], x);
        TickTimer(w, ts, x, r);
        RearmedPeriodic(ts, x, e.0);
        var s: nat := if r > 1 then r - 1 else ts[x].reload;
        PeriodicFiresOnTime(e.0, ts, ops[1..], x, s);
        ShiftFirings(Firings(w, ts, ops, x), Firings(e.0, ts, ops[1..], x), Times(e.1, x), r, s, ts[x].reload);
      } else {
        OtherStep(w, ts, ops[0], x, r);
        PeriodicFiresOnTime(e.0, ts, ops[1..], x, r);
      }
    } else {
      NoFirings(w, ts, x);
    }
  }

  lemma ShortSound(w: Waiting, ts: seq<Setting>)
    requires Short(w, ts)
    ensures Sound(w) && Sane(ts) && |w.l| == |w.ds| && forall i | 0 <= i < |w.l| :: w.l[i] < |ts|
  {
  }

  lemma NoFirings(w: Waiting, ts: seq<Setting>, x: nat)
    ensures TimerRun(w, ts, [], x) && Firings(w, ts, [], x) == []
  {
  }

  lemma RestNotDeferred(ops: seq<TimerOp>)
    requires NotDeferred(ops) && ops != []
    ensures NotDeferred(ops[1..]) && (ops[0].TimerTick? ==> !ops[0].locked)
  {
  }

  lemma TickStepIs(w: Waiting, ts: seq<Setting>, op: TimerOp, x: nat)
    requires TimerAllowed(w, ts, op, x) && op.TimerTick?
    ensures TimerStep(w, ts, op, x) == TimerTicked(w, ts, op.locked)
  {
  }

  lemma RearmedPeriodic(ts: seq<Setting>, x: nat, e: Waiting)
    requires x < |ts| && ts[x].periodic
    ensures Rearmed(ts, x, e) ==> Holds(e, x, ts[x].reload)
  {
  }

  /** The firing ticks seen one tick earlier. */
  lemma ShiftFirings(f: seq<nat>, g: seq<nat>, first: nat, r: nat, s: nat, p: nat)
    requires f == [first] + g && 0 < p && 0 < r && s == (if r > 1 then r - 1 else p)
    requires first == if r == 1 then 1 else 0
    requires forall n | 0 <= n < |g| :: g[n] == if DueTick(n + 1, s, p) then 1 else 0
    ensures forall n | 0 <= n < |f| :: f[n] == if DueTick(n + 1, r, p) then 1 else 0
  {
    forall n | 0 <= n < |f| ensures f[n] == if DueTick(n + 1, r, p) then 1 else 0 {
      if n > 0 {
        assert f[n] == g[n - 1];
        if r == 1 {
          NextPeriod(n, p);
        }
      } else {
        Remainder(0, p, 0, 0);
      }
    }
  }
}
