/** Delta-encoded lists of waiting times (time.c, InsertDelayList and RemoveDelayList; timer.c,
    InsertTmrList and RemoveTmrList): each entry holds the ticks it waits beyond the one before it. */
module DeltaList {
  const U32: int := 0x1_0000_0000
  const HALF: int := 0x8000_0000

  type Tick = t: nat | t < U32

  /** The delay count of a task that is not in the delay list. */
  const INVALID_VALUE: Tick := 0xFFFF_FFFF

  /** The value of a 32-bit difference read as a signed number. */
  function Signed(x: int): (s: int)
    ensures -HALF <= s < HALF
  {
    var m := x % U32; if m >= HALF then m - U32 else m
  }

  /** The waiting time of the entry behind the first `k` ones, less its own count. */
  ghost function Sum(ds: seq<Tick>, k: nat): nat
    requires k <= |ds|
  {
    if k == 0 then 0 else Sum(ds, k - 1) + ds[k - 1]
  }

  /** The ticks until entry `i` is due. */
  ghost function Due(ds: seq<Tick>, i: nat): nat
    requires i < |ds|
  {
    Sum(ds, i + 1)
  }

  lemma {:induction false} SumMono(ds: seq<Tick>, i: nat, k: nat)
    requires i <= k <= |ds|
    ensures Sum(ds, i) <= Sum(ds, k)
    decreases k - i
  {
    if i < k {
      SumMono(ds, i, k - 1);
    }
  }

  lemma {:induction false} SumPrefix(ds: seq<Tick>, es: seq<Tick>, k: nat)
    requires k <= |ds| && k <= |es| && forall i | 0 <= i < k :: ds[i] == es[i]
    ensures Sum(ds, k) == Sum(es, k)
  {
    if k > 0 {
      SumPrefix(ds, es, k - 1);
    }
  }

  /** The entry the search stops at, from entry `k` on: the first for which the signed difference is
      negative. */
  ghost function Stop(ds: seq<Tick>, ticks: Tick, k: nat): (r: nat)
    requires k <= |ds|
    ensures k <= r <= |ds|
    decreases |ds| - k
  {
    if k == |ds| || Signed(ticks - Due(ds, k)) < 0 then k else Stop(ds, ticks, k + 1)
  }

  /** The count the new entry gets. */
  ghost function NewCount(ds: seq<Tick>, ticks: Tick): Tick {
    var k := Stop(ds, ticks, 0);
    if ds == [] then ticks
    else if k == |ds| then Signed(ticks - Sum(ds, k)) % U32
    else (ds[k] + Signed(ticks - Due(ds, k))) % U32
  }

  function InsertDeltas(ds: seq<Tick>, k: nat, v: Tick): seq<Tick>
    requires k <= |ds|
  {
    if k == |ds| then ds + [v] else ds[..k] + [v, (ds[k] - v) % U32] + ds[k + 1..]
  }

  function RemoveDeltas(ds: seq<Tick>, k: nat): seq<Tick>
    requires k < |ds|
  {
    if k + 1 == |ds| then ds[..k] else ds[..k] + [(ds[k + 1] + ds[k]) % U32] + ds[k + 2..]
  }

  /** When the signed search reads every difference right: the new time lies less than 2^31 ticks
      behind the first entry, and the entry it goes before lies at most 2^31 ticks behind it. */
  ghost predicate InReach(ds: seq<Tick>, ticks: Tick) {
    ds != [] ==>
      && ticks < ds[0] + HALF
      && forall j | 0 <= j < |ds| && Sum(ds, j) <= ticks < Due(ds, j) :: Due(ds, j) - ticks <= HALF
  }

  /** The insertion gives the new entry exactly `ticks` and every other entry the time it had. */
  ghost predicate Exact(ds: seq<Tick>, ticks: Tick) {
    var k, v := Stop(ds, ticks, 0), NewCount(ds, ticks);
    var es := InsertDeltas(ds, k, v);
    && Due(es, k) == ticks
    && forall i | 0 <= i < |ds| :: Due(es, if i < k then i else i + 1) == Due(ds, i)
  }

  lemma SignedSmall(x: int)
    requires -HALF <= x < HALF
    ensures Signed(x) == x
  {
  }

  /** The search in reach: everything before the stop is due by `ticks`, the stop later. */
  lemma {:induction false} StopInReach(ds: seq<Tick>, ticks: Tick, k: nat)
    requires InReach(ds, ticks) && k <= |ds| && (k > 0 ==> Sum(ds, k) <= ticks)
    ensures var r := Stop(ds, ticks, k);
            && (forall i | k <= i < r :: Due(ds, i) <= ticks)
            && Sum(ds, r) <= ticks
            && (r < |ds| ==> 0 < Due(ds, r) - ticks <= HALF)
            && (ds != [] && r == |ds| ==> ticks - Sum(ds, r) < HALF)
    decreases |ds| - k
  {
    hide *;
    StopStep(ds, ticks, k);
    FirstSums(ds, k);
    ReachAt(ds, ticks, k);
    if k < |ds| {
      SignedSmall(ticks - Due(ds, k));
      if ticks >= Due(ds, k) {
        StopInReach(ds, ticks, k + 1);
      }
    }
  }

  lemma StopStep(ds: seq<Tick>, ticks: Tick, k: nat)
    requires k <= |ds|
    ensures Stop(ds, ticks, k) == if k == |ds| || Signed(ticks - Due(ds, k)) < 0 then k else Stop(ds, ticks, k + 1)
  {
  }

  lemma FirstSums(ds: seq<Tick>, k: nat)
    requires k <= |ds|
    ensures Sum(ds, 0) == 0 && (k > 0 ==> ds[0] <= Sum(ds, k))
    ensures k < |ds| ==> ds[0] <= Due(ds, k) == Sum(ds, k + 1)
    ensures HALF == 0x8000_0000
  {
    if ds != [] {
      assert Sum(ds, 1) == Sum(ds, 0) + ds[0];
      SumMono(ds, 1, if k > 0 then k else 1);
      if k < |ds| {
        SumMono(ds, 1, k + 1);
      }
    }
  }

  lemma ReachAt(ds: seq<Tick>, ticks: Tick, k: nat)
    requires InReach(ds, ticks)
    ensures ds != [] ==> ticks < ds[0] + HALF
    ensures k < |ds| && Sum(ds, k) <= ticks < Due(ds, k) ==> Due(ds, k) - ticks <= HALF
  {
  }

  /** The sums after an insertion that does not wrap. */
  lemma InsertKeepsSums(ds: seq<Tick>, k: nat, v: Tick, i: nat)
    requires k <= |ds| && i <= |ds| && (k < |ds| ==> v <= ds[k])
    ensures |InsertDeltas(ds, k, v)| == |ds| + 1
    ensures i <= k ==> Sum(InsertDeltas(ds, k, v), i) == Sum(ds, i)
    ensures Sum(InsertDeltas(ds, k, v), k + 1) == Sum(ds, k) + v
    ensures k < i ==> Sum(InsertDeltas(ds, k, v), i + 1) == Sum(ds, i)
    decreases i
  {
    var es := InsertDeltas(ds, k, v);
    SumPrefix(es, ds, k);
    if i <= k {
      SumPrefix(es, ds, i);
    } else {
      InsertKeepsSums(ds, k, v, i - 1);
      if i == k + 1 {
        assert es[k + 1] == ds[k] - v;
      } else {
        assert es[i] == ds[i - 1];
      }
    }
  }

  lemma InReachIsExact(ds: seq<Tick>, ticks: Tick)
    requires InReach(ds, ticks)
    ensures Exact(ds, ticks)
  {
    var k, v := Stop(ds, ticks, 0), NewCount(ds, ticks);
    CountInReach(ds, ticks);
    hide InReach, Stop, NewCount, InsertDeltas, Sum;
    InsertKeepsSums(ds, k, v, 0);
    forall i | 0 <= i < |ds| ensures Due(InsertDeltas(ds, k, v), if i < k then i else i + 1) == Due(ds, i) {
      InsertKeepsSums(ds, k, v, i + 1);
    }
  }

  /** In reach the new count is what the entries before leave of the ticks. */
  lemma CountInReach(ds: seq<Tick>, ticks: Tick)
    requires InReach(ds, ticks)
    ensures var k, v := Stop(ds, ticks, 0), NewCount(ds, ticks);
            k <= |ds| && Sum(ds, k) + v == ticks && (k < |ds| ==> v <= ds[k])
  {
    StopInReach(ds, ticks, 0);
    var k := Stop(ds, ticks, 0);
    hide InReach, Stop;
    if k < |ds| {
      SignedSmall(ticks - Due(ds, k));
      assert Due(ds, k) == Sum(ds, k) + ds[k];
    } else if ds != [] {
      SignedSmall(ticks - Sum(ds, k));
    } else {
      assert Sum(ds, 0) == 0;
    }
  }

  /** The search does not stop at entries that are due by `ticks` and read right, nor at one that is
      later by more than 2^31. */
  lemma {:induction false} StopBeyond(ds: seq<Tick>, ticks: Tick, k: nat, j: nat)
    requires k <= j < |ds| && ticks < ds[0] + HALF
    requires Sum(ds, j) <= ticks < Due(ds, j) && Due(ds, j) - ticks > HALF
    ensures Stop(ds, ticks, k) > j
    decreases j - k
  {
    SumMono(ds, 1, k + 1);
    assert Sum(ds, 1) == Sum(ds, 0) + ds[0];
    if k < j {
      SumMono(ds, k + 1, j);
      SignedSmall(ticks - Due(ds, k));
      StopBeyond(ds, ticks, k + 1, j);
    } else {
      SignedLate(ticks - Due(ds, j));
    }
  }

  lemma SignedLate(x: int)
    requires -U32 < x < -HALF
    ensures Signed(x) == x + U32 >= 0
  {
  }

  lemma SignedFar(x: int)
    requires HALF <= x < U32
    ensures Signed(x) == x - U32 < 0
  {
  }

  /** An insertion is exact precisely when the new time is in reach. */
  lemma ExactIffInReach(ds: seq<Tick>, ticks: Tick)
    ensures Exact(ds, ticks) <==> InReach(ds, ticks)
  {
    if InReach(ds, ticks) {
      InReachIsExact(ds, ticks);
    } else if ticks >= ds[0] + HALF {
      FarInsert(ds, ticks);
    } else {
      var j :| 0 <= j < |ds| && Sum(ds, j) <= ticks < Due(ds, j) && Due(ds, j) - ticks > HALF;
      LateInsert(ds, ticks, j);
    }
  }

  lemma FarInsert(ds: seq<Tick>, ticks: Tick)
    requires ds != [] && ticks >= ds[0] + HALF
    ensures !Exact(ds, ticks)
  {
    assert Sum(ds, 1) == Sum(ds, 0) + ds[0];
    SignedFar(ticks - Due(ds, 0));
    var es := InsertDeltas(ds, 0, NewCount(ds, ticks));
    assert NewCount(ds, ticks) == ticks;
    assert es[0] == ticks && es[1] == ds[0] - ticks + U32;
    assert Sum(es, 1) == Sum(es, 0) + es[0] && Sum(es, 2) == Sum(es, 1) + es[1];
    assert Due(es, 1) != Due(ds, 0);
  }

  lemma LateInsert(ds: seq<Tick>, ticks: Tick, j: nat)
    requires j < |ds| && ticks < ds[0] + HALF && Sum(ds, j) <= ticks < Due(ds, j) && Due(ds, j) - ticks > HALF
    ensures !Exact(ds, ticks)
  {
    hide *;
    StopBeyond(ds, ticks, 0, j);
    var k, v := Stop(ds, ticks, 0), NewCount(ds, ticks);
    var es := InsertDeltas(ds, k, v);
    InsertedFront(ds, k, v);
    SumPrefix(es, ds, k);
    SumMono(ds, j + 1, k);
    DueIs(es, k);
    DueIs(ds, j);
    if Exact(ds, ticks) {
      ExactGives(ds, ticks);
    }
  }

  lemma InsertedFront(ds: seq<Tick>, k: nat, v: Tick)
    requires k <= |ds|
    ensures |InsertDeltas(ds, k, v)| == |ds| + 1 && forall i | 0 <= i < k :: InsertDeltas(ds, k, v)[i] == ds[i]
  {
  }

  lemma DueIs(ds: seq<Tick>, i: nat)
    requires i < |ds|
    ensures Due(ds, i) == Sum(ds, i + 1) == Sum(ds, i) + ds[i]
  {
  }

  /** What an exact insertion says about the new entry and those in the list. */
  lemma ExactGives(ds: seq<Tick>, ticks: Tick)
    requires Exact(ds, ticks)
    ensures var k := Stop(ds, ticks, 0);
            var es := InsertDeltas(ds, k, NewCount(ds, ticks));
            && k < |es| && |es| == |ds| + 1 && Due(es, k) == ticks
            && forall i | 0 <= i < |ds| :: Due(es, if i < k then i else i + 1) == Due(ds, i)
  {
  }

  /** Times below 2^31, the new one included, are always in reach. */
  lemma SmallTimesInReach(ds: seq<Tick>, ticks: Tick)
    requires ticks < HALF && forall i | 0 <= i < |ds| :: Due(ds, i) < HALF
    ensures InReach(ds, ticks)
  {
    if ds != [] {
      assert ds[0] >= 0;
    }
  }

  lemma SumRemove(ds: seq<Tick>, k: nat, i: nat)
    requires k < |ds| && i < |ds| && (k + 1 < |ds| ==> ds[k] + ds[k + 1] < U32)
    ensures |RemoveDeltas(ds, k)| == |ds| - 1
    ensures i <= k ==> Sum(RemoveDeltas(ds, k), i) == Sum(ds, i)
    ensures k < i ==> Sum(RemoveDeltas(ds, k), i) == Sum(ds, i + 1)
    decreases i
  {
    var es := RemoveDeltas(ds, k);
    if i <= k {
      SumPrefix(es, ds, i);
    } else {
      SumRemove(ds, k, i - 1);
      if i == k + 1 {
        assert Sum(ds, k + 2) == Sum(ds, k + 1) + ds[k + 1] && Sum(ds, k + 1) == Sum(ds, k) + ds[k];
      }
    }
  }

  /** Removal leaves every other entry its time, unless two counts together reach 2^32. */
  lemma RemoveIsExact(ds: seq<Tick>, k: nat, i: nat)
    requires k < |ds| && i < |ds| && i != k && (k + 1 < |ds| ==> ds[k] + ds[k + 1] < U32)
    ensures |RemoveDeltas(ds, k)| == |ds| - 1
    ensures Due(RemoveDeltas(ds, k), if i < k then i else i - 1) == Due(ds, i)
  {
    SumRemove(ds, k, if i < k then i + 1 else i);
  }

  /** Due times are in order, and those below 2^32 keep counts from wrapping. */
  lemma DueOrder(ds: seq<Tick>, i: nat, j: nat)
    requires i <= j < |ds|
    ensures Due(ds, i) <= Due(ds, j) && ds[j] <= Due(ds, j)
    ensures i < j ==> ds[i] + ds[j] <= Due(ds, j)
  {
    SumMono(ds, i + 1, j + 1);
    if i < j {
      SumMono(ds, i + 1, j);
    }
  }
}
