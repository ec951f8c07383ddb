/** Cluster chains in the FAT (ff.c, remove_chain and create_chain) over the table of entry
    values: what a walk along the table visits, and how chains grow, shrink and disappear. */
module FatChains {
  import opened Lists
  import opened FatLayout
  import opened FatWindow

  const UNKNOWN: dword := 0xFFFF_FFFF
  const END_MARK: nat := 0x0FFF_FFFF

  /** Clusters whose entry is not zero. */
  ghost function InUse(t: seq<nat>): set<nat> {
    set c: nat | c < |t| && t[c] != 0
  }

  ghost function Free(t: seq<nat>): set<nat> {
    set c: nat | 2 <= c < |t| && t[c] == 0
  }

  lemma ClearingShrinks(t: seq<nat>, c: nat)
    requires c < |t| && t[c] != 0
    ensures |InUse(t[c := 0])| < |InUse(t)|
  {
    assert InUse(t[c := 0]) == InUse(t) - {c};
    assert c in InUse(t);
  }

  /** The clusters visited, in order, when entries are followed from `c` and zeroed on the way.
      It is defined on every table, looping and cross-linked ones included. */
  ghost function Path(t: seq<nat>, c: nat): (p: seq<nat>)
    decreases |InUse(t)|
  {
    if c < |t| && t[c] >= 2 then
      ClearingShrinks(t, c);
      [c] + Path(t[c := 0], t[c])
    else []
  }

  /** The cluster number at which the walk stops. */
  ghost function Stop(t: seq<nat>, c: nat): nat
    decreases |InUse(t)|
  {
    if c < |t| && t[c] >= 2 then
      ClearingShrinks(t, c);
      Stop(t[c := 0], t[c])
    else c
  }

  /** `t` with the clusters of `p` marked empty. */
  ghost function Zeroed(t: seq<nat>, p: seq<nat>): (r: seq<nat>)
    ensures |r| == |t|
  {
    seq(|t|, c requires 0 <= c < |t| => if c in p then 0 else t[c])
  }

  /** Each cluster of `p` links to the next one. */
  ghost predicate Follows(t: seq<nat>, p: seq<nat>) {
    && (forall i | 0 <= i < |p| :: 2 <= p[i] < |t|)
    && forall i, j | 0 <= i < j < |p| && j == i + 1 :: t[p[i]] == p[j]
  }

  /** The walk follows the table's links from its start, visits no cluster twice, and stops only at
      an end mark, an empty or invalid entry, or a cluster it has already emptied. */
  lemma {:induction false} WalkFollowsTheTable(t: seq<nat>, c: nat)
    requires 2 <= c
    ensures Distinct(Path(t, c)) && Follows(t, Path(t, c))
    ensures forall x | x in Path(t, c) :: x < |t| && t[x] >= 2
    ensures Path(t, c) == [] ==> Stop(t, c) == c
    ensures Path(t, c) != [] ==> Path(t, c)[0] == c && Stop(t, c) == t[Path(t, c)[|Path(t, c)| - 1]]
    ensures 2 <= Stop(t, c)
    ensures Stop(t, c) < |t| ==> t[Stop(t, c)] < 2 || Stop(t, c) in Path(t, c)
    decreases |InUse(t)|
  {
    if c < |t| && t[c] >= 2 {
      ClearingShrinks(t, c);
      var r := t[c := 0];
      WalkFollowsTheTable(r, t[c]);
      var q := Path(r, t[c]);
      assert c !in q;
      assert Path(t, c) == [c] + q;
      PrependLink(t, c, q);
    }
  }

  lemma PrependLink(t: seq<nat>, c: nat, q: seq<nat>)
    requires 2 <= c < |t| && c !in q && Distinct(q) && Follows(t[c := 0], q)
    requires q != [] ==> q[0] == t[c]
    ensures Distinct([c] + q) && Follows(t, [c] + q)
  {
    var p := [c] + q;
    forall i, j | 0 <= i < j < |p| && j == i + 1 ensures t[p[i]] == p[j] {
      if i > 0 {
        assert p[i] == q[i - 1] && p[j] == q[j - 1];
      }
    }
    forall i, j | 0 <= i < j < |p| ensures p[i] != p[j] {
      assert p[j] == q[j - 1];
      if i > 0 { assert p[i] == q[i - 1]; }
    }
  }

  /** free_clust after `k` clusters were released; the count is not kept while unknown. */
  function Credited(free: dword, k: nat): dword {
    if free == UNKNOWN || free + k >= UNKNOWN then UNKNOWN else free + k
  }

  function Debited(free: dword): dword {
    if free == UNKNOWN || free == 0 then UNKNOWN else free - 1
  }

  lemma CreditedTwice(free: dword, k: nat)
    ensures Credited(Credited(free, k), 1) == Credited(free, k + 1)
    ensures Credited(free, 0) == free
  {
  }

  /** A known count goes up by the clusters released and down by one taken; 0xFFFFFFFF stands for an unknown
      one and stays. */
  lemma CountsKept(free: dword, k: nat)
    ensures free < 0xFFFF_FFFF && free + k < 0xFFFF_FFFF ==> Credited(free, k) == free + k
    ensures 0 < free < 0xFFFF_FFFF ==> Debited(free) == free - 1
    ensures free == 0xFFFF_FFFF ==> Credited(free, k) == 0xFFFF_FFFF && Debited(free) == 0xFFFF_FFFF
  {
  }

  /** One round of the walk. */
  lemma WalkStep(t: seq<nat>, done: seq<nat>, c: nat)
    requires c < |t| && Zeroed(t, done)[c] >= 2
    ensures var u := Zeroed(t, done);
            && Path(u, c) == [c] + Path(u[c := 0], u[c])
            && Stop(u, c) == Stop(u[c := 0], u[c])
            && u[c := 0] == Zeroed(t, done + [c])
            && |InUse(u[c := 0])| < |InUse(u)|
            && done + Path(u, c) == done + [c] + Path(u[c := 0], u[c])
  {
    ClearingShrinks(Zeroed(t, done), c);
  }

  lemma WalkEnds(t: seq<nat>, done: seq<nat>, clst: nat, c: nat)
    requires 2 <= clst && 2 <= c
    requires done + Path(Zeroed(t, done), c) == Path(t, clst) && Stop(Zeroed(t, done), c) == Stop(t, clst)
    requires c < |t| ==> Zeroed(t, done)[c] < 2
    ensures done == Path(t, clst) && c == Stop(t, clst)
    ensures c < |t| ==> (Zeroed(t, done)[c] == 1 <==> t[c] == 1)
  {
    WalkFollowsTheTable(t, clst);
  }

  /** Lines 728-738: read the link of a cluster and, if it leads on, release the cluster. */
  method Unlink(fs: Volume, c: nat) returns (nxt: nat)
    requires fs.Valid() && 2 <= c < fs.g.nFatent
    modifies fs`dev, fs`winsect, fs`wflag, fs`fsiFlag, fs`freeClust, fs.win
    ensures fs.Valid() && SameOutsideFat(fs.g, old(fs.Logical()), fs.Logical()) && fs.g.InFat(fs.winsect)
    ensures nxt == old(fs.Fat())[c]
    ensures fs.Fat() == if nxt < 2 then old(fs.Fat()) else old(fs.Fat())[c := 0]
    ensures fs.freeClust == Credited(old(fs.freeClust), if nxt < 2 then 0 else 1)
    ensures fs.fsiFlag == (old(fs.fsiFlag) || (old(fs.freeClust) != UNKNOWN && nxt >= 2))
  {
    hide Volume.Valid, Volume.Logical, Volume.Fat;
    nxt := fs.GetFat(c);
    if nxt >= 2 {
      var ok := fs.PutFat(c, 0);
      if fs.freeClust != UNKNOWN {
        fs.freeClust := fs.freeClust + 1;
        fs.fsiFlag := true;
      }
    }
  }

  /** Lines 711-754.  Terminates on every FAT: each round empties an entry that was not empty. */
  method RemoveChain(fs: Volume, clst: nat) returns (ok: bool)
    requires fs.Valid()
    modifies fs`dev, fs`winsect, fs`wflag, fs`fsiFlag, fs`freeClust, fs.win
    ensures fs.Valid() && SameOutsideFat(fs.g, old(fs.Logical()), fs.Logical())
    ensures var t := old(fs.Fat());
            if 2 <= clst < fs.g.nFatent then
              fs.Fat() == Zeroed(t, Path(t, clst))
              && (ok <==> Stop(t, clst) >= |t| || t[Stop(t, clst)] != 1)
              && fs.freeClust == Credited(old(fs.freeClust), |Path(t, clst)|)
              && fs.fsiFlag == (old(fs.fsiFlag) || (old(fs.freeClust) != UNKNOWN && Path(t, clst) != []))
            else
              !ok && fs.Fat() == t && fs.freeClust == old(fs.freeClust) && fs.fsiFlag == old(fs.fsiFlag)
    ensures !(2 <= clst < fs.g.nFatent) ==> fs.winsect == old(fs.winsect) && fs.Logical() == old(fs.Logical())
    ensures 2 <= clst < fs.g.nFatent ==> fs.g.InFat(fs.winsect)
  {
    if clst < 2 || clst >= fs.g.nFatent {
      return false;
    }
    ghost var t, d := fs.Fat(), fs.Logical();
    ghost var done: seq<nat> := [];
    assert Zeroed(t, []) == t;
    hide *;
    CreditedTwice(fs.freeClust, 0);
    var c := clst;
    ok := true;
    while c < fs.g.nFatent
      invariant fs.Valid() && ok && 2 <= c && SameOutsideFat(fs.g, d, fs.Logical())
      invariant fs.Fat() == Zeroed(t, done)
      invariant done + Path(Zeroed(t, done), c) == Path(t, clst) && Stop(Zeroed(t, done), c) == Stop(t, clst)
      invariant fs.freeClust == Credited(old(fs.freeClust), |done|)
      invariant fs.fsiFlag == (old(fs.fsiFlag) || (old(fs.freeClust) != UNKNOWN && done != []))
      invariant done != [] || c == clst
      invariant done != [] ==> fs.g.InFat(fs.winsect)
      decreases |InUse(fs.Fat())|
    {
      ghost var e := fs.Logical();
      CreditedTwice(old(fs.freeClust), |done|);
      CreditedTwice(fs.freeClust, 0);
      var nxt := Unlink(fs, c);
      OutsideTwice(fs.g, d, e, fs.Logical());
      if nxt < 2 {
        ok := nxt == 0;
        break;
      }
      WalkStep(t, done, c);
      done := done + [c];
      c := nxt;
    }
    WalkEnds(t, done, clst, c);
  }

  function EndMark(kind: FatType): nat {
    END_MARK % EntryLimit(kind)
  }

  /** The end marks of the sub-types have all bits of an entry set. */
  lemma EndMarks()
    ensures EndMark(FAT12) == 0xFFF && EndMark(FAT16) == 0xFFFF && EndMark(FAT32) == 0x0FFF_FFFF
  {
  }

  /** The `k`-th cluster looked at by a scan that starts after `scl` and wraps around. */
  function Nth(n: nat, scl: nat, k: nat): (c: nat)
    requires 1 <= scl < n && k < n - 2
    ensures 2 <= c < n
  {
    if scl + 1 + k < n then scl + 1 + k else scl + 3 + k - n
  }

  /** The scan from its `k`-th cluster on: the first empty cluster, 0 when there is none, 1 when an
      invalid entry comes first. */
  ghost function Scan(t: seq<nat>, scl: nat, k: nat): nat
    requires 1 <= scl < |t| && k + 2 <= |t|
    decreases |t| - k
  {
    if k == |t| - 2 then 0
    else if t[Nth(|t|, scl, k)] == 0 then Nth(|t|, scl, k)
    else if t[Nth(|t|, scl, k)] == 1 then 1
    else Scan(t, scl, k + 1)
  }

  /** The scan reports a full volume exactly when every entry of [2, n) is in use; a cluster it
      returns is empty and the first such after the start. */
  lemma {:induction false} ScanFindsTheFirstFree(t: seq<nat>, scl: nat, k: nat)
    requires 1 <= scl < |t| && k + 2 <= |t|
    ensures Scan(t, scl, k) == 0 <==> forall j | k <= j < |t| - 2 :: t[Nth(|t|, scl, j)] >= 2
    ensures Scan(t, scl, k) < |t|
    ensures Scan(t, scl, k) >= 2 ==>
              t[Scan(t, scl, k)] == 0
              && exists f | k <= f < |t| - 2 :: Nth(|t|, scl, f) == Scan(t, scl, k)
                   && forall j | k <= j < f :: t[Nth(|t|, scl, j)] >= 2
    decreases |t| - k
  {
    if k < |t| - 2 && t[Nth(|t|, scl, k)] >= 2 {
      ScanFindsTheFirstFree(t, scl, k + 1);
      if Scan(t, scl, k) >= 2 {
        var f :| k + 1 <= f < |t| - 2 && Nth(|t|, scl, f) == Scan(t, scl, k)
                 && forall j | k + 1 <= j < f :: t[Nth(|t|, scl, j)] >= 2;
        assert forall j | k <= j < f :: t[Nth(|t|, scl, j)] >= 2;
      }
    }
  }

  /** The scan order visits every cluster. */
  lemma NthCovers(n: nat, scl: nat, c: nat)
    requires 1 <= scl < n && 2 <= c < n
    ensures var k := if c > scl then c - scl - 1 else n - 3 + c - scl; k < n - 2 && Nth(n, scl, k) == c
  {
  }

  /** Allocation fails exactly when no cluster is free (in a FAT without invalid entries). */
  lemma ScanFailsIffFull(t: seq<nat>, scl: nat)
    requires 1 <= scl < |t|
    requires forall c | 2 <= c < |t| :: t[c] != 1
    ensures Scan(t, scl, 0) == 0 <==> forall c | 2 <= c < |t| :: t[c] != 0
    ensures Scan(t, scl, 0) != 1
  {
    ScanFindsTheFirstFree(t, scl, 0);
    ScanAvoidsOne(t, scl, 0);
    if Scan(t, scl, 0) == 0 {
      forall c | 2 <= c < |t| ensures t[c] != 0 {
        NthCovers(|t|, scl, c);
      }
    }
  }

  lemma {:induction false} ScanAvoidsOne(t: seq<nat>, scl: nat, k: nat)
    requires 1 <= scl < |t| && k + 2 <= |t|
    requires forall c | 2 <= c < |t| :: t[c] != 1
    ensures Scan(t, scl, k) != 1
    decreases |t| - k
  {
    if k < |t| - 2 && t[Nth(|t|, scl, k)] >= 2 {
      ScanAvoidsOne(t, scl, k + 1);
    }
  }

  /** Where the scan starts: after the cluster to stretch, or after the last one allocated. */
  function ScanStart(n: nat, clst: nat, last: nat): (scl: nat)
    requires clst < n && 2 <= n
    ensures 1 <= scl < n
  {
    if clst != 0 then clst else if last == 0 || last >= n then 1 else last
  }

  /** What get_fat reports of a cluster number. */
  ghost function Status(t: seq<nat>, c: nat): nat {
    if 2 <= c < |t| then t[c] else 1
  }

  /** A request to stretch is served by a scan only at the end of a chain. */
  ghost predicate NeedsCluster(t: seq<nat>, clst: nat) {
    clst == 0 || Status(t, clst) >= |t| > clst
  }

  ghost function CreateResult(t: seq<nat>, clst: nat, last: nat): nat
    requires 3 <= |t|
  {
    if NeedsCluster(t, clst) then Scan(t, ScanStart(|t|, clst, last), 0)
    else if Status(t, clst) < 2 then 1
    else Status(t, clst)
  }

  /** The table once cluster `ncl` is marked last and, unless it starts a chain, linked to `clst`. */
  ghost function Grown(kind: FatType, t: seq<nat>, clst: nat, ncl: nat): (r: seq<nat>)
    requires clst < |t| && ncl < |t|
    ensures |r| == |t|
  {
    var u := t[ncl := EndMark(kind)];
    if clst == 0 then u else u[clst := ncl]
  }

  /** No cluster passed on the way from `a` up to `c`, going on at 2 behind the last one, is free. */
  ghost predicate NoneBetween(t: seq<nat>, a: nat, c: nat) {
    && (a < c ==> forall x | a < x < c && 2 <= x < |t| :: t[x] >= 2)
    && (c <= a ==> forall x | (a < x < |t| || 2 <= x < c) && 2 <= x < |t| :: t[x] >= 2)
  }

  /** A new cluster is the next free one: behind the tail to stretch, or behind the cluster taken last, or
      the first of the volume when none was; going on at cluster 2 behind the end. */
  lemma CreatedIsNext(t: seq<nat>, clst: nat, last: nat)
    requires 3 <= |t| && NeedsCluster(t, clst) && CreateResult(t, clst, last) >= 2
    ensures var c := CreateResult(t, clst, last);
            && 2 <= c < |t| && t[c] == 0
            && NoneBetween(t, if clst != 0 then clst else if last == 0 || last >= |t| then 1 else last, c)
  {
    var scl, c := ScanStart(|t|, clst, last), CreateResult(t, clst, last);
    ScanFindsTheFirstFree(t, scl, 0);
    var f :| 0 <= f < |t| - 2 && Nth(|t|, scl, f) == c && forall j | 0 <= j < f :: t[Nth(|t|, scl, j)] >= 2;
    forall x | 2 <= x < |t| && (if scl < c then scl < x < c else scl < x || x < c) ensures t[x] >= 2 {
      NthCovers(|t|, scl, x);
      var k := if x > scl then x - scl - 1 else |t| - 3 + x - scl;
      assert k < f;
    }
  }

  /** Elsewhere the answer is the entry itself, and 1 where a chain has no business. */
  lemma FollowedOn(t: seq<nat>, clst: nat, last: nat)
    requires 3 <= |t|
    ensures NeedsCluster(t, clst) <==> clst == 0 || (2 <= clst < |t| && t[clst] >= |t|)
    ensures 2 <= clst < |t| && 2 <= t[clst] < |t| ==> CreateResult(t, clst, last) == t[clst]
    ensures clst == 1 || clst >= |t| || (2 <= clst && t[clst] < 2) ==> CreateResult(t, clst, last) == 1
  {
  }

  lemma CreateResultBound(t: seq<nat>, clst: nat, last: nat)
    requires 3 <= |t|
    ensures NeedsCluster(t, clst) ==> clst < |t| && CreateResult(t, clst, last) < |t|
  {
    if NeedsCluster(t, clst) {
      ScanFindsTheFirstFree(t, ScanStart(|t|, clst, last), 0);
    }
  }

  lemma NextInScan(n: nat, scl: nat, k: nat)
    requires 1 <= scl < n && 3 <= n && (k < n - 2 || (k == n - 2 && scl == 1))
    ensures var c := if k == 0 then scl else Nth(n, scl, k - 1);
            if c + 1 >= n && scl < 2 then k == n - 2
            else k < n - 2 && (if c + 1 >= n then 2 else c + 1) == Nth(n, scl, k)
                 && (Nth(n, scl, k) == scl <==> k + 1 == n - 2 && scl != 1)
  {
  }

  lemma ScanRound(t: seq<nat>, scl: nat, k: nat)
    requires 1 <= scl < |t| && k + 2 <= |t|
    ensures Scan(t, scl, k) ==
            if k == |t| - 2 then 0
            else if t[Nth(|t|, scl, k)] >= 2 then Scan(t, scl, k + 1)
            else if t[Nth(|t|, scl, k)] == 0 then Nth(|t|, scl, k) else 1
  {
  }

  /** Lines 785-797: the scan. */
  method FindFree(fs: Volume, scl: nat) returns (ncl: nat)
    requires fs.Valid() && 1 <= scl < fs.g.nFatent && 3 <= fs.g.nFatent
    modifies fs`dev, fs`winsect, fs`wflag, fs.win
    ensures fs.Valid() && fs.Logical() == old(fs.Logical()) && fs.Fat() == old(fs.Fat())
    ensures ncl == Scan(fs.Fat(), scl, 0) && fs.g.InFat(fs.winsect)
  {
    hide *;
    ghost var t := fs.Fat();
    ghost var n := |t|;
    ghost var k := 0;
    ncl := scl;
    while true
      invariant fs.Valid() && fs.Logical() == old(fs.Logical()) && fs.Fat() == t
      invariant k < n - 2 || (k == n - 2 && scl == 1)
      invariant ncl == if k == 0 then scl else Nth(n, scl, k - 1)
      invariant Scan(t, scl, 0) == Scan(t, scl, k)
      invariant k > 0 ==> fs.g.InFat(fs.winsect)
      decreases n - 2 - k
    {
      NextInScan(n, scl, k);
      ScanRound(t, scl, k);
      ncl := ncl + 1;
      if ncl >= fs.g.nFatent {
        ncl := 2;
        if ncl > scl {
          return 0;
        }
      }
      var cs := fs.GetFat(ncl);
      if cs == 0 {
        break;
      }
      if cs == 1 {
        return 1;
      }
      if ncl == scl {
        ScanRound(t, scl, k + 1);
        return 0;
      }
      k := k + 1;
    }
  }

  /** Lines 799-802: mark the cluster last and link it to the previous one. */
  method LinkCluster(fs: Volume, clst: nat, ncl: nat)
    requires fs.Valid() && clst < fs.g.nFatent && 2 <= ncl < fs.g.nFatent && clst != 1
    modifies fs`dev, fs`winsect, fs`wflag, fs.win
    ensures fs.Valid() && SameOutsideFat(fs.g, old(fs.Logical()), fs.Logical()) && fs.g.InFat(fs.winsect)
    ensures fs.Fat() == Grown(fs.g.kind, old(fs.Fat()), clst, ncl)
  {
    ghost var d0 := fs.Logical();
    LinkFits(fs.g, ncl);
    hide Volume.Valid, Volume.Logical, Volume.Fat, SameOutsideFat, EntryLimit, Geometry.InFat;
    var ok := fs.PutFat(ncl, END_MARK);
    ghost var d1 := fs.Logical();
    if clst != 0 {
      ok := fs.PutFat(clst, ncl);
      OutsideTwice(fs.g, d0, d1, fs.Logical());
    }
  }

  lemma LinkFits(g: Geometry, ncl: nat)
    requires g.Valid() && ncl < g.nFatent
    ensures ncl % EntryLimit(g.kind) == ncl
  {
  }

  /** Lines 765-814. */
  method CreateChain(fs: Volume, clst: nat) returns (r: nat)
    requires fs.Valid()
    modifies fs`dev, fs`winsect, fs`wflag, fs`fsiFlag, fs`freeClust, fs`lastClust, fs.win
    ensures fs.Valid() && SameOutsideFat(fs.g, old(fs.Logical()), fs.Logical())
    ensures r == CreateResult(old(fs.Fat()), clst, old(fs.lastClust))
    ensures var t := old(fs.Fat());
            if NeedsCluster(t, clst) && r >= 2 then
              && r < |t| && clst < |t|
              && fs.Fat() == Grown(fs.g.kind, t, clst, r) && fs.lastClust == r
              && fs.freeClust == Debited(old(fs.freeClust))
              && fs.fsiFlag == (old(fs.fsiFlag) || old(fs.freeClust) != UNKNOWN)
              && fs.g.InFat(fs.winsect)
            else
              && fs.Fat() == t && fs.Logical() == old(fs.Logical()) && fs.lastClust == old(fs.lastClust)
              && fs.freeClust == old(fs.freeClust) && fs.fsiFlag == old(fs.fsiFlag)
    ensures fs.winsect == old(fs.winsect) || fs.g.InFat(fs.winsect)
  {
    ghost var t, d0 := fs.Fat(), fs.Logical();
    CreateResultBound(t, clst, fs.lastClust);
    hide Volume.Valid, Volume.Logical, Volume.Fat, SameOutsideFat, Geometry.InFat, Grown, Scan;
    var scl: nat;
    if clst == 0 {
      scl := fs.lastClust;
      if scl == 0 || scl >= fs.g.nFatent {
        scl := 1;
      }
    } else {
      var cs := fs.GetFat(clst);
      if cs < 2 {
        return 1;
      }
      if cs < fs.g.nFatent {
        return cs;
      }
      scl := clst;
    }
    r := FindFree(fs, scl);
    if r < 2 {
      return;
    }
    LinkCluster(fs, clst, r);
    fs.lastClust := r;
    if fs.freeClust != UNKNOWN {
      fs.freeClust := if fs.freeClust == 0 then UNKNOWN else fs.freeClust - 1;
      fs.fsiFlag := true;
    }
  }
}
