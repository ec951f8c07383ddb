/** A FAT made of disjoint, acyclic, end-marked chains stays so over every run of create_chain,
    remove_chain on a chain's head and f_truncate's cut, and free_clust keeps counting (ff.c). */
module ChainRuns {
  import opened Lists
  import opened FatLayout
  import opened FatChains

  /** The clusters of a file in order: linked one to the next, the last one end-marked. */
  ghost predicate IsChain(t: seq<nat>, p: seq<nat>) {
    p != [] && Follows(t, p) && Distinct(p) && t[p[|p| - 1]] >= |t|
  }

  ghost predicate Apart(p: seq<nat>, q: seq<nat>) {
    forall c | c in p :: c !in q
  }

  ghost predicate AllChains(t: seq<nat>, cs: set<seq<nat>>) {
    forall p | p in cs :: IsChain(t, p)
  }

  ghost predicate Disjoint(cs: set<seq<nat>>) {
    forall p, q | p in cs && q in cs && p != q :: Apart(p, q)
  }

  ghost predicate Covered(t: seq<nat>, cs: set<seq<nat>>) {
    forall c | 2 <= c < |t| && t[c] != 0 :: exists p | p in cs :: c in p
  }

  /** `cs` are chains without a common cluster, and every entry in use belongs to one of them. */
  ghost predicate MadeOf(t: seq<nat>, cs: set<seq<nat>>) {
    3 <= |t| && AllChains(t, cs) && Disjoint(cs) && Covered(t, cs)
  }

  ghost function Elements(p: seq<nat>): set<nat> {
    set c | c in p
  }

  /** The walk of remove_chain from the middle of a chain is the rest of that chain. */
  lemma {:induction false} WalkAlongChain(t: seq<nat>, p: seq<nat>)
    requires IsChain(t, p)
    ensures Path(t, p[0]) == p && Stop(t, p[0]) >= |t|
    decreases |p|
  {
    var u := t[p[0] := 0];
    assert InUse(u) == InUse(t) - {p[0]};
    if |p| == 1 {
      assert Path(u, t[p[0]]) == [];
    } else {
      var q := p[1..];
      assert t[p[0]] == p[1];
      assert IsChain(u, q) by {
        forall i, j | 0 <= i < j < |q| && j == i + 1 ensures u[q[i]] == q[j] {
          assert t[p[i + 1]] == p[j + 1];
        }
      }
      WalkAlongChain(u, q);
      assert p == [p[0]] + q;
    }
  }

  lemma InChain(t: seq<nat>, p: seq<nat>, c: nat)
    requires IsChain(t, p) && c in p
    ensures 2 <= c < |t| && t[c] >= 2
  {
    var i :| 0 <= i < |p| && p[i] == c;
    if i + 1 < |p| {
      assert t[p[i]] == p[i + 1];
    }
  }

  lemma ChainsDiffer(t: seq<nat>, cs: set<seq<nat>>, p: seq<nat>, c: nat)
    requires AllChains(t, cs) && Disjoint(cs) && p in cs && c in p
    ensures forall q | q in cs && q != p :: c !in q
    ensures 2 <= c < |t| && t[c] >= 2
  {
    hide IsChain;
    InChain(t, p, c);
    forall q | q in cs && q != p ensures c !in q {
      assert Apart(p, q);
    }
  }

  lemma NoInvalidEntry(t: seq<nat>, cs: set<seq<nat>>)
    requires MadeOf(t, cs)
    ensures forall c | 2 <= c < |t| :: t[c] != 1
  {
    hide IsChain;
    forall c | 2 <= c < |t| ensures t[c] != 1 {
      if t[c] != 0 {
        var p :| p in cs && c in p;
        ChainsDiffer(t, cs, p, c);
      }
    }
  }

  /** A chain none of whose entries changes is still a chain. */
  lemma ChainKept(t: seq<nat>, u: seq<nat>, p: seq<nat>)
    requires IsChain(t, p) && |u| == |t| && forall c | c in p :: c < |t| ==> u[c] == t[c]
    ensures IsChain(u, p)
  {
    forall i, j | 0 <= i < j < |p| && j == i + 1 ensures u[p[i]] == p[j] {
      assert p[i] in p;
    }
    assert p[|p| - 1] in p;
  }

  /** `u` is `t` with the chain `p` (or nothing, when it is empty) become `r`. */
  ghost predicate Exchanged(t: seq<nat>, u: seq<nat>, p: seq<nat>, r: seq<nat>) {
    && |u| == |t|
    && (forall c | 0 <= c < |t| && c !in p && c !in r :: u[c] == t[c])
    && (forall c | c in p && c !in r :: c < |t| ==> u[c] == 0)
    && forall c | c in r && c !in p :: c < |t| ==> t[c] == 0
  }

  lemma OthersKept(t: seq<nat>, u: seq<nat>, cs: set<seq<nat>>, p: seq<nat>, r: seq<nat>, q: seq<nat>)
    requires AllChains(t, cs) && Disjoint(cs) && (p in cs || p == []) && Exchanged(t, u, p, r)
    requires q in cs && q != p
    ensures IsChain(u, q) && Apart(q, r) && Apart(r, q)
  {
    hide IsChain;
    forall c | c in q ensures 2 <= c < |t| && c !in p && c !in r {
      ChainsDiffer(t, cs, q, c);
    }
    ChainKept(t, u, q);
  }

  lemma ExchangeCovers(t: seq<nat>, u: seq<nat>, cs: set<seq<nat>>, p: seq<nat>, r: seq<nat>)
    requires Covered(t, cs) && Exchanged(t, u, p, r)
    ensures Covered(u, cs - {p} + {r})
  {
    var ds := cs - {p} + {r};
    forall c | 2 <= c < |u| && u[c] != 0 ensures exists q | q in ds :: c in q {
      if c in r {
        assert r in ds;
      } else {
        assert c !in p;
        var q :| q in cs && c in q;
        assert q in ds;
      }
    }
  }

  /** Exchanging one chain for another, or adding one, leaves the FAT made of chains. */
  lemma ExchangeChain(t: seq<nat>, u: seq<nat>, cs: set<seq<nat>>, p: seq<nat>, r: seq<nat>)
    requires MadeOf(t, cs) && (p in cs || p == []) && IsChain(u, r) && Exchanged(t, u, p, r)
    ensures MadeOf(u, cs - {p} + {r})
  {
    hide IsChain, Apart, Covered;
    forall q | q in cs && q != p ensures IsChain(u, q) && Apart(q, r) && Apart(r, q) {
      OthersKept(t, u, cs, p, r, q);
    }
    ExchangeCovers(t, u, cs, p, r);
  }

  /** remove_chain on a head frees exactly that chain. */
  lemma RemoveFreesItsChain(t: seq<nat>, cs: set<seq<nat>>, p: seq<nat>)
    requires MadeOf(t, cs) && p in cs
    ensures p != [] && Path(t, p[0]) == p && Stop(t, p[0]) >= |t|
    ensures MadeOf(Zeroed(t, p), cs - {p})
    ensures Free(Zeroed(t, p)) == Free(t) + Elements(p)
  {
    hide *;
    ChainOf(t, cs, p);
    WalkAlongChain(t, p);
    RemoveCovers(t, cs, p);
    RestApart(t, cs, p);
    FreedToo(t, cs, p);
  }

  lemma ChainOf(t: seq<nat>, cs: set<seq<nat>>, p: seq<nat>)
    requires MadeOf(t, cs) && p in cs
    ensures IsChain(t, p) && p != []
  {
  }

  lemma RestApart(t: seq<nat>, cs: set<seq<nat>>, p: seq<nat>)
    requires MadeOf(t, cs) && p in cs && Covered(Zeroed(t, p), cs - {p})
    ensures MadeOf(Zeroed(t, p), cs - {p})
  {
    hide IsChain, Covered;
    var u := Zeroed(t, p);
    forall q | q in cs && q != p ensures IsChain(u, q) {
      OthersKept(t, u, cs, p, [], q);
    }
  }

  lemma FreedToo(t: seq<nat>, cs: set<seq<nat>>, p: seq<nat>)
    requires MadeOf(t, cs) && p in cs
    ensures Free(Zeroed(t, p)) == Free(t) + Elements(p)
  {
    hide IsChain, Covered, Disjoint, AllChains;
    forall c | c in p ensures 2 <= c < |t| {
      ChainsDiffer(t, cs, p, c);
    }
  }

  lemma RemoveCovers(t: seq<nat>, cs: set<seq<nat>>, p: seq<nat>)
    requires MadeOf(t, cs)
    ensures Covered(Zeroed(t, p), cs - {p})
  {
    hide AllChains, Disjoint;
    var u := Zeroed(t, p);
    forall c | 2 <= c < |u| && u[c] != 0 ensures exists q | q in cs - {p} :: c in q {
      var q :| q in cs && c in q;
      assert q in cs - {p};
    }
  }

  /** The table after f_truncate keeps `k` clusters of `p`: the last kept one is end-marked and the
      chain behind it removed. */
  ghost function CutAfter(kind: FatType, t: seq<nat>, p: seq<nat>, k: nat): (u: seq<nat>)
    requires Follows(t, p) && 0 < k <= |p|
    ensures |u| == |t|
  {
    if k == |p| then t
    else
      var v := t[p[k - 1] := EndMark(kind)];
      Zeroed(v, Path(v, p[k]))
  }

  /** The chain behind the cut, once the cut is marked. */
  lemma RestOfChain(t: seq<nat>, p: seq<nat>, k: nat, mark: nat)
    requires IsChain(t, p) && 0 < k < |p|
    ensures Path(t[p[k - 1] := mark], p[k]) == p[k..]
  {
    var v := t[p[k - 1] := mark];
    var q := p[k..];
    assert IsChain(v, q) by {
      forall i, j | 0 <= i < j < |q| && j == i + 1 ensures v[q[i]] == q[j] {
        assert t[p[k + i]] == p[k + j];
      }
      assert q[|q| - 1] == p[|p| - 1];
    }
    WalkAlongChain(v, q);
  }

  lemma FrontOfChain(t: seq<nat>, p: seq<nat>, k: nat, u: seq<nat>)
    requires IsChain(t, p) && 0 < k < |p| && |u| == |t|
    requires u[p[k - 1]] >= |u|
    requires forall c | c in p[..k - 1] :: c < |t| ==> u[c] == t[c]
    ensures IsChain(u, p[..k])
  {
    var f := p[..k];
    forall i, j | 0 <= i < j < |f| && j == i + 1 ensures u[f[i]] == f[j] {
      assert f[i] == p[..k - 1][i];
      assert t[p[i]] == p[j];
    }
  }

  lemma InSplit(p: seq<nat>, k: nat, c: nat)
    requires k <= |p| && Distinct(p)
    ensures c in p <==> c in p[..k] || c in p[k..]
    ensures !(c in p[..k] && c in p[k..])
  {
    assert p == p[..k] + p[k..];
    if c in p[..k] {
      var i :| 0 <= i < k && p[..k][i] == c;
      forall j | 0 <= j < |p| - k ensures p[k..][j] != c {
        assert p[i] != p[k + j];
      }
    }
  }

  /** Truncating keeps exactly the first `k` clusters and frees exactly the others. */
  lemma CutKeepsTheFront(kind: FatType, t: seq<nat>, cs: set<seq<nat>>, p: seq<nat>, k: nat)
    requires MadeOf(t, cs) && p in cs && 0 < k <= |p| && |t| <= EndMark(kind)
    ensures Follows(t, p) && MadeOf(CutAfter(kind, t, p, k), cs - {p} + {p[..k]})
    ensures Free(CutAfter(kind, t, p, k)) == Free(t) + Elements(p[k..])
  {
    assert IsChain(t, p);
    if k == |p| {
      assert p[..k] == p;
      assert cs - {p} + {p[..k]} == cs;
    } else {
      CutChain(kind, t, p, k);
      hide IsChain, CutAfter, Covered;
      ExchangeChain(t, CutAfter(kind, t, p, k), cs, p, p[..k]);
    }
  }

  lemma CutTable(kind: FatType, t: seq<nat>, p: seq<nat>, k: nat)
    requires IsChain(t, p) && 0 < k < |p|
    ensures var u := CutAfter(kind, t, p, k);
            && u[p[k - 1]] == EndMark(kind)
            && (forall c | 0 <= c < |t| && c in p[k..] :: u[c] == 0)
            && forall c | 0 <= c < |t| && c !in p[k..] && c != p[k - 1] :: u[c] == t[c]
  {
    RestOfChain(t, p, k, EndMark(kind));
    var v := t[p[k - 1] := EndMark(kind)];
    assert CutAfter(kind, t, p, k) == Zeroed(v, p[k..]);
    InSplit(p, k, p[k - 1]);
    assert p[..k][k - 1] == p[k - 1];
  }

  lemma CutChain(kind: FatType, t: seq<nat>, p: seq<nat>, k: nat)
    requires IsChain(t, p) && 0 < k < |p| && |t| <= EndMark(kind)
    ensures var u := CutAfter(kind, t, p, k);
            && IsChain(u, p[..k]) && Exchanged(t, u, p, p[..k])
            && Free(u) == Free(t) + Elements(p[k..])
  {
    CutTable(kind, t, p, k);
    var u := CutAfter(kind, t, p, k);
    hide CutAfter;
    forall c ensures c in p <==> c in p[..k] || c in p[k..] ensures !(c in p[..k] && c in p[k..]) {
      InSplit(p, k, c);
    }
    forall c | c in p ensures 2 <= c < |t| && t[c] >= 2 {
      InChain(t, p, c);
    }
    hide Follows;
    assert p[..k][k - 1] == p[k - 1];
    forall c | c in p[..k - 1] ensures u[c] == t[c] {
      var i :| 0 <= i < k - 1 && p[..k - 1][i] == c;
      assert p[..k][i] == c && p[i] != p[k - 1];
    }
    hide Distinct;
    FrontOfChain(t, p, k, u);
    hide IsChain;
    assert Exchanged(t, u, p, p[..k]);
  }

  /** Stretching a chain at its tail appends one fresh cluster. */
  lemma GrowAppends(kind: FatType, t: seq<nat>, cs: set<seq<nat>>, p: seq<nat>, c: nat)
    requires MadeOf(t, cs) && p in cs && 2 <= c < |t| && t[c] == 0 && |t| <= EndMark(kind)
    ensures p != [] && 2 <= p[|p| - 1] < |t| && MadeOf(Grown(kind, t, p[|p| - 1], c), cs - {p} + {p + [c]})
    ensures Free(Grown(kind, t, p[|p| - 1], c)) == Free(t) - {c}
  {
    assert IsChain(t, p);
    GrowChain(kind, t, p, c);
    hide IsChain, Grown, Covered;
    ExchangeChain(t, Grown(kind, t, p[|p| - 1], c), cs, p, p + [c]);
  }

  lemma GrowChain(kind: FatType, t: seq<nat>, p: seq<nat>, c: nat)
    requires IsChain(t, p) && 2 <= c < |t| && t[c] == 0 && |t| <= EndMark(kind)
    ensures p[|p| - 1] < |t|
    ensures var u := Grown(kind, t, p[|p| - 1], c);
            IsChain(u, p + [c]) && Exchanged(t, u, p, p + [c]) && Free(u) == Free(t) - {c}
  {
    var u := Grown(kind, t, p[|p| - 1], c);
    var r := p + [c];
    forall x | x in p ensures 2 <= x < |t| && x != c && t[x] >= 2 {
      InChain(t, p, x);
    }
    assert forall i | 0 <= i < |p| :: r[i] == p[i] && p[i] in p;
    assert u[c] == EndMark(kind);
    assert Follows(u, r) by {
      hide Distinct;
      forall i, j | 0 <= i < j < |r| && j == i + 1 ensures u[r[i]] == r[j] {
        if j < |p| {
          assert t[p[i]] == p[j] && p[i] != p[|p| - 1];
        }
      }
    }
    hide Follows;
  }

  /** Creating a chain adds a chain of one cluster. */
  lemma StartAddsOne(kind: FatType, t: seq<nat>, cs: set<seq<nat>>, c: nat)
    requires MadeOf(t, cs) && 2 <= c < |t| && t[c] == 0 && |t| <= EndMark(kind)
    ensures MadeOf(Grown(kind, t, 0, c), cs + {[c]})
    ensures Free(Grown(kind, t, 0, c)) == Free(t) - {c}
  {
    hide Covered, Grown, IsChain;
    SingleChain(kind, t, c);
    forall p | p in cs ensures p != [] {
      NotEmpty(t, p);
    }
    assert cs - {[]} + {[c]} == cs + {[c]};
    ExchangeChain(t, Grown(kind, t, 0, c), cs, [], [c]);
  }

  lemma NotEmpty(t: seq<nat>, p: seq<nat>)
    requires IsChain(t, p)
    ensures p != []
  {
  }

  lemma SingleChain(kind: FatType, t: seq<nat>, c: nat)
    requires 2 <= c < |t| && t[c] == 0 && |t| <= EndMark(kind)
    ensures var u := Grown(kind, t, 0, c);
            IsChain(u, [c]) && Exchanged(t, u, [], [c]) && Free(u) == Free(t) - {c}
  {
  }

  /** The FAT with the counters mounted beside it, and the chains its files own. */
  datatype ChainState = ChainState(t: seq<nat>, cs: set<seq<nat>>, last: dword, free: dword)

  ghost predicate Sound(kind: FatType, s: ChainState) {
    && MadeOf(s.t, s.cs) && |s.t| <= EndMark(kind)
    && (s.free != UNKNOWN ==> s.free == |Free(s.t)|)
  }

  datatype ChainOp = Start | Stretch(p: seq<nat>) | Remove(p: seq<nat>) | Cut(p: seq<nat>, k: nat)

  ghost predicate Allowed(s: ChainState, op: ChainOp) {
    match op
    case Start => true
    case Stretch(p) => p in s.cs
    case Remove(p) => p in s.cs
    case Cut(p, k) => p in s.cs && 0 < k <= |p|
  }

  /** What the code does for each operation, by the contracts of CreateChain and RemoveChain. */
  ghost function Apply(kind: FatType, s: ChainState, op: ChainOp): ChainState
    requires Sound(kind, s) && Allowed(s, op)
  {
    match op
    case Start =>
      var r := CreateResult(s.t, 0, s.last);
      CreateResultBound(s.t, 0, s.last);
      if r < 2 then s
      else ChainState(Grown(kind, s.t, 0, r), s.cs + {[r]}, r, Debited(s.free))
    case Stretch(p) =>
      TailNeedsCluster(s.t, s.cs, p);
      var tail := p[|p| - 1];
      var r := CreateResult(s.t, tail, s.last);
      CreateResultBound(s.t, tail, s.last);
      if r < 2 then s
      else ChainState(Grown(kind, s.t, tail, r), s.cs - {p} + {p + [r]}, r, Debited(s.free))
    case Remove(p) =>
      var walk := Path(s.t, p[0]);
      ChainState(Zeroed(s.t, walk), s.cs - {p}, s.last, Credited(s.free, |walk|))
    case Cut(p, k) =>
      ChainState(CutAfter(kind, s.t, p, k), s.cs - {p} + {p[..k]}, s.last, Credited(s.free, |p| - k))
  }

  lemma TailNeedsCluster(t: seq<nat>, cs: set<seq<nat>>, p: seq<nat>)
    requires MadeOf(t, cs) && p in cs
    ensures 3 <= |t| && p != [] && NeedsCluster(t, p[|p| - 1])
  {
    assert IsChain(t, p);
  }

  lemma DistinctSize(p: seq<nat>)
    requires Distinct(p)
    ensures |Elements(p)| == |p|
  {
    if p != [] {
      var q := p[..|p| - 1];
      DistinctSize(q);
      assert p == q + [p[|p| - 1]];
      assert Elements(p) == Elements(q) + {p[|p| - 1]};
      assert p[|p| - 1] !in q;
    }
  }

  lemma FreeBound(t: seq<nat>)
    ensures 2 <= |t| ==> |Free(t)| <= |t| - 2
  {
    if |t| == 2 {
      assert Free(t) == {};
    } else if 2 < |t| {
      var n := |t| - 1;
      FreeBound(t[..n]);
      assert Free(t) - {n} == Free(t[..n]);
      assert Free(t) <= Free(t[..n]) + {n};
    }
  }

  /** Releasing the clusters of `p` adds their number to the free ones, without overflow. */
  lemma CountRelease(t: seq<nat>, u: seq<nat>, p: seq<nat>, free: dword)
    requires Distinct(p) && |u| == |t| < UNKNOWN && 2 <= |t|
    requires forall c | c in p :: 2 <= c < |t| && t[c] != 0
    requires Free(u) == Free(t) + Elements(p)
    requires free != UNKNOWN ==> free == |Free(t)|
    ensures free != UNKNOWN ==> Credited(free, |p|) == |Free(u)| && Credited(free, |p|) != UNKNOWN
  {
    DistinctSize(p);
    FreeBound(u);
    var s := Elements(p);
    assert Free(t) !! s;
    assert |Free(u)| == |Free(t)| + |s|;
  }

  lemma CountTake(t: seq<nat>, u: seq<nat>, c: nat, free: dword)
    requires c in Free(t) && Free(u) == Free(t) - {c}
    requires free != UNKNOWN ==> free == |Free(t)|
    ensures free != UNKNOWN ==> Debited(free) == |Free(u)| && Debited(free) != UNKNOWN
  {
    assert Free(t) == Free(u) + {c};
  }

  /** The cluster a create returns was free. */
  lemma CreatedWasFree(t: seq<nat>, cs: set<seq<nat>>, clst: nat, last: dword)
    requires MadeOf(t, cs) && NeedsCluster(t, clst)
    ensures CreateResult(t, clst, last) >= 2 ==> CreateResult(t, clst, last) in Free(t)
    ensures CreateResult(t, clst, last) < 2 <==> Free(t) == {}
  {
    var scl := ScanStart(|t|, clst, last);
    ScanFindsTheFirstFree(t, scl, 0);
    NoInvalidEntry(t, cs);
    ScanFailsIffFull(t, scl);
    if Free(t) == {} {
      forall c | 2 <= c < |t| ensures t[c] != 0 {
        assert c !in Free(t);
      }
    }
  }

  lemma StepKeepsSound(kind: FatType, s: ChainState, op: ChainOp)
    requires Sound(kind, s) && Allowed(s, op)
    ensures Sound(kind, Apply(kind, s, op))
    ensures s.free != UNKNOWN ==> Apply(kind, s, op).free != UNKNOWN
  {
    match op
    case Start => StartKeeps(kind, s);
    case Stretch(p) => StretchKeeps(kind, s, p);
    case Remove(p) => RemoveKeeps(kind, s, p);
    case Cut(p, k) => CutKeeps(kind, s, p, k);
  }

  lemma FreeOne(t: seq<nat>, c: nat)
    requires c in Free(t)
    ensures 2 <= c < |t| && t[c] == 0
  {
  }

  lemma StartKeeps(kind: FatType, s: ChainState)
    requires Sound(kind, s)
    ensures Sound(kind, Apply(kind, s, Start))
    ensures s.free != UNKNOWN ==> Apply(kind, s, Start).free != UNKNOWN
  {
    var r := CreateResult(s.t, 0, s.last);
    CreatedWasFree(s.t, s.cs, 0, s.last);
    hide CreateResult, MadeOf, Grown, Free, EndMark;
    CreateResultBound(s.t, 0, s.last);
    if r >= 2 {
      FreeOne(s.t, r);
      StartAddsOne(kind, s.t, s.cs, r);
      CountTake(s.t, Grown(kind, s.t, 0, r), r, s.free);
    }
  }

  lemma StretchKeeps(kind: FatType, s: ChainState, p: seq<nat>)
    requires Sound(kind, s) && p in s.cs
    ensures Sound(kind, Apply(kind, s, Stretch(p)))
    ensures s.free != UNKNOWN ==> Apply(kind, s, Stretch(p)).free != UNKNOWN
  {
    hide CreateResult, NeedsCluster, MadeOf, Grown, Free, EndMark;
    TailNeedsCluster(s.t, s.cs, p);
    var tail := p[|p| - 1];
    var r := CreateResult(s.t, tail, s.last);
    CreatedWasFree(s.t, s.cs, tail, s.last);
    CreateResultBound(s.t, tail, s.last);
    if r >= 2 {
      FreeOne(s.t, r);
      GrowAppends(kind, s.t, s.cs, p, r);
      CountTake(s.t, Grown(kind, s.t, tail, r), r, s.free);
    }
  }

  lemma RemoveKeeps(kind: FatType, s: ChainState, p: seq<nat>)
    requires Sound(kind, s) && p in s.cs
    ensures Sound(kind, Apply(kind, s, Remove(p)))
    ensures s.free != UNKNOWN ==> Apply(kind, s, Remove(p)).free != UNKNOWN
  {
    RemoveFreesItsChain(s.t, s.cs, p);
    hide Covered;
    forall c | c in p ensures 2 <= c < |s.t| && s.t[c] != 0 {
      ChainsDiffer(s.t, s.cs, p, c);
    }
    var u := Zeroed(s.t, p);
    assert IsChain(s.t, p);
    EndMarkBound(kind);
    CountRelease(s.t, u, p, s.free);
  }

  lemma EndMarkBound(kind: FatType)
    ensures EndMark(kind) < UNKNOWN
  {
  }

  lemma CutKeeps(kind: FatType, s: ChainState, p: seq<nat>, k: nat)
    requires Sound(kind, s) && p in s.cs && 0 < k <= |p|
    ensures Sound(kind, Apply(kind, s, Cut(p, k)))
    ensures s.free != UNKNOWN ==> Apply(kind, s, Cut(p, k)).free != UNKNOWN
  {
    CutKeepsTheFront(kind, s.t, s.cs, p, k);
    hide Covered;
    forall c | c in p[k..] ensures 2 <= c < |s.t| && s.t[c] != 0 {
      ChainsDiffer(s.t, s.cs, p, c);
    }
    assert Distinct(p);
    EndMarkBound(kind);
    CountRelease(s.t, CutAfter(kind, s.t, p, k), p[k..], s.free);
  }

  ghost predicate AllowedRun(kind: FatType, s: ChainState, ops: seq<ChainOp>)
    requires Sound(kind, s)
    decreases |ops|
  {
    ops == [] || (Allowed(s, ops[0]) && (StepKeepsSound(kind, s, ops[0]); AllowedRun(kind, Apply(kind, s, ops[0]), ops[1..])))
  }

  ghost function Run(kind: FatType, s: ChainState, ops: seq<ChainOp>): ChainState
    requires Sound(kind, s) && AllowedRun(kind, s, ops)
    decreases |ops|
  {
    if ops == [] then s
    else
      StepKeepsSound(kind, s, ops[0]);
      Run(kind, Apply(kind, s, ops[0]), ops[1..])
  }

  lemma {:induction false} RunsKeepSound(kind: FatType, s: ChainState, ops: seq<ChainOp>)
    requires Sound(kind, s) && AllowedRun(kind, s, ops)
    ensures Sound(kind, Run(kind, s, ops)) && (s.free != UNKNOWN ==> Run(kind, s, ops).free != UNKNOWN)
    decreases |ops|
  {
    hide Sound, Apply, Allowed;
    if ops == [] {
    } else {
      StepKeepsSound(kind, s, ops[0]);
      RunsKeepSound(kind, Apply(kind, s, ops[0]), ops[1..]);
    }
  }

  /** Over every run the FAT stays made of disjoint end-marked chains, and free_clust, where it was
      known at the start, is the number of free clusters throughout. */
  lemma EveryRunKeepsTheChains(kind: FatType, s: ChainState, ops: seq<ChainOp>)
    requires Sound(kind, s) && AllowedRun(kind, s, ops)
    ensures var e := Run(kind, s, ops);
            MadeOf(e.t, e.cs) && (s.free != UNKNOWN ==> e.free == |Free(e.t)|)
  {
    hide MadeOf, Run, Free, EndMark;
    RunsKeepSound(kind, s, ops);
  }
}
