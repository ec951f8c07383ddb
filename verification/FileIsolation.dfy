/** Files do not disturb each other: what writing or seeking in one file leaves of the others. */
module FileIsolation {
  import opened FatLayout
  import opened FatChains
  import opened ChainRuns
  import opened FileLayout
  import opened FatFile

  /** A sector of cluster `c` is not among the sectors of a chain without `c`. */
  lemma NotInChain(g: Geometry, r: seq<nat>, c: nat, s: nat)
    requires 0 < g.csize && InRange(g, r) && 2 <= c < g.nFatent && c !in r
    requires Clust2Sect(g, c) <= s < Clust2Sect(g, c) + g.csize
    ensures s !in Sectors(g, r)
  {
    hide Clust2Sect, Sectors;
    forall k | 0 <= k < |Sectors(g, r)| ensures Sectors(g, r)[k] != s {
      SectorOutside(g, r, c, k);
    }
  }

  /** Clusters a chain grows by are not another chain's. */
  lemma GrowthApart(t: seq<nat>, u: seq<nat>, cs: set<seq<nat>>, p: seq<nat>, r: seq<nat>, q: seq<nat>, c: nat)
    requires MadeOf(t, cs) && (p in cs || p == []) && q in cs && q != p && Grows(t, u, p, r) && c in q
    ensures c !in r && 2 <= c < |t|
  {
    hide IsChain, Covered;
    ChainsDiffer(t, cs, q, c);
    assert r == p + r[|p|..];
    forall i | 0 <= i < |r| ensures r[i] != c {
      if i < |p| {
        assert p[i] in p;
      }
    }
  }

  /** After one file changed and perhaps grew, every other file has its chain and its bytes. */
  lemma OtherFilesKept(g: Geometry, t: seq<nat>, u: seq<nat>, cs: set<seq<nat>>, p: seq<nat>, r: seq<nat>,
                       q: seq<nat>, v: seq<Sector>, w: seq<Sector>, n: nat)
    requires g.Valid() && g.DataFits() && |t| == g.nFatent && |v| == g.sectors
    requires MadeOf(t, cs) && (p in cs || p == []) && q in cs && q != p
    requires Grows(t, u, p, r) && InRange(g, r) && Untouched(g, v, w, Sectors(g, r))
    requires n <= SS * |Sectors(g, q)|
    ensures IsChain(u, q) && OnDisk(Sectors(g, q), |v|) && |w| == |v|
    ensures Bytes(w, Sectors(g, q), n) == Bytes(v, Sectors(g, q), n)
  {
    assert IsChain(t, q);
    SectorsDistinct(g, q);
    var secs := Sectors(g, q);
    forall k | 0 <= k < |secs| ensures secs[k] < |w| && w[secs[k]] == v[secs[k]] {
      OneSector(g, t, u, cs, p, r, q, k);
      assert secs[k] in secs;
    }
    forall c | c in q ensures c < |t| && u[c] == t[c] {
      GrowthApart(t, u, cs, p, r, q, c);
    }
    ChainKept(t, u, q);
    BytesFrame(v, w, secs, secs, n);
  }

  lemma OneSector(g: Geometry, t: seq<nat>, u: seq<nat>, cs: set<seq<nat>>, p: seq<nat>, r: seq<nat>, q: seq<nat>, k: nat)
    requires g.Valid() && g.DataFits() && |t| == g.nFatent && MadeOf(t, cs) && (p in cs || p == []) && q in cs && q != p
    requires Grows(t, u, p, r) && InRange(g, r) && k < |Sectors(g, q)|
    ensures var s := Sectors(g, q)[k]; s !in Sectors(g, r) && !g.InAnyFat(s)
  {
    hide Sectors, Clust2Sect, MadeOf, Grows, ClusterNo, PlaceIn;
    SectorPlace(g, q, k);
    var c := q[ClusterNo(k, g.csize)];
    assert c in q;
    GrowthApart(t, u, cs, p, r, q, c);
    NotInChain(g, r, c, Sectors(g, q)[k]);
    ClusterInData(g, c);
  }
}
