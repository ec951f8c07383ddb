/** Cutting a file at its file pointer (ff.c, f_truncate). */
module FatTruncate {
  import opened FatLayout
  import opened FatWindow
  import opened FatChains
  import opened ChainRuns
  import opened FileLayout
  import opened FatFile
  import opened FatSeek

  /** Clusters needed for `n` bytes. */
  function ClustersFor(n: nat, csize: nat): nat
    requires 0 < csize
  {
    if n == 0 then 0 else ClusterIx(n - 1, csize) + 1
  }

  /** That many clusters hold `n` bytes, and one less does not. */
  lemma ClustersForIsCeiling(n: nat, csize: nat)
    requires 0 < csize
    ensures n <= ClustersFor(n, csize) * (csize * SS)
    ensures 0 < n ==> (ClustersFor(n, csize) - 1) * (csize * SS) < n
  {
    if n > 0 {
      var k := (n - 1) / SS;
      var q := k / csize;
      assert k == csize * q + k % csize;
      assert n - 1 == k * SS + (n - 1) % SS;
      assert q * (csize * SS) == csize * q * SS;
      assert k % csize * SS <= (csize - 1) * SS;
      assert (q + 1) * (csize * SS) == q * (csize * SS) + csize * SS;
    }
  }

  /** The buffer is empty or holds one of the sectors `secs`. */
  ghost predicate BufferIn(secs: seq<nat>, dsect: nat) {
    dsect == 0 || dsect in secs
  }

  /** The sectors of the clusters that hold the first `n` bytes of a file. */
  ghost function KeptSectors(g: Geometry, ch: seq<nat>, n: nat): seq<nat>
    requires 0 < g.csize && ClustersFor(n, g.csize) <= |ch|
  {
    SectorsLength(g, ch);
    MulMono(ClustersFor(n, g.csize), |ch|, g.csize);
    Sectors(g, ch)[..ClustersFor(n, g.csize) * g.csize]
  }

  /** Sector `s` belongs to a cluster that is free in the table `t`. */
  ghost predicate InFreeCluster(g: Geometry, t: seq<nat>, s: nat) {
    exists c | 2 <= c < |t| && t[c] == 0 :: Clust2Sect(g, c) <= s < Clust2Sect(g, c) + g.csize
  }

  /** The first clusters of a file hold its first sectors. */
  lemma {:induction false} SectorsPrefix(g: Geometry, ch: seq<nat>, k: nat)
    requires k <= |ch|
    ensures k * g.csize <= |Sectors(g, ch)| && Sectors(g, ch[..k]) == Sectors(g, ch)[..k * g.csize]
  {
    if k == |ch| {
      assert ch[..k] == ch;
      SectorsLength(g, ch);
    } else {
      var front := ch[..|ch| - 1];
      SectorsPrefix(g, front, k);
      assert front[..k] == ch[..k];
    }
  }

  lemma KeptIs(g: Geometry, ch: seq<nat>, n: nat)
    requires 0 < g.csize && ClustersFor(n, g.csize) <= |ch|
    ensures Sectors(g, ch[..ClustersFor(n, g.csize)]) == KeptSectors(g, ch, n)
  {
    SectorsPrefix(g, ch, ClustersFor(n, g.csize));
  }

  /** A sector behind the kept ones lies in a cluster that the cut has freed. */
  lemma BehindTheCut(g: Geometry, kind: FatType, t: seq<nat>, ch: seq<nat>, org: nat, k: nat, s: nat)
    requires 0 < g.csize && ChainHeld(t, ch, org) && k <= |ch| && Follows(t, ch) && |t| <= EndMark(kind)
    requires s in Sectors(g, ch) && s !in Sectors(g, ch[..k])
    ensures InFreeCluster(g, CutTo(kind, t, ch, k), s)
  {
    hide Sectors, Clust2Sect, ClusterNo, PlaceIn, CutTo, IsChain, Follows;
    var secs := Sectors(g, ch);
    var x :| 0 <= x < |secs| && secs[x] == s;
    SectorsPrefix(g, ch, k);
    SectorPlace(g, ch, x);
    var i := ClusterNo(x, g.csize);
    NotInFront(secs, k * g.csize, x);
    NoBelow(x, g.csize, k);
    CutFrees(kind, t, ch, org, k, i);
    assert Clust2Sect(g, ch[i]) <= s < Clust2Sect(g, ch[i]) + g.csize;
  }

  lemma NotInFront(secs: seq<nat>, n: nat, x: nat)
    requires n <= |secs| && x < |secs| && secs[x] !in secs[..n]
    ensures n <= x
  {
    assert forall i | 0 <= i < n :: secs[..n][i] == secs[i];
  }

  lemma NoBelow(x: nat, csize: nat, k: nat)
    requires 0 < csize && k * csize <= x
    ensures k <= ClusterNo(x, csize)
  {
    QuotientAtLeast(x, csize, k);
  }

  lemma CutFrees(kind: FatType, t: seq<nat>, ch: seq<nat>, org: nat, k: nat, i: nat)
    requires ChainHeld(t, ch, org) && Follows(t, ch) && k <= i < |ch| && |t| <= EndMark(kind)
    ensures var u := CutTo(kind, t, ch, k); |u| == |t| && 2 <= ch[i] < |u| && u[ch[i]] == 0
  {
    MidOrLast(t, ch, org, i);
    if k > 0 {
      CutTable(kind, t, ch, k);
      assert ch[k..][i - k] == ch[i];
    }
  }

  /** The table after a chain is cut to its first `k` clusters. */
  ghost function CutTo(kind: FatType, t: seq<nat>, ch: seq<nat>, k: nat): seq<nat>
    requires Follows(t, ch) && k <= |ch|
  {
    if k == 0 then Zeroed(t, ch) else CutAfter(kind, t, ch, k)
  }

  /** Removing a whole chain. */
  lemma CutAll(t: seq<nat>, ch: seq<nat>, org: nat)
    requires ChainHeld(t, ch, org) && ch != []
    ensures Path(t, org) == ch && Stop(t, org) >= |t| && 2 <= org < |t| && Follows(t, ch)
    ensures ChainHeld(Zeroed(t, ch), [], 0)
  {
    WalkAlongChain(t, ch);
  }

  /** Cutting behind cluster number `k - 1`. */
  lemma CutPart(kind: FatType, t: seq<nat>, ch: seq<nat>, org: nat, k: nat)
    requires ChainHeld(t, ch, org) && 0 < k < |ch| && 2 <= EndMark(kind) && |t| <= EndMark(kind)
    ensures Follows(t, ch) && 2 <= ch[k - 1] < |t| && 2 <= t[ch[k - 1]] == ch[k] < |t|
    ensures var v := t[ch[k - 1] := EndMark(kind)];
            && CutAfter(kind, t, ch, k) == Zeroed(v, Path(v, ch[k]))
            && (Stop(v, ch[k]) < |v| ==> v[Stop(v, ch[k])] != 1)
            && |Path(v, ch[k])| == |ch| - k
    ensures ChainHeld(CutAfter(kind, t, ch, k), ch[..k], org)
  {
    RestOfChain(t, ch, k, EndMark(kind));
    CutChain(kind, t, ch, k);
    MidOrLast(t, ch, org, k - 1);
    MidOrLast(t, ch, org, k);
    WalkFollowsTheTable(t[ch[k - 1] := EndMark(kind)], ch[k]);
    hide Follows, IsChain, Path, Stop;
    CutKeepsValid(kind, t, ch, k);
  }

  lemma CutKeepsValid(kind: FatType, t: seq<nat>, ch: seq<nat>, k: nat)
    requires Follows(t, ch) && 0 < k < |ch| && NoInvalid(t) && 2 <= EndMark(kind)
    ensures NoInvalid(CutAfter(kind, t, ch, k)) && NoInvalid(t[ch[k - 1] := EndMark(kind)])
  {
    hide Path;
  }

  /** Nothing lies behind the last cluster. */
  lemma CutNothing(kind: FatType, t: seq<nat>, ch: seq<nat>, org: nat)
    requires ChainHeld(t, ch, org) && ch != []
    ensures Follows(t, ch) && CutAfter(kind, t, ch, |ch|) == t && 2 <= ch[|ch| - 1] < |t| <= t[ch[|ch| - 1]]
    ensures ch[..|ch|] == ch
  {
    MidOrLast(t, ch, org, |ch| - 1);
  }

  /** Lines 2916-2918: release every cluster. */
  method CutAway(fp: File) returns (ok: bool)
    requires fp.Core() && fp.ch != []
    modifies fp.fs`dev, fp.fs`winsect, fp.fs`wflag, fp.fs`fsiFlag, fp.fs`freeClust, fp.fs.win, fp`ch, fp`orgClust
    ensures fp.fs.Valid() && fp.Linked() && ok && fp.ch == [] && Follows(old(fp.fs.Fat()), old(fp.ch))
    ensures fp.fs.Fat() == CutTo(fp.fs.g.kind, old(fp.fs.Fat()), old(fp.ch), 0)
    ensures fp.fs.freeClust == Credited(old(fp.fs.freeClust), |old(fp.ch)|)
    ensures SameOutsideFat(fp.fs.g, old(fp.fs.Logical()), fp.fs.Logical())
  {
    hide *;
    fp.CoreFacts();
    ghost var t, p, w := fp.fs.Fat(), fp.ch, fp.fs.winsect;
    CutAll(t, p, fp.orgClust);
    CutToIs(fp.fs.g.kind, t, p, 0);
    ok := RemoveChain(fp.fs, fp.orgClust);
    fp.orgClust := 0;
    fp.ch := [];
    RelinkShorter(fp, p, 0, w);
  }

  /** Lines 2919-2928: mark the cluster of the last byte as the last one and release those behind. */
  method CutBehind(fp: File, ghost k: nat) returns (ok: bool)
    requires fp.Core() && 0 < k <= |fp.ch| && fp.currClust == fp.ch[k - 1]
    modifies fp.fs`dev, fp.fs`winsect, fp.fs`wflag, fp.fs`fsiFlag, fp.fs`freeClust, fp.fs.win, fp`ch
    ensures fp.fs.Valid() && fp.Linked() && ok && fp.ch == old(fp.ch)[..k] && Follows(old(fp.fs.Fat()), old(fp.ch))
    ensures fp.fs.Fat() == CutTo(fp.fs.g.kind, old(fp.fs.Fat()), old(fp.ch), k)
    ensures fp.fs.freeClust == Credited(old(fp.fs.freeClust), |old(fp.ch)| - k)
    ensures SameOutsideFat(fp.fs.g, old(fp.fs.Logical()), fp.fs.Logical())
  {
    hide *;
    fp.CoreFacts();
    ghost var t, p := fp.fs.Fat(), fp.ch;
    EndMarkFits(fp.fs.g);
    if k == |p| {
      CutNothing(fp.fs.g.kind, t, p, fp.orgClust);
    } else {
      CutPart(fp.fs.g.kind, t, p, fp.orgClust, k);
    }
    CutToIs(fp.fs.g.kind, t, p, k);
    var ncl := fp.Link(fp.currClust);
    fp.CoreFacts();
    ghost var w, d := fp.fs.winsect, fp.fs.Logical();
    ok := ncl != 1;
    if ok && ncl < fp.fs.g.nFatent {
      ok := ReleaseBehind(fp.fs, fp.currClust, ncl);
    } else {
      CreditedTwice(fp.fs.freeClust, 0);
      OutsideSame(fp.fs.g, d);
    }
    fp.ch := p[..k];
    RelinkShorter(fp, p, k, w);
  }

  /** Lines 2924-2927: mark the last cluster and release those behind it. */
  method ReleaseBehind(fs: Volume, curr: nat, ncl: nat) returns (ok: bool)
    requires fs.Valid() && 2 <= curr < fs.g.nFatent && 2 <= ncl < fs.g.nFatent
    modifies fs`dev, fs`winsect, fs`wflag, fs`fsiFlag, fs`freeClust, fs.win
    ensures fs.Valid() && SameOutsideFat(fs.g, old(fs.Logical()), fs.Logical()) && fs.g.InFat(fs.winsect)
    ensures curr < |old(fs.Fat())|
    ensures var v := old(fs.Fat())[curr := EndMark(fs.g.kind)];
            && fs.Fat() == Zeroed(v, Path(v, ncl))
            && (ok <==> Stop(v, ncl) >= |v| || v[Stop(v, ncl)] != 1)
            && fs.freeClust == Credited(old(fs.freeClust), |Path(v, ncl)|)
  {
    hide *;
    EndMarkIs(fs.g.kind);
    ghost var d := fs.Logical();
    ok := fs.PutFat(curr, END_MARK);
    ghost var d1 := fs.Logical();
    ok := RemoveChain(fs, ncl);
    OutsideTwice(fs.g, d, d1, fs.Logical());
  }

  lemma EndMarkIs(kind: FatType)
    ensures END_MARK % EntryLimit(kind) == EndMark(kind)
  {
  }

  lemma OutsideSame(g: Geometry, d: seq<Sector>)
    ensures SameOutsideFat(g, d, d)
  {
  }

  lemma CutToIs(kind: FatType, t: seq<nat>, ch: seq<nat>, k: nat)
    requires Follows(t, ch) && k <= |ch|
    ensures CutTo(kind, t, ch, k) == if k == 0 then Zeroed(t, ch) else CutAfter(kind, t, ch, k)
    ensures ch[..0] == []
  {
  }

  /** The file's links after its chain got shorter. */
  lemma RelinkShorter(fp: File, p: seq<nat>, k: nat, w: nat)
    requires fp.fs.Valid() && fp.fs.g.DataFits() && fp.buf.Length == SS && fp.buf != fp.fs.win
    requires ChainHeld(fp.fs.Fat(), fp.ch, fp.orgClust) && k <= |p| && fp.ch == p[..k]
    requires fp.fs.g.InFat(fp.fs.winsect) || (fp.fs.winsect == w && w !in Sectors(fp.fs.g, p))
    ensures fp.Linked()
  {
    HeldSectors(fp.fs.g, fp.fs.Fat(), fp.ch, fp.orgClust);
    PrefixIn(fp.fs.g, fp.ch, p);
  }

  lemma HeldFollows(t: seq<nat>, ch: seq<nat>, org: nat)
    requires ChainHeld(t, ch, org)
    ensures Follows(t, ch)
  {
  }

  /** Lines 2913-2929: the file is longer than its file pointer. */
  method Cut(fp: File)
    requires fp.Core() && fp.Valid() && fp.fsize > fp.fptr
    modifies fp.fs`dev, fp.fs`winsect, fp.fs`wflag, fp.fs`fsiFlag, fp.fs`freeClust, fp.fs.win
    modifies fp`ch, fp`orgClust, fp`fsize, fp`written
    ensures fp.Linked() && fp.fs.Valid() && fp.fs.g.csize > 0 && Follows(old(fp.fs.Fat()), old(fp.ch))
    ensures fp.fsize == fp.fptr && fp.written
    ensures var k := ClustersFor(fp.fptr, fp.fs.g.csize);
            && k <= |old(fp.ch)| && fp.ch == old(fp.ch)[..k]
            && fp.fs.Fat() == CutTo(fp.fs.g.kind, old(fp.fs.Fat()), old(fp.ch), k)
            && fp.fs.freeClust == Credited(old(fp.fs.freeClust), |old(fp.ch)| - k)
    ensures SameOutsideFat(fp.fs.g, old(fp.fs.Logical()), fp.fs.Logical())
    ensures fp.fptr <= SS * |fp.Secs()| && OnDisk(fp.Secs(), fp.fs.g.sectors) && fp.buf.Length == SS
    ensures Bytes(ViewOf(fp.fs.Logical(), fp.dirty, fp.dsect, fp.buf[..]), fp.Secs(), fp.fptr)
            == old(fp.Content())[..fp.fptr]
    ensures var kept := KeptSectors(fp.fs.g, old(fp.ch), fp.fptr);
            && (fp.Valid() <==> BufferIn(kept, fp.dsect))
            && (!BufferIn(kept, fp.dsect) ==> InFreeCluster(fp.fs.g, fp.fs.Fat(), fp.dsect))
  {
    hide *;
    fp.ValidFacts();
    fp.ReadyFacts();
    fp.CoreFacts();
    ghost var p, d, secs, b, t := fp.ch, fp.fs.Logical(), fp.Secs(), fp.buf[..], fp.fs.Fat();
    ghost var v, c := fp.View(), fp.Content();
    CutSize(fp.fs.g, p, fp.currClust, fp.fptr, fp.fsize);
    fp.fsize := fp.fptr;
    fp.CoreIntro();
    var ok;
    if fp.fptr == 0 {
      ok := CutAway(fp);
      assert p[..0] == [];
    } else {
      ok := CutBehind(fp, ClusterIx(fp.fptr - 1, fp.fs.g.csize) + 1);
    }
    fp.written := true;
    AtEdgeIs(secs, fp.fptr, fp.dsect);
    ShorterFile(fp, d, p, secs, b);
    KeptBytes(fp, d, p, v, b, c);
    Discarded(fp, t, p, old(fp.orgClust));
  }

  /** The clusters the file keeps are among those it has. */
  lemma CutSize(g: Geometry, p: seq<nat>, curr: nat, fptr: nat, fsize: nat)
    requires 0 < g.csize && fptr < fsize <= SS * |Sectors(g, p)| && (0 < fptr ==> CurrOk(p, g.csize, curr, fptr - 1))
    ensures p != [] && ClustersFor(fptr, g.csize) <= |p|
    ensures 0 < fptr ==> ClustersFor(fptr, g.csize) == ClusterIx(fptr - 1, g.csize) + 1
                         && curr == p[ClusterIx(fptr - 1, g.csize)]
    ensures fptr == 0 ==> ClustersFor(fptr, g.csize) == 0
  {
  }

  /** Off a sector boundary the buffered sector is that of byte `fptr`. */
  ghost predicate AtEdge(secs: seq<nat>, fptr: nat, dsect: nat) {
    fptr % SS != 0 ==> fptr / SS < |secs| && dsect == secs[fptr / SS]
  }

  lemma AtEdgeIs(secs: seq<nat>, fptr: nat, dsect: nat)
    ensures AtEdge(secs, fptr, dsect) <==> (fptr % SS != 0 ==> fptr / SS < |secs| && dsect == secs[fptr / SS])
  {
  }

  /** When the file object still describes a file after the cut. */
  lemma ShorterFile(fp: File, d: seq<Sector>, p: seq<nat>, secs: seq<nat>, b: seq<byte>)
    requires fp.fs.Valid() && fp.Linked() && fp.fs.g.csize > 0 && fp.fptr == fp.fsize && b == fp.buf[..]
    requires SameOutsideFat(fp.fs.g, d, fp.fs.Logical()) && secs == Sectors(fp.fs.g, p)
    requires BufferOk(d, secs, fp.dsect, fp.dirty, b) && OnDisk(secs, |d|)
    requires forall s | s in secs :: !fp.fs.g.InAnyFat(s)
    requires AtEdge(secs, fp.fptr, fp.dsect)
    requires fp.fptr > 0 ==> CurrOk(p, fp.fs.g.csize, fp.currClust, fp.fptr - 1)
    requires var k := ClustersFor(fp.fptr, fp.fs.g.csize); k <= |p| && fp.ch == p[..k]
    ensures fp.Valid() <==> BufferIn(KeptSectors(fp.fs.g, p, fp.fptr), fp.dsect)
    ensures fp.fptr <= SS * |fp.Secs()| && fp.Secs() == KeptSectors(fp.fs.g, p, fp.fptr)
    ensures OnDisk(fp.Secs(), fp.fs.g.sectors)
  {
    hide *;
    ShorterPlace(fp.fs.g, p, secs, fp.currClust, fp.fptr, fp.dsect);
    fp.LinkedFacts();
    KeptIs(fp.fs.g, p, fp.fptr);
    StillDescribed(fp, d, secs, b);
  }

  lemma StillDescribed(fp: File, d: seq<Sector>, secs: seq<nat>, b: seq<byte>)
    requires fp.Linked() && fp.fs.Valid() && fp.fs.g.csize > 0 && fp.fptr == fp.fsize && b == fp.buf[..]
    requires SameOutsideFat(fp.fs.g, d, fp.fs.Logical()) && BufferOk(d, secs, fp.dsect, fp.dirty, b)
    requires (forall s | s in secs :: !fp.fs.g.InAnyFat(s)) && fp.fptr <= SS * |fp.Secs()|
    requires AtEdge(fp.Secs(), fp.fptr, fp.dsect)
    requires fp.fptr > 0 ==> CurrOk(fp.ch, fp.fs.g.csize, fp.currClust, fp.fptr - 1)
    ensures fp.Valid() <==> BufferIn(fp.Secs(), fp.dsect)
  {
    hide *;
    if fp.Valid() {
      ValidBuffer(fp);
    } else if BufferIn(fp.Secs(), fp.dsect) {
      BufferStays(fp, d, secs, b);
      ValidAgain(fp);
    }
  }

  lemma ValidBuffer(fp: File)
    requires fp.Valid()
    ensures BufferIn(fp.Secs(), fp.dsect)
  {
    hide *;
    fp.ValidFacts();
    fp.CoreFacts();
    BufferFacts(fp.fs.Logical(), fp.Secs(), fp.dsect, fp.dirty, fp.buf[..]);
    BufferInIs(fp.Secs(), fp.dsect);
  }

  lemma BufferStays(fp: File, d: seq<Sector>, secs: seq<nat>, b: seq<byte>)
    requires fp.fs.Valid() && SameOutsideFat(fp.fs.g, d, fp.fs.Logical()) && b == fp.buf[..]
    requires BufferOk(d, secs, fp.dsect, fp.dirty, b) && forall s | s in secs :: !fp.fs.g.InAnyFat(s)
    requires BufferIn(fp.Secs(), fp.dsect)
    ensures BufferOk(fp.fs.Logical(), fp.Secs(), fp.dsect, fp.dirty, fp.buf[..])
  {
    hide *;
    BufferInIs(fp.Secs(), fp.dsect);
    ShorterBuffer(fp.fs.g, d, fp.fs.Logical(), secs, fp.Secs(), fp.dsect, fp.dirty, b);
  }

  lemma ValidAgain(fp: File)
    requires fp.Linked() && fp.fs.Valid() && fp.fs.g.csize > 0 && fp.fptr == fp.fsize
    requires BufferOk(fp.fs.Logical(), fp.Secs(), fp.dsect, fp.dirty, fp.buf[..]) && fp.fptr <= SS * |fp.Secs()|
    requires AtEdge(fp.Secs(), fp.fptr, fp.dsect)
    requires fp.fptr > 0 ==> CurrOk(fp.ch, fp.fs.g.csize, fp.currClust, fp.fptr - 1)
    ensures fp.Valid()
  {
    hide *;
    fp.LinkedFacts();
    AtEdgeIs(fp.Secs(), fp.fptr, fp.dsect);
    fp.CoreIntro();
    fp.ReadyIntro();
    fp.ValidIntro();
  }

  lemma BufferInIs(secs: seq<nat>, dsect: nat)
    ensures BufferIn(secs, dsect) <==> dsect == 0 || dsect in secs
  {
  }

  /** The bytes of the file before its file pointer are not touched, whatever becomes of the buffer. */
  lemma KeptBytes(fp: File, d: seq<Sector>, p: seq<nat>, v: seq<Sector>, b: seq<byte>, c: seq<byte>)
    requires fp.fs.Valid() && fp.Linked() && fp.fs.g.csize > 0 && b == fp.buf[..] && |b| == SS
    requires SameOutsideFat(fp.fs.g, d, fp.fs.Logical()) && v == ViewOf(d, fp.dirty, fp.dsect, b)
    requires ClustersFor(fp.fptr, fp.fs.g.csize) <= |p| && fp.Secs() == KeptSectors(fp.fs.g, p, fp.fptr)
    requires OnDisk(Sectors(fp.fs.g, p), |d|) && |c| <= SS * |Sectors(fp.fs.g, p)| && fp.fptr <= |c|
    requires c == Bytes(v, Sectors(fp.fs.g, p), |c|) && fp.fptr <= SS * |fp.Secs()|
    requires OnDisk(fp.Secs(), fp.fs.g.sectors)
    ensures OnDisk(fp.Secs(), |fp.fs.Logical()|)
    ensures Bytes(ViewOf(fp.fs.Logical(), fp.dirty, fp.dsect, fp.buf[..]), fp.Secs(), fp.fptr) == c[..fp.fptr]
  {
    hide *;
    fp.LinkedFacts();
    var secs, n := Sectors(fp.fs.g, p), ClustersFor(fp.fptr, fp.fs.g.csize) * fp.fs.g.csize;
    KeptFacts(fp.fs.g, p, fp.fptr);
    FirstBytes(fp.fs.g, d, fp.fs.Logical(), secs, n, fp.dirty, fp.dsect, b, fp.fptr, |c|);
  }

  lemma KeptFacts(g: Geometry, p: seq<nat>, n: nat)
    requires 0 < g.csize && ClustersFor(n, g.csize) <= |p|
    ensures var m := ClustersFor(n, g.csize) * g.csize;
            m <= |Sectors(g, p)| && KeptSectors(g, p, n) == Sectors(g, p)[..m]
  {
    SectorsPrefix(g, p, ClustersFor(n, g.csize));
  }

  lemma FirstBytes(g: Geometry, d: seq<Sector>, e: seq<Sector>, secs: seq<nat>, m: nat, dirty: bool, dsect: nat,
                   b: seq<byte>, n: nat, all: nat)
    requires SameOutsideFat(g, d, e) && |b| == SS && OnDisk(secs, |d|) && m <= |secs|
    requires n <= all <= SS * |secs| && n <= SS * m
    requires forall s | s in secs[..m] :: !g.InAnyFat(s)
    ensures OnDisk(secs[..m], |e|)
    ensures Bytes(ViewOf(e, dirty, dsect, b), secs[..m], n) == Bytes(ViewOf(d, dirty, dsect, b), secs, all)[..n]
  {
    var v, w := ViewOf(d, dirty, dsect, b), ViewOf(e, dirty, dsect, b);
    var less := secs[..m];
    forall k | 0 <= k < m ensures v[less[k]] == w[less[k]] {
      assert less[k] in less;
    }
    BytesFrame(w, v, less, secs, n);
    assert Bytes(v, secs, n) == Bytes(v, secs, all)[..n];
  }

  /** A buffer that was not kept holds a sector of a cluster that is free now. */
  lemma Discarded(fp: File, t: seq<nat>, p: seq<nat>, org: nat)
    requires fp.fs.g.Valid() && fp.fs.g.csize > 0 && ChainHeld(t, p, org) && |t| == fp.fs.g.nFatent && Follows(t, p)
    requires ClustersFor(fp.fptr, fp.fs.g.csize) <= |p| && (fp.dsect != 0 ==> fp.dsect in Sectors(fp.fs.g, p))
    ensures !BufferIn(KeptSectors(fp.fs.g, p, fp.fptr), fp.dsect) ==>
              InFreeCluster(fp.fs.g, CutTo(fp.fs.g.kind, t, p, ClustersFor(fp.fptr, fp.fs.g.csize)), fp.dsect)
  {
    hide *;
    var g, k := fp.fs.g, ClustersFor(fp.fptr, fp.fs.g.csize);
    KeptIs(g, p, fp.fptr);
    BufferInIs(KeptSectors(g, p, fp.fptr), fp.dsect);
    EndMarkFits(g);
    if !BufferIn(KeptSectors(g, p, fp.fptr), fp.dsect) {
      BehindTheCut(g, g.kind, t, p, org, k, fp.dsect);
    }
  }

  /** The sectors kept are the first ones, and the file pointer stays within them. */
  lemma ShorterPlace(g: Geometry, p: seq<nat>, secs: seq<nat>, curr: nat, fptr: nat, dsect: nat)
    requires 0 < g.csize && secs == Sectors(g, p) && ClustersFor(fptr, g.csize) <= |p|
    requires (fptr > 0 ==> CurrOk(p, g.csize, curr, fptr - 1)) && AtEdge(secs, fptr, dsect)
    ensures var ch := p[..ClustersFor(fptr, g.csize)];
            && fptr <= SS * |Sectors(g, ch)|
            && (fptr > 0 ==> CurrOk(ch, g.csize, curr, fptr - 1))
            && AtEdge(Sectors(g, ch), fptr, dsect)
  {
    var ch := p[..ClustersFor(fptr, g.csize)];
    if fptr > 0 {
      ByteCluster(g, ch, fptr - 1);
    }
    if fptr % SS != 0 {
      assert (fptr - 1) / SS == fptr / SS;
      SectorAt(g, ch, fptr / SS);
      SectorAt(g, p, fptr / SS);
    }
  }

  lemma ShorterBuffer(g: Geometry, d: seq<Sector>, e: seq<Sector>, secs: seq<nat>, less: seq<nat>,
                      dsect: nat, dirty: bool, b: seq<byte>)
    requires BufferOk(d, secs, dsect, dirty, b) && SameOutsideFat(g, d, e)
    requires forall s | s in secs :: !g.InAnyFat(s)
    requires dsect == 0 || dsect in less
    ensures BufferOk(e, less, dsect, dirty, b)
  {
  }

  /** Lines 2895-2934.  The file keeps exactly the clusters its new size needs, with its bytes up to
      there.  The buffer is not looked at: when it holds a sector behind the kept ones, that sector now
      lies in a free cluster and the file object no longer describes a file of its own. */
  method Truncate(fp: File) returns (res: Status)
    requires fp.Core() && fp.Valid()
    modifies fp.fs`dev, fp.fs`winsect, fp.fs`wflag, fp.fs`fsiFlag, fp.fs`freeClust, fp.fs.win
    modifies fp`ch, fp`orgClust, fp`fsize, fp`written
    ensures res == if fp.writable then Ok else Denied
    ensures fp.Linked() && fp.fs.Valid() && fp.fs.g.csize > 0 && Follows(old(fp.fs.Fat()), old(fp.ch))
    ensures fp.fptr <= SS * |fp.Secs()| && OnDisk(fp.Secs(), fp.fs.g.sectors) && fp.buf.Length == SS
    ensures var cut := fp.writable && old(fp.fsize) > fp.fptr;
            && fp.fsize == (if cut then fp.fptr else old(fp.fsize)) && fp.written == (old(fp.written) || cut)
            && if cut then
                 var k := ClustersFor(fp.fptr, fp.fs.g.csize);
                 && k <= |old(fp.ch)| && fp.ch == old(fp.ch)[..k]
                 && fp.fs.Fat() == CutTo(fp.fs.g.kind, old(fp.fs.Fat()), old(fp.ch), k)
                 && fp.fs.freeClust == Credited(old(fp.fs.freeClust), |old(fp.ch)| - k)
                 && var kept := KeptSectors(fp.fs.g, old(fp.ch), fp.fptr);
                    && (fp.Valid() <==> BufferIn(kept, old(fp.dsect)))
                    && (!BufferIn(kept, old(fp.dsect)) ==> InFreeCluster(fp.fs.g, fp.fs.Fat(), fp.dsect))
               else fp.Valid() && fp.ch == old(fp.ch) && fp.fs.Fat() == old(fp.fs.Fat())
    ensures Bytes(ViewOf(fp.fs.Logical(), fp.dirty, fp.dsect, fp.buf[..]), fp.Secs(), fp.fptr)
            == old(fp.Content())[..fp.fptr]
    ensures fp.Valid() ==> fp.Content() == old(fp.Content())[..fp.fsize]
    ensures SameOutsideFat(fp.fs.g, old(fp.fs.Logical()), fp.fs.Logical())
  {
    hide *;
    fp.ValidFacts();
    fp.CoreFacts();
    ghost var t, p, d, c := fp.fs.Fat(), fp.ch, fp.fs.Logical(), fp.Content();
    HeldFollows(t, p, fp.orgClust);
    res := if fp.writable then Ok else Denied;
    OutsideSame(fp.fs.g, d);
    fp.KnownLinked();
    if fp.writable && fp.fsize > fp.fptr {
      Cut(fp);
      ContentAfter(fp);
    } else {
      BytesUpTo(fp.View(), fp.Secs(), fp.fptr, fp.fsize);
      assert c[..fp.fsize] == c;
    }
  }

  lemma BytesUpTo(v: seq<Sector>, secs: seq<nat>, n: nat, m: nat)
    requires n <= m <= SS * |secs| && OnDisk(secs, |v|)
    ensures Bytes(v, secs, n) == Bytes(v, secs, m)[..n]
  {
  }

  lemma ContentAfter(fp: File)
    requires fp.Linked() && fp.fptr == fp.fsize && fp.buf.Length == SS && fp.fptr <= SS * |fp.Secs()|
    requires OnDisk(fp.Secs(), fp.fs.g.sectors)
    ensures |fp.fs.Logical()| == fp.fs.g.sectors
    ensures fp.Valid() ==>
              fp.Content() == Bytes(ViewOf(fp.fs.Logical(), fp.dirty, fp.dsect, fp.buf[..]), fp.Secs(), fp.fptr)
  {
    hide *;
    fp.LinkedFacts();
    if fp.Valid() {
      fp.ValidFacts();
      fp.CoreFacts();
    }
  }

  /** Off a sector boundary the buffer holds a sector. */
  lemma InBuffer(fp: File)
    requires fp.Core() && fp.Valid() && fp.fptr % SS != 0
    ensures fp.dsect != 0
  {
    hide *;
    fp.ValidFacts();
    fp.ReadyFacts();
    fp.CoreFacts();
    assert fp.Secs()[fp.fptr / SS] in fp.Secs();
  }

  lemma OneByte()
    ensures 1 < U32 && 1 % SS != 0
  {
  }

  lemma SeekToStart(secs: seq<nat>, ch: seq<nat>, csize: nat, v: seq<Sector>, b: Place, e: Place)
    requires 0 < csize && Sought(0, secs, ch, csize, v, b, e)
    ensures e.fptr == 0 && e.dsect == b.dsect && e.dirty == b.dirty
  {
  }

  lemma NothingKept(g: Geometry, ch: seq<nat>, dsect: nat)
    requires 0 < g.csize
    ensures ClustersFor(0, g.csize) == 0 && (BufferIn(KeptSectors(g, ch, 0), dsect) <==> dsect == 0)
  {
  }

  /** A single byte written at the start of a file, a seek back and a cut: the buffer stays dirty for a
      sector of a cluster that is free again, so that the next write-back of this file overwrites
      whatever file the cluster is given to meanwhile. */
  method WriteRewindTruncate(fp: File, x: byte) returns (bw: nat)
    requires fp.Core() && fp.Valid() && fp.writable && fp.fptr == 0
    modifies fp.fs`dev, fp.fs`winsect, fp.fs`wflag, fp.fs`fsiFlag, fp.fs`freeClust, fp.fs`lastClust, fp.fs.win, fp.buf
    modifies fp`ch, fp`orgClust, fp`currClust, fp`fptr, fp`fsize, fp`dsect, fp`dirty, fp`written
    ensures fp.fs.Valid() && bw <= 1
    ensures bw == 1 || old(fp.fsize) + 1 >= U32 || Free(fp.fs.Fat()) == {}
    ensures bw == 1 ==> !fp.Valid() && fp.dirty && InFreeCluster(fp.fs.g, fp.fs.Fat(), fp.dsect)
  {
    hide *;
    OneByte();
    fp.ValidFacts();
    var res;
    res, bw := fp.Write([x]);
    fp.CoreFacts();
    if bw == 1 {
      InBuffer(fp);
      fp.ValidFacts();
      HereIs(fp);
      ghost var v, b := fp.View(), Here(fp);
      NormalSeek(fp, 0);
      HereIs(fp);
      SeekToStart(fp.Secs(), fp.ch, fp.fs.g.csize, v, b, Here(fp));
      NothingKept(fp.fs.g, fp.ch, fp.dsect);
      res := Truncate(fp);
    }
  }
}
