/** Open files (ff.c, f_read, f_write, f_truncate): a one-sector buffer over the file's cluster
    chain, proved against the file as a sequence of bytes. */
module FatFile {
  import opened Lists
  import opened FatLayout
  import opened FatWindow
  import opened FatChains
  import opened ChainRuns
  import opened FileLayout

  datatype Status = Ok | Denied | IntErr

  ghost predicate NoInvalid(t: seq<nat>) {
    forall c | 2 <= c < |t| :: t[c] != 1
  }

  /** `ch` is the chain that starts at `org`; 0 stands for a file without clusters. */
  ghost predicate ChainHeld(t: seq<nat>, ch: seq<nat>, org: nat) {
    && 3 <= |t| && NoInvalid(t) && (ch == [] <==> org == 0)
    && (ch != [] ==> org == ch[0] && IsChain(t, ch))
  }

  /** Chain `p` of table `t` has become `r` by appending clusters that were free. */
  ghost predicate Grows(t: seq<nat>, u: seq<nat>, p: seq<nat>, r: seq<nat>) {
    && |u| == |t| && p <= r && (r == p ==> u == t)
    && (forall c | 0 <= c < |t| && c !in r :: u[c] == t[c])
    && forall i | |p| <= i < |r| :: r[i] < |t| && t[r[i]] == 0
  }

  lemma GrowsNothing(t: seq<nat>, p: seq<nat>)
    ensures Grows(t, t, p, p)
  {
  }

  lemma GrowsTwice(t: seq<nat>, u: seq<nat>, w: seq<nat>, p: seq<nat>, q: seq<nat>, r: seq<nat>)
    requires Grows(t, u, p, q) && Grows(u, w, q, r) && forall c | c in q :: c < |u| ==> u[c] != 0
    ensures Grows(t, w, p, r)
  {
    forall c | 0 <= c < |t| && c !in r ensures w[c] == t[c] {
      assert c !in q;
    }
    forall i | |p| <= i < |r| ensures r[i] < |t| && t[r[i]] == 0 {
      if i < |q| {
        assert r[i] == q[i];
      } else {
        assert u[r[i]] == 0;
        assert r[i] !in q;
      }
    }
  }

  /** Growth is an exchange of one chain for another, so it keeps a FAT made of chains. */
  lemma GrowthKeepsChains(t: seq<nat>, u: seq<nat>, cs: set<seq<nat>>, p: seq<nat>, r: seq<nat>)
    requires MadeOf(t, cs) && (p in cs || p == []) && Grows(t, u, p, r) && (r == p || IsChain(u, r))
    ensures MadeOf(u, if r == p then cs else cs - {p} + {r})
  {
    hide MadeOf, IsChain;
    if r != p {
      forall c | c in r && c !in p ensures c < |t| && t[c] == 0 {
        assert r == p + r[|p|..];
        var i :| 0 <= i < |r| - |p| && r[|p|..][i] == c;
        assert r[|p| + i] == c;
      }
      assert forall c | c in p :: c in r;
      ExchangeChain(t, u, cs, p, r);
    }
  }

  /** The two disks agree outside the FAT area and the sectors `secs`. */
  ghost predicate Untouched(g: Geometry, d: seq<Sector>, e: seq<Sector>, secs: seq<nat>) {
    |d| == |e| && forall s | 0 <= s < |d| && !g.InAnyFat(s) && s !in secs :: d[s] == e[s]
  }

  /** A sector outside the file and behind or before the copies of the FAT is as it was. */
  lemma OutsideKept(g: Geometry, d: seq<Sector>, e: seq<Sector>, secs: seq<nat>, s: nat)
    requires Untouched(g, d, e, secs) && s < |d| && s !in secs
    requires s < g.fatbase || s >= g.fatbase + (if g.nFats == 2 then g.fsize + g.fsize else g.fsize)
    ensures |e| == |d| && e[s] == d[s]
  {
  }

  /** The disk under a dirty file buffer. */
  ghost function ViewOf(d: seq<Sector>, dirty: bool, dsect: nat, b: seq<byte>): (v: seq<Sector>)
    requires |b| == SS
    ensures |v| == |d|
  {
    if dirty && dsect < |d| then d[dsect := b] else d
  }

  /** The buffer holds a sector of the file, and holds it unchanged unless it is dirty. */
  ghost predicate BufferOk(d: seq<Sector>, secs: seq<nat>, dsect: nat, dirty: bool, b: seq<byte>) {
    && |b| == SS && (dsect != 0 ==> dsect in secs) && (dirty ==> dsect != 0)
    && (!dirty && dsect != 0 ==> dsect < |d| && b == d[dsect])
  }

  /** The place in its chain of the cluster that holds byte `b`. */
  function ClusterIx(b: nat, csize: nat): nat
    requires 0 < csize
  {
    b / SS / csize
  }

  /** The sector within the cluster of the sector that holds byte `b`. */
  function Csect(b: nat, csize: nat): (r: nat)
    requires 0 < csize
    ensures r < csize
  {
    b / SS % csize
  }

  /** `curr` is the cluster of `ch` that holds byte `b`. */
  ghost predicate CurrOk(ch: seq<nat>, csize: nat, curr: nat, b: nat)
    requires 0 < csize
  {
    ClusterIx(b, csize) < |ch| && curr == ch[ClusterIx(b, csize)]
  }

  lemma HeldSectors(g: Geometry, t: seq<nat>, ch: seq<nat>, org: nat)
    requires g.Valid() && g.DataFits() && |t| == g.nFatent && ChainHeld(t, ch, org)
    ensures var secs := Sectors(g, ch);
            && Distinct(secs) && OnDisk(secs, g.sectors)
            && forall s | s in secs :: g.database <= s && !g.InAnyFat(s)
  {
    if ch != [] {
      SectorsDistinct(g, ch);
      assert forall k | 0 <= k < |Sectors(g, ch)| :: Sectors(g, ch)[k] in Sectors(g, ch);
    }
  }

  /** The sector of byte `b`, from the cluster that holds it. */
  lemma CurrSector(g: Geometry, ch: seq<nat>, curr: nat, b: nat)
    requires 0 < g.csize && CurrOk(ch, g.csize, curr, b) && b < SS * |Sectors(g, ch)|
    ensures b / SS < |Sectors(g, ch)|
    ensures Sectors(g, ch)[b / SS] == Clust2Sect(g, curr) + Csect(b, g.csize)
  {
    SectorAt(g, ch, b / SS);
  }

  /** Bytes fptr - 1 and fptr lie in the same cluster, or fptr starts the next one. */
  lemma NextByte(csize: nat, fptr: nat)
    requires 0 < csize && 0 < fptr && fptr % SS == 0
    ensures Csect(fptr, csize) != 0 ==> ClusterIx(fptr - 1, csize) == ClusterIx(fptr, csize)
    ensures Csect(fptr, csize) == 0 ==> ClusterIx(fptr - 1, csize) + 1 == ClusterIx(fptr, csize)
  {
    var k := fptr / SS;
    assert (fptr - 1) / SS == k - 1;
    var q, r := k / csize, k % csize;
    assert k == csize * q + r;
    if r != 0 {
      ModUnique(k - 1, csize, q, r - 1);
    } else {
      assert csize * q == csize * (q - 1) + csize;
      ModUnique(k - 1, csize, q - 1, csize - 1);
    }
  }

  /** A byte's cluster exists while the byte lies within the chain's sectors. */
  lemma ByteCluster(g: Geometry, ch: seq<nat>, b: nat)
    requires 0 < g.csize
    ensures b < SS * |Sectors(g, ch)| <==> ClusterIx(b, g.csize) < |ch|
    ensures b == 0 ==> ClusterIx(b, g.csize) == 0 == Csect(b, g.csize)
  {
    SectorsLength(g, ch);
    if b < SS * |Sectors(g, ch)| {
      SectorAt(g, ch, b / SS);
    } else {
      var k := b / SS;
      assert |ch| * g.csize <= k;
      QuotientAtLeast(k, g.csize, |ch|);
    }
  }

  lemma QuotientAtLeast(k: nat, m: nat, n: nat)
    requires 0 < m && n * m <= k
    ensures n <= k / m
  {
    assert k == m * (k / m) + k % m;
    MulBound(m, n - k / m);
    assert m * (n - k / m) == n * m - m * (k / m);
  }

  /** What create_chain answers for a cluster in the middle of a chain, and at its end. */
  lemma StretchAt(t: seq<nat>, ch: seq<nat>, i: nat, last: nat)
    requires 3 <= |t| && IsChain(t, ch) && i < |ch|
    ensures i + 1 < |ch| ==> !NeedsCluster(t, ch[i]) && CreateResult(t, ch[i], last) == ch[i + 1] >= 2
    ensures i + 1 == |ch| ==> NeedsCluster(t, ch[i])
  {
    if i + 1 < |ch| {
      assert t[ch[i]] == ch[i + 1];
    }
  }

  /** A fresh cluster at the end of the chain. */
  lemma FreshCluster(g: Geometry, t: seq<nat>, ch: seq<nat>, org: nat, last: nat)
    requires g.Valid() && |t| == g.nFatent && ChainHeld(t, ch, org)
    ensures var tail := if ch == [] then 0 else ch[|ch| - 1];
            && NeedsCluster(t, tail) && tail < |t|
            && var c := CreateResult(t, tail, last);
               && (c < 2 <==> Free(t) == {}) && c != 1 && c < |t|
               && (c >= 2 ==>
                     var u := Grown(g.kind, t, tail, c);
                     ChainHeld(u, ch + [c], (ch + [c])[0]) && Grows(t, u, ch, ch + [c]))
  {
    var tail := if ch == [] then 0 else ch[|ch| - 1];
    var scl := ScanStart(|t|, tail, last);
    ScanFindsTheFirstFree(t, scl, 0);
    ScanFailsIffFull(t, scl);
    var c := CreateResult(t, tail, last);
    FreeOrFull(t);
    EndMarkFits(g);
    if c >= 2 {
      if ch == [] {
        SingleChain(g.kind, t, c);
      } else {
        GrowChain(g.kind, t, ch, c);
      }
      GrownAppends(g.kind, t, ch, c);
    }
  }

  lemma HeldChain(t: seq<nat>, ch: seq<nat>, org: nat, i: nat)
    requires ChainHeld(t, ch, org) && i < |ch|
    ensures org == ch[0] && (i > 0 ==> 2 <= ch[i - 1] < |t| && t[ch[i - 1]] == ch[i])
  {
  }

  /** Following the chain from the cluster of byte fptr - 1 to that of byte fptr. */
  lemma ReachCluster(g: Geometry, t: seq<nat>, ch: seq<nat>, org: nat, curr: nat, fptr: nat)
    requires 0 < g.csize && ChainHeld(t, ch, org) && fptr % SS == 0 && fptr < SS * |Sectors(g, ch)|
    requires fptr > 0 ==> CurrOk(ch, g.csize, curr, fptr - 1)
    ensures Csect(fptr, g.csize) != 0 ==> CurrOk(ch, g.csize, curr, fptr)
    ensures Csect(fptr, g.csize) == 0 && fptr == 0 ==> CurrOk(ch, g.csize, org, fptr)
    ensures Csect(fptr, g.csize) == 0 && fptr > 0 ==> 2 <= curr < |t| && CurrOk(ch, g.csize, t[curr], fptr)
  {
    ByteCluster(g, ch, fptr);
    if fptr > 0 {
      NextByte(g.csize, fptr);
    }
    HeldChain(t, ch, org, ClusterIx(fptr, g.csize));
    hide ClusterIx, Csect, Sectors, ChainHeld;
  }

  /** Stretching the chain for byte fptr, which lies at most one past the chain's sectors. */
  lemma ReachOrAppend(g: Geometry, t: seq<nat>, ch: seq<nat>, org: nat, curr: nat, fptr: nat)
    requires 0 < g.csize && ChainHeld(t, ch, org) && fptr % SS == 0 && fptr <= SS * |Sectors(g, ch)|
    requires fptr > 0 ==> CurrOk(ch, g.csize, curr, fptr - 1)
    ensures Csect(fptr, g.csize) != 0 ==> CurrOk(ch, g.csize, curr, fptr) && fptr < SS * |Sectors(g, ch)|
    ensures Csect(fptr, g.csize) == 0 && fptr == 0 ==>
              if org == 0 then ch == [] && fptr == SS * |Sectors(g, ch)|
              else CurrOk(ch, g.csize, org, fptr) && fptr < SS * |Sectors(g, ch)|
    ensures Csect(fptr, g.csize) == 0 && fptr > 0 ==>
              && curr in ch && 2 <= curr < |t|
              && if t[curr] < |t| then CurrOk(ch, g.csize, t[curr], fptr) && fptr < SS * |Sectors(g, ch)|
                 else curr == ch[|ch| - 1] && fptr == SS * |Sectors(g, ch)|
  {
    ByteCluster(g, ch, fptr);
    if fptr > 0 {
      NextByte(g.csize, fptr);
      MidOrLast(t, ch, org, ClusterIx(fptr - 1, g.csize));
    }
    hide ClusterIx, Csect, Sectors, IsChain;
  }

  /** The byte after a chain's sectors is the first of the cluster appended to it. */
  lemma AppendedCluster(g: Geometry, p: seq<nat>, ch: seq<nat>, c: nat, fptr: nat)
    requires 0 < g.csize && ch == p + [c] && fptr == SS * |Sectors(g, p)|
    ensures CurrOk(ch, g.csize, c, fptr) && fptr < SS * |Sectors(g, ch)|
  {
    SectorsAppend(g, p, c);
    ByteCluster(g, p, fptr);
    ByteCluster(g, ch, fptr);
  }

  lemma MidOrLast(t: seq<nat>, ch: seq<nat>, org: nat, i: nat)
    requires ChainHeld(t, ch, org) && i < |ch|
    ensures ch[i] in ch && 2 <= ch[i] < |t|
    ensures i + 1 < |ch| ==> t[ch[i]] == ch[i + 1] < |t|
    ensures i + 1 == |ch| ==> t[ch[i]] >= |t|
  {
  }

  /** What changes in the FAT area and appended clusters leave alone: the file's buffer and bytes. */
  lemma GrowthKeepsBytes(g: Geometry, d: seq<Sector>, e: seq<Sector>, secs: seq<nat>, more: seq<nat>,
                         dirty: bool, dsect: nat, b: seq<byte>, n: nat)
    requires SameOutsideFat(g, d, e) && BufferOk(d, secs, dsect, dirty, b)
    requires |secs| <= |more| && (forall k | 0 <= k < |secs| :: more[k] == secs[k])
    requires OnDisk(secs, |d|) && OnDisk(more, |d|) && n <= SS * |secs|
    requires forall s | s in secs :: !g.InAnyFat(s)
    ensures BufferOk(e, more, dsect, dirty, b)
    ensures Bytes(ViewOf(e, dirty, dsect, b), more, n) == Bytes(ViewOf(d, dirty, dsect, b), secs, n)
    ensures Untouched(g, ViewOf(d, dirty, dsect, b), ViewOf(e, dirty, dsect, b), [])
  {
    var v, w := ViewOf(d, dirty, dsect, b), ViewOf(e, dirty, dsect, b);
    forall k | 0 <= k < |secs| ensures w[secs[k]] == v[secs[k]] {
      assert secs[k] in secs;
    }
    if dsect != 0 {
      var k :| 0 <= k < |secs| && secs[k] == dsect;
      assert more[k] == dsect;
    }
    BytesFrame(v, w, secs, more, n);
  }

  /** What create_chain does for a file's chain. */
  lemma StretchOutcome(g: Geometry, t: seq<nat>, ch: seq<nat>, org: nat, clst: nat, last: nat)
    requires g.Valid() && |t| == g.nFatent && ChainHeld(t, ch, org)
    requires if ch == [] then clst == 0 else clst in ch
    ensures clst < |t| && (clst == 0 ==> org == 0)
    ensures var r := CreateResult(t, clst, last);
            if clst != 0 && t[clst] < |t| then !NeedsCluster(t, clst) && r == t[clst] >= 2
            else
              && NeedsCluster(t, clst) && r != 1 && r < |t| && (r == 0 ==> Free(t) == {})
              && (r != 0 ==>
                    var u := Grown(g.kind, t, clst, r);
                    && ChainHeld(u, ch + [r], if clst == 0 then r else org)
                    && Grows(t, u, ch, ch + [r]))
  {
    if ch != [] {
      var i :| 0 <= i < |ch| && ch[i] == clst;
      MidOrLast(t, ch, org, i);
      StretchAt(t, ch, i, last);
    }
    FreshCluster(g, t, ch, org, last);
    hide IsChain, CreateResult;
  }

  lemma FreeOrFull(t: seq<nat>)
    ensures Free(t) == {} <==> forall c | 2 <= c < |t| :: t[c] != 0
  {
    if Free(t) == {} {
      forall c | 2 <= c < |t| ensures t[c] != 0 {
        assert c !in Free(t);
      }
    }
  }

  lemma EndMarkFits(g: Geometry)
    requires g.Valid()
    ensures g.nFatent <= EndMark(g.kind) && EndMark(g.kind) >= 2
  {
  }

  lemma GrownAppends(kind: FatType, t: seq<nat>, ch: seq<nat>, c: nat)
    requires ch == [] || ch[|ch| - 1] < |t|
    requires 2 <= c < |t| && t[c] == 0 && EndMark(kind) >= 2 && NoInvalid(t)
    ensures var u := Grown(kind, t, if ch == [] then 0 else ch[|ch| - 1], c);
            Grows(t, u, ch, ch + [c]) && NoInvalid(u)
  {
    var tail := if ch == [] then 0 else ch[|ch| - 1];
    var u := Grown(kind, t, tail, c);
    assert c in ch + [c] && (ch != [] ==> tail in ch + [c]);
  }

  lemma UntouchedSame(g: Geometry, d: seq<Sector>)
    ensures Untouched(g, d, d, [])
  {
  }

  lemma UntouchedMore(g: Geometry, d: seq<Sector>, e: seq<Sector>, secs: seq<nat>)
    requires Untouched(g, d, e, [])
    ensures Untouched(g, d, e, secs)
  {
  }

  lemma UntouchedTwice(g: Geometry, d: seq<Sector>, e: seq<Sector>, f: seq<Sector>, secs: seq<nat>)
    requires Untouched(g, d, e, secs) && Untouched(g, e, f, secs)
    ensures Untouched(g, d, f, secs)
  {
  }

  /** The size check of f_write sees exactly the sums that wrap. */
  lemma WrapCheck(fsize: dword, n: nat)
    requires n < U32
    ensures (fsize + n) % U32 < fsize <==> fsize + n >= U32
  {
  }

  lemma SlicesJoin(data: seq<byte>, bw: nat, btw: nat, wcnt: nat)
    requires bw + btw <= |data| && wcnt <= btw
    ensures data[..bw] + data[bw..bw + btw][..wcnt] == data[..bw + wcnt]
  {
  }

  lemma HeldInUse(t: seq<nat>, ch: seq<nat>, org: nat)
    requires ChainHeld(t, ch, org)
    ensures forall c | c in ch :: c < |t| ==> t[c] != 0
  {
    forall c | c in ch ensures c < |t| ==> t[c] != 0 {
      InChain(t, ch, c);
    }
  }

  /** A chain that grew keeps its sectors. */
  lemma {:induction false} PrefixSectors(g: Geometry, t: seq<nat>, u: seq<nat>, p: seq<nat>, r: seq<nat>)
    requires Grows(t, u, p, r)
    ensures forall s | s in Sectors(g, p) :: s in Sectors(g, r)
  {
    PrefixIn(g, p, r);
  }

  lemma {:induction false} PrefixIn(g: Geometry, p: seq<nat>, r: seq<nat>)
    requires p <= r
    ensures forall s | s in Sectors(g, p) :: s in Sectors(g, r)
  {
    if p == r {
    } else {
      PrefixIn(g, p, r[..|r| - 1]);
    }
  }

  lemma UntouchedWider(g: Geometry, d: seq<Sector>, e: seq<Sector>, f: seq<Sector>, secs: seq<nat>, more: seq<nat>)
    requires Untouched(g, d, e, secs) && Untouched(g, e, f, more) && forall s | s in secs :: s in more
    ensures Untouched(g, d, f, more)
  {
  }

  /** The bytes to transfer within the sector of byte fptr. */
  function PartLength(fptr: nat, n: nat): (r: nat)
    requires 0 < n
    ensures 0 < r <= n && fptr % SS + r <= SS && (fptr + r - 1) / SS == fptr / SS
    ensures (fptr + r) % SS != 0 ==> (fptr + r) / SS == fptr / SS
  {
    if SS - fptr % SS > n then n else SS - fptr % SS
  }

  lemma WholeSectors(cc: nat, n: nat)
    ensures cc <= n / SS ==> SS * cc <= n
    ensures SS * cc % SS == 0 && SS * cc / SS == cc && (0 < cc ==> 0 < SS * cc)
  {
  }

  /** Over its own view a buffer shows its sector. */
  lemma BufferShows(d: seq<Sector>, secs: seq<nat>, dsect: nat, dirty: bool, b: seq<byte>, at: nat, n: nat)
    requires BufferOk(d, secs, dsect, dirty, b) && OnDisk(secs, |d|) && dsect != 0
    ensures dsect < |d|
    ensures var v := ViewOf(d, dirty, dsect, b); SameBut(d, v, dsect) && ShowsFile(v, dsect, b, at, n)
  {
    BufferFacts(d, secs, dsect, dirty, b);
  }

  lemma BufferFacts(d: seq<Sector>, secs: seq<nat>, dsect: nat, dirty: bool, b: seq<byte>)
    requires BufferOk(d, secs, dsect, dirty, b) && OnDisk(secs, |d|)
    ensures |b| == SS && (dsect != 0 ==> dsect in secs && dsect < |d|) && (dirty ==> dsect != 0)
    ensures ViewOf(d, dirty, dsect, b) == if dirty then d[dsect := b] else d
    ensures !dirty && dsect != 0 ==> b == d[dsect]
  {
    if dsect != 0 {
      var k :| 0 <= k < |secs| && secs[k] == dsect;
    }
  }

  lemma BufferClean(d: seq<Sector>, secs: seq<nat>, dsect: nat, b: seq<byte>)
    requires |b| == SS && (dsect != 0 ==> dsect in secs && dsect < |d| && d[dsect] == b)
    ensures BufferOk(d, secs, dsect, false, b) && ViewOf(d, false, dsect, b) == d
  {
  }

  /** `cc` whole sectors in a row on the disk. */
  method PutSectors(fs: Volume, sect: nat, data: seq<byte>, cc: nat)
    requires fs.Valid() && |data| == SS * cc && sect + cc <= fs.g.sectors
    requires forall x | sect <= x < sect + cc :: !fs.g.InAnyFat(x)
    requires !(sect <= fs.winsect < sect + cc)
    modifies fs`dev
    ensures fs.Valid() && fs.Fat() == old(fs.Fat()) && fs.Logical() == PutRun(old(fs.Logical()), sect, data, cc)
  {
    hide Volume.Valid, Volume.Logical, Volume.Fat, Volume.FatData, PutRun;
    ghost var d := fs.Logical();
    PutRunNone(d, sect, data);
    for j := 0 to cc
      invariant fs.Valid() && fs.Fat() == old(fs.Fat()) && fs.Logical() == PutRun(d, sect, data, j)
    {
      PutRunStep(d, sect, data, j);
      fs.PutSector(sect + j, data[SS * j..SS * j + SS]);
    }
  }

  method GetSectors(fs: Volume, sect: nat, cc: nat) returns (r: seq<byte>)
    requires fs.Valid() && sect + cc <= fs.g.sectors && (forall x | sect <= x < sect + cc :: !fs.g.InAnyFat(x))
    requires !(sect <= fs.winsect < sect + cc)
    ensures r == RunBytes(fs.Logical(), sect, cc)
  {
    hide Volume.Valid, Volume.Logical, RunBytes;
    ghost var d := fs.Logical();
    r := [];
    for j := 0 to cc
      invariant r == if j == 0 then [] else RunBytes(d, sect, j)
    {
      RunBytesStep(d, sect, j);
      var data := fs.GetSector(sect + j);
      r := r + data;
    }
    RunBytesNone(d, sect);
  }

  lemma RunBytesNone(d: seq<Sector>, s: nat)
    requires s <= |d|
    ensures RunBytes(d, s, 0) == []
  {
  }

  lemma RunInSecs(secs: seq<nat>, k: nat, cc: nat, n: nat)
    requires OnDisk(secs, n) && 0 < cc && k + cc <= |secs|
    requires forall x | k <= x < k + cc :: secs[x] == secs[k] + (x - k)
    ensures secs[k] + cc <= n && forall x | secs[k] <= x < secs[k] + cc :: x in secs
  {
    forall x | secs[k] <= x < secs[k] + cc ensures x in secs {
      assert secs[k + (x - secs[k])] == x;
    }
    assert secs[k + cc - 1] == secs[k] + cc - 1;
  }

  /** The wrapping subtraction that tests whether sector `t` is among those from `s` on. */
  lemma InWindow(t: nat, s: nat, cc: nat)
    requires t < U32 && s + cc <= U32
    ensures (t - s) % U32 < cc <==> s <= t < s + cc
  {
  }

  /** Whole sectors from byte fptr on, within its cluster. */
  lemma ClusterRun(g: Geometry, ch: seq<nat>, fptr: nat, cc: nat)
    requires 0 < g.csize && fptr / SS < |Sectors(g, ch)| && Csect(fptr, g.csize) + cc <= g.csize
    ensures var k, secs := fptr / SS, Sectors(g, ch);
            k + cc <= |secs| && forall x | k <= x < k + cc :: secs[x] == secs[k] + (x - k)
  {
    RunInCluster(g, ch, fptr / SS, cc);
  }

  lemma DirectOutcome(g: Geometry, d: seq<Sector>, secs: seq<nat>, n: nat, k: nat, cc: nat, data: seq<byte>,
                      dsect: nat, b: seq<byte>)
    requires BufferOk(d, secs, dsect, false, b) && OnDisk(secs, |d|) && Distinct(secs)
    requires 0 < cc && k + cc <= |secs| && |data| == SS * cc && SS * k <= n <= SS * |secs|
    requires forall x | k <= x < k + cc :: secs[x] == secs[k] + (x - k)
    ensures var e := PutRun(d, secs[k], data, cc);
            var b' := if secs[k] <= dsect < secs[k] + cc then data[SS * (dsect - secs[k])..SS * (dsect - secs[k]) + SS] else b;
            var m := if n < SS * k + SS * cc then SS * k + SS * cc else n;
            && BufferOk(e, secs, dsect, false, b') && Untouched(g, d, e, secs)
            && m <= SS * |secs| && ViewOf(e, false, dsect, b') == e && ViewOf(d, false, dsect, b) == d
            && Bytes(e, secs, m) == Splice(Bytes(d, secs, n), SS * k, data)
    ensures secs[k] + cc <= |d| && forall x | secs[k] <= x < secs[k] + cc :: x in secs
  {
    BytesOfRun(d, secs, n, k, cc, data);
    hide Bytes, Splice;
    forall x | secs[k] <= x < secs[k] + cc ensures x in secs {
      assert secs[k + (x - secs[k])] == x;
    }
    assert secs[k + cc - 1] == secs[k] + cc - 1;
    var e := PutRun(d, secs[k], data, cc);
    var b' := if secs[k] <= dsect < secs[k] + cc then data[SS * (dsect - secs[k])..SS * (dsect - secs[k]) + SS] else b;
    assert Untouched(g, d, e, secs);
    assert |b'| == SS;
    assert BufferOk(e, secs, dsect, false, b');
    assert ViewOf(e, false, dsect, b') == e;
    assert ViewOf(d, false, dsect, b) == d;
  }

  lemma InSecs(secs: seq<nat>, k: nat, n: nat)
    requires OnDisk(secs, n) && k < |secs|
    ensures secs[k] in secs && secs[k] < n
  {
  }

  ghost predicate SameBut(d: seq<Sector>, v: seq<Sector>, t: nat) {
    |d| == |v| && forall s | 0 <= s < |v| && s != t :: d[s] == v[s]
  }

  /** Of sector `t`, which holds the bytes from `at` on, `b` shows those below `n`. */
  ghost predicate ShowsFile(v: seq<Sector>, t: nat, b: seq<byte>, at: nat, n: nat) {
    t < |v| && |b| == SS && forall j | 0 <= j < SS && at + j < n :: b[j] == v[t][j]
  }

  lemma EdgeShows(d: seq<Sector>, t: nat, b: seq<byte>, fptr: nat, fsize: nat)
    requires t < |d| && |b| == SS && fptr % SS == 0 && (fptr < fsize ==> b == d[t])
    ensures SameBut(d, d, t) && ShowsFile(d, t, b, SS * (fptr / SS), if fptr > fsize then fptr else fsize)
  {
  }

  /** What a piece put into the buffer does to the file. */
  lemma PartialOutcome(g: Geometry, d: seq<Sector>, v: seq<Sector>, secs: seq<nat>, n: nat, fptr: nat,
                       b: seq<byte>, piece: seq<byte>)
    requires OnDisk(secs, |v|) && Distinct(secs) && fptr / SS < |secs| && |d| == |v| && |b| == SS
    requires fptr <= n <= SS * |secs| && fptr % SS + |piece| <= SS
    requires 0 < secs[fptr / SS] < |v| && SameBut(d, v, secs[fptr / SS])
    requires ShowsFile(v, secs[fptr / SS], b, SS * (fptr / SS), n)
    ensures var t, w := secs[fptr / SS], Patch(b, fptr % SS, piece);
            var m := if n < fptr + |piece| then fptr + |piece| else n;
            && BufferOk(d, secs, t, true, w) && m <= SS * |secs|
            && Untouched(g, v, ViewOf(d, true, t, w), secs)
            && Bytes(ViewOf(d, true, t, w), secs, m) == Splice(Bytes(v, secs, n), fptr, piece)
  {
    var t := secs[fptr / SS];
    var w: Sector := Patch(b, fptr % SS, piece);
    assert ViewOf(d, true, t, w) == v[t := w];
    BytesOfSector(v, secs, n, fptr / SS, w, fptr % SS, piece);
    assert fptr == SS * (fptr / SS) + fptr % SS;
    assert t in secs;
  }

  /** The last byte of whole sectors within a cluster, or of part of a sector, is in the same cluster. */
  lemma ClusterStays(ch: seq<nat>, csize: nat, curr: nat, fptr: nat, cc: nat)
    requires 0 < csize && CurrOk(ch, csize, curr, fptr) && fptr % SS == 0 && 0 < cc && Csect(fptr, csize) + cc <= csize
    ensures CurrOk(ch, csize, curr, fptr + SS * cc - 1) && (fptr + SS * cc) % SS == 0
  {
    WithinCluster(csize, fptr / SS, cc - 1);
    assert (fptr + SS * cc - 1) / SS == fptr / SS + (cc - 1);
  }

  lemma SameSector(b: nat, n: nat)
    requires 0 < n && b % SS + n <= SS
    ensures (b + n - 1) / SS == b / SS
  {
  }

  lemma SectorStays(ch: seq<nat>, csize: nat, curr: nat, b: nat, c: nat)
    requires 0 < csize && CurrOk(ch, csize, curr, b) && b / SS == c / SS
    ensures CurrOk(ch, csize, curr, c)
  {
  }

  /** The end of a part of the sector of byte `b`. */
  lemma PartEnd(secs: seq<nat>, ch: seq<nat>, csize: nat, curr: nat, b: nat, n: nat)
    requires 0 < csize && CurrOk(ch, csize, curr, b) && b / SS < |secs| && 0 < n && b % SS + n <= SS
    ensures CurrOk(ch, csize, curr, b + n - 1)
    ensures (b + n) % SS != 0 ==> (b + n) / SS < |secs| && secs[(b + n) / SS] == secs[b / SS]
  {
    SameSector(b, n);
    SectorStays(ch, csize, curr, b, b + n - 1);
  }

  class File {
    const fs: Volume
    const buf: array<byte>
    const readable: bool
    const writable: bool
    var fptr: dword
    var fsize: dword
    var orgClust: nat
    var currClust: nat
    var dsect: nat
    var dirty: bool
    var written: bool
    ghost var ch: seq<nat>

    /** The sectors of the file in order. */
    ghost function Secs(): seq<nat>
      reads this`ch
    {
      Sectors(fs.g, ch)
    }

    ghost predicate Linked()
      reads this`ch, this`orgClust, fs`dev, fs`winsect, fs`wflag, fs.win
    {
      && fs.Valid() && fs.g.DataFits() && buf.Length == SS && buf != fs.win
      && ChainHeld(fs.Fat(), ch, orgClust)
      && fs.winsect !in Secs()
    }

    ghost predicate Core()
      reads this`ch, this`orgClust, this`fptr, this`fsize, this`dsect, this`dirty, buf
      reads fs`dev, fs`winsect, fs`wflag, fs.win
    {
      && Linked()
      && BufferOk(fs.Logical(), Secs(), dsect, dirty, buf[..])
      && fptr <= SS * |Secs()| && fsize <= SS * |Secs()|
    }

    /** The disk under the window and the file's buffer. */
    ghost function View(): (v: seq<Sector>)
      requires Core()
      reads this`ch, this`orgClust, this`fptr, this`fsize, this`dsect, this`dirty, buf
      reads fs`dev, fs`winsect, fs`wflag, fs.win
      ensures |v| == fs.g.sectors
    {
      ViewOf(fs.Logical(), dirty, dsect, buf[..])
    }

    ghost function Size(): nat
      reads this`fptr, this`fsize
    {
      if fptr > fsize then fptr else fsize
    }

    /** The bytes of the file: its clusters' sectors overlaid by the dirty buffer, cut to its size. */
    ghost function Content(): (c: seq<byte>)
      requires Core()
      reads this`ch, this`orgClust, this`fptr, this`fsize, this`dsect, this`dirty, buf
      reads fs`dev, fs`winsect, fs`wflag, fs.win
      ensures |c| == Size()
    {
      HeldSectors(fs.g, fs.Fat(), ch, orgClust);
      Bytes(View(), Secs(), Size())
    }

    /** curr_clust is the cluster of byte fptr - 1, and off a sector boundary the buffer holds the
        sector of fptr. */
    ghost predicate Ready()
      reads this`ch, this`orgClust, this`currClust, this`fptr, this`fsize, this`dsect, this`dirty, buf
      reads fs`dev, fs`winsect, fs`wflag, fs.win
    {
      && Core()
      && (fptr > 0 ==> CurrOk(ch, fs.g.csize, currClust, fptr - 1))
      && (fptr % SS != 0 ==> fptr / SS < |Secs()| && dsect == Secs()[fptr / SS])
    }

    ghost predicate Valid()
      reads this`ch, this`orgClust, this`currClust, this`fptr, this`fsize, this`dsect, this`dirty, buf
      reads fs`dev, fs`winsect, fs`wflag, fs.win
    {
      Ready() && fptr <= fsize
    }

    /** curr_clust is the cluster of byte fptr. */
    ghost predicate Entered()
      reads this`ch, this`orgClust, this`currClust, this`fptr, this`fsize, this`dsect, this`dirty, buf
      reads fs`dev, fs`winsect, fs`wflag, fs.win
    {
      Core() && fptr < SS * |Secs()| && CurrOk(ch, fs.g.csize, currClust, fptr)
    }

    /** Lines 2111-2121: a file opened on its directory entry starts at its first byte with an empty
        buffer. */
    constructor (vol: Volume, org: nat, size: dword, mayRead: bool, mayWrite: bool, ghost chain: seq<nat>)
      requires vol.Valid() && vol.g.DataFits() && ChainHeld(vol.Fat(), chain, org)
      requires vol.winsect !in Sectors(vol.g, chain) && size <= SS * |Sectors(vol.g, chain)|
      ensures fs == vol && readable == mayRead && writable == mayWrite && fresh(buf)
      ensures ch == chain && orgClust == org && fptr == 0 && fsize == size && dsect == 0
      ensures Valid() && View() == vol.Logical()
    {
      fs, readable, writable := vol, mayRead, mayWrite;
      orgClust, fsize, fptr, dsect, currClust, ch := org, size, 0, 0, 0, chain;
      dirty, written := false, false;
      buf := new byte[SS];
    }

    /** get_fat for this file. */
    method Link(c: nat) returns (r: nat)
      requires Core()
      modifies fs`dev, fs`winsect, fs`wflag, fs.win
      ensures Core() && View() == old(View()) && fs.Logical() == old(fs.Logical()) && fs.Fat() == old(fs.Fat())
      ensures Content() == old(Content()) && r == if 2 <= c < fs.g.nFatent then fs.Fat()[c] else 1
    {
      HeldSectors(fs.g, fs.Fat(), ch, orgClust);
      hide Volume.Valid, Volume.Logical, Volume.FatData, Volume.Fat, Sectors, BufferOk, ChainHeld;
      r := fs.GetFat(c);
    }

    /** Lines 2160-2167: the cluster of byte fptr, on a sector boundary before the end of the file. */
    method ReachForRead()
      requires Ready() && fptr % SS == 0 && fptr < fsize
      modifies fs`dev, fs`winsect, fs`wflag, fs.win, this`currClust
      ensures Entered() && View() == old(View()) && fs.Logical() == old(fs.Logical()) && fs.Fat() == old(fs.Fat())
    {
      ReachCluster(fs.g, fs.Fat(), ch, orgClust, currClust, fptr);
      assert Core() && fptr < SS * |Secs()|;
      hide *;
      if Csect(fptr, fs.g.csize) == 0 {
        if fptr == 0 {
          currClust := orgClust;
        } else {
          var clst := Link(currClust);
          currClust := clst;
        }
      }
      EnteredIntro();
    }

    lemma EnteredIntro()
      requires Core() && fptr < SS * |Secs()| && CurrOk(ch, fs.g.csize, currClust, fptr)
      ensures Entered()
    {
    }

    /** create_chain for this file: at the end of the chain, or for a file without clusters, it
        appends a cluster or finds the volume full; elsewhere it follows the chain. */
    method Stretch(clst: nat) returns (r: nat)
      requires Core() && if ch == [] then clst == 0 else clst in ch
      modifies fs`dev, fs`winsect, fs`wflag, fs`fsiFlag, fs`freeClust, fs`lastClust, fs.win, this`ch, this`orgClust
      ensures Core() && Content() == old(Content()) && Untouched(fs.g, old(View()), View(), [])
      ensures Grows(old(fs.Fat()), fs.Fat(), old(ch), ch)
      ensures if clst != 0 && clst < fs.g.nFatent && old(fs.Fat())[clst] < fs.g.nFatent then
                ch == old(ch) && r == old(fs.Fat())[clst] >= 2
              else if r == 0 then ch == old(ch) && Free(fs.Fat()) == {}
              else ch == old(ch) + [r]
    {
      hide *;
      CoreFacts();
      ghost var t, d, secs, b := fs.Fat(), fs.Logical(), Secs(), buf[..];
      ghost var v, c, w, p := View(), Content(), fs.winsect, ch;
      StretchOutcome(fs.g, t, ch, orgClust, clst, fs.lastClust);
      GrowsNothing(t, ch);
      ghost var grown := NeedsCluster(t, clst);
      r := CreateChain(fs, clst);
      if clst == 0 {
        orgClust := r;
      }
      if grown && r >= 2 {
        ch := p + [r];
        Longer(p, r);
      }
      Rebuilt(d, secs, b, v, c, w);
    }

    /** What a file's invariant says, with its parts named. */
    lemma CoreFacts()
      requires Core()
      ensures fs.Valid() && fs.g.Valid() && fs.g.DataFits() && buf.Length == SS == 512 && buf != fs.win
      ensures ChainHeld(fs.Fat(), ch, orgClust) && fs.winsect !in Secs() && Secs() == Sectors(fs.g, ch)
      ensures Distinct(Secs()) && OnDisk(Secs(), fs.g.sectors)
      ensures 0 < fs.g.database && forall s | s in Secs() :: fs.g.database <= s && !fs.g.InAnyFat(s)
      ensures BufferOk(fs.Logical(), Secs(), dsect, dirty, buf[..])
      ensures Size() <= SS * |Secs()| && fptr <= SS * |Secs()| && fsize <= SS * |Secs()|
      ensures Size() == if fptr > fsize then fptr else fsize
      ensures View() == ViewOf(fs.Logical(), dirty, dsect, buf[..])
      ensures Content() == Bytes(View(), Secs(), Size())
    {
      HeldSectors(fs.g, fs.Fat(), ch, orgClust);
    }

    /** The file after changes in the FAT area and appended clusters. */
    lemma Rebuilt(d: seq<Sector>, secs: seq<nat>, b: seq<byte>, v: seq<Sector>, c: seq<byte>, w: nat)
      requires fs.Valid() && fs.g.DataFits() && b == buf[..] && buf != fs.win && ChainHeld(fs.Fat(), ch, orgClust)
      requires BufferOk(d, secs, dsect, dirty, b) && v == ViewOf(d, dirty, dsect, b)
      requires OnDisk(secs, |d|) && Size() <= SS * |secs| && c == Bytes(v, secs, Size())
      requires forall s | s in secs :: !fs.g.InAnyFat(s)
      requires SameOutsideFat(fs.g, d, fs.Logical())
      requires |secs| <= |Secs()| && forall k | 0 <= k < |secs| :: Secs()[k] == secs[k]
      requires fs.g.InFat(fs.winsect) || (fs.winsect == w && w !in secs && Secs() == secs)
      ensures Core() && Content() == c && Untouched(fs.g, v, View(), [])
    {
      HeldSectors(fs.g, fs.Fat(), ch, orgClust);
      hide Volume.Valid, Volume.Logical, Volume.FatData, Volume.Fat, Sectors, ChainHeld, BufferOk, ViewOf, Bytes,
        Untouched, SameOutsideFat;
      GrowthKeepsBytes(fs.g, d, fs.Logical(), secs, Secs(), dirty, dsect, b, Size());
    }

    /** The sectors of a chain with one more cluster. */
    lemma Longer(p: seq<nat>, c: nat)
      requires ch == p + [c]
      ensures |Sectors(fs.g, p)| <= |Secs()|
      ensures forall k | 0 <= k < |Sectors(fs.g, p)| :: Secs()[k] == Sectors(fs.g, p)[k]
    {
      SectorsAppend(fs.g, p, c);
    }

    /** Lines 2255-2261: the first cluster, or the one after the current cluster; 0 when the volume
        has none left. */
    method NextCluster() returns (clst: nat)
      requires Ready() && fptr % SS == 0 && Csect(fptr, fs.g.csize) == 0
      modifies fs`dev, fs`winsect, fs`wflag, fs`fsiFlag, fs`freeClust, fs`lastClust, fs.win
      modifies this`ch, this`orgClust
      ensures Core() && Content() == old(Content()) && Untouched(fs.g, old(View()), View(), [])
      ensures Grows(old(fs.Fat()), fs.Fat(), old(ch), ch)
      ensures if clst == 0 then Free(fs.Fat()) == {} && ch == old(ch)
              else CurrOk(ch, fs.g.csize, clst, fptr) && fptr < SS * |Secs()|
    {
      hide *;
      ReadyFacts();
      CoreFacts();
      ghost var t, p := fs.Fat(), ch;
      ReachOrAppend(fs.g, t, p, orgClust, currClust, fptr);
      if fptr == 0 && orgClust != 0 {
        clst := orgClust;
        GrowsNothing(t, p);
        UntouchedSame(fs.g, View());
      } else {
        clst := Stretch(if fptr == 0 then 0 else currClust);
        CoreFacts();
        if ch != p {
          AppendedCluster(fs.g, p, ch, clst, fptr);
        }
      }
    }

    /** Lines 2253-2266: the cluster for byte fptr on a sector boundary, stretching the chain at its
        end; `full` when the volume has no free cluster. */
    method ReachForWrite() returns (full: bool)
      requires Ready() && fptr % SS == 0
      modifies fs`dev, fs`winsect, fs`wflag, fs`fsiFlag, fs`freeClust, fs`lastClust, fs.win
      modifies this`ch, this`orgClust, this`currClust
      ensures Core() && Content() == old(Content()) && Untouched(fs.g, old(View()), View(), [])
      ensures Grows(old(fs.Fat()), fs.Fat(), old(ch), ch)
      ensures if full then Ready() && Free(fs.Fat()) == {} && ch == old(ch) else Entered()
    {
      hide *;
      ReadyFacts();
      CoreFacts();
      if Csect(fptr, fs.g.csize) == 0 {
        var clst := NextCluster();
        if clst == 0 {
          ReadyIntro();
          return true;
        }
        currClust := clst;
      } else {
        ReachOrAppend(fs.g, fs.Fat(), ch, orgClust, currClust, fptr);
        GrowsNothing(fs.Fat(), ch);
        UntouchedSame(fs.g, View());
      }
      EnteredIntro();
      full := false;
    }

    lemma ReadyFacts()
      requires Ready()
      ensures Core()
      ensures fptr > 0 ==> CurrOk(ch, fs.g.csize, currClust, fptr - 1)
      ensures fptr % SS != 0 ==> fptr / SS < |Secs()| && dsect == Secs()[fptr / SS]
    {
    }

    lemma ReadyIntro()
      requires Core() && (fptr > 0 ==> CurrOk(ch, fs.g.csize, currClust, fptr - 1))
      requires fptr % SS != 0 ==> fptr / SS < |Secs()| && dsect == Secs()[fptr / SS]
      ensures Ready()
    {
    }

    /** Write the dirty buffer back. */
    method Flush()
      requires Core()
      modifies fs`dev, this`dirty
      ensures Core() && !dirty && View() == old(View()) == fs.Logical() && Content() == old(Content())
      ensures fs.Fat() == old(fs.Fat())
    {
      hide *;
      CoreFacts();
      ghost var d, b := fs.Logical(), buf[..];
      BufferFacts(d, Secs(), dsect, dirty, b);
      if dirty {
        fs.PutSector(dsect, buf[..]);
        dirty := false;
        BufferClean(d[dsect := b], Secs(), dsect, b);
      }
      CoreIntro();
      CoreFacts();
    }

    lemma CoreIntro()
      requires fs.Valid() && fs.g.DataFits() && buf.Length == SS && buf != fs.win
      requires ChainHeld(fs.Fat(), ch, orgClust) && fs.winsect !in Secs()
      requires BufferOk(fs.Logical(), Secs(), dsect, dirty, buf[..])
      requires fptr <= SS * |Secs()| && fsize <= SS * |Secs()|
      ensures Core()
    {
    }

    /** Lines 2292-2295: refresh the buffer if it holds one of the sectors just written.  The
        subtraction wraps, so one comparison checks both ends. */
    method Refill(sect: nat, data: seq<byte>, cc: nat)
      requires buf.Length == SS && |data| == SS * cc && sect + cc <= U32 && dsect < U32
      modifies buf
      ensures buf[..] == if sect <= dsect < sect + cc then data[SS * (dsect - sect)..SS * (dsect - sect) + SS]
                         else old(buf[..])
    {
      if (dsect - sect) % U32 < cc {
        var at := SS * (dsect - sect);
        forall i | 0 <= i < SS {
          buf[i] := data[at + i];
        }
        assert buf[..] == data[at..at + SS];
      }
    }

    /** Lines 2280-2297: write whole sectors of the current cluster past the buffer. */
    method DirectWrite(sect: nat, data: seq<byte>)
      requires Entered() && !dirty && fptr % SS == 0 && 0 < |data| && |data| % SS == 0
      requires fptr / SS < |Secs()| && sect == Secs()[fptr / SS]
      requires Csect(fptr, fs.g.csize) + |data| / SS <= fs.g.csize && fptr + |data| < U32
      modifies fs`dev, buf, this`fptr
      ensures Core() && !dirty && fptr == old(fptr) + |data|
      ensures Content() == Splice(old(Content()), old(fptr), data)
      ensures Untouched(fs.g, old(View()), View(), Secs()) && fs.Fat() == old(fs.Fat())
    {
      hide *;
      EnteredFacts();
      CoreFacts();
      ghost var d, secs, b, k, n := fs.Logical(), Secs(), buf[..], fptr / SS, Size();
      BufferFacts(d, secs, dsect, dirty, b);
      var cc := |data| / SS;
      ClusterRun(fs.g, ch, fptr, cc);
      DirectOutcome(fs.g, d, secs, n, k, cc, data, dsect, b);
      PutSectors(fs, sect, data, cc);
      Refill(sect, data, cc);
      fptr := fptr + |data|;
      CoreIntro();
      CoreFacts();
    }

    lemma EnteredFacts()
      requires Entered()
      ensures Core() && fptr < SS * |Secs()| && CurrOk(ch, fs.g.csize, currClust, fptr)
    {
    }

    /** The buffer is assigned to the sector of byte fptr, and with it the disk shows the file's bytes
        that `v` does. */
    ghost predicate Primed(v: seq<Sector>)
      reads this`ch, this`orgClust, this`currClust, this`fptr, this`fsize, this`dsect, buf
      reads fs`dev, fs`winsect, fs`wflag, fs.win
    {
      && Linked() && fptr / SS < |Secs()| && dsect == Secs()[fptr / SS]
      && Size() <= SS * |Secs()| && OnDisk(Secs(), |v|) && CurrOk(ch, fs.g.csize, currClust, fptr)
      && SameBut(fs.Logical(), v, dsect)
      && ShowsFile(v, dsect, buf[..], SS * (fptr / SS), Size())
    }

    /** Lines 2306-2312: give the buffer to sector `sect`; beyond the end of the file its old content
        is not read. */
    method FillSector(sect: nat)
      requires Entered() && !dirty && fptr % SS == 0 && fptr / SS < |Secs()| && sect == Secs()[fptr / SS]
      modifies buf, this`dsect
      ensures Primed(old(View()))
    {
      hide *;
      EnteredFacts();
      CoreFacts();
      ghost var d := fs.Logical();
      BufferFacts(d, Secs(), dsect, dirty, buf[..]);
      InSecs(Secs(), fptr / SS, fs.g.sectors);
      if dsect != sect {
        if fptr < fsize {
          var data := fs.GetSector(sect);
          CopyIn(0, data);
        }
      }
      dsect := sect;
      LinkedIntro();
      EdgeShows(d, sect, buf[..], fptr, fsize);
      PrimedIntro(d);
    }

    lemma PrimedIntro(v: seq<Sector>)
      requires Linked() && fptr / SS < |Secs()| && dsect == Secs()[fptr / SS]
      requires fptr <= SS * |Secs()| && fsize <= SS * |Secs()|
      requires OnDisk(Secs(), |v|) && CurrOk(ch, fs.g.csize, currClust, fptr)
      requires SameBut(fs.Logical(), v, dsect)
      requires ShowsFile(v, dsect, buf[..], SS * (fptr / SS), if fptr > fsize then fptr else fsize)
      ensures Primed(v)
    {
    }

    lemma PrimedFacts(v: seq<Sector>)
      requires Primed(v)
      ensures Linked() && fptr / SS < |Secs()| && dsect == Secs()[fptr / SS]
      ensures Size() <= SS * |Secs()| && OnDisk(Secs(), |v|) && CurrOk(ch, fs.g.csize, currClust, fptr)
      ensures SameBut(fs.Logical(), v, dsect)
      ensures ShowsFile(v, dsect, buf[..], SS * (fptr / SS), Size())
    {
    }

    lemma KnownLinked()
      requires Core()
      ensures Linked()
    {
    }

    lemma LinkedIntro()
      requires fs.Valid() && fs.g.DataFits() && buf.Length == SS && buf != fs.win
      requires ChainHeld(fs.Fat(), ch, orgClust) && fs.winsect !in Secs()
      ensures Linked()
    {
    }

    /** mem_cpy into the buffer. */
    method CopyIn(off: nat, piece: seq<byte>)
      requires buf.Length == SS && off + |piece| <= SS
      modifies buf
      ensures buf[..] == Patch(old(buf[..]), off, piece)
      ensures |piece| == SS ==> buf[..] == piece
    {
      ghost var b := Patch(buf[..], off, piece);
      forall i | 0 <= i < |piece| {
        buf[off + i] := piece[i];
      }
      assert buf[..] == b;
    }

    /** Lines 2314-2323: put part of a sector into the buffer. */
    method PutPartial(piece: seq<byte>, ghost v: seq<Sector>)
      requires Primed(v) && 0 < |piece| && fptr % SS + |piece| <= SS && fptr + |piece| < U32
      modifies buf, this`dirty, this`fptr
      ensures Core() && Ready() && dirty && fptr == old(fptr) + |piece|
      ensures Content() == Splice(Bytes(v, Secs(), old(Size())), old(fptr), piece)
      ensures Untouched(fs.g, v, View(), Secs()) && fs.Fat() == old(fs.Fat())
    {
      hide *;
      PrimedFacts(v);
      LinkedFacts();
      ghost var d, secs, b, n, k := fs.Logical(), Secs(), buf[..], Size(), fptr / SS;
      InSecs(secs, k, |v|);
      CopyIn(fptr % SS, piece);
      dirty := true;
      PartialOutcome(fs.g, d, v, secs, n, fptr, b, piece);
      PartEnd(secs, ch, fs.g.csize, currClust, fptr, |piece|);
      fptr := fptr + |piece|;
      CoreIntro();
      CoreFacts();
      ReadyIntro();
    }

    lemma LinkedFacts()
      requires Linked()
      ensures fs.Valid() && fs.g.Valid() && fs.g.DataFits() && buf.Length == SS == 512 && buf != fs.win
      ensures ChainHeld(fs.Fat(), ch, orgClust) && fs.winsect !in Secs() && Secs() == Sectors(fs.g, ch)
      ensures Distinct(Secs()) && OnDisk(Secs(), fs.g.sectors)
      ensures forall s | s in Secs() :: fs.g.database <= s && !fs.g.InAnyFat(s)
      ensures Size() == if fptr > fsize then fptr else fsize
      ensures 0 < fs.g.database
    {
      HeldSectors(fs.g, fs.Fat(), ch, orgClust);
    }

    /** Lines 2280-2298: as many whole sectors as `data` and the cluster hold. */
    method WriteWhole(sect: nat, data: seq<byte>) returns (wcnt: nat)
      requires Entered() && !dirty && fptr % SS == 0 && SS <= |data| && fptr + |data| < U32
      requires fptr / SS < |Secs()| && sect == Secs()[fptr / SS]
      modifies fs`dev, buf, this`fptr
      ensures Core() && Ready() && 0 < wcnt <= |data| && fptr == old(fptr) + wcnt && fptr % SS == 0
      ensures Content() == Splice(old(Content()), old(fptr), data[..wcnt])
      ensures Untouched(fs.g, old(View()), View(), Secs()) && fs.Fat() == old(fs.Fat())
    {
      hide *;
      EnteredFacts();
      CoreFacts();
      var csect := Csect(fptr, fs.g.csize);
      var cc := |data| / SS;
      if csect + cc > fs.g.csize {
        cc := fs.g.csize - csect;
      }
      wcnt := SS * cc;
      WholeSectors(cc, |data|);
      ClusterStays(ch, fs.g.csize, currClust, fptr, cc);
      DirectWrite(sect, data[..wcnt]);
      ReadyIntro();
    }

    /** Lines 2252-2279 on a sector boundary: find the cluster, write the buffer back and take the
        sector. */
    method EnterSector() returns (full: bool, sect: nat)
      requires Ready() && fptr % SS == 0
      modifies fs`dev, fs`winsect, fs`wflag, fs`fsiFlag, fs`freeClust, fs`lastClust, fs.win
      modifies this`ch, this`orgClust, this`currClust, this`dirty
      ensures Core() && Content() == old(Content()) && Untouched(fs.g, old(View()), View(), [])
      ensures Grows(old(fs.Fat()), fs.Fat(), old(ch), ch)
      ensures full ==> Ready() && Free(fs.Fat()) == {}
      ensures !full ==> Entered() && !dirty && fptr / SS < |Secs()| && sect == Secs()[fptr / SS]
    {
      hide *;
      ReadyFacts();
      full := ReachForWrite();
      sect := 0;
      if !full {
        EnteredFacts();
        Flush();
        EnteredIntro();
        CoreFacts();
        CurrSector(fs.g, ch, currClust, fptr);
        sect := Clust2Sect(fs.g, currClust) + Csect(fptr, fs.g.csize);
      }
    }

    /** Lines 2314-2323, from the buffer's byte fptr on. */
    method WritePart(data: seq<byte>, ghost v: seq<Sector>) returns (wcnt: nat)
      requires Primed(v) && 0 < |data| && fptr + |data| < U32
      modifies buf, this`dirty, this`fptr
      ensures Core() && Ready() && dirty && 0 < wcnt <= |data| && fptr == old(fptr) + wcnt
      ensures Content() == Splice(Bytes(v, Secs(), old(Size())), old(fptr), data[..wcnt])
      ensures Untouched(fs.g, v, View(), Secs()) && fs.Fat() == old(fs.Fat())
    {
      hide *;
      wcnt := PartLength(fptr, |data|);
      PutPartial(data[..wcnt], v);
    }

    /** One round of the loop at lines 2250-2325. */
    method WriteStep(data: seq<byte>) returns (wcnt: nat, full: bool)
      requires Ready() && Core() && 0 < |data| && fptr + |data| < U32
      modifies fs`dev, fs`winsect, fs`wflag, fs`fsiFlag, fs`freeClust, fs`lastClust, fs.win, buf
      modifies this`ch, this`orgClust, this`currClust, this`fptr, this`dirty, this`dsect
      ensures Core() && Ready() && wcnt <= |data| && fptr == old(fptr) + wcnt
      ensures Content() == Splice(old(Content()), old(fptr), data[..wcnt])
      ensures Untouched(fs.g, old(View()), View(), Secs()) && Grows(old(fs.Fat()), fs.Fat(), old(ch), ch)
      ensures if full then wcnt == 0 && Free(fs.Fat()) == {} else wcnt > 0 && (fptr % SS != 0 ==> dirty)
    {
      hide *;
      CoreFacts();
      ghost var v0, v := View(), View();
      full := false;
      UntouchedSame(fs.g, v0);
      if fptr % SS == 0 {
        var sect;
        full, sect := EnterSector();
        v := View();
        UntouchedMore(fs.g, v0, v, Secs());
        CoreFacts();
        if full {
          wcnt := 0;
          SpliceNothing(Content(), fptr);
          assert data[..0] == [];
          return;
        }
        if |data| / SS > 0 {
          wcnt := WriteWhole(sect, data);
          UntouchedTwice(fs.g, v0, v, View(), Secs());
          return;
        }
        FillSector(sect);
      } else {
        InsideShows();
        GrowsNothing(fs.Fat(), ch);
        UntouchedMore(fs.g, v0, v, Secs());
      }
      wcnt := WritePart(data, v);
      UntouchedTwice(fs.g, v0, v, View(), Secs());
    }

    lemma InsideShows()
      requires Ready() && Core() && fptr % SS != 0
      ensures Primed(View())
    {
      hide *;
      ReadyFacts();
      CoreFacts();
      LinkedIntro();
      InSecs(Secs(), fptr / SS, fs.g.sectors);
      SectorStays(ch, fs.g.csize, currClust, fptr - 1, fptr);
      BufferShows(fs.Logical(), Secs(), dsect, dirty, buf[..], SS * (fptr / SS), Size());
      PrimedIntro(View());
    }

    /** Lines 2327-2328: the size follows the file pointer. */
    method UpdateSize()
      requires Core() && Ready()
      modifies this`fsize
      ensures Core() && Valid() && Content() == old(Content()) && View() == old(View())
      ensures fsize == if fptr > old(fsize) then fptr else old(fsize)
    {
      hide *;
      CoreFacts();
      ReadyFacts();
      ghost var c := Content();
      if fptr > fsize {
        fsize := fptr;
      }
      CoreIntro();
      CoreFacts();
      ReadyIntro();
      ValidIntro();
    }

    lemma ValidIntro()
      requires Ready() && fptr <= fsize
      ensures Valid()
    {
    }

    lemma ValidFacts()
      requires Valid()
      ensures Core() && Ready() && fptr <= fsize
    {
    }

    /** One round, added to what the rounds before it have done. */
    method WriteMore(data: seq<byte>, bw: nat, btw: nat, ghost v0: seq<Sector>, ghost t0: seq<nat>, ghost p0: seq<nat>,
                     ghost c0: seq<byte>, ghost f0: nat) returns (wcnt: nat, full: bool)
      requires Core() && Ready() && 0 < btw && bw + btw <= |data| && fptr == f0 + bw && f0 + bw + btw < U32
      requires f0 <= |c0| && Content() == Splice(c0, f0, data[..bw])
      requires Untouched(fs.g, v0, View(), Secs()) && Grows(t0, fs.Fat(), p0, ch)
      modifies fs`dev, fs`winsect, fs`wflag, fs`fsiFlag, fs`freeClust, fs`lastClust, fs.win, buf
      modifies this`ch, this`orgClust, this`currClust, this`fptr, this`dirty, this`dsect
      ensures Core() && Ready() && wcnt <= btw && fptr == f0 + bw + wcnt
      ensures Content() == Splice(c0, f0, data[..bw + wcnt])
      ensures Untouched(fs.g, v0, View(), Secs()) && Grows(t0, fs.Fat(), p0, ch)
      ensures if full then wcnt == 0 && Free(fs.Fat()) == {} else wcnt > 0 && (fptr % SS != 0 ==> dirty)
    {
      hide *;
      CoreFacts();
      ghost var v1, t1, p1, secs := View(), fs.Fat(), ch, Secs();
      HeldInUse(t1, p1, orgClust);
      ghost var piece := data[bw..bw + btw];
      wcnt, full := WriteStep(data[bw..bw + btw]);
      CoreFacts();
      PrefixSectors(fs.g, t1, fs.Fat(), p1, ch);
      UntouchedWider(fs.g, v0, v1, View(), secs, Secs());
      GrowsTwice(t0, t1, fs.Fat(), p0, p1, ch);
      SpliceTwice(c0, f0, data[..bw], piece[..wcnt]);
      SlicesJoin(data, bw, btw, wcnt);
    }

    /** The loop at lines 2250-2325. */
    method WriteAll(data: seq<byte>) returns (bw: nat)
      requires Core() && Ready() && fptr + |data| < U32
      modifies fs`dev, fs`winsect, fs`wflag, fs`fsiFlag, fs`freeClust, fs`lastClust, fs.win, buf
      modifies this`ch, this`orgClust, this`currClust, this`fptr, this`dirty, this`dsect
      ensures Core() && Ready() && bw <= |data| && fptr == old(fptr) + bw
      ensures Content() == Splice(old(Content()), old(fptr), data[..bw])
      ensures Untouched(fs.g, old(View()), View(), Secs()) && Grows(old(fs.Fat()), fs.Fat(), old(ch), ch)
      ensures bw < |data| ==> Free(fs.Fat()) == {}
      ensures 0 < bw == |data| && fptr % SS != 0 ==> dirty
    {
      hide *;
      CoreFacts();
      ghost var v0, t0, p0, c0, f0 := View(), fs.Fat(), ch, Content(), fptr;
      bw := 0;
      assert data[..0] == [];
      SpliceNothing(c0, f0);
      UntouchedSame(fs.g, v0);
      UntouchedMore(fs.g, v0, v0, Secs());
      GrowsNothing(t0, p0);
      var btw := |data|;
      while btw > 0
        invariant Core() && Ready() && fs.Valid() && bw <= |data| && btw == |data| - bw && fptr == f0 + bw
        invariant Content() == Splice(c0, f0, data[..bw])
        invariant Untouched(fs.g, v0, View(), Secs())
        invariant Grows(t0, fs.Fat(), p0, ch)
        invariant 0 < bw && fptr % SS != 0 ==> dirty
      {
        var wcnt, full := WriteMore(data, bw, btw, v0, t0, p0, c0, f0);
        CoreFacts();
        if full {
          break;
        }
        bw, btw := bw + wcnt, btw - wcnt;
      }
    }

    /** Lines 2226-2331.  Writing replaces exactly the bytes from fptr on; fewer bytes than asked are
        written only when the volume is full, and none when the size would reach 4 GB. */
    method Write(data: seq<byte>) returns (res: Status, bw: nat)
      requires Valid() && Core() && |data| < U32
      modifies fs`dev, fs`winsect, fs`wflag, fs`fsiFlag, fs`freeClust, fs`lastClust, fs.win, buf
      modifies this`ch, this`orgClust, this`currClust, this`fptr, this`fsize, this`dirty, this`dsect, this`written
      ensures Core() && Valid() && bw <= |data| && fptr == old(fptr) + bw
      ensures Content() == Splice(old(Content()), old(fptr), data[..bw])
      ensures Untouched(fs.g, old(View()), View(), Secs()) && Grows(old(fs.Fat()), fs.Fat(), old(ch), ch)
      ensures res == if writable then Ok else Denied
      ensures !writable ==> bw == 0 && View() == old(View()) && written == old(written)
      ensures writable ==> written
      ensures old(fsize) + |data| >= U32 ==> bw == 0
      ensures 0 < bw == |data| && fptr % SS != 0 ==> dirty
      ensures writable && bw < |data| ==> old(fsize) + |data| >= U32 || Free(fs.Fat()) == {}
    {
      hide *;
      ValidFacts();
      CoreFacts();
      if !writable {
        NothingWritten(data);
        return Denied, 0;
      }
      WrapCheck(fsize, |data|);
      if (fsize + |data|) % U32 < fsize {
        NothingWritten(data);
        bw := 0;
      } else {
        bw := WriteAll(data);
      }
      UpdateSize();
      written := true;
      res := Ok;
    }

    lemma NothingWritten(data: seq<byte>)
      requires Core()
      ensures fs.Valid() && fptr <= |Content()| && Content() == Splice(Content(), fptr, data[..0])
      ensures Untouched(fs.g, View(), View(), Secs()) && Grows(fs.Fat(), fs.Fat(), ch, ch)
    {
      hide *;
      CoreFacts();
      assert data[..0] == [];
      SpliceNothing(Content(), fptr);
      UntouchedSame(fs.g, View());
      UntouchedMore(fs.g, View(), View(), Secs());
      GrowsNothing(fs.Fat(), ch);
    }

    /** Lines 2175-2183: whole sectors from the disk, with the buffer's sector when it is among them. */
    method GetOverlaid(sect: nat, cc: nat, ghost k: nat) returns (piece: seq<byte>)
      requires Core() && 0 < cc && k + cc <= |Secs()| && sect == Secs()[k]
      requires forall x | k <= x < k + cc :: Secs()[x] == Secs()[k] + (x - k)
      ensures sect + cc <= |View()| && piece == RunBytes(View(), sect, cc)
    {
      hide *;
      CoreFacts();
      RunInSecs(Secs(), k, cc, fs.g.sectors);
      piece := GetSectors(fs, sect, cc);
      BufferFacts(fs.Logical(), Secs(), dsect, dirty, buf[..]);
      if dirty {
        RunUnderBuffer(fs.Logical(), sect, cc, dsect, buf[..]);
        InWindow(dsect, sect, cc);
        if (dsect - sect) % U32 < cc {
          piece := Patch(piece, SS * (dsect - sect), buf[..]);
        }
      }
    }

    /** Lines 2171-2188: whole sectors come straight from the disk, patched with the buffer's sector
        when that is dirty and among them. */
    method ReadWhole(sect: nat, btr: nat) returns (piece: seq<byte>)
      requires Entered() && fptr % SS == 0 && SS <= btr && fptr + btr <= fsize
      requires fptr / SS < |Secs()| && sect == Secs()[fptr / SS]
      modifies this`fptr
      ensures Core() && Ready() && 0 < |piece| <= btr && fptr == old(fptr) + |piece|
      ensures View() == old(View()) && Content() == old(Content()) && piece == Content()[old(fptr)..fptr]
    {
      hide *;
      EnteredFacts();
      CoreFacts();
      var csect := Csect(fptr, fs.g.csize);
      var cc := btr / SS;
      if csect + cc > fs.g.csize {
        cc := fs.g.csize - csect;
      }
      WholeSectors(cc, btr);
      ClusterStays(ch, fs.g.csize, currClust, fptr, cc);
      ClusterRun(fs.g, ch, fptr, cc);
      ghost var k := fptr / SS;
      piece := GetOverlaid(sect, cc, k);
      RunIsContent(View(), Secs(), Size(), k, cc);
      fptr := fptr + |piece|;
      CoreIntro();
      CoreFacts();
      ReadyIntro();
    }

    /** Lines 2190-2202: bring the sector of byte fptr into the buffer. */
    method LoadSector(sect: nat)
      requires Entered() && fptr % SS == 0 && fptr / SS < |Secs()| && sect == Secs()[fptr / SS]
      modifies fs`dev, buf, this`dirty, this`dsect
      ensures Entered() && dsect == sect && View() == old(View()) && Content() == old(Content())
      ensures fs.Fat() == old(fs.Fat())
    {
      hide *;
      EnteredFacts();
      Flush();
      CoreFacts();
      InSecs(Secs(), fptr / SS, fs.g.sectors);
      BufferFacts(fs.Logical(), Secs(), dsect, dirty, buf[..]);
      if dsect != sect {
        var data := fs.GetSector(sect);
        CopyIn(0, data);
      }
      dsect := sect;
      BufferClean(fs.Logical(), Secs(), dsect, buf[..]);
      CoreIntro();
      CoreFacts();
      EnteredIntro();
    }

    /** mem_cpy from the buffer. */
    method CopyOut(off: nat, n: nat) returns (r: seq<byte>)
      requires off + n <= buf.Length
      ensures |buf[..]| == buf.Length && r == buf[..][off..off + n]
    {
      r := buf[off..off + n];
    }

    /** Lines 2204-2211: part of a sector from the buffer. */
    method ReadPart(btr: nat) returns (piece: seq<byte>)
      requires Core() && 0 < btr && fptr + btr <= fsize && fptr / SS < |Secs()| && dsect == Secs()[fptr / SS]
      requires CurrOk(ch, fs.g.csize, currClust, fptr)
      modifies this`fptr
      ensures Core() && Ready() && 0 < |piece| <= btr && fptr == old(fptr) + |piece|
      ensures View() == old(View()) && Content() == old(Content()) && piece == Content()[old(fptr)..fptr]
    {
      hide *;
      CoreFacts();
      var rcnt := PartLength(fptr, btr);
      InSecs(Secs(), fptr / SS, fs.g.sectors);
      BufferFacts(fs.Logical(), Secs(), dsect, dirty, buf[..]);
      PartIsContent(View(), Secs(), Size(), fptr, rcnt);
      piece := CopyOut(fptr % SS, rcnt);
      SectorStays(ch, fs.g.csize, currClust, fptr, fptr + rcnt - 1);
      fptr := fptr + rcnt;
      CoreIntro();
      CoreFacts();
      ReadyIntro();
    }

    /** One round of the loop at lines 2157-2213. */
    method ReadStep(btr: nat) returns (piece: seq<byte>)
      requires Core() && Ready() && 0 < btr && fptr + btr <= fsize
      modifies fs`dev, fs`winsect, fs`wflag, fs.win, buf, this`currClust, this`fptr, this`dirty, this`dsect
      ensures Core() && Ready() && 0 < |piece| <= btr && fptr == old(fptr) + |piece|
      ensures View() == old(View()) && Content() == old(Content()) && piece == Content()[old(fptr)..fptr]
      ensures fs.Fat() == old(fs.Fat())
    {
      hide *;
      ReadyFacts();
      CoreFacts();
      if fptr % SS == 0 {
        ReachForRead();
        EnteredFacts();
        CoreFacts();
        CurrSector(fs.g, ch, currClust, fptr);
        var sect := Clust2Sect(fs.g, currClust) + Csect(fptr, fs.g.csize);
        if btr / SS > 0 {
          piece := ReadWhole(sect, btr);
          return;
        }
        LoadSector(sect);
        EnteredFacts();
      } else {
        SectorStays(ch, fs.g.csize, currClust, fptr - 1, fptr);
      }
      piece := ReadPart(btr);
    }

    /** Lines 2133-2216.  Reading returns exactly the bytes from fptr on, as many as asked or left. */
    method Read(count: nat) returns (res: Status, data: seq<byte>)
      requires Valid() && Core() && count < U32
      modifies fs`dev, fs`winsect, fs`wflag, fs.win, buf, this`currClust, this`fptr, this`dirty, this`dsect
      ensures Core() && Valid() && View() == old(View()) && Content() == old(Content()) && fs.Fat() == old(fs.Fat())
      ensures fptr == old(fptr) + |data| && data == Content()[old(fptr)..fptr]
      ensures res == if readable then Ok else Denied
      ensures |data| == if !readable then 0 else if count < fsize - old(fptr) then count else fsize - old(fptr)
    {
      hide *;
      ValidFacts();
      CoreFacts();
      data := [];
      if !readable {
        return Denied, data;
      }
      var btr := count;
      if btr > fsize - fptr {
        btr := fsize - fptr;
      }
      ghost var f0, total := fptr, btr;
      while btr > 0
        invariant Core() && Ready() && fs.Valid() && fptr == f0 + |data| && |data| <= total && btr == total - |data|
        invariant f0 + total <= fsize == |Content()|
        invariant View() == old(View()) && Content() == old(Content()) && fs.Fat() == old(fs.Fat())
        invariant data == Content()[f0..fptr]
      {
        var piece := ReadStep(btr);
        CoreFacts();
        btr := btr - |piece|;
        data := data + piece;
      }
      ValidIntro();
      res := Ok;
    }
  }

  /** Byte `i` of the clusters `ch` is `x`: byte i % 512 of the sector that is number i / 512 % csize of
      cluster number i / 512 / csize. */
  ghost predicate ByteIs(g: Geometry, ch: seq<nat>, v: seq<Sector>, i: nat, x: byte) {
    && 0 < g.csize && i / 512 / g.csize < |ch| && 2 <= ch[i / 512 / g.csize] < g.nFatent
    && DiskSector(g, ch, i / 512) < |v| && v[DiskSector(g, ch, i / 512)][i % 512] == x
  }

  /** Where the bytes of a file lie on the disk. */
  lemma FileOnDisk(fp: File, i: nat)
    requires fp.Core() && i < |fp.Content()|
    ensures ByteIs(fp.fs.g, fp.ch, fp.View(), i, fp.Content()[i])
  {
    hide *;
    fp.CoreFacts();
    GeometryBounds(fp.fs.g);
    HeldInRange(fp.fs.g, fp.fs.Fat(), fp.ch, fp.orgClust);
    ByteOnDisk(fp.fs.g, fp.View(), fp.ch, fp.Size(), i);
    ByteIntro(fp.fs.g, fp.ch, fp.View(), i);
  }

  lemma ByteIntro(g: Geometry, ch: seq<nat>, v: seq<Sector>, i: nat)
    requires 0 < g.csize && i / 512 / g.csize < |ch| && 2 <= ch[i / 512 / g.csize] < g.nFatent
    requires DiskSector(g, ch, i / 512) < |v|
    ensures ByteIs(g, ch, v, i, v[DiskSector(g, ch, i / 512)][i % 512])
  {
  }

  lemma GeometryBounds(g: Geometry)
    requires g.Valid()
    ensures 0 < g.csize && SS == 512
  {
  }

  lemma HeldInRange(g: Geometry, t: seq<nat>, ch: seq<nat>, org: nat)
    requires ChainHeld(t, ch, org) && |t| == g.nFatent
    ensures InRange(g, ch)
  {
  }
}
