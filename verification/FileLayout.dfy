/** A file as its clusters' sectors and their bytes (ff.c, clust2sect, f_read, f_write). */
module FileLayout {
  import opened Lists
  import opened FatLayout
  import opened FatChains

  /** Lines 588-596: the first sector of a cluster, 0 for an invalid number.  In a volume laid out soundly the
      cluster lies in the data area and no sector number passes 32 bits. */
  function Clust2Sect(g: Geometry, c: nat): (r: nat)
    ensures g.Valid() && g.DataFits() ==>
              if 2 <= c < g.nFatent then 0 < g.database <= r && r + g.csize <= g.sectors <= U32 else r == 0
  {
    if 2 <= c < g.nFatent then
      ClusterPlace(g, c);
      (c - 2) * g.csize + g.database
    else 0
  }

  lemma ClusterPlace(g: Geometry, c: nat)
    requires 2 <= c < g.nFatent
    ensures g.Valid() && g.DataFits() ==>
              && 0 < g.database <= (c - 2) * g.csize + g.database
              && (c - 2) * g.csize + g.database + g.csize <= g.sectors <= U32
  {
    ClusterEnd(c, g.nFatent, g.csize);
    SectorBound(g, (c - 2) * g.csize);
  }

  lemma SectorBound(g: Geometry, at: nat)
    ensures g.Valid() && g.DataFits() && at + g.csize <= (g.nFatent - 2) * g.csize ==>
              0 < g.database && at + g.database + g.csize <= g.sectors <= U32
  {
  }

  lemma ClusterEnd(c: nat, n: nat, csize: nat)
    requires 2 <= c < n
    ensures (c - 2) * csize + csize <= (n - 2) * csize
  {
    MulBound2(csize, n - c);
    assert (n - 2) * csize == (c - 2) * csize + (n - c) * csize;
  }

  /** Masking with a power of two less one, as the code finds the sector within a cluster, is the
      remainder. */
  lemma MaskIsRemainder(x: bv32)
    ensures x & 0 == x % 1 && x & 1 == x % 2 && x & 3 == x % 4 && x & 7 == x % 8
    ensures x & 15 == x % 16 && x & 31 == x % 32 && x & 63 == x % 64 && x & 127 == x % 128
  {
  }

  /** The clusters tile the data area from its first sector on: sector number `n` of it belongs to cluster
      2 + n / csize, as its sector n % csize. */
  lemma ClustersTile(g: Geometry, n: nat)
    requires 0 < g.csize && 2 <= g.nFatent && n < (g.nFatent - 2) * g.csize
    ensures var c := 2 + n / g.csize;
            2 <= c < g.nFatent && Clust2Sect(g, c) + n % g.csize == g.database + n
  {
    var q := n / g.csize;
    assert n == g.csize * q + n % g.csize;
    assert q < g.nFatent - 2 by {
      if q >= g.nFatent - 2 {
        MulMono(g.nFatent - 2, q, g.csize);
      }
    }
    assert q * g.csize == g.csize * q;
  }

  ghost predicate InRange(g: Geometry, ch: seq<nat>) {
    forall i | 0 <= i < |ch| :: 2 <= ch[i] < g.nFatent
  }

  ghost function ClusterSectors(g: Geometry, c: nat): (r: seq<nat>)
    ensures |r| == g.csize && forall j | 0 <= j < g.csize :: r[j] == Clust2Sect(g, c) + j
  {
    seq(g.csize, j requires 0 <= j < g.csize => SectorOf(g, c, j))
  }

  function SectorOf(g: Geometry, c: nat, j: nat): nat {
    Clust2Sect(g, c) + j
  }

  /** The sectors of a chain of clusters, in file order. */
  ghost function Sectors(g: Geometry, ch: seq<nat>): seq<nat> {
    if ch == [] then []
    else Sectors(g, ch[..|ch| - 1]) + ClusterSectors(g, ch[|ch| - 1])
  }

  lemma {:induction false} SectorsLength(g: Geometry, ch: seq<nat>)
    ensures |Sectors(g, ch)| == |ch| * g.csize
  {
    if ch != [] {
      SectorsLength(g, ch[..|ch| - 1]);
      assert (|ch| - 1) * g.csize + g.csize == |ch| * g.csize;
    }
  }

  function ClusterNo(k: nat, csize: nat): nat
    requires 0 < csize
  {
    k / csize
  }

  function PlaceIn(k: nat, csize: nat): (r: nat)
    requires 0 < csize
    ensures r < csize
  {
    k % csize
  }

  lemma LastStretch(csize: nat, m: nat, k: nat)
    requires 0 < csize && m * csize <= k < m * csize + csize
    ensures ClusterNo(k, csize) == m && PlaceIn(k, csize) == k - m * csize
  {
    ModUnique(k, csize, m, k - m * csize);
  }

  /** The `k`-th sector of a file is the one `k % csize` places into its cluster `k / csize`. */
  lemma {:induction false} SectorPlace(g: Geometry, ch: seq<nat>, k: nat)
    requires k < |Sectors(g, ch)| && 0 < g.csize
    ensures ClusterNo(k, g.csize) < |ch|
    ensures Sectors(g, ch)[k] == Clust2Sect(g, ch[ClusterNo(k, g.csize)]) + PlaceIn(k, g.csize)
  {
    hide ClusterNo, PlaceIn, Clust2Sect;
    var front := ch[..|ch| - 1];
    SectorsLength(g, front);
    if k < |Sectors(g, front)| {
      SectorPlace(g, front, k);
    } else {
      LastStretch(g.csize, |front|, k);
    }
  }

  lemma SectorAt(g: Geometry, ch: seq<nat>, k: nat)
    requires k < |Sectors(g, ch)| && 0 < g.csize
    ensures k / g.csize < |ch|
    ensures Sectors(g, ch)[k] == Clust2Sect(g, ch[k / g.csize]) + k % g.csize
  {
    SectorPlace(g, ch, k);
    hide Sectors, Clust2Sect;
  }

  /** Where sector `k` of the clusters `ch` lies on the disk. */
  function DiskSector(g: Geometry, ch: seq<nat>, k: nat): nat
    requires 0 < g.csize && k / g.csize < |ch| && 2 <= ch[k / g.csize]
  {
    g.database + (ch[k / g.csize] - 2) * g.csize + k % g.csize
  }

  lemma SectorOnDisk(g: Geometry, ch: seq<nat>, k: nat)
    requires 0 < g.csize && InRange(g, ch) && k < |Sectors(g, ch)|
    ensures k / g.csize < |ch| && 2 <= ch[k / g.csize] < g.nFatent && Sectors(g, ch)[k] == DiskSector(g, ch, k)
  {
    hide *;
    SectorAt(g, ch, k);
    RangeAt(g, ch, k / g.csize);
    SectorFormula(g, ch, k);
  }

  lemma SectorFormula(g: Geometry, ch: seq<nat>, k: nat)
    requires 0 < g.csize && k / g.csize < |ch| && 2 <= ch[k / g.csize] < g.nFatent
    ensures Clust2Sect(g, ch[k / g.csize]) + k % g.csize == DiskSector(g, ch, k)
  {
  }

  lemma RangeAt(g: Geometry, ch: seq<nat>, i: nat)
    requires InRange(g, ch) && i < |ch|
    ensures 2 <= ch[i] < g.nFatent
  {
  }

  lemma SectorsAppend(g: Geometry, ch: seq<nat>, c: nat)
    ensures |Sectors(g, ch + [c])| == |Sectors(g, ch)| + g.csize
    ensures forall k | 0 <= k < |Sectors(g, ch)| :: Sectors(g, ch + [c])[k] == Sectors(g, ch)[k]
    ensures forall s | s in Sectors(g, ch + [c]) ::
              s in Sectors(g, ch) || Clust2Sect(g, c) <= s < Clust2Sect(g, c) + g.csize
  {
    assert (ch + [c])[..|ch|] == ch;
  }

  /** Clusters occupy disjoint stretches of the data area. */
  lemma ClustersApart(g: Geometry, c: nat, o: nat)
    requires 2 <= c < o < g.nFatent
    ensures Clust2Sect(g, c) + g.csize <= Clust2Sect(g, o)
  {
    MulBound2(g.csize, o - c);
    assert (o - 2) * g.csize == (c - 2) * g.csize + (o - c) * g.csize;
  }

  lemma MulBound2(m: nat, d: nat)
    requires 1 <= d
    ensures m <= d * m
  {
    assert d * m == m + (d - 1) * m;
  }

  lemma ClusterInData(g: Geometry, c: nat)
    requires g.DataFits() && 2 <= c < g.nFatent
    ensures g.database <= Clust2Sect(g, c) && Clust2Sect(g, c) + g.csize <= g.sectors
  {
    ClusterEnd(c, g.nFatent, g.csize);
  }

  lemma ApartFrom(g: Geometry, o: nat, c: nat, j: nat)
    requires 2 <= c < g.nFatent && 2 <= o < g.nFatent && c != o && j < g.csize
    ensures !(Clust2Sect(g, c) <= Clust2Sect(g, o) + j < Clust2Sect(g, c) + g.csize)
  {
    hide Clust2Sect;
    if o < c {
      ClustersApart(g, o, c);
    } else {
      ClustersApart(g, c, o);
    }
  }

  /** Distinct clusters give distinct sectors, all in the data area. */
  lemma {:induction false} SectorsDistinct(g: Geometry, ch: seq<nat>)
    requires g.DataFits() && InRange(g, ch) && Distinct(ch)
    ensures Distinct(Sectors(g, ch))
    ensures forall s | s in Sectors(g, ch) :: g.database <= s < g.sectors
  {
    if ch != [] {
      var front, c := ch[..|ch| - 1], ch[|ch| - 1];
      SectorsDistinct(g, front);
      ClusterInData(g, c);
      forall k | 0 <= k < |Sectors(g, front)|
        ensures !(Clust2Sect(g, c) <= Sectors(g, front)[k] < Clust2Sect(g, c) + g.csize)
      {
        SectorOutside(g, front, c, k);
      }
      hide Clust2Sect;
    }
  }

  lemma SectorOutside(g: Geometry, ch: seq<nat>, c: nat, k: nat)
    requires InRange(g, ch) && 2 <= c < g.nFatent && c !in ch && k < |Sectors(g, ch)|
    ensures !(Clust2Sect(g, c) <= Sectors(g, ch)[k] < Clust2Sect(g, c) + g.csize)
  {
    if g.csize > 0 {
      hide Clust2Sect, Sectors, ClusterNo, PlaceIn;
      SectorPlace(g, ch, k);
      var i := ClusterNo(k, g.csize);
      assert ch[i] in ch;
      ApartFrom(g, ch[i], c, PlaceIn(k, g.csize));
    }
  }

  /** Every sector listed exists on a disk of `n` sectors. */
  ghost predicate OnDisk(secs: seq<nat>, n: nat) {
    forall k | 0 <= k < |secs| :: secs[k] < n
  }

  /** The first `n` bytes of the sectors `secs` of a disk. */
  ghost function Bytes(v: seq<Sector>, secs: seq<nat>, n: nat): (b: seq<byte>)
    requires n <= SS * |secs| && OnDisk(secs, |v|)
    ensures |b| == n
  {
    seq(n, i requires 0 <= i < n => v[secs[i / SS]][i % SS])
  }

  /** Where byte `i` of a file lies on the disk. */
  lemma ByteOnDisk(g: Geometry, v: seq<Sector>, ch: seq<nat>, n: nat, i: nat)
    requires 0 < g.csize && InRange(g, ch) && n <= SS * |Sectors(g, ch)| && i < n && OnDisk(Sectors(g, ch), |v|)
    ensures i / 512 / g.csize < |ch| && 2 <= ch[i / 512 / g.csize] < g.nFatent
    ensures DiskSector(g, ch, i / 512) < |v| && Bytes(v, Sectors(g, ch), n)[i] == v[DiskSector(g, ch, i / 512)][i % 512]
  {
    hide *;
    ByteAt(v, Sectors(g, ch), n, i);
    SectorOnDisk(g, ch, i / 512);
  }

  lemma ByteAt(v: seq<Sector>, secs: seq<nat>, n: nat, i: nat)
    requires n <= SS * |secs| && i < n && OnDisk(secs, |v|)
    ensures i / 512 < |secs| && secs[i / 512] < |v| && Bytes(v, secs, n)[i] == v[secs[i / 512]][i % 512]
  {
  }

  /** `c` with the bytes from `at` on replaced by `d`, longer if `d` reaches beyond its end. */
  function Splice(c: seq<byte>, at: nat, d: seq<byte>): (r: seq<byte>)
    requires at <= |c|
    ensures |r| == if at + |d| < |c| then |c| else at + |d|
    ensures forall i | 0 <= i < |r| :: r[i] == if at <= i < at + |d| then d[i - at] else c[i]
  {
    c[..at] + d + if at + |d| < |c| then c[at + |d|..] else []
  }

  lemma SpliceTwice(c: seq<byte>, at: nat, d: seq<byte>, e: seq<byte>)
    requires at <= |c|
    ensures Splice(Splice(c, at, d), at + |d|, e) == Splice(c, at, d + e)
  {
  }

  lemma SpliceNothing(c: seq<byte>, at: nat)
    requires at <= |c|
    ensures Splice(c, at, []) == c
  {
  }

  /** Bytes of a file depend on its own sectors only. */
  lemma BytesFrame(v: seq<Sector>, w: seq<Sector>, secs: seq<nat>, more: seq<nat>, n: nat)
    requires n <= SS * |secs| && OnDisk(secs, |v|) && OnDisk(more, |w|)
    requires |secs| <= |more| && forall k | 0 <= k < |secs| :: more[k] == secs[k]
    requires forall k | 0 <= k < |secs| :: secs[k] < |w| && w[secs[k]] == v[secs[k]]
    ensures Bytes(w, more, n) == Bytes(v, secs, n)
  {
    var a, b := Bytes(w, more, n), Bytes(v, secs, n);
    forall i | 0 <= i < n ensures a[i] == b[i] {
      assert i / SS < |secs|;
      assert more[i / SS] == secs[i / SS];
    }
  }

  /** Replacing one sector of a file by `w`, which holds `d` from `off` on and elsewhere agrees with
      the bytes the file already had, splices `d` into the file. */
  lemma BytesOfSector(v: seq<Sector>, secs: seq<nat>, n: nat, k: nat, w: Sector, off: nat, d: seq<byte>)
    requires OnDisk(secs, |v|) && Distinct(secs) && k < |secs|
    requires off + |d| <= SS && SS * k + off <= n <= SS * |secs|
    requires forall j | off <= j < off + |d| :: w[j] == d[j - off]
    requires forall j | 0 <= j < SS && !(off <= j < off + |d|) && SS * k + j < n :: w[j] == v[secs[k]][j]
    ensures secs[k] < |v|
    ensures var m := if n < SS * k + off + |d| then SS * k + off + |d| else n;
            m <= SS * |secs| && Bytes(v[secs[k] := w], secs, m) == Splice(Bytes(v, secs, n), SS * k + off, d)
  {
    var u := v[secs[k] := w];
    var m := if n < SS * k + off + |d| then SS * k + off + |d| else n;
    var a, b := Bytes(u, secs, m), Splice(Bytes(v, secs, n), SS * k + off, d);
    forall i | 0 <= i < m ensures a[i] == b[i] {
      SectorByte(i, k);
      if i / SS == k {
        assert a[i] == w[i % SS];
      } else {
        assert secs[i / SS] != secs[k];
        assert a[i] == v[secs[i / SS]][i % SS];
      }
    }
  }

  lemma SectorByte(i: nat, k: nat)
    ensures i == i / SS * SS + i % SS
    ensures i / SS == k ==> i == SS * k + i % SS
    ensures i / SS < k ==> i < SS * k
    ensures i / SS > k ==> i >= SS * k + SS
  {
  }

  /** The disk after `j` whole sectors of `data` are written from sector `s` on. */
  ghost function PutRun(d: seq<Sector>, s: nat, data: seq<byte>, j: nat): (r: seq<Sector>)
    requires SS * j <= |data|
    ensures |r| == |d|
  {
    seq(|d|, x requires 0 <= x < |d| => if s <= x < s + j then data[SS * (x - s)..SS * (x - s) + SS] else d[x])
  }

  lemma PutRunStep(d: seq<Sector>, s: nat, data: seq<byte>, j: nat)
    requires SS * j + SS <= |data| && s + j < |d|
    ensures PutRun(d, s, data, j + 1) == PutRun(d, s, data, j)[s + j := data[SS * j..SS * j + SS]]
  {
  }

  lemma PutRunNone(d: seq<Sector>, s: nat, data: seq<byte>)
    ensures PutRun(d, s, data, 0) == d
  {
  }

  /** Whole sectors written in a row within one cluster splice their bytes into the file. */
  lemma BytesOfRun(d: seq<Sector>, secs: seq<nat>, n: nat, k: nat, cc: nat, data: seq<byte>)
    requires OnDisk(secs, |d|) && Distinct(secs) && 0 < cc && k + cc <= |secs| && |data| == SS * cc
    requires SS * k <= n <= SS * |secs|
    requires forall x | k <= x < k + cc :: secs[x] == secs[k] + (x - k)
    ensures var m := if n < SS * k + SS * cc then SS * k + SS * cc else n;
            m <= SS * |secs|
            && Bytes(PutRun(d, secs[k], data, cc), secs, m) == Splice(Bytes(d, secs, n), SS * k, data)
  {
    var u := PutRun(d, secs[k], data, cc);
    var m := if n < SS * k + SS * cc then SS * k + SS * cc else n;
    var a, b := Bytes(u, secs, m), Splice(Bytes(d, secs, n), SS * k, data);
    forall i | 0 <= i < m ensures a[i] == b[i] {
      var x := i / SS;
      SectorByte(i, k);
      SectorByte(i, k + cc);
      InRun(secs, k, cc, x);
      if k <= x < k + cc {
        assert secs[x] == secs[k] + (x - k);
        assert a[i] == data[SS * (x - k)..SS * (x - k) + SS][i % SS];
      } else {
        assert a[i] == d[secs[x]][i % SS];
      }
    }
  }

  lemma InRun(secs: seq<nat>, k: nat, cc: nat, x: nat)
    requires Distinct(secs) && k + cc <= |secs| && x < |secs|
    requires forall y | k <= y < k + cc :: secs[y] == secs[k] + (y - k)
    requires 0 < cc
    ensures secs[k] <= secs[x] < secs[k] + cc ==> k <= x < k + cc
  {
    if secs[k] <= secs[x] < secs[k] + cc {
      var y := k + (secs[x] - secs[k]);
      assert secs[y] == secs[x];
    }
  }

  /** The sectors of one cluster follow each other on the disk. */
  lemma RunInCluster(g: Geometry, ch: seq<nat>, k: nat, cc: nat)
    requires 0 < g.csize && k < |Sectors(g, ch)| && k % g.csize + cc <= g.csize
    ensures k + cc <= |Sectors(g, ch)|
    ensures forall x | k <= x < k + cc :: Sectors(g, ch)[x] == Sectors(g, ch)[k] + (x - k)
  {
    SectorAt(g, ch, k);
    SectorsLength(g, ch);
    hide Sectors, Clust2Sect;
    ClusterRoom(g.csize, |ch|, k, cc);
    forall x | k <= x < k + cc ensures Sectors(g, ch)[x] == Sectors(g, ch)[k] + (x - k) {
      SectorAt(g, ch, x);
      WithinCluster(g.csize, k, x - k);
    }
  }

  lemma ClusterRoom(csize: nat, n: nat, k: nat, cc: nat)
    requires 0 < csize && k / csize < n && k % csize + cc <= csize
    ensures k + cc <= n * csize
  {
    var q := k / csize;
    assert k == csize * q + k % csize;
    assert (q + 1) * csize == csize * q + csize;
    MulMono(q + 1, n, csize);
  }

  lemma WithinCluster(csize: nat, k: nat, j: nat)
    requires 0 < csize && k % csize + j < csize
    ensures (k + j) / csize == k / csize && (k + j) % csize == k % csize + j
  {
    assert k == csize * (k / csize) + k % csize;
    ModUnique(k + j, csize, k / csize, k % csize + j);
  }

  lemma MulMono(a: nat, b: nat, m: nat)
    requires a <= b
    ensures a * m <= b * m
  {
  }

  /** The bytes of `cc` sectors in a row. */
  ghost function RunBytes(d: seq<Sector>, s: nat, cc: nat): (r: seq<byte>)
    requires s + cc <= |d|
    ensures |r| == SS * cc
  {
    seq(SS * cc, i requires 0 <= i < SS * cc => d[s + i / SS][i % SS])
  }

  lemma RunBytesStep(d: seq<Sector>, s: nat, cc: nat)
    requires s + cc < |d|
    ensures RunBytes(d, s, cc + 1) == RunBytes(d, s, cc) + d[s + cc]
    ensures RunBytes(d, s, 0) == []
  {
    var a, b := RunBytes(d, s, cc + 1), RunBytes(d, s, cc) + d[s + cc];
    forall i | 0 <= i < SS * cc + SS ensures a[i] == b[i] {
      SectorByte(i, cc);
    }
  }

  /** Whole sectors read in a row within a cluster are the file's bytes. */
  lemma RunIsContent(v: seq<Sector>, secs: seq<nat>, n: nat, k: nat, cc: nat)
    requires OnDisk(secs, |v|) && 0 < cc && k + cc <= |secs| && SS * k + SS * cc <= n <= SS * |secs|
    requires forall x | k <= x < k + cc :: secs[x] == secs[k] + (x - k)
    ensures secs[k] + cc <= |v| && RunBytes(v, secs[k], cc) == Bytes(v, secs, n)[SS * k..SS * k + SS * cc]
  {
    assert secs[k + cc - 1] == secs[k] + (cc - 1);
    var a, b := RunBytes(v, secs[k], cc), Bytes(v, secs, n)[SS * k..SS * k + SS * cc];
    forall i | 0 <= i < SS * cc ensures a[i] == b[i] {
      assert secs[k + i / SS] == secs[k] + i / SS;
      assert (SS * k + i) / SS == k + i / SS && (SS * k + i) % SS == i % SS;
    }
  }

  /** Reading around a dirty buffer and patching the buffer in shows the disk under the buffer. */
  lemma RunUnderBuffer(d: seq<Sector>, s: nat, cc: nat, t: nat, b: Sector)
    requires s + cc <= |d| && t < |d|
    ensures var v := d[t := b];
            RunBytes(v, s, cc) == if s <= t < s + cc then Patch(RunBytes(d, s, cc), SS * (t - s), b) else RunBytes(d, s, cc)
  {
    var v := d[t := b];
    var a := RunBytes(v, s, cc);
    var e := if s <= t < s + cc then Patch(RunBytes(d, s, cc), SS * (t - s), b) else RunBytes(d, s, cc);
    forall i | 0 <= i < SS * cc ensures a[i] == e[i] {
      if s <= t {
        SectorByte(i, t - s);
      }
    }
  }

  /** Part of a sector is the file's bytes. */
  lemma PartIsContent(v: seq<Sector>, secs: seq<nat>, n: nat, at: nat, m: nat)
    requires OnDisk(secs, |v|) && at % SS + m <= SS && at + m <= n <= SS * |secs| && at / SS < |secs|
    ensures v[secs[at / SS]][at % SS..at % SS + m] == Bytes(v, secs, n)[at..at + m]
  {
    var a, b := v[secs[at / SS]][at % SS..at % SS + m], Bytes(v, secs, n)[at..at + m];
    forall i | 0 <= i < m ensures a[i] == b[i] {
      assert (at + i) / SS == at / SS && (at + i) % SS == at % SS + i;
    }
  }
}
