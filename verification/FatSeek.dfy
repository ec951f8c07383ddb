/** Moving the file pointer (ff.c, f_lseek): the walk along the chain, the link map and the lookup
    in it, and the proof that both ways of seeking leave the file in the same state. */
module FatSeek {
  import opened FatLayout
  import opened FatWindow
  import opened FatChains
  import opened ChainRuns
  import opened FileLayout
  import opened FatFile

  /** The bytes of a cluster. */
  function ClusterBytes(csize: nat): (m: nat)
    requires 0 < csize
    ensures 0 < m
  {
    csize * SS
  }

  /** Line 2643: the first byte of the cluster of byte `b`. */
  function ClusterFloor(b: nat, csize: nat): nat
    requires 0 < csize
  {
    b / ClusterBytes(csize) * ClusterBytes(csize)
  }

  /** The walk stands at cluster number `i` of the chain: `curr` is that cluster, and `at` is its
      first byte. */
  ghost predicate AtCluster(ch: seq<nat>, csize: nat, curr: nat, at: nat, i: nat) {
    i < |ch| && curr == ch[i] && at == i * (csize * SS)
  }

  lemma AtFirst(ch: seq<nat>, csize: nat)
    requires ch != []
    ensures AtCluster(ch, csize, ch[0], 0, 0)
  {
  }

  /** Dividing by the bytes of a cluster is dividing by those of a sector, then by its sectors. */
  lemma ClusterQuotient(b: nat, csize: nat)
    requires 0 < csize
    ensures b / ClusterBytes(csize) == ClusterIx(b, csize)
    ensures ClusterFloor(b, csize) <= b
  {
    var m := csize * SS;
    var q, k := b / SS / csize, b / SS;
    assert k == csize * q + k % csize;
    assert b == k * SS + b % SS;
    assert m * q == csize * q * SS;
    assert k % csize * SS <= (csize - 1) * SS;
    ModUnique(b, m, q, k % csize * SS + b % SS);
  }

  /** Where a forward seek starts: the cluster of the byte before the file pointer. */
  lemma AtCurrent(ch: seq<nat>, csize: nat, curr: nat, fptr: nat)
    requires 0 < csize && 0 < fptr && CurrOk(ch, csize, curr, fptr - 1)
    ensures AtCluster(ch, csize, curr, ClusterFloor(fptr - 1, csize), ClusterIx(fptr - 1, csize))
  {
    ClusterQuotient(fptr - 1, csize);
  }

  lemma AtStep(ch: seq<nat>, csize: nat, curr: nat, at: nat, i: nat)
    requires AtCluster(ch, csize, curr, at, i) && i + 1 < |ch|
    ensures AtCluster(ch, csize, ch[i + 1], at + csize * SS, i + 1)
  {
  }

  lemma AtLonger(p: seq<nat>, ch: seq<nat>, csize: nat, curr: nat, at: nat, i: nat)
    requires AtCluster(p, csize, curr, at, i) && p <= ch
    ensures AtCluster(ch, csize, curr, at, i)
  {
  }

  /** The cluster the walk stands at lies within the file's sectors. */
  lemma AtBound(g: Geometry, ch: seq<nat>, curr: nat, at: nat, i: nat)
    requires AtCluster(ch, g.csize, curr, at, i)
    ensures at + g.csize * SS <= SS * |Sectors(g, ch)|
    ensures i + 1 == |ch| ==> at + g.csize * SS == SS * |Sectors(g, ch)|
  {
    SectorsLength(g, ch);
    MulMono(i + 1, |ch|, g.csize * SS);
    assert |ch| * (g.csize * SS) == |ch| * g.csize * SS;
  }

  /** A byte of the cluster the walk stands at. */
  lemma AtByte(g: Geometry, ch: seq<nat>, curr: nat, at: nat, i: nat, j: nat)
    requires 0 < g.csize && AtCluster(ch, g.csize, curr, at, i) && j < g.csize * SS
    ensures (at + j) % SS == j % SS
    ensures CurrOk(ch, g.csize, curr, at + j)
    ensures (at + j) / SS < |Sectors(g, ch)| && Sectors(g, ch)[(at + j) / SS] == Clust2Sect(g, curr) + j / SS
  {
    hide Sectors, Clust2Sect;
    var x := at + j;
    ByteOfCluster(g.csize, at, i, j);
    ByteCluster(g, ch, x);
    CurrSector(g, ch, curr, x);
  }

  lemma ByteOfCluster(csize: nat, at: nat, i: nat, j: nat)
    requires 0 < csize && at == i * (csize * SS) && j < csize * SS
    ensures (at + j) % SS == j % SS && ClusterIx(at + j, csize) == i && Csect(at + j, csize) == j / SS
  {
    var k := i * csize;
    assert at == k * SS;
    assert j / SS < csize;
    ModUnique(at + j, SS, k + j / SS, j % SS);
    ModUnique(k + j / SS, csize, i, j / SS);
  }

  /** The file pointer `n` bytes into the cluster the walk stands at, which may be its end. */
  lemma AtDone(g: Geometry, ch: seq<nat>, curr: nat, at: nat, i: nat, n: nat)
    requires 0 < g.csize && AtCluster(ch, g.csize, curr, at, i) && 0 < n <= g.csize * SS
    ensures CurrOk(ch, g.csize, curr, at + n - 1) && at + n <= SS * |Sectors(g, ch)|
    ensures (at + n) % SS == n % SS
    ensures n % SS != 0 ==>
              (at + n) / SS < |Sectors(g, ch)| && Sectors(g, ch)[(at + n) / SS] == Clust2Sect(g, curr) + n / SS
  {
    AtByte(g, ch, curr, at, i, n - 1);
    AtBound(g, ch, curr, at, i);
    hide Sectors, Clust2Sect, CurrOk;
    if n % SS != 0 {
      NotFull(g.csize, n);
      AtByte(g, ch, curr, at, i, n);
    } else {
      WholeAt(g.csize, at, i, n);
    }
  }

  lemma WholeAt(csize: nat, at: nat, i: nat, n: nat)
    requires at == i * (csize * SS) && n % SS == 0
    ensures (at + n) % SS == 0
  {
    assert at == i * csize * SS;
    assert n == n / SS * SS;
    ModUnique(at + n, SS, i * csize + n / SS, 0);
  }

  lemma NotFull(csize: nat, n: nat)
    requires n <= csize * SS && n % SS != 0
    ensures n < csize * SS
  {
  }

  lemma AtMid(t: seq<nat>, ch: seq<nat>, org: nat, csize: nat, curr: nat, at: nat, i: nat)
    requires ChainHeld(t, ch, org) && AtCluster(ch, csize, curr, at, i)
    ensures curr in ch && 2 <= curr < |t|
    ensures if i + 1 < |ch| then 2 <= t[curr] == ch[i + 1] < |t| else t[curr] >= |t|
  {
    MidOrLast(t, ch, org, i);
  }

  lemma Appended(p: seq<nat>, c: nat, ch: seq<nat>)
    requires ch == p + [c]
    ensures p <= ch && |p| < |ch| && ch[|p|] == c
  {
  }

  /** Lines 2660-2671: the next cluster of the walk; in write mode the chain is stretched. */
  method Advance(fp: File, ghost i: nat) returns (clst: nat)
    requires fp.Core() && AtCluster(fp.ch, fp.fs.g.csize, fp.currClust, fp.fptr, i)
    requires fp.writable || i + 1 < |fp.ch|
    modifies fp.fs`dev, fp.fs`winsect, fp.fs`wflag, fp.fs`fsiFlag, fp.fs`freeClust, fp.fs`lastClust, fp.fs.win
    modifies fp`ch, fp`orgClust
    ensures fp.Core() && fp.Content() == old(fp.Content()) && Untouched(fp.fs.g, old(fp.View()), fp.View(), [])
    ensures Grows(old(fp.fs.Fat()), fp.fs.Fat(), old(fp.ch), fp.ch)
    ensures i + 1 < |old(fp.ch)| ==> clst != 0 && fp.ch == old(fp.ch)
    ensures clst == 0 ==> Free(fp.fs.Fat()) == {} && fp.ch == old(fp.ch) && i + 1 == |fp.ch|
    ensures clst != 0 ==> AtCluster(fp.ch, fp.fs.g.csize, clst, fp.fptr + fp.fs.g.csize * SS, i + 1)
  {
    hide *;
    fp.CoreFacts();
    AtMid(fp.fs.Fat(), fp.ch, fp.orgClust, fp.fs.g.csize, fp.currClust, fp.fptr, i);
    AtPlace(fp.ch, fp.fs.g.csize, fp.currClust, fp.fptr, i);
    ghost var p := fp.ch;
    if fp.writable {
      clst := fp.Stretch(fp.currClust);
      if fp.ch != p {
        Appended(p, clst, fp.ch);
        AtLonger(p, fp.ch, fp.fs.g.csize, fp.currClust, fp.fptr, i);
      }
    } else {
      GrowsNothing(fp.fs.Fat(), p);
      UntouchedSame(fp.fs.g, fp.View());
      clst := fp.Link(fp.currClust);
    }
    if clst != 0 {
      AtStep(fp.ch, fp.fs.g.csize, fp.currClust, fp.fptr, i);
    }
  }

  lemma AtPlace(ch: seq<nat>, csize: nat, curr: nat, at: nat, i: nat)
    requires AtCluster(ch, csize, curr, at, i)
    ensures i < |ch| && ch != []
  {
  }

  /** The file as the walk began it. */
  ghost predicate Begun(g: Geometry, v0: seq<Sector>, t0: seq<nat>, p0: seq<nat>, c0: seq<byte>,
                        v: seq<Sector>, t: seq<nat>, p: seq<nat>, c: seq<byte>) {
    Untouched(g, v0, v, []) && Grows(t0, t, p0, p) && c0 <= c
  }

  lemma BegunSame(g: Geometry, v: seq<Sector>, t: seq<nat>, p: seq<nat>, c: seq<byte>)
    ensures Begun(g, v, t, p, c, v, t, p, c)
  {
  }

  lemma BegunFacts(g: Geometry, v0: seq<Sector>, t0: seq<nat>, p0: seq<nat>, c0: seq<byte>,
                   v: seq<Sector>, t: seq<nat>, p: seq<nat>, c: seq<byte>)
    requires Begun(g, v0, t0, p0, c0, v, t, p, c)
    ensures Untouched(g, v0, v, []) && Grows(t0, t, p0, p) && c0 <= c && |p0| <= |p| && (|p| == |p0| ==> p == p0)
  {
  }

  lemma BegunThen(g: Geometry, v0: seq<Sector>, t0: seq<nat>, p0: seq<nat>, c0: seq<byte>,
                  v: seq<Sector>, t: seq<nat>, p: seq<nat>, c: seq<byte>, org: nat,
                  w: seq<Sector>, u: seq<nat>, q: seq<nat>)
    requires Begun(g, v0, t0, p0, c0, v, t, p, c) && ChainHeld(t, p, org)
    requires Untouched(g, v, w, []) && Grows(t, u, p, q)
    ensures Begun(g, v0, t0, p0, c0, w, u, q, c)
  {
    HeldInUse(t, p, org);
    GrowsTwice(t0, t, u, p0, p, q);
    UntouchedTwice(g, v0, v, w, []);
  }

  /** Only the file pointer moves: the bytes below the file's size stay. */
  method MoveTo(fp: File, at: dword, ghost c0: seq<byte>)
    requires fp.Core() && at <= SS * |fp.Secs()| && |c0| <= fp.fsize && c0 <= fp.Content()
    modifies fp`fptr
    ensures fp.Core() && fp.fptr == at && fp.View() == old(fp.View()) && c0 <= fp.Content()
    ensures fp.Size() == if at > fp.fsize then at else fp.fsize
    ensures at <= fp.fsize && old(fp.fptr) <= fp.fsize ==> fp.Content() == old(fp.Content())
  {
    hide *;
    fp.CoreFacts();
    ghost var v, secs, n := fp.View(), fp.Secs(), fp.Size();
    fp.fptr := at;
    fp.CoreIntro();
    fp.CoreFacts();
    PrefixBytes(v, secs, n, fp.Size(), |c0|);
  }

  lemma PrefixBytes(v: seq<Sector>, secs: seq<nat>, n: nat, m: nat, k: nat)
    requires OnDisk(secs, |v|) && k <= n <= SS * |secs| && k <= m <= SS * |secs|
    ensures Bytes(v, secs, n)[..k] == Bytes(v, secs, m)[..k]
  {
  }

  lemma PositiveBytes(csize: nat)
    requires 0 < csize
    ensures 0 < csize * SS
  {
  }

  lemma BegunMoved(g: Geometry, v0: seq<Sector>, t0: seq<nat>, p0: seq<nat>, c0: seq<byte>,
                   v: seq<Sector>, t: seq<nat>, p: seq<nat>, c: seq<byte>, e: seq<byte>)
    requires Begun(g, v0, t0, p0, c0, v, t, p, c) && c0 <= e
    ensures Begun(g, v0, t0, p0, c0, v, t, p, e)
  {
  }

  /** Lines 2659-2674: follow the chain until `ofs` lies in the cluster. */
  method Walk(fp: File, ofs0: nat, ghost i0: nat, ghost v0: seq<Sector>, ghost t0: seq<nat>, ghost p0: seq<nat>,
              ghost c0: seq<byte>) returns (ofs: nat, full: bool, ghost i: nat)
    requires fp.Core() && AtCluster(fp.ch, fp.fs.g.csize, fp.currClust, fp.fptr, i0) && 0 < ofs0 && fp.fptr + ofs0 < U32
    requires fp.fptr <= fp.fsize && (!fp.writable ==> fp.fptr + ofs0 <= fp.fsize)
    requires Begun(fp.fs.g, v0, t0, p0, c0, fp.View(), fp.fs.Fat(), fp.ch, fp.Content()) && |c0| == fp.fsize
    modifies fp.fs`dev, fp.fs`winsect, fp.fs`wflag, fp.fs`fsiFlag, fp.fs`freeClust, fp.fs`lastClust, fp.fs.win
    modifies fp`ch, fp`orgClust, fp`currClust, fp`fptr
    ensures fp.Core() && Begun(fp.fs.g, v0, t0, p0, c0, fp.View(), fp.fs.Fat(), fp.ch, fp.Content())
    ensures AtCluster(fp.ch, fp.fs.g.csize, fp.currClust, fp.fptr, i) && 0 < ofs <= fp.fs.g.csize * SS
    ensures !full ==> fp.fptr + ofs == old(fp.fptr) + ofs0
    ensures full ==> Free(fp.fs.Fat()) == {} && i + 1 == |fp.ch| && ofs == fp.fs.g.csize * SS
                     && fp.fptr + ofs < old(fp.fptr) + ofs0
    ensures old(fp.fptr) + ofs0 <= fp.fsize ==> !full && fp.ch == old(fp.ch)
  {
    hide *;
    fp.CoreFacts();
    i, ofs, full := i0, ofs0, false;
    ghost var target := fp.fptr + ofs0;
    var bcs := fp.fs.g.csize * SS;
    PositiveBytes(fp.fs.g.csize);
    while ofs > bcs
      invariant fp.Core() && fp.fs.Valid() && AtCluster(fp.ch, fp.fs.g.csize, fp.currClust, fp.fptr, i)
      invariant 0 < ofs && fp.fptr + ofs == target
      invariant Begun(fp.fs.g, v0, t0, p0, c0, fp.View(), fp.fs.Fat(), fp.ch, fp.Content())
      invariant target <= fp.fsize ==> fp.ch == old(fp.ch)
    {
      fp.CoreFacts();
      AtBound(fp.fs.g, fp.ch, fp.currClust, fp.fptr, i);
      AtPlace(fp.ch, fp.fs.g.csize, fp.currClust, fp.fptr, i);
      ghost var v, t, p, c, org, n := fp.View(), fp.fs.Fat(), fp.ch, fp.Content(), fp.orgClust, fp.Size();
      var clst := Advance(fp, i);
      fp.CoreFacts();
      BegunThen(fp.fs.g, v0, t0, p0, c0, v, t, p, c, org, fp.View(), fp.fs.Fat(), fp.ch);
      if clst == 0 {
        ofs := bcs;
        full := true;
        break;
      }
      AtBound(fp.fs.g, fp.ch, clst, fp.fptr + bcs, i + 1);
      fp.currClust := clst;
      BegunFacts(fp.fs.g, v0, t0, p0, c0, fp.View(), fp.fs.Fat(), fp.ch, c);
      MoveTo(fp, fp.fptr + bcs, c0);
      ofs := ofs - bcs;
      i := i + 1;
      BegunMoved(fp.fs.g, v0, t0, p0, c0, fp.View(), fp.fs.Fat(), fp.ch, c, fp.Content());
    }
  }

  /** Lines 2640-2657: start from the current cluster when the target lies in it or behind it, and
      from the first one otherwise. */
  method StartSeek(fp: File, ofs: dword) returns (rest: nat, none: bool, ghost i: nat)
    requires fp.Valid() && fp.Core() && 0 < ofs && (!fp.writable ==> ofs <= fp.fsize)
    modifies fp.fs`dev, fp.fs`winsect, fp.fs`wflag, fp.fs`fsiFlag, fp.fs`freeClust, fp.fs`lastClust, fp.fs.win
    modifies fp`ch, fp`orgClust, fp`currClust, fp`fptr
    ensures fp.Core() && fp.fptr <= fp.fsize
    ensures Begun(fp.fs.g, old(fp.View()), old(fp.fs.Fat()), old(fp.ch), old(fp.Content()),
                  fp.View(), fp.fs.Fat(), fp.ch, fp.Content())
    ensures none ==> Free(fp.fs.Fat()) == {} && fp.ch == [] && fp.fptr == 0
    ensures !none ==> AtCluster(fp.ch, fp.fs.g.csize, fp.currClust, fp.fptr, i) && 0 < rest && fp.fptr + rest == ofs
    ensures ofs <= fp.fsize ==> fp.ch == old(fp.ch) && !none
  {
    hide *;
    fp.ValidFacts();
    fp.ReadyFacts();
    fp.CoreFacts();
    ghost var v, t, p, c := fp.View(), fp.fs.Fat(), fp.ch, fp.Content();
    BegunSame(fp.fs.g, v, t, p, c);
    none, i, rest := false, 0, ofs;
    var ifptr, csize := fp.fptr, fp.fs.g.csize;
    MoveTo(fp, 0, c);
    if ifptr > 0 && (ofs - 1) / ClusterBytes(csize) >= (ifptr - 1) / ClusterBytes(csize) {
      FloorBound(ofs - 1, ifptr - 1, csize);
      AtCurrent(fp.ch, csize, fp.currClust, ifptr);
      i := ClusterIx(ifptr - 1, csize);
      AtBound(fp.fs.g, fp.ch, fp.currClust, ClusterFloor(ifptr - 1, csize), i);
      MoveTo(fp, ClusterFloor(ifptr - 1, csize), c);
      rest := ofs - fp.fptr;
    } else {
      OriginOrNone(fp.fs.g, t, p, fp.orgClust);
      var clst := fp.orgClust;
      if clst == 0 {
        clst := fp.Stretch(0);
        fp.CoreFacts();
        none := clst == 0;
        BegunThen(fp.fs.g, v, t, p, c, v, t, p, c, old(fp.orgClust), fp.View(), fp.fs.Fat(), fp.ch);
      }
      fp.currClust := clst;
      if !none {
        AtFirst(fp.ch, csize);
      }
    }
  }

  lemma OriginOrNone(g: Geometry, t: seq<nat>, ch: seq<nat>, org: nat)
    requires ChainHeld(t, ch, org)
    ensures if org == 0 then ch == [] && |Sectors(g, ch)| == 0 else ch != [] && org == ch[0]
  {
  }

  lemma FloorBound(b: nat, c: nat, csize: nat)
    requires 0 < csize && b / ClusterBytes(csize) >= c / ClusterBytes(csize)
    ensures ClusterFloor(c, csize) <= b && ClusterFloor(c, csize) <= c
  {
    MulMono(c / ClusterBytes(csize), b / ClusterBytes(csize), ClusterBytes(csize));
    ClusterQuotient(b, csize);
    ClusterQuotient(c, csize);
  }

  /** The part of a file object that a seek sets. */
  datatype Place = Place(fptr: nat, curr: nat, dsect: nat, dirty: bool, buf: seq<byte>)

  /** The file object's place after a seek to `ofs` within the file, from the place before it and the
      disk under the buffer. */
  ghost predicate Sought(ofs: nat, secs: seq<nat>, ch: seq<nat>, csize: nat, v: seq<Sector>, b: Place, e: Place)
    requires 0 < csize
  {
    && e.fptr == ofs
    && (if ofs == 0 then e.curr == b.curr else CurrOk(ch, csize, e.curr, ofs - 1))
    && (if ofs % SS == 0 then e.dsect == b.dsect else ofs / SS < |secs| && e.dsect == secs[ofs / SS])
    && (if e.dsect == b.dsect then e.dirty == b.dirty && e.buf == b.buf
        else !e.dirty && e.dsect < |v| && e.buf == v[e.dsect])
  }

  /** Two seeks to the same place from the same state leave the same file pointer, current cluster,
      buffered sector and buffer. */
  lemma SeeksAgree(ofs: nat, secs: seq<nat>, ch: seq<nat>, csize: nat, v: seq<Sector>, b: Place, e: Place, f: Place)
    requires 0 < csize && Sought(ofs, secs, ch, csize, v, b, e) && Sought(ofs, secs, ch, csize, v, b, f)
    ensures e == f
  {
  }

  /** Lines 2683-2696 and 2608-2621: bring the sector of the file pointer into the buffer, unless it
      is there. */
  method SeekBuffer(fp: File, sect: nat)
    requires fp.Core() && fp.fptr % SS != 0 && fp.fptr / SS < |fp.Secs()| && sect == fp.Secs()[fp.fptr / SS]
    modifies fp.fs`dev, fp.buf, fp`dirty, fp`dsect
    ensures fp.Core() && fp.View() == old(fp.View()) && fp.Content() == old(fp.Content()) && fp.fs.Fat() == old(fp.fs.Fat())
    ensures fp.dsect == sect < |fp.View()|
    ensures if sect == old(fp.dsect) then fp.dirty == old(fp.dirty) && fp.buf[..] == old(fp.buf[..])
            else !fp.dirty && fp.buf[..] == fp.View()[sect]
  {
    hide *;
    fp.CoreFacts();
    InSecs(fp.Secs(), fp.fptr / SS, fp.fs.g.sectors);
    if sect != fp.dsect {
      fp.Flush();
      fp.CoreFacts();
      var data := fp.fs.GetSector(sect);
      fp.CopyIn(0, data);
      fp.dsect := sect;
      BufferClean(fp.fs.Logical(), fp.Secs(), fp.dsect, fp.buf[..]);
      fp.CoreIntro();
      fp.CoreFacts();
    }
  }

  /** Lines 2675-2696: the file pointer within the cluster the walk stands at, and its sector. */
  method Finish(fp: File, rest: nat, ghost i: nat, ghost c0: seq<byte>)
    requires fp.Core() && AtCluster(fp.ch, fp.fs.g.csize, fp.currClust, fp.fptr, i)
    requires 0 < rest <= fp.fs.g.csize * SS && fp.fptr + rest < U32
    requires |c0| <= fp.fsize && c0 <= fp.Content()
    modifies fp.fs`dev, fp.buf, fp`dirty, fp`dsect, fp`fptr
    ensures fp.Core() && fp.Ready() && fp.fptr == old(fp.fptr) + rest
    ensures fp.View() == old(fp.View()) && fp.fs.Fat() == old(fp.fs.Fat()) && c0 <= fp.Content()
    ensures fp.fptr > 0 && Sought(fp.fptr, fp.Secs(), fp.ch, fp.fs.g.csize, old(fp.View()),
                                  Place(0, 0, old(fp.dsect), old(fp.dirty), old(fp.buf[..])), Here(fp))
  {
    hide *;
    fp.CoreFacts();
    AtDone(fp.fs.g, fp.ch, fp.currClust, fp.fptr, i, rest);
    var sect := Clust2Sect(fp.fs.g, fp.currClust) + rest / SS;
    ghost var to := fp.fptr + rest;
    SectorThereIs(to, rest, fp.Secs(), sect);
    MoveTo(fp, fp.fptr + rest, c0);
    Settle(fp, sect, c0);
  }

  /** `sect` is the sector of byte `fptr`, off a sector boundary. */
  ghost predicate SectorThere(fptr: nat, secs: seq<nat>, sect: nat) {
    fptr % SS != 0 ==> fptr / SS < |secs| && secs[fptr / SS] == sect
  }

  lemma SectorThereIs(fptr: nat, rest: nat, secs: seq<nat>, sect: nat)
    requires fptr % SS == rest % SS && (rest % SS != 0 ==> fptr / SS < |secs| && secs[fptr / SS] == sect)
    ensures SectorThere(fptr, secs, sect)
  {
  }

  lemma SectorThereAt(fptr: nat, secs: seq<nat>, sect: nat)
    requires SectorThere(fptr, secs, sect)
    ensures fptr % SS != 0 ==> fptr / SS < |secs| && secs[fptr / SS] == sect
  {
  }

  /** Lines 2683-2696: the sector of the file pointer comes into the buffer. */
  method Settle(fp: File, sect: nat, ghost c0: seq<byte>)
    requires fp.Core() && 0 < fp.fptr && 0 < fp.fs.g.csize && CurrOk(fp.ch, fp.fs.g.csize, fp.currClust, fp.fptr - 1)
    requires SectorThere(fp.fptr, fp.Secs(), sect) && c0 <= fp.Content()
    modifies fp.fs`dev, fp.buf, fp`dirty, fp`dsect
    ensures fp.Core() && fp.Ready()
    ensures fp.View() == old(fp.View()) && fp.fs.Fat() == old(fp.fs.Fat()) && c0 <= fp.Content() && fp.fs.g.csize > 0
    ensures Sought(fp.fptr, fp.Secs(), fp.ch, fp.fs.g.csize, old(fp.View()),
                   Place(0, 0, old(fp.dsect), old(fp.dirty), old(fp.buf[..])), Here(fp))
  {
    hide *;
    fp.CoreFacts();
    SectorThereAt(fp.fptr, fp.Secs(), sect);
    if fp.fptr % SS != 0 {
      SeekBuffer(fp, sect);
      fp.CoreFacts();
    }
    fp.ReadyIntro();
    SoughtIntro(fp.Secs(), fp.ch, fp.fs.g.csize, old(fp.View()),
                Place(0, 0, old(fp.dsect), old(fp.dirty), old(fp.buf[..])),
                Place(fp.fptr, fp.currClust, fp.dsect, fp.dirty, fp.buf[..]));
    HereIs(fp);
  }

  ghost function Here(fp: File): Place
    reads fp`fptr, fp`currClust, fp`dsect, fp`dirty, fp.buf
  {
    Place(fp.fptr, fp.currClust, fp.dsect, fp.dirty, fp.buf[..])
  }

  lemma HereIs(fp: File)
    ensures Here(fp) == Place(fp.fptr, fp.currClust, fp.dsect, fp.dirty, fp.buf[..])
  {
  }

  lemma SoughtIntro(secs: seq<nat>, ch: seq<nat>, csize: nat, v: seq<Sector>, b: Place, e: Place)
    requires 0 < csize
    requires if e.fptr == 0 then e.curr == b.curr else CurrOk(ch, csize, e.curr, e.fptr - 1)
    requires if e.fptr % SS == 0 then e.dsect == b.dsect else e.fptr / SS < |secs| && e.dsect == secs[e.fptr / SS]
    requires if e.dsect == b.dsect then e.dirty == b.dirty && e.buf == b.buf
             else !e.dirty && e.dsect < |v| && e.buf == v[e.dsect]
    ensures Sought(e.fptr, secs, ch, csize, v, b, e)
  {
  }

  lemma SoughtAs(ofs: nat, secs: seq<nat>, ch: seq<nat>, csize: nat, v: seq<Sector>, w: seq<Sector>,
                 b: Place, c: Place, e: Place)
    requires 0 < csize && 0 < ofs && Sought(ofs, secs, ch, csize, v, b, e)
    requires b.dsect == c.dsect && b.dirty == c.dirty && b.buf == c.buf
    requires |v| == |w| && forall s | s in secs && s < |v| :: w[s] == v[s]
    ensures Sought(ofs, secs, ch, csize, w, c, e)
  {
  }

  /** Lines 2639-2696 for a target behind the first byte. */
  method Reach(fp: File, target: dword)
    requires fp.Core() && fp.Valid() && 0 < target && (!fp.writable ==> target <= fp.fsize)
    modifies fp.fs`dev, fp.fs`winsect, fp.fs`wflag, fp.fs`fsiFlag, fp.fs`freeClust, fp.fs`lastClust, fp.fs.win, fp.buf
    modifies fp`ch, fp`orgClust, fp`currClust, fp`fptr, fp`dsect, fp`dirty
    ensures fp.Core() && fp.Ready()
    ensures Begun(fp.fs.g, old(fp.View()), old(fp.fs.Fat()), old(fp.ch), old(fp.Content()),
                  fp.View(), fp.fs.Fat(), fp.ch, fp.Content())
    ensures fp.fptr == target || (Free(fp.fs.Fat()) == {} && fp.fsize < target && fp.fptr < target
                                  && fp.fptr == SS * |fp.Secs()|)
    ensures target <= fp.fsize ==>
              fp.ch == old(fp.ch) && fp.fs.g.csize > 0
              && Sought(target, fp.Secs(), fp.ch, fp.fs.g.csize, old(fp.View()), old(Here(fp)), Here(fp))
  {
    hide *;
    fp.ValidFacts();
    fp.CoreFacts();
    HereIs(fp);
    ghost var v, t, p, c, b := fp.View(), fp.fs.Fat(), fp.ch, fp.Content(), Here(fp);
    var rest, none, i := StartSeek(fp, target);
    fp.CoreFacts();
    if none {
      OriginOrNone(fp.fs.g, fp.fs.Fat(), fp.ch, fp.orgClust);
      fp.ReadyIntro();
    } else {
      ghost var full;
      rest, full, i := Walk(fp, rest, i, v, t, p, c);
      fp.CoreFacts();
      AtBound(fp.fs.g, fp.ch, fp.currClust, fp.fptr, i);
      ghost var c1, v1 := fp.Content(), fp.View();
      BegunFacts(fp.fs.g, v, t, p, c, fp.View(), fp.fs.Fat(), fp.ch, c1);
      Finish(fp, rest, i, c);
      fp.CoreFacts();
      BegunMoved(fp.fs.g, v, t, p, c, fp.View(), fp.fs.Fat(), fp.ch, c1, fp.Content());
      if target <= fp.fsize {
        SoughtAs(target, fp.Secs(), fp.ch, fp.fs.g.csize, v1, v, Place(0, 0, b.dsect, b.dirty, b.buf), b, Here(fp));
      }
    }
  }

  /** Lines 2637-2639 for the first byte. */
  method Rewind(fp: File)
    requires fp.Core() && fp.Valid()
    modifies fp`fptr
    ensures fp.Core() && fp.Ready() && fp.fptr == 0 && fp.View() == old(fp.View()) && fp.Content() == old(fp.Content())
    ensures fp.fs.g.csize > 0
            && Sought(0, fp.Secs(), fp.ch, fp.fs.g.csize, fp.View(), old(Here(fp)), Here(fp))
  {
    hide *;
    fp.ValidFacts();
    fp.CoreFacts();
    HereIs(fp);
    ghost var b, c := Here(fp), fp.Content();
    MoveTo(fp, 0, c);
    fp.CoreFacts();
    HereIs(fp);
    fp.ReadyIntro();
    SoughtIntro(fp.Secs(), fp.ch, fp.fs.g.csize, fp.View(), b, Here(fp));
  }

  /** Lines 2628-2703, the normal seek.  Within the file it goes exactly to `ofs`; in write mode it may
      go beyond the end, stretching the chain as far as the volume allows, and without write access it
      stops at the end.  No data sector changes. */
  method NormalSeek(fp: File, ofs: dword)
    requires fp.Core() && fp.Valid()
    modifies fp.fs`dev, fp.fs`winsect, fp.fs`wflag, fp.fs`fsiFlag, fp.fs`freeClust, fp.fs`lastClust, fp.fs.win, fp.buf
    modifies fp`ch, fp`orgClust, fp`currClust, fp`fptr, fp`fsize, fp`dsect, fp`dirty, fp`written
    ensures fp.Core() && fp.Valid()
    ensures Begun(fp.fs.g, old(fp.View()), old(fp.fs.Fat()), old(fp.ch), old(fp.Content()),
                  fp.View(), fp.fs.Fat(), fp.ch, fp.Content())
    ensures var target := if ofs > old(fp.fsize) && !fp.writable then old(fp.fsize) else ofs;
            && (fp.fptr == target
                || (Free(fp.fs.Fat()) == {} && old(fp.fsize) < target && fp.fptr < target && fp.fptr == SS * |fp.Secs()|))
            && fp.fsize == (if fp.fptr > old(fp.fsize) then fp.fptr else old(fp.fsize))
            && fp.written == (old(fp.written) || fp.fptr > old(fp.fsize))
    ensures ofs <= old(fp.fsize) ==>
              fp.ch == old(fp.ch) && fp.fs.g.csize > 0
              && Sought(ofs, fp.Secs(), fp.ch, fp.fs.g.csize, old(fp.View()), old(Here(fp)), Here(fp))
  {
    hide *;
    fp.ValidFacts();
    fp.CoreFacts();
    var target := if ofs > fp.fsize && !fp.writable then fp.fsize else ofs;
    if target == 0 {
      BegunSame(fp.fs.g, fp.View(), fp.fs.Fat(), fp.ch, fp.Content());
      Rewind(fp);
    } else {
      Reach(fp, target);
    }
    if fp.fptr > fp.fsize {
      fp.written := true;
    }
    fp.UpdateSize();
  }
}
