/** Directories on the volume (ff.c, dir_sdi, dir_next, dir_find, dir_register, dir_remove): the walk
    over a table's sectors through the window, proved against the table as a finite map. */
module FatDir {
  import opened Lists
  import opened FatLayout
  import opened FatWindow
  import opened FatChains
  import opened ChainRuns
  import opened FileLayout
  import opened FatFile
  import FatSeek
  import opened DirTable

  const MAX_ENTRIES: nat := 0x1_0000

  datatype DirResult = DirOk_ | NoFile | DirDenied | DirIntErr

  /** The fixed root directory of a FAT12 or FAT16 volume. */
  ghost function RootSecs(g: Geometry): (r: seq<nat>)
    ensures |r| == g.nRootdir / 16 && forall k | 0 <= k < |r| :: r[k] == g.dirbase + k
  {
    RootRun(g.dirbase, g.nRootdir / 16)
  }

  ghost function RootRun(s: nat, n: nat): (r: seq<nat>)
    ensures |r| == n && forall k | 0 <= k < n :: r[k] == s + k
  {
    if n == 0 then [] else RootRun(s, n - 1) + [s + (n - 1)]
  }

  /** The sectors of a directory's table; a directory without clusters is the fixed root. */
  ghost function TableSecs(g: Geometry, ch: seq<nat>): seq<nat> {
    if ch == [] then RootSecs(g) else Sectors(g, ch)
  }

  /** The bytes of a table that 16-bit entry numbers reach. */
  ghost function Reach(secs: seq<nat>): nat {
    if |secs| * 16 <= MAX_ENTRIES then SS * |secs| else 32 * MAX_ENTRIES
  }

  ghost function TableOf(v: seq<Sector>, secs: seq<nat>): seq<Slot>
    requires OnDisk(secs, |v|)
  {
    Entries(Bytes(v, secs, Reach(secs)))
  }

  lemma TableSectors(g: Geometry, t: seq<nat>, ch: seq<nat>, org: nat)
    requires g.Valid() && g.DataFits() && RootFits(g) && |t| == g.nFatent && ChainHeld(t, ch, org)
    requires g.kind == FAT32 ==> ch != []
    ensures var secs := TableSecs(g, ch);
            && Distinct(secs) && OnDisk(secs, g.sectors) && 0 < |secs|
            && forall k | 0 <= k < |secs| :: g.fatbase <= secs[k] && 0 < secs[k] && !g.InAnyFat(secs[k])
  {
    if ch != [] {
      HeldSectors(g, t, ch, org);
      SectorsLength(g, ch);
      MulBound2(g.csize, |ch|);
      hide Sectors, ChainHeld;
      var secs := Sectors(g, ch);
      forall k | 0 <= k < |secs| ensures g.fatbase <= secs[k] && 0 < secs[k] && !g.InAnyFat(secs[k]) {
        assert secs[k] in secs;
      }
    } else {
      RootTable(g);
    }
  }

  lemma RootTable(g: Geometry)
    requires g.Valid() && RootFits(g) && g.kind != FAT32
    ensures var secs := RootSecs(g);
            && Distinct(secs) && OnDisk(secs, g.sectors) && 0 < |secs|
            && forall k | 0 <= k < |secs| :: g.fatbase <= secs[k] && 0 < secs[k] && !g.InAnyFat(secs[k])
  {
    hide EntriesFit;
  }

  /** Entry `i`: the sector it lies in, its place there and the cluster of that sector. */
  ghost predicate PosAt(g: Geometry, ch: seq<nat>, i: nat, clust: nat, sect: nat, dir: nat) {
    && 0 < g.csize
    && i / 16 < |TableSecs(g, ch)| && sect == TableSecs(g, ch)[i / 16] && dir == i % 16 * 32
    && if ch == [] then clust == 0 else CurrOk(ch, g.csize, clust, 32 * i)
  }

  /** The position of an entry determines the fields of the directory object. */
  lemma OnePosition(g: Geometry, ch: seq<nat>, i: nat, clust: nat, sect: nat, dir: nat, clust2: nat, sect2: nat, dir2: nat)
    requires PosAt(g, ch, i, clust, sect, dir) && PosAt(g, ch, i, clust2, sect2, dir2)
    ensures clust == clust2 && sect == sect2 && dir == dir2
  {
  }

  /** An entry of the table is the 32 bytes at its place in its sector. */
  lemma SlotInSector(v: seq<Sector>, secs: seq<nat>, i: nat)
    requires OnDisk(secs, |v|) && i < |TableOf(v, secs)|
    ensures i / 16 < |secs| && i < MAX_ENTRIES && |TableOf(v, secs)| == Reach(secs) / 32
    ensures TableOf(v, secs)[i] == v[secs[i / 16]][i % 16 * 32..i % 16 * 32 + 32]
  {
    var n := Reach(secs);
    assert (32 * i) / SS == i / 16 && (32 * i) % SS == i % 16 * 32;
    PartIsContent(v, secs, n, 32 * i, 32);
  }

  lemma TableSize(v: seq<Sector>, secs: seq<nat>)
    requires OnDisk(secs, |v|)
    ensures |TableOf(v, secs)| == if |secs| * 16 <= MAX_ENTRIES then |secs| * 16 else MAX_ENTRIES
  {
  }

  lemma EntriesSplice(b: seq<byte>, i: nat, s: Slot)
    requires 32 * i + 32 <= |b|
    ensures Entries(Splice(b, 32 * i, s)) == Entries(b)[i := s]
  {
    var p, q := Entries(Splice(b, 32 * i, s)), Entries(b)[i := s];
    forall x | 0 <= x < |p| ensures p[x] == q[x] {
      var c := Splice(b, 32 * i, s);
      forall y | 0 <= y < 32 ensures p[x][y] == q[x][y] {
        assert p[x][y] == c[32 * x + y];
      }
    }
  }

  /** Storing an entry in its sector stores it in the table. */
  lemma StoreSlot(v: seq<Sector>, secs: seq<nat>, i: nat, s: Slot)
    requires OnDisk(secs, |v|) && Distinct(secs) && i < |TableOf(v, secs)|
    ensures i / 16 < |secs| && secs[i / 16] < |v|
    ensures TableOf(v[secs[i / 16] := Patch(v[secs[i / 16]], i % 16 * 32, s)], secs) == TableOf(v, secs)[i := s]
  {
    var n, k, off := Reach(secs), i / 16, i % 16 * 32;
    SlotInSector(v, secs, i);
    assert SS * k + off == 32 * i;
    BytesOfSector(v, secs, n, k, Patch(v[secs[k]], off, s), off, s);
    EntriesSplice(Bytes(v, secs, n), i, s);
  }

  function ZeroSector(): Sector {
    seq(512, i => 0)
  }

  ghost function ZeroRun(d: seq<Sector>, s: nat, n: nat): (r: seq<Sector>)
    ensures |r| == |d|
  {
    seq(|d|, x requires 0 <= x < |d| => ZeroOr(d[x], s <= x < s + n))
  }

  function ZeroOr(d: Sector, zero: bool): Sector {
    if zero then ZeroSector() else d
  }

  /** Lines 907-915: fill the new cluster with zeros, sector after sector through the window. */
  method ZeroFill(fs: Volume, s: nat, n: nat)
    requires fs.Valid() && 0 < n && s + n <= fs.g.sectors && 0 < s && fs.g.fatbase <= s
    requires forall x | s <= x < s + n :: !fs.g.InAnyFat(x)
    modifies fs`dev, fs`winsect, fs`wflag, fs.win
    ensures fs.Valid() && fs.winsect == s && !fs.wflag
    ensures fs.Logical() == ZeroRun(old(fs.Logical()), s, n) && fs.Fat() == old(fs.Fat())
  {
    ghost var d := fs.Logical();
    assert ZeroRun(d, s, 0) == d;
    fs.MoveWindow(0);
    assert !fs.wflag && fs.dev == d;
    forall i | 0 <= i < SS {
      fs.win[i] := 0;
    }
    assert fs.win[..] == ZeroSector();
    fs.winsect := s;
    var c := 0;
    hide EntriesFit, Geometry.FatArea, ZeroRun;
    while c < n
      invariant c <= n && fs.winsect == s + c && !fs.wflag && fs.win[..] == ZeroSector()
      invariant fs.win.Length == SS && |fs.dev| == fs.g.sectors && Mirrored(fs.g, fs.dev)
      invariant fs.dev == ZeroRun(d, s, c)
    {
      ZeroRunStep(d, s, c);
      FlushZeros(fs);
      fs.winsect := fs.winsect + 1;
      c := c + 1;
    }
    fs.winsect := fs.winsect - c;
    ZeroRunFirst(d, s, n);
    ZeroRunFat(fs.g, d, s, n);
  }

  lemma ZeroRunStep(d: seq<Sector>, s: nat, c: nat)
    requires s + c < |d|
    ensures ZeroRun(d, s, c + 1) == ZeroRun(d, s, c)[s + c := ZeroSector()]
  {
  }

  lemma ZeroRunFirst(d: seq<Sector>, s: nat, n: nat)
    requires 0 < n && s < |d|
    ensures ZeroRun(d, s, n)[s] == ZeroSector()
  {
  }

  lemma ZeroRunFat(g: Geometry, d: seq<Sector>, s: nat, n: nat)
    requires g.FatFits(|d|) && forall x | s <= x < s + n :: !g.InAnyFat(x)
    ensures FatBytes(g, ZeroRun(d, s, n)) == FatBytes(g, d)
  {
    assert forall x | g.InFat(x) :: g.InAnyFat(x);
    SameFatBytes(g, d, ZeroRun(d, s, n));
  }

  /** One round: the window, all zeros, goes to its sector. */
  method FlushZeros(fs: Volume)
    requires fs.g.Valid() && fs.win.Length == SS && |fs.dev| == fs.g.sectors && Mirrored(fs.g, fs.dev)
    requires 0 < fs.winsect < fs.g.sectors && fs.g.fatbase <= fs.winsect && !fs.g.InAnyFat(fs.winsect) && !fs.wflag
    modifies fs`dev, fs`wflag, fs`winsect, fs.win
    ensures fs.winsect == old(fs.winsect) && !fs.wflag && fs.win[..] == old(fs.win[..]) && |old(fs.win[..])| == 512
    ensures |fs.dev| == fs.g.sectors && Mirrored(fs.g, fs.dev) && fs.dev == old(fs.dev)[fs.winsect := old(fs.win[..])]
  {
    fs.wflag := true;
    ghost var w: Sector := fs.win[..];
    assert fs.Logical() == fs.dev[fs.winsect := w];
    fs.MoveWindow(0);
  }

  class Dir {
    const fs: Volume
    const sclust: nat
    var fn: Name
    var index: nat
    var clust: nat
    var sect: nat
    var dir: nat
    ghost var ch: seq<nat>

    /** Lines 835-839: the first cluster, 0 for the fixed root directory. */
    function Start(): nat {
      if sclust == 0 && fs.g.kind == FAT32 then fs.g.dirbase else sclust
    }

    ghost function Secs(): seq<nat>
      reads this`ch
    {
      TableSecs(fs.g, ch)
    }

    ghost predicate Valid()
      reads this`ch, fs`dev, fs`winsect, fs`wflag, fs.win
    {
      && fs.Valid() && fs.g.DataFits() && RootFits(fs.g)
      && ChainHeld(fs.Fat(), ch, Start()) && (fs.g.kind == FAT32 ==> ch != [])
    }

    ghost function Table(): (t: seq<Slot>)
      requires Valid()
      reads this`ch, fs`dev, fs`winsect, fs`wflag, fs.win
    {
      TableSectors(fs.g, fs.Fat(), ch, Start());
      TableOf(fs.Logical(), Secs())
    }

    /** The object stands at entry `index`. */
    ghost predicate Standing()
      reads this`ch, this`index, this`clust, this`sect, this`dir
    {
      PosAt(fs.g, ch, index, clust, sect, dir) && index < MAX_ENTRIES
    }

    constructor (vol: Volume, start: nat, name: Name, ghost chain: seq<nat>)
      requires vol.Valid() && vol.g.DataFits() && RootFits(vol.g) && (vol.g.kind == FAT32 ==> chain != [])
      requires ChainHeld(vol.Fat(), chain, if start == 0 && vol.g.kind == FAT32 then vol.g.dirbase else start)
      ensures Valid() && fs == vol && ch == chain && fn == name
    {
      fs, sclust, fn, ch := vol, start, name, chain;
      index, clust, sect, dir := 0, 0, 0, 0;
    }

    lemma Facts()
      requires Valid()
      ensures fs.Valid() && fs.g.Valid() && fs.g.DataFits() && RootFits(fs.g) && 0 < fs.g.csize
      ensures ChainHeld(fs.Fat(), ch, Start()) && (fs.g.kind == FAT32 ==> ch != []) && Secs() == TableSecs(fs.g, ch)
      ensures Distinct(Secs()) && OnDisk(Secs(), fs.g.sectors) && 0 < |Secs()|
      ensures forall k | 0 <= k < |Secs()| :: fs.g.fatbase <= Secs()[k] && 0 < Secs()[k] && !fs.g.InAnyFat(Secs()[k])
      ensures Table() == TableOf(fs.Logical(), Secs()) && MAX_ENTRIES == 0x1_0000
    {
      TableSectors(fs.g, fs.Fat(), ch, Start());
    }

    lemma Intro()
      requires fs.Valid() && fs.g.DataFits() && RootFits(fs.g)
      requires ChainHeld(fs.Fat(), ch, Start()) && (fs.g.kind == FAT32 ==> ch != [])
      ensures Valid()
    {
    }

    /** Lines 848-855: follow the chain to the cluster of entry `idx0`. */
    method FollowTo(idx0: nat) returns (ok: bool, clst: nat, idx: nat)
      requires Valid() && ch != []
      modifies fs`dev, fs`winsect, fs`wflag, fs.win
      ensures Valid() && fs.Logical() == old(fs.Logical()) && fs.Fat() == old(fs.Fat()) && Table() == old(Table())
      ensures ok <==> idx0 < 16 * |Secs()|
      ensures ok ==> PosAt(fs.g, ch, idx0, clst, Clust2Sect(fs.g, clst) + idx / 16, idx % 16 * 32)
    {
      hide *;
      Facts();
      HeldStart(fs.Fat(), ch, Start());
      FatSeek.AtFirst(ch, fs.g.csize);
      clst := Start();
      idx := idx0;
      ghost var i := 0;
      var ic := 16 * fs.g.csize;
      while idx >= ic
        invariant Valid() && fs.Valid() && fs.Logical() == old(fs.Logical()) && fs.Fat() == old(fs.Fat())
        invariant Table() == old(Table()) && idx <= idx0
        invariant FatSeek.AtCluster(ch, fs.g.csize, clst, 32 * (idx0 - idx), i)
        decreases idx
      {
        Facts();
        EntryStep(fs.g, fs.Fat(), ch, Start(), clst, i, idx0, idx);
        clst := fs.GetFat(clst);
        Intro();
        Facts();
        if clst < 2 || clst >= fs.g.nFatent {
          return false, clst, idx;
        }
        i, idx := i + 1, idx - ic;
      }
      EntryHere(fs.g, ch, clst, i, idx0, idx);
      ok := true;
    }

    /** Lines 825-863: stand at entry `idx`, if the table has it. */
    method Sdi(idx: nat) returns (res: DirResult)
      requires Valid() && idx < MAX_ENTRIES
      modifies fs`dev, fs`winsect, fs`wflag, fs.win, this`index, this`clust, this`sect, this`dir
      ensures Valid() && fs.Logical() == old(fs.Logical()) && fs.Fat() == old(fs.Fat()) && Table() == old(Table())
      ensures res == if idx < 16 * |Secs()| then DirOk_ else DirIntErr
      ensures index == idx && (res.DirOk_? ==> Standing())
    {
      hide *;
      Facts();
      StartOrRoot(fs.g, fs.Fat(), ch, Start());
      index := idx;
      var clst := Start();
      if clst == 1 || clst >= fs.g.nFatent {
        return DirIntErr;
      }
      if clst == 0 {
        clust := 0;
        if idx >= fs.g.nRootdir {
          return DirIntErr;
        }
        sect := fs.g.dirbase + idx / 16;
        RootPos(fs.g, idx);
      } else {
        var ok, rest;
        ok, clst, rest := FollowTo(idx);
        if !ok {
          return DirIntErr;
        }
        clust := clst;
        sect := Clust2Sect(fs.g, clst) + rest / 16;
        SamePlace(fs.g, ch, idx, clst, sect, rest % 16 * 32);
      }
      dir := idx % 16 * 32;
      StandingIntro();
      res := DirOk_;
    }

    /** Lines 900-921: stretch the table by a cluster of zeros. */
    method StretchTable() returns (res: DirResult)
      requires Valid() && ch != [] && clust == ch[|ch| - 1]
      modifies fs`dev, fs`winsect, fs`wflag, fs`fsiFlag, fs`freeClust, fs`lastClust, fs.win
      modifies this`ch, this`clust, this`sect
      ensures Valid() && Grows(old(fs.Fat()), fs.Fat(), old(ch), ch)
      ensures res == DirOk_ || res == DirDenied
      ensures res == DirDenied ==>
                && Free(fs.Fat()) == {} && ch == old(ch) && fs.Logical() == old(fs.Logical())
                && clust == old(clust) && sect == old(sect)
      ensures res == DirOk_ ==>
                && ch == old(ch) + [clust] && 2 <= clust < fs.g.nFatent && sect == Clust2Sect(fs.g, clust)
                && Stretched(fs.g, old(fs.Logical()), fs.Logical(), sect)
    {
      hide *;
      Facts();
      ghost var t, p, d := fs.Fat(), ch, fs.Logical();
      LastInChain(p);
      StretchOutcome(fs.g, t, p, Start(), clust, fs.lastClust);
      TailOf(t, p, Start());
      GrowsNothing(t, p);
      var clst := CreateChain(fs, clust);
      if clst == 0 {
        Intro();
        return DirDenied;
      }
      ghost var d1 := fs.Logical();
      NewCluster(fs.g, clst);
      ZeroFill(fs, Clust2Sect(fs.g, clst), fs.g.csize);
      clust := clst;
      sect := Clust2Sect(fs.g, clst);
      ch := p + [clst];
      StretchedBy(fs.g, d, d1, sect);
      Intro();
      res := DirOk_;
    }

    /** Lines 900-921 for the table: it gets zero entries, of which `i` is the first. */
    method GrowAt(i: nat) returns (res: DirResult)
      requires Valid() && ch != [] && clust == ch[|ch| - 1] && i == 16 * |Secs()| < MAX_ENTRIES
      modifies fs`dev, fs`winsect, fs`wflag, fs`fsiFlag, fs`freeClust, fs`lastClust, fs.win
      modifies this`ch, this`clust, this`sect
      ensures Valid() && Grows(old(fs.Fat()), fs.Fat(), old(ch), ch)
      ensures res == DirOk_ || (res == DirDenied && Free(fs.Fat()) == {})
      ensures res != DirOk_ ==> ch == old(ch) && fs.Logical() == old(fs.Logical()) && Table() == old(Table())
      ensures res == DirOk_ ==>
                && PosAt(fs.g, ch, i, clust, sect, 0) && GrewTable(old(Table()), Table())
                && Untouched(fs.g, old(fs.Logical()), fs.Logical(), Secs())
    {
      hide *;
      Facts();
      ghost var t, p, d := fs.Fat(), ch, fs.Logical();
      TableSize(d, Secs());
      HeldInUse(t, p, Start());
      res := StretchTable();
      Facts();
      if res == DirOk_ {
        FreshInGrowth(t, fs.Fat(), p, ch, clust);
        StretchedTable(fs.g, t, d, fs.Logical(), p, Start(), clust);
      }
    }

    /** Lines 887-922: the next sector of a chained table. */
    method NextSector(i: nat, stretch: bool) returns (res: DirResult)
      requires Valid() && Standing() && ch != [] && i == index + 1 && i % 16 == 0 && i < MAX_ENTRIES
      modifies fs`dev, fs`winsect, fs`wflag, fs`fsiFlag, fs`freeClust, fs`lastClust, fs.win
      modifies this`ch, this`clust, this`sect
      ensures Valid() && Grows(old(fs.Fat()), fs.Fat(), old(ch), ch)
      ensures res == DirOk_ ==> PosAt(fs.g, ch, i, clust, sect, 0)
      ensures i < 16 * |old(Secs())| ==> res == DirOk_
      ensures i < 16 * |old(Secs())| || res != DirOk_ ==>
                ch == old(ch) && fs.Logical() == old(fs.Logical()) && Table() == old(Table())
      ensures i >= 16 * |old(Secs())| ==>
                && i == 16 * |old(Secs())|
                && (!stretch ==> res == NoFile)
                && (stretch ==> res == DirOk_ || (res == DirDenied && Free(fs.Fat()) == {}))
                && (res == DirOk_ ==>
                      && GrewTable(old(Table()), Table())
                      && Untouched(fs.g, old(fs.Logical()), fs.Logical(), Secs()))
    {
      hide *;
      Facts();
      StandingFacts();
      GrowsNothing(fs.Fat(), ch);
      NextChainSector(fs.g, fs.Fat(), ch, Start(), index, clust, sect, dir);
      sect := sect + 1;
      if i / 16 % fs.g.csize == 0 {
        var clst := fs.GetFat(clust);
        Intro();
        Facts();
        if clst <= 1 {
          return DirIntErr;
        }
        if clst >= fs.g.nFatent {
          res := NoFile;
          if stretch {
            res := GrowAt(i);
          }
          return res;
        }
        clust := clst;
        sect := Clust2Sect(fs.g, clst);
      }
      Facts();
      res := DirOk_;
    }

    /** Lines 886-892 for the fixed root directory: `more` tells that entry `i` is in the next sector. */
    method NextRoot(i: nat) returns (more: bool)
      requires Valid() && Standing() && ch == [] && i == index + 1 && i % 16 == 0
      modifies this`sect
      ensures Valid() && (more <==> i < 16 * |Secs()|)
      ensures more ==> PosAt(fs.g, ch, i, clust, sect, 0)
    {
      hide *;
      Facts();
      StandingFacts();
      RootOnly(fs.g, fs.Fat(), ch, Start(), index, clust, sect, dir);
      NextRootSector(fs.g, index, sect, dir);
      sect := sect + 1;
      Intro();
      Facts();
      more := i < fs.g.nRootdir;
    }

    /** Lines 873-930.  From entry `index` the object moves to the next one; behind the table's last
        entry a chained table may be stretched by zeros. */
    method Next(stretch: bool) returns (res: DirResult)
      requires Valid() && Standing()
      modifies fs`dev, fs`winsect, fs`wflag, fs`fsiFlag, fs`freeClust, fs`lastClust, fs.win
      modifies this`ch, this`index, this`clust, this`sect, this`dir
      ensures Valid() && Grows(old(fs.Fat()), fs.Fat(), old(ch), ch)
      ensures if res == DirOk_ then Standing() && index == old(index) + 1 else index == old(index)
      ensures old(index) + 1 < |old(Table())| ==> res == DirOk_
      ensures old(index) + 1 < |old(Table())| || res != DirOk_ ==>
                ch == old(ch) && fs.Logical() == old(fs.Logical()) && Table() == old(Table())
      ensures old(index) + 1 >= |old(Table())| ==>
                && old(index) + 1 == |old(Table())|
                && (res == NoFile <==> old(index) + 1 == 65536 || old(ch) == [] || !stretch)
                && (res == DirOk_ || res == NoFile || (res == DirDenied && Free(fs.Fat()) == {}))
                && (res == DirOk_ ==>
                      && GrewTable(old(Table()), Table())
                      && Untouched(fs.g, old(fs.Logical()), fs.Logical(), Secs()))
    {
      hide *;
      Facts();
      StandingFacts();
      GrowsNothing(fs.Fat(), ch);
      TableSize(fs.Logical(), Secs());
      var i := (index + 1) % 0x1_0000;
      IndexWraps(index);
      if i == 0 || sect == 0 {
        return NoFile;
      }
      if i % 16 == 0 {
        if clust == 0 {
          RootOnly(fs.g, fs.Fat(), ch, Start(), index, clust, sect, dir);
          var more := NextRoot(i);
          Facts();
          if !more {
            return NoFile;
          }
        } else {
          ChainOnly(fs.g, ch, index, clust, sect, dir);
          res := NextSector(i, stretch);
          if res != DirOk_ {
            return res;
          }
        }
      } else {
        NextInSector(fs.g, ch, index, clust, sect, dir);
      }
      index := i;
      dir := i % 16 * 32;
      Facts();
      StandingIntro();
      res := DirOk_;
    }

    /** The window on the sector of the current entry. */
    method Load() returns (s: Slot)
      requires Valid() && Standing()
      modifies fs`dev, fs`winsect, fs`wflag, fs.win
      ensures Valid() && fs.Logical() == old(fs.Logical()) && fs.Fat() == old(fs.Fat()) && Table() == old(Table())
      ensures index < |Table()| && s == Table()[index] && fs.winsect == sect
    {
      hide *;
      Facts();
      StandingFacts();
      ghost var f := fs.Fat();
      TableSize(fs.Logical(), Secs());
      SlotInSector(fs.Logical(), Secs(), index);
      MoveTo(fs, sect);
      Intro();
      Facts();
      s := SlotOf(fs.win[..], dir);
    }

    /** Lines 1112-1163, dir_find: stand at the entry a lookup of the name finds. */
    method FindName() returns (res: DirResult)
      requires Valid() && Proper(fn)
      modifies fs`dev, fs`winsect, fs`wflag, fs`fsiFlag, fs`freeClust, fs`lastClust, fs.win
      modifies this`ch, this`index, this`clust, this`sect, this`dir
      ensures Valid() && fs.Logical() == old(fs.Logical()) && Table() == old(Table()) && ch == old(ch)
      ensures res == DirOk_ || res == NoFile
      ensures res == DirOk_ ==> Standing() && Lookup(Table(), fn) == At(index)
      ensures res == DirOk_ ==>
                index < |Table()| && Table()[index][..11] == fn && (Table()[index][11] as bv8) & 0x08 == 0
      ensures res == NoFile ==> Lookup(Table(), fn) == Absent
    {
      hide *;
      Facts();
      TableSize(fs.Logical(), Secs());
      res := Sdi(0);
      Facts();
      ghost var t := Table();
      PassNone(t, fn);
      while res == DirOk_
        invariant Valid() && fs.Valid() && fs.Logical() == old(fs.Logical()) && Table() == t && ch == old(ch)
        invariant res == DirOk_ || res == NoFile
        invariant res == DirOk_ ==> Standing() && PassedBy(t, fn, 0, index)
        invariant res == NoFile ==> Lookup(t, fn) == Absent
        decreases |t| - index, if res == DirOk_ then 1 else 0
      {
        var s := Load();
        StandingFacts();
        LookAt(t, fn, index);
        if s[0] == 0 {
          res := NoFile;
          break;
        }
        if Matches(s, fn) {
          break;
        }
        res := Next(false);
        Facts();
        TableSize(fs.Logical(), Secs());
      }
      if res == DirOk_ {
        ProperFirst(fn);
        LookupFirst(t, fn, index);
      }
    }

    /** Lines 1300-1309: stand at a blank entry, stretching the table when it has none. */
    method FindBlank() returns (res: DirResult)
      requires Valid()
      modifies fs`dev, fs`winsect, fs`wflag, fs`fsiFlag, fs`freeClust, fs`lastClust, fs.win
      modifies this`ch, this`index, this`clust, this`sect, this`dir
      ensures Valid() && res != DirIntErr && Grows(old(fs.Fat()), fs.Fat(), old(ch), ch)
      ensures res == DirOk_ ==> Standing() && index < |Table()| && FirstBlank(Table(), 0) == index
      ensures FirstBlank(old(Table()), 0) < |old(Table())| ==> res == DirOk_
      ensures FirstBlank(old(Table()), 0) < |old(Table())| || res != DirOk_ ==>
                ch == old(ch) && fs.Logical() == old(fs.Logical()) && Table() == old(Table())
      ensures res != DirOk_ ==> if |Table()| == 65536 || ch == [] then res == NoFile else res == DirDenied && Free(fs.Fat()) == {}
      ensures FirstBlank(old(Table()), 0) == |old(Table())| && res == DirOk_ ==>
                GrewTable(old(Table()), Table()) && Untouched(fs.g, old(fs.Logical()), fs.Logical(), Secs())
    {
      hide *;
      Facts();
      TableSize(fs.Logical(), Secs());
      GrowsNothing(fs.Fat(), ch);
      ghost var t := Table();
      res := Sdi(0);
      Facts();
      ghost var grown := false;
      NoBlank(t, 0);
      while res == DirOk_
        invariant Valid() && fs.Valid() && Grows(old(fs.Fat()), fs.Fat(), old(ch), ch)
        invariant res != DirIntErr && index <= |t|
        invariant res == DirOk_ ==> Standing() && FirstBlank(t, 0) >= index && (grown <==> index == |t|)
        invariant res != DirOk_ ==> !grown && FirstBlank(t, 0) == |t|
        invariant res != DirOk_ ==> if |t| == 65536 || ch == [] then res == NoFile else res == DirDenied && Free(fs.Fat()) == {}
        invariant !grown ==> ch == old(ch) && fs.Logical() == old(fs.Logical()) && fs.Fat() == old(fs.Fat()) && Table() == t
        invariant grown ==> GrewTable(t, Table()) && Untouched(fs.g, old(fs.Logical()), fs.Logical(), Secs())
        decreases |t| + 1 - index, if res == DirOk_ then 1 else 0
      {
        var s := Load();
        if grown {
          BlankGrown(t, Table());
        }
        NoBlank(t, index);
        BlankAt(Table(), index);
        Facts();
        if s[0] == DELETED || s[0] == 0 {
          break;
        }
        ghost var f, p := fs.Fat(), ch;
        res := Next(true);
        Facts();
        GrowsSame(f, fs.Fat(), p, ch);
        grown := res == DirOk_ && index == |t|;
      }
    }

    /** Lines 1312-1323: write the new entry. */
    method PutEntry(s: Slot)
      requires Valid() && Standing() && index < |Table()|
      modifies fs`dev, fs`winsect, fs`wflag, fs.win
      ensures Valid() && Standing() && Table() == old(Table())[index := s] && fs.Fat() == old(fs.Fat())
      ensures Untouched(fs.g, old(fs.Logical()), fs.Logical(), Secs())
    {
      hide *;
      Facts();
      StandingFacts();
      ghost var d, secs := fs.Logical(), Secs();
      SlotInSector(d, secs, index);
      StoreSlot(d, secs, index, s);
      MoveTo(fs, sect);
      fs.StoreData(dir, s);
      UntouchedAt(fs.g, d, secs, index / 16, Patch(d[sect], dir, s));
      Intro();
      Facts();
    }

    /** Lines 1230-1326, dir_register of a name the directory does not have: exactly one binding is
        added.  Without a blank entry the table is stretched, and registering fails only when it cannot be. */
    method Register() returns (res: DirResult)
      requires Valid() && Proper(fn) && DirOk(Table()) && Lookup(Table(), fn) == Absent
      modifies fs`dev, fs`winsect, fs`wflag, fs`fsiFlag, fs`freeClust, fs`lastClust, fs.win
      modifies this`ch, this`index, this`clust, this`sect, this`dir
      ensures Valid() && Grows(old(fs.Fat()), fs.Fat(), old(ch), ch)
      ensures DirOk(Table())
      ensures res == DirOk_ ==>
                && Lookup(Table(), fn) == At(index) && index < |Table()| && Table()[index] == NewSlot(fn)
                && (forall o: Name | Proper(o) && o != fn :: Lookup(Table(), o) == Lookup(old(Table()), o))
                && Untouched(fs.g, old(fs.Logical()), fs.Logical(), Secs())
      ensures res != DirOk_ ==>
                && ch == old(ch) && fs.Logical() == old(fs.Logical()) && Table() == old(Table())
                && FirstBlank(Table(), 0) == |Table()|
                && if |Table()| == 65536 || ch == [] then res == NoFile else res == DirDenied && Free(fs.Fat()) == {}
    {
      hide *;
      Facts();
      ghost var t, d := Table(), fs.Logical();
      NoBlank(t, 0);
      res := FindBlank();
      Facts();
      if res == DirOk_ {
        ghost var u, d1, f := Table(), fs.Logical(), fs.Fat();
        if FirstBlank(t, 0) == |t| {
          GrownLookups(t, u);
        } else {
          UntouchedSame(fs.g, d);
          UntouchedMore(fs.g, d, d, Secs());
        }
        RegisterAddsOne(u, fn, index);
        PutEntry(NewSlot(fn));
        Facts();
        UntouchedTwice(fs.g, d, d1, fs.Logical(), Secs());
      }
    }

    /** Lines 1337-1371, dir_remove: exactly the binding of the current entry is deleted. */
    method Remove() returns (res: DirResult)
      requires Valid() && Proper(fn) && DirOk(Table()) && index < MAX_ENTRIES && Lookup(Table(), fn) == At(index)
      modifies fs`dev, fs`winsect, fs`wflag, fs.win, this`index, this`clust, this`sect, this`dir
      ensures Valid() && res == DirOk_ && index == old(index) < |old(Table())|
      ensures DirOk(Table()) && Lookup(Table(), fn) == Absent
      ensures Table() == old(Table())[index := old(Table())[index][0 := DELETED]]
      ensures forall o: Name | Proper(o) && o != fn :: Lookup(Table(), o) == Lookup(old(Table()), o)
      ensures Untouched(fs.g, old(fs.Logical()), fs.Logical(), Secs()) && fs.Fat() == old(fs.Fat())
    {
      hide *;
      Facts();
      TableSize(fs.Logical(), Secs());
      ghost var t := Table();
      RemoveDeletesOne(t, fn, index);
      res := Sdi(index);
      Facts();
      var s := Load();
      PutEntry(s[0 := DELETED]);
    }

    lemma StandingIntro()
      requires PosAt(fs.g, ch, index, clust, sect, dir) && index < MAX_ENTRIES
      ensures Standing()
    {
    }

    lemma StandingFacts()
      requires Standing()
      ensures PosAt(fs.g, ch, index, clust, sect, dir) && index < MAX_ENTRIES && 0 < fs.g.csize
      ensures index / 16 < |Secs()| && sect == Secs()[index / 16] && dir == index % 16 * 32
      ensures index < 16 * |Secs()|
    {
    }
  }

  /** A cluster of zeros was added at `s`, and the FAT area written. */
  ghost predicate Stretched(g: Geometry, d: seq<Sector>, e: seq<Sector>, s: nat) {
    && |d| == |e|
    && (forall x | 0 <= x < |e| && s <= x < s + g.csize :: e[x] == ZeroSector())
    && forall x | 0 <= x < |e| && !g.InAnyFat(x) && !(s <= x < s + g.csize) :: e[x] == d[x]
  }

  /** The table has got zero entries appended. */
  ghost predicate GrewTable(t: seq<Slot>, u: seq<Slot>) {
    |t| < |u| && (forall i | 0 <= i < |t| :: u[i] == t[i]) && forall i | |t| <= i < |u| :: u[i] == Zeros()
  }

  lemma StretchedTable(g: Geometry, t: seq<nat>, d: seq<Sector>, e: seq<Sector>, p: seq<nat>, org: nat, c: nat)
    requires g.Valid() && g.DataFits() && |t| == g.nFatent && ChainHeld(t, p, org) && p != []
    requires 2 <= c < g.nFatent && c !in p && |d| == g.sectors && Stretched(g, d, e, Clust2Sect(g, c))
    requires 16 * |TableSecs(g, p)| < MAX_ENTRIES && OnDisk(TableSecs(g, p + [c]), |d|) && OnDisk(TableSecs(g, p), |d|)
    ensures GrewTable(TableOf(d, TableSecs(g, p)), TableOf(e, TableSecs(g, p + [c])))
    ensures PosAt(g, p + [c], 16 * |TableSecs(g, p)|, c, Clust2Sect(g, c), 0)
    ensures Untouched(g, d, e, TableSecs(g, p + [c]))
  {
    var secs, more, s := Sectors(g, p), Sectors(g, p + [c]), Clust2Sect(g, c);
    MoreSectors(g, p, c);
    AppendedCluster(g, p, p + [c], c, SS * |secs|);
    forall k | 0 <= k < |secs| ensures e[secs[k]] == d[secs[k]] {
      OldSector(g, t, p, org, c, k);
    }
    hide Sectors, Clust2Sect, ChainHeld, CurrOk, Geometry.Valid;
    forall x | 0 <= x < |d| && s <= x < s + g.csize ensures x in more {
      assert more[|secs| + (x - s)] == x;
    }
    assert 32 * (16 * |secs|) == SS * |secs|;
    TableGrows(d, e, secs, more);
  }

  lemma FreshInGrowth(t: seq<nat>, u: seq<nat>, p: seq<nat>, ch: seq<nat>, c: nat)
    requires Grows(t, u, p, ch) && ch == p + [c] && forall x | x in p :: x < |t| ==> t[x] != 0
    ensures c !in p
  {
    assert ch[|p|] == c;
  }

  lemma MoreSectors(g: Geometry, p: seq<nat>, c: nat)
    ensures var secs, more := Sectors(g, p), Sectors(g, p + [c]);
            && |more| == |secs| + g.csize && (forall k | 0 <= k < |secs| :: more[k] == secs[k])
            && forall k | |secs| <= k < |more| :: more[k] == Clust2Sect(g, c) + (k - |secs|)
  {
    assert (p + [c])[..|p|] == p;
  }

  lemma OldSector(g: Geometry, t: seq<nat>, p: seq<nat>, org: nat, c: nat, k: nat)
    requires g.Valid() && g.DataFits() && |t| == g.nFatent && ChainHeld(t, p, org) && 2 <= c < g.nFatent && c !in p
    requires k < |Sectors(g, p)|
    ensures var s := Sectors(g, p)[k];
            !g.InAnyFat(s) && !(Clust2Sect(g, c) <= s < Clust2Sect(g, c) + g.csize)
  {
    HeldSectors(g, t, p, org);
    assert Sectors(g, p)[k] in Sectors(g, p);
    SectorOutside(g, p, c, k);
  }

  lemma TableGrows(d: seq<Sector>, e: seq<Sector>, secs: seq<nat>, more: seq<nat>)
    requires |d| == |e| && OnDisk(secs, |d|) && OnDisk(more, |e|) && |secs| < |more| && 16 * |secs| < MAX_ENTRIES
    requires forall k | 0 <= k < |secs| :: more[k] == secs[k] && e[secs[k]] == d[secs[k]]
    requires forall k | |secs| <= k < |more| :: e[more[k]] == ZeroSector()
    ensures GrewTable(TableOf(d, secs), TableOf(e, more))
  {
    var t, u := TableOf(d, secs), TableOf(e, more);
    TableSize(d, secs);
    TableSize(e, more);
    forall i | 0 <= i < |u| ensures if i < |t| then u[i] == t[i] else u[i] == Zeros() {
      SlotInSector(e, more, i);
      if i < |t| {
        SlotInSector(d, secs, i);
      } else {
        assert ZeroSector()[i % 16 * 32..i % 16 * 32 + 32] == Zeros();
      }
    }
  }

  lemma StretchedBy(g: Geometry, d: seq<Sector>, d1: seq<Sector>, s: nat)
    requires SameOutsideFat(g, d, d1)
    ensures Stretched(g, d, ZeroRun(d1, s, g.csize), s)
  {
  }

  lemma LastInChain(p: seq<nat>)
    requires p != []
    ensures p[|p| - 1] in p
  {
  }

  lemma TailOf(t: seq<nat>, p: seq<nat>, org: nat)
    requires ChainHeld(t, p, org) && p != []
    ensures 2 <= p[|p| - 1] < |t| <= t[p[|p| - 1]]
  {
    MidOrLast(t, p, org, |p| - 1);
  }

  lemma NewCluster(g: Geometry, c: nat)
    requires g.Valid() && g.DataFits() && 2 <= c < g.nFatent
    ensures var s := Clust2Sect(g, c);
            && 0 < s && g.fatbase <= s && s + g.csize <= g.sectors && 0 < g.csize
            && forall x | s <= x < s + g.csize :: !g.InAnyFat(x)
  {
    ClusterInData(g, c);
  }

  lemma PassNone(t: seq<Slot>, fn: Name)
    ensures PassedBy(t, fn, 0, 0)
  {
  }

  /** What one more entry says about a lookup. */
  lemma LookAt(t: seq<Slot>, fn: Name, i: nat)
    requires i < |t| && PassedBy(t, fn, 0, i)
    ensures t[i][0] == 0 ==> Lookup(t, fn) == Absent
    ensures t[i][0] != 0 && Matches(t[i], fn) ==> Lookup(t, fn) == At(i)
    ensures t[i][0] != 0 && !Matches(t[i], fn) ==> PassedBy(t, fn, 0, i + 1)
    ensures t[i][0] != 0 && !Matches(t[i], fn) && i + 1 == |t| ==> Lookup(t, fn) == Absent
  {
    FindPasses(t, fn, 0, i);
    if t[i][0] != 0 && !Matches(t[i], fn) {
      FindPasses(t, fn, 0, i + 1);
    }
  }

  lemma GrowsSame(t: seq<nat>, u: seq<nat>, p: seq<nat>, r: seq<nat>)
    requires Grows(t, u, p, r)
    ensures r == p ==> u == t
  {
  }

  /** `FirstBlank` is past the entries that are not blank. */
  lemma NoBlank(t: seq<Slot>, i: nat)
    requires i <= |t| && FirstBlank(t, 0) >= i
    ensures i < |t| && !Blank(t[i]) ==> FirstBlank(t, 0) >= i + 1
    ensures FirstBlank(t, 0) <= |t|
    ensures i < |t| && Blank(t[i]) ==> FirstBlank(t, 0) == i
  {
  }

  lemma BlankAt(t: seq<Slot>, i: nat)
    requires i < |t|
    ensures Blank(t[i]) <==> t[i][0] == DELETED || t[i][0] == 0
  {
  }

  /** The first entry of a stretched table that had no blank one is its first blank entry. */
  lemma BlankGrown(t: seq<Slot>, u: seq<Slot>)
    requires GrewTable(t, u) && FirstBlank(t, 0) == |t|
    ensures FirstBlank(u, 0) == |t| && Blank(u[|t|]) && u[|t|][0] == 0
  {
    assert u[|t|] == Zeros();
    var k := FirstBlank(u, 0);
    assert forall j | 0 <= j < |t| :: u[j] == t[j] && !Blank(t[j]);
  }

  lemma UntouchedAt(g: Geometry, d: seq<Sector>, secs: seq<nat>, k: nat, w: Sector)
    requires k < |secs| && secs[k] < |d|
    ensures Untouched(g, d, d[secs[k] := w], secs)
  {
    assert secs[k] in secs;
  }

  lemma GrownLookups(t: seq<Slot>, u: seq<Slot>)
    requires DirOk(t) && GrewTable(t, u) && FirstBlank(t, 0) == |t|
    ensures DirOk(u) && forall o: Name | Proper(o) :: Lookup(u, o) == Lookup(t, o)
  {
    StretchKeepsLookups(t, u[|t|..]);
    assert u == t + u[|t|..];
  }

  function SlotOf(b: seq<byte>, off: nat): (s: Slot)
    requires off + 32 <= |b|
    ensures s == b[off..off + 32]
  {
    b[off..off + 32]
  }

  /** move_window to a sector of a directory. */
  method MoveTo(fs: Volume, sect: nat)
    requires fs.Valid() && 0 < sect < fs.g.sectors
    modifies fs`dev, fs`winsect, fs`wflag, fs.win
    ensures fs.Valid() && fs.Logical() == old(fs.Logical()) && fs.Fat() == old(fs.Fat())
    ensures fs.winsect == sect && fs.win[..] == fs.Logical()[sect]
  {
    fs.MoveWindow(sect);
  }

  lemma IndexWraps(i: nat)
    requires i < MAX_ENTRIES
    ensures (i + 1) % 0x1_0000 == if i + 1 == MAX_ENTRIES then 0 else i + 1
  {
  }

  lemma RootOnly(g: Geometry, t: seq<nat>, ch: seq<nat>, org: nat, i: nat, clust: nat, sect: nat, dir: nat)
    requires PosAt(g, ch, i, clust, sect, dir) && ChainHeld(t, ch, org) && clust == 0 && RootFits(g)
    requires g.kind == FAT32 ==> ch != []
    ensures ch == [] && g.nRootdir % 16 == 0
  {
    ClusterOfChain(g, t, ch, org, i, clust, sect, dir);
  }

  lemma ClusterOfChain(g: Geometry, t: seq<nat>, ch: seq<nat>, org: nat, i: nat, clust: nat, sect: nat, dir: nat)
    requires PosAt(g, ch, i, clust, sect, dir) && ChainHeld(t, ch, org)
    ensures ch != [] ==> clust >= 2
  {
    if ch != [] {
      MidOrLast(t, ch, org, ClusterIx(32 * i, g.csize));
    }
  }

  lemma ChainOnly(g: Geometry, ch: seq<nat>, i: nat, clust: nat, sect: nat, dir: nat)
    requires PosAt(g, ch, i, clust, sect, dir) && clust != 0
    ensures ch != []
  {
  }

  lemma StartOrRoot(g: Geometry, t: seq<nat>, ch: seq<nat>, org: nat)
    requires ChainHeld(t, ch, org) && RootFits(g) && |t| == g.nFatent && (g.kind == FAT32 ==> ch != [])
    ensures org != 1 && org < |t| && (org == 0 <==> ch == [])
    ensures ch == [] ==> 16 * |TableSecs(g, ch)| == g.nRootdir
  {
    if ch != [] {
      MidOrLast(t, ch, org, 0);
    }
  }

  lemma RootPos(g: Geometry, i: nat)
    requires 0 < g.csize && i < 16 * |RootSecs(g)|
    ensures PosAt(g, [], i, 0, g.dirbase + i / 16, i % 16 * 32) && RootSecs(g) == TableSecs(g, [])
  {
  }

  lemma SamePlace(g: Geometry, ch: seq<nat>, i: nat, clust: nat, sect: nat, dir: nat)
    requires PosAt(g, ch, i, clust, sect, dir)
    ensures dir == i % 16 * 32
  {
  }

  /** Where entries lie in bytes and sectors. */
  lemma EntryBytes(i: nat)
    ensures SS == 512 && (32 * i) / SS == i / 16 && (32 * (i + 1)) / SS == (i + 1) / 16
    ensures (i + 1) % 16 == 0 ==>
              (32 * (i + 1) - 1) / SS == i / 16 && (32 * (i + 1)) % SS == 0 && (i + 1) / 16 == i / 16 + 1
    ensures (i + 1) % 16 != 0 ==> (i + 1) / 16 == i / 16
  {
  }

  lemma PosIs(g: Geometry, ch: seq<nat>, i: nat, clust: nat, sect: nat, dir: nat)
    requires PosAt(g, ch, i, clust, sect, dir)
    ensures 0 < g.csize && i / 16 < |TableSecs(g, ch)| && sect == TableSecs(g, ch)[i / 16] && dir == i % 16 * 32
    ensures ch != [] ==> TableSecs(g, ch) == Sectors(g, ch) && CurrOk(ch, g.csize, clust, 32 * i)
    ensures ch == [] ==> clust == 0
  {
  }

  lemma PosIntro(g: Geometry, ch: seq<nat>, i: nat, clust: nat, sect: nat, dir: nat)
    requires 0 < g.csize && i / 16 < |TableSecs(g, ch)| && sect == TableSecs(g, ch)[i / 16] && dir == i % 16 * 32
    requires if ch == [] then clust == 0 else CurrOk(ch, g.csize, clust, 32 * i)
    ensures PosAt(g, ch, i, clust, sect, dir)
  {
  }

  lemma NextInSector(g: Geometry, ch: seq<nat>, i: nat, clust: nat, sect: nat, dir: nat)
    requires PosAt(g, ch, i, clust, sect, dir) && (i + 1) % 16 != 0
    ensures PosAt(g, ch, i + 1, clust, sect, (i + 1) % 16 * 32) && i + 1 < 16 * |TableSecs(g, ch)|
  {
    hide *;
    EntryBytes(i);
    PosIs(g, ch, i, clust, sect, dir);
    if ch != [] {
      SectorStays(ch, g.csize, clust, 32 * i, 32 * (i + 1));
    }
    PosIntro(g, ch, i + 1, clust, sect, (i + 1) % 16 * 32);
  }

  lemma NextRootSector(g: Geometry, i: nat, sect: nat, dir: nat)
    requires PosAt(g, [], i, 0, sect, dir) && (i + 1) % 16 == 0 && g.nRootdir % 16 == 0
    ensures i + 1 < g.nRootdir <==> i + 1 < 16 * |TableSecs(g, [])|
    ensures i + 1 < g.nRootdir ==> PosAt(g, [], i + 1, 0, sect + 1, 0)
  {
  }

  /** The next sector of a chain: in the same cluster, in the next one, or behind the last one. */
  lemma NextChainSector(g: Geometry, t: seq<nat>, ch: seq<nat>, org: nat, i: nat, clust: nat, sect: nat, dir: nat)
    requires PosAt(g, ch, i, clust, sect, dir) && (i + 1) % 16 == 0 && ch != [] && ChainHeld(t, ch, org)
    ensures 2 <= clust < |t| && clust in ch
    ensures (i + 1) / 16 % g.csize != 0 ==>
              PosAt(g, ch, i + 1, clust, sect + 1, 0) && i + 1 < 16 * |TableSecs(g, ch)|
    ensures (i + 1) / 16 % g.csize == 0 ==>
              if t[clust] < |t| then
                2 <= t[clust] && PosAt(g, ch, i + 1, t[clust], Clust2Sect(g, t[clust]), 0)
                && i + 1 < 16 * |TableSecs(g, ch)|
              else
                i + 1 == 16 * |TableSecs(g, ch)| && clust == ch[|ch| - 1]
  {
    hide *;
    var f := 32 * (i + 1);
    EntryBytes(i);
    PosIs(g, ch, i, clust, sect, dir);
    SectorStays(ch, g.csize, clust, 32 * i, f - 1);
    CurrSector(g, ch, clust, 32 * i);
    CurrMember(t, ch, org, g.csize, clust, 32 * i);
    ReachOrAppend(g, t, ch, org, clust, f);
    CsectIs(32 * i, g.csize);
    CsectIs(f, g.csize);
    if Csect(f, g.csize) != 0 {
      NextPlace(i / 16, g.csize);
      CurrSector(g, ch, clust, f);
      PosIntro(g, ch, i + 1, clust, sect + 1, 0);
    } else if t[clust] < |t| {
      CurrSector(g, ch, t[clust], f);
      PosIntro(g, ch, i + 1, t[clust], Clust2Sect(g, t[clust]), 0);
    }
  }

  lemma CsectIs(b: nat, csize: nat)
    requires 0 < csize
    ensures Csect(b, csize) == b / SS % csize
  {
  }

  lemma CurrMember(t: seq<nat>, ch: seq<nat>, org: nat, csize: nat, curr: nat, b: nat)
    requires 0 < csize && CurrOk(ch, csize, curr, b) && ChainHeld(t, ch, org)
    ensures curr in ch && 2 <= curr < |t| && (t[curr] < |t| ==> 2 <= t[curr])
  {
    InChain(t, ch, curr);
  }

  lemma NextPlace(k: nat, csize: nat)
    requires 0 < csize && (k + 1) % csize != 0
    ensures (k + 1) % csize == k % csize + 1
  {
    assert k == csize * (k / csize) + k % csize;
    if k % csize + 1 < csize {
      ModUnique(k + 1, csize, k / csize, k % csize + 1);
    } else {
      assert csize * (k / csize + 1) == csize * (k / csize) + csize;
      ModUnique(k + 1, csize, k / csize + 1, 0);
    }
  }

  /** One cluster of entries further along the chain. */
  lemma EntryStep(g: Geometry, t: seq<nat>, ch: seq<nat>, org: nat, clst: nat, i: nat, idx0: nat, idx: nat)
    requires 0 < g.csize && ChainHeld(t, ch, org) && 16 * g.csize <= idx <= idx0
    requires FatSeek.AtCluster(ch, g.csize, clst, 32 * (idx0 - idx), i)
    ensures 2 <= clst < |t|
    ensures if t[clst] < |t| then 2 <= t[clst]
              && FatSeek.AtCluster(ch, g.csize, t[clst], 32 * (idx0 - (idx - 16 * g.csize)), i + 1)
            else 16 * |TableSecs(g, ch)| <= idx0
  {
    FatSeek.AtMid(t, ch, org, g.csize, clst, 32 * (idx0 - idx), i);
    FatSeek.AtBound(g, ch, clst, 32 * (idx0 - idx), i);
    if i + 1 < |ch| {
      FatSeek.AtStep(ch, g.csize, clst, 32 * (idx0 - idx), i);
      assert 32 * (idx0 - (idx - 16 * g.csize)) == 32 * (idx0 - idx) + g.csize * SS;
    }
    hide Sectors;
  }

  lemma EntryHere(g: Geometry, ch: seq<nat>, clst: nat, i: nat, idx0: nat, idx: nat)
    requires 0 < g.csize && idx < 16 * g.csize && idx <= idx0
    requires FatSeek.AtCluster(ch, g.csize, clst, 32 * (idx0 - idx), i)
    ensures PosAt(g, ch, idx0, clst, Clust2Sect(g, clst) + idx / 16, idx % 16 * 32) && idx0 < 16 * |TableSecs(g, ch)|
  {
    FatSeek.AtByte(g, ch, clst, 32 * (idx0 - idx), i, 32 * idx);
    FatSeek.AtPlace(ch, g.csize, clst, 32 * (idx0 - idx), i);
    assert 32 * (idx0 - idx) + 32 * idx == 32 * idx0;
    hide Sectors, Clust2Sect, CurrOk, FatSeek.AtCluster;
    assert (32 * idx0) / SS == idx0 / 16 && (32 * idx) / SS == idx / 16;
    assert (32 * idx0) % SS == idx0 % 16 * 32 && (32 * idx) % SS == idx % 16 * 32;
  }

  lemma HeldStart(t: seq<nat>, ch: seq<nat>, org: nat)
    requires ChainHeld(t, ch, org) && ch != []
    ensures org == ch[0] && 2 <= org
  {
    MidOrLast(t, ch, org, 0);
  }

  /** Sector `s` is number i / 16 of the directory's clusters, or of the fixed root. */
  ghost predicate SlotSector(g: Geometry, ch: seq<nat>, i: nat, s: nat) {
    if ch == [] then s == g.dirbase + i / 16
    else 0 < g.csize && i / 16 / g.csize < |ch| && 2 <= ch[i / 16 / g.csize] && s == DiskSector(g, ch, i / 16)
  }

  /** Entry `i` lies at i % 16 * 32 of sector `s`. */
  ghost predicate SlotAt(v: seq<Sector>, i: nat, s: nat, e: Slot) {
    s < |v| && e == v[s][i % 16 * 32..i % 16 * 32 + 32]
  }

  /** Where entry `i` of a directory lies on the disk; no table has more than 65536 entries. */
  lemma TableOnDisk(d: Dir, i: nat) returns (s: nat)
    requires d.Valid() && i < |d.Table()|
    ensures i < 65536 && d.fs.Valid()
    ensures SlotSector(d.fs.g, d.ch, i, s) && SlotAt(d.fs.Logical(), i, s, d.Table()[i])
  {
    hide *;
    d.Facts();
    SlotInSector(d.fs.Logical(), d.Secs(), i);
    SecsOf(d.fs.g, d.ch);
    s := d.Secs()[i / 16];
    if d.ch != [] {
      HeldInRange(d.fs.g, d.fs.Fat(), d.ch, d.Start());
      SectorOnDisk(d.fs.g, d.ch, i / 16);
    }
    SlotIs(d.fs.g, d.fs.Logical(), d.ch, i, s);
  }

  lemma SlotIs(g: Geometry, v: seq<Sector>, ch: seq<nat>, i: nat, s: nat)
    requires s < |v| && (ch == [] ==> s == g.dirbase + i / 16)
    requires ch != [] ==>
               0 < g.csize && i / 16 / g.csize < |ch| && 2 <= ch[i / 16 / g.csize] && s == DiskSector(g, ch, i / 16)
    ensures SlotSector(g, ch, i, s) && SlotAt(v, i, s, v[s][i % 16 * 32..i % 16 * 32 + 32])
  {
  }

  lemma ProperFirst(fn: Name)
    requires Proper(fn)
    ensures fn[0] != 0x00 && fn[0] != 0xE5
  {
  }

  lemma SecsOf(g: Geometry, ch: seq<nat>)
    ensures TableSecs(g, ch) == if ch == [] then RootSecs(g) else Sectors(g, ch)
  {
  }

  /** How many entries a table has. */
  lemma TableCount(d: Dir)
    requires d.Valid()
    ensures |d.Table()| == (var n := if d.ch == [] then d.fs.g.nRootdir / 16 * 16 else |d.ch| * d.fs.g.csize * 16;
                            if n <= 65536 then n else 65536)
  {
    hide *;
    d.Facts();
    TableSize(d.fs.Logical(), d.Secs());
    SecsOf(d.fs.g, d.ch);
    SectorsLength(d.fs.g, d.ch);
  }
}
