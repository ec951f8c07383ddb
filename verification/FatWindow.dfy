/** The volume object: a one-sector write-back window over the device (ff.c, move_window and
    sync) and FAT entry access through it (get_fat, put_fat). */
module FatWindow {
  import opened FatLayout

  /** Little-endian bytes of a 32-bit value. */
  function Le32(v: nat): (r: seq<byte>)
    ensures |r| == 4
  {
    [v % 256, v / 256 % 256, v / 0x1_0000 % 256, v / 0x100_0000 % 256]
  }

  /** The device after `data` is written to sector `s`, FAT copies included. */
  function WriteThrough(g: Geometry, d: seq<Sector>, s: nat, data: Sector): (e: seq<Sector>)
    requires s < |d| && (g.InFat(s) && g.nFats == 2 ==> s + g.fsize < |d|)
    ensures |e| == |d|
  {
    var e := d[s := data];
    if g.InFat(s) && g.nFats == 2 then e[s + g.fsize := data] else e
  }

  /** The first FAT as one run of bytes. */
  ghost function FatBytes(g: Geometry, d: seq<Sector>): (f: seq<byte>)
    requires g.fatbase + g.fsize <= |d|
    ensures |f| == g.fsize * SS
  {
    seq(g.fsize * SS, i requires 0 <= i < g.fsize * SS => d[g.fatbase + i / SS][i % SS])
  }

  /** The entries packed in the bytes `f`. */
  ghost function Table(kind: FatType, n: nat, f: seq<byte>): (t: seq<nat>)
    requires EntriesFit(kind, n, |f|)
    ensures |t| == n
  {
    seq(n, c requires 0 <= c < n => Entry(kind, f, c))
  }

  /** All FAT copies hold the same bytes. */
  ghost predicate Mirrored(g: Geometry, d: seq<Sector>) {
    g.nFats == 2 ==> forall s | g.InFat(s) && s + g.fsize < |d| :: d[s] == d[s + g.fsize]
  }

  /** The two disks agree outside the FAT area. */
  ghost predicate SameOutsideFat(g: Geometry, d: seq<Sector>, e: seq<Sector>) {
    |d| == |e| && forall s | 0 <= s < |d| && !g.InAnyFat(s) :: d[s] == e[s]
  }

  lemma SplitIndex(i: nat, s: nat, off: nat)
    requires off < SS
    ensures i == s * SS + off <==> i / SS == s && i % SS == off
  {
  }

  /** A store into a FAT sector patches the FAT's bytes at the same place. */
  lemma StorePatchesFat(g: Geometry, d: seq<Sector>, s: nat, off: nat, r: seq<byte>)
    requires g.FatFits(|d|) && s < g.fsize && off + |r| <= SS
    ensures var e := WriteThrough(g, d, g.fatbase + s, Patch(d[g.fatbase + s], off, r));
            s * SS + off + |r| <= g.fsize * SS
            && FatBytes(g, e) == Patch(FatBytes(g, d), s * SS + off, r)
  {
    var e := WriteThrough(g, d, g.fatbase + s, Patch(d[g.fatbase + s], off, r));
    var f, h := FatBytes(g, d), FatBytes(g, e);
    assert s * SS + SS <= g.fsize * SS;
    var p := Patch(f, s * SS + off, r);
    forall i | 0 <= i < |h| ensures h[i] == p[i] {
      SplitIndex(i, i / SS, i % SS);
      assert i / SS < g.fsize;
      if i / SS == s {
        assert e[g.fatbase + s] == Patch(d[g.fatbase + s], off, r);
      } else {
        assert e[g.fatbase + i / SS] == d[g.fatbase + i / SS];
        assert i < s * SS || s * SS + SS <= i;
      }
    }
  }

  lemma WriteThroughFrame(g: Geometry, d: seq<Sector>, s: nat, data: Sector)
    requires g.FatFits(|d|) && s < |d|
    requires Mirrored(g, d) && (g.InFat(s) || !g.InAnyFat(s))
    ensures s + g.fsize < |d| || !g.InFat(s) || g.nFats != 2
    ensures Mirrored(g, WriteThrough(g, d, s, data))
    ensures g.InFat(s) ==> SameOutsideFat(g, d, WriteThrough(g, d, s, data))
    ensures WriteThrough(g, d, s, data)[s] == data
  {
    var e := WriteThrough(g, d, s, data);
    if g.nFats == 2 {
      forall t | g.InFat(t) && t + g.fsize < |e| ensures e[t] == e[t + g.fsize] {
        assert d[t] == d[t + g.fsize];
      }
    }
  }

  /** What a value stored in entry `c` does to the table. */
  lemma SetEntrySetsTable(kind: FatType, n: nat, f: seq<byte>, c: nat, v: nat)
    requires EntriesFit(kind, n, |f|) && c < n
    ensures EntryOffset(kind, c) + EntryWidth(kind) <= |f|
    ensures Table(kind, n, SetEntry(kind, f, c, v)) == Table(kind, n, f)[c := v % EntryLimit(kind)]
  {
    hide SetEntry, Entry;
    assert EntryOffset(kind, c) + EntryWidth(kind) <= |f|;
    var h := SetEntry(kind, f, c, v);
    SetThenGet(kind, f, c, v);
    forall o: nat | o < n && o != c ensures Entry(kind, h, o) == Entry(kind, f, o) {
      SetKeepsOthers(kind, f, c, v, o);
    }
  }

  /** A run of FAT bytes within one sector. */
  lemma RunInSector(g: Geometry, d: seq<Sector>, b: nat, w: nat)
    requires g.FatFits(|d|) && b + w <= g.fsize * SS && 0 < w && b % SS + w <= SS
    ensures b / SS < g.fsize && FatBytes(g, d)[b..b + w] == d[g.fatbase + b / SS][b % SS..b % SS + w]
  {
    var f := FatBytes(g, d);
    var r, q := f[b..b + w], d[g.fatbase + b / SS][b % SS..b % SS + w];
    forall j | 0 <= j < w ensures r[j] == q[j] {
      SplitIndex(b, b / SS, b % SS);
      SplitIndex(b + j, b / SS, b % SS + j);
    }
  }

  /** Entry `c` lies within the FAT, and within one sector unless the sub-type is FAT12. */
  lemma EntryPlace(g: Geometry, c: nat)
    requires EntriesFit(g.kind, g.nFatent, g.fsize * SS) && c < g.nFatent
    ensures EntryOffset(g.kind, c) + EntryWidth(g.kind) <= g.fsize * SS
    ensures g.kind != FAT12 ==> EntryOffset(g.kind, c) % SS + EntryWidth(g.kind) <= SS
  {
    assert EntryOffset(g.kind, c) + EntryWidth(g.kind) <= g.fsize * SS;
    if g.kind == FAT16 {
      ModUnique(2 * c, SS, c / 256, 2 * (c % 256));
    } else if g.kind == FAT32 {
      ModUnique(4 * c, SS, c / 128, 4 * (c % 128));
    }
  }

  lemma PatchPair(f: seq<byte>, b: nat, x: byte, y: byte)
    requires b + 2 <= |f|
    ensures Patch(f, b, [x])[b + 1..b + 2] == f[b + 1..b + 2]
    ensures Patch(Patch(f, b, [x]), b + 1, [y]) == Patch(f, b, [x, y])
  {
  }

  /** Editing a FAT12 entry's two bytes one after the other stores the entry. */
  lemma EntryFromBytes(f: seq<byte>, c: nat, v: nat, lo: byte, hi: byte, q: byte)
    requires c + c / 2 + 2 <= |f|
    requires lo == if c % 2 == 1 then f[c + c / 2] % 16 + v % 16 * 16 else v % 256
    requires q == Patch(f, c + c / 2, [lo])[c + c / 2 + 1]
    requires hi == if c % 2 == 1 then v / 16 % 256 else q / 16 * 16 + v / 256 % 16
    ensures Patch(Patch(f, c + c / 2, [lo]), c + c / 2 + 1, [hi]) == SetEntry(FAT12, f, c, v)
  {
    var b := c + c / 2;
    PatchPair(f, b, lo, hi);
    assert f[b..b + 2][0] == f[b] && f[b..b + 2][1] == f[b + 1] == q;
    assert EntryBytes(FAT12, c % 2 == 1, f[b..b + 2], v) == [lo, hi];
  }

  lemma PairOfBytes(f: seq<byte>, b: nat)
    requires b + 2 <= |f|
    ensures f[b..b + 2] == [f[b], f[b + 1]]
  {
  }

  lemma SameFatBytes(g: Geometry, d: seq<Sector>, e: seq<Sector>)
    requires g.FatFits(|d|) && |e| == |d| && forall s | g.InFat(s) :: d[s] == e[s]
    ensures FatBytes(g, d) == FatBytes(g, e)
  {
    var a, b := FatBytes(g, d), FatBytes(g, e);
    forall i | 0 <= i < |a| ensures a[i] == b[i] {
      assert g.InFat(g.fatbase + i / SS);
    }
  }

  lemma OutsideTwice(g: Geometry, d: seq<Sector>, e: seq<Sector>, h: seq<Sector>)
    requires SameOutsideFat(g, d, e) && SameOutsideFat(g, e, h)
    ensures SameOutsideFat(g, d, h)
  {
  }

  lemma FirstFatSector(g: Geometry, b: nat)
    requires b < g.fsize * SS
    ensures g.InFat(g.fatbase + b / SS)
  {
  }

  class Volume {
    const g: Geometry
    const win: array<byte>
    var dev: seq<Sector>
    var winsect: nat
    var wflag: bool
    var fsiFlag: bool
    var freeClust: dword
    var lastClust: dword

    ghost predicate Valid()
      reads this`dev, this`winsect, this`wflag, win
    {
      && g.Valid() && win.Length == SS && |dev| == g.sectors
      && winsect < g.sectors
      && Mirrored(g, dev)
      && (wflag ==> g.fatbase <= winsect && (g.InFat(winsect) || !g.InAnyFat(winsect)))
      && (!wflag && winsect != 0 ==> win[..] == dev[winsect])
    }

    /** The disk as the file system sees it: the device under the dirty window. */
    ghost function Logical(): (d: seq<Sector>)
      requires Valid()
      reads this`dev, this`winsect, this`wflag, win
      ensures |d| == g.sectors && g.FatFits(|d|) && Mirrored(g, d)
      ensures winsect != 0 ==> d[winsect] == win[..]
    {
      if wflag then WriteThroughFrame(g, dev, winsect, win[..]); WriteThrough(g, dev, winsect, win[..]) else dev
    }

    /** The first FAT of the logical disk. */
    ghost function FatData(): (f: seq<byte>)
      requires Valid()
      reads this`dev, this`winsect, this`wflag, win
      ensures |f| == g.fsize * SS && EntriesFit(g.kind, g.nFatent, |f|)
    {
      FatBytes(g, Logical())
    }

    ghost function Fat(): (t: seq<nat>)
      requires Valid()
      reads this`dev, this`winsect, this`wflag, win
      ensures |t| == g.nFatent
    {
      Table(g.kind, g.nFatent, FatData())
    }

    /** Lines 508-540.  Moving to sector 0 only writes the dirty window back. */
    method MoveWindow(sector: nat)
      requires Valid() && sector < g.sectors
      modifies this`dev, this`winsect, this`wflag, win
      ensures Valid() && Logical() == old(Logical())
      ensures sector != 0 ==> winsect == sector
      ensures sector == 0 ==> winsect == old(winsect) && (winsect != 0 ==> !wflag) && win[..] == old(win[..])
      ensures wflag ==> old(wflag) && winsect == old(winsect)
    {
      var wsect := winsect;
      if wsect != sector {
        if wflag {
          WriteBack();
        }
        if sector != 0 {
          ghost var d := dev[sector];
          forall i | 0 <= i < SS {
            win[i] := dev[sector][i];
          }
          assert win[..] == d;
          winsect := sector;
        }
      }
    }

    /** Lines 520-529: write the window to its sector and, in the FAT area, to every copy. */
    method WriteBack()
      requires Valid() && wflag
      modifies this`dev, this`wflag
      ensures Valid() && !wflag && dev == old(Logical())
    {
      ghost var d0 := dev;
      ghost var w: Sector := win[..];
      WriteThroughFrame(g, d0, winsect, w);
      ghost var d1: seq<Sector> := d0[winsect := w];
      var wsect := winsect;
      dev := dev[wsect := win[..]];
      wflag := false;
      if wsect < g.fatbase + g.fsize {
        var nf := g.nFats;
        while nf > 1
          modifies this`dev
          invariant 1 <= nf <= g.nFats <= 2 && wsect == winsect + (if nf == g.nFats then 0 else g.fsize)
          invariant nf == g.nFats ==> dev == d1
          invariant nf < g.nFats ==> dev == d1[winsect + g.fsize := w]
        {
          wsect := wsect + g.fsize;
          dev := dev[wsect := win[..]];
          nf := nf - 1;
        }
      }
      assert dev == WriteThrough(g, d0, winsect, w);
      assert win[..] == w;
    }

    /** A direct write of one sector that neither the window nor a FAT copy holds. */
    method PutSector(s: nat, data: Sector)
      requires Valid() && s < g.sectors && !g.InAnyFat(s) && s != winsect
      modifies this`dev
      ensures Valid() && dev == old(dev)[s := data] && Logical() == old(Logical())[s := data]
      ensures Fat() == old(Fat())
    {
      ghost var d0 := Logical();
      dev := dev[s := data];
      assert Logical() == d0[s := data];
      SameFatBytes(g, d0, Logical());
    }

    /** A direct read of one sector that neither the window nor a FAT copy holds. */
    method GetSector(s: nat) returns (r: Sector)
      requires Valid() && s < g.sectors && !g.InAnyFat(s) && s != winsect
      ensures r == Logical()[s]
    {
      r := dev[s];
    }

    /** Write bytes into the window and mark it dirty. */
    method StoreBytes(off: nat, r: seq<byte>)
      requires Valid() && winsect != 0 && off + |r| <= SS
      requires g.fatbase <= winsect && (g.InFat(winsect) || !g.InAnyFat(winsect))
      modifies this`wflag, win
      ensures Valid() && wflag
      ensures winsect < g.sectors && off + |r| <= |old(Logical())[winsect]|
      ensures Logical() == WriteThrough(g, old(Logical()), winsect, Patch(old(Logical())[winsect], off, r))
    {
      ghost var d, w := Logical(), win[..];
      ghost var p := Patch(w, off, r);
      forall i | 0 <= i < |r| {
        win[off + i] := r[i];
      }
      wflag := true;
      assert win[..] == p;
      WriteThroughFrame(g, d, winsect, p);
      assert !g.InFat(winsect) || g.nFats != 2 || d == WriteThrough(g, dev, winsect, w) || d == dev;
    }

    /** Write bytes into a window outside the FAT area. */
    method StoreData(off: nat, r: seq<byte>)
      requires Valid() && winsect != 0 && off + |r| <= SS && g.fatbase <= winsect && !g.InAnyFat(winsect)
      modifies this`wflag, win
      ensures Valid() && wflag && winsect < g.sectors && off + |r| <= |old(Logical())[winsect]|
      ensures Logical() == old(Logical())[winsect := Patch(old(Logical())[winsect], off, r)] && Fat() == old(Fat())
    {
      ghost var d := Logical();
      StoreBytes(off, r);
      SameFatBytes(g, d, Logical());
    }

    /** `w` bytes of the FAT that lie in one sector. */
    method FatRun(b: nat, w: nat) returns (r: seq<byte>)
      requires Valid() && b + w <= g.fsize * SS && 0 < w && b % SS + w <= SS
      modifies this`dev, this`winsect, this`wflag, win
      ensures Valid() && Logical() == old(Logical()) && winsect == g.fatbase + b / SS && g.InFat(winsect)
      ensures FatData() == old(FatData()) && r == FatData()[b..b + w]
    {
      RunInSector(g, Logical(), b, w);
      MoveWindow(g.fatbase + b / SS);
      r := win[b % SS..b % SS + w];
      assert r == win[..][b % SS..b % SS + w];
    }

    /** One byte of the FAT, brought into the window. */
    method FatByte(b: nat) returns (x: byte)
      requires Valid() && b < g.fsize * SS
      modifies this`dev, this`winsect, this`wflag, win
      ensures Valid() && Logical() == old(Logical()) && winsect == g.fatbase + b / SS && g.InFat(winsect)
      ensures FatData() == old(FatData()) && x == FatData()[b]
    {
      var r := FatRun(b, 1);
      x := r[0];
    }

    /** Two bytes of the FAT, which may lie in different sectors. */
    method FatPair(b: nat) returns (r: seq<byte>)
      requires Valid() && b + 2 <= g.fsize * SS
      modifies this`dev, this`winsect, this`wflag, win
      ensures Valid() && Logical() == old(Logical()) && g.InFat(winsect)
      ensures FatData() == old(FatData()) && r == FatData()[b..b + 2]
    {
      hide *;
      ghost var f := FatData();
      var lo := FatByte(b);
      var hi := FatByte(b + 1);
      r := [lo, hi];
      PairOfBytes(f, b);
    }

    /** Lines 606-639.  No access leaves the FAT sectors: every index is in range. */
    method GetFat(clst: nat) returns (v: nat)
      requires Valid()
      modifies this`dev, this`winsect, this`wflag, win
      ensures Valid() && Logical() == old(Logical())
      ensures Fat() == old(Fat()) && v == if 2 <= clst < g.nFatent then Fat()[clst] else 1
      ensures 2 <= clst < g.nFatent ==> g.InFat(winsect)
      ensures !(2 <= clst < g.nFatent) ==> winsect == old(winsect) && wflag == old(wflag) && dev == old(dev) && win[..] == old(win[..])
    {
      if clst < 2 || clst >= g.nFatent {
        return 1;
      }
      ghost var f, d := FatData(), Logical();
      var b := EntryOffset(g.kind, clst);
      EntryPlace(g, clst);
      var w := EntryWidth(g.kind);
      var r;
      hide *;
      if g.kind == FAT12 {
        r := FatPair(b);
      } else {
        r := FatRun(b, w);
      }
      assert r == f[b..b + w];
      v := EntryValue(g.kind, clst % 2 == 1, r);
    }

    /** Store bytes of the FAT through the window. */
    method StoreFat(b: nat, r: seq<byte>)
      requires Valid() && 0 < |r| && b + |r| <= g.fsize * SS && b % SS + |r| <= SS && winsect == g.fatbase + b / SS
      modifies this`wflag, win
      ensures Valid() && wflag
      ensures FatData() == Patch(old(FatData()), b, r)
      ensures SameOutsideFat(g, old(Logical()), Logical())
    {
      ghost var d := Logical();
      RunInSector(g, d, b, |r|);
      StorePatchesFat(g, d, b / SS, b % SS, r);
      WriteThroughFrame(g, d, winsect, Patch(d[winsect], b % SS, r));
      StoreBytes(b % SS, r);
    }

    /** Lines 649-701. */
    method PutFat(clst: nat, val: nat) returns (ok: bool)
      requires Valid()
      modifies this`dev, this`winsect, this`wflag, win
      ensures Valid() && (ok <==> 2 <= clst < g.nFatent)
      ensures ok ==> Fat() == old(Fat())[clst := val % EntryLimit(g.kind)] && wflag && g.InFat(winsect)
      ensures ok ==> EntryOffset(g.kind, clst) + EntryWidth(g.kind) <= |old(FatData())|
                     && FatData() == SetEntry(g.kind, old(FatData()), clst, val)
      ensures ok ==> SameOutsideFat(g, old(Logical()), Logical())
      ensures !ok ==> Logical() == old(Logical()) && winsect == old(winsect)
    {
      if clst < 2 || clst >= g.nFatent {
        return false;
      }
      EntryPlace(g, clst);
      SetEntrySetsTable(g.kind, g.nFatent, FatData(), clst, val);
      hide Volume.FatData, EntryOffset, SetEntry;
      if g.kind == FAT12 {
        PutFat12(clst, val);
      } else {
        PutFatWide(clst, val);
      }
      ok := true;
    }

    /** Lines 666-677: a FAT12 entry may straddle two sectors. */
    method PutFat12(clst: nat, val: nat)
      requires Valid() && g.kind == FAT12 && clst + clst / 2 + 2 <= g.fsize * SS
      modifies this`dev, this`winsect, this`wflag, win
      ensures Valid() && wflag && g.InFat(winsect)
      ensures FatData() == SetEntry(FAT12, old(FatData()), clst, val)
      ensures SameOutsideFat(g, old(Logical()), Logical())
    {
      hide *;
      ghost var f, d0 := FatData(), Logical();
      var bc := clst + clst / 2;
      var p := FatByte(bc);
      var lo: byte := if clst % 2 == 1 then p % 16 + val % 16 * 16 else val % 256;
      StoreFat(bc, [lo]);
      ghost var f1, d1 := FatData(), Logical();
      var q := FatByte(bc + 1);
      var hi: byte := if clst % 2 == 1 then val / 16 % 256 else q / 16 * 16 + val / 256 % 16;
      StoreFat(bc + 1, [hi]);
      EntryFromBytes(f, clst, val, lo, hi, q);
      OutsideTwice(g, d0, d1, Logical());
      FirstFatSector(g, bc + 1);
    }

    /** Lines 679-692. */
    method PutFatWide(clst: nat, val: nat)
      requires Valid() && g.kind != FAT12
      requires EntryOffset(g.kind, clst) + EntryWidth(g.kind) <= g.fsize * SS
      requires EntryOffset(g.kind, clst) % SS + EntryWidth(g.kind) <= SS
      modifies this`dev, this`winsect, this`wflag, win
      ensures Valid() && wflag && g.InFat(winsect)
      ensures FatData() == SetEntry(g.kind, old(FatData()), clst, val)
      ensures SameOutsideFat(g, old(Logical()), Logical())
    {
      hide Volume.Valid, Volume.Logical, Volume.FatData, FatBytes, EntriesFit, EntryBytes;
      var b := EntryOffset(g.kind, clst);
      var p := FatRun(b, EntryWidth(g.kind));
      StoreFat(b, EntryBytes(g.kind, clst % 2 == 1, p, val));
    }

    /** The FSInfo sector lines 560-569 build. */
    static function FsInfo(free: nat, last: nat): Sector {
      var z: Sector := seq(512, i => 0);
      var s := Patch(Patch(z, 510, [0x55, 0xAA]), 0, Le32(0x4161_5252));
      Patch(Patch(Patch(s, 484, Le32(0x6141_7272)), 488, Le32(free)), 492, Le32(last))
    }

    /** Lines 550-577: afterwards the device is the logical disk, apart from a rewritten FSInfo. */
    method Sync()
      requires Valid()
      modifies this`dev, this`winsect, this`wflag, this`fsiFlag, win
      ensures Valid() && dev == Logical()
      ensures Logical() == if g.kind == FAT32 && old(fsiFlag)
                           then old(Logical())[g.fsiSector := FsInfo(freeClust, lastClust)] else old(Logical())
      ensures !(g.kind == FAT32 && fsiFlag)
    {
      MoveWindow(0);
      if g.kind == FAT32 && fsiFlag {
        ghost var d := dev;
        winsect := 0;
        var info := FsInfo(freeClust, lastClust);
        forall i | 0 <= i < SS {
          win[i] := info[i];
        }
        assert win[..] == info;
        dev := dev[g.fsiSector := win[..]];
        fsiFlag := false;
      }
    }
  }
}
