/** Counting free clusters (ff.c, f_getfree): the cached count, the scan of FAT12 entries and the raw
    sector scan of the wider FATs. */
module FatGetFree {
  import opened FatLayout
  import opened FatWindow
  import opened FatChains

  /** How many of the first `k` entries are zero, the reserved ones included. */
  ghost function ZerosBelow(t: seq<nat>, k: nat): nat
    requires k <= |t|
  {
    if k == 0 then 0 else ZerosBelow(t, k - 1) + if t[k - 1] == 0 then 1 else 0
  }

  function Zero(b: bool): nat {
    if b then 1 else 0
  }

  /** The raw count and the number of free clusters differ by the reserved entries that are zero. */
  lemma {:induction false} RawCount(t: seq<nat>, k: nat)
    requires 2 <= k <= |t|
    ensures ZerosBelow(t, k) == |Free(t[..k])| + Zero(t[0] == 0) + Zero(t[1] == 0)
  {
    if k == 2 {
      assert Free(t[..2]) == {};
      assert ZerosBelow(t, 2) == ZerosBelow(t, 1) + Zero(t[1] == 0);
    } else {
      RawCount(t, k - 1);
      if t[k - 1] == 0 {
        assert Free(t[..k]) == Free(t[..k - 1]) + {k - 1};
      } else {
        assert Free(t[..k]) == Free(t[..k - 1]);
      }
    }
  }

  /** The raw scan counts the free clusters exactly when both reserved entries are in use. */
  lemma RawCountIsFreeIff(t: seq<nat>)
    requires 2 <= |t|
    ensures ZerosBelow(t, |t|) == |Free(t)| <==> t[0] != 0 && t[1] != 0
  {
    RawCount(t, |t|);
    assert t[..|t|] == t;
  }

  /** The position of the first invalid entry, or the end. */
  ghost function FirstInvalid(t: seq<nat>, c: nat): (r: nat)
    requires c <= |t|
    ensures c <= r <= |t|
    ensures forall x | c <= x < r :: t[x] != 1
    ensures r < |t| ==> t[r] == 1
    decreases |t| - c
  {
    if c == |t| || t[c] == 1 then c else FirstInvalid(t, c + 1)
  }

  /** The FAT12 scan stops at an invalid entry, and then misses the free clusters behind it. */
  lemma PartialCountIsFreeIff(t: seq<nat>)
    requires 2 <= |t|
    ensures var e := FirstInvalid(t, 2);
            ZerosBelow(t, e) - ZerosBelow(t, 2) == |Free(t)| <==> forall x | e <= x < |t| :: t[x] != 0
  {
    var e := FirstInvalid(t, 2);
    RawCount(t, e);
    RawCount(t, 2);
    assert Free(t[..2]) == {};
    assert Free(t[..e]) <= Free(t);
    if forall x | e <= x < |t| :: t[x] != 0 {
      assert Free(t[..e]) == Free(t);
    } else {
      var x :| e <= x < |t| && t[x] == 0;
      assert x in Free(t) && x !in Free(t[..e]);
      StrictSubset(Free(t[..e]), Free(t), x);
    }
  }

  lemma StrictSubset(a: set<nat>, b: set<nat>, x: nat)
    requires a <= b && x in b && x !in a
    ensures |a| < |b|
  {
    assert b == a + (b - a);
    assert x in b - a;
  }

  /** Lines 2852-2859: count entry by entry. */
  method Scan12(fs: Volume) returns (ok: bool, n: nat)
    requires fs.Valid()
    modifies fs`dev, fs`winsect, fs`wflag, fs.win
    ensures fs.Valid() && fs.Logical() == old(fs.Logical()) && fs.Fat() == old(fs.Fat())
    ensures 2 <= |fs.Fat()|
    ensures var t := fs.Fat();
            var e := FirstInvalid(t, 2);
            n == ZerosBelow(t, e) - ZerosBelow(t, 2) && (ok <==> e == |t|)
  {
    var clst := 2;
    ok, n := true, 0;
    ghost var t := fs.Fat();
    hide Volume.Valid, Volume.Logical, Volume.Fat, Volume.FatData;
    assert fs.g.Valid();
    while true
      invariant fs.Valid() && fs.Logical() == old(fs.Logical()) && fs.Fat() == t
      invariant 2 <= clst < |t| && FirstInvalid(t, clst) == FirstInvalid(t, 2)
      invariant n == ZerosBelow(t, clst) - ZerosBelow(t, 2)
      decreases |t| - clst
    {
      var stat := fs.GetFat(clst);
      if stat == 1 {
        ok := false;
        break;
      }
      if stat == 0 {
        n := n + 1;
      }
      clst := clst + 1;
      if clst >= fs.g.nFatent {
        break;
      }
    }
  }

  /** Whether the entry that begins at byte `p` of a FAT sector reads as zero. */
  function RawZero(kind: FatType, win: seq<byte>, p: nat): bool
    requires kind != FAT12 && p + EntryWidth(kind) <= |win|
  {
    if kind == FAT16 then At(win, p) + At(win, p + 1) * 256 == 0
    else (At(win, p) + At(win, p + 1) * 256 + At(win, p + 2) * 0x1_0000 + At(win, p + 3) * 0x100_0000) % 0x1000_0000 == 0
  }

  /** The sector of the FAT that holds entry `c` of `w` bytes, and the entry's place in it. */
  function EntrySector(w: nat, c: nat): nat {
    w * c / SS
  }

  function EntryPos(w: nat, c: nat): nat {
    w * c % SS
  }

  /** The window on the sector of entry `c` shows that entry. */
  lemma RawEntry(g: Geometry, d: seq<Sector>, c: nat)
    requires g.FatFits(|d|) && g.kind != FAT12 && EntriesFit(g.kind, g.nFatent, g.fsize * SS) && c < g.nFatent
    ensures var w := EntryWidth(g.kind);
            && EntryPos(w, c) + w <= SS && g.fatbase + EntrySector(w, c) < |d| && 0 < g.fatbase
            && (RawZero(g.kind, d[g.fatbase + EntrySector(w, c)], EntryPos(w, c))
                <==> Table(g.kind, g.nFatent, FatBytes(g, d))[c] == 0)
  {
    var w := EntryWidth(g.kind);
    EntryPlace(g, c);
    RunInSector(g, d, w * c, w);
  }

  lemma NextRaw(w: nat, c: nat)
    requires w == 2 || w == 4
    ensures EntryPos(w, c) + w <= SS
    ensures EntryPos(w, c) + w == SS ==> EntryPos(w, c + 1) == 0 && EntrySector(w, c + 1) == EntrySector(w, c) + 1
    ensures EntryPos(w, c) + w < SS ==>
              EntryPos(w, c + 1) == EntryPos(w, c) + w && EntrySector(w, c + 1) == EntrySector(w, c)
    ensures EntryPos(w, 0) == 0 == EntrySector(w, 0)
  {
    if w == 2 {
      NextByLiteral(c, c / 256, c % 256);
    } else {
      NextByLiteral4(c, c / 128, c % 128);
    }
  }

  lemma NextByLiteral(c: nat, q: nat, r: nat)
    requires c == 256 * q + r && r < 256
    ensures EntryPos(2, c) == 2 * r && EntrySector(2, c) == q
    ensures r < 255 ==> EntryPos(2, c + 1) == 2 * r + 2 && EntrySector(2, c + 1) == q
    ensures r == 255 ==> EntryPos(2, c + 1) == 0 && EntrySector(2, c + 1) == q + 1
  {
    ModUnique(2 * c, SS, q, 2 * r);
    if r < 255 {
      ModUnique(2 * (c + 1), SS, q, 2 * r + 2);
    } else {
      ModUnique(2 * (c + 1), SS, q + 1, 0);
    }
  }

  lemma NextByLiteral4(c: nat, q: nat, r: nat)
    requires c == 128 * q + r && r < 128
    ensures EntryPos(4, c) == 4 * r && EntrySector(4, c) == q
    ensures r < 127 ==> EntryPos(4, c + 1) == 4 * r + 4 && EntrySector(4, c + 1) == q
    ensures r == 127 ==> EntryPos(4, c + 1) == 0 && EntrySector(4, c + 1) == q + 1
  {
    ModUnique(4 * c, SS, q, 4 * r);
    if r < 127 {
      ModUnique(4 * (c + 1), SS, q, 4 * r + 4);
    } else {
      ModUnique(4 * (c + 1), SS, q + 1, 0);
    }
  }

  /** Where the walk over the FAT's sectors stands before entry `c`: `i` bytes are left of the window,
      from `p` on. */
  ghost predicate RawAt(g: Geometry, winsect: nat, c: nat, sect: nat, i: nat, p: nat) {
    var w := EntryWidth(g.kind);
    if i == 0 then EntryPos(w, c) == 0 && sect == g.fatbase + EntrySector(w, c)
    else
      && sect == g.fatbase + EntrySector(w, c) + 1 && winsect == sect - 1
      && p == EntryPos(w, c) && i == SS - p
  }

  lemma RawStart(g: Geometry, winsect: nat)
    requires g.kind != FAT12
    ensures RawAt(g, winsect, 0, g.fatbase, 0, 0)
  {
    NextRaw(EntryWidth(g.kind), 0);
  }

  lemma ZerosNext(t: seq<nat>, c: nat)
    requires c < |t|
    ensures ZerosBelow(t, 0) == 0 && ZerosBelow(t, c + 1) == ZerosBelow(t, c) + (if t[c] == 0 then 1 else 0)
  {
  }

  /** Lines 2865-2877: one entry of the walk over the FAT's sectors, which does not compute where an
      entry lies. */
  method RawStep(fs: Volume, sect0: nat, i0: nat, p0: nat, ghost c: nat) returns (sect: nat, i: nat, p: nat, zero: bool)
    requires fs.Valid() && fs.g.kind != FAT12 && c < |fs.Fat()|
    requires RawAt(fs.g, fs.winsect, c, sect0, i0, p0)
    modifies fs`dev, fs`winsect, fs`wflag, fs.win
    ensures fs.Valid() && fs.Logical() == old(fs.Logical()) && fs.Fat() == old(fs.Fat())
    ensures zero <==> fs.Fat()[c] == 0
    ensures RawAt(fs.g, fs.winsect, c + 1, sect, i, p)
  {
    assert fs.g.Valid() && fs.Fat() == Table(fs.g.kind, fs.g.nFatent, FatBytes(fs.g, fs.Logical()));
    hide Volume.Valid, Volume.Logical, Volume.Fat, Volume.FatData, Table, RawZero, FatBytes, EntriesFit,
      EntryPos, EntrySector;
    ghost var d := fs.Logical();
    RawEntry(fs.g, d, c);
    NextRaw(EntryWidth(fs.g.kind), c);
    sect, i, p := sect0, i0, p0;
    if i == 0 {
      fs.MoveWindow(sect);
      sect := sect + 1;
      p, i := 0, SS;
    }
    ghost var s := fs.winsect;
    assert d[s] == fs.win[..];
    zero := RawZero(fs.g.kind, fs.win[..], p);
    p, i := p + EntryWidth(fs.g.kind), i - EntryWidth(fs.g.kind);
  }

  /** One round of the scan: an entry is counted when it reads as zero. */
  method RawRound(fs: Volume, sect0: nat, i0: nat, p0: nat, n0: nat, ghost c: nat, ghost t: seq<nat>)
    returns (sect: nat, i: nat, p: nat, n: nat)
    requires fs.Valid() && fs.g.kind != FAT12 && c < |t| && fs.Fat() == t && n0 == ZerosBelow(t, c)
    requires RawAt(fs.g, fs.winsect, c, sect0, i0, p0)
    modifies fs`dev, fs`winsect, fs`wflag, fs.win
    ensures fs.Valid() && fs.Logical() == old(fs.Logical()) && fs.Fat() == t
    ensures n == ZerosBelow(t, c + 1) && RawAt(fs.g, fs.winsect, c + 1, sect, i, p)
  {
    hide *;
    var zero;
    sect, i, p, zero := RawStep(fs, sect0, i0, p0, c);
    ZerosNext(t, c);
    n := if zero then n0 + 1 else n0;
  }

  /** Lines 2860-2878: count through the FAT's sectors. */
  method ScanRaw(fs: Volume) returns (n: nat)
    requires fs.Valid() && fs.g.kind != FAT12
    modifies fs`dev, fs`winsect, fs`wflag, fs.win
    ensures fs.Valid() && fs.Logical() == old(fs.Logical()) && fs.Fat() == old(fs.Fat())
    ensures n == ZerosBelow(fs.Fat(), |fs.Fat()|)
  {
    hide *;
    Entries(fs);
    var clst, sect, i, p := fs.g.nFatent, fs.g.fatbase, 0, 0;
    n := 0;
    ghost var t := fs.Fat();
    ghost var c := 0;
    RawStart(fs.g, fs.winsect);
    ZerosNext(t, 0);
    while true
      invariant fs.Valid() && fs.Logical() == old(fs.Logical()) && fs.Fat() == t
      invariant c < |t| && clst == |t| - c && n == ZerosBelow(t, c)
      invariant RawAt(fs.g, fs.winsect, c, sect, i, p)
      decreases clst
    {
      sect, i, p, n := RawRound(fs, sect, i, p, n, c, t);
      clst := clst - 1;
      c := c + 1;
      if clst == 0 {
        break;
      }
    }
  }

  /** Lines 2845-2883.  A plausible cached count is returned as it is; otherwise the count is taken
      and cached. */
  method GetFree(fs: Volume) returns (ok: bool, n: nat)
    requires fs.Valid()
    modifies fs`dev, fs`winsect, fs`wflag, fs`freeClust, fs`fsiFlag, fs.win
    ensures fs.Valid() && fs.Logical() == old(fs.Logical()) && fs.Fat() == old(fs.Fat()) && 2 <= |fs.Fat()|
    ensures n == fs.freeClust
    ensures var t := fs.Fat();
            var e := if fs.g.kind == FAT12 then FirstInvalid(t, 2) else |t|;
            if old(fs.freeClust) <= |t| - 2 then ok && n == old(fs.freeClust) && fs.fsiFlag == old(fs.fsiFlag)
            else
              && n == (if fs.g.kind == FAT12 then ZerosBelow(t, e) - ZerosBelow(t, 2) else ZerosBelow(t, |t|))
              && (ok <==> e == |t|) && fs.fsiFlag == (old(fs.fsiFlag) || fs.g.kind == FAT32)
  {
    hide *;
    Entries(fs);
    ok := true;
    if fs.freeClust <= fs.g.nFatent - 2 {
      n := fs.freeClust;
    } else {
      if fs.g.kind == FAT12 {
        ok, n := Scan12(fs);
        CountBound(fs.Fat(), FirstInvalid(fs.Fat(), 2));
      } else {
        n := ScanRaw(fs);
        CountBound(fs.Fat(), |fs.Fat()|);
      }
      fs.freeClust := n;
      if fs.g.kind == FAT32 {
        fs.fsiFlag := true;
      }
    }
  }

  lemma Entries(fs: Volume)
    requires fs.Valid()
    ensures 2 <= fs.g.nFatent < U32
  {
  }

  lemma CountBound(t: seq<nat>, k: nat)
    requires k <= |t|
    ensures ZerosBelow(t, k) <= k
  {
  }
}
