/** The layout part of mounting a volume (ff.c, chk_mounted): the 32-bit arithmetic that turns the
    boot record into a geometry, and exactly when that geometry is sound. */
module FatMount {
  import opened FatLayout

  datatype Option<T> = None | Some(value: T)

  type word = w: nat | w < 0x1_0000

  /** The fields of the boot record the layout is computed from. */
  datatype BootRecord = BootRecord(fatSz16: word, fatSz32: dword, numFats: byte, secPerClus: bv8, rootEntCnt: word,
                                   totSec16: word, totSec32: dword, rsvdSecCnt: word, rootClus: dword, fsInfo: word)
  {
    function FatSize(): dword {
      if fatSz16 != 0 then fatSz16 else fatSz32
    }

    function TotalSectors(): dword {
      if totSec16 != 0 then totSec16 else totSec32
    }

    /** Lines 1846-1852: the FAT area as the code computes it. */
    function FatSectors(): dword {
      FatSize() * numFats % U32
    }

    /** Line 1867: the sectors before the data area, as the code computes them. */
    function SystemSectors(): dword {
      (rsvdSecCnt + FatSectors() + rootEntCnt / 16) % U32
    }

    /** Reserved sectors, FAT copies and root directory, before any wrap-around. */
    function SystemArea(): nat {
      rsvdSecCnt + (if numFats == 2 then FatSize() + FatSize() else FatSize()) + rootEntCnt / 16
    }
  }

  const MIN_FAT16: nat := 4086
  const MIN_FAT32: nat := 65526

  function SubType(nclst: nat): FatType {
    if nclst >= MIN_FAT32 then FAT32 else if nclst >= MIN_FAT16 then FAT16 else FAT12
  }

  /** Lines 1879-1888: the FAT size the sub-type needs, in wrapping 32-bit arithmetic. */
  function RequiredBytes(kind: FatType, n: nat): dword {
    match kind
    case FAT12 => (n * 3 / 2 + n % 2) % U32
    case FAT16 => n * 2 % U32
    case FAT32 => n * 4 % U32
  }

  /** Line 1889: the FAT is large enough for its entries. */
  predicate FatLargeEnough(kind: FatType, n: nat, fsize: nat) {
    (RequiredBytes(kind, n) + 511) % U32 / SS <= fsize
  }

  /** Lines 1846-1890: the geometry of a boot record, or none when the code refuses it. */
  function Layout(b: BootRecord, bsect: dword): Option<Geometry> {
    if b.numFats != 1 && b.numFats != 2 then None
    else if b.secPerClus == 0 || b.secPerClus & (b.secPerClus - 1) != 0 then None
    else if b.rootEntCnt % 16 != 0 then None
    else if b.rsvdSecCnt == 0 then None
    else
      var csize := b.secPerClus as nat;
      var sysect := b.SystemSectors();
      if b.TotalSectors() < sysect then None
      else
        var nclst := (b.TotalSectors() - sysect) / csize;
        var kind := SubType(nclst);
        var n := (nclst + 2) % U32;
        if nclst == 0 then None
        else if (kind == FAT32) != (b.rootEntCnt == 0) then None
        else if !FatLargeEnough(kind, n, b.FatSize()) then None
        else
          var fatbase := (bsect + b.rsvdSecCnt) % U32;
          Some(Geometry(kind, b.numFats, b.FatSize(), csize, n, fatbase,
                        if kind == FAT32 then b.rootClus else (fatbase + b.FatSectors()) % U32, b.rootEntCnt,
                        (bsect + sysect) % U32,
                        if kind == FAT32 then (bsect + b.fsInfo) % U32 else 0,
                        bsect + b.TotalSectors()))
  }

  lemma PowersOfTwo(b: bv8)
    ensures b != 0 && b & (b - 1) == 0 <==> b == 1 || b == 2 || b == 4 || b == 8 || b == 16 || b == 32 || b == 64 || b == 128
  {
  }

  /** The size check means what it should as long as the byte count does not wrap. */
  lemma CheckIsExact(kind: FatType, n: nat, fsize: nat)
    requires 2 <= n && (kind == FAT12 || kind == FAT16 ==> n < 0x1_0000) && (kind == FAT32 ==> n <= 0x4000_0000 - 128)
    ensures FatLargeEnough(kind, n, fsize) <==> EntriesFit(kind, n, fsize * SS)
  {
    match kind
    case FAT12 => CheckIsExact12(n, fsize);
    case FAT16 => CheckIsExact16(n, fsize);
    case FAT32 => CheckIsExact32(n, fsize);
  }

  /** The last entry is the one that reaches furthest. */
  lemma LastEntryReaches(kind: FatType, n: nat, len: nat)
    requires 2 <= n
    ensures EntriesFit(kind, n, len) <==> EntryOffset(kind, n - 1) + EntryWidth(kind) <= len
  {
    if EntryOffset(kind, n - 1) + EntryWidth(kind) <= len {
      forall c: nat | c < n ensures EntryOffset(kind, c) <= EntryOffset(kind, n - 1) {
      }
    }
  }

  lemma SectorsSuffice(bytes: nat, fsize: nat)
    ensures (bytes + 511) / SS <= fsize <==> bytes <= fsize * SS
  {
  }

  lemma CheckIsExact12(n: nat, fsize: nat)
    requires 2 <= n < 0x1_0000
    ensures FatLargeEnough(FAT12, n, fsize) <==> EntriesFit(FAT12, n, fsize * SS)
  {
    LastEntryReaches(FAT12, n, fsize * SS);
    assert RequiredBytes(FAT12, n) == EntryOffset(FAT12, n - 1) + 2;
    SectorsSuffice(RequiredBytes(FAT12, n), fsize);
    hide EntriesFit, RequiredBytes, EntryOffset;
  }

  lemma CheckIsExact16(n: nat, fsize: nat)
    requires 2 <= n < 0x1_0000
    ensures FatLargeEnough(FAT16, n, fsize) <==> EntriesFit(FAT16, n, fsize * SS)
  {
    LastEntryReaches(FAT16, n, fsize * SS);
    assert RequiredBytes(FAT16, n) == EntryOffset(FAT16, n - 1) + 2;
    SectorsSuffice(RequiredBytes(FAT16, n), fsize);
    hide EntriesFit, RequiredBytes, EntryOffset;
  }

  lemma CheckIsExact32(n: nat, fsize: nat)
    requires 2 <= n <= 0x4000_0000 - 128
    ensures FatLargeEnough(FAT32, n, fsize) <==> EntriesFit(FAT32, n, fsize * SS)
  {
    LastEntryReaches(FAT32, n, fsize * SS);
    assert RequiredBytes(FAT32, n) == EntryOffset(FAT32, n - 1) + 4;
    SectorsSuffice(RequiredBytes(FAT32, n), fsize);
    hide EntriesFit, RequiredBytes, EntryOffset;
  }

  /** The size check guards every FAT32 volume of `n` entries against accesses beyond its FAT exactly
      when the byte count of `n` entries, rounded up to sectors, stays below 2^32. */
  lemma CheckGuardsIff(n: nat)
    requires 2 <= n < U32
    ensures (forall fsize: nat | FatLargeEnough(FAT32, n, fsize) :: EntriesFit(FAT32, n, fsize * SS))
            <==> n <= 0x4000_0000 - 128
  {
    if n <= 0x4000_0000 - 128 {
      forall fsize: nat | FatLargeEnough(FAT32, n, fsize) ensures EntriesFit(FAT32, n, fsize * SS) {
        CheckIsExact(FAT32, n, fsize);
      }
    } else {
      var fsize := (RequiredBytes(FAT32, n) + 511) % U32 / SS;
      assert FatLargeEnough(FAT32, n, fsize);
      assert EntryOffset(FAT32, n - 1) + EntryWidth(FAT32) > fsize * SS;
    }
  }

  /** A boot record the code mounts although its FAT of one sector cannot hold the 2^30 entries. */
  lemma OversizedVolumeMounts()
    ensures var b := BootRecord(0, 1, 1, 1, 0, 0, 0x4000_001F, 32, 2, 1);
            && Layout(b, 0).Some? && Layout(b, 0).value.nFatent == 0x4000_0000
            && !EntriesFit(FAT32, 0x4000_0000, Layout(b, 0).value.fsize * SS)
  {
    var b := BootRecord(0, 1, 1, 1, 0, 0, 0x4000_001F, 32, 2, 1);
    assert SubType(0x3FFF_FFFE) == FAT32;
    assert EntryOffset(FAT32, 0x3FFF_FFFF) + EntryWidth(FAT32) > 512;
  }

  /** A boot record the code mounts although its FAT32 root directory starts at cluster 0, which is
      none: the root cluster is never looked at. */
  lemma RootlessVolumeMounts()
    ensures var b := BootRecord(0, 600, 1, 1, 0, 0, 70000, 32, 0, 1);
            && Layout(b, 0).Some? && Layout(b, 0).value.kind == FAT32
            && Layout(b, 0).value.Valid() && Layout(b, 0).value.DataFits() && !RootFits(Layout(b, 0).value)
  {
    var b := BootRecord(0, 600, 1, 1, 0, 0, 70000, 32, 0, 1);
    assert b.SystemSectors() == 632 && SubType(69368) == FAT32 && FatLargeEnough(FAT32, 69370, 600);
    CheckIsExact(FAT32, 69370, 600);
  }

  /** What a boot record must meet besides the code's own checks: the system area does not wrap, and
      a FAT32 volume has no more clusters than the format allows, its FSInfo in the reserved area and
      a root cluster that is one. */
  predicate SaneRecord(b: BootRecord) {
    && b.SystemArea() < U32
    && (Clusters(b) >= MIN_FAT32 ==> Clusters(b) <= 0x0FFF_FFF5 && b.fsInfo < b.rsvdSecCnt && 2 <= b.rootClus)
  }

  /** Line 1869: the clusters that fit behind the system area. */
  function Clusters(b: BootRecord): nat {
    if b.SystemSectors() <= b.TotalSectors() then PerCluster(b.TotalSectors() - b.SystemSectors(), b.secPerClus as nat) else 0
  }

  function PerCluster(sectors: nat, csize: nat): nat {
    if csize == 0 then 0 else sectors / csize
  }

  /** A partition that lies on a disk of at most 2^32 sectors. */
  predicate OnDisk32(b: BootRecord, bsect: dword) {
    bsect + b.TotalSectors() <= U32 && bsect + 0x1_0000 <= U32
  }

  lemma AreaWraps(b: BootRecord)
    requires b.numFats == 1 || b.numFats == 2
    ensures b.SystemSectors() == b.SystemArea() % U32
  {
    var f := b.FatSize() * b.numFats;
    var r := b.rsvdSecCnt + b.rootEntCnt / 16;
    assert b.SystemArea() == r + f;
    assert f == U32 * (f / U32) + f % U32;
    ModUnique(r + f, U32, (r + f % U32) / U32 + f / U32, (r + f % U32) % U32);
  }

  lemma ClustersInArea(a: nat, csize: nat)
    requires 0 < csize
    ensures a / csize * csize <= a && a / csize <= a
  {
    MulAtLeast(a / csize, csize);
  }

  lemma MulAtLeast(a: nat, m: nat)
    requires 0 < m
    ensures a <= a * m
  {
  }

  /** The mounted geometry, field by field. */
  lemma LayoutFields(b: BootRecord, bsect: dword, g: Geometry, nclst: nat)
    requires Layout(b, bsect) == Some(g) && OnDisk32(b, bsect) && b.secPerClus != 0
    requires b.SystemSectors() <= b.TotalSectors() ==>
               nclst == (b.TotalSectors() - b.SystemSectors()) / (b.secPerClus as nat)
    ensures b.numFats == 1 || b.numFats == 2
    ensures g.kind == SubType(nclst) && g.nFats == b.numFats && g.fsize == b.FatSize() && g.csize == b.secPerClus as nat
    ensures 1 <= g.csize <= 128 && 0 < nclst && g.nFatent == (nclst + 2) % U32
    ensures g.fatbase == bsect + b.rsvdSecCnt && 0 < b.rsvdSecCnt && g.sectors == bsect + b.TotalSectors()
    ensures b.SystemSectors() + nclst * g.csize <= b.TotalSectors() && b.SystemSectors() + nclst <= b.TotalSectors()
    ensures g.database == bsect + b.SystemSectors()
    ensures g.fsiSector == if g.kind == FAT32 then bsect + b.fsInfo else 0
    ensures FatLargeEnough(g.kind, g.nFatent, g.fsize)
    ensures g.nRootdir == b.rootEntCnt && b.rootEntCnt % 16 == 0 && (g.kind == FAT32 <==> b.rootEntCnt == 0)
    ensures g.dirbase == if g.kind == FAT32 then b.rootClus else (g.fatbase + b.FatSectors()) % U32
  {
    PowersOfTwo(b.secPerClus);
    hide FatLargeEnough, SubType, BootRecord.FatSize, BootRecord.FatSectors, BootRecord.SystemSectors,
      BootRecord.TotalSectors;
    if b.SystemSectors() <= b.TotalSectors() {
      ClustersInArea(b.TotalSectors() - b.SystemSectors(), b.secPerClus as nat);
    }
  }

  lemma SubTypeBounds(nclst: nat)
    ensures SubType(nclst) == FAT12 <==> nclst < MIN_FAT16
    ensures SubType(nclst) == FAT32 <==> nclst >= MIN_FAT32
    ensures SubType(nclst) != FAT32 || nclst <= 0x0FFF_FFF5 ==> nclst + 2 <= EntryLimit(SubType(nclst)) - 9
    ensures SubType(nclst) == FAT32 && nclst + 2 <= EntryLimit(SubType(nclst)) - 9 ==> nclst <= 0x0FFF_FFF5
    ensures SubType(nclst) != FAT32 ==> nclst < 0xFFFE
  {
  }

  /** The FAT copies end before the data area exactly when the system area does not wrap. */
  lemma AreaFits(b: BootRecord, bsect: dword, g: Geometry)
    requires g.nFats == b.numFats && g.fsize == b.FatSize() && (b.numFats == 1 || b.numFats == 2)
    requires g.fatbase == bsect + b.rsvdSecCnt && g.database == bsect + b.SystemSectors()
    ensures g.fatbase + g.FatArea() <= g.database <==> b.SystemArea() < U32
    ensures b.SystemArea() < U32 ==> b.SystemSectors() == b.SystemArea()
  {
    AreaWraps(b);
    hide BootRecord.FatSize, BootRecord.FatSectors, BootRecord.SystemSectors;
  }

  /** A fixed root directory fills the sectors between FATs and data unless the system area wraps; a
      root directory that is a chain starts at a cluster exactly when its number is not 0 or 1. */
  lemma RootPlace(b: BootRecord, bsect: dword, g: Geometry)
    requires g.nFats == b.numFats && g.fsize == b.FatSize() && (b.numFats == 1 || b.numFats == 2)
    requires g.fatbase == bsect + b.rsvdSecCnt && g.database == bsect + b.SystemSectors() && g.database <= U32
    requires g.nRootdir == b.rootEntCnt && b.rootEntCnt % 16 == 0 && (g.kind == FAT32 <==> b.rootEntCnt == 0)
    requires g.dirbase == if g.kind == FAT32 then b.rootClus else (g.fatbase + b.FatSectors()) % U32
    ensures b.SystemArea() < U32 ==> (RootFits(g) <==> (g.kind == FAT32 ==> 2 <= b.rootClus))
    ensures g.kind == FAT32 ==> (RootFits(g) <==> 2 <= b.rootClus)
  {
    AreaWraps(b);
    if b.SystemArea() < U32 && g.kind != FAT32 {
      FatSectorsExact(b, g);
      hide BootRecord.FatSize, BootRecord.FatSectors, BootRecord.SystemSectors, Geometry.FatArea;
      assert g.fatbase + b.FatSectors() < U32;
    }
  }

  lemma FatSectorsExact(b: BootRecord, g: Geometry)
    requires g.nFats == b.numFats && g.fsize == b.FatSize() && (b.numFats == 1 || b.numFats == 2)
    requires b.SystemArea() < U32
    ensures b.FatSectors() == g.FatArea() && b.SystemArea() == b.rsvdSecCnt + g.FatArea() + b.rootEntCnt / 16
  {
  }

  /** A mounted volume is laid out as every other part of the code relies on exactly when its boot
      record is sane. */
  lemma MountedIsSound(b: BootRecord, bsect: dword)
    requires Layout(b, bsect).Some? && OnDisk32(b, bsect)
    ensures var g := Layout(b, bsect).value; g.Valid() && g.DataFits() && RootFits(g) <==> SaneRecord(b)
  {
    hide *;
    var g := Layout(b, bsect).value;
    var nclst := Clusters(b);
    MountedFields(b, bsect, g, nclst);
    SubTypeBounds(nclst);
    SaneIs(b, nclst);
    SoundIs(g);
    NoWrapAround(nclst);
    if SaneRecord(b) {
      CheckIsExact(g.kind, g.nFatent, g.fsize);
    }
  }

  lemma MountedFields(b: BootRecord, bsect: dword, g: Geometry, nclst: nat)
    requires Layout(b, bsect) == Some(g) && OnDisk32(b, bsect) && nclst == Clusters(b)
    ensures b.secPerClus != 0 && 0 < nclst && g.nFatent == (nclst + 2) % U32 && nclst < U32 == 0x1_0000_0000
    ensures g.kind == SubType(nclst) && 1 <= g.nFats <= 2 && 1 <= g.csize <= 128
    ensures 1 <= g.fatbase && g.database <= g.sectors <= U32 && g.database + nclst * g.csize <= g.sectors
    ensures g.fatbase + g.FatArea() <= g.database <==> b.SystemArea() < U32
    ensures b.SystemArea() < U32 ==> b.SystemSectors() == b.SystemArea()
    ensures g.fsiSector < g.fatbase <==> (g.kind == FAT32 ==> b.fsInfo < b.rsvdSecCnt)
    ensures b.SystemSectors() <= b.TotalSectors() && FatLargeEnough(g.kind, g.nFatent, g.fsize)
    ensures b.SystemArea() < U32 ==> (RootFits(g) <==> (g.kind == FAT32 ==> 2 <= b.rootClus))
    ensures g.kind == FAT32 ==> (RootFits(g) <==> 2 <= b.rootClus)
  {
    var sys, ts := b.SystemSectors(), b.TotalSectors();
    LayoutFields(b, bsect, g, nclst);
    AreaFits(b, bsect, g);
    RootPlace(b, bsect, g);
    hide RootFits, Layout, SubType, FatLargeEnough, Geometry.FatArea, BootRecord.SystemArea, BootRecord.SystemSectors,
      BootRecord.FatSectors, BootRecord.FatSize, BootRecord.TotalSectors;
    assert sys <= ts;
  }

  lemma SaneIs(b: BootRecord, nclst: nat)
    requires nclst == Clusters(b)
    ensures SaneRecord(b) <==>
            b.SystemArea() < U32
            && (nclst >= MIN_FAT32 ==> nclst <= 0x0FFF_FFF5 && b.fsInfo < b.rsvdSecCnt && 2 <= b.rootClus)
  {
    hide BootRecord.SystemArea, Clusters;
  }

  lemma SoundIs(g: Geometry)
    ensures g.Valid() && g.DataFits() <==>
            && 1 <= g.nFats <= 2 && 1 <= g.csize <= 128 && 3 <= g.nFatent
            && 1 <= g.fatbase && g.fsiSector < g.fatbase && g.fatbase + g.FatArea() <= g.database
            && g.database <= g.sectors <= U32 && g.nFatent <= EntryLimit(g.kind) - 9
            && EntriesFit(g.kind, g.nFatent, g.fsize * SS)
            && g.database + (g.nFatent - 2) * g.csize <= g.sectors
    ensures MIN_FAT16 == 4086 && MIN_FAT32 == 65526
  {
    hide EntryLimit, EntriesFit, Geometry.FatArea;
  }

  /** The number of entries wraps for the two largest cluster counts only. */
  lemma NoWrapAround(nclst: nat)
    requires nclst < U32
    ensures (nclst + 2) % U32 == if nclst + 2 < U32 then nclst + 2 else nclst + 2 - U32
    ensures (nclst + 2) % U32 < 3 ==> nclst + 2 >= U32 || nclst == 0
  {
  }

  /** What the fields of a boot record say of a volume, in the terms of the FAT format: sectors for the
      reserved area, the copies of the FAT, the fixed root directory and the clusters follow each other,
      the number of clusters tells the sub-type, and the FAT has room for all entries. */
  ghost predicate Describes(b: BootRecord, bsect: dword, g: Geometry) {
    var fat := if b.fatSz16 != 0 then b.fatSz16 else b.fatSz32;
    var total := if b.totSec16 != 0 then b.totSec16 else b.totSec32;
    var fats := if b.numFats == 2 then fat + fat else fat;
    && (b.numFats == 1 || b.numFats == 2) && g.nFats == b.numFats && g.fsize == fat
    && b.secPerClus in {1, 2, 4, 8, 16, 32, 64, 128} && g.csize == b.secPerClus as nat
    && 0 < b.rsvdSecCnt && b.rootEntCnt % 16 == 0 && g.nRootdir == b.rootEntCnt
    && g.fatbase == bsect + b.rsvdSecCnt && g.database == g.fatbase + fats + b.rootEntCnt / 16
    && g.database < bsect + 0x1_0000_0000 && g.sectors == bsect + total
    && Fills(g.sectors, g.database, g.csize, g.nFatent)
    && SubTypeOf(g.kind, g.nFatent) && EntriesFit(g.kind, g.nFatent, fat * 512)
    && (g.kind == FAT32 <==> b.rootEntCnt == 0)
    && g.dirbase == (if g.kind == FAT32 then b.rootClus else g.fatbase + fats)
    && g.fsiSector == if g.kind == FAT32 then (bsect + b.fsInfo) % 0x1_0000_0000 else 0
  }

  /** `n` entries, two of them without a cluster, are as many as the data area has whole clusters for. */
  ghost predicate Fills(sectors: nat, database: nat, csize: nat, n: nat) {
    3 <= n && database + (n - 2) * csize <= sectors < database + (n - 2) * csize + csize
  }

  /** The bounds between the sub-types as the code has them, and that of FAT32. */
  ghost predicate SubTypeOf(kind: FatType, n: nat) {
    match kind
    case FAT12 => n - 2 < 4086
    case FAT16 => 4086 <= n - 2 < 65526
    case FAT32 => 65526 <= n - 2 <= 0x0FFF_FFF5
  }

  lemma FillsIs(area: nat, csize: nat, database: nat, n: nat)
    requires 0 < csize
    ensures Fills(database + area, database, csize, n) <==> 3 <= n && n - 2 == PerCluster(area, csize)
  {
    var q := area / csize;
    assert area == csize * q + area % csize;
    if Fills(database + area, database, csize, n) {
      ModUnique(area, csize, n - 2, area - (n - 2) * csize);
    }
    if 3 <= n && n - 2 == q {
      assert (n - 2) * csize == csize * q;
    }
  }

  lemma SubTypeIs(kind: FatType, nclst: nat)
    requires 0 < nclst
    ensures SubTypeOf(kind, nclst + 2) <==> kind == SubType(nclst) && nclst <= 0x0FFF_FFF5
  {
  }

  lemma CsizeIs(b: bv8)
    ensures b in {1, 2, 4, 8, 16, 32, 64, 128} <==> b != 0 && b & (b - 1) == 0
  {
    PowersOfTwo(b);
  }

  /** The areas of the record, when their sum is a 32-bit number. */
  lemma AreasExact(b: BootRecord, fats: nat)
    requires b.numFats == 1 || b.numFats == 2
    requires fats == if b.numFats == 2 then b.FatSize() + b.FatSize() else b.FatSize()
    ensures b.SystemArea() == b.rsvdSecCnt + fats + b.rootEntCnt / 16
    ensures b.SystemArea() < U32 ==> b.SystemSectors() == b.SystemArea() && b.FatSectors() == fats
    ensures b.SystemSectors() <= b.SystemArea()
  {
    AreaWraps(b);
    assert b.FatSize() * b.numFats == fats;
    hide BootRecord.FatSize;
  }

  /** What the computation yields once the number of clusters is known. */
  lemma LayoutIs(b: BootRecord, bsect: dword, nclst: nat)
    requires b.SystemSectors() <= b.TotalSectors() && b.secPerClus != 0
    requires nclst == PerCluster(b.TotalSectors() - b.SystemSectors(), b.secPerClus as nat)
    ensures var kind, n, fatbase := SubType(nclst), (nclst + 2) % U32, (bsect + b.rsvdSecCnt) % U32;
            Layout(b, bsect) ==
            if && (b.numFats == 1 || b.numFats == 2) && b.secPerClus & (b.secPerClus - 1) == 0
               && b.rootEntCnt % 16 == 0 && b.rsvdSecCnt != 0 && nclst != 0
               && ((kind == FAT32) == (b.rootEntCnt == 0)) && FatLargeEnough(kind, n, b.FatSize())
            then Some(Geometry(kind, b.numFats, b.FatSize(), b.secPerClus as nat, n, fatbase,
                               if kind == FAT32 then b.rootClus else (fatbase + b.FatSectors()) % U32, b.rootEntCnt,
                               (bsect + b.SystemSectors()) % U32,
                               if kind == FAT32 then (bsect + b.fsInfo) % U32 else 0, bsect + b.TotalSectors()))
            else None
  {
    hide SubType, FatLargeEnough, BootRecord.FatSize, BootRecord.FatSectors, BootRecord.SystemSectors, BootRecord.TotalSectors;
  }

  /** A record is mounted, as the volume it describes, exactly when it describes one; the sums of a record
      that does not may wrap.  So one and two FATs and all three sub-types are accepted, and none of the code's tests refuses a
      volume of the format. */
  lemma MountsExactly(b: BootRecord, bsect: dword, g: Geometry)
    requires bsect + (if b.totSec16 != 0 then b.totSec16 else b.totSec32) <= 0x1_0000_0000
    ensures Describes(b, bsect, g) <==>
            && Layout(b, bsect) == Some(g) && 3 <= g.nFatent <= 0x0FFF_FFF7 && g.fatbase == bsect + b.rsvdSecCnt
            && g.database == g.fatbase + (if b.numFats == 2 then g.fsize + g.fsize else g.fsize) + b.rootEntCnt / 16
  {
    if Describes(b, bsect, g) {
      DescribedMounts(b, bsect, g);
    }
    if && Layout(b, bsect) == Some(g) && 3 <= g.nFatent <= 0x0FFF_FFF7 && g.fatbase == bsect + b.rsvdSecCnt
       && g.database == g.fatbase + (if b.numFats == 2 then g.fsize + g.fsize else g.fsize) + b.rootEntCnt / 16
    {
      MountedDescribes(b, bsect, g);
    }
  }

  lemma DescribedMounts(b: BootRecord, bsect: dword, g: Geometry)
    requires Describes(b, bsect, g) && bsect + b.TotalSectors() <= U32
    ensures Layout(b, bsect) == Some(g) && 3 <= g.nFatent <= 0x0FFF_FFF7 && g.fatbase == bsect + b.rsvdSecCnt
    ensures g.database == g.fatbase + (if b.numFats == 2 then g.fsize + g.fsize else g.fsize) + b.rootEntCnt / 16
  {
    hide *;
    var fats := if b.numFats == 2 then g.fsize + g.fsize else g.fsize;
    DescribesIs(b, bsect, g);
    AreasExact(b, fats);
    CsizeIs(b.secPerClus);
    FillsIs(b.TotalSectors() - b.SystemSectors(), g.csize, g.database, g.nFatent);
    SubTypeIs(g.kind, g.nFatent - 2);
    SubTypeBounds(g.nFatent - 2);
    CheckIsExact(g.kind, g.nFatent, g.fsize);
    SmallMod(g.nFatent);
    SmallMod(g.fatbase);
    SmallMod(g.fatbase + fats);
    SmallMod(g.database);
    LayoutIs(b, bsect, g.nFatent - 2);
  }

  lemma SmallMod(x: nat)
    ensures x < U32 ==> x % U32 == x
  {
  }

  lemma PerClusterBound(area: nat, csize: nat)
    ensures PerCluster(area, csize) <= area
  {
    if csize > 0 {
      ClustersInArea(area, csize);
    }
  }

  /** The description in terms of the code's own sizes. */
  lemma DescribesIs(b: BootRecord, bsect: dword, g: Geometry)
    ensures var fats := if b.numFats == 2 then b.FatSize() + b.FatSize() else b.FatSize();
            Describes(b, bsect, g) <==>
            && (b.numFats == 1 || b.numFats == 2) && g.nFats == b.numFats && g.fsize == b.FatSize()
            && b.secPerClus in {1, 2, 4, 8, 16, 32, 64, 128} && g.csize == b.secPerClus as nat
            && 0 < b.rsvdSecCnt && b.rootEntCnt % 16 == 0 && g.nRootdir == b.rootEntCnt
            && g.fatbase == bsect + b.rsvdSecCnt && g.database == g.fatbase + fats + b.rootEntCnt / 16
            && g.database < bsect + U32 && g.sectors == bsect + b.TotalSectors()
            && Fills(g.sectors, g.database, g.csize, g.nFatent)
            && SubTypeOf(g.kind, g.nFatent) && EntriesFit(g.kind, g.nFatent, b.FatSize() * SS)
            && (g.kind == FAT32 <==> b.rootEntCnt == 0)
            && g.dirbase == (if g.kind == FAT32 then b.rootClus else g.fatbase + fats)
            && g.fsiSector == if g.kind == FAT32 then (bsect + b.fsInfo) % U32 else 0
    ensures Fills(g.sectors, g.database, g.csize, g.nFatent) ==> 3 <= g.nFatent && (0 < g.csize ==> g.database < g.sectors)
    ensures U32 == 0x1_0000_0000 && MIN_FAT16 == 4086 && MIN_FAT32 == 65526
  {
    SizesAre(b);
    hide EntriesFit;
  }

  lemma SizesAre(b: BootRecord)
    ensures b.FatSize() == if b.fatSz16 != 0 then b.fatSz16 else b.fatSz32
    ensures b.TotalSectors() == if b.totSec16 != 0 then b.totSec16 else b.totSec32
  {
  }

  lemma MountedDescribes(b: BootRecord, bsect: dword, g: Geometry)
    requires Layout(b, bsect) == Some(g) && 3 <= g.nFatent <= 0x0FFF_FFF7 && g.fatbase == bsect + b.rsvdSecCnt
    requires bsect + b.TotalSectors() <= U32
    requires g.database == g.fatbase + (if b.numFats == 2 then g.fsize + g.fsize else g.fsize) + b.rootEntCnt / 16
    ensures Describes(b, bsect, g)
  {
    hide *;
    MountedSome(b, bsect);
    var nclst := PerCluster(b.TotalSectors() - b.SystemSectors(), b.secPerClus as nat);
    DescribesIs(b, bsect, g);
    LayoutIs(b, bsect, nclst);
    PerClusterBound(b.TotalSectors() - b.SystemSectors(), b.secPerClus as nat);
    NoWrapAround(nclst);
    SmallMod(bsect + b.SystemSectors());
    SmallMod(g.fatbase + if b.numFats == 2 then g.fsize + g.fsize else g.fsize);
    AreasExact(b, if b.numFats == 2 then g.fsize + g.fsize else g.fsize);
    CsizeIs(b.secPerClus);
    FillsIs(b.TotalSectors() - b.SystemSectors(), g.csize, g.database, g.nFatent);
    SubTypeIs(g.kind, nclst);
    SubTypeBounds(nclst);
    CheckIsExact(g.kind, g.nFatent, g.fsize);
  }

  lemma MountedSome(b: BootRecord, bsect: dword)
    requires Layout(b, bsect).Some?
    ensures b.SystemSectors() <= b.TotalSectors() && b.secPerClus != 0
  {
    hide FatLargeEnough, SubType, BootRecord.SystemSectors, BootRecord.TotalSectors;
  }

  /** A volume of the format from sector `bsect` on, without reference to a boot record. */
  ghost predicate IsVolume(g: Geometry, bsect: dword) {
    var fats := if g.nFats == 2 then g.fsize + g.fsize else g.fsize;
    && (g.nFats == 1 || g.nFats == 2) && g.csize in {1, 2, 4, 8, 16, 32, 64, 128}
    && bsect < g.fatbase < bsect + 0x1_0000 && g.fsize < 0x1_0000_0000
    && g.nRootdir < 0x1_0000 && g.nRootdir % 16 == 0 && (g.kind == FAT32 <==> g.nRootdir == 0)
    && g.database == g.fatbase + fats + g.nRootdir / 16
    && g.sectors < bsect + 0x1_0000_0000 && g.sectors <= 0x1_0000_0000
    && Fills(g.sectors, g.database, g.csize, g.nFatent)
    && SubTypeOf(g.kind, g.nFatent) && EntriesFit(g.kind, g.nFatent, g.fsize * 512)
    && (if g.kind == FAT32 then g.dirbase < 0x1_0000_0000 else g.dirbase == g.fatbase + fats)
    && if g.kind == FAT32 then bsect <= g.fsiSector < bsect + 0x1_0000 && g.fsiSector < 0x1_0000_0000 else g.fsiSector == 0
  }

  function RecordOf(g: Geometry, bsect: dword): BootRecord
    requires g.fsize < U32 && 0 <= g.sectors - bsect < U32 && 0 <= g.fatbase - bsect < 0x1_0000
    requires g.nFats < 256 && 0 < g.csize <= 128 && g.nRootdir < 0x1_0000
    requires g.kind == FAT32 ==> g.dirbase < U32 && 0 <= g.fsiSector - bsect < 0x1_0000
  {
    BootRecord(0, g.fsize, g.nFats, g.csize as bv8, g.nRootdir, 0, g.sectors - bsect, g.fatbase - bsect,
               if g.kind == FAT32 then g.dirbase else 0, if g.kind == FAT32 then g.fsiSector - bsect else 0)
  }

  /** Every volume of the format, of one or two FATs and each sub-type, has a boot record with which it is
      mounted as itself. */
  lemma EveryVolumeMounts(g: Geometry, bsect: dword)
    requires IsVolume(g, bsect)
    ensures exists b :: Layout(b, bsect) == Some(g)
  {
    VolumeSizes(g, bsect);
    var b := RecordOf(g, bsect);
    RecordDescribes(g, bsect, b);
    DescribedMounts(b, bsect, g);
  }

  lemma VolumeSizes(g: Geometry, bsect: dword)
    requires IsVolume(g, bsect)
    ensures g.fsize < U32 && 0 <= g.sectors - bsect < U32 && 0 <= g.fatbase - bsect < 0x1_0000
    ensures g.nFats < 256 && 0 < g.csize <= 128 && g.nRootdir < 0x1_0000 && g.sectors <= U32
    ensures g.kind == FAT32 ==> g.dirbase < U32 && 0 <= g.fsiSector - bsect < 0x1_0000
  {
    hide EntriesFit;
  }

  lemma CsizeKept(c: nat)
    requires c in {1, 2, 4, 8, 16, 32, 64, 128}
    ensures (c as bv8) as nat == c && c as bv8 in {1, 2, 4, 8, 16, 32, 64, 128}
  {
  }

  lemma RecordDescribes(g: Geometry, bsect: dword, b: BootRecord)
    requires IsVolume(g, bsect) && 0 < g.csize <= 128
    requires b.fatSz16 == 0 && b.fatSz32 == g.fsize && b.numFats == g.nFats && b.secPerClus == g.csize as bv8
    requires b.rootEntCnt == g.nRootdir && b.totSec16 == 0 && b.totSec32 == g.sectors - bsect && b.rsvdSecCnt == g.fatbase - bsect
    requires g.kind == FAT32 ==> b.rootClus == g.dirbase && b.fsInfo == g.fsiSector - bsect
    ensures Describes(b, bsect, g) && bsect + b.TotalSectors() <= U32
  {
    CsizeKept(g.csize);
    SizesAre(b);
    hide EntriesFit, Fills;
    FillsBound(g.sectors, g.database, g.csize, g.nFatent);
  }

  lemma FillsBound(sectors: nat, database: nat, csize: nat, n: nat)
    requires Fills(sectors, database, csize, n)
    ensures database <= sectors
  {
  }
}
