/** The on-disk layout of a FAT volume: geometry, the packed FAT entries of the three
    sub-types, and the logical disk seen through a one-sector write-back window. */
module FatLayout {
  const SS: nat := 512
  const U32: nat := 0x1_0000_0000

  type byte = b: int | 0 <= b < 256
  type dword = w: nat | w < U32
  type Sector = s: seq<byte> | |s| == 512 witness seq(512, i => 0)

  datatype FatType = FAT12 | FAT16 | FAT32

  /** Number of bits an entry holds, as the modulus of its values. */
  function EntryLimit(kind: FatType): nat {
    match kind case FAT12 => 0x1000 case FAT16 => 0x1_0000 case FAT32 => 0x1000_0000
  }

  /** First byte of entry `c`, and the bytes it touches. */
  function EntryOffset(kind: FatType, c: nat): nat {
    match kind case FAT12 => c + c / 2 case FAT16 => 2 * c case FAT32 => 4 * c
  }

  function EntryWidth(kind: FatType): nat {
    if kind == FAT32 then 4 else 2
  }

  /** The first `n` entries lie within `len` bytes. */
  ghost predicate EntriesFit(kind: FatType, n: nat, len: nat) {
    forall c: nat | c < n :: EntryOffset(kind, c) + EntryWidth(kind) <= len
  }

  datatype Geometry = Geometry(kind: FatType, nFats: nat, fsize: nat, csize: nat, nFatent: nat,
                               fatbase: nat, dirbase: nat, nRootdir: nat, database: nat,
                               fsiSector: nat, sectors: nat)
  {
    /** What mounting a volume that meets the FAT specification establishes. */
    ghost predicate Valid() {
      && 1 <= nFats <= 2 && 1 <= csize <= 128 && 3 <= nFatent
      && 1 <= fatbase && fsiSector < fatbase
      && fatbase + FatArea() <= database
      && database <= sectors <= U32
      && nFatent <= EntryLimit(kind) - 9
      && EntriesFit(kind, nFatent, fsize * SS)
    }

    /** The data area holds every cluster. */
    ghost predicate DataFits() {
      2 <= nFatent && database + (nFatent - 2) * csize <= sectors
    }

    predicate InFat(s: int) {
      fatbase <= s < fatbase + fsize
    }

    predicate InAnyFat(s: int) {
      fatbase <= s < fatbase + FatArea()
    }

    /** Sectors of all FAT copies. */
    function FatArea(): nat {
      if nFats == 2 then fsize + fsize else fsize
    }

    /** The FAT area alone fits a disk of `n` sectors. */
    predicate FatFits(n: nat) {
      1 <= nFats <= 2 && 1 <= fatbase && fatbase + FatArea() <= n
    }
  }

  /** The root directory lies between the FATs and the data, or is a chain of its own. */
  ghost predicate RootFits(g: Geometry) {
    if g.kind == FAT32 then 2 <= g.dirbase
    else
      && 0 < g.nRootdir && g.nRootdir % 16 == 0
      && g.fatbase + g.FatArea() <= g.dirbase && g.dirbase + g.nRootdir / 16 <= g.database
  }

  function At(f: seq<byte>, i: nat): (v: int)
    requires i < |f|
    ensures 0 <= v < 256
  {
    f[i]
  }

  /** The value of an entry from the bytes it occupies. */
  function EntryValue(kind: FatType, odd: bool, r: seq<byte>): nat
    requires |r| == EntryWidth(kind)
  {
    match kind
    case FAT12 => if odd then At(r, 0) / 16 + At(r, 1) * 16 else At(r, 0) + At(r, 1) % 16 * 256
    case FAT16 => At(r, 0) + At(r, 1) * 256
    case FAT32 => (At(r, 0) + At(r, 1) * 256 + At(r, 2) * 0x1_0000 + At(r, 3) * 0x100_0000) % 0x1000_0000
  }

  /** Entry `c` of a FAT given as its bytes. */
  function Entry(kind: FatType, f: seq<byte>, c: nat): nat
    requires EntryOffset(kind, c) + EntryWidth(kind) <= |f|
  {
    EntryValue(kind, c % 2 == 1, f[EntryOffset(kind, c)..EntryOffset(kind, c) + EntryWidth(kind)])
  }

  function NibbleOr(a: int, b: int): (r: int)
    requires 0 <= a < 16 && 0 <= b < 16
    ensures 0 <= r < 16
  {
    ((a as bv4) | (b as bv4)) as int
  }

  /** The bytes the entry occupies after value `v` is stored over `old`. */
  function EntryBytes(kind: FatType, odd: bool, was: seq<byte>, v: nat): (r: seq<byte>)
    requires |was| == EntryWidth(kind)
    ensures |r| == |was|
  {
    match kind
    case FAT12 =>
      if odd then [At(was, 0) % 16 + v % 16 * 16, v / 16 % 256]
      else [v % 256, At(was, 1) / 16 * 16 + v / 256 % 16]
    case FAT16 => [v % 256, v / 256 % 256]
    case FAT32 =>
      [v % 256, v / 256 % 256, v / 0x1_0000 % 256,
       v / 0x100_0000 % 16 + NibbleOr(At(was, 3) / 16, v / 0x1000_0000 % 16) * 16]
  }

  /** `f` with the bytes at `at` replaced by `r`. */
  function Patch(f: seq<byte>, at: nat, r: seq<byte>): (p: seq<byte>)
    requires at + |r| <= |f|
    ensures |p| == |f|
    ensures forall i | 0 <= i < |f| :: p[i] == if at <= i < at + |r| then r[i - at] else f[i]
  {
    f[..at] + r + f[at + |r|..]
  }

  function SetEntry(kind: FatType, f: seq<byte>, c: nat, v: nat): (r: seq<byte>)
    requires EntryOffset(kind, c) + EntryWidth(kind) <= |f|
    ensures |r| == |f|
  {
    var b, w := EntryOffset(kind, c), EntryWidth(kind);
    Patch(f, b, EntryBytes(kind, c % 2 == 1, f[b..b + w], v))
  }

  lemma MulBound(m: int, d: int)
    requires 0 < m
    ensures 1 <= d ==> m <= m * d
    ensures d <= -1 ==> m * d <= -m
  {
    if 1 <= d { assert m * d == m + m * (d - 1); }
    if d <= -1 { assert m * d == -m + m * (d + 1); }
  }

  lemma ModUnique(v: int, m: int, q: int, r: int)
    requires 0 <= r < m && v == m * q + r
    ensures v % m == r && v / m == q
  {
    var d := v / m - q;
    assert m * d == r - v % m by {
      assert v == m * (v / m) + v % m;
      assert m * (v / m - q) == m * (v / m) - m * q;
    }
    MulBound(m, d);
  }

  /** The low bits of `v` in two pieces. */
  lemma LowBits(v: nat, a: nat, b: nat)
    requires 0 < a && 0 < b
    ensures 0 < a * b && v % (a * b) == v % a + v / a % b * a
  {
    Division(v, a);
    Division(v / a, b);
    Nested(v, a, b, v / a / b, v / a % b, v % a);
  }

  lemma Division(n: nat, a: nat)
    requires 0 < a
    ensures n == a * (n / a) + n % a && n % a < a
  {
  }

  lemma MulAssoc(a: nat, b: nat, c: nat)
    ensures a * (b * c) == a * b * c
  {
  }

  lemma MulMonotone(a: nat, b: nat, c: nat)
    requires b <= c
    ensures a * b <= a * c && b * a <= c * a
  {
  }

  /** Two divisions in a row. */
  lemma Nested(n: nat, a: nat, b: nat, p: nat, s: nat, r: nat)
    requires n == a * (b * p + s) + r && s < b && r < a
    ensures 0 < a * b && n / (a * b) == p && n % (a * b) == r + s * a
  {
    MulAssoc(a, b, p);
    assert a * (b * p + s) == a * (b * p) + a * s;
    MulMonotone(a, s + 1, b);
    assert a * (s + 1) == a * s + a;
    ModUnique(n, a * b, p, a * s + r);
  }

  lemma EntryValueOfBytes(kind: FatType, odd: bool, was: seq<byte>, v: nat)
    requires |was| == EntryWidth(kind)
    ensures EntryValue(kind, odd, EntryBytes(kind, odd, was, v)) == v % EntryLimit(kind)
  {
    match kind
    case FAT12 =>
      LowBits(v, 16, 256);
      LowBits(v, 256, 16);
      NibblePair(At(was, 0), v);
      HighNibble(At(was, 1), v / 256);
    case FAT16 =>
      LowBits(v, 256, 256);
    case FAT32 =>
      ThreeBytesAndNibble(v);
      var n := NibbleOr(At(was, 3) / 16, v / 0x1000_0000 % 16);
      TopNibble(v % 256 + v / 256 % 256 * 256 + v / 0x1_0000 % 256 * 0x1_0000 + v / 0x100_0000 % 16 * 0x100_0000, n);
  }

  lemma ThreeBytesAndNibble(v: nat)
    ensures v % 0x1000_0000 ==
            v % 256 + v / 256 % 256 * 256 + v / 0x1_0000 % 256 * 0x1_0000 + v / 0x100_0000 % 16 * 0x100_0000
  {
    LowBits(v, 256, 0x10_0000);
    LowBits(v / 256, 256, 0x1000);
    LowBits(v / 0x1_0000, 256, 16);
    Quotients(v);
  }

  /** Storing a value and reading it back gives the value cut to the entry's width. */
  lemma SetThenGet(kind: FatType, f: seq<byte>, c: nat, v: nat)
    requires EntryOffset(kind, c) + EntryWidth(kind) <= |f|
    ensures Entry(kind, SetEntry(kind, f, c, v), c) == v % EntryLimit(kind)
  {
    var b, w := EntryOffset(kind, c), EntryWidth(kind);
    EntryValueOfBytes(kind, c % 2 == 1, f[b..b + w], v);
    assert SetEntry(kind, f, c, v)[b..b + w] == EntryBytes(kind, c % 2 == 1, f[b..b + w], v);
  }

  lemma Quotients(v: nat)
    ensures v / 256 / 256 == v / 0x1_0000 && v / 0x1_0000 / 256 == v / 0x100_0000
  {
  }

  lemma NibblePair(a: int, v: nat)
    ensures (a % 16 + v % 16 * 16) / 16 == v % 16
    ensures v < 16 ==> (v * 16 + a % 16) / 16 == v
  {
  }

  lemma HighNibble(a: int, v: nat)
    requires 0 <= a < 256
    ensures (a / 16 * 16 + v % 16) % 16 == v % 16
  {
  }

  lemma TopNibble(low: int, n: int)
    requires 0 <= low < 0x1000_0000
    ensures (low + n * 0x1000_0000) % 0x1000_0000 == low
  {
    ModUnique(low + n * 0x1000_0000, 0x1000_0000, n, low);
  }

  lemma DisjointPatch(f: seq<byte>, at: nat, r: seq<byte>, lo: nat, hi: nat)
    requires at + |r| <= |f| && lo <= hi <= |f| && (hi <= at || at + |r| <= lo)
    ensures Patch(f, at, r)[lo..hi] == f[lo..hi]
  {
  }

  lemma OffsetsApart(kind: FatType, c: nat, o: nat)
    requires c < o && (kind == FAT12 && c % 2 == 0 ==> o != c + 1)
    ensures EntryOffset(kind, c) + EntryWidth(kind) <= EntryOffset(kind, o)
  {
  }

  /** Storing one entry changes no other, even where two FAT12 entries share a byte. */
  lemma SetKeepsOthers(kind: FatType, f: seq<byte>, c: nat, v: nat, o: nat)
    requires EntryOffset(kind, c) + EntryWidth(kind) <= |f| && EntryOffset(kind, o) + EntryWidth(kind) <= |f|
    requires c != o
    ensures Entry(kind, SetEntry(kind, f, c, v), o) == Entry(kind, f, o)
  {
    hide SetEntry, Entry;
    if kind == FAT12 && ((c % 2 == 0 && o == c + 1) || (c % 2 == 1 && c == o + 1)) {
      SharedByte(f, c, v, o);
    } else {
      if c < o { OffsetsApart(kind, c, o); } else { OffsetsApart(kind, o, c); }
      ApartEntries(kind, f, c, v, o);
    }
  }

  lemma ApartEntries(kind: FatType, f: seq<byte>, c: nat, v: nat, o: nat)
    requires EntryOffset(kind, c) + EntryWidth(kind) <= |f| && EntryOffset(kind, o) + EntryWidth(kind) <= |f|
    requires EntryOffset(kind, c) + EntryWidth(kind) <= EntryOffset(kind, o)
             || EntryOffset(kind, o) + EntryWidth(kind) <= EntryOffset(kind, c)
    ensures Entry(kind, SetEntry(kind, f, c, v), o) == Entry(kind, f, o)
  {
    hide EntryOffset, EntryBytes, EntryValue;
    var b, w := EntryOffset(kind, c), EntryWidth(kind);
    DisjointPatch(f, b, EntryBytes(kind, c % 2 == 1, f[b..b + w], v), EntryOffset(kind, o), EntryOffset(kind, o) + w);
  }

  /** The middle byte of a pair of FAT12 entries carries one nibble of each. */
  lemma SharedByte(f: seq<byte>, c: nat, v: nat, o: nat)
    requires c + c / 2 + 2 <= |f| && o + o / 2 + 2 <= |f|
    requires (c % 2 == 0 && o == c + 1) || (c % 2 == 1 && c == o + 1)
    ensures Entry(FAT12, SetEntry(FAT12, f, c, v), o) == Entry(FAT12, f, o)
  {
    var b, p := c + c / 2, o + o / 2;
    var r := EntryBytes(FAT12, c % 2 == 1, f[b..b + 2], v);
    var h := SetEntry(FAT12, f, c, v);
    if c % 2 == 0 {
      assert p == b + 1 && h[p] == r[1] && h[p + 1] == f[p + 1];
      NibblePair(v / 256, At(f, p) / 16);
    } else {
      assert b == p + 1 && h[p] == f[p] && h[p + 1] == r[0];
      LowNibble(At(f, b), v);
    }
  }

  lemma LowNibble(a: int, v: nat)
    ensures (a % 16 + v % 16 * 16) % 16 == a % 16
  {
  }
}
