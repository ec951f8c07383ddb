/** What the bytes on a volume mean, without reference to how the code packs them: a FAT is one
    little-endian number whose digits are its entries (ff.c, get_fat and put_fat; ff.h, LD_WORD, LD_DWORD). */
module FatFormat {
  import opened FatLayout
  import opened FatWindow

  function Pow(b: nat, n: nat): nat {
    if n == 0 then 1 else b * Pow(b, n - 1)
  }

  /** The number whose bytes, least significant first, are `f`. */
  function Number(f: seq<byte>): nat {
    if f == [] then 0 else f[0] + 256 * Number(f[1..])
  }

  /** Bits from one entry to the next. */
  function Width(kind: FatType): nat {
    match kind case FAT12 => 12 case FAT16 => 16 case FAT32 => 32
  }

  lemma {:induction false} PowPositive(b: nat, n: nat)
    requires 0 < b
    ensures 0 < Pow(b, n)
  {
    if n > 0 {
      PowPositive(b, n - 1);
      MulBound(b, Pow(b, n - 1));
    }
  }

  lemma {:induction false} PowAdd(b: nat, m: nat, n: nat)
    ensures Pow(b, m + n) == Pow(b, m) * Pow(b, n)
    decreases m
  {
    if m > 0 {
      PowAdd(b, m - 1, n);
      MulAssoc(b, Pow(b, m - 1), Pow(b, n));
    }
  }

  lemma PowSmall()
    ensures Pow(2, 4) == 16 && Pow(2, 8) == 256 && Pow(2, 12) == 0x1000 && Pow(2, 16) == 0x1_0000
    ensures Pow(2, 28) == 0x1000_0000 && Pow(2, 32) == 0x1_0000_0000
  {
    assert Pow(2, 4) == 16;
    PowAdd(2, 4, 4);
    PowAdd(2, 8, 4);
    PowAdd(2, 8, 8);
    PowAdd(2, 16, 12);
    PowAdd(2, 16, 16);
  }

  /** Eight bits are a byte. */
  lemma {:induction false} PowBytes(n: nat)
    ensures Pow(2, 8 * n) == Pow(256, n)
  {
    if n > 0 {
      PowBytes(n - 1);
      PowSmall();
      PowAdd(2, 8, 8 * (n - 1));
    }
  }

  /** Cutting off the low bytes. */
  lemma {:induction false} NumberDrop(f: seq<byte>, b: nat)
    requires b <= |f|
    ensures 0 < Pow(256, b) && Number(f) / Pow(256, b) == Number(f[b..])
  {
    PowPositive(256, b);
    if b == 0 {
      assert f[0..] == f;
    } else {
      NumberDrop(f[1..], b - 1);
      assert f[1..][b - 1..] == f[b..];
      ModUnique(Number(f), 256, Number(f[1..]), f[0]);
      DivTwice(Number(f), 256, Pow(256, b - 1));
    }
  }

  lemma DivTwice(n: nat, a: nat, b: nat)
    requires 0 < a && 0 < b
    ensures 0 < a * b && n / (a * b) == n / a / b
  {
    var q := n / a;
    Division(n, a);
    Division(q, b);
    Nested(n, a, b, q / b, q % b, n % a);
  }

  lemma NumberLow(f: seq<byte>)
    requires 2 <= |f|
    ensures Number(f) % 0x1_0000 == At(f, 0) + 256 * At(f, 1)
    ensures Number(f) % 0x1000 == At(f, 0) + 256 * (At(f, 1) % 16)
    ensures Number(f) / 16 % 0x1000 == At(f, 0) / 16 + 16 * At(f, 1)
  {
    hide Number;
    var r := NumberTwo(f);
    LowTwo(At(f, 0), At(f, 1), r);
  }

  lemma NumberLowFour(f: seq<byte>)
    requires 4 <= |f|
    ensures Number(f) % 0x1_0000_0000 == At(f, 0) + 256 * At(f, 1) + 0x1_0000 * At(f, 2) + 0x100_0000 * At(f, 3)
  {
    hide Number;
    var r := NumberTwo(f);
    var q := NumberTwo(f[2..]);
    LowFour(At(f, 0), At(f, 1), At(f, 2), At(f, 3), q);
  }

  /** The number behind the first two bytes. */
  function NumberTwo(f: seq<byte>): (r: nat)
    requires 2 <= |f|
    ensures r == Number(f[2..]) && Number(f) == At(f, 0) + 256 * (At(f, 1) + 256 * r)
  {
    assert f[1..][1..] == f[2..];
    Number(f[2..])
  }

  lemma LowTwo(a: int, b: int, r: nat)
    requires 0 <= a < 256 && 0 <= b < 256
    ensures var n := a + 256 * (b + 256 * r);
            n % 0x1_0000 == a + 256 * b && n % 0x1000 == a + 256 * (b % 16) && n / 16 % 0x1000 == a / 16 + 16 * b
  {
    var n := a + 256 * (b + 256 * r);
    ModUnique(n, 0x1_0000, r, a + 256 * b);
    ModUnique(n, 0x1000, 16 * r + b / 16, a + 256 * (b % 16));
    ModUnique(n, 16, a / 16 + 16 * (b + 256 * r), a % 16);
    ModUnique(a / 16 + 16 * (b + 256 * r), 0x1000, r, a / 16 + 16 * b);
  }

  lemma LowFour(a: int, b: int, c: int, d: int, q: nat)
    requires 0 <= a < 256 && 0 <= b < 256 && 0 <= c < 256 && 0 <= d < 256
    ensures (a + 256 * (b + 256 * (c + 256 * (d + 256 * q)))) % 0x1_0000_0000 == a + 256 * b + 0x1_0000 * c + 0x100_0000 * d
  {
    ModUnique(a + 256 * (b + 256 * (c + 256 * (d + 256 * q))), 0x1_0000_0000, q, a + 256 * b + 0x1_0000 * c + 0x100_0000 * d);
  }

  /** An entry from the bytes at its place. */
  lemma EntryAt(kind: FatType, f: seq<byte>, c: nat)
    requires EntryOffset(kind, c) + EntryWidth(kind) <= |f|
    ensures var g := f[EntryOffset(kind, c)..];
            && EntryWidth(kind) <= |g|
            && Entry(kind, f, c) == EntryValue(kind, c % 2 == 1, g[..EntryWidth(kind)])
  {
    var b, w := EntryOffset(kind, c), EntryWidth(kind);
    assert f[b..b + w] == f[b..][..w];
  }

  lemma EntryOfNumber(kind: FatType, odd: bool, g: seq<byte>)
    requires EntryWidth(kind) <= |g|
    ensures EntryValue(kind, odd, g[..EntryWidth(kind)]) ==
            match kind
            case FAT12 => Number(g) / (if odd then 16 else 1) % 0x1000
            case FAT16 => Number(g) % 0x1_0000
            case FAT32 => Number(g) % 0x1_0000_0000 % 0x1000_0000
  {
    NumberLow(g);
    if kind == FAT32 {
      NumberLowFour(g);
    }
    var r := g[..EntryWidth(kind)];
    assert forall i | 0 <= i < EntryWidth(kind) :: r[i] == g[i];
  }

  /** The first bit of entry `c`. */
  lemma BitsBefore(kind: FatType, c: nat)
    ensures Width(kind) * c == 8 * EntryOffset(kind, c) + if kind == FAT12 && c % 2 == 1 then 4 else 0
  {
  }

  /** On a little-endian FAT, entry `c` is the digit number `c` to the base of its width; the top four
      bits of a FAT32 digit are no part of it. */
  lemma EntryIsDigit(kind: FatType, f: seq<byte>, c: nat)
    requires EntryOffset(kind, c) + EntryWidth(kind) <= |f|
    ensures 0 < Pow(2, Width(kind) * c) && 0 < Pow(2, Width(kind))
    ensures var digit := Number(f) / Pow(2, Width(kind) * c) % Pow(2, Width(kind));
            Entry(kind, f, c) == if kind == FAT32 then digit % 0x1000_0000 else digit
  {
    hide *;
    var b := EntryOffset(kind, c);
    EntryAt(kind, f, c);
    EntryOfNumber(kind, c % 2 == 1, f[b..]);
    BitsBefore(kind, c);
    PowSmall();
    PowBytes(b);
    NumberDrop(f, b);
    if kind == FAT12 && c % 2 == 1 {
      PowAdd(2, 8 * b, 4);
      DivTwice(Number(f), Pow(2, 8 * b), 16);
    }
    WidthIs(kind);
  }

  lemma WidthIs(kind: FatType)
    ensures Width(kind) == match kind case FAT12 => 12 case FAT16 => 16 case FAT32 => 32
  {
  }

  lemma {:induction false} NumberJoin(a: seq<byte>, b: seq<byte>)
    ensures Number(a + b) == Number(a) + Pow(256, |a|) * Number(b)
  {
    if a == [] {
      assert a + b == b;
    } else {
      NumberJoin(a[1..], b);
      assert (a + b)[1..] == a[1..] + b;
      MulAssoc(256, Pow(256, |a| - 1), Number(b));
    }
  }

  /** Replacing a run of bytes moves the number by what the run's own number moves, shifted. */
  lemma NumberPatch(f: seq<byte>, b: nat, r: seq<byte>)
    requires b + |r| <= |f|
    ensures Number(Patch(f, b, r)) == Number(f) + (Number(r) - Number(f[b..b + |r|])) * Pow(256, b)
  {
    hide *;
    var mid, rest := f[b..b + |r|], f[b + |r|..];
    PatchParts(f, b, r);
    NumberJoin(f[..b], mid + rest);
    NumberJoin(f[..b], r + rest);
    NumberJoin(mid, rest);
    NumberJoin(r, rest);
    Moved(Number(f), Number(Patch(f, b, r)), Number(f[..b]), Pow(256, b), Number(mid + rest), Number(r + rest),
          Number(mid), Number(r), Pow(256, |r|) * Number(rest));
  }

  lemma PatchParts(f: seq<byte>, b: nat, r: seq<byte>)
    requires b + |r| <= |f|
    ensures var mid, rest := f[b..b + |r|], f[b + |r|..];
            f == f[..b] + (mid + rest) && Patch(f, b, r) == f[..b] + (r + rest) && |f[..b]| == b && |mid| == |r|
  {
    var mid, rest := f[b..b + |r|], f[b + |r|..];
    assert f == f[..b] + (mid + rest);
    assert Patch(f, b, r) == f[..b] + (r + rest);
  }

  lemma Moved(n: nat, n': nat, a: nat, p: nat, x: nat, y: nat, m: nat, k: nat, z: nat)
    requires n == a + p * x && n' == a + p * y && x == m + z && y == k + z
    ensures n' == n + (k - m) * p
  {
    assert p * y == p * x + p * (k - m) by { assert y == x + (k - m); }
  }

  /** What the stored bytes of an entry change: its own digit, and for FAT32 the top bits when the value
      has some. */
  lemma BytesOfEntry(kind: FatType, odd: bool, was: seq<byte>, v: nat)
    requires |was| == EntryWidth(kind)
    ensures var r := EntryBytes(kind, odd, was, v);
            |r| == |was| && Number(r) - Number(was) ==
            match kind
            case FAT12 => (v % 0x1000 - EntryValue(kind, odd, was)) * (if odd then 16 else 1)
            case FAT16 => v % 0x1_0000 - EntryValue(kind, odd, was)
            case FAT32 => v % 0x1000_0000 - EntryValue(kind, odd, was)
                          + (NibbleOr(At(was, 3) / 16, v / 0x1000_0000 % 16) - At(was, 3) / 16) * 0x1000_0000
  {
    var r := EntryBytes(kind, odd, was, v);
    match kind
    case FAT16 =>
      PairNumber(was);
      PairNumber(r);
      LowBits(v, 256, 256);
    case FAT12 =>
      PairNumber(was);
      PairNumber(r);
      StoredPair(odd, At(was, 0), At(was, 1), v);
    case FAT32 =>
      FourNumber(was);
      FourNumber(r);
      ThreeBytesAndNibble(v);
      LowFourBytes(At(was, 0), At(was, 1), At(was, 2), At(was, 3));
  }

  lemma PairNumber(r: seq<byte>)
    requires |r| == 2
    ensures Number(r) == At(r, 0) + 256 * At(r, 1)
  {
    assert Number(r[1..][1..]) == 0;
  }

  lemma FourNumber(r: seq<byte>)
    requires |r| == 4
    ensures Number(r) == At(r, 0) + 256 * At(r, 1) + 0x1_0000 * At(r, 2) + 0x100_0000 * At(r, 3)
  {
    var q := NumberTwo(r);
    PairNumber(r[2..]);
  }

  lemma StoredPair(odd: bool, a: int, b: int, v: nat)
    requires 0 <= a < 256 && 0 <= b < 256
    ensures odd ==> a % 16 + v % 16 * 16 + 256 * (v / 16 % 256) - (a + 256 * b) == (v % 0x1000 - (a / 16 + b * 16)) * 16
    ensures !odd ==> v % 256 + 256 * (b / 16 * 16 + v / 256 % 16) - (a + 256 * b) == v % 0x1000 - (a + b % 16 * 256)
  {
    LowBits(v, 16, 256);
    LowBits(v, 256, 16);
  }

  lemma LowFourBytes(a: int, b: int, c: int, d: int)
    requires 0 <= a < 256 && 0 <= b < 256 && 0 <= c < 256 && 0 <= d < 256
    ensures (a + b * 256 + c * 0x1_0000 + d * 0x100_0000) % 0x1000_0000
            == a + b * 256 + c * 0x1_0000 + d % 16 * 0x100_0000
  {
    ModUnique(a + b * 256 + c * 0x1_0000 + d * 0x100_0000, 0x1000_0000, d / 16, a + b * 256 + c * 0x1_0000 + d % 16 * 0x100_0000);
  }

  /** A value below 2^28 leaves the top bits of a FAT32 entry. */
  lemma TopBitsStay(t: int, v: nat)
    requires 0 <= t < 16 && v < 0x1000_0000
    ensures v / 0x1000_0000 % 16 == 0 && NibbleOr(t, 0) == t
  {
  }

  /** Storing value `v` in entry `c` replaces exactly that digit of the FAT's number; of a FAT32 digit, the
      top four bits stay. */
  lemma StoreSetsDigit(kind: FatType, f: seq<byte>, c: nat, v: nat)
    requires EntryOffset(kind, c) + EntryWidth(kind) <= |f| && (kind == FAT32 ==> v < 0x1000_0000)
    ensures |SetEntry(kind, f, c, v)| == |f|
    ensures var cut := match kind case FAT12 => v % 0x1000 case FAT16 => v % 0x1_0000 case FAT32 => v;
            Number(SetEntry(kind, f, c, v)) == Number(f) + (cut - Entry(kind, f, c)) * Pow(2, Width(kind) * c)
  {
    hide *;
    var b := EntryOffset(kind, c);
    var was := f[b..b + EntryWidth(kind)];
    SetAt(kind, f, c, v);
    BytesOfEntry(kind, c % 2 == 1, was, v);
    NumberPatch(f, b, EntryBytes(kind, c % 2 == 1, was, v));
    BitsBefore(kind, c);
    PowSmall();
    PowBytes(b);
    PowAdd(2, 8 * b, 4);
    if kind == FAT32 {
      TopBitsStay(At(was, 3) / 16, v);
    }
    Shift(v % 0x1000 - Entry(kind, f, c), Pow(2, 8 * b));
  }

  lemma Shift(x: int, p: nat)
    ensures x * 16 * p == x * (p * 16)
  {
  }

  lemma SetAt(kind: FatType, f: seq<byte>, c: nat, v: nat)
    requires EntryOffset(kind, c) + EntryWidth(kind) <= |f|
    ensures var b, w := EntryOffset(kind, c), EntryWidth(kind);
            && |f[b..b + w]| == w && Entry(kind, f, c) == EntryValue(kind, c % 2 == 1, f[b..b + w])
            && SetEntry(kind, f, c, v) == Patch(f, b, EntryBytes(kind, c % 2 == 1, f[b..b + w], v))
    ensures kind == FAT32 ==> EntryWidth(kind) == 4
  {
  }

  /** Entry `c` of a volume, from the sectors of its first FAT: they hold one little-endian number, and the
      entry is a digit of that. */
  lemma FatOnDisk(fs: Volume, c: nat)
    requires fs.Valid() && c < fs.g.nFatent
    ensures var g, d := fs.g, fs.Logical();
            forall i | 0 <= i < |fs.FatData()| :: g.fatbase + i / 512 < |d| && fs.FatData()[i] == d[g.fatbase + i / 512][i % 512]
    ensures 0 < Pow(2, Width(fs.g.kind) * c) && 0 < Pow(2, Width(fs.g.kind))
    ensures var digit := Number(fs.FatData()) / Pow(2, Width(fs.g.kind) * c) % Pow(2, Width(fs.g.kind));
            fs.Fat()[c] == if fs.g.kind == FAT32 then digit % 0x1000_0000 else digit
  {
    EntryPlace(fs.g, c);
    EntryIsDigit(fs.g.kind, fs.FatData(), c);
  }

  lemma Le32Number(v: dword)
    ensures Number(Le32(v)) == v
  {
    FourNumber(Le32(v));
    LowBits(v, 256, 0x100_0000);
    LowBits(v / 256, 256, 0x1_0000);
    LowBits(v / 0x1_0000, 256, 256);
    Quotients(v);
  }

  /** The FSInfo sector: its three signatures, the free count at byte 488 and the last cluster at byte 492,
      least significant byte first, and zeros everywhere else. */
  lemma FsInfoOnDisk(free: dword, last: dword)
    ensures var s := Volume.FsInfo(free, last);
            && s[0..4] == [0x52, 0x52, 0x61, 0x41] && s[484..488] == [0x72, 0x72, 0x41, 0x61]
            && s[510..512] == [0x55, 0xAA]
            && Number(s[488..492]) == free && Number(s[492..496]) == last
            && (forall i | 4 <= i < 484 || 496 <= i < 510 :: s[i] == 0)
  {
    hide *;
    FsInfoParts(free, last);
    FsInfoZeros(free, last);
    Le32Number(free);
    Le32Number(last);
    Signatures();
  }

  lemma FsInfoParts(free: dword, last: dword)
    ensures var s := Volume.FsInfo(free, last);
            && s[0..4] == Le32(0x4161_5252) && s[484..488] == Le32(0x6141_7272) && s[510..512] == [0x55, 0xAA]
            && s[488..492] == Le32(free) && s[492..496] == Le32(last)
  {
    hide Le32;
  }

  lemma FsInfoZeros(free: dword, last: dword)
    ensures forall i | 4 <= i < 484 || 496 <= i < 510 :: Volume.FsInfo(free, last)[i] == 0
  {
    hide Le32;
  }

  lemma Signatures()
    ensures Le32(0x4161_5252) == [0x52, 0x52, 0x61, 0x41] && Le32(0x6141_7272) == [0x72, 0x72, 0x41, 0x61]
  {
    BytesOf(0x52, 0x52, 0x61, 0x41);
    BytesOf(0x72, 0x72, 0x41, 0x61);
    hide Le32;
  }

  lemma BytesOf(a: byte, b: byte, c: byte, d: byte)
    ensures var v: nat := 0x100_0000 * (d as nat) + 0x1_0000 * (c as nat) + 0x100 * (b as nat) + a as nat; Le32(v) == [a, b, c, d]
  {
    var v: nat := 0x100_0000 * (d as nat) + 0x1_0000 * (c as nat) + 0x100 * (b as nat) + a as nat;
    ModUnique(v, 0x100, 0x1_0000 * (d as nat) + 0x100 * (c as nat) + b as nat, a as nat);
    ModUnique(0x1_0000 * (d as nat) + 0x100 * (c as nat) + b as nat, 0x100, 0x100 * (d as nat) + c as nat, b as nat);
    ModUnique(v, 0x1_0000, 0x100 * (d as nat) + c as nat, 0x100 * (b as nat) + a as nat);
    ModUnique(0x100 * (d as nat) + c as nat, 0x100, d as nat, c as nat);
    ModUnique(v, 0x100_0000, d as nat, 0x1_0000 * (c as nat) + 0x100 * (b as nat) + a as nat);
  }
}
