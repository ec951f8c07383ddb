/** A directory table as a finite map from 8.3 names to entries (ff.c, dir_find, dir_register,
    dir_remove without long names). */
module DirTable {
  import opened FatLayout
  import opened FileLayout

  datatype Found = At(index: nat) | Absent

  type Slot = s: seq<byte> | |s| == 32 witness seq(32, i => 0)
  type Name = n: seq<byte> | |n| == 11 witness seq(11, i => 0x20)

  const DELETED: byte := 0xE5

  /** The 32-byte entries of a table given as its bytes. */
  ghost function Entries(b: seq<byte>): (t: seq<Slot>)
    ensures |t| == |b| / 32
  {
    seq(|b| / 32, i requires 0 <= i < |b| / 32 => b[32 * i..32 * i + 32])
  }

  function Zeros(): Slot {
    seq(32, i => 0)
  }

  /** The entry dir_register writes: the name, and zeros. */
  function NewSlot(fn: Name): (s: Slot)
    ensures s[0] == fn[0] && s[..11] == fn && forall i | 11 <= i < 32 :: s[i] == 0
  {
    fn + seq(21, i => 0)
  }

  /** Bit 3 of the attribute byte marks a volume label. */
  predicate IsLabel(s: Slot) {
    s[11] / 8 % 2 == 1
  }

  predicate Matches(s: Slot, fn: Name) {
    !IsLabel(s) && s[..11] == fn
  }

  predicate Blank(s: Slot) {
    s[0] == DELETED || s[0] == 0
  }

  /** Names the name parser produces. */
  predicate Proper(fn: Name) {
    fn[0] != 0 && fn[0] != DELETED
  }

  /** The first entry from `i` on that matches, looking no further than the end of the table. */
  ghost function Find(t: seq<Slot>, fn: Name, i: nat): Found
    requires i <= |t|
    decreases |t| - i
  {
    if i == |t| || t[i][0] == 0 then Absent
    else if Matches(t[i], fn) then At(i)
    else Find(t, fn, i + 1)
  }

  ghost function Lookup(t: seq<Slot>, fn: Name): Found {
    Find(t, fn, 0)
  }

  ghost function FirstBlank(t: seq<Slot>, i: nat): (k: nat)
    requires i <= |t|
    ensures i <= k <= |t| && (forall j | i <= j < k :: !Blank(t[j])) && (k < |t| ==> Blank(t[k]))
    decreases |t| - i
  {
    if i == |t| || Blank(t[i]) then i else FirstBlank(t, i + 1)
  }

  /** `Find` looks past the entries `i` to `j`. */
  ghost predicate PassedBy(t: seq<Slot>, fn: Name, i: nat, j: nat) {
    j <= |t| && forall x | i <= x < j :: t[x][0] != 0 && !Matches(t[x], fn)
  }

  lemma {:induction false} FindPasses(t: seq<Slot>, fn: Name, i: nat, j: nat)
    requires i <= j && PassedBy(t, fn, i, j)
    ensures Find(t, fn, i) == Find(t, fn, j)
    decreases j - i
  {
    if i < j {
      FindPasses(t, fn, i + 1, j);
    }
  }

  /** What a lookup says. */
  lemma {:induction false} FindSays(t: seq<Slot>, fn: Name, i: nat)
    requires i <= |t|
    ensures Find(t, fn, i) == Absent ==>
              exists e | i <= e <= |t| :: PassedBy(t, fn, i, e) && (e == |t| || t[e][0] == 0)
    ensures Find(t, fn, i).At? ==>
              var k := Find(t, fn, i).index;
              i <= k < |t| && PassedBy(t, fn, i, k) && t[k][0] != 0 && Matches(t[k], fn)
    decreases |t| - i
  {
    if i < |t| && t[i][0] != 0 && !Matches(t[i], fn) {
      FindSays(t, fn, i + 1);
      if Find(t, fn, i) == Absent {
        var e :| i + 1 <= e <= |t| && PassedBy(t, fn, i + 1, e) && (e == |t| || t[e][0] == 0);
        assert PassedBy(t, fn, i, e);
      }
    } else {
      assert PassedBy(t, fn, i, i);
    }
  }

  /** Behind the first entry that starts with 0 everything is zero. */
  ghost predicate ZeroTail(t: seq<Slot>) {
    forall i, j | 0 <= i < j < |t| && t[i][0] == 0 :: t[j] == Zeros()
  }

  predicate Live(s: Slot) {
    !Blank(s) && !IsLabel(s)
  }

  /** No two live entries have the same name. */
  ghost predicate Unique(t: seq<Slot>) {
    forall i, j | 0 <= i < j < |t| && Live(t[i]) && Live(t[j]) :: t[i][..11] != t[j][..11]
  }

  ghost predicate DirOk(t: seq<Slot>) {
    ZeroTail(t) && Unique(t)
  }

  lemma MatchesFirst(s: Slot, fn: Name)
    ensures s[..11] == fn ==> s[0] == fn[0]
  {
  }

  /** In a proper table a lookup finds an entry exactly where a live entry of the name is. */
  lemma LookupLive(t: seq<Slot>, fn: Name, k: nat)
    requires DirOk(t) && Proper(fn)
    ensures Lookup(t, fn) == At(k) <==> k < |t| && Live(t[k]) && t[k][..11] == fn
  {
    FindSays(t, fn, 0);
    if k < |t| && Live(t[k]) && t[k][..11] == fn {
      forall x | 0 <= x < k ensures t[x][0] != 0 && !Matches(t[x], fn) {
        assert t[x][0] == 0 ==> t[k] == Zeros();
        MatchesFirst(t[x], fn);
      }
      FindPasses(t, fn, 0, k);
    }
    if Lookup(t, fn) == At(k) {
      assert t[k][0] == fn[0];
    }
  }

  /** What the table's bytes say: a lookup finds entry `k` exactly when its first byte marks it neither free
      nor deleted, its attribute byte does not have the volume label's bit, and its first eleven bytes are
      the name. */
  lemma LookupIs(t: seq<Slot>, fn: Name, k: nat)
    requires DirOk(t) && fn[0] != 0x00 && fn[0] != 0xE5
    ensures Lookup(t, fn) == At(k) <==>
            k < |t| && t[k][0] != 0x00 && t[k][0] != 0xE5 && (t[k][11] as bv8) & 0x08 == 0 && t[k][..11] == fn
  {
    LookupLive(t, fn, k);
    if k < |t| {
      LabelBit(t[k][11]);
    }
  }

  /** In any table a lookup finds the first entry of the name that is no volume label, unless an entry that
      starts with 0 comes before it. */
  lemma LookupFirst(t: seq<Slot>, fn: Name, k: nat)
    requires fn[0] != 0x00
    ensures Lookup(t, fn) == At(k) <==>
            && k < |t| && t[k][..11] == fn && (t[k][11] as bv8) & 0x08 == 0
            && forall x | 0 <= x < k :: t[x][0] != 0x00 && (t[x][..11] != fn || (t[x][11] as bv8) & 0x08 != 0)
  {
    forall x | 0 <= x < |t|
      ensures Matches(t[x], fn) <==> (t[x][..11] == fn && (t[x][11] as bv8) & 0x08 == 0)
      ensures t[x][..11] == fn ==> t[x][0] == fn[0]
    {
      LabelBit(t[x][11]);
      MatchesFirst(t[x], fn);
    }
    FindSays(t, fn, 0);
    if k < |t| && Matches(t[k], fn) && PassedBy(t, fn, 0, k) {
      FindPasses(t, fn, 0, k);
    }
  }

  /** A blank entry is one that was never used or was deleted. */
  lemma BlankByte(s: Slot)
    ensures Blank(s) <==> s[0] == 0x00 || s[0] == 0xE5
  {
  }

  lemma LabelBit(a: int)
    requires 0 <= a < 256
    ensures (a as bv8) & 0x08 == 0 <==> a / 8 % 2 == 0
  {
  }

  /** No lookup finds anything exactly when no entry is one of that name. */
  lemma AbsentIs(t: seq<Slot>, fn: Name)
    requires DirOk(t) && fn[0] != 0x00 && fn[0] != 0xE5
    ensures Lookup(t, fn) == Absent <==>
            forall k | 0 <= k < |t| ::
              t[k][0] == 0x00 || t[k][0] == 0xE5 || (t[k][11] as bv8) & 0x08 != 0 || t[k][..11] != fn
  {
    forall k | 0 <= k < |t|
      ensures Lookup(t, fn) == At(k) <==>
              t[k][0] != 0x00 && t[k][0] != 0xE5 && (t[k][11] as bv8) & 0x08 == 0 && t[k][..11] == fn
    {
      LookupIs(t, fn, k);
    }
    FindSays(t, fn, 0);
    match Lookup(t, fn)
    case Absent =>
    case At(k) => LookupIs(t, fn, k);
  }

  /** dir_register of an absent name adds exactly one binding; every other lookup stays. */
  lemma RegisterAddsOne(t: seq<Slot>, fn: Name, k: nat)
    requires DirOk(t) && Proper(fn) && Lookup(t, fn) == Absent && k == FirstBlank(t, 0) < |t|
    ensures var u := t[k := NewSlot(fn)];
            && DirOk(u) && Lookup(u, fn) == At(k)
            && forall o: Name | Proper(o) && o != fn :: Lookup(u, o) == Lookup(t, o)
  {
    var u: seq<Slot> := t[k := NewSlot(fn)];
    RegisterKeepsOk(t, fn, k);
    NewIsLive(fn);
    LookupLive(u, fn, k);
    forall o: Name | Proper(o) && o != fn ensures Lookup(u, o) == Lookup(t, o) {
      SameLookup(t, u, k, o);
    }
  }

  lemma NewIsLive(fn: Name)
    requires Proper(fn)
    ensures Live(NewSlot(fn)) && NewSlot(fn)[..11] == fn
  {
  }

  lemma RegisterKeepsOk(t: seq<Slot>, fn: Name, k: nat)
    requires DirOk(t) && Proper(fn) && Lookup(t, fn) == Absent && k < |t| && Blank(t[k])
    requires forall j | 0 <= j < k :: t[j][0] != 0
    ensures DirOk(t[k := NewSlot(fn)])
  {
    var u: seq<Slot> := t[k := NewSlot(fn)];
    NewIsLive(fn);
    forall j | 0 <= j < |t| && j != k && Live(t[j]) ensures t[j][..11] != fn {
      LookupLive(t, fn, j);
    }
    assert ZeroTail(u);
    assert Unique(u);
  }

  /** A name that entry `k` does not have, before or after, is looked up as before. */
  lemma SameLookup(t: seq<Slot>, u: seq<Slot>, k: nat, o: Name)
    requires DirOk(t) && DirOk(u) && Proper(o) && |u| == |t| && k < |t|
    requires forall j | 0 <= j < |t| && j != k :: u[j] == t[j]
    requires !(Live(t[k]) && t[k][..11] == o) && !(Live(u[k]) && u[k][..11] == o)
    ensures Lookup(u, o) == Lookup(t, o)
  {
    match Lookup(t, o)
    case At(j) =>
      LookupLive(t, o, j);
      LookupLive(u, o, j);
    case Absent =>
      match Lookup(u, o)
      case Absent =>
      case At(j) =>
        LookupLive(u, o, j);
        LookupLive(t, o, j);
  }

  /** dir_remove deletes exactly one binding. */
  lemma RemoveDeletesOne(t: seq<Slot>, fn: Name, k: nat)
    requires DirOk(t) && Proper(fn) && Lookup(t, fn) == At(k)
    ensures k < |t|
    ensures var u := t[k := t[k][0 := DELETED]];
            && DirOk(u) && Lookup(u, fn) == Absent
            && forall o: Name | Proper(o) && o != fn :: Lookup(u, o) == Lookup(t, o)
  {
    LookupLive(t, fn, k);
    var u: seq<Slot> := t[k := t[k][0 := DELETED]];
    assert ZeroTail(u);
    assert Unique(u);
    match Lookup(u, fn) {
      case Absent =>
      case At(j) =>
        LookupLive(u, fn, j);
        LookupLive(t, fn, j);
    }
    forall o: Name | Proper(o) && o != fn ensures Lookup(u, o) == Lookup(t, o) {
      SameLookup(t, u, k, o);
    }
  }

  /** A table with no blank entry, stretched by zeros. */
  lemma StretchKeepsLookups(t: seq<Slot>, z: seq<Slot>)
    requires DirOk(t) && FirstBlank(t, 0) == |t| && forall i | 0 <= i < |z| :: z[i] == Zeros()
    ensures DirOk(t + z) && FirstBlank(t + z, 0) == (if z == [] then |t + z| else |t|)
    ensures forall o: Name | Proper(o) :: Lookup(t + z, o) == Lookup(t, o)
  {
    var u := t + z;
    assert forall i | |t| <= i < |u| :: u[i] == Zeros();
    assert DirOk(u);
    var k := FirstBlank(u, 0);
    assert forall j | 0 <= j < |t| :: u[j] == t[j] && !Blank(t[j]);
    assert z != [] ==> Blank(u[|t|]);
    forall o: Name | Proper(o) ensures Lookup(u, o) == Lookup(t, o) {
      match Lookup(u, o)
      case At(j) =>
        LookupLive(u, o, j);
        LookupLive(t, o, j);
      case Absent =>
        match Lookup(t, o)
        case Absent =>
        case At(j) =>
          LookupLive(t, o, j);
          LookupLive(u, o, j);
    }
  }
}
