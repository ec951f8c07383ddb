/** The searches of the binary-scheduling index (task.c, GetPriSeqNum, GetRdyPriSeqNum, PrioRemap). */
module ReadySearch {
  import opened ReadyBits

  const INVALID: nat := 0xFF

  predicate BitAt(info: seq<bv32>, i: nat) {
    i / 32 < |info| && BitOf(info[i / 32], i % 32)
  }

  /** Strictly increasing priorities. */
  ghost predicate Ascending(active: seq<nat>, n: nat) {
    n <= |active| && forall i, j | 0 <= i < j < n :: active[i] < active[j]
  }

  /** Lines 104-131: where a priority is, or where it belongs. */
  method GetPriSeqNum(active: seq<nat>, n: nat, pri: nat) returns (found: bool, at: nat)
    requires Ascending(active, n)
    ensures at <= n && (found <==> exists i | 0 <= i < n :: active[i] == pri)
    ensures found ==> at < n && active[at] == pri
    ensures forall i | 0 <= i < at :: active[i] < pri
    ensures !found ==> forall i | at <= i < n :: pri < active[i]
  {
    var num, seqNum := 0, n;
    while num != seqNum
      invariant num <= seqNum <= n
      invariant forall i | 0 <= i < num :: active[i] < pri
      invariant forall i | seqNum <= i < n :: pri < active[i]
      decreases seqNum - num
    {
      var tmpNum := num;
      num := (num + seqNum) / 2;
      if pri == active[num] {
        return true, num;
      } else if pri < active[num] {
        seqNum := num;
        num := tmpNum;
      } else {
        num := num + 1;
      }
    }
    return false, num;
  }

  /** The loops at lines 167 and 179: the highest set bit from `hi` down to `lo`. */
  method ScanDown(w: bv32, hi: nat, lo: nat) returns (cnt: int)
    requires hi < 32
    ensures cnt <= hi
    ensures lo <= cnt ==> BitOf(w, cnt) && forall x | cnt < x <= hi :: !BitOf(w, x)
    ensures cnt < lo ==> forall x | lo <= x <= hi :: !BitOf(w, x)
  {
    cnt := hi;
    while cnt >= lo
      invariant cnt <= hi && (lo <= hi ==> lo <= cnt + 1)
      invariant forall x | cnt < x <= hi && lo <= x :: !BitOf(w, x)
      decreases cnt - lo
    {
      if BitOf(w, cnt) {
        return cnt;
      }
      cnt := cnt - 1;
    }
  }

  /** Lines 163-186: the highest set bit of one byte from bit `j` down. */
  method ScanByte(w: bv32, num: nat, j0: nat) returns (cnt: int)
    requires num < 4 && num * 8 <= j0 < num * 8 + 8
    ensures cnt <= j0
    ensures num * 8 <= cnt ==> BitOf(w, cnt) && forall x | cnt < x <= j0 :: !BitOf(w, x)
    ensures cnt < num * 8 ==> forall x | num * 8 <= x <= j0 :: !BitOf(w, x)
  {
    hide BitOf, ByteZero, HighNibbleZero;
    forall x | num * 8 <= x <= j0
      ensures ByteZero(w, num) ==> !BitOf(w, x)
      ensures x >= num * 8 + 4 && HighNibbleZero(w, num) ==> !BitOf(w, x)
    {
      ZeroByteHasNoBit(w, num, x);
    }
    var j := j0;
    cnt := -1;
    if !ByteZero(w, num) {
      if !HighNibbleZero(w, num) {
        cnt := ScanDown(w, j, num * 8 + 4);
        if cnt >= num * 8 + 4 {
          return cnt;
        }
      }
      if j / 4 % 2 == 1 {
        j := j / 4 * 4 + 3 - 4;
      }
      cnt := ScanDown(w, j, num * 8);
    }
  }

  /** Lines 157-189: the highest set bit of a word from bit `j` down. */
  method ScanWord(w: bv32, j0: nat) returns (cnt: int)
    requires j0 < 32
    ensures -1 <= cnt <= j0
    ensures 0 <= cnt ==> BitOf(w, cnt) && forall x | cnt < x <= j0 :: !BitOf(w, x)
    ensures cnt == -1 ==> forall x | 0 <= x <= j0 :: !BitOf(w, x)
  {
    hide BitOf;
    var j: nat, num: nat := j0, j0 / 8;
    while true
      invariant num < 4 && num * 8 <= j < num * 8 + 8 && j <= j0
      invariant forall x | j < x <= j0 :: !BitOf(w, x)
      decreases num
    {
      cnt := ScanByte(w, num, j);
      if num * 8 <= cnt {
        return cnt;
      }
      if num == 0 {
        break;
      }
      j := num * 8 - 1;
      num := num - 1;
    }
    cnt := -1;
  }

  /** `r` is the largest position up to `s` whose bit is set, or INVALID. */
  ghost predicate Nearest(info: seq<bv32>, s: nat, r: nat) {
    if r == INVALID then forall x | 0 <= x <= s :: !BitAt(info, x)
    else r <= s && BitAt(info, r) && forall x | r < x <= s :: !BitAt(info, x)
  }

  lemma WordBits(info: seq<bv32>, i: nat, x: nat)
    requires i < |info| && i * 32 <= x < i * 32 + 32
    ensures BitAt(info, x) == BitOf(info[i], x - i * 32)
  {
  }

  /** Lines 147-193. */
  method GetRdyPriSeqNum(info: seq<bv32>, seqNum: nat) returns (r: nat)
    requires seqNum / 32 < |info| && seqNum < INVALID
    ensures Nearest(info, seqNum, r)
  {
    hide BitOf;
    var i: nat, j: nat := seqNum / 32, seqNum % 32;
    while true
      invariant i < |info| && j < 32 && 32 * i + j <= seqNum
      invariant forall x | 32 * i + j < x <= seqNum :: !BitAt(info, x)
      decreases i
    {
      var tmp := info[i];
      var cnt: int := -1;
      if tmp != 0 {
        cnt := ScanWord(tmp, j);
      } else {
        forall x: nat | x <= j ensures !BitOf(tmp, x) {
          ZeroWord(x);
        }
      }
      forall x | 32 * i <= x <= 32 * i + j ensures BitAt(info, x) == BitOf(tmp, x - 32 * i) {
        WordBits(info, i, x);
      }
      if cnt >= 0 {
        assert BitAt(info, 32 * i + cnt);
        return 32 * i + cnt;
      }
      if i == 0 {
        return INVALID;
      }
      j := 31;
      i := i - 1;
    }
  }

  /** The first `n` bits say which priorities have a ready task. */
  ghost predicate Mapped(info: seq<bv32>, rdy: seq<nat>, n: nat)
    requires n <= |rdy|
  {
    forall i | 0 <= i < n :: BitAt(info, i) <==> rdy[i] != INVALID
  }

  /** What a word under construction says: the bits below `i` of those from `base` on. */
  ghost predicate WordMaps(w: bv32, rdy: seq<nat>, base: nat, i: nat)
    requires i <= |rdy|
  {
    forall x | 0 <= x < 32 :: BitOf(w, x) <==> base + x < i && rdy[base + x] != INVALID
  }

  /** Lines 212-218: the bits of the word of `seqNum` that stay. */
  method LowMask(info: seq<bv32>, rdy: seq<nat>, seqNum: nat) returns (tmp: bv32)
    requires seqNum / 32 < |info| && seqNum <= |rdy| && Mapped(info, rdy, seqNum)
    ensures WordMaps(tmp, rdy, seqNum / 32 * 32, seqNum)
  {
    hide BitOf, Mask, Or, And;
    tmp := 0;
    forall x: nat | x < 32 ensures !BitOf(tmp, x) {
      ZeroWord(x);
    }
    for i := 0 to seqNum % 32
      invariant forall x | 0 <= x < 32 :: BitOf(tmp, x) <==> x < i
    {
      forall x | 0 <= x < 32 ensures BitOf(Or(tmp, Mask(i)), x) == (x == i || BitOf(tmp, x)) {
        BitChange(tmp, i, x);
      }
      tmp := Or(tmp, Mask(i));
    }
    var j := seqNum / 32;
    forall x | 0 <= x < 32 ensures BitOf(And(tmp, info[j]), x) == (BitOf(tmp, x) && BitOf(info[j], x)) {
      BitAnd(tmp, info[j], x);
    }
    forall x | 0 <= x < seqNum % 32 ensures BitOf(info[j], x) <==> rdy[j * 32 + x] != INVALID {
      WordBits(info, j, j * 32 + x);
    }
    tmp := And(tmp, info[j]);
  }

  /** A finished word makes the bits up to it right. */
  lemma StoreWord(info: seq<bv32>, rdy: seq<nat>, j: nat, w: bv32, i: nat)
    requires j < |info| && i <= |rdy| && j * 32 <= i <= j * 32 + 32
    requires Mapped(info, rdy, j * 32) && WordMaps(w, rdy, j * 32, i)
    ensures Mapped(info[j := w], rdy, i)
  {
    hide BitOf;
    var e := info[j := w];
    forall x | 0 <= x < i ensures BitAt(e, x) <==> rdy[x] != INVALID {
      if x < j * 32 {
        assert e[x / 32] == info[x / 32];
        assert BitAt(info, x) <==> rdy[x] != INVALID;
      } else {
        WordBits(e, j, x);
        assert BitOf(w, x - j * 32) <==> rdy[j * 32 + (x - j * 32)] != INVALID;
      }
    }
  }

  lemma NextBit(w: bv32, rdy: seq<nat>, base: nat, i: nat)
    requires base <= i < base + 32 && i < |rdy| && WordMaps(w, rdy, base, i)
    ensures WordMaps(if rdy[i] != INVALID then Or(w, Mask(i - base)) else w, rdy, base, i + 1)
  {
    hide BitOf, Mask, Or;
    var u := if rdy[i] != INVALID then Or(w, Mask(i - base)) else w;
    forall x | 0 <= x < 32 ensures BitOf(u, x) <==> base + x < i + 1 && rdy[base + x] != INVALID {
      BitChange(w, i - base, x);
      assert BitOf(w, x) <==> base + x < i && rdy[base + x] != INVALID;
    }
  }

  lemma EmptyWord(rdy: seq<nat>, i: nat)
    requires i <= |rdy|
    ensures WordMaps(0, rdy, i, i)
  {
    hide BitOf;
    forall x: nat | x < 32 ensures !BitOf(0, x) {
      ZeroWord(x);
    }
  }

  /** Lines 208-233: recompute the bits from `seqNum` on; those below are right already. */
  method PrioRemap(info: seq<bv32>, rdy: seq<nat>, n: nat, seqNum: nat) returns (r: seq<bv32>)
    requires seqNum <= n <= |rdy| && Mapped(info, rdy, seqNum) && n <= 32 * |info| && seqNum / 32 < |info|
    ensures |r| == |info| && Mapped(r, rdy, n)
  {
    hide BitAt, WordMaps, Mapped, Or, Mask;
    r := info;
    var j: nat := seqNum / 32;
    var tmp := LowMask(info, rdy, seqNum);
    MappedLess(info, rdy, seqNum, j * 32);
    for i := seqNum to n
      invariant |r| == |info| && j < |r| && j * 32 <= i <= j * 32 + 32 && j <= i
      invariant Mapped(r, rdy, j * 32) && WordMaps(tmp, rdy, j * 32, i)
      invariant (i == j * 32 ==> i == seqNum) && (i == seqNum ==> i < j * 32 + 32)
    {
      if i % 32 == 0 && i != seqNum {
        WordFull(i, j);
        StoreWord(r, rdy, j, tmp, i);
        r := r[j := tmp];
        j := j + 1;
        tmp := 0;
        EmptyWord(rdy, i);
      }
      InWord(i, j);
      NextBit(tmp, rdy, j * 32, i);
      if rdy[i] != INVALID {
        tmp := Or(tmp, Mask(i % 32));
      }
    }
    StoreWord(r, rdy, j, tmp, n);
    r := r[j := tmp];
  }

  lemma WordFull(i: nat, j: nat)
    requires j * 32 <= i <= j * 32 + 32 && i % 32 == 0 && i != j * 32
    ensures i == (j + 1) * 32
  {
  }

  lemma InWord(i: nat, j: nat)
    requires j * 32 <= i <= j * 32 + 32
    ensures i < j * 32 + 32 ==> i % 32 == i - j * 32
    ensures i == j * 32 + 32 ==> i % 32 == 0
  {
  }

  lemma MappedLess(info: seq<bv32>, rdy: seq<nat>, n: nat, m: nat)
    requires m <= n <= |rdy| && Mapped(info, rdy, n)
    ensures Mapped(info, rdy, m)
  {
  }

  /** Lines 272-279: set or clear one bit. */
  function SetStatus(info: seq<bv32>, s: nat, rdy: bool): (r: seq<bv32>)
    requires s / 32 < |info|
    ensures |r| == |info|
  {
    var tmp := Without(info[s / 32], Mask(s % 32));
    info[s / 32 := if rdy then Or(tmp, Mask(s % 32)) else tmp]
  }

  lemma StatusSet(info: seq<bv32>, s: nat, rdy: bool, x: nat)
    requires s / 32 < |info|
    ensures BitAt(SetStatus(info, s, rdy), x) == if x == s then rdy else BitAt(info, x)
  {
    hide BitOf, Mask, Or, Without;
    var w, k := info[s / 32], s % 32;
    BitChange(w, k, x % 32);
    BitChange(Without(w, Mask(k)), k, x % 32);
  }
}
