/** The kernel heap as a sequence of blocks, and how the link words in memory
    encode that sequence.

    A block is a run of words.  Its first words are its header: a used block has
    [nextMB, preMB], a free block has [nextFMB, nextUMB, preUMB].  So the word that
    links to the neighbour above is word 0 of a used block and word 1 of a free one,
    and the word that links to the neighbour below follows it. */
module HeapBlocks {
  datatype Block = Block(start: nat, len: nat, free: bool) {
    function End(): nat { start + len }
    /** Index of the word that links to the next block in memory. */
    function UpLink(): nat { if free then start + 1 else start }
  }

  /** `bs` tiles the words [lo, hi): no gap, no overlap, room for a free header in each. */
  ghost predicate Tiles(bs: seq<Block>, lo: nat, hi: nat) {
    && 0 < |bs|
    && bs[0].start == lo
    && bs[|bs| - 1].End() == hi
    && (forall i | 0 <= i < |bs| :: bs[i].len >= 3)
    && (forall i, j | 0 <= i < j < |bs| && j == i + 1 :: bs[i].End() == bs[j].start)
    && (forall i, j | 0 <= i < j < |bs| :: bs[i].End() <= bs[j].start)
  }

  ghost predicate Coalesced(bs: seq<Block>) {
    forall i, j | 0 <= i < j < |bs| && j == i + 1 :: !(bs[i].free && bs[j].free)
  }

  ghost predicate WellFormed(bs: seq<Block>, n: nat) {
    Tiles(bs, 0, n) && Coalesced(bs)
  }

  /** The first free block at or after `i`. */
  function NextFree(bs: seq<Block>, i: nat): (j: nat)
    requires i <= |bs|
    ensures i <= j <= |bs|
    ensures j < |bs| ==> bs[j].free
    ensures forall k | i <= k < j :: !bs[k].free
    decreases |bs| - i
  {
    if i == |bs| || bs[i].free then i else NextFree(bs, i + 1)
  }

  /** Byte address of the first word of block `i`, or null when there is no such block. */
  function Addr(base: int, bs: seq<Block>, i: int): int {
    if 0 <= i < |bs| then base + 4 * bs[i].start else 0
  }

  /** The link to block `i`: its address, with bit 0 set when the block is in use. */
  function Tag(base: int, bs: seq<Block>, i: int): int {
    if 0 <= i < |bs| then base + 4 * bs[i].start + (if bs[i].free then 0 else 1) else 0
  }

  ghost predicate Linked(mem: seq<int>, base: int, bs: seq<Block>, i: nat)
    requires i < |bs|
  {
    && bs[i].start + 3 <= |mem|
    && mem[bs[i].UpLink()] == Tag(base, bs, i + 1)
    && mem[bs[i].UpLink() + 1] == Tag(base, bs, i - 1)
    && (bs[i].free ==> mem[bs[i].start] == Addr(base, bs, NextFree(bs, i + 1)))
  }

  ghost predicate AllLinked(mem: seq<int>, base: int, bs: seq<Block>) {
    forall i | 0 <= i < |bs| :: Linked(mem, base, bs, i)
  }

  /** Every header word of every block holds the right link, and the free list starts right. */
  ghost predicate Represents(mem: seq<int>, base: int, head: int, bs: seq<Block>) {
    && WellFormed(bs, |mem|)
    && head == Addr(base, bs, NextFree(bs, 0))
    && AllLinked(mem, base, bs)
  }

  function Splice(bs: seq<Block>, a: nat, b: nat, mid: seq<Block>): seq<Block>
    requires a <= b <= |bs|
  {
    bs[..a] + mid + bs[b..]
  }

  lemma {:induction false} NextFreeBelowSplice(bs: seq<Block>, a: nat, b: nat, mid: seq<Block>, i: nat)
    requires i <= a <= b <= |bs|
    ensures var t := Splice(bs, a, b, mid);
            NextFree(t, i) == if NextFree(bs, i) < a then NextFree(bs, i) else NextFree(t, a)
    decreases a - i
  {
    var t := Splice(bs, a, b, mid);
    if i < a {
      assert t[i] == bs[i];
      NextFreeBelowSplice(bs, a, b, mid, i + 1);
    }
  }

  lemma {:induction false} NextFreeAboveSplice(bs: seq<Block>, a: nat, b: nat, mid: seq<Block>, i: nat)
    requires a <= b <= i <= |bs|
    ensures var t := Splice(bs, a, b, mid);
            i - b + a + |mid| <= |t| && NextFree(t, i - b + a + |mid|) == NextFree(bs, i) - b + a + |mid|
    decreases |bs| - i
  {
    if i < |bs| {
      assert Splice(bs, a, b, mid)[i - b + a + |mid|] == bs[i];
      NextFreeAboveSplice(bs, a, b, mid, i + 1);
    }
  }

  lemma SpliceAt(bs: seq<Block>, a: nat, b: nat, mid: seq<Block>, x: nat)
    requires a <= b <= |bs| && x < |Splice(bs, a, b, mid)|
    ensures Splice(bs, a, b, mid)[x] ==
            if x < a then bs[x] else if x < a + |mid| then mid[x - a] else bs[x + b - a - |mid|]
  {
  }

  lemma SpliceOrdered(bs: seq<Block>, n: nat, a: nat, b: nat, mid: seq<Block>, i: nat, j: nat)
    requires Tiles(bs, 0, n) && a < b <= |bs|
    requires Tiles(mid, bs[a].start, bs[b - 1].End())
    requires i < j < |Splice(bs, a, b, mid)|
    ensures Splice(bs, a, b, mid)[i].End() <= Splice(bs, a, b, mid)[j].start
  {
    var t := Splice(bs, a, b, mid);
    if j < a {
    } else if i < a {
      assert t[i].End() <= bs[a].start;
      if j < a + |mid| {
        assert t[j] == mid[j - a];
        assert mid[0].start <= mid[j - a].start;
      } else {
        assert t[j] == bs[j - a - |mid| + b];
      }
    } else if i < a + |mid| {
      assert t[i] == mid[i - a];
      if j < a + |mid| {
        assert t[j] == mid[j - a];
      } else {
        assert t[j] == bs[j - a - |mid| + b];
        assert mid[i - a].End() <= mid[|mid| - 1].End();
        assert bs[b - 1].End() <= t[j].start;
      }
    } else {
      assert t[i] == bs[i - a - |mid| + b] && t[j] == bs[j - a - |mid| + b];
    }
  }

  lemma SpliceAdjacent(bs: seq<Block>, n: nat, a: nat, b: nat, mid: seq<Block>, i: nat)
    requires Tiles(bs, 0, n) && a < b <= |bs|
    requires Tiles(mid, bs[a].start, bs[b - 1].End())
    requires i + 1 < |Splice(bs, a, b, mid)|
    ensures Splice(bs, a, b, mid)[i].End() == Splice(bs, a, b, mid)[i + 1].start
  {
    SpliceAt(bs, a, b, mid, i);
    SpliceAt(bs, a, b, mid, i + 1);
    if i + 1 == a {
      assert bs[i].End() == bs[i + 1].start;
    } else if i + 1 == a + |mid| {
      assert bs[b - 1].End() == bs[b].start;
    }
  }

  lemma TilesSplice(bs: seq<Block>, n: nat, a: nat, b: nat, mid: seq<Block>)
    requires Tiles(bs, 0, n) && a < b <= |bs|
    requires Tiles(mid, bs[a].start, bs[b - 1].End())
    ensures Tiles(Splice(bs, a, b, mid), 0, n)
  {
    var t := Splice(bs, a, b, mid);
    assert t[0].start == 0 by { assert t[0] == if a == 0 then mid[0] else bs[0]; }
    assert t[|t| - 1].End() == n by { assert t[|t| - 1] == if b == |bs| then mid[|mid| - 1] else bs[|bs| - 1]; }
    assert forall i | 0 <= i < |t| :: t[i].len >= 3;
    forall i, j | 0 <= i < j < |t| ensures t[i].End() <= t[j].start {
      SpliceOrdered(bs, n, a, b, mid, i, j);
    }
    forall i, j | 0 <= i < j < |t| && j == i + 1 ensures t[i].End() == t[j].start {
      SpliceAdjacent(bs, n, a, b, mid, i);
    }
  }

  /** Below a splice at `a`, only the upward link of the block just below it and the
      free-list link of the last free block below it may change. */
  ghost predicate FrameBelow(mem: seq<int>, mem': seq<int>, base: int, bs: seq<Block>, t: seq<Block>, a: nat, i: nat)
    requires i < a <= |bs| && a <= |t|
  {
    && bs[i].start + 3 <= |mem| == |mem'|
    && mem'[bs[i].UpLink()] == (if i == a - 1 then Tag(base, t, a) else mem[bs[i].UpLink()])
    && mem'[bs[i].UpLink() + 1] == mem[bs[i].UpLink() + 1]
    && (bs[i].free ==>
          mem'[bs[i].start] ==
          if NextFree(bs, i + 1) < a then mem[bs[i].start] else Addr(base, t, NextFree(t, a)))
  }

  /** Above a splice that ends at `b`, only the downward link of block `b` may change. */
  ghost predicate FrameAbove(mem: seq<int>, mem': seq<int>, base: int, bs: seq<Block>, t: seq<Block>, b: nat, last: int, i: nat)
    requires b <= i < |bs|
  {
    && bs[i].start + 3 <= |mem| == |mem'|
    && mem'[bs[i].UpLink()] == mem[bs[i].UpLink()]
    && mem'[bs[i].UpLink() + 1] == (if i == b then Tag(base, t, last) else mem[bs[i].UpLink() + 1])
    && (bs[i].free ==> mem'[bs[i].start] == mem[bs[i].start])
  }

  ghost predicate Frames(mem: seq<int>, mem': seq<int>, base: int, bs: seq<Block>, t: seq<Block>, a: nat, b: nat, last: int)
    requires a <= b <= |bs| && a <= |t|
  {
    && (forall i | 0 <= i < a :: FrameBelow(mem, mem', base, bs, t, a, i))
    && (forall i | b <= i < |bs| :: FrameAbove(mem, mem', base, bs, t, b, last, i))
  }

  lemma LinkedBelow(mem: seq<int>, mem': seq<int>, base: int, bs: seq<Block>, a: nat, b: nat, mid: seq<Block>, i: nat)
    requires i < a < b <= |bs| && 0 < |mid|
    requires Linked(mem, base, bs, i)
    requires FrameBelow(mem, mem', base, bs, Splice(bs, a, b, mid), a, i)
    ensures Linked(mem', base, Splice(bs, a, b, mid), i)
  {
    NextFreeBelowSplice(bs, a, b, mid, i + 1);
  }

  lemma LinkedAbove(mem: seq<int>, mem': seq<int>, base: int, bs: seq<Block>, a: nat, b: nat, mid: seq<Block>, k: nat)
    requires a < b <= k < |bs| && 0 < |mid|
    requires Linked(mem, base, bs, k)
    requires FrameAbove(mem, mem', base, bs, Splice(bs, a, b, mid), b, a + |mid| - 1, k)
    ensures Linked(mem', base, Splice(bs, a, b, mid), k - b + a + |mid|)
  {
    var t := Splice(bs, a, b, mid);
    var i := k - b + a + |mid|;
    assert t[i] == bs[k];
    NextFreeAboveSplice(bs, a, b, mid, k + 1);
    assert Tag(base, t, i + 1) == Tag(base, bs, k + 1);
    assert Addr(base, t, NextFree(t, i + 1)) == Addr(base, bs, NextFree(bs, k + 1));
  }

  lemma LinkedSplice(mem: seq<int>, mem': seq<int>, base: int, bs: seq<Block>, a: nat, b: nat, mid: seq<Block>, t: seq<Block>)
    requires a < b <= |bs| && 0 < |mid| && t == Splice(bs, a, b, mid)
    requires AllLinked(mem, base, bs)
    requires forall i | a <= i < a + |mid| :: Linked(mem', base, t, i)
    requires Frames(mem, mem', base, bs, t, a, b, a + |mid| - 1)
    ensures AllLinked(mem', base, t)
  {
    hide Linked, FrameBelow, FrameAbove;
    forall i | 0 <= i < |t| ensures Linked(mem', base, t, i) {
      if i < a {
        LinkedBelow(mem, mem', base, bs, a, b, mid, i);
      } else if i >= a + |mid| {
        LinkedAbove(mem, mem', base, bs, a, b, mid, i - a - |mid| + b);
      }
    }
  }

  /** Replacing the blocks [a, b) by `mid` keeps the encoding right, provided only the
      links across the two seams are redirected. */
  lemma RepresentsSplice(mem: seq<int>, mem': seq<int>, base: int, head: int, head': int,
                         bs: seq<Block>, a: nat, b: nat, mid: seq<Block>, t: seq<Block>)
    requires Represents(mem, base, head, bs) && |mem'| == |mem|
    requires a < b <= |bs| && 0 < |mid| && t == Splice(bs, a, b, mid)
    requires Tiles(mid, bs[a].start, bs[b - 1].End())
    requires Coalesced(t)
    requires forall i | a <= i < a + |mid| :: Linked(mem', base, t, i)
    requires Frames(mem, mem', base, bs, t, a, b, a + |mid| - 1)
    requires head' == if NextFree(bs, 0) < a then head else Addr(base, t, NextFree(t, a))
    ensures Represents(mem', base, head', t)
  {
    hide Linked, FrameBelow, FrameAbove, Frames, AllLinked, Tiles, Coalesced;
    LinkedSplice(mem, mem', base, bs, a, b, mid, t);
    TilesSplice(bs, |mem|, a, b, mid);
    NextFreeBelowSplice(bs, a, b, mid, 0);
  }

  /** Word `w` lies in the payload of the used block `b`: past its two header words. */
  predicate InPayload(b: Block, w: int) {
    !b.free && b.start + 2 <= w < b.End()
  }

  /** No payload word of the blocks of `bs` outside [a, b) has changed. */
  ghost predicate PayloadsKept(mem: seq<int>, mem': seq<int>, bs: seq<Block>, a: nat, b: nat) {
    && |mem'| == |mem|
    && forall i, w | 0 <= i < |bs| && !(a <= i < b) && 0 <= w < |mem| && InPayload(bs[i], w) :: mem'[w] == mem[w]
  }

  /** `p` is the last free block below `a`, or -1. */
  ghost predicate LastFreeBelow(bs: seq<Block>, a: nat, p: int)
    requires a <= |bs|
  {
    && -1 <= p < a
    && (0 <= p ==> bs[p].free)
    && (forall k | p < k < a :: !bs[k].free)
  }

  lemma {:induction false} LastFreeBelowNext(bs: seq<Block>, a: nat, p: int, i: nat)
    requires i <= a <= |bs| && LastFreeBelow(bs, a, p)
    ensures NextFree(bs, i) < a <==> i <= p
    ensures p < i ==> NextFree(bs, i) == NextFree(bs, a)
    decreases a - i
  {
    if i < a {
      LastFreeBelowNext(bs, a, p, i + 1);
    }
  }

  /** `mem'` differs from `mem` at most in the words [lo, hi) and in `x`, `y` and `z`. */
  ghost predicate ChangesOnly(mem: seq<int>, mem': seq<int>, lo: nat, hi: int, x: int, y: int, z: int) {
    && |mem'| == |mem|
    && forall w | 0 <= w < |mem| :: mem'[w] == mem[w] || lo <= w < hi || w == x || w == y || w == z
  }

  /** `mem'` differs from `mem` only inside the words of blocks [a, b), in the two links
      across the seams, and in the free-list link of block `p`. */
  ghost predicate WritesOnly(mem: seq<int>, mem': seq<int>, bs: seq<Block>, a: nat, b: nat, p: int)
    requires a < b <= |bs| && -1 <= p < a
  {
    ChangesOnly(mem, mem', bs[a].start, bs[b - 1].End(),
                if 0 < a then bs[a - 1].UpLink() else -1,
                if b < |bs| then bs[b].UpLink() + 1 else -1,
                if 0 <= p then bs[p].start else -1)
  }

  lemma FramesIntro(mem: seq<int>, mem': seq<int>, base: int, bs: seq<Block>, t: seq<Block>, a: nat, b: nat, last: int, p: int)
    requires Tiles(bs, 0, |mem|) && a < b <= |bs| && a <= |t| && LastFreeBelow(bs, a, p)
    requires WritesOnly(mem, mem', bs, a, b, p)
    requires 0 < a ==> mem'[bs[a - 1].UpLink()] == Tag(base, t, a)
    requires b < |bs| ==> mem'[bs[b].UpLink() + 1] == Tag(base, t, last)
    requires 0 <= p ==> mem'[bs[p].start] == Addr(base, t, NextFree(t, a))
    ensures Frames(mem, mem', base, bs, t, a, b, last)
    ensures PayloadsKept(mem, mem', bs, a, b)
  {
    hide WritesOnly, Tiles, NextFree;
    forall i | 0 <= i < a ensures FrameBelow(mem, mem', base, bs, t, a, i) {
      LastFreeBelowNext(bs, a, p, i + 1);
      BelowUntouched(mem, mem', bs, a, b, p, i);
    }
    forall i | b <= i < |bs| ensures FrameAbove(mem, mem', base, bs, t, b, last, i) {
      AboveUntouched(mem, mem', bs, a, b, p, i);
    }
    PayloadsUntouched(mem, mem', bs, a, b, p);
  }

  lemma PayloadsUntouched(mem: seq<int>, mem': seq<int>, bs: seq<Block>, a: nat, b: nat, p: int)
    requires Tiles(bs, 0, |mem|) && a < b <= |bs| && LastFreeBelow(bs, a, p)
    requires WritesOnly(mem, mem', bs, a, b, p)
    ensures PayloadsKept(mem, mem', bs, a, b)
  {
    forall i, w | 0 <= i < |bs| && !(a <= i < b) && 0 <= w < |mem| && InPayload(bs[i], w) ensures mem'[w] == mem[w] {
      if i < a {
        BelowUntouched(mem, mem', bs, a, b, p, i);
      } else {
        AboveUntouched(mem, mem', bs, a, b, p, i);
      }
    }
  }

  lemma BelowUntouched(mem: seq<int>, mem': seq<int>, bs: seq<Block>, a: nat, b: nat, p: int, i: nat)
    requires Tiles(bs, 0, |mem|) && i < a < b <= |bs| && LastFreeBelow(bs, a, p)
    requires WritesOnly(mem, mem', bs, a, b, p)
    ensures bs[i].End() <= |mem| == |mem'| && 3 <= bs[i].len
    ensures forall w | bs[i].start <= w < bs[i].End() && mem'[w] != mem[w] ::
              (i == a - 1 && w == bs[i].UpLink()) || (i == p && w == bs[i].start)
  {
    assert bs[i].End() <= bs[a].start && bs[b - 1].End() <= |mem|;
    if b < |bs| { assert bs[a].start < bs[b].start; }
    if i < a - 1 { assert bs[i].End() <= bs[a - 1].start; }
    if 0 <= p < i { assert bs[p].End() <= bs[i].start; }
    if i < p { assert bs[i].End() <= bs[p].start; }
  }

  lemma AboveUntouched(mem: seq<int>, mem': seq<int>, bs: seq<Block>, a: nat, b: nat, p: int, i: nat)
    requires Tiles(bs, 0, |mem|) && a < b <= i < |bs| && LastFreeBelow(bs, a, p)
    requires WritesOnly(mem, mem', bs, a, b, p)
    ensures bs[i].End() <= |mem| == |mem'| && 3 <= bs[i].len
    ensures forall w | bs[i].start <= w < bs[i].End() && mem'[w] != mem[w] :: i == b && w == bs[i].UpLink() + 1
  {
    assert bs[b - 1].End() <= bs[i].start && bs[i].End() <= |mem|;
    if 0 < a { assert bs[a - 1].End() <= bs[b - 1].start; }
    if b < i { assert bs[b].End() <= bs[i].start; }
    if 0 <= p { assert bs[p].End() <= bs[b - 1].start; }
  }
}
