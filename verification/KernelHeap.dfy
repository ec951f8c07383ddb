/** The first-fit allocator that lives inside the word array it manages.
    Pointers are 32-bit byte addresses; bit 0 of a link to a neighbour says the
    neighbour is in use.  The class follows the source statement by statement; its
    contracts say what each call does to the sequence of blocks. */
module KernelHeap {
  import opened HeapBlocks

  const U32: int := 0x1_0000_0000

  /** Line 80: round up to whole words and add the used header, in 32-bit arithmetic. */
  function Rounded(size: nat): nat {
    ((size + 3) % U32 / 4 * 4 + 8) % U32
  }

  /** The rounding wraps for the eleven largest requests only; below that it is the least
      multiple of four that holds the payload and the header. */
  lemma RoundingIsExact(size: nat)
    requires size < U32
    ensures size <= 0xFFFF_FFF4 <==> Rounded(size) >= size + 8
    ensures size <= 0xFFFF_FFF4 ==> Rounded(size) % 4 == 0 && Rounded(size) < size + 12
  {
    if size <= 0xFFFF_FFF4 {
      assert (size + 3) % U32 == size + 3;
    }
  }

  /** The first free block with room for `need` bytes, or |bs|. */
  function FirstFit(bs: seq<Block>, need: nat, i: nat): (k: nat)
    requires i <= |bs|
    ensures i <= k <= |bs|
    ensures k < |bs| ==> bs[k].free && need <= 4 * bs[k].len
    ensures forall j | i <= j < k :: !(bs[j].free && need <= 4 * bs[j].len)
    decreases |bs| - i
  {
    if i == |bs| || (bs[i].free && need <= 4 * bs[i].len) then i else FirstFit(bs, need, i + 1)
  }

  /** Take `words` words from the front of block `k`; a rest too small for a free header
      goes with them. */
  function Allocate(bs: seq<Block>, k: nat, words: nat): seq<Block>
    requires k < |bs| && words <= bs[k].len
  {
    Splice(bs, k, k + 1, Carved(bs[k], words))
  }

  function Carved(b: Block, words: nat): seq<Block>
    requires words <= b.len
  {
    if b.len - words < 3 then [Block(b.start, b.len, false)]
    else [Block(b.start, words, false), Block(b.start + words, b.len - words, true)]
  }

  function MergeLow(bs: seq<Block>, k: nat): nat
    requires k < |bs|
  {
    if 0 < k && bs[k - 1].free then k - 1 else k
  }

  function MergeHigh(bs: seq<Block>, k: nat): nat
    requires k < |bs|
  {
    if k + 1 < |bs| && bs[k + 1].free then k + 2 else k + 1
  }

  /** Free block `k` and merge it with its free neighbours. */
  function Release(bs: seq<Block>, k: nat): seq<Block>
    requires k < |bs|
  {
    var lo, hi := MergeLow(bs, k), MergeHigh(bs, k);
    Splice(bs, lo, hi, [Merged(bs, lo, hi)])
  }

  function Merged(bs: seq<Block>, lo: nat, hi: nat): Block
    requires lo < hi <= |bs|
  {
    Block(bs[lo].start, if bs[hi - 1].End() < bs[lo].start then 0 else bs[hi - 1].End() - bs[lo].start, true)
  }

  lemma CarvedTiles(bs: seq<Block>, n: nat, k: nat, words: nat)
    requires WellFormed(bs, n) && k < |bs| && bs[k].free && 3 <= words <= bs[k].len
    ensures Tiles(Carved(bs[k], words), bs[k].start, bs[k].End())
    ensures Coalesced(Allocate(bs, k, words))
  {
    var t := Allocate(bs, k, words);
    var c := |Carved(bs[k], words)|;
    forall i, j | 0 <= i < j < |t| && j == i + 1 ensures !(t[i].free && t[j].free) {
      if j < k {
        assert t[i] == bs[i] && t[j] == bs[j];
      } else if i >= k + c {
        assert t[i] == bs[i - c + 1] && t[j] == bs[j - c + 1];
      } else if i == k + c - 1 {
        assert t[j] == bs[k + 1];
      }
    }
  }

  lemma MergedCoalesced(bs: seq<Block>, k: nat)
    requires Coalesced(bs) && k < |bs| && !bs[k].free
    ensures Coalesced(Release(bs, k))
  {
    var lo, hi := MergeLow(bs, k), MergeHigh(bs, k);
    var t := Release(bs, k);
    forall i, j | 0 <= i < j < |t| && j == i + 1 ensures !(t[i].free && t[j].free) {
      if j < lo {
        assert t[i] == bs[i] && t[j] == bs[j];
      } else if j == lo {
        assert t[i] == bs[lo - 1];
      } else if i == lo {
        assert t[j] == bs[hi];
        assert hi == k + 2 ==> !(bs[hi - 1].free && bs[hi].free);
      } else {
        assert t[i] == bs[i - lo - 1 + hi] && t[j] == bs[j - lo - 1 + hi];
      }
    }
  }

  lemma MergedTiles(bs: seq<Block>, n: nat, k: nat)
    requires WellFormed(bs, n) && k < |bs| && !bs[k].free
    ensures var lo, hi := MergeLow(bs, k), MergeHigh(bs, k);
            && Tiles([Merged(bs, lo, hi)], bs[lo].start, bs[hi - 1].End())
            && Coalesced(Release(bs, k))
  {
    var lo, hi := MergeLow(bs, k), MergeHigh(bs, k);
    MergedCoalesced(bs, k);
    assert bs[lo].End() <= bs[hi - 1].End() by { if lo < hi - 1 { assert bs[lo].End() <= bs[hi - 1].start; } }
  }

  /** The header words an allocation of `words` words at `s` must leave behind. */
  ghost predicate AllocationWords(m0: seq<int>, m1: seq<int>, base: int, s: nat, len: nat, words: nat)
    requires 3 <= words <= len
  {
    var whole := len - words < 3;
    && s + len <= |m0| == |m1|
    && m1[s] == (if whole then m0[s + 1] else base + 4 * (s + words))
    && m1[s + 1] == m0[s + 2]
    && (!whole ==>
          && m1[s + words] == m0[s]
          && m1[s + words + 1] == m0[s + 1]
          && m1[s + words + 2] == base + 4 * s + 1)
  }

  /** The free-list link that replaces the one to the block at `s`. */
  ghost function RestLink(m0: seq<int>, base: int, s: nat, len: nat, words: nat): int
    requires s < |m0|
  {
    if len - words < 3 then m0[s] else base + 4 * (s + words)
  }

  lemma AllocateLinked(m0: seq<int>, m1: seq<int>, base: int, bs: seq<Block>, k: nat, words: nat)
    requires k < |bs| && bs[k].free && 3 <= words <= bs[k].len
    requires Coalesced(bs) && Linked(m0, base, bs, k)
    requires AllocationWords(m0, m1, base, bs[k].start, bs[k].len, words)
    ensures var t := Allocate(bs, k, words);
            && (forall i | k <= i < k + |Carved(bs[k], words)| :: Linked(m1, base, t, i))
            && Addr(base, t, NextFree(t, k)) == RestLink(m0, base, bs[k].start, bs[k].len, words)
  {
    var t, mid := Allocate(bs, k, words), Carved(bs[k], words);
    NextFreeAboveSplice(bs, k, k + 1, mid, k + 1);
    assert 0 < k ==> !bs[k - 1].free && t[k - 1] == bs[k - 1];
    assert k + 1 < |bs| ==> !bs[k + 1].free && t[k + |mid|] == bs[k + 1];
    assert t[k] == mid[0];
    assert Tag(base, t, k + |mid|) == Tag(base, bs, k + 1);
    assert Tag(base, t, k - 1) == Tag(base, bs, k - 1);
    assert Addr(base, t, NextFree(t, k + |mid|)) == Addr(base, bs, NextFree(bs, k + 1));
    if |mid| == 2 {
      assert t[k + 1] == mid[1];
      assert Linked(m1, base, t, k) && Linked(m1, base, t, k + 1);
    } else {
      assert Linked(m1, base, t, k);
    }
  }

  lemma AllocateCorrect(m0: seq<int>, m1: seq<int>, base: int, head: int, head': int, bs: seq<Block>, k: nat, words: nat, p: int)
    requires Represents(m0, base, head, bs) && k < |bs| && bs[k].free && 3 <= words <= bs[k].len
    requires LastFreeBelow(bs, k, p) && WritesOnly(m0, m1, bs, k, k + 1, p)
    requires AllocationWords(m0, m1, base, bs[k].start, bs[k].len, words)
    requires 0 < k ==> m1[bs[k - 1].UpLink()] == base + 4 * bs[k].start + 1
    requires k + 1 < |bs| ==>
               m1[bs[k + 1].UpLink() + 1] == if bs[k].len - words < 3 then base + 4 * bs[k].start + 1 else base + 4 * (bs[k].start + words)
    requires if 0 <= p then m1[bs[p].start] == RestLink(m0, base, bs[k].start, bs[k].len, words) && head' == head
             else head' == RestLink(m0, base, bs[k].start, bs[k].len, words)
    ensures Represents(m1, base, head', Allocate(bs, k, words))
    ensures PayloadsKept(m0, m1, bs, 0, 0)
  {
    hide Tiles, Coalesced, FrameBelow, FrameAbove, Frames;
    var t, mid := Allocate(bs, k, words), Carved(bs[k], words);
    assert Linked(m0, base, bs, k);
    CarvedTiles(bs, |m0|, k, words);
    AllocateLinked(m0, m1, base, bs, k, words);
    LastFreeBelowNext(bs, k, p, 0);
    assert t[k] == mid[0] && t[k + |mid| - 1] == mid[|mid| - 1];
    FramesIntro(m0, m1, base, bs, t, k, k + 1, k + |mid| - 1, p);
    RepresentsSplice(m0, m1, base, head, head', bs, k, k + 1, mid, t);
  }

  /** What the header of free block `k` says about its surroundings. */
  lemma Neighbours(mem: seq<int>, base: int, head: int, bs: seq<Block>, k: nat, p: int)
    requires Represents(mem, base, head, bs) && k < |bs| && bs[k].free && LastFreeBelow(bs, k, p)
    ensures 3 <= bs[k].len && bs[k].End() <= |mem|
    ensures mem[bs[k].start] == Addr(base, bs, NextFree(bs, k + 1))
    ensures if k + 1 < |bs|
            then !bs[k + 1].free && bs[k + 1].start == bs[k].End() && bs[k + 1].start + 3 <= |mem|
                 && mem[bs[k].start + 1] == base + 4 * bs[k + 1].start + 1
            else bs[k].End() == |mem| && mem[bs[k].start + 1] == 0
    ensures if 0 < k
            then !bs[k - 1].free && bs[k - 1].start + 3 <= bs[k].start && mem[bs[k].start + 2] == base + 4 * bs[k - 1].start + 1
            else mem[bs[k].start + 2] == 0
    ensures 0 <= p ==> p < k - 1 && bs[p].start + 3 <= bs[k - 1].start
  {
    assert Linked(mem, base, bs, k);
    if k + 1 < |bs| {
      assert bs[k].End() == bs[k + 1].start && Linked(mem, base, bs, k + 1);
    }
    if 0 < k {
      assert bs[k - 1].End() == bs[k].start && !bs[k - 1].free;
      if 0 <= p {
        assert bs[p].End() <= bs[k - 1].start;
      }
    }
    if k + 1 < |bs| {
      assert bs[k].End() <= bs[|bs| - 1].start;
    }
  }

  /** The last free block below `a`, or -1. */
  function LastFree(bs: seq<Block>, a: nat): (p: int)
    requires a <= |bs|
    ensures LastFreeBelow(bs, a, p)
  {
    if a == 0 then -1 else if bs[a - 1].free then a - 1 else LastFree(bs, a - 1)
  }

  /** Which way the walk of lines 211-259 must go. */
  lemma WalkOrder(mem: seq<int>, base: int, head: int, bs: seq<Block>, k: nat)
    requires Represents(mem, base, head, bs) && k < |bs| && !bs[k].free && 0 < base
    ensures base + 4 * bs[k].start < head <==> k < NextFree(bs, 0) < |bs|
    ensures head == 0 <==> NextFree(bs, 0) == |bs|
    ensures bs[0].start == 0
  {
    var f := NextFree(bs, 0);
    if f < |bs| {
      if k < f { assert bs[k].End() <= bs[f].start; } else { assert bs[f].End() <= bs[k].start; }
    }
  }

  /** The links in the header of any block, used or free. */
  lemma Links(mem: seq<int>, base: int, head: int, bs: seq<Block>, j: nat)
    requires Represents(mem, base, head, bs) && j < |bs|
    ensures bs[j].start + 3 <= |mem|
    ensures mem[bs[j].UpLink()] == Tag(base, bs, j + 1) && mem[bs[j].UpLink() + 1] == Tag(base, bs, j - 1)
    ensures bs[j].free && j + 1 < |bs| ==> !bs[j + 1].free
  {
    assert Linked(mem, base, bs, j);
  }

  /** A word address is even, so bit 0 is free to carry the tag. */
  lemma TagBit(base: int, w: int)
    requires base % 4 == 0
    ensures (base + 4 * w) % 2 == 0 && (base + 4 * w + 1) % 2 == 1
  {
    var h := base / 4;
    assert base + 4 * w == 2 * (2 * h + 2 * w);
  }

  /** One step of the upward walk from used block `j`. */
  lemma StepUp(mem: seq<int>, base: int, head: int, bs: seq<Block>, j: nat)
    requires Represents(mem, base, head, bs) && base % 4 == 0 && j + 1 < |bs| && !bs[j].free
    ensures bs[j].start + 3 <= |mem| && bs[j + 1].start + 3 <= |mem|
    ensures bs[j + 1].free ==>
              && mem[bs[j].start] == base + 4 * bs[j + 1].start
              && mem[bs[j].start] % 2 == 0
              && (j + 2 < |bs| ==> !bs[j + 2].free && mem[bs[j + 1].start + 1] == base + 4 * bs[j + 2].start + 1)
    ensures !bs[j + 1].free ==>
              mem[bs[j].start] == base + 4 * bs[j + 1].start + 1 && mem[bs[j].start] % 2 == 1
  {
    Links(mem, base, head, bs, j);
    Links(mem, base, head, bs, j + 1);
    TagBit(base, bs[j + 1].start);
  }

  /** One step of the downward walk from used block `j`. */
  lemma StepDown(mem: seq<int>, base: int, head: int, bs: seq<Block>, j: nat)
    requires Represents(mem, base, head, bs) && base % 4 == 0 && j < |bs| && !bs[j].free
    ensures bs[j].start + 3 <= |mem|
    ensures 0 < j && !bs[j - 1].free ==>
              mem[bs[j].start + 1] == base + 4 * bs[j - 1].start + 1 && mem[bs[j].start + 1] % 2 == 1
    ensures j == 0 || bs[j - 1].free ==>
              mem[bs[j].start + 1] == Addr(base, bs, LastFree(bs, j)) && mem[bs[j].start + 1] % 2 == 0
    ensures 0 < j && !bs[j - 1].free ==> LastFree(bs, j) == LastFree(bs, j - 1)
  {
    Links(mem, base, head, bs, j);
    if 0 < j {
      TagBit(base, bs[j - 1].start);
    }
  }

  /** What the header of used block `k` and of its free neighbours say. */
  ghost predicate UsedSurroundings(mem: seq<int>, base: int, bs: seq<Block>, k: nat)
    requires k < |bs|
  {
    && 3 <= bs[k].len && bs[k].End() <= |mem|
    && mem[bs[k].start] == Tag(base, bs, k + 1)
    && mem[bs[k].start + 1] == Tag(base, bs, k - 1)
    && (k + 1 < |bs| ==> bs[k + 1].start == bs[k].End() && bs[k + 1].start + 3 <= |mem|)
    && (0 < k ==> bs[k - 1].start + 3 <= bs[k].start)
    && (k + 1 < |bs| && bs[k + 1].free ==>
          && mem[bs[k + 1].start] == Addr(base, bs, NextFree(bs, k + 2))
          && mem[bs[k + 1].start + 1] == Tag(base, bs, k + 2)
          && (k + 2 < |bs| ==> !bs[k + 2].free && bs[k + 1].start + 3 <= bs[k + 2].start && bs[k + 2].start + 3 <= |mem|))
    && (0 < k && bs[k - 1].free ==>
          && mem[bs[k - 1].start] == Addr(base, bs, NextFree(bs, k))
          && mem[bs[k - 1].start + 2] == Tag(base, bs, k - 2)
          && (1 < k ==> !bs[k - 2].free && bs[k - 2].start + 3 <= bs[k - 1].start))
  }

  lemma UsedNeighbours(mem: seq<int>, base: int, head: int, bs: seq<Block>, k: nat)
    requires Represents(mem, base, head, bs) && k < |bs| && !bs[k].free
    ensures UsedSurroundings(mem, base, bs, k)
  {
    assert Linked(mem, base, bs, k);
    assert bs[k].End() <= |mem| by { if k < |bs| - 1 { assert bs[k].End() <= bs[|bs| - 1].start; } }
    if k + 1 < |bs| { assert bs[k].End() == bs[k + 1].start && Linked(mem, base, bs, k + 1); }
    if k + 2 < |bs| { assert bs[k + 1].End() == bs[k + 2].start && Linked(mem, base, bs, k + 2); }
    if 0 < k { assert bs[k - 1].End() == bs[k].start && Linked(mem, base, bs, k - 1); }
    if 1 < k { assert bs[k - 2].End() == bs[k - 1].start; }
  }

  /** The free-list link to the first free block at or above `a`, from block `p` or the head. */
  lemma ListLinkBefore(mem: seq<int>, base: int, head: int, bs: seq<Block>, a: nat, p: int)
    requires Represents(mem, base, head, bs) && a <= |bs| && LastFreeBelow(bs, a, p)
    ensures if 0 <= p then bs[p].start < |mem| && mem[bs[p].start] == Addr(base, bs, NextFree(bs, a))
            else head == Addr(base, bs, NextFree(bs, a))
    ensures 0 <= p < a < |bs| ==> bs[p].start + 3 <= bs[a].start
    ensures 0 <= p < a - 1 && a <= |bs| ==> bs[p].start + 3 <= bs[a - 1].start
  {
    if 0 <= p {
      assert Linked(mem, base, bs, p);
      LastFreeBelowNext(bs, a, p, p + 1);
      if a < |bs| { assert bs[p].End() <= bs[a].start; }
      if p < a - 1 { assert bs[p].End() <= bs[a - 1].start; }
    } else {
      LastFreeBelowNext(bs, a, p, 0);
    }
  }

  lemma ReleaseLinked(m1: seq<int>, base: int, bs: seq<Block>, k: nat)
    requires Coalesced(bs) && k < |bs| && !bs[k].free
    requires var lo, hi := MergeLow(bs, k), MergeHigh(bs, k);
             && bs[lo].start + 3 <= |m1|
             && m1[bs[lo].start] == Addr(base, bs, NextFree(bs, hi))
             && m1[bs[lo].start + 1] == Tag(base, bs, hi)
             && m1[bs[lo].start + 2] == Tag(base, bs, lo - 1)
    ensures Linked(m1, base, Release(bs, k), MergeLow(bs, k))
    ensures Addr(base, Release(bs, k), NextFree(Release(bs, k), MergeLow(bs, k))) == base + 4 * bs[MergeLow(bs, k)].start
  {
    var lo: int, hi: int, t := MergeLow(bs, k), MergeHigh(bs, k), Release(bs, k);
    hide MergeLow, MergeHigh, Coalesced;
    SpliceTags(base, bs, lo, hi, Merged(bs, lo, hi));
  }

  /** Links out of a single spliced block, seen from the old and the new sequence. */
  lemma SpliceTags(base: int, bs: seq<Block>, lo: nat, hi: nat, b: Block)
    requires lo < hi <= |bs|
    ensures var t := Splice(bs, lo, hi, [b]);
            && t[lo] == b
            && Tag(base, t, lo + 1) == Tag(base, bs, hi)
            && Tag(base, t, lo as int - 1) == Tag(base, bs, lo as int - 1)
            && Addr(base, t, NextFree(t, lo + 1)) == Addr(base, bs, NextFree(bs, hi))
  {
    var t := Splice(bs, lo, hi, [b]);
    NextFreeAboveSplice(bs, lo, hi, [b], hi);
    assert hi < |bs| ==> t[lo + 1] == bs[hi];
    var j := NextFree(bs, hi);
    assert j < |bs| ==> t[j - hi + lo + 1] == bs[j];
    if 0 < lo { assert t[lo - 1] == bs[lo - 1]; }
  }

  lemma ReleaseAt(m0: seq<int>, m1: seq<int>, base: int, head: int, head': int,
                  bs: seq<Block>, lo: nat, hi: nat, b: Block, t: seq<Block>, p: int)
    requires Represents(m0, base, head, bs) && lo < hi <= |bs| && t == Splice(bs, lo, hi, [b])
    requires Tiles([b], bs[lo].start, bs[hi - 1].End()) && Coalesced(t) && b.free
    requires LastFreeBelow(bs, lo, p) && WritesOnly(m0, m1, bs, lo, hi, p) && Linked(m1, base, t, lo)
    requires 0 < lo ==> m1[bs[lo - 1].UpLink()] == Tag(base, t, lo)
    requires hi < |bs| ==> m1[bs[hi].UpLink() + 1] == Tag(base, t, lo)
    requires if 0 <= p then m1[bs[p].start] == Addr(base, t, NextFree(t, lo)) && head' == head
             else head' == Addr(base, t, NextFree(t, lo))
    ensures Represents(m1, base, head', t)
    ensures PayloadsKept(m0, m1, bs, lo, hi)
  {
    hide Tiles, Coalesced, FrameBelow, FrameAbove, Frames, Linked, WritesOnly;
    LastFreeBelowNext(bs, lo, p, 0);
    FramesIntro(m0, m1, base, bs, t, lo, hi, lo, p);
    RepresentsSplice(m0, m1, base, head, head', bs, lo, hi, [b], t);
  }

  lemma ReleaseCorrect(m0: seq<int>, m1: seq<int>, base: int, head: int, head': int, bs: seq<Block>, k: nat, p: int)
    requires Represents(m0, base, head, bs) && k < |bs| && !bs[k].free
    requires LastFreeBelow(bs, MergeLow(bs, k), p) && WritesOnly(m0, m1, bs, MergeLow(bs, k), MergeHigh(bs, k), p)
    requires var lo, hi := MergeLow(bs, k), MergeHigh(bs, k);
             && bs[lo].start + 3 <= |m1|
             && m1[bs[lo].start] == Addr(base, bs, NextFree(bs, hi))
             && m1[bs[lo].start + 1] == Tag(base, bs, hi)
             && m1[bs[lo].start + 2] == Tag(base, bs, lo - 1)
             && (0 < lo ==> m1[bs[lo - 1].UpLink()] == base + 4 * bs[lo].start)
             && (hi < |bs| ==> m1[bs[hi].UpLink() + 1] == base + 4 * bs[lo].start)
             && (if 0 <= p then m1[bs[p].start] == base + 4 * bs[lo].start && head' == head
                 else head' == base + 4 * bs[lo].start)
    ensures Represents(m1, base, head', Release(bs, k))
    ensures PayloadsKept(m0, m1, bs, k, k + 1)
  {
    hide Tiles, Coalesced, Linked, AllLinked, WritesOnly;
    var lo, hi, t := MergeLow(bs, k), MergeHigh(bs, k), Release(bs, k);
    MergedTiles(bs, |m0|, k);
    ReleaseLinked(m1, base, bs, k);
    assert t[lo] == Merged(bs, lo, hi);
    ReleaseAt(m0, m1, base, head, head', bs, lo, hi, Merged(bs, lo, hi), t, p);
  }

  lemma AroundUsed(mem: seq<int>, base: int, head: int, bs: seq<Block>, k: nat, p: int)
    requires Represents(mem, base, head, bs) && 0 < base && base % 4 == 0 && k < |bs| && !bs[k].free
    requires p == LastFree(bs, MergeLow(bs, k))
    ensures UsedSurroundings(mem, base, bs, k)
    ensures AroundBlock(mem, base, head, bs, k, p)
  {
    UsedNeighbours(mem, base, head, bs, k);
    ListLinkBefore(mem, base, head, bs, MergeLow(bs, k), p);
    hide *;
    AroundFrom(mem, base, head, bs, k, p);
  }

  ghost predicate AroundBlock(mem: seq<int>, base: int, head: int, bs: seq<Block>, k: nat, p: int)
    requires k < |bs| && -1 <= p < |bs|
  {
    var lo: int, hi := MergeLow(bs, k), MergeHigh(bs, k);
    Around(mem, head, base, bs[k].start,
           if k + 1 < |bs| then bs[k + 1].start else -1, k + 1 < |bs| && bs[k + 1].free,
           if 0 < k then bs[k - 1].start else -1, 0 < k && bs[k - 1].free,
           if 0 <= p then bs[p].start else -1,
           Addr(base, bs, NextFree(bs, hi)), Tag(base, bs, hi), Tag(base, bs, lo - 1))
  }

  lemma MergeBounds(bs: seq<Block>, k: nat)
    requires k < |bs|
    ensures MergeLow(bs, k) <= k < MergeHigh(bs, k) <= |bs|
    ensures -1 <= LastFree(bs, MergeLow(bs, k)) < |bs|
  {
  }

  lemma AroundIs(mem: seq<int>, base: int, head: int, bs: seq<Block>, k: nat, p: int)
    requires k < |bs| && -1 <= p < |bs| && AroundBlock(mem, base, head, bs, k, p) && p == LastFree(bs, MergeLow(bs, k))
    ensures bs[k].start + 3 <= |mem|
    ensures Around(mem, head, base, bs[k].start,
                   if k + 1 < |bs| then bs[k + 1].start else -1, k + 1 < |bs| && bs[k + 1].free,
                   if 0 < k then bs[k - 1].start else -1, 0 < k && bs[k - 1].free,
                   if 0 <= p then bs[p].start else -1,
                   Addr(base, bs, NextFree(bs, MergeHigh(bs, k))), Tag(base, bs, MergeHigh(bs, k)),
                   Tag(base, bs, MergeLow(bs, k) - 1))
    ensures 0 < k || p < 0
    ensures if 0 < k && bs[k - 1].free then MergeLow(bs, k) == k - 1 else MergeLow(bs, k) == k
    ensures Addr(base, bs, LastFree(bs, k)) ==
            if 0 < k && bs[k - 1].free then base + 4 * bs[k - 1].start else if p < 0 then 0 else base + 4 * bs[p].start
  {
  }

  /** The header words of all four cases, block by block. */
  lemma FreedHeader(m0: seq<int>, m1: seq<int>, head: int, head': int, base: int, bs: seq<Block>, k: nat, p: int)
    requires k < |bs| && p == LastFree(bs, MergeLow(bs, k))
    requires var df := 0 < k && bs[k - 1].free;
             FreedWords(m0, m1, head, head', base, bs[k].start, if df then bs[k - 1].start else bs[k].start, df,
                        Addr(base, bs, NextFree(bs, MergeHigh(bs, k))), Tag(base, bs, MergeHigh(bs, k)),
                        Tag(base, bs, MergeLow(bs, k) - 1), if 0 <= p then bs[p].start else -1)
    ensures HeaderFreed(m0, m1, head, head', base, bs, k)
    ensures (if 0 < k && bs[k - 1].free then bs[k - 1].start else bs[k].start) == bs[MergeLow(bs, k)].start
  {
  }

  lemma AroundFrom(mem: seq<int>, base: int, head: int, bs: seq<Block>, k: nat, p: int)
    requires k < |bs| && !bs[k].free && UsedSurroundings(mem, base, bs, k) && 0 < base && base % 4 == 0
    requires -1 <= p < MergeLow(bs, k) && LastFreeBelow(bs, MergeLow(bs, k), p)
    requires if 0 <= p then bs[p].start < |mem| && mem[bs[p].start] == Addr(base, bs, NextFree(bs, MergeLow(bs, k)))
             else head == Addr(base, bs, NextFree(bs, MergeLow(bs, k)))
    requires 0 <= p ==> bs[p].start + 3 <= bs[MergeLow(bs, k)].start
    requires 0 <= p < MergeLow(bs, k) - 1 ==> bs[p].start + 3 <= bs[MergeLow(bs, k) - 1].start
    ensures AroundBlock(mem, base, head, bs, k, p)
  {
    NextFreeSteps(bs, k);
  }

  /** The words of the used blocks on both sides of the merged one. */
  lemma UpDownWords(mem: seq<int>, base: int, bs: seq<Block>, k: nat)
    requires k < |bs| && !bs[k].free && UsedSurroundings(mem, base, bs, k)
    requires 0 < base && base % 4 == 0
    ensures var lo: int, hi := MergeLow(bs, k), MergeHigh(bs, k);
            && bs[lo].start + 3 <= |mem|
            && Tag(base, bs, hi) == (if hi < |bs| then base + 4 * bs[hi].start + 1 else 0)
            && Tag(base, bs, lo - 1) == (if 0 < lo then base + 4 * bs[lo - 1].start + 1 else 0)
            && (hi < |bs| ==> bs[lo].start + 3 <= bs[k].start + 3 <= bs[hi].start && bs[hi].start + 3 <= |mem| && !bs[hi].free)
            && (0 < lo ==> bs[lo - 1].start + 3 <= bs[lo].start && !bs[lo - 1].free)
  {
  }

  ghost predicate HeaderFreed(m0: seq<int>, m1: seq<int>, head: int, head': int, base: int, bs: seq<Block>, k: nat)
    requires k < |bs|
  {
    var lo: int, hi := MergeLow(bs, k), MergeHigh(bs, k);
    var p := LastFree(bs, lo);
    FreedWords(m0, m1, head, head', base, bs[k].start, bs[lo].start, lo < k,
               Addr(base, bs, NextFree(bs, hi)), Tag(base, bs, hi), Tag(base, bs, lo - 1),
               if 0 <= p then bs[p].start else -1)
  }

  lemma HeaderWords(m0: seq<int>, m1: seq<int>, head: int, head': int, base: int, bs: seq<Block>, k: nat)
    requires k < |bs| && HeaderFreed(m0, m1, head, head', base, bs, k)
    ensures var lo: int := MergeLow(bs, k);
            && bs[lo].start + 3 <= |m1|
            && m1[bs[lo].start + 1] == Tag(base, bs, MergeHigh(bs, k))
            && m1[bs[lo].start + 2] == Tag(base, bs, lo - 1)
  {
  }

  /** The words after the links across the seams, at `uw` and `dw`, are redirected too. */
  lemma FinalWords(m0: seq<int>, m1: seq<int>, m2: seq<int>, h0: int, h1: int, base: int, s: nat, ms: nat,
                   below: bool, next: int, up: int, down: int, q: int, uw: int, dw: int)
    requires FreedWords(m0, m1, h0, h1, base, s, ms, below, next, up, down, q)
    requires ChangesOnly(m1, m2, 0, 0, uw, dw, -1)
    requires -1 <= q < |m0| && (uw < 0 || s + 3 <= uw < |m0|) && (0 <= dw ==> dw + 3 <= ms)
    requires (0 <= q ==> q + 3 <= ms) && (0 <= q && 0 <= dw ==> q != dw)
    requires below && 0 <= q ==> m0[q] == base + 4 * ms
    requires below && q < 0 ==> h0 == base + 4 * ms
    ensures ms + 3 <= |m2| == |m0| && m2[ms] == next && m2[ms + 1] == up && m2[ms + 2] == down
    ensures if 0 <= q then m2[q] == base + 4 * ms && h1 == h0 else h1 == base + 4 * ms
    ensures ChangesOnly(m0, m2, ms, s + 3, uw, dw, q)
  {
  }

  lemma FreedThenRejoined(m0: seq<int>, m1: seq<int>, m2: seq<int>, base: int, head: int, head': int,
                          bs: seq<Block>, k: nat, p: int)
    requires Represents(m0, base, head, bs) && k < |bs| && !bs[k].free && 0 < base && base % 4 == 0
    requires p == LastFree(bs, MergeLow(bs, k)) && UsedSurroundings(m0, base, bs, k)
    requires var lo: int, hi := MergeLow(bs, k), MergeHigh(bs, k);
             && HeaderFreed(m0, m1, head, head', base, bs, k)
             && ChangesOnly(m1, m2, 0, 0,
                            if hi < |bs| then bs[hi].start + 1 else -1, if 0 < lo then bs[lo - 1].start else -1, -1)
             && |m2| == |m0|
             && (hi < |bs| && bs[hi].start + 1 < |m2| ==> m2[bs[hi].start + 1] == base + 4 * bs[lo].start)
             && (0 < lo && bs[lo - 1].start < |m2| ==> m2[bs[lo - 1].start] == base + 4 * bs[lo].start)
    ensures Represents(m2, base, head', Release(bs, k))
    ensures PayloadsKept(m0, m2, bs, k, k + 1)
  {
    hide *;
    MergeBounds(bs, k);
    var lo: int, hi := MergeLow(bs, k), MergeHigh(bs, k);
    UpDownWords(m0, base, bs, k);
    LastFreeIs(bs, lo, p);
    ListLinkBefore(m0, base, head, bs, lo, p);
    NextFreeSteps(bs, k);
    MergedRange(m0, base, head, bs, k);
    FreedFrom(m0, m1, head, head', base, bs, k, p);
    FinalWords(m0, m1, m2, head, head', base, bs[k].start, bs[lo].start, lo < k,
               Addr(base, bs, NextFree(bs, hi)), Tag(base, bs, hi), Tag(base, bs, lo - 1),
               if 0 <= p then bs[p].start else -1,
               if hi < |bs| then bs[hi].start + 1 else -1, if 0 < lo then bs[lo - 1].start else -1);
    RangeWidens(m0, m2, bs[lo].start, bs[k].start + 3, bs[hi - 1].End(),
                if hi < |bs| then bs[hi].start + 1 else -1, if 0 < lo then bs[lo - 1].start else -1,
                if 0 <= p then bs[p].start else -1);
    WritesIntro(m0, m2, bs, lo, hi, p);
    ReleaseCorrect(m0, m2, base, head, head', bs, k, p);
  }

  /** The neighbours of a merged block are in use, so their links are their first two words. */
  lemma WritesIntro(m0: seq<int>, m2: seq<int>, bs: seq<Block>, a: nat, b: nat, p: int)
    requires a < b <= |bs| && -1 <= p < a && (0 < a ==> !bs[a - 1].free) && (b < |bs| ==> !bs[b].free)
    requires ChangesOnly(m0, m2, bs[a].start, bs[b - 1].End(), if 0 < a then bs[a - 1].start else -1,
                         if b < |bs| then bs[b].start + 1 else -1, if 0 <= p then bs[p].start else -1)
    ensures WritesOnly(m0, m2, bs, a, b, p)
    ensures (0 < a ==> bs[a - 1].UpLink() == bs[a - 1].start) && (b < |bs| ==> bs[b].UpLink() == bs[b].start)
  {
  }

  lemma LastFreeIs(bs: seq<Block>, a: nat, p: int)
    requires a <= |bs| && p == LastFree(bs, a)
    ensures LastFreeBelow(bs, a, p) && -1 <= p < a
  {
  }

  /** What the header of the merged block was freed from: a free block below is already listed. */
  lemma FreedFrom(m0: seq<int>, m1: seq<int>, head: int, head': int, base: int, bs: seq<Block>, k: nat, p: int)
    requires k < |bs| && HeaderFreed(m0, m1, head, head', base, bs, k) && p == LastFree(bs, MergeLow(bs, k))
    ensures var lo: int, hi := MergeLow(bs, k), MergeHigh(bs, k);
            && FreedWords(m0, m1, head, head', base, bs[k].start, bs[lo].start, lo < k,
                          Addr(base, bs, NextFree(bs, hi)), Tag(base, bs, hi), Tag(base, bs, lo - 1),
                          if 0 <= p then bs[p].start else -1)
            && Addr(base, bs, lo) == base + 4 * bs[lo].start
            && (lo < k ==> bs[lo].free && lo == k - 1)
  {
  }

  lemma RangeWidens(m0: seq<int>, m1: seq<int>, lo: nat, hi: int, hi': int, x: int, y: int, z: int)
    requires ChangesOnly(m0, m1, lo, hi, x, y, z) && hi <= hi'
    ensures ChangesOnly(m0, m1, lo, hi', y, x, z)
  {
  }

  lemma MergedRange(mem: seq<int>, base: int, head: int, bs: seq<Block>, k: nat)
    requires Represents(mem, base, head, bs) && k < |bs| && !bs[k].free
    ensures bs[k].start + 3 <= bs[MergeHigh(bs, k) - 1].End()
  {
    if k + 1 < |bs| { assert bs[k].End() == bs[k + 1].start; }
  }

  lemma NextFreeSteps(bs: seq<Block>, k: nat)
    requires k < |bs| && !bs[k].free
    ensures NextFree(bs, k) == NextFree(bs, k + 1)
    ensures k + 1 < |bs| && bs[k + 1].free ==> NextFree(bs, k) == k + 1
    ensures 0 < k && bs[k - 1].free ==> NextFree(bs, k - 1) == k - 1
  {
  }

  /** What freeing the used block at word `s` must leave: a free header at `ms`, where the
      merged block starts, and a free-list link to it unless that block was free already. */
  ghost predicate FreedWords(m0: seq<int>, m1: seq<int>, h0: int, h1: int, base: int, s: nat, ms: nat,
                             below: bool, next: int, up: int, down: int, q: int)
  {
    && ms + 3 <= s + 3 <= |m0| == |m1|
    && m1[ms] == next && m1[ms + 1] == up && m1[ms + 2] == down
    && (if below then h1 == h0
        else if 0 <= q < |m1| then m1[q] == base + 4 * ms && h1 == h0
        else h1 == base + 4 * ms)
    && ChangesOnly(m0, m1, ms, s + 3, if below then -1 else q, -1, -1)
  }

  /** The words around the used block at `s` that the cases of lines 263-371 read.
      `u`/`d`: header of the block above/below, or -1; `uf`/`df`: it is free;
      `q`: free block before it in the list, or -1; `next`, `up`, `down`: what the merged
      header must hold. */
  ghost predicate Around(m: seq<int>, head: int, base: int, s: nat, u: int, uf: bool, d: int, df: bool,
                         q: int, next: int, up: int, down: int)
  {
    && 0 < base && base % 4 == 0 && s + 3 <= |m|
    && -1 <= u && -1 <= d && -1 <= q
    && (u < 0 || (s + 3 <= u && u + 3 <= |m|)) && (d < 0 || d + 3 <= s) && (q < 0 || q + 3 <= s)
    && (uf ==> 0 <= u) && (df ==> 0 <= d) && (d < 0 || q < 0 || df || q + 3 <= d)
    && m[s] == (if u < 0 then 0 else base + 4 * u + (if uf then 0 else 1))
    && m[s + 1] == (if d < 0 then 0 else base + 4 * d + (if df then 0 else 1))
    && (if uf then m[u] == next && m[u + 1] == up else up == m[s])
    && (if df then m[d + 2] == down else down == m[s + 1])
    && (var link := if uf then base + 4 * u else next;
        if df then m[d] == link else if 0 <= q then m[q] == link else head == link)
    && (u < 0 ==> next == 0) && (d < 0 ==> q < 0)
  }

  /** Bit 0 of the links around a used block tells which case applies. */
  lemma Parity(m: seq<int>, head: int, base: int, s: nat, u: int, uf: bool, d: int, df: bool,
               q: int, next: int, up: int, down: int)
    requires Around(m, head, base, s, u, uf, d, df, q, next, up, down)
    ensures m[s] % 2 == 0 <==> u < 0 || uf
    ensures m[s + 1] % 2 == 0 <==> d < 0 || df
  {
    TagBit(base, u);
    TagBit(base, d);
  }

  class Heap {
    const mem: array<int>
    const base: int
    var FMBlist: int
    ghost var blocks: seq<Block>

    ghost predicate Valid()
      reads this, mem
    {
      && 0 < base && base % 4 == 0 && base + 4 * mem.Length < U32
      && Represents(mem[..], base, FMBlist, blocks)
    }

    /** The word at byte address `a`. */
    function Ix(a: int): int {
      (a - base) / 4
    }

    constructor (words: nat, base: int)
      requires 3 <= words && 0 < base && base % 4 == 0 && base + 4 * words < U32
      ensures Valid() && fresh(mem)
      ensures this.base == base && mem.Length == words
      ensures blocks == [Block(0, words, true)]
    {
      this.base := base;
      mem := new int[words];
      FMBlist := base;
      blocks := [Block(0, words, true)];
      new;
      mem[0] := 0;
      mem[1] := 0;
      mem[2] := 0;
      assert NextFree(blocks, 1) == 1;
    }

    /** Lines 83-95 and 163-165: walk the free list to the first block with room. */
    method FindFit(need: nat) returns (freeMB: int, preFMB: int, freeSize: int, ghost k: nat, ghost pk: int)
      requires Valid()
      ensures k == FirstFit(blocks, need, 0) && freeMB == Addr(base, blocks, k)
      ensures LastFreeBelow(blocks, k, pk) && preFMB == Addr(base, blocks, pk)
      ensures k < |blocks| ==> freeSize == 4 * blocks[k].len
    {
      hide WellFormed, Tiles, Coalesced, AllLinked, Linked;
      var endAddr := base + 4 * mem.Length;
      freeMB, preFMB, freeSize := FMBlist, 0, 0;
      k, pk := NextFree(blocks, 0), -1;
      ghost var m0 := mem[..];
      while freeMB != 0
        invariant mem[..] == m0
        invariant k <= |blocks| && freeMB == Addr(base, blocks, k) && (k < |blocks| ==> blocks[k].free)
        invariant LastFreeBelow(blocks, k, pk) && preFMB == Addr(base, blocks, pk)
        invariant forall i | 0 <= i < k :: !(blocks[i].free && need <= 4 * blocks[i].len)
        decreases |blocks| - k
      {
        Neighbours(m0, base, FMBlist, blocks, k, pk);
        freeSize := if mem[Ix(freeMB) + 1] == 0 then endAddr - freeMB else mem[Ix(freeMB) + 1] - 1 - freeMB;
        if need <= freeSize {
          return;
        }
        preFMB, pk := freeMB, k;
        freeMB, k := mem[Ix(freeMB)], NextFree(blocks, k + 1);
      }
    }

    /** Lines 64-168. */
    method CoKmalloc(size: nat) returns (p: int)
      requires Valid() && size <= 0xFFFF_FFF4
      modifies this, mem
      ensures Valid()
      ensures var k := FirstFit(old(blocks), Rounded(size), 0);
              if size == 0 || k == |old(blocks)|
              then p == 0 && blocks == old(blocks) && mem[..] == old(mem[..])
              else p == base + 4 * old(blocks)[k].start + 8 && blocks == Allocate(old(blocks), k, Rounded(size) / 4)
      ensures PayloadsKept(old(mem[..]), mem[..], old(blocks), 0, 0)
    {
      if size == 0 {
        return 0;
      }
      RoundingIsExact(size);
      var need := Rounded(size);
      var freeMB, preFMB, freeSize, k, pk := FindFit(need);
      if freeMB == 0 {
        return 0;
      }
      p := Take(freeMB, preFMB, need, freeSize, k, pk);
    }

    /** Lines 97-161: assign the chosen free block `k`. */
    method Take(freeMB: int, preFMB: int, need: nat, freeSize: int, ghost k: nat, ghost pk: int) returns (p: int)
      requires Valid() && k < |blocks| && blocks[k].free && freeMB == Addr(base, blocks, k)
      requires LastFreeBelow(blocks, k, pk) && preFMB == Addr(base, blocks, pk)
      requires need % 4 == 0 && 12 <= need <= freeSize == 4 * blocks[k].len
      modifies this, mem
      ensures Valid()
      ensures p == freeMB + 8 && blocks == Allocate(old(blocks), k, need / 4)
      ensures PayloadsKept(old(mem[..]), mem[..], old(blocks), 0, 0)
    {
      hide WellFormed, Tiles, Coalesced, AllLinked, Linked, LastFreeBelow;
      ghost var bs, m0, h0 := blocks, mem[..], FMBlist;
      Neighbours(m0, base, h0, bs, k, pk);
      ghost var s, len := bs[k].start, bs[k].len;
      ghost var words: nat := need / 4;
      ghost var u := if k + 1 < |bs| then bs[k + 1].start else -1;
      ghost var d := if 0 < k then bs[k - 1].start else -1;
      ghost var q := if 0 <= pk then bs[pk].start else -1;
      p := freeMB + 8;
      Assign(freeMB, preFMB, need, freeSize, s, len, u, d, q);
      ghost var m1 := mem[..];
      hide AllocationWords, ChangesOnly;
      AllocateCorrect(m0, m1, base, h0, FMBlist, bs, k, words, pk);
      blocks := Allocate(bs, k, words);
      assert mem[..] == m1;
    }

    /** Lines 103-158 on words: take `need` bytes of the free block whose header is at word
        `s`.  Words `u`, `d` and `q` start the used block above, the used block below and
        the free block before it in the list; each is -1 when there is none. */
    method Assign(freeMB: int, preFMB: int, need: nat, freeSize: int,
                  ghost s: nat, ghost len: nat, ghost u: int, ghost d: int, ghost q: int)
      requires 0 < base && need % 4 == 0 && 12 <= need <= freeSize == 4 * len && s + len <= mem.Length
      requires freeMB == base + 4 * s && preFMB == (if q < 0 then 0 else base + 4 * q)
      requires mem[s + 1] == (if u < 0 then 0 else base + 4 * u + 1)
      requires mem[s + 2] == (if d < 0 then 0 else base + 4 * d + 1)
      requires u < 0 || (u == s + len && u + 3 <= mem.Length)
      requires (d < 0 || d + 3 <= s) && (q < 0 || q + 3 <= s) && (d < 0 || q < 0 || q + 3 <= d)
      modifies this`FMBlist, mem
      ensures AllocationWords(old(mem[..]), mem[..], base, s, len, need / 4)
      ensures 0 <= d ==> mem[d] == base + 4 * s + 1
      ensures 0 <= u ==> mem[u + 1] == if len - need / 4 < 3 then base + 4 * s + 1 else base + 4 * (s + need / 4)
      ensures if 0 <= q then mem[q] == RestLink(old(mem[..]), base, s, len, need / 4) && FMBlist == old(FMBlist)
              else FMBlist == RestLink(old(mem[..]), base, s, len, need / 4)
      ensures ChangesOnly(old(mem[..]), mem[..], s, s + len, d, if u < 0 then -1 else u + 1, q)
    {
      ghost var words: nat := need / 4;
      if freeSize - need < 12 {
        LinkAround(freeMB, preFMB, s, len, u, q);
        TakeHeader(freeMB, mem[Ix(freeMB) + 1], s, d);
      } else {
        var newFMB := freeMB + need;
        LinkRest(freeMB, preFMB, newFMB, s, len, words, u, q);
        TakeHeader(freeMB, newFMB, s, d);
      }
    }

    /** Lines 107-120: drop the free block whose header is at word `s` from the free list and
        tell the used block above it, at `u`, that it is now in use.  `q` is the header of the
        free block before it in the list; `u` and `q` are -1 when there is no such block. */
    method LinkAround(freeMB: int, preFMB: int, ghost s: nat, ghost len: nat, ghost u: int, ghost q: int)
      requires 0 < base && 3 <= len && s + len <= mem.Length
      requires freeMB == base + 4 * s && preFMB == (if q < 0 then 0 else base + 4 * q)
      requires mem[s + 1] == (if u < 0 then 0 else base + 4 * u + 1)
      requires (u < 0 || (u == s + len && u + 3 <= mem.Length)) && (q < 0 || q + 3 <= s)
      modifies this`FMBlist, mem
      ensures 0 <= u ==> mem[u + 1] == base + 4 * s + 1
      ensures if 0 <= q then mem[q] == old(mem[s]) && FMBlist == old(FMBlist) else FMBlist == old(mem[s])
      ensures ChangesOnly(old(mem[..]), mem[..], 0, 0, if u < 0 then -1 else u + 1, q, q)
    {
      if preFMB != 0 {
        mem[Ix(preFMB)] := mem[Ix(freeMB)];
      } else {
        FMBlist := mem[Ix(freeMB)];
      }
      if mem[Ix(freeMB) + 1] != 0 {
        var tmpUMB := mem[Ix(freeMB) + 1] - 1;
        mem[Ix(tmpUMB) + 1] := freeMB + 1;
      }
    }

    /** Lines 130-148: put the rest of the free block at `s`, from `newFMB` on, in its place. */
    method LinkRest(freeMB: int, preFMB: int, newFMB: int,
                    ghost s: nat, ghost len: nat, ghost w: nat, ghost u: int, ghost q: int)
      requires 0 < base && 3 <= w && w + 3 <= len && s + len <= mem.Length
      requires freeMB == base + 4 * s && newFMB == freeMB + 4 * w && preFMB == (if q < 0 then 0 else base + 4 * q)
      requires mem[s + 1] == (if u < 0 then 0 else base + 4 * u + 1)
      requires (u < 0 || (u == s + len && u + 3 <= mem.Length)) && (q < 0 || q + 3 <= s)
      modifies this`FMBlist, mem
      ensures mem[s + w] == old(mem[s]) && mem[s + w + 1] == old(mem[s + 1]) && mem[s + w + 2] == base + 4 * s + 1
      ensures 0 <= u ==> mem[u + 1] == newFMB
      ensures if 0 <= q then mem[q] == newFMB && FMBlist == old(FMBlist) else FMBlist == newFMB
      ensures ChangesOnly(old(mem[..]), mem[..], s + w, s + len, if u < 0 then -1 else u + 1, q, q)
    {
      if preFMB != 0 {
        mem[Ix(preFMB)] := newFMB;
      } else {
        FMBlist := newFMB;
      }
      mem[Ix(newFMB) + 2] := freeMB + 1;
      mem[Ix(newFMB) + 1] := mem[Ix(freeMB) + 1];
      mem[Ix(newFMB)] := mem[Ix(freeMB)];
      if mem[Ix(freeMB) + 1] != 0 {
        var tmpUMB := mem[Ix(freeMB) + 1] - 1;
        mem[Ix(tmpUMB) + 1] := newFMB;
      }
    }

    /** Lines 122-123 or 150-151, then 154-158: turn the header at `s` into that of a used
        block, and tell the used block below it, at `d`. */
    method TakeHeader(usedMB: int, nextMB: int, ghost s: nat, ghost d: int)
      requires 0 < base && usedMB == base + 4 * s && s + 3 <= mem.Length
      requires mem[s + 2] == (if d < 0 then 0 else base + 4 * d + 1) && (d < 0 || d + 3 <= s)
      modifies mem
      ensures mem[s] == nextMB && mem[s + 1] == old(mem[s + 2]) && (0 <= d ==> mem[d] == usedMB + 1)
      ensures ChangesOnly(old(mem[..]), mem[..], s, s + 2, d, d, d)
    {
      mem[Ix(usedMB)] := nextMB;
      mem[Ix(usedMB) + 1] := mem[Ix(usedMB) + 2];
      if mem[Ix(usedMB) + 2] != 0 {
        var tmpUMB := mem[Ix(usedMB) + 2] - 1;
        mem[Ix(tmpUMB)] := usedMB + 1;
      }
    }

    /** Lines 182-384, for null, an address outside the heap, or a live pointer. */
    method CoKfree(memBuf: int, ghost k: nat)
      requires Valid()
      requires memBuf == 0 || memBuf < base || base + 4 * mem.Length < memBuf
            || (k < |blocks| && !blocks[k].free && memBuf == base + 4 * blocks[k].start + 8)
      modifies this, mem
      ensures Valid()
      ensures if memBuf == 0 || memBuf < base || base + 4 * mem.Length < memBuf
              then blocks == old(blocks) && mem[..] == old(mem[..])
              else blocks == Release(old(blocks), k) && PayloadsKept(old(mem[..]), mem[..], old(blocks), k, k + 1)
    {
      if memBuf == 0 {
        return;
      }
      var usedMB := memBuf - 8;
      if memBuf < base || base + 4 * mem.Length < memBuf {
        return;
      }
      WalkToBlock(usedMB, k);
      FreeBlock(usedMB, k);
    }

    /** Lines 211-259: from the first free block, walk down or up to the block itself. */
    method WalkToBlock(usedMB: int, ghost k: nat)
      requires Valid() && k < |blocks| && !blocks[k].free && usedMB == base + 4 * blocks[k].start
    {
      hide WellFormed, Tiles, Coalesced, AllLinked, Linked;
      ghost var m0 := mem[..];
      ghost var f := NextFree(blocks, 0);
      WalkOrder(m0, base, FMBlist, blocks, k);
      if usedMB < FMBlist {
        Links(m0, base, FMBlist, blocks, f);
        WalkDown(mem[Ix(FMBlist) + 2] - 1, usedMB, f - 1, k);
      } else if FMBlist == 0 {
        WalkUp(base, usedMB, 0, k);
      } else {
        Links(m0, base, FMBlist, blocks, f);
        WalkUp(mem[Ix(FMBlist) + 1] - 1, usedMB, f + 1, k);
      }
    }

    method WalkDown(first: int, usedMB: int, ghost j0: int, ghost k: nat)
      requires Valid() && k <= j0 < NextFree(blocks, 0)
      requires first == base + 4 * blocks[j0].start && usedMB == base + 4 * blocks[k].start
    {
      ghost var m0, bs := mem[..], blocks;
      ghost var j := j0;
      hide *;
      var preUMB := first;
      while preUMB != usedMB
        invariant k <= j <= j0 && preUMB == base + 4 * bs[j].start
        decreases j - k
      {
        assert mem[..] == m0;
        StepDown(m0, base, FMBlist, bs, j);
        preUMB := mem[(preUMB - base) / 4 + 1] - 1;
        j := j - 1;
      }
    }

    method WalkUp(first: int, usedMB: int, ghost j0: nat, ghost k: nat)
      requires Valid() && j0 <= k < |blocks| && !blocks[j0].free && !blocks[k].free
      requires first == base + 4 * blocks[j0].start && usedMB == base + 4 * blocks[k].start
    {
      ghost var m0, bs := mem[..], blocks;
      ghost var j := j0;
      hide *;
      var nextUMB := first;
      while nextUMB != usedMB
        invariant j <= k && !bs[j].free && nextUMB == base + 4 * bs[j].start
        decreases k - j
      {
        assert mem[..] == m0;
        StepUp(m0, base, FMBlist, bs, j);
        if mem[(nextUMB - base) / 4] % 2 == 0 {
          var nextFMB := mem[(nextUMB - base) / 4];
          nextUMB := mem[(nextFMB - base) / 4 + 1] - 1;
          j := j + 2;
        } else {
          nextUMB := mem[(nextUMB - base) / 4] - 1;
          j := j + 1;
        }
      }
    }

    /** Lines 263-383: free the used block `k`. */
    method FreeBlock(usedMB: int, ghost k: nat)
      requires Valid() && k < |blocks| && !blocks[k].free && usedMB == base + 4 * blocks[k].start
      modifies this, mem
      ensures Valid()
      ensures blocks == Release(old(blocks), k) && PayloadsKept(old(mem[..]), mem[..], old(blocks), k, k + 1)
    {
      hide *;
      Shape();
      ghost var bs, m0, h0 := blocks, mem[..], FMBlist;
      MergeBounds(bs, k);
      ghost var lo: int, hi := MergeLow(bs, k), MergeHigh(bs, k);
      ghost var p := LastFree(bs, lo);
      AroundUsed(m0, base, h0, bs, k, p);
      UpDownWords(m0, base, bs, k);
      var curFMB := FreeHeader(usedMB, k);
      ghost var m1 := mem[..];
      HeaderWords(m0, m1, h0, FMBlist, base, bs, k);
      if hi < |bs| {
        IxOf(bs[hi].start);
      }
      if 0 < lo {
        IxOf(bs[lo - 1].start);
      }
      Rejoin(curFMB, bs[lo].start, Tag(base, bs, hi), Tag(base, bs, lo - 1));
      ghost var m2 := mem[..];
      FreedThenRejoined(m0, m1, m2, base, h0, FMBlist, bs, k, p);
      blocks := Release(bs, k);
      assert mem[..] == m2;
      Reformed();
    }

    lemma Shape()
      requires Valid()
      ensures 0 < base && base % 4 == 0 && base + 4 * mem.Length < U32 && Represents(mem[..], base, FMBlist, blocks)
    {
    }

    lemma Reformed()
      requires 0 < base && base % 4 == 0 && base + 4 * mem.Length < U32 && Represents(mem[..], base, FMBlist, blocks)
      ensures Valid()
    {
    }

    lemma IxOf(w: int)
      ensures Ix(base + 4 * w) == w
    {
    }

    /** Lines 263-371: the four cases. */
    method FreeHeader(usedMB: int, ghost k: nat) returns (curFMB: int)
      requires Valid() && k < |blocks| && !blocks[k].free && usedMB == base + 4 * blocks[k].start
      modifies this`FMBlist, mem
      ensures curFMB == base + 4 * blocks[MergeLow(blocks, k)].start
      ensures HeaderFreed(old(mem[..]), mem[..], old(FMBlist), FMBlist, base, blocks, k)
    {
      hide *;
      ghost var bs, m0, h0 := blocks, mem[..], FMBlist;
      Shape();
      MergeBounds(bs, k);
      ghost var p := LastFree(bs, MergeLow(bs, k));
      AroundUsed(m0, base, FMBlist, bs, k, p);
      ghost var s := bs[k].start;
      ghost var u := if k + 1 < |bs| then bs[k + 1].start else -1;
      ghost var d := if 0 < k then bs[k - 1].start else -1;
      ghost var uf, df := k + 1 < |bs| && bs[k + 1].free, 0 < k && bs[k - 1].free;
      ghost var q := if 0 <= p then bs[p].start else -1;
      ghost var next, up, down := Addr(base, bs, NextFree(bs, MergeHigh(bs, k))), Tag(base, bs, MergeHigh(bs, k)),
                                  Tag(base, bs, MergeLow(bs, k) - 1);
      AroundIs(m0, base, FMBlist, bs, k, p);
      Parity(m0, FMBlist, base, s, u, uf, d, df, q, next, up, down);
      assert Ix(usedMB) == s by { IxOf(s); }
      if mem[Ix(usedMB)] % 2 == 0 && mem[Ix(usedMB) + 1] % 2 == 0 {
        curFMB := JoinBoth(usedMB, s, u, uf, d, df, q, next, up, down);
      } else if mem[Ix(usedMB) + 1] % 2 == 0 {
        curFMB := JoinBelow(usedMB, s, u, uf, d, df, q, next, up, down);
      } else if mem[Ix(usedMB)] % 2 == 0 {
        var preFMB := GetPreFMB(usedMB, k);
        curFMB := JoinAbove(usedMB, preFMB, s, u, uf, d, df, q, next, up, down);
      } else {
        var preFMB := GetPreFMB(usedMB, k);
        curFMB := InsertBetween(usedMB, preFMB, s, u, uf, d, df, q, next, up, down);
      }
      FreedHeader(m0, mem[..], h0, FMBlist, base, bs, k, p);
    }

    /** Lines 398-407. */
    method GetPreFMB(usedMB: int, ghost k: nat) returns (preFMB: int)
      requires Valid() && k < |blocks| && !blocks[k].free && usedMB == base + 4 * blocks[k].start
      ensures preFMB == Addr(base, blocks, LastFree(blocks, k))
    {
      ghost var m0, bs := mem[..], blocks;
      ghost var j := k;
      hide *;
      var preUMB := usedMB;
      StepDown(m0, base, FMBlist, bs, j);
      while mem[(preUMB - base) / 4 + 1] % 2 == 1
        invariant mem[..] == m0
        invariant 0 <= j <= k && !bs[j].free && preUMB == base + 4 * bs[j].start
        invariant bs[j].start + 3 <= |m0| && LastFree(bs, j) == LastFree(bs, k)
        decreases j
      {
        StepDown(m0, base, FMBlist, bs, j);
        preUMB := mem[(preUMB - base) / 4 + 1] - 1;
        j := j - 1;
        StepDown(m0, base, FMBlist, bs, j);
      }
      StepDown(m0, base, FMBlist, bs, j);
      preFMB := mem[(preUMB - base) / 4 + 1];
    }

    /** Lines 265-299: no used block on either side. */
    method JoinBoth(usedMB: int, ghost s: nat, ghost u: int, ghost uf: bool, ghost d: int, ghost df: bool,
                    ghost q: int, ghost next: int, ghost up: int, ghost down: int)
      returns (curFMB: int)
      requires Around(mem[..], FMBlist, base, s, u, uf, d, df, q, next, up, down) && usedMB == base + 4 * s
      requires (u < 0 || uf) && (d < 0 || df)
      modifies this`FMBlist, mem
      ensures curFMB == base + 4 * (if df then d else s)
      ensures FreedWords(old(mem[..]), mem[..], old(FMBlist), FMBlist, base, s, if df then d else s, df, next, up, down, q)
    {
      if mem[Ix(usedMB)] == 0 && mem[Ix(usedMB) + 1] == 0 {
        curFMB := usedMB;
        mem[Ix(curFMB)] := 0;
        mem[Ix(curFMB) + 1] := 0;
        mem[Ix(curFMB) + 2] := 0;
        FMBlist := curFMB;
      } else if mem[Ix(usedMB) + 1] == 0 {
        curFMB := usedMB;
        var nextFMB := mem[Ix(usedMB)];
        mem[Ix(curFMB)] := mem[Ix(nextFMB)];
        mem[Ix(curFMB) + 1] := mem[Ix(nextFMB) + 1];
        mem[Ix(curFMB) + 2] := 0;
        FMBlist := curFMB;
      } else if mem[Ix(usedMB)] == 0 {
        curFMB := mem[Ix(usedMB) + 1];
        mem[Ix(curFMB)] := 0;
        mem[Ix(curFMB) + 1] := 0;
      } else {
        var nextFMB := mem[Ix(usedMB)];
        curFMB := mem[Ix(usedMB) + 1];
        mem[Ix(curFMB)] := mem[Ix(nextFMB)];
        mem[Ix(curFMB) + 1] := mem[Ix(nextFMB) + 1];
      }
    }

    /** Lines 303-318: a used block above, none below. */
    method JoinBelow(usedMB: int, ghost s: nat, ghost u: int, ghost uf: bool, ghost d: int, ghost df: bool,
                     ghost q: int, ghost next: int, ghost up: int, ghost down: int)
      returns (curFMB: int)
      requires Around(mem[..], FMBlist, base, s, u, uf, d, df, q, next, up, down) && usedMB == base + 4 * s
      requires 0 <= u && !uf && (d < 0 || df)
      modifies this`FMBlist, mem
      ensures curFMB == base + 4 * (if df then d else s)
      ensures FreedWords(old(mem[..]), mem[..], old(FMBlist), FMBlist, base, s, if df then d else s, df, next, up, down, q)
    {
      if mem[Ix(usedMB) + 1] == 0 {
        curFMB := usedMB;
        var nextUMB := mem[Ix(usedMB)];
        mem[Ix(curFMB) + 1] := nextUMB;
        mem[Ix(curFMB) + 2] := 0;
        mem[Ix(curFMB)] := FMBlist;
        FMBlist := curFMB;
      } else {
        curFMB := mem[Ix(usedMB) + 1];
        var nextUMB := mem[Ix(usedMB)];
        mem[Ix(curFMB) + 1] := nextUMB;
      }
    }

    /** Lines 323-348: a used block below, none above. */
    method JoinAbove(usedMB: int, preFMB: int, ghost s: nat, ghost u: int, ghost uf: bool, ghost d: int, ghost df: bool,
                     ghost q: int, ghost next: int, ghost up: int, ghost down: int)
      returns (curFMB: int)
      requires Around(mem[..], FMBlist, base, s, u, uf, d, df, q, next, up, down) && usedMB == base + 4 * s
      requires (u < 0 || uf) && 0 <= d && !df
      requires preFMB == if q < 0 then 0 else base + 4 * q
      modifies this`FMBlist, mem
      ensures curFMB == base + 4 * s
      ensures FreedWords(old(mem[..]), mem[..], old(FMBlist), FMBlist, base, s, s, df, next, up, down, q)
    {
      var preUMB := mem[Ix(usedMB) + 1];
      curFMB := usedMB;
      var nextFMB;
      if preFMB == 0 {
        nextFMB := FMBlist;
        FMBlist := curFMB;
      } else {
        nextFMB := mem[Ix(preFMB)];
        mem[Ix(preFMB)] := curFMB;
      }
      if nextFMB == 0 {
        mem[Ix(curFMB) + 2] := preUMB;
        mem[Ix(curFMB) + 1] := 0;
        mem[Ix(curFMB)] := 0;
      } else {
        mem[Ix(curFMB) + 2] := preUMB;
        mem[Ix(curFMB) + 1] := mem[Ix(nextFMB) + 1];
        mem[Ix(curFMB)] := mem[Ix(nextFMB)];
      }
    }

    /** Lines 352-370: a used block on both sides. */
    method InsertBetween(usedMB: int, preFMB: int, ghost s: nat, ghost u: int, ghost uf: bool, ghost d: int, ghost df: bool,
                         ghost q: int, ghost next: int, ghost up: int, ghost down: int)
      returns (curFMB: int)
      requires Around(mem[..], FMBlist, base, s, u, uf, d, df, q, next, up, down) && usedMB == base + 4 * s
      requires 0 <= u && !uf && 0 <= d && !df
      requires preFMB == if q < 0 then 0 else base + 4 * q
      modifies this`FMBlist, mem
      ensures curFMB == base + 4 * s
      ensures FreedWords(old(mem[..]), mem[..], old(FMBlist), FMBlist, base, s, s, df, next, up, down, q)
    {
      curFMB := usedMB;
      var preUMB := mem[Ix(usedMB) + 1];
      var nextUMB := mem[Ix(usedMB)];
      var nextFMB;
      if preFMB == 0 {
        nextFMB := FMBlist;
        FMBlist := curFMB;
      } else {
        nextFMB := mem[Ix(preFMB)];
        mem[Ix(preFMB)] := curFMB;
      }
      mem[Ix(curFMB) + 2] := preUMB;
      mem[Ix(curFMB) + 1] := nextUMB;
      mem[Ix(curFMB)] := nextFMB;
    }

    /** Lines 373-382: tell the used blocks on both sides that their neighbour is free. */
    method Rejoin(curFMB: int, ghost ms: nat, ghost up: int, ghost down: int)
      requires 0 < base && base % 4 == 0 && curFMB == base + 4 * ms && ms + 3 <= mem.Length
      requires mem[ms + 1] == up && mem[ms + 2] == down
      requires up == 0 || ((up - 1 - base) % 4 == 0 && ms + 3 <= Ix(up - 1) && Ix(up - 1) + 3 <= mem.Length)
      requires down == 0 || ((down - 1 - base) % 4 == 0 && 0 <= Ix(down - 1) && Ix(down - 1) + 3 <= ms)
      modifies mem
      ensures up != 0 ==> mem[Ix(up - 1) + 1] == curFMB
      ensures down != 0 ==> mem[Ix(down - 1)] == curFMB
      ensures ChangesOnly(old(mem[..]), mem[..], 0, 0, if up == 0 then -1 else Ix(up - 1) + 1, if down == 0 then -1 else Ix(down - 1), -1)
    {
      if mem[Ix(curFMB) + 2] != 0 {
        var preUMB := mem[Ix(curFMB) + 2] - 1;
        mem[Ix(preUMB)] := curFMB;
      }
      if mem[Ix(curFMB) + 1] != 0 {
        var nextUMB := mem[Ix(curFMB) + 1] - 1;
        mem[Ix(nextUMB) + 1] := curFMB;
      }
    }
  }
}
