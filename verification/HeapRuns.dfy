/** What holds over every run of allocations and releases. */
module HeapRuns {
  import opened Lists
  import opened HeapBlocks
  import opened KernelHeap

  function Used(bs: seq<Block>): set<Block> {
    set b | b in bs && !b.free
  }

  /** No word a caller may use in `b` is one a caller may use in `c`. */
  ghost predicate Disjoint(b: Block, c: Block) {
    forall w: int :: InPayload(b, w) ==> !InPayload(c, w)
  }

  lemma AllocateKeepsForm(bs: seq<Block>, n: nat, k: nat, words: nat)
    requires WellFormed(bs, n) && k < |bs| && bs[k].free && 3 <= words <= bs[k].len
    ensures WellFormed(Allocate(bs, k, words), n)
  {
    CarvedTiles(bs, n, k, words);
    TilesSplice(bs, n, k, k + 1, Carved(bs[k], words));
  }

  lemma ReleaseKeepsForm(bs: seq<Block>, n: nat, k: nat)
    requires WellFormed(bs, n) && k < |bs| && !bs[k].free
    ensures WellFormed(Release(bs, k), n)
  {
    var lo, hi := MergeLow(bs, k), MergeHigh(bs, k);
    MergedTiles(bs, n, k);
    TilesSplice(bs, n, lo, hi, [Merged(bs, lo, hi)]);
  }

  lemma SpliceMembers(bs: seq<Block>, a: nat, b: nat, mid: seq<Block>, x: Block)
    requires a <= b <= |bs|
    ensures x in Splice(bs, a, b, mid) <==> x in bs[..a] || x in mid || x in bs[b..]
    ensures x in bs <==> x in bs[..a] || x in bs[a..b] || x in bs[b..]
  {
    assert bs == bs[..a] + bs[a..b] + bs[b..];
  }

  lemma DistinctBlocks(bs: seq<Block>, n: nat, i: nat, j: nat)
    requires Tiles(bs, 0, n) && i < |bs| && j < |bs| && i != j
    ensures bs[i].start != bs[j].start
    ensures Disjoint(bs[i], bs[j])
  {
    if i < j { assert bs[i].End() <= bs[j].start; } else { assert bs[j].End() <= bs[i].start; }
  }

  /** An allocation adds exactly one used block, which starts where its free block did. */
  lemma AllocateUsed(bs: seq<Block>, n: nat, k: nat, words: nat)
    requires WellFormed(bs, n) && k < |bs| && bs[k].free && 3 <= words <= bs[k].len
    ensures Used(Allocate(bs, k, words)) == Used(bs) + {Carved(bs[k], words)[0]}
    ensures Carved(bs[k], words)[0] !in Used(bs)
  {
    var t, mid := Allocate(bs, k, words), Carved(bs[k], words);
    forall x: Block ensures x in Used(t) <==> x in Used(bs) || x == mid[0] {
      SpliceMembers(bs, k, k + 1, mid, x);
      assert bs[k..k + 1] == [bs[k]];
    }
    forall i | 0 <= i < |bs| ensures bs[i] != mid[0] {
      if i != k { DistinctBlocks(bs, n, i, k); }
    }
  }

  /** A release removes exactly one used block. */
  lemma ReleaseUsed(bs: seq<Block>, n: nat, k: nat)
    requires WellFormed(bs, n) && k < |bs| && !bs[k].free
    ensures Used(Release(bs, k)) == Used(bs) - {bs[k]}
  {
    var lo, hi := MergeLow(bs, k), MergeHigh(bs, k);
    var t, mid := Release(bs, k), [Merged(bs, lo, hi)];
    forall i | 0 <= i < |bs| && i != k ensures bs[i] != bs[k] {
      DistinctBlocks(bs, n, i, k);
    }
    hide WellFormed;
    forall x: Block ensures x in Used(t) <==> x in Used(bs) && x != bs[k] {
      SpliceMembers(bs, lo, hi, mid, x);
      assert x in bs[lo..hi] && !x.free ==> x == bs[k];
    }
  }

  lemma Apart(bs: seq<Block>, i: nat)
    requires Coalesced(bs) && i + 1 < |bs|
    ensures !(bs[i].free && bs[i + 1].free)
  {
  }

  /** When nothing is live the heap is the single free block it started as. */
  lemma NothingLive(bs: seq<Block>, n: nat)
    requires WellFormed(bs, n) && Used(bs) == {}
    ensures bs == [Block(0, n, true)]
  {
    forall i | 0 <= i < |bs| ensures bs[i].free {
      assert bs[i] in bs && bs[i] !in Used(bs);
    }
    if 1 < |bs| { Apart(bs, 0); }
  }

  /** Position of a block. */
  function IndexOf(bs: seq<Block>, b: Block): (k: nat)
    requires b in bs
    ensures k < |bs| && bs[k] == b
  {
    if bs[0] == b then 0 else 1 + IndexOf(bs[1..], b)
  }

  /** The whole words a request takes, header included. */
  function Words(size: nat): (w: nat)
    requires 0 < size <= 0xFFFF_FFF4
    ensures 3 <= w && size + 8 <= 4 * w < size + 12 && 4 * w == Rounded(size)
  {
    RoundingIsExact(size);
    Rounded(size) / 4
  }

  datatype Op = Malloc(size: nat) | Free(b: Block)

  predicate Legal(bs: seq<Block>, op: Op) {
    match op
    case Malloc(size) => size <= 0xFFFF_FFF4
    case Free(b) => b in Used(bs)
  }

  function Step(bs: seq<Block>, op: Op): seq<Block>
    requires Legal(bs, op)
  {
    match op
    case Malloc(size) =>
      var k := FirstFit(bs, Rounded(size), 0);
      if size == 0 || k == |bs| then bs
      else Allocate(bs, k, Words(size))
    case Free(b) => Release(bs, IndexOf(bs, b))
  }

  predicate LegalRun(bs: seq<Block>, ops: seq<Op>)
    decreases |ops|
  {
    ops == [] || (Legal(bs, ops[0]) && LegalRun(Step(bs, ops[0]), ops[1..]))
  }

  function Run(bs: seq<Block>, ops: seq<Op>): seq<Block>
    requires LegalRun(bs, ops)
    decreases |ops|
  {
    if ops == [] then bs else Run(Step(bs, ops[0]), ops[1..])
  }

  lemma StepKeepsForm(bs: seq<Block>, n: nat, op: Op)
    requires WellFormed(bs, n) && Legal(bs, op)
    ensures WellFormed(Step(bs, op), n)
  {
    match op
    case Malloc(size) =>
      var k := FirstFit(bs, Rounded(size), 0);
      if size != 0 && k < |bs| {
        AllocateKeepsForm(bs, n, k, Words(size));
      }
    case Free(b) =>
      ReleaseKeepsForm(bs, n, IndexOf(bs, b));
  }

  /** Heap invariant over every run from a fresh heap: the blocks tile the heap, no two free
      blocks touch, and once nothing is live the initial block is back. */
  lemma {:induction false} EveryRun(bs: seq<Block>, n: nat, ops: seq<Op>)
    requires WellFormed(bs, n) && LegalRun(bs, ops)
    ensures WellFormed(Run(bs, ops), n)
    ensures Used(Run(bs, ops)) == {} ==> Run(bs, ops) == [Block(0, n, true)]
    decreases |ops|
  {
    if ops == [] {
      if Used(bs) == {} { NothingLive(bs, n); }
    } else {
      StepKeepsForm(bs, n, ops[0]);
      EveryRun(Step(bs, ops[0]), n, ops[1..]);
    }
  }

  /** Isolation: in every well-formed heap two live payloads share no word and lie inside it. */
  lemma LivePayloadsDisjoint(bs: seq<Block>, n: nat, b: Block, c: Block)
    requires WellFormed(bs, n) && b in Used(bs) && c in Used(bs) && b != c
    ensures Disjoint(b, c)
    ensures forall w: int :: InPayload(b, w) ==> 0 <= w < n
  {
    var i, j := IndexOf(bs, b), IndexOf(bs, c);
    DistinctBlocks(bs, n, i, j);
    if i < |bs| - 1 { assert bs[i].End() <= bs[|bs| - 1].start; }
  }

  lemma Aligned(base: int, w: int)
    requires base % 4 == 0
    ensures (base + 4 * w + 8) % 4 == 0
  {
    assert base + 4 * w + 8 == 4 * (base / 4 + w + 2);
  }

  /** A request that some free block fits gets one new block, at the front of the first one that does, whose
      payload is word aligned, at least as large as asked for, and disjoint from every payload live before;
      the whole block goes only when no free header fits into what is left. */
  lemma MallocServes(bs: seq<Block>, n: nat, size: nat, base: int)
    requires WellFormed(bs, n) && 0 < size <= 0xFFFF_FFF4 && base % 4 == 0
    requires FirstFit(bs, Rounded(size), 0) < |bs|
    ensures var t, k := Step(bs, Malloc(size)), FirstFit(bs, Rounded(size), 0);
            Words(size) <= bs[k].len &&
            var b := Carved(bs[k], Words(size))[0];
            && Used(t) == Used(bs) + {b} && b !in Used(bs)
            && size <= 4 * (b.len - 2) && b.start == bs[k].start
            && b.len < Words(size) + 3 && (b.len == Words(size) || b.len == bs[k].len)
            && (base + 4 * b.start + 8) % 4 == 0
            && (forall c | c in Used(bs) :: Disjoint(b, c))
  {
    hide WellFormed, FirstFit, Rounded, Allocate, Carved, Used, Disjoint, Words;
    var k := FirstFit(bs, Rounded(size), 0);
    NewPayload(bs, n, k, Words(size));
    Aligned(base, bs[k].start);
  }

  /** A request that is not refused for its size fails exactly when no free block has room
      for its payload and header. */
  lemma MallocFailsIffNothingFits(bs: seq<Block>, size: nat)
    requires 0 < size <= 0xFFFF_FFF4
    ensures FirstFit(bs, Rounded(size), 0) == |bs| <==> forall b | b in bs && b.free :: 4 * b.len < size + 8
  {
    RoundingIsExact(size);
    forall len: nat ensures 4 * len < size + 8 <==> 4 * len < Rounded(size) {
      LeastMultiple(size + 8, Rounded(size), len);
    }
    var k := FirstFit(bs, Rounded(size), 0);
    if k < |bs| {
      assert bs[k] in bs;
    }
  }

  lemma LeastMultiple(low: nat, m: nat, len: nat)
    requires low <= m < low + 4 && m % 4 == 0
    ensures 4 * len < low <==> 4 * len < m
  {
  }

  lemma NewPayload(bs: seq<Block>, n: nat, k: nat, words: nat)
    requires WellFormed(bs, n) && k < |bs| && bs[k].free && 3 <= words <= bs[k].len
    ensures var t, b := Allocate(bs, k, words), Carved(bs[k], words)[0];
            && Used(t) == Used(bs) + {b} && b !in Used(bs) && b.start == bs[k].start && words <= b.len
            && b.len < words + 3 && (b.len == words || b.len == bs[k].len)
            && (forall c | c in Used(bs) :: Disjoint(b, c))
  {
    var t, b := Allocate(bs, k, words), Carved(bs[k], words)[0];
    AllocateUsed(bs, n, k, words);
    AllocateKeepsForm(bs, n, k, words);
    forall c | c in Used(bs) ensures Disjoint(b, c) {
      LivePayloadsDisjoint(t, n, b, c);
    }
  }

  /** Release the blocks of `order`, one after the other. */
  function ReleaseAll(bs: seq<Block>, order: seq<Block>): seq<Block>
    decreases |order|
  {
    if order == [] then bs
    else if order[0] in Used(bs) then ReleaseAll(Release(bs, IndexOf(bs, order[0])), order[1..])
    else bs
  }

  /** Reversibility: releasing every live block, in any order, restores the initial block. */
  lemma {:induction false} ReleaseInAnyOrder(bs: seq<Block>, n: nat, order: seq<Block>)
    requires WellFormed(bs, n) && Distinct(order)
    requires forall b :: b in order <==> b in Used(bs)
    ensures ReleaseAll(bs, order) == [Block(0, n, true)]
    decreases |order|
  {
    if order == [] {
      assert Used(bs) == {};
      NothingLive(bs, n);
    } else {
      assert order[0] in order;
      var k := IndexOf(bs, order[0]);
      ReleaseUsed(bs, n, k);
      ReleaseKeepsForm(bs, n, k);
      forall b ensures b in order[1..] <==> b in Used(Release(bs, k)) {
        if b in order[1..] {
          var i :| 0 <= i < |order[1..]| && order[1..][i] == b;
          assert order[i + 1] == b;
        } else if b in order {
          assert order == [order[0]] + order[1..];
        }
      }
      ReleaseInAnyOrder(Release(bs, k), n, order[1..]);
    }
  }
}
