/** The fast-seek link map (ff.c, f_lseek with a cluster link map table): the table CREATE_LINKMAP
    builds decodes to the file's chain, and the lookup in it seeks as the walk along the chain does. */
module FatLinkMap {
  import opened FatLayout
  import opened FatWindow
  import opened FatChains
  import opened ChainRuns
  import opened FileLayout
  import opened FatFile
  import opened FatSeek

  datatype MapResult = MapOk | NotEnoughCore | MapIntErr

  /** Consecutive clusters from `top` on. */
  ghost function Run(top: nat, n: nat): (r: seq<nat>)
    ensures |r| == n && forall i | 0 <= i < n :: r[i] == top + i
  {
    if n == 0 then [] else Run(top, n - 1) + [top + (n - 1)]
  }

  /** The clusters listed by a table from position `at`: pairs of a length and a top cluster, up to a
      length of 0. */
  ghost function Decode(tb: seq<nat>, at: nat): seq<nat>
    decreases |tb| - at
  {
    if at + 1 >= |tb| || tb[at] == 0 then [] else Run(tb[at + 1], tb[at]) + Decode(tb, at + 2)
  }

  ghost predicate Terminated(tb: seq<nat>, at: nat)
    decreases |tb| - at
  {
    at < |tb| && (tb[at] == 0 || (at + 1 < |tb| && Terminated(tb, at + 2)))
  }

  /** The table, whose first item is its own size, lists exactly the clusters of `ch`. */
  ghost predicate Encodes(tb: seq<nat>, ch: seq<nat>) {
    Terminated(tb, 1) && Decode(tb, 1) == ch
  }

  lemma DecodeStep(tb: seq<nat>, at: nat, cl: nat)
    requires Terminated(tb, at) && cl < |Decode(tb, at)|
    ensures at + 1 < |tb| && 0 < tb[at]
    ensures if cl < tb[at] then Decode(tb, at)[cl] == tb[at + 1] + cl
            else Terminated(tb, at + 2) && cl - tb[at] < |Decode(tb, at + 2)|
                 && Decode(tb, at)[cl] == Decode(tb, at + 2)[cl - tb[at]]
  {
  }

  /** Lines 2597-2603: the lookup of cluster number `cl0`.  The end of the table is never reached. */
  method Lookup(tbl: array<nat>, cl0: nat, ghost ch: seq<nat>) returns (clst: nat)
    requires Encodes(tbl[..], ch) && cl0 < |ch|
    ensures clst == ch[cl0]
  {
    var cl: nat, at: nat := cl0, 1;
    ghost var tb := tbl[..];
    DecodeStep(tb, at, cl);
    while tbl[at] <= cl
      invariant at + 1 < |tb| && Terminated(tb, at) && cl < |Decode(tb, at)| && Decode(tb, at)[cl] == ch[cl0]
      invariant if cl < tb[at] then Decode(tb, at)[cl] == tb[at + 1] + cl
                else Terminated(tb, at + 2) && cl - tb[at] < |Decode(tb, at + 2)|
                     && Decode(tb, at)[cl] == Decode(tb, at + 2)[cl - tb[at]]
      decreases |tb| - at
    {
      cl := cl - tbl[at];
      at := at + 2;
      DecodeStep(tb, at, cl);
    }
    clst := cl + tbl[at + 1];
  }

  /** The end of the run of consecutive clusters that starts at position `i`. */
  ghost function RunEnd(ch: seq<nat>, i: nat): (e: nat)
    requires i < |ch|
    ensures i < e <= |ch|
    decreases |ch| - i
  {
    if i + 1 < |ch| && ch[i + 1] == ch[i] + 1 then RunEnd(ch, i + 1) else i + 1
  }

  /** The number of runs from position `i` on. */
  ghost function Fragments(ch: seq<nat>, i: nat): nat
    requires i <= |ch|
    decreases |ch| - i
  {
    if i == |ch| then 0 else 1 + Fragments(ch, RunEnd(ch, i))
  }

  /** The places at which a chain does not go on with the next cluster of the volume. */
  ghost function Breaks(ch: seq<nat>, i: nat): set<nat> {
    set x | i <= x < |ch| - 1 && BreaksAt(ch, x)
  }

  ghost predicate BreaksAt(ch: seq<nat>, x: nat)
    requires x + 1 < |ch|
  {
    ch[x + 1] != ch[x] + 1
  }

  /** A chain has one run more than it has breaks. */
  lemma {:induction false} RunsAndBreaks(ch: seq<nat>, i: nat)
    requires i < |ch|
    ensures Fragments(ch, i) == 1 + |Breaks(ch, i)|
    decreases |ch| - i
  {
    if i + 1 == |ch| {
      assert Breaks(ch, i) == {};
      assert Fragments(ch, i + 1) == 0;
    } else {
      RunsAndBreaks(ch, i + 1);
      if ch[i + 1] == ch[i] + 1 {
        assert Breaks(ch, i) == Breaks(ch, i + 1);
      } else {
        assert Breaks(ch, i) == Breaks(ch, i + 1) + {i};
      }
    }
  }

  /** The one chain the map cannot be built for: the follow-up of the last cluster reads as the
      cluster behind the last one of the volume. */
  ghost predicate Misread(t: seq<nat>, ch: seq<nat>) {
    ch != [] && ch[|ch| - 1] < |t| && ch[|ch| - 1] + 1 == |t| && t[ch[|ch| - 1]] == |t|
  }

  /** The first `k` pairs of a table. */
  ghost function Listed(tb: seq<nat>, k: nat): seq<nat>
    requires 2 * k < |tb|
  {
    if k == 0 then [] else Listed(tb, k - 1) + Run(tb[2 * k], tb[2 * k - 1])
  }

  lemma {:induction false} ListedFrame(tb: seq<nat>, tc: seq<nat>, k: nat)
    requires 2 * k < |tb| == |tc| && forall x | 1 <= x <= 2 * k :: tc[x] == tb[x]
    ensures Listed(tc, k) == Listed(tb, k)
  {
    if k > 0 {
      ListedFrame(tb, tc, k - 1);
    }
  }

  /** Ending a table with 0 makes it list its pairs. */
  lemma {:induction false} EndedTable(tb: seq<nat>, k: nat, j: nat)
    requires j <= k && 1 + 2 * k < |tb|
    requires forall x | 0 <= x < k :: tb[1 + 2 * x] > 0
    ensures Decode(tb, 1) == Listed(tb, j) + Decode(tb, 1 + 2 * j)
    ensures Terminated(tb, 1 + 2 * j) ==> Terminated(tb, 1)
  {
    if j > 0 {
      EndedTable(tb, k, j - 1);
      assert tb[1 + 2 * (j - 1)] > 0;
      OnePair(tb, 2 * j - 1);
      JoinLists(Listed(tb, j - 1), Run(tb[2 * j], tb[2 * j - 1]), Decode(tb, 1 + 2 * j));
      hide Decode, Terminated, Run;
    }
  }

  lemma OnePair(tb: seq<nat>, at: nat)
    requires at + 1 < |tb| && tb[at] > 0
    ensures Decode(tb, at) == Run(tb[at + 1], tb[at]) + Decode(tb, at + 2)
    ensures Terminated(tb, at + 2) ==> Terminated(tb, at)
  {
  }

  lemma JoinLists(a: seq<nat>, b: seq<nat>, c: seq<nat>)
    ensures a + (b + c) == a + b + c
  {
  }

  /** Positions `s` to `j` belong to one run. */
  ghost predicate RunOn(ch: seq<nat>, s: nat, j: nat) {
    s <= j < |ch| && RunEnd(ch, s) == RunEnd(ch, j) && forall x | s <= x <= j :: ch[x] == ch[s] + (x - s)
  }

  lemma RunStarts(ch: seq<nat>, s: nat)
    requires s < |ch|
    ensures RunOn(ch, s, s)
  {
  }

  lemma LinkAt(t: seq<nat>, ch: seq<nat>, org: nat, j: nat)
    requires ChainHeld(t, ch, org) && j < |ch|
    ensures 2 <= ch[j] < |t| && 2 <= t[ch[j]]
    ensures if j + 1 < |ch| then t[ch[j]] == ch[j + 1] < |t| else t[ch[j]] >= |t|
  {
    MidOrLast(t, ch, org, j);
    if j + 1 < |ch| {
      MidOrLast(t, ch, org, j + 1);
    }
  }

  lemma RunMore(t: seq<nat>, ch: seq<nat>, org: nat, s: nat, j: nat)
    requires ChainHeld(t, ch, org) && RunOn(ch, s, j) && t[ch[j]] == ch[j] + 1
    ensures if j + 1 < |ch| then RunOn(ch, s, j + 1) else Misread(t, ch) && t[ch[j]] == |t|
  {
    LinkAt(t, ch, org, j);
  }

  lemma RunOver(t: seq<nat>, ch: seq<nat>, org: nat, s: nat, j: nat)
    requires ChainHeld(t, ch, org) && RunOn(ch, s, j)
    requires ch[j] < |t| && (t[ch[j]] != ch[j] + 1 || j + 1 == |ch|)
    ensures RunEnd(ch, s) == j + 1 && ch[s..j + 1] == Run(ch[s], j + 1 - s)
    ensures t[ch[j]] != ch[j] + 1 ==> !(j + 1 == |ch| && Misread(t, ch))
  {
    hide ChainHeld;
    LinkAt(t, ch, org, j);
    RunIs(ch, s, j);
  }

  lemma RunIs(ch: seq<nat>, s: nat, j: nat)
    requires s <= j < |ch| && forall x | s <= x <= j :: ch[x] == ch[s] + (x - s)
    ensures ch[s..j + 1] == Run(ch[s], j + 1 - s)
  {
    var a, b := ch[s..j + 1], Run(ch[s], j + 1 - s);
    forall i | 0 <= i < j + 1 - s ensures a[i] == b[i] {
      assert ch[s + i] == ch[s] + i;
    }
  }

  /** Lines 2577-2583: a run of consecutive clusters, and the cluster after it. */
  method Fragment(fp: File, cl0: nat, ghost s: nat) returns (ok: bool, ncl: nat, cl: nat)
    requires fp.Core() && s < |fp.ch| && cl0 == fp.ch[s]
    modifies fp.fs`dev, fp.fs`winsect, fp.fs`wflag, fp.fs.win
    ensures fp.Core() && fp.View() == old(fp.View()) && fp.Content() == old(fp.Content()) && fp.fs.Fat() == old(fp.fs.Fat())
    ensures var e := RunEnd(fp.ch, s);
            && fp.ch[s..e] == Run(cl0, e - s)
            && (ok ==> ncl == e - s && if e < |fp.ch| then cl == fp.ch[e] < fp.fs.g.nFatent else cl >= fp.fs.g.nFatent)
            && (ok <==> !(e == |fp.ch| && Misread(fp.fs.Fat(), fp.ch)))
  {
    hide *;
    fp.CoreFacts();
    ghost var t, ch := fp.fs.Fat(), fp.ch;
    cl, ncl := cl0, 0;
    ghost var j := s;
    RunStarts(ch, s);
    while true
      invariant fp.Core() && fp.fs.Valid()
      invariant fp.View() == old(fp.View()) && fp.Content() == old(fp.Content()) && fp.fs.Fat() == t
      invariant s <= j <= |ch| && ncl == j - s
      invariant if j < |ch| then cl == ch[j] && RunOn(ch, s, j)
                else cl == |t| && j > s && Misread(t, ch) && RunOn(ch, s, j - 1)
      decreases |ch| - j
    {
      if j < |ch| {
        LinkAt(t, ch, fp.orgClust, j);
      } else {
        LinkAt(t, ch, fp.orgClust, j - 1);
        RunOver(t, ch, fp.orgClust, s, j - 1);
      }
      var pcl := cl;
      ncl := ncl + 1;
      cl := fp.Link(cl);
      fp.CoreFacts();
      if cl <= 1 {
        return false, ncl, cl;
      }
      if cl != pcl + 1 {
        break;
      }
      RunMore(t, ch, fp.orgClust, s, j);
      j := j + 1;
    }
    RunOver(t, ch, fp.orgClust, s, j);
    ok := true;
  }

  /** One more pair in the table. */
  method StorePair(tbl: array<nat>, at: nat, ncl: nat, tcl: nat, ghost k: nat)
    requires at == 1 + 2 * k && 2 + 2 * k < tbl.Length
    modifies tbl
    ensures Listed(tbl[..], k + 1) == Listed(old(tbl[..]), k) + Run(tcl, ncl) && tbl[0] == old(tbl[0])
    ensures tbl[1 + 2 * k] == ncl && forall x | 0 <= x < 1 + 2 * k :: tbl[x] == old(tbl[x])
  {
    ghost var tb := tbl[..];
    tbl[at] := ncl;
    tbl[at + 1] := tcl;
    ListedFrame(tb, tbl[..], k);
  }

  lemma NothingListed(tb: seq<nat>, t: seq<nat>, ch: seq<nat>)
    requires |tb| > 0
    ensures ch == [] ==> !Misread(t, ch)
    ensures Listed(tb, 0) == [] == ch[..0] && Fragments(ch, |ch|) == 0
    ensures ch == [] ==> Fragments(ch, 0) == 0
  {
  }

  lemma FragmentsFrom(ch: seq<nat>, i: nat)
    requires i < |ch|
    ensures Fragments(ch, i) == 1 + Fragments(ch, RunEnd(ch, i)) && Fragments(ch, |ch|) == 0
  {
  }

  lemma TableDone(tb: seq<nat>, k: nat, ch: seq<nat>)
    requires 1 + 2 * k < |tb| && tb[1 + 2 * k] == 0 && Listed(tb, k) == ch
    requires forall x | 0 <= x < k :: tb[1 + 2 * x] > 0
    ensures Encodes(tb, ch)
  {
    EndedTable(tb, k, k);
  }

  /** Lines 2571-2587: the pairs of the table, run by run. */
  method ListRuns(fp: File, tbl: array<nat>) returns (res: MapResult, at: nat, ghost k: nat)
    requires fp.Core() && fp.Valid() && 2 <= tbl.Length && tbl[0] <= tbl.Length
    modifies tbl, fp.fs`dev, fp.fs`winsect, fp.fs`wflag, fp.fs.win
    ensures fp.Core() && fp.View() == old(fp.View()) && fp.Content() == old(fp.Content()) && fp.fs.Fat() == old(fp.fs.Fat())
    ensures res != MapIntErr ==> at == 1 + 2 * k < tbl.Length
    ensures res == MapOk ==> Listed(tbl[..], k) == fp.ch && forall x | 0 <= x < k :: tbl[1 + 2 * x] > 0
    ensures res == if fp.ch != [] && old(tbl[0]) < 2 * Fragments(fp.ch, 0) + 2 then NotEnoughCore
                   else if Misread(fp.fs.Fat(), fp.ch) then MapIntErr
                   else MapOk
  {
    hide *;
    fp.CoreFacts();
    ghost var t, ch, size := fp.fs.Fat(), fp.ch, tbl[0];
    OriginOrNone(fp.fs.g, t, ch, fp.orgClust);
    var tlen, cl := tbl[0], fp.orgClust;
    at, res := 1, MapOk;
    ghost var i := 0;
    k := 0;
    NothingListed(tbl[..], t, ch);
    if cl != 0 {
      while true
        invariant fp.Core() && fp.fs.Valid()
        invariant fp.View() == old(fp.View()) && fp.Content() == old(fp.Content()) && fp.fs.Fat() == t
        invariant i < |ch| && cl == ch[i] && at == 1 + 2 * k < tbl.Length && tlen + 2 * k == size && size <= tbl.Length
        invariant Fragments(ch, 0) == k + Fragments(ch, i)
        invariant Listed(tbl[..], k) == ch[..i] && forall x | 0 <= x < k :: tbl[1 + 2 * x] > 0
        decreases |ch| - i
      {
        FragmentsFrom(ch, i);
        if tlen < 4 {
          return NotEnoughCore, at, k;
        }
        var tcl, ncl, ok := cl, 0, false;
        ok, ncl, cl := Fragment(fp, cl, i);
        fp.CoreFacts();
        if !ok {
          return MapIntErr, at, k;
        }
        StorePair(tbl, at, ncl, tcl, k);
        assert ch[..i] + ch[i..RunEnd(ch, i)] == ch[..RunEnd(ch, i)];
        at, tlen := at + 2, tlen - 2;
        i, k := RunEnd(ch, i), k + 1;
        if cl >= fp.fs.g.nFatent {
          break;
        }
      }
    }
    assert ch[..|ch|] == ch;
  }

  /** Lines 2570-2588, CREATE_LINKMAP.  A table of T items serves a chain of k runs exactly when T is
      at least 2k + 2, and the map then lists the chain, but for the one chain it misreads. */
  method CreateLinkMap(fp: File, tbl: array<nat>) returns (res: MapResult)
    requires fp.Core() && fp.Valid() && 2 <= tbl.Length && tbl[0] <= tbl.Length
    modifies tbl, fp.fs`dev, fp.fs`winsect, fp.fs`wflag, fp.fs.win
    ensures fp.Core() && fp.View() == old(fp.View()) && fp.Content() == old(fp.Content()) && fp.fs.Fat() == old(fp.fs.Fat())
    ensures res == MapOk ==> Encodes(tbl[..], fp.ch)
    ensures res == if fp.ch != [] && old(tbl[0]) < 2 * Fragments(fp.ch, 0) + 2 then NotEnoughCore
                   else if Misread(fp.fs.Fat(), fp.ch) then MapIntErr
                   else MapOk
  {
    hide *;
    var at;
    ghost var k;
    res, at, k := ListRuns(fp, tbl);
    if res == MapIntErr {
      return;
    }
    ghost var tb := tbl[..];
    tbl[at] := 0;
    if res == MapOk {
      ListedFrame(tb, tbl[..], k);
      TableDone(tbl[..], k, fp.ch);
    }
  }

  /** A chain the code accepts everywhere else, but builds no map for: the last cluster of a volume of
      two clusters, its end marked by the number behind the last cluster. */
  lemma MisreadHappens()
    ensures var t := [0, 0, 4, 4];
            ChainHeld(t, [3], 3) && Misread(t, [3]) && !Misread(t, [2])
  {
  }

  /** Lines 2590-2623, the fast seek.  With a map of the file's chain it ends in the state the normal
      seek ends in. */
  method FastSeek(fp: File, tbl: array<nat>, ofs: dword)
    requires fp.Core() && fp.Valid() && Encodes(tbl[..], fp.ch)
    modifies fp.fs`dev, fp.buf, fp`currClust, fp`fptr, fp`dsect, fp`dirty
    ensures fp.Core() && fp.Valid() && fp.fs.g.csize > 0
    ensures fp.View() == old(fp.View()) && fp.Content() == old(fp.Content()) && fp.fs.Fat() == old(fp.fs.Fat())
    ensures Sought(if ofs > fp.fsize then fp.fsize else ofs, fp.Secs(), fp.ch, fp.fs.g.csize, fp.View(),
                   old(Here(fp)), Here(fp))
  {
    hide *;
    fp.ValidFacts();
    fp.CoreFacts();
    var target := if ofs > fp.fsize then fp.fsize else ofs;
    if target == 0 {
      Rewind(fp);
    } else {
      MapSeek(fp, tbl, target);
    }
    fp.ValidIntro();
  }

  /** Lines 2594-2622 for a target behind the first byte. */
  method MapSeek(fp: File, tbl: array<nat>, target: dword)
    requires fp.Core() && fp.Valid() && Encodes(tbl[..], fp.ch) && 0 < target <= fp.fsize
    modifies fp.fs`dev, fp.buf, fp`currClust, fp`fptr, fp`dsect, fp`dirty
    ensures fp.Core() && fp.Ready() && fp.fptr == target && fp.fs.g.csize > 0
    ensures fp.View() == old(fp.View()) && fp.Content() == old(fp.Content()) && fp.fs.Fat() == old(fp.fs.Fat())
    ensures Sought(target, fp.Secs(), fp.ch, fp.fs.g.csize, fp.View(), old(Here(fp)), Here(fp))
  {
    hide *;
    fp.ValidFacts();
    fp.CoreFacts();
    HereIs(fp);
    ghost var b, v := Here(fp), fp.View();
    MoveTo(fp, target, fp.Content());
    fp.CoreFacts();
    LastByte(fp.fs.g, fp.ch, target);
    var clst := Lookup(tbl, ClusterIx(target - 1, fp.fs.g.csize), fp.ch);
    fp.currClust := clst;
    LookedUp(fp.ch, fp.fs.g.csize, clst, target - 1);
    CurrSector(fp.fs.g, fp.ch, clst, target - 1);
    if fp.fptr % SS != 0 {
      SeekBuffer(fp, Clust2Sect(fp.fs.g, clst) + Csect(target - 1, fp.fs.g.csize));
      fp.CoreFacts();
    }
    HereIs(fp);
    fp.ReadyIntro();
    SoughtIntro(fp.Secs(), fp.ch, fp.fs.g.csize, v, b, Here(fp));
  }

  lemma LastByte(g: Geometry, ch: seq<nat>, n: nat)
    requires 0 < g.csize && 0 < n <= SS * |Sectors(g, ch)|
    ensures ClusterIx(n - 1, g.csize) < |ch|
    ensures n % SS != 0 ==> (n - 1) / SS == n / SS
  {
    ByteCluster(g, ch, n - 1);
  }

  lemma LookedUp(ch: seq<nat>, csize: nat, clst: nat, b: nat)
    requires 0 < csize && ClusterIx(b, csize) < |ch| && clst == ch[ClusterIx(b, csize)]
    ensures CurrOk(ch, csize, clst, b)
  {
  }
}
