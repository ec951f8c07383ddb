/** The delay list in the links of the task table: disposing of due tasks and the system tick (time.c,
    TimeDispose and isr_TimeDispose; arch.c, SysTick_Handler). */
module DelayList {
  import opened Lists
  import opened TaskList
  import opened DeltaList
  import opened DeltaLinks
  import opened DelayRuns

  ghost function StateOf(q: DeltaQueue): Waiting
    requires q.Valid()
    reads q
  {
    Waiting(q.list, q.Counts())
  }

  lemma StateIs(q: DeltaQueue)
    requires q.Valid()
    ensures StateOf(q) == Waiting(q.list, q.Counts()) && |q.list| == |q.Counts()| && Sound(StateOf(q))
  {
    q.Facts();
  }

  /** Lines 335-345 of time.c: the head, which is due, leaves the list. */
  method PopDue(q: DeltaQueue) returns (t: nat)
    requires q.Valid() && q.list != [] && q.Counts() != [] && q.Counts()[0] == 0
    modifies q
    ensures q.Valid() && t == old(q.list)[0] && q.list == old(q.list)[1..] && q.Counts() == old(q.Counts())[1..]
    ensures |q.cnt| == |old(q.cnt)| && t < |q.cnt| && q.cnt[t] == INVALID_VALUE
    ensures forall x | 0 <= x < |q.cnt| && x != t :: q.cnt[x] == old(q.cnt)[x]
  {
    hide *;
    q.Facts();
    ghost var l, n, p, c, h := q.list, q.next, q.prev, q.cnt, q.head;
    LinksAt(q.next, q.prev, l, 0);
    Neighbours(l, 0);
    Around(l, 0);
    Around(l, 1);
    FirstCount(c, l);
    t := q.head;
    q.cnt := q.cnt[t := INVALID_VALUE];
    q.head := q.next[t];
    q.next := q.next[t := NIL];
    if q.head != NIL {
      q.prev := q.prev[q.head := NIL];
    }
    LinkedAfterRemove(n, p, c, h, l, 0, q.next, q.prev, q.cnt, q.head);
    TailDeltas(c, l, t, q.cnt);
    q.list := l[1..];
    q.Intro();
  }

  lemma FirstCount(cnt: seq<Tick>, l: seq<nat>)
    requires (forall i | 0 <= i < |l| :: l[i] < |cnt|) && l != []
    ensures Deltas(cnt, l)[0] == cnt[l[0]]
  {
  }

  lemma TailDeltas(cnt: seq<Tick>, l: seq<nat>, t: nat, c: seq<Tick>)
    requires (forall i | 0 <= i < |l| :: l[i] < |cnt|) && l != [] && Distinct(l) && t == l[0] && |c| == |cnt|
    requires forall x | 0 <= x < |cnt| && x != t :: c[x] == cnt[x]
    ensures RemoveAt(l, 0) == l[1..] && (forall i | 0 <= i < |l| - 1 :: l[1..][i] < |c|)
    ensures Deltas(c, l[1..]) == Deltas(cnt, l)[1..]
  {
  }

  /** The disposal after `z` tasks. */
  ghost predicate Disposing(w: Waiting, c: seq<Tick>, z: nat, ready: seq<nat>, e: Waiting, cnt: seq<Tick>) {
    && z <= |w.l| == |w.ds| && e == Waiting(w.l[z..], w.ds[z..]) && ready == w.l[..z]
    && Zeros(w.ds) == z + Zeros(w.ds[z..])
    && |cnt| == |c| && (forall x | x in ready :: x < |c| && cnt[x] == INVALID_VALUE)
    && forall x | 0 <= x < |c| && x !in ready :: cnt[x] == c[x]
  }

  lemma DisposingStarts(w: Waiting, c: seq<Tick>)
    requires |w.l| == |w.ds|
    ensures Disposing(w, c, 0, [], w, c)
  {
    assert w.l[0..] == w.l && w.ds[0..] == w.ds;
  }

  lemma DisposingMore(w: Waiting, c: seq<Tick>, z: nat, ready: seq<nat>, e: Waiting, cnt: seq<Tick>,
                      t: nat, f: Waiting, cnt2: seq<Tick>)
    requires Disposing(w, c, z, ready, e, cnt) && e.l != [] && e.ds != [] && e.ds[0] == 0
    requires t == e.l[0] && f == Waiting(e.l[1..], e.ds[1..]) && |cnt2| == |cnt| && t < |cnt| && cnt2[t] == INVALID_VALUE
    requires forall x | 0 <= x < |cnt| && x != t :: cnt2[x] == cnt[x]
    ensures Disposing(w, c, z + 1, ready + [t], f, cnt2) && |f.l| < |e.l|
  {
    DisposeFrom(w, z);
    assert w.l[..z + 1] == w.l[..z] + [w.l[z]] && w.l[z..][1..] == w.l[z + 1..] && w.ds[z..][1..] == w.ds[z + 1..];
  }

  lemma DisposingEnds(w: Waiting, c: seq<Tick>, z: nat, ready: seq<nat>, e: Waiting, cnt: seq<Tick>)
    requires Disposing(w, c, z, ready, e, cnt) && |w.l| == |w.ds| && (e.ds != [] ==> e.ds[0] != 0)
    ensures e == Disposed(w) && ready == w.l[..Zeros(w.ds)] && |cnt| == |c|
    ensures forall x | x in ready :: x < |cnt| && cnt[x] == INVALID_VALUE
    ensures forall x | 0 <= x < |cnt| && x !in ready :: cnt[x] == c[x]
  {
    DisposeFrom(w, z);
  }

  /** Lines 314-347 of time.c: every due task leaves, in order. */
  method TimeDispose(q: DeltaQueue) returns (ready: seq<nat>)
    requires q.Valid()
    modifies q
    ensures q.Valid() && |old(q.list)| == |old(q.Counts())|
    ensures StateOf(q) == Disposed(Waiting(old(q.list), old(q.Counts())))
    ensures ready == old(q.list)[..Zeros(old(q.Counts()))]
    ensures |q.cnt| == |old(q.cnt)|
    ensures forall x | x in ready :: x < |q.cnt| && q.cnt[x] == INVALID_VALUE
    ensures forall x | 0 <= x < |q.cnt| && x !in ready :: q.cnt[x] == old(q.cnt)[x]
  {
    hide *;
    StateIs(q);
    ghost var w, c := StateOf(q), q.cnt;
    ready := [];
    ghost var z := 0;
    DisposingStarts(w, c);
    while q.head != NIL
      invariant q.Valid() && Disposing(w, c, z, ready, StateOf(q), q.cnt)
      decreases |q.list|
    {
      q.Facts();
      StateIs(q);
      Around(q.list, 0);
      FirstCount(q.cnt, q.list);
      if q.cnt[q.head] != 0 {
        break;
      }
      ghost var e, cnt, before := StateOf(q), q.cnt, ready;
      var t := PopDue(q);
      ready := ready + [t];
      StateIs(q);
      DisposingMore(w, c, z, before, e, cnt, t, StateOf(q), q.cnt);
      z := z + 1;
    }
    q.Facts();
    StateIs(q);
    DisposingEnds(w, c, z, ready, StateOf(q), q.cnt);
  }

  lemma DisposeFrom(w: Waiting, z: nat)
    requires z <= |w.ds|
    ensures w.ds[0..] == w.ds && (|w.l| == |w.ds| ==> w.l[0..] == w.l)
    ensures z < |w.ds| && w.ds[z] == 0 ==> Zeros(w.ds[z..]) == 1 + Zeros(w.ds[z + 1..])
    ensures z == |w.ds| || w.ds[z] != 0 ==> Zeros(w.ds[z..]) == 0
  {
    if z < |w.ds| {
      assert w.ds[z..][1..] == w.ds[z + 1..];
    }
  }

  lemma DisposedIs(w: Waiting)
    requires |w.l| == |w.ds|
    ensures Disposed(w) == Waiting(w.l[Zeros(w.ds)..], w.ds[Zeros(w.ds)..])
  {
  }

  /** Lines 362-373 of time.c and 61-78 of arch.c: one tick of the delay list; `timeReq` asks for the
      disposal that a locked scheduler puts off. */
  method Tick(q: DeltaQueue, locked: bool) returns (ready: seq<nat>, timeReq: bool)
    requires q.Valid()
    modifies q
    ensures q.Valid() && |old(q.list)| == |old(q.Counts())|
    ensures StateOf(q) == Ticked(Waiting(old(q.list), old(q.Counts())), locked)
    ensures ready == old(q.list)[..|old(q.list)| - |q.list|]
    ensures timeReq <==> locked && old(q.Counts()) != [] && old(q.Counts())[0] <= 1
  {
    hide *;
    StateIs(q);
    q.Facts();
    ready, timeReq := [], false;
    ghost var w := Waiting(q.list, q.Counts());
    TickedIs(w, locked);
    if q.head != NIL {
      Around(q.list, 0);
      FirstCount(q.cnt, q.list);
      if q.cnt[q.head] > 1 {
        SetHead(q, q.cnt[q.head] - 1);
        StateIs(q);
      } else {
        SetHead(q, 0);
        StateIs(q);
        if locked {
          timeReq := true;
        } else {
          DisposedIs(StateOf(q));
          ready := TimeDispose(q);
          StateIs(q);
        }
      }
    }
  }

  /** The count of the first entry changes. */
  method SetHead(q: DeltaQueue, v: Tick)
    requires q.Valid() && q.list != [] && q.Counts() != []
    modifies q
    ensures q.Valid() && q.list == old(q.list) && q.Counts() == old(q.Counts())[0 := v]
    ensures |q.cnt| == |old(q.cnt)|
  {
    hide *;
    q.Facts();
    ghost var l, n, p, c, h := q.list, q.next, q.prev, q.cnt, q.head;
    Around(l, 0);
    q.cnt := q.cnt[q.head := v];
    LinkedIntro(q.next, q.prev, q.cnt, q.head, l);
    HeadDeltas(c, l, v);
    q.Intro();
  }

  lemma HeadDeltas(cnt: seq<Tick>, l: seq<nat>, v: Tick)
    requires (forall i | 0 <= i < |l| :: l[i] < |cnt|) && l != [] && Distinct(l)
    ensures Deltas(cnt[l[0] := v], l) == Deltas(cnt, l)[0 := v]
  {
  }

  lemma TickedIs(w: Waiting, locked: bool)
    requires |w.l| == |w.ds|
    ensures Ticked(w, locked) ==
            if w.ds == [] then w
            else if w.ds[0] > 1 then Waiting(w.l, w.ds[0 := w.ds[0] - 1])
            else if locked then Waiting(w.l, w.ds[0 := 0]) else Disposed(Waiting(w.l, w.ds[0 := 0]))
  {
  }
}
