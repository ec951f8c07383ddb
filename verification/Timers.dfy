/** The timer list in the links of the timer table (timer.c; arch.c, SysTick_Handler). */
module Timers {
  import opened Lists
  import opened TaskList
  import opened DeltaList
  import opened DeltaLinks
  import opened DelayRuns
  import DelayList
  import opened TimerRuns

  class TimerTable {
    const q: DeltaQueue
    var settings: seq<Setting>
    var running: seq<bool>

    /** The running timers are exactly the listed ones. */
    ghost predicate Valid()
      reads this, q
    {
      && q.Valid() && |settings| == |running| == |q.cnt| && Sane(settings)
      && forall t | 0 <= t < |running| :: running[t] <==> t in q.list
    }

    ghost function State(): Waiting
      requires q.Valid()
      reads q
    {
      DelayList.StateOf(q)
    }

    constructor (s: seq<Setting>)
      requires Sane(s)
      ensures Valid() && fresh(q) && q.list == [] && settings == s
    {
      q := new DeltaQueue(|s|);
      settings := s;
      running := seq(|s|, i => false);
    }

    lemma Facts()
      requires Valid()
      ensures q.Valid() && |settings| == |running| == |q.cnt| && Sane(settings)
      ensures State() == Waiting(q.list, q.Counts()) && |q.list| == |q.Counts()| && Sound(State())
      ensures forall i | 0 <= i < |q.list| :: q.list[i] < |settings|
      ensures forall t | 0 <= t < |running| :: running[t] <==> t in q.list
    {
      DelayList.StateIs(q);
      q.Facts();
    }

    /** The state in terms of the list, whatever the flags say. */
    lemma StateFacts()
      requires q.Valid()
      ensures State() == Waiting(q.list, q.Counts()) && |q.list| == |q.Counts()| && Sound(State())
    {
      DelayList.StateIs(q);
    }

    lemma Intro()
      requires q.Valid() && |settings| == |running| == |q.cnt| && Sane(settings)
      requires forall t | 0 <= t < |running| :: running[t] <==> t in q.list
      ensures Valid() && State() == Waiting(q.list, q.Counts())
    {
    }

    /** Lines 216-238: a stopped timer goes into the list with the count it holds. */
    method Start(t: nat)
      requires Valid() && t < |settings| && q.cnt[t] > 0
      modifies this`running, q
      ensures Valid() && running[t] && |old(q.list)| == |old(q.Counts())|
      ensures State() == if old(running[t]) then old(State())
                         else Inserted(Waiting(old(q.list), old(q.Counts())), t, old(q.cnt[t]))
    {
      hide *;
      Facts();
      if running[t] {
        return;
      }
      running := running[t := true];
      ghost var w := State();
      ghost var n := q.cnt[t];
      q.Insert(t, q.cnt[t]);
      InsertedIs(w, t, n);
      Intro();
    }

    /** Lines 254-277: a running timer leaves the list. */
    method Stop(t: nat)
      requires Valid() && t < |settings|
      modifies this`running, q
      ensures Valid() && !running[t]
      ensures if old(running[t]) then
                exists k | 0 <= k < |old(q.list)| && k < |old(q.Counts())| :: old(q.list)[k] == t
                  && State() == Waiting(RemoveAt(old(q.list), k), RemoveDeltas(old(q.Counts()), k))
              else State() == old(State())
    {
      hide *;
      Facts();
      if !running[t] {
        return;
      }
      ghost var l := q.list;
      ghost var k :| 0 <= k < |l| && l[k] == t;
      q.Facts();
      q.Unlink(t, k);
      running := running[t := false];
      RemovedIs(l, k);
      Intro();
    }

    /** Lines 401-417: one due timer leaves the list, and a periodic one goes back with its reload. */
    method FireOne(t: nat)
      requires Valid() && q.list != [] && t == q.list[0] && t < |q.cnt| && q.cnt[t] == 0
      modifies this`running, q
      ensures Valid() && Fired(old(State()), settings, t, State())
    {
      hide *;
      Facts();
      q.Facts();
      ghost var w := State();
      DelayList.FirstCount(q.cnt, q.list);
      HeadOut(w);
      FireStep(w, settings);
      RemovedIs(w.l, 0);
      q.Unlink(t, 0);
      StateFacts();
      ghost var w1 := State();
      if settings[t].periodic {
        InsertedIs(w1, t, settings[t].reload);
        q.Insert(t, settings[t].reload);
      } else {
        running := running[t := false];
      }
      Intro();
    }

    /** Lines 394-420: ends for positive reloads of any size, since the due prefix shrinks in every round. */
    method TmrDispose() returns (fired: seq<nat>)
      requires Valid()
      modifies this`running, q
      ensures Valid() && |old(q.list)| == |old(q.Counts())| && (forall i | 0 <= i < |old(q.list)| :: old(q.list)[i] < |settings|)
      ensures (State(), fired) == FireAll(Waiting(old(q.list), old(q.Counts())), settings)
    {
      hide *;
      Facts();
      ghost var w := State();
      fired := [];
      NothingFired(w, settings);
      while q.head != NIL
        invariant Valid() && q.Valid() && FiredSoFar(w, settings, fired, State())
        decreases Zeros(q.Counts())
      {
        Facts();
        q.Facts();
        Around(q.list, 0);
        DelayList.FirstCount(q.cnt, q.list);
        var t := q.head;
        if q.cnt[t] != 0 {
          break;
        }
        ghost var e, before := State(), fired;
        FireOne(t);
        fired := fired + [t];
        Facts();
        FiredMore(w, settings, before, e, t, State());
      }
      Facts();
      q.Facts();
      if q.head != NIL {
        DelayList.FirstCount(q.cnt, q.list);
      }
      FiringEnds(w, settings, fired, State());
    }

    /** Lines 80-92 of arch.c and 434-445 of timer.c: one tick of the timer list; `timerReq` asks for the
        disposal that a locked scheduler puts off. */
    method Tick(locked: bool) returns (fired: seq<nat>, timerReq: bool)
      requires Valid()
      modifies this`running, q
      ensures Valid() && |old(q.list)| == |old(q.Counts())| && (forall i | 0 <= i < |old(q.list)| :: old(q.list)[i] < |settings|)
      ensures (State(), fired) == TimerTicked(Waiting(old(q.list), old(q.Counts())), settings, locked)
      ensures timerReq <==> locked && old(q.Counts()) != [] && old(q.Counts())[0] <= 1
    {
      hide *;
      Facts();
      q.Facts();
      fired, timerReq := [], false;
      TimerTickIs(State(), settings, locked);
      if q.head != NIL {
        Around(q.list, 0);
        DelayList.FirstCount(q.cnt, q.list);
        if q.cnt[q.head] > 1 {
          DelayList.SetHead(q, q.cnt[q.head] - 1);
          Intro();
        } else {
          DelayList.SetHead(q, 0);
          Intro();
          if locked {
            timerReq := true;
          } else {
            fired := TmrDispose();
          }
        }
      }
    }
  }

  /** The timers fired so far, and what is left to do. */
  ghost predicate FiredSoFar(w: Waiting, ts: seq<Setting>, f: seq<nat>, e: Waiting) {
    && Sane(ts) && |w.l| == |w.ds| && (forall i | 0 <= i < |w.l| :: w.l[i] < |ts|)
    && |e.l| == |e.ds| && (forall i | 0 <= i < |e.l| :: e.l[i] < |ts|)
    && FireAll(w, ts) == (FireAll(e, ts).0, f + FireAll(e, ts).1)
  }

  /** From `w` to `e` by firing `t`. */
  ghost predicate Fired(w: Waiting, ts: seq<Setting>, t: nat, e: Waiting) {
    && Sane(ts) && |w.l| == |w.ds| && (forall i | 0 <= i < |w.l| :: w.l[i] < |ts|)
    && |e.l| == |e.ds| && (forall i | 0 <= i < |e.l| :: e.l[i] < |ts|)
    && Zeros(e.ds) < Zeros(w.ds) && FireAll(w, ts) == (FireAll(e, ts).0, [t] + FireAll(e, ts).1)
  }

  lemma NothingFired(w: Waiting, ts: seq<Setting>)
    requires Sane(ts) && |w.l| == |w.ds| && forall i | 0 <= i < |w.l| :: w.l[i] < |ts|
    ensures FiredSoFar(w, ts, [], w)
  {
    assert [] + FireAll(w, ts).1 == FireAll(w, ts).1;
  }

  lemma FiredMore(w: Waiting, ts: seq<Setting>, f: seq<nat>, e: Waiting, t: nat, e2: Waiting)
    requires FiredSoFar(w, ts, f, e) && Fired(e, ts, t, e2)
    ensures FiredSoFar(w, ts, f + [t], e2) && Zeros(e2.ds) < Zeros(e.ds)
  {
    assert f + ([t] + FireAll(e2, ts).1) == f + [t] + FireAll(e2, ts).1;
  }

  lemma FiringEnds(w: Waiting, ts: seq<Setting>, f: seq<nat>, e: Waiting)
    requires FiredSoFar(w, ts, f, e) && (e.ds == [] || e.ds[0] != 0)
    ensures FireAll(w, ts) == (e, f)
  {
    assert f + [] == f;
  }

  /** Taking a due head out leaves the counts behind it. */
  lemma HeadOut(w: Waiting)
    requires |w.l| == |w.ds| && w.l != [] && w.ds[0] == 0
    ensures RemoveAt(w.l, 0) == w.l[1..] && RemoveDeltas(w.ds, 0) == w.ds[1..]
  {
  }

  lemma FireStep(w: Waiting, ts: seq<Setting>)
    requires Sane(ts) && |w.l| == |w.ds| && (forall i | 0 <= i < |w.l| :: w.l[i] < |ts|)
    requires w.l != [] && w.ds[0] == 0
    ensures var x, w1 := w.l[0], Waiting(w.l[1..], w.ds[1..]);
            var w2 := if ts[x].periodic then Inserted(w1, x, ts[x].reload) else w1;
            Fired(w, ts, x, w2)
    ensures ts[w.l[0]].periodic ==> ts[w.l[0]].reload > 0
  {
    var x, w1 := w.l[0], Waiting(w.l[1..], w.ds[1..]);
    if ts[x].periodic {
      InsertKeepsZeros(w1.ds, ts[x].reload);
      TimerRuns.InsertedSize(w1.ds, DeltaList.Stop(w1.ds, ts[x].reload, 0), NewCount(w1.ds, ts[x].reload));
    }
  }

  lemma InsertedIs(w: Waiting, t: nat, n: Tick)
    requires |w.l| == |w.ds|
    ensures var k := DeltaList.Stop(w.ds, n, 0);
            Inserted(w, t, n) == Waiting(InsertAt(w.l, k, t), InsertDeltas(w.ds, k, NewCount(w.ds, n)))
    ensures forall x :: x in Inserted(w, t, n).l <==> x in w.l || x == t
  {
    var k := DeltaList.Stop(w.ds, n, 0);
    forall x ensures x in InsertAt(w.l, k, t) <==> x in w.l || x == t {
      if x in w.l {
        var i :| 0 <= i < |w.l| && w.l[i] == x;
        assert InsertAt(w.l, k, t)[if i < k then i else i + 1] == x;
      }
      assert InsertAt(w.l, k, t)[k] == t;
    }
  }

  lemma RemovedIs(l: seq<nat>, k: nat)
    requires Distinct(l) && k < |l|
    ensures forall x :: x in RemoveAt(l, k) <==> x in l && x != l[k]
  {
    DistinctRemove(l, k);
  }
}
