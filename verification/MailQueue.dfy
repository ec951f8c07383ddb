/** Mail queues (queue.c; event.c, EventTaskToWait and EventTaskToRdy): the ring of cells holds the mails in
    order of arrival, none is lost or delivered twice, and tasks wait only for an empty queue. */
module MailQueue {
  import opened Lists
  import opened TaskList
  import opened ReadyList

  datatype QueueStatus = QueueOk | QueueFull | QueueEmpty

  /** A position behind the end of a ring of `max` cells starts again at the front. */
  function Wrap(i: nat, max: nat): nat {
    if i >= max then i - max else i
  }

  /** The `n` mails from cell `head` on. */
  ghost function Ring(cells: seq<int>, head: nat, n: nat): (r: seq<int>)
    requires head < |cells| && n <= |cells|
    ensures |r| == n && forall i | 0 <= i < n :: r[i] == cells[Wrap(head + i, |cells|)]
  {
    seq(n, i requires 0 <= i < n => cells[Wrap(head + i, |cells|)])
  }

  /** Storing a mail in the first unused cell puts it behind the others. */
  lemma RingStore(cells: seq<int>, head: nat, n: nat, x: int)
    requires head < |cells| && n < |cells|
    ensures Ring(cells[Wrap(head + n, |cells|) := x], head, n + 1) == Ring(cells, head, n) + [x]
  {
  }

  lemma RingTake(cells: seq<int>, head: nat, n: nat)
    requires head < |cells| && 0 < n <= |cells|
    ensures Ring(cells, head, n)[0] == cells[head]
    ensures Ring(cells, Wrap(head + 1, |cells|), n - 1) == Ring(cells, head, n)[1..]
  {
  }

  /** The mails in the queue, the tasks waiting for one, and what it was created with. */
  datatype Mails = Mails(contents: seq<int>, waiting: seq<nat>, max: nat, fifo: bool, prio: seq<nat>)

  ghost predicate MailsOk(s: Mails) {
    && |s.contents| <= s.max && 0 < s.max
    && Distinct(s.waiting) && Known(s.prio, s.waiting) && (!s.fifo ==> SortedBy(s.prio, s.waiting))
    && (s.waiting != [] ==> s.contents == [])
  }

  /** A waiting list with task `t` queued. */
  function Joined(s: Mails, t: nat): seq<nat>
    requires Known(s.prio, s.waiting) && t < |s.prio|
  {
    if s.fifo then InsertAt(s.waiting, |s.waiting|, t) else TaskList.Insert(s.prio, s.waiting, t)
  }

  /** A post into a full queue fails; else the mail goes behind the others and the first waiting task takes
      the first mail. */
  function AfterPost(s: Mails, x: int): Mails {
    if |s.contents| == s.max then s
    else if s.waiting == [] then s.(contents := s.contents + [x])
    else s.(contents := (s.contents + [x])[1..], waiting := s.waiting[1..])
  }

  function AfterAccept(s: Mails): Mails {
    if s.contents != [] then s.(contents := s.contents[1..]) else s
  }

  function AfterPend(s: Mails, t: nat): Mails
    requires Known(s.prio, s.waiting) && t < |s.prio|
  {
    if s.contents != [] then s.(contents := s.contents[1..]) else s.(waiting := Joined(s, t))
  }

  /** A waiting task times out or is deleted. */
  ghost function AfterQuit(s: Mails, t: nat): Mails
    requires t in s.waiting
  {
    s.(waiting := RemoveAt(s.waiting, IndexOf(s.waiting, t)))
  }

  /** From `l` to `r` task `t` has come to wait: behind all others when they are served in order of arrival,
      else behind exactly those as urgent as itself; the others keep their turns. */
  ghost predicate TookTurn(l: seq<nat>, r: seq<nat>, t: nat, fifo: bool, prio: seq<nat>)
    requires Known(prio, l) && t < |prio|
  {
    exists k | 0 <= k <= |l| ::
      && r == l[..k] + [t] + l[k..] && (fifo ==> k == |l|)
      && (!fifo ==> forall j | 0 <= j < |l| :: prio[l[j]] <= prio[t] <==> j < k)
  }

  /** From `l` to `r` task `t` has left, and the others keep their turns. */
  ghost predicate GaveUp(l: seq<nat>, r: seq<nat>, t: nat) {
    exists k | 0 <= k < |l| :: l[k] == t && r == l[..k] + l[k + 1..]
  }

  class Queue {
    const cells: array<int>
    const prio: seq<nat>
    const fifo: bool
    var head: nat
    var tail: nat
    var qSize: nat
    var waiting: seq<nat>
    var pmail: seq<int>

    ghost predicate Valid()
      reads this, cells
    {
      && 0 < cells.Length && head < cells.Length && qSize <= cells.Length && tail == Wrap(head + qSize, cells.Length)
      && |pmail| == |prio| && MailsOk(Now())
    }

    ghost function Now(): Mails
      requires head < cells.Length && qSize <= cells.Length
      reads this, cells
    {
      Mails(Ring(cells[..], head, qSize), waiting, cells.Length, fifo, prio)
    }

    /** CoCreateQueue: an empty queue over the caller's cells. */
    constructor (buffer: array<int>, priorities: seq<nat>, byArrival: bool)
      requires buffer.Length > 0
      ensures Valid() && cells == buffer && prio == priorities && fifo == byArrival
      ensures Now().contents == [] && waiting == []
    {
      cells, prio, fifo := buffer, priorities, byArrival;
      head, tail, qSize := 0, 0, 0;
      waiting := [];
      pmail := seq(|priorities|, i => 0);
    }

    /** Lines 174-183 and 246-255 of queue.c and 335-342 of event.c: the oldest mail leaves the ring. */
    method Extract() returns (mail: int)
      requires head < cells.Length && 0 < qSize <= cells.Length && tail == Wrap(head + qSize, cells.Length)
      modifies this`head, this`qSize
      ensures head < cells.Length && qSize <= cells.Length && tail == Wrap(head + qSize, cells.Length)
      ensures old(Now()).contents != [] && mail == old(Now()).contents[0] && Now() == old(Now()).(contents := old(Now()).contents[1..])
    {
      RingTake(cells[..], head, qSize);
      mail := cells[head];
      head := head + 1;
      qSize := qSize - 1;
      if head == cells.Length {
        head := 0;
      }
    }

    /** Lines 342-348: a mail goes behind the others. */
    method Store(mail: int)
      requires head < cells.Length && qSize < cells.Length && tail == Wrap(head + qSize, cells.Length)
      modifies this`tail, this`qSize, cells
      ensures qSize <= cells.Length && tail == Wrap(head + qSize, cells.Length) && qSize == old(qSize) + 1
      ensures Now() == old(Now()).(contents := old(Now()).contents + [mail])
    {
      RingStore(cells[..], head, qSize, mail);
      cells[tail] := mail;
      tail := tail + 1;
      qSize := qSize + 1;
      if tail == cells.Length {
        tail := 0;
      }
    }

    /** CoPostQueueMail; `woken` is the task that gets a mail, if any waits. */
    method Post(mail: int) returns (r: QueueStatus, woken: int)
      requires Valid()
      modifies this`head, this`tail, this`qSize, this`waiting, this`pmail, cells
      ensures Valid() && Now() == AfterPost(old(Now()), mail)
      ensures r == (if |old(Now()).contents| == cells.Length then QueueFull else QueueOk)
      ensures woken == if r == QueueOk && old(waiting) != [] then old(waiting)[0] else NIL
      ensures woken != NIL ==> woken < |pmail| && pmail == old(pmail)[woken := mail]
      ensures woken == NIL ==> pmail == old(pmail)
      ensures if woken == NIL then waiting == old(waiting) else old(waiting) == [woken] + waiting
      ensures Now().contents == if r == QueueFull || woken != NIL then old(Now()).contents else old(Now()).contents + [mail]
    {
      hide Ring, Wrap, Distinct, SortedBy;
      PostKeeps(Now(), mail);
      PostDoes(Now(), mail);
      if qSize == cells.Length {
        return QueueFull, NIL;
      }
      Store(mail);
      r, woken := QueueOk, NIL;
      if waiting != [] {
        var t := waiting[0];
        waiting := waiting[1..];
        var m := Extract();
        pmail := pmail[t := m];
        woken := t;
      }
    }

    /** CoAcceptQueueMail. */
    method Accept() returns (r: QueueStatus, mail: int)
      requires Valid()
      modifies this`head, this`qSize
      ensures Valid() && Now() == AfterAccept(old(Now()))
      ensures r == (if old(Now()).contents == [] then QueueEmpty else QueueOk)
      ensures r == QueueOk ==> old(Now()).contents == [mail] + Now().contents
      ensures r == QueueEmpty ==> Now().contents == []
      ensures waiting == old(waiting)
    {
      AcceptKeeps(Now());
      if qSize != 0 {
        mail := Extract();
        r := QueueOk;
      } else {
        r, mail := QueueEmpty, 0;
      }
    }

    /** CoPendQueueMail by task `t`, up to the point where it has a mail or waits; refused while the
        application holds the scheduler locked. */
    method Pend(t: nat, locked: bool) returns (refused: bool, blocked: bool, mail: int)
      requires Valid() && t < |prio| && t !in waiting
      modifies this`head, this`qSize, this`waiting
      ensures Valid() && refused == locked && Now() == if refused then old(Now()) else AfterPend(old(Now()), t)
      ensures blocked <==> !refused && old(Now()).contents == []
      ensures !refused && !blocked ==> old(Now()).contents == [mail] + Now().contents && waiting == old(waiting)
      ensures blocked ==> Now().contents == [] && t in waiting && TookTurn(old(waiting), waiting, t, fifo, prio)
    {
      if locked {
        return true, false, 0;
      }
      refused := false;
      PendKeeps(Now(), t);
      PendTakesTurn(Now(), t);
      if qSize != 0 {
        mail := Extract();
        blocked := false;
      } else {
        waiting := if fifo then InsertAt(waiting, |waiting|, t) else TaskList.Insert(prio, waiting, t);
        blocked, mail := true, 0;
      }
    }

    /** A task leaves the waiting list without a mail. */
    method Quit(t: nat, k: nat)
      requires Valid() && k < |waiting| && waiting[k] == t
      modifies this`waiting
      ensures Valid() && t in old(Now()).waiting && Now() == AfterQuit(old(Now()), t)
      ensures t !in waiting && GaveUp(old(waiting), waiting, t) && Now().contents == old(Now()).contents
    {
      QuitKeeps(Now(), t);
      waiting := waiting[..k] + waiting[k + 1..];
    }
  }

  /** A task leaving the waiting list keeps it in order. */
  lemma WaitersLeft(s: Mails, k: nat)
    requires MailsOk(s) && k < |s.waiting|
    ensures var r := RemoveAt(s.waiting, k);
            Distinct(r) && Known(s.prio, r) && (!s.fifo ==> SortedBy(s.prio, r))
  {
    DistinctRemove(s.waiting, k);
    if !s.fifo {
      RemoveKeepsOrder(s.prio, s.waiting, k);
    }
  }

  lemma PostKeeps(s: Mails, x: int)
    requires MailsOk(s)
    ensures MailsOk(AfterPost(s, x))
  {
    if |s.contents| < s.max && s.waiting != [] {
      hide SortedBy, Distinct, Known;
      assert RemoveAt(s.waiting, 0) == s.waiting[1..];
      WaitersLeft(s, 0);
    }
  }

  /** A post to a queue that tasks wait for hands the mail itself to the first of them. */
  lemma PostDoes(s: Mails, x: int)
    requires MailsOk(s)
    ensures var r := AfterPost(s, x);
            && (|s.contents| == s.max ==> r == s)
            && (|s.contents| < s.max && s.waiting == [] ==> r.contents == s.contents + [x] && r.waiting == [])
            && (|s.contents| < s.max && s.waiting != [] ==> s.contents == r.contents == [] && s.waiting == [s.waiting[0]] + r.waiting)
  {
  }

  /** A task that finds no mail takes its turn. */
  lemma PendTakesTurn(s: Mails, t: nat)
    requires MailsOk(s) && t < |s.prio| && t !in s.waiting
    ensures s.contents == [] ==> t in AfterPend(s, t).waiting && TookTurn(s.waiting, AfterPend(s, t).waiting, t, s.fifo, s.prio)
    ensures s.contents != [] ==> AfterPend(s, t).waiting == s.waiting && s.contents == s.contents[..1] + AfterPend(s, t).contents
  {
    if s.contents == [] {
      JoinsInTurn(s, t);
      var r := Joined(s, t);
      var k := IndexOf(r, t);
      assert r == s.waiting[..k] + [t] + s.waiting[k..];
    }
  }

  lemma AcceptKeeps(s: Mails)
    requires MailsOk(s)
    ensures MailsOk(AfterAccept(s))
  {
  }

  lemma PendKeeps(s: Mails, t: nat)
    requires MailsOk(s) && t < |s.prio| && t !in s.waiting
    ensures MailsOk(AfterPend(s, t))
  {
    if s.contents == [] {
      DistinctInsert(s.waiting, if s.fifo then |s.waiting| else Place(s.prio, s.waiting, s.prio[t], 0), t);
      if !s.fifo {
        InsertIsStable(s.prio, s.waiting, t);
      }
    }
  }

  lemma QuitKeeps(s: Mails, t: nat)
    requires MailsOk(s) && t in s.waiting
    ensures MailsOk(AfterQuit(s, t))
    ensures forall k | 0 <= k < |s.waiting| && s.waiting[k] == t :: k == IndexOf(s.waiting, t)
    ensures t !in AfterQuit(s, t).waiting && GaveUp(s.waiting, AfterQuit(s, t).waiting, t)
  {
    DistinctRemove(s.waiting, IndexOf(s.waiting, t));
  }

  /** A task that comes to wait takes its turn behind all others, or behind those as urgent as itself; the
      others keep their turns. */
  lemma JoinsInTurn(s: Mails, t: nat)
    requires MailsOk(s) && t < |s.prio| && t !in s.waiting
    ensures var r := Joined(s, t);
            && t in r
            && var k := IndexOf(r, t);
               && RemoveAt(r, k) == s.waiting && (s.fifo ==> k == |s.waiting|)
               && (!s.fifo ==> forall j | 0 <= j < |s.waiting| :: s.prio[s.waiting[j]] <= s.prio[t] <==> j < k)
  {
    var n := if s.fifo then |s.waiting| else Place(s.prio, s.waiting, s.prio[t], 0);
    DistinctInsert(s.waiting, n, t);
    if !s.fifo {
      PlaceSplits(s.prio, s.waiting, s.prio[t], 0);
    }
    var r := Joined(s, t);
    assert r[n] == t && IndexOf(r, t) == n;
    assert RemoveAt(r, n) == s.waiting;
  }

  datatype MailOp = Post(mail: int) | Accept | Pend(t: nat) | Quit(t: nat)

  ghost predicate MailAllowed(s: Mails, op: MailOp) {
    match op
    case Pend(t) => t < |s.prio| && t !in s.waiting
    case Quit(t) => t in s.waiting
    case _ => true
  }

  ghost function MailStep(s: Mails, op: MailOp): (r: Mails)
    requires MailsOk(s) && MailAllowed(s, op)
    ensures MailsOk(r) && r.max == s.max && r.fifo == s.fifo && r.prio == s.prio
  {
    match op
    case Post(x) => PostKeeps(s, x); AfterPost(s, x)
    case Accept => AcceptKeeps(s); AfterAccept(s)
    case Pend(t) => PendKeeps(s, t); AfterPend(s, t)
    case Quit(t) => QuitKeeps(s, t); AfterQuit(s, t)
  }

  ghost predicate MailRun(s: Mails, ops: seq<MailOp>)
    requires MailsOk(s)
    decreases |ops|
  {
    ops == [] || (MailAllowed(s, ops[0]) && MailRun(MailStep(s, ops[0]), ops[1..]))
  }

  ghost function MailsAfter(s: Mails, ops: seq<MailOp>): (r: Mails)
    requires MailsOk(s) && MailRun(s, ops)
    ensures MailsOk(r) && r.max == s.max
    decreases |ops|
  {
    if ops == [] then s else MailsAfter(MailStep(s, ops[0]), ops[1..])
  }

  /** The mail a step takes in. */
  function Taken(s: Mails, op: MailOp): seq<int> {
    if op.Post? && |s.contents| < s.max then [op.mail] else []
  }

  /** The mail a step hands to a task: to the caller, or by a post to the first waiting task. */
  function Handed(s: Mails, op: MailOp): seq<int> {
    match op
    case Post(x) => if |s.contents| < s.max && s.waiting != [] then (s.contents + [x])[..1] else []
    case Accept => if s.contents != [] then s.contents[..1] else []
    case Pend(_) => if s.contents != [] then s.contents[..1] else []
    case Quit(_) => []
  }

  lemma StepKeepsMails(s: Mails, op: MailOp)
    requires MailsOk(s) && MailAllowed(s, op)
    ensures s.contents + Taken(s, op) == Handed(s, op) + MailStep(s, op).contents
  {
  }

  ghost function Posted(s: Mails, ops: seq<MailOp>): seq<int>
    requires MailsOk(s) && MailRun(s, ops)
    decreases |ops|
  {
    if ops == [] then [] else Taken(s, ops[0]) + Posted(MailStep(s, ops[0]), ops[1..])
  }

  ghost function Delivered(s: Mails, ops: seq<MailOp>): seq<int>
    requires MailsOk(s) && MailRun(s, ops)
    decreases |ops|
  {
    if ops == [] then [] else Handed(s, ops[0]) + Delivered(MailStep(s, ops[0]), ops[1..])
  }

  /** Over every run the mails posted are the mails delivered, in the same order, followed by those still in
      the queue; there are never more than its size, and tasks wait only while it is empty. */
  lemma {:induction false} MailsConserved(s: Mails, ops: seq<MailOp>)
    requires MailsOk(s) && MailRun(s, ops)
    ensures var r := MailsAfter(s, ops);
            && s.contents + Posted(s, ops) == Delivered(s, ops) + r.contents
            && |r.contents| <= s.max && (r.waiting != [] ==> r.contents == [])
    decreases |ops|
  {
    hide MailAllowed, MailStep, Taken, Handed;
    if ops != [] {
      var r := MailStep(s, ops[0]);
      StepKeepsMails(s, ops[0]);
      MailsConserved(r, ops[1..]);
      Rejoin(s.contents, Taken(s, ops[0]), Posted(r, ops[1..]), Handed(s, ops[0]), r.contents, Delivered(r, ops[1..]),
              MailsAfter(r, ops[1..]).contents);
    }
  }

  /** The task that comes to wait: one whose pend finds no mail. */
  function Comer(s: Mails, op: MailOp): seq<nat> {
    if op.Pend? && s.contents == [] then [op.t] else []
  }

  /** The task a post serves. */
  function ServedBy(s: Mails, op: MailOp): seq<nat> {
    if op.Post? && |s.contents| < s.max && s.waiting != [] then [s.waiting[0]] else []
  }

  function Quitter(op: MailOp): seq<nat> {
    if op.Quit? then [op.t] else []
  }

  /** From `l` to `r` the waiting tasks change by those that come, are served and give up. */
  ghost predicate Balanced(l: seq<nat>, come: seq<nat>, served: seq<nat>, quit: seq<nat>, r: seq<nat>, fifo: bool) {
    && multiset(l) + multiset(come) == multiset(served) + multiset(quit) + multiset(r)
    && (fifo && quit == [] ==> l + come == served + r)
  }

  lemma StepKeepsWaiters(s: Mails, op: MailOp)
    requires MailsOk(s) && MailAllowed(s, op)
    ensures Balanced(s.waiting, Comer(s, op), ServedBy(s, op), Quitter(op), MailStep(s, op).waiting, s.fifo)
  {
    hide MailStep, Balanced, Comer, ServedBy, Quitter, MailsOk;
    match op
    case Post(x) => PostWaiters(s, x);
    case Pend(t) => PendWaiters(s, t);
    case Quit(t) => QuitWaiters(s, t);
    case Accept => AcceptWaiters(s);
  }

  lemma AcceptWaiters(s: Mails)
    requires MailsOk(s)
    ensures Balanced(s.waiting, Comer(s, Accept), ServedBy(s, Accept), Quitter(Accept), MailStep(s, Accept).waiting, s.fifo)
  {
  }

  lemma PostWaiters(s: Mails, x: int)
    requires MailsOk(s)
    ensures Balanced(s.waiting, Comer(s, Post(x)), ServedBy(s, Post(x)), Quitter(Post(x)), MailStep(s, Post(x)).waiting, s.fifo)
  {
    FirstCounts(s.waiting);
    hide SortedBy, Distinct, Known;
  }

  lemma PendWaiters(s: Mails, t: nat)
    requires MailsOk(s) && t < |s.prio| && t !in s.waiting
    ensures Balanced(s.waiting, Comer(s, Pend(t)), ServedBy(s, Pend(t)), Quitter(Pend(t)), MailStep(s, Pend(t)).waiting, s.fifo)
  {
    var k := if s.fifo then |s.waiting| else Place(s.prio, s.waiting, s.prio[t], 0);
    InsertCounts(s.waiting, k, t);
    assert s.contents == [] ==> MailStep(s, Pend(t)).waiting == InsertAt(s.waiting, k, t);
    hide SortedBy, Distinct, InsertAt, Place, MailsOk, MailStep, TaskList.Insert;
    if s.contents != [] {
      assert MailStep(s, Pend(t)).waiting == s.waiting;
    }
  }

  lemma QuitWaiters(s: Mails, t: nat)
    requires MailsOk(s) && t in s.waiting
    ensures Balanced(s.waiting, Comer(s, Quit(t)), ServedBy(s, Quit(t)), Quitter(Quit(t)), MailStep(s, Quit(t)).waiting, s.fifo)
  {
    RemoveCounts(s.waiting, IndexOf(s.waiting, t));
    hide SortedBy, Distinct, RemoveAt;
  }

  lemma FirstCounts(l: seq<nat>)
    ensures l != [] ==> l == [l[0]] + l[1..] && multiset(l) == multiset([l[0]]) + multiset(l[1..])
  {
    if l != [] {
      assert l == [l[0]] + l[1..];
    }
  }

  lemma InsertCounts(l: seq<nat>, k: nat, t: nat)
    requires k <= |l|
    ensures multiset(InsertAt(l, k, t)) == multiset(l) + multiset([t]) && InsertAt(l, |l|, t) == l + [t]
  {
    assert l == l[..k] + l[k..];
  }

  lemma RemoveCounts(l: seq<nat>, k: nat)
    requires k < |l|
    ensures multiset(l) == multiset([l[k]]) + multiset(RemoveAt(l, k))
  {
    assert l == l[..k] + [l[k]] + l[k + 1..];
  }

  /** Two steps of a balance in a row. */
  lemma Balance(w: multiset<nat>, c: multiset<nat>, s: multiset<nat>, q: multiset<nat>, v: multiset<nat>,
                c': multiset<nat>, s': multiset<nat>, q': multiset<nat>, u: multiset<nat>)
    requires w + c == s + q + v && v + c' == s' + q' + u
    ensures w + (c + c') == (s + s') + (q + q') + u
  {
    assert w + (c + c') == (w + c) + c';
    assert (s + q + v) + c' == s + q + (v + c');
    assert s + q + (s' + q' + u) == (s + s') + (q + q') + u;
  }

  ghost function Comers(s: Mails, ops: seq<MailOp>): seq<nat>
    requires MailsOk(s) && MailRun(s, ops)
    decreases |ops|
  {
    if ops == [] then [] else Comer(s, ops[0]) + Comers(MailStep(s, ops[0]), ops[1..])
  }

  ghost function Served(s: Mails, ops: seq<MailOp>): seq<nat>
    requires MailsOk(s) && MailRun(s, ops)
    decreases |ops|
  {
    if ops == [] then [] else ServedBy(s, ops[0]) + Served(MailStep(s, ops[0]), ops[1..])
  }

  function Quitters(ops: seq<MailOp>): seq<nat> {
    if ops == [] then [] else Quitter(ops[0]) + Quitters(ops[1..])
  }

  /** Over every run the tasks that came to wait are those posts served, those that gave up and those that
      still wait; none is lost and none served twice. */
  lemma {:induction false} WaitersConserved(s: Mails, ops: seq<MailOp>)
    requires MailsOk(s) && MailRun(s, ops)
    ensures multiset(s.waiting) + multiset(Comers(s, ops))
            == multiset(Served(s, ops)) + multiset(Quitters(ops)) + multiset(MailsAfter(s, ops).waiting)
    decreases |ops|
  {
    hide MailAllowed, MailStep, Comer, ServedBy, Quitter, MailsOk;
    if ops != [] {
      var r := MailStep(s, ops[0]);
      StepKeepsWaiters(s, ops[0]);
      WaitersConserved(r, ops[1..]);
      Balance(multiset(s.waiting), multiset(Comer(s, ops[0])), multiset(ServedBy(s, ops[0])), multiset(Quitter(ops[0])),
              multiset(r.waiting), multiset(Comers(r, ops[1..])), multiset(Served(r, ops[1..])), multiset(Quitters(ops[1..])),
              multiset(MailsAfter(r, ops[1..]).waiting));
    }
  }

  /** In a first-come queue without timeouts the tasks are served in the order in which they came. */
  lemma {:induction false} ServedInOrderOfArrival(s: Mails, ops: seq<MailOp>)
    requires MailsOk(s) && MailRun(s, ops) && s.fifo && Quitters(ops) == []
    ensures s.waiting + Comers(s, ops) == Served(s, ops) + MailsAfter(s, ops).waiting
    decreases |ops|
  {
    hide MailAllowed, MailStep, Comer, ServedBy, MailsOk;
    if ops != [] {
      var r := MailStep(s, ops[0]);
      StepKeepsWaiters(s, ops[0]);
      ServedInOrderOfArrival(r, ops[1..]);
      Rejoin(s.waiting, Comer(s, ops[0]), Comers(r, ops[1..]), ServedBy(s, ops[0]), r.waiting, Served(r, ops[1..]),
             MailsAfter(r, ops[1..]).waiting);
    }
  }
}
