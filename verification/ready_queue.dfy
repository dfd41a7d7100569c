/** The circular ready queue (src/task.c:173-192, 218-226, 256-265, 291-311) and its round-robin order. */
module ReadyQueue {
  import opened Memory
  import opened OrderedArrays
  import opened Switching
  import opened SwitchingRuns

  /** The position after i in a circle of n. */
  function Step(i: nat, n: nat): (k: nat)
    requires i < n
    ensures k < n
  {
    if i + 1 < n then i + 1 else 0
  }

  /** Task i of ts is a block whose link leads to the one after it. */
  predicate LinkAt(tcbs: map<Word, Tcb>, ts: seq<Word>, i: nat)
    requires i < |ts|
  {
    ts[i] != 0 && ts[i] in tcbs && tcbs[ts[i]].next == ts[Step(i, |ts|)]
  }

  /** The links lead around ts once and back. */
  ghost predicate Cycle(tcbs: map<Word, Tcb>, ts: seq<Word>) {
    && |ts| > 0
    && (forall i, j :: 0 <= i < j < |ts| ==> ts[i] != ts[j])
    && forall i :: 0 <= i < |ts| ==> LinkAt(tcbs, ts, i)
  }

  ghost predicate Ring(m: Machine, ts: seq<Word>) {
    Cycle(m.tcbs, ts) && m.start == ts[0] && m.end == ts[|ts| - 1] && m.end in m.tcbs
  }

  /** The task reached from t by n links. */
  function After(tcbs: map<Word, Tcb>, t: Word, n: nat): (r: Word)
    decreases n
  {
    if n == 0 then t
    else if t in tcbs then After(tcbs, tcbs[t].next, n - 1)
    else 0
  }

  lemma {:induction false} AfterAt(tcbs: map<Word, Tcb>, ts: seq<Word>, k: nat, n: nat)
    requires Cycle(tcbs, ts) && k < |ts| && n <= |ts|
    ensures After(tcbs, ts[k], n) == ts[if k + n < |ts| then k + n else k + n - |ts|]
    decreases n
  {
    if n > 0 {
      assert LinkAt(tcbs, ts, k);
      AfterAt(tcbs, ts, Step(k, |ts|), n - 1);
    }
  }

  lemma {:induction false} AfterStays(tcbs: map<Word, Tcb>, ts: seq<Word>, k: nat, n: nat)
    requires Cycle(tcbs, ts) && k < |ts|
    ensures After(tcbs, ts[k], n) in ts
    decreases n
  {
    if n > 0 {
      assert LinkAt(tcbs, ts, k);
      AfterStays(tcbs, ts, Step(k, |ts|), n - 1);
    }
  }

  /** u is n links after t. */
  predicate Reaches(tcbs: map<Word, Tcb>, t: Word, n: nat, u: Word) {
    After(tcbs, t, n) == u
  }

  lemma Reached(tcbs: map<Word, Tcb>, ts: seq<Word>, k: nat, u: Word) returns (n: nat)
    requires Cycle(tcbs, ts) && k < |ts| && u in ts
    ensures 1 <= n <= |ts| && Reaches(tcbs, ts[k], n, u)
  {
    var j :| 0 <= j < |ts| && ts[j] == u;
    n := if j > k then j - k else j + |ts| - k;
    AfterAt(tcbs, ts, k, n);
  }

  /**
    Round robin: from any task of a ring of n, n links lead back to it, and on the way they lead to
    every task of the ring exactly once.
  */
  lemma RoundRobin(tcbs: map<Word, Tcb>, ts: seq<Word>, t: Word)
    requires Cycle(tcbs, ts) && t in ts
    ensures After(tcbs, t, |ts|) == t
    ensures forall u :: u in ts ==> exists n :: 1 <= n <= |ts| && Reaches(tcbs, t, n, u)
    ensures forall a, b :: 1 <= a < b <= |ts| ==> After(tcbs, t, a) != After(tcbs, t, b)
  {
    var k :| 0 <= k < |ts| && ts[k] == t;
    AfterAt(tcbs, ts, k, |ts|);
    forall u | u in ts
      ensures exists n :: 1 <= n <= |ts| && Reaches(tcbs, t, n, u)
    {
      var n := Reached(tcbs, ts, k, u);
    }
    forall a, b | 1 <= a < b <= |ts|
      ensures After(tcbs, t, a) != After(tcbs, t, b)
    {
      AfterAt(tcbs, ts, k, a);
      AfterAt(tcbs, ts, k, b);
    }
  }

  // ---------- creation ----------

  /** Creation extends the ring by one task, which will run last in the round. */
  lemma LinkedRing(m: Machine, ts: seq<Word>, t: Word, tcb: Tcb)
    requires if m.start == 0 then ts == [] else Ring(m, ts)
    requires t != 0 && t !in m.tcbs
    ensures Ring(Linked(m, t, tcb), ts + [t])
  {
    var r, us := Linked(m, t, tcb), ts + [t];
    if ts != [] {
      forall i | 0 <= i < |us|
        ensures LinkAt(r.tcbs, us, i)
      {
        if i < |ts| {
          assert LinkAt(m.tcbs, ts, i);
        }
        if i < |ts| - 1 {
          assert us[i] == ts[i] != m.end;
        }
      }
      assert forall i :: 0 <= i < |ts| ==> us[i] == ts[i] && LinkAt(m.tcbs, ts, i);
    } else {
      assert LinkAt(r.tcbs, us, 0);
    }
  }

  // ---------- removal ----------

  /** The position whose link end_task rewrites. */
  function Before(i: nat, n: nat): (k: nat)
    requires i < n
    ensures k < n && Step(k, n) == i
    ensures forall j :: 0 <= j < n && Step(j, n) == i ==> j == k
  {
    if i == 0 then n - 1 else i - 1
  }

  /** end_task on task i of the ring ts; the end of the queue is not updated. */
  function Unlinked(m: Machine, ts: seq<Word>, i: nat): (r: Machine)
    requires i < |ts| && Cycle(m.tcbs, ts)
  {
    var p := ts[Before(i, |ts|)];
    assert LinkAt(m.tcbs, ts, i) && LinkAt(m.tcbs, ts, Before(i, |ts|));
    m.(tcbs := m.tcbs[p := m.tcbs[p].(next := m.tcbs[ts[i]].next)],
       start := if m.start == ts[i] then m.tcbs[ts[i]].next else m.start)
  }

  /** The links go around the other tasks in their old order. */
  lemma UnlinkedCycle(m: Machine, ts: seq<Word>, i: nat)
    requires Ring(m, ts) && i < |ts| && |ts| >= 2
    ensures var r := Unlinked(m, ts, i);
            Cycle(r.tcbs, Removed(ts, i)) && r.start == Removed(ts, i)[0]
  {
    var r, us := Unlinked(m, ts, i), Removed(ts, i);
    var p := Before(i, |ts|);
    assert LinkAt(m.tcbs, ts, i) && LinkAt(m.tcbs, ts, p);
    forall k | 0 <= k < |us|
      ensures LinkAt(r.tcbs, us, k)
    {
      var j := if k < i then k else k + 1;
      assert us[k] == ts[j] && LinkAt(m.tcbs, ts, j);
      if j != p {
        assert ts[j] != ts[p];
      }
    }
  }

  /**
    end_task leaves a well-formed queue without the task exactly when the ring has another task and
    the task is not the last; of a ring of one it changes nothing.
  */
  lemma EndTaskExactly(m: Machine, ts: seq<Word>, i: nat)
    requires Ring(m, ts) && i < |ts|
    ensures Ring(Unlinked(m, ts, i), Removed(ts, i)) <==> |ts| >= 2 && ts[i] != m.end
    ensures |ts| == 1 ==> Unlinked(m, ts, i) == m
  {
    if |ts| >= 2 {
      UnlinkedCycle(m, ts, i);
      var us := Removed(ts, i);
      if i < |ts| - 1 {
        assert us[|us| - 1] == ts[|ts| - 1];
      } else {
        assert us[|us| - 1] == ts[|ts| - 2];
      }
    } else {
      var p := ts[0];
      assert LinkAt(m.tcbs, ts, 0);
      assert m.tcbs[p := m.tcbs[p]] == m.tcbs;
    }
  }

  lemma UnlinkedLinksOnly(m: Machine, ts: seq<Word>, i: nat)
    requires i < |ts| && Cycle(m.tcbs, ts)
    ensures LinksOnly(m, Unlinked(m, ts, i))
  {
    assert LinkAt(m.tcbs, ts, i) && LinkAt(m.tcbs, ts, Before(i, |ts|));
  }

  /** A task created after the last one of a ring was ended hangs from the ended task: it never runs. */
  lemma CreatedAfterEndOfLast(m: Machine, ts: seq<Word>, t: Word, tcb: Tcb)
    requires Ring(m, ts) && |ts| >= 2 && t != 0 && t !in m.tcbs
    ensures var i := |ts| - 1;
            var r, us := Linked(Unlinked(m, ts, i), t, tcb), Removed(ts, i);
            && t in r.tcbs && r.end == t && Cycle(r.tcbs, us)
            && forall k, n: nat :: 0 <= k < |us| ==> After(r.tcbs, us[k], n) != t
  {
    var i := |ts| - 1;
    UnlinkedCycle(m, ts, i);
    var q, us := Unlinked(m, ts, i), Removed(ts, i);
    var r := Linked(q, t, tcb);
    forall k | 0 <= k < |us|
      ensures LinkAt(r.tcbs, us, k) && us[k] != t
    {
      assert LinkAt(q.tcbs, us, k);
      assert us[k] == ts[k] != ts[i] && LinkAt(m.tcbs, ts, k);
    }
    forall k, n: nat | 0 <= k < |us|
      ensures After(r.tcbs, us[k], n) != t
    {
      AfterStays(r.tcbs, us, k, n);
    }
  }

  /**
    After a failed creation, which links and fills the block at address 0, Schedule takes the null
    pointer for the end of the queue: the old ring goes on as it was, and a task created after that,
    which hangs from the null block, never gets a turn.
  */
  lemma NullBlockSkipped(m: Machine, ts: seq<Word>, k: nat, block: Tcb, u: Word, tcb: Tcb)
    requires Ring(m, ts) && k < |ts| && 0 !in m.tcbs && u !in m.tcbs && u != 0
    ensures var r := Linked(m, 0, block);
            && r.end == 0 && ts[k] in r.tcbs && Picked(r.(current := ts[k])) == ts[Step(k, |ts|)]
            && var q := Linked(r, u, tcb);
               ts[k] in q.tcbs && Picked(q.(current := ts[k])) == ts[Step(k, |ts|)]
  {
    assert LinkAt(m.tcbs, ts, k) && LinkAt(m.tcbs, ts, 0);
    assert LinkAt(m.tcbs, ts, |ts| - 1);
    if k < |ts| - 1 {
      assert ts[k] != ts[|ts| - 1];
      assert LinkAt(m.tcbs, ts, k + 1);
    }
  }

  // ---------- whole runs ----------

  /** The position of t in ts. */
  function IndexIn(ts: seq<Word>, t: Word): (k: nat)
    requires t in ts
    ensures k < |ts| && ts[k] == t
  {
    if ts[0] == t then 0 else 1 + IndexIn(ts[1..], t)
  }

  /** The ring after one event: a created task comes last, an ended one leaves. */
  function Moved(ts: seq<Word>, e: Event): (us: seq<Word>) {
    if e.Create? then ts + [e.t]
    else if e.End? && e.task in ts then Removed(ts, IndexIn(ts, e.task))
    else ts
  }

  /** The ring after all of them. */
  function Order(ts: seq<Word>, es: seq<Event>): (us: seq<Word>) {
    if es == [] then ts else Moved(Order(ts, es[..|es| - 1]), es[|es| - 1])
  }

  /** The queue of m is the ring ts, or empty. */
  ghost predicate Queued(m: Machine, ts: seq<Word>) {
    if m.start == 0 then ts == [] else Ring(m, ts)
  }

  /** An End at i is end_task on a task of the ring other than its last. */
  ghost predicate EndsWell(ms: seq<Machine>, es: seq<Event>, ts: seq<Word>, i: nat)
    requires i < |es| && |ms| == |es| + 1
  {
    es[i].End? ==>
      var us, task := Order(ts, es[..i]), es[i].task;
      && task in us && task != ms[i].end
      && (Cycle(ms[i].tcbs, us) ==> ms[i + 1] == Unlinked(ms[i], us, IndexIn(us, task)))
  }

  ghost predicate Orderly(ms: seq<Machine>, es: seq<Event>, ts: seq<Word>) {
    Run(ms, es) && forall i :: 0 <= i < |es| ==> EndsWell(ms, es, ts, i)
  }

  /**
    Over every run of computations, switches, creations and end_task calls that spare the last task,
    the queue stays one circle, start and end included, with its tasks in order of creation.
  */
  lemma {:induction false} QueueKept(ms: seq<Machine>, es: seq<Event>, ts: seq<Word>)
    requires Orderly(ms, es, ts) && Queued(ms[0], ts)
    ensures Formed(ms[|es|]) && Queued(ms[|es|], Order(ts, es))
    decreases |es|
  {
    hide Formed, Happens, Queued, Unlinked;
    RunForms(ms, es);
    if es != [] {
      var n := |es| - 1;
      OrderlyPrefix(ms, es, ts);
      QueueKept(ms[..n + 1], es[..n], ts);
      assert HappensAt(ms, es, n) && EndsWell(ms, es, ts, n);
      QueueStep(ms[n], es[n], ms[n + 1], Order(ts, es[..n]), Order(ts, es));
    }
  }

  lemma OrderlyPrefix(ms: seq<Machine>, es: seq<Event>, ts: seq<Word>)
    requires Orderly(ms, es, ts) && es != []
    ensures Orderly(ms[..|es|], es[..|es| - 1], ts)
  {
    hide Happens, Formed, Order, Unlinked, Cycle;
    var n := |es| - 1;
    var ps, qs := ms[..n + 1], es[..n];
    forall i | 0 <= i < n
      ensures HappensAt(ps, qs, i) && EndsWell(ps, qs, ts, i)
    {
      assert HappensAt(ms, es, i) && EndsWell(ms, es, ts, i);
      assert qs[..i] == es[..i];
    }
  }

  lemma QueueStep(m: Machine, e: Event, r: Machine, ts: seq<Word>, us: seq<Word>)
    requires Happens(m, e, r) && Queued(m, ts)
    requires e.End? ==>
               && e.task in ts && e.task != m.end
               && (Cycle(m.tcbs, ts) ==> r == Unlinked(m, ts, IndexIn(ts, e.task)))
    requires us == Moved(ts, e)
    ensures Queued(r, us)
  {
    hide Popped, PushedFour, NewStack, SavedBytes, Linked, Unlinked, Cycle, Removed;
    match e {
      case Own =>
      case Switch =>
        if m.start != 0 {
          CycleSameLinks(m.tcbs, r.tcbs, ts);
        }
      case Create(t, top, entry, cs) =>
        LinkedRing(m, ts, t, Tcb(top, top - 32, 0));
        assert us != [] && us[|us| - 1] == t;
        RingStarts(Linked(m, t, Tcb(top, top - 32, 0)), us);
      case End(task) =>
        EndTaskExactly(m, ts, IndexIn(ts, task));
        RingStarts(r, us);
    }
  }

  lemma RingStarts(m: Machine, ts: seq<Word>)
    requires Ring(m, ts)
    ensures m.start != 0
  {
    assert LinkAt(m.tcbs, ts, 0);
  }

  lemma CycleSameLinks(a: map<Word, Tcb>, b: map<Word, Tcb>, ts: seq<Word>)
    requires SameLinks(a, b) && Cycle(a, ts)
    ensures Cycle(b, ts)
  {
    forall i | 0 <= i < |ts|
      ensures LinkAt(b, ts, i)
    {
      assert LinkAt(a, ts, i);
    }
  }

  /** The task that Schedule picks. */
  function Picked(m: Machine): (t: Word)
    requires m.current != 0 ==> m.current in m.tcbs
  {
    var next := if m.current != 0 then m.tcbs[m.current].next else m.start;
    if next == 0 then m.start else next
  }

  /** A run in which every switch is to the task that Schedule picks, and tasks neither come nor go. */
  ghost predicate Scheduled(ms: seq<Machine>, es: seq<Event>) {
    && Run(ms, es)
    && forall i :: 0 <= i < |es| ==> es[i].Own? || (es[i].Switch? && Calling(ms[i]) && Argument(ms[i]) == Picked(ms[i]))
  }

  function Switches(es: seq<Event>): (n: nat)
    ensures n <= |es|
  {
    if es == [] then 0 else Switches(es[..|es| - 1]) + if es[|es| - 1].Switch? then 1 else 0
  }

  lemma {:induction false} AfterMore(tcbs: map<Word, Tcb>, t: Word, n: nat)
    requires 0 !in tcbs && After(tcbs, t, n) in tcbs
    ensures After(tcbs, t, n + 1) == tcbs[After(tcbs, t, n)].next
    decreases n
  {
    if n > 0 {
      AfterMore(tcbs, tcbs[t].next, n - 1);
    }
  }

  ghost predicate SameLinks(a: map<Word, Tcb>, b: map<Word, Tcb>) {
    a.Keys == b.Keys && forall t :: t in a ==> a[t].next == b[t].next
  }

  lemma NullFree(m: Machine)
    requires Formed(m)
    ensures 0 !in m.tcbs
  {
  }

  /** After a scheduled run with n switches the running task is the n-th after the first. */
  lemma {:induction false} TurnsFollowLinks(ms: seq<Machine>, es: seq<Event>, ts: seq<Word>)
    requires Scheduled(ms, es) && Cycle(ms[0].tcbs, ts) && ms[0].current in ts
    ensures ms[|es|].current == After(ms[0].tcbs, ms[0].current, Switches(es))
    ensures SameLinks(ms[0].tcbs, ms[|es|].tcbs)
    decreases |es|
  {
    hide Formed, Popped, PushedFour;
    if es != [] {
      var n := |es| - 1;
      PrefixScheduled(ms, es, n);
      TurnsFollowLinks(ms[..n + 1], es[..n], ts);
      assert HappensAt(ms, es, n);
      var c := ms[n].current;
      NullFree(ms[0]);
      if es[n].Switch? {
        var k :| 0 <= k < |ts| && ts[k] == ms[0].current;
        AfterStays(ms[0].tcbs, ts, k, Switches(es[..n]));
        var j :| 0 <= j < |ts| && ts[j] == c;
        assert LinkAt(ms[0].tcbs, ts, j);
        AfterMore(ms[0].tcbs, ms[0].current, Switches(es[..n]));
        assert LinkAt(ms[0].tcbs, ts, Step(j, |ts|));
        assert ms[0].tcbs[c].next == ts[Step(j, |ts|)] != 0;
      }
    }
  }

  /** Some prefix ends with the k-th switch. */
  lemma {:induction false} SwitchNumber(es: seq<Event>, k: nat) returns (i: nat)
    requires 1 <= k <= Switches(es)
    ensures i < |es| && es[i].Switch? && Switches(es[..i + 1]) == k
    decreases |es|
  {
    var n := |es| - 1;
    assert es[..n + 1] == es;
    if Switches(es) == k && es[n].Switch? {
      i := n;
    } else {
      i := SwitchNumber(es[..n], k);
      assert es[..n][..i + 1] == es[..i + 1];
    }
  }

  /**
    Fairness: in a scheduled run with as many switches as the ring has tasks, every task of the ring
    gets its turn, and the run ends with the task it began with.
  */
  lemma EveryTaskRuns(ms: seq<Machine>, es: seq<Event>, ts: seq<Word>, u: Word)
    requires Scheduled(ms, es) && Cycle(ms[0].tcbs, ts) && ms[0].current in ts
    requires Switches(es) == |ts| && u in ts
    ensures exists i :: 0 <= i < |es| && es[i].Switch? && ms[i + 1].current == u
    ensures ms[|es|].current == ms[0].current
  {
    hide Formed, Happens, Cycle, Switches, After;
    RoundRobin(ms[0].tcbs, ts, ms[0].current);
    TurnsFollowLinks(ms, es, ts);
    var n :| 1 <= n <= |ts| && Reaches(ms[0].tcbs, ms[0].current, n, u);
    var i := SwitchNumber(es, n);
    PrefixScheduled(ms, es, i + 1);
    TurnsFollowLinks(ms[..i + 2], es[..i + 1], ts);
  }

  lemma PrefixScheduled(ms: seq<Machine>, es: seq<Event>, n: nat)
    requires Scheduled(ms, es) && n <= |es|
    ensures |ms| == |es| + 1 && Scheduled(ms[..n + 1], es[..n])
  {
    hide Happens, Calling, Argument, Picked;
    var ps, qs := ms[..n + 1], es[..n];
    forall i | 0 <= i < n
      ensures HappensAt(ps, qs, i)
    {
      assert HappensAt(ms, es, i);
    }
  }
}
