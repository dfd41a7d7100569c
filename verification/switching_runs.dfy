/** Whole runs of computations, context switches, creations and ends of tasks. */
module SwitchingRuns {
  import opened Memory
  import opened Switching

  /**
    Own: whoever runs computes and writes the stack of no task but the running one.  End: end_task,
    which changes links only.
  */
  datatype Event = Own | Switch | Create(t: Word, top: Word, entry: Word, cs: Word) | End(task: Word)

  ghost predicate LinksOnly(m: Machine, r: Machine) {
    && r == m.(tcbs := r.tcbs, start := r.start)
    && r.tcbs.Keys == m.tcbs.Keys
    && forall t :: t in m.tcbs ==> r.tcbs[t] == m.tcbs[t].(next := r.tcbs[t].next)
  }

  ghost predicate Happens(m: Machine, e: Event, r: Machine) {
    && Formed(m)
    && match e
       case Own =>
         && r == m.(regs := r.regs, bytes := r.bytes) && |r.bytes| == |m.bytes|
         && forall t :: t in m.tcbs && t != m.current ==>
                          SameWithin(m.bytes, r.bytes, m.tcbs[t].esp0 - STACK_SIZE, m.tcbs[t].esp0)
       case Switch => Calling(m) && r == Switched(m)
       case Create(t, top, entry, cs) =>
         Unused(m, t, top) && (m.start != 0 ==> m.end in m.tcbs) && r == Created(m, t, top, entry, cs)
       case End(_) => LinksOnly(m, r)
  }

  lemma HappensKeeps(m: Machine, e: Event, r: Machine)
    requires Happens(m, e, r)
    ensures Formed(r)
  {
    match e {
      case Own =>
      case Switch => SwitchKeeps(m);
      case Create(t, top, entry, cs) => CreateKeeps(m, t, top, entry, cs);
      case End(_) =>
    }
  }

  /** A suspended task stays suspended as it is through every event but a switch to it. */
  lemma HappensKeepsParked(m: Machine, e: Event, r: Machine, t: Word, saved: Regs)
    requires Happens(m, e, r) && Parked(m, t, saved) && t != m.current
    requires e.Switch? ==> r.current != t
    ensures Parked(r, t, saved) && r.current != t
  {
    hide Popped, PushedFour, NewStack;
    match e {
      case Own =>
        PoppedSame(m.bytes, r.bytes, m.tcbs[t].esp);
      case Switch => SwitchResumes(m, t, saved);
      case Create(u, top, entry, cs) => CreateKeepsParked(m, u, top, entry, cs, t, saved);
      case End(_) =>
    }
  }

  /** A run: the machines ms passed through by the events es. */
  ghost predicate Run(ms: seq<Machine>, es: seq<Event>) {
    && |ms| == |es| + 1 && Formed(ms[0])
    && forall i :: 0 <= i < |es| ==> HappensAt(ms, es, i)
  }

  ghost predicate HappensAt(ms: seq<Machine>, es: seq<Event>, i: nat)
    requires i < |es| && |ms| == |es| + 1
  {
    Happens(ms[i], es[i], ms[i + 1])
  }

  lemma {:induction false} RunForms(ms: seq<Machine>, es: seq<Event>)
    requires Run(ms, es)
    ensures Formed(ms[|es|])
  {
    hide Formed, Happens;
    if es != [] {
      var n := |es| - 1;
      assert HappensAt(ms, es, n);
      HappensKeeps(ms[n], es[n], ms[n + 1]);
    }
  }

  /** From i to j nobody switches to t. */
  ghost predicate Waits(ms: seq<Machine>, es: seq<Event>, t: Word, i: nat, j: nat)
    requires Run(ms, es) && i <= j <= |es|
  {
    forall k :: i <= k < j && es[k].Switch? ==> ms[k + 1].current != t
  }

  lemma {:induction false} StaysParked(ms: seq<Machine>, es: seq<Event>, t: Word, r: Regs, i: nat, j: nat)
    requires Run(ms, es) && i <= j <= |es| && Waits(ms, es, t, i, j)
    requires Parked(ms[i], t, r) && ms[i].current != t
    ensures Parked(ms[j], t, r) && ms[j].current != t
    decreases j
  {
    hide Parked, Happens;
    if i < j {
      StaysParked(ms, es, t, r, i, j - 1);
      assert HappensAt(ms, es, j - 1);
      HappensKeepsParked(ms[j - 1], es[j - 1], ms[j], t, r);
    }
  }

  /**
    Transparency of the context switch: in any run in which running tasks write their own stacks
    only, a task that calls switch_to_task at i and is next switched to at j resumes with exactly
    the registers, stack pointer and return address of a call that had returned at once.
  */
  lemma ResumesAsSuspended(ms: seq<Machine>, es: seq<Event>, i: nat, j: nat)
    requires Run(ms, es) && i < j < |es| && es[i].Switch? && es[j].Switch?
    requires Waits(ms, es, ms[i].current, i, j) && ms[j + 1].current == ms[i].current
    ensures Calling(ms[i]) && ms[j + 1].regs == Returned(ms[i])
  {
    hide Parked, Popped, PushedFour;
    assert HappensAt(ms, es, i) && HappensAt(ms, es, j);
    var t, r := ms[i].current, Returned(ms[i]);
    SwitchParks(ms[i]);
    StaysParked(ms, es, t, r, i + 1, j);
    SwitchResumes(ms[j], t, r);
  }

  /** A task created at i first resumes at its entry point with the four registers zero. */
  lemma FirstResumes(ms: seq<Machine>, es: seq<Event>, i: nat, j: nat)
    requires Run(ms, es) && i < j < |es| && es[i].Create? && es[j].Switch?
    requires Waits(ms, es, es[i].t, i, j) && ms[j + 1].current == es[i].t
    ensures es[i].top >= 12 && ms[j + 1].regs == Regs(0, 0, 0, 0, es[i].top - 12, es[i].entry)
  {
    hide Parked, Popped, PushedFour, NewStack;
    assert HappensAt(ms, es, i) && HappensAt(ms, es, j);
    var e := es[i];
    var r := Regs(0, 0, 0, 0, e.top - 12, e.entry);
    CreateParks(ms[i], e.t, e.top, e.entry, e.cs);
    StaysParked(ms, es, e.t, r, i + 1, j);
    SwitchResumes(ms[j], e.t, r);
  }
}
