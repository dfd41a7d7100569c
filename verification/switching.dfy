/**
  The context switch (src/task_switch.s:14-54) as one step of a machine: registers, the bytes that
  hold the stacks, and the task control blocks by address.  Segment registers, CR3 and the task
  state segment are not part of the machine.
*/
module Switching {
  import opened Memory

  const STACK_SIZE := 16384

  datatype Regs = Regs(ebx: Word, esi: Word, edi: Word, ebp: Word, esp: Word, eip: Word)

  datatype Tcb = Tcb(esp0: Word, esp: Word, next: Word)

  /** An address of 0 is the null pointer; start and end are the ends of the ready queue. */
  datatype Machine = Machine(regs: Regs, bytes: seq<Byte>, tcbs: map<Word, Tcb>, current: Word, start: Word, end: Word)

  ghost predicate Apart(top: Word, other: Word) {
    top + STACK_SIZE <= other || other + STACK_SIZE <= top
  }

  /** Every task has a stack of its own, and a task that is not running has five words saved on it. */
  ghost predicate Formed(m: Machine) {
    && |m.bytes| <= 0x1_0000_0000
    && 0 !in m.tcbs && (m.current == 0 || m.current in m.tcbs)
    && (forall t :: t in m.tcbs ==> STACK_SIZE <= m.tcbs[t].esp0 <= |m.bytes|)
    && (forall t, u :: t in m.tcbs && u in m.tcbs && t != u ==> Apart(m.tcbs[t].esp0, m.tcbs[u].esp0))
    && (forall t :: t in m.tcbs && t != m.current ==> SavedWithin(m.tcbs[t]))
  }

  predicate SavedWithin(t: Tcb) {
    t.esp0 <= t.esp + STACK_SIZE && t.esp + 20 <= t.esp0
  }

  /** The address of the task to switch to: the argument, above the return address. */
  function Argument(m: Machine): (t: Word)
    requires m.regs.esp + 8 <= |m.bytes|
  {
    Peek(m.bytes, m.regs.esp + 4)
  }

  /**
    The bytes [lo, hi) belong to whoever is running: to the running task's stack or, before any task
    runs, to a boot stack apart from every task's stack.  With no current task the switch saves the
    stack pointer through the null pointer, at address 4, which no stack may contain then.
  */
  ghost predicate StackRoom(m: Machine, lo: int, hi: int) {
    && 0 <= lo <= hi <= |m.bytes|
    && if m.current == 0 then
         8 <= lo && forall t :: t in m.tcbs ==> 8 + STACK_SIZE <= m.tcbs[t].esp0 && BootApart(m.tcbs[t].esp0, lo, hi)
       else
         m.current in m.tcbs && m.tcbs[m.current].esp0 - STACK_SIZE <= lo && hi <= m.tcbs[m.current].esp0
  }

  ghost predicate BootApart(top: Word, lo: int, hi: int) {
    hi + STACK_SIZE <= top || top <= lo
  }

  lemma RoomBounds(m: Machine, lo: int, hi: int)
    requires StackRoom(m, lo, hi)
    ensures 0 <= lo <= hi <= |m.bytes| && (m.current == 0 ==> 8 <= lo) && (m.current != 0 ==> m.current in m.tcbs)
  {
  }

  /** switch_to_task has just been called, with room for four words on the stack. */
  ghost predicate Calling(m: Machine) {
    && Formed(m) && StackRoom(m, m.regs.esp - 16, m.regs.esp + 8) && m.regs.esp + 4 < 0x1_0000_0000
    && Argument(m) in m.tcbs
  }

  /** Memory after pushing the words one after the other, with the stack pointer at sp. */
  function Pushed(bytes: seq<Byte>, sp: nat, ws: seq<Word>): (r: seq<Byte>)
    requires 4 * |ws| <= sp <= |bytes|
    ensures |r| == |bytes|
    decreases |ws|
  {
    if ws == [] then bytes else Pushed(Poke(bytes, sp - 4, ws[0]), sp - 4, ws[1..])
  }

  /** Memory after pushing ebx, esi, edi and ebp. */
  function PushedFour(m: Machine): (r: seq<Byte>)
    requires 16 <= m.regs.esp <= |m.bytes|
    ensures |r| == |m.bytes|
  {
    Pushed(m.bytes, m.regs.esp, [m.regs.ebx, m.regs.esi, m.regs.edi, m.regs.ebp])
  }

  /** Popping ebp, edi, esi and ebx, and returning, with the stack pointer at sp. */
  function Popped(bytes: seq<Byte>, sp: Word): (r: Regs)
    requires sp + 20 <= |bytes| <= 0x1_0000_0000 && sp + 20 < 0x1_0000_0000
  {
    Regs(Peek(bytes, sp + 12), Peek(bytes, sp + 8), Peek(bytes, sp + 4), Peek(bytes, sp), sp + 20, Peek(bytes, sp + 16))
  }

  /** Memory after `mov [edi+4],esp`: as before, the block being kept apart, unless edi is null. */
  function SavedBytes(m: Machine): (r: seq<Byte>)
    requires 24 <= m.regs.esp <= |m.bytes| || (16 <= m.regs.esp <= |m.bytes| && m.current != 0)
    ensures |r| == |m.bytes|
  {
    if m.current == 0 then Poke(PushedFour(m), 4, m.regs.esp - 16) else PushedFour(m)
  }

  function SavedTcbs(m: Machine): (tcbs: map<Word, Tcb>)
    requires 16 <= m.regs.esp && (m.current == 0 || m.current in m.tcbs)
  {
    if m.current == 0 then m.tcbs else m.tcbs[m.current := m.tcbs[m.current].(esp := m.regs.esp - 16)]
  }

  /** The task switched to has its five words saved, be it the running task itself. */
  lemma NextSaved(m: Machine)
    requires Calling(m)
    ensures Argument(m) in SavedTcbs(m) && SavedWithin(SavedTcbs(m)[Argument(m)])
    ensures SavedTcbs(m)[Argument(m)].esp0 <= |m.bytes| <= 0x1_0000_0000
  {
  }

  function Switched(m: Machine): (r: Machine)
    requires Calling(m)
  {
    var bytes, tcbs, next := SavedBytes(m), SavedTcbs(m), Argument(m);
    NextSaved(m);
    Machine(Popped(bytes, tcbs[next].esp), bytes, tcbs, next, m.start, m.end)
  }

  /** What a plain return from the call would leave: every register as it is, the return address popped. */
  function Returned(m: Machine): (r: Regs)
    requires m.regs.esp + 4 <= |m.bytes| && m.regs.esp + 4 < 0x1_0000_0000
  {
    m.regs.(esp := m.regs.esp + 4, eip := Peek(m.bytes, m.regs.esp))
  }

  /** Task t is suspended and will resume with the registers r. */
  ghost predicate Parked(m: Machine, t: Word, r: Regs) {
    && t in m.tcbs && m.tcbs[t].esp0 <= |m.bytes| <= 0x1_0000_0000
    && SavedWithin(m.tcbs[t])
    && r == Popped(m.bytes, m.tcbs[t].esp)
  }

  // ---------- one switch ----------

  /** What is popped depends on the twenty bytes above the stack pointer. */
  lemma PoppedSame(m: seq<Byte>, r: seq<Byte>, sp: Word)
    requires sp + 20 <= |m| <= 0x1_0000_0000 && sp + 20 < 0x1_0000_0000 && SameWithin(m, r, sp, sp + 20)
    ensures Popped(r, sp) == Popped(m, sp)
  {
    hide Peek;
    PeekSame(m, r, sp);
    PeekSame(m, r, sp + 4);
    PeekSame(m, r, sp + 8);
    PeekSame(m, r, sp + 12);
    PeekSame(m, r, sp + 16);
  }

  /** Pushing n words writes the 4n bytes below the stack pointer, and word k lies k + 1 words below it. */
  lemma {:induction false} PushedWords(bytes: seq<Byte>, sp: nat, ws: seq<Word>, k: nat)
    requires 4 * |ws| <= sp <= |bytes| && k < |ws|
    ensures SameOutside(bytes, Pushed(bytes, sp, ws), sp - 4 * |ws|, sp)
    ensures Peek(Pushed(bytes, sp, ws), sp - 4 * (k + 1)) == ws[k]
    decreases |ws|
  {
    hide Peek, Poke;
    var first := Poke(bytes, sp - 4, ws[0]);
    Poked(bytes, sp - 4, ws[0]);
    if |ws| > 1 {
      PushedWords(first, sp - 4, ws[1..], if k == 0 then 0 else k - 1);
      if k == 0 {
        PeekSame(first, Pushed(bytes, sp, ws), sp - 4);
      }
    }
  }

  /** Pushing some words and then others. */
  lemma {:induction false} PushedTwice(bytes: seq<Byte>, sp: nat, xs: seq<Word>, ys: seq<Word>)
    requires 4 * |xs + ys| <= sp <= |bytes|
    ensures Pushed(bytes, sp, xs + ys) == Pushed(Pushed(bytes, sp, xs), sp - 4 * |xs|, ys)
    decreases |xs|
  {
    hide Poke;
    if xs == [] {
      assert xs + ys == ys;
    } else {
      assert (xs + ys)[1..] == xs[1..] + ys;
      PushedTwice(Poke(bytes, sp - 4, xs[0]), sp - 4, xs[1..], ys);
    }
  }

  lemma PushedOneByOne(bytes: seq<Byte>, sp: nat, a: Word, b: Word, c: Word, d: Word)
    requires 16 <= sp <= |bytes|
    ensures Pushed(bytes, sp, [a, b, c, d]) ==
            Poke(Poke(Poke(Poke(bytes, sp - 4, a), sp - 8, b), sp - 12, c), sp - 16, d)
  {
    hide Poke;
    var m := Poke(Poke(bytes, sp - 4, a), sp - 8, b);
    assert [a, b, c, d][1..] == [b, c, d] && [b, c, d][1..] == [c, d];
    assert Pushed(bytes, sp, [a, b, c, d]) == Pushed(m, sp - 8, [c, d]);
    assert [c, d][1..] == [d] && [d][1..] == [];
    var n := Poke(m, sp - 12, c);
    assert Pushed(m, sp - 8, [c, d]) == Pushed(n, sp - 12, [d]);
    assert Pushed(n, sp - 12, [d]) == Pushed(Poke(n, sp - 16, d), sp - 16, []);
  }

  /** The pushes write the sixteen bytes below the stack pointer, and popping undoes them. */
  lemma PushPop(m: Machine)
    requires 16 <= m.regs.esp && m.regs.esp + 4 <= |m.bytes| <= 0x1_0000_0000 && m.regs.esp + 4 < 0x1_0000_0000
    ensures SameOutside(m.bytes, PushedFour(m), m.regs.esp - 16, m.regs.esp)
    ensures Popped(PushedFour(m), m.regs.esp - 16) == Returned(m)
  {
    hide Peek, Poke, Pushed;
    var sp, ws := m.regs.esp, [m.regs.ebx, m.regs.esi, m.regs.edi, m.regs.ebp];
    PushedWords(m.bytes, sp, ws, 0);
    PushedWords(m.bytes, sp, ws, 1);
    PushedWords(m.bytes, sp, ws, 2);
    PushedWords(m.bytes, sp, ws, 3);
    PeekSame(m.bytes, PushedFour(m), sp);
  }

  /** The task that calls switch_to_task is suspended as it would have returned. */
  lemma SwitchParks(m: Machine)
    requires Calling(m) && m.current != 0 && Argument(m) != m.current
    ensures Parked(Switched(m), m.current, Returned(m))
  {
    hide PushedFour, Popped, Peek;
    PushPop(m);
  }

  /** Switching to oneself is a plain return. */
  lemma SwitchToSelf(m: Machine)
    requires Calling(m) && Argument(m) == m.current
    ensures Switched(m).regs == Returned(m)
  {
    hide PushedFour, Popped, Peek;
    PushPop(m);
  }

  /** What the switch writes lies outside the stack of any task that is not running. */
  lemma OthersUntouched(m: Machine, t: Word)
    requires Calling(m) && t in m.tcbs && t != m.current
    ensures var top := m.tcbs[t].esp0;
            top <= |m.bytes| && SameWithin(m.bytes, SavedBytes(m), top - STACK_SIZE, top)
  {
    hide PushedFour, Popped, Peek, Poke;
    PushPop(m);
    if m.current == 0 {
      Poked(PushedFour(m), 4, m.regs.esp - 16);
      assert BootApart(m.tcbs[t].esp0, m.regs.esp - 16, m.regs.esp + 8);
    } else {
      assert Apart(m.tcbs[t].esp0, m.tcbs[m.current].esp0);
    }
  }

  /**
    What the switch changes: the sixteen bytes below the stack pointer, and the saved stack pointer of
    the caller, which goes to address 4 when there is no current task.  The new task becomes current.
  */
  lemma SwitchWrites(m: Machine)
    requires Calling(m)
    ensures var r, sp := Switched(m), m.regs.esp;
            && r.current == Argument(m) && r.start == m.start && r.end == m.end && r.tcbs.Keys == m.tcbs.Keys
            && (forall t :: t in m.tcbs ==>
                              r.tcbs[t] == if t == m.current then m.tcbs[t].(esp := sp - 16) else m.tcbs[t])
            && (m.current != 0 ==> SameOutside(m.bytes, r.bytes, sp - 16, sp))
            && (m.current == 0 ==>
                  && |r.bytes| == |m.bytes| && Peek(r.bytes, 4) == sp - 16
                  && forall k :: 0 <= k < |m.bytes| && !(4 <= k < 8 || sp - 16 <= k < sp) ==>
                                   r.bytes[k] == m.bytes[k])
  {
    hide PushedFour, Popped, Peek, Poke;
    PushPop(m);
    if m.current == 0 {
      Poked(PushedFour(m), 4, m.regs.esp - 16);
    }
  }

  /** The task switched to resumes as it was suspended, and any other stays suspended as it is. */
  lemma SwitchResumes(m: Machine, t: Word, r: Regs)
    requires Calling(m) && t != m.current && Parked(m, t, r)
    ensures if Argument(m) == t then Switched(m).regs == r else Parked(Switched(m), t, r)
  {
    hide PushedFour, Popped, SavedBytes;
    OthersUntouched(m, t);
    PoppedSame(m.bytes, SavedBytes(m), m.tcbs[t].esp);
  }

  lemma SwitchKeeps(m: Machine)
    requires Calling(m)
    ensures Formed(Switched(m))
  {
    hide PushedFour, Popped, Peek;
  }

  // ---------- creating a task ----------

  /** The eight words that a new task's stack starts with; cs is 0x08 for kernel tasks, 0x18 for user tasks. */
  function NewStack(bytes: seq<Byte>, top: Word, entry: Word, cs: Word): (r: seq<Byte>)
    requires 32 <= top <= |bytes|
    ensures |r| == |bytes|
  {
    Pushed(bytes, top, [entry, 0x202, cs, entry, 0, 0, 0, 0])
  }

  /** The new block joins the queue at its end, and its next is the start. */
  function Linked(m: Machine, t: Word, tcb: Tcb): (r: Machine)
    requires m.start != 0 ==> m.end in m.tcbs
  {
    if m.start == 0 then m.(tcbs := m.tcbs[t := tcb.(next := t)], start := t, end := t)
    else m.(tcbs := m.tcbs[m.end := m.tcbs[m.end].(next := t)][t := tcb.(next := m.start)], end := t)
  }

  function Created(m: Machine, t: Word, top: Word, entry: Word, cs: Word): (r: Machine)
    requires m.start != 0 ==> m.end in m.tcbs
    requires 32 <= top <= |m.bytes|
  {
    Linked(m, t, Tcb(top, top - 32, 0)).(bytes := NewStack(m.bytes, top, entry, cs))
  }

  /** Creation links the block, whatever its memory held, and then fills it. */
  lemma CreatedInSteps(m: Machine, t: Word, was: Tcb, top: Word, entry: Word, cs: Word)
    requires t !in m.tcbs && 32 <= top <= |m.bytes| && (m.start != 0 ==> m.end in m.tcbs)
    ensures var l := Linked(m, t, was);
            && l.end == t && t in l.tcbs && l.bytes == m.bytes
            && Created(m, t, top, entry, cs) ==
               l.(bytes := NewStack(m.bytes, top, entry, cs), tcbs := l.tcbs[t := Tcb(top, top - 32, l.tcbs[t].next)])
  {
    hide NewStack;
    var l, r := Linked(m, t, was), Created(m, t, top, entry, cs);
    assert r.tcbs == l.tcbs[t := Tcb(top, top - 32, l.tcbs[t].next)];
  }

  /** The block and the stack come from the allocator: neither is in use. */
  ghost predicate Unused(m: Machine, t: Word, top: Word) {
    && t != 0 && t !in m.tcbs && t != m.current && STACK_SIZE <= top <= |m.bytes|
    && forall u :: u in m.tcbs ==> Apart(top, m.tcbs[u].esp0)
  }

  lemma NewStackWords(bytes: seq<Byte>, top: Word, entry: Word, cs: Word)
    requires 32 <= top <= |bytes| <= 0x1_0000_0000
    ensures SameOutside(bytes, NewStack(bytes, top, entry, cs), top - 32, top)
    ensures var r := NewStack(bytes, top, entry, cs);
            && Popped(r, top - 32) == Regs(0, 0, 0, 0, top - 12, entry)
            && Peek(r, top - 4) == entry && Peek(r, top - 8) == 0x202 && Peek(r, top - 12) == cs
  {
    hide Peek, Poke, Pushed;
    var ws := [entry, 0x202, cs, entry, 0, 0, 0, 0];
    PushedWords(bytes, top, ws, 0);
    PushedWords(bytes, top, ws, 1);
    PushedWords(bytes, top, ws, 2);
    PushedWords(bytes, top, ws, 3);
    PushedWords(bytes, top, ws, 4);
    PushedWords(bytes, top, ws, 5);
    PushedWords(bytes, top, ws, 6);
    PushedWords(bytes, top, ws, 7);
  }

  /** A new task is suspended just before its entry point, with ebx, esi, edi and ebp zero. */
  lemma CreateParks(m: Machine, t: Word, top: Word, entry: Word, cs: Word)
    requires Formed(m) && Unused(m, t, top) && (m.start != 0 ==> m.end in m.tcbs)
    ensures Parked(Created(m, t, top, entry, cs), t, Regs(0, 0, 0, 0, top - 12, entry))
  {
    hide NewStack;
    NewStackWords(m.bytes, top, entry, cs);
  }

  /** What creation does to the blocks, links aside. */
  lemma CreatedBlocks(m: Machine, t: Word, top: Word, entry: Word, cs: Word)
    requires t !in m.tcbs && 32 <= top <= |m.bytes| && (m.start != 0 ==> m.end in m.tcbs)
    ensures var r := Created(m, t, top, entry, cs);
            && r.tcbs.Keys == m.tcbs.Keys + {t} && r.current == m.current && |r.bytes| == |m.bytes|
            && r.tcbs[t].esp0 == top && r.tcbs[t].esp == top - 32
            && forall u :: u in m.tcbs ==> r.tcbs[u].esp0 == m.tcbs[u].esp0 && r.tcbs[u].esp == m.tcbs[u].esp
  {
    hide NewStack;
  }

  lemma CreateKeeps(m: Machine, t: Word, top: Word, entry: Word, cs: Word)
    requires Formed(m) && Unused(m, t, top) && (m.start != 0 ==> m.end in m.tcbs)
    ensures Formed(Created(m, t, top, entry, cs))
  {
    hide NewStack, Linked, Created;
    CreatedBlocks(m, t, top, entry, cs);
  }

  lemma CreateKeepsParked(m: Machine, t: Word, top: Word, entry: Word, cs: Word, u: Word, r: Regs)
    requires Formed(m) && Unused(m, t, top) && (m.start != 0 ==> m.end in m.tcbs)
    requires Parked(m, u, r)
    ensures Parked(Created(m, t, top, entry, cs), u, r)
  {
    hide NewStack, Popped;
    NewStackWords(m.bytes, top, entry, cs);
    assert Apart(top, m.tcbs[u].esp0);
    PoppedSame(m.bytes, NewStack(m.bytes, top, entry, cs), m.tcbs[u].esp);
  }
}
