/** The task code as it runs: src/task_switch.s instruction by instruction, and src/task.c on the ready queue. */
module Tasks {
  import opened Memory
  import opened ReadyQueue
  import opened Switching
  import opened SwitchingRuns

  /** Memory and registers after the C code has pushed an argument and a return address. */
  function Called(m: Machine, arg: Word, ret: Word): (r: Machine)
    requires 8 <= m.regs.esp <= |m.bytes|
  {
    m.(regs := m.regs.(esp := m.regs.esp - 8), bytes := Poke(Poke(m.bytes, m.regs.esp - 4, arg), m.regs.esp - 8, ret))
  }

  /** The call leaves the machine calling switch_to_task with that argument, and returning would undo it. */
  lemma CalledIsCalling(m: Machine, arg: Word, ret: Word)
    requires Formed(m) && arg in m.tcbs && StackRoom(m, m.regs.esp - 24, m.regs.esp)
    ensures var r := Called(m, arg, ret);
            && Calling(r) && Argument(r) == arg
            && SameOutside(m.bytes, r.bytes, m.regs.esp - 8, m.regs.esp)
            && r.regs.esp + 4 < 0x1_0000_0000 && Returned(r) == m.regs.(esp := m.regs.esp - 4, eip := ret)
  {
    hide Peek, Poke;
    var b := Poke(m.bytes, m.regs.esp - 4, arg);
    var c := Poke(b, m.regs.esp - 8, ret);
    Poked(m.bytes, m.regs.esp - 4, arg);
    Poked(b, m.regs.esp - 8, ret);
    PeekSame(b, c, m.regs.esp - 4);
  }

  /** The switch writes below its argument. */
  lemma ArgumentKept(m: Machine)
    requires Calling(m)
    ensures Peek(SavedBytes(m), m.regs.esp + 4) == Argument(m)
  {
    hide Peek, Poke;
    PushPop(m);
    if m.current == 0 {
      Poked(PushedFour(m), 4, m.regs.esp - 16);
    }
    PeekSame(m.bytes, SavedBytes(m), m.regs.esp + 4);
  }

  class Tasking {
    const ram: Ram
    var ebx: Word
    var esi: Word
    var edi: Word
    var ebp: Word
    var esp: Word
    var eip: Word
    var tcbs: map<Word, Tcb>
    var currentTask: Word
    var readyQueueStart: Word
    var readyQueueEnd: Word

    ghost function Now(): (m: Machine)
      reads this, ram
    {
      Machine(Regs(ebx, esi, edi, ebp, esp, eip), ram.image, tcbs, currentTask, readyQueueStart, readyQueueEnd)
    }

    ghost predicate Valid()
      reads this, ram, ram.cells
    {
      ram.Valid() && Formed(Now())
    }

    /** The kernel before any task exists; memory is cleared. */
    constructor (size: nat)
      requires size <= 0x1_0000_0000
      ensures Valid() && fresh(ram) && fresh(ram.cells) && |ram.image| == size
      ensures tcbs == map[] && currentTask == 0 && readyQueueStart == 0
    {
      ram := new Ram(size);
      ebx, esi, edi, ebp, esp, eip := 0, 0, 0, 0, 0, 0;
      tcbs := map[];
      currentTask, readyQueueStart, readyQueueEnd := 0, 0, 0;
    }

    method Push(v: Word)
      requires ram.Valid() && 4 <= esp <= |ram.image|
      modifies this`esp, ram, ram.cells
      ensures ram.Valid() && esp == old(esp) - 4 && ram.image == Poke(old(ram.image), esp, v)
    {
      esp := esp - 4;
      ram.Store(esp, v);
    }

    method Pop() returns (v: Word)
      requires ram.Valid() && esp + 4 <= |ram.image| && esp + 4 < 0x1_0000_0000
      modifies this`esp
      ensures esp == old(esp) + 4 && v == Peek(ram.image, old(esp))
    {
      v := ram.Load(esp);
      esp := esp + 4;
    }

    method PopAll()
      requires ram.Valid() && esp + 20 <= |ram.image| <= 0x1_0000_0000 && esp + 20 < 0x1_0000_0000
      modifies this`ebx, this`esi, this`edi, this`ebp, this`esp, this`eip
      ensures Regs(ebx, esi, edi, ebp, esp, eip) == Popped(ram.image, old(esp))
    {
      hide Peek;
      ebp := Pop();
      edi := Pop();
      esi := Pop();
      ebx := Pop();
      eip := Pop();
    }

    method SwitchToTask()
      requires Valid() && Calling(Now())
      modifies this, ram, ram.cells
      ensures Valid() && Now() == Switched(old(Now()))
    {
      hide Peek, Poke, Popped, Pushed, StackRoom, Formed, SavedWithin;
      ghost var m := Now();
      RoomBounds(m, esp - 16, esp + 8);
      Push(ebx);
      Push(esi);
      Push(edi);
      Push(ebp);
      PushedOneByOne(m.bytes, m.regs.esp, ebx, esi, edi, ebp);
      assert ram.image == PushedFour(m);
      edi := currentTask;
      if edi == 0 {
        ram.Store(edi + 4, esp);
      } else {
        tcbs := tcbs[edi := tcbs[edi].(esp := esp)];
      }
      assert ram.image == SavedBytes(m) && tcbs == SavedTcbs(m);
      ArgumentKept(m);
      NextSaved(m);
      esi := ram.Load(esp + (4 + 1) * 4);
      assert esi == Argument(m);
      currentTask := esi;
      esp := tcbs[esi].esp;
      ebx := tcbs[esi].esp0;
      PopAll();
      assert Now() == Switched(m);
      SwitchKeeps(m);
    }

    /** Schedule: nothing without tasks; otherwise a call of switch_to_task that will return to `ret`. */
    method Schedule(ret: Word)
      requires Valid()
      requires readyQueueStart != 0 ==> Picked(Now()) in tcbs && StackRoom(Now(), esp - 24, esp)
      modifies this, ram, ram.cells
      ensures Valid()
      ensures old(readyQueueStart) == 0 ==> Now() == old(Now())
      ensures old(readyQueueStart) != 0 ==>
                && Calling(Called(old(Now()), Picked(old(Now())), ret))
                && Now() == Switched(Called(old(Now()), Picked(old(Now())), ret))
      ensures old(readyQueueStart) != 0 ==>
                currentTask == if old(currentTask) != 0 && old(tcbs[currentTask].next) != 0
                               then old(tcbs[currentTask].next) else old(readyQueueStart)
    {
      hide Peek, Poke, StackRoom, Switched, Formed;
      if readyQueueStart == 0 {
        return;
      }
      RoomBounds(Now(), esp - 24, esp);
      var next := if currentTask != 0 then tcbs[currentTask].next else readyQueueStart;
      if next == 0 {
        next := readyQueueStart;
      }
      ghost var m := Now();
      CalledIsCalling(m, next, ret);
      Push(next);
      Push(ret);
      assert Now() == Called(m, next, ret);
      SwitchWrites(Now());
      SwitchToTask();
    }

    // ---------- creation ----------

    /** The new block, whose memory holds `was`, becomes the last of the circle. */
    method LinkBlock(t: Word, was: Tcb)
      requires readyQueueStart != 0 ==> readyQueueEnd in tcbs
      requires t !in tcbs
      modifies this`tcbs, this`readyQueueStart, this`readyQueueEnd
      ensures Now() == Linked(old(Now()), t, was)
    {
      ghost var m := Now();
      if readyQueueStart == 0 {
        readyQueueStart := t;
        tcbs := tcbs[t := was];
        readyQueueEnd := readyQueueStart;
        tcbs := tcbs[t := tcbs[t].(next := readyQueueStart)];
        assert tcbs == m.tcbs[t := was.(next := t)];
      } else {
        tcbs := tcbs[readyQueueEnd := tcbs[readyQueueEnd].(next := t)][t := was];
        readyQueueEnd := tcbs[readyQueueEnd].next;
        tcbs := tcbs[readyQueueEnd := tcbs[readyQueueEnd].(next := readyQueueStart)];
        assert tcbs == m.tcbs[m.end := m.tcbs[m.end].(next := t)][t := was.(next := m.start)];
      }
    }

    /** The stack of the last task of the queue, at the block `stack` of memory. */
    method PrepareStack(stack: Word, entry: Word, cs: Word)
      requires ram.Valid() && readyQueueEnd in tcbs
      requires stack + STACK_SIZE <= |ram.image| && stack + STACK_SIZE < 0x1_0000_0000
      modifies this`tcbs, ram, ram.cells
      ensures ram.Valid() && ram.image == NewStack(old(ram.image), stack + STACK_SIZE, entry, cs)
      ensures tcbs == old(tcbs)[readyQueueEnd := Tcb(stack + STACK_SIZE, stack + STACK_SIZE - 32,
              old(tcbs)[readyQueueEnd].next)]
    {
      hide Poke, Pushed;
      ghost var b, top := ram.image, stack + STACK_SIZE;
      tcbs := tcbs[readyQueueEnd := tcbs[readyQueueEnd].(esp0 := stack + STACK_SIZE)];
      tcbs := tcbs[readyQueueEnd := tcbs[readyQueueEnd].(esp := tcbs[readyQueueEnd].esp0)];
      var sp := tcbs[readyQueueEnd].esp;
      sp := sp - 4; ram.Store(sp, entry);
      sp := sp - 4; ram.Store(sp, 0x202);
      sp := sp - 4; ram.Store(sp, cs);
      sp := sp - 4; ram.Store(sp, entry);
      PushedOneByOne(b, top, entry, 0x202, cs, entry);
      ghost var c := ram.image;
      sp := sp - 4; ram.Store(sp, 0);
      sp := sp - 4; ram.Store(sp, 0);
      sp := sp - 4; ram.Store(sp, 0);
      sp := sp - 4; ram.Store(sp, 0);
      PushedOneByOne(c, top - 16, 0, 0, 0, 0);
      PushedTwice(b, top, [entry, 0x202, cs, entry], [0, 0, 0, 0]);
      assert [entry, 0x202, cs, entry] + [0, 0, 0, 0] == [entry, 0x202, cs, entry, 0, 0, 0, 0];
      tcbs := tcbs[readyQueueEnd := tcbs[readyQueueEnd].(esp := sp)];
    }

    /**
      create_kernel_task, given what the two calls of kmalloc return.  A null block is noticed: the
      first time nothing else happens, but later the original reports it and goes on to link and fill
      the block at address 0; see NullBlockSkipped for what becomes of that.
    */
    method CreateKernelTask(entry: Word, t: Word, stack: Word, was: Tcb)
      requires Valid() && (readyQueueStart != 0 ==> readyQueueEnd in tcbs)
      requires stack + STACK_SIZE <= |ram.image| && stack + STACK_SIZE < 0x1_0000_0000
      requires t != 0 ==> Unused(Now(), t, stack + STACK_SIZE)
      modifies this`tcbs, this`readyQueueStart, this`readyQueueEnd, ram, ram.cells
      ensures t != 0 ==> Valid()
      ensures t == 0 && old(readyQueueStart) == 0 ==> Now() == old(Now())
      ensures t != 0 || old(readyQueueStart) != 0 ==> Now() == Created(old(Now()), t, stack + STACK_SIZE, entry, 0x08)
    {
      hide NewStack, Linked, Created;
      ghost var m := Now();
      if t == 0 && readyQueueStart == 0 {
        return;
      }
      LinkBlock(t, was);
      CreatedInSteps(m, t, was, stack + STACK_SIZE, entry, 0x08);
      PrepareStack(stack, entry, 0x08);
      assert Now() == Created(m, t, stack + STACK_SIZE, entry, 0x08);
      if t != 0 {
        CreateKeeps(m, t, stack + STACK_SIZE, entry, 0x08);
      }
    }

    /**
      create_user_task: without a page directory the original returns after linking the block, so
      that a block whose stack pointer is whatever the memory held stays in the queue.  A null block
      is not looked for.
    */
    method CreateUserTask(entry: Word, hasDirectory: bool, t: Word, stack: Word, was: Tcb)
      requires Valid() && (readyQueueStart != 0 ==> readyQueueEnd in tcbs)
      requires stack + STACK_SIZE <= |ram.image| && stack + STACK_SIZE < 0x1_0000_0000
      requires t != 0 ==> Unused(Now(), t, stack + STACK_SIZE)
      modifies this`tcbs, this`readyQueueStart, this`readyQueueEnd, ram, ram.cells
      ensures hasDirectory ==> Now() == Created(old(Now()), t, stack + STACK_SIZE, entry, 0x18)
      ensures hasDirectory && t != 0 ==> Valid()
      ensures !hasDirectory ==> Now() == Linked(old(Now()), t, was)
    {
      hide NewStack, Linked, Created;
      ghost var m := Now();
      LinkBlock(t, was);
      if !hasDirectory {
        return;
      }
      CreatedInSteps(m, t, was, stack + STACK_SIZE, entry, 0x18);
      PrepareStack(stack, entry, 0x18);
      assert Now() == Created(m, t, stack + STACK_SIZE, entry, 0x18);
      if t != 0 {
        CreateKeeps(m, t, stack + STACK_SIZE, entry, 0x18);
      }
    }

    // ---------- removal ----------

    /** end_task on task i of the ring ts; the two calls of kfree are not part of this model. */
    method EndTask(task: Word, ghost ts: seq<Word>, ghost i: nat)
      requires Cycle(tcbs, ts) && readyQueueStart == ts[0] && i < |ts| && ts[i] == task
      modifies this`tcbs, this`readyQueueStart
      ensures Now() == Unlinked(old(Now()), ts, i) && LinksOnly(old(Now()), Now())
    {
      UnlinkedLinksOnly(Now(), ts, i);
      ghost var n := |ts|;
      ghost var p, k := Before(i, n), 0;
      assert LinkAt(tcbs, ts, i) && LinkAt(tcbs, ts, 0) && LinkAt(tcbs, ts, p);
      if task == readyQueueStart {
        readyQueueStart := tcbs[readyQueueStart].next;
        assert i == 0;
        k := Step(0, n);
      }
      var t := readyQueueStart;
      assert LinkAt(tcbs, ts, k);
      while tcbs[t].next != task
        invariant k <= p < n && t == ts[k] && t in tcbs
        decreases p - k
      {
        assert LinkAt(tcbs, ts, k);
        assert k != p;
        t := tcbs[t].next;
        k := k + 1;
        assert LinkAt(tcbs, ts, k);
      }
      assert LinkAt(tcbs, ts, k);
      assert Step(k, n) == i;
      tcbs := tcbs[t := tcbs[t].(next := tcbs[task].next)];
    }
  }
}
