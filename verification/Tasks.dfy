/** The task table of src/task.c: how tasks are created and linked, and in which order they run. */
module Tasks {
  import opened Numbers
  import opened Machine
  import opened ContextSwitch
  import opened TaskRuns

  const MAX_PROCESSES := 10
  const STACK_SIZE := 0x1000

  datatype Link = Null | To(slot: nat)

  datatype Task = Task(regs: Registers, pid: i32, isActive: bool, next: Link)

  /** The registers that createTask sets; ebp keeps its value. */
  function FreshRegisters(was: Registers, handler: u32, flags: u32, pagedir: u32, count: u8): Registers {
    Registers(0, 0, 0, 0, 0, 0, STACK_SIZE * count, was.ebp, handler, flags, pagedir)
  }

  class Table {
    const processes: array<Task>
    var processesCount: u8
    var running: nat

    constructor (processes: array<Task>)
      requires processes.Length == MAX_PROCESSES
      ensures this.processes == processes && processesCount == 0
    {
      this.processes := processes;
      processesCount := 0;
      running := 0;
    }

    ghost predicate Valid()
      reads this, processes
    {
      processes.Length == MAX_PROCESSES && running < MAX_PROCESSES
    }

    method CreateTask(task: nat, handler: u32, flags: u32, pagedir: u32)
      requires Valid() && task < MAX_PROCESSES && 1 <= processesCount <= MAX_PROCESSES
      modifies this`processesCount, processes
      ensures Valid() && processesCount == old(processesCount) + 1
      ensures processes[..] == Created(old(processes[..]), old(processesCount), task, handler, flags, pagedir)
      ensures StartsAt(processes[task].regs, handler, flags, pagedir, 0x1000 * old(processesCount))
    {
      var t := processes[task];
      t := t.(regs := t.regs.(eax := 0, ebx := 0, ecx := 0, edx := 0, esi := 0, edi := 0));
      t := t.(regs := t.regs.(eflags := flags, eip := handler, cr3 := pagedir));
      t := t.(regs := t.regs.(esp := AllocPage() + 0x1000 * processesCount));
      t := t.(next := Null, isActive := true);
      processes[task] := t;
      processes[processesCount - 1] := processes[processesCount - 1].(next := To(task));
      processesCount := processesCount + 1;
    }

    /** initTasking, given the eflags and cr3 of the processor and the addresses of the three tasks. */
    method InitTasking(eflags: u32, cr3: u32, mainA: u32, mainB: u32, mainC: u32)
      requires Valid()
      modifies this, processes
      ensures Valid() && processesCount == 4 && running == 0
      ensures Chain(processes[..], 4)
      ensures forall i :: 0 <= i < MAX_PROCESSES ==> processes[i].pid == i && (processes[i].isActive <==> i < 4)
      ensures forall i :: 1 <= i < 4 ==>
        && processes[i].regs.eip == [mainA, mainB, mainC][i - 1]
        && processes[i].regs.eflags == eflags && processes[i].regs.cr3 == cr3
        && processes[i].regs.eax == 0 && processes[i].regs.ebx == 0 && processes[i].regs.ecx == 0
        && processes[i].regs.edx == 0 && processes[i].regs.esi == 0 && processes[i].regs.edi == 0
        && processes[i].regs.esp == 4096 * i && processes[i].regs.ebp == old(processes[i].regs.ebp)
      ensures ReadyToRun(processes[..], [mainA, mainB, mainC], eflags, cr3)
      ensures processes[0].regs == old(processes[0].regs).(eflags := eflags, cr3 := cr3)
      ensures forall i :: 4 <= i < MAX_PROCESSES ==>
        processes[i].regs == old(processes[i].regs) && processes[i].next == old(processes[i].next)
    {
      for i := 0 to MAX_PROCESSES
        invariant running == old(running)
        invariant forall j :: 0 <= j < i ==> processes[j].pid == j && !processes[j].isActive
        invariant forall j :: 0 <= j < MAX_PROCESSES ==>
          processes[j].regs == old(processes[j].regs) && processes[j].next == old(processes[j].next)
      {
        processes[i] := processes[i].(isActive := false, pid := i);
      }
      processes[0] := processes[0].(isActive := true);
      processesCount := 1;
      processes[0] := processes[0].(regs := processes[0].regs.(cr3 := cr3, eflags := eflags));
      CreateTask(1, mainA, processes[0].regs.eflags, processes[0].regs.cr3);
      CreateTask(2, mainB, processes[0].regs.eflags, processes[0].regs.cr3);
      CreateTask(3, mainC, processes[0].regs.eflags, processes[0].regs.cr3);
      running := 0;
    }

    /** The successor choice of k_preempt. */
    method ChooseNext()
      requires Valid() && (processes[running].next.To? ==> processes[running].next.slot < MAX_PROCESSES)
      modifies this`running
      ensures Valid() && running == Successor(processes[..], old(running))
    {
      var next := processes[running].next;
      running := if next.To? then next.slot else 0;
    }
  }

  /** The page allocator is a stub. */
  function AllocPage(): u32 {
    0
  }

  /** The registers of a task that begins at `entry` with these flags, page directory and stack. */
  ghost predicate StartsAt(r: Registers, entry: u32, flags: u32, pagedir: u32, stack: int) {
    && r.eip == entry && r.eflags == flags && r.cr3 == pagedir && r.esp == stack
    && r.eax == 0 && r.ebx == 0 && r.ecx == 0 && r.edx == 0 && r.esi == 0 && r.edi == 0
  }

  /** The table that initTasking leaves: three tasks about to begin at their main functions. */
  ghost predicate ReadyToRun(ps: seq<Task>, mains: seq<u32>, eflags: u32, cr3: u32) {
    && |mains| == 3 && Chain(ps, 4)
    && forall i :: 1 <= i < 4 ==> StartsAt(ps[i].regs, mains[i - 1], eflags, cr3, 0x1000 * i)
  }

  /** The effect of createTask on the table. */
  ghost function Created(ps: seq<Task>, count: u8, task: nat, handler: u32, flags: u32, pagedir: u32): seq<Task>
    requires |ps| == MAX_PROCESSES && task < |ps| && 1 <= count <= |ps|
  {
    var regs := FreshRegisters(ps[task].regs, handler, flags, pagedir, count);
    var qs := ps[task := ps[task].(regs := regs, next := Null, isActive := true)];
    qs[count - 1 := qs[count - 1].(next := To(task))]
  }

  ghost function Successor(ps: seq<Task>, i: nat): nat
    requires i < |ps|
  {
    if ps[i].next.To? then ps[i].next.slot else 0
  }

  /** The first `count` slots are linked in order, and the tasks after slot 0 have their own stacks. */
  ghost predicate Chain(ps: seq<Task>, count: nat) {
    && 1 <= count <= |ps| == MAX_PROCESSES
    && (forall i :: 0 <= i < count - 1 ==> ps[i].next == To(i + 1))
    && ps[count - 1].next == Null
    && (forall i :: 1 <= i < count ==> ps[i].regs.esp == STACK_SIZE * i)
  }

  /** createTask on the slot after the last one extends the chain, whatever that slot held. */
  lemma ChainGrows(ps: seq<Task>, count: u8, handler: u32, flags: u32, pagedir: u32)
    requires Chain(ps, count) && count < MAX_PROCESSES
    ensures Chain(Created(ps, count, count, handler, flags, pagedir), count + 1)
    ensures forall i :: 0 <= i < count ==> Created(ps, count, count, handler, flags, pagedir)[i].regs == ps[i].regs
  {
  }

  // ----- Round robin

  /** The running task after n choices. */
  ghost function Choice(ps: seq<Task>, count: nat, i: nat, n: nat): (c: nat)
    requires Chain(ps, count) && i < count
    ensures c < count
  {
    if n == 0 then i else Successor(ps, Choice(ps, count, i, n - 1))
  }

  lemma {:induction false} ChoiceWrapsAround(ps: seq<Task>, count: nat, i: nat, n: nat)
    requires Chain(ps, count) && i < count
    ensures Choice(ps, count, i, n) == (i + n) % count
  {
    if n == 0 {
      DivModUnique(i, count, 0, i);
    } else {
      ChoiceWrapsAround(ps, count, i, n - 1);
      NextModulo(i + n - 1, count);
    }
  }

  lemma NextModulo(x: nat, c: nat)
    requires c > 0
    ensures (x + 1) % c == if x % c == c - 1 then 0 else x % c + 1
  {
    DivModEquation(x, c);
    if x % c == c - 1 {
      MulDistributes(c, x / c, 1);
      DivModUnique(x + 1, c, x / c + 1, 0);
    } else {
      DivModUnique(x + 1, c, x / c, x % c + 1);
    }
  }

  /** Any `count` consecutive choices run every task exactly once. */
  lemma RoundRobin(ps: seq<Task>, count: nat, i: nat, start: nat, t: nat) returns (n: nat)
    requires Chain(ps, count) && i < count && t < count
    ensures start <= n < start + count && Choice(ps, count, i, n) == t
    ensures forall m: nat :: start <= m < start + count && Choice(ps, count, i, m) == t ==> m == n
  {
    hide Chain, Choice;
    var s := Choice(ps, count, i, start);
    ChoiceWrapsAround(ps, count, i, start);
    n := start + (if t >= s then t - s else t + count - s);
    forall m: nat | start <= m < start + count
      ensures Choice(ps, count, i, m) == (if s + (m - start) < count then s + (m - start) else s + (m - start) - count)
    {
      ChoiceWrapsAround(ps, count, i, m);
      Offset(i + start, m - start, count);
    }
  }

  lemma Offset(x: nat, d: nat, c: nat)
    requires d < c
    ensures (x + d) % c == if x % c + d < c then x % c + d else x % c + d - c
  {
    DivModEquation(x, c);
    if x % c + d < c {
      DivModUnique(x + d, c, x / c, x % c + d);
    } else {
      MulDistributes(c, x / c, 1);
      DivModUnique(x + d, c, x / c + 1, x % c + d - c);
    }
  }

  // ----- The table in memory

  const TASK_SIZE := 64

  /** The slot of a task in the array at address base; task 0 keeps the stack it was started on. */
  ghost function SlotOf(base: u32, mainLo: u32, mainHi: u32, i: nat): Slot
    requires i < MAX_PROCESSES && base + TASK_SIZE * MAX_PROCESSES < U32_SIZE
  {
    if i == 0 then Slot(base, mainLo, mainHi)
    else Slot(base + TASK_SIZE * i, STACK_SIZE * (i - 1), STACK_SIZE * i)
  }

  ghost function SlotsOf(base: u32, mainLo: u32, mainHi: u32, count: nat): (ts: seq<Slot>)
    requires count <= MAX_PROCESSES && base + TASK_SIZE * MAX_PROCESSES < U32_SIZE
    ensures |ts| == count
  {
    seq(count, i requires 0 <= i < MAX_PROCESSES => SlotOf(base, mainLo, mainHi, i))
  }

  /** The created stacks are disjoint from each other; when the table and the first stack also lie
      above them and apart, the tasks meet the condition of ResumedAsIfReturned. */
  lemma TableIsLayout(base: u32, mainLo: u32, mainHi: u32, count: nat)
    requires count <= MAX_PROCESSES && base + TASK_SIZE * MAX_PROCESSES < U32_SIZE && Aligned(base)
    requires STACK_SIZE * MAX_PROCESSES <= base && STACK_SIZE * MAX_PROCESSES <= mainLo <= mainHi
    requires Apart(base, TASK_SIZE * MAX_PROCESSES, mainLo, mainHi - mainLo)
    ensures Layout(SlotsOf(base, mainLo, mainHi, count))
  {
    var ts := SlotsOf(base, mainLo, mainHi, count);
    forall i, j | 0 <= i < |ts| && 0 <= j < |ts| && i != j
      ensures Separate(ts[i], ts[j])
    {
    }
  }

  /** With the registers of the chain in the save blocks, every task but the running one can be resumed. */
  lemma ChainIsResumable(ps: seq<Task>, count: nat, base: u32, mainLo: u32, mainHi: u32, s: State)
    requires Chain(ps, count)
    requires base + TASK_SIZE * MAX_PROCESSES < U32_SIZE
    requires Layout(SlotsOf(base, mainLo, mainHi, count))
    requires forall i :: 1 <= i < count ==> Saved(s.mem, SlotsOf(base, mainLo, mainHi, count)[i].block) == ps[i].regs
    ensures AllResumable(SlotsOf(base, mainLo, mainHi, count), Config(0, s))
  {
    hide Read;
  }

  /** The words of a task's TaskRegisters structure, in the order of its declaration. */
  ghost function Words(r: Registers): seq<u32> {
    [r.eax, r.ebx, r.ecx, r.edx, r.esi, r.edi, r.esp, r.ebp, r.eip, r.eflags, r.cr3]
  }

  /** The first `count` tasks of the table are in memory, 64 bytes apart. */
  ghost predicate InTable(mem: Memory, base: u32, ps: seq<Task>, count: nat) {
    count <= |ps| &&
    forall i, k :: 0 <= i < count && 0 <= k < 11 ==> Read(mem, base + 64 * i + 4 * k) == Words(ps[i].regs)[k]
  }

  lemma SavedInTable(mem: Memory, base: u32, mainLo: u32, mainHi: u32, ps: seq<Task>, count: nat, i: nat)
    requires InTable(mem, base, ps, count) && i < count <= MAX_PROCESSES
    requires base + TASK_SIZE * MAX_PROCESSES < U32_SIZE && Aligned(base)
    ensures Saved(mem, SlotsOf(base, mainLo, mainHi, count)[i].block) == ps[i].regs
  {
    hide Read;
    var w := Words(ps[i].regs);
    var b := base + 64 * i;
    assert Read(mem, base + 64 * i + 4 * 0) == w[0] && Read(mem, base + 64 * i + 4 * 1) == w[1];
    assert Read(mem, base + 64 * i + 4 * 2) == w[2] && Read(mem, base + 64 * i + 4 * 3) == w[3];
    assert Read(mem, base + 64 * i + 4 * 4) == w[4] && Read(mem, base + 64 * i + 4 * 5) == w[5];
    assert Read(mem, base + 64 * i + 4 * 6) == w[6] && Read(mem, base + 64 * i + 4 * 7) == w[7];
    assert Read(mem, base + 64 * i + 4 * 8) == w[8] && Read(mem, base + 64 * i + 4 * 9) == w[9];
    assert Read(mem, base + 64 * i + 4 * 10) == w[10];
  }

  /** The conditions on where the linker puts the table and the first stack. */
  ghost predicate Placed(base: u32, mainLo: u32, mainHi: u32) {
    && Aligned(base) && STACK_SIZE * MAX_PROCESSES <= base && base + TASK_SIZE * MAX_PROCESSES < U32_SIZE
    && STACK_SIZE * MAX_PROCESSES <= mainLo <= mainHi
    && Apart(base, TASK_SIZE * MAX_PROCESSES, mainLo, mainHi - mainLo)
  }

  /** A machine whose memory holds a chain of tasks, and that is running the first of them, is at the
      start of a run: whatever steps follow, each of them is a step of Run. */
  lemma TableStartsRun(ps: seq<Task>, count: nat, base: u32, mainLo: u32, mainHi: u32,
                       gs: seq<Config>, es: seq<Event>)
    requires Placed(base, mainLo, mainHi) && Chain(ps, count) && |gs| == |es| + 1
    requires gs[0].cur == 0 && InTable(gs[0].s.mem, base, ps, count)
    ensures Layout(SlotsOf(base, mainLo, mainHi, count))
    ensures (forall m :: 0 <= m < |es| ==> Step(SlotsOf(base, mainLo, mainHi, count), gs[m], es[m], gs[m + 1]))
      <==> Run(SlotsOf(base, mainLo, mainHi, count), gs, es)
  {
    TableIsLayout(base, mainLo, mainHi, count);
    var ts := SlotsOf(base, mainLo, mainHi, count);
    hide Step, Layout, Saved, SlotsOf, InTable;
    forall i: nat | 1 <= i < count
      ensures Saved(gs[0].s.mem, ts[i].block) == ps[i].regs
    {
      SavedInTable(gs[0].s.mem, base, mainLo, mainHi, ps, count, i);
    }
    ChainIsResumable(ps, count, base, mainLo, mainHi, gs[0].s);
  }

  /** From the table of initTasking: in every run, task 1, 2 or 3 runs for the first time at its own
      main function, with the flags and cr3 of the caller of initTasking, zero in the general
      registers, and its stack pointer at the top of its own 4 KiB. */
  lemma TasksStartAtMain(ps: seq<Task>, mains: seq<u32>, eflags: u32, cr3: u32, base: u32, mainLo: u32, mainHi: u32,
                         gs: seq<Config>, es: seq<Event>, k: nat)
    requires Placed(base, mainLo, mainHi) && ReadyToRun(ps, mains, eflags, cr3) && |gs| == |es| + 1
    requires gs[0].cur == 0 && InTable(gs[0].s.mem, base, ps, 4) && Layout(SlotsOf(base, mainLo, mainHi, 4))
    requires forall m :: 0 <= m < |es| ==> Step(SlotsOf(base, mainLo, mainHi, 4), gs[m], es[m], gs[m + 1])
    requires 0 < k < |gs| && forall m :: 0 <= m < k ==> gs[m].cur != gs[k].cur
    ensures 1 <= gs[k].cur < 4
    ensures var r := gs[k].s.regs;
      && r.eip == mains[gs[k].cur - 1] && r.eflags == eflags && r.cr3 == cr3 && r.esp == 4096 * gs[k].cur
      && r.eax == 0 && r.ebx == 0 && r.ecx == 0 && r.edx == 0 && r.esi == 0 && r.edi == 0
      && r.ebp == ps[gs[k].cur].regs.ebp
  {
    TableStartsRun(ps, 4, base, mainLo, mainHi, gs, es);
    var ts := SlotsOf(base, mainLo, mainHi, 4);
    hide Step, Layout, Saved, SlotsOf, InTable, Run;
    RunResumable(ts, gs, es, k);
    StartsAsCreated(ts, gs, es, k);
    SavedInTable(gs[0].s.mem, base, mainLo, mainHi, ps, 4, gs[k].cur);
  }
}
