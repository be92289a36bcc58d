/** Whole runs of tasks that give up the processor by calling switchTask. */
module TaskRuns {
  import opened Numbers
  import opened Machine
  import opened ContextSwitch

  /** The save block of a task and its stack [lo, hi). */
  datatype Slot = Slot(block: u32, lo: u32, hi: u32)

  ghost predicate InBlock(t: Slot, a: int) {
    t.block <= a < t.block + 44
  }

  ghost predicate InStack(t: Slot, a: int) {
    t.lo <= a < t.hi
  }

  ghost predicate WellPlaced(t: Slot) {
    IsBlock(t.block) && t.lo <= t.hi && Apart(t.block, 44, t.lo, t.hi - t.lo)
  }

  ghost predicate Separate(t: Slot, u: Slot) {
    && Apart(t.block, 44, u.block, 44)
    && Apart(t.lo, t.hi - t.lo, u.lo, u.hi - u.lo)
    && Apart(t.block, 44, u.lo, u.hi - u.lo)
    && Apart(u.block, 44, t.lo, t.hi - t.lo)
  }

  /** Save blocks and stacks of different tasks have nothing in common. */
  ghost predicate Layout(ts: seq<Slot>) {
    && (forall i :: 0 <= i < |ts| ==> WellPlaced(ts[i]))
    && (forall i, j :: 0 <= i < |ts| && 0 <= j < |ts| && i != j ==> Separate(ts[i], ts[j]))
  }

  /** The running task, and the machine. */
  datatype Config = Config(cur: nat, s: State)

  datatype Event = Compute | Switch(to: nat)

  /** What the code of task c must leave alone: all save blocks, and the stacks of the other tasks. */
  ghost predicate Foreign(ts: seq<Slot>, c: nat, a: int) {
    exists i :: 0 <= i < |ts| && (InBlock(ts[i], a) || (i != c && InStack(ts[i], a)))
  }

  /** Task c has called switchTask(its own block, the block of d) with room on its own stack. */
  ghost predicate Calls(ts: seq<Slot>, c: nat, d: nat, s: State) {
    && c < |ts| && d < |ts|
    && Aligned(s.regs.esp) && ts[c].lo + 48 <= s.regs.esp && s.regs.esp + 12 <= ts[c].hi
    && Read(s.mem, s.regs.esp + 4) == ts[c].block
    && Read(s.mem, s.regs.esp + 8) == ts[d].block
  }

  ghost predicate Step(ts: seq<Slot>, g: Config, e: Event, g': Config)
    requires Layout(ts)
  {
    match e
    case Compute =>
      g'.cur == g.cur && forall a :: Foreign(ts, g.cur, a) ==> Read(g'.s.mem, a) == Read(g.s.mem, a)
    case Switch(d) =>
      Calls(ts, g.cur, d, g.s) && g'.cur == d && Switched(g.s, g'.s, ts[g.cur].block, ts[d].block)
  }

  /** A task that is not running can be resumed: its saved stack pointer leaves a word of its stack free. */
  ghost predicate Resumable(ts: seq<Slot>, g: Config, i: nat)
    requires Layout(ts) && i < |ts|
  {
    var esp := Saved(g.s.mem, ts[i].block).esp;
    Aligned(esp) && ts[i].lo + 4 <= esp <= ts[i].hi
  }

  ghost predicate AllResumable(ts: seq<Slot>, g: Config)
    requires Layout(ts)
  {
    forall i: nat :: i < |ts| && i != g.cur ==> Resumable(ts, g, i)
  }

  ghost predicate Run(ts: seq<Slot>, gs: seq<Config>, es: seq<Event>) {
    && Layout(ts)
    && |gs| == |es| + 1
    && gs[0].cur < |ts| && AllResumable(ts, gs[0])
    && forall m :: 0 <= m < |es| ==> Step(ts, gs[m], es[m], gs[m + 1])
  }

  /** Task t is suspended with these registers, and its stack from its stack pointer up is as in m. */
  ghost predicate Parked(ts: seq<Slot>, g: Config, t: nat, r: Registers, m: Memory)
    requires Layout(ts) && t < |ts|
  {
    && t != g.cur
    && Saved(g.s.mem, ts[t].block) == r
    && SameStack(ts[t], r, m, g.s.mem)
  }

  ghost predicate SameStack(t: Slot, r: Registers, m: Memory, m': Memory) {
    forall a :: r.esp <= a < t.hi ==> Read(m', a) == Read(m, a)
  }

  // ----- One step

  /** The words of a suspended task that a step leaves alone. */
  lemma StepSpares(ts: seq<Slot>, g: Config, e: Event, g': Config, t: nat, a: int)
    requires Layout(ts) && t < |ts| && g.cur < |ts| && AllResumable(ts, g) && Step(ts, g, e, g')
    requires t != g.cur && t != g'.cur
    requires InBlock(ts[t], a) || InStack(ts[t], a)
    ensures Read(g'.s.mem, a) == Read(g.s.mem, a)
  {
    hide Read;
    match e
    case Compute =>
      assert Foreign(ts, g.cur, a);
    case Switch(d) =>
      assert Separate(ts[t], ts[g.cur]) && Separate(ts[t], ts[d]);
      assert d != g.cur ==> Resumable(ts, g, d);
      assert WellPlaced(ts[g.cur]);
  }

  lemma SavedSame(ts: seq<Slot>, t: nat, m: Memory, m': Memory)
    requires Layout(ts) && t < |ts|
    requires forall a :: InBlock(ts[t], a) ==> Read(m', a) == Read(m, a)
    ensures Saved(m', ts[t].block) == Saved(m, ts[t].block)
  {
    hide Read;
    var b := ts[t].block;
    assert InBlock(ts[t], b) && InBlock(ts[t], b + 4) && InBlock(ts[t], b + 8) && InBlock(ts[t], b + 12);
    assert InBlock(ts[t], b + 16) && InBlock(ts[t], b + 20) && InBlock(ts[t], b + 24) && InBlock(ts[t], b + 28);
    assert InBlock(ts[t], b + 32) && InBlock(ts[t], b + 36) && InBlock(ts[t], b + 40);
  }

  /** A task that runs neither before nor after a step keeps its saved registers. */
  lemma BlockStays(ts: seq<Slot>, g: Config, e: Event, g': Config, t: nat)
    requires Layout(ts) && t < |ts| && g.cur < |ts| && AllResumable(ts, g) && Step(ts, g, e, g')
    requires t != g.cur && t != g'.cur
    ensures Saved(g'.s.mem, ts[t].block) == Saved(g.s.mem, ts[t].block)
  {
    hide Read, Step, Saved, AllResumable;
    forall a | InBlock(ts[t], a)
      ensures Read(g'.s.mem, a) == Read(g.s.mem, a)
    {
      StepSpares(ts, g, e, g', t, a);
    }
    SavedSame(ts, t, g.s.mem, g'.s.mem);
  }

  lemma StaysParked(ts: seq<Slot>, g: Config, e: Event, g': Config, t: nat, r: Registers, m: Memory)
    requires Layout(ts) && t < |ts| && g.cur < |ts| && AllResumable(ts, g) && Step(ts, g, e, g')
    requires Parked(ts, g, t, r, m) && t != g'.cur
    ensures Parked(ts, g', t, r, m)
  {
    hide Read, Step, Saved;
    BlockStays(ts, g, e, g', t);
    assert Resumable(ts, g, t);
    forall a | r.esp <= a < ts[t].hi
      ensures Read(g'.s.mem, a) == Read(m, a)
    {
      StepSpares(ts, g, e, g', t, a);
    }
  }

  /** Between a call of switchTask and its return, all that task t can see is as the return of an
      ordinary call would have left it. */
  lemma BecomesParked(ts: seq<Slot>, g: Config, e: Event, g': Config)
    requires Layout(ts) && g.cur < |ts| && AllResumable(ts, g) && Step(ts, g, e, g')
    requires e.Switch? && e.to != g.cur
    ensures Parked(ts, g', g.cur, Returned(g.s), g.s.mem)
  {
    hide Read, Saved;
    var c, d := g.cur, e.to;
    assert Separate(ts[c], ts[d]) && Resumable(ts, g, d);
    forall a | Returned(g.s).esp <= a < ts[c].hi
      ensures Read(g'.s.mem, a) == Read(g.s.mem, a)
    {
    }
  }

  lemma Resumes(ts: seq<Slot>, g: Config, e: Event, g': Config, t: nat, r: Registers, m: Memory)
    requires Layout(ts) && t < |ts| && g.cur < |ts| && AllResumable(ts, g) && Step(ts, g, e, g')
    requires Parked(ts, g, t, r, m) && t == g'.cur
    ensures g'.s.regs == r && SameStack(ts[t], r, m, g'.s.mem)
  {
    hide Read, Saved;
    var c := g.cur;
    assert e == Switch(t);
    assert Separate(ts[t], ts[c]) && Resumable(ts, g, t);
    forall a | r.esp <= a < ts[t].hi
      ensures Read(g'.s.mem, a) == Read(m, a)
    {
    }
  }

  lemma StaysResumable(ts: seq<Slot>, g: Config, e: Event, g': Config)
    requires Layout(ts) && g.cur < |ts| && AllResumable(ts, g) && Step(ts, g, e, g')
    ensures g'.cur < |ts| && AllResumable(ts, g')
  {
    hide Read, Saved;
    forall i: nat | i < |ts| && i != g'.cur
      ensures Resumable(ts, g', i)
    {
      if i == g.cur {
        BecomesParked(ts, g, e, g');
      } else {
        assert Resumable(ts, g, i);
        BlockStays(ts, g, e, g', i);
      }
    }
  }

  // ----- Whole runs

  lemma {:induction false} RunResumable(ts: seq<Slot>, gs: seq<Config>, es: seq<Event>, m: nat)
    requires Run(ts, gs, es) && m < |gs|
    ensures gs[m].cur < |ts| && AllResumable(ts, gs[m])
  {
    hide AllResumable, Step, Layout;
    if m > 0 {
      RunResumable(ts, gs, es, m - 1);
      assert Step(ts, gs[m - 1], es[m - 1], gs[m - 1 + 1]);
      StaysResumable(ts, gs[m - 1], es[m - 1], gs[m]);
    }
  }

  /** Whenever a task of a run calls switchTask, the routine finds the conditions it needs. */
  lemma CallIsEntered(ts: seq<Slot>, gs: seq<Config>, es: seq<Event>, m: nat)
    requires Run(ts, gs, es) && m < |es| && es[m].Switch?
    ensures gs[m].cur < |ts| && es[m].to < |ts|
    ensures Entered(gs[m].s, ts[gs[m].cur].block, ts[es[m].to].block)
  {
    hide Read, Saved;
    RunResumable(ts, gs, es, m);
    var c, d := gs[m].cur, es[m].to;
    assert Step(ts, gs[m], es[m], gs[m + 1]);
    assert WellPlaced(ts[c]) && WellPlaced(ts[d]);
    if c != d {
      assert Separate(ts[c], ts[d]) && Resumable(ts, gs[m], d);
    }
  }

  lemma {:induction false} ParkedThroughout(ts: seq<Slot>, gs: seq<Config>, es: seq<Event>,
                                            j: nat, k: nat, t: nat, r: Registers, m: Memory)
    requires Run(ts, gs, es) && j <= k < |gs| && t < |ts|
    requires Parked(ts, gs[j], t, r, m)
    requires forall i :: j <= i <= k ==> gs[i].cur != t
    ensures Parked(ts, gs[k], t, r, m)
  {
    hide Parked, Step, Layout, AllResumable;
    if j < k {
      ParkedThroughout(ts, gs, es, j, k - 1, t, r, m);
      RunResumable(ts, gs, es, k - 1);
      assert Step(ts, gs[k - 1], es[k - 1], gs[k - 1 + 1]);
      StaysParked(ts, gs[k - 1], es[k - 1], gs[k], t, r, m);
    }
  }

  /** In every run: when task t, having called switchTask at step j, next runs at step k, its
      registers, flags, cr3, stack pointer and stack are those that an ordinary return of its call
      would have given it at step j. */
  lemma ResumedAsIfReturned(ts: seq<Slot>, gs: seq<Config>, es: seq<Event>, j: nat, k: nat)
    requires Run(ts, gs, es) && j < k < |gs| && es[j].Switch?
    requires gs[k].cur == gs[j].cur && forall i :: j < i < k ==> gs[i].cur != gs[j].cur
    ensures gs[j].cur < |ts| && Aligned(gs[j].s.regs.esp) && gs[j].s.regs.esp + 4 < U32_SIZE
    ensures gs[k].s.regs == Returned(gs[j].s)
    ensures SameStack(ts[gs[j].cur], Returned(gs[j].s), gs[j].s.mem, gs[k].s.mem)
  {
    hide Read, Saved, Step, Layout, AllResumable, Parked;
    var t := gs[j].cur;
    RunResumable(ts, gs, es, j);
    assert Step(ts, gs[j], es[j], gs[j + 1]);
    CallerStack(ts, gs[j], es[j], gs[j + 1]);
    if k > j + 1 {
      assert gs[j + 1].cur != t;
      BecomesParked(ts, gs[j], es[j], gs[j + 1]);
      ParkedThroughout(ts, gs, es, j + 1, k - 1, t, Returned(gs[j].s), gs[j].s.mem);
      RunResumable(ts, gs, es, k - 1);
      assert Step(ts, gs[k - 1], es[k - 1], gs[k - 1 + 1]);
      Resumes(ts, gs[k - 1], es[k - 1], gs[k], t, Returned(gs[j].s), gs[j].s.mem);
    }
  }

  /** The caller's stack pointer, and a task that switches to itself. */
  lemma CallerStack(ts: seq<Slot>, g: Config, e: Event, g': Config)
    requires Layout(ts) && g.cur < |ts| && Step(ts, g, e, g') && e.Switch?
    ensures Aligned(g.s.regs.esp) && g.s.regs.esp + 4 < U32_SIZE && g'.cur == e.to
    ensures e.to == g.cur ==>
      g'.s.regs == Returned(g.s) && SameStack(ts[g.cur], Returned(g.s), g.s.mem, g'.s.mem)
  {
    hide Read, Saved;
    assert WellPlaced(ts[g.cur]);
  }

  /** A task that has not run yet starts with the registers that were put into its save block. */
  lemma StartsAsCreated(ts: seq<Slot>, gs: seq<Config>, es: seq<Event>, k: nat)
    requires Run(ts, gs, es) && 0 < k < |gs| && gs[k].cur < |ts|
    requires forall i :: 0 <= i < k ==> gs[i].cur != gs[k].cur
    ensures gs[k].s.regs == Saved(gs[0].s.mem, ts[gs[k].cur].block)
    ensures SameStack(ts[gs[k].cur], gs[k].s.regs, gs[0].s.mem, gs[k].s.mem)
  {
    hide Read, Step;
    var t, r := gs[k].cur, Saved(gs[0].s.mem, ts[gs[k].cur].block);
    assert Parked(ts, gs[0], t, r, gs[0].s.mem);
    ParkedThroughout(ts, gs, es, 0, k - 1, t, r, gs[0].s.mem);
    RunResumable(ts, gs, es, k - 1);
    assert Step(ts, gs[k - 1], es[k - 1], gs[k - 1 + 1]);
    Resumes(ts, gs[k - 1], es[k - 1], gs[k], t, r, gs[0].s.mem);
  }
}
