/** The context switch of src/asm/kernel.s, one instruction at a time. */
module ContextSwitch {
  import opened Numbers
  import opened Machine

  /** The TaskRegisters structure at address b. */
  ghost function Saved(mem: Memory, b: u32): Registers
    requires IsBlock(b)
  {
    Registers(Read(mem, b), Read(mem, b + 4), Read(mem, b + 8), Read(mem, b + 12), Read(mem, b + 16),
              Read(mem, b + 20), Read(mem, b + 24), Read(mem, b + 28), Read(mem, b + 32), Read(mem, b + 36),
              Read(mem, b + 40))
  }

  ghost predicate IsBlock(b: int) {
    Aligned(b) && b + 44 < U32_SIZE
  }

  /** [a, a + m) and [b, b + n) have no byte in common. */
  ghost predicate Apart(a: int, m: int, b: int, n: int) {
    a + m <= b || b + n <= a
  }

  /** Registers as they are when a call just entered has returned: the return address is popped. */
  ghost function Returned(s: State): Registers
    requires Aligned(s.regs.esp) && s.regs.esp + 4 < U32_SIZE
  {
    Ret(s.regs, s.mem)
  }

  /** The registers that are current after the switch. */
  ghost function Resumed(s: State, from: u32, to: u32): Registers
    requires Aligned(s.regs.esp) && s.regs.esp + 4 < U32_SIZE && IsBlock(to)
  {
    if to == from then Returned(s) else Saved(s.mem, to)
  }

  /** A call switchTask(from, to) has just been entered: [esp] is the return address and the arguments
      follow. The 48 bytes below are free for the routine, and neither they nor the word below the
      other stack pointer are part of a save block. */
  ghost predicate Entered(s: State, from: u32, to: u32) {
    && Aligned(s.regs.esp) && 48 <= s.regs.esp && s.regs.esp + 12 < U32_SIZE
    && IsBlock(from) && IsBlock(to) && (from == to || Apart(from, 44, to, 44))
    && Read(s.mem, s.regs.esp + 4) == from && Read(s.mem, s.regs.esp + 8) == to
    && Apart(s.regs.esp - 48, 60, from, 44) && Apart(s.regs.esp - 48, 60, to, 44)
    && var e := Resumed(s, from, to).esp;
       Aligned(e) && 4 <= e && Apart(e - 4, 4, from, 44) && Apart(e - 4, 4, to, 44)
  }

  /** The words that the routine may leave changed: the save block, 48 bytes of the old stack below the
      return address, and one word below the new stack pointer. */
  ghost predicate Touched(a: int, s: State, from: u32, e: int) {
    from <= a < from + 44 || s.regs.esp - 48 <= a < s.regs.esp || a == e - 4
  }

  /** The effect of switchTask on the whole machine. */
  ghost predicate Switched(s: State, t: State, from: u32, to: u32)
    requires Aligned(s.regs.esp) && s.regs.esp + 4 < U32_SIZE && IsBlock(from) && IsBlock(to)
  {
    && t.regs == Resumed(s, from, to)
    && Saved(t.mem, from) == Returned(s)
    && forall a :: !Touched(a, s, from, t.regs.esp) ==> Read(t.mem, a) == Read(s.mem, a)
  }

  // ----- The routine, one instruction to a line. E is the stack pointer on entry.

  /** pusha; pushf; mov eax, cr3; push eax. */
  method PushState(r0: Registers, mem0: Memory) returns (r: Registers, mem: Memory)
    requires r0.esp >= 48
    ensures r == r0.(eax := r0.cr3, esp := r0.esp - 40)
    ensures Read(mem, r.esp) == r0.cr3 && Read(mem, r.esp + 4) == r0.eflags && Read(mem, r.esp + 16) == r0.ebp
    ensures Read(mem, r.esp + 20) == r0.esp && Read(mem, r.esp + 36) == r0.eax
    ensures forall a :: !(r.esp <= a < r0.esp) ==> Read(mem, a) == Read(mem0, a)
  {
    ReadAfterWrite();
    hide Read, Write;
    r, mem := Pusha(r0, mem0);
    mem, r := Write(mem, r.esp - 4, r.eflags), r.(esp := r.esp - 4);
    r := r.(eax := r.cr3);
    mem, r := Write(mem, r.esp - 4, r.eax), r.(esp := r.esp - 4);
  }

  /** From `mov eax, [esp+44]`: the pushed values go to the save block of the first argument. */
  method StoreBlock(r0: Registers, mem0: Memory, ghost from: u32, ghost E: u32) returns (r: Registers, mem: Memory)
    requires r0.esp == E - 40 && 48 <= E && E + 12 < U32_SIZE && Read(mem0, E - 20) + 4 < U32_SIZE
    requires IsBlock(from) && Apart(E - 48, 60, from, 44) && Read(mem0, E + 4) == from
    ensures r.esp == r0.esp
    ensures Saved(mem, from) ==
      Registers(Read(mem0, E - 4), r0.ebx, r0.ecx, r0.edx, r0.esi, r0.edi, Read(mem0, E - 20) + 4,
                Read(mem0, E - 24), Read(mem0, E), Read(mem0, E - 36), Read(mem0, E - 40))
    ensures forall a :: !(from <= a < from + 44) ==> Read(mem, a) == Read(mem0, a)
  {
    ReadAfterWrite();
    hide Read, Write;
    r, mem := r0, mem0;
    r := r.(eax := Read(mem, r.esp + 44));

    mem := Write(mem, r.eax + 4, r.ebx);
    mem := Write(mem, r.eax + 8, r.ecx);
    mem := Write(mem, r.eax + 12, r.edx);
    mem := Write(mem, r.eax + 16, r.esi);
    mem := Write(mem, r.eax + 20, r.edi);

    r := r.(ebx := Read(mem, r.esp + 36));
    r := r.(ecx := Read(mem, r.esp + 40));
    r := r.(esi := Read(mem, r.esp + 16));
    r := r.(edi := Read(mem, r.esp + 4));
    r := r.(edx := Read(mem, r.esp + 20));
    var flags: u32 := *;
    r := r.(edx := r.edx + 4, eflags := flags);

    mem := Write(mem, r.eax, r.ebx);
    mem := Write(mem, r.eax + 24, r.edx);
    mem := Write(mem, r.eax + 28, r.esi);
    mem := Write(mem, r.eax + 32, r.ecx);
    mem := Write(mem, r.eax + 36, r.edi);

    r := r.(ebx := Read(mem, r.esp), esp := r.esp + 4);
    mem := Write(mem, r.eax + 40, r.ebx);
    mem, r := Write(mem, r.esp - 4, r.ebx), r.(esp := r.esp - 4);
  }

  /** From `mov eax, [esp+48]`: registers and flags of the second argument, still on the old stack. */
  method LoadBlock(r0: Registers, mem0: Memory, ghost to: u32, ghost E: u32) returns (r: Registers, mem: Memory)
    requires r0.esp == E - 40 && 48 <= E && E + 12 < U32_SIZE
    requires IsBlock(to) && Apart(E - 48, 60, to, 44) && Read(mem0, E + 8) == to
    ensures Saved(mem, to) == Saved(mem0, to)
    ensures r == Saved(mem0, to).(eax := to, esp := r.esp, eip := r.eip, cr3 := r.cr3)
    ensures forall a :: !(E - 48 <= a < E - 40) ==> Read(mem, a) == Read(mem0, a)
  {
    ReadAfterWrite();
    hide Read, Write;
    r, mem := r0, mem0;
    r := r.(eax := Read(mem, r.esp + 48));

    r := r.(ebx := Read(mem, r.eax + 4));
    r := r.(ecx := Read(mem, r.eax + 8));
    r := r.(edx := Read(mem, r.eax + 12));
    r := r.(esi := Read(mem, r.eax + 16));
    r := r.(edi := Read(mem, r.eax + 20));
    r := r.(ebp := Read(mem, r.eax + 28));

    mem, r := Write(mem, r.esp - 4, r.eax), r.(esp := r.esp - 4);
    r := r.(eax := Read(mem, r.eax + 36));
    mem, r := Write(mem, r.esp - 4, r.eax), r.(esp := r.esp - 4);
    r := r.(eflags := Read(mem, r.esp), esp := r.esp + 4);
    r := r.(eax := Read(mem, r.esp), esp := r.esp + 4);
  }

  /** From `mov esp, [eax+24]`: on the new stack, up to the return. */
  method ReturnToNext(r0: Registers, mem0: Memory) returns (r: Registers, mem: Memory)
    requires IsBlock(r0.eax)
    requires var e := Saved(mem0, r0.eax).esp; 4 <= e && Apart(e - 4, 4, r0.eax, 44)
    ensures var b := Saved(mem0, r0.eax); r == r0.(eax := b.eax, esp := b.esp, eip := b.eip, cr3 := b.cr3)
    ensures forall a :: a != r.esp - 4 ==> Read(mem, a) == Read(mem0, a)
  {
    ReadAfterWrite();
    hide Read, Write;
    r, mem := r0, mem0;
    r := r.(esp := Read(mem, r.eax + 24));

    mem, r := Write(mem, r.esp - 4, r.eax), r.(esp := r.esp - 4);
    r := r.(eax := Read(mem, r.eax + 40));
    r := r.(cr3 := r.eax);
    r := r.(eax := Read(mem, r.esp), esp := r.esp + 4);

    mem, r := Write(mem, r.esp - 4, r.eax), r.(esp := r.esp - 4);
    r := r.(eax := Read(mem, r.eax + 32));
    mem, r := Write(mem, r.esp, r.eax), r.(eax := Read(mem, r.esp));
    r := r.(eax := Read(mem, r.eax));
    r := Ret(r, mem);
  }

  method SwitchTask(s: State, ghost from: u32, ghost to: u32) returns (t: State)
    requires Entered(s, from, to)
    ensures Switched(s, t, from, to)
  {
    hide Read;
    ghost var E := s.regs.esp;
    var r, mem := PushState(s.regs, s.mem);
    r, mem := StoreBlock(r, mem, from, E);
    r, mem := LoadBlock(r, mem, to, E);
    r, mem := ReturnToNext(r, mem);
    t := State(r, mem);
  }
}
