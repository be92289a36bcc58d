/** The interrupt entries and stubs of src/asm/start.s. */
module Interrupts {
  import opened Numbers
  import opened Machine
  import opened ContextSwitch

  const KERNEL_DATA := 0x10

  datatype Segments = Segments(cs: u16, ds: u16, es: u16, fs: u16, gs: u16, ss: u16)

  datatype Processor = Processor(r: Registers, seg: Segments, mem: Memory)

  /** The isr_stack_state structure of src/include/system.h. */
  datatype Frame = Frame(gs: u32, fs: u32, es: u32, ds: u32,
                         edi: u32, esi: u32, ebp: u32, esp: u32, ebx: u32, edx: u32, ecx: u32, eax: u32,
                         intNo: u32, errCode: u32,
                         eip: u32, cs: u32, eflags: u32, useresp: u32, ss: u32)

  ghost function FrameAt(mem: Memory, f: int): Frame {
    Frame(Read(mem, f), Read(mem, f + 4), Read(mem, f + 8), Read(mem, f + 12),
          Read(mem, f + 16), Read(mem, f + 20), Read(mem, f + 24), Read(mem, f + 28),
          Read(mem, f + 32), Read(mem, f + 36), Read(mem, f + 40), Read(mem, f + 44),
          Read(mem, f + 48), Read(mem, f + 52),
          Read(mem, f + 56), Read(mem, f + 60), Read(mem, f + 64), Read(mem, f + 68), Read(mem, f + 72))
  }

  /** The interrupt flag is bit 9. */
  predicate InterruptsEnabled(eflags: u32) {
    eflags / 0x200 % 2 == 1
  }

  function Cli(eflags: u32): (r: u32)
    ensures Masked(eflags, r)
  {
    if InterruptsEnabled(eflags) then eflags - 0x200 else eflags
  }

  function Sti(eflags: u32): (r: u32)
    ensures InterruptsEnabled(r)
  {
    if InterruptsEnabled(eflags) then eflags else eflags + 0x200
  }

  function LowHalf(w: u32): u16 {
    w % 0x1_0000
  }

  /** Pushing a selector writes a zero-extended word or only the lower half of the word, depending on
      the processor. */
  function PushSegment(mem: Memory, a: int, sel: u16, zeroExtends: bool): Memory {
    Write(mem, a, if zeroExtends then sel else Read(mem, a) / 0x1_0000 * 0x1_0000 + sel)
  }

  lemma ReadAfterPushSegment()
    ensures forall m: Memory, a: int, v: u16, z: bool, b: int {:trigger Read(PushSegment(m, a, v, z), b)} ::
      if a == b then LowHalf(Read(PushSegment(m, a, v, z), b)) == v
      else Read(PushSegment(m, a, v, z), b) == Read(m, b)
  {
  }

  // ----- The hardware

  /** The interrupted code runs at an outer privilege level, so the processor changes stacks. */
  predicate Outer(cs: int) {
    cs % 4 != 0
  }

  /** Stack pointer after the processor has pushed eflags, cs and eip, and before any error code. */
  function HardwareTop(p: Processor, esp0: u32): int {
    if Outer(p.seg.cs) then esp0 - 20 else p.r.esp - 12
  }

  /** Interrupt delivery: esp0 and ss0 are the kernel stack of the task state segment. */
  function Delivered(p: Processor, errCode: u32, hasError: bool, entry: u32, esp0: u32, ss0: u16): Processor
    requires HardwareTop(p, esp0) >= 4
  {
    var top := HardwareTop(p, esp0);
    var m1 := if Outer(p.seg.cs) then Write(Write(p.mem, top + 16, p.seg.ss), top + 12, p.r.esp) else p.mem;
    var m2 := Write(Write(Write(m1, top + 8, p.r.eflags), top + 4, p.seg.cs), top, p.r.eip);
    Processor(p.r.(esp := if hasError then top - 4 else top, eip := entry),
              p.seg.(cs := 0x08, ss := if Outer(p.seg.cs) then ss0 else p.seg.ss),
              if hasError then Write(m2, top - 4, errCode) else m2)
  }

  /** The exceptions for which the processor pushes an error code (Intel SDM Vol. 3A, table 6-1). */
  predicate HardwarePushesError(i: nat) {
    i == 8 || 10 <= i <= 14 || i == 17
  }

  // ----- The stubs

  /** The condition at line 200 of src/asm/start.s. */
  predicate StubPushesZero(i: nat) {
    i != 8 && (i < 10 || i > 14)
  }

  /** isrN: cli, a zero in place of a missing error code, the vector, and the common stub up to the
      call of the handler. `back` is the address of the instruction after the call. */
  method IsrEntry(p: Processor, i: nat, handler: u32, back: u32, zeroExtends: bool) returns (q: Processor)
    requires i < 32 && p.r.esp >= 64
    ensures EntersHandler(p, q, i, if StubPushesZero(i) then p.r.esp - 56 else p.r.esp - 52)
    ensures StubPushesZero(i) ==> Read(q.mem, p.r.esp - 4) == 0
    ensures q.r.eip == handler && Read(q.mem, q.r.esp) == back
  {
    var r, mem := p.r, p.mem;
    ReadAfterWrite();
    // cli
    r := r.(eflags := Cli(r.eflags));
    if StubPushesZero(i) {
      mem, r := Write(mem, r.esp - 4, 0), r.(esp := r.esp - 4);
    }
    mem, r := Write(mem, r.esp - 4, i), r.(esp := r.esp - 4);
    q := CommonEntry(Processor(r, p.seg, mem), handler, back, zeroExtends);
  }

  /** irqN: the entry of hardware interrupts, which never have an error code. */
  method IrqEntry(p: Processor, j: nat, handler: u32, back: u32, zeroExtends: bool) returns (q: Processor)
    requires 32 <= j < 48 && p.r.esp >= 64
    ensures EntersHandler(p, q, j, p.r.esp - 56)
    ensures Read(q.mem, p.r.esp - 4) == 0
    ensures q.r.eip == handler && Read(q.mem, q.r.esp) == back
  {
    var r, mem := p.r, p.mem;
    ReadAfterWrite();
    // cli
    r := r.(eflags := Cli(r.eflags));
    mem, r := Write(mem, r.esp - 4, 0), r.(esp := r.esp - 4);
    mem, r := Write(mem, r.esp - 4, j), r.(esp := r.esp - 4);
    q := CommonEntry(Processor(r, p.seg, mem), handler, back, zeroExtends);
  }

  /** What the handler finds: the frame at f holds the state p of the stub's caller, f is the argument,
      and nothing at or above the stub's caller's stack pointer has changed. */
  ghost predicate EntersHandler(p: Processor, q: Processor, vector: nat, f: int) {
    && q.r.esp == f - 8 && Read(q.mem, f - 4) == f
    && q.seg == p.seg.(ds := 0x10, es := 0x10, fs := 0x10, gs := 0x10)
    && (forall a :: a >= p.r.esp || a < f - 8 ==> Read(q.mem, a) == Read(p.mem, a))
    && HoldsRegisters(q.mem, f, p.r, p.seg)
    && FrameAt(q.mem, f).intNo == vector
    && Masked(p.r.eflags, q.r.eflags)
  }

  /** Bit 9 is clear, and the other bits are as before. */
  ghost predicate Masked(was: u32, now: u32) {
    now / 0x200 % 2 == 0 && now % 0x200 == was % 0x200 && now / 0x400 == was / 0x400
  }

  /** The fields of the frame at f that pusha and the pushes of the segment registers fill in. */
  ghost predicate HoldsRegisters(mem: Memory, f: int, r: Registers, s: Segments) {
    var fr := FrameAt(mem, f);
    && LowHalf(fr.gs) == s.gs && LowHalf(fr.fs) == s.fs
    && LowHalf(fr.es) == s.es && LowHalf(fr.ds) == s.ds
    && fr.edi == r.edi && fr.esi == r.esi && fr.ebp == r.ebp && fr.esp == f + 48
    && fr.ebx == r.ebx && fr.edx == r.edx && fr.ecx == r.ecx && fr.eax == r.eax
  }

  /** pusha; push ds; push es; push fs; push gs. */
  method PushRegisters(r0: Registers, s: Segments, mem0: Memory, zeroExtends: bool) returns (r: Registers, mem: Memory)
    requires r0.esp >= 48
    ensures r == r0.(esp := r0.esp - 48)
    ensures HoldsRegisters(mem, r.esp, r0, s)
    ensures forall a :: a >= r0.esp || a < r.esp ==> Read(mem, a) == Read(mem0, a)
  {
    ReadAfterWrite();
    ReadAfterPushSegment();
    hide Read, Write, PushSegment;
    r, mem := Pusha(r0, mem0);
    mem, r := PushSegment(mem, r.esp - 4, s.ds, zeroExtends), r.(esp := r.esp - 4);
    mem, r := PushSegment(mem, r.esp - 4, s.es, zeroExtends), r.(esp := r.esp - 4);
    mem, r := PushSegment(mem, r.esp - 4, s.fs, zeroExtends), r.(esp := r.esp - 4);
    mem, r := PushSegment(mem, r.esp - 4, s.gs, zeroExtends), r.(esp := r.esp - 4);
  }

  /** isr_common_stub and irq_common_stub, up to and including the call. */
  method CommonEntry(p: Processor, handler: u32, back: u32, zeroExtends: bool) returns (q: Processor)
    requires p.r.esp >= 56
    ensures q.r.esp == p.r.esp - 56 && q.r.eip == handler && Read(q.mem, q.r.esp) == back
    ensures q.r.eflags == p.r.eflags
    ensures Read(q.mem, q.r.esp + 4) == p.r.esp - 48
    ensures q.seg == p.seg.(ds := KERNEL_DATA, es := KERNEL_DATA, fs := KERNEL_DATA, gs := KERNEL_DATA)
    ensures forall a :: a >= p.r.esp || a < q.r.esp ==> Read(q.mem, a) == Read(p.mem, a)
    ensures HoldsRegisters(q.mem, p.r.esp - 48, p.r, p.seg)
  {
    ReadAfterWrite();
    hide Read, Write;
    var r, mem := PushRegisters(p.r, p.seg, p.mem, zeroExtends);
    var s := p.seg;

    // mov ax, 0x10
    r := r.(eax := r.eax / 0x1_0000 * 0x1_0000 + KERNEL_DATA);
    s := s.(ds := LowHalf(r.eax), es := LowHalf(r.eax), fs := LowHalf(r.eax), gs := LowHalf(r.eax));

    // mov eax, esp; push eax
    r := r.(eax := r.esp);
    mem, r := Write(mem, r.esp - 4, r.eax), r.(esp := r.esp - 4);

    // mov eax, handler; call eax
    r := r.(eax := handler);
    mem, r := Write(mem, r.esp - 4, back), r.(esp := r.esp - 4);
    r := r.(eip := r.eax);
    q := Processor(r, s, mem);
  }

  /** After the handler's return: the registers come from the frame at esp + 4, whatever the handler
      has made of it; only its esp field is skipped. */
  ghost predicate LeavesStub(p: Processor, q: Processor)
    requires p.r.esp + 72 < U32_SIZE
  {
    var fr := FrameAt(p.mem, p.r.esp + 4);
    && q.mem == p.mem
    && q.r == p.r.(edi := fr.edi, esi := fr.esi, ebp := fr.ebp, ebx := fr.ebx, edx := fr.edx, ecx := fr.ecx,
                   eax := fr.eax, eip := fr.eip, eflags := fr.eflags,
                   esp := if Outer(fr.cs) then fr.useresp else p.r.esp + 72)
    && q.seg == Segments(LowHalf(fr.cs), LowHalf(fr.ds), LowHalf(fr.es), LowHalf(fr.fs), LowHalf(fr.gs),
                         if Outer(fr.cs) then LowHalf(fr.ss) else p.seg.ss)
  }

  /** The common stubs from the return of the handler on. irq_common_stub has an additional `sti`
      before the iret. */
  method CommonExit(p: Processor, irq: bool) returns (q: Processor)
    requires p.r.esp + 80 < U32_SIZE && p.seg.cs % 4 == 0
    ensures LeavesStub(p, q)
  {
    hide Read;
    var r, s, mem := p.r, p.seg, p.mem;
    r := r.(eax := Read(mem, r.esp), esp := r.esp + 4);
    s, r := s.(gs := LowHalf(Read(mem, r.esp))), r.(esp := r.esp + 4);
    s, r := s.(fs := LowHalf(Read(mem, r.esp))), r.(esp := r.esp + 4);
    s, r := s.(es := LowHalf(Read(mem, r.esp))), r.(esp := r.esp + 4);
    s, r := s.(ds := LowHalf(Read(mem, r.esp))), r.(esp := r.esp + 4);
    // popa
    r := r.(edi := Read(mem, r.esp), esi := Read(mem, r.esp + 4), ebp := Read(mem, r.esp + 8),
            ebx := Read(mem, r.esp + 16), edx := Read(mem, r.esp + 20),
            ecx := Read(mem, r.esp + 24), eax := Read(mem, r.esp + 28));
    r := r.(esp := r.esp + 32);
    // add esp, 8
    r := r.(esp := r.esp + 8);
    if irq {
      r := r.(eflags := Sti(r.eflags));
    }
    // iret
    var eip, cs, eflags := Read(mem, r.esp), Read(mem, r.esp + 4), Read(mem, r.esp + 8);
    if Outer(cs) {
      s := s.(ss := LowHalf(Read(mem, r.esp + 16)));
      r := r.(esp := Read(mem, r.esp + 12));
    } else {
      r := r.(esp := r.esp + 12);
    }
    r, s := r.(eip := eip, eflags := eflags), s.(cs := LowHalf(cs));
    q := Processor(r, s, mem);
  }

  // ----- The whole way through an interrupt

  /** The handler has returned: its return address is popped, segment registers are as they were, and
      anything else may have changed. */
  ghost predicate HandlerReturns(p: Processor, q: Processor) {
    q.r.esp == p.r.esp + 4 && q.seg == p.seg
  }

  /** The handler has not changed the frame at f. */
  ghost predicate FrameAlone(p: Processor, q: Processor, f: int) {
    FrameAt(q.mem, f) == FrameAt(p.mem, f)
  }

  /** Where the frame is when the stub and the processor agree on the error code. */
  ghost function FrameAddress(p: Processor, esp0: u32): int {
    HardwareTop(p, esp0) - 56
  }

  /** Stub and processor together fill in the complete structure, for every vector on which they agree. */
  lemma FrameIsComplete(p: Processor, i: nat, err: u32, entry: u32, esp0: u32, ss0: u16, q: Processor)
    requires i < 48 && 128 <= HardwareTop(p, esp0)
    requires HardwarePushesError(i) == !StubPushesZero(i)
    requires var d := Delivered(p, err, HardwarePushesError(i), entry, esp0, ss0);
      EntersHandler(d, q, i, if StubPushesZero(i) then d.r.esp - 56 else d.r.esp - 52) &&
      (StubPushesZero(i) ==> Read(q.mem, d.r.esp - 4) == 0)
    ensures var f := FrameAddress(p, esp0); var fr := FrameAt(q.mem, f);
      && q.r.esp == f - 8 && Read(q.mem, f - 4) == f
      && HoldsRegisters(q.mem, f, p.r, p.seg)
      && fr.intNo == i && fr.errCode == (if HardwarePushesError(i) then err else 0)
      && fr.eip == p.r.eip && fr.cs == p.seg.cs && fr.eflags == p.r.eflags
      && (p.seg.cs % 4 != 0 ==> fr.useresp == p.r.esp && fr.ss == p.seg.ss)
  {
    ReadAfterWrite();
    hide Read, Write;
  }

  /** The structure word by word, as the C code reads it. */
  lemma FrameWords(mem: Memory, f: int, r: Registers, s: Segments)
    ensures HoldsRegisters(mem, f, r, s) <==>
      && LowHalf(Read(mem, f)) == s.gs && LowHalf(Read(mem, f + 4)) == s.fs
      && LowHalf(Read(mem, f + 8)) == s.es && LowHalf(Read(mem, f + 12)) == s.ds
      && Read(mem, f + 16) == r.edi && Read(mem, f + 20) == r.esi && Read(mem, f + 24) == r.ebp
      && Read(mem, f + 28) == f + 48 && Read(mem, f + 32) == r.ebx && Read(mem, f + 36) == r.edx
      && Read(mem, f + 40) == r.ecx && Read(mem, f + 44) == r.eax
    ensures FrameAt(mem, f).intNo == Read(mem, f + 48) && FrameAt(mem, f).errCode == Read(mem, f + 52)
    ensures FrameAt(mem, f).eip == Read(mem, f + 56) && FrameAt(mem, f).cs == Read(mem, f + 60)
    ensures FrameAt(mem, f).eflags == Read(mem, f + 64) && FrameAt(mem, f).useresp == Read(mem, f + 68)
    ensures FrameAt(mem, f).ss == Read(mem, f + 72)
  {
    hide Read, LowHalf;
  }

  /** A handler that leaves the frame alone is invisible to the interrupted code: every register, the
      flags, the stack pointer and all segment registers come back as they were. */
  lemma HandlerIsInvisible(p: Processor, i: nat, err: u32, entry: u32, esp0: u32, ss0: u16,
                           q: Processor, q': Processor, t: Processor)
    requires i < 48 && 128 <= HardwareTop(p, esp0) && HardwareTop(p, esp0) + 32 < U32_SIZE
    requires HardwarePushesError(i) == !StubPushesZero(i)
    requires var d := Delivered(p, err, HardwarePushesError(i), entry, esp0, ss0);
      EntersHandler(d, q, i, if StubPushesZero(i) then d.r.esp - 56 else d.r.esp - 52) &&
      (StubPushesZero(i) ==> Read(q.mem, d.r.esp - 4) == 0)
    requires HandlerReturns(q, q') && FrameAlone(q, q', FrameAddress(p, esp0))
    requires q'.r.esp + 72 < U32_SIZE && LeavesStub(q', t)
    ensures t.r == p.r.(cr3 := t.r.cr3) && t.seg == p.seg
  {
    hide Read, Write;
    FrameIsComplete(p, i, err, entry, esp0, ss0, q);
    ReadAfterWrite();
  }

  /** A handler as the stub sees it: it returns, and leaves alone the frame above its return address
      and argument. */
  ghost predicate LeavesFrame(handle: Processor -> Processor) {
    forall q: Processor :: 4 <= q.r.esp && q.r.esp + 4 < U32_SIZE ==>
      HandlerReturns(q, handle(q)) && FrameAlone(q, handle(q), q.r.esp + 8)
  }

  /** A whole interrupt, from the processor's pushes to the iret, around any such handler. */
  method Interrupt(p: Processor, i: nat, err: u32, entry: u32, esp0: u32, ss0: u16,
                   handler: u32, back: u32, zeroExtends: bool, handle: Processor -> Processor) returns (t: Processor)
    requires i < 48 && i != 17
    requires 128 <= HardwareTop(p, esp0) && HardwareTop(p, esp0) + 32 < U32_SIZE
    requires LeavesFrame(handle)
    ensures t.r == p.r.(cr3 := t.r.cr3) && t.seg == p.seg
  {
    hide *;
    AgreementExactly(i);
    DeliveredTop(p, err, HardwarePushesError(i), entry, esp0, ss0);
    var d := Delivered(p, err, HardwarePushesError(i), entry, esp0, ss0);
    var q: Processor;
    if i < 32 {
      q := IsrEntry(d, i, handler, back, zeroExtends);
    } else {
      IrqPushesZero(i);
      q := IrqEntry(d, i, handler, back, zeroExtends);
    }
    FrameIsComplete(p, i, err, entry, esp0, ss0, q);
    EntryPlaces(d, q, i, if StubPushesZero(i) then d.r.esp - 56 else d.r.esp - 52);
    HandlerDone(q, FrameAddress(p, esp0), handle);
    var returned := handle(q);
    t := CommonExit(returned, i >= 32);
    HandlerIsInvisible(p, i, err, entry, esp0, ss0, q, returned, t);
  }

  lemma DeliveredTop(p: Processor, errCode: u32, hasError: bool, entry: u32, esp0: u32, ss0: u16)
    requires HardwareTop(p, esp0) >= 4
    ensures var d := Delivered(p, errCode, hasError, entry, esp0, ss0);
      d.seg.cs == 0x08 && d.r.esp == if hasError then HardwareTop(p, esp0) - 4 else HardwareTop(p, esp0)
  {
  }

  lemma IrqPushesZero(i: nat)
    requires i >= 32
    ensures StubPushesZero(i)
  {
  }

  lemma EntryPlaces(p: Processor, q: Processor, vector: nat, f: int)
    requires EntersHandler(p, q, vector, f)
    ensures q.r.esp == f - 8 && q.seg.cs == p.seg.cs
  {
    hide HoldsRegisters, FrameAt, Read;
  }

  lemma HandlerDone(q: Processor, f: int, handle: Processor -> Processor)
    requires 64 <= f && f + 88 < U32_SIZE && q.r.esp == f - 8 && q.seg.cs == 0x08 && LeavesFrame(handle)
    ensures HandlerReturns(q, handle(q)) && FrameAlone(q, handle(q), f)
    ensures handle(q).r.esp + 80 < U32_SIZE && handle(q).seg.cs % 4 == 0
  {
    hide FrameAlone, FrameAt, Read;
    var r := handle(q);
    assert HandlerReturns(q, r) && FrameAlone(q, r, q.r.esp + 8);
  }

  /** Stub and processor agree on all vectors of the table but 17, the alignment check. */
  lemma AgreementExactly(i: nat)
    ensures HardwarePushesError(i) == !StubPushesZero(i) <==> i != 17
    ensures !StubPushesZero(i) <==> i in {8, 10, 11, 12, 13, 14}
  {
  }

  /** For vector 17 the stub adds a second word: the handler finds 0 as the error code and the real one
      where eip should be; the interrupted code resumes at the error code, with every other word that
      the processor had pushed taken for the one before it. */
  lemma AlignmentCheckResumesWrongly(p: Processor, err: u32, entry: u32, esp0: u32, ss0: u16,
                                     q: Processor, q': Processor, t: Processor)
    requires 128 <= HardwareTop(p, esp0) && HardwareTop(p, esp0) + 32 < U32_SIZE
    requires var d := Delivered(p, err, HardwarePushesError(17), entry, esp0, ss0);
      EntersHandler(d, q, 17, d.r.esp - 56) && Read(q.mem, d.r.esp - 4) == 0
    requires HandlerReturns(q, q') && FrameAlone(q, q', q.r.esp + 8)
    requires q'.r.esp + 72 < U32_SIZE && LeavesStub(q', t)
    ensures FrameAt(q.mem, q.r.esp + 8).errCode == 0
    ensures t.r.eip == err && t.seg.cs == LowHalf(p.r.eip) && t.r.eflags == p.seg.cs
    ensures t.r.esp == if Outer(p.r.eip) then p.r.eflags else HardwareTop(p, esp0) + 8
  {
    ReadAfterWrite();
    hide Read, Write;
  }
}
