/** The part of a 32-bit x86 that the assembly of src/asm uses: registers, flags, a stack, and memory
    as 32-bit words at multiples of four. */
module Machine {
  import opened Numbers

  type Memory = map<int, u32>

  /** Registers in the order of the TaskRegisters structure of src/include/system.h. */
  datatype Registers = Registers(eax: u32, ebx: u32, ecx: u32, edx: u32, esi: u32, edi: u32,
                                 esp: u32, ebp: u32, eip: u32, eflags: u32, cr3: u32)

  datatype State = State(regs: Registers, mem: Memory)

  ghost predicate Aligned(a: int) {
    a % 4 == 0
  }

  /** The word at address a; words never stored are zero. Addresses are multiples of four throughout,
      so that different words never overlap. */
  function Read(mem: Memory, a: int): u32 {
    if a in mem then mem[a] else 0
  }

  function Write(mem: Memory, a: int, v: u32): Memory {
    mem[a := v]
  }

  lemma ReadAfterWrite()
    ensures forall m: Memory, a: int, v: u32, b: int {:trigger Read(Write(m, a, v), b)} ::
      Read(Write(m, a, v), b) == if a == b then v else Read(m, b)
  {
  }

  /** ret */
  function Ret(r: Registers, mem: Memory): Registers
    requires r.esp + 4 < U32_SIZE
  {
    r.(eip := Read(mem, r.esp), esp := r.esp + 4)
  }

  /** pusha */
  method Pusha(r0: Registers, mem0: Memory) returns (r: Registers, mem: Memory)
    requires r0.esp >= 32
    ensures r == r0.(esp := r0.esp - 32)
    ensures Read(mem, r.esp) == r0.edi && Read(mem, r.esp + 4) == r0.esi && Read(mem, r.esp + 8) == r0.ebp
    ensures Read(mem, r.esp + 12) == r0.esp && Read(mem, r.esp + 16) == r0.ebx && Read(mem, r.esp + 20) == r0.edx
    ensures Read(mem, r.esp + 24) == r0.ecx && Read(mem, r.esp + 28) == r0.eax
    ensures forall a :: !(r.esp <= a < r0.esp) ==> Read(mem, a) == Read(mem0, a)
  {
    ReadAfterWrite();
    hide Read, Write;
    r, mem := r0, mem0;
    mem := Write(Write(Write(Write(mem, r.esp - 4, r.eax), r.esp - 8, r.ecx), r.esp - 12, r.edx), r.esp - 16, r.ebx);
    mem := Write(Write(Write(Write(mem, r.esp - 20, r.esp), r.esp - 24, r.ebp), r.esp - 28, r.esi), r.esp - 32, r.edi);
    r := r.(esp := r.esp - 32);
  }
}
