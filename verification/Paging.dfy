/** The page tables of src/mm.c, and the two-level walk of the processor (Intel SDM Vol. 3A,
    section 4.3, 32-bit paging with 4-KByte pages). */
module Paging {
  import opened Numbers
  import opened Bits

  const PAGE_DIR_PRESENT := 0x1
  const PAGE_DIR_READWRITE := 0x2
  const PAGE_DIR_ADDR_BASE := 0x1000
  const PAGE_DIR_ADDR_MASK := 0xfffff000
  const MAPPED := 0x40_0000

  /** What the processor makes of a linear address. Elsewhere: the directory points to a table that
      this model does not contain. */
  datatype Translation = PageFault | Mapped(physical: int, writable: bool, user: bool) | Elsewhere

  /** The hardware walk through a directory whose present entries should point to the table at `at`. */
  ghost function Walk(directory: seq<u32>, table: seq<u32>, at: u32, va: u32): Translation
    requires |directory| == 1024 && |table| == 1024
  {
    IndexBounds(va);
    var pde := directory[Quot(va, Pow2(22))];
    if And(pde, PAGE_DIR_PRESENT) == 0 then PageFault
    else if And(pde, PAGE_DIR_ADDR_MASK) != at then Elsewhere
    else
      var pte := table[And(Quot(va, Pow2(12)), 0x3FF)];
      if And(pte, PAGE_DIR_PRESENT) == 0 then PageFault
      else
        Mapped(And(pte, PAGE_DIR_ADDR_MASK) + And(va, 0xFFF),
               And(pde, 2) != 0 && And(pte, 2) != 0,
               And(pde, 4) != 0 && And(pte, 4) != 0)
  }

  // ----- Masks

  lemma Masks(x: u32)
    ensures And(x, PAGE_DIR_ADDR_MASK) == x - x % 0x1000
    ensures And(x, 0xFFF) == x % 0x1000
    ensures And(x, 1) == x % 2
    ensures And(x, 2) == 2 * (x / 2 % 2)
    ensures And(x, 4) == 4 * (x / 4 % 2)
  {
    Pow2Values();
    AndHighMask(x, 12, 32);
    AndLowMask(x, 12);
    AndLowMask(x, 1);
    assert Pow2(1) == 2 && Pow2(2) == 4;
    AndShifted(x, 1, 1);
    AndLowMask(x / 2, 1);
    AndShifted(x, 1, 2);
    AndLowMask(x / 4, 1);
  }

  /** The two indices of an address: bits 22 to 31, and bits 12 to 21. */
  lemma IndexBounds(va: u32)
    ensures Quot(va, Pow2(22)) == va / 0x40_0000 < 1024
    ensures And(Quot(va, Pow2(12)), 0x3FF) == va / 0x1000 % 0x400
  {
    Pow2Values();
    AndLowMask(va / 0x1000, 10);
  }

  /** Page address and flags do not overlap. */
  lemma EntryValue(page: u32)
    requires page % 0x1000 == 0
    ensures Or(Or(page, PAGE_DIR_READWRITE), PAGE_DIR_PRESENT) == page + 3
    ensures Or(page, PAGE_DIR_PRESENT) == page + 1
  {
    hide Or;
    var a := page / 0x1000;
    assert page == 0x1000 * a;
    assert Pow2(1) == 2 && Pow2(2) == 4;
    OrIsSum(0x400 * a, 2, 2);
    OrIsSum(0x400 * a, 1, 2);
    OrIsSum(0x800 * a + 1, 1, 1);
  }

  lemma EntryFields(a: nat)
    requires 0x1000 * a < U32_SIZE
    ensures 0x1000 * a + 3 < U32_SIZE
    ensures var e := 0x1000 * a + 3;
      And(e, PAGE_DIR_ADDR_MASK) == 0x1000 * a && And(e, 1) == 1 && And(e, 2) == 2 && And(e, 4) == 0
  {
    hide And;
    var e := 0x1000 * a + 3;
    Masks(e);
    DivModUnique(e, 0x1000, a, 3);
    DivModUnique(e, 4, 0x400 * a, 3);
    DivModUnique(e, 2, 0x800 * a + 1, 1);
  }

  class PageTables {
    const pageDirectory: array<u32>
    const firstPageTable: array<u32>
    /** The address of firstPageTable; the attribute aligned(4096) makes it a page address. */
    const tableAddress: u32

    constructor (pageDirectory: array<u32>, firstPageTable: array<u32>, tableAddress: u32)
      requires pageDirectory.Length == 1024 && firstPageTable.Length == 1024 && pageDirectory != firstPageTable
      requires tableAddress % 0x1000 == 0
      ensures this.pageDirectory == pageDirectory && this.firstPageTable == firstPageTable && Valid()
    {
      this.pageDirectory, this.firstPageTable, this.tableAddress := pageDirectory, firstPageTable, tableAddress;
    }

    ghost predicate Valid() {
      && pageDirectory.Length == 1024 && firstPageTable.Length == 1024 && pageDirectory != firstPageTable
      && tableAddress % 0x1000 == 0
    }

    /** What the processor does with an address once these tables are loaded. */
    ghost function Translate(va: u32): Translation
      requires Valid()
      reads pageDirectory, firstPageTable
    {
      Walk(pageDirectory[..], firstPageTable[..], tableAddress, va)
    }

    method InitPageDirectory()
      requires Valid()
      modifies pageDirectory, firstPageTable
      ensures IdentityMapped(pageDirectory[..], firstPageTable[..], tableAddress)
    {
      hide Or;
      for i := 0 to 1024
        invariant forall j :: 0 <= j < i ==> pageDirectory[j] == PAGE_DIR_READWRITE
      {
        pageDirectory[i] := PAGE_DIR_READWRITE;
      }
      for i := 0 to 1024
        invariant forall j :: 0 <= j < 1024 ==> pageDirectory[j] == PAGE_DIR_READWRITE
        invariant forall j :: 0 <= j < i ==> firstPageTable[j] == 0x1000 * j + 3
      {
        MultipleModZero(0x1000, i);
        EntryValue(i * PAGE_DIR_ADDR_BASE);
        firstPageTable[i] := Or(Or(i * PAGE_DIR_ADDR_BASE, PAGE_DIR_READWRITE), PAGE_DIR_PRESENT);
      }
      EntryValue(tableAddress);
      pageDirectory[0] := Or(Or(tableAddress, PAGE_DIR_READWRITE), PAGE_DIR_PRESENT);
    }

    function GetPhysaddr(va: u32): (pa: int)
      requires Valid()
      reads firstPageTable
    {
      IndexBounds(va);
      And(firstPageTable[And(Quot(va, Pow2(12)), 0x3FF)], PAGE_DIR_ADDR_MASK) + And(va, 0xFFF)
    }
  }

  /** The tables after init_page_directory. */
  ghost predicate IdentityMapped(directory: seq<u32>, table: seq<u32>, at: u32) {
    && |directory| == 1024 && |table| == 1024
    && directory[0] == at + 3
    && (forall j :: 1 <= j < 1024 ==> directory[j] == PAGE_DIR_READWRITE)
    && (forall j :: 0 <= j < 1024 ==> table[j] == 0x1000 * j + 3)
  }

  /** The processor maps exactly the addresses below 4 MiB, each to itself, writable and for the
      supervisor only. */
  lemma MapsFirstFourMegabytes(directory: seq<u32>, table: seq<u32>, at: u32, va: u32)
    requires at % 0x1000 == 0 && IdentityMapped(directory, table, at)
    ensures Walk(directory, table, at, va) == if va < MAPPED then Mapped(va, true, false) else PageFault
  {
    hide And, Pow2;
    IndexBounds(va);
    Masks(va);
    if va < MAPPED {
      EntryFields(at / 0x1000);
      EntryFields(va / 0x1000);
      BelowFourMegabytes(va);
    } else {
      Masks(PAGE_DIR_READWRITE);
    }
  }

  lemma BelowFourMegabytes(va: u32)
    requires va < MAPPED
    ensures va / 0x40_0000 == 0 && va / 0x1000 % 0x400 == va / 0x1000
  {
  }

  /** get_physaddr does not look at the directory: it answers for every address, and agrees with the
      processor exactly where the address is mapped. */
  lemma PhysaddrAgrees(t: PageTables, va: u32)
    requires t.Valid() && IdentityMapped(t.pageDirectory[..], t.firstPageTable[..], t.tableAddress)
    ensures t.GetPhysaddr(va) == va % MAPPED
    ensures t.Translate(va) == Mapped(t.GetPhysaddr(va), true, false) <==> va < MAPPED
    ensures t.Translate(va) != PageFault <==> va < MAPPED
  {
    hide And, Pow2, Walk;
    IndexBounds(va);
    Masks(va);
    EntryFields(va / 0x1000 % 0x400);
    PageAndOffset(va);
    MapsFirstFourMegabytes(t.pageDirectory[..], t.firstPageTable[..], t.tableAddress, va);
  }

  lemma PageAndOffset(va: u32)
    ensures 0x1000 * (va / 0x1000 % 0x400) + va % 0x1000 == va % MAPPED
  {
  }

  // ----- idpaging

  ghost function PageCount(size: int): nat {
    if size > 0 then (size + 4095) / 4096 else 0
  }

  /** The pages counted are those begun: all of size fits in them, and not in one fewer. */
  lemma PageCountFits(size: int)
    ensures size <= 0 ==> PageCount(size) == 0
    ensures size > 0 ==> 4096 * (PageCount(size) - 1) < size <= 4096 * PageCount(size)
  {
  }

  /** Page number k of an identity mapping that starts at `from`; addresses wrap at 4 GiB. */
  ghost function PageOf(from: u32, k: nat): u32 {
    (from - from % 0x1000 + 0x1000 * k) % U32_SIZE
  }

  /** Fills one entry per page begun by `size` bytes, from entry `first` on. */
  method IdPaging(table: array<u32>, first: nat, from: u32, size: i32)
    requires first + PageCount(size) <= table.Length
    modifies table
    ensures forall k :: 0 <= k < PageCount(size) ==>
      table[first + k] == PageOf(from, k) + 1
    ensures forall j :: 0 <= j < table.Length && !(first <= j < first + PageCount(size)) ==> table[j] == old(table[j])
  {
    Masks(from);
    hide And, Or;
    var page: u32 := And(from, PAGE_DIR_ADDR_MASK);
    FirstPage(from);
    hide PageOf, PageCount;
    var left: int := size;
    var pte := first;
    while left > 0
      invariant pte == first + (PageCount(size) - PageCount(left))
      invariant first <= pte && page == PageOf(from, pte - first)
      invariant forall j :: first <= j < pte ==> table[j] == PageOf(from, j - first) + 1
      invariant forall j :: 0 <= j < table.Length && !(first <= j < pte) ==> table[j] == old(table[j])
    {
      NextPage(from, pte - first);
      FewerPages(left);
      EntryValue(page);
      table[pte] := Or(page, PAGE_DIR_PRESENT);
      page := (page + 4096) % U32_SIZE;
      left := left - 4096;
      pte := pte + 1;
    }
  }

  lemma FirstPage(from: u32)
    ensures PageOf(from, 0) == from - from % 0x1000
  {
  }

  lemma NextPage(from: u32, k: nat)
    ensures (PageOf(from, k) + 4096) % U32_SIZE == PageOf(from, k + 1)
    ensures PageOf(from, k) % 0x1000 == 0
  {
    var pages := from / 0x1000 + k;
    var x := 0x1000 * pages;
    assert from - from % 0x1000 + 0x1000 * k == x;
    DivModEquation(x, U32_SIZE);
    ModPlusMultiple(x % U32_SIZE + 4096, U32_SIZE, x / U32_SIZE);
    ModOfMod(x, 0x1000, 0x10_0000);
    MultipleModZero(0x1000, pages);
  }

  lemma FewerPages(left: int)
    requires left > 0
    ensures PageCount(left) == PageCount(left - 4096) + 1
  {
  }

  /** A table that idpaging has filled for the 4 MiB around an address, and that the directory points
      to, maps the address to itself, for reading only. */
  lemma IdPagingMaps(directory: seq<u32>, table: seq<u32>, at: u32, va: u32)
    requires |directory| == 1024 && |table| == 1024 && at % 0x1000 == 0
    requires directory[va / 0x40_0000] == at + 3
    requires forall k :: 0 <= k < 1024 ==> table[k] == PageOf(va - va % MAPPED, k) + 1
    ensures Walk(directory, table, at, va) == Mapped(va, false, false)
  {
    hide And, Pow2, PageOf;
    IndexBounds(va);
    Masks(va);
    EntryFields(at / 0x1000);
    PageOfRegion(va);
    ReadOnlyFields(va / 0x1000);
  }

  lemma PageOfRegion(va: u32)
    ensures PageOf(va - va % MAPPED, va / 0x1000 % 0x400) == 0x1000 * (va / 0x1000)
  {
    PageAndOffset(va);
    var from := va - va % MAPPED;
    assert from == 0x1000 * (0x400 * (va / MAPPED));
    MultipleModZero(0x1000, 0x400 * (va / MAPPED));
    DivModUnique(va - va % 0x1000, U32_SIZE, 0, va - va % 0x1000);
  }

  lemma ReadOnlyFields(a: nat)
    requires 0x1000 * a < U32_SIZE
    ensures var e := 0x1000 * a + 1;
      e < U32_SIZE && And(e, PAGE_DIR_ADDR_MASK) == 0x1000 * a && And(e, 1) == 1 && And(e, 2) == 0 && And(e, 4) == 0
  {
    hide And;
    var e := 0x1000 * a + 1;
    Masks(e);
    DivModUnique(e, 0x1000, a, 1);
    DivModUnique(e, 4, 0x400 * a, 1);
    DivModUnique(e, 2, 0x800 * a, 1);
  }
}
