/**
  Page directory entries, the initial tables (page.c) and address translation as the processor does
  it with 4 KB and 4 MB pages (section 4.3 of the Intel SDM, volume 3A). Entries and addresses are
  the numbers the 32-bit words stand for.
*/
module Paging {
  import Arithmetic

  const NUM_ENTRIES := 1024
  const PRESENT := 0x01
  const RW_ENABLE := 0x02
  const USER_ENABLE := 0x04
  const FOURMB_FLAG := 0x80
  const FOURMB_BINARY := 0x400000
  const PAGE := 0x1000
  const VIDEO_MEM := 0xB8000
  const VIDEO_INDEX := 0xB8
  const EIGHT_MB := 0x800000
  const FOUR_MB := 0x400000
  const EIGHT_KB := 0x2000
  const PDE_INDEX := 32        // 0x8048000 / 4 MB
  const VIDMAP_INDEX := 33     // 132 MB / 4 MB
  const USER_BASE := 0x8000000   // 128 MB
  const USER_LIMIT := 0x8400000  // 132 MB

  /** e | bit, for a single bit. */
  function SetBit(e: nat, bit: nat): nat
    requires bit > 0
  {
    if e / bit % 2 == 1 then e else e + bit
  }

  predicate HasBit(e: nat, bit: nat)
    requires bit > 0
  {
    e / bit % 2 == 1
  }

  /** The physical address of process n's 4 MB page. */
  function ProgramFrame(n: nat): nat
    requires n >= 1
  {
    EIGHT_MB + (n - 1) * FOUR_MB
  }

  /** The directory entry that execute, halt and the timer handler write for process n. */
  function ProgramEntry(n: nat): nat
    requires n >= 1
  {
    SetBit(SetBit(SetBit(SetBit(ProgramFrame(n), FOURMB_FLAG), RW_ENABLE), PRESENT), USER_ENABLE)
  }

  /** tss.esp0 for process n: the last word of its kernel stack. */
  function KernelStack(n: nat): nat
    requires 1 <= n <= 6
  {
    EIGHT_MB - EIGHT_KB * (n - 1) - 4
  }

  /** The address of process n's control block. */
  function PcbAddress(n: nat): nat
    requires n <= 6
  {
    EIGHT_MB - EIGHT_KB * n
  }

  /** esp & 0xFFFFE000: clearing the low 13 bits. */
  function PcbMask(esp: nat): nat { esp - esp % EIGHT_KB }

  /** The process whose control block the kernel finds from its stack pointer. */
  function PcbOf(esp0: nat): nat
    requires esp0 <= EIGHT_MB
  {
    (EIGHT_MB - PcbMask(esp0)) / EIGHT_KB
  }

  /** tss.esp0 & PCB_MASK is the control block of the process whose kernel stack it is, and of no other. */
  lemma StackFindsPcb(n: nat, m: nat)
    requires 1 <= n <= 6 && 1 <= m <= 6
    ensures PcbOf(KernelStack(n)) == n
    ensures PcbMask(KernelStack(n)) == PcbAddress(m) <==> n == m
    ensures KernelStack(n) + 4 == PcbAddress(n) + EIGHT_KB && PcbAddress(n) + n * EIGHT_KB == EIGHT_MB
  {
  }

  datatype Translation = Fault | Physical(address: nat)

  /**
    What the processor makes of linear address `va`; `tables` gives the page table at a physical
    address.
  */
  function Translate(directory: seq<nat>, tables: nat -> seq<nat>, va: nat): Translation
    requires |directory| == NUM_ENTRIES && va < NUM_ENTRIES * FOUR_MB
  {
    var e := directory[va / FOUR_MB];
    if !HasBit(e, PRESENT) then Fault
    else if HasBit(e, FOURMB_FLAG) then Physical(e / FOUR_MB * FOUR_MB + va % FOUR_MB)
    else
      var table := tables(e / PAGE * PAGE);
      var i := va % FOUR_MB / PAGE;
      if |table| <= i || !HasBit(table[i], PRESENT) then Fault
      else Physical(table[i] / PAGE * PAGE + va % PAGE)
  }

  /** Entry i of the directory page_init leaves, `pageTable` being the address of the page table. */
  function InitialDirectoryEntry(pageTable: nat, i: nat): nat {
    if i == 0 then SetBit(SetBit(pageTable, RW_ENABLE), PRESENT)
    else if i == 1 then SetBit(SetBit(SetBit(FOURMB_BINARY, FOURMB_FLAG), RW_ENABLE), PRESENT)
    else RW_ENABLE
  }

  /** Entry i of the page table page_init leaves. */
  function InitialTableEntry(i: nat): nat {
    if i == VIDEO_INDEX then SetBit(SetBit(SetBit(i * PAGE, RW_ENABLE), RW_ENABLE), PRESENT)
    else SetBit(i * PAGE, RW_ENABLE)
  }

  method PageInit(directory: array<nat>, table: array<nat>, tableAddress: nat)
    requires directory.Length == NUM_ENTRIES && table.Length == NUM_ENTRIES && directory != table
    modifies directory, table
    ensures forall i :: 0 <= i < NUM_ENTRIES ==> directory[i] == InitialDirectoryEntry(tableAddress, i)
    ensures forall i :: 0 <= i < NUM_ENTRIES ==> table[i] == InitialTableEntry(i)
  {
    for i := 0 to NUM_ENTRIES
      invariant forall k :: 0 <= k < i ==> directory[k] == RW_ENABLE
      invariant forall k :: 0 <= k < i ==> table[k] == SetBit(k * PAGE, RW_ENABLE)
    {
      directory[i] := RW_ENABLE;
      table[i] := i * PAGE;
      table[i] := SetBit(table[i], RW_ENABLE);
    }
    table[VIDEO_INDEX] := SetBit(SetBit(table[VIDEO_INDEX], RW_ENABLE), PRESENT);
    directory[0] := SetBit(SetBit(tableAddress, RW_ENABLE), PRESENT);
    directory[1] := SetBit(SetBit(SetBit(FOURMB_BINARY, FOURMB_FLAG), RW_ENABLE), PRESENT);
  }

  /** The directory while process n runs: the initial one with the program entry filled in. */
  predicate Maps(directory: seq<nat>, pageTable: nat, n: nat) {
    && n >= 1
    && |directory| == NUM_ENTRIES
    && directory[PDE_INDEX] == ProgramEntry(n)
    && forall i :: 0 <= i < NUM_ENTRIES && i != PDE_INDEX && i != VIDMAP_INDEX
         ==> directory[i] == InitialDirectoryEntry(pageTable, i)
  }

  /** The memory in which the processor finds the table page_init built. */
  predicate HoldsTable(tables: nat -> seq<nat>, pageTable: nat) {
    && pageTable % PAGE == 0
    && |tables(pageTable)| == NUM_ENTRIES
    && forall i :: 0 <= i < NUM_ENTRIES ==> tables(pageTable)[i] == InitialTableEntry(i)
  }

  /** A bit above a multiple of twice its weight. */
  lemma ClearBit(k: nat, bit: nat, rest: nat)
    requires bit > 0 && rest < bit
    ensures !HasBit(2 * bit * k + rest, bit) && HasBit(2 * bit * k + bit + rest, bit)
  {
    Arithmetic.DivisionOf(bit, 2 * k, rest);
    Arithmetic.DivisionOf(bit, 2 * k + 1, rest);
    assert bit * (2 * k) + rest == 2 * bit * k + rest && bit * (2 * k + 1) + rest == 2 * bit * k + bit + rest;
  }

  lemma AlignedBits(a: nat)
    requires a % PAGE == 0
    ensures SetBit(a, RW_ENABLE) == a + 2 && SetBit(SetBit(a, RW_ENABLE), PRESENT) == a + 3
    ensures SetBit(SetBit(SetBit(a, RW_ENABLE), RW_ENABLE), PRESENT) == a + 3
    ensures HasBit(a + 3, PRESENT) && !HasBit(a + 2, PRESENT) && !HasBit(a + 3, FOURMB_FLAG)
    ensures (a + 3) / PAGE * PAGE == a
  {
    var k := a / PAGE;
    ClearBit(k * 1024, RW_ENABLE, 0);
    ClearBit(k * 2048 + 1, PRESENT, 0);
    ClearBit(k * 16, FOURMB_FLAG, 3);
    Arithmetic.DivisionOf(PAGE, k, 3);
  }

  lemma ProgramEntryBits(n: nat)
    requires n >= 1
    ensures ProgramEntry(n) == ProgramFrame(n) + 0x87 && ProgramFrame(n) == EIGHT_MB + (n - 1) * FOUR_MB
    ensures HasBit(ProgramEntry(n), PRESENT) && HasBit(ProgramEntry(n), FOURMB_FLAG)
    ensures ProgramEntry(n) / FOUR_MB * FOUR_MB == ProgramFrame(n)
  {
    var f := ProgramFrame(n);
    assert f == (n + 1) * FOUR_MB;
    ClearBit((n + 1) * 16384, FOURMB_FLAG, 0);
    ClearBit((n + 1) * 1048576 + 32, RW_ENABLE, 0);
    ClearBit((n + 1) * 2097152 + 65, PRESENT, 0);
    ClearBit((n + 1) * 524288 + 16, USER_ENABLE, 3);
    ClearBit((n + 1) * 16384, FOURMB_FLAG, 7);
    ClearBit((n + 1) * 2097152 + 67, PRESENT, 0);
    Arithmetic.DivisionOf(FOUR_MB, n + 1, 0x87);
  }

  /**
    While process n runs, the whole linear address space is this: 128 to 132 MB is process n's own
    frame, 4 to 8 MB is the kernel in place, the video page is in place, and everything else, the
    132 MB video window aside, faults.
  */
  lemma AddressSpace(directory: seq<nat>, tables: nat -> seq<nat>, pageTable: nat, n: nat, va: nat)
    requires Maps(directory, pageTable, n) && HoldsTable(tables, pageTable)
    requires va < NUM_ENTRIES * FOUR_MB && va / FOUR_MB != VIDMAP_INDEX
    ensures Translate(directory, tables, va)
         == if USER_BASE <= va < USER_LIMIT then Physical(ProgramFrame(n) + (va - USER_BASE))
            else if FOUR_MB <= va < EIGHT_MB then Physical(va)
            else if VIDEO_MEM <= va < VIDEO_MEM + PAGE then Physical(va)
            else Fault
  {
    var d := va / FOUR_MB;
    if d == PDE_INDEX {
      ProgramEntryBits(n);
    } else if d == 0 {
      AlignedBits(pageTable);
      var i := va / PAGE;
      AlignedBits(i * PAGE);
    } else if d == 1 {
      assert directory[1] == 0x400083;
    } else {
      assert directory[d] == RW_ENABLE;
    }
  }

  /** Two processes never share a byte of program memory, nor does either reach the kernel or the video page. */
  lemma ProgramsDisjoint(directory: seq<nat>, other: seq<nat>, tables: nat -> seq<nat>, pageTable: nat,
                         n: nat, m: nat, va: nat, vb: nat)
    requires Maps(directory, pageTable, n) && Maps(other, pageTable, m) && HoldsTable(tables, pageTable)
    requires USER_BASE <= va < USER_LIMIT && USER_BASE <= vb < USER_LIMIT
    ensures Translate(directory, tables, va).Physical? && Translate(directory, tables, va).address >= EIGHT_MB
    ensures Translate(directory, tables, va) == Translate(other, tables, vb) <==> n == m && va == vb
  {
    AddressSpace(directory, tables, pageTable, n, va);
    AddressSpace(other, tables, pageTable, m, vb);
    if n < m {
      assert ProgramFrame(n) + FOUR_MB <= ProgramFrame(m);
    } else if m < n {
      assert ProgramFrame(m) + FOUR_MB <= ProgramFrame(n);
    }
  }

  // ---- privilege ----

  /** Is the address mapped with this flag at every level the processor looks at? */
  predicate Granted(directory: seq<nat>, tables: nat -> seq<nat>, va: nat, flag: nat)
    requires |directory| == NUM_ENTRIES && va < NUM_ENTRIES * FOUR_MB && flag > 0
  {
    var e := directory[va / FOUR_MB];
    && HasBit(e, PRESENT) && HasBit(e, flag)
    && (HasBit(e, FOURMB_FLAG) ||
        var table, i := tables(e / PAGE * PAGE), va % FOUR_MB / PAGE;
        i < |table| && HasBit(table[i], PRESENT) && HasBit(table[i], flag))
  }

  lemma AlignedFlags(a: nat)
    requires a % PAGE == 0
    ensures HasBit(a + 2, RW_ENABLE) && HasBit(a + 3, RW_ENABLE)
    ensures !HasBit(a + 2, USER_ENABLE) && !HasBit(a + 3, USER_ENABLE)
  {
    var k := a / PAGE;
    ClearBit(k * 1024, RW_ENABLE, 0);
    ClearBit(k * 1024, RW_ENABLE, 1);
    ClearBit(k * 512, USER_ENABLE, 2);
    ClearBit(k * 512, USER_ENABLE, 3);
  }

  lemma ProgramEntryFlags(n: nat)
    requires n >= 1
    ensures HasBit(ProgramEntry(n), USER_ENABLE) && HasBit(ProgramEntry(n), RW_ENABLE)
  {
    ProgramEntryBits(n);
    assert ProgramEntry(n) == (n + 1) * FOUR_MB + 0x87;
    ClearBit((n + 1) * 524288 + 16, USER_ENABLE, 3);
    ClearBit((n + 1) * 1048576 + 33, RW_ENABLE, 1);
  }

  /** What page_init sets up is the kernel's alone, and all of it is writable. */
  lemma KernelEntries(pageTable: nat, i: nat)
    requires pageTable % PAGE == 0 && i < NUM_ENTRIES
    ensures var d, t := InitialDirectoryEntry(pageTable, i), InitialTableEntry(i);
      !HasBit(d, USER_ENABLE) && !HasBit(t, USER_ENABLE) && HasBit(d, RW_ENABLE) && HasBit(t, RW_ENABLE)
  {
    AlignedBits(pageTable);
    AlignedFlags(pageTable);
    AlignedBits(i * PAGE);
    AlignedFlags(i * PAGE);
    assert InitialDirectoryEntry(pageTable, 1) == 0x400083;
  }

  /**
    While process n runs, a program reaches its own 128 to 132 MB and nothing else, the video window aside,
    and whatever is mapped at all is writable.
  */
  lemma UserSpace(directory: seq<nat>, tables: nat -> seq<nat>, pageTable: nat, n: nat, va: nat)
    requires Maps(directory, pageTable, n) && HoldsTable(tables, pageTable)
    requires va < NUM_ENTRIES * FOUR_MB && va / FOUR_MB != VIDMAP_INDEX
    ensures Granted(directory, tables, va, USER_ENABLE) <==> USER_BASE <= va < USER_LIMIT
    ensures Translate(directory, tables, va).Physical? ==> Granted(directory, tables, va, RW_ENABLE)
  {
    var d := va / FOUR_MB;
    AddressSpace(directory, tables, pageTable, n, va);
    if d == PDE_INDEX {
      ProgramEntryBits(n);
      ProgramEntryFlags(n);
    } else {
      KernelEntries(pageTable, d);
      KernelEntries(pageTable, va % FOUR_MB / PAGE);
      if d == 0 { AlignedBits(pageTable); }
    }
  }
}
