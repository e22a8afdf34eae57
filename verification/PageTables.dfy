/** pte_ptr, pde_ptr and addr_v2p of src/kernel/memory.c: a page directory whose last entry
    names the directory itself makes every page table readable through fixed addresses. The
    translation is 32-bit paging with 4-KByte pages, section 4.3 of the Intel SDM, Volume 3A. */
module PageTables {
  import opened Machine

  const PAGE: nat := 0x1000
  const ENTRIES: nat := 1024

  predicate IsAddress(v: nat) {
    v < U32
  }

  function PdeIndex(v: nat): nat {
    v / 0x40_0000 % ENTRIES
  }

  function PteIndex(v: nat): nat {
    v / PAGE % ENTRIES
  }

  function PtePtr(v: nat): nat
    requires IsAddress(v)
  {
    0xffc0_0000 + v / 0x40_0000 * PAGE + PteIndex(v) * 4
  }

  function PdePtr(v: nat): nat
    requires IsAddress(v)
  {
    0xffff_f000 + PdeIndex(v) * 4
  }

  // ----- the processor's walk -----

  /** Frames that hold tables, as 1024 frame numbers each */
  type Frames = map<nat, seq<nat>>

  predicate IsTable(mem: Frames, f: nat) {
    f in mem && |mem[f]| == ENTRIES
  }

  /** The frame of the page table for `v` */
  function TableOf(mem: Frames, dir: nat, v: nat): nat
    requires IsTable(mem, dir)
  {
    mem[dir][PdeIndex(v)]
  }

  predicate CanWalk(mem: Frames, dir: nat, v: nat) {
    IsTable(mem, dir) && IsTable(mem, TableOf(mem, dir, v))
  }

  /** The physical address of `v` */
  function Walk(mem: Frames, dir: nat, v: nat): nat
    requires CanWalk(mem, dir, v)
  {
    mem[TableOf(mem, dir, v)][PteIndex(v)] * PAGE + v % PAGE
  }

  /** The last entry of the directory is the directory. */
  predicate SelfMapped(mem: Frames, dir: nat) {
    IsTable(mem, dir) && mem[dir][ENTRIES - 1] == dir
  }

  lemma PtePtrIndices(v: nat)
    requires IsAddress(v)
    ensures IsAddress(PtePtr(v)) && PdeIndex(PtePtr(v)) == ENTRIES - 1 && PteIndex(PtePtr(v)) == PdeIndex(v)
    ensures PtePtr(v) % PAGE == PteIndex(v) * 4
  {
    var d, t := PdeIndex(v), PteIndex(v);
    assert v / 0x40_0000 == d;
    assert PtePtr(v) == 0xffc0_0000 + d * PAGE + t * 4;
  }

  lemma PdePtrIndices(v: nat)
    requires IsAddress(v)
    ensures IsAddress(PdePtr(v)) && PdeIndex(PdePtr(v)) == ENTRIES - 1 && PteIndex(PdePtr(v)) == ENTRIES - 1
    ensures PdePtr(v) % PAGE == PdeIndex(v) * 4
  {
  }

  /** pte_ptr leads to the entry for `v` in its page table, and pde_ptr to the one in the
      directory. */
  lemma PointersLead(mem: Frames, dir: nat, v: nat)
    requires SelfMapped(mem, dir) && IsAddress(v)
    ensures CanWalk(mem, dir, PtePtr(v)) && Walk(mem, dir, PtePtr(v)) == TableOf(mem, dir, v) * PAGE + PteIndex(v) * 4
    ensures CanWalk(mem, dir, PdePtr(v)) && Walk(mem, dir, PdePtr(v)) == dir * PAGE + PdeIndex(v) * 4
  {
    PtePtrIndices(v);
    PdePtrIndices(v);
  }

  /** The directory entry is the page-table entry of the page-table entry. */
  lemma PdeIsPteTwice(v: nat)
    requires IsAddress(v)
    ensures IsAddress(PtePtr(v)) && PdePtr(v) == PtePtr(PtePtr(v))
  {
    PtePtrIndices(v);
  }

  /** Two addresses have one page-table entry exactly when they lie in one page. */
  lemma PtePtrInjective(v: nat, w: nat)
    requires IsAddress(v) && IsAddress(w)
    ensures PtePtr(v) == PtePtr(w) <==> v / PAGE == w / PAGE
  {
    PtePtrIndices(v);
    PtePtrIndices(w);
    PageNumber(v);
    PageNumber(w);
  }

  lemma PageNumber(v: nat)
    requires IsAddress(v)
    ensures v / PAGE == ENTRIES * PdeIndex(v) + PteIndex(v)
  {
    assert v / 0x40_0000 == v / PAGE / ENTRIES;
  }

  /** The word at a physical address of a table */
  function ReadEntry(mem: Frames, addr: nat): nat
    requires IsTable(mem, addr / PAGE) && addr % 4 == 0
  {
    mem[addr / PAGE][addr % PAGE / 4]
  }

  /** addr_v2p: the entry that pte_ptr leads to, and the offset */
  function AddrV2P(mem: Frames, dir: nat, v: nat): nat
    requires SelfMapped(mem, dir) && IsAddress(v) && CanWalk(mem, dir, v)
  {
    PtePtrIndices(v);
    PointersLead(mem, dir, v);
    EntryAt(mem, TableOf(mem, dir, v), PteIndex(v));
    ReadEntry(mem, Walk(mem, dir, PtePtr(v))) * PAGE + v % PAGE
  }

  lemma EntryAt(mem: Frames, f: nat, i: nat)
    requires IsTable(mem, f) && i < ENTRIES
    ensures var a := f * PAGE + i * 4; a / PAGE == f && a % 4 == 0 && ReadEntry(mem, a) == mem[f][i]
  {
  }

  /** addr_v2p computes what the processor's translation does. */
  lemma AddrV2PIsWalk(mem: Frames, dir: nat, v: nat)
    requires SelfMapped(mem, dir) && IsAddress(v) && CanWalk(mem, dir, v)
    ensures AddrV2P(mem, dir, v) == Walk(mem, dir, v)
  {
    PointersLead(mem, dir, v);
    EntryAt(mem, TableOf(mem, dir, v), PteIndex(v));
  }
}
