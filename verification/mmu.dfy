/** The MMU's two-level walk over physical memory (Intel SDM volume 3A, section 4.3,
    32-bit paging, CR4.PSE = 0), and what single stores into paging structures do to it.
    Memory is the whole 32-bit physical space as words; pages and frames are numbers. */
module Mmu {
  import opened Words
  import opened Wrappers
  import opened PagingFormat

  const MEM_WORDS := 0x4000_0000
  const NUM_PAGES := 0x10_0000
  const FIRST_KERNEL_PAGE := VIRTUAL_KERNEL_OFFSET / PAGE_SIZE
  const FIRST_KERNEL_PDE := 768
  // the boot code maps two tables twice, at 0 and at FIRST_KERNEL_PAGE
  const BOOT_SLOTS := 2
  const FIRST_FREE_PAGE := FIRST_KERNEL_PAGE + BOOT_SLOTS * ENTRIES

  predicate IsMem(m: seq<Word>) {
    |m| == MEM_WORDS
  }

  function PdeAt(m: seq<Word>, pd: nat, d: nat): Word
    requires IsMem(m) && pd < NUM_PAGES && d < ENTRIES
  {
    m[pd * ENTRIES + d]
  }

  predicate PdePresent(m: seq<Word>, pd: nat, d: nat)
    requires IsMem(m) && pd < NUM_PAGES && d < ENTRIES
  {
    PdeAt(m, pd, d) % 2 == 1
  }

  function TableOf(m: seq<Word>, pd: nat, d: nat): (t: nat)
    requires IsMem(m) && pd < NUM_PAGES && d < ENTRIES
    ensures t < NUM_PAGES
  {
    PdeAt(m, pd, d) / PAGE_SIZE
  }

  /** Every slot but `except` says the same in both memories. */
  ghost predicate SameSlots(m: seq<Word>, m': seq<Word>, pd: nat, except: int)
    requires IsMem(m) && IsMem(m') && pd < NUM_PAGES
  {
    forall d | 0 <= d < ENTRIES && d != except ::
      && PdePresent(m', pd, d) == PdePresent(m, pd, d)
      && TableOf(m', pd, d) == TableOf(m, pd, d)
  }

  /** The physical word that governs virtual page vp. */
  function GovIndex(m: seq<Word>, pd: nat, vp: nat): (i: nat)
    requires IsMem(m) && pd < NUM_PAGES && vp < NUM_PAGES
    ensures i < MEM_WORDS
  {
    TableOf(m, pd, vp / ENTRIES) * ENTRIES + vp % ENTRIES
  }

  /** The frame that virtual page vp is mapped to. */
  function Trans(m: seq<Word>, pd: nat, vp: nat): (f: Option<nat>)
    requires IsMem(m) && pd < NUM_PAGES && vp < NUM_PAGES
    ensures f.Some? ==> f.value < NUM_PAGES
  {
    if !PdePresent(m, pd, vp / ENTRIES) then None
    else
      var entry := m[GovIndex(m, pd, vp)];
      if entry % 2 == 0 then None else Some(entry / PAGE_SIZE)
  }

  /** The physical address of a virtual address, or None for a page fault. */
  function Walk(m: seq<Word>, pd: nat, va: Word): (pa: Option<Word>)
    requires IsMem(m) && pd < NUM_PAGES
  {
    match Trans(m, pd, va / PAGE_SIZE)
    case None => None
    case Some(f) => Some(f * PAGE_SIZE + va % PAGE_SIZE)
  }

  /** Slot 0x3c3 of the directory points back at the directory. */
  predicate Recursive(m: seq<Word>, pd: nat)
    requires IsMem(m) && pd < NUM_PAGES
  {
    PdePresent(m, pd, RECURSIVE_PDE_IDX) && TableOf(m, pd, RECURSIVE_PDE_IDX) == pd
  }

  /** The virtual address through which software reaches the PTE of `va`. */
  function PteAddress(va: Word): (p: Word)
    ensures p % 4 == 0
    ensures p == (RECURSIVE_PDE_IDX * ENTRIES + va / PAGE_SIZE / ENTRIES) * PAGE_SIZE
                 + 4 * (va / PAGE_SIZE % ENTRIES)
  {
    GetPageTabVirtualPointer(GetPdeIdx(va)) + 4 * GetPteIdx(va)
  }

  /** The computed PTE address, walked by the MMU, lands on the word that governs `va`
      when the page table exists and faults when it does not. */
  lemma RecursiveWalk(m: seq<Word>, pd: nat, va: Word)
    requires IsMem(m) && pd < NUM_PAGES && Recursive(m, pd)
    ensures Walk(m, pd, PteAddress(va))
            == if PdePresent(m, pd, va / PAGE_SIZE / ENTRIES)
               then Some(4 * GovIndex(m, pd, va / PAGE_SIZE)) else None
  {
    var d, p := va / PAGE_SIZE / ENTRIES, PteAddress(va);
    assert p / PAGE_SIZE == RECURSIVE_PDE_IDX * ENTRIES + d;
    assert p % PAGE_SIZE == 4 * (va / PAGE_SIZE % ENTRIES);
    assert GovIndex(m, pd, p / PAGE_SIZE) == pd * ENTRIES + d;
  }

  /** No paging structure of the directory lives in frame g. */
  ghost predicate NotATable(m: seq<Word>, pd: nat, g: nat)
    requires IsMem(m) && pd < NUM_PAGES
  {
    g != pd && forall d | 0 <= d < ENTRIES && PdePresent(m, pd, d) :: TableOf(m, pd, d) != g
  }

  /** What every run keeps of the kernel's directory. `used` are the allocated frames. */
  ghost predicate PagingOk(m: seq<Word>, pd: nat, used: set<nat>)
    requires IsMem(m) && pd < NUM_PAGES
  {
    && pd < 0x800 && pd in used && 0 in used
    && Recursive(m, pd)
    // the directory is reachable at &kernel_PGD
    && Trans(m, pd, FIRST_KERNEL_PAGE + pd) == Some(pd)
    // page tables are allocated, and none is the directory itself
    && (forall d | 0 <= d < ENTRIES && d != RECURSIVE_PDE_IDX && PdePresent(m, pd, d) ::
          TableOf(m, pd, d) in used && TableOf(m, pd, d) != pd)
    // slots share a table only as the boot identity and direct maps do
    && (forall d, e | 0 <= d < e < ENTRIES && PdePresent(m, pd, d) && PdePresent(m, pd, e) ::
          TableOf(m, pd, d) == TableOf(m, pd, e) ==> d < BOOT_SLOTS && e == d + FIRST_KERNEL_PDE)
    // below the kernel a page is mapped to itself, or to a frame that is in use as data
    && (forall vp | 0 <= vp < FIRST_KERNEL_PAGE :: LowPageOk(m, pd, used, vp))
  }

  ghost predicate LowPageOk(m: seq<Word>, pd: nat, used: set<nat>, vp: nat)
    requires IsMem(m) && pd < NUM_PAGES && vp < NUM_PAGES
  {
    match Trans(m, pd, vp)
    case None => true
    case Some(g) => g == vp || (g in used && NotATable(m, pd, g))
  }

  // ----- stores

  function Zeroed(m: seq<Word>, g: nat): (m': seq<Word>)
    requires IsMem(m) && g < NUM_PAGES
    ensures IsMem(m')
    ensures forall i | 0 <= i < MEM_WORDS ::
              m'[i] == if g * ENTRIES <= i < (g + 1) * ENTRIES then 0 else m[i]
  {
    seq(MEM_WORDS, i requires 0 <= i < MEM_WORDS =>
      if g * ENTRIES <= i < (g + 1) * ENTRIES then 0 else m[i])
  }

  /** Storing a PTE changes the pages governed by that word and no others. */
  lemma StorePte(m: seq<Word>, pd: nat, used: set<nat>, vp: nat, entry: Word)
    requires IsMem(m) && pd < NUM_PAGES && vp < NUM_PAGES && PagingOk(m, pd, used)
    requires vp / ENTRIES != RECURSIVE_PDE_IDX && PdePresent(m, pd, vp / ENTRIES)
    ensures var m' := m[GovIndex(m, pd, vp) := entry];
            && SameSlots(m, m', pd, -1)
            && (forall p | 0 <= p < NUM_PAGES && p / ENTRIES != RECURSIVE_PDE_IDX ::
                  && GovIndex(m', pd, p) == GovIndex(m, pd, p)
                  && Trans(m', pd, p)
                     == if PdePresent(m, pd, p / ENTRIES) && GovIndex(m, pd, p) == GovIndex(m, pd, vp)
                        then if entry % 2 == 0 then None else Some(entry / PAGE_SIZE)
                        else Trans(m, pd, p))
  {
    var i := GovIndex(m, pd, vp);
    var m' := m[i := entry];
    assert i / ENTRIES == TableOf(m, pd, vp / ENTRIES) != pd;
    forall d | 0 <= d < ENTRIES ensures PdeAt(m', pd, d) == PdeAt(m, pd, d) {
      assert (pd * ENTRIES + d) / ENTRIES == pd;
    }
  }

  /** Pages of two different slots are governed by different words, unless the slots are a
      boot pair; so are two pages of one slot. */
  lemma GovInjective(m: seq<Word>, pd: nat, used: set<nat>, p: nat, q: nat)
    requires IsMem(m) && pd < NUM_PAGES && p < NUM_PAGES && q < NUM_PAGES && PagingOk(m, pd, used)
    requires PdePresent(m, pd, p / ENTRIES) && PdePresent(m, pd, q / ENTRIES)
    requires p < q
    ensures GovIndex(m, pd, p) == GovIndex(m, pd, q) ==>
              q == p + FIRST_KERNEL_PAGE && p < BOOT_SLOTS * ENTRIES
  {
    assert GovIndex(m, pd, p) / ENTRIES == TableOf(m, pd, p / ENTRIES);
    assert GovIndex(m, pd, q) / ENTRIES == TableOf(m, pd, q / ENTRIES);
    assert GovIndex(m, pd, p) % ENTRIES == p % ENTRIES;
    assert GovIndex(m, pd, q) % ENTRIES == q % ENTRIES;
  }
}
