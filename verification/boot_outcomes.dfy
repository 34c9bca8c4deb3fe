/** On the boot tables: when the heap's first memory can be backed, and with which flags. */
module BootOutcomes {
  import opened Words
  import opened Wrappers
  import opened PagingFormat
  import opened Pmm
  import opened FrameSupply
  import opened Mmu
  import opened Mapping
  import opened Regions
  import opened Devices
  import opened Backing
  import opened Areas
  import opened VmmRuns
  import opened BootPaging
  import opened Protection

  const BOOT_PAGES := FIRST_FREE_PAGE - FIRST_KERNEL_PAGE

  /** The boot structures in place. */
  ghost predicate Booted(m: seq<Word>, pd: nat, t1: nat, t2: nat) {
    && IsMem(m) && pd < 0x800 && t1 < 0x800 && t2 < 0x800
    && BootDirectory(m, pd, t1, t2) && Filled(m, t1, 0) && Filled(m, t2, ENTRIES)
  }

  /** Only frames of the first 8 MiB can be cleared. */
  lemma BootReached(m: seq<Word>, pd: nat, t1: nat, t2: nat, vp: nat, k: nat, t: nat)
    requires Booted(m, pd, t1, t2) && vp + k <= NUM_PAGES && t < NUM_PAGES
    ensures Reached(m, pd, vp, k, t) <==> t < BOOT_PAGES
  {
    hide BootDirectory, Filled, Trans;
    if t < FIRST_KERNEL_PAGE {
      BootTrans(m, pd, t1, t2, t);
      BootSlot(m, pd, t1, t2, t / ENTRIES);
    }
  }

  /** Beyond the kernel's own 8 MiB every slot is short of a table. */
  lemma BootNeedsTable(m: seq<Word>, pd: nat, t1: nat, t2: nat, vp: nat, k: nat)
    requires Booted(m, pd, t1, t2) && KernelPage(pd, vp + k)
    ensures NeedsTable(m, pd, vp, k) <==> vp + k >= FIRST_FREE_PAGE && (k == 0 || (vp + k) % ENTRIES == 0)
  {
    hide BootDirectory, Filled;
    BootSlot(m, pd, t1, t2, (vp + k) / ENTRIES);
  }

  /** The frames S suffice, and those that become tables lie in the first 8 MiB. */
  ghost predicate BootEnough(m: seq<Word>, pd: nat, vp: nat, n: nat, S: set<nat>, own: bool)
    requires IsMem(m) && pd < NUM_PAGES && vp + n <= NUM_PAGES
  {
    && Lead(own, n) + TablesNeeded(m, pd, vp, n) <= |S|
    && forall k: nat | k < n && NeedsTable(m, pd, vp, k) :: LowTable(m, pd, vp, k, S, own)
  }

  ghost predicate LowTable(m: seq<Word>, pd: nat, vp: nat, k: nat, S: set<nat>, own: bool)
    requires IsMem(m) && pd < NUM_PAGES && vp + k < NUM_PAGES
  {
    var i := Lead(own, k + 1) + TablesNeeded(m, pd, vp, k);
    i < |S| && Nth(S, i) < BOOT_PAGES
  }

  lemma BootEnoughIff(m: seq<Word>, pd: nat, t1: nat, t2: nat, vp: nat, n: nat, S: set<nat>, own: bool)
    requires Booted(m, pd, t1, t2) && vp + n <= NUM_PAGES && forall f | f in S :: f < NUM_PAGES
    ensures Enough(m, pd, vp, n, S, own) <==> BootEnough(m, pd, vp, n, S, own)
  {
    hide Booted, NeedsTable, Reached, Nth;
    assert IsMem(m) && pd < NUM_PAGES by { BootedIsMem(m, pd, t1, t2); }
    forall k: nat | k < n && NeedsTable(m, pd, vp, k)
      ensures TableServed(m, pd, vp, k, S, own) <==> LowTable(m, pd, vp, k, S, own)
    {
      var i := Lead(own, k + 1) + TablesNeeded(m, pd, vp, k);
      if i < |S| {
        NthIs(S, i);
        BootReached(m, pd, t1, t2, vp, k, Nth(S, i));
      }
    }
  }

  lemma BootedIsMem(m: seq<Word>, pd: nat, t1: nat, t2: nat)
    requires Booted(m, pd, t1, t2)
    ensures IsMem(m) && pd < NUM_PAGES
  {
  }

  /** What backing n pages takes right after boot. */
  ghost predicate BootServed(sp: Space, pd: nat, total: nat, vp: nat, n: nat)
    requires IsMem(sp.m) && pd < NUM_PAGES && vp + n <= NUM_PAGES
  {
    match FirstFit(sp.used, total, n)
    case Some(f) => BootEnough(sp.m, pd, vp, n, Takeable(sp.used + Frames(f, n), total), false)
    case None => BootEnough(sp.m, pd, vp, n, Takeable(sp.used, total), true)
  }

  /** vmm_init_kheap's memory is backed, and so its runs can start, iff the frames suffice and
      those that become page tables lie in the first 8 MiB. */
  lemma HeapIsBackedIff(sp: Space, t1: nat, t2: nat, c: VmmRuns.Config)
    requires ConfigOk(c) && Backed(sp, c.pd, c.total, Zone(c.bottom / PAGE_SIZE, {}), {})
    requires Booted(sp.m, c.pd, t1, t2) && c.bottom + HEAP_SIZE <= c.top
    requires c.top <= RECURSIVE_AREA.start || RECURSIVE_AREA.End() <= c.top - HEAP_SIZE
    requires (c.top - HEAP_SIZE) / PAGE_SIZE + 20 <= NUM_PAGES
    ensures BackRegion(sp, c.pd, c.total, (c.top - HEAP_SIZE) / PAGE_SIZE, VM_AREA_WRITE, 20).Done?
            <==> BootServed(sp, c.pd, c.total, (c.top - HEAP_SIZE) / PAGE_SIZE, 20)
  {
    hide Backed, BackRegion, FirstFit, Booted, FreshPages, Enough, BootEnough, CanTake;
    var vp := (c.top - HEAP_SIZE) / PAGE_SIZE;
    HeapPagesFresh(c);
    BootedIsMem(sp.m, c.pd, t1, t2);
    BackRegionSucceedsIff(sp, c.pd, c.total, Zone(c.bottom / PAGE_SIZE, {}), {}, vp, VM_AREA_WRITE, 20);
    match FirstFit(sp.used, c.total, 20)
    case Some(f) => BootEnoughIff(sp.m, c.pd, t1, t2, vp, 20, Takeable(sp.used + Frames(f, 20), c.total), false);
    case None => BootEnoughIff(sp.m, c.pd, t1, t2, vp, 20, Takeable(sp.used, c.total), true);
  }

  // ----- flags

  lemma BootPdesOk(m: seq<Word>, pd: nat, t1: nat, t2: nat)
    requires Booted(m, pd, t1, t2)
    ensures PdesOk(m, pd)
  {
    PdeFlags(t1);
    PdeFlags(t2);
    PdeFlags(pd);
  }

  lemma PdeFlags(t: nat)
    ensures (t * PAGE_SIZE + KERNEL_PDE_DEFAULT_FLAGS) % PAGE_SIZE == KERNEL_PDE_DEFAULT_FLAGS
  {
    EuclidUnique(t * PAGE_SIZE + KERNEL_PDE_DEFAULT_FLAGS, PAGE_SIZE, t, KERNEL_PDE_DEFAULT_FLAGS);
  }

  /** After vmm_init_kheap the entries are as the areas record: the start for RunGrants. */
  lemma HeapEntriesOk(sp: Space, sp': Space, t1: nat, t2: nat, c: VmmRuns.Config)
    requires ConfigOk(c) && Backed(sp, c.pd, c.total, Zone(c.bottom / PAGE_SIZE, {}), {})
    requires Booted(sp.m, c.pd, t1, t2) && c.bottom + HEAP_SIZE <= c.top
    requires c.top <= RECURSIVE_AREA.start || RECURSIVE_AREA.End() <= c.top - HEAP_SIZE
    requires (c.top - HEAP_SIZE) / PAGE_SIZE + 20 <= NUM_PAGES
    requires BackRegion(sp, c.pd, c.total, (c.top - HEAP_SIZE) / PAGE_SIZE, VM_AREA_WRITE, 20) == Done(sp')
    ensures IsMem(sp'.m) && EntriesOk(Kernel(sp', StartAreas(c)), c)
  {
    hide Backed, BackRegion, Booted, FreshPages, Flagged, AllKept, PdesKept, PdesOk, Insert;
    var heap := Area(c.top - HEAP_SIZE, HEAP_SIZE, VM_AREA_WRITE);
    HeapPagesFresh(c);
    BootPdesOk(sp.m, c.pd, t1, t2);
    BootedIsMem(sp.m, c.pd, t1, t2);
    BackRegionEntries(sp, sp', c.pd, c.total, Zone(c.bottom / PAGE_SIZE, {}), {}, heap.start / PAGE_SIZE, VM_AREA_WRITE,
                      20);
    PdesStayOk(sp.m, sp'.m, c.pd);
    RecursiveAreaUnmanaged();
    InsertFlagged(sp'.m, c.pd, [], heap);
    InsertFlagged(sp'.m, c.pd, Insert([], heap), RECURSIVE_AREA);
  }
}
