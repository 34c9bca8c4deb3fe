/** The page tables that the boot code builds before paging is enabled, and the state in
    which the virtual memory manager starts. */
module BootPaging {
  import opened Words
  import opened Wrappers
  import opened PagingFormat
  import opened Mmu
  import opened Mapping
  import opened Regions
  import opened Pmm
  import opened Devices
  import opened Paging
  import opened PmmInit
  import opened Areas
  import opened VmmRuns
  import HeapRuns
  import HeapAreas

  const HEAP_SIZE := HeapRuns.HEAP_SIZE

  /** early_memset of one paging structure, as word stores. */
  method EarlyClear(mem: array<Word>, frame: nat)
    requires mem.Length == MEM_WORDS && frame < NUM_PAGES
    modifies mem
    ensures mem[..] == Zeroed(old(mem[..]), frame)
  {
    for i := 0 to ENTRIES
      invariant forall j | 0 <= j < MEM_WORDS ::
                  mem[j] == if frame * ENTRIES <= j < frame * ENTRIES + i then 0 else old(mem[j])
    {
      mem[frame * ENTRIES + i] := 0;
    }
  }

  /** Entry i of table t maps frame first+i. */
  ghost predicate Filled(m: seq<Word>, t: nat, first: nat)
    requires IsMem(m) && t < NUM_PAGES
  {
    forall j | t * ENTRIES <= j < (t + 1) * ENTRIES ::
      m[j] == (first + j - t * ENTRIES) * PAGE_SIZE + KERNEL_PTE_DEFAULT_FLAGS
  }

  /** One of the two loops that fill a page table with consecutive frames. */
  method FillTable(mem: array<Word>, t: nat, first: nat)
    requires mem.Length == MEM_WORDS && t < NUM_PAGES && first <= 0x800
    modifies mem
    ensures Filled(mem[..], t, first)
    ensures forall j | 0 <= j < MEM_WORDS && !(t * ENTRIES <= j < (t + 1) * ENTRIES) :: mem[j] == old(mem[j])
  {
    for page := 0 to ENTRIES
      invariant forall j | t * ENTRIES <= j < t * ENTRIES + page ::
                  mem[j] == (first + j - t * ENTRIES) * PAGE_SIZE + KERNEL_PTE_DEFAULT_FLAGS
      invariant forall j | 0 <= j < MEM_WORDS && !(t * ENTRIES <= j < (t + 1) * ENTRIES) :: mem[j] == old(mem[j])
    {
      mem[t * ENTRIES + page] := EntryWord((first + page) * PAGE_SIZE, KERNEL_PTE_DEFAULT_FLAGS);
    }
  }

  /** The directory after boot: two tables entered twice, the directory entered in itself,
      everything else empty. */
  ghost predicate BootDirectory(m: seq<Word>, pd: nat, t1: nat, t2: nat)
    requires IsMem(m) && pd < 0x800 && t1 < 0x800 && t2 < 0x800
  {
    forall d | 0 <= d < ENTRIES ::
      PdeAt(m, pd, d) ==
        if d == 0 || d == FIRST_KERNEL_PDE then t1 * PAGE_SIZE + KERNEL_PDE_DEFAULT_FLAGS
        else if d == 1 || d == FIRST_KERNEL_PDE + 1 then t2 * PAGE_SIZE + KERNEL_PDE_DEFAULT_FLAGS
        else if d == RECURSIVE_PDE_IDX then pd * PAGE_SIZE + KERNEL_PDE_DEFAULT_FLAGS
        else 0
  }

  /** before_paging_init_page_tables. */
  method BeforePagingInitPageTables(mem: array<Word>, pd: nat, t1: nat, t2: nat)
    requires mem.Length == MEM_WORDS && pd < 0x800 && t1 < 0x800 && t2 < 0x800
    requires pd != t1 && pd != t2 && t1 != t2
    modifies mem
    ensures BootDirectory(mem[..], pd, t1, t2) && Filled(mem[..], t1, 0) && Filled(mem[..], t2, ENTRIES)
  {
    EarlyClear(mem, pd);
    EarlyClear(mem, t1);
    EarlyClear(mem, t2);
    FillTable(mem, t1, 0);
    FillTable(mem, t2, ENTRIES);
    EnterBootSlots(mem, pd, t1, t2);
  }

  /** The five directory slots. */
  method EnterBootSlots(mem: array<Word>, pd: nat, t1: nat, t2: nat)
    requires mem.Length == MEM_WORDS && pd < 0x800 && t1 < 0x800 && t2 < 0x800
    requires forall j | pd * ENTRIES <= j < (pd + 1) * ENTRIES :: mem[j] == 0
    modifies mem
    ensures BootDirectory(mem[..], pd, t1, t2)
    ensures forall j | 0 <= j < MEM_WORDS && !(pd * ENTRIES <= j < (pd + 1) * ENTRIES) :: mem[j] == old(mem[j])
  {
    hide GetPdeIdx;
    var identity, identity2 := GetPdeIdx(0), GetPdeIdx(PAGE_SIZE * ENTRIES);
    var direct, direct2 := GetPdeIdx(VIRTUAL_KERNEL_OFFSET), GetPdeIdx(VIRTUAL_KERNEL_OFFSET + PAGE_SIZE * ENTRIES);
    assert identity == 0 && identity2 == 1 && direct == FIRST_KERNEL_PDE && direct2 == FIRST_KERNEL_PDE + 1;
    EnterSlot(mem, pd, identity, t1);
    EnterSlot(mem, pd, identity2, t2);
    EnterSlot(mem, pd, direct, t1);
    EnterSlot(mem, pd, direct2, t2);
    EnterSlot(mem, pd, RECURSIVE_PDE_IDX, pd);
  }

  /** init_pde before paging. */
  method EnterSlot(mem: array<Word>, pd: nat, d: nat, t: nat)
    requires mem.Length == MEM_WORDS && pd < 0x800 && t < 0x800 && d < ENTRIES
    modifies mem
    ensures mem[pd * ENTRIES + d] == t * PAGE_SIZE + KERNEL_PDE_DEFAULT_FLAGS
    ensures forall j | 0 <= j < MEM_WORDS && j != pd * ENTRIES + d :: mem[j] == old(mem[j])
  {
    hide EntryWord;
    var entry := EntryWord(t * PAGE_SIZE, KERNEL_PDE_DEFAULT_FLAGS);
    mem[pd * ENTRIES + d] := entry;
  }

  lemma EntryParts(q: nat, flags: nat)
    requires flags < PAGE_SIZE
    ensures (q * PAGE_SIZE + flags) / PAGE_SIZE == q
    ensures flags % 2 == 1 ==> (q * PAGE_SIZE + flags) % 2 == 1
  {
  }

  /** The table entered in slot d. */
  function BootTable(pd: nat, t1: nat, t2: nat, d: nat): Option<nat> {
    if d == 0 || d == FIRST_KERNEL_PDE then Some(t1)
    else if d == 1 || d == FIRST_KERNEL_PDE + 1 then Some(t2)
    else if d == RECURSIVE_PDE_IDX then Some(pd)
    else None
  }

  lemma BootSlot(m: seq<Word>, pd: nat, t1: nat, t2: nat, d: nat)
    requires IsMem(m) && pd < 0x800 && t1 < 0x800 && t2 < 0x800 && d < ENTRIES
    requires BootDirectory(m, pd, t1, t2)
    ensures PdePresent(m, pd, d) <==> BootTable(pd, t1, t2, d).Some?
    ensures PdePresent(m, pd, d) ==> BootTable(pd, t1, t2, d) == Some(TableOf(m, pd, d))
  {
    EntryParts(t1, KERNEL_PDE_DEFAULT_FLAGS);
    EntryParts(t2, KERNEL_PDE_DEFAULT_FLAGS);
    EntryParts(pd, KERNEL_PDE_DEFAULT_FLAGS);
  }

  /** The frame boot maps at a page outside the recursive window. */
  function BootFrame(vp: nat): Option<nat> {
    if vp < FIRST_FREE_PAGE - FIRST_KERNEL_PAGE then Some(vp)
    else if FIRST_KERNEL_PAGE <= vp < FIRST_FREE_PAGE then Some(vp - FIRST_KERNEL_PAGE)
    else None
  }

  lemma BootTrans(m: seq<Word>, pd: nat, t1: nat, t2: nat, vp: nat)
    requires IsMem(m) && pd < 0x800 && t1 < 0x800 && t2 < 0x800 && vp < NUM_PAGES
    requires BootDirectory(m, pd, t1, t2) && Filled(m, t1, 0) && Filled(m, t2, ENTRIES)
    requires vp / ENTRIES != RECURSIVE_PDE_IDX
    ensures Trans(m, pd, vp) == BootFrame(vp)
  {
    hide BootDirectory;
    var d, i := vp / ENTRIES, vp % ENTRIES;
    BootSlot(m, pd, t1, t2, d);
    EntryParts(i, KERNEL_PTE_DEFAULT_FLAGS);
    EntryParts(ENTRIES + i, KERNEL_PTE_DEFAULT_FLAGS);
    if d == 0 || d == FIRST_KERNEL_PDE {
      assert m[t1 * ENTRIES + i] == i * PAGE_SIZE + KERNEL_PTE_DEFAULT_FLAGS;
    } else if d == 1 || d == FIRST_KERNEL_PDE + 1 {
      assert m[t2 * ENTRIES + i] == (ENTRIES + i) * PAGE_SIZE + KERNEL_PTE_DEFAULT_FLAGS;
    }
  }

  /** Inside the recursive window slot d shows its own table. */
  lemma BootWindow(m: seq<Word>, pd: nat, t1: nat, t2: nat, d: nat)
    requires IsMem(m) && pd < 0x800 && t1 < 0x800 && t2 < 0x800 && d < ENTRIES
    requires BootDirectory(m, pd, t1, t2)
    ensures Recursive(m, pd)
    ensures Trans(m, pd, RECURSIVE_PDE_IDX * ENTRIES + d) == BootTable(pd, t1, t2, d)
  {
    hide BootDirectory;
    BootSlot(m, pd, t1, t2, RECURSIVE_PDE_IDX);
    BootSlot(m, pd, t1, t2, d);
    var vp := RECURSIVE_PDE_IDX * ENTRIES + d;
    assert vp / ENTRIES == RECURSIVE_PDE_IDX && vp % ENTRIES == d;
    assert GovIndex(m, pd, vp) == pd * ENTRIES + d;
  }

  /** Outside the recursive window the first 8 MiB are mapped to themselves and again at
      the kernel's offset, and nothing else is mapped; the window shows the paging
      structures. */
  lemma BootWalk(m: seq<Word>, pd: nat, t1: nat, t2: nat, va: Word)
    requires IsMem(m) && pd < 0x800 && t1 < 0x800 && t2 < 0x800
    requires BootDirectory(m, pd, t1, t2) && Filled(m, t1, 0) && Filled(m, t2, ENTRIES)
    ensures va / PAGE_SIZE / ENTRIES != RECURSIVE_PDE_IDX ==>
              Walk(m, pd, va)
              == if va < 0x80_0000 then Some(va)
                 else if VIRTUAL_KERNEL_OFFSET <= va < VIRTUAL_KERNEL_OFFSET + 0x80_0000
                 then Some(va - VIRTUAL_KERNEL_OFFSET)
                 else None
    ensures va / PAGE_SIZE / ENTRIES == RECURSIVE_PDE_IDX ==>
              Walk(m, pd, va)
              == match BootTable(pd, t1, t2, va / PAGE_SIZE % ENTRIES)
                 case None => None
                 case Some(t) => Some(t * PAGE_SIZE + va % PAGE_SIZE)
  {
    hide Trans, BootDirectory, Filled;
    var vp := va / PAGE_SIZE;
    if vp / ENTRIES == RECURSIVE_PDE_IDX {
      BootWindow(m, pd, t1, t2, vp % ENTRIES);
      assert RECURSIVE_PDE_IDX * ENTRIES + vp % ENTRIES == vp;
    } else {
      BootTrans(m, pd, t1, t2, vp);
    }
  }

  lemma BootPagingOk(m: seq<Word>, pd: nat, t1: nat, t2: nat, used: set<nat>)
    requires IsMem(m) && pd < 0x800 && t1 < 0x800 && t2 < 0x800
    requires pd != t1 && pd != t2 && t1 != t2 && {0, pd, t1, t2} <= used
    requires BootDirectory(m, pd, t1, t2) && Filled(m, t1, 0) && Filled(m, t2, ENTRIES)
    ensures PagingOk(m, pd, used)
  {
    hide Trans, BootDirectory, Filled, PdePresent, TableOf;
    BootWindow(m, pd, t1, t2, 0);
    assert (FIRST_KERNEL_PAGE + pd) / ENTRIES != RECURSIVE_PDE_IDX;
    BootTrans(m, pd, t1, t2, FIRST_KERNEL_PAGE + pd);
    forall d | 0 <= d < ENTRIES
      ensures PdePresent(m, pd, d) <==> BootTable(pd, t1, t2, d).Some?
      ensures PdePresent(m, pd, d) ==> BootTable(pd, t1, t2, d) == Some(TableOf(m, pd, d))
    {
      BootSlot(m, pd, t1, t2, d);
    }
    forall p | 0 <= p < FIRST_KERNEL_PAGE ensures LowPageOk(m, pd, used, p) {
      BootTrans(m, pd, t1, t2, p);
    }
  }

  /** With the boot structures' frames marked used, the boot directory is a sound start for
      the paging code, with no page owned yet. */
  lemma BootIsBacked(m: seq<Word>, pd: nat, t1: nat, t2: nat, used: set<nat>, total: nat, lo: nat)
    requires IsMem(m) && pd < 0x800 && t1 < 0x800 && t2 < 0x800 && total <= NUM_PAGES
    requires pd != t1 && pd != t2 && t1 != t2 && {0, pd, t1, t2} <= used
    requires BootDirectory(m, pd, t1, t2) && Filled(m, t1, 0) && Filled(m, t2, ENTRIES)
    ensures Backed(Space(m, used), pd, total, Zone(lo, {}), {})
  {
    hide Trans, BootDirectory, Filled, PagingOk, KernelPage;
    BootPagingOk(m, pd, t1, t2, used);
    BootStrays(m, pd, t1, t2, Zone(lo, {}));
  }

  // ----- init_pmm

  /** Mapping page p of the first 8 MiB at the kernel's offset again stores the entry that is there
      already. */
  lemma BootMapStays(m: seq<Word>, pd: nat, t1: nat, t2: nat, p: nat)
    requires IsMem(m) && pd < 0x800 && t1 < 0x800 && t2 < 0x800 && p < FIRST_FREE_PAGE - FIRST_KERNEL_PAGE
    requires BootDirectory(m, pd, t1, t2) && Filled(m, t1, 0) && Filled(m, t2, ENTRIES)
    ensures PdePresent(m, pd, (FIRST_KERNEL_PAGE + p) / ENTRIES)
    ensures PutPte(m, pd, FIRST_KERNEL_PAGE + p, p * PAGE_SIZE, VM_AREA_WRITE) == m
  {
    hide BootDirectory, EntryWord, HasFlag, Filled;
    WriteFlags();
    var vp := FIRST_KERNEL_PAGE + p;
    BootSlot(m, pd, t1, t2, vp / ENTRIES);
    var i := GovIndex(m, pd, vp);
    if p < ENTRIES { FilledEntry(m, t1, 0, p); } else { FilledEntry(m, t2, ENTRIES, p - ENTRIES); }
    assert m[i := m[i]] == m;
  }

  lemma FilledEntry(m: seq<Word>, t: nat, first: nat, i: nat)
    requires IsMem(m) && t < NUM_PAGES && i < ENTRIES && Filled(m, t, first)
    ensures m[t * ENTRIES + i] == (first + i) * PAGE_SIZE + KERNEL_PTE_DEFAULT_FLAGS
  {
  }

  lemma WriteFlags()
    ensures ConvertFlagsToArchFlags(VM_AREA_WRITE) == KERNEL_PTE_DEFAULT_FLAGS
  {
  }

  /** The kernel's frames were never in a usable region, or lie below 1 MiB. */
  ghost predicate KernelFrame(regions: seq<Region>, numBits: nat, f: nat)
    requires numBits <= NUM_PAGES
  {
    f < numBits && (f < FIRST_FREEABLE_PFN || !Usable(regions, f * PAGE_SIZE))
  }

  lemma KernelFrameIsUsed(regions: seq<Region>, stale: seq<Word>, numBits: nat, first: nat, n: nat, f: nat)
    requires numBits <= NUM_PAGES && numBits <= 32 * |stale| && numBits % 8 == 0
    requires KernelFrame(regions, numBits, f)
    ensures UsedAfterInit(regions, stale, numBits, first, n, f)
  {
  }

  /** What the memory map has to grant for init_pmm: whole bytes of frames, and no usable region
      that holds the paging structures. */
  ghost predicate BootMapOk(regions: seq<Region>, numBits: nat, pd: nat, t1: nat, t2: nat) {
    && numBits <= NUM_PAGES && numBits % 8 == 0
    && KernelFrame(regions, numBits, pd) && KernelFrame(regions, numBits, t1) && KernelFrame(regions, numBits, t2)
  }

  /** The boot memory with the frames that init_pmm leaves used is a start for the area manager. */
  lemma InitPmmIsBacked(m: seq<Word>, pd: nat, t1: nat, t2: nat, used: set<nat>, regions: seq<Region>, stale: seq<Word>,
                        numBits: nat, first: nat, n: nat, lo: nat)
    requires IsMem(m) && pd < 0x800 && t1 < 0x800 && t2 < 0x800 && pd != t1 && pd != t2 && t1 != t2
    requires BootDirectory(m, pd, t1, t2) && Filled(m, t1, 0) && Filled(m, t2, ENTRIES)
    requires BootMapOk(regions, numBits, pd, t1, t2) && numBits <= 32 * |stale|
    requires forall f: nat | f < numBits :: f in used <==> UsedAfterInit(regions, stale, numBits, first, n, f)
    ensures Backed(Space(m, used), pd, numBits, Zone(lo, {}), {})
  {
    hide Backed, UsedAfterInit, Usable, BootDirectory, Filled;
    KernelFrameIsUsed(regions, stale, numBits, first, n, 0);
    KernelFrameIsUsed(regions, stale, numBits, first, n, pd);
    KernelFrameIsUsed(regions, stale, numBits, first, n, t1);
    KernelFrameIsUsed(regions, stale, numBits, first, n, t2);
    BootIsBacked(m, pd, t1, t2, used, numBits, lo);
  }

  /** init_pmm with its mappings of the bitmap's pages: on the boot tables they change nothing if
      the bitmap ends within the 8 MiB, and what remains is a start for the area manager. */
  method InitPmm(k: Machine, memorySize: Word, bitmapStart: Word, regions: seq<Region>,
                 ghost t1: nat, ghost t2: nat, ghost lo: nat)
    requires k.Shape() && t1 < 0x800 && t2 < 0x800 && k.pgd != t1 && k.pgd != t2 && t1 != t2
    requires BootDirectory(k.mem[..], k.pgd, t1, t2) && Filled(k.mem[..], t1, 0) && Filled(k.mem[..], t2, ENTRIES)
    requires bitmapStart % PAGE_SIZE == 0 && VIRTUAL_KERNEL_OFFSET <= bitmapStart
    requires bitmapStart + memorySize / PAGE_SIZE / 8 <= VIRTUAL_KERNEL_OFFSET + 0x80_0000
    requires memorySize / PAGE_SIZE < 32 * k.pmm.words.Length
    requires exists i :: 0 <= i < |regions| && regions[i].length == 0
    modifies k.mem, k.pmm, k.pmm.words
    ensures k.Shape() && k.mem[..] == old(k.mem[..]) && k.pmm.numBits == memorySize / PAGE_SIZE
    ensures var first, n := (bitmapStart - VIRTUAL_KERNEL_OFFSET) / PAGE_SIZE, NumPagesNeeded(k.pmm.numBits / 8);
            forall f: nat | f < k.pmm.numBits ::
              f in k.pmm.Used() <==> UsedAfterInit(regions, old(k.pmm.words[..]), k.pmm.numBits, first, n, f)
    ensures BootMapOk(regions, k.pmm.numBits, k.pgd, t1, t2) ==>
              Backed(k.Now(), k.pgd, k.pmm.numBits, Zone(lo, {}), {})
  {
    hide BootDirectory, Filled, Backed, UsedAfterInit, MapPage, AccessOk, BootMapOk, NumPagesNeeded;
    ghost var m, stale := k.mem[..], k.pmm.words[..];
    var first, n := (bitmapStart - VIRTUAL_KERNEL_OFFSET) / PAGE_SIZE, NumPagesNeeded(memorySize / PAGE_SIZE / 8);
    for page := 0 to n
      invariant k.Shape() && k.mem[..] == m && k.pmm.words[..] == stale
    {
      BootAccess(k.Now(), k.pgd, k.pmm.numBits, t1, t2, first + page);
      var va := bitmapStart + page * PAGE_SIZE;
      assert va / PAGE_SIZE == FIRST_KERNEL_PAGE + (first + page);
      var r := k.MapPageframe(va - VIRTUAL_KERNEL_OFFSET, va, VM_AREA_WRITE);
    }
    PmmInit.InitPmm(k.pmm, memorySize, bitmapStart - VIRTUAL_KERNEL_OFFSET, regions);
    if BootMapOk(regions, k.pmm.numBits, k.pgd, t1, t2) {
      InitPmmIsBacked(m, k.pgd, t1, t2, k.pmm.Used(), regions, stale, k.pmm.numBits, first, n, lo);
    }
  }

  lemma BootAccess(sp: Space, pd: nat, total: nat, t1: nat, t2: nat, p: nat)
    requires IsMem(sp.m) && pd < 0x800 && t1 < 0x800 && t2 < 0x800 && total <= NUM_PAGES
    requires p < FIRST_FREE_PAGE - FIRST_KERNEL_PAGE
    requires BootDirectory(sp.m, pd, t1, t2) && Filled(sp.m, t1, 0) && Filled(sp.m, t2, ENTRIES)
    ensures PdePresent(sp.m, pd, (FIRST_KERNEL_PAGE + p) / ENTRIES)
    ensures AccessOk(sp, pd, total, (FIRST_KERNEL_PAGE + p) / ENTRIES)
    ensures MapPage(sp, pd, total, FIRST_KERNEL_PAGE + p, p * PAGE_SIZE, VM_AREA_WRITE) == Done(sp)
  {
    hide BootDirectory, Filled, PutPte, Trans;
    BootWindow(sp.m, pd, t1, t2, 0);
    BootTrans(sp.m, pd, t1, t2, FIRST_KERNEL_PAGE + pd);
    BootMapStays(sp.m, pd, t1, t2, p);
  }

  lemma BootStrays(m: seq<Word>, pd: nat, t1: nat, t2: nat, z: Zone)
    requires IsMem(m) && pd < 0x800 && t1 < 0x800 && t2 < 0x800
    requires BootDirectory(m, pd, t1, t2) && Filled(m, t1, 0) && Filled(m, t2, ENTRIES)
    ensures LowAliases(m, pd, {}) && NoStray(m, pd, z, {})
  {
    hide Trans, BootDirectory, Filled;
    forall p | 0 <= p < NUM_PAGES && p / ENTRIES != RECURSIVE_PDE_IDX ensures Trans(m, pd, p) == BootFrame(p) {
      BootTrans(m, pd, t1, t2, p);
    }
  }

  /** The list that vmm_init_kheap leaves. */
  function StartAreas(c: VmmRuns.Config): seq<Area>
    requires HEAP_SIZE <= c.top
  {
    Insert(Insert([], Area(c.top - HEAP_SIZE, HEAP_SIZE, VM_AREA_WRITE)), RECURSIVE_AREA)
  }

  /** vmm_init_kheap: the heap's area is backed at the top of the window, then it and the
      recursive window are listed. This state starts the runs of VmmRuns. */
  lemma KheapStart(sp: Space, sp': Space, c: VmmRuns.Config)
    requires ConfigOk(c) && Backed(sp, c.pd, c.total, Zone(c.bottom / PAGE_SIZE, {}), {})
    requires c.bottom + HEAP_SIZE <= c.top
    requires c.top <= RECURSIVE_AREA.start || RECURSIVE_AREA.End() <= c.top - HEAP_SIZE
    requires (c.top - HEAP_SIZE) / PAGE_SIZE + 20 <= NUM_PAGES
    requires BackRegion(sp, c.pd, c.total, (c.top - HEAP_SIZE) / PAGE_SIZE, VM_AREA_WRITE, 20) == Done(sp')
    ensures Inv(Kernel(sp', StartAreas(c)), c)
  {
    hide Backed, BackRegion, PagesOf, AreasOk, FreshPages;
    HeapPagesFresh(c);
    BackRegionOk(sp, sp', c.pd, c.total, Zone(c.bottom / PAGE_SIZE, {}), {}, (c.top - HEAP_SIZE) / PAGE_SIZE,
                 VM_AREA_WRITE, 20);
    StartPages(c);
    StartAreasOkIff(c);
    EmptyPlus(Pages((c.top - HEAP_SIZE) / PAGE_SIZE, 20));
  }

  /** With init_kheap's one range it starts the runs of HeapAreas. */
  lemma HeapStart(sp: Space, c: VmmRuns.Config)
    requires c.bottom + HEAP_SIZE <= c.top && Inv(Kernel(sp, StartAreas(c)), c)
    ensures var start := c.top - HEAP_SIZE;
            HeapAreas.JointInv(
              HeapAreas.Joint(Kernel(sp, StartAreas(c)), [HeapRuns.NewRange(start, start + HEAP_SIZE)]), c)
  {
    hide Inv, HeapRuns.ExtentOk, HasFlag, Insert;
    var start := c.top - HEAP_SIZE;
    var heap, e := Area(start, HEAP_SIZE, VM_AREA_WRITE), HeapRuns.NewRange(start, start + HEAP_SIZE);
    HeapRuns.NewRangeOk(start, start + HEAP_SIZE);
    HeapIsManaged(heap);
    HeapAreas.InsertKeepsArea([], heap, e);
    HeapAreas.InsertKeepsArea(Insert([], heap), RECURSIVE_AREA, e);
  }

  /** With the recursive window above the top, as it is for less than 3.7 GiB of memory, the first
      request leaves the window at the top: the gap between that window and the heap is taken. */
  lemma StartLeavesWindow(c: VmmRuns.Config, size: Word)
    requires HEAP_SIZE <= c.top <= RECURSIVE_AREA.start
    requires c.bottom <= c.top && 0 < size <= c.top && size <= RECURSIVE_AREA.start - c.top
    ensures FirstAlloc(StartAreas(c), c.bottom, c.top, size) == RECURSIVE_AREA.start - size >= c.top
    ensures !EndsInWindow(StartAreas(c), c.bottom, c.top, size)
    ensures EndsAboveBottom(StartAreas(c), c.bottom, c.top, size)
  {
    hide FirstAlloc, Insert;
    StartAreasAre(c);
    FirstAllocIs(StartAreas(c), c.bottom, c.top, size);
  }

  lemma EmptyPlus(S: set<nat>)
    ensures {} + S == S
  {
  }

  /** The heap's pages are the only owned ones, and there is no device. */
  lemma StartPages(c: VmmRuns.Config)
    requires ConfigOk(c) && HEAP_SIZE <= c.top
    ensures OwnedPages(StartAreas(c)) == Pages((c.top - HEAP_SIZE) / PAGE_SIZE, 20)
    ensures PagesOf(StartAreas(c), Device) == {}
  {
    hide PagesOf, PagesIf, Insert;
    var heap := Area(c.top - HEAP_SIZE, HEAP_SIZE, VM_AREA_WRITE);
    InsertAddsPages([], heap, Memory);
    InsertAddsPages([], heap, Device);
    InsertAddsPages(Insert([], heap), RECURSIVE_AREA, Memory);
    InsertAddsPages(Insert([], heap), RECURSIVE_AREA, Device);
    NoPages();
    HeapIsManaged(heap);
    RecursiveAreaUnmanaged();
    NoPagesIf(heap, Device);
    NoPagesIf(RECURSIVE_AREA, Memory);
    NoPagesIf(RECURSIVE_AREA, Device);
  }

  lemma NoPagesIf(a: Area, kind: Kind)
    requires !IsKind(a.flags, kind)
    ensures PagesIf(a, kind) == {}
  {
  }

  /** The list is sound iff the heap does not lie over the recursive window, which the code does
      not check. */
  lemma StartAreasOkIff(c: VmmRuns.Config)
    requires ConfigOk(c) && c.bottom + HEAP_SIZE <= c.top
    ensures AreasOk(StartAreas(c), c)
            <==> c.top <= RECURSIVE_AREA.start || RECURSIVE_AREA.End() <= c.top - HEAP_SIZE
  {
    hide HasFlag, Descending, Insert;
    var heap := Area(c.top - HEAP_SIZE, HEAP_SIZE, VM_AREA_WRITE);
    StartAreasAre(c);
    TwoDescend(RECURSIVE_AREA, heap);
    TwoDescend(heap, RECURSIVE_AREA);
    RecursiveAreaUnmanaged();
    assert [RECURSIVE_AREA, heap][0] == [heap, RECURSIVE_AREA][1] == RECURSIVE_AREA;
  }

  lemma StartAreasAre(c: VmmRuns.Config)
    requires HEAP_SIZE <= c.top
    ensures var heap := Area(c.top - HEAP_SIZE, HEAP_SIZE, VM_AREA_WRITE);
            StartAreas(c)
            == if RECURSIVE_AREA.start > heap.start then [RECURSIVE_AREA, heap] else [heap, RECURSIVE_AREA]
  {
    var heap := Area(c.top - HEAP_SIZE, HEAP_SIZE, VM_AREA_WRITE);
    assert Insert([], heap) == [heap];
    assert [heap][1..] == [] && Insert([], RECURSIVE_AREA) == [RECURSIVE_AREA];
    assert Insert([heap], RECURSIVE_AREA)
           == if RECURSIVE_AREA.start > heap.start then [RECURSIVE_AREA, heap] else [heap, RECURSIVE_AREA];
  }

  lemma TwoDescend(a: Area, b: Area)
    requires 0 < a.length && a.End() < 0x1_0000_0000 && 0 < b.length && b.End() < 0x1_0000_0000
    ensures Descending([a, b]) <==> b.End() <= a.start
  {
    assert [a, b][0] == a && [a, b][1] == b;
  }

  /** What happens if it does: backing a page of the recursive window stores its entry in the
      directory, so the page's frame becomes the page table of another slot. */
  lemma WindowPageIsSlot(m: seq<Word>, pd: nat, vp: nat, phys: Word, flags: Word)
    requires IsMem(m) && pd < NUM_PAGES && vp < NUM_PAGES && Recursive(m, pd) && vp / ENTRIES == RECURSIVE_PDE_IDX
    ensures var d, m' := vp % ENTRIES, PutPte(m, pd, vp, phys, flags);
            && PdePresent(m', pd, d) && TableOf(m', pd, d) == phys / PAGE_SIZE
            && (forall e | 0 <= e < ENTRIES && e != d :: PdeAt(m', pd, e) == PdeAt(m, pd, e))
            && forall p | 0 <= p < NUM_PAGES && p / ENTRIES == d ::
                 GovIndex(m', pd, p) == phys / PAGE_SIZE * ENTRIES + p % ENTRIES
  {
    hide EntryWord, ConvertFlagsToArchFlags;
    assert GovIndex(m, pd, vp) == pd * ENTRIES + vp % ENTRIES;
  }

  lemma HeapPagesFresh(c: VmmRuns.Config)
    requires ConfigOk(c) && c.bottom + HEAP_SIZE <= c.top
    requires c.top <= RECURSIVE_AREA.start || RECURSIVE_AREA.End() <= c.top - HEAP_SIZE
    ensures FreshPages(c.pd, Zone(c.bottom / PAGE_SIZE, {}), {}, (c.top - HEAP_SIZE) / PAGE_SIZE, 20)
  {
  }

  lemma HeapIsManaged(heap: Area)
    requires heap.flags == VM_AREA_WRITE && heap.length == HEAP_SIZE
    ensures Managed(heap.flags) && !HasFlag(heap.flags, VM_AREA_MMIO)
    ensures PagesIf(heap, Memory) == Pages(heap.start / PAGE_SIZE, 20)
  {
  }

  lemma NoPages()
    ensures forall kind :: PagesOf([], kind) == {}
  {
  }

  // ----- the first device

  /** The frames [vp, vp+n) lie below the kernel and beyond the boot tables, and none was free
      when the memory manager started. */
  ghost predicate Reserved(sp: Space, total: nat, vp: nat, n: nat) {
    FIRST_FREE_PAGE - FIRST_KERNEL_PAGE <= vp && vp + n <= FIRST_KERNEL_PAGE
    && forall f | f in Pages(vp, n) :: f in sp.used || f >= total
  }

  /** init_memory goes on to map the ACPI tables, which lie in memory that was never free: no
      page of the heap has one of their frames, so the request is a legal step wherever the
      page tables on the way are reached. */
  lemma AcpiIsLegal(sp: Space, sp': Space, c: VmmRuns.Config, va: Word, size: Word, flags: Word)
    requires ConfigOk(c) && Backed(sp, c.pd, c.total, Zone(c.bottom / PAGE_SIZE, {}), {})
    requires HEAP_SIZE <= c.top
    requires FreshPages(c.pd, Zone(c.bottom / PAGE_SIZE, {}), {}, (c.top - HEAP_SIZE) / PAGE_SIZE, 20)
    requires BackRegion(sp, c.pd, c.total, (c.top - HEAP_SIZE) / PAGE_SIZE, VM_AREA_WRITE, 20) == Done(sp')
    requires Inv(Kernel(sp', StartAreas(c)), c) && HasFlag(flags, VM_AREA_MMIO)
    requires va % PAGE_SIZE == 0 && 0 < size && va + size <= VIRTUAL_KERNEL_OFFSET && c.pd < va / PAGE_SIZE
    requires Reserved(sp, c.total, va / PAGE_SIZE, NumPagesNeeded(size))
    requires TablesReached(Requested(sp', c.total, va / PAGE_SIZE, NumPagesNeeded(size)), c.pd, c.total,
                           va / PAGE_SIZE, flags, NumPagesNeeded(size))
    ensures Legal(Kernel(sp', StartAreas(c)), c, Request(va, size, flags))
  {
    hide Backed, BackRegion, PagesOf, FreshPages, TablesReached, Inv, HasFlag, StartAreas;
    var P, vp, n := Pages((c.top - HEAP_SIZE) / PAGE_SIZE, 20), va / PAGE_SIZE, NumPagesNeeded(size);
    BackRegionOk(sp, sp', c.pd, c.total, Zone(c.bottom / PAGE_SIZE, {}), {}, (c.top - HEAP_SIZE) / PAGE_SIZE,
                 VM_AREA_WRITE, 20);
    StartPages(c);
    EmptyPlus(P);
    ReservedFits(sp, sp', c.pd, c.total, c.bottom / PAGE_SIZE, P, vp, n);
  }

  lemma ReservedFits(sp: Space, sp': Space, pd: nat, total: nat, lo: nat, P: set<nat>, vp: nat, n: nat)
    requires Backed(sp', pd, total, Zone(lo, {}), P) && FIRST_KERNEL_PAGE <= lo && pd < vp
    requires sp.used <= sp'.used && forall g | g in FramesOf(sp'.m, pd, P) :: g !in sp.used
    requires Reserved(sp, total, vp, n)
    ensures DeviceFits(Requested(sp', total, vp, n), pd, total, Zone(lo, {}), P, vp, n)
  {
    hide PagingOk, LowAliases, NoStray, NotATable;
    forall p, q | p in Pages(vp, n) && q in P ensures Trans(sp'.m, pd, q) != Some(p) {
      assert DataFrame(sp', pd, total, Trans(sp'.m, pd, q).value);
      assert Trans(sp'.m, pd, q).value in FramesOf(sp'.m, pd, P);
    }
  }
}
