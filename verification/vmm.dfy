/** The virtual memory manager's entry points over the real state: page tables and bitmap
    words in arrays, areas in linked nodes. Each is proved against the step functions of
    VmmRuns. */
module Vmm {
  import opened Words
  import opened Wrappers
  import opened PagingFormat
  import opened Pmm
  import opened Mmu
  import opened Mapping
  import opened Paging
  import opened Regions
  import opened Devices
  import opened Areas
  import opened AreaLists
  import opened VmmRuns

  /** What a call left behind: it returned, or one of its accesses faulted. */
  datatype Call<T> = Returned(value: T) | Faulted

  // ----- what a failed call leaves

  /** Owned pages keep their frames, and at least they are backed still. */
  ghost predicate KeptBacked(sp: Space, sp': Space, pd: nat, total: nat, z: Zone, P: set<nat>) {
    && IsMem(sp.m) && IsMem(sp'.m) && pd < NUM_PAGES
    && (forall p | p in P :: p < NUM_PAGES && Trans(sp'.m, pd, p) == Trans(sp.m, pd, p))
    && exists z': Zone, P': set<nat> ::
         z'.lo == z.lo && z.devices <= z'.devices && P <= P' && Backed(sp', pd, total, z', P')
  }

  /** Frames taken for nothing hurt no one. */
  lemma LeakKeeps(sp: Space, s1: Space, s2: Space, pd: nat, total: nat, z: Zone, P: set<nat>, z': Zone, P': set<nat>)
    requires IsMem(sp.m) && pd < NUM_PAGES && Backed(s1, pd, total, z', P') && Leaked(s1, s2, total)
    requires z'.lo == z.lo && z.devices <= z'.devices && P <= P'
    requires IsMem(s1.m) && forall p | p in P :: p < NUM_PAGES && Trans(s1.m, pd, p) == Trans(sp.m, pd, p)
    ensures KeptBacked(sp, s2, pd, total, z, P)
  {
    hide Backed, Trans;
    var F := s2.used - s1.used;
    assert s2 == s1.(used := s1.used + F) by { assert s1.used + F == s2.used; }
    AllocatedFrames(s1, pd, total, z', P', F);
  }

  /** map_contiguous_pages on kernel pages. P are the pages owned so far. */
  method MapContiguousPages(k: Machine, first: nat, va: Word, flags: Word, n: nat,
                            ghost z: Zone, ghost P: set<nat>)
    returns (r: MapResult)
    requires k.Valid() && Backed(k.Now(), k.pgd, k.pmm.numBits, z, P)
    requires FreshPages(k.pgd, z, P, va / PAGE_SIZE, n) && first + n <= k.pmm.numBits
    requires forall g: nat | first <= g < first + n ::
               DataFrame(k.Now(), k.pgd, k.pmm.numBits, g) && Unowned(k.Now(), k.pgd, z, P, g)
    modifies k.mem, k.pmm.words
    ensures k.Shape()
    ensures k.Outcomes(r, MapRun(old(k.Now()), k.pgd, k.pmm.numBits, va / PAGE_SIZE, first, flags, n))
    ensures r != MapOk ==> KeptBacked(old(k.Now()), k.Now(), k.pgd, k.pmm.numBits, z, P)
  {
    hide Backed, SpaceOk, PagingOk, AccessOk, DataFrame, Unowned, MapPage, KeptBacked, Leaked, Trans;
    ghost var sp, vp := k.Now(), va / PAGE_SIZE;
    for page := 0 to n
      invariant k.Shape()
      invariant MapRun(sp, k.pgd, k.pmm.numBits, vp, first, flags, page) == Done(k.Now())
    {
      ghost var s1 := k.Now();
      RunAccess(sp, s1, k.pgd, k.pmm.numBits, z, P, vp, first, flags, page, n);
      assert (va + page * PAGE_SIZE) / PAGE_SIZE == vp + page;
      r := k.MapPageframe((first + page) * PAGE_SIZE, va + page * PAGE_SIZE, flags);
      if r != MapOk {
        LeakKeeps(sp, s1, k.Now(), k.pgd, k.pmm.numBits, z, P, z, P + Pages(vp, page));
        MapRunStops(sp, k.pgd, k.pmm.numBits, vp, first, flags, page + 1, n);
        return;
      }
    }
    r := MapOk;
  }

  /** After any number of rounds the paging structures can still be edited. */
  lemma RunAccess(sp: Space, s1: Space, pd: nat, total: nat, z: Zone, P: set<nat>,
                  vp: nat, f: nat, flags: Word, i: nat, n: nat)
    requires Backed(sp, pd, total, z, P) && FreshPages(pd, z, P, vp, n) && f + n <= total && i < n
    requires forall g: nat | f <= g < f + n :: DataFrame(sp, pd, total, g) && Unowned(sp, pd, z, P, g)
    requires MapRun(sp, pd, total, vp, f, flags, i) == Done(s1)
    ensures IsMem(s1.m) && pd < 0x800 && total <= NUM_PAGES && (vp + i) / ENTRIES < ENTRIES
    ensures AccessOk(s1, pd, total, (vp + i) / ENTRIES)
    ensures IsMem(sp.m) && Backed(s1, pd, total, z, P + Pages(vp, i))
    ensures forall p | p in P :: p < NUM_PAGES && Trans(s1.m, pd, p) == Trans(sp.m, pd, p)
  {
    hide Backed, RunBacked, SpaceOk, AccessOk, KernelPage, MapRun, DataFrame, Unowned;
    BackedSpace(sp, pd, total, z, P);
    BackRun(sp, s1, pd, total, z, P, vp, f, flags, i);
    RunBackedSpace(sp, s1, pd, total, z, P, vp, f, i);
    SpaceOkGivesAccess(s1, pd, total, (vp + i) / ENTRIES);
  }

  lemma RunBackedSpace(sp: Space, s1: Space, pd: nat, total: nat, z: Zone, P: set<nat>, vp: nat, f: nat, n: nat)
    requires IsMem(sp.m) && RunBacked(sp, s1, pd, total, z, P, vp, f, n)
    ensures SpaceOk(s1, pd, total) && pd < 0x800 && total <= NUM_PAGES && IsMem(s1.m)
    ensures Backed(s1, pd, total, z, P + Pages(vp, n))
    ensures forall p | p in P :: p < NUM_PAGES && Trans(s1.m, pd, p) == Trans(sp.m, pd, p)
  {
  }

  /** A run that stopped stays stopped. */
  lemma {:induction false} MapRunStops(sp: Space, pd: nat, total: nat, vp: nat, f: nat, flags: Word, i: nat, n: nat)
    requires IsMem(sp.m) && pd < NUM_PAGES && total <= NUM_PAGES
    requires vp + n <= NUM_PAGES && f + n <= NUM_PAGES && i <= n
    requires !MapRun(sp, pd, total, vp, f, flags, i).Done?
    ensures MapRun(sp, pd, total, vp, f, flags, n) == MapRun(sp, pd, total, vp, f, flags, i)
    decreases n
  {
    if i < n { MapRunStops(sp, pd, total, vp, f, flags, i, n - 1); }
  }

  /** The fallback loop of vmalloc_core: a frame of its own for each page. */
  method MapScatteredPages(k: Machine, va: Word, flags: Word, n: nat, ghost z: Zone, ghost P: set<nat>)
    returns (r: MapResult)
    requires k.Valid() && Backed(k.Now(), k.pgd, k.pmm.numBits, z, P)
    requires FreshPages(k.pgd, z, P, va / PAGE_SIZE, n)
    modifies k.mem, k.pmm.words
    ensures k.Shape()
    ensures k.Outcomes(r, MapScattered(old(k.Now()), k.pgd, k.pmm.numBits, va / PAGE_SIZE, flags, n))
    ensures r != MapOk ==> KeptBacked(old(k.Now()), k.Now(), k.pgd, k.pmm.numBits, z, P)
  {
    hide Backed, SpaceOk, PagingOk, AccessOk, MapPage, FirstFit, KeptBacked, Leaked, Trans;
    ghost var sp, vp := k.Now(), va / PAGE_SIZE;
    for page := 0 to n
      invariant k.Shape()
      invariant MapScattered(sp, k.pgd, k.pmm.numBits, vp, flags, page) == Done(k.Now())
    {
      ghost var s1 := k.Now();
      ScatterAccess(sp, s1, k.pgd, k.pmm.numBits, z, P, vp, flags, page, n);
      assert NumPagesNeeded(PAGE_SIZE) == 1;
      var phys := k.pmm.AllocPageframe(PAGE_SIZE);
      assert k.Now().m == s1.m;
      if phys == 0 {
        MapScatteredStops(sp, k.pgd, k.pmm.numBits, vp, flags, page + 1, n);
        NothingLeaked(s1, k.pmm.numBits);
        LeakKeeps(sp, s1, k.Now(), k.pgd, k.pmm.numBits, z, P, z, P + Pages(vp, page));
        return MapNoFrame;
      }
      assert k.Now() == s1.(used := s1.used + {phys / PAGE_SIZE});
      assert (va + page * PAGE_SIZE) / PAGE_SIZE == vp + page;
      ghost var s2 := k.Now();
      r := k.MapPageframe(phys, va + page * PAGE_SIZE, flags);
      if r != MapOk {
        FrameLeaked(s1, s2, k.Now(), k.pmm.numBits, phys / PAGE_SIZE);
        LeakKeeps(sp, s1, k.Now(), k.pgd, k.pmm.numBits, z, P, z, P + Pages(vp, page));
        MapScatteredStops(sp, k.pgd, k.pmm.numBits, vp, flags, page + 1, n);
        return;
      }
    }
    r := MapOk;
  }

  lemma NothingLeaked(sp: Space, total: nat)
    ensures Leaked(sp, sp, total)
  {
  }

  lemma FrameLeaked(s1: Space, s2: Space, s3: Space, total: nat, f: nat)
    requires s2 == s1.(used := s1.used + {f}) && f < total && Leaked(s2, s3, total)
    ensures Leaked(s1, s3, total)
  {
  }

  /** The next frame is not frame 0, and once it is taken the structures can be edited. */
  lemma ScatterAccess(sp: Space, s1: Space, pd: nat, total: nat, z: Zone, P: set<nat>,
                      vp: nat, flags: Word, i: nat, n: nat)
    requires Backed(sp, pd, total, z, P) && FreshPages(pd, z, P, vp, n) && i < n
    requires MapScattered(sp, pd, total, vp, flags, i) == Done(s1)
    ensures IsMem(s1.m) && pd < 0x800 && total <= NUM_PAGES && (vp + i) / ENTRIES < ENTRIES
    ensures var r := FirstFit(s1.used, total, 1);
            r.Some? ==> 0 < r.value < total && Frames(r.value, 1) == {r.value}
                        && AccessOk(s1.(used := s1.used + {r.value}), pd, total, (vp + i) / ENTRIES)
    ensures IsMem(sp.m) && Backed(s1, pd, total, z, P + Pages(vp, i))
    ensures forall p | p in P :: p < NUM_PAGES && Trans(s1.m, pd, p) == Trans(sp.m, pd, p)
  {
    hide Backed, ScatterBacked, SpaceOk, AccessOk, KernelPage, MapScattered, FirstFit;
    BackedSpace(sp, pd, total, z, P);
    BackScattered(sp, s1, pd, total, z, P, vp, flags, i);
    ScatterBackedSpace(sp, s1, pd, total, z, P, vp, i);
    var r := FirstFit(s1.used, total, 1);
    if r.Some? {
      FirstFitIsFree(s1.used, total, 1);
      var s2 := s1.(used := s1.used + {r.value});
      AllocatedFrames(s1, pd, total, z, P + Pages(vp, i), {r.value});
      BackedSpace(s2, pd, total, z, P + Pages(vp, i));
      SpaceOkGivesAccess(s2, pd, total, (vp + i) / ENTRIES);
      FreeIsNotZero(s1, pd, total, r.value);
    }
  }

  lemma ScatterBackedSpace(sp: Space, s1: Space, pd: nat, total: nat, z: Zone, P: set<nat>, vp: nat, n: nat)
    requires IsMem(sp.m) && ScatterBacked(sp, s1, pd, total, z, P, vp, n)
    ensures Backed(s1, pd, total, z, P + Pages(vp, n))
    ensures forall p | p in P :: p < NUM_PAGES && Trans(s1.m, pd, p) == Trans(sp.m, pd, p)
    ensures SpaceOk(s1, pd, total) && pd < 0x800 && total <= NUM_PAGES && IsMem(s1.m)
  {
  }

  lemma BackedSpace(sp: Space, pd: nat, total: nat, z: Zone, P: set<nat>)
    requires Backed(sp, pd, total, z, P)
    ensures SpaceOk(sp, pd, total) && pd < 0x800 && total <= NUM_PAGES && IsMem(sp.m)
  {
  }

  lemma FreeIsNotZero(sp: Space, pd: nat, total: nat, f: nat)
    requires SpaceOk(sp, pd, total) && f !in sp.used
    ensures f > 0
  {
  }

  lemma {:induction false} MapScatteredStops(sp: Space, pd: nat, total: nat, vp: nat, flags: Word, i: nat, n: nat)
    requires IsMem(sp.m) && pd < NUM_PAGES && total <= NUM_PAGES && vp + n <= NUM_PAGES && i <= n
    requires !MapScattered(sp, pd, total, vp, flags, i).Done?
    ensures MapScattered(sp, pd, total, vp, flags, n) == MapScattered(sp, pd, total, vp, flags, i)
    decreases n
  {
    if i < n { MapScatteredStops(sp, pd, total, vp, flags, i, n - 1); }
  }

  /** identity_map_pageframes on the pages of a device. */
  method IdentityMapPageframes(k: Machine, va: Word, flags: Word, n: nat, ghost z: Zone, ghost P: set<nat>)
    returns (r: MapResult)
    requires k.Valid() && Backed(k.Now(), k.pgd, k.pmm.numBits, z, P) && va / PAGE_SIZE + n <= NUM_PAGES
    requires va % PAGE_SIZE == 0 && DeviceReady(k.Now(), k.pgd, k.pmm.numBits, z, P, va / PAGE_SIZE, flags, n)
    modifies k.mem, k.pmm.words
    ensures k.Shape()
    ensures k.Outcomes(r, MapRun(old(k.Now()), k.pgd, k.pmm.numBits, va / PAGE_SIZE, va / PAGE_SIZE, flags, n))
    ensures r != MapOk ==> KeptBacked(old(k.Now()), k.Now(), k.pgd, k.pmm.numBits, z, P)
  {
    hide Backed, SpaceOk, PagingOk, AccessOk, MapPage, DeviceReady, KeptBacked, Leaked, Trans;
    ghost var sp, vp := k.Now(), va / PAGE_SIZE;
    for page := 0 to n
      invariant k.Shape()
      invariant MapRun(sp, k.pgd, k.pmm.numBits, vp, vp, flags, page) == Done(k.Now())
    {
      ghost var s1 := k.Now();
      DeviceAccess(sp, s1, k.pgd, k.pmm.numBits, z, P, vp, flags, page, n);
      assert va + page * PAGE_SIZE == (vp + page) * PAGE_SIZE;
      r := k.MapPageframe(va + page * PAGE_SIZE, va + page * PAGE_SIZE, flags);
      if r != MapOk {
        LeakKeeps(sp, s1, k.Now(), k.pgd, k.pmm.numBits, z, P, WithDevices(z, Pages(vp, page)), P);
        MapRunStops(sp, k.pgd, k.pmm.numBits, vp, vp, flags, page + 1, n);
        return;
      }
    }
    r := MapOk;
  }

  /** The pages suit a device, and tables that are missing are reached. */
  ghost predicate DeviceReady(sp: Space, pd: nat, total: nat, z: Zone, P: set<nat>, vp: nat, flags: Word, n: nat)
    requires IsMem(sp.m) && pd < NUM_PAGES && total <= NUM_PAGES && vp + n <= NUM_PAGES
  {
    && DeviceFits(sp, pd, total, z, P, vp, n)
    && (z.lo >= FIRST_FREE_PAGE || TablesReached(sp, pd, total, vp, flags, n))
  }

  lemma DeviceAccess(sp: Space, s1: Space, pd: nat, total: nat, z: Zone, P: set<nat>,
                     vp: nat, flags: Word, i: nat, n: nat)
    requires Backed(sp, pd, total, z, P) && IsMem(sp.m) && pd < NUM_PAGES && total <= NUM_PAGES && vp + n <= NUM_PAGES
    requires DeviceReady(sp, pd, total, z, P, vp, flags, n) && i < n
    requires MapRun(sp, pd, total, vp, vp, flags, i) == Done(s1)
    ensures IsMem(s1.m) && pd < 0x800 && (vp + i) / ENTRIES < ENTRIES
    ensures AccessOk(s1, pd, total, (vp + i) / ENTRIES)
    ensures Backed(s1, pd, total, WithDevices(z, Pages(vp, i)), P)
    ensures forall p | p in P :: p < NUM_PAGES && Trans(s1.m, pd, p) == Trans(sp.m, pd, p)
  {
    hide Backed, SpaceOk, AccessOk, MapRun, MapPage, DeviceFits, DeviceBacked, TableReached;
    FewerReady(sp, pd, total, z, P, vp, flags, i, n);
    DeviceRun(sp, s1, pd, total, z, P, vp, flags, i);
    DeviceBackedSpace(sp, s1, pd, total, z, P, vp, i);
    SpaceOkGivesAccess(s1, pd, total, (vp + i) / ENTRIES);
  }

  lemma {:induction false} FewerReady(sp: Space, pd: nat, total: nat, z: Zone, P: set<nat>,
                                      vp: nat, flags: Word, i: nat, n: nat)
    requires IsMem(sp.m) && pd < NUM_PAGES && total <= NUM_PAGES && vp + n <= NUM_PAGES && i <= n
    requires DeviceReady(sp, pd, total, z, P, vp, flags, n)
    ensures DeviceReady(sp, pd, total, z, P, vp, flags, i)
    decreases n
  {
    hide DeviceFits, MapRun, TableReached;
    if i < n {
      FewerFit(sp, pd, total, z, P, vp, n);
      FewerReady(sp, pd, total, z, P, vp, flags, i, n - 1);
    }
  }

  lemma DeviceBackedSpace(sp: Space, s1: Space, pd: nat, total: nat, z: Zone, P: set<nat>, vp: nat, n: nat)
    requires IsMem(sp.m) && DeviceBacked(sp, s1, pd, total, z, P, vp, n)
    ensures SpaceOk(s1, pd, total) && pd < 0x800 && total <= NUM_PAGES && IsMem(s1.m)
    ensures Backed(s1, pd, total, WithDevices(z, Pages(vp, n)), P)
    ensures forall p | p in P :: p < NUM_PAGES && Trans(s1.m, pd, p) == Trans(sp.m, pd, p)
  {
  }

  /** What vmalloc_core needs to know of the region. */
  ghost predicate CoreReady(sp: Space, pd: nat, total: nat, z: Zone, P: set<nat>, vp: nat, flags: Word, n: nat)
    requires IsMem(sp.m) && pd < NUM_PAGES && total <= NUM_PAGES
  {
    && vp + n <= NUM_PAGES
    && if HasFlag(flags, VM_AREA_MMIO) then DeviceReady(Requested(sp, total, vp, n), pd, total, z, P, vp, flags, n)
       else FreshPages(pd, z, P, vp, n)
  }

  /** vmalloc_core: device memory is mapped to itself, its frames marked used if they are all
      free; everything else gets frames from the allocator. */
  method VmallocCore(k: Machine, va: Word, size: Word, flags: Word, ghost z: Zone, ghost P: set<nat>)
    returns (r: MapResult)
    requires k.Valid() && Backed(k.Now(), k.pgd, k.pmm.numBits, z, P)
    requires CoreReady(k.Now(), k.pgd, k.pmm.numBits, z, P, va / PAGE_SIZE, flags, NumPagesNeeded(size))
    requires HasFlag(flags, VM_AREA_MMIO) ==> va % PAGE_SIZE == 0
    modifies k.mem, k.pmm.words
    ensures k.Shape()
    ensures k.Outcomes(r, CoreDoes(old(k.Now()), k.pgd, k.pmm.numBits, va / PAGE_SIZE, flags, NumPagesNeeded(size)))
    ensures r != MapOk ==> KeptBacked(old(k.Now()), k.Now(), k.pgd, k.pmm.numBits, z, P)
  {
    hide Backed, SpaceOk, PagingOk, DeviceReady, MapRun, MapScattered, FreshPages, BackRegion, HasFlag, AllFree, Trans;
    ghost var sp, n := k.Now(), NumPagesNeeded(size);
    if HasFlag(flags, VM_AREA_MMIO) {
      var _ := k.pmm.AllocRequestedPageframe(va, size);
      assert k.Now().m == sp.m;
      assert k.Now() == Requested(sp, k.pmm.numBits, va / PAGE_SIZE, n);
      RequestedIsBacked(sp, k.pgd, k.pmm.numBits, z, P, va / PAGE_SIZE, n);
      BackedSpace(k.Now(), k.pgd, k.pmm.numBits, z, P);
      r := IdentityMapPageframes(k, va, flags, NumPagesNeeded(size), z, P);
    } else {
      r := BackMemory(k, va, size, flags, z, P);
    }
  }

  /** The branch for ordinary memory: one run of frames, or the fallback. */
  method BackMemory(k: Machine, va: Word, size: Word, flags: Word, ghost z: Zone, ghost P: set<nat>)
    returns (r: MapResult)
    requires k.Valid() && Backed(k.Now(), k.pgd, k.pmm.numBits, z, P)
    requires FreshPages(k.pgd, z, P, va / PAGE_SIZE, NumPagesNeeded(size))
    modifies k.mem, k.pmm.words
    ensures k.Shape()
    ensures k.Outcomes(r, BackRegion(old(k.Now()), k.pgd, k.pmm.numBits, va / PAGE_SIZE, flags, NumPagesNeeded(size)))
    ensures r != MapOk ==> KeptBacked(old(k.Now()), k.Now(), k.pgd, k.pmm.numBits, z, P)
  {
    hide Backed, SpaceOk, PagingOk, DataFrame, Unowned, MapRun, MapScattered, FirstFit, FreshPages, Trans;
    ghost var sp := k.Now();
    var n := NumPagesNeeded(size);
    CoreFrames(sp, k.pgd, k.pmm.numBits, z, P, n);
    var phys := k.pmm.AllocPageframe(size);
    assert k.Now().m == sp.m;
    if phys == 0 {
      assert k.Now() == sp;
      r := MapScatteredPages(k, va, flags, n, z, P);
    } else {
      assert k.Now() == sp.(used := sp.used + Frames(phys / PAGE_SIZE, n));
      r := MapContiguousPages(k, phys / PAGE_SIZE, va, flags, n, z, P);
    }
  }

  /** A run of frames from the allocator can back a region. */
  lemma CoreFrames(sp: Space, pd: nat, total: nat, z: Zone, P: set<nat>, n: nat)
    requires Backed(sp, pd, total, z, P)
    ensures IsMem(sp.m) && pd < NUM_PAGES
    ensures var r := FirstFit(sp.used, total, n);
            r.Some? ==>
              && r.value > 0 && r.value + n <= total
              && var s1 := sp.(used := sp.used + Frames(r.value, n));
                && SpaceOk(s1, pd, total) && Backed(s1, pd, total, z, P)
                && forall g: nat | r.value <= g < r.value + n ::
                     DataFrame(s1, pd, total, g) && Unowned(s1, pd, z, P, g)
  {
    hide Backed, SpaceOk, DataFrame, Unowned, FirstFit;
    BackedSpace(sp, pd, total, z, P);
    var r := FirstFit(sp.used, total, n);
    if r.Some? {
      FirstFitIsFree(sp.used, total, n);
      AllocatedFrames(sp, pd, total, z, P, Frames(r.value, n));
      BackedSpace(sp.(used := sp.used + Frames(r.value, n)), pd, total, z, P);
      FreeIsNotZero(sp, pd, total, r.value);
    }
  }

  // ----- releasing

  /** The page loop of vmalloc_free. The frame comes from the value of the PTE (line 480 of
      the source masks the PTE's address instead; see `AsWritten.FreedFrame`). */
  method FreePages(k: Machine, va: Word, n: nat, ghost z: Zone, ghost P: set<nat>)
    returns (freed: bool)
    requires k.Valid() && Backed(k.Now(), k.pgd, k.pmm.numBits, z, P)
    requires va / PAGE_SIZE + n <= NUM_PAGES && forall p | p in Pages(va / PAGE_SIZE, n) :: p in P
    modifies k.mem, k.pmm.words
    ensures k.Shape() && freed
    ensures FreeRun(old(k.Now()), k.pgd, va / PAGE_SIZE, n) == Some(k.Now())
  {
    hide Backed, SpaceOk, PagingOk, FreePage, Trans;
    ghost var sp, vp := k.Now(), va / PAGE_SIZE;
    for page := 0 to n
      invariant k.Shape()
      invariant FreeRun(sp, k.pgd, vp, page) == Some(k.Now())
    {
      ghost var s1 := k.Now();
      FreeAccess(sp, s1, k.pgd, k.pmm.numBits, z, P, vp, page, n);
      assert (va + page * PAGE_SIZE) / PAGE_SIZE == vp + page;
      freed := FreeOnePage(k, va + page * PAGE_SIZE);
      if !freed {
        return;
      }
    }
    freed := true;
  }

  /** Every page of an owned region can be freed in turn. */
  lemma FreeAccess(sp: Space, s1: Space, pd: nat, total: nat, z: Zone, P: set<nat>, vp: nat, i: nat, n: nat)
    requires Backed(sp, pd, total, z, P) && vp + n <= NUM_PAGES && i < n
    requires forall p | p in Pages(vp, n) :: p in P
    requires FreeRun(sp, pd, vp, i) == Some(s1)
    ensures IsMem(s1.m) && pd < 0x800 && Recursive(s1.m, pd)
    ensures PdePresent(s1.m, pd, (vp + i) / ENTRIES)
    ensures FreePage(s1, pd, vp + i).Some? && s1.m[GovIndex(s1.m, pd, vp + i)] / PAGE_SIZE < total
  {
    hide Backed, FreeRun, FreePage, SpaceOk;
    forall p | p in Pages(vp, i) ensures p in P { assert p in Pages(vp, n); }
    var s := FreeRunOk(sp, pd, total, z, P, vp, i);
    assert vp + i in Pages(vp, n);
    var s2 := FreedSpace(s1, pd, total, z, P - Pages(vp, i), vp + i);
    OwnedEntry(s1, pd, total, z, P - Pages(vp, i), vp + i);
  }

  lemma OwnedEntry(sp: Space, pd: nat, total: nat, z: Zone, P: set<nat>, q: nat)
    requires Backed(sp, pd, total, z, P) && q in P
    ensures IsMem(sp.m) && pd < 0x800 && Recursive(sp.m, pd) && q < NUM_PAGES
    ensures PdePresent(sp.m, pd, q / ENTRIES) && sp.m[GovIndex(sp.m, pd, q)] / PAGE_SIZE < total
  {
  }

  /** One round: read the PTE through the recursive slot, give the frame back, zero it. */
  method FreeOnePage(k: Machine, va: Word) returns (ok: bool)
    requires k.Shape() && Recursive(k.mem[..], k.pgd)
    requires PdePresent(k.mem[..], k.pgd, va / PAGE_SIZE / ENTRIES)
    requires k.mem[GovIndex(k.mem[..], k.pgd, va / PAGE_SIZE)] / PAGE_SIZE <= k.pmm.numBits
    modifies k.mem, k.pmm.words
    ensures k.Shape()
    ensures ok <==> FreePage(old(k.Now()), k.pgd, va / PAGE_SIZE).Some?
    ensures ok ==> FreePage(old(k.Now()), k.pgd, va / PAGE_SIZE) == Some(k.Now())
  {
    ghost var sp := k.Now();
    RecursiveWalk(k.mem[..], k.pgd, va);
    var pte := k.Load(PteAddress(va));
    var freed := k.pmm.FreePageframe(GetPageframeAddress(pte.value));
    assert k.mem[..] == sp.m;
    if !freed {
      return false;
    }
    ghost var used := k.pmm.Used();
    ok := k.FreeMapping(va);
    assert k.pmm.Used() == used;
  }

  // ----- what a failed call leaves, for the areas listed

  /** The pages of k's areas are backed as in k, whatever else was mapped or taken. */
  ghost predicate Kept(k: Kernel, sp': Space, c: VmmRuns.Config) {
    KeptBacked(k.sp, sp', c.pd, c.total, ZoneOf(k.areas, c), OwnedPages(k.areas))
  }

  lemma KeptAll(k: Kernel, c: VmmRuns.Config)
    requires Inv(k, c)
    ensures Kept(k, k.sp, c)
  {
    hide Backed, PagesOf;
    InvGivesSpace(k, c);
    NothingLeaked(k.sp, c.total);
    HeldBelowTop(k.areas, Memory);
    LeakKeeps(k.sp, k.sp, k.sp, c.pd, c.total, ZoneOf(k.areas, c), OwnedPages(k.areas),
              ZoneOf(k.areas, c), OwnedPages(k.areas));
  }

  /** After a call that failed midway every area that was listed has the frames it had, each
      address of it is resident still, addresses of different pages are in different frames, and
      devices are where they were. */
  lemma KeptIsSafe(k: Kernel, sp': Space, c: VmmRuns.Config, va: Word, vb: Word, vd: Word)
    requires Inv(k, c) && Kept(k, sp', c)
    ensures IsMem(k.sp.m) && IsMem(sp'.m) && c.pd < NUM_PAGES
    ensures InArea(k, Memory, va) ==>
              Resident(Kernel(sp', k.areas), c, va) && FrameOf(Kernel(sp', k.areas), c, va) == FrameOf(k, c, va)
    ensures InArea(k, Memory, va) && InArea(k, Memory, vb) && va / PAGE_SIZE != vb / PAGE_SIZE ==>
              FrameOf(Kernel(sp', k.areas), c, va) != FrameOf(Kernel(sp', k.areas), c, vb)
    ensures InArea(k, Device, vd) ==> Walk(sp'.m, c.pd, vd) == Some(vd)
  {
    hide Inv, InArea, Resident, Walk, Trans, AreasOk, Backed, PagesOf;
    InvHasSpace(k, c);
    var z': Zone, P': set<nat> :| z'.lo == c.bottom / PAGE_SIZE && PagesOf(k.areas, Device) <= z'.devices
                  && OwnedPages(k.areas) <= P' && Backed(sp', c.pd, c.total, z', P');
    InvListsAreas(k, c);
    if InArea(k, Memory, va) {
      AddressHeld(k, c, Memory, va);
      KeptPage(k, sp', c, z', P', va);
      if InArea(k, Memory, vb) && va / PAGE_SIZE != vb / PAGE_SIZE {
        AddressHeld(k, c, Memory, vb);
        KeptApart(sp', c, z', P', va / PAGE_SIZE, vb / PAGE_SIZE);
      }
    }
    if InArea(k, Device, vd) {
      AddressHeld(k, c, Device, vd);
      KeptDevice(sp', c, z', P', vd);
    }
  }

  lemma InvListsAreas(k: Kernel, c: VmmRuns.Config)
    requires Inv(k, c)
    ensures AreasOk(k.areas, c)
  {
  }

  lemma KeptPage(k: Kernel, sp': Space, c: VmmRuns.Config, z: Zone, P: set<nat>, va: Word)
    requires IsMem(k.sp.m) && Backed(sp', c.pd, c.total, z, P) && va / PAGE_SIZE in P
    requires IsMem(sp'.m) && c.pd < NUM_PAGES
    requires Trans(sp'.m, c.pd, va / PAGE_SIZE) == Trans(k.sp.m, c.pd, va / PAGE_SIZE)
    ensures Resident(Kernel(sp', k.areas), c, va) && FrameOf(Kernel(sp', k.areas), c, va) == FrameOf(k, c, va)
  {
    hide PagingOk, NotATable, LowAliases, NoStray, DevicesOk, DeviceFramesOk, Trans;
    assert Owned(sp', c.pd, c.total, P);
  }

  lemma KeptApart(sp': Space, c: VmmRuns.Config, z: Zone, P: set<nat>, p: nat, q: nat)
    requires Backed(sp', c.pd, c.total, z, P) && p in P && q in P && p != q
    ensures IsMem(sp'.m) && c.pd < NUM_PAGES && p < NUM_PAGES && q < NUM_PAGES
    ensures Trans(sp'.m, c.pd, p) != Trans(sp'.m, c.pd, q)
  {
    hide PagingOk, DataFrame, LowAliases, NoStray, DevicesOk, DeviceFramesOk;
    assert Owned(sp', c.pd, c.total, P);
  }

  lemma KeptDevice(sp': Space, c: VmmRuns.Config, z: Zone, P: set<nat>, vd: Word)
    requires Backed(sp', c.pd, c.total, z, P) && vd / PAGE_SIZE in z.devices
    ensures IsMem(sp'.m) && c.pd < NUM_PAGES && Walk(sp'.m, c.pd, vd) == Some(vd)
  {
    hide PagingOk, NotATable, LowAliases, NoStray, Owned, DeviceFramesOk;
    assert DevicesOk(sp'.m, c.pd, z, P);
  }

  /** The core is called, and a store of its own faults: a page table's frame is not mapped at its
      physical address. */
  ghost predicate Faults(k: Kernel, c: VmmRuns.Config, op: Op)
    requires IsMem(k.sp.m) && c.pd < NUM_PAGES && c.total <= NUM_PAGES
  {
    match op
    case Alloc(size, flags) =>
      var a := FirstAlloc(k.areas, c.bottom, c.top, size);
      a != 0 && CoreFaults(k.sp, c, a, flags, NumPagesNeeded(size))
    case Request(va, size, flags) => !AnyHit(k.areas, va, size) && CoreFaults(k.sp, c, va, flags, NumPagesNeeded(size))
    case Extend(start, extra) =>
      (match IndexOf(k.areas, start)
       case None => false
       case Some(i) =>
         var end := Wrap(k.areas[i].End());
         !AnyHit(k.areas, end, extra) && CoreFaults(k.sp, c, end, VM_AREA_WRITE, NumPagesNeeded(extra)))
    case Free(start) => false
  }

  ghost predicate CoreFaults(sp: Space, c: VmmRuns.Config, va: Word, flags: Word, n: nat)
    requires IsMem(sp.m) && c.pd < NUM_PAGES && c.total <= NUM_PAGES
  {
    va / PAGE_SIZE + n <= NUM_PAGES && CoreDoes(sp, c.pd, c.total, va / PAGE_SIZE, flags, n) == PageFault
  }

  // ----- the entry points

  class Manager {
    const machine: Machine
    const list: AreaList

    constructor (machine: Machine, list: AreaList)
      ensures this.machine == machine && this.list == list
    {
      this.machine, this.list := machine, list;
    }

    ghost function Config(): Config
      reads machine.pmm
    {
      VmmRuns.Config(machine.pgd, machine.pmm.numBits, list.bottom, list.top)
    }

    ghost function Now(): Kernel
      requires machine.Shape()
      reads machine.mem, machine.pmm, machine.pmm.words, list
    {
      Kernel(machine.Now(), list.areas)
    }

    ghost predicate Ready()
      reads machine.mem, machine.pmm, machine.pmm.words, list, list.nodes
    {
      machine.Shape() && list.Valid() && Inv(Now(), Config())
    }

    /** NULL or the address of a region that was backed and listed as `Step` says. The list
        changes only on success, and nothing does if the search finds no place. */
    method Vmalloc(size: Word, flags: Word) returns (r: Call<Word>)
      requires Ready() && Legal(Now(), Config(), Alloc(size, flags))
      modifies machine.mem, machine.pmm.words, list, list.nodes
      ensures machine.Shape() && list.Valid()
      ensures IsMem(old(Now()).sp.m) && Config().pd < NUM_PAGES && Config().total <= NUM_PAGES
      ensures r == Faulted <==> Faults(old(Now()), Config(), Alloc(size, flags))
      ensures match old(Step(Now(), Config(), Alloc(size, flags)))
              case Some(k') =>
                && r == Returned(FirstAlloc(old(list.areas), list.bottom, list.top, size))
                && Now() == k' && Ready()
              case None =>
                && (r == Returned(0) || r == Faulted) && list.areas == old(list.areas)
                && Kept(old(Now()), machine.Now(), Config())
      ensures FirstAlloc(old(list.areas), list.bottom, list.top, size) == 0 ==>
                r == Returned(0) && Now() == old(Now()) && Ready()
    {
      hide Inv, Legal, FirstAlloc, PagesOf, Step, Backed, SpaceOk, CoreReady, Descending, AreaList.Valid,
           BackRegion, KeptBacked;
      ghost var k, c := Now(), Config();
      var va := list.FindFirstAlloc(size);
      KeptAll(k, c);
      if va == 0 {
        AllocFails(k, c, size, flags);
        return Returned(0);
      }
      AllocReady(k, c, size, flags);
      AllocStep(k, c, size, flags);
      var mapped := VmallocCore(machine, va, size, flags, ZoneOf(k.areas, c), OwnedPages(k.areas));
      if mapped == MapFault {
        return Faulted;
      }
      if mapped != MapOk {
        return Returned(0);
      }
      var n := new AreaNode(va, size, flags);
      list.InsertNewVmArea(n);
      AllocKeepsInv(k, Now(), c, size, flags);
      r := Returned(va);
    }

    /** A region at an address of the caller's. For a device it may be listed already; memory
        must not be. If the core fails the region is listed nevertheless, at the address NULL
        that it returned. */
    method VmallocRequestVirtualAddress(va: Word, size: Word, flags: Word) returns (r: Call<Word>)
      requires Ready() && Legal(Now(), Config(), Request(va, size, flags))
      modifies machine.mem, machine.pmm.words, list, list.nodes
      ensures machine.Shape() && list.Valid()
      ensures IsMem(old(Now()).sp.m) && Config().pd < NUM_PAGES && Config().total <= NUM_PAGES
      ensures r == Faulted <==> Faults(old(Now()), Config(), Request(va, size, flags))
      ensures match old(Step(Now(), Config(), Request(va, size, flags)))
              case Some(k') => r == Returned(va) && Now() == k' && Ready()
              case None => (r == Returned(0) || r == Faulted) && Kept(old(Now()), machine.Now(), Config())
      ensures AnyHit(old(list.areas), va, size) ==> Now() == old(Now()) && Ready()
      ensures r == Returned(0) && va != 0 && !AnyHit(old(list.areas), va, size) ==>
                list.areas == Insert(old(list.areas), Area(0, NumPagesNeeded(size) * PAGE_SIZE, flags))
    {
      hide Inv, Legal, PagesOf, Step, Backed, SpaceOk, CoreReady, CoreDoes, Descending, AreaList.Valid,
           HasFlag, Hits, KeptBacked;
      ghost var k, c := Now(), Config();
      RequestStep(k, c, va, size, flags);
      var hit := list.VirtRegionExistsInArea(va, size);
      KeptAll(k, c);
      if hit != null {
        assert AnyHit(k.areas, va, size);
        return Returned(if HasFlag(flags, VM_AREA_MMIO) then va else 0);
      }
      RequestReady(k, c, va, size, flags);
      var mapped := VmallocCore(machine, va, size, flags, ZoneOf(k.areas, c), OwnedPages(k.areas));
      if mapped == MapFault {
        return Faulted;
      }
      var address := if mapped == MapOk then va else 0;
      var n := new AreaNode(address, size, flags);
      list.InsertNewVmArea(n);
      if mapped == MapOk { RequestKeepsInv(k, Now(), c, va, size, flags); }
      r := Returned(address);
    }

    /** The start of the new memory, or NULL. Once the overlap test has passed, the recorded
        length grows whether or not the memory could be backed. */
    method VmallocRequestMoreMemory(start: Word, extra: Word) returns (r: Call<Word>)
      requires Ready() && Legal(Now(), Config(), Extend(start, extra))
      modifies machine.mem, machine.pmm.words, list, list.nodes
      ensures machine.Shape() && list.Valid()
      ensures IsMem(old(Now()).sp.m) && Config().pd < NUM_PAGES && Config().total <= NUM_PAGES
      ensures r == Faulted <==> Faults(old(Now()), Config(), Extend(start, extra))
      ensures match old(Step(Now(), Config(), Extend(start, extra)))
              case Some(k') =>
                && r == Returned(old(list.areas[IndexOf(list.areas, start).value].End()))
                && Now() == k' && Ready()
              case None => (r == Returned(0) || r == Faulted) && Kept(old(Now()), machine.Now(), Config())
      ensures var i := IndexOf(old(list.areas), start);
              if i.None? || AnyHit(old(list.areas), old(list.areas)[i.value].End(), extra)
              then r == Returned(0) && Now() == old(Now()) && Ready()
              else r != Faulted ==> list.areas == Extended(old(list.areas), i.value, extra)
    {
      hide Inv, Legal, PagesOf, AnyHit, Step, Backed, SpaceOk, AreaList.Valid, Extended, IndexOf, HasFlag, KeptBacked;
      ghost var k, c := Now(), Config();
      var area, i := list.FindVmAreaStartingAt(start);
      IndexOfFirst(k.areas, start);
      KeptAll(k, c);
      if area == null {
        ExtendFails(k, c, start, extra);
        return Returned(0);
      }
      LegalExtend(k, c, start, extra);
      r := ExtendIfClear(area, i, start, extra);
    }

    /** The test whether anything is in the way. */
    method ExtendIfClear(area: AreaNode, ghost i: nat, start: Word, extra: Word) returns (r: Call<Word>)
      requires Ready() && Legal(Now(), Config(), Extend(start, extra))
      requires i < |list.nodes| && area == list.nodes[i] && i < |list.areas| && IndexOf(list.areas, start) == Some(i)
      modifies machine.mem, machine.pmm.words, list, list.nodes
      ensures machine.Shape() && list.Valid()
      ensures IsMem(old(Now()).sp.m) && Config().pd < NUM_PAGES && Config().total <= NUM_PAGES
      ensures r == Faulted <==> Faults(old(Now()), Config(), Extend(start, extra))
      ensures match old(Step(Now(), Config(), Extend(start, extra)))
              case Some(k') => r == Returned(old(list.areas[i].End())) && Now() == k' && Ready()
              case None => (r == Returned(0) || r == Faulted) && Kept(old(Now()), machine.Now(), Config())
      ensures if AnyHit(old(list.areas), Wrap(old(list.areas)[i].End()), extra)
              then r == Returned(0) && Now() == old(Now()) && Ready()
              else r != Faulted ==> list.areas == Extended(old(list.areas), i, extra)
    {
      hide Inv, Legal, PagesOf, AnyHit, Step, Backed, SpaceOk, AreaList.Valid, Extended, IndexOf, HasFlag, KeptBacked;
      ghost var k, c := Now(), Config();
      FoundArea(list, area, i);
      LegalExtend(k, c, start, extra);
      var end := Wrap(area.startAddress + area.length);
      NoneHit(k.areas, end, extra);
      KeptAll(k, c);
      var hit := list.VirtRegionExistsInArea(end, extra);
      if hit != null {
        ExtendFails(k, c, start, extra);
        return Returned(0);
      }
      r := ExtendArea(area, i, start, extra);
    }

    /** Back the memory behind an area and lengthen it. */
    method ExtendArea(area: AreaNode, ghost i: nat, start: Word, extra: Word) returns (r: Call<Word>)
      requires Ready() && Legal(Now(), Config(), Extend(start, extra))
      requires i < |list.nodes| && area == list.nodes[i] && i < |list.areas| && IndexOf(list.areas, start) == Some(i)
      requires !AnyHit(list.areas, Wrap(list.areas[i].End()), extra)
      modifies machine.mem, machine.pmm.words, list, list.nodes
      ensures machine.Shape() && list.Valid()
      ensures IsMem(old(Now()).sp.m) && Config().pd < NUM_PAGES && Config().total <= NUM_PAGES
      ensures r == Faulted <==> Faults(old(Now()), Config(), Extend(start, extra))
      ensures match old(Step(Now(), Config(), Extend(start, extra)))
              case Some(k') => r == Returned(old(list.areas[i].End())) && Now() == k' && Ready()
              case None => (r == Returned(0) || r == Faulted) && Kept(old(Now()), machine.Now(), Config())
      ensures r != Faulted ==> list.areas == Extended(old(list.areas), i, extra)
    {
      hide Inv, Legal, PagesOf, AnyHit, Step, Backed, SpaceOk, CoreReady, AreaList.Valid, IndexOf, Extended,
           BackRegion, HasFlag, KeptBacked;
      ghost var k, c := Now(), Config();
      FoundArea(list, area, i);
      LegalExtend(k, c, start, extra);
      ExtendReady(k, c, start, extra);
      var end := Wrap(area.startAddress + area.length);
      var mapped := VmallocCore(machine, end, extra, VM_AREA_WRITE, ZoneOf(k.areas, c), OwnedPages(k.areas));
      ExtendStep(k, c, start, extra, i);
      if mapped == MapFault {
        return Faulted;
      }
      list.Grow(area, extra, i);
      if mapped == MapOk {
        ExtendKeepsInv(k, Now(), c, start, extra);
        r := Returned(end);
      } else {
        r := Returned(0);
      }
    }

    /** Device memory stays. Of any other area the frames are given back, the pages unmapped,
        and the area is dropped from the list. */
    method VmallocFree(start: Word) returns (freed: bool)
      requires Ready() && Legal(Now(), Config(), Free(start))
      modifies machine.mem, machine.pmm.words, list, list.nodes
      ensures machine.Shape() && list.Valid()
      ensures freed && Step(old(Now()), old(Config()), Free(start)) == Some(Now()) && Ready()
    {
      hide Inv, FreeRun, PagesOf, Step, Backed, SpaceOk, AreaList.Valid, HasFlag;
      ghost var k, c := Now(), Config();
      var area, i := list.FindVmAreaStartingAt(start);
      IndexOfFirst(k.areas, start);
      FoundArea(list, area, i);
      if HasFlag(area.flags, VM_AREA_MMIO) {
        FreeDeviceStep(k, c, start, i);
        return true;
      }
      FreeReady(k, c, start);
      var n := NumPagesNeeded(area.length);
      freed := FreePages(machine, area.startAddress, n, ZoneOf(k.areas, c), OwnedPages(k.areas));
      list.Unlink(area, i);
      FreeStep(k, c, start, i, machine.Now());
      FreeKeepsInv(k, Now(), c, start);
    }
  }

  lemma {:induction false} IndexOfFirst(s: seq<Area>, va: Word)
    ensures forall i: nat | i < |s| && s[i].start == va && (forall j | 0 <= j < i :: s[j].start != va) ::
              IndexOf(s, va) == Some(i)
  {
    if s != [] && s[0].start != va {
      IndexOfFirst(s[1..], va);
      forall i: nat | i < |s| && s[i].start == va && (forall j | 0 <= j < i :: s[j].start != va)
        ensures IndexOf(s, va) == Some(i)
      {
        assert s[1..][i - 1] == s[i];
        assert forall j | 0 <= j < i - 1 :: s[1..][j] == s[j + 1];
      }
    }
  }

  lemma NoneHit(s: seq<Area>, start: Word, size: Word)
    ensures AnyHit(s, start, size) <==> !(forall i | 0 <= i < |s| :: !Hits(s[i], start, size))
  {
  }

  lemma FoundArea(list: AreaList, n: AreaNode, i: nat)
    requires list.Valid() && i < |list.nodes| && n == list.nodes[i]
    ensures i < |list.areas| && n.Value() == list.areas[i]
  {
  }

  lemma LegalExtend(k: Kernel, c: Config, start: Word, extra: Word)
    requires Inv(k, c) && Legal(k, c, Extend(start, extra)) && IndexOf(k.areas, start).Some?
    ensures var a := k.areas[IndexOf(k.areas, start).value];
            a.End() + extra < 0x1_0000_0000 && Managed(a.flags)
  {
  }

  /** Growing fails without an area at that address, or with one in the way. */
  lemma ExtendFails(k: Kernel, c: Config, start: Word, extra: Word)
    requires Inv(k, c) && Legal(k, c, Extend(start, extra))
    requires var i := IndexOf(k.areas, start);
             i.Some? ==> AnyHit(k.areas, k.areas[i.value].End(), extra)
    ensures Step(k, c, Extend(start, extra)) == None
  {
    hide Inv, BackRegion, AnyHit;
  }

  lemma ExtendStep(k: Kernel, c: Config, start: Word, extra: Word, i: nat)
    requires Inv(k, c) && IndexOf(k.areas, start) == Some(i) && IsMem(k.sp.m)
    requires c.pd < NUM_PAGES && c.total <= NUM_PAGES
    requires k.areas[i].End() + extra < 0x1_0000_0000
    requires k.areas[i].End() / PAGE_SIZE + NumPagesNeeded(extra) <= NUM_PAGES
    requires !AnyHit(k.areas, Wrap(k.areas[i].End()), extra)
    ensures var o := CoreDoes(k.sp, c.pd, c.total, k.areas[i].End() / PAGE_SIZE, VM_AREA_WRITE, NumPagesNeeded(extra));
            Step(k, c, Extend(start, extra))
            == if o.Done? then Some(Kernel(o.sp, Extended(k.areas, i, extra))) else None
  {
    hide Inv, CoreDoes, AnyHit;
  }

  /** The space of a state between calls. */
  lemma InvGivesSpace(k: Kernel, c: Config)
    requires Inv(k, c)
    ensures IsMem(k.sp.m) && c.pd < 0x800 && c.total <= NUM_PAGES && SpaceOk(k.sp, c.pd, c.total)
    ensures Backed(k.sp, c.pd, c.total, ZoneOf(k.areas, c), OwnedPages(k.areas)) && Descending(k.areas)
  {
  }

  lemma ExtendReady(k: Kernel, c: Config, start: Word, extra: Word)
    requires Inv(k, c) && Legal(k, c, Extend(start, extra)) && IndexOf(k.areas, start).Some?
    requires !AnyHit(k.areas, Wrap(k.areas[IndexOf(k.areas, start).value].End()), extra)
    ensures var end := k.areas[IndexOf(k.areas, start).value].End();
            && IsMem(k.sp.m) && c.pd < 0x800 && c.total <= NUM_PAGES && SpaceOk(k.sp, c.pd, c.total)
            && Wrap(end) == end && end / PAGE_SIZE + NumPagesNeeded(extra) <= NUM_PAGES
            && Backed(k.sp, c.pd, c.total, ZoneOf(k.areas, c), OwnedPages(k.areas))
            && !HasFlag(VM_AREA_WRITE, VM_AREA_MMIO)
            && CoreReady(k.sp, c.pd, c.total, ZoneOf(k.areas, c), OwnedPages(k.areas), end / PAGE_SIZE,
                         VM_AREA_WRITE, NumPagesNeeded(extra))
  {
    hide Backed, PagesOf, AnyHit, SpaceOk, Descending, FreshPages, DeviceReady;
    InvGivesSpace(k, c);
    ExtendPlace(k, c, start, extra);
    WriteIsMemory();
  }

  lemma FreeReady(k: Kernel, c: Config, start: Word)
    requires Inv(k, c) && Legal(k, c, Free(start))
    requires !HasFlag(k.areas[IndexOf(k.areas, start).value].flags, VM_AREA_MMIO)
    ensures var a := k.areas[IndexOf(k.areas, start).value];
            && SpaceOk(k.sp, c.pd, c.total) && c.pd < 0x800 && Managed(a.flags)
            && a.start / PAGE_SIZE + a.length / PAGE_SIZE <= NUM_PAGES
            && NumPagesNeeded(a.length) == a.length / PAGE_SIZE
            && Backed(k.sp, c.pd, c.total, ZoneOf(k.areas, c), OwnedPages(k.areas))
            && forall p | p in Pages(a.start / PAGE_SIZE, a.length / PAGE_SIZE) :: p in OwnedPages(k.areas)
  {
    hide Backed, PagesOf, HasFlag, SpaceOk;
    InvGivesSpace(k, c);
    FreePlace(k, c, start);
  }

  lemma FreeDeviceStep(k: Kernel, c: Config, start: Word, i: nat)
    requires Inv(k, c) && IndexOf(k.areas, start) == Some(i) && HasFlag(k.areas[i].flags, VM_AREA_MMIO)
    ensures Step(k, c, Free(start)) == Some(k)
  {
    hide Inv, FreeRun, HasFlag;
  }

  lemma AllocFails(k: Kernel, c: Config, size: Word, flags: Word)
    requires Inv(k, c) && FirstAlloc(k.areas, c.bottom, c.top, size) == 0
    ensures Step(k, c, Alloc(size, flags)) == None
  {
    hide Inv, BackRegion, FirstAlloc;
  }

  lemma AllocStep(k: Kernel, c: Config, size: Word, flags: Word)
    requires Inv(k, c) && IsMem(k.sp.m) && c.pd < NUM_PAGES && c.total <= NUM_PAGES && Managed(flags)
    requires FirstAlloc(k.areas, c.bottom, c.top, size) != 0
    requires FirstAlloc(k.areas, c.bottom, c.top, size) / PAGE_SIZE + NumPagesNeeded(size) <= NUM_PAGES
    ensures var a, n := FirstAlloc(k.areas, c.bottom, c.top, size), NumPagesNeeded(size);
            var o := CoreDoes(k.sp, c.pd, c.total, a / PAGE_SIZE, flags, n);
            Step(k, c, Alloc(size, flags))
            == if o.Done? then Some(Kernel(o.sp, Insert(k.areas, Area(a, n * PAGE_SIZE, flags)))) else None
  {
    hide Inv, BackRegion, BackDevice, FirstAlloc, HasFlag;
  }

  /** A legal request finds a region that the core can back. */
  lemma AllocReady(k: Kernel, c: Config, size: Word, flags: Word)
    requires Inv(k, c) && Legal(k, c, Alloc(size, flags))
    requires FirstAlloc(k.areas, c.bottom, c.top, size) != 0
    ensures Descending(k.areas) && Managed(flags) && !HasFlag(flags, VM_AREA_MMIO)
    ensures IsMem(k.sp.m) && SpaceOk(k.sp, c.pd, c.total) && c.pd < 0x800 && c.total <= NUM_PAGES
    ensures Backed(k.sp, c.pd, c.total, ZoneOf(k.areas, c), OwnedPages(k.areas))
    ensures var a, n := FirstAlloc(k.areas, c.bottom, c.top, size), NumPagesNeeded(size);
            a / PAGE_SIZE + n <= NUM_PAGES
            && CoreReady(k.sp, c.pd, c.total, ZoneOf(k.areas, c), OwnedPages(k.areas), a / PAGE_SIZE, flags, n)
  {
    hide Backed, FirstAlloc, PagesOf, HasFlag, SpaceOk, Descending, FreshPages, DeviceReady, EndsAboveBottom;
    InvGivesSpace(k, c);
    AllocPlace(k, c, size, flags);
  }

  lemma RequestStep(k: Kernel, c: Config, va: Word, size: Word, flags: Word)
    requires Inv(k, c)
    ensures IsMem(k.sp.m) && c.pd < 0x800 && c.total <= NUM_PAGES
    ensures AnyHit(k.areas, va, size) ==>
              Step(k, c, Request(va, size, flags)) == if HasFlag(flags, VM_AREA_MMIO) then Some(k) else None
    ensures !AnyHit(k.areas, va, size) && va / PAGE_SIZE + NumPagesNeeded(size) <= NUM_PAGES ==>
              var n := NumPagesNeeded(size);
              var o := CoreDoes(k.sp, c.pd, c.total, va / PAGE_SIZE, flags, n);
              Step(k, c, Request(va, size, flags))
              == if o.Done? then Some(Kernel(o.sp, Insert(k.areas, Area(va, n * PAGE_SIZE, flags)))) else None
  {
    hide Backed, BackRegion, BackDevice, HasFlag, AnyHit, PagesOf, AreasOk;
    InvGivesSpace(k, c);
  }

  /** A legal request for an address that is not taken suits the core. */
  lemma RequestReady(k: Kernel, c: Config, va: Word, size: Word, flags: Word)
    requires Inv(k, c) && Legal(k, c, Request(va, size, flags)) && !AnyHit(k.areas, va, size)
    ensures Descending(k.areas) && va % PAGE_SIZE == 0
    ensures IsMem(k.sp.m) && SpaceOk(k.sp, c.pd, c.total) && c.pd < 0x800 && c.total <= NUM_PAGES
    ensures Backed(k.sp, c.pd, c.total, ZoneOf(k.areas, c), OwnedPages(k.areas))
    ensures va / PAGE_SIZE + NumPagesNeeded(size) <= NUM_PAGES
    ensures CoreReady(k.sp, c.pd, c.total, ZoneOf(k.areas, c), OwnedPages(k.areas), va / PAGE_SIZE, flags,
                      NumPagesNeeded(size))
  {
    hide Backed, PagesOf, HasFlag, SpaceOk, FreshPages, AnyHit, Clear, DeviceFits, TablesReached, AreasOk;
    InvGivesSpace(k, c);
    NoHitIsClear(k.areas, c, va, size);
    if !HasFlag(flags, VM_AREA_MMIO) { ClearIsFresh(k, c, va, NumPagesNeeded(size)); }
  }
}
