/** Backing whole regions of kernel pages with frames, and releasing them: the part of
    vmalloc and vmalloc_free that touches paging structures and the frame bitmap. */
module Regions {
  import opened Words
  import opened Wrappers
  import opened PagingFormat
  import opened Pmm
  import opened Mmu
  import opened Mapping

  // ----- what the loops compute

  /** map_contiguous_pages: page vp+k goes to frame f+k. */
  ghost function MapRun(sp: Space, pd: nat, total: nat, vp: nat, f: nat, flags: Word, n: nat): (o: Outcome)
    requires IsMem(sp.m) && pd < NUM_PAGES && total <= NUM_PAGES
    requires vp + n <= NUM_PAGES && f + n <= NUM_PAGES
    ensures o.Done? ==> IsMem(o.sp.m)
  {
    if n == 0 then Done(sp)
    else
      var o := MapRun(sp, pd, total, vp, f, flags, n - 1);
      if !o.Done? then o
      else MapPage(o.sp, pd, total, vp + n - 1, (f + n - 1) * PAGE_SIZE, flags)
  }

  /** The fallback of vmalloc_core: one frame per page, wherever it is free. */
  ghost function MapScattered(sp: Space, pd: nat, total: nat, vp: nat, flags: Word, n: nat): (o: Outcome)
    requires IsMem(sp.m) && pd < NUM_PAGES && total <= NUM_PAGES && vp + n <= NUM_PAGES
    ensures o.Done? ==> IsMem(o.sp.m)
  {
    if n == 0 then Done(sp)
    else
      var o := MapScattered(sp, pd, total, vp, flags, n - 1);
      if !o.Done? then o
      else
        match FirstFit(o.sp.used, total, 1)
        case None => NoFrame
        case Some(f) =>
          MapPage(o.sp.(used := o.sp.used + {f}), pd, total, vp + n - 1, f * PAGE_SIZE, flags)
  }

  /** vmalloc_core for a request that is no MMIO: contiguous frames if the allocator has a
      run, single frames otherwise. */
  ghost function BackRegion(sp: Space, pd: nat, total: nat, vp: nat, flags: Word, n: nat): (o: Outcome)
    requires IsMem(sp.m) && pd < NUM_PAGES && total <= NUM_PAGES && vp + n <= NUM_PAGES
    ensures o.Done? ==> IsMem(o.sp.m)
  {
    match FirstFit(sp.used, total, n)
    case Some(f) => MapRun(sp.(used := sp.used + Frames(f, n)), pd, total, vp, f, flags, n)
    case None => MapScattered(sp, pd, total, vp, flags, n)
  }

  /** One round of vmalloc_free's loop: give the frame of page vp back, then zero its PTE.
      None when the page has no table or its frame is not marked used. */
  ghost function FreePage(sp: Space, pd: nat, vp: nat): (r: Option<Space>)
    requires IsMem(sp.m) && pd < NUM_PAGES && vp < NUM_PAGES
    ensures r.Some? ==> IsMem(r.value.m)
  {
    if !PdePresent(sp.m, pd, vp / ENTRIES) then None
    else
      var f := sp.m[GovIndex(sp.m, pd, vp)] / PAGE_SIZE;
      if f !in sp.used then None
      else Some(Space(sp.m[GovIndex(sp.m, pd, vp) := 0], sp.used - {f}))
  }

  ghost function FreeRun(sp: Space, pd: nat, vp: nat, n: nat): (r: Option<Space>)
    requires IsMem(sp.m) && pd < NUM_PAGES && vp + n <= NUM_PAGES
    ensures r.Some? ==> IsMem(r.value.m)
  {
    if n == 0 then Some(sp)
    else
      var r := FreeRun(sp, pd, vp, n - 1);
      if r.None? then None else FreePage(r.value, pd, vp + n - 1)
  }

  // ----- owned pages

  /** A page of the kernel half outside the recursive window and not the directory's. */
  predicate KernelPage(pd: nat, p: int) {
    FIRST_KERNEL_PAGE <= p < NUM_PAGES && p / ENTRIES != RECURSIVE_PDE_IDX && p != FIRST_KERNEL_PAGE + pd
  }

  /** Where owned pages begin, and the pages of devices. */
  datatype Zone = Zone(lo: nat, devices: set<nat>)

  /** The pages P are backed, the devices' pages are mapped to themselves, and what else is
      mapped is known. */
  ghost predicate Backed(sp: Space, pd: nat, total: nat, z: Zone, P: set<nat>) {
    && SpaceOk(sp, pd, total) && Owned(sp, pd, total, P) && DevicesOk(sp.m, pd, z, P)
    && DeviceFramesOk(sp, pd, total, z, P) && LowAliases(sp.m, pd, P) && NoStray(sp.m, pd, z, P)
  }

  /** A page where a device may be: not in the kernel's own 8 MiB, not the directory's frame,
      and where the boot tables show it twice, below the owned pages there too. */
  predicate DevicePage(pd: nat, lo: nat, p: int) {
    && 0 <= p < NUM_PAGES && p / ENTRIES != RECURSIVE_PDE_IDX && p != pd
    && (p >= FIRST_FREE_PAGE
        || (p < FIRST_KERNEL_PAGE && (p < BOOT_SLOTS * ENTRIES ==> p + FIRST_KERNEL_PAGE < lo)))
  }

  ghost predicate DevicesOk(m: seq<Word>, pd: nat, z: Zone, P: set<nat>)
    requires IsMem(m) && pd < NUM_PAGES
  {
    forall p | p in z.devices :: DevicePage(pd, z.lo, p) && p !in P && Trans(m, pd, p) == Some(p)
  }

  /** No owned page has the frame of a device, and the allocator hands none of them out. */
  ghost predicate DeviceFramesOk(sp: Space, pd: nat, total: nat, z: Zone, P: set<nat>)
    requires IsMem(sp.m) && pd < NUM_PAGES && forall p | p in P :: p < NUM_PAGES
  {
    && (forall d | d in z.devices && d < total :: d in sp.used)
    && (forall p | p in P && Trans(sp.m, pd, p).Some? :: Trans(sp.m, pd, p).value !in z.devices)
  }

  /** Every page of P walks to a present frame that is used as data, and no two of them
      share a frame. */
  ghost predicate Owned(sp: Space, pd: nat, total: nat, P: set<nat>)
    requires IsMem(sp.m) && pd < NUM_PAGES
  {
    && (forall p | p in P ::
          && KernelPage(pd, p)
          && Trans(sp.m, pd, p).Some?
          && DataFrame(sp, pd, total, Trans(sp.m, pd, p).value))
    && (forall p, q | p in P && q in P && p != q :: Trans(sp.m, pd, p) != Trans(sp.m, pd, q))
  }

  /** Below the kernel a page is mapped to another frame than itself only where its word
      is that of an owned page: through the tables that the boot maps share. */
  ghost predicate LowAliases(m: seq<Word>, pd: nat, P: set<nat>)
    requires IsMem(m) && pd < NUM_PAGES
  {
    forall p | 0 <= p < FIRST_KERNEL_PAGE && Trans(m, pd, p).Some? && Trans(m, pd, p) != Some(p) ::
      AliasOf(m, pd, P, p)
  }

  /** If the window begins above the doubly mapped boot tables, then beyond them exactly the
      owned pages and those of devices are mapped. */
  ghost predicate NoStray(m: seq<Word>, pd: nat, z: Zone, P: set<nat>)
    requires IsMem(m) && pd < NUM_PAGES
  {
    && (forall p | p in P :: z.lo <= p)
    && (z.lo >= FIRST_FREE_PAGE ==>
          forall p | KernelPage(pd, p) && p >= FIRST_FREE_PAGE && p !in P && p !in z.devices :: Trans(m, pd, p) == None)
  }

  ghost predicate AliasOf(m: seq<Word>, pd: nat, P: set<nat>, p: nat)
    requires IsMem(m) && pd < NUM_PAGES && p < NUM_PAGES
  {
    var k := p + FIRST_KERNEL_PAGE;
    k < NUM_PAGES && k in P && PdePresent(m, pd, k / ENTRIES) && Together(m, pd, k, p)
  }

  ghost predicate DataFrame(sp: Space, pd: nat, total: nat, f: nat)
    requires IsMem(sp.m) && pd < NUM_PAGES
  {
    f in sp.used && 0 < f < total && NotATable(sp.m, pd, f)
  }

  /** Frame f is no device's, and no page of P is mapped to it. */
  ghost predicate Unowned(sp: Space, pd: nat, z: Zone, P: set<nat>, f: nat)
    requires IsMem(sp.m) && pd < NUM_PAGES
  {
    f !in z.devices && forall p | p in P :: p < NUM_PAGES && Trans(sp.m, pd, p) != Some(f)
  }

  /** Two kernel pages are never governed by one word. */
  lemma KernelPagesApart(sp: Space, pd: nat, total: nat, p: nat, q: nat)
    requires SpaceOk(sp, pd, total) && KernelPage(pd, p) && KernelPage(pd, q) && p != q
    requires PdePresent(sp.m, pd, p / ENTRIES) && PdePresent(sp.m, pd, q / ENTRIES)
    ensures GovIndex(sp.m, pd, p) != GovIndex(sp.m, pd, q)
  {
    if p < q { GovInjective(sp.m, pd, sp.used, p, q); } else { GovInjective(sp.m, pd, sp.used, q, p); }
  }

  // ----- growing

  /** The page tables that the directory of m' has beyond those of m. */
  ghost function NewTables(m: seq<Word>, m': seq<Word>, pd: nat): set<nat>
    requires IsMem(m) && IsMem(m') && pd < NUM_PAGES
  {
    set d | 0 <= d < ENTRIES && PdePresent(m', pd, d) && !PdePresent(m, pd, d) :: TableOf(m', pd, d)
  }

  /** From sp to sp' the frames F and new page tables became used, and tables stay where they
      are. */
  ghost predicate TablesGrown(sp: Space, sp': Space, pd: nat, F: set<nat>) {
    && IsMem(sp.m) && IsMem(sp'.m) && pd < NUM_PAGES
    && (forall d | 0 <= d < ENTRIES && PdePresent(sp.m, pd, d) ::
          PdePresent(sp'.m, pd, d) && TableOf(sp'.m, pd, d) == TableOf(sp.m, pd, d))
    && sp'.used == sp.used + F + NewTables(sp.m, sp'.m, pd)
    && (forall d | 0 <= d < ENTRIES && PdePresent(sp'.m, pd, d) && !PdePresent(sp.m, pd, d) ::
          TableOf(sp'.m, pd, d) !in sp.used + F)
  }

  /** The pages S were mapped besides, and other kernel pages that had a table keep their
      translation. */
  ghost predicate Grown(sp: Space, sp': Space, pd: nat, S: set<nat>, F: set<nat>) {
    && TablesGrown(sp, sp', pd, F)
    && (forall p | KernelPage(pd, p) && p !in S && PdePresent(sp.m, pd, p / ENTRIES) ::
          Trans(sp'.m, pd, p) == Trans(sp.m, pd, p))
  }

  lemma TablesGrownTwice(a: Space, b: Space, c: Space, pd: nat, F: set<nat>, G: set<nat>)
    requires TablesGrown(a, b, pd, F) && TablesGrown(b, c, pd, G)
    requires forall g | g in G :: g !in b.used
    ensures TablesGrown(a, c, pd, F + G)
  {
    assert NewTables(a.m, c.m, pd) == NewTables(a.m, b.m, pd) + NewTables(b.m, c.m, pd) by {
      forall t | t in NewTables(a.m, b.m, pd) ensures t in NewTables(a.m, c.m, pd) {
        var d :| 0 <= d < ENTRIES && PdePresent(b.m, pd, d) && !PdePresent(a.m, pd, d) && TableOf(b.m, pd, d) == t;
        assert PdePresent(c.m, pd, d) && TableOf(c.m, pd, d) == t;
      }
      forall t | t in NewTables(b.m, c.m, pd) ensures t in NewTables(a.m, c.m, pd) {
        var d :| 0 <= d < ENTRIES && PdePresent(c.m, pd, d) && !PdePresent(b.m, pd, d) && TableOf(c.m, pd, d) == t;
        assert !PdePresent(a.m, pd, d);
      }
      forall t | t in NewTables(a.m, c.m, pd)
        ensures t in NewTables(a.m, b.m, pd) + NewTables(b.m, c.m, pd)
      {
        var d :| 0 <= d < ENTRIES && PdePresent(c.m, pd, d) && !PdePresent(a.m, pd, d) && TableOf(c.m, pd, d) == t;
        if PdePresent(b.m, pd, d) { assert TableOf(b.m, pd, d) == t; }
      }
    }
    forall d | 0 <= d < ENTRIES && PdePresent(c.m, pd, d) && !PdePresent(a.m, pd, d)
      ensures TableOf(c.m, pd, d) !in a.used + (F + G)
    {
      if PdePresent(b.m, pd, d) {
        assert TableOf(b.m, pd, d) in NewTables(a.m, b.m, pd);
      }
    }
  }

  lemma GrownTwice(a: Space, b: Space, c: Space, pd: nat, S: set<nat>, F: set<nat>, T: set<nat>, G: set<nat>)
    requires Grown(a, b, pd, S, F) && Grown(b, c, pd, T, G)
    requires forall g | g in G :: g !in b.used
    ensures Grown(a, c, pd, S + T, F + G)
  {
    TablesGrownTwice(a, b, c, pd, F, G);
  }

  lemma GrownNone(sp: Space, pd: nat)
    requires IsMem(sp.m) && pd < NUM_PAGES
    ensures Grown(sp, sp, pd, {}, {})
  {
    assert NewTables(sp.m, sp.m, pd) == {};
  }

  /** Frames taken before the pages were mapped count as mapped. */
  lemma GrownFrom(sp: Space, F: set<nat>, sp': Space, pd: nat, S: set<nat>)
    requires Grown(sp.(used := sp.used + F), sp', pd, S, {})
    ensures Grown(sp, sp', pd, S, F)
  {
  }

  /** Frames in use as data stay data. */
  lemma GrownKeepsData(sp: Space, sp': Space, pd: nat, total: nat, S: set<nat>, F: set<nat>, f: nat)
    requires Grown(sp, sp', pd, S, F) && DataFrame(sp, pd, total, f)
    ensures DataFrame(sp', pd, total, f)
  {
  }

  /** The directory's own page is governed by none of their words. */
  lemma DirectoryApart(sp: Space, pd: nat, total: nat, q: nat)
    requires SpaceOk(sp, pd, total) && KernelPage(pd, q) && PdePresent(sp.m, pd, q / ENTRIES)
    ensures GovIndex(sp.m, pd, q) != GovIndex(sp.m, pd, FIRST_KERNEL_PAGE + pd)
  {
    var dir := FIRST_KERNEL_PAGE + pd;
    DirectorySlot(sp.m, pd, sp.used);
    if q < dir { GovInjective(sp.m, pd, sp.used, q, dir); } else { GovInjective(sp.m, pd, sp.used, dir, q); }
  }

  lemma KernelMapAllowed(sp: Space, pd: nat, total: nat, vp: nat, f: nat)
    requires SpaceOk(sp, pd, total) && KernelPage(pd, vp) && DataFrame(sp, pd, total, f)
    ensures MapAllowed(sp, pd, total, vp, f * PAGE_SIZE)
  {
    hide PagingOk, Recursive, Trans, NotATable;
    if PdePresent(sp.m, pd, vp / ENTRIES) { DirectoryApart(sp, pd, total, vp); }
  }

  /** Other kernel pages keep their translation, in a slot without a table provided that a new
      table is cleared. */
  lemma KernelMapped(sp: Space, sp': Space, pd: nat, total: nat, vp: nat, f: nat, cleared: bool, p: nat)
    requires SpaceOk(sp', pd, total) && IsMem(sp.m) && KernelPage(pd, vp) && KernelPage(pd, p) && p != vp
    requires Mapped(sp, sp', pd, vp, f, cleared)
    ensures PdePresent(sp.m, pd, p / ENTRIES) || p / ENTRIES != vp / ENTRIES || cleared ==>
              Trans(sp'.m, pd, p) == Trans(sp.m, pd, p)
  {
    hide PagingOk, Trans;
    if PdePresent(sp'.m, pd, p / ENTRIES) { KernelPagesApart(sp', pd, total, vp, p); }
  }

  lemma MappedIsGrown(sp: Space, sp': Space, pd: nat, total: nat, vp: nat, f: nat, cleared: bool)
    requires SpaceOk(sp, pd, total) && SpaceOk(sp', pd, total) && KernelPage(pd, vp)
    requires Mapped(sp, sp', pd, vp, f, cleared)
    ensures Grown(sp, sp', pd, {vp}, {})
  {
    hide PagingOk, Together, Trans, NewTables;
    forall p | KernelPage(pd, p) && p !in {vp} && PdePresent(sp.m, pd, p / ENTRIES)
      ensures Trans(sp'.m, pd, p) == Trans(sp.m, pd, p)
    {
      KernelMapped(sp, sp', pd, total, vp, f, cleared, p);
    }
    NewTablesOfOneSlot(sp.m, sp'.m, pd, vp / ENTRIES);
  }

  lemma GovInjectiveHere(sp: Space, pd: nat, total: nat, p: nat, q: nat)
    requires SpaceOk(sp, pd, total) && p < FIRST_KERNEL_PAGE <= q < NUM_PAGES && PdePresent(sp.m, pd, q / ENTRIES)
    ensures Together(sp.m, pd, q, p) ==> q == p + FIRST_KERNEL_PAGE
  {
    if PdePresent(sp.m, pd, p / ENTRIES) { GovInjective(sp.m, pd, sp.used, p, q); }
  }

  lemma MappedAlias(sp: Space, sp': Space, pd: nat, total: nat, P: set<nat>, vp: nat, f: nat, cleared: bool, p: nat)
    requires SpaceOk(sp, pd, total) && SpaceOk(sp', pd, total) && KernelPage(pd, vp)
    requires Mapped(sp, sp', pd, vp, f, cleared) && p < FIRST_KERNEL_PAGE
    requires Trans(sp.m, pd, p).Some? && Trans(sp.m, pd, p) != Some(p) ==> AliasOf(sp.m, pd, P, p)
    requires Trans(sp'.m, pd, p).Some? && Trans(sp'.m, pd, p) != Some(p)
    ensures AliasOf(sp'.m, pd, P + {vp}, p)
  {
    hide PagingOk;
    GovInjectiveHere(sp', pd, total, p, vp);
    if !Together(sp'.m, pd, vp, p) {
      assert Trans(sp'.m, pd, p) == Trans(sp.m, pd, p);
    }
  }

  lemma MappedKeepsAliases(sp: Space, sp': Space, pd: nat, total: nat, P: set<nat>, vp: nat, f: nat, cleared: bool)
    requires SpaceOk(sp, pd, total) && SpaceOk(sp', pd, total) && KernelPage(pd, vp)
    requires Mapped(sp, sp', pd, vp, f, cleared) && LowAliases(sp.m, pd, P)
    ensures LowAliases(sp'.m, pd, P + {vp})
  {
    hide PagingOk, AliasOf, Trans;
    forall p | 0 <= p < FIRST_KERNEL_PAGE && Trans(sp'.m, pd, p).Some? && Trans(sp'.m, pd, p) != Some(p)
      ensures AliasOf(sp'.m, pd, P + {vp}, p)
    {
      MappedAlias(sp, sp', pd, total, P, vp, f, cleared, p);
    }
  }

  /** With every owned page above the boot tables, the low window is the identity, so a
      table that was added was cleared. */
  lemma LowIsIdentity(sp: Space, pd: nat, total: nat, z: Zone, P: set<nat>, p: nat)
    requires SpaceOk(sp, pd, total) && LowAliases(sp.m, pd, P) && NoStray(sp.m, pd, z, P)
    requires z.lo >= FIRST_FREE_PAGE && p < FIRST_KERNEL_PAGE && Trans(sp.m, pd, p).Some?
    ensures Trans(sp.m, pd, p) == Some(p)
  {
    var k := p + FIRST_KERNEL_PAGE;
    if k < NUM_PAGES && PdePresent(sp.m, pd, k / ENTRIES) {
      GovInjective(sp.m, pd, sp.used, p, k);
    }
  }

  /** With all owned pages beyond the boot tables a table that is missing is cleared. */
  lemma MissingIsCleared(sp: Space, sp': Space, pd: nat, total: nat, z: Zone, P: set<nat>,
                         vp: nat, phys: Word, flags: Word)
    requires SpaceOk(sp, pd, total) && vp < NUM_PAGES && z.lo >= FIRST_FREE_PAGE
    requires LowAliases(sp.m, pd, P) && NoStray(sp.m, pd, z, P)
    requires MapPage(sp, pd, total, vp, phys, flags) == Done(sp')
    ensures PdePresent(sp.m, pd, vp / ENTRIES) || TableWouldBeCleared(sp, pd, total)
  {
    hide PagingOk, LowAliases, NoStray;
    if !PdePresent(sp.m, pd, vp / ENTRIES) {
      LowIsIdentity(sp, pd, total, z, P, FirstFit(sp.used, total, 1).value);
    }
  }

  lemma MappedKeepsNoStray(sp: Space, sp': Space, pd: nat, total: nat, z: Zone, P: set<nat>,
                           vp: nat, f: nat, flags: Word)
    requires SpaceOk(sp, pd, total) && SpaceOk(sp', pd, total) && KernelPage(pd, vp) && z.lo <= vp
    requires LowAliases(sp.m, pd, P) && NoStray(sp.m, pd, z, P) && f < NUM_PAGES
    requires MapPage(sp, pd, total, vp, f * PAGE_SIZE, flags) == Done(sp')
    requires Mapped(sp, sp', pd, vp, f, TableWouldBeCleared(sp, pd, total))
    ensures NoStray(sp'.m, pd, z, P + {vp})
  {
    hide PagingOk, LowAliases, Trans, Together, Mapped, MapPage, TableWouldBeCleared;
    if z.lo >= FIRST_FREE_PAGE {
      MissingIsCleared(sp, sp', pd, total, z, P, vp, f * PAGE_SIZE, flags);
      forall p | KernelPage(pd, p) && p >= FIRST_FREE_PAGE && p !in P + {vp} && p !in z.devices
        ensures Trans(sp'.m, pd, p) == None
      {
        KernelMapped(sp, sp', pd, total, vp, f, TableWouldBeCleared(sp, pd, total), p);
      }
    }
  }

  /** Mapping an owned page shows at no page of a device. */
  lemma MappedKeepsDevices(sp: Space, sp': Space, pd: nat, total: nat, z: Zone, P: set<nat>,
                           vp: nat, f: nat, cleared: bool)
    requires SpaceOk(sp, pd, total) && SpaceOk(sp', pd, total) && KernelPage(pd, vp) && z.lo <= vp
    requires Mapped(sp, sp', pd, vp, f, cleared) && DevicesOk(sp.m, pd, z, P) && vp !in z.devices
    ensures DevicesOk(sp'.m, pd, z, P + {vp})
  {
    hide PagingOk;
    forall p | p in z.devices ensures Trans(sp'.m, pd, p) == Some(p) {
      assert PdePresent(sp.m, pd, p / ENTRIES);
      if Together(sp'.m, pd, vp, p) { DeviceApart(sp', pd, total, z, vp, p); }
    }
  }

  /** An owned page and a device's page are governed by different words. */
  lemma DeviceApart(sp: Space, pd: nat, total: nat, z: Zone, q: nat, p: nat)
    requires SpaceOk(sp, pd, total) && KernelPage(pd, q) && z.lo <= q && DevicePage(pd, z.lo, p) && p != q
    requires PdePresent(sp.m, pd, q / ENTRIES)
    ensures !Together(sp.m, pd, q, p)
  {
    if PdePresent(sp.m, pd, p / ENTRIES) {
      if p < q { GovInjective(sp.m, pd, sp.used, p, q); } else { GovInjective(sp.m, pd, sp.used, q, p); }
    }
  }

  /** Mapping one kernel page to a data frame. */
  lemma MapGrows(sp: Space, sp': Space, pd: nat, total: nat, z: Zone, P: set<nat>, vp: nat, f: nat, flags: Word)
    requires SpaceOk(sp, pd, total) && KernelPage(pd, vp) && DataFrame(sp, pd, total, f)
    requires LowAliases(sp.m, pd, P) && NoStray(sp.m, pd, z, P) && DevicesOk(sp.m, pd, z, P)
    requires z.lo <= vp && vp !in z.devices
    requires MapPage(sp, pd, total, vp, f * PAGE_SIZE, flags) == Done(sp')
    ensures SpaceOk(sp', pd, total) && Grown(sp, sp', pd, {vp}, {})
    ensures PdePresent(sp'.m, pd, vp / ENTRIES) && Trans(sp'.m, pd, vp) == Some(f)
    ensures LowAliases(sp'.m, pd, P + {vp}) && NoStray(sp'.m, pd, z, P + {vp})
    ensures DevicesOk(sp'.m, pd, z, P + {vp})
  {
    hide PagingOk, MapPage, TableWouldBeCleared, MapAllowed, Grown, LowAliases, NoStray, DevicesOk, Mapped;
    KernelMapAllowed(sp, pd, total, vp, f);
    MapPageEffect(sp, sp', pd, total, vp, f * PAGE_SIZE, flags);
    MapKeepsSpace(sp, sp', pd, total, vp, f * PAGE_SIZE, flags);
    MappedIsGrown(sp, sp', pd, total, vp, f, TableWouldBeCleared(sp, pd, total));
    MappedKeepsAliases(sp, sp', pd, total, P, vp, f, TableWouldBeCleared(sp, pd, total));
    MappedKeepsNoStray(sp, sp', pd, total, z, P, vp, f, flags);
    MappedKeepsDevices(sp, sp', pd, total, z, P, vp, f, TableWouldBeCleared(sp, pd, total));
    MappedHere(sp, sp', pd, vp, f, TableWouldBeCleared(sp, pd, total));
  }

  lemma MappedHere(sp: Space, sp': Space, pd: nat, vp: nat, f: nat, cleared: bool)
    requires IsMem(sp.m) && IsMem(sp'.m) && pd < NUM_PAGES && vp < NUM_PAGES
    requires Mapped(sp, sp', pd, vp, f, cleared)
    ensures PdePresent(sp'.m, pd, vp / ENTRIES) && Trans(sp'.m, pd, vp) == Some(f)
  {
  }

  lemma NewTablesOfOneSlot(m: seq<Word>, m': seq<Word>, pd: nat, d: nat)
    requires IsMem(m) && IsMem(m') && pd < NUM_PAGES && d < ENTRIES && PdePresent(m', pd, d)
    requires SameSlots(m, m', pd, if PdePresent(m, pd, d) then -1 else d)
    ensures NewTables(m, m', pd) == if PdePresent(m, pd, d) then {} else {TableOf(m', pd, d)}
  {
    if !PdePresent(m, pd, d) {
      assert TableOf(m', pd, d) in NewTables(m, m', pd);
    }
  }

  // ----- backing a region

  function Pages(vp: nat, n: nat): set<nat> {
    Frames(vp, n)
  }

  ghost function FramesOf(m: seq<Word>, pd: nat, P: set<nat>): set<nat>
    requires IsMem(m) && pd < NUM_PAGES && forall p | p in P :: p < NUM_PAGES
  {
    set p | p in P && Trans(m, pd, p).Some? :: Trans(m, pd, p).value
  }

  /** The pages vp..vp+n-1 are kernel pages from the zone's start on that neither P nor a
      device has yet. */
  ghost predicate FreshPages(pd: nat, z: Zone, P: set<nat>, vp: nat, n: nat) {
    && z.lo <= vp && vp + n <= NUM_PAGES
    && forall p: nat | vp <= p < vp + n :: KernelPage(pd, p) && p !in P && p !in z.devices
  }

  lemma OwnedGrows(sp: Space, sp': Space, pd: nat, total: nat, z: Zone, P: set<nat>, vp: nat, f: nat)
    requires Grown(sp, sp', pd, {vp}, {}) && Owned(sp, pd, total, P) && KernelPage(pd, vp) && vp !in P
    requires DataFrame(sp, pd, total, f) && Unowned(sp, pd, z, P, f) && Trans(sp'.m, pd, vp) == Some(f)
    requires DeviceFramesOk(sp, pd, total, z, P)
    ensures Owned(sp', pd, total, P + {vp}) && DeviceFramesOk(sp', pd, total, z, P + {vp})
    ensures forall p | p in P :: Trans(sp'.m, pd, p) == Trans(sp.m, pd, p)
  {
    forall p | p in P ensures Trans(sp'.m, pd, p) == Trans(sp.m, pd, p) {
      assert PdePresent(sp.m, pd, p / ENTRIES);
    }
    forall p | p in P + {vp}
      ensures Trans(sp'.m, pd, p).Some? && DataFrame(sp', pd, total, Trans(sp'.m, pd, p).value)
    {
      GrownKeepsData(sp, sp', pd, total, {vp}, {}, if p == vp then f else Trans(sp.m, pd, p).value);
    }
  }

  lemma BackOne(sp: Space, sp': Space, pd: nat, total: nat, z: Zone, P: set<nat>, vp: nat, f: nat, flags: Word)
    requires Backed(sp, pd, total, z, P) && KernelPage(pd, vp) && vp !in P && z.lo <= vp && vp !in z.devices
    requires DataFrame(sp, pd, total, f) && Unowned(sp, pd, z, P, f)
    requires MapPage(sp, pd, total, vp, f * PAGE_SIZE, flags) == Done(sp')
    ensures Backed(sp', pd, total, z, P + {vp}) && Grown(sp, sp', pd, {vp}, {})
    ensures Trans(sp'.m, pd, vp) == Some(f)
    ensures forall p | p in P :: Trans(sp'.m, pd, p) == Trans(sp.m, pd, p)
  {
    hide PagingOk, MapPage, NotATable, LowAliases, NoStray, DevicesOk, DeviceFramesOk, Grown;
    MapGrows(sp, sp', pd, total, z, P, vp, f, flags);
    OwnedGrows(sp, sp', pd, total, z, P, vp, f);
  }

  lemma PagesOneMore(P: set<nat>, vp: nat, n: nat)
    requires n > 0
    ensures P + Pages(vp, n) == P + Pages(vp, n - 1) + {vp + n - 1}
    ensures Pages(vp, n) == Pages(vp, n - 1) + {vp + n - 1}
    ensures vp + n - 1 !in Pages(vp, n - 1)
  {
  }

  lemma PagesOneLess(P: set<nat>, vp: nat, n: nat)
    requires n > 0 && forall p | p in Pages(vp, n) :: p in P
    ensures P - Pages(vp, n - 1) - {vp + n - 1} == P - Pages(vp, n)
    ensures vp + n - 1 in P - Pages(vp, n - 1) && forall p | p in Pages(vp, n - 1) :: p in P
    ensures Pages(vp, n) == Pages(vp, n - 1) + {vp + n - 1}
  {
    PagesOneMore({}, vp, n);
    assert vp + n - 1 in Pages(vp, n);
  }

  lemma StillUnowned(sp: Space, s1: Space, pd: nat, z: Zone, P: set<nat>, vp: nat, f: nat, n: nat)
    requires IsMem(sp.m) && IsMem(s1.m) && pd < NUM_PAGES && vp + n <= NUM_PAGES
    requires Unowned(sp, pd, z, P, f + n)
    requires forall p | p in Pages(vp, n) :: Trans(s1.m, pd, p) == Some(f + (p - vp))
    requires forall p | p in P :: Trans(s1.m, pd, p) == Trans(sp.m, pd, p)
    ensures Unowned(s1, pd, z, P + Pages(vp, n), f + n)
  {
  }

  /** After n rounds of a contiguous run. */
  ghost predicate RunBacked(sp: Space, s1: Space, pd: nat, total: nat, z: Zone, P: set<nat>, vp: nat, f: nat, n: nat) {
    && Backed(s1, pd, total, z, P + Pages(vp, n)) && Grown(sp, s1, pd, Pages(vp, n), {})
    && (forall p | p in Pages(vp, n) :: p < NUM_PAGES && Trans(s1.m, pd, p) == Some(f + (p - vp)))
    && (forall p | p in P :: p < NUM_PAGES && Trans(s1.m, pd, p) == Trans(sp.m, pd, p))
  }

  lemma RunBackedNext(sp: Space, s1: Space, s2: Space, pd: nat, total: nat, z: Zone, P: set<nat>,
                      vp: nat, f: nat, flags: Word, n: nat)
    requires n > 0 && RunBacked(sp, s1, pd, total, z, P, vp, f, n - 1)
    requires z.lo <= vp && KernelPage(pd, vp + n - 1) && vp + n - 1 !in P + z.devices
    requires DataFrame(sp, pd, total, f + n - 1) && Unowned(sp, pd, z, P, f + n - 1)
    requires MapPage(s1, pd, total, vp + n - 1, (f + n - 1) * PAGE_SIZE, flags) == Done(s2)
    ensures RunBacked(sp, s2, pd, total, z, P, vp, f, n)
  {
    hide Backed, MapPage, DataFrame, Trans, Grown, Unowned;
    var none: set<nat> := {};
    assert none + none == none;
    GrownUses(sp, s1, pd, Pages(vp, n - 1), none);
    GrownKeepsData(sp, s1, pd, total, Pages(vp, n - 1), none, f + n - 1);
    StillUnowned(sp, s1, pd, z, P, vp, f, n - 1);
    PagesOneMore(P, vp, n);
    BackOne(s1, s2, pd, total, z, P + Pages(vp, n - 1), vp + n - 1, f + n - 1, flags);
    GrownTwice(sp, s1, s2, pd, Pages(vp, n - 1), none, {vp + n - 1}, none);
  }

  lemma RunBackedNone(sp: Space, pd: nat, total: nat, z: Zone, P: set<nat>, vp: nat, f: nat)
    requires Backed(sp, pd, total, z, P)
    ensures RunBacked(sp, sp, pd, total, z, P, vp, f, 0)
  {
    assert P + Pages(vp, 0) == P;
    GrownNone(sp, pd);
  }

  lemma BackedHasSpace(sp: Space, pd: nat, total: nat, z: Zone, P: set<nat>)
    requires Backed(sp, pd, total, z, P)
    ensures IsMem(sp.m) && pd < 0x800 && total <= NUM_PAGES
  {
  }

  /** Contiguous frames that are in use as data and unowned back the region in order. */
  lemma {:induction false} BackRun(sp: Space, sp': Space, pd: nat, total: nat, z: Zone, P: set<nat>,
                                   vp: nat, f: nat, flags: Word, n: nat)
    requires Backed(sp, pd, total, z, P) && FreshPages(pd, z, P, vp, n) && f + n <= total
    requires forall g: nat | f <= g < f + n :: DataFrame(sp, pd, total, g) && Unowned(sp, pd, z, P, g)
    requires MapRun(sp, pd, total, vp, f, flags, n) == Done(sp')
    ensures RunBacked(sp, sp', pd, total, z, P, vp, f, n)
    decreases n
  {
    hide Backed, MapPage, DataFrame, Unowned, RunBacked, KernelPage;
    BackedHasSpace(sp, pd, total, z, P);
    if n == 0 {
      RunBackedNone(sp, pd, total, z, P, vp, f);
    } else {
      var s1 := MapRun(sp, pd, total, vp, f, flags, n - 1).sp;
      BackRun(sp, s1, pd, total, z, P, vp, f, flags, n - 1);
      RunBackedNext(sp, s1, sp', pd, total, z, P, vp, f, flags, n);
    }
  }

  /** Frames handed out by the allocator are data, and no owned page has them. */
  lemma AllocatedFrames(sp: Space, pd: nat, total: nat, z: Zone, P: set<nat>, F: set<nat>)
    requires Backed(sp, pd, total, z, P) && forall f | f in F :: f !in sp.used && f < total
    ensures Backed(sp.(used := sp.used + F), pd, total, z, P)
    ensures forall f | f in F :: DataFrame(sp.(used := sp.used + F), pd, total, f)
                                 && Unowned(sp.(used := sp.used + F), pd, z, P, f)
  {
    var s1 := sp.(used := sp.used + F);
    forall vp | 0 <= vp < FIRST_KERNEL_PAGE ensures LowPageOk(s1.m, pd, s1.used, vp) {
      assert LowPageOk(sp.m, pd, sp.used, vp);
    }
    forall f | f in F ensures DataFrame(s1, pd, total, f) {
      assert NotATable(sp.m, pd, f);
    }
  }

  lemma BackContiguous(sp: Space, sp': Space, pd: nat, total: nat, z: Zone, P: set<nat>,
                       vp: nat, f: nat, flags: Word, n: nat)
    requires Backed(sp, pd, total, z, P) && FreshPages(pd, z, P, vp, n)
    requires FirstFit(sp.used, total, n) == Some(f) && f + n <= total
    requires MapRun(sp.(used := sp.used + Frames(f, n)), pd, total, vp, f, flags, n) == Done(sp')
    ensures Backed(sp', pd, total, z, P + Pages(vp, n))
    ensures FramesOf(sp'.m, pd, Pages(vp, n)) == Frames(f, n)
    ensures Grown(sp, sp', pd, Pages(vp, n), Frames(f, n))
    ensures forall g | g in Frames(f, n) :: g !in sp.used
    ensures forall p | p in P :: Trans(sp'.m, pd, p) == Trans(sp.m, pd, p)
  {
    hide PagingOk, MapPage, NotATable, MapRun, Grown;
    var F := Frames(f, n);
    var s0 := sp.(used := sp.used + F);
    AllocatedFrames(sp, pd, total, z, P, F);
    BackRun(s0, sp', pd, total, z, P, vp, f, flags, n);
    GrownFrom(sp, F, sp', pd, Pages(vp, n));
    forall g | g in F ensures g in FramesOf(sp'.m, pd, Pages(vp, n)) {
      assert vp + (g - f) in Pages(vp, n);
    }
  }

  /** After n rounds of the fallback. */
  ghost predicate ScatterBacked(sp: Space, s1: Space, pd: nat, total: nat, z: Zone, P: set<nat>, vp: nat, n: nat) {
    && Backed(s1, pd, total, z, P + Pages(vp, n))
    && Grown(sp, s1, pd, Pages(vp, n), FramesOf(s1.m, pd, Pages(vp, n)))
    && (forall g | g in FramesOf(s1.m, pd, Pages(vp, n)) :: g !in sp.used)
    && (forall p | p in P :: p < NUM_PAGES && Trans(s1.m, pd, p) == Trans(sp.m, pd, p))
  }

  lemma ScatterBackedNext(sp: Space, s1: Space, s2: Space, pd: nat, total: nat, z: Zone, P: set<nat>,
                          vp: nat, f: nat, flags: Word, n: nat)
    requires n > 0 && ScatterBacked(sp, s1, pd, total, z, P, vp, n - 1)
    requires z.lo <= vp && KernelPage(pd, vp + n - 1) && vp + n - 1 !in P + z.devices && f !in s1.used && f < total
    requires MapPage(s1.(used := s1.used + {f}), pd, total, vp + n - 1, f * PAGE_SIZE, flags) == Done(s2)
    ensures ScatterBacked(sp, s2, pd, total, z, P, vp, n)
  {
    hide Backed, MapPage, DataFrame, Trans, Grown, Unowned, FramesOf;
    var Q, p := P + Pages(vp, n - 1), vp + n - 1;
    BackedHasSpace(s1, pd, total, z, Q);
    AllocatedFrames(s1, pd, total, z, Q, {f});
    PagesOneMore(P, vp, n);
    BackOne(s1.(used := s1.used + {f}), s2, pd, total, z, Q, p, f, flags);
    GrownFrom(s1, {f}, s2, pd, {p});
    GrownTwice(sp, s1, s2, pd, Pages(vp, n - 1), FramesOf(s1.m, pd, Pages(vp, n - 1)), {p}, {f});
    FramesOfOneMore(s1.m, s2.m, pd, Pages(vp, n - 1), p, f);
    GrownUses(sp, s1, pd, Pages(vp, n - 1), FramesOf(s1.m, pd, Pages(vp, n - 1)));
  }

  lemma ScatterBackedNone(sp: Space, pd: nat, total: nat, z: Zone, P: set<nat>, vp: nat)
    requires Backed(sp, pd, total, z, P)
    ensures ScatterBacked(sp, sp, pd, total, z, P, vp, 0)
  {
    assert P + Pages(vp, 0) == P;
    assert FramesOf(sp.m, pd, Pages(vp, 0)) == {};
    GrownNone(sp, pd);
  }

  /** The fallback: each page gets a frame of its own, wherever one is free. */
  lemma {:induction false} BackScattered(sp: Space, sp': Space, pd: nat, total: nat, z: Zone, P: set<nat>,
                                         vp: nat, flags: Word, n: nat)
    requires Backed(sp, pd, total, z, P) && FreshPages(pd, z, P, vp, n)
    requires MapScattered(sp, pd, total, vp, flags, n) == Done(sp')
    ensures ScatterBacked(sp, sp', pd, total, z, P, vp, n)
    decreases n
  {
    hide Backed, ScatterBacked, KernelPage, MapScattered, MapPage;
    BackedHasSpace(sp, pd, total, z, P);
    if n == 0 {
      NoneScattered(sp, pd, total, vp, flags);
      ScatterBackedNone(sp, pd, total, z, P, vp);
    } else {
      var s1, f := LastScatter(sp, sp', pd, total, vp, flags, n);
      BackScattered(sp, s1, pd, total, z, P, vp, flags, n - 1);
      ScatterBackedNext(sp, s1, sp', pd, total, z, P, vp, f, flags, n);
    }
  }

  lemma NoneScattered(sp: Space, pd: nat, total: nat, vp: nat, flags: Word)
    requires IsMem(sp.m) && pd < NUM_PAGES && total <= NUM_PAGES && vp <= NUM_PAGES
    ensures MapScattered(sp, pd, total, vp, flags, 0) == Done(sp)
  {
  }

  lemma LastScatter(sp: Space, sp': Space, pd: nat, total: nat, vp: nat, flags: Word, n: nat)
    returns (s1: Space, f: nat)
    requires IsMem(sp.m) && pd < NUM_PAGES && total <= NUM_PAGES && vp + n <= NUM_PAGES && n > 0
    requires MapScattered(sp, pd, total, vp, flags, n) == Done(sp')
    ensures MapScattered(sp, pd, total, vp, flags, n - 1) == Done(s1)
    ensures FirstFit(s1.used, total, 1) == Some(f) && f !in s1.used && f < total
    ensures MapPage(s1.(used := s1.used + {f}), pd, total, vp + n - 1, f * PAGE_SIZE, flags) == Done(sp')
  {
    hide MapPage;
    s1 := MapScattered(sp, pd, total, vp, flags, n - 1).sp;
    f := FirstFit(s1.used, total, 1).value;
    FirstFitIsFree(s1.used, total, 1);
  }

  lemma GrownUses(sp: Space, sp': Space, pd: nat, S: set<nat>, F: set<nat>)
    requires Grown(sp, sp', pd, S, F)
    ensures IsMem(sp.m) && IsMem(sp'.m) && pd < NUM_PAGES && sp.used <= sp'.used
  {
  }

  lemma FramesOfOneMore(m: seq<Word>, m': seq<Word>, pd: nat, P: set<nat>, p: nat, f: nat)
    requires IsMem(m) && IsMem(m') && pd < NUM_PAGES && p < NUM_PAGES && forall q | q in P :: q < NUM_PAGES
    requires Trans(m', pd, p) == Some(f) && forall q | q in P :: Trans(m', pd, q) == Trans(m, pd, q)
    ensures FramesOf(m', pd, P + {p}) == FramesOf(m, pd, P) + {f}
  {
    assert p in P + {p};
    forall g | g in FramesOf(m, pd, P) ensures g in FramesOf(m', pd, P + {p}) {
      var q :| q in P && Trans(m, pd, q) == Some(g);
      assert q in P + {p};
    }
  }

  /** Backing a fresh region succeeds only by giving each of its pages a frame of its own
      that was free before. The owned pages keep theirs, and besides the region's frames
      only new page tables became used. */
  lemma BackRegionOk(sp: Space, sp': Space, pd: nat, total: nat, z: Zone, P: set<nat>,
                     vp: nat, flags: Word, n: nat)
    requires Backed(sp, pd, total, z, P) && FreshPages(pd, z, P, vp, n)
    requires BackRegion(sp, pd, total, vp, flags, n) == Done(sp')
    ensures Backed(sp', pd, total, z, P + Pages(vp, n))
    ensures Grown(sp, sp', pd, Pages(vp, n), FramesOf(sp'.m, pd, Pages(vp, n)))
    ensures forall g | g in FramesOf(sp'.m, pd, Pages(vp, n)) :: g !in sp.used
    ensures forall p | p in P :: Trans(sp'.m, pd, p) == Trans(sp.m, pd, p)
  {
    match FirstFit(sp.used, total, n)
    case Some(f) => BackContiguous(sp, sp', pd, total, z, P, vp, f, flags, n);
    case None => BackScattered(sp, sp', pd, total, z, P, vp, flags, n);
  }

  // ----- releasing a region

  /** Page q and the low page that shares its word, if any, are unmapped; nothing else
      changes its translation. */
  lemma UnmapOne(sp: Space, pd: nat, total: nat, z: Zone, P: set<nat>, q: nat)
    requires Backed(sp, pd, total, z, P) && q in P
    ensures KernelPage(pd, q) && PdePresent(sp.m, pd, q / ENTRIES) && Trans(sp.m, pd, q).Some?
    ensures var m' := sp.m[GovIndex(sp.m, pd, q) := 0];
            && SameSlots(sp.m, m', pd, -1)
            && Trans(m', pd, q) == None
            && (forall p | KernelPage(pd, p) && p != q :: Trans(m', pd, p) == Trans(sp.m, pd, p))
            && (forall p | 0 <= p < FIRST_KERNEL_PAGE ::
                  Trans(m', pd, p) == if Together(sp.m, pd, q, p) then None else Trans(sp.m, pd, p))
            && Trans(m', pd, FIRST_KERNEL_PAGE + pd) == Some(pd)
  {
    StorePte(sp.m, pd, sp.used, q, 0);
    DirectoryApart(sp, pd, total, q);
    forall p | KernelPage(pd, p) && p != q
      ensures Trans(sp.m[GovIndex(sp.m, pd, q) := 0], pd, p) == Trans(sp.m, pd, p)
    {
      if PdePresent(sp.m, pd, p / ENTRIES) { KernelPagesApart(sp, pd, total, p, q); }
    }
  }

  /** Once q is unmapped, no low page shows the frame it had, except as itself. */
  lemma FrameGone(sp: Space, pd: nat, total: nat, z: Zone, P: set<nat>, q: nat, p: nat)
    requires Backed(sp, pd, total, z, P) && q in P && p < FIRST_KERNEL_PAGE
    requires Trans(sp.m, pd, p) == Trans(sp.m, pd, q) && Trans(sp.m, pd, p) != Some(p)
    ensures Together(sp.m, pd, q, p)
  {
    assert AliasOf(sp.m, pd, P, p);
    assert Trans(sp.m, pd, p + FIRST_KERNEL_PAGE) == Trans(sp.m, pd, p);
  }

  /** Freeing an owned page succeeds: its frame becomes free, the page is unmapped, and
      everything else stays. */
  lemma FreeOne(sp: Space, sp': Space, pd: nat, total: nat, z: Zone, P: set<nat>, q: nat)
    requires Backed(sp, pd, total, z, P) && q in P
    requires sp' == Space(sp.m[GovIndex(sp.m, pd, q) := 0], sp.used - {Trans(sp.m, pd, q).value})
    ensures FreePage(sp, pd, q) == Some(sp')
    ensures Backed(sp', pd, total, z, P - {q})
    ensures SameSlots(sp.m, sp'.m, pd, -1) && Trans(sp'.m, pd, q) == None
    ensures forall p | KernelPage(pd, p) && p != q :: Trans(sp'.m, pd, p) == Trans(sp.m, pd, p)
  {
    hide PagingOk, LowAliases, NotATable, NoStray, Owned, DevicesOk;
    UnmapOne(sp, pd, total, z, P, q);
    FreedDevices(sp, sp', pd, total, z, P, q);
    FreedPagingOk(sp, sp', pd, total, z, P, q);
    FreedAliases(sp, sp', pd, P, q);
    FreedOwned(sp, sp', pd, total, z, P, q);
  }

  lemma FreedDevices(sp: Space, sp': Space, pd: nat, total: nat, z: Zone, P: set<nat>, q: nat)
    requires Backed(sp, pd, total, z, P) && q in P && IsMem(sp'.m)
    requires forall p | KernelPage(pd, p) && p != q :: Trans(sp'.m, pd, p) == Trans(sp.m, pd, p)
    requires forall p | 0 <= p < FIRST_KERNEL_PAGE ::
               Trans(sp'.m, pd, p) == if Together(sp.m, pd, q, p) then None else Trans(sp.m, pd, p)
    ensures DevicesOk(sp'.m, pd, z, P - {q})
  {
    hide PagingOk, LowAliases;
    BackedHasSpace(sp, pd, total, z, P);
    forall p | p in z.devices ensures Trans(sp'.m, pd, p) == Some(p) {
      DeviceApart(sp, pd, total, z, q, p);
    }
  }

  lemma FreedOwned(sp: Space, sp': Space, pd: nat, total: nat, z: Zone, P: set<nat>, q: nat)
    requires IsMem(sp.m) && IsMem(sp'.m) && pd < NUM_PAGES && q in P
    requires Owned(sp, pd, total, P) && NoStray(sp.m, pd, z, P)
    requires sp'.used == sp.used - {Trans(sp.m, pd, q).value} && SameSlots(sp.m, sp'.m, pd, -1)
    requires forall p | KernelPage(pd, p) && p != q :: Trans(sp'.m, pd, p) == Trans(sp.m, pd, p)
    requires Trans(sp'.m, pd, q) == None
    ensures FreePage(sp, pd, q).Some?
    ensures Owned(sp', pd, total, P - {q}) && NoStray(sp'.m, pd, z, P - {q})
  {
    forall p | p in P - {q}
      ensures Trans(sp'.m, pd, p).Some? && DataFrame(sp', pd, total, Trans(sp'.m, pd, p).value)
    {
      assert DataFrame(sp, pd, total, Trans(sp.m, pd, p).value);
    }
  }

  lemma FreedLowPage(sp: Space, sp': Space, pd: nat, total: nat, z: Zone, P: set<nat>, q: nat, p: nat)
    requires Backed(sp, pd, total, z, P) && q in P && p < FIRST_KERNEL_PAGE && IsMem(sp'.m)
    requires sp'.used == sp.used - {Trans(sp.m, pd, q).value} && SameSlots(sp.m, sp'.m, pd, -1)
    requires Trans(sp'.m, pd, p) == if Together(sp.m, pd, q, p) then None else Trans(sp.m, pd, p)
    ensures LowPageOk(sp'.m, pd, sp'.used, p)
  {
    hide LowAliases, NoStray;
    assert LowPageOk(sp.m, pd, sp.used, p);
    var f := Trans(sp.m, pd, q);
    if Trans(sp.m, pd, p) == f && f != Some(p) { FrameGone(sp, pd, total, z, P, q, p); }
  }

  lemma FreedPagingOk(sp: Space, sp': Space, pd: nat, total: nat, z: Zone, P: set<nat>, q: nat)
    requires Backed(sp, pd, total, z, P) && q in P
    requires sp' == Space(sp.m[GovIndex(sp.m, pd, q) := 0], sp.used - {Trans(sp.m, pd, q).value})
    ensures SpaceOk(sp', pd, total)
  {
    hide LowAliases, LowPageOk;
    UnmapOne(sp, pd, total, z, P, q);
    forall p | 0 <= p < FIRST_KERNEL_PAGE ensures LowPageOk(sp'.m, pd, sp'.used, p) {
      FreedLowPage(sp, sp', pd, total, z, P, q, p);
    }
  }

  lemma FreedAliases(sp: Space, sp': Space, pd: nat, P: set<nat>, q: nat)
    requires IsMem(sp.m) && IsMem(sp'.m) && pd < NUM_PAGES && q < NUM_PAGES
    requires LowAliases(sp.m, pd, P) && SameSlots(sp.m, sp'.m, pd, -1)
    requires forall p | 0 <= p < FIRST_KERNEL_PAGE ::
               Trans(sp'.m, pd, p) == if Together(sp.m, pd, q, p) then None else Trans(sp.m, pd, p)
    ensures LowAliases(sp'.m, pd, P - {q})
  {
    forall p | 0 <= p < FIRST_KERNEL_PAGE && Trans(sp'.m, pd, p).Some? && Trans(sp'.m, pd, p) != Some(p)
      ensures AliasOf(sp'.m, pd, P - {q}, p)
    {
      assert AliasOf(sp.m, pd, P, p);
    }
  }

  // ----- a region, freed

  lemma {:induction false} FreeRunOk(sp: Space, pd: nat, total: nat, z: Zone, P: set<nat>, vp: nat, n: nat)
    returns (sp': Space)
    requires Backed(sp, pd, total, z, P) && vp + n <= NUM_PAGES
    requires forall p | p in Pages(vp, n) :: p in P
    ensures FreeRun(sp, pd, vp, n) == Some(sp')
    ensures Backed(sp', pd, total, z, P - Pages(vp, n))
    ensures sp'.used == sp.used - FramesOf(sp.m, pd, Pages(vp, n))
    ensures SameSlots(sp.m, sp'.m, pd, -1)
    ensures forall p | p in Pages(vp, n) :: Trans(sp'.m, pd, p) == None
    ensures forall p | KernelPage(pd, p) && p !in Pages(vp, n) :: Trans(sp'.m, pd, p) == Trans(sp.m, pd, p)
    decreases n
  {
    hide Backed, DataFrame, Trans, FramesOf, FreePage;
    BackedHasSpace(sp, pd, total, z, P);
    if n == 0 {
      sp' := sp;
      FramesOfNone(sp.m, pd, vp);
      assert P - Pages(vp, n) == P;
    } else {
      var s1 := FreeRunOk(sp, pd, total, z, P, vp, n - 1);
      var q := vp + n - 1;
      PagesOneLess(P, vp, n);
      sp' := FreedSpace(s1, pd, total, z, P - Pages(vp, n - 1), q);
      KernelPagesOf(sp, pd, total, z, P);
      FramesOfOneMore(sp.m, sp.m, pd, Pages(vp, n - 1), q, Trans(sp.m, pd, q).value);
    }
  }

  lemma FramesOfNone(m: seq<Word>, pd: nat, vp: nat)
    requires IsMem(m) && pd < NUM_PAGES
    ensures FramesOf(m, pd, Pages(vp, 0)) == {}
  {
  }

  lemma KernelPagesOf(sp: Space, pd: nat, total: nat, z: Zone, P: set<nat>)
    requires Backed(sp, pd, total, z, P)
    ensures forall p | p in P :: KernelPage(pd, p) && Trans(sp.m, pd, p).Some?
  {
  }

  lemma FreedSpace(sp: Space, pd: nat, total: nat, z: Zone, P: set<nat>, q: nat) returns (sp': Space)
    requires Backed(sp, pd, total, z, P) && q in P
    ensures FreePage(sp, pd, q) == Some(sp')
    ensures Backed(sp', pd, total, z, P - {q})
    ensures sp'.used == sp.used - {Trans(sp.m, pd, q).value}
    ensures SameSlots(sp.m, sp'.m, pd, -1) && Trans(sp'.m, pd, q) == None
    ensures forall p | KernelPage(pd, p) && p != q :: Trans(sp'.m, pd, p) == Trans(sp.m, pd, p)
  {
    hide PagingOk, LowAliases, NoStray, DataFrame;
    sp' := Space(sp.m[GovIndex(sp.m, pd, q) := 0], sp.used - {Trans(sp.m, pd, q).value});
    FreeOne(sp, sp', pd, total, z, P, q);
  }

  /** Conservation: backing a region and freeing it again gives back every frame except
      those that became page tables on the way. The region is unmapped, the owned pages are
      as before, and so is every other kernel page whose slot had a table; beyond the boot
      tables this is every page there is. */
  lemma BackThenFree(sp: Space, s1: Space, pd: nat, total: nat, z: Zone, P: set<nat>,
                     vp: nat, flags: Word, n: nat) returns (s2: Space)
    requires Backed(sp, pd, total, z, P) && FreshPages(pd, z, P, vp, n)
    requires BackRegion(sp, pd, total, vp, flags, n) == Done(s1)
    ensures FreeRun(s1, pd, vp, n) == Some(s2)
    ensures Backed(s2, pd, total, z, P)
    ensures s2.used == sp.used + NewTables(sp.m, s2.m, pd)
    ensures forall p | p in Pages(vp, n) :: Trans(s2.m, pd, p) == None
    ensures forall p | KernelPage(pd, p) && p !in Pages(vp, n) && PdePresent(sp.m, pd, p / ENTRIES) ::
              Trans(s2.m, pd, p) == Trans(sp.m, pd, p)
    ensures z.lo >= FIRST_FREE_PAGE ==>
              forall p | KernelPage(pd, p) && p >= FIRST_FREE_PAGE :: Trans(s2.m, pd, p) == Trans(sp.m, pd, p)
  {
    hide BackRegion, FreeRun, SpaceOk, Owned, LowAliases, Trans;
    BackRegionOk(sp, s1, pd, total, z, P, vp, flags, n);
    s2 := FreeRunOk(s1, pd, total, z, P + Pages(vp, n), vp, n);
    assert P + Pages(vp, n) - Pages(vp, n) == P;
    assert NewTables(sp.m, s2.m, pd) == NewTables(sp.m, s1.m, pd);
  }
}
