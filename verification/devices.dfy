/** Mapping device memory: the part of vmalloc_core that marks a region's frames used, if it
    can, and maps each page of the region to itself. */
module Devices {
  import opened Words
  import opened Wrappers
  import opened PagingFormat
  import opened Pmm
  import opened Mmu
  import opened Mapping
  import opened Regions

  /** alloc_requested_pageframe: all of the frames if they end below the last frame and are
      free, none otherwise. */
  ghost function Requested(sp: Space, total: nat, first: nat, n: nat): Space {
    if first + n < total && AllFree(sp.used, first, n) then sp.(used := sp.used + Frames(first, n)) else sp
  }

  /** Afterwards the allocator hands out no frame of the region iff they were all free and end
      below the last frame, or those that exist were all in use: a region that is partly free
      stays so. */
  lemma RequestTakesIff(sp: Space, total: nat, first: nat, n: nat)
    ensures (forall f | f in Frames(first, n) && f < total :: f in Requested(sp, total, first, n).used)
            <==> || (first + n < total && AllFree(sp.used, first, n))
                 || forall f | f in Frames(first, n) && f < total :: f in sp.used
  {
  }

  /** vmalloc_core for device memory. */
  ghost function BackDevice(sp: Space, pd: nat, total: nat, vp: nat, flags: Word, n: nat): (o: Outcome)
    requires IsMem(sp.m) && pd < NUM_PAGES && total <= NUM_PAGES && vp + n <= NUM_PAGES
    ensures o.Done? ==> IsMem(o.sp.m)
  {
    MapRun(Requested(sp, total, vp, n), pd, total, vp, vp, flags, n)
  }

  /** vmalloc_core. */
  ghost function CoreDoes(sp: Space, pd: nat, total: nat, vp: nat, flags: Word, n: nat): (o: Outcome)
    requires IsMem(sp.m) && pd < NUM_PAGES && total <= NUM_PAGES && vp + n <= NUM_PAGES
    ensures o.Done? ==> IsMem(o.sp.m)
  {
    if HasFlag(flags, VM_AREA_MMIO) then BackDevice(sp, pd, total, vp, flags, n)
    else BackRegion(sp, pd, total, vp, flags, n)
  }

  /** Every page table that is missing on the way would be reached by the memset. */
  ghost predicate TablesReached(sp: Space, pd: nat, total: nat, vp: nat, flags: Word, n: nat)
    requires IsMem(sp.m) && pd < NUM_PAGES && total <= NUM_PAGES && vp + n <= NUM_PAGES
  {
    n == 0 || (TablesReached(sp, pd, total, vp, flags, n - 1)
               && var o := MapRun(sp, pd, total, vp, vp, flags, n - 1);
                  o.Done? ==> TableReached(o.sp, pd, total, vp + n - 1))
  }

  /** The pages may be a device's: its frames are no owned page's, and free for no one. */
  ghost predicate DeviceFits(sp: Space, pd: nat, total: nat, z: Zone, P: set<nat>, vp: nat, n: nat)
    requires IsMem(sp.m) && pd < NUM_PAGES
  {
    forall p | p in Pages(vp, n) ::
      && DevicePage(pd, z.lo, p) && p !in P && Unowned(sp, pd, Zone(z.lo, {}), P, p)
      && (p < total ==> p in sp.used)
  }

  function WithDevices(z: Zone, D: set<nat>): Zone {
    z.(devices := z.devices + D)
  }

  /** Pages governed by the word of device page q: only itself matters. */
  lemma DeviceAlone(sp: Space, pd: nat, total: nat, z: Zone, q: nat, p: nat)
    requires SpaceOk(sp, pd, total) && DevicePage(pd, z.lo, q) && p < NUM_PAGES && p != q
    requires p < FIRST_KERNEL_PAGE || p >= FIRST_FREE_PAGE || z.lo <= p || p == FIRST_KERNEL_PAGE + pd
    requires PdePresent(sp.m, pd, q / ENTRIES) && p / ENTRIES != RECURSIVE_PDE_IDX
    ensures !Together(sp.m, pd, q, p)
  {
    hide LowPageOk, NotATable, Recursive, Trans;
    if PdePresent(sp.m, pd, p / ENTRIES) {
      if p < q { GovInjective(sp.m, pd, sp.used, p, q); } else { GovInjective(sp.m, pd, sp.used, q, p); }
    }
  }

  lemma DeviceMapAllowed(sp: Space, pd: nat, total: nat, z: Zone, q: nat)
    requires SpaceOk(sp, pd, total) && DevicePage(pd, z.lo, q) && TableReached(sp, pd, total, q)
    ensures MapAllowed(sp, pd, total, q, q * PAGE_SIZE)
  {
    hide PagingOk, Recursive, NotATable, Together;
    if PdePresent(sp.m, pd, q / ENTRIES) {
      forall p | 0 <= p < FIRST_KERNEL_PAGE && p != q ensures !Together(sp.m, pd, q, p) {
        DeviceAlone(sp, pd, total, z, q, p);
      }
      SpaceHasDirectory(sp, pd, total);
      DeviceAlone(sp, pd, total, z, q, FIRST_KERNEL_PAGE + pd);
    }
  }

  lemma SpaceHasDirectory(sp: Space, pd: nat, total: nat)
    requires SpaceOk(sp, pd, total)
    ensures pd < 0x800 && (FIRST_KERNEL_PAGE + pd) / ENTRIES != RECURSIVE_PDE_IDX
  {
  }

  // ----- one page

  /** Pages whose translation a device mapping leaves alone. */
  predicate Elsewhere(pd: nat, z: Zone, p: int) {
    && 0 <= p < NUM_PAGES && p / ENTRIES != RECURSIVE_PDE_IDX
    && (p < FIRST_KERNEL_PAGE || p >= FIRST_FREE_PAGE || z.lo <= p)
  }

  lemma DeviceMapped(sp: Space, sp': Space, pd: nat, total: nat, z: Zone, q: nat, cleared: bool, p: nat)
    requires SpaceOk(sp', pd, total) && IsMem(sp.m) && DevicePage(pd, z.lo, q) && Elsewhere(pd, z, p) && p != q
    requires Mapped(sp, sp', pd, q, q, cleared)
    ensures PdePresent(sp.m, pd, p / ENTRIES) || p / ENTRIES != q / ENTRIES || cleared ==>
              Trans(sp'.m, pd, p) == Trans(sp.m, pd, p)
  {
    hide PagingOk, Trans, Together;
    DeviceAlone(sp', pd, total, z, q, p);
  }

  /** The device pages Q were mapped from sp to sp': what was there stays. */
  ghost predicate DeviceGrown(sp: Space, sp': Space, pd: nat, z: Zone, Q: set<nat>) {
    && TablesGrown(sp, sp', pd, {})
    && (forall p | Elsewhere(pd, z, p) && p !in Q && PdePresent(sp.m, pd, p / ENTRIES) ::
          Trans(sp'.m, pd, p) == Trans(sp.m, pd, p))
    && (forall q | q in Q :: q < NUM_PAGES && Trans(sp'.m, pd, q) == Some(q))
  }

  lemma DeviceIsGrown(sp: Space, sp': Space, pd: nat, total: nat, z: Zone, q: nat, cleared: bool)
    requires SpaceOk(sp, pd, total) && SpaceOk(sp', pd, total) && DevicePage(pd, z.lo, q)
    requires Mapped(sp, sp', pd, q, q, cleared)
    ensures DeviceGrown(sp, sp', pd, z, {q})
  {
    hide PagingOk, Together, Trans, NewTables;
    forall p | Elsewhere(pd, z, p) && p !in {q} && PdePresent(sp.m, pd, p / ENTRIES)
      ensures Trans(sp'.m, pd, p) == Trans(sp.m, pd, p)
    {
      DeviceMapped(sp, sp', pd, total, z, q, cleared, p);
    }
    NewTablesOfOneSlot(sp.m, sp'.m, pd, q / ENTRIES);
  }

  /** The owned pages keep their frames, and these stay data. */
  lemma DeviceKeepsOwned(sp: Space, sp': Space, pd: nat, total: nat, z: Zone, P: set<nat>, q: nat)
    requires DeviceGrown(sp, sp', pd, z, {q}) && Owned(sp, pd, total, P) && q !in P
    requires forall p | p in P :: z.lo <= p
    ensures Owned(sp', pd, total, P)
    ensures forall p | p in P :: Trans(sp'.m, pd, p) == Trans(sp.m, pd, p)
  {
    hide NotATable, NewTables;
    forall p | p in P
      ensures Trans(sp'.m, pd, p) == Trans(sp.m, pd, p) && DataFrame(sp', pd, total, Trans(sp.m, pd, p).value)
    {
      DeviceKeepsData(sp, sp', pd, total, z, {q}, Trans(sp.m, pd, p).value);
    }
  }

  lemma DeviceKeepsData(sp: Space, sp': Space, pd: nat, total: nat, z: Zone, Q: set<nat>, f: nat)
    requires DeviceGrown(sp, sp', pd, z, Q) && DataFrame(sp, pd, total, f)
    ensures DataFrame(sp', pd, total, f)
  {
  }

  lemma DeviceKeepsAliases(sp: Space, sp': Space, pd: nat, total: nat, z: Zone, P: set<nat>, q: nat)
    requires SpaceOk(sp, pd, total) && SpaceOk(sp', pd, total) && LowAliases(sp.m, pd, P)
    requires DevicePage(pd, z.lo, q) && TableReached(sp, pd, total, q)
    requires Mapped(sp, sp', pd, q, q, TableWouldBeCleared(sp, pd, total))
    ensures LowAliases(sp'.m, pd, P)
  {
    hide PagingOk, TableWouldBeCleared;
    forall p | 0 <= p < FIRST_KERNEL_PAGE && Trans(sp'.m, pd, p).Some? && Trans(sp'.m, pd, p) != Some(p)
      ensures AliasOf(sp'.m, pd, P, p)
    {
      DeviceMapped(sp, sp', pd, total, z, q, TableWouldBeCleared(sp, pd, total), p);
      assert AliasOf(sp.m, pd, P, p);
    }
  }

  lemma DeviceKeepsNoStray(sp: Space, sp': Space, pd: nat, total: nat, z: Zone, P: set<nat>, q: nat, flags: Word)
    requires SpaceOk(sp, pd, total) && SpaceOk(sp', pd, total) && DevicePage(pd, z.lo, q)
    requires LowAliases(sp.m, pd, P) && NoStray(sp.m, pd, z, P)
    requires MapPage(sp, pd, total, q, q * PAGE_SIZE, flags) == Done(sp')
    requires Mapped(sp, sp', pd, q, q, TableWouldBeCleared(sp, pd, total))
    ensures NoStray(sp'.m, pd, WithDevices(z, {q}), P)
  {
    hide PagingOk, LowAliases, Trans, Together, Mapped;
    if z.lo >= FIRST_FREE_PAGE {
      MissingIsCleared(sp, sp', pd, total, z, P, q, q * PAGE_SIZE, flags);
      forall p | KernelPage(pd, p) && p >= FIRST_FREE_PAGE && p !in P && p !in WithDevices(z, {q}).devices
        ensures Trans(sp'.m, pd, p) == None
      {
        DeviceMapped(sp, sp', pd, total, z, q, TableWouldBeCleared(sp, pd, total), p);
      }
    }
  }

  lemma DeviceKeepsDevices(sp: Space, sp': Space, pd: nat, total: nat, z: Zone, P: set<nat>, q: nat)
    requires DeviceGrown(sp, sp', pd, z, {q}) && DevicesOk(sp.m, pd, z, P) && DevicePage(pd, z.lo, q) && q !in P
    ensures DevicesOk(sp'.m, pd, WithDevices(z, {q}), P)
  {
    hide NewTables;
  }

  /** Mapping one page to itself for a device. */
  lemma DeviceOne(sp: Space, sp': Space, pd: nat, total: nat, z: Zone, P: set<nat>, q: nat, flags: Word)
    requires Backed(sp, pd, total, z, P) && DeviceFits(sp, pd, total, z, P, q, 1)
    requires TableReached(sp, pd, total, q)
    requires MapPage(sp, pd, total, q, q * PAGE_SIZE, flags) == Done(sp')
    ensures Backed(sp', pd, total, WithDevices(z, {q}), P) && DeviceGrown(sp, sp', pd, z, {q})
    ensures forall p | p in P :: Trans(sp'.m, pd, p) == Trans(sp.m, pd, p)
  {
    hide PagingOk, MapPage, TableWouldBeCleared, MapAllowed, TableReached, LowAliases, NoStray, DevicesOk,
         Mapped, Trans, DataFrame, NotATable, NewTables;
    assert q in Pages(q, 1);
    DeviceMapAllowed(sp, pd, total, z, q);
    MapPageEffect(sp, sp', pd, total, q, q * PAGE_SIZE, flags);
    MapKeepsSpace(sp, sp', pd, total, q, q * PAGE_SIZE, flags);
    DeviceIsGrown(sp, sp', pd, total, z, q, TableWouldBeCleared(sp, pd, total));
    DeviceKeepsLists(sp, sp', pd, total, z, P, q, flags);
  }

  lemma DeviceKeepsLists(sp: Space, sp': Space, pd: nat, total: nat, z: Zone, P: set<nat>, q: nat, flags: Word)
    requires Backed(sp, pd, total, z, P) && SpaceOk(sp', pd, total) && DeviceFits(sp, pd, total, z, P, q, 1)
    requires TableReached(sp, pd, total, q) && MapPage(sp, pd, total, q, q * PAGE_SIZE, flags) == Done(sp')
    requires Mapped(sp, sp', pd, q, q, TableWouldBeCleared(sp, pd, total)) && DeviceGrown(sp, sp', pd, z, {q})
    ensures Backed(sp', pd, total, WithDevices(z, {q}), P)
    ensures forall p | p in P :: Trans(sp'.m, pd, p) == Trans(sp.m, pd, p)
  {
    hide PagingOk, MapPage, TableWouldBeCleared, TableReached, LowAliases, Mapped, Trans, DataFrame, NotATable,
         NewTables;
    assert q in Pages(q, 1);
    DeviceKeepsOwned(sp, sp', pd, total, z, P, q);
    DeviceKeepsAliases(sp, sp', pd, total, z, P, q);
    DeviceKeepsNoStray(sp, sp', pd, total, z, P, q, flags);
    DeviceKeepsDevices(sp, sp', pd, total, z, P, q);
  }

  // ----- a region

  lemma DeviceGrownTwice(a: Space, b: Space, c: Space, pd: nat, z: Zone, Q: set<nat>, q: nat)
    requires DeviceGrown(a, b, pd, z, Q) && DeviceGrown(b, c, pd, WithDevices(z, Q), {q}) && q !in Q
    requires forall p | p in Q :: Elsewhere(pd, z, p) && PdePresent(b.m, pd, p / ENTRIES)
    ensures DeviceGrown(a, c, pd, z, Q + {q})
  {
    hide NewTables, Trans;
    var none: set<nat> := {};
    TablesGrownTwice(a, b, c, pd, none, none);
    assert none + none == none;
  }

  /** After n rounds. */
  ghost predicate DeviceBacked(sp: Space, s1: Space, pd: nat, total: nat, z: Zone, P: set<nat>, vp: nat, n: nat) {
    && Backed(s1, pd, total, WithDevices(z, Pages(vp, n)), P) && DeviceGrown(sp, s1, pd, z, Pages(vp, n))
    && (forall p | p in P :: p < NUM_PAGES && Trans(s1.m, pd, p) == Trans(sp.m, pd, p))
  }

  lemma DeviceBackedNone(sp: Space, pd: nat, total: nat, z: Zone, P: set<nat>, vp: nat)
    requires Backed(sp, pd, total, z, P)
    ensures DeviceBacked(sp, sp, pd, total, z, P, vp, 0)
  {
    GrownNone(sp, pd);
    assert WithDevices(z, Pages(vp, 0)) == z;
  }

  /** What suits the whole region suits its last page after the others were mapped. */
  lemma DeviceStillFits(sp: Space, s1: Space, pd: nat, total: nat, z: Zone, P: set<nat>, vp: nat, n: nat)
    requires n > 0 && DeviceBacked(sp, s1, pd, total, z, P, vp, n - 1) && DeviceFits(sp, pd, total, z, P, vp, n)
    ensures DeviceFits(s1, pd, total, WithDevices(z, Pages(vp, n - 1)), P, vp + n - 1, 1)
    ensures vp + n - 1 in Pages(vp, n) && DevicePage(pd, z.lo, vp + n - 1)
    ensures forall p | p in Pages(vp, n - 1) :: Elsewhere(pd, z, p) && PdePresent(s1.m, pd, p / ENTRIES)
  {
    hide Backed, NewTables;
    forall p | p in Pages(vp, n - 1) ensures Elsewhere(pd, z, p) && PdePresent(s1.m, pd, p / ENTRIES) {
      assert p in Pages(vp, n);
      assert Trans(s1.m, pd, p) == Some(p);
    }
    assert vp + n - 1 in Pages(vp, n);
  }

  /** With all owned pages beyond the boot tables the page's table is reached if it is missing. */
  lemma DeviceTableReached(sp: Space, sp': Space, pd: nat, total: nat, z: Zone, P: set<nat>, q: nat, flags: Word)
    requires Backed(sp, pd, total, z, P) && z.lo >= FIRST_FREE_PAGE && DevicePage(pd, z.lo, q)
    requires MapPage(sp, pd, total, q, q * PAGE_SIZE, flags) == Done(sp')
    ensures TableReached(sp, pd, total, q)
  {
    hide PagingOk, MapPage, LowAliases, NoStray, DevicesOk, DeviceFramesOk, Owned, Trans, TableWouldBeCleared;
    MissingIsCleared(sp, sp', pd, total, z, P, q, q * PAGE_SIZE, flags);
  }

  lemma DeviceBackedNext(sp: Space, s1: Space, s2: Space, pd: nat, total: nat, z: Zone, P: set<nat>,
                         vp: nat, flags: Word, n: nat)
    requires IsMem(sp.m) && n > 0
    requires DeviceBacked(sp, s1, pd, total, z, P, vp, n - 1) && DeviceFits(sp, pd, total, z, P, vp, n)
    requires IsMem(s1.m) && pd < NUM_PAGES && total <= NUM_PAGES && vp + n <= NUM_PAGES
    requires z.lo >= FIRST_FREE_PAGE || TableReached(s1, pd, total, vp + n - 1)
    requires MapPage(s1, pd, total, vp + n - 1, (vp + n - 1) * PAGE_SIZE, flags) == Done(s2)
    ensures DeviceBacked(sp, s2, pd, total, z, P, vp, n)
  {
    hide Backed, MapPage, Trans, DeviceGrown, DeviceFits, TableReached;
    var z1, q := WithDevices(z, Pages(vp, n - 1)), vp + n - 1;
    DeviceStillFits(sp, s1, pd, total, z, P, vp, n);
    if z.lo >= FIRST_FREE_PAGE { DeviceTableReached(s1, s2, pd, total, z1, P, q, flags); }
    DeviceOne(s1, s2, pd, total, z1, P, q, flags);
    PagesOneMore({}, vp, n);
    DeviceGrownTwice(sp, s1, s2, pd, z, Pages(vp, n - 1), q);
    assert WithDevices(z1, {q}) == WithDevices(z, Pages(vp, n)) by {
      assert z.devices + Pages(vp, n - 1) + {q} == z.devices + Pages(vp, n);
    }
  }

  lemma {:induction false} DeviceRun(sp: Space, sp': Space, pd: nat, total: nat, z: Zone, P: set<nat>,
                                     vp: nat, flags: Word, n: nat)
    requires Backed(sp, pd, total, z, P) && IsMem(sp.m) && pd < NUM_PAGES && total <= NUM_PAGES && vp + n <= NUM_PAGES
    requires DeviceFits(sp, pd, total, z, P, vp, n)
    requires z.lo >= FIRST_FREE_PAGE || TablesReached(sp, pd, total, vp, flags, n)
    requires MapRun(sp, pd, total, vp, vp, flags, n) == Done(sp')
    ensures DeviceBacked(sp, sp', pd, total, z, P, vp, n)
    decreases n
  {
    hide Backed, MapPage, DeviceBacked, DeviceFits, TableReached;
    if n == 0 {
      DeviceBackedNone(sp, pd, total, z, P, vp);
    } else {
      var s1 := MapRun(sp, pd, total, vp, vp, flags, n - 1).sp;
      FewerFit(sp, pd, total, z, P, vp, n);
      DeviceRun(sp, s1, pd, total, z, P, vp, flags, n - 1);
      DeviceBackedNext(sp, s1, sp', pd, total, z, P, vp, flags, n);
    }
  }

  lemma FewerFit(sp: Space, pd: nat, total: nat, z: Zone, P: set<nat>, vp: nat, n: nat)
    requires IsMem(sp.m) && pd < NUM_PAGES && n > 0 && DeviceFits(sp, pd, total, z, P, vp, n)
    ensures DeviceFits(sp, pd, total, z, P, vp, n - 1)
  {
    forall p | p in Pages(vp, n - 1) ensures p in Pages(vp, n) {
    }
  }

  /** The region's frames may be marked used first: then the allocator hands none of them
      out again. */
  lemma RequestedIsBacked(sp: Space, pd: nat, total: nat, z: Zone, P: set<nat>, first: nat, n: nat)
    requires Backed(sp, pd, total, z, P)
    ensures Backed(Requested(sp, total, first, n), pd, total, z, P)
  {
    hide Backed;
    if first + n < total && AllFree(sp.used, first, n) {
      AllocatedFrames(sp, pd, total, z, P, Frames(first, n));
    }
  }

  /** Backing a device's region: every page is mapped to itself, the owned pages keep their
      frames, no owned page and no later allocation shares a frame with the device, and
      besides the region's own frames only new page tables became used. */
  lemma BackDeviceOk(sp: Space, sp': Space, pd: nat, total: nat, z: Zone, P: set<nat>,
                     vp: nat, flags: Word, n: nat)
    requires Backed(sp, pd, total, z, P) && IsMem(sp.m) && pd < NUM_PAGES && total <= NUM_PAGES && vp + n <= NUM_PAGES
    requires DeviceFits(Requested(sp, total, vp, n), pd, total, z, P, vp, n)
    requires z.lo >= FIRST_FREE_PAGE || TablesReached(Requested(sp, total, vp, n), pd, total, vp, flags, n)
    requires BackDevice(sp, pd, total, vp, flags, n) == Done(sp')
    ensures Backed(sp', pd, total, WithDevices(z, Pages(vp, n)), P)
    ensures DeviceGrown(Requested(sp, total, vp, n), sp', pd, z, Pages(vp, n))
    ensures forall p | p in P :: Trans(sp'.m, pd, p) == Trans(sp.m, pd, p)
  {
    hide Backed, MapRun, DeviceFits, TablesReached, DeviceGrown;
    RequestedIsBacked(sp, pd, total, z, P, vp, n);
    DeviceRun(Requested(sp, total, vp, n), sp', pd, total, z, P, vp, flags, n);
  }
}
