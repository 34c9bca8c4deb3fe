/** When memory is backed, and with which frames: what a region's pages and missing page tables
    cost, and the exact condition under which vmalloc_core succeeds. */
module Backing {
  import opened Words
  import opened Wrappers
  import opened PagingFormat
  import opened Pmm
  import opened FrameSupply
  import opened Mmu
  import opened Mapping
  import opened Regions
  import opened Devices

  // ----- what a region takes

  /** Page vp+k is the first of its region in a slot that has no table. */
  ghost predicate NeedsTable(m: seq<Word>, pd: nat, vp: nat, k: nat)
    requires IsMem(m) && pd < NUM_PAGES && vp + k < NUM_PAGES
  {
    !PdePresent(m, pd, (vp + k) / ENTRIES) && (k == 0 || (vp + k) % ENTRIES == 0)
  }

  /** The page tables missing for the first n pages. */
  ghost function TablesNeeded(m: seq<Word>, pd: nat, vp: nat, n: nat): nat
    requires IsMem(m) && pd < NUM_PAGES && vp + n <= NUM_PAGES
  {
    if n == 0 then 0 else TablesNeeded(m, pd, vp, n - 1) + if NeedsTable(m, pd, vp, n - 1) then 1 else 0
  }

  /** Once the first k pages are mapped, so is the page at frame t's own address. */
  ghost predicate Reached(m: seq<Word>, pd: nat, vp: nat, k: nat, t: nat)
    requires IsMem(m) && pd < NUM_PAGES && vp + k <= NUM_PAGES
  {
    && t < FIRST_KERNEL_PAGE
    && (Trans(m, pd, t).Some?
        || exists q: nat | vp <= q < vp + k :: PdePresent(m, pd, q / ENTRIES) && Together(m, pd, q, t))
  }

  /** The frames that k pages take, if they take frames of their own. */
  function Lead(own: bool, k: nat): nat {
    if own then k else 0
  }

  /** The frame that is next when page vp+k needs a table exists and can be cleared. */
  ghost predicate TableServed(m: seq<Word>, pd: nat, vp: nat, k: nat, S: set<nat>, own: bool)
    requires IsMem(m) && pd < NUM_PAGES && vp + k < NUM_PAGES
  {
    var i := Lead(own, k + 1) + TablesNeeded(m, pd, vp, k);
    i < |S| && Reached(m, pd, vp, k, Nth(S, i))
  }

  /** The frames S suffice for the region's missing tables, and for its pages if they take
      their own one at a time. */
  ghost predicate Enough(m: seq<Word>, pd: nat, vp: nat, n: nat, S: set<nat>, own: bool)
    requires IsMem(m) && pd < NUM_PAGES && vp + n <= NUM_PAGES
  {
    && Lead(own, n) + TablesNeeded(m, pd, vp, n) <= |S|
    && forall k: nat | k < n && NeedsTable(m, pd, vp, k) :: TableServed(m, pd, vp, k, S, own)
  }

  lemma EnoughStep(m: seq<Word>, pd: nat, vp: nat, n: nat, S: set<nat>, own: bool)
    requires IsMem(m) && pd < NUM_PAGES && vp + n < NUM_PAGES
    ensures Enough(m, pd, vp, n + 1, S, own)
            <==> && Enough(m, pd, vp, n, S, own)
                 && Lead(own, n + 1) + TablesNeeded(m, pd, vp, n) <= |S|
                 && (NeedsTable(m, pd, vp, n) ==> TableServed(m, pd, vp, n, S, own))
  {
    hide NeedsTable, Reached;
  }

  // ----- along the loop

  predicate InSlots(vp: nat, k: nat, d: nat) {
    k > 0 && vp / ENTRIES <= d <= (vp + k - 1) / ENTRIES
  }

  /** After k pages: which slots have tables, which frames can still be taken, and which free
      frames can be cleared. */
  ghost predicate Progress(sp: Space, s: Space, pd: nat, total: nat, vp: nat, k: nat, own: bool)
    requires IsMem(sp.m) && IsMem(s.m) && pd < NUM_PAGES && vp + k <= NUM_PAGES
  {
    && (forall d | 0 <= d < ENTRIES :: PdePresent(s.m, pd, d) <==> PdePresent(sp.m, pd, d) || InSlots(vp, k, d))
    && Supplied(sp, s, total, Lead(own, k) + TablesNeeded(sp.m, pd, vp, k))
    && forall t: nat | t < FIRST_KERNEL_PAGE && t < total && t !in sp.used ::
         Trans(s.m, pd, t).Some? <==> Reached(sp.m, pd, vp, k, t)
  }

  /** Of the frames that sp could still hand out the i least are gone. */
  ghost predicate Supplied(sp: Space, s: Space, total: nat, i: nat) {
    i <= |Takeable(sp.used, total)| && Takeable(s.used, total) == Rest(Takeable(sp.used, total), i)
  }

  lemma NoProgress(sp: Space, pd: nat, total: nat, vp: nat, own: bool)
    requires IsMem(sp.m) && pd < NUM_PAGES && vp <= NUM_PAGES
    ensures Progress(sp, sp, pd, total, vp, 0, own)
  {
    hide Trans;
  }

  /** The next frame, and the supply once it is taken. */
  lemma NextFrame(sp: Space, s: Space, total: nat, i: nat)
    requires Supplied(sp, s, total, i)
    ensures FirstFit(s.used, total, 1)
            == if i < |Takeable(sp.used, total)| then Some(Nth(Takeable(sp.used, total), i)) else None
    ensures i < |Takeable(sp.used, total)| ==>
              Supplied(sp, s.(used := s.used + {Nth(Takeable(sp.used, total), i)}), total, i + 1)
              && Nth(Takeable(sp.used, total), i) in Takeable(sp.used, total)
              && Nth(Takeable(sp.used, total), i) < total
  {
    hide FirstFit;
    TakeOne(s.used, total);
  }

  lemma SuppliedAlike(sp: Space, s: Space, s': Space, total: nat, i: nat)
    requires Supplied(sp, s, total, i) && s'.used == s.used
    ensures Supplied(sp, s', total, i)
  {
  }

  lemma SlotOfNext(sp: Space, s: Space, pd: nat, total: nat, vp: nat, k: nat, own: bool)
    requires IsMem(sp.m) && IsMem(s.m) && pd < NUM_PAGES && vp + k < NUM_PAGES
    requires Progress(sp, s, pd, total, vp, k, own)
    ensures PdePresent(s.m, pd, (vp + k) / ENTRIES) <==> !NeedsTable(sp.m, pd, vp, k)
    ensures forall d | 0 <= d < ENTRIES :: InSlots(vp, k + 1, d) <==> InSlots(vp, k, d) || d == (vp + k) / ENTRIES
  {
    hide Supplied, Reached, Trans;
    SlotGoesOn(vp, k);
  }

  lemma SlotGoesOn(vp: nat, k: nat)
    ensures k > 0 ==>
              (vp + k) / ENTRIES == (vp + k - 1) / ENTRIES + (if (vp + k) % ENTRIES == 0 then 1 else 0)
    ensures vp / ENTRIES <= (vp + k) / ENTRIES
  {
  }

  lemma FreeFrameReached(sp: Space, s: Space, pd: nat, total: nat, vp: nat, k: nat, t: nat)
    requires IsMem(sp.m) && IsMem(s.m) && pd < NUM_PAGES && vp + k <= NUM_PAGES
    requires forall t: nat | t < FIRST_KERNEL_PAGE && t < total && t !in sp.used ::
               Trans(s.m, pd, t).Some? <==> Reached(sp.m, pd, vp, k, t)
    requires t in Takeable(sp.used, total)
    ensures t < FIRST_KERNEL_PAGE && Trans(s.m, pd, t).Some? <==> Reached(sp.m, pd, vp, k, t)
  {
    hide Trans;
  }

  /** One page: it is mapped iff its table is there, or the next frame can be one. */
  lemma RoundSucceedsIff(sp: Space, s: Space, pd: nat, total: nat, vp: nat, k: nat, own: bool, i: nat,
                         phys: Word, flags: Word)
    requires IsMem(sp.m) && IsMem(s.m) && pd < NUM_PAGES && total <= NUM_PAGES && vp + k < NUM_PAGES
    requires PdePresent(s.m, pd, (vp + k) / ENTRIES) <==> !NeedsTable(sp.m, pd, vp, k)
    requires i == Lead(own, k + 1) + TablesNeeded(sp.m, pd, vp, k) && Supplied(sp, s, total, i)
    requires forall t: nat | t < FIRST_KERNEL_PAGE && t < total && t !in sp.used ::
               Trans(s.m, pd, t).Some? <==> Reached(sp.m, pd, vp, k, t)
    ensures MapPage(s, pd, total, vp + k, phys, flags).Done?
            <==> NeedsTable(sp.m, pd, vp, k) ==> TableServed(sp.m, pd, vp, k, Takeable(sp.used, total), own)
    ensures MapPage(s, pd, total, vp + k, phys, flags).Done? ==>
              Supplied(sp, MapPage(s, pd, total, vp + k, phys, flags).sp, total,
                       i + if NeedsTable(sp.m, pd, vp, k) then 1 else 0)
  {
    hide MapPage, FirstFit, Trans, NeedsTable, Supplied, Reached, Takeable, Nth, PdePresent, TablesNeeded, Lead;
    MapPageSucceedsIff(s, pd, total, vp + k, phys, flags);
    NextFrame(sp, s, total, i);
    var S, o := Takeable(sp.used, total), MapPage(s, pd, total, vp + k, phys, flags);
    if NeedsTable(sp.m, pd, vp, k) {
      if i < |S| {
        FreeFrameReached(sp, s, pd, total, vp, k, Nth(S, i));
        if o.Done? { SuppliedAlike(sp, s.(used := s.used + {Nth(S, i)}), o.sp, total, i + 1); }
      }
    } else {
      SuppliedAlike(sp, s, o.sp, total, i);
    }
  }

  // ----- which low pages are shown

  /** The page that was mapped governs low page t too, through a table that was there before. */
  ghost predicate Shows(m: seq<Word>, pd: nat, q: nat, t: nat)
    requires IsMem(m) && pd < NUM_PAGES && q < NUM_PAGES && t < NUM_PAGES
  {
    PdePresent(m, pd, q / ENTRIES) && Together(m, pd, q, t)
  }

  lemma ReachedNext(m: seq<Word>, pd: nat, vp: nat, k: nat, t: nat)
    requires IsMem(m) && pd < NUM_PAGES && vp + k < NUM_PAGES && t < FIRST_KERNEL_PAGE
    ensures Reached(m, pd, vp, k + 1, t) <==> Reached(m, pd, vp, k, t) || Shows(m, pd, vp + k, t)
  {
    hide Trans, Together;
  }

  /** Mapping kernel page q maps low page t iff they share a word of an old table. */
  lemma KernelShows(sp: Space, s1: Space, s2: Space, pd: nat, total: nat, F: set<nat>, q: nat, f: nat,
                    cleared: bool, t: nat)
    requires SpaceOk(sp, pd, total) && SpaceOk(s1, pd, total) && SpaceOk(s2, pd, total)
    requires KernelPage(pd, q) && t < FIRST_KERNEL_PAGE && Mapped(s1, s2, pd, q, f, cleared)
    requires TablesGrown(sp, s2, pd, F) && (PdePresent(s2.m, pd, t / ENTRIES) ==> PdePresent(sp.m, pd, t / ENTRIES))
    ensures Trans(s2.m, pd, t).Some? <==> Trans(s1.m, pd, t).Some? || Shows(sp.m, pd, q, t)
  {
    hide LowPageOk, NotATable, Recursive, Trans, NewTables;
    assert q / ENTRIES != t / ENTRIES;
    SharedIsOld(sp, s2, pd, total, F, q, t);
  }

  lemma SharedIsOld(sp: Space, s2: Space, pd: nat, total: nat, F: set<nat>, q: nat, t: nat)
    requires SpaceOk(sp, pd, total) && SpaceOk(s2, pd, total) && KernelPage(pd, q) && t < FIRST_KERNEL_PAGE
    requires PdePresent(s2.m, pd, q / ENTRIES) && TablesGrown(sp, s2, pd, F)
    requires PdePresent(s2.m, pd, t / ENTRIES) ==> PdePresent(sp.m, pd, t / ENTRIES)
    ensures Together(s2.m, pd, q, t) <==> Shows(sp.m, pd, q, t)
  {
    hide LowPageOk, NotATable, Recursive, Trans, NewTables;
    if PdePresent(sp.m, pd, q / ENTRIES) {
      assert TableOf(s2.m, pd, q / ENTRIES) == TableOf(sp.m, pd, q / ENTRIES);
    } else if Together(s2.m, pd, q, t) {
      GovParts(s2.m, pd, q);
      GovParts(s2.m, pd, t);
      assert false;
    }
  }

  /** Which slots have tables after one page more. */
  lemma SlotsNext(sp: Space, s0: Space, s1: Space, s2: Space, pd: nat, total: nat, vp: nat, k: nat, own: bool,
                  f: nat, cleared: bool)
    requires IsMem(sp.m) && IsMem(s0.m) && IsMem(s2.m) && pd < NUM_PAGES && vp + k < NUM_PAGES && s1.m == s0.m
    requires Progress(sp, s0, pd, total, vp, k, own) && Mapped(s1, s2, pd, vp + k, f, cleared)
    ensures forall d | 0 <= d < ENTRIES ::
              PdePresent(s2.m, pd, d) <==> PdePresent(sp.m, pd, d) || InSlots(vp, k + 1, d)
  {
    hide Supplied, Reached, Trans, NeedsTable, InSlots, Together;
    SlotOfNext(sp, s0, pd, total, vp, k, own);
  }

  /** The space in which the page is mapped: the frame of its own is taken first. */
  ghost function PageTaken(sp: Space, s0: Space, total: nat, i: nat, own: bool): Space {
    if own && i < |Takeable(sp.used, total)| then s0.(used := s0.used + {Nth(Takeable(sp.used, total), i)}) else s0
  }

  /** The progress after one page more, given which free frames it shows. */
  lemma RoundProgress(sp: Space, s0: Space, s1: Space, s2: Space, pd: nat, total: nat,
                      vp: nat, k: nat, own: bool, f: nat, flags: Word, cleared: bool)
    requires IsMem(sp.m) && IsMem(s0.m) && IsMem(s1.m) && pd < NUM_PAGES && total <= NUM_PAGES
    requires vp + k < NUM_PAGES && f < NUM_PAGES && Progress(sp, s0, pd, total, vp, k, own)
    requires var i := Lead(own, k) + TablesNeeded(sp.m, pd, vp, k);
             && (own ==> i < |Takeable(sp.used, total)|) && s1 == PageTaken(sp, s0, total, i, own)
    requires MapPage(s1, pd, total, vp + k, f * PAGE_SIZE, flags) == Done(s2)
    requires Mapped(s1, s2, pd, vp + k, f, cleared)
    requires forall t: nat | t < FIRST_KERNEL_PAGE && t < total && t !in sp.used ::
               Trans(s2.m, pd, t).Some? <==> Trans(s1.m, pd, t).Some? || Shows(sp.m, pd, vp + k, t)
    ensures Progress(sp, s2, pd, total, vp, k + 1, own)
  {
    hide MapPage, Mapped, NeedsTable, Reached, Trans, Takeable, Supplied, Nth, PdePresent, Shows;
    var i := Lead(own, k) + TablesNeeded(sp.m, pd, vp, k);
    SlotsNext(sp, s0, s1, s2, pd, total, vp, k, own, f, cleared);
    SlotOfNext(sp, s0, pd, total, vp, k, own);
    if own { NextFrame(sp, s0, total, i); }
    RoundSucceedsIff(sp, s1, pd, total, vp, k, own, Lead(own, k + 1) + TablesNeeded(sp.m, pd, vp, k),
                     f * PAGE_SIZE, flags);
    forall t: nat | t < FIRST_KERNEL_PAGE && t < total && t !in sp.used
      ensures Trans(s2.m, pd, t).Some? <==> Reached(sp.m, pd, vp, k + 1, t)
    {
      ReachedNext(sp.m, pd, vp, k, t);
    }
  }

  lemma KernelRound(sp: Space, s0: Space, s1: Space, s2: Space, pd: nat, total: nat, F: set<nat>,
                    vp: nat, k: nat, own: bool, f: nat, flags: Word, cleared: bool)
    requires SpaceOk(sp, pd, total) && SpaceOk(s0, pd, total) && SpaceOk(s1, pd, total) && SpaceOk(s2, pd, total)
    requires FIRST_KERNEL_PAGE <= vp && vp + k < NUM_PAGES && KernelPage(pd, vp + k) && f < NUM_PAGES
    requires Progress(sp, s0, pd, total, vp, k, own)
    requires var i := Lead(own, k) + TablesNeeded(sp.m, pd, vp, k);
             && (own ==> i < |Takeable(sp.used, total)|) && s1 == PageTaken(sp, s0, total, i, own)
    requires MapPage(s1, pd, total, vp + k, f * PAGE_SIZE, flags) == Done(s2)
    requires Mapped(s1, s2, pd, vp + k, f, cleared) && TablesGrown(sp, s2, pd, F)
    ensures Progress(sp, s2, pd, total, vp, k + 1, own)
  {
    hide PagingOk, MapPage, Mapped, TablesGrown, NeedsTable, Reached, Trans, Takeable, Supplied, Nth, PdePresent,
         Shows;
    SlotsNext(sp, s0, s1, s2, pd, total, vp, k, own, f, cleared);
    forall t: nat | t < FIRST_KERNEL_PAGE && t < total && t !in sp.used
      ensures Trans(s2.m, pd, t).Some? <==> Trans(s1.m, pd, t).Some? || Shows(sp.m, pd, vp + k, t)
    {
      LowSlotStays(sp, s2, pd, vp, k + 1, t);
      KernelShows(sp, s1, s2, pd, total, F, vp + k, f, cleared, t);
    }
    RoundProgress(sp, s0, s1, s2, pd, total, vp, k, own, f, flags, cleared);
  }

  lemma LowSlotStays(sp: Space, s2: Space, pd: nat, vp: nat, k: nat, t: nat)
    requires IsMem(sp.m) && IsMem(s2.m) && pd < NUM_PAGES && t < FIRST_KERNEL_PAGE <= vp && vp + k <= NUM_PAGES
    requires forall d | 0 <= d < ENTRIES ::
               PdePresent(s2.m, pd, d) <==> PdePresent(sp.m, pd, d) || InSlots(vp, k, d)
    ensures PdePresent(s2.m, pd, t / ENTRIES) ==> PdePresent(sp.m, pd, t / ENTRIES)
  {
  }

  // ----- contiguous frames

  lemma {:induction false} RunProgress(sp: Space, s: Space, pd: nat, total: nat, z: Zone, P: set<nat>,
                                       vp: nat, f: nat, flags: Word, n: nat)
    requires Backed(sp, pd, total, z, P) && FreshPages(pd, z, P, vp, n) && f + n <= total
    requires forall g: nat | f <= g < f + n :: DataFrame(sp, pd, total, g) && Unowned(sp, pd, z, P, g)
    requires MapRun(sp, pd, total, vp, f, flags, n) == Done(s)
    ensures SpaceOk(s, pd, total) && IsMem(sp.m) && Progress(sp, s, pd, total, vp, n, false)
    decreases n
  {
    hide Backed, MapPage, DataFrame, Unowned, Grown, Progress, KernelPage, SpaceOk;
    BackedSpaceOk(sp, pd, total, z, P);
    if n == 0 {
      NoProgress(sp, pd, total, vp, false);
    } else {
      var s1 := MapRun(sp, pd, total, vp, f, flags, n - 1).sp;
      RunProgress(sp, s1, pd, total, z, P, vp, f, flags, n - 1);
      RunRound(sp, s1, s, pd, total, z, P, vp, f, flags, n - 1);
    }
  }

  lemma BackedSpaceOk(sp: Space, pd: nat, total: nat, z: Zone, P: set<nat>)
    requires Backed(sp, pd, total, z, P)
    ensures SpaceOk(sp, pd, total) && IsMem(sp.m) && pd < 0x800 && total <= NUM_PAGES
  {
  }

  lemma RunSoFar(sp: Space, s: Space, pd: nat, total: nat, z: Zone, P: set<nat>, vp: nat, f: nat, flags: Word, n: nat)
    requires Backed(sp, pd, total, z, P) && FreshPages(pd, z, P, vp, n) && f + n <= total
    requires forall g: nat | f <= g < f + n :: DataFrame(sp, pd, total, g) && Unowned(sp, pd, z, P, g)
    requires MapRun(sp, pd, total, vp, f, flags, n) == Done(s)
    ensures SpaceOk(s, pd, total) && TablesGrown(sp, s, pd, {})
  {
    hide Backed, MapRun, DataFrame, Unowned, TablesGrown, SpaceOk, KernelPage;
    BackRun(sp, s, pd, total, z, P, vp, f, flags, n);
    BackedSpaceOk(s, pd, total, z, P + Pages(vp, n));
  }

  lemma ScatterSoFar(sp: Space, s: Space, pd: nat, total: nat, z: Zone, P: set<nat>, vp: nat, flags: Word, n: nat)
    requires Backed(sp, pd, total, z, P) && FreshPages(pd, z, P, vp, n)
    requires MapScattered(sp, pd, total, vp, flags, n) == Done(s)
    ensures Backed(s, pd, total, z, P + Pages(vp, n)) && SpaceOk(s, pd, total)
    ensures IsMem(s.m) && pd < NUM_PAGES && vp + n <= NUM_PAGES
    ensures TablesGrown(sp, s, pd, FramesOf(s.m, pd, Pages(vp, n)))
  {
    hide Backed, MapScattered, TablesGrown, SpaceOk, KernelPage, FramesOf;
    BackScattered(sp, s, pd, total, z, P, vp, flags, n);
    BackedSpaceOk(s, pd, total, z, P + Pages(vp, n));
  }

  lemma RunRound(sp: Space, s1: Space, s: Space, pd: nat, total: nat, z: Zone, P: set<nat>,
                 vp: nat, f: nat, flags: Word, k: nat)
    requires Backed(sp, pd, total, z, P) && FreshPages(pd, z, P, vp, k + 1) && f + k < total
    requires forall g: nat | f <= g <= f + k :: DataFrame(sp, pd, total, g) && Unowned(sp, pd, z, P, g)
    requires IsMem(sp.m) && SpaceOk(s1, pd, total) && Progress(sp, s1, pd, total, vp, k, false)
    requires MapRun(sp, pd, total, vp, f, flags, k) == Done(s1)
    requires MapRun(sp, pd, total, vp, f, flags, k + 1) == Done(s)
    ensures SpaceOk(s, pd, total) && Progress(sp, s, pd, total, vp, k + 1, false)
  {
    hide Backed, MapPage, DataFrame, Unowned, TablesGrown, Progress, SpaceOk, Mapped;
    BackedSpaceOk(sp, pd, total, z, P);
    RunSoFar(sp, s, pd, total, z, P, vp, f, flags, k + 1);
    assert KernelPage(pd, vp) && KernelPage(pd, vp + k);
    MapPageEffect(s1, s, pd, total, vp + k, (f + k) * PAGE_SIZE, flags);
    KernelRound(sp, s1, s1, s, pd, total, {}, vp, k, false, f + k, flags, TableWouldBeCleared(s1, pd, total));
  }

  /** With frames given, a region is backed iff enough single frames are left for the tables. */
  lemma {:induction false} RunSucceedsIff(sp: Space, pd: nat, total: nat, z: Zone, P: set<nat>,
                                          vp: nat, f: nat, flags: Word, n: nat)
    requires Backed(sp, pd, total, z, P) && FreshPages(pd, z, P, vp, n) && f + n <= total
    requires forall g: nat | f <= g < f + n :: DataFrame(sp, pd, total, g) && Unowned(sp, pd, z, P, g)
    requires IsMem(sp.m) && pd < NUM_PAGES && total <= NUM_PAGES
    ensures MapRun(sp, pd, total, vp, f, flags, n).Done?
            <==> Enough(sp.m, pd, vp, n, Takeable(sp.used, total), false)
    decreases n
  {
    hide Backed, MapPage, DataFrame, Unowned, Progress, KernelPage, SpaceOk, NeedsTable, TableServed, Takeable, Enough;
    if n == 0 {
      EnoughNone(sp.m, pd, vp, Takeable(sp.used, total), false);
    } else {
      RunSucceedsIff(sp, pd, total, z, P, vp, f, flags, n - 1);
      EnoughStep(sp.m, pd, vp, n - 1, Takeable(sp.used, total), false);
      var o := MapRun(sp, pd, total, vp, f, flags, n - 1);
      if o.Done? {
        RunProgress(sp, o.sp, pd, total, z, P, vp, f, flags, n - 1);
        ProgressIsSupplied(sp, o.sp, pd, total, vp, n - 1, false);
        ProgressRound(sp, o.sp, o.sp, pd, total, vp, n - 1, false, (f + n - 1) * PAGE_SIZE, flags);
      }
    }
  }

  lemma EnoughNone(m: seq<Word>, pd: nat, vp: nat, S: set<nat>, own: bool)
    requires IsMem(m) && pd < NUM_PAGES && vp <= NUM_PAGES
    ensures Enough(m, pd, vp, 0, S, own)
  {
  }

  lemma ProgressIsSupplied(sp: Space, s: Space, pd: nat, total: nat, vp: nat, k: nat, own: bool)
    requires IsMem(sp.m) && IsMem(s.m) && pd < NUM_PAGES && vp + k <= NUM_PAGES
    requires Progress(sp, s, pd, total, vp, k, own)
    ensures Supplied(sp, s, total, Lead(own, k) + TablesNeeded(sp.m, pd, vp, k))
    ensures Lead(own, k) + TablesNeeded(sp.m, pd, vp, k) <= |Takeable(sp.used, total)|
  {
    hide Reached, Trans, Takeable;
  }

  /** The next page, in terms of the progress made. */
  lemma ProgressRound(sp: Space, s0: Space, s1: Space, pd: nat, total: nat, vp: nat, k: nat, own: bool,
                      phys: Word, flags: Word)
    requires IsMem(sp.m) && IsMem(s0.m) && IsMem(s1.m) && pd < NUM_PAGES && total <= NUM_PAGES && vp + k < NUM_PAGES
    requires Progress(sp, s0, pd, total, vp, k, own)
    requires var i := Lead(own, k) + TablesNeeded(sp.m, pd, vp, k);
             && (own ==> i < |Takeable(sp.used, total)|) && s1 == PageTaken(sp, s0, total, i, own)
    ensures MapPage(s1, pd, total, vp + k, phys, flags).Done?
            <==> NeedsTable(sp.m, pd, vp, k) ==> TableServed(sp.m, pd, vp, k, Takeable(sp.used, total), own)
  {
    hide MapPage, NeedsTable, Reached, Trans, Takeable, TableServed, Nth, PdePresent, Supplied, TablesNeeded, InSlots;
    var i := Lead(own, k) + TablesNeeded(sp.m, pd, vp, k);
    SlotOfNext(sp, s0, pd, total, vp, k, own);
    if own { NextFrame(sp, s0, total, i); }
    RoundSucceedsIff(sp, s1, pd, total, vp, k, own, Lead(own, k + 1) + TablesNeeded(sp.m, pd, vp, k), phys, flags);
  }

  // ----- single frames

  lemma ScatterRound(sp: Space, s0: Space, s: Space, pd: nat, total: nat, z: Zone, P: set<nat>,
                     vp: nat, f: nat, flags: Word, k: nat)
    requires Backed(sp, pd, total, z, P) && FreshPages(pd, z, P, vp, k + 1) && IsMem(sp.m) && IsMem(s.m)
    requires SpaceOk(s0, pd, total) && Progress(sp, s0, pd, total, vp, k, true)
    requires MapScattered(sp, pd, total, vp, flags, k) == Done(s0)
    requires FirstFit(s0.used, total, 1) == Some(f) && f !in s0.used && f < total
    requires MapPage(s0.(used := s0.used + {f}), pd, total, vp + k, f * PAGE_SIZE, flags) == Done(s)
    requires MapScattered(sp, pd, total, vp, flags, k + 1) == Done(s)
    ensures SpaceOk(s, pd, total) && Progress(sp, s, pd, total, vp, k + 1, true)
    ensures var i := k + TablesNeeded(sp.m, pd, vp, k);
            i < |Takeable(sp.used, total)| && f == Nth(Takeable(sp.used, total), i)
    ensures Trans(s.m, pd, vp + k) == Some(f)
    ensures forall p | p in Pages(vp, k) :: p < NUM_PAGES && Trans(s.m, pd, p) == Trans(s0.m, pd, p)
  {
    hide Backed, MapPage, MapScattered, DataFrame, Unowned, TablesGrown, Progress, Mapped, Supplied, FirstFit, PagingOk,
         Trans, Takeable, Nth;
    BackedSpaceOk(sp, pd, total, z, P);
    var s1, Q := s0.(used := s0.used + {f}), P + Pages(vp, k);
    ScatterSoFar(sp, s0, pd, total, z, P, vp, flags, k);
    ScatterSoFar(sp, s, pd, total, z, P, vp, flags, k + 1);
    AllocatedFrames(s0, pd, total, z, Q, {f});
    BackedSpaceOk(s1, pd, total, z, Q);
    assert KernelPage(pd, vp) && KernelPage(pd, vp + k);
    MapPageEffect(s1, s, pd, total, vp + k, f * PAGE_SIZE, flags);
    ProgressIsSupplied(sp, s0, pd, total, vp, k, true);
    NextFrame(sp, s0, total, k + TablesNeeded(sp.m, pd, vp, k));
    KernelRound(sp, s0, s1, s, pd, total, FramesOf(s.m, pd, Pages(vp, k + 1)), vp, k, true, f, flags,
                TableWouldBeCleared(s1, pd, total));
    BackOne(s1, s, pd, total, z, Q, vp + k, f, flags);
  }

  /** Page vp+k has the frame that was next when its turn came: the frames are taken in ascending
      order, a table's right behind that of the page that needs it. */
  ghost predicate InOrder(m: seq<Word>, m': seq<Word>, pd: nat, vp: nat, n: nat, S: set<nat>)
    requires IsMem(m) && IsMem(m') && pd < NUM_PAGES && vp + n <= NUM_PAGES
  {
    forall k: nat | k < n :: HasFrame(m, m', pd, vp, k, S)
  }

  ghost predicate HasFrame(m: seq<Word>, m': seq<Word>, pd: nat, vp: nat, k: nat, S: set<nat>)
    requires IsMem(m) && IsMem(m') && pd < NUM_PAGES && vp + k < NUM_PAGES
  {
    var i := k + TablesNeeded(m, pd, vp, k);
    i < |S| && Trans(m', pd, vp + k) == Some(Nth(S, i))
  }

  lemma InOrderNext(m: seq<Word>, m1: seq<Word>, m': seq<Word>, pd: nat, vp: nat, n: nat, S: set<nat>)
    requires IsMem(m) && IsMem(m1) && IsMem(m') && pd < NUM_PAGES && vp + n < NUM_PAGES
    requires InOrder(m, m1, pd, vp, n, S) && HasFrame(m, m', pd, vp, n, S)
    requires forall p | p in Pages(vp, n) :: p < NUM_PAGES && Trans(m', pd, p) == Trans(m1, pd, p)
    ensures InOrder(m, m', pd, vp, n + 1, S)
  {
    hide Trans, Nth, TablesNeeded;
    forall k: nat | k < n ensures HasFrame(m, m', pd, vp, k, S) {
      assert HasFrame(m, m1, pd, vp, k, S) && vp + k in Pages(vp, n);
    }
  }

  lemma {:induction false} ScatterProgress(sp: Space, s: Space, pd: nat, total: nat, z: Zone, P: set<nat>,
                                           vp: nat, flags: Word, n: nat)
    requires Backed(sp, pd, total, z, P) && FreshPages(pd, z, P, vp, n)
    requires MapScattered(sp, pd, total, vp, flags, n) == Done(s)
    ensures SpaceOk(s, pd, total) && IsMem(sp.m) && Progress(sp, s, pd, total, vp, n, true)
    ensures InOrder(sp.m, s.m, pd, vp, n, Takeable(sp.used, total))
    decreases n
  {
    hide Backed, MapPage, MapScattered, FirstFit, Progress, KernelPage, PagingOk, Takeable, Nth, Trans;
    BackedSpaceOk(sp, pd, total, z, P);
    if n == 0 {
      NoneScattered(sp, pd, total, vp, flags);
      NoProgress(sp, pd, total, vp, true);
    } else {
      var s0, f := LastScatter(sp, s, pd, total, vp, flags, n);
      ScatterProgress(sp, s0, pd, total, z, P, vp, flags, n - 1);
      ScatterRound(sp, s0, s, pd, total, z, P, vp, f, flags, n - 1);
      InOrderNext(sp.m, s0.m, s.m, pd, vp, n - 1, Takeable(sp.used, total));
    }
  }

  lemma ScatterUnfolds(sp: Space, pd: nat, total: nat, vp: nat, flags: Word, n: nat)
    requires IsMem(sp.m) && pd < NUM_PAGES && total <= NUM_PAGES && vp + n <= NUM_PAGES && n > 0
    ensures var o := MapScattered(sp, pd, total, vp, flags, n - 1);
            MapScattered(sp, pd, total, vp, flags, n).Done?
            <==> o.Done? && var r := FirstFit(o.sp.used, total, 1);
                 r.Some? && r.value < total
                 && var s1 := o.sp.(used := o.sp.used + {r.value});
                    MapPage(s1, pd, total, vp + n - 1, r.value * PAGE_SIZE, flags).Done?
  {
    hide MapPage, FirstFit;
    var o := MapScattered(sp, pd, total, vp, flags, n - 1);
    if o.Done? && FirstFit(o.sp.used, total, 1).Some? { FirstFitIsFree(o.sp.used, total, 1); }
  }

  /** The fallback succeeds iff the single frames suffice for the pages and the tables. */
  lemma {:induction false} ScatterSucceedsIff(sp: Space, pd: nat, total: nat, z: Zone, P: set<nat>,
                                              vp: nat, flags: Word, n: nat)
    requires Backed(sp, pd, total, z, P) && FreshPages(pd, z, P, vp, n)
    requires IsMem(sp.m) && pd < NUM_PAGES && total <= NUM_PAGES
    ensures MapScattered(sp, pd, total, vp, flags, n).Done?
            <==> Enough(sp.m, pd, vp, n, Takeable(sp.used, total), true)
    decreases n
  {
    hide Backed, MapPage, MapScattered, Progress, KernelPage, SpaceOk, NeedsTable, TableServed, Takeable, Enough,
         FirstFit, Nth;
    var S := Takeable(sp.used, total);
    if n == 0 {
      NoneScattered(sp, pd, total, vp, flags);
      EnoughNone(sp.m, pd, vp, S, true);
    } else {
      ScatterSucceedsIff(sp, pd, total, z, P, vp, flags, n - 1);
      EnoughStep(sp.m, pd, vp, n - 1, S, true);
      ScatterUnfolds(sp, pd, total, vp, flags, n);
      var o := MapScattered(sp, pd, total, vp, flags, n - 1);
      if o.Done? {
        var i := n - 1 + TablesNeeded(sp.m, pd, vp, n - 1);
        ScatterProgress(sp, o.sp, pd, total, z, P, vp, flags, n - 1);
        ProgressIsSupplied(sp, o.sp, pd, total, vp, n - 1, true);
        NextFrame(sp, o.sp, total, i);
        if i < |S| {
          ProgressRound(sp, o.sp, o.sp.(used := o.sp.used + {Nth(S, i)}), pd, total, vp, n - 1, true,
                        Nth(S, i) * PAGE_SIZE, flags);
        }
      }
    }
  }

  // ----- whole regions

  /** What backing memory takes: contiguous frames and then the tables, or everything one frame
      at a time. */
  ghost predicate MemoryServed(sp: Space, pd: nat, total: nat, vp: nat, n: nat)
    requires IsMem(sp.m) && pd < NUM_PAGES && vp + n <= NUM_PAGES
  {
    match FirstFit(sp.used, total, n)
    case Some(f) => Enough(sp.m, pd, vp, n, Takeable(sp.used + Frames(f, n), total), false)
    case None => Enough(sp.m, pd, vp, n, Takeable(sp.used, total), true)
  }

  /** Memory is backed iff that is there. */
  lemma BackRegionSucceedsIff(sp: Space, pd: nat, total: nat, z: Zone, P: set<nat>, vp: nat, flags: Word, n: nat)
    requires Backed(sp, pd, total, z, P) && FreshPages(pd, z, P, vp, n)
    requires IsMem(sp.m) && pd < NUM_PAGES && total <= NUM_PAGES
    ensures BackRegion(sp, pd, total, vp, flags, n).Done? <==> MemoryServed(sp, pd, total, vp, n)
  {
    hide Backed, MapRun, MapScattered, FirstFit, FreshPages, Enough, DataFrame, Unowned, Takeable;
    match FirstFit(sp.used, total, n)
    case None => ScatterSucceedsIff(sp, pd, total, z, P, vp, flags, n);
    case Some(f) =>
      FirstFitIsFree(sp.used, total, n);
      AllocatedFrames(sp, pd, total, z, P, Frames(f, n));
      RunSucceedsIff(sp.(used := sp.used + Frames(f, n)), pd, total, z, P, vp, f, flags, n);
  }

  /** Where every slot has its table, n pages are backed iff n single frames can be taken,
      however they lie. */
  lemma BackPresentIff(sp: Space, pd: nat, total: nat, z: Zone, P: set<nat>, vp: nat, flags: Word, n: nat)
    requires Backed(sp, pd, total, z, P) && FreshPages(pd, z, P, vp, n)
    requires IsMem(sp.m) && pd < NUM_PAGES && total <= NUM_PAGES
    requires forall p | p in Pages(vp, n) :: PdePresent(sp.m, pd, p / ENTRIES)
    ensures BackRegion(sp, pd, total, vp, flags, n).Done? <==> n <= |Takeable(sp.used, total)|
  {
    hide Backed, BackRegion, FirstFit, KernelPage, Takeable, NeedsTable;
    BackRegionSucceedsIff(sp, pd, total, z, P, vp, flags, n);
    NoTables(sp.m, pd, vp, n);
    if FirstFit(sp.used, total, n).Some? { RunIsTakeable(sp.used, total, n); }
  }

  lemma {:induction false} NoTables(m: seq<Word>, pd: nat, vp: nat, n: nat)
    requires IsMem(m) && pd < NUM_PAGES && vp + n <= NUM_PAGES
    requires forall p | p in Pages(vp, n) :: PdePresent(m, pd, p / ENTRIES)
    ensures TablesNeeded(m, pd, vp, n) == 0
    ensures forall k: nat | k < n :: !NeedsTable(m, pd, vp, k)
  {
    if n > 0 {
      PagesOneMore({}, vp, n);
      NoTables(m, pd, vp, n - 1);
      assert vp + n - 1 in Pages(vp, n);
    }
  }

  /** Which frames the pages have then: the allocator's run in order if it has one, else the
      least single frames in ascending order. */
  lemma BackRegionPlaces(sp: Space, sp': Space, pd: nat, total: nat, z: Zone, P: set<nat>,
                         vp: nat, flags: Word, n: nat)
    requires Backed(sp, pd, total, z, P) && FreshPages(pd, z, P, vp, n)
    requires BackRegion(sp, pd, total, vp, flags, n) == Done(sp')
    ensures IsMem(sp.m) && IsMem(sp'.m) && pd < NUM_PAGES
    ensures match FirstFit(sp.used, total, n)
            case Some(f) => forall p | p in Pages(vp, n) :: p < NUM_PAGES && Trans(sp'.m, pd, p) == Some(f + (p - vp))
            case None => InOrder(sp.m, sp'.m, pd, vp, n, Takeable(sp.used, total))
  {
    hide Backed, MapRun, MapScattered, FirstFit, DataFrame, Unowned, Takeable, Grown, Trans, InOrder;
    BackedSpaceOk(sp, pd, total, z, P);
    match FirstFit(sp.used, total, n)
    case None => ScatterProgress(sp, sp', pd, total, z, P, vp, flags, n);
    case Some(f) =>
      FirstFitIsFree(sp.used, total, n);
      AllocatedFrames(sp, pd, total, z, P, Frames(f, n));
      BackRun(sp.(used := sp.used + Frames(f, n)), sp', pd, total, z, P, vp, f, flags, n);
  }

  // ----- devices

  /** Mapping a page of a device shows no frame that is free. */
  lemma DeviceShows(sp: Space, s1: Space, s2: Space, pd: nat, total: nat, z: Zone, q: nat, t: nat)
    requires SpaceOk(sp, pd, total) && SpaceOk(s1, pd, total) && SpaceOk(s2, pd, total)
    requires DevicePage(pd, z.lo, q) && t < FIRST_KERNEL_PAGE && t != q && TableReached(s1, pd, total, q)
    requires Mapped(s1, s2, pd, q, q, TableWouldBeCleared(s1, pd, total))
    ensures Trans(s2.m, pd, t).Some? <==> Trans(s1.m, pd, t).Some? || Shows(sp.m, pd, q, t)
  {
    hide PagingOk, Together, Trans, TableWouldBeCleared;
    DeviceAlone(s2, pd, total, z, q, t);
    if PdePresent(sp.m, pd, q / ENTRIES) { DeviceAlone(sp, pd, total, z, q, t); }
  }

  lemma DeviceRound(sp: Space, s1: Space, s: Space, pd: nat, total: nat, z: Zone, P: set<nat>,
                    vp: nat, flags: Word, k: nat)
    requires SpaceOk(sp, pd, total) && SpaceOk(s1, pd, total) && SpaceOk(s, pd, total) && vp + k < NUM_PAGES
    requires DeviceFits(sp, pd, total, z, P, vp, k + 1) && TableReached(s1, pd, total, vp + k)
    requires Progress(sp, s1, pd, total, vp, k, false)
    requires MapPage(s1, pd, total, vp + k, (vp + k) * PAGE_SIZE, flags) == Done(s)
    ensures Progress(sp, s, pd, total, vp, k + 1, false)
  {
    hide PagingOk, MapPage, Mapped, Progress, Trans, Shows, TableWouldBeCleared, TableReached;
    assert vp + k in Pages(vp, k + 1);
    TableIsOutside(s1, pd, total, vp + k);
    MapPageEffect(s1, s, pd, total, vp + k, (vp + k) * PAGE_SIZE, flags);
    forall t: nat | t < FIRST_KERNEL_PAGE && t < total && t !in sp.used
      ensures Trans(s.m, pd, t).Some? <==> Trans(s1.m, pd, t).Some? || Shows(sp.m, pd, vp + k, t)
    {
      DeviceShows(sp, s1, s, pd, total, z, vp + k, t);
    }
    RoundProgress(sp, s1, s1, s, pd, total, vp, k, false, vp + k, flags, TableWouldBeCleared(s1, pd, total));
  }

  lemma TableIsOutside(sp: Space, pd: nat, total: nat, vp: nat)
    requires IsMem(sp.m) && pd < NUM_PAGES && vp < NUM_PAGES && TableReached(sp, pd, total, vp)
    ensures vp / ENTRIES != RECURSIVE_PDE_IDX
  {
  }

  /** What holds along the loop over a device's pages. */
  ghost predicate DeviceSuits(sp: Space, pd: nat, total: nat, z: Zone, P: set<nat>, vp: nat, flags: Word, n: nat) {
    && Backed(sp, pd, total, z, P) && IsMem(sp.m) && pd < NUM_PAGES && total <= NUM_PAGES && vp + n <= NUM_PAGES
    && DeviceFits(sp, pd, total, z, P, vp, n)
    && (z.lo >= FIRST_FREE_PAGE || TablesReached(sp, pd, total, vp, flags, n))
  }

  lemma DeviceSuitsFewer(sp: Space, pd: nat, total: nat, z: Zone, P: set<nat>, vp: nat, flags: Word, n: nat)
    requires n > 0 && DeviceSuits(sp, pd, total, z, P, vp, flags, n)
    ensures DeviceSuits(sp, pd, total, z, P, vp, flags, n - 1)
  {
    hide Backed, MapRun, DeviceFits, TableReached;
    FewerFit(sp, pd, total, z, P, vp, n);
  }

  lemma {:induction false} DeviceProgress(sp: Space, s: Space, pd: nat, total: nat, z: Zone, P: set<nat>,
                                          vp: nat, flags: Word, n: nat)
    requires DeviceSuits(sp, pd, total, z, P, vp, flags, n)
    requires MapRun(sp, pd, total, vp, vp, flags, n) == Done(s)
    ensures SpaceOk(s, pd, total) && Progress(sp, s, pd, total, vp, n, false)
    decreases n
  {
    hide Backed, MapPage, Progress, SpaceOk, DeviceFits, DeviceGrown, TableReached;
    BackedSpaceOk(sp, pd, total, z, P);
    if n == 0 {
      NoProgress(sp, pd, total, vp, false);
    } else {
      var s1 := MapRun(sp, pd, total, vp, vp, flags, n - 1).sp;
      DeviceSuitsFewer(sp, pd, total, z, P, vp, flags, n);
      DeviceProgress(sp, s1, pd, total, z, P, vp, flags, n - 1);
      DeviceRun(sp, s1, pd, total, z, P, vp, flags, n - 1);
      DeviceRun(sp, s, pd, total, z, P, vp, flags, n);
      BackedSpaceOk(s, pd, total, WithDevices(z, Pages(vp, n)), P);
      if z.lo >= FIRST_FREE_PAGE { DevicePageReached(sp, s1, s, pd, total, z, P, vp, flags, n); }
      DeviceRound(sp, s1, s, pd, total, z, P, vp, flags, n - 1);
    }
  }

  lemma DevicePageReached(sp: Space, s1: Space, s: Space, pd: nat, total: nat, z: Zone, P: set<nat>,
                          vp: nat, flags: Word, n: nat)
    requires n > 0 && z.lo >= FIRST_FREE_PAGE && IsMem(sp.m) && pd < NUM_PAGES && vp + n <= NUM_PAGES
    requires DeviceFits(sp, pd, total, z, P, vp, n) && DeviceBacked(sp, s1, pd, total, z, P, vp, n - 1)
    requires IsMem(s1.m) && total <= NUM_PAGES
    requires MapPage(s1, pd, total, vp + n - 1, (vp + n - 1) * PAGE_SIZE, flags) == Done(s)
    ensures TableReached(s1, pd, total, vp + n - 1)
  {
    hide Backed, MapPage, DeviceGrown, TableReached, Trans;
    assert vp + n - 1 in Pages(vp, n);
    DeviceTableReached(s1, s, pd, total, WithDevices(z, Pages(vp, n - 1)), P, vp + n - 1, flags);
  }

  lemma {:induction false} DeviceRunSucceedsIff(sp: Space, pd: nat, total: nat, z: Zone, P: set<nat>,
                                                vp: nat, flags: Word, n: nat)
    requires DeviceSuits(sp, pd, total, z, P, vp, flags, n)
    ensures MapRun(sp, pd, total, vp, vp, flags, n).Done?
            <==> Enough(sp.m, pd, vp, n, Takeable(sp.used, total), false)
    decreases n
  {
    hide Backed, MapPage, Progress, SpaceOk, NeedsTable, TableServed, Takeable, Enough, DeviceFits, TablesReached;
    if n == 0 {
      EnoughNone(sp.m, pd, vp, Takeable(sp.used, total), false);
    } else {
      DeviceSuitsFewer(sp, pd, total, z, P, vp, flags, n);
      DeviceRunSucceedsIff(sp, pd, total, z, P, vp, flags, n - 1);
      EnoughStep(sp.m, pd, vp, n - 1, Takeable(sp.used, total), false);
      var o := MapRun(sp, pd, total, vp, vp, flags, n - 1);
      if o.Done? {
        DeviceProgress(sp, o.sp, pd, total, z, P, vp, flags, n - 1);
        ProgressIsSupplied(sp, o.sp, pd, total, vp, n - 1, false);
        ProgressRound(sp, o.sp, o.sp, pd, total, vp, n - 1, false, (vp + n - 1) * PAGE_SIZE, flags);
      }
    }
  }

  /** A device is mapped iff single frames are left for the tables that it is short of. */
  lemma BackDeviceSucceedsIff(sp: Space, pd: nat, total: nat, z: Zone, P: set<nat>, vp: nat, flags: Word, n: nat)
    requires Backed(sp, pd, total, z, P) && IsMem(sp.m) && pd < NUM_PAGES && total <= NUM_PAGES && vp + n <= NUM_PAGES
    requires DeviceFits(Requested(sp, total, vp, n), pd, total, z, P, vp, n)
    requires z.lo >= FIRST_FREE_PAGE || TablesReached(Requested(sp, total, vp, n), pd, total, vp, flags, n)
    ensures BackDevice(sp, pd, total, vp, flags, n).Done?
            <==> Enough(sp.m, pd, vp, n, Takeable(Requested(sp, total, vp, n).used, total), false)
  {
    hide Backed, MapRun, DeviceFits, TablesReached, Takeable, Enough;
    RequestedIsBacked(sp, pd, total, z, P, vp, n);
    DeviceRunSucceedsIff(Requested(sp, total, vp, n), pd, total, z, P, vp, flags, n);
  }

  /** What vmalloc_core takes. */
  ghost predicate CoreServed(sp: Space, pd: nat, total: nat, vp: nat, flags: Word, n: nat)
    requires IsMem(sp.m) && pd < NUM_PAGES && vp + n <= NUM_PAGES
  {
    if HasFlag(flags, VM_AREA_MMIO)
    then Enough(sp.m, pd, vp, n, Takeable(Requested(sp, total, vp, n).used, total), false)
    else MemoryServed(sp, pd, total, vp, n)
  }
}
