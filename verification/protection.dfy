/** The flags in the entries: what vmalloc's callers ask for is what the pages of their areas
    have, over whole runs. A page grants a right if both entries on its walk do (Intel SDM,
    volume 3A, section 4.6). */
module Protection {
  import opened Words
  import opened Wrappers
  import opened PagingFormat
  import opened Pmm
  import opened Mmu
  import opened Mapping
  import opened Regions
  import opened Devices
  import opened Areas
  import opened VmmRuns
  import Vmm

  ghost function EntryFlags(m: seq<Word>, pd: nat, vp: nat): nat
    requires IsMem(m) && pd < NUM_PAGES && vp < NUM_PAGES
  {
    m[GovIndex(m, pd, vp)] % PAGE_SIZE
  }

  /** Page p is governed by the same word, which has not changed. */
  ghost predicate EntryKept(m: seq<Word>, m': seq<Word>, pd: nat, p: nat)
    requires IsMem(m) && IsMem(m') && pd < NUM_PAGES && p < NUM_PAGES
  {
    PdePresent(m', pd, p / ENTRIES) && m'[GovIndex(m', pd, p)] == m[GovIndex(m, pd, p)]
  }

  /** Directory entries stay, and new ones have the kernel's default flags. */
  ghost predicate PdesKept(m: seq<Word>, m': seq<Word>, pd: nat)
    requires IsMem(m) && IsMem(m') && pd < NUM_PAGES
  {
    forall d | 0 <= d < ENTRIES ::
      if PdePresent(m, pd, d) then PdeAt(m', pd, d) == PdeAt(m, pd, d)
      else PdePresent(m', pd, d) ==> PdeAt(m', pd, d) % PAGE_SIZE == KERNEL_PDE_DEFAULT_FLAGS
  }

  ghost predicate PdesOk(m: seq<Word>, pd: nat)
    requires IsMem(m) && pd < NUM_PAGES
  {
    forall d | 0 <= d < ENTRIES && PdePresent(m, pd, d) :: PdeAt(m, pd, d) % PAGE_SIZE == KERNEL_PDE_DEFAULT_FLAGS
  }

  // ----- one page

  lemma EntryHasFlags(phys: Word, flags: Word)
    requires phys % PAGE_SIZE == 0
    ensures EntryWord(phys, ConvertFlagsToArchFlags(flags)) % PAGE_SIZE == ConvertFlagsToArchFlags(flags)
  {
    var f := ConvertFlagsToArchFlags(flags);
    EuclidUnique(phys + f, PAGE_SIZE, phys / PAGE_SIZE, f);
  }

  /** Storing an entry where the page has a table. */
  lemma PutPteEntries(sp: Space, pd: nat, total: nat, vp: nat, phys: Word, flags: Word)
    requires SpaceOk(sp, pd, total) && vp < NUM_PAGES && phys % PAGE_SIZE == 0
    requires vp / ENTRIES != RECURSIVE_PDE_IDX && PdePresent(sp.m, pd, vp / ENTRIES)
    ensures var m' := PutPte(sp.m, pd, vp, phys, flags);
            && EntryFlags(m', pd, vp) == ConvertFlagsToArchFlags(flags) && PdesKept(sp.m, m', pd)
            && SameSlots(sp.m, m', pd, -1)
            && forall p | 0 <= p < NUM_PAGES && p / ENTRIES != RECURSIVE_PDE_IDX
                          && PdePresent(sp.m, pd, p / ENTRIES) && !Together(m', pd, vp, p) ::
                 EntryKept(sp.m, m', pd, p)
  {
    hide LowPageOk, NotATable, Recursive, ConvertFlagsToArchFlags, EntryWord, Trans;
    var e := EntryWord(phys, ConvertFlagsToArchFlags(flags));
    EntryHasFlags(phys, flags);
    var i := GovIndex(sp.m, pd, vp);
    GovParts(sp.m, pd, vp);
    var m' := sp.m[i := e];
    forall d | 0 <= d < ENTRIES ensures PdeAt(m', pd, d) == PdeAt(sp.m, pd, d) {
      assert (pd * ENTRIES + d) / ENTRIES == pd;
    }
  }

  /** Entering a table touches no entry in use. */
  lemma TableKeepsEntries(sp: Space, pd: nat, total: nat, d: nat)
    requires SpaceOk(sp, pd, total) && d < ENTRIES && !PdePresent(sp.m, pd, d)
    requires AllocTable(sp, pd, total, d).Done?
    ensures var m1 := AllocTable(sp, pd, total, d).sp.m;
            && PdesKept(sp.m, m1, pd)
            && forall p | 0 <= p < NUM_PAGES && p / ENTRIES != RECURSIVE_PDE_IDX && PdePresent(sp.m, pd, p / ENTRIES) ::
                 EntryKept(sp.m, m1, pd, p)
  {
    hide FirstFit;
    var t := FirstFit(sp.used, total, 1).value;
    FirstFitIsFree(sp.used, total, 1);
    var g := Trans(sp.m, pd, t).value;
    assert LowPageOk(sp.m, pd, sp.used, t);
    assert NotATable(sp.m, pd, t);
    TableEntriesKept(sp.m, pd, sp.used, d, t, g);
  }

  lemma TableEntriesKept(m: seq<Word>, pd: nat, used: set<nat>, d: nat, t: nat, g: nat)
    requires IsMem(m) && pd < NUM_PAGES && d < ENTRIES && t < NUM_PAGES && g < NUM_PAGES
    requires PagingOk(m, pd, used) && NotATable(m, pd, g) && !PdePresent(m, pd, d)
    ensures var m1 := TableEntered(m, pd, d, t, g);
            && PdesKept(m, m1, pd)
            && forall p | 0 <= p < NUM_PAGES && p / ENTRIES != RECURSIVE_PDE_IDX && PdePresent(m, pd, p / ENTRIES) ::
                 EntryKept(m, m1, pd, p)
  {
    hide LowPageOk, Recursive, Trans;
    var m1 := TableEntered(m, pd, d, t, g);
    forall e | 0 <= e < ENTRIES
      ensures PdeAt(m1, pd, e) == if e == d then t * PAGE_SIZE + KERNEL_PDE_DEFAULT_FLAGS else PdeAt(m, pd, e)
    {
      assert (pd * ENTRIES + e) / ENTRIES == pd;
    }
    forall p | 0 <= p < NUM_PAGES && p / ENTRIES != RECURSIVE_PDE_IDX && PdePresent(m, pd, p / ENTRIES)
      ensures EntryKept(m, m1, pd, p)
    {
      GovParts(m, pd, p);
    }
  }

  lemma PdesKeptTwice(a: seq<Word>, b: seq<Word>, c: seq<Word>, pd: nat)
    requires IsMem(a) && IsMem(b) && IsMem(c) && pd < NUM_PAGES && PdesKept(a, b, pd) && PdesKept(b, c, pd)
    ensures PdesKept(a, c, pd)
  {
  }

  /** map_pageframe: the page's entry has exactly the flags asked for, and the entries of all pages
      that it does not share the word with are as before. */
  lemma MapPageEntries(sp: Space, sp': Space, pd: nat, total: nat, vp: nat, phys: Word, flags: Word)
    requires SpaceOk(sp, pd, total) && vp < NUM_PAGES && TableReached(sp, pd, total, vp) && phys % PAGE_SIZE == 0
    requires MapPage(sp, pd, total, vp, phys, flags) == Done(sp')
    ensures IsMem(sp'.m) && EntryFlags(sp'.m, pd, vp) == ConvertFlagsToArchFlags(flags) && PdesKept(sp.m, sp'.m, pd)
    ensures forall p | 0 <= p < NUM_PAGES && p / ENTRIES != RECURSIVE_PDE_IDX && PdePresent(sp.m, pd, p / ENTRIES)
                       && !Together(sp'.m, pd, vp, p) ::
              EntryKept(sp.m, sp'.m, pd, p)
  {
    hide PagingOk, AllocTable, PutPte, FirstFit, EntryFlags, Together, TableWouldBeCleared, Trans, GovIndex;
    if PdePresent(sp.m, pd, vp / ENTRIES) {
      PutPteEntries(sp, pd, total, vp, phys, flags);
    } else {
      var s1 := AllocTable(sp, pd, total, vp / ENTRIES).sp;
      AllocTableOk(sp, pd, total, vp / ENTRIES);
      TableKeepsEntries(sp, pd, total, vp / ENTRIES);
      PutPteEntries(s1, pd, total, vp, phys, flags);
      PdesKeptTwice(sp.m, s1.m, sp'.m, pd);
    }
  }

  // ----- regions

  /** The entries of all pages of S have the flags asked for. */
  ghost predicate Flagged(m: seq<Word>, pd: nat, S: set<nat>, flags: Word)
    requires IsMem(m) && pd < NUM_PAGES
  {
    forall p | p in S :: p < NUM_PAGES && EntryFlags(m, pd, p) == ConvertFlagsToArchFlags(flags)
  }

  /** The entries of all pages of S are the same. */
  ghost predicate AllKept(m: seq<Word>, m': seq<Word>, pd: nat, S: set<nat>)
    requires IsMem(m) && IsMem(m') && pd < NUM_PAGES
  {
    forall p | p in S :: p < NUM_PAGES && EntryKept(m, m', pd, p)
  }

  /** Pages of the area manager are mapped, and in no one's way. */
  lemma OwnedIsMapped(sp: Space, pd: nat, total: nat, z: Zone, P: set<nat>, p: nat)
    requires Backed(sp, pd, total, z, P) && p in P + z.devices
    ensures IsMem(sp.m) && pd < NUM_PAGES && p < NUM_PAGES && p / ENTRIES != RECURSIVE_PDE_IDX
    ensures PdePresent(sp.m, pd, p / ENTRIES)
  {
    hide PagingOk, NotATable, LowAliases, DeviceFramesOk;
    if p in P { assert Trans(sp.m, pd, p).Some?; } else { assert Trans(sp.m, pd, p) == Some(p); }
  }

  /** One page of memory more. */
  lemma BackOneEntries(sp: Space, sp': Space, pd: nat, total: nat, z: Zone, P: set<nat>, vp: nat, f: nat, flags: Word)
    requires Backed(sp, pd, total, z, P) && KernelPage(pd, vp) && vp !in P && z.lo <= vp && vp !in z.devices
    requires DataFrame(sp, pd, total, f) && Unowned(sp, pd, z, P, f)
    requires MapPage(sp, pd, total, vp, f * PAGE_SIZE, flags) == Done(sp')
    ensures IsMem(sp.m) && IsMem(sp'.m) && pd < NUM_PAGES && PdesKept(sp.m, sp'.m, pd)
    ensures AllKept(sp.m, sp'.m, pd, P + z.devices) && EntryFlags(sp'.m, pd, vp) == ConvertFlagsToArchFlags(flags)
  {
    hide PagingOk, MapPage, Together, EntryKept, EntryFlags, PdesKept, Owned, LowAliases, NoStray, DeviceFramesOk, Trans;
    MapPageEntries(sp, sp', pd, total, vp, f * PAGE_SIZE, flags);
    MapGrows(sp, sp', pd, total, z, P, vp, f, flags);
    forall p | p in P + z.devices ensures p < NUM_PAGES && EntryKept(sp.m, sp'.m, pd, p) {
      OwnedIsMapped(sp, pd, total, z, P, p);
      OwnedApart(sp, sp', pd, total, z, P, vp, p);
    }
  }

  lemma OwnedApart(sp: Space, sp': Space, pd: nat, total: nat, z: Zone, P: set<nat>, vp: nat, p: nat)
    requires Backed(sp, pd, total, z, P) && KernelPage(pd, vp) && vp !in P && z.lo <= vp && vp !in z.devices
    requires p in P + z.devices && SpaceOk(sp', pd, total) && PdePresent(sp'.m, pd, vp / ENTRIES) && p < NUM_PAGES
    ensures !Together(sp'.m, pd, vp, p)
  {
    hide PagingOk, NotATable, LowAliases, DeviceFramesOk, NoStray, Trans;
    if p in P {
      if PdePresent(sp'.m, pd, p / ENTRIES) { KernelPagesApart(sp', pd, total, vp, p); }
    } else {
      DeviceApart(sp', pd, total, z, vp, p);
    }
  }

  /** What the loops over memory have done to the entries so far. */
  ghost predicate EntriesSoFar(m: seq<Word>, m': seq<Word>, pd: nat, S: set<nat>, vp: nat, flags: Word, n: nat)
    requires IsMem(m) && IsMem(m') && pd < NUM_PAGES
  {
    Flagged(m', pd, Pages(vp, n), flags) && AllKept(m, m', pd, S) && PdesKept(m, m', pd)
  }

  lemma EntriesNone(m: seq<Word>, pd: nat, S: set<nat>, vp: nat, flags: Word)
    requires IsMem(m) && pd < NUM_PAGES && forall p | p in S :: p < NUM_PAGES && PdePresent(m, pd, p / ENTRIES)
    ensures EntriesSoFar(m, m, pd, S, vp, flags, 0)
  {
  }

  lemma EntriesNext(m: seq<Word>, m1: seq<Word>, m2: seq<Word>, pd: nat, S: set<nat>, vp: nat, flags: Word, n: nat)
    requires IsMem(m) && IsMem(m1) && IsMem(m2) && pd < NUM_PAGES && vp + n < NUM_PAGES
    requires EntriesSoFar(m, m1, pd, S, vp, flags, n) && PdesKept(m1, m2, pd)
    requires AllKept(m1, m2, pd, S + Pages(vp, n)) && EntryFlags(m2, pd, vp + n) == ConvertFlagsToArchFlags(flags)
    ensures EntriesSoFar(m, m2, pd, S, vp, flags, n + 1)
  {
    hide PdePresent, PdesKept, ConvertFlagsToArchFlags;
    PdesKeptTwice(m, m1, m2, pd);
    forall p | p in S ensures p < NUM_PAGES && EntryKept(m, m2, pd, p) {
      assert EntryKept(m, m1, pd, p) && p in S + Pages(vp, n);
    }
    forall p | p in Pages(vp, n + 1) ensures p < NUM_PAGES && EntryFlags(m2, pd, p) == ConvertFlagsToArchFlags(flags) {
      if p != vp + n { assert p in Pages(vp, n) && p in S + Pages(vp, n) && EntryKept(m1, m2, pd, p); }
    }
  }

  lemma MappedPages(sp: Space, pd: nat, total: nat, z: Zone, P: set<nat>)
    requires Backed(sp, pd, total, z, P)
    ensures IsMem(sp.m) && pd < NUM_PAGES
    ensures forall p | p in P + z.devices :: p < NUM_PAGES && PdePresent(sp.m, pd, p / ENTRIES)
  {
    hide Backed;
    BackedHasSpace(sp, pd, total, z, P);
    forall p | p in P + z.devices ensures p < NUM_PAGES && PdePresent(sp.m, pd, p / ENTRIES) {
      OwnedIsMapped(sp, pd, total, z, P, p);
    }
  }

  lemma {:induction false} RunEntries(sp: Space, sp': Space, pd: nat, total: nat, z: Zone, P: set<nat>,
                                      vp: nat, f: nat, flags: Word, n: nat)
    requires Backed(sp, pd, total, z, P) && FreshPages(pd, z, P, vp, n) && f + n <= total
    requires forall g: nat | f <= g < f + n :: DataFrame(sp, pd, total, g) && Unowned(sp, pd, z, P, g)
    requires MapRun(sp, pd, total, vp, f, flags, n) == Done(sp')
    ensures IsMem(sp.m) && IsMem(sp'.m) && pd < NUM_PAGES
    ensures EntriesSoFar(sp.m, sp'.m, pd, P + z.devices, vp, flags, n)
    decreases n
  {
    hide Backed, MapPage, DataFrame, Unowned, RunBacked, KernelPage, EntriesSoFar, AllKept, EntryFlags, PdesKept;
    BackedHasSpace(sp, pd, total, z, P);
    if n == 0 {
      MappedPages(sp, pd, total, z, P);
      EntriesNone(sp.m, pd, P + z.devices, vp, flags);
    } else {
      var s1 := MapRun(sp, pd, total, vp, f, flags, n - 1).sp;
      RunEntries(sp, s1, pd, total, z, P, vp, f, flags, n - 1);
      BackRun(sp, s1, pd, total, z, P, vp, f, flags, n - 1);
      RunEntriesRound(sp, s1, sp', pd, total, z, P, vp, f, flags, n);
    }
  }

  lemma RunEntriesRound(sp: Space, s1: Space, s2: Space, pd: nat, total: nat, z: Zone, P: set<nat>,
                        vp: nat, f: nat, flags: Word, n: nat)
    requires n > 0 && RunBacked(sp, s1, pd, total, z, P, vp, f, n - 1) && FreshPages(pd, z, P, vp, n)
    requires DataFrame(sp, pd, total, f + n - 1) && Unowned(sp, pd, z, P, f + n - 1) && IsMem(sp.m) && IsMem(s1.m)
    requires pd < NUM_PAGES && total <= NUM_PAGES && f + n <= NUM_PAGES
    requires EntriesSoFar(sp.m, s1.m, pd, P + z.devices, vp, flags, n - 1)
    requires MapPage(s1, pd, total, vp + n - 1, (f + n - 1) * PAGE_SIZE, flags) == Done(s2)
    ensures IsMem(s2.m) && EntriesSoFar(sp.m, s2.m, pd, P + z.devices, vp, flags, n)
  {
    hide Backed, MapPage, DataFrame, Unowned, EntriesSoFar, AllKept, EntryFlags, PdesKept, Grown, Trans;
    var none: set<nat> := {};
    GrownKeepsData(sp, s1, pd, total, Pages(vp, n - 1), none, f + n - 1);
    StillUnowned(sp, s1, pd, z, P, vp, f, n - 1);
    assert KernelPage(pd, vp + n - 1);
    BackOneEntries(s1, s2, pd, total, z, P + Pages(vp, n - 1), vp + n - 1, f + n - 1, flags);
    assert P + Pages(vp, n - 1) + z.devices == P + z.devices + Pages(vp, n - 1);
    EntriesNext(sp.m, s1.m, s2.m, pd, P + z.devices, vp, flags, n - 1);
  }

  lemma {:induction false} ScatterEntries(sp: Space, sp': Space, pd: nat, total: nat, z: Zone, P: set<nat>,
                                          vp: nat, flags: Word, n: nat)
    requires Backed(sp, pd, total, z, P) && FreshPages(pd, z, P, vp, n)
    requires MapScattered(sp, pd, total, vp, flags, n) == Done(sp')
    ensures IsMem(sp.m) && IsMem(sp'.m) && pd < NUM_PAGES
    ensures EntriesSoFar(sp.m, sp'.m, pd, P + z.devices, vp, flags, n)
    decreases n
  {
    hide Backed, MapPage, MapScattered, ScatterBacked, KernelPage, EntriesSoFar, AllKept, EntryFlags, PdesKept, FirstFit;
    BackedHasSpace(sp, pd, total, z, P);
    if n == 0 {
      NoneScattered(sp, pd, total, vp, flags);
      MappedPages(sp, pd, total, z, P);
      EntriesNone(sp.m, pd, P + z.devices, vp, flags);
    } else {
      var s1, f := LastScatter(sp, sp', pd, total, vp, flags, n);
      ScatterEntries(sp, s1, pd, total, z, P, vp, flags, n - 1);
      BackScattered(sp, s1, pd, total, z, P, vp, flags, n - 1);
      ScatterEntriesRound(sp, s1, sp', pd, total, z, P, vp, f, flags, n);
    }
  }

  lemma ScatterEntriesRound(sp: Space, s1: Space, s2: Space, pd: nat, total: nat, z: Zone, P: set<nat>,
                            vp: nat, f: nat, flags: Word, n: nat)
    requires n > 0 && ScatterBacked(sp, s1, pd, total, z, P, vp, n - 1) && FreshPages(pd, z, P, vp, n)
    requires f !in s1.used && f < total <= NUM_PAGES && IsMem(sp.m) && IsMem(s1.m) && pd < NUM_PAGES
    requires EntriesSoFar(sp.m, s1.m, pd, P + z.devices, vp, flags, n - 1)
    requires MapPage(s1.(used := s1.used + {f}), pd, total, vp + n - 1, f * PAGE_SIZE, flags) == Done(s2)
    ensures IsMem(s2.m) && EntriesSoFar(sp.m, s2.m, pd, P + z.devices, vp, flags, n)
  {
    hide Backed, MapPage, DataFrame, Unowned, EntriesSoFar, AllKept, EntryFlags, PdesKept, Grown, Trans, FramesOf;
    var Q, p := P + Pages(vp, n - 1), vp + n - 1;
    AllocatedFrames(s1, pd, total, z, Q, {f});
    assert KernelPage(pd, p);
    BackOneEntries(s1.(used := s1.used + {f}), s2, pd, total, z, Q, p, f, flags);
    assert Q + z.devices == P + z.devices + Pages(vp, n - 1);
    EntriesNext(sp.m, s1.m, s2.m, pd, P + z.devices, vp, flags, n - 1);
  }

  /** Memory that is backed: every page of the region has exactly the flags of the request, and the
      entries of the pages that were owned, and of devices, are untouched. */
  lemma BackRegionEntries(sp: Space, sp': Space, pd: nat, total: nat, z: Zone, P: set<nat>,
                          vp: nat, flags: Word, n: nat)
    requires Backed(sp, pd, total, z, P) && FreshPages(pd, z, P, vp, n)
    requires BackRegion(sp, pd, total, vp, flags, n) == Done(sp')
    ensures IsMem(sp.m) && IsMem(sp'.m) && pd < NUM_PAGES
    ensures EntriesSoFar(sp.m, sp'.m, pd, P + z.devices, vp, flags, n)
  {
    hide Backed, MapRun, MapScattered, FirstFit, FreshPages, DataFrame, Unowned, EntriesSoFar;
    BackedHasSpace(sp, pd, total, z, P);
    match FirstFit(sp.used, total, n)
    case None => ScatterEntries(sp, sp', pd, total, z, P, vp, flags, n);
    case Some(f) =>
      FirstFitIsFree(sp.used, total, n);
      AllocatedFrames(sp, pd, total, z, P, Frames(f, n));
      RunEntries(sp.(used := sp.used + Frames(f, n)), sp', pd, total, z, P, vp, f, flags, n);
  }

  // ----- devices

  lemma DeviceOneEntries(sp: Space, sp': Space, pd: nat, total: nat, z: Zone, P: set<nat>, q: nat, flags: Word)
    requires Backed(sp, pd, total, z, P) && SpaceOk(sp', pd, total) && DevicePage(pd, z.lo, q)
    requires q !in P && q !in z.devices && TableReached(sp, pd, total, q)
    requires MapPage(sp, pd, total, q, q * PAGE_SIZE, flags) == Done(sp')
    ensures IsMem(sp.m) && PdesKept(sp.m, sp'.m, pd)
    ensures AllKept(sp.m, sp'.m, pd, P + z.devices) && EntryFlags(sp'.m, pd, q) == ConvertFlagsToArchFlags(flags)
  {
    hide PagingOk, MapPage, Together, EntryKept, EntryFlags, PdesKept, LowAliases, DeviceFramesOk, Trans, TableReached,
         DataFrame;
    MapPageEntries(sp, sp', pd, total, q, q * PAGE_SIZE, flags);
    PageHasTable(sp, sp', pd, total, q, flags);
    forall p | p in P + z.devices ensures p < NUM_PAGES && EntryKept(sp.m, sp'.m, pd, p) {
      OwnedIsMapped(sp, pd, total, z, P, p);
      DeviceAlone(sp', pd, total, z, q, p);
    }
  }

  lemma PageHasTable(sp: Space, sp': Space, pd: nat, total: nat, q: nat, flags: Word)
    requires SpaceOk(sp, pd, total) && q < NUM_PAGES && TableReached(sp, pd, total, q)
    requires MapPage(sp, pd, total, q, q * PAGE_SIZE, flags) == Done(sp')
    ensures IsMem(sp'.m) && PdePresent(sp'.m, pd, q / ENTRIES)
  {
    hide MapPage, Together, Trans, PagingOk, TableWouldBeCleared;
    MapPageEffect(sp, sp', pd, total, q, q * PAGE_SIZE, flags);
  }

  lemma DeviceEntriesRound(sp: Space, s1: Space, s2: Space, pd: nat, total: nat, z: Zone, P: set<nat>,
                           vp: nat, flags: Word, n: nat)
    requires n > 0 && DeviceBacked(sp, s1, pd, total, z, P, vp, n - 1) && DeviceBacked(sp, s2, pd, total, z, P, vp, n)
    requires IsMem(sp.m) && IsMem(s1.m) && pd < NUM_PAGES && total <= NUM_PAGES && vp + n <= NUM_PAGES
    requires DeviceFits(sp, pd, total, z, P, vp, n) && !(exists p :: p in Pages(vp, n) && p in z.devices)
    requires TableReached(s1, pd, total, vp + n - 1)
    requires EntriesSoFar(sp.m, s1.m, pd, P + z.devices, vp, flags, n - 1)
    requires MapPage(s1, pd, total, vp + n - 1, (vp + n - 1) * PAGE_SIZE, flags) == Done(s2)
    ensures IsMem(s2.m) && EntriesSoFar(sp.m, s2.m, pd, P + z.devices, vp, flags, n)
  {
    hide Backed, MapPage, EntriesSoFar, AllKept, EntryFlags, PdesKept, DeviceGrown, Trans, TableReached;
    var z1, q := WithDevices(z, Pages(vp, n - 1)), vp + n - 1;
    assert q in Pages(vp, n);
    DeviceSpaceOk(s2, pd, total, WithDevices(z, Pages(vp, n)), P);
    DeviceOneEntries(s1, s2, pd, total, z1, P, q, flags);
    assert P + z1.devices == P + z.devices + Pages(vp, n - 1);
    EntriesNext(sp.m, s1.m, s2.m, pd, P + z.devices, vp, flags, n - 1);
  }

  lemma DeviceSpaceOk(sp: Space, pd: nat, total: nat, z: Zone, P: set<nat>)
    requires Backed(sp, pd, total, z, P)
    ensures SpaceOk(sp, pd, total)
  {
  }

  lemma {:induction false} DeviceEntries(sp: Space, sp': Space, pd: nat, total: nat, z: Zone, P: set<nat>,
                                         vp: nat, flags: Word, n: nat)
    requires Backed(sp, pd, total, z, P) && IsMem(sp.m) && pd < NUM_PAGES && total <= NUM_PAGES && vp + n <= NUM_PAGES
    requires DeviceFits(sp, pd, total, z, P, vp, n) && forall p | p in Pages(vp, n) :: p !in z.devices
    requires z.lo >= FIRST_FREE_PAGE || TablesReached(sp, pd, total, vp, flags, n)
    requires MapRun(sp, pd, total, vp, vp, flags, n) == Done(sp')
    ensures IsMem(sp'.m) && EntriesSoFar(sp.m, sp'.m, pd, P + z.devices, vp, flags, n)
    decreases n
  {
    hide Backed, MapPage, DeviceBacked, DeviceFits, EntriesSoFar, AllKept, EntryFlags, PdesKept, TableReached;
    if n == 0 {
      MappedPages(sp, pd, total, z, P);
      EntriesNone(sp.m, pd, P + z.devices, vp, flags);
    } else {
      var s1 := MapRun(sp, pd, total, vp, vp, flags, n - 1).sp;
      FewerFit(sp, pd, total, z, P, vp, n);
      PagesOneMore({}, vp, n);
      DeviceEntries(sp, s1, pd, total, z, P, vp, flags, n - 1);
      DeviceRun(sp, s1, pd, total, z, P, vp, flags, n - 1);
      DeviceRun(sp, sp', pd, total, z, P, vp, flags, n);
      if z.lo >= FIRST_FREE_PAGE { LastReached(sp, s1, sp', pd, total, z, P, vp, flags, n); }
      DeviceEntriesRound(sp, s1, sp', pd, total, z, P, vp, flags, n);
    }
  }

  lemma LastReached(sp: Space, s1: Space, s: Space, pd: nat, total: nat, z: Zone, P: set<nat>,
                    vp: nat, flags: Word, n: nat)
    requires n > 0 && z.lo >= FIRST_FREE_PAGE && IsMem(sp.m) && pd < NUM_PAGES && vp + n <= NUM_PAGES
    requires DeviceFits(sp, pd, total, z, P, vp, n) && DeviceBacked(sp, s1, pd, total, z, P, vp, n - 1)
    requires IsMem(s1.m) && total <= NUM_PAGES
    requires MapPage(s1, pd, total, vp + n - 1, (vp + n - 1) * PAGE_SIZE, flags) == Done(s)
    ensures TableReached(s1, pd, total, vp + n - 1)
  {
    hide Backed, MapPage, DeviceGrown, TableReached, Trans;
    assert vp + n - 1 in Pages(vp, n);
    DeviceTableReached(s1, s, pd, total, WithDevices(z, Pages(vp, n - 1)), P, vp + n - 1, flags);
  }

  /** A device that is mapped: its pages too have exactly the flags of the request. */
  lemma BackDeviceEntries(sp: Space, sp': Space, pd: nat, total: nat, z: Zone, P: set<nat>,
                          vp: nat, flags: Word, n: nat)
    requires Backed(sp, pd, total, z, P) && IsMem(sp.m) && pd < NUM_PAGES && total <= NUM_PAGES && vp + n <= NUM_PAGES
    requires DeviceFits(Requested(sp, total, vp, n), pd, total, z, P, vp, n)
    requires forall p | p in Pages(vp, n) :: p !in z.devices
    requires z.lo >= FIRST_FREE_PAGE || TablesReached(Requested(sp, total, vp, n), pd, total, vp, flags, n)
    requires BackDevice(sp, pd, total, vp, flags, n) == Done(sp')
    ensures IsMem(sp'.m) && EntriesSoFar(sp.m, sp'.m, pd, P + z.devices, vp, flags, n)
  {
    hide Backed, MapRun, DeviceFits, TablesReached, EntriesSoFar, AllFree;
    RequestedIsBacked(sp, pd, total, z, P, vp, n);
    DeviceEntries(Requested(sp, total, vp, n), sp', pd, total, z, P, vp, flags, n);
  }

  // ----- releasing

  /** Freeing touches the entries of the pages freed alone. */
  lemma {:induction false} FreeRunEntries(sp: Space, sp': Space, pd: nat, total: nat, z: Zone, P: set<nat>,
                                          vp: nat, n: nat)
    requires Backed(sp, pd, total, z, P) && vp + n <= NUM_PAGES && forall p | p in Pages(vp, n) :: p in P
    requires IsMem(sp.m) && pd < NUM_PAGES && FreeRun(sp, pd, vp, n) == Some(sp')
    ensures IsMem(sp'.m) && AllKept(sp.m, sp'.m, pd, P - Pages(vp, n) + z.devices) && PdesKept(sp.m, sp'.m, pd)
    decreases n
  {
    hide Backed, FreePage, AllKept, PdesKept;
    if n == 0 {
      MappedPages(sp, pd, total, z, P);
      NoneFreed(sp.m, pd, P - Pages(vp, 0) + z.devices);
    } else {
      PagesOneLess(P, vp, n);
      var s1 := FreeRunOk(sp, pd, total, z, P, vp, n - 1);
      FreeRunEntries(sp, s1, pd, total, z, P, vp, n - 1);
      FreePageEntries(s1, sp', pd, total, z, P - Pages(vp, n - 1), vp + n - 1);
      KeptByBoth(sp.m, s1.m, sp'.m, pd, P - Pages(vp, n - 1) + z.devices,
                 P - Pages(vp, n - 1) - {vp + n - 1} + z.devices);
    }
  }

  lemma NoneFreed(m: seq<Word>, pd: nat, S: set<nat>)
    requires IsMem(m) && pd < NUM_PAGES && forall p | p in S :: p < NUM_PAGES && PdePresent(m, pd, p / ENTRIES)
    ensures AllKept(m, m, pd, S) && PdesKept(m, m, pd)
  {
  }

  lemma KeptByBoth(a: seq<Word>, b: seq<Word>, c: seq<Word>, pd: nat, S: set<nat>, T: set<nat>)
    requires IsMem(a) && IsMem(b) && IsMem(c) && pd < NUM_PAGES && T <= S
    requires AllKept(a, b, pd, S) && PdesKept(a, b, pd) && AllKept(b, c, pd, T) && PdesKept(b, c, pd)
    ensures AllKept(a, c, pd, T) && PdesKept(a, c, pd)
  {
    hide PdesKept;
    PdesKeptTwice(a, b, c, pd);
  }

  lemma FreePageEntries(sp: Space, sp': Space, pd: nat, total: nat, z: Zone, P: set<nat>, q: nat)
    requires Backed(sp, pd, total, z, P) && q in P && q < NUM_PAGES && IsMem(sp.m) && pd < NUM_PAGES
    requires FreePage(sp, pd, q) == Some(sp')
    ensures IsMem(sp'.m) && AllKept(sp.m, sp'.m, pd, P - {q} + z.devices) && PdesKept(sp.m, sp'.m, pd)
  {
    hide PagingOk, Owned, LowAliases, NoStray, DevicesOk, DeviceFramesOk, Trans;
    UnmapOne(sp, pd, total, z, P, q);
    OwnedIsMapped(sp, pd, total, z, P, q);
    WordElsewhere(sp, pd, total, q);
    forall p | p in P - {q} + z.devices ensures p < NUM_PAGES && EntryKept(sp.m, sp'.m, pd, p) {
      OwnedIsMapped(sp, pd, total, z, P, p);
      FreedApart(sp, pd, total, z, P, q, p);
    }
  }

  lemma FreedApart(sp: Space, pd: nat, total: nat, z: Zone, P: set<nat>, q: nat, p: nat)
    requires Backed(sp, pd, total, z, P) && q in P && p in P - {q} + z.devices
    ensures IsMem(sp.m) && pd < NUM_PAGES && p < NUM_PAGES && q < NUM_PAGES
    ensures GovIndex(sp.m, pd, p) != GovIndex(sp.m, pd, q)
  {
    hide PagingOk, NotATable, LowAliases, DeviceFramesOk, Trans, DataFrame;
    OwnedIsMapped(sp, pd, total, z, P, p);
    OwnedIsMapped(sp, pd, total, z, P, q);
    if p in P { KernelPagesApart(sp, pd, total, p, q); } else { DeviceApart(sp, pd, total, z, q, p); }
  }

  /** The word of a page outside the recursive window is no entry of the directory. */
  lemma WordElsewhere(sp: Space, pd: nat, total: nat, q: nat)
    requires SpaceOk(sp, pd, total) && q < NUM_PAGES && q / ENTRIES != RECURSIVE_PDE_IDX
    requires PdePresent(sp.m, pd, q / ENTRIES)
    ensures forall d | 0 <= d < ENTRIES :: PdeAt(sp.m[GovIndex(sp.m, pd, q) := 0], pd, d) == PdeAt(sp.m, pd, d)
  {
    hide LowPageOk, Recursive, Trans;
    GovParts(sp.m, pd, q);
    forall d | 0 <= d < ENTRIES
      ensures PdeAt(sp.m[GovIndex(sp.m, pd, q) := 0], pd, d) == PdeAt(sp.m, pd, d)
    {
      assert (pd * ENTRIES + d) / ENTRIES == pd;
    }
  }

  // ----- runs

  /** The pages of an area with frames or of a device have the flags that the area records. */
  ghost predicate AreaFlagged(m: seq<Word>, pd: nat, a: Area)
    requires IsMem(m) && pd < NUM_PAGES
  {
    Managed(a.flags) || HasFlag(a.flags, VM_AREA_MMIO) ==>
      Flagged(m, pd, Pages(a.start / PAGE_SIZE, a.length / PAGE_SIZE), a.flags)
  }

  ghost predicate ListFlagged(m: seq<Word>, pd: nat, s: seq<Area>)
    requires IsMem(m) && pd < NUM_PAGES
  {
    forall i | 0 <= i < |s| :: AreaFlagged(m, pd, s[i])
  }

  ghost predicate EntriesOk(k: Kernel, c: VmmRuns.Config)
    requires IsMem(k.sp.m) && c.pd < NUM_PAGES
  {
    PdesOk(k.sp.m, c.pd) && ListFlagged(k.sp.m, c.pd, k.areas)
  }

  ghost function ListedPages(s: seq<Area>): set<nat> {
    PagesOf(s, Memory) + PagesOf(s, Device)
  }

  lemma AreaIsListed(s: seq<Area>, c: VmmRuns.Config, i: nat)
    requires AreasOk(s, c) && i < |s| && (Managed(s[i].flags) || HasFlag(s[i].flags, VM_AREA_MMIO))
    ensures Pages(s[i].start / PAGE_SIZE, s[i].length / PAGE_SIZE) <= ListedPages(s)
  {
    hide HasFlag;
    var kind := if Managed(s[i].flags) then Memory else Device;
    assert AreaOk(s[i], c);
    AreaPagesExist(s[i], kind);
    forall p | p in PagesIf(s[i], kind) ensures p in PagesOf(s, kind) {
      AreaHolds(s[i], kind, p);
    }
  }

  lemma FlaggedStays(m: seq<Word>, m': seq<Word>, pd: nat, S: set<nat>, T: set<nat>, flags: Word)
    requires IsMem(m) && IsMem(m') && pd < NUM_PAGES && Flagged(m, pd, T, flags) && T <= S && AllKept(m, m', pd, S)
    ensures Flagged(m', pd, T, flags)
  {
    hide GovIndex, PdePresent, ConvertFlagsToArchFlags;
    forall p | p in T ensures p < NUM_PAGES && EntryFlags(m', pd, p) == ConvertFlagsToArchFlags(flags) {
      assert p in S && EntryKept(m, m', pd, p);
    }
  }

  /** While the entries of the pages listed stay, so do the areas' flags. */
  lemma ListSurvives(m: seq<Word>, m': seq<Word>, c: VmmRuns.Config, s: seq<Area>)
    requires IsMem(m) && IsMem(m') && c.pd < NUM_PAGES && AreasOk(s, c) && ListFlagged(m, c.pd, s)
    requires AllKept(m, m', c.pd, ListedPages(s))
    ensures ListFlagged(m', c.pd, s)
  {
    hide AllKept, Flagged, AreasOk, ListedPages, HasFlag;
    forall i | 0 <= i < |s| ensures AreaFlagged(m', c.pd, s[i]) {
      assert AreaFlagged(m, c.pd, s[i]);
      if Managed(s[i].flags) || HasFlag(s[i].flags, VM_AREA_MMIO) {
        AreaIsListed(s, c, i);
        FlaggedStays(m, m', c.pd, ListedPages(s), Pages(s[i].start / PAGE_SIZE, s[i].length / PAGE_SIZE), s[i].flags);
      }
    }
  }

  lemma PdesStayOk(m: seq<Word>, m': seq<Word>, pd: nat)
    requires IsMem(m) && IsMem(m') && pd < NUM_PAGES && PdesOk(m, pd) && PdesKept(m, m', pd)
    ensures PdesOk(m', pd)
  {
  }

  lemma InsertFlagged(m: seq<Word>, pd: nat, s: seq<Area>, a: Area)
    requires IsMem(m) && pd < NUM_PAGES && ListFlagged(m, pd, s) && AreaFlagged(m, pd, a)
    ensures ListFlagged(m, pd, Insert(s, a))
  {
    hide AreaFlagged, Insert;
    var k := InsertSplits(s, a);
    var r := Insert(s, a);
    forall i | 0 <= i < |r| ensures AreaFlagged(m, pd, r[i]) {
      assert r[i] == if i < k then s[i] else if i == k then a else s[i - 1];
    }
  }

  /** A region that was backed and listed. */
  lemma ListedEntries(k: Kernel, sp': Space, c: VmmRuns.Config, a: Area, n: nat)
    requires Inv(k, c) && IsMem(k.sp.m) && c.pd < NUM_PAGES && EntriesOk(k, c) && IsMem(sp'.m)
    requires n == a.length / PAGE_SIZE
    requires EntriesSoFar(k.sp.m, sp'.m, c.pd, OwnedPages(k.areas) + ZoneOf(k.areas, c).devices, a.start / PAGE_SIZE,
                          a.flags, n)
    ensures EntriesOk(Kernel(sp', Insert(k.areas, a)), c)
  {
    hide Backed, AreasOk, Flagged, AllKept, PdesKept, PdesOk, ListFlagged, Insert, PagesOf;
    ListSurvives(k.sp.m, sp'.m, c, k.areas);
    PdesStayOk(k.sp.m, sp'.m, c.pd);
    InsertFlagged(sp'.m, c.pd, k.areas, a);
  }

  lemma AllocKeepsEntries(k: Kernel, k': Kernel, c: VmmRuns.Config, size: Word, flags: Word)
    requires Inv(k, c) && Legal(k, c, Alloc(size, flags)) && Step(k, c, Alloc(size, flags)) == Some(k')
    requires IsMem(k.sp.m) && c.pd < NUM_PAGES && EntriesOk(k, c)
    ensures IsMem(k'.sp.m) && EntriesOk(k', c)
  {
    hide Inv, FirstAlloc, Step, HasFlag, BackRegion, FreshPages, EndsAboveBottom, EntriesOk, Insert, EntriesSoFar;
    var a, n := FirstAlloc(k.areas, c.bottom, c.top, size), NumPagesNeeded(size);
    Vmm.InvGivesSpace(k, c);
    if a == 0 {
      Vmm.AllocFails(k, c, size, flags);
    } else {
      AllocPlace(k, c, size, flags);
      Vmm.AllocStep(k, c, size, flags);
      BackRegionEntries(k.sp, k'.sp, c.pd, c.total, ZoneOf(k.areas, c), OwnedPages(k.areas), a / PAGE_SIZE, flags, n);
      ListedEntries(k, k'.sp, c, Area(a, n * PAGE_SIZE, flags), n);
    }
  }

  lemma RequestKeepsEntries(k: Kernel, k': Kernel, c: VmmRuns.Config, va: Word, size: Word, flags: Word)
    requires Inv(k, c) && Legal(k, c, Request(va, size, flags)) && Step(k, c, Request(va, size, flags)) == Some(k')
    requires IsMem(k.sp.m) && c.pd < NUM_PAGES && EntriesOk(k, c)
    ensures IsMem(k'.sp.m) && EntriesOk(k', c)
  {
    hide Inv, Step, HasFlag, BackRegion, BackDevice, FreshPages, Insert, AnyHit, DeviceMayBe, EntriesOk, EntriesSoFar;
    var n := NumPagesNeeded(size);
    Vmm.InvGivesSpace(k, c);
    Vmm.RequestStep(k, c, va, size, flags);
    if !AnyHit(k.areas, va, size) {
      Vmm.RequestReady(k, c, va, size, flags);
      if HasFlag(flags, VM_AREA_MMIO) {
        DeviceListedEntries(k, k'.sp, c, va, size, flags);
      } else {
        BackRegionEntries(k.sp, k'.sp, c.pd, c.total, ZoneOf(k.areas, c), OwnedPages(k.areas), va / PAGE_SIZE, flags, n);
      }
      ListedEntries(k, k'.sp, c, Area(va, n * PAGE_SIZE, flags), n);
    }
  }

  lemma DeviceListedEntries(k: Kernel, sp: Space, c: VmmRuns.Config, va: Word, size: Word, flags: Word)
    requires Inv(k, c) && Legal(k, c, Request(va, size, flags)) && !AnyHit(k.areas, va, size)
    requires HasFlag(flags, VM_AREA_MMIO) && IsMem(k.sp.m) && c.pd < NUM_PAGES && c.total <= NUM_PAGES
    requires va / PAGE_SIZE + NumPagesNeeded(size) <= NUM_PAGES
    requires BackDevice(k.sp, c.pd, c.total, va / PAGE_SIZE, flags, NumPagesNeeded(size)) == Done(sp)
    ensures IsMem(sp.m)
    ensures EntriesSoFar(k.sp.m, sp.m, c.pd, OwnedPages(k.areas) + ZoneOf(k.areas, c).devices, va / PAGE_SIZE, flags,
                         NumPagesNeeded(size))
  {
    hide Backed, BackDevice, AnyHit, AreasOk, DeviceFits, TablesReached, Requested, EntriesSoFar, HasFlag, PagesOf,
         Clear;
    var vp, n := va / PAGE_SIZE, NumPagesNeeded(size);
    NoHitIsClear(k.areas, c, va, size);
    forall p | p in Pages(vp, n) ensures p !in PagesOf(k.areas, Device) {
      ClearHolds(k.areas, va, n, Device, p);
      NotHeldNotListed(k.areas, Device, p);
    }
    BackDeviceEntries(k.sp, sp, c.pd, c.total, ZoneOf(k.areas, c), OwnedPages(k.areas), vp, flags, n);
  }

  lemma NotHeldNotListed(s: seq<Area>, kind: Kind, p: nat)
    requires !PageHeld(s, kind, p)
    ensures p !in PagesOf(s, kind)
  {
  }

  lemma FreeKeepsEntries(k: Kernel, k': Kernel, c: VmmRuns.Config, start: Word)
    requires Inv(k, c) && Legal(k, c, Free(start)) && Step(k, c, Free(start)) == Some(k')
    requires IsMem(k.sp.m) && c.pd < NUM_PAGES && EntriesOk(k, c)
    ensures IsMem(k'.sp.m) && EntriesOk(k', c)
  {
    hide Inv, Step, HasFlag, FreeRun, EntriesOk, IndexOf, PagesOf, Backed, SpaceOk;
    var i := IndexOf(k.areas, start).value;
    var a := k.areas[i];
    if HasFlag(a.flags, VM_AREA_MMIO) {
      Vmm.FreeDeviceStep(k, c, start, i);
    } else {
      Vmm.FreeReady(k, c, start);
      FreePlace(k, c, start);
      var sp := FreeRunOk(k.sp, c.pd, c.total, ZoneOf(k.areas, c), OwnedPages(k.areas), a.start / PAGE_SIZE,
                          a.length / PAGE_SIZE);
      FreeStep(k, c, start, i, sp);
      FreeRunEntries(k.sp, sp, c.pd, c.total, ZoneOf(k.areas, c), OwnedPages(k.areas), a.start / PAGE_SIZE,
                     a.length / PAGE_SIZE);
      FreedEntries(k, sp, c, i);
    }
  }

  lemma FreedEntries(k: Kernel, sp: Space, c: VmmRuns.Config, i: nat)
    requires Inv(k, c) && i < |k.areas| && Managed(k.areas[i].flags) && IsMem(k.sp.m) && IsMem(sp.m) && c.pd < NUM_PAGES
    requires EntriesOk(k, c) && PdesKept(k.sp.m, sp.m, c.pd)
    requires AllKept(k.sp.m, sp.m, c.pd, OwnedPages(Without(k.areas, i)) + ZoneOf(Without(k.areas, i), c).devices)
    ensures EntriesOk(Kernel(sp, Without(k.areas, i)), c)
  {
    hide Backed, AreasOk, AreaFlagged, AllKept, PdesKept, PdesOk, PagesOf, HasFlag;
    RemoveKeepsAreasOk(k.areas, c, i);
    var w := Without(k.areas, i);
    forall j | 0 <= j < |w| ensures AreaFlagged(k.sp.m, c.pd, w[j]) {
      assert w[j] == k.areas[if j < i then j else j + 1];
    }
    ListSurvives(k.sp.m, sp.m, c, w);
    PdesStayOk(k.sp.m, sp.m, c.pd);
  }

  // ----- extensions, which ask for writable memory whatever the area has

  predicate WriteOnly(flags: Word) {
    HasFlag(flags, VM_AREA_WRITE) && !HasFlag(flags, VM_AREA_USER_ACCESSIBLE)
  }

  lemma SameArchFlagsIff(flags: Word)
    ensures ConvertFlagsToArchFlags(flags) == ConvertFlagsToArchFlags(VM_AREA_WRITE) <==> WriteOnly(flags)
  {
    assert HasFlag(VM_AREA_WRITE, VM_AREA_WRITE) && !HasFlag(VM_AREA_WRITE, VM_AREA_USER_ACCESSIBLE);
  }

  lemma LongerFlaggedIff(m: seq<Word>, pd: nat, a: Area, extra: Word)
    requires IsMem(m) && pd < NUM_PAGES && Managed(a.flags) && AreaFlagged(m, pd, a)
    requires a.start % PAGE_SIZE == 0 && a.length % PAGE_SIZE == 0 && extra % PAGE_SIZE == 0 && 0 < extra
    requires a.End() + extra < 0x1_0000_0000
    requires Flagged(m, pd, Pages(a.End() / PAGE_SIZE, extra / PAGE_SIZE), VM_AREA_WRITE)
    ensures AreaFlagged(m, pd, a.(length := a.length + extra)) <==> WriteOnly(a.flags)
  {
    hide EntryFlags, ConvertFlagsToArchFlags, HasFlag;
    SameArchFlagsIff(a.flags);
    var vp, n, more := a.start / PAGE_SIZE, a.length / PAGE_SIZE, extra / PAGE_SIZE;
    assert a.End() / PAGE_SIZE == vp + n && (a.length + extra) / PAGE_SIZE == n + more;
    assert vp + n in Pages(vp + n, more) && vp + n in Pages(vp, n + more);
    if WriteOnly(a.flags) {
      forall p | p in Pages(vp, n + more)
        ensures p < NUM_PAGES && EntryFlags(m, pd, p) == ConvertFlagsToArchFlags(a.flags)
      {
        assert p in Pages(vp, n) || p in Pages(vp + n, more);
      }
    }
  }

  /** An extension keeps the pages as the areas record them iff the area extended is writable and
      not for users: the new pages are, whatever the area's flags. */
  lemma ExtendKeepsEntriesIff(k: Kernel, k': Kernel, c: VmmRuns.Config, start: Word, extra: Word)
    requires Inv(k, c) && Legal(k, c, Extend(start, extra)) && Step(k, c, Extend(start, extra)) == Some(k')
    requires IsMem(k.sp.m) && c.pd < NUM_PAGES && EntriesOk(k, c)
    ensures IsMem(k'.sp.m) && IndexOf(k.areas, start).Some?
    ensures EntriesOk(k', c) <==> WriteOnly(k.areas[IndexOf(k.areas, start).value].flags)
  {
    hide Inv, Step, AnyHit, Legal, Extended, EntriesOk, WriteOnly;
    var r := IndexOf(k.areas, start);
    Vmm.InvGivesSpace(k, c);
    if r.Some? { assert 0 <= k.areas[r.value].End() < 0x1_0000_0000; }
    if r.None? || AnyHit(k.areas, k.areas[r.value].End(), extra) {
      Vmm.ExtendFails(k, c, start, extra);
    } else {
      ExtensionKeepsEntriesIff(k, k', c, start, extra, r.value);
    }
  }

  lemma ExtensionKeepsEntriesIff(k: Kernel, k': Kernel, c: VmmRuns.Config, start: Word, extra: Word, i: nat)
    requires Inv(k, c) && Legal(k, c, Extend(start, extra)) && Step(k, c, Extend(start, extra)) == Some(k')
    requires IsMem(k.sp.m) && c.pd < NUM_PAGES && EntriesOk(k, c)
    requires IndexOf(k.areas, start) == Some(i) && 0 <= k.areas[i].End() < 0x1_0000_0000
    requires !AnyHit(k.areas, k.areas[i].End(), extra)
    ensures IsMem(k'.sp.m)
    ensures EntriesOk(k', c) <==> WriteOnly(k.areas[i].flags)
  {
    hide Inv, Step, HasFlag, BackRegion, FreshPages, AnyHit, Legal, Extended, Descending, IndexOf, EntriesOk,
         EntriesSoFar, WriteOnly;
    Vmm.InvGivesSpace(k, c);
    Vmm.LegalExtend(k, c, start, extra);
    ExtendPlace(k, c, start, extra);
    Vmm.ExtendStep(k, c, start, extra, i);
    WriteIsMemory();
    LegalExtra(k, c, start, extra);
    BackRegionEntries(k.sp, k'.sp, c.pd, c.total, ZoneOf(k.areas, c), OwnedPages(k.areas), k.areas[i].End() / PAGE_SIZE,
                      VM_AREA_WRITE, NumPagesNeeded(extra));
    ExtendedEntriesIff(k, k'.sp, c, i, extra);
  }

  lemma LegalExtra(k: Kernel, c: VmmRuns.Config, start: Word, extra: Word)
    requires Inv(k, c) && Legal(k, c, Extend(start, extra))
    ensures 0 < extra && extra % PAGE_SIZE == 0
  {
    hide Inv;
  }

  lemma ExtendedEntriesIff(k: Kernel, sp: Space, c: VmmRuns.Config, i: nat, extra: Word)
    requires Inv(k, c) && IsMem(k.sp.m) && c.pd < NUM_PAGES && EntriesOk(k, c) && IsMem(sp.m)
    requires i < |k.areas| && Managed(k.areas[i].flags) && 0 < extra && extra % PAGE_SIZE == 0
    requires 0 <= k.areas[i].End() && k.areas[i].End() + extra < 0x1_0000_0000
    requires EntriesSoFar(k.sp.m, sp.m, c.pd, OwnedPages(k.areas) + ZoneOf(k.areas, c).devices,
                          k.areas[i].End() / PAGE_SIZE, VM_AREA_WRITE, extra / PAGE_SIZE)
    ensures EntriesOk(Kernel(sp, Extended(k.areas, i, extra)), c) <==> WriteOnly(k.areas[i].flags)
  {
    hide Backed, Descending, AreaFlagged, Flagged, AllKept, PdesKept, PdesOk, PagesOf, HasFlag, WriteOnly;
    var s, r := k.areas, Extended(k.areas, i, extra);
    ListSurvives(k.sp.m, sp.m, c, s);
    PdesStayOk(k.sp.m, sp.m, c.pd);
    assert AreaOk(s[i], c) && AreaFlagged(sp.m, c.pd, s[i]);
    LongerFlaggedIff(sp.m, c.pd, s[i], extra);
    assert r[i] == s[i].(length := s[i].length + extra);
    forall j | 0 <= j < |r| && j != i ensures AreaFlagged(sp.m, c.pd, r[j]) {
      assert r[j] == s[j];
    }
  }

  // ----- whole runs

  /** The area that the call extends, if it does, is writable and not for users. */
  ghost predicate ExtendsPlainly(k: Kernel, op: Op) {
    op.Extend? ==> var r := IndexOf(k.areas, op.start); r.Some? ==> WriteOnly(k.areas[r.value].flags)
  }

  ghost predicate PlainRun(k: Kernel, c: VmmRuns.Config, ops: seq<Op>)
    decreases |ops|
  {
    ops == [] || (ExtendsPlainly(k, ops[0])
                  && (Inv(k, c) && Step(k, c, ops[0]).Some? ==> PlainRun(Step(k, c, ops[0]).value, c, ops[1..])))
  }

  lemma StepKeepsEntries(k: Kernel, k': Kernel, c: VmmRuns.Config, op: Op)
    requires Inv(k, c) && Legal(k, c, op) && Step(k, c, op) == Some(k') && ExtendsPlainly(k, op)
    requires IsMem(k.sp.m) && c.pd < NUM_PAGES && EntriesOk(k, c)
    ensures IsMem(k'.sp.m) && EntriesOk(k', c)
  {
    hide Inv, Legal, Step, EntriesOk, WriteOnly;
    match op
    case Alloc(size, flags) => AllocKeepsEntries(k, k', c, size, flags);
    case Request(va, size, flags) => RequestKeepsEntries(k, k', c, va, size, flags);
    case Extend(start, extra) => ExtendKeepsEntriesIff(k, k', c, start, extra);
    case Free(start) => FreeKeepsEntries(k, k', c, start);
  }

  lemma {:induction false} RunKeepsEntries(k: Kernel, c: VmmRuns.Config, ops: seq<Op>, k': Kernel)
    requires Inv(k, c) && Run(k, c, ops, k') && PlainRun(k, c, ops)
    requires IsMem(k.sp.m) && c.pd < NUM_PAGES && EntriesOk(k, c)
    ensures IsMem(k'.sp.m) && EntriesOk(k', c)
    decreases |ops|
  {
    hide Inv, Legal, Step, EntriesOk, ExtendsPlainly;
    if ops != [] {
      var k1 := Step(k, c, ops[0]).value;
      StepKeepsInv(k, k1, c, ops[0]);
      StepKeepsEntries(k, k1, c, ops[0]);
      RunKeepsEntries(k1, c, ops[1..], k');
    }
  }

  /** Both entries on the walk of page vp are present and have the bit. */
  ghost predicate Grants(m: seq<Word>, pd: nat, vp: nat, bit: nat)
    requires IsMem(m) && pd < NUM_PAGES && vp < NUM_PAGES
  {
    Trans(m, pd, vp).Some? && Bit(PdeAt(m, pd, vp / ENTRIES), bit) && Bit(m[GovIndex(m, pd, vp)], bit)
  }

  const WRITE_BIT := 1
  const USER_BIT := 2

  /** After every such run an area's memory may be written to iff the area asks for it, and no
      page is open to users, whatever its area asks for: the directory's entries deny it. */
  lemma RunGrants(k: Kernel, c: VmmRuns.Config, ops: seq<Op>, k': Kernel, i: nat, va: Word)
    requires Inv(k, c) && Run(k, c, ops, k') && PlainRun(k, c, ops)
    requires IsMem(k.sp.m) && c.pd < NUM_PAGES && EntriesOk(k, c)
    requires i < |k'.areas| && k'.areas[i].start <= va < k'.areas[i].End()
    requires Managed(k'.areas[i].flags) || HasFlag(k'.areas[i].flags, VM_AREA_MMIO)
    ensures IsMem(k'.sp.m)
    ensures Grants(k'.sp.m, c.pd, va / PAGE_SIZE, WRITE_BIT) <==> HasFlag(k'.areas[i].flags, VM_AREA_WRITE)
    ensures !Grants(k'.sp.m, c.pd, va / PAGE_SIZE, USER_BIT)
  {
    hide Inv, Run, EntriesOk, HasFlag, PlainRun;
    RunKeepsInv(k, c, ops, k');
    RunKeepsEntries(k, c, ops, k');
    AreaGrants(k', c, i, va);
  }

  lemma AreaGrants(k: Kernel, c: VmmRuns.Config, i: nat, va: Word)
    requires Inv(k, c) && IsMem(k.sp.m) && c.pd < NUM_PAGES && EntriesOk(k, c)
    requires i < |k.areas| && k.areas[i].start <= va < k.areas[i].End()
    requires Managed(k.areas[i].flags) || HasFlag(k.areas[i].flags, VM_AREA_MMIO)
    ensures Grants(k.sp.m, c.pd, va / PAGE_SIZE, WRITE_BIT) <==> HasFlag(k.areas[i].flags, VM_AREA_WRITE)
    ensures !Grants(k.sp.m, c.pd, va / PAGE_SIZE, USER_BIT)
  {
    hide Backed, Descending, HasFlag, PagesOf, Trans, Bit, ConvertFlagsToArchFlags, ListedPages;
    var a, vp := k.areas[i], va / PAGE_SIZE;
    assert AreaOk(a, c);
    StartOfPage(a.start, va);
    assert vp in Pages(a.start / PAGE_SIZE, a.length / PAGE_SIZE);
    AreaIsListed(k.areas, c, i);
    ListedIsMapped(k, c, vp);
    assert AreaFlagged(k.sp.m, c.pd, a) && EntryFlags(k.sp.m, c.pd, vp) == ConvertFlagsToArchFlags(a.flags);
    FlagsOfEntries(PdeAt(k.sp.m, c.pd, vp / ENTRIES), k.sp.m[GovIndex(k.sp.m, c.pd, vp)], a.flags);
  }

  lemma ListedIsMapped(k: Kernel, c: VmmRuns.Config, vp: nat)
    requires Inv(k, c) && vp in ListedPages(k.areas)
    ensures IsMem(k.sp.m) && c.pd < NUM_PAGES && vp < NUM_PAGES && Trans(k.sp.m, c.pd, vp).Some?
    ensures PdePresent(k.sp.m, c.pd, vp / ENTRIES)
  {
    hide PagingOk, NotATable, LowAliases, DeviceFramesOk, AreasOk, PagesOf, Together;
    assert Owned(k.sp, c.pd, c.total, OwnedPages(k.areas));
    assert DevicesOk(k.sp.m, c.pd, ZoneOf(k.areas, c), OwnedPages(k.areas));
    if vp in OwnedPages(k.areas) {
      assert Trans(k.sp.m, c.pd, vp).Some?;
    } else {
      assert Trans(k.sp.m, c.pd, vp) == Some(vp);
    }
  }

  /** The bits of two such entries. */
  lemma FlagsOfEntries(pde: Word, pte: Word, flags: Word)
    requires pde % PAGE_SIZE == KERNEL_PDE_DEFAULT_FLAGS && pte % PAGE_SIZE == ConvertFlagsToArchFlags(flags)
    ensures Bit(pde, WRITE_BIT) && !Bit(pde, USER_BIT) && (Bit(pte, WRITE_BIT) <==> HasFlag(flags, VM_AREA_WRITE))
  {
    hide ConvertFlagsToArchFlags, HasFlag, BitAnd, Bit;
    LowBits(pde);
    SameLowBits(pte, ConvertFlagsToArchFlags(flags));
    ArchFlagBits(flags, WRITE_BIT);
    TestMask(flags, 0);
    FlagIsMask(flags);
  }

  lemma FlagIsMask(flags: Word)
    ensures HasFlag(flags, VM_AREA_WRITE) <==> BitAnd(flags, Pow2(0)) != 0
  {
  }

  lemma LowBits(w: nat)
    ensures Bit(w, WRITE_BIT) <==> w % PAGE_SIZE / 2 % 2 == 1
    ensures Bit(w, USER_BIT) <==> w % PAGE_SIZE / 4 % 2 == 1
  {
    BitsByDivision(w);
    LowDigits(w / PAGE_SIZE, w % PAGE_SIZE);
  }

  lemma SameLowBits(w: nat, f: nat)
    requires w % PAGE_SIZE == f && f < PAGE_SIZE
    ensures Bit(w, WRITE_BIT) <==> Bit(f, WRITE_BIT)
  {
    hide Bit;
    LowBits(w);
    LowBits(f);
  }

  lemma BitsByDivision(w: nat)
    ensures Bit(w, WRITE_BIT) <==> w / 2 % 2 == 1
    ensures Bit(w, USER_BIT) <==> w / 4 % 2 == 1
  {
    BitByDivision(w, WRITE_BIT);
    BitByDivision(w, USER_BIT);
    assert Pow2(1) == 2 && Pow2(2) == 4;
  }

  lemma LowDigits(q: nat, r: nat)
    ensures (PAGE_SIZE * q + r) / 2 % 2 == r / 2 % 2 && (PAGE_SIZE * q + r) / 4 % 2 == r / 4 % 2
  {
    EvenMore(2048 * q, 2, r);
    EvenMore(1024 * q, 4, r);
    EvenRest(1024 * q, r / 2);
    EvenRest(512 * q, r / 4);
  }

  lemma EvenMore(h: nat, d: nat, r: nat)
    requires d > 0
    ensures (d * h + r) / d == h + r / d
  {
    assert d * h + r == d * (h + r / d) + r % d;
    EuclidUnique(d * h + r, d, h + r / d, r % d);
  }

  lemma EvenRest(h: nat, r: nat)
    ensures (2 * h + r) % 2 == r % 2
  {
  }
}
