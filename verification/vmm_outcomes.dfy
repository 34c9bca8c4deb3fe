/** When the calls of the area manager succeed, and what the areas and frames are afterwards. */
module VmmOutcomes {
  import opened Words
  import opened Wrappers
  import opened PagingFormat
  import opened Pmm
  import opened FrameSupply
  import opened Mmu
  import opened Mapping
  import opened Regions
  import opened Devices
  import opened Backing
  import opened Areas
  import opened VmmRuns
  import Vmm

  // ----- success

  /** The core can back n pages from va on. */
  ghost predicate RegionServed(k: Kernel, c: VmmRuns.Config, va: Word, flags: Word, n: nat)
    requires IsMem(k.sp.m) && c.pd < NUM_PAGES
  {
    va / PAGE_SIZE + n <= NUM_PAGES && CoreServed(k.sp, c.pd, c.total, va / PAGE_SIZE, flags, n)
  }

  /** What a call depends on: a place in the list, and frames for the region's pages and for the
      page tables it is short of. */
  ghost predicate Served(k: Kernel, c: VmmRuns.Config, op: Op)
    requires IsMem(k.sp.m) && c.pd < NUM_PAGES
  {
    match op
    case Alloc(size, flags) =>
      var a := FirstAlloc(k.areas, c.bottom, c.top, size);
      a != 0 && RegionServed(k, c, a, flags, NumPagesNeeded(size))
    case Request(va, size, flags) =>
      if AnyHit(k.areas, va, size) then HasFlag(flags, VM_AREA_MMIO)
      else RegionServed(k, c, va, flags, NumPagesNeeded(size))
    case Extend(start, extra) =>
      (match IndexOf(k.areas, start)
       case None => false
       case Some(i) =>
         var end := k.areas[i].End();
         && end + extra < 0x1_0000_0000 && !AnyHit(k.areas, end, extra)
         && RegionServed(k, c, end, VM_AREA_WRITE, NumPagesNeeded(extra)))
    case Free(start) => true
  }

  /** A legal call succeeds iff it has what it depends on; a legal free always succeeds. */
  lemma StepSucceedsIff(k: Kernel, c: VmmRuns.Config, op: Op)
    requires Inv(k, c) && Legal(k, c, op)
    ensures IsMem(k.sp.m) && c.pd < NUM_PAGES
    ensures Step(k, c, op).Some? <==> Served(k, c, op)
  {
    hide Inv, Legal, Step, FirstAlloc, AnyHit, RegionServed, HasFlag;
    InvHasSpace(k, c);
    match op
    case Alloc(size, flags) => AllocSucceedsIff(k, c, size, flags);
    case Request(va, size, flags) => RequestSucceedsIff(k, c, va, size, flags);
    case Extend(start, extra) => ExtendSucceedsIff(k, c, start, extra);
    case Free(start) => var _ := FreeSucceeds(k, c, start);
  }

  lemma AllocSucceedsIff(k: Kernel, c: VmmRuns.Config, size: Word, flags: Word)
    requires Inv(k, c) && Legal(k, c, Alloc(size, flags)) && IsMem(k.sp.m) && c.pd < NUM_PAGES
    ensures Step(k, c, Alloc(size, flags)).Some? <==> Served(k, c, Alloc(size, flags))
  {
    hide Inv, FirstAlloc, Step, HasFlag, BackRegion, MemoryServed, FreshPages, EndsAboveBottom;
    var a, n := FirstAlloc(k.areas, c.bottom, c.top, size), NumPagesNeeded(size);
    Vmm.InvGivesSpace(k, c);
    if a == 0 {
      Vmm.AllocFails(k, c, size, flags);
    } else {
      AllocPlace(k, c, size, flags);
      Vmm.AllocStep(k, c, size, flags);
      BackRegionSucceedsIff(k.sp, c.pd, c.total, ZoneOf(k.areas, c), OwnedPages(k.areas), a / PAGE_SIZE, flags, n);
    }
  }

  lemma RequestSucceedsIff(k: Kernel, c: VmmRuns.Config, va: Word, size: Word, flags: Word)
    requires Inv(k, c) && Legal(k, c, Request(va, size, flags)) && IsMem(k.sp.m) && c.pd < NUM_PAGES
    ensures Step(k, c, Request(va, size, flags)).Some? <==> Served(k, c, Request(va, size, flags))
  {
    hide Inv, Step, HasFlag, BackRegion, BackDevice, MemoryServed, FreshPages, AnyHit, DeviceMayBe, Requested, Enough;
    var n := NumPagesNeeded(size);
    Vmm.InvGivesSpace(k, c);
    InvHasConfig(k, c);
    Vmm.RequestStep(k, c, va, size, flags);
    if !AnyHit(k.areas, va, size) {
      Vmm.RequestReady(k, c, va, size, flags);
      if HasFlag(flags, VM_AREA_MMIO) {
        DeviceSucceedsIff(k, c, va, size, flags);
      } else {
        BackRegionSucceedsIff(k.sp, c.pd, c.total, ZoneOf(k.areas, c), OwnedPages(k.areas), va / PAGE_SIZE, flags, n);
      }
    }
  }

  lemma InvHasConfig(k: Kernel, c: VmmRuns.Config)
    requires Inv(k, c)
    ensures ConfigOk(c)
  {
  }

  lemma DeviceSucceedsIff(k: Kernel, c: VmmRuns.Config, va: Word, size: Word, flags: Word)
    requires Inv(k, c) && IsMem(k.sp.m) && c.pd < NUM_PAGES && c.total <= NUM_PAGES
    requires va / PAGE_SIZE + NumPagesNeeded(size) <= NUM_PAGES && ConfigOk(c) && DeviceMayBe(k, c, va, size, flags)
    ensures var vp, n := va / PAGE_SIZE, NumPagesNeeded(size);
            BackDevice(k.sp, c.pd, c.total, vp, flags, n).Done?
            <==> Enough(k.sp.m, c.pd, vp, n, Takeable(Requested(k.sp, c.total, vp, n).used, c.total), false)
  {
    hide Backed, BackDevice, DeviceFits, TablesReached, Requested, Enough, Takeable, PagesOf, AreasOk;
    BackDeviceSucceedsIff(k.sp, c.pd, c.total, ZoneOf(k.areas, c), OwnedPages(k.areas), va / PAGE_SIZE, flags,
                          NumPagesNeeded(size));
  }

  lemma ExtendSucceedsIff(k: Kernel, c: VmmRuns.Config, start: Word, extra: Word)
    requires Inv(k, c) && Legal(k, c, Extend(start, extra)) && IsMem(k.sp.m) && c.pd < NUM_PAGES
    ensures Step(k, c, Extend(start, extra)).Some? <==> Served(k, c, Extend(start, extra))
  {
    hide Inv, Step, RegionServed, AnyHit, Legal, Descending;
    var r := IndexOf(k.areas, start);
    if r.Some? { AreaEnds(k, c, r.value); }
    if r.None? || AnyHit(k.areas, k.areas[r.value].End(), extra) {
      if r.Some? { Vmm.LegalExtend(k, c, start, extra); }
      Vmm.ExtendFails(k, c, start, extra);
    } else {
      Vmm.LegalExtend(k, c, start, extra);
      ExtensionSucceedsIff(k, c, start, extra, r.value);
    }
  }

  lemma AreaEnds(k: Kernel, c: VmmRuns.Config, i: nat)
    requires Inv(k, c) && i < |k.areas|
    ensures 0 <= k.areas[i].End() < 0x1_0000_0000
  {
  }

  lemma ExtensionSucceedsIff(k: Kernel, c: VmmRuns.Config, start: Word, extra: Word, i: nat)
    requires Inv(k, c) && Legal(k, c, Extend(start, extra)) && IsMem(k.sp.m) && c.pd < NUM_PAGES
    requires IndexOf(k.areas, start) == Some(i) && 0 <= k.areas[i].End() && k.areas[i].End() + extra < 0x1_0000_0000
    requires !AnyHit(k.areas, k.areas[i].End(), extra)
    ensures Step(k, c, Extend(start, extra)).Some?
            <==> RegionServed(k, c, k.areas[i].End(), VM_AREA_WRITE, NumPagesNeeded(extra))
  {
    hide Inv, Step, HasFlag, BackRegion, MemoryServed, FreshPages, AnyHit, Legal, IndexOf, Descending;
    Vmm.InvGivesSpace(k, c);
    ExtendPlace(k, c, start, extra);
    Vmm.ExtendStep(k, c, start, extra, i);
    WriteIsMemory();
    BackRegionSucceedsIff(k.sp, c.pd, c.total, ZoneOf(k.areas, c), OwnedPages(k.areas), k.areas[i].End() / PAGE_SIZE,
                          VM_AREA_WRITE, NumPagesNeeded(extra));
  }

  /** A legal free succeeds. A device stays; of memory exactly the area's frames become free and
      its pages are unmapped, and every other page of the kernel keeps its translation. */
  lemma FreeSucceeds(k: Kernel, c: VmmRuns.Config, start: Word) returns (k': Kernel)
    requires Inv(k, c) && Legal(k, c, Free(start)) && IsMem(k.sp.m) && c.pd < NUM_PAGES
    ensures Step(k, c, Free(start)) == Some(k') && IsMem(k'.sp.m)
    ensures var a := k.areas[IndexOf(k.areas, start).value];
            if HasFlag(a.flags, VM_AREA_MMIO) then k' == k
            else var P := Pages(a.start / PAGE_SIZE, a.length / PAGE_SIZE);
              && (forall p | p in P :: p < NUM_PAGES && Trans(k'.sp.m, c.pd, p) == None)
              && k'.sp.used == k.sp.used - FramesOf(k.sp.m, c.pd, P)
              && (forall p | KernelPage(c.pd, p) && p !in P :: Trans(k'.sp.m, c.pd, p) == Trans(k.sp.m, c.pd, p))
              && multiset(k.areas) == multiset(k'.areas) + multiset{a}
  {
    hide Inv, Step, HasFlag, FreeRun, Trans, FramesOf, KernelPage, PagesOf;
    var i := IndexOf(k.areas, start).value;
    var a := k.areas[i];
    if HasFlag(a.flags, VM_AREA_MMIO) {
      Vmm.FreeDeviceStep(k, c, start, i);
      k' := k;
    } else {
      Vmm.FreeReady(k, c, start);
      var sp := FreeRunOk(k.sp, c.pd, c.total, ZoneOf(k.areas, c), OwnedPages(k.areas), a.start / PAGE_SIZE,
                          a.length / PAGE_SIZE);
      FreeStep(k, c, start, i, sp);
      k' := Kernel(sp, Without(k.areas, i));
      WithoutOne(k.areas, i);
    }
  }

  // ----- the areas afterwards

  lemma WithoutOne(s: seq<Area>, i: nat)
    requires i < |s|
    ensures multiset(s) == multiset(Without(s, i)) + multiset{s[i]}
  {
    assert s == s[..i] + [s[i]] + s[i + 1..];
  }

  lemma SplicedOne(s: seq<Area>, a: Area, k: nat)
    requires k <= |s|
    ensures multiset(s[..k] + [a] + s[k..]) == multiset(s) + multiset{a}
  {
    assert s == s[..k] + s[k..];
  }

  lemma InsertOne(s: seq<Area>, a: Area)
    ensures multiset(Insert(s, a)) == multiset(s) + multiset{a}
  {
    hide Insert;
    var k := InsertSplits(s, a);
    SplicedOne(s, a, k);
  }

  lemma GrownOne(s: seq<Area>, i: nat, extra: Word)
    requires i < |s| && s[i].length + extra < 0x1_0000_0000
    ensures multiset(Extended(s, i, extra)) + multiset{s[i]}
            == multiset(s) + multiset{s[i].(length := s[i].length + extra)}
  {
    var r := Extended(s, i, extra);
    WithoutOne(s, i);
    WithoutOne(r, i);
    assert Without(r, i) == Without(s, i);
  }

  // ----- the frames afterwards

  /** From sp to sp' exactly n frames that were free became used for the n pages from vp on, each
      page with one of its own, and the frames of new page tables besides. */
  ghost predicate Gained(sp: Space, sp': Space, pd: nat, vp: nat, n: nat) {
    && IsMem(sp.m) && IsMem(sp'.m) && pd < NUM_PAGES && vp + n <= NUM_PAGES
    && (forall p | p in Pages(vp, n) :: Trans(sp'.m, pd, p).Some?)
    && var F := FramesOf(sp'.m, pd, Pages(vp, n));
      |F| == n && F !! sp.used && sp'.used == sp.used + F + NewTables(sp.m, sp'.m, pd)
  }

  /** Each page of P has a frame, and no two share one. */
  ghost predicate FramesApart(m: seq<Word>, pd: nat, P: set<nat>)
    requires IsMem(m) && pd < NUM_PAGES && forall p | p in P :: p < NUM_PAGES
  {
    && (forall p | p in P :: Trans(m, pd, p).Some?)
    && forall p, q | p in P && q in P && p != q :: Trans(m, pd, p) != Trans(m, pd, q)
  }

  lemma {:induction false} FrameForEach(m: seq<Word>, pd: nat, vp: nat, n: nat)
    requires IsMem(m) && pd < NUM_PAGES && vp + n <= NUM_PAGES && FramesApart(m, pd, Pages(vp, n))
    ensures |FramesOf(m, pd, Pages(vp, n))| == n
  {
    hide Trans, FramesOf, FramesApart;
    if n == 0 {
      FramesOfNone(m, pd, vp);
    } else {
      PagesOneMore({}, vp, n);
      OneApart(m, pd, Pages(vp, n - 1), vp + n - 1);
      FrameForEach(m, pd, vp, n - 1);
      FramesOfOneMore(m, m, pd, Pages(vp, n - 1), vp + n - 1, Trans(m, pd, vp + n - 1).value);
    }
  }

  lemma OneApart(m: seq<Word>, pd: nat, P: set<nat>, p: nat)
    requires IsMem(m) && pd < NUM_PAGES && p < NUM_PAGES && p !in P && forall q | q in P :: q < NUM_PAGES
    requires FramesApart(m, pd, P + {p})
    ensures FramesApart(m, pd, P) && Trans(m, pd, p).Some? && Trans(m, pd, p).value !in FramesOf(m, pd, P)
  {
    hide Trans;
    assert p in P + {p};
    forall q | q in P ensures Trans(m, pd, q) != Trans(m, pd, p) {
      assert q in P + {p};
    }
  }

  lemma MemoryGained(sp: Space, sp': Space, pd: nat, total: nat, z: Zone, P: set<nat>, vp: nat, flags: Word, n: nat)
    requires Backed(sp, pd, total, z, P) && FreshPages(pd, z, P, vp, n)
    requires BackRegion(sp, pd, total, vp, flags, n) == Done(sp')
    ensures Gained(sp, sp', pd, vp, n)
  {
    hide BackRegion, SpaceOk, DevicesOk, DeviceFramesOk, LowAliases, NoStray, Trans, DataFrame, KernelPage, NewTables,
         FramesOf;
    BackRegionOk(sp, sp', pd, total, z, P, vp, flags, n);
    BackedHasSpace(sp, pd, total, z, P);
    assert Owned(sp', pd, total, P + Pages(vp, n));
    assert FramesApart(sp'.m, pd, Pages(vp, n));
    FrameForEach(sp'.m, pd, vp, n);
  }

  /** An allocation lists one area more, of the length and flags asked for. */
  ghost predicate AllocGained(k: Kernel, k': Kernel, c: VmmRuns.Config, size: Word, flags: Word) {
    var a := FirstAlloc(k.areas, c.bottom, c.top, size);
    && multiset(k'.areas) == multiset(k.areas) + multiset{Area(a, size, flags)}
    && Gained(k.sp, k'.sp, c.pd, a / PAGE_SIZE, size / PAGE_SIZE)
  }

  ghost predicate RequestGained(k: Kernel, k': Kernel, c: VmmRuns.Config, va: Word, size: Word, flags: Word) {
    if AnyHit(k.areas, va, size) then k' == k
    else
      var n := NumPagesNeeded(size);
      && n * PAGE_SIZE < 0x1_0000_0000
      && multiset(k'.areas) == multiset(k.areas) + multiset{Area(va, n * PAGE_SIZE, flags)}
      && (!HasFlag(flags, VM_AREA_MMIO) ==> Gained(k.sp, k'.sp, c.pd, va / PAGE_SIZE, n))
  }

  /** An extension lengthens one. */
  ghost predicate ExtendGained(k: Kernel, k': Kernel, c: VmmRuns.Config, start: Word, extra: Word) {
    var r := IndexOf(k.areas, start);
    && r.Some?
    && var a := k.areas[r.value];
      && 0 <= a.End() && a.length + extra < 0x1_0000_0000
      && multiset(k'.areas) + multiset{a} == multiset(k.areas) + multiset{a.(length := a.length + extra)}
      && Gained(k.sp, k'.sp, c.pd, a.End() / PAGE_SIZE, extra / PAGE_SIZE)
  }

  lemma AllocGains(k: Kernel, k': Kernel, c: VmmRuns.Config, size: Word, flags: Word)
    requires Inv(k, c) && Legal(k, c, Alloc(size, flags)) && Step(k, c, Alloc(size, flags)) == Some(k')
    ensures AllocGained(k, k', c, size, flags)
  {
    hide Inv, FirstAlloc, Step, HasFlag, BackRegion, FreshPages, EndsAboveBottom, Gained, Insert;
    var a, n := FirstAlloc(k.areas, c.bottom, c.top, size), NumPagesNeeded(size);
    Vmm.InvGivesSpace(k, c);
    if a == 0 {
      Vmm.AllocFails(k, c, size, flags);
    } else {
      AllocPlace(k, c, size, flags);
      Vmm.AllocStep(k, c, size, flags);
      MemoryGained(k.sp, k'.sp, c.pd, c.total, ZoneOf(k.areas, c), OwnedPages(k.areas), a / PAGE_SIZE, flags, n);
      InsertOne(k.areas, Area(a, n * PAGE_SIZE, flags));
    }
  }

  lemma RequestGains(k: Kernel, k': Kernel, c: VmmRuns.Config, va: Word, size: Word, flags: Word)
    requires Inv(k, c) && Legal(k, c, Request(va, size, flags)) && Step(k, c, Request(va, size, flags)) == Some(k')
    ensures RequestGained(k, k', c, va, size, flags)
  {
    hide Inv, Step, HasFlag, BackRegion, BackDevice, FreshPages, Gained, Insert, AnyHit, DeviceMayBe;
    var n := NumPagesNeeded(size);
    Vmm.InvGivesSpace(k, c);
    Vmm.RequestStep(k, c, va, size, flags);
    if !AnyHit(k.areas, va, size) {
      Vmm.RequestReady(k, c, va, size, flags);
      if !HasFlag(flags, VM_AREA_MMIO) {
        MemoryGained(k.sp, k'.sp, c.pd, c.total, ZoneOf(k.areas, c), OwnedPages(k.areas), va / PAGE_SIZE, flags, n);
      }
      InsertOne(k.areas, Area(va, n * PAGE_SIZE, flags));
    }
  }

  lemma ExtendGains(k: Kernel, k': Kernel, c: VmmRuns.Config, start: Word, extra: Word)
    requires Inv(k, c) && Legal(k, c, Extend(start, extra)) && Step(k, c, Extend(start, extra)) == Some(k')
    ensures ExtendGained(k, k', c, start, extra)
  {
    hide Inv, Step, Gained, AnyHit, Legal, Extended;
    var r := IndexOf(k.areas, start);
    if r.Some? { AreaEnds(k, c, r.value); }
    if r.None? || AnyHit(k.areas, k.areas[r.value].End(), extra) {
      Vmm.ExtendFails(k, c, start, extra);
    } else {
      Vmm.LegalExtend(k, c, start, extra);
      ExtensionGains(k, k', c, start, extra, r.value);
    }
  }

  lemma ExtensionGains(k: Kernel, k': Kernel, c: VmmRuns.Config, start: Word, extra: Word, i: nat)
    requires Inv(k, c) && Legal(k, c, Extend(start, extra)) && Step(k, c, Extend(start, extra)) == Some(k')
    requires IndexOf(k.areas, start) == Some(i) && 0 <= k.areas[i].End() && k.areas[i].End() + extra < 0x1_0000_0000
    requires !AnyHit(k.areas, k.areas[i].End(), extra)
    ensures var a := k.areas[i];
            && 0 <= a.End() && a.length + extra < 0x1_0000_0000
            && multiset(k'.areas) + multiset{a} == multiset(k.areas) + multiset{a.(length := a.length + extra)}
            && Gained(k.sp, k'.sp, c.pd, a.End() / PAGE_SIZE, extra / PAGE_SIZE)
  {
    hide Inv, Step, HasFlag, BackRegion, FreshPages, Gained, AnyHit, Legal, Extended, Descending, IndexOf;
    Vmm.InvGivesSpace(k, c);
    ExtendPlace(k, c, start, extra);
    Vmm.ExtendStep(k, c, start, extra, i);
    WriteIsMemory();
    MemoryGained(k.sp, k'.sp, c.pd, c.total, ZoneOf(k.areas, c), OwnedPages(k.areas), k.areas[i].End() / PAGE_SIZE,
                 VM_AREA_WRITE, NumPagesNeeded(extra));
    GrownOne(k.areas, i, extra);
  }
}
