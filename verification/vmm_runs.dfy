/** Runs of vmalloc, vmalloc_request_virtual_address, vmalloc_request_more_memory and
    vmalloc_free over the three layers: what every successful run keeps of the area list, the
    paging structures and the frame bitmap together. */
module VmmRuns {
  import opened Words
  import opened Wrappers
  import opened PagingFormat
  import opened Pmm
  import opened Mmu
  import opened Mapping
  import opened Regions
  import opened Devices
  import opened Areas

  /** The directory's frame, the number of frames, and the window of dynamic areas. */
  datatype Config = Config(pd: nat, total: nat, bottom: Word, top: Word)

  datatype Kernel = Kernel(sp: Space, areas: seq<Area>)

  const RECURSIVE_AREA := Area(RECURSIVE_PDE_IDX * 0x40_0000, 0x40_0000, VM_AREA_NO_ACCESS)

  /** Areas with frames of their own: not device memory, not the recursive window. */
  predicate Managed(flags: Word) {
    !HasFlag(flags, VM_AREA_MMIO) && !HasFlag(flags, VM_AREA_NO_ACCESS)
  }

  datatype Kind = Memory | Device

  predicate IsKind(flags: Word, kind: Kind) {
    match kind
    case Memory => Managed(flags)
    case Device => HasFlag(flags, VM_AREA_MMIO)
  }

  ghost predicate HoldsPage(a: Area, kind: Kind, p: int) {
    IsKind(a.flags, kind) && a.start <= p * PAGE_SIZE < a.End()
  }

  ghost predicate PageHeld(s: seq<Area>, kind: Kind, p: int) {
    exists i :: 0 <= i < |s| && HoldsPage(s[i], kind, p)
  }

  ghost function PagesOf(s: seq<Area>, kind: Kind): set<nat> {
    set p: nat | p < NUM_PAGES && PageHeld(s, kind, p)
  }

  ghost function OwnedPages(s: seq<Area>): set<nat> {
    PagesOf(s, Memory)
  }

  /** The window's first page, and the pages of the devices listed. */
  ghost function ZoneOf(s: seq<Area>, c: Config): Zone {
    Zone(c.bottom / PAGE_SIZE, PagesOf(s, Device))
  }

  // ----- steps

  datatype Op =
    | Alloc(size: Word, flags: Word)
    | Request(va: Word, size: Word, flags: Word)
    | Extend(start: Word, extra: Word)
    | Free(start: Word)

  /** The first area that starts at va. */
  ghost function IndexOf(s: seq<Area>, va: Word): (r: Option<nat>)
    ensures r.Some? ==> r.value < |s| && s[r.value].start == va
    ensures r.None? ==> forall i | 0 <= i < |s| :: s[i].start != va
  {
    if s == [] then None
    else if s[0].start == va then Some(0)
    else
      var r := IndexOf(s[1..], va);
      if r.None? then
        assert forall i | 0 <= i < |s| :: i > 0 ==> s[i] == s[1..][i - 1];
        None
      else Some(r.value + 1)
  }

  ghost predicate ConfigOk(c: Config) {
    && c.pd < 0x800 && c.total <= NUM_PAGES
    && c.bottom % PAGE_SIZE == 0 && c.top % PAGE_SIZE == 0 && c.bottom <= c.top
    && c.bottom / PAGE_SIZE > FIRST_KERNEL_PAGE + c.pd
  }

  ghost predicate AnyHit(s: seq<Area>, start: Word, size: Word) {
    exists i :: 0 <= i < |s| && Hits(s[i], start, size)
  }

  /** The region from va on suits a device, and the tables on the way are reached. */
  ghost predicate DeviceMayBe(k: Kernel, c: Config, va: Word, size: Word, flags: Word)
    requires IsMem(k.sp.m) && ConfigOk(c)
    requires va / PAGE_SIZE + NumPagesNeeded(size) <= NUM_PAGES
  {
    var vp, n := va / PAGE_SIZE, NumPagesNeeded(size);
    var sp := Requested(k.sp, c.total, vp, n);
    && DeviceFits(sp, c.pd, c.total, ZoneOf(k.areas, c), OwnedPages(k.areas), vp, n)
    && (c.bottom >= FIRST_FREE_PAGE * PAGE_SIZE || TablesReached(sp, c.pd, c.total, vp, flags, n))
  }

  /** What a caller owes: no wrap-around, whole pages in the window for memory, and a free of
      no area without access. */
  ghost predicate Legal(k: Kernel, c: Config, op: Op)
    requires Inv(k, c)
  {
    match op
    case Alloc(size, flags) =>
      && 0 < size && size % PAGE_SIZE == 0 && Managed(flags)
      && EndsAboveBottom(k.areas, c.bottom, c.top, size)
    case Request(va, size, flags) =>
      && va % PAGE_SIZE == 0 && 0 < size && va + size <= 0xFFFF_F000
      && (!AnyHit(k.areas, va, size) ==>
            if HasFlag(flags, VM_AREA_MMIO) then DeviceMayBe(k, c, va, size, flags)
            else Managed(flags) && c.bottom <= va)
    case Extend(start, extra) =>
      var r := IndexOf(k.areas, start);
      0 < extra && extra % PAGE_SIZE == 0
      && (r.Some? ==> Managed(k.areas[r.value].flags)
                      && k.areas[r.value].End() + extra < 0x1_0000_0000)
    case Free(start) =>
      var r := IndexOf(k.areas, start);
      r.Some? && (HasFlag(k.areas[r.value].flags, VM_AREA_MMIO) || Managed(k.areas[r.value].flags))
  }

  /** One call; None when it reports failure, runs out of frames for a page table or faults. */
  ghost function Step(k: Kernel, c: Config, op: Op): (r: Option<Kernel>)
    requires Inv(k, c)
  {
    match op
    case Alloc(size, flags) =>
      var a := FirstAlloc(k.areas, c.bottom, c.top, size);
      var n := NumPagesNeeded(size);
      if a == 0 || a / PAGE_SIZE + n > NUM_PAGES then None
      else
        var o := CoreDoes(k.sp, c.pd, c.total, a / PAGE_SIZE, flags, n);
        if !o.Done? then None else Some(Kernel(o.sp, Insert(k.areas, Area(a, n * PAGE_SIZE, flags))))
    case Request(va, size, flags) =>
      var n := NumPagesNeeded(size);
      if AnyHit(k.areas, va, size) then
        if HasFlag(flags, VM_AREA_MMIO) then Some(k) else None
      else if va / PAGE_SIZE + n > NUM_PAGES then None
      else
        var o := CoreDoes(k.sp, c.pd, c.total, va / PAGE_SIZE, flags, n);
        if !o.Done? then None else Some(Kernel(o.sp, Insert(k.areas, Area(va, n * PAGE_SIZE, flags))))
    case Extend(start, extra) =>
      var r := IndexOf(k.areas, start);
      if r.None? then None
      else
        var area := k.areas[r.value];
        var n := NumPagesNeeded(extra);
        if area.End() + extra >= 0x1_0000_0000 || AnyHit(k.areas, area.End(), extra) then None
        else
          var o := CoreDoes(k.sp, c.pd, c.total, area.End() / PAGE_SIZE, VM_AREA_WRITE, n);
          if !o.Done? then None else Some(Kernel(o.sp, Extended(k.areas, r.value, extra)))
    case Free(start) =>
      var r := IndexOf(k.areas, start);
      if r.None? then None
      else
        var area := k.areas[r.value];
        // device memory stays listed and mapped
        if HasFlag(area.flags, VM_AREA_MMIO) then Some(k)
        else
        var sp := FreeRun(k.sp, c.pd, area.start / PAGE_SIZE, area.length / PAGE_SIZE);
        if sp.None? then None else Some(Kernel(sp.value, Without(k.areas, r.value)))
  }

  // ----- the invariant

  ghost predicate AreasOk(s: seq<Area>, c: Config) {
    && Descending(s)
    && (forall i | 0 <= i < |s| :: AreaOk(s[i], c))
    && RECURSIVE_AREA in s
  }

  ghost predicate Inv(k: Kernel, c: Config) {
    && ConfigOk(c) && AreasOk(k.areas, c)
    && Backed(k.sp, c.pd, c.total, ZoneOf(k.areas, c), OwnedPages(k.areas))
  }

  lemma InvHasSpace(k: Kernel, c: Config)
    requires Inv(k, c)
    ensures IsMem(k.sp.m) && c.pd < 0x800 && c.total <= NUM_PAGES
  {
  }

  /** A page-aligned region of the window clear of all areas is fresh for the paging layer. */
  lemma ClearIsFresh(k: Kernel, c: Config, start: Word, n: nat)
    requires Inv(k, c) && start % PAGE_SIZE == 0 && c.bottom <= start
    requires start + n * PAGE_SIZE < 0x1_0000_0000 && Clear(k.areas, start, start + n * PAGE_SIZE)
    ensures FreshPages(c.pd, ZoneOf(k.areas, c), OwnedPages(k.areas), start / PAGE_SIZE, n)
  {
    hide Backed;
    forall p: nat | start / PAGE_SIZE <= p < start / PAGE_SIZE + n
      ensures KernelPage(c.pd, p) && p !in OwnedPages(k.areas) && p !in PagesOf(k.areas, Device)
    {
      var i :| 0 <= i < |k.areas| && k.areas[i] == RECURSIVE_AREA;
      assert !Overlap(k.areas[i], start, start + n * PAGE_SIZE);
      ClearHolds(k.areas, start, n, Memory, p);
      ClearHolds(k.areas, start, n, Device, p);
    }
  }

  lemma ClearHolds(s: seq<Area>, start: Word, n: nat, kind: Kind, p: nat)
    requires start % PAGE_SIZE == 0 && Clear(s, start, start + n * PAGE_SIZE)
    requires start / PAGE_SIZE <= p < start / PAGE_SIZE + n
    ensures !PageHeld(s, kind, p)
  {
    forall j | 0 <= j < |s| ensures !HoldsPage(s[j], kind, p) {
      assert !Overlap(s[j], start, start + n * PAGE_SIZE);
    }
  }

  /** The pages of an area, if it is of that kind. */
  ghost function PagesIf(a: Area, kind: Kind): set<nat> {
    if IsKind(a.flags, kind) then Pages(a.start / PAGE_SIZE, a.length / PAGE_SIZE) else {}
  }

  lemma AreaHolds(a: Area, kind: Kind, p: nat)
    requires a.start % PAGE_SIZE == 0 && a.length % PAGE_SIZE == 0
    ensures HoldsPage(a, kind, p) <==> p in PagesIf(a, kind)
  {
  }

  lemma AreaPagesExist(a: Area, kind: Kind)
    requires a.start % PAGE_SIZE == 0 && a.length % PAGE_SIZE == 0 && a.End() < 0x1_0000_0000
    ensures forall p | p in PagesIf(a, kind) :: p < NUM_PAGES
  {
  }

  /** The pages held in a list with area a at place k: those of the rest, and a's. */
  lemma HeldAround(s: seq<Area>, r: seq<Area>, a: Area, k: nat, kind: Kind, p: int)
    requires k <= |s| && r == s[..k] + [a] + s[k..]
    ensures PageHeld(r, kind, p) <==> PageHeld(s, kind, p) || HoldsPage(a, kind, p)
  {
    assert r[k] == a;
    if PageHeld(s, kind, p) {
      var i :| 0 <= i < |s| && HoldsPage(s[i], kind, p);
      assert r[if i < k then i else i + 1] == s[i];
    }
    if PageHeld(r, kind, p) {
      var i :| 0 <= i < |r| && HoldsPage(r[i], kind, p);
      assert i < k ==> r[i] == s[i];
      assert i > k ==> r[i] == s[i - 1];
    }
  }

  /** The pages of an inserted area are added to those of its kind. */
  lemma InsertAddsPages(s: seq<Area>, a: Area, kind: Kind)
    requires a.start % PAGE_SIZE == 0 && a.length % PAGE_SIZE == 0 && a.End() < 0x1_0000_0000
    ensures PagesOf(Insert(s, a), kind) == PagesOf(s, kind) + PagesIf(a, kind)
  {
    hide PageHeld, HoldsPage, PagesIf;
    var k := InsertSplits(s, a);
    AreaPagesExist(a, kind);
    forall p: nat | p < NUM_PAGES
      ensures PageHeld(Insert(s, a), kind, p) <==> PageHeld(s, kind, p) || p in PagesIf(a, kind)
    {
      HeldAround(s, Insert(s, a), a, k, kind, p);
      AreaHolds(a, kind, p);
    }
  }

  lemma Reassemble(s: seq<Area>, k: nat)
    requires k < |s|
    ensures var w := Without(s, k); s == w[..k] + [s[k]] + w[k..]
  {
  }

  /** In a descending list no page is held twice, so removing an area takes away exactly its
      pages. */
  lemma RemoveTakesPages(s: seq<Area>, k: nat, kind: Kind)
    requires Descending(s) && k < |s|
    requires s[k].start % PAGE_SIZE == 0 && s[k].length % PAGE_SIZE == 0
    ensures PagesOf(Without(s, k), kind) == PagesOf(s, kind) - PagesIf(s[k], kind)
    ensures forall p | p in PagesIf(s[k], kind) :: p in PagesOf(s, kind)
  {
    hide PageHeld, HoldsPage, PagesIf;
    Reassemble(s, k);
    AreaPagesExist(s[k], kind);
    forall p: nat | p < NUM_PAGES
      ensures PageHeld(s, kind, p) <==> PageHeld(Without(s, k), kind, p) || p in PagesIf(s[k], kind)
      ensures !(PageHeld(Without(s, k), kind, p) && p in PagesIf(s[k], kind))
    {
      HeldAround(Without(s, k), s, s[k], k, kind, p);
      AreaHolds(s[k], kind, p);
      HeldOnce(s, k, kind, kind, p);
    }
  }

  lemma HeldOnce(s: seq<Area>, k: nat, kind: Kind, other: Kind, p: nat)
    requires Descending(s) && k < |s|
    ensures HoldsPage(s[k], kind, p) ==> !PageHeld(Without(s, k), other, p)
  {
    if HoldsPage(s[k], kind, p) {
      forall i | 0 <= i < |s| - 1 ensures !HoldsPage(Without(s, k)[i], other, p) {
        assert Without(s, k)[i] == s[if i < k then i else i + 1];
      }
    }
  }

  lemma ExtendAddsPages(s: seq<Area>, k: nat, extra: Word, kind: Kind)
    requires k < |s| && s[k].End() + extra < 0x1_0000_0000
    requires s[k].start % PAGE_SIZE == 0 && s[k].length % PAGE_SIZE == 0 && extra % PAGE_SIZE == 0
    ensures PagesOf(Extended(s, k, extra), kind)
            == PagesOf(s, kind) + PagesIf(Area(s[k].End(), extra, s[k].flags), kind)
  {
    hide PageHeld, HoldsPage, PagesIf;
    var r, w, more := Extended(s, k, extra), Without(s, k), Area(s[k].End(), extra, s[k].flags);
    Reassemble(s, k);
    assert r == w[..k] + [r[k]] + w[k..];
    AreaPagesExist(more, kind);
    forall p: nat | p < NUM_PAGES
      ensures PageHeld(r, kind, p) <==> PageHeld(s, kind, p) || p in PagesIf(more, kind)
    {
      HeldAround(w, s, s[k], k, kind, p);
      HeldAround(w, r, r[k], k, kind, p);
      AreaHolds(more, kind, p);
      LongerHolds(s[k], extra, kind, p);
    }
  }

  lemma LongerHolds(a: Area, extra: Word, kind: Kind, p: nat)
    requires a.End() + extra < 0x1_0000_0000
    ensures HoldsPage(a.(length := a.length + extra), kind, p)
            <==> HoldsPage(a, kind, p) || HoldsPage(Area(a.End(), extra, a.flags), kind, p)
  {
  }

  // ----- every step keeps the invariant

  lemma AllocKeepsInv(k: Kernel, k': Kernel, c: Config, size: Word, flags: Word)
    requires Inv(k, c) && Legal(k, c, Alloc(size, flags)) && Step(k, c, Alloc(size, flags)) == Some(k')
    ensures Inv(k', c)
  {
    hide Backed, BackRegion, FirstAlloc, EndsAboveBottom, AreasOk, FreshPages, HasFlag, PagesOf, Insert, Clear;
    var a, n := FirstAlloc(k.areas, c.bottom, c.top, size), NumPagesNeeded(size);
    AllocPlace(k, c, size, flags);
    BackRegionOk(k.sp, k'.sp, c.pd, c.total, ZoneOf(k.areas, c), OwnedPages(k.areas), a / PAGE_SIZE, flags, n);
    MemoryListed(k, k'.sp, c, Area(a, n * PAGE_SIZE, flags));
  }

  /** What first fit returns for a legal request can be backed. */
  lemma AllocPlace(k: Kernel, c: Config, size: Word, flags: Word)
    requires Inv(k, c) && Legal(k, c, Alloc(size, flags))
    ensures var a, n := FirstAlloc(k.areas, c.bottom, c.top, size), NumPagesNeeded(size);
            n * PAGE_SIZE == size && a % PAGE_SIZE == 0
            && (a != 0 ==> && c.bottom <= a && a + n * PAGE_SIZE < 0x1_0000_0000 && a / PAGE_SIZE + n <= NUM_PAGES
                           && Clear(k.areas, a, a + n * PAGE_SIZE)
                           && FreshPages(c.pd, ZoneOf(k.areas, c), OwnedPages(k.areas), a / PAGE_SIZE, n))
  {
    hide Backed, FirstAlloc, EndsAboveBottom, FreshPages, Clear;
    var a, n := FirstAlloc(k.areas, c.bottom, c.top, size), NumPagesNeeded(size);
    FirstAllocAboveBottomIff(k.areas, c.bottom, c.top, size);
    AlignedAlloc(k.areas, c, size);
    assert n * PAGE_SIZE == size;
    if a != 0 { ClearIsFresh(k, c, a, n); }
  }

  /** Listing an area whose pages were backed. */
  lemma MemoryListed(k: Kernel, sp: Space, c: Config, a: Area)
    requires Inv(k, c) && AreaOk(a, c) && Managed(a.flags)
    requires 0 < a.length && a.End() < 0x1_0000_0000 && Clear(k.areas, a.start, a.End())
    requires Backed(sp, c.pd, c.total, ZoneOf(k.areas, c),
                    OwnedPages(k.areas) + Pages(a.start / PAGE_SIZE, a.length / PAGE_SIZE))
    ensures Inv(Kernel(sp, Insert(k.areas, a)), c)
  {
    hide Backed, AreasOk, PagesOf;
    InsertAddsPages(k.areas, a, Memory);
    InsertAddsPages(k.areas, a, Device);
    InsertKeepsAreasOk(k.areas, c, a);
    NothingAdded(PagesOf(k.areas, Device), PagesIf(a, Device));
  }

  lemma NothingAdded(S: set<nat>, T: set<nat>)
    requires T == {}
    ensures S + T == S
  {
  }

  /** Whole pages where they can be, and memory not below the window. */
  ghost predicate AreaOk(a: Area, c: Config) {
    && a.start % PAGE_SIZE == 0 && a.length % PAGE_SIZE == 0
    && (Managed(a.flags) ==> c.bottom <= a.start)
  }

  lemma InsertKeepsAreasOk(s: seq<Area>, c: Config, a: Area)
    requires AreasOk(s, c) && 0 < a.length && a.End() < 0x1_0000_0000 && Clear(s, a.start, a.End())
    requires AreaOk(a, c)
    ensures AreasOk(Insert(s, a), c)
  {
    hide Clear, Descending, AreaOk;
    InsertKeepsDescending(s, a);
    var k := InsertSplits(s, a);
    var r := Insert(s, a);
    var i :| 0 <= i < |s| && s[i] == RECURSIVE_AREA;
    assert r[if i < k then i else i + 1] == s[i];
    forall i | 0 <= i < |r| ensures AreaOk(r[i], c) {
      assert r[i] == if i < k then s[i] else if i == k then a else s[i - 1];
    }
  }

  /** Page-multiple requests get page-aligned addresses. */
  lemma AlignedAlloc(s: seq<Area>, c: Config, size: Word)
    requires ConfigOk(c) && AreasOk(s, c) && 0 < size && size % PAGE_SIZE == 0
    ensures FirstAlloc(s, c.bottom, c.top, size) % PAGE_SIZE == 0
  {
    hide FirstAlloc, Descending, RoomEnd;
    FirstAllocIs(s, c.bottom, c.top, size);
    AlignedRoom(s, c, size);
    AlignedBelow(RoomEnd(s, c.top, size), size);
  }

  lemma AlignedRoom(s: seq<Area>, c: Config, size: Word)
    requires ConfigOk(c) && AreasOk(s, c)
    ensures s != [] && RoomEnd(s, c.top, size) % PAGE_SIZE == 0
  {
    hide Descending, FirstGap;
    forall k | 0 <= k < |s| ensures s[k].start % PAGE_SIZE == 0 {
      assert AreaOk(s[k], c);
    }
  }

  lemma AlignedBelow(start: Word, size: Word)
    requires start % PAGE_SIZE == 0 && size % PAGE_SIZE == 0
    ensures Wrap(start - size) % PAGE_SIZE == 0
  {
  }

  // ----- a region at an address of the caller's

  /** Areas that begin on a page are clear of the whole last page if they are of the region. */
  lemma NoHitIsClear(s: seq<Area>, c: Config, start: Word, size: Word)
    requires AreasOk(s, c) && start % PAGE_SIZE == 0 && 0 < size && start + size <= 0xFFFF_F000
    requires !AnyHit(s, start, size)
    ensures start + NumPagesNeeded(size) * PAGE_SIZE < 0x1_0000_0000
    ensures Clear(s, start, start + NumPagesNeeded(size) * PAGE_SIZE)
  {
    hide Hits;
    forall j | 0 <= j < |s| ensures !Overlap(s[j], start, start + NumPagesNeeded(size) * PAGE_SIZE) {
      assert AreaOk(s[j], c);
      assert !Hits(s[j], start, size);
      HitsBelowTop(s[j], start, size);
    }
  }

  /** A request maps nothing new exactly when its region overlaps a listed area or ends where
      one begins: device memory just below another area is taken to be mapped already. */
  lemma RequestHitsIff(k: Kernel, c: Config, va: Word, size: Word)
    requires Inv(k, c) && 0 < size && va + size < 0x1_0000_0000
    ensures AnyHit(k.areas, va, size)
            <==> !Clear(k.areas, va, va + size) || exists i :: 0 <= i < |k.areas| && k.areas[i].start == va + size
  {
    hide Backed, Hits, Overlap;
    forall j | 0 <= j < |k.areas|
      ensures Hits(k.areas[j], va, size) <==> Overlap(k.areas[j], va, va + size) || k.areas[j].start == va + size
    {
      HitsBelowTop(k.areas[j], va, size);
    }
  }

  lemma RequestKeepsInv(k: Kernel, k': Kernel, c: Config, va: Word, size: Word, flags: Word)
    requires Inv(k, c) && Legal(k, c, Request(va, size, flags)) && Step(k, c, Request(va, size, flags)) == Some(k')
    ensures Inv(k', c)
  {
    hide Backed, BackRegion, BackDevice, AnyHit, DeviceMayBe, Clear, AreasOk, FreshPages;
    if !AnyHit(k.areas, va, size) {
      var n := NumPagesNeeded(size);
      NoHitIsClear(k.areas, c, va, size);
      if HasFlag(flags, VM_AREA_MMIO) {
        DeviceListed(k, k'.sp, c, va, size, flags);
      } else {
        ClearIsFresh(k, c, va, n);
        BackRegionOk(k.sp, k'.sp, c.pd, c.total, ZoneOf(k.areas, c), OwnedPages(k.areas), va / PAGE_SIZE, flags, n);
        MemoryListed(k, k'.sp, c, Area(va, n * PAGE_SIZE, flags));
      }
    }
  }

  lemma DeviceIsBacked(k: Kernel, sp: Space, c: Config, va: Word, size: Word, flags: Word)
    requires Inv(k, c) && va / PAGE_SIZE + NumPagesNeeded(size) <= NUM_PAGES
    requires DeviceMayBe(k, c, va, size, flags)
    requires BackDevice(k.sp, c.pd, c.total, va / PAGE_SIZE, flags, NumPagesNeeded(size)) == Done(sp)
    ensures Backed(sp, c.pd, c.total,
                   WithDevices(ZoneOf(k.areas, c), Pages(va / PAGE_SIZE, NumPagesNeeded(size))), OwnedPages(k.areas))
  {
    hide Backed, BackDevice, AreasOk, PagesOf, DeviceFits, TablesReached, Requested, DeviceGrown, WithDevices;
    InvHasSpace(k, c);
    BackDeviceOk(k.sp, sp, c.pd, c.total, ZoneOf(k.areas, c), OwnedPages(k.areas), va / PAGE_SIZE, flags,
                 NumPagesNeeded(size));
  }

  /** Mapping and listing a device. */
  lemma DeviceListed(k: Kernel, sp: Space, c: Config, va: Word, size: Word, flags: Word)
    requires Inv(k, c) && va % PAGE_SIZE == 0 && 0 < size && va + size <= 0xFFFF_F000
    requires HasFlag(flags, VM_AREA_MMIO) && DeviceMayBe(k, c, va, size, flags)
    requires Clear(k.areas, va, va + NumPagesNeeded(size) * PAGE_SIZE)
    requires BackDevice(k.sp, c.pd, c.total, va / PAGE_SIZE, flags, NumPagesNeeded(size)) == Done(sp)
    ensures Inv(Kernel(sp, Insert(k.areas, Area(va, NumPagesNeeded(size) * PAGE_SIZE, flags))), c)
  {
    hide Backed, BackDevice, Clear, AreasOk, PagesOf, DeviceMayBe, HasFlag, Insert, WithDevices;
    var a := Area(va, NumPagesNeeded(size) * PAGE_SIZE, flags);
    DeviceIsBacked(k, sp, c, va, size, flags);
    DeviceAddsPages(k.areas, c, a);
    InsertKeepsAreasOk(k.areas, c, a);
  }

  lemma DeviceAddsPages(s: seq<Area>, c: Config, a: Area)
    requires a.start % PAGE_SIZE == 0 && a.length % PAGE_SIZE == 0 && a.End() < 0x1_0000_0000
    requires HasFlag(a.flags, VM_AREA_MMIO)
    ensures OwnedPages(Insert(s, a)) == OwnedPages(s)
    ensures ZoneOf(Insert(s, a), c) == WithDevices(ZoneOf(s, c), Pages(a.start / PAGE_SIZE, a.length / PAGE_SIZE))
  {
    hide PagesOf, Insert, HasFlag;
    InsertAddsPages(s, a, Memory);
    InsertAddsPages(s, a, Device);
    NothingAdded(OwnedPages(s), PagesIf(a, Memory));
  }

  lemma ExtendKeepsInv(k: Kernel, k': Kernel, c: Config, start: Word, extra: Word)
    requires Inv(k, c) && Legal(k, c, Extend(start, extra)) && Step(k, c, Extend(start, extra)) == Some(k')
    ensures Inv(k', c)
  {
    hide Backed, BackRegion, AreasOk, PagesOf, Extended, AnyHit, FreshPages, HasFlag, FramesOf;
    var i := IndexOf(k.areas, start).value;
    var a, n := k.areas[i], NumPagesNeeded(extra);
    var end := a.End();
    WriteIsMemory();
    ExtendPlace(k, c, start, extra);
    BackRegionOk(k.sp, k'.sp, c.pd, c.total, ZoneOf(k.areas, c), OwnedPages(k.areas),
                 end / PAGE_SIZE, VM_AREA_WRITE, n);
    ExtendedPages(k.areas, c, i, extra);
    ExtendKeepsAreasOk(k.areas, c, i, extra);
  }

  lemma WriteIsMemory()
    ensures !HasFlag(VM_AREA_WRITE, VM_AREA_MMIO)
  {
  }

  lemma ExtendedPages(s: seq<Area>, c: Config, i: nat, extra: Word)
    requires AreasOk(s, c) && i < |s| && Managed(s[i].flags)
    requires s[i].End() + extra < 0x1_0000_0000 && extra % PAGE_SIZE == 0
    ensures OwnedPages(Extended(s, i, extra)) == OwnedPages(s) + Pages(s[i].End() / PAGE_SIZE, extra / PAGE_SIZE)
    ensures ZoneOf(Extended(s, i, extra), c) == ZoneOf(s, c)
  {
    hide PagesOf, Extended, Descending;
    assert AreaOk(s[i], c);
    ExtendAddsPages(s, i, extra, Memory);
    ExtendAddsPages(s, i, extra, Device);
    NothingAdded(PagesOf(s, Device), PagesIf(Area(s[i].End(), extra, s[i].flags), Device));
  }

  /** Past the test for hits the memory behind an area can be backed. */
  lemma ExtendPlace(k: Kernel, c: Config, start: Word, extra: Word)
    requires Inv(k, c) && Legal(k, c, Extend(start, extra)) && IndexOf(k.areas, start).Some?
    requires !AnyHit(k.areas, k.areas[IndexOf(k.areas, start).value].End(), extra)
    ensures var end, n := k.areas[IndexOf(k.areas, start).value].End(), NumPagesNeeded(extra);
            && n * PAGE_SIZE == extra && end / PAGE_SIZE + n <= NUM_PAGES
            && FreshPages(c.pd, ZoneOf(k.areas, c), OwnedPages(k.areas), end / PAGE_SIZE, n)
  {
    hide Backed, Clear, Descending, AnyHit, FreshPages, HasFlag, PagesOf;
    var a, n := k.areas[IndexOf(k.areas, start).value], NumPagesNeeded(extra);
    assert n * PAGE_SIZE == extra;
    assert AreaOk(a, c);
    NoHitIsClear(k.areas, c, a.End(), extra);
    ClearIsFresh(k, c, a.End(), n);
  }

  lemma ExtendKeepsAreasOk(s: seq<Area>, c: Config, i: nat, extra: Word)
    requires AreasOk(s, c) && i < |s| && Managed(s[i].flags)
    requires 0 < extra && extra % PAGE_SIZE == 0 && s[i].End() + extra < 0x1_0000_0000
    requires !AnyHit(s, s[i].End(), extra)
    ensures AreasOk(Extended(s, i, extra), c)
  {
    hide Hits, HasFlag, Descending;
    ExtendKeepsDescending(s, i, extra);
    RecursiveAreaUnmanaged();
    var j :| 0 <= j < |s| && s[j] == RECURSIVE_AREA;
    assert Extended(s, i, extra)[j] == s[j];
  }

  lemma RecursiveAreaUnmanaged()
    ensures !Managed(RECURSIVE_AREA.flags) && !HasFlag(RECURSIVE_AREA.flags, VM_AREA_MMIO)
  {
    assert BitAnd(16, 16) == 2 * BitAnd(8, 8);
    assert BitAnd(8, 8) == 2 * BitAnd(4, 4);
    assert BitAnd(16, 8) == 2 * BitAnd(8, 4) == 4 * BitAnd(4, 2);
  }

  lemma FreeKeepsInv(k: Kernel, k': Kernel, c: Config, start: Word)
    requires Inv(k, c) && Legal(k, c, Free(start)) && Step(k, c, Free(start)) == Some(k')
    ensures Inv(k', c)
  {
    hide Backed, FreeRun, PagesOf, AreasOk, FramesOf;
    var i := IndexOf(k.areas, start).value;
    var a := k.areas[i];
    if Managed(a.flags) {
      FreePlace(k, c, start);
      var sp := FreeRunOk(k.sp, c.pd, c.total, ZoneOf(k.areas, c), OwnedPages(k.areas),
                          a.start / PAGE_SIZE, a.length / PAGE_SIZE);
      RemoveKeepsAreasOk(k.areas, c, i);
    }
  }

  /** An area's pages are owned, and without it the others are as before. */
  lemma FreePlace(k: Kernel, c: Config, start: Word)
    requires Inv(k, c) && Legal(k, c, Free(start)) && Managed(k.areas[IndexOf(k.areas, start).value].flags)
    ensures var i := IndexOf(k.areas, start).value;
            var a, P := k.areas[i], OwnedPages(k.areas);
            && NumPagesNeeded(a.length) == a.length / PAGE_SIZE
            && a.start / PAGE_SIZE + a.length / PAGE_SIZE <= NUM_PAGES
            && (forall p | p in Pages(a.start / PAGE_SIZE, a.length / PAGE_SIZE) :: p in P)
            && OwnedPages(Without(k.areas, i)) == P - Pages(a.start / PAGE_SIZE, a.length / PAGE_SIZE)
            && ZoneOf(Without(k.areas, i), c) == ZoneOf(k.areas, c)
  {
    hide Backed, PagesOf;
    var i := IndexOf(k.areas, start).value;
    RemoveTakesPages(k.areas, i, Memory);
    RemoveTakesPages(k.areas, i, Device);
    assert AreaOk(k.areas[i], c);
  }

  lemma RemoveKeepsAreasOk(s: seq<Area>, c: Config, i: nat)
    requires AreasOk(s, c) && i < |s| && Managed(s[i].flags)
    ensures AreasOk(Without(s, i), c)
  {
    hide Descending, AreaOk, HasFlag;
    RemoveKeepsDescending(s, i);
    RecursiveAreaUnmanaged();
    forall j | 0 <= j < |s| - 1 ensures AreaOk(Without(s, i)[j], c) {
      assert Without(s, i)[j] == s[if j < i then j else j + 1];
    }
    var j :| 0 <= j < |s| && s[j] == RECURSIVE_AREA;
    assert Without(s, i)[if j < i then j else j - 1] == s[j];
  }

  lemma StepKeepsInv(k: Kernel, k': Kernel, c: Config, op: Op)
    requires Inv(k, c) && Legal(k, c, op) && Step(k, c, op) == Some(k')
    ensures Inv(k', c)
  {
    hide Inv, Legal, Step;
    match op
    case Alloc(size, flags) => AllocKeepsInv(k, k', c, size, flags);
    case Request(va, size, flags) => RequestKeepsInv(k, k', c, va, size, flags);
    case Extend(start, extra) => ExtendKeepsInv(k, k', c, start, extra);
    case Free(start) => FreeKeepsInv(k, k', c, start);
  }

  // ----- runs

  /** k' is reached from k by the legal, successful calls ops. */
  ghost predicate Run(k: Kernel, c: Config, ops: seq<Op>, k': Kernel)
    decreases |ops|
  {
    if ops == [] then k' == k
    else
      Inv(k, c) && Legal(k, c, ops[0]) && Step(k, c, ops[0]).Some?
      && Run(Step(k, c, ops[0]).value, c, ops[1..], k')
  }

  lemma {:induction false} RunKeepsInv(k: Kernel, c: Config, ops: seq<Op>, k': Kernel)
    requires Inv(k, c) && Run(k, c, ops, k')
    ensures Inv(k', c)
    decreases |ops|
  {
    hide Inv, Legal, Step;
    if ops != [] {
      var k1 := Step(k, c, ops[0]).value;
      StepKeepsInv(k, k1, c, ops[0]);
      RunKeepsInv(k1, c, ops[1..], k');
    }
  }

  ghost predicate InArea(k: Kernel, kind: Kind, va: Word) {
    exists i :: 0 <= i < |k.areas| && IsKind(k.areas[i].flags, kind) && k.areas[i].start <= va < k.areas[i].End()
  }

  /** The address walks to a frame below the end of RAM that is marked used and holds no
      paging structure. */
  ghost predicate Resident(k: Kernel, c: Config, va: Word) {
    && IsMem(k.sp.m) && c.pd < NUM_PAGES
    && var pa := Walk(k.sp.m, c.pd, va);
      && pa.Some? && pa.value % PAGE_SIZE == va % PAGE_SIZE
      && pa.value / PAGE_SIZE in k.sp.used && pa.value / PAGE_SIZE < c.total
      && NotATable(k.sp.m, c.pd, pa.value / PAGE_SIZE)
  }

  /** After every run, for addresses va and vb of areas with frames and vd of a device's: va is
      resident, addresses of different pages are in different frames, the device is reached at
      its physical address, its frame is no area's, and the allocator will not hand it out. */
  lemma RunIsSafe(k: Kernel, c: Config, ops: seq<Op>, k': Kernel, va: Word, vb: Word, vd: Word)
    requires Inv(k, c) && Run(k, c, ops, k')
    ensures IsMem(k'.sp.m) && c.pd < NUM_PAGES
    ensures InArea(k', Memory, va) ==> Resident(k', c, va)
    ensures InArea(k', Memory, va) && InArea(k', Memory, vb) && va / PAGE_SIZE != vb / PAGE_SIZE ==>
              FrameOf(k', c, va) != FrameOf(k', c, vb)
    ensures InArea(k', Device, vd) ==> Walk(k'.sp.m, c.pd, vd) == Some(vd)
    ensures InArea(k', Device, vd) ==> vd / PAGE_SIZE in k'.sp.used || vd / PAGE_SIZE >= c.total
    ensures InArea(k', Device, vd) && InArea(k', Memory, va) ==> FrameOf(k', c, va) != Some(vd / PAGE_SIZE)
  {
    hide Inv, Run, InArea, Resident, Walk, Trans;
    RunKeepsInv(k, c, ops, k');
    InvHasSpace(k', c);
    if InArea(k', Memory, va) { MemoryIsSafe(k', c, va); }
    if InArea(k', Memory, va) && InArea(k', Memory, vb) && va / PAGE_SIZE != vb / PAGE_SIZE {
      MemoryIsApart(k', c, va, vb);
    }
    if InArea(k', Device, vd) { DeviceIsSafe(k', c, vd); }
    if InArea(k', Device, vd) && InArea(k', Memory, va) { DeviceIsApart(k', c, va, vd); }
  }

  ghost function FrameOf(k: Kernel, c: Config, va: Word): Option<nat>
    requires IsMem(k.sp.m) && c.pd < NUM_PAGES
  {
    Trans(k.sp.m, c.pd, va / PAGE_SIZE)
  }

  lemma MemoryIsSafe(k: Kernel, c: Config, va: Word)
    requires Inv(k, c) && InArea(k, Memory, va)
    ensures Resident(k, c, va)
  {
    hide PagingOk, NotATable, LowAliases, NoStray, PagesOf, AreasOk, DevicesOk, DeviceFramesOk, InArea;
    AddressHeld(k, c, Memory, va);
    assert Owned(k.sp, c.pd, c.total, OwnedPages(k.areas));
  }

  lemma MemoryIsApart(k: Kernel, c: Config, va: Word, vb: Word)
    requires Inv(k, c) && InArea(k, Memory, va) && InArea(k, Memory, vb) && va / PAGE_SIZE != vb / PAGE_SIZE
    ensures IsMem(k.sp.m) && c.pd < NUM_PAGES && FrameOf(k, c, va) != FrameOf(k, c, vb)
  {
    hide PagingOk, DataFrame, LowAliases, NoStray, PagesOf, AreasOk, DevicesOk, DeviceFramesOk, InArea;
    AddressHeld(k, c, Memory, va);
    AddressHeld(k, c, Memory, vb);
    assert Owned(k.sp, c.pd, c.total, OwnedPages(k.areas));
  }

  lemma DeviceIsSafe(k: Kernel, c: Config, vd: Word)
    requires Inv(k, c) && InArea(k, Device, vd)
    ensures IsMem(k.sp.m) && c.pd < NUM_PAGES && Walk(k.sp.m, c.pd, vd) == Some(vd)
    ensures vd / PAGE_SIZE in k.sp.used || vd / PAGE_SIZE >= c.total
  {
    hide PagingOk, NotATable, LowAliases, NoStray, PagesOf, AreasOk, Owned, InArea;
    AddressHeld(k, c, Device, vd);
    assert DevicesOk(k.sp.m, c.pd, ZoneOf(k.areas, c), OwnedPages(k.areas));
  }

  lemma DeviceIsApart(k: Kernel, c: Config, va: Word, vd: Word)
    requires Inv(k, c) && InArea(k, Memory, va) && InArea(k, Device, vd)
    ensures IsMem(k.sp.m) && c.pd < NUM_PAGES && FrameOf(k, c, va) != Some(vd / PAGE_SIZE)
  {
    hide PagingOk, DataFrame, LowAliases, NoStray, PagesOf, AreasOk, DevicesOk, Owned, InArea;
    AddressHeld(k, c, Memory, va);
    AddressHeld(k, c, Device, vd);
    HeldBelowTop(k.areas, Memory);
    assert DeviceFramesOk(k.sp, c.pd, c.total, ZoneOf(k.areas, c), OwnedPages(k.areas));
  }

  lemma StartOfPage(start: Word, va: Word)
    requires start % PAGE_SIZE == 0 && start <= va
    ensures start <= va / PAGE_SIZE * PAGE_SIZE <= va
  {
  }

  lemma HeldBelowTop(s: seq<Area>, kind: Kind)
    ensures forall p | p in PagesOf(s, kind) :: p < NUM_PAGES
  {
  }

  lemma AddressHeld(k: Kernel, c: Config, kind: Kind, va: Word)
    requires InArea(k, kind, va) && AreasOk(k.areas, c)
    ensures va / PAGE_SIZE in PagesOf(k.areas, kind)
  {
    var i :| 0 <= i < |k.areas| && IsKind(k.areas[i].flags, kind) && k.areas[i].start <= va < k.areas[i].End();
    assert AreaOk(k.areas[i], c);
    StartOfPage(k.areas[i].start, va);
    assert HoldsPage(k.areas[i], kind, va / PAGE_SIZE);
  }

  // ----- conservation

  lemma {:induction false} IndexOfUnique(s: seq<Area>, k: nat)
    requires Descending(s) && k < |s|
    ensures IndexOf(s, s[k].start) == Some(k)
  {
    assert IndexOf(s, s[k].start).Some?;
  }

  /** Frames and translations of s2 against those of sp, after pages vp..vp+n-1 were backed
      and freed: the bitmap is as before but for frames that became page tables, and so are
      the translations of all other kernel pages whose slot had a table, and of all pages
      beyond the boot tables. */
  ghost predicate Restored(sp: Space, s2: Space, c: Config, vp: nat, n: nat) {
    && IsMem(sp.m) && IsMem(s2.m) && c.pd < NUM_PAGES && vp + n <= NUM_PAGES
    && s2.used == sp.used + NewTables(sp.m, s2.m, c.pd)
    && (forall p | p in Pages(vp, n) :: Trans(s2.m, c.pd, p) == None)
    && (forall p | KernelPage(c.pd, p) && PdePresent(sp.m, c.pd, p / ENTRIES) && p !in Pages(vp, n) ::
          Trans(s2.m, c.pd, p) == Trans(sp.m, c.pd, p))
    && (c.bottom >= FIRST_FREE_PAGE * PAGE_SIZE ==>
          forall p | KernelPage(c.pd, p) && p >= FIRST_FREE_PAGE ::
            Trans(s2.m, c.pd, p) == Trans(sp.m, c.pd, p))
  }

  /** vmalloc followed by vmalloc_free of the address it returned succeeds, restores the
      area list exactly, and conserves frames and translations. */
  lemma AllocThenFree(k: Kernel, k1: Kernel, c: Config, size: Word, flags: Word) returns (k2: Kernel)
    requires Inv(k, c) && Legal(k, c, Alloc(size, flags)) && Step(k, c, Alloc(size, flags)) == Some(k1)
    ensures Inv(k1, c) && Legal(k1, c, Free(FirstAlloc(k.areas, c.bottom, c.top, size)))
    ensures Step(k1, c, Free(FirstAlloc(k.areas, c.bottom, c.top, size))) == Some(k2)
    ensures k2.areas == k.areas
    ensures Restored(k.sp, k2.sp, c, FirstAlloc(k.areas, c.bottom, c.top, size) / PAGE_SIZE, NumPagesNeeded(size))
  {
    hide Inv, Legal, Step, FreeRun, FirstAlloc, Restored, Descending;
    AllocKeepsInv(k, k1, c, size, flags);
    var a, n := FirstAlloc(k.areas, c.bottom, c.top, size), NumPagesNeeded(size);
    var s2 := AllocThenFreeSpace(k, k1, c, size, flags);
    var i := InsertThenRemove(k.areas, Area(a, n * PAGE_SIZE, flags));
    IndexOfUnique(k1.areas, i);
    k2 := Kernel(s2, k.areas);
    FreeStep(k1, c, a, i, s2);
  }

  lemma FreeStep(k: Kernel, c: Config, start: Word, i: nat, s2: Space)
    requires Inv(k, c) && IndexOf(k.areas, start) == Some(i) && Managed(k.areas[i].flags)
    requires IsMem(k.sp.m) && c.pd < NUM_PAGES
    requires start / PAGE_SIZE + k.areas[i].length / PAGE_SIZE <= NUM_PAGES
    requires FreeRun(k.sp, c.pd, start / PAGE_SIZE, k.areas[i].length / PAGE_SIZE) == Some(s2)
    ensures Legal(k, c, Free(start))
    ensures Step(k, c, Free(start)) == Some(Kernel(s2, Without(k.areas, i)))
  {
    hide Inv, FreeRun, HasFlag;
  }

  lemma AllocThenFreeSpace(k: Kernel, k1: Kernel, c: Config, size: Word, flags: Word) returns (s2: Space)
    requires Inv(k, c) && Legal(k, c, Alloc(size, flags)) && Step(k, c, Alloc(size, flags)) == Some(k1)
    ensures IsMem(k1.sp.m) && c.pd < NUM_PAGES
    ensures var a, n := FirstAlloc(k.areas, c.bottom, c.top, size), NumPagesNeeded(size);
            && k1.areas == Insert(k.areas, Area(a, n * PAGE_SIZE, flags)) && Descending(k1.areas)
            && Managed(flags) && a / PAGE_SIZE + n <= NUM_PAGES
            && FreeRun(k1.sp, c.pd, a / PAGE_SIZE, n) == Some(s2)
            && Restored(k.sp, s2, c, a / PAGE_SIZE, n)
  {
    hide BackRegion, FreeRun, Owned, LowAliases, NoStray, PagingOk, FirstAlloc, HasFlag, FreshPages,
         EndsAboveBottom, DevicesOk, DeviceFramesOk, PagesOf;
    AllocKeepsInv(k, k1, c, size, flags);
    var a, n := FirstAlloc(k.areas, c.bottom, c.top, size), NumPagesNeeded(size);
    AllocPlace(k, c, size, flags);
    s2 := BackThenFree(k.sp, k1.sp, c.pd, c.total, ZoneOf(k.areas, c), OwnedPages(k.areas),
                       a / PAGE_SIZE, flags, n);
  }
}
