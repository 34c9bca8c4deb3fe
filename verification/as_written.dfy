/** Where the memory manager's written line departs from its evident intent: what the line
    does, and exactly when that is what the rest of this project proves. */
module AsWritten {
  import opened Words
  import opened Wrappers
  import opened PagingFormat
  import opened Pmm
  import opened Mmu
  import opened Mapping
  import opened Regions
  import opened Devices
  import opened Areas
  import opened VmmRuns

  /** A walk along the list may read through a null pointer or never end. */
  datatype Outcome<+T> = Result(value: T) | NullRead | Diverges

  // ----- find_first_alloc (vmm.c 238 and 258)

  /** The empty list: a page count is subtracted where bytes are meant. */
  function FirstAlloc(s: seq<Area>, bottom: Word, top: Word, size: Word): Outcome<Word> {
    if s == [] then Result(Wrap(top - NumPagesNeeded(size)))
    else if Wrap(top - size) >= Wrap(s[0].start + s[0].length) then Result(Wrap(top - size))
    else if |s| == 1 then Result(GapScan(s, bottom, size, 0))
    else Scan(s, size, 0)
  }

  /** The loop reads the end of `next->next_area`, the area after the neighbour. */
  function Scan(s: seq<Area>, size: Word, i: nat): Outcome<Word>
    requires i + 1 < |s|
    decreases |s| - i
  {
    if i + 2 >= |s| then NullRead
    else
      var nextEnd := Wrap(s[i + 2].start + s[i + 2].length);
      if Wrap(s[i].start - nextEnd) >= size && Wrap(s[i].start - size) >= nextEnd
      then Result(Wrap(s[i].start - size))
      else Scan(s, size, i + 1)
  }

  /** The first place from i on where the request fits between an area and the second area
      below it. */
  ghost predicate FirstWide(s: seq<Area>, size: Word, i: nat, k: int) {
    && i <= k && k + 2 < |s| && s[k].start - size >= s[k + 2].End()
    && forall j | i <= j < k :: s[j].start - size < s[j + 2].End()
  }

  /** One step of the written loop: between two areas no subtraction wraps. */
  lemma ScanStep(s: seq<Area>, size: Word, i: nat)
    requires Descending(s) && i + 1 < |s| && 0 < size
    ensures Scan(s, size, i)
            == if i + 2 >= |s| then NullRead
               else if s[i].start - size >= s[i + 2].End() then Result(s[i].start - size)
               else Scan(s, size, i + 1)
  {
    hide Wrap;
    if i + 2 < |s| { RoomBetween(s[i].start, s[i + 2].End(), size); }
  }

  /** The loop's result is the place of the first wide stretch, or a null read. */
  lemma {:induction false} ScanIs(s: seq<Area>, size: Word, i: nat) returns (k: int)
    requires Descending(s) && i + 1 < |s| && 0 < size
    ensures Scan(s, size, i).NullRead? || (FirstWide(s, size, i, k) && Scan(s, size, i) == Result(s[k].start - size))
    ensures Scan(s, size, i).NullRead? ==> forall k' :: !FirstWide(s, size, i, k')
    decreases |s| - i
  {
    hide Scan, Descending;
    ScanStep(s, size, i);
    k := i;
    if i + 2 < |s| && s[i].start - size < s[i + 2].End() {
      k := ScanIs(s, size, i + 1);
      forall k' | FirstWide(s, size, i, k') ensures FirstWide(s, size, i + 1, k') {
      }
    }
  }

  lemma ScanAgreesIff(s: seq<Area>, bottom: Word, size: Word)
    requires Descending(s) && |s| > 1 && 0 < size
    ensures Scan(s, size, 0) == Result(GapScan(s, bottom, size, 0))
            <==> exists k :: FirstWide(s, size, 0, k) && s[k].start - size >= s[k + 1].End()
  {
    hide Scan, GapScan, FirstWide, Descending;
    var k := ScanIs(s, size, 0);
    if FirstWide(s, size, 0, k) {
      WideInside(s, size, 0, k);
      WideAgrees(s, bottom, size, k);
    }
    forall k' | FirstWide(s, size, 0, k') && FirstWide(s, size, 0, k) ensures k == k' {
      OneFirstWide(s, size, k, k');
    }
  }

  /** The written search returns what it should iff it takes the room above the head, or the
      list has one area, or the first wide enough stretch over two gaps has its room in the
      upper gap. */
  lemma FirstAllocAgreesIff(s: seq<Area>, bottom: Word, top: Word, size: Word)
    requires Descending(s) && s != [] && 0 < size
    ensures FirstAlloc(s, bottom, top, size) == Result(Areas.FirstAlloc(s, bottom, top, size))
            <==> || Wrap(top - size) >= s[0].End() || |s| == 1
                 || exists k :: FirstWide(s, size, 0, k) && s[k].start - size >= s[k + 1].End()
  {
    hide Scan, GapScan, FirstWide;
    assert Wrap(s[0].End()) == s[0].End();
    if |s| > 1 { ScanAgreesIff(s, bottom, size); }
  }

  lemma WideInside(s: seq<Area>, size: Word, i: nat, k: int)
    requires FirstWide(s, size, i, k)
    ensures i <= k && k + 2 < |s|
  {
  }

  lemma OneFirstWide(s: seq<Area>, size: Word, k: int, k': int)
    requires FirstWide(s, size, 0, k) && FirstWide(s, size, 0, k')
    ensures k == k'
  {
  }

  /** The intended search ends at the first wide stretch iff the room is in its upper gap; else
      it goes on below. */
  lemma WideAgrees(s: seq<Area>, bottom: Word, size: Word, k: int)
    requires Descending(s) && 0 < size && FirstWide(s, size, 0, k)
    ensures s[k].start - size == GapScan(s, bottom, size, 0) <==> s[k].start - size >= s[k + 1].End()
  {
    hide GapScan, FirstGap, FirstWide, Descending;
    WideInside(s, size, 0, k);
    WideHere(s, size, k);
    GapScanIs(s, bottom, size, 0);
    NoGapAboveWide(s, size, 0, k);
    LowerStart(s, k, |s| - 1);
    OtherResult(s[k].start, s[|s| - 1].start, size);
    var g := FirstGap(s, size, 0);
    if g.Some? && g.value > k { LowerStart(s, k, g.value); }
  }

  lemma WideHere(s: seq<Area>, size: Word, k: int)
    requires Descending(s) && FirstWide(s, size, 0, k)
    ensures s[k].start - size > 0
  {
    assert s[k + 2].End() > 0;
  }

  lemma LowerStart(s: seq<Area>, i: nat, j: nat)
    requires Descending(s) && i < j < |s|
    ensures s[j].start < s[i].start
  {
    assert s[j].End() <= s[i].start;
  }

  lemma OtherResult(a: Word, b: Word, size: Word)
    requires b < a && 0 <= a - size
    ensures a - size != Wrap(b - size)
  {
  }

  /** Above the first wide stretch no gap is wide enough. */
  lemma {:induction false} NoGapAboveWide(s: seq<Area>, size: Word, i: nat, k: int)
    requires Descending(s) && 0 < size && FirstWide(s, size, i, k)
    ensures s[k].start - size >= s[k + 1].End() ==> FirstGap(s, size, i) == Some(k)
    ensures s[k].start - size < s[k + 1].End() ==> FirstGap(s, size, i).None? || FirstGap(s, size, i).value > k
    decreases k - i
  {
    hide FirstGap, FirstWide, Descending;
    WideInside(s, size, i, k);
    FirstGapStep(s, size, i);
    if i < k {
      WideBelow(s, size, i, k);
      NoGapAboveWide(s, size, i + 1, k);
    }
  }

  lemma WideBelow(s: seq<Area>, size: Word, i: nat, k: int)
    requires Descending(s) && FirstWide(s, size, i, k) && i < k
    ensures FirstWide(s, size, i + 1, k) && s[i].start - size < s[i + 1].End()
  {
    assert s[i].start - size < s[i + 2].End() <= s[i + 1].start < s[i + 1].End();
  }

  lemma FirstGapStep(s: seq<Area>, size: Word, i: nat)
    requires i + 1 < |s|
    ensures FirstGap(s, size, i) == if s[i].start - size >= s[i + 1].End() then Some(i) else FirstGap(s, size, i + 1)
  {
  }

  /** With two areas, as right after boot, the loop always reads through null. */
  lemma TwoAreasReadNull(s: seq<Area>, bottom: Word, top: Word, size: Word)
    requires |s| == 2 && Wrap(top - size) < Wrap(s[0].End())
    ensures FirstAlloc(s, bottom, top, size) == NullRead
  {
  }

  /** On the empty list the two subtractions agree only for requests of no page. */
  lemma EmptyListAgreesIff(bottom: Word, top: Word, size: Word)
    ensures FirstAlloc([], bottom, top, size) == Result(Areas.FirstAlloc([], bottom, top, size))
            <==> NumPagesNeeded(size) == 0
  {
    hide NumPagesNeeded;
    var n := NumPagesNeeded(size);
    if n != 0 { WrapApart(top - n, n * (PAGE_SIZE - 1)); }
  }

  lemma WrapApart(x: int, d: nat)
    requires 0 < d < 0x1_0000_0000
    ensures Wrap(x) != Wrap(x - d)
  {
  }

  /** An area below the window lets the search leave it: the gap above that area is taken
      however far it reaches down. `Areas.FirstAllocFitsIff` says when the
      search leaves the window. */
  lemma AreaBelowWindowOpensIt()
    ensures var s := [Area(0xC100_0000, 0x1000, 0), Area(0x8000_0000, 0x1000, VM_AREA_MMIO)];
            && !EndsAboveBottom(s, 0xC100_0000, 0xC100_1000, 0x1000)
            && Areas.FirstAlloc(s, 0xC100_0000, 0xC100_1000, 0x1000) == 0xC0FF_F000 < 0xC100_0000
  {
    hide Areas.FirstAlloc;
    var s := [Area(0xC100_0000, 0x1000, 0), Area(0x8000_0000, 0x1000, VM_AREA_MMIO)];
    FirstAllocIs(s, 0xC100_0000, 0xC100_1000, 0x1000);
  }

  // ----- insert_new_vm_area (vmm.c 313 and 319)

  /** The loop again looks at `next->next_area`, and on success assigns to its own parameter
      instead of linking the rest of the list behind the new node. */
  function Insert(s: seq<Area>, a: Area): Outcome<seq<Area>> {
    if s == [] then Result([a])
    else if a.start > s[0].start then Result([a] + s)
    else InsertScan(s, a, 0)
  }

  function InsertScan(s: seq<Area>, a: Area, i: nat): Outcome<seq<Area>>
    requires i < |s|
    decreases |s| - i
  {
    if i + 1 == |s| then Result(s + [a])
    else if i + 2 == |s| then NullRead
    else
      var start := s[i + 2].start;
      var end := Wrap(start + s[i + 1].length);
      if a.start > start then Result(s[..i + 1] + [a])
      else if a.start < end then InsertScan(s, a, i + 1)
      else if a.start == end then Result(s)
      else Diverges
  }

  lemma {:induction false} InsertScanLoses(s: seq<Area>, a: Area, i: nat)
    requires i + 1 < |s|
    ensures InsertScan(s, a, i).Result? ==> |InsertScan(s, a, i).value| <= |s|
    decreases |s| - i
  {
    if i + 2 < |s| { InsertScanLoses(s, a, i + 1); }
  }

  /** The written insertion is right iff the area becomes the new head or the list has at
      most one area; otherwise it reads through null, loops, or loses areas. */
  lemma InsertAgreesIff(s: seq<Area>, a: Area)
    ensures Insert(s, a) == Result(Areas.Insert(s, a)) <==> |s| <= 1 || a.start > s[0].start
  {
    if |s| > 1 && a.start <= s[0].start {
      InsertScanLoses(s, a, 0);
      assert |Areas.Insert(s, a)| == |s| + 1;
    } else if |s| == 1 && a.start <= s[0].start {
      assert Areas.Insert(s[1..], a) == [a];
      assert s == [s[0]];
    } else {
      assert [a] + [] == [a];
    }
  }

  // ----- vmalloc_free (vmm.c 480 and 497-501)

  /** The frame number that free_pageframe gets when the PTE's address is masked. */
  function FreedFrame(va: Word): (f: nat)
    ensures f == RECURSIVE_PDE_IDX * ENTRIES + va / PAGE_SIZE / ENTRIES
  {
    hide GetPageframeAddress, PteAddress;
    FrameOfField(RECURSIVE_PDE_IDX * ENTRIES + va / PAGE_SIZE / ENTRIES, va / PAGE_SIZE % ENTRIES);
    GetPageframeAddress(PteAddress(va)) / PAGE_SIZE
  }

  lemma FrameOfField(page: nat, i: nat)
    requires i < ENTRIES
    ensures (page * PAGE_SIZE + 4 * i) / PAGE_SIZE == page
    ensures (page * PAGE_SIZE + 4 * i) / PAGE_SIZE * PAGE_SIZE / PAGE_SIZE == page
  {
    EuclidUnique(page * PAGE_SIZE + 4 * i, PAGE_SIZE, page, 4 * i);
    EuclidUnique(page * PAGE_SIZE, PAGE_SIZE, page, 0);
  }

  /** Up to 3.7 GiB of RAM it is never the page's own frame: it lies past the end of the bitmap.
      All pages of one slot free the same number, so with any amount of RAM it is the own frame
      of at most one of them. */
  lemma FreedFrameIsForeign(k: Kernel, c: VmmRuns.Config, va: Word, vb: Word)
    requires Inv(k, c) && InArea(k, Memory, va) && InArea(k, Memory, vb)
    ensures IsMem(k.sp.m) && c.pd < NUM_PAGES
    ensures c.total <= RECURSIVE_PDE_IDX * ENTRIES ==>
              FreedFrame(va) >= c.total && FrameOf(k, c, va) != Some(FreedFrame(va))
    ensures va / PAGE_SIZE != vb / PAGE_SIZE && va / PAGE_SIZE / ENTRIES == vb / PAGE_SIZE / ENTRIES ==>
              FreedFrame(va) == FreedFrame(vb)
              && !(FrameOf(k, c, va) == Some(FreedFrame(va)) && FrameOf(k, c, vb) == Some(FreedFrame(vb)))
  {
    hide Inv, InArea, FreedFrame, NotATable;
    InvHasSpace(k, c);
    MemoryIsSafe(k, c, va);
    if va / PAGE_SIZE != vb / PAGE_SIZE { MemoryIsApart(k, c, va, vb); }
  }

  /** get_vm_area_prior from the i-th node on: the first node whose successor is the k-th. */
  function PriorScan(s: seq<Area>, k: nat, i: nat): Option<nat>
    decreases |s| - i
  {
    if i >= |s| then None
    else if i + 1 == k then Some(i)
    else PriorScan(s, k, i + 1)
  }

  /** Without a predecessor vmalloc_free reports failure, with the frames already given back and
      the area still listed; else it links the predecessor to the successor. */
  function Remove(s: seq<Area>, k: nat): (bool, seq<Area>)
    requires k < |s|
  {
    match PriorScan(s, k, 0)
    case None => (false, s)
    case Some(i) => if i + 1 <= |s| then (true, s[..i + 1] + s[k + 1..]) else (true, s)
  }

  lemma {:induction false} PriorScanIs(s: seq<Area>, k: nat, i: nat)
    requires k < |s|
    ensures PriorScan(s, k, i) == if i < k then Some((k - 1) as nat) else None
    decreases |s| - i
  {
    if i < |s| && i + 1 != k { PriorScanIs(s, k, i + 1); }
  }

  /** The loop finds a predecessor for every node but the head, so exactly the head is not
      removed. */
  lemma RemoveAgreesIff(s: seq<Area>, k: nat)
    requires k < |s|
    ensures Remove(s, k) == (true, Without(s, k)) <==> k != 0
  {
    PriorScanIs(s, k, 0);
  }

  // ----- vmalloc without a fitting gap (vmm.c 379-381)

  /** vmalloc as written goes on to the core whatever the search returned, and takes a zero
      address for a failure afterwards. */
  ghost function Vmalloc(k: Kernel, c: VmmRuns.Config, size: Word, flags: Word): Option<(Word, Kernel)>
    requires Inv(k, c)
    requires Areas.FirstAlloc(k.areas, c.bottom, c.top, size) / PAGE_SIZE + NumPagesNeeded(size) <= NUM_PAGES
  {
    var a, n := Areas.FirstAlloc(k.areas, c.bottom, c.top, size), NumPagesNeeded(size);
    var o := CoreDoes(k.sp, c.pd, c.total, a / PAGE_SIZE, flags, n);
    if !o.Done? then None
    else if a == 0 then Some((0, Kernel(o.sp, k.areas)))
    else Some((a, Kernel(o.sp, Areas.Insert(k.areas, Area(a, n * PAGE_SIZE, flags)))))
  }

  /** What it is meant to do: NULL and no change if nothing fits. */
  ghost function VmallocMeant(k: Kernel, c: VmmRuns.Config, size: Word, flags: Word): Option<(Word, Kernel)>
    requires Inv(k, c)
  {
    var a := Areas.FirstAlloc(k.areas, c.bottom, c.top, size);
    if a == 0 then Some((0, k))
    else
      match Step(k, c, Alloc(size, flags))
      case None => None
      case Some(k') => Some((a, k'))
  }

  /** Mapping a page below the directory's own to a data frame, where the page has a table. */
  lemma LowPageMapped(sp: Space, sp': Space, pd: nat, total: nat, p: nat, f: nat, flags: Word)
    requires SpaceOk(sp, pd, total) && p < pd && PdePresent(sp.m, pd, p / ENTRIES)
    requires f in sp.used && f < NUM_PAGES && NotATable(sp.m, pd, f)
    requires MapPage(sp, pd, total, p, f * PAGE_SIZE, flags) == Done(sp')
    ensures SpaceOk(sp', pd, total) && sp'.used == sp.used && SameSlots(sp.m, sp'.m, pd, -1)
    ensures Trans(sp'.m, pd, p) == Some(f)
    ensures forall q | 0 <= q < pd && q != p :: Trans(sp'.m, pd, q) == Trans(sp.m, pd, q)
  {
    hide PagingOk, NotATable, Trans, Together, PutPte;
    SpaceHasDirectory(sp, pd, total);
    LowApart(sp, pd, total, p);
    PteIsStored(sp, pd, total, p, f * PAGE_SIZE, flags);
    PutPteOkIff(sp, pd, total, p, f * PAGE_SIZE, flags);
    TogetherItself(sp.m, pd, p);
  }

  lemma TogetherItself(m: seq<Word>, pd: nat, p: nat)
    requires IsMem(m) && pd < NUM_PAGES && p < NUM_PAGES && PdePresent(m, pd, p / ENTRIES)
    ensures Together(m, pd, p, p)
  {
  }

  /** The word of such a page governs no other page up to the directory's and not the
      directory's either. */
  lemma LowApart(sp: Space, pd: nat, total: nat, p: nat)
    requires SpaceOk(sp, pd, total) && p < pd && PdePresent(sp.m, pd, p / ENTRIES)
    ensures forall q | 0 <= q < pd && q != p :: !Together(sp.m, pd, p, q)
    ensures !Together(sp.m, pd, p, FIRST_KERNEL_PAGE + pd)
  {
    hide LowPageOk, NotATable, Trans;
    forall q | 0 <= q < NUM_PAGES && q != p && q != p + FIRST_KERNEL_PAGE ensures !Together(sp.m, pd, p, q) {
      if PdePresent(sp.m, pd, q / ENTRIES) {
        if p < q { GovInjective(sp.m, pd, sp.used, p, q); } else { GovInjective(sp.m, pd, sp.used, q, p); }
      }
    }
  }

  /** Of sp's pages 0..n-1 each shows a frame that is new since `before`. */
  ghost predicate NullPages(before: set<nat>, sp: Space, pd: nat, n: nat)
    requires IsMem(sp.m) && pd < NUM_PAGES && n <= NUM_PAGES
  {
    forall p | 0 <= p < n ::
      Trans(sp.m, pd, p).Some? && Trans(sp.m, pd, p).value !in before && Trans(sp.m, pd, p).value in sp.used
  }

  /** The slots of pages 0..n-1 have tables. */
  ghost predicate LowTables(m: seq<Word>, pd: nat, n: nat)
    requires IsMem(m) && pd < NUM_PAGES && n <= NUM_PAGES
  {
    forall p | 0 <= p < n :: PdePresent(m, pd, p / ENTRIES)
  }

  lemma {:induction false} NullRun(sp: Space, sp': Space, pd: nat, total: nat, before: set<nat>,
                                   f: nat, flags: Word, n: nat)
    requires SpaceOk(sp, pd, total) && n <= pd && f + n <= total && LowTables(sp.m, pd, n)
    requires forall g: nat | f <= g < f + n :: g in sp.used && g !in before && NotATable(sp.m, pd, g)
    requires MapRun(sp, pd, total, 0, f, flags, n) == Done(sp')
    ensures SpaceOk(sp', pd, total) && SameSlots(sp.m, sp'.m, pd, -1) && sp'.used == sp.used
    ensures NullPages(before, sp', pd, n)
    decreases n
  {
    hide PagingOk, NotATable, Trans, MapPage;
    if n > 0 {
      var s1 := MapRun(sp, pd, total, 0, f, flags, n - 1).sp;
      NullRun(sp, s1, pd, total, before, f, flags, n - 1);
      TablesStay(sp.m, s1.m, pd, f + n - 1);
      LowPageMapped(s1, sp', pd, total, n - 1, f + n - 1, flags);
    }
  }

  lemma {:induction false} NullScattered(sp: Space, sp': Space, pd: nat, total: nat, flags: Word, n: nat)
    requires SpaceOk(sp, pd, total) && n <= pd && LowTables(sp.m, pd, n)
    requires MapScattered(sp, pd, total, 0, flags, n) == Done(sp')
    ensures SpaceOk(sp', pd, total) && SameSlots(sp.m, sp'.m, pd, -1) && sp.used <= sp'.used
    ensures NullPages(sp.used, sp', pd, n)
    decreases n
  {
    hide PagingOk, NotATable, Trans, MapPage, MapScattered;
    if n == 0 {
      NoneScattered(sp, pd, total, 0, flags);
    } else {
      var s1, f := LastScatter(sp, sp', pd, total, 0, flags, n);
      NullScattered(sp, s1, pd, total, flags, n - 1);
      TakenIsData(s1, pd, total, {f});
      LowPageMapped(s1.(used := s1.used + {f}), sp', pd, total, n - 1, f, flags);
    }
  }

  /** Frames that were free hold no paging structure, and taking them keeps the structures
      sound. */
  lemma TakenIsData(sp: Space, pd: nat, total: nat, F: set<nat>)
    requires SpaceOk(sp, pd, total) && forall f | f in F :: f !in sp.used && f < total
    ensures SpaceOk(sp.(used := sp.used + F), pd, total)
    ensures forall f | f in F :: NotATable(sp.m, pd, f)
  {
    forall p | 0 <= p < FIRST_KERNEL_PAGE ensures LowPageOk(sp.m, pd, sp.used + F, p) {
      assert LowPageOk(sp.m, pd, sp.used, p);
    }
  }

  /** When nothing fits, the core backs the pages from address 0 on: each of them shows a frame
      that was free, page 0 no longer frame 0, and the caller gets NULL and the list unchanged,
      so the frames are lost. Requests reach up to the page at which the directory's frame is
      identity mapped; a longer one would map that too, and with it the directory itself. */
  lemma NullIsBacked(k: Kernel, k': Kernel, c: VmmRuns.Config, size: Word, flags: Word)
    requires Inv(k, c) && 0 < NumPagesNeeded(size) <= c.pd && !HasFlag(flags, VM_AREA_MMIO)
    requires IsMem(k.sp.m) && c.pd < NUM_PAGES && LowTables(k.sp.m, c.pd, NumPagesNeeded(size))
    requires Areas.FirstAlloc(k.areas, c.bottom, c.top, size) == 0
    requires Vmalloc(k, c, size, flags) == Some((0, k'))
    ensures k'.areas == k.areas && SpaceOk(k'.sp, c.pd, c.total)
    ensures NullPages(k.sp.used, k'.sp, c.pd, NumPagesNeeded(size))
    ensures Trans(k'.sp.m, c.pd, 0) != Some(0)
  {
    hide Areas.FirstAlloc, AreasOk, MapRun, MapScattered, NotATable, Owned, LowAliases, NoStray, DevicesOk,
         DeviceFramesOk, FirstFit, HasFlag;
    var n := NumPagesNeeded(size);
    match FirstFit(k.sp.used, c.total, n)
    case None => NullScattered(k.sp, k'.sp, c.pd, c.total, flags, n);
    case Some(f) =>
      FirstFitIsFree(k.sp.used, c.total, n);
      TakenIsData(k.sp, c.pd, c.total, Frames(f, n));
      NullRun(k.sp.(used := k.sp.used + Frames(f, n)), k'.sp, c.pd, c.total, k.sp.used, f, flags, n);
  }

  /** Mapping frees no frame. */
  lemma MapPageUses(sp: Space, sp': Space, pd: nat, total: nat, vp: nat, phys: Word, flags: Word)
    requires IsMem(sp.m) && pd < NUM_PAGES && total <= NUM_PAGES && vp < NUM_PAGES
    requires MapPage(sp, pd, total, vp, phys, flags) == Done(sp')
    ensures sp.used <= sp'.used
  {
  }

  lemma {:induction false} MapRunUses(sp: Space, sp': Space, pd: nat, total: nat, vp: nat, f: nat, flags: Word, n: nat)
    requires IsMem(sp.m) && pd < NUM_PAGES && total <= NUM_PAGES && vp + n <= NUM_PAGES && f + n <= NUM_PAGES
    requires MapRun(sp, pd, total, vp, f, flags, n) == Done(sp')
    ensures sp.used <= sp'.used
    decreases n
  {
    hide MapPage;
    if n > 0 {
      var s1 := MapRun(sp, pd, total, vp, f, flags, n - 1).sp;
      MapRunUses(sp, s1, pd, total, vp, f, flags, n - 1);
      MapPageUses(s1, sp', pd, total, vp + n - 1, (f + n - 1) * PAGE_SIZE, flags);
    }
  }

  /** The fallback takes at least one frame that was free. */
  lemma {:induction false} MapScatteredUses(sp: Space, sp': Space, pd: nat, total: nat, vp: nat, flags: Word, n: nat)
    requires IsMem(sp.m) && pd < NUM_PAGES && total <= NUM_PAGES && vp + n <= NUM_PAGES
    requires MapScattered(sp, pd, total, vp, flags, n) == Done(sp')
    ensures sp.used <= sp'.used && (n > 0 ==> sp.used != sp'.used)
    decreases n
  {
    hide MapPage, MapScattered;
    if n == 0 {
      NoneScattered(sp, pd, total, vp, flags);
    } else {
      var s1, f := LastScatter(sp, sp', pd, total, vp, flags, n);
      MapScatteredUses(sp, s1, pd, total, vp, flags, n - 1);
      MapPageUses(s1.(used := s1.used + {f}), sp', pd, total, vp + n - 1, f * PAGE_SIZE, flags);
      assert f in sp'.used && f !in s1.used;
    }
  }

  /** Backing any page takes a frame that was free. */
  lemma BackRegionUses(sp: Space, sp': Space, pd: nat, total: nat, vp: nat, flags: Word, n: nat)
    requires IsMem(sp.m) && pd < NUM_PAGES && total <= NUM_PAGES && vp + n <= NUM_PAGES && 0 < n
    requires BackRegion(sp, pd, total, vp, flags, n) == Done(sp')
    ensures sp.used != sp'.used
  {
    hide MapRun, MapScattered, FirstFit;
    match FirstFit(sp.used, total, n)
    case None => MapScatteredUses(sp, sp', pd, total, vp, flags, n);
    case Some(f) =>
      FirstFitIsFree(sp.used, total, n);
      MapRunUses(sp.(used := sp.used + Frames(f, n)), sp', pd, total, vp, f, flags, n);
      assert f in sp'.used && f !in sp.used;
  }

  /** Where the core succeeds, vmalloc does what it is meant to iff the search found a place. */
  lemma VmallocAgreesIff(k: Kernel, c: VmmRuns.Config, size: Word, flags: Word)
    requires Inv(k, c) && 0 < NumPagesNeeded(size) && !HasFlag(flags, VM_AREA_MMIO)
    requires Areas.FirstAlloc(k.areas, c.bottom, c.top, size) / PAGE_SIZE + NumPagesNeeded(size) <= NUM_PAGES
    requires Vmalloc(k, c, size, flags).Some?
    ensures Vmalloc(k, c, size, flags) == VmallocMeant(k, c, size, flags)
            <==> Areas.FirstAlloc(k.areas, c.bottom, c.top, size) != 0
  {
    hide Inv, Areas.FirstAlloc, BackRegion, HasFlag;
    InvHasSpace(k, c);
    if Areas.FirstAlloc(k.areas, c.bottom, c.top, size) == 0 {
      BackRegionUses(k.sp, Vmalloc(k, c, size, flags).value.1.sp, c.pd, c.total, 0, flags, NumPagesNeeded(size));
    }
  }

  // ----- alloc_page_table (paging.c 82-91)

  /** Clearing through the virtual address equal to the physical one: the new slot maps
      nothing iff that address was mapped to the frame itself, or the frame happened to hold
      no word with the present bit. */
  lemma TableClearedIff(m: seq<Word>, pd: nat, used: set<nat>, d: nat, t: nat, g: nat)
    requires IsMem(m) && pd < NUM_PAGES && d < ENTRIES && t < NUM_PAGES && g < NUM_PAGES
    requires PagingOk(m, pd, used) && NotATable(m, pd, t) && NotATable(m, pd, g)
    requires !PdePresent(m, pd, d)
    ensures var m' := TableEntered(m, pd, d, t, g);
            (forall p | 0 <= p < NUM_PAGES && p / ENTRIES == d :: Trans(m', pd, p) == None)
            <==> g == t || forall i | t * ENTRIES <= i < (t + 1) * ENTRIES :: m[i] % 2 == 0
  {
    hide Trans, PagingOk, NotATable, TableEntered, PdePresent;
    EnterTable(m, pd, used, d, t, g);
    if g != t {
      forall p | 0 <= p < NUM_PAGES && p / ENTRIES == d
        ensures Trans(TableEntered(m, pd, d, t, g), pd, p) == None <==> m[t * ENTRIES + p % ENTRIES] % 2 == 0
      {
        EnteredPage(m, pd, used, d, t, g, p % ENTRIES);
      }
      forall i | t * ENTRIES <= i < (t + 1) * ENTRIES
        ensures d * ENTRIES + (i - t * ENTRIES) < NUM_PAGES
        ensures Trans(TableEntered(m, pd, d, t, g), pd, d * ENTRIES + (i - t * ENTRIES)) == None <==> m[i] % 2 == 0
      {
        EnteredPage(m, pd, used, d, t, g, i - t * ENTRIES);
      }
    }
  }

  /** If the memset went elsewhere, page i of the new slot is as the table's frame had it. */
  lemma EnteredPage(m: seq<Word>, pd: nat, used: set<nat>, d: nat, t: nat, g: nat, i: nat)
    requires IsMem(m) && pd < NUM_PAGES && d < ENTRIES && t < NUM_PAGES && g < NUM_PAGES && i < ENTRIES
    requires PagingOk(m, pd, used) && NotATable(m, pd, t) && NotATable(m, pd, g)
    requires !PdePresent(m, pd, d) && g != t
    ensures Trans(TableEntered(m, pd, d, t, g), pd, d * ENTRIES + i) == None <==> m[t * ENTRIES + i] % 2 == 0
  {
    hide Trans, PagingOk;
    EnterTable(m, pd, used, d, t, g);
    assert (t * ENTRIES + i) / ENTRIES == t && (pd * ENTRIES + d) / ENTRIES == pd;
    FilledPage(TableEntered(m, pd, d, t, g), pd, d, t, i);
  }

  lemma FilledPage(m: seq<Word>, pd: nat, d: nat, t: nat, i: nat)
    requires IsMem(m) && pd < NUM_PAGES && d < ENTRIES && t < NUM_PAGES && i < ENTRIES
    requires PdePresent(m, pd, d) && TableOf(m, pd, d) == t
    ensures Trans(m, pd, d * ENTRIES + i) == None <==> m[t * ENTRIES + i] % 2 == 0
  {
    assert (d * ENTRIES + i) / ENTRIES == d && (d * ENTRIES + i) % ENTRIES == i;
  }

  /** alloc_page_table without looking at what the allocator returned: NULL is frame 0, cleared at
      address 0 and entered like any other. */
  ghost function AllocTableUnchecked(sp: Space, pd: nat, total: nat, d: nat): Mapping.Outcome
    requires IsMem(sp.m) && pd < NUM_PAGES && total <= NUM_PAGES && d < ENTRIES
  {
    match FirstFit(sp.used, total, 1)
    case Some(_) => AllocTable(sp, pd, total, d)
    case None =>
      match Trans(sp.m, pd, 0)
      case None => PageFault
      case Some(g) => Done(sp.(m := TableEntered(sp.m, pd, d, 0, g)))
  }

  /** Frame 0 as the first table of its kind: no page but page 0 shows it, so the structures stay
      sound. */
  lemma FirstStarvedIsSound(sp: Space, pd: nat, total: nat, P: set<nat>, d: nat)
    requires SpaceOk(sp, pd, total) && Owned(sp, pd, total, P) && LowAliases(sp.m, pd, P)
    requires pd > 0 && FIRST_KERNEL_PDE <= d < ENTRIES && !PdePresent(sp.m, pd, d) && NotATable(sp.m, pd, 0)
    ensures SpaceOk(sp.(m := TableEntered(sp.m, pd, d, 0, 0)), pd, total)
  {
    hide Trans, Owned, LowAliases, NotATable, TableEntered;
    var m' := TableEntered(sp.m, pd, d, 0, 0);
    EnterTable(sp.m, pd, sp.used, d, 0, 0);
    var dir := FIRST_KERNEL_PAGE + pd;
    DirectorySlot(sp.m, pd, sp.used);
    TableIsNew(sp.m, m', pd, d);
    forall p | 0 <= p < FIRST_KERNEL_PAGE ensures LowPageOk(m', pd, sp.used, p) {
      StarvedLowPage(sp, m', pd, total, P, d, p);
    }
  }

  lemma TableIsNew(m: seq<Word>, m': seq<Word>, pd: nat, d: nat)
    requires IsMem(m) && IsMem(m') && pd < NUM_PAGES && d < ENTRIES && NotATable(m, pd, 0)
    requires SlotFilled(m, m', pd, d, 0)
    ensures forall e | 0 <= e < ENTRIES && e != d && PdePresent(m', pd, e) :: TableOf(m', pd, e) != 0
  {
  }

  lemma StarvedLowPage(sp: Space, m': seq<Word>, pd: nat, total: nat, P: set<nat>, d: nat, p: nat)
    requires SpaceOk(sp, pd, total) && Owned(sp, pd, total, P) && LowAliases(sp.m, pd, P)
    requires FIRST_KERNEL_PDE <= d < ENTRIES && p < FIRST_KERNEL_PAGE && IsMem(m')
    requires SlotFilled(sp.m, m', pd, d, 0)
    ensures LowPageOk(m', pd, sp.used, p)
  {
    hide LowAliases, Owned, NotATable, PagingOk, SlotFilled;
    LowPageBefore(sp, m', pd, total, d, p);
    if Trans(sp.m, pd, p).Some? && Trans(sp.m, pd, p) != Some(p) {
      NotFrameZero(sp, pd, total, P, p);
      StillNoTable(sp.m, m', pd, d, Trans(sp.m, pd, p).value);
    }
  }

  lemma LowPageBefore(sp: Space, m': seq<Word>, pd: nat, total: nat, d: nat, p: nat)
    requires SpaceOk(sp, pd, total) && FIRST_KERNEL_PDE <= d < ENTRIES && p < FIRST_KERNEL_PAGE && IsMem(m')
    requires SlotFilled(sp.m, m', pd, d, 0)
    ensures LowPageOk(sp.m, pd, sp.used, p) && Trans(m', pd, p) == Trans(sp.m, pd, p)
  {
    hide LowPageOk, Trans;
  }

  lemma StillNoTable(m: seq<Word>, m': seq<Word>, pd: nat, d: nat, f: nat)
    requires IsMem(m) && IsMem(m') && pd < NUM_PAGES && d < ENTRIES && SlotFilled(m, m', pd, d, 0)
    requires NotATable(m, pd, f) && f != 0
    ensures NotATable(m', pd, f)
  {
  }

  /** A low page that shows another frame shows that of an owned page, so not frame 0. */
  lemma NotFrameZero(sp: Space, pd: nat, total: nat, P: set<nat>, p: nat)
    requires SpaceOk(sp, pd, total) && Owned(sp, pd, total, P) && LowAliases(sp.m, pd, P) && p < FIRST_KERNEL_PAGE
    requires Trans(sp.m, pd, p).Some? && Trans(sp.m, pd, p) != Some(p)
    ensures Trans(sp.m, pd, p) != Some(0)
  {
    hide PagingOk, NotATable;
    assert AliasOf(sp.m, pd, P, p);
    assert DataFrame(sp, pd, total, Trans(sp.m, pd, p + FIRST_KERNEL_PAGE).value);
  }

  /** Only the boot slots may share a table. */
  lemma SharedIsUnsound(sp: Space, pd: nat, total: nat, d: nat, e: nat)
    requires IsMem(sp.m) && pd < NUM_PAGES && d < ENTRIES && e < ENTRIES && d != e
    requires FIRST_KERNEL_PDE + BOOT_SLOTS <= d
    requires PdePresent(sp.m, pd, d) && PdePresent(sp.m, pd, e) && TableOf(sp.m, pd, d) == TableOf(sp.m, pd, e)
    ensures !SpaceOk(sp, pd, total)
  {
    hide LowPageOk, Trans;
    if d < e {
      assert TableOf(sp.m, pd, d) == TableOf(sp.m, pd, e);
    } else {
      assert TableOf(sp.m, pd, e) == TableOf(sp.m, pd, d);
    }
  }

  /** Frame 0 as one more table: two slots share it, and no directory of this kernel does that. */
  lemma NextStarvedBreaks(sp: Space, pd: nat, total: nat, d: nat, g: nat)
    requires SpaceOk(sp, pd, total) && pd > 0 && g < NUM_PAGES && g != pd
    requires FIRST_KERNEL_PDE + BOOT_SLOTS <= d < ENTRIES && !PdePresent(sp.m, pd, d) && !NotATable(sp.m, pd, 0)
    ensures !SpaceOk(sp.(m := TableEntered(sp.m, pd, d, 0, g)), pd, total)
  {
    hide LowPageOk, Trans, PagingOk;
    var e :| 0 <= e < ENTRIES && PdePresent(sp.m, pd, e) && TableOf(sp.m, pd, e) == 0;
    var m' := TableEntered(sp.m, pd, d, 0, g);
    assert (pd * ENTRIES + e) / ENTRIES == pd && (pd * ENTRIES + d) / ENTRIES == pd;
    assert PdeAt(m', pd, e) == PdeAt(sp.m, pd, e);
    PdeParts(0);
    SharedIsUnsound(sp.(m := m'), pd, total, d, e);
  }

  /** The unchecked step keeps the paging structures sound iff there was a frame, or frame 0 is no
      table yet: the first slot that gets it has it for its own, every later one breaks them. */
  lemma UncheckedTableIsSoundIff(sp: Space, sp': Space, pd: nat, total: nat, P: set<nat>, d: nat)
    requires SpaceOk(sp, pd, total) && Owned(sp, pd, total, P) && LowAliases(sp.m, pd, P)
    requires pd > 0 && Trans(sp.m, pd, 0) == Some(0)
    requires FIRST_KERNEL_PDE + BOOT_SLOTS <= d < ENTRIES && !PdePresent(sp.m, pd, d)
    requires AllocTableUnchecked(sp, pd, total, d) == Done(sp')
    ensures SpaceOk(sp', pd, total) <==> FirstFit(sp.used, total, 1).Some? || NotATable(sp.m, pd, 0)
  {
    hide PagingOk, Owned, LowAliases, AllocTable, TableEntered, NotATable, Trans;
    if FirstFit(sp.used, total, 1).Some? {
      AllocTableOk(sp, pd, total, d);
    } else if NotATable(sp.m, pd, 0) {
      FirstStarvedIsSound(sp, pd, total, P, d);
    } else {
      NextStarvedBreaks(sp, pd, total, d, 0);
    }
  }

  /** So of two slots that are filled with no frame left the second one breaks them: each page of
      one is governed by the word of a page of the other. */
  lemma StarvedSlotsShare(sp: Space, s1: Space, s2: Space, pd: nat, total: nat, d: nat, e: nat, i: nat)
    requires SpaceOk(sp, pd, total) && pd > 0 && Trans(sp.m, pd, 0) == Some(0) && NotATable(sp.m, pd, 0)
    requires FirstFit(sp.used, total, 1).None? && d != e && i < ENTRIES
    requires FIRST_KERNEL_PDE + BOOT_SLOTS <= d < ENTRIES && !PdePresent(sp.m, pd, d)
    requires FIRST_KERNEL_PDE + BOOT_SLOTS <= e < ENTRIES && !PdePresent(sp.m, pd, e)
    requires AllocTableUnchecked(sp, pd, total, d) == Done(s1)
    requires IsMem(s1.m) && AllocTableUnchecked(s1, pd, total, e) == Done(s2)
    ensures IsMem(s2.m) && !SpaceOk(s2, pd, total)
    ensures GovIndex(s2.m, pd, d * ENTRIES + i) == GovIndex(s2.m, pd, e * ENTRIES + i)
  {
    hide PagingOk, Trans, FirstFit;
    EnterTable(sp.m, pd, sp.used, d, 0, 0);
    assert s1.m == TableEntered(sp.m, pd, d, 0, 0) && s2.m == TableEntered(s1.m, pd, e, 0, 0);
    SharedTable(s1.m, pd, d, e);
    SlotIndex(d, i);
    SlotIndex(e, i);
    SharedIsUnsound(s2, pd, total, d, e);
  }

  lemma SlotIndex(d: nat, i: nat)
    requires d < ENTRIES && i < ENTRIES
    ensures (d * ENTRIES + i) / ENTRIES == d && (d * ENTRIES + i) % ENTRIES == i
  {
  }

  lemma SharedTable(m: seq<Word>, pd: nat, d: nat, e: nat)
    requires IsMem(m) && 0 < pd < NUM_PAGES && d < ENTRIES && e < ENTRIES && d != e
    requires PdePresent(m, pd, d) && TableOf(m, pd, d) == 0
    ensures var m' := TableEntered(m, pd, e, 0, 0);
            && PdePresent(m', pd, d) && TableOf(m', pd, d) == 0 && PdePresent(m', pd, e) && TableOf(m', pd, e) == 0
  {
    assert (pd * ENTRIES + d) / ENTRIES == pd && (pd * ENTRIES + e) / ENTRIES == pd;
    PdeParts(0);
  }

  // ----- init_vmm (vmm.c 509-519)

  /** The window's bounds: above the frame bitmap and one guard page, up to the size of
      memory. */
  function InitVmm(bitmapEnd: Word, memStart: Word, memLength: Word): (Word, Word) {
    (Wrap(RoundUpToNearestPage(bitmapEnd) + PAGE_SIZE), Wrap(memStart + memLength))
  }

  /** The window is not empty iff memory reaches up to the kernel's own virtual addresses. */
  lemma WindowIsOpenIff(bitmapEnd: Word, memLength: Word)
    requires VIRTUAL_KERNEL_OFFSET <= bitmapEnd <= 0xFFFF_0000 && bitmapEnd % PAGE_SIZE == 0
    ensures var (bottom, top) := InitVmm(bitmapEnd, 0, memLength);
            bottom < top <==> memLength > bitmapEnd + PAGE_SIZE
  {
    hide RoundUpToNearestPage;
    RoundedAlready(bitmapEnd);
  }

  lemma RoundedAlready(address: Word)
    requires address % PAGE_SIZE == 0 && address <= 0xFFFF_0000
    ensures RoundUpToNearestPage(address) == address
  {
    var q := address / PAGE_SIZE;
    assert address == q * PAGE_SIZE;
    EuclidUnique(address + (PAGE_SIZE - 1), PAGE_SIZE, q, PAGE_SIZE - 1);
  }
}
