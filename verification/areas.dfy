/** The list of allocated virtual areas, highest address first, as a sequence: where a new
    area goes, which requests collide, and which address a first fit from the top returns.
    All address arithmetic is 32-bit. */
module Areas {
  import opened Words
  import opened Wrappers
  import opened PagingFormat

  datatype Area = Area(start: Word, length: Word, flags: Word) {
    /** The first address after the area, before wrap-around. */
    function End(): int { start + length }
  }

  /** Strictly descending, pairwise disjoint, no area empty or reaching 4 GiB. */
  ghost predicate Descending(s: seq<Area>) {
    && (forall i | 0 <= i < |s| :: 0 < s[i].length && s[i].End() < 0x1_0000_0000)
    && (forall i, j | 0 <= i < j < |s| :: s[j].End() <= s[i].start)
  }

  // ----- overlap

  predicate VirtyAddyIsInArea(areaStart: Word, areaEnd: Word, va: Word) {
    va >= areaStart && va < areaEnd
  }

  /** The three-case test of virt_region_exists_in_area for one area. */
  predicate Hits(a: Area, start: Word, size: Word) {
    var end := Wrap(start + size);
    var areaEnd := Wrap(a.start + a.length);
    || VirtyAddyIsInArea(a.start, areaEnd, start)
    || VirtyAddyIsInArea(a.start, areaEnd, end)
    || VirtyAddyIsInArea(start, end, a.start)
  }

  ghost predicate Overlap(a: Area, start: int, end: int) {
    start < a.End() && a.start < end
  }

  /** What the test answers, up to the top of the address space. Of the areas that overlap it
      misses one that ends at 4 GiB unless the region begins at or below it, and when the
      region itself ends there, every area that begins inside the region. Of the others it
      hits just the one that begins where the region's wrapped end is. */
  lemma HitsIff(a: Area, start: Word, size: Word)
    requires 0 < a.length && a.End() <= 0x1_0000_0000
    requires 0 < size && start + size <= 0x1_0000_0000
    ensures Overlap(a, start, start + size) ==>
              (Hits(a, start, size)
               <==> if a.End() < 0x1_0000_0000 then a.start <= start || start + size < 0x1_0000_0000
                    else start <= a.start && start + size < 0x1_0000_0000)
    ensures !Overlap(a, start, start + size) ==>
              (Hits(a, start, size) <==> a.start == Wrap(start + size) && a.End() < 0x1_0000_0000)
  {
  }

  /** Away from the top the test hits exactly the areas that overlap the region or begin right
      at its end. */
  lemma HitsBelowTop(a: Area, start: Word, size: Word)
    requires 0 < a.length && a.End() < 0x1_0000_0000
    requires 0 < size && start + size < 0x1_0000_0000
    ensures Hits(a, start, size) <==> Overlap(a, start, start + size) || a.start == start + size
  {
    hide Hits;
    HitsIff(a, start, size);
  }

  /** The two inputs that fail: an area that ends at 4 GiB, and a region that does. */
  lemma HitsMissesAtTop(a: Area, start: Word, size: Word)
    requires 0 < a.length && 0 < size
    requires || (a.End() == 0x1_0000_0000 && a.start < start && start + size < 0x1_0000_0000)
             || (a.End() < 0x1_0000_0000 && start < a.start && start + size == 0x1_0000_0000)
    ensures Overlap(a, start, start + size) && !Hits(a, start, size)
  {
    hide Hits;
    HitsIff(a, start, size);
  }

  // ----- insertion and removal

  /** Where insert_new_vm_area puts an area: before the first one that starts below it. */
  function Insert(s: seq<Area>, a: Area): (r: seq<Area>)
    ensures |r| == |s| + 1
  {
    if s == [] || a.start > s[0].start then [a] + s else [s[0]] + Insert(s[1..], a)
  }

  ghost predicate Clear(s: seq<Area>, start: int, end: int) {
    forall i | 0 <= i < |s| :: !Overlap(s[i], start, end)
  }

  /** The position of a in the new list; around it the old list is unchanged. */
  lemma {:induction false} InsertSplits(s: seq<Area>, a: Area) returns (k: nat)
    ensures k <= |s| && Insert(s, a) == s[..k] + [a] + s[k..]
    ensures forall i | 0 <= i < k :: s[i].start >= a.start
    ensures k < |s| ==> s[k].start < a.start
  {
    if s == [] || a.start > s[0].start {
      k := 0;
    } else {
      var m := InsertSplits(s[1..], a);
      k := m + 1;
      HeadRejoins(s, a, m);
    }
  }

  lemma HeadRejoins(s: seq<Area>, a: Area, m: nat)
    requires m < |s|
    ensures [s[0]] + (s[1..][..m] + [a] + s[1..][m..]) == s[..m + 1] + [a] + s[m + 1..]
  {
    assert s[1..][..m] == s[1..m + 1];
    assert [s[0]] + s[1..m + 1] == s[..m + 1];
  }

  lemma SpliceKeepsDescending(s: seq<Area>, a: Area, k: nat, r: seq<Area>)
    requires Descending(s) && 0 < a.length && a.End() < 0x1_0000_0000
    requires k <= |s| && r == s[..k] + [a] + s[k..]
    requires forall i | 0 <= i < k :: a.End() <= s[i].start
    requires forall i | k <= i < |s| :: s[i].End() <= a.start
    ensures Descending(r)
  {
    forall i, j | 0 <= i < j < |r| ensures r[j].End() <= r[i].start {
      assert i < k ==> r[i] == s[i];
      assert i > k ==> r[i] == s[i - 1];
      assert j < k ==> r[j] == s[j];
      assert j > k ==> r[j] == s[j - 1];
    }
  }

  /** Inserting an area that overlaps none keeps the list descending and disjoint. */
  lemma InsertKeepsDescending(s: seq<Area>, a: Area)
    requires Descending(s) && 0 < a.length && a.End() < 0x1_0000_0000 && Clear(s, a.start, a.End())
    ensures Descending(Insert(s, a))
  {
    var k := InsertSplits(s, a);
    forall i | 0 <= i < k ensures a.End() <= s[i].start {
      assert !Overlap(s[i], a.start, a.End());
    }
    forall i | k <= i < |s| ensures s[i].End() <= a.start {
      assert !Overlap(s[i], a.start, a.End());
      assert i > k ==> s[i].End() <= s[k].start;
    }
    SpliceKeepsDescending(s, a, k, Insert(s, a));
  }

  ghost function Without(s: seq<Area>, k: nat): seq<Area>
    requires k < |s|
  {
    s[..k] + s[k + 1..]
  }

  lemma RemoveKeepsDescending(s: seq<Area>, k: nat)
    requires Descending(s) && k < |s|
    ensures Descending(Without(s, k))
  {
  }

  /** Insertion followed by removal of the inserted area restores the list. */
  lemma InsertThenRemove(s: seq<Area>, a: Area) returns (k: nat)
    ensures k <= |s| && Insert(s, a)[k] == a && Without(Insert(s, a), k) == s
  {
    k := InsertSplits(s, a);
    assert Without(Insert(s, a), k) == s;
  }

  ghost function Extended(s: seq<Area>, k: nat, extra: Word): seq<Area>
    requires k < |s| && s[k].length + extra < 0x1_0000_0000
  {
    s[k := s[k].(length := s[k].length + extra)]
  }

  /** Growing an area upward past nothing that the overlap test would hit keeps the list
      descending and disjoint. */
  lemma ExtendKeepsDescending(s: seq<Area>, k: nat, extra: Word)
    requires Descending(s) && k < |s| && 0 < extra && s[k].End() + extra < 0x1_0000_0000
    requires forall i | 0 <= i < |s| :: !Hits(s[i], s[k].End(), extra)
    ensures Descending(Extended(s, k, extra))
  {
    forall i | 0 <= i < k ensures s[k].End() + extra <= s[i].start {
      HitsBelowTop(s[i], s[k].End(), extra);
    }
  }

  // ----- first fit from the top

  /** find_first_alloc: above the head, then between neighbours, then below the tail. The
      first branch is the empty list, where the source subtracts a page count. */
  function FirstAlloc(s: seq<Area>, bottom: Word, top: Word, size: Word): Word {
    if s == [] then Wrap(top - NumPagesNeeded(size) * PAGE_SIZE)
    else if Wrap(top - size) >= Wrap(s[0].start + s[0].length) then Wrap(top - size)
    else GapScan(s, bottom, size, 0)
  }

  function GapScan(s: seq<Area>, bottom: Word, size: Word, i: nat): Word
    requires i < |s|
    decreases |s| - i
  {
    if i + 1 < |s| then
      var nextEnd := Wrap(s[i + 1].start + s[i + 1].length);
      if Wrap(s[i].start - nextEnd) >= size && Wrap(s[i].start - size) >= nextEnd
      then Wrap(s[i].start - size)
      else GapScan(s, bottom, size, i + 1)
    else
      if Wrap(s[i].start - size) >= bottom then Wrap(s[i].start - size) else 0
  }

  /** [a, a+size) lies in the window and overlaps no area. */
  ghost predicate Fits(s: seq<Area>, bottom: int, top: int, size: int, a: int) {
    bottom <= a && a + size <= top && Clear(s, a, a + size)
  }

  ghost predicate InWindow(s: seq<Area>, bottom: Word, top: Word) {
    forall i | 0 <= i < |s| :: bottom <= s[i].start && s[i].End() <= top
  }

  /** The two tests for room between the start of an area and an end below it. */
  lemma RoomBetween(start: Word, end: int, size: Word)
    requires 0 < end <= start && 0 < size
    ensures Wrap(end) == end
    ensures Wrap(start - end) >= size && Wrap(start - size) >= end <==> start - size >= end
    ensures start - size >= end ==> Wrap(start - size) == start - size
  {
  }

  /** One step of the scan: between two areas no subtraction wraps. */
  lemma GapStep(s: seq<Area>, bottom: Word, size: Word, i: nat)
    requires Descending(s) && i < |s| && 0 < size
    ensures GapScan(s, bottom, size, i)
            == if i + 1 < |s| then
                 if s[i].start - size >= s[i + 1].End() then s[i].start - size
                 else GapScan(s, bottom, size, i + 1)
               else if Wrap(s[i].start - size) >= bottom then Wrap(s[i].start - size) else 0
  {
    hide Wrap;
    if i + 1 < |s| { RoomBetween(s[i].start, s[i + 1].End(), size); }
  }

  // ----- where the search ends

  /** The first place from i on where the request fits between an area and its lower
      neighbour. */
  ghost function FirstGap(s: seq<Area>, size: Word, i: nat): (k: Option<nat>)
    requires i < |s|
    ensures k.Some? ==> i <= k.value && k.value + 1 < |s|
                        && s[k.value].start - size >= s[k.value + 1].End()
    decreases |s| - i
  {
    if i + 1 == |s| then None
    else if s[i].start - size >= s[i + 1].End() then Some(i)
    else FirstGap(s, size, i + 1)
  }

  /** The scan goes through the gaps without regard for the window's bottom, and looks at it
      only below the last area, where the subtraction may wrap. */
  lemma {:induction false} GapScanIs(s: seq<Area>, bottom: Word, size: Word, i: nat)
    requires Descending(s) && i < |s| && 0 < size
    ensures GapScan(s, bottom, size, i)
            == match FirstGap(s, size, i)
               case Some(k) => s[k].start - size
               case None => var r := Wrap(s[|s| - 1].start - size); if r >= bottom then r else 0
    decreases |s| - i
  {
    hide GapScan;
    GapStep(s, bottom, size, i);
    if i + 1 < |s| && s[i].start - size < s[i + 1].End() {
      GapScanIs(s, bottom, size, i + 1);
    }
  }

  /** The room that the search settles for: above the first area, above the k+1st, or below the
      last. */
  datatype Place = AboveHead | Between(k: nat) | BelowTail

  ghost function Ending(s: seq<Area>, top: Word, size: Word): (p: Place)
    requires s != []
    ensures p.Between? ==> p.k + 1 < |s| && s[p.k].start - size >= s[p.k + 1].End()
  {
    if Wrap(top - size) >= s[0].End() then AboveHead
    else
      match FirstGap(s, size, 0)
      case Some(k) => Between(k)
      case None => BelowTail
  }

  /** Where that room ends; the region is put right below. */
  ghost function RoomEnd(s: seq<Area>, top: Word, size: Word): Word
    requires s != []
  {
    match Ending(s, top, size)
    case AboveHead => top
    case Between(k) => s[k].start
    case BelowTail => s[|s| - 1].start
  }

  /** The result in these terms, for every request. */
  lemma FirstAllocIs(s: seq<Area>, bottom: Word, top: Word, size: Word)
    requires Descending(s) && s != [] && 0 < size
    ensures var r := Wrap(RoomEnd(s, top, size) - size);
            FirstAlloc(s, bottom, top, size) == if Ending(s, top, size).BelowTail? && r < bottom then 0 else r
  {
    hide GapScan, FirstGap;
    HeadEnd(s);
    GapScanIs(s, bottom, size, 0);
    var k := FirstGap(s, size, 0);
    if k.Some? { assert s[k.value + 1].End() > 0; }
  }

  lemma HeadEnd(s: seq<Area>)
    requires Descending(s) && s != []
    ensures 0 < s[0].End() && Wrap(s[0].End()) == s[0].End()
  {
  }

  lemma BesideIsClear(s: seq<Area>, k: nat, r: Word, size: Word)
    requires Descending(s) && k < |s| && r + size == s[k].start && 0 < size
    requires k + 1 < |s| ==> s[k + 1].End() <= r
    ensures Clear(s, r, r + size)
  {
    forall j | 0 <= j < |s| ensures !Overlap(s[j], r, r + size) {
      if j > k + 1 { assert s[j].End() <= s[k + 1].start; }
      if j < k { assert s[k].End() <= s[j].start; }
    }
  }

  lemma AboveIsClear(s: seq<Area>, r: Word, size: Word)
    requires Descending(s) && s != [] && s[0].End() <= r
    ensures Clear(s, r, r + size)
  {
    forall j | 0 <= j < |s| ensures !Overlap(s[j], r, r + size) {
      if j > 0 { assert s[j].End() <= s[0].start; }
    }
  }

  /** Unless the subtraction wraps, the region below the room's end meets no area. */
  lemma RoomIsClear(s: seq<Area>, top: Word, size: Word)
    requires Descending(s) && s != [] && 0 < size <= RoomEnd(s, top, size)
    ensures Clear(s, RoomEnd(s, top, size) - size, RoomEnd(s, top, size))
  {
    hide FirstGap, Clear, Descending;
    match Ending(s, top, size)
    case AboveHead => AboveIsClear(s, top - size, size);
    case Between(k) => BesideIsClear(s, k, s[k].start - size, size);
    case BelowTail => BesideIsClear(s, |s| - 1, s[|s| - 1].start - size, size);
  }

  /** Below a gap that is too small the same region must lie below the next area. */
  lemma {:induction false} FitsBelowGaps(s: seq<Area>, size: Word, i: nat, a: nat)
    requires Descending(s) && i < |s| && 0 < size && a + size <= s[i].start && Clear(s, a, a + size)
    ensures match FirstGap(s, size, i)
            case Some(k) => a + size <= s[k].start
            case None => a + size <= s[|s| - 1].start
    decreases |s| - i
  {
    hide Clear, Descending;
    if i + 1 < |s| && s[i].start - size < s[i + 1].End() {
      assert !Overlap(s[i + 1], a, a + size) by { ClearOf(s, a, a + size, i + 1); }
      FitsBelowGaps(s, size, i + 1, a);
    }
  }

  lemma ClearOf(s: seq<Area>, start: int, end: int, i: nat)
    requires Clear(s, start, end) && i < |s|
    ensures !Overlap(s[i], start, end)
  {
  }

  /** No region up to the window's top that meets no area ends above the room. */
  lemma NothingHigher(s: seq<Area>, top: Word, size: Word, a: nat)
    requires Descending(s) && s != [] && 0 < size && a + size <= top && Clear(s, a, a + size)
    ensures a + size <= RoomEnd(s, top, size)
  {
    hide FirstGap, Clear, Descending;
    if Wrap(top - size) < s[0].End() {
      assert Wrap(top - size) == top - size;
      ClearOf(s, a, a + size, 0);
      FitsBelowGaps(s, size, 0, a);
    }
  }

  // ----- first fit and the window

  /** The room the search settles for ends in the window and reaches far enough down in it. */
  ghost predicate EndsInWindow(s: seq<Area>, bottom: Word, top: Word, size: Word)
    requires s != []
  {
    bottom <= RoomEnd(s, top, size) - size && RoomEnd(s, top, size) <= top
  }

  /** Areas may lie anywhere, also outside the window. An address that first fit returns fits iff
      the room it settled for lies in the window. */
  lemma FirstAllocFitsIff(s: seq<Area>, bottom: Word, top: Word, size: Word)
    requires Descending(s) && s != [] && 0 < size && FirstAlloc(s, bottom, top, size) != 0
    ensures Fits(s, bottom, top, size, FirstAlloc(s, bottom, top, size)) <==> EndsInWindow(s, bottom, top, size)
  {
    hide FirstAlloc, Clear, Ending;
    FirstAllocIs(s, bottom, top, size);
    var e := RoomEnd(s, top, size);
    if size <= e { RoomIsClear(s, top, size); } else { WrapsUp(e, size); }
  }

  lemma WrapsUp(e: Word, size: Word)
    requires e < size
    ensures Wrap(e - size) == e - size + 0x1_0000_0000
  {
  }

  /** If it fits, then no fitting address is higher. */
  lemma FirstAllocIsTop(s: seq<Area>, bottom: Word, top: Word, size: Word, a: int)
    requires Descending(s) && s != [] && 0 < size
    requires Fits(s, bottom, top, size, FirstAlloc(s, bottom, top, size)) && Fits(s, bottom, top, size, a)
    requires FirstAlloc(s, bottom, top, size) != 0
    ensures a <= FirstAlloc(s, bottom, top, size)
  {
    hide FirstAlloc, Clear, Ending;
    FirstAllocFitsIff(s, bottom, top, size);
    FirstAllocIs(s, bottom, top, size);
    NothingHigher(s, top, size, a);
  }

  /** NULL means that nothing fits, above address 0. */
  lemma NullMeansNothingFits(s: seq<Area>, bottom: Word, top: Word, size: Word, a: int)
    requires Descending(s) && s != [] && 0 < size && 0 < bottom && FirstAlloc(s, bottom, top, size) == 0
    ensures !Fits(s, bottom, top, size, a)
  {
    hide FirstAlloc, Clear, Ending;
    FirstAllocIs(s, bottom, top, size);
    if Fits(s, bottom, top, size, a) {
      NothingHigher(s, top, size, a);
    }
  }

  /** The search fails iff there is no room above the head and in no gap, and below the tail the
      subtraction leads below the bottom or to NULL. */
  lemma RefusedIff(s: seq<Area>, bottom: Word, top: Word, size: Word)
    requires Descending(s) && s != [] && 0 < size
    ensures FirstAlloc(s, bottom, top, size) == 0
            <==> && Wrap(top - size) < s[0].End() && FirstGap(s, size, 0).None?
                 && (Wrap(s[|s| - 1].start - size) < bottom || Wrap(s[|s| - 1].start - size) == 0)
  {
    hide FirstAlloc, FirstGap;
    HeadEnd(s);
    FirstAllocIs(s, bottom, top, size);
    var k := FirstGap(s, size, 0);
    if k.Some? { assert s[k.value + 1].End() > 0; }
  }

  /** With all areas inside the window, first fit returns the highest address at which the
      request fits, and NULL exactly when it fits nowhere. */
  lemma FirstAllocHighest(s: seq<Area>, bottom: Word, top: Word, size: Word)
    requires Descending(s) && s != [] && InWindow(s, bottom, top)
    requires 0 < size <= s[|s| - 1].start && 0 < bottom
    ensures var r := FirstAlloc(s, bottom, top, size);
            && (r == 0 <==> forall a | Fits(s, bottom, top, size, a) :: false)
            && (r != 0 ==> Fits(s, bottom, top, size, r)
                           && forall a | Fits(s, bottom, top, size, a) :: a <= r)
  {
    hide FirstAlloc, Clear, FirstGap, Descending;
    var r := FirstAlloc(s, bottom, top, size);
    if r == 0 {
      forall a | Fits(s, bottom, top, size, a) ensures false {
        NullMeansNothingFits(s, bottom, top, size, a);
      }
    } else {
      RoomInWindow(s, bottom, top, size);
      FirstAllocFitsIff(s, bottom, top, size);
      forall a | Fits(s, bottom, top, size, a) ensures a <= r {
        FirstAllocIsTop(s, bottom, top, size, a);
      }
    }
  }

  lemma RoomInWindow(s: seq<Area>, bottom: Word, top: Word, size: Word)
    requires Descending(s) && s != [] && InWindow(s, bottom, top)
    requires 0 < size <= s[|s| - 1].start && FirstAlloc(s, bottom, top, size) != 0
    ensures EndsInWindow(s, bottom, top, size)
  {
    hide FirstAlloc, FirstGap, Descending;
    FirstAllocIs(s, bottom, top, size);
    assert bottom <= s[|s| - 1].start && s[|s| - 1].End() <= top;
    assert bottom <= s[0].start;
  }

  // ----- at or above the bottom

  /** What the callers that back the region need of the search: its room reaches down to the
      bottom at most, or it ends in NULL below the tail. */
  ghost predicate EndsAboveBottom(s: seq<Area>, bottom: Word, top: Word, size: Word)
    requires s != []
  {
    var e := RoomEnd(s, top, size);
    bottom <= e - size || (Ending(s, top, size).BelowTail? && Wrap(e - size) < bottom)
  }

  ghost predicate NullOrClear(s: seq<Area>, bottom: Word, size: Word, r: Word) {
    r == 0 || (bottom <= r && r + size < 0x1_0000_0000 && Clear(s, r, r + size))
  }

  /** First fit returns NULL or a region at or above the bottom that meets no area iff its room
      reaches no further down. */
  lemma FirstAllocAboveBottomIff(s: seq<Area>, bottom: Word, top: Word, size: Word)
    requires Descending(s) && s != [] && 0 < size
    ensures NullOrClear(s, bottom, size, FirstAlloc(s, bottom, top, size)) <==> EndsAboveBottom(s, bottom, top, size)
  {
    hide FirstAlloc, Clear, Ending, RoomEnd, Descending;
    FirstAllocIs(s, bottom, top, size);
    var e := RoomEnd(s, top, size);
    if size <= e {
      RoomIsClear(s, top, size);
      RoomIsPositive(s, top, size);
    } else {
      WrapsUp(e, size);
    }
  }

  /** Only below the tail can the room begin at 0. */
  lemma RoomIsPositive(s: seq<Area>, top: Word, size: Word)
    requires Descending(s) && s != [] && 0 < size <= RoomEnd(s, top, size)
    ensures Ending(s, top, size).BelowTail? || RoomEnd(s, top, size) - size > 0
  {
    hide FirstGap;
    HeadEnd(s);
    var p := Ending(s, top, size);
    if p.Between? { assert s[p.k + 1].End() > 0; }
  }

  /** It does so if no area lies below the window and requests are not above its bottom. */
  lemma FirstAllocIsClear(s: seq<Area>, bottom: Word, top: Word, size: Word)
    requires Descending(s) && s != [] && forall j | 0 <= j < |s| :: bottom <= s[j].start
    requires 0 < size <= bottom <= top
    ensures EndsAboveBottom(s, bottom, top, size)
    ensures NullOrClear(s, bottom, size, FirstAlloc(s, bottom, top, size))
  {
    hide FirstAlloc;
    FirstAllocAboveBottomIff(s, bottom, top, size);
  }

  // ----- rounding

  /** The record of an area is rounded up to whole pages, the search is not: where first fit
      returns an address that fits, the rounded length fits there iff the request is a page
      multiple. */
  lemma RoundedFitsIff(s: seq<Area>, bottom: Word, top: Word, size: Word)
    requires Descending(s) && s != [] && 0 < size <= 0xFFFF_F000
    requires FirstAlloc(s, bottom, top, size) != 0 && Fits(s, bottom, top, size, FirstAlloc(s, bottom, top, size))
    ensures Fits(s, bottom, top, NumPagesNeeded(size) * PAGE_SIZE, FirstAlloc(s, bottom, top, size))
            <==> size % PAGE_SIZE == 0
  {
    hide FirstAlloc, Clear, FirstGap, NumPagesNeeded;
    var r, rounded := FirstAlloc(s, bottom, top, size), NumPagesNeeded(size) * PAGE_SIZE;
    FirstAllocFitsIff(s, bottom, top, size);
    FirstAllocIs(s, bottom, top, size);
    if size % PAGE_SIZE == 0 {
      WholePages(size);
    } else {
      assert rounded > size;
      match Ending(s, top, size)
      case AboveHead =>
      case Between(k) => LongerMeets(s, k, r, r + rounded);
      case BelowTail => LongerMeets(s, |s| - 1, r, r + rounded);
    }
  }

  lemma LongerMeets(s: seq<Area>, k: nat, start: int, end: int)
    requires Descending(s) && k < |s| && start < s[k].start < end
    ensures !Clear(s, start, end)
  {
    assert Overlap(s[k], start, end);
  }

  /** A request larger than a window that holds all areas fits nowhere, but is refused only if
      neither of the two unchecked subtractions wraps round to an acceptable address. */
  lemma TooLargeIsRefusedIff(s: seq<Area>, bottom: Word, top: Word, size: Word)
    requires Descending(s) && s != [] && InWindow(s, bottom, top) && size > top - bottom
    ensures FirstAlloc(s, bottom, top, size) == 0
            <==> && Wrap(top - size) < s[0].End()
                 && (Wrap(s[|s| - 1].start - size) < bottom || Wrap(s[|s| - 1].start - size) == 0)
  {
    hide FirstAlloc, FirstGap;
    assert bottom <= s[0].start && s[0].End() <= top;
    RefusedIff(s, bottom, top, size);
    var k := FirstGap(s, size, 0);
    if k.Some? { assert bottom <= s[k.value + 1].start && s[k.value].End() <= top; }
  }

  lemma HugeRequestWraps()
    ensures var s := [Area(0xD000_0000, 0x1000, 0)];
            var r := FirstAlloc(s, 0xC100_0000, 0xE000_0000, 0xE010_0000);
            r != 0 && !Fits(s, 0xC100_0000, 0xE000_0000, 0xE010_0000, r)
  {
  }

  /** On an empty list the bottom of the window is not checked. */
  lemma EmptyListIgnoresBottom(bottom: Word, top: Word, size: Word)
    requires bottom <= top && 0 < size && size % PAGE_SIZE == 0 && size < top
    ensures Fits([], bottom, top, size, FirstAlloc([], bottom, top, size)) <==> size <= top - bottom
  {
    hide NumPagesNeeded;
    WholePages(size);
  }

  lemma WholePages(size: Word)
    requires size % PAGE_SIZE == 0
    ensures NumPagesNeeded(size) * PAGE_SIZE == size
  {
    var q := size / PAGE_SIZE;
    assert size == q * PAGE_SIZE && size <= 0xFFFF_F000;
    EuclidUnique(size + (PAGE_SIZE - 1), PAGE_SIZE, q, PAGE_SIZE - 1);
  }
}
