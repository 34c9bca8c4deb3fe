/** What mapping one page does, as a function of memory and the set of used frames:
    page tables are allocated on demand, cleared through the virtual address equal to
    their physical address, and edited through the recursive slot. */
module Mapping {
  import opened Words
  import opened Wrappers
  import opened PagingFormat
  import opened Pmm
  import opened Mmu

  const VM_AREA_WRITE := 1
  const VM_AREA_USER_ACCESSIBLE := 4
  const VM_AREA_MMIO := 8
  const VM_AREA_NO_ACCESS := 16

  /** Physical memory and the frames in use. */
  datatype Space = Space(m: seq<Word>, used: set<nat>)

  /** PageFault: a store hit an unmapped page. NoFrame: no frame for a page table. HighFrame:
      the table's frame lies at 3 GiB or above, where clearing it by its physical address
      would write to the kernel's own window. */
  datatype Outcome = Done(sp: Space) | PageFault | NoFrame | HighFrame

  predicate HasFlag(flags: Word, bit: nat) {
    BitAnd(flags, bit) != 0
  }

  function ConvertFlagsToArchFlags(flags: Word): (f: nat)
    ensures f < PAGE_SIZE && f % 2 == 1
  {
    (if HasFlag(flags, VM_AREA_WRITE) then WRITABLE else 0)
    + (if HasFlag(flags, VM_AREA_USER_ACCESSIBLE) then USER_ACCESSIBLE else 0)
    + PRESENT + PTE_IS_GLOBAL
  }

  /** Bit by bit: present and global always, writable and user-accessible as asked, whatever else
      is asked, and nothing besides. */
  lemma ArchFlagBits(flags: Word, k: nat)
    ensures Bit(ConvertFlagsToArchFlags(flags), k)
            <==> k == 0 || k == 8 || (k == 1 && Bit(flags, 0)) || (k == 2 && Bit(flags, 2))
  {
    hide Bit, BitAnd;
    TestMask(flags, 0);
    TestMask(flags, 2);
    assert Pow2(0) == VM_AREA_WRITE && Pow2(2) == VM_AREA_USER_ACCESSIBLE;
    SmallBits(HasFlag(flags, VM_AREA_WRITE), HasFlag(flags, VM_AREA_USER_ACCESSIBLE), k);
  }

  lemma SmallBits(w: bool, u: bool, k: nat)
    ensures Bit((if w then 2 else 0) + (if u then 4 else 0) + 0x101, k)
            <==> k == 0 || k == 8 || (k == 1 && w) || (k == 2 && u)
  {
    hide Bit, Pow2;
    var a := (if w then 2 else 0) + (if u then 4 else 0) + 0x101;
    if k > 8 {
      NinthPower();
      BitOfSmall(a, 9, k);
    } else {
      BitByDivision(a, k);
      SmallPowers(k);
    }
  }

  lemma NinthPower()
    ensures Pow2(9) == 512
  {
    SmallPowers(8);
  }

  lemma SmallPowers(k: nat)
    requires k <= 8
    ensures Pow2(k) == [1, 2, 4, 8, 16, 32, 64, 128, 256][k]
  {
    if k > 0 { SmallPowers(k - 1); }
  }

  lemma {:induction false} BitOfSmall(a: nat, n: nat, k: nat)
    requires a < Pow2(n) && n <= k
    ensures !Bit(a, k)
  {
    if n == 0 { ZeroHasNoBits(k); } else { BitOfSmall(a / 2, n - 1, k - 1); }
  }

  lemma {:induction false} BitByDivision(a: nat, k: nat)
    ensures Bit(a, k) <==> a / Pow2(k) % 2 == 1
  {
    if k > 0 {
      BitByDivision(a / 2, k - 1);
      DivDiv(a, Pow2(k - 1));
    }
  }

  ghost predicate SpaceOk(sp: Space, pd: nat, total: nat) {
    && IsMem(sp.m) && pd < NUM_PAGES && total <= NUM_PAGES
    && PagingOk(sp.m, pd, sp.used)
  }

  /** A frame for slot d, cleared through virtual page t and entered in the directory. */
  ghost function AllocTable(sp: Space, pd: nat, total: nat, d: nat): (o: Outcome)
    requires IsMem(sp.m) && pd < NUM_PAGES && total <= NUM_PAGES && d < ENTRIES
    ensures o.Done? ==> IsMem(o.sp.m)
  {
    match FirstFit(sp.used, total, 1)
    case None => NoFrame
    case Some(t) =>
      if t >= FIRST_KERNEL_PAGE then HighFrame
      else
        match Trans(sp.m, pd, t)
        case None => PageFault
        case Some(g) => Done(Space(TableEntered(sp.m, pd, d, t, g), sp.used + {t}))
  }

  ghost function PutPte(m: seq<Word>, pd: nat, vp: nat, phys: Word, flags: Word): (m': seq<Word>)
    requires IsMem(m) && pd < NUM_PAGES && vp < NUM_PAGES
    ensures IsMem(m')
  {
    m[GovIndex(m, pd, vp) := EntryWord(phys, ConvertFlagsToArchFlags(flags))]
  }

  ghost function MapPage(sp: Space, pd: nat, total: nat, vp: nat, phys: Word, flags: Word): (o: Outcome)
    requires IsMem(sp.m) && pd < NUM_PAGES && total <= NUM_PAGES && vp < NUM_PAGES
    ensures o.Done? ==> IsMem(o.sp.m)
  {
    if PdePresent(sp.m, pd, vp / ENTRIES) then
      Done(sp.(m := PutPte(sp.m, pd, vp, phys, flags)))
    else
      var o := AllocTable(sp, pd, total, vp / ENTRIES);
      if !o.Done? then o else Done(o.sp.(m := PutPte(o.sp.m, pd, vp, phys, flags)))
  }

  /** When a page can be mapped: its slot has a table, or the allocator's next frame lies below
      3 GiB and the page at that address is mapped, so that clearing the table there does not
      fault. Otherwise the first of these that fails is the outcome; a table is all that is
      allocated. */
  lemma MapPageSucceedsIff(sp: Space, pd: nat, total: nat, vp: nat, phys: Word, flags: Word)
    requires IsMem(sp.m) && pd < NUM_PAGES && total <= NUM_PAGES && vp < NUM_PAGES
    ensures var o, present, r :=
              MapPage(sp, pd, total, vp, phys, flags), PdePresent(sp.m, pd, vp / ENTRIES), FirstFit(sp.used, total, 1);
            && (o.Done? <==> present || (r.Some? && r.value < FIRST_KERNEL_PAGE && Trans(sp.m, pd, r.value).Some?))
            && (o == NoFrame <==> !present && r.None?)
            && (o == HighFrame <==> !present && r.Some? && r.value >= FIRST_KERNEL_PAGE)
            && (o.Done? ==> o.sp.used == sp.used + (if present then {} else {r.value}))
  {
    hide FirstFit, Trans, TableEntered, PutPte;
  }

  // ----- a new page table

  /** Writes that stay inside a frame holding no paging structure change no translation. */
  lemma WriteDataFrame(m: seq<Word>, m': seq<Word>, pd: nat, g: nat)
    requires IsMem(m) && IsMem(m') && pd < NUM_PAGES && g < NUM_PAGES && NotATable(m, pd, g)
    requires forall i | 0 <= i < MEM_WORDS && !(g * ENTRIES <= i < (g + 1) * ENTRIES) :: m'[i] == m[i]
    ensures SameSlots(m, m', pd, -1)
    ensures forall p | 0 <= p < NUM_PAGES :: Trans(m', pd, p) == Trans(m, pd, p)
  {
    forall d | 0 <= d < ENTRIES ensures PdeAt(m', pd, d) == PdeAt(m, pd, d) {
      assert (pd * ENTRIES + d) / ENTRIES == pd;
    }
    forall p | 0 <= p < NUM_PAGES ensures Trans(m', pd, p) == Trans(m, pd, p) {
      if PdePresent(m, pd, p / ENTRIES) {
        assert GovIndex(m, pd, p) / ENTRIES == TableOf(m, pd, p / ENTRIES);
      }
    }
  }

  /** Entering a table in an empty slot changes no page of another slot. */
  lemma StorePde(m: seq<Word>, pd: nat, d: nat, t: nat)
    requires IsMem(m) && pd < NUM_PAGES && d < ENTRIES && t < NUM_PAGES
    requires NotATable(m, pd, t) && !PdePresent(m, pd, d)
    requires forall e | 0 <= e < ENTRIES && e != RECURSIVE_PDE_IDX && PdePresent(m, pd, e) ::
               TableOf(m, pd, e) != pd
    ensures var m' := m[pd * ENTRIES + d := t * PAGE_SIZE + KERNEL_PDE_DEFAULT_FLAGS];
            && PdePresent(m', pd, d) && TableOf(m', pd, d) == t
            && SameSlots(m, m', pd, d)
            && (forall p | 0 <= p < NUM_PAGES && p / ENTRIES != d && p / ENTRIES != RECURSIVE_PDE_IDX ::
                  Trans(m', pd, p) == Trans(m, pd, p))
            && (forall i | t * ENTRIES <= i < (t + 1) * ENTRIES :: m'[i] == m[i])
  {
    hide Trans, GovIndex;
    var m' := m[pd * ENTRIES + d := t * PAGE_SIZE + KERNEL_PDE_DEFAULT_FLAGS];
    PdeParts(t);
    forall e | 0 <= e < ENTRIES && e != d ensures PdeAt(m', pd, e) == PdeAt(m, pd, e) {
    }
    forall p | 0 <= p < NUM_PAGES && p / ENTRIES != d && p / ENTRIES != RECURSIVE_PDE_IDX
      ensures Trans(m', pd, p) == Trans(m, pd, p)
    {
      if PdePresent(m, pd, p / ENTRIES) { GovParts(m, pd, p); }
      SameTrans(m, m', pd, p);
    }
  }

  lemma PdeParts(t: nat)
    requires t < NUM_PAGES
    ensures var w := t * PAGE_SIZE + KERNEL_PDE_DEFAULT_FLAGS;
            w < 0x1_0000_0000 && w % 2 == 1 && w / PAGE_SIZE == t
  {
  }

  lemma SameTrans(m: seq<Word>, m': seq<Word>, pd: nat, p: nat)
    requires IsMem(m) && IsMem(m') && pd < NUM_PAGES && p < NUM_PAGES
    requires PdeAt(m', pd, p / ENTRIES) == PdeAt(m, pd, p / ENTRIES)
    requires PdePresent(m, pd, p / ENTRIES) ==> m'[GovIndex(m, pd, p)] == m[GovIndex(m, pd, p)]
    ensures Trans(m', pd, p) == Trans(m, pd, p)
  {
  }

  /** The directory m with slot d filled by table t, every other slot and the pages of the
      other slots as before. */
  ghost predicate SlotFilled(m: seq<Word>, m': seq<Word>, pd: nat, d: nat, t: nat)
    requires IsMem(m) && IsMem(m') && pd < NUM_PAGES && d < ENTRIES
  {
    && !PdePresent(m, pd, d) && PdePresent(m', pd, d) && TableOf(m', pd, d) == t
    && SameSlots(m, m', pd, d)
    && (forall p | 0 <= p < NUM_PAGES && p / ENTRIES != d && p / ENTRIES != RECURSIVE_PDE_IDX ::
          Trans(m', pd, p) == Trans(m, pd, p))
  }

  lemma FilledSlotKeepsPaging(m: seq<Word>, m': seq<Word>, pd: nat, used: set<nat>, d: nat, t: nat)
    requires IsMem(m) && IsMem(m') && pd < NUM_PAGES && d < ENTRIES && PagingOk(m, pd, used)
    requires SlotFilled(m, m', pd, d, t) && NotATable(m, pd, t) && t !in used
    requires d >= FIRST_KERNEL_PDE
             || forall p | 0 <= p < NUM_PAGES && p / ENTRIES == d :: Trans(m', pd, p) == None
    ensures PagingOk(m', pd, used + {t})
  {
    assert d != RECURSIVE_PDE_IDX;
    assert Recursive(m', pd);
    var dir := FIRST_KERNEL_PAGE + pd;
    assert dir / ENTRIES != RECURSIVE_PDE_IDX && dir / ENTRIES != d;
    forall vp | 0 <= vp < FIRST_KERNEL_PAGE ensures LowPageOk(m', pd, used + {t}, vp) {
      assert LowPageOk(m, pd, used, vp);
      if vp / ENTRIES != d {
        assert Trans(m', pd, vp) == Trans(m, pd, vp);
      }
    }
  }

  ghost function TableEntered(m: seq<Word>, pd: nat, d: nat, t: nat, g: nat): (m': seq<Word>)
    requires IsMem(m) && pd < NUM_PAGES && d < ENTRIES && t < NUM_PAGES && g < NUM_PAGES
    ensures IsMem(m')
  {
    Zeroed(m, g)[pd * ENTRIES + d := t * PAGE_SIZE + KERNEL_PDE_DEFAULT_FLAGS]
  }

  /** Clearing data frame g and entering table t fills the slot; if g is t the new slot
      maps nothing. */
  lemma EnterTable(m: seq<Word>, pd: nat, used: set<nat>, d: nat, t: nat, g: nat)
    requires IsMem(m) && pd < NUM_PAGES && d < ENTRIES && t < NUM_PAGES && g < NUM_PAGES
    requires PagingOk(m, pd, used) && NotATable(m, pd, t) && NotATable(m, pd, g)
    requires !PdePresent(m, pd, d)
    ensures SlotFilled(m, TableEntered(m, pd, d, t, g), pd, d, t)
    ensures g == t ==> forall p | 0 <= p < NUM_PAGES && p / ENTRIES == d ::
                         Trans(TableEntered(m, pd, d, t, g), pd, p) == None
  {
    var m1 := Zeroed(m, g);
    WriteDataFrame(m, m1, pd, g);
    assert NotATable(m1, pd, t);
    StorePde(m1, pd, d, t);
    var m2 := TableEntered(m, pd, d, t, g);
    if g == t {
      forall p | 0 <= p < NUM_PAGES && p / ENTRIES == d ensures Trans(m2, pd, p) == None {
        assert m2[GovIndex(m2, pd, p)] == m1[GovIndex(m2, pd, p)] == 0;
      }
    }
  }

  /** A successful table allocation keeps the directory sound, takes one unused frame and
      leaves every page of the other slots alone. The new slot is empty if the table's
      frame was mapped to itself, so that clearing by physical address reached it. */
  lemma AllocTableOk(sp: Space, pd: nat, total: nat, d: nat)
    requires SpaceOk(sp, pd, total)
    requires d < ENTRIES && !PdePresent(sp.m, pd, d)
    requires AllocTable(sp, pd, total, d).Done?
    requires d >= FIRST_KERNEL_PDE
             || TableWouldBeCleared(sp, pd, total)
    ensures var sp' := AllocTable(sp, pd, total, d).sp;
            var t := FirstFit(sp.used, total, 1).value;
            && SpaceOk(sp', pd, total)
            && SlotFilled(sp.m, sp'.m, pd, d, t)
            && t !in sp.used && sp'.used == sp.used + {t} && t < total
            && (Trans(sp.m, pd, t) == Some(t) ==>
                  forall p | 0 <= p < NUM_PAGES && p / ENTRIES == d :: Trans(sp'.m, pd, p) == None)
  {
    var t := FirstFit(sp.used, total, 1).value;
    assert t !in sp.used;
    var g := Trans(sp.m, pd, t).value;
    assert LowPageOk(sp.m, pd, sp.used, t);
    assert NotATable(sp.m, pd, t);
    assert NotATable(sp.m, pd, g);
    EnterTable(sp.m, pd, sp.used, d, t, g);
    FilledSlotKeepsPaging(sp.m, TableEntered(sp.m, pd, d, t, g), pd, sp.used, d, t);
  }

  // ----- mapping a page

  /** m' is m with the pages governed by the word of vp mapped to f. */
  ghost predicate PteStored(m: seq<Word>, m': seq<Word>, pd: nat, vp: nat, f: nat)
    requires IsMem(m) && IsMem(m') && pd < NUM_PAGES && vp < NUM_PAGES
  {
    && SameSlots(m, m', pd, -1)
    && (forall p | 0 <= p < NUM_PAGES && p / ENTRIES != RECURSIVE_PDE_IDX ::
          && GovIndex(m', pd, p) == GovIndex(m, pd, p)
          && Trans(m', pd, p) == if Together(m, pd, vp, p) then Some(f) else Trans(m, pd, p))
  }

  /** Pages p and vp are governed by one word. */
  ghost predicate Together(m: seq<Word>, pd: nat, vp: nat, p: nat)
    requires IsMem(m) && pd < NUM_PAGES && vp < NUM_PAGES && p < NUM_PAGES
  {
    PdePresent(m, pd, p / ENTRIES) && GovIndex(m, pd, p) == GovIndex(m, pd, vp)
  }

  /** Every page governed by the word of vp may show frame f: below the kernel as itself or
      as a frame in use as data, and the directory's own page only as the directory. */
  ghost predicate MayShow(sp: Space, pd: nat, vp: nat, f: nat)
    requires IsMem(sp.m) && pd < 0x800 && vp < NUM_PAGES
  {
    && (forall p | 0 <= p < FIRST_KERNEL_PAGE && Together(sp.m, pd, vp, p) ::
          f == p || (f in sp.used && NotATable(sp.m, pd, f)))
    && (Together(sp.m, pd, vp, FIRST_KERNEL_PAGE + pd) ==> f == pd)
  }

  /** Storing a present entry for vp, whatever the frame. */
  lemma PteIsStored(sp: Space, pd: nat, total: nat, vp: nat, phys: Word, flags: Word)
    requires SpaceOk(sp, pd, total) && vp < NUM_PAGES
    requires vp / ENTRIES != RECURSIVE_PDE_IDX && PdePresent(sp.m, pd, vp / ENTRIES)
    ensures PteStored(sp.m, PutPte(sp.m, pd, vp, phys, flags), pd, vp, phys / PAGE_SIZE)
  {
    StorePte(sp.m, pd, sp.used, vp, EntryWord(phys, ConvertFlagsToArchFlags(flags)));
  }

  /** What page p below the kernel shows then is sound iff it may show f or shows the same. */
  lemma LowPageStored(sp: Space, m': seq<Word>, pd: nat, total: nat, vp: nat, f: nat, p: nat)
    requires SpaceOk(sp, pd, total) && vp < NUM_PAGES && p < FIRST_KERNEL_PAGE && IsMem(m')
    requires PteStored(sp.m, m', pd, vp, f)
    ensures LowPageOk(m', pd, sp.used, p)
            <==> Together(sp.m, pd, vp, p) ==> f == p || (f in sp.used && NotATable(sp.m, pd, f))
  {
    hide Together, Trans, GovIndex;
    assert LowPageOk(sp.m, pd, sp.used, p);
    TablesStay(sp.m, m', pd, f);
    if Trans(sp.m, pd, p).Some? { TablesStay(sp.m, m', pd, Trans(sp.m, pd, p).value); }
  }

  /** It keeps the directory sound iff the frame may show there. */
  lemma PutPteOkIff(sp: Space, pd: nat, total: nat, vp: nat, phys: Word, flags: Word)
    requires SpaceOk(sp, pd, total) && vp < NUM_PAGES
    requires vp / ENTRIES != RECURSIVE_PDE_IDX && PdePresent(sp.m, pd, vp / ENTRIES)
    ensures PagingOk(PutPte(sp.m, pd, vp, phys, flags), pd, sp.used)
            <==> MayShow(sp, pd, vp, phys / PAGE_SIZE)
  {
    hide LowPageOk, NotATable, Together, Trans, GovIndex;
    var m' := PutPte(sp.m, pd, vp, phys, flags);
    PteIsStored(sp, pd, total, vp, phys, flags);
    assert (FIRST_KERNEL_PAGE + pd) / ENTRIES != RECURSIVE_PDE_IDX;
    forall p | 0 <= p < FIRST_KERNEL_PAGE
      ensures LowPageOk(m', pd, sp.used, p)
              <==> Together(sp.m, pd, vp, p)
                   ==> phys / PAGE_SIZE == p
                       || (phys / PAGE_SIZE in sp.used && NotATable(sp.m, pd, phys / PAGE_SIZE))
    {
      LowPageStored(sp, m', pd, total, vp, phys / PAGE_SIZE, p);
    }
  }

  lemma TablesStay(m: seq<Word>, m': seq<Word>, pd: nat, f: nat)
    requires IsMem(m) && IsMem(m') && pd < NUM_PAGES && SameSlots(m, m', pd, -1)
    ensures NotATable(m', pd, f) <==> NotATable(m, pd, f)
  {
  }

  /** A page above the doubly mapped boot tables may show every frame there is. */
  lemma HighPageMayShow(sp: Space, pd: nat, total: nat, vp: nat, f: nat)
    requires SpaceOk(sp, pd, total) && FIRST_FREE_PAGE <= vp < NUM_PAGES && PdePresent(sp.m, pd, vp / ENTRIES)
    ensures MayShow(sp, pd, vp, f)
  {
    forall p | 0 <= p < FIRST_FREE_PAGE ensures !Together(sp.m, pd, vp, p) {
      if PdePresent(sp.m, pd, p / ENTRIES) { GovInjective(sp.m, pd, sp.used, p, vp); }
    }
  }

  /** The page is outside the recursive window, and below the kernel a missing page table
      would get a frame that is mapped to itself. */
  ghost predicate TableReached(sp: Space, pd: nat, total: nat, vp: nat)
    requires IsMem(sp.m) && pd < NUM_PAGES && vp < NUM_PAGES
  {
    && vp / ENTRIES != RECURSIVE_PDE_IDX
    && (PdePresent(sp.m, pd, vp / ENTRIES) || vp >= FIRST_KERNEL_PAGE || TableWouldBeCleared(sp, pd, total))
  }

  /** What a caller must see to besides, for the directory to stay sound. */
  ghost predicate MapAllowed(sp: Space, pd: nat, total: nat, vp: nat, phys: Word)
    requires IsMem(sp.m) && pd < 0x800 && vp < NUM_PAGES
  {
    var f := phys / PAGE_SIZE;
    && TableReached(sp, pd, total, vp)
    && (if PdePresent(sp.m, pd, vp / ENTRIES) then MayShow(sp, pd, vp, f)
        else vp >= FIRST_KERNEL_PAGE || f == vp || (f in sp.used && NotATable(sp.m, pd, f)))
  }

  /** The next page table's frame is mapped to itself, so the memset reaches it. */
  ghost predicate TableWouldBeCleared(sp: Space, pd: nat, total: nat)
    requires IsMem(sp.m) && pd < NUM_PAGES
  {
    var t := FirstFit(sp.used, total, 1);
    t.Some? && t.value < FIRST_KERNEL_PAGE && Trans(sp.m, pd, t.value) == t
  }

  /** sp' is sp with page vp, and the pages governed by the same word, mapped to f. */
  ghost predicate Mapped(sp: Space, sp': Space, pd: nat, vp: nat, f: nat, cleared: bool)
    requires IsMem(sp.m) && IsMem(sp'.m) && pd < NUM_PAGES && vp < NUM_PAGES
  {
    var d := vp / ENTRIES;
    && PdePresent(sp'.m, pd, d)
    && SameSlots(sp.m, sp'.m, pd, if PdePresent(sp.m, pd, d) then -1 else d)
    && Trans(sp'.m, pd, vp) == Some(f)
    && sp'.used == sp.used + (if PdePresent(sp.m, pd, d) then {} else {TableOf(sp'.m, pd, d)})
    && (!PdePresent(sp.m, pd, d) ==> TableOf(sp'.m, pd, d) !in sp.used)
    && (forall p | 0 <= p < NUM_PAGES && p / ENTRIES != RECURSIVE_PDE_IDX
                   && (PdePresent(sp.m, pd, d) || p / ENTRIES != d || cleared) ::
          Trans(sp'.m, pd, p) == if Together(sp'.m, pd, vp, p) then Some(f) else Trans(sp.m, pd, p))
  }

  /** Mapping a page to any frame whatever: afterwards vp translates to the frame, and so
      does every page governed by the same word; every other page outside the recursive
      window keeps its translation, where a page of a slot that had no table stays unmapped
      provided the new table was cleared. At most one frame, for the table, becomes used. */
  lemma MapPageEffect(sp: Space, sp': Space, pd: nat, total: nat, vp: nat, phys: Word, flags: Word)
    requires SpaceOk(sp, pd, total) && vp < NUM_PAGES && TableReached(sp, pd, total, vp)
    requires MapPage(sp, pd, total, vp, phys, flags) == Done(sp')
    ensures Mapped(sp, sp', pd, vp, phys / PAGE_SIZE, TableWouldBeCleared(sp, pd, total))
  {
    if PdePresent(sp.m, pd, vp / ENTRIES) {
      PteIsStored(sp, pd, total, vp, phys, flags);
    } else {
      var s1 := AllocTable(sp, pd, total, vp / ENTRIES).sp;
      AllocTableOk(sp, pd, total, vp / ENTRIES);
      PteIsStored(s1, pd, total, vp, phys, flags);
      FillThenStore(sp, s1, PutPte(s1.m, pd, vp, phys, flags), pd, vp, phys / PAGE_SIZE,
                    TableWouldBeCleared(sp, pd, total));
    }
  }

  /** Where the page has a table, mapping keeps the paging structures sound iff the frame may
      show at every page governed by the word. */
  lemma MapKeepsSpaceIff(sp: Space, sp': Space, pd: nat, total: nat, vp: nat, phys: Word, flags: Word)
    requires SpaceOk(sp, pd, total) && vp < NUM_PAGES && vp / ENTRIES != RECURSIVE_PDE_IDX
    requires PdePresent(sp.m, pd, vp / ENTRIES)
    requires MapPage(sp, pd, total, vp, phys, flags) == Done(sp')
    ensures SpaceOk(sp', pd, total) <==> MayShow(sp, pd, vp, phys / PAGE_SIZE)
  {
    PutPteOkIff(sp, pd, total, vp, phys, flags);
  }

  lemma MapKeepsSpace(sp: Space, sp': Space, pd: nat, total: nat, vp: nat, phys: Word, flags: Word)
    requires SpaceOk(sp, pd, total) && vp < NUM_PAGES && MapAllowed(sp, pd, total, vp, phys)
    requires MapPage(sp, pd, total, vp, phys, flags) == Done(sp')
    ensures SpaceOk(sp', pd, total)
  {
    if PdePresent(sp.m, pd, vp / ENTRIES) {
      PutPteOkIff(sp, pd, total, vp, phys, flags);
    } else {
      var s1 := AllocTable(sp, pd, total, vp / ENTRIES).sp;
      AllocTableOk(sp, pd, total, vp / ENTRIES);
      FreshMayShow(sp, s1, pd, total, vp, phys / PAGE_SIZE);
      PutPteOkIff(s1, pd, total, vp, phys, flags);
    }
  }

  /** No other page is governed by a word of a table that was just entered. */
  lemma FreshMayShow(sp: Space, s1: Space, pd: nat, total: nat, vp: nat, f: nat)
    requires SpaceOk(sp, pd, total) && SpaceOk(s1, pd, total) && vp < NUM_PAGES
    requires vp >= FIRST_KERNEL_PAGE || f == vp || (f in sp.used && NotATable(sp.m, pd, f))
    requires SlotFilled(sp.m, s1.m, pd, vp / ENTRIES, TableOf(s1.m, pd, vp / ENTRIES))
    requires s1.used == sp.used + {TableOf(s1.m, pd, vp / ENTRIES)} && TableOf(s1.m, pd, vp / ENTRIES) !in sp.used
    ensures MayShow(s1, pd, vp, f)
  {
    var d, t := vp / ENTRIES, TableOf(s1.m, pd, vp / ENTRIES);
    DirectorySlot(sp.m, pd, sp.used);
    forall p | 0 <= p < NUM_PAGES && p / ENTRIES != RECURSIVE_PDE_IDX && Together(s1.m, pd, vp, p)
      ensures p == vp
    {
      GovParts(s1.m, pd, p);
      GovParts(s1.m, pd, vp);
    }
    assert (FIRST_KERNEL_PAGE + pd) / ENTRIES != d;
  }

  /** The slot through which the directory itself is reached has a table in use. */
  lemma DirectorySlot(m: seq<Word>, pd: nat, used: set<nat>)
    requires IsMem(m) && pd < NUM_PAGES && PagingOk(m, pd, used)
    ensures var e := (FIRST_KERNEL_PAGE + pd) / ENTRIES;
            e != RECURSIVE_PDE_IDX && PdePresent(m, pd, e) && TableOf(m, pd, e) in used
  {
    var e := (FIRST_KERNEL_PAGE + pd) / ENTRIES;
    assert e == 768 || e == 769;
    assert PdePresent(m, pd, e);
  }

  lemma GovParts(m: seq<Word>, pd: nat, p: nat)
    requires IsMem(m) && pd < NUM_PAGES && p < NUM_PAGES
    ensures GovIndex(m, pd, p) / ENTRIES == TableOf(m, pd, p / ENTRIES)
    ensures GovIndex(m, pd, p) % ENTRIES == p % ENTRIES
  {
  }

  lemma FillThenStore(sp: Space, s1: Space, m2: seq<Word>, pd: nat, vp: nat, f: nat, cleared: bool)
    requires IsMem(sp.m) && IsMem(s1.m) && IsMem(m2) && pd < NUM_PAGES && vp < NUM_PAGES
    requires var d := vp / ENTRIES;
             && d != RECURSIVE_PDE_IDX && SlotFilled(sp.m, s1.m, pd, d, TableOf(s1.m, pd, d))
             && s1.used == sp.used + {TableOf(s1.m, pd, d)} && TableOf(s1.m, pd, d) !in sp.used
             && (cleared ==> forall p | 0 <= p < NUM_PAGES && p / ENTRIES == d :: Trans(s1.m, pd, p) == None)
    requires PteStored(s1.m, m2, pd, vp, f)
    ensures Mapped(sp, s1.(m := m2), pd, vp, f, cleared)
  {
  }
}
