/** The paging code itself: every access to a paging structure is a load or store at a
    virtual address, translated by the very structures being edited. */
module Paging {
  import opened Words
  import opened Wrappers
  import opened PagingFormat
  import opened Pmm
  import opened Mmu
  import opened Mapping

  /** MapFault: an access hit an unmapped page. MapNoFrame: the frame allocator returned
      NULL for a page table (the source goes on with frame 0 as the table). MapHighFrame: the
      table's frame is at 3 GiB or above (the source goes on to clear kernel memory). */
  datatype MapResult = MapOk | MapFault | MapNoFrame | MapHighFrame

  class Machine {
    // all of 32-bit physical memory
    const mem: array<Word>
    // the frame of kernel_PGD, linked at VIRTUAL_KERNEL_OFFSET above it
    const pgd: nat
    const pmm: FrameBitmap

    constructor (mem: array<Word>, pgd: nat, pmm: FrameBitmap)
      ensures this.mem == mem && this.pgd == pgd && this.pmm == pmm
    {
      this.mem, this.pgd, this.pmm := mem, pgd, pmm;
    }

    /** The fixed part. */
    ghost predicate Shape()
      reads pmm
    {
      && mem.Length == MEM_WORDS && pgd < 0x800 && mem != pmm.words
      && pmm.Valid()
    }

    ghost predicate Valid()
      reads mem, pmm, pmm.words
    {
      Shape() && SpaceOk(Now(), pgd, pmm.numBits)
    }

    ghost function Now(): (sp: Space)
      requires mem.Length == MEM_WORDS && pmm.Valid()
      reads mem, pmm, pmm.words
      ensures IsMem(sp.m)
    {
      Space(mem[..], pmm.Used())
    }

    function KernelPgd(d: nat): (va: Word)
      requires pgd < 0x800 && d < ENTRIES
      ensures va / PAGE_SIZE == FIRST_KERNEL_PAGE + pgd && va % PAGE_SIZE == 4 * d
    {
      VIRTUAL_KERNEL_OFFSET + pgd * PAGE_SIZE + 4 * d
    }

    /** A word load at a virtual address. */
    method Load(va: Word) returns (r: Option<Word>)
      requires mem.Length == MEM_WORDS && pgd < NUM_PAGES
      ensures r == match Walk(mem[..], pgd, va)
                   case None => None
                   case Some(pa) => Some(mem[pa / 4])
    {
      hide GetPdeIdx, GetPteIdx, GetPageframeAddress, PagingEntryPresent;
      var pde := mem[pgd * ENTRIES + GetPdeIdx(va)];
      if !PagingEntryPresent(pde) {
        return None;
      }
      var pte := mem[pde / PAGE_SIZE * ENTRIES + GetPteIdx(va)];
      if !PagingEntryPresent(pte) {
        return None;
      }
      r := Some(mem[(GetPageframeAddress(pte) + va % PAGE_SIZE) / 4]);
    }

    /** A word store at a virtual address. */
    method Store(va: Word, w: Word) returns (ok: bool)
      requires mem.Length == MEM_WORDS && pgd < NUM_PAGES
      modifies mem
      ensures match old(Walk(mem[..], pgd, va))
              case None => !ok && mem[..] == old(mem[..])
              case Some(pa) => ok && mem[..] == old(mem[..])[pa / 4 := w]
    {
      hide GetPdeIdx, GetPteIdx, GetPageframeAddress, PagingEntryPresent;
      var pde := mem[pgd * ENTRIES + GetPdeIdx(va)];
      if !PagingEntryPresent(pde) {
        return false;
      }
      var pte := mem[pde / PAGE_SIZE * ENTRIES + GetPteIdx(va)];
      if !PagingEntryPresent(pte) {
        return false;
      }
      mem[(GetPageframeAddress(pte) + va % PAGE_SIZE) / 4] := w;
      return true;
    }

    method FreeMapping(va: Word) returns (ok: bool)
      requires mem.Length == MEM_WORDS && pgd < NUM_PAGES && Recursive(mem[..], pgd)
      modifies mem
      ensures var vp := va / PAGE_SIZE;
              if old(PdePresent(mem[..], pgd, vp / ENTRIES))
              then ok && mem[..] == old(mem[..][GovIndex(mem[..], pgd, vp) := 0])
              else !ok && mem[..] == old(mem[..])
    {
      RecursiveWalk(mem[..], pgd, va);
      ok := Store(PteAddress(va), 0);
    }

    /** memset of one page, as word stores. */
    method ClearPage(page: nat) returns (ok: bool)
      requires mem.Length == MEM_WORDS && pgd < NUM_PAGES && page < NUM_PAGES
      requires var g := Trans(mem[..], pgd, page); g.Some? ==> NotATable(mem[..], pgd, g.value)
      modifies mem
      ensures match old(Trans(mem[..], pgd, page))
              case None => !ok && mem[..] == old(mem[..])
              case Some(g) => ok && mem[..] == Zeroed(old(mem[..]), g)
      ensures forall p | 0 <= p < NUM_PAGES :: Trans(mem[..], pgd, p) == old(Trans(mem[..], pgd, p))
    {
      ghost var m := mem[..];
      ghost var g := Trans(m, pgd, page);
      for i := 0 to ENTRIES
        invariant g.None? ==> i == 0 && mem[..] == m
        invariant g.Some? ==> forall j | 0 <= j < MEM_WORDS ::
                    mem[j] == if g.value * ENTRIES <= j < g.value * ENTRIES + i then 0 else m[j]
      {
        ghost var before := mem[..];
        if g.Some? {
          WriteDataFrame(m, before, pgd, g.value);
        }
        var va := page * PAGE_SIZE + 4 * i;
        assert va / PAGE_SIZE == page && va % PAGE_SIZE == 4 * i;
        ok := Store(va, 0);
        if !ok {
          return;
        }
        assert mem[..] == before[g.value * ENTRIES + i := 0];
      }
      assert mem[..] == Zeroed(m, g.value);
      WriteDataFrame(m, mem[..], pgd, g.value);
      return true;
    }

    /** init_pde on the directory, reached at &kernel_PGD. */
    method InitPde(d: nat, phys: Word)
      requires mem.Length == MEM_WORDS && pgd < 0x800 && d < ENTRIES && phys % PAGE_SIZE == 0
      requires Trans(mem[..], pgd, FIRST_KERNEL_PAGE + pgd) == Some(pgd)
      modifies mem
      ensures phys + KERNEL_PDE_DEFAULT_FLAGS < 0x1_0000_0000
      ensures mem[..] == old(mem[..])[pgd * ENTRIES + d := phys + KERNEL_PDE_DEFAULT_FLAGS]
    {
      var va := KernelPgd(d);
      assert Walk(mem[..], pgd, va) == Some(pgd * PAGE_SIZE + 4 * d);
      var _ := Store(va, EntryWord(phys, KERNEL_PDE_DEFAULT_FLAGS));
    }

    /** One frame from the allocator; address 0 is none. */
    method TakeFrame() returns (phys: Word)
      requires Shape()
      modifies pmm.words
      ensures Shape()
      ensures match FirstFit(old(pmm.Used()), pmm.numBits, 1)
              case None => phys == 0 && pmm.Used() == old(pmm.Used())
              case Some(t) =>
                phys == t * PAGE_SIZE && t < pmm.numBits && pmm.Used() == old(pmm.Used()) + {t}
    {
      hide FirstFit, AllFree;
      ghost var used := pmm.Used();
      assert NumPagesNeeded(PAGE_SIZE) == 1;
      if FirstFit(used, pmm.numBits, 1).Some? { FirstFitIsFree(used, pmm.numBits, 1); }
      phys := pmm.AllocPageframe(ENTRIES * 4);
      assert forall t: nat :: Frames(t, 1) == {t};
    }

    /** A frame from the allocator, cleared at the virtual address equal to its physical
        address. */
    method NewTableFrame() returns (phys: Word, r: MapResult)
      requires Shape() && Trans(mem[..], pgd, FIRST_KERNEL_PAGE + pgd) == Some(pgd)
      requires TableFrameOk(Now(), pgd, pmm.numBits)
      modifies mem, pmm.words
      ensures pmm.Valid()
      ensures match FirstFit(old(pmm.Used()), pmm.numBits, 1)
              case None => r == MapNoFrame
              case Some(t) =>
                if t >= FIRST_KERNEL_PAGE then t < NUM_PAGES && r == MapHighFrame
                else
                  match old(Trans(mem[..], pgd, t))
                  case None => r == MapFault
                  case Some(g) =>
                    && r == MapOk && phys == t * PAGE_SIZE
                    && mem[..] == Zeroed(old(mem[..]), g)
                    && pmm.Used() == old(pmm.Used()) + {t}
                    && Trans(mem[..], pgd, FIRST_KERNEL_PAGE + pgd) == Some(pgd)
      ensures r != MapOk ==> Leaked(old(Now()), Now(), pmm.numBits)
    {
      hide FirstFit, Zeroed, NotATable, Trans;
      ghost var sp := Now();
      phys := TakeFrame();
      assert mem[..] == sp.m;
      if phys == 0 {
        return phys, MapNoFrame;
      }
      if phys >= VIRTUAL_KERNEL_OFFSET {
        return phys, MapHighFrame;
      }
      ghost var used := pmm.Used();
      var cleared := ClearPage(phys / PAGE_SIZE);
      assert pmm.Used() == used;
      if !cleared {
        return phys, MapFault;
      }
      r := MapOk;
    }

    method AllocPageTable(d: nat) returns (r: MapResult)
      requires Shape() && Trans(mem[..], pgd, FIRST_KERNEL_PAGE + pgd) == Some(pgd)
      requires TableFrameOk(Now(), pgd, pmm.numBits) && d < ENTRIES
      modifies mem, pmm.words
      ensures Shape()
      ensures Outcomes(r, AllocTable(old(Now()), pgd, pmm.numBits, d))
      ensures r != MapOk ==> Leaked(old(Now()), Now(), pmm.numBits)
    {
      hide FirstFit, Zeroed, NotATable, Trans, Leaked, AllFree, AllocTable, TableFrameOk;
      ghost var sp := Now();
      AllocTableCases(sp, pgd, pmm.numBits, d);
      var phys;
      phys, r := NewTableFrame();
      if r == MapOk {
        EnterTableFrame(d, phys);
        assert Now() == AllocTable(sp, pgd, pmm.numBits, d).sp;
      }
    }

    /** The directory entry for a frame that was cleared. */
    method EnterTableFrame(d: nat, phys: Word)
      requires Shape() && Trans(mem[..], pgd, FIRST_KERNEL_PAGE + pgd) == Some(pgd)
      requires d < ENTRIES && phys % PAGE_SIZE == 0
      modifies mem
      ensures Shape() && pmm.Used() == old(pmm.Used()) && phys + KERNEL_PDE_DEFAULT_FLAGS < 0x1_0000_0000
      ensures mem[..] == old(mem[..])[pgd * ENTRIES + d := phys + KERNEL_PDE_DEFAULT_FLAGS]
    {
      hide Trans;
      ghost var used := pmm.Used();
      InitPde(d, phys);
      assert pmm.Used() == used;
    }

    /** The store of a PTE through the recursive slot. */
    method StorePteOf(phys: Word, va: Word, flags: Word)
      requires Shape() && Recursive(mem[..], pgd)
      requires PdePresent(mem[..], pgd, va / PAGE_SIZE / ENTRIES)
      modifies mem
      ensures mem[..] == PutPte(old(mem[..]), pgd, va / PAGE_SIZE, phys, flags)
    {
      RecursiveWalk(mem[..], pgd, va);
      var _ := Store(PteAddress(va), EntryWord(phys, ConvertFlagsToArchFlags(flags)));
    }

    ghost predicate Outcomes(r: MapResult, o: Outcome)
      requires Shape()
      reads mem, pmm, pmm.words
    {
      match o
      case Done(sp) => r == MapOk && Now() == sp
      case PageFault => r == MapFault
      case NoFrame => r == MapNoFrame
      case HighFrame => r == MapHighFrame
    }

    /** Map one page: what it does is exactly `MapPage`. */
    method MapPageframe(phys: Word, va: Word, flags: Word) returns (r: MapResult)
      requires Shape() && AccessOk(Now(), pgd, pmm.numBits, va / PAGE_SIZE / ENTRIES)
      modifies mem, pmm.words
      ensures Shape()
      ensures Outcomes(r, MapPage(old(Now()), pgd, pmm.numBits, va / PAGE_SIZE, phys, flags))
      ensures r != MapOk ==> Leaked(old(Now()), Now(), pmm.numBits)
      ensures old(PdePresent(mem[..], pgd, va / PAGE_SIZE / ENTRIES)) ==> pmm.words[..] == old(pmm.words[..])
    {
      var entry := KernelPgd(GetPdeIdx(va));
      assert Walk(mem[..], pgd, entry) == Some(pgd * PAGE_SIZE + 4 * GetPdeIdx(va));
      var pde := Load(entry);
      if !PagingEntryPresent(pde.value) {
        r := AllocPageTable(GetPdeIdx(va));
        if r != MapOk {
          return;
        }
      }
      StorePteOf(phys, va, flags);
      return MapOk;
    }
  }

  lemma AllocTableCases(sp: Space, pd: nat, total: nat, d: nat)
    requires IsMem(sp.m) && pd < NUM_PAGES && total <= NUM_PAGES && d < ENTRIES
    ensures var r := FirstFit(sp.used, total, 1);
            && (r.None? ==> AllocTable(sp, pd, total, d) == NoFrame)
            && (r.Some? && r.value >= FIRST_KERNEL_PAGE ==> AllocTable(sp, pd, total, d) == HighFrame)
            && (r.Some? && r.value < FIRST_KERNEL_PAGE ==>
                  var g := Trans(sp.m, pd, r.value);
                  AllocTable(sp, pd, total, d)
                  == if g.None? then PageFault
                     else
                       var entry := r.value * PAGE_SIZE + KERNEL_PDE_DEFAULT_FLAGS;
                       Done(Space(Zeroed(sp.m, g.value)[pd * ENTRIES + d := entry], sp.used + {r.value})))
  {
    hide FirstFit, Trans, Zeroed;
  }

  /** Memory is as before, and frames that were free may have been taken. */
  ghost predicate Leaked(sp: Space, sp': Space, total: nat) {
    sp'.m == sp.m && sp.used <= sp'.used && forall f | f in sp'.used && f !in sp.used :: f < total
  }

  /** The next frame from the allocator is none of the first pages' NULL, and the frame
      that a clearing store at its address would reach is no paging structure. */
  ghost predicate TableFrameOk(sp: Space, pd: nat, total: nat)
    requires IsMem(sp.m) && pd < NUM_PAGES
  {
    match FirstFit(sp.used, total, 1)
    case None => true
    case Some(t) =>
      && 0 < t < NUM_PAGES
      && (t < FIRST_KERNEL_PAGE && Trans(sp.m, pd, t).Some? ==>
            NotATable(sp.m, pd, Trans(sp.m, pd, t).value))
  }

  /** The paging structures can be edited for slot d: the directory reaches itself through
      both of its windows, and still does once a table was added. */
  ghost predicate AccessOk(sp: Space, pd: nat, total: nat, d: nat)
    requires IsMem(sp.m) && pd < 0x800 && total <= NUM_PAGES && d < ENTRIES
  {
    && Recursive(sp.m, pd) && Trans(sp.m, pd, FIRST_KERNEL_PAGE + pd) == Some(pd)
    && (!PdePresent(sp.m, pd, d) ==>
          TableFrameOk(sp, pd, total)
          && var o := AllocTable(sp, pd, total, d); (o.Done? ==> Recursive(o.sp.m, pd) && PdePresent(o.sp.m, pd, d)))
  }

  lemma SpaceOkGivesAccess(sp: Space, pd: nat, total: nat, d: nat)
    requires SpaceOk(sp, pd, total) && d < ENTRIES
    ensures AccessOk(sp, pd, total, d)
  {
    TableFrameIsData(sp, pd, total);
    if !PdePresent(sp.m, pd, d) && AllocTable(sp, pd, total, d).Done? {
      var t := FirstFit(sp.used, total, 1).value;
      assert t !in sp.used;
      assert NotATable(sp.m, pd, t);
      EnterTable(sp.m, pd, sp.used, d, t, Trans(sp.m, pd, t).value);
    }
  }

  lemma TableFrameIsData(sp: Space, pd: nat, total: nat)
    requires SpaceOk(sp, pd, total)
    ensures TableFrameOk(sp, pd, total)
  {
    var r := FirstFit(sp.used, total, 1);
    if r.Some? {
      assert r.value !in sp.used;
      assert r.value < FIRST_KERNEL_PAGE ==> LowPageOk(sp.m, pd, sp.used, r.value);
      assert NotATable(sp.m, pd, r.value);
    }
  }
}
