/** The address and entry macros of the kernel's paging header, with the arithmetic
    meaning of each shift and mask as its postcondition. */
module PagingFormat {
  import opened Words

  const PAGE_SIZE := 4096
  const RECURSIVE_PDE_IDX := 0x3c3
  const ENTRIES := 1024
  const VIRTUAL_KERNEL_OFFSET := 0xC000_0000

  const PRESENT := 1
  const WRITABLE := 2
  const USER_ACCESSIBLE := 4
  const SET_PDE_PAGESIZE_FLAG := 0x80
  const PTE_IS_GLOBAL := 0x100
  const KERNEL_PDE_DEFAULT_FLAGS := PRESENT + WRITABLE + SET_PDE_PAGESIZE_FLAG
  const KERNEL_PTE_DEFAULT_FLAGS := PRESENT + WRITABLE + PTE_IS_GLOBAL

  /** `((size) + (PAGE_SIZE-1)) / PAGE_SIZE` in 32-bit arithmetic. */
  function NumPagesNeeded(size: Word): (n: nat)
    ensures size <= 0xFFFF_F000 ==> (n - 1) * PAGE_SIZE < size <= n * PAGE_SIZE
    ensures size > 0xFFFF_F000 ==> n == 0
    ensures n <= 0xF_FFFF
  {
    Wrap(size + (PAGE_SIZE - 1)) / PAGE_SIZE
  }

  function GetPteIdx(va: Word): (i: nat)
    ensures i == (va / PAGE_SIZE) % ENTRIES
  {
    MaskedIndex(va / 0x1000);
    BitAnd(va / 0x1000, 0x3ff)
  }

  function GetPdeIdx(va: Word): (i: nat)
    ensures i == (va / PAGE_SIZE) / ENTRIES && i < ENTRIES
  {
    va / 0x40_0000
  }

  predicate PagingEntryPresent(entry: Word)
    ensures PagingEntryPresent(entry) <==> entry % 2 == 1
  {
    AndLowMask(entry, 1);
    BitAnd(entry, 0x1) != 0
  }

  function GetPageframeAddress(entry: Word): (a: Word)
    ensures a == entry / PAGE_SIZE * PAGE_SIZE
  {
    Pow2Values();
    AndHighMask(entry, 12);
    BitAnd(entry, BitNot(PAGE_SIZE - 1))
  }

  function GetPageTabVirtualPointer(pdeIdx: nat): (p: Word)
    ensures pdeIdx < ENTRIES ==> p == (RECURSIVE_PDE_IDX * ENTRIES + pdeIdx) * PAGE_SIZE
  {
    hide BitOr, BitAnd;
    PointerFields(pdeIdx);
    var table := BitAnd(pdeIdx, 0x3ff);
    BitOr(RECURSIVE_PDE_IDX * 0x40_0000, table * 0x1000)
  }

  lemma MaskedIndex(i: nat)
    ensures BitAnd(i, 0x3ff) == i % ENTRIES
  {
    Pow2Values();
    AndLowMask(i, 10);
  }

  lemma PointerFields(i: nat)
    ensures BitOr(RECURSIVE_PDE_IDX * 0x40_0000, BitAnd(i, 0x3ff) * 0x1000)
            == (RECURSIVE_PDE_IDX * ENTRIES + i % ENTRIES) * PAGE_SIZE
  {
    hide BitOr, BitAnd, Pow2;
    MaskedIndex(i);
    Pow2Values();
    OrOfFields(RECURSIVE_PDE_IDX, i % ENTRIES * 0x1000, 22);
  }

  /** An entry word: `address | flags`. For a page-aligned address the frame number and
      the flags can be read back separately. */
  function EntryWord(address: Word, flags: nat): (w: Word)
    requires flags < PAGE_SIZE
    ensures address % PAGE_SIZE == 0 ==> w == address + flags
    ensures w / PAGE_SIZE == address / PAGE_SIZE
    ensures flags % 2 == 1 ==> PagingEntryPresent(w)
  {
    OrHasFields(address, flags);
    BitOr(address, flags)
  }

  lemma OrHasFields(address: Word, flags: nat)
    requires flags < PAGE_SIZE
    ensures address % PAGE_SIZE == 0 ==> BitOr(address, flags) == address + flags
    ensures BitOr(address, flags) / PAGE_SIZE == address / PAGE_SIZE
    ensures BitOr(address, flags) < 0x1_0000_0000
    ensures flags % 2 == 1 ==> BitOr(address, flags) % 2 == 1
  {
    OrIsWord(address, flags);
    OrKeepsFrame(address, flags);
    if address % PAGE_SIZE == 0 { OrOfAligned(address / PAGE_SIZE, flags); }
    BitOfOr(address, flags, 0);
  }

  lemma OrIsWord(address: Word, flags: nat)
    requires flags < PAGE_SIZE
    ensures BitOr(address, flags) < 0x1_0000_0000
  {
    Pow2Values();
    OrBelow(address, flags, 32);
  }

  lemma OrKeepsFrame(address: Word, flags: nat)
    requires flags < PAGE_SIZE
    ensures BitOr(address, flags) / PAGE_SIZE == address / PAGE_SIZE
  {
    Pow2Values();
    OrHigh(address, flags, 12);
  }

  lemma OrOfAligned(frame: nat, flags: nat)
    requires flags < PAGE_SIZE
    ensures BitOr(frame * PAGE_SIZE, flags) == frame * PAGE_SIZE + flags
  {
    Pow2Values();
    OrOfFields(frame, flags, 12);
  }

  lemma {:induction false} OrHigh(a: nat, f: nat, k: nat)
    requires f < Pow2(k)
    ensures BitOr(a, f) / Pow2(k) == a / Pow2(k)
  {
    if k > 0 {
      OrHigh(a / 2, f / 2, k - 1);
      var p := Pow2(k - 1);
      DivDiv(a, p);
      DivDiv(BitOr(a, f), p);
      if a == 0 {
        assert BitOr(a, f) == f;
        EuclidUnique(f, Pow2(k), 0, f);
      } else if f != 0 {
        assert BitOr(a, f) / 2 == BitOr(a / 2, f / 2);
      }
    }
  }

  lemma DivDiv(x: nat, p: nat)
    requires p > 0
    ensures x / (2 * p) == (x / 2) / p
  {
    HalveModulus(x, p);
    var q, r := (x / 2) / p, (x / 2) % p;
    assert x / 2 == q * p + r;
    assert x == (2 * p) * q + (2 * r + x % 2);
    EuclidUnique(x, 2 * p, q, 2 * r + x % 2);
  }

  function RoundUpToNearestPage(address: Word): (a: Word)
    ensures a == Wrap(address + (PAGE_SIZE - 1)) / PAGE_SIZE * PAGE_SIZE
  {
    GetPageframeAddress(Wrap(address + (PAGE_SIZE - 1)))
  }
}
