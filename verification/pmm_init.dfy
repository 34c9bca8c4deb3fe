/** Initialising the frame bitmap from the boot memory map. */
module PmmInit {
  import opened Words
  import opened PagingFormat
  import opened Pmm

  /** An entry of the usable-region table; an entry of length 0 ends it. */
  datatype Region = Region(start: Word, length: Word)

  const FIRST_FREEABLE_PFN := 0x10_0000 / PAGE_SIZE

  /** The page lies wholly inside an entry before the end of the table. The end of the
      region is computed in 32 bits, so a region that reaches 4 GiB holds no page. */
  predicate Usable(regions: seq<Region>, page: Word) {
    && regions != [] && regions[0].length != 0
    && (|| (regions[0].start <= page && page + (PAGE_SIZE - 1) < Wrap(regions[0].start + regions[0].length))
        || Usable(regions[1..], page))
  }

  /** The page lies in entry i, and the table does not end before it. */
  ghost predicate InRegion(regions: seq<Region>, i: int, page: Word) {
    && 0 <= i < |regions| && (forall j | 0 <= j <= i :: regions[j].length != 0)
    && regions[i].start <= page && page + PAGE_SIZE <= regions[i].start + regions[i].length
  }

  lemma InLaterRegion(regions: seq<Region>, i: int, page: Word)
    requires regions != [] && 0 < i
    ensures InRegion(regions, i, page) <==> regions[0].length != 0 && InRegion(regions[1..], i - 1, page)
  {
    var rest := regions[1..];
    if InRegion(regions, i, page) {
      assert forall j | 0 <= j <= i - 1 :: rest[j] == regions[j + 1];
    }
    if regions[0].length != 0 && InRegion(rest, i - 1, page) {
      assert forall j | 0 < j <= i :: regions[j] == rest[j - 1];
    }
  }

  /** In plain terms, for a table without wrapping regions. */
  lemma {:induction false} UsableIff(regions: seq<Region>, page: Word)
    requires forall i | 0 <= i < |regions| :: regions[i].start + regions[i].length < 0x1_0000_0000
    ensures Usable(regions, page) <==> exists i :: InRegion(regions, i, page)
  {
    if regions != [] && regions[0].length != 0 {
      var rest := regions[1..];
      UsableIff(rest, page);
      assert InRegion(regions, 0, page) <==>
             regions[0].start <= page && page + (PAGE_SIZE - 1) < Wrap(regions[0].start + regions[0].length);
      if i :| InRegion(rest, i, page) { InLaterRegion(regions, i + 1, page); }
      if i :| InRegion(regions, i, page) && i != 0 { InLaterRegion(regions, i, page); }
    }
  }

  method IsPageUsable(regions: seq<Region>, page: Word) returns (usable: bool)
    requires page % PAGE_SIZE == 0
    requires exists i :: 0 <= i < |regions| && regions[i].length == 0
    ensures usable == Usable(regions, page)
  {
    var r := 0;
    ghost var last :| 0 <= last < |regions| && regions[last].length == 0;
    while regions[r].length != 0
      invariant 0 <= r <= last
      invariant Usable(regions, page) == Usable(regions[r..], page)
      decreases last - r
    {
      assert regions[r..][1..] == regions[r + 1..];
      var end := Wrap(regions[r].start + regions[r].length);
      if page >= regions[r].start && page + (PAGE_SIZE - 1) < end {
        return true;
      }
      r := r + 1;
    }
    return false;
  }

  // ----- memset(alloc_bitmap, 0xff, n)

  lemma {:induction false} BitsOfOnes(n: nat, j: nat)
    ensures Bit(Pow2(n) - 1, j) == (j < n)
  {
    if n == 0 {
      ZeroHasNoBits(j);
    } else if j > 0 {
      BitsOfOnes(n - 1, j - 1);
      assert (Pow2(n) - 1) / 2 == Pow2(n - 1) - 1;
    }
  }

  lemma {:induction false} BitsOfShift(x: nat, k: nat, j: nat)
    ensures Bit(x * Pow2(k), j) == (j >= k && Bit(x, j - k))
  {
    if k > 0 {
      var y := x * Pow2(k - 1);
      assert x * Pow2(k) == 2 * y;
      if j > 0 { BitsOfShift(x, k - 1, j - 1); }
    }
  }

  /** Byte b of a word, set to 0xff. */
  function WithByteSet(w: Word, b: nat): (r: Word)
    requires b < 4
    ensures forall j: nat :: Bit(r, j) == (8 * b <= j < 8 * b + 8 || Bit(w, j))
  {
    ByteMask(w, b);
    BitOr(w, 0xff * Pow2(8 * b))
  }

  lemma ByteMask(w: Word, b: nat)
    requires b < 4
    ensures BitOr(w, 0xff * Pow2(8 * b)) < 0x1_0000_0000
    ensures forall j: nat :: Bit(BitOr(w, 0xff * Pow2(8 * b)), j) == (8 * b <= j < 8 * b + 8 || Bit(w, j))
  {
    Pow2Values();
    assert Pow2(8) == 0x100 && Pow2(16) == 0x1_0000 && Pow2(24) == 0x100_0000;
    OrBelow(w, 0xff * Pow2(8 * b), 32);
    forall j: nat ensures Bit(BitOr(w, 0xff * Pow2(8 * b)), j) == (8 * b <= j < 8 * b + 8 || Bit(w, j)) {
      BitOfOr(w, 0xff * Pow2(8 * b), j);
      BitsOfShift(0xff, 8 * b, j);
      if j >= 8 * b { BitsOfOnes(8, j - 8 * b); }
    }
  }

  method SetBytes(b: FrameBitmap, n: nat)
    requires 8 * n <= 32 * b.words.Length
    modifies b.words
    ensures forall j: nat | j < 32 * b.words.Length ::
              BitSet(b.words[..], j) == (j < 8 * n || old(BitSet(b.words[..], j)))
  {
    for i := 0 to n
      invariant forall j: nat | j < 32 * b.words.Length ::
                  BitSet(b.words[..], j) == (j < 8 * i || old(BitSet(b.words[..], j)))
    {
      ghost var before := b.words[..];
      b.words[i / 4] := WithByteSet(b.words[i / 4], i % 4);
      ByteAdded(before, b.words[..], i);
    }
  }

  lemma ByteAdded(ws: seq<Word>, ws': seq<Word>, i: nat)
    requires i / 4 < |ws| && ws' == ws[i / 4 := WithByteSet(ws[i / 4], i % 4)]
    ensures forall j: nat | j < 32 * |ws| :: BitSet(ws', j) == (8 * i <= j < 8 * i + 8 || BitSet(ws, j))
  {
    forall j: nat | j < 32 * |ws|
      ensures BitSet(ws', j) == (8 * i <= j < 8 * i + 8 || BitSet(ws, j))
    {
      if j / 32 == i / 4 {
        assert Bit(ws'[i / 4], j % 32) == (8 * (i % 4) <= j % 32 < 8 * (i % 4) + 8 || Bit(ws[i / 4], j % 32));
      }
    }
  }

  // ----- init_pmm

  /** Free once the usable pages were swept: at or above 1 MiB and usable, or among the up to
      seven last frames that the byte-wise memset does not reach, and clear all along. */
  ghost predicate FreeAfterSweep(regions: seq<Region>, stale: seq<Word>, numBits: nat, f: nat)
    requires numBits <= 0x10_0000 && f < numBits <= 32 * |stale|
  {
    || (f >= FIRST_FREEABLE_PFN && Usable(regions, f * PAGE_SIZE))
    || (f >= numBits / 8 * 8 && !BitSet(stale, f))
  }

  /** The bitmap's own frames are marked used: all of them, and only if they end below the
      last frame and were all free. */
  ghost predicate Reserved(regions: seq<Region>, stale: seq<Word>, numBits: nat, first: nat, n: nat)
    requires numBits <= 0x10_0000 && numBits <= 32 * |stale|
  {
    first + n < numBits && forall f | f in Frames(first, n) :: FreeAfterSweep(regions, stale, numBits, f)
  }

  /** What init_pmm leaves used. */
  ghost predicate UsedAfterInit(regions: seq<Region>, stale: seq<Word>, numBits: nat, first: nat, n: nat, f: nat)
    requires numBits <= 0x10_0000 && f < numBits <= 32 * |stale|
  {
    || !FreeAfterSweep(regions, stale, numBits, f)
    || (Reserved(regions, stale, numBits, first, n) && f in Frames(first, n))
  }

  method InitPmm(b: FrameBitmap, memorySize: Word, bitmapPhys: Word, regions: seq<Region>)
    requires memorySize / PAGE_SIZE < 32 * b.words.Length
    requires exists i :: 0 <= i < |regions| && regions[i].length == 0
    modifies b, b.words
    ensures b.Valid() && b.numBits == memorySize / PAGE_SIZE
    ensures var first, n := bitmapPhys / PAGE_SIZE, NumPagesNeeded(b.numBits / 8);
            forall f | 0 <= f < b.numBits ::
              f in b.Used() <==> UsedAfterInit(regions, old(b.words[..]), b.numBits, first, n, f)
  {
    ghost var stale := b.words[..];
    b.numBits := memorySize / PAGE_SIZE;
    var byteSize := b.numBits / 8;
    SetBytes(b, byteSize);
    Sweep(b, regions, stale);
    ghost var swept := b.Used();
    var _ := b.AllocRequestedPageframe(bitmapPhys, byteSize);
    ghost var first, n := bitmapPhys / PAGE_SIZE, NumPagesNeeded(byteSize);
    if first + n < b.numBits {
      assert AllFree(swept, first, n) <==> Reserved(regions, stale, b.numBits, first, n) by {
        forall f | f in Frames(first, n)
          ensures f !in swept <==> FreeAfterSweep(regions, stale, b.numBits, f)
        {
        }
      }
    }
  }

  /** Free every usable page from 1 MiB on. */
  method Sweep(b: FrameBitmap, regions: seq<Region>, ghost stale: seq<Word>)
    requires b.Valid() && |stale| == b.words.Length
    requires exists i :: 0 <= i < |regions| && regions[i].length == 0
    requires forall j: nat | j < b.numBits ::
               BitSet(b.words[..], j) == (j < b.numBits / 8 * 8 || BitSet(stale, j))
    modifies b.words
    ensures forall f: nat | f < b.numBits ::
              f in b.Used() <==> !FreeAfterSweep(regions, stale, b.numBits, f)
  {
    var pfn := FIRST_FREEABLE_PFN;
    while pfn < b.numBits
      invariant FIRST_FREEABLE_PFN <= pfn
      invariant forall j: nat | j < b.numBits ::
                  BitSet(b.words[..], j)
                  == ((j < b.numBits / 8 * 8 || BitSet(stale, j))
                      && !(FIRST_FREEABLE_PFN <= j < pfn && Usable(regions, j * PAGE_SIZE)))
    {
      var usable := IsPageUsable(regions, pfn * PAGE_SIZE);
      if usable {
        var _ := b.FreePfn(pfn);
      }
      pfn := pfn + 1;
    }
  }

  /** With the bitmap in usable frames from 1 MiB on that end below the last frame, a frame is
      free iff it is not one of the bitmap's own, and is at or above 1 MiB and wholly inside a
      usable region; or, behind the last whole byte of bits, was free before by chance. */
  lemma InitPmmExact(regions: seq<Region>, stale: seq<Word>, numBits: nat, first: nat, n: nat, f: nat)
    requires numBits <= 0x10_0000 && f < numBits <= 32 * |stale|
    requires first + n < numBits && FIRST_FREEABLE_PFN <= first
    requires AllUsable(regions, first, n)
    ensures !UsedAfterInit(regions, stale, numBits, first, n, f)
            <==> && f !in Frames(first, n)
                 && ((f >= 0x100 && Usable(regions, f * PAGE_SIZE)) || (f >= numBits - numBits % 8 && !BitSet(stale, f)))
  {
  }

  const NUM_FRAMES := 0x10_0000

  /** The bitmap protects its own frames iff they end below the last frame and are all usable,
      or none of them is usable. If they are usable in part, or end with the last frame, those
      that are stay free for anyone to allocate. */
  lemma BitmapIsProtectedIff(regions: seq<Region>, stale: seq<Word>, numBits: nat, first: nat, n: nat)
    requires numBits <= NUM_FRAMES && numBits <= 32 * |stale| && numBits % 8 == 0
    requires FIRST_FREEABLE_PFN <= first && 0 < n && first + n <= numBits
    ensures (forall f | f in Frames(first, n) :: UsedAfterInit(regions, stale, numBits, first, n, f))
            <==> || (first + n < numBits && AllUsable(regions, first, n))
                 || forall f | f in Frames(first, n) :: f < NUM_FRAMES && !Usable(regions, f * PAGE_SIZE)
  {
    hide Usable;
    forall f | f in Frames(first, n)
      ensures FreeAfterSweep(regions, stale, numBits, f) <==> Usable(regions, f * PAGE_SIZE)
    {
    }
    assert Reserved(regions, stale, numBits, first, n) <==> first + n < numBits && AllUsable(regions, first, n);
  }

  ghost predicate AllUsable(regions: seq<Region>, first: nat, n: nat) {
    forall f | f in Frames(first, n) :: f < NUM_FRAMES && Usable(regions, f * PAGE_SIZE)
  }
}
