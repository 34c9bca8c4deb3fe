/** The physical memory manager: one bit per page frame, packed into 32-bit words.
    The bitmap refines a set of used frames, and allocation is a deterministic search
    over that set. */
module Pmm {
  import opened Words
  import opened Wrappers
  import opened PagingFormat

  const NUM_BITS_IN_ONE_BITMAP := 32

  // ----- the bitmap as a set

  predicate BitSet(ws: seq<Word>, i: nat)
    requires i < 32 * |ws|
  {
    Bit(ws[i / 32], i % 32)
  }

  /** The used frames among 0..n, the bit just past the last frame included: the search
      for free frames inspects it. */
  function UsedSet(ws: seq<Word>, n: nat): set<nat>
    requires n < 32 * |ws|
  {
    set i: nat | i <= n && BitSet(ws, i)
  }

  /** The n frames from `first` on. */
  function Frames(first: nat, n: nat): (fs: set<nat>)
    ensures forall k: nat :: k in fs <==> first <= k < first + n
  {
    if n == 0 then {} else Frames(first, n - 1) + {first + n - 1}
  }

  /** The bitmap after `*parent |= (1 << bit)`. */
  function WithBit(ws: seq<Word>, i: nat): (ws': seq<Word>)
    requires i < 32 * |ws|
    ensures |ws'| == |ws|
  {
    SetMask(ws[i / 32], i % 32);
    ws[i / 32 := BitOr(ws[i / 32], Pow2(i % 32))]
  }

  /** The bitmap after `*parent &= ~(1 << bit)`. */
  function WithoutBit(ws: seq<Word>, i: nat): (ws': seq<Word>)
    requires i < 32 * |ws|
    ensures |ws'| == |ws|
  {
    ClearMask(ws[i / 32], i % 32);
    ws[i / 32 := BitAnd(ws[i / 32], BitNot(Pow2(i % 32)))]
  }

  lemma WithBitAddsOne(ws: seq<Word>, i: nat)
    requires i < 32 * |ws|
    ensures forall j: nat | j < 32 * |ws| :: BitSet(WithBit(ws, i), j) == (j == i || BitSet(ws, j))
  {
    SetMask(ws[i / 32], i % 32);
    forall j: nat | j < 32 * |ws| ensures BitSet(WithBit(ws, i), j) == (j == i || BitSet(ws, j)) {
      if j / 32 == i / 32 {
        assert j == i <==> j % 32 == i % 32;
      }
    }
  }

  lemma WithoutBitRemovesOne(ws: seq<Word>, i: nat)
    requires i < 32 * |ws|
    ensures forall j: nat | j < 32 * |ws| ::
              BitSet(WithoutBit(ws, i), j) == (j != i && BitSet(ws, j))
  {
    ClearMask(ws[i / 32], i % 32);
    forall j: nat | j < 32 * |ws|
      ensures BitSet(WithoutBit(ws, i), j) == (j != i && BitSet(ws, j))
    {
      if j / 32 == i / 32 {
        assert j == i <==> j % 32 == i % 32;
      }
    }
  }

  // ----- first fit over a set

  /** The run the search accepts at i: it wants bits i..i+n clear, one more than the n
      frames it hands out, while only i+n <= total is checked against the end. */
  ghost predicate RunAt(used: set<nat>, total: nat, n: nat, i: nat) {
    i < total && i + n <= total && forall k: nat | i <= k <= i + n :: k !in used
  }

  ghost function SearchFrom(used: set<nat>, total: nat, n: nat, i: nat): (r: Option<nat>)
    ensures r.Some? ==> i <= r.value && RunAt(used, total, n, r.value)
    ensures r.Some? ==> forall j | i <= j < r.value :: !RunAt(used, total, n, j)
    ensures r.None? ==> n == 0 || forall j | i <= j :: !RunAt(used, total, n, j)
    decreases total - i
  {
    if i >= total then None
    else if i in used then SearchFrom(used, total, n, i + 1)
    else if i + n > total || i + n == 0 then None
    else if forall k: nat | i < k <= i + n :: k !in used then Some(i)
    else SearchFrom(used, total, n, i + 1)
  }

  /** The frame the allocator picks for n frames. */
  ghost function FirstFit(used: set<nat>, total: nat, n: nat): Option<nat> {
    SearchFrom(used, total, n, 0)
  }

  /** What is found is free, and lies below the end. */
  lemma FirstFitIsFree(used: set<nat>, total: nat, n: nat)
    requires FirstFit(used, total, n).Some?
    ensures var i := FirstFit(used, total, n).value;
            i < total && i + n <= total && i !in used && forall f | f in Frames(i, n) :: f !in used
  {
  }

  /** The search returns exactly the lowest place it accepts. */
  lemma FirstFitIsLeast(used: set<nat>, total: nat, n: nat, i: nat)
    requires n >= 1
    ensures FirstFit(used, total, n) == Some(i)
            <==> RunAt(used, total, n, i) && forall j: nat | j < i :: !RunAt(used, total, n, j)
  {
    var r := FirstFit(used, total, n);
    assert r.Some? && r.value < i ==> RunAt(used, total, n, r.value);
  }

  /** A search for no frames returns the lowest free one, unless that is frame 0: then the last bit
      computed is below it, which wraps round, and the search gives up. */
  lemma FirstFitOfNone(used: set<nat>, total: nat, i: nat)
    ensures FirstFit(used, total, 0) == Some(i)
            <==> 0 < i < total && i !in used && forall j: nat | j < i :: j in used
  {
    var r := FirstFit(used, total, 0);
    if r.None? {
      if 0 in used { NoneFree(used, total, 0); }
    } else {
      forall j: nat | j < r.value ensures j in used {
        assert !RunAt(used, total, 0, j);
      }
      assert RunAt(used, total, 0, r.value) && r.value !in used;
    }
  }

  lemma {:induction false} NoneFree(used: set<nat>, total: nat, from: nat)
    requires SearchFrom(used, total, 0, from).None? && (from > 0 || 0 in used)
    ensures forall j: nat | from <= j < total :: j in used
    decreases total - from
  {
    if from < total { NoneFree(used, total, from + 1); }
  }

  /** Failure for n >= 1 frames means that every hole is at most n frames long, where a
      hole that reaches the end counts the bit past the end. A hole of exactly n frames is
      therefore passed over: the search needs a hole one longer. */
  lemma FirstFitFailsIff(used: set<nat>, total: nat, n: nat)
    requires n >= 1
    ensures FirstFit(used, total, n).None? <==> forall i: nat | i + n <= total :: Blocked(used, n, i)
  {
    if FirstFit(used, total, n).None? {
      forall i: nat | i + n <= total ensures Blocked(used, n, i) {
        assert !RunAt(used, total, n, i);
      }
    } else {
      assert !Blocked(used, n, FirstFit(used, total, n).value);
    }
  }

  /** Some bit among the n+1 from i on is set. */
  ghost predicate Blocked(used: set<nat>, n: nat, i: nat) {
    exists k: nat :: i <= k <= i + n && k in used
  }

  /** A textbook first fit would accept a run of exactly n free frames. The two agree iff
      the lowest such run is also followed by a clear bit. */
  ghost predicate FreeFrames(used: set<nat>, total: nat, n: nat, i: nat) {
    i + n <= total && forall k: nat | i <= k < i + n :: k !in used
  }

  lemma FirstFitIsTextbookIff(used: set<nat>, total: nat, n: nat, i: nat)
    requires n >= 1
    requires FreeFrames(used, total, n, i) && forall j: nat | j < i :: !FreeFrames(used, total, n, j)
    ensures FirstFit(used, total, n) == Some(i) <==> i + n !in used
  {
    if i + n !in used {
      assert RunAt(used, total, n, i);
      var r := FirstFit(used, total, n);
      assert r.Some?;
      assert FreeFrames(used, total, n, r.value);
    }
  }

  /** One free frame below a used one is never handed out. */
  lemma LoneFrameIsSkipped(used: set<nat>, total: nat, f: nat)
    requires f < total && f !in used && f + 1 in used
    requires forall g: nat | g < total && g != f :: g in used
    ensures FirstFit(used, total, 1).None?
  {
    forall i: nat | i + 1 <= total ensures Blocked(used, 1, i) {
      assert if i == f then i + 1 in used else i in used;
    }
    FirstFitFailsIff(used, total, 1);
  }

  ghost predicate AllFree(used: set<nat>, first: nat, n: nat) {
    forall f | f in Frames(first, n) :: f !in used
  }

  // ----- the allocator

  class FrameBitmap {
    // The words from `alloc_bitmap` on, the word that holds the bit past the last frame
    // included.
    const words: array<Word>
    // bitmap_num_bits
    var numBits: nat

    ghost predicate Valid()
      reads this
    {
      numBits < 32 * words.Length && numBits <= 0x10_0000
    }

    ghost function Used(): set<nat>
      requires Valid()
      reads this, words
    {
      UsedSet(words[..], numBits)
    }

    constructor (ws: array<Word>, n: nat)
      requires n < 32 * ws.Length && n <= 0x10_0000
      ensures Valid() && words == ws && numBits == n
    {
      words := ws;
      numBits := n;
    }

    method TestBit(i: nat) returns (b: bool)
      requires i < 32 * words.Length
      ensures b == BitSet(words[..], i)
    {
      var parent := words[i / NUM_BITS_IN_ONE_BITMAP];
      TestMask(parent, i % 32);
      b := BitAnd(parent, Pow2(i % NUM_BITS_IN_ONE_BITMAP)) != 0;
    }

    /** The inner loop of the search: bits bit+1..bit+n, the last one included. */
    method RestIsFree(bit: nat, n: nat) returns (free: bool)
      requires Valid() && bit + n <= numBits
      ensures free == forall j: nat | bit < j <= bit + n :: j !in Used()
    {
      ghost var used := Used();
      var k := bit + 1;
      while k <= bit + n
        invariant bit < k <= bit + n + 1
        invariant forall j: nat | bit < j < k :: j !in used
      {
        var isAllocated := TestBit(k);
        if isAllocated {
          assert k in Used() && bit < k <= bit + n;
          return false;
        }
        k := k + 1;
      }
      return true;
    }

    method FindFirstAvailPfn(n: nat) returns (r: Option<nat>)
      requires Valid() && n <= 0xF_FFFF
      ensures r == FirstFit(Used(), numBits, n)
    {
      ghost var used := Used();
      for bit := 0 to numBits
        invariant FirstFit(used, numBits, n) == SearchFrom(used, numBits, n, bit)
      {
        var isAllocated := TestBit(bit);
        assert isAllocated == (bit in used);
        if !isAllocated {
          var last := Wrap(bit + n - 1);
          if !(last < numBits) {
            return None;
          }
          var free := RestIsFree(bit, n);
          if free {
            return Some(bit);
          }
        }
      }
      return None;
    }

    method AllocPfn(pfn: nat) returns (ok: bool)
      requires pfn < 32 * words.Length
      modifies words
      ensures ok == !old(BitSet(words[..], pfn))
      ensures forall j: nat | j < 32 * words.Length ::
                BitSet(words[..], j) == (j == pfn || old(BitSet(words[..], j)))
    {
      var w := pfn / NUM_BITS_IN_ONE_BITMAP;
      var bit := pfn % NUM_BITS_IN_ONE_BITMAP;
      TestMask(words[w], bit);
      if BitAnd(words[w], Pow2(bit)) != 0 {
        return false;
      }
      ghost var before := words[..];
      SetMask(words[w], bit);
      words[w] := BitOr(words[w], Pow2(bit));
      assert words[..] == WithBit(before, pfn);
      WithBitAddsOne(before, pfn);
      return true;
    }

    method FreePfn(pfn: nat) returns (ok: bool)
      requires pfn < 32 * words.Length
      modifies words
      ensures ok == old(BitSet(words[..], pfn))
      ensures forall j: nat | j < 32 * words.Length ::
                BitSet(words[..], j) == (j != pfn && old(BitSet(words[..], j)))
    {
      var w := pfn / NUM_BITS_IN_ONE_BITMAP;
      var bit := pfn % NUM_BITS_IN_ONE_BITMAP;
      TestMask(words[w], bit);
      if !(BitAnd(words[w], Pow2(bit)) != 0) {
        return false;
      }
      ghost var before := words[..];
      ClearMask(words[w], bit);
      words[w] := BitAnd(words[w], BitNot(Pow2(bit)));
      assert words[..] == WithoutBit(before, pfn);
      WithoutBitRemovesOne(before, pfn);
      return true;
    }

    /** Either a run is found and exactly its frames, all free before, become used, or
        nothing changes. Address 0 doubles as NULL. */
    method AllocPageframe(size: Word) returns (address: Word)
      requires Valid()
      modifies words
      ensures Valid()
      ensures match FirstFit(old(Used()), numBits, NumPagesNeeded(size))
              case None => address == 0 && Used() == old(Used())
              case Some(i) => address == i * PAGE_SIZE
                              && Used() == old(Used()) + Frames(i, NumPagesNeeded(size))
                              && AllFree(old(Used()), i, NumPagesNeeded(size))
    {
      var n := NumPagesNeeded(size);
      var first := FindFirstAvailPfn(n);
      if first.None? {
        return 0;
      }
      ghost var used := Used();
      for pfn := 0 to n
        invariant Valid()
        invariant Used() == used + Frames(first.value, pfn)
      {
        assert first.value + pfn !in Used();
        var ok := AllocPfn(first.value + pfn);
        if !ok {
          assert false;
        }
      }
      address := first.value * PAGE_SIZE;
    }

    /** All of the requested frames or none. The bound is strict, so a request that ends
        at the last frame is refused. */
    method AllocRequestedPageframe(address: Word, size: Word) returns (r: Word)
      requires Valid()
      modifies words
      ensures Valid()
      ensures var first, n := address / PAGE_SIZE, NumPagesNeeded(size);
              if first + n < numBits && AllFree(old(Used()), first, n)
              then r == address && Used() == old(Used()) + Frames(first, n)
              else r == 0 && Used() == old(Used())
    {
      var first := address / PAGE_SIZE;
      var n := NumPagesNeeded(size);
      if !(first + n < numBits) {
        return 0;
      }
      for pfn := first to first + n
        invariant Used() == old(Used())
        invariant forall j: nat | first <= j < pfn :: j !in Used()
      {
        var isAllocated := TestBit(pfn);
        if isAllocated {
          assert pfn in Frames(first, n) && pfn in Used();
          return 0;
        }
      }
      ghost var used := Used();
      for pfn := first to first + n
        invariant Valid()
        invariant Used() == used + Frames(first, pfn - first)
      {
        var _ := AllocPfn(pfn);
      }
      return address;
    }

    method FreePageframe(address: Word) returns (ok: bool)
      requires Valid() && address / PAGE_SIZE <= numBits
      modifies words
      ensures Valid()
      ensures ok == (address / PAGE_SIZE in old(Used()))
      ensures Used() == old(Used()) - {address / PAGE_SIZE}
    {
      ok := FreePfn(address / PAGE_SIZE);
    }
  }
}
