/** kmalloc and kfree over the bytes of memory, proved against the heap as a sequence of
    ranges and blocks. The written lines that this departs from are in KheapAsWritten. */
module Kheap {
  import opened Wrappers

  import opened CString
  import opened KheapBlocks
  import opened HeapRuns
  import opened HeapMemory

  class HeapRange {
    var start: nat
    var end: nat
    var firstFreeTag: nat

    constructor (start: nat, end: nat, tag: nat)
      ensures this.start == start && this.end == end && firstFreeTag == tag
    {
      this.start, this.end, firstFreeTag := start, end, tag;
    }
  }

  /** Changes outside the other ranges leave their tags alone. */
  lemma OthersStay(m: seq<Byte>, m': seq<Byte>, es: seq<Extent>, i: nat, lo: nat, hi: nat)
    requires OnlyWithin(m, m', lo, hi)
    requires forall j | 0 <= j < |es| && j != i ::
               && ExtentOk(es[j]) && (es[j].end <= lo || hi <= es[j].start)
               && Tagged(m, es[j].blocks)
    ensures forall j | 0 <= j < |es| && j != i :: Tagged(m', es[j].blocks)
  {
    hide Layout, Tagged, OnlyWithin;
    forall j | 0 <= j < |es| && j != i ensures Tagged(m', es[j].blocks) {
      TagsStay(m, m', es[j].blocks, es[j].start, es[j].end, lo, hi);
    }
  }

  lemma RangesStay(m: seq<Byte>, m': seq<Byte>, es: seq<Extent>, lo: nat, hi: nat)
    requires OnlyWithin(m, m', lo, hi) && HeapOk(es) && Outside(es, lo, hi)
    requires forall j | 0 <= j < |es| :: Tagged(m, es[j].blocks)
    ensures forall j | 0 <= j < |es| :: Tagged(m', es[j].blocks)
  {
    hide Tagged, OnlyWithin, ExtentOk;
    OthersStay(m, m', es, |es|, lo, hi);
  }

  lemma NewRangeIs(start: nat, end: nat)
    requires start + RANGE_SIZE + 2 * TAG_SIZE < end < LIMIT
    ensures var e := NewRange(start, end);
            && ExtentOk(e) && e.start == start && e.end == end
            && e.blocks == Carved(start, RANGE_SIZE, end - start - TAG_SIZE)
            && FreeTag(e.blocks, 0) == start + TAG_SIZE + RANGE_SIZE
  {
    NewRangeOk(start, end);
  }

  lemma AppendOk(es: seq<Extent>, e: Extent)
    requires HeapOk(es) && ExtentOk(e) && Outside(es, e.start, e.end)
    ensures HeapOk(es + [e])
  {
    hide ExtentOk;
  }

  /** Rewriting the stretch of blocks a..b-1 of range i as `mid` leaves memory tagged. */
  lemma Rewritten(m: seq<Byte>, m': seq<Byte>, es: seq<Extent>, i: nat, a: nat, b: nat, mid: seq<Block>)
    requires HeapOk(es) && i < |es| && a <= b <= |es[i].blocks|
    requires forall j | 0 <= j < |es| :: Tagged(m, es[j].blocks)
    requires OnlyWithin(m, m', Boundary(es[i].blocks, a, es[i].end), Boundary(es[i].blocks, b, es[i].end))
    requires Tagged(m', mid)
    ensures Tagged(m', es[i].blocks[..a] + mid + es[i].blocks[b..])
    ensures forall j | 0 <= j < |es| && j != i :: Tagged(m', es[j].blocks)
  {
    hide Layout, Tagged, OnlyWithin;
    var e := es[i];
    var lo, hi := Boundary(e.blocks, a, e.end), Boundary(e.blocks, b, e.end);
    LayoutBounds(e.blocks, e.start, e.end);
    TagsReplaced(m, m', e.blocks, e.start, e.end, a, b, mid);
    forall j | 0 <= j < |es| && j != i ensures es[j].end <= lo || hi <= es[j].start {
      assert i < j || j < i;
    }
    OthersStay(m, m', es, i, lo, hi);
  }

  lemma GrownStays(m: seq<Byte>, m': seq<Byte>, es: seq<Extent>, i: nat, n: nat)
    requires HeapOk(es) && i < |es| && OnlyWithin(m, m', es[i].end, es[i].end + GROWTH)
    requires es[i].end + GROWTH < LIMIT && Outside(es, es[i].end, es[i].end + GROWTH)
    requires forall j | 0 <= j < |es| :: Tagged(m, es[j].blocks)
    requires Tagged(m', Carved(es[i].end, n, GROWTH - TAG_SIZE))
    ensures HeapOk(es[i := Extended(es[i], n)])
    ensures Tagged(m', Extended(es[i], n).blocks)
    ensures forall j | 0 <= j < |es| && j != i :: Tagged(m', es[j].blocks)
  {
    hide Layout, OnlyWithin, SizeAt, UsedAt;
    OthersStay(m, m', es, |es|, es[i].end, es[i].end + GROWTH);
    ExtendedOk(es[i], n);
    ReplaceOk(es, i, Extended(es[i], n));
  }

  lemma FirstFreeTagIs(e: Extent, k: nat)
    requires ExtentOk(e) && k < |e.blocks| && !e.blocks[k].used
    ensures e.blocks[k].addr == FreeTag(e.blocks, 0) <==> FirstFree(e.blocks, 0) == Some(k)
  {
    hide Layout;
    LayoutBounds(e.blocks, e.start, e.end);
    var j := FirstFree(e.blocks, 0).value;
    assert j < k ==> e.blocks[j].End() <= e.blocks[k].addr;
  }

  class Heap {
    const mem: array<Byte>
    var ranges: seq<HeapRange>
    ghost var extents: seq<Extent>

    /** Ranges and memory show the extents: the bounds agree and the tags are in place. */
    ghost predicate Shape()
      reads this, ranges, mem
    {
      && mem.Length == LIMIT && |ranges| == |extents|
      && (forall i, j | 0 <= i < j < |ranges| :: ranges[i] != ranges[j])
      && (forall i | 0 <= i < |ranges| :: ranges[i].start == extents[i].start && ranges[i].end == extents[i].end)
      && forall i | 0 <= i < |ranges| :: Tagged(mem[..], extents[i].blocks)
    }

    /** Every first_free_tag, except perhaps that of range i, is the lowest free tag of its
        range or NULL. */
    ghost predicate FreeTagsBut(i: nat)
      reads this, ranges
    {
      && |ranges| == |extents|
      && forall j | 0 <= j < |ranges| && j != i :: ranges[j].firstFreeTag == FreeTag(extents[j].blocks, 0)
    }

    ghost predicate Valid()
      reads this, ranges, mem
    {
      Shape() && HeapOk(extents) && FreeTagsBut(|ranges|)
    }

    /** init_kheap: the first range, at a fixed size. */
    constructor (mem: array<Byte>, start: nat)
      requires mem.Length == LIMIT && start + HEAP_SIZE < LIMIT
      modifies mem
      ensures Valid() && fresh(ranges) && this.mem == mem
      ensures extents == [NewRange(start, start + HEAP_SIZE)]
    {
      this.mem := mem;
      ranges, extents := [], [];
      new;
      NewHeapRange(start, start + HEAP_SIZE);
    }

    /** Carve the descriptor's block out of an unused stretch and append the range. */
    method NewHeapRange(start: nat, end: nat)
      requires Valid() && start + RANGE_SIZE + 2 * TAG_SIZE < end < LIMIT && Outside(extents, start, end)
      modifies this, mem
      ensures Valid() && |ranges| == old(|ranges|) + 1 && ranges[..old(|ranges|)] == old(ranges)
      ensures fresh(ranges[old(|ranges|)])
      ensures extents == old(extents) + [NewRange(start, end)]
    {
      hide Tagged, OnlyWithin, SizeAt, UsedAt, HeapOk, Outside, NewRange;
      InitHeapAllocEntry(mem, start, RANGE_SIZE, end - start - TAG_SIZE);
      RangesStay(old(mem[..]), mem[..], extents, start, end);
      var r := new HeapRange(start, end, start + TAG_SIZE + RANGE_SIZE);
      NewRangeIs(start, end);
      AppendOk(extents, NewRange(start, end));
      ranges := ranges + [r];
      extents := extents + [NewRange(start, end)];
    }

    /** Point first_free_tag at the lowest free tag again, searching from block k on. */
    method Refresh(i: nat, tag: nat, ghost k: nat)
      requires Shape() && HeapOk(extents) && FreeTagsBut(i) && i < |ranges|
      requires k <= |extents[i].blocks| && tag == Boundary(extents[i].blocks, k, extents[i].end)
      requires FreeTag(extents[i].blocks, k) == FreeTag(extents[i].blocks, 0)
      modifies ranges[i]
      ensures Valid()
    {
      hide Tagged, Layout, FreeTag, FirstFree;
      var range := ranges[i];
      range.firstFreeTag := GotoFirstFreeTag(mem, range.end, tag, extents[i].blocks, range.start, k);
    }

    /** Carve a request out of free block k of range i. */
    method PlaceEntry(i: nat, ghost k: nat, tag: nat, n: nat, size: nat)
      requires Shape() && HeapOk(extents) && FreeTagsBut(|ranges|) && i < |ranges| && n + TAG_SIZE < LIMIT
      requires k < |extents[i].blocks| && extents[i].blocks[k] == Block(tag, size, false)
      modifies mem, this`extents
      ensures Shape() && HeapOk(extents) && FreeTagsBut(i)
      ensures extents == old(extents)[i := Taken(old(extents)[i], k, n)]
      ensures TagIs(mem[..], Block(tag, TakenSize(n, size), true))
    {
      hide Tagged, OnlyWithin, Layout, Carved, SizeAt, UsedAt;
      ghost var e := extents[i];
      LayoutBounds(e.blocks, e.start, e.end);
      LayoutNext(e.blocks, e.start, e.end, k);
      InitHeapAllocEntry(mem, tag, n, size);
      Rewritten(old(mem[..]), mem[..], extents, i, k, k + 1, Carved(tag, n, size));
      TakenOk(e, k, n);
      ReplaceOk(extents, i, Taken(e, k, n));
      extents := extents[i := Taken(e, k, n)];
    }

    /** Take the block that was found; first_free_tag moves on if it pointed there. */
    method TakeEntry(i: nat, ghost k: nat, tag: nat, n: nat, size: nat)
      requires Valid() && i < |ranges| && n + TAG_SIZE < LIMIT
      requires k < |extents[i].blocks| && extents[i].blocks[k] == Block(tag, size, false)
      modifies ranges[i], mem, this`extents
      ensures Valid() && extents == old(extents)[i := Taken(old(extents)[i], k, n)]
    {
      hide Tagged, Layout, Take, OnlyWithin, SizeAt, UsedAt, FreeTag, FirstFree, Apart;
      var range := ranges[i];
      ghost var bs := extents[i].blocks;
      PlaceEntry(i, k, tag, n, size);
      ghost var e := extents[i];
      TakeAt(bs, k, n);
      FirstFreeOfTake(bs, k, n);
      FirstFreeTagIs(old(extents)[i], k);
      if tag == range.firstFreeTag {
        LayoutNext(e.blocks, e.start, e.end, k);
        var taken := ReadSize(mem, tag);
        Refresh(i, tag + taken + TAG_SIZE, k + 1);
      }
    }

    method FindFirstFit(n: nat) returns (r: Option<nat>)
      requires Valid() && n + TAG_SIZE < LIMIT
      modifies ranges, mem, this`extents
      ensures Valid()
      ensures match FirstRange(old(extents), n, 0)
              case None => r == None && extents == old(extents) && mem[..] == old(mem[..])
              case Some(i) =>
                var e := old(extents)[i];
                var k := FirstFit(e.blocks, n, 0).value;
                r == Some(e.blocks[k].addr) && extents == old(extents)[i := Taken(e, k, n)]
    {
      hide Valid, Taken;
      var i := 0;
      HasExtents();
      while i < |ranges|
        invariant i <= |ranges| == |extents| && Valid() && extents == old(extents) && mem[..] == old(mem[..])
        invariant FirstRange(extents, n, i) == FirstRange(extents, n, 0)
      {
        var tag := TryRange(i, n);
        if tag != 0 {
          return Some(tag);
        }
        i := i + 1;
      }
      r := None;
    }

    lemma HasExtents()
      requires Valid()
      ensures |ranges| == |extents|
    {
    }

    /** Search range i, and take the block that fits. */
    method TryRange(i: nat, n: nat) returns (tag: nat)
      requires Valid() && i < |ranges| && n + TAG_SIZE < LIMIT
      modifies ranges[i], mem, this`extents
      ensures Valid() && |old(extents)| == |ranges|
      ensures match FirstFit(old(extents)[i].blocks, n, 0)
              case None => tag == 0 && extents == old(extents) && mem[..] == old(mem[..])
              case Some(k) =>
                tag == old(extents)[i].blocks[k].addr && tag != 0
                && extents == old(extents)[i := Taken(old(extents)[i], k, n)]
    {
      hide Layout, Tagged, Take;
      var range := ranges[i];
      var size;
      tag, size := FitFrom(mem, range.end, range.firstFreeTag, n, extents[i].blocks, range.start);
      if tag != 0 {
        TakeEntry(i, FirstFit(extents[i].blocks, n, 0).value, tag, n, size);
      }
    }

    /** Let range i grow at its end and place the request there. */
    method GrowRange(i: nat, n: nat) returns (tag: nat)
      requires Valid() && i < |ranges| && n + TAG_SIZE < LIMIT
      requires extents[i].end + GROWTH < LIMIT && Outside(extents, extents[i].end, extents[i].end + GROWTH)
      modifies ranges[i], mem, this`extents
      ensures Valid() && tag == old(extents)[i].end
      ensures extents == old(extents)[i := Extended(old(extents)[i], n)]
    {
      hide Tagged, OnlyWithin, Layout, SizeAt, UsedAt;
      var range := ranges[i];
      ghost var e := extents[i];
      tag := range.end;
      range.end := range.end + GROWTH;
      InitHeapAllocEntry(mem, tag, n, GROWTH - TAG_SIZE);
      GrownStays(old(mem[..]), mem[..], extents, i, n);
      extents := extents[i := Extended(e, n)];
      LayoutBounds(extents[i].blocks, extents[i].start, extents[i].end);
      Refresh(i, range.start, 0);
    }

    /** A range of its own for the request. */
    method GrowFresh(n: nat, spot: nat) returns (tag: nat)
      requires Valid() && n + TAG_SIZE < LIMIT
      requires spot + GROWTH < LIMIT && Outside(extents, spot, spot + GROWTH)
      modifies this, mem
      ensures Valid() && tag == spot + TAG_SIZE + RANGE_SIZE
      ensures |ranges| == old(|ranges|) + 1 && ranges[..old(|ranges|)] == old(ranges)
      ensures fresh(ranges[old(|ranges|)])
      ensures extents == old(extents) + [Taken(NewRange(spot, spot + GROWTH), 1, n)]
    {
      hide OnlyWithin, Layout, ExtentOk, SizeAt, UsedAt;
      NewHeapRange(spot, spot + GROWTH);
      var i := |ranges| - 1;
      tag := ranges[i].firstFreeTag;
      assert TagIs(mem[..], extents[i].blocks[1]);
      var size := ReadSize(mem, tag);
      TakeEntry(i, 1, tag, n, size);
    }

    method GetMoreMem(n: nat, answers: seq<bool>, spot: nat) returns (tag: nat)
      requires Valid() && n + TAG_SIZE < LIMIT && RepliesOk(extents, n, answers, spot)
      requires FirstRange(extents, n, 0).None?
      modifies this, ranges, mem
      ensures Valid() && (extents, tag) == Allocate(old(extents), n, answers, spot)
    {
      hide Layout, Tagged, Take, ExtentOk, Extended;
      var i := 0;
      while i < |ranges|
        invariant i <= |ranges| && Valid() && extents == old(extents) && ranges == old(ranges)
        invariant FirstTrue(answers, i) == FirstTrue(answers, 0)
      {
        if answers[i] {
          tag := GrowRange(i, n);
          return;
        }
        i := i + 1;
      }
      tag := GrowFresh(n, spot);
    }

    /** The address behind the tag of the block that the request is answered with. */
    method Kmalloc(n: nat, answers: seq<bool>, spot: nat) returns (addr: nat)
      requires Valid() && n + TAG_SIZE < LIMIT && RepliesOk(extents, n, answers, spot)
      modifies this, ranges, mem
      ensures Valid() && extents == Allocate(old(extents), n, answers, spot).0
      ensures addr == Granted(old(extents), n, answers, spot).Payload()
    {
      hide Layout, Tagged, Take, ExtentOk, Extended;
      var r := FindFirstFit(n);
      match r
      case Some(tag) => addr := tag + TAG_SIZE;
      case None =>
        var tag := GetMoreMem(n, answers, spot);
        addr := tag + TAG_SIZE;
    }

    /** Mark block k of range i free and merge it with a free block behind it. */
    method ReleaseEntry(i: nat, ghost k: nat, tag: nat)
      requires Valid() && i < |ranges| && 0 < k < |extents[i].blocks| && extents[i].blocks[k].addr == tag
      modifies mem, this`extents
      ensures Shape() && HeapOk(extents) && FreeTagsBut(i)
      ensures extents == old(extents)[i := Released(old(extents)[i], k)]
    {
      hide Layout, OnlyWithin, SizeAt, UsedAt, Merged, MergeEnd;
      var range := ranges[i];
      ghost var e := extents[i];
      ReleaseTag(mem, range.end, tag, e.blocks, range.start, k);
      Rewritten(old(mem[..]), mem[..], extents, i, k, MergeEnd(e.blocks, k), [Merged(e.blocks, k)]);
      ReleasedOk(e, k);
      ReplaceOk(extents, i, Released(e, k));
      extents := extents[i := Released(e, k)];
    }

    /** Addresses in no range are ignored. */
    method Kfree(addr: nat)
      requires Valid() && Freeable(extents, addr)
      modifies ranges, mem, this`extents
      ensures Valid() && extents == Freed(old(extents), addr)
    {
      hide Layout, Tagged;
      var i := 0;
      while i < |ranges| && !(ranges[i].start <= addr < ranges[i].end)
        invariant i <= |ranges| && Owner(extents, addr, i) == Owner(extents, addr, 0)
      {
        i := i + 1;
      }
      if i < |ranges| {
        ReleaseEntry(i, BlockOf(extents[i].blocks, addr, 1).value, addr - TAG_SIZE);
        Refresh(i, ranges[i].start, 0);
      }
    }

    /** A client writes into its block, which is not a range's descriptor: the heap is the
        same. */
    method Store(p: nat, v: Byte, ghost i: nat, ghost k: nat)
      requires Valid() && i < |extents| && 0 < k < |extents[i].blocks|
      requires extents[i].blocks[k].Payload() <= p < extents[i].blocks[k].End()
      modifies mem
      ensures Valid() && p < |old(mem[..])| && mem[..] == old(mem[..])[p := v]
    {
      hide Layout, Tagged;
      ghost var e := extents[i];
      LayoutBounds(e.blocks, e.start, e.end);
      mem[p] := v;
      PayloadIsApart(old(mem[..]), mem[..], e.blocks, e.start, e.end, k);
      forall j | 0 <= j < |extents| && j != i ensures extents[j].end <= p || p + 1 <= extents[j].start {
        assert i < j || j < i;
      }
      OthersStay(old(mem[..]), mem[..], extents, i, p, p + 1);
    }
  }
}
