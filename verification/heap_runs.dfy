/** The kernel heap over all its ranges: which block an allocation takes, how the heap grows,
    and what every run of allocations and frees keeps. */
module HeapRuns {
  import opened Wrappers
  import opened KheapBlocks
  import opened PagingFormat

  const LIMIT := 0x1_0000_0000
  const HEAP_SIZE := 20 * PAGE_SIZE
  /** sizeof(heap_range_t); the first block of a range holds its descriptor. */
  const RANGE_SIZE := 16
  const GROWTH := 2 * PAGE_SIZE

  datatype Extent = Extent(start: nat, end: nat, blocks: seq<Block>)

  /** The chain partitions the range, begins with the range's descriptor and ends with a block
      that is not empty: so every payload address lies inside the range. */
  ghost predicate ExtentOk(e: Extent) {
    && Layout(e.blocks, e.start, e.end) && e.end < LIMIT
    && e.blocks != [] && e.blocks[0] == Block(e.start, RANGE_SIZE, true)
    && e.blocks[|e.blocks| - 1].size > 0
  }

  ghost predicate Outside(es: seq<Extent>, lo: nat, hi: nat) {
    forall i | 0 <= i < |es| :: es[i].end <= lo || hi <= es[i].start
  }

  ghost predicate Apart(es: seq<Extent>) {
    forall i, j | 0 <= i < j < |es| :: es[i].end <= es[j].start || es[j].end <= es[i].start
  }

  ghost predicate HeapOk(es: seq<Extent>) {
    Apart(es) && forall i | 0 <= i < |es| :: ExtentOk(es[i])
  }

  ghost predicate IsLive(es: seq<Extent>, b: Block) {
    exists i | 0 <= i < |es| :: b in Live(es[i].blocks)
  }

  // ----- one range

  function Taken(e: Extent, k: nat, n: nat): Extent
    requires k < |e.blocks|
  {
    e.(blocks := Take(e.blocks, k, n))
  }

  function Released(e: Extent, k: nat): Extent
    requires k < |e.blocks|
  {
    e.(blocks := Release(e.blocks, k))
  }

  /** A range that the area manager made larger, with the request at the start of the gain. */
  function Extended(e: Extent, n: nat): Extent {
    Extent(e.start, e.end + GROWTH, e.blocks + Carved(e.end, n, GROWTH - TAG_SIZE))
  }

  function NewRange(start: nat, end: nat): Extent
    requires start + TAG_SIZE <= end
  {
    Extent(start, end, Carved(start, RANGE_SIZE, end - start - TAG_SIZE))
  }

  lemma TakenOk(e: Extent, k: nat, n: nat)
    requires ExtentOk(e) && k < |e.blocks| && !e.blocks[k].used
    ensures ExtentOk(Taken(e, k, n))
  {
    TakeKeepsLayout(e.blocks, e.start, e.end, k, n);
    assert k > 0;
    var r := Take(e.blocks, k, n);
    assert k + 1 < |e.blocks| ==> r[|r| - 1] == e.blocks[|e.blocks| - 1];
  }

  lemma ReleasedOk(e: Extent, k: nat)
    requires ExtentOk(e) && 0 < k < |e.blocks|
    ensures ExtentOk(Released(e, k))
  {
    ReleaseKeepsLayout(e.blocks, e.start, e.end, k);
    var r, m := Release(e.blocks, k), MergeEnd(e.blocks, k);
    assert m < |e.blocks| ==> r[|r| - 1] == e.blocks[|e.blocks| - 1];
  }

  lemma ExtendedOk(e: Extent, n: nat)
    requires ExtentOk(e) && e.end + GROWTH < LIMIT
    ensures ExtentOk(Extended(e, n))
  {
    var c := Carved(e.end, n, GROWTH - TAG_SIZE);
    CarvedLayout(e.end, n, GROWTH - TAG_SIZE);
    LayoutJoin(e.blocks, c, e.start, e.end, e.end + GROWTH);
  }

  lemma NewRangeOk(start: nat, end: nat)
    requires start + RANGE_SIZE + 2 * TAG_SIZE < end < LIMIT
    ensures ExtentOk(NewRange(start, end))
  {
    CarvedLayout(start, RANGE_SIZE, end - start - TAG_SIZE);
  }

  // ----- all ranges

  function FirstRange(es: seq<Extent>, n: nat, from: nat): (r: Option<nat>)
    requires from <= |es|
    ensures r.Some? ==> from <= r.value < |es| && FirstFit(es[r.value].blocks, n, 0).Some?
                        && forall i | from <= i < r.value :: FirstFit(es[i].blocks, n, 0).None?
    ensures r.None? ==> forall i | from <= i < |es| :: FirstFit(es[i].blocks, n, 0).None?
    decreases |es| - from
  {
    if from == |es| then None
    else if FirstFit(es[from].blocks, n, 0).Some? then Some(from)
    else FirstRange(es, n, from + 1)
  }

  function FirstTrue(answers: seq<bool>, from: nat): (r: Option<nat>)
    requires from <= |answers|
    ensures r.Some? ==> from <= r.value < |answers| && answers[r.value]
                        && forall i | from <= i < r.value :: !answers[i]
    ensures r.None? ==> forall i | from <= i < |answers| :: !answers[i]
    decreases |answers| - from
  {
    if from == |answers| then None
    else if answers[from] then Some(from)
    else FirstTrue(answers, from + 1)
  }

  /** The heap after a request and the tag it is answered with. The area manager's replies
      are inputs: which ranges it would extend, and where it would put a new one. */
  function Allocate(es: seq<Extent>, n: nat, answers: seq<bool>, spot: nat): (seq<Extent>, nat)
    requires |answers| == |es|
  {
    match FirstRange(es, n, 0)
    case Some(i) =>
      var k := FirstFit(es[i].blocks, n, 0).value;
      (es[i := Taken(es[i], k, n)], es[i].blocks[k].addr)
    case None =>
      match FirstTrue(answers, 0)
      case Some(i) => (es[i := Extended(es[i], n)], es[i].end)
      case None => (es + [Taken(NewRange(spot, spot + GROWTH), 1, n)], spot + TAG_SIZE + RANGE_SIZE)
  }

  /** The address range a reply makes available is not used by the heap already; the place of
      a new range matters only if one is needed. */
  ghost predicate RepliesOk(es: seq<Extent>, n: nat, answers: seq<bool>, spot: nat) {
    && |answers| == |es|
    && (forall i | 0 <= i < |es| && answers[i] ::
          es[i].end + GROWTH < LIMIT && Outside(es, es[i].end, es[i].end + GROWTH))
    && (NeedsRange(es, n, answers) ==> spot + GROWTH < LIMIT && Outside(es, spot, spot + GROWTH))
  }

  function Owner(es: seq<Extent>, addr: nat, from: nat): (r: Option<nat>)
    requires from <= |es|
    ensures r.Some? ==> from <= r.value < |es| && es[r.value].start <= addr < es[r.value].end
    ensures r.None? ==> forall i | from <= i < |es| :: !(es[i].start <= addr < es[i].end)
    decreases |es| - from
  {
    if from == |es| then None
    else if es[from].start <= addr < es[from].end then Some(from)
    else Owner(es, addr, from + 1)
  }

  function BlockOf(bs: seq<Block>, addr: nat, from: nat): (r: Option<nat>)
    requires from <= |bs|
    ensures r.Some? ==> from <= r.value < |bs| && bs[r.value].Payload() == addr
    ensures r.None? ==> forall i | from <= i < |bs| :: bs[i].Payload() != addr
    decreases |bs| - from
  {
    if from == |bs| then None
    else if bs[from].Payload() == addr then Some(from)
    else BlockOf(bs, addr, from + 1)
  }

  /** Freeing is defined for addresses outside the heap, which it ignores, and for addresses
      that an allocation could have returned. */
  predicate Freeable(es: seq<Extent>, addr: nat) {
    match Owner(es, addr, 0)
    case None => true
    case Some(i) => |es[i].blocks| > 0 && BlockOf(es[i].blocks, addr, 1).Some?
  }

  function Freed(es: seq<Extent>, addr: nat): seq<Extent>
    requires Freeable(es, addr)
  {
    match Owner(es, addr, 0)
    case None => es
    case Some(i) => es[i := Released(es[i], BlockOf(es[i].blocks, addr, 1).value)]
  }

  // ----- replacing one range

  lemma ReplaceOk(es: seq<Extent>, i: nat, e: Extent)
    requires HeapOk(es) && i < |es| && ExtentOk(e)
    requires e.start == es[i].start && (e.end == es[i].end || Outside(es, es[i].end, e.end))
    requires es[i].end <= e.end
    ensures HeapOk(es[i := e])
  {
    forall j | 0 <= j < |es| && j != i ensures e.end <= es[j].start || es[j].end <= e.start {
      assert j < i || i < j;
      LayoutBounds(es[j].blocks, es[j].start, es[j].end);
      LayoutBounds(es[i].blocks, es[i].start, es[i].end);
    }
  }

  lemma ReplaceLive(es: seq<Extent>, i: nat, e: Extent, b: Block)
    requires i < |es|
    ensures IsLive(es[i := e], b) <==>
            b in Live(e.blocks) || exists j | 0 <= j < |es| && j != i :: b in Live(es[j].blocks)
  {
    var r := es[i := e];
    if b in Live(e.blocks) { assert b in Live(r[i].blocks); }
    if j :| 0 <= j < |es| && j != i && b in Live(es[j].blocks) { assert b in Live(r[j].blocks); }
  }

  /** Two live blocks anywhere in the heap are the same one or do not overlap, tags
      included. */
  lemma LiveApart(es: seq<Extent>, a: Block, b: Block)
    requires HeapOk(es) && IsLive(es, a) && IsLive(es, b) && a != b
    ensures a.End() <= b.addr || b.End() <= a.addr
  {
    var i :| 0 <= i < |es| && a in Live(es[i].blocks);
    var j :| 0 <= j < |es| && b in Live(es[j].blocks);
    if i == j {
      LiveAreDisjoint(es[i].blocks, es[i].start, es[i].end, a, b);
    } else {
      LayoutBounds(es[i].blocks, es[i].start, es[i].end);
      LayoutBounds(es[j].blocks, es[j].start, es[j].end);
      assert i < j || j < i;
    }
  }

  // ----- allocation

  lemma AllocateKeepsOk(es: seq<Extent>, n: nat, answers: seq<bool>, spot: nat)
    requires HeapOk(es) && RepliesOk(es, n, answers, spot)
    ensures HeapOk(Allocate(es, n, answers, spot).0)
  {
    hide Layout, Take;
    match FirstRange(es, n, 0)
    case Some(i) =>
      var k := FirstFit(es[i].blocks, n, 0).value;
      TakenOk(es[i], k, n);
      ReplaceOk(es, i, Taken(es[i], k, n));
    case None =>
      match FirstTrue(answers, 0)
      case Some(i) =>
        ExtendedOk(es[i], n);
        ReplaceOk(es, i, Extended(es[i], n));
      case None =>
        NewRangeOk(spot, spot + GROWTH);
        FreshOk(spot, n);
  }

  lemma FreshOk(spot: nat, n: nat)
    requires spot + GROWTH < LIMIT
    ensures ExtentOk(Taken(NewRange(spot, spot + GROWTH), 1, n))
  {
    var e := NewRange(spot, spot + GROWTH);
    NewRangeOk(spot, spot + GROWTH);
    TakeKeepsLayout(e.blocks, e.start, e.end, 1, n);
    assert Take(e.blocks, 1, n)[0] == e.blocks[0];
  }

  /** The bytes that the place chosen for a request has behind its tag. */
  function Available(es: seq<Extent>, n: nat, answers: seq<bool>): nat
    requires |answers| == |es|
  {
    match FirstRange(es, n, 0)
    case Some(i) => es[i].blocks[FirstFit(es[i].blocks, n, 0).value].size
    case None => if FirstTrue(answers, 0).Some? then GROWTH - TAG_SIZE
                 else GROWTH - 2 * TAG_SIZE - RANGE_SIZE
  }

  /** The block a request is answered with. */
  function Granted(es: seq<Extent>, n: nat, answers: seq<bool>, spot: nat): Block
    requires |answers| == |es|
  {
    Block(Allocate(es, n, answers, spot).1, TakenSize(n, Available(es, n, answers)), true)
  }

  /** No range has room and none can be extended. */
  predicate NeedsRange(es: seq<Extent>, n: nat, answers: seq<bool>)
    requires |answers| == |es|
  {
    FirstRange(es, n, 0).None? && FirstTrue(answers, 0).None?
  }

  lemma ReplaceAdds(es: seq<Extent>, i: nat, e: Extent, g: Block, b: Block)
    requires i < |es| && Live(e.blocks) == Live(es[i].blocks) + {g}
    ensures IsLive(es[i := e], b) <==> IsLive(es, b) || b == g
  {
    ReplaceLive(es, i, e, b);
    ReplaceLive(es, i, es[i], b);
    assert es[i := es[i]] == es;
  }

  lemma CarvedLive(addr: nat, n: nat, avail: nat)
    ensures Live(Carved(addr, n, avail)) == {Block(addr, TakenSize(n, avail), true)}
  {
    var c := Carved(addr, n, avail);
    assert c[0] == Block(addr, TakenSize(n, avail), true);
    assert |c| == 2 ==> c == [c[0], c[1]] && !c[1].used;
  }

  /** One new live block, beside the descriptor of a new range; every other live block keeps
      its address and size. */
  lemma AllocateAddsLive(es: seq<Extent>, n: nat, answers: seq<bool>, spot: nat, b: Block)
    requires HeapOk(es) && RepliesOk(es, n, answers, spot)
    ensures IsLive(Allocate(es, n, answers, spot).0, b) <==>
            || IsLive(es, b) || b == Granted(es, n, answers, spot)
            || (NeedsRange(es, n, answers) && b == Block(spot, RANGE_SIZE, true))
  {
    hide Layout, Take, IsLive;
    var g := Granted(es, n, answers, spot);
    match FirstRange(es, n, 0)
    case Some(i) =>
      var k := FirstFit(es[i].blocks, n, 0).value;
      TakeAddsLive(es[i].blocks, k, n);
      ReplaceAdds(es, i, Taken(es[i], k, n), g, b);
    case None =>
      match FirstTrue(answers, 0)
      case Some(i) =>
        var c := Carved(es[i].end, n, GROWTH - TAG_SIZE);
        LiveJoin(es[i].blocks, c);
        CarvedLive(es[i].end, n, GROWTH - TAG_SIZE);
        ReplaceAdds(es, i, Extended(es[i], n), g, b);
      case None =>
        var e := NewRange(spot, spot + GROWTH);
        TakeAddsLive(e.blocks, 1, n);
        CarvedLive(spot, RANGE_SIZE, GROWTH - TAG_SIZE);
        AppendLive(es, Taken(e, 1, n), b);
  }

  lemma AppendLive(es: seq<Extent>, e: Extent, b: Block)
    ensures IsLive(es + [e], b) <==> IsLive(es, b) || b in Live(e.blocks)
  {
    var r := es + [e];
    if i :| 0 <= i < |es| && b in Live(es[i].blocks) { assert b in Live(r[i].blocks); }
    if b in Live(e.blocks) { assert b in Live(r[|es|].blocks); }
  }

  /** The granted block overlaps no block that was live before. */
  lemma GrantedIsNew(es: seq<Extent>, n: nat, answers: seq<bool>, spot: nat, b: Block)
    requires HeapOk(es) && RepliesOk(es, n, answers, spot) && IsLive(es, b)
    ensures var g := Granted(es, n, answers, spot); b.End() <= g.addr || g.End() <= b.addr
  {
    hide Layout, Take, Carved;
    var g := Granted(es, n, answers, spot);
    AllocateKeepsOk(es, n, answers, spot);
    AllocateAddsLive(es, n, answers, spot, b);
    AllocateAddsLive(es, n, answers, spot, g);
    GrantedAddress(es, n, answers, spot, b);
    LiveApart(Allocate(es, n, answers, spot).0, b, g);
  }

  lemma GrantedAddress(es: seq<Extent>, n: nat, answers: seq<bool>, spot: nat, b: Block)
    requires HeapOk(es) && RepliesOk(es, n, answers, spot) && IsLive(es, b)
    ensures Allocate(es, n, answers, spot).1 != b.addr
  {
    hide Layout, Take, Carved;
    var j :| 0 <= j < |es| && b in Live(es[j].blocks);
    LayoutBounds(es[j].blocks, es[j].start, es[j].end);
    var r := FirstRange(es, n, 0);
    if r.Some? && r.value != j {
      LayoutBounds(es[r.value].blocks, es[r.value].start, es[r.value].end);
      assert r.value < j || j < r.value;
    }
  }

  /** The granted block is large enough iff an old block fits or the request is within what
      one growth step can hold; however it was found it is then at most one tag too large. */
  lemma GrantedServesIff(es: seq<Extent>, n: nat, answers: seq<bool>, spot: nat)
    requires |answers| == |es|
    ensures var g := Granted(es, n, answers, spot);
            && (g.size >= n <==>
                || FirstRange(es, n, 0).Some?
                || n <= if FirstTrue(answers, 0).Some? then 8184 else 8160)
            && (g.size >= n ==> g.size <= n + TAG_SIZE)
  {
  }

  /** Without growth the answer is the lowest block that fits in the first range that has
      one. */
  lemma AllocateTakesLowest(es: seq<Extent>, n: nat, answers: seq<bool>, spot: nat, i: nat, b: Block)
    requires HeapOk(es) && |answers| == |es| && i < |es| && b in es[i].blocks && !b.used && b.size >= n
    ensures var f := FirstRange(es, n, 0);
            && f.Some? && f.value <= i
            && (f.value == i ==> Allocate(es, n, answers, spot).1 <= b.addr)
  {
    hide Layout, Take, Carved;
    var k :| 0 <= k < |es[i].blocks| && es[i].blocks[k] == b;
    LayoutBounds(es[i].blocks, es[i].start, es[i].end);
  }

  /** Ranges keep their start, and range i ends later afterwards iff no range had room for the
      request and it is the first that may be extended; a range is added iff none may be. */
  lemma AllocateGrowsIff(es: seq<Extent>, n: nat, answers: seq<bool>, spot: nat, i: nat)
    requires |answers| == |es| && i < |es|
    ensures var es' := Allocate(es, n, answers, spot).0;
            && |es'| == |es| + (if NeedsRange(es, n, answers) then 1 else 0) && es'[i].start == es[i].start
            && es'[i].end == es[i].end
               + if FirstRange(es, n, 0).None? && answers[i] && (forall j | 0 <= j < i :: !answers[j]) then 8192 else 0
  {
    hide Take, Carved;
  }

  // ----- freeing

  lemma PayloadInside(e: Extent, b: Block)
    requires ExtentOk(e) && b in e.blocks
    ensures e.start <= b.Payload() < e.end
  {
    hide Layout;
    LayoutBounds(e.blocks, e.start, e.end);
    var k :| 0 <= k < |e.blocks| && e.blocks[k] == b;
    assert k < |e.blocks| - 1 ==> b.End() <= e.blocks[|e.blocks| - 1].addr;
  }

  lemma OwnerIs(es: seq<Extent>, i: nat, addr: nat)
    requires Apart(es) && i < |es| && es[i].start <= addr < es[i].end
    ensures Owner(es, addr, 0) == Some(i)
  {
    var r := Owner(es, addr, 0).value;
    assert !(r < i) && !(i < r);
  }

  lemma BlockOfIs(e: Extent, k: nat)
    requires ExtentOk(e) && 0 < k < |e.blocks|
    ensures BlockOf(e.blocks, e.blocks[k].Payload(), 1) == Some(k)
  {
    hide Layout;
    LayoutBounds(e.blocks, e.start, e.end);
    var r := BlockOf(e.blocks, e.blocks[k].Payload(), 1).value;
    assert !(r < k) && !(k < r);
  }

  lemma FreedKeepsOk(es: seq<Extent>, addr: nat)
    requires HeapOk(es) && Freeable(es, addr)
    ensures HeapOk(Freed(es, addr))
  {
    hide Layout, Release;
    match Owner(es, addr, 0)
    case None =>
    case Some(i) =>
      var k := BlockOf(es[i].blocks, addr, 1).value;
      ReleasedOk(es[i], k);
      ReplaceOk(es, i, Released(es[i], k));
  }

  lemma ReplaceRemoves(es: seq<Extent>, i: nat, e: Extent, x: Block, b: Block)
    requires i < |es| && Live(e.blocks) == Live(es[i].blocks) - {x}
    requires forall j | 0 <= j < |es| && j != i :: x !in Live(es[j].blocks)
    ensures IsLive(es[i := e], b) <==> IsLive(es, b) && b != x
  {
    ReplaceLive(es, i, e, b);
    ReplaceLive(es, i, es[i], b);
    assert es[i := es[i]] == es;
  }

  /** The block found for an address in range i is the only one in the heap with that
      payload. */
  lemma OnlyBlock(es: seq<Extent>, i: nat, k: nat, j: nat, b: Block)
    requires HeapOk(es) && i < |es| && j < |es| && k < |es[i].blocks| && b in es[j].blocks
    requires b.Payload() == es[i].blocks[k].Payload()
    ensures i == j && b == es[i].blocks[k]
  {
    hide Layout;
    PayloadInside(es[j], b);
    PayloadInside(es[i], es[i].blocks[k]);
    assert !(i < j) && !(j < i);
    LayoutBounds(es[i].blocks, es[i].start, es[i].end);
    var m :| 0 <= m < |es[j].blocks| && es[j].blocks[m] == b;
    assert !(m < k) && !(k < m);
  }

  /** Freeing an address removes exactly the live block with that payload, if there is one. */
  lemma FreedRemovesLive(es: seq<Extent>, addr: nat, b: Block)
    requires HeapOk(es) && Freeable(es, addr)
    ensures IsLive(Freed(es, addr), b) <==> IsLive(es, b) && b.Payload() != addr
  {
    hide Layout, Release;
    match Owner(es, addr, 0)
    case None =>
      if IsLive(es, b) {
        var j :| 0 <= j < |es| && b in Live(es[j].blocks);
        PayloadInside(es[j], b);
      }
    case Some(i) =>
      var k := BlockOf(es[i].blocks, addr, 1).value;
      var x := es[i].blocks[k];
      ReleaseRemovesLive(es[i].blocks, es[i].start, es[i].end, k);
      forall j, y | 0 <= j < |es| && y in Live(es[j].blocks) && y.Payload() == addr
        ensures j == i && y == x
      {
        OnlyBlock(es, i, k, j, y);
      }
      ReplaceRemoves(es, i, Released(es[i], k), x, b);
  }

  lemma FreeAt(es: seq<Extent>, i: nat, k: nat)
    requires HeapOk(es) && i < |es| && 0 < k < |es[i].blocks|
    ensures var addr := es[i].blocks[k].Payload();
            Freeable(es, addr) && Freed(es, addr) == es[i := Released(es[i], k)]
  {
    hide Layout, Release;
    PayloadInside(es[i], es[i].blocks[k]);
    OwnerIs(es, i, es[i].blocks[k].Payload());
    BlockOfIs(es[i], k);
  }

  /** Freeing what was just allocated without growth restores the heap exactly if the block
      was split, and up to merging with the free block behind it if it was taken whole. */
  lemma MallocThenFree(es: seq<Extent>, n: nat, answers: seq<bool>, spot: nat)
    requires HeapOk(es) && |answers| == |es| && FirstRange(es, n, 0).Some?
    ensures var i := FirstRange(es, n, 0).value;
            var k := FirstFit(es[i].blocks, n, 0).value;
            var (es', tag) := Allocate(es, n, answers, spot);
            && Freeable(es', tag + TAG_SIZE)
            && Freed(es', tag + TAG_SIZE)
               == if n + TAG_SIZE < es[i].blocks[k].size then es else es[i := Released(es[i], k)]
  {
    hide Layout, Release, Freed, Freeable, Apart;
    var i := FirstRange(es, n, 0).value;
    var k := FirstFit(es[i].blocks, n, 0).value;
    var e := Taken(es[i], k, n);
    TakenOk(es[i], k, n);
    ReplaceOk(es, i, e);
    FreeAt(es[i := e], i, k);
    assert e.blocks[k].addr == es[i].blocks[k].addr;
    if n + TAG_SIZE < es[i].blocks[k].size {
      TakeThenReleaseSplit(es[i].blocks, k, n);
      assert es[i := es[i]] == es;
    } else {
      TakeThenReleaseWhole(es[i].blocks, k, n);
    }
  }

  // ----- runs

  datatype Op = Malloc(n: nat, answers: seq<bool>, spot: nat) | Kfree(addr: nat)

  ghost predicate Legal(es: seq<Extent>, op: Op) {
    match op
    case Malloc(n, answers, spot) => RepliesOk(es, n, answers, spot)
    case Kfree(addr) => Freeable(es, addr)
  }

  ghost function Step(es: seq<Extent>, op: Op): seq<Extent>
    requires Legal(es, op)
  {
    match op
    case Malloc(n, answers, spot) => Allocate(es, n, answers, spot).0
    case Kfree(addr) => Freed(es, addr)
  }

  ghost predicate LegalRun(es: seq<Extent>, ops: seq<Op>)
    decreases |ops|
  {
    ops == [] || (Legal(es, ops[0]) && LegalRun(Step(es, ops[0]), ops[1..]))
  }

  ghost function Run(es: seq<Extent>, ops: seq<Op>): seq<Extent>
    requires LegalRun(es, ops)
    decreases |ops|
  {
    if ops == [] then es else Run(Step(es, ops[0]), ops[1..])
  }

  /** Along every run the tag chains stay partitions of disjoint ranges, and a live block
      keeps its address and size until its payload is freed. */
  lemma {:induction false} RunKeepsLive(es: seq<Extent>, ops: seq<Op>, b: Block)
    requires HeapOk(es) && LegalRun(es, ops)
    ensures HeapOk(Run(es, ops))
    ensures IsLive(es, b) && Kfree(b.Payload()) !in ops ==> IsLive(Run(es, ops), b)
    decreases |ops|
  {
    hide HeapOk, IsLive, Allocate, Freed, Freeable, RepliesOk;
    if ops != [] {
      StepKeepsLive(es, ops[0], b);
      RunKeepsLive(Step(es, ops[0]), ops[1..], b);
    }
  }

  lemma StepKeepsLive(es: seq<Extent>, op: Op, b: Block)
    requires HeapOk(es) && Legal(es, op)
    ensures HeapOk(Step(es, op))
    ensures IsLive(es, b) && op != Kfree(b.Payload()) ==> IsLive(Step(es, op), b)
  {
    hide HeapOk, IsLive, Allocate, Freed;
    match op
    case Malloc(n, answers, spot) =>
      AllocateKeepsOk(es, n, answers, spot);
      AllocateAddsLive(es, n, answers, spot, b);
    case Kfree(addr) =>
      FreedKeepsOk(es, addr);
      FreedRemovesLive(es, addr, b);
  }
}
