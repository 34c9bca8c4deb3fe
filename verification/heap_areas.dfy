/** The heap and the area manager together. If every range of the heap is one whole area of the
    list, what the manager grants never collides with the heap, and the heap's memory is there:
    along every run of kmalloc, kfree and the manager's other calls. */
module HeapAreas {
  import opened Wrappers
  import opened Words
  import opened PagingFormat
  import opened Areas
  import opened Mmu
  import opened VmmRuns
  import Regions
  import Devices
  import Mapping
  import H = HeapRuns
  import K = KheapBlocks

  ghost predicate IsArea(areas: seq<Area>, e: H.Extent) {
    exists j | 0 <= j < |areas| :: RangeIs(areas[j], e)
  }

  ghost predicate RangeIs(a: Area, e: H.Extent) {
    a.start == e.start && a.End() == e.end && Managed(a.flags)
  }

  ghost predicate Owned(areas: seq<Area>, es: seq<H.Extent>) {
    forall i | 0 <= i < |es| :: IsArea(areas, es[i])
  }

  /** The tests by which vmalloc_request_more_memory agrees to extend a range. */
  ghost predicate MayExtend(areas: seq<Area>, e: H.Extent) {
    e.end + H.GROWTH < H.LIMIT && !AnyHit(areas, e.end, H.GROWTH)
  }

  lemma GapIsOutside(areas: seq<Area>, es: seq<H.Extent>, lo: nat)
    requires Owned(areas, es) && Clear(areas, lo, lo + H.GROWTH)
    ensures H.Outside(es, lo, lo + H.GROWTH)
  {
    hide Managed;
    forall i | 0 <= i < |es| ensures es[i].end <= lo || lo + H.GROWTH <= es[i].start {
      assert IsArea(areas, es[i]);
    }
  }

  /** What is agreed to lies behind the range and outside every range. */
  lemma ExtensionIsOutside(areas: seq<Area>, es: seq<H.Extent>, i: nat)
    requires Descending(areas) && Owned(areas, es) && i < |es| && MayExtend(areas, es[i])
    ensures H.Outside(es, es[i].end, es[i].end + H.GROWTH)
  {
    hide Hits;
    forall j | 0 <= j < |areas| ensures !Overlap(areas[j], es[i].end, es[i].end + H.GROWTH) {
      assert !Hits(areas[j], es[i].end, H.GROWTH);
      HitsBelowTop(areas[j], es[i].end, H.GROWTH);
    }
    GapIsOutside(areas, es, es[i].end);
  }

  /** Whatever the manager answers is free for the heap to use. */
  lemma AnswersAreFree(areas: seq<Area>, es: seq<H.Extent>, n: nat, answers: seq<bool>, bottom: Word, top: Word)
    requires Descending(areas) && areas != [] && Owned(areas, es) && |answers| == |es|
    requires EndsAboveBottom(areas, bottom, top, H.GROWTH)
    requires forall i | 0 <= i < |es| && answers[i] :: MayExtend(areas, es[i])
    requires FirstAlloc(areas, bottom, top, H.GROWTH) != 0
    ensures H.RepliesOk(es, n, answers, FirstAlloc(areas, bottom, top, H.GROWTH))
  {
    hide FirstAlloc, MayExtend, Owned, Descending, H.Outside, EndsAboveBottom;
    forall i | 0 <= i < |es| && answers[i]
      ensures es[i].end + H.GROWTH < H.LIMIT && H.Outside(es, es[i].end, es[i].end + H.GROWTH)
    {
      ExtensionIsOutside(areas, es, i);
      ExtensionEnds(areas, es[i]);
    }
    FirstAllocAboveBottomIff(areas, bottom, top, H.GROWTH);
    GapIsOutside(areas, es, FirstAlloc(areas, bottom, top, H.GROWTH));
  }

  lemma ExtensionEnds(areas: seq<Area>, e: H.Extent)
    requires MayExtend(areas, e)
    ensures e.end + H.GROWTH < H.LIMIT
  {
  }

  // ----- every range stays one whole area

  /** Lengthening an area leaves the areas of other starts in the list. */
  lemma OtherAreaStays(areas: seq<Area>, j: nat, extra: Word, e: H.Extent)
    requires j < |areas| && areas[j].length + extra < 0x1_0000_0000 && IsArea(areas, e) && areas[j].start != e.start
    ensures IsArea(Extended(areas, j, extra), e)
  {
    hide Managed;
    var m :| 0 <= m < |areas| && RangeIs(areas[m], e);
    assert Extended(areas, j, extra)[m] == areas[m];
  }

  lemma StartsDiffer(es: seq<H.Extent>, i: nat, k: nat)
    requires H.HeapOk(es) && i < |es| && k < |es| && i != k
    ensures es[i].start != es[k].start
  {
    hide K.Layout;
    K.LayoutBounds(es[k].blocks, es[k].start, es[k].end);
    K.LayoutBounds(es[i].blocks, es[i].start, es[i].end);
    assert k < i || i < k;
  }

  /** vmm.c lengthens an area whether or not the new memory could be backed, the heap its range
      only if it was: the ranges stay whole areas iff it was. */
  lemma ExtensionKeepsOwnedIff(areas: seq<Area>, es: seq<H.Extent>, i: nat, j: nat, n: nat, backed: bool)
    requires H.HeapOk(es) && Descending(areas) && Owned(areas, es) && i < |es| && j < |areas|
    requires RangeIs(areas[j], es[i]) && es[i].end + H.GROWTH < H.LIMIT
    ensures Owned(Extended(areas, j, H.GROWTH), if backed then es[i := H.Extended(es[i], n)] else es) <==> backed
  {
    hide Managed, H.HeapOk;
    var areas', es' := Extended(areas, j, H.GROWTH), es[i := H.Extended(es[i], n)];
    assert areas'[j].start == es[i].start && areas'[j].End() == es[i].end + H.GROWTH;
    if backed {
      forall k | 0 <= k < |es| ensures IsArea(areas', es'[k]) {
        if k == i {
          assert RangeIs(areas'[j], es'[i]);
        } else {
          StartsDiffer(es, i, k);
          OtherAreaStays(areas, j, H.GROWTH, es[k]);
        }
      }
    } else {
      forall m | 0 <= m < |areas| ensures !RangeIs(areas'[m], es[i]) {
        assert m != j ==> areas'[m] == areas[m] && (m < j || j < m);
      }
    }
  }

  /** A list with one more area has all the areas it had. */
  lemma InsertKeepsArea(areas: seq<Area>, a: Area, e: H.Extent)
    ensures IsArea(areas, e) || RangeIs(a, e) ==> IsArea(Insert(areas, a), e)
  {
    hide Managed, Insert;
    var k := InsertSplits(areas, a);
    var r := Insert(areas, a);
    assert r[k] == a;
    if IsArea(areas, e) {
      var m :| 0 <= m < |areas| && RangeIs(areas[m], e);
      assert areas[m] == if m < k then r[m] else r[m + 1];
    }
  }

  lemma InsertKeepsOwned(areas: seq<Area>, es: seq<H.Extent>, a: Area, e: H.Extent)
    requires Owned(areas, es) && RangeIs(a, e)
    ensures Owned(Insert(areas, a), es + [e])
  {
    hide IsArea, RangeIs, Insert;
    forall i | 0 <= i < |es| + 1 ensures IsArea(Insert(areas, a), (es + [e])[i]) {
      InsertKeepsArea(areas, a, (es + [e])[i]);
    }
  }

  lemma RemoveKeepsOwned(areas: seq<Area>, es: seq<H.Extent>, k: nat)
    requires Owned(areas, es) && k < |areas| && forall i | 0 <= i < |es| :: es[i].start != areas[k].start
    ensures Owned(Without(areas, k), es)
  {
    hide Managed;
    forall i | 0 <= i < |es| ensures IsArea(Without(areas, k), es[i]) {
      assert IsArea(areas, es[i]);
      var m :| 0 <= m < |areas| && RangeIs(areas[m], es[i]);
      assert Without(areas, k)[if m < k then m else m - 1] == areas[m];
    }
  }

  /** Ranges with the same bounds are the same areas. */
  lemma SameBoundsOwned(areas: seq<Area>, es: seq<H.Extent>, es': seq<H.Extent>)
    requires Owned(areas, es) && |es'| == |es|
    requires forall i | 0 <= i < |es| :: es'[i].start == es[i].start && es'[i].end == es[i].end
    ensures Owned(areas, es')
  {
    hide Managed;
    forall i | 0 <= i < |es'| ensures IsArea(areas, es'[i]) {
      assert IsArea(areas, es[i]);
      var m :| 0 <= m < |areas| && RangeIs(areas[m], es[i]);
      assert RangeIs(areas[m], es'[i]);
    }
  }

  // ----- the heap over the area manager

  datatype Joint = Joint(k: Kernel, es: seq<H.Extent>)

  ghost predicate JointInv(j: Joint, c: Config) {
    Inv(j.k, c) && H.HeapOk(j.es) && Owned(j.k.areas, j.es)
  }

  datatype JointOp =
    | Malloc(n: nat, flags: Word)
    | Kfree(addr: nat)
    | Manager(op: VmmRuns.Op)

  /** get_more_mem from range i on: the first range that the manager does not refuse to extend,
      or else a range of its own. None when the manager then fails to back the memory. */
  ghost function Grow(j: Joint, c: Config, n: nat, flags: Word, i: nat): Option<Joint>
    requires JointInv(j, c) && i <= |j.es|
    decreases |j.es| - i
  {
    if i == |j.es| then
      match Step(j.k, c, Alloc(H.GROWTH, flags))
      case None => None
      case Some(k') =>
        var spot := FirstAlloc(j.k.areas, c.bottom, c.top, H.GROWTH);
        Some(Joint(k', j.es + [H.Taken(H.NewRange(spot, spot + H.GROWTH), 1, n)]))
    else if AnyHit(j.k.areas, Wrap(j.es[i].end), H.GROWTH) then Grow(j, c, n, flags, i + 1)
    else
      match Step(j.k, c, Extend(Wrap(j.es[i].start), H.GROWTH))
      case None => None
      case Some(k') => Some(Joint(k', j.es[i := H.Extended(j.es[i], n)]))
  }

  /** What a caller owes: of a request that no range has room for, that the ranges may be asked to
      grow and, if none does, that a new area may be asked for. */
  ghost predicate JointLegal(j: Joint, c: Config, op: JointOp)
    requires JointInv(j, c)
  {
    match op
    case Malloc(n, flags) =>
      H.FirstRange(j.es, n, 0).None? ==>
        && (forall i | 0 <= i < |j.es| :: j.es[i].end + H.GROWTH < H.LIMIT)
        && (H.NeedsRange(j.es, n, Answers(j)) ==> Legal(j.k, c, Alloc(H.GROWTH, flags)))
    case Kfree(addr) => H.Freeable(j.es, addr)
    // the manager's other clients leave the areas of the heap alone
    case Manager(op) =>
      && Legal(j.k, c, op)
      && (op.Extend? || op.Free? ==> forall i | 0 <= i < |j.es| :: j.es[i].start != op.start)
  }

  ghost function JointStep(j: Joint, c: Config, op: JointOp): Option<Joint>
    requires JointInv(j, c) && JointLegal(j, c, op)
  {
    match op
    case Malloc(n, flags) =>
      (match H.FirstRange(j.es, n, 0)
       case Some(i) => Some(j.(es := j.es[i := H.Taken(j.es[i], K.FirstFit(j.es[i].blocks, n, 0).value, n)]))
       case None => Grow(j, c, n, flags, 0))
    case Kfree(addr) => Some(j.(es := H.Freed(j.es, addr)))
    case Manager(op) =>
      match Step(j.k, c, op)
      case None => None
      case Some(k') => Some(j.(k := k'))
  }

  /** The index of a range's area. */
  lemma RangeArea(j: Joint, c: Config, i: nat) returns (m: nat)
    requires JointInv(j, c) && i < |j.es|
    ensures j.es[i].end < H.LIMIT && j.es[i].start < H.LIMIT
    ensures m < |j.k.areas| && RangeIs(j.k.areas[m], j.es[i]) && IndexOf(j.k.areas, j.es[i].start) == Some(m)
  {
    hide Managed, K.Layout, Regions.Backed;
    assert IsArea(j.k.areas, j.es[i]);
    m :| 0 <= m < |j.k.areas| && RangeIs(j.k.areas[m], j.es[i]);
    IndexOfUnique(j.k.areas, m);
  }

  /** The replies that the manager gives. */
  ghost function Answers(j: Joint): (a: seq<bool>)
    ensures |a| == |j.es| && forall i | 0 <= i < |j.es| :: a[i] == !AnyHit(j.k.areas, Wrap(j.es[i].end), H.GROWTH)
  {
    seq(|j.es|, i requires 0 <= i < |j.es| => !AnyHit(j.k.areas, Wrap(j.es[i].end), H.GROWTH))
  }

  /** The manager's replies are what the heap may rely on. */
  lemma RepliesOfManager(j: Joint, c: Config, n: nat, flags: Word, spot: nat)
    requires JointInv(j, c) && JointLegal(j, c, Malloc(n, flags)) && H.FirstRange(j.es, n, 0).None?
    requires H.NeedsRange(j.es, n, Answers(j)) ==>
               spot == FirstAlloc(j.k.areas, c.bottom, c.top, H.GROWTH) && spot != 0
    ensures H.RepliesOk(j.es, n, Answers(j), spot)
  {
    hide Regions.Backed, H.HeapOk, FirstAlloc, EndsAboveBottom, Descending, MayExtend, AnyHit, Owned, H.Outside,
         Mapping.HasFlag, H.NeedsRange;
    var answers := Answers(j);
    forall i | 0 <= i < |j.es| && answers[i]
      ensures j.es[i].end + H.GROWTH < H.LIMIT && H.Outside(j.es, j.es[i].end, j.es[i].end + H.GROWTH)
    {
      MayExtendIs(j.k.areas, j.es[i]);
      ExtensionIsOutside(j.k.areas, j.es, i);
    }
    if H.NeedsRange(j.es, n, answers) {
      FirstAllocAboveBottomIff(j.k.areas, c.bottom, c.top, H.GROWTH);
      GapIsOutside(j.k.areas, j.es, spot);
    }
  }

  lemma MayExtendIs(areas: seq<Area>, e: H.Extent)
    requires e.end + H.GROWTH < H.LIMIT
    ensures MayExtend(areas, e) <==> !AnyHit(areas, Wrap(e.end), H.GROWTH)
  {
  }

  /** A range of its own. */
  lemma FreshKeepsInv(j: Joint, j': Joint, c: Config, n: nat, flags: Word)
    requires JointInv(j, c) && JointLegal(j, c, Malloc(n, flags)) && H.NeedsRange(j.es, n, Answers(j))
    requires Grow(j, c, n, flags, |j.es|) == Some(j')
    ensures JointInv(j', c)
    ensures var spot := FirstAlloc(j.k.areas, c.bottom, c.top, H.GROWTH);
            H.RepliesOk(j.es, n, Answers(j), spot) && j'.es == H.Allocate(j.es, n, Answers(j), spot).0
  {
    hide Regions.Backed, Regions.BackRegion, H.HeapOk, FirstAlloc, EndsAboveBottom, AreasOk, AnyHit,
         Owned, H.RepliesOk, H.FirstRange, H.FirstTrue, H.Taken, Mapping.HasFlag, Devices.CoreDoes;
    var spot := FirstAlloc(j.k.areas, c.bottom, c.top, H.GROWTH);
    assert NumPagesNeeded(H.GROWTH) * PAGE_SIZE == H.GROWTH;
    RepliesOfManager(j, c, n, flags, spot);
    H.AllocateKeepsOk(j.es, n, Answers(j), spot);
    AllocKeepsInv(j.k, j'.k, c, H.GROWTH, flags);
    FreshBounds(spot, n);
    InsertKeepsOwned(j.k.areas, j.es, Area(spot, H.GROWTH, flags), H.Taken(H.NewRange(spot, spot + H.GROWTH), 1, n));
  }

  lemma FreshBounds(spot: nat, n: nat)
    ensures var e := H.Taken(H.NewRange(spot, spot + H.GROWTH), 1, n); e.start == spot && e.end == spot + H.GROWTH
  {
  }

  /** Range i grows, and its area with it. */
  lemma ExtendedKeepsInv(j: Joint, j': Joint, c: Config, n: nat, flags: Word, i: nat)
    requires JointInv(j, c) && JointLegal(j, c, Malloc(n, flags)) && H.FirstRange(j.es, n, 0).None?
    requires i < |j.es| && H.FirstTrue(Answers(j), 0) == Some(i)
    requires Grow(j, c, n, flags, i) == Some(j')
    ensures JointInv(j', c)
    ensures H.RepliesOk(j.es, n, Answers(j), 0) && j'.es == H.Allocate(j.es, n, Answers(j), 0).0
  {
    hide Regions.Backed, Regions.BackRegion, H.HeapOk, FirstAlloc, EndsAboveBottom, AreasOk, AnyHit,
         Owned, H.RepliesOk, H.FirstRange, H.FirstTrue, H.Extended, Mapping.HasFlag, Answers, Devices.CoreDoes;
    var m := RangeArea(j, c, i);
    RepliesOfManager(j, c, n, flags, 0);
    H.AllocateKeepsOk(j.es, n, Answers(j), 0);
    ExtendKeepsInv(j.k, j'.k, c, j.es[i].start, H.GROWTH);
    InvDescends(j.k, c);
    ExtensionKeepsOwnedIff(j.k.areas, j.es, i, m, n, true);
  }

  lemma InvDescends(k: Kernel, c: Config)
    requires Inv(k, c)
    ensures Descending(k.areas)
  {
  }

  /** Growing keeps everything together, and is the heap's own step with the manager's
      replies. */
  lemma {:induction false} GrowKeepsInv(j: Joint, j': Joint, c: Config, n: nat, flags: Word, i: nat) returns (spot: nat)
    requires JointInv(j, c) && JointLegal(j, c, Malloc(n, flags)) && H.FirstRange(j.es, n, 0).None?
    requires i <= |j.es| && H.FirstTrue(Answers(j), i) == H.FirstTrue(Answers(j), 0)
    requires Grow(j, c, n, flags, i) == Some(j')
    ensures JointInv(j', c)
    ensures H.RepliesOk(j.es, n, Answers(j), spot) && j'.es == H.Allocate(j.es, n, Answers(j), spot).0
    decreases |j.es| - i
  {
    hide JointInv, JointLegal, H.Allocate, H.FirstRange, H.RepliesOk, Step, AnyHit;
    if i == |j.es| {
      spot := FirstAlloc(j.k.areas, c.bottom, c.top, H.GROWTH);
      FreshKeepsInv(j, j', c, n, flags);
    } else if AnyHit(j.k.areas, Wrap(j.es[i].end), H.GROWTH) {
      spot := GrowKeepsInv(j, j', c, n, flags, i + 1);
    } else {
      spot := 0;
      ExtendedKeepsInv(j, j', c, n, flags, i);
    }
  }

  /** kmalloc with the manager behind it is the heap's step with that manager's replies; they do
      not matter if a range has room. */
  lemma MallocKeepsInv(j: Joint, j': Joint, c: Config, n: nat, flags: Word) returns (replies: seq<bool>, spot: nat)
    requires JointInv(j, c) && JointLegal(j, c, Malloc(n, flags)) && JointStep(j, c, Malloc(n, flags)) == Some(j')
    ensures JointInv(j', c)
    ensures H.RepliesOk(j.es, n, replies, spot) && j'.es == H.Allocate(j.es, n, replies, spot).0
    ensures H.FirstRange(j.es, n, 0).None? ==> replies == Answers(j)
  {
    hide Inv, JointLegal, H.HeapOk, Owned, Grow, H.Outside;
    match H.FirstRange(j.es, n, 0)
    case Some(i) =>
      replies, spot := seq(|j.es|, _ => false), 0;
      H.AllocateKeepsOk(j.es, n, replies, spot);
      SameBoundsOwned(j.k.areas, j.es, j'.es);
    case None =>
      replies := Answers(j);
      spot := GrowKeepsInv(j, j', c, n, flags, 0);
  }

  lemma KfreeKeepsInv(j: Joint, j': Joint, c: Config, addr: nat)
    requires JointInv(j, c) && H.Freeable(j.es, addr) && j' == j.(es := H.Freed(j.es, addr))
    ensures JointInv(j', c)
  {
    hide Inv, H.HeapOk, Owned, K.Release;
    H.FreedKeepsOk(j.es, addr);
    SameBoundsOwned(j.k.areas, j.es, j'.es);
  }

  /** The manager's calls for others leave the areas of the heap in the list. */
  lemma ManagerKeepsOwned(j: Joint, k': Kernel, c: Config, op: VmmRuns.Op)
    requires JointInv(j, c) && JointLegal(j, c, Manager(op)) && Step(j.k, c, op) == Some(k')
    ensures Owned(k'.areas, j.es)
  {
    hide Regions.Backed, Regions.BackRegion, Devices.CoreDoes, Regions.FreeRun, H.HeapOk, FirstAlloc,
         AreasOk, AnyHit, Owned, Mapping.HasFlag,
         EndsAboveBottom, DeviceMayBe, Without, Extended;
    match op
    case Alloc(size, flags) =>
      InsertKeepsOthers(j.k.areas, j.es, FirstAlloc(j.k.areas, c.bottom, c.top, size), size, flags);
    case Request(va, size, flags) => InsertKeepsOthers(j.k.areas, j.es, va, size, flags);
    case Extend(start, extra) => ExtendKeepsOthers(j.k.areas, j.es, IndexOf(j.k.areas, start).value, extra);
    case Free(start) => RemoveKeepsOwned(j.k.areas, j.es, IndexOf(j.k.areas, start).value);
  }

  lemma InsertKeepsOthers(areas: seq<Area>, es: seq<H.Extent>, start: Word, size: Word, flags: Word)
    requires Owned(areas, es)
    ensures NumPagesNeeded(size) * PAGE_SIZE < 0x1_0000_0000
    ensures Owned(Insert(areas, Area(start, NumPagesNeeded(size) * PAGE_SIZE, flags)), es)
  {
    hide IsArea, RangeIs, Insert;
    forall i | 0 <= i < |es| ensures IsArea(Insert(areas, Area(start, NumPagesNeeded(size) * PAGE_SIZE, flags)), es[i]) {
      InsertKeepsArea(areas, Area(start, NumPagesNeeded(size) * PAGE_SIZE, flags), es[i]);
    }
  }

  lemma ExtendKeepsOthers(areas: seq<Area>, es: seq<H.Extent>, m: nat, extra: Word)
    requires Owned(areas, es) && m < |areas| && areas[m].length + extra < 0x1_0000_0000
    requires forall i | 0 <= i < |es| :: es[i].start != areas[m].start
    ensures Owned(Extended(areas, m, extra), es)
  {
    hide IsArea, RangeIs;
    forall i | 0 <= i < |es| ensures IsArea(Extended(areas, m, extra), es[i]) {
      OtherAreaStays(areas, m, extra, es[i]);
    }
  }

  lemma JointStepKeepsInv(j: Joint, j': Joint, c: Config, op: JointOp, b: K.Block)
    requires JointInv(j, c) && JointLegal(j, c, op) && JointStep(j, c, op) == Some(j')
    ensures JointInv(j', c)
    ensures H.IsLive(j.es, b) && op != Kfree(b.Payload()) ==> H.IsLive(j'.es, b)
  {
    hide Inv, Legal, Step, H.HeapOk, Owned, Grow, H.Allocate, H.Freed, H.Freeable, H.RepliesOk, H.IsLive;
    match op
    case Malloc(n, flags) =>
      var replies, spot := MallocKeepsInv(j, j', c, n, flags);
      H.StepKeepsLive(j.es, H.Malloc(n, replies, spot), b);
    case Kfree(addr) =>
      KfreeKeepsInv(j, j', c, addr);
      H.StepKeepsLive(j.es, H.Kfree(addr), b);
    case Manager(vop) =>
      StepKeepsInv(j.k, j'.k, c, vop);
      ManagerKeepsOwned(j, j'.k, c, vop);
  }

  // ----- runs

  /** j' is reached from j by the legal, successful calls ops. */
  ghost predicate JointRun(j: Joint, c: Config, ops: seq<JointOp>, j': Joint)
    decreases |ops|
  {
    if ops == [] then j' == j
    else
      JointInv(j, c) && JointLegal(j, c, ops[0]) && JointStep(j, c, ops[0]).Some?
      && JointRun(JointStep(j, c, ops[0]).value, c, ops[1..], j')
  }

  lemma {:induction false} JointRunKeepsInv(j: Joint, c: Config, ops: seq<JointOp>, j': Joint, b: K.Block)
    requires JointInv(j, c) && JointRun(j, c, ops, j')
    ensures JointInv(j', c)
    ensures H.IsLive(j.es, b) && Kfree(b.Payload()) !in ops ==> H.IsLive(j'.es, b)
    decreases |ops|
  {
    hide JointInv, JointLegal, JointStep, H.IsLive;
    if ops != [] {
      var j1 := JointStep(j, c, ops[0]).value;
      JointStepKeepsInv(j, j1, c, ops[0], b);
      JointRunKeepsInv(j1, c, ops[1..], j', b);
    }
  }

  ghost predicate InHeap(es: seq<H.Extent>, va: int) {
    exists i | 0 <= i < |es| :: es[i].start <= va < es[i].end
  }

  lemma HeapIsMemory(j: Joint, va: Word)
    requires Owned(j.k.areas, j.es) && InHeap(j.es, va)
    ensures InArea(j.k, Memory, va)
  {
    hide Managed;
    var i :| 0 <= i < |j.es| && j.es[i].start <= va < j.es[i].end;
    assert IsArea(j.k.areas, j.es[i]);
  }

  /** After every run of kmalloc, kfree and the manager's other calls the tags of every range
      are a partition of one whole area, blocks stay live until they are freed, and the heap's
      memory is there: each of its bytes is resident, and bytes of different pages are in
      different frames. */
  lemma JointRunIsSafe(j: Joint, c: Config, ops: seq<JointOp>, j': Joint, b: K.Block, va: Word, vb: Word)
    requires JointInv(j, c) && JointRun(j, c, ops, j')
    ensures H.HeapOk(j'.es) && Owned(j'.k.areas, j'.es)
    ensures H.IsLive(j.es, b) && Kfree(b.Payload()) !in ops ==> H.IsLive(j'.es, b)
    ensures InHeap(j'.es, va) ==> Resident(j'.k, c, va)
    ensures IsMem(j'.k.sp.m) && c.pd < NUM_PAGES
    ensures InHeap(j'.es, va) && InHeap(j'.es, vb) && va / PAGE_SIZE != vb / PAGE_SIZE ==>
              FrameOf(j'.k, c, va) != FrameOf(j'.k, c, vb)
  {
    hide JointRun, Inv, H.HeapOk, Owned, H.IsLive, InHeap, Resident, FrameOf, InArea;
    JointRunKeepsInv(j, c, ops, j', b);
    InvHasSpace(j'.k, c);
    if InHeap(j'.es, va) {
      HeapIsMemory(j', va);
      MemoryIsSafe(j'.k, c, va);
      if InHeap(j'.es, vb) && va / PAGE_SIZE != vb / PAGE_SIZE {
        HeapIsMemory(j', vb);
        MemoryIsApart(j'.k, c, va, vb);
      }
    }
  }
}
