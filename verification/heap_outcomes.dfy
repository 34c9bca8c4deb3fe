/** When kmalloc over the area manager succeeds. */
module HeapOutcomes {
  import opened Wrappers
  import opened Words
  import opened Areas
  import opened Mmu
  import opened VmmRuns
  import opened VmmOutcomes
  import opened HeapAreas
  import H = HeapRuns

  /** A request that no range has room for depends on the first range that the manager does not
      refuse to extend, and only if it refuses all of them on a new area. */
  ghost predicate GrowthServed(j: Joint, c: Config, flags: Word)
    requires IsMem(j.k.sp.m) && c.pd < NUM_PAGES
  {
    match H.FirstTrue(Answers(j), 0)
    case Some(i) => Served(j.k, c, Extend(Wrap(j.es[i].start), H.GROWTH))
    case None => Served(j.k, c, Alloc(H.GROWTH, flags))
  }

  /** Growing a range is a legal call. */
  lemma RangeMayExtend(j: Joint, c: Config, i: nat)
    requires JointInv(j, c) && i < |j.es| && j.es[i].end + H.GROWTH < H.LIMIT
    ensures Wrap(j.es[i].start) == j.es[i].start && Legal(j.k, c, Extend(Wrap(j.es[i].start), H.GROWTH))
  {
    hide Inv, H.HeapOk, Owned, IndexOf;
    var m := RangeArea(j, c, i);
  }

  lemma {:induction false} GrowSucceedsIff(j: Joint, c: Config, n: nat, flags: Word, i: nat)
    requires JointInv(j, c) && JointLegal(j, c, Malloc(n, flags)) && H.FirstRange(j.es, n, 0).None?
    requires i <= |j.es| && H.FirstTrue(Answers(j), i) == H.FirstTrue(Answers(j), 0)
    requires IsMem(j.k.sp.m) && c.pd < NUM_PAGES
    ensures Grow(j, c, n, flags, i).Some? <==> GrowthServed(j, c, flags)
    decreases |j.es| - i
  {
    hide JointInv, H.FirstRange, H.NewRange, H.Taken, H.Extended, Step, AnyHit, Served, Legal;
    if i == |j.es| {
      JointHasInv(j, c);
      StepSucceedsIff(j.k, c, Alloc(H.GROWTH, flags));
    } else if AnyHit(j.k.areas, Wrap(j.es[i].end), H.GROWTH) {
      GrowSucceedsIff(j, c, n, flags, i + 1);
    } else {
      JointHasInv(j, c);
      RangeMayExtend(j, c, i);
      StepSucceedsIff(j.k, c, Extend(Wrap(j.es[i].start), H.GROWTH));
    }
  }

  lemma JointHasInv(j: Joint, c: Config)
    requires JointInv(j, c)
    ensures Inv(j.k, c)
  {
  }

  /** kmalloc succeeds iff some range has room or the growth has what it depends on. */
  lemma MallocSucceedsIff(j: Joint, c: Config, n: nat, flags: Word)
    requires JointInv(j, c) && JointLegal(j, c, Malloc(n, flags))
    ensures IsMem(j.k.sp.m) && c.pd < NUM_PAGES
    ensures JointStep(j, c, Malloc(n, flags)).Some? <==> H.FirstRange(j.es, n, 0).Some? || GrowthServed(j, c, flags)
  {
    hide Inv, H.HeapOk, Owned, Grow, GrowthServed, H.Taken, JointLegal;
    InvHasSpace(j.k, c);
    if H.FirstRange(j.es, n, 0).None? { GrowSucceedsIff(j, c, n, flags, 0); }
  }
}
