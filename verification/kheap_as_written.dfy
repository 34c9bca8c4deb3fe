/** The lines of kheap.c that Kheap departs from: what they do, and when that is right. */
module KheapAsWritten {
  import opened Wrappers
  import opened Words
  import opened KheapBlocks
  import opened HeapRuns

  // ----- goto_first_free_tag and kfree look at the tag at range->end (83 and 199)

  /** With every block used, goto_first_free_tag returns `end` if the byte there reads free. */
  function FirstFreeTagWritten(bs: seq<Block>, end: nat, usedAtEnd: bool): nat {
    match FirstFree(bs, 0)
    case Some(k) => bs[k].addr
    case None => if usedAtEnd then 0 else end
  }

  /** find_first_fit does not start at a tag that is NULL or at the end. */
  predicate Starts(tag: nat, end: nat) {
    tag != 0 && tag < end
  }

  /** Whatever lies behind the range, the search starts at the same tag or not at all. */
  lemma FirstFreeTagReadsAlike(bs: seq<Block>, start: nat, end: nat, usedAtEnd: bool)
    requires Layout(bs, start, end)
    ensures var t := FirstFreeTagWritten(bs, end, usedAtEnd);
            && Starts(t, end) == Starts(FreeTag(bs, 0), end)
            && (Starts(t, end) ==> t == FreeTag(bs, 0))
  {
  }

  /** Freeing the last block merges it with whatever is found behind the range. */
  function ReleaseWritten(bs: seq<Block>, k: nat, usedAtEnd: bool, sizeAtEnd: Word): seq<Block>
    requires k < |bs|
  {
    if k + 1 == |bs| && !usedAtEnd
    then bs[..k] + [Block(bs[k].addr, Wrap(bs[k].size + sizeAtEnd + TAG_SIZE), false)]
    else Release(bs, k)
  }

  /** The chain stays a partition iff the block is not the last one, or the foreign tag reads
      used, or its size wraps the sum around to the same value. */
  lemma ReleaseWrittenKeepsIff(bs: seq<Block>, start: nat, end: nat, k: nat, usedAtEnd: bool, sizeAtEnd: Word)
    requires Layout(bs, start, end) && end < LIMIT && k < |bs|
    ensures Layout(ReleaseWritten(bs, k, usedAtEnd, sizeAtEnd), start, end)
            <==> k + 1 < |bs| || usedAtEnd || sizeAtEnd == LIMIT - TAG_SIZE
  {
    hide Layout;
    ReleaseKeepsLayout(bs, start, end, k);
    if k + 1 == |bs| && !usedAtEnd {
      var r := ReleaseWritten(bs, k, usedAtEnd, sizeAtEnd);
      LayoutBounds(bs, start, end);
      LayoutNext(bs, start, end, k);
      if sizeAtEnd == LIMIT - TAG_SIZE {
        assert Wrap(bs[k].size + sizeAtEnd + TAG_SIZE) == bs[k].size;
        assert r == Release(bs, k);
      } else if Layout(r, start, end) {
        LayoutNext(r, start, end, k);
      }
    }
  }

  // ----- init_new_heap_range always assumes HEAP_SIZE bytes (53)

  function NewRangeWritten(start: nat): seq<Block> {
    Carved(start, RANGE_SIZE, HEAP_SIZE - TAG_SIZE)
  }

  /** Right for init_kheap, wrong for the two pages of a range added later. */
  lemma NewRangeWrittenFitsIff(start: nat, end: nat)
    requires start <= end
    ensures Layout(NewRangeWritten(start), start, end) <==> end - start == HEAP_SIZE
  {
    CarvedLayout(start, RANGE_SIZE, HEAP_SIZE - TAG_SIZE);
    var c := NewRangeWritten(start);
    if Layout(c, start, end) {
      LayoutNext(c, start, end, 0);
      LayoutNext(c, start, end, 1);
    }
  }

  // ----- the header's limit on requests (comment at 7)

  /** The limit that the comment promises. */
  const PROMISED := GROWTH - TAG_SIZE - RANGE_SIZE

  /** A range of its own has two tags beside the descriptor, one more than the comment counts:
      a promised request can be answered with too small a block, iff it exceeds 8160 bytes. */
  lemma PromiseHoldsIff(es: seq<Extent>, n: nat, answers: seq<bool>, spot: nat)
    requires |answers| == |es| && n <= PROMISED
    ensures Granted(es, n, answers, spot).size >= n
            <==> !NeedsRange(es, n, answers) || n <= PROMISED - TAG_SIZE
  {
    GrantedServesIff(es, n, answers, spot);
  }

  // ----- init_new_heap_range does not link the range it makes (64-67)

  /** A range that is not in the list is found neither by the search nor by kfree: freeing what
      was allocated from it does nothing. */
  lemma UnlinkedIsNeverFreed(es: seq<Extent>, n: nat, answers: seq<bool>, spot: nat)
    requires HeapOk(es) && RepliesOk(es, n, answers, spot) && NeedsRange(es, n, answers)
    ensures var addr := Granted(es, n, answers, spot).Payload();
            && Freeable(es, addr) && Freed(es, addr) == es
            && IsLive(Allocate(es, n, answers, spot).0, Granted(es, n, answers, spot))
  {
    AllocateAddsLive(es, n, answers, spot, Granted(es, n, answers, spot));
  }

  // ----- get_more_mem writes through `range` once its loop has ended (121)

  /** A result, or an access through a null pointer. */
  datatype Outcome<+T> = Result(value: T) | NullAccess

  /** The loop over the ranges: the one it returned for, or None when `range` ran off the list
      and is NULL. */
  function RangeOf(answers: seq<bool>, i: nat): Option<nat>
    decreases |answers| - i
  {
    if i >= |answers| then None
    else if !answers[i] then RangeOf(answers, i + 1)
    else Some(i)
  }

  /** kmalloc: past the loop the new range gets its block, but then `range->start` is read. */
  function Kmalloc(es: seq<Extent>, n: nat, answers: seq<bool>, spot: nat): Outcome<(seq<Extent>, nat)>
    requires |answers| == |es|
  {
    match FirstRange(es, n, 0)
    case Some(i) =>
      var k := FirstFit(es[i].blocks, n, 0).value;
      Result((es[i := Taken(es[i], k, n)], es[i].blocks[k].addr))
    case None =>
      match RangeOf(answers, 0)
      case None => NullAccess
      case Some(i) => if i < |es| then Result((es[i := Extended(es[i], n)], es[i].end)) else NullAccess
  }

  lemma {:induction false} RangeOfIs(answers: seq<bool>, i: nat)
    requires i <= |answers|
    ensures RangeOf(answers, i) == FirstTrue(answers, i)
    decreases |answers| - i
  {
    if i < |answers| && !answers[i] { RangeOfIs(answers, i + 1); }
  }

  /** As written kmalloc serves a request iff a range has room for it or can be extended; every
      request that needs a new range reads through a null pointer. */
  lemma KmallocAgreesIff(es: seq<Extent>, n: nat, answers: seq<bool>, spot: nat)
    requires |answers| == |es|
    ensures Kmalloc(es, n, answers, spot) == Result(Allocate(es, n, answers, spot)) <==> !NeedsRange(es, n, answers)
    ensures Kmalloc(es, n, answers, spot) == NullAccess <==> NeedsRange(es, n, answers)
  {
    RangeOfIs(answers, 0);
  }
}
