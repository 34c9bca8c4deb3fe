/** The kernel heap as a sequence of blocks: what splitting, first fit and merging do to the
    tag chain of one range. */
module KheapBlocks {
  import opened Wrappers

  const TAG_SIZE := 8

  /** A tag at `addr` with `size` bytes of payload behind it. */
  datatype Block = Block(addr: nat, size: nat, used: bool) {
    function Payload(): nat { addr + TAG_SIZE }

    function End(): nat { addr + TAG_SIZE + size }
  }

  /** Stepping from tag to tag leads from start exactly to end. */
  ghost predicate Layout(bs: seq<Block>, start: nat, end: nat) {
    if bs == [] then start == end
    else bs[0].addr == start && Layout(bs[1..], bs[0].End(), end)
  }

  lemma {:induction false} LayoutBounds(bs: seq<Block>, start: nat, end: nat)
    requires Layout(bs, start, end)
    ensures start <= end
    ensures forall i | 0 <= i < |bs| :: start <= bs[i].addr && bs[i].End() <= end
    ensures forall i, j | 0 <= i < j < |bs| :: bs[i].End() <= bs[j].addr
  {
    if bs != [] {
      var rest := bs[1..];
      LayoutBounds(rest, bs[0].End(), end);
      assert forall i | 0 < i < |bs| :: bs[i] == rest[i - 1];
    }
  }

  lemma {:induction false} LayoutJoin(a: seq<Block>, b: seq<Block>, start: nat, mid: nat, end: nat)
    requires Layout(a, start, mid) && Layout(b, mid, end)
    ensures Layout(a + b, start, end)
  {
    if a == [] {
      assert a + b == b;
    } else {
      assert (a + b)[1..] == a[1..] + b;
      LayoutJoin(a[1..], b, a[0].End(), mid, end);
    }
  }

  /** The address at which block k begins, or the end behind the last one. */
  function Boundary(bs: seq<Block>, k: nat, end: nat): nat
    requires k <= |bs|
  {
    if k < |bs| then bs[k].addr else end
  }

  lemma {:induction false} LayoutSplit(bs: seq<Block>, start: nat, end: nat, k: nat)
    requires Layout(bs, start, end) && k <= |bs|
    ensures Layout(bs[..k], start, Boundary(bs, k, end)) && Layout(bs[k..], Boundary(bs, k, end), end)
  {
    if k == 0 {
      assert bs[0..] == bs;
    } else {
      LayoutSplit(bs[1..], bs[0].End(), end, k - 1);
      assert bs[1..][..k - 1] == bs[..k][1..];
      assert bs[1..][k - 1..] == bs[k..];
    }
  }

  lemma LayoutNext(bs: seq<Block>, start: nat, end: nat, k: nat)
    requires Layout(bs, start, end) && k < |bs|
    ensures bs[k].End() == Boundary(bs, k + 1, end)
  {
    LayoutSplit(bs, start, end, k);
    assert bs[k..][1..] == bs[k + 1..];
    assert Layout(bs[k + 1..], bs[k].End(), end);
  }

  /** Replacing blocks i..j-1 by others over the same stretch keeps the chain. */
  lemma LayoutReplace(bs: seq<Block>, start: nat, end: nat, i: nat, j: nat, mid: seq<Block>)
    requires Layout(bs, start, end) && i <= j <= |bs|
    requires Layout(mid, Boundary(bs, i, end), Boundary(bs, j, end))
    ensures Layout(bs[..i] + mid + bs[j..], start, end)
  {
    LayoutSplit(bs, start, end, i);
    LayoutSplit(bs, start, end, j);
    LayoutJoin(bs[..i], mid, start, Boundary(bs, i, end), Boundary(bs, j, end));
    LayoutJoin(bs[..i] + mid, bs[j..], start, Boundary(bs, j, end), end);
  }

  function TotalPayload(bs: seq<Block>): nat {
    if bs == [] then 0 else bs[0].size + TotalPayload(bs[1..])
  }

  /** Payloads and tags fill the range. */
  lemma {:induction false} PayloadsAndTags(bs: seq<Block>, start: nat, end: nat)
    requires Layout(bs, start, end)
    ensures TotalPayload(bs) + TAG_SIZE * |bs| == end - start
  {
    if bs != [] { PayloadsAndTags(bs[1..], bs[0].End(), end); }
  }

  // ----- live blocks

  function Live(bs: seq<Block>): set<Block> {
    set b | b in bs && b.used
  }

  /** Live blocks never overlap, tags included. */
  lemma LiveAreDisjoint(bs: seq<Block>, start: nat, end: nat, a: Block, b: Block)
    requires Layout(bs, start, end) && a in Live(bs) && b in Live(bs) && a != b
    ensures start <= a.addr && a.End() <= end && (a.End() <= b.addr || b.End() <= a.addr)
  {
    LayoutBounds(bs, start, end);
    var i :| 0 <= i < |bs| && bs[i] == a;
    var j :| 0 <= j < |bs| && bs[j] == b;
    assert i < j || j < i;
  }

  // ----- searching

  function FirstFree(bs: seq<Block>, from: nat): (r: Option<nat>)
    requires from <= |bs|
    ensures r.Some? ==> from <= r.value < |bs| && !bs[r.value].used
                        && forall i | from <= i < r.value :: bs[i].used
    ensures r.None? ==> forall i | from <= i < |bs| :: bs[i].used
    decreases |bs| - from
  {
    if from == |bs| then None
    else if !bs[from].used then Some(from)
    else FirstFree(bs, from + 1)
  }

  /** What first_free_tag holds: the lowest free tag from block k on, or NULL. */
  function FreeTag(bs: seq<Block>, k: nat): nat
    requires k <= |bs|
  {
    match FirstFree(bs, k)
    case None => 0
    case Some(j) => bs[j].addr
  }

  predicate Suits(b: Block, n: nat) {
    !b.used && b.size >= n
  }

  function FirstFit(bs: seq<Block>, n: nat, from: nat): (r: Option<nat>)
    requires from <= |bs|
    ensures r.Some? ==> from <= r.value < |bs| && Suits(bs[r.value], n)
                        && forall i | from <= i < r.value :: !Suits(bs[i], n)
    ensures r.None? ==> forall i | from <= i < |bs| :: !Suits(bs[i], n)
    decreases |bs| - from
  {
    if from == |bs| then None
    else if Suits(bs[from], n) then Some(from)
    else FirstFit(bs, n, from + 1)
  }

  // ----- taking and releasing a block

  /** What init_heap_alloc_entry leaves of a stretch with `avail` bytes behind its tag: the
      requested block and a free rest, or the whole stretch when the rest would hold a tag
      at most. */
  function Carved(addr: nat, n: nat, avail: nat): seq<Block> {
    if n + TAG_SIZE < avail
    then [Block(addr, n, true), Block(addr + TAG_SIZE + n, avail - (n + TAG_SIZE), false)]
    else [Block(addr, avail, true)]
  }

  function Take(bs: seq<Block>, k: nat, n: nat): seq<Block>
    requires k < |bs|
  {
    bs[..k] + Carved(bs[k].addr, n, bs[k].size) + bs[k + 1..]
  }

  /** The size that a taken block records. */
  function TakenSize(n: nat, avail: nat): nat {
    if n + TAG_SIZE < avail then n else avail
  }

  /** The block that freeing block k leaves: merged with the one behind if that is free. */
  function Merged(bs: seq<Block>, k: nat): Block
    requires k < |bs|
  {
    if Merges(bs, k)
    then Block(bs[k].addr, bs[k].size + bs[k + 1].size + TAG_SIZE, false)
    else Block(bs[k].addr, bs[k].size, false)
  }

  predicate Merges(bs: seq<Block>, k: nat)
    requires k < |bs|
  {
    k + 1 < |bs| && !bs[k + 1].used
  }

  function MergeEnd(bs: seq<Block>, k: nat): (m: nat)
    requires k < |bs|
    ensures k < m <= |bs|
  {
    if Merges(bs, k) then k + 2 else k + 1
  }

  function Release(bs: seq<Block>, k: nat): seq<Block>
    requires k < |bs|
  {
    bs[..k] + [Merged(bs, k)] + bs[MergeEnd(bs, k)..]
  }

  lemma TakeKeepsLayout(bs: seq<Block>, start: nat, end: nat, k: nat, n: nat)
    requires Layout(bs, start, end) && k < |bs|
    ensures Layout(Take(bs, k, n), start, end)
  {
    LayoutNext(bs, start, end, k);
    CarvedLayout(bs[k].addr, n, bs[k].size);
    LayoutReplace(bs, start, end, k, k + 1, Carved(bs[k].addr, n, bs[k].size));
  }

  lemma CarvedLayout(addr: nat, n: nat, avail: nat)
    ensures Layout(Carved(addr, n, avail), addr, addr + TAG_SIZE + avail)
  {
    if n + TAG_SIZE < avail {
      var c := Carved(addr, n, avail);
      assert c[1..] == [c[1]] && c[1..][1..] == [];
    }
  }

  lemma ReleaseKeepsLayout(bs: seq<Block>, start: nat, end: nat, k: nat)
    requires Layout(bs, start, end) && k < |bs|
    ensures Layout(Release(bs, k), start, end)
  {
    LayoutNext(bs, start, end, k);
    if Merges(bs, k) { LayoutNext(bs, start, end, k + 1); }
    LayoutReplace(bs, start, end, k, MergeEnd(bs, k), [Merged(bs, k)]);
  }

  /** Taking a free block adds exactly one live block, of the requested size or up to a tag
      more; all live blocks stay where they are. */
  lemma TakeAddsLive(bs: seq<Block>, k: nat, n: nat)
    requires k < |bs| && !bs[k].used
    ensures bs[k].size >= n ==> n <= TakenSize(n, bs[k].size) <= n + TAG_SIZE
    ensures Live(Take(bs, k, n)) == Live(bs) + {Block(bs[k].addr, TakenSize(n, bs[k].size), true)}
  {
    var c, r := Carved(bs[k].addr, n, bs[k].size), Take(bs, k, n);
    assert bs == bs[..k] + [bs[k]] + bs[k + 1..];
    assert forall b :: b in r <==> b in bs[..k] || b in c || b in bs[k + 1..];
    assert forall b :: b in bs <==> b in bs[..k] || b == bs[k] || b in bs[k + 1..];
    assert forall b :: b in c && b.used <==> b == c[0];
  }

  lemma TakeAt(bs: seq<Block>, k: nat, n: nat)
    requires k < |bs|
    ensures k < |Take(bs, k, n)| && Take(bs, k, n)[k] == Block(bs[k].addr, TakenSize(n, bs[k].size), true)
  {
  }

  /** The first free block stays the first one unless it is the one that is taken; then the
      search goes on behind it. */
  lemma FirstFreeOfTake(bs: seq<Block>, k: nat, n: nat)
    requires k < |bs| && !bs[k].used
    ensures FreeTag(Take(bs, k, n), 0)
            == if FirstFree(bs, 0) == Some(k) then FreeTag(Take(bs, k, n), k + 1) else FreeTag(bs, 0)
  {
    var r := Take(bs, k, n);
    assert r[..k] == bs[..k] && r[k].used;
    assert forall i | 0 <= i < k :: r[i] == bs[i];
  }

  lemma LiveJoin(a: seq<Block>, b: seq<Block>)
    ensures Live(a + b) == Live(a) + Live(b)
  {
    assert forall x :: x in a + b <==> x in a || x in b;
  }

  /** Replacing bs[k..m], where at most bs[k] is live, by free blocks drops that one. */
  lemma LiveWithout(bs: seq<Block>, k: nat, m: nat, mid: seq<Block>)
    requires k < m <= |bs| && Live(bs[k..m]) <= {bs[k]} && Live(mid) == {}
    requires bs[k] !in bs[..k] && bs[k] !in bs[m..]
    ensures Live(bs[..k] + mid + bs[m..]) == Live(bs) - {bs[k]}
  {
    LiveJoin(bs[..k] + mid, bs[m..]);
    LiveJoin(bs[..k], mid);
    LiveJoin(bs[..k] + bs[k..m], bs[m..]);
    LiveJoin(bs[..k], bs[k..m]);
    assert bs == bs[..k] + bs[k..m] + bs[m..];
  }

  /** Releasing a block removes exactly that one from the live blocks. */
  lemma ReleaseRemovesLive(bs: seq<Block>, start: nat, end: nat, k: nat)
    requires Layout(bs, start, end) && k < |bs|
    ensures Live(Release(bs, k)) == Live(bs) - {bs[k]}
  {
    hide Layout;
    LayoutBounds(bs, start, end);
    var m := MergeEnd(bs, k);
    assert bs[k] !in bs[..k] && bs[k] !in bs[m..];
    assert bs[k..m] == if Merges(bs, k) then [bs[k], bs[k + 1]] else [bs[k]];
    LiveWithout(bs, k, m, [Merged(bs, k)]);
  }

  /** Freeing right after a splitting allocation restores the chain exactly. */
  lemma TakeThenReleaseSplit(bs: seq<Block>, k: nat, n: nat)
    requires k < |bs| && !bs[k].used && n + TAG_SIZE < bs[k].size
    ensures Release(Take(bs, k, n), k) == bs
  {
    var t := Take(bs, k, n);
    assert t[k] == Block(bs[k].addr, n, true) && !t[k + 1].used;
    assert t[..k] == bs[..k] && t[k + 2..] == bs[k + 1..];
    assert bs == bs[..k] + [bs[k]] + bs[k + 1..];
  }

  /** If the whole block was taken, the chain is restored up to merging with a free block
      behind it. */
  lemma TakeThenReleaseWhole(bs: seq<Block>, k: nat, n: nat)
    requires k < |bs| && !bs[k].used && n + TAG_SIZE >= bs[k].size
    ensures Release(Take(bs, k, n), k) == Release(bs, k)
    ensures Release(bs, k) == bs <==> k + 1 == |bs| || bs[k + 1].used
  {
    var t := Take(bs, k, n);
    assert t[..k] == bs[..k] && t[k + 1..] == bs[k + 1..] && t[k] == Block(bs[k].addr, bs[k].size, true);
    if k + 1 < |bs| && !bs[k + 1].used {
      assert t[k + 2..] == bs[k + 2..];
      assert |Release(bs, k)| == |bs| - 1;
    } else {
      assert bs == bs[..k] + [bs[k]] + bs[k + 1..];
    }
  }
}
