/** Heap tags in memory: four bytes of size, low byte first, then the used flag; a tag takes
    eight bytes. */
module HeapMemory {
  import opened CString
  import opened KheapBlocks

  function LittleEndian(b0: Byte, b1: Byte, b2: Byte, b3: Byte): nat {
    (b0 as int) + 0x100 * (b1 as int) + 0x1_0000 * (b2 as int) + 0x100_0000 * (b3 as int)
  }

  lemma BytesOf(v: nat)
    requires v < 0x1_0000_0000
    ensures LittleEndian(v % 0x100, v / 0x100 % 0x100, v / 0x100 / 0x100 % 0x100, v / 0x100 / 0x100 / 0x100) == v
  {
  }

  function SizeAt(m: seq<Byte>, p: nat): nat
    requires p + TAG_SIZE <= |m|
  {
    LittleEndian(m[p], m[p + 1], m[p + 2], m[p + 3])
  }

  predicate UsedAt(m: seq<Byte>, p: nat)
    requires p + TAG_SIZE <= |m|
  {
    m[p + 4] != 0
  }

  predicate TagIs(m: seq<Byte>, b: Block) {
    b.addr + TAG_SIZE <= |m| && SizeAt(m, b.addr) == b.size && UsedAt(m, b.addr) == b.used
  }

  /** Memory holds the tag of every block. */
  ghost predicate Tagged(m: seq<Byte>, bs: seq<Block>) {
    forall i | 0 <= i < |bs| :: TagIs(m, bs[i])
  }

  ghost predicate OnlyWithin(m: seq<Byte>, m': seq<Byte>, lo: nat, hi: nat) {
    |m'| == |m| && forall q | 0 <= q < |m| && !(lo <= q < hi) :: m'[q] == m[q]
  }

  lemma TagStays(m: seq<Byte>, m': seq<Byte>, b: Block, lo: nat, hi: nat)
    requires OnlyWithin(m, m', lo, hi) && (b.addr + TAG_SIZE <= lo || hi <= b.addr)
    requires b.addr + TAG_SIZE <= |m|
    ensures TagIs(m, b) == TagIs(m', b)
  {
    hide LittleEndian;
    assert forall q | b.addr <= q < b.addr + TAG_SIZE :: m'[q] == m[q];
  }

  /** Changes beside a chain leave its tags alone. */
  lemma TagsStay(m: seq<Byte>, m': seq<Byte>, bs: seq<Block>, start: nat, end: nat, lo: nat, hi: nat)
    requires Tagged(m, bs) && Layout(bs, start, end) && OnlyWithin(m, m', lo, hi)
    requires end <= lo || hi <= start
    ensures Tagged(m', bs)
  {
    hide Layout, OnlyWithin, SizeAt, UsedAt;
    LayoutBounds(bs, start, end);
    forall i | 0 <= i < |bs| ensures TagIs(m', bs[i]) {
      TagStays(m, m', bs[i], lo, hi);
    }
  }

  /** Changes within the stretch of blocks i..j-1 that leave the tags of `mid` there. */
  lemma TagsReplaced(m: seq<Byte>, m': seq<Byte>, bs: seq<Block>, start: nat, end: nat, i: nat, j: nat, mid: seq<Block>)
    requires Tagged(m, bs) && Layout(bs, start, end) && i <= j <= |bs| && Tagged(m', mid)
    requires OnlyWithin(m, m', Boundary(bs, i, end), Boundary(bs, j, end))
    ensures Tagged(m', bs[..i] + mid + bs[j..])
  {
    hide Layout, OnlyWithin, SizeAt, UsedAt;
    LayoutBounds(bs, start, end);
    forall k | 0 <= k < i || j <= k < |bs| ensures TagIs(m', bs[k]) {
      TagStays(m, m', bs[k], Boundary(bs, i, end), Boundary(bs, j, end));
    }
  }

  /** Writing within a payload leaves every tag of the chain alone. */
  lemma PayloadIsApart(m: seq<Byte>, m': seq<Byte>, bs: seq<Block>, start: nat, end: nat, k: nat)
    requires Tagged(m, bs) && Layout(bs, start, end) && k < |bs|
    requires OnlyWithin(m, m', bs[k].Payload(), bs[k].End())
    ensures Tagged(m', bs)
  {
    hide Layout, OnlyWithin, SizeAt, UsedAt;
    LayoutBounds(bs, start, end);
    forall i | 0 <= i < |bs| ensures TagIs(m', bs[i]) {
      TagStays(m, m', bs[i], bs[k].Payload(), bs[k].End());
    }
  }

  method ReadSize(mem: array<Byte>, p: nat) returns (v: nat)
    requires p + TAG_SIZE <= mem.Length
    ensures v == SizeAt(mem[..], p)
  {
    v := LittleEndian(mem[p], mem[p + 1], mem[p + 2], mem[p + 3]);
  }

  method WriteSize(mem: array<Byte>, p: nat, v: nat)
    requires p + TAG_SIZE <= mem.Length && v < 0x1_0000_0000
    modifies mem
    ensures SizeAt(mem[..], p) == v && UsedAt(mem[..], p) == UsedAt(old(mem[..]), p)
    ensures OnlyWithin(old(mem[..]), mem[..], p, p + 4)
  {
    hide LittleEndian;
    BytesOf(v);
    mem[p], mem[p + 1] := v % 0x100, v / 0x100 % 0x100;
    mem[p + 2], mem[p + 3] := v / 0x100 / 0x100 % 0x100, v / 0x100 / 0x100 / 0x100;
  }

  method WriteUsed(mem: array<Byte>, p: nat, used: bool)
    requires p + TAG_SIZE <= mem.Length
    modifies mem
    ensures SizeAt(mem[..], p) == SizeAt(old(mem[..]), p) && UsedAt(mem[..], p) == used
    ensures OnlyWithin(old(mem[..]), mem[..], p + 4, p + 5)
  {
    mem[p + 4] := if used then 1 else 0;
  }

  /** Carve a request out of the stretch behind a tag. */
  method InitHeapAllocEntry(mem: array<Byte>, tag: nat, n: nat, avail: nat)
    requires tag + TAG_SIZE + avail <= mem.Length <= 0x1_0000_0000 && n + TAG_SIZE < 0x1_0000_0000
    modifies mem
    ensures Tagged(mem[..], Carved(tag, n, avail))
    ensures TagIs(mem[..], Block(tag, TakenSize(n, avail), true))
    ensures OnlyWithin(old(mem[..]), mem[..], tag, tag + TAG_SIZE + avail)
  {
    WriteUsed(mem, tag, true);
    if n + TAG_SIZE < avail {
      WriteSize(mem, tag, n);
      var next := tag + n + TAG_SIZE;
      WriteUsed(mem, next, false);
      WriteSize(mem, next, avail - (n + TAG_SIZE));
    } else {
      WriteSize(mem, tag, avail);
    }
  }

  /** The lowest free tag from `tag` on, or NULL; the bound on `end` comes before the read. */
  method GotoFirstFreeTag(mem: array<Byte>, end: nat, tag: nat, ghost bs: seq<Block>, ghost start: nat, ghost k: nat)
    returns (r: nat)
    requires Layout(bs, start, end) && Tagged(mem[..], bs) && k <= |bs| && tag == Boundary(bs, k, end)
    ensures r == FreeTag(bs, k)
  {
    hide Layout, SizeAt;
    r := tag;
    ghost var i := k;
    LayoutBounds(bs, start, end);
    while r < end && mem[r + 4] != 0
      invariant k <= i <= |bs| && r == Boundary(bs, i, end) && FirstFree(bs, i) == FirstFree(bs, k)
      decreases |bs| - i
    {
      assert TagIs(mem[..], bs[i]);
      LayoutNext(bs, start, end, i);
      var size := ReadSize(mem, r);
      r := r + size + TAG_SIZE;
      i := i + 1;
    }
    if r >= end {
      r := 0;
    }
  }

  /** Search a range from its first free tag on for the first block that fits. */
  method FitFrom(mem: array<Byte>, end: nat, first: nat, n: nat, ghost bs: seq<Block>, ghost start: nat)
    returns (tag: nat, size: nat)
    requires Layout(bs, start, end) && Tagged(mem[..], bs) && first == FreeTag(bs, 0)
    requires bs != [] && bs[0].used
    ensures match FirstFit(bs, n, 0)
            case None => tag == 0
            case Some(k) => tag == bs[k].addr && tag != 0 && size == bs[k].size
  {
    hide Layout, SizeAt;
    LayoutBounds(bs, start, end);
    tag, size := first, 0;
    ghost var k := if FirstFree(bs, 0).Some? then FirstFree(bs, 0).value else |bs|;
    while tag != 0 && tag < end
      invariant k <= |bs| && (tag == Boundary(bs, k, end) || (tag == 0 && k == |bs|))
      invariant forall j | 0 <= j < k :: !Suits(bs[j], n)
      decreases |bs| - k
    {
      assert TagIs(mem[..], bs[k]);
      size := ReadSize(mem, tag);
      if mem[tag + 4] == 0 && size >= n {
        return;
      }
      LayoutNext(bs, start, end, k);
      tag := tag + size + TAG_SIZE;
      k := k + 1;
    }
    tag := 0;
  }

  /** Mark a block free and merge it with a free one behind it; again the bound on `end`
      comes before the read. */
  method ReleaseTag(mem: array<Byte>, end: nat, tag: nat, ghost bs: seq<Block>, ghost start: nat, ghost k: nat)
    requires Layout(bs, start, end) && Tagged(mem[..], bs) && mem.Length == 0x1_0000_0000 && end < mem.Length
    requires k < |bs| && tag == bs[k].addr
    modifies mem
    ensures TagIs(mem[..], Merged(bs, k))
    ensures OnlyWithin(old(mem[..]), mem[..], tag, Boundary(bs, MergeEnd(bs, k), end))
  {
    hide Layout, SizeAt;
    LayoutBounds(bs, start, end);
    LayoutNext(bs, start, end, k);
    assert TagIs(mem[..], bs[k]);
    WriteUsed(mem, tag, false);
    var size := ReadSize(mem, tag);
    var next := tag + size + TAG_SIZE;
    if next < end {
      LayoutNext(bs, start, end, k + 1);
      NextTag(old(mem[..]), mem[..], bs[k + 1], tag);
      if mem[next + 4] == 0 {
        var more := ReadSize(mem, next);
        WriteSize(mem, tag, size + more + TAG_SIZE);
      }
    }
  }

  lemma NextTag(m: seq<Byte>, m': seq<Byte>, b: Block, tag: nat)
    requires TagIs(m, b) && OnlyWithin(m, m', tag + 4, tag + 5) && tag + TAG_SIZE <= b.addr
    ensures TagIs(m', b)
  {
    hide SizeAt, UsedAt, OnlyWithin;
    TagStays(m, m', b, tag + 4, tag + 5);
  }
}
