/** The area list as the kernel keeps it: nodes linked highest address first, walked and
    relinked in place. */
module AreaLists {
  import opened Words
  import opened PagingFormat
  import opened Areas

  class AreaNode {
    var startAddress: Word
    var length: Word
    var flags: Word
    var nextArea: AreaNode?

    /** init_dynamic_alloc_area: the length is rounded up to whole pages. */
    constructor (start: Word, size: Word, flags: Word)
      ensures Value() == Area(start, NumPagesNeeded(size) * PAGE_SIZE, flags) && nextArea == null
    {
      startAddress := start;
      length := NumPagesNeeded(size) * PAGE_SIZE;
      this.flags := flags;
      nextArea := null;
    }

    ghost function Value(): Area
      reads this
    {
      Area(startAddress, length, flags)
    }
  }

  class AreaList {
    // allocated_areas_list
    var head: AreaNode?
    // dynamic_alloc_area_bottom and dynamic_alloc_area_top
    const bottom: Word
    const top: Word
    // the nodes in list order, and what they say
    ghost var nodes: seq<AreaNode>
    ghost var areas: seq<Area>

    ghost function At(i: nat): AreaNode?
      reads this
    {
      if i < |nodes| then nodes[i] else null
    }

    ghost predicate Valid()
      reads this, nodes
    {
      && |areas| == |nodes| && head == At(0)
      && (forall i {:trigger nodes[i].nextArea} | 0 <= i < |nodes| :: nodes[i].nextArea == At(i + 1))
      && (forall i {:trigger areas[i]} | 0 <= i < |areas| :: areas[i] == nodes[i].Value())
      && (forall i, j | 0 <= i < j < |nodes| :: nodes[i] != nodes[j])
    }

    constructor (bottom: Word, top: Word)
      ensures Valid() && areas == []
      ensures this.bottom == bottom && this.top == top
    {
      this.bottom, this.top := bottom, top;
      head, nodes, areas := null, [], [];
    }

    method FindVmAreaStartingAt(va: Word) returns (n: AreaNode?, ghost k: nat)
      requires Valid()
      ensures n == null <==> forall i | 0 <= i < |areas| :: areas[i].start != va
      ensures n != null ==> k < |nodes| && n == nodes[k] && areas[k].start == va
                            && forall i | 0 <= i < k :: areas[i].start != va
    {
      n := head;
      k := 0;
      while n != null
        invariant 0 <= k <= |nodes| && n == At(k)
        invariant forall i | 0 <= i < k :: areas[i].start != va
        decreases |nodes| - k
      {
        if n.startAddress == va {
          assert areas[k].start == va;
          return;
        }
        n := n.nextArea;
        k := k + 1;
      }
    }

    method VirtRegionExistsInArea(start: Word, size: Word) returns (n: AreaNode?)
      requires Valid()
      ensures n == null <==> forall i | 0 <= i < |areas| :: !Hits(areas[i], start, size)
      ensures n != null ==> n in nodes && Hits(n.Value(), start, size)
    {
      n := head;
      var end := Wrap(start + size);
      ghost var k := 0;
      while n != null
        invariant 0 <= k <= |nodes| && n == At(k)
        invariant forall i | 0 <= i < k :: !Hits(areas[i], start, size)
        decreases |nodes| - k
      {
        assert n.Value() == areas[k];
        var areaEnd := Wrap(n.startAddress + n.length);
        if VirtyAddyIsInArea(n.startAddress, areaEnd, start) {
          assert Hits(areas[k], start, size);
          return;
        } else if VirtyAddyIsInArea(n.startAddress, areaEnd, end) {
          assert Hits(areas[k], start, size);
          return;
        } else if VirtyAddyIsInArea(start, end, n.startAddress) {
          assert Hits(areas[k], start, size);
          return;
        }
        n := n.nextArea;
        k := k + 1;
      }
    }

    /** The loop compares each area with its neighbour below it (the source's line 258
        reads one area further down; see `AsWritten.FirstAlloc`). */
    method FindFirstAlloc(size: Word) returns (r: Word)
      requires Valid()
      ensures r == FirstAlloc(areas, bottom, top, size)
    {
      if head == null {
        return Wrap(top - NumPagesNeeded(size) * PAGE_SIZE);
      }
      assert head.Value() == areas[0];
      var headEnd := Wrap(head.startAddress + head.length);
      if Wrap(top - size) >= headEnd {
        return Wrap(top - size);
      }
      r := FindGap(size);
    }

    /** The loop over the gaps, and the room below the tail. */
    method FindGap(size: Word) returns (r: Word)
      requires Valid() && head != null
      ensures |areas| > 0 && r == GapScan(areas, bottom, size, 0)
    {
      var prev: AreaNode := head;
      var next := head.nextArea;
      ghost var k := 0;
      while next != null
        invariant 0 <= k < |nodes| && prev == nodes[k] && next == At(k + 1)
        invariant GapScan(areas, bottom, size, 0) == GapScan(areas, bottom, size, k)
        decreases |nodes| - k
      {
        assert prev.Value() == areas[k] && next.Value() == areas[k + 1];
        var nextEnd := Wrap(next.startAddress + next.length);
        if Wrap(prev.startAddress - nextEnd) >= size {
          var potential := Wrap(prev.startAddress - size);
          if potential >= nextEnd {
            return potential;
          }
        }
        prev := next;
        next := next.nextArea;
        k := k + 1;
      }
      assert prev.Value() == areas[k];
      var potential := Wrap(prev.startAddress - size);
      r := if potential >= bottom then potential else 0;
    }

    /** Link a node in before the first area that starts below it (the source's lines 313
        and 319 look one area too far and drop the rest of the list; see
        `AsWritten.Insert`). */
    method InsertNewVmArea(n: AreaNode)
      requires Valid() && n !in nodes && n.nextArea == null
      requires Descending(areas)
      modifies this, nodes, n`nextArea
      ensures Valid() && areas == Insert(old(areas), n.Value())
      ensures forall x | x in nodes :: x in old(nodes) || x == n
    {
      if head == null {
        head := n;
        nodes, areas := [n], [n.Value()];
        return;
      }
      if n.startAddress > head.startAddress {
        n.nextArea := head;
        head := n;
        nodes, areas := [n] + nodes, [n.Value()] + areas;
        return;
      }
      InsertAfterHead(n);
    }

    /** The search for the neighbour above and the link step. The last branch of the source,
        for an area that begins where its lower neighbour ends, is never taken. */
    method InsertAfterHead(n: AreaNode)
      requires Valid() && head != null && n !in nodes && n.startAddress <= head.startAddress
      requires Descending(areas)
      modifies nodes, n`nextArea, this`nodes, this`areas
      ensures Valid() && areas == Insert(old(areas), n.Value())
      ensures forall x | x in nodes :: x in old(nodes) || x == n
    {
      var prev, k := FindNeighbour(n);
      InsertAt(areas, n.Value(), k + 1);
      LinkAfter(prev, n, k);
    }

    /** The last node that does not start below n. */
    method FindNeighbour(n: AreaNode) returns (prev: AreaNode, ghost k: nat)
      requires Valid() && head != null && n.startAddress <= head.startAddress && Descending(areas)
      ensures k < |nodes| && prev == nodes[k] && forall i | 0 <= i <= k :: n.startAddress <= areas[i].start
      ensures k + 1 < |areas| ==> n.startAddress > areas[k + 1].start
    {
      prev := head;
      var next := head.nextArea;
      k := 0;
      while next != null
        invariant 0 <= k < |nodes| && prev == nodes[k] && next == At(k + 1)
        invariant forall i | 0 <= i <= k :: n.startAddress <= areas[i].start
        decreases |nodes| - k
      {
        assert next.Value() == areas[k + 1];
        var nextEnd := Wrap(next.startAddress + next.length);
        if n.startAddress > next.startAddress {
          break;
        } else if n.startAddress < nextEnd {
          prev := next;
          next := next.nextArea;
          k := k + 1;
        } else {
          assert false;
        }
      }
    }

    /** Link n in behind the k-th node. */
    method LinkAfter(prev: AreaNode, n: AreaNode, ghost k: nat)
      requires Valid() && n !in nodes && k < |nodes| && prev == nodes[k]
      modifies prev`nextArea, n`nextArea, this`nodes, this`areas
      ensures Valid()
      ensures nodes == old(nodes)[..k + 1] + [n] + old(nodes)[k + 1..]
      ensures areas == old(areas)[..k + 1] + [n.Value()] + old(areas)[k + 1..]
    {
      n.nextArea := prev.nextArea;
      prev.nextArea := n;
      nodes := nodes[..k + 1] + [n] + nodes[k + 1..];
      areas := areas[..k + 1] + [n.Value()] + areas[k + 1..];
    }

    method GetVmAreaPrior(n: AreaNode, ghost k: nat) returns (prev: AreaNode?)
      requires Valid() && k < |nodes| && n == nodes[k]
      ensures prev == if k == 0 then null else nodes[k - 1]
    {
      prev := head;
      ghost var i := 0;
      while prev != null
        invariant 0 <= i <= |nodes| && prev == At(i)
        invariant k > 0 ==> i < k
        decreases |nodes| - i
      {
        if prev.nextArea == n {
          return;
        }
        prev := prev.nextArea;
        i := i + 1;
      }
    }

    /** Unlink a node. The source refuses to unlink the head (line 498); here the head is
        replaced by its successor, see `AsWritten.Remove`. */
    method Unlink(n: AreaNode, ghost k: nat)
      requires Valid() && k < |nodes| && n == nodes[k]
      modifies this, nodes
      ensures Valid() && areas == Without(old(areas), k)
      ensures nodes == old(nodes)[..k] + old(nodes)[k + 1..]
    {
      var prev := GetVmAreaPrior(n, k);
      if prev == null {
        head := n.nextArea;
        nodes, areas := nodes[1..], areas[1..];
      } else {
        LinkPast(prev, n, k);
      }
    }

    /** Link the node before the k-th to the one behind it. */
    method LinkPast(prev: AreaNode, n: AreaNode, ghost k: nat)
      requires Valid() && 0 < k < |nodes| && prev == nodes[k - 1] && n == nodes[k]
      modifies prev`nextArea, this`nodes, this`areas
      ensures Valid() && areas == Without(old(areas), k)
      ensures nodes == old(nodes)[..k] + old(nodes)[k + 1..]
    {
      prev.nextArea := n.nextArea;
      nodes := nodes[..k] + nodes[k + 1..];
      areas := areas[..k] + areas[k + 1..];
    }

    /** `length += extension_size` on a node in the list. */
    method Grow(n: AreaNode, extra: Word, ghost k: nat)
      requires Valid() && k < |nodes| && n == nodes[k] && n.length + extra < 0x1_0000_0000
      modifies n`length, this`areas
      ensures Valid() && areas == Extended(old(areas), k, extra)
    {
      n.length := n.length + extra;
      areas := areas[k := areas[k].(length := n.length)];
    }
  }

  /** The place is determined by its neighbours. */
  lemma InsertAt(s: seq<Area>, a: Area, k: nat)
    requires k <= |s| && (forall i | 0 <= i < k :: a.start <= s[i].start)
    requires k < |s| ==> a.start > s[k].start
    ensures Insert(s, a) == s[..k] + [a] + s[k..]
  {
    var m := InsertSplits(s, a);
    assert !(m < k) && !(k < m);
  }
}
