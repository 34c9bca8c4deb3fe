/** The frames that allocations of a single frame hand out, one after the other. */
module FrameSupply {
  import opened Wrappers
  import opened Pmm

  /** Such an allocation can return f: it is free, and the bit behind it is clear too. */
  ghost predicate CanTake(used: set<nat>, f: nat) {
    f !in used && f + 1 !in used
  }

  ghost function Takeable(used: set<nat>, total: nat): set<nat> {
    set f: nat | f < total && CanTake(used, f)
  }

  ghost function Least(S: set<nat>): (x: nat)
    requires S != {}
    ensures x in S && forall y | y in S :: x <= y
    decreases |S|
  {
    var y :| y in S;
    assert forall z | z in S :: z == y || z in S - {y};
    if S - {y} == {} then y
    else
      var x := Least(S - {y});
      if y < x then y else x
  }

  /** S without its i least elements. */
  ghost function Rest(S: set<nat>, i: nat): (R: set<nat>)
    requires i <= |S|
    ensures R <= S && |R| == |S| - i
  {
    if i == 0 then S else Rest(S, i - 1) - {Least(Rest(S, i - 1))}
  }

  /** The element of S with i smaller ones. */
  ghost function Nth(S: set<nat>, i: nat): nat
    requires i < |S|
  {
    Least(Rest(S, i))
  }

  lemma {:induction false} RestIsAbove(S: set<nat>, i: nat)
    requires i < |S|
    ensures forall x | x in S :: x in Rest(S, i) <==> x >= Nth(S, i)
  {
    if i > 0 { RestIsAbove(S, i - 1); }
  }

  /** It is that: exactly i elements of S are smaller. */
  lemma NthIs(S: set<nat>, i: nat)
    requires i < |S|
    ensures Nth(S, i) in S && |set x | x in S && x < Nth(S, i)| == i
  {
    RestIsAbove(S, i);
    var below := set x | x in S && x < Nth(S, i);
    assert S == below + Rest(S, i);
    assert below !! Rest(S, i);
  }

  lemma FirstFitOfOne(used: set<nat>, total: nat, r: Option<nat>)
    requires r == FirstFit(used, total, 1)
    ensures r.None? <==> Takeable(used, total) == {}
    ensures r.Some? ==> r.value == Least(Takeable(used, total))
  {
    if r.None? {
      forall i: nat | i < total ensures i !in Takeable(used, total) {
        assert !RunAt(used, total, 1, i);
      }
    } else {
      assert r.value in Takeable(used, total);
      assert RunAt(used, total, 1, Least(Takeable(used, total)));
    }
  }

  /** An allocation of one frame returns the least frame it can, and that frame alone can not be
      returned any more: the next allocations go through the others in ascending order. */
  lemma TakeOne(used: set<nat>, total: nat)
    ensures FirstFit(used, total, 1)
            == if Takeable(used, total) == {} then None else Some(Least(Takeable(used, total)))
    ensures Takeable(used, total) != {} ==>
              Takeable(used + {Least(Takeable(used, total))}, total)
              == Takeable(used, total) - {Least(Takeable(used, total))}
  {
    FirstFitOfOne(used, total, FirstFit(used, total, 1));
    var S := Takeable(used, total);
    if S != {} {
      var f := Least(S);
      forall g: nat | g < total ensures g in Takeable(used + {f}, total) <==> g in S - {f} {
        assert g in S && g + 1 == f ==> f <= g;
      }
    }
  }

  /** A run that is found holds as many such frames as it is long. */
  lemma RunIsTakeable(used: set<nat>, total: nat, n: nat)
    requires FirstFit(used, total, n).Some?
    ensures var f := FirstFit(used, total, n).value;
            n > 0 ==> Frames(f, n) <= Takeable(used, total) && n <= |Takeable(used, total)|
  {
    var f := FirstFit(used, total, n).value;
    if n > 0 {
      assert RunAt(used, total, n, f);
      FrameCount(f, n);
      SubsetSize(Frames(f, n), Takeable(used, total));
    }
  }

  lemma FrameCount(f: nat, n: nat)
    ensures |Frames(f, n)| == n
  {
    if n > 0 { FrameCount(f, n - 1); }
  }

  lemma SubsetSize(A: set<nat>, B: set<nat>)
    requires A <= B
    ensures |A| <= |B|
  {
    assert B == A + (B - A);
  }
}
