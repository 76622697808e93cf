/** The heap's two trees of free units: dirty ones still backed by memory, and released
    ones. Garbage is released largest run first. */
module FreeRegions {
  import opened Common
  import opened Intervals
  import opened Treap
  import opened TreeOps
  import opened TreeSlots
  import opened BestFit
  import opened CartesianTree
  import opened FreeRegionProtocol

  const UNIT_SIZE: nat := 4096

  // ---------- how many runs must go ----------

  /** The blocks in a collection of runs. */
  ghost function CountSum(s: set<Interval>): nat {
    if s == {} then 0 else
      var n :| n in s;
      n.count + CountSum(s - {n})
  }

  lemma {:induction false} CountSumRemove(s: set<Interval>, n: Interval)
    requires n in s
    ensures CountSum(s) == n.count + CountSum(s - {n})
  {
    var m :| m in s && CountSum(s) == m.count + CountSum(s - {m});
    if m != n {
      CountSumRemove(s - {m}, n);
      CountSumRemove(s - {n}, m);
      assert s - {m} - {n} == s - {n} - {m};
    }
  }

  lemma {:induction false} CountSumUnion(a: set<Interval>, b: set<Interval>)
    requires a !! b
    ensures CountSum(a + b) == CountSum(a) + CountSum(b)
  {
    if a == {} {
      assert a + b == b;
    } else {
      var n :| n in a;
      CountSumRemove(a, n);
      CountSumRemove(a + b, n);
      assert a + b - {n} == (a - {n}) + b;
      CountSumUnion(a - {n}, b);
    }
  }

  lemma {:induction false} TotalIsCountSum(t: Tree)
    requires Ordered(t)
    ensures CountSum(Nodes(t)) == TotalCount(t)
  {
    if t.Node? {
      TotalIsCountSum(t.l);
      TotalIsCountSum(t.r);
      var n := Run1(t);
      NodesBelow(t.l, t.index);
      NodesAbove(t.r, t.index + t.count);
      CountSumUnion(Nodes(t.l) + {n}, Nodes(t.r));
      CountSumUnion(Nodes(t.l), {n});
      CountSumRemove({n}, n);
      assert {n} - {n} == {};
    }
  }

  /** Dropping the runs in `s` brings the tree down to the target. */
  ghost predicate Enough(t: Tree, s: set<Interval>, target: nat) {
    s <= Nodes(t) && CountSum(Nodes(t) - s) * UNIT_SIZE <= target
  }

  /** What is left when the root goes again and again until the target is met. */
  function AfterRelease(t: Tree, target: nat): Tree
    decreases NodeCount(t)
  {
    if TotalCount(t) * UNIT_SIZE <= target || t.Leaf? then t
    else
      JoinUnits(t.l, t.r);
      AfterRelease(Join(t.l, t.r), target)
  }

  /** No choice of runs meets the target with fewer of them than taking the root each time. */
  lemma {:induction false} GreedyIsLeast(t: Tree, s: set<Interval>, target: nat)
    requires Wf(t) && Enough(t, s, target)
    ensures |s| >= NodeCount(t) - NodeCount(AfterRelease(t, target))
    decreases NodeCount(t)
  {
    TotalIsCountSum(t);
    if TotalCount(t) * UNIT_SIZE > target && t.Node? {
      assert Nodes(t) - {} == Nodes(t);
      assert s != {};
      var root, rest := Run1(t), Join(t.l, t.r);
      JoinUnits(t.l, t.r);
      JoinWf(t);
      DroppedRoot(t);
      var gone := if root in s then root else var x :| x in s; x;
      Exchange(t, s, gone, target);
      GreedyIsLeast(rest, s - {gone}, target);
    }
  }

  /** Giving up the root instead of `gone` leaves no more behind. */
  lemma {:induction false} Exchange(t: Tree, s: set<Interval>, gone: Interval, target: nat)
    requires Wf(t) && t.Node? && Enough(t, s, target)
    requires gone in s && (Run1(t) in s ==> gone == Run1(t))
    ensures Enough(Join(t.l, t.r), s - {gone}, target)
  {
    var root, all, rest := Run1(t), Nodes(t), Nodes(Join(t.l, t.r));
    DroppedRoot(t);
    if gone == root {
      assert rest - (s - {root}) == all - s;
    } else {
      RootIsMax(t);
      assert gone.count <= root.count;
      var kept := rest - (s - {gone});
      assert kept - {gone} == all - s - {root};
      CountSumRemove(kept, gone);
      CountSumRemove(all - s, root);
    }
  }

  /** Every run in `gone` is at least as large as every run in `kept`. */
  ghost predicate NoSmaller(gone: set<Interval>, kept: set<Interval>) {
    forall n, m :: n in gone && m in kept ==> n.count >= m.count
  }

  /** The root goes before all that goes later. */
  lemma {:induction false} OneMore(all: set<Interval>, root: Interval, rest: set<Interval>, kept: set<Interval>)
    requires root in all && rest == all - {root} && kept <= rest
    requires NoSmaller(rest - kept, kept) && forall n :: n in all ==> n.count <= root.count
    ensures NoSmaller(all - kept, kept) && |all - kept| == |rest - kept| + 1 && all - (all - kept) == kept
  {
    assert all - kept == (rest - kept) + {root};
  }

  lemma {:induction false} ReleasedLast(t: Tree, target: nat)
    requires Wf(t)
    ensures TotalCount(AfterRelease(t, target)) * UNIT_SIZE <= target && Ordered(AfterRelease(t, target))
    decreases NodeCount(t)
  {
    if TotalCount(t) * UNIT_SIZE > target && t.Node? {
      JoinUnits(t.l, t.r);
      JoinWf(t);
      ReleasedLast(Join(t.l, t.r), target);
    }
  }

  /** The runs that go are no smaller than the runs that stay, and letting go of them is
      enough: so the least number is reached. */
  lemma {:induction false} LargestGo(t: Tree, target: nat)
    requires Wf(t)
    ensures var kept := Nodes(AfterRelease(t, target));
      && kept <= Nodes(t) && (forall n, m :: n in Nodes(t) - kept && m in kept ==> n.count >= m.count)
      && Enough(t, Nodes(t) - kept, target)
      && |Nodes(t) - kept| == NodeCount(t) - NodeCount(AfterRelease(t, target))
  {
    GoneRuns(t, target);
    ReleasedLast(t, target);
    TotalIsCountSum(AfterRelease(t, target));
  }

  lemma {:induction false} GoneRuns(t: Tree, target: nat)
    requires Wf(t)
    ensures var kept := Nodes(AfterRelease(t, target));
      && kept <= Nodes(t) && NoSmaller(Nodes(t) - kept, kept) && Nodes(t) - (Nodes(t) - kept) == kept
      && |Nodes(t) - kept| == NodeCount(t) - NodeCount(AfterRelease(t, target))
    decreases NodeCount(t)
  {
    if TotalCount(t) * UNIT_SIZE <= target || t.Leaf? {
      assert Nodes(t) - Nodes(t) == {};
    } else {
      var rest := Join(t.l, t.r);
      JoinUnits(t.l, t.r);
      JoinWf(t);
      DroppedRoot(t);
      GoneRuns(rest, target);
      RootIsMax(t);
      OneMore(Nodes(t), Run1(t), Nodes(rest), Nodes(AfterRelease(rest, target)));
    }
  }

  /** Which of the two locks a round of tries could take. */
  datatype Locks = Locks(dirty: bool, released: bool)

  datatype Taken = FromDirty(idx: nat) | FromReleased(idx: nat) | Nothing | StillTrying

  /** What a round of the release loop meets among other threads. */
  datatype Round = Round(popped: Option<Interval>, reading: nat)

  function Moved(rounds: seq<Round>): nat {
    if rounds == [] then 0
    else Moved(rounds[..|rounds| - 1]) + if rounds[|rounds| - 1].popped.Some? then rounds[|rounds| - 1].popped.value.count else 0
  }

  /** The dirty total read before round `k`. */
  function Reading(first: nat, rounds: seq<Round>, k: nat): nat
    requires k <= |rounds|
  {
    if k == 0 then first else rounds[k - 1].reading
  }

  ghost predicate HasFit(t: Tree, num: nat) { num >= 1 && exists n :: n in Nodes(t) && n.count >= num }

  predicate NoneDirty(tries: seq<Locks>) { forall j :: 0 <= j < |tries| ==> !tries[j].dirty }

  predicate NoneReleased(tries: seq<Locks>) { forall j :: 0 <= j < |tries| ==> !tries[j].released }

  /** No round took a lock whose tree had a fit. */
  predicate Unlucky(tries: seq<Locks>, dirtyFit: bool, releasedFit: bool) {
    forall j :: 0 <= j < |tries| ==> !(tries[j].dirty && dirtyFit) && !(tries[j].released && releasedFit)
  }

  /** What `TakeRegion` does to a tree is the protocol's step. */
  lemma {:induction false} TakenLeaves(t: Tree, idx: nat, num: nat, s: Tree)
    requires num >= 1 && RunTaken(t, idx, num, s)
    ensures Leaves(Units(t), Interval(idx, num), Units(s))
  {
  }

  class FreeRegionManager {
    const releasedUnitTree: CartesianTree
    const dirtyUnitTree: CartesianTree

    ghost predicate Formed()
      reads this, releasedUnitTree, dirtyUnitTree
    {
      && releasedUnitTree != dirtyUnitTree && releasedUnitTree.blocks == dirtyUnitTree.blocks
      && releasedUnitTree.Valid() && dirtyUnitTree.Valid()
    }

    /** And no unit is both dirty and released. */
    ghost predicate Valid()
      reads this, releasedUnitTree, dirtyUnitTree
    {
      Formed() && Units(releasedUnitTree.root) !! Units(dirtyUnitTree.root)
    }

    ghost function FreeUnits(): set<nat>
      reads this, releasedUnitTree, dirtyUnitTree
    {
      Units(dirtyUnitTree.root) + Units(releasedUnitTree.root)
    }

    constructor (regionCnt: nat)
      requires regionCnt < INDEX_LIMIT
      ensures Valid() && fresh(releasedUnitTree) && fresh(dirtyUnitTree)
      ensures dirtyUnitTree.blocks == regionCnt && FreeUnits() == {}
    {
      releasedUnitTree := new CartesianTree(regionCnt);
      dirtyUnitTree := new CartesianTree(regionCnt);
    }

    /** Adds units to the dirty tree. Fatal exactly when one of them is there already, or, in a
        tree that is not empty, when there are none to add; an empty tree is spoiled by that. */
    method AddGarbageUnits(idx: nat, num: nat) returns (fatal: bool)
      requires Formed() && idx + num <= dirtyUnitTree.blocks
      modifies dirtyUnitTree
      ensures fatal <==> old(dirtyUnitTree.root).Node? && (num == 0 || !(Units(old(dirtyUnitTree.root)) !! Run(idx, idx + num)))
      ensures fatal ==> dirtyUnitTree.root == old(dirtyUnitTree.root)
      ensures !fatal ==> Units(dirtyUnitTree.root) == Units(old(dirtyUnitTree.root)) + Run(idx, idx + num)
      ensures num >= 1 ==> Joins(Units(old(dirtyUnitTree.root)), Interval(idx, num), Units(dirtyUnitTree.root), fatal)
      ensures Formed() <==> num >= 1 || old(dirtyUnitTree.root).Node?
      ensures old(Valid()) && num >= 1 ==> (Valid() <==> fatal || Units(releasedUnitTree.root) !! Run(idx, idx + num))
    {
      var inserted := dirtyUnitTree.MergeInsert(idx, num);
      fatal := !inserted;
    }

    /** The same for the released tree. */
    method AddReleaseUnits(idx: nat, num: nat) returns (fatal: bool)
      requires Formed() && idx + num <= dirtyUnitTree.blocks
      modifies releasedUnitTree
      ensures fatal <==> old(releasedUnitTree.root).Node? && (num == 0 || !(Units(old(releasedUnitTree.root)) !! Run(idx, idx + num)))
      ensures fatal ==> releasedUnitTree.root == old(releasedUnitTree.root)
      ensures !fatal ==> Units(releasedUnitTree.root) == Units(old(releasedUnitTree.root)) + Run(idx, idx + num)
      ensures num >= 1 ==> Joins(Units(old(releasedUnitTree.root)), Interval(idx, num), Units(releasedUnitTree.root), fatal)
      ensures Formed() <==> num >= 1 || old(releasedUnitTree.root).Node?
      ensures old(Valid()) && num >= 1 ==> (Valid() <==> fatal || Units(dirtyUnitTree.root) !! Run(idx, idx + num))
    {
      var inserted := releasedUnitTree.MergeInsert(idx, num);
      fatal := !inserted;
    }

    /** Best fit from the first tree whose lock can be had and that has a fit. `tries` lists,
        round by round, which of the two locks could be taken; a call that is not over by then
        is still trying. */
    method TakeRegion(num: nat, tries: seq<Locks>) returns (region: Taken, k: nat)
      requires Valid()
      modifies releasedUnitTree, dirtyUnitTree
      ensures Valid() && k <= |tries|
      ensures var d, r := old(dirtyUnitTree.root), old(releasedUnitTree.root);
        match region
        case FromDirty(idx) =>
          && k < |tries| && tries[k].dirty && Unlucky(tries[..k], HasFit(d, num), HasFit(r, num)) && NoneDirty(tries[..k])
          && (exists n :: Best(d, num, n) && n.index == idx)
          && RunTaken(d, idx, num, dirtyUnitTree.root) && releasedUnitTree.root == r
        case FromReleased(idx) =>
          && k < |tries| && tries[k].released && Unlucky(tries[..k], HasFit(d, num), HasFit(r, num)) && NoneReleased(tries[..k])
          && (tries[k].dirty ==> !HasFit(d, num))
          && (exists n :: Best(r, num, n) && n.index == idx)
          && RunTaken(r, idx, num, releasedUnitTree.root) && dirtyUnitTree.root == d
        case Nothing =>
          !HasFit(d, num) && !HasFit(r, num) && dirtyUnitTree.root == d && releasedUnitTree.root == r
        case StillTrying =>
          && k == |tries| && (NoneDirty(tries) || NoneReleased(tries)) && Unlucky(tries, HasFit(d, num), HasFit(r, num))
          && dirtyUnitTree.root == d && releasedUnitTree.root == r
    {
      var tryDirty, tryReleased := true, true;
      k := 0;
      while (tryDirty || tryReleased) && k < |tries|
        invariant k <= |tries| && Valid()
        invariant dirtyUnitTree.root == old(dirtyUnitTree.root) && releasedUnitTree.root == old(releasedUnitTree.root)
        invariant Unlucky(tries[..k], HasFit(dirtyUnitTree.root, num), HasFit(releasedUnitTree.root, num))
        invariant tryDirty <==> NoneDirty(tries[..k])
        invariant tryReleased <==> NoneReleased(tries[..k])
        invariant !tryDirty ==> !HasFit(dirtyUnitTree.root, num)
        invariant !tryReleased ==> !HasFit(releasedUnitTree.root, num)
      {
        assert tries[..k + 1] == tries[..k] + [tries[k]];
        if tryDirty && tries[k].dirty {
          var dirtyOk, idx := dirtyUnitTree.TakeUnitsLowAddr(num);
          if dirtyOk {
            return FromDirty(idx), k;
          }
          tryDirty := false;
        }
        if tryReleased && tries[k].released {
          var releasedOk, idx := releasedUnitTree.TakeUnitsLowAddr(num);
          if releasedOk {
            return FromReleased(idx), k;
          }
          tryReleased := false;
        }
        k := k + 1;
      }
      assert tries[..|tries|] == tries;
      region := if tryDirty || tryReleased then StillTrying else Nothing;
    }

    /** Moves the largest dirty runs over to the released tree until at most
        `targetCachedSize` bytes stay dirty. */
    method ReleaseGarbageRegions(targetCachedSize: nat) returns (releasedBytes: nat)
      requires Valid()
      modifies releasedUnitTree, dirtyUnitTree
      ensures Valid() && FreeUnits() == old(FreeUnits())
      ensures dirtyUnitTree.totalCount * 4096 <= targetCachedSize
      ensures releasedBytes == (old(dirtyUnitTree.totalCount) - dirtyUnitTree.totalCount) * 4096
      ensures releasedUnitTree.totalCount - old(releasedUnitTree.totalCount) == old(dirtyUnitTree.totalCount) - dirtyUnitTree.totalCount
      ensures dirtyUnitTree.root == AfterRelease(old(dirtyUnitTree.root), targetCachedSize)
      ensures forall s :: Enough(old(dirtyUnitTree.root), s, targetCachedSize) ==>
        |s| >= NodeCount(old(dirtyUnitTree.root)) - NodeCount(dirtyUnitTree.root)
      ensures forall n, m :: n in Nodes(old(dirtyUnitTree.root)) - Nodes(dirtyUnitTree.root) && m in Nodes(dirtyUnitTree.root) ==>
        n.count >= m.count
    {
      LargestGo(dirtyUnitTree.root, targetCachedSize);
      forall s | Enough(dirtyUnitTree.root, s, targetCachedSize)
        ensures |s| >= NodeCount(dirtyUnitTree.root) - NodeCount(AfterRelease(dirtyUnitTree.root, targetCachedSize))
      {
        GreedyIsLeast(dirtyUnitTree.root, s, targetCachedSize);
      }
      var dirtyBytes := dirtyUnitTree.totalCount * UNIT_SIZE;
      if dirtyBytes <= targetCachedSize {
        return 0;
      }
      releasedBytes := 0;
      while dirtyBytes > targetCachedSize
        invariant Valid() && FreeUnits() == old(FreeUnits())
        invariant dirtyBytes == dirtyUnitTree.totalCount * UNIT_SIZE
        invariant releasedBytes == (old(dirtyUnitTree.totalCount) - dirtyUnitTree.totalCount) * UNIT_SIZE
        invariant releasedUnitTree.totalCount - old(releasedUnitTree.totalCount) == old(dirtyUnitTree.totalCount) - dirtyUnitTree.totalCount
        invariant AfterRelease(dirtyUnitTree.root, targetCachedSize) == AfterRelease(old(dirtyUnitTree.root), targetCachedSize)
        decreases dirtyUnitTree.totalCount
      {
        var node := dirtyUnitTree.root;
        if node.Leaf? {
          assert false;
          break;
        }
        MoveRoot();
        releasedBytes := releasedBytes + node.count * UNIT_SIZE;
        dirtyBytes := dirtyUnitTree.totalCount * UNIT_SIZE;
      }
    }

    /** The release loop among other threads: `rounds` lists the run it pops under the dirty
        lock, if there is one, and the dirty total it reads afterwards. It returns exactly the
        bytes of the runs it moved, and stops exactly at the first reading at or below the
        target or at an empty tree; a call that is not over by the end of the list goes on. */
    static method ReleaseAmidOthers(targetCachedSize: nat, first: nat, rounds: seq<Round>) returns (done: bool, releasedBytes: nat, k: nat)
      ensures k <= |rounds| && releasedBytes == Moved(rounds[..k]) * 4096
      ensures forall j :: 0 <= j < k ==> rounds[j].popped.Some? && Reading(first, rounds, j) * 4096 > targetCachedSize
      ensures done <==> Reading(first, rounds, k) * 4096 <= targetCachedSize || (k < |rounds| && rounds[k].popped.None?)
      ensures !done ==> k == |rounds|
    {
      k, releasedBytes := 0, 0;
      var dirtyBytes := first * UNIT_SIZE;
      while dirtyBytes > targetCachedSize
        invariant k <= |rounds| && releasedBytes == Moved(rounds[..k]) * UNIT_SIZE
        invariant dirtyBytes == Reading(first, rounds, k) * UNIT_SIZE
        invariant forall j :: 0 <= j < k ==> rounds[j].popped.Some? && Reading(first, rounds, j) * UNIT_SIZE > targetCachedSize
        decreases |rounds| - k
      {
        if k == |rounds| {
          return false, releasedBytes, k;
        }
        match rounds[k].popped
        case None =>
          return true, releasedBytes, k;
        case Some(n) =>
          assert rounds[..k + 1][..k] == rounds[..k];
          releasedBytes := releasedBytes + n.count * UNIT_SIZE;
          dirtyBytes := rounds[k].reading * UNIT_SIZE;
          k := k + 1;
      }
      done := true;
    }

    /** One round of the loop: out of the dirty tree under its lock, then into the released
        one under the other. */
    method MoveRoot()
      requires Valid() && dirtyUnitTree.root.Node?
      modifies releasedUnitTree, dirtyUnitTree
      ensures Valid() && FreeUnits() == old(FreeUnits())
      ensures dirtyUnitTree.root == Join(old(dirtyUnitTree.root).l, old(dirtyUnitTree.root).r)
      ensures dirtyUnitTree.totalCount == old(dirtyUnitTree.totalCount) - old(dirtyUnitTree.root).count
      ensures releasedUnitTree.totalCount == old(releasedUnitTree.totalCount) + old(dirtyUnitTree.root).count
      ensures old(dirtyUnitTree.root).count >= 1
    {
      var n := PopRoot();
      var fatal := PushReleased(n);
      assert !fatal;
    }

    /** The part under the dirty lock: a largest run leaves its tree. */
    method PopRoot() returns (n: Interval)
      requires Formed() && dirtyUnitTree.root.Node?
      modifies dirtyUnitTree
      ensures Formed() && n == Run1(old(dirtyUnitTree.root)) && n.count >= 1 && n.End() <= dirtyUnitTree.blocks
      ensures dirtyUnitTree.root == Join(old(dirtyUnitTree.root).l, old(dirtyUnitTree.root).r)
      ensures Leaves(Units(old(dirtyUnitTree.root)), n, Units(dirtyUnitTree.root))
      ensures dirtyUnitTree.totalCount == old(dirtyUnitTree.totalCount) - n.count
    {
      n := Run1(dirtyUnitTree.root);
      WithinBlocks(dirtyUnitTree.root, dirtyUnitTree.blocks);
      dirtyUnitTree.ReleaseRootNode();
    }

    /** The part under the released lock; fatal exactly when one of the units is there. */
    method PushReleased(n: Interval) returns (fatal: bool)
      requires Formed() && n.count >= 1 && n.End() <= releasedUnitTree.blocks
      modifies releasedUnitTree
      ensures Formed() && Joins(Units(old(releasedUnitTree.root)), n, Units(releasedUnitTree.root), fatal)
      ensures releasedUnitTree.totalCount == old(releasedUnitTree.totalCount) + if fatal then 0 else n.count
    {
      var inserted := releasedUnitTree.MergeInsert(n.index, n.count);
      fatal := !inserted;
    }
  }
}
