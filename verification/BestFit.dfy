/** Why the pruned search of `FindBestFitLowAddrPtr` misses nothing. */
module BestFit {
  import opened Common
  import opened Intervals
  import opened Treap

  /** `a` is at least as good a choice as `b`: smaller, or as small and no higher. */
  predicate NoWorse(a: Interval, b: Interval) {
    a.count < b.count || (a.count == b.count && a.index <= b.index)
  }

  /** `a` is the smallest run of `t` that holds `num` blocks, the lowest among equals. */
  ghost predicate Best(t: Tree, num: nat, a: Interval) {
    && a in Nodes(t) && a.count >= num
    && forall n :: n in Nodes(t) && n.count >= num ==> NoWorse(a, n)
  }

  function Run1(t: Tree): Interval
    requires t.Node?
  {
    Interval(t.index, t.count)
  }

  /** All runs below the subtrees that still wait on the stack. */
  function Pending(stack: seq<Tree>): set<Interval> {
    if stack == [] then {} else Pending(stack[..|stack| - 1]) + Nodes(stack[|stack| - 1])
  }

  /** Every waiting subtree is large enough, and the stack is sorted: what lies nearer to
      the top lies lower in memory. */
  ghost predicate Stacked(stack: seq<Tree>, num: nat) {
    stack != [] ==>
      var top, below := stack[|stack| - 1], stack[..|stack| - 1];
      && Stacked(below, num)
      && top.Node? && Wf(top) && top.count >= num
      && forall a, b :: a in Nodes(top) && b in Pending(below) ==> a.index < b.index
  }

  /** No waiting subtree can hold a run of exactly `num` blocks below block `i`, except
      one whose root is itself of that size. */
  ghost predicate Settled(stack: seq<Tree>, num: nat, i: nat) {
    stack != [] ==>
      var top, below := stack[|stack| - 1], stack[..|stack| - 1];
      && Settled(below, num, i)
      && ((top.Node? && top.count == num) || forall a :: a in Nodes(top) ==> i <= a.index)
  }

  /** Each fitting run of `t` is no better than the best so far, or still waits. */
  ghost predicate Covered(t: Tree, num: nat, best: Option<Interval>, waiting: set<Interval>) {
    forall n :: n in Nodes(t) && n.count >= num ==>
      n in waiting || (best.Some? && NoWorse(best.value, n))
  }

  /** The state of the search between two iterations. */
  ghost predicate Searching(t: Tree, num: nat, best: Option<Interval>, stack: seq<Tree>) {
    && Stacked(stack, num)
    && Covered(t, num, best, Pending(stack))
    && (best.Some? ==> best.value in Nodes(t) && best.value.count >= num)
    && (best.Some? && best.value.count == num ==> Settled(stack, num, best.value.index))
  }

  function Update(best: Option<Interval>, n: Interval): Option<Interval> {
    if best.Some? && NoWorse(best.value, n) then best else Some(n)
  }

  /** The children that the loop pushes after looking at `t`. */
  function Pushed(t: Tree, num: nat, exact: bool): seq<Tree>
    requires t.Node?
  {
    (if !exact && t.r.Node? && t.r.count >= num then [t.r] else []) + (if t.l.Node? && t.l.count >= num then [t.l] else [])
  }

  // ---------- bounds in terms of runs ----------

  lemma {:induction false} NodesBelow(t: Tree, k: nat)
    requires Below(t, k)
    ensures forall n :: n in Nodes(t) ==> n.index < k
  {
    if t.Node? {
      NodesBelow(t.l, k);
      NodesBelow(t.r, k);
    }
  }

  lemma {:induction false} NodesAbove(t: Tree, k: nat)
    requires Above(t, k)
    ensures forall n :: n in Nodes(t) ==> k < n.index
  {
    if t.Node? {
      NodesAbove(t.l, k);
      NodesAbove(t.r, k);
    }
  }

  /** Around a root: left below, right above, no count larger. */
  lemma {:induction false} Around(t: Tree)
    requires Wf(t) && t.Node?
    ensures forall n :: n in Nodes(t.l) ==> n.index < t.index && n.count <= RootCount(t.l) <= t.count
    ensures forall n :: n in Nodes(t.r) ==> t.index < n.index && n.count <= RootCount(t.r) <= t.count
    ensures forall n :: n in Nodes(t) <==> n in Nodes(t.l) || n == Run1(t) || n in Nodes(t.r)
  {
    NodesBelow(t.l, t.index);
    NodesAbove(t.r, t.index + t.count);
    RootIsMax(t.l);
    RootIsMax(t.r);
  }

  lemma {:induction false} PendingPush(stack: seq<Tree>, t: Tree)
    ensures Pending(stack + [t]) == Pending(stack) + Nodes(t)
  {
    assert (stack + [t])[..|stack|] == stack;
  }

  lemma {:induction false} StackedPush(stack: seq<Tree>, t: Tree, num: nat)
    requires Stacked(stack, num) && t.Node? && Wf(t) && t.count >= num
    requires forall a, b :: a in Nodes(t) && b in Pending(stack) ==> a.index < b.index
    ensures Stacked(stack + [t], num)
  {
    assert (stack + [t])[..|stack|] == stack;
  }

  lemma {:induction false} SettledPush(stack: seq<Tree>, t: Tree, num: nat, i: nat)
    requires Settled(stack, num, i)
    requires (t.Node? && t.count == num) || forall a :: a in Nodes(t) ==> i <= a.index
    ensures Settled(stack + [t], num, i)
  {
    assert (stack + [t])[..|stack|] == stack;
  }

  lemma {:induction false} SettledAbove(stack: seq<Tree>, num: nat, i: nat)
    requires forall a :: a in Pending(stack) ==> i <= a.index
    ensures Settled(stack, num, i)
  {
    if stack != [] {
      SettledAbove(stack[..|stack| - 1], num, i);
    }
  }

  // ---------- one iteration ----------

  lemma {:induction false} PopFacts(below: seq<Tree>, cur: Tree, num: nat)
    requires Stacked(below + [cur], num)
    ensures Stacked(below, num) && cur.Node? && Wf(cur) && cur.count >= num
    ensures forall a, b :: a in Nodes(cur) && b in Pending(below) ==> a.index < b.index
    ensures Pending(below + [cur]) == Pending(below) + Nodes(cur)
  {
    assert (below + [cur])[..|below|] == below;
  }

  /** A subtree that the loop does not push holds nothing better than the updated best. */
  lemma {:induction false} PrunedIsWorse(below: seq<Tree>, cur: Tree, num: nat, best: Option<Interval>, n: Interval)
    requires cur.Node? && Wf(cur) && cur.count >= num && n.count >= num
    requires best.Some? && best.value.count == num ==> Settled(below + [cur], num, best.value.index)
    requires best.Some? ==> best.value.count >= num
    requires n in Nodes(cur.r) && Update(best, Run1(cur)).value.count == num
    ensures NoWorse(Update(best, Run1(cur)).value, n)
  {
    Around(cur);
    if best.Some? && best.value.count == num {
      assert (below + [cur])[..|below|] == below;
    }
  }

  /** The runs below the children that the loop pushes. */
  function PushedRuns(cur: Tree, num: nat, exact: bool): set<Interval>
    requires cur.Node?
  {
    (if !exact && cur.r.Node? && cur.r.count >= num then Nodes(cur.r) else {})
    + (if cur.l.Node? && cur.l.count >= num then Nodes(cur.l) else {})
  }

  lemma {:induction false} CoveredStep(t: Tree, num: nat, best: Option<Interval>, rest: set<Interval>, cur: Tree)
    requires Covered(t, num, best, rest + Nodes(cur)) && cur.Node? && Wf(cur)
    requires var b := Update(best, Run1(cur)).value;
      b.count == num ==> forall n :: n in Nodes(cur.r) && n.count >= num ==> NoWorse(b, n)
    ensures var b := Update(best, Run1(cur));
      Covered(t, num, b, rest + PushedRuns(cur, num, b.value.count == num))
  {
    var b := Update(best, Run1(cur));
    var exact := b.value.count == num;
    Around(cur);
    forall n | n in Nodes(t) && n.count >= num && n !in rest + PushedRuns(cur, num, exact)
      ensures NoWorse(b.value, n)
    {
      if n in Nodes(cur.l) || n in Nodes(cur.r) {
        assert n in Nodes(cur.r) && exact;
      }
    }
  }

  lemma {:induction false} PendingPushed(below: seq<Tree>, cur: Tree, num: nat, exact: bool)
    requires cur.Node?
    ensures Pending(below + Pushed(cur, num, exact)) == Pending(below) + PushedRuns(cur, num, exact)
  {
    var right := if !exact && cur.r.Node? && cur.r.count >= num then [cur.r] else [];
    if right != [] {
      PendingPush(below, cur.r);
    } else {
      assert below + right == below;
    }
    if cur.l.Node? && cur.l.count >= num {
      PendingPush(below + right, cur.l);
      assert below + right + [cur.l] == below + Pushed(cur, num, exact);
    } else {
      assert below + right == below + Pushed(cur, num, exact);
    }
  }

  lemma {:induction false} StackedStep(below: seq<Tree>, cur: Tree, num: nat, exact: bool)
    requires Stacked(below + [cur], num)
    ensures Stacked(below + Pushed(cur, num, exact), num)
  {
    PopFacts(below, cur, num);
    var right := if !exact && cur.r.Node? && cur.r.count >= num then [cur.r] else [];
    var left := if cur.l.Node? && cur.l.count >= num then [cur.l] else [];
    assert below + Pushed(cur, num, exact) == below + right + left;
    RightOnTop(below, right, cur, num);
    LeftOnTop(below, right, left, cur, num);
  }

  lemma {:induction false} RightOnTop(below: seq<Tree>, right: seq<Tree>, cur: Tree, num: nat)
    requires cur.Node? && Wf(cur) && Stacked(below, num)
    requires forall a, b :: a in Nodes(cur) && b in Pending(below) ==> a.index < b.index
    requires right == [] || (right == [cur.r] && cur.r.Node? && cur.r.count >= num)
    ensures Stacked(below + right, num)
    ensures forall b :: b in Pending(below + right) ==> b in Pending(below) || b in Nodes(cur.r)
  {
    Around(cur);
    if right == [] {
      assert below + right == below;
    } else {
      StackedPush(below, cur.r, num);
      PendingPush(below, cur.r);
    }
  }

  lemma {:induction false} LeftOnTop(below: seq<Tree>, right: seq<Tree>, left: seq<Tree>, cur: Tree, num: nat)
    requires cur.Node? && Wf(cur) && Stacked(below + right, num)
    requires forall a, b :: a in Nodes(cur) && b in Pending(below) ==> a.index < b.index
    requires forall b :: b in Pending(below + right) ==> b in Pending(below) || b in Nodes(cur.r)
    requires left == [] || (left == [cur.l] && cur.l.Node? && cur.l.count >= num)
    ensures Stacked(below + right + left, num)
  {
    Around(cur);
    if left == [] {
      assert below + right + left == below + right;
    } else {
      StackedPush(below + right, cur.l, num);
    }
  }

  lemma {:induction false} SettledStep(below: seq<Tree>, cur: Tree, num: nat, best: Option<Interval>)
    requires Stacked(below + [cur], num)
    requires best.Some? ==> best.value.count >= num
    requires best.Some? && best.value.count == num ==> Settled(below + [cur], num, best.value.index)
    requires Update(best, Run1(cur)).value.count == num
    ensures Settled(below + Pushed(cur, num, true), num, Update(best, Run1(cur)).value.index)
  {
    PopFacts(below, cur, num);
    Around(cur);
    var i := Update(best, Run1(cur)).value.index;
    assert Settled(below, num, i) by {
      if Update(best, Run1(cur)) == best {
        assert (below + [cur])[..|below|] == below;
      } else {
        assert Run1(cur) in Nodes(cur);
        SettledAbove(below, num, i);
      }
    }
    if cur.l.Node? && cur.l.count >= num {
      if cur.count > num {
        assert (below + [cur])[..|below|] == below;
      }
      SettledPush(below, cur.l, num, i);
      assert Pushed(cur, num, true) == [cur.l];
    } else {
      assert below + Pushed(cur, num, true) == below;
    }
  }

  lemma {:induction false} SearchStep(t: Tree, num: nat, best: Option<Interval>, below: seq<Tree>, cur: Tree)
    requires Searching(t, num, best, below + [cur]) && cur.Node? && Run1(cur) in Nodes(t)
    ensures var b := Update(best, Run1(cur));
      Searching(t, num, b, below + Pushed(cur, num, b.value.count == num))
  {
    var b := Update(best, Run1(cur));
    PopFacts(below, cur, num);
    StackedStep(below, cur, num, b.value.count == num);
    forall n | n in Nodes(cur.r) && n.count >= num && b.value.count == num
      ensures NoWorse(b.value, n)
    {
      PrunedIsWorse(below, cur, num, best, n);
    }
    CoveredStep(t, num, best, Pending(below), cur);
    PendingPushed(below, cur, num, b.value.count == num);
    if b.value.count == num {
      SettledStep(below, cur, num, best);
    }
  }
}
