/** What `MergeInsert` computes on tree values, and its correctness. */
module TreeInsert {
  import opened Intervals
  import opened Treap

  /** Looking for the neighbour that touches the new run on one side. */
  datatype Absorb = AbsorbError | Absorbed(count: nat, rest: Tree)

  /** Takes the leftmost node out of `t` if it starts exactly at `end`. */
  function AbsorbRight(t: Tree, end: nat): Absorb {
    if t.Leaf? then Absorbed(0, Leaf)
    else if t.index == end then
      if t.l.Node? then AbsorbError else Absorbed(t.count, t.r)
    else if t.index < end then AbsorbError
    else LiftAbsorb(WentLeft(t.index, t.count, t.r), AbsorbRight(t.l, end))
  }

  /** Takes the rightmost node out of `t` if it ends exactly at `start`. */
  function AbsorbLeft(t: Tree, start: nat): (a: Absorb)
    ensures a.Absorbed? ==> a.count <= start
  {
    if t.Leaf? then Absorbed(0, Leaf)
    else if t.index + t.count == start then
      if t.r.Node? then AbsorbError else Absorbed(t.count, t.l)
    else if t.index + t.count > start then AbsorbError
    else LiftAbsorb(WentRight(t.l, t.index, t.count), AbsorbLeft(t.r, start))
  }

  function LiftAbsorb(f: Frame, a: Absorb): Absorb {
    if a.AbsorbError? then AbsorbError else Absorbed(a.count, Wrap(f, a.rest))
  }

  /** `rising` says that the subtree's root may now be larger than its parent. */
  datatype Ins = Clash | Done(t: Tree, rising: bool)

  function Insert(t: Tree, idx: nat, num: nat): Ins {
    if t.Leaf? then
      Done(Node(Leaf, idx, num, Leaf), true)
    else if idx == t.index + t.count then
      var a := AbsorbRight(t.r, idx + num);
      if a.AbsorbError? then Clash else Done(Node(t.l, t.index, t.count + num + a.count, a.rest), true)
    else if idx + num == t.index then
      var a := AbsorbLeft(t.l, idx);
      if a.AbsorbError? then Clash
      else Done(Node(a.rest, idx - a.count, t.count + num + a.count, t.r), true)
    else if idx + num < t.index then
      Climb(WentLeft(t.index, t.count, t.r), Insert(t.l, idx, num))
    else if idx > t.index + t.count then
      Climb(WentRight(t.l, t.index, t.count), Insert(t.r, idx, num))
    else
      Clash
  }

  /** One step back towards the root: rotate a larger child above its parent, or stop. */
  function Climb(f: Frame, r: Ins): Ins {
    if r.Clash? then Clash
    else if r.rising && f.count < RootCount(r.t) then Done(RotateUp(f, r.t), true)
    else Done(Wrap(f, r.t), false)
  }

  /** The single rotation that lifts `t` above the node of `f`. */
  function RotateUp(f: Frame, t: Tree): Tree
    requires t.Node?
  {
    match f
    case WentLeft(i, c, right) => Node(t.l, t.index, t.count, Node(t.r, i, c, right))
    case WentRight(left, i, c) => Node(Node(left, i, c, t.l), t.index, t.count, t.r)
  }

  // ---------- the run misses the tree ----------

  /** No block of idx..end is covered by `t`. */
  predicate Misses(t: Tree, idx: nat, end: nat) {
    t.Node? ==>
      && Misses(t.l, idx, end) && Misses(t.r, idx, end)
      && (end <= t.index || t.index + t.count <= idx)
  }

  lemma {:induction false} MissesUnits(t: Tree, idx: nat, end: nat)
    requires idx < end && Ordered(t)
    ensures Misses(t, idx, end) <==> Units(t) !! Run(idx, end)
  {
    if t.Node? {
      MissesUnits(t.l, idx, end);
      MissesUnits(t.r, idx, end);
      var own := Run(t.index, t.index + t.count);
      assert own !! Run(idx, end) <==> (end <= t.index || t.index + t.count <= idx) by {
        assert t.index in own && t.index + t.count - 1 in own;
        assert idx in Run(idx, end);
      }
      assert Units(t) !! Run(idx, end) <==> Units(t.l) !! Run(idx, end) && own !! Run(idx, end) && Units(t.r) !! Run(idx, end);
    }
  }

  lemma BelowMisses(t: Tree, k: nat, idx: nat, end: nat)
    requires Below(t, k) && k <= idx + 1
    ensures Misses(t, idx, end)
  {
  }

  lemma AboveMisses(t: Tree, k: nat, idx: nat, end: nat)
    requires Above(t, k) && end <= k + 1
    ensures Misses(t, idx, end)
  {
  }

  // ---------- absorbing a neighbour ----------

  lemma {:induction false} AbsorbRightIff(t: Tree, idx: nat, end: nat)
    requires Ordered(t) && Above(t, idx) && idx < end
    ensures AbsorbRight(t, end).Absorbed? <==> Misses(t, idx, end)
  {
    if t.Node? {
      AbsorbRightIff(t.l, idx, end);
      if end <= t.index {
        AboveMisses(t.r, t.index + t.count, idx, end);
      }
    }
  }

  lemma {:induction false} AbsorbLeftIff(t: Tree, start: nat, end: nat)
    requires Ordered(t) && Below(t, end) && start < end
    ensures AbsorbLeft(t, start).Absorbed? <==> Misses(t, start, end)
  {
    if t.Node? {
      AbsorbLeftIff(t.r, start, end);
      if t.index + t.count <= start {
        BelowMisses(t.l, t.index, start, end);
      }
    }
  }

  lemma {:induction false} MoveLast<T>(a: set<T>, x: set<T>, b: set<T>, c: set<T>)
    ensures (a + x) + b + c == a + b + c + x
    ensures a + (b + c) == a + b + c
  {
  }

  lemma {:induction false} AbsorbRightUnits(t: Tree, end: nat)
    requires AbsorbRight(t, end).Absorbed?
    ensures Units(t) == Units(AbsorbRight(t, end).rest) + Run(end, end + AbsorbRight(t, end).count)
  {
    if t.Node? && t.index != end {
      AbsorbRightUnits(t.l, end);
      var a := AbsorbRight(t.l, end);
      MoveLast(Units(a.rest), Run(end, end + a.count), Run(t.index, t.index + t.count), Units(t.r));
    }
  }

  lemma {:induction false} AbsorbLeftUnits(t: Tree, start: nat)
    requires AbsorbLeft(t, start).Absorbed?
    ensures Units(t) == Units(AbsorbLeft(t, start).rest) + Run(start - AbsorbLeft(t, start).count, start)
  {
    if t.Node? && t.index + t.count != start {
      AbsorbLeftUnits(t.r, start);
      WrapLeftover(t, AbsorbLeft(t.r, start), start);
    }
  }

  lemma {:induction false} WrapLeftover(t: Tree, a: Absorb, start: nat)
    requires t.Node? && a.Absorbed? && a.count <= start
    requires Units(t.r) == Units(a.rest) + Run(start - a.count, start)
    ensures Units(t) == Units(Wrap(WentRight(t.l, t.index, t.count), a.rest)) + Run(start - a.count, start)
  {
    MoveLast(Units(t.l) + Run(t.index, t.index + t.count), {}, Units(a.rest), Run(start - a.count, start));
  }

  lemma {:induction false} AbsorbRightHeap(t: Tree, end: nat)
    requires Heap(t) && AbsorbRight(t, end).Absorbed?
    ensures Heap(AbsorbRight(t, end).rest) && RootCount(AbsorbRight(t, end).rest) <= RootCount(t)
  {
    if t.Node? && t.index != end {
      AbsorbRightHeap(t.l, end);
    }
  }

  lemma {:induction false} AbsorbLeftHeap(t: Tree, start: nat)
    requires Heap(t) && AbsorbLeft(t, start).Absorbed?
    ensures Heap(AbsorbLeft(t, start).rest) && RootCount(AbsorbLeft(t, start).rest) <= RootCount(t)
  {
    if t.Node? && t.index + t.count != start {
      AbsorbLeftHeap(t.r, start);
    }
  }

  lemma {:induction false} AbsorbRightOrdered(t: Tree, end: nat)
    requires Ordered(t) && AbsorbRight(t, end).Absorbed?
    ensures Ordered(AbsorbRight(t, end).rest)
    ensures Above(AbsorbRight(t, end).rest, end + AbsorbRight(t, end).count)
  {
    if t.Node? && t.index != end {
      AbsorbRightOrdered(t.l, end);
      AbsorbRightKeeps(t.l, end, t.index);
      AboveTrans(t.r, t.index + t.count, end + AbsorbRight(t.l, end).count);
    }
  }

  lemma {:induction false} AbsorbLeftOrdered(t: Tree, start: nat)
    requires Ordered(t) && AbsorbLeft(t, start).Absorbed?
    ensures Ordered(AbsorbLeft(t, start).rest)
    ensures Below(AbsorbLeft(t, start).rest, start - AbsorbLeft(t, start).count)
  {
    if t.Node? && t.index + t.count != start {
      AbsorbLeftOrdered(t.r, start);
      AbsorbLeftKeeps(t.r, start, t.index + t.count);
      BelowTrans(t.l, t.index, start - AbsorbLeft(t.r, start).count);
    }
  }

  /** What is left over, and the absorbed run, stay within the bounds of `t`. */
  lemma {:induction false} AbsorbRightKeeps(t: Tree, end: nat, hi: nat)
    requires AbsorbRight(t, end).Absorbed? && end < hi && Below(t, hi)
    ensures Below(AbsorbRight(t, end).rest, hi) && end + AbsorbRight(t, end).count < hi
  {
    if t.Node? && t.index != end {
      AbsorbRightKeeps(t.l, end, hi);
    }
  }

  lemma {:induction false} AbsorbLeftKeeps(t: Tree, start: nat, lo: nat)
    requires AbsorbLeft(t, start).Absorbed? && lo < start && Above(t, lo)
    ensures Above(AbsorbLeft(t, start).rest, lo) && lo < start - AbsorbLeft(t, start).count
  {
    if t.Node? && t.index + t.count != start {
      AbsorbLeftKeeps(t.r, start, lo);
    }
  }

  // ---------- Insert ----------

  /** The insertion goes through exactly when every requested block is new. */
  lemma {:induction false} InsertIff(t: Tree, idx: nat, num: nat)
    requires Ordered(t) && num >= 1
    ensures Insert(t, idx, num).Done? <==> Misses(t, idx, idx + num)
  {
    if t.Node? {
      if idx == t.index + t.count {
        AbsorbRightIff(t.r, idx, idx + num);
        BelowMisses(t.l, t.index, idx, idx + num);
      } else if idx + num == t.index {
        AbsorbLeftIff(t.l, idx, idx + num);
        AboveMisses(t.r, t.index + t.count, idx, idx + num);
      } else if idx + num < t.index {
        InsertIff(t.l, idx, num);
        AboveMisses(t.r, t.index + t.count, idx, idx + num);
      } else if idx > t.index + t.count {
        InsertIff(t.r, idx, num);
        BelowMisses(t.l, t.index, idx, idx + num);
      }
    }
  }

  lemma {:induction false} InsertUnits(t: Tree, idx: nat, num: nat)
    requires Insert(t, idx, num).Done?
    ensures Units(Insert(t, idx, num).t) == Units(t) + Run(idx, idx + num)
  {
    if t.Node? {
      if idx == t.index + t.count {
        MergeRightUnits(t, num);
      } else if idx + num == t.index {
        MergeLeftUnits(t, idx, num);
      } else if idx + num < t.index {
        InsertUnits(t.l, idx, num);
        ClimbUnits(WentLeft(t.index, t.count, t.r), Insert(t.l, idx, num));
      } else {
        InsertUnits(t.r, idx, num);
        ClimbUnits(WentRight(t.l, t.index, t.count), Insert(t.r, idx, num));
      }
    }
  }

  lemma {:induction false} MergeRightUnits(t: Tree, num: nat)
    requires t.Node? && AbsorbRight(t.r, t.index + t.count + num).Absorbed?
    ensures var a := AbsorbRight(t.r, t.index + t.count + num);
      Units(Node(t.l, t.index, t.count + num + a.count, a.rest)) == Units(t) + Run(t.index + t.count, t.index + t.count + num)
  {
    AbsorbRightUnits(t.r, t.index + t.count + num);
  }

  lemma {:induction false} MergeLeftUnits(t: Tree, idx: nat, num: nat)
    requires t.Node? && idx + num == t.index && AbsorbLeft(t.l, idx).Absorbed?
    ensures var a := AbsorbLeft(t.l, idx);
      Units(Node(a.rest, idx - a.count, t.count + num + a.count, t.r)) == Units(t) + Run(idx, idx + num)
  {
    AbsorbLeftUnits(t.l, idx);
  }

  /** A rotation changes neither the blocks nor the in-order list. */
  lemma {:induction false} ClimbUnits(f: Frame, r: Ins)
    requires r.Done?
    ensures Units(Climb(f, r).t) == Units(Wrap(f, r.t))
    ensures InOrder(Climb(f, r).t) == InOrder(Wrap(f, r.t))
    ensures NodeCount(Climb(f, r).t) == NodeCount(Wrap(f, r.t))
  {
  }

  // ---------- Insert: bounds and search order ----------

  lemma {:induction false} InsertBelow(t: Tree, idx: nat, num: nat, k: nat)
    requires Insert(t, idx, num).Done? && Below(t, k) && idx + num < k
    ensures Below(Insert(t, idx, num).t, k)
  {
    if t.Node? {
      if idx == t.index + t.count {
        AbsorbRightKeeps(t.r, idx + num, k);
      } else if idx + num == t.index {
        AbsorbLeftBelow(t.l, idx, k);
      } else if idx + num < t.index {
        InsertBelow(t.l, idx, num, k);
      } else {
        InsertBelow(t.r, idx, num, k);
      }
    }
  }

  lemma {:induction false} InsertAbove(t: Tree, idx: nat, num: nat, k: nat)
    requires Insert(t, idx, num).Done? && Above(t, k) && k < idx
    ensures Above(Insert(t, idx, num).t, k)
  {
    if t.Node? {
      if idx == t.index + t.count {
        AbsorbRightAbove(t.r, idx + num, k);
      } else if idx + num == t.index {
        AbsorbLeftKeeps(t.l, idx, k);
      } else if idx + num < t.index {
        InsertAbove(t.l, idx, num, k);
      } else {
        InsertAbove(t.r, idx, num, k);
      }
    }
  }

  lemma AbsorbLeftBelow(t: Tree, start: nat, k: nat)
    requires AbsorbLeft(t, start).Absorbed? && Below(t, k)
    ensures Below(AbsorbLeft(t, start).rest, k)
  {
  }

  lemma AbsorbRightAbove(t: Tree, end: nat, k: nat)
    requires AbsorbRight(t, end).Absorbed? && Above(t, k)
    ensures Above(AbsorbRight(t, end).rest, k)
  {
  }

  lemma {:induction false} InsertOrdered(t: Tree, idx: nat, num: nat)
    requires Ordered(t) && num >= 1 && Insert(t, idx, num).Done?
    ensures Ordered(Insert(t, idx, num).t)
  {
    if t.Node? {
      if idx == t.index + t.count {
        MergeRightOrdered(t, num);
      } else if idx + num == t.index {
        MergeLeftOrdered(t, idx, num);
      } else if idx + num < t.index {
        InsertOrdered(t.l, idx, num);
        InsertBelow(t.l, idx, num, t.index);
        ClimbLeftOrdered(t, Insert(t.l, idx, num));
      } else {
        InsertOrdered(t.r, idx, num);
        InsertAbove(t.r, idx, num, t.index + t.count);
        ClimbRightOrdered(t, Insert(t.r, idx, num));
      }
    }
  }

  lemma {:induction false} MergeRightOrdered(t: Tree, num: nat)
    requires Ordered(t) && t.Node? && AbsorbRight(t.r, t.index + t.count + num).Absorbed?
    ensures var a := AbsorbRight(t.r, t.index + t.count + num);
      Ordered(Node(t.l, t.index, t.count + num + a.count, a.rest))
  {
    AbsorbRightOrdered(t.r, t.index + t.count + num);
  }

  lemma {:induction false} MergeLeftOrdered(t: Tree, idx: nat, num: nat)
    requires Ordered(t) && t.Node? && idx + num == t.index && AbsorbLeft(t.l, idx).Absorbed?
    ensures var a := AbsorbLeft(t.l, idx);
      Ordered(Node(a.rest, idx - a.count, t.count + num + a.count, t.r))
  {
    AbsorbLeftOrdered(t.l, idx);
  }

  lemma {:induction false} ClimbLeftOrdered(t: Tree, r: Ins)
    requires Ordered(t) && t.Node? && r.Done? && Ordered(r.t) && Below(r.t, t.index)
    ensures Ordered(Climb(WentLeft(t.index, t.count, t.r), r).t)
  {
    if r.t.Node? {
      AboveTrans(t.r, t.index + t.count, r.t.index + r.t.count);
    }
  }

  lemma {:induction false} ClimbRightOrdered(t: Tree, r: Ins)
    requires Ordered(t) && t.Node? && r.Done? && Ordered(r.t) && Above(r.t, t.index + t.count)
    ensures Ordered(Climb(WentRight(t.l, t.index, t.count), r).t)
  {
    if r.t.Node? {
      BelowTrans(t.l, t.index, r.t.index);
    }
  }

  /** The result may stand where `t` stood once its root has been compared with the
      parent: only a rising root can exceed the old one, and its children cannot. */
  ghost predicate Fits(r: Ins, was: nat) {
    && r.Done? && r.t.Node? && Heap(r.t)
    && (r.rising ==> RootCount(r.t.l) <= was && RootCount(r.t.r) <= was)
    && (!r.rising ==> r.t.count == was)
  }

  lemma {:induction false} InsertHeap(t: Tree, idx: nat, num: nat)
    requires Heap(t) && Insert(t, idx, num).Done?
    ensures Fits(Insert(t, idx, num), RootCount(t))
  {
    if t.Node? {
      if idx == t.index + t.count {
        AbsorbRightHeap(t.r, idx + num);
      } else if idx + num == t.index {
        AbsorbLeftHeap(t.l, idx);
      } else if idx + num < t.index {
        InsertHeap(t.l, idx, num);
        ClimbHeap(WentLeft(t.index, t.count, t.r), RootCount(t.l), Insert(t.l, idx, num));
      } else {
        InsertHeap(t.r, idx, num);
        ClimbHeap(WentRight(t.l, t.index, t.count), RootCount(t.r), Insert(t.r, idx, num));
      }
    }
  }

  lemma {:induction false} ClimbHeap(f: Frame, was: nat, r: Ins)
    requires Fits(r, was) && was <= f.count
    requires f.WentLeft? ==> Heap(f.right) && RootCount(f.right) <= f.count
    requires f.WentRight? ==> Heap(f.left) && RootCount(f.left) <= f.count
    ensures Fits(Climb(f, r), f.count)
  {
  }

  /** The tree after an insertion, side by side with the tree before: below the root on one
      side only, and that subtree's root comes up exactly when it is now strictly larger. */
  lemma {:induction false} InsertShape(t: Tree, idx: nat, num: nat)
    requires Wf(t) && Insert(t, idx, num).Done?
    ensures t.Leaf? ==> Insert(t, idx, num).t == Node(Leaf, idx, num, Leaf)
    ensures t.Node? && idx + num < t.index ==>
      Insert(t.l, idx, num).Done? &&
      var left := Insert(t.l, idx, num).t;
      Insert(t, idx, num).t ==
        if left.Node? && left.count > t.count then Node(left.l, left.index, left.count, Node(left.r, t.index, t.count, t.r))
        else Node(left, t.index, t.count, t.r)
    ensures t.Node? && idx > t.index + t.count ==>
      Insert(t.r, idx, num).Done? &&
      var right := Insert(t.r, idx, num).t;
      Insert(t, idx, num).t ==
        if right.Node? && right.count > t.count then Node(Node(t.l, t.index, t.count, right.l), right.index, right.count, right.r)
        else Node(t.l, t.index, t.count, right)
    ensures t.Node? && idx == t.index + t.count ==> GrownUp(t, num, Insert(t, idx, num).t)
    ensures t.Node? && idx + num == t.index && idx != t.index + t.count ==> GrownDown(t, num, Insert(t, idx, num).t)
  {
    if t.Node? && idx + num < t.index {
      InsertHeap(t.l, idx, num);
    } else if t.Node? && idx > t.index + t.count {
      InsertHeap(t.r, idx, num);
    } else if t.Node? && idx == t.index + t.count {
      AbsorbedRun(t.r, idx + num);
    } else if t.Node? && idx + num == t.index {
      AbsorbedRunLeft(t.l, idx);
    }
  }

  lemma {:induction false} AbsorbedRun(t: Tree, end: nat)
    requires Ordered(t) && AbsorbRight(t, end).Absorbed?
    ensures var a := AbsorbRight(t, end);
      if a.count == 0 then a.rest == t else Interval(end, a.count) in Nodes(t)
  {
    if t.Node? && end < t.index {
      AbsorbedRun(t.l, end);
    }
  }

  lemma {:induction false} AbsorbedRunLeft(t: Tree, start: nat)
    requires Ordered(t) && AbsorbLeft(t, start).Absorbed?
    ensures var a := AbsorbLeft(t, start);
      if a.count == 0 then a.rest == t else Interval(start - a.count, a.count) in Nodes(t)
  {
    if t.Node? && t.index + t.count < start {
      AbsorbedRunLeft(t.r, start);
    }
  }

  /** The root keeps its start and its left subtree; what it grew by beyond `num` came out
      of the right one. */
  predicate GrownUp(t: Tree, num: nat, t': Tree)
    requires t.Node?
  {
    && t'.Node? && t'.l == t.l && t'.index == t.index && t'.count >= t.count + num
    && (t'.count == t.count + num ==> t'.r == t.r)
    && (t'.count > t.count + num ==> Interval(t.index + t.count + num, t'.count - t.count - num) in Nodes(t.r))
  }

  predicate GrownDown(t: Tree, num: nat, t': Tree)
    requires t.Node?
  {
    && t'.Node? && t'.r == t.r && t'.index + t'.count == t.index + t.count && t'.count >= t.count + num
    && (t'.count == t.count + num ==> t'.l == t.l)
    && (t'.count > t.count + num ==> Interval(t'.index, t'.count - t.count - num) in Nodes(t.l))
  }
}
