/** What each operation of the Cartesian tree computes, as functions on tree values,
    with the proof that search order, heap order and the covered blocks come out right. */
module TreeOps {
  import opened Intervals
  import opened Treap

  // ---------- lowering ----------

  /** The tree left when a node of count zero over `l` and `r` has sunk to a leaf and gone. */
  function Join(l: Tree, r: Tree): Tree
    decreases NodeCount(l) + NodeCount(r)
  {
    if l.Node? && !(r.Node? && r.count >= l.count) then
      Node(l.l, l.index, l.count, Join(l.r, r))
    else if r.Node? then
      Node(Join(l, r.l), r.index, r.count, r.r)
    else
      Leaf
  }

  /** A node of count `c` rotates below its larger child until no child is larger. */
  function Lower(l: Tree, i: nat, c: nat, r: Tree): Tree
    decreases NodeCount(l) + NodeCount(r)
  {
    if c >= RootCount(l) && c >= RootCount(r) then
      Node(l, i, c, r)
    else if l.Node? && !(r.Node? && r.count >= l.count) then
      Node(l.l, l.index, l.count, Lower(l.r, i, c, r))
    else
      Node(Lower(l, i, c, r.l), r.index, r.count, r.r)
  }

  // ---------- Join: blocks, bounds, heap order, search order ----------

  lemma {:induction false} JoinUnits(l: Tree, r: Tree)
    ensures Units(Join(l, r)) == Units(l) + Units(r)
    ensures Nodes(Join(l, r)) == Nodes(l) + Nodes(r)
    ensures NodeCount(Join(l, r)) == NodeCount(l) + NodeCount(r)
    decreases NodeCount(l) + NodeCount(r)
  {
    if l.Node? && !(r.Node? && r.count >= l.count) {
      JoinUnits(l.r, r);
    } else if r.Node? {
      JoinUnits(l, r.l);
    }
  }

  lemma {:induction false} JoinBelow(l: Tree, r: Tree, k: nat)
    requires Below(l, k) && Below(r, k)
    ensures Below(Join(l, r), k)
    decreases NodeCount(l) + NodeCount(r)
  {
    if l.Node? && !(r.Node? && r.count >= l.count) {
      JoinBelow(l.r, r, k);
    } else if r.Node? {
      JoinBelow(l, r.l, k);
    }
  }

  lemma {:induction false} JoinAbove(l: Tree, r: Tree, k: nat)
    requires Above(l, k) && Above(r, k)
    ensures Above(Join(l, r), k)
    decreases NodeCount(l) + NodeCount(r)
  {
    if l.Node? && !(r.Node? && r.count >= l.count) {
      JoinAbove(l.r, r, k);
    } else if r.Node? {
      JoinAbove(l, r.l, k);
    }
  }

  lemma {:induction false} JoinHeap(l: Tree, r: Tree)
    requires Heap(l) && Heap(r)
    ensures Heap(Join(l, r))
    ensures RootCount(Join(l, r)) == if RootCount(l) > RootCount(r) then RootCount(l) else RootCount(r)
    decreases NodeCount(l) + NodeCount(r)
  {
    if l.Node? && !(r.Node? && r.count >= l.count) {
      JoinHeap(l.r, r);
    } else if r.Node? {
      JoinHeap(l, r.l);
    }
  }

  /** `m` is where the removed node stood. */
  lemma {:induction false} JoinOrdered(l: Tree, m: nat, r: Tree)
    requires Ordered(l) && Ordered(r) && Below(l, m) && Above(r, m)
    ensures Ordered(Join(l, r))
    decreases NodeCount(l) + NodeCount(r)
  {
    if l.Node? && !(r.Node? && r.count >= l.count) {
      JoinOrdered(l.r, m, r);
      AboveTrans(r, m, l.index + l.count);
      JoinAbove(l.r, r, l.index + l.count);
    } else if r.Node? {
      JoinOrdered(l, m, r.l);
      BelowTrans(l, m, r.index);
      JoinBelow(l, r.l, r.index);
    }
  }

  // ---------- Lower: the same four ----------

  lemma {:induction false} LowerUnits(l: Tree, i: nat, c: nat, r: Tree)
    ensures Units(Lower(l, i, c, r)) == Units(l) + Run(i, i + c) + Units(r)
    decreases NodeCount(l) + NodeCount(r)
  {
    if c >= RootCount(l) && c >= RootCount(r) {
    } else if l.Node? && !(r.Node? && r.count >= l.count) {
      LowerUnits(l.r, i, c, r);
    } else {
      LowerUnits(l, i, c, r.l);
    }
  }

  lemma {:induction false} LowerNodeCount(l: Tree, i: nat, c: nat, r: Tree)
    ensures NodeCount(Lower(l, i, c, r)) == NodeCount(l) + 1 + NodeCount(r)
    decreases NodeCount(l) + NodeCount(r)
  {
    if c >= RootCount(l) && c >= RootCount(r) {
    } else if l.Node? && !(r.Node? && r.count >= l.count) {
      LowerNodeCount(l.r, i, c, r);
    } else {
      LowerNodeCount(l, i, c, r.l);
    }
  }

  lemma {:induction false} LowerBelow(l: Tree, i: nat, c: nat, r: Tree, k: nat)
    requires Below(l, k) && i + c < k && Below(r, k)
    ensures Below(Lower(l, i, c, r), k)
    decreases NodeCount(l) + NodeCount(r)
  {
    if c >= RootCount(l) && c >= RootCount(r) {
    } else if l.Node? && !(r.Node? && r.count >= l.count) {
      LowerBelow(l.r, i, c, r, k);
    } else {
      LowerBelow(l, i, c, r.l, k);
    }
  }

  lemma {:induction false} LowerAbove(l: Tree, i: nat, c: nat, r: Tree, k: nat)
    requires Above(l, k) && k < i && Above(r, k)
    ensures Above(Lower(l, i, c, r), k)
    decreases NodeCount(l) + NodeCount(r)
  {
    if c >= RootCount(l) && c >= RootCount(r) {
    } else if l.Node? && !(r.Node? && r.count >= l.count) {
      LowerAbove(l.r, i, c, r, k);
    } else {
      LowerAbove(l, i, c, r.l, k);
    }
  }

  lemma {:induction false} LowerHeap(l: Tree, i: nat, c: nat, r: Tree)
    requires Heap(l) && Heap(r)
    ensures Heap(Lower(l, i, c, r))
    ensures RootCount(Lower(l, i, c, r)) in {c, RootCount(l), RootCount(r)}
    ensures RootCount(Lower(l, i, c, r)) >= c
    decreases NodeCount(l) + NodeCount(r)
  {
    if c >= RootCount(l) && c >= RootCount(r) {
    } else if l.Node? && !(r.Node? && r.count >= l.count) {
      LowerHeap(l.r, i, c, r);
    } else {
      LowerHeap(l, i, c, r.l);
    }
  }

  lemma {:induction false} LowerOrdered(l: Tree, i: nat, c: nat, r: Tree)
    requires Ordered(l) && Ordered(r) && Below(l, i) && c >= 1 && Above(r, i + c)
    ensures Ordered(Lower(l, i, c, r))
    decreases NodeCount(l) + NodeCount(r)
  {
    if c >= RootCount(l) && c >= RootCount(r) {
    } else if l.Node? && !(r.Node? && r.count >= l.count) {
      LowerOrdered(l.r, i, c, r);
      AboveTrans(r, i + c, l.index + l.count);
      LowerAbove(l.r, i, c, r, l.index + l.count);
    } else {
      LowerOrdered(l, i, c, r.l);
      BelowTrans(l, i, r.index);
      LowerBelow(l, i, c, r.l, r.index);
    }
  }

  // ---------- which side comes up ----------

  /** The larger root comes up and keeps its outer subtree, the right one on equal counts. */
  lemma {:induction false} JoinShape(l: Tree, r: Tree)
    requires l.Node? && r.Node?
    ensures var t := Join(l, r);
      && t.Node? && NodeCount(t) == NodeCount(l) + NodeCount(r)
      && (l.count > r.count ==> t.l == l.l && t.index == l.index && t.count == l.count)
      && (l.count <= r.count ==> t.r == r.r && t.index == r.index && t.count == r.count)
  {
    JoinUnits(l, r);
  }

  /** A node that has shrunk stays while no child is larger; else the larger child comes up,
      the right one on equal counts. */
  lemma {:induction false} LowerShape(l: Tree, i: nat, c: nat, r: Tree)
    requires l.Node? && r.Node?
    ensures var t := Lower(l, i, c, r);
      && t.Node? && NodeCount(t) == NodeCount(l) + 1 + NodeCount(r)
      && (c >= l.count && c >= r.count ==> t == Node(l, i, c, r))
      && (l.count > c && l.count > r.count ==> t.l == l.l && t.index == l.index && t.count == l.count)
      && (r.count > c && r.count >= l.count ==> t.r == r.r && t.index == r.index && t.count == r.count)
  {
    LowerNodeCount(l, i, c, r);
  }
}
