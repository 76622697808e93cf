/** The parity driver: the Cartesian tree and the reference list run the same operations,
    give the same answers and hold the same runs. */
module TreeParity {
  import opened Intervals
  import opened Treap
  import opened TreeInsert
  import opened BestFit
  import opened IntervalModel
  import opened CartesianTree

  // ---------- the driver's structural check ----------

  /** The recursive check the driver makes on a tree. */
  predicate CheckHeap(t: Tree, low: nat, high: nat) {
    t.Node? ==>
      && low <= t.index && t.index + t.count <= high
      && (t.l.Node? ==> t.l.index + t.l.count < t.index && t.l.count <= t.count && CheckHeap(t.l, low, t.index))
      && (t.r.Node? ==> t.index + t.count < t.r.index && t.r.count <= t.count && CheckHeap(t.r, t.index + t.count, high))
  }

  /** Neighbours in order, possibly touching. */
  ghost predicate Sorted(s: seq<Interval>) {
    forall i, j :: 0 <= i < j < |s| ==> s[i].End() <= s[j].index
  }

  /** An accepted tree flattens to sorted disjoint runs and its root has the largest count. */
  lemma {:induction false} CheckHeapMeans(t: Tree, low: nat, high: nat)
    requires CheckHeap(t, low, high)
    ensures Sorted(InOrder(t)) && Heap(t)
    ensures forall n :: n in InOrder(t) ==> low <= n.index && n.End() <= high && n.count <= RootCount(t)
  {
    if t.Node? {
      CheckHeapMeans(t.l, low, t.index);
      CheckHeapMeans(t.r, t.index + t.count, high);
      SortedAround(InOrder(t.l), Interval(t.index, t.count), InOrder(t.r));
    }
  }

  lemma {:induction false} SortedAround(a: seq<Interval>, n: Interval, b: seq<Interval>)
    requires Sorted(a) && Sorted(b)
    requires forall x :: x in a ==> x.End() <= n.index
    requires forall x :: x in b ==> n.End() <= x.index
    ensures Sorted(a + [n] + b)
    ensures forall x :: x in a + [n] + b <==> x in a || x == n || x in b
  {
    var s := a + [n] + b;
    forall i, j | 0 <= i < j < |s|
      ensures s[i].End() <= s[j].index
    {
      assert i < |a| ==> s[i] == a[i] && a[i] in a;
      assert j > |a| ==> s[j] == b[j - |a| - 1] && b[j - |a| - 1] in b;
    }
  }

  /** So comparing a request with the root alone decides whether any run is large enough. */
  lemma {:induction false} RootDecidesAnyFit(t: Tree, low: nat, high: nat, num: nat)
    requires CheckHeap(t, low, high) && t.Node?
    ensures RootCount(t) >= num <==> exists n :: n in InOrder(t) && n.count >= num
  {
    CheckHeapMeans(t, low, high);
    InOrderNodes(t);
    assert Interval(t.index, t.count) in Nodes(t);
  }

  /** The check lets touching runs through; with the comparison against the reference list
      it accepts exactly the well-formed trees. */
  lemma {:induction false} CheckHeapExact(t: Tree, low: nat, high: nat)
    requires low <= high
    ensures CheckHeap(t, low, high) && Canonical(InOrder(t)) <==> Wf(t) && Units(t) <= Run(low, high)
  {
    if Wf(t) && Units(t) <= Run(low, high) {
      InOrderCanonical(t);
      WfPassesCheck(t, low, high);
    }
    if CheckHeap(t, low, high) && Canonical(InOrder(t)) {
      CheckHeapMeans(t, low, high);
      CanonicalOrdered(t);
      CheckedUnits(t, low, high);
    }
  }

  lemma {:induction false} WfPassesCheck(t: Tree, low: nat, high: nat)
    requires Wf(t) && Units(t) <= Run(low, high)
    ensures CheckHeap(t, low, high)
  {
    if t.Node? {
      assert t.index in Units(t) && t.index + t.count - 1 in Units(t);
      BelowUnits(t.l, t.index);
      AboveUnits(t.r, t.index + t.count);
      WfPassesCheck(t.l, low, t.index);
      WfPassesCheck(t.r, t.index + t.count, high);
    }
  }

  lemma {:induction false} CheckedUnits(t: Tree, low: nat, high: nat)
    requires CheckHeap(t, low, high)
    ensures Units(t) <= Run(low, high)
  {
    if t.Node? {
      CheckedUnits(t.l, low, t.index);
      CheckedUnits(t.r, t.index + t.count, high);
    }
  }

  lemma {:induction false} CanonicalOrdered(t: Tree)
    requires Canonical(InOrder(t))
    ensures Ordered(t)
  {
    if t.Node? {
      var a, n, b := InOrder(t.l), Interval(t.index, t.count), InOrder(t.r);
      CanonicalConcat(a + [n], b);
      CanonicalConcat(a, [n]);
      CanonicalOrdered(t.l);
      CanonicalOrdered(t.r);
      LastBelow(t.l, t.index);
      FirstAbove(t.r, t.index + t.count);
    }
  }

  lemma {:induction false} LastBelow(t: Tree, k: nat)
    requires Canonical(InOrder(t)) && Ordered(t)
    requires InOrder(t) != [] ==> InOrder(t)[|InOrder(t)| - 1].End() < k
    ensures Below(t, k)
  {
    var s := InOrder(t);
    CanonicalPairs(s);
    UnitsAt(s);
    InOrderUnits(t);
    BelowUnits(t, k);
    forall x | x in Units(t)
      ensures x + 1 < k
    {
      var i: nat :| Within(s, i, x);
      assert i < |s| - 1 ==> s[i].End() < s[|s| - 1].index;
    }
  }

  lemma {:induction false} FirstAbove(t: Tree, k: nat)
    requires Canonical(InOrder(t)) && Ordered(t)
    requires InOrder(t) != [] ==> k < InOrder(t)[0].index
    ensures Above(t, k)
  {
    var s := InOrder(t);
    CanonicalPairs(s);
    UnitsAt(s);
    InOrderUnits(t);
    AboveUnits(t, k);
    forall x | x in Units(t)
      ensures k < x
    {
      var i: nat :| Within(s, i, x);
      assert i > 0 ==> s[0].End() < s[i].index;
    }
  }

  /** An accepted tree whose runs 5..7 and 7..12 touch. */
  lemma CheckHeapAllowsTouching()
    ensures var t := Node(Node(Leaf, 0, 4, Node(Leaf, 5, 2, Leaf)), 7, 5, Leaf);
      CheckHeap(t, 0, 100) && !Canonical(InOrder(t))
  {
    var t := Node(Node(Leaf, 0, 4, Node(Leaf, 5, 2, Leaf)), 7, 5, Leaf);
    assert InOrder(t) == [Interval(0, 4), Interval(5, 2), Interval(7, 5)];
    CanonicalPairs([Interval(0, 4)]);
  }

  // ---------- lockstep ----------

  /** The driver's comparison after each step. */
  ghost predicate Agree(tree: CartesianTree, model: Model)
    reads tree, model, model.intervals
  {
    tree.Valid() && model.Valid() && model.Contents() == InOrder(tree.root)
  }

  lemma {:induction false} Agreement(tree: CartesianTree, model: Model)
    requires tree.Valid() && model.Valid() && Listed(model.Contents()) == Units(tree.root)
    ensures Agree(tree, model)
  {
    InOrderCanonical(tree.root);
    CanonicalUnique(model.Contents(), InOrder(tree.root));
  }

  method InsertBoth(tree: CartesianTree, model: Model, idx: nat, num: nat) returns (expected: bool, result: bool)
    requires Agree(tree, model) && num >= 1 && idx + num <= tree.blocks
    requires Isolated(model.Contents(), idx, num) ==> model.size < model.intervals.Length
    modifies tree, model, model.intervals
    ensures Agree(tree, model) && result == expected
    ensures result <==> Units(old(tree.root)) !! Run(idx, idx + num)
  {
    InOrderUnits(tree.root);
    assert tree.root.Leaf? <==> model.size == 0;
    expected := model.Insert(idx, num);
    result := tree.MergeInsert(idx, num);
    Agreement(tree, model);
  }

  /** The tree picks some run by its shape; the list confirms that the pick is legal. */
  method TakeBoth(tree: CartesianTree, model: Model, num: nat) returns (expected: bool, result: bool, confirmed: bool)
    requires Agree(tree, model) && num >= 1
    modifies tree, model, model.intervals
    ensures Agree(tree, model) && result == expected && confirmed == result
  {
    InOrderNodes(tree.root);
    InOrderUnits(tree.root);
    expected := model.AnyFit(num);
    var idx;
    result, idx := tree.TakeUnits(num);
    confirmed := false;
    if result {
      confirmed := model.TakeAt(idx, num);
    }
    Agreement(tree, model);
  }

  /** Best fit leaves no choice: both sides take from the same place. */
  method TakeLowAddrBoth(tree: CartesianTree, model: Model, num: nat, given: nat)
    returns (expected: bool, expectedIdx: nat, result: bool, idx: nat)
    requires Agree(tree, model) && num >= 1
    modifies tree, model, model.intervals
    ensures Agree(tree, model) && result == expected
    ensures result ==> idx == expectedIdx
  {
    InOrderNodes(tree.root);
    InOrderUnits(tree.root);
    expected, expectedIdx := model.BestFit(num, given);
    result, idx := tree.TakeUnitsLowAddr(num);
    if result {
      var confirmed := model.TakeAt(idx, num);
      assert confirmed;
    }
    Agreement(tree, model);
  }

  // ---------- order does not matter ----------

  /** Two runs can be inserted in either order: both orders succeed or both fail, and the
      runs held at the end are the same, although the trees may differ in shape. */
  lemma {:induction false} InsertCommutes(t: Tree, i: nat, m: nat, j: nat, n: nat)
    requires Wf(t) && m >= 1 && n >= 1
    ensures var a, b := Insert(t, i, m), Insert(t, j, n);
      && ((a.Done? && Insert(a.t, j, n).Done?) <==> (b.Done? && Insert(b.t, i, m).Done?))
      && (a.Done? && Insert(a.t, j, n).Done? && b.Done? && Insert(b.t, i, m).Done?
          ==> InOrder(Insert(a.t, j, n).t) == InOrder(Insert(b.t, i, m).t))
  {
    InsertTwice(t, i, m, j, n);
    InsertTwice(t, j, n, i, m);
    var a, b := Insert(t, i, m), Insert(t, j, n);
    if a.Done? && Insert(a.t, j, n).Done? && b.Done? && Insert(b.t, i, m).Done? {
      SameUnitsSameRuns(Insert(a.t, j, n).t, Insert(b.t, i, m).t);
    }
  }

  lemma {:induction false} InsertTwice(t: Tree, i: nat, m: nat, j: nat, n: nat)
    requires Wf(t) && m >= 1 && n >= 1
    ensures var a := Insert(t, i, m);
      && ((a.Done? && Insert(a.t, j, n).Done?) <==>
          Units(t) !! Run(i, i + m) && Units(t) !! Run(j, j + n) && Run(i, i + m) !! Run(j, j + n))
      && (a.Done? && Insert(a.t, j, n).Done? ==>
          Ordered(Insert(a.t, j, n).t) && Units(Insert(a.t, j, n).t) == Units(t) + (Run(i, i + m) + Run(j, j + n)))
  {
    InsertSound(t, i, m);
    var a := Insert(t, i, m);
    if a.Done? {
      InsertSound(a.t, j, n);
    }
  }

  /** One insertion: when it goes through, and what it leaves. */
  lemma {:induction false} InsertSound(t: Tree, idx: nat, num: nat)
    requires Wf(t) && num >= 1
    ensures Insert(t, idx, num).Done? <==> Units(t) !! Run(idx, idx + num)
    ensures Insert(t, idx, num).Done? ==>
      Wf(Insert(t, idx, num).t) && Units(Insert(t, idx, num).t) == Units(t) + Run(idx, idx + num)
  {
    InsertIff(t, idx, num);
    MissesUnits(t, idx, idx + num);
    if Insert(t, idx, num).Done? {
      InsertUnits(t, idx, num);
      InsertOrdered(t, idx, num);
      InsertHeap(t, idx, num);
    }
  }

  /** Taking a run and putting it back restores the list element for element. */
  method TakeThenInsert(model: Model, index: nat, count: nat) returns (ok: bool)
    requires model.Valid() && count >= 1 && index + count < INDEX_LIMIT
    modifies model, model.intervals
    ensures model.Valid() && model.Contents() == old(model.Contents())
    ensures ok <==> exists n :: n in old(model.Contents()) && n.index == index && n.count >= count
  {
    ghost var was := model.Contents();
    ok := model.TakeAt(index, count);
    if ok {
      var back := model.Insert(index, count);
      assert Listed(model.Contents()) == Listed(was);
      CanonicalUnique(model.Contents(), was);
    }
  }
}
