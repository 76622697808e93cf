/** The value side of the native Cartesian tree: nodes ordered by block index and
    heap-ordered by block count, with the pure counterpart of each tree operation. */
module Treap {
  import opened Intervals

  datatype Tree = Leaf | Node(l: Tree, index: nat, count: nat, r: Tree)

  function RootCount(t: Tree): nat {
    if t.Leaf? then 0 else t.count
  }

  /** The blocks a tree covers. */
  function Units(t: Tree): set<nat> {
    if t.Leaf? then {} else Units(t.l) + Run(t.index, t.index + t.count) + Units(t.r)
  }

  function NodeCount(t: Tree): nat {
    if t.Leaf? then 0 else NodeCount(t.l) + 1 + NodeCount(t.r)
  }

  function TotalCount(t: Tree): nat {
    if t.Leaf? then 0 else TotalCount(t.l) + t.count + TotalCount(t.r)
  }

  function InOrder(t: Tree): seq<Interval> {
    if t.Leaf? then [] else InOrder(t.l) + [Interval(t.index, t.count)] + InOrder(t.r)
  }

  function Nodes(t: Tree): set<Interval> {
    if t.Leaf? then {} else Nodes(t.l) + {Interval(t.index, t.count)} + Nodes(t.r)
  }

  /** Every run of `t` ends below block `k`, leaving a gap. */
  predicate Below(t: Tree, k: nat) {
    t.Node? ==> Below(t.l, k) && t.index + t.count < k && Below(t.r, k)
  }

  /** Every run of `t` starts above block `k`, leaving a gap. */
  predicate Above(t: Tree, k: nat) {
    t.Node? ==> Above(t.l, k) && k < t.index && Above(t.r, k)
  }

  /** Search order, with positive counts and a gap between neighbouring runs. */
  predicate Ordered(t: Tree) {
    t.Node? ==>
      && t.count >= 1
      && Ordered(t.l) && Ordered(t.r)
      && Below(t.l, t.index) && Above(t.r, t.index + t.count)
  }

  predicate Heap(t: Tree) {
    t.Node? ==>
      && RootCount(t.l) <= t.count && RootCount(t.r) <= t.count
      && Heap(t.l) && Heap(t.r)
  }

  predicate Wf(t: Tree) { Ordered(t) && Heap(t) }

  // ---------- bounds ----------

  lemma {:induction false} BelowUnit(t: Tree, k: nat, x: nat)
    requires Below(t, k) && x in Units(t)
    ensures x + 1 < k
  {
    if x in Units(t.l) {
      BelowUnit(t.l, k, x);
    } else if x in Units(t.r) {
      BelowUnit(t.r, k, x);
    }
  }

  lemma {:induction false} UnitsBelow(t: Tree, k: nat)
    requires Ordered(t) && forall x :: x in Units(t) ==> x + 1 < k
    ensures Below(t, k)
  {
    if t.Node? {
      assert t.index + t.count - 1 in Units(t);
      UnitsBelow(t.l, k);
      UnitsBelow(t.r, k);
    }
  }

  lemma {:induction false} BelowUnits(t: Tree, k: nat)
    requires Ordered(t)
    ensures Below(t, k) ==> forall x :: x in Units(t) ==> x + 1 < k
    ensures (forall x :: x in Units(t) ==> x + 1 < k) ==> Below(t, k)
  {
    if Below(t, k) {
      forall x | x in Units(t)
        ensures x + 1 < k
      {
        BelowUnit(t, k, x);
      }
    }
    if forall x :: x in Units(t) ==> x + 1 < k {
      UnitsBelow(t, k);
    }
  }

  lemma {:induction false} AboveUnit(t: Tree, k: nat, x: nat)
    requires Above(t, k) && x in Units(t)
    ensures k < x
  {
    if x in Units(t.l) {
      AboveUnit(t.l, k, x);
    } else if x in Units(t.r) {
      AboveUnit(t.r, k, x);
    }
  }

  lemma {:induction false} UnitsAbove(t: Tree, k: nat)
    requires Ordered(t) && forall x :: x in Units(t) ==> k < x
    ensures Above(t, k)
  {
    if t.Node? {
      assert t.index in Units(t);
      UnitsAbove(t.l, k);
      UnitsAbove(t.r, k);
    }
  }

  lemma {:induction false} AboveUnits(t: Tree, k: nat)
    requires Ordered(t)
    ensures Above(t, k) ==> forall x :: x in Units(t) ==> k < x
    ensures (forall x :: x in Units(t) ==> k < x) ==> Above(t, k)
  {
    if Above(t, k) {
      forall x | x in Units(t)
        ensures k < x
      {
        AboveUnit(t, k, x);
      }
    }
    if forall x :: x in Units(t) ==> k < x {
      UnitsAbove(t, k);
    }
  }

  lemma BelowTrans(t: Tree, k: nat, m: nat)
    requires Below(t, k) && k <= m
    ensures Below(t, m)
  {
  }

  lemma AboveTrans(t: Tree, k: nat, m: nat)
    requires Above(t, k) && m <= k
    ensures Above(t, m)
  {
  }

  // ---------- the flattened tree ----------

  lemma {:induction false} InOrderUnits(t: Tree)
    ensures Listed(InOrder(t)) == Units(t)
    ensures ListTotal(InOrder(t)) == TotalCount(t) && |InOrder(t)| == NodeCount(t)
  {
    if t.Node? {
      InOrderUnits(t.l);
      InOrderUnits(t.r);
      ListAround(InOrder(t.l), Interval(t.index, t.count), InOrder(t.r));
    }
  }

  lemma {:induction false} ListAround(a: seq<Interval>, n: Interval, b: seq<Interval>)
    ensures Listed(a + [n] + b) == Listed(a) + Run(n.index, n.End()) + Listed(b)
    ensures ListTotal(a + [n] + b) == ListTotal(a) + n.count + ListTotal(b)
  {
    UnitsConcat(a + [n], b);
    UnitsConcat(a, [n]);
    assert [n][1..] == [];
  }

  lemma {:induction false} InOrderNodes(t: Tree)
    ensures forall n :: n in InOrder(t) <==> n in Nodes(t)
  {
    if t.Node? {
      InOrderNodes(t.l);
      InOrderNodes(t.r);
    }
  }

  lemma {:induction false} NodeInside(t: Tree, n: Interval)
    requires n in Nodes(t)
    ensures Run(n.index, n.End()) <= Units(t)
  {
    if n in Nodes(t.l) {
      NodeInside(t.l, n);
    } else if n in Nodes(t.r) {
      NodeInside(t.r, n);
    }
  }

  lemma {:induction false} InOrderCanonical(t: Tree)
    requires Ordered(t)
    ensures Canonical(InOrder(t)) && Listed(InOrder(t)) == Units(t)
  {
    InOrderUnits(t);
    if t.Node? {
      InOrderCanonical(t.l);
      InOrderCanonical(t.r);
      ListedAround(t);
      CanonicalAround(InOrder(t.l), Interval(t.index, t.count), InOrder(t.r));
    }
  }

  lemma {:induction false} ListedAround(t: Tree)
    requires Ordered(t) && t.Node?
    ensures forall x :: x in Listed(InOrder(t.l)) ==> x + 1 < t.index
    ensures forall x :: x in Listed(InOrder(t.r)) ==> t.index + t.count < x
  {
    InOrderUnits(t.l);
    InOrderUnits(t.r);
    BelowUnits(t.l, t.index);
    AboveUnits(t.r, t.index + t.count);
  }

  lemma {:induction false} CanonicalAround(a: seq<Interval>, n: Interval, b: seq<Interval>)
    requires Canonical(a) && Canonical(b) && n.count >= 1
    requires forall x :: x in Listed(a) ==> x + 1 < n.index
    requires forall x :: x in Listed(b) ==> n.End() < x
    ensures Canonical(a + [n] + b)
  {
    Bounds(a);
    Bounds(b);
    CanonicalConcat(a, [n]);
    CanonicalConcat(a + [n], b);
  }

  /** Two ordered trees over the same blocks hold the same runs, whatever their shape. */
  lemma {:induction false} SameUnitsSameRuns(a: Tree, b: Tree)
    requires Ordered(a) && Ordered(b) && Units(a) == Units(b)
    ensures InOrder(a) == InOrder(b)
  {
    InOrderCanonical(a);
    InOrderCanonical(b);
    CanonicalUnique(InOrder(a), InOrder(b));
  }

  lemma {:induction false} TotalIsSize(t: Tree)
    requires Ordered(t)
    ensures TotalCount(t) == |Units(t)|
  {
    InOrderCanonical(t);
    InOrderUnits(t);
    ListSize(InOrder(t));
  }

  /** A tree over the blocks lo..hi needs at most half as many nodes, rounded up. */
  lemma {:induction false} NodeBudget(t: Tree, lo: nat, hi: nat)
    requires Ordered(t) && Units(t) <= Run(lo, hi) && lo <= hi
    ensures 2 * NodeCount(t) <= hi - lo + 1
  {
    if t.Node? {
      assert t.index in Units(t) && t.index + t.count - 1 in Units(t);
      BelowUnits(t.l, t.index);
      AboveUnits(t.r, t.index + t.count);
      if t.l.Node? {
        assert t.l.index in Units(t.l);
        NodeBudget(t.l, lo, t.index - 1);
      }
      if t.r.Node? {
        assert t.r.index in Units(t.r);
        NodeBudget(t.r, t.index + t.count + 1, hi);
      }
    }
  }

  /** The root of a heap has the largest count. */
  lemma {:induction false} RootIsMax(t: Tree)
    requires Heap(t)
    ensures forall n :: n in Nodes(t) ==> n.count <= RootCount(t)
  {
    if t.Node? {
      RootIsMax(t.l);
      RootIsMax(t.r);
    }
  }

  // ---------- positions in a tree ----------

  /** One step of a path from the root, holding what was left behind. */
  datatype Frame =
    | WentLeft(index: nat, count: nat, right: Tree)
    | WentRight(left: Tree, index: nat, count: nat)

  function Wrap(f: Frame, t: Tree): Tree {
    match f
    case WentLeft(i, c, right) => Node(t, i, c, right)
    case WentRight(left, i, c) => Node(left, i, c, t)
  }

  /** The whole tree around a subtree; the last frame is the innermost. */
  function Plug(ctx: seq<Frame>, t: Tree): Tree
    decreases |ctx|
  {
    if ctx == [] then t else Plug(ctx[..|ctx| - 1], Wrap(ctx[|ctx| - 1], t))
  }

  lemma {:induction false} PlugPush(ctx: seq<Frame>, f: Frame, t: Tree)
    ensures Plug(ctx + [f], t) == Plug(ctx, Wrap(f, t))
  {
    assert (ctx + [f])[..|ctx|] == ctx;
  }

  /** `s` may stand in for `t` inside any tree: it covers no other blocks and its root
      count is no larger. */
  predicate Shrinks(s: Tree, t: Tree) {
    Wf(s) && Units(s) <= Units(t) && RootCount(s) <= RootCount(t)
  }

  lemma {:induction false} PlugShrinks(ctx: seq<Frame>, t: Tree, s: Tree)
    requires Wf(Plug(ctx, t)) && Shrinks(s, t)
    ensures Wf(t) && Units(t) <= Units(Plug(ctx, t))
    ensures Shrinks(Plug(ctx, s), Plug(ctx, t))
    ensures Units(Plug(ctx, s)) == Units(Plug(ctx, t)) - (Units(t) - Units(s))
    ensures NodeCount(Plug(ctx, s)) - NodeCount(s) == NodeCount(Plug(ctx, t)) - NodeCount(t)
    decreases |ctx|
  {
    if ctx != [] {
      var f := ctx[|ctx| - 1];
      PlugWf(ctx[..|ctx| - 1], Wrap(f, t));
      WrapShrinks(f, t, s);
      PlugShrinks(ctx[..|ctx| - 1], Wrap(f, t), Wrap(f, s));
    }
  }

  lemma {:induction false} WrapShrinks(f: Frame, t: Tree, s: Tree)
    requires Wf(Wrap(f, t)) && Shrinks(s, t)
    ensures Shrinks(Wrap(f, s), Wrap(f, t))
    ensures Units(t) <= Units(Wrap(f, t))
    ensures Units(Wrap(f, s)) == Units(Wrap(f, t)) - (Units(t) - Units(s))
    ensures NodeCount(Wrap(f, s)) - NodeCount(s) == NodeCount(Wrap(f, t)) - NodeCount(t)
  {
    assert Ordered(Wrap(f, s)) by { WrapOrdered(f, t, s); }
    assert Heap(Wrap(f, s));
    WrapSwap(f, t, s);
  }

  lemma {:induction false} WrapOrdered(f: Frame, t: Tree, s: Tree)
    requires Ordered(Wrap(f, t)) && Ordered(s) && Units(s) <= Units(t)
    ensures Ordered(Wrap(f, s))
  {
    match f
    case WentLeft(i, c, right) =>
      KeepsBelow(t, s, i);
    case WentRight(left, i, c) =>
      KeepsAbove(t, s, i + c);
  }

  lemma {:induction false} KeepsBelow(t: Tree, s: Tree, k: nat)
    requires Ordered(t) && Ordered(s) && Units(s) <= Units(t) && Below(t, k)
    ensures Below(s, k)
  {
    BelowUnits(t, k);
    BelowUnits(s, k);
  }

  lemma {:induction false} KeepsAbove(t: Tree, s: Tree, k: nat)
    requires Ordered(t) && Ordered(s) && Units(s) <= Units(t) && Above(t, k)
    ensures Above(s, k)
  {
    AboveUnits(t, k);
    AboveUnits(s, k);
  }

  lemma {:induction false} WrapSwap(f: Frame, t: Tree, s: Tree)
    requires Ordered(Wrap(f, t)) && Units(s) <= Units(t)
    ensures Units(t) <= Units(Wrap(f, t))
    ensures Units(Wrap(f, s)) == Units(Wrap(f, t)) - (Units(t) - Units(s))
  {
    var rest := match f
      case WentLeft(i, c, right) => Run(i, i + c) + Units(right)
      case WentRight(left, i, c) => Units(left) + Run(i, i + c);
    WrapUnits(f, t, rest);
    WrapUnits(f, s, rest);
    SwapPart(Units(t), Units(s), rest);
  }

  lemma {:induction false} WrapUnits(f: Frame, t: Tree, rest: set<nat>)
    requires f.WentLeft? ==> rest == Run(f.index, f.index + f.count) + Units(f.right)
    requires f.WentRight? ==> rest == Units(f.left) + Run(f.index, f.index + f.count)
    ensures Units(Wrap(f, t)) == Units(t) + rest
    ensures Ordered(Wrap(f, t)) ==> Units(t) !! rest
  {
    if Ordered(Wrap(f, t)) {
      match f
      case WentLeft(i, c, right) =>
        BelowUnits(t, i);
        AboveUnits(right, i + c);
      case WentRight(left, i, c) =>
        BelowUnits(left, i);
        AboveUnits(t, i + c);
    }
  }

  lemma {:induction false} SwapPart<T>(t: set<T>, s: set<T>, rest: set<T>)
    requires s <= t && t !! rest
    ensures s + rest == t + rest - (t - s)
  {
  }

  lemma {:induction false} PlugWf(ctx: seq<Frame>, t: Tree)
    requires Wf(Plug(ctx, t))
    ensures Wf(t)
    decreases |ctx|
  {
    if ctx != [] {
      PlugWf(ctx[..|ctx| - 1], Wrap(ctx[|ctx| - 1], t));
    }
  }
}
